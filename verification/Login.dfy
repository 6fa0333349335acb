/**
 Logging in as internal/api/login.go and internal/api/middleware.go do it: `Allowed` and the
 `Fail` or `Succeed` that records the outcome are separate critical sections, so requests
 interleave between the two. A run is any sequence of those sections.
 */
module LoginProtocol {
  import opened Wrappers
  import opened ThrottleSpec

  datatype Event =
    | Begin(id: nat, key: string, at: int)   // request `id` asks Allowed(key)
    | Finish(id: nat, ok: bool, at: int)     // request `id`, having been allowed, records its outcome

  datatype State = State(table: Table, inFlight: map<nat, string>)

  /** An event of a request that is not in a position to make it does nothing. */
  function Next(l: Limits, s: State, e: Event): State {
    match e
    case Begin(id, key, at) =>
      if id in s.inFlight then s
      else State(
        Step(l, s.table, Call(Allowed, key, at)),
        if Permits(Get(s.table, key), at) then s.inFlight[id := key] else s.inFlight)
    case Finish(id, ok, at) =>
      if id !in s.inFlight then s
      else State(
        Step(l, s.table, Call(if ok then Succeed else Fail, s.inFlight[id], at)),
        s.inFlight - {id})
  }

  function Play(l: Limits, events: seq<Event>): State {
    if events == [] then State(map[], map[])
    else Next(l, Play(l, events[..|events| - 1]), events[|events| - 1])
  }

  /** The event records an outcome of `kind` against `key`. */
  predicate Records(s: State, e: Event, key: string, ok: bool) {
    e.Finish? && e.ok == ok && e.id in s.inFlight && s.inFlight[e.id] == key
  }

  /** How many failures on `key` the run records at times in [from, until). */
  function Failures(l: Limits, events: seq<Event>, key: string, from: int, until: int): nat {
    if events == [] then 0
    else
      var before := events[..|events| - 1];
      var e := events[|events| - 1];
      Failures(l, before, key, from, until) +
      if Records(Play(l, before), e, key, false) && from <= e.at < until then 1 else 0
  }

  function InFlight(s: State, key: string): set<nat> {
    set id | id in s.inFlight && s.inFlight[id] == key
  }

  /** At no point of the run are more than k requests in flight on the key. */
  ghost predicate AtMostInFlight(l: Limits, events: seq<Event>, key: string, k: nat) {
    && |InFlight(Play(l, events), key)| <= k
    && (events != [] ==> AtMostInFlight(l, events[..|events| - 1], key, k))
  }

  /** No request records a success on the key at a time in [from, until). */
  ghost predicate NoSuccess(l: Limits, events: seq<Event>, key: string, from: int, until: int) {
    events != [] ==>
      var before, e := events[..|events| - 1], events[|events| - 1];
      && NoSuccess(l, before, key, from, until)
      && (from <= e.at < until ==> !Records(Play(l, before), e, key, true))
  }

  ghost predicate Ordered(events: seq<Event>) {
    forall i, j :: 0 <= i < j < |events| ==> events[i].at <= events[j].at
  }

  // ---------- the rate bound ----------

  lemma InFlightAfter(l: Limits, s: State, e: Event, key: string)
    ensures var s' := Next(l, s, e);
            match e {
              case Begin(id, k, at) =>
                InFlight(s', key) ==
                  if id !in s.inFlight && k == key && Permits(Get(s.table, k), at)
                  then InFlight(s, key) + {id} else InFlight(s, key)
              case Finish(id, _, _) =>
                InFlight(s', key) == InFlight(s, key) - {id}
            }
  {
  }

  /**
   What holds while the run is inside the interval: the record has counted its failures, and a full
   record lets nobody new in.
   */
  ghost predicate Within(l: Limits, s: State, key: string, k: nat, from: int, n: nat) {
    && TableOk(l, s.table)
    && (n >= 1 ==> key in s.table && s.table[key].last >= from && s.table[key].count >= n)
    && (n >= l.max ==> n + |InFlight(s, key)| <= l.max + k - 1)
  }

  /** A record that has counted failures of the interval outlives any `Allowed` in it, and refuses once it is full. */
  lemma RecordStays(l: Limits, r: Record, at: int, from: int, n: nat)
    requires l.Valid() && RecordOk(l, r) && from <= r.last && r.count >= n && at < from + l.window
    ensures AfterAllowed(l, Some(r), at) == Some(r)
    ensures n >= l.max ==> !Permits(Some(r), at)
  {
  }

  /** One failure more, in the interval. */
  lemma RecordCounts(l: Limits, r: Option<Record>, at: int, from: int, n: nat)
    requires l.Valid() && from <= at < from + l.window
    requires n >= 1 ==> r.Some? && from <= r.value.last && r.value.count >= n
    ensures var r' := AfterFail(l, r, at); r'.Some? && r'.value.last == at && r'.value.count >= n + 1
  {
  }

  lemma NextKeepsTableOk(l: Limits, s: State, e: Event)
    requires l.Valid() && TableOk(l, s.table)
    ensures TableOk(l, Next(l, s, e).table)
  {
    match e
    case Begin(id, key, at) => StepKeepsTableOk(l, s.table, Call(Allowed, key, at));
    case Finish(id, ok, at) =>
      if id in s.inFlight {
        StepKeepsTableOk(l, s.table, Call(if ok then Succeed else Fail, s.inFlight[id], at));
      }
  }

  lemma WithinBegin(l: Limits, s: State, e: Event, key: string, k: nat, from: int, n: nat)
    requires l.Valid() && e.Begin? && Within(l, s, key, k, from, n) && e.at < from + l.window
    ensures Within(l, Next(l, s, e), key, k, from, n)
  {
    InFlightAfter(l, s, e, key);
    NextKeepsTableOk(l, s, e);
    if n >= 1 {
      RecordStays(l, s.table[key], e.at, from, n);
    }
  }

  lemma WithinFailure(l: Limits, s: State, e: Event, key: string, k: nat, from: int, n: nat)
    requires l.Valid() && Within(l, s, key, k, from, n) && |InFlight(s, key)| <= k
    requires Records(s, e, key, false) && from <= e.at < from + l.window
    ensures Within(l, Next(l, s, e), key, k, from, n + 1)
  {
    InFlightAfter(l, s, e, key);
    NextKeepsTableOk(l, s, e);
    RecordCounts(l, Get(s.table, key), e.at, from, n);
    assert e.id in InFlight(s, key);
    assert |InFlight(s, key) - {e.id}| == |InFlight(s, key)| - 1;
  }

  /** A request that ends without having failed on the key in the interval. */
  lemma WithinOther(l: Limits, s: State, e: Event, key: string, k: nat, from: int, n: nat)
    requires l.Valid() && e.Finish? && Within(l, s, key, k, from, n)
    requires !Records(s, e, key, false) && !Records(s, e, key, true)
    ensures Within(l, Next(l, s, e), key, k, from, n)
  {
    InFlightAfter(l, s, e, key);
    NextKeepsTableOk(l, s, e);
    assert InFlight(s, key) - {e.id} == InFlight(s, key);
  }

  lemma WithinStep(l: Limits, s: State, e: Event, key: string, k: nat, from: int, n: nat)
    requires l.Valid() && Within(l, s, key, k, from, n) && |InFlight(s, key)| <= k
    requires n >= 1 ==> from <= e.at
    requires e.at < from + l.window
    requires from <= e.at ==> !Records(s, e, key, true)
    ensures var n' := n + if Records(s, e, key, false) && from <= e.at then 1 else 0;
            Within(l, Next(l, s, e), key, k, from, n')
  {
    if e.Begin? {
      WithinBegin(l, s, e, key, k, from, n);
    } else if e.at < from {
      NextKeepsTableOk(l, s, e);
    } else if Records(s, e, key, false) {
      WithinFailure(l, s, e, key, k, from, n);
    } else {
      WithinOther(l, s, e, key, k, from, n);
    }
  }

  lemma {:induction false} WithinInterval(l: Limits, events: seq<Event>, key: string, k: nat, from: int)
    requires l.Valid() && Ordered(events) && AtMostInFlight(l, events, key, k)
    requires NoSuccess(l, events, key, from, from + l.window)
    ensures var n := Failures(l, events, key, from, from + l.window);
      && (n >= 1 ==> n <= l.max + k - 1 && from <= events[|events| - 1].at)
      && ((events == [] || events[|events| - 1].at < from + l.window) ==> Within(l, Play(l, events), key, k, from, n))
  {
    if events != [] {
      var last := |events| - 1;
      var before := events[..last];
      WithinInterval(l, before, key, k, from);
      var n := Failures(l, before, key, from, from + l.window);
      if events[last].at < from + l.window {
        WithinStep(l, Play(l, before), events[last], key, k, from, n);
      }
    }
  }

  /**
   The rate bound: with at most k requests in flight on a key, every interval of one window in
   which none of them succeeds holds at most max + k - 1 failures on it, in every interleaving.
   A caller that waits for each answer (k = 1) gets at most max guesses.
   */
  lemma RateBound(l: Limits, events: seq<Event>, key: string, k: nat, from: int)
    requires l.Valid() && Ordered(events) && AtMostInFlight(l, events, key, k)
    requires NoSuccess(l, events, key, from, from + l.window)
    ensures var n := Failures(l, events, key, from, from + l.window);
            n > 0 ==> n <= l.max + k - 1
  {
    WithinInterval(l, events, key, k, from);
  }

  // ---------- the bound is met ----------

  /** A state at time 0: n failures recorded on the key, and the requests in `ids` in flight on it. */
  ghost predicate Burst(l: Limits, s: State, key: string, n: nat, ids: set<nat>) {
    && s.inFlight.Keys == ids && InFlight(s, key) == ids
    && TableOk(l, s.table)
    && (if n == 0 then key !in s.table else key in s.table && s.table[key].count == n && s.table[key].last == 0)
  }

  /** A run that has come to such a state, all of it at time 0. */
  ghost predicate Bursting(l: Limits, events: seq<Event>, key: string, k: nat, n: nat, ids: set<nat>) {
    && AtMostInFlight(l, events, key, k)
    && NoSuccess(l, events, key, 0, l.window)
    && (forall i :: 0 <= i < |events| ==> events[i].at == 0)
    && Failures(l, events, key, 0, l.window) == n
    && Burst(l, Play(l, events), key, n, ids)
  }

  lemma BeginInBurst(l: Limits, s: State, id: nat, key: string, n: nat, ids: set<nat>)
    requires l.Valid() && Burst(l, s, key, n, ids) && n < l.max && id !in ids
    ensures Burst(l, Next(l, s, Begin(id, key, 0)), key, n, ids + {id})
  {
    InFlightAfter(l, s, Begin(id, key, 0), key);
    NextKeepsTableOk(l, s, Begin(id, key, 0));
  }

  lemma FinishInBurst(l: Limits, s: State, id: nat, key: string, n: nat, ids: set<nat>)
    requires l.Valid() && Burst(l, s, key, n, ids) && id in ids
    ensures Burst(l, Next(l, s, Finish(id, false, 0)), key, n + 1, ids - {id})
    ensures Records(s, Finish(id, false, 0), key, false)
  {
    assert id in InFlight(s, key);
    InFlightAfter(l, s, Finish(id, false, 0), key);
    NextKeepsTableOk(l, s, Finish(id, false, 0));
  }

  /** The run with one event more. */
  lemma Played(l: Limits, events: seq<Event>, e: Event, key: string, k: nat)
    ensures var s, events' := Play(l, events), events + [e];
      && Play(l, events') == Next(l, s, e)
      && Failures(l, events', key, 0, l.window) ==
           Failures(l, events, key, 0, l.window) + (if Records(s, e, key, false) && 0 <= e.at < l.window then 1 else 0)
      && (AtMostInFlight(l, events, key, k) && |InFlight(Next(l, s, e), key)| <= k ==>
            AtMostInFlight(l, events', key, k))
      && (NoSuccess(l, events, key, 0, l.window) && !Records(s, e, key, true) ==>
            NoSuccess(l, events', key, 0, l.window))
  {
    assert (events + [e])[..|events|] == events;
  }

  lemma BeginBursts(l: Limits, events: seq<Event>, id: nat, key: string, k: nat, n: nat, ids: set<nat>)
    returns (events': seq<Event>)
    requires l.Valid() && Bursting(l, events, key, k, n, ids)
    requires n < l.max && id !in ids && |ids| < k
    ensures Bursting(l, events', key, k, n, ids + {id})
  {
    var e := Begin(id, key, 0);
    events' := events + [e];
    assert |ids + {id}| <= k;
    BeginInBurst(l, Play(l, events), id, key, n, ids);
    Played(l, events, e, key, k);
  }

  lemma FinishBursts(l: Limits, events: seq<Event>, id: nat, key: string, k: nat, n: nat, ids: set<nat>)
    returns (events': seq<Event>)
    requires l.Valid() && Bursting(l, events, key, k, n, ids) && id in ids
    ensures Bursting(l, events', key, k, n + 1, ids - {id})
  {
    var e := Finish(id, false, 0);
    events' := events + [e];
    assert |ids| <= k && |ids - {id}| <= |ids|;
    FinishInBurst(l, Play(l, events), id, key, n, ids);
    Played(l, events, e, key, k);
  }

  /** n requests one after the other, each failing before the next begins. */
  lemma {:induction false} SequentialBursts(l: Limits, key: string, k: nat, n: nat) returns (events: seq<Event>)
    requires l.Valid() && n < l.max && k >= 1
    ensures Bursting(l, events, key, k, n, {})
  {
    if n == 0 {
      events := [];
    } else {
      events := SequentialBursts(l, key, k, n - 1);
      events := BeginBursts(l, events, 0, key, k, n - 1, {});
      assert {} + {0} - {0} == {};
      events := FinishBursts(l, events, 0, key, k, n - 1, {} + {0});
    }
  }

  function Below(n: nat): (ids: set<nat>)
    ensures |ids| == n && n !in ids && forall i :: i in ids ==> i < n
  {
    if n == 0 then {} else Below(n - 1) + {n - 1}
  }

  /** After max - 1 failures the record still lets k requests in. */
  lemma {:induction false} BeginsBurst(l: Limits, key: string, k: nat, n: nat) returns (events: seq<Event>)
    requires l.Valid() && n <= k && k >= 1
    ensures Bursting(l, events, key, k, l.max - 1, Below(n))
  {
    if n == 0 {
      events := SequentialBursts(l, key, k, l.max - 1);
    } else {
      events := BeginsBurst(l, key, k, n - 1);
      events := BeginBursts(l, events, n - 1, key, k, l.max - 1, Below(n - 1));
    }
  }

  /** All those in flight may still fail. */
  lemma {:induction false} FinishesBurst(l: Limits, events: seq<Event>, key: string, k: nat, n: nat, ids: set<nat>)
    returns (events': seq<Event>)
    requires l.Valid() && Bursting(l, events, key, k, n, ids)
    ensures Bursting(l, events', key, k, n + |ids|, {})
    decreases ids
  {
    if ids == {} {
      events' := events;
    } else {
      var id :| id in ids;
      events' := FinishBursts(l, events, id, key, k, n, ids);
      events' := FinishesBurst(l, events', key, k, n + 1, ids - {id});
    }
  }

  /** No smaller bound would do: for every limit and every k there is a run that fails exactly max + k - 1 times. */
  lemma RateBoundIsMet(l: Limits, key: string, k: nat) returns (events: seq<Event>)
    requires l.Valid() && k >= 1
    ensures Ordered(events) && AtMostInFlight(l, events, key, k) && NoSuccess(l, events, key, 0, l.window)
    ensures Failures(l, events, key, 0, l.window) == l.max + k - 1
  {
    var begun := BeginsBurst(l, key, k, k);
    events := FinishesBurst(l, begun, key, k, l.max - 1, Below(k));
  }
}

/** The handlers that drive the throttle and the session store, each run on its own from start to end. */
module LoginHandlers {
  import opened Wrappers
  import T = ThrottleSpec
  import P = LoginProtocol
  import S = SessionSpec
  import opened ThrottleStore
  import opened SessionStore

  datatype User = User(username: string, password: string, mustChangePassword: bool)

  /** The users table by name, and the password check; hashing itself is not part of this model. */
  datatype Accounts = Accounts(users: map<string, User>, matches: (string, string) -> bool)

  datatype Reply =
    | BadRequest                                                // 400
    | Unauthorized                                              // 401
    | TooManyRequests                                           // 429
    | InternalError                                             // 500
    | Started(username: string, mustChangePassword: bool)       // 200, from Login
    | Passed(username: string)                                  // the request goes on, from the middleware

  /** One counter for each pair of account and client address. */
  function ThrottleKey(username: string, host: string): string {
    username + "|" + host
  }

  /**
   Host names and addresses contain no bar, so the key tells both halves apart: nobody shares a counter
   with anybody else.
   */
  lemma ThrottleKeysAreDistinct(username: string, host: string, username': string, host': string)
    requires '|' !in host && '|' !in host'
    requires ThrottleKey(username, host) == ThrottleKey(username', host')
    ensures username == username' && host == host'
  {
    var k := ThrottleKey(username, host);
    assert k[|username|] == '|' && k[|username'|] == '|';
    assert forall i :: |username| < i < |k| ==> k[i] == host[i - |username| - 1];
    assert forall i :: |username'| < i < |k| ==> k[i] == host'[i - |username'| - 1];
    assert username == k[..|username|] && host == k[|username| + 1..];
  }

  /**
   Another account's failures, or the same account's from another address, change no answer:
   calls that belong to other (account, address) pairs can be left out.
   */
  lemma GuessingElsewhereIsHarmless(
      l: T.Limits, calls: seq<T.Call>, owner: seq<(string, string)>, username: string, host: string, now: int)
    requires |owner| == |calls| && '|' !in host
    requires forall i :: 0 <= i < |calls| ==>
      '|' !in owner[i].1 && calls[i].key == ThrottleKey(owner[i].0, owner[i].1) && owner[i] != (username, host)
    ensures T.Answer(l, calls, ThrottleKey(username, host), now)
  {
    var key := ThrottleKey(username, host);
    forall i | 0 <= i < |calls| ensures calls[i].key != key {
      if calls[i].key == key {
        ThrottleKeysAreDistinct(owner[i].0, owner[i].1, username, host);
      }
    }
    NothingOwned(calls, key);
    T.KeysAreIndependent(l, calls, key);
  }

  lemma {:induction false} NothingOwned(calls: seq<T.Call>, key: string)
    requires forall i :: 0 <= i < |calls| ==> calls[i].key != key
    ensures T.Own(calls, key) == []
  {
    if calls != [] {
      NothingOwned(calls[..|calls| - 1], key);
    }
  }

  // ---------- handlers that run one at a time ----------

  /** One attempt as the throttle sees it: when it was asked, what came out, and when it was told. */
  datatype Request = Request(key: string, asked: int, ok: bool, told: int)

  /** The throttle's table after the attempt: a refused one changes nothing. */
  function Handled(l: T.Limits, m: T.Table, r: Request): T.Table {
    if !T.Permits(T.Get(m, r.key), r.asked) then m
    else
      var asked := T.Step(l, m, T.Call(T.Allowed, r.key, r.asked));
      T.Step(l, asked, T.Call(if r.ok then T.Succeed else T.Fail, r.key, r.told))
  }

  function HandledAll(l: T.Limits, requests: seq<Request>): T.Table {
    if requests == [] then map[]
    else Handled(l, HandledAll(l, requests[..|requests| - 1]), requests[|requests| - 1])
  }

  /** The same attempts in the interleaved protocol, each beginning and finishing before the next. */
  function EventsOf(requests: seq<Request>): seq<P.Event> {
    if requests == [] then []
    else
      var n := |requests| - 1;
      var r := requests[n];
      EventsOf(requests[..n]) + [P.Begin(n, r.key, r.asked), P.Finish(n, r.ok, r.told)]
  }

  lemma HandledIsTwoEvents(l: T.Limits, m: T.Table, r: Request, id: nat)
    ensures P.Next(l, P.Next(l, P.State(m, map[]), P.Begin(id, r.key, r.asked)), P.Finish(id, r.ok, r.told)) ==
            P.State(Handled(l, m, r), map[])
    ensures |P.InFlight(P.Next(l, P.State(m, map[]), P.Begin(id, r.key, r.asked)), r.key)| <= 1
  {
    var begun := P.Next(l, P.State(m, map[]), P.Begin(id, r.key, r.asked));
    if T.Permits(T.Get(m, r.key), r.asked) {
      assert begun.inFlight == map[id := r.key] && begun.inFlight - {id} == map[];
      assert P.InFlight(begun, r.key) == {id};
    } else {
      assert T.Step(l, m, T.Call(T.Allowed, r.key, r.asked)) == m;
      assert P.InFlight(begun, r.key) == {};
    }
  }

  lemma OtherKeysAreIdle(l: T.Limits, m: T.Table, r: Request, id: nat, key: string)
    ensures |P.InFlight(P.Next(l, P.State(m, map[]), P.Begin(id, r.key, r.asked)), key)| <= 1
  {
    var begun := P.Next(l, P.State(m, map[]), P.Begin(id, r.key, r.asked));
    if key == r.key {
      HandledIsTwoEvents(l, m, r, id);
    } else {
      assert P.InFlight(begun, key) == {};
    }
  }

  lemma TwoMoreEvents(l: T.Limits, events: seq<P.Event>, a: P.Event, b: P.Event, key: string)
    requires P.AtMostInFlight(l, events, key, 1)
    requires |P.InFlight(P.Next(l, P.Play(l, events), a), key)| <= 1
    requires |P.InFlight(P.Next(l, P.Next(l, P.Play(l, events), a), b), key)| <= 1
    ensures P.Play(l, events + [a, b]) == P.Next(l, P.Next(l, P.Play(l, events), a), b)
    ensures P.AtMostInFlight(l, events + [a, b], key, 1)
  {
    P.Played(l, events, a, key, 1);
    P.Played(l, events + [a], b, key, 1);
    assert events + [a] + [b] == events + [a, b];
  }

  /** Attempts made one at a time are a run of the protocol, with never more than one in flight. */
  lemma {:induction false} AttemptsArePlayed(l: T.Limits, requests: seq<Request>, key: string)
    ensures P.Play(l, EventsOf(requests)) == P.State(HandledAll(l, requests), map[])
    ensures P.AtMostInFlight(l, EventsOf(requests), key, 1)
  {
    if requests == [] {
      assert P.InFlight(P.State(map[], map[]), key) == {};
    } else {
      var n := |requests| - 1;
      var r, m := requests[n], HandledAll(l, requests[..n]);
      AttemptsArePlayed(l, requests[..n], key);
      HandledIsTwoEvents(l, m, r, n);
      OtherKeysAreIdle(l, m, r, n, key);
      assert P.InFlight(P.State(Handled(l, m, r), map[]), key) == {};
      TwoMoreEvents(l, EventsOf(requests[..n]), P.Begin(n, r.key, r.asked), P.Finish(n, r.ok, r.told), key);
    }
  }

  /** So a window in which none of them succeeds on a key sees at most max of them fail on it. */
  lemma AttemptsAreBounded(l: T.Limits, requests: seq<Request>, key: string, from: int)
    requires l.Valid() && P.Ordered(EventsOf(requests))
    requires P.NoSuccess(l, EventsOf(requests), key, from, from + l.window)
    ensures P.Failures(l, EventsOf(requests), key, from, from + l.window) <= l.max
  {
    AttemptsArePlayed(l, requests, key);
    P.RateBound(l, EventsOf(requests), key, 1, from);
  }

  class Auth {
    const sessions: Sessions
    const throttle: Throttle

    ghost predicate Valid()
      reads this, throttle, throttle.m.Values
    {
      throttle.Valid()
    }

    constructor (sessions: Sessions, throttle: Throttle)
      requires throttle.Valid()
      ensures Valid() && this.sessions == sessions && this.throttle == throttle
    {
      this.sessions, this.throttle := sessions, throttle;
    }

    /** login.go's `verify`: an unknown account counts as a failure just like a wrong password. */
    method Verify(accounts: Accounts, username: string, password: string, key: string, now: int)
      returns (user: Option<User>)
      requires Valid()
      modifies throttle, throttle.m.Values
      ensures Valid() && fresh(throttle.m.Values - old(throttle.m.Values))
      ensures var ok := username in accounts.users && accounts.matches(accounts.users[username].password, password);
        && user == (if ok then Some(accounts.users[username]) else None)
        && throttle.table == T.Step(throttle.limits, old(throttle.table),
                                    T.Call(if ok then T.Succeed else T.Fail, key, now))
    {
      if username !in accounts.users {
        throttle.Fail(key, now);
        return None;
      }
      if !accounts.matches(accounts.users[username].password, password) {
        throttle.Fail(key, now);
        return None;
      }
      throttle.Succeed(key);
      return Some(accounts.users[username]);
    }

    /** What a login and a request with basic auth have in common: the throttle is asked, and then told. */
    method Attempt(accounts: Accounts, username: string, password: string, key: string, asked: int, told: int)
      returns (allowed: bool, user: Option<User>)
      requires Valid()
      modifies throttle, throttle.m.Values
      ensures Valid() && fresh(throttle.m.Values - old(throttle.m.Values))
      ensures allowed == T.Permits(T.Get(old(throttle.table), key), asked)
      ensures var ok := username in accounts.users && accounts.matches(accounts.users[username].password, password);
        && throttle.table == Handled(throttle.limits, old(throttle.table), Request(key, asked, ok, told))
        && user == if allowed && ok then Some(accounts.users[username]) else None
    {
      allowed := throttle.Allowed(key, asked);
      if !allowed {
        return false, None;
      }
      user := Verify(accounts, username, password, key, told);
    }

    /** `token` is None when the random source fails; `t` holds the clock readings in the order they are taken. */
    method Login(accounts: Accounts, username: string, password: string, host: string,
                 token: Option<string>, t: seq<int>) returns (reply: Reply)
      requires Valid() && |t| == 4
      modifies throttle, throttle.m.Values, sessions
      ensures Valid() && fresh(throttle.m.Values - old(throttle.m.Values))
      ensures reply.Started? <==>
        && username != "" && password != "" && token.Some?
        && T.Permits(T.Get(old(throttle.table), username + "|" + host), t[0])
        && username in accounts.users && accounts.matches(accounts.users[username].password, password)
      ensures var key := username + "|" + host;
        var ok := username in accounts.users && accounts.matches(accounts.users[username].password, password);
        if username == "" || password == "" then
          reply == BadRequest && throttle.table == old(throttle.table) && sessions.m == old(sessions.m)
        else if !T.Permits(T.Get(old(throttle.table), key), t[0]) then
          && reply == TooManyRequests && sessions.m == old(sessions.m)
          && throttle.table == old(throttle.table)
        else
          && throttle.table == Handled(throttle.limits, old(throttle.table),
                                       Request(key, t[0], ok, t[1]))
          && if !ok then
               reply == Unauthorized && sessions.m == old(sessions.m)
             else if token.None? then
               reply == InternalError && sessions.m == old(sessions.m)
             else
               var user := accounts.users[username];
               && reply == Started(user.username, user.mustChangePassword)
               && sessions.m == S.Step(sessions.ttl, old(sessions.m),
                                       S.Call(S.Create(user.username, token.value), t[2], t[3]))
    {
      if username == "" || password == "" {
        return BadRequest;
      }
      var key := ThrottleKey(username, host);
      var allowed, user := Attempt(accounts, username, password, key, t[0], t[1]);
      if !allowed {
        return TooManyRequests;
      }
      if user.None? {
        return Unauthorized;
      }
      if token.None? {
        return InternalError;
      }
      sessions.Create(user.value.username, token.value, t[2], t[3]);
      return Started(user.value.username, user.value.mustChangePassword);
    }

    method Logout(cookie: Option<string>)
      modifies sessions
      ensures sessions.m == if cookie.Some? then old(sessions.m) - {cookie.value} else old(sessions.m)
    {
      if cookie.Some? {
        sessions.Destroy(cookie.value);
      }
    }

    /** The middleware's way of letting in a request without a live session. */
    method BasicAuth(accounts: Accounts, username: string, password: string, host: string, asked: int, told: int)
      returns (reply: Reply)
      requires Valid()
      modifies throttle, throttle.m.Values
      ensures Valid() && fresh(throttle.m.Values - old(throttle.m.Values))
      ensures var key := username + "|" + host;
        var ok := username in accounts.users && accounts.matches(accounts.users[username].password, password);
        && throttle.table == Handled(throttle.limits, old(throttle.table), Request(key, asked, ok, told))
        && reply ==
             if !T.Permits(T.Get(old(throttle.table), key), asked) then TooManyRequests
             else if ok then Passed(accounts.users[username].username)
             else Unauthorized
    {
      var allowed, user := Attempt(accounts, username, password, ThrottleKey(username, host), asked, told);
      if !allowed {
        return TooManyRequests;
      }
      if user.None? {
        return Unauthorized;
      }
      return Passed(user.value.username);
    }

    /**
     middleware.go: a live session is enough and leaves the throttle alone; anything else needs
     basic auth, throttled like a login.
     */
    method Authenticate(accounts: Accounts, cookie: Option<string>, basic: Option<(string, string)>, host: string,
                        t: seq<int>) returns (reply: Reply)
      requires Valid() && |t| == 4
      modifies throttle, throttle.m.Values, sessions
      ensures Valid() && fresh(throttle.m.Values - old(throttle.m.Values))
      ensures sessions.m ==
                if cookie.Some? then S.Step(sessions.ttl, old(sessions.m), S.Call(S.Lookup(cookie.value), t[0], t[1]))
                else old(sessions.m)
      ensures var session := if cookie.Some? then S.Find(old(sessions.m), cookie.value, t[0]) else None;
        if session.Some? then reply == Passed(session.value) && throttle.table == old(throttle.table)
        else if basic.None? then reply == Unauthorized && throttle.table == old(throttle.table)
        else
          var (username, password) := basic.value;
          var key := username + "|" + host;
          var ok := username in accounts.users && accounts.matches(accounts.users[username].password, password);
          if !T.Permits(T.Get(old(throttle.table), key), t[2]) then
            reply == TooManyRequests && throttle.table == old(throttle.table)
          else
            && throttle.table == Handled(throttle.limits, old(throttle.table),
                                         Request(key, t[2], ok, t[3]))
            && reply == if ok then Passed(accounts.users[username].username) else Unauthorized
    {
      if cookie.Some? {
        var username, ok := sessions.Lookup(cookie.value, t[0], t[1]);
        if ok {
          return Passed(username);
        }
      }
      if basic.None? {
        return Unauthorized;
      }
      reply := BasicAuth(accounts, basic.value.0, basic.value.1, host, t[2], t[3]);
    }
  }
}
