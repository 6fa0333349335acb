/**
 The session store of internal/auth/session.go.

 Every method reads the clock where the source does; `Create` and `Lookup` read it twice, so
 a call carries the first reading `at` and the last one `end`. Tokens come from a random
 source: the model takes them as parameters and assumes only that they do not repeat.
 */
module SessionSpec {
  import opened Wrappers

  datatype Session = Session(username: string, expires: int)

  type Store = map<string, Session>

  datatype Op =
    | Create(username: string, token: string)
    | Lookup(token: string)
    | Destroy(token: string)
    | DestroyUser(username: string)
    | Len

  datatype Call = Call(op: Op, at: int, end: int)

  // ---------- what one call does to the store ----------

  function Swept(m: Store, now: int): Store {
    map t | t in m && now <= m[t].expires :: m[t]
  }

  function WithoutUser(m: Store, username: string): Store {
    map t | t in m && m[t].username != username :: m[t]
  }

  function Find(m: Store, token: string, now: int): Option<string> {
    if token != "" && token in m && now <= m[token].expires then Some(m[token].username) else None
  }

  function Step(ttl: int, m: Store, c: Call): Store {
    match c.op
    case Create(username, token) => Swept(m[token := Session(username, c.at + ttl)], c.end)
    case Lookup(token) =>
      if token == "" || token !in m then m
      else if c.at > m[token].expires then m - {token}
      else m[token := m[token].(expires := c.end + ttl)]
    case Destroy(token) => m - {token}
    case DestroyUser(username) => WithoutUser(m, username)
    case Len => Swept(m, c.at)
  }

  function Run(ttl: int, calls: seq<Call>): Store {
    if calls == [] then map[] else Step(ttl, Run(ttl, calls[..|calls| - 1]), calls[|calls| - 1])
  }

  /** The clock never goes back, within a call or between calls, and `now` is no earlier than any of them. */
  ghost predicate Ordered(calls: seq<Call>, now: int) {
    && (forall i :: 0 <= i < |calls| ==> calls[i].at <= calls[i].end <= now)
    && (forall i, j :: 0 <= i < j < |calls| ==> calls[i].end <= calls[j].at)
  }

  /** Created tokens are never empty and never repeat. */
  ghost predicate FreshTokens(calls: seq<Call>) {
    && (forall i :: 0 <= i < |calls| && calls[i].op.Create? ==> calls[i].op.token != "")
    && (forall i, j :: 0 <= i < j < |calls| && calls[i].op.Create? && calls[j].op.Create? ==>
        calls[i].op.token != calls[j].op.token)
  }

  // ---------- the history definition of a live session ----------

  predicate Touches(c: Call, token: string) {
    (c.op.Create? || c.op.Lookup?) && c.op.token == token
  }

  predicate Ends(c: Call, username: string, token: string) {
    c.op == Destroy(token) || c.op == DestroyUser(username)
  }

  /** When the token was last created or looked up before call j; the clock reading its lifetime is counted from. */
  function LastUse(calls: seq<Call>, token: string, j: nat): Option<int>
    requires j <= |calls|
  {
    if j == 0 then None
    else if Touches(calls[j - 1], token) then
      Some(if calls[j - 1].op.Create? then calls[j - 1].at else calls[j - 1].end)
    else LastUse(calls, token, j - 1)
  }

  /** At `at`, as call number j, the token has been idle for no more than ttl. */
  ghost predicate InTime(ttl: int, calls: seq<Call>, token: string, j: nat, at: int)
    requires j <= |calls|
  {
    LastUse(calls, token, j).Some? && at <= LastUse(calls, token, j).value + ttl
  }

  /**
   Call i created the token for the user, nothing has ended it since, every lookup since came
   in time, and so does one at `now`.
   */
  ghost predicate LiveSince(ttl: int, calls: seq<Call>, i: nat, username: string, token: string, now: int) {
    && i < |calls| && calls[i].op == Create(username, token)
    && (forall j :: i < j < |calls| ==> !Ends(calls[j], username, token))
    && (forall j :: i < j < |calls| && calls[j].op == Lookup(token) ==> InTime(ttl, calls, token, j, calls[j].at))
    && InTime(ttl, calls, token, |calls|, now)
  }

  ghost predicate Live(ttl: int, calls: seq<Call>, username: string, token: string, now: int) {
    exists i: nat :: LiveSince(ttl, calls, i, username, token, now)
  }

  // ---------- the store that never reaps ----------

  /** The same calls on a store that only ever deletes on Destroy and DestroyUser. */
  function KeepStep(ttl: int, m: Store, c: Call): Store {
    match c.op
    case Create(username, token) => m[token := Session(username, c.at + ttl)]
    case Lookup(token) =>
      if token == "" || token !in m || c.at > m[token].expires then m
      else m[token := m[token].(expires := c.end + ttl)]
    case Destroy(token) => m - {token}
    case DestroyUser(username) => WithoutUser(m, username)
    case Len => m
  }

  function KeepRun(ttl: int, calls: seq<Call>): Store {
    if calls == [] then map[] else KeepStep(ttl, KeepRun(ttl, calls[..|calls| - 1]), calls[|calls| - 1])
  }

  /** `m` is `k` with some of the sessions that have expired by `now` left out. */
  ghost predicate Reaped(m: Store, k: Store, now: int) {
    && (forall t :: t in m ==> t in k && m[t] == k[t])
    && (forall t :: t in k && now <= k[t].expires ==> t in m)
  }

  lemma ReapedSweeps(m: Store, k: Store, at: int, now: int)
    requires Reaped(m, k, at) && at <= now
    ensures Reaped(Swept(m, now), k, now)
  {
  }

  lemma ReapedLookup(ttl: int, m: Store, k: Store, token: string, at: int, end: int)
    requires Reaped(m, k, at) && at <= end
    ensures Reaped(Step(ttl, m, Call(Lookup(token), at, end)), KeepStep(ttl, k, Call(Lookup(token), at, end)), end)
  {
  }

  lemma ReapedLater(m: Store, k: Store, at: int, now: int)
    requires Reaped(m, k, at) && at <= now
    ensures Reaped(m, k, now)
  {
  }

  lemma ReapingStep(ttl: int, m: Store, k: Store, c: Call, now: int)
    requires Reaped(m, k, c.at) && c.at <= c.end <= now
    ensures Reaped(Step(ttl, m, c), KeepStep(ttl, k, c), now)
  {
    match c.op
    case Create(username, token) =>
      var s := Session(username, c.at + ttl);
      ReapedSweeps(m[token := s], k[token := s], c.at, c.end);
    case Lookup(token) => ReapedLookup(ttl, m, k, token, c.at, c.end);
    case Destroy(_) =>
    case DestroyUser(_) =>
    case Len => ReapedSweeps(m, k, c.at, c.at);
    if c.op.Create? || c.op.Lookup? {
      ReapedLater(Step(ttl, m, c), KeepStep(ttl, k, c), c.end, now);
    } else {
      ReapedLater(Step(ttl, m, c), KeepStep(ttl, k, c), c.at, now);
    }
  }

  lemma {:induction false} ReapingOnlyExpires(ttl: int, calls: seq<Call>, now: int)
    requires Ordered(calls, now)
    ensures Reaped(Run(ttl, calls), KeepRun(ttl, calls), now)
  {
    if calls != [] {
      var n := |calls| - 1;
      ReapingOnlyExpires(ttl, calls[..n], calls[n].at);
      ReapingStep(ttl, Run(ttl, calls[..n]), KeepRun(ttl, calls[..n]), calls[n], now);
    }
  }

  /** Sweeps and expiry deletes are unobservable: no lookup ever answers differently for them. */
  lemma ReapingIsInvisible(ttl: int, calls: seq<Call>, token: string, now: int)
    requires Ordered(calls, now)
    ensures Find(Run(ttl, calls), token, now) == Find(KeepRun(ttl, calls), token, now)
  {
    ReapingOnlyExpires(ttl, calls, now);
  }

  // ---------- the store refines its history ----------

  lemma {:induction false} LastUseOfPrefix(calls: seq<Call>, token: string, n: nat, j: nat)
    requires j <= n <= |calls|
    ensures LastUse(calls[..n], token, j) == LastUse(calls, token, j)
  {
    if j > 0 {
      LastUseOfPrefix(calls, token, n, j - 1);
    }
  }

  ghost predicate LookupsInTime(ttl: int, calls: seq<Call>, i: nat, token: string) {
    forall j :: i < j < |calls| && calls[j].op == Lookup(token) ==> InTime(ttl, calls, token, j, calls[j].at)
  }

  lemma LookupsInTimeExtends(ttl: int, calls: seq<Call>, i: nat, token: string)
    requires calls != [] && i < |calls| - 1
    ensures LookupsInTime(ttl, calls, i, token) <==>
            && LookupsInTime(ttl, calls[..|calls| - 1], i, token)
            && (calls[|calls| - 1].op == Lookup(token) ==>
                  InTime(ttl, calls, token, |calls| - 1, calls[|calls| - 1].at))
  {
    var n := |calls| - 1;
    var before := calls[..n];
    forall j | i < j < n
      ensures InTime(ttl, before, token, j, before[j].at) == InTime(ttl, calls, token, j, calls[j].at)
    {
      LastUseOfPrefix(calls, token, n, j);
    }
  }

  /** A call that neither ends the session nor creates its token again. */
  lemma KeptStep(ttl: int, m: Store, c: Call, username: string, token: string)
    requires token in m && m[token].username == username && token != ""
    requires !Ends(c, username, token) && (c.op.Create? ==> c.op.token != token)
    ensures var m' := KeepStep(ttl, m, c);
      && token in m' && m'[token].username == username
      && m'[token].expires ==
           if c.op == Lookup(token) && c.at <= m[token].expires then c.end + ttl else m[token].expires
  {
  }

  /** The session that the last call created. */
  lemma CreatedIsKept(ttl: int, calls: seq<Call>, i: nat, username: string, token: string)
    requires i == |calls| - 1 && calls[i].op == Create(username, token)
    ensures var k := KeepRun(ttl, calls);
      && token in k && k[token].username == username
      && LastUse(calls, token, |calls|) == Some(calls[i].at) && k[token].expires == calls[i].at + ttl
      && LookupsInTime(ttl, calls, i, token)
  {
  }

  /** A created session nothing has ended is kept, and its deadline tells whether every lookup since came in time. */
  lemma {:induction false} KeptSession(ttl: int, calls: seq<Call>, i: nat, username: string, token: string, now: int)
    requires ttl > 0 && Ordered(calls, now) && FreshTokens(calls)
    requires i < |calls| && calls[i].op == Create(username, token)
    requires forall j :: i < j < |calls| ==> !Ends(calls[j], username, token)
    ensures var k := KeepRun(ttl, calls);
      && token in k && k[token].username == username
      && LastUse(calls, token, |calls|).Some?
      && (if LookupsInTime(ttl, calls, i, token)
          then k[token].expires == LastUse(calls, token, |calls|).value + ttl
          else k[token].expires < now)
  {
    var n := |calls| - 1;
    if i < n {
      KeptSession(ttl, calls[..n], i, username, token, calls[n].at);
      LastUseOfPrefix(calls, token, n, n);
      LookupsInTimeExtends(ttl, calls, i, token);
      assert calls[n].op.Create? ==> calls[n].op.token != token;
      KeptStep(ttl, KeepRun(ttl, calls[..n]), calls[n], username, token);
    } else {
      CreatedIsKept(ttl, calls, i, username, token);
    }
  }

  /** Whatever the store holds was created, for that user, and not ended since. */
  lemma {:induction false} Provenance(ttl: int, calls: seq<Call>, token: string) returns (i: nat)
    requires token in KeepRun(ttl, calls)
    ensures i < |calls| && calls[i].op == Create(KeepRun(ttl, calls)[token].username, token)
    ensures forall j :: i < j < |calls| ==> !Ends(calls[j], KeepRun(ttl, calls)[token].username, token)
  {
    var n := |calls| - 1;
    if calls[n].op.Create? && calls[n].op.token == token {
      i := n;
    } else {
      i := Provenance(ttl, calls[..n], token);
    }
  }

  /**
   A lookup succeeds, and names the user, exactly when the token was created for that user,
   has not been destroyed by itself or with its user, and has never been idle for longer than ttl.
   */
  lemma LookupRefinesHistory(ttl: int, calls: seq<Call>, username: string, token: string, now: int)
    requires ttl > 0 && Ordered(calls, now) && FreshTokens(calls)
    ensures Find(Run(ttl, calls), token, now) == Some(username) <==> Live(ttl, calls, username, token, now)
  {
    ReapingIsInvisible(ttl, calls, token, now);
    var k := KeepRun(ttl, calls);
    if Find(k, token, now) == Some(username) {
      var i := Provenance(ttl, calls, token);
      KeptSession(ttl, calls, i, username, token, now);
      assert LiveSince(ttl, calls, i, username, token, now);
    }
    if Live(ttl, calls, username, token, now) {
      var i: nat :| LiveSince(ttl, calls, i, username, token, now);
      KeptSession(ttl, calls, i, username, token, now);
    }
  }

  /** The tokens that the history says are live. */
  ghost function LiveTokens(ttl: int, calls: seq<Call>, now: int): set<string> {
    set i | 0 <= i < |calls| && calls[i].op.Create? && Live(ttl, calls, calls[i].op.username, calls[i].op.token, now)
      :: calls[i].op.token
  }

  /** `Len` counts exactly the tokens live by the history definition. */
  lemma LenCountsLiveTokens(ttl: int, calls: seq<Call>, now: int)
    requires ttl > 0 && Ordered(calls, now) && FreshTokens(calls)
    ensures |Step(ttl, Run(ttl, calls), Call(Len, now, now))| == |LiveTokens(ttl, calls, now)|
  {
    var m := Swept(Run(ttl, calls), now);
    forall token ensures token in m <==> token in LiveTokens(ttl, calls, now) {
      if token in m {
        ReapingOnlyExpires(ttl, calls, now);
        var i := Provenance(ttl, calls, token);
        LookupRefinesHistory(ttl, calls, calls[i].op.username, token, now);
      }
      if token in LiveTokens(ttl, calls, now) {
        var i :| 0 <= i < |calls| && calls[i].op.Create? && calls[i].op.token == token
                 && Live(ttl, calls, calls[i].op.username, token, now);
        LookupRefinesHistory(ttl, calls, calls[i].op.username, token, now);
      }
    }
    assert m.Keys == LiveTokens(ttl, calls, now);
  }
}

module SessionStore {
  import opened Wrappers
  import opened SessionSpec

  /** 12 hours in nanoseconds. */
  const DEFAULT_TTL := 12 * 60 * 60 * 1_000_000_000

  class Sessions {
    var m: map<string, Session>
    const ttl: int

    constructor (ttl: int)
      ensures this.ttl > 0 && m == map[] && this.ttl == if ttl <= 0 then 43_200_000_000_000 else ttl
    {
      m := map[];
      this.ttl := if ttl <= 0 then DEFAULT_TTL else ttl;
    }

    /** `token` is the encoded random value; `at` stamps the session, `end` is the sweep's reading. */
    method Create(username: string, token: string, at: int, end: int)
      modifies this
      ensures m == Step(ttl, old(m), Call(SessionSpec.Create(username, token), at, end))
      ensures token in m <==> end <= at + ttl
      ensures token in m ==> m[token] == Session(username, at + ttl)
      ensures forall t :: t != token ==>
        (t in m <==> t in old(m) && end <= old(m)[t].expires) && (t in m ==> m[t] == old(m)[t])
    {
      m := m[token := Session(username, at + ttl)];
      Sweep(end);
    }

    method Lookup(token: string, at: int, end: int) returns (username: string, ok: bool)
      modifies this
      ensures m == Step(ttl, old(m), Call(SessionSpec.Lookup(token), at, end))
      ensures if ok then Find(old(m), token, at) == Some(username)
              else Find(old(m), token, at) == None && username == ""
      ensures ok <==> token != "" && token in old(m) && at <= old(m)[token].expires
      ensures ok ==> m == old(m)[token := Session(username, end + ttl)]
      ensures !ok ==> m == if token == "" then old(m) else old(m) - {token}
    {
      if token == "" {
        return "", false;
      }
      if token !in m {
        return "", false;
      }
      var v := m[token];
      if at > v.expires {
        m := m - {token};
        return "", false;
      }
      // The new deadline counts from this use.
      m := m[token := v.(expires := end + ttl)];
      return v.username, true;
    }

    method Destroy(token: string)
      modifies this
      ensures m == old(m) - {token}
    {
      m := m - {token};
    }

    /** The range over a Go map visits its keys in any order, so the loop picks any that is left. */
    method DestroyUser(username: string)
      modifies this
      ensures m == WithoutUser(old(m), username)
    {
      var left := m.Keys;
      while left != {}
        invariant left <= m.Keys <= old(m.Keys)
        invariant forall t :: t in m ==> m[t] == old(m)[t]
        invariant forall t :: t in old(m) && t !in left ==> (t in m <==> old(m)[t].username != username)
        decreases |left|
      {
        var token :| token in left;
        left := left - {token};
        if m[token].username == username {
          m := m - {token};
        }
      }
    }

    method Len(now: int) returns (n: nat)
      modifies this
      ensures m == Step(ttl, old(m), Call(SessionSpec.Len, now, now)) && n == |m|
    {
      Sweep(now);
      n := |m|;
    }

    method Sweep(now: int)
      modifies this
      ensures m == Swept(old(m), now)
    {
      var left := m.Keys;
      while left != {}
        invariant left <= m.Keys <= old(m.Keys)
        invariant forall t :: t in m ==> m[t] == old(m)[t]
        invariant forall t :: t in old(m) && t !in left ==> (t in m <==> now <= old(m)[t].expires)
        decreases |left|
      {
        var token :| token in left;
        left := left - {token};
        if now > m[token].expires {
          m := m - {token};
        }
      }
    }
  }
}
