/**
 The failed-login throttle of internal/auth/throttle.go.

 `Throttle` is the class itself, one method per critical section, the clock reading that
 each section takes being a parameter. `ThrottleSpec` says what those methods do to the
 table, as functions on values, and carries the theorems about whole runs of calls.
 */
module ThrottleSpec {
  import opened Wrappers

  /** What the table holds for one key. `blocked` is None while the source's field is the zero time. */
  datatype Record = Record(count: nat, last: int, blocked: Option<int>)

  type Table = map<string, Record>

  /** The two parameters of a throttle, as NewThrottle normalises them. */
  datatype Limits = Limits(max: int, window: int) {
    ghost predicate Valid() { max >= 1 && window > 0 }
  }

  /** 15 minutes in the nanoseconds of Go's time.Duration. */
  const DEFAULT_WINDOW := 15 * 60 * 1_000_000_000
  const DEFAULT_MAX := 10

  function Get(m: Table, key: string): Option<Record> {
    if key in m then Some(m[key]) else None
  }

  function Put(m: Table, key: string, r: Option<Record>): (m': Table)
    ensures Get(m', key) == r
    ensures forall other :: other != key ==> Get(m', other) == Get(m, other)
  {
    match r
    case Some(v) => m[key := v]
    case None => m - {key}
  }

  // ---------- one key, one call ----------

  predicate Permits(r: Option<Record>, now: int) {
    r.None? || r.value.blocked.None? || now >= r.value.blocked.value
  }

  function AfterAllowed(l: Limits, r: Option<Record>, now: int): Option<Record> {
    match r
    case None => None
    case Some(a) =>
      if a.blocked.Some? then
        if now < a.blocked.value then r else None
      else if now - a.last > l.window then None else r
  }

  function AfterFail(l: Limits, r: Option<Record>, now: int): Option<Record> {
    var a := if r.None? || now - r.value.last > l.window then Record(0, 0, None) else r.value;
    var count := a.count + 1;
    Some(Record(count, now, if count >= l.max then Some(now + l.window) else a.blocked))
  }

  // ---------- runs of calls ----------

  datatype Op = Allowed | Fail | Succeed

  datatype Call = Call(op: Op, key: string, at: int)

  function StepKey(l: Limits, r: Option<Record>, op: Op, at: int): Option<Record> {
    match op
    case Allowed => AfterAllowed(l, r, at)
    case Fail => AfterFail(l, r, at)
    case Succeed => None
  }

  function Step(l: Limits, m: Table, c: Call): Table {
    Put(m, c.key, StepKey(l, Get(m, c.key), c.op, c.at))
  }

  /** The table after the calls, made one after the other from `m`. */
  function Run(l: Limits, m: Table, calls: seq<Call>): Table {
    if calls == [] then m
    else Step(l, Run(l, m, calls[..|calls| - 1]), calls[|calls| - 1])
  }

  /** What `Allowed` answers when asked about `key` at `now`, after the calls. */
  predicate Answer(l: Limits, calls: seq<Call>, key: string, now: int) {
    Permits(Get(Run(l, map[], calls), key), now)
  }

  /** The clock never goes back, and `now` is no earlier than the last call. */
  ghost predicate Ordered(calls: seq<Call>, now: int) {
    && (forall i, j :: 0 <= i < j < |calls| ==> calls[i].at <= calls[j].at)
    && (forall i :: 0 <= i < |calls| ==> calls[i].at <= now)
  }

  lemma {:induction false} RunConcat(l: Limits, m: Table, a: seq<Call>, b: seq<Call>)
    ensures Run(l, m, a + b) == Run(l, Run(l, m, a), b)
  {
    if b == [] {
      assert a + b == a;
    } else {
      var n := |b| - 1;
      assert (a + b)[..|a + b| - 1] == a + b[..n];
      RunConcat(l, m, a, b[..n]);
    }
  }

  // ---------- the record invariant ----------

  ghost predicate RecordOk(l: Limits, r: Record) {
    && r.count >= 1
    && (r.blocked.Some? <==> r.count >= l.max)
    && (r.blocked.Some? ==> r.blocked.value == r.last + l.window)
  }

  ghost predicate TableOk(l: Limits, m: Table) {
    forall key :: key in m ==> RecordOk(l, m[key])
  }

  lemma StepKeepsTableOk(l: Limits, m: Table, c: Call)
    requires l.Valid() && TableOk(l, m)
    ensures TableOk(l, Step(l, m, c))
  {
  }

  /** Every table reachable by any calls, even with a clock that jumps, satisfies the record invariant. */
  lemma {:induction false} RecordsStayConsistent(l: Limits, calls: seq<Call>)
    requires l.Valid()
    ensures TableOk(l, Run(l, map[], calls))
  {
    if calls != [] {
      RecordsStayConsistent(l, calls[..|calls| - 1]);
      StepKeepsTableOk(l, Run(l, map[], calls[..|calls| - 1]), calls[|calls| - 1]);
    }
  }

  // ---------- keys do not influence each other ----------

  /** The calls made on `key`, in order. */
  function Own(calls: seq<Call>, key: string): seq<Call> {
    if calls == [] then []
    else
      var c := calls[|calls| - 1];
      Own(calls[..|calls| - 1], key) + if c.key == key then [c] else []
  }

  /** A key's record, hence every answer about it, is that of a throttle that only ever saw the key's own calls. */
  lemma {:induction false} KeysAreIndependent(l: Limits, calls: seq<Call>, key: string)
    ensures Get(Run(l, map[], calls), key) == Get(Run(l, map[], Own(calls, key)), key)
    ensures forall now :: Answer(l, calls, key, now) == Answer(l, Own(calls, key), key, now)
  {
    if calls != [] {
      var n := |calls| - 1;
      KeysAreIndependent(l, calls[..n], key);
      if calls[n].key == key {
        var own := Own(calls, key);
        assert own[..|own| - 1] == Own(calls[..n], key);
      } else {
        assert Own(calls, key) == Own(calls[..n], key);
      }
    }
  }

  // ---------- exact refusal, against the history ----------

  /** How one call on the key changes its streak. */
  function Extend(l: Limits, streak: seq<int>, op: Op, at: int): seq<int> {
    match op
    case Succeed => []
    case Fail => if streak != [] && at - streak[|streak| - 1] > l.window then [at] else streak + [at]
    case Allowed => if |streak| >= l.max && streak != [] && at >= streak[|streak| - 1] + l.window then [] else streak
  }

  /**
   The times of the failures in the key's current streak. A streak is ended by a success, by
   a failure more than a window after the one before it, and by an `Allowed` at or after the
   instant a full streak's block runs out. No table, no counter and no stored deadline.
   */
  function Streak(l: Limits, calls: seq<Call>, key: string): seq<int> {
    if calls == [] then []
    else
      var before := Streak(l, calls[..|calls| - 1], key);
      var c := calls[|calls| - 1];
      if c.key != key then before else Extend(l, before, c.op, c.at)
  }

  /** The record counts the streak, or was dropped because the streak can no longer grow. */
  ghost predicate Tracks(l: Limits, r: Option<Record>, streak: seq<int>, now: int) {
    match r
    case Some(a) => streak != [] && a.count == |streak| && a.last == streak[|streak| - 1]
    case None => streak == [] || now > streak[|streak| - 1] + l.window
  }

  lemma TracksStep(l: Limits, r: Option<Record>, streak: seq<int>, op: Op, at: int, now: int)
    requires l.Valid() && (r.Some? ==> RecordOk(l, r.value)) && Tracks(l, r, streak, at) && at <= now
    ensures Tracks(l, r, streak, now)
    ensures Tracks(l, StepKey(l, r, op, at), Extend(l, streak, op, at), now)
  {
  }

  lemma {:induction false} RecordTracksStreak(l: Limits, calls: seq<Call>, key: string, now: int)
    requires l.Valid() && Ordered(calls, now)
    ensures Tracks(l, Get(Run(l, map[], calls), key), Streak(l, calls, key), now)
  {
    if calls != [] {
      var before, c := calls[..|calls| - 1], calls[|calls| - 1];
      RecordTracksStreak(l, before, key, c.at);
      RecordsStayConsistent(l, before);
      TracksStep(l, Get(Run(l, map[], before), key), Streak(l, before, key), c.op, c.at, now);
    }
  }

  /**
   `Allowed` refuses exactly while the key's streak has reached max failures and less than a
   window has passed since the last of them.
   */
  lemma RefusesExactlyWhileBlocked(l: Limits, calls: seq<Call>, key: string, now: int)
    requires l.Valid() && Ordered(calls, now)
    ensures !Answer(l, calls, key, now) <==>
              var s := Streak(l, calls, key);
              |s| >= l.max && now < s[|s| - 1] + l.window
  {
    RecordTracksStreak(l, calls, key, now);
    RecordsStayConsistent(l, calls);
  }

  /** The streak is made of failures of the key, at most a window apart, none of them before a success. */
  ghost predicate IsChain(l: Limits, calls: seq<Call>, key: string, at: seq<nat>) {
    && (forall i :: 0 <= i < |at| ==> at[i] < |calls| && calls[at[i]].op == Fail && calls[at[i]].key == key)
    && (forall i, j :: 0 <= i < j < |at| ==> at[i] < at[j])
    && (forall i, j :: 0 <= i < j < |at| && j == i + 1 ==> calls[at[j]].at - calls[at[i]].at <= l.window)
    && (at != [] ==> forall j :: at[0] < j < |calls| && calls[j].key == key ==> calls[j].op != Succeed)
  }

  ghost predicate Dates(calls: seq<Call>, at: seq<nat>, times: seq<int>) {
    && |at| == |times|
    && forall i :: 0 <= i < |at| ==> at[i] < |calls| && calls[at[i]].at == times[i]
  }

  lemma {:induction false} StreakIsAChain(l: Limits, calls: seq<Call>, key: string) returns (at: seq<nat>)
    ensures IsChain(l, calls, key, at) && Dates(calls, at, Streak(l, calls, key))
  {
    at := [];
    if calls != [] {
      at := StreakIsAChain(l, calls[..|calls| - 1], key);
      at := StreakStep(l, calls, key, at);
    }
  }

  lemma StreakStep(l: Limits, calls: seq<Call>, key: string, at: seq<nat>) returns (at': seq<nat>)
    requires calls != [] && IsChain(l, calls[..|calls| - 1], key, at)
    requires Dates(calls[..|calls| - 1], at, Streak(l, calls[..|calls| - 1], key))
    ensures IsChain(l, calls, key, at') && Dates(calls, at', Streak(l, calls, key))
  {
    var n := |calls| - 1;
    var s, s' := Streak(l, calls[..n], key), Streak(l, calls, key);
    at' := [];
    if s' != [] {
      ChainKept(l, calls, key, at, s);
      if s' == s {
        at' := at;
      } else if s' == [calls[n].at] {
        at' := [n];
      } else {
        ChainGrows(l, calls, key, at, s);
        at' := at + [n];
      }
    }
  }

  /** A chain stays one when the next call is no success of its key. */
  lemma ChainKept(l: Limits, calls: seq<Call>, key: string, at: seq<nat>, s: seq<int>)
    requires calls != [] && IsChain(l, calls[..|calls| - 1], key, at) && Dates(calls[..|calls| - 1], at, s)
    requires calls[|calls| - 1].key == key ==> calls[|calls| - 1].op != Succeed
    ensures IsChain(l, calls, key, at) && Dates(calls, at, s)
    ensures forall i :: 0 <= i < |at| ==> at[i] < |calls| - 1
  {
    var n := |calls| - 1;
    var before := calls[..n];
    assert forall i :: 0 <= i < |at| ==> at[i] < n && before[at[i]] == calls[at[i]];
    assert at != [] ==> forall j :: at[0] < j < n && before[j].key == key ==> before[j].op != Succeed;
    assert forall j :: 0 <= j < n ==> before[j] == calls[j];
  }

  /** A failure no more than a window after the last one extends the chain. */
  lemma ChainGrows(l: Limits, calls: seq<Call>, key: string, at: seq<nat>, s: seq<int>)
    requires calls != [] && IsChain(l, calls, key, at) && Dates(calls, at, s)
    requires forall i :: 0 <= i < |at| ==> at[i] < |calls| - 1
    requires var c := calls[|calls| - 1];
             c.key == key && c.op == Fail && s != [] && c.at - s[|s| - 1] <= l.window
    ensures IsChain(l, calls, key, at + [|calls| - 1])
    ensures Dates(calls, at + [|calls| - 1], s + [calls[|calls| - 1].at])
  {
    var n := |calls| - 1;
    var at' := at + [n];
    forall i, j | 0 <= i < j < |at'| && j == i + 1 ensures calls[at'[j]].at - calls[at'[i]].at <= l.window {
      if j < |at| {
        assert at'[i] == at[i] && at'[j] == at[j];
      } else {
        assert calls[at[i]].at == s[i];
      }
    }
  }

  /**
   A refusal is always earned: the last max failures of the key exist, no two neighbours among
   them are more than a window apart, none precedes a success, and the newest is younger than a window.
   */
  lemma RefusalIsEarned(l: Limits, calls: seq<Call>, key: string, now: int) returns (at: seq<nat>)
    requires l.Valid() && Ordered(calls, now) && !Answer(l, calls, key, now)
    ensures |at| >= l.max && IsChain(l, calls, key, at)
    ensures now < calls[at[|at| - 1]].at + l.window
  {
    RefusesExactlyWhileBlocked(l, calls, key, now);
    at := StreakIsAChain(l, calls, key);
  }

  // ---------- reclamation ----------

  /** Two records that no later call can tell apart: equal, or one is gone and the other too old to count. */
  ghost predicate Alike(l: Limits, a: Option<Record>, b: Option<Record>, now: int) {
    a == b || (Spent(l, a, now) && Spent(l, b, now))
  }

  ghost predicate Spent(l: Limits, r: Option<Record>, now: int) {
    r.None? || (RecordOk(l, r.value) && now - r.value.last > l.window)
  }

  ghost predicate AlikeTables(l: Limits, m: Table, m': Table, now: int) {
    forall key :: Alike(l, Get(m, key), Get(m', key), now)
  }

  /** Alike tables stay alike through any later calls, so they go on giving the same answers. */
  lemma {:induction false} AlikeForever(l: Limits, m: Table, m': Table, calls: seq<Call>, start: int, now: int)
    requires l.Valid() && AlikeTables(l, m, m', start)
    requires Ordered(calls, now) && start <= now && forall i :: 0 <= i < |calls| ==> start <= calls[i].at
    ensures AlikeTables(l, Run(l, m, calls), Run(l, m', calls), now)
    ensures forall key :: Permits(Get(Run(l, m, calls), key), now) == Permits(Get(Run(l, m', calls), key), now)
  {
    if calls == [] {
      forall key ensures Alike(l, Get(m, key), Get(m', key), now) {}
    } else {
      var n := |calls| - 1;
      var c := calls[n];
      AlikeForever(l, m, m', calls[..n], start, c.at);
      var r, r' := Run(l, m, calls[..n]), Run(l, m', calls[..n]);
      forall key ensures Alike(l, Get(Run(l, m, calls), key), Get(Run(l, m', calls), key), now) {
        assert Alike(l, Get(r, key), Get(r', key), c.at);
        AlikeStep(l, Get(r, key), Get(r', key), c.op, c.at, now);
      }
    }
    forall key ensures Permits(Get(Run(l, m, calls), key), now) == Permits(Get(Run(l, m', calls), key), now) {
      assert Alike(l, Get(Run(l, m, calls), key), Get(Run(l, m', calls), key), now);
    }
  }

  lemma AlikeStep(l: Limits, a: Option<Record>, b: Option<Record>, op: Op, at: int, now: int)
    requires l.Valid() && Alike(l, a, b, at) && at <= now
    ensures Alike(l, a, b, now) && Alike(l, StepKey(l, a, op, at), StepKey(l, b, op, at), now)
  {
  }

  lemma OrderedHalves(a: seq<Call>, b: seq<Call>, now: int)
    requires Ordered(a + b, now)
    ensures Ordered(b, now)
    ensures forall i, j :: 0 <= i < |a| && 0 <= j < |b| ==> a[i].at <= b[j].at
    ensures forall at :: (if b == [] then at == now else at == b[0].at) ==> Ordered(a, at)
  {
    var all := a + b;
    assert forall i :: 0 <= i < |a| ==> all[i] == a[i];
    assert forall j :: 0 <= j < |b| ==> all[|a| + j] == b[j];
  }

  /** Each part of an ordered run is ordered. */
  lemma OrderedParts(before: seq<Call>, c: Call, after: seq<Call>, now: int)
    requires Ordered(before + [c] + after, now)
    ensures Ordered(before, c.at) && Ordered(after, now) && c.at <= now
    ensures forall i :: 0 <= i < |after| ==> c.at <= after[i].at
  {
    assert before + [c] + after == before + ([c] + after);
    OrderedHalves(before, [c] + after, now);
    OrderedHalves([c], after, now);
    assert ([c] + after)[0] == c;
  }

  /** The only moment at which asking is not free: the very instant a block of several failures runs out. */
  ghost predicate AtExpiry(l: Limits, calls: seq<Call>, key: string, at: int) {
    var s := Streak(l, calls, key);
    l.max > 1 && |s| >= l.max && at == s[|s| - 1] + l.window
  }

  /** An `Allowed` call inserted anywhere else changes no later answer, about any key. */
  lemma AskingIsFree(l: Limits, before: seq<Call>, key: string, at: int, after: seq<Call>, other: string, now: int)
    requires l.Valid() && Ordered(before + [Call(Allowed, key, at)] + after, now)
    requires !AtExpiry(l, before, key, at)
    ensures Answer(l, before + [Call(Allowed, key, at)] + after, other, now) == Answer(l, before + after, other, now)
  {
    var ask := Call(Allowed, key, at);
    var m := Run(l, map[], before);
    OrderedParts(before, ask, after, now);
    RunConcat(l, map[], before + [ask], after);
    RunConcat(l, map[], before, after);
    assert (before + [ask])[..|before|] == before;
    RecordsStayConsistent(l, before);
    if l.max == 1 && key in m && at == m[key].last + l.window {
      OneFailureExpires(l, m, Step(l, m, ask), key, at, after, now);
      AgreeingAnswers(l, Run(l, m, after), Run(l, Step(l, m, ask), after), key, other, now);
    } else {
      RecordTracksStreak(l, before, key, at);
      AskingLeavesAlike(l, m, key, at);
      AlikeForever(l, m, Step(l, m, ask), after, at, now);
    }
  }

  lemma AskingLeavesAlike(l: Limits, m: Table, key: string, at: int)
    requires l.Valid() && TableOk(l, m)
    requires key in m && m[key].blocked.Some? ==> at != m[key].last + l.window
    ensures AlikeTables(l, m, Step(l, m, Call(Allowed, key, at)), at)
  {
    forall k ensures Alike(l, Get(m, k), Get(Step(l, m, Call(Allowed, key, at)), k), at) {}
  }

  /** The tables agree but for one key, which the second may have dropped once its block was over. */
  ghost predicate AgreeButForExpiry(l: Limits, m: Table, m': Table, key: string, now: int) {
    && TableOk(l, m) && TableOk(l, m')
    && (forall k :: k != key ==> Get(m, k) == Get(m', k))
    && var a, b := Get(m, key), Get(m', key);
    || (a.Some? && b.Some? && a.value.last == b.value.last)
    || (b.None? && (a.None? || now >= a.value.last + l.window))
  }

  lemma ExpiryStep(l: Limits, m: Table, m': Table, key: string, c: Call, start: int)
    requires l.Valid() && l.max == 1 && AgreeButForExpiry(l, m, m', key, start) && start <= c.at
    ensures AgreeButForExpiry(l, Step(l, m, c), Step(l, m', c), key, c.at)
  {
  }

  lemma AgreeingAnswers(l: Limits, m: Table, m': Table, key: string, other: string, now: int)
    requires l.max == 1 && AgreeButForExpiry(l, m, m', key, now)
    ensures Permits(Get(m, other), now) == Permits(Get(m', other), now)
  {
  }

  /** With max = 1 even the expiry instant is harmless: the next failure blocks again either way. */
  lemma {:induction false} OneFailureExpires(
      l: Limits, m: Table, m': Table, key: string, start: int, after: seq<Call>, now: int)
    requires l.Valid() && l.max == 1 && AgreeButForExpiry(l, m, m', key, start)
    requires Ordered(after, now) && start <= now && forall i :: 0 <= i < |after| ==> start <= after[i].at
    ensures AgreeButForExpiry(l, Run(l, m, after), Run(l, m', after), key, now)
  {
    if after != [] {
      var n := |after| - 1;
      var at := after[n].at;
      OneFailureExpires(l, m, m', key, start, after[..n], at);
      ExpiryStep(l, Run(l, m, after[..n]), Run(l, m', after[..n]), key, after[n], at);
    }
  }

  /** At the expiry instant asking does change something: a failure in the same instant then blocks no more. */
  lemma AskingAtExpiryCounts(l: Limits, before: seq<Call>, key: string, at: int) returns (after: seq<Call>)
    requires l.Valid() && Ordered(before, at) && AtExpiry(l, before, key, at)
    ensures Ordered(before + [Call(Allowed, key, at)] + after, at)
    ensures Answer(l, before + [Call(Allowed, key, at)] + after, key, at)
    ensures !Answer(l, before + after, key, at)
  {
    after := [Call(Fail, key, at)];
    var ask := Call(Allowed, key, at);
    RecordTracksStreak(l, before, key, at);
    RecordsStayConsistent(l, before);
    RunConcat(l, map[], before + [ask], after);
    RunConcat(l, map[], before, after);
    assert (before + [ask])[..|before|] == before;
    assert after[..0] == [];
  }

  lemma StreakAppends(l: Limits, calls: seq<Call>, c: Call, streak: seq<int>)
    requires streak == Streak(l, calls, c.key)
    ensures Streak(l, calls + [c], c.key) == Extend(l, streak, c.op, c.at)
  {
    assert (calls + [c])[..|calls|] == calls;
  }

  /** Two failures in one instant are a streak. */
  lemma TwoFailures(l: Limits, c: Call, calls: seq<Call>)
    requires l.Valid() && c.op == Fail && calls == [c, c]
    ensures Streak(l, calls, c.key) == [c.at, c.at]
  {
    StreakAppends(l, [], c, []);
    StreakAppends(l, [c], c, [c.at]);
    assert [] + [c] == [c] && [c] + [c] == calls;
  }

  /** Two failures at time 0 under a limit of two and a window of ten: at time 10 their block runs out. */
  lemma ExpiryIsReached() returns (before: seq<Call>)
    ensures before == [Call(Fail, "k", 0), Call(Fail, "k", 0)] && AtExpiry(Limits(2, 10), before, "k", 10)
  {
    before := [Call(Fail, "k", 0), Call(Fail, "k", 0)];
    TwoFailures(Limits(2, 10), Call(Fail, "k", 0), before);
  }

  /** Reclamation is invisible exactly away from the expiry instant of a block of several failures. */
  lemma AskingIsFreeExactly(l: Limits, before: seq<Call>, key: string, at: int)
    requires l.Valid() && Ordered(before, at)
    ensures AtExpiry(l, before, key, at) <==>
            exists after: seq<Call>, other: string, now: int ::
              && Ordered(before + [Call(Allowed, key, at)] + after, now)
              && Answer(l, before + [Call(Allowed, key, at)] + after, other, now) !=
                 Answer(l, before + after, other, now)
  {
    if AtExpiry(l, before, key, at) {
      var after := AskingAtExpiryCounts(l, before, key, at);
      assert Answer(l, before + [Call(Allowed, key, at)] + after, key, at) != Answer(l, before + after, key, at);
    } else {
      forall after: seq<Call>, other: string, now: int
        | Ordered(before + [Call(Allowed, key, at)] + after, now)
        ensures Answer(l, before + [Call(Allowed, key, at)] + after, other, now) ==
          Answer(l, before + after, other, now)
      {
        AskingIsFree(l, before, key, at, after, other, now);
      }
    }
  }
}

module ThrottleStore {
  import opened Wrappers
  import opened ThrottleSpec

  /** The record with one more failure, counted at `now`. */
  function Counted(l: Limits, r: Record, now: int): Record {
    Record(r.count + 1, now, if r.count + 1 >= l.max then Some(now + l.window) else r.blocked)
  }

  lemma FailureIsAStep(l: Limits, m: Table, key: string, now: int, r: Record)
    requires AfterFail(l, Get(m, key), now) == Some(r)
    ensures Step(l, m, Call(ThrottleSpec.Fail, key, now)) == m[key := r]
  {
  }

  lemma FailureIsCounted(l: Limits, r: Option<Record>, counting: Record, now: int)
    requires if r.Some? && now - r.value.last <= l.window then counting == r.value
             else counting.count == 0 && counting.blocked == None
    ensures AfterFail(l, r, now) == Some(Counted(l, counting, now))
  {
  }

  /** The heap record behind one key of the table; only the table's methods hold a reference to it. */
  class Attempts {
    var count: nat
    var blocked: Option<int>
    var last: int

    ghost function Value(): Record
      reads this
    {
      Record(count, last, blocked)
    }

    constructor ()
      ensures count == 0 && blocked == None
    {
      count, blocked, last := 0, None, 0;
    }

    /** The part of `Fail` that works on the record: count one failure, block the key once the limit is reached. */
    method Count(limits: Limits, now: int)
      modifies this
      ensures Value() == Counted(limits, old(Value()), now)
    {
      count := count + 1;
      last := now;
      if count >= limits.max {
        blocked := Some(now + limits.window);
      }
    }
  }

  class Throttle {
    var m: map<string, Attempts>
    const limits: Limits

    /** The table as a value. */
    ghost var table: Table

    ghost predicate Valid()
      reads this, m.Values
    {
      && limits.Valid()
      && m.Keys == table.Keys
      && (forall k :: k in m ==> m[k].Value() == table[k])
      && (forall k, k' :: k in m && k' in m && k != k' ==> m[k] != m[k'])
    }

    /** NewThrottle: a non-positive argument selects the default. */
    constructor (max: int, window: int)
      ensures Valid() && table == map[] && fresh(m.Values)
      ensures limits.max == (if max <= 0 then 10 else max)
      ensures limits.window == (if window <= 0 then 900_000_000_000 else window)
    {
      m, table := map[], map[];
      limits := Limits(if max <= 0 then DEFAULT_MAX else max, if window <= 0 then DEFAULT_WINDOW else window);
    }

    method Allowed(key: string, now: int) returns (ok: bool)
      requires Valid()
      modifies this
      ensures Valid() && m.Values <= old(m.Values)
      ensures ok == Permits(Get(old(table), key), now)
      ensures table == Step(limits, old(table), Call(ThrottleSpec.Allowed, key, now))
      ensures !ok <==> key in old(table) && old(table)[key].blocked.Some? && now < old(table)[key].blocked.value
      ensures table ==
        if ok && key in old(table) && (old(table)[key].blocked.Some? || now - old(table)[key].last > limits.window)
        then old(table) - {key} else old(table)
    {
      if key !in m {
        return true;
      }
      var a := m[key];
      if a.blocked.Some? {
        if now < a.blocked.value {
          return false;
        }
        m, table := m - {key}, table - {key};
        return true;
      }
      if now - a.last > limits.window {
        m, table := m - {key}, table - {key};
      }
      return true;
    }

    method Fail(key: string, now: int)
      requires Valid()
      modifies this, m.Values
      ensures Valid() && fresh(m.Values - old(m.Values))
      ensures table == Step(limits, old(table), Call(ThrottleSpec.Fail, key, now))
      ensures var goesOn := key in old(table) && now - old(table)[key].last <= limits.window;
        var count := if goesOn then old(table)[key].count + 1 else 1;
        table == old(table)[key := Record(count, now,
          if count >= limits.max then Some(now + limits.window)
          else if goesOn then old(table)[key].blocked else None)]
    {
      Prepare(key, now);
      CountOne(key, now);
    }

    /** The part of `Fail` that works on the record the key has by now. */
    method CountOne(key: string, now: int)
      requires Valid() && key in m
      modifies this`table, m[key]
      ensures Valid() && table == old(table)[key := Counted(limits, old(table)[key], now)]
    {
      table := table[key := Counted(limits, table[key], now)];
      m[key].Count(limits, now);
    }

    /** The part of `Fail` that gives the key a new record, should it have none or one too old to count. */
    method Prepare(key: string, now: int)
      requires Valid()
      modifies this
      ensures Valid() && key in m && fresh(m.Values - old(m.Values)) && (m[key] in old(m.Values) || fresh(m[key]))
      ensures table[key := Counted(limits, table[key], now)] ==
        Step(limits, old(table), Call(ThrottleSpec.Fail, key, now))
    {
      if key !in m || now - m[key].last > limits.window {
        Restart(key);
      }
      FailureIsCounted(limits, Get(old(table), key), table[key], now);
      FailureIsAStep(limits, old(table), key, now, Counted(limits, table[key], now));
    }

    method Restart(key: string)
      requires Valid()
      modifies this
      ensures Valid() && key in m && fresh(m.Values - old(m.Values))
      ensures fresh(m[key]) && table[key].count == 0 && table[key].blocked == None
      ensures table == old(table)[key := table[key]]
    {
      var started := new Attempts();
      m := m[key := started];
      table := table[key := started.Value()];
      assert m.Values <= old(m.Values) + {started};
    }

    method Succeed(key: string)
      requires Valid()
      modifies this
      ensures Valid() && m.Values <= old(m.Values)
      ensures forall now :: table == Step(limits, old(table), Call(ThrottleSpec.Succeed, key, now))
      ensures table == old(table) - {key}
    {
      m, table := m - {key}, table - {key};
    }
  }
}
