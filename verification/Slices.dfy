/**
 The shared history slice of internal/websockets/main.go under every interleaving.

 `Fire` evaluates its append, which writes the new entry into an array, and then assigns the
 slice; a subscriber takes the slice under the history lock but replays its entries without
 it, so also between those two steps and during any later ones. Entries are named by their
 position in firing order. A run is any sequence of steps; one that is not possible where it
 stands does nothing.
 */
module LogSlices {
  import opened Wrappers
  import opened LogWindow
  import opened LogFanout

  /** `len` entries of an array from `off`; what follows them in the array is spare capacity. */
  datatype Slice = Slice(base: nat, off: nat, len: nat)

  /** A snapshot: the slice that a subscriber took, and how many entries had been recorded then. */
  datatype Shot = Shot(slice: Slice, at: nat)

  datatype Memory = Memory(
    arrays: seq<seq<nat>>,        // every array ever allocated, as it is now
    history: Slice,
    recorded: nat,
    appended: Option<Slice>,      // the value of the append, until it is assigned; the lock is held
    shots: map<nat, Shot>)

  datatype Access =
    | Append(spare: nat)          // spare: the capacity beyond need, should the append have to allocate
    | Assign
    | Take(id: nat)

  function Start(): Memory {
    Memory([[]], Slice(0, 0, 0), 0, None, map[])
  }

  /** The slice that the append extends: the history, or the history without its first entry. */
  function Operand(h: Slice): Slice {
    if h.len < HISTORY then h else Slice(h.base, h.off + 1, h.len - 1)
  }

  predicate InBounds(m: Memory, s: Slice) {
    s.base < |m.arrays| && s.off + s.len <= |m.arrays[s.base]|
  }

  /** What reading the slice entry by entry yields now. */
  function Shown(m: Memory, s: Slice): seq<nat>
    requires InBounds(m, s)
  {
    m.arrays[s.base][s.off..s.off + s.len]
  }

  /** Capacity behind a slice, not written yet. */
  function Room(n: nat): (r: seq<nat>)
    ensures |r| == n
  {
    seq(n, _ => 0)
  }

  /** Go's append: in place while the array has room behind the operand, else into a new array. */
  function AfterAppend(m: Memory, spare: nat): Memory
    requires InBounds(m, Operand(m.history))
  {
    var s := Operand(m.history);
    var entries := m.arrays[s.base];
    if s.off + s.len < |entries| then
      m.(arrays := m.arrays[s.base := entries[s.off + s.len := m.recorded]],
         appended := Some(Slice(s.base, s.off, s.len + 1)))
    else
      m.(arrays := m.arrays + [Shown(m, s) + [m.recorded] + Room(spare)],
         appended := Some(Slice(|m.arrays|, 0, s.len + 1)))
  }

  function After(m: Memory, access: Access): Memory
    requires InBounds(m, Operand(m.history))
  {
    match access
    case Append(spare) => if m.appended.None? then AfterAppend(m, spare) else m
    case Assign =>
      if m.appended.Some? then m.(history := m.appended.value, recorded := m.recorded + 1, appended := None) else m
    case Take(id) =>
      if m.appended.None? && id !in m.shots then m.(shots := m.shots[id := Shot(m.history, m.recorded)]) else m
  }

  // ---------- the invariant ----------

  /** The slice shows the last fifty of the first n entries. */
  ghost predicate ShowsWindow(m: Memory, s: Slice, n: nat) {
    InBounds(m, s) && Shown(m, s) == Range(Oldest(n), n)
  }

  /** The slice ends no later in its array than the history. */
  predicate EndsBefore(s: Slice, h: Slice) {
    s.base == h.base ==> s.off + s.len <= h.off + h.len
  }

  ghost predicate Sound(m: Memory) {
    && ShowsWindow(m, m.history, m.recorded)
    && (m.appended.Some? ==>
          ShowsWindow(m, m.appended.value, m.recorded + 1) && EndsBefore(m.history, m.appended.value)
          && m.appended.value.base >= m.history.base)
    && (forall id :: id in m.shots ==> ShotSound(m, m.shots[id]))
  }

  ghost predicate ShotSound(m: Memory, shot: Shot) {
    && ShowsWindow(m, shot.slice, shot.at) && shot.at <= m.recorded
    && EndsBefore(shot.slice, m.history) && shot.slice.base <= m.history.base
  }

  lemma WindowLength(n: nat)
    ensures |Range(Oldest(n), n)| == if n < HISTORY then n else HISTORY
  {
  }

  /** The append's write lands behind every slice that ends before the history does. */
  lemma AppendKeeps(m: Memory, spare: nat, s: Slice)
    requires InBounds(m, Operand(m.history)) && InBounds(m, s) && EndsBefore(s, m.history)
    ensures InBounds(AfterAppend(m, spare), s) && Shown(AfterAppend(m, spare), s) == Shown(m, s)
  {
  }

  lemma AppendShows(m: Memory, spare: nat)
    requires ShowsWindow(m, m.history, m.recorded)
    ensures ShowsWindow(AfterAppend(m, spare), AfterAppend(m, spare).appended.value, m.recorded + 1)
  {
    WindowLength(m.recorded);
    WindowSlides(m.recorded);
    AppendWrites(m, spare);
    OperandShows(m);
  }

  lemma AppendWrites(m: Memory, spare: nat)
    requires InBounds(m, Operand(m.history))
    ensures var m' := AfterAppend(m, spare);
      InBounds(m', m'.appended.value) && Shown(m', m'.appended.value) == Shown(m, Operand(m.history)) + [m.recorded]
  {
  }

  lemma OperandShows(m: Memory)
    requires InBounds(m, m.history)
    ensures InBounds(m, Operand(m.history))
    ensures Shown(m, Operand(m.history)) ==
      if m.history.len < HISTORY then Shown(m, m.history) else Shown(m, m.history)[1..]
  {
  }

  lemma AppendKeepsSound(m: Memory, spare: nat)
    requires Sound(m) && m.appended.None?
    ensures Sound(AfterAppend(m, spare))
  {
    var m' := AfterAppend(m, spare);
    AppendShows(m, spare);
    AppendKeeps(m, spare, m.history);
    forall id | id in m.shots ensures ShotSound(m', m.shots[id]) {
      AppendKeeps(m, spare, m.shots[id].slice);
    }
  }

  lemma AssignKeepsSound(m: Memory)
    requires Sound(m) && m.appended.Some?
    ensures Sound(After(m, Assign))
  {
    var m' := After(m, Assign);
    forall id | id in m.shots ensures ShotSound(m', m.shots[id]) {
      assert ShotSound(m, m.shots[id]);
    }
  }

  lemma AccessKeepsSound(m: Memory, access: Access)
    requires Sound(m)
    ensures Sound(After(m, access))
  {
    match access
    case Append(spare) =>
      if m.appended.None? {
        AppendKeepsSound(m, spare);
      }
    case Assign =>
      if m.appended.Some? {
        AssignKeepsSound(m);
      }
    case Take(_) =>
  }

  function Runs(accesses: seq<Access>): (m: Memory)
    ensures Sound(m)
  {
    if accesses == [] then Start()
    else
      var before := Runs(accesses[..|accesses| - 1]);
      AccessKeepsSound(before, accesses[|accesses| - 1]);
      After(before, accesses[|accesses| - 1])
  }

  lemma ShotStays(m: Memory, access: Access, id: nat)
    requires Sound(m) && id in m.shots
    ensures id in After(m, access).shots && After(m, access).shots[id] == m.shots[id]
  {
  }

  /** What happens later takes no snapshot away and changes none. */
  lemma {:induction false} ShotsStay(first: seq<Access>, accesses: seq<Access>, id: nat)
    requires first <= accesses && id in Runs(first).shots
    ensures id in Runs(accesses).shots && Runs(accesses).shots[id] == Runs(first).shots[id]
  {
    if |first| == |accesses| {
      assert first == accesses;
    } else {
      var before, access := accesses[..|accesses| - 1], accesses[|accesses| - 1];
      ShotsStay(first, before, id);
      ShotStays(Runs(before), access, id);
    }
  }

  /** Entry i of the slice, read now, is the nth ever fired. */
  ghost predicate ReadsEntry(m: Memory, s: Slice, i: nat, n: nat) {
    InBounds(m, s) && i < s.len && m.arrays[s.base][s.off + i] == n
  }

  /** A snapshot's entry is at its place in the array as long as the memory is sound. */
  lemma EntryOfShot(m: Memory, id: nat, i: nat)
    requires Sound(m) && id in m.shots && i < m.shots[id].slice.len
    ensures ReadsEntry(m, m.shots[id].slice, i, Oldest(m.shots[id].at) + i)
  {
    var shot := m.shots[id];
    assert ShotSound(m, shot);
    assert m.arrays[shot.slice.base][shot.slice.off + i] == Shown(m, shot.slice)[i];
  }

  /**
   Whatever has been done since a snapshot was taken, half of an append included, a replay that reads
   its entry i reads what the slice showed when it was taken: entry i of the last fifty then recorded.
   */
  lemma ReplayReadsTheSnapshot(first: seq<Access>, accesses: seq<Access>, id: nat, i: nat)
    requires first <= accesses && id in Runs(first).shots && i < Runs(first).shots[id].slice.len
    ensures var shot := Runs(first).shots[id];
      && ReadsEntry(Runs(first), shot.slice, i, Oldest(shot.at) + i)
      && ReadsEntry(Runs(accesses), shot.slice, i, Oldest(shot.at) + i)
  {
    ShotsStay(first, accesses, id);
    var was, now := Runs(first), Runs(accesses);
    EntryOfShot(was, id, i);
    EntryOfShot(now, id, i);
  }

  // ---------- the fan-out, on this memory ----------

  /**
   What a step of the fan-out does to the slice: a record is an append and its assignment. Whether the
   append writes in place or into a new array is up to the capacity that earlier ones have left.
   */
  function StepAccesses(s: State, step: Step, spare: nat): seq<Access> {
    if !Enabled(s, step) then []
    else match step
      case FireRecord => [Append(spare), Assign]
      case Snapshot(id) => [Take(id)]
      case _ => []
  }

  /** The accesses of a run, in which an append at step n that has to allocate leaves the nth spare capacity. */
  function AccessesOf(steps: seq<Step>, spare: nat -> nat): seq<Access> {
    if steps == [] then []
    else
      var before := steps[..|steps| - 1];
      AccessesOf(before, spare) + StepAccesses(Run(before), steps[|steps| - 1], spare(|before|))
  }

  /** Memory and fan-out have recorded the same entries and taken the same snapshots. */
  ghost predicate Agree(m: Memory, s: State) {
    && (s.firing.Pushing? ==> s.fired > 0)
    && m.recorded == Past(s) && m.appended.None? && m.shots.Keys == s.subs.Keys
    && (forall id :: id in m.shots ==> m.shots[id].at == s.subs[id].snapAt)
  }

  lemma RunsAppends(accesses: seq<Access>, access: Access)
    ensures Runs(accesses + [access]) == After(Runs(accesses), access)
  {
    assert (accesses + [access])[..|accesses|] == accesses;
  }

  lemma RecordAgrees(m: Memory, s: State, spare: nat)
    requires Sound(m) && Agree(m, s) && Enabled(s, FireRecord)
    ensures Sound(After(m, Append(spare))) && Agree(After(After(m, Append(spare)), Assign), Next(s, FireRecord))
  {
    AccessKeepsSound(m, Append(spare));
  }

  lemma TakeAgrees(m: Memory, s: State, id: nat)
    requires Sound(m) && Agree(m, s) && Enabled(s, Snapshot(id))
    ensures Agree(After(m, Take(id)), Next(s, Snapshot(id)))
  {
  }

  lemma OtherStepsAgree(m: Memory, s: State, step: Step)
    requires Agree(m, s) && Enabled(s, step) && !step.FireRecord? && !step.Snapshot?
    ensures Agree(m, Next(s, step))
  {
  }

  lemma RunsRecord(accesses: seq<Access>, m: Memory, spare: nat)
    requires m == Runs(accesses)
    ensures InBounds(After(m, Append(spare)), Operand(After(m, Append(spare)).history))
    ensures Runs(accesses + [Append(spare), Assign]) == After(After(m, Append(spare)), Assign)
  {
    AccessKeepsSound(m, Append(spare));
    RunsAppends(accesses, Append(spare));
    RunsAppends(accesses + [Append(spare)], Assign);
    assert accesses + [Append(spare)] + [Assign] == accesses + [Append(spare), Assign];
  }

  lemma StepAgrees(accesses: seq<Access>, m: Memory, s: State, step: Step, spare: nat)
    requires m == Runs(accesses) && Agree(m, s)
    ensures Agree(Runs(accesses + StepAccesses(s, step, spare)), Next(s, step))
  {
    if Enabled(s, step) && step.FireRecord? {
      RecordAgrees(m, s, spare);
      RunsRecord(accesses, m, spare);
    } else if Enabled(s, step) && step.Snapshot? {
      TakeAgrees(m, s, step.id);
      RunsAppends(accesses, Take(step.id));
    } else {
      NoAccess(accesses, s, step, spare);
      if Enabled(s, step) {
        OtherStepsAgree(m, s, step);
      }
    }
  }

  lemma NoAccess(accesses: seq<Access>, s: State, step: Step, spare: nat)
    requires Enabled(s, step) ==> !step.FireRecord? && !step.Snapshot?
    ensures accesses + StepAccesses(s, step, spare) == accesses
  {
  }

  lemma {:induction false} RunsAgree(steps: seq<Step>, spare: nat -> nat)
    ensures Agree(Runs(AccessesOf(steps, spare)), Run(steps))
  {
    if steps != [] {
      var before := steps[..|steps| - 1];
      RunsAgree(before, spare);
      var accesses := AccessesOf(before, spare);
      StepAgrees(accesses, Runs(accesses), Run(before), steps[|steps| - 1], spare(|before|));
    }
  }

  /**
   The fan-out may treat history and snapshots as values: on the shared arrays, in every interleaving
   and whatever capacity each append leaves, so whether it writes in place or not, the history slice
   shows its history, and each subscriber's slice its snapshot, now as ever.
   */
  lemma FanoutRunsOnSlices(steps: seq<Step>, spare: nat -> nat)
    ensures var m, s := Runs(AccessesOf(steps, spare)), Run(steps);
      && InBounds(m, m.history) && Shown(m, m.history) == s.history && m.shots.Keys == s.subs.Keys
      && forall id :: id in s.subs ==>
           InBounds(m, m.shots[id].slice) && Shown(m, m.shots[id].slice) == s.subs[id].snapshot
  {
    RunsAgree(steps, spare);
    InvAlways(steps);
    var m, s := Runs(AccessesOf(steps, spare)), Run(steps);
    forall id | id in s.subs
      ensures InBounds(m, m.shots[id].slice) && Shown(m, m.shots[id].slice) == s.subs[id].snapshot
    {
      assert ShotSound(m, m.shots[id]) && SubscriberOk(s.subs[id], Past(s), s.fired);
    }
  }

  lemma StepPlays(steps: seq<Step>, step: Step, spare: nat -> nat)
    ensures Run(steps + [step]) == Next(Run(steps), step)
    ensures AccessesOf(steps + [step], spare) ==
      AccessesOf(steps, spare) + StepAccesses(Run(steps), step, spare(|steps|))
  {
    assert (steps + [step])[..|steps|] == steps;
  }

  /** A Fire begins that has no subscriber to push to. */
  lemma BeginPlays(steps: seq<Step>, spare: nat -> nat) returns (all: seq<Step>)
    requires Run(steps).firing == Idle && Members(Run(steps)) == {}
    ensures all == steps + [FireBegin] && AccessesOf(all, spare) == AccessesOf(steps, spare)
    ensures Run(all) == Run(steps).(fired := Run(steps).fired + 1, firing := Pushing({}))
  {
    all := steps + [FireBegin];
    StepPlays(steps, FireBegin, spare);
    NoAccess(AccessesOf(steps, spare), Run(steps), FireBegin, spare(|steps|));
  }

  lemma EndPlays(steps: seq<Step>, spare: nat -> nat) returns (all: seq<Step>)
    requires Run(steps).firing == Recorded
    ensures all == steps + [FireEnd] && AccessesOf(all, spare) == AccessesOf(steps, spare)
    ensures Run(all) == Run(steps).(firing := Idle)
  {
    all := steps + [FireEnd];
    StepPlays(steps, FireEnd, spare);
    NoAccess(AccessesOf(steps, spare), Run(steps), FireEnd, spare(|steps|));
  }

  /** It appends its entry and ends. */
  lemma RecordPlays(steps: seq<Step>, spare: nat -> nat, m: Memory, n: nat) returns (all: seq<Step>)
    requires Run(steps).firing == Pushing({}) && Run(steps).fired > 0
    requires m == Runs(AccessesOf(steps, spare)) && n == spare(|steps|)
    ensures steps <= all && Run(all).firing == Idle && Run(all).subs == Run(steps).subs
    ensures InBounds(After(m, Append(n)), Operand(After(m, Append(n)).history))
    ensures Runs(AccessesOf(all, spare)) == After(After(m, Append(n)), Assign)
  {
    StepPlays(steps, FireRecord, spare);
    RunsRecord(AccessesOf(steps, spare), m, n);
    all := EndPlays(steps + [FireRecord], spare);
  }

  lemma SnapshotJoinsNoTable(s: State, id: nat)
    requires s.firing == Idle && id !in s.subs
    ensures Next(s, Snapshot(id)).firing == Idle && Members(Next(s, Snapshot(id))) == Members(s)
  {
  }

  lemma SnapshotTakes(s: State, id: nat, n: nat, accesses: seq<Access>)
    requires s.firing == Idle && id !in s.subs
    ensures Runs(accesses + StepAccesses(s, Snapshot(id), n)) == After(Runs(accesses), Take(id))
  {
    RunsAppends(accesses, Take(id));
  }

  /** The memory after one entry, with n places left behind it. */
  function WithOne(n: nat): Memory {
    Memory([[], [0] + Room(n)], Slice(1, 0, 1), 1, None, map[])
  }

  /** And after a snapshot. */
  function WithOneTaken(n: nat, id: nat): Memory {
    WithOne(n).(shots := map[id := Shot(Slice(1, 0, 1), 1)])
  }

  lemma AppendAllocates(m: Memory, spare: nat, s: Slice, entries: seq<nat>)
    requires s == Operand(m.history) && InBounds(m, s) && s.off + s.len == |m.arrays[s.base]|
    requires entries == Shown(m, s) + [m.recorded] + Room(spare)
    ensures AfterAppend(m, spare) ==
      m.(arrays := m.arrays + [entries], appended := Some(Slice(|m.arrays|, 0, s.len + 1)))
  {
  }

  lemma FirstAppend(n: nat, s: Slice, m: Memory)
    requires s == Slice(0, 0, 0) && m == Memory([[]], s, 0, None, map[])
    ensures InBounds(m, Operand(s)) && After(m, Append(n)) ==
      WithOne(n).(history := s, recorded := 0, appended := Some(Slice(1, 0, 1)))
  {
    var entries := [0] + Room(n);
    assert Shown(m, s) == [] && [] + [0] == [0];
    AppendAllocates(m, n, s, entries);
    assert [[]] + [entries] == [[], entries];
  }

  lemma FirstAssign(n: nat, s: Slice, m: Memory)
    requires s == Slice(0, 0, 0)
    requires m == WithOne(n).(history := s, recorded := 0, appended := Some(Slice(1, 0, 1)))
    ensures InBounds(m, Operand(m.history)) && After(m, Assign) == WithOne(n)
  {
  }

  lemma FirstTake(n: nat, id: nat, m: Memory)
    requires m == WithOne(n)
    ensures InBounds(m, Operand(m.history)) && After(m, Take(id)) == WithOneTaken(n, id)
  {
    assert map[][id := Shot(m.history, 1)] == map[id := Shot(Slice(1, 0, 1), 1)];
  }

  /** The second entry's append writes in place. */
  lemma SecondEntry(n: nat, n': nat, id: nat)
    requires n > 0
    ensures var m := WithOneTaken(n, id);
      After(After(m, Append(n')), Assign) ==
      m.(arrays := m.arrays[1 := m.arrays[1][1 := 1]], history := Slice(1, 0, 2), recorded := 2)
  {
  }

  lemma FirstEntryPlays(none: seq<Step>, spare: nat -> nat, n: nat) returns (all: seq<Step>)
    requires none == [] && n == spare(1)
    ensures Run(all).firing == Idle && Run(all).subs == map[] && Runs(AccessesOf(all, spare)) == WithOne(n)
  {
    assert Members(Init()) == {};
    all := BeginPlays(none, spare);
    FirstAppend(n, Slice(0, 0, 0), Start());
    FirstAssign(n, Slice(0, 0, 0), After(Start(), Append(n)));
    all := RecordPlays(all, spare, Start(), n);
  }

  lemma SnapshotPlays(steps: seq<Step>, spare: nat -> nat, n: nat, id: nat) returns (all: seq<Step>)
    requires Run(steps).firing == Idle && Run(steps).subs == map[] && Runs(AccessesOf(steps, spare)) == WithOne(n)
    ensures steps <= all && Runs(AccessesOf(all, spare)) == WithOneTaken(n, id)
    ensures Run(all).firing == Idle && Members(Run(all)) == {}
  {
    all := steps + [Snapshot(id)];
    StepPlays(steps, Snapshot(id), spare);
    SnapshotTakes(Run(steps), id, spare(|steps|), AccessesOf(steps, spare));
    SnapshotJoinsNoTable(Run(steps), id);
    FirstTake(n, id, Runs(AccessesOf(steps, spare)));
  }

  lemma SecondEntryPlays(steps: seq<Step>, spare: nat -> nat, n: nat, id: nat) returns (all: seq<Step>)
    requires Run(steps).firing == Idle && Members(Run(steps)) == {} && n > 0
    requires Runs(AccessesOf(steps, spare)) == WithOneTaken(n, id)
    ensures steps <= all
    ensures var m := WithOneTaken(n, id);
      Runs(AccessesOf(all, spare)) ==
      m.(arrays := m.arrays[1 := m.arrays[1][1 := 1]], history := Slice(1, 0, 2), recorded := 2)
  {
    all := BeginPlays(steps, spare);
    SecondEntry(n, spare(|all|), id);
    all := RecordPlays(all, spare, WithOneTaken(n, id), spare(|all|));
  }

  /**
   The arrays are shared: in this run the second entry is written into the very array that a snapshot
   taken in between shows, behind it, if the append of the first one left any capacity.
   */
  lemma SharedArrayIsWritten(spare: nat -> nat, id: nat) returns (steps: seq<Step>, all: seq<Step>)
    requires spare(1) > 0
    ensures steps <= all
    ensures var was, now := Runs(AccessesOf(steps, spare)), Runs(AccessesOf(all, spare));
      && was == WithOneTaken(spare(1), id)
      && now == was.(arrays := was.arrays[1 := was.arrays[1][1 := 1]], history := Slice(1, 0, 2), recorded := 2)
  {
    var first := FirstEntryPlays([], spare, spare(1));
    steps := SnapshotPlays(first, spare, spare(1), id);
    all := SecondEntryPlays(steps, spare, spare(1), id);
  }

  /** Entries named by their position: the window's names are the places of HistoryAfter's entries. */
  lemma NamesAreEntries<T>(fired: seq<T>, i: nat)
    requires i < |HistoryAfter(fired)|
    ensures i < |Range(Oldest(|fired|), |fired|)| == |HistoryAfter(fired)|
    ensures Range(Oldest(|fired|), |fired|)[i] < |fired|
    ensures HistoryAfter(fired)[i] == fired[Range(Oldest(|fired|), |fired|)[i]]
  {
    HistoryIsTheLastFifty(fired);
  }
}
