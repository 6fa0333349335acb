/**
 Log subscribers of internal/websockets/main.go under every interleaving.

 Entries are named by their position in firing order. The steps are the pieces of `Fire` and
 `subscribe` between which another goroutine can run: `Fire` holds the subscriber lock from
 its first push to its end and takes the history lock only around the append, while a
 snapshot takes the history lock alone and a receive takes none. A run is any sequence of
 steps; a step that is not possible where it stands does nothing.
 */
module LogFanout {
  import opened LogWindow

  /** Where the one `Fire` that holds the subscriber lock stands. */
  datatype Firing = Idle | Pushing(left: set<nat>) | Recorded

  datatype Phase = Replaying | Registered | Leaving | Gone

  /**
   One call of `subscribe`. The last three fields record what happened to it: how many entries
   were in the history's past at its snapshot, how many fired before it was added, how many
   it has been offered up to, and which of those its full queue refused.
   */
  datatype Subscriber = Subscriber(
    phase: Phase,
    snapshot: seq<nat>,
    sent: seq<nat>,
    hand: seq<nat>,      // the message received from the queue and not written yet
    queue: seq<nat>,
    snapAt: nat,
    added: bool,
    addedAt: nat,
    offered: nat,
    dropped: set<nat>)
  {
    /** Everything on its way to the client, in the order the client sees it. */
    function Stream(): seq<nat> { sent + hand + queue }
  }

  datatype State = State(
    fired: nat,           // how many Fire calls have got the subscriber lock
    firing: Firing,
    history: seq<nat>,
    subs: map<nat, Subscriber>)

  datatype Step =
    | FireBegin
    | FirePush(id: nat)      // the non-blocking send to one subscriber
    | FireRecord             // the append under the history lock
    | FireEnd
    | Snapshot(id: nat)
    | Replay(id: nat)        // write the next entry of the snapshot
    | Add(id: nat)
    | Receive(id: nat)
    | Write(id: nat)
    | Leave(id: nat)         // a write failed or the request was cancelled
    | Delete(id: nat)

  function Init(): State {
    State(0, Idle, [], map[])
  }

  /** How many entries have reached the history. */
  function Past(s: State): nat
    requires s.firing.Pushing? ==> s.fired > 0
  {
    if s.firing.Pushing? then s.fired - 1 else s.fired
  }

  predicate IsMember(sub: Subscriber) { sub.added && sub.phase != Gone }

  /** The subscribers in the table that Fire ranges over. */
  function Members(s: State): set<nat> {
    set id | id in s.subs && IsMember(s.subs[id])
  }

  predicate Enabled(s: State, step: Step) {
    match step
    case FireBegin => s.firing == Idle
    case FirePush(id) => s.firing.Pushing? && id in s.firing.left && id in s.subs && s.fired > 0
    case FireRecord => s.firing == Pushing({}) && s.fired > 0
    case FireEnd => s.firing == Recorded
    case Snapshot(id) => id !in s.subs && (s.firing.Pushing? ==> s.fired > 0)
    case Replay(id) => id in s.subs && s.subs[id].phase == Replaying && |s.subs[id].sent| < |s.subs[id].snapshot|
    case Add(id) =>
      && id in s.subs && s.subs[id].phase == Replaying
      && s.subs[id].sent == s.subs[id].snapshot && s.firing == Idle
    case Receive(id) =>
      id in s.subs && s.subs[id].phase == Registered && s.subs[id].hand == [] && s.subs[id].queue != []
    case Write(id) => id in s.subs && s.subs[id].phase == Registered && s.subs[id].hand != []
    case Leave(id) => id in s.subs && (s.subs[id].phase == Replaying || s.subs[id].phase == Registered)
    case Delete(id) => id in s.subs && s.subs[id].phase == Leaving && s.firing == Idle
  }

  function Push(sub: Subscriber, entry: nat): Subscriber {
    if |sub.queue| < QUEUE then sub.(queue := sub.queue + [entry], offered := entry + 1)
    else sub.(dropped := sub.dropped + {entry}, offered := entry + 1)
  }

  function Next(s: State, step: Step): State {
    if !Enabled(s, step) then s
    else match step
      case FireBegin => s.(fired := s.fired + 1, firing := Pushing(Members(s)))
      case FirePush(id) =>
        s.(subs := s.subs[id := Push(s.subs[id], s.fired - 1)], firing := Pushing(s.firing.left - {id}))
      case FireRecord => s.(history := Window(s.history, s.fired - 1), firing := Recorded)
      case FireEnd => s.(firing := Idle)
      case Snapshot(id) =>
        s.(subs := s.subs[id := Subscriber(Replaying, s.history, [], [], [], Past(s), false, 0, 0, {})])
      case Replay(id) =>
        var sub := s.subs[id];
        s.(subs := s.subs[id := sub.(sent := sub.sent + [sub.snapshot[|sub.sent|]])])
      case Add(id) =>
        var sub := s.subs[id].(phase := Registered, added := true, addedAt := s.fired, offered := s.fired);
        s.(subs := s.subs[id := sub])
      case Receive(id) =>
        var sub := s.subs[id];
        s.(subs := s.subs[id := sub.(hand := [sub.queue[0]], queue := sub.queue[1..])])
      case Write(id) =>
        var sub := s.subs[id];
        s.(subs := s.subs[id := sub.(sent := sub.sent + sub.hand, hand := [])])
      case Leave(id) =>
        // a subscriber that was never added has nothing to delete
        s.(subs := s.subs[id := s.subs[id].(phase := if s.subs[id].added then Leaving else Gone)])
      case Delete(id) =>
        s.(subs := s.subs[id := s.subs[id].(phase := Gone)])
  }

  function Run(steps: seq<Step>): State {
    if steps == [] then Init() else Next(Run(steps[..|steps| - 1]), steps[|steps| - 1])
  }

  // ---------- what every interleaving keeps ----------

  function Range(a: nat, b: nat): (r: seq<nat>)
    ensures |r| == if a < b then b - a else 0
    ensures forall i :: 0 <= i < |r| ==> r[i] == a + i
  {
    if b <= a then [] else Range(a, b - 1) + [b - 1]
  }

  /** The entries from a to b, less the dropped ones. */
  function Kept(a: nat, b: nat, dropped: set<nat>): seq<nat> {
    if b <= a then [] else Kept(a, b - 1, dropped) + if b - 1 in dropped then [] else [b - 1]
  }

  ghost predicate SubscriberOk(sub: Subscriber, past: nat, fired: nat) {
    && sub.snapAt <= past
    && sub.snapshot == Range(Oldest(sub.snapAt), sub.snapAt)
    && |sub.hand| <= 1 && |sub.queue| <= QUEUE
    && (if sub.added then
          && sub.snapAt <= sub.addedAt <= sub.offered <= fired
          && (forall e :: e in sub.dropped ==> sub.addedAt <= e < sub.offered)
          && sub.Stream() == sub.snapshot + Kept(sub.addedAt, sub.offered, sub.dropped)
          && sub.phase != Replaying
        else
          && sub.sent <= sub.snapshot && sub.hand == [] && sub.queue == [] && sub.dropped == {}
          && (sub.phase == Replaying || sub.phase == Gone))
  }

  /** What a member has been offered: all but the entry that its push is still due for. */
  function OfferedTo(s: State, id: nat): int {
    if s.firing.Pushing? && id in s.firing.left then s.fired - 1 else s.fired
  }

  ghost predicate MembersAreOffered(s: State) {
    && (s.firing.Pushing? ==> forall id :: id in s.firing.left ==> id in s.subs && IsMember(s.subs[id]))
    && (forall id :: id in s.subs && IsMember(s.subs[id]) ==> s.subs[id].offered == OfferedTo(s, id))
  }

  ghost predicate SubscribersAreOk(s: State, past: nat) {
    forall id :: id in s.subs ==> SubscriberOk(s.subs[id], past, s.fired)
  }

  ghost predicate Inv(s: State) {
    && (s.firing.Pushing? ==> s.fired > 0)
    && s.history == Range(Oldest(Past(s)), Past(s))
    && SubscribersAreOk(s, Past(s))
    && MembersAreOffered(s)
  }

  lemma WindowSlides(n: nat)
    ensures Window(Range(Oldest(n), n), n) == Range(Oldest(n + 1), n + 1)
  {
  }

  lemma PushOk(sub: Subscriber, past: nat, fired: nat)
    requires fired > 0 && SubscriberOk(sub, past, fired) && sub.added && sub.offered == fired - 1
    ensures SubscriberOk(Push(sub, fired - 1), past, fired)
  {
    var entry := fired - 1;
    KeptIgnores(sub.addedAt, entry, sub.dropped, entry);
    if |sub.queue| < QUEUE {
      assert entry !in sub.dropped;
      assert sub.sent + sub.hand + (sub.queue + [entry]) == sub.Stream() + [entry];
    }
  }

  lemma {:induction false} KeptIgnores(a: nat, b: nat, dropped: set<nat>, e: nat)
    requires b <= e
    ensures Kept(a, b, dropped + {e}) == Kept(a, b, dropped)
  {
    if a < b {
      KeptIgnores(a, b - 1, dropped, e);
    }
  }

  /** The subscriber that a step of its own goroutine works on. */
  predicate IsOwnStep(step: Step, id: nat) {
    match step
    case Snapshot(i) => i == id
    case Replay(i) => i == id
    case Add(i) => i == id
    case Receive(i) => i == id
    case Write(i) => i == id
    case Leave(i) => i == id
    case Delete(i) => i == id
    case _ => false
  }

  /** A subscriber that starts. */
  lemma SnapshotOk(s: State, id: nat)
    requires Inv(s) && Enabled(s, Snapshot(id))
    ensures SubscriberOk(Next(s, Snapshot(id)).subs[id], Past(s), s.fired)
  {
  }

  lemma AddOk(sub: Subscriber, past: nat, fired: nat)
    requires SubscriberOk(sub, past, fired) && sub.phase == Replaying && sub.sent == sub.snapshot && past <= fired
    ensures SubscriberOk(sub.(phase := Registered, added := true, addedAt := fired, offered := fired), past, fired)
  {
    var sub' := sub.(phase := Registered, added := true, addedAt := fired, offered := fired);
    assert Kept(fired, fired, {}) == [];
    assert sub'.Stream() == sub'.snapshot + [];
  }

  /** A step that moves an entry along leaves the stream as it is. */
  lemma MoveOk(sub: Subscriber, sub': Subscriber, past: nat, fired: nat)
    requires SubscriberOk(sub, past, fired) && sub.added && sub'.Stream() == sub.Stream()
    requires sub' == sub.(sent := sub'.sent, hand := sub'.hand, queue := sub'.queue, phase := sub'.phase)
    requires sub'.phase != Replaying && |sub'.hand| <= 1 && |sub'.queue| <= QUEUE
    ensures SubscriberOk(sub', past, fired)
  {
  }

  lemma ReceiveOk(sub: Subscriber, past: nat, fired: nat)
    requires SubscriberOk(sub, past, fired) && sub.phase == Registered && sub.hand == [] && sub.queue != []
    ensures SubscriberOk(sub.(hand := [sub.queue[0]], queue := sub.queue[1..]), past, fired)
  {
    var sub' := sub.(hand := [sub.queue[0]], queue := sub.queue[1..]);
    assert sub'.Stream() == sub.Stream();
    MoveOk(sub, sub', past, fired);
  }

  lemma WriteOk(sub: Subscriber, past: nat, fired: nat)
    requires SubscriberOk(sub, past, fired) && sub.phase == Registered
    ensures SubscriberOk(sub.(sent := sub.sent + sub.hand, hand := []), past, fired)
  {
    if sub.added {
      var sub' := sub.(sent := sub.sent + sub.hand, hand := []);
      assert sub'.Stream() == sub.Stream();
      MoveOk(sub, sub', past, fired);
    }
  }

  lemma PhaseOk(sub: Subscriber, phase: Phase, past: nat, fired: nat)
    requires SubscriberOk(sub, past, fired) && (if sub.added then phase != Replaying else phase == Gone)
    ensures SubscriberOk(sub.(phase := phase), past, fired)
  {
    assert sub.(phase := phase).Stream() == sub.Stream();
  }

  lemma OwnStepOk(s: State, step: Step, id: nat)
    requires Inv(s) && Enabled(s, step) && IsOwnStep(step, id)
    ensures id in Next(s, step).subs && SubscriberOk(Next(s, step).subs[id], Past(s), s.fired)
  {
    match step
    case Snapshot(_) => SnapshotOk(s, id);
    case Replay(_) => ReplayOk(s.subs[id], Next(s, step).subs[id], Past(s), s.fired);
    case Add(_) => AddOk(s.subs[id], Past(s), s.fired);
    case Receive(_) => ReceiveOk(s.subs[id], Past(s), s.fired);
    case Write(_) => WriteOk(s.subs[id], Past(s), s.fired);
    case Leave(_) => PhaseOk(s.subs[id], if s.subs[id].added then Leaving else Gone, Past(s), s.fired);
    case Delete(_) => PhaseOk(s.subs[id], Gone, Past(s), s.fired);
  }

  /**
   A goroutine's own step changes nothing but its subscriber, and a member's standing only by adding or
   deleting it.
   */
  lemma OwnStepFrame(s: State, step: Step, id: nat)
    requires Inv(s) && Enabled(s, step) && IsOwnStep(step, id)
    ensures var s' := Next(s, step);
      && id in s'.subs && s' == s.(subs := s.subs[id := s'.subs[id]])
      && (s.firing.Pushing? && id in s.firing.left ==> IsMember(s'.subs[id]))
      && (IsMember(s'.subs[id]) ==> s'.subs[id].offered == OfferedTo(s, id))
  {
  }

  lemma ReplacedIsOk(s: State, s': State, id: nat, past: nat)
    requires SubscribersAreOk(s, past) && s'.fired == s.fired
    requires id in s'.subs && SubscriberOk(s'.subs[id], past, s.fired) && s'.subs == s.subs[id := s'.subs[id]]
    ensures SubscribersAreOk(s', past)
  {
    forall i | i in s'.subs && i != id ensures SubscriberOk(s'.subs[i], past, s'.fired) {
      assert s'.subs[i] == s.subs[i];
    }
  }

  /** A subscriber may be replaced by one in order. */
  lemma ReplacedInv(s: State, id: nat, sub: Subscriber)
    requires Inv(s) && SubscriberOk(sub, Past(s), s.fired)
    requires s.firing.Pushing? && id in s.firing.left ==> IsMember(sub)
    requires IsMember(sub) ==> sub.offered == OfferedTo(s, id)
    ensures Inv(s.(subs := s.subs[id := sub]))
  {
    ReplacedIsOk(s, s.(subs := s.subs[id := sub]), id, Past(s));
  }

  lemma ReplayOk(sub: Subscriber, sub': Subscriber, past: nat, fired: nat)
    requires SubscriberOk(sub, past, fired) && sub.phase == Replaying && |sub.sent| < |sub.snapshot|
    requires sub' == sub.(sent := sub.sent + [sub.snapshot[|sub.sent|]])
    ensures SubscriberOk(sub', past, fired)
  {
  }

  lemma OwnStepInv(s: State, step: Step, id: nat)
    requires Inv(s) && Enabled(s, step) && IsOwnStep(step, id)
    ensures Inv(Next(s, step))
  {
    OwnStepOk(s, step, id);
    OwnStepFrame(s, step, id);
    ReplacedInv(s, id, Next(s, step).subs[id]);
  }

  lemma PushOffers(s: State, id: nat)
    requires MembersAreOffered(s) && Enabled(s, FirePush(id))
    ensures MembersAreOffered(Next(s, FirePush(id)))
  {
  }

  lemma PushedIsOk(s: State, id: nat)
    requires Inv(s) && Enabled(s, FirePush(id))
    ensures SubscriberOk(Push(s.subs[id], s.fired - 1), Past(s), s.fired)
  {
    assert IsMember(s.subs[id]) && OfferedTo(s, id) == s.fired - 1;
    PushOk(s.subs[id], Past(s), s.fired);
  }

  lemma PushFrame(s: State, id: nat)
    requires Enabled(s, FirePush(id))
    ensures var s' := Next(s, FirePush(id));
      && s'.fired == s.fired && s'.history == s.history && s'.firing.Pushing? && Past(s') == Past(s)
      && s'.subs == s.subs[id := Push(s.subs[id], s.fired - 1)]
  {
  }

  lemma FirePushInv(s: State, id: nat)
    requires Inv(s) && Enabled(s, FirePush(id))
    ensures Inv(Next(s, FirePush(id)))
  {
    var s' := Next(s, FirePush(id));
    PushFrame(s, id);
    PushedIsOk(s, id);
    PushOffers(s, id);
    ReplacedIsOk(s, s', id, Past(s));
  }

  lemma OkGrows(sub: Subscriber, past: nat, fired: nat, past': nat, fired': nat)
    requires SubscriberOk(sub, past, fired) && past <= past' && fired <= fired'
    ensures SubscriberOk(sub, past', fired')
  {
  }

  lemma FireInv(s: State, step: Step)
    requires Inv(s) && Enabled(s, step) && (step.FireBegin? || step.FireRecord? || step.FireEnd?)
    ensures Inv(Next(s, step))
  {
    var s' := Next(s, step);
    if step.FireRecord? { WindowSlides(s.fired - 1); }
    forall i | i in s'.subs ensures SubscriberOk(s'.subs[i], Past(s'), s'.fired) {
      OkGrows(s.subs[i], Past(s), s.fired, Past(s'), s'.fired);
    }
  }

  lemma InvStep(s: State, step: Step)
    requires Inv(s)
    ensures Inv(Next(s, step))
  {
    if Enabled(s, step) {
      match step
      case FireBegin => FireInv(s, step);
      case FirePush(id) => FirePushInv(s, id);
      case FireRecord => FireInv(s, step);
      case FireEnd => FireInv(s, step);
      case Snapshot(id) => OwnStepInv(s, step, id);
      case Replay(id) => OwnStepInv(s, step, id);
      case Add(id) => OwnStepInv(s, step, id);
      case Receive(id) => OwnStepInv(s, step, id);
      case Write(id) => OwnStepInv(s, step, id);
      case Leave(id) => OwnStepInv(s, step, id);
      case Delete(id) => OwnStepInv(s, step, id);
    }
  }

  lemma {:induction false} InvAlways(steps: seq<Step>)
    ensures Inv(Run(steps))
  {
    if steps != [] {
      InvAlways(steps[..|steps| - 1]);
      InvStep(Run(steps[..|steps| - 1]), steps[|steps| - 1]);
    }
  }

  // ---------- what one subscriber is sent ----------

  ghost predicate StrictlyIncreasing(a: seq<nat>) {
    forall i, j :: 0 <= i < j < |a| ==> a[i] < a[j]
  }

  lemma {:induction false} KeptElements(a: nat, b: nat, dropped: set<nat>)
    ensures StrictlyIncreasing(Kept(a, b, dropped))
    ensures forall i :: 0 <= i < |Kept(a, b, dropped)| ==> a <= Kept(a, b, dropped)[i] < b
  {
    if a < b {
      KeptElements(a, b - 1, dropped);
    }
  }

  lemma {:induction false} KeptMembers(a: nat, b: nat, dropped: set<nat>, e: nat)
    ensures e in Kept(a, b, dropped) <==> a <= e < b && e !in dropped
  {
    if a < b {
      KeptMembers(a, b - 1, dropped, e);
    }
  }

  lemma {:induction false} KeptAll(a: nat, b: nat)
    ensures Kept(a, b, {}) == Range(a, b)
  {
    if a < b {
      KeptAll(a, b - 1);
    }
  }

  lemma RangesMeet(lo: nat, a: nat, b: nat, hi: nat)
    requires lo <= a <= b <= hi
    ensures Range(lo, a) + Range(b, hi) == Range(lo, hi) <==> a == b
    ensures forall e: nat :: e in Range(lo, a) + Range(b, hi) <==> lo <= e < a || b <= e < hi
  {
    var both := Range(lo, a) + Range(b, hi);
    forall e: nat | lo <= e < a || b <= e < hi ensures e in both {
      if e < a {
        assert both[e - lo] == e;
      } else {
        assert both[a - lo + (e - b)] == e;
      }
    }
    assert |both| == a - lo + (hi - b);
  }

  /**
   In every interleaving, what a subscriber has been sent or is about to be sent is the history
   of its snapshot followed by what it has been offered since it was added, less what its full
   queue refused. So it is strictly increasing: no entry twice, none out of order, also where
   the replay meets the live entries.
   */
  lemma DeliveredInOrder(steps: seq<Step>, id: nat)
    requires id in Run(steps).subs
    ensures var s := Run(steps); var sub := s.subs[id];
      && sub.snapshot == Range(Oldest(sub.snapAt), sub.snapAt)
      && (if sub.added then sub.Stream() == sub.snapshot + Kept(sub.addedAt, sub.offered, sub.dropped)
          else sub.Stream() <= sub.snapshot)
      && StrictlyIncreasing(sub.Stream())
      && (forall i :: 0 <= i < |sub.Stream()| ==> sub.Stream()[i] < s.fired)
      && (id in Members(s) && s.firing == Idle ==> sub.offered == s.fired)
  {
    InvAlways(steps);
    var sub := Run(steps).subs[id];
    KeptElements(sub.addedAt, sub.offered, sub.dropped);
    if !sub.added {
      assert sub.Stream() == sub.sent;
    }
  }

  /** The 16 slots never were all taken when an entry came for the subscriber. */
  ghost predicate NeverFull(steps: seq<Step>, id: nat) {
    steps != [] ==>
      var before, step := steps[..|steps| - 1], steps[|steps| - 1];
      && NeverFull(before, id)
      && (step == FirePush(id) && Enabled(Run(before), step) ==> |Run(before).subs[id].queue| < 16)
  }

  lemma {:induction false} NothingDropped(steps: seq<Step>, id: nat)
    requires NeverFull(steps, id)
    ensures id in Run(steps).subs ==> Run(steps).subs[id].dropped == {}
  {
    if steps != [] {
      NothingDropped(steps[..|steps| - 1], id);
    }
  }

  /** A subscriber that keeps up is sent its snapshot and then every single entry fired since it was added. */
  lemma NothingLostWhileKeepingUp(steps: seq<Step>, id: nat)
    requires id in Run(steps).subs && NeverFull(steps, id) && Run(steps).subs[id].added
    ensures var s := Run(steps); var sub := s.subs[id];
      && sub.Stream() == sub.snapshot + Range(sub.addedAt, sub.offered)
      && (id in Members(s) && s.firing == Idle ==> sub.offered == s.fired)
  {
    InvAlways(steps);
    NothingDropped(steps, id);
    KeptAll(Run(steps).subs[id].addedAt, Run(steps).subs[id].offered);
  }

  /**
   The seam between replay and live entries: the entries fired after the snapshot and before
   the subscriber was added are never sent to it, and of the later ones only those its full
   queue refused are missing.
   */
  lemma MissedExactly(steps: seq<Step>, id: nat, e: nat)
    requires id in Run(steps).subs && Run(steps).subs[id].added
    ensures var sub := Run(steps).subs[id];
      e in sub.Stream() <==>
        Oldest(sub.snapAt) <= e < sub.snapAt || (sub.addedAt <= e < sub.offered && e !in sub.dropped)
  {
    InvAlways(steps);
    var sub := Run(steps).subs[id];
    RangesMeet(Oldest(sub.snapAt), sub.snapAt, sub.snapAt, sub.snapAt);
    assert Range(Oldest(sub.snapAt), sub.snapAt) + Range(sub.snapAt, sub.snapAt) == sub.snapshot;
    KeptMembers(sub.addedAt, sub.offered, sub.dropped, e);
  }

  /**
   The view of a subscriber that keeps up is without a gap exactly if nothing was fired between its
   snapshot and its add.
   */
  lemma SeamIsGaplessExactly(steps: seq<Step>, id: nat)
    requires id in Run(steps).subs && NeverFull(steps, id) && Run(steps).subs[id].added
    ensures var sub := Run(steps).subs[id];
            sub.Stream() == Range(Oldest(sub.snapAt), sub.offered) <==> sub.snapAt == sub.addedAt
  {
    InvAlways(steps);
    NothingLostWhileKeepingUp(steps, id);
    var sub := Run(steps).subs[id];
    RangesMeet(Oldest(sub.snapAt), sub.snapAt, sub.addedAt, sub.offered);
  }

  lemma {:induction false} NoPushNeverFull(steps: seq<Step>, id: nat)
    requires forall i :: 0 <= i < |steps| ==> !steps[i].FirePush?
    ensures NeverFull(steps, id)
  {
    if steps != [] {
      NoPushNeverFull(steps[..|steps| - 1], id);
    }
  }

  /** A snapshot is taken, and then an entry is fired. */
  lemma FiredAfterSnapshot() returns (steps: seq<Step>)
    ensures steps == [Snapshot(0), FireBegin, FireRecord, FireEnd]
    ensures Run(steps) == State(1, Idle, [0], map[0 := Subscriber(Replaying, [], [], [], [], 0, false, 0, 0, {})])
  {
    var none: Subscriber := Subscriber(Replaying, [], [], [], [], 0, false, 0, 0, {});
    var s1, s2, s3 := [Snapshot(0)], [Snapshot(0), FireBegin], [Snapshot(0), FireBegin, FireRecord];
    steps := [Snapshot(0), FireBegin, FireRecord, FireEnd];
    assert s1[..0] == [] && s2[..1] == s1 && s3[..2] == s2 && steps[..3] == s3;
    assert Run(s1) == State(0, Idle, [], map[0 := none]);
    assert Members(Run(s1)) == {};
    assert Run(s2) == State(1, Pushing({}), [], map[0 := none]);
    assert Run(s3) == State(1, Recorded, [0], map[0 := none]);
  }

  /** Entries do fall into the seam: here the first entry ever is fired between snapshot and add, and is lost. */
  lemma SeamCanLoseAnEntry() returns (steps: seq<Step>)
    ensures steps == [Snapshot(0), FireBegin, FireRecord, FireEnd, Add(0)] && NeverFull(steps, 0)
    ensures var s := Run(steps);
      s.fired == 1 && s.firing == Idle && 0 in Members(s) && s.subs[0].Stream() == []
  {
    var before := FiredAfterSnapshot();
    steps := before + [Add(0)];
    assert steps[..|steps| - 1] == before;
    NoPushNeverFull(steps, 0);
  }

  lemma SentGrowsStep(s: State, step: Step, id: nat)
    requires id in s.subs
    ensures id in Next(s, step).subs && s.subs[id].sent <= Next(s, step).subs[id].sent
  {
  }

  /** Whatever happens later only adds to what a subscriber has been sent. */
  lemma {:induction false} SentOnlyGrows(first: seq<Step>, steps: seq<Step>, id: nat)
    requires first <= steps && id in Run(first).subs
    ensures id in Run(steps).subs && Run(first).subs[id].sent <= Run(steps).subs[id].sent
  {
    if |first| == |steps| {
      assert first == steps;
    } else {
      var before := steps[..|steps| - 1];
      SentOnlyGrows(first, before, id);
      SentGrowsStep(Run(before), steps[|steps| - 1], id);
    }
  }

  // ---------- who is in the table ----------

  /** Being added puts exactly the one subscriber into the table, at a moment when no Fire ranges over it. */
  lemma AddJoins(s: State, id: nat)
    requires Enabled(s, Add(id))
    ensures s.firing == Idle && Members(Next(s, Add(id))) == Members(s) + {id}
  {
    var s' := Next(s, Add(id));
    forall i ensures i in Members(s') <==> i in Members(s) + {id} {
      assert i != id ==> (i in s'.subs <==> i in s.subs);
    }
  }

  /** Being deleted takes exactly the one subscriber out, again while no Fire ranges over the table. */
  lemma DeleteLeaves(s: State, id: nat)
    requires Enabled(s, Delete(id))
    ensures s.firing == Idle && Members(Next(s, Delete(id))) == Members(s) - {id}
  {
    var s' := Next(s, Delete(id));
    forall i ensures i in Members(s') <==> i in Members(s) - {id} {
      assert i != id ==> (i in s'.subs <==> i in s.subs);
    }
  }

  /** A subscriber that is in the table can leave it: it is then waiting to be deleted. */
  lemma LeavingWaits(s: State, id: nat)
    requires id in Members(s) && s.subs[id].phase == Registered
    ensures Enabled(s, Leave(id)) && Next(s, Leave(id)).subs[id].phase == Leaving
    ensures s.firing == Idle ==> Enabled(Next(s, Leave(id)), Delete(id))
  {
  }

  lemma GoneStays(s: State, step: Step, id: nat)
    requires id in s.subs && s.subs[id].phase == Gone
    ensures id in Next(s, step).subs && Next(s, step).subs[id].phase == Gone
  {
  }

  /** Once deleted, a subscriber never is in the table again. */
  lemma {:induction false} DeletedForGood(first: seq<Step>, steps: seq<Step>, id: nat)
    requires |first| < |steps| && first + [Delete(id)] <= steps && Enabled(Run(first), Delete(id))
    ensures id in Run(steps).subs && Run(steps).subs[id].phase == Gone && id !in Members(Run(steps))
  {
    var n := |steps| - 1;
    if |first| == n {
      assert steps == first + [Delete(id)] && steps[..n] == first;
    } else {
      DeletedForGood(first, steps[..n], id);
      GoneStays(Run(steps[..n]), steps[n], id);
    }
  }

  // ---------- what is queued is sent ----------

  /** Left to itself, a replay comes to the end of its snapshot. */
  lemma {:induction false} ReplayCompletes(steps: seq<Step>, id: nat) returns (all: seq<Step>)
    requires id in Run(steps).subs && Run(steps).subs[id].phase == Replaying
    ensures steps <= all && forall i :: |steps| <= i < |all| ==> all[i] == Replay(id)
    ensures id in Run(all).subs && Run(all).subs[id].phase == Replaying
    ensures Run(all).subs[id].sent == Run(steps).subs[id].snapshot
    decreases |Run(steps).subs[id].snapshot| - |Run(steps).subs[id].sent|
  {
    InvAlways(steps);
    var sub := Run(steps).subs[id];
    assert SubscriberOk(sub, Past(Run(steps)), Run(steps).fired);
    if |sub.sent| == |sub.snapshot| {
      all := steps;
    } else {
      var next := steps + [Replay(id)];
      assert next[..|steps|] == steps;
      all := ReplayCompletes(next, id);
    }
  }

  /** One message received and written. */
  lemma MessageIsSent(s: State, id: nat) returns (s': State)
    requires id in s.subs && s.subs[id].phase == Registered && s.subs[id].hand == [] && s.subs[id].queue != []
    ensures s' == Next(Next(s, Receive(id)), Write(id)) && id in s'.subs
    ensures s'.subs[id] == s.subs[id].(sent := s.subs[id].sent + [s.subs[id].queue[0]], queue := s.subs[id].queue[1..])
  {
    s' := Next(Next(s, Receive(id)), Write(id));
  }

  /** Left to itself, a registered subscriber is sent all that is on its way to it. */
  lemma {:induction false} QueueDrains(steps: seq<Step>, id: nat) returns (all: seq<Step>)
    requires id in Run(steps).subs && Run(steps).subs[id].phase == Registered && Run(steps).subs[id].hand == []
    ensures steps <= all && forall i :: |steps| <= i < |all| ==> all[i] == Receive(id) || all[i] == Write(id)
    ensures id in Run(all).subs && Run(all).subs[id].sent == Run(steps).subs[id].Stream()
    decreases |Run(steps).subs[id].queue|
  {
    var sub := Run(steps).subs[id];
    if sub.queue == [] {
      all := steps;
      assert sub.Stream() == sub.sent;
    } else {
      var s' := MessageIsSent(Run(steps), id);
      var next := steps + [Receive(id)] + [Write(id)];
      assert next[..|steps| + 1] == steps + [Receive(id)] && (steps + [Receive(id)])[..|steps|] == steps;
      assert Run(next) == s';
      assert s'.subs[id].Stream() == sub.Stream();
      all := QueueDrains(next, id);
    }
  }

  /** Also if it holds a message already. */
  lemma EverythingOfferedIsSent(steps: seq<Step>, id: nat) returns (all: seq<Step>)
    requires id in Run(steps).subs && Run(steps).subs[id].phase == Registered
    ensures steps <= all && forall i :: |steps| <= i < |all| ==> all[i] == Receive(id) || all[i] == Write(id)
    ensures id in Run(all).subs && Run(all).subs[id].sent == Run(steps).subs[id].Stream()
  {
    var sub := Run(steps).subs[id];
    var next := steps;
    if sub.hand != [] {
      next := steps + [Write(id)];
      assert next[..|steps|] == steps;
    }
    assert Run(next).subs[id].Stream() == sub.Stream();
    all := QueueDrains(next, id);
  }

  // ---------- a Fire under way comes to its end ----------

  predicate IsFireStep(step: Step) {
    step.FirePush? || step.FireRecord? || step.FireEnd?
  }

  /** How many steps of its own the Fire under way has left. */
  function Remaining(s: State): nat {
    match s.firing
    case Idle => 0
    case Pushing(left) => |left| + 2
    case Recorded => 1
  }

  /**
   No subscriber can hold up a Fire: in every reachable state with one under way, one of its own steps
   is possible.
   */
  lemma FireIsNeverStuck(steps: seq<Step>) returns (step: Step)
    requires Run(steps).firing != Idle
    ensures IsFireStep(step) && Enabled(Run(steps), step)
  {
    InvAlways(steps);
    var s := Run(steps);
    match s.firing
    case Recorded => step := FireEnd;
    case Pushing(left) =>
      if left == {} {
        step := FireRecord;
      } else {
        var id :| id in left;
        step := FirePush(id);
      }
  }

  lemma FireStepsCountDown(s: State, step: Step)
    requires s.firing != Idle
    ensures Remaining(Next(s, step)) == if Enabled(s, step) && IsFireStep(step) then Remaining(s) - 1 else Remaining(s)
  {
  }

  /** The steps that the Fire under way takes after the first n of the run. */
  function FireStepsFrom(steps: seq<Step>, n: nat): nat {
    if |steps| <= n then 0
    else
      var before, step := steps[..|steps| - 1], steps[|steps| - 1];
      FireStepsFrom(before, n) + if IsFireStep(step) && Enabled(Run(before), step) then 1 else 0
  }

  /** From its nth step on, the run does not leave the Fire under way. */
  ghost predicate FireLasts(steps: seq<Step>, n: nat) {
    forall i :: n <= i < |steps| ==> Run(steps[..i]).firing != Idle
  }

  lemma FireLasted(steps: seq<Step>, n: nat, before: seq<Step>)
    requires FireLasts(steps, n) && n < |steps| && before == steps[..|steps| - 1]
    ensures FireLasts(before, n) && Run(before).firing != Idle
  {
    forall i | n <= i < |before| ensures Run(before[..i]).firing != Idle {
      assert before[..i] == steps[..i];
    }
  }

  lemma FireTakesAStep(steps: seq<Step>, n: nat, before: seq<Step>)
    requires n < |steps| && before == steps[..|steps| - 1] && Run(before).firing != Idle
    ensures FireStepsFrom(steps, n) + Remaining(Run(steps)) == FireStepsFrom(before, n) + Remaining(Run(before))
  {
    FireStepsCountDown(Run(before), steps[|steps| - 1]);
  }

  /**
   Whatever the subscribers do in between, a Fire takes the steps that it has left and no others: in no
   interleaving does it wait for one of them or do a push twice.
   */
  lemma {:induction false} FireTakesItsSteps(first: seq<Step>, steps: seq<Step>)
    requires first <= steps && FireLasts(steps, |first|)
    ensures FireStepsFrom(steps, |first|) + Remaining(Run(steps)) == Remaining(Run(first))
  {
    if |first| == |steps| {
      assert first == steps;
    } else {
      var before := steps[..|steps| - 1];
      FireLasted(steps, |first|, before);
      FireTakesItsSteps(first, before);
      FireTakesAStep(steps, |first|, before);
    }
  }

  lemma FireStepKeepsPlace(s: State, step: Step, id: nat)
    requires Enabled(s, step) && IsFireStep(step) && id in s.subs
    ensures id in Next(s, step).subs && SamePlace(Next(s, step).subs[id], s.subs[id])
  {
  }

  /** The subscriber's own goroutine is where it was. */
  predicate SamePlace(sub: Subscriber, was: Subscriber) {
    sub.phase == was.phase && sub.snapshot == was.snapshot && sub.sent == was.sent
  }

  /** After the first n steps of the run there is nothing but steps of the Fire under way. */
  predicate OnlyFireSteps(steps: seq<Step>, n: nat)
    requires n <= |steps|
    decreases |steps| - n
  {
    n < |steps| ==> IsFireStep(steps[n]) && Enabled(Run(steps[..n]), steps[n]) && OnlyFireSteps(steps, n + 1)
  }

  lemma {:induction false} FireFinishes(steps: seq<Step>, id: nat) returns (all: seq<Step>)
    requires id in Run(steps).subs
    ensures steps <= all && |all| == |steps| + Remaining(Run(steps)) && OnlyFireSteps(all, |steps|)
    ensures Run(all).firing == Idle && id in Run(all).subs && SamePlace(Run(all).subs[id], Run(steps).subs[id])
    decreases Remaining(Run(steps))
  {
    if Run(steps).firing == Idle {
      all := steps;
    } else {
      var step, next := FireAdvances(steps, id);
      all := FireFinishes(next, id);
      assert all[..|steps|] == steps && all[|steps|] == step;
    }
  }

  lemma FireAdvances(steps: seq<Step>, id: nat) returns (step: Step, next: seq<Step>)
    requires id in Run(steps).subs && Run(steps).firing != Idle
    ensures next == steps + [step] && IsFireStep(step) && Enabled(Run(steps), step)
    ensures Remaining(Run(next)) == Remaining(Run(steps)) - 1
    ensures id in Run(next).subs && SamePlace(Run(next).subs[id], Run(steps).subs[id])
  {
    step := FireIsNeverStuck(steps);
    next := steps + [step];
    assert next[..|steps|] == steps;
    FireStepsCountDown(Run(steps), step);
    FireStepKeepsPlace(Run(steps), step, id);
  }

  /**
   So whoever waits for the subscriber lock gets it: from every reachable state the steps that the Fire
   under way has left, and nothing else, lead to one in which a subscriber that waits to be added or
   deleted can be.
   */
  lemma WaitingIsOver(steps: seq<Step>, id: nat) returns (all: seq<Step>)
    requires id in Run(steps).subs
    ensures steps <= all && |all| == |steps| + Remaining(Run(steps)) && OnlyFireSteps(all, |steps|)
    ensures var sub := Run(steps).subs[id];
      && (sub.phase == Leaving ==> Enabled(Run(all), Delete(id)))
      && (sub.phase == Replaying && sub.sent == sub.snapshot ==> Enabled(Run(all), Add(id)))
  {
    all := FireFinishes(steps, id);
  }
}
