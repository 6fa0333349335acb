/**
 The log server of internal/websockets/main.go as an object: `Fire` pushes an entry to every
 subscriber and appends it to a history slice that `subscribe` hands out without copying.
 The slice is modelled as Go holds it, a window (offset and length) on a shared array.
 */
module LogWindow {
  const HISTORY := 50
  const QUEUE := 16

  /** One append to the history, which never holds more than HISTORY entries. */
  function Window<T>(h: seq<T>, x: T): seq<T> {
    if |h| < HISTORY then h + [x] else h[1..] + [x]
  }

  /** The history after these entries have been fired, first to last. */
  function HistoryAfter<T>(fired: seq<T>): seq<T> {
    if fired == [] then [] else Window(HistoryAfter(fired[..|fired| - 1]), fired[|fired| - 1])
  }

  lemma FiringSlides<T>(fired: seq<T>, x: T)
    ensures HistoryAfter(fired + [x]) == Window(HistoryAfter(fired), x)
  {
    assert (fired + [x])[..|fired|] == fired;
  }

  function Oldest(n: nat): nat {
    if n <= HISTORY then 0 else n - HISTORY
  }

  lemma LastFiftyGrow<T>(before: seq<T>, x: T)
    ensures Window(before[Oldest(|before|)..], x) == (before + [x])[Oldest(|before| + 1)..]
  {
  }

  /** For every number of entries the history is exactly the last 50, or all of them, in firing order. */
  lemma {:induction false} HistoryIsTheLastFifty<T>(fired: seq<T>)
    ensures HistoryAfter(fired) == fired[Oldest(|fired|)..]
    ensures HistoryAfter(fired) == if |fired| <= 50 then fired else fired[|fired| - 50..]
  {
    if fired != [] {
      var before := fired[..|fired| - 1];
      HistoryIsTheLastFifty(before);
      LastFiftyGrow(before, fired[|before|]);
      assert fired == before + [fired[|before|]];
    }
  }
}

module LogStore {
  import opened LogWindow

  /** A Go slice value: `len` entries of `base` from `off`, with the rest of `base` as spare capacity. */
  datatype Slice = Slice(base: array<string>, off: nat, len: nat) {
    ghost predicate Shows(seen: seq<string>)
      reads base
    {
      && off + len <= base.Length
      && base[off..off + len] == seen
    }
  }

  /** A subscriber's channel of QUEUE slots, and whether it has been told to close for being slow. */
  class Subscriber {
    var msgs: seq<string>
    var kicked: bool

    constructor ()
      ensures msgs == [] && !kicked
    {
      msgs, kicked := [], false;
    }
  }

  class LogServer {
    var subscribers: set<Subscriber>

    // The slice `history`.
    var base: array<string>
    var off: nat
    var len: nat

    /** Every entry fired so far. */
    ghost var fired: seq<string>

    /** Every slice handed out so far, and what it showed at the time. */
    ghost var slices: seq<Slice>
    ghost var shown: seq<seq<string>>

    /**
     Every slice handed out still shows what it showed then, and no later write can reach it:
     appends to this array land at or after off + len.
     */
    ghost predicate SlicesIntact()
      reads `base, `off, `len, `slices, `shown, base, set i | 0 <= i < |slices| :: slices[i].base
    {
      && |slices| == |shown|
      && (forall i :: 0 <= i < |slices| ==> slices[i].Shows(shown[i]))
      && (forall i :: 0 <= i < |slices| && slices[i].base == base ==> slices[i].off + slices[i].len <= off + len)
    }

    ghost predicate Valid()
      reads this, base, set i | 0 <= i < |slices| :: slices[i].base
    {
      && off + len <= base.Length
      && base[off..off + len] == HistoryAfter(fired)
      && SlicesIntact()
    }

    constructor ()
      ensures Valid() && fired == [] && slices == [] && subscribers == {} && fresh(base)
    {
      subscribers := {};
      base := new string[0];
      off, len := 0, 0;
      fired, slices, shown := [], [], [];
    }

    /**
     One log entry, already formatted. `spare` is the capacity beyond need that the runtime
     allocates should the append have to move to a new array.
     */
    method Fire(json: string, spare: nat)
      requires Valid()
      modifies this, base, subscribers
      ensures Valid() && (base == old(base) || fresh(base))
      ensures fired == old(fired) + [json]
      ensures slices == old(slices) && shown == old(shown) && subscribers == old(subscribers)
      ensures forall s :: s in subscribers ==>
        if |old(s.msgs)| < 16 then s.msgs == old(s.msgs) + [json] && s.kicked == old(s.kicked)
        else s.msgs == old(s.msgs) && s.kicked
    {
      Push(json);
      Remember(json, spare);
    }

    /** The loop over the subscribers; Go visits them in any order. */
    method Push(json: string)
      modifies subscribers
      ensures forall s :: s in subscribers ==>
        if |old(s.msgs)| < 16 then s.msgs == old(s.msgs) + [json] && s.kicked == old(s.kicked)
        else s.msgs == old(s.msgs) && s.kicked
    {
      var left := subscribers;
      while left != {}
        invariant left <= subscribers
        invariant forall s :: s in left ==> s.msgs == old(s.msgs) && s.kicked == old(s.kicked)
        invariant forall s :: s in subscribers && s !in left ==>
          if |old(s.msgs)| < 16 then s.msgs == old(s.msgs) + [json] && s.kicked == old(s.kicked)
          else s.msgs == old(s.msgs) && s.kicked
        decreases |left|
      {
        var s :| s in left;
        left := left - {s};
        if |s.msgs| < QUEUE {
          s.msgs := s.msgs + [json];
        } else {
          s.kicked := true;
        }
      }
    }

    /** The section under `historyMu`. */
    method Remember(json: string, spare: nat)
      requires Valid()
      modifies this`base, this`off, this`len, this`fired, base
      ensures Valid() && (base == old(base) || fresh(base))
      ensures fired == old(fired) + [json]
    {
      Slide(json, spare);
      Record(json);
    }

    /** The slice being the next window, the entry counts as fired. */
    ghost method Record(json: string)
      requires off + len <= base.Length && SlicesIntact()
      requires base[off..off + len] == Window(HistoryAfter(fired), json)
      modifies this`fired
      ensures Valid() && fired == old(fired) + [json]
    {
      FiringSlides(fired, json);
      assert base[off..off + len] == HistoryAfter(fired + [json]);
      fired := fired + [json];
    }

    method Slide(json: string, spare: nat)
      requires off + len <= base.Length && SlicesIntact()
      modifies this`base, this`off, this`len, base
      ensures off + len <= base.Length && SlicesIntact()
      ensures base[off..off + len] == Window(old(base[off..off + len]), json)
      ensures base == old(base) || fresh(base)
    {
      if len >= HISTORY {
        DropOldest();
      }
      Append(json, spare);
    }

    /** `history[1:]`: the slice moves on, its first entry stays in the array behind it. */
    method DropOldest()
      requires off + len <= base.Length && len > 0 && SlicesIntact()
      modifies this`off, this`len
      ensures off + len <= base.Length && SlicesIntact()
      ensures base[off..off + len] == old(base[off..off + len])[1..]
    {
      off, len := off + 1, len - 1;
    }

    /** Go's `append(history, json)`: in place while the array has room behind the slice, else into a new array. */
    method Append(json: string, spare: nat)
      requires off + len <= base.Length && SlicesIntact()
      modifies this`base, this`off, this`len, base
      ensures off + len <= base.Length && SlicesIntact()
      ensures base[off..off + len] == old(base[off..off + len]) + [json]
      ensures base == old(base) || fresh(base)
    {
      if off + len < base.Length {
        base[off + len] := json;
        forall i | 0 <= i < |slices| ensures slices[i].Shows(shown[i]) {
          assert old(slices[i].Shows(shown[i]));
        }
      } else {
        Grow(json, spare);
      }
      len := len + 1;
    }

    /** The entries and the new one move to an array of their own; every slice keeps the old one. */
    method Grow(json: string, spare: nat)
      requires off + len <= base.Length && SlicesIntact()
      modifies this`base, this`off
      ensures fresh(base) && off + len + 1 <= base.Length && SlicesIntact()
      ensures base[off..off + len + 1] == old(base[off..off + len]) + [json]
    {
      var grown := new string[len + 1 + spare];
      forall i | 0 <= i < len {
        grown[i] := base[off + i];
      }
      grown[len] := json;
      base, off := grown, 0;
    }

    /** `history := ls.history` in subscribe: the slice header is copied, the entries are not. */
    method Snapshot() returns (slice: Slice)
      requires Valid()
      modifies this`slices, this`shown
      ensures Valid()
      ensures slices == old(slices) + [slice] && shown == old(shown) + [HistoryAfter(fired)]
    {
      slice := Slice(base, off, len);
      slices, shown := slices + [slice], shown + [HistoryAfter(fired)];
    }

    /**
     The replay loop's read of entry `i`, however many entries were fired since: it is the
     entry the slice showed when it was taken.
     */
    method Replay(ghost k: nat, slice: Slice, i: nat) returns (msg: string)
      requires Valid() && k < |slices| && slice == slices[k] && i < slice.len
      ensures i < |shown[k]| && msg == shown[k][i]
    {
      assert slice.base[slice.off..slice.off + slice.len][i] == slice.base[slice.off + i];
      msg := slice.base[slice.off + i];
    }

    method AddSubscriber(s: Subscriber)
      requires Valid()
      modifies this`subscribers
      ensures Valid() && subscribers == old(subscribers) + {s}
    {
      subscribers := subscribers + {s};
    }

    method DeleteSubscriber(s: Subscriber)
      requires Valid()
      modifies this`subscribers
      ensures Valid() && subscribers == old(subscribers) - {s}
    {
      subscribers := subscribers - {s};
    }
  }
}
