/**
 The IPv4 arithmetic of internal/netutil/netutil.go, octet by octet as Go's net package does
 it, and its meaning on addresses read as 32-bit numbers.
 */
module Octets {
  type Octet = x: nat | x < 256

  function Pow2(k: nat): (p: nat)
    ensures p > 0
  {
    if k == 0 then 1 else 2 * Pow2(k - 1)
  }

  lemma {:induction false} Pow2Monotone(k: nat, j: nat)
    requires k <= j
    ensures Pow2(k) <= Pow2(j)
  {
    if k < j {
      Pow2Monotone(k, j - 1);
    }
  }

  // ---------- bitwise operations ----------

  function And(x: nat, y: nat): (r: nat)
    ensures r <= x && r <= y
  {
    if x == 0 || y == 0 then 0
    else (if x % 2 == 1 && y % 2 == 1 then 1 else 0) + 2 * And(x / 2, y / 2)
  }

  function Or(x: nat, y: nat): (r: nat)
    ensures r >= x && r >= y && r <= x + y
  {
    if x == 0 then y else if y == 0 then x
    else (if x % 2 == 1 || y % 2 == 1 then 1 else 0) + 2 * Or(x / 2, y / 2)
  }

  /** Go's ^ on a byte. */
  function Not(x: Octet): Octet { 255 - x }

  /** The number shifted right by k bits. */
  function High(x: nat, k: nat): nat {
    if k == 0 then x else High(x / 2, k - 1)
  }

  /** The number with its lowest k bits cleared. */
  function Clear(x: nat, k: nat): (r: nat)
    ensures r <= x
  {
    if k == 0 then x else 2 * Clear(x / 2, k - 1)
  }

  lemma {:induction false} AndIdempotent(x: nat, y: nat)
    ensures And(And(x, y), y) == And(x, y)
  {
    if x != 0 && y != 0 {
      AndIdempotent(x / 2, y / 2);
    }
  }

  /** The lowest bit of a conjunction, and the rest. */
  lemma AndSplits(x: nat, b: nat, h: nat)
    requires b <= 1
    ensures And(x, 2 * h + b) == (if x % 2 == 1 && b == 1 then 1 else 0) + 2 * And(x / 2, h)
  {
    assert (2 * h + b) / 2 == h && (2 * h + b) % 2 == b;
  }

  lemma DisjointHalves(x: nat, y: nat)
    requires Or(x / 2, y / 2) == x / 2 + y / 2 && !(x % 2 == 1 && y % 2 == 1)
    ensures Or(x, y) == x + y
  {
  }

  lemma AndHalves(x: nat, y: nat)
    ensures And(x, y) == 2 * And(x / 2, y / 2) + if x % 2 == 1 && y % 2 == 1 then 1 else 0
  {
  }

  /** x and the complement of y share no bit, so joining them is adding them. */
  lemma {:induction false} OrIsSum(x: nat, y: nat, complement: nat, j: nat)
    requires complement + y == Pow2(j) - 1
    ensures Or(And(x, y), complement) == And(x, y) + complement
  {
    if j > 0 {
      assert complement / 2 + y / 2 == Pow2(j - 1) - 1 && complement % 2 + y % 2 == 1;
      OrIsSum(x / 2, y / 2, complement / 2, j - 1);
      AndHalves(x, y);
      assert And(x, y) / 2 == And(x / 2, y / 2);
      DisjointHalves(And(x, y), complement);
    }
  }

  lemma {:induction false} AndAllOnes(x: nat, j: nat)
    requires x < Pow2(j)
    ensures And(x, Pow2(j) - 1) == x
  {
    if j > 0 {
      var ones := Pow2(j - 1) - 1;
      AndAllOnes(x / 2, j - 1);
      AndSplits(x, 1, ones);
      assert Pow2(j) - 1 == 2 * ones + 1;
    }
  }

  lemma AndEven(x: nat, p: nat, d: nat)
    requires d <= p
    ensures And(x, 2 * p - 2 * d) == 2 * And(x / 2, p - d)
  {
    AndSplits(x, 0, p - d);
    assert 2 * p - 2 * d == 2 * (p - d) + 0;
  }

  lemma AndHighStep(x: nat, j: nat, k: nat)
    requires 0 < k <= j && Pow2(k - 1) <= Pow2(j - 1)
    requires And(x / 2, Pow2(j - 1) - Pow2(k - 1)) == Clear(x / 2, k - 1)
    ensures Pow2(k) <= Pow2(j) && And(x, Pow2(j) - Pow2(k)) == Clear(x, k)
  {
    AndEven(x, Pow2(j - 1), Pow2(k - 1));
  }

  /** A mask of the high j - k of j bits clears the lowest k. */
  lemma {:induction false} AndHigh(x: nat, j: nat, k: nat)
    requires k <= j && x < Pow2(j)
    ensures Pow2(k) <= Pow2(j) && And(x, Pow2(j) - Pow2(k)) == Clear(x, k)
  {
    Pow2Monotone(k, j);
    if k > 0 {
      AndHigh(x / 2, j - 1, k - 1);
      AndHighStep(x, j, k);
    } else {
      AndAllOnes(x, j);
    }
  }

  // ---------- shifting and clearing ----------

  /** Numbers that agree above the lowest k bits are those of one interval of 2^k numbers. */
  lemma {:induction false} HighIsInterval(x: nat, g: nat, k: nat)
    ensures High(x, k) == High(g, k) <==> Clear(g, k) <= x <= Clear(g, k) + Pow2(k) - 1
    ensures High(x, k) == High(g, k) <==> Clear(x, k) == Clear(g, k)
    ensures High(Clear(g, k), k) == High(g, k)
  {
    if k > 0 {
      HighIsInterval(x / 2, g / 2, k - 1);
    }
  }

  lemma Interval(a: nat, g: nat, k: nat, masked: nat, network: nat, broadcast: nat)
    requires masked == Clear(a, k) && network == Clear(g, k) && broadcast == network + Pow2(k) - 1
    ensures masked == network <==> network <= a <= broadcast
    ensures masked == network <==> High(a, k) == High(network, k)
    ensures network <= g <= broadcast
  {
    HighIsInterval(a, g, k);
    HighIsInterval(g, g, k);
  }
}

/**
 Numbers written as digits of w bits each, most significant first. An address is four digits
 of eight bits; nothing below depends on either count.
 */
module Digits {
  import opened Octets

  /** The number shifted left by k bits. */
  function Shl(x: nat, k: nat): nat {
    if k == 0 then x else 2 * Shl(x, k - 1)
  }

  function Value(a: seq<nat>, w: nat): nat {
    if a == [] then 0 else Shl(Value(a[..|a| - 1], w), w) + a[|a| - 1]
  }

  ghost predicate AreDigits(a: seq<nat>, w: nat) {
    forall i :: 0 <= i < |a| ==> a[i] < Pow2(w)
  }

  /** The digits of the number with its lowest `host` bits cleared. */
  function ClearDigits(a: seq<nat>, host: nat, w: nat): (r: seq<nat>)
    ensures |r| == |a|
  {
    if a == [] then []
    else if host >= w then ClearDigits(a[..|a| - 1], host - w, w) + [0]
    else a[..|a| - 1] + [Clear(a[|a| - 1], host)]
  }

  /** The digits of the number with its lowest `host` bits set. */
  function FillDigits(a: seq<nat>, host: nat, w: nat): (r: seq<nat>)
    ensures |r| == |a|
  {
    if a == [] then []
    else if host >= w then FillDigits(a[..|a| - 1], host - w, w) + [Pow2(w) - 1]
    else a[..|a| - 1] + [Clear(a[|a| - 1], host) + Pow2(host) - 1]
  }

  /** `len` digits have `host` bits to set. */
  predicate Fits(len: nat, host: nat, w: nat) {
    host == 0 || (len > 0 && (host >= w ==> Fits(len - 1, host - w, w)))
  }

  lemma {:induction false} ShlInjective(h: nat, x: nat, h': nat, x': nat, k: nat)
    requires x < Pow2(k) && x' < Pow2(k) && Shl(h, k) + x == Shl(h', k) + x'
    ensures h == h' && x == x'
  {
    if k > 0 {
      ShlInjective(h, x / 2, h', x' / 2, k - 1);
    }
  }

  lemma {:induction false} ValueInjective(a: seq<nat>, b: seq<nat>, w: nat)
    requires |a| == |b| && AreDigits(a, w) && AreDigits(b, w) && Value(a, w) == Value(b, w)
    ensures a == b
  {
    if a != [] {
      var n := |a| - 1;
      ShlInjective(Value(a[..n], w), a[n], Value(b[..n], w), b[n], w);
      ValueInjective(a[..n], b[..n], w);
      assert a == a[..n] + [a[n]] && b == b[..n] + [b[n]];
    }
  }

  lemma {:induction false} ClearShl(h: nat, x: nat, host: nat, w: nat)
    requires x < Pow2(w)
    ensures Clear(Shl(h, w) + x, host) ==
            if host >= w then Shl(Clear(h, host - w), w) else Shl(h, w) + Clear(x, host)
  {
    if w > 0 && host > 0 {
      ClearShl(h, x / 2, host - 1, w - 1);
      assert (Shl(h, w) + x) / 2 == Shl(h, w - 1) + x / 2;
    }
  }

  lemma ValueConcat(a: seq<nat>, x: nat, w: nat)
    ensures Value(a + [x], w) == Shl(Value(a, w), w) + x
  {
    assert (a + [x])[..|a|] == a;
  }

  /** Clearing bits of the digits clears them of the number. */
  lemma {:induction false} ClearDigitsValue(a: seq<nat>, host: nat, w: nat)
    requires AreDigits(a, w)
    ensures Value(ClearDigits(a, host, w), w) == Clear(Value(a, w), host)
  {
    if a == [] {
      ClearZero(host);
    } else {
      var n := |a| - 1;
      ClearShl(Value(a[..n], w), a[n], host, w);
      if host >= w {
        ClearDigitsValue(a[..n], host - w, w);
        ValueConcat(ClearDigits(a[..n], host - w, w), 0, w);
      } else {
        ValueConcat(a[..n], Clear(a[n], host), w);
      }
    }
  }

  lemma {:induction false} ClearZero(k: nat)
    ensures Clear(0, k) == 0
  {
    if k > 0 {
      ClearZero(k - 1);
    }
  }

  /** Setting them makes it the last of 2^host numbers from there. */
  lemma {:induction false} FillDigitsValue(a: seq<nat>, host: nat, w: nat)
    requires AreDigits(a, w) && Fits(|a|, host, w)
    ensures Value(FillDigits(a, host, w), w) == Clear(Value(a, w), host) + Pow2(host) - 1
  {
    if a != [] {
      var init, x := a[..|a| - 1], a[|a| - 1];
      assert a == init + [x];
      if host >= w {
        FillDigitsValue(init, host - w, w);
        FillWholeDigit(init, x, host, w);
      } else {
        FillPartOfDigit(init, x, host, w);
      }
    }
  }

  /** The last digit is filled altogether. */
  lemma FillWholeDigit(init: seq<nat>, x: nat, host: nat, w: nat)
    requires x < Pow2(w) && host >= w
    requires Value(FillDigits(init, host - w, w), w) == Clear(Value(init, w), host - w) + Pow2(host - w) - 1
    ensures Value(FillDigits(init + [x], host, w), w) == Clear(Value(init + [x], w), host) + Pow2(host) - 1
  {
    var filled := FillDigits(init, host - w, w);
    assert (init + [x])[..|init|] == init;
    ValueConcat(init, x, w);
    ClearShl(Value(init, w), x, host, w);
    ValueConcat(filled, Pow2(w) - 1, w);
    FillShl(Clear(Value(init, w), host - w), host - w, w, host, Value(filled, w));
  }

  /** The last digit is filled from below, and no other one is touched. */
  lemma FillPartOfDigit(init: seq<nat>, x: nat, host: nat, w: nat)
    requires x < Pow2(w) && host < w
    ensures Value(FillDigits(init + [x], host, w), w) == Clear(Value(init + [x], w), host) + Pow2(host) - 1
  {
    assert (init + [x])[..|init|] == init;
    ValueConcat(init, x, w);
    ClearShl(Value(init, w), x, host, w);
    ValueConcat(init, Clear(x, host) + Pow2(host) - 1, w);
  }

  lemma {:induction false} FillShl(c: nat, k: nat, w: nat, host: nat, f: nat)
    requires host == k + w && f == c + Pow2(k) - 1
    ensures Shl(f, w) + Pow2(w) - 1 == Shl(c, w) + Pow2(host) - 1
  {
    if w > 0 {
      FillShl(c, k, w - 1, host - 1, f);
    }
  }
}

module Ipv4 {
  import opened Wrappers
  import opened Octets
  import opened Digits

  type Bytes = seq<Octet>

  /** The 4-byte form of an address or a mask. */
  type Addr = a: Bytes | |a| == 4 witness [0, 0, 0, 0]

  /** The bits of an octet. */
  function OctetBits(): nat { 8 }

  /** The address as a 32-bit number, most significant octet first. */
  function Num(a: Addr): nat {
    Value(a, OctetBits())
  }

  /** net.IP.Mask with a mask of the same length. */
  function MaskedBytes(a: Bytes, m: Bytes): (r: Bytes)
    requires |a| == |m|
    ensures |r| == |a|
  {
    if a == [] then [] else MaskedBytes(a[..|a| - 1], m[..|a| - 1]) + [And(a[|a| - 1], m[|a| - 1])]
  }

  /** The masked octets with the bits that the mask leaves out all set. */
  function FilledBytes(a: Bytes, m: Bytes): (r: Bytes)
    requires |a| == |m|
    ensures |r| == |a|
  {
    if a == [] then []
    else FilledBytes(a[..|a| - 1], m[..|a| - 1]) + [And(a[|a| - 1], m[|a| - 1]) + Not(m[|a| - 1])]
  }

  function Masked(a: Addr, m: Addr): Addr { MaskedBytes(a, m) }

  /** The broadcast address of a's network under the mask. */
  function Broadcast(a: Addr, m: Addr): Addr { FilledBytes(a, m) }

  lemma {:induction false} MaskedAt(a: Bytes, m: Bytes, i: nat)
    requires |a| == |m| && i < |a|
    ensures MaskedBytes(a, m)[i] == And(a[i], m[i])
  {
    if i < |a| - 1 {
      MaskedAt(a[..|a| - 1], m[..|a| - 1], i);
    }
  }

  /** The masked octet and the complement share no bit: netutil.go's `network[i] | ^mask[i]` is their sum. */
  lemma {:induction false} FilledAt(a: Bytes, m: Bytes, i: nat)
    requires |a| == |m| && i < |a|
    ensures FilledBytes(a, m)[i] == Or(MaskedBytes(a, m)[i], Not(m[i]))
  {
    if i < |a| - 1 {
      FilledAt(a[..|a| - 1], m[..|a| - 1], i);
    } else {
      assert Pow2(8) == 256;
      OrIsSum(a[i], m[i], Not(m[i]), 8);
    }
  }

  /** An octet whose highest `ones` bits are set. */
  function OnesOctet(ones: nat): Octet
    requires ones <= 8
  {
    Pow2Monotone(8 - ones, 8);
    256 - Pow2(8 - ones)
  }

  /** net.CIDRMask over `len` octets: the first n bits set. */
  function CIDRBytes(n: nat, len: nat): (m: Bytes)
    requires n <= 8 * len
    ensures |m| == len
  {
    if len == 0 then []
    else if n >= 8 then [255] + CIDRBytes(n - 8, len - 1)
    else [OnesOctet(n)] + CIDRBytes(0, len - 1)
  }

  function CIDRMask(n: nat): Addr
    requires n <= 32
  {
    CIDRBytes(n, 4)
  }

  /** How many leading bits of a byte are set, and what shifting them out leaves. */
  function LeadingOnes(v: Octet): (r: (nat, Octet))
    decreases v
  {
    if v >= 128 then
      var (n, rest) := LeadingOnes((2 * v) % 256);
      (n + 1, rest)
    else (0, v)
  }

  /** net.IPMask.Size's count of the ones of a contiguous mask; None stands for the -1 of any other. */
  function MaskSize(m: Bytes): Option<nat> {
    if m == [] then Some(0)
    else if m[0] == 255 then
      match MaskSize(m[1..])
      case None => None
      case Some(n) => Some(8 + n)
    else
      var (n, rest) := LeadingOnes(m[0]);
      if rest != 0 || exists i :: 1 <= i < |m| && m[i] != 0 then None else Some(n)
  }

  /** netip.Prefix.Contains on two IPv4 addresses: they agree but for the lowest 32 - n bits. */
  predicate Contains(network: Addr, n: nat, a: Addr)
    requires n <= 32
  {
    High(Num(a), 32 - n) == High(Num(network), 32 - n)
  }

  // ---------- masking clears, filling sets ----------

  lemma {:induction false} MaskSplits(n: nat, len: nat)
    requires len > 0 && n <= 8 * len
    ensures var above := if n <= 8 * (len - 1) then n else 8 * (len - 1);
            CIDRBytes(n, len) == CIDRBytes(above, len - 1) + [OnesOctet(n - above)]
  {
    if len > 1 {
      MaskSplits(if n >= 8 then n - 8 else 0, len - 1);
    }
  }

  lemma OctetMasked(x: Octet, ones: nat)
    requires ones <= 8
    ensures And(x, OnesOctet(ones)) == (if ones == 0 then 0 else Clear(x, 8 - ones))
  {
    EightBits();
    if ones == 0 {
      assert OnesOctet(ones) == 0;
    } else {
      AndHigh(x, 8, 8 - ones);
    }
  }

  lemma NotOnes(ones: nat)
    requires ones <= 8
    ensures Not(OnesOctet(ones)) == Pow2(8 - ones) - 1
  {
  }

  lemma EightBits()
    ensures Pow2(8) == 256
  {
  }

  lemma {:induction false} OctetsFit(len: nat, host: nat, w: nat)
    requires w == 8 && host <= 8 * len
    ensures Fits(len, host, w)
  {
    if host >= w {
      OctetsFit(len - 1, host - w, w);
    }
  }

  lemma OctetsAreDigits(a: Bytes)
    ensures AreDigits(a, OctetBits())
  {
    assert Pow2(8) == 256;
  }

  lemma BytesConcat(a: Bytes, x: Octet, m: Bytes, y: Octet)
    requires |a| == |m|
    ensures MaskedBytes(a + [x], m + [y]) == MaskedBytes(a, m) + [And(x, y)]
    ensures FilledBytes(a + [x], m + [y]) == FilledBytes(a, m) + [And(x, y) + Not(y)]
  {
    assert (a + [x])[..|a|] == a && (m + [y])[..|a|] == m;
  }

  lemma DigitsConcat(a: Bytes, x: Octet, host: nat, w: nat)
    ensures ClearDigits(a + [x], host, w) ==
            if host >= w then ClearDigits(a, host - w, w) + [0] else a + [Clear(x, host)]
    ensures FillDigits(a + [x], host, w) ==
            if host >= w then FillDigits(a, host - w, w) + [Pow2(w) - 1] else a + [Clear(x, host) + Pow2(host) - 1]
  {
    assert (a + [x])[..|a|] == a;
  }

  /** One octet more: `o` is masked to its highest `ones` bits, `f` has the others set. */
  lemma DigitsNext(a: Bytes, x: Octet, masked: Bytes, filled: Bytes, ones: nat, host: nat, w: nat, o: Octet, f: Octet)
    requires w == 8 && ones <= 8 && ones == if host >= w then 0 else 8 - host
    requires var above := if host >= w then host - w else 0;
             masked == ClearDigits(a, above, w) && filled == FillDigits(a, above, w)
    requires o == (if ones == 0 then 0 else Clear(x, 8 - ones)) && f == o + Pow2(8 - ones) - 1
    ensures masked + [o] == ClearDigits(a + [x], host, w)
    ensures filled + [f] == FillDigits(a + [x], host, w)
  {
    DigitsConcat(a, x, host, w);
    NoBitsBelow(a, w);
  }

  lemma BytesNext(a: Bytes, x: Octet, m: Bytes, y: Octet, o: Octet, f: Octet)
    requires |a| == |m| && o == And(x, y) && f == o + Not(y)
    ensures MaskedBytes(a + [x], m + [y]) == MaskedBytes(a, m) + [o]
    ensures FilledBytes(a + [x], m + [y]) == FilledBytes(a, m) + [f]
  {
    BytesConcat(a, x, m, y);
  }

  /** The masked octet and the filled one, as the digits have them. */
  lemma OctetNext(a: Bytes, x: Octet, masked: Bytes, filled: Bytes, y: Octet, ones: nat, host: nat, w: nat)
    returns (o: Octet, f: Octet)
    requires w == 8 && ones <= 8 && ones == (if host >= w then 0 else 8 - host) && y == OnesOctet(ones)
    requires var above := if host >= w then host - w else 0;
      masked == ClearDigits(a, above, w) && filled == FillDigits(a, above, w)
    ensures o == And(x, y) && f == o + Not(y)
    ensures masked + [o] == ClearDigits(a + [x], host, w) && filled + [f] == FillDigits(a + [x], host, w)
  {
    OctetMasked(x, ones);
    NotOnes(ones);
    o, f := And(x, y), And(x, y) + Not(y);
    DigitsNext(a, x, masked, filled, ones, host, w, o, f);
  }

  lemma MaskNext(init: Bytes, x: Octet, m: Bytes, y: Octet, ones: nat, host: nat, w: nat)
    requires |m| == |init| && w == 8 && ones <= 8 && ones == if host >= w then 0 else 8 - host
    requires y == OnesOctet(ones)
    requires var above := if host >= w then host - w else 0;
      MaskedBytes(init, m) == ClearDigits(init, above, w) && FilledBytes(init, m) == FillDigits(init, above, w)
    ensures MaskedBytes(init + [x], m + [y]) == ClearDigits(init + [x], host, w)
    ensures FilledBytes(init + [x], m + [y]) == FillDigits(init + [x], host, w)
  {
    var masked, filled := MaskedBytes(init, m), FilledBytes(init, m);
    var o, f := OctetNext(init, x, masked, filled, y, ones, host, w);
    BytesNext(init, x, m, y, o, f);
  }

  /** An n-bit mask clears the bits below it, and the broadcast address has them all set. */
  lemma {:induction false} MaskClearsAndFills(a: Bytes, n: nat, len: nat, host: nat, w: nat)
    requires len == |a| && n <= 8 * len && host == 8 * len - n && w == 8
    ensures MaskedBytes(a, CIDRBytes(n, len)) == ClearDigits(a, host, w)
    ensures FilledBytes(a, CIDRBytes(n, len)) == FillDigits(a, host, w)
  {
    if len > 0 {
      var above := if n <= 8 * (len - 1) then n else 8 * (len - 1);
      assert a == a[..len - 1] + [a[len - 1]];
      MaskClearsAndFills(a[..len - 1], above, len - 1, 8 * (len - 1) - above, w);
      MaskNext(a[..len - 1], a[len - 1], CIDRBytes(above, len - 1), OnesOctet(n - above), n - above, host, w);
      MaskSplits(n, len);
    }
  }

  lemma {:induction false} NoBitsBelow(a: Bytes, w: nat)
    requires w > 0
    ensures ClearDigits(a, 0, w) == a && FillDigits(a, 0, w) == a
  {
    if a != [] {
      assert a == a[..|a| - 1] + [a[|a| - 1]];
      assert Pow2(0) == 1;
    }
  }

  // ---------- the prefix-interval theorem ----------

  /**
   Masking with an n-bit prefix clears all the bits below it; the broadcast address is the last of the
   2^(32 - n) from there.
   */
  lemma NetworkNumbers(a: Addr, n: nat)
    requires n <= 32
    ensures Num(Masked(a, CIDRMask(n))) == Clear(Num(a), 32 - n)
    ensures Num(Broadcast(a, CIDRMask(n))) == Clear(Num(a), 32 - n) + Pow2(32 - n) - 1
  {
    var w := OctetBits();
    MaskClearsAndFills(a, n, 4, 32 - n, w);
    OctetsAreDigits(a);
    OctetsFit(4, 32 - n, w);
    ClearDigitsValue(a, 32 - n, w);
    FillDigitsValue(a, 32 - n, w);
  }

  /**
   Three ways of being on the network of address g under an n-bit prefix are one: the masked
   octets agree with the network address; the number lies between network and broadcast
   address; and netip says the prefix contains it. That interval has 2^(32 - n) members,
   and g is one of them.
   */
  lemma PrefixIsInterval(g: Addr, n: nat, a: Addr)
    requires n <= 32
    ensures var mask := CIDRMask(n);
      var network, broadcast := Masked(g, mask), Broadcast(g, mask);
      && (Masked(a, mask) == network <==> Num(network) <= Num(a) <= Num(broadcast))
      && (Masked(a, mask) == network <==> Contains(network, n, a))
      && Num(broadcast) - Num(network) + 1 == Pow2(32 - n)
      && Num(network) <= Num(g) <= Num(broadcast)
  {
    var mask := CIDRMask(n);
    var network, masked := Masked(g, mask), Masked(a, mask);
    NetworkNumbers(g, n);
    NetworkNumbers(a, n);
    Interval(Num(a), Num(g), 32 - n, Num(masked), Num(network), Num(Broadcast(g, mask)));
    if Num(masked) == Num(network) {
      OctetsAreDigits(masked);
      OctetsAreDigits(network);
      ValueInjective(masked, network, OctetBits());
    }
  }

  /** The network address is its own network address. */
  lemma {:induction false} NetworkIsIdempotent(g: Bytes, mask: Bytes)
    requires |mask| == |g|
    ensures MaskedBytes(MaskedBytes(g, mask), mask) == MaskedBytes(g, mask)
  {
    if g != [] {
      var n := |g| - 1;
      NetworkIsIdempotent(g[..n], mask[..n]);
      AndIdempotent(g[n], mask[n]);
      assert MaskedBytes(g, mask)[..n] == MaskedBytes(g[..n], mask[..n]);
    }
  }

  // ---------- masks and their size ----------

  lemma DoubledOnes(v: Octet, ones: nat)
    requires 1 <= ones <= 8
    ensures v == OnesOctet(ones) <==> v >= 128 && (2 * v) % 256 == OnesOctet(ones - 1)
  {
    var p := Pow2(8 - ones);
    assert p <= 128 by {
      Pow2Monotone(8 - ones, 7);
      assert Pow2(7) == 128;
    }
    assert OnesOctet(ones - 1) == 256 - 2 * p;
  }

  lemma {:induction false} LeadingOnesAre(v: Octet, ones: nat)
    requires ones <= 8
    ensures LeadingOnes(v) == (ones, 0) <==> v == OnesOctet(ones)
  {
    if ones == 0 {
      assert Pow2(8) == 256;
    } else {
      DoubledOnes(v, ones);
      if v >= 128 {
        LeadingOnesAre((2 * v) % 256, ones - 1);
      }
    }
  }

  /** Each leading one brings the byte that much closer to being used up. */
  lemma {:induction false} LeadingOnesBound(v: Octet, k: nat)
    requires k <= 8 && v <= 256 - Pow2(8 - k)
    ensures LeadingOnes(v).0 <= k
  {
    assert Pow2(8) == 256;
    if v >= 128 {
      LeadingOnesBound((2 * v) % 256, k - 1);
    }
  }

  lemma {:induction false} ZeroMask(len: nat)
    ensures CIDRBytes(0, len) == seq(len, _ => 0)
  {
    if len > 0 {
      ZeroMask(len - 1);
      assert OnesOctet(0) == 0 by { assert Pow2(8) == 256; }
      assert seq(len, _ => 0) == [0] + seq(len - 1, _ => 0);
    }
  }

  lemma ZerosAreMask(m: Bytes)
    ensures m == CIDRBytes(0, |m|) <==> forall i :: 0 <= i < |m| ==> m[i] == 0
  {
    ZeroMask(|m|);
  }

  /**
   The size of a mask is n exactly if it is the n-bit mask: sizes invert masks, and only contiguous
   masks have one.
   */
  lemma {:induction false} MaskSizeExactly(m: Bytes, n: nat)
    ensures MaskSize(m) == Some(n) <==> n <= 8 * |m| && m == CIDRBytes(n, |m|)
  {
    if m != [] {
      assert m == [m[0]] + m[1..];
      assert Pow2(8) == 256 && Pow2(0) == 1;
      if m[0] == 255 {
        if n >= 8 {
          MaskSizeExactly(m[1..], n - 8);
        }
      } else {
        LeadingOnesBound(m[0], 8);
        if n <= 8 {
          LeadingOnesAre(m[0], n);
          ZerosAreMask(m[1..]);
        }
      }
    }
  }
}
