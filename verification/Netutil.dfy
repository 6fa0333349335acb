/** Dotted quads: the IPv4 form of Go's netip.ParseAddr, and net.IP.String on 4 octets. */
module DottedQuad {
  import opened Wrappers
  import opened Text
  import opened Octets
  import opened Ipv4

  /** A decimal octet: at most 255, without a leading zero. */
  function ParseOctet(s: string): Option<Octet> {
    if IsCanonical(s) && Value(s) < 256 then Some(Value(s)) else None
  }

  /** Exactly n octets separated by dots. */
  function ParseFields(s: string, n: nat): (r: Option<Bytes>)
    requires n > 0
    ensures r.Some? ==> |r.value| == n
  {
    var i := Until(s, '.');
    if n == 1 then
      match ParseOctet(s)
      case None => None
      case Some(o) => Some([o])
    else if i == |s| then None
    else match (ParseOctet(s[..i]), ParseFields(s[i + 1..], n - 1))
      case (Some(o), Some(rest)) => Some([o] + rest)
      case _ => None
  }

  function ParseIPv4(s: string): Option<Addr> {
    ParseFields(s, 4)
  }

  function FormatFields(a: Bytes): string
    requires a != []
  {
    if |a| == 1 then Itoa(a[0]) else Itoa(a[0]) + "." + FormatFields(a[1..])
  }

  /** net.IP.String on a 4-byte address. */
  function Format(a: Addr): string {
    FormatFields(a)
  }

  lemma FormatFirst(o: Octet, rest: Bytes)
    requires rest != []
    ensures FormatFields([o] + rest) == Itoa(o) + "." + FormatFields(rest)
  {
    assert ([o] + rest)[1..] == rest;
  }

  lemma ParseFirst(head: string, rest: string, n: nat)
    requires n > 1 && ParseOctet(head).Some? && ParseFields(rest, n - 1).Some?
    ensures ParseFields(head + "." + rest, n) == Some([ParseOctet(head).value] + ParseFields(rest, n - 1).value)
  {
    assert forall i :: 0 <= i < |head| ==> IsDigit(head[i]);
    UntilAt(head, '.', rest);
    var s := head + "." + rest;
    assert s == head + ['.'] + rest;
    assert s[..|head|] == head && s[|head| + 1..] == rest;
  }

  lemma OctetParses(o: Octet)
    ensures ParseOctet(Itoa(o)) == Some(o)
  {
    ItoaIsCanonical(o);
  }

  lemma {:induction false} ParseOfFormat(a: Bytes)
    requires a != []
    ensures ParseFields(FormatFields(a), |a|) == Some(a)
  {
    OctetParses(a[0]);
    if |a| == 1 {
      assert a == [a[0]];
    } else {
      assert a == [a[0]] + a[1..];
      FormatFirst(a[0], a[1..]);
      ParseOfFormat(a[1..]);
      ParseFirst(Itoa(a[0]), FormatFields(a[1..]), |a|);
    }
  }

  /** What parsed as several fields is an octet, a dot, and what parses as the others. */
  lemma FieldsSplit(s: string, n: nat) returns (head: string, rest: string)
    requires n > 1 && ParseFields(s, n).Some?
    ensures s == head + "." + rest && |rest| < |s| && ParseOctet(head).Some? && ParseFields(rest, n - 1).Some?
    ensures ParseFields(s, n).value == [ParseOctet(head).value] + ParseFields(rest, n - 1).value
  {
    var i := Until(s, '.');
    head, rest := s[..i], s[i + 1..];
  }

  lemma {:induction false} FormatOfParse(s: string, n: nat)
    requires n > 0 && ParseFields(s, n).Some?
    ensures FormatFields(ParseFields(s, n).value) == s
    decreases n
  {
    if n == 1 {
      CanonicalIsItoa(s);
    } else {
      var head, rest := FieldsSplit(s, n);
      CanonicalIsItoa(head);
      FormatOfParse(rest, n - 1);
      FormatFirst(ParseOctet(head).value, ParseFields(rest, n - 1).value);
    }
  }

  /** A dotted quad has one spelling: what parses to an address is its text. */
  lemma QuadIsItsText(s: string, a: Addr)
    ensures ParseIPv4(s) == Some(a) <==> s == Format(a)
  {
    ParseOfFormat(a);
    if ParseIPv4(s) == Some(a) {
      FormatOfParse(s, 4);
    }
  }

  lemma NotSpace(c: char)
    ensures IsDigit(c) || c == '/' ==> !IsSpace(c)
  {
  }

  /** Trimming leaves a text alone that neither starts nor ends with a space. */
  lemma TrimPlain(s: string)
    requires s != [] && !IsSpace(s[0]) && !IsSpace(s[|s| - 1])
    ensures TrimSpace(s) == s
  {
  }

  lemma {:induction false} FormatEnds(a: Bytes)
    requires a != []
    ensures var s := FormatFields(a); s != [] && IsDigit(s[0]) && IsDigit(s[|s| - 1])
    ensures |a| > 1 ==> '.' in FormatFields(a)
  {
    ItoaIsCanonical(a[0]);
    var head := Itoa(a[0]);
    if |a| > 1 {
      FormatEnds(a[1..]);
      assert FormatFields(a)[0] == head[0] && FormatFields(a)[|head|] == '.';
    }
  }

  /** A dotted quad is neither a number nor padded: Atoi refuses it, trimming leaves it alone. */
  lemma QuadIsPlain(a: Addr)
    ensures Atoi(Format(a)) == None
    ensures TrimSpace(Format(a)) == Format(a) && TrimSlash(Format(a)) == Format(a)
  {
    var s := Format(a);
    FormatEnds(a);
    NotSpace(s[0]);
    NotSpace(s[|s| - 1]);
    TrimPlain(s);
  }

  lemma NumberIsPlain(n: nat)
    ensures TrimSpace(Itoa(n)) == Itoa(n) && TrimSlash(Itoa(n)) == Itoa(n)
    ensures TrimSpace("/" + Itoa(n)) == "/" + Itoa(n) && TrimSlash("/" + Itoa(n)) == Itoa(n)
  {
    var s := Itoa(n);
    ItoaIsCanonical(n);
    NotSpace(s[0]);
    NotSpace(s[|s| - 1]);
    NotSpace('/');
    TrimPlain(s);
    TrimPlain("/" + s);
    assert ("/" + s)[1..] == s;
  }
}

/** Addresses in text, IPv4 and IPv6: Go's net.ParseIP, which reads both. */
module IPText {
  import opened Wrappers
  import opened Text
  import opened Octets
  import opened Ipv4
  import opened DottedQuad

  /** The 16 octets in which net.ParseIP returns any address. */
  type IP = b: Bytes | |b| == 16 witness Zeros(16)

  function Zeros(n: nat): (z: Bytes)
    ensures |z| == n
  {
    if n == 0 then [] else Zeros(n - 1) + [0]
  }

  /** The IPv6 form of an IPv4 address. */
  function Mapped(a: Addr): IP {
    Zeros(10) + [0xff, 0xff] + a
  }

  /** net.IP.To4 on 16 octets. */
  function To4(ip: IP): (a: Option<Addr>)
    ensures forall b: Addr :: a == Some(b) <==> ip == Mapped(b)
  {
    assert forall b: Addr :: Mapped(b)[12..] == b;
    if ip == Mapped(ip[12..]) then Some(ip[12..]) else None
  }

  function HexValue(c: char): (d: nat)
    ensures d <= 16
  {
    if '0' <= c <= '9' then c as int - '0' as int
    else if 'a' <= c <= 'f' then c as int - 'a' as int + 10
    else if 'A' <= c <= 'F' then c as int - 'A' as int + 10
    else 16
  }

  function HexDigit(d: nat): (c: char)
    requires d < 16
    ensures HexValue(c) == d && !('A' <= c <= 'F')
  {
    if d < 10 then ('0' as int + d) as char else ('a' as int + d - 10) as char
  }

  /** How many hexadecimal digits the text starts with. */
  function HexRun(s: string): (n: nat)
    ensures n <= |s|
  {
    if s == [] || HexValue(s[0]) == 16 then 0 else 1 + HexRun(s[1..])
  }

  /** The number that up to four digits spell, as its two octets. */
  function HexOctets(s: string): (b: Bytes)
    requires |s| <= 4 && HexRun(s) == |s|
    ensures |b| == 2
  {
    var v := HexNumber(s);
    [v / 256 % 256, v % 256]
  }

  function HexNumber(s: string): nat {
    if s == [] then 0 else HexNumber(s[..|s| - 1]) * 16 + HexValue(s[|s| - 1])
  }

  lemma {:induction false} HexRunWithin(s: string)
    ensures HexRun(s[..HexRun(s)]) == HexRun(s)
  {
    if s != [] && HexValue(s[0]) != 16 {
      HexRunWithin(s[1..]);
      assert s[..HexRun(s)][1..] == s[1..][..HexRun(s[1..])];
    }
  }

  /** What the groups of an IPv6 text have come to: the octets, and where the double colon stood. */
  datatype Parts = Parts(octets: Bytes, gap: Option<nat>)

  /** The loop over the groups, which may end in a dotted quad; entered with room for a group. */
  function Groups(s: string, octets: Bytes, gap: Option<nat>): (r: Option<Parts>)
    requires |octets| <= 14 && (gap.Some? ==> gap.value <= |octets|)
    ensures r.Some? ==> |r.value.octets| <= 16 && (r.value.gap.Some? ==> r.value.gap.value <= |r.value.octets|)
    decreases |s|
  {
    var n := HexRun(s);
    if n == 0 || n > 4 then None
    else if n < |s| && s[n] == '.' then
      if (gap.None? && |octets| != 12) || |octets| + 4 > 16 then None
      else
        match ParseIPv4(s)
        case None => None
        case Some(a) => Some(Parts(octets + a, gap))
    else
      HexRunWithin(s);
      AfterGroup(s[n..], octets + HexOctets(s[..n]), gap)
  }

  /** The rest of the loop's body, after one group: the end, a colon, or the double colon. */
  function AfterGroup(s: string, octets: Bytes, gap: Option<nat>): (r: Option<Parts>)
    requires |octets| <= 16 && (gap.Some? ==> gap.value <= |octets|)
    ensures r.Some? ==> |r.value.octets| <= 16 && (r.value.gap.Some? ==> r.value.gap.value <= |r.value.octets|)
    decreases |s|
  {
    if s == [] then Some(Parts(octets, gap))
    else if s[0] != ':' || |s| == 1 then None
    else if s[1] != ':' then
      if |octets| > 14 then None else Groups(s[1..], octets, gap)
    else if gap.Some? then None
    else if |s| == 2 then Some(Parts(octets, Some(|octets|)))
    else if |octets| > 14 then None
    else Groups(s[2..], octets, Some(|octets|))
  }

  /** The double colon stands for at least one group of zeros; without it there must be eight groups. */
  function Expand(parts: Parts): Option<IP>
    requires |parts.octets| <= 16 && (parts.gap.Some? ==> parts.gap.value <= |parts.octets|)
  {
    var n := |parts.octets|;
    match parts.gap
    case None => if n == 16 then Some(parts.octets) else None
    case Some(at) => if n == 16 then None else Some(parts.octets[..at] + Zeros(16 - n) + parts.octets[at..])
  }

  function ParseIPv6(s: string): Option<IP> {
    if s == "::" then Some(Zeros(16))
    else
      var parts := if "::" <= s then Groups(s[2..], [], Some(0)) else Groups(s, [], None);
      match parts
      case None => None
      case Some(p) => Expand(p)
  }

  /** net.ParseIP: a dot before any colon makes it IPv4, a colon first IPv6; no text with a zone is an address. */
  function ParseIP(s: string): Option<IP> {
    if '%' in s then None
    else if Until(s, '.') < Until(s, ':') then
      match ParseIPv4(s)
      case None => None
      case Some(a) => Some(Mapped(a))
    else if ':' in s then ParseIPv6(s)
    else None
  }

  /** `net.ParseIP(s).To4()`. */
  function ReadIPv4(s: string): Option<Addr> {
    match ParseIP(s)
    case None => None
    case Some(ip) => To4(ip)
  }

  predicate IsQuadChar(c: char) { IsDigit(c) || c == '.' }

  lemma {:induction false} FormatChars(a: Bytes)
    requires a != []
    ensures forall c :: c in FormatFields(a) ==> IsQuadChar(c)
  {
    ItoaIsCanonical(a[0]);
    if |a| > 1 {
      FormatChars(a[1..]);
    }
  }

  lemma {:induction false} UntilAbsent(s: string, c: char)
    requires c !in s
    ensures Until(s, c) == |s|
  {
  }

  /** A dotted quad is read as its address. */
  lemma QuadIsRead(a: Addr)
    ensures ParseIP(Format(a)) == Some(Mapped(a)) && ReadIPv4(Format(a)) == Some(a)
  {
    var s := Format(a);
    QuadIsItsText(s, a);
    FormatChars(a);
    FormatEnds(a);
    UntilAbsent(s, ':');
  }

  lemma {:induction false} HexRunEnds(head: string, rest: string)
    requires HexRun(head) == |head| && (rest == [] || HexValue(rest[0]) == 16)
    ensures HexRun(head + rest) == |head|
  {
    if head == [] {
      assert head + rest == rest;
    } else {
      assert (head + rest)[1..] == head[1..] + rest;
      HexRunEnds(head[1..], rest);
    }
  }

  lemma {:induction false} AllHex(s: string)
    requires forall c :: c in s ==> HexValue(c) != 16
    ensures HexRun(s) == |s|
  {
    if s != [] {
      AllHex(s[1..]);
    }
  }

  lemma OctetIsShort(o: Octet)
    ensures 1 <= |Itoa(o)| <= 3
  {
    if o >= 100 {
      assert |Itoa(o / 10 / 10)| == 1;
    } else if o >= 10 {
      assert |Itoa(o / 10)| == 1;
    }
  }

  lemma QuadHead(a: Addr) returns (n: nat)
    ensures n == HexRun(Format(a)) && 1 <= n <= 3 && n < |Format(a)| && Format(a)[n] == '.'
  {
    var head, rest := Itoa(a[0]), "." + FormatFields(a[1..]);
    ItoaIsCanonical(a[0]);
    OctetIsShort(a[0]);
    AllHex(head);
    HexRunEnds(head, rest);
    assert Format(a) == head + rest;
    n := |head|;
  }

  /** A dotted quad in the place of the last two groups. */
  lemma QuadGroup(a: Addr, octets: Bytes, gap: nat)
    requires |octets| <= 12 && gap <= |octets|
    ensures Groups(Format(a), octets, Some(gap)) == Some(Parts(octets + a, Some(gap)))
  {
    var n := QuadHead(a);
    QuadIsItsText(Format(a), a);
  }

  lemma PlainGroup(all: string, group: string, rest: string, octets: Bytes, more: Bytes, gap: Option<nat>)
    requires |group| == HexRun(all) == HexRun(group) && 1 <= |group| <= 4 && |group| < |all|
    requires all[..|group|] == group && all[|group|..] == rest && all[|group|] == ':'
    requires |octets| <= 12 && (gap.Some? ==> gap.value <= |octets|)
    requires more == octets + HexOctets(group) && |more| <= 14
    ensures Groups(all, octets, gap) == AfterGroup(rest, more, gap)
  {
  }

  lemma AfterColon(rest: string, s: string, more: Bytes, gap: Option<nat>)
    requires |rest| > 1 && rest[0] == ':' && rest[1] != ':' && rest[1..] == s
    requires |more| <= 14 && (gap.Some? ==> gap.value <= |more|)
    ensures AfterGroup(rest, more, gap) == Groups(s, more, gap)
  {
  }

  lemma ColonParts(group: string, s: string, rest: string, all: string)
    requires rest == ":" + s && all == group + rest && s != []
    ensures |group| < |all| && all[..|group|] == group && all[|group|..] == rest && all[|group|] == ':'
    ensures |rest| > 1 && rest[0] == ':' && rest[1] == s[0] && rest[1..] == s
  {
  }

  /** A group of digits, a colon, and more. */
  lemma ColonGroup(group: string, s: string, all: string, octets: Bytes, gap: Option<nat>)
    requires 1 <= |group| <= 4 && HexRun(group) == |group| && s != [] && s[0] != ':' && all == group + (":" + s)
    requires |octets| <= 12 && (gap.Some? ==> gap.value <= |octets|)
    ensures Groups(all, octets, gap) == Groups(s, octets + HexOctets(group), gap)
  {
    ColonParts(group, s, ":" + s, all);
    HexRunEnds(group, ":" + s);
    var more := octets + HexOctets(group);
    assert |more| == |octets| + 2;
    PlainGroup(all, group, ":" + s, octets, more, gap);
    AfterColon(":" + s, s, more, gap);
  }

  lemma HexAppend(s: string, c: char)
    ensures HexNumber(s + [c]) == HexNumber(s) * 16 + HexValue(c)
  {
    assert (s + [c])[..|s|] == s;
  }

  lemma FNumber(group: string)
    requires group == "ffff"
    ensures HexNumber(group) == 0xffff
  {
    var f := group[..1];
    HexAppend(f, 'f');
    HexAppend(f + ['f'], 'f');
    HexAppend(f + ['f'] + ['f'], 'f');
    assert group == f + ['f'] + ['f'] + ['f'] && HexNumber(f) == 15;
  }

  lemma FOctets(group: string)
    requires group == "ffff"
    ensures HexRun(group) == 4 && HexOctets(group) == [0xff, 0xff]
  {
    AllHex(group);
    FNumber(group);
  }

  lemma ExpandMapped(a: Addr)
    ensures Expand(Parts([0xff, 0xff] + a, Some(0))) == Some(Mapped(a))
  {
    var octets: Bytes := [0xff, 0xff] + a;
    assert octets[..0] + Zeros(10) + octets[0..] == Mapped(a);
  }

  lemma MappedGroups(group: string, quad: string, a: Addr)
    requires group == "ffff" && quad == Format(a)
    ensures Groups(group + (":" + quad), [], Some(0)) == Some(Parts([0xff, 0xff] + a, Some(0)))
  {
    FOctets(group);
    FormatEnds(a);
    QuadGroup(a, [0xff, 0xff], 0);
    assert [] + HexOctets(group) == [0xff, 0xff];
    ColonGroup(group, quad, group + (":" + quad), [], Some(0));
  }

  lemma ColonIsNoQuad(s: string)
    requires ':' in s
    ensures ParseIPv4(s) == None
  {
    if ParseIPv4(s).Some? {
      QuadIsItsText(s, ParseIPv4(s).value);
      FormatChars(ParseIPv4(s).value);
    }
  }

  /** A text that starts with a double colon, and goes on. */
  lemma DoubleColonFirst(s: string, rest: string)
    requires s == "::" + rest && rest != [] && '%' !in rest
    ensures ParseIP(s) == match Groups(rest, [], Some(0)) case None => None case Some(p) => Expand(p)
  {
    assert s[0] == ':' && s[2..] == rest && "::" <= s;
    assert '%' !in s;
  }

  /** The IPv6 spelling of an IPv4 address. */
  function MappedText(a: Addr): string {
    "::" + MappedTail(a)
  }

  function MappedTail(a: Addr): string {
    "ffff" + (":" + Format(a))
  }

  lemma MappedTailChars(a: Addr)
    ensures '%' !in MappedTail(a) && ':' in MappedText(a)
  {
    FormatChars(a);
    assert MappedText(a)[0] == ':';
  }

  /** Every IPv4 address has a second spelling, which is no dotted quad. */
  lemma MappedIsRead(a: Addr)
    ensures ParseIP(MappedText(a)) == Some(Mapped(a)) && ReadIPv4(MappedText(a)) == Some(a)
    ensures ParseIPv4(MappedText(a)) == None
  {
    MappedTailChars(a);
    ColonIsNoQuad(MappedText(a));
    MappedIsParsed(a, MappedText(a), MappedTail(a));
  }

  lemma MappedIsParsed(a: Addr, s: string, rest: string)
    requires s == "::" + rest && rest == MappedTail(a) && '%' !in rest
    ensures ParseIP(s) == Some(Mapped(a))
  {
    DoubleColonFirst(s, rest);
    MappedGroups("ffff", Format(a), a);
    ExpandMapped(a);
  }

  // ---------- every IPv6 text of full groups ----------

  /** n groups of four digits, with colons between them. */
  function Grouped(b: Bytes, n: nat): string
    requires |b| == 2 * n
    decreases n
  {
    if n == 0 then ""
    else FourDigits(b[0], b[1]) + if n == 1 then "" else ":" + Grouped(b[2..], n - 1)
  }

  function FourDigits(o: Octet, p: Octet): string {
    [HexDigit(o / 16), HexDigit(o % 16), HexDigit(p / 16), HexDigit(p % 16)]
  }

  lemma FourDigitsNumber(a: char, b: char, c: char, d: char)
    ensures HexNumber([a, b, c, d]) == ((HexValue(a) * 16 + HexValue(b)) * 16 + HexValue(c)) * 16 + HexValue(d)
  {
    assert HexNumber([]) == 0;
    HexAppend([], a);
    HexAppend([a], b);
    HexAppend([a, b], c);
    HexAppend([a, b, c], d);
    assert [] + [a] == [a] && [a] + [b] == [a, b] && [a, b] + [c] == [a, b, c] && [a, b, c] + [d] == [a, b, c, d];
  }

  lemma OctetsOfNumber(o: Octet, p: Octet, v: nat)
    requires v == ((o / 16 * 16 + o % 16) * 16 + p / 16) * 16 + p % 16
    ensures v / 256 % 256 == o && v % 256 == p
  {
    assert v == o * 256 + p;
  }

  lemma FourDigitsAreHex(o: Octet, p: Octet)
    ensures HexRun(FourDigits(o, p)) == |FourDigits(o, p)| == 4
  {
    AllHex(FourDigits(o, p));
  }

  lemma FourDigitsOctets(o: Octet, p: Octet)
    ensures var s := FourDigits(o, p); HexRun(s) == |s| == 4 && HexOctets(s) == [o, p]
  {
    FourDigitsAreHex(o, p);
    FourDigitsNumber(HexDigit(o / 16), HexDigit(o % 16), HexDigit(p / 16), HexDigit(p % 16));
    OctetsOfNumber(o, p, HexNumber(FourDigits(o, p)));
  }

  /** A group of four digits, with nothing or a colon behind it. */
  lemma FullGroup(group: string, rest: string, all: string, octets: Bytes, more: Bytes, gap: Option<nat>)
    requires |group| == 4 && HexRun(group) == 4 && all == group + rest && (rest == [] || rest[0] == ':')
    requires |octets| <= 14 && (gap.Some? ==> gap.value <= |octets|) && more == octets + HexOctets(group)
    ensures Groups(all, octets, gap) == AfterGroup(rest, more, gap)
  {
    HexRunEnds(group, rest);
    assert all[..4] == group && all[4..] == rest;
  }

  lemma ColonFirst(b: Bytes, n: nat, rest: string, s: string)
    requires |b| == 2 * n && n > 0 && s == Grouped(b, n) + rest
    ensures s != [] && s[0] != ':' && (":" + s)[1..] == s && (":" + s)[1] == s[0]
  {
    assert s[0] == HexDigit(b[0] / 16);
  }

  lemma GroupThenMore(o: Octet, p: Octet, s: string, octets: Bytes, more: Bytes, gap: Option<nat>)
    requires s != [] && s[0] != ':' && |octets| <= 12 && (gap.Some? ==> gap.value <= |octets|)
    requires more == octets + [o, p]
    ensures Groups(FourDigits(o, p) + (":" + s), octets, gap) == Groups(s, more, gap)
  {
    var group := FourDigits(o, p);
    FourDigitsOctets(o, p);
    FullGroup(group, ":" + s, group + (":" + s), octets, more, gap);
    assert (":" + s)[1..] == s;
  }

  lemma LastGroup(o: Octet, p: Octet, rest: string, octets: Bytes, more: Bytes, gap: Option<nat>)
    requires rest == [] || rest[0] == ':'
    requires |octets| <= 14 && (gap.Some? ==> gap.value <= |octets|) && more == octets + [o, p]
    ensures Groups(FourDigits(o, p) + rest, octets, gap) == AfterGroup(rest, more, gap)
  {
    FourDigitsOctets(o, p);
    FullGroup(FourDigits(o, p), rest, FourDigits(o, p) + rest, octets, more, gap);
  }

  lemma {:induction false} GroupsAreRead(b: Bytes, rest: string, octets: Bytes, gap: Option<nat>, n: nat)
    requires |b| == 2 * n && n > 0 && |octets| + |b| <= 16 && (gap.Some? ==> gap.value <= |octets|)
    requires rest == [] || rest[0] == ':'
    ensures Groups(Grouped(b, n) + rest, octets, gap) == AfterGroup(rest, octets + b, gap)
    decreases n
  {
    var more := octets + [b[0], b[1]];
    if n == 1 {
      assert Grouped(b, n) == FourDigits(b[0], b[1]) && octets + b == more;
      LastGroup(b[0], b[1], rest, octets, more, gap);
    } else {
      var s := Grouped(b[2..], n - 1) + rest;
      FirstGroup(b, n, rest, s);
      OctetsJoin(b, octets, more);
      ColonFirst(b[2..], n - 1, rest, s);
      GroupThenMore(b[0], b[1], s, octets, more, gap);
      GroupsAreRead(b[2..], rest, more, gap, n - 1);
    }
  }

  lemma FirstGroup(b: Bytes, n: nat, rest: string, s: string)
    requires |b| == 2 * n && n > 1 && s == Grouped(b[2..], n - 1) + rest
    ensures Grouped(b, n) + rest == FourDigits(b[0], b[1]) + (":" + s)
  {
    var more := Grouped(b[2..], n - 1);
    assert Grouped(b, n) == FourDigits(b[0], b[1]) + (":" + more);
  }

  lemma OctetsJoin(b: Bytes, octets: Bytes, more: Bytes)
    requires |b| >= 2 && more == octets + [b[0], b[1]]
    ensures more + b[2..] == octets + b
  {
  }

  predicate IsGroupChar(c: char) { c == ':' || HexValue(c) != 16 }

  lemma FourDigitsChars(o: Octet, p: Octet)
    ensures forall c :: c in FourDigits(o, p) ==> IsGroupChar(c)
  {
  }

  lemma {:induction false} GroupedChars(b: Bytes, n: nat)
    requires |b| == 2 * n
    ensures forall c :: c in Grouped(b, n) ==> IsGroupChar(c)
    ensures n > 0 ==> Grouped(b, n) != [] && HexValue(Grouped(b, n)[0]) != 16
    ensures n > 1 ==> ':' in Grouped(b, n)
    decreases n
  {
    if n > 0 {
      FourDigitsChars(b[0], b[1]);
      if n > 1 {
        GroupedChars(b[2..], n - 1);
        assert Grouped(b, n)[4] == ':';
      }
    }
  }

  lemma ColonsOnly(s: string)
    requires (forall c :: c in s ==> IsGroupChar(c)) && ':' in s
    ensures ParseIP(s) == ParseIPv6(s)
  {
    assert '.' !in s && '%' !in s;
    UntilAbsent(s, '.');
  }

  lemma HeadIsRead(x: Bytes, m: nat, rest: string, none: Bytes, s: string)
    requires |x| == 2 * m && 0 < m <= 8 && (rest == [] || rest[0] == ':') && none == [] && s == Grouped(x, m) + rest
    ensures ParseIPv6(s) == match AfterGroup(rest, x, None) case None => None case Some(p) => Expand(p)
  {
    ColonFirst(x, m, rest, s);
    GroupsAreRead(x, rest, none, None, m);
    assert none + x == x;
  }

  /** An address with a zone is none. */
  lemma ZonesAreRefused(s: string)
    requires '%' in s
    ensures ParseIP(s) == None
  {
  }

  /** Eight groups are read as their 16 octets. */
  lemma EightGroupsAreRead(ip: IP, n: nat)
    requires n == 8
    ensures ParseIP(Grouped(ip, n)) == Some(ip)
  {
    GroupedChars(ip, n);
    ColonsOnly(Grouped(ip, n));
    assert Grouped(ip, n) == Grouped(ip, n) + [];
    HeadIsRead(ip, n, [], [], Grouped(ip, n));
  }

  lemma AfterDoubleColon(tail: string, octets: Bytes)
    requires tail != [] && |octets| <= 14
    ensures AfterGroup("::" + tail, octets, None) == Groups(tail, octets, Some(|octets|))
  {
    assert ("::" + tail)[2..] == tail;
  }

  lemma TailIsRead(x: Bytes, y: Bytes, n: nat, tail: string)
    requires |y| == 2 * n && n > 0 && |x| + |y| <= 14 && tail == Grouped(y, n)
    ensures Groups(tail, x, Some(|x|)) == Some(Parts(x + y, Some(|x|)))
  {
    GroupsAreRead(y, [], x, Some(|x|), n);
    assert tail + [] == tail;
  }

  /** Behind the first groups: the double colon, and the last ones. */
  lemma GapIsRead(x: Bytes, y: Bytes, n: nat, tail: string)
    requires |y| == 2 * n && |x| + |y| <= 14 && tail == Grouped(y, n)
    ensures AfterGroup("::" + tail, x, None) == Some(Parts(x + y, Some(|x|)))
  {
    if n == 0 {
      assert x + y == x && |"::" + tail| == 2;
    } else {
      GroupedChars(y, n);
      AfterDoubleColon(tail, x);
      TailIsRead(x, y, n, tail);
    }
  }

  lemma ExpandGap(x: Bytes, y: Bytes, k: nat, z: Bytes)
    requires |x| + |y| <= 14 && k == 16 - |x| - |y| && z == Zeros(k)
    ensures Expand(Parts(x + y, Some(|x|))) == Some(x + z + y)
  {
    assert (x + y)[..|x|] == x && (x + y)[|x|..] == y;
  }

  lemma ElidedInside(x: Bytes, y: Bytes, m: nat, n: nat, tail: string, s: string)
    requires |x| == 2 * m && m > 0 && |y| == 2 * n && |x| + |y| <= 14
    requires tail == Grouped(y, n) && s == Grouped(x, m) + ("::" + tail)
    ensures ParseIPv6(s) == Expand(Parts(x + y, Some(|x|)))
  {
    ColonFirst(x, m, "::" + tail, s);
    GroupsAreRead(x, "::" + tail, [], None, m);
    assert [] + x == x;
    GapIsRead(x, y, n, tail);
  }

  lemma ElidedFirst(x: Bytes, y: Bytes, n: nat, tail: string, s: string)
    requires x == [] && |y| == 2 * n && 0 < |y| <= 14 && tail == Grouped(y, n) && s == "::" + tail
    ensures ParseIPv6(s) == Expand(Parts(x + y, Some(|x|)))
  {
    GroupedChars(y, n);
    assert s[2..] == tail;
    TailIsRead(x, y, n, tail);
  }

  lemma AllElided(x: Bytes, y: Bytes, k: nat, s: string)
    requires x == [] && y == [] && k == 16 && s == "::"
    ensures ParseIPv6(s) == Some(x + Zeros(k) + y)
  {
    assert x + Zeros(k) + y == Zeros(k);
  }

  lemma DoubleColonWithin(head: string, tail: string, s: string)
    requires forall c :: c in head || c in tail ==> IsGroupChar(c)
    requires s == head + ("::" + tail)
    ensures ':' in s && forall c :: c in s ==> IsGroupChar(c)
  {
    assert s[|head|] == ':';
    assert forall i :: |head| <= i < |s| ==> s[i] == ("::" + tail)[i - |head|];
  }

  lemma ElidedIsParsed(x: Bytes, y: Bytes, m: nat, n: nat, head: string, tail: string, s: string, k: nat)
    requires |x| == 2 * m && |y| == 2 * n && k == 16 - |x| - |y| && k > 0
    requires head == Grouped(x, m) && tail == Grouped(y, n) && s == head + ("::" + tail)
    ensures ParseIPv6(s) == Some(x + Zeros(k) + y)
  {
    if m > 0 {
      ElidedInside(x, y, m, n, tail, s);
      ExpandGap(x, y, k, Zeros(k));
    } else if n > 0 {
      NoHead(x, head, tail, s);
      ElidedFirst(x, y, n, tail, s);
      ExpandGap(x, y, k, Zeros(k));
    } else {
      NoHead(x, head, tail, s);
      AllElided(x, y, k, s);
    }
  }

  lemma NoHead(x: Bytes, head: string, tail: string, s: string)
    requires x == [] && head == Grouped(x, 0) && s == head + ("::" + tail)
    ensures s == "::" + tail && (tail == [] ==> s == "::")
  {
  }

  lemma ElidedHasColons(x: Bytes, y: Bytes, m: nat, n: nat, head: string, tail: string, s: string)
    requires |x| == 2 * m && |y| == 2 * n
    requires head == Grouped(x, m) && tail == Grouped(y, n) && s == head + ("::" + tail)
    ensures ParseIP(s) == ParseIPv6(s)
  {
    GroupedChars(x, m);
    GroupedChars(y, n);
    DoubleColonWithin(head, tail, s);
    ColonsOnly(s);
  }

  /** A double colon stands for the k octets of zeros that are missing, wherever it is. */
  lemma ElidedZerosAreRead(x: Bytes, y: Bytes, m: nat, n: nat, k: nat, s: string)
    requires |x| == 2 * m && |y| == 2 * n && k > 0 && |x| + k + |y| == 16
    requires s == Grouped(x, m) + ("::" + Grouped(y, n))
    ensures ParseIP(s) == Some(x + Zeros(k) + y)
  {
    ElidedHasColons(x, y, m, n, Grouped(x, m), Grouped(y, n), s);
    ElidedIsParsed(x, y, m, n, Grouped(x, m), Grouped(y, n), s, k);
  }

  // ---------- IPv6 texts that are refused, and those that end in a dotted quad ----------

  lemma TailFills(x: Bytes, y: Bytes, n: nat, tail: string)
    requires |y| == 2 * n && n > 0 && |x| + |y| <= 16 && tail == Grouped(y, n)
    ensures Groups(tail, x, Some(|x|)) == Some(Parts(x + y, Some(|x|)))
  {
    GroupsAreRead(y, [], x, Some(|x|), n);
    assert tail + [] == tail;
  }

  lemma FullGapIsRead(x: Bytes, y: Bytes, n: nat, tail: string)
    requires |y| == 2 * n && |x| + |y| == 16 && tail == Grouped(y, n)
    ensures var p := AfterGroup("::" + tail, x, None); p.None? || Expand(p.value) == None
  {
    if n == 0 {
      assert |"::" + tail| == 2;
    } else {
      GroupedChars(y, n);
      AfterDoubleColon(tail, x);
      TailFills(x, y, n, tail);
    }
  }

  /** A double colon that leaves no zeros out is refused. */
  lemma NoEmptyGap(x: Bytes, y: Bytes, m: nat, n: nat, s: string)
    requires |x| == 2 * m && m > 0 && |y| == 2 * n && |x| + |y| == 16
    requires s == Grouped(x, m) + ("::" + Grouped(y, n))
    ensures ParseIP(s) == None
  {
    var tail := Grouped(y, n);
    ElidedHasColons(x, y, m, n, Grouped(x, m), tail, s);
    ColonFirst(x, m, "::" + tail, s);
    HeadIsRead(x, m, "::" + tail, [], s);
    FullGapIsRead(x, y, n, tail);
  }

  lemma {:induction false} UntilWithin(s: string, c: char, d: char, n: nat)
    requires n < |s| && s[n] == c && d !in s[..n + 1] && c != d
    ensures Until(s, c) <= n < Until(s, d)
    decreases n
  {
    if n > 0 && s[0] != c {
      assert s[1..][..n] == s[..n + 1][1..];
      UntilWithin(s[1..], c, d, n - 1);
    }
  }

  /** A text whose first colon comes before any dot, and that has no zone, is read as IPv6. */
  lemma ColonBeforeDot(head: string, rest: string, s: string)
    requires s == head + (":" + rest) && (forall c :: c in head ==> IsGroupChar(c)) && '%' !in rest
    ensures ParseIP(s) == ParseIPv6(s)
  {
    var n := |head|;
    assert s[n] == ':' && s[..n + 1] == head + ":";
    assert '.' !in head + ":" && '%' !in s;
    UntilWithin(s, ':', '.', n);
  }

  lemma AnotherColonPair(octets: Bytes, gap: nat, rest: string, more: string)
    requires |octets| <= 14 && gap <= |octets| && rest == "::" + more
    ensures AfterGroup(rest, octets, Some(gap)) == None
  {
    assert rest[0] == ':' && rest[1] == ':';
  }

  lemma GapThenGap(x: Bytes, y: Bytes, n: nat, more: string, tail: string)
    requires |y| == 2 * n && n > 0 && |x| + |y| <= 14 && tail == Grouped(y, n) + ("::" + more)
    ensures AfterGroup("::" + tail, x, None) == None
  {
    var rest := "::" + more;
    ColonFirst(y, n, rest, tail);
    AfterDoubleColon(tail, x);
    GroupsAreRead(y, rest, x, Some(|x|), n);
    AnotherColonPair(x + y, |x|, rest, more);
  }

  lemma FirstGapParsed(x: Bytes, m: nat, tail: string, s: string)
    requires |x| == 2 * m && 0 < m <= 8 && '%' !in tail && s == Grouped(x, m) + ("::" + tail)
    ensures ParseIP(s) == match AfterGroup("::" + tail, x, None) case None => None case Some(p) => Expand(p)
  {
    GroupedChars(x, m);
    assert "::" + tail == ":" + (":" + tail);
    ColonBeforeDot(Grouped(x, m), ":" + tail, s);
    HeadIsRead(x, m, "::" + tail, [], s);
  }

  /** A second double colon is refused, whatever follows it. */
  lemma NoSecondGap(x: Bytes, y: Bytes, m: nat, n: nat, more: string, tail: string, s: string)
    requires |x| == 2 * m && m > 0 && |y| == 2 * n && n > 0 && |x| + |y| <= 14
    requires tail == Grouped(y, n) + ("::" + more) && s == Grouped(x, m) + ("::" + tail)
    ensures ParseIP(s) == None
  {
    if '%' in tail {
      assert s[|Grouped(x, m)| + 2..] == tail;
      ZonesAreRefused(s);
    } else {
      FirstGapParsed(x, m, tail, s);
      GapThenGap(x, y, n, more, tail);
    }
  }

  /** Without a double colon a dotted quad stands in the place of the last two of eight groups, and nowhere else. */
  lemma QuadEndsIPv6(x: Bytes, m: nat, a: Addr, s: string)
    requires |x| == 2 * m && 0 < m <= 7 && s == Grouped(x, m) + (":" + Format(a))
    ensures ParseIP(s) == if m == 6 then Some(x + a) else None
  {
    GroupedChars(x, m);
    FormatChars(a);
    ColonBeforeDot(Grouped(x, m), Format(a), s);
    HeadIsRead(x, m, ":" + Format(a), [], s);
    QuadAfter(x, a, Format(a));
  }

  lemma QuadAfter(x: Bytes, a: Addr, quad: string)
    requires |x| <= 14 && quad == Format(a)
    ensures AfterGroup(":" + quad, x, None) == if |x| == 12 then Some(Parts(x + a, None)) else None
  {
    FormatEnds(a);
    assert (":" + quad)[1..] == quad && (":" + quad)[1] == quad[0];
    AfterColon(":" + quad, quad, x, None);
    QuadWithoutGap(a, x, quad);
  }

  lemma QuadWithoutGap(a: Addr, octets: Bytes, quad: string)
    requires |octets| <= 14 && quad == Format(a)
    ensures Groups(quad, octets, None) == if |octets| == 12 then Some(Parts(octets + a, None)) else None
  {
    var n := QuadHead(a);
    QuadIsItsText(quad, a);
  }
}

/** internal/netutil/netutil.go, on the texts it is given. */
module Netutil {
  import opened Wrappers
  import opened Text
  import opened Octets
  import opened Ipv4
  import opened DottedQuad
  import opened IPText

  /** The mask that a netmask text stands for, as NetworkAddress and BroadcastAddress read it. */
  function ParseMask(netmask: string): Result<Addr> {
    var m := TrimSlash(TrimSpace(netmask));
    match Atoi(m)
    case Some(bits) => if 0 <= bits <= 32 then Ok(CIDRMask(bits)) else Err
    case None =>
      match ReadIPv4(m)
      case None => Err
      case Some(mask) => Ok(mask)
  }

  function ParseGateway(gateway: string): Option<Addr> {
    ReadIPv4(TrimSpace(gateway))
  }

  function NetworkAddress(gateway: string, netmask: string): Result<string> {
    match (ParseGateway(gateway), ParseMask(netmask))
    case (Some(ip), Ok(mask)) => Ok(Format(Masked(ip, mask)))
    case _ => Err
  }

  function NetmaskToCIDR(netmask: string): Result<nat> {
    var m := TrimSlash(TrimSpace(netmask));
    match Atoi(m)
    case Some(bits) => if 0 <= bits <= 32 then Ok(bits) else Err
    case None =>
      match ReadIPv4(m)
      case None => Err
      case Some(mask) =>
        match MaskSize(mask)
        case None => Err
        case Some(n) => Ok(n)
  }

  /** What BroadcastAddress computes. */
  function BroadcastText(gateway: string, netmask: string): Result<string> {
    match (ParseGateway(gateway), ParseMask(netmask))
    case (Some(ip), Ok(mask)) => Ok(Format(Broadcast(ip, mask)))
    case _ => Err
  }

  method BroadcastAddress(gateway: string, netmask: string) returns (r: Result<string>)
    ensures r == BroadcastText(gateway, netmask)
    ensures forall a, mask: Addr :: ParseIP(TrimSpace(gateway)) == Some(Mapped(a)) && ParseMask(netmask) == Ok(mask) ==>
      r == Ok(Format(Broadcast(a, mask)))
  {
    var ip := ParseGateway(gateway);
    if ip.None? {
      return Err;
    }
    var mask := ParseMask(netmask);
    if mask.Err? {
      return Err;
    }
    var bcast := FillHostBits(Masked(ip.value, mask.value), mask.value);
    forall i | 0 <= i < 4 ensures bcast[i] == Broadcast(ip.value, mask.value)[i] {
      FilledAt(ip.value, mask.value, i);
    }
    assert bcast == Broadcast(ip.value, mask.value);
    return Ok(Format(bcast));
  }

  /** BroadcastAddress's loop over the octets. */
  method FillHostBits(network: Addr, mask: Addr) returns (bcast: seq<nat>)
    ensures |bcast| == 4 && forall i :: 0 <= i < 4 ==> bcast[i] == Or(network[i], Not(mask[i]))
  {
    var b := new nat[4](_ => 0);
    for i := 0 to 4
      invariant forall j :: 0 <= j < i ==> b[j] == Or(network[j], Not(mask[j]))
    {
      b[i] := Or(network[i], Not(mask[i]));
    }
    return b[..];
  }

  // ---------- the three forms of a mask agree ----------

  /** The text is read as the n-bit mask, and as its length n. */
  ghost predicate Means(netmask: string, n: nat)
    requires n <= 32
  {
    ParseMask(netmask) == Ok(CIDRMask(n)) && NetmaskToCIDR(netmask) == Ok(n)
  }

  lemma NumeralMeans(m: string, n: nat)
    requires n <= 32 && TrimSlash(TrimSpace(m)) == Itoa(n)
    ensures Means(m, n)
  {
    AtoiOfItoa(n);
  }

  /**
   A prefix length can be written n, /n or as the dotted quad of its mask; each is read as the same
   mask and length.
   */
  lemma MaskFormsAgree(n: nat)
    requires n <= 32
    ensures Means(Itoa(n), n) && Means("/" + Itoa(n), n) && Means(Format(CIDRMask(n)), n)
  {
    NumberIsPlain(n);
    NumeralMeans(Itoa(n), n);
    NumeralMeans("/" + Itoa(n), n);
    DottedMeans(n);
  }

  lemma DottedMeans(n: nat)
    requires n <= 32
    ensures Means(Format(CIDRMask(n)), n)
  {
    var mask := CIDRMask(n);
    QuadIsPlain(mask);
    QuadIsRead(mask);
    MaskSizeExactly(mask, n);
  }

  /** Whatever text NetmaskToCIDR accepts, it names the n-bit mask that the other two functions apply. */
  lemma CIDRIsTheMask(netmask: string)
    ensures NetmaskToCIDR(netmask).Ok? ==>
      NetmaskToCIDR(netmask).value <= 32 && ParseMask(netmask) == Ok(CIDRMask(NetmaskToCIDR(netmask).value))
  {
    var m := TrimSlash(TrimSpace(netmask));
    if Atoi(m).None? && ReadIPv4(m).Some? && MaskSize(ReadIPv4(m).value).Some? {
      MaskSizeExactly(ReadIPv4(m).value, MaskSize(ReadIPv4(m).value).value);
    }
  }

  /** On dotted quads NetmaskToCIDR inverts the n-bit masks and fails on exactly the masks with a gap. */
  lemma DottedMaskExactly(mask: Addr)
    ensures forall n: nat :: NetmaskToCIDR(Format(mask)) == Ok(n) <==> n <= 32 && mask == CIDRMask(n)
    ensures NetmaskToCIDR(Format(mask)).Err? <==> forall n: nat :: n <= 32 ==> mask != CIDRMask(n)
  {
    QuadIsPlain(mask);
    QuadIsRead(mask);
    forall n: nat ensures NetmaskToCIDR(Format(mask)) == Ok(n) <==> n <= 32 && mask == CIDRMask(n) {
      MaskSizeExactly(mask, n);
    }
  }

  /** Network and broadcast address do not depend on how the prefix length is written. */
  lemma AddressesAgree(gateway: string, netmask: string)
    requires NetmaskToCIDR(netmask).Ok?
    ensures var n := Itoa(NetmaskToCIDR(netmask).value);
      && NetworkAddress(gateway, n) == NetworkAddress(gateway, "/" + n) == NetworkAddress(gateway, netmask)
      && BroadcastText(gateway, n) == BroadcastText(gateway, "/" + n) == BroadcastText(gateway, netmask)
  {
    CIDRIsTheMask(netmask);
    MaskFormsAgree(NetmaskToCIDR(netmask).value);
  }

  /**
   The addresses are those of the gateway as it is written: with any dotted mask, also one with a gap,
   and with any prefix length.
   */
  lemma GatewayIsUsedAsWritten(a: Addr, mask: Addr, n: nat)
    requires n <= 32
    ensures NetworkAddress(Format(a), Format(mask)) == Ok(Format(Masked(a, mask)))
    ensures BroadcastText(Format(a), Format(mask)) == Ok(Format(Broadcast(a, mask)))
    ensures NetworkAddress(Format(a), Itoa(n)) == Ok(Format(Masked(a, CIDRMask(n))))
    ensures BroadcastText(Format(a), Itoa(n)) == Ok(Format(Broadcast(a, CIDRMask(n))))
  {
    QuadIsPlain(a);
    QuadIsRead(a);
    QuadIsPlain(mask);
    QuadIsRead(mask);
    MaskFormsAgree(n);
  }

  /** White space around either text makes no difference. */
  lemma PaddingIsIgnored(gateway: string, netmask: string, left: string, right: string)
    requires AreSpaces(left) && AreSpaces(right)
    ensures ParseGateway(left + gateway + right) == ParseGateway(gateway)
    ensures ParseMask(left + netmask + right) == ParseMask(netmask)
    ensures NetmaskToCIDR(left + netmask + right) == NetmaskToCIDR(netmask)
    ensures NetworkAddress(left + gateway + right, left + netmask + right) == NetworkAddress(gateway, netmask)
    ensures BroadcastText(left + gateway + right, left + netmask + right) == BroadcastText(gateway, netmask)
  {
    PaddingIsTrimmed(left, gateway, right);
    PaddingIsTrimmed(left, netmask, right);
  }

  /** A negative prefix length is an error too. */
  lemma NegativeIsAnError(gateway: string, n: nat)
    requires n > 0
    ensures var m := "-" + Itoa(n);
      NetworkAddress(gateway, m).Err? && BroadcastText(gateway, m).Err? && NetmaskToCIDR(m).Err?
  {
    var m := "-" + Itoa(n);
    ItoaIsCanonical(n);
    assert forall i :: 0 <= i < |Itoa(n)| ==> IsDigit(Itoa(n)[i]);
    assert forall i :: 0 < i < |m| ==> m[i] == Itoa(n)[i - 1];
    NotSpace(m[|m| - 1]);
    TrimPlain(m);
    AtoiMinus(n, Itoa(n), m);
    UntilAbsent(m, '.');
    UntilAbsent(m, ':');
  }

  /** A gateway that is no IPv4 address and a prefix length over 32 are errors for all of them. */
  lemma UnreadableIsAnError(gateway: string, netmask: string, n: nat)
    requires n > 32
    ensures NetworkAddress(gateway, Itoa(n)).Err? && BroadcastText(gateway, Itoa(n)).Err? && NetmaskToCIDR(Itoa(n)).Err?
    ensures (forall a: Addr :: ParseIP(TrimSpace(gateway)) != Some(Mapped(a))) ==>
      NetworkAddress(gateway, netmask).Err? && BroadcastText(gateway, netmask).Err?
  {
    NumberIsPlain(n);
    NumberIsNoQuad(n);
  }

  lemma NumberIsNoQuad(n: nat)
    ensures ReadIPv4(Itoa(n)) == None && (FitsInt(n) ==> Atoi(Itoa(n)) == Some(n))
    ensures !FitsInt(n) ==> Atoi(Itoa(n)) == None
  {
    ItoaIsCanonical(n);
    assert '.' !in Itoa(n) && ':' !in Itoa(n) by {
      assert forall i :: 0 <= i < |Itoa(n)| ==> IsDigit(Itoa(n)[i]);
    }
    UntilAbsent(Itoa(n), '.');
    UntilAbsent(Itoa(n), ':');
  }

  /** The network address of the network address is itself. */
  lemma NetworkAddressIdempotent(gateway: string, netmask: string)
    requires NetworkAddress(gateway, netmask).Ok?
    ensures NetworkAddress(NetworkAddress(gateway, netmask).value, netmask) == NetworkAddress(gateway, netmask)
  {
    var ip, mask := ParseGateway(gateway).value, ParseMask(netmask).value;
    var network := Masked(ip, mask);
    NetworkIsIdempotent(ip, mask);
    QuadIsPlain(network);
    QuadIsRead(network);
  }
}
