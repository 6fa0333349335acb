/** Hardware addresses in text: Go's net.ParseMAC and HardwareAddr.String. */
module MAC {
  import opened Wrappers
  import opened Octets
  import opened Ipv4
  import opened IPText

  function HexPair(high: char, low: char): Option<Octet> {
    if HexValue(high) == 16 || HexValue(low) == 16 then None
    else Some(HexValue(high) * 16 + HexValue(low))
  }

  /** Octets of two digits, with a separator between them. */
  function ParsePairs(s: string, separator: char): Option<Bytes> {
    if |s| < 2 then None
    else
      match HexPair(s[0], s[1])
      case None => None
      case Some(o) =>
        if |s| == 2 then Some([o])
        else if s[2] != separator then None
        else
          match ParsePairs(s[3..], separator)
          case None => None
          case Some(rest) => Some([o] + rest)
  }

  /** Groups of four digits, with dots between them. */
  function ParseDotted(s: string): Option<Bytes> {
    if |s| < 4 then None
    else
      match (HexPair(s[0], s[1]), HexPair(s[2], s[3]))
      case (Some(o), Some(p)) =>
        if |s| == 4 then Some([o, p])
        else if s[4] != '.' then None
        else
          (match ParseDotted(s[5..])
           case None => None
           case Some(rest) => Some([o, p] + rest))
      case _ => None
  }

  predicate IsLength(n: nat) { n == 6 || n == 8 || n == 20 }

  function ParseMAC(s: string): Option<Bytes> {
    if |s| < 14 then None
    else if s[2] == ':' || s[2] == '-' then
      if (|s| + 1) % 3 == 0 && IsLength((|s| + 1) / 3) then ParsePairs(s, s[2]) else None
    else if s[4] == '.' then
      if (|s| + 1) % 5 == 0 && IsLength(2 * (|s| + 1) / 5) then ParseDotted(s) else None
    else None
  }

  /** HardwareAddr.String: two lower-case digits for each octet, with colons between them. */
  function Show(hw: Bytes): string {
    if hw == [] then ""
    else
      var pair := [HexDigit(hw[0] / 16), HexDigit(hw[0] % 16)];
      if |hw| == 1 then pair else pair + ":" + Show(hw[1..])
  }

  lemma {:induction false} PairsOfShow(hw: Bytes)
    requires hw != []
    ensures |Show(hw)| == 3 * |hw| - 1 && (|hw| > 1 ==> Show(hw)[2] == ':')
    ensures ParsePairs(Show(hw), ':') == Some(hw)
  {
    assert HexPair(HexDigit(hw[0] / 16), HexDigit(hw[0] % 16)) == Some(hw[0]);
    if |hw| == 1 {
      assert hw == [hw[0]];
    } else {
      PairsOfShow(hw[1..]);
      assert Show(hw)[3..] == Show(hw[1..]) && hw == [hw[0]] + hw[1..];
    }
  }

  /** What CreateHost stores for the MAC of its form: its printed form, or nothing if it is no MAC. */
  function Normal(s: string): string {
    match ParseMAC(s)
    case None => ""
    case Some(hw) => Show(hw)
  }

  lemma {:induction false} PairsLength(s: string, separator: char)
    ensures ParsePairs(s, separator).Some? ==> |s| + 1 == 3 * |ParsePairs(s, separator).value|
  {
    if |s| > 2 {
      PairsLength(s[3..], separator);
    }
  }

  lemma {:induction false} DottedLength(s: string)
    ensures ParseDotted(s).Some? ==> 2 * (|s| + 1) == 5 * |ParseDotted(s).value|
  {
    if |s| > 4 {
      DottedLength(s[5..]);
    }
  }

  /** A printed MAC is read as itself, and whatever is read has one of the three lengths. */
  lemma ParseOfShow(hw: Bytes)
    requires IsLength(|hw|)
    ensures ParseMAC(Show(hw)) == Some(hw)
  {
    PairsOfShow(hw);
    PairsAreMAC(Show(hw), ':', hw, |hw|);
  }

  lemma PairsAreMAC(s: string, separator: char, hw: Bytes, n: nat)
    requires separator == ':' || separator == '-'
    requires IsLength(n) && |s| == 3 * n - 1 && s[2] == separator && ParsePairs(s, separator) == Some(hw)
    ensures ParseMAC(s) == Some(hw)
  {
  }

  /** Two digits for each octet, with any separator between them. */
  function Paired(hw: Bytes, separator: char): string {
    if hw == [] then ""
    else
      var pair := [HexDigit(hw[0] / 16), HexDigit(hw[0] % 16)];
      if |hw| == 1 then pair else pair + [separator] + Paired(hw[1..], separator)
  }

  /** Four digits for two octets, with dots between them. */
  function Dotted(hw: Bytes): string
    requires |hw| % 2 == 0
  {
    if hw == [] then ""
    else
      var pair := [HexDigit(hw[0] / 16), HexDigit(hw[0] % 16), HexDigit(hw[1] / 16), HexDigit(hw[1] % 16)];
      if |hw| == 2 then pair else pair + "." + Dotted(hw[2..])
  }

  lemma DigitsOfOctet(o: Octet)
    ensures HexPair(HexDigit(o / 16), HexDigit(o % 16)) == Some(o)
  {
  }

  lemma PairThenMore(high: char, low: char, separator: char, rest: string, o: Octet, more: Bytes)
    requires HexPair(high, low) == Some(o) && rest != [] && ParsePairs(rest, separator) == Some(more)
    ensures ParsePairs([high, low] + [separator] + rest, separator) == Some([o] + more)
  {
    assert ([high, low] + [separator] + rest)[3..] == rest;
  }

  lemma {:induction false} PairedIsRead(hw: Bytes, separator: char)
    requires hw != []
    ensures |Paired(hw, separator)| == 3 * |hw| - 1 && (|hw| > 1 ==> Paired(hw, separator)[2] == separator)
    ensures ParsePairs(Paired(hw, separator), separator) == Some(hw)
  {
    DigitsOfOctet(hw[0]);
    if |hw| == 1 {
      assert hw == [hw[0]];
    } else {
      PairedIsRead(hw[1..], separator);
      var rest := Paired(hw[1..], separator);
      PairThenMore(HexDigit(hw[0] / 16), HexDigit(hw[0] % 16), separator, rest, hw[0], hw[1..]);
      assert hw == [hw[0]] + hw[1..];
    }
  }

  lemma GroupThenMore(a: char, b: char, c: char, d: char, rest: string, o: Octet, p: Octet, more: Bytes)
    requires HexPair(a, b) == Some(o) && HexPair(c, d) == Some(p) && rest != [] && ParseDotted(rest) == Some(more)
    ensures ParseDotted([a, b, c, d] + "." + rest) == Some([o, p] + more)
  {
    assert ([a, b, c, d] + "." + rest)[5..] == rest;
  }

  lemma {:induction false} DottedIsRead(hw: Bytes, n: nat)
    requires |hw| == 2 * n && n > 0
    ensures |Dotted(hw)| == 5 * n - 1 && (n > 1 ==> Dotted(hw)[4] == '.')
    ensures HexValue(Dotted(hw)[2]) != 16 && ParseDotted(Dotted(hw)) == Some(hw)
  {
    DigitsOfOctet(hw[0]);
    DigitsOfOctet(hw[1]);
    if n == 1 {
      assert hw == [hw[0], hw[1]];
    } else {
      DottedIsRead(hw[2..], n - 1);
      GroupThenMore(HexDigit(hw[0] / 16), HexDigit(hw[0] % 16), HexDigit(hw[1] / 16), HexDigit(hw[1] % 16),
        Dotted(hw[2..]), hw[0], hw[1], hw[2..]);
      assert hw == [hw[0], hw[1]] + hw[2..];
    }
  }

  lemma DottedIsMAC(s: string, hw: Bytes, n: nat)
    requires |s| == 5 * n - 1 && IsLength(2 * n) && s[4] == '.' && HexValue(s[2]) != 16 && ParseDotted(s) == Some(hw)
    ensures ParseMAC(s) == Some(hw)
  {
  }

  /** The three spellings of a MAC of 6, 8 or 20 octets are read as it, and nothing of another length is read. */
  lemma SpellingsAreRead(hw: Bytes, n: nat, s: string)
    requires |hw| == 2 * n && (n == 3 || n == 4 || n == 10)
    ensures ParseMAC(Paired(hw, ':')) == Some(hw) && ParseMAC(Paired(hw, '-')) == Some(hw)
    ensures ParseMAC(Dotted(hw)) == Some(hw)
    ensures ParseMAC(s).Some? ==> |ParseMAC(s).value| in {6, 8, 20}
  {
    PairedIsRead(hw, ':');
    PairedIsRead(hw, '-');
    PairsAreMAC(Paired(hw, ':'), ':', hw, 2 * n);
    PairsAreMAC(Paired(hw, '-'), '-', hw, 2 * n);
    DottedIsRead(hw, n);
    DottedIsMAC(Dotted(hw), hw, n);
    ParsedLength(s);
  }

  lemma {:induction false} PairsAreSeparated(s: string, separator: char, i: nat)
    requires ParsePairs(s, separator).Some? && i < |s|
    ensures if i % 3 == 2 then s[i] == separator else HexValue(s[i]) != 16
  {
    if i >= 3 {
      PairsAreSeparated(s[3..], separator, i - 3);
    }
  }

  lemma {:induction false} GroupsAreSeparated(s: string, i: nat)
    requires ParseDotted(s).Some? && i < |s|
    ensures if i % 5 == 4 then s[i] == '.' else HexValue(s[i]) != 16
  {
    if i >= 5 {
      GroupsAreSeparated(s[5..], i - 5);
    }
  }

  /** A text is read as a MAC only if it keeps to one of the three forms from end to end. */
  lemma OneFormThroughout(s: string, i: nat)
    requires ParseMAC(s).Some? && i < |s|
    ensures s[2] in {':', '-'} ==> if i % 3 == 2 then s[i] == s[2] else HexValue(s[i]) != 16
    ensures s[2] !in {':', '-'} ==> if i % 5 == 4 then s[i] == '.' else HexValue(s[i]) != 16
  {
    if s[2] == ':' || s[2] == '-' {
      PairsAreSeparated(s, s[2], i);
    } else {
      GroupsAreSeparated(s, i);
    }
  }

  lemma ParsedLength(s: string)
    ensures ParseMAC(s).Some? ==> IsLength(|ParseMAC(s).value|)
  {
    if |s| >= 14 {
      PairsLength(s, s[2]);
      DottedLength(s);
    }
  }

  /** Two texts are stored alike exactly if they are read alike: as the same MAC in any spelling, or as none. */
  lemma NormalTellsMACsApart(s: string, s': string)
    ensures Normal(s) == Normal(s') <==> ParseMAC(s) == ParseMAC(s')
    ensures Normal(Normal(s)) == Normal(s)
  {
    ParsedLength(s);
    ParsedLength(s');
    if ParseMAC(s).Some? {
      ParseOfShow(ParseMAC(s).value);
    }
    if ParseMAC(s').Some? {
      ParseOfShow(ParseMAC(s').value);
    }
  }
}
