/** DHCP options and their encoders: internal/model/option.go. */
module Options {
  import opened Wrappers
  import opened Text
  import opened Octets
  import opened Ipv4
  import opened IPText

  datatype DhcpOption = DhcpOption(code: Octet, data: Bytes)

  // ---------- big-endian numbers ----------

  function Read(b: Bytes): nat {
    if b == [] then 0 else 256 * Read(b[..|b| - 1]) + b[|b| - 1]
  }

  function BigEndian(v: nat, width: nat): (b: Bytes)
    ensures |b| == width
  {
    if width == 0 then [] else BigEndian(v / 256, width - 1) + [v % 256]
  }

  function Values(width: nat): nat {
    if width == 0 then 1 else 256 * Values(width - 1)
  }

  lemma {:induction false} ReadOfBigEndian(v: nat, width: nat)
    requires v < Values(width)
    ensures Read(BigEndian(v, width)) == v
  {
    if width > 0 {
      ReadOfBigEndian(v / 256, width - 1);
      assert BigEndian(v, width)[..width - 1] == BigEndian(v / 256, width - 1);
    }
  }

  lemma {:induction false} BigEndianOfRead(b: Bytes)
    ensures BigEndian(Read(b), |b|) == b && Read(b) < Values(|b|)
  {
    if b != [] {
      BigEndianOfRead(b[..|b| - 1]);
    }
  }

  /**
   Go's conversions of an int to uint16 and to uint32 keep the low bits; int32 and then uint32 keeps the
   same ones.
   */
  function ToUint16(v: int): nat { v % 0x1_0000 }

  function ToUint32(v: int): nat { v % 0x1_0000_0000 }

  /** The four octets as a two's complement number. */
  function ReadInt32(b: Bytes): int {
    if Read(b) < 0x8000_0000 then Read(b) else Read(b) - 0x1_0000_0000
  }

  lemma TwoOctets(v: nat)
    requires v < 0x1_0000
    ensures BigEndian(v, 2) == [v / 0x100, v % 0x100] && Read(BigEndian(v, 2)) == v
  {
    assert BigEndian(v / 0x100, 1) == [v / 0x100];
    assert Values(2) == 0x1_0000;
    ReadOfBigEndian(v, 2);
  }

  lemma FourOctets(v: nat)
    requires v < 0x1_0000_0000
    ensures BigEndian(v, 4) == [v / 0x100_0000, v / 0x1_0000 % 0x100, v / 0x100 % 0x100, v % 0x100]
    ensures Read(BigEndian(v, 4)) == v
  {
    var high := v / 0x1_0000;
    TwoOctets(high);
    assert BigEndian(v / 0x100, 3) == BigEndian(high, 2) + [v / 0x100 % 0x100];
    assert BigEndian(v, 4) == BigEndian(v / 0x100, 3) + [v % 0x100];
    assert Values(4) == 0x1_0000_0000;
    ReadOfBigEndian(v, 4);
  }

  /** binary.BigEndian.PutUint16. */
  method PutUint16(b: array<Octet>, v: nat)
    requires b.Length == 2 && v < 0x1_0000
    modifies b
    ensures b[..] == BigEndian(v, 2) == [v / 256, v % 256] && Read(b[..]) == v
  {
    b[0] := v / 0x100;
    b[1] := v % 0x100;
    TwoOctets(v);
    assert b[..] == [v / 0x100, v % 0x100];
  }

  /** binary.BigEndian.PutUint32. */
  method PutUint32(b: array<Octet>, v: nat)
    requires b.Length == 4 && v < 0x1_0000_0000
    modifies b
    ensures b[..] == BigEndian(v, 4) && Read(b[..]) == v
    ensures b[..] == [v / 0x100_0000, v / 0x1_0000 % 256, v / 0x100 % 256, v % 256]
  {
    b[0] := v / 0x100_0000;
    b[1] := v / 0x1_0000 % 0x100;
    b[2] := v / 0x100 % 0x100;
    b[3] := v % 0x100;
    FourOctets(v);
    assert b[..] == [v / 0x100_0000, v / 0x1_0000 % 0x100, v / 0x100 % 0x100, v % 0x100];
  }

  lemma FitsUint16(v: int)
    ensures ToUint16(v) == v <==> 0 <= v < 0x1_0000
    ensures ToUint16(v) < 0x1_0000
  {
  }

  /** What the client reads is v exactly if v fits in 16 bits. */
  method NewUint16Option(t: Octet, v: int) returns (o: DhcpOption)
    ensures o == DhcpOption(t, BigEndian(ToUint16(v), 2))
    ensures Read(o.data) == v <==> 0 <= v < 0x1_0000
    ensures |o.data| == 2 && (v - Read(o.data)) % 0x1_0000 == 0
  {
    var buf := new Octet[2](_ => 0);
    PutUint16(buf, ToUint16(v));
    FitsUint16(v);
    return DhcpOption(t, buf[..]);
  }

  /** What the client reads as a signed number is v exactly if v fits in 32 bits with its sign. */
  method NewInt32Option(t: Octet, v: int) returns (o: DhcpOption)
    ensures o == DhcpOption(t, BigEndian(ToUint32(v), 4))
    ensures ReadInt32(o.data) == v <==> -0x8000_0000 <= v < 0x8000_0000
    ensures |o.data| == 4 && (v - ReadInt32(o.data)) % 0x1_0000_0000 == 0
  {
    var buf := new Octet[4](_ => 0);
    PutUint32(buf, ToUint32(v));
    return DhcpOption(t, buf[..]);
  }

  /** What the client reads is v exactly if v fits in 32 bits. */
  method NewUint32Option(t: Octet, v: int) returns (o: DhcpOption)
    ensures o == DhcpOption(t, BigEndian(ToUint32(v), 4))
    ensures Read(o.data) == v <==> 0 <= v < 0x1_0000_0000
    ensures |o.data| == 4 && (v - Read(o.data)) % 0x1_0000_0000 == 0
  {
    var buf := new Octet[4](_ => 0);
    PutUint32(buf, ToUint32(v));
    return DhcpOption(t, buf[..]);
  }

  /** Inputs that do not fit: a client reads other numbers than the ones encoded. */
  lemma HighBitsAreDropped(v: int, w: int)
    requires v == 0x1_0000 && w == -1
    ensures Read(BigEndian(ToUint16(v), 2)) == 0 && Read(BigEndian(ToUint32(w), 4)) == 0xffff_ffff
  {
    ReadOfBigEndian(ToUint16(v), 2);
    ReadOfBigEndian(ToUint32(w), 4);
  }

  lemma SignIsLost(v: int)
    requires v == 0x8000_0000
    ensures ReadInt32(BigEndian(ToUint32(v), 4)) == -0x8000_0000
  {
    ReadOfBigEndian(ToUint32(v), 4);
  }

  // ---------- options configured as text ----------

  datatype Kind = TextKind | AddressKind(merge: bool) | Uint16Kind(merge: bool) | Int32Kind | Uint32Kind | Unsupported

  /** The cases of ToDHCPOption's switch, by option code. */
  function KindOf(code: Octet): Kind {
    if code in {12, 14, 15, 17, 18, 40, 47, 48, 49, 56, 66, 67, 119, 120} then TextKind
    else if code in {1, 28, 32} then AddressKind(false)
    else if code in {3, 4, 5, 6, 7, 8, 9, 10, 11, 16, 41, 42, 44, 45} then AddressKind(true)
    else if code in {13, 22, 26, 57} then Uint16Kind(false)
    else if code == 25 then Uint16Kind(true)
    else if code == 2 then Int32Kind
    else if code in {24, 35, 38, 51, 58, 59} then Uint32Kind
    else Unsupported
  }

  /** A Go string is its bytes: one character for each. */
  predicate IsByteString(s: string) {
    forall i :: 0 <= i < |s| ==> s[i] as int < 256
  }

  function TextBytes(s: string): (b: Bytes)
    requires IsByteString(s)
    ensures |b| == |s| && forall i :: 0 <= i < |s| ==> b[i] == s[i] as int
  {
    seq(|s|, i requires 0 <= i < |s| => s[i] as int)
  }

  method ToDHCPOption(code: Octet, data: string) returns (r: Result<(DhcpOption, bool)>)
    requires IsByteString(data)
    ensures IsOptionFor(r, code, data)
  {
    match KindOf(code)
    case TextKind =>
      assert forall i :: 0 <= i < |data| ==> TextBytes(data)[i] as char == data[i];
      assert BytesText(TextBytes(data)) == data;
      return Ok((DhcpOption(code, TextBytes(data)), false));
    case AddressKind(merge) =>
      var ip := ReadIPv4(data);
      if ip.None? {
        return Err;
      }
      return Ok((DhcpOption(code, ip.value), merge));
    case Uint16Kind(merge) =>
      var i := Atoi(data);
      if i.None? {
        return Err;
      }
      var o := NewUint16Option(code, i.value);
      return Ok((o, merge));
    case Int32Kind =>
      var i := Atoi(data);
      if i.None? {
        return Err;
      }
      var o := NewInt32Option(code, i.value);
      return Ok((o, false));
    case Uint32Kind =>
      var i := Atoi(data);
      if i.None? {
        return Err;
      }
      var o := NewUint32Option(code, i.value);
      return Ok((o, false));
    case Unsupported =>
      return Err;
  }

  datatype Payload = TextContent(text: string) | AddressContent(address: Addr) | NumberContent(number: int)

  function BytesText(b: Bytes): string {
    seq(|b|, i requires 0 <= i < |b| => b[i] as char)
  }

  /** What the administrator wrote, if it is of the option's kind. */
  function Configured(code: Octet, data: string): Option<Payload> {
    match KindOf(code)
    case TextKind => Some(TextContent(data))
    case AddressKind(_) =>
      (match ReadIPv4(data)
       case None => None
       case Some(a) => Some(AddressContent(a)))
    case Unsupported => None
    case _ =>
      match Atoi(data)
      case None => None
      case Some(v) => Some(NumberContent(v))
  }

  /** What a client reads from the option's octets. */
  function Carried(code: Octet, data: Bytes): Option<Payload> {
    match KindOf(code)
    case TextKind => Some(TextContent(BytesText(data)))
    case AddressKind(_) => if |data| == 4 then Some(AddressContent(data)) else None
    case Uint16Kind(_) => if |data| == 2 then Some(NumberContent(Read(data))) else None
    case Int32Kind => if |data| == 4 then Some(NumberContent(ReadInt32(data))) else None
    case Uint32Kind => if |data| == 4 then Some(NumberContent(Read(data))) else None
    case Unsupported => None
  }

  /** The number fits the option's field. (The encoders drop the high bits of one that does not.) */
  predicate Fits(code: Octet, content: Payload) {
    content.NumberContent? ==>
      match KindOf(code)
      case Uint16Kind(_) => 0 <= content.number < 0x1_0000
      case Int32Kind => -0x8000_0000 <= content.number < 0x8000_0000
      case Uint32Kind => 0 <= content.number < 0x1_0000_0000
      case _ => true
  }

  predicate IsMerged(kind: Kind, merge: bool) {
    match kind
    case AddressKind(m) => merge == m
    case Uint16Kind(m) => merge == m
    case _ => !merge
  }

  /** An option exactly if the text is of the code's kind; a client reads what was configured exactly if it fits. */
  ghost predicate IsOptionFor(r: Result<(DhcpOption, bool)>, code: Octet, data: string) {
    && (r.Ok? <==> Configured(code, data).Some?)
    && (r.Ok? ==> r.value.0.code == code && IsMerged(KindOf(code), r.value.1))
    && (r.Ok? ==>
          (Carried(code, r.value.0.data) == Configured(code, data) <==> Fits(code, Configured(code, data).value)))
  }

  // ---------- the same, by code ----------

  lemma TextByCode(r: Result<(DhcpOption, bool)>, code: Octet, data: string)
    requires IsOptionFor(r, code, data) && IsByteString(data)
    requires code in {12, 14, 15, 17, 18, 40, 47, 48, 49, 56, 66, 67, 119, 120}
    ensures r == Ok((DhcpOption(code, TextBytes(data)), false))
  {
    var b := r.value.0.data;
    assert BytesText(b) == data;
    assert forall i :: 0 <= i < |b| ==> BytesText(b)[i] == data[i];
    assert b == TextBytes(data);
  }

  lemma AddressByCode(r: Result<(DhcpOption, bool)>, code: Octet, data: string, a: Addr)
    requires IsOptionFor(r, code, data)
    requires code in {1, 3, 4, 5, 6, 7, 8, 9, 10, 11, 16, 28, 32, 41, 42, 44, 45}
    ensures ParseIP(data) == Some(Mapped(a)) <==> r == Ok((DhcpOption(code, a), code !in {1, 28, 32}))
  {
    AddressCodes(code);
  }

  lemma AddressCodes(code: Octet)
    requires code in {1, 3, 4, 5, 6, 7, 8, 9, 10, 11, 16, 28, 32, 41, 42, 44, 45}
    ensures KindOf(code) == AddressKind(code !in {1, 28, 32})
  {
  }

  lemma Uint16ByCode(r: Result<(DhcpOption, bool)>, code: Octet, data: string, v: nat)
    requires IsOptionFor(r, code, data) && Atoi(data) == Some(v)
    requires code in {13, 22, 25, 26, 57} && v < 0x1_0000
    ensures r == Ok((DhcpOption(code, [v / 256, v % 256]), code == 25))
  {
    Uint16Codes(code);
    TwoOctetsOf(r.value.0.data, v);
  }

  lemma Uint16Codes(code: Octet)
    requires code in {13, 22, 25, 26, 57}
    ensures KindOf(code) == Uint16Kind(code == 25)
  {
  }

  lemma Uint32ByCode(r: Result<(DhcpOption, bool)>, code: Octet, data: string, v: nat)
    requires IsOptionFor(r, code, data) && Atoi(data) == Some(v)
    requires code in {24, 35, 38, 51, 58, 59} && v < 0x1_0000_0000
    ensures r.Ok? && |r.value.0.data| == 4 && Read(r.value.0.data) == v && !r.value.1
  {
    Uint32Codes(code);
  }

  lemma Uint32Codes(code: Octet)
    requires code in {24, 35, 38, 51, 58, 59}
    ensures KindOf(code) == Uint32Kind
  {
  }

  lemma Int32ByCode(r: Result<(DhcpOption, bool)>, code: Octet, data: string, v: int)
    requires IsOptionFor(r, code, data) && Atoi(data) == Some(v)
    requires code == 2 && -0x8000_0000 <= v < 0x8000_0000
    ensures r.Ok? && |r.value.0.data| == 4 && ReadInt32(r.value.0.data) == v && !r.value.1
  {
  }

  lemma TwoOctetsOf(b: Bytes, v: nat)
    requires |b| == 2 && Read(b) == v
    ensures b == [v / 256, v % 256]
  {
    assert b[..1][..0] == [] && Read(b[..1]) == b[0];
  }

  lemma OtherCodes(r: Result<(DhcpOption, bool)>, code: Octet, data: string)
    requires IsOptionFor(r, code, data) && r.Ok?
    ensures code in {1, 2, 3, 4, 5, 6, 7, 8, 9, 10, 11, 12, 13, 14, 15, 16, 17, 18, 22, 24, 25, 26, 28, 32,
                     35, 38, 40, 41, 42, 44, 45, 47, 48, 49, 51, 56, 57, 58, 59, 66, 67, 119, 120}
  {
  }
}
