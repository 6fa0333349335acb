/** The options of a DHCP reply: AddOptions and its helpers in internal/dhcp/dhcpd.go. */
module ReplyOptions {
  import opened Wrappers
  import opened Text
  import opened Octets
  import opened Ipv4
  import opened DottedQuad
  import opened IPText
  import opened Options
  import Netutil

  const SUBNET_MASK: Octet := 1
  const ROUTER: Octet := 3
  const BROADCAST_ADDRESS: Octet := 28
  const REQUESTED_IP: Octet := 50
  const LEASE_TIME: Octet := 51
  const MESSAGE_TYPE: Octet := 53
  const SERVER_ID: Octet := 54
  const PARAMETER_LIST: Octet := 55
  const T1: Octet := 58
  const T2: Octet := 59
  const BOOTFILE: Octet := 67
  const CLASSLESS_ROUTE: Octet := 121

  datatype Group = Group(netmask: string, gateway: string, bootMethod: string)

  /** The reply that processDiscover and processRequest build up. */
  class Response {
    var yourClientIP: Option<IP>
    var options: seq<DhcpOption>

    constructor ()
      ensures yourClientIP == None && options == []
    {
      yourClientIP, options := None, [];
    }
  }

  // ---------- what each option holds ----------

  /** The file that a boot method names, in the server's own address where it is fetched over HTTP. */
  function Bootfile(bootMethod: string, ip: Addr): string {
    if bootMethod == "pxe" then "mboot.efi"
    else if bootMethod == "https-dhcp" then FileOn("https://", ip, "/esx/mboot.efi")
    else if bootMethod == "http-dhcp" then FileOn("http://", ip, "/esx/mboot.efi")
    else ""
  }

  function FileOn(scheme: string, ip: Addr, path: string): string {
    scheme + Format(ip) + path
  }

  /** groupCIDR. */
  function GroupCIDR(g: Group): (r: Option<nat>)
    ensures r.Some? ==> r.value <= 32
  {
    Netutil.CIDRIsTheMask(g.netmask);
    match Netutil.NetmaskToCIDR(g.netmask)
    case Err => None
    case Ok(n) => Some(n)
  }

  /** groupGateway. */
  function GroupGateway(g: Group): Option<Addr> {
    Netutil.ParseGateway(g.gateway)
  }

  /** Width, the octets of the address that the width covers, router. */
  function RouteData(n: nat, gateway: Addr): Bytes
    requires n <= 32
  {
    [n] + gateway[..(n + 7) / 8] + gateway
  }

  /** The options that take something of the group's network, as far as its netmask and its gateway can be read. */
  function NetworkContent(code: Octet, cidr: Option<nat>, gateway: Option<Addr>): Option<Bytes>
    requires cidr.Some? ==> cidr.value <= 32
  {
    if code == SUBNET_MASK then
      (match cidr
       case None => None
       case Some(n) => Some(CIDRMask(n)))
    else if code == ROUTER then
      (match gateway
       case None => None
       case Some(a) => Some(a))
    else
      (match (cidr, gateway)
       case (Some(n), Some(a)) =>
         if code == CLASSLESS_ROUTE then Some(RouteData(n, a))
         else if code == BROADCAST_ADDRESS then Some(Broadcast(a, CIDRMask(n)))
         else None
       case _ => None)
  }

  predicate IsNetworkCode(code: Octet) {
    code == SUBNET_MASK || code == CLASSLESS_ROUTE || code == ROUTER || code == BROADCAST_ADDRESS
  }

  function BootfileContent(bootMethod: string, ip: Addr): Option<Bytes> {
    BootfileIsBytes(bootMethod, ip);
    var bootfile := Bootfile(bootMethod, ip);
    if bootfile == "" then None else Some(TextBytes(bootfile))
  }

  /** The data of the option of each code for a host of group g, if the server can tell it. */
  function Content(code: Octet, g: Group, ip: Addr): Option<Bytes> {
    if code == BOOTFILE then BootfileContent(g.bootMethod, ip)
    else if IsNetworkCode(code) then NetworkContent(code, GroupCIDR(g), GroupGateway(g))
    else if code == T1 then Some(BigEndian(1800, 4))
    else if code == T2 then Some(BigEndian(3150, 4))
    else if code == LEASE_TIME then Some(BigEndian(3600, 4))
    else if code == SERVER_ID then Some(ip)
    else None
  }

  lemma {:induction false} FormatIsBytes(a: Bytes)
    requires a != []
    ensures IsByteString(FormatFields(a))
  {
    ItoaIsCanonical(a[0]);
    if |a| > 1 {
      FormatIsBytes(a[1..]);
    }
  }

  lemma FileOnIsBytes(scheme: string, ip: Addr, path: string)
    requires IsByteString(scheme) && IsByteString(path)
    ensures IsByteString(FileOn(scheme, ip, path))
    ensures path != "" ==> FileOn(scheme, ip, path) != ""
  {
    FormatIsBytes(ip);
  }

  /** The three boot methods have a file, and any other has none. */
  lemma BootfileIsBytes(bootMethod: string, ip: Addr)
    ensures IsByteString(Bootfile(bootMethod, ip))
    ensures Bootfile(bootMethod, ip) != "" <==> bootMethod in ["pxe", "https-dhcp", "http-dhcp"]
  {
    FileOnIsBytes("https://", ip, "/esx/mboot.efi");
    FileOnIsBytes("http://", ip, "/esx/mboot.efi");
  }

  // ---------- the answer to a parameter list ----------

  function Elements(b: Bytes): set<Octet> {
    set c | c in b
  }

  /** The codes on the request's parameter lists. */
  function Asked(options: seq<DhcpOption>): (codes: set<Octet>)
    ensures forall c :: c in codes <==> exists o :: o in options && o.code == PARAMETER_LIST && c in o.data
  {
    if options == [] then {}
    else
      var last := options[|options| - 1];
      assert options == options[..|options| - 1] + [last];
      Asked(options[..|options| - 1]) + (if last.code == PARAMETER_LIST then Elements(last.data) else {})
  }

  predicate IsDefault(c: Octet) {
    c == T1 || c == T2 || c == LEASE_TIME || c == SERVER_ID || c == BOOTFILE
  }

  /** The codes that the server tries to answer: those asked for and the five that it always sends. */
  function Wanted(options: seq<DhcpOption>): set<Octet> {
    set c: Octet | c in Asked(options) || IsDefault(c)
  }

  /** One option for each wanted code that has content, and nothing else, in any order. */
  ghost predicate IsAnswer(added: seq<DhcpOption>, codes: set<Octet>, g: Group, ip: Addr) {
    && (forall o :: o in added ==> o.code in codes && Content(o.code, g, ip) == Some(o.data))
    && (forall c :: c in codes && Content(c, g, ip).Some? ==> DhcpOption(c, Content(c, g, ip).value) in added)
    && (forall i, j :: 0 <= i < j < |added| ==> added[i].code != added[j].code)
  }

  lemma AnswerGrows(added: seq<DhcpOption>, codes: set<Octet>, c: Octet, g: Group, ip: Addr)
    requires IsAnswer(added, codes, g, ip) && c !in codes
    ensures IsAnswer(added + OptionFor(c, g, ip), codes + {c}, g, ip)
  {
  }

  function OptionFor(code: Octet, g: Group, ip: Addr): seq<DhcpOption> {
    match Content(code, g, ip)
    case None => []
    case Some(data) => [DhcpOption(code, data)]
  }

  lemma {:induction false} CountsOnce(added: seq<DhcpOption>, o: DhcpOption)
    requires forall i, j :: 0 <= i < j < |added| ==> added[i].code != added[j].code
    ensures multiset(added)[o] == if o in added then 1 else 0
  {
    if added != [] {
      var n := |added| - 1;
      assert added == added[..n] + [added[n]];
      CountsOnce(added[..n], o);
    }
  }

  /**
   Whatever order the server's map yields the codes in, and however the lists repeat them, the same
   options are added.
   */
  lemma AnswersAgree(a: seq<DhcpOption>, b: seq<DhcpOption>, codes: set<Octet>, g: Group, ip: Addr)
    requires IsAnswer(a, codes, g, ip) && IsAnswer(b, codes, g, ip)
    ensures multiset(a) == multiset(b)
  {
    forall o ensures multiset(a)[o] == multiset(b)[o] {
      CountsOnce(a, o);
      CountsOnce(b, o);
      assert o in a <==> o.code in codes && Content(o.code, g, ip) == Some(o.data);
      assert o in b <==> o.code in codes && Content(o.code, g, ip) == Some(o.data);
    }
  }

  /** The loops over the parameter lists. */
  method AskedCodes(options: seq<DhcpOption>) returns (requested: set<Octet>)
    ensures requested == Asked(options)
  {
    requested := {};
    for i := 0 to |options|
      invariant requested == Asked(options[..i])
    {
      var data := options[i].data;
      if options[i].code == PARAMETER_LIST {
        for j := 0 to |data|
          invariant requested == Asked(options[..i]) + Elements(data[..j])
        {
          assert data[..j + 1] == data[..j] + [data[j]];
          requested := requested + {data[j]};
        }
        assert data[..|data|] == data;
      }
      assert options[..i + 1][..i] == options[..i];
    }
    assert options[..|options|] == options;
  }

  /** The set of codes to answer. */
  method RequestedCodes(options: seq<DhcpOption>) returns (requested: set<Octet>)
    ensures requested == Wanted(options)
    ensures forall c :: c in requested <==>
      c in {51, 54, 58, 59, 67} || exists o :: o in options && o.code == 55 && c in o.data
  {
    requested := AskedCodes(options);
    var defaults: Bytes := [T1, T2, LEASE_TIME, SERVER_ID, BOOTFILE];
    for i := 0 to |defaults|
      invariant requested == Asked(options) + Elements(defaults[..i])
    {
      assert defaults[..i + 1] == defaults[..i] + [defaults[i]];
      if defaults[i] !in requested {
        requested := requested + {defaults[i]};
      }
    }
    assert defaults[..|defaults|] == defaults;
  }

  lemma BroadcastTextParses(gateway: string, n: nat)
    requires n <= 32
    ensures Netutil.BroadcastText(gateway, Itoa(n)).Ok? <==> Netutil.ParseGateway(gateway).Some?
    ensures Netutil.BroadcastText(gateway, Itoa(n)).Ok? ==>
      ReadIPv4(Netutil.BroadcastText(gateway, Itoa(n)).value) ==
      Some(Broadcast(Netutil.ParseGateway(gateway).value, CIDRMask(n)))
  {
    Netutil.MaskFormsAgree(n);
    if Netutil.ParseGateway(gateway).Some? {
      var bcast := Broadcast(Netutil.ParseGateway(gateway).value, CIDRMask(n));
      QuadIsRead(bcast);
    }
  }

  /** The broadcast address goes through its text and back. */
  method BroadcastOf(g: Group) returns (bcast: Option<Addr>)
    ensures bcast ==
      if GroupCIDR(g).Some? && GroupGateway(g).Some? then
        Some(Broadcast(GroupGateway(g).value, CIDRMask(GroupCIDR(g).value)))
      else None
  {
    var n := GroupCIDR(g);
    if n.None? {
      return None;
    }
    var text := Netutil.BroadcastAddress(g.gateway, Itoa(n.value));
    BroadcastTextParses(g.gateway, n.value);
    if text.Err? {
      return None;
    }
    return ReadIPv4(text.value);
  }

  /** The options that take something of the group's network. */
  method NetworkData(code: Octet, g: Group) returns (data: Option<Bytes>)
    requires IsNetworkCode(code)
    ensures data == NetworkContent(code, GroupCIDR(g), GroupGateway(g))
  {
    var n, gateway := GroupCIDR(g), GroupGateway(g);
    if code == SUBNET_MASK {
      data := if n.None? then None else Some(CIDRMask(n.value));
    } else if code == CLASSLESS_ROUTE {
      data := if n.None? || gateway.None? then None else Some(RouteData(n.value, gateway.value));
    } else if code == ROUTER {
      data := if gateway.None? then None else Some(gateway.value);
    } else {
      data := BroadcastOf(g);
    }
  }

  /** The switch over one code. */
  method OptionData(code: Octet, g: Group, ip: Addr) returns (data: Option<Bytes>)
    ensures data == Content(code, g, ip)
  {
    if code == BOOTFILE {
      data := BootfileContent(g.bootMethod, ip);
    } else if IsNetworkCode(code) {
      data := NetworkData(code, g);
    } else if code == T1 || code == T2 || code == LEASE_TIME {
      var o := NewUint32Option(code, if code == T1 then 1800 else if code == T2 then 3150 else 3600);
      data := Some(o.data);
    } else if code == SERVER_ID {
      data := Some(ip);
    } else {
      data := None;
    }
  }

  /** One round of the loop over the codes. */
  method AddOption(code: Octet, resp: Response, g: Group, ip: Addr)
    modifies resp`options
    ensures resp.options == old(resp.options) + OptionFor(code, g, ip)
  {
    var data := OptionData(code, g, ip);
    if data.Some? {
      resp.options := resp.options + [DhcpOption(code, data.value)];
    }
  }

  /** The loop over the codes. Go visits a map's keys in any order, so the loop picks any that is left. */
  method AnswerCodes(codes: set<Octet>, resp: Response, g: Group, ip: Addr) returns (ghost added: seq<DhcpOption>)
    modifies resp`options
    ensures resp.options == old(resp.options) + added && IsAnswer(added, codes, g, ip)
  {
    var todo := codes;
    added := [];
    while todo != {}
      invariant todo <= codes && resp.options == old(resp.options) + added
      invariant IsAnswer(added, codes - todo, g, ip)
    {
      var code :| code in todo;
      AnswerGrows(added, codes - todo, code, g, ip);
      AddOption(code, resp, g, ip);
      added := added + OptionFor(code, g, ip);
      assert codes - todo + {code} == codes - (todo - {code});
      todo := todo - {code};
    }
    assert codes - todo == codes;
  }

  /** AddOptions, the host's group as its own read of the database found it (None should that fail). */
  method AddOptions(options: seq<DhcpOption>, resp: Response, group: Option<Group>, ip: Addr)
    returns (ghost added: seq<DhcpOption>)
    modifies resp`options
    ensures resp.options == old(resp.options) + added && IsAnswer(added, Wanted(options), GroupOf(group), ip)
  {
    var requested := RequestedCodes(options);
    added := AnswerCodes(requested, resp, GroupOf(group), ip);
  }

  function GroupOf(group: Option<Group>): Group {
    match group
    case None => Group("", "", "")
    case Some(g) => g
  }

  // ---------- what a client learns about its network ----------

  lemma {:induction false} MaskOctet(n: nat, len: nat, i: nat)
    requires n <= 8 * len && i < len
    ensures CIDRBytes(n, len)[i] ==
      if 8 * i + 8 <= n then 255 else if n <= 8 * i then OnesOctet(0) else OnesOctet(n - 8 * i)
  {
    if i > 0 {
      MaskOctet(if n >= 8 then n - 8 else 0, len - 1, i - 1);
    }
  }

  /** The client reads this text from the option. */
  predicate ReadsText(data: Option<Bytes>, text: string) {
    data.Some? && |data.value| == |text| && forall i :: 0 <= i < |text| ==> data.value[i] == text[i] as int
  }

  lemma TextIsRead(s: string)
    requires IsByteString(s)
    ensures ReadsText(Some(TextBytes(s)), s)
  {
  }

  /**
   What the server can tell on its own: the boot file of the group's boot method (67), itself (54), and
   lease, renewal and rebinding time (51, 58, 59).
   */
  lemma OwnContents(g: Group, ip: Addr)
    ensures g.bootMethod == "pxe" ==> ReadsText(Content(67, g, ip), "mboot.efi")
    ensures g.bootMethod == "https-dhcp" ==>
      ReadsText(Content(67, g, ip), "https://" + Format(ip) + "/esx/mboot.efi")
    ensures g.bootMethod == "http-dhcp" ==>
      ReadsText(Content(67, g, ip), "http://" + Format(ip) + "/esx/mboot.efi")
    ensures g.bootMethod !in ["pxe", "https-dhcp", "http-dhcp"] ==> Content(67, g, ip) == None
    ensures Content(54, g, ip) == Some(ip) && Content(51, g, ip) == Some([0, 0, 0x0e, 0x10])
    ensures Content(58, g, ip) == Some([0, 0, 0x07, 0x08]) && Content(59, g, ip) == Some([0, 0, 0x0c, 0x4e])
  {
    BootfileIsRead(g, ip);
    TimesAreSent(g, ip);
  }

  lemma BootfileIsRead(g: Group, ip: Addr)
    ensures g.bootMethod == "pxe" ==> ReadsText(Content(67, g, ip), "mboot.efi")
    ensures g.bootMethod == "https-dhcp" ==>
      ReadsText(Content(67, g, ip), "https://" + Format(ip) + "/esx/mboot.efi")
    ensures g.bootMethod == "http-dhcp" ==>
      ReadsText(Content(67, g, ip), "http://" + Format(ip) + "/esx/mboot.efi")
    ensures g.bootMethod !in ["pxe", "https-dhcp", "http-dhcp"] ==> Content(67, g, ip) == None
  {
    BootfileIsBytes(g.bootMethod, ip);
    TextIsRead(Bootfile(g.bootMethod, ip));
  }

  lemma TimesAreSent(g: Group, ip: Addr)
    ensures Content(54, g, ip) == Some(ip) && Content(51, g, ip) == Some([0, 0, 0x0e, 0x10])
    ensures Content(58, g, ip) == Some([0, 0, 0x07, 0x08]) && Content(59, g, ip) == Some([0, 0, 0x0c, 0x4e])
  {
    BigEndianOf(3600, [0, 0, 0x0e, 0x10]);
    BigEndianOf(1800, [0, 0, 0x07, 0x08]);
    BigEndianOf(3150, [0, 0, 0x0c, 0x4e]);
  }

  lemma BigEndianOf(v: nat, b: Bytes)
    requires v < 0x1_0000_0000 && b == [v / 0x100_0000, v / 0x1_0000 % 0x100, v / 0x100 % 0x100, v % 0x100]
    ensures BigEndian(v, 4) == b
  {
    FourOctets(v);
  }

  /** What it takes of a group whose gateway and prefix length are written out (3, 1, 28). */
  lemma GroupContents(g: Group, ip: Addr, a: Addr, n: nat)
    requires n <= 32 && g.gateway == Format(a) && g.netmask in [Itoa(n), "/" + Itoa(n), Format(CIDRMask(n))]
    ensures Content(3, g, ip) == Some(a) && Content(1, g, ip) == Some(CIDRMask(n))
    ensures Content(28, g, ip) == Some(Broadcast(a, CIDRMask(n)))
    ensures Content(121, g, ip).Some? && DecodeRoutes(Content(121, g, ip).value).Some?
  {
    QuadIsPlain(a);
    QuadIsRead(a);
    Netutil.MaskFormsAgree(n);
    NetworkContents(g, ip, n, a);
    RouteRoundTrip(n, a);
  }

  /** No other code is ever answered; and without its group a host is told neither its network nor what to boot. */
  lemma NoOtherContents(code: Octet, g: Group, ip: Addr)
    ensures code !in {1, 3, 28, 51, 54, 58, 59, 67, 121} ==> Content(code, g, ip) == None
    ensures code !in {51, 54, 58, 59} ==> Content(code, GroupOf(None), ip) == None
  {
    assert TrimSpace("") == "" && ReadIPv4("") == None;
  }

  /** Every reply carries the server's address and its three times; and a file exactly for the three boot methods. */
  lemma DefaultsAreSent(added: seq<DhcpOption>, options: seq<DhcpOption>, g: Group, ip: Addr)
    requires IsAnswer(added, Wanted(options), g, ip)
    ensures DhcpOption(54, ip) in added && DhcpOption(51, [0, 0, 0x0e, 0x10]) in added
    ensures DhcpOption(58, [0, 0, 0x07, 0x08]) in added && DhcpOption(59, [0, 0, 0x0c, 0x4e]) in added
    ensures (exists o :: o in added && o.code == 67) <==> g.bootMethod in ["pxe", "https-dhcp", "http-dhcp"]
  {
    OwnContents(g, ip);
    if g.bootMethod in ["pxe", "https-dhcp", "http-dhcp"] {
      assert DhcpOption(67, Content(67, g, ip).value) in added;
    }
  }

  lemma ContentOfNetwork(code: Octet, g: Group, ip: Addr, cidr: Option<nat>, gateway: Option<Addr>)
    requires IsNetworkCode(code) && cidr == GroupCIDR(g) && gateway == GroupGateway(g)
    ensures Content(code, g, ip) == NetworkContent(code, cidr, gateway)
  {
  }

  lemma NetworkContents(g: Group, ip: Addr, n: nat, gateway: Addr)
    requires GroupCIDR(g) == Some(n) && GroupGateway(g) == Some(gateway)
    ensures n <= 32
    ensures Content(SUBNET_MASK, g, ip) == Some(CIDRMask(n)) && Content(ROUTER, g, ip) == Some(gateway)
    ensures Content(BROADCAST_ADDRESS, g, ip) == Some(Broadcast(gateway, CIDRMask(n)))
    ensures Content(CLASSLESS_ROUTE, g, ip) == Some(RouteData(n, gateway))
  {
    ContentOfNetwork(SUBNET_MASK, g, ip, Some(n), Some(gateway));
    ContentOfNetwork(ROUTER, g, ip, Some(n), Some(gateway));
    ContentOfNetwork(BROADCAST_ADDRESS, g, ip, Some(n), Some(gateway));
    ContentOfNetwork(CLASSLESS_ROUTE, g, ip, Some(n), Some(gateway));
  }

  lemma NoBroadcastContent(g: Group, ip: Addr)
    requires GroupCIDR(g).None? || GroupGateway(g).None?
    ensures Content(BROADCAST_ADDRESS, g, ip) == None
  {
  }

  /**
   The mask, router and broadcast options of a group describe one network: the addresses that agree
   with the router under the mask are those from the network address to the broadcast option, as
   32-bit numbers, and the router is one of them. The three are sent together exactly if netmask and
   gateway can be read.
   */
  lemma OptionsDescribeOneNetwork(g: Group, ip: Addr, a: Addr)
    requires GroupCIDR(g).Some? && GroupGateway(g).Some?
    ensures
      var mask, router, broadcast :=
        Content(SUBNET_MASK, g, ip), Content(ROUTER, g, ip), Content(BROADCAST_ADDRESS, g, ip);
      && mask.Some? && router.Some? && broadcast.Some?
      && |mask.value| == 4 && |router.value| == 4 && |broadcast.value| == 4
      && var network := Masked(router.value, mask.value);
      && Netutil.NetworkAddress(g.gateway, g.netmask) == Ok(Format(network))
      && (Masked(a, mask.value) == network <==> Num(network) <= Num(a) <= Num(broadcast.value))
      && Num(network) <= Num(router.value) <= Num(broadcast.value)
      && Num(broadcast.value) - Num(network) + 1 == Pow2(32 - GroupCIDR(g).value)
  {
    NetworkContents(g, ip, GroupCIDR(g).value, GroupGateway(g).value);
    Netutil.CIDRIsTheMask(g.netmask);
    PrefixIsInterval(GroupGateway(g).value, GroupCIDR(g).value, a);
  }

  /** The client reads a lease of an hour, a renewal time of half of it and a rebinding time of seven eighths. */
  lemma TimersAreFractionsOfTheLease(g: Group, ip: Addr)
    ensures
      var lease, t1, t2 := Content(LEASE_TIME, g, ip), Content(T1, g, ip), Content(T2, g, ip);
      && lease.Some? && t1.Some? && t2.Some? && |lease.value| == |t1.value| == |t2.value| == 4
      && Read(lease.value) == 60 * 60
      && 2 * Read(t1.value) == Read(lease.value) && 8 * Read(t2.value) == 7 * Read(lease.value)
  {
    ReadOfBigEndian(3600, 4);
    ReadOfBigEndian(1800, 4);
    ReadOfBigEndian(3150, 4);
  }

  // ---------- the classless route, read as RFC 3442 says ----------

  datatype Route = Route(width: nat, destination: Addr, router: Addr)

  /** The significant octets of a destination, from the table in "Classless Route Option Format" of RFC 3442. */
  function Significant(width: nat): (k: nat)
    requires width <= 32
    ensures k <= 4
  {
    if width == 0 then 0
    else if width <= 8 then 1
    else if width <= 16 then 2
    else if width <= 24 then 3
    else 4
  }

  function Padded(b: Bytes): (a: Addr)
    requires |b| <= 4
    decreases 4 - |b|
  {
    if |b| == 4 then b else Padded(b + [0])
  }

  /** Destination descriptors and routers, one after the other to the end of the option. */
  function DecodeRoutes(data: Bytes): Option<seq<Route>> {
    if data == [] then Some([])
    else if data[0] > 32 || |data| < 5 + Significant(data[0]) then None
    else
      var k := Significant(data[0]);
      match DecodeRoutes(data[5 + k..])
      case None => None
      case Some(rest) => Some([Route(data[0], Padded(data[1..1 + k]), data[1 + k..5 + k])] + rest)
  }

  lemma {:induction false} PaddedAt(b: Bytes, i: nat)
    requires |b| <= 4 && i < 4
    ensures Padded(b)[i] == if i < |b| then b[i] else 0
    decreases 4 - |b|
  {
    if |b| < 4 {
      PaddedAt(b + [0], i);
    }
  }

  /** The bits of the gateway's last octet sent that its mask leaves out are zero. */
  predicate SentOctetsArePlain(n: nat, gateway: Addr)
    requires n <= 32
  {
    n % 8 == 0 || And(gateway[n / 8], OnesOctet(n % 8)) == gateway[n / 8]
  }

  lemma DestinationAt(n: nat, gateway: Addr, i: nat)
    requires n <= 32 && i < 4
    ensures var destination, mask := Padded(gateway[..(n + 7) / 8]), CIDRMask(n);
      && And(destination[i], mask[i]) == And(gateway[i], mask[i])
      && (destination[i] == And(gateway[i], mask[i]) <==> (i == n / 8 ==> SentOctetsArePlain(n, gateway)))
  {
    MaskOctet(n, 4, i);
    PaddedAt(gateway[..(n + 7) / 8], i);
    assert Pow2(8) == 256 && Pow2(0) == 1;
    AndOnes(gateway[i]);
    AndZero(gateway[i]);
  }

  lemma AndOnes(x: Octet)
    ensures And(x, 255) == x
  {
    assert Pow2(8) == 256 && Pow2(0) == 1;
    AndHigh(x, 8, 0);
  }

  lemma AndZero(x: Octet)
    ensures And(x, 0) == 0 && And(0, x) == 0
  {
  }

  lemma DestinationIsNetwork(n: nat, gateway: Addr)
    requires n <= 32
    ensures var destination, network := Padded(gateway[..(n + 7) / 8]), Masked(gateway, CIDRMask(n));
      && Masked(destination, CIDRMask(n)) == network
      && (destination == network <==> SentOctetsArePlain(n, gateway))
  {
    var mask := CIDRMask(n);
    var destination, network := Padded(gateway[..(n + 7) / 8]), Masked(gateway, mask);
    forall i | 0 <= i < 4
      ensures Masked(destination, mask)[i] == network[i]
      ensures destination[i] == network[i] <==> (i == n / 8 ==> SentOctetsArePlain(n, gateway))
    {
      DestinationAt(n, gateway, i);
      MaskedAt(gateway, mask, i);
      MaskedAt(destination, mask, i);
    }
    assert n < 32 && destination == network ==> destination[n / 8] == network[n / 8];
  }

  /**
   For every prefix length and gateway the option is 5 + ceil(n/8) octets, the fewest that cover n
   bits; a client that decodes it finds one route, through the gateway, whose destination is the
   group's network once it is masked to its width. The octets sent are already the network exactly
   if the gateway has no host bits in the last of them.
   */
  lemma RouteRoundTrip(n: nat, gateway: Addr)
    requires n <= 32
    ensures var data := RouteData(n, gateway);
      var destination, network := Padded(gateway[..(n + 7) / 8]), Masked(gateway, CIDRMask(n));
      && |data| == 5 + Significant(n) && (forall k: nat :: n <= 8 * k <==> Significant(n) <= k)
      && DecodeRoutes(data) == Some([Route(n, destination, gateway)])
      && Masked(destination, CIDRMask(n)) == network
      && (destination == network <==> SentOctetsArePlain(n, gateway))
  {
    var data := RouteData(n, gateway);
    var k := (n + 7) / 8;
    assert k == Significant(n);
    assert data[1..1 + k] == gateway[..k] && data[1 + k..5 + k] == gateway && data[5 + k..] == [];
    var route := Route(n, Padded(gateway[..k]), gateway);
    assert DecodeRoutes(data[5 + k..]) == Some([]) && [route] + [] == [route];
    DestinationIsNetwork(n, gateway);
  }

  lemma SeventeenHasHostBits()
    ensures And(17, OnesOctet(4)) == 16
  {
    assert Pow2(4) == 16 && Pow2(8) == 256;
    AndHigh(17, 8, 4);
  }

  lemma RouteOctets(gateway: Addr)
    requires gateway == [192, 168, 17, 1]
    ensures RouteData(20, gateway) == [20, 192, 168, 17, 192, 168, 17, 1]
  {
    assert gateway[..3] == [192, 168, 17];
  }

  /** The input: for 192.168.17.1/20 the octets sent are 192.168.17, which is not the network's. */
  lemma RouteCanNameItsGateway(gateway: Addr)
    requires gateway == [192, 168, 17, 1]
    ensures RouteData(20, gateway) == [20, 192, 168, 17, 192, 168, 17, 1]
    ensures Padded(gateway[..(20 + 7) / 8]) != Masked(gateway, CIDRMask(20))
  {
    RouteOctets(gateway);
    SeventeenHasHostBits();
    DestinationIsNetwork(20, gateway);
    assert gateway[20 / 8] == 17 && !SentOctetsArePlain(20, gateway);
  }

  /** The route option of a group leads to the group's network address through the group's gateway. */
  lemma RouteOptionNamesTheNetwork(g: Group, ip: Addr)
    requires GroupCIDR(g).Some? && GroupGateway(g).Some?
    ensures var data, n := Content(CLASSLESS_ROUTE, g, ip), GroupCIDR(g).value;
      && data.Some? && DecodeRoutes(data.value).Some? && |DecodeRoutes(data.value).value| == 1
      && var route := DecodeRoutes(data.value).value[0];
      && route.width == n && route.router == GroupGateway(g).value
      && Netutil.NetworkAddress(g.gateway, g.netmask) == Ok(Format(Masked(route.destination, CIDRMask(n))))
  {
    NetworkContents(g, ip, GroupCIDR(g).value, GroupGateway(g).value);
    Netutil.CIDRIsTheMask(g.netmask);
    RouteRoundTrip(GroupCIDR(g).value, GroupGateway(g).value);
  }
}
