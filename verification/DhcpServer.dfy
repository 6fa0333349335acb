/**
 The reservation server: processPacket, processDiscover and processRequest of internal/dhcp/dhcpd.go.
 The host's row and the group are what its own reads of the database found when it handled the packet.
 */
module DhcpServer {
  import opened Wrappers
  import opened Octets
  import opened Ipv4
  import opened IPText
  import opened Options
  import opened ReplyOptions
  import opened HostTable

  const OFFER: Octet := 2
  const ACK: Octet := 5
  const NAK: Octet := 6

  /** What the server uses of a request: the client's MAC as text, ciaddr, and the options. */
  datatype Request = Request(mac: string, clientIP: Bytes, options: seq<DhcpOption>)

  /** What the database held when the packet was handled, and the server's address. */
  datatype View = View(table: Table, group: Option<Group>, ip: Addr)

  /** The value of a reply: its address, the type that the handler put first, and what follows. */
  datatype Reply = Reply(yourClientIP: Option<IP>, kind: Octet, answers: seq<DhcpOption>) {

    function Options(): seq<DhcpOption> { [TypeOption(kind)] + answers }
  }

  function TypeOption(t: Octet): DhcpOption { DhcpOption(MESSAGE_TYPE, [t]) }

  /** The reply that a handler returned holds the value, or both are errors. */
  ghost predicate Holds(r: Result<Response>, value: Result<Reply>)
    reads if r.Ok? then {r.value} else {}
  {
    match (r, value)
    case (Ok(resp), Ok(reply)) => resp.yourClientIP == reply.yourClientIP && resp.options == reply.Options()
    case (Err, Err) => true
    case _ => false
  }

  // ---------- reading the options of a message ----------

  /** Option i is the last of the code. */
  ghost predicate IsLast(options: seq<DhcpOption>, code: Octet, i: int) {
    0 <= i < |options| && options[i].code == code && forall j :: i < j < |options| ==> options[j].code != code
  }

  /** The data of the last option of a code, or else the default. */
  function LastData(options: seq<DhcpOption>, code: Octet, default: Bytes): Bytes {
    if options == [] then default
    else if options[|options| - 1].code == code then options[|options| - 1].data
    else LastData(options[..|options| - 1], code, default)
  }

  lemma {:induction false} LastDataAt(options: seq<DhcpOption>, code: Octet, default: Bytes, i: nat)
    requires IsLast(options, code, i)
    ensures LastData(options, code, default) == options[i].data
  {
    var n := |options| - 1;
    if i < n {
      assert options[n].code != code;
      LastDataAt(options[..n], code, default, i);
    }
  }

  lemma {:induction false} LastDataAbsent(options: seq<DhcpOption>, code: Octet, default: Bytes)
    requires forall o :: o in options ==> o.code != code
    ensures LastData(options, code, default) == default
  {
    if options != [] {
      LastDataAbsent(options[..|options| - 1], code, default);
    }
  }

  function RequestedIP(req: Request): Bytes {
    LastData(req.options, REQUESTED_IP, req.clientIP)
  }

  /** The client asks for these octets: those of its last option 50 or, should it have none, of ciaddr. */
  ghost predicate AsksFor(req: Request, asked: Bytes) {
    || (exists i :: IsLast(req.options, 50, i) && asked == req.options[i].data)
    || ((forall o :: o in req.options ==> o.code != 50) && asked == req.clientIP)
  }

  lemma {:induction false} LastExists(options: seq<DhcpOption>, code: Octet)
    ensures (exists i :: IsLast(options, code, i)) || forall o :: o in options ==> o.code != code
  {
    if options != [] {
      var n := |options| - 1;
      if options[n].code == code {
        assert IsLast(options, code, n);
      } else {
        LastExists(options[..n], code);
        if i :| IsLast(options[..n], code, i) {
          assert IsLast(options, code, i);
        } else {
          assert options == options[..n] + [options[n]];
        }
      }
    }
  }

  lemma AskedIsRequested(req: Request, asked: Bytes)
    ensures AsksFor(req, asked) <==> asked == RequestedIP(req)
  {
    LastExists(req.options, 50);
    if i :| IsLast(req.options, 50, i) {
      LastDataAt(req.options, 50, req.clientIP, i);
      if j :| IsLast(req.options, 50, j) && asked == req.options[j].data {
        LastDataAt(req.options, 50, req.clientIP, j);
      }
    } else {
      LastDataAbsent(req.options, 50, req.clientIP);
    }
  }

  /** net.IP.Equal against 16 octets: the same octets, or the four of an IPv4 address in its IPv6 form. */
  predicate IPEqual(x: Bytes, ip: IP) {
    x == ip || (|x| == 4 && ip == Mapped(x))
  }

  /** The octets are the address: all 16 of them, or the last four of an IPv4 address in its IPv6 form. */
  ghost predicate Spells(asked: Bytes, ip: IP) {
    || asked == ip
    || (|asked| == 4 && ip[12..] == asked && ip[10] == ip[11] == 0xff && forall i :: 0 <= i < 10 ==> ip[i] == 0)
  }

  lemma {:induction false} ZerosAt(n: nat, i: nat)
    requires i < n
    ensures Zeros(n)[i] == 0
  {
    if i < n - 1 {
      ZerosAt(n - 1, i);
    }
  }

  lemma SpelledIsEqual(asked: Bytes, ip: IP)
    ensures Spells(asked, ip) <==> IPEqual(asked, ip)
  {
    if |asked| == 4 {
      forall i | 0 <= i < 10 ensures Mapped(asked)[i] == 0 {
        ZerosAt(10, i);
      }
      assert Mapped(asked)[12..] == asked;
      assert Spells(asked, ip) && asked != ip ==> forall i :: 0 <= i < 16 ==> ip[i] == Mapped(asked)[i];
    }
  }

  lemma AskedSpells(req: Request, requested: Bytes, ip: IP)
    requires AsksFor(req, requested)
    ensures (exists asked :: AsksFor(req, asked) && Spells(asked, ip)) <==> IPEqual(requested, ip)
  {
    AskedIsRequested(req, requested);
    SpelledIsEqual(requested, ip);
    forall asked | AsksFor(req, asked) ensures asked == requested {
      AskedIsRequested(req, asked);
    }
  }

  predicate HasType(o: DhcpOption) {
    o.code == MESSAGE_TYPE ==> |o.data| > 0
  }

  /**
   findMsgType's loop: the last message type, 0 if there is none. The original stops at a type option
   without data.
   */
  method FindMsgType(options: seq<DhcpOption>) returns (t: Octet)
    requires forall o :: o in options ==> HasType(o)
    ensures t == MsgType(options)
    ensures forall i :: IsLast(options, 53, i) ==> options[i].data != [] && t == options[i].data[0]
    ensures (forall o :: o in options ==> o.code != 53) ==> t == 0
  {
    t := 0;
    for i := 0 to |options|
      invariant t == MsgType(options[..i])
    {
      assert options[i] in options && HasType(options[i]);
      if options[i].code == MESSAGE_TYPE {
        t := options[i].data[0];
      }
      assert options[..i + 1][..i] == options[..i];
    }
    assert options[..|options|] == options;
    forall i | IsLast(options, 53, i) ensures options[i].data != [] && t == options[i].data[0] {
      assert HasType(options[i]);
      LastDataAt(options, 53, [0], i);
    }
    if forall o :: o in options ==> o.code != 53 {
      LastDataAbsent(options, 53, [0]);
    }
  }

  function MsgType(options: seq<DhcpOption>): Octet {
    var data := LastData(options, MESSAGE_TYPE, [0]);
    if data == [] then 0 else data[0]
  }

  // ---------- what the answers are ----------

  /** An OFFER or ACK of the host's address: its type, and then the answer to the parameter lists. */
  ghost predicate Grants(reply: Reply, t: Octet, v: View, req: Request) {
    && reply.yourClientIP == AddressFor(v.table, req.mac) && reply.kind == t
    && IsAnswer(reply.answers, Wanted(req.options), GroupOf(v.group), v.ip)
  }

  /** A DISCOVER is answered exactly if the client's row is flagged. */
  ghost predicate AnswersDiscover(r: Result<Reply>, v: View, req: Request) {
    && (r.Ok? <==> FindHostByMAC(v.table, req.mac).Flagged?)
    && (r.Ok? ==> Grants(r.value, OFFER, v, req))
  }

  /**
   A REQUEST is answered exactly if the row is flagged and its address can be read; with an ACK
   exactly if the client asks for that address.
   */
  ghost predicate AnswersRequest(r: Result<Reply>, v: View, req: Request) {
    && (r.Ok? <==> AddressFor(v.table, req.mac).Some?)
    && (r.Ok? ==>
         if exists asked :: AsksFor(req, asked) && Spells(asked, AddressFor(v.table, req.mac).value) then
           Grants(r.value, ACK, v, req)
         else r.value == Reply(None, NAK, []))
  }

  // ---------- the handlers ----------

  /** What an OFFER and an ACK have in common: the address, the type, and the answer to the parameter lists. */
  method Grant(kind: Octet, address: Option<IP>, req: Request, v: View)
    returns (resp: Response, ghost answers: seq<DhcpOption>)
    ensures fresh(resp) && resp.yourClientIP == address && resp.options == [TypeOption(kind)] + answers
    ensures IsAnswer(answers, Wanted(req.options), GroupOf(v.group), v.ip)
  {
    resp := new Response();
    resp.yourClientIP := address;
    resp.options := resp.options + [TypeOption(kind)];
    answers := AddOptions(req.options, resp, v.group, v.ip);
  }

  method ProcessDiscover(req: Request, v: View) returns (r: Result<Response>, ghost value: Result<Reply>)
    ensures Holds(r, value) && (r.Ok? ==> fresh(r.value))
    ensures AnswersDiscover(value, v, req)
  {
    var found := FindHostByMAC(v.table, req.mac);
    if !found.Flagged? {
      return Err, Err;
    }
    var address := ParseIP(found.host.ip);
    var resp, answers := Grant(OFFER, address, req, v);
    r, value := Ok(resp), Ok(Reply(address, OFFER, answers));
  }

  /** The address that the client asks for. */
  method FindRequestedIP(req: Request) returns (requestedIP: Bytes)
    ensures requestedIP == RequestedIP(req) && AsksFor(req, requestedIP)
  {
    requestedIP := req.clientIP;
    for i := 0 to |req.options|
      invariant requestedIP == LastData(req.options[..i], REQUESTED_IP, req.clientIP)
    {
      if req.options[i].code == REQUESTED_IP {
        requestedIP := req.options[i].data;
      }
      assert req.options[..i + 1][..i] == req.options[..i];
    }
    assert req.options[..|req.options|] == req.options;
    AskedIsRequested(req, requestedIP);
  }

  method ProcessRequest(req: Request, v: View) returns (r: Result<Response>, ghost value: Result<Reply>)
    ensures Holds(r, value) && (r.Ok? ==> fresh(r.value))
    ensures AnswersRequest(value, v, req)
  {
    var requestedIP := FindRequestedIP(req);
    var found := FindHostByMAC(v.table, req.mac);
    if !found.Flagged? {
      return Err, Err;
    }
    var reserved := ParseIP(found.host.ip);
    if reserved.None? {
      return Err, Err;
    }
    AskedSpells(req, requestedIP, reserved.value);
    if !IPEqual(requestedIP, reserved.value) {
      var resp := new Response();
      resp.options := resp.options + [TypeOption(NAK)];
      return Ok(resp), Ok(Reply(None, NAK, []));
    }
    var resp, answers := Grant(ACK, reserved, req, v);
    return Ok(resp), Ok(Reply(reserved, ACK, answers));
  }

  /** Only DISCOVER (1) and REQUEST (3) are ever answered. */
  method ProcessPacket(t: Octet, req: Request, v: View) returns (r: Result<Response>, ghost value: Result<Reply>)
    ensures Holds(r, value) && (r.Ok? ==> fresh(r.value))
    ensures Answers(value, t, v, req)
  {
    if t == 1 {
      r, value := ProcessDiscover(req, v);
    } else if t == 3 {
      r, value := ProcessRequest(req, v);
    } else {
      r, value := Err, Err;
    }
  }

  ghost predicate Answers(r: Result<Reply>, t: Octet, v: View, req: Request) {
    if t == 1 then AnswersDiscover(r, v, req)
    else if t == 3 then AnswersRequest(r, v, req)
    else r == Err
  }

  // ---------- the handshake ----------

  lemma FirstIsTheType(kind: Octet, answers: seq<DhcpOption>)
    requires forall o :: o in answers ==> o.code != MESSAGE_TYPE
    ensures MsgType([TypeOption(kind)] + answers) == kind
  {
    var options := [TypeOption(kind)] + answers;
    assert forall j :: 0 < j < |options| ==> options[j] == answers[j - 1];
    assert IsLast(options, MESSAGE_TYPE, 0);
    LastDataAt(options, MESSAGE_TYPE, [0], 0);
  }

  /** A reply's type is the one that the handler put first: no answer to a parameter list repeats it. */
  lemma AnswersHaveNoType(kind: Octet, answers: seq<DhcpOption>, codes: set<Octet>, g: Group, ip: Addr)
    requires IsAnswer(answers, codes, g, ip)
    ensures MsgType([TypeOption(kind)] + answers) == kind
  {
    assert Content(MESSAGE_TYPE, g, ip) == None;
    FirstIsTheType(kind, answers);
  }

  /**
   With an unchanged flagged row, a REQUEST for the address that was offered is acknowledged with
   that address and, for parameter lists that ask for the same codes, the same options but for the
   message type, in whatever order.
   */
  lemma Handshake(offer: Reply, ack: Result<Reply>, v: View, discover: Request, request: Request, asked: Bytes)
    requires AnswersDiscover(Ok(offer), v, discover) && offer.yourClientIP.Some?
    requires AnswersRequest(ack, v, request)
    requires request.mac == discover.mac && AsksFor(request, asked) && Spells(asked, offer.yourClientIP.value)
    ensures ack.Ok? && MsgType(offer.Options()) == 2 && MsgType(ack.value.Options()) == 5
    ensures ack.value.yourClientIP == offer.yourClientIP
    ensures Wanted(request.options) == Wanted(discover.options) ==>
      multiset(ack.value.answers) == multiset(offer.answers)
  {
    AnswersHaveNoType(OFFER, offer.answers, Wanted(discover.options), GroupOf(v.group), v.ip);
    AnswersHaveNoType(ACK, ack.value.answers, Wanted(request.options), GroupOf(v.group), v.ip);
    if Wanted(request.options) == Wanted(discover.options) {
      AnswersAgree(ack.value.answers, offer.answers, Wanted(discover.options), GroupOf(v.group), v.ip);
    }
  }

  /** As an IPv4 client does it: offered four octets, it puts those four into its option 50. */
  lemma FourOctetHandshake(
      offer: Reply, ack: Result<Reply>, v: View, discover: Request, request: Request, a: Addr, i: nat)
    requires AnswersDiscover(Ok(offer), v, discover) && offer.yourClientIP == Some(Mapped(a))
    requires AnswersRequest(ack, v, request) && request.mac == discover.mac
    requires IsLast(request.options, 50, i) && request.options[i].data == a
    ensures ack.Ok? && MsgType(ack.value.Options()) == 5 && ack.value.yourClientIP == Some(Mapped(a))
  {
    MappedIsSpelled(a);
    Handshake(offer, ack, v, discover, request, a);
  }

  lemma MappedIsSpelled(a: Addr)
    ensures Spells(a, Mapped(a))
  {
    SpelledIsEqual(a, Mapped(a));
  }

  /**
   Over all option lists: with a readable reservation, the answer to a REQUEST is an ACK (5) of it exactly
   if the client asks for the reserved address, and otherwise a NAK (6) that carries no address.
   */
  lemma AckExactly(r: Result<Reply>, v: View, req: Request, asked: Bytes)
    requires AnswersRequest(r, v, req) && AddressFor(v.table, req.mac).Some? && AsksFor(req, asked)
    ensures r.Ok? && (MsgType(r.value.Options()) == 5 <==> Spells(asked, AddressFor(v.table, req.mac).value))
    ensures MsgType(r.value.Options()) == 5 ==>
      r.value.yourClientIP == AddressFor(v.table, req.mac) && r.value.Options()[0] == DhcpOption(53, [5])
    ensures MsgType(r.value.Options()) != 5 ==>
      r.value.yourClientIP == None && r.value.Options() == [DhcpOption(53, [6])] && MsgType(r.value.Options()) == 6
  {
    AskedSpells(req, asked, AddressFor(v.table, req.mac).value);
    SpelledIsEqual(asked, AddressFor(v.table, req.mac).value);
    if Spells(asked, AddressFor(v.table, req.mac).value) {
      AnswersHaveNoType(ACK, r.value.answers, Wanted(req.options), GroupOf(v.group), v.ip);
    } else {
      FirstIsTheType(NAK, []);
    }
  }

  /**
   For a reserved IPv4 address: four octets are acknowledged exactly if they are its own, sixteen
   exactly if they are its IPv6 form, and any other number of them never.
   */
  lemma OctetsAcknowledgedExactly(r: Result<Reply>, v: View, req: Request, a: Addr, asked: Bytes)
    requires AnswersRequest(r, v, req) && AddressFor(v.table, req.mac) == Some(Mapped(a)) && AsksFor(req, asked)
    ensures r.Ok?
    ensures |asked| == 4 ==> (MsgType(r.value.Options()) == 5 <==> asked == a)
    ensures |asked| == 16 ==>
      (MsgType(r.value.Options()) == 5 <==>
       asked[12..] == a && asked[10] == asked[11] == 0xff && forall i :: 0 <= i < 10 ==> asked[i] == 0)
    ensures |asked| != 4 && |asked| != 16 ==> MsgType(r.value.Options()) == 6
  {
    AckExactly(r, v, req, asked);
    MappedSpellings(asked, a);
  }

  lemma MappedSpellings(asked: Bytes, a: Addr)
    ensures |asked| == 4 ==> (Spells(asked, Mapped(a)) <==> asked == a)
    ensures |asked| == 16 ==>
      (Spells(asked, Mapped(a)) <==>
       asked[12..] == a && asked[10] == asked[11] == 0xff && forall i :: 0 <= i < 10 ==> asked[i] == 0)
    ensures |asked| != 4 && |asked| != 16 ==> !Spells(asked, Mapped(a))
  {
    MappedIsSpelled(a);
    if |asked| == 16 {
      assert asked[12..] == a ==> forall i :: 12 <= i < 16 ==> asked[i] == a[i - 12] == Mapped(a)[i];
    }
  }

  /** A DISCOVER from the client of a row: an OFFER (2) of what the row holds exactly if the row is flagged. */
  lemma OfferExactly(r: Result<Reply>, v: View, req: Request, id: nat)
    requires AnswersDiscover(r, v, req) && id in v.table.rows && id < v.table.next
    requires ToLower(v.table.rows[id].mac) == ToLower(req.mac)
    requires forall other :: other in v.table.rows && other < id ==>
      ToLower(v.table.rows[other].mac) != ToLower(req.mac)
    ensures r.Ok? <==> v.table.rows[id].reimage
    ensures r.Ok? ==> r.value.yourClientIP == ParseIP(v.table.rows[id].ip) && MsgType(r.value.Options()) == 2
    ensures r.Ok? ==> r.value.Options()[0] == DhcpOption(53, [2])
  {
    RowIsFound(v.table, id, req.mac, 0);
    if r.Ok? {
      AnswersHaveNoType(OFFER, r.value.answers, Wanted(req.options), GroupOf(v.group), v.ip);
    }
  }

  /** A reply carries no address but that of the row found for its client. */
  lemma ReplyHasRowsAddress(v: View, t: Octet, req: Request, r: Reply)
    requires Answers(Ok(r), t, v, req) && r.yourClientIP.Some?
    ensures r.yourClientIP == AddressFor(v.table, req.mac)
  {
  }

  /**
   In every reachable state of the hosts table, two replies with one address go to different MACs
   exactly if the two rows spell it differently, so never if both rows hold dotted quads.
   */
  lemma RepliesShareAnAddressExactly(steps: seq<Step>, v: View,
      t: Octet, req: Request, r: Reply, t': Octet, req': Request, r': Reply)
    requires v.table == Run(steps).table
    requires Answers(Ok(r), t, v, req) && Answers(Ok(r'), t', v, req')
    requires r.yourClientIP.Some? && r.yourClientIP == r'.yourClientIP
    ensures ToLower(req.mac) != ToLower(req'.mac) <==> SpellingFor(v.table, req.mac) != SpellingFor(v.table, req'.mac)
    ensures HoldsQuad(v.table, req.mac) && HoldsQuad(v.table, req'.mac) ==> ToLower(req.mac) == ToLower(req'.mac)
  {
    ReplyHasRowsAddress(v, t, req, r);
    ReplyHasRowsAddress(v, t', req', r');
    SharedAddressExactly(steps, req.mac, req'.mac);
    if HoldsQuad(v.table, req.mac) && HoldsQuad(v.table, req'.mac) {
      NoDoubleAssignment(steps, req.mac, req'.mac);
    }
  }

  /** With handlers that do not overlap, every reply with an address goes to a row that is armed. */
  lemma RepliesFollowArming(calls: seq<Call>, v: View, t: Octet, req: Request, r: Reply)
    requires v.table == Run(StepsOf(calls)).table && Answers(Ok(r), t, v, req) && r.yourClientIP.Some?
    ensures FindHostByMAC(v.table, req.mac).Flagged? && Armed(StepsOf(calls), FindHostByMAC(v.table, req.mac).id)
  {
    AnswersFollowArming(calls, req.mac);
  }
}

/** CreateHost's check that a new host's address is on its group's network: internal/api/hosts.go. */
module Admission {
  import opened Wrappers
  import opened Text
  import opened Ipv4
  import opened DottedQuad
  import opened ReplyOptions

  /** netip.ParsePrefix on an IPv4 address and a length. */
  function ParsePrefix(s: string): (r: Option<(Addr, nat)>)
    ensures r.Some? ==> r.value.1 <= 32
  {
    var i := Until(s, '/');
    if i == |s| then None
    else
      match ParseIPv4(s[..i])
      case None => None
      case Some(a) =>
        var bits := s[i + 1..];
        if IsCanonical(bits) && Value(bits) <= 32 then Some((a, Value(bits))) else None
  }

  /** The address of the form may be committed for a host of the group. */
  predicate Admits(ip: string, g: Group) {
    TrimSpace(ip) == "" ||
    match (ParseIPv4(ip), Netutil.NetmaskToCIDR(g.netmask), Netutil.NetworkAddress(g.gateway, g.netmask))
    case (Some(a), Ok(n), Ok(network)) =>
      (match ParsePrefix(network + "/" + Itoa(n))
       case None => false
       case Some((p, bits)) => Contains(p, bits, a))
    case _ => false
  }

  lemma {:induction false} NoSlash(a: Bytes)
    requires a != []
    ensures '/' !in FormatFields(a)
  {
    ItoaIsCanonical(a[0]);
    assert forall c :: c in Itoa(a[0]) ==> IsDigit(c);
    if |a| > 1 {
      NoSlash(a[1..]);
    }
  }

  lemma PrefixParses(a: Addr, n: nat)
    requires n <= 32
    ensures ParsePrefix(Format(a) + "/" + Itoa(n)) == Some((a, n))
  {
    var s := Format(a) + "/" + Itoa(n);
    NoSlash(a);
    UntilAt(Format(a), '/', Itoa(n));
    assert s == Format(a) + ['/'] + Itoa(n);
    assert s[..|Format(a)|] == Format(a) && s[|Format(a)| + 1..] == Itoa(n);
    QuadIsItsText(Format(a), a);
    ItoaIsCanonical(n);
  }

  lemma AdmitsInPrefix(text: string, g: Group)
    requires TrimSpace(text) != "" && ParseIPv4(text).Some? && GroupCIDR(g).Some? && GroupGateway(g).Some?
    ensures var n := GroupCIDR(g).value;
      Admits(text, g) <==> Contains(Masked(GroupGateway(g).value, CIDRMask(n)), n, ParseIPv4(text).value)
  {
    var n := GroupCIDR(g).value;
    Netutil.CIDRIsTheMask(g.netmask);
    PrefixParses(Masked(GroupGateway(g).value, CIDRMask(n)), n);
  }

  /** A client with this address is on the network of the mask, router and broadcast options that its group is sent. */
  ghost predicate OnSentNetwork(a: Addr, g: Group, ip: Addr) {
    var mask, router := Content(SUBNET_MASK, g, ip), Content(ROUTER, g, ip);
    var broadcast := Content(BROADCAST_ADDRESS, g, ip);
    && mask.Some? && router.Some? && broadcast.Some?
    && |mask.value| == 4 && |router.value| == 4 && |broadcast.value| == 4
    && Num(Masked(router.value, mask.value)) <= Num(a) <= Num(broadcast.value)
  }

  lemma SentNetworkIsPrefix(a: Addr, g: Group, ip: Addr)
    ensures OnSentNetwork(a, g, ip) <==>
      && GroupCIDR(g).Some? && GroupGateway(g).Some?
      && Contains(Masked(GroupGateway(g).value, CIDRMask(GroupCIDR(g).value)), GroupCIDR(g).value, a)
  {
    if GroupCIDR(g).Some? && GroupGateway(g).Some? {
      NetworkContents(g, ip, GroupCIDR(g).value, GroupGateway(g).value);
      InPrefix(a, GroupGateway(g).value, GroupCIDR(g).value);
    } else {
      NoBroadcastContent(g, ip);
    }
  }

  lemma InPrefix(a: Addr, gateway: Addr, n: nat)
    requires n <= 32
    ensures var mask := CIDRMask(n);
      Num(Masked(gateway, mask)) <= Num(a) <= Num(Broadcast(gateway, mask)) <==> Contains(Masked(gateway, mask), n, a)
  {
    PrefixIsInterval(gateway, n, a);
  }

  /**
   A text is admitted to a group exactly if it is blank, or an address whose number lies between the
   network address and the broadcast address that the group's clients are told.
   */
  lemma AdmittedIsOnTheNetwork(text: string, g: Group, ip: Addr)
    ensures TrimSpace(text) == "" ==> Admits(text, g)
    ensures TrimSpace(text) != "" ==>
      (Admits(text, g) <==> ParseIPv4(text).Some? && OnSentNetwork(ParseIPv4(text).value, g, ip))
  {
    if TrimSpace(text) != "" && ParseIPv4(text).Some? {
      SentNetworkIsPrefix(ParseIPv4(text).value, g, ip);
      if GroupCIDR(g).Some? && GroupGateway(g).Some? {
        AdmitsInPrefix(text, g);
      }
    }
  }
}
