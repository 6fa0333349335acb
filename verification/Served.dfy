/**
 From the form of a new or changed host to what its client is sent: CreateHost and UpdateHost of
 internal/api/hosts.go together with processDiscover of internal/dhcp/dhcpd.go.
 */
module ServedHosts {
  import opened Wrappers
  import opened Text
  import opened Octets
  import opened Ipv4
  import opened DottedQuad
  import opened IPText
  import opened MAC
  import opened HostTable
  import opened HostHandlers
  import opened Options
  import opened ReplyOptions
  import opened DhcpServer
  import opened Admission

  // ---------- a created host is told its own network ----------

  /** The reply sends the option with this data, and no other one of its code. */
  ghost predicate Sends(reply: Reply, code: Octet, data: Bytes) {
    && DhcpOption(code, data) in reply.answers
    && forall o :: o in reply.answers && o.code == code ==> o.data == data
  }

  lemma AnswerSends(reply: Reply, codes: set<Octet>, g: Group, ip: Addr, code: Octet, data: Bytes)
    requires IsAnswer(reply.answers, codes, g, ip) && code in codes && Content(code, g, ip) == Some(data)
    ensures Sends(reply, code, data)
  {
  }

  predicate AsksForNetwork(req: Request) {
    SUBNET_MASK in Asked(req.options) && ROUTER in Asked(req.options) && BROADCAST_ADDRESS in Asked(req.options)
  }

  /** The reply is the OFFER or the ACK that one of the two handlers gives the request. */
  ghost predicate IsGrant(reply: Reply, v: View, req: Request) {
    || AnswersDiscover(Ok(reply), v, req)
    || (AnswersRequest(Ok(reply), v, req) && reply.yourClientIP.Some?)
  }

  /** It carries the row's address and the answer to the parameter lists. */
  lemma GrantCarries(reply: Reply, v: View, req: Request, g: Group)
    requires IsGrant(reply, v, req) && v.group == Some(g)
    ensures reply.yourClientIP == AddressFor(v.table, req.mac)
    ensures IsAnswer(reply.answers, Wanted(req.options), g, v.ip)
  {
  }

  /** The network options of a reply that answers them describe the network of an address on it. */
  lemma AnswerDescribesNetwork(reply: Reply, req: Request, g: Group, ip: Addr, a: Addr)
    returns (mask: Addr, router: Addr, broadcast: Addr)
    requires IsAnswer(reply.answers, Wanted(req.options), g, ip) && AsksForNetwork(req) && OnSentNetwork(a, g, ip)
    ensures Sends(reply, SUBNET_MASK, mask) && Sends(reply, ROUTER, router)
    ensures Sends(reply, BROADCAST_ADDRESS, broadcast)
    ensures Num(Masked(router, mask)) <= Num(a) <= Num(broadcast)
    ensures Masked(a, mask) == Masked(router, mask)
  {
    mask, router, broadcast := NetworkOf(a, g, ip);
    AnswerSends(reply, Wanted(req.options), g, ip, SUBNET_MASK, mask);
    AnswerSends(reply, Wanted(req.options), g, ip, ROUTER, router);
    AnswerSends(reply, Wanted(req.options), g, ip, BROADCAST_ADDRESS, broadcast);
  }

  /**
   A client whose flagged row holds an address that CreateHost admits to the row's group is offered or
   acknowledged that address, and it lies on the network of the mask, router and broadcast options in
   that same reply, as 32-bit numbers.
   */
  lemma AdmittedRowIsSentItsNetwork(v: View, req: Request, reply: Reply, host: Host, g: Group)
    returns (a: Addr, mask: Addr, router: Addr, broadcast: Addr)
    requires IsGrant(reply, v, req) && v.group == Some(g) && AsksForNetwork(req)
    requires FindHostByMAC(v.table, req.mac).Flagged? && FindHostByMAC(v.table, req.mac).host == host
    requires TrimSpace(host.ip) != "" && Admits(host.ip, g)
    ensures host.ip == Format(a) && reply.yourClientIP == Some(Mapped(a))
    ensures Sends(reply, SUBNET_MASK, mask) && Sends(reply, ROUTER, router)
    ensures Sends(reply, BROADCAST_ADDRESS, broadcast)
    ensures Num(Masked(router, mask)) <= Num(a) <= Num(broadcast)
    ensures Masked(a, mask) == Masked(router, mask)
  {
    AdmittedIsOnTheNetwork(host.ip, g, v.ip);
    a := ParseIPv4(host.ip).value;
    QuadIsItsText(host.ip, a);
    QuadIsRead(a);
    GrantCarries(reply, v, req, g);
    mask, router, broadcast := AnswerDescribesNetwork(reply, req, g, v.ip, a);
  }

  lemma NetworkOf(a: Addr, g: Group, ip: Addr) returns (mask: Addr, router: Addr, broadcast: Addr)
    requires OnSentNetwork(a, g, ip)
    ensures Content(SUBNET_MASK, g, ip) == Some(mask) && Content(ROUTER, g, ip) == Some(router)
    ensures Content(BROADCAST_ADDRESS, g, ip) == Some(broadcast)
    ensures Num(Masked(router, mask)) <= Num(a) <= Num(broadcast) && Masked(a, mask) == Masked(router, mask)
  {
    SentNetworkIsPrefix(a, g, ip);
    var n, gateway := GroupCIDR(g).value, GroupGateway(g).value;
    NetworkContents(g, ip, n, gateway);
    PrefixIsInterval(gateway, n, a);
    mask, router, broadcast := CIDRMask(n), gateway, Broadcast(gateway, CIDRMask(n));
  }

  /**
   End to end: a host that CreateHost has put into the table, with its row as it was created and no
   earlier row of its MAC, is found by its client's hardware address however the form spelled it, and is
   offered or acknowledged its address on the network that the same reply describes.
   */
  lemma CreatedHostIsSentItsNetwork(
      t: Table, form: Host, hw: Bytes, groups: map<nat, Group>, v: View, req: Request, reply: Reply)
    returns (a: Addr, mask: Addr, router: Addr, broadcast: Addr)
    requires form.group in groups && Admits(form.ip, groups[form.group]) && TrimSpace(form.ip) != ""
    requires ParseMAC(form.mac) == Some(hw) && form.reimage
    requires var item := form.(mac := Normal(form.mac));
      && IndexAllows(t, t.next, item) && Perform(t, Create(item)).rows[t.next] == item
      && t.next < v.table.next && t.next in v.table.rows && v.table.rows[t.next] == item
    requires forall id :: id in v.table.rows && id < t.next ==> ToLower(v.table.rows[id].mac) != ToLower(Show(hw))
    requires v.group == Some(groups[form.group]) && req.mac == Show(hw) && AsksForNetwork(req)
    requires IsGrant(reply, v, req)
    ensures form.ip == Format(a) && reply.yourClientIP == Some(Mapped(a))
    ensures Sends(reply, SUBNET_MASK, mask) && Sends(reply, ROUTER, router)
    ensures Sends(reply, BROADCAST_ADDRESS, broadcast)
    ensures Num(Masked(router, mask)) <= Num(a) <= Num(broadcast)
    ensures Masked(a, mask) == Masked(router, mask)
  {
    RowIsFound(v.table, t.next, Show(hw), 0);
    a, mask, router, broadcast :=
      AdmittedRowIsSentItsNetwork(v, req, reply, form.(mac := Normal(form.mac)), groups[form.group]);
  }

  // ---------- an updated MAC is stored as it is spelled ----------

  lemma LowerDigit(c: char)
    ensures HexValue(Lower(c)) == HexValue(c)
    ensures HexValue(c) != 16 ==> Lower(c) == HexDigit(HexValue(c))
    ensures Lower(c) == ':' <==> c == ':'
  {
  }

  lemma LowerFirst(c: char, s: string)
    ensures ToLower([c] + s) == [Lower(c)] + ToLower(s)
  {
    assert ([c] + s)[1..] == s;
  }

  lemma ThreeFirst(a: char, b: char, c: char, s: string)
    ensures [a] + ([b] + ([c] + s)) == [a, b, c] + s
  {
  }

  lemma LowerThreeOf(a: char, b: char, c: char, s: string)
    ensures ToLower([a, b, c] + s) == [Lower(a), Lower(b), Lower(c)] + ToLower(s)
  {
    LowerFirst(c, s);
    LowerFirst(b, [c] + s);
    LowerFirst(a, [b] + ([c] + s));
    ThreeFirst(a, b, c, s);
    ThreeFirst(Lower(a), Lower(b), Lower(c), ToLower(s));
  }

  lemma FirstThree(s: string)
    requires |s| > 2
    ensures s == [s[0], s[1], s[2]] + s[3..]
  {
  }

  lemma LowerThree(s: string, lower: string)
    requires |s| > 2 && lower == ToLower(s)
    ensures lower == [Lower(s[0]), Lower(s[1]), Lower(s[2])] + ToLower(s[3..])
  {
    FirstThree(s);
    LowerThreeOf(s[0], s[1], s[2], s[3..]);
  }

  lemma LowerPair(s: string)
    requires |s| == 2
    ensures ToLower(s) == [Lower(s[0]), Lower(s[1])]
  {
    assert s[1..][1..] == [];
    assert ToLower(s[1..]) == [Lower(s[1])] + ToLower(s[1..][1..]);
  }

  lemma {:induction false} LowerLength(s: string)
    ensures |ToLower(s)| == |s|
  {
    if s != [] {
      LowerLength(s[1..]);
    }
  }

  /** Reading does not look at the case of the digits. */
  lemma {:induction false} LowerParses(s: string)
    ensures ParsePairs(ToLower(s), ':') == ParsePairs(s, ':')
  {
    LowerLength(s);
    if |s| >= 2 {
      LowerDigit(s[0]);
      LowerDigit(s[1]);
      if |s| == 2 {
        LowerPair(s);
      } else {
        LowerDigit(s[2]);
        LowerThree(s, ToLower(s));
        assert ToLower(s)[3..] == ToLower(s[3..]);
        LowerParses(s[3..]);
      }
    }
  }

  /** A MAC with colons, in lower case, is its printed form. */
  lemma {:induction false} PairsAreShown(s: string, hw: Bytes)
    requires ParsePairs(s, ':') == Some(hw)
    ensures ToLower(s) == Show(hw)
  {
    LowerDigit(s[0]);
    LowerDigit(s[1]);
    PairDigits(s[0], s[1]);
    if |s| == 2 {
      LowerPair(s);
    } else {
      LowerDigit(s[2]);
      LowerThree(s, ToLower(s));
      var rest := ParsePairs(s[3..], ':').value;
      PairsAreShown(s[3..], rest);
      assert hw[1..] == rest && rest != [];
    }
  }

  lemma PairDigits(high: char, low: char)
    requires HexPair(high, low).Some?
    ensures var o := HexPair(high, low).value; o / 16 == HexValue(high) && o % 16 == HexValue(low)
  {
  }

  /** DHCP's search finds a stored text by a hardware address exactly if it is that MAC, spelled with colons. */
  lemma FoundSpellings(s: string, hw: Bytes)
    requires IsLength(|hw|)
    ensures ToLower(s) == Show(hw) <==> |s| > 2 && s[2] == ':' && ParseMAC(s) == Some(hw)
  {
    LowerLength(s);
    PairsOfShow(hw);
    if ToLower(s) == Show(hw) {
      LowerParses(s);
      LowerThree(s, ToLower(s));
      LowerDigit(s[2]);
      PairsAreMAC(s, ':', hw, |hw|);
    }
    if |s| > 2 && s[2] == ':' && ParseMAC(s) == Some(hw) {
      PairsAreShown(s, hw);
    }
  }

  lemma ShowIsLower(hw: Bytes)
    requires IsLength(|hw|)
    ensures ToLower(Show(hw)) == Show(hw)
  {
    PairsOfShow(hw);
    PairsAreShown(Show(hw), hw);
  }

  /**
   UpdateHost stores the MAC of its form as it is spelled. The row is found by the hardware address of
   its client, no earlier row having it, exactly if the form gives that MAC with colons.
   */
  lemma UpdatedHostIsFoundExactly(t: Table, id: nat, form: Host, hw: Bytes)
    requires id in t.rows && id < t.next && form.mac != "" && IsLength(|hw|)
    requires IndexAllows(t, id, Merge(t.rows[id], form))
    requires forall other :: other in t.rows && other < id ==> ToLower(t.rows[other].mac) != Show(hw)
    ensures FirstByMAC(Perform(t, Update(id, form)), Show(hw), 0) == Some(id) <==>
      |form.mac| > 2 && form.mac[2] == ':' && ParseMAC(form.mac) == Some(hw)
  {
    var t' := Perform(t, Update(id, form));
    FoundSpellings(form.mac, hw);
    ShowIsLower(hw);
    assert t'.rows[id].mac == form.mac;
    if ToLower(form.mac) == Show(hw) {
      RowIsFound(t', id, Show(hw), 0);
    }
  }

  /** The input: a MAC with dashes, which CreateHost would have stored with colons, hides the row. */
  lemma DashedMACIsNotFound() returns (s: string, hw: Bytes)
    ensures s == "52-54-00-00-00-01" && hw == [0x52, 0x54, 0, 0, 0, 1]
    ensures ParseMAC(s) == Some(hw) && ToLower(s) != Show(hw) && ToLower(Normal(s)) == Show(hw)
  {
    s, hw := "52-54-00-00-00-01", [0x52, 0x54, 0, 0, 0, 1];
    DashedIsRead(s, hw);
    FoundSpellings(s, hw);
    ShowIsLower(hw);
  }

  lemma DashedPair(high: char, low: char, s: string, hw: Bytes, more: Bytes) returns (all: string)
    requires HexPair(high, low).Some? && ParsePairs(s, '-') == Some(hw) && more == [HexPair(high, low).value] + hw
    ensures all == [high, low, '-'] + s && ParsePairs(all, '-') == Some(more)
  {
    all := [high, low, '-'] + s;
    assert all[3..] == s && s != [];
  }

  lemma DashedTail() returns (tail: string)
    ensures tail == "00-00-00-01" && ParsePairs(tail, '-') == Some([0, 0, 0, 1])
  {
    tail := ['0', '1'];
    assert ParsePairs(tail, '-') == Some([1]);
    tail := DashedPair('0', '0', tail, [1], [0, 1]);
    tail := DashedPair('0', '0', tail, [0, 1], [0, 0, 1]);
    tail := DashedPair('0', '0', tail, [0, 0, 1], [0, 0, 0, 1]);
  }

  lemma DashedLast() returns (tail: string)
    ensures tail == "54-00-00-00-01" && ParsePairs(tail, '-') == Some([0x54, 0, 0, 0, 1])
  {
    var last := DashedTail();
    tail := DashedPair('5', '4', last, [0, 0, 0, 1], [0x54, 0, 0, 0, 1]);
  }

  lemma DashedIsRead(s: string, hw: Bytes)
    requires s == "52-54-00-00-00-01" && hw == [0x52, 0x54, 0, 0, 0, 1]
    ensures ParseMAC(s) == Some(hw)
  {
    DashedPairs(s, hw);
    PairsAreMAC(s, '-', hw, 6);
  }

  lemma DashedPairs(s: string, hw: Bytes)
    requires s == "52-54-00-00-00-01" && hw == [0x52, 0x54, 0, 0, 0, 1]
    ensures ParsePairs(s, '-') == Some(hw)
  {
    var last := DashedLast();
    var all := DashedPair('5', '2', last, [0x54, 0, 0, 0, 1], hw);
    assert s == all;
  }

  lemma ShownFirst(o: Octet, rest: Bytes, hw: Bytes)
    requires rest != [] && hw == [o] + rest
    ensures Show(hw) == [HexDigit(o / 16), HexDigit(o % 16)] + ":" + Show(rest)
  {
    assert hw[1..] == rest;
  }

  lemma ShownTail(last: Octet) returns (hw: Bytes)
    requires last < 10
    ensures hw == [0, 0, 0, last] && Show(hw) == "00:00:00:0" + [HexDigit(last)]
  {
    hw := [0, 0, 0, last];
    ShownFirst(0, [last], [0, last]);
    ShownFirst(0, [0, last], [0, 0, last]);
    ShownFirst(0, [0, 0, last], hw);
    assert Show([last]) == "0" + [HexDigit(last)];
  }

  /** The texts of TwoClientsShareAnAddress are what hardware addresses print as. */
  lemma ShownMACs(last: Octet) returns (hw: Bytes)
    requires last < 10
    ensures hw == [0x52, 0x54, 0, 0, 0, last] && Show(hw) == "52:54:00:00:00:0" + [HexDigit(last)]
  {
    var tail := ShownTail(last);
    hw := [0x52, 0x54] + tail;
    ShownFirst(0x54, tail, [0x54] + tail);
    ShownFirst(0x52, [0x54] + tail, hw);
  }
}
