/**
 Addresses over whole runs of the hosts table. The unique index is on address and flag together, so
 in one state a flagged row keeps its address to itself, but a row that has lost its flag does not.
 */
module Reassignment {
  import opened Wrappers
  import opened Ipv4
  import opened DottedQuad
  import opened IPText
  import opened HostTable

  /** The row still is what gave the client its address. */
  predicate Holds(t: Table, id: nat, host: Host) {
    id in t.rows && t.rows[id].ip == host.ip && t.rows[id].mac == host.mac && t.rows[id].reimage
  }

  /**
   The step takes that away from a row: a kickstart fetch that clears the flag, a delete, or a save that
   the index allows and that changes the row's address, MAC or flag.
   */
  predicate Releases(s: State, step: Step, id: nat) {
    match step
    case Clear(_, _) => Kickstarts(s, step, id)
    case Remove(i) => i == id
    case SaveForm(handler, form) =>
      && handler in s.copies && s.copies[handler].id == id
      && Rewrites(s.table, id, Merge(s.copies[handler].host, form))
    case SaveProgress(handler, progress) =>
      && handler in s.copies && s.copies[handler].id == id
      && Rewrites(s.table, id, s.copies[handler].host.(progress := progress))
    case _ => false
  }

  predicate Rewrites(t: Table, id: nat, host: Host) {
    && id in t.rows && IndexAllows(t, id, host)
    && (t.rows[id].ip != host.ip || t.rows[id].mac != host.mac || t.rows[id].reimage != host.reimage)
  }

  lemma ReleasesExactly(s: State, step: Step, id: nat, host: Host)
    requires KeysBelowNext(s) && Holds(s.table, id, host)
    ensures Releases(s, step, id) <==> !Holds(Next(s, step).table, id, host)
  {
  }

  /** A row that no longer is what it was has been released at some step in between. */
  lemma {:induction false} ReleasedAt(first: seq<Step>, steps: seq<Step>, id: nat, host: Host) returns (i: nat)
    requires first <= steps && Holds(Run(first).table, id, host) && !Holds(Run(steps).table, id, host)
    ensures |first| <= i < |steps| && Holds(Run(steps[..i]).table, id, host) && Releases(Run(steps[..i]), steps[i], id)
  {
    assert |first| == |steps| ==> first == steps;
    var n := |steps| - 1;
    var before := steps[..n];
    if Holds(Run(before).table, id, host) {
      i := n;
      TableStaysUnique(before);
      ReleasesExactly(Run(before), steps[n], id, host);
    } else {
      i := ReleasedAt(first, before, id, host);
      assert before[..i] == steps[..i] && before[i] == steps[i];
    }
  }

  /** While the first client's row is what it was, its address is no other client's. */
  lemma HolderKeepsAddress(t: Table, id: nat, host: Host, mac: string)
    requires UniqueRows(t) && Holds(t, id, host) && FindHostByMAC(t, mac).Flagged? && SpellingFor(t, mac) == host.ip
    ensures ToLower(mac) == ToLower(host.mac)
  {
    assert FindHostByMAC(t, mac).id == id;
  }

  /**
   Over a whole run: an address given to one MAC is given to another one later only if the first MAC's
   row has in the meantime lost its flag to a kickstart fetch, been removed, or lost its address, MAC or
   flag to a save that the index allowed. (Both rows holding dotted quads.)
   */
  lemma LaterOwnerNeedsRelease(first: seq<Step>, steps: seq<Step>, mac: string, mac': string) returns (i: nat)
    requires first <= steps && ToLower(mac) != ToLower(mac')
    requires AddressFor(Run(first).table, mac).Some?
    requires AddressFor(Run(first).table, mac) == AddressFor(Run(steps).table, mac')
    requires HoldsQuad(Run(first).table, mac) && HoldsQuad(Run(steps).table, mac')
    ensures |first| <= i < |steps| && Releases(Run(steps[..i]), steps[i], FindHostByMAC(Run(first).table, mac).id)
  {
    var found := FindHostByMAC(Run(first).table, mac);
    TableStaysUnique(steps);
    QuadHasOneSpelling(SpellingFor(Run(first).table, mac), SpellingFor(Run(steps).table, mac'));
    if Holds(Run(steps).table, found.id, found.host) {
      HolderKeepsAddress(Run(steps).table, found.id, found.host, mac');
    }
    i := ReleasedAt(first, steps, found.id, found.host);
  }

  /**
   And once no flagged row holds it, it is handed out again: a new flagged row gets its address for its
   client, who has no row yet, exactly if no flagged row holds the same text.
   */
  lemma InsertGetsAddressExactly(steps: seq<Step>, host: Host)
    requires host.reimage && ParseIP(host.ip).Some?
    requires var t := Run(steps).table; forall id :: id in t.rows ==> ToLower(t.rows[id].mac) != ToLower(host.mac)
    ensures AddressFor(Run(steps + [Insert(host)]).table, host.mac) == ParseIP(host.ip) <==>
      var t := Run(steps).table; forall id :: id in t.rows ==> !(t.rows[id].ip == host.ip && t.rows[id].reimage)
  {
    TableStaysUnique(steps);
    RunAppends(steps, Insert(host));
    NewRowIsFound(Run(steps), host);
  }

  lemma NewRowIsFound(s: State, host: Host)
    requires KeysBelowNext(s) && host.reimage
    requires forall id :: id in s.table.rows ==> ToLower(s.table.rows[id].mac) != ToLower(host.mac)
    ensures FindHostByMAC(Next(s, Insert(host)).table, host.mac) ==
      if IndexAllows(s.table, s.table.next, host) then Flagged(s.table.next, host) else NoRow
  {
    var t := Next(s, Insert(host)).table;
    if IndexAllows(s.table, s.table.next, host) {
      RowIsFound(t, s.table.next, host.mac, 0);
    } else {
      assert FirstByMAC(t, host.mac, 0) == None;
    }
  }

  /**
   The run: a first host is given an address and fetches its kickstart file; a second one, created with
   the same address and armed, is given it too, while the first one's row still holds it.
   */
  lemma AddressPassesOn(a: Addr, first: Host, second: Host) returns (steps: seq<Step>)
    requires first.ip == second.ip == Format(a) && first.reimage && second.reimage
    requires ToLower(first.mac) != ToLower(second.mac)
    ensures steps == [Insert(first), Load(0, 1), Clear(0, first.ip), Insert(second)]
    ensures AddressFor(Run(steps[..1]).table, first.mac) == Some(Mapped(a))
    ensures AddressFor(Run(steps).table, second.mac) == Some(Mapped(a))
    ensures Run(steps).table.rows == map[1 := first.(reimage := false), 2 := second]
  {
    var fetched := FetchedAlone(first);
    steps := fetched + [Insert(second)];
    assert steps[..1] == [] + [Insert(first)];
    InsertIsServed([], Init(), first, a);
    InsertIsServed(fetched, Run(fetched), second, a);
  }

  lemma InsertIsServed(steps: seq<Step>, s: State, host: Host, a: Addr)
    requires s == Run(steps) && host.reimage && host.ip == Format(a) && IndexAllows(s.table, s.table.next, host)
    requires forall id :: id in s.table.rows ==> ToLower(s.table.rows[id].mac) != ToLower(host.mac)
    ensures Run(steps + [Insert(host)]).table == Table(s.table.rows[s.table.next := host], s.table.next + 1)
    ensures AddressFor(Run(steps + [Insert(host)]).table, host.mac) == Some(Mapped(a))
  {
    QuadIsRead(a);
    TableStaysUnique(steps);
    RunAppends(steps, Insert(host));
    NewRowIsFound(s, host);
  }

  lemma FetchedAlone(host: Host) returns (steps: seq<Step>)
    requires host.reimage
    ensures steps == [Insert(host), Load(0, 1), Clear(0, host.ip)]
    ensures Run(steps).table == Table(map[1 := host.(reimage := false)], 2) && KeysBelowNext(Run(steps))
  {
    var inserted := State(Table(map[1 := host], 2), map[]);
    RunAppends([], Insert(host));
    assert [] + [Insert(host)] == [Insert(host)] && Run([Insert(host)]) == inserted;
    RunTwo([Insert(host)], Load(0, 1), Clear(0, host.ip));
    steps := [Insert(host)] + [Load(0, 1), Clear(0, host.ip)];
    assert Next(inserted, Load(0, 1)) == State(inserted.table, map[0 := Copy(1, host)]);
    assert map[1 := host][1 := host.(reimage := false)] == map[1 := host.(reimage := false)];
    TableStaysUnique(steps);
  }
}
