/**
 The hosts table and the handlers that write it: internal/api/hosts.go, internal/api/ks.go, the
 boot handlers of internal/server/uefi.go and internal/tftp/tftp.go, internal/api/postconfig.go.

 A handler reads a row into a record of its own and saves that whole record later, so between
 the two others may have written the row. Each database access is one step; the unique index
 on (ip, reimage) may refuse a write, which then changes nothing.
 */
module HostTable {
  import opened Wrappers
  import opened Text
  import opened Ipv4
  import opened DottedQuad
  import opened IPText

  datatype Host = Host(ip: string, mac: string, reimage: bool, group: nat, progress: int)

  /** The rows by primary key, and the key the next insert gets. */
  datatype Table = Table(rows: map<nat, Host>, next: nat)

  /** A handler's own copy of a row. */
  datatype Copy = Copy(id: nat, host: Host)

  datatype State = State(table: Table, copies: map<nat, Copy>)

  datatype Step =
    | Insert(host: Host)                             // CreateHost, the checks passed
    | Load(handler: nat, id: nat)                    // any handler's read; it ends there if the row is gone
    | SaveForm(handler: nat, form: Host)             // UpdateHost: merge the form into the copy, save the whole record
    | SaveProgress(handler: nat, progress: int)      // boot handlers, post-configuration, the end of Ks
    | Clear(handler: nat, ip: string)                // Ks: reimage = false if this id has this ip; ends if refused
    | Remove(id: nat)                                // DeleteHost

  function Init(): State {
    State(Table(map[], 1), map[])
  }

  // ---------- one access ----------

  /** No other row has the address and flag that the record would take. */
  predicate IndexAllows(t: Table, id: nat, host: Host) {
    forall other :: other in t.rows && other != id ==>
      !(t.rows[other].ip == host.ip && t.rows[other].reimage == host.reimage)
  }

  /** gorm's Save: update the row of this key, or insert it should it be gone. */
  function Save(t: Table, id: nat, host: Host): Table {
    if IndexAllows(t, id, host) then t.(rows := t.rows[id := host]) else t
  }

  /**
   mergo.Merge with override: an empty field of the form keeps the record's; the flag and the progress
   are always the form's.
   */
  function Merge(host: Host, form: Host): Host {
    Host(
      if form.ip != "" then form.ip else host.ip,
      if form.mac != "" then form.mac else host.mac,
      form.reimage,
      if form.group != 0 then form.group else host.group,
      form.progress)
  }

  function Next(s: State, step: Step): State {
    match step
    case Insert(host) =>
      var saved := Save(s.table, s.table.next, host);
      if IndexAllows(s.table, s.table.next, host) then s.(table := saved.(next := s.table.next + 1)) else s
    case Load(handler, id) =>
      if id in s.table.rows then s.(copies := s.copies[handler := Copy(id, s.table.rows[id])])
      else s.(copies := s.copies - {handler})
    case SaveForm(handler, form) =>
      if handler !in s.copies then s
      else
        var copy := s.copies[handler];
        var merged := Merge(copy.host, form);
        State(Save(s.table, copy.id, merged), s.copies[handler := Copy(copy.id, merged)])
    case SaveProgress(handler, progress) =>
      if handler !in s.copies then s
      else
        var copy := s.copies[handler];
        var host := copy.host.(progress := progress);
        State(Save(s.table, copy.id, host), s.copies[handler := Copy(copy.id, host)])
    case Clear(handler, ip) =>
      if handler !in s.copies then s
      else
        var id := s.copies[handler].id;
        if id !in s.table.rows || s.table.rows[id].ip != ip then
          s.(copies := s.copies[handler := Copy(id, s.copies[handler].host.(reimage := false))])
        else if IndexAllows(s.table, id, s.table.rows[id].(reimage := false)) then
          State(Save(s.table, id, s.table.rows[id].(reimage := false)),
                s.copies[handler := Copy(id, s.copies[handler].host.(reimage := false))])
        else s.(copies := s.copies - {handler})
    case Remove(id) => s.(table := s.table.(rows := s.table.rows - {id}))
  }

  function Run(steps: seq<Step>): State {
    if steps == [] then Init() else Next(Run(steps[..|steps| - 1]), steps[|steps| - 1])
  }

  // ---------- what every interleaving keeps ----------

  ghost predicate UniqueRows(t: Table) {
    forall i, j :: i in t.rows && j in t.rows && i != j ==>
      !(t.rows[i].ip == t.rows[j].ip && t.rows[i].reimage == t.rows[j].reimage)
  }

  ghost predicate KeysBelowNext(s: State) {
    && (forall id :: id in s.table.rows ==> id < s.table.next)
    && (forall h :: h in s.copies ==> s.copies[h].id < s.table.next)
  }

  lemma SaveKeepsUnique(t: Table, id: nat, host: Host)
    requires UniqueRows(t)
    ensures UniqueRows(Save(t, id, host))
  {
  }

  lemma StepKeepsUnique(s: State, step: Step)
    requires UniqueRows(s.table) && KeysBelowNext(s)
    ensures UniqueRows(Next(s, step).table) && KeysBelowNext(Next(s, step))
  {
    match step
    case Insert(host) => SaveKeepsUnique(s.table, s.table.next, host);
    case SaveForm(handler, form) =>
      if handler in s.copies {
        SaveKeepsUnique(s.table, s.copies[handler].id, Merge(s.copies[handler].host, form));
      }
    case SaveProgress(handler, progress) =>
      if handler in s.copies {
        SaveKeepsUnique(s.table, s.copies[handler].id, s.copies[handler].host.(progress := progress));
      }
    case Clear(handler, _) =>
      if handler in s.copies && s.copies[handler].id in s.table.rows {
        var id := s.copies[handler].id;
        SaveKeepsUnique(s.table, id, s.table.rows[id].(reimage := false));
      }
    case _ =>
  }

  /** The index on (ip, reimage) holds in every state that the handlers can reach. */
  lemma {:induction false} TableStaysUnique(steps: seq<Step>)
    ensures UniqueRows(Run(steps).table) && KeysBelowNext(Run(steps))
  {
    if steps != [] {
      TableStaysUnique(steps[..|steps| - 1]);
      StepKeepsUnique(Run(steps[..|steps| - 1]), steps[|steps| - 1]);
    }
  }

  // ---------- dhcpd.go's findHostByMAC ----------

  function Lower(c: char): char {
    if 'A' <= c <= 'Z' then c - 'A' + 'a' else c
  }

  function ToLower(s: string): (r: string) {
    if s == [] then [] else [Lower(s[0])] + ToLower(s[1..])
  }

  /** The row of the lowest key from `from` on whose MAC matches, whatever its case. */
  function FirstByMAC(t: Table, mac: string, from: nat): (r: Option<nat>)
    ensures r.Some? ==> from <= r.value < t.next && r.value in t.rows && ToLower(t.rows[r.value].mac) == ToLower(mac)
    ensures forall id :: from <= id < (if r.Some? then r.value else t.next) && id in t.rows ==>
      ToLower(t.rows[id].mac) != ToLower(mac)
    decreases t.next - from
  {
    if from >= t.next then None
    else if from in t.rows && ToLower(t.rows[from].mac) == ToLower(mac) then Some(from)
    else FirstByMAC(t, mac, from + 1)
  }

  /** A row is found by its MAC if no earlier one has it. */
  lemma {:induction false} RowIsFound(t: Table, id: nat, mac: string, from: nat)
    requires from <= id < t.next && id in t.rows && ToLower(t.rows[id].mac) == ToLower(mac)
    requires forall other :: from <= other < id && other in t.rows ==> ToLower(t.rows[other].mac) != ToLower(mac)
    ensures FirstByMAC(t, mac, from) == Some(id)
    decreases id - from
  {
    if from < id {
      RowIsFound(t, id, mac, from + 1);
    }
  }

  datatype Found = NoRow | NotFlagged | Flagged(id: nat, host: Host)

  function FindHostByMAC(t: Table, mac: string): Found {
    match FirstByMAC(t, mac, 0)
    case None => NoRow
    case Some(id) => if t.rows[id].reimage then Flagged(id, t.rows[id]) else NotFlagged
  }

  /** The only address that the server offers or acknowledges to a client: its flagged row's. */
  function AddressFor(t: Table, mac: string): Option<IP> {
    match FindHostByMAC(t, mac)
    case Flagged(_, host) => ParseIP(host.ip)
    case _ => None
  }

  /** The text of the address in the row found for the client. */
  function SpellingFor(t: Table, mac: string): string {
    match FindHostByMAC(t, mac)
    case Flagged(_, host) => host.ip
    case _ => ""
  }

  predicate HoldsQuad(t: Table, mac: string) {
    ParseIPv4(SpellingFor(t, mac)).Some?
  }

  lemma FlaggedRowsAreOne(t: Table, mac: string, mac': string)
    requires UniqueRows(t) && FindHostByMAC(t, mac).Flagged? && FindHostByMAC(t, mac').Flagged?
    ensures FindHostByMAC(t, mac).host.ip == FindHostByMAC(t, mac').host.ip <==> ToLower(mac) == ToLower(mac')
  {
    if FindHostByMAC(t, mac).host.ip == FindHostByMAC(t, mac').host.ip {
      assert FindHostByMAC(t, mac).id == FindHostByMAC(t, mac').id;
    }
    if ToLower(mac) == ToLower(mac') {
      SameSearch(t, mac, mac', 0);
    }
  }

  lemma {:induction false} SameSearch(t: Table, mac: string, mac': string, from: nat)
    requires ToLower(mac) == ToLower(mac')
    ensures FirstByMAC(t, mac, from) == FirstByMAC(t, mac', from)
    decreases t.next - from
  {
    if from < t.next {
      SameSearch(t, mac, mac', from + 1);
    }
  }

  /**
   In every state that any interleaving of inserts, updates, deletes and stale saves can reach, two
   clients that are given one address have different MACs exactly if their rows spell it differently:
   the unique index compares texts.
   */
  lemma SharedAddressExactly(steps: seq<Step>, mac: string, mac': string)
    requires var t := Run(steps).table; AddressFor(t, mac).Some? && AddressFor(t, mac) == AddressFor(t, mac')
    ensures var t := Run(steps).table;
      ToLower(mac) != ToLower(mac') <==> SpellingFor(t, mac) != SpellingFor(t, mac')
  {
    TableStaysUnique(steps);
    FlaggedRowsAreOne(Run(steps).table, mac, mac');
  }

  /** So in one state no two MACs are given one address if the rows found hold dotted quads. */
  lemma NoDoubleAssignment(steps: seq<Step>, mac: string, mac': string)
    requires var t := Run(steps).table;
      && AddressFor(t, mac).Some? && AddressFor(t, mac) == AddressFor(t, mac')
      && HoldsQuad(t, mac) && HoldsQuad(t, mac')
    ensures ToLower(mac) == ToLower(mac')
  {
    var t := Run(steps).table;
    SharedAddressExactly(steps, mac, mac');
    QuadHasOneSpelling(SpellingFor(t, mac), SpellingFor(t, mac'));
  }

  lemma QuadHasOneSpelling(s: string, s': string)
    requires ParseIPv4(s).Some? && ParseIPv4(s').Some? && ParseIP(s) == ParseIP(s')
    ensures s == s'
  {
    var a, a' := ParseIPv4(s).value, ParseIPv4(s').value;
    QuadIsItsText(s, a);
    QuadIsItsText(s', a');
    QuadIsRead(a);
    QuadIsRead(a');
    assert To4(Mapped(a)) == Some(a) && To4(Mapped(a')) == Some(a');
  }

  // ---------- the re-image gate ----------

  predicate IsFlagged(s: State, id: nat) {
    id in s.table.rows && s.table.rows[id].reimage
  }

  /** The step is a create or update that writes the row and sets the flag as given. */
  predicate WritesFlag(s: State, step: Step, id: nat, reimage: bool) {
    match step
    case Insert(host) => id == s.table.next && IndexAllows(s.table, id, host) && host.reimage == reimage
    case SaveForm(handler, form) =>
      && handler in s.copies && s.copies[handler].id == id
      && IndexAllows(s.table, id, Merge(s.copies[handler].host, form)) && form.reimage == reimage
    case _ => false
  }

  /** A kickstart fetch passes its flag update on the row. */
  predicate Kickstarts(s: State, step: Step, id: nat) {
    && step.Clear? && step.handler in s.copies && s.copies[step.handler].id == id
    && id in s.table.rows && s.table.rows[id].ip == step.ip
    && IndexAllows(s.table, id, s.table.rows[id].(reimage := false))
  }

  predicate Disarms(s: State, step: Step, id: nat) {
    WritesFlag(s, step, id, false) || Kickstarts(s, step, id) || step == Remove(id)
  }

  /** A create or update armed the row at some step of the run, and no step since has disarmed it. */
  ghost predicate Armed(steps: seq<Step>, id: nat) {
    steps != [] &&
    var before, step := steps[..|steps| - 1], steps[|steps| - 1];
    WritesFlag(Run(before), step, id, true) || (Armed(before, id) && !Disarms(Run(before), step, id))
  }

  /** A progress save that writes the row with a flag it no longer has. */
  predicate StaleSave(s: State, step: Step, id: nat) {
    && step.SaveProgress? && step.handler in s.copies
    && var copy := s.copies[step.handler];
    && copy.id == id && IndexAllows(s.table, id, copy.host.(progress := step.progress))
    && copy.host.reimage != IsFlagged(s, id)
  }

  ghost predicate NoStaleSave(steps: seq<Step>, id: nat) {
    steps == [] ||
    var before, step := steps[..|steps| - 1], steps[|steps| - 1];
    NoStaleSave(before, id) && !StaleSave(Run(before), step, id)
  }

  ghost predicate GateHolds(steps: seq<Step>, id: nat) {
    && (IsFlagged(Run(steps), id) <==> Armed(steps, id))
    && (steps == [] || GateHolds(steps[..|steps| - 1], id))
  }

  /** How one step changes a row's flag. */
  lemma FlagStep(s: State, step: Step, id: nat)
    requires KeysBelowNext(s)
    ensures IsFlagged(Next(s, step), id) ==
      if WritesFlag(s, step, id, true) then true
      else if Disarms(s, step, id) then false
      else if StaleSave(s, step, id) then !IsFlagged(s, id)
      else IsFlagged(s, id)
    ensures !(WritesFlag(s, step, id, true) && Disarms(s, step, id))
  {
  }

  /**
   The row is flagged exactly while it is armed, at every point of a run, just in case the run has no
   stale save on it.
   */
  lemma {:induction false} GateHoldsExactly(steps: seq<Step>, id: nat)
    ensures GateHolds(steps, id) <==> NoStaleSave(steps, id)
  {
    if steps != [] {
      var before, step := steps[..|steps| - 1], steps[|steps| - 1];
      TableStaysUnique(before);
      GateHoldsExactly(before, id);
      FlagStep(Run(before), step, id);
    }
  }

  /** What armed means, step by step. */
  lemma {:induction false} ArmedSince(steps: seq<Step>, id: nat) returns (i: nat)
    requires Armed(steps, id)
    ensures i < |steps| && WritesFlag(Run(steps[..i]), steps[i], id, true)
    ensures forall j :: i < j < |steps| ==> !Disarms(Run(steps[..j]), steps[j], id)
  {
    var n := |steps| - 1;
    var before := steps[..n];
    if WritesFlag(Run(before), steps[n], id, true) {
      i := n;
    } else {
      i := ArmedSince(before, id);
      assert before[..i] == steps[..i];
      forall j | i < j < |steps| ensures !Disarms(Run(steps[..j]), steps[j], id) {
        if j < n {
          assert before[j] == steps[j] && before[..j] == steps[..j];
        }
      }
    }
  }

  lemma RunAppends(steps: seq<Step>, step: Step)
    ensures Run(steps + [step]) == Next(Run(steps), step)
  {
    assert (steps + [step])[..|steps|] == steps;
  }

  lemma Appending(steps: seq<Step>, step: Step, id: nat)
    ensures Run(steps + [step]) == Next(Run(steps), step)
    ensures NoStaleSave(steps + [step], id) <==> NoStaleSave(steps, id) && !StaleSave(Run(steps), step, id)
    ensures Armed(steps + [step], id) <==>
      WritesFlag(Run(steps), step, id, true) || (Armed(steps, id) && !Disarms(Run(steps), step, id))
  {
    assert (steps + [step])[..|steps|] == steps;
  }

  /**
   A boot handler that read the row before a kickstart fetch and saves its record after it
   flags the row again, although nobody armed it.
   */
  lemma StaleSaveRearms(host: Host)
    requires host.reimage
    ensures var steps := [Insert(host), Load(1, 1), Load(2, 1), Clear(2, host.ip), SaveProgress(1, 30)];
      IsFlagged(Run(steps), 1) && !Armed(steps, 1)
  {
    var s3 := BothHaveRead(host);
    var clear, save := Clear(2, host.ip), SaveProgress(1, 30);
    Appending(s3, clear, 1);
    assert Kickstarts(Run(s3), clear, 1);
    Appending(s3 + [clear], save, 1);
    assert s3 + [clear] + [save] == [Insert(host), Load(1, 1), Load(2, 1), clear, save];
  }

  lemma BothHaveRead(host: Host) returns (steps: seq<Step>)
    ensures steps == [Insert(host), Load(1, 1), Load(2, 1)]
    ensures Run(steps) == State(Table(map[1 := host], 2), map[1 := Copy(1, host), 2 := Copy(1, host)])
  {
    RunAppends([], Insert(host));
    RunAppends([Insert(host)], Load(1, 1));
    steps := [Insert(host), Load(1, 1)];
    RunAppends(steps, Load(2, 1));
    assert [] + [Insert(host)] == [Insert(host)] && [Insert(host)] + [Load(1, 1)] == steps;
    steps := steps + [Load(2, 1)];
  }

  // ---------- handlers that run one at a time ----------

  datatype Call =
    | Create(host: Host)
    | Update(id: nat, form: Host)
    | Boot(id: nat, progress: int)
    | Kickstart(ip: string, finish: Option<int>)  // None if it stops before it saves the progress
    | Delete(id: nat)

  /** The row of the lowest key from `from` on that has the address, or else the next key. */
  function FirstByIP(t: Table, ip: string, from: nat): (id: nat)
    requires from <= t.next
    ensures from <= id <= t.next
    ensures id < t.next ==> id in t.rows && t.rows[id].ip == ip
    ensures forall other :: from <= other < id && other in t.rows ==> t.rows[other].ip != ip
    decreases t.next - from
  {
    if from == t.next then from
    else if from in t.rows && t.rows[from].ip == ip then from
    else FirstByIP(t, ip, from + 1)
  }

  function Finish(progress: Option<int>): seq<Step> {
    match progress
    case None => []
    case Some(p) => [SaveProgress(0, p)]
  }

  /** The accesses of one handler, in order. */
  function Accesses(t: Table, call: Call): seq<Step> {
    match call
    case Create(host) => [Insert(host)]
    case Update(id, form) => [Load(0, id), SaveForm(0, form)]
    case Boot(id, progress) => [Load(0, id), SaveProgress(0, progress)]
    case Kickstart(ip, progress) => [Load(0, FirstByIP(t, ip, 0)), Clear(0, ip)] + Finish(progress)
    case Delete(id) => [Remove(id)]
  }

  function StepsOf(calls: seq<Call>): seq<Step> {
    if calls == [] then []
    else
      var before := StepsOf(calls[..|calls| - 1]);
      before + Accesses(Run(before).table, calls[|calls| - 1])
  }

  /** Two accesses of one handler, one right after the other. */
  lemma AppendTwo(steps: seq<Step>, a: Step, b: Step, id: nat)
    ensures Run(steps + [a, b]) == Next(Next(Run(steps), a), b)
    ensures NoStaleSave(steps, id) && !StaleSave(Run(steps), a, id) && !StaleSave(Next(Run(steps), a), b, id) ==>
      NoStaleSave(steps + [a, b], id)
    ensures
      && !Armed(steps, id) && !WritesFlag(Run(steps), a, id, true)
      && !WritesFlag(Next(Run(steps), a), b, id, true) ==>
      !Armed(steps + [a, b], id)
  {
    Appending(steps, a, id);
    Appending(steps + [a], b, id);
    assert steps + [a] + [b] == steps + [a, b];
  }

  /** And three. */
  lemma AppendThree(steps: seq<Step>, a: Step, b: Step, c: Step, id: nat)
    ensures Run(steps + [a, b, c]) == Next(Next(Next(Run(steps), a), b), c)
    ensures NoStaleSave(steps + [a, b], id) && !StaleSave(Next(Next(Run(steps), a), b), c, id) ==>
      NoStaleSave(steps + [a, b, c], id)
    ensures !Armed(steps + [a, b], id) && !WritesFlag(Next(Next(Run(steps), a), b), c, id, true) ==>
      !Armed(steps + [a, b, c], id)
  {
    AppendTwo(steps, a, b, id);
    Appending(steps + [a, b], c, id);
    assert steps + [a, b] + [c] == steps + [a, b, c];
  }

  /** A handler that writes back what it has just read writes no outdated flag. */
  lemma PairIsFresh(steps: seq<Step>, a: Step, b: Step, id: nat)
    requires NoStaleSave(steps, id) && KeysBelowNext(Run(steps))
    requires a.Load? && a.handler == 0 && (b.SaveForm? || b.SaveProgress?) && b.handler == 0
    ensures NoStaleSave(steps + [a, b], id)
  {
    AppendTwo(steps, a, b, id);
    LoadIsFresh(Run(steps), a, b, id);
  }

  lemma LoadIsFresh(s: State, a: Step, b: Step, id: nat)
    requires KeysBelowNext(s)
    requires a.Load? && a.handler == 0 && (b.SaveForm? || b.SaveProgress?) && b.handler == 0
    ensures !StaleSave(s, a, id) && !StaleSave(Next(s, a), b, id)
  {
  }

  lemma FetchIsFresh(s: State, ip: string, p: int, id: nat)
    requires KeysBelowNext(s)
    ensures var a, b := Load(0, FirstByIP(s.table, ip, 0)), Clear(0, ip);
      !StaleSave(s, a, id) && !StaleSave(Next(s, a), b, id) && !StaleSave(Next(Next(s, a), b), SaveProgress(0, p), id)
  {
  }

  /** The accesses of a kickstart fetch. */
  lemma FetchAccesses(t: Table, ip: string, finish: Option<int>)
    ensures var a, b := Load(0, FirstByIP(t, ip, 0)), Clear(0, ip);
      Accesses(t, Kickstart(ip, finish)) == if finish.None? then [a, b] else [a, b, SaveProgress(0, finish.value)]
  {
    var a, b := Load(0, FirstByIP(t, ip, 0)), Clear(0, ip);
    assert [a, b] + [] == [a, b];
    assert finish.Some? ==> [a, b] + [SaveProgress(0, finish.value)] == [a, b, SaveProgress(0, finish.value)];
  }

  lemma KickstartIsFresh(steps: seq<Step>, ip: string, finish: Option<int>, id: nat)
    requires NoStaleSave(steps, id) && KeysBelowNext(Run(steps))
    ensures NoStaleSave(steps + Accesses(Run(steps).table, Kickstart(ip, finish)), id)
  {
    var a, b := Load(0, FirstByIP(Run(steps).table, ip, 0)), Clear(0, ip);
    FetchAccesses(Run(steps).table, ip, finish);
    var p := if finish.Some? then finish.value else 0;
    FetchIsFresh(Run(steps), ip, p, id);
    AppendTwo(steps, a, b, id);
    AppendThree(steps, a, b, SaveProgress(0, p), id);
  }

  /** Handlers that do not overlap never save a stale record. */
  lemma {:induction false} WholeHandlersAreFresh(calls: seq<Call>, id: nat)
    ensures NoStaleSave(StepsOf(calls), id)
  {
    if calls != [] {
      var before, call := calls[..|calls| - 1], calls[|calls| - 1];
      var steps := StepsOf(before);
      WholeHandlersAreFresh(before, id);
      TableStaysUnique(steps);
      match call
      case Create(host) => Appending(steps, Insert(host), id);
      case Update(i, form) => PairIsFresh(steps, Load(0, i), SaveForm(0, form), id);
      case Boot(i, progress) => PairIsFresh(steps, Load(0, i), SaveProgress(0, progress), id);
      case Kickstart(ip, progress) => KickstartIsFresh(steps, ip, progress, id);
      case Delete(i) => Appending(steps, Remove(i), id);
    }
  }

  /**
   With handlers that do not overlap, every address that the server gives out goes to a row that a
   create or update armed and that no kickstart fetch, disarming update or delete has touched since.
   */
  lemma AnswersFollowArming(calls: seq<Call>, mac: string)
    requires AddressFor(Run(StepsOf(calls)).table, mac).Some?
    ensures Armed(StepsOf(calls), FindHostByMAC(Run(StepsOf(calls)).table, mac).id)
  {
    var id := FindHostByMAC(Run(StepsOf(calls)).table, mac).id;
    WholeHandlersAreFresh(calls, id);
    GateHoldsExactly(StepsOf(calls), id);
  }

  /** The row has the address, and no other row does. */
  ghost predicate OnlyRowAt(t: Table, id: nat, ip: string) {
    id in t.rows && t.rows[id].ip == ip && forall other :: other in t.rows && t.rows[other].ip == ip ==> other == id
  }

  /** The state when a kickstart fetch that met the state alone has passed its flag update. */
  function Fetched(s: State, ip: string): State {
    Next(Next(s, Load(0, FirstByIP(s.table, ip, 0))), Clear(0, ip))
  }

  lemma KickstartRuns(steps: seq<Step>, ip: string, finish: Option<int>)
    ensures Run(steps + Accesses(Run(steps).table, Kickstart(ip, finish))) ==
      if finish.None? then Fetched(Run(steps), ip) else Next(Fetched(Run(steps), ip), SaveProgress(0, finish.value))
  {
    var a, b := Load(0, FirstByIP(Run(steps).table, ip, 0)), Clear(0, ip);
    FetchAccesses(Run(steps).table, ip, finish);
    RunTwo(steps, a, b);
    if finish.Some? {
      RunThree(steps, a, b, SaveProgress(0, finish.value));
    }
  }

  lemma RunTwo(steps: seq<Step>, a: Step, b: Step)
    ensures Run(steps + [a, b]) == Next(Next(Run(steps), a), b)
  {
    RunAppends(steps, a);
    RunAppends(steps + [a], b);
    assert steps + [a] + [b] == steps + [a, b];
  }

  lemma RunThree(steps: seq<Step>, a: Step, b: Step, c: Step)
    ensures Run(steps + [a, b, c]) == Next(Next(Next(Run(steps), a), b), c)
  {
    RunTwo(steps, a, b);
    RunAppends(steps + [a, b], c);
    assert steps + [a, b] + [c] == steps + [a, b, c];
  }

  /**
   A kickstart fetch clears a flagged row's flag exactly if the row, and no other one, holds the text
   of the address that the fetch comes from. (Another one can only be an unflagged row; either it is
   the one found, or the index refuses to clear the flag and the handler stops.)
   */
  lemma KickstartClearsExactly(steps: seq<Step>, id: nat, ip: string, finish: Option<int>)
    requires IsFlagged(Run(steps), id)
    ensures var t := Run(steps).table;
      !IsFlagged(Run(steps + Accesses(t, Kickstart(ip, finish))), id) <==> OnlyRowAt(t, id, ip)
  {
    TableStaysUnique(steps);
    var s := Run(steps);
    KickstartRuns(steps, ip, finish);
    if s.table.rows[id].ip != ip {
      OtherTextKeepsFlag(s, id, ip);
    } else if other :| other in s.table.rows && s.table.rows[other].ip == ip && other != id {
      SharedAddressKeepsFlag(s, id, other);
    } else {
      OwnAddressLosesFlag(s, id);
    }
    FinishKeepsFlag(s, id, ip);
  }

  lemma OtherTextKeepsFlag(s: State, id: nat, ip: string)
    requires KeysBelowNext(s) && IsFlagged(s, id) && s.table.rows[id].ip != ip
    ensures IsFlagged(Fetched(s, ip), id)
  {
  }

  /**
   For a client that DHCP has given an IPv4 address: the fetch comes from that address, which Go prints
   as a dotted quad. It disarms the client's row exactly if the row holds the dotted quad, and no other
   row does.
   */
  lemma ServedClientIsClearedExactly(steps: seq<Step>, mac: string, a: Addr, finish: Option<int>)
    requires AddressFor(Run(steps).table, mac) == Some(Mapped(a))
    ensures var t := Run(steps).table;
      var id := FindHostByMAC(t, mac).id;
      !IsFlagged(Run(steps + Accesses(t, Kickstart(Format(a), finish))), id) <==> OnlyRowAt(t, id, Format(a))
  {
    KickstartClearsExactly(steps, FindHostByMAC(Run(steps).table, mac).id, Format(a), finish);
  }

  lemma TwoInserted(first: Host, second: Host) returns (steps: seq<Step>)
    requires first.ip != second.ip || first.reimage != second.reimage
    ensures steps == [Insert(first), Insert(second)]
    ensures Run(steps) == State(Table(map[1 := first, 2 := second], 3), map[])
  {
    var one := Insert(first);
    RunAppends([], one);
    assert [] + [one] == [one];
    assert Run([one]) == State(Table(map[1 := first], 2), map[]);
    RunAppends([one], Insert(second));
    steps := [one] + [Insert(second)];
  }

  /** An unflagged row may have a flagged one's address; a kickstart fetch then leaves the flag as it is. */
  lemma KickstartCanMiss(first: Host, second: Host, finish: Option<int>)
    requires first.ip == second.ip && first.reimage && !second.reimage
    ensures var steps := [Insert(first), Insert(second)];
      && IsFlagged(Run(steps), 1)
      && IsFlagged(Run(steps + Accesses(Run(steps).table, Kickstart(first.ip, finish))), 1)
  {
    var steps := TwoInserted(first, second);
    assert 2 in Run(steps).table.rows && !OnlyRowAt(Run(steps).table, 1, first.ip);
    KickstartClearsExactly(steps, 1, first.ip, finish);
  }

  lemma SharedAddressKeepsFlag(s: State, id: nat, other: nat)
    requires UniqueRows(s.table) && KeysBelowNext(s) && IsFlagged(s, id)
    requires other in s.table.rows && s.table.rows[other].ip == s.table.rows[id].ip && other != id
    ensures IsFlagged(Fetched(s, s.table.rows[id].ip), id)
  {
    assert !s.table.rows[other].reimage;
    assert !IndexAllows(s.table, id, s.table.rows[id].(reimage := false));
  }

  lemma OwnAddressLosesFlag(s: State, id: nat)
    requires UniqueRows(s.table) && KeysBelowNext(s) && IsFlagged(s, id)
    requires OnlyRowAt(s.table, id, s.table.rows[id].ip)
    ensures !IsFlagged(Fetched(s, s.table.rows[id].ip), id)
  {
    assert FirstByIP(s.table, s.table.rows[id].ip, 0) == id;
    assert IndexAllows(s.table, id, s.table.rows[id].(reimage := false));
  }

  lemma FinishKeepsFlag(s: State, id: nat, ip: string)
    requires UniqueRows(s.table) && KeysBelowNext(s) && IsFlagged(s, id)
    ensures forall p :: IsFlagged(Next(Fetched(s, ip), SaveProgress(0, p)), id) <==> IsFlagged(Fetched(s, ip), id)
  {
  }

  /** The handler is a create or update that arms the row. */
  predicate Arms(s: State, call: Call, id: nat) {
    match call
    case Create(host) => WritesFlag(s, Insert(host), id, true)
    case Update(i, form) => WritesFlag(Next(s, Load(0, i)), SaveForm(0, form), id, true)
    case _ => false
  }

  /** No handler of the run from the nth on arms the row. */
  ghost predicate NotArmedAgain(calls: seq<Call>, n: nat, id: nat) {
    |calls| <= n ||
    var before, call := calls[..|calls| - 1], calls[|calls| - 1];
    NotArmedAgain(before, n, id) && !Arms(Run(StepsOf(before)), call, id)
  }

  lemma StepsOfAppends(calls: seq<Call>, call: Call)
    ensures StepsOf(calls + [call]) == StepsOf(calls) + Accesses(Run(StepsOf(calls)).table, call)
  {
    assert (calls + [call])[..|calls|] == calls;
  }

  lemma CallKeepsUnarmed(steps: seq<Step>, call: Call, id: nat)
    requires !Armed(steps, id) && !Arms(Run(steps), call, id)
    ensures !Armed(steps + Accesses(Run(steps).table, call), id)
  {
    match call
    case Create(host) => Appending(steps, Insert(host), id);
    case Update(i, form) => AppendTwo(steps, Load(0, i), SaveForm(0, form), id);
    case Boot(i, progress) => AppendTwo(steps, Load(0, i), SaveProgress(0, progress), id);
    case Kickstart(ip, finish) => KickstartKeepsUnarmed(steps, ip, finish, id);
    case Delete(i) => Appending(steps, Remove(i), id);
  }

  lemma KickstartKeepsUnarmed(steps: seq<Step>, ip: string, finish: Option<int>, id: nat)
    requires !Armed(steps, id)
    ensures !Armed(steps + Accesses(Run(steps).table, Kickstart(ip, finish)), id)
  {
    var a, b := Load(0, FirstByIP(Run(steps).table, ip, 0)), Clear(0, ip);
    FetchAccesses(Run(steps).table, ip, finish);
    AppendTwo(steps, a, b, id);
    if finish.Some? {
      AppendThree(steps, a, b, SaveProgress(0, finish.value), id);
    }
  }

  lemma {:induction false} StaysUnarmed(first: seq<Call>, calls: seq<Call>, id: nat)
    requires first <= calls && !Armed(StepsOf(first), id) && NotArmedAgain(calls, |first|, id)
    ensures !Armed(StepsOf(calls), id)
  {
    if |calls| == |first| {
      assert calls == first;
    } else {
      var before := calls[..|calls| - 1];
      StaysUnarmed(first, before, id);
      CallKeepsUnarmed(StepsOf(before), calls[|calls| - 1], id);
    }
  }

  /** After a kickstart fetch from an address that only this row has, the row is not armed. */
  lemma KickstartDisarms(calls: seq<Call>, id: nat, ip: string, progress: Option<int>)
    requires OnlyRowAt(Run(StepsOf(calls)).table, id, ip)
    ensures !Armed(StepsOf(calls + [Kickstart(ip, progress)]), id)
  {
    var steps := StepsOf(calls);
    var fetch := Kickstart(ip, progress);
    StepsOfAppends(calls, fetch);
    if Armed(steps, id) {
      WholeHandlersAreFresh(calls, id);
      GateHoldsExactly(steps, id);
      KickstartClearsExactly(steps, id, ip, progress);
      WholeHandlersAreFresh(calls + [fetch], id);
      GateHoldsExactly(StepsOf(calls + [fetch]), id);
    } else {
      CallKeepsUnarmed(steps, fetch, id);
    }
  }

  /**
   After a kickstart fetch from a host whose address no other row has, the server gives the host
   nothing, whatever handlers run next, as long as none arms its row and no other row has its MAC.
   */
  lemma SilentUntilRearmed(first: seq<Call>, fetch: Call, calls: seq<Call>, id: nat, mac: string)
    requires fetch.Kickstart? && OnlyRowAt(Run(StepsOf(first)).table, id, fetch.ip)
    requires first + [fetch] <= calls && NotArmedAgain(calls, |first| + 1, id)
    requires var t := Run(StepsOf(calls)).table;
      forall other :: other in t.rows && ToLower(t.rows[other].mac) == ToLower(mac) ==> other == id
    ensures AddressFor(Run(StepsOf(calls)).table, mac) == None
  {
    KickstartDisarms(first, id, fetch.ip, fetch.finish);
    StaysUnarmed(first + [fetch], calls, id);
    if AddressFor(Run(StepsOf(calls)).table, mac).Some? {
      AnswersFollowArming(calls, mac);
    }
  }

  // ---------- two spellings of one address ----------

  /** Two flagged rows, and an update that takes the second one to `form`. */
  function TwoRows(first: Host, second: Host, form: Host): seq<Step> {
    [Insert(first), Insert(second), Load(0, 2), SaveForm(0, form)]
  }

  lemma TwoRowsRun(first: Host, second: Host, form: Host)
    requires second.ip != first.ip && form.ip != first.ip && form.ip != "" && form.mac != "" && form.group != 0
    ensures Run(TwoRows(first, second, form)).table == Table(map[1 := first, 2 := form], 3)
  {
    var steps := TwoInserted(first, second);
    RunTwo(steps, Load(0, 2), SaveForm(0, form));
    SecondEdited(Run(steps), first, second, form);
    assert steps + [Load(0, 2), SaveForm(0, form)] == TwoRows(first, second, form);
  }

  lemma SecondEdited(s: State, first: Host, second: Host, form: Host)
    requires s == State(Table(map[1 := first, 2 := second], 3), map[])
    requires form.ip != first.ip && form.ip != "" && form.mac != "" && form.group != 0
    ensures Next(Next(s, Load(0, 2)), SaveForm(0, form)).table == Table(map[1 := first, 2 := form], 3)
  {
    var loaded := Next(s, Load(0, 2));
    assert loaded.table == s.table && 0 in loaded.copies && loaded.copies[0] == Copy(2, second);
    assert Merge(second, form) == form && IndexAllows(s.table, 2, form);
    assert s.table.rows[2 := form] == map[1 := first, 2 := form];
  }

  lemma FoundByMAC(t: Table, first: Host, second: Host)
    requires t == Table(map[1 := first, 2 := second], 3)
    requires ToLower(first.mac) != ToLower(second.mac) && first.reimage && second.reimage
    ensures FindHostByMAC(t, first.mac) == Flagged(1, first) && FindHostByMAC(t, second.mac) == Flagged(2, second)
  {
    assert FirstByMAC(t, first.mac, 0) == FirstByMAC(t, first.mac, 1) == Some(1);
    assert FirstByMAC(t, second.mac, 0) == FirstByMAC(t, second.mac, 1) == FirstByMAC(t, second.mac, 2) == Some(2);
  }

  /**
   An update may give a second row the IPv6 spelling of the first one's address. The index lets it
   pass, and both clients are given the address.
   */
  lemma TwoSpellingsShareAnAddress(a: Addr, first: Host, second: Host, form: Host)
    requires first.ip == Format(a) && second.ip != first.ip && form.ip == MappedText(a)
    requires first.reimage && form.reimage && form.mac != "" && form.group != 0
    requires ToLower(first.mac) != ToLower(form.mac)
    ensures var t := Run(TwoRows(first, second, form)).table;
      AddressFor(t, first.mac) == Some(Mapped(a)) && AddressFor(t, form.mac) == Some(Mapped(a))
  {
    MappedIsRead(a);
    QuadIsRead(a);
    QuadIsItsText(Format(a), a);
    TwoRowsRun(first, second, form);
    FoundByMAC(Run(TwoRows(first, second, form)).table, first, form);
  }

  /** Rows of these two texts, the second one set by an update, are reachable and give both clients one address. */
  ghost predicate ShareAnAddress(ip: string, ip': string, before: string, mac: string, mac': string) {
    var t := Run(TwoRows(Host(ip, mac, true, 1, 0), Host(before, mac', true, 1, 0), Host(ip', mac', true, 1, 0))).table;
    && ToLower(mac) != ToLower(mac')
    && AddressFor(t, mac).Some? && AddressFor(t, mac) == AddressFor(t, mac')
  }

  lemma SpellingsShare(a: Addr, ip: string, ip': string, before: string, mac: string, mac': string)
    requires ip == Format(a) && ip' == MappedText(a) && before != ip && mac' != "" && ToLower(mac) != ToLower(mac')
    ensures ShareAnAddress(ip, ip', before, mac, mac')
  {
    TwoSpellingsShareAnAddress(
      a, Host(ip, mac, true, 1, 0), Host(before, mac', true, 1, 0), Host(ip', mac', true, 1, 0));
  }

  lemma {:induction false} ToLowerAt(s: string, i: nat)
    requires i < |s|
    ensures |ToLower(s)| == |s| && ToLower(s)[i] == Lower(s[i])
  {
    if i > 0 {
      ToLowerAt(s[1..], i - 1);
    } else if |s| > 1 {
      ToLowerAt(s[1..], 0);
    }
  }

  lemma LastLetterDiffers(mac: string, mac': string)
    requires mac != "" && mac' != "" && |mac| == |mac'| && Lower(mac[|mac| - 1]) != Lower(mac'[|mac'| - 1])
    ensures ToLower(mac) != ToLower(mac')
  {
    ToLowerAt(mac, |mac| - 1);
    ToLowerAt(mac', |mac'| - 1);
  }

  /** The input: 10.0.0.5 and ::ffff:10.0.0.5 are two rows and one address. */
  lemma TwoClientsShareAnAddress()
    ensures ShareAnAddress("10.0.0.5", "::ffff:10.0.0.5", "10.0.0.6", "52:54:00:00:00:01", "52:54:00:00:00:02")
  {
    var a: Addr := [10, 0, 0, 5];
    QuadText(a);
    assert MappedText(a) == "::ffff:10.0.0.5";
    LastLetterDiffers("52:54:00:00:00:01", "52:54:00:00:00:02");
    SpellingsShare(a, "10.0.0.5", "::ffff:10.0.0.5", "10.0.0.6", "52:54:00:00:00:01", "52:54:00:00:00:02");
  }

  lemma OneRowRun(host: Host, form: Host) returns (steps: seq<Step>)
    requires form.ip != "" && form.mac != "" && form.group != 0
    ensures steps == [Insert(host), Load(0, 1), SaveForm(0, form)]
    ensures Run(steps).table == Table(map[1 := form], 2)
  {
    var inserted := State(Table(map[1 := host], 2), map[]);
    var loaded := State(Table(map[1 := host], 2), map[0 := Copy(1, host)]);
    RunAppends([], Insert(host));
    assert [] + [Insert(host)] == [Insert(host)] && Run([Insert(host)]) == inserted;
    RunTwo([Insert(host)], Load(0, 1), SaveForm(0, form));
    assert Next(inserted, Load(0, 1)) == loaded;
    assert Merge(host, form) == form && map[1 := host][1 := form] == map[1 := form];
    steps := [Insert(host)] + [Load(0, 1), SaveForm(0, form)];
  }

  lemma FoundAlone(t: Table, host: Host)
    requires t == Table(map[1 := host], 2) && host.reimage
    ensures FindHostByMAC(t, host.mac) == Flagged(1, host) && OnlyRowAt(t, 1, host.ip)
  {
    assert FirstByMAC(t, host.mac, 0) == FirstByMAC(t, host.mac, 1) == Some(1);
  }

  lemma SpellingsDiffer(a: Addr)
    ensures MappedText(a) != Format(a) && MappedText(a) != "" && ParseIP(MappedText(a)) == Some(Mapped(a))
  {
    MappedIsRead(a);
    QuadIsItsText(Format(a), a);
  }

  /**
   The row of a single host may have come to hold the IPv6 spelling of its address. DHCP gives its
   client the address, the kickstart fetch comes from it as a dotted quad, and the flag stays.
   */
  lemma FetchMissesOtherSpelling(a: Addr, host: Host, form: Host, finish: Option<int>)
    requires form.ip == MappedText(a) && form.reimage && form.mac != "" && form.group != 0
    ensures var steps := [Insert(host), Load(0, 1), SaveForm(0, form)];
      var t := Run(steps).table;
      && AddressFor(t, form.mac) == Some(Mapped(a)) && OnlyRowAt(t, 1, form.ip)
      && IsFlagged(Run(steps + Accesses(t, Kickstart(Format(a), finish))), 1)
  {
    var steps := OneRowRun(host, form);
    SpellingsDiffer(a);
    FoundAlone(Run(steps).table, form);
    KickstartClearsExactly(steps, 1, Format(a), finish);
  }

  lemma QuadText(a: Addr)
    requires a == [10, 0, 0, 5]
    ensures Format(a) == "10.0.0.5"
  {
    assert Itoa(10) == Itoa(1) + "0" == "10";
    assert FormatFields(a[1..][1..][1..]) == "5" && FormatFields(a[1..][1..]) == "0.5";
    assert FormatFields(a[1..]) == "0.0.5";
  }
}
