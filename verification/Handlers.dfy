/**
 The handlers that write the hosts table, run one at a time on the table itself: CreateHost, UpdateHost
 and DeleteHost of internal/api/hosts.go, Ks of internal/api/ks.go, and the boot handlers' progress save.
 */
module HostHandlers {
  import opened Wrappers
  import opened Ipv4
  import opened HostTable
  import opened Admission
  import opened MAC

  /** What a handler that meets the table alone makes of it. */
  function Perform(t: Table, call: Call): Table {
    match call
    case Create(host) =>
      if IndexAllows(t, t.next, host) then Table(t.rows[t.next := host], t.next + 1) else t
    case Update(id, form) => if id in t.rows then Save(t, id, Merge(t.rows[id], form)) else t
    case Boot(id, progress) => if id in t.rows then Save(t, id, t.rows[id].(progress := progress)) else t
    case Kickstart(ip, finish) =>
      var id := FirstByIP(t, ip, 0);
      if id == t.next then t
      else
        var host := t.rows[id].(reimage := false);
        if !IndexAllows(t, id, host) then t
        else
          (match finish
           case None => Save(t, id, host)
           case Some(progress) => Save(t, id, host.(progress := progress)))
    case Delete(id) => t.(rows := t.rows - {id})
  }

  lemma KickstartPerforms(steps: seq<Step>, ip: string, finish: Option<int>)
    requires KeysBelowNext(Run(steps))
    ensures Run(steps + Accesses(Run(steps).table, Kickstart(ip, finish))).table ==
      Perform(Run(steps).table, Kickstart(ip, finish))
  {
    KickstartRuns(steps, ip, finish);
    KickstartOnState(Run(steps), ip, finish);
  }

  lemma KickstartOnState(s: State, ip: string, finish: Option<int>)
    requires KeysBelowNext(s)
    ensures Perform(s.table, Kickstart(ip, finish)) ==
      if finish.None? then Fetched(s, ip).table else Next(Fetched(s, ip), SaveProgress(0, finish.value)).table
  {
    var id := FirstByIP(s.table, ip, 0);
    if id < s.table.next {
      var host := s.table.rows[id].(reimage := false);
      if IndexAllows(s.table, id, host) {
        var cleared := Save(s.table, id, host);
        forall progress: int
          ensures var done := host.(progress := progress); Save(cleared, id, done) == Save(s.table, id, done)
        {
          var done := host.(progress := progress);
          assert s.table.rows[id := host][id := done] == s.table.rows[id := done];
        }
      }
    }
  }

  lemma CreatePerforms(steps: seq<Step>, host: Host)
    ensures Run(steps + Accesses(Run(steps).table, Create(host))).table == Perform(Run(steps).table, Create(host))
  {
    RunAppends(steps, Insert(host));
  }

  lemma UpdatePerforms(steps: seq<Step>, id: nat, form: Host)
    ensures Run(steps + Accesses(Run(steps).table, Update(id, form))).table ==
      Perform(Run(steps).table, Update(id, form))
  {
    RunTwo(steps, Load(0, id), SaveForm(0, form));
  }

  lemma BootPerforms(steps: seq<Step>, id: nat, progress: int)
    ensures Run(steps + Accesses(Run(steps).table, Boot(id, progress))).table ==
      Perform(Run(steps).table, Boot(id, progress))
  {
    RunTwo(steps, Load(0, id), SaveProgress(0, progress));
  }

  lemma DeletePerforms(steps: seq<Step>, id: nat)
    ensures Run(steps + Accesses(Run(steps).table, Delete(id))).table == Perform(Run(steps).table, Delete(id))
  {
    RunAppends(steps, Remove(id));
  }

  lemma CallPerforms(steps: seq<Step>, call: Call)
    requires KeysBelowNext(Run(steps))
    ensures Run(steps + Accesses(Run(steps).table, call)).table == Perform(Run(steps).table, call)
  {
    match call
    case Create(host) => CreatePerforms(steps, host);
    case Update(id, form) => UpdatePerforms(steps, id, form);
    case Boot(id, progress) => BootPerforms(steps, id, progress);
    case Kickstart(ip, finish) => KickstartPerforms(steps, ip, finish);
    case Delete(id) => DeletePerforms(steps, id);
  }

  /** The table after whole handlers, one after the other. */
  function PerformAll(calls: seq<Call>): Table {
    if calls == [] then Table(map[], 1) else Perform(PerformAll(calls[..|calls| - 1]), calls[|calls| - 1])
  }

  /** Runs of handlers on the table are the runs of accesses that the theorems about handlers speak of. */
  lemma {:induction false} PerformAllIsRun(calls: seq<Call>)
    ensures PerformAll(calls) == Run(StepsOf(calls)).table
  {
    if calls != [] {
      var before, call := calls[..|calls| - 1], calls[|calls| - 1];
      PerformAllIsRun(before);
      TableStaysUnique(StepsOf(before));
      CallPerforms(StepsOf(before), call);
    }
  }

  /**
   However the MAC of a new host's form is spelled, the DHCP server finds the row by the hardware
   address of its client, provided that no earlier row has it.
   */
  lemma CreatedHostIsFound(t: Table, form: Host, hw: Bytes)
    requires ParseMAC(form.mac) == Some(hw) && form.reimage
    requires IndexAllows(t, t.next, form.(mac := Normal(form.mac)))
    requires forall id :: id in t.rows ==> id < t.next && ToLower(t.rows[id].mac) != ToLower(Show(hw))
    ensures var t' := Perform(t, Create(form.(mac := Normal(form.mac))));
      && FindHostByMAC(t', Show(hw)) == Flagged(t.next, form.(mac := Show(hw)))
      && AddressFor(t', Show(hw)) == IPText.ParseIP(form.ip)
  {
    var t' := Perform(t, Create(form.(mac := Show(hw))));
    RowIsFound(t', t.next, Show(hw), 0);
  }

  class Store {
    var rows: map<nat, Host>
    var next: nat

    function Contents(): Table
      reads this
    {
      Table(rows, next)
    }

    constructor ()
      ensures Contents() == PerformAll([])
    {
      rows, next := map[], 1;
    }

    /** gorm's Save, which the unique index may refuse. */
    method SaveRow(id: nat, host: Host) returns (ok: bool)
      modifies `rows
      ensures Contents() == Save(old(Contents()), id, host)
      ensures ok <==> IndexAllows(old(Contents()), id, host)
    {
      ok := IndexAllows(Contents(), id, host);
      if ok {
        rows := rows[id := host];
      }
    }

    /** The form's MAC is stored in its normal form; the original ignores that it may be none. */
    method CreateHost(form: Host, group: Option<ReplyOptions.Group>) returns (ok: bool)
      modifies this
      ensures var item := form.(mac := Normal(form.mac));
        if group.Some? && Admits(form.ip, group.value) then
          && Contents() == Perform(old(Contents()), Create(item))
          && (ok <==> IndexAllows(old(Contents()), old(next), item))
        else
          !ok && Contents() == old(Contents())
      ensures ok ==> next == old(next) + 1 && rows == old(rows)[old(next) := form.(mac := Normal(form.mac))]
      ensures ok ==> forall other :: other in old(rows) && other != old(next) ==>
        old(rows)[other].ip != form.ip || old(rows)[other].reimage != form.reimage
    {
      if group.None? {
        return false;
      }
      var item := form;
      item := item.(mac := Normal(item.mac));
      if !Admits(item.ip, group.value) {
        return false;
      }
      ok := SaveRow(next, item);
      if ok {
        next := next + 1;
      }
    }

    method UpdateHost(id: nat, form: Host) returns (ok: bool)
      modifies this
      ensures Contents() == Perform(old(Contents()), Update(id, form))
      ensures ok <==> id in old(rows) && IndexAllows(old(Contents()), id, Merge(old(rows)[id], form))
      ensures ok ==> id in old(rows) && rows == old(rows)[id := Host(
        if form.ip == "" then old(rows)[id].ip else form.ip,
        if form.mac == "" then old(rows)[id].mac else form.mac,
        form.reimage,
        if form.group == 0 then old(rows)[id].group else form.group,
        form.progress)]
      ensures next == old(next) && (!ok ==> rows == old(rows))
    {
      if id !in rows {
        return false;
      }
      var item := rows[id];
      if form.ip != "" {
        item := item.(ip := form.ip);
      }
      if form.mac != "" {
        item := item.(mac := form.mac);
      }
      if form.group != 0 {
        item := item.(group := form.group);
      }
      item := item.(reimage := form.reimage);
      item := item.(progress := form.progress);
      ok := SaveRow(id, item);
    }

    /** A boot file request from a known host, and the report that post-configuration is done. */
    method BootProgress(id: nat, progress: int)
      modifies this
      ensures Contents() == Perform(old(Contents()), Boot(id, progress))
      ensures next == old(next)
      ensures rows == old(rows) || (id in old(rows) && rows == old(rows)[id := old(rows)[id].(progress := progress)])
    {
      if id in rows {
        var item := rows[id];
        item := item.(progress := progress);
        var _ := SaveRow(id, item);
      }
    }

    /** A kickstart fetch; `renders` says whether the password decrypts and the template executes. */
    method Ks(ip: string, renders: bool) returns (ok: bool)
      modifies this
      ensures Contents() == Perform(old(Contents()), Kickstart(ip, if renders then Some(50) else None))
      ensures var id := FirstByIP(old(Contents()), ip, 0);
        && (ok <==> renders && id < old(next) && IndexAllows(old(Contents()), id, old(rows)[id].(reimage := false)))
        && next == old(next) && (ok ==> rows == old(rows)[id := old(rows)[id].(reimage := false, progress := 50)])
    {
      var id := FirstByIP(Contents(), ip, 0);
      if id == next {
        return false;
      }
      var item := rows[id];
      var cleared := SaveRow(id, rows[id].(reimage := false));
      if !cleared {
        return false;
      }
      item := item.(reimage := false);
      if !renders {
        return false;
      }
      item := item.(progress := 50);
      assert rows[id := item] == old(rows)[id := item];
      var _ := SaveRow(id, item);
      return true;
    }

    method DeleteHost(id: nat)
      modifies this
      ensures Contents() == Perform(old(Contents()), Delete(id))
      ensures next == old(next) && id !in rows && forall other :: other != id ==>
        (other in rows <==> other in old(rows)) && (other in rows ==> rows[other] == old(rows)[other])
    {
      rows := rows - {id};
    }
  }
}
