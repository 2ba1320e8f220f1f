/** The audit itself: for every section in turn, every project's records are fetched,
    projected onto rows and written through the one report writer. The provider's API calls
    are parameters of the model, keyed by project id. */
module Inventory {
  import opened Strings
  import opened Schema
  import opened Firewall
  import opened Iam
  import opened Report

  lemma PrefixSnoc<T>(s: seq<T>, i: int)
    requires 0 <= i < |s|
    ensures s[..i + 1] == s[..i] + [s[i]]
  {
  }

  lemma PrefixAll<T>(s: seq<T>)
    ensures s[..|s|] == s
  {
  }

  /** What one project contributes to a section: the rows of its records, in order, up to the
      first record whose projection throws. The exception is caught for the whole batch, so
      that record and every record after it are lost. */
  function RowsUntilFailure<R>(p: Project, records: seq<R>, project: (Project, R) -> Option<Row>): seq<Row>
    decreases |records|
  {
    if records == [] then []
    else
      match project(p, records[0])
      case None => []
      case Some(row) => [row] + RowsUntilFailure(p, records[1..], project)
  }

  /** The rows of one project: none when the call failed or returned no list. */
  function ProjectRows<R>(p: Project, fetch: string -> Option<seq<R>>, project: (Project, R) -> Option<Row>): seq<Row>
  {
    match fetch(p.projectId)
    case None => []
    case Some(records) => RowsUntilFailure(p, records, project)
  }

  /** The rows of one section: each project's rows, project after project. */
  function KindRows<R>(projects: seq<Project>, fetch: string -> Option<seq<R>>, project: (Project, R) -> Option<Row>): seq<Row>
    decreases |projects|
  {
    if projects == [] then []
    else KindRows(projects[..|projects| - 1], fetch, project) + ProjectRows(projects[|projects| - 1], fetch, project)
  }

  /** The IAM rows of every project, project after project. */
  function AllIamRows(projects: seq<Project>, getIamPolicy: string -> seq<Binding>): seq<Row>
    decreases |projects|
  {
    if projects == [] then []
    else
      var p := projects[|projects| - 1];
      AllIamRows(projects[..|projects| - 1], getIamPolicy) + IamRows(p.projectId, getIamPolicy(p.projectId))
  }

  /** The rows of every section of the audit of `projects`. */
  function AuditSections(projects: seq<Project>,
                         getVMs: string -> Option<seq<VmRecord>>,
                         getDisks: string -> Option<seq<DiskRecord>>,
                         getSnapshots: string -> Option<seq<SnapshotRecord>>,
                         getFirewalls: string -> Option<seq<FirewallRecord>>,
                         getIamPolicy: string -> seq<Binding>): Sections
  {
    Sections(KindRows(projects, getVMs, VmRow), KindRows(projects, getDisks, DiskRow),
             KindRows(projects, getSnapshots, SnapshotRow), KindRows(projects, getFirewalls, FirewallRow),
             AllIamRows(projects, getIamPolicy))
  }

  /** The rows are the projections of a prefix of the records, all of which succeed, and the
      record right after that prefix, if any, is one whose projection fails. */
  lemma {:induction false} RowsUntilFailurePrefix<R>(p: Project, records: seq<R>, project: (Project, R) -> Option<Row>)
    ensures var rows := RowsUntilFailure(p, records, project);
      |rows| <= |records| &&
      (forall j :: 0 <= j < |rows| ==> project(p, records[j]) == Some(rows[j])) &&
      (|rows| < |records| ==> project(p, records[|rows|]).None?)
    decreases |records|
  {
    if records != [] && project(p, records[0]).Some? {
      RowsUntilFailurePrefix(p, records[1..], project);
      var rows := RowsUntilFailure(p, records, project);
      var rest := RowsUntilFailure(p, records[1..], project);
      assert rows == [project(p, records[0]).value] + rest;
      forall j | 1 <= j < |rows|
        ensures project(p, records[j]) == Some(rows[j])
      {
        assert rows[j] == rest[j - 1] && records[j] == records[1..][j - 1];
      }
      if |rows| < |records| {
        assert records[|rows|] == records[1..][|rest|];
      }
    }
  }

  /** `written` are the rows of the first records, every one of which was projected. */
  ghost predicate ProjectedPrefix<R>(p: Project, records: seq<R>, project: (Project, R) -> Option<Row>, written: seq<Row>)
  {
    |written| <= |records| && forall j :: 0 <= j < |written| ==> project(p, records[j]) == Some(written[j])
  }

  lemma ProjectedSnoc<R>(p: Project, records: seq<R>, project: (Project, R) -> Option<Row>, written: seq<Row>, row: Row)
    requires ProjectedPrefix(p, records, project, written)
    requires |written| < |records| && project(p, records[|written|]) == Some(row)
    ensures ProjectedPrefix(p, records, project, written + [row])
  {
  }

  /** The rows written for one project are exactly those of its records before the first one
      that fails, when `written` lists them all and the loop stopped at a failure or the end. */
  lemma RowsUntilFailureIs<R>(p: Project, records: seq<R>, project: (Project, R) -> Option<Row>, written: seq<Row>)
    requires ProjectedPrefix(p, records, project, written)
    requires |written| < |records| ==> project(p, records[|written|]).None?
    ensures RowsUntilFailure(p, records, project) == written
  {
    RowsUntilFailurePrefix(p, records, project);
    assert |RowsUntilFailure(p, records, project)| == |written|;
  }

  /** Only the rows of records that precede every failure are written, and all of them are:
      when no projection fails, every record yields its row. */
  lemma {:induction false} RowsOfSoundRecords<R>(p: Project, records: seq<R>, project: (Project, R) -> Option<Row>)
    requires forall j :: 0 <= j < |records| ==> project(p, records[j]).Some?
    ensures |RowsUntilFailure(p, records, project)| == |records|
    ensures forall j :: 0 <= j < |records| ==> project(p, records[j]) == Some(RowsUntilFailure(p, records, project)[j])
    decreases |records|
  {
    RowsUntilFailurePrefix(p, records, project);
    if records != [] {
      RowsOfSoundRecords(p, records[1..], project);
    }
  }

  /** One more project adds its rows at the end. */
  lemma KindRowsSnoc<R>(ps: seq<Project>, p: Project, fetch: string -> Option<seq<R>>, project: (Project, R) -> Option<Row>)
    ensures KindRows(ps + [p], fetch, project) == KindRows(ps, fetch, project) + ProjectRows(p, fetch, project)
  {
    assert (ps + [p])[..|ps|] == ps;
  }

  lemma IamRowsSnoc(ps: seq<Project>, p: Project, getIamPolicy: string -> seq<Binding>)
    ensures AllIamRows(ps + [p], getIamPolicy) == AllIamRows(ps, getIamPolicy) + IamRows(p.projectId, getIamPolicy(p.projectId))
  {
    assert (ps + [p])[..|ps|] == ps;
  }

  /** The rows of a list of projects split at any point. */
  lemma {:induction false} KindRowsAppend<R>(ps: seq<Project>, qs: seq<Project>,
                                            fetch: string -> Option<seq<R>>, project: (Project, R) -> Option<Row>)
    ensures KindRows(ps + qs, fetch, project) == KindRows(ps, fetch, project) + KindRows(qs, fetch, project)
    decreases |qs|
  {
    if qs == [] {
      assert ps + qs == ps;
    } else {
      var front, last := qs[..|qs| - 1], qs[|qs| - 1];
      assert qs == front + [last];
      assert ps + qs == (ps + front) + [last];
      var a, b, c := KindRows(ps, fetch, project), KindRows(front, fetch, project), ProjectRows(last, fetch, project);
      calc {
        KindRows(ps + qs, fetch, project);
        KindRows((ps + front) + [last], fetch, project);
        { KindRowsSnoc(ps + front, last, fetch, project); }
        KindRows(ps + front, fetch, project) + c;
        { KindRowsAppend(ps, front, fetch, project); }
        (a + b) + c;
        a + (b + c);
        { KindRowsSnoc(front, last, fetch, project); }
        a + KindRows(qs, fetch, project);
      }
    }
  }

  /** A projection whose rows all have `n` fields gives a section whose rows all have `n` fields. */
  lemma {:induction false} KindRowsWidth<R>(ps: seq<Project>, fetch: string -> Option<seq<R>>,
                                           project: (Project, R) -> Option<Row>, n: nat)
    requires forall p, r :: project(p, r).Some? ==> |project(p, r).value| == n
    ensures forall row :: row in KindRows(ps, fetch, project) ==> |row| == n
    decreases |ps|
  {
    if ps != [] {
      var p := ps[|ps| - 1];
      KindRowsWidth(ps[..|ps| - 1], fetch, project, n);
      match fetch(p.projectId)
      case None =>
      case Some(records) =>
        RowsUntilFailurePrefix(p, records, project);
    }
  }

  /** Every IAM row has one field per IAM column. */
  lemma {:induction false} AllIamRowsWidth(ps: seq<Project>, getIamPolicy: string -> seq<Binding>)
    ensures forall row :: row in AllIamRows(ps, getIamPolicy) ==> |row| == |Columns(Iams)|
    decreases |ps|
  {
    if ps != [] {
      AllIamRowsWidth(ps[..|ps| - 1], getIamPolicy);
    }
  }

  /** Each row the audit writes has as many fields as its section's column header. */
  lemma AuditSectionsWidth(projects: seq<Project>,
                           getVMs: string -> Option<seq<VmRecord>>,
                           getDisks: string -> Option<seq<DiskRecord>>,
                           getSnapshots: string -> Option<seq<SnapshotRecord>>,
                           getFirewalls: string -> Option<seq<FirewallRecord>>,
                           getIamPolicy: string -> seq<Binding>)
    ensures var sections := AuditSections(projects, getVMs, getDisks, getSnapshots, getFirewalls, getIamPolicy);
      (forall r :: r in sections.vms ==> |r| == |Columns(Vms)|) &&
      (forall r :: r in sections.disks ==> |r| == |Columns(Disks)|) &&
      (forall r :: r in sections.snapshots ==> |r| == |Columns(Snapshots)|) &&
      (forall r :: r in sections.firewalls ==> |r| == |Columns(Firewalls)|) &&
      (forall r :: r in sections.iams ==> |r| == |Columns(Iams)|)
  {
    KindRowsWidth(projects, getVMs, VmRow, |Columns(Vms)|);
    KindRowsWidth(projects, getDisks, DiskRow, |Columns(Disks)|);
    KindRowsWidth(projects, getSnapshots, SnapshotRow, |Columns(Snapshots)|);
    KindRowsWidth(projects, getFirewalls, FirewallRow, |Columns(Firewalls)|);
    AllIamRowsWidth(projects, getIamPolicy);
  }

  /** Writes the rows of one project's records, stopping at the first record whose projection
      throws. */
  method WriteProjectRows<R>(w: Writer, k: Kind, p: Project, records: seq<R>, project: (Project, R) -> Option<Row>)
    requires w.Valid()
    modifies w
    ensures w.Valid() && w.log == old(w.log) + Tagged(k, RowsUntilFailure(p, records, project))
  {
    ghost var written: seq<Row> := [];
    var j := 0;
    var failed := false;
    while j < |records| && !failed
      invariant 0 <= j <= |records| && |written| == j
      invariant ProjectedPrefix(p, records, project, written)
      invariant failed ==> j < |records| && project(p, records[j]).None?
      invariant w.Valid() && w.log == old(w.log) + Tagged(k, written)
      decreases |records| - j, if failed then 0 else 1
    {
      match project(p, records[j]) {
        case None =>
          failed := true;
        case Some(row) =>
          ProjectedSnoc(p, records, project, written, row);
          TaggedSnoc(old(w.log), k, written, row);
          w.WriteRow(k, row);
          written := written + [row];
          j := j + 1;
      }
    }
    RowsUntilFailureIs(p, records, project, written);
  }

  /** The callback of one project's request: when the call succeeded and returned a list, the
      rows of its records. */
  method ListProject<R>(w: Writer, k: Kind, p: Project, fetch: string -> Option<seq<R>>, project: (Project, R) -> Option<Row>)
    requires w.Valid()
    modifies w
    ensures w.Valid() && w.log == old(w.log) + Tagged(k, ProjectRows(p, fetch, project))
  {
    match fetch(p.projectId) {
      case None =>
        assert old(w.log) + Tagged(k, []) == w.log;
      case Some(records) =>
        WriteProjectRows(w, k, p, records, project);
    }
  }

  /** One of listVMs, listDisks and listSnapshots: for each project in turn, fetches its records
      and writes their rows; a failed call contributes nothing. */
  method ListKind<R>(w: Writer, k: Kind, projects: seq<Project>,
                     fetch: string -> Option<seq<R>>, project: (Project, R) -> Option<Row>)
    requires w.Valid()
    modifies w
    ensures w.Valid() && w.log == old(w.log) + Tagged(k, KindRows(projects, fetch, project))
  {
    var i := 0;
    while i < |projects|
      invariant 0 <= i <= |projects|
      invariant w.Valid() && w.log == old(w.log) + Tagged(k, KindRows(projects[..i], fetch, project))
    {
      PrefixSnoc(projects, i);
      KindRowsSnoc(projects[..i], projects[i], fetch, project);
      LogTaggedAppend(old(w.log), k, KindRows(projects[..i], fetch, project), ProjectRows(projects[i], fetch, project));
      ListProject(w, k, projects[i], fetch, project);
      i := i + 1;
    }
    PrefixAll(projects);
  }

  method ListVMs(w: Writer, projects: seq<Project>, getVMs: string -> Option<seq<VmRecord>>)
    requires w.Valid()
    modifies w
    ensures w.Valid() && w.log == old(w.log) + Tagged(Vms, KindRows(projects, getVMs, VmRow))
  {
    ListKind(w, Vms, projects, getVMs, VmRow);
  }

  method ListDisks(w: Writer, projects: seq<Project>, getDisks: string -> Option<seq<DiskRecord>>)
    requires w.Valid()
    modifies w
    ensures w.Valid() && w.log == old(w.log) + Tagged(Disks, KindRows(projects, getDisks, DiskRow))
  {
    ListKind(w, Disks, projects, getDisks, DiskRow);
  }

  method ListSnapshots(w: Writer, projects: seq<Project>, getSnapshots: string -> Option<seq<SnapshotRecord>>)
    requires w.Valid()
    modifies w
    ensures w.Valid() && w.log == old(w.log) + Tagged(Snapshots, KindRows(projects, getSnapshots, SnapshotRow))
  {
    ListKind(w, Snapshots, projects, getSnapshots, SnapshotRow);
  }

  /** The firewall rules of one project: each rule's allow string is built by the loop of
      `FirewallAllow`; a rule with no `allowed` list throws and ends the batch. */
  method WriteProjectFirewalls(w: Writer, p: Project, firewalls: seq<FirewallRecord>)
    requires w.Valid()
    modifies w
    ensures w.Valid() && w.log == old(w.log) + Tagged(Firewalls, RowsUntilFailure(p, firewalls, FirewallRow))
  {
    ghost var written: seq<Row> := [];
    var j := 0;
    var failed := false;
    while j < |firewalls| && !failed
      invariant 0 <= j <= |firewalls| && |written| == j
      invariant ProjectedPrefix(p, firewalls, FirewallRow, written)
      invariant failed ==> j < |firewalls| && FirewallRow(p, firewalls[j]).None?
      invariant w.Valid() && w.log == old(w.log) + Tagged(Firewalls, written)
      decreases |firewalls| - j, if failed then 0 else 1
    {
      var fw := firewalls[j];
      match fw.allowed {
        case None =>
          failed := true;
        case Some(allowed) =>
          var allow := FirewallAllow(allowed);
          var row := [p.projectId, fw.name, LastSegment(fw.network), fw.direction, fw.priority, allow];
          assert FirewallRow(p, fw) == Some(row);
          ProjectedSnoc(p, firewalls, FirewallRow, written, row);
          TaggedSnoc(old(w.log), Firewalls, written, row);
          w.WriteRow(Firewalls, row);
          written := written + [row];
          j := j + 1;
      }
    }
    RowsUntilFailureIs(p, firewalls, FirewallRow, written);
  }

  /** The firewall callback of one project: a failed call contributes nothing. */
  method ListProjectFirewalls(w: Writer, p: Project, getFirewalls: string -> Option<seq<FirewallRecord>>)
    requires w.Valid()
    modifies w
    ensures w.Valid() && w.log == old(w.log) + Tagged(Firewalls, ProjectRows(p, getFirewalls, FirewallRow))
  {
    match getFirewalls(p.projectId) {
      case None =>
        assert old(w.log) + Tagged(Firewalls, []) == w.log;
      case Some(firewalls) =>
        WriteProjectFirewalls(w, p, firewalls);
    }
  }

  /** listFirewalls: the firewall rules of every project in turn. */
  method ListFirewalls(w: Writer, projects: seq<Project>, getFirewalls: string -> Option<seq<FirewallRecord>>)
    requires w.Valid()
    modifies w
    ensures w.Valid() && w.log == old(w.log) + Tagged(Firewalls, KindRows(projects, getFirewalls, FirewallRow))
  {
    var i := 0;
    while i < |projects|
      invariant 0 <= i <= |projects|
      invariant w.Valid() && w.log == old(w.log) + Tagged(Firewalls, KindRows(projects[..i], getFirewalls, FirewallRow))
    {
      PrefixSnoc(projects, i);
      KindRowsSnoc(projects[..i], projects[i], getFirewalls, FirewallRow);
      LogTaggedAppend(old(w.log), Firewalls, KindRows(projects[..i], getFirewalls, FirewallRow),
                      ProjectRows(projects[i], getFirewalls, FirewallRow));
      ListProjectFirewalls(w, projects[i], getFirewalls);
      i := i + 1;
    }
    PrefixAll(projects);
  }

  /** The IAM rows of one project: its policy's bindings inverted into member -> roles, then one
      row per member in the order the members were first inserted. */
  method WriteProjectIams(w: Writer, projectId: string, bindings: seq<Binding>)
    requires w.Valid()
    modifies w
    ensures w.Valid() && w.log == old(w.log) + Tagged(Iams, IamRows(projectId, bindings))
  {
    var order, userRoles := InvertBindings(bindings);
    ghost var rows := IamRows(projectId, bindings);
    var k := 0;
    while k < |order|
      invariant 0 <= k <= |order| && |rows| == |order|
      invariant w.Valid() && w.log == old(w.log) + Tagged(Iams, rows[..k])
    {
      var key := order[k];
      var row := IamRow(projectId, key, userRoles[key]);
      assert row == rows[k];
      PrefixSnoc(rows, k);
      TaggedSnoc(old(w.log), Iams, rows[..k], row);
      w.WriteRow(Iams, row);
      k := k + 1;
    }
    PrefixAll(rows);
  }

  /** listIams: the IAM rows of every project in turn. */
  method ListIams(w: Writer, projects: seq<Project>, getIamPolicy: string -> seq<Binding>)
    requires w.Valid()
    modifies w
    ensures w.Valid() && w.log == old(w.log) + Tagged(Iams, AllIamRows(projects, getIamPolicy))
  {
    var i := 0;
    while i < |projects|
      invariant 0 <= i <= |projects|
      invariant w.Valid() && w.log == old(w.log) + Tagged(Iams, AllIamRows(projects[..i], getIamPolicy))
    {
      PrefixSnoc(projects, i);
      IamRowsSnoc(projects[..i], projects[i], getIamPolicy);
      var projectId := projects[i].projectId;
      ghost var before := AllIamRows(projects[..i], getIamPolicy);
      LogTaggedAppend(old(w.log), Iams, before, IamRows(projectId, getIamPolicy(projectId)));
      WriteProjectIams(w, projectId, getIamPolicy(projectId));
      i := i + 1;
    }
    PrefixAll(projects);
  }

  /** runAudit: writes the title, then every section in order, and returns what the stream holds.
      When listing the projects failed the audit stops after the title. */
  method RunAudit(listed: Option<seq<Project>>,
                  getVMs: string -> Option<seq<VmRecord>>,
                  getDisks: string -> Option<seq<DiskRecord>>,
                  getSnapshots: string -> Option<seq<SnapshotRecord>>,
                  getFirewalls: string -> Option<seq<FirewallRecord>>,
                  getIamPolicy: string -> seq<Binding>) returns (report: string)
    ensures listed.None? ==> report == ReportTitle
    ensures listed.Some? ==>
              report == Assemble(AuditSections(listed.value, getVMs, getDisks, getSnapshots, getFirewalls, getIamPolicy))
  {
    var w := new Writer();
    match listed {
      case None =>
      case Some(projects) =>
        ghost var s := AuditSections(projects, getVMs, getDisks, getSnapshots, getFirewalls, getIamPolicy);
        ListVMs(w, projects, getVMs);
        assert w.log == Tagged(Vms, s.vms);
        ListDisks(w, projects, getDisks);
        ListSnapshots(w, projects, getSnapshots);
        ListFirewalls(w, projects, getFirewalls);
        ListIams(w, projects, getIamPolicy);
        RenderGrouped(s);
    }
    report := w.out;
  }
}
