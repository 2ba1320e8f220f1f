/** The report buffer: the write stream the audit appends to, with one "header printed"
    flag per section, and the sectioned document it amounts to. */
module Report {
  import opened Strings
  import opened Schema

  /** One data row handed to the writer, with the section it belongs to. */
  datatype Written = Written(kind: Kind, fields: Row)

  /** A data row as written: its fields joined by `,`, then a newline. */
  function Line(fields: Row): string
  {
    Join(",", fields) + "\n"
  }

  /** What precedes a section's first row: the separator line `,`, the title line and the
      column header line. */
  function SectionHead(k: Kind): string
  {
    ",\n" + SectionTitle(k) + "\n" + Join(",", Columns(k)) + "\n"
  }

  /** Some row of section `k` has been written. */
  predicate Started(log: seq<Written>, k: Kind)
  {
    exists i :: 0 <= i < |log| && log[i].kind == k
  }

  /** The buffer after the rows of `log` were written in order, each preceded by its
      section's head when it is the first row of that section. */
  function Render(log: seq<Written>): string
    decreases |log|
  {
    if log == [] then ReportTitle
    else
      var pre := log[..|log| - 1];
      var w := log[|log| - 1];
      Render(pre) + (if FlagsOf(pre).Get(w.kind) then "" else SectionHead(w.kind)) + Line(w.fields)
  }

  /** The header flags after the rows of `log` were written: each row sets its section's flag. */
  function FlagsOf(log: seq<Written>): HeaderFlags
    decreases |log|
  {
    if log == [] then HeaderFlags(false, false, false, false, false)
    else FlagsOf(log[..|log| - 1]).Set(log[|log| - 1].kind)
  }

  /** A section's flag is set exactly when some row of that section has been written. */
  lemma {:induction false} FlagsOfStarted(log: seq<Written>, k: Kind)
    ensures FlagsOf(log).Get(k) == Started(log, k)
    decreases |log|
  {
    if log != [] {
      var pre, w := log[..|log| - 1], log[|log| - 1];
      assert log == pre + [w];
      FlagsOfStarted(pre, k);
      StartedSnoc(pre, w, k);
    }
  }

  function Lines(rows: seq<Row>): string
    decreases |rows|
  {
    if rows == [] then "" else Lines(rows[..|rows| - 1]) + Line(rows[|rows| - 1])
  }

  /** One section of the report, or nothing at all when the section has no rows. */
  function Section(k: Kind, rows: seq<Row>): string
  {
    if rows == [] then "" else SectionHead(k) + Lines(rows)
  }

  /** The rows collected for each section. */
  datatype Sections = Sections(vms: seq<Row>, disks: seq<Row>, snapshots: seq<Row>,
                               firewalls: seq<Row>, iams: seq<Row>)

  /** The report as a document: its title line, then each non-empty section in kind order. */
  function Assemble(s: Sections): string
  {
    ReportTitle + Section(Vms, s.vms) + Section(Disks, s.disks) + Section(Snapshots, s.snapshots)
      + Section(Firewalls, s.firewalls) + Section(Iams, s.iams)
  }

  function Tagged(k: Kind, rows: seq<Row>): seq<Written>
  {
    seq(|rows|, i requires 0 <= i < |rows| => Written(k, rows[i]))
  }

  /** The rows in the order the audit writes them: all VMs, then all disks, and so on. */
  function Grouped(s: Sections): seq<Written>
  {
    Tagged(Vms, s.vms) + Tagged(Disks, s.disks) + Tagged(Snapshots, s.snapshots)
      + Tagged(Firewalls, s.firewalls) + Tagged(Iams, s.iams)
  }

  lemma TaggedAppend(k: Kind, rows: seq<Row>, more: seq<Row>)
    ensures Tagged(k, rows + more) == Tagged(k, rows) + Tagged(k, more)
  {
  }

  lemma StartedAppend(a: seq<Written>, b: seq<Written>, k: Kind)
    ensures Started(a + b, k) <==> Started(a, k) || Started(b, k)
  {
    if Started(a, k) {
      var i :| 0 <= i < |a| && a[i].kind == k;
      assert (a + b)[i].kind == k;
    }
    if Started(a + b, k) {
      var i :| 0 <= i < |a + b| && (a + b)[i].kind == k;
      if i >= |a| {
        assert b[i - |a|].kind == k;
      }
    }
    if Started(b, k) {
      var i :| 0 <= i < |b| && b[i].kind == k;
      assert (a + b)[|a| + i].kind == k;
    }
  }

  lemma StartedSnoc(log: seq<Written>, w: Written, k: Kind)
    ensures Started(log + [w], k) <==> k == w.kind || Started(log, k)
  {
    StartedAppend(log, [w], k);
    assert [w][0].kind == w.kind;
  }

  lemma StartedTagged(j: Kind, rows: seq<Row>, k: Kind)
    ensures Started(Tagged(j, rows), k) <==> j == k && rows != []
  {
    if j == k && rows != [] {
      assert Tagged(j, rows)[0].kind == k;
    }
  }

  /** Writing one more row appends its line, after its section's head exactly when no row of
      that section was written before. */
  lemma RenderNextRow(log: seq<Written>, w: Written)
    ensures Render(log + [w]) == Render(log) + (if Started(log, w.kind) then "" else SectionHead(w.kind)) + Line(w.fields)
  {
    RenderSnoc(log, w);
    FlagsOfStarted(log, w.kind);
  }

  lemma RenderSnoc(log: seq<Written>, w: Written)
    ensures Render(log + [w]) == Render(log) + (if FlagsOf(log).Get(w.kind) then "" else SectionHead(w.kind)) + Line(w.fields)
    ensures FlagsOf(log + [w]) == FlagsOf(log).Set(w.kind)
  {
    assert (log + [w])[..|log|] == log;
  }

  /** Writing more rows never changes what was already written. */
  lemma {:induction false} RenderExtends(log: seq<Written>, more: seq<Written>)
    ensures Render(log) <= Render(log + more)
    decreases |more|
  {
    if more == [] {
      assert log + more == log;
    } else {
      var front, last := more[..|more| - 1], more[|more| - 1];
      RenderExtends(log, front);
      ConcatSnoc(log, more);
      RenderSnoc(log + front, last);
      var r, h := Render(log + front), if FlagsOf(log + front).Get(last.kind) then "" else SectionHead(last.kind);
      PrefixOfLonger(Render(log), r, h);
      PrefixOfLonger(Render(log), r + h, Line(last.fields));
    }
  }

  lemma ConcatSnoc<T>(a: seq<T>, b: seq<T>)
    requires b != []
    ensures a + b == (a + b[..|b| - 1]) + [b[|b| - 1]]
  {
    assert b == b[..|b| - 1] + [b[|b| - 1]];
  }

  lemma PrefixOfLonger(a: string, b: string, c: string)
    requires a <= b
    ensures a <= b + c
  {
    assert (b + c)[..|a|] == b[..|a|];
  }

  /** The buffer always begins with the report title. */
  lemma RenderStartsWithTitle(log: seq<Written>)
    ensures ReportTitle <= Render(log)
  {
    RenderExtends([], log);
    assert [] + log == log;
  }

  lemma LinesSnoc(rows: seq<Row>, r: Row)
    ensures Lines(rows + [r]) == Lines(rows) + Line(r)
  {
    assert (rows + [r])[..|rows|] == rows;
  }

  lemma LinesOne(r: Row)
    ensures Lines([r]) == Line(r)
  {
    assert [r][..0] == [];
  }

  lemma AppendNothing(a: string)
    ensures a + "" == a
  {
  }

  lemma Regroup(a: string, b: string, c: string, d: string)
    ensures (a + (b + c)) + "" + d == a + (b + (c + d))
    ensures a + b + d == a + (b + d)
  {
  }

  /** Writing the rows of a section in two batches logs the same as writing them in one. */
  lemma LogTaggedAppend(log: seq<Written>, k: Kind, rows: seq<Row>, more: seq<Row>)
    ensures log + Tagged(k, rows + more) == (log + Tagged(k, rows)) + Tagged(k, more)
  {
    TaggedAppend(k, rows, more);
  }

  lemma TaggedSnoc(pre: seq<Written>, k: Kind, rows: seq<Row>, r: Row)
    ensures pre + Tagged(k, rows + [r]) == (pre + Tagged(k, rows)) + [Written(k, r)]
  {
    assert Tagged(k, rows + [r]) == Tagged(k, rows) + [Written(k, r)];
  }

  /** The first row of a section not started before `pre` brings the section's head. */
  lemma RenderTaggedFirst(pre: seq<Written>, k: Kind, last: Row)
    requires !Started(pre, k)
    ensures Render(pre + Tagged(k, [last])) == Render(pre) + Section(k, [last])
  {
    var w := Written(k, last);
    assert Tagged(k, [last]) == [w];
    RenderSnoc(pre, w);
    FlagsOfStarted(pre, k);
    var h, l := SectionHead(k), Line(last);
    assert Render(pre + [w]) == Render(pre) + h + l;
    LinesOne(last);
    assert Section(k, [last]) == h + l;
    Regroup(Render(pre), h, "", l);
  }

  /** Once a row of section `k` has been written, its flag is set. */
  lemma FlagSetAfterTagged(pre: seq<Written>, k: Kind, front: seq<Row>)
    requires front != []
    ensures FlagsOf(pre + Tagged(k, front)).Get(k)
  {
    StartedAppend(pre, Tagged(k, front), k);
    StartedTagged(k, front, k);
    FlagsOfStarted(pre + Tagged(k, front), k);
  }

  /** A later row of a section adds only its line. */
  lemma RenderTaggedNext(pre: seq<Written>, k: Kind, front: seq<Row>, last: Row)
    requires front != []
    ensures Render(pre + Tagged(k, front + [last])) == Render(pre + Tagged(k, front)) + Line(last)
  {
    var log := pre + Tagged(k, front);
    TaggedSnoc(pre, k, front, last);
    RenderSnoc(log, Written(k, last));
    FlagSetAfterTagged(pre, k, front);
    AppendNothing(Render(log));
  }

  /** A section with one more row is the section followed by that row's line. */
  lemma SectionSnoc(k: Kind, front: seq<Row>, last: Row)
    requires front != []
    ensures Section(k, front + [last]) == Section(k, front) + Line(last)
  {
    LinesSnoc(front, last);
  }

  /** Writing the rows of a section not yet started appends exactly that section: its head
      once, before the first row, and nothing at all when there are no rows. */
  lemma {:induction false} RenderTagged(pre: seq<Written>, k: Kind, rows: seq<Row>)
    requires !Started(pre, k)
    ensures Render(pre + Tagged(k, rows)) == Render(pre) + Section(k, rows)
    decreases |rows|
  {
    if rows == [] {
      assert pre + Tagged(k, rows) == pre;
    } else {
      var front, last := rows[..|rows| - 1], rows[|rows| - 1];
      assert rows == front + [last];
      if front == [] {
        RenderTaggedFirst(pre, k, last);
      } else {
        RenderTagged(pre, k, front);
        RenderTaggedNext(pre, k, front, last);
        SectionSnoc(k, front, last);
        Regroup(Render(pre), Section(k, front), "", Line(last));
      }
    }
  }

  /** Writing the sections one after another, as the audit does, produces the assembled
      report: every non-empty section's head exactly once, in kind order, and no head for an
      empty section. */
  lemma RenderGrouped(s: Sections)
    ensures Render(Grouped(s)) == Assemble(s)
  {
    var t1, t2, t3, t4 := Tagged(Vms, s.vms), Tagged(Disks, s.disks), Tagged(Snapshots, s.snapshots),
                          Tagged(Firewalls, s.firewalls);
    assert Render([]) == ReportTitle;
    RenderTagged([], Vms, s.vms);
    assert [] + t1 == t1;
    StartedTagged(Vms, s.vms, Disks);
    RenderTagged(t1, Disks, s.disks);
    StartedAppend(t1, t2, Snapshots);
    StartedTagged(Vms, s.vms, Snapshots);
    StartedTagged(Disks, s.disks, Snapshots);
    RenderTagged(t1 + t2, Snapshots, s.snapshots);
    StartedAppend(t1 + t2, t3, Firewalls);
    StartedAppend(t1, t2, Firewalls);
    StartedTagged(Vms, s.vms, Firewalls);
    StartedTagged(Disks, s.disks, Firewalls);
    StartedTagged(Snapshots, s.snapshots, Firewalls);
    RenderTagged(t1 + t2 + t3, Firewalls, s.firewalls);
    StartedAppend(t1 + t2 + t3, t4, Iams);
    StartedAppend(t1 + t2, t3, Iams);
    StartedAppend(t1, t2, Iams);
    StartedTagged(Vms, s.vms, Iams);
    StartedTagged(Disks, s.disks, Iams);
    StartedTagged(Snapshots, s.snapshots, Iams);
    StartedTagged(Firewalls, s.firewalls, Iams);
    RenderTagged(t1 + t2 + t3 + t4, Iams, s.iams);
  }

  /** A row's line is its fields and a newline, and it splits back into the fields whenever no
      field holds a comma (the format escapes nothing). */
  lemma LineSplitsBack(fields: Row)
    requires |fields| >= 1
    requires forall i :: 0 <= i < |fields| ==> ',' !in fields[i]
    ensures var l := Line(fields); |l| >= 1 && l[|l| - 1] == '\n' && Split(l[..|l| - 1], ',') == fields
  {
    SplitOfJoin(fields, ',');
    assert Line(fields)[..|Line(fields)| - 1] == Join(",", fields);
  }

  /** The five "header printed" flags, one per section. */
  datatype HeaderFlags = HeaderFlags(vms: bool, disks: bool, snapshots: bool, firewalls: bool, iams: bool)
  {
    function Get(k: Kind): bool
    {
      match k
      case Vms => vms
      case Disks => disks
      case Snapshots => snapshots
      case Firewalls => firewalls
      case Iams => iams
    }

    /** The flags with section `k`'s set and the others as they were. */
    function Set(k: Kind): (f: HeaderFlags)
      ensures f.Get(k) && forall j :: j != k ==> f.Get(j) == Get(j)
    {
      match k
      case Vms => this.(vms := true)
      case Disks => this.(disks := true)
      case Snapshots => this.(snapshots := true)
      case Firewalls => this.(firewalls := true)
      case Iams => this.(iams := true)
    }

    /** Setting a flag that is already set changes nothing. */
    lemma SetAgain(k: Kind)
      requires Get(k)
      ensures Set(k) == this
    {
    }
  }

  /** The buffer holds the rendering of the rows written, and a section's flag is set exactly
      when some row of that section has been written. */
  ghost predicate Consistent(out: string, log: seq<Written>, flags: HeaderFlags)
  {
    out == Render(log) && flags == FlagsOf(log)
  }

  /** Writing a row (its section's head first when the flag is clear, then its line) and setting
      its section's flag keeps buffer, log and flags consistent. */
  lemma WriteKeepsConsistent(out: string, log: seq<Written>, flags: HeaderFlags, k: Kind, fields: Row)
    requires Consistent(out, log, flags)
    ensures Consistent(out + (if flags.Get(k) then "" else SectionHead(k)) + Line(fields),
                       log + [Written(k, fields)], flags.Set(k))
  {
    RenderSnoc(log, Written(k, fields));
  }

  /** The write stream of the audit. `out` is everything written so far; `headerPrinted`
      holds the five `...HeaderPrinted` flags the script attaches to its list functions. */
  class Writer {
    var out: string
    var headerPrinted: HeaderFlags
    /** The data rows written so far, in order. */
    ghost var log: seq<Written>

    ghost predicate Valid()
      reads this
    {
      Consistent(out, log, headerPrinted)
    }

    /** The stream is opened and the report title written. */
    constructor ()
      ensures Valid() && log == [] && out == ReportTitle
      ensures headerPrinted == HeaderFlags(false, false, false, false, false)
    {
      out := ReportTitle;
      headerPrinted := HeaderFlags(false, false, false, false, false);
      log := [];
    }

    /** Writes one data row of section `k`. On the section's first row the separator, title and
        column header lines are written first and the section's flag is set; afterwards only the
        row's own line is appended. What was already written is never changed. */
    method WriteRow(k: Kind, fields: Row)
      requires Valid()
      modifies this
      ensures Valid() && log == old(log) + [Written(k, fields)]
      ensures out == old(out) + (if old(headerPrinted).Get(k) then "" else SectionHead(k)) + Line(fields)
      ensures headerPrinted == old(headerPrinted).Set(k)
    {
      WriteKeepsConsistent(out, log, headerPrinted, k, fields);
      if !headerPrinted.Get(k) {
        out := out + SectionHead(k);
        headerPrinted := headerPrinted.Set(k);
      } else {
        headerPrinted.SetAgain(k);
        AppendNothing(out);
      }
      out := out + Line(fields);
      log := log + [Written(k, fields)];
    }
  }
}
