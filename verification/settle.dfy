/** The week-settle handler of dist-server/index.js as one function of the
    document's lines and today's day ordinal (`Settle`, and `SettleFixed`
    with the merge's double shift corrected): build the pool's task trees,
    refuse when there is nothing to settle, render the archive and the
    rebuilt pool, find or create the current week, merge the archive into
    it and put the rebuilt pool in place of the old one. */
module Settle {
  import opened Text
  import opened Lines
  import opened Outcome
  import opened Classify
  import opened Forest
  import opened Pool
  import opened Status
  import Calendar
  import Weeks
  import Merge

  // ------------------------------------------------------------ archive

  /** A project's archive lines: every root's archive at depth 0, in order
      (a root that is not archived contributes nothing). */
  function ArchiveOf(roots: seq<Tree>): seq<string> {
    if |roots| == 0 then []
    else
      var m := Mark(roots[0]);
      (if m.flags.archive then Archive(m, 0) else []) + ArchiveOf(roots[1..])
  }

  /** A root whose subtree holds a completed task. */
  predicate HasCompleted(t: Tree) {
    AnyCompleted(Preorder(t))
  }

  /** A project contributes archive lines exactly when one of its roots
      holds a completed task. */
  lemma {:induction false} ArchiveOfEmpty(roots: seq<Tree>)
    ensures ArchiveOf(roots) == [] <==> forall i :: 0 <= i < |roots| ==> !HasCompleted(roots[i])
  {
    if |roots| > 0 {
      MarkFlags(roots[0]);
      RenderEmpty(Mark(roots[0]), 0);
      ArchiveOfEmpty(roots[1..]);
      assert forall i :: 1 <= i < |roots| ==> roots[i] == roots[1..][i - 1];
    }
  }

  /** A project's entry in `archiveContents`: its archive lines, unless
      it has none. */
  function Listed(b: Bucket): (gs: seq<Merge.Group>)
    ensures |gs| <= 1 && (gs != [] <==> ArchiveOf(b.roots) != [])
    ensures gs != [] ==> gs[0] == Merge.Group(b.name, ArchiveOf(b.roots))
  {
    var a := ArchiveOf(b.roots);
    if a != [] then [Merge.Group(b.name, a)] else []
  }

  /** `archiveContents`: the projects with archive lines, in map order. */
  function Contents(bs: seq<Bucket>): (gs: seq<Merge.Group>)
    ensures |gs| <= |bs|
    ensures forall k :: 0 <= k < |gs| ==> gs[k].lines != []
  {
    if |bs| == 0 then [] else Listed(bs[0]) + Contents(bs[1..])
  }

  /** Every project with archive lines is listed with exactly those lines,
      and nothing else is. */
  lemma {:induction false} ContentsComplete(bs: seq<Bucket>, k: nat) returns (j: nat)
    requires k < |bs| && ArchiveOf(bs[k].roots) != []
    ensures j < |Contents(bs)| && Contents(bs)[j] == Merge.Group(bs[k].name, ArchiveOf(bs[k].roots))
  {
    j := ListedAt(bs, k, Merge.Group(bs[k].name, ArchiveOf(bs[k].roots)));
  }

  lemma {:induction false} ListedAt(bs: seq<Bucket>, k: nat, g: Merge.Group) returns (j: nat)
    requires k < |bs| && Listed(bs[k]) == [g]
    ensures j < |Contents(bs)| && Contents(bs)[j] == g
    decreases k
  {
    var head, tail := Listed(bs[0]), bs[1..];
    var rest := Contents(tail);
    assert Contents(bs) == head + rest;
    if k == 0 {
      j := 0;
      assert (head + rest)[0] == head[0] == g;
    } else {
      assert tail[k - 1] == bs[k];
      var j' := ListedAt(tail, k - 1, g);
      AppendAt(head, rest, Contents(bs), j');
      j := |head| + j';
    }
  }

  lemma {:induction false} ContentsSound(bs: seq<Bucket>, j: nat) returns (k: nat)
    requires j < |Contents(bs)|
    ensures k < |bs| && Contents(bs)[j] == Merge.Group(bs[k].name, ArchiveOf(bs[k].roots))
  {
    var head, tail := Listed(bs[0]), bs[1..];
    assert Contents(bs) == head + Contents(tail);
    if j < |head| {
      k := 0;
    } else {
      var k' := ContentsSound(tail, j - |head|);
      assert tail[k'] == bs[k' + 1];
      AppendAt(head, Contents(tail), Contents(bs), j - |head|);
      k := k' + 1;
    }
  }

  /** The handler's `hasArchivableContent`: some root of some project is
      archived. */
  predicate AnyArchived(bs: seq<Bucket>) {
    exists k, i :: 0 <= k < |bs| && 0 <= i < |bs[k].roots| && Mark(bs[k].roots[i]).flags.archive
  }

  /** There is something to settle exactly when the pool holds a completed
      task. */
  lemma {:induction false} AnyArchivedIsCompleted(bs: seq<Bucket>)
    ensures AnyArchived(bs) <==>
      exists k, i :: 0 <= k < |bs| && 0 <= i < |bs[k].roots| && HasCompleted(bs[k].roots[i])
  {
    forall k, i | 0 <= k < |bs| && 0 <= i < |bs[k].roots|
      ensures Mark(bs[k].roots[i]).flags.archive <==> HasCompleted(bs[k].roots[i])
    {
      MarkFlags(bs[k].roots[i]);
    }
  }

  // ---------------------------------------------------------- new pool

  /** A project's kept lines: every root that is not deleted, rendered
      back to pending, in order. */
  function RetainOf(roots: seq<Tree>): seq<string> {
    if |roots| == 0 then []
    else
      var m := Mark(roots[0]);
      (if !m.flags.delete then Retain(m) else []) + RetainOf(roots[1..])
  }

  /** A project keeps nothing exactly when each of its roots is completed
      with no pending task below it. */
  lemma {:induction false} RetainOfEmpty(roots: seq<Tree>)
    ensures RetainOf(roots) == [] <==>
      forall i :: 0 <= i < |roots| ==> roots[i].item.completed && !AnyPending(PreorderAll(roots[i].kids))
  {
    if |roots| > 0 {
      var m := Mark(roots[0]);
      assert (if !m.flags.delete then Retain(m) else []) == [] <==>
        roots[0].item.completed && !AnyPending(PreorderAll(roots[0].kids)) by {
        MarkFlags(roots[0]);
        RenderEmpty(m, 0);
      }
      RetainOfEmpty(roots[1..]);
      assert forall i :: 1 <= i < |roots| ==> roots[i] == roots[1..][i - 1];
    }
  }

  /** A project's section of the rebuilt pool: its header, then its kept
      lines or the placeholder, then a blank line. */
  function ProjectBlock(b: Bucket): (r: seq<string>)
    ensures |r| >= 2 && r[0] == "### " + b.name
    ensures RetainOf(b.roots) == [] ==> r == ["### " + b.name, Placeholder, ""]
    ensures RetainOf(b.roots) != [] ==> r == ["### " + b.name] + RetainOf(b.roots) + [""]
  {
    var kept := RetainOf(b.roots);
    ["### " + b.name] + (if kept == [] then [Placeholder, ""] else kept + [""])
  }

  function ProjectBlocks(bs: seq<Bucket>): seq<string> {
    if |bs| == 0 then [] else ProjectBlock(bs[0]) + ProjectBlocks(bs[1..])
  }

  /** `newPoolLines` */
  function PoolBlock(bs: seq<Bucket>): (r: seq<string>)
    ensures |r| >= 3 && r[0] == PoolHeader && r[1] == "" && r[|r| - 1] == ""
  {
    [PoolHeader, ""] + ProjectBlocks(bs) + [""]
  }

  lemma {:induction false} ProjectBlocksAppend(a: seq<Bucket>, b: seq<Bucket>)
    ensures ProjectBlocks(a + b) == ProjectBlocks(a) + ProjectBlocks(b)
  {
    if |a| > 0 {
      assert (a + b)[0] == a[0] && (a + b)[1..] == a[1..] + b;
      ProjectBlocksAppend(a[1..], b);
    } else {
      assert a + b == b;
    }
  }

  /** Every project gets its section, in map order, between the sections
      of the projects before it and those after it. */
  lemma {:induction false} ProjectBlocksAt(bs: seq<Bucket>, k: nat)
    requires k < |bs|
    ensures ProjectBlocks(bs) == ProjectBlocks(bs[..k]) + ProjectBlock(bs[k]) + ProjectBlocks(bs[k + 1..])
  {
    var rest := [bs[k]] + bs[k + 1..];
    assert bs == bs[..k] + rest;
    ProjectBlocksAppend(bs[..k], rest);
    assert ProjectBlocks(rest) == ProjectBlock(bs[k]) + ProjectBlocks(bs[k + 1..]) by {
      assert rest[0] == bs[k] && rest[1..] == bs[k + 1..];
    }
  }

  // --------------------------------------------------------- replacePool

  /** What `replacePoolInLines` looks for in a line. */
  datatype LineKind = PoolHead | Closing | Plain

  function KindOf(line: string): (k: LineKind)
    ensures k == PoolHead <==> Trim(line) == PoolHeader
    ensures k == Closing <==> IsSeparator(line)
  {
    if Trim(line) == PoolHeader then PoolHead
    else if IsSeparator(line) then Closing
    else Plain
  }

  function Kinds(lines: seq<string>): (ks: seq<LineKind>)
    ensures |ks| == |lines|
    ensures forall i :: 0 <= i < |lines| ==> ks[i] == KindOf(lines[i])
  {
    seq(|lines|, i requires 0 <= i < |lines| => KindOf(lines[i]))
  }

  /** Where the old pool sits: `start` is the last pool header seen before
      the loop stops, -1 for none; `end` is the separator it stops at, -1
      when it runs off the end. */
  datatype Span = Span(start: int, end: int)

  /** The loop of `replacePoolInLines` from line `i` on, over the lines'
      kinds. */
  function ScanPool(ks: seq<LineKind>, i: nat, start: int): (s: Span)
    requires i <= |ks| && -1 <= start && (start < i || start == -1)
    ensures -1 <= s.start && (s.start == -1 || s.start < |ks|)
    ensures s.end == -1 || (i <= s.end < |ks| && 0 <= s.start <= s.end)
    decreases |ks| - i
  {
    if i >= |ks| then Span(start, -1)
    else
      var st := if ks[i] == PoolHead then i else start;
      if st != -1 && ks[i] == Closing then Span(st, i)
      else ScanPool(ks, i + 1, st)
  }

  /** `replacePoolInLines(lines, content)`: the lines before the pool
      header, the new content, then the lines from the separator on (with
      no separator, `slice(-1)`: the last line). */
  function ReplacePool(lines: seq<string>, content: seq<string>): (r: Result<seq<string>>)
    ensures r.Err? <==> forall i :: 0 <= i < |lines| ==> Trim(lines[i]) != PoolHeader
    ensures r.Err? ==> r.error == PoolNotFound
  {
    var s := ScanPool(Kinds(lines), 0, -1);
    ScanPoolFinds(Kinds(lines), 0, -1);
    if s.start == -1 then Err(PoolNotFound)
    else Ok(lines[..s.start] + content + SliceFrom(lines, s.end))
  }

  /** The scan finds a header exactly when there is one. */
  lemma {:induction false} ScanPoolFinds(ks: seq<LineKind>, i: nat, start: int)
    requires i <= |ks| && -1 <= start && (start < i || start == -1)
    requires start == -1 <==> forall j :: 0 <= j < i ==> ks[j] != PoolHead
    ensures ScanPool(ks, i, start).start == -1 <==> forall j :: 0 <= j < |ks| ==> ks[j] != PoolHead
    decreases |ks| - i
  {
    if i < |ks| {
      var st := if ks[i] == PoolHead then i else start;
      if !(st != -1 && ks[i] == Closing) {
        ScanPoolFinds(ks, i + 1, st);
      }
    }
  }

  /** The span the scan finds: the separator is the first one after the
      first pool header, and the start is the last pool header before
      it. */
  lemma {:induction false} ScanPoolSpan(ks: seq<LineKind>, i: nat, start: int)
    requires i <= |ks| && -1 <= start && (start < i || start == -1)
    requires start != -1 ==> ks[start] == PoolHead
    requires start != -1 ==> forall j :: start < j < i ==> ks[j] == Plain
    ensures var s := ScanPool(ks, i, start);
      && (s.start != -1 ==> ks[s.start] == PoolHead)
      && (s.start != -1 && s.end != -1 ==> s.start < s.end && ks[s.end] == Closing)
      && (s.start != -1 ==> forall j :: s.start < j < |ks| && (s.end == -1 || j < s.end) ==> ks[j] == Plain)
    decreases |ks| - i
  {
    if i < |ks| {
      var st := if ks[i] == PoolHead then i else start;
      if !(st != -1 && ks[i] == Closing) {
        ScanPoolSpan(ks, i + 1, st);
      }
    }
  }

  /** The cut-and-paste `replacePoolInLines` does once it knows the span. */
  lemma {:induction false} PasteShape(lines: seq<string>, content: seq<string>, start: nat, end: int)
    requires start < |lines| && (end == -1 || start <= end < |lines|)
    ensures var r := lines[..start] + content + SliceFrom(lines, end);
      && r[..start] == lines[..start]
      && r[start..start + |content|] == content
      && (end != -1 ==> r[start + |content|..] == lines[end..])
      && (end == -1 ==> r[start + |content|..] == [lines[|lines| - 1]])
  {
    var r := lines[..start] + content + SliceFrom(lines, end);
    assert r[start + |content|..] == SliceFrom(lines, end);
  }

  /** What the replacement keeps: everything before the last pool header
      of the section, the new content in its place, and everything from
      the closing separator on (or only the last line when no separator
      follows); the old pool lines in between are gone. */
  lemma {:induction false} ReplacePoolShape(lines: seq<string>, content: seq<string>)
    requires ReplacePool(lines, content).Ok?
    ensures var s := ScanPool(Kinds(lines), 0, -1);
      var r := ReplacePool(lines, content).value;
      && 0 <= s.start < |lines| && Trim(lines[s.start]) == PoolHeader
      && (s.end != -1 ==> s.start < s.end && IsSeparator(lines[s.end]))
      && (forall j :: s.start < j < |lines| && (s.end == -1 || j < s.end) ==>
            Trim(lines[j]) != PoolHeader && !IsSeparator(lines[j]))
      && r[..s.start] == lines[..s.start]
      && r[s.start..s.start + |content|] == content
      && (s.end != -1 ==> r[s.start + |content|..] == lines[s.end..])
      && (s.end == -1 ==> r[s.start + |content|..] == [lines[|lines| - 1]])
  {
    ScanPoolSpan(Kinds(lines), 0, -1);
    var s := ScanPool(Kinds(lines), 0, -1);
    PasteShape(lines, content, s.start, s.end);
  }

  // ------------------------------------------------------------ handler

  /** The titles the handler reads and writes. */
  function Codec(): Weeks.TitleCodec {
    Weeks.TitleCodec(Calendar.MatchTitle, Calendar.WeekTitle)
  }

  /** The document after the archive is merged into the current week as
      the handler writes it (each insertion index taken from entries
      already shifted by the earlier ones), before the pool is
      replaced. */
  function Merged(lines: seq<string>, today: int): seq<string> {
    var w := Weeks.CurrentWeek(lines, today, Codec());
    Merge.MergeAsWritten(w.lines, w.header, Merge.GroupBy(Contents(BuildPool(lines))))
  }

  /** The same with every insertion at its entry's own end. */
  function MergedFixed(lines: seq<string>, today: int): seq<string> {
    var w := Weeks.CurrentWeek(lines, today, Codec());
    Merge.Merge(w.lines, w.header, Merge.GroupBy(Contents(BuildPool(lines))))
  }

  /** The handler's two refusals, then the grouping under `keys`, the
      names the grouping object already holds, and the rebuilt pool put in
      place of the old one in the merged document `merged`. */
  function Conclude(lines: seq<string>, merged: seq<string>, keys: set<string>): (r: Result<seq<string>>)
    ensures r == Err(PoolEmpty) <==> |BuildPool(lines)| == 0
    ensures r == Err(NothingToSettle) <==> |BuildPool(lines)| > 0 && !AnyArchived(BuildPool(lines))
    ensures r == Err(InheritedName) <==>
      |BuildPool(lines)| > 0 && AnyArchived(BuildPool(lines)) && Merge.Clashes(Contents(BuildPool(lines)), keys)
    ensures r == Err(PoolNotFound) <==>
      && |BuildPool(lines)| > 0 && AnyArchived(BuildPool(lines)) && !Merge.Clashes(Contents(BuildPool(lines)), keys)
      && forall i :: 0 <= i < |merged| ==> Trim(merged[i]) != PoolHeader
    ensures r.Err? ==> r.error in {PoolEmpty, NothingToSettle, InheritedName, PoolNotFound}
    ensures r.Ok? ==>
      && AnyArchived(BuildPool(lines)) && !Merge.Clashes(Contents(BuildPool(lines)), keys)
      && r == ReplacePool(merged, PoolBlock(BuildPool(lines)))
  {
    var bs := BuildPool(lines);
    if |bs| == 0 then Err(PoolEmpty)
    else if !AnyArchived(bs) then Err(NothingToSettle)
    else if Merge.Clashes(Contents(bs), keys) then Err(InheritedName)
    else ReplacePool(merged, PoolBlock(bs))
  }

  /** POST /api/todo/week-settle on a document's lines, today being the
      day ordinal `today`, as the handler is written: `tasksByProject` is a
      plain object, so a project named after one of its inherited keys
      makes the grouping throw. */
  function Settle(lines: seq<string>, today: int): (r: Result<seq<string>>)
    ensures r == Err(PoolEmpty) <==> |BuildPool(lines)| == 0
    ensures r == Err(NothingToSettle) <==> |BuildPool(lines)| > 0 && !AnyArchived(BuildPool(lines))
    ensures r == Err(InheritedName) <==>
      |BuildPool(lines)| > 0 && AnyArchived(BuildPool(lines)) && Merge.Clashes(Contents(BuildPool(lines)), Merge.InheritedKeys)
    ensures r.Err? ==> r.error in {PoolEmpty, NothingToSettle, InheritedName}
    ensures r.Ok? <==>
      |BuildPool(lines)| > 0 && AnyArchived(BuildPool(lines)) && !Merge.Clashes(Contents(BuildPool(lines)), Merge.InheritedKeys)
  {
    MergedKeepsPool(lines, today);
    Conclude(lines, Merged(lines, today), Merge.InheritedKeys)
  }

  /** The handler with the merge corrected and the grouping kept apart
      from inherited keys. */
  function SettleFixed(lines: seq<string>, today: int): (r: Result<seq<string>>)
    ensures r == Err(PoolEmpty) <==> |BuildPool(lines)| == 0
    ensures r == Err(NothingToSettle) <==> |BuildPool(lines)| > 0 && !AnyArchived(BuildPool(lines))
    ensures r.Err? ==> r.error in {PoolEmpty, NothingToSettle}
    ensures r.Ok? <==> |BuildPool(lines)| > 0 && AnyArchived(BuildPool(lines))
  {
    MergedKeepsPool(lines, today);
    Conclude(lines, MergedFixed(lines, today), {})
  }

  /** The pool header line the pool is built from survives the week's
      resolution and either merge, both of which only add lines; so
      `replacePoolInLines` always finds a pool to replace. */
  lemma {:induction false} MergedKeepsPool(lines: seq<string>, today: int)
    ensures |BuildPool(lines)| > 0 ==>
      && (exists i :: 0 <= i < |Merged(lines, today)| && Trim(Merged(lines, today)[i]) == PoolHeader)
      && (exists i :: 0 <= i < |MergedFixed(lines, today)| && Trim(MergedFixed(lines, today)[i]) == PoolHeader)
  {
    if |BuildPool(lines)| > 0 {
      assert PoolStart(lines) < |lines| by {
        BuildPoolSpec(lines);
      }
      var l := lines[PoolStart(lines)];
      var w := Weeks.CurrentWeek(lines, today, Codec());
      var gs := Merge.GroupBy(Contents(BuildPool(lines)));
      Weeks.CurrentWeekKeeps(lines, today, Codec(), l);
      Merge.MergeKeepsAll(w.lines, w.header, gs, l);
      var m, f := Merged(lines, today), MergedFixed(lines, today);
      var i :| 0 <= i < |m| && m[i] == l;
      var j :| 0 <= j < |f| && f[j] == l;
    }
  }

  /** A project whose name is an inherited key and which has something to
      archive makes the handler as written fail, where the corrected one
      does not. */
  lemma {:induction false} InheritedNameFails(lines: seq<string>, today: int, k: nat)
    requires k < |BuildPool(lines)| && BuildPool(lines)[k].name in Merge.InheritedKeys
    requires ArchiveOf(BuildPool(lines)[k].roots) != []
    ensures Settle(lines, today) == Err(InheritedName)
    ensures SettleFixed(lines, today) != Err(InheritedName)
  {
    var bs := BuildPool(lines);
    var j := ContentsComplete(bs, k);
    assert Merge.Clashes(Contents(bs), Merge.InheritedKeys);
    ArchiveOfEmpty(bs[k].roots);
    var i :| 0 <= i < |bs[k].roots| && HasCompleted(bs[k].roots[i]);
    MarkFlags(bs[k].roots[i]);
    assert Mark(bs[k].roots[i]).flags.archive;
  }

  /** A settlement that goes through puts the rebuilt pool in place of the
      old one in the merged document, keeping what comes before it. */
  lemma {:induction false} SettlePool(lines: seq<string>, today: int)
    requires Settle(lines, today).Ok?
    ensures var m := Merged(lines, today);
      var s := ScanPool(Kinds(m), 0, -1);
      && 0 <= s.start < |m| && Trim(m[s.start]) == PoolHeader
      && Settle(lines, today).value[..s.start] == m[..s.start]
      && Settle(lines, today).value[s.start..s.start + |PoolBlock(BuildPool(lines))|] == PoolBlock(BuildPool(lines))
  {
    ReplacePoolShape(Merged(lines, today), PoolBlock(BuildPool(lines)));
  }

  /** The groups merged into the week hold, per project name, all the
      archive lines of the projects of that name. */
  lemma {:induction false} SettleGroups(bs: seq<Bucket>, name: string)
    ensures Merge.Lookup(Merge.GroupBy(Contents(bs)), name) == Merge.LinesOf(Contents(bs), name)
  {
    Merge.GroupByLookup(Contents(bs), name);
  }

  // ---------------------------------------------------------- end to end

  /** `m` keeps `doc` up to the week header at `header`, and has a line
      after it whose content is that of `line`. */
  predicate ReachesWeek(m: seq<string>, doc: seq<string>, header: nat, line: string) {
    && header < |doc| && header < |m| && m[..header + 1] == doc[..header + 1]
    && exists j :: header < j < |m| && Trim(m[j]) == Trim(line)
  }

  /** Merging the pool's grouped archive into the week at `header` of
      `doc`: every archive line of every project reaches the week, by
      either merge. */
  lemma {:induction false} GroupedArchives(doc: seq<string>, header: nat, bs: seq<Bucket>, k: nat, a: nat)
    requires header < |doc| && k < |bs| && a < |ArchiveOf(bs[k].roots)|
    ensures var gs := Merge.GroupBy(Contents(bs));
      var line := ArchiveOf(bs[k].roots)[a];
      && ReachesWeek(Merge.Merge(doc, header, gs), doc, header, line)
      && ReachesWeek(Merge.MergeAsWritten(doc, header, gs), doc, header, line)
  {
    var arch := ArchiveOf(bs[k].roots);
    var cs := Contents(bs);
    var gs := Merge.GroupBy(cs);
    var c := ContentsComplete(bs, k);
    var i := Merge.LinesOfHolds(cs, c, a);
    Merge.GroupByLookup(cs, bs[k].name);
    var g := Merge.LookupFound(gs, bs[k].name);
    Merge.MergePlaces(doc, header, gs, g, i);
    Merge.ReindentLine(gs[g].lines, Merge.Pad(gs[g]), i);
    var l := Merge.Reindent(gs[g].lines, Merge.Pad(gs[g]))[i];
    assert Trim(l) == Trim(arch[a]);
    var m := Merge.Merge(doc, header, gs);
    var j :| header < j < |m| && m[j] == l;
    var m' := Merge.MergeAsWritten(doc, header, gs);
    var j' :| header < j' < |m'| && m'[j'] == l;
  }

  /** Every archive line of every project of the pool reaches the current
      week of the merged document, as written and corrected alike. */
  lemma {:induction false} MergedArchives(lines: seq<string>, today: int, k: nat, a: nat)
    requires k < |BuildPool(lines)| && a < |ArchiveOf(BuildPool(lines)[k].roots)|
    ensures var w := Weeks.CurrentWeek(lines, today, Codec());
      var line := ArchiveOf(BuildPool(lines)[k].roots)[a];
      w.header < |w.lines| ==>
        && ReachesWeek(MergedFixed(lines, today), w.lines, w.header, line)
        && ReachesWeek(Merged(lines, today), w.lines, w.header, line)
  {
    var w := Weeks.CurrentWeek(lines, today, Codec());
    if w.header < |w.lines| {
      GroupedArchives(w.lines, w.header, BuildPool(lines), k, a);
    }
  }

  /** `r` has the header line `header`, and after it a line whose content
      is that of `line`. */
  predicate LandsAfter(r: seq<string>, header: string, line: string) {
    exists h, j :: 0 <= h < j < |r| && r[h] == header && Trim(r[j]) == Trim(line)
  }

  /** Putting the pool back keeps what follows the pool's closing
      separator, so a week after it keeps its lines. */
  lemma {:induction false} ReplaceKeepsWeek(m: seq<string>, doc: seq<string>, header: nat, content: seq<string>, line: string)
    requires ReplacePool(m, content).Ok? && ReachesWeek(m, doc, header, line)
    requires 0 <= ScanPool(Kinds(m), 0, -1).end <= header
    ensures LandsAfter(ReplacePool(m, content).value, doc[header], line)
  {
    var s := ScanPool(Kinds(m), 0, -1);
    var r := ReplacePool(m, content).value;
    var base := s.start + |content|;
    var e: nat := s.end;
    assert r[base..] == m[e..] by {
      ReplacePoolShape(m, content);
    }
    var j :| header < j < |m| && Trim(m[j]) == Trim(line);
    assert m[header] == doc[header] by {
      assert m[header] == m[..header + 1][header];
    }
    TailAt(r, m, base, e, header);
    TailAt(r, m, base, e, j);
  }

  /** A tail of `r` that is a tail of `m` holds `m`'s lines, shifted. */
  lemma {:induction false} TailAt(r: seq<string>, m: seq<string>, base: nat, e: nat, x: nat)
    requires base <= |r| && e <= x < |m| && r[base..] == m[e..]
    ensures base + (x - e) < |r| && r[base + (x - e)] == m[x]
  {
    assert r[base..][x - e] == m[e..][x - e];
  }

  /** End to end: when the settlement goes through and the current week
      lies after the pool's closing separator, every archive line of every
      project of the pool is in the settled document after the week's
      header line, by either merge. */
  lemma {:induction false} SettleArchives(lines: seq<string>, today: int, k: nat, a: nat)
    requires k < |BuildPool(lines)| && a < |ArchiveOf(BuildPool(lines)[k].roots)|
    ensures var w := Weeks.CurrentWeek(lines, today, Codec());
      var line := ArchiveOf(BuildPool(lines)[k].roots)[a];
      var e := ScanPool(Kinds(MergedFixed(lines, today)), 0, -1).end;
      SettleFixed(lines, today).Ok? && w.header < |w.lines| && 0 <= e <= w.header ==>
        LandsAfter(SettleFixed(lines, today).value, w.lines[w.header], line)
    ensures var w := Weeks.CurrentWeek(lines, today, Codec());
      var line := ArchiveOf(BuildPool(lines)[k].roots)[a];
      var e := ScanPool(Kinds(Merged(lines, today)), 0, -1).end;
      Settle(lines, today).Ok? && w.header < |w.lines| && 0 <= e <= w.header ==>
        LandsAfter(Settle(lines, today).value, w.lines[w.header], line)
  {
    var w := Weeks.CurrentWeek(lines, today, Codec());
    var line := ArchiveOf(BuildPool(lines)[k].roots)[a];
    var pb := PoolBlock(BuildPool(lines));
    MergedArchives(lines, today, k, a);
    var mf, ma := MergedFixed(lines, today), Merged(lines, today);
    if SettleFixed(lines, today).Ok? && w.header < |w.lines| && 0 <= ScanPool(Kinds(mf), 0, -1).end <= w.header {
      ReplaceKeepsWeek(mf, w.lines, w.header, pb, line);
    }
    if Settle(lines, today).Ok? && w.header < |w.lines| && 0 <= ScanPool(Kinds(ma), 0, -1).end <= w.header {
      ReplaceKeepsWeek(ma, w.lines, w.header, pb, line);
    }
  }

  /** A root's archive lines are among its project's. */
  lemma {:induction false} ArchiveOfRoot(roots: seq<Tree>, r: nat, a: nat) returns (b: nat)
    requires r < |roots| && a < |Archive(Mark(roots[r]), 0)|
    ensures b < |ArchiveOf(roots)| && ArchiveOf(roots)[b] == Archive(Mark(roots[r]), 0)[a]
  {
    b := ArchiveOfAt(roots, r, Archive(Mark(roots[r]), 0), a);
  }

  lemma {:induction false} ArchiveOfAt(roots: seq<Tree>, r: nat, x: seq<string>, a: nat) returns (b: nat)
    requires r < |roots| && x == Archive(Mark(roots[r]), 0) && a < |x|
    ensures b < |ArchiveOf(roots)| && ArchiveOf(roots)[b] == x[a]
    decreases r
  {
    var head, rest := Archive(Mark(roots[0]), 0), ArchiveOf(roots[1..]);
    ArchiveOfHead(roots);
    if r == 0 {
      b := a;
    } else {
      assert roots[1..][r - 1] == roots[r];
      var b' := ArchiveOfAt(roots[1..], r - 1, x, a);
      b := |head| + b';
      AppendAt(head, rest, ArchiveOf(roots), b');
    }
  }

  /** A project's archive starts with its first root's. */
  lemma {:induction false} ArchiveOfHead(roots: seq<Tree>)
    requires |roots| > 0
    ensures ArchiveOf(roots) == Archive(Mark(roots[0]), 0) + ArchiveOf(roots[1..])
  {
    var m := Mark(roots[0]);
    if !m.flags.archive {
      assert Archive(m, 0) == [];
    }
  }

  /** End to end from a task: a completed item anywhere under a root of
      a pool project ends up, as a done line at some depth, in the settled
      document after the current week's header line (under the same
      conditions as `SettleArchives`). */
  lemma {:induction false} SettleCompleted(lines: seq<string>, today: int, k: nat, r: nat, y: Item)
    requires k < |BuildPool(lines)| && r < |BuildPool(lines)[k].roots|
    requires y in Preorder(BuildPool(lines)[k].roots[r]) && y.completed
    ensures exists d ::
      var w := Weeks.CurrentWeek(lines, today, Codec());
      && (var e := ScanPool(Kinds(MergedFixed(lines, today)), 0, -1).end;
          SettleFixed(lines, today).Ok? && w.header < |w.lines| && 0 <= e <= w.header ==>
            LandsAfter(SettleFixed(lines, today).value, w.lines[w.header], ArchivedLine(d, y)))
      && (var e := ScanPool(Kinds(Merged(lines, today)), 0, -1).end;
          Settle(lines, today).Ok? && w.header < |w.lines| && 0 <= e <= w.header ==>
            LandsAfter(Settle(lines, today).value, w.lines[w.header], ArchivedLine(d, y)))
  {
    var root := BuildPool(lines)[k].roots[r];
    Conservation(root, 0, y);
    var d :| ArchivedLine(d, y) in Archive(Mark(root), 0);
    var a :| 0 <= a < |Archive(Mark(root), 0)| && Archive(Mark(root), 0)[a] == ArchivedLine(d, y);
    var b := ArchiveOfRoot(BuildPool(lines)[k].roots, r, a);
    SettleArchives(lines, today, k, b);
  }
}
