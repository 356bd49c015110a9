/** Writing archived lines into the current week block (dist-server/index.js,
    the week-settle handler's steps 9 to 11): the archived lines are grouped
    by project, appended to a project entry the week already has, or added
    as new entries at the end of the block. */
module Merge {
  import opened Text
  import opened Lines
  import opened Outcome
  import opened Splice
  import Classify
  import Editor

  // ------------------------------------------------------------- groups

  /** One project's archived lines (an entry of `tasksByProject`). */
  datatype Group = Group(name: string, lines: seq<string>)

  function GroupNames(gs: seq<Group>): (ns: seq<string>)
    ensures |ns| == |gs| && forall k :: 0 <= k < |gs| ==> ns[k] == gs[k].name
  {
    if |gs| == 0 then [] else [gs[0].name] + GroupNames(gs[1..])
  }

  predicate Distinct(ns: seq<string>) {
    forall k, l :: 0 <= k < l < |ns| ==> ns[k] != ns[l]
  }

  /** Adds one archive content to the groups: its lines go after those of a
      group of the same name, or open a new group at the end. */
  function AddGroup(gs: seq<Group>, name: string, ls: seq<string>): (r: seq<Group>)
    ensures name in GroupNames(gs) ==> GroupNames(r) == GroupNames(gs)
    ensures name !in GroupNames(gs) ==> GroupNames(r) == GroupNames(gs) + [name]
  {
    if |gs| == 0 then [Group(name, ls)]
    else if gs[0].name == name then [Group(name, gs[0].lines + ls)] + gs[1..]
    else [gs[0]] + AddGroup(gs[1..], name, ls)
  }

  /** The keys a plain `{}` answers for before anything is stored in it:
      the properties it inherits from `Object.prototype`. Each reads as a
      function or, for `__proto__`, as the prototype itself; so the
      `!tasksByProject[name]` test finds it set, no array is made, and
      `.push` is not there to call: the handler throws and answers 500. */
  const InheritedKeys: set<string> := {
    "constructor", "hasOwnProperty", "isPrototypeOf", "propertyIsEnumerable",
    "toLocaleString", "toString", "valueOf", "__proto__",
    "__defineGetter__", "__defineSetter__", "__lookupGetter__", "__lookupSetter__"}

  /** Some group is named by one of `keys`. */
  predicate Clashes(contents: seq<Group>, keys: set<string>) {
    exists k :: 0 <= k < |contents| && contents[k].name in keys
  }

  /** `tasksByProject`: the archive contents grouped by project, in the
      order the names first appear. */
  function GroupBy(contents: seq<Group>): (gs: seq<Group>)
    ensures Distinct(GroupNames(gs))
    ensures forall n :: n in GroupNames(gs) <==> n in GroupNames(contents)
  {
    if |contents| == 0 then []
    else
      var front := GroupBy(contents[..|contents| - 1]);
      var last := contents[|contents| - 1];
      GroupNamesSnoc(contents);
      AddGroupNames(front, last.name, last.lines);
      AddGroup(front, last.name, last.lines)
  }

  lemma {:induction false} GroupNamesSnoc(contents: seq<Group>)
    requires |contents| > 0
    ensures GroupNames(contents) == GroupNames(contents[..|contents| - 1]) + [contents[|contents| - 1].name]
  {
    var init := contents[..|contents| - 1];
    var ns, front := GroupNames(contents), GroupNames(init);
    forall k | 0 <= k < |front|
      ensures ns[k] == front[k]
    {
      assert init[k] == contents[k];
    }
    assert ns == front + [contents[|contents| - 1].name];
  }

  /** Adding a content keeps the names distinct and adds its name. */
  lemma {:induction false} AddGroupNames(gs: seq<Group>, name: string, ls: seq<string>)
    requires Distinct(GroupNames(gs))
    ensures Distinct(GroupNames(AddGroup(gs, name, ls)))
    ensures forall n :: n in GroupNames(AddGroup(gs, name, ls)) <==> n in GroupNames(gs) || n == name
  {
    var ns := GroupNames(gs);
    if name !in ns {
      var rs := ns + [name];
      assert GroupNames(AddGroup(gs, name, ls)) == rs;
      forall a, b | 0 <= a < b < |rs|
        ensures rs[a] != rs[b]
      {
        if b == |ns| {
          assert rs[a] == ns[a];
        } else {
          assert rs[a] == ns[a] && rs[b] == ns[b];
        }
      }
    }
  }

  /** The lines of the first group named `n`, none if there is no such
      group. */
  function Lookup(gs: seq<Group>, n: string): seq<string> {
    if |gs| == 0 then [] else if gs[0].name == n then gs[0].lines else Lookup(gs[1..], n)
  }

  /** All lines filed under `n`, in archive order. */
  function LinesOf(contents: seq<Group>, n: string): seq<string> {
    if |contents| == 0 then []
    else
      var last := contents[|contents| - 1];
      LinesOf(contents[..|contents| - 1], n) + (if last.name == n then last.lines else [])
  }

  lemma {:induction false} AddGroupLookup(gs: seq<Group>, name: string, ls: seq<string>, n: string)
    ensures Lookup(AddGroup(gs, name, ls), n) == Lookup(gs, n) + (if n == name then ls else [])
  {
    if |gs| > 0 && gs[0].name != name {
      AddGroupLookup(gs[1..], name, ls, n);
      assert ([gs[0]] + AddGroup(gs[1..], name, ls))[1..] == AddGroup(gs[1..], name, ls);
    }
  }

  /** Each group of `tasksByProject` holds every line filed under its name,
      in archive order. */
  lemma {:induction false} GroupByLookup(contents: seq<Group>, n: string)
    ensures Lookup(GroupBy(contents), n) == LinesOf(contents, n)
  {
    if |contents| > 0 {
      var last := contents[|contents| - 1];
      GroupByLookup(contents[..|contents| - 1], n);
      AddGroupLookup(GroupBy(contents[..|contents| - 1]), last.name, last.lines, n);
    }
  }

  // ------------------------------------------------------ project entries

  predicate NoLineTerminator(s: string) {
    forall i :: 0 <= i < |s| ==> !IsLineTerminator(s[i])
  }

  /** `/^- \[x\] (.+)$/`: a completed top-level task; the captured rest of
      the line is the project it files under. */
  function EntryName(line: string): Option<string> {
    if StartsWith(line, "- [x] ") && |line| > 6 && NoLineTerminator(line[6..]) then Some(line[6..]) else None
  }

  /** An entry line is its prefix and a non-empty single-line name, and
      every such line is an entry line. */
  lemma {:induction false} EntryNameShape(line: string)
    ensures EntryName(line).Some? <==>
      exists name :: name != "" && NoLineTerminator(name) && line == "- [x] " + name
    ensures EntryName(line).Some? ==> line == "- [x] " + EntryName(line).value
  {
    if EntryName(line).Some? {
      assert line == line[..6] + line[6..];
    }
    if exists name :: name != "" && NoLineTerminator(name) && line == "- [x] " + name {
      var name :| name != "" && NoLineTerminator(name) && line == "- [x] " + name;
      assert line[..6] == "- [x] " && line[6..] == name;
    }
  }

  predicate IsEntryLine(line: string) {
    EntryName(line).Some?
  }

  /** `/^\s+\S/`: indented and not blank. */
  predicate Indented(line: string) {
    0 < LeadingWs(line) < |line|
  }

  /** `/^\s+- \[.?\]/`. The greedy run of whitespace cannot give back any
      character, since `-` is not whitespace. */
  predicate IndentedBox(line: string) {
    var w := LeadingWs(line);
    && 0 < w && w + 4 <= |line| && line[w..w + 3] == "- ["
    && (line[w + 3] == ']' || (w + 5 <= |line| && !IsLineTerminator(line[w + 3]) && line[w + 4] == ']'))
  }

  /** The test of the inner loop as the handler writes it: not another
      entry, and an indented task, an indented line or a blank line. */
  predicate ContinuesAsWritten(line: string) {
    !IsEntryLine(line) && (IndentedBox(line) || Indented(line) || Trim(line) == "")
  }

  /** A line that keeps an entry going: not another entry, and starting
      with whitespace or empty. */
  predicate Continues(line: string) {
    !IsEntryLine(line) && (LeadingWs(line) > 0 || |line| == 0)
  }

  /** The indented-task pattern adds nothing to the indented-line one,
      and indented or blank is leading whitespace or empty. */
  lemma {:induction false} ContinuesIsAsWritten(line: string)
    ensures ContinuesAsWritten(line) <==> Continues(line)
  {
    var w := LeadingWs(line);
    if IndentedBox(line) {
      assert line[w] == line[w..w + 3][0] == '-';
    }
    if w == |line| {
      assert AllWs(line);
    }
    if Trim(line) == "" {
      assert AllWs(line);
      if |line| > 0 {
        assert w > 0;
      }
    }
  }

  /** The inner loop: where the entry whose lines continue from `j` ends. */
  function EntryEnd(lines: seq<string>, j: nat, we: nat): (k: nat)
    requires j <= we <= |lines|
    ensures j <= k <= we
    ensures forall x :: j <= x < k ==> Continues(lines[x])
    ensures forall x :: j <= x < k ==> !IsEntryLine(lines[x])
    ensures k < we ==> !Continues(lines[k])
    decreases we - j
  {
    if j == we || !Continues(lines[j]) then j else EntryEnd(lines, j + 1, we)
  }

  /** A project entry of the week: its line, name and end. */
  datatype Entry = Entry(line: nat, name: string, end: nat)

  /** `existingProjects`: the entries between `i` and the week end `we`, in
      file order. */
  function Entries(lines: seq<string>, i: nat, we: nat): seq<Entry>
    requires we <= |lines|
    decreases we - i
  {
    if i >= we then []
    else
      var rest := Entries(lines, i + 1, we);
      match EntryName(lines[i])
      case None => rest
      case Some(name) => [Entry(i, name, EntryEnd(lines, i + 1, we))] + rest
  }
  /** Each listed entry is an entry line of the range, named by it, and
      ends where its continuation lines stop. */
  lemma {:induction false} EntriesAt(lines: seq<string>, i: nat, we: nat, k: nat)
    requires we <= |lines| && k < |Entries(lines, i, we)|
    ensures var e := Entries(lines, i, we)[k];
      && i <= e.line < e.end <= we
      && EntryName(lines[e.line]) == Some(e.name)
      && e.end == EntryEnd(lines, e.line + 1, we)
    decreases we - i
  {
    var es, rest := Entries(lines, i, we), Entries(lines, i + 1, we);
    if EntryName(lines[i]).None? {
      assert es == rest;
      EntriesAt(lines, i + 1, we, k);
    } else {
      var e := Entry(i, EntryName(lines[i]).value, EntryEnd(lines, i + 1, we));
      assert es == [e] + rest;
      if k > 0 {
        assert es[k] == rest[k - 1];
        EntriesAt(lines, i + 1, we, k - 1);
      } else {
        assert es[0] == e;
      }
    }
  }
  /** Listed entries come in file order and do not overlap. */
  lemma {:induction false} EntriesOrdered(lines: seq<string>, i: nat, we: nat, k: nat, l: nat)
    requires we <= |lines| && k < l < |Entries(lines, i, we)|
    ensures Entries(lines, i, we)[k].end <= Entries(lines, i, we)[l].line
    decreases we - i
  {
    if EntryName(lines[i]).None? {
      EntriesOrdered(lines, i + 1, we, k, l);
    } else if k > 0 {
      EntriesOrdered(lines, i + 1, we, k - 1, l - 1);
    } else {
      EntriesAt(lines, i + 1, we, l - 1);
    }
  }

  /** Every entry line of the range is listed. */
  lemma {:induction false} EntriesComplete(lines: seq<string>, i: nat, we: nat, j: nat) returns (k: nat)
    requires we <= |lines| && i <= j < we && IsEntryLine(lines[j])
    ensures k < |Entries(lines, i, we)| && Entries(lines, i, we)[k].line == j
    decreases j - i
  {
    if i == j {
      k := 0;
    } else {
      k := EntriesComplete(lines, i + 1, we, j);
      if IsEntryLine(lines[i]) {
        k := k + 1;
      }
    }
  }

  /** `existingProjects.find(p => p.name === name)`, as an index. */
  function FindEntry(es: seq<Entry>, name: string): (k: Option<nat>)
    ensures k.None? <==> forall i :: 0 <= i < |es| ==> es[i].name != name
    ensures k.Some? ==> k.value < |es| && es[k.value].name == name
    ensures k.Some? ==> forall i :: 0 <= i < k.value ==> es[i].name != name
  {
    if |es| == 0 then None
    else if es[0].name == name then Some(0)
    else match FindEntry(es[1..], name)
      case None => None
      case Some(k) => Some(k + 1)
  }

  // ----------------------------------------------------------- reindent

  /** `Math.min(...lines.map(l => l.search(/\S/)).filter(n => n >= 0))`,
      None where that is `Infinity` (every line blank). */
  function MinIndent(ls: seq<string>): (m: Option<nat>)
    ensures m.None? <==> forall i :: 0 <= i < |ls| ==> AllWs(ls[i])
    ensures m.Some? ==> forall i :: 0 <= i < |ls| && !AllWs(ls[i]) ==> m.value <= LeadingWs(ls[i])
  {
    if |ls| == 0 then None
    else
      var rest := MinIndent(ls[1..]);
      assert forall i :: 1 <= i < |ls| ==> ls[i] == ls[1..][i - 1];
      if AllWs(ls[0]) then rest
      else if rest.None? || LeadingWs(ls[0]) <= rest.value then Some(LeadingWs(ls[0]))
      else rest
  }

  /** The minimum is the indentation of some line that is not blank. */
  lemma {:induction false} MinIndentAttained(ls: seq<string>) returns (i: nat)
    requires MinIndent(ls).Some?
    ensures i < |ls| && !AllWs(ls[i]) && LeadingWs(ls[i]) == MinIndent(ls).value
    decreases |ls|
  {
    var rest := MinIndent(ls[1..]);
    if !AllWs(ls[0]) && (rest.None? || LeadingWs(ls[0]) <= rest.value) {
      i := 0;
    } else {
      var i' := MinIndentAttained(ls[1..]);
      i := i' + 1;
      assert ls[i] == ls[1..][i'];
    }
  }

  /** `currentIndent >= 0 ? currentIndent - minIndent : 0` */
  function Relative(line: string, m: Option<nat>): nat {
    if AllWs(line) || m.None? || LeadingWs(line) < m.value then 0 else LeadingWs(line) - m.value
  }

  /** Each line re-indented under a pad of `pad` spaces (four under an
      entry, none for lines without a project), keeping the indentation of
      the lines relative to the shallowest one. */
  function Reindent(ls: seq<string>, pad: nat): (r: seq<string>)
    ensures |r| == |ls|
    ensures forall i :: 0 <= i < |ls| ==> r[i] == Spaces(pad) + Spaces(Relative(ls[i], MinIndent(ls))) + Trim(ls[i])
  {
    var m := MinIndent(ls);
    seq(|ls|, i requires 0 <= i < |ls| => Spaces(pad) + Spaces(Relative(ls[i], m)) + Trim(ls[i]))
  }

  /** A re-indented line: its content is the trimmed original, its leading
      whitespace is the pad plus the original's depth below the shallowest
      line, and a blank line becomes the pad alone. */
  lemma {:induction false} ReindentLine(ls: seq<string>, pad: nat, i: nat)
    requires i < |ls|
    ensures var r := Reindent(ls, pad)[i];
      && Trim(r) == Trim(ls[i])
      && (AllWs(ls[i]) ==> r == Spaces(pad))
      && (!AllWs(ls[i]) ==> LeadingWs(r) == pad + LeadingWs(ls[i]) - MinIndent(ls).value)
  {
    var m := MinIndent(ls);
    assert !AllWs(ls[i]) ==> m.Some? && m.value <= LeadingWs(ls[i]);
    PadLine(ls[i], m, pad);
  }

  /** One line under the pad, with `m` at most its indentation. */
  lemma {:induction false} PadLine(line: string, m: Option<nat>, pad: nat)
    requires !AllWs(line) ==> m.Some? && m.value <= LeadingWs(line)
    ensures var r := Spaces(pad) + Spaces(Relative(line, m)) + Trim(line);
      && Trim(r) == Trim(line)
      && (AllWs(line) ==> r == Spaces(pad))
      && (!AllWs(line) ==> LeadingWs(r) == pad + LeadingWs(line) - m.value)
  {
    var rel := Relative(line, m);
    var p := Spaces(pad) + Spaces(rel);
    assert Spaces(pad) + Spaces(rel) + Trim(line) == p + Trim(line);
    assert AllWs(p) by {
      assert forall j :: 0 <= j < |p| ==> p[j] == ' ';
    }
    PadTrimmed(p, line);
    if AllWs(line) {
      assert rel == 0;
      assert Spaces(rel) == [];
      assert p == Spaces(pad);
    }
  }

  /** Whitespace put before a trimmed line trims away again, and is all
      of its leading whitespace. */
  lemma {:induction false} PadTrimmed(p: string, line: string)
    requires AllWs(p)
    ensures Trim(p + Trim(line)) == Trim(line)
    ensures AllWs(line) ==> p + Trim(line) == p
    ensures !AllWs(line) ==> LeadingWs(p + Trim(line)) == |p|
  {
    var t := Trim(line);
    if AllWs(line) {
      assert t == [];
      assert p + t == p;
      TrimAllWs(p);
    } else {
      TrimShape(line);
      LeadingWsConcat(p, t);
      TrimPadded(p, t);
    }
  }

  /** Some line of a group that is not all blank ends up at exactly the
      pad: the shallowest one. */
  lemma {:induction false} ReindentShallowest(ls: seq<string>, pad: nat) returns (i: nat)
    requires exists j :: 0 <= j < |ls| && !AllWs(ls[j])
    ensures i < |ls| && !AllWs(ls[i]) && LeadingWs(Reindent(ls, pad)[i]) == pad
    ensures forall j :: 0 <= j < |ls| && !AllWs(ls[j]) ==> LeadingWs(Reindent(ls, pad)[j]) >= pad
  {
    i := MinIndentAttained(ls);
    ReindentLine(ls, pad, i);
    forall j | 0 <= j < |ls| && !AllWs(ls[j])
      ensures LeadingWs(Reindent(ls, pad)[j]) >= pad
    {
      ReindentLine(ls, pad, j);
    }
  }

  /** Two non-blank lines keep the difference of their indentation. */
  lemma {:induction false} ReindentRelative(ls: seq<string>, pad: nat, i: nat, j: nat)
    requires i < |ls| && j < |ls| && !AllWs(ls[i]) && !AllWs(ls[j])
    ensures LeadingWs(Reindent(ls, pad)[i]) - LeadingWs(Reindent(ls, pad)[j]) == LeadingWs(ls[i]) - LeadingWs(ls[j])
  {
    ReindentLine(ls, pad, i);
    ReindentLine(ls, pad, j);
  }

  lemma {:induction false} TrimAllWs(s: string)
    requires AllWs(s)
    ensures Trim(s) == ""
  {
  }

  /** Whitespace before a trimmed string trims away. */
  lemma {:induction false} TrimPadded(p: string, t: string)
    requires AllWs(p) && |t| > 0 && !IsWs(t[0]) && !IsWs(t[|t| - 1])
    ensures Trim(p + t) == t
    decreases |p|
  {
    if |p| == 0 {
      assert p + t == t;
      TrimOfTrimmed(t);
    } else {
      assert (p + t)[1..] == p[1..] + t;
      TrimPadded(p[1..], t);
    }
  }

  // --------------------------------------------------------- insertions

  /** The plan of step 11: insertions into existing entries, and the
      groups that get a new entry at the end of the block. */
  datatype Plan = Plan(insertions: seq<Insertion>, atEnd: seq<Group>)

  /** The update loop: every entry ending at or after `at` moves down by
      `n` lines. */
  function Shift(es: seq<Entry>, at: nat, n: nat): (r: seq<Entry>)
    ensures |r| == |es|
    ensures forall k :: 0 <= k < |es| ==> r[k].name == es[k].name && r[k].line == es[k].line
    ensures forall k :: 0 <= k < |es| ==> r[k].end == if es[k].end >= at then es[k].end + n else es[k].end
  {
    seq(|es|, k requires 0 <= k < |es| => var e := es[k]; if e.end >= at then Entry(e.line, e.name, e.end + n) else e)
  }

  /** Step 11 as the handler writes it: each insertion's index is taken
      from entries already shifted by the earlier insertions. */
  function PlanAsWritten(gs: seq<Group>, es: seq<Entry>): (p: Plan)
    ensures |p.insertions| + |p.atEnd| == |gs|
  {
    if |gs| == 0 then Plan([], [])
    else
      var g := gs[0];
      if g.name != "" && FindEntry(es, g.name).Some? then
        var e := es[FindEntry(es, g.name).value].end;
        var ls := Reindent(g.lines, 4);
        var rest := PlanAsWritten(gs[1..], Shift(es, e, |ls|));
        Plan([Insertion(e, ls)] + rest.insertions, rest.atEnd)
      else
        var rest := PlanAsWritten(gs[1..], es);
        Plan(rest.insertions, [g] + rest.atEnd)
  }

  /** Step 11 with the insertion indices left as the entries' own ends,
      which is what the back-to-front splice that follows expects. */
  function PlanFixed(gs: seq<Group>, es: seq<Entry>): (p: Plan)
    ensures |p.insertions| + |p.atEnd| == |gs|
  {
    if |gs| == 0 then Plan([], [])
    else
      var g := gs[0];
      var rest := PlanFixed(gs[1..], es);
      if g.name != "" && FindEntry(es, g.name).Some? then
        var i := FindEntry(es, g.name).value;
        Plan([Insertion(es[i].end, Reindent(g.lines, 4))] + rest.insertions, rest.atEnd)
      else Plan(rest.insertions, [g] + rest.atEnd)
  }

  /** Whether a group is appended to an entry the week already has. */
  predicate Matched(g: Group, es: seq<Entry>) {
    g.name != "" && FindEntry(es, g.name).Some?
  }

  /** One step of the plan: the first group's insertion or new entry, in
      front of the plan of the rest. */
  lemma {:induction false} PlanFixedStep(gs: seq<Group>, es: seq<Entry>) returns (tail: seq<Group>)
    requires |gs| > 0
    ensures tail == gs[1..] && |tail| == |gs| - 1 && forall j :: 0 <= j < |tail| ==> tail[j] == gs[j + 1]
    ensures Matched(gs[0], es) ==>
      && PlanFixed(gs, es).insertions
         == [Insertion(es[FindEntry(es, gs[0].name).value].end, Reindent(gs[0].lines, 4))] + PlanFixed(tail, es).insertions
      && PlanFixed(gs, es).atEnd == PlanFixed(tail, es).atEnd
    ensures !Matched(gs[0], es) ==>
      && PlanFixed(gs, es).insertions == PlanFixed(tail, es).insertions
      && PlanFixed(gs, es).atEnd == [gs[0]] + PlanFixed(tail, es).atEnd
  {
    tail := gs[1..];
  }

  /** Where the rest's insertion `k` sits in the whole plan. */
  lemma {:induction false} TailIndex(gs: seq<Group>, es: seq<Entry>, tail: seq<Group>, k: nat) returns (j: nat)
    requires |gs| > 0 && tail == gs[1..] && k < |PlanFixed(tail, es).insertions|
    ensures j < |PlanFixed(gs, es).insertions| && PlanFixed(gs, es).insertions[j] == PlanFixed(tail, es).insertions[k]
  {
    var ins, rest := PlanFixed(gs, es).insertions, PlanFixed(tail, es).insertions;
    if Matched(gs[0], es) {
      var h := Insertion(es[FindEntry(es, gs[0].name).value].end, Reindent(gs[0].lines, 4));
      assert ins == [h] + rest;
      j := k + 1;
      assert ins[j] == rest[k] by {
        ConsAt(h, rest, ins, k);
      }
    } else {
      j := k;
    }
  }

  /** Where the whole plan's insertion `k`, if not the first group's, sits
      in the rest's plan. */
  lemma {:induction false} HeadIndex(gs: seq<Group>, es: seq<Entry>, tail: seq<Group>, k: nat) returns (j: nat)
    requires |gs| > 0 && tail == gs[1..] && k < |PlanFixed(gs, es).insertions|
    requires Matched(gs[0], es) ==> k > 0
    ensures j < |PlanFixed(tail, es).insertions| && PlanFixed(gs, es).insertions[k] == PlanFixed(tail, es).insertions[j]
  {
    j := if Matched(gs[0], es) then k - 1 else k;
  }

  /** Every insertion of the plan is a named group's lines, re-indented
      under its entry and placed at that entry's end. */
  lemma {:induction false} PlanFixedInsertion(gs: seq<Group>, es: seq<Entry>, k: nat) returns (g: nat, i: nat)
    requires k < |PlanFixed(gs, es).insertions|
    ensures g < |gs| && gs[g].name != "" && FindEntry(es, gs[g].name) == Some(i)
    ensures PlanFixed(gs, es).insertions[k] == Insertion(es[i].end, Reindent(gs[g].lines, 4))
    decreases |gs|
  {
    var tail := PlanFixedStep(gs, es);
    if Matched(gs[0], es) && k == 0 {
      g, i := 0, FindEntry(es, gs[0].name).value;
    } else {
      var k' := HeadIndex(gs, es, tail, k);
      var g', i' := PlanFixedInsertion(tail, es, k');
      g, i := g' + 1, i';
    }
  }

  /** A named group whose entry exists gets an insertion at that entry's
      end. */
  lemma {:induction false} PlanFixedCoversMatched(gs: seq<Group>, es: seq<Entry>, g: nat) returns (k: nat)
    requires g < |gs| && Matched(gs[g], es)
    ensures k < |PlanFixed(gs, es).insertions|
    ensures PlanFixed(gs, es).insertions[k] == Insertion(es[FindEntry(es, gs[g].name).value].end, Reindent(gs[g].lines, 4))
  {
    k := CoversMatchedAt(gs, es, g, gs[g], Insertion(es[FindEntry(es, gs[g].name).value].end, Reindent(gs[g].lines, 4)));
  }

  lemma {:induction false} CoversMatchedAt(gs: seq<Group>, es: seq<Entry>, g: nat, x: Group, h: Insertion) returns (k: nat)
    requires g < |gs| && gs[g] == x && Matched(x, es)
    requires h == Insertion(es[FindEntry(es, x.name).value].end, Reindent(x.lines, 4))
    ensures k < |PlanFixed(gs, es).insertions| && PlanFixed(gs, es).insertions[k] == h
    decreases |gs|
  {
    if g == 0 {
      k := 0;
      HeadCovered(gs, es, x, h);
    } else {
      var tail := gs[1..];
      assert tail[g - 1] == gs[g];
      var k' := CoversMatchedAt(tail, es, g - 1, x, h);
      k := TailIndex(gs, es, tail, k');
    }
  }

  /** A matched first group's insertion opens the plan. */
  lemma {:induction false} HeadCovered(gs: seq<Group>, es: seq<Entry>, x: Group, h: Insertion)
    requires |gs| > 0 && gs[0] == x && Matched(x, es)
    requires h == Insertion(es[FindEntry(es, x.name).value].end, Reindent(x.lines, 4))
    ensures 0 < |PlanFixed(gs, es).insertions| && PlanFixed(gs, es).insertions[0] == h
  {
    var tail := PlanFixedStep(gs, es);
  }

  /** Any other group gets a new entry at the end of the block. */
  lemma {:induction false} PlanFixedCoversRest(gs: seq<Group>, es: seq<Entry>, g: nat) returns (k: nat)
    requires g < |gs| && !Matched(gs[g], es)
    ensures k < |PlanFixed(gs, es).atEnd| && PlanFixed(gs, es).atEnd[k] == gs[g]
  {
    k := CoversRestAt(gs, es, g, gs[g]);
  }

  lemma {:induction false} CoversRestAt(gs: seq<Group>, es: seq<Entry>, g: nat, x: Group) returns (k: nat)
    requires g < |gs| && gs[g] == x && !Matched(x, es)
    ensures k < |PlanFixed(gs, es).atEnd| && PlanFixed(gs, es).atEnd[k] == x
    decreases |gs|
  {
    var tail := PlanFixedStep(gs, es);
    if g == 0 {
      k := 0;
    } else {
      var k' := CoversRestAt(tail, es, g - 1, x);
      if Matched(gs[0], es) {
        k := k';
      } else {
        k := k' + 1;
        ConsAt(gs[0], PlanFixed(tail, es).atEnd, PlanFixed(gs, es).atEnd, k');
      }
    }
  }

  /** Entries that come in file order end at strictly increasing lines. */
  predicate EndsIncrease(es: seq<Entry>) {
    forall a, b :: 0 <= a < b < |es| ==> es[a].end < es[b].end
  }

  lemma {:induction false} EndsApart(es: seq<Entry>, i: nat, j: nat)
    requires EndsIncrease(es) && i < |es| && j < |es| && i != j
    ensures es[i].end != es[j].end
  {
    if i < j { assert es[i].end < es[j].end; } else { assert es[j].end < es[i].end; }
  }

  /** With distinct group names, no two insertions of the plan share an
      index. */
  lemma {:induction false} PlanFixedDistinct(gs: seq<Group>, es: seq<Entry>)
    requires Distinct(GroupNames(gs)) && EndsIncrease(es)
    ensures DistinctIndices(PlanFixed(gs, es).insertions)
    decreases |gs|
  {
    if |gs| > 0 {
      var tail := PlanFixedStep(gs, es);
      assert Distinct(GroupNames(tail)) by {
        forall a, b | 0 <= a < b < |tail|
          ensures GroupNames(tail)[a] != GroupNames(tail)[b]
        {
          assert tail[a] == gs[a + 1] && tail[b] == gs[b + 1];
        }
      }
      PlanFixedDistinct(tail, es);
      if Matched(gs[0], es) {
        var i0 := FindEntry(es, gs[0].name).value;
        PlanFixedHeadApart(gs, es, tail, i0);
        ConsDistinct(Insertion(es[i0].end, Reindent(gs[0].lines, 4)), PlanFixed(tail, es).insertions, PlanFixed(gs, es).insertions);
      }
    }
  }

  /** An insertion whose index none of the others has keeps them
      distinct. */
  lemma {:induction false} ConsDistinct(h: Insertion, rest: seq<Insertion>, ins: seq<Insertion>)
    requires ins == [h] + rest && DistinctIndices(rest)
    requires forall l :: 0 <= l < |rest| ==> rest[l].index != h.index
    ensures DistinctIndices(ins)
  {
    forall k, l | 0 <= k < l < |ins|
      ensures ins[k].index != ins[l].index
    {
      assert ins[l] == rest[l - 1];
      if k > 0 {
        assert ins[k] == rest[k - 1];
      }
    }
  }

  /** No insertion for the other groups lands at the end of the first
      group's entry. */
  lemma {:induction false} PlanFixedHeadApart(gs: seq<Group>, es: seq<Entry>, tail: seq<Group>, i0: nat)
    requires |gs| > 0 && gs[0].name != "" && FindEntry(es, gs[0].name) == Some(i0)
    requires Distinct(GroupNames(gs)) && EndsIncrease(es)
    requires |tail| == |gs| - 1 && forall j :: 0 <= j < |tail| ==> tail[j] == gs[j + 1]
    ensures forall l :: 0 <= l < |PlanFixed(tail, es).insertions| ==> PlanFixed(tail, es).insertions[l].index != es[i0].end
  {
    forall l | 0 <= l < |PlanFixed(tail, es).insertions|
      ensures PlanFixed(tail, es).insertions[l].index != es[i0].end
    {
      var g, i := PlanFixedInsertion(tail, es, l);
      assert tail[g] == gs[g + 1];
      assert GroupNames(gs)[0] != GroupNames(gs)[g + 1];
      assert i != i0 by {
        assert es[i].name == tail[g].name;
        assert es[i0].name == gs[0].name;
      }
      EndsApart(es, i, i0);
    }
  }

  /** Every insertion index is the end of some entry. */
  lemma {:induction false} PlanFixedBounded(gs: seq<Group>, es: seq<Entry>, we: nat)
    requires forall a :: 0 <= a < |es| ==> es[a].end <= we
    ensures forall k :: 0 <= k < |PlanFixed(gs, es).insertions| ==> PlanFixed(gs, es).insertions[k].index <= we
  {
    forall k | 0 <= k < |PlanFixed(gs, es).insertions|
      ensures PlanFixed(gs, es).insertions[k].index <= we
    {
      var g, i := PlanFixedInsertion(gs, es, k);
    }
  }

  // ----------------------------------------------------------- new entries

  /** The lines of the groups that get a new entry: `- [x] name` and the
      group's lines four deeper, or for the group without a name its lines
      as they are re-indented at the margin. */
  function NewEntries(gs: seq<Group>): seq<string> {
    if |gs| == 0 then [] else EntryBlock(gs[0]) + NewEntries(gs[1..])
  }

  /** The lines written for one group that gets a new entry. */
  function EntryBlock(g: Group): seq<string> {
    if g.name != "" then ["- [x] " + g.name] + Reindent(g.lines, 4) else Reindent(g.lines, 0)
  }

  /** The block written for a new project reads back as one entry of
      that name: its first line names it and every re-indented line
      continues it. */
  lemma {:induction false} NewEntryReadsBack(name: string, ls: seq<string>)
    requires name != "" && NoLineTerminator(name)
    ensures var block := ["- [x] " + name] + Reindent(ls, 4);
      && EntryName(block[0]) == Some(name)
      && forall k :: 1 <= k < |block| ==> Continues(block[k])
  {
    var block := ["- [x] " + name] + Reindent(ls, 4);
    assert EntryName(block[0]) == Some(name) by {
      EntryLineNames(name);
    }
    forall k | 1 <= k < |block|
      ensures Continues(block[k])
    {
      BlockLineContinues(name, ls, block, k);
    }
  }

  lemma {:induction false} BlockLineContinues(name: string, ls: seq<string>, block: seq<string>, k: nat)
    requires block == ["- [x] " + name] + Reindent(ls, 4) && 1 <= k < |block|
    ensures Continues(block[k])
  {
    var rest := Reindent(ls, 4);
    ConsAt("- [x] " + name, rest, block, k - 1);
    var line := rest[k - 1];
    PaddedLine(ls, k - 1);
    PaddedContinues(line);
  }

  /** The entry line written for a name reads back as that name. */
  lemma {:induction false} EntryLineNames(name: string)
    requires name != "" && NoLineTerminator(name)
    ensures EntryName("- [x] " + name) == Some(name)
  {
    var line := "- [x] " + name;
    assert line[..6] == "- [x] " && line[6..] == name;
  }

  /** A line re-indented under an entry starts with a space. */
  lemma {:induction false} PaddedLine(ls: seq<string>, i: nat)
    requires i < |ls|
    ensures |Reindent(ls, 4)[i]| > 0 && Reindent(ls, 4)[i][0] == ' '
  {
    var pad := Spaces(4) + Spaces(Relative(ls[i], MinIndent(ls)));
    assert Reindent(ls, 4)[i] == pad + Trim(ls[i]);
    assert (pad + Trim(ls[i]))[0] == pad[0] == Spaces(4)[0];
  }

  /** A line that starts with a space continues an entry. */
  lemma {:induction false} PaddedContinues(line: string)
    requires |line| > 0 && line[0] == ' '
    ensures Continues(line)
  {
    assert !StartsWith(line, "- [x] ");
  }

  // --------------------------------------------------------------- merge

  /** Steps 9 to 11 into the week whose header is at `header`, with the
      entry insertions applied from the back after a descending sort, then
      the new entries (and a blank line) at the block's end. */
  function MergeWith(lines: seq<string>, header: nat, p: Plan): seq<string> {
    var merged := SpliceAll(lines, SortDescending(p.insertions));
    var end := Editor.WeekInsertPoint(merged, header);
    var added := NewEntries(p.atEnd);
    if |added| == 0 then merged else Insert(merged, end, added + [""])
  }

  /** The entries of the week whose header is at `header`. */
  function WeekEntries(lines: seq<string>, header: nat): seq<Entry> {
    var we := Editor.WeekInsertPoint(lines, header);
    Entries(lines, header + 1, we)
  }

  /** The handler as written. */
  function MergeAsWritten(lines: seq<string>, header: nat, gs: seq<Group>): seq<string> {
    MergeWith(lines, header, PlanAsWritten(gs, WeekEntries(lines, header)))
  }

  /** The merge with each insertion at its entry's own end. */
  function Merge(lines: seq<string>, header: nat, gs: seq<Group>): seq<string> {
    MergeWith(lines, header, PlanFixed(gs, WeekEntries(lines, header)))
  }

  /** Entries end in strictly increasing order, inside the range. */
  lemma {:induction false} EntriesShape(lines: seq<string>, i: nat, we: nat)
    requires we <= |lines|
    ensures EndsIncrease(Entries(lines, i, we))
    ensures forall a :: 0 <= a < |Entries(lines, i, we)| ==> Entries(lines, i, we)[a].end <= we
  {
    var es := Entries(lines, i, we);
    forall a, b | 0 <= a < b < |es|
      ensures es[a].end < es[b].end
    {
      EntriesOrdered(lines, i, we, a, b);
      EntriesAt(lines, i, we, b);
    }
    forall a | 0 <= a < |es|
      ensures es[a].end <= we
    {
      EntriesAt(lines, i, we, a);
    }
  }

  /** The same for the entries of a week. */
  lemma {:induction false} WeekEntriesShape(lines: seq<string>, header: nat)
    ensures EndsIncrease(WeekEntries(lines, header))
    ensures forall a :: 0 <= a < |WeekEntries(lines, header)| ==> WeekEntries(lines, header)[a].end <= |lines|
  {
    EntriesShape(lines, header + 1, Editor.WeekInsertPoint(lines, header));
  }

  /** The merge's splices put each group's lines at the end of its entry
      in the original file, in file order: the back-to-front splice is the
      in-order interleaving. */
  lemma {:induction false} MergeSplicesInterleave(lines: seq<string>, header: nat, gs: seq<Group>)
    requires Distinct(GroupNames(gs))
    ensures var ins := SortDescending(PlanFixed(gs, WeekEntries(lines, header)).insertions);
      SpliceAll(lines, ins) == Interleave(lines, Reverse(ins))
  {
    var es := WeekEntries(lines, header);
    var plan := PlanFixed(gs, es).insertions;
    var ins := SortDescending(plan);
    WeekEntriesShape(lines, header);
    PlanFixedDistinct(gs, es);
    SortStrictly(plan);
    PlanFixedBounded(gs, es, |lines|);
    SortPermutes(plan);
    forall k | 0 <= k < |ins|
      ensures ins[k].index <= |lines|
    {
      assert ins[k] in multiset(plan);
      var a :| 0 <= a < |plan| && plan[a] == ins[k];
    }
    SpliceAllInterleaves(lines, ins);
  }

  /** Entries with the same names in the same places are searched alike. */
  lemma {:induction false} FindEntrySameNames(es: seq<Entry>, fs: seq<Entry>, name: string)
    requires |es| == |fs| && forall k :: 0 <= k < |es| ==> es[k].name == fs[k].name
    ensures FindEntry(es, name) == FindEntry(fs, name)
  {
  }

  /** Two insertions in ascending order sort into the reverse order. */
  lemma {:induction false} SortTwo(x: Insertion, y: Insertion)
    requires x.index < y.index
    ensures SortDescending([x, y]) == [y, x]
  {
    assert [x, y][..1] == [x];
    assert SortDescending([x]) == [x];
  }

  /** Two splices with indices inside the lines, the later one first. */
  lemma {:induction false} SpliceTwo(lines: seq<string>, x: Insertion, y: Insertion)
    requires y.index <= x.index <= |lines|
    ensures SpliceAll(lines, [x, y]) == Insert(Insert(lines, x.index, x.lines), y.index, y.lines)
  {
    var l1 := Insert(lines, x.index, x.lines);
    assert [x, y][1..] == [y];
    assert SpliceAll(lines, [x, y]) == SpliceAll(l1, [y]);
    assert [y][1..] == [];
    assert SpliceAll(l1, [y]) == SpliceAll(Insert(l1, y.index, y.lines), []);
  }

  /** The handler's plan for one group that has an entry. */
  lemma {:induction false} PlanAsWrittenOfOne(g: Group, es: seq<Entry>, i: nat)
    requires g.name != "" && FindEntry(es, g.name) == Some(i)
    ensures PlanAsWritten([g], es) == Plan([Insertion(es[i].end, Reindent(g.lines, 4))], [])
  {
    assert [g][1..] == [];
  }

  /** The handler's plan for two groups that both have an entry, A's
      before B's: B's index is moved on by A's line count. */
  lemma {:induction false} PlanAsWrittenOfTwo(ga: Group, gb: Group, es: seq<Entry>, i: nat, j: nat, k: nat)
    requires ga.name != "" && gb.name != ""
    requires FindEntry(es, ga.name) == Some(i) && FindEntry(es, gb.name) == Some(j)
    requires es[i].end < es[j].end && k == es[j].end + |ga.lines|
    ensures PlanAsWritten([ga, gb], es) ==
      Plan([Insertion(es[i].end, Reindent(ga.lines, 4)), Insertion(k, Reindent(gb.lines, 4))], [])
  {
    var ls := Reindent(ga.lines, 4);
    var shifted := Shift(es, es[i].end, |ls|);
    FindEntrySameNames(es, shifted, gb.name);
    assert shifted[j].end == k;
    PlanAsWrittenOfOne(gb, shifted, j);
    assert [ga, gb][1..] == [gb];
  }

  /** The fixed plan for the same two groups keeps both entry ends. */
  lemma {:induction false} PlanFixedOfTwo(ga: Group, gb: Group, es: seq<Entry>, i: nat, j: nat)
    requires ga.name != "" && gb.name != ""
    requires FindEntry(es, ga.name) == Some(i) && FindEntry(es, gb.name) == Some(j)
    ensures PlanFixed([ga, gb], es) ==
      Plan([Insertion(es[i].end, Reindent(ga.lines, 4)), Insertion(es[j].end, Reindent(gb.lines, 4))], [])
  {
    assert [ga, gb][1..] == [gb];
    assert [gb][1..] == [];
  }

  /** Without new entries the merge is the splicing alone. */
  lemma {:induction false} MergeWithNoNew(lines: seq<string>, header: nat, ins: seq<Insertion>)
    ensures MergeWith(lines, header, Plan(ins, [])) == SpliceAll(lines, SortDescending(ins))
  {
    assert NewEntries([]) == [];
  }

  /** The handler's extra shift in step 11. Take two groups whose entries
      A and B both exist, A's ending first, and A's group of `n` lines. The
      handler moves B's insertion index on by `n` although the splices run
      back to front, so B's lines land after the `n` lines that followed
      B's entry in the file (when B is the last entry, after the block's
      separator) instead of at B's end. */
  lemma {:induction false} MergeAsWrittenMisplaces(lines: seq<string>, header: nat, es: seq<Entry>, ga: Group, gb: Group, i: nat, j: nat)
    requires es == WeekEntries(lines, header)
    requires ga.name != "" && gb.name != "" && |ga.lines| > 0
    requires FindEntry(es, ga.name) == Some(i) && FindEntry(es, gb.name) == Some(j)
    requires es[i].end < es[j].end && es[j].end + |ga.lines| <= |lines|
    ensures MergeAsWritten(lines, header, [ga, gb]) ==
      Insert(Insert(lines, es[j].end + |ga.lines|, Reindent(gb.lines, 4)), es[i].end, Reindent(ga.lines, 4))
  {
    forall k | k == es[j].end + |ga.lines|
      ensures MergeAsWritten(lines, header, [ga, gb]) == Insert(Insert(lines, k, Reindent(gb.lines, 4)), es[i].end, Reindent(ga.lines, 4))
    {
      PlanAsWrittenOfTwo(ga, gb, es, i, j, k);
      MergeTwo(lines, header, PlanAsWritten([ga, gb], es), es[i].end, Reindent(ga.lines, 4), k, Reindent(gb.lines, 4));
    }
  }

  /** Two insertions planned in file order with no new entries: the later
      one is spliced first, then the earlier one. */
  lemma {:induction false} MergeTwo(lines: seq<string>, header: nat, p: Plan, ai: nat, al: seq<string>, bi: nat, bl: seq<string>)
    requires ai < bi <= |lines| && p == Plan([Insertion(ai, al), Insertion(bi, bl)], [])
    ensures MergeWith(lines, header, p) == Insert(Insert(lines, bi, bl), ai, al)
  {
    var a, b := Insertion(ai, al), Insertion(bi, bl);
    MergeWithNoNew(lines, header, [a, b]);
    SortTwo(a, b);
    SpliceTwo(lines, b, a);
  }

  /** For the same two groups the fixed merge puts B's lines at B's end. */
  lemma {:induction false} MergeOfTwo(lines: seq<string>, header: nat, es: seq<Entry>, ga: Group, gb: Group, i: nat, j: nat)
    requires es == WeekEntries(lines, header)
    requires ga.name != "" && gb.name != ""
    requires FindEntry(es, ga.name) == Some(i) && FindEntry(es, gb.name) == Some(j)
    requires es[i].end < es[j].end <= |lines|
    ensures Merge(lines, header, [ga, gb]) ==
      Insert(Insert(lines, es[j].end, Reindent(gb.lines, 4)), es[i].end, Reindent(ga.lines, 4))
  {
    PlanFixedOfTwo(ga, gb, es, i, j);
    MergeTwo(lines, header, PlanFixed([ga, gb], es), es[i].end, Reindent(ga.lines, 4), es[j].end, Reindent(gb.lines, 4));
  }

  // ----------------------------------------------------------- placement

  /** The pad a group's lines get: four under a named entry, none for the
      lines without a project. */
  function Pad(g: Group): nat {
    if g.name != "" then 4 else 0
  }

  /** A line the plan writes: one of an insertion's lines or of the new
      entries. */
  predicate Writes(p: Plan, l: string) {
    || (exists k :: 0 <= k < |p.insertions| && l in p.insertions[k].lines)
    || l in NewEntries(p.atEnd)
  }

  /** Every insertion of the plan lands below line `h`. */
  predicate InsertsBelow(p: Plan, h: nat) {
    forall k :: 0 <= k < |p.insertions| ==> p.insertions[k].index > h
  }

  /** Every re-indented line of a group that gets a new entry is written. */
  lemma {:induction false} NewEntriesHold(gs: seq<Group>, g: nat, i: nat)
    requires g < |gs| && i < |gs[g].lines|
    ensures Reindent(gs[g].lines, Pad(gs[g]))[i] in NewEntries(gs)
    decreases g
  {
    if g == 0 {
      EntryBlockHolds(gs[0], i);
    } else {
      assert gs[1..][g - 1] == gs[g];
      NewEntriesHold(gs[1..], g - 1, i);
    }
  }

  /** Every re-indented line of a group is in its new entry. */
  lemma {:induction false} EntryBlockHolds(x: Group, i: nat)
    requires i < |x.lines|
    ensures Reindent(x.lines, Pad(x))[i] in EntryBlock(x)
  {
    var r := Reindent(x.lines, Pad(x));
    if x.name != "" {
      assert EntryBlock(x) == ["- [x] " + x.name] + r;
      assert EntryBlock(x)[i + 1] == r[i];
    } else {
      assert EntryBlock(x) == r;
    }
  }

  /** The fixed plan inserts only at the ends of the week's entries,
      which lie below the week header. */
  lemma {:induction false} PlanFixedBelow(lines: seq<string>, header: nat, gs: seq<Group>)
    ensures InsertsBelow(PlanFixed(gs, WeekEntries(lines, header)), header)
  {
    var es := WeekEntries(lines, header);
    var p := PlanFixed(gs, es);
    var we := Editor.WeekInsertPoint(lines, header);
    forall k | 0 <= k < |p.insertions|
      ensures p.insertions[k].index > header
    {
      var g, e := PlanFixedInsertion(gs, es, k);
      EntriesAt(lines, header + 1, we, e);
    }
  }

  /** The fixed plan writes every line of every group, re-indented. */
  lemma {:induction false} PlanFixedWrites(gs: seq<Group>, es: seq<Entry>, g: nat, i: nat)
    requires g < |gs| && i < |gs[g].lines|
    ensures Writes(PlanFixed(gs, es), Reindent(gs[g].lines, Pad(gs[g]))[i])
  {
    var p := PlanFixed(gs, es);
    var l := Reindent(gs[g].lines, Pad(gs[g]))[i];
    if Matched(gs[g], es) {
      var k := PlanFixedCoversMatched(gs, es, g);
      assert l in p.insertions[k].lines;
    } else {
      var k := PlanFixedCoversRest(gs, es, g);
      NewEntriesHold(p.atEnd, k, i);
    }
  }

  /** Shifting entries never moves an end up. */
  lemma {:induction false} ShiftBelow(es: seq<Entry>, at: nat, n: nat, h: nat)
    requires EndBelow(es, h)
    ensures EndBelow(Shift(es, at, n), h)
  {
  }

  /** Every entry ends below line `h`. */
  predicate EndBelow(es: seq<Entry>, h: nat) {
    forall k :: 0 <= k < |es| ==> es[k].end > h
  }

  /** The plan as written inserts below line `h` when every entry ends
      below it: the extra shifts only move indices further down. */
  lemma {:induction false} PlanAsWrittenBelow(gs: seq<Group>, es: seq<Entry>, h: nat)
    requires EndBelow(es, h)
    ensures InsertsBelow(PlanAsWritten(gs, es), h)
    decreases |gs|
  {
    if |gs| > 0 {
      var x := gs[0];
      if Matched(x, es) {
        var e := es[FindEntry(es, x.name).value].end;
        var es' := Shift(es, e, |Reindent(x.lines, 4)|);
        ShiftBelow(es, e, |Reindent(x.lines, 4)|, h);
        PlanAsWrittenBelow(gs[1..], es', h);
        MatchedBelow(gs, es, h);
      } else {
        PlanAsWrittenBelow(gs[1..], es, h);
        assert PlanAsWritten(gs, es).insertions == PlanAsWritten(gs[1..], es).insertions;
      }
    }
  }

  /** A matched first group's insertion, at an entry's end, lands below
      line `h` in front of the rest. */
  lemma {:induction false} MatchedBelow(gs: seq<Group>, es: seq<Entry>, h: nat)
    requires |gs| > 0 && Matched(gs[0], es) && EndBelow(es, h)
    requires var x := gs[0];
      InsertsBelow(PlanAsWritten(gs[1..], Shift(es, es[FindEntry(es, x.name).value].end, |Reindent(x.lines, 4)|)), h)
    ensures InsertsBelow(PlanAsWritten(gs, es), h)
  {
    var x := gs[0];
    var e := es[FindEntry(es, x.name).value].end;
    var rest := PlanAsWritten(gs[1..], Shift(es, e, |Reindent(x.lines, 4)|));
    var p := PlanAsWritten(gs, es);
    assert p.insertions == [Insertion(e, Reindent(x.lines, 4))] + rest.insertions;
    forall k | 0 <= k < |p.insertions|
      ensures p.insertions[k].index > h
    {
      if k > 0 {
        assert p.insertions[k] == rest.insertions[k - 1];
      }
    }
  }

  /** The plan as written writes every line of every group too, re-indented
      as the fixed plan does; only the places differ. */
  lemma {:induction false} PlanAsWrittenWrites(gs: seq<Group>, es: seq<Entry>, g: nat, i: nat)
    requires g < |gs| && i < |gs[g].lines|
    ensures Writes(PlanAsWritten(gs, es), Reindent(gs[g].lines, Pad(gs[g]))[i])
    decreases |gs|
  {
    var x, tail := gs[0], gs[1..];
    var l := Reindent(gs[g].lines, Pad(gs[g]))[i];
    if g > 0 {
      assert tail[g - 1] == gs[g];
    }
    if Matched(x, es) {
      var e := es[FindEntry(es, x.name).value].end;
      var es' := Shift(es, e, |Reindent(x.lines, 4)|);
      var rest := PlanAsWritten(tail, es');
      var h := Insertion(e, Reindent(x.lines, 4));
      assert PlanAsWritten(gs, es) == Plan([h] + rest.insertions, rest.atEnd);
      if g == 0 {
        assert ([h] + rest.insertions)[0] == h;
      } else {
        PlanAsWrittenWrites(tail, es', g - 1, i);
        WritesLift(h, rest, l);
      }
    } else {
      var rest := PlanAsWritten(tail, es);
      assert PlanAsWritten(gs, es) == Plan(rest.insertions, [x] + rest.atEnd);
      if g == 0 {
        EntryBlockHolds(x, i);
      } else {
        PlanAsWrittenWrites(tail, es, g - 1, i);
      }
      WritesLiftNew(x, rest, l);
    }
  }

  /** A line the rest of a plan writes is written with one more insertion
      in front. */
  lemma {:induction false} WritesLift(h: Insertion, rest: Plan, l: string)
    ensures Writes(rest, l) ==> Writes(Plan([h] + rest.insertions, rest.atEnd), l)
  {
    if k :| 0 <= k < |rest.insertions| && l in rest.insertions[k].lines {
      assert ([h] + rest.insertions)[k + 1] == rest.insertions[k];
    }
  }

  /** A line the rest of a plan writes, or a line of the new entry for
      `x`, is written with `x`'s new entry in front. */
  lemma {:induction false} WritesLiftNew(x: Group, rest: Plan, l: string)
    ensures Writes(rest, l) || l in EntryBlock(x) ==> Writes(Plan(rest.insertions, [x] + rest.atEnd), l)
  {
    assert NewEntries([x] + rest.atEnd) == EntryBlock(x) + NewEntries(rest.atEnd) by {
      assert ([x] + rest.atEnd)[1..] == rest.atEnd;
    }
  }

  /** A merge only adds lines: every line of the document survives it,
      wherever the week header is. */
  lemma {:induction false} MergeWithKeeps(lines: seq<string>, header: nat, p: Plan, l: string)
    requires l in lines
    ensures l in MergeWith(lines, header, p)
  {
    var merged := SpliceAll(lines, SortDescending(p.insertions));
    SpliceAllKeeps(lines, SortDescending(p.insertions), l);
    if |NewEntries(p.atEnd)| > 0 {
      InsertKeeps(merged, Editor.WeekInsertPoint(merged, header), NewEntries(p.atEnd) + [""], l);
    }
  }

  /** Both merges keep every line of the document. */
  lemma {:induction false} MergeKeepsAll(lines: seq<string>, header: nat, gs: seq<Group>, l: string)
    requires l in lines
    ensures l in Merge(lines, header, gs) && l in MergeAsWritten(lines, header, gs)
  {
    MergeWithKeeps(lines, header, PlanFixed(gs, WeekEntries(lines, header)), l);
    MergeWithKeeps(lines, header, PlanAsWritten(gs, WeekEntries(lines, header)), l);
  }

  /** A merge whose insertions all land below the week header keeps the
      document up to the header, keeps every later line after it, and
      puts every line the plan writes after it. */
  lemma {:induction false} MergeWithBelow(lines: seq<string>, header: nat, p: Plan, l: string)
    requires header < |lines| && InsertsBelow(p, header)
    ensures |MergeWith(lines, header, p)| >= |lines|
    ensures MergeWith(lines, header, p)[..header + 1] == lines[..header + 1]
    ensures OccursAfter(lines, l, header) || Writes(p, l) ==> OccursAfter(MergeWith(lines, header, p), l, header)
  {
    var ins := SortDescending(p.insertions);
    SortPermutes(p.insertions);
    forall k | 0 <= k < |ins|
      ensures ins[k].index > header
    {
      assert ins[k] in multiset(p.insertions);
      var a :| 0 <= a < |p.insertions| && p.insertions[a] == ins[k];
    }
    if k :| 0 <= k < |p.insertions| && l in p.insertions[k].lines {
      assert p.insertions[k] in multiset(ins);
      var a :| 0 <= a < |ins| && ins[a] == p.insertions[k];
    }
    SpliceAllBelow(lines, ins, header, l);
    var merged := SpliceAll(lines, ins);
    var added := NewEntries(p.atEnd);
    if |added| > 0 {
      var end := Editor.WeekInsertPoint(merged, header);
      InsertBelow(merged, end, added + [""], header, l);
    }
  }

  /** The week's entries all end below its header. */
  lemma {:induction false} WeekEntriesBelow(lines: seq<string>, header: nat)
    ensures EndBelow(WeekEntries(lines, header), header)
  {
    var we := Editor.WeekInsertPoint(lines, header);
    forall k | 0 <= k < |WeekEntries(lines, header)|
      ensures WeekEntries(lines, header)[k].end > header
    {
      EntriesAt(lines, header + 1, we, k);
    }
  }

  /** Both merges leave the document up to the week header as it was and
      write every line of every group, re-indented, somewhere after the
      header; as written they differ only in where. */
  lemma {:induction false} MergePlaces(lines: seq<string>, header: nat, gs: seq<Group>, g: nat, i: nat)
    requires header < |lines| && g < |gs| && i < |gs[g].lines|
    ensures |Merge(lines, header, gs)| > header && Merge(lines, header, gs)[..header + 1] == lines[..header + 1]
    ensures OccursAfter(Merge(lines, header, gs), Reindent(gs[g].lines, Pad(gs[g]))[i], header)
    ensures |MergeAsWritten(lines, header, gs)| > header && MergeAsWritten(lines, header, gs)[..header + 1] == lines[..header + 1]
    ensures OccursAfter(MergeAsWritten(lines, header, gs), Reindent(gs[g].lines, Pad(gs[g]))[i], header)
  {
    var es := WeekEntries(lines, header);
    var l := Reindent(gs[g].lines, Pad(gs[g]))[i];
    PlanFixedBelow(lines, header, gs);
    PlanFixedWrites(gs, es, g, i);
    MergeWithBelow(lines, header, PlanFixed(gs, es), l);
    WeekEntriesBelow(lines, header);
    PlanAsWrittenBelow(gs, es, header);
    PlanAsWrittenWrites(gs, es, g, i);
    MergeWithBelow(lines, header, PlanAsWritten(gs, es), l);
  }

  /** Both merges keep every line after the week header after it: the
      merge only adds lines. */
  lemma {:induction false} MergeKeeps(lines: seq<string>, header: nat, gs: seq<Group>, j: nat)
    requires header < j < |lines|
    ensures OccursAfter(Merge(lines, header, gs), lines[j], header)
    ensures OccursAfter(MergeAsWritten(lines, header, gs), lines[j], header)
  {
    var es := WeekEntries(lines, header);
    PlanFixedBelow(lines, header, gs);
    MergeWithBelow(lines, header, PlanFixed(gs, es), lines[j]);
    WeekEntriesBelow(lines, header);
    PlanAsWrittenBelow(gs, es, header);
    MergeWithBelow(lines, header, PlanAsWritten(gs, es), lines[j]);
  }

  /** A line filed under a group's name is among the lines `LinesOf`
      collects for that name. */
  lemma {:induction false} LinesOfHolds(contents: seq<Group>, j: nat, a: nat) returns (i: nat)
    requires j < |contents| && a < |contents[j].lines|
    ensures i < |LinesOf(contents, contents[j].name)|
    ensures LinesOf(contents, contents[j].name)[i] == contents[j].lines[a]
    decreases |contents|
  {
    var init, last := contents[..|contents| - 1], contents[|contents| - 1];
    var n := contents[j].name;
    assert LinesOf(contents, n) == LinesOf(init, n) + (if last.name == n then last.lines else []);
    if j == |contents| - 1 {
      i := |LinesOf(init, n)| + a;
    } else {
      assert init[j] == contents[j];
      i := LinesOfHolds(init, j, a);
    }
  }

  /** A name with lines names a group holding exactly those lines. */
  lemma {:induction false} LookupFound(gs: seq<Group>, n: string) returns (g: nat)
    requires Lookup(gs, n) != []
    ensures g < |gs| && gs[g].name == n && gs[g].lines == Lookup(gs, n)
    decreases |gs|
  {
    if gs[0].name == n {
      g := 0;
    } else {
      var g' := LookupFound(gs[1..], n);
      g := g' + 1;
    }
  }
}
