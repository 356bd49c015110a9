/** The prototype viewer's Markdown parser (todo-viewer/src/utils/parser.ts):
    reading one checklist line, the whole document into pool groups and
    week blocks, and writing a task tree back as checklist lines. The tree
    builder is `Forest.StackBuild`. */
module Viewer {
  import opened Text
  import opened Outcome
  import opened Classify
  import opened Forest
  import Lines

  // ------------------------------------------------------------ one line

  /** `PROJECTS`: the only pool projects the viewer shows. */
  const Projects: seq<string> := ["AgentDriver", "AgentRL", "build-server", "多端", "工具", "zhiwei", "教育场景", "其他"]

  predicate NoTerminator(s: string) {
    forall i :: 0 <= i < |s| ==> !IsLineTerminator(s[i])
  }

  /** What `(.*)` captures in `^(\s*)- \[([ x])\]\s*(.*)$`: the text after
      the box and the whitespace following it. */
  function Rest(line: string): string
    requires IsTaskLine(line)
  {
    TrimStart(line[LeadingWs(line) + 5..])
  }

  /** `parseTodoLine`: a checklist line whose text after the box holds no
      line terminator (`.` and `$` without the `m` flag stop at one), read
      as an item with its level, state and trimmed content. */
  function ParseTodoLine(line: string, lineIndex: nat): (r: Option<Item>)
    ensures r.Some? <==> IsTaskLine(line) && NoTerminator(Rest(line))
    ensures r.Some? ==>
      && r.value.lineIndex == lineIndex && r.value.indent == IndentLevel(line)
      && (r.value.completed <==> IsCompletedTask(line)) && r.value.text == Trim(Rest(line))
  {
    match Box(line)
    case None => None
    case Some(c) =>
      if NoTerminator(Rest(line)) then Some(Item(lineIndex, LeadingWs(line) / 4, c == 'x', Trim(Rest(line))))
      else None
  }

  // ---------------------------------------------------------- the writer

  /** One line of `serializeTodoItem`, without its newline: four spaces
      per level, the box, a space and the content. */
  function Emit(depth: nat, y: Item): string {
    Spaces(4 * depth) + BoxText(if y.completed then 'x' else ' ') + " " + y.text
  }

  /** `serializeTodoItem(item, indent)`: the node's line, then its
      children one level deeper. */
  function SerializeTodoItem(t: Tree, indent: nat): string
    decreases t
  {
    Emit(indent, t.item) + "\n" + SerializeAll(t.kids, indent + 1)
  }

  function SerializeAll(ts: seq<Tree>, indent: nat): string
    decreases ts
  {
    if |ts| == 0 then "" else SerializeTodoItem(ts[0], indent) + SerializeAll(ts[1..], indent)
  }

  /** The nodes of a tree in preorder, each with the level it is written
      at. */
  function Layout(t: Tree, depth: nat): seq<(nat, Item)>
    decreases t
  {
    [(depth, t.item)] + LayoutAll(t.kids, depth + 1)
  }

  function LayoutAll(ts: seq<Tree>, depth: nat): seq<(nat, Item)>
    decreases ts
  {
    if |ts| == 0 then [] else Layout(ts[0], depth) + LayoutAll(ts[1..], depth)
  }

  /** The items of a layout. */
  function Strip(ps: seq<(nat, Item)>): (r: seq<Item>)
    ensures |r| == |ps| && forall k :: 0 <= k < |ps| ==> r[k] == ps[k].1
  {
    seq(|ps|, k requires 0 <= k < |ps| => ps[k].1)
  }

  /** The text of a layout: each entry's line and a newline. */
  function Written(ps: seq<(nat, Item)>): string {
    if |ps| == 0 then "" else Emit(ps[0].0, ps[0].1) + "\n" + Written(ps[1..])
  }

  lemma {:induction false} WrittenAppend(a: seq<(nat, Item)>, b: seq<(nat, Item)>)
    ensures Written(a + b) == Written(a) + Written(b)
  {
    if |a| == 0 {
      assert a + b == b;
    } else {
      assert (a + b)[0] == a[0] && (a + b)[1..] == a[1..] + b;
      WrittenAppend(a[1..], b);
    }
  }

  /** `serializeTodoItem` writes one line per node, in preorder, each at
      its level: the text is the lines of the layout ... */
  lemma {:induction false} SerializeLayout(t: Tree, depth: nat)
    ensures SerializeTodoItem(t, depth) == Written(Layout(t, depth))
    decreases t
  {
    SerializeAllLayout(t.kids, depth + 1);
    var rest := LayoutAll(t.kids, depth + 1);
    assert ([(depth, t.item)] + rest)[0] == (depth, t.item);
    assert ([(depth, t.item)] + rest)[1..] == rest;
  }

  lemma {:induction false} SerializeAllLayout(ts: seq<Tree>, depth: nat)
    ensures SerializeAll(ts, depth) == Written(LayoutAll(ts, depth))
    decreases ts
  {
    if |ts| > 0 {
      SerializeLayout(ts[0], depth);
      SerializeAllLayout(ts[1..], depth);
      WrittenAppend(Layout(ts[0], depth), LayoutAll(ts[1..], depth));
    }
  }

  lemma {:induction false} StripAppend(a: seq<(nat, Item)>, b: seq<(nat, Item)>)
    ensures Strip(a + b) == Strip(a) + Strip(b)
  {
  }

  /** ... the layout lists the tree's items in preorder ... */
  lemma {:induction false} LayoutItems(t: Tree, depth: nat)
    ensures Strip(Layout(t, depth)) == Preorder(t)
    decreases t
  {
    LayoutAllItems(t.kids, depth + 1);
    StripAppend([(depth, t.item)], LayoutAll(t.kids, depth + 1));
  }

  lemma {:induction false} LayoutAllItems(ts: seq<Tree>, depth: nat)
    ensures Strip(LayoutAll(ts, depth)) == PreorderAll(ts)
    decreases ts
  {
    if |ts| > 0 {
      LayoutItems(ts[0], depth);
      LayoutAllItems(ts[1..], depth);
      StripAppend(Layout(ts[0], depth), LayoutAll(ts[1..], depth));
    }
  }

  /** ... the root comes first at the starting level, and no line is
      written above it. */
  lemma {:induction false} LayoutLevels(t: Tree, depth: nat)
    ensures Layout(t, depth)[0] == (depth, t.item)
    ensures forall k :: 0 <= k < |Layout(t, depth)| ==> Layout(t, depth)[k].0 >= depth
    decreases t
  {
    LayoutAllLevels(t.kids, depth + 1);
  }

  lemma {:induction false} LayoutAllLevels(ts: seq<Tree>, depth: nat)
    ensures forall k :: 0 <= k < |LayoutAll(ts, depth)| ==> LayoutAll(ts, depth)[k].0 >= depth
    decreases ts
  {
    if |ts| > 0 {
      LayoutLevels(ts[0], depth);
      LayoutAllLevels(ts[1..], depth);
    }
  }

  /** Reading a written line back: its level, its state, and its content
      up to surrounding whitespace are recovered. */
  lemma {:induction false} ParseEmit(depth: nat, y: Item, lineIndex: nat)
    requires NoTerminator(y.text)
    ensures ParseTodoLine(Emit(depth, y), lineIndex) == Some(Item(lineIndex, depth, y.completed, Trim(y.text)))
  {
    var line := Emit(depth, y);
    var c := if y.completed then 'x' else ' ';
    EmitShape(depth, y);
    assert Box(line) == Some(c);
    RestOfEmit(line, 4 * depth, y.text);
    ParseOfParts(line, lineIndex, 4 * depth, c, y.text);
    assert (4 * depth) / 4 == depth;
  }

  /** A checklist line whose text after the box is `text` without its
      leading whitespace reads as an item holding the trimmed text. */
  lemma {:induction false} ParseOfParts(line: string, lineIndex: nat, w: nat, c: char, text: string)
    requires LeadingWs(line) == w && Box(line) == Some(c)
    requires Rest(line) == text[LeadingWs(text)..] && NoTerminator(text)
    ensures ParseTodoLine(line, lineIndex) == Some(Item(lineIndex, w / 4, c == 'x', Trim(text)))
  {
    var r := Rest(line);
    assert NoTerminator(r) by {
      forall i | 0 <= i < |r| ensures !IsLineTerminator(r[i]) {
        assert r[i] == text[LeadingWs(text) + i];
      }
    }
    TrimSkip(text, LeadingWs(text));
  }

  /** A written line is its indentation, the box, a space and the text. */
  lemma {:induction false} EmitShape(depth: nat, y: Item)
    ensures var line := Emit(depth, y);
      var c := if y.completed then 'x' else ' ';
      && LeadingWs(line) == 4 * depth && BoxAt(line, 4 * depth, c)
      && line[4 * depth + 5..] == " " + y.text
  {
    var c := if y.completed then 'x' else ' ';
    var pre := Spaces(4 * depth);
    var tail := BoxText(c) + " " + y.text;
    var line := Emit(depth, y);
    assert line == pre + tail;
    LeadingWsConcat(pre, tail);
    var w := 4 * depth;
    assert line[w..] == tail;
    assert line[w..w + 5] == tail[..5] == BoxText(c);
    assert line[w + 5..] == tail[5..];
  }

  /** What follows the box of a written line, once the space after it is
      skipped, is the text without its leading whitespace. */
  lemma {:induction false} RestOfEmit(line: string, w: nat, text: string)
    requires IsTaskLine(line) && LeadingWs(line) == w && line[w + 5..] == " " + text
    ensures Rest(line) == text[LeadingWs(text)..]
  {
    var after := line[w + 5..];
    assert Rest(line) == TrimStart(after);
    SpaceThen(after, text);
  }

  /** A space and then `text`: its leading whitespace is one more than
      the text's, and what follows it is what follows the text's. */
  lemma {:induction false} SpaceThen(after: string, text: string)
    requires after == " " + text
    ensures LeadingWs(after) == 1 + LeadingWs(text)
    ensures after[LeadingWs(after)..] == text[LeadingWs(text)..]
  {
    assert after[0] == ' ' && after[1..] == text;
  }

  /** Dropping leading whitespace does not change the trim. */
  lemma {:induction false} TrimSkip(s: string, k: nat)
    requires k <= LeadingWs(s)
    ensures Trim(s[k..]) == Trim(s)
    decreases k
  {
    if k > 0 {
      assert IsWs(s[0]);
      assert s[1..][k - 1..] == s[k..];
      assert LeadingWs(s[1..]) == LeadingWs(s) - 1;
      TrimSkip(s[1..], k - 1);
    }
  }

  // ------------------------------------------------------ the document

  /** `ProjectGroup` */
  datatype Group = Group(name: string, items: seq<Tree>)

  /** The viewer's `WeekBlock`. */
  datatype Week = Week(title: string, isCurrent: bool, items: seq<Tree>, startLine: nat)

  /** `ParsedTodo` */
  datatype Parsed = Parsed(pool: seq<Group>, weeks: seq<Week>, raw: string)

  datatype Section = NoSection | PoolSection | WeekSection

  /** The loop's variables between two lines. */
  datatype Scan = Scan(
    section: Section, project: Option<string>, week: Option<Week>,
    temp: seq<Item>, pool: seq<Group>, weeks: seq<Week>)

  /** What the loop can see in a line, in the order it tests. */
  datatype LineKind = PoolLine | ProjectLine(name: string) | WeekLine(title: string) | SeparatorLine | TaskLine(y: Item) | OtherLine

  function KindOf(line: string, i: nat): (k: LineKind)
    ensures k == PoolLine <==> Trim(line) == PoolHeader
    ensures k.ProjectLine? <==> Trim(line) != PoolHeader && StartsWith(line, "### ")
    ensures k.ProjectLine? ==> k.name == Trim(line[4..])
    ensures k.WeekLine? <==> Trim(line) != PoolHeader && !StartsWith(line, "### ") && IsWeekHeader(line)
    ensures k.WeekLine? ==> k.title == Trim(line[3..])
    ensures k == SeparatorLine <==>
      Trim(line) != PoolHeader && !StartsWith(line, "### ") && !IsWeekHeader(line) && IsSeparator(line)
    ensures k.TaskLine? <==>
      Trim(line) != PoolHeader && !StartsWith(line, "### ") && !IsWeekHeader(line) && !IsSeparator(line)
      && ParseTodoLine(line, i).Some?
    ensures k.TaskLine? ==> ParseTodoLine(line, i) == Some(k.y)
    ensures k == OtherLine <==>
      Trim(line) != PoolHeader && !StartsWith(line, "### ") && !IsWeekHeader(line) && !IsSeparator(line)
      && ParseTodoLine(line, i).None?
  {
    if Trim(line) == PoolHeader then PoolLine
    else if StartsWith(line, "### ") then ProjectLine(Trim(line[4..]))
    else if IsWeekHeader(line) then WeekLine(Trim(line[3..]))
    else if IsSeparator(line) then SeparatorLine
    else match ParseTodoLine(line, i)
      case Some(y) => TaskLine(y)
      case None => OtherLine
  }

  function Kinds(lines: seq<string>): (ks: seq<LineKind>)
    ensures |ks| == |lines| && forall i :: 0 <= i < |lines| ==> ks[i] == KindOf(lines[i], i)
  {
    seq(|lines|, i requires 0 <= i < |lines| => KindOf(lines[i], i))
  }

  /** Hand the collected items to the open project, if any and if there
      are some; `close` also forgets the project. */
  function FlushProject(st: Scan, close: bool): Scan {
    if st.project.Some? && |st.temp| > 0 then
      st.(pool := st.pool + [Group(st.project.value, StackBuild(st.temp))], temp := [],
          project := if close then None else st.project)
    else st
  }

  /** Hand the collected items to the open week, if any and if there are
      some; `close` also forgets the week. */
  function FlushWeek(st: Scan, close: bool): Scan {
    if st.week.Some? && |st.temp| > 0 then
      st.(weeks := st.weeks + [st.week.value.(items := StackBuild(st.temp))], temp := [],
          week := if close then None else st.week)
    else st
  }

  /** One turn of the loop at line `i`. A `### ` line outside the pool is
      no header, no week header, no separator and no task, so nothing. */
  function Step(st: Scan, k: LineKind, i: nat): Scan {
    match k
    case PoolLine => st.(section := PoolSection)
    case ProjectLine(n) =>
      if st.section == PoolSection then
        FlushProject(st, false).(project := if n in Projects then Some(n) else None)
      else st
    case WeekLine(title) =>
      var a := if st.section == PoolSection then FlushProject(st, true) else st;
      FlushWeek(a, false).(section := WeekSection, week := Some(Week(title, false, [], i)))
    case SeparatorLine =>
      var a := if st.section == PoolSection then FlushProject(st, true) else st;
      FlushWeek(a, true)
    case TaskLine(y) => st.(temp := st.temp + [y])
    case OtherLine => st
  }

  function Run(ks: seq<LineKind>, i: nat, st: Scan): Scan
    requires i <= |ks|
    decreases |ks| - i
  {
    if i == |ks| then st else Run(ks, i + 1, Step(st, ks[i], i))
  }

  /** After the loop: the last block goes to the open project if there is
      one with items, else to the open week. */
  function Finish(st: Scan): Scan {
    if st.project.Some? && |st.temp| > 0 then FlushProject(st, false)
    else FlushWeek(st, false)
  }

  /** The first week is the current one. */
  function MarkCurrent(ws: seq<Week>): (r: seq<Week>)
    ensures |r| == |ws|
    ensures forall k :: 0 <= k < |ws| ==> r[k] == ws[k].(isCurrent := k == 0)
  {
    seq(|ws|, k requires 0 <= k < |ws| => ws[k].(isCurrent := k == 0))
  }

  const Start: Scan := Scan(NoSection, None, None, [], [], [])

  /** `parseTodoMd(content)` */
  function ParseTodoMd(content: string): Parsed {
    var st := Finish(Run(Kinds(Lines.Split(content)), 0, Start));
    Parsed(st.pool, MarkCurrent(st.weeks), content)
  }

  // --------------------------------------------------------- properties

  /** An item read from line `y.lineIndex` of `lines`. */
  predicate FromLine(lines: seq<string>, y: Item) {
    y.lineIndex < |lines| && ParseTodoLine(lines[y.lineIndex], y.lineIndex) == Some(y)
  }

  /** What holds of the loop's variables at every line: every shown group
      is a listed project with items, every week found so far has items
      and is not yet marked, the open project is a listed one, and every
      item anywhere was read from its own line. */
  predicate Good(lines: seq<string>, st: Scan) {
    && (forall g :: g in st.pool ==> g.name in Projects && |g.items| > 0)
    && (forall w :: w in st.weeks ==> |w.items| > 0 && !w.isCurrent)
    && (st.week.Some? ==> !st.week.value.isCurrent)
    && (st.project.Some? ==> st.project.value in Projects)
    && (forall y :: y in st.temp ==> FromLine(lines, y))
    && (forall g, y :: g in st.pool && y in PreorderAll(g.items) ==> FromLine(lines, y))
    && (forall w, y :: w in st.weeks && y in PreorderAll(w.items) ==> FromLine(lines, y))
  }

  lemma {:induction false} BuiltItems(temp: seq<Item>, y: Item)
    requires y in PreorderAll(StackBuild(temp))
    ensures y in temp && |StackBuild(temp)| > 0
  {
    StackBuildIsBuild(temp);
  }

  lemma {:induction false} FlushProjectGood(lines: seq<string>, st: Scan, close: bool)
    requires Good(lines, st)
    ensures Good(lines, FlushProject(st, close))
  {
    if st.project.Some? && |st.temp| > 0 {
      var g := Group(st.project.value, StackBuild(st.temp));
      assert |g.items| > 0 by {
        StackBuildIsBuild(st.temp);
        assert |PreorderAll(g.items)| == |st.temp|;
      }
      forall y | y in PreorderAll(g.items) ensures FromLine(lines, y) {
        BuiltItems(st.temp, y);
      }
    }
  }

  lemma {:induction false} FlushWeekGood(lines: seq<string>, st: Scan, close: bool)
    requires Good(lines, st)
    ensures Good(lines, FlushWeek(st, close))
  {
    if st.week.Some? && |st.temp| > 0 {
      var w := st.week.value.(items := StackBuild(st.temp));
      assert |w.items| > 0 by {
        StackBuildIsBuild(st.temp);
        assert |PreorderAll(w.items)| == |st.temp|;
      }
      forall y | y in PreorderAll(w.items) ensures FromLine(lines, y) {
        BuiltItems(st.temp, y);
      }
    }
  }

  lemma {:induction false} StepGood(lines: seq<string>, st: Scan, i: nat)
    requires i < |lines| && Good(lines, st)
    ensures Good(lines, Step(st, KindOf(lines[i], i), i))
  {
    var k := KindOf(lines[i], i);
    assert k.TaskLine? ==> FromLine(lines, k.y);
    StepKindGood(lines, st, k, i);
  }

  /** One turn keeps the invariant whatever the line is, provided a task
      line's item was read from that line. */
  lemma {:induction false} StepKindGood(lines: seq<string>, st: Scan, k: LineKind, i: nat)
    requires Good(lines, st) && (k.TaskLine? ==> FromLine(lines, k.y))
    ensures Good(lines, Step(st, k, i))
  {
    match k
    case PoolLine =>
    case ProjectLine(n) =>
      if st.section == PoolSection {
        FlushProjectGood(lines, st, false);
      }
    case WeekLine(title) =>
      CloseGood(lines, st, false);
    case SeparatorLine =>
      CloseGood(lines, st, true);
    case TaskLine(y) =>
    case OtherLine =>
  }

  /** Closing the open project (in the pool) and then the open week keeps
      the invariant. */
  lemma {:induction false} CloseGood(lines: seq<string>, st: Scan, close: bool)
    requires Good(lines, st)
    ensures var a := if st.section == PoolSection then FlushProject(st, true) else st;
      Good(lines, a) && Good(lines, FlushWeek(a, close))
  {
    var a := if st.section == PoolSection then FlushProject(st, true) else st;
    FlushProjectGood(lines, st, true);
    FlushWeekGood(lines, a, close);
  }

  lemma {:induction false} RunGood(lines: seq<string>, i: nat, st: Scan)
    requires i <= |lines| && Good(lines, st)
    ensures Good(lines, Run(Kinds(lines), i, st))
    decreases |lines| - i
  {
    if i < |lines| {
      var ks := Kinds(lines);
      StepGood(lines, st, i);
      assert ks[i] == KindOf(lines[i], i);
      RunGood(lines, i + 1, Step(st, ks[i], i));
    }
  }

  /** The parse shows only listed projects, only groups and weeks that
      hold a task, marks exactly the first week as current, keeps the text
      as `raw`, and every item in it was read from its own line of the
      text. */
  lemma {:induction false} ParseTodoMdShape(content: string)
    ensures var r := ParseTodoMd(content);
      var lines := Lines.Split(content);
      && r.raw == content
      && (forall g :: g in r.pool ==> g.name in Projects && |g.items| > 0)
      && (forall k :: 0 <= k < |r.weeks| ==> |r.weeks[k].items| > 0 && (r.weeks[k].isCurrent <==> k == 0))
      && (forall g, y :: g in r.pool && y in PreorderAll(g.items) ==> FromLine(lines, y))
      && (forall k, y :: 0 <= k < |r.weeks| && y in PreorderAll(r.weeks[k].items) ==> FromLine(lines, y))
  {
    var lines := Lines.Split(content);
    var end := Run(Kinds(lines), 0, Start);
    RunGood(lines, 0, Start);
    var st := Finish(end);
    assert Good(lines, st) by {
      if end.project.Some? && |end.temp| > 0 {
        FlushProjectGood(lines, end, false);
      } else {
        FlushWeekGood(lines, end, false);
      }
    }
    var ws := MarkCurrent(st.weeks);
    forall k | 0 <= k < |ws|
      ensures |ws[k].items| > 0 && (ws[k].isCurrent <==> k == 0)
      ensures forall y :: y in PreorderAll(ws[k].items) ==> FromLine(lines, y)
    {
      assert st.weeks[k] in st.weeks;
    }
  }
}
