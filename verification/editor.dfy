/** The line editors of the current server (dist-server/index.js): each
    request handler reads the document, applies one of these transforms to
    its line array and writes the result back. Only the transform is
    modelled; reading, writing and the HTTP reply are left to the caller. */
module Editor {
  import opened Text
  import opened Lines
  import opened Outcome
  import opened Classify

  // ---------------------------------------------------------------- toggle

  lemma {:induction false} BoxAtOccurs(line: string, w: nat, c: char)
    ensures BoxAt(line, w, c) <==> OccursAt(line, BoxText(c), w)
  {
    if OccursAt(line, BoxText(c), w) {
      var b := line[w..w + 5];
      assert b[0] == line[w] && b[1] == line[w + 1] && b[2] == line[w + 2];
      assert b[3] == line[w + 3] && b[4] == line[w + 4];
    }
  }

  /** The line with its checkbox switched between `[ ]` and `[x]`: the
      first `- [ ]` of a pending line becomes `- [x]`, the first `- [x]` of
      a completed one becomes `- [ ]`. */
  function FlipBox(line: string): string
    requires IsTaskLine(line)
  {
    if IsPendingTask(line) then ReplaceFirst(line, BoxText(' '), BoxText('x'))
    else ReplaceFirst(line, BoxText('x'), BoxText(' '))
  }

  /** On a checklist line the first occurrence of its own checkbox is the
      one after the indentation: nothing before it can start with `-`. */
  lemma {:induction false} BoxIsFirstOccurrence(line: string, c: char)
    requires BoxAt(line, LeadingWs(line), c)
    ensures IndexOf(line, BoxText(c)) == LeadingWs(line)
  {
    var w := LeadingWs(line);
    BoxAtOccurs(line, w, c);
    forall j | 0 <= j < w ensures !OccursAt(line, BoxText(c), j) {
      assert IsWs(line[..w][j]);
      assert line[..w][j] == line[j];
      BoxAtOccurs(line, j, c);
    }
  }

  /** Flipping rewrites exactly the checkbox after the indentation. */
  lemma {:induction false} FlipBoxShape(line: string)
    requires IsTaskLine(line)
    ensures var w := LeadingWs(line);
      FlipBox(line) == line[..w] + BoxText(if IsPendingTask(line) then 'x' else ' ') + line[w + 5..]
  {
    var c := Box(line).value;
    BoxIsFirstOccurrence(line, c);
  }

  /** The flipped line is a checklist line with the other state, the same
      indentation and the same text after the checkbox. */
  lemma {:induction false} FlipBoxFlips(line: string)
    requires IsTaskLine(line)
    ensures LeadingWs(FlipBox(line)) == LeadingWs(line)
    ensures Box(FlipBox(line)) == Some(if IsPendingTask(line) then 'x' else ' ')
    ensures FlipBox(line)[..LeadingWs(line)] == line[..LeadingWs(line)]
    ensures FlipBox(line)[LeadingWs(line) + 5..] == line[LeadingWs(line) + 5..]
  {
    var w := LeadingWs(line);
    var c := if IsPendingTask(line) then 'x' else ' ';
    FlipBoxShape(line);
    BoxedLine(line[..w], c, line[w + 5..]);
  }

  /** Indentation, a checkbox and a tail: the line's checkbox is that one,
      and the three parts are recovered by slicing. */
  lemma {:induction false} BoxedLine(a: string, c: char, t: string)
    requires AllWs(a) && (c == ' ' || c == 'x')
    ensures var s := a + BoxText(c) + t;
      && LeadingWs(s) == |a| && Box(s) == Some(c)
      && s[..|a|] == a && s[|a| + 5..] == t
  {
    var s := a + BoxText(c) + t;
    assert s == a + (BoxText(c) + t);
    LeadingWsConcat(a, BoxText(c) + t);
    assert s[|a|..|a| + 5] == BoxText(c);
    BoxAtOccurs(s, |a|, c);
  }

  /** Flipping twice gives the original line. */
  lemma {:induction false} FlipBoxTwice(line: string)
    requires IsTaskLine(line)
    ensures IsTaskLine(FlipBox(line)) && FlipBox(FlipBox(line)) == line
  {
    FlipBoxFlips(line);
    var w := LeadingWs(line);
    var r := FlipBox(line);
    FlipBoxShape(r);
    var c := Box(line).value;
    BoxAtOccurs(line, w, c);
    Reassemble(line, w, BoxText(c));
  }

  /** A string is its prefix, the five characters at `w`, and its suffix. */
  lemma {:induction false} Reassemble(s: string, w: nat, b: string)
    requires w + |b| <= |s| && s[w..w + |b|] == b
    ensures s[..w] + b + s[w + |b|..] == s
  {
  }

  /** PATCH /api/todo/toggle: flip the checkbox of one checklist line. */
  function Toggle(lines: seq<string>, i: int): (r: Result<seq<string>>)
    ensures !(0 <= i < |lines|) ==> r == Err(InvalidLineIndex)
    ensures 0 <= i < |lines| && !IsTaskLine(lines[i]) ==> r == Err(NotATodo)
    ensures r.Ok? <==> 0 <= i < |lines| && IsTaskLine(lines[i])
    ensures r.Ok? ==>
      && |r.value| == |lines|
      && (forall j :: 0 <= j < |lines| && j != i ==> r.value[j] == lines[j])
      && var w := LeadingWs(lines[i]);
         r.value[i] == lines[i][..w] + BoxText(if IsPendingTask(lines[i]) then 'x' else ' ') + lines[i][w + 5..]
  {
    if i < 0 || i >= |lines| then Err(InvalidLineIndex)
    else if IsTaskLine(lines[i]) then
      FlipBoxShape(lines[i]);
      Ok(lines[i := FlipBox(lines[i])])
    else Err(NotATodo)
  }

  /** Toggling the same line twice gives the document back. */
  lemma {:induction false} ToggleTwice(lines: seq<string>, i: int)
    requires Toggle(lines, i).Ok?
    ensures Toggle(Toggle(lines, i).value, i) == Ok(lines)
  {
    var once := Toggle(lines, i).value;
    FlipBoxTwice(lines[i]);
    assert once[i] == FlipBox(lines[i]);
    assert once[i := FlipBox(once[i])] == lines;
  }

  // ------------------------------------------------------------- add task

  /** The line a new top-level task is written as. */
  function NewTaskLine(task: string): string {
    "- [ ] " + task
  }

  /** Where a task added to a week goes: the first week header or separator
      after the week's header, or the end of the document. */
  function WeekInsertPoint(lines: seq<string>, week: nat): (k: nat)
    ensures k <= |lines|
    ensures week < |lines| ==> week < k
    ensures forall j :: week < j < k ==> !IsWeekHeader(lines[j]) && !IsSeparator(lines[j])
    ensures k < |lines| ==> IsWeekHeader(lines[k]) || IsSeparator(lines[k])
  {
    FirstFrom(lines, week + 1, l => IsWeekHeader(l) || IsSeparator(l))
  }

  /** Where the search for a placeholder under a project header stops. */
  predicate EndsPlaceholderSearch(line: string) {
    IsPlaceholder(line) || IsBlockBoundary(line) || IsTaskLine(line)
  }

  /** The placeholder line under the project header at `h`: the first line
      after it that is a placeholder, a boundary or a checklist line, when
      that line is the placeholder. */
  function PlaceholderAfter(lines: seq<string>, h: nat): (j: Option<nat>)
    ensures j.Some? ==> h < j.value < |lines| && IsPlaceholder(lines[j.value])
    ensures j.Some? ==> forall i :: h < i < j.value ==> !EndsPlaceholderSearch(lines[i])
  {
    var k := FirstFrom(lines, h + 1, EndsPlaceholderSearch);
    if k < |lines| && IsPlaceholder(lines[k]) then Some(k) else None
  }

  /** When no placeholder is found, every placeholder line after the header
      lies behind a boundary or a checklist line. */
  lemma {:induction false} PlaceholderAfterNone(lines: seq<string>, h: nat, i: nat)
    requires PlaceholderAfter(lines, h).None?
    requires h < i < |lines| && IsPlaceholder(lines[i])
    ensures exists m :: h < m < i && (IsBlockBoundary(lines[m]) || IsTaskLine(lines[m]))
  {
    var k := FirstFrom(lines, h + 1, EndsPlaceholderSearch);
    assert EndsPlaceholderSearch(lines[i]);
    assert k <= i;
    assert !IsPlaceholder(lines[k]);
    assert k < i;
  }

  /** A blank line directly followed by a project header (the source's
      `lines[j + 1] &&` guard is implied: a header is never empty). */
  predicate BlankBeforeHeader(lines: seq<string>, j: nat) {
    j < |lines| && IsBlank(lines[j]) && j + 1 < |lines| && IsProjectHeader(lines[j + 1])
  }

  /** Where the search for a project's insertion point stops. */
  predicate EndsProject(lines: seq<string>, j: nat) {
    j < |lines| && (IsBlockBoundary(lines[j]) || BlankBeforeHeader(lines, j))
  }

  /** The first index at or after `j` where the project's lines end, or
      `|lines|`. */
  function ProjectEnd(lines: seq<string>, j: nat): (k: nat)
    requires j <= |lines|
    ensures j <= k <= |lines|
    ensures forall i :: j <= i < k ==> !EndsProject(lines, i)
    ensures k < |lines| ==> EndsProject(lines, k)
    decreases |lines| - j
  {
    if j == |lines| || EndsProject(lines, j) then j
    else ProjectEnd(lines, j + 1)
  }

  /** Where a task added to the project headed at `h` goes: the first
      boundary after the header, or a blank line right before the next
      project header; right after the header when there is neither. */
  function PoolInsertPoint(lines: seq<string>, h: nat): (k: nat)
    requires h < |lines|
    ensures h < k <= |lines|
    ensures forall i :: h < i < k ==> !EndsProject(lines, i)
    ensures !EndsProject(lines, k) ==> k == h + 1 && forall i :: h < i < |lines| ==> !EndsProject(lines, i)
  {
    var j := ProjectEnd(lines, h + 1);
    if j == |lines| then h + 1 else j
  }

  /** POST /api/todo/add into a week block. */
  function AddToWeek(lines: seq<string>, task: string, week: nat): (r: seq<string>)
    ensures var k := WeekInsertPoint(lines, week);
      && |r| == |lines| + 1
      && r[k] == NewTaskLine(task)
      && r[..k] == lines[..k] && r[k + 1..] == lines[k..]
  {
    Insert(lines, WeekInsertPoint(lines, week), [NewTaskLine(task)])
  }

  /** The pool lines once the placeholder under header `h` (if any) is gone. */
  function WithoutPlaceholder(lines: seq<string>, h: nat): (r: seq<string>)
    requires h < |lines|
    ensures h < |r| <= |lines| && r[..h + 1] == lines[..h + 1]
    ensures PlaceholderAfter(lines, h).None? ==> r == lines
    ensures PlaceholderAfter(lines, h).Some? ==>
      var p := PlaceholderAfter(lines, h).value;
      |r| == |lines| - 1 && r[..p] == lines[..p] && r[p..] == lines[p + 1..]
  {
    match PlaceholderAfter(lines, h)
    case None => lines
    case Some(p) => Remove(lines, p, 1)
  }

  /** POST /api/todo/add into a pool project. */
  function AddToProject(lines: seq<string>, task: string, project: string): (r: Result<seq<string>>)
    ensures r.Err? <==> (forall i :: 0 <= i < |lines| ==> Trim(lines[i]) != "### " + project)
    ensures r.Err? ==> r.error == ProjectNotFound
    ensures r.Ok? ==>
      var h := FirstTrimmed(lines, "### " + project);
      var base := WithoutPlaceholder(lines, h);
      var k := PoolInsertPoint(base, h);
      && |r.value| == |base| + 1
      && r.value[..k] == base[..k] && r.value[k] == NewTaskLine(task) && r.value[k + 1..] == base[k..]
  {
    var h := FirstTrimmed(lines, "### " + project);
    if h == |lines| then Err(ProjectNotFound)
    else
      var base := WithoutPlaceholder(lines, h);
      Ok(Insert(base, PoolInsertPoint(base, h), [NewTaskLine(task)]))
  }

  /** POST /api/todo/add: `weekLineIndex`, when it is a non-negative number,
      selects a week block; otherwise the task goes to the named project. */
  function AddTask(lines: seq<string>, task: string, project: string, weekLineIndex: Option<int>): (r: Result<seq<string>>)
    ensures task == "" || project == "" ==> r == Err(MissingField)
    ensures task != "" && project != "" && weekLineIndex.Some? && weekLineIndex.value >= 0 ==>
      r == Ok(AddToWeek(lines, task, weekLineIndex.value))
    ensures task != "" && project != "" && !(weekLineIndex.Some? && weekLineIndex.value >= 0) ==>
      r == AddToProject(lines, task, project)
    ensures r.Ok? ==> |lines| <= |r.value| <= |lines| + 1 && NewTaskLine(task) in r.value
  {
    if task == "" || project == "" then Err(MissingField)
    else if weekLineIndex.Some? && weekLineIndex.value >= 0 then
      var r := AddToWeek(lines, task, weekLineIndex.value);
      assert r[WeekInsertPoint(lines, weekLineIndex.value)] == NewTaskLine(task);
      Ok(r)
    else
      var r := AddToProject(lines, task, project);
      if r.Ok? then
        var h := FirstTrimmed(lines, "### " + project);
        var base := WithoutPlaceholder(lines, h);
        assert r.value[PoolInsertPoint(base, h)] == NewTaskLine(task);
        r
      else r
  }

  // ---------------------------------------------------------- add subtask

  /** The line a new subtask of a parent indented by `parentIndent`
      characters is written as. */
  function NewSubtaskLine(parentIndent: nat, task: string): string {
    Spaces(parentIndent + 4) + "- [ ] " + task
  }

  /** A non-blank line indented deeper than the parent. */
  predicate Deeper(line: string, parentIndent: int) {
    !IsBlank(line) && FirstNonWs(line) > parentIndent
  }

  /** A non-blank line indented at most like the parent: where the scan of
      add-subtask stops. */
  predicate Shallow(line: string, parentIndent: int) {
    !IsBlank(line) && FirstNonWs(line) <= parentIndent
  }

  /** The scan of add-subtask: blank lines are stepped over, deeper lines
      move the insertion point past themselves, the first line indented at
      most like the parent stops the scan there. So the point is that line
      when there is one, and otherwise just after the last non-blank line
      (or right after the parent when only blank lines follow). */
  function SubtaskInsertPoint(lines: seq<string>, parent: nat, parentIndent: int): (k: nat)
    requires parent < |lines|
    ensures parent < k <= |lines|
    ensures forall i :: parent < i < k ==> IsBlank(lines[i]) || Deeper(lines[i], parentIndent)
    ensures k < |lines| && !IsBlank(lines[k]) ==> !Deeper(lines[k], parentIndent)
    ensures k < |lines| && IsBlank(lines[k]) ==> forall i :: k <= i < |lines| ==> IsBlank(lines[i])
    ensures k > parent + 1 ==> !IsBlank(lines[k - 1]) || (k < |lines| && Shallow(lines[k], parentIndent))
  {
    var stop := FirstFrom(lines, parent + 1, l => Shallow(l, parentIndent));
    if stop < |lines| then stop
    else AfterLast(lines, parent + 1, l => !IsBlank(l))
  }

  /** POST /api/todo/add-subtask: insert a pending child four characters
      deeper than the parent, after the parent's existing deeper lines. */
  function AddSubtask(lines: seq<string>, task: string, parent: int): (r: Result<seq<string>>)
    ensures task == "" ==> r == Err(MissingField)
    ensures task != "" && !(0 <= parent < |lines|) ==> r == Err(InvalidLineIndex)
    ensures task != "" && 0 <= parent < |lines| && !IsTaskLine(lines[parent]) ==> r == Err(NotATodo)
    ensures r.Ok? <==> task != "" && 0 <= parent < |lines| && IsTaskLine(lines[parent])
    ensures r.Ok? ==>
      var w := LeadingWs(lines[parent]);
      var k := SubtaskInsertPoint(lines, parent, w);
      && parent < k <= |lines|
      && |r.value| == |lines| + 1
      && r.value[..k] == lines[..k] && r.value[k] == NewSubtaskLine(w, task) && r.value[k + 1..] == lines[k..]
      && (forall i :: parent < i < k ==> IsBlank(lines[i]) || Deeper(lines[i], w))
      && (k < |lines| && !IsBlank(lines[k]) ==> !Deeper(lines[k], w))
  {
    if task == "" then Err(MissingField)
    else if parent < 0 || parent >= |lines| then Err(InvalidLineIndex)
    else if !IsTaskLine(lines[parent]) then Err(NotATodo)
    else
      TaskLineIndent(lines[parent]);
      var w := FirstNonWs(lines[parent]);
      var k := SubtaskInsertPoint(lines, parent, w);
      Ok(Insert(lines, k, [NewSubtaskLine(w, task)]))
  }

  /** The inserted subtask is a pending checklist line one level below its
      parent. */
  lemma {:induction false} NewSubtaskIsChild(parentLine: string, task: string)
    requires IsTaskLine(parentLine)
    ensures var s := NewSubtaskLine(LeadingWs(parentLine), task);
      IsPendingTask(s) && IndentLevel(s) == IndentLevel(parentLine) + 1
  {
    var w := LeadingWs(parentLine);
    var s := NewSubtaskLine(w, task);
    assert s == Spaces(w + 4) + BoxText(' ') + (" " + task);
    WsThenBox(Spaces(w + 4), " " + task, ' ');
  }

  // ---------------------------------------------------------- add project

  /** The index of the pool's closing separator: the first separator after
      the first `## 待办池` line, or None when either is missing. */
  function PoolSeparator(lines: seq<string>): (s: Option<nat>)
    ensures s.Some? ==>
      var p := FirstTrimmed(lines, PoolHeader);
      && p < s.value < |lines| && IsSeparator(lines[s.value])
      && forall i :: p < i < s.value ==> !IsSeparator(lines[i])
    ensures s.None? ==>
      var p := FirstTrimmed(lines, PoolHeader);
      p == |lines| || forall i :: p < i < |lines| ==> !IsSeparator(lines[i])
  {
    var p := FirstTrimmed(lines, PoolHeader);
    if p == |lines| then None
    else
      var s := FirstFrom(lines, p + 1, IsSeparator);
      if s == |lines| then None else Some(s)
  }

  /** The four lines of a new, empty project. */
  function NewProjectBlock(name: string): seq<string> {
    ["### " + name, "", Placeholder, ""]
  }

  /** POST /api/project/add: refuse a duplicate header, else open the
      project with its placeholder just before the pool's separator. */
  function AddProject(lines: seq<string>, name: string): (r: Result<seq<string>>)
    ensures name == "" ==> r == Err(MissingField)
    ensures name != "" && (exists i :: 0 <= i < |lines| && Trim(lines[i]) == "### " + name) ==> r == Err(ProjectExists)
    ensures r.Ok? ==> forall i :: 0 <= i < |lines| ==> Trim(lines[i]) != "### " + name
    ensures r.Err? && r.error == PoolNotFound <==>
      name != "" && (forall i :: 0 <= i < |lines| ==> Trim(lines[i]) != "### " + name) && PoolSeparator(lines).None?
    ensures r.Ok? ==>
      var s := PoolSeparator(lines).value;
      && |r.value| == |lines| + 4
      && r.value[..s] == lines[..s] && r.value[s..s + 4] == NewProjectBlock(name) && r.value[s + 4..] == lines[s..]
  {
    if name == "" then Err(MissingField)
    else if FirstTrimmed(lines, "### " + name) < |lines| then Err(ProjectExists)
    else match PoolSeparator(lines)
      case None => Err(PoolNotFound)
      case Some(s) => Ok(Insert(lines, s, NewProjectBlock(name)))
  }

  /** Adding the same project twice to the same line array: the second
      request is refused, unless the name ends in whitespace (the trimmed
      comparison then never matches the untrimmed header it wrote). */
  lemma {:induction false} AddProjectTwice(lines: seq<string>, name: string)
    requires AddProject(lines, name).Ok?
    requires TrailingWs(name) == 0
    ensures AddProject(AddProject(lines, name).value, name) == Err(ProjectExists)
  {
    var r := AddProject(lines, name).value;
    var s := PoolSeparator(lines).value;
    var h := "### " + name;
    assert r[s] == r[s..s + 4][0] == h;
    assert h[|h| - 1] == name[|name| - 1];
    TrimOfTrimmed(h);
    assert FirstTrimmed(r, h) <= s;
  }

  /** Adding a project, saving the file and adding the same project again
      from what is read back: the second request is refused exactly when
      the name holds no newline and does not end in whitespace. A newline
      in the name splits the header over two lines of the saved file, so
      no line trims to the header the second request looks for. */
  lemma {:induction false} AddProjectSaved(content: string, name: string)
    requires AddProject(Split(content), name).Ok?
    ensures var again := AddProject(Split(Join(AddProject(Split(content), name).value)), name);
      && ('\n' !in name && TrailingWs(name) == 0 ==> again == Err(ProjectExists))
      && ('\n' in name || TrailingWs(name) > 0 ==> again.Ok?)
  {
    var lines := Split(content);
    if '\n' !in name && TrailingWs(name) == 0 {
      SavedPlain(lines, name);
      AddProjectTwice(lines, name);
    } else {
      SavedSplit(lines, name);
    }
  }

  /** Without a newline in the name the saved file reads back as written. */
  lemma {:induction false} SavedPlain(lines: seq<string>, name: string)
    requires AddProject(lines, name).Ok? && '\n' !in name
    requires forall i :: 0 <= i < |lines| ==> '\n' !in lines[i]
    ensures Split(Join(AddProject(lines, name).value)) == AddProject(lines, name).value
  {
    var r := AddProject(lines, name).value;
    var s := PoolSeparator(lines).value;
    forall i | 0 <= i < |r| ensures '\n' !in r[i] {
      if s <= i < s + 4 {
        assert r[i] == NewProjectBlock(name)[i - s];
      } else if i < s {
        assert r[i] == lines[..s][i];
      } else {
        assert r[i] == lines[s..][i - s - 4];
      }
    }
    SplitJoin(r);
  }

  /** With a newline in the name, or trailing whitespace, the header the
      second request looks for is on no line read back, and the pool's
      separator is still there, so the project is added again. */
  lemma {:induction false} SavedSplit(lines: seq<string>, name: string)
    requires AddProject(lines, name).Ok? && ('\n' in name || TrailingWs(name) > 0)
    requires forall i :: 0 <= i < |lines| ==> '\n' !in lines[i]
    ensures AddProject(Split(Join(AddProject(lines, name).value)), name).Ok?
  {
    var r := AddProject(lines, name).value;
    var s := PoolSeparator(lines).value;
    var h := "### " + name;
    UnreadAfter("### ", name);
    var rr := Split(Join(r));
    assert PoolSeparator(rr).Some? by {
      var mid := SavedAround(lines, s, NewProjectBlock(name));
      assert r == lines[..s] + NewProjectBlock(name) + lines[s..];
      SeparatorSurvives(lines, s, mid, rr);
    }
    assert FirstTrimmed(rr, h) == |rr| by {
      forall i | 0 <= i < |rr| ensures Trim(rr[i]) != h {
        TrimmedNever(rr[i], h);
      }
    }
  }

  /** Saving `lines` with `block` spliced in at `s` and reading the file
      back gives the lines before `s`, the pieces of the block, and the
      lines from `s` on. */
  lemma {:induction false} SavedAround(lines: seq<string>, s: nat, block: seq<string>) returns (mid: seq<string>)
    requires 0 < s < |lines| && |block| >= 1
    requires forall i :: 0 <= i < |lines| ==> '\n' !in lines[i]
    ensures Split(Join(lines[..s] + block + lines[s..])) == lines[..s] + mid + lines[s..]
  {
    mid := Split(Join(block));
    assert lines[..s] + block + lines[s..] == lines[..s] + (block + lines[s..]);
    SplitJoinAppend(lines[..s], block + lines[s..]);
    SplitJoinAppend(block, lines[s..]);
    SplitJoin(lines[..s]);
    SplitJoin(lines[s..]);
  }

  /** Lines spliced in after the pool header keep the pool's separator: the
      separator at `s` is still found, further down. */
  lemma {:induction false} SeparatorSurvives(lines: seq<string>, s: nat, mid: seq<string>, rr: seq<string>)
    requires PoolSeparator(lines) == Some(s)
    requires rr == lines[..s] + mid + lines[s..]
    ensures PoolSeparator(rr).Some?
  {
    var p := FirstTrimmed(lines, PoolHeader);
    var q := FirstTrimmed(rr, PoolHeader);
    assert rr[p] == lines[p];
    assert q == p;
    var t := s + |mid|;
    assert rr[t] == lines[s];
  }

  // --------------------------------------------------------------- delete

  /** A line that ends the subtree of a line indented by `base`: blank, a
      boundary, or indented no deeper. */
  predicate EndsSubtree(line: string, base: int) {
    IsBlank(line) || IsBlockBoundary(line) || FirstNonWs(line) <= base
  }

  /** One past the last line of the subtree rooted at line `i`: the maximal
      run of following lines that are non-blank, not boundaries and indented
      deeper than line `i`. */
  function SubtreeEnd(lines: seq<string>, i: nat): (e: nat)
    requires i < |lines|
    ensures i < e <= |lines|
    ensures forall j :: i < j < e ==>
      !IsBlank(lines[j]) && !IsBlockBoundary(lines[j]) && FirstNonWs(lines[j]) > FirstNonWs(lines[i])
    ensures e < |lines| ==> EndsSubtree(lines[e], FirstNonWs(lines[i]))
  {
    var base := FirstNonWs(lines[i]);
    FirstFrom(lines, i + 1, l => EndsSubtree(l, base))
  }

  /** DELETE /api/todo/delete: remove a checklist line and its subtree. */
  function Delete(lines: seq<string>, i: int): (r: Result<seq<string>>)
    ensures !(0 <= i < |lines|) ==> r == Err(InvalidLineIndex)
    ensures 0 <= i < |lines| && !IsTaskLine(lines[i]) ==> r == Err(NotATodo)
    ensures r.Ok? <==> 0 <= i < |lines| && IsTaskLine(lines[i])
    ensures r.Ok? ==>
      var e := SubtreeEnd(lines, i);
      && |r.value| == |lines| - (e - i)
      && r.value[..i] == lines[..i]
      && r.value[i..] == lines[e..]
      && multiset(r.value) + multiset(lines[i..e]) == multiset(lines)
  {
    if i < 0 || i >= |lines| then Err(InvalidLineIndex)
    else if !IsTaskLine(lines[i]) then Err(NotATodo)
    else
      var e := SubtreeEnd(lines, i);
      RemovePermutes(lines, i, e - i);
      Ok(Remove(lines, i, e - i))
  }

  // ----------------------------------------------------------------- edit

  /** The prefix `^(\s*- \[[ x]\] )`: indentation, checkbox and one space. */
  predicate HasEditablePrefix(line: string) {
    IsTaskLine(line) && LeadingWs(line) + 5 < |line| && line[LeadingWs(line) + 5] == ' '
  }

  /** PATCH /api/todo/edit: keep indentation and checkbox, replace the text
      with the trimmed new content. */
  function Edit(lines: seq<string>, i: int, newContent: string): (r: Result<seq<string>>)
    ensures !(0 <= i < |lines|) ==> r == Err(InvalidLineIndex)
    ensures 0 <= i < |lines| && !IsTaskLine(lines[i]) ==> r == Err(NotATodo)
    ensures 0 <= i < |lines| && IsTaskLine(lines[i]) && !HasEditablePrefix(lines[i]) ==> r == Err(InvalidTaskFormat)
    ensures r.Ok? <==> 0 <= i < |lines| && HasEditablePrefix(lines[i])
    ensures r.Ok? ==>
      var w := LeadingWs(lines[i]);
      && |r.value| == |lines|
      && (forall j :: 0 <= j < |lines| && j != i ==> r.value[j] == lines[j])
      && |r.value[i]| == w + 6 + |Trim(newContent)|
      && LeadingWs(r.value[i]) == w
      && Box(r.value[i]) == Box(lines[i])
      && r.value[i][..w + 6] == lines[i][..w + 6]
      && r.value[i][w + 6..] == Trim(newContent)
  {
    if i < 0 || i >= |lines| then Err(InvalidLineIndex)
    else if !IsTaskLine(lines[i]) then Err(NotATodo)
    else if !HasEditablePrefix(lines[i]) then Err(InvalidTaskFormat)
    else
      var w := LeadingWs(lines[i]);
      var line' := lines[i][..w + 6] + Trim(newContent);
      assert line'[..w + 1] == lines[i][..w + 1];
      LeadingWsOfSamePrefix(lines[i], line');
      assert forall k :: w <= k < w + 5 ==> line'[k] == lines[i][k];
      Ok(lines[i := line'])
  }

  // -------------------------------------------------------------- reorder

  /** POST /api/todo/reorder: cut the block starting at `from` (the line
      and its deeper followers) and re-insert it where line `to` was. The
      source line need not be a checklist line; a blank one has indentation
      -1, so every following non-blank, non-boundary line joins it. A
      destination inside the block itself gives a negative or shifted
      splice start, taken as JavaScript takes it. */
  function Reorder(lines: seq<string>, from: int, to: int): (r: Result<seq<string>>)
    ensures r.Ok? <==> 0 <= from < |lines| && 0 <= to < |lines|
    ensures r.Err? ==> r.error == InvalidLineIndex
    ensures r.Ok? ==>
      && |r.value| == |lines|
      && multiset(r.value) == multiset(lines)
  {
    if from < 0 || from >= |lines| || to < 0 || to >= |lines| then Err(InvalidLineIndex)
    else
      var e := SubtreeEnd(lines, from);
      MoveBlockPermutes(lines, from, e, to);
      Ok(MoveBlock(lines, from, e, to))
  }

  /** The block moved is the source line with its subtree, it stays whole,
      and it lands next to the destination line: in that line's place when
      moving up, right before it when moving down past the block's end; a
      move onto itself changes nothing; a destination inside the block
      makes the splice start `to - n`, which lies before the block and,
      when negative, counts back from the end of the shortened file. */
  lemma {:induction false} ReorderPlacement(lines: seq<string>, from: int, to: int)
    requires 0 <= from < |lines| && 0 <= to < |lines|
    ensures Placed(lines, from, SubtreeEnd(lines, from), to, Reorder(lines, from, to).value)
  {
    MoveBlockPlacement(lines, from, SubtreeEnd(lines, from), to);
  }
}
