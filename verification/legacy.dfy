/** The earlier line editors: the first server (server/index.ts) and the
    prototype viewer's server (todo-viewer/server/index.ts). They work on
    the same document as the current server but recognise lines by
    substring and prefix tests rather than by the shared classifiers. */
module Legacy {
  import opened Text
  import opened Lines
  import opened Outcome
  import opened Classify
  import Editor

  // --------------------------------------------------------------- toggle

  const Pending: string := "- [ ]"
  const Done: string := "- [x]"

  /** `line.includes('- [ ]') || line.includes('- [x]')` */
  predicate HasMarker(line: string) {
    Includes(line, Pending) || Includes(line, Done)
  }

  /** The first `- [ ]` becomes `- [x]`; failing that, the first `- [x]`
      becomes `- [ ]`. */
  function SwapMarker(line: string): string {
    if Includes(line, Pending) then ReplaceFirst(line, Pending, Done)
    else ReplaceFirst(line, Done, Pending)
  }

  /** The position of the marker the swap rewrites. */
  function SwapAt(line: string): int {
    if Includes(line, Pending) then IndexOf(line, Pending) else IndexOf(line, Done)
  }

  /** Swapping rewrites a single character: the state character of the
      marker it picks, which becomes `x` for a pending marker and a space
      for a done one. */
  lemma {:induction false} SwapMarkerFlips(line: string)
    requires HasMarker(line)
    ensures var k := SwapAt(line);
      var r := SwapMarker(line);
      && 0 <= k && k + 5 <= |line| && |r| == |line|
      && (forall j :: 0 <= j < |line| && j != k + 3 ==> r[j] == line[j])
      && r[k + 3] == (if Includes(line, Pending) then 'x' else ' ')
      && line[k + 3] == (if Includes(line, Pending) then ' ' else 'x')
  {
    var k := SwapAt(line);
    var r := SwapMarker(line);
    var p := if Includes(line, Pending) then Pending else Done;
    var q := if Includes(line, Pending) then Done else Pending;
    assert r == line[..k] + q + line[k + 5..];
    assert line[k..k + 5] == p;
    forall j | 0 <= j < |line| && j != k + 3
      ensures r[j] == line[j]
    {
      if k <= j < k + 5 {
        assert r[j] == q[j - k] && line[j] == p[j - k];
      }
    }
    assert r[k + 3] == q[3] && line[k + 3] == p[3];
  }

  /** A marker starting at `j` cannot overlap another starting at `k`. */
  lemma {:induction false} MarkersApart(s: string, p: string, q: string, j: nat, k: nat)
    requires p == Pending || p == Done
    requires q == Pending || q == Done
    requires OccursAt(s, q, k) && j != k && j < k + 5 && k < j + 5
    ensures !OccursAt(s, p, j)
  {
    if j + 5 <= |s| {
      if j < k {
        assert s[j..j + 5][k - j] == s[k] == q[0] == '-';
        assert p[k - j] != '-';
      } else {
        assert s[j..j + 5][0] == s[j] == q[j - k];
        assert q[j - k] != '-';
        assert p[0] == '-';
      }
    }
  }

  /** The only marker of the line is at `k`. */
  predicate SoleMarker(line: string, k: nat) {
    && (OccursAt(line, Pending, k) || OccursAt(line, Done, k))
    && forall j :: 0 <= j <= |line| && j != k ==> !OccursAt(line, Pending, j) && !OccursAt(line, Done, j)
  }

  /** The marker a line's sole marker turns into. */
  function Flipped(line: string, k: nat): string {
    if OccursAt(line, Pending, k) then Done else Pending
  }

  /** A line whose only marker is at `k` is swapped there. */
  lemma {:induction false} SwapSole(line: string, k: nat)
    requires SoleMarker(line, k)
    ensures k + 5 <= |line|
    ensures SwapMarker(line) == line[..k] + Flipped(line, k) + line[k + 5..]
  {
    if OccursAt(line, Pending, k) {
      assert IndexOf(line, Pending) == k;
    } else {
      assert IndexOf(line, Pending) == -1;
      assert IndexOf(line, Done) == k;
    }
  }

  /** Two strings equal outside a five-character window have the same
      five-character occurrences clear of it. */
  lemma {:induction false} SameClearOfWindow(a: string, b: string, k: nat, j: nat, p: string)
    requires |a| == |b| && k + 5 <= |a| && |p| == 5
    requires a[..k] == b[..k] && a[k + 5..] == b[k + 5..]
    requires j + 5 <= k || k + 5 <= j
    ensures OccursAt(a, p, j) <==> OccursAt(b, p, j)
  {
    if j + 5 <= |a| {
      if j + 5 <= k {
        assert a[j..j + 5] == a[..k][j..j + 5] == b[..k][j..j + 5] == b[j..j + 5];
      } else {
        assert a[j..j + 5] == a[k + 5..][j - k - 5..j - k] == b[k + 5..][j - k - 5..j - k] == b[j..j + 5];
      }
    }
  }

  /** After the swap, the marker written at `k` is still the only one. */
  lemma {:induction false} SwapKeepsSole(line: string, k: nat)
    requires SoleMarker(line, k)
    ensures SoleMarker(SwapMarker(line), k)
  {
    SwapSole(line, k);
    var q := Flipped(line, k);
    var r := SwapMarker(line);
    assert r[k..k + 5] == q && r[..k] == line[..k] && r[k + 5..] == line[k + 5..];
    forall j | 0 <= j <= |r| && j != k
      ensures !OccursAt(r, Pending, j) && !OccursAt(r, Done, j)
    {
      if j + 5 <= k || k + 5 <= j {
        assert !OccursAt(line, Pending, j) && !OccursAt(line, Done, j);
        SameClearOfWindow(r, line, k, j, Pending);
        SameClearOfWindow(r, line, k, j, Done);
      } else {
        MarkersApart(r, Pending, q, j, k);
        MarkersApart(r, Done, q, j, k);
      }
    }
  }

  /** The three parts of a concatenation are its slices. */
  lemma {:induction false} Window(a: string, b: string, c: string)
    ensures (a + b + c)[..|a|] == a && (a + b + c)[|a|..|a| + |b|] == b && (a + b + c)[|a| + |b|..] == c
  {
  }

  /** A string is its prefix, five characters at `k`, and the rest. */
  lemma {:induction false} Reassemble(s: string, k: nat)
    requires k + 5 <= |s|
    ensures s[..k] + s[k..k + 5] + s[k + 5..] == s
  {
  }

  lemma {:induction false} FlippedTwice(line: string, k: nat)
    requires SoleMarker(line, k)
    ensures SoleMarker(SwapMarker(line), k)
    ensures Flipped(SwapMarker(line), k) == line[k..k + 5]
  {
    SwapKeepsSole(line, k);
    SwapSole(line, k);
    Window(line[..k], Flipped(line, k), line[k + 5..]);
  }

  /** A line whose only marker is at `k` comes back after two swaps. */
  lemma {:induction false} SwapMarkerTwice(line: string, k: nat)
    requires SoleMarker(line, k)
    ensures SwapMarker(SwapMarker(line)) == line
  {
    var r := SwapMarker(line);
    assert k + 5 <= |line| && r[..k] == line[..k] && r[k + 5..] == line[k + 5..] by {
      SwapSole(line, k);
      Window(line[..k], Flipped(line, k), line[k + 5..]);
    }
    assert SwapMarker(r) == r[..k] + line[k..k + 5] + r[k + 5..] by {
      FlippedTwice(line, k);
      SwapSole(r, k);
    }
    Reassemble(line, k);
  }

  /** PATCH /api/todo/toggle, as both earlier servers wrote it. */
  function ToggleMarker(lines: seq<string>, i: int): (r: Result<seq<string>>)
    ensures !(0 <= i < |lines|) ==> r == Err(InvalidLineIndex)
    ensures 0 <= i < |lines| && !HasMarker(lines[i]) ==> r == Err(NotATodo)
    ensures r.Ok? <==> 0 <= i < |lines| && HasMarker(lines[i])
    ensures r.Ok? ==>
      && |r.value| == |lines|
      && (forall j :: 0 <= j < |lines| && j != i ==> r.value[j] == lines[j])
      && r.value[i] == SwapMarker(lines[i])
  {
    if i < 0 || i >= |lines| then Err(InvalidLineIndex)
    else if Includes(lines[i], Pending) || Includes(lines[i], Done) then Ok(lines[i := SwapMarker(lines[i])])
    else Err(NotATodo)
  }

  /** Toggling a line with a single marker twice gives the document back. */
  lemma {:induction false} ToggleMarkerTwice(lines: seq<string>, i: int, k: nat)
    requires 0 <= i < |lines| && SoleMarker(lines[i], k)
    ensures ToggleMarker(lines, i).Ok?
    ensures ToggleMarker(ToggleMarker(lines, i).value, i) == Ok(lines)
  {
    assert HasMarker(lines[i]) by {
      assert OccursAt(lines[i], Pending, k) ==> IndexOf(lines[i], Pending) >= 0;
      assert OccursAt(lines[i], Done, k) ==> IndexOf(lines[i], Done) >= 0;
    }
    var once := ToggleMarker(lines, i).value;
    SwapKeepsSole(lines[i], k);
    SwapMarkerTwice(lines[i], k);
    var r := SwapMarker(lines[i]);
    assert HasMarker(r) by {
      assert OccursAt(r, Pending, k) ==> IndexOf(r, Pending) >= 0;
      assert OccursAt(r, Done, k) ==> IndexOf(r, Done) >= 0;
    }
    assert once[i := SwapMarker(once[i])] == lines;
  }

  // ------------------------------------------------------------ add task

  /** Where the search for a week's insertion point stops: any `## ` line
      or a separator. */
  predicate EndsWeek(line: string) {
    StartsWith(line, "## ") || Trim(line) == Separator
  }

  function WeekInsertPoint(lines: seq<string>, week: nat): (k: nat)
    ensures k <= |lines|
    ensures week < |lines| ==> week < k
    ensures forall j :: week < j < k ==> !EndsWeek(lines[j])
    ensures k < |lines| ==> EndsWeek(lines[k])
  {
    FirstFrom(lines, week + 1, EndsWeek)
  }

  /** Where the search for a project's insertion point stops: a line
      starting `###`, a line that is exactly `---`, or a blank line right
      before a `###` line. */
  predicate EndsProject(lines: seq<string>, j: nat) {
    j < |lines| &&
    (StartsWith(lines[j], "###") || lines[j] == Separator ||
     (IsBlank(lines[j]) && j + 1 < |lines| && StartsWith(lines[j + 1], "###")))
  }

  function ProjectEnd(lines: seq<string>, j: nat): (k: nat)
    requires j <= |lines|
    ensures j <= k <= |lines|
    ensures forall i :: j <= i < k ==> !EndsProject(lines, i)
    ensures k < |lines| ==> EndsProject(lines, k)
    decreases |lines| - j
  {
    if j == |lines| || EndsProject(lines, j) then j
    else ProjectEnd(lines, j + 1)
  }

  /** Where a task added to the project headed at `h` goes: where the
      search stops, or right after the header when it finds nothing. */
  function PoolInsertPoint(lines: seq<string>, h: nat): (k: nat)
    requires h < |lines|
    ensures h < k <= |lines|
    ensures forall i :: h < i < k ==> !EndsProject(lines, i)
    ensures k < |lines| && !EndsProject(lines, k) ==> k == h + 1 && forall i :: h < i < |lines| ==> !EndsProject(lines, i)
    ensures k == |lines| ==> EndsProject(lines, k - 1) || k == h + 1
  {
    var j := ProjectEnd(lines, h + 1);
    if j == |lines| then h + 1 else j
  }

  /** POST /api/todo/add into a project, as the viewer's server wrote it
      and as the first server wrote its pool branch: no placeholder is
      removed. */
  function AddToProject(lines: seq<string>, task: string, project: string): (r: Result<seq<string>>)
    ensures task == "" || project == "" ==> r == Err(MissingField)
    ensures task != "" && project != "" ==>
      (r == Err(ProjectNotFound) <==> forall i :: 0 <= i < |lines| ==> Trim(lines[i]) != "### " + project)
    ensures r.Ok? <==>
      task != "" && project != "" && exists i :: 0 <= i < |lines| && Trim(lines[i]) == "### " + project
    ensures r.Ok? ==>
      var h := FirstTrimmed(lines, "### " + project);
      var k := PoolInsertPoint(lines, h);
      && |r.value| == |lines| + 1
      && r.value[..k] == lines[..k] && r.value[k] == Editor.NewTaskLine(task) && r.value[k + 1..] == lines[k..]
  {
    if task == "" || project == "" then Err(MissingField)
    else
      var h := FirstTrimmed(lines, "### " + project);
      if h == |lines| then Err(ProjectNotFound)
      else Ok(Insert(lines, PoolInsertPoint(lines, h), [Editor.NewTaskLine(task)]))
  }

  /** The new task sits under its project: after the project's header,
      with no `###` line between them. */
  lemma {:induction false} AddToProjectUnderHeader(lines: seq<string>, task: string, project: string)
    requires AddToProject(lines, task, project).Ok?
    ensures var r := AddToProject(lines, task, project).value;
      var h := FirstTrimmed(lines, "### " + project);
      var k := PoolInsertPoint(lines, h);
      && h < k && Trim(r[h]) == "### " + project && r[k] == Editor.NewTaskLine(task)
      && forall j :: h < j < k ==> !StartsWith(r[j], "###")
  {
    var r := AddToProject(lines, task, project).value;
    var h := FirstTrimmed(lines, "### " + project);
    var k := PoolInsertPoint(lines, h);
    assert r[h] == r[..k][h] == lines[h];
    forall j | h < j < k
      ensures !StartsWith(r[j], "###")
    {
      assert r[j] == r[..k][j] == lines[j];
      assert !EndsProject(lines, j);
    }
  }

  /** POST /api/todo/add of the first server: `weekLineIndex`, when it is a
      non-negative number, selects a week block; otherwise the project. */
  function AddTask(lines: seq<string>, task: string, project: string, weekLineIndex: Option<int>): (r: Result<seq<string>>)
    ensures task == "" || project == "" ==> r == Err(MissingField)
    ensures !(weekLineIndex.Some? && weekLineIndex.value >= 0) ==> r == AddToProject(lines, task, project)
    ensures task != "" && project != "" && weekLineIndex.Some? && weekLineIndex.value >= 0 ==>
      var k := WeekInsertPoint(lines, weekLineIndex.value);
      && r.Ok? && |r.value| == |lines| + 1
      && r.value[..k] == lines[..k] && r.value[k] == Editor.NewTaskLine(task) && r.value[k + 1..] == lines[k..]
  {
    if task == "" || project == "" then Err(MissingField)
    else if weekLineIndex.Some? && weekLineIndex.value >= 0 then
      Ok(Insert(lines, WeekInsertPoint(lines, weekLineIndex.value), [Editor.NewTaskLine(task)]))
    else AddToProject(lines, task, project)
  }

  // --------------------------------------------------------- add project

  /** What the first server's project add looks for in a line. */
  datatype Role = PoolHead | Closing | ProjectHead | Other

  function RoleOf(line: string): (r: Role)
    ensures r == PoolHead <==> Trim(line) == PoolHeader
    ensures r == Closing <==> IsSeparator(line)
    ensures r == ProjectHead <==> StartsWith(line, "### ") && !IsSeparator(line) && Trim(line) != PoolHeader
  {
    if Trim(line) == PoolHeader then PoolHead
    else if IsSeparator(line) then Closing
    else if StartsWith(line, "### ") then ProjectHead
    else Other
  }

  function Roles(lines: seq<string>): (rs: seq<Role>)
    ensures |rs| == |lines|
    ensures forall i :: 0 <= i < |lines| ==> rs[i] == RoleOf(lines[i])
  {
    seq(|lines|, i requires 0 <= i < |lines| => RoleOf(lines[i]))
  }

  /** The pool scan of the first server's project add from line `i`: the
      index of the pool's separator once it is reached, otherwise that of
      the last `### ` line after the pool header, -1 for none. */
  function Anchor(rs: seq<Role>, i: nat, inPool: bool, last: int): (a: int)
    requires i <= |rs| && -1 <= last < i
    ensures -1 <= a < |rs|
    decreases |rs| - i
  {
    if i == |rs| then last
    else if rs[i] == PoolHead then Anchor(rs, i + 1, true, last)
    else if inPool && rs[i] == Closing then i
    else if inPool && rs[i] == ProjectHead then Anchor(rs, i + 1, inPool, i)
    else Anchor(rs, i + 1, inPool, last)
  }

  /** Before the pool header the scan only carries its start value along;
      from the header on it stops at the first separator. */
  lemma {:induction false} AnchorAt(rs: seq<Role>, i: nat, inPool: bool, last: int, p: nat, s: nat)
    requires i <= |rs| && -1 <= last < i
    requires p < s < |rs| && rs[p] == PoolHead && rs[s] == Closing
    requires forall j :: 0 <= j < p ==> rs[j] != PoolHead
    requires forall j :: p < j < s ==> rs[j] != Closing
    requires i <= s
    requires inPool <==> p < i
    ensures Anchor(rs, i, inPool, last) == s
    decreases |rs| - i
  {
    if i < s {
      if rs[i] == PoolHead {
        AnchorAt(rs, i + 1, true, last, p, s);
      } else if inPool && rs[i] == ProjectHead {
        AnchorAt(rs, i + 1, inPool, i, p, s);
      } else {
        AnchorAt(rs, i + 1, inPool, last, p, s);
      }
    }
  }

  /** The scan of the whole document stops at the pool's separator. */
  lemma {:induction false} AnchorAtSeparator(lines: seq<string>)
    requires Editor.PoolSeparator(lines).Some?
    ensures Anchor(Roles(lines), 0, false, -1) == Editor.PoolSeparator(lines).value
  {
    var p := FirstTrimmed(lines, PoolHeader);
    AnchorAt(Roles(lines), 0, false, -1, p, Editor.PoolSeparator(lines).value);
  }

  /** The three lines a new project is written as. */
  function NewProjectLines(name: string): seq<string> {
    ["", "### " + name, ""]
  }

  /** Where the first server inserts a new project: at the first `###` or
      separator line after the anchor, or right after the anchor. */
  function ProjectInsertPointAsWritten(lines: seq<string>, a: nat): (k: nat)
    requires a < |lines|
    ensures a < k <= |lines|
  {
    var j := FirstFrom(lines, a + 1, l => StartsWith(l, "###") || IsSeparator(l));
    if j == |lines| then a + 1 else j
  }

  /** POST /api/project/add of the first server, as written. */
  function AddProjectAsWritten(lines: seq<string>, name: string): (r: Result<seq<string>>)
    ensures name == "" ==> r == Err(MissingField)
    ensures name != "" && (exists i :: 0 <= i < |lines| && Trim(lines[i]) == "### " + name) ==> r == Err(ProjectExists)
    ensures r == Err(PoolNotFound) <==>
      name != "" && (forall i :: 0 <= i < |lines| ==> Trim(lines[i]) != "### " + name)
      && Anchor(Roles(lines), 0, false, -1) == -1
    ensures r.Ok? <==>
      name != "" && (forall i :: 0 <= i < |lines| ==> Trim(lines[i]) != "### " + name)
      && Anchor(Roles(lines), 0, false, -1) >= 0
    ensures r.Ok? ==>
      var a := Anchor(Roles(lines), 0, false, -1);
      && 0 <= a
      && r.value == Insert(lines, ProjectInsertPointAsWritten(lines, a), NewProjectLines(name))
  {
    if name == "" then Err(MissingField)
    else if FirstTrimmed(lines, "### " + name) < |lines| then Err(ProjectExists)
    else
      var a := Anchor(Roles(lines), 0, false, -1);
      if a == -1 then Err(PoolNotFound)
      else Ok(Insert(lines, ProjectInsertPointAsWritten(lines, a), NewProjectLines(name)))
  }

  /** When a separator closes the pool, the project written by the first
      server lands after that separator, outside the pool. */
  lemma {:induction false} AddProjectAsWrittenLeavesPool(lines: seq<string>, name: string)
    ensures AddProjectAsWritten(lines, name).Ok? && Editor.PoolSeparator(lines).Some? ==>
      var s := Editor.PoolSeparator(lines).value;
      var r := AddProjectAsWritten(lines, name).value;
      exists k :: s < k < |r| && r[k] == "### " + name && r[..s + 1] == lines[..s + 1]
  {
    if AddProjectAsWritten(lines, name).Ok? && Editor.PoolSeparator(lines).Some? {
      var s := Editor.PoolSeparator(lines).value;
      AnchorAtSeparator(lines);
      var a := ProjectInsertPointAsWritten(lines, s);
      InsertedAfter(lines, s, a, name, AddProjectAsWritten(lines, name).value);
    }
  }

  /** The three lines inserted at `a`, past line `s`, put the project
      header after `s` and leave the lines up to `s` alone. */
  lemma {:induction false} InsertedAfter(lines: seq<string>, s: nat, a: nat, name: string, r: seq<string>)
    requires s < a <= |lines| && r == Insert(lines, a, NewProjectLines(name))
    ensures s < a + 1 < |r| && r[a + 1] == "### " + name && r[..s + 1] == lines[..s + 1]
  {
    assert r[a..a + 3] == NewProjectLines(name);
    assert r[..s + 1] == r[..a][..s + 1] == lines[..a][..s + 1];
  }

  /** The project add with the separator case fixed: the new project goes
      right before the pool's separator, as the comment at that branch and
      the current server have it. */
  function AddProject(lines: seq<string>, name: string): (r: Result<seq<string>>)
    ensures name == "" ==> r == Err(MissingField)
    ensures name != "" && (exists i :: 0 <= i < |lines| && Trim(lines[i]) == "### " + name) ==> r == Err(ProjectExists)
    ensures r == Err(PoolNotFound) <==>
      name != "" && (forall i :: 0 <= i < |lines| ==> Trim(lines[i]) != "### " + name)
      && Anchor(Roles(lines), 0, false, -1) == -1
    ensures r.Ok? <==>
      name != "" && (forall i :: 0 <= i < |lines| ==> Trim(lines[i]) != "### " + name)
      && Anchor(Roles(lines), 0, false, -1) >= 0
    ensures r.Ok? && Editor.PoolSeparator(lines).Some? ==>
      r.value == Insert(lines, Editor.PoolSeparator(lines).value, NewProjectLines(name))
    ensures r.Ok? && Editor.PoolSeparator(lines).None? ==>
      var a := Anchor(Roles(lines), 0, false, -1);
      0 <= a && r.value == Insert(lines, ProjectInsertPointAsWritten(lines, a), NewProjectLines(name))
  {
    if name == "" then Err(MissingField)
    else if FirstTrimmed(lines, "### " + name) < |lines| then Err(ProjectExists)
    else
      var a := Anchor(Roles(lines), 0, false, -1);
      if a == -1 then Err(PoolNotFound)
      else match Editor.PoolSeparator(lines)
        case Some(s) => Ok(Insert(lines, s, NewProjectLines(name)))
        case None => Ok(Insert(lines, ProjectInsertPointAsWritten(lines, a), NewProjectLines(name)))
  }

  /** Where the fixed project add puts the new project: inside the pool,
      every line before the separator where it was, the new header after
      them, and the separator three lines further down, still the first
      after the pool header. */
  lemma {:induction false} InsertedProjectInPool(lines: seq<string>, s: nat, name: string, r: seq<string>)
    requires Editor.PoolSeparator(lines) == Some(s)
    requires r == Insert(lines, s, NewProjectLines(name))
    ensures s + 3 < |r| && r[..s] == lines[..s] && r[s + 1] == "### " + name
    ensures Editor.PoolSeparator(r) == Some(s + 3)
  {
    var p := FirstTrimmed(lines, PoolHeader);
    InsertedProjectShape(lines, s, name, r);
    assert FirstTrimmed(r, PoolHeader) == p by {
      FirstFromAt(r, 0, l => Trim(l) == PoolHeader, p);
    }
    InsertedClear(lines, s, name, r);
    SeparatorFoundAt(r, p, s + 3);
  }

  /** Between the pool header and the separator, now three lines further
      down, the insertion adds no separator. */
  lemma {:induction false} InsertedClear(lines: seq<string>, s: nat, name: string, r: seq<string>)
    requires Editor.PoolSeparator(lines) == Some(s)
    requires r == Insert(lines, s, NewProjectLines(name))
    ensures s + 3 < |r| && IsSeparator(r[s + 3])
    ensures forall i :: FirstTrimmed(lines, PoolHeader) < i < s + 3 ==> !IsSeparator(r[i])
  {
    InsertedProjectShape(lines, s, name, r);
    assert !IsSeparator(r[s]) && !IsSeparator(r[s + 2]) by {
      assert Trim("") == "";
    }
    assert !IsSeparator(r[s + 1]) by {
      TrimOfHeader(name);
    }
  }

  /** The pool's separator is the first separator after the pool header. */
  lemma {:induction false} SeparatorFoundAt(r: seq<string>, p: nat, t: nat)
    requires FirstTrimmed(r, PoolHeader) == p < t < |r| && IsSeparator(r[t])
    requires forall i :: p < i < t ==> !IsSeparator(r[i])
    ensures Editor.PoolSeparator(r) == Some(t)
  {
    FirstFromAt(r, p + 1, IsSeparator, t);
  }

  lemma {:induction false} InsertedProjectShape(lines: seq<string>, s: nat, name: string, r: seq<string>)
    requires s < |lines| && r == Insert(lines, s, NewProjectLines(name))
    ensures s + 3 < |r| && r[..s] == lines[..s] && r[s + 3] == lines[s]
    ensures r[s] == "" && r[s + 1] == "### " + name && r[s + 2] == ""
    ensures forall i :: 0 <= i < s ==> r[i] == lines[i]
  {
    assert r[s + 3..] == lines[s..];
    assert r[s..s + 3] == NewProjectLines(name);
    assert r[..s] == lines[..s];
  }

  /** A `### ` header never trims to the separator. */
  lemma {:induction false} TrimOfHeader(name: string)
    ensures Trim("### " + name) != Separator
  {
    var h := "### " + name;
    TrimShape(h);
    assert h[0] == '#' && !IsWs(h[0]);
  }

  // -------------------------------------------------------------- reorder

  /** A line that ends the first server's moved block: blank, starting
      `###`, a separator, or indented no deeper than the block's first
      line. */
  predicate EndsBlock(line: string, base: int) {
    IsBlank(line) || StartsWith(line, "###") || IsSeparator(line) || FirstNonWs(line) <= base
  }

  function BlockEnd(lines: seq<string>, i: nat): (e: nat)
    requires i < |lines|
    ensures i < e <= |lines|
    ensures forall j :: i < j < e ==>
      !IsBlank(lines[j]) && !StartsWith(lines[j], "###") && !IsSeparator(lines[j]) && FirstNonWs(lines[j]) > FirstNonWs(lines[i])
    ensures e < |lines| ==> EndsBlock(lines[e], FirstNonWs(lines[i]))
  {
    var base := FirstNonWs(lines[i]);
    FirstFrom(lines, i + 1, l => EndsBlock(l, base))
  }

  /** POST /api/todo/reorder of the first server: cut the block at `from`
      and re-insert it where line `to` was. */
  function Reorder(lines: seq<string>, from: int, to: int): (r: Result<seq<string>>)
    ensures r.Ok? <==> 0 <= from < |lines| && 0 <= to < |lines|
    ensures r.Err? ==> r.error == InvalidLineIndex
    ensures r.Ok? ==> |r.value| == |lines| && multiset(r.value) == multiset(lines)
  {
    if from < 0 || from >= |lines| || to < 0 || to >= |lines| then Err(InvalidLineIndex)
    else
      var e := BlockEnd(lines, from);
      MoveBlockPermutes(lines, from, e, to);
      Ok(MoveBlock(lines, from, e, to))
  }

  /** Where the moved block lands, as for the current server. */
  lemma {:induction false} ReorderPlacement(lines: seq<string>, from: int, to: int)
    requires 0 <= from < |lines| && 0 <= to < |lines|
    ensures Placed(lines, from, BlockEnd(lines, from), to, Reorder(lines, from, to).value)
  {
    MoveBlockPlacement(lines, from, BlockEnd(lines, from), to);
  }
}
