/** The task-tree builder of the settlement (dist-server/index.js
    `buildTaskTreeFromPool`): one pass over the document that collects, per
    project header of the pool section, the forest of its checklist lines.
    Only lines after the first `## 待办池` line and before the next
    separator take part; roots met before any project header are dropped. */
module Pool {
  import opened Text
  import opened Lines
  import opened Classify
  import opened Forest

  /** One entry of the `Map` from project name to root tasks; the order of
      the sequence is the map's insertion order. */
  datatype Bucket = Bucket(name: string, roots: seq<Tree>)

  function Names(bs: seq<Bucket>): (ns: seq<string>)
    ensures |ns| == |bs|
    ensures forall k :: 0 <= k < |bs| ==> ns[k] == bs[k].name
  {
    seq(|bs|, k requires 0 <= k < |bs| => bs[k].name)
  }

  /** The loop's variables: `inPool`, the map, `currentProject` and the
      stack of open nodes. */
  datatype Scan = Scan(inPool: bool, buckets: seq<Bucket>, project: string, stack: Stack)

  const Start: Scan := Scan(false, [], "", Empty)

  /** The node record of the task line at `i`. */
  function ItemOf(lines: seq<string>, i: nat): (y: Item)
    requires i < |lines|
    ensures y.lineIndex == i && y.text == lines[i]
  {
    Item(i, IndentLevel(lines[i]), IsCompletedTask(lines[i]), lines[i])
  }

  /** The roots built since the last header, hung under the current
      project; under the empty project name they are lost. */
  function Commit(bs: seq<Bucket>, project: string, trees: seq<Tree>): (r: seq<Bucket>)
    ensures Names(r) == Names(bs)
  {
    if project == "" then bs
    else seq(|bs|, k requires 0 <= k < |bs| => Add(bs[k], project, trees))
  }

  function Add(b: Bucket, project: string, trees: seq<Tree>): Bucket {
    if b.name == project then Bucket(project, b.roots + trees) else b
  }

  /** `if (!projectTrees.has(name)) projectTrees.set(name, [])` */
  function Open(bs: seq<Bucket>, name: string): (r: seq<Bucket>)
    ensures Names(r) == if name in Names(bs) then Names(bs) else Names(bs) + [name]
  {
    if name in Names(bs) then bs else bs + [Bucket(name, [])]
  }

  /** The map once the loop ends. */
  function Finish(st: Scan): seq<Bucket> {
    Commit(st.buckets, st.project, Flatten(st.stack))
  }

  /** The loop breaks at a separator inside the pool. */
  predicate Stops(line: string, st: Scan) {
    Trim(line) != PoolHeader && st.inPool && IsSeparator(line)
  }

  /** One turn of the loop on line `i`, when it does not break. */
  function Next(lines: seq<string>, i: nat, st: Scan): Scan
    requires i < |lines|
  {
    var line := lines[i];
    if Trim(line) == PoolHeader then st.(inPool := true)
    else if !st.inPool then st
    else if IsProjectHeader(line) then
      var name := Trim(line[4..]);
      Scan(true, Open(Finish(st), name), name, Empty)
    else if IsPlaceholder(line) then st
    else if IsTaskLine(line) then st.(stack := Step(st.stack, ItemOf(lines, i)))
    else st
  }

  function Walk(lines: seq<string>, i: nat, st: Scan): seq<Bucket>
    decreases |lines| - i
  {
    if i >= |lines| || Stops(lines[i], st) then Finish(st)
    else Walk(lines, i + 1, Next(lines, i, st))
  }

  /** `buildTaskTreeFromPool(lines)` */
  function BuildPool(lines: seq<string>): seq<Bucket> {
    Walk(lines, 0, Start)
  }

  // ------------------------------------------------- reference definition

  /** The first pool header line, or `|lines|`. */
  function PoolStart(lines: seq<string>): nat {
    FirstTrimmed(lines, PoolHeader)
  }

  /** The first separator after `s`, or `|lines|`. */
  function PoolEnd(lines: seq<string>, s: nat): nat {
    FirstFrom(lines, s + 1, IsSeparator)
  }

  /** The last project header in `[lo, i)`, or -1. */
  function LastHeader(lines: seq<string>, lo: nat, i: nat): (h: int)
    requires lo <= i <= |lines|
    ensures h == -1 || (lo <= h < i && IsProjectHeader(lines[h]))
    ensures forall j :: h < j < i && lo <= j ==> !IsProjectHeader(lines[j])
    decreases i
  {
    if i == lo then -1
    else if IsProjectHeader(lines[i - 1]) then i - 1
    else LastHeader(lines, lo, i - 1)
  }

  /** The name a header line gives its project. */
  function HeaderName(line: string): string
    requires IsProjectHeader(line)
  {
    Trim(line[4..])
  }

  /** The project a line at `i` belongs to: the name of the nearest header
      above it in the window, or "" when there is none. */
  function Owner(lines: seq<string>, lo: nat, i: nat): string
    requires lo <= i <= |lines|
  {
    var h := LastHeader(lines, lo, i);
    if h < 0 then "" else HeaderName(lines[h])
  }

  /** The distinct header names of `[lo, hi)` in order of first appearance. */
  function HeaderNames(lines: seq<string>, lo: nat, hi: nat): seq<string>
    requires lo <= hi <= |lines|
    decreases hi
  {
    if hi == lo then []
    else
      var ns := HeaderNames(lines, lo, hi - 1);
      if IsProjectHeader(lines[hi - 1]) && HeaderName(lines[hi - 1]) !in ns then ns + [HeaderName(lines[hi - 1])]
      else ns
  }

  /** The task lines of `[lo, hi)` that belong to project `name`. */
  function Owned(lines: seq<string>, lo: nat, hi: nat, name: string): seq<Item>
    requires lo <= hi <= |lines|
    decreases hi
  {
    if hi == lo then []
    else
      var rest := Owned(lines, lo, hi - 1, name);
      if IsTaskLine(lines[hi - 1]) && Owner(lines, lo, hi - 1) == name then rest + [ItemOf(lines, hi - 1)] else rest
  }

  /** The task lines of `[lo, hi)` after its last header. */
  function SegmentItems(lines: seq<string>, lo: nat, hi: nat): seq<Item>
    requires lo <= hi <= |lines|
    decreases hi
  {
    if hi == lo || IsProjectHeader(lines[hi - 1]) then []
    else
      var rest := SegmentItems(lines, lo, hi - 1);
      if IsTaskLine(lines[hi - 1]) then rest + [ItemOf(lines, hi - 1)] else rest
  }

  /** The last header above an item's line, -2 for a line outside the
      document. */
  function SegmentOf(lines: seq<string>, lo: nat, y: Item): int {
    if lo <= y.lineIndex <= |lines| then LastHeader(lines, lo, y.lineIndex) else -2
  }

  /** Every item of the tree sits under the same header as its root: the
      stack is cleared at each header, so no child hangs across one. */
  predicate OneSegment(lines: seq<string>, lo: nat, t: Tree) {
    forall y :: y in Preorder(t) ==> SegmentOf(lines, lo, y) == SegmentOf(lines, lo, t.item)
  }

  // -------------------------------------------------------------- theorem

  /** What the map holds: a bucket per distinct header name of the pool, in
      order of first appearance; the document order of a named bucket's
      forest is exactly the pool's task lines under headers of that name;
      the bucket of the empty name holds nothing; and every child is
      indented deeper than its parent and under the same header as its root.
      Without a pool header the map is empty. */
  lemma {:induction false} BuildPoolSpec(lines: seq<string>)
    ensures var s := PoolStart(lines);
      var r := BuildPool(lines);
      && (s == |lines| ==> r == [])
      && (s < |lines| ==>
        var e := PoolEnd(lines, s);
        && Names(r) == HeaderNames(lines, s + 1, e)
        && forall k :: 0 <= k < |r| ==>
          && (r[k].name == "" ==> r[k].roots == [])
          && (r[k].name != "" ==> PreorderAll(r[k].roots) == Owned(lines, s + 1, e, r[k].name))
          && NestedAll(r[k].roots)
          && forall t :: t in r[k].roots ==> OneSegment(lines, s + 1, t))
  {
    var s := PoolStart(lines);
    WalkBefore(lines, 0, s);
    if s < |lines| {
      var st := Start.(inPool := true);
      assert Inv(lines, s + 1, s + 1, st) by {
        assert PreorderAll(Flatten(Empty)) == [];
      }
      WalkInPool(lines, s + 1, PoolEnd(lines, s), s + 1, st);
      var r := BuildPool(lines);
      assert Done(lines, s + 1, PoolEnd(lines, s), r);
      forall k | 0 <= k < |r| ensures BucketDone(lines, s + 1, PoolEnd(lines, s), r[k]) {
      }
    }
  }

  /** Before the first pool header nothing happens. */
  lemma {:induction false} WalkBefore(lines: seq<string>, i: nat, s: nat)
    requires s == PoolStart(lines) && i <= s
    ensures s == |lines| ==> Walk(lines, i, Start) == []
    ensures s < |lines| ==> Walk(lines, i, Start) == Walk(lines, s + 1, Start.(inPool := true))
    decreases s - i
  {
    if i < s {
      var j := SkipBefore(lines, i, s);
      WalkBefore(lines, j, s);
    } else if s == |lines| {
      assert Walk(lines, i, Start) == Finish(Start);
    }
  }

  /** A line before the pool header leaves the walk as it is. */
  lemma {:induction false} SkipBefore(lines: seq<string>, i: nat, s: nat) returns (j: nat)
    requires s == PoolStart(lines) && i < s
    ensures j == i + 1 && j <= s && Walk(lines, i, Start) == Walk(lines, j, Start)
  {
    assert Trim(lines[i]) != PoolHeader;
    j := i + 1;
  }

  /** A finished bucket of the map, built from the lines `[lo, hi)`. */
  predicate BucketDone(lines: seq<string>, lo: nat, hi: nat, b: Bucket)
    requires lo <= hi <= |lines|
  {
    && (b.name == "" ==> b.roots == [])
    && (b.name != "" ==> PreorderAll(b.roots) == Owned(lines, lo, hi, b.name))
    && NestedAll(b.roots)
    && forall t :: t in b.roots ==> OneSegment(lines, lo, t)
  }

  /** The finished map built from the lines `[lo, hi)`. */
  predicate Done(lines: seq<string>, lo: nat, hi: nat, r: seq<Bucket>)
    requires lo <= hi <= |lines|
  {
    && Names(r) == HeaderNames(lines, lo, hi)
    && forall k :: 0 <= k < |r| ==> BucketDone(lines, lo, hi, r[k])
  }

  predicate BucketOk(lines: seq<string>, lo: nat, i: nat, project: string, b: Bucket)
    requires lo <= i <= |lines|
  {
    && (b.name == "" ==> b.roots == [])
    && (b.name != "" ==>
         PreorderAll(b.roots) + (if b.name == project then SegmentItems(lines, lo, i) else [])
           == Owned(lines, lo, i, b.name))
    && NestedAll(b.roots)
    && forall t :: t in b.roots ==> OneSegment(lines, lo, t)
  }

  /** The loop invariant inside the pool, after lines `[lo, i)`. */
  predicate Inv(lines: seq<string>, lo: nat, i: nat, st: Scan)
    requires lo <= i <= |lines|
  {
    && st.inPool
    && st.project == Owner(lines, lo, i)
    && Names(st.buckets) == HeaderNames(lines, lo, i)
    && (st.project != "" ==> st.project in Names(st.buckets))
    && PreorderAll(Flatten(st.stack)) == SegmentItems(lines, lo, i)
    && GoodStack(st.stack)
    && forall k :: 0 <= k < |st.buckets| ==> BucketOk(lines, lo, i, st.project, st.buckets[k])
  }

  lemma {:induction false} WalkInPool(lines: seq<string>, lo: nat, e: nat, i: nat, st: Scan)
    requires 1 <= lo <= i <= e && e == FirstFrom(lines, lo, IsSeparator)
    requires Inv(lines, lo, i, st)
    ensures Done(lines, lo, e, Walk(lines, i, st))
    decreases e - i
  {
    if i == e {
      WalkEnds(lines, lo, e, i, st);
    } else {
      var j, nx := Turn(lines, lo, e, i, st);
      WalkInPool(lines, lo, e, j, nx);
    }
  }

  /** At the separator the map is finished. */
  lemma {:induction false} WalkEnds(lines: seq<string>, lo: nat, e: nat, i: nat, st: Scan)
    requires 1 <= lo <= i == e && e == FirstFrom(lines, lo, IsSeparator)
    requires Inv(lines, lo, i, st)
    ensures Done(lines, lo, e, Walk(lines, i, st))
  {
    WalkTurn(lines, lo, e, i, st);
    FinishOk(lines, lo, i, st);
  }

  /** Before it, one turn of the loop keeps the invariant and leaves the
      rest of the walk to the next line; the next index and state come
      back as fresh names, which keeps the two turns apart in the proof. */
  lemma {:induction false} Turn(lines: seq<string>, lo: nat, e: nat, i: nat, st: Scan) returns (j: nat, nx: Scan)
    requires 1 <= lo <= i < e && e == FirstFrom(lines, lo, IsSeparator)
    requires Inv(lines, lo, i, st)
    ensures j == i + 1 && j <= |lines| && Inv(lines, lo, j, nx)
    ensures Walk(lines, i, st) == Walk(lines, j, nx)
  {
    WalkTurn(lines, lo, e, i, st);
    j, nx := i + 1, Next(lines, i, st);
    TurnAt(lines, lo, e, i, st, j, nx);
  }

  lemma {:induction false} TurnAt(lines: seq<string>, lo: nat, e: nat, i: nat, st: Scan, j: nat, nx: Scan)
    requires 1 <= lo <= i < e && e == FirstFrom(lines, lo, IsSeparator)
    requires Inv(lines, lo, i, st) && j == i + 1 && i < |lines| && nx == Next(lines, i, st)
    ensures Inv(lines, lo, j, nx)
    ensures Walk(lines, i, st) == Walk(lines, j, nx)
  {
    WalkTurn(lines, lo, e, i, st);
    NextInv(lines, lo, i, st);
  }

  /** Inside the pool the loop breaks exactly at the first separator. */
  lemma {:induction false} WalkTurn(lines: seq<string>, lo: nat, e: nat, i: nat, st: Scan)
    requires 1 <= lo <= i <= e && e == FirstFrom(lines, lo, IsSeparator) && st.inPool
    ensures i == e ==> Walk(lines, i, st) == Finish(st)
    ensures i < e ==> i < |lines| && !IsSeparator(lines[i]) && Walk(lines, i, st) == Walk(lines, i + 1, Next(lines, i, st))
  {
    if i == e && i < |lines| {
      assert Stops(lines[i], st) by {
        assert IsSeparator(lines[i]);
        assert Trim(lines[i]) != PoolHeader;
      }
    }
  }

  lemma {:induction false} FinishOk(lines: seq<string>, lo: nat, i: nat, st: Scan)
    requires lo <= i <= |lines| && Inv(lines, lo, i, st)
    ensures Done(lines, lo, i, Finish(st))
  {
    var r := Finish(st);
    var f := Flatten(st.stack);
    GoodFlatten(st.stack);
    FlattenOneSegment(lines, lo, i, f);
    forall k | 0 <= k < |r| ensures BucketDone(lines, lo, i, r[k]) {
      var b := st.buckets[k];
      assert BucketOk(lines, lo, i, st.project, b);
      if st.project != "" && b.name == st.project {
        assert r[k].roots == b.roots + f;
        PreorderAllConcat(b.roots, f);
        NestedConcat(b.roots, f);
      }
    }
  }

  lemma {:induction false} NestedConcat(a: seq<Tree>, b: seq<Tree>)
    requires NestedAll(a) && NestedAll(b)
    ensures NestedAll(a + b)
  {
    forall i | 0 <= i < |a + b| ensures Nested((a + b)[i]) {
      if i >= |a| {
        assert (a + b)[i] == b[i - |a|];
      }
    }
  }

  /** A header line is not a checklist line. */
  lemma {:induction false} HeaderIsNotTask(line: string)
    requires IsProjectHeader(line)
    ensures !IsTaskLine(line)
  {
    assert line[..4] == "### ";
    assert line[0] == '#';
    assert LeadingWs(line) == 0;
  }

  /** A header line does not trim to the pool header. */
  lemma {:induction false} HeaderIsNotPool(line: string)
    requires IsProjectHeader(line)
    ensures Trim(line) != PoolHeader
  {
    assert line[..4] == "### ";
    assert line[0] == '#' && line[2] == '#';
    assert LeadingWs(line) == 0;
    TrimKeeps(line, 2);
  }

  /** One turn of the loop keeps the invariant. */
  lemma {:induction false} NextInv(lines: seq<string>, lo: nat, i: nat, st: Scan)
    requires lo <= i < |lines| && !IsSeparator(lines[i]) && Inv(lines, lo, i, st)
    ensures Inv(lines, lo, i + 1, Next(lines, i, st))
  {
    var line := lines[i];
    if IsProjectHeader(line) {
      HeaderIsNotPool(line);
      HeaderIsNotTask(line);
      HeaderInv(lines, lo, i, st);
    } else if IsTaskLine(line) {
      TaskLineIsNotBoundary(line);
      TaskInv(lines, lo, i, st);
    } else {
      assert Next(lines, i, st) == st;
      QuietInv(lines, lo, i, st);
    }
  }

  /** A line that is neither a header nor a task line changes nothing. */
  lemma {:induction false} QuietInv(lines: seq<string>, lo: nat, i: nat, st: Scan)
    requires lo <= i < |lines| && !IsProjectHeader(lines[i]) && !IsTaskLine(lines[i])
    requires Inv(lines, lo, i, st)
    ensures Inv(lines, lo, i + 1, st)
  {
    assert Owner(lines, lo, i + 1) == Owner(lines, lo, i);
    assert SegmentItems(lines, lo, i + 1) == SegmentItems(lines, lo, i);
    forall k | 0 <= k < |st.buckets| ensures BucketOk(lines, lo, i + 1, st.project, st.buckets[k]) {
      assert BucketOk(lines, lo, i, st.project, st.buckets[k]);
      assert Owned(lines, lo, i + 1, st.buckets[k].name) == Owned(lines, lo, i, st.buckets[k].name);
    }
  }

  /** A task line goes onto the stack and into the current project. */
  lemma {:induction false} TaskInv(lines: seq<string>, lo: nat, i: nat, st: Scan)
    requires lo <= i < |lines| && IsTaskLine(lines[i]) && !IsProjectHeader(lines[i])
    requires Trim(lines[i]) != PoolHeader && !IsPlaceholder(lines[i])
    requires Inv(lines, lo, i, st)
    ensures Inv(lines, lo, i + 1, Next(lines, i, st))
  {
    var y := ItemOf(lines, i);
    assert Next(lines, i, st) == st.(stack := Step(st.stack, y));
    TaskInvAt(lines, lo, i, st, y);
  }

  lemma {:induction false} TaskInvAt(lines: seq<string>, lo: nat, i: nat, st: Scan, y: Item)
    requires lo <= i < |lines| && IsTaskLine(lines[i]) && !IsProjectHeader(lines[i])
    requires y == ItemOf(lines, i) && Inv(lines, lo, i, st)
    ensures Inv(lines, lo, i + 1, st.(stack := Step(st.stack, y)))
  {
    StepPreorder(st.stack, y);
    StepGood(st.stack, y);
    assert Owner(lines, lo, i + 1) == Owner(lines, lo, i);
    assert SegmentItems(lines, lo, i + 1) == SegmentItems(lines, lo, i) + [y];
    forall k | 0 <= k < |st.buckets| ensures BucketOk(lines, lo, i + 1, st.project, st.buckets[k]) {
      TaskBucket(lines, lo, i, st.project, st.buckets[k]);
    }
  }

  lemma {:induction false} TaskBucket(lines: seq<string>, lo: nat, i: nat, project: string, b: Bucket)
    requires lo <= i < |lines| && IsTaskLine(lines[i]) && !IsProjectHeader(lines[i])
    requires project == Owner(lines, lo, i)
    requires BucketOk(lines, lo, i, project, b)
    ensures BucketOk(lines, lo, i + 1, project, b)
  {
    var y := ItemOf(lines, i);
    assert SegmentItems(lines, lo, i + 1) == SegmentItems(lines, lo, i) + [y];
    if b.name != "" {
      if b.name == project {
        assert Owned(lines, lo, i + 1, b.name) == Owned(lines, lo, i, b.name) + [y];
        assert PreorderAll(b.roots) + SegmentItems(lines, lo, i + 1)
            == (PreorderAll(b.roots) + SegmentItems(lines, lo, i)) + [y];
      } else {
        assert Owned(lines, lo, i + 1, b.name) == Owned(lines, lo, i, b.name);
      }
    }
  }

  /** A header closes the current project's roots and opens its own. */
  lemma {:induction false} HeaderInv(lines: seq<string>, lo: nat, i: nat, st: Scan)
    requires lo <= i < |lines| && IsProjectHeader(lines[i]) && Trim(lines[i]) != PoolHeader
    requires Inv(lines, lo, i, st)
    ensures Inv(lines, lo, i + 1, Next(lines, i, st))
  {
    var n := HeaderName(lines[i]);
    var c := Finish(st);
    var st' := Next(lines, i, st);
    assert st' == Scan(true, Open(c, n), n, Empty);
    assert Owner(lines, lo, i + 1) == n;
    assert SegmentItems(lines, lo, i + 1) == [];
    assert PreorderAll(Flatten(Empty)) == [];
    FinishOk(lines, lo, i, st);
    forall k | 0 <= k < |st'.buckets| ensures BucketOk(lines, lo, i + 1, n, st'.buckets[k]) {
      HeaderBucket(lines, lo, i, c, k);
    }
    assert n in Names(st'.buckets);
  }

  lemma {:induction false} HeaderBucket(lines: seq<string>, lo: nat, i: nat, c: seq<Bucket>, k: nat)
    requires lo <= i < |lines| && IsProjectHeader(lines[i])
    requires Done(lines, lo, i, c)
    requires k < |Open(c, HeaderName(lines[i]))|
    ensures BucketOk(lines, lo, i + 1, HeaderName(lines[i]), Open(c, HeaderName(lines[i]))[k])
  {
    var n := HeaderName(lines[i]);
    var b := Open(c, n)[k];
    HeaderIsNotTask(lines[i]);
    assert SegmentItems(lines, lo, i + 1) == [];
    if k < |c| {
      assert b == c[k];
      assert BucketDone(lines, lo, i, b);
      assert Owned(lines, lo, i + 1, b.name) == Owned(lines, lo, i, b.name);
    } else {
      assert b == Bucket(n, []);
      assert n !in HeaderNames(lines, lo, i);
      if n != "" {
        OwnedUnnamed(lines, lo, i, n);
        assert Owned(lines, lo, i + 1, n) == Owned(lines, lo, i, n);
      }
    }
  }

  /** A name no header of the window carries owns no task line. */
  lemma {:induction false} OwnedUnnamed(lines: seq<string>, lo: nat, hi: nat, name: string)
    requires lo <= hi <= |lines| && name != "" && name !in HeaderNames(lines, lo, hi)
    ensures Owned(lines, lo, hi, name) == []
    decreases hi
  {
    if hi > lo {
      HeaderNamesGrow(lines, lo, hi - 1);
      OwnedUnnamed(lines, lo, hi - 1, name);
      OwnerNamed(lines, lo, hi - 1);
    }
  }

  lemma {:induction false} HeaderNamesGrow(lines: seq<string>, lo: nat, i: nat)
    requires lo <= i < |lines|
    ensures forall x :: x in HeaderNames(lines, lo, i) ==> x in HeaderNames(lines, lo, i + 1)
  {
  }

  /** A non-empty owner is among the header names seen so far. */
  lemma {:induction false} OwnerNamed(lines: seq<string>, lo: nat, i: nat)
    requires lo <= i <= |lines|
    ensures Owner(lines, lo, i) != "" ==> Owner(lines, lo, i) in HeaderNames(lines, lo, i)
    decreases i
  {
    if i > lo && !IsProjectHeader(lines[i - 1]) {
      OwnerNamed(lines, lo, i - 1);
    }
  }

  /** The open and finished trees of the current segment stay under its
      header. */
  lemma {:induction false} FlattenOneSegment(lines: seq<string>, lo: nat, i: nat, f: seq<Tree>)
    requires lo <= i <= |lines| && PreorderAll(f) == SegmentItems(lines, lo, i)
    ensures forall t :: t in f ==> OneSegment(lines, lo, t)
  {
    SegmentItemsOf(lines, lo, i);
    forall t | t in f ensures OneSegment(lines, lo, t) {
      var j :| 0 <= j < |f| && f[j] == t;
      forall y | y in Preorder(t) ensures SegmentOf(lines, lo, y) == SegmentOf(lines, lo, t.item) {
        MemberPreorderAll(f, j, y);
        MemberPreorderAll(f, j, t.item);
      }
    }
  }

  /** Every item after the last header lies under that header. */
  lemma {:induction false} SegmentItemsOf(lines: seq<string>, lo: nat, hi: nat)
    requires lo <= hi <= |lines|
    ensures forall y :: y in SegmentItems(lines, lo, hi) ==> SegmentOf(lines, lo, y) == LastHeader(lines, lo, hi)
    decreases hi
  {
    if hi > lo && !IsProjectHeader(lines[hi - 1]) {
      SegmentItemsOf(lines, lo, hi - 1);
    }
  }

  /** The items a project owns are the node records of its task lines. */
  lemma {:induction false} OwnedLines(lines: seq<string>, lo: nat, hi: nat, name: string)
    requires lo <= hi <= |lines|
    ensures forall y :: y in Owned(lines, lo, hi, name) ==> OwnedLine(lines, lo, hi, name, y)
    decreases hi
  {
    if hi > lo {
      OwnedLines(lines, lo, hi - 1, name);
      var o' := Owned(lines, lo, hi - 1, name);
      forall y | y in Owned(lines, lo, hi, name) ensures OwnedLine(lines, lo, hi, name, y) {
        if y in o' {
          assert OwnedLine(lines, lo, hi - 1, name, y);
        }
      }
    }
  }

  /** An item owned by `name` among the lines `[lo, hi)`. */
  predicate OwnedLine(lines: seq<string>, lo: nat, hi: nat, name: string, y: Item)
    requires lo <= hi <= |lines|
  {
    && lo <= y.lineIndex < hi
    && y == ItemOf(lines, y.lineIndex)
    && IsTaskLine(lines[y.lineIndex])
    && Owner(lines, lo, y.lineIndex) == name
  }

  /** The owned items come in strictly increasing line order, so each task
      line yields at most one node. */
  lemma {:induction false} OwnedInOrder(lines: seq<string>, lo: nat, hi: nat, name: string)
    requires lo <= hi <= |lines|
    ensures forall j, k :: 0 <= j < k < |Owned(lines, lo, hi, name)| ==>
      Owned(lines, lo, hi, name)[j].lineIndex < Owned(lines, lo, hi, name)[k].lineIndex
    decreases hi
  {
    if hi > lo {
      OwnedInOrder(lines, lo, hi - 1, name);
      OwnedLines(lines, lo, hi - 1, name);
      var o' := Owned(lines, lo, hi - 1, name);
      if IsTaskLine(lines[hi - 1]) && Owner(lines, lo, hi - 1) == name {
        var o := o' + [ItemOf(lines, hi - 1)];
        assert Owned(lines, lo, hi, name) == o;
        forall j, k | 0 <= j < k < |o| ensures o[j].lineIndex < o[k].lineIndex {
          assert o[j] == o'[j] && o'[j] in o';
          assert OwnedLine(lines, lo, hi - 1, name, o'[j]);
          if k < |o'| {
            assert o[k] == o'[k];
          } else {
            assert o[k] == ItemOf(lines, hi - 1);
          }
        }
      }
    }
  }

  /** Every task line under a header of the project yields a node of it. */
  lemma {:induction false} OwnedComplete(lines: seq<string>, lo: nat, hi: nat, name: string)
    requires lo <= hi <= |lines|
    ensures forall i :: lo <= i < hi && IsTaskLine(lines[i]) && Owner(lines, lo, i) == name ==>
      ItemOf(lines, i) in Owned(lines, lo, hi, name)
    decreases hi
  {
    if hi > lo {
      OwnedComplete(lines, lo, hi - 1, name);
      OwnedStep(lines, lo, hi, name);
    }
  }

  /** Extending the range by one line keeps every node and adds the node
      of that line when it belongs to the project. */
  lemma {:induction false} OwnedStep(lines: seq<string>, lo: nat, hi: nat, name: string)
    requires lo < hi <= |lines|
    ensures forall x :: x in Owned(lines, lo, hi - 1, name) ==> x in Owned(lines, lo, hi, name)
    ensures IsTaskLine(lines[hi - 1]) && Owner(lines, lo, hi - 1) == name ==> ItemOf(lines, hi - 1) in Owned(lines, lo, hi, name)
  {
    var rest := Owned(lines, lo, hi - 1, name);
    if IsTaskLine(lines[hi - 1]) && Owner(lines, lo, hi - 1) == name {
      var o := rest + [ItemOf(lines, hi - 1)];
      assert Owned(lines, lo, hi, name) == o;
      assert o[|rest|] == ItemOf(lines, hi - 1);
    }
  }
}
