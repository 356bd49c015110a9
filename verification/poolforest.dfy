/** The parent relation of the pool builder. `buildTaskTreeFromPool`
    (dist-server/index.js) keeps one stack of open nodes per header
    segment and hangs each checklist line under the nearest open node
    indented less deeply; this module shows that what it hands each
    project is, segment by segment, the forest the reference builder
    `Forest.Build` makes of that segment's checklist lines. */
module PoolForests {
  import opened Text
  import opened Lines
  import opened Classify
  import opened Forest
  import opened Pool

  /** The forests of the segments of `[lo, hi)` that a later header of the
      window has closed and whose header is named `name`, in file order. */
  function ClosedForests(lines: seq<string>, lo: nat, hi: nat, name: string): seq<Tree>
    requires lo <= hi <= |lines|
    decreases hi
  {
    if hi == lo then []
    else
      var rest := ClosedForests(lines, lo, hi - 1, name);
      if IsProjectHeader(lines[hi - 1]) && name != "" && Owner(lines, lo, hi - 1) == name
      then rest + Build(SegmentItems(lines, lo, hi - 1))
      else rest
  }

  /** The reference forest of project `name` over `[lo, hi)`: for every
      segment under a header of that name, in file order, the forest
      `Build` makes of the segment's checklist lines. */
  function Forests(lines: seq<string>, lo: nat, hi: nat, name: string): seq<Tree>
    requires lo <= hi <= |lines|
  {
    ClosedForests(lines, lo, hi, name)
      + (if name != "" && Owner(lines, lo, hi) == name then Build(SegmentItems(lines, lo, hi)) else [])
  }

  // -------------------------------------------------------------- theorem

  /** Each project of the map holds, as its roots, exactly the forests the
      reference builder makes of its segments, one segment after another:
      every checklist line hangs under the nearest line above it in its
      segment that is indented less deeply, or is a root. */
  lemma {:induction false} BuildPoolForests(lines: seq<string>)
    ensures var s := PoolStart(lines);
      var r := BuildPool(lines);
      s < |lines| ==> forall k :: 0 <= k < |r| ==>
        r[k].roots == Forests(lines, s + 1, PoolEnd(lines, s), r[k].name)
  {
    var s := PoolStart(lines);
    WalkBefore(lines, 0, s);
    if s < |lines| {
      var st := Start.(inPool := true);
      assert Inv(lines, s + 1, s + 1, st) by {
        assert PreorderAll(Flatten(Empty)) == [];
      }
      assert ForestInv(lines, s + 1, s + 1, st) by {
        assert SegmentItems(lines, s + 1, s + 1) == [];
      }
      WalkForests(lines, s + 1, PoolEnd(lines, s), s + 1, st);
    }
  }

  /** Alongside the pool builder's invariant: the stack is the stack
      algorithm run over the current segment's checklist lines, and every
      bucket holds the forests of its closed segments. */
  predicate ForestInv(lines: seq<string>, lo: nat, i: nat, st: Scan)
    requires lo <= i <= |lines|
  {
    && st.stack == Run(Empty, SegmentItems(lines, lo, i))
    && forall k :: 0 <= k < |st.buckets| ==>
      st.buckets[k].roots == ClosedForests(lines, lo, i, st.buckets[k].name)
  }

  predicate Finished(lines: seq<string>, lo: nat, hi: nat, r: seq<Bucket>)
    requires lo <= hi <= |lines|
  {
    forall k :: 0 <= k < |r| ==> r[k].roots == Forests(lines, lo, hi, r[k].name)
  }

  lemma {:induction false} WalkForests(lines: seq<string>, lo: nat, e: nat, i: nat, st: Scan)
    requires 1 <= lo <= i <= e && e == FirstFrom(lines, lo, IsSeparator)
    requires Inv(lines, lo, i, st) && ForestInv(lines, lo, i, st)
    ensures Finished(lines, lo, e, Walk(lines, i, st))
    decreases e - i
  {
    if i == e {
      WalkTurn(lines, lo, e, i, st);
      FinishForests(lines, lo, i, st);
    } else {
      var j, nx := TurnForests(lines, lo, e, i, st);
      WalkForests(lines, lo, e, j, nx);
    }
  }

  /** One turn before the separator keeps both invariants. */
  lemma {:induction false} TurnForests(lines: seq<string>, lo: nat, e: nat, i: nat, st: Scan) returns (j: nat, nx: Scan)
    requires 1 <= lo <= i < e && e == FirstFrom(lines, lo, IsSeparator)
    requires Inv(lines, lo, i, st) && ForestInv(lines, lo, i, st)
    ensures j == i + 1 && j <= |lines| && Inv(lines, lo, j, nx) && ForestInv(lines, lo, j, nx)
    ensures Walk(lines, i, st) == Walk(lines, j, nx)
  {
    WalkTurn(lines, lo, e, i, st);
    j, nx := i + 1, Next(lines, i, st);
    TurnAt(lines, lo, e, i, st, j, nx);
    NextForests(lines, lo, i, st, j, nx);
  }

  /** When the loop ends, the open segment's forest joins its project. */
  lemma {:induction false} FinishForests(lines: seq<string>, lo: nat, i: nat, st: Scan)
    requires lo <= i <= |lines| && Inv(lines, lo, i, st) && ForestInv(lines, lo, i, st)
    ensures Finished(lines, lo, i, Finish(st))
  {
    var r := Finish(st);
    RunBuild(SegmentItems(lines, lo, i));
    forall k | 0 <= k < |r| ensures r[k].roots == Forests(lines, lo, i, r[k].name) {
      var b := st.buckets[k];
      if st.project != "" && b.name == st.project {
        assert r[k] == Bucket(b.name, b.roots + Build(SegmentItems(lines, lo, i)));
      } else {
        assert r[k] == b;
      }
    }
  }

  /** One turn of the loop keeps the forest invariant. */
  lemma {:induction false} NextForests(lines: seq<string>, lo: nat, i: nat, st: Scan, j: nat, nx: Scan)
    requires lo <= i < |lines| && !IsSeparator(lines[i])
    requires Inv(lines, lo, i, st) && ForestInv(lines, lo, i, st)
    requires j == i + 1 && nx == Next(lines, i, st)
    ensures ForestInv(lines, lo, j, nx)
  {
    var line := lines[i];
    if IsProjectHeader(line) {
      HeaderIsNotPool(line);
      HeaderForests(lines, lo, i, st);
    } else if IsTaskLine(line) {
      TaskLineIsNotBoundary(line);
      var y := ItemOf(lines, i);
      assert Next(lines, i, st) == st.(stack := Step(st.stack, y));
      TaskForests(lines, lo, i, st, y);
    } else {
      assert Next(lines, i, st) == st;
      assert SegmentItems(lines, lo, i + 1) == SegmentItems(lines, lo, i);
      assert forall n :: ClosedForests(lines, lo, i + 1, n) == ClosedForests(lines, lo, i, n);
    }
  }

  /** A checklist line is one more step of the stack algorithm. */
  lemma {:induction false} TaskForests(lines: seq<string>, lo: nat, i: nat, st: Scan, y: Item)
    requires lo <= i < |lines| && IsTaskLine(lines[i]) && !IsProjectHeader(lines[i])
    requires y == ItemOf(lines, i) && ForestInv(lines, lo, i, st)
    ensures ForestInv(lines, lo, i + 1, st.(stack := Step(st.stack, y)))
  {
    var items := SegmentItems(lines, lo, i);
    assert SegmentItems(lines, lo, i + 1) == items + [y];
    assert (items + [y])[..|items|] == items;
    assert forall n :: ClosedForests(lines, lo, i + 1, n) == ClosedForests(lines, lo, i, n);
  }

  /** A header closes the current segment into its project and opens an
      empty one. */
  lemma {:induction false} HeaderForests(lines: seq<string>, lo: nat, i: nat, st: Scan)
    requires lo <= i < |lines| && IsProjectHeader(lines[i]) && Trim(lines[i]) != PoolHeader
    requires Inv(lines, lo, i, st) && ForestInv(lines, lo, i, st)
    ensures ForestInv(lines, lo, i + 1, Next(lines, i, st))
  {
    var n := HeaderName(lines[i]);
    var c := Finish(st);
    assert Next(lines, i, st) == Scan(true, Open(c, n), n, Empty);
    assert SegmentItems(lines, lo, i + 1) == [];
    FinishForests(lines, lo, i, st);
    FinishOk(lines, lo, i, st);
    forall k | 0 <= k < |Open(c, n)|
      ensures Open(c, n)[k].roots == ClosedForests(lines, lo, i + 1, Open(c, n)[k].name)
    {
      ClosedStep(lines, lo, i, Open(c, n)[k].name);
      if k == |c| {
        assert n !in HeaderNames(lines, lo, i);
        ClosedUnnamed(lines, lo, i, n);
        OwnerNamed(lines, lo, i);
      }
    }
  }

  /** Across a header, a project's closed forests gain the forest of the
      segment that header ends. */
  lemma {:induction false} ClosedStep(lines: seq<string>, lo: nat, i: nat, name: string)
    requires lo <= i < |lines| && IsProjectHeader(lines[i])
    ensures ClosedForests(lines, lo, i + 1, name) == Forests(lines, lo, i, name)
  {
  }

  /** A name no header of the window carries has no closed forest. */
  lemma {:induction false} ClosedUnnamed(lines: seq<string>, lo: nat, hi: nat, name: string)
    requires lo <= hi <= |lines| && name !in HeaderNames(lines, lo, hi)
    ensures ClosedForests(lines, lo, hi, name) == []
    decreases hi
  {
    if hi > lo {
      assert name !in HeaderNames(lines, lo, hi - 1) by {
        HeaderNamesGrow(lines, lo, hi - 1);
      }
      ClosedUnnamed(lines, lo, hi - 1, name);
      assert name == "" || Owner(lines, lo, hi - 1) != name by {
        OwnerNamed(lines, lo, hi - 1);
      }
    }
  }
}
