/** The week settlement of the first server (server/index.ts): collect the
    completed tasks of the pool with their deeper followers, drop those
    lines, find or create the block of the current Monday's week, and
    write the collected lines at its end, grouped by project. */
module OldSettle {
  import opened Text
  import opened Lines
  import opened Outcome
  import opened Classify
  import opened Calendar
  import Weeks
  import Merge
  import Legacy

  // -------------------------------------------------------- line kinds

  /** `/^- \[x\]/.test(line.trim())`: any completed task, at any depth. */
  predicate IsDoneTask(line: string) {
    StartsWith(Trim(line), "- [x]")
  }

  /** What the pool scan sees in a line: the pool header, a separator, a
      project header with its name, a completed task with the end of the
      block it heads, or anything else. */
  datatype Kind = PoolHead | Closing | ProjectHead(name: string) | DoneTask(end: nat) | Other

  function KindAt(lines: seq<string>, i: nat): (k: Kind)
    requires i < |lines|
    ensures k == PoolHead <==> Trim(lines[i]) == PoolHeader
    ensures k == Closing <==> IsSeparator(lines[i])
    ensures k.ProjectHead? ==> StartsWith(lines[i], "### ") && k.name == Trim(lines[i][4..])
    ensures k.DoneTask? <==> IsDoneTask(lines[i])
    ensures k.DoneTask? ==> k.end == Legacy.BlockEnd(lines, i)
  {
    NotDone(lines[i]);
    if Trim(lines[i]) == PoolHeader then PoolHead
    else if IsSeparator(lines[i]) then Closing
    else if StartsWith(lines[i], "### ") then ProjectHead(Trim(lines[i][4..]))
    else if IsDoneTask(lines[i]) then DoneTask(Legacy.BlockEnd(lines, i))
    else Other
  }

  /** A line whose trim starts with `#` or is a separator is no completed
      task: the pool header, separators and project headers are not. */
  lemma {:induction false} NotDone(line: string)
    ensures Trim(line) == PoolHeader || IsSeparator(line) || StartsWith(line, "### ") ==> !IsDoneTask(line)
  {
    if StartsWith(line, "### ") {
      assert line[0] == line[..4][0] == '#';
      LeadingWsUnique(line, 0);
      TrimKeeps(line, 0);
    }
    if Trim(line) == PoolHeader {
      assert Trim(line)[0] == '#';
    }
  }

  function Kinds(lines: seq<string>): (ks: seq<Kind>)
    ensures |ks| == |lines|
    ensures forall i :: 0 <= i < |lines| ==> ks[i] == KindAt(lines, i)
  {
    seq(|lines|, i requires 0 <= i < |lines| => KindAt(lines, i))
  }

  /** A line inside the block of a completed task ending at `e`: nothing
      that moves the scan to another project or out of the pool, and any
      completed task among them ends its own block no later. */
  predicate Follower(k: Kind, e: nat) {
    k == PoolHead || k == Other || (k.DoneTask? && k.end <= e)
  }

  /** What the kinds of a document always satisfy (`KindsWellFormed`). */
  predicate WellFormed(ks: seq<Kind>) {
    forall i :: 0 <= i < |ks| && ks[i].DoneTask? ==>
      i < ks[i].end <= |ks| && forall j :: i < j < ks[i].end ==> Follower(ks[j], ks[i].end)
  }

  lemma {:induction false} KindsWellFormed(lines: seq<string>)
    ensures WellFormed(Kinds(lines))
  {
    var ks := Kinds(lines);
    forall i, j | 0 <= i < |ks| && ks[i].DoneTask? && i < j < ks[i].end
      ensures Follower(ks[j], ks[i].end)
    {
      FollowerOf(lines, i, j);
    }
  }

  lemma {:induction false} FollowerOf(lines: seq<string>, i: nat, j: nat)
    requires i < |lines| && i < j < Legacy.BlockEnd(lines, i)
    ensures Follower(KindAt(lines, j), Legacy.BlockEnd(lines, i))
  {
    var e := Legacy.BlockEnd(lines, i);
    var line := lines[j];
    assert !IsBlank(line) && !StartsWith(line, "###") && !IsSeparator(line) && FirstNonWs(line) > FirstNonWs(lines[i]);
    assert |line| >= 4 ==> line[..3] == line[..4][..3];
    if KindAt(lines, j).DoneTask? {
      var e2 := Legacy.BlockEnd(lines, j);
      if e < |lines| {
        assert Legacy.EndsBlock(lines[e], FirstNonWs(lines[j]));
        assert e2 <= e;
      }
    }
  }

  // --------------------------------------------------------- the region

  /** The first pool header at or after `k`, or `|ks|`. */
  function HeadFrom(ks: seq<Kind>, k: nat): (p: nat)
    requires k <= |ks|
    ensures k <= p <= |ks|
    ensures p < |ks| ==> ks[p] == PoolHead
    ensures forall j :: k <= j < p ==> ks[j] != PoolHead
    decreases |ks| - k
  {
    if k == |ks| || ks[k] == PoolHead then k else HeadFrom(ks, k + 1)
  }

  /** The first separator at or after `k`, or `|ks|`. */
  function ClosingFrom(ks: seq<Kind>, k: nat): (s: nat)
    requires k <= |ks|
    ensures k <= s <= |ks|
    ensures s < |ks| ==> ks[s] == Closing
    ensures forall j :: k <= j < s ==> ks[j] != Closing
    decreases |ks| - k
  {
    if k == |ks| || ks[k] == Closing then k else ClosingFrom(ks, k + 1)
  }

  function PoolOpen(ks: seq<Kind>): nat {
    HeadFrom(ks, 0)
  }

  /** Where the pool scan stops: the first separator after the first pool
      header, or the end. */
  function PoolClose(ks: seq<Kind>): (s: nat)
    ensures s <= |ks|
    ensures PoolOpen(ks) < |ks| ==> PoolOpen(ks) < s
  {
    var p := PoolOpen(ks);
    if p == |ks| then |ks| else ClosingFrom(ks, p + 1)
  }

  /** The scan's state at line `i` is the one its start leads to. */
  predicate ScanState(ks: seq<Kind>, i: nat, inPool: bool) {
    var p := PoolOpen(ks);
    i <= |ks| && (inPool ==> p < i <= PoolClose(ks)) && (!inPool ==> i <= p)
  }

  // ---------------------------------------------------------- collecting

  /** A completed task taken from the pool: its block `[at, end)` and the
      project it was under ("" before any project header). */
  datatype Taken = Taken(at: nat, end: nat, project: string)

  /** The first loop of the handler, as written: after taking a block it
      goes on with the next line, so a completed task inside the block is
      taken again. */
  function CollectAsWritten(ks: seq<Kind>, i: nat, inPool: bool, project: string): seq<Taken>
    requires i <= |ks|
    decreases |ks| - i
  {
    if i == |ks| then []
    else match ks[i]
      case PoolHead => CollectAsWritten(ks, i + 1, true, project)
      case Closing => if inPool then [] else CollectAsWritten(ks, i + 1, inPool, project)
      case ProjectHead(n) => CollectAsWritten(ks, i + 1, inPool, if inPool then n else project)
      case DoneTask(e) =>
        (if inPool then [Taken(i, e, project)] else []) + CollectAsWritten(ks, i + 1, inPool, project)
      case Other => CollectAsWritten(ks, i + 1, inPool, project)
  }

  /** The loop with the evident intent: a block once taken is skipped, so
      each line is taken at most once. */
  function Collect(ks: seq<Kind>, i: nat, inPool: bool, project: string): seq<Taken>
    requires WellFormed(ks) && i <= |ks|
    decreases |ks| - i
  {
    if i == |ks| then []
    else match ks[i]
      case PoolHead => Collect(ks, i + 1, true, project)
      case Closing => if inPool then [] else Collect(ks, i + 1, inPool, project)
      case ProjectHead(n) => Collect(ks, i + 1, inPool, if inPool then n else project)
      case DoneTask(e) =>
        if inPool then [Taken(i, e, project)] + Collect(ks, e, inPool, project)
        else Collect(ks, i + 1, inPool, project)
      case Other => Collect(ks, i + 1, inPool, project)
  }

  /** A block taken by either loop heads at a completed task of the pool
      and stays inside the pool. */
  predicate InPool(ks: seq<Kind>, t: Taken) {
    && PoolOpen(ks) < t.at < PoolClose(ks) && t.end <= PoolClose(ks)
    && ks[t.at] == DoneTask(t.end)
  }

  /** A block that starts inside the pool ends before its separator. */
  lemma {:induction false} EndsInPool(ks: seq<Kind>, i: nat)
    requires WellFormed(ks) && PoolOpen(ks) < i < PoolClose(ks) && ks[i].DoneTask?
    ensures ks[i].end <= PoolClose(ks)
  {
    var s := PoolClose(ks);
    assert s < |ks| ==> ks[s] == Closing;
  }

  lemma {:induction false} CollectAsWrittenInPool(ks: seq<Kind>, i: nat, inPool: bool, project: string, k: nat)
    requires WellFormed(ks) && ScanState(ks, i, inPool)
    requires k < |CollectAsWritten(ks, i, inPool, project)|
    ensures var t := CollectAsWritten(ks, i, inPool, project)[k];
      InPool(ks, t) && i <= t.at
    decreases |ks| - i
  {
    var p := PoolOpen(ks);
    var ts := CollectAsWritten(ks, i, inPool, project);
    match ks[i]
    case PoolHead =>
      assert p <= i;
      CollectAsWrittenInPool(ks, i + 1, true, project, k);
    case Closing =>
      if !inPool {
        CollectAsWrittenInPool(ks, i + 1, inPool, project, k);
      }
    case ProjectHead(n) =>
      CollectAsWrittenInPool(ks, i + 1, inPool, if inPool then n else project, k);
    case DoneTask(e) =>
      var rest := CollectAsWritten(ks, i + 1, inPool, project);
      if inPool {
        assert ts == [Taken(i, e, project)] + rest;
        if k == 0 {
          EndsInPool(ks, i);
        } else {
          CollectAsWrittenInPool(ks, i + 1, inPool, project, k - 1);
        }
      } else {
        assert ts == rest;
        CollectAsWrittenInPool(ks, i + 1, inPool, project, k);
      }
    case Other =>
      CollectAsWrittenInPool(ks, i + 1, inPool, project, k);
  }

  lemma {:induction false} CollectInPool(ks: seq<Kind>, i: nat, inPool: bool, project: string, k: nat)
    requires WellFormed(ks) && ScanState(ks, i, inPool)
    requires k < |Collect(ks, i, inPool, project)|
    ensures var t := Collect(ks, i, inPool, project)[k];
      InPool(ks, t) && i <= t.at
    decreases |ks| - i, 1
  {
    match ks[i]
    case PoolHead =>
      CollectInPool(ks, i + 1, true, project, k);
    case Closing =>
      if !inPool {
        CollectInPool(ks, i + 1, inPool, project, k);
      }
    case ProjectHead(n) =>
      CollectInPool(ks, i + 1, inPool, if inPool then n else project, k);
    case DoneTask(e) =>
      if inPool {
        CollectInPoolTaken(ks, i, project, k);
      } else {
        CollectInPool(ks, i + 1, inPool, project, k);
      }
    case Other =>
      CollectInPool(ks, i + 1, inPool, project, k);
  }

  /** `CollectInPool` at a completed task of the pool: the task's own block
      first, then those from the end of the block on. */
  lemma {:induction false} CollectInPoolTaken(ks: seq<Kind>, i: nat, project: string, k: nat)
    requires WellFormed(ks) && ScanState(ks, i, true) && i < |ks| && ks[i].DoneTask?
    requires k < |Collect(ks, i, true, project)|
    ensures var t := Collect(ks, i, true, project)[k];
      InPool(ks, t) && i <= t.at
    decreases |ks| - i, 0
  {
    var e := ks[i].end;
    EndsInPool(ks, i);
    var rest := Collect(ks, e, true, project);
    var ts := Collect(ks, i, true, project);
    assert ts == [Taken(i, e, project)] + rest;
    if k > 0 {
      CollectInPool(ks, e, true, project, k - 1);
      ConsAt(Taken(i, e, project), rest, ts, k - 1);
    }
  }

  /** Each block of the fixed loop ends before the next one starts. */
  lemma {:induction false} CollectOrdered(ks: seq<Kind>, i: nat, inPool: bool, project: string, k: nat)
    requires WellFormed(ks) && ScanState(ks, i, inPool)
    requires k + 1 < |Collect(ks, i, inPool, project)|
    ensures Collect(ks, i, inPool, project)[k].end <= Collect(ks, i, inPool, project)[k + 1].at
    decreases |ks| - i
  {
    var p := PoolOpen(ks);
    var ts := Collect(ks, i, inPool, project);
    match ks[i]
    case PoolHead =>
      assert p <= i;
      CollectOrdered(ks, i + 1, true, project, k);
    case Closing =>
      if !inPool {
        CollectOrdered(ks, i + 1, inPool, project, k);
      }
    case ProjectHead(n) =>
      CollectOrdered(ks, i + 1, inPool, if inPool then n else project, k);
    case DoneTask(e) =>
      if inPool {
        EndsInPool(ks, i);
        var rest := Collect(ks, e, inPool, project);
        assert ts == [Taken(i, e, project)] + rest;
        if k == 0 {
          CollectInPool(ks, e, inPool, project, 0);
        } else {
          CollectOrdered(ks, e, inPool, project, k - 1);
        }
      } else {
        CollectOrdered(ks, i + 1, inPool, project, k);
      }
    case Other =>
      CollectOrdered(ks, i + 1, inPool, project, k);
  }

  /** The fixed loop's blocks come in line order and never overlap. */
  lemma {:induction false} CollectDisjoint(ks: seq<Kind>, k: nat, l: nat)
    requires WellFormed(ks)
    requires k < l < |Collect(ks, 0, false, "")|
    ensures Collect(ks, 0, false, "")[k].end <= Collect(ks, 0, false, "")[l].at
    decreases l - k
  {
    var ts := Collect(ks, 0, false, "");
    CollectOrdered(ks, 0, false, "", l - 1);
    if k + 1 < l {
      CollectDisjoint(ks, k, l - 1);
      CollectInPool(ks, 0, false, "", l - 1);
    }
  }

  /** The loop as written takes a block at every completed task of the
      pool, whether or not an earlier block holds it. */
  lemma {:induction false} CollectAsWrittenComplete(ks: seq<Kind>, i: nat, inPool: bool, project: string, j: nat)
    returns (k: nat)
    requires WellFormed(ks) && ScanState(ks, i, inPool)
    requires i <= j && PoolOpen(ks) < j < PoolClose(ks) && ks[j].DoneTask?
    ensures k < |CollectAsWritten(ks, i, inPool, project)|
    ensures CollectAsWritten(ks, i, inPool, project)[k].at == j
    decreases |ks| - i
  {
    var p := PoolOpen(ks);
    var ts := CollectAsWritten(ks, i, inPool, project);
    if i == j {
      assert ts == [Taken(i, ks[i].end, project)] + CollectAsWritten(ks, i + 1, inPool, project);
      k := 0;
    } else {
      match ks[i]
      case PoolHead =>
        assert p <= i;
        k := CollectAsWrittenComplete(ks, i + 1, true, project, j);
      case Closing =>
        if !inPool {
          k := CollectAsWrittenComplete(ks, i + 1, inPool, project, j);
        }
      case ProjectHead(n) =>
        k := CollectAsWrittenComplete(ks, i + 1, inPool, if inPool then n else project, j);
      case DoneTask(e) =>
        var rest := CollectAsWritten(ks, i + 1, inPool, project);
        k := CollectAsWrittenComplete(ks, i + 1, inPool, project, j);
        if inPool {
          assert ts == [Taken(i, e, project)] + rest;
          k := k + 1;
        } else {
          assert ts == rest;
        }
      case Other =>
        k := CollectAsWrittenComplete(ks, i + 1, inPool, project, j);
    }
  }

  /** A completed task `j` inside the block of a completed task `i` of the
      pool is taken twice by the loop as written: inside block `k`, `i`'s,
      and as block `l` of its own. */
  lemma {:induction false} TakenTwice(ks: seq<Kind>, i: nat, j: nat) returns (k: nat, l: nat)
    requires WellFormed(ks) && PoolOpen(ks) < i < PoolClose(ks) && ks[i].DoneTask?
    requires i < j < ks[i].end && ks[j].DoneTask?
    ensures var ts := CollectAsWritten(ks, 0, false, "");
      && k < |ts| && l < |ts| && k != l
      && ts[k].at == i && ts[k].at <= j < ts[k].end && ts[l].at == j
  {
    EndsInPool(ks, i);
    k := CollectAsWrittenComplete(ks, 0, false, "", i);
    l := CollectAsWrittenComplete(ks, 0, false, "", j);
    CollectAsWrittenInPool(ks, 0, false, "", k);
  }

  /** Nothing is taken exactly when the pool holds no completed task. */
  lemma {:induction false} CollectAsWrittenEmpty(ks: seq<Kind>, i: nat, inPool: bool, project: string)
    requires WellFormed(ks) && ScanState(ks, i, inPool)
    ensures CollectAsWritten(ks, i, inPool, project) == [] <==>
      forall j :: i <= j && PoolOpen(ks) < j < PoolClose(ks) ==> !ks[j].DoneTask?
    decreases |ks| - i
  {
    var p := PoolOpen(ks);
    if i < |ks| {
      match ks[i]
      case PoolHead =>
        assert p <= i;
        CollectAsWrittenEmpty(ks, i + 1, true, project);
      case Closing =>
        if !inPool {
          assert i < p;
          CollectAsWrittenEmpty(ks, i + 1, inPool, project);
        }
      case ProjectHead(n) =>
        CollectAsWrittenEmpty(ks, i + 1, inPool, if inPool then n else project);
      case DoneTask(e) =>
        if !inPool {
          assert i < p;
        }
        CollectAsWrittenEmpty(ks, i + 1, inPool, project);
      case Other =>
        CollectAsWrittenEmpty(ks, i + 1, inPool, project);
    }
  }

  /** The same for the fixed loop: a completed task inside a block it
      skips lies after the block's head, which it did take. */
  lemma {:induction false} CollectEmpty(ks: seq<Kind>, i: nat, inPool: bool, project: string)
    requires WellFormed(ks) && ScanState(ks, i, inPool)
    ensures Collect(ks, i, inPool, project) == [] <==>
      forall j :: i <= j && PoolOpen(ks) < j < PoolClose(ks) ==> !ks[j].DoneTask?
    decreases |ks| - i
  {
    var p := PoolOpen(ks);
    if i < |ks| {
      match ks[i]
      case PoolHead =>
        assert p <= i;
        CollectEmpty(ks, i + 1, true, project);
      case Closing =>
        if !inPool {
          assert i < p;
          CollectEmpty(ks, i + 1, inPool, project);
        }
      case ProjectHead(n) =>
        CollectEmpty(ks, i + 1, inPool, if inPool then n else project);
      case DoneTask(e) =>
        if inPool {
          EndsInPool(ks, i);
        } else {
          assert i < p;
          CollectEmpty(ks, i + 1, inPool, project);
        }
      case Other =>
        CollectEmpty(ks, i + 1, inPool, project);
    }
  }

  // ------------------------------------------------------------ removing

  /** The indices `[a, b)`. */
  function Range(a: nat, b: nat): (r: set<nat>)
    ensures forall m :: m in r <==> a <= m < b
    decreases b - a
  {
    if b <= a then {} else {a} + Range(a + 1, b)
  }

  function Span(t: Taken): set<nat> {
    Range(t.at, t.end)
  }

  /** The line indices the taken blocks cover: what the handler's second
      loop puts in `linesToRemove`. */
  function Covered(ts: seq<Taken>): set<nat> {
    if |ts| == 0 then {} else Span(ts[0]) + Covered(ts[1..])
  }

  lemma {:induction false} CoveredAppend(a: seq<Taken>, b: seq<Taken>)
    ensures Covered(a + b) == Covered(a) + Covered(b)
  {
    if |a| > 0 {
      assert (a + b)[0] == a[0] && (a + b)[1..] == a[1..] + b;
      CoveredAppend(a[1..], b);
    } else {
      assert a + b == b;
    }
  }

  /** The blocks the fixed loop takes from `j` on and from `e` on cover
      the same lines once `[j, e)` is added. */
  predicate SkipsTo(ks: seq<Kind>, j: nat, e: nat, project: string)
    requires WellFormed(ks) && j <= e <= |ks|
  {
    Covered(Collect(ks, j, true, project)) + Range(j, e) == Covered(Collect(ks, e, true, project)) + Range(j, e)
  }

  /** Inside a block the fixed loop skips, the loop as written takes only
      lines of that block. */
  lemma {:induction false} SkipFollowers(ks: seq<Kind>, j: nat, e: nat, project: string)
    requires WellFormed(ks) && j <= e <= |ks|
    requires forall m :: j <= m < e ==> Follower(ks[m], e)
    ensures SkipsTo(ks, j, e, project)
    decreases e - j
  {
    if j < e {
      if ks[j].DoneTask? {
        SkipFollowers(ks, ks[j].end, e, project);
        SkipDone(ks, j, e, project);
      } else {
        SkipFollowers(ks, j + 1, e, project);
        SkipPlain(ks, j, e, project);
      }
    }
  }

  /** `SkipFollowers` at a header or a plain line, from the next line. */
  lemma {:induction false} SkipPlain(ks: seq<Kind>, j: nat, e: nat, project: string)
    requires WellFormed(ks) && j < e <= |ks| && (ks[j] == PoolHead || ks[j] == Other)
    requires SkipsTo(ks, j + 1, e, project)
    ensures SkipsTo(ks, j, e, project)
  {
    assert Collect(ks, j, true, project) == Collect(ks, j + 1, true, project);
    Absorb(Range(j, e), Covered(Collect(ks, j + 1, true, project)), Covered(Collect(ks, e, true, project)), Range(j + 1, e));
  }

  /** `SkipFollowers` at a completed task inside the block, from the end
      of its own block. */
  lemma {:induction false} SkipDone(ks: seq<Kind>, j: nat, e: nat, project: string)
    requires WellFormed(ks) && j < e <= |ks| && ks[j].DoneTask? && ks[j].end <= e
    requires SkipsTo(ks, ks[j].end, e, project)
    ensures SkipsTo(ks, j, e, project)
  {
    var e2 := ks[j].end;
    var t := Taken(j, e2, project);
    var rest := Collect(ks, e2, true, project);
    assert Covered(Collect(ks, j, true, project)) == Span(t) + Covered(rest) by {
      assert Collect(ks, j, true, project) == [t] + rest;
      CoveredCons(t, rest);
    }
    AbsorbBlock(Range(j, e), Span(t), Covered(rest), Covered(Collect(ks, e, true, project)), Range(e2, e));
  }

  lemma {:induction false} CoveredCons(t: Taken, rest: seq<Taken>)
    ensures Covered([t] + rest) == Span(t) + Covered(rest)
  {
    assert ([t] + rest)[0] == t && ([t] + rest)[1..] == rest;
  }

  /** Adding a block inside `s` to one side of sets that agree once `r`
      is added keeps them agreeing once `s` is added. */
  lemma {:induction false} AbsorbBlock(s: set<nat>, b: set<nat>, a: set<nat>, f: set<nat>, r: set<nat>)
    requires a + r == f + r && r <= s && b <= s
    ensures (b + a) + s == f + s
  {
    Absorb(s, a, f, r);
  }

  /** Sets that agree once `r` is added agree once any superset of `r`
      is added. */
  lemma {:induction false} Absorb(s: set<nat>, a: set<nat>, f: set<nat>, r: set<nat>)
    requires a + r == f + r && r <= s
    ensures s + a == s + f && a + s == f + s
  {
    forall m ensures m in s + a <==> m in s + f {
      assert m in a + r <==> m in f + r;
    }
  }

  /** The fix changes nothing about which lines are removed: both loops
      cover the same lines. */
  lemma {:induction false} CoveredSame(ks: seq<Kind>, i: nat, inPool: bool, project: string)
    requires WellFormed(ks) && i <= |ks|
    ensures Covered(CollectAsWritten(ks, i, inPool, project)) == Covered(Collect(ks, i, inPool, project))
    decreases |ks| - i
  {
    if i < |ks| {
      match ks[i]
      case PoolHead =>
        CoveredSame(ks, i + 1, true, project);
      case Closing =>
        if !inPool {
          CoveredSame(ks, i + 1, inPool, project);
        }
      case ProjectHead(n) =>
        CoveredSame(ks, i + 1, inPool, if inPool then n else project);
      case DoneTask(e) =>
        CoveredSame(ks, i + 1, inPool, project);
        if inPool {
          var t := Taken(i, e, project);
          var aw := CollectAsWritten(ks, i + 1, inPool, project);
          var fx := Collect(ks, e, inPool, project);
          assert CollectAsWritten(ks, i, inPool, project) == [t] + aw;
          assert Collect(ks, i, inPool, project) == [t] + fx;
          CoveredAppend([t], aw);
          CoveredAppend([t], fx);
          assert Covered([t]) == Span(t);
          SkipFollowers(ks, i + 1, e, project);
          assert Range(i + 1, e) <= Span(t);
          Absorb(Span(t), Covered(aw), Covered(fx), Range(i + 1, e));
        } else {
          assert CollectAsWritten(ks, i, inPool, project) == CollectAsWritten(ks, i + 1, inPool, project);
        }
      case Other =>
        CoveredSame(ks, i + 1, inPool, project);
    }
  }

  /** `lines.filter((_, i) => !linesToRemove.has(i))` */
  function Keep(lines: seq<string>, rm: set<nat>): (r: seq<string>)
    ensures |r| <= |lines|
  {
    if |lines| == 0 then []
    else Keep(lines[..|lines| - 1], rm) + (if |lines| - 1 in rm then [] else [lines[|lines| - 1]])
  }

  /** `r` starts with the first `a` lines and ends with the lines from
      `b` on. */
  predicate KeepsEnds(lines: seq<string>, r: seq<string>, a: nat, b: nat)
    requires a <= b <= |lines|
  {
    && a + (|lines| - b) <= |r|
    && r[..a] == lines[..a]
    && r[|r| - (|lines| - b)..] == lines[b..]
  }

  /** Removing only indices in `[a, b)` keeps the lines before `a` and
      from `b` on, in place and in order. */
  lemma {:induction false} KeepOutside(lines: seq<string>, rm: set<nat>, a: nat, b: nat)
    requires a <= b <= |lines|
    requires forall j :: j in rm && j < |lines| ==> a <= j < b
    ensures KeepsEnds(lines, Keep(lines, rm), a, b)
    decreases |lines|
  {
    var n := |lines|;
    if n > 0 {
      var init := lines[..n - 1];
      if b == n && a == n {
        KeepNone(init, rm);
        KeepLast(lines, rm);
      } else if b == n {
        KeepOutside(init, rm, a, n - 1);
        KeepOutsideAtEnd(lines, rm, a);
      } else {
        KeepOutside(init, rm, a, b);
        KeepOutsideBelow(lines, rm, a, b);
      }
    }
  }

  /** With nothing removed before the last line, and the last line kept,
      every line is kept. */
  lemma {:induction false} KeepLast(lines: seq<string>, rm: set<nat>)
    requires |lines| > 0 && |lines| - 1 !in rm && Keep(lines[..|lines| - 1], rm) == lines[..|lines| - 1]
    ensures KeepsEnds(lines, Keep(lines, rm), |lines|, |lines|)
  {
    assert lines == lines[..|lines| - 1] + [lines[|lines| - 1]];
    assert Keep(lines, rm) == lines;
  }

  /** `KeepOutside` for a range that reaches the last line, from the same
      fact for the lines before it. */
  lemma {:induction false} KeepOutsideAtEnd(lines: seq<string>, rm: set<nat>, a: nat)
    requires a < |lines| && KeepsEnds(lines[..|lines| - 1], Keep(lines[..|lines| - 1], rm), a, |lines| - 1)
    ensures KeepsEnds(lines, Keep(lines, rm), a, |lines|)
  {
    var init, x := lines[..|lines| - 1], lines[|lines| - 1];
    var tail := if |lines| - 1 in rm then [] else [x];
    assert Keep(lines, rm) == Keep(init, rm) + tail;
    assert lines == init + [x];
    PrefixKept(Keep(init, rm), init, tail, [x], a);
  }

  /** `KeepOutside` for a range that ends before the last line, from the
      same fact for the lines before it. */
  lemma {:induction false} KeepOutsideBelow(lines: seq<string>, rm: set<nat>, a: nat, b: nat)
    requires a <= b < |lines| && |lines| - 1 !in rm
    requires KeepsEnds(lines[..|lines| - 1], Keep(lines[..|lines| - 1], rm), a, b)
    ensures KeepsEnds(lines, Keep(lines, rm), a, b)
  {
    var init, x := lines[..|lines| - 1], lines[|lines| - 1];
    var k := Keep(init, rm);
    assert Keep(lines, rm) == k + [x];
    assert lines == init + [x];
    var m := |lines| - 1 - b;
    assert k[..a] == init[..a] && k[|k| - m..] == init[|init| - m..];
    SnocEnds(k, init, x, a, m);
  }

  /** Appending to two sequences keeps a common prefix. */
  lemma {:induction false} PrefixKept<T>(k: seq<T>, s: seq<T>, u: seq<T>, v: seq<T>, a: nat)
    requires a <= |k| && a <= |s| && k[..a] == s[..a]
    ensures (k + u)[..a] == (s + v)[..a]
  {
    assert (k + u)[..a] == k[..a];
    assert (s + v)[..a] == s[..a];
  }

  /** Appending the same element to two sequences keeps a common prefix
      and lengthens a common suffix by it. */
  lemma {:induction false} SnocEnds<T>(k: seq<T>, s: seq<T>, x: T, a: nat, m: nat)
    requires a + m <= |k| && a + m <= |s|
    requires k[..a] == s[..a] && k[|k| - m..] == s[|s| - m..]
    ensures (k + [x])[..a] == (s + [x])[..a]
    ensures (k + [x])[|k| - m..] == (s + [x])[|s| - m..]
  {
    PrefixKept(k, s, [x], [x], a);
    assert (k + [x])[|k| - m..] == k[|k| - m..] + [x];
    assert (s + [x])[|s| - m..] == s[|s| - m..] + [x];
  }

  lemma {:induction false} KeepNone(lines: seq<string>, rm: set<nat>)
    requires forall j :: j in rm && j < |lines| ==> false
    ensures Keep(lines, rm) == lines
    decreases |lines|
  {
    if |lines| > 0 {
      KeepNone(lines[..|lines| - 1], rm);
    }
  }

  // ------------------------------------------------------- archive lines

  /** The collected blocks as groups keyed by project. */
  function Contents(lines: seq<string>, ts: seq<Taken>): seq<Merge.Group> {
    if |ts| == 0 then []
    else
      var t := ts[0];
      var block := if t.at <= t.end <= |lines| then lines[t.at..t.end] else [];
      [Merge.Group(t.project, block)] + Contents(lines, ts[1..])
  }

  function Trimmed(ls: seq<string>): (r: seq<string>)
    ensures |r| == |ls| && forall i :: 0 <= i < |ls| ==> r[i] == Trim(ls[i])
  {
    seq(|ls|, i requires 0 <= i < |ls| => Trim(ls[i]))
  }

  function Nested(ls: seq<string>): (r: seq<string>)
    ensures |r| == |ls| && forall i :: 0 <= i < |ls| ==> r[i] == "    " + Trim(ls[i])
  {
    seq(|ls|, i requires 0 <= i < |ls| => "    " + Trim(ls[i]))
  }

  /** Step 9: a project's lines under a `- [x] name` line, each trimmed
      and indented four spaces; the lines without a project trimmed and
      unindented. */
  function GroupLines(g: Merge.Group): (r: seq<string>)
    ensures g.name != "" ==> |r| == |g.lines| + 1 && r[0] == "- [x] " + g.name && r[1..] == Nested(g.lines)
    ensures g.name == "" ==> r == Trimmed(g.lines)
  {
    if g.name != "" then ["- [x] " + g.name] + Nested(g.lines) else Trimmed(g.lines)
  }

  function TaskLines(gs: seq<Merge.Group>): seq<string> {
    if |gs| == 0 then [] else GroupLines(gs[0]) + TaskLines(gs[1..])
  }

  // ---------------------------------------------------- the current week

  /** The lines after step 6, the index it takes for the current header,
      and the current week's title: the week of `monday`, block dates read
      in `year`. */
  function Resolve(lines: seq<string>, monday: int, year: int, c: Weeks.TitleCodec): (t: Weeks.Target)
    ensures t.title == Some(c.write(monday))
  {
    ResolveIn(lines, Weeks.WeekBlocks(lines, 0, year, c), monday, c)
  }

  /** Step 6 given the blocks `bs` the document holds: with none, open
      the current week; with one titled for it, use the first such;
      otherwise fill the gap after the first block. */
  function ResolveIn(lines: seq<string>, bs: seq<Weeks.WeekBlock>, monday: int, c: Weeks.TitleCodec): (t: Weeks.Target)
    ensures t.title == Some(c.write(monday))
  {
    var title := c.write(monday);
    var p := Weeks.InsertPosition(lines);
    if |bs| == 0 then Weeks.Target(Insert(lines, p, Weeks.NewWeekBlock(title)), p + 3, Some(title))
    else match FindTitled(bs, title)
      case Some(k) => Weeks.Target(lines, bs[k].lineIndex, Some(title))
      case None =>
        var g := Weeks.GapTarget(lines, bs[0].startDate + 6, monday, c);
        Weeks.Target(g.lines, g.index, Some(title))
  }

  /** `weekBlocks.find(w => w.title === currentWeekTitle)`, as an index. */
  function FindTitled(bs: seq<Weeks.WeekBlock>, title: string): (k: Option<nat>)
    ensures k.None? <==> forall i :: 0 <= i < |bs| ==> bs[i].title != title
    ensures k.Some? ==> k.value < |bs| && bs[k.value].title == title
    ensures k.Some? ==> forall i :: 0 <= i < k.value ==> bs[i].title != title
  {
    if |bs| == 0 then None
    else if bs[0].title == title then Some(0)
    else match FindTitled(bs[1..], title)
      case None => None
      case Some(k) => Some(k + 1)
  }

  /** With no block, a new block for the current week goes right after
      the first separator and its header is the current index. */
  lemma {:induction false} ResolveFresh(lines: seq<string>, monday: int, c: Weeks.TitleCodec)
    ensures var p := Weeks.InsertPosition(lines);
      var t := ResolveIn(lines, [], monday, c);
      && |t.lines| == |lines| + 5 && t.index == p + 3
      && t.lines[..p] == lines[..p] && t.lines[p + 5..] == lines[p..]
      && t.lines[p + 1] == Separator && t.lines[p + 3] == "## " + c.write(monday)
  {
    var p := Weeks.InsertPosition(lines);
    var b := Weeks.NewWeekBlock(c.write(monday));
    var r := Insert(lines, p, b);
    assert r[p + 1] == r[p..p + 5][1] && r[p + 3] == r[p..p + 5][3];
  }

  /** A block already titled for the current week is used as it is: no
      line changes, and the index is the first such block's header. */
  lemma {:induction false} ResolveFound(lines: seq<string>, bs: seq<Weeks.WeekBlock>, monday: int, c: Weeks.TitleCodec)
    requires FindTitled(bs, c.write(monday)).Some?
    ensures var k := FindTitled(bs, c.write(monday)).value;
      var t := ResolveIn(lines, bs, monday, c);
      && t.lines == lines && t.index == bs[k].lineIndex && bs[k].title == c.write(monday)
      && forall i :: 0 <= i < k ==> bs[i].title != c.write(monday)
  {
  }

  /** Without a block titled for the current week, the document is the one
      the gap fill after the first block builds. */
  lemma {:induction false} ResolveGap(lines: seq<string>, bs: seq<Weeks.WeekBlock>, monday: int, c: Weeks.TitleCodec)
    requires |bs| > 0 && FindTitled(bs, c.write(monday)).None?
    ensures ResolveIn(lines, bs, monday, c).lines == Weeks.GapTarget(lines, bs[0].startDate + 6, monday, c).lines
  {
  }

  /** When the first block starts on a Monday before the current one, the
      newest week the gap fill creates is the current week. */
  lemma {:induction false} GapReachesMonday(latest: int, monday: int)
    requires WeekDay(latest) == 1 && WeekDay(monday) == 1 && latest < monday
    ensures var g := Weeks.GapStarts(latest + 7, monday);
      |g| > 0 && g[|g| - 1] == monday
  {
    var d := (monday - latest) / 7;
    assert monday - latest == 7 * d by {
      assert (monday + 1) % 7 == (latest + 1) % 7;
    }
    var g := Weeks.GapStarts(latest + 7, monday);
    assert |g| > 0;
    var n := |g|;
    assert g[n - 1] == latest + 7 * n;
    assert latest + 7 * n <= monday < latest + 7 * n + 7;
    assert n == d;
  }

  // ------------------------------------------------------------- handler

  function Codec(): Weeks.TitleCodec {
    Weeks.TitleCodec(MatchTitle, WeekTitle)
  }

  /** `completedTasks`: the blocks the handler's first loop takes. */
  function TakenBlocks(lines: seq<string>): seq<Taken> {
    KindsWellFormed(lines);
    CollectAsWritten(Kinds(lines), 0, false, "")
  }

  /** The blocks taken with each line taken once. */
  function TakenBlocksFixed(lines: seq<string>): seq<Taken> {
    KindsWellFormed(lines);
    Collect(Kinds(lines), 0, false, "")
  }

  /** `linesToRemove`: the handler's second loop. */
  function Removed(lines: seq<string>): set<nat> {
    Covered(CollectAsWritten(Kinds(lines), 0, false, ""))
  }

  /** The document without the removed lines. */
  function Kept(lines: seq<string>): seq<string> {
    Keep(lines, Removed(lines))
  }

  /** The block the settlement writes into, after the removal and step 6:
      its lines, header and end (the next separator or `## ` line). */
  function CurrentWeek(lines: seq<string>, today: int): (w: Weeks.Week)
    ensures var t := Resolve(Kept(lines), GetMonday(today), YearOf(today), Codec());
      && w.lines == t.lines && w.header == Weeks.Relocate(t) && w.title == t.title
      && w.end <= |w.lines| && (w.header < |w.lines| ==> w.header < w.end)
      && (forall j :: w.header < j < w.end ==> !Legacy.EndsWeek(w.lines[j]))
      && (w.end < |w.lines| ==> Legacy.EndsWeek(w.lines[w.end]))
  {
    var t := Resolve(Kept(lines), GetMonday(today), YearOf(today), Codec());
    var h := Weeks.Relocate(t);
    Weeks.Week(t.lines, h, Legacy.WeekInsertPoint(t.lines, h), t.title)
  }

  /** What the settlement writes: the collected lines grouped by project,
      then a blank line. */
  function Archive(lines: seq<string>, ts: seq<Taken>): seq<string> {
    TaskLines(Merge.GroupBy(Contents(lines, ts))) + [""]
  }

  /** Some taken block belongs to a project named by one of `keys`. */
  predicate TakenUnder(ts: seq<Taken>, keys: set<string>) {
    exists k :: 0 <= k < |ts| && ts[k].project in keys
  }

  /** The refusal when nothing is taken, the grouping under `keys`, the
      names the grouping object already holds, then the archive put at the
      end of the current week. */
  function Conclude(lines: seq<string>, today: int, ts: seq<Taken>, keys: set<string>): (r: Result<seq<string>>)
    ensures r == Err(NothingToSettle) <==> ts == []
    ensures r == Err(InheritedName) <==> ts != [] && TakenUnder(ts, keys)
    ensures r.Err? ==> r.error in {NothingToSettle, InheritedName}
    ensures r.Ok? ==> var w := CurrentWeek(lines, today); var a := Archive(lines, ts);
      && |r.value| == |w.lines| + |a|
      && r.value[..w.end] == w.lines[..w.end]
      && r.value[w.end..w.end + |a|] == a
      && r.value[w.end + |a|..] == w.lines[w.end..]
  {
    if ts == [] then Err(NothingToSettle)
    else if TakenUnder(ts, keys) then Err(InheritedName)
    else
      var w := CurrentWeek(lines, today);
      Ok(Insert(w.lines, w.end, Archive(lines, ts)))
  }

  /** POST /api/todo/week-settle of the first server on a document's
      lines, on the day with ordinal `today`, as written: a completed task
      nested in a taken block is taken again, and a project named after a
      key every plain object inherits makes the grouping throw. */
  function Settle(lines: seq<string>, today: int): (r: Result<seq<string>>)
    ensures r == Err(NothingToSettle) <==> TakenBlocks(lines) == []
    ensures r == Err(InheritedName) <==> TakenBlocks(lines) != [] && TakenUnder(TakenBlocks(lines), Merge.InheritedKeys)
    ensures r.Err? ==> r.error in {NothingToSettle, InheritedName}
    ensures r.Ok? ==> var w := CurrentWeek(lines, today); var a := Archive(lines, TakenBlocks(lines));
      && |r.value| == |w.lines| + |a|
      && r.value[..w.end] == w.lines[..w.end]
      && r.value[w.end..w.end + |a|] == a
      && r.value[w.end + |a|..] == w.lines[w.end..]
  {
    Conclude(lines, today, TakenBlocks(lines), Merge.InheritedKeys)
  }

  /** The settlement with every line taken once and the grouping kept
      apart from inherited keys. */
  function SettleFixed(lines: seq<string>, today: int): (r: Result<seq<string>>)
    ensures r.Err? <==> TakenBlocksFixed(lines) == []
    ensures r.Err? ==> r.error == NothingToSettle
    ensures r.Ok? ==> var w := CurrentWeek(lines, today); var a := Archive(lines, TakenBlocksFixed(lines));
      && |r.value| == |w.lines| + |a|
      && r.value[..w.end] == w.lines[..w.end]
      && r.value[w.end..w.end + |a|] == a
      && r.value[w.end + |a|..] == w.lines[w.end..]
  {
    Conclude(lines, today, TakenBlocksFixed(lines), {})
  }

  /** A completed task taken under a project named after an inherited key
      makes the settlement as written fail, where the corrected one goes
      through. */
  lemma {:induction false} InheritedNameFails(lines: seq<string>, today: int, k: nat)
    requires k < |TakenBlocks(lines)| && TakenBlocks(lines)[k].project in Merge.InheritedKeys
    ensures Settle(lines, today) == Err(InheritedName)
    ensures SettleFixed(lines, today).Ok?
  {
    NothingToSettleIff(lines, today);
  }

  // -------------------------------------------------- about the document

  /** The pool scan's region in terms of the lines: `p` is the first
      line that trims to the pool header (or the end), `s` the first
      separator after it (or the end). */
  lemma {:induction false} Region(lines: seq<string>)
    ensures var ks := Kinds(lines);
      var p := PoolOpen(ks);
      var s := PoolClose(ks);
      && p <= s <= |lines|
      && (p < |lines| ==> p < s && Trim(lines[p]) == PoolHeader)
      && (forall j :: 0 <= j < p ==> Trim(lines[j]) != PoolHeader)
      && (forall j :: p < j < s ==> !IsSeparator(lines[j]))
      && (s < |lines| ==> IsSeparator(lines[s]))
  {
    var ks := Kinds(lines);
    var p := PoolOpen(ks);
    var s := PoolClose(ks);
    forall j | 0 <= j < p ensures Trim(lines[j]) != PoolHeader {
      assert ks[j] == KindAt(lines, j) != PoolHead;
    }
    forall j | p < j < s ensures !IsSeparator(lines[j]) {
      assert ks[j] == KindAt(lines, j) != Closing;
    }
    if s < |lines| {
      assert ks[s] == KindAt(lines, s) == Closing;
    }
    if p < |lines| {
      assert ks[p] == KindAt(lines, p) == PoolHead;
    }
  }

  /** Every removed line lies strictly between the first pool header and
      the first separator after it (see `Region`), and belongs to the
      block of a completed task `h` there: it is `h` itself or a deeper,
      non-blank line below it. */
  lemma {:induction false} RemovedInPool(lines: seq<string>, m: nat) returns (h: nat)
    requires m in Removed(lines)
    ensures var ks := Kinds(lines);
      && PoolOpen(ks) < h <= m < PoolClose(ks) && m < Legacy.BlockEnd(lines, h)
      && IsDoneTask(lines[h])
      && (m == h || (!IsBlank(lines[m]) && FirstNonWs(lines[m]) > FirstNonWs(lines[h])))
  {
    var ks := Kinds(lines);
    KindsWellFormed(lines);
    var ts := CollectAsWritten(ks, 0, false, "");
    var k := CoveredHas(ts, m);
    CollectAsWrittenInPool(ks, 0, false, "", k);
    h := ts[k].at;
    assert ks[h] == DoneTask(ts[k].end);
  }

  /** With the fix, every removed line is archived exactly once: it lies
      in one taken block and in no other. */
  lemma {:induction false} ArchivedOnce(lines: seq<string>, m: nat) returns (k: nat)
    requires m in Removed(lines)
    ensures var ts := TakenBlocksFixed(lines);
      && k < |ts| && ts[k].at <= m < ts[k].end
      && forall l :: 0 <= l < |ts| && l != k ==> !(ts[l].at <= m < ts[l].end)
  {
    var ks := Kinds(lines);
    KindsWellFormed(lines);
    CoveredSame(ks, 0, false, "");
    var ts := TakenBlocksFixed(lines);
    k := CoveredHas(ts, m);
    forall l | 0 <= l < |ts| && l != k
      ensures !(ts[l].at <= m < ts[l].end)
    {
      if l < k {
        CollectDisjoint(ks, l, k);
      } else {
        CollectDisjoint(ks, k, l);
      }
    }
  }

  /** As written, a completed task `j` nested in the block of a completed
      task `i` of the pool is collected twice: in `i`'s block `k` and in a
      block `l` of its own, so its lines reach the archive twice. */
  lemma {:induction false} ArchivedTwiceAsWritten(lines: seq<string>, i: nat, j: nat) returns (k: nat, l: nat)
    requires PoolOpen(Kinds(lines)) < i < PoolClose(Kinds(lines))
    requires IsDoneTask(lines[i]) && i < j < Legacy.BlockEnd(lines, i) && IsDoneTask(lines[j])
    ensures var ts := CollectAsWritten(Kinds(lines), 0, false, "");
      && k < |ts| && l < |ts| && k != l
      && ts[k].at == i && ts[k].at <= j < ts[k].end && ts[l].at == j
  {
    var ks := Kinds(lines);
    KindsWellFormed(lines);
    assert ks[i] == KindAt(lines, i) && ks[j] == KindAt(lines, j);
    k, l := TakenTwice(ks, i, j);
  }

  lemma {:induction false} CoveredHas(ts: seq<Taken>, m: nat) returns (k: nat)
    requires m in Covered(ts)
    ensures k < |ts| && ts[k].at <= m < ts[k].end
  {
    if m in Span(ts[0]) {
      k := 0;
    } else {
      k := CoveredHas(ts[1..], m);
      k := k + 1;
    }
  }

  /** The settlement finds nothing to settle exactly when the pool holds
      no completed task, as written and corrected alike. */
  lemma {:induction false} NothingToSettleIff(lines: seq<string>, today: int)
    ensures var ks := Kinds(lines);
      Settle(lines, today) == Err(NothingToSettle) <==> forall j :: PoolOpen(ks) < j < PoolClose(ks) ==> !IsDoneTask(lines[j])
    ensures Settle(lines, today) == Err(NothingToSettle) <==> SettleFixed(lines, today).Err?
  {
    var ks := Kinds(lines);
    KindsWellFormed(lines);
    CollectAsWrittenEmpty(ks, 0, false, "");
    CollectEmpty(ks, 0, false, "");
    forall j | PoolOpen(ks) < j < PoolClose(ks) ensures ks[j].DoneTask? <==> IsDoneTask(lines[j]) {
      assert ks[j] == KindAt(lines, j);
    }
  }

  /** Removing leaves the lines up to the pool header and from its closing
      separator on as they were. */
  lemma {:induction false} KeptOutsidePool(lines: seq<string>)
    ensures var ks := Kinds(lines);
      var p := PoolOpen(ks);
      var s := PoolClose(ks);
      var r := Kept(lines);
      var a := if p < |lines| then p + 1 else |lines|;
      && a + (|lines| - s) <= |r|
      && r[..a] == lines[..a] && r[|r| - (|lines| - s)..] == lines[s..]
  {
    var ks := Kinds(lines);
    var p := PoolOpen(ks);
    var s := PoolClose(ks);
    var a := if p < |lines| then p + 1 else |lines|;
    forall m | m in Removed(lines) && m < |lines| ensures a <= m < s {
      var h := RemovedInPool(lines, m);
    }
    KeepOutside(lines, Removed(lines), a, s);
  }
}
