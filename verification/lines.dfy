/** The document as a sequence of lines, and the few `Array` operations the
    engine applies to it: `splice` (insert and remove), `slice` with a
    possibly negative start, and the `split('\n')` / `join('\n')` boundary
    between the file text and the line array. */
module Lines {
  import opened Text


  /** `lines.splice(i, 0, ...xs)` for an index already in range. */
  function Insert<T>(s: seq<T>, i: nat, xs: seq<T>): (r: seq<T>)
    requires i <= |s|
    ensures |r| == |s| + |xs|
    ensures r[..i] == s[..i] && r[i..i + |xs|] == xs && r[i + |xs|..] == s[i..]
  {
    s[..i] + xs + s[i..]
  }

  /** Inserting loses nothing: every element is still there afterwards. */
  lemma {:induction false} InsertKeeps<T>(s: seq<T>, i: nat, xs: seq<T>, x: T)
    requires i <= |s| && x in s
    ensures x in Insert(s, i, xs)
  {
    var k :| 0 <= k < |s| && s[k] == x;
    var r := Insert(s, i, xs);
    if k < i {
      assert r[..i][k] == x;
    } else {
      assert r[i + |xs|..][k - i] == x;
    }
  }

  /** The elements after the head of `[x] + rest` are those of `rest`,
      one place on. */
  lemma {:induction false} ConsAt<T>(x: T, rest: seq<T>, s: seq<T>, k: nat)
    requires s == [x] + rest && k < |rest|
    ensures k + 1 < |s| && s[k + 1] == rest[k]
  {
  }

  /** The elements after a prefix `h` of `h + rest` are those of `rest`,
      `|h|` places on. */
  lemma {:induction false} AppendAt<T>(h: seq<T>, rest: seq<T>, s: seq<T>, k: nat)
    requires s == h + rest && k < |rest|
    ensures |h| + k < |s| && s[|h| + k] == rest[k]
  {
  }

  /** Where an inserted element lands. */
  lemma {:induction false} InsertAt<T>(s: seq<T>, i: nat, xs: seq<T>, j: nat)
    requires i <= |s| && j < |xs|
    ensures Insert(s, i, xs)[i + j] == xs[j]
  {
    assert Insert(s, i, xs)[i..i + |xs|][j] == xs[j];
  }

  /** Inserting adds exactly the inserted elements. */
  lemma {:induction false} InsertPermutes<T>(s: seq<T>, i: nat, xs: seq<T>)
    requires i <= |s|
    ensures multiset(Insert(s, i, xs)) == multiset(s) + multiset(xs)
  {
    assert s == s[..i] + s[i..];
  }

  /** `lines.splice(i, n)` for a range already inside the sequence. */
  function Remove<T>(s: seq<T>, i: nat, n: nat): (r: seq<T>)
    requires i + n <= |s|
    ensures |r| == |s| - n
    ensures r[..i] == s[..i] && r[i..] == s[i + n..]
  {
    s[..i] + s[i + n..]
  }

  /** `array.reverse()` */
  function Reverse<T>(s: seq<T>): (r: seq<T>)
    ensures |r| == |s| && forall i :: 0 <= i < |s| ==> r[i] == s[|s| - 1 - i]
  {
    if |s| == 0 then [] else Reverse(s[1..]) + [s[0]]
  }

  /** Removing takes away exactly the removed elements. */
  lemma {:induction false} RemovePermutes<T>(s: seq<T>, i: nat, n: nat)
    requires i + n <= |s|
    ensures multiset(Remove(s, i, n)) + multiset(s[i..i + n]) == multiset(s)
  {
    assert s == s[..i] + s[i..i + n] + s[i + n..];
  }

  /** Where `splice(start, ...)` actually starts on an array of length `len`:
      a negative start counts back from the end and is clamped to 0, a start
      past the end is clamped to the end. */
  function SpliceStart(start: int, len: nat): (p: nat)
    ensures p <= len
    ensures 0 <= start <= len ==> p == start
    ensures start > len ==> p == len
    ensures start < 0 ==> p == if len + start < 0 then 0 else len + start
  {
    if start < 0 then (if len + start < 0 then 0 else len + start)
    else if start > len then len
    else start
  }

  /** `s.slice(k)`, including the negative-start form. */
  function SliceFrom<T>(s: seq<T>, k: int): (r: seq<T>)
    ensures 0 <= k <= |s| ==> r == s[k..]
    ensures k < 0 && |s| + k >= 0 ==> r == s[|s| + k..]
    ensures k > |s| ==> r == []
  {
    s[SpliceStart(k, |s|)..]
  }

  /** Cut `s[from..e]` out and splice it back in where `to` pointed before
      the cut: a destination after the block is shifted down by the block's
      length, and the resulting start is taken the way `splice` takes it. */
  function MoveBlock<T>(s: seq<T>, from: nat, e: nat, to: int): (r: seq<T>)
    requires from <= e <= |s|
    ensures |r| == |s|
  {
    var rest := Remove(s, from, e - from);
    var target := if to > from then to - (e - from) else to;
    Insert(rest, SpliceStart(target, |rest|), s[from..e])
  }

  /** Moving a block only rearranges the elements. */
  lemma {:induction false} MoveBlockPermutes<T>(s: seq<T>, from: nat, e: nat, to: int)
    requires from <= e <= |s|
    ensures multiset(MoveBlock(s, from, e, to)) == multiset(s)
  {
    var rest := Remove(s, from, e - from);
    var target := if to > from then to - (e - from) else to;
    RemovePermutes(s, from, e - from);
    InsertPermutes(rest, SpliceStart(target, |rest|), s[from..e]);
  }

  /** Where a block `s[from..e]` moved towards `to` lands in `r`: when the
      destination lies before it, the block takes the destination's place
      and pushes the elements between down, in their old order; when the
      destination lies after it, the block ends right before the
      destination element and the elements it passes move up, in their
      old order; elements outside the
      affected range stay put; a move onto itself changes nothing; a
      destination strictly inside the block gives the start `to - n`
      before the block, counted back from the end of the shortened
      sequence when negative, and the block lands there whole with the
      other elements in their old order around it. */
  ghost predicate Placed<T>(s: seq<T>, from: nat, e: nat, to: nat, r: seq<T>)
    requires from <= e <= |s| && to < |s| && |r| == |s|
  {
    var n := e - from;
    && (to < from ==>
          r[..to] == s[..to] && r[to..to + n] == s[from..e] && r[to + n..e] == s[to..from] && r[e..] == s[e..])
    && (to >= e ==>
          r[..from] == s[..from] && r[from..to - n] == s[e..to] && r[to - n..to] == s[from..e] && r[to..] == s[to..])
    && (from < to < e ==>
          var k := if to >= n then to - n else if |s| + to >= 2 * n then |s| + to - 2 * n else 0;
          r[k..k + n] == s[from..e] && r[..k] + r[k + n..] == s[..from] + s[e..])
    && (to == from ==> r == s)
  }

  /** `MoveBlock` places the block as described. */
  lemma {:induction false} MoveBlockPlacement<T>(s: seq<T>, from: nat, e: nat, to: int)
    requires from <= e <= |s| && 0 <= to < |s|
    ensures Placed(s, from, e, to, MoveBlock(s, from, e, to))
  {
    if to < from {
      MoveBlockUp(s, from, e, to);
    } else if to >= e {
      MoveBlockDown(s, from, e, to);
    } else if to == from {
      var rest := Remove(s, from, e - from);
      assert MoveBlock(s, from, e, to) == s[..from] + s[from..e] + rest[from..];
      assert s == s[..from] + s[from..e] + s[e..];
    } else {
      MoveBlockInside(s, from, e, to);
    }
  }

  lemma {:induction false} MoveBlockInside<T>(s: seq<T>, from: nat, e: nat, to: nat)
    requires from < to < e <= |s|
    ensures var n := e - from;
      var r := MoveBlock(s, from, e, to);
      var k := if to >= n then to - n else if |s| + to >= 2 * n then |s| + to - 2 * n else 0;
      r[k..k + n] == s[from..e] && r[..k] + r[k + n..] == s[..from] + s[e..]
  {
    var n := e - from;
    var rest := Remove(s, from, n);
    var k := SpliceStart(to - n, |rest|);
    assert k == if to >= n then to - n else if |s| + to >= 2 * n then |s| + to - 2 * n else 0;
    assert rest == s[..from] + s[e..];
    InsertAround(rest, k, s[from..e]);
  }

  /** Inserting and cutting the inserted part out again gives back `s`. */
  lemma {:induction false} InsertAround<T>(s: seq<T>, i: nat, xs: seq<T>)
    requires i <= |s|
    ensures var r := Insert(s, i, xs);
      r[i..i + |xs|] == xs && r[..i] + r[i + |xs|..] == s
  {
    assert s[..i] + s[i..] == s;
  }

  lemma {:induction false} MoveBlockUp<T>(s: seq<T>, from: nat, e: nat, to: nat)
    requires from <= e <= |s| && to < from
    ensures var n := e - from;
      var r := MoveBlock(s, from, e, to);
      r[..to] == s[..to] && r[to..to + n] == s[from..e] && r[to + n..e] == s[to..from] && r[e..] == s[e..]
  {
    var rest := Remove(s, from, e - from);
    var r := MoveBlock(s, from, e, to);
    assert r == rest[..to] + s[from..e] + rest[to..];
    assert rest[to..] == s[to..from] + s[e..];
  }

  lemma {:induction false} MoveBlockDown<T>(s: seq<T>, from: nat, e: nat, to: nat)
    requires from <= e <= to < |s|
    ensures var n := e - from;
      var r := MoveBlock(s, from, e, to);
      r[..from] == s[..from] && r[from..to - n] == s[e..to] && r[to - n..to] == s[from..e] && r[to..] == s[to..]
  {
    var n := e - from;
    var rest := Remove(s, from, n);
    var r := MoveBlock(s, from, e, to);
    assert SpliceStart(to - n, |rest|) == to - n;
    assert r == rest[..to - n] + s[from..e] + rest[to - n..];
    assert rest[..to - n] == s[..from] + s[e..to];
    assert rest[to - n..] == s[to..];
  }

  /** Position of the first occurrence of `c`, or `|s|` when there is none. */
  function FirstIndexOf(s: string, c: char): (k: nat)
    ensures k <= |s|
    ensures k < |s| ==> s[k] == c
    ensures forall j :: 0 <= j < k ==> s[j] != c
  {
    if |s| == 0 || s[0] == c then 0 else 1 + FirstIndexOf(s[1..], c)
  }

  /** `content.split('\n')`: never empty, no piece contains a newline. */
  function Split(s: string): (r: seq<string>)
    ensures |r| >= 1
    ensures forall i :: 0 <= i < |r| ==> '\n' !in r[i]
    decreases |s|
  {
    var k := FirstIndexOf(s, '\n');
    if k == |s| then [s] else [s[..k]] + Split(s[k + 1..])
  }

  /** `lines.join('\n')` */
  function Join(ls: seq<string>): string
  {
    if |ls| == 0 then ""
    else if |ls| == 1 then ls[0]
    else ls[0] + "\n" + Join(ls[1..])
  }

  /** Writing the split lines back reproduces the file text. */
  lemma {:induction false} JoinSplit(s: string)
    ensures Join(Split(s)) == s
    decreases |s|
  {
    var k := FirstIndexOf(s, '\n');
    if k < |s| {
      var head, tail := s[..k], s[k + 1..];
      var rest := Split(tail);
      assert Split(s) == [head] + rest;
      JoinCons(head, rest);
      JoinSplit(tail);
      CutAt(s, k);
    }
  }

  /** Joining a line in front of at least one more puts a newline between
      it and the join of the others. */
  lemma {:induction false} JoinCons(x: string, rest: seq<string>)
    requires |rest| >= 1
    ensures Join([x] + rest) == x + "\n" + Join(rest)
  {
    assert ([x] + rest)[0] == x && ([x] + rest)[1..] == rest;
  }

  /** A string is what comes before position `k`, the character there, and
      what follows it. */
  lemma {:induction false} CutAt(s: string, k: nat)
    requires k < |s|
    ensures s == s[..k] + [s[k]] + s[k + 1..]
  {
  }

  /** Splitting joined lines gives the lines back, provided none of them
      contains a newline. */
  lemma {:induction false} SplitJoin(ls: seq<string>)
    requires |ls| >= 1
    requires forall i :: 0 <= i < |ls| ==> '\n' !in ls[i]
    ensures Split(Join(ls)) == ls
    decreases |ls|
  {
    if |ls| == 1 {
      assert FirstIndexOf(ls[0], '\n') == |ls[0]|;
    } else {
      var head, tail := ls[0], ls[1..];
      var rest := Join(tail);
      JoinCons(head, tail);
      assert ls == [head] + tail;
      SplitCons(head, rest);
      SplitJoin(tail);
    }
  }

  /** Splitting a newline-free line, a newline and more text gives that
      line and then the pieces of the rest. */
  lemma {:induction false} SplitCons(a: string, b: string)
    requires '\n' !in a
    ensures Split(a + "\n" + b) == [a] + Split(b)
  {
    var s := a + "\n" + b;
    FirstNewlineAfter(a, b);
    assert s[..|a|] == a;
    assert s[|a| + 1..] == b;
  }

  lemma {:induction false} FirstNewlineAfter(a: string, b: string)
    requires '\n' !in a
    ensures FirstIndexOf(a + "\n" + b, '\n') == |a|
  {
    var s := a + "\n" + b;
    assert s[|a|] == '\n';
    assert forall j :: 0 <= j < |a| ==> s[j] == a[j];
  }

  /** Joining two non-empty runs of lines puts one newline between their
      joins. */
  lemma {:induction false} JoinAppend(xs: seq<string>, ys: seq<string>)
    requires |xs| >= 1 && |ys| >= 1
    ensures Join(xs + ys) == Join(xs) + "\n" + Join(ys)
    decreases |xs|
  {
    if |xs| == 1 {
      JoinCons(xs[0], ys);
      assert xs + ys == [xs[0]] + ys;
    } else {
      var tail := xs[1..];
      assert xs + ys == [xs[0]] + (tail + ys);
      JoinCons(xs[0], tail + ys);
      JoinAppend(tail, ys);
      JoinCons(xs[0], tail);
      assert xs == [xs[0]] + tail;
    }
  }

  /** Splitting at a newline splits both sides independently: the text
      before it and the text after it give their own pieces. */
  lemma {:induction false} SplitAppend(a: string, b: string)
    ensures Split(a + "\n" + b) == Split(a) + Split(b)
    decreases |a|
  {
    var k := FirstIndexOf(a, '\n');
    if k == |a| {
      SplitOneAppend(a, b);
    } else {
      SplitAppend(a[k + 1..], b);
      SplitAppendStep(a, k, b);
    }
  }

  lemma {:induction false} SplitAppendStep(a: string, k: nat, b: string)
    requires k == FirstIndexOf(a, '\n') && k < |a|
    requires Split(a[k + 1..] + "\n" + b) == Split(a[k + 1..]) + Split(b)
    ensures Split(a + "\n" + b) == Split(a) + Split(b)
  {
    var head, tail := a[..k], a[k + 1..];
    assert Split(a) == [head] + Split(tail);
    SplitAt(a, k, b);
    Regroup(Split(a), Split(a + "\n" + b), head, Split(tail), Split(b), Split(tail + "\n" + b));
  }

  lemma {:induction false} Regroup<T>(p: seq<T>, q: seq<T>, h: T, x: seq<T>, y: seq<T>, z: seq<T>)
    requires p == [h] + x && q == [h] + z && z == x + y
    ensures q == p + y
  {
    assert [h] + (x + y) == ([h] + x) + y;
  }

  lemma {:induction false} SplitOneAppend(a: string, b: string)
    requires FirstIndexOf(a, '\n') == |a|
    ensures Split(a + "\n" + b) == Split(a) + Split(b)
  {
    assert '\n' !in a;
    SplitCons(a, b);
    assert Split(a) == [a];
  }

  /** Text whose first newline is at `k`, followed by a newline and more
      text, splits off the line before `k` first. */
  lemma {:induction false} SplitAt(a: string, k: nat, b: string)
    requires k == FirstIndexOf(a, '\n') && k < |a|
    ensures Split(a + "\n" + b) == [a[..k]] + Split(a[k + 1..] + "\n" + b)
  {
    var head, tail := a[..k], a[k + 1..];
    assert '\n' !in head;
    CutAt(a, k);
    assert a + "\n" + b == head + "\n" + (tail + "\n" + b);
    SplitCons(head, tail + "\n" + b);
  }

  /** Saving lines and reading the file back splits each saved line at its
      own newlines, run by run. */
  lemma {:induction false} SplitJoinAppend(xs: seq<string>, ys: seq<string>)
    requires |xs| >= 1 && |ys| >= 1
    ensures Split(Join(xs + ys)) == Split(Join(xs)) + Split(Join(ys))
  {
    JoinAppend(xs, ys);
    SplitAppend(Join(xs), Join(ys));
  }

  /** A line without a newline never trims to a text that holds one or
      that ends in whitespace. */
  lemma {:induction false} TrimmedNever(l: string, t: string)
    requires '\n' !in l
    requires '\n' in t || TrailingWs(t) > 0
    ensures Trim(l) != t
  {
    if !AllWs(l) {
      TrimShape(l);
      var r := Trim(l);
      assert '\n' !in r by {
        forall i | 0 <= i < |r| ensures r[i] != '\n' {
          assert r[i] == l[LeadingWs(l) + i];
        }
      }
      assert !IsWs(r[|r| - 1]);
    }
  }

  /** A text that holds a newline or ends in whitespace still does after
      a prefix is put in front of it. */
  lemma {:induction false} UnreadAfter(pre: string, t: string)
    requires '\n' in t || TrailingWs(t) > 0
    ensures '\n' in pre + t || TrailingWs(pre + t) > 0
  {
    var h := pre + t;
    if '\n' in t {
      var j :| 0 <= j < |t| && t[j] == '\n';
      assert h[|pre| + j] == '\n';
    } else {
      assert h[|h| - 1] == t[|t| - 1];
    }
  }

  // ------------------------------------------------------------- scans

  /** The first index at or after `k` whose line satisfies `p`, or `|lines|`
      when there is none: the shape of every `for (...) if (...) break` scan
      in the handlers. */
  function FirstFrom(lines: seq<string>, k: nat, p: string -> bool): (j: nat)
    ensures j <= |lines|
    ensures k <= |lines| ==> k <= j
    ensures k > |lines| ==> j == |lines|
    ensures forall i :: k <= i < j ==> !p(lines[i])
    ensures j < |lines| ==> p(lines[j])
    decreases |lines| - k
  {
    if k >= |lines| then |lines|
    else if p(lines[k]) then k
    else FirstFrom(lines, k + 1, p)
  }

  /** A scan from `k` stops at `j` when `j` is the first match. */
  lemma {:induction false} FirstFromAt(lines: seq<string>, k: nat, p: string -> bool, j: nat)
    requires k <= j < |lines| && p(lines[j])
    requires forall i :: k <= i < j ==> !p(lines[i])
    ensures FirstFrom(lines, k, p) == j
  {
  }

  /** The first line equal, once trimmed, to `text`. */
  function FirstTrimmed(lines: seq<string>, text: string): (j: nat)
    ensures j <= |lines|
    ensures forall i :: 0 <= i < j ==> Trim(lines[i]) != text
    ensures j < |lines| ==> Trim(lines[j]) == text
  {
    FirstFrom(lines, 0, l => Trim(l) == text)
  }

  /** One past the last line at or after `lo` that satisfies `q`, or `lo`
      when there is none. */
  function AfterLast(lines: seq<string>, lo: nat, q: string -> bool): (k: nat)
    requires lo <= |lines|
    ensures lo <= k <= |lines|
    ensures forall i :: k <= i < |lines| ==> !q(lines[i])
    ensures k > lo ==> q(lines[k - 1])
    decreases |lines|
  {
    if |lines| == lo then lo
    else if q(lines[|lines| - 1]) then |lines|
    else AfterLast(lines[..|lines| - 1], lo, q)
  }
}
