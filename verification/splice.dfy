/** Splicing several insertions into a list of lines
    (dist-server/index.js, step 11 of the week-settle handler): the
    insertions are sorted by descending index and spliced in one after
    another, so that each index still names a line of the original. */
module Splice {
  import opened Lines

  /** `{ index, lines }`: lines to splice in before `index`. */
  datatype Insertion = Insertion(index: nat, lines: seq<string>)

  predicate Descending(ins: seq<Insertion>) {
    forall k, l :: 0 <= k < l < |ins| ==> ins[k].index >= ins[l].index
  }

  predicate StrictlyDescending(ins: seq<Insertion>) {
    forall k, l :: 0 <= k < l < |ins| ==> ins[k].index > ins[l].index
  }

  /** No two insertions share an index. */
  predicate DistinctIndices(ins: seq<Insertion>) {
    forall k, l :: 0 <= k < l < |ins| ==> ins[k].index != ins[l].index
  }

  /** Puts `x` after every element whose index is not smaller. */
  function Place(x: Insertion, s: seq<Insertion>): (r: seq<Insertion>)
    requires Descending(s)
    ensures Descending(r)
    ensures |r| == |s| + 1
    ensures r[0] == x || (|s| > 0 && r[0] == s[0])
  {
    if |s| == 0 then [x]
    else if s[0].index >= x.index then
      var rest := Place(x, s[1..]);
      assert forall l :: 0 <= l < |rest| ==> rest[l].index <= s[0].index by {
        forall l | 0 <= l < |rest|
          ensures rest[l].index <= s[0].index
        {
          assert rest[l].index <= rest[0].index;
          if rest[0] != x {
            assert rest[0] == s[1];
          }
        }
      }
      [s[0]] + rest
    else [x] + s
  }
  /** Placing adds exactly `x`. */
  lemma {:induction false} PlacePermutes(x: Insertion, s: seq<Insertion>)
    requires Descending(s)
    ensures multiset(Place(x, s)) == multiset(s) + multiset{x}
  {
    if |s| > 0 && s[0].index >= x.index {
      PlacePermutes(x, s[1..]);
      assert s == [s[0]] + s[1..];
      assert Place(x, s) == [s[0]] + Place(x, s[1..]);
    }
  }
  /** `insertions.sort((a, b) => b.index - a.index)`: a stable sort by
      descending index (insertion sort, which is stable). */
  function SortDescending(ins: seq<Insertion>): (r: seq<Insertion>)
    ensures Descending(r)
    ensures |r| == |ins|
  {
    if |ins| == 0 then []
    else Place(ins[|ins| - 1], SortDescending(ins[..|ins| - 1]))
  }
  /** The sort is a permutation. */
  lemma {:induction false} SortPermutes(ins: seq<Insertion>)
    ensures multiset(SortDescending(ins)) == multiset(ins)
  {
    if |ins| > 0 {
      var init, x := ins[..|ins| - 1], ins[|ins| - 1];
      assert multiset(ins) == multiset(init) + multiset{x} by {
        assert ins == init + [x];
      }
      var sorted := SortDescending(init);
      assert SortDescending(ins) == Place(x, sorted);
      SortPermutes(init);
      PlacePermutes(x, sorted);
    }
  }

  /** Placing an index that is new keeps a strictly descending sequence
      strictly descending. */
  lemma {:induction false} PlaceStrictly(x: Insertion, s: seq<Insertion>)
    requires StrictlyDescending(s)
    requires forall k :: 0 <= k < |s| ==> s[k].index != x.index
    ensures StrictlyDescending(Place(x, s))
  {
    if |s| > 0 && s[0].index >= x.index {
      var tail := s[1..];
      assert StrictlyDescending(tail) by {
        forall k, l | 0 <= k < l < |tail|
          ensures tail[k].index > tail[l].index
        {
          assert tail[k] == s[k + 1] && tail[l] == s[l + 1];
        }
      }
      assert forall k :: 0 <= k < |tail| ==> tail[k].index != x.index by {
        forall k | 0 <= k < |tail|
          ensures tail[k].index != x.index
        {
          assert tail[k] == s[k + 1];
        }
      }
      PlaceStrictly(x, tail);
      var rest := Place(x, tail);
      var r := Place(x, s);
      assert r == [s[0]] + rest;
      assert s[0].index > x.index;
      forall k, l | 0 <= k < l < |r|
        ensures r[k].index > r[l].index
      {
        if k == 0 {
          assert r[l] == rest[l - 1];
          if l > 1 {
            assert rest[0].index > rest[l - 1].index;
          }
          if rest[0] != x {
            assert rest[0] == s[1];
          }
        } else {
          assert r[k] == rest[k - 1] && r[l] == rest[l - 1];
        }
      }
    }
  }

  /** With no index repeated, the sort is strictly descending. */
  lemma {:induction false} SortStrictly(ins: seq<Insertion>)
    requires DistinctIndices(ins)
    ensures StrictlyDescending(SortDescending(ins))
  {
    if |ins| > 0 {
      var init := ins[..|ins| - 1];
      var x := ins[|ins| - 1];
      assert DistinctIndices(init) by {
        forall k, l | 0 <= k < l < |init|
          ensures init[k].index != init[l].index
        {
          assert init[k] == ins[k] && init[l] == ins[l];
        }
      }
      SortStrictly(init);
      SortPermutes(init);
      var sorted := SortDescending(init);
      assert SortDescending(ins) == Place(x, sorted);
      forall k | 0 <= k < |sorted|
        ensures sorted[k].index != x.index
      {
        assert sorted[k] in multiset(init);
        var a :| 0 <= a < |init| && init[a] == sorted[k];
        assert ins[a] == sorted[k];
      }
      PlaceStrictly(x, sorted);
    }
  }

  /** `lines.splice(index, 0, ...ls)` for each insertion in turn. */
  function SpliceAll(lines: seq<string>, ins: seq<Insertion>): (r: seq<string>)
    decreases |ins|
  {
    if |ins| == 0 then lines
    else
      var x := ins[0];
      SpliceAll(Insert(lines, SpliceStart(x.index, |lines|), x.lines), ins[1..])
  }

  /** The reference: the original lines with each insertion's lines placed
      before the original line at its index, insertions taken in file
      order (an index past the end means the end). */
  function Interleave(lines: seq<string>, asc: seq<Insertion>): (r: seq<string>)
    decreases |asc|
  {
    if |asc| == 0 then lines
    else
      var x := asc[|asc| - 1];
      var i := if x.index <= |lines| then x.index else |lines|;
      Interleave(lines[..i], asc[..|asc| - 1]) + x.lines + lines[i..]
  }

  /** Splicing below the end of a prefix leaves what follows it alone. */
  lemma {:induction false} SpliceAllPrefix(u: seq<string>, t: seq<string>, ins: seq<Insertion>)
    requires forall k :: 0 <= k < |ins| ==> ins[k].index <= |u|
    ensures SpliceAll(u + t, ins) == SpliceAll(u, ins) + t
    decreases |ins|
  {
    if |ins| > 0 {
      var x := ins[0];
      assert SpliceStart(x.index, |u + t|) == x.index == SpliceStart(x.index, |u|);
      var u' := Insert(u, x.index, x.lines);
      assert Insert(u + t, x.index, x.lines) == u' + t;
      SpliceAllPrefix(u', t, ins[1..]);
    }
  }

  /** Splicing from the back, with every index naming a line of the
      original, is the in-order interleaving. */
  lemma {:induction false} SpliceAllInterleaves(lines: seq<string>, desc: seq<Insertion>)
    requires StrictlyDescending(desc)
    requires forall k :: 0 <= k < |desc| ==> desc[k].index <= |lines|
    ensures SpliceAll(lines, desc) == Interleave(lines, Reverse(desc))
    decreases |desc|
  {
    if |desc| > 0 {
      var x, rest := desc[0], desc[1..];
      var u, t := lines[..x.index], x.lines + lines[x.index..];
      assert SpliceAll(lines, desc) == SpliceAll(u + t, rest) by {
        SpliceAllFirst(lines, desc);
      }
      RestBelow(desc);
      SpliceAllPrefix(u, t, rest);
      SpliceAllInterleaves(u, rest);
      InterleaveFirst(lines, desc);
    }
  }

  /** The first splice, at an index inside the lines, cuts them there. */
  lemma {:induction false} SpliceAllFirst(lines: seq<string>, desc: seq<Insertion>)
    requires |desc| > 0 && desc[0].index <= |lines|
    ensures SpliceAll(lines, desc)
      == SpliceAll(lines[..desc[0].index] + (desc[0].lines + lines[desc[0].index..]), desc[1..])
  {
    var x := desc[0];
    assert Insert(lines, SpliceStart(x.index, |lines|), x.lines) == lines[..x.index] + (x.lines + lines[x.index..]);
  }

  /** After the first of a strictly descending sequence, the rest is
      strictly descending and below it. */
  lemma {:induction false} RestBelow(desc: seq<Insertion>)
    requires |desc| > 0 && StrictlyDescending(desc)
    ensures StrictlyDescending(desc[1..])
    ensures forall k :: 0 <= k < |desc| - 1 ==> desc[1..][k].index < desc[0].index
  {
    var rest := desc[1..];
    forall k | 0 <= k < |rest|
      ensures rest[k].index < desc[0].index
    {
      assert rest[k] == desc[k + 1];
    }
    forall k, l | 0 <= k < l < |rest|
      ensures rest[k].index > rest[l].index
    {
      assert rest[k] == desc[k + 1] && rest[l] == desc[l + 1];
    }
  }

  /** The interleaving ends with the insertion of the largest index and
      the lines from there on. */
  lemma {:induction false} InterleaveFirst(lines: seq<string>, desc: seq<Insertion>)
    requires |desc| > 0 && desc[0].index <= |lines|
    ensures Interleave(lines, Reverse(desc))
      == Interleave(lines[..desc[0].index], Reverse(desc[1..])) + (desc[0].lines + lines[desc[0].index..])
  {
    ReverseSplit(desc);
    var r := Reverse(desc);
    assert |r| == |desc|;
    assert r[|r| - 1] == desc[0] && r[..|r| - 1] == Reverse(desc[1..]);
  }

  lemma {:induction false} ReverseSplit<T>(s: seq<T>)
    requires |s| > 0
    ensures Reverse(s)[|s| - 1] == s[0] && Reverse(s)[..|s| - 1] == Reverse(s[1..])
  {
    assert Reverse(s) == Reverse(s[1..]) + [s[0]];
  }

  // ------------------------------------------------------------ placement

  /** `l` is one of the lines after line `h`. */
  predicate OccursAfter(s: seq<string>, l: string, h: nat) {
    exists j :: h < j < |s| && s[j] == l
  }

  /** Inserting below line `h` keeps every line up to `h` where it was,
      keeps every line after `h` after it, and puts the inserted lines
      after it too. */
  lemma {:induction false} InsertBelow(s: seq<string>, i: nat, t: seq<string>, h: nat, l: string)
    requires h < i <= |s|
    ensures Insert(s, i, t)[..h + 1] == s[..h + 1]
    ensures OccursAfter(s, l, h) || l in t ==> OccursAfter(Insert(s, i, t), l, h)
  {
    var r := Insert(s, i, t);
    assert r[..h + 1] == r[..i][..h + 1];
    if OccursAfter(s, l, h) {
      var j :| h < j < |s| && s[j] == l;
      if j < i {
        assert r[j] == r[..i][j];
      } else {
        assert r[j + |t|] == r[i + |t|..][j - i];
      }
    } else if l in t {
      var k :| 0 <= k < |t| && t[k] == l;
      assert r[i + k] == r[i..i + |t|][k];
    }
  }

  /** Splicing only adds lines: every line of the document survives,
      whatever the indices. */
  lemma {:induction false} SpliceAllKeeps(lines: seq<string>, ins: seq<Insertion>, l: string)
    requires l in lines
    ensures l in SpliceAll(lines, ins)
    decreases |ins|
  {
    if |ins| > 0 {
      var p := SpliceStart(ins[0].index, |lines|);
      InsertKeeps(lines, p, ins[0].lines, l);
      SpliceAllKeeps(Insert(lines, p, ins[0].lines), ins[1..], l);
    }
  }

  /** Splicing at indices all below line `h` keeps the lines up to `h`
      and every line after `h` (original or spliced in) after it. */
  lemma {:induction false} SpliceAllBelow(lines: seq<string>, ins: seq<Insertion>, h: nat, l: string)
    requires h < |lines|
    requires forall k :: 0 <= k < |ins| ==> ins[k].index > h
    ensures |SpliceAll(lines, ins)| >= |lines|
    ensures SpliceAll(lines, ins)[..h + 1] == lines[..h + 1]
    ensures OccursAfter(lines, l, h) || (exists k :: 0 <= k < |ins| && l in ins[k].lines) ==>
      OccursAfter(SpliceAll(lines, ins), l, h)
    decreases |ins|
  {
    if |ins| > 0 {
      var x, rest := ins[0], ins[1..];
      var p := SpliceStart(x.index, |lines|);
      var s := Insert(lines, p, x.lines);
      InsertBelow(lines, p, x.lines, h, l);
      assert forall k :: 0 <= k < |rest| ==> rest[k] == ins[k + 1];
      if exists k :: 0 <= k < |ins| && l in ins[k].lines {
        var k :| 0 <= k < |ins| && l in ins[k].lines;
        if k > 0 {
          assert rest[k - 1] == ins[k];
        }
      }
      SpliceAllBelow(s, rest, h, l);
      assert s[..h + 1] == lines[..h + 1];
    }
  }
}
