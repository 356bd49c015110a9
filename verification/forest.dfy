/** Task trees. A checklist block is a flat run of lines whose indentation
    encodes nesting; both the server's settlement (`buildTaskTreeFromPool`,
    dist-server/index.js) and the viewer (`buildTaskTree`,
    todo-viewer/src/utils/parser.ts) turn such a run into a forest with the
    same stack discipline: pop every open node indented at least as deep as
    the new item, hang the item under the node left on top (or make it a
    root), and push it.

    The source mutates node objects shared between the stack and the tree.
    Here the open nodes are the frames of `Stack.path`, bottom first; a frame
    is hung into its parent (or the roots) when it is popped. `Flatten` is the
    forest the source would show at the same moment. */
module Forest {

  /** One parsed checklist line: where it is, its indentation level, its
      state, and its text (the original line on the server, the trimmed
      content in the viewer). */
  datatype Item = Item(lineIndex: nat, indent: nat, completed: bool, text: string)

  datatype Tree = Node(item: Item, kids: seq<Tree>)

  function Leaf(y: Item): Tree {
    Node(y, [])
  }

  /** The items of a tree in document order: the node, then its subtrees. */
  function Preorder(t: Tree): seq<Item>
    decreases t
  {
    [t.item] + PreorderAll(t.kids)
  }

  function PreorderAll(ts: seq<Tree>): seq<Item>
    decreases ts
  {
    if |ts| == 0 then [] else Preorder(ts[0]) + PreorderAll(ts[1..])
  }

  lemma {:induction false} PreorderAllConcat(a: seq<Tree>, b: seq<Tree>)
    ensures PreorderAll(a + b) == PreorderAll(a) + PreorderAll(b)
    decreases |a|
  {
    if |a| > 0 {
      assert (a + b)[0] == a[0];
      assert (a + b)[1..] == a[1..] + b;
      PreorderAllConcat(a[1..], b);
    } else {
      assert a + b == b;
    }
  }

  /** An item below a list of trees lies in one of them. */
  lemma {:induction false} InPreorderAll(ts: seq<Tree>, y: Item) returns (i: nat)
    requires y in PreorderAll(ts)
    ensures i < |ts| && y in Preorder(ts[i])
    decreases ts
  {
    if y in Preorder(ts[0]) {
      i := 0;
    } else {
      var i' := InPreorderAll(ts[1..], y);
      i := i' + 1;
      assert ts[1..][i'] == ts[i];
    }
  }

  /** An item of one of the trees is an item of the list. */
  lemma {:induction false} MemberPreorderAll(ts: seq<Tree>, i: nat, y: Item)
    requires i < |ts| && y in Preorder(ts[i])
    ensures y in PreorderAll(ts)
    decreases ts
  {
    if i > 0 {
      MemberPreorderAll(ts[1..], i - 1, y);
    }
  }

  /** Every child is indented deeper than its parent, all the way down. */
  predicate Nested(t: Tree)
    decreases t
  {
    forall i :: 0 <= i < |t.kids| ==> t.kids[i].item.indent > t.item.indent && Nested(t.kids[i])
  }

  predicate NestedAll(ts: seq<Tree>) {
    forall i :: 0 <= i < |ts| ==> Nested(ts[i])
  }

  // ------------------------------------------------- reference definition

  /** Where the next item goes, read off the finished forest: into the last
      root when it is indented deeper than that root (and then, recursively,
      among that root's children), otherwise as a new root. */
  function InsertLast(ts: seq<Tree>, y: Item): (r: seq<Tree>)
    decreases ts
  {
    if |ts| > 0 && y.indent > ts[|ts| - 1].item.indent then ts[..|ts| - 1] + [AppendDeep(ts[|ts| - 1], y)]
    else ts + [Leaf(y)]
  }

  function AppendDeep(t: Tree, y: Item): (r: Tree)
    decreases t
  {
    Node(t.item, InsertLast(t.kids, y))
  }

  /** The forest of a run of items, built one item at a time. */
  function Build(items: seq<Item>): seq<Tree>
  {
    if |items| == 0 then [] else InsertLast(Build(items[..|items| - 1]), items[|items| - 1])
  }

  /** Inserting adds the item at the end of the document order. */
  lemma {:induction false} InsertLastPreorder(ts: seq<Tree>, y: Item)
    ensures PreorderAll(InsertLast(ts, y)) == PreorderAll(ts) + [y]
    decreases ts
  {
    if |ts| > 0 && y.indent > ts[|ts| - 1].item.indent {
      var n := |ts| - 1;
      var t := ts[n];
      PreorderAllConcat(ts[..n], [AppendDeep(t, y)]);
      PreorderAllConcat(ts[..n], [t]);
      assert ts == ts[..n] + [t];
      AppendDeepPreorder(t, y);
    } else {
      PreorderAllConcat(ts, [Leaf(y)]);
    }
  }

  lemma {:induction false} AppendDeepPreorder(t: Tree, y: Item)
    ensures Preorder(AppendDeep(t, y)) == Preorder(t) + [y]
    decreases t
  {
    InsertLastPreorder(t.kids, y);
  }

  /** Inserting keeps every tree nested. */
  lemma {:induction false} InsertLastNested(ts: seq<Tree>, y: Item)
    requires NestedAll(ts)
    ensures NestedAll(InsertLast(ts, y))
    decreases ts
  {
    if |ts| > 0 && y.indent > ts[|ts| - 1].item.indent {
      AppendDeepNested(ts[|ts| - 1], y);
    }
  }

  lemma {:induction false} AppendDeepNested(t: Tree, y: Item)
    requires Nested(t) && y.indent > t.item.indent
    ensures Nested(AppendDeep(t, y))
    decreases t
  {
    InsertLastNested(t.kids, y);
    var ks := InsertLast(t.kids, y);
    var n := |t.kids|;
    if n > 0 && y.indent > t.kids[n - 1].item.indent {
      forall i | 0 <= i < |ks| ensures ks[i].item.indent > t.item.indent {
        if i < n - 1 {
          assert ks[i] == t.kids[i];
        } else {
          assert ks[i] == AppendDeep(t.kids[n - 1], y);
        }
      }
    } else {
      forall i | 0 <= i < |ks| ensures ks[i].item.indent > t.item.indent {
        if i < n {
          assert ks[i] == t.kids[i];
        }
      }
    }
  }

  /** `Build` keeps the items in document order and nests children deeper
      than their parents. */
  lemma {:induction false} BuildShape(items: seq<Item>)
    ensures PreorderAll(Build(items)) == items
    ensures NestedAll(Build(items))
    decreases |items|
  {
    if |items| > 0 {
      var n := |items| - 1;
      BuildShape(items[..n]);
      InsertLastPreorder(Build(items[..n]), items[n]);
      InsertLastNested(Build(items[..n]), items[n]);
      assert items == items[..n] + [items[n]];
    }
  }

  // ----------------------------------------------------- stack algorithm

  /** Finished roots and the open nodes, bottom of the stack first. */
  datatype Stack = Stack(roots: seq<Tree>, path: seq<Tree>)

  const Empty: Stack := Stack([], [])

  function Attach(p: Tree, c: Tree): Tree {
    Node(p.item, p.kids + [c])
  }

  /** `stack.pop()`: the top node is complete; it stays where it was hung,
      under the node below it or among the roots. */
  function Pop(s: Stack): (r: Stack)
    requires |s.path| > 0
    ensures |r.path| == |s.path| - 1
  {
    var n := |s.path|;
    if n == 1 then Stack(s.roots + [s.path[0]], [])
    else Stack(s.roots, s.path[..n - 2] + [Attach(s.path[n - 2], s.path[n - 1])])
  }

  /** Pop while the top node is indented at least `d` deep. */
  function PopWhile(s: Stack, d: nat): (r: Stack)
    ensures |r.path| <= |s.path|
    ensures |r.path| > 0 ==> r.path[|r.path| - 1].item.indent < d
    decreases |s.path|
  {
    if |s.path| > 0 && s.path[|s.path| - 1].item.indent >= d then PopWhile(Pop(s), d) else s
  }

  /** One item of the loop: find the parent, hang the item, push it. */
  function Step(s: Stack, y: Item): Stack {
    var t := PopWhile(s, y.indent);
    Stack(t.roots, t.path + [Leaf(y)])
  }

  /** The state after the loop has consumed `items`. */
  function Run(s: Stack, items: seq<Item>): Stack
  {
    if |items| == 0 then s else Step(Run(s, items[..|items| - 1]), items[|items| - 1])
  }

  /** The forest once every open node is complete. */
  function Close(s: Stack): seq<Tree>
    decreases |s.path|
  {
    if |s.path| == 0 then s.roots else Close(Pop(s))
  }

  /** `buildTaskTree(items)` */
  function StackBuild(items: seq<Item>): seq<Tree> {
    Close(Run(Empty, items))
  }

  /** The open nodes seen as one tree: each frame with the frame above it
      hung as its last child. */
  function Fold(path: seq<Tree>): (t: Tree)
    requires |path| > 0
    ensures t.item == path[0].item
    decreases |path|
  {
    if |path| == 1 then path[0] else Attach(path[0], Fold(path[1..]))
  }

  /** The forest the source holds at this moment. */
  function Flatten(s: Stack): seq<Tree> {
    if |s.path| == 0 then s.roots else s.roots + [Fold(s.path)]
  }

  lemma {:induction false} FoldAttachTop(path: seq<Tree>)
    requires |path| >= 2
    ensures Fold(path[..|path| - 2] + [Attach(path[|path| - 2], path[|path| - 1])]) == Fold(path)
    decreases |path|
  {
    var n := |path|;
    var q := path[..n - 2] + [Attach(path[n - 2], path[n - 1])];
    if n > 2 {
      assert q[1..] == path[1..][..n - 3] + [Attach(path[1..][n - 3], path[1..][n - 2])];
      FoldAttachTop(path[1..]);
    }
  }

  /** Popping never changes the forest the source holds. */
  lemma {:induction false} PopFlatten(s: Stack)
    requires |s.path| > 0
    ensures Flatten(Pop(s)) == Flatten(s)
  {
    if |s.path| >= 2 {
      FoldAttachTop(s.path);
    }
  }

  lemma {:induction false} PopWhileFlatten(s: Stack, d: nat)
    ensures Flatten(PopWhile(s, d)) == Flatten(s)
    decreases |s.path|
  {
    if |s.path| > 0 && s.path[|s.path| - 1].item.indent >= d {
      PopFlatten(s);
      PopWhileFlatten(Pop(s), d);
    }
  }

  lemma {:induction false} CloseFlatten(s: Stack)
    ensures Close(s) == Flatten(s)
    decreases |s.path|
  {
    if |s.path| > 0 {
      PopFlatten(s);
      CloseFlatten(Pop(s));
    }
  }

  lemma {:induction false} FoldPushPreorder(path: seq<Tree>, y: Item)
    requires |path| > 0
    ensures Preorder(Fold(path + [Leaf(y)])) == Preorder(Fold(path)) + [y]
    decreases |path|
  {
    var p := path + [Leaf(y)];
    if |path| == 1 {
      PreorderAllConcat(path[0].kids, [Leaf(y)]);
    } else {
      assert p[1..] == path[1..] + [Leaf(y)];
      FoldPushPreorder(path[1..], y);
      PreorderAllConcat(path[0].kids, [Fold(p[1..])]);
      PreorderAllConcat(path[0].kids, [Fold(path[1..])]);
    }
  }

  /** Each step adds exactly its item at the end of the document order. */
  lemma {:induction false} StepPreorder(s: Stack, y: Item)
    ensures PreorderAll(Flatten(Step(s, y))) == PreorderAll(Flatten(s)) + [y]
  {
    var t := PopWhile(s, y.indent);
    PopWhileFlatten(s, y.indent);
    if |t.path| == 0 {
      PreorderAllConcat(t.roots, [Leaf(y)]);
    } else {
      FoldPushPreorder(t.path, y);
      PreorderAllConcat(t.roots, [Fold(t.path + [Leaf(y)])]);
      PreorderAllConcat(t.roots, [Fold(t.path)]);
    }
  }

  /** The run adds its items, in order, after what the stack already held. */
  lemma {:induction false} RunPreorder(s: Stack, items: seq<Item>)
    ensures PreorderAll(Flatten(Run(s, items))) == PreorderAll(Flatten(s)) + items
    decreases |items|
  {
    if |items| > 0 {
      var n := |items| - 1;
      RunPreorder(s, items[..n]);
      StepPreorder(Run(s, items[..n]), items[n]);
      assert items == items[..n] + [items[n]];
    }
  }

  /** Well-formed stack: finished trees are nested, every open frame is
      nested, and the open frames are indented strictly deeper going up. */
  predicate GoodStack(s: Stack) {
    && NestedAll(s.roots)
    && NestedAll(s.path)
    && forall i :: 0 < i < |s.path| ==> s.path[i - 1].item.indent < s.path[i].item.indent
  }

  lemma {:induction false} PopGood(s: Stack)
    requires |s.path| > 0 && GoodStack(s)
    ensures GoodStack(Pop(s))
  {
    var n := |s.path|;
    if n >= 2 {
      var a := Attach(s.path[n - 2], s.path[n - 1]);
      assert Nested(a);
      var q := s.path[..n - 2] + [a];
      assert forall i :: 0 <= i < |q| ==> q[i].item.indent == s.path[i].item.indent;
    }
  }

  lemma {:induction false} PopWhileGood(s: Stack, d: nat)
    requires GoodStack(s)
    ensures GoodStack(PopWhile(s, d))
    decreases |s.path|
  {
    if |s.path| > 0 && s.path[|s.path| - 1].item.indent >= d {
      PopGood(s);
      PopWhileGood(Pop(s), d);
    }
  }

  lemma {:induction false} StepGood(s: Stack, y: Item)
    requires GoodStack(s)
    ensures GoodStack(Step(s, y))
  {
    PopWhileGood(s, y.indent);
  }

  lemma {:induction false} RunGood(s: Stack, items: seq<Item>)
    requires GoodStack(s)
    ensures GoodStack(Run(s, items))
    decreases |items|
  {
    if |items| > 0 {
      RunGood(s, items[..|items| - 1]);
      StepGood(Run(s, items[..|items| - 1]), items[|items| - 1]);
    }
  }

  lemma {:induction false} FoldNested(path: seq<Tree>)
    requires |path| > 0 && GoodStack(Stack([], path))
    ensures Nested(Fold(path))
    decreases |path|
  {
    if |path| > 1 {
      FoldNested(path[1..]);
    }
  }

  /** A well-formed stack holds a nested forest. */
  lemma {:induction false} GoodFlatten(s: Stack)
    requires GoodStack(s)
    ensures NestedAll(Flatten(s))
  {
    if |s.path| > 0 {
      FoldNested(s.path);
    }
  }

  // ------------------------------------------- stack = reference builder

  /** Between two items: a frame just pushed has no children yet, and the
      roots are empty until the first item arrives. */
  predicate Settled(s: Stack) {
    && (forall i :: 0 < i < |s.path| ==> s.path[i - 1].item.indent < s.path[i].item.indent)
    && (|s.path| == 0 ==> |s.roots| == 0)
    && (|s.path| > 0 ==> |s.path[|s.path| - 1].kids| == 0)
  }

  /** During the popping: what was last completed (the top frame's last
      child, or the last root when no frame is left) is indented at least `d`
      deep. */
  predicate Ready(s: Stack, d: nat) {
    && (forall i :: 0 < i < |s.path| ==> s.path[i - 1].item.indent < s.path[i].item.indent)
    && (|s.path| == 0 ==> |s.roots| == 0 || s.roots[|s.roots| - 1].item.indent >= d)
    && (|s.path| > 0 ==> var top := s.path[|s.path| - 1];
          |top.kids| == 0 || top.kids[|top.kids| - 1].item.indent >= d)
  }

  lemma {:induction false} PopReady(s: Stack, d: nat)
    requires |s.path| > 0 && Ready(s, d) && s.path[|s.path| - 1].item.indent >= d
    ensures Ready(Pop(s), d)
  {
    var n := |s.path|;
    if n >= 2 {
      var q := Pop(s).path;
      assert forall i :: 0 <= i < |q| ==> q[i].item.indent == s.path[i].item.indent;
    }
  }

  lemma {:induction false} PopWhileReady(s: Stack, d: nat)
    requires Ready(s, d)
    ensures Ready(PopWhile(s, d), d)
    decreases |s.path|
  {
    if |s.path| > 0 && s.path[|s.path| - 1].item.indent >= d {
      PopReady(s, d);
      PopWhileReady(Pop(s), d);
    }
  }

  /** Pushing onto frames all shallower than the item, whose last completed
      node is at least as deep, is what `AppendDeep` does to the folded
      tree. */
  lemma {:induction false} FoldPush(path: seq<Tree>, y: Item)
    requires |path| > 0
    requires forall i :: 0 <= i < |path| ==> path[i].item.indent < y.indent
    requires var top := path[|path| - 1]; |top.kids| == 0 || top.kids[|top.kids| - 1].item.indent >= y.indent
    ensures Fold(path + [Leaf(y)]) == AppendDeep(Fold(path), y)
    decreases |path|
  {
    var p := path + [Leaf(y)];
    if |path| > 1 {
      assert p[1..] == path[1..] + [Leaf(y)];
      FoldPush(path[1..], y);
      var ks := path[0].kids + [Fold(path[1..])];
      assert ks[..|ks| - 1] == path[0].kids;
    }
  }

  lemma {:induction false} StepBuild(s: Stack, y: Item)
    requires Settled(s)
    ensures Flatten(Step(s, y)) == InsertLast(Flatten(s), y)
    ensures Settled(Step(s, y))
  {
    var t := PopWhile(s, y.indent);
    PopWhileFlatten(s, y.indent);
    PopWhileReady(s, y.indent);
    PushBuild(t, y);
    StepSettled(s, y);
  }

  /** After the popping, pushing the item is what `InsertLast` does. */
  lemma {:induction false} PushBuild(t: Stack, y: Item)
    requires Ready(t, y.indent)
    requires |t.path| > 0 ==> t.path[|t.path| - 1].item.indent < y.indent
    ensures Flatten(Stack(t.roots, t.path + [Leaf(y)])) == InsertLast(Flatten(t), y)
  {
    if |t.path| > 0 {
      IncreasingBelowTop(t.path);
      FoldPush(t.path, y);
      InsertAfterRoots(t.roots, Fold(t.path), y);
    }
  }

  lemma {:induction false} InsertAfterRoots(roots: seq<Tree>, f: Tree, y: Item)
    requires y.indent > f.item.indent
    ensures InsertLast(roots + [f], y) == roots + [AppendDeep(f, y)]
  {
    var rs := roots + [f];
    assert rs[..|rs| - 1] == roots;
  }

  lemma {:induction false} StepSettled(s: Stack, y: Item)
    requires Settled(s)
    ensures Settled(Step(s, y))
  {
    var t := PopWhile(s, y.indent);
    PopWhileReady(s, y.indent);
    var q := t.path + [Leaf(y)];
    assert forall i :: 0 <= i < |t.path| ==> q[i] == t.path[i];
  }

  lemma {:induction false} IncreasingBelowTop(path: seq<Tree>)
    requires |path| > 0
    requires forall i :: 0 < i < |path| ==> path[i - 1].item.indent < path[i].item.indent
    ensures forall i :: 0 <= i < |path| ==> path[i].item.indent <= path[|path| - 1].item.indent
    decreases |path|
  {
    if |path| > 1 {
      IncreasingBelowTop(path[..|path| - 1]);
    }
  }

  lemma {:induction false} RunBuild(items: seq<Item>)
    ensures Settled(Run(Empty, items))
    ensures Flatten(Run(Empty, items)) == Build(items)
    decreases |items|
  {
    if |items| > 0 {
      var n := |items| - 1;
      RunBuild(items[..n]);
      StepBuild(Run(Empty, items[..n]), items[n]);
    }
  }

  /** The stack algorithm builds exactly the reference forest; so it keeps
      every item once, in document order, and nests each child deeper than
      its parent. */
  lemma {:induction false} StackBuildIsBuild(items: seq<Item>)
    ensures StackBuild(items) == Build(items)
    ensures PreorderAll(StackBuild(items)) == items
    ensures NestedAll(StackBuild(items))
  {
    RunBuild(items);
    CloseFlatten(Run(Empty, items));
    BuildShape(items);
  }
}
