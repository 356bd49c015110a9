/** Settlement status of a task tree (dist-server/index.js
    `markTaskStatus`, `buildArchiveLines`, `buildRetainedLines`): each node
    learns bottom-up whether its subtree holds completed and pending work;
    a node with completed work in its subtree is archived (shown as done in
    the week's record), and a completed node with no pending descendant is
    deleted from the pool (everything else stays, reset to pending). */
module Status {
  import opened Text
  import opened Classify
  import opened Forest

  datatype Flags = Flags(hasCompleted: bool, hasIncomplete: bool, archive: bool, delete: bool)

  /** A tree node with its status flags. */
  datatype Marked = MNode(item: Item, flags: Flags, kids: seq<Marked>)

  /** Some child is completed or has completed work below it. */
  function AnyCompletedChild(ks: seq<Marked>): bool {
    if |ks| == 0 then false
    else ks[0].item.completed || ks[0].flags.hasCompleted || AnyCompletedChild(ks[1..])
  }

  /** Some child is pending or has pending work below it. */
  function AnyIncompleteChild(ks: seq<Marked>): bool {
    if |ks| == 0 then false
    else !ks[0].item.completed || ks[0].flags.hasIncomplete || AnyIncompleteChild(ks[1..])
  }

  /** `markTaskStatus`: the children first, then the node's own flags. */
  function Mark(t: Tree): (m: Marked)
    decreases t
  {
    var ks := MarkAll(t.kids);
    var hasCompleted := t.item.completed || AnyCompletedChild(ks);
    var hasIncomplete := AnyIncompleteChild(ks);
    MNode(t.item, Flags(hasCompleted, hasIncomplete, hasCompleted, t.item.completed && !hasIncomplete), ks)
  }

  function MarkAll(ts: seq<Tree>): (ms: seq<Marked>)
    ensures |ms| == |ts|
    ensures forall i :: 0 <= i < |ts| ==> ms[i] == Mark(ts[i])
    decreases ts
  {
    if |ts| == 0 then [] else [Mark(ts[0])] + MarkAll(ts[1..])
  }

  /** The tree without its flags. */
  function Unmark(m: Marked): Tree
    decreases m
  {
    Node(m.item, UnmarkAll(m.kids))
  }

  function UnmarkAll(ms: seq<Marked>): seq<Tree>
    decreases ms
  {
    if |ms| == 0 then [] else [Unmark(ms[0])] + UnmarkAll(ms[1..])
  }

  /** Marking changes nothing but the flags. */
  lemma {:induction false} UnmarkMark(t: Tree)
    ensures Unmark(Mark(t)) == t
    decreases t
  {
    UnmarkMarkAll(t.kids);
  }

  lemma {:induction false} UnmarkMarkAll(ts: seq<Tree>)
    ensures UnmarkAll(MarkAll(ts)) == ts
    decreases ts
  {
    if |ts| > 0 {
      UnmarkMark(ts[0]);
      UnmarkMarkAll(ts[1..]);
      assert MarkAll(ts)[1..] == MarkAll(ts[1..]);
      assert ts == [ts[0]] + ts[1..];
    }
  }

  predicate AnyCompleted(items: seq<Item>) {
    exists i :: 0 <= i < |items| && items[i].completed
  }

  predicate AnyPending(items: seq<Item>) {
    exists i :: 0 <= i < |items| && !items[i].completed
  }

  lemma {:induction false} AnyOfConcat(a: seq<Item>, b: seq<Item>)
    ensures AnyCompleted(a + b) <==> AnyCompleted(a) || AnyCompleted(b)
    ensures AnyPending(a + b) <==> AnyPending(a) || AnyPending(b)
  {
    var c := a + b;
    if AnyCompleted(c) {
      var i :| 0 <= i < |c| && c[i].completed;
      if i >= |a| {
        assert b[i - |a|].completed;
      }
    }
    if AnyPending(c) {
      var i :| 0 <= i < |c| && !c[i].completed;
      if i >= |a| {
        assert !b[i - |a|].completed;
      }
    }
    if AnyCompleted(a) {
      var i :| 0 <= i < |a| && a[i].completed;
      assert c[i] == a[i];
    }
    if AnyPending(a) {
      var i :| 0 <= i < |a| && !a[i].completed;
      assert c[i] == a[i];
    }
    if AnyCompleted(b) {
      var i :| 0 <= i < |b| && b[i].completed;
      assert c[|a| + i] == b[i];
    }
    if AnyPending(b) {
      var i :| 0 <= i < |b| && !b[i].completed;
      assert c[|a| + i] == b[i];
    }
  }

  /** What the flags mean: `hasCompleted` says the subtree holds a completed
      item (the node included), `hasIncomplete` that some strict descendant
      is pending; archiving and deletion follow from them. */
  lemma {:induction false} MarkFlags(t: Tree)
    ensures Mark(t).item == t.item
    ensures Mark(t).flags.hasCompleted <==> AnyCompleted(Preorder(t))
    ensures Mark(t).flags.hasIncomplete <==> AnyPending(PreorderAll(t.kids))
    ensures Mark(t).flags.archive == Mark(t).flags.hasCompleted
    ensures Mark(t).flags.delete <==> t.item.completed && !AnyPending(PreorderAll(t.kids))
    decreases t
  {
    MarkFlagsAll(t.kids);
    AnyOfConcat([t.item], PreorderAll(t.kids));
    assert ([t.item] + PreorderAll(t.kids))[0] == t.item;
  }

  lemma {:induction false} MarkFlagsAll(ts: seq<Tree>)
    ensures AnyCompletedChild(MarkAll(ts)) <==> AnyCompleted(PreorderAll(ts))
    ensures AnyIncompleteChild(MarkAll(ts)) <==> AnyPending(PreorderAll(ts))
    decreases ts
  {
    if |ts| > 0 {
      MarkFlags(ts[0]);
      MarkFlagsAll(ts[1..]);
      assert MarkAll(ts)[1..] == MarkAll(ts[1..]);
      AnyOfConcat(Preorder(ts[0]), PreorderAll(ts[1..]));
      var p := Preorder(ts[0]);
      assert p[0] == ts[0].item;
      AnyOfConcat([ts[0].item], PreorderAll(ts[0].kids));
    }
  }

  /** A deleted node is always archived: its completion is recorded before
      it leaves the pool. */
  lemma {:induction false} DeleteImpliesArchive(t: Tree)
    ensures Mark(t).flags.delete ==> Mark(t).flags.archive
  {
  }

  // ------------------------------------------------------------ renderers

  /** `/^- \[.\]/` at the start of an already trimmed line. */
  predicate BoxPrefix(s: string) {
    |s| >= 5 && s[0] == '-' && s[1] == ' ' && s[2] == '[' && !IsLineTerminator(s[3]) && s[4] == ']'
  }

  /** `s.replace(/^- \[.\]/, '- [x]')` */
  function ForceDone(s: string): string {
    if BoxPrefix(s) then BoxText('x') + s[5..] else s
  }

  /** `line.replace(/^(\s*)- \[.\]/, '$1- [ ]')` */
  function ForcePending(line: string): string {
    var w := LeadingWs(line);
    if BoxPrefix(line[w..]) then line[..w] + BoxText(' ') + line[w + 5..] else line
  }

  /** The archive line of an item at nesting depth `d`. */
  function ArchivedLine(d: nat, y: Item): string {
    Spaces(4 * d) + ForceDone(Trim(y.text))
  }

  /** `buildArchiveLines(node, baseIndent)` */
  function Archive(m: Marked, base: nat): (r: seq<string>)
    decreases m
  {
    if !m.flags.archive then []
    else [ArchivedLine(base, m.item)] + ArchiveKids(m.kids, base + 1)
  }

  /** The children that are completed or hold completed work, in order. */
  function ArchiveKids(ks: seq<Marked>, base: nat): seq<string>
    decreases ks
  {
    if |ks| == 0 then []
    else
      var first := if ks[0].item.completed || ks[0].flags.hasCompleted then Archive(ks[0], base) else [];
      first + ArchiveKids(ks[1..], base)
  }

  /** `buildRetainedLines(node)` */
  function Retain(m: Marked): (r: seq<string>)
    decreases m
  {
    if m.flags.delete then []
    else [ForcePending(m.item.text)] + RetainKids(m.kids)
  }

  /** The children that are not deleted, in order. */
  function RetainKids(ks: seq<Marked>): seq<string>
    decreases ks
  {
    if |ks| == 0 then []
    else
      var first := if !ks[0].flags.delete then Retain(ks[0]) else [];
      first + RetainKids(ks[1..])
  }

  /** An archive is empty exactly when the node is not archived; the pool
      keeps nothing of a node exactly when it is deleted. */
  lemma {:induction false} RenderEmpty(m: Marked, base: nat)
    ensures Archive(m, base) == [] <==> !m.flags.archive
    ensures Retain(m) == [] <==> m.flags.delete
  {
  }

  /** Nothing is lost: every completed item of the tree appears, as a done
      line at some depth, in the archive, and every pending item appears,
      reset to pending, among the lines the pool keeps. */
  lemma {:induction false} Conservation(t: Tree, base: nat, y: Item)
    requires y in Preorder(t)
    ensures y.completed ==> exists d :: ArchivedLine(d, y) in Archive(Mark(t), base)
    ensures !y.completed ==> ForcePending(y.text) in Retain(Mark(t))
    decreases t
  {
    var m := Mark(t);
    MarkFlags(t);
    if y != t.item {
      assert y in PreorderAll(t.kids);
      var i := InPreorderAll(t.kids, y);
      Conservation(t.kids[i], base + 1, y);
      var k := Mark(t.kids[i]);
      assert MarkAll(t.kids)[i] == k;
      MarkFlags(t.kids[i]);
      if y.completed {
        var d :| ArchivedLine(d, y) in Archive(k, base + 1);
        assert AnyCompleted(Preorder(t.kids[i])) by {
          ItemInPreorder(t.kids[i], y);
        }
        AnyCompletedChildAt(MarkAll(t.kids), i);
        ArchiveKidsCover(MarkAll(t.kids), i, base + 1);
        assert ArchivedLine(d, y) in Archive(m, base);
      } else {
        assert AnyPending(PreorderAll(t.kids)) by {
          ItemInPreorder(t.kids[i], y);
          PendingInPreorderAll(t.kids, i, y);
        }
        assert !k.flags.delete;
        RetainKidsCover(MarkAll(t.kids), i);
        assert ForcePending(y.text) in Retain(m);
      }
    } else if y.completed {
      assert ArchivedLine(base, y) == Archive(m, base)[0];
    } else {
      assert ForcePending(y.text) == Retain(m)[0];
    }
  }

  lemma {:induction false} ItemInPreorder(t: Tree, y: Item)
    requires y in Preorder(t)
    ensures y.completed ==> AnyCompleted(Preorder(t))
    ensures !y.completed ==> AnyPending(Preorder(t))
  {
  }

  lemma {:induction false} PendingInPreorderAll(ts: seq<Tree>, i: nat, y: Item)
    requires i < |ts| && y in Preorder(ts[i]) && !y.completed
    ensures AnyPending(PreorderAll(ts))
  {
    MemberPreorderAll(ts, i, y);
  }

  lemma {:induction false} AnyCompletedChildAt(ks: seq<Marked>, i: nat)
    requires i < |ks| && (ks[i].item.completed || ks[i].flags.hasCompleted)
    ensures AnyCompletedChild(ks)
    decreases ks
  {
    if i > 0 {
      AnyCompletedChildAt(ks[1..], i - 1);
    }
  }

  /** An archived child's lines are among its parent's. */
  lemma {:induction false} ArchiveKidsCover(ks: seq<Marked>, i: nat, base: nat)
    requires i < |ks| && (ks[i].item.completed || ks[i].flags.hasCompleted)
    ensures forall l :: l in Archive(ks[i], base) ==> l in ArchiveKids(ks, base)
    decreases ks
  {
    if i > 0 {
      ArchiveKidsCover(ks[1..], i - 1, base);
    }
  }

  /** A kept child's lines are among its parent's. */
  lemma {:induction false} RetainKidsCover(ks: seq<Marked>, i: nat)
    requires i < |ks| && !ks[i].flags.delete
    ensures forall l :: l in Retain(ks[i]) ==> l in RetainKids(ks)
    decreases ks
  {
    if i > 0 {
      RetainKidsCover(ks[1..], i - 1);
    }
  }

  // ------------------------------------------------- shape of the output

  /** Every node of the tree holds a checklist line, as the pool builder
      guarantees. */
  predicate TaskTree(t: Tree)
    decreases t
  {
    IsTaskLine(t.item.text) && forall i :: 0 <= i < |t.kids| ==> TaskTree(t.kids[i])
  }

  /** The trimmed line begins with its checkbox. */
  lemma {:induction false} TrimmedBox(line: string)
    requires IsTaskLine(line)
    ensures BoxPrefix(Trim(line))
    ensures Trim(line)[3] == line[LeadingWs(line) + 3]
  {
    var w := LeadingWs(line);
    TrimKeeps(line, w + 4);
    TrimShape(line);
    var t := Trim(line);
    assert t[0] == line[w] && t[1] == line[w + 1] && t[2] == line[w + 2];
    assert t[3] == line[w + 3] && t[4] == line[w + 4];
  }

  /** An archive line is a completed checklist line indented by four spaces
      per level of depth. */
  lemma {:induction false} ArchivedLineDone(d: nat, y: Item)
    requires IsTaskLine(y.text)
    ensures IsCompletedTask(ArchivedLine(d, y))
    ensures LeadingWs(ArchivedLine(d, y)) == 4 * d
  {
    var t := Trim(y.text);
    TrimmedBox(y.text);
    var l := ArchivedLine(d, y);
    assert l == Spaces(4 * d) + BoxText('x') + t[5..];
    WsThenBox(Spaces(4 * d), t[5..], 'x');
  }

  /** Resetting a checklist line makes it pending and keeps its indentation
      and everything after the checkbox. */
  lemma {:induction false} ForcePendingShape(line: string)
    requires IsTaskLine(line)
    ensures var w := LeadingWs(line);
      && IsPendingTask(ForcePending(line))
      && LeadingWs(ForcePending(line)) == w
      && ForcePending(line) == line[..w] + BoxText(' ') + line[w + 5..]
  {
    var w := LeadingWs(line);
    var r := line[w..];
    assert r[0] == line[w] && r[1] == line[w + 1] && r[2] == line[w + 2];
    assert r[3] == line[w + 3] && r[4] == line[w + 4];
    assert BoxPrefix(r);
    var p := line[..w];
    assert AllWs(p) by {
      assert forall i :: 0 <= i < w ==> p[i] == line[i];
    }
    WsThenBox(p, line[w + 5..], ' ');
  }

  /** The archive holds only completed checklist lines, none indented less
      than the base level. */
  lemma {:induction false} ArchiveDone(t: Tree, base: nat)
    requires TaskTree(t)
    ensures forall l :: l in Archive(Mark(t), base) ==> IsCompletedTask(l) && LeadingWs(l) >= 4 * base
    decreases t
  {
    var m := Mark(t);
    if m.flags.archive {
      ArchivedLineDone(base, t.item);
      forall l | l in ArchiveKids(m.kids, base + 1)
        ensures IsCompletedTask(l) && LeadingWs(l) >= 4 * base
      {
        var i := ArchiveKidsFrom(m.kids, base + 1, l);
        ArchiveDone(t.kids[i], base + 1);
      }
    }
  }

  /** The kept lines are all pending checklist lines. */
  lemma {:induction false} RetainPending(t: Tree)
    requires TaskTree(t)
    ensures forall l :: l in Retain(Mark(t)) ==> IsPendingTask(l)
    decreases t
  {
    var m := Mark(t);
    if !m.flags.delete {
      ForcePendingShape(t.item.text);
      forall l | l in RetainKids(m.kids)
        ensures IsPendingTask(l)
      {
        var i := RetainKidsFrom(m.kids, l);
        RetainPending(t.kids[i]);
      }
    }
  }

  lemma {:induction false} ArchiveKidsFrom(ks: seq<Marked>, base: nat, l: string) returns (i: nat)
    requires l in ArchiveKids(ks, base)
    ensures i < |ks| && l in Archive(ks[i], base)
    decreases ks
  {
    var first := if ks[0].item.completed || ks[0].flags.hasCompleted then Archive(ks[0], base) else [];
    if l in first {
      i := 0;
    } else {
      var j := ArchiveKidsFrom(ks[1..], base, l);
      i := j + 1;
    }
  }

  lemma {:induction false} RetainKidsFrom(ks: seq<Marked>, l: string) returns (i: nat)
    requires l in RetainKids(ks)
    ensures i < |ks| && l in Retain(ks[i])
    decreases ks
  {
    var tail := ks[1..];
    assert RetainKids(ks) == Retain(ks[0]) + RetainKids(tail);
    if l in Retain(ks[0]) {
      i := 0;
    } else {
      var j := RetainKidsFrom(tail, l);
      assert tail[j] == ks[j + 1];
      i := j + 1;
    }
  }

  // ------------------------------------------- exact output, stated flatly

  /** Every subtree of `t` in document order, each paired with its nesting
      depth, `t` itself being at depth `d`. */
  function Subtrees(t: Tree, d: nat): seq<(nat, Tree)>
    decreases t
  {
    [(d, t)] + SubtreesAll(t.kids, d + 1)
  }

  function SubtreesAll(ts: seq<Tree>, d: nat): seq<(nat, Tree)>
    decreases ts
  {
    if |ts| == 0 then [] else Subtrees(ts[0], d) + SubtreesAll(ts[1..], d)
  }

  /** The subtrees are listed in the order of their root items. */
  predicate SameItems(ns: seq<(nat, Tree)>, ys: seq<Item>) {
    |ns| == |ys| && forall i :: 0 <= i < |ns| ==> ns[i].1.item == ys[i]
  }

  lemma {:induction false} SameItemsConcat(a: seq<(nat, Tree)>, b: seq<Item>, c: seq<(nat, Tree)>, e: seq<Item>)
    requires SameItems(a, b) && SameItems(c, e)
    ensures SameItems(a + c, b + e)
  {
    forall i | 0 <= i < |a + c|
      ensures (a + c)[i].1.item == (b + e)[i]
    {
      if i >= |a| {
        assert (a + c)[i] == c[i - |a|];
      }
    }
  }

  lemma {:induction false} SubtreesPreorder(t: Tree, d: nat)
    ensures SameItems(Subtrees(t, d), Preorder(t))
    decreases t
  {
    SubtreesAllPreorder(t.kids, d + 1);
    SameItemsConcat([(d, t)], [t.item], SubtreesAll(t.kids, d + 1), PreorderAll(t.kids));
  }

  lemma {:induction false} SubtreesAllPreorder(ts: seq<Tree>, d: nat)
    ensures SameItems(SubtreesAll(ts, d), PreorderAll(ts))
    decreases ts
  {
    if |ts| > 0 {
      SubtreesPreorder(ts[0], d);
      SubtreesAllPreorder(ts[1..], d);
      SameItemsConcat(Subtrees(ts[0], d), Preorder(ts[0]), SubtreesAll(ts[1..], d), PreorderAll(ts[1..]));
    }
  }

  /** The archive described flatly: for every subtree holding a completed
      item, in document order, its root's done line at its own depth. */
  function ArchiveOf(ns: seq<(nat, Tree)>): seq<string>
  {
    if |ns| == 0 then []
    else
      var (d, n) := ns[0];
      (if AnyCompleted(Preorder(n)) then [ArchivedLine(d, n.item)] else []) + ArchiveOf(ns[1..])
  }

  /** The kept lines described flatly: for every subtree holding a pending
      item, in document order, its root's line reset to pending. */
  function KeptOf(ns: seq<(nat, Tree)>): seq<string>
  {
    if |ns| == 0 then []
    else
      var (d, n) := ns[0];
      (if AnyPending(Preorder(n)) then [ForcePending(n.item.text)] else []) + KeptOf(ns[1..])
  }

  lemma {:induction false} OfConcat(a: seq<(nat, Tree)>, b: seq<(nat, Tree)>)
    ensures ArchiveOf(a + b) == ArchiveOf(a) + ArchiveOf(b)
    ensures KeptOf(a + b) == KeptOf(a) + KeptOf(b)
    decreases |a|
  {
    if |a| > 0 {
      assert (a + b)[0] == a[0];
      assert (a + b)[1..] == a[1..] + b;
      OfConcat(a[1..], b);
    } else {
      assert a + b == b;
    }
  }

  /** A subtree with nothing completed contributes no archive line, one
      with nothing pending no kept line. */
  lemma {:induction false} NoneBelow(t: Tree, d: nat)
    ensures !AnyCompleted(Preorder(t)) ==> ArchiveOf(Subtrees(t, d)) == []
    ensures !AnyPending(Preorder(t)) ==> KeptOf(Subtrees(t, d)) == []
    decreases t
  {
    AnyOfConcat([t.item], PreorderAll(t.kids));
    NoneBelowAll(t.kids, d + 1);
    OfConcat([(d, t)], SubtreesAll(t.kids, d + 1));
  }

  lemma {:induction false} NoneBelowAll(ts: seq<Tree>, d: nat)
    ensures !AnyCompleted(PreorderAll(ts)) ==> ArchiveOf(SubtreesAll(ts, d)) == []
    ensures !AnyPending(PreorderAll(ts)) ==> KeptOf(SubtreesAll(ts, d)) == []
    decreases ts
  {
    if |ts| > 0 {
      AnyOfConcat(Preorder(ts[0]), PreorderAll(ts[1..]));
      NoneBelow(ts[0], d);
      NoneBelowAll(ts[1..], d);
      OfConcat(Subtrees(ts[0], d), SubtreesAll(ts[1..], d));
    }
  }

  /** A node is deleted exactly when its subtree holds no pending item. */
  lemma {:induction false} DeleteIff(t: Tree)
    ensures Mark(t).flags.delete <==> !AnyPending(Preorder(t))
  {
    MarkFlags(t);
    AnyOfConcat([t.item], PreorderAll(t.kids));
    if !t.item.completed {
      assert ([t.item])[0] == t.item;
    }
  }

  /** `buildArchiveLines` yields exactly the flat archive: one line per
      subtree holding a completed item, pending ancestors included and
      shown done, each indented four spaces per level below `base`, in
      document order, and nothing else. */
  lemma {:induction false} ArchiveExact(t: Tree, base: nat)
    ensures Archive(Mark(t), base) == ArchiveOf(Subtrees(t, base))
    decreases t
  {
    MarkFlags(t);
    OfConcat([(base, t)], SubtreesAll(t.kids, base + 1));
    if Mark(t).flags.archive {
      ArchiveKidsExact(t.kids, base + 1);
    } else {
      NoneBelow(t, base);
    }
  }

  lemma {:induction false} ArchiveKidsExact(ts: seq<Tree>, d: nat)
    ensures ArchiveKids(MarkAll(ts), d) == ArchiveOf(SubtreesAll(ts, d))
    decreases ts
  {
    if |ts| > 0 {
      var ks := MarkAll(ts);
      assert ks[1..] == MarkAll(ts[1..]);
      MarkFlags(ts[0]);
      ArchiveKidsExact(ts[1..], d);
      OfConcat(Subtrees(ts[0], d), SubtreesAll(ts[1..], d));
      if ks[0].item.completed || ks[0].flags.hasCompleted {
        ArchiveExact(ts[0], d);
      } else {
        NoneBelow(ts[0], d);
      }
    }
  }

  /** `buildRetainedLines` yields exactly the flat kept lines: one line per
      subtree holding a pending item, reset to pending, in document order;
      the deleted nodes, and only they, are absent. */
  lemma {:induction false} RetainExact(t: Tree, d: nat)
    ensures Retain(Mark(t)) == KeptOf(Subtrees(t, d))
    decreases t
  {
    DeleteIff(t);
    OfConcat([(d, t)], SubtreesAll(t.kids, d + 1));
    if Mark(t).flags.delete {
      NoneBelow(t, d);
    } else {
      RetainKidsExact(t.kids, d + 1);
    }
  }

  lemma {:induction false} RetainKidsExact(ts: seq<Tree>, d: nat)
    ensures RetainKids(MarkAll(ts)) == KeptOf(SubtreesAll(ts, d))
    decreases ts
  {
    if |ts| > 0 {
      var ks := MarkAll(ts);
      assert ks[1..] == MarkAll(ts[1..]);
      DeleteIff(ts[0]);
      RetainKidsExact(ts[1..], d);
      OfConcat(Subtrees(ts[0], d), SubtreesAll(ts[1..], d));
      if ks[0].flags.delete {
        NoneBelow(ts[0], d);
      } else {
        RetainExact(ts[0], d);
      }
    }
  }
}
