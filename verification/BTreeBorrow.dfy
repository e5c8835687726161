/** A run in which a leaf borrows from its right neighbour, slot by slot (src/datastructure/btree.c, lines 489 to 524). */
module BTreeBorrow {
  import opened Wrappers
  import opened Folding
  import opened BTreeSpec
  import opened BTreeSlots
  import R = BTreeRuns
  import opened BTreeRepeats

  /** A leaf that has lost its last key and still holds it in its slot. */
  ghost function Lender(a: Entry, b: Entry): Tree {
    Node([a], [], [Tuple(b)] + Nulls(2))
  }

  ghost function Pair(l: Tree, k: Entry, r: Tree): Tree {
    Node([k], [l, r], Nulls(3))
  }

  /** An entry above all others of a leaf that has room goes to its end, over the first spare slot. */
  lemma {:induction false} PutLast(x: Tree, e: Entry)
    requires x.children == [] && 1 <= |x.keys| < 3 && x.keys[|x.keys| - 1].key <= e.key
    ensures Balanced(x, 2, 0) && InsertNonFull(x, e, 2, 0) == Node(x.keys + [e], [], From(x.spare, 1))
  {
    assert x.keys[..|x.keys|] + [e] + x.keys[|x.keys|..] == x.keys + [e];
  }

  /** The same in the right leaf under a root with one key. */
  lemma {:induction false} PutRight(x: Tree, e: Entry)
    requires |x.keys| == 1 && |x.children| == 2 && x.keys[0].key <= e.key && ValidTree(Root(x, 1), 2)
    requires var r := x.children[1]; 1 <= |r.keys| < 3 && r.keys[|r.keys| - 1].key <= e.key
    ensures var r := x.children[1];
            InsertTree(Root(x, 1), e, 2)
            == Root(Node(x.keys, [x.children[0], Node(r.keys + [e], [], From(r.spare, 1))], x.spare), 1)
  {
    var r := x.children[1];
    ChildBalanced(x, 1, 2, 1);
    PutLast(r, e);
    var c := Node(r.keys + [e], [], From(r.spare, 1));
    assert x.children[1 := c] == [x.children[0], c];
  }

  /** A full leaf of three keys becomes two under a new root, and the entry goes to the right. */
  lemma {:induction false} SplitLeaf(a: Entry, b: Entry, c: Entry, e: Entry)
    requires a.key <= b.key <= c.key <= e.key && b.key < e.key
    ensures ValidTree(Root(Leaf([a, b, c]), 0), 2)
    ensures InsertTree(Root(Leaf([a, b, c]), 0), e, 2) == Root(TwoLevels([a], b, [c, e]), 1)
  {
    var x := Leaf([a, b, c]);
    TwoLevelsValid([a], b, [c]);
    SplitThree(a, b, c);
    PutRight(TwoLevels([a], b, [c]), e);
    assert [c] + [e] == [c, e] && From(Nulls(3), 1) == Nulls(2);
    assert InsertPos([b], e.key) == 1;
  }

  lemma {:induction false} SplitThree(a: Entry, b: Entry, c: Entry)
    ensures Balanced(Leaf([a, b, c]), 2, 0) && SplitRoot(Leaf([a, b, c]), 2, 0) == TwoLevels([a], b, [c])
  {
    var x := Leaf([a, b, c]);
    assert LeftHalf(x, 2) == Leaf([a]) by {
      assert Nulls(2) + Nulls(1) == Nulls(3) && x.keys[..1] == [a];
    }
    assert RightHalf(x, 2) == Leaf([c]) by {
      assert x.keys[2..] == [c];
    }
    assert From(Nulls(4), 1) == Nulls(3);
  }

  /** The left leaf has one key and it goes: the right one lends, and the slot of its last key is cleared. */
  lemma {:induction false} BorrowThenRemove(a: Entry, b: Entry, c: Entry, d: Entry, e: Entry)
    requires a.key < b.key < c.key <= d.key <= e.key
    ensures ValidTree(Root(TwoLevels([a], b, [c, d, e]), 1), 2)
    ensures RemoveTree(Root(TwoLevels([a], b, [c, d, e]), 1), a.key, 2) == Root(TwoLevels([b], c, [d, e]), 1)
  {
    TwoLevelsValid([a], b, [c, d, e]);
    RemoveDown(TwoLevels([a], b, [c, d, e]), a, b, c, d, e);
  }

  lemma {:induction false} RemoveDown(x: Tree, a: Entry, b: Entry, c: Entry, d: Entry, e: Entry)
    requires x == TwoLevels([a], b, [c, d, e]) && Balanced(x, 2, 1) && a.key < b.key
    ensures Remove(x, a.key, 2, 1) == TwoLevels([b], c, [d, e])
  {
    DescendCases(x, a.key, 2, 1);
    assert FindPos([b], a.key) == 0;
    BorrowFilled(a, b, c, d, e);
    RemoveFirst(a, b);
    assert [Leaf([a, b]), Leaf([d, e])][0 := Leaf([b])] == [Leaf([b]), Leaf([d, e])];
  }

  lemma {:induction false} BorrowFilled(a: Entry, b: Entry, c: Entry, d: Entry, e: Entry)
    ensures var x := TwoLevels([a], b, [c, d, e]); Fillable(x, 0, 2) && FillStep(x, 0, 2) == TwoLevels([a, b], c, [d, e])
  {
    var x := TwoLevels([a], b, [c, d, e]);
    var l, r := x.children[0], x.children[1];
    assert Append(l, b, []) == Leaf([a, b]) by {
      assert [a] + [b] == [a, b] && From(Nulls(3), 1) == Nulls(2) && [] + [] == l.children;
    }
    assert DropFirst(r) == Leaf([d, e]) by {
      assert r.keys[1..] == [d, e] && [Null] + Nulls(1) == Nulls(2);
    }
    assert x.children[0 := Leaf([a, b])][1 := Leaf([d, e])] == [Leaf([a, b]), Leaf([d, e])];
  }

  lemma {:induction false} RemoveFirst(a: Entry, b: Entry)
    ensures Balanced(Leaf([a, b]), 2, 0) && Remove(Leaf([a, b]), a.key, 2, 0) == Leaf([b])
  {
    var ks := [a, b];
    assert FindPos(ks, a.key) == 0;
    assert ks[..0] + ks[1..] == [b] && [Null] + Nulls(2) == Nulls(3);
  }

  /** The last key of a leaf goes and stays behind in its slot. */
  lemma {:induction false} RemoveRight(b: Entry, c: Entry, d: Entry, e: Entry)
    requires b.key <= c.key < d.key < e.key
    ensures ValidTree(Root(TwoLevels([b], c, [d, e]), 1), 2)
    ensures RemoveTree(Root(TwoLevels([b], c, [d, e]), 1), e.key, 2)
            == Root(Node([c], [Leaf([b]), Node([d], [], [Tuple(e)] + Nulls(2))], Nulls(3)), 1)
  {
    var x := TwoLevels([b], c, [d, e]);
    TwoLevelsValid([b], c, [d, e]);
    DescendCases(x, e.key, 2, 1);
    assert FindPos([c], e.key) == 1 + FindPos([c][1..], e.key);
    RemoveSecond(d, e);
    var r := Node([d], [], [Tuple(e)] + Nulls(2));
    assert x.children[1 := r] == [Leaf([b]), r];
  }

  lemma {:induction false} RemoveSecond(d: Entry, e: Entry)
    requires d.key < e.key
    ensures Balanced(Leaf([d, e]), 2, 0)
    ensures Remove(Leaf([d, e]), e.key, 2, 0) == Node([d], [], [Tuple(e)] + Nulls(2))
  {
    var ks := [d, e];
    assert ks[1..] == [e] && FindPos([e], e.key) == 0;
    assert FindPos(ks, e.key) == 1 + FindPos(ks[1..], e.key);
    assert ks[..1] + ks[2..] == [d];
  }

  // ---------------------------------------------------------------- calls one after the other

  /** A call makes `y` of the tree `x`; folded. */
  ghost predicate Goes(x: Root, c: R.Call, y: Root) {
    forall i :: Look(i) ==> ValidTree(x, 2) && y == R.TreeStep(x, c, 2)
  }

  lemma {:induction false} GoIn(x: Root, e: Entry, y: Root)
    requires ValidTree(x, 2) && InsertTree(x, e, 2) == y
    ensures Goes(x, R.Insert(e), y)
  {}

  lemma {:induction false} GoOut(x: Root, k: int, y: Root)
    requires ValidTree(x, 2) && RemoveTree(x, k, 2) == y
    ensures Goes(x, R.Remove(k), y)
  {}

  /** A run of calls makes `y` of the tree `x`; folded. */
  ghost predicate Leads(x: Root, calls: seq<R.Call>, y: Root) {
    forall i :: Look(i) ==> ValidTree(x, 2) && y == R.TreeAfter(x, calls, 2)
  }

  lemma {:induction false} Chain(s: Root, calls: seq<R.Call>, x: Root, c: R.Call, y: Root)
    requires Leads(s, calls, x) && Goes(x, c, y)
    ensures Leads(s, calls + [c], y)
  {
    assert Look(0);
    assert (calls + [c])[..|calls|] == calls;
  }

  lemma {:induction false} FirstThree(a: Entry, b: Entry, c: Entry)
    requires a.key <= b.key <= c.key
    ensures Leads(Empty, [] + [R.Insert(a)] + [R.Insert(b)] + [R.Insert(c)], Root(Leaf([a, b, c]), 0))
  {
    PutLast(Leaf([a]), b);
    PutLast(Leaf([a, b]), c);
    assert [a] + [b] == [a, b] && From(Nulls(3), 1) == Nulls(2);
    assert [a, b] + [c] == [a, b, c] && From(Nulls(2), 1) == Nulls(1);
    GoIn(Empty, a, Root(Leaf([a]), 0));
    GoIn(Root(Leaf([a]), 0), b, Root(Leaf([a, b]), 0));
    GoIn(Root(Leaf([a, b]), 0), c, Root(Leaf([a, b, c]), 0));
    Chain(Empty, [], Empty, R.Insert(a), Root(Leaf([a]), 0));
    Chain(Empty, [] + [R.Insert(a)], Root(Leaf([a]), 0), R.Insert(b), Root(Leaf([a, b]), 0));
    Chain(Empty, [] + [R.Insert(a)] + [R.Insert(b)], Root(Leaf([a, b]), 0), R.Insert(c), Root(Leaf([a, b, c]), 0));
  }

  lemma {:induction false} FourthIn(a: Entry, b: Entry, c: Entry, d: Entry)
    requires a.key < b.key < c.key < d.key
    ensures Goes(Root(Leaf([a, b, c]), 0), R.Insert(d), Root(TwoLevels([a], b, [c, d]), 1))
  {
    SplitLeaf(a, b, c, d);
    GoIn(Root(Leaf([a, b, c]), 0), d, Root(TwoLevels([a], b, [c, d]), 1));
  }

  lemma {:induction false} FifthIn(a: Entry, b: Entry, c: Entry, d: Entry, e: Entry)
    requires a.key < b.key < c.key < d.key < e.key
    ensures Goes(Root(TwoLevels([a], b, [c, d]), 1), R.Insert(e), Root(TwoLevels([a], b, [c, d, e]), 1))
  {
    TwoLevelsValid([a], b, [c, d]);
    PutRight(TwoLevels([a], b, [c, d]), e);
    assert [c, d] + [e] == [c, d, e] && From(Nulls(2), 1) == Nulls(1);
    GoIn(Root(TwoLevels([a], b, [c, d]), 1), e, Root(TwoLevels([a], b, [c, d, e]), 1));
  }

  /** The run as far as it goes before the last insertion. */
  ghost function Calls(a: Entry, b: Entry, c: Entry, d: Entry, e: Entry): seq<R.Call> {
    [] + [R.Insert(a)] + [R.Insert(b)] + [R.Insert(c)] + [R.Insert(d)] + [R.Insert(e)] + [R.Remove(a.key)] + [R.Remove(e.key)]
  }

  lemma {:induction false} TwoOut(a: Entry, b: Entry, c: Entry, d: Entry, e: Entry)
    requires a.key < b.key < c.key < d.key < e.key
    ensures Leads(Empty, Calls(a, b, c, d, e), Root(Pair(Leaf([b]), c, Lender(d, e)), 1))
  {
    var three := [] + [R.Insert(a)] + [R.Insert(b)] + [R.Insert(c)];
    FirstThree(a, b, c);
    FourthIn(a, b, c, d);
    Chain(Empty, three, Root(Leaf([a, b, c]), 0), R.Insert(d), Root(TwoLevels([a], b, [c, d]), 1));
    FifthIn(a, b, c, d, e);
    Chain(Empty, three + [R.Insert(d)], Root(TwoLevels([a], b, [c, d]), 1), R.Insert(e), Root(TwoLevels([a], b, [c, d, e]), 1));
    var five := three + [R.Insert(d)] + [R.Insert(e)];
    FirstOut(a, b, c, d, e);
    Chain(Empty, five, Root(TwoLevels([a], b, [c, d, e]), 1), R.Remove(a.key), Root(TwoLevels([b], c, [d, e]), 1));
    LastOut(b, c, d, e);
    Chain(Empty, five + [R.Remove(a.key)], Root(TwoLevels([b], c, [d, e]), 1), R.Remove(e.key),
          Root(Pair(Leaf([b]), c, Lender(d, e)), 1));
  }

  lemma {:induction false} FirstOut(a: Entry, b: Entry, c: Entry, d: Entry, e: Entry)
    requires a.key < b.key < c.key <= d.key <= e.key
    ensures Goes(Root(TwoLevels([a], b, [c, d, e]), 1), R.Remove(a.key), Root(TwoLevels([b], c, [d, e]), 1))
  {
    BorrowThenRemove(a, b, c, d, e);
    GoOut(Root(TwoLevels([a], b, [c, d, e]), 1), a.key, Root(TwoLevels([b], c, [d, e]), 1));
  }

  lemma {:induction false} LastOut(b: Entry, c: Entry, d: Entry, e: Entry)
    requires b.key <= c.key < d.key < e.key
    ensures Goes(Root(TwoLevels([b], c, [d, e]), 1), R.Remove(e.key), Root(Pair(Leaf([b]), c, Lender(d, e)), 1))
  {
    RemoveRight(b, c, d, e);
    GoOut(Root(TwoLevels([b], c, [d, e]), 1), e.key, Root(Pair(Leaf([b]), c, Lender(d, e)), 1));
  }

  /** What goes to the end of a leaf that has kept a key goes over it. */
  lemma {:induction false} PutOver(l: Tree, k: Entry, a: Entry, b: Entry, e: Entry)
    requires ValidTree(Root(Pair(l, k, Lender(a, b)), 1), 2) && k.key <= e.key && a.key <= e.key
    ensures Goes(Root(Pair(l, k, Lender(a, b)), 1), R.Insert(e), Root(Pair(l, k, Leaf([a, e])), 1))
  {
    PutRight(Pair(l, k, Lender(a, b)), e);
    assert [a] + [e] == [a, e] && From(Lender(a, b).spare, 1) == Nulls(2);
    GoIn(Root(Pair(l, k, Lender(a, b)), 1), e, Root(Pair(l, k, Leaf([a, e])), 1));
  }

  lemma {:induction false} Reached(s: Root, calls: seq<R.Call>, x: Root)
    requires Leads(s, calls, x)
    ensures ValidTree(s, 2) && R.TreeAfter(s, calls, 2) == x && ValidTree(x, 2)
  {
    assert Look(0);
  }

  /**
   Minimum degree 2, five keys in, the first and the last out, and one in again below the last: the leaf that lent a key on
   the way has kept nothing, so the last key is not found. Before that insertion it still is.
   */
  lemma {:induction false} RemovedKeyNotFound(a: Entry, b: Entry, c: Entry, d: Entry, e: Entry, f: Entry, v: int)
    requires a.key < b.key < c.key < d.key < f.key < e.key
    ensures var x := R.TreeAfter(Empty, Calls(a, b, c, d, e), 2);
            && R.TreeReply(x, R.Lookup(e.key), 2) == R.Found(Some(e.val))
            && R.TreeReply(R.TreeStep(x, R.Insert(f), 2), R.Lookup(e.key), 2) == R.Found(None)
            && R.TreeReply(R.TreeStep(x, R.Insert(f), 2), R.Update(e.key, v), 2) == R.Told(false)
  {
    var x, y := Pair(Leaf([b]), c, Lender(d, e)), Pair(Leaf([b]), c, Leaf([d, f]));
    TwoOut(a, b, c, d, e);
    Reached(Empty, Calls(a, b, c, d, e), Root(x, 1));
    PutOver(Leaf([b]), c, d, e, f);
    assert Look(0);
    Met(x, Lender(d, e), e);
    NotMet(y, Leaf([d, f]), e);
  }

  lemma {:induction false} Met(x: Tree, r: Tree, e: Entry)
    requires |x.keys| == 1 && x.spare == Nulls(3) && |x.children| == 2 && x.children[1] == r && x.keys[0].key < e.key
    requires |r.keys| == 1 && r.keys[0].key < e.key && r.spare != [] && r.spare[0] == Tuple(e)
    ensures Stale(x, e.key) == Some(e)
  {
    assert FindPos(x.keys, e.key) == 1 && FindPos(r.keys, e.key) == 1;
  }

  lemma {:induction false} NotMet(x: Tree, r: Tree, e: Entry)
    requires |x.keys| == 1 && x.spare == Nulls(3) && |x.children| == 2 && x.children[1] == r && x.keys[0].key < e.key
    requires |r.keys| == 2 && r.keys[0].key < e.key && r.keys[1].key < e.key && r.spare == Nulls(2) && r.children == []
    requires Balanced(x, 2, 1)
    ensures Stale(x, e.key) == None && Search(x, e.key, 2, 1) == None
  {
    assert FindPos(x.keys, e.key) == 1 && FindPos(r.keys, e.key) == 2;
  }

  // ---------------------------------------------------------------- a run that borrows from the left

  lemma {:induction false} LendFilled(a: Entry, b: Entry, m: Entry, c: Entry)
    ensures var x := TwoLevels([a, b], m, [c]);
            Fillable(x, 1, 2) && FillStep(x, 1, 2) == Pair(Lender(a, b), b, Leaf([m, c]))
  {
    var x := TwoLevels([a, b], m, [c]);
    var l, r := x.children[0], x.children[1];
    assert DropLast(l) == Lender(a, b) by {
      assert l.keys[..1] == [a];
    }
    assert Prepend([], m, r) == Leaf([m, c]) by {
      assert [m] + [c] == [m, c] && From(Nulls(3), 1) == Nulls(2) && [] + [] == r.children;
    }
    assert x.children[0 := Lender(a, b)][1 := Leaf([m, c])] == [Lender(a, b), Leaf([m, c])];
  }

  lemma {:induction false} LendThenRemove(a: Entry, b: Entry, m: Entry, c: Entry)
    requires a.key < b.key < m.key < c.key
    ensures ValidTree(Root(TwoLevels([a, b], m, [c]), 1), 2)
    ensures RemoveTree(Root(TwoLevels([a, b], m, [c]), 1), c.key, 2) == Root(Pair(Lender(a, b), b, Lender(m, c)), 1)
  {
    TwoLevelsValid([a, b], m, [c]);
    RemoveLent(TwoLevels([a, b], m, [c]), a, b, m, c);
  }

  lemma {:induction false} RemoveLent(x: Tree, a: Entry, b: Entry, m: Entry, c: Entry)
    requires x == TwoLevels([a, b], m, [c]) && Balanced(x, 2, 1) && m.key < c.key
    ensures Remove(x, c.key, 2, 1) == Pair(Lender(a, b), b, Lender(m, c))
  {
    DescendCases(x, c.key, 2, 1);
    assert FindPos(x.keys, c.key) == 1;
    LendFilled(a, b, m, c);
    RemoveSecond(m, c);
    assert [Lender(a, b), Leaf([m, c])][1 := Lender(m, c)] == [Lender(a, b), Lender(m, c)];
  }

  /** The key that was lent goes from the parent, and its successor takes its place. */
  lemma {:induction false} RemoveFromParent(a: Entry, b: Entry, m: Entry, f: Entry)
    requires a.key < b.key < m.key < f.key && ValidTree(Root(Pair(Lender(a, b), b, Leaf([m, f])), 1), 2)
    ensures RemoveTree(Root(Pair(Lender(a, b), b, Leaf([m, f])), 1), b.key, 2) == Root(Pair(Lender(a, b), m, Leaf([f])), 1)
  {
    var x := Pair(Lender(a, b), b, Leaf([m, f]));
    InnerCases(x, 0, 2, 1);
    assert FindPos(x.keys, b.key) == 0;
    RemoveFirst(m, f);
    assert x.children[1 := Leaf([f])] == [Lender(a, b), Leaf([f])] && x.keys[0 := m] == [m];
  }

  /**
   Minimum degree 2: the left leaf lends its last key, which goes up, and keeps it in its slot; once the key has gone from
   the parent a search for it comes to that slot, finds it, and an update of it answers true.
   */
  lemma {:induction false} LentKeyFound(a: Entry, b: Entry, m: Entry, c: Entry, f: Entry, v: int)
    requires a.key < b.key < m.key < c.key && m.key < f.key
    ensures var x := Root(TwoLevels([a, b], m, [c]), 1); var calls := [R.Remove(c.key)] + [R.Insert(f)] + [R.Remove(b.key)];
            && ValidTree(x, 2) && CleanTree(x)
            && R.TreeReply(R.TreeAfter(x, calls, 2), R.Lookup(b.key), 2) == R.Found(Some(b.val))
            && R.TreeReply(R.TreeAfter(x, calls, 2), R.Update(b.key, v), 2) == R.Told(true)
            && !Has(Contents(R.TreeAfter(x, calls, 2)), b.key)
  {
    var x, w := Root(TwoLevels([a, b], m, [c]), 1), Root(Pair(Lender(a, b), m, Leaf([f])), 1);
    ThreeCalls(a, b, m, c, f);
    Reached(x, [] + [R.Remove(c.key)] + [R.Insert(f)] + [R.Remove(b.key)], w);
    assert [] + [R.Remove(c.key)] == [R.Remove(c.key)];
    CleanStart(a, b, m, c);
    GoneButMet(w, a, b, m, f, v);
  }

  lemma {:induction false} CleanStart(a: Entry, b: Entry, m: Entry, c: Entry)
    ensures CleanTree(Root(TwoLevels([a, b], m, [c]), 1))
  {}

  lemma {:induction false} GoneButMet(w: Root, a: Entry, b: Entry, m: Entry, f: Entry, v: int)
    requires w == Root(Pair(Lender(a, b), m, Leaf([f])), 1) && ValidTree(w, 2) && a.key < b.key < m.key < f.key
    ensures R.TreeReply(w, R.Lookup(b.key), 2) == R.Found(Some(b.val))
    ensures R.TreeReply(w, R.Update(b.key, v), 2) == R.Told(true) && !Has(Contents(w), b.key)
  {
    StaleLent(w.tree, a, b, m);
    PairFlat(Lender(a, b), m, Leaf([f]));
  }

  lemma {:induction false} ThreeCalls(a: Entry, b: Entry, m: Entry, c: Entry, f: Entry)
    requires a.key < b.key < m.key < c.key && m.key < f.key
    ensures Leads(Root(TwoLevels([a, b], m, [c]), 1), [] + [R.Remove(c.key)] + [R.Insert(f)] + [R.Remove(b.key)],
                  Root(Pair(Lender(a, b), m, Leaf([f])), 1))
  {
    var x, y := Root(TwoLevels([a, b], m, [c]), 1), Root(Pair(Lender(a, b), b, Lender(m, c)), 1);
    var z, w := Root(Pair(Lender(a, b), b, Leaf([m, f])), 1), Root(Pair(Lender(a, b), m, Leaf([f])), 1);
    LendThenRemove(a, b, m, c);
    Start(x);
    GoOut(x, c.key, y);
    Chain(x, [], x, R.Remove(c.key), y);
    Reached(x, [] + [R.Remove(c.key)], y);
    PutOver(Lender(a, b), b, m, c, f);
    Chain(x, [] + [R.Remove(c.key)], y, R.Insert(f), z);
    Reached(x, [] + [R.Remove(c.key)] + [R.Insert(f)], z);
    RemoveFromParent(a, b, m, f);
    GoOut(z, b.key, w);
    Chain(x, [] + [R.Remove(c.key)] + [R.Insert(f)], z, R.Remove(b.key), w);
  }

  lemma {:induction false} Start(x: Root)
    requires ValidTree(x, 2)
    ensures Leads(x, [], x)
  {}

  lemma {:induction false} StaleLent(w: Tree, a: Entry, b: Entry, m: Entry)
    requires w.keys == [m] && |w.children| == 2 && w.children[0] == Lender(a, b) && a.key < b.key < m.key
    ensures Stale(w, b.key) == Some(b)
  {
    assert FindPos(w.keys, b.key) == 0 && FindPos(Lender(a, b).keys, b.key) == 1;
  }

  lemma {:induction false} PairFlat(l: Tree, k: Entry, r: Tree)
    requires l.children == [] && r.children == []
    ensures Flat(Pair(l, k, r)) == l.keys + [k] + r.keys
  {
    var x := Pair(l, k, r);
    assert x.children[1..] == [r] && [k][1..] == [] && [r][1..] == [];
    assert After([k], [r]) == [k] + Flat(r) + After([], []);
  }
}
