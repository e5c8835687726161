/** The B-tree of src/datastructure/btree.c: nodes with fixed slot arrays, changed in place. */
module BTree {
  import opened Wrappers
  import opened Folding
  import opened BTreeSpec
  import opened BTreeSlots

  /** What a node stands for: its value, the objects in the children slots in use, and everything the subtrees are made of. */
  datatype View = View(tree: Tree, kids: seq<BNode>, below: set<object>)

  /** struct btree_node. The arrays have one slot more than a node may use (the sentinel). */
  class BNode {
    const keys: array<Slot>
    const children: array<BNode?>
    var keyCount: int
    var isLeaf: bool
    ghost var view: View

    /** The key slots, in use or not, and the children slots in use hold exactly what `v` says. */
    ghost predicate Holds(t: nat, h: nat, v: View)
      reads this, keys, children
    {
      && keys.Length == 2 * t == children.Length
      && |v.tree.keys| == keyCount <= 2 * t - 1 && |v.tree.spare| == 2 * t - keyCount
      && isLeaf == (h == 0)
      && |v.tree.children| == |v.kids| == (if h == 0 then 0 else keyCount + 1)
      && (forall i :: 0 <= i < keyCount ==> keys[i] == Tuple(v.tree.keys[i]))
      && (forall i :: 0 <= i < |v.kids| ==> children[i] == v.kids[i])
      && (forall i :: keyCount <= i < 2 * t ==> keys[i] == v.tree.spare[i - keyCount])
    }

    ghost function Repr(): set<object>
      reads this
    {
      {this, keys, children} + view.below
    }

    /** The node shows its view and owns what it is made of: its arrays and, apart from them, its subtrees. */
    ghost predicate Valid(t: nat, h: nat)
      reads this, keys, children, view.below
      decreases h, 2
    {
      Holds(t, h, view) && Outside(view.below) && Grown(view, t, h)
    }

    ghost predicate Outside(u: set<object>) {
      this !in u && keys !in u && children !in u
    }

    constructor (t: nat)
      requires 1 <= t
      ensures fresh(this) && fresh(keys) && fresh(children)
      ensures view == View(Node([], [], Nulls(2 * t)), [], {}) && Holds(t, 0, view) && keyCount == 0
    {
      keys := new Slot[2 * t](_ => Null);
      children := new BNode?[2 * t](_ => null);
      keyCount, isLeaf := 0, true;
      view := View(Node([], [], Nulls(2 * t)), [], {});
    }
  }

  /** The children named by a view are there. */
  ghost predicate Grown(v: View, t: nat, h: nat)
    reads v.below
    decreases h, 1
  {
    Forest(v.kids, v.tree.children, t, h, v.below)
  }

  /** Neighbouring subtrees with the values `ts`, children of a node of height `h`, which share nothing and make up `u`. */
  ghost predicate Forest(ks: seq<BNode>, ts: seq<Tree>, t: nat, h: nat, u: set<object>)
    reads u
    decreases h, 0, |ks|
  {
    if ks == [] then ts == [] && u == {} else
      && |ts| == |ks| && h > 0
      && ks[0] in u && ks[0].Repr() <= u
      && ks[0].Valid(t, h - 1) && ks[0].view.tree == ts[0]
      && Forest(ks[1..], ts[1..], t, h, u - ks[0].Repr())
  }

  /** A forest falls apart into two that share nothing. */
  lemma {:induction false} ForestSplit(a: seq<BNode>, ta: seq<Tree>, b: seq<BNode>, tb: seq<Tree>, t: nat, h: nat, u: set<object>)
    returns (ua: set<object>, ub: set<object>)
    requires |a| == |ta| && Forest(a + b, ta + tb, t, h, u)
    ensures Forest(a, ta, t, h, ua) && Forest(b, tb, t, h, ub)
    ensures ua !! ub && ua + ub == u
  {
    if a == [] {
      assert a + b == b && ta + tb == tb;
      ua, ub := {}, u;
    } else {
      assert (a + b)[1..] == a[1..] + b && (ta + tb)[1..] == ta[1..] + tb;
      ua, ub := ForestSplit(a[1..], ta[1..], b, tb, t, h, u - a[0].Repr());
      assert ua + a[0].Repr() - a[0].Repr() == ua;
      ua := ua + a[0].Repr();
    }
  }

  lemma {:induction false} ForestJoin(a: seq<BNode>, ta: seq<Tree>, ua: set<object>, b: seq<BNode>, tb: seq<Tree>, ub: set<object>,
                                      t: nat, h: nat)
    requires Forest(a, ta, t, h, ua) && Forest(b, tb, t, h, ub) && ua !! ub
    ensures Forest(a + b, ta + tb, t, h, ua + ub)
  {
    if a == [] {
      assert a + b == b && ta + tb == tb && ua + ub == ub;
    } else {
      assert (a + b)[1..] == a[1..] + b && (ta + tb)[1..] == ta[1..] + tb;
      ForestJoin(a[1..], ta[1..], ua - a[0].Repr(), b, tb, ub, t, h);
      assert ua - a[0].Repr() + ub == ua + ub - a[0].Repr();
    }
  }

  lemma {:induction false} ForestOne(c: BNode, t: nat, h: nat)
    requires 0 < h && c.Valid(t, h - 1)
    ensures Forest([c], [c.view.tree], t, h, c.Repr())
  {
    assert c.Repr() - c.Repr() == {};
  }

  /** One tree of a forest. */
  lemma {:induction false} ForestAt(ks: seq<BNode>, ts: seq<Tree>, i: nat, t: nat, h: nat, u: set<object>)
    requires i < |ks| && Forest(ks, ts, t, h, u)
    ensures 0 < h && |ts| == |ks| && ks[i] in u && ks[i].Repr() <= u
    ensures ks[i].Valid(t, h - 1) && ks[i].view.tree == ts[i]
  {
    if i > 0 {
      ForestAt(ks[1..], ts[1..], i - 1, t, h, u - ks[0].Repr());
    }
  }

  // ---------------------------------------------------------------- the loops over slots

  /** Moves `n` slots from `from` on in `src` to the front of `dst`, zeroing them behind. */
  method MoveOut<T>(src: array<T>, from: nat, dst: array<T>, n: nat, zero: T)
    requires src != dst && from + n <= src.Length && n <= dst.Length
    modifies src, dst
    ensures forall j :: 0 <= j < dst.Length ==> dst[j] == if j < n then old(src[from + j]) else old(dst[j])
    ensures forall j :: 0 <= j < src.Length ==> src[j] == if from <= j < from + n then zero else old(src[j])
  {
    for j := 0 to n
      invariant forall q :: 0 <= q < dst.Length ==> dst[q] == if q < j then old(src[from + q]) else old(dst[q])
      invariant forall q :: 0 <= q < src.Length ==> src[q] == if from <= q < from + j then zero else old(src[q])
    {
      dst[j] := src[j + from];
      src[j + from] := zero;
    }
  }

  /** Moves the slots lo..hi one place up, from the last one down. */
  method ShiftUp<T>(a: array<T>, lo: nat, hi: nat)
    requires lo <= hi < a.Length
    modifies a
    ensures forall j :: 0 <= j < a.Length ==> a[j] == if lo < j <= hi then old(a[j - 1]) else old(a[j])
  {
    var j := hi;
    while j > lo
      invariant lo <= j <= hi
      invariant forall q :: 0 <= q < a.Length ==> a[q] == if j < q <= hi then old(a[q - 1]) else old(a[q])
    {
      a[j] := a[j - 1];
      j := j - 1;
    }
  }

  /** Slots `lo` to `hi` move up by one and `x` takes the first place. */
  method PutSlot<T>(a: array<T>, lo: nat, hi: nat, x: T)
    requires lo <= hi < a.Length
    modifies a
    ensures forall j :: 0 <= j < a.Length ==>
              a[j] == if j == lo then x else if lo < j <= hi then old(a[j - 1]) else old(a[j])
  {
    ShiftUp(a, lo, hi);
    a[lo] := x;
  }

  /** Moves the slots lo..hi one place down, from the first one up. */
  method ShiftDown<T>(a: array<T>, lo: nat, hi: nat)
    requires 1 <= lo <= hi <= a.Length
    modifies a
    ensures forall j :: 0 <= j < a.Length ==> a[j] == if lo - 1 <= j < hi - 1 then old(a[j + 1]) else old(a[j])
  {
    for i := lo to hi
      invariant forall q :: 0 <= q < a.Length ==> a[q] == if lo - 1 <= q < i - 1 then old(a[q + 1]) else old(a[q])
    {
      a[i - 1] := a[i];
    }
  }

  /** The same, zeroing each slot after it has been copied. */
  method ShiftDownZeroing<T>(a: array<T>, lo: nat, hi: nat, zero: T)
    requires 1 <= lo <= hi <= a.Length
    modifies a
    ensures forall j :: 0 <= j < a.Length ==>
      a[j] == if lo - 1 <= j < hi - 1 then old(a[j + 1]) else if lo < hi && j == hi - 1 then zero else old(a[j])
  {
    for i := lo to hi
      invariant forall q :: 0 <= q < a.Length ==>
        a[q] == if lo - 1 <= q < i - 1 then old(a[q + 1]) else if lo < i && q == i - 1 then zero else old(a[q])
    {
      a[i - 1] := a[i];
      a[i] := zero;
    }
  }

  // ---------------------------------------------------------------- lookup

  /** The loop of btree_search and of btree_node_find_key: the first key not below `k`. */
  method FindKey(t: nat, ghost h: nat, x: BNode, k: int) returns (i: nat)
    requires x.Valid(t, h)
    ensures i == FindPos(x.view.tree.keys, k)
  {
    i := 0;
    while i < x.keyCount && x.keys[i].entry.key < k
      invariant 0 <= i <= x.keyCount
      invariant FindPos(x.view.tree.keys, k) == i + FindPos(x.view.tree.keys[i..], k)
    {
      i := i + 1;
    }
  }

  /** The child at one place of a node. */
  lemma {:induction false} KidAt(x: BNode, i: nat, t: nat, h: nat)
    requires 0 < h && x.Valid(t, h) && i <= |x.view.tree.keys|
    ensures |x.view.kids| == |x.view.tree.children| == |x.view.tree.keys| + 1 && x.children.Length > i
    ensures x.children[i] == x.view.kids[i] && x.view.kids[i] in x.view.below && x.view.kids[i].Repr() <= x.view.below
    ensures x.view.kids[i].Valid(t, h - 1) && x.view.kids[i].view.tree == x.view.tree.children[i]
  {
    ForestAt(x.view.kids, x.view.tree.children, i, t, h, x.view.below);
  }

  /** btree_search, which also looks at slot key_count when every key is smaller. */
  method NodeSearch(t: nat, ghost h: nat, x: BNode, k: int) returns (r: Option<Entry>)
    requires x.Valid(t, h) && Balanced(x.view.tree, t, h)
    ensures r == if Stale(x.view.tree, k).Some? then Stale(x.view.tree, k) else Search(x.view.tree, k, t, h)
    decreases h
  {
    var i := FindKey(t, h, x, k);
    if x.keys[i] != Null && x.keys[i].entry.key == k {
      return Some(x.keys[i].entry);
    }
    if x.isLeaf {
      return None;
    }
    KidAt(x, i, t, h);
    ChildBalanced(x.view.tree, i, t, h);
    r := NodeSearch(t, h - 1, x.children[i], k);
  }

  /** btree_update, below the root. A stale slot takes the new value and nothing else changes. */
  method NodeUpdate(t: nat, ghost h: nat, x: BNode, k: int, v: int) returns (ok: bool)
    requires x.Valid(t, h) && Balanced(x.view.tree, t, h)
    modifies x`view, x.keys, x.view.below
    ensures x.Valid(t, h) && x.view.below == old(x.view).below
    ensures x.view.tree == Write(old(x.view).tree, k, v, t, h)
    ensures ok <==> Stale(old(x.view).tree, k).Some? || Search(old(x.view).tree, k, t, h).Some?
    decreases h, 1
  {
    var i := FindKey(t, h, x, k);
    if x.keys[i] != Null && x.keys[i].entry.key == k {
      ok := true;
      UpdateSlot(t, h, x, i, k, v);
    } else if x.isLeaf {
      ok := false;
    } else {
      ChildBalanced(x.view.tree, i, t, h);
      KidAt(x, i, t, h);
      ok := UpdateChild(t, h, x, i, k, v);
    }
  }

  /** The search has stopped at a slot, in use or not. */
  method UpdateSlot(t: nat, ghost h: nat, x: BNode, i: nat, k: int, v: int)
    requires x.Valid(t, h) && Balanced(x.view.tree, t, h) && i == FindPos(x.view.tree.keys, k) < x.keys.Length
    requires x.keys[i] != Null && x.keys[i].entry.key == k
    modifies x`view, x.keys
    ensures x.Valid(t, h) && x.view.below == old(x.view).below && x.view.tree == Write(old(x.view).tree, k, v, t, h)
  {
    if i < x.keyCount {
      SetValue(t, h, x, i, v);
    } else {
      SetStale(t, h, x, i, Entry(k, v));
    }
  }

  method SetValue(t: nat, ghost h: nat, x: BNode, i: nat, v: int)
    requires x.Valid(t, h) && i < x.keyCount
    modifies x`view, x.keys
    ensures var e := Entry(old(x.view).tree.keys[i].key, v);
            x.Valid(t, h) && x.view == old(x.view).(tree := old(x.view).tree.(keys := old(x.view).tree.keys[i := e]))
  {
    x.keys[i] := Tuple(Entry(x.keys[i].entry.key, v));
    ghost var e := Entry(x.view.tree.keys[i].key, v);
    Seal(x, t, h, x.view.(tree := x.view.tree.(keys := x.view.tree.keys[i := e])));
  }

  /** The slot right behind the keys takes a new value. */
  method SetStale(t: nat, ghost h: nat, x: BNode, i: nat, e: Entry)
    requires x.Valid(t, h) && i == x.keyCount < x.keys.Length && x.keys[i] != Null
    modifies x`view, x.keys
    ensures var s := old(x.view).tree.spare;
            s != [] && x.Valid(t, h) && x.view == old(x.view).(tree := old(x.view).tree.(spare := s[0 := Tuple(e)]))
  {
    x.keys[i] := Tuple(e);
    Seal(x, t, h, x.view.(tree := x.view.tree.(spare := x.view.tree.spare[0 := Tuple(e)])));
  }

  method UpdateChild(t: nat, ghost h: nat, x: BNode, i: nat, k: int, v: int) returns (ok: bool)
    requires 0 < h && x.Valid(t, h) && i <= x.keyCount && Balanced(x.view.tree.children[i], t, h - 1)
    requires x.view.kids[i].Valid(t, h - 1)
    modifies x`view, x.view.below
    ensures x.Valid(t, h) && x.view.below == old(x.view).below
    ensures x.view.tree == WithChild(old(x.view).tree, i, Write(old(x.view).tree.children[i], k, v, t, h - 1))
    ensures ok <==> Stale(old(x.view).tree.children[i], k).Some? || Search(old(x.view).tree.children[i], k, t, h - 1).Some?
    decreases h, 0
  {
    ghost var w := x.view;
    ghost var u := Focus(w, i, t, h);
    ok := NodeUpdate(t, h - 1, x.children[i], k, v);
    Refocus(w, i, u, t, h);
    Seal(x, t, h, BelowWith(w, i, w.kids[i].view.tree, u + w.kids[i].Repr()));
  }

  // ---------------------------------------------------------------- insertion

  /** The loop of the leaf branch of btree_insert_nonfull: keys above `k` move up by one. */
  method MakeRoom(keys: array<Slot>, ghost ks: seq<Entry>, n: nat, k: int) returns (p: nat)
    requires n == |ks| < keys.Length && forall i :: 0 <= i < n ==> keys[i] == Tuple(ks[i])
    modifies keys
    ensures p == InsertPos(ks, k)
    ensures forall j :: 0 <= j < keys.Length ==> keys[j] == if p < j <= n then old(keys[j - 1]) else old(keys[j])
  {
    var i := n - 1;
    while i >= 0 && keys[i].entry.key > k
      invariant -1 <= i < n
      invariant forall j :: i < j < n ==> ks[j].key > k
      invariant forall j :: 0 <= j < keys.Length ==>
        keys[j] == if i + 1 < j <= n then old(keys[j - 1]) else old(keys[j])
    {
      assert keys[i] == Tuple(ks[i]);
      keys[i + 1] := keys[i];
      i := i - 1;
    }
    p := i + 1;
    PosIs(ks, k, p);
  }

  lemma {:induction false} PosIs(ks: seq<Entry>, k: int, p: nat)
    requires p <= |ks| && (p > 0 ==> ks[p - 1].key <= k) && forall j :: p <= j < |ks| ==> ks[j].key > k
    ensures p == InsertPos(ks, k)
  {}

  /** The slots hold these entries and, behind them, what `spare` says. */
  ghost predicate Shows(a: array<Slot>, ks: seq<Entry>, spare: seq<Slot>)
    reads a
  {
    && |ks| + |spare| == a.Length && (forall i :: 0 <= i < |ks| ==> a[i] == Tuple(ks[i]))
    && forall i :: |ks| <= i < a.Length ==> a[i] == spare[i - |ks|]
  }

  /** An entry takes its place among `n` others. */
  method PutInOrder(keys: array<Slot>, n: nat, e: Entry, ghost ks: seq<Entry>, ghost spare: seq<Slot>)
    requires n == |ks| < keys.Length && Shows(keys, ks, spare)
    modifies keys
    ensures var p := InsertPos(ks, e.key); Shows(keys, ks[..p] + [e] + ks[p..], From(spare, 1))
  {
    var p := PutAfter(keys, ks, n, e);
  }

  method PutAfter(keys: array<Slot>, ghost ks: seq<Entry>, n: nat, e: Entry) returns (p: nat)
    requires n == |ks| < keys.Length && forall i :: 0 <= i < n ==> keys[i] == Tuple(ks[i])
    modifies keys
    ensures p == InsertPos(ks, e.key)
    ensures forall j :: 0 <= j < keys.Length ==>
              keys[j] == if j == p then Tuple(e) else if p < j <= n then old(keys[j - 1]) else old(keys[j])
  {
    p := MakeRoom(keys, ks, n, e.key);
    keys[p] := Tuple(e);
  }

  /** The leaf branch of btree_insert_nonfull. */
  method InsertLeaf(t: nat, x: BNode, e: Entry)
    requires 2 <= t && x.Valid(t, 0) && x.keyCount < 2 * t - 1
    modifies x, x.keys
    ensures var ks := old(x.view).tree.keys;
            var p := InsertPos(ks, e.key);
            x.Valid(t, 0) && x.view == old(x.view).(tree := Node(ks[..p] + [e] + ks[p..], [], From(old(x.view).tree.spare, 1)))
  {
    ghost var ks, p := x.view.tree.keys, InsertPos(x.view.tree.keys, e.key);
    PutInOrder(x.keys, x.keyCount, e, ks, x.view.tree.spare);
    x.keyCount := x.keyCount + 1;
    Seal(x, t, 0, x.view.(tree := Node(ks[..p] + [e] + ks[p..], [], From(x.view.tree.spare, 1))));
  }

  /** Gives a node whose slots are in place its view. */
  ghost method Seal(x: BNode, t: nat, h: nat, v: View)
    requires x.Holds(t, h, v) && x.Outside(v.below) && Grown(v, t, h)
    modifies x`view
    ensures x.Valid(t, h) && x.view == v
  {
    x.view := v;
  }

  /** The same for two nodes that share nothing. */
  ghost method SealTwo(x: BNode, v: View, y: BNode, w: View, t: nat, h: nat)
    requires x.Holds(t, h, v) && x.Outside(v.below) && x.Outside(w.below) && Grown(v, t, h)
    requires y.Holds(t, h, w) && y.Outside(w.below) && y.Outside(v.below) && Grown(w, t, h)
    requires x != y && x.keys != y.keys && x.children != y.children && v.below !! w.below
    modifies x`view, y`view
    ensures x.Valid(t, h) && x.view == v && y.Valid(t, h) && y.view == w
    ensures x.Repr() !! y.Repr()
  {
    x.view := v;
    y.view := w;
  }

  ghost function LowerView(v: View, t: nat, h: nat, below: set<object>): View
    requires 2 <= t && |v.tree.keys| == 2 * t - 1 && |v.tree.children| == |v.kids| == if h == 0 then 0 else 2 * t
  {
    View(LeftHalf(v.tree, t), if h == 0 then [] else v.kids[..t], below)
  }

  ghost function UpperView(v: View, t: nat, h: nat, below: set<object>): View
    requires 2 <= t && |v.tree.keys| == 2 * t - 1 && |v.tree.children| == |v.kids| == if h == 0 then 0 else 2 * t
  {
    View(RightHalf(v.tree, t), if h == 0 then [] else v.kids[t..], below)
  }

  /** The slot moves of btree_split_child between the full node `y` and the new node `z`. */
  method Halve(t: nat, ghost h: nat, y: BNode, ghost v: View, ghost lo: set<object>, ghost hi: set<object>)
    returns (z: BNode, mid: Slot)
    requires 2 <= t && y.keyCount == 2 * t - 1 && y.Holds(t, h, v)
    modifies y, y.keys, y.children
    ensures mid == Tuple(v.tree.keys[t - 1]) && fresh(z) && fresh(z.keys) && fresh(z.children)
    ensures y.Holds(t, h, LowerView(v, t, h, lo)) && z.Holds(t, h, UpperView(v, t, h, hi))
  {
    z := new BNode(t);
    z.isLeaf := y.isLeaf;
    z.keyCount := t - 1;
    mid := HalveKeys(y.keys, z.keys, t, v.tree.keys, v.tree.spare);
    if !y.isLeaf {
      HalveKids(y.children, z.children, t, v.kids);
    }
    y.keyCount := t - 1;
  }

  method HalveKeys(a: array<Slot>, b: array<Slot>, t: nat, ghost ks: seq<Entry>, ghost spare: seq<Slot>) returns (mid: Slot)
    requires 2 <= t && a != b && a.Length == b.Length == 2 * t && |ks| == 2 * t - 1
    requires Shows(a, ks, spare) && Shows(b, [], Nulls(2 * t))
    modifies a, b
    ensures mid == Tuple(ks[t - 1]) && Shows(a, ks[..t - 1], Nulls(t) + spare) && Shows(b, ks[t..], Nulls(t + 1))
  {
    MoveOut(a, t, b, t - 1, Null);
    mid := a[t - 1];
    a[t - 1] := Null;
  }

  method HalveKids(a: array<BNode?>, b: array<BNode?>, t: nat, ghost kids: seq<BNode>)
    requires a != b && a.Length == b.Length == 2 * t == |kids| && forall i :: 0 <= i < |kids| ==> a[i] == kids[i]
    modifies a, b
    ensures forall i :: 0 <= i < t ==> a[i] == kids[..t][i] && b[i] == kids[t..][i]
  {
    MoveOut(a, t, b, t, null);
  }

  /** The subtrees of a full node, cut in two. */
  lemma {:induction false} HalveForest(v: View, t: nat, h: nat) returns (lo: set<object>, hi: set<object>)
    requires 2 <= t && |v.tree.keys| == 2 * t - 1 && |v.tree.children| == |v.kids| == (if h == 0 then 0 else 2 * t)
    requires Grown(v, t, h)
    ensures lo !! hi && lo + hi == v.below
    ensures Grown(LowerView(v, t, h, lo), t, h) && Grown(UpperView(v, t, h, hi), t, h)
  {
    var n := if h == 0 then 0 else t;
    var ks, cs := v.kids, v.tree.children;
    assert ks == ks[..n] + ks[n..] && cs == cs[..n] + cs[n..];
    lo, hi := ForestSplit(ks[..n], cs[..n], ks[n..], cs[n..], t, h, v.below);
  }

  /** btree_split_child, up to the moves in the parent: the upper half of the full node `y` becomes a new node. */
  method SplitNode(t: nat, ghost h: nat, y: BNode) returns (z: BNode, mid: Slot)
    requires 2 <= t && y.Valid(t, h) && y.keyCount == 2 * t - 1
    modifies y, y.keys, y.children
    ensures y.Valid(t, h) && y.view.tree == LeftHalf(old(y.view).tree, t)
    ensures z.Valid(t, h) && z.view.tree == RightHalf(old(y.view).tree, t)
    ensures mid == Tuple(old(y.view).tree.keys[t - 1])
    ensures y.Repr() !! z.Repr() && y.Repr() <= old(y.Repr()) && fresh(z.Repr() - old(y.Repr()))
  {
    ghost var v := y.view;
    ghost var lo, hi := HalveForest(v, t, h);
    z, mid := Halve(t, h, y, v, lo, hi);
    SealTwo(y, LowerView(v, t, h, lo), z, UpperView(v, t, h, hi), t, h);
  }

  /** The subtrees of a view to the left and to the right of child `i`; they share nothing and make up `u`. */
  ghost predicate Context(v: View, i: nat, u: set<object>, t: nat, h: nat)
    requires i < |v.kids| == |v.tree.children|
    reads u
  {
    Forest(v.kids[..i] + v.kids[i + 1..], v.tree.children[..i] + v.tree.children[i + 1..], t, h, u)
  }

  /** Child `i` of a view, taken out of its context. */
  lemma {:induction false} Focus(v: View, i: nat, t: nat, h: nat) returns (u: set<object>)
    requires i < |v.kids| == |v.tree.children| && Grown(v, t, h)
    ensures 0 < h
    ensures v.kids[i].Valid(t, h - 1) && v.kids[i].view.tree == v.tree.children[i]
    ensures Context(v, i, u, t, h) && u !! v.kids[i].Repr() && v.below == u + v.kids[i].Repr()
  {
    var ks, cs := v.kids, v.tree.children;
    assert ks == ks[..i] + ks[i..] && cs == cs[..i] + cs[i..];
    var ua, ur := ForestSplit(ks[..i], cs[..i], ks[i..], cs[i..], t, h, v.below);
    assert ks[i..][1..] == ks[i + 1..] && cs[i..][1..] == cs[i + 1..];
    var ub := ur - ks[i].Repr();
    ForestJoin(ks[..i], cs[..i], ua, ks[i + 1..], cs[i + 1..], ub, t, h);
    u := ua + ub;
  }

  ghost function BelowWith(v: View, i: nat, x: Tree, below: set<object>): View
    requires i < |v.tree.children|
  {
    View(WithChild(v.tree, i, x), v.kids, below)
  }

  /** Subtrees put back into a context at `i`. */
  lemma {:induction false} ForestInsert(v: View, i: nat, ks: seq<BNode>, cs: seq<Tree>, u: set<object>, uk: set<object>, t: nat, h: nat)
    requires i < |v.kids| == |v.tree.children|
    requires Context(v, i, u, t, h) && Forest(ks, cs, t, h, uk) && u !! uk
    ensures Forest(v.kids[..i] + ks + v.kids[i + 1..], v.tree.children[..i] + cs + v.tree.children[i + 1..], t, h, u + uk)
  {
    var a, b := v.kids[..i], v.kids[i + 1..];
    var ta, tb := v.tree.children[..i], v.tree.children[i + 1..];
    var ua, ub := ForestSplit(a, ta, b, tb, t, h, u);
    ForestJoin(a, ta, ua, ks, cs, uk, t, h);
    ForestJoin(a + ks, ta + cs, ua + uk, b, tb, ub, t, h);
    assert ua + uk + ub == u + uk;
  }

  /** The opposite of Focus, child `i` having changed in the meantime. */
  lemma {:induction false} Refocus(v: View, i: nat, u: set<object>, t: nat, h: nat)
    requires i < |v.kids| == |v.tree.children| && 0 < h
    requires v.kids[i].Valid(t, h - 1)
    requires Context(v, i, u, t, h) && u !! v.kids[i].Repr()
    ensures Grown(BelowWith(v, i, v.kids[i].view.tree, u + v.kids[i].Repr()), t, h)
  {
    var c := v.kids[i];
    ForestOne(c, t, h);
    ForestInsert(v, i, [c], [c.view.tree], u, c.Repr(), t, h);
    assert v.kids[..i] + [c] + v.kids[i + 1..] == v.kids;
    assert v.tree.children[..i] + [c.view.tree] + v.tree.children[i + 1..] == v.tree.children[i := c.view.tree];
  }

  /** Child `i` of a view gives way to the two halves it was split into, with `mid` between them. */
  ghost function SplitView(v: View, i: nat, l: Tree, mid: Entry, z: BNode, r: Tree, below: set<object>): View
    requires i < |v.kids| == |v.tree.children| == |v.tree.keys| + 1
  {
    View(Node(v.tree.keys[..i] + [mid] + v.tree.keys[i..], v.tree.children[..i] + [l, r] + v.tree.children[i + 1..],
              From(v.tree.spare, 1)),
         v.kids[..i + 1] + [z] + v.kids[i + 1..], below)
  }

  /** The second part of btree_split_child: the parent makes room for `mid` and the new node. */
  method PutHalves(t: nat, ghost h: nat, x: BNode, i: nat, z: BNode, mid: Slot,
                   ghost v: View, ghost l: Tree, ghost r: Tree, ghost below: set<object>)
    requires 2 <= t && 0 < h && x.Holds(t, h, v) && i < |v.kids| && x.keyCount < 2 * t - 1 && mid != Null
    modifies x, x.keys, x.children
    ensures x.Holds(t, h, SplitView(v, i, l, mid.entry, z, r, below)) && x.view == old(x.view)
  {
    assert Shows(x.keys, v.tree.keys, v.tree.spare);
    PutKid(x.children, i + 1, x.keyCount + 1, z, v.kids);
    PutKey(x.keys, i, x.keyCount, mid, v.tree.keys, v.tree.spare);
    x.keyCount := x.keyCount + 1;
  }

  method PutKey(a: array<Slot>, i: nat, n: nat, mid: Slot, ghost ks: seq<Entry>, ghost spare: seq<Slot>)
    requires i <= n == |ks| < a.Length && Shows(a, ks, spare) && mid != Null
    modifies a
    ensures Shows(a, ks[..i] + [mid.entry] + ks[i..], From(spare, 1))
  {
    PutSlot(a, i, n, mid);
  }

  method PutKid(a: array<BNode?>, i: nat, n: nat, z: BNode, ghost kids: seq<BNode>)
    requires i <= n == |kids| < a.Length && forall q :: 0 <= q < n ==> a[q] == kids[q]
    modifies a
    ensures forall q :: 0 <= q < n + 1 ==> a[q] == (kids[..i] + [z] + kids[i..])[q]
  {
    PutSlot(a, i, n, z);
  }

  /** The subtrees of a view with child `i` split into `y`, which was there, and `z`. */
  lemma {:induction false} RefocusSplit(v: View, i: nat, mid: Entry, z: BNode, u: set<object>, t: nat, h: nat)
    requires i < |v.kids| == |v.tree.children| == |v.tree.keys| + 1 && 0 < h
    requires v.kids[i].Valid(t, h - 1)
    requires z.Valid(t, h - 1)
    requires Context(v, i, u, t, h) && u !! v.kids[i].Repr() && u !! z.Repr() && v.kids[i].Repr() !! z.Repr()
    ensures Grown(SplitView(v, i, v.kids[i].view.tree, mid, z, z.view.tree, u + (v.kids[i].Repr() + z.Repr())), t, h)
  {
    var y := v.kids[i];
    ForestOne(y, t, h);
    ForestOne(z, t, h);
    ForestJoin([y], [y.view.tree], y.Repr(), [z], [z.view.tree], z.Repr(), t, h);
    ForestInsert(v, i, [y] + [z], [y.view.tree] + [z.view.tree], u, y.Repr() + z.Repr(), t, h);
    assert v.kids[..i] + ([y] + [z]) + v.kids[i + 1..] == v.kids[..i + 1] + [z] + v.kids[i + 1..];
    assert [y.view.tree] + [z.view.tree] == [y.view.tree, z.view.tree];
  }

  /** Splits child `i` of `x`, whose own slots stay as they are for now. */
  method SplitBelow(t: nat, ghost h: nat, x: BNode, ghost v: View, i: nat) returns (z: BNode, mid: Slot, ghost w: View)
    requires 2 <= t && 0 < h && x.Valid(t, h) && v == x.view && i <= x.keyCount && |v.tree.children[i].keys| == 2 * t - 1
    requires v.tree.children[i].children == [] || |v.tree.children[i].children| == 2 * t
    modifies v.below
    ensures unchanged(x) && unchanged(x.keys) && unchanged(x.children)
    ensures mid != Null && v.kids[i].view.tree == LeftHalf(v.tree.children[i], t) && z.view.tree == RightHalf(v.tree.children[i], t)
    ensures mid.entry == v.tree.children[i].keys[t - 1]
    ensures w == SplitView(v, i, v.kids[i].view.tree, mid.entry, z, z.view.tree, w.below) && Grown(w, t, h)
    ensures x.Outside(w.below) && fresh(w.below - v.below)
  {
    ghost var u := Focus(v, i, t, h);
    ghost var y := v.kids[i];
    ghost var ry := y.Repr();
    z, mid := SplitNode(t, h - 1, x.children[i]);
    assert z.Repr() !! u by {
      assert u <= v.below && u !! ry;
    }
    RefocusSplit(v, i, mid.entry, z, u, t, h);
    w := SplitView(v, i, y.view.tree, mid.entry, z, z.view.tree, u + (y.Repr() + z.Repr()));
  }

  /** btree_split_child. */
  method NodeSplitChild(t: nat, ghost h: nat, x: BNode, i: nat)
    requires 2 <= t && 0 < h && x.Valid(t, h) && x.keyCount < 2 * t - 1 && i <= x.keyCount
    requires |x.view.tree.children[i].keys| == 2 * t - 1
    requires x.view.tree.children[i].children == [] || |x.view.tree.children[i].children| == 2 * t
    modifies x, x.keys, x.children, x.view.below
    ensures x.Valid(t, h) && fresh(x.view.below - old(x.view).below)
    ensures x.view.tree == SplitChild(old(x.view).tree, i, t)
  {
    ghost var v := x.view;
    var z, mid, w := SplitBelow(t, h, x, v, i);
    PutHalves(t, h, x, i, z, mid, v, v.kids[i].view.tree, z.view.tree, w.below);
    Seal(x, t, h, w);
  }

  /** `r` is what btree_insert_nonfull makes of `x`. */
  ghost predicate InsertedBelow(r: Tree, x: Tree, e: Entry, t: nat, h: nat) {
    forall k :: Look(k) ==> 2 <= t && Balanced(x, t, h) && |x.keys| < 2 * t - 1 && r == InsertNonFull(x, e, t, h)
  }

  /** `r` is `x` after btree_insert_nonfull on its child `i`. */
  ghost predicate InsertedInto(r: Tree, x: Tree, i: nat, e: Entry, t: nat, h: nat) {
    && 0 < h && i < |x.children| == |r.children| && r == WithChild(x, i, r.children[i])
    && InsertedBelow(r.children[i], x.children[i], e, t, h - 1)
  }

  /** What the inner branch of btree_insert_nonfull looks at. */
  lemma {:induction false} InnerChild(x: Tree, e: Entry, t: nat, h: nat)
    requires 2 <= t && 0 < h && Balanced(x, t, h) && |x.keys| < 2 * t - 1
    ensures var i := InsertPos(x.keys, e.key);
            && |x.children| == |x.keys| + 1 && |x.children[i].keys| <= 2 * t - 1 && Balanced(x.children[i], t, h - 1)
            && (|x.children[i].keys| == 2 * t - 1 ==>
                  Splittable(x, i, t) && Balanced(SplitChild(x, i, t).children[SplitSide(x, i, e, t)], t, h - 1))
  {
    var i := InsertPos(x.keys, e.key);
    ChildBalanced(x, i, t, h);
    if |x.children[i].keys| == 2 * t - 1 {
      SplitBalanced(x, i, t, h);
      ChildBalanced(SplitChild(x, i, t), SplitSide(x, i, e, t), t, h);
    }
  }

  /** What the inner branch of btree_insert_nonfull comes down to. */
  lemma {:induction false} InnerPlain(r: Tree, x: Tree, e: Entry, t: nat, h: nat)
    requires 2 <= t && 0 < h && Balanced(x, t, h) && |x.keys| < 2 * t - 1
    requires var i := InsertPos(x.keys, e.key);
             InsertedInto(r, x, i, e, t, h) && |x.children[i].keys| < 2 * t - 1
    ensures InsertedBelow(r, x, e, t, h)
  {
    assert Look(0);
  }

  lemma {:induction false} InnerSplit(r: Tree, x: Tree, e: Entry, t: nat, h: nat)
    requires 2 <= t && 0 < h && Balanced(x, t, h) && |x.keys| < 2 * t - 1
    requires var i := InsertPos(x.keys, e.key);
             Splittable(x, i, t) && InsertedInto(r, SplitChild(x, i, t), SplitSide(x, i, e, t), e, t, h)
    ensures InsertedBelow(r, x, e, t, h)
  {
    assert Look(0);
    SplitBalanced(x, InsertPos(x.keys, e.key), t, h);
  }

  ghost predicate Splittable(x: Tree, i: nat, t: nat) {
    && 2 <= t && |x.children| == |x.keys| + 1 && i <= |x.keys| && |x.children[i].keys| == 2 * t - 1
    && (x.children[i].children == [] || |x.children[i].children| == 2 * t)
  }

  /** Which half of the split child the entry goes to. */
  ghost function SplitSide(x: Tree, i: nat, e: Entry, t: nat): (j: nat)
    requires Splittable(x, i, t)
    ensures i <= j <= i + 1
  {
    if x.children[i].keys[t - 1].key < e.key then i + 1 else i
  }

  /** btree_insert_nonfull. */
  method NodeInsert(t: nat, ghost h: nat, x: BNode, e: Entry)
    requires 2 <= t && x.Valid(t, h) && Balanced(x.view.tree, t, h) && x.keyCount < 2 * t - 1
    modifies x, x.keys, x.children, x.view.below
    ensures x.Valid(t, h) && fresh(x.view.below - old(x.view).below)
    ensures InsertedBelow(x.view.tree, old(x.view).tree, e, t, h)
    decreases h, 3
  {
    if x.isLeaf {
      InsertLeaf(t, x, e);
      assert Look(0);
    } else {
      InsertInner(t, h, x, e);
    }
  }

  method InsertInner(t: nat, ghost h: nat, x: BNode, e: Entry)
    requires 2 <= t && 0 < h && x.Valid(t, h) && Balanced(x.view.tree, t, h) && x.keyCount < 2 * t - 1
    modifies x, x.keys, x.children, x.view.below
    ensures x.Valid(t, h) && fresh(x.view.below - old(x.view).below)
    ensures InsertedBelow(x.view.tree, old(x.view).tree, e, t, h)
    decreases h, 2
  {
    ghost var tree := x.view.tree;
    InnerChild(tree, e, t, h);
    var i, count := FindChild(t, h, x, e.key);
    if count == 2 * t - 1 {
      InsertSplitting(t, h, x, i, e);
      InnerSplit(x.view.tree, tree, e, t, h);
    } else {
      NodeInsertInto(t, h, x, i, e);
      InnerPlain(x.view.tree, tree, e, t, h);
    }
  }

  /** The inner branch when the child is full. */
  method InsertSplitting(t: nat, ghost h: nat, x: BNode, i: nat, e: Entry)
    requires 2 <= t && 0 < h && x.Valid(t, h) && x.keyCount < 2 * t - 1 && Splittable(x.view.tree, i, t)
    requires Balanced(SplitChild(x.view.tree, i, t).children[SplitSide(x.view.tree, i, e, t)], t, h - 1)
    modifies x, x.keys, x.children, x.view.below
    ensures x.Valid(t, h) && fresh(x.view.below - old(x.view).below)
    ensures var s := SplitChild(old(x.view).tree, i, t);
            InsertedInto(x.view.tree, s, SplitSide(old(x.view).tree, i, e, t), e, t, h)
    decreases h, 1
  {
    NodeSplitChild(t, h, x, i);
    var j := i;
    if x.keys[i].entry.key < e.key {
      j := i + 1;
    }
    NodeInsertInto(t, h, x, j, e);
  }

  /** The loop of the inner branch of btree_insert_nonfull. */
  method FindChild(t: nat, ghost h: nat, x: BNode, k: int) returns (i: nat, count: int)
    requires 0 < h && x.Valid(t, h)
    ensures i == InsertPos(x.view.tree.keys, k) && i <= x.keyCount && count == |x.view.tree.children[i].keys|
  {
    var j := x.keyCount - 1;
    while j >= 0 && x.keys[j].entry.key > k
      invariant -1 <= j < x.keyCount
      invariant forall q :: j < q < x.keyCount ==> x.view.tree.keys[q].key > k
    {
      j := j - 1;
    }
    i := j + 1;
    count := ChildCount(t, h, x, i);
  }

  /** The recursive call of btree_insert_nonfull. */
  method NodeInsertInto(t: nat, ghost h: nat, x: BNode, i: nat, e: Entry)
    requires 2 <= t && 0 < h && x.Valid(t, h) && i <= x.keyCount
    requires Balanced(x.view.tree.children[i], t, h - 1) && |x.view.tree.children[i].keys| < 2 * t - 1
    modifies x`view, x.view.below
    ensures x.Valid(t, h) && fresh(x.view.below - old(x.view).below)
    ensures InsertedInto(x.view.tree, old(x.view).tree, i, e, t, h)
    decreases h, 0
  {
    ghost var v := x.view;
    ghost var u := Focus(v, i, t, h);
    NodeInsert(t, h - 1, x.children[i], e);
    Refocus(v, i, u, t, h);
    Seal(x, t, h, BelowWith(v, i, v.kids[i].view.tree, u + v.kids[i].Repr()));
  }

  /** btree_split_root: a new root takes the old one as its only child, which is then split. */
  method NodeSplitRoot(t: nat, ghost h: nat, x: BNode) returns (s: BNode)
    requires 2 <= t && x.Valid(t, h) && Balanced(x.view.tree, t, h) && x.keyCount == 2 * t - 1
    modifies x, x.keys, x.children, x.view.below
    ensures fresh(s) && fresh(s.keys) && fresh(s.children)
    ensures s.Valid(t, h + 1) && fresh(s.view.below - old(x.Repr()))
    ensures RootSplit(s.view.tree, old(x.view).tree, t, h) && Balanced(s.view.tree, t, h + 1) && s.keyCount == 1
  {
    ghost var tree := x.view.tree;
    s := GrowRoot(t, h, x);
    HalvesBalanced(tree, t, h);
    NodeSplitChild(t, h + 1, s, 0);
    SplitIsBalanced(s.view.tree, tree, t, h);
  }

  lemma {:induction false} SplitIsBalanced(r: Tree, x: Tree, t: nat, h: nat)
    requires 2 <= t && Balanced(x, t, h) && |x.keys| == 2 * t - 1 && (x.children == [] || |x.children| == 2 * t)
    requires r == SplitChild(Node([], [x], Nulls(2 * t)), 0, t)
    ensures RootSplit(r, x, t, h) && Balanced(r, t, h + 1) && |r.keys| == 1
  {
    assert r == SplitRoot(x, t, h);
  }

  method GrowRoot(t: nat, ghost h: nat, x: BNode) returns (s: BNode)
    requires 2 <= t && x.Valid(t, h)
    ensures fresh(s) && fresh(s.keys) && fresh(s.children) && s.keyCount == 0
    ensures s.Valid(t, h + 1) && s.view == View(Node([], [x.view.tree], Nulls(2 * t)), [x], x.Repr())
  {
    s := new BNode(t);
    s.isLeaf := false;
    s.keyCount := 0;
    s.children[0] := x;
    ForestOne(x, t, h + 1);
    Seal(s, t, h + 1, View(Node([], [x.view.tree], Nulls(2 * t)), [x], x.Repr()));
  }

  /** btree_insert on a full root. */
  method InsertAtFullRoot(t: nat, ghost h: nat, x: BNode, e: Entry) returns (s: BNode)
    requires 2 <= t && x.Valid(t, h) && Balanced(x.view.tree, t, h) && x.keyCount == 2 * t - 1
    modifies x, x.keys, x.children, x.view.below
    ensures fresh(s) && fresh(s.keys) && fresh(s.children)
    ensures s.Valid(t, h + 1) && fresh(s.view.below - old(x.Repr()))
    ensures InsertedAtRoot(s.view.tree, old(x.view).tree, e, t, h)
  {
    ghost var tree := x.view.tree;
    s := NodeSplitRoot(t, h, x);
    ghost var split := s.view.tree;
    NodeInsert(t, h + 1, s, e);
    FullRootInserted(s.view.tree, split, tree, e, t, h);
  }

  lemma {:induction false} FullRootInserted(r: Tree, s: Tree, x: Tree, e: Entry, t: nat, h: nat)
    requires RootSplit(s, x, t, h) && InsertedBelow(r, s, e, t, h + 1)
    ensures InsertedAtRoot(r, x, e, t, h)
  {
    assert Look(0);
  }

  /** `r` is what btree_insert makes of a full root `x`; folded. */
  ghost predicate InsertedAtRoot(r: Tree, x: Tree, e: Entry, t: nat, h: nat) {
    forall k :: Look(k) ==> 2 <= t && Balanced(x, t, h) && |x.keys| == 2 * t - 1 && r == Insert(x, e, t, h)
  }

  lemma {:induction false} RootInserted(r: Tree, x: Tree, e: Entry, t: nat, h: nat)
    requires InsertedAtRoot(r, x, e, t, h) && 2 <= t && ValidTree(Root(x, h), t)
    ensures InsertedTo(Root(r, h + 1), Root(x, h), e, t) && ValidRoot(r, t, h + 1)
  {
    assert Look(0);
    InsertTreeCorrect(Root(x, h), e, t);
  }

  /** `y` is what btree_insert makes of the tree `x`; folded. */
  ghost predicate InsertedTo(y: Root, x: Root, e: Entry, t: nat) {
    forall k :: Look(k) ==> 2 <= t && ValidTree(x, t) && y == InsertTree(x, e, t)
  }

  /** The node that btree_insert makes for the first entry. */
  method FirstNode(t: nat, e: Entry) returns (x: BNode)
    requires 2 <= t
    ensures fresh(x) && fresh(x.keys) && fresh(x.children)
    ensures x.Valid(t, 0) && x.view == View(Node([e], [], Nulls(2 * t - 1)), [], {})
  {
    x := new BNode(t);
    x.keys[0] := Tuple(e);
    x.isLeaf := true;
    x.keyCount := 1;
    x.view := View(Node([e], [], Nulls(2 * t - 1)), [], {});
  }

  // ---------------------------------------------------------------- removal

  lemma {:induction false} LeafView(v: View, t: nat, h: nat)
    requires v.kids == [] && Grown(v, t, h)
    ensures v.below == {} && v.tree.children == []
  {}

  /** btree_node_remove_from_leaf. A last entry is left behind in its slot. */
  method RemoveFromLeaf(t: nat, x: BNode, i: nat)
    requires x.Valid(t, 0) && i < x.keyCount
    modifies x, x.keys
    ensures var x0 := old(x.view).tree;
            x.Valid(t, 0) && x.view == old(x.view).(tree := Node(Without(x0.keys, i), [], Vacated(x0, i)))
  {
    ghost var v := x.view;
    LeafView(v, t, 0);
    assert Shows(x.keys, v.tree.keys, v.tree.spare);
    DropKey(x.keys, i, x.keyCount, v.tree.keys, v.tree.spare);
    x.keyCount := x.keyCount - 1;
    Seal(x, t, 0, v.(tree := Node(Without(v.tree.keys, i), [], Vacated(v.tree, i))));
  }

  /** btree_node_get_predecessor, from the child it starts at. */
  method Predecessor(t: nat, ghost h: nat, x: BNode) returns (e: Slot)
    requires 2 <= t && x.Valid(t, h) && Balanced(x.view.tree, t, h) && 1 <= x.keyCount
    ensures e == Tuple(LastEntry(x.view.tree, t, h))
  {
    var cur: BNode := x;
    ghost var hc: nat := h;
    while !cur.isLeaf
      invariant hc <= h && cur.Valid(t, hc) && Balanced(cur.view.tree, t, hc) && 1 <= cur.keyCount
      invariant LastEntry(cur.view.tree, t, hc) == LastEntry(x.view.tree, t, h)
      decreases hc
    {
      ForestAt(cur.view.kids, cur.view.tree.children, cur.keyCount, t, hc, cur.view.below);
      ChildBalanced(cur.view.tree, cur.keyCount, t, hc);
      cur := cur.children[cur.keyCount];
      hc := hc - 1;
    }
    e := cur.keys[cur.keyCount - 1];
  }

  /** btree_node_get_successor, from the child it starts at. */
  method Successor(t: nat, ghost h: nat, x: BNode) returns (e: Slot)
    requires 2 <= t && x.Valid(t, h) && Balanced(x.view.tree, t, h) && 1 <= x.keyCount
    ensures e == Tuple(FirstEntry(x.view.tree, t, h))
  {
    var cur: BNode := x;
    ghost var hc: nat := h;
    while !cur.isLeaf
      invariant hc <= h && cur.Valid(t, hc) && Balanced(cur.view.tree, t, hc) && 1 <= cur.keyCount
      invariant FirstEntry(cur.view.tree, t, hc) == FirstEntry(x.view.tree, t, h)
      decreases hc
    {
      ForestAt(cur.view.kids, cur.view.tree.children, 0, t, hc, cur.view.below);
      ChildBalanced(cur.view.tree, 0, t, hc);
      cur := cur.children[0];
      hc := hc - 1;
    }
    e := cur.keys[0];
  }

  /** btree_node_copy: a new subtree with the same contents, down to the unused key slots. */
  method NodeCopy(t: nat, ghost h: nat, src: BNode) returns (dst: BNode)
    requires 1 <= t && src.Valid(t, h)
    ensures fresh(dst.Repr()) && dst.Valid(t, h)
    ensures dst.view.tree == src.view.tree
    decreases h, 2
  {
    dst := CopyKeys(t, h, src);
    ghost var ks, u := CopyBelow(t, h, src, dst.children);
    Seal(dst, t, h, src.view.(kids := ks, below := u));
  }

  method CopyBelow(t: nat, ghost h: nat, src: BNode, dst: array<BNode?>) returns (ghost ks: seq<BNode>, ghost u: set<object>)
    requires 1 <= t && src.Valid(t, h) && dst.Length == 2 * t && dst != src.children && dst !in src.view.below
    modifies dst
    ensures |ks| == |src.view.kids| && fresh(u) && Forest(ks, src.view.tree.children, t, h, u)
    ensures forall q :: 0 <= q < |ks| ==> dst[q] == ks[q]
    decreases h, 1
  {
    ks, u := [], {};
    if src.isLeaf {
      LeafView(src.view, t, h);
    } else {
      ks, u := CopyKids(t, h, src, src.view, dst, 0);
    }
  }

  /** The part of btree_node_copy that copies the header and the key slots. */
  method CopyKeys(t: nat, ghost h: nat, src: BNode) returns (dst: BNode)
    requires 1 <= t && src.Valid(t, h)
    ensures fresh(dst) && fresh(dst.keys) && fresh(dst.children) && dst.children.Length == 2 * t == dst.keys.Length
    ensures dst.isLeaf == src.isLeaf && dst.keyCount == src.keyCount
    ensures forall j :: 0 <= j < 2 * t ==> dst.keys[j] == src.keys[j]
  {
    dst := new BNode(t);
    dst.isLeaf := src.isLeaf;
    dst.keyCount := src.keyCount;
    for j := 0 to 2 * t
      invariant forall q :: 0 <= q < j ==> dst.keys[q] == src.keys[q]
      modifies dst.keys
    {
      dst.keys[j] := src.keys[j];
    }
  }

  /** The loops over btree_node_copy: copies of the children of `src` go to the slots of `dst` from `at` on. */
  method CopyKids(t: nat, ghost h: nat, src: BNode, ghost v: View, dst: array<BNode?>, at: nat)
    returns (ghost ks: seq<BNode>, ghost u: set<object>)
    requires 1 <= t && 0 <= src.keyCount && |v.kids| == |v.tree.children| == src.keyCount + 1 && Grown(v, t, h)
    requires src.children.Length >= |v.kids| && forall j :: 0 <= j < |v.kids| ==> src.children[j] == v.kids[j]
    requires at + |v.kids| <= dst.Length && dst != src.children && dst !in v.below
    modifies dst
    ensures |ks| == |v.kids| && fresh(u) && Forest(ks, v.tree.children, t, h, u)
    ensures forall j :: 0 <= j < dst.Length ==> dst[j] == if at <= j < at + |ks| then ks[j - at] else old(dst[j])
    decreases h, 0, 2
  {
    ks, u := [], {};
    ghost var ts := v.tree.children;
    for i := 0 to src.keyCount + 1
      invariant i == |ks| && fresh(u)
      invariant forall j :: 0 <= j < dst.Length ==> dst[j] == if at <= j < at + i then ks[j - at] else old(dst[j])
      invariant Forest(ks, ts[..i], t, h, u)
    {
      var c;
      c, u := CopyInto(t, h, src.children[i], v, dst, at + i, ks, u);
      ks := ks + [c];
    }
    assert ts[..|ks|] == ts;
  }

  method CopyInto(t: nat, ghost h: nat, src: BNode, ghost v: View, dst: array<BNode?>, slot: nat,
                  ghost ks: seq<BNode>, ghost u: set<object>)
    returns (c: BNode, ghost u': set<object>)
    requires 1 <= t && |ks| < |v.kids| == |v.tree.children| && Grown(v, t, h) && src == v.kids[|ks|]
    requires Forest(ks, v.tree.children[..|ks|], t, h, u) && slot < dst.Length && dst !in u
    modifies dst
    ensures Forest(ks + [c], v.tree.children[..|ks| + 1], t, h, u') && fresh(u' - u) && dst !in u'
    ensures dst[slot] == c && forall j :: 0 <= j < dst.Length && j != slot ==> dst[j] == old(dst[j])
    decreases h, 0, 1
  {
    c, u' := CopyKid(t, h, src, v, ks, u);
    dst[slot] := c;
  }

  /** One step of that loop: a copy of the child that comes after those in `ks`. */
  method CopyKid(t: nat, ghost h: nat, src: BNode, ghost v: View, ghost ks: seq<BNode>, ghost u: set<object>)
    returns (c: BNode, ghost u': set<object>)
    requires 1 <= t && |ks| < |v.kids| == |v.tree.children| && Grown(v, t, h) && src == v.kids[|ks|]
    requires Forest(ks, v.tree.children[..|ks|], t, h, u)
    ensures Forest(ks + [c], v.tree.children[..|ks| + 1], t, h, u') && fresh(u' - u)
    decreases h, 0, 0
  {
    ForestAt(v.kids, v.tree.children, |ks|, t, h, v.below);
    c := NodeCopy(t, h - 1, src);
    ForestSnoc(ks, v.tree.children, u, c, t, h);
    u' := u + c.Repr();
  }

  lemma {:induction false} ForestSnoc(ks: seq<BNode>, ts: seq<Tree>, u: set<object>, c: BNode, t: nat, h: nat)
    requires |ks| < |ts| && 0 < h && c.Valid(t, h - 1) && c.view.tree == ts[|ks|]
    requires Forest(ks, ts[..|ks|], t, h, u) && u !! c.Repr()
    ensures Forest(ks + [c], ts[..|ks| + 1], t, h, u + c.Repr())
  {
    ForestOne(c, t, h);
    ForestJoin(ks, ts[..|ks|], u, [c], [c.view.tree], c.Repr(), t, h);
    assert ts[..|ks|] + [c.view.tree] == ts[..|ks| + 1];
  }

  /** The subtrees of a view apart from children `i` and `i+1`. */
  ghost predicate ContextTwo(v: View, i: nat, u: set<object>, t: nat, h: nat)
    requires i + 1 < |v.kids| == |v.tree.children|
    reads u
  {
    Forest(v.kids[..i] + v.kids[i + 2..], v.tree.children[..i] + v.tree.children[i + 2..], t, h, u)
  }

  lemma {:induction false} FocusTwo(v: View, i: nat, t: nat, h: nat) returns (u: set<object>)
    requires i + 1 < |v.kids| == |v.tree.children| && Grown(v, t, h)
    ensures 0 < h
    ensures v.kids[i].Valid(t, h - 1) && v.kids[i].view.tree == v.tree.children[i]
    ensures v.kids[i + 1].Valid(t, h - 1) && v.kids[i + 1].view.tree == v.tree.children[i + 1]
    ensures v.kids[i].Repr() !! v.kids[i + 1].Repr()
    ensures ContextTwo(v, i, u, t, h) && u !! v.kids[i].Repr() && u !! v.kids[i + 1].Repr()
    ensures v.below == u + v.kids[i].Repr() + v.kids[i + 1].Repr()
  {
    var ks, cs := v.kids, v.tree.children;
    assert ks == ks[..i] + ks[i..] && cs == cs[..i] + cs[i..];
    var ua, ur := ForestSplit(ks[..i], cs[..i], ks[i..], cs[i..], t, h, v.below);
    assert ks[i..][1..] == ks[i + 1..] && cs[i..][1..] == cs[i + 1..];
    assert ks[i + 1..][1..] == ks[i + 2..] && cs[i + 1..][1..] == cs[i + 2..];
    var u1 := ur - ks[i].Repr();
    assert Forest(ks[i + 1..], cs[i + 1..], t, h, u1);
    var ub := u1 - ks[i + 1].Repr();
    ForestJoin(ks[..i], cs[..i], ua, ks[i + 2..], cs[i + 2..], ub, t, h);
    u := ua + ub;
  }

  lemma {:induction false} ForestInsertTwo(v: View, i: nat, ks: seq<BNode>, cs: seq<Tree>, u: set<object>, uk: set<object>, t: nat, h: nat)
    requires i + 1 < |v.kids| == |v.tree.children|
    requires ContextTwo(v, i, u, t, h) && Forest(ks, cs, t, h, uk) && u !! uk
    ensures Forest(v.kids[..i] + ks + v.kids[i + 2..], v.tree.children[..i] + cs + v.tree.children[i + 2..], t, h, u + uk)
  {
    var a, b := v.kids[..i], v.kids[i + 2..];
    var ta, tb := v.tree.children[..i], v.tree.children[i + 2..];
    var ua, ub := ForestSplit(a, ta, b, tb, t, h, u);
    ForestJoin(a, ta, ua, ks, cs, uk, t, h);
    ForestJoin(a + ks, ta + cs, ua + uk, b, tb, ub, t, h);
    assert ua + uk + ub == u + uk;
  }

  /** Appends the first `n` slots of `src` to `dst` from `at` on, zeroing them. */
  method MoveInto(src: array<Slot>, n: nat, dst: array<Slot>, at: nat)
    requires src != dst && n <= src.Length && at + n <= dst.Length
    modifies src, dst
    ensures forall j :: 0 <= j < dst.Length ==> dst[j] == if at <= j < at + n then old(src[j - at]) else old(dst[j])
  {
    for i := 0 to n
      invariant forall q :: 0 <= q < dst.Length ==> dst[q] == if at <= q < at + i then old(src[q - at]) else old(dst[q])
      invariant forall q :: i <= q < src.Length ==> src[q] == old(src[q])
    {
      dst[at + i] := src[i];
      src[i] := Null;
    }
  }

  /** The key moves of btree_node_merge between the two children. */
  method JoinKeys(t: nat, a: array<Slot>, b: array<Slot>, k: Slot, ghost ks: seq<Entry>, ghost spare: seq<Slot>,
                  ghost more: seq<Entry>, ghost rest: seq<Slot>)
    requires 2 <= t && a != b && a.Length == 2 * t && |ks| == |more| == t - 1 && k != Null
    requires Shows(a, ks, spare) && Shows(b, more, rest)
    modifies a, b
    ensures Shows(a, ks + [k.entry] + more, From(spare, t))
  {
    a[t - 1] := k;
    MoveInto(b, t - 1, a, t);
  }

  ghost function JoinedView(v: View, k: Entry, w: View, ks: seq<BNode>, u: set<object>): View {
    View(Joined(v.tree, k, w.tree), v.kids + ks, v.below + u)
  }

  /** The moves of btree_node_merge between the two children: key `k` and everything in `r` end up in `l`. */
  method JoinSlots(t: nat, ghost h: nat, l: BNode, ghost v: View, r: BNode, ghost w: View, k: Slot)
    returns (ghost ks: seq<BNode>, ghost u: set<object>)
    requires 2 <= t && l.Holds(t, h, v) && l.keyCount == r.keyCount == t - 1 && k != Null
    requires Shows(r.keys, w.tree.keys, w.tree.spare) && |w.tree.keys| == t - 1
    requires |w.kids| == |w.tree.children| == (if h == 0 then 0 else t) && r.children.Length == 2 * t
    requires forall q :: 0 <= q < |w.kids| ==> r.children[q] == w.kids[q]
    requires l.keys != r.keys && l.children != r.children && l != r
    requires Grown(w, t, h) && l.children !in w.below && l.keys !in w.below && r.keys !in w.below
    modifies l`keyCount, l.keys, l.children, r.keys
    ensures l.Holds(t, h, JoinedView(v, k.entry, w, ks, u))
    ensures fresh(u) && Forest(ks, w.tree.children, t, h, u)
  {
    assert Shows(l.keys, v.tree.keys, v.tree.spare);
    JoinKeys(t, l.keys, r.keys, k, v.tree.keys, v.tree.spare, w.tree.keys, w.tree.spare);
    ks, u := JoinKids(t, h, l, v, r, w);
    l.keyCount := l.keyCount + r.keyCount + 1;
  }

  /** The part of btree_node_merge that copies the children of `r` behind those of `l`. */
  method JoinKids(t: nat, ghost h: nat, l: BNode, ghost v: View, r: BNode, ghost w: View)
    returns (ghost ks: seq<BNode>, ghost u: set<object>)
    requires 2 <= t && r.keyCount == t - 1 && l.isLeaf == (h == 0) && l.children != r.children && l.children.Length == 2 * t
    requires |v.kids| == |w.kids| == |w.tree.children| == (if h == 0 then 0 else t) && r.children.Length == 2 * t
    requires forall q :: 0 <= q < |v.kids| ==> l.children[q] == v.kids[q]
    requires forall q :: 0 <= q < |w.kids| ==> r.children[q] == w.kids[q]
    requires Grown(w, t, h) && l.children !in w.below
    modifies l.children
    ensures fresh(u) && Forest(ks, w.tree.children, t, h, u) && |ks| == |w.kids|
    ensures forall q :: 0 <= q < |v.kids + ks| ==> l.children[q] == (v.kids + ks)[q]
  {
    ks, u := [], {};
    if l.isLeaf {
      LeafView(w, t, h);
    } else {
      ks, u := CopyKids(t, h, r, w, l.children, t);
    }
  }

  /** The part of btree_node_merge below the parent. */
  method JoinNodes(t: nat, ghost h: nat, l: BNode, r: BNode, k: Slot)
    requires 2 <= t && l.Valid(t, h) && r.Valid(t, h) && l.Repr() !! r.Repr()
    requires l.keyCount == r.keyCount == t - 1 && k != Null
    modifies l, l.keys, l.children, r.keys
    ensures l.Valid(t, h) && l.view.tree == Joined(old(l.view).tree, k.entry, old(r.view).tree)
    ensures fresh(l.view.below - old(l.view).below)
  {
    ghost var v, w := l.view, r.view;
    ghost var ks, u := JoinSlots(t, h, l, v, r, w, k);
    ForestJoin(v.kids, v.tree.children, v.below, ks, w.tree.children, u, t, h);
    Seal(l, t, h, JoinedView(v, k.entry, w, ks, u));
  }

  ghost function MergeView(v: View, i: nat, c: Tree, below: set<object>): View
    requires i < |v.tree.keys| && |v.kids| == |v.tree.children| == |v.tree.keys| + 1
  {
    View(Node(Without(v.tree.keys, i), v.tree.children[..i] + [c] + v.tree.children[i + 2..], Vacated(v.tree, i)),
         v.kids[..i] + [v.kids[i]] + v.kids[i + 2..], below)
  }

  /** Merges children `i` and `i+1` of `x`, whose own slots stay as they are for now. */
  method MergeBelow(t: nat, ghost h: nat, x: BNode, ghost v: View, i: nat) returns (ghost w: View)
    requires 2 <= t && 0 < h && x.Holds(t, h, v) && x.Outside(v.below) && Grown(v, t, h) && i < x.keyCount
    requires |v.tree.children[i].keys| == |v.tree.children[i + 1].keys| == t - 1
    modifies v.below
    ensures x.Outside(w.below) && fresh(w.below - v.below) && Grown(w, t, h)
    ensures w == MergeView(v, i, Joined(v.tree.children[i], v.tree.keys[i], v.tree.children[i + 1]), w.below)
  {
    ghost var u := FocusTwo(v, i, t, h);
    ghost var l, r := v.kids[i], v.kids[i + 1];
    JoinNodes(t, h - 1, x.children[i], x.children[i + 1], x.keys[i]);
    ForestOne(l, t, h);
    ForestInsertTwo(v, i, [l], [l.view.tree], u, l.Repr(), t, h);
    w := MergeView(v, i, l.view.tree, u + l.Repr());
  }

  /** The moves of btree_node_merge in the parent: key `i` and child `i+1` go. */
  method CloseGap(t: nat, ghost h: nat, x: BNode, i: nat, ghost v: View, ghost c: Tree, ghost below: set<object>)
    requires 0 < h && x.Holds(t, h, v) && i < x.keyCount
    modifies x`keyCount, x.keys, x.children
    ensures x.Holds(t, h, MergeView(v, i, c, below)) && x.keyCount == old(x.keyCount) - 1
  {
    assert Shows(x.keys, v.tree.keys, v.tree.spare);
    DropKey(x.keys, i, x.keyCount, v.tree.keys, v.tree.spare);
    DropKid(x.children, i, x.keyCount, v.kids);
    x.keyCount := x.keyCount - 1;
  }

  /** Key `i` goes; the keys behind it move down and are zeroed where they were. */
  method DropKey(a: array<Slot>, i: nat, n: nat, ghost ks: seq<Entry>, ghost spare: seq<Slot>)
    requires i < n == |ks| && Shows(a, ks, spare)
    modifies a
    ensures Shows(a, Without(ks, i), [if i + 1 < n then Null else Tuple(ks[i])] + spare)
  {
    ShiftDownZeroing(a, i + 1, n, Null);
  }

  /** Child `i + 1` goes. */
  method DropKid(a: array<BNode?>, i: nat, n: nat, ghost kids: seq<BNode>)
    requires i < n == |kids| - 1 < a.Length && forall q :: 0 <= q < |kids| ==> a[q] == kids[q]
    modifies a
    ensures forall q :: 0 <= q < n ==> a[q] == (kids[..i] + [kids[i]] + kids[i + 2..])[q]
  {
    ShiftDown(a, i + 2, n + 1);
  }

  /** btree_node_merge. The merged key, when it was the last one, stays in its slot as well. */
  method NodeMerge(t: nat, ghost h: nat, x: BNode, i: nat)
    requires 2 <= t && 0 < h && x.Valid(t, h) && i < x.keyCount
    requires |x.view.tree.children[i].keys| == |x.view.tree.children[i + 1].keys| == t - 1
    modifies x, x.keys, x.children, x.view.below
    ensures x.Valid(t, h) && fresh(x.view.below - old(x.view).below)
    ensures x.view.tree == Merge(old(x.view).tree, i)
  {
    ghost var v := x.view;
    ghost var w := MergeBelow(t, h, x, v, i);
    CloseGap(t, h, x, i, v, Joined(v.tree.children[i], v.tree.keys[i], v.tree.children[i + 1]), w.below);
    Seal(x, t, h, w);
  }

  ghost function DropLastView(v: View, below: set<object>): View
    requires 1 <= |v.tree.keys| && |v.kids| == |v.tree.children| && Arity(v.tree)
  {
    View(DropLast(v.tree), if v.kids == [] then [] else v.kids[..|v.tree.keys|], below)
  }

  ghost function DropFirstView(v: View, below: set<object>): View
    requires 1 <= |v.tree.keys| && |v.kids| == |v.tree.children| && Arity(v.tree)
  {
    View(DropFirst(v.tree), if v.kids == [] then [] else v.kids[1..], below)
  }

  ghost function PrependView(c: seq<BNode>, tc: seq<Tree>, e: Entry, v: View, below: set<object>): View {
    View(Prepend(tc, e, v.tree), c + v.kids, below)
  }

  ghost function AppendView(v: View, e: Entry, c: seq<BNode>, tc: seq<Tree>, below: set<object>): View {
    View(Append(v.tree, e, tc), v.kids + c, below)
  }

  ghost function LastOf<T>(s: seq<T>): seq<T> {
    if s == [] then [] else [s[|s| - 1]]
  }

  ghost function FirstOf<T>(s: seq<T>): seq<T> {
    if s == [] then [] else [s[0]]
  }

  /** Everything in `r` moves up by one and `k` and, above the leaves, the child `c` come first. */
  method PushFront(t: nat, ghost h: nat, r: BNode, ghost w: View, k: Slot, c: BNode?,
                   ghost cs: seq<BNode>, ghost ts: seq<Tree>, ghost below: set<object>)
    requires r.Holds(t, h, w) && r.keyCount < 2 * t - 1 && k != Null
    requires |ts| == |cs| && if h == 0 then cs == [] else c != null && cs == [c]
    modifies r`keyCount, r.keys, r.children
    ensures r.Holds(t, h, PrependView(cs, ts, k.entry, w, below))
  {
    PutSlot(r.keys, 0, r.keyCount, k);
    if !r.isLeaf {
      PutSlot(r.children, 0, r.keyCount + 1, c);
    }
    r.keyCount := r.keyCount + 1;
  }

  /** The slot moves of btree_node_borrow_from_prev_child in the two children. */
  method RotateRightSlots(t: nat, ghost h: nat, l: BNode, ghost v: View, r: BNode, ghost w: View, k: Slot,
                          ghost bl: set<object>, ghost br: set<object>) returns (up: Slot)
    requires l.Holds(t, h, v) && r.Holds(t, h, w) && 1 <= l.keyCount && r.keyCount < 2 * t - 1 && k != Null
    requires l != r && l.keys != r.keys && l.children != r.children
    modifies l`keyCount, r`keyCount, r.keys, r.children
    ensures up == Tuple(v.tree.keys[|v.tree.keys| - 1])
    ensures l.Holds(t, h, DropLastView(v, bl))
    ensures r.Holds(t, h, PrependView(LastOf(v.kids), LastOf(v.tree.children), k.entry, w, br))
  {
    var c := if l.isLeaf then null else l.children[l.keyCount];
    PushFront(t, h, r, w, k, c, LastOf(v.kids), LastOf(v.tree.children), br);
    up := PopBack(t, h, l, v, bl);
  }

  /** The last entry of `l` is no longer in use, and above the leaves neither is its last child. */
  method PopBack(t: nat, ghost h: nat, l: BNode, ghost v: View, ghost bl: set<object>) returns (up: Slot)
    requires l.Holds(t, h, v) && 1 <= l.keyCount
    modifies l`keyCount
    ensures up == Tuple(v.tree.keys[|v.tree.keys| - 1]) && l.Holds(t, h, DropLastView(v, bl))
  {
    up := l.keys[l.keyCount - 1];
    l.keyCount := l.keyCount - 1;
  }

  /** The last subtree of `v` changes sides. */
  lemma {:induction false} RotateRightForest(v: View, w: View, k: Entry, t: nat, h: nat) returns (bl: set<object>, br: set<object>)
    requires 1 <= |v.tree.keys| && |v.kids| == |v.tree.children| && Arity(v.tree)
    requires Grown(v, t, h) && Grown(w, t, h) && v.below !! w.below
    ensures bl !! br && bl + br == v.below + w.below
    ensures Grown(DropLastView(v, bl), t, h)
    ensures Grown(PrependView(LastOf(v.kids), LastOf(v.tree.children), k, w, br), t, h)
  {
    var n := if v.kids == [] then 0 else |v.kids| - 1;
    assert v.kids == v.kids[..n] + LastOf(v.kids) && v.tree.children == v.tree.children[..n] + LastOf(v.tree.children);
    var u;
    bl, u := ForestSplit(v.kids[..n], v.tree.children[..n], LastOf(v.kids), LastOf(v.tree.children), t, h, v.below);
    ForestJoin(LastOf(v.kids), LastOf(v.tree.children), u, w.kids, w.tree.children, w.below, t, h);
    br := u + w.below;
  }

  /** The part of btree_node_borrow_from_prev_child below the parent. */
  method RotateRight(t: nat, ghost h: nat, l: BNode, r: BNode, k: Slot) returns (up: Slot)
    requires l.Valid(t, h) && r.Valid(t, h) && l.Repr() !! r.Repr()
    requires 1 <= l.keyCount && r.keyCount < 2 * t - 1 && k != Null
    modifies l, r, r.keys, r.children
    ensures Arity(old(l.view).tree) && up == Tuple(old(l.view).tree.keys[|old(l.view).tree.keys| - 1])
    ensures l.Valid(t, h) && l.view.tree == DropLast(old(l.view).tree)
    ensures r.Valid(t, h) && r.view.tree == Prepend(LastOf(old(l.view).tree.children), k.entry, old(r.view).tree)
    ensures l.Repr() !! r.Repr() && l.view.below + r.view.below == old(l.view).below + old(r.view).below
  {
    ghost var v, w := l.view, r.view;
    ghost var bl, br := RotateRightForest(v, w, k.entry, t, h);
    up := RotateRightSlots(t, h, l, v, r, w, k, bl, br);
    SealTwo(l, DropLastView(v, bl), r, PrependView(LastOf(v.kids), LastOf(v.tree.children), k.entry, w, br), t, h);
  }

  /** `k` and, above the leaves, the child `c` come last in `l`. */
  method PushBack(t: nat, ghost h: nat, l: BNode, ghost v: View, k: Slot, c: BNode?,
                  ghost cs: seq<BNode>, ghost ts: seq<Tree>, ghost below: set<object>)
    requires l.Holds(t, h, v) && l.keyCount < 2 * t - 1 && k != Null
    requires |ts| == |cs| && if h == 0 then cs == [] else c != null && cs == [c]
    modifies l`keyCount, l.keys, l.children
    ensures l.Holds(t, h, AppendView(v, k.entry, cs, ts, below))
  {
    l.keys[l.keyCount] := k;
    if !l.isLeaf {
      l.children[l.keyCount + 1] := c;
    }
    l.keyCount := l.keyCount + 1;
  }

  /** Everything in `r` moves down by one; the first entry goes and, above the leaves, the first child. */
  method PopFront(t: nat, ghost h: nat, r: BNode, ghost w: View, ghost below: set<object>)
    requires r.Holds(t, h, w) && 1 <= r.keyCount
    modifies r`keyCount, r.keys, r.children
    ensures r.Holds(t, h, DropFirstView(w, below))
  {
    assert Shows(r.keys, w.tree.keys, w.tree.spare);
    PopKey(r.keys, r.keyCount, w.tree.keys, w.tree.spare);
    if !r.isLeaf {
      ShiftDown(r.children, 1, r.keyCount + 1);
      r.children[r.keyCount] := null;
    }
    r.keyCount := r.keyCount - 1;
  }

  /** The first key goes, the others move down by one, and the slot of the last one is zeroed. */
  method PopKey(a: array<Slot>, n: nat, ghost ks: seq<Entry>, ghost spare: seq<Slot>)
    requires 1 <= n == |ks| && Shows(a, ks, spare)
    modifies a
    ensures Shows(a, ks[1..], [Null] + spare)
  {
    ShiftDown(a, 1, n);
    a[n - 1] := Null;
  }

  /** The slot moves of btree_node_borrow_from_next_child in the two children. */
  method RotateLeftSlots(t: nat, ghost h: nat, l: BNode, ghost v: View, r: BNode, ghost w: View, k: Slot,
                         ghost bl: set<object>, ghost br: set<object>) returns (up: Slot)
    requires l.Holds(t, h, v) && r.Holds(t, h, w) && 1 <= r.keyCount && l.keyCount < 2 * t - 1 && k != Null
    requires l != r && l.keys != r.keys && l.children != r.children
    modifies l`keyCount, r`keyCount, l.keys, l.children, r.keys, r.children
    ensures up == Tuple(w.tree.keys[0])
    ensures l.Holds(t, h, AppendView(v, k.entry, FirstOf(w.kids), FirstOf(w.tree.children), bl))
    ensures r.Holds(t, h, DropFirstView(w, br))
  {
    var c := if r.isLeaf then null else r.children[0];
    PushBack(t, h, l, v, k, c, FirstOf(w.kids), FirstOf(w.tree.children), bl);
    up := r.keys[0];
    PopFront(t, h, r, w, br);
  }

  /** The first subtree of `w` changes sides. */
  lemma {:induction false} RotateLeftForest(v: View, k: Entry, w: View, t: nat, h: nat) returns (bl: set<object>, br: set<object>)
    requires 1 <= |w.tree.keys| && |w.kids| == |w.tree.children| && Arity(w.tree)
    requires Grown(v, t, h) && Grown(w, t, h) && v.below !! w.below
    ensures bl !! br && bl + br == v.below + w.below
    ensures Grown(AppendView(v, k, FirstOf(w.kids), FirstOf(w.tree.children), bl), t, h)
    ensures Grown(DropFirstView(w, br), t, h)
  {
    var n := if w.kids == [] then 0 else 1;
    assert w.kids == FirstOf(w.kids) + w.kids[n..] && w.tree.children == FirstOf(w.tree.children) + w.tree.children[n..];
    var u;
    u, br := ForestSplit(FirstOf(w.kids), FirstOf(w.tree.children), w.kids[n..], w.tree.children[n..], t, h, w.below);
    ForestJoin(v.kids, v.tree.children, v.below, FirstOf(w.kids), FirstOf(w.tree.children), u, t, h);
    bl := v.below + u;
  }

  /** The part of btree_node_borrow_from_next_child below the parent. */
  method RotateLeft(t: nat, ghost h: nat, l: BNode, r: BNode, k: Slot) returns (up: Slot)
    requires l.Valid(t, h) && r.Valid(t, h) && l.Repr() !! r.Repr()
    requires 1 <= r.keyCount && l.keyCount < 2 * t - 1 && k != Null
    modifies l, l.keys, l.children, r, r.keys, r.children
    ensures Arity(old(r.view).tree) && up == Tuple(old(r.view).tree.keys[0])
    ensures l.Valid(t, h) && l.view.tree == Append(old(l.view).tree, k.entry, FirstOf(old(r.view).tree.children))
    ensures r.Valid(t, h) && r.view.tree == DropFirst(old(r.view).tree)
    ensures l.Repr() !! r.Repr() && l.view.below + r.view.below == old(l.view).below + old(r.view).below
  {
    ghost var v, w := l.view, r.view;
    ghost var bl, br := RotateLeftForest(v, k.entry, w, t, h);
    up := RotateLeftSlots(t, h, l, v, r, w, k, bl, br);
    SealTwo(l, AppendView(v, k.entry, FirstOf(w.kids), FirstOf(w.tree.children), bl), r, DropFirstView(w, br), t, h);
  }

  ghost function PairView(v: View, i: nat, l: Tree, k: Entry, r: Tree): View
    requires i < |v.tree.keys| && |v.tree.children| == |v.tree.keys| + 1
  {
    View(WithPair(v.tree, i, l, k, r), v.kids, v.below)
  }

  /** The opposite of FocusTwo, both children having changed in the meantime. */
  lemma {:induction false} RefocusTwo(v: View, i: nat, k: Entry, u: set<object>, t: nat, h: nat)
    requires i < |v.tree.keys| && |v.kids| == |v.tree.children| == |v.tree.keys| + 1 && 0 < h
    requires v.kids[i].Valid(t, h - 1) && v.kids[i + 1].Valid(t, h - 1)
    requires ContextTwo(v, i, u, t, h) && u !! v.kids[i].Repr() && u !! v.kids[i + 1].Repr()
    requires v.kids[i].Repr() !! v.kids[i + 1].Repr() && v.below == u + v.kids[i].Repr() + v.kids[i + 1].Repr()
    ensures Grown(PairView(v, i, v.kids[i].view.tree, k, v.kids[i + 1].view.tree), t, h)
  {
    var l, r, cs := v.kids[i], v.kids[i + 1], v.tree.children;
    ForestOne(l, t, h);
    ForestOne(r, t, h);
    ForestJoin([l], [l.view.tree], l.Repr(), [r], [r.view.tree], r.Repr(), t, h);
    ForestInsertTwo(v, i, [l] + [r], [l.view.tree] + [r.view.tree], u, l.Repr() + r.Repr(), t, h);
    assert v.kids[..i] + ([l] + [r]) + v.kids[i + 2..] == v.kids;
    assert cs[..i] + ([l.view.tree] + [r.view.tree]) + cs[i + 2..] == cs[i := l.view.tree][i + 1 := r.view.tree];
    assert u + (l.Repr() + r.Repr()) == v.below;
  }

  /** btree_node_borrow_from_prev_child, for child `i+1`. */
  method NodeBorrowPrev(t: nat, ghost h: nat, x: BNode, i: nat)
    requires 2 <= t && 0 < h && x.Valid(t, h) && i < x.keyCount
    requires 1 <= |x.view.tree.children[i].keys| && |x.view.tree.children[i + 1].keys| < 2 * t - 1 && Arity(x.view.tree.children[i])
    modifies x, x.keys, x.view.below
    ensures x.Valid(t, h) && x.view.below == old(x.view).below
    ensures x.view.tree == BorrowPrev(old(x.view).tree, i)
  {
    ghost var v := x.view;
    var up;
    ghost var w;
    up, w := BorrowPrevBelow(t, h, x, v, i);
    x.keys[i] := up;
    Seal(x, t, h, w);
  }

  /** The part of btree_node_borrow_from_prev_child in the two children. */
  method BorrowPrevBelow(t: nat, ghost h: nat, x: BNode, ghost v: View, i: nat) returns (up: Slot, ghost w: View)
    requires 2 <= t && 0 < h && x.Holds(t, h, v) && x.Outside(v.below) && Grown(v, t, h) && i < x.keyCount
    requires 1 <= |v.tree.children[i].keys| && |v.tree.children[i + 1].keys| < 2 * t - 1 && Arity(v.tree.children[i])
    modifies v.below
    ensures up == Tuple(v.tree.children[i].keys[|v.tree.children[i].keys| - 1])
    ensures w == View(BorrowPrev(v.tree, i), v.kids, v.below) && Grown(w, t, h)
  {
    ghost var u := FocusTwo(v, i, t, h);
    ghost var l, r := v.kids[i], v.kids[i + 1];
    up := RotateRight(t, h - 1, x.children[i], x.children[i + 1], x.keys[i]);
    RefocusTwo(v, i, up.entry, u, t, h);
    w := PairView(v, i, l.view.tree, up.entry, r.view.tree);
  }

  /** btree_node_borrow_from_next_child, for child `i`. */
  method NodeBorrowNext(t: nat, ghost h: nat, x: BNode, i: nat)
    requires 2 <= t && 0 < h && x.Valid(t, h) && i < x.keyCount
    requires 1 <= |x.view.tree.children[i + 1].keys| && |x.view.tree.children[i].keys| < 2 * t - 1
    requires Arity(x.view.tree.children[i + 1])
    modifies x, x.keys, x.view.below
    ensures x.Valid(t, h) && x.view.below == old(x.view).below
    ensures x.view.tree == BorrowNext(old(x.view).tree, i)
  {
    ghost var v := x.view;
    var up;
    ghost var w;
    up, w := BorrowNextBelow(t, h, x, v, i);
    x.keys[i] := up;
    Seal(x, t, h, w);
  }

  /** The part of btree_node_borrow_from_next_child in the two children. */
  method BorrowNextBelow(t: nat, ghost h: nat, x: BNode, ghost v: View, i: nat) returns (up: Slot, ghost w: View)
    requires 2 <= t && 0 < h && x.Holds(t, h, v) && x.Outside(v.below) && Grown(v, t, h) && i < x.keyCount
    requires 1 <= |v.tree.children[i + 1].keys| && |v.tree.children[i].keys| < 2 * t - 1 && Arity(v.tree.children[i + 1])
    modifies v.below
    ensures up == Tuple(v.tree.children[i + 1].keys[0])
    ensures w == View(BorrowNext(v.tree, i), v.kids, v.below) && Grown(w, t, h)
  {
    ghost var u := FocusTwo(v, i, t, h);
    ghost var l, r := v.kids[i], v.kids[i + 1];
    up := RotateLeft(t, h - 1, x.children[i], x.children[i + 1], x.keys[i]);
    RefocusTwo(v, i, up.entry, u, t, h);
    w := PairView(v, i, l.view.tree, up.entry, r.view.tree);
  }

  /** The number of keys of child `i`, read off the object. */
  method ChildCount(t: nat, ghost h: nat, x: BNode, i: nat) returns (n: nat)
    requires 0 < h && x.Valid(t, h) && i <= x.keyCount
    ensures n == |x.view.tree.children[i].keys|
  {
    ForestAt(x.view.kids, x.view.tree.children, i, t, h, x.view.below);
    n := x.children[i].keyCount;
  }

  /** btree_node_fill. */
  method NodeFill(t: nat, ghost h: nat, x: BNode, i: nat)
    requires 2 <= t && 0 < h && x.Valid(t, h) && Fillable(x.view.tree, i, t)
    modifies x, x.keys, x.children, x.view.below
    ensures x.Valid(t, h) && fresh(x.view.below - old(x.view).below)
    ensures x.view.tree == FillStep(old(x.view).tree, i, t)
  {
    var prev, next := Lenders(t, h, x, i);
    if prev {
      NodeBorrowPrev(t, h, x, i - 1);
    } else if next {
      NodeBorrowNext(t, h, x, i);
    } else {
      FillByMerging(t, h, x, i);
    }
  }

  /** The last branch of btree_node_fill. */
  method FillByMerging(t: nat, ghost h: nat, x: BNode, i: nat)
    requires 2 <= t && 0 < h && x.Valid(t, h) && Fillable(x.view.tree, i, t)
    requires i != 0 ==> |x.view.tree.children[i - 1].keys| < t
    requires i != x.keyCount ==> |x.view.tree.children[i + 1].keys| < t
    modifies x, x.keys, x.children, x.view.below
    ensures x.Valid(t, h) && fresh(x.view.below - old(x.view).below)
    ensures x.view.tree == FillStep(old(x.view).tree, i, t)
  {
    FillMerges(x.view.tree, i, t);
    NodeMerge(t, h, x, if i != x.keyCount then i else i - 1);
  }

  /** Which neighbours of child `i` have a key to spare. */
  method Lenders(t: nat, ghost h: nat, x: BNode, i: nat) returns (prev: bool, next: bool)
    requires 0 < h && x.Valid(t, h) && i <= x.keyCount
    ensures prev <==> i != 0 && |x.view.tree.children[i - 1].keys| >= t
    ensures next <==> i != x.keyCount && |x.view.tree.children[i + 1].keys| >= t
  {
    prev, next := false, false;
    if i != 0 {
      var n := ChildCount(t, h, x, i - 1);
      prev := n >= t;
    }
    if i != x.keyCount {
      var n := ChildCount(t, h, x, i + 1);
      next := n >= t;
    }
  }

  /** The recursive calls of btree_node_remove. */
  method NodeRemoveFrom(t: nat, ghost h: nat, x: BNode, i: nat, k: int)
    requires 2 <= t && 0 < h && x.Valid(t, h) && i <= x.keyCount
    requires Balanced(x.view.tree.children[i], t, h - 1) && 1 <= |x.view.tree.children[i].keys|
    modifies x`view, x.view.below
    ensures x.Valid(t, h) && fresh(x.view.below - old(x.view).below)
    ensures x.view.tree == WithChild(old(x.view).tree, i, Remove(old(x.view).tree.children[i], k, t, h - 1))
    ensures unchanged(x.keys)
    decreases h, 0
  {
    ghost var v := x.view;
    ghost var u := Focus(v, i, t, h);
    NodeRemove(t, h - 1, x.children[i], k);
    Refocus(v, i, u, t, h);
    Seal(x, t, h, BelowWith(v, i, v.kids[i].view.tree, u + v.kids[i].Repr()));
  }

  /** Child `i`, or what has become of it, gets a key to spare if it has none. */
  method FillIfShort(t: nat, ghost h: nat, x: BNode, i: nat) returns (j: nat)
    requires 2 <= t && 0 < h && x.Valid(t, h) && i <= x.keyCount
    requires |x.view.tree.children[i].keys| < t ==> Fillable(x.view.tree, i, t)
    modifies x, x.keys, x.children, x.view.below
    ensures x.Valid(t, h) && fresh(x.view.below - old(x.view).below)
    ensures x.view.tree == if |old(x.view).tree.children[i].keys| < t then FillStep(old(x.view).tree, i, t) else old(x.view).tree
    ensures j == if i > x.keyCount then i - 1 else i
  {
    var n := ChildCount(t, h, x, i);
    if n < t {
      NodeFill(t, h, x, i);
    }
    j := if i > x.keyCount then i - 1 else i;
  }

  /** The descending branch of btree_node_remove: the key can only be below child `i`. */
  method Descend(t: nat, ghost h: nat, x: BNode, i: nat, k: int)
    requires 2 <= t && 0 < h && x.Valid(t, h) && Balanced(x.view.tree, t, h) && 1 <= x.keyCount
    requires i == FindPos(x.view.tree.keys, k) && (i < x.keyCount ==> x.view.tree.keys[i].key != k)
    modifies x, x.keys, x.children, x.view.below
    ensures x.Valid(t, h) && fresh(x.view.below - old(x.view).below)
    ensures x.view.tree == Remove(old(x.view).tree, k, t, h)
    decreases h, 1
  {
    DescendCases(x.view.tree, k, t, h);
    var j := FillIfShort(t, h, x, i);
    NodeRemoveFrom(t, h, x, j, k);
  }

  /** Key `i` of an inner node is overwritten. */
  method SetKey(t: nat, ghost h: nat, x: BNode, i: nat, e: Slot)
    requires x.Valid(t, h) && i < x.keyCount && e != Null
    modifies x`view, x.keys
    ensures x.Valid(t, h) && x.view == old(x.view).(tree := old(x.view).tree.(keys := old(x.view).tree.keys[i := e.entry]))
  {
    x.keys[i] := e;
    Seal(x, t, h, x.view.(tree := x.view.tree.(keys := x.view.tree.keys[i := e.entry])));
  }

  /** btree_node_remove_from_inter_node, predecessor branch. */
  method RemoveByPredecessor(t: nat, ghost h: nat, x: BNode, i: nat)
    requires 2 <= t && 0 < h && x.Valid(t, h) && i < x.keyCount
    requires Balanced(x.view.tree.children[i], t, h - 1) && 1 <= |x.view.tree.children[i].keys|
    modifies x`view, x.keys, x.view.below
    ensures x.Valid(t, h) && fresh(x.view.below - old(x.view).below)
    ensures var v := old(x.view).tree;
            var e := LastEntry(v.children[i], t, h - 1);
            x.view.tree == WithChild(v.(keys := v.keys[i := e]), i, Remove(v.children[i], e.key, t, h - 1))
    decreases h, 1
  {
    var pred := LiftPredecessor(t, h, x, i);
    NodeRemoveFrom(t, h, x, i, pred.entry.key);
  }

  method LiftPredecessor(t: nat, ghost h: nat, x: BNode, i: nat) returns (pred: Slot)
    requires 2 <= t && 0 < h && x.Valid(t, h) && i < x.keyCount
    requires Balanced(x.view.tree.children[i], t, h - 1) && 1 <= |x.view.tree.children[i].keys|
    modifies x`view, x.keys
    ensures pred == Tuple(LastEntry(old(x.view).tree.children[i], t, h - 1))
    ensures x.Valid(t, h) && x.view == old(x.view).(tree := old(x.view).tree.(keys := old(x.view).tree.keys[i := pred.entry]))
  {
    ForestAt(x.view.kids, x.view.tree.children, i, t, h, x.view.below);
    pred := Predecessor(t, h - 1, x.children[i]);
    SetKey(t, h, x, i, pred);
  }

  /** btree_node_remove_from_inter_node, successor branch. */
  method RemoveBySuccessor(t: nat, ghost h: nat, x: BNode, i: nat)
    requires 2 <= t && 0 < h && x.Valid(t, h) && i < x.keyCount
    requires Balanced(x.view.tree.children[i + 1], t, h - 1) && 1 <= |x.view.tree.children[i + 1].keys|
    modifies x`view, x.keys, x.view.below
    ensures x.Valid(t, h) && fresh(x.view.below - old(x.view).below)
    ensures var v := old(x.view).tree;
            var e := FirstEntry(v.children[i + 1], t, h - 1);
            x.view.tree == WithChild(v.(keys := v.keys[i := e]), i + 1, Remove(v.children[i + 1], e.key, t, h - 1))
    decreases h, 1
  {
    var succ := LiftSuccessor(t, h, x, i);
    NodeRemoveFrom(t, h, x, i + 1, succ.entry.key);
  }

  method LiftSuccessor(t: nat, ghost h: nat, x: BNode, i: nat) returns (succ: Slot)
    requires 2 <= t && 0 < h && x.Valid(t, h) && i < x.keyCount
    requires Balanced(x.view.tree.children[i + 1], t, h - 1) && 1 <= |x.view.tree.children[i + 1].keys|
    modifies x`view, x.keys
    ensures succ == Tuple(FirstEntry(old(x.view).tree.children[i + 1], t, h - 1))
    ensures x.Valid(t, h) && x.view == old(x.view).(tree := old(x.view).tree.(keys := old(x.view).tree.keys[i := succ.entry]))
  {
    ForestAt(x.view.kids, x.view.tree.children, i + 1, t, h, x.view.below);
    succ := Successor(t, h - 1, x.children[i + 1]);
    SetKey(t, h, x, i, succ);
  }

  /** btree_node_remove_from_inter_node, merging branch. */
  method RemoveByMerge(t: nat, ghost h: nat, x: BNode, i: nat)
    requires 2 <= t && 0 < h && x.Valid(t, h) && i < x.keyCount
    requires |x.view.tree.children[i].keys| == |x.view.tree.children[i + 1].keys| == t - 1
    requires Balanced(Merge(x.view.tree, i).children[i], t, h - 1)
    modifies x, x.keys, x.children, x.view.below
    ensures x.Valid(t, h) && fresh(x.view.below - old(x.view).below)
    ensures var m := Merge(old(x.view).tree, i);
            x.view.tree == WithChild(m, i, Remove(m.children[i], old(x.view).tree.keys[i].key, t, h - 1))
    decreases h, 1
  {
    var k := x.keys[i];
    NodeMerge(t, h, x, i);
    NodeRemoveFrom(t, h, x, i, k.entry.key);
  }

  /** btree_node_remove_from_inter_node. */
  method NodeRemoveInner(t: nat, ghost h: nat, x: BNode, i: nat)
    requires 2 <= t && 0 < h && x.Valid(t, h) && Balanced(x.view.tree, t, h) && i < x.keyCount
    modifies x, x.keys, x.children, x.view.below
    ensures x.Valid(t, h) && fresh(x.view.below - old(x.view).below)
    ensures x.view.tree == RemoveInner(old(x.view).tree, i, t, h)
    decreases h, 2
  {
    InnerCases(x.view.tree, i, t, h);
    var n := ChildCount(t, h, x, i);
    var m := ChildCount(t, h, x, i + 1);
    if n >= t {
      RemoveByPredecessor(t, h, x, i);
    } else if m >= t {
      RemoveBySuccessor(t, h, x, i);
    } else {
      RemoveByMerge(t, h, x, i);
    }
  }

  /** btree_node_remove. */
  method NodeRemove(t: nat, ghost h: nat, x: BNode, k: int)
    requires 2 <= t && x.Valid(t, h) && Balanced(x.view.tree, t, h) && (0 < h ==> 1 <= x.keyCount)
    modifies x, x.keys, x.children, x.view.below
    ensures x.Valid(t, h) && fresh(x.view.below - old(x.view).below)
    ensures x.view.tree == Remove(old(x.view).tree, k, t, h)
    decreases h, 3
  {
    var i := FindKey(t, h, x, k);
    if i < x.keyCount && x.keys[i].entry.key == k {
      if x.isLeaf {
        RemoveFromLeaf(t, x, i);
      } else {
        NodeRemoveInner(t, h, x, i);
      }
    } else if !x.isLeaf {
      Descend(t, h, x, i, k);
    }
  }

  lemma {:induction false} RootStays(x: Tree, k: int, t: nat, h: nat)
    requires 2 <= t && Balanced(x, t, h) && 1 <= |x.keys|
    ensures |Remove(x, k, t, h).keys| >= |x.keys| - 1
  {}

  /** struct btree_head. */
  class BTreeHead {
    var root: BNode?
    const minDegree: nat
    ghost var height: nat

    ghost predicate Valid()
      reads this, root, if root == null then {} else root.Repr()
    {
      && 2 <= minDegree
      && (root != null ==>
           && root.Valid(minDegree, height) && this !in root.view.below
           && ValidRoot(root.view.tree, minDegree, height))
    }

    /** What the tree is worth. */
    ghost function Model(): Root
      reads this, root
    {
      if root == null then Empty else Root(root.view.tree, height)
    }

    /** No slot past a key_count holds a key; true until the first removal. */
    ghost predicate Clean()
      reads this, root
    {
      CleanTree(Model())
    }

    ghost function Repr(): set<object>
      reads this, root
    {
      {this} + if root == null then {} else root.Repr()
    }

    /** btree_init; the source insists on a minimum degree of 2. */
    constructor (minDegree: nat)
      requires 2 <= minDegree
      ensures Valid() && Model() == Empty && Clean() && this.minDegree == minDegree && fresh(Repr())
    {
      root := null;
      this.minDegree := minDegree;
    }

    /** What a search for `k` meets in a slot that is no longer in use. */
    ghost function Leftover(k: int): Option<Entry>
      reads this, root
    {
      StaleTree(Model(), k)
    }

    /** btree_lookup: what the tree holds, unless the search meets a leftover first. */
    method Lookup(k: int) returns (r: Option<int>)
      requires Valid()
      ensures r == if Leftover(k).Some? then Some(Leftover(k).value.val) else LookupTree(Model(), k, minDegree)
    {
      if root == null {
        return None;
      }
      var found := NodeSearch(minDegree, height, root, k);
      match found
      case None => r := None;
      case Some(e) => r := Some(e.val);
    }

    /** btree_insert. */
    method Insert(k: int, v: int)
      requires Valid()
      modifies Repr()
      ensures Valid() && Model() == InsertTree(old(Model()), Entry(k, v), minDegree)
      ensures fresh(Repr() - old(Repr()))
    {
      InsertTreeCorrect(Model(), Entry(k, v), minDegree);
      if root == null {
        root := FirstNode(minDegree, Entry(k, v));
        height := 0;
      } else if root.keyCount == 2 * minDegree - 1 {
        InsertSplittingRoot(Entry(k, v));
        assert Look(0);
      } else {
        NodeInsert(minDegree, height, root, Entry(k, v));
        assert Look(0);
      }
    }

    method InsertSplittingRoot(e: Entry)
      requires Valid() && root != null && root.keyCount == 2 * minDegree - 1
      modifies Repr()
      ensures Valid() && InsertedTo(Model(), old(Model()), e, minDegree) && fresh(Repr() - old(Repr()))
    {
      ghost var x := root.view.tree;
      root := InsertAtFullRoot(minDegree, height, root, e);
      RootInserted(root.view.tree, x, e, minDegree, height);
      height := height + 1;
    }

    /** Removing `k` merges the last two children of a root that has another key. */
    ghost predicate MergesAtRoot(x: Tree, k: int) {
      |x.keys| >= 2 && MergedAway(x, k, minDegree)
    }

    /** btree_remove. */
    method Remove(k: int)
      requires Valid()
      modifies Repr()
      ensures Valid() && Model() == RemoveTree(old(Model()), k, minDegree)
      ensures fresh(Repr() - old(Repr()))
    {
      if root != null {
        RemoveFromRoot(k);
      }
    }

    method RemoveFromRoot(k: int)
      requires Valid() && root != null
      modifies Repr()
      ensures Valid() && Model() == RemoveTree(old(Model()), k, minDegree) && fresh(Repr() - old(Repr()))
    {
      RootStays(root.view.tree, k, minDegree, height);
      RemoveTreeCorrect(Model(), k, minDegree);
      NodeRemove(minDegree, height, root, k);
      Shrink();
    }

    /**
     A search for a key that has just gone from a root that is a leaf still finds it exactly when it was the last of two or
     more: it stays behind in the slot that the search looks at, unless the root goes with its only key.
     */
    method LookupAfterRemove(k: int) returns (r: Option<int>)
      requires Valid() && root != null && height == 0 && Distinct(root.view.tree.keys) && Has(root.view.tree.keys, k)
      modifies Repr()
      ensures var ks := old(root.view.tree.keys); r.Some? <==> |ks| >= 2 && ks[|ks| - 1].key == k
    {
      LeafKeeps(root.view.tree, k, minDegree);
      Remove(k);
      r := Lookup(k);
    }

    /**
     Where the last two children of the root were merged, every search for the last key of the root stops at the slot that
     the key has left: it is found, in use below or gone, and an update of it goes nowhere.
     */
    method UpdateAfterMerge(k: int, v: int) returns (found: Option<int>, ok: bool)
      requires Valid() && root != null && height > 0 && MergesAtRoot(root.view.tree, k) && Distinct(root.view.tree.keys)
      modifies Repr()
      ensures Valid() && Contents(Model()) == Contents(RemoveTree(old(Model()), k, minDegree))
      ensures var ks := old(root.view.tree.keys); found == Some(ks[|ks| - 1].val) && ok
    {
      found, ok := UpdateKept(k, v);
      assert Look(0);
    }

    /** The tree holds what removing `k` from `x` leaves; folded. */
    ghost predicate RemovedFrom(x: Root, k: int)
      reads this, root
    {
      forall i :: Look(i) ==>
        2 <= minDegree && ValidTree(x, minDegree) && Contents(Model()) == Contents(RemoveTree(x, k, minDegree))
    }

    method UpdateKept(k: int, v: int) returns (found: Option<int>, ok: bool)
      requires Valid() && root != null && height > 0 && MergesAtRoot(root.view.tree, k) && Distinct(root.view.tree.keys)
      modifies Repr()
      ensures Valid() && RemovedFrom(old(Model()), k)
      ensures var ks := old(root.view.tree.keys); found == Some(ks[|ks| - 1].val) && ok
    {
      var last := root.keys[root.keyCount - 1].entry.key;
      RemoveMerging(k);
      found, ok := UpdateLeftover(last, v);
    }

    /** Where the search meets a leftover, that is what is found and what is updated. */
    method UpdateLeftover(k: int, v: int) returns (found: Option<int>, ok: bool)
      requires Valid() && Leftover(k).Some?
      modifies Repr()
      ensures Valid() && Contents(Model()) == old(Contents(Model())) && found == Some(old(Leftover(k)).value.val) && ok
    {
      WriteTreeMeans(Model(), k, v, minDegree);
      found := Lookup(k);
      ok := Update(k, v);
    }

    method RemoveMerging(k: int)
      requires Valid() && root != null && height > 0 && MergesAtRoot(root.view.tree, k) && Distinct(root.view.tree.keys)
      modifies Repr()
      ensures Valid() && RemovedFrom(old(Model()), k) && fresh(Repr() - old(Repr()))
      ensures var ks := old(root.view.tree.keys); Leftover(ks[|ks| - 1].key) == Some(ks[|ks| - 1])
    {
      ghost var x := root.view.tree;
      KeysSorted(x);
      LastStays(x, k, minDegree, height);
      RootStays(x, k, minDegree, height);
      Remove(k);
    }

    /** The end of btree_remove: a root without keys gives way. */
    method Shrink()
      requires root != null && 2 <= minDegree && root.Valid(minDegree, height) && this !in root.view.below
      requires ValidTree(ShrunkRoot(root.view.tree, height), minDegree)
      modifies this
      ensures Valid() && Model() == ShrunkRoot(old(root.view.tree), old(height)) && Repr() <= old(Repr())
    {
      if root.keyCount == 0 {
        if root.isLeaf {
          root := null;
        } else {
          ForestAt(root.view.kids, root.view.tree.children, 0, minDegree, height, root.view.below);
          root := root.children[0];
          height := height - 1;
        }
      }
    }

    /** btree_update: what the search stops at takes the new value, in use or not. */
    method Update(k: int, v: int) returns (ok: bool)
      requires Valid()
      modifies Repr()
      ensures Valid() && Repr() == old(Repr()) && Model() == WriteTree(old(Model()), k, v, minDegree)
      ensures ok <==> old(Leftover(k)).Some? || LookupTree(old(Model()), k, minDegree).Some?
    {
      WriteTreeMeans(Model(), k, v, minDegree);
      if root == null {
        return false;
      }
      ok := NodeUpdate(minDegree, height, root, k, v);
    }
  }
}
