/**
 The B-tree as a mathematical value: what each routine of src/datastructure/btree.c
 turns a (sub)tree into, and why the result is again a B-tree holding the right entries.

 A node keeps what all its key slots hold, those past key_count too; a leaf is a node without children.
 */
module BTreeSpec {
  import opened Wrappers
  import opened Folding

  datatype Entry = Entry(key: int, val: int)

  /** struct btree_node_tuple; a zeroed one has a null key. */
  datatype Slot = Null | Tuple(entry: Entry)

  /** The keys and children in use, and the key slots behind them. */
  datatype Tree = Node(keys: seq<Entry>, children: seq<Tree>, spare: seq<Slot>)

  function Nulls(n: nat): seq<Slot> {
    seq(n, _ => Null)
  }

  /** The slots from number `n` on. */
  function From(s: seq<Slot>, n: nat): seq<Slot> {
    if n <= |s| then s[n..] else []
  }

  /** The spare slots of a node that loses key `i` while the ones behind it move down and are zeroed where they were. */
  function Vacated(x: Tree, i: nat): seq<Slot>
    requires i < |x.keys|
  {
    [if i + 1 < |x.keys| then Null else Tuple(x.keys[i])] + x.spare
  }

  // ---------------------------------------------------------------- shape

  /** Every leaf is `h` levels below `x`, no node overflows, and every node under `x` has at least t-1 keys. */
  ghost predicate Balanced(x: Tree, t: nat, h: nat)
    decreases h
  {
    && |x.keys| <= 2 * t - 1
    && if h == 0 then x.children == [] else
      && |x.children| == |x.keys| + 1
      && forall k :: Enter(k) ==>
           forall i :: 0 <= i < |x.children| ==> t - 1 <= |x.children[i].keys| && Balanced(x.children[i], t, h - 1)
  }

  /** A leaf, or an inner node with one child more than it has keys. */
  ghost predicate Arity(x: Tree) {
    x.children == [] || |x.children| == |x.keys| + 1
  }

  /** A whole tree: the root may hold fewer than t-1 keys, but not none. */
  ghost predicate ValidRoot(x: Tree, t: nat, h: nat) {
    Balanced(x, t, h) && 1 <= |x.keys| && Sorted(Flat(x))
  }

  // ---------------------------------------------------------------- in-order contents

  /** The in-order sequence of entries. */
  ghost function Flat(x: Tree): seq<Entry>
    decreases x, 1
  {
    if |x.children| != |x.keys| + 1 then x.keys
    else Flat(x.children[0]) + After(x.keys, x.children[1..])
  }

  /** Each key followed by the contents of the child to its right. */
  ghost function After(ks: seq<Entry>, cs: seq<Tree>): seq<Entry>
    requires |ks| == |cs|
    decreases cs, 0
  {
    if cs == [] then [] else [ks[0]] + Flat(cs[0]) + After(ks[1..], cs[1..])
  }

  /** The contents of each child followed by the key to its right. */
  ghost function Before(ks: seq<Entry>, cs: seq<Tree>): seq<Entry>
    requires |ks| == |cs|
    decreases |cs|
  {
    if cs == [] then [] else
      var n := |cs| - 1;
      Before(ks[..n], cs[..n]) + (Flat(cs[n]) + [ks[n]])
  }

  ghost predicate Sorted(s: seq<Entry>) {
    forall i, j :: 0 <= i < j < |s| ==> s[i].key <= s[j].key
  }

  ghost predicate Distinct(s: seq<Entry>) {
    forall i, j :: 0 <= i < j < |s| ==> s[i].key != s[j].key
  }

  ghost function Keys(s: seq<Entry>): (r: seq<int>)
    ensures |r| == |s| && forall i :: 0 <= i < |s| ==> r[i] == s[i].key
  {
    seq(|s|, i requires 0 <= i < |s| => s[i].key)
  }

  /** `x` is its child `i` with everything before and everything after it. */
  lemma {:induction false} FlatAt(x: Tree, i: nat)
    requires |x.children| == |x.keys| + 1 && i < |x.children|
    ensures Flat(x) == Before(x.keys[..i], x.children[..i]) + Flat(x.children[i])
                       + After(x.keys[i..], x.children[i + 1..])
  {
    var ks, cs := x.keys, x.children;
    if i == 0 {
      assert ks[0..] == ks;
    } else {
      FlatAt(x, i - 1);
      assert ks[..i][..i - 1] == ks[..i - 1] && cs[..i][..i - 1] == cs[..i - 1];
      assert ks[i - 1..][1..] == ks[i..] && cs[i..][1..] == cs[i + 1..];
      var b, f, a := Before(ks[..i - 1], cs[..i - 1]), Flat(cs[i - 1]), After(ks[i..], cs[i + 1..]);
      assert After(ks[i - 1..], cs[i..]) == [ks[i - 1]] + Flat(cs[i]) + a;
      assert Before(ks[..i], cs[..i]) == b + (f + [ks[i - 1]]);
      assert b + f + ([ks[i - 1]] + Flat(cs[i]) + a) == b + (f + [ks[i - 1]]) + Flat(cs[i]) + a;
    }
  }

  /** The slots behind the keys do not matter. */
  lemma {:induction false} SameFlat(x: Tree, y: Tree)
    requires x.keys == y.keys && x.children == y.children
    ensures Flat(x) == Flat(y)
  {}

  /** `x` around its key `i`: the child to the left, the key, the child to the right. */
  lemma {:induction false} FlatAround(x: Tree, i: nat)
    requires |x.children| == |x.keys| + 1 && i < |x.keys|
    ensures Flat(x) == Before(x.keys[..i], x.children[..i])
                       + (Flat(x.children[i]) + [x.keys[i]] + Flat(x.children[i + 1]))
                       + After(x.keys[i + 1..], x.children[i + 2..])
  {
    FlatAt(x, i);
    var ks, cs := x.keys[i..], x.children[i + 1..];
    assert ks[1..] == x.keys[i + 1..] && cs[1..] == x.children[i + 2..];
    assert After(ks, cs) == [ks[0]] + Flat(cs[0]) + After(ks[1..], cs[1..]);
  }

  // ---------------------------------------------------------------- searching a node

  /** Where insertion puts `k` among the keys: after every key not above it (the loops at lines 257 and 269). */
  ghost function InsertPos(ks: seq<Entry>, k: int): (p: nat)
    ensures p <= |ks|
    ensures p > 0 ==> ks[p - 1].key <= k
    ensures forall j :: p <= j < |ks| ==> ks[j].key > k
  {
    if ks == [] || ks[|ks| - 1].key <= k then |ks| else InsertPos(ks[..|ks| - 1], k)
  }

  /** The first key not below `k` (btree_node_find_key). */
  ghost function FindPos(ks: seq<Entry>, k: int): (p: nat)
    ensures p <= |ks|
    ensures forall j :: 0 <= j < p ==> ks[j].key < k
    ensures p < |ks| ==> ks[p].key >= k
  {
    if ks == [] || ks[0].key >= k then 0 else 1 + FindPos(ks[1..], k)
  }

  // ---------------------------------------------------------------- insertion

  ghost function WithChild(x: Tree, i: nat, c: Tree): Tree
    requires i < |x.children|
  {
    Node(x.keys, x.children[i := c], x.spare)
  }

  ghost function LeftHalf(y: Tree, t: nat): Tree
    requires 1 <= t && |y.keys| == 2 * t - 1 && (y.children == [] || |y.children| == 2 * t)
  {
    Node(y.keys[..t - 1], if y.children == [] then [] else y.children[..t], Nulls(t) + y.spare)
  }

  ghost function RightHalf(y: Tree, t: nat): Tree
    requires 1 <= t && |y.keys| == 2 * t - 1 && (y.children == [] || |y.children| == 2 * t)
  {
    Node(y.keys[t..], if y.children == [] then [] else y.children[t..], Nulls(t + 1))
  }

  /** btree_split_child: the full child `i` becomes two halves around its middle key. */
  ghost function SplitChild(x: Tree, i: nat, t: nat): Tree
    requires 1 <= t && i <= |x.keys| && |x.children| == |x.keys| + 1
    requires |x.children[i].keys| == 2 * t - 1
    requires x.children[i].children == [] || |x.children[i].children| == 2 * t
  {
    var y := x.children[i];
    Node(x.keys[..i] + [y.keys[t - 1]] + x.keys[i..],
         x.children[..i] + [LeftHalf(y, t), RightHalf(y, t)] + x.children[i + 1..], From(x.spare, 1))
  }

  lemma {:induction false} ChildBalanced(x: Tree, i: nat, t: nat, h: nat)
    requires 0 < h && Balanced(x, t, h) && i < |x.children|
    ensures t - 1 <= |x.children[i].keys| <= 2 * t - 1 && Balanced(x.children[i], t, h - 1)
    ensures x.children[i].children == [] || |x.children[i].children| == |x.children[i].keys| + 1
  {
    assert Enter(0);
  }

  lemma {:induction false} WithChildBalanced(x: Tree, i: nat, c: Tree, t: nat, h: nat)
    requires 0 < h && Balanced(x, t, h) && i < |x.children| && t - 1 <= |c.keys| && Balanced(c, t, h - 1)
    ensures Balanced(WithChild(x, i, c), t, h)
  {
    var r := WithChild(x, i, c);
    forall j | 0 <= j < |r.children| ensures t - 1 <= |r.children[j].keys| && Balanced(r.children[j], t, h - 1) {
      if j != i {
        ChildBalanced(x, j, t, h);
      }
    }
  }

  /** btree_insert_nonfull. */
  ghost function InsertNonFull(x: Tree, e: Entry, t: nat, h: nat): (r: Tree)
    requires 2 <= t && Balanced(x, t, h) && |x.keys| < 2 * t - 1
    ensures Balanced(r, t, h) && |x.keys| <= |r.keys| <= |x.keys| + 1
    decreases h, 1
  {
    var i := InsertPos(x.keys, e.key);
    if h == 0 then
      Node(x.keys[..i] + [e] + x.keys[i..], [], From(x.spare, 1))
    else if |x.children[i].keys| == 2 * t - 1 then
      SplitBalanced(x, i, t, h);
      var s := SplitChild(x, i, t);
      InsertInto(s, if s.keys[i].key < e.key then i + 1 else i, e, t, h)
    else
      ChildBalanced(x, i, t, h);
      InsertInto(x, i, e, t, h)
  }

  /** The recursive call of btree_insert_nonfull, on child `i`. */
  ghost function InsertInto(x: Tree, i: nat, e: Entry, t: nat, h: nat): (r: Tree)
    requires 2 <= t && 0 < h && Balanced(x, t, h) && i < |x.children| && |x.children[i].keys| < 2 * t - 1
    ensures Balanced(r, t, h) && |r.keys| == |x.keys|
    decreases h, 0
  {
    ChildBalanced(x, i, t, h);
    var c := InsertNonFull(x.children[i], e, t, h - 1);
    WithChildBalanced(x, i, c, t, h);
    WithChild(x, i, c)
  }

  /** btree_split_root: a new root over the old one, which is then split. */
  ghost function SplitRoot(x: Tree, t: nat, h: nat): (r: Tree)
    requires 2 <= t && Balanced(x, t, h) && |x.keys| == 2 * t - 1
    ensures Balanced(r, t, h + 1) && |r.keys| == 1
  {
    var s := Node([], [x], Nulls(2 * t));
    SplitBalanced(s, 0, t, h + 1);
    SplitChild(s, 0, t)
  }

  /** btree_insert on a tree with a root. */
  ghost function Insert(x: Tree, e: Entry, t: nat, h: nat): (r: Tree)
    requires 2 <= t && Balanced(x, t, h) && 1 <= |x.keys|
    ensures Balanced(r, t, if |x.keys| == 2 * t - 1 then h + 1 else h) && 1 <= |r.keys|
  {
    if |x.keys| == 2 * t - 1 then InsertNonFull(SplitRoot(x, t, h), e, t, h + 1) else InsertNonFull(x, e, t, h)
  }

  lemma {:induction false} HalvesBalanced(y: Tree, t: nat, h: nat)
    requires 2 <= t && Balanced(y, t, h) && |y.keys| == 2 * t - 1
    ensures y.children == [] || |y.children| == 2 * t
    ensures Balanced(LeftHalf(y, t), t, h) && Balanced(RightHalf(y, t), t, h)
  {
    var r := RightHalf(y, t);
    assert forall j :: 0 <= j < |r.children| ==> r.children[j] == y.children[t + j];
  }

  lemma {:induction false} SplitBalanced(x: Tree, i: nat, t: nat, h: nat)
    requires 2 <= t && 0 < h && Balanced(x, t, h) && |x.keys| < 2 * t - 1
    requires i < |x.children| && |x.children[i].keys| == 2 * t - 1
    ensures Balanced(x.children[i], t, h - 1) && Balanced(SplitChild(x, i, t), t, h)
  {
    ChildBalanced(x, i, t, h);
    HalvesBalanced(x.children[i], t, h - 1);
    var y, s := x.children[i], SplitChild(x, i, t);
    forall j | 0 <= j < |s.children|
      ensures t - 1 <= |s.children[j].keys| && Balanced(s.children[j], t, h - 1)
    {
      if j < i {
        ChildBalanced(x, j, t, h);
      } else if j > i + 1 {
        ChildBalanced(x, j - 1, t, h);
      }
    }
  }

  // ---------------------------------------------------------------- what insertion means

  /** `s2` is `s1` with `e` put in at one position. */
  ghost predicate Inserted(s1: seq<Entry>, e: Entry, s2: seq<Entry>) {
    exists p :: 0 <= p <= |s1| && s2 == s1[..p] + [e] + s1[p..]
  }

  lemma {:induction false} InsertedInContext(a: seq<Entry>, b: seq<Entry>, c: seq<Entry>, e: Entry, b': seq<Entry>)
    requires Inserted(b, e, b')
    ensures Inserted(a + b + c, e, a + b' + c)
  {
    var p :| 0 <= p <= |b| && b' == b[..p] + [e] + b[p..];
    var s, q := a + b + c, |a| + p;
    assert s[..q] == a + b[..p] && s[q..] == b[p..] + c;
    assert a + b' + c == s[..q] + [e] + s[q..];
  }

  ghost predicate AllBelow(s: seq<Entry>, k: int) {
    forall i :: 0 <= i < |s| ==> s[i].key <= k
  }

  ghost predicate AllAbove(s: seq<Entry>, k: int) {
    forall i :: 0 <= i < |s| ==> s[i].key >= k
  }

  lemma {:induction false} SortedTwo(a: seq<Entry>, b: seq<Entry>)
    requires Sorted(a + b)
    ensures Sorted(a) && Sorted(b)
    ensures forall i, j :: 0 <= i < |a| && 0 <= j < |b| ==> a[i].key <= b[j].key
  {
    var s := a + b;
    assert forall i :: 0 <= i < |a| ==> s[i] == a[i];
    assert forall i :: 0 <= i < |b| ==> s[|a| + i] == b[i];
  }

  lemma {:induction false} SortedParts(a: seq<Entry>, b: seq<Entry>, c: seq<Entry>)
    requires Sorted(a + b + c)
    ensures Sorted(a) && Sorted(b) && Sorted(c)
    ensures forall i, j :: 0 <= i < |a| && 0 <= j < |b| ==> a[i].key <= b[j].key
    ensures forall i, j :: 0 <= i < |b| && 0 <= j < |c| ==> b[i].key <= c[j].key
    ensures forall i, j :: 0 <= i < |a| && 0 <= j < |c| ==> a[i].key <= c[j].key
  {
    SortedTwo(a + b, c);
    SortedTwo(a, b);
    assert forall i :: 0 <= i < |a| ==> (a + b)[i] == a[i];
    assert forall i :: 0 <= i < |b| ==> (a + b)[|a| + i] == b[i];
  }

  lemma {:induction false} SortedInContext(a: seq<Entry>, b: seq<Entry>, c: seq<Entry>, e: Entry, b': seq<Entry>)
    requires Sorted(a + b + c) && Sorted(b') && Inserted(b, e, b')
    requires AllBelow(a, e.key) && AllAbove(c, e.key)
    ensures Sorted(a + b' + c)
  {
    SortedParts(a, b, c);
    assert forall i :: 0 <= i < |b'| ==> b'[i] == e || b'[i] in b;
  }

  /** Everything before child `i` is at most the key that precedes it, everything after at least the key that follows. */
  lemma {:induction false} AroundChild(x: Tree, i: nat, k: int)
    requires |x.children| == |x.keys| + 1 && i < |x.children| && Sorted(Flat(x))
    requires i > 0 ==> x.keys[i - 1].key <= k
    requires i < |x.keys| ==> x.keys[i].key >= k
    ensures AllBelow(Before(x.keys[..i], x.children[..i]), k)
    ensures AllAbove(After(x.keys[i..], x.children[i + 1..]), k)
    ensures Sorted(Flat(x.children[i]))
  {
    FlatAt(x, i);
    var b, f, a := Before(x.keys[..i], x.children[..i]), Flat(x.children[i]), After(x.keys[i..], x.children[i + 1..]);
    SortedParts(b, f, a);
    if i > 0 {
      assert b[|b| - 1] == x.keys[i - 1];
    }
    if i < |x.keys| {
      assert a[0] == x.keys[i];
    }
  }

  /** Replacing a child replaces its contents and nothing else. */
  lemma {:induction false} FlatWithChild(x: Tree, i: nat, c: Tree)
    requires |x.children| == |x.keys| + 1 && i < |x.children|
    ensures Flat(x) == Before(x.keys[..i], x.children[..i]) + Flat(x.children[i]) + After(x.keys[i..], x.children[i + 1..])
    ensures Flat(WithChild(x, i, c)) == Before(x.keys[..i], x.children[..i]) + Flat(c) + After(x.keys[i..], x.children[i + 1..])
  {
    var x' := WithChild(x, i, c);
    FlatAt(x, i);
    FlatAt(x', i);
    assert x'.children[..i] == x.children[..i] && x'.children[i + 1..] == x.children[i + 1..];
  }

  /** An inner node cut at key `i` is the part to the left, the key, and the part to the right. */
  lemma {:induction false} FlatSplit(x: Tree, i: nat)
    requires |x.children| == |x.keys| + 1 && i < |x.keys|
    ensures Flat(x) == Flat(Node(x.keys[..i], x.children[..i + 1], [])) + [x.keys[i]]
                       + Flat(Node(x.keys[i + 1..], x.children[i + 1..], []))
  {
    FlatAround(x, i);
    LeftOfKey(x, i);
    RightOfKey(x, i);
    var b, l, k, r, a := Before(x.keys[..i], x.children[..i]), Flat(x.children[i]), [x.keys[i]], Flat(x.children[i + 1]),
                         After(x.keys[i + 1..], x.children[i + 2..]);
    assert b + (l + k + r) + a == (b + l) + k + (r + a);
  }

  lemma {:induction false} LeftOfKey(x: Tree, i: nat)
    requires |x.children| == |x.keys| + 1 && i < |x.keys|
    ensures Flat(Node(x.keys[..i], x.children[..i + 1], [])) == Before(x.keys[..i], x.children[..i]) + Flat(x.children[i])
  {
    var l := Node(x.keys[..i], x.children[..i + 1], []);
    FlatAt(l, i);
    assert l.keys[..i] == x.keys[..i] && l.children[..i] == x.children[..i];
    assert l.keys[i..] == [] && l.children[i + 1..] == [];
  }

  lemma {:induction false} RightOfKey(x: Tree, i: nat)
    requires |x.children| == |x.keys| + 1 && i < |x.keys|
    ensures Flat(Node(x.keys[i + 1..], x.children[i + 1..], [])) == Flat(x.children[i + 1]) + After(x.keys[i + 1..], x.children[i + 2..])
  {
    assert x.children[i + 1..][1..] == x.children[i + 2..];
  }

  /** Splitting a full node around its middle key keeps its contents. */
  lemma {:induction false} HalvesFlat(y: Tree, t: nat)
    requires 2 <= t && |y.keys| == 2 * t - 1 && (y.children == [] || |y.children| == 2 * t)
    ensures Flat(y) == Flat(LeftHalf(y, t)) + [y.keys[t - 1]] + Flat(RightHalf(y, t))
  {
    if y.children == [] {
      assert y.keys == y.keys[..t - 1] + [y.keys[t - 1]] + y.keys[t..];
    } else {
      FlatSplit(y, t - 1);
    }
  }

  lemma {:induction false} SplitAt(x: Tree, i: nat, t: nat)
    requires 2 <= t && |x.children| == |x.keys| + 1 && i < |x.children| && |x.children[i].keys| == 2 * t - 1
    requires x.children[i].children == [] || |x.children[i].children| == 2 * t
    ensures var y := x.children[i];
            Flat(SplitChild(x, i, t))
            == Before(x.keys[..i], x.children[..i]) + (Flat(LeftHalf(y, t)) + [y.keys[t - 1]] + Flat(RightHalf(y, t)))
               + After(x.keys[i..], x.children[i + 1..])
  {
    var s := SplitChild(x, i, t);
    FlatAround(s, i);
    assert s.keys[..i] == x.keys[..i] && s.children[..i] == x.children[..i];
    assert s.keys[i + 1..] == x.keys[i..] && s.children[i + 2..] == x.children[i + 1..];
  }

  lemma {:induction false} SplitFlat(x: Tree, i: nat, t: nat)
    requires 2 <= t && |x.children| == |x.keys| + 1 && i < |x.children| && |x.children[i].keys| == 2 * t - 1
    requires x.children[i].children == [] || |x.children[i].children| == 2 * t
    ensures Flat(SplitChild(x, i, t)) == Flat(x)
  {
    HalvesFlat(x.children[i], t);
    FlatAt(x, i);
    SplitAt(x, i, t);
  }

  lemma {:induction false} LeafInserted(ks: seq<Entry>, i: nat, e: Entry)
    requires Sorted(ks) && i <= |ks|
    requires (i > 0 ==> ks[i - 1].key <= e.key) && (i < |ks| ==> ks[i].key >= e.key)
    ensures Sorted(ks[..i] + [e] + ks[i..]) && Inserted(ks, e, ks[..i] + [e] + ks[i..])
  {}

  lemma {:induction false} SplitBrackets(x: Tree, i: nat, e: Entry, t: nat)
    requires 2 <= t && |x.children| == |x.keys| + 1 && i < |x.children| && |x.children[i].keys| == 2 * t - 1
    requires x.children[i].children == [] || |x.children[i].children| == 2 * t
    requires i > 0 ==> x.keys[i - 1].key <= e.key
    requires i < |x.keys| ==> x.keys[i].key >= e.key
    ensures var s := SplitChild(x, i, t);
            var j := if x.children[i].keys[t - 1].key < e.key then i + 1 else i;
            && s.keys[i] == x.children[i].keys[t - 1] && j < |s.children| && |s.children[j].keys| == t - 1
            && (j > 0 ==> s.keys[j - 1].key <= e.key) && (j < |s.keys| ==> s.keys[j].key >= e.key)
  {}

  /** Insertion below a node adds the entry at one position and keeps the order. */
  lemma {:induction false} InsertNonFullFlat(x: Tree, e: Entry, t: nat, h: nat)
    requires 2 <= t && Balanced(x, t, h) && |x.keys| < 2 * t - 1 && Sorted(Flat(x))
    ensures Sorted(Flat(InsertNonFull(x, e, t, h)))
    ensures Inserted(Flat(x), e, Flat(InsertNonFull(x, e, t, h)))
    decreases h
  {
    var i := InsertPos(x.keys, e.key);
    if h == 0 {
      LeafInserted(x.keys, i, e);
    } else if |x.children[i].keys| == 2 * t - 1 {
      InsertSplitFlat(x, i, e, t, h);
    } else {
      ChildBalanced(x, i, t, h);
      InsertIntoFlat(x, i, e, t, h);
    }
  }

  lemma {:induction false} InsertSplitFlat(x: Tree, i: nat, e: Entry, t: nat, h: nat)
    requires 2 <= t && 0 < h && Balanced(x, t, h) && |x.keys| < 2 * t - 1 && Sorted(Flat(x))
    requires i == InsertPos(x.keys, e.key) && |x.children[i].keys| == 2 * t - 1
    ensures Sorted(Flat(InsertNonFull(x, e, t, h)))
    ensures Inserted(Flat(x), e, Flat(InsertNonFull(x, e, t, h)))
    decreases h, 1
  {
    InsertSplitStep(x, i, e, t, h);
    SplitAround(x, i, e, t, h);
    InsertIntoFlat(SplitChild(x, i, t), if x.children[i].keys[t - 1].key < e.key then i + 1 else i, e, t, h);
  }

  /** After a split the entry belongs below the half on its side of the middle key, which has room. */
  lemma {:induction false} SplitAround(x: Tree, i: nat, e: Entry, t: nat, h: nat)
    requires 2 <= t && 0 < h && Balanced(x, t, h) && |x.keys| < 2 * t - 1
    requires i == InsertPos(x.keys, e.key) && |x.children[i].keys| == 2 * t - 1
    requires x.children[i].children == [] || |x.children[i].children| == 2 * t
    ensures var s, j := SplitChild(x, i, t), if x.children[i].keys[t - 1].key < e.key then i + 1 else i;
            && Flat(s) == Flat(x) && j < |s.children| && |s.children[j].keys| == t - 1
            && (j > 0 ==> s.keys[j - 1].key <= e.key) && (j < |s.keys| ==> s.keys[j].key >= e.key)
  {
    SplitFlat(x, i, t);
    SplitBrackets(x, i, e, t);
  }

  lemma {:induction false} InsertSplitStep(x: Tree, i: nat, e: Entry, t: nat, h: nat)
    requires 2 <= t && 0 < h && Balanced(x, t, h) && |x.keys| < 2 * t - 1
    requires i == InsertPos(x.keys, e.key) && |x.children[i].keys| == 2 * t - 1
    ensures x.children[i].children == [] || |x.children[i].children| == 2 * t
    ensures var s, j := SplitChild(x, i, t), if x.children[i].keys[t - 1].key < e.key then i + 1 else i;
            && Balanced(s, t, h) && j < |s.children| && |s.children[j].keys| == t - 1
            && InsertNonFull(x, e, t, h) == InsertInto(s, j, e, t, h)
  {
    SplitBalanced(x, i, t, h);
    ChildBalanced(x, i, t, h);
  }

  lemma {:induction false} InsertIntoFlat(x: Tree, i: nat, e: Entry, t: nat, h: nat)
    requires 2 <= t && 0 < h && Balanced(x, t, h) && Sorted(Flat(x))
    requires i < |x.children| && |x.children[i].keys| < 2 * t - 1
    requires i > 0 ==> x.keys[i - 1].key <= e.key
    requires i < |x.keys| ==> x.keys[i].key >= e.key
    ensures Sorted(Flat(InsertInto(x, i, e, t, h)))
    ensures Inserted(Flat(x), e, Flat(InsertInto(x, i, e, t, h)))
    decreases h, 0
  {
    AroundChild(x, i, e.key);
    ChildBalanced(x, i, t, h);
    var c := InsertNonFull(x.children[i], e, t, h - 1);
    InsertNonFullFlat(x.children[i], e, t, h - 1);
    FlatWithChild(x, i, c);
    var b, f, a := Before(x.keys[..i], x.children[..i]), Flat(x.children[i]), After(x.keys[i..], x.children[i + 1..]);
    InsertedInContext(b, f, a, e, Flat(c));
    SortedInContext(b, f, a, e, Flat(c));
  }

  lemma {:induction false} SplitRootFlat(x: Tree, t: nat, h: nat)
    requires 2 <= t && Balanced(x, t, h) && |x.keys| == 2 * t - 1
    ensures Flat(SplitRoot(x, t, h)) == Flat(x)
  {
    SplitFlat(Node([], [x], Nulls(2 * t)), 0, t);
    FlatOnlyChild(x, Nulls(2 * t));
  }

  lemma {:induction false} FlatOnlyChild(x: Tree, s: seq<Slot>)
    ensures Flat(Node([], [x], s)) == Flat(x)
  {
    assert Node([], [x], s).children[1..] == [];
    assert Flat(Node([], [x], s)) == Flat(x) + After([], []);
  }

  lemma {:induction false} InsertFlat(x: Tree, e: Entry, t: nat, h: nat)
    requires 2 <= t && Balanced(x, t, h) && 1 <= |x.keys| && Sorted(Flat(x))
    ensures Sorted(Flat(Insert(x, e, t, h))) && Inserted(Flat(x), e, Flat(Insert(x, e, t, h)))
  {
    if |x.keys| == 2 * t - 1 {
      InsertFlatFull(x, e, t, h);
    } else {
      InsertNonFullFlat(x, e, t, h);
    }
  }

  lemma {:induction false} InsertFlatFull(x: Tree, e: Entry, t: nat, h: nat)
    requires 2 <= t && Balanced(x, t, h) && |x.keys| == 2 * t - 1 && Sorted(Flat(x))
    ensures Sorted(Flat(Insert(x, e, t, h))) && Inserted(Flat(x), e, Flat(Insert(x, e, t, h)))
  {
    SplitRootFlat(x, t, h);
    SameFlatInserted(SplitRoot(x, t, h), x, e, t, h + 1);
  }

  lemma {:induction false} SameFlatInserted(s: Tree, x: Tree, e: Entry, t: nat, h: nat)
    requires 2 <= t && Balanced(s, t, h) && |s.keys| < 2 * t - 1 && Flat(s) == Flat(x) && Sorted(Flat(x))
    ensures Sorted(Flat(InsertNonFull(s, e, t, h))) && Inserted(Flat(x), e, Flat(InsertNonFull(s, e, t, h)))
  {
    InsertNonFullFlat(s, e, t, h);
  }

  /** Insertion keeps a valid tree valid, adds exactly one entry, and makes the tree grow exactly when the root was full. */
  lemma {:induction false} InsertCorrect(x: Tree, e: Entry, t: nat, h: nat)
    requires 2 <= t && ValidRoot(x, t, h)
    ensures ValidRoot(Insert(x, e, t, h), t, if |x.keys| == 2 * t - 1 then h + 1 else h)
    ensures Inserted(Flat(x), e, Flat(Insert(x, e, t, h)))
  {
    InsertFlat(x, e, t, h);
  }

  // ---------------------------------------------------------------- removal

  /** The rightmost entry under `x` (btree_node_get_predecessor, from the child it starts at). */
  ghost function LastEntry(x: Tree, t: nat, h: nat): (e: Entry)
    requires 2 <= t && Balanced(x, t, h) && 1 <= |x.keys|
    ensures h == 0 ==> e == x.keys[|x.keys| - 1]
    decreases h
  {
    if h == 0 then x.keys[|x.keys| - 1] else ChildBalanced(x, |x.keys|, t, h); LastEntry(x.children[|x.keys|], t, h - 1)
  }

  /** The leftmost entry under `x` (btree_node_get_successor, from the child it starts at). */
  ghost function FirstEntry(x: Tree, t: nat, h: nat): (e: Entry)
    requires 2 <= t && Balanced(x, t, h) && 1 <= |x.keys|
    ensures h == 0 ==> e == x.keys[0]
    decreases h
  {
    if h == 0 then x.keys[0] else ChildBalanced(x, 0, t, h); FirstEntry(x.children[0], t, h - 1)
  }

  /** Two neighbouring children and the key between them replaced at once. */
  ghost function WithPair(x: Tree, i: nat, l: Tree, k: Entry, r: Tree): Tree
    requires i < |x.keys| && |x.children| == |x.keys| + 1
  {
    Node(x.keys[i := k], x.children[i := l][i + 1 := r], x.spare)
  }

  ghost function Joined(l: Tree, k: Entry, r: Tree): Tree {
    Node(l.keys + [k] + r.keys, l.children + r.children, From(l.spare, |r.keys| + 1))
  }

  /** btree_node_merge: child `i`, key `i` and child `i+1` become one node. */
  ghost function Merge(x: Tree, i: nat): Tree
    requires i < |x.keys| && |x.children| == |x.keys| + 1
  {
    Node(x.keys[..i] + x.keys[i + 1..],
         x.children[..i] + [Joined(x.children[i], x.keys[i], x.children[i + 1])] + x.children[i + 2..], Vacated(x, i))
  }

  ghost function DropLast(x: Tree): Tree
    requires 1 <= |x.keys| && (x.children == [] || |x.children| == |x.keys| + 1)
  {
    Node(x.keys[..|x.keys| - 1], if x.children == [] then [] else x.children[..|x.keys|],
         [Tuple(x.keys[|x.keys| - 1])] + x.spare)
  }

  ghost function DropFirst(x: Tree): Tree
    requires 1 <= |x.keys| && (x.children == [] || |x.children| == |x.keys| + 1)
  {
    Node(x.keys[1..], if x.children == [] then [] else x.children[1..], [Null] + x.spare)
  }

  ghost function Prepend(c: seq<Tree>, e: Entry, x: Tree): Tree {
    Node([e] + x.keys, c + x.children, From(x.spare, 1))
  }

  ghost function Append(x: Tree, e: Entry, c: seq<Tree>): Tree {
    Node(x.keys + [e], x.children + c, From(x.spare, 1))
  }

  /** btree_node_borrow_from_prev_child, for child `i+1`: the last entry of child `i` goes up, key `i` comes down. */
  ghost function BorrowPrev(x: Tree, i: nat): Tree
    requires i < |x.keys| && |x.children| == |x.keys| + 1 && 1 <= |x.children[i].keys|
    requires x.children[i].children == [] || |x.children[i].children| == |x.children[i].keys| + 1
  {
    var l, r := x.children[i], x.children[i + 1];
    WithPair(x, i, DropLast(l), l.keys[|l.keys| - 1],
             Prepend(if l.children == [] then [] else [l.children[|l.keys|]], x.keys[i], r))
  }

  /** btree_node_borrow_from_next_child, for child `i`: the first entry of child `i+1` goes up, key `i` comes down. */
  ghost function BorrowNext(x: Tree, i: nat): Tree
    requires i < |x.keys| && |x.children| == |x.keys| + 1 && 1 <= |x.children[i + 1].keys|
    requires x.children[i + 1].children == [] || |x.children[i + 1].children| == |x.children[i + 1].keys| + 1
  {
    var l, r := x.children[i], x.children[i + 1];
    WithPair(x, i, Append(l, x.keys[i], if r.children == [] then [] else [r.children[0]]), r.keys[0], DropFirst(r))
  }

  lemma {:induction false} WithPairBalanced(x: Tree, i: nat, l: Tree, k: Entry, r: Tree, t: nat, h: nat)
    requires 0 < h && Balanced(x, t, h) && i < |x.keys|
    requires t - 1 <= |l.keys| && Balanced(l, t, h - 1) && t - 1 <= |r.keys| && Balanced(r, t, h - 1)
    ensures Balanced(WithPair(x, i, l, k, r), t, h)
  {
    var s := WithPair(x, i, l, k, r);
    forall j | 0 <= j < |s.children| ensures t - 1 <= |s.children[j].keys| && Balanced(s.children[j], t, h - 1) {
      if j != i && j != i + 1 {
        ChildBalanced(x, j, t, h);
      }
    }
  }

  lemma {:induction false} JoinedBalanced(l: Tree, k: Entry, r: Tree, t: nat, h: nat)
    requires 2 <= t && Balanced(l, t, h) && Balanced(r, t, h) && |l.keys| == |r.keys| == t - 1
    ensures Balanced(Joined(l, k, r), t, h)
  {
    var s := Joined(l, k, r);
    assert forall j :: 0 <= j < |s.children| ==> s.children[j] == if j < |l.children| then l.children[j] else r.children[j - |l.children|];
  }

  lemma {:induction false} MergeBalanced(x: Tree, i: nat, t: nat, h: nat)
    requires 2 <= t && 0 < h && Balanced(x, t, h) && i < |x.keys|
    requires |x.children[i].keys| == t - 1 && |x.children[i + 1].keys| == t - 1
    ensures Balanced(Merge(x, i), t, h)
  {
    ChildBalanced(x, i, t, h);
    ChildBalanced(x, i + 1, t, h);
    JoinedBalanced(x.children[i], x.keys[i], x.children[i + 1], t, h - 1);
    var s := Merge(x, i);
    forall j | 0 <= j < |s.children| ensures t - 1 <= |s.children[j].keys| && Balanced(s.children[j], t, h - 1) {
      if j < i {
        ChildBalanced(x, j, t, h);
      } else if j > i {
        ChildBalanced(x, j + 1, t, h);
      }
    }
  }

  lemma {:induction false} BorrowPrevBalanced(x: Tree, i: nat, t: nat, h: nat)
    requires 2 <= t && 0 < h && Balanced(x, t, h) && i < |x.keys|
    requires t <= |x.children[i].keys| && |x.children[i + 1].keys| < t
    ensures x.children[i].children == [] || |x.children[i].children| == |x.children[i].keys| + 1
    ensures Balanced(BorrowPrev(x, i), t, h)
  {
    ChildBalanced(x, i, t, h);
    ChildBalanced(x, i + 1, t, h);
    var l, r := x.children[i], x.children[i + 1];
    var r' := Prepend(if l.children == [] then [] else [l.children[|l.keys|]], x.keys[i], r);
    assert Balanced(DropLast(l), t, h - 1);
    assert Balanced(r', t, h - 1) by {
      assert forall j :: 1 <= j < |r'.children| ==> r'.children[j] == r.children[j - 1];
    }
    WithPairBalanced(x, i, DropLast(l), l.keys[|l.keys| - 1], r', t, h);
  }

  lemma {:induction false} BorrowNextBalanced(x: Tree, i: nat, t: nat, h: nat)
    requires 2 <= t && 0 < h && Balanced(x, t, h) && i < |x.keys|
    requires t <= |x.children[i + 1].keys| && |x.children[i].keys| < t
    ensures x.children[i + 1].children == [] || |x.children[i + 1].children| == |x.children[i + 1].keys| + 1
    ensures Balanced(BorrowNext(x, i), t, h)
  {
    ChildBalanced(x, i, t, h);
    ChildBalanced(x, i + 1, t, h);
    var l, r := x.children[i], x.children[i + 1];
    var l' := Append(l, x.keys[i], if r.children == [] then [] else [r.children[0]]);
    assert Balanced(DropFirst(r), t, h - 1) by {
      assert forall j :: 0 <= j < |DropFirst(r).children| ==> DropFirst(r).children[j] == r.children[j + 1];
    }
    assert Balanced(l', t, h - 1);
    WithPairBalanced(x, i, l', r.keys[0], DropFirst(r), t, h);
  }

  /** Child `i` is one key short and it and its neighbours are nodes as they should be. */
  ghost predicate Fillable(x: Tree, i: nat, t: nat) {
    && |x.children| == |x.keys| + 1 && 1 <= |x.keys| && i <= |x.keys| && |x.children[i].keys| == t - 1 && Arity(x.children[i])
    && (i != 0 ==> t - 1 <= |x.children[i - 1].keys| && Arity(x.children[i - 1]))
    && (i != |x.keys| ==> t - 1 <= |x.children[i + 1].keys| && Arity(x.children[i + 1]))
  }

  /** btree_node_fill: child `i` gets another key from a neighbour or is merged with one. */
  ghost function FillStep(x: Tree, i: nat, t: nat): Tree
    requires 2 <= t && Fillable(x, i, t)
  {
    if i != 0 && |x.children[i - 1].keys| >= t then BorrowPrev(x, i - 1)
    else if i != |x.keys| && |x.children[i + 1].keys| >= t then BorrowNext(x, i)
    else Merge(x, if i != |x.keys| then i else i - 1)
  }

  lemma {:induction false} FillableBalanced(x: Tree, i: nat, t: nat, h: nat)
    requires 2 <= t && 0 < h && Balanced(x, t, h) && 1 <= |x.keys| && i <= |x.keys| && |x.children[i].keys| < t
    ensures Fillable(x, i, t)
  {
    ChildBalanced(x, i, t, h);
    if i != 0 {
      ChildBalanced(x, i - 1, t, h);
    }
    if i != |x.keys| {
      ChildBalanced(x, i + 1, t, h);
    }
  }

  lemma {:induction false} FillRoom(x: Tree, i: nat, t: nat)
    requires 2 <= t && Fillable(x, i, t)
    ensures var r := FillStep(x, i, t); var j := if i > |r.keys| then i - 1 else i;
            |x.keys| - 1 <= |r.keys| <= |x.keys| && |r.children| == |r.keys| + 1 && t <= |r.children[j].keys|
  {}

  /** What filling leaves in a balanced tree: the child that removal goes on with has a key to spare. */
  ghost function Fill(x: Tree, i: nat, t: nat, h: nat): (r: Tree)
    requires 2 <= t && 0 < h && Balanced(x, t, h) && 1 <= |x.keys| && i <= |x.keys| && |x.children[i].keys| < t
    ensures Fillable(x, i, t) && r == FillStep(x, i, t)
    ensures Balanced(r, t, h) && |x.keys| - 1 <= |r.keys| <= |x.keys|
    ensures var j := if i > |r.keys| then i - 1 else i; t <= |r.children[j].keys|
  {
    FillBalanced(x, i, t, h);
    FillRoom(x, i, t);
    FillStep(x, i, t)
  }

  lemma {:induction false} FillBalanced(x: Tree, i: nat, t: nat, h: nat)
    requires 2 <= t && 0 < h && Balanced(x, t, h) && 1 <= |x.keys| && i <= |x.keys| && |x.children[i].keys| < t
    ensures Fillable(x, i, t) && Balanced(FillStep(x, i, t), t, h)
  {
    FillableBalanced(x, i, t, h);
    if i != 0 && |x.children[i - 1].keys| >= t {
      BorrowPrevBalanced(x, i - 1, t, h);
      assert FillStep(x, i, t) == BorrowPrev(x, i - 1);
    } else if i != |x.keys| && |x.children[i + 1].keys| >= t {
      BorrowNextBalanced(x, i, t, h);
      assert FillStep(x, i, t) == BorrowNext(x, i);
    } else {
      var m := if i != |x.keys| then i else i - 1;
      MergeBalanced(x, m, t, h);
      assert FillStep(x, i, t) == Merge(x, m);
    }
  }

  /** btree_node_remove. */
  ghost function Remove(x: Tree, k: int, t: nat, h: nat): (r: Tree)
    requires 2 <= t && Balanced(x, t, h) && (0 < h ==> 1 <= |x.keys|)
    ensures Balanced(r, t, h) && |x.keys| - 1 <= |r.keys| <= |x.keys|
    decreases h, 1
  {
    var i := FindPos(x.keys, k);
    if i < |x.keys| && x.keys[i].key == k then
      if h == 0 then Node(x.keys[..i] + x.keys[i + 1..], [], Vacated(x, i)) else RemoveInner(x, i, t, h)
    else if h == 0 then
      x
    else if |x.children[i].keys| < t then
      var f := Fill(x, i, t, h);
      RemoveFrom(f, if i > |f.keys| then i - 1 else i, k, t, h)
    else
      RemoveFrom(x, i, k, t, h)
  }

  /** btree_node_remove_from_inter_node: the key itself sits in this inner node, at `i`. */
  ghost function RemoveInner(x: Tree, i: nat, t: nat, h: nat): (r: Tree)
    requires 2 <= t && 0 < h && Balanced(x, t, h) && i < |x.keys|
    ensures Balanced(r, t, h) && |x.keys| - 1 <= |r.keys| <= |x.keys|
    decreases h, 0, 1
  {
    ChildBalanced(x, i, t, h);
    ChildBalanced(x, i + 1, t, h);
    if |x.children[i].keys| >= t then
      var e := LastEntry(x.children[i], t, h - 1);
      RemoveFrom(WithKey(x, i, e, t, h), i, e.key, t, h)
    else if |x.children[i + 1].keys| >= t then
      var e := FirstEntry(x.children[i + 1], t, h - 1);
      RemoveFrom(WithKey(x, i, e, t, h), i + 1, e.key, t, h)
    else
      MergeBalanced(x, i, t, h);
      RemoveFrom(Merge(x, i), i, x.keys[i].key, t, h)
  }

  ghost function WithKey(x: Tree, i: nat, e: Entry, t: nat, h: nat): (r: Tree)
    requires Balanced(x, t, h) && i < |x.keys|
    ensures Balanced(r, t, h) && r.children == x.children && |r.keys| == |x.keys|
  {
    Node(x.keys[i := e], x.children, x.spare)
  }

  /** The recursive call of btree_node_remove, on child `i`, which can spare a key. */
  ghost function RemoveFrom(x: Tree, i: nat, k: int, t: nat, h: nat): (r: Tree)
    requires 2 <= t && 0 < h && Balanced(x, t, h) && i < |x.children| && t <= |x.children[i].keys|
    ensures Balanced(r, t, h) && |r.keys| == |x.keys|
    decreases h, 0, 0
  {
    ChildBalanced(x, i, t, h);
    var c := Remove(x.children[i], k, t, h - 1);
    WithChildBalanced(x, i, c, t, h);
    WithChild(x, i, c)
  }

  // ---------------------------------------------------------------- what removal means

  ghost predicate Has(s: seq<Entry>, k: int) {
    exists i :: 0 <= i < |s| && s[i].key == k
  }

  /** `s` without its first entry for `k`; `s` itself when there is none. */
  ghost function RemoveKey(s: seq<Entry>, k: int): seq<Entry> {
    if s == [] then [] else if s[0].key == k then s[1..] else [s[0]] + RemoveKey(s[1..], k)
  }

  /** `r` holds the same keys as `s` in the same order, and the same entries when no key repeats in `whole`. */
  ghost predicate Alike(s: seq<Entry>, r: seq<Entry>, whole: seq<Entry>) {
    Keys(r) == Keys(s) && (Distinct(whole) ==> r == s)
  }

  /** `r` is `s` with one entry for `k` taken out, if there was one. */
  ghost predicate Removed(s: seq<Entry>, k: int, r: seq<Entry>) {
    Alike(RemoveKey(s, k), r, s)
  }

  ghost function Without(s: seq<Entry>, i: nat): (r: seq<Entry>)
    requires i < |s|
  {
    s[..i] + s[i + 1..]
  }

  lemma {:induction false} RemoveKeyAbsent(s: seq<Entry>, k: int)
    requires !Has(s, k)
    ensures RemoveKey(s, k) == s
  {
    if s != [] {
      assert s[0].key != k;
      assert forall i :: 0 <= i < |s[1..]| ==> s[1..][i] == s[i + 1];
      RemoveKeyAbsent(s[1..], k);
    }
  }

  /** In a sorted sequence it makes no difference to the keys which of the entries for `k` goes. */
  lemma {:induction false} RemovedAt(s: seq<Entry>, i: nat, k: int)
    requires Sorted(s) && i < |s| && s[i].key == k
    ensures Removed(s, k, Without(s, i))
  {
    if s[0].key == k {
      forall j | 0 <= j < i ensures s[j].key == k {}
      assert Keys(Without(s, i)) == Keys(s[1..]);
      if Distinct(s) {
        assert i == 0;
      }
    } else {
      var u := s[1..];
      RemovedAt(u, i - 1, k);
      assert Without(s, i) == [s[0]] + Without(u, i - 1);
      assert Keys([s[0]] + RemoveKey(u, k)) == [s[0].key] + Keys(RemoveKey(u, k));
      assert Keys(Without(s, i)) == [s[0].key] + Keys(Without(u, i - 1));
    }
  }

  lemma {:induction false} KeysConcat(a: seq<Entry>, b: seq<Entry>)
    ensures Keys(a + b) == Keys(a) + Keys(b)
  {}

  lemma {:induction false} DistinctPart(a: seq<Entry>, b: seq<Entry>, c: seq<Entry>)
    requires Distinct(a + b + c)
    ensures Distinct(b)
  {
    assert forall i :: 0 <= i < |b| ==> (a + b + c)[|a| + i] == b[i];
  }

  /** What stands in the middle of a sorted sequence may be worked on alone. */
  lemma {:induction false} RemovedInContext(a: seq<Entry>, b: seq<Entry>, c: seq<Entry>, k: int, b': seq<Entry>)
    requires Sorted(a + b + c) && Removed(b, k, b')
    requires Has(b, k) || !Has(a + b + c, k)
    ensures Removed(a + b + c, k, a + b' + c)
  {
    if Has(b, k) {
      var j :| 0 <= j < |b| && b[j].key == k;
      RemovedInContextAt(a, b, c, j, b');
    } else {
      RemovedInContextAbsent(a, b, c, k, b');
    }
  }

  lemma {:induction false} RemovedInContextAt(a: seq<Entry>, b: seq<Entry>, c: seq<Entry>, j: nat, b': seq<Entry>)
    requires j < |b| && Sorted(a + b + c) && Removed(b, b[j].key, b')
    ensures Removed(a + b + c, b[j].key, a + b' + c)
  {
    SortedParts(a, b, c);
    RemovedAt(b, j, b[j].key);
    RemovedWithin(a, b, c, j);
    AlikeInContext(a, Without(b, j), b', c);
    if Distinct(a + b + c) {
      DistinctPart(a, b, c);
    }
  }

  lemma {:induction false} RemovedWithin(a: seq<Entry>, b: seq<Entry>, c: seq<Entry>, j: nat)
    requires j < |b| && Sorted(a + b + c)
    ensures Removed(a + b + c, b[j].key, a + Without(b, j) + c)
  {
    var s := a + b + c;
    assert s[|a| + j] == b[j];
    RemovedAt(s, |a| + j, b[j].key);
    assert Without(s, |a| + j) == a + Without(b, j) + c;
  }

  lemma {:induction false} RemovedInContextAbsent(a: seq<Entry>, b: seq<Entry>, c: seq<Entry>, k: int, b': seq<Entry>)
    requires !Has(a + b + c, k) && Removed(b, k, b')
    ensures Removed(a + b + c, k, a + b' + c)
  {
    assert !Has(b, k) by {
      assert forall i :: 0 <= i < |b| ==> b[i] == (a + b + c)[|a| + i];
    }
    RemoveKeyAbsent(b, k);
    RemoveKeyAbsent(a + b + c, k);
    AlikeInContext(a, b, b', c);
    if Distinct(a + b + c) {
      DistinctPart(a, b, c);
    }
  }

  lemma {:induction false} AlikeInContext(a: seq<Entry>, b: seq<Entry>, b': seq<Entry>, c: seq<Entry>)
    requires Keys(b) == Keys(b')
    ensures Keys(a + b + c) == Keys(a + b' + c)
  {
    KeysConcat(a + b, c);
    KeysConcat(a, b);
    KeysConcat(a + b', c);
    KeysConcat(a, b');
  }

  /** Replacing two neighbours and the key between them by ones with the same contents keeps the whole contents. */
  lemma {:induction false} FlatPair(x: Tree, i: nat, l: Tree, k: Entry, r: Tree)
    requires i < |x.keys| && |x.children| == |x.keys| + 1
    requires Flat(l) + [k] + Flat(r) == Flat(x.children[i]) + [x.keys[i]] + Flat(x.children[i + 1])
    ensures Flat(WithPair(x, i, l, k, r)) == Flat(x)
  {
    var s := WithPair(x, i, l, k, r);
    FlatAround(x, i);
    FlatAround(s, i);
    assert s.keys[..i] == x.keys[..i] && s.children[..i] == x.children[..i];
    assert s.keys[i + 1..] == x.keys[i + 1..] && s.children[i + 2..] == x.children[i + 2..];
  }

  /** A node is all but its last entry, that entry, and the subtree right of it (nothing in a leaf). */
  lemma {:induction false} DropLastFlat(l: Tree)
    requires 1 <= |l.keys| && Arity(l)
    ensures Flat(l) == Flat(DropLast(l)) + [l.keys[|l.keys| - 1]]
                       + if l.children == [] then [] else Flat(l.children[|l.keys|])
  {
    var n := |l.keys| - 1;
    if l.children == [] {
      assert l.keys == l.keys[..n] + [l.keys[n]];
    } else {
      FlatSplit(l, n);
      assert l.children[n + 1..] == [l.children[n + 1]] && l.keys[n + 1..] == [];
      FlatOnlyChild(l.children[n + 1], []);
    }
  }

  lemma {:induction false} DropFirstFlat(r: Tree)
    requires 1 <= |r.keys| && Arity(r)
    ensures Flat(r) == (if r.children == [] then [] else Flat(r.children[0])) + [r.keys[0]] + Flat(DropFirst(r))
  {
    if r.children == [] {
      assert r.keys == [r.keys[0]] + r.keys[1..];
    } else {
      FlatSplit(r, 0);
      assert r.children[..1] == [r.children[0]] && r.keys[..0] == [];
      FlatOnlyChild(r.children[0], []);
    }
  }

  lemma {:induction false} PrependFlat(c: seq<Tree>, e: Entry, x: Tree)
    requires Arity(x) && (if x.children == [] then c == [] else |c| == 1)
    ensures Flat(Prepend(c, e, x)) == (if c == [] then [] else Flat(c[0])) + [e] + Flat(x)
  {
    DropFirstFlat(Prepend(c, e, x));
    SameFlat(DropFirst(Prepend(c, e, x)), x);
  }

  lemma {:induction false} AppendFlat(x: Tree, e: Entry, c: seq<Tree>)
    requires Arity(x) && (if x.children == [] then c == [] else |c| == 1)
    ensures Flat(Append(x, e, c)) == Flat(x) + [e] + if c == [] then [] else Flat(c[0])
  {
    DropLastFlat(Append(x, e, c));
    SameFlat(DropLast(Append(x, e, c)), x);
  }

  lemma {:induction false} Regroup(a: seq<Entry>, x: Entry, b: seq<Entry>, y: Entry, c: seq<Entry>)
    ensures (a + [x] + b) + [y] + c == a + [x] + (b + [y] + c)
  {}

  /** Borrowing from the left neighbour moves entries around without changing the contents. */
  lemma {:induction false} BorrowPrevFlat(x: Tree, i: nat)
    requires i < |x.keys| && |x.children| == |x.keys| + 1 && 1 <= |x.children[i].keys|
    requires Arity(x.children[i]) && Arity(x.children[i + 1])
    requires x.children[i].children == [] <==> x.children[i + 1].children == []
    ensures Flat(BorrowPrev(x, i)) == Flat(x)
  {
    var l, r := x.children[i], x.children[i + 1];
    var c := if l.children == [] then [] else [l.children[|l.keys|]];
    ghost var mid: seq<Entry> := if c == [] then [] else Flat(c[0]);
    DropLastFlat(l);
    PrependFlat(c, x.keys[i], r);
    Regroup(Flat(DropLast(l)), l.keys[|l.keys| - 1], mid, x.keys[i], Flat(r));
    FlatPair(x, i, DropLast(l), l.keys[|l.keys| - 1], Prepend(c, x.keys[i], r));
  }

  lemma {:induction false} BorrowNextFlat(x: Tree, i: nat)
    requires i < |x.keys| && |x.children| == |x.keys| + 1 && 1 <= |x.children[i + 1].keys|
    requires Arity(x.children[i]) && Arity(x.children[i + 1])
    requires x.children[i].children == [] <==> x.children[i + 1].children == []
    ensures Flat(BorrowNext(x, i)) == Flat(x)
  {
    var l, r := x.children[i], x.children[i + 1];
    var c := if r.children == [] then [] else [r.children[0]];
    ghost var mid: seq<Entry> := if c == [] then [] else Flat(c[0]);
    DropFirstFlat(r);
    AppendFlat(l, x.keys[i], c);
    Regroup(Flat(l), x.keys[i], mid, r.keys[0], Flat(DropFirst(r)));
    FlatPair(x, i, Append(l, x.keys[i], c), r.keys[0], DropFirst(r));
  }

  lemma {:induction false} JoinedFlat(l: Tree, k: Entry, r: Tree)
    requires Arity(l) && Arity(r) && (l.children == [] <==> r.children == [])
    ensures Flat(Joined(l, k, r)) == Flat(l) + [k] + Flat(r)
  {
    var s := Joined(l, k, r);
    if l.children != [] {
      FlatSplit(s, |l.keys|);
      assert s.keys[..|l.keys|] == l.keys && s.children[..|l.keys| + 1] == l.children;
      assert s.keys[|l.keys| + 1..] == r.keys && s.children[|l.keys| + 1..] == r.children;
    }
  }

  lemma {:induction false} MergeFlat(x: Tree, i: nat)
    requires i < |x.keys| && |x.children| == |x.keys| + 1
    requires Arity(x.children[i]) && Arity(x.children[i + 1])
    requires x.children[i].children == [] <==> x.children[i + 1].children == []
    ensures Flat(Merge(x, i)) == Flat(x)
  {
    var s := Merge(x, i);
    JoinedFlat(x.children[i], x.keys[i], x.children[i + 1]);
    FlatAround(x, i);
    FlatAt(s, i);
    assert s.keys[..i] == x.keys[..i] && s.children[..i] == x.children[..i];
    assert s.keys[i..] == x.keys[i + 1..] && s.children[i + 1..] == x.children[i + 2..];
  }

  lemma {:induction false} SiblingsAlike(x: Tree, i: nat, j: nat, t: nat, h: nat)
    requires 0 < h && Balanced(x, t, h) && i < |x.children| && j < |x.children|
    ensures Arity(x.children[i]) && (x.children[i].children == [] <==> x.children[j].children == [])
  {
    ChildBalanced(x, i, t, h);
    ChildBalanced(x, j, t, h);
  }

  lemma {:induction false} FillFlat(x: Tree, i: nat, t: nat, h: nat)
    requires 2 <= t && 0 < h && Balanced(x, t, h) && 1 <= |x.keys| && i <= |x.keys| && |x.children[i].keys| < t
    ensures Flat(Fill(x, i, t, h)) == Flat(x)
  {
    var m := if i != 0 && |x.children[i - 1].keys| >= t then i - 1 else if i != |x.keys| then i else i - 1;
    SiblingsAlike(x, m, m + 1, t, h);
    SiblingsAlike(x, m + 1, m, t, h);
    FillableBalanced(x, i, t, h);
    FillStepFlat(x, i, t);
  }

  lemma {:induction false} FillStepFlat(x: Tree, i: nat, t: nat)
    requires 2 <= t && Fillable(x, i, t)
    requires var m := if i != 0 && |x.children[i - 1].keys| >= t then i - 1 else if i != |x.keys| then i else i - 1;
             x.children[m].children == [] <==> x.children[m + 1].children == []
    ensures Flat(FillStep(x, i, t)) == Flat(x)
  {
    if i != 0 && |x.children[i - 1].keys| >= t {
      BorrowPrevFlat(x, i - 1);
    } else if i != |x.keys| && |x.children[i + 1].keys| >= t {
      BorrowNextFlat(x, i);
    } else {
      MergeFlat(x, if i != |x.keys| then i else i - 1);
    }
  }

  lemma {:induction false} LastEntryFlat(x: Tree, t: nat, h: nat)
    requires 2 <= t && Balanced(x, t, h) && 1 <= |x.keys|
    ensures Flat(x) != [] && Flat(x)[|Flat(x)| - 1] == LastEntry(x, t, h)
    decreases h
  {
    if h > 0 {
      var n := |x.keys|;
      ChildBalanced(x, n, t, h);
      LastEntryFlat(x.children[n], t, h - 1);
      FlatAt(x, n);
      assert x.keys[n..] == [] && x.children[n + 1..] == [];
    }
  }

  lemma {:induction false} FirstEntryFlat(x: Tree, t: nat, h: nat)
    requires 2 <= t && Balanced(x, t, h) && 1 <= |x.keys|
    ensures Flat(x) != [] && Flat(x)[0] == FirstEntry(x, t, h)
    decreases h
  {
    if h > 0 {
      ChildBalanced(x, 0, t, h);
      FirstEntryFlat(x.children[0], t, h - 1);
    }
  }

  /** Nothing outside child `i` can have key `k` when the keys on its sides are strictly apart from `k`. */
  lemma {:induction false} OnlyInChild(x: Tree, i: nat, k: int)
    requires |x.children| == |x.keys| + 1 && i < |x.children| && Sorted(Flat(x))
    requires (i > 0 ==> x.keys[i - 1].key < k) && (i < |x.keys| ==> k < x.keys[i].key)
    ensures Has(Flat(x.children[i]), k) || !Has(Flat(x), k)
  {
    AroundChild(x, i, k - 1);
    AroundChild(x, i, k + 1);
    FlatAt(x, i);
    var b, f, a := Before(x.keys[..i], x.children[..i]), Flat(x.children[i]), After(x.keys[i..], x.children[i + 1..]);
    if Has(Flat(x), k) {
      var j :| 0 <= j < |Flat(x)| && Flat(x)[j].key == k;
      assert |b| <= j < |b| + |f|;
      assert f[j - |b|].key == k;
    }
  }

  lemma {:induction false} KeyBetween(x: Tree, i: nat)
    requires |x.children| == |x.keys| + 1 && i < |x.keys| && Sorted(Flat(x))
    ensures AllBelow(Flat(x.children[i]), x.keys[i].key)
    ensures AllAbove(Flat(x.children[i + 1]), x.keys[i].key)
  {
    FlatAround(x, i);
    var l, k, r := Flat(x.children[i]), [x.keys[i]], Flat(x.children[i + 1]);
    SortedParts(Before(x.keys[..i], x.children[..i]), l + k + r, After(x.keys[i + 1..], x.children[i + 2..]));
    SortedParts(l, k, r);
    assert k[0] == x.keys[i];
  }

  /** What a neighbour lends is still on its side of the key it replaces. */
  lemma {:induction false} LentKey(x: Tree, i: nat)
    requires |x.children| == |x.keys| + 1 && i < |x.keys| && Sorted(Flat(x))
    requires Arity(x.children[i]) && Arity(x.children[i + 1])
    ensures var n := |x.children[i].keys|; n > 0 ==> x.children[i].keys[n - 1].key <= x.keys[i].key
    ensures |x.children[i + 1].keys| > 0 ==> x.keys[i].key <= x.children[i + 1].keys[0].key
  {
    KeyBetween(x, i);
    var l, r := x.children[i], x.children[i + 1];
    if |l.keys| > 0 {
      DropLastFlat(l);
      assert Flat(l)[|Flat(DropLast(l))|] == l.keys[|l.keys| - 1];
    }
    if |r.keys| > 0 {
      DropFirstFlat(r);
      assert Flat(r)[if r.children == [] then 0 else |Flat(r.children[0])|] == r.keys[0];
    }
  }

  /** After filling, the child that removal goes on with is still fenced off from `k` on both sides. */
  lemma {:induction false} FillBrackets(x: Tree, i: nat, k: int, t: nat)
    requires 2 <= t && Fillable(x, i, t) && Sorted(Flat(x))
    requires forall j :: i <= j < |x.keys| ==> k < x.keys[j].key
    requires forall j :: 0 <= j < i ==> x.keys[j].key < k
    ensures var f := FillStep(x, i, t);
            var j := if i > |f.keys| then i - 1 else i;
            (j > 0 ==> f.keys[j - 1].key < k) && (j < |f.keys| ==> k < f.keys[j].key)
  {
    var f := FillStep(x, i, t);
    if i != 0 && |x.children[i - 1].keys| >= t {
      LentKey(x, i - 1);
      assert f.keys == x.keys[i - 1 := f.keys[i - 1]] && x.keys[i - 1].key < k;
    } else if i != |x.keys| && |x.children[i + 1].keys| >= t {
      LentKey(x, i);
      assert f.keys == x.keys[i := f.keys[i]] && k < x.keys[i].key;
    } else {
      var m := if i != |x.keys| then i else i - 1;
      assert f.keys == x.keys[..m] + x.keys[m + 1..];
    }
  }

  /** Removal below a child removes from the whole, if the key is to be found there or nowhere. */
  lemma {:induction false} RemoveFromFlat(x: Tree, i: nat, k: int, t: nat, h: nat)
    requires 2 <= t && 0 < h && Balanced(x, t, h) && i < |x.children| && t <= |x.children[i].keys|
    requires Sorted(Flat(x)) && (Has(Flat(x.children[i]), k) || !Has(Flat(x), k))
    ensures Removed(Flat(x), k, Flat(RemoveFrom(x, i, k, t, h)))
    decreases h, 0, 0
  {
    ChildBalanced(x, i, t, h);
    ChildSorted(x, i);
    RemoveFlat(x.children[i], k, t, h - 1);
    RemovedInChild(x, i, k, Remove(x.children[i], k, t, h - 1));
  }

  lemma {:induction false} RemovedInChild(x: Tree, i: nat, k: int, c: Tree)
    requires |x.children| == |x.keys| + 1 && i < |x.children| && Sorted(Flat(x))
    requires (Has(Flat(x.children[i]), k) || !Has(Flat(x), k)) && Removed(Flat(x.children[i]), k, Flat(c))
    ensures Removed(Flat(x), k, Flat(WithChild(x, i, c)))
  {
    FlatWithChild(x, i, c);
    RemovedInContext(Before(x.keys[..i], x.children[..i]), Flat(x.children[i]), After(x.keys[i..], x.children[i + 1..]),
                     k, Flat(c));
  }

  lemma {:induction false} LastPutBack(f: seq<Entry>, f2: seq<Entry>)
    requires f != [] && Sorted(f) && Removed(f, f[|f| - 1].key, f2)
    ensures Keys(f2 + [f[|f| - 1]]) == Keys(f) && (Distinct(f) ==> f2 + [f[|f| - 1]] == f)
  {
    var n := |f| - 1;
    RemovedAt(f, n, f[n].key);
    assert Without(f, n) + [f[n]] == f;
    KeysConcat(f2, [f[n]]);
    KeysConcat(Without(f, n), [f[n]]);
  }

  /** `f2` is `f` without its last entry `e`, up to which of several entries with that key went. */
  lemma {:induction false} LastMoves(a: seq<Entry>, f: seq<Entry>, k: Entry, c: seq<Entry>, f2: seq<Entry>)
    requires Sorted(a + (f + [k]) + c) && f != [] && Removed(f, f[|f| - 1].key, f2)
    ensures Removed(a + (f + [k]) + c, k.key, a + (f2 + [f[|f| - 1]]) + c)
  {
    var s := a + (f + [k]) + c;
    SortedParts(a, f + [k], c);
    assert f == (f + [k])[..|f|] == Without(f + [k], |f|);
    LastPutBack(f, f2);
    RemovedWithin(a, f + [k], c, |f|);
    if Distinct(s) {
      DistinctPart(a, f + [k], c);
    }
    StandIn(s, k.key, a, f, c, f2 + [f[|f| - 1]]);
  }

  lemma {:induction false} FirstPutBack(f: seq<Entry>, f2: seq<Entry>)
    requires f != [] && Removed(f, f[0].key, f2)
    ensures Keys([f[0]] + f2) == Keys(f) && (Distinct(f) ==> [f[0]] + f2 == f)
  {
    assert [f[0]] + f[1..] == f;
    KeysConcat([f[0]], f2);
    KeysConcat([f[0]], f[1..]);
  }

  /** What stands in for the part that is left may be put in its place. */
  lemma {:induction false} StandIn(s: seq<Entry>, k: int, a: seq<Entry>, b: seq<Entry>, c: seq<Entry>, b': seq<Entry>)
    requires Removed(s, k, a + b + c) && Keys(b') == Keys(b) && (Distinct(s) ==> b' == b)
    ensures Removed(s, k, a + b' + c)
  {
    AlikeInContext(a, b, b', c);
  }

  lemma {:induction false} FrontOut(a: seq<Entry>, k: Entry, f: seq<Entry>, c: seq<Entry>)
    requires Sorted(a + ([k] + f) + c)
    ensures Removed(a + ([k] + f) + c, k.key, a + f + c)
  {
    assert Without([k] + f, 0) == f;
    RemovedWithin(a, [k] + f, c, 0);
  }

  lemma {:induction false} DistinctTail(a: seq<Entry>, k: Entry, f: seq<Entry>, c: seq<Entry>)
    requires Distinct(a + ([k] + f) + c)
    ensures Distinct(f)
  {
    DistinctPart(a, [k] + f, c);
    assert f == ([k] + f)[1..];
  }

  lemma {:induction false} FirstMoves(a: seq<Entry>, k: Entry, f: seq<Entry>, c: seq<Entry>, f2: seq<Entry>)
    requires Sorted(a + ([k] + f) + c) && f != [] && Removed(f, f[0].key, f2)
    ensures Removed(a + ([k] + f) + c, k.key, a + ([f[0]] + f2) + c)
  {
    FrontOut(a, k, f, c);
    FirstPutBack(f, f2);
    if Distinct(a + ([k] + f) + c) {
      DistinctTail(a, k, f, c);
    }
    StandIn(a + ([k] + f) + c, k.key, a, f, c, [f[0]] + f2);
  }

  lemma {:induction false} PredecessorStep(x: Tree, i: nat, t: nat, h: nat)
    requires 2 <= t && 0 < h && Balanced(x, t, h) && i < |x.keys| && t <= |x.children[i].keys|
    ensures Balanced(x.children[i], t, h - 1)
    ensures var e := LastEntry(x.children[i], t, h - 1);
            RemoveInner(x, i, t, h)
            == WithPair(x, i, Remove(x.children[i], e.key, t, h - 1), e, x.children[i + 1])
  {
    ChildBalanced(x, i, t, h);
  }

  lemma {:induction false} SuccessorStep(x: Tree, i: nat, t: nat, h: nat)
    requires 2 <= t && 0 < h && Balanced(x, t, h) && i < |x.keys|
    requires |x.children[i].keys| < t <= |x.children[i + 1].keys|
    ensures Balanced(x.children[i + 1], t, h - 1)
    ensures var e := FirstEntry(x.children[i + 1], t, h - 1);
            RemoveInner(x, i, t, h)
            == WithPair(x, i, x.children[i], e, Remove(x.children[i + 1], e.key, t, h - 1))
  {
    ChildBalanced(x, i + 1, t, h);
  }

  lemma {:induction false} ToTheRight(b: seq<Entry>, x: seq<Entry>, g: seq<Entry>, a: seq<Entry>)
    ensures b + (x + g) + a == b + x + (g + a)
  {}

  lemma {:induction false} ToTheLeft(b: seq<Entry>, g: seq<Entry>, k: seq<Entry>, f: seq<Entry>, a: seq<Entry>)
    ensures b + (g + k + f) + a == (b + g) + (k + f) + a
  {}

  /** The last entry of the left child takes the place of key `i`. */
  lemma {:induction false} LastMovesUp(x: Tree, i: nat, e: Entry, c: Tree)
    requires i < |x.keys| && |x.children| == |x.keys| + 1 && Sorted(Flat(x))
    requires Flat(x.children[i]) != [] && e == Flat(x.children[i])[|Flat(x.children[i])| - 1]
    requires Removed(Flat(x.children[i]), e.key, Flat(c))
    ensures Removed(Flat(x), x.keys[i].key, Flat(WithPair(x, i, c, e, x.children[i + 1])))
  {
    var f, g, k := Flat(x.children[i]), Flat(x.children[i + 1]), x.keys[i];
    var b, a := Before(x.keys[..i], x.children[..i]), After(x.keys[i + 1..], x.children[i + 2..]);
    WithPairFlat(x, i, c, e, x.children[i + 1]);
    ToTheRight(b, f + [k], g, a);
    ToTheRight(b, Flat(c) + [e], g, a);
    LastMoves(b, f, k, g + a, Flat(c));
  }

  /** The first entry of the right child takes the place of key `i`. */
  lemma {:induction false} FirstMovesUp(x: Tree, i: nat, e: Entry, c: Tree)
    requires i < |x.keys| && |x.children| == |x.keys| + 1 && Sorted(Flat(x))
    requires Flat(x.children[i + 1]) != [] && e == Flat(x.children[i + 1])[0]
    requires Removed(Flat(x.children[i + 1]), e.key, Flat(c))
    ensures Removed(Flat(x), x.keys[i].key, Flat(WithPair(x, i, x.children[i], e, c)))
  {
    var f, g, k := Flat(x.children[i + 1]), Flat(x.children[i]), x.keys[i];
    var b, a := Before(x.keys[..i], x.children[..i]), After(x.keys[i + 1..], x.children[i + 2..]);
    WithPairFlat(x, i, x.children[i], e, c);
    ToTheLeft(b, g, [k], f, a);
    ToTheLeft(b, g, [e], Flat(c), a);
    FirstMoves(b + g, k, f, a, Flat(c));
  }

  lemma {:induction false} ChildSorted(x: Tree, i: nat)
    requires |x.children| == |x.keys| + 1 && i < |x.children| && Sorted(Flat(x))
    ensures Sorted(Flat(x.children[i]))
  {
    FlatAt(x, i);
    SortedParts(Before(x.keys[..i], x.children[..i]), Flat(x.children[i]), After(x.keys[i..], x.children[i + 1..]));
  }

  /** The inner key gives way to its predecessor, which is removed below. */
  lemma {:induction false} ByPredecessor(x: Tree, i: nat, t: nat, h: nat)
    requires 2 <= t && 0 < h && |x.children| == |x.keys| + 1 && i < |x.keys| && Sorted(Flat(x))
    requires Balanced(x.children[i], t, h - 1) && 1 <= |x.children[i].keys|
    ensures var e := LastEntry(x.children[i], t, h - 1);
            var r := WithPair(x, i, Remove(x.children[i], e.key, t, h - 1), e, x.children[i + 1]);
            Removed(Flat(x), x.keys[i].key, Flat(r))
    decreases h, 0, 0
  {
    var y := x.children[i];
    var e := LastEntry(y, t, h - 1);
    LastEntryFlat(y, t, h - 1);
    ChildSorted(x, i);
    RemoveFlat(y, e.key, t, h - 1);
    LastMovesUp(x, i, e, Remove(y, e.key, t, h - 1));
  }

  /** The inner key gives way to its successor, which is removed below. */
  lemma {:induction false} BySuccessor(x: Tree, i: nat, t: nat, h: nat)
    requires 2 <= t && 0 < h && |x.children| == |x.keys| + 1 && i < |x.keys| && Sorted(Flat(x))
    requires Balanced(x.children[i + 1], t, h - 1) && 1 <= |x.children[i + 1].keys|
    ensures var e := FirstEntry(x.children[i + 1], t, h - 1);
            var r := WithPair(x, i, x.children[i], e, Remove(x.children[i + 1], e.key, t, h - 1));
            Removed(Flat(x), x.keys[i].key, Flat(r))
    decreases h, 0, 0
  {
    var y := x.children[i + 1];
    var e := FirstEntry(y, t, h - 1);
    FirstEntryFlat(y, t, h - 1);
    ChildSorted(x, i + 1);
    RemoveFlat(y, e.key, t, h - 1);
    FirstMovesUp(x, i, e, Remove(y, e.key, t, h - 1));
  }

  lemma {:induction false} WithPairFlat(x: Tree, i: nat, l: Tree, k: Entry, r: Tree)
    requires i < |x.keys| && |x.children| == |x.keys| + 1
    ensures Flat(x) == Before(x.keys[..i], x.children[..i]) + (Flat(x.children[i]) + [x.keys[i]] + Flat(x.children[i + 1]))
                       + After(x.keys[i + 1..], x.children[i + 2..])
    ensures Flat(WithPair(x, i, l, k, r)) == Before(x.keys[..i], x.children[..i]) + (Flat(l) + [k] + Flat(r))
                       + After(x.keys[i + 1..], x.children[i + 2..])
  {
    var s := WithPair(x, i, l, k, r);
    FlatAround(x, i);
    FlatAround(s, i);
    assert s.keys[..i] == x.keys[..i] && s.children[..i] == x.children[..i];
    assert s.keys[i + 1..] == x.keys[i + 1..] && s.children[i + 2..] == x.children[i + 2..];
  }

  /** The inner key goes down into the merged child and is removed there. */
  lemma {:induction false} ByMerge(x: Tree, i: nat, t: nat, h: nat)
    requires 2 <= t && 0 < h && Balanced(x, t, h) && i < |x.keys| && Sorted(Flat(x))
    requires |x.children[i].keys| < t && |x.children[i + 1].keys| < t
    ensures Removed(Flat(x), x.keys[i].key, Flat(RemoveInner(x, i, t, h)))
    decreases h, 0, 1
  {
    ChildBalanced(x, i, t, h);
    ChildBalanced(x, i + 1, t, h);
    MergeBalanced(x, i, t, h);
    var l, r := x.children[i], x.children[i + 1];
    MergeFlat(x, i);
    JoinedFlat(l, x.keys[i], r);
    assert (Flat(l) + [x.keys[i]] + Flat(r))[|Flat(l)|] == x.keys[i];
    RemoveFromFlat(Merge(x, i), i, x.keys[i].key, t, h);
  }

  lemma {:induction false} RemoveInnerFlat(x: Tree, i: nat, t: nat, h: nat)
    requires 2 <= t && 0 < h && Balanced(x, t, h) && i < |x.keys| && Sorted(Flat(x))
    ensures Removed(Flat(x), x.keys[i].key, Flat(RemoveInner(x, i, t, h)))
    decreases h, 0, 2
  {
    if |x.children[i].keys| >= t {
      PredecessorStep(x, i, t, h);
      ByPredecessor(x, i, t, h);
    } else if |x.children[i + 1].keys| >= t {
      SuccessorStep(x, i, t, h);
      BySuccessor(x, i, t, h);
    } else {
      ByMerge(x, i, t, h);
    }
  }

  /** Removal below a node takes out one entry for `k` if there is one, and nothing otherwise. */
  lemma {:induction false} RemoveFlat(x: Tree, k: int, t: nat, h: nat)
    requires 2 <= t && Balanced(x, t, h) && (0 < h ==> 1 <= |x.keys|) && Sorted(Flat(x))
    ensures Removed(Flat(x), k, Flat(Remove(x, k, t, h)))
    decreases h, 1
  {
    var i := FindPos(x.keys, k);
    if i < |x.keys| && x.keys[i].key == k {
      if h == 0 {
        RemovedAt(x.keys, i, k);
      } else {
        RemoveInnerFlat(x, i, t, h);
      }
    } else if h == 0 {
      RemovedFromLeaf(x.keys, i, k);
    } else if |x.children[i].keys| < t {
      RemoveFilledFlat(x, i, k, t, h);
    } else {
      KeysSorted(x);
      OnlyInChild(x, i, k);
      RemoveFromFlat(x, i, k, t, h);
    }
  }

  lemma {:induction false} RemovedFromLeaf(ks: seq<Entry>, i: nat, k: int)
    requires Sorted(ks) && i == FindPos(ks, k) && (i < |ks| ==> ks[i].key != k)
    ensures Removed(ks, k, ks)
  {
    assert !Has(ks, k) by {
      if i < |ks| {
        assert forall j :: i <= j < |ks| ==> ks[j].key >= ks[i].key > k;
      }
    }
    RemoveKeyAbsent(ks, k);
  }

  lemma {:induction false} KeysSorted(x: Tree)
    requires |x.children| == |x.keys| + 1 && Sorted(Flat(x))
    ensures Sorted(x.keys)
  {
    forall i, j | 0 <= i < j < |x.keys| ensures x.keys[i].key <= x.keys[j].key {
      KeysOrdered(x, i, j);
    }
  }

  lemma {:induction false} KeysOrdered(x: Tree, i: nat, j: nat)
    requires |x.children| == |x.keys| + 1 && Sorted(Flat(x)) && i < j < |x.keys|
    ensures x.keys[i].key <= x.keys[j].key
  {
    FlatAt(x, j);
    var b, a := Before(x.keys[..j], x.children[..j]), After(x.keys[j..], x.children[j + 1..]);
    assert a[0] == x.keys[j];
    BeforeHas(x.keys[..j], x.children[..j], i);
    SortedParts(b, Flat(x.children[j]), a);
  }

  lemma {:induction false} BeforeHas(ks: seq<Entry>, cs: seq<Tree>, i: nat)
    requires |ks| == |cs| && i < |ks|
    ensures ks[i] in Before(ks, cs)
  {
    var n := |cs| - 1;
    if i < n {
      BeforeHas(ks[..n], cs[..n], i);
    } else {
      assert ks[i] in Flat(cs[n]) + [ks[n]];
    }
  }

  lemma {:induction false} RemoveFilledFlat(x: Tree, i: nat, k: int, t: nat, h: nat)
    requires 2 <= t && 0 < h && Balanced(x, t, h) && 1 <= |x.keys| && Sorted(Flat(x))
    requires i == FindPos(x.keys, k) && (i < |x.keys| ==> x.keys[i].key != k) && |x.children[i].keys| < t
    ensures var f := Fill(x, i, t, h);
            Removed(Flat(x), k, Flat(RemoveFrom(f, if i > |f.keys| then i - 1 else i, k, t, h)))
    decreases h, 0, 1
  {
    var f := Fill(x, i, t, h);
    var j := if i > |f.keys| then i - 1 else i;
    KeysSorted(x);
    FillFlat(x, i, t, h);
    FillFences(x, i, k, t);
    OnlyInChild(f, j, k);
    RemoveFromFlat(f, j, k, t, h);
  }

  lemma {:induction false} FillFences(x: Tree, i: nat, k: int, t: nat)
    requires 2 <= t && Fillable(x, i, t) && Sorted(Flat(x)) && Sorted(x.keys)
    requires i == FindPos(x.keys, k) && (i < |x.keys| ==> x.keys[i].key != k)
    ensures var f := FillStep(x, i, t);
            var j := if i > |f.keys| then i - 1 else i;
            (j > 0 ==> f.keys[j - 1].key < k) && (j < |f.keys| ==> k < f.keys[j].key)
  {
    FillBrackets(x, i, k, t);
  }

  // ---------------------------------------------------------------- searching and updating

  /** btree_search among the keys in use. */
  ghost function Search(x: Tree, k: int, t: nat, h: nat): Option<Entry>
    requires Balanced(x, t, h)
    decreases h
  {
    var i := FindPos(x.keys, k);
    if i < |x.keys| && x.keys[i].key == k then Some(x.keys[i])
    else if h == 0 then None
    else
      ChildBalanced(x, i, t, h);
      Search(x.children[i], k, t, h - 1)
  }

  /** btree_update: the entry that the search finds gets the new value. */
  ghost function Update(x: Tree, k: int, v: int, t: nat, h: nat): (r: Tree)
    requires Balanced(x, t, h)
    ensures Balanced(r, t, h) && |r.keys| == |x.keys|
    decreases h
  {
    var i := FindPos(x.keys, k);
    if i < |x.keys| && x.keys[i].key == k then Node(x.keys[i := Entry(k, v)], x.children, x.spare)
    else if h == 0 then x
    else
      ChildBalanced(x, i, t, h);
      var c := Update(x.children[i], k, v, t, h - 1);
      WithChildBalanced(x, i, c, t, h);
      WithChild(x, i, c)
  }

  lemma {:induction false} KeyInFlat(x: Tree, i: nat)
    requires |x.children| == |x.keys| + 1 && i < |x.keys|
    ensures x.keys[i] in Flat(x)
  {
    FlatAround(x, i);
    assert (Flat(x.children[i]) + [x.keys[i]] + Flat(x.children[i + 1]))[|Flat(x.children[i])|] == x.keys[i];
  }

  lemma {:induction false} ChildEntries(x: Tree, i: nat)
    requires |x.children| == |x.keys| + 1 && i < |x.children|
    ensures forall e :: e in Flat(x.children[i]) ==> e in Flat(x)
  {
    FlatAt(x, i);
  }

  lemma {:induction false} SearchFlat(x: Tree, k: int, t: nat, h: nat)
    requires Balanced(x, t, h) && Sorted(Flat(x))
    ensures match Search(x, k, t, h)
            case None => !Has(Flat(x), k)
            case Some(e) => e.key == k && e in Flat(x)
    decreases h
  {
    var i := FindPos(x.keys, k);
    if i < |x.keys| && x.keys[i].key == k {
      if h > 0 {
        KeyInFlat(x, i);
      }
    } else if h == 0 {
      assert forall j :: i <= j < |x.keys| ==> x.keys[j].key >= x.keys[i].key;
    } else {
      ChildBalanced(x, i, t, h);
      OnlyInChild(x, i, k);
      ChildSorted(x, i);
      ChildEntries(x, i);
      SearchFlat(x.children[i], k, t, h - 1);
    }
  }

  /** `r` is `s` with the value of one entry for `k` replaced by `v`. */
  ghost predicate Updated(s: seq<Entry>, k: int, v: int, r: seq<Entry>) {
    exists p :: 0 <= p < |s| && s[p].key == k && r == s[p := Entry(k, v)]
  }

  lemma {:induction false} UpdatedInContext(a: seq<Entry>, b: seq<Entry>, c: seq<Entry>, k: int, v: int, b': seq<Entry>)
    requires Updated(b, k, v, b')
    ensures Updated(a + b + c, k, v, a + b' + c)
  {
    var p :| 0 <= p < |b| && b[p].key == k && b' == b[p := Entry(k, v)];
    assert (a + b + c)[|a| + p] == b[p];
    assert a + b' + c == (a + b + c)[|a| + p := Entry(k, v)];
  }

  lemma {:induction false} UpdateFlat(x: Tree, k: int, v: int, t: nat, h: nat)
    requires Balanced(x, t, h)
    ensures match Search(x, k, t, h)
            case None => Update(x, k, v, t, h) == x
            case Some(_) => Updated(Flat(x), k, v, Flat(Update(x, k, v, t, h)))
    decreases h
  {
    var i := FindPos(x.keys, k);
    if i < |x.keys| && x.keys[i].key == k {
      if h > 0 {
        var b, a := Before(x.keys[..i], x.children[..i]), After(x.keys[i + 1..], x.children[i + 2..]);
        var l, r := x.children[i], x.children[i + 1];
        WithPairFlat(x, i, l, Entry(k, v), r);
        assert WithPair(x, i, l, Entry(k, v), r).children == x.children;
        assert Updated([x.keys[i]], k, v, [Entry(k, v)]) by {
          assert [x.keys[i]][0].key == k;
        }
        UpdatedInContext(Flat(l), [x.keys[i]], Flat(r), k, v, [Entry(k, v)]);
        UpdatedInContext(b, Flat(l) + [x.keys[i]] + Flat(r), a, k, v, Flat(l) + [Entry(k, v)] + Flat(r));
      }
    } else if h > 0 {
      ChildBalanced(x, i, t, h);
      UpdateFlat(x.children[i], k, v, t, h - 1);
      UpdateChildFlat(x, i, k, v, t, h);
    }
  }

  lemma {:induction false} UpdateChildFlat(x: Tree, i: nat, k: int, v: int, t: nat, h: nat)
    requires Balanced(x, t, h) && 0 < h && i < |x.children| && Balanced(x.children[i], t, h - 1)
    requires match Search(x.children[i], k, t, h - 1)
             case None => Update(x.children[i], k, v, t, h - 1) == x.children[i]
             case Some(_) => Updated(Flat(x.children[i]), k, v, Flat(Update(x.children[i], k, v, t, h - 1)))
    ensures match Search(x.children[i], k, t, h - 1)
            case None => WithChild(x, i, Update(x.children[i], k, v, t, h - 1)) == x
            case Some(_) => Updated(Flat(x), k, v, Flat(WithChild(x, i, Update(x.children[i], k, v, t, h - 1))))
  {
    var c := Update(x.children[i], k, v, t, h - 1);
    if Search(x.children[i], k, t, h - 1).Some? {
      FlatWithChild(x, i, c);
      UpdatedInContext(Before(x.keys[..i], x.children[..i]), Flat(x.children[i]), After(x.keys[i..], x.children[i + 1..]),
                       k, v, Flat(c));
    }
  }

  // ---------------------------------------------------------------- the tree under a btree_head

  /** What head->root holds: no node at all, or a root `height` levels above the leaves. */
  datatype Root = Empty | Root(tree: Tree, height: nat)

  ghost predicate ValidTree(x: Root, t: nat) {
    x.Root? ==> ValidRoot(x.tree, t, x.height)
  }

  ghost function Contents(x: Root): seq<Entry> {
    if x.Empty? then [] else Flat(x.tree)
  }

  /** btree_insert. */
  ghost function InsertTree(x: Root, e: Entry, t: nat): Root
    requires 2 <= t && ValidTree(x, t)
  {
    if x.Empty? then Root(Node([e], [], Nulls(2 * t - 1)), 0)
    else Root(Insert(x.tree, e, t, x.height), if |x.tree.keys| == 2 * t - 1 then x.height + 1 else x.height)
  }

  /** A root left without keys gives way to its only child, or to nothing. */
  ghost function ShrunkRoot(x: Tree, h: nat): Root
    requires |x.keys| > 0 || h == 0 || |x.children| == 1
  {
    if |x.keys| > 0 then Root(x, h)
    else if h == 0 then Empty
    else Root(x.children[0], h - 1)
  }

  /** btree_remove. */
  ghost function RemoveTree(x: Root, k: int, t: nat): Root
    requires 2 <= t && ValidTree(x, t)
  {
    if x.Empty? then Empty else ShrunkRoot(Remove(x.tree, k, t, x.height), x.height)
  }

  /** btree_lookup. */
  ghost function LookupTree(x: Root, k: int, t: nat): Option<int>
    requires ValidTree(x, t)
  {
    if x.Empty? then None else
      match Search(x.tree, k, t, x.height)
      case None => None
      case Some(e) => Some(e.val)
  }

  /** btree_update. */
  ghost function UpdateTree(x: Root, k: int, v: int, t: nat): Root
    requires ValidTree(x, t)
  {
    if x.Empty? then x else x.(tree := Update(x.tree, k, v, t, x.height))
  }

  /** Insertion keeps the tree valid, adds one entry, and adds a level exactly when the root was full. */
  lemma {:induction false} InsertTreeCorrect(x: Root, e: Entry, t: nat)
    requires 2 <= t && ValidTree(x, t)
    ensures var r := InsertTree(x, e, t);
            ValidTree(r, t) && r.Root? && Inserted(Contents(x), e, Contents(r))
            && (x.Root? ==> (r.height == x.height + 1 <==> |x.tree.keys| == 2 * t - 1) && r.height <= x.height + 1)
  {
    if x.Empty? {
      assert Contents(InsertTree(x, e, t)) == [][..0] + [e] + [][0..];
    } else {
      InsertCorrect(x.tree, e, t, x.height);
    }
  }

  lemma {:induction false} RemovedSorted(s: seq<Entry>, k: int, r: seq<Entry>)
    requires Sorted(s) && Removed(s, k, r)
    ensures Sorted(r)
  {
    if Has(s, k) {
      var i :| 0 <= i < |s| && s[i].key == k;
      RemovedAt(s, i, k);
      assert Keys(r) == Keys(Without(s, i));
    } else {
      RemoveKeyAbsent(s, k);
      assert Keys(r) == Keys(s);
    }
    assert forall i :: 0 <= i < |r| ==> Keys(r)[i] == r[i].key;
  }

  /** A root without keys stands for its only child. */
  lemma {:induction false} FlatKeyless(x: Tree)
    requires x.keys == [] && |x.children| == 1
    ensures Flat(x) == Flat(x.children[0])
  {
    FlatOnlyChild(x.children[0], x.spare);
    assert x == Node([], [x.children[0]], x.spare);
  }

  /**
   Removal keeps the tree valid and takes out exactly one entry for the key, or none if it has none;
   without repeated keys the entries that stay keep their values. The tree never grows.
   */
  lemma {:induction false} RemoveTreeCorrect(x: Root, k: int, t: nat)
    requires 2 <= t && ValidTree(x, t)
    ensures var r := RemoveTree(x, k, t);
            ValidTree(r, t) && Removed(Contents(x), k, Contents(r))
            && (r.Root? ==> x.Root? && x.height - 1 <= r.height <= x.height)
  {
    if x.Root? {
      var r := Remove(x.tree, k, t, x.height);
      RemoveFlat(x.tree, k, t, x.height);
      RemovedSorted(Flat(x.tree), k, Flat(r));
      if |r.keys| == 0 && x.height > 0 {
        FlatKeyless(r);
        ChildBalanced(r, 0, t, x.height);
      }
    }
  }

  lemma {:induction false} RemoveUndoes(s: seq<Entry>, e: Entry, s2: seq<Entry>)
    requires Inserted(s, e, s2) && Sorted(s2)
    ensures Removed(s2, e.key, s)
  {
    var p :| 0 <= p <= |s| && s2 == s[..p] + [e] + s[p..];
    InsertedWithout(s, p, e);
    RemovedAt(s2, p, e.key);
  }

  lemma {:induction false} InsertedWithout(s: seq<Entry>, p: nat, e: Entry)
    requires p <= |s|
    ensures var s2 := s[..p] + [e] + s[p..]; s2[p] == e && Without(s2, p) == s
  {}

  /** Removing a key just inserted gives back the keys there were, and the very entries when it was new. */
  lemma {:induction false} RemoveAfterInsert(x: Root, e: Entry, t: nat)
    requires 2 <= t && ValidTree(x, t)
    ensures ValidTree(InsertTree(x, e, t), t)
    ensures var r := RemoveTree(InsertTree(x, e, t), e.key, t);
            ValidTree(r, t) && Keys(Contents(r)) == Keys(Contents(x))
            && (Distinct(Contents(InsertTree(x, e, t))) ==> Contents(r) == Contents(x))
  {
    InsertTreeCorrect(x, e, t);
    var y := InsertTree(x, e, t);
    RemoveTreeCorrect(y, e.key, t);
    RemoveUndoes(Contents(x), e, Contents(y));
  }

  // ---------------------------------------------------------------- agreement with a map

  /** The tree holds exactly the bindings of `m`, one entry each. */
  ghost predicate Represents(x: Root, m: map<int, int>, t: nat) {
    ValidTree(x, t) && Binds(Contents(x), m)
  }

  ghost predicate Binds(s: seq<Entry>, m: map<int, int>) {
    Distinct(s) && BindsOnly(s, m) && forall k :: k in m ==> Has(s, k)
  }

  ghost predicate BindsOnly(s: seq<Entry>, m: map<int, int>) {
    forall i :: 0 <= i < |s| ==> s[i].key in m && m[s[i].key] == s[i].val
  }

  /** A search that meets no stale slot returns what the map holds, and nothing for a key it does not hold. */
  lemma {:induction false} LookupAgrees(x: Root, m: map<int, int>, k: int, t: nat)
    requires Represents(x, m, t)
    ensures LookupTree(x, k, t) == if k in m then Some(m[k]) else None
  {
    if x.Root? {
      SearchFlat(x.tree, k, t, x.height);
    }
  }

  lemma {:induction false} DistinctInserted(s: seq<Entry>, p: nat, e: Entry)
    requires Distinct(s) && !Has(s, e.key) && p <= |s|
    ensures Distinct(s[..p] + [e] + s[p..])
  {
    var s2 := s[..p] + [e] + s[p..];
    forall i, j | 0 <= i < j < |s2| ensures s2[i].key != s2[j].key {
      assert s2[i] == if i < p then s[i] else if i == p then e else s[i - 1];
      assert s2[j] == if j < p then s[j] else if j == p then e else s[j - 1];
    }
  }

  lemma {:induction false} HasInserted(s: seq<Entry>, p: nat, e: Entry, k: int)
    requires p <= |s| && (k == e.key || Has(s, k))
    ensures Has(s[..p] + [e] + s[p..], k)
  {
    var s2 := s[..p] + [e] + s[p..];
    if k == e.key {
      assert s2[p] == e;
    } else {
      var i :| 0 <= i < |s| && s[i].key == k;
      assert s2[if i < p then i else i + 1] == s[i];
    }
  }

  lemma {:induction false} InsertBinds(s: seq<Entry>, e: Entry, s2: seq<Entry>, m: map<int, int>)
    requires Binds(s, m) && e.key !in m && Inserted(s, e, s2)
    ensures Binds(s2, m[e.key := e.val])
  {
    var p :| 0 <= p <= |s| && s2 == s[..p] + [e] + s[p..];
    DistinctInserted(s, p, e);
    forall k | k in m[e.key := e.val] ensures Has(s2, k) {
      HasInserted(s, p, e, k);
    }
    forall i | 0 <= i < |s2| ensures s2[i] == e || (s2[i].key in m && m[s2[i].key] == s2[i].val) {
      assert s2[i] == if i < p then s[i] else if i == p then e else s[i - 1];
    }
  }

  lemma {:induction false} InsertAgrees(x: Root, m: map<int, int>, e: Entry, t: nat)
    requires 2 <= t && Represents(x, m, t) && e.key !in m
    ensures Represents(InsertTree(x, e, t), m[e.key := e.val], t)
  {
    InsertTreeCorrect(x, e, t);
    InsertBinds(Contents(x), e, Contents(InsertTree(x, e, t)), m);
  }

  lemma {:induction false} WithoutBinds(s: seq<Entry>, i: nat, m: map<int, int>)
    requires Binds(s, m) && i < |s|
    ensures Binds(Without(s, i), m - {s[i].key})
  {
    var r := Without(s, i);
    forall j | 0 <= j < |r| ensures r[j] == s[if j < i then j else j + 1] {}
    forall q | q in m - {s[i].key} ensures Has(r, q) {
      HasWithout(s, i, q);
    }
  }

  lemma {:induction false} HasWithout(s: seq<Entry>, i: nat, q: int)
    requires i < |s| && Has(s, q) && q != s[i].key
    ensures Has(Without(s, i), q)
  {
    var j :| 0 <= j < |s| && s[j].key == q;
    assert Without(s, i)[if j < i then j else j - 1] == s[j];
  }

  lemma {:induction false} RemoveBinds(s: seq<Entry>, k: int, r: seq<Entry>, m: map<int, int>)
    requires Binds(s, m) && r == RemoveKey(s, k)
    ensures Binds(r, m - {k})
  {
    RemoveKeyIndex(s, k);
    if Has(s, k) {
      var i :| 0 <= i < |s| && s[i].key == k && r == Without(s, i);
      WithoutBinds(s, i, m);
    }
  }

  lemma {:induction false} RemoveKeyPlace(s: seq<Entry>, k: int) returns (i: nat)
    requires Has(s, k)
    ensures i < |s| && s[i].key == k && RemoveKey(s, k) == Without(s, i)
  {
    if s[0].key == k {
      i := 0;
      assert Without(s, 0) == s[1..];
    } else {
      var j :| 0 <= j < |s| && s[j].key == k;
      assert s[1..][j - 1] == s[j];
      i := RemoveKeyPlace(s[1..], k);
      assert Without(s, i + 1) == [s[0]] + Without(s[1..], i);
      i := i + 1;
    }
  }

  lemma {:induction false} RemoveKeyIndex(s: seq<Entry>, k: int)
    ensures if Has(s, k) then exists i :: 0 <= i < |s| && s[i].key == k && RemoveKey(s, k) == Without(s, i)
            else RemoveKey(s, k) == s
  {
    if !Has(s, k) {
      RemoveKeyAbsent(s, k);
    } else {
      var i := RemoveKeyPlace(s, k);
    }
  }

  lemma {:induction false} RemoveAgrees(x: Root, m: map<int, int>, k: int, t: nat)
    requires 2 <= t && Represents(x, m, t)
    ensures Represents(RemoveTree(x, k, t), m - {k}, t)
  {
    RemoveTreeCorrect(x, k, t);
    RemoveBinds(Contents(x), k, Contents(RemoveTree(x, k, t)), m);
  }

  lemma {:induction false} UpdateBinds(s: seq<Entry>, k: int, v: int, r: seq<Entry>, m: map<int, int>)
    requires Binds(s, m) && Updated(s, k, v, r)
    ensures k in m && Binds(r, m[k := v])
  {
    var p :| 0 <= p < |s| && s[p].key == k && r == s[p := Entry(k, v)];
    assert forall i :: 0 <= i < |r| ==> r[i].key == s[i].key;
    forall q | q in m[k := v] ensures Has(r, q) {
      var j :| 0 <= j < |s| && s[j].key == q;
      assert r[j].key == q;
    }
  }

  lemma {:induction false} UpdatedSorted(s: seq<Entry>, k: int, v: int, r: seq<Entry>)
    requires Sorted(s) && Updated(s, k, v, r)
    ensures Sorted(r)
  {
    assert forall i :: 0 <= i < |r| ==> r[i].key == s[i].key;
  }

  lemma {:induction false} UpdateAgrees(x: Root, m: map<int, int>, k: int, v: int, t: nat)
    requires Represents(x, m, t)
    ensures Represents(UpdateTree(x, k, v, t), if k in m then m[k := v] else m, t)
  {
    if x.Root? {
      UpdateFlat(x.tree, k, v, t, x.height);
      SearchFlat(x.tree, k, t, x.height);
      if Search(x.tree, k, t, x.height).Some? {
        UpdateBinds(Contents(x), k, v, Contents(UpdateTree(x, k, v, t)), m);
        UpdatedSorted(Contents(x), k, v, Contents(UpdateTree(x, k, v, t)));
      }
    }
  }

  lemma {:induction false} UpdateTreeValid(x: Root, k: int, v: int, t: nat)
    requires ValidTree(x, t)
    ensures ValidTree(UpdateTree(x, k, v, t), t)
  {
    if x.Root? {
      UpdateFlat(x.tree, k, v, t, x.height);
      if Search(x.tree, k, t, x.height).Some? {
        UpdatedSorted(Contents(x), k, v, Contents(UpdateTree(x, k, v, t)));
      }
    }
  }
}
