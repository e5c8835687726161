/**
 The key slots past key_count of a B-tree: the source clears some and leaves keys behind in others, and its search looks at
 the first of them (src/datastructure/btree.c).
 */
module BTreeSlots {
  import opened Wrappers
  import opened Folding
  import opened BTreeSpec

  // ---------------------------------------------------------------- what a search meets

  /** The slot right behind the keys still holds an entry for `k`. */
  predicate Keeps(s: seq<Slot>, k: int) {
    s != [] && s[0] != Null && s[0].entry.key == k
  }

  /**
   What a search for `k` finds in a slot that is no longer in use: at some node on its way every key is smaller, and the
   slot right behind them still holds an entry for `k`.
   */
  ghost function Stale(x: Tree, k: int): Option<Entry> {
    var i := FindPos(x.keys, k);
    if i < |x.keys| && x.keys[i].key == k then None
    else if i == |x.keys| && Keeps(x.spare, k) then Some(x.spare[0].entry)
    else if i < |x.children| then Stale(x.children[i], k)
    else None
  }

  /** btree_update: what the search stops at, in use or not, takes the new value. */
  ghost function Write(x: Tree, k: int, v: int, t: nat, h: nat): (r: Tree)
    requires Balanced(x, t, h)
    ensures Balanced(r, t, h) && |r.keys| == |x.keys|
    decreases h
  {
    var i := FindPos(x.keys, k);
    if i < |x.keys| && x.keys[i].key == k then Node(x.keys[i := Entry(k, v)], x.children, x.spare)
    else if i == |x.keys| && Keeps(x.spare, k) then Node(x.keys, x.children, x.spare[0 := Tuple(Entry(k, v))])
    else if h == 0 then x
    else
      ChildBalanced(x, i, t, h);
      var c := Write(x.children[i], k, v, t, h - 1);
      WithChildBalanced(x, i, c, t, h);
      WithChild(x, i, c)
  }

  /** Where the search meets no such slot, that is an update of the entries in use; otherwise they stay as they are. */
  lemma {:induction false} WriteMeans(x: Tree, k: int, v: int, t: nat, h: nat)
    requires Balanced(x, t, h)
    ensures Stale(x, k) == None ==> Write(x, k, v, t, h) == Update(x, k, v, t, h)
    ensures Stale(x, k).Some? ==> Flat(Write(x, k, v, t, h)) == Flat(x)
    decreases h
  {
    var i := FindPos(x.keys, k);
    if i < |x.keys| && x.keys[i].key == k {
    } else if i == |x.keys| && Keeps(x.spare, k) {
      SameFlat(x, Write(x, k, v, t, h));
    } else if h > 0 {
      ChildBalanced(x, i, t, h);
      WriteMeans(x.children[i], k, v, t, h - 1);
      FlatWithChild(x, i, Write(x.children[i], k, v, t, h - 1));
    }
  }

  // ---------------------------------------------------------------- nothing left behind

  ghost predicate Blank(s: seq<Slot>) {
    forall i :: 0 <= i < |s| ==> s[i] == Null
  }

  /** No slot behind the keys of any node holds anything. */
  ghost predicate Clean(x: Tree) {
    Blank(x.spare) && forall i :: 0 <= i < |x.children| ==> Clean(x.children[i])
  }

  lemma {:induction false} CleanHasNone(x: Tree, k: int)
    requires Clean(x)
    ensures Stale(x, k) == None
  {
    var i := FindPos(x.keys, k);
    if i < |x.children| {
      CleanHasNone(x.children[i], k);
    }
  }

  lemma {:induction false} WithChildClean(x: Tree, i: nat, c: Tree)
    requires Clean(x) && i < |x.children| && Clean(c)
    ensures Clean(WithChild(x, i, c))
  {}

  lemma {:induction false} SplitClean(x: Tree, i: nat, t: nat)
    requires 1 <= t && i <= |x.keys| && |x.children| == |x.keys| + 1 && |x.children[i].keys| == 2 * t - 1
    requires x.children[i].children == [] || |x.children[i].children| == 2 * t
    requires Clean(x)
    ensures Clean(SplitChild(x, i, t))
  {
    var y, s := x.children[i], SplitChild(x, i, t);
    HalvesClean(y, t);
    forall j | 0 <= j < |s.children| ensures Clean(s.children[j]) {
      assert s.children[j] == if j < i then x.children[j] else if j == i then LeftHalf(y, t)
                              else if j == i + 1 then RightHalf(y, t) else x.children[j - 1];
    }
  }

  lemma {:induction false} HalvesClean(y: Tree, t: nat)
    requires 1 <= t && |y.keys| == 2 * t - 1 && (y.children == [] || |y.children| == 2 * t) && Clean(y)
    ensures Clean(LeftHalf(y, t)) && Clean(RightHalf(y, t))
  {
    var r := RightHalf(y, t);
    assert forall j :: 0 <= j < |r.children| ==> r.children[j] == y.children[t + j];
  }

  /** Insertion leaves nothing behind. */
  lemma {:induction false} InsertNonFullClean(x: Tree, e: Entry, t: nat, h: nat)
    requires 2 <= t && Balanced(x, t, h) && |x.keys| < 2 * t - 1 && Clean(x)
    ensures Clean(InsertNonFull(x, e, t, h))
    decreases h
  {
    var i := InsertPos(x.keys, e.key);
    if h > 0 {
      if |x.children[i].keys| == 2 * t - 1 {
        InsertSplitStep(x, i, e, t, h);
        SplitClean(x, i, t);
        InsertIntoClean(SplitChild(x, i, t), if x.children[i].keys[t - 1].key < e.key then i + 1 else i, e, t, h);
      } else {
        ChildBalanced(x, i, t, h);
        InsertIntoClean(x, i, e, t, h);
      }
    }
  }

  lemma {:induction false} InsertIntoClean(x: Tree, i: nat, e: Entry, t: nat, h: nat)
    requires 2 <= t && 0 < h && Balanced(x, t, h) && i < |x.children| && |x.children[i].keys| < 2 * t - 1 && Clean(x)
    ensures Clean(InsertInto(x, i, e, t, h))
    decreases h, 0
  {
    ChildBalanced(x, i, t, h);
    InsertNonFullClean(x.children[i], e, t, h - 1);
    WithChildClean(x, i, InsertNonFull(x.children[i], e, t, h - 1));
  }

  // ---------------------------------------------------------------- the steps of a removal

  /** When no neighbour can lend a key, filling is merging. */
  lemma {:induction false} FillMerges(x: Tree, i: nat, t: nat)
    requires 2 <= t && Fillable(x, i, t)
    requires i != 0 ==> |x.children[i - 1].keys| < t
    requires i != |x.keys| ==> |x.children[i + 1].keys| < t
    ensures var m := if i != |x.keys| then i else i - 1;
            && 0 <= m < |x.keys| && FillStep(x, i, t) == Merge(x, m)
            && |x.children[m].keys| == |x.children[m + 1].keys| == t - 1
  {}

  /** Filling child `i` merges the last two children. */
  ghost predicate MergesLast(x: Tree, i: nat, t: nat) {
    && |x.children| == |x.keys| + 1 && 1 <= |x.keys| && i <= |x.keys| <= i + 1 && |x.children[i].keys| < t
    && (i != 0 ==> |x.children[i - 1].keys| < t) && (i != |x.keys| ==> |x.children[i + 1].keys| < t)
  }

  /** Removing `k` from an inner node merges its last two children, around `k` or on the way to it. */
  ghost predicate MergedAway(x: Tree, k: int, t: nat) {
    var i := FindPos(x.keys, k);
    if i < |x.keys| && x.keys[i].key == k then
      |x.children| == |x.keys| + 1 == i + 2 && |x.children[i].keys| < t && |x.children[i + 1].keys| < t
    else
      MergesLast(x, i, t)
  }

  /** What the descending branch of btree_node_remove comes down to. */
  lemma {:induction false} DescendCases(x: Tree, k: int, t: nat, h: nat)
    requires 2 <= t && 0 < h && Balanced(x, t, h) && 1 <= |x.keys|
    requires var i := FindPos(x.keys, k); i < |x.keys| ==> x.keys[i].key != k
    ensures |x.children| == |x.keys| + 1
    ensures var i := FindPos(x.keys, k);
            if |x.children[i].keys| < t then
              Fillable(x, i, t) &&
              var f := FillStep(x, i, t);
              var j := if i > |f.keys| then i - 1 else i;
              && j <= |f.keys| && |f.children| == |f.keys| + 1
              && 1 <= |f.children[j].keys| && Balanced(f.children[j], t, h - 1)
              && Remove(x, k, t, h) == WithChild(f, j, Remove(f.children[j], k, t, h - 1))
            else
              && Balanced(x.children[i], t, h - 1)
              && Remove(x, k, t, h) == WithChild(x, i, Remove(x.children[i], k, t, h - 1))
  {
    var i := FindPos(x.keys, k);
    ChildBalanced(x, i, t, h);
    if |x.children[i].keys| < t {
      var f := Fill(x, i, t, h);
      ChildBalanced(f, if i > |f.keys| then i - 1 else i, t, h);
    }
  }

  /** What the branches of btree_node_remove_from_inter_node come down to. */
  lemma {:induction false} InnerCases(x: Tree, i: nat, t: nat, h: nat)
    requires 2 <= t && 0 < h && Balanced(x, t, h) && i < |x.keys|
    ensures |x.children| == |x.keys| + 1
    ensures Balanced(x.children[i], t, h - 1) && Balanced(x.children[i + 1], t, h - 1)
    ensures 1 <= |x.children[i].keys| && 1 <= |x.children[i + 1].keys|
    ensures |x.children[i].keys| >= t ==>
      var e := LastEntry(x.children[i], t, h - 1);
      RemoveInner(x, i, t, h) == WithChild(x.(keys := x.keys[i := e]), i, Remove(x.children[i], e.key, t, h - 1))
    ensures |x.children[i].keys| < t && |x.children[i + 1].keys| >= t ==>
      var e := FirstEntry(x.children[i + 1], t, h - 1);
      RemoveInner(x, i, t, h) == WithChild(x.(keys := x.keys[i := e]), i + 1, Remove(x.children[i + 1], e.key, t, h - 1))
    ensures |x.children[i].keys| < t && |x.children[i + 1].keys| < t ==>
      var m := Merge(x, i);
      && |x.children[i].keys| == |x.children[i + 1].keys| == t - 1
      && Balanced(m.children[i], t, h - 1) && 1 <= |m.children[i].keys|
      && RemoveInner(x, i, t, h) == WithChild(m, i, Remove(m.children[i], x.keys[i].key, t, h - 1))
  {
    ChildBalanced(x, i, t, h);
    ChildBalanced(x, i + 1, t, h);
    if |x.children[i].keys| < t && |x.children[i + 1].keys| < t {
      MergeBalanced(x, i, t, h);
      ChildBalanced(Merge(x, i), i, t, h);
    }
  }

  /** The keys of the node are then its old ones without the last, which is still in its slot. */
  lemma {:induction false} MergedKeys(x: Tree, k: int, t: nat, h: nat)
    requires 2 <= t && 0 < h && Balanced(x, t, h) && 1 <= |x.keys| && MergedAway(x, k, t)
    ensures Remove(x, k, t, h).keys == x.keys[..|x.keys| - 1]
    ensures Remove(x, k, t, h).spare == [Tuple(x.keys[|x.keys| - 1])] + x.spare
  {
    var i := FindPos(x.keys, k);
    if i < |x.keys| && x.keys[i].key == k {
      InnerCases(x, i, t, h);
    } else {
      DescendCases(x, k, t, h);
    }
  }

  lemma {:induction false} LastSought(ks: seq<Entry>)
    requires ks != [] && Sorted(ks) && Distinct(ks)
    ensures FindPos(ks[..|ks| - 1], ks[|ks| - 1].key) == |ks| - 1
  {
    assert forall j :: 0 <= j < |ks| - 1 ==> ks[j].key != ks[|ks| - 1].key;
  }

  /**
   Where the last two children of a node were merged, a search that comes to the node for its last key stops at the slot that
   the key has left.
   */
  lemma {:induction false} LastStays(x: Tree, k: int, t: nat, h: nat)
    requires 2 <= t && 0 < h && Balanced(x, t, h) && 1 <= |x.keys| && MergedAway(x, k, t)
    requires Sorted(x.keys) && Distinct(x.keys)
    ensures var e := x.keys[|x.keys| - 1]; Stale(Remove(x, k, t, h), e.key) == Some(e)
  {
    MergedKeys(x, k, t, h);
    LastSought(x.keys);
  }

  lemma {:induction false} KeyPlace(ks: seq<Entry>, k: int)
    requires Sorted(ks) && Has(ks, k)
    ensures FindPos(ks, k) < |ks| && ks[FindPos(ks, k)].key == k
  {
    var j :| 0 <= j < |ks| && ks[j].key == k;
    assert FindPos(ks, k) <= j;
  }

  lemma {:induction false} RemovedKeyPlace(ks: seq<Entry>, i: nat)
    requires Sorted(ks) && Distinct(ks) && i < |ks|
    ensures FindPos(Without(ks, i), ks[i].key) == i
    ensures forall j :: 0 <= j < |Without(ks, i)| ==> Without(ks, i)[j].key != ks[i].key
  {
    var r := Without(ks, i);
    forall j | 0 <= j < |r| ensures if j < i then r[j].key < ks[i].key else r[j].key > ks[i].key {
      assert r[j] == ks[if j < i then j else j + 1];
    }
    assert i < |r| ==> r[i].key > ks[i].key;
  }

  /** A key just removed from a leaf is not found among the keys, and in the slot behind them exactly if it was the last. */
  lemma {:induction false} LeafKeeps(x: Tree, k: int, t: nat)
    requires 2 <= t && Balanced(x, t, 0) && Sorted(x.keys) && Distinct(x.keys) && Has(x.keys, k)
    ensures var r := Remove(x, k, t, 0);
            && |r.keys| == |x.keys| - 1 && Search(r, k, t, 0) == None
            && (Stale(r, k).Some? <==> x.keys[|x.keys| - 1].key == k)
  {
    KeyPlace(x.keys, k);
    RemovedKeyPlace(x.keys, FindPos(x.keys, k));
    assert Remove(x, k, t, 0).keys == Without(x.keys, FindPos(x.keys, k));
  }

  // ---------------------------------------------------------------- whole trees

  ghost predicate CleanTree(x: Root) {
    x.Root? ==> Clean(x.tree)
  }

  ghost function StaleTree(x: Root, k: int): Option<Entry> {
    if x.Empty? then None else Stale(x.tree, k)
  }

  /** btree_update, unused slots included. */
  ghost function WriteTree(x: Root, k: int, v: int, t: nat): Root
    requires ValidTree(x, t)
  {
    if x.Empty? then x else x.(tree := Write(x.tree, k, v, t, x.height))
  }

  /** Insertion leaves nothing behind in a slot that is not in use. */
  lemma {:induction false} InsertTreeClean(x: Root, e: Entry, t: nat)
    requires 2 <= t && ValidTree(x, t) && CleanTree(x)
    ensures CleanTree(InsertTree(x, e, t))
  {
    if x.Root? {
      InsertClean(x.tree, e, t, x.height);
    }
  }

  /** `r` is what btree_split_root makes of `x`. */
  ghost predicate RootSplit(r: Tree, x: Tree, t: nat, h: nat) {
    forall k :: Look(k) ==> 2 <= t && Balanced(x, t, h) && |x.keys| == 2 * t - 1 && r == SplitRoot(x, t, h)
  }

  lemma {:induction false} FullInsert(x: Tree, e: Entry, t: nat, h: nat) returns (s: Tree)
    requires 2 <= t && Balanced(x, t, h) && |x.keys| == 2 * t - 1
    ensures RootSplit(s, x, t, h) && Balanced(s, t, h + 1) && |s.keys| == 1
    ensures Insert(x, e, t, h) == InsertNonFull(s, e, t, h + 1)
  {
    s := SplitRoot(x, t, h);
  }

  lemma {:induction false} InsertClean(x: Tree, e: Entry, t: nat, h: nat)
    requires 2 <= t && Balanced(x, t, h) && 1 <= |x.keys| && Clean(x)
    ensures Clean(Insert(x, e, t, h))
  {
    if |x.keys| == 2 * t - 1 {
      var s := FullInsert(x, e, t, h);
      SplitRootClean(s, x, t, h);
      InsertNonFullClean(s, e, t, h + 1);
    } else {
      InsertNonFullClean(x, e, t, h);
    }
  }

  lemma {:induction false} SplitRootClean(s: Tree, x: Tree, t: nat, h: nat)
    requires RootSplit(s, x, t, h) && Clean(x)
    ensures Clean(s)
  {
    assert Look(0);
    SplitClean(Node([], [x], Nulls(2 * t)), 0, t);
  }

  lemma {:induction false} UpdateClean(x: Tree, k: int, v: int, t: nat, h: nat)
    requires Balanced(x, t, h) && Clean(x)
    ensures Clean(Update(x, k, v, t, h))
    decreases h
  {
    var i := FindPos(x.keys, k);
    if h > 0 && !(i < |x.keys| && x.keys[i].key == k) {
      ChildBalanced(x, i, t, h);
      UpdateClean(x.children[i], k, v, t, h - 1);
      WithChildClean(x, i, Update(x.children[i], k, v, t, h - 1));
    }
  }

  /** What an update does to a whole tree: the entries in use change unless the search meets a slot left behind. */
  lemma {:induction false} WriteTreeMeans(x: Root, k: int, v: int, t: nat)
    requires ValidTree(x, t)
    ensures ValidTree(WriteTree(x, k, v, t), t)
    ensures StaleTree(x, k) == None ==> WriteTree(x, k, v, t) == UpdateTree(x, k, v, t)
    ensures StaleTree(x, k).Some? ==> Contents(WriteTree(x, k, v, t)) == Contents(x)
    ensures CleanTree(x) ==> StaleTree(x, k) == None && CleanTree(WriteTree(x, k, v, t))
  {
    if x.Root? {
      WriteMeans(x.tree, k, v, t, x.height);
      UpdateTreeValid(x, k, v, t);
      if CleanTree(x) {
        CleanHasNone(x.tree, k);
        UpdateClean(x.tree, k, v, t, x.height);
      }
    }
  }
}
