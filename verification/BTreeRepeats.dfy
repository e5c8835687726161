/** Removal from a B-tree with repeated keys: exactly when one entry goes and all others stay. */
module BTreeRepeats {
  import opened Folding
  import opened BTreeSpec

  /** Entries pairwise different; keys may repeat. */
  ghost predicate Different(s: seq<Entry>) {
    forall i, j :: 0 <= i < j < |s| ==> s[i] != s[j]
  }

  /** One entry for `k` has gone and all others are as they were; nothing has changed if there was none. */
  ghost predicate OneGone(s: seq<Entry>, k: int, r: seq<Entry>) {
    if Has(s, k) then exists i :: 0 <= i < |s| && s[i].key == k && r == Without(s, i) else r == s
  }

  /** The last key of a sorted sequence is there more than once. */
  ghost predicate LastRepeats(s: seq<Entry>) {
    |s| >= 2 && s[|s| - 2].key == s[|s| - 1].key
  }

  // ---------------------------------------------------------------- sequences

  lemma {:induction false} DifferentPart(a: seq<Entry>, b: seq<Entry>, c: seq<Entry>)
    requires Different(a + b + c)
    ensures Different(b)
  {
    var s := a + b + c;
    forall i, j | 0 <= i < j < |b| ensures b[i] != b[j] {
      assert s[|a| + i] == b[i] && s[|a| + j] == b[j];
    }
  }

  lemma {:induction false} NextTo(s: seq<Entry>, i: nat)
    requires Different(s) && i + 1 < |s|
    ensures s[i] != s[i + 1]
  {}

  /** What is left after one entry has gone, place by place. */
  lemma {:induction false} WithoutAt(s: seq<Entry>, i: nat, q: nat)
    requires i < |s| && q < |s| - 1
    ensures |Without(s, i)| == |s| - 1 && Without(s, i)[q] == s[if q < i then q else q + 1]
  {}

  lemma {:induction false} WithoutInContext(b: seq<Entry>, f: seq<Entry>, a: seq<Entry>, i: nat)
    requires i < |f|
    ensures Without(b + f + a, |b| + i) == b + Without(f, i) + a && (b + f + a)[|b| + i] == f[i]
  {}

  /** An entry before or after the part that got shorter cannot be the one that has gone. */
  lemma {:induction false} NotBefore(b: seq<Entry>, f: seq<Entry>, a: seq<Entry>, c: seq<Entry>, i: nat)
    requires Different(b + f + a) && f != [] && |c| == |f| - 1 && i < |b|
    ensures b + c + a != Without(b + f + a, i)
  {
    WithoutAt(b + f + a, i, |b| - 1);
    NextTo(b + f + a, |b| - 1);
    assert (b + c + a)[|b| - 1] == (b + f + a)[|b| - 1];
  }

  lemma {:induction false} NotAfter(b: seq<Entry>, f: seq<Entry>, a: seq<Entry>, c: seq<Entry>, i: nat)
    requires Different(b + f + a) && f != [] && |c| == |f| - 1 && |b| + |f| <= i < |b + f + a|
    ensures b + c + a != Without(b + f + a, i)
  {
    var p := |b| + |f| - 1;
    WithoutAt(b + f + a, i, p);
    NextTo(b + f + a, p);
    assert (b + c + a)[p] == a[0] == (b + f + a)[p + 1];
  }

  lemma {:induction false} GoneWithin(b: seq<Entry>, f: seq<Entry>, a: seq<Entry>, c: seq<Entry>, i: nat)
    requires f != [] && |c| == |f| - 1 && |b| <= i < |b| + |f| && b + c + a == Without(b + f + a, i)
    ensures c == Without(f, i - |b|)
  {
    forall q | 0 <= q < |c| ensures c[q] == Without(f, i - |b|)[q] {
      WithoutAt(b + f + a, i, |b| + q);
      WithoutAt(f, i - |b|, q);
      assert (b + c + a)[|b| + q] == c[q];
    }
  }

  /** If one entry of the whole has gone, it has gone from the part that got shorter. */
  lemma {:induction false} GoneInPart(b: seq<Entry>, f: seq<Entry>, a: seq<Entry>, c: seq<Entry>, i: nat)
    requires Different(b + f + a) && f != [] && |c| == |f| - 1
    requires i < |b + f + a| && b + c + a == Without(b + f + a, i)
    ensures |b| <= i < |b| + |f| && c == Without(f, i - |b|)
  {
    if i < |b| {
      NotBefore(b, f, a, c, i);
    } else if i >= |b| + |f| {
      NotAfter(b, f, a, c, i);
    } else {
      GoneWithin(b, f, a, c, i);
    }
  }

  lemma {:induction false} HasPart(b: seq<Entry>, f: seq<Entry>, a: seq<Entry>, k: int)
    ensures Has(f, k) ==> Has(b + f + a, k)
  {
    if Has(f, k) {
      var i :| 0 <= i < |f| && f[i].key == k;
      assert (b + f + a)[|b| + i] == f[i];
    }
  }

  lemma {:induction false} SamePart(b: seq<Entry>, f: seq<Entry>, a: seq<Entry>, c: seq<Entry>)
    requires |c| == |f|
    ensures b + c + a == b + f + a <==> c == f
  {
    if b + c + a == b + f + a {
      assert c == (b + c + a)[|b|..|b| + |c|] && f == (b + f + a)[|b|..|b| + |f|];
    }
  }

  /** One entry goes from the whole when it goes from the part in which the key is to be found. */
  lemma {:induction false} PartSuffices(b: seq<Entry>, f: seq<Entry>, a: seq<Entry>, k: int, c: seq<Entry>)
    requires Has(f, k) || !Has(b + f + a, k)
    ensures OneGone(f, k, c) ==> OneGone(b + f + a, k, b + c + a)
  {
    HasPart(b, f, a, k);
    if Has(f, k) && OneGone(f, k, c) {
      var i :| 0 <= i < |f| && f[i].key == k && c == Without(f, i);
      WithoutInContext(b, f, a, i);
    }
  }

  /** And only then, if the entries are pairwise different. */
  lemma {:induction false} PartNeeded(b: seq<Entry>, f: seq<Entry>, a: seq<Entry>, k: int, c: seq<Entry>)
    requires (Has(f, k) || !Has(b + f + a, k)) && |c| == |f| - (if Has(f, k) then 1 else 0)
    requires Different(b + f + a) && OneGone(b + f + a, k, b + c + a)
    ensures OneGone(f, k, c)
  {
    HasPart(b, f, a, k);
    if Has(f, k) {
      var i :| 0 <= i < |b + f + a| && (b + f + a)[i].key == k && b + c + a == Without(b + f + a, i);
      GoneInPart(b, f, a, c, i);
      WithoutInContext(b, f, a, i - |b|);
    } else {
      SamePart(b, f, a, c);
    }
  }

  /** The last entry of `f` takes the place of `m` and goes from `f`: one entry is gone. */
  lemma {:induction false} LastReplaces(b: seq<Entry>, f: seq<Entry>, m: Entry, a: seq<Entry>)
    requires f != []
    ensures OneGone(b + (f + [m]) + a, m.key, b + (f[..|f| - 1] + [f[|f| - 1]]) + a)
  {
    var s, p := b + (f + [m]) + a, |b| + |f|;
    assert f[..|f| - 1] + [f[|f| - 1]] == f && s[p] == m && Without(s, p) == b + f + a;
  }

  /** If one entry is gone when the last entry of `f` has replaced `m` and something went from `f`, it was that entry. */
  lemma {:induction false} LastReplaced(b: seq<Entry>, f: seq<Entry>, m: Entry, a: seq<Entry>, c: seq<Entry>, i: nat)
    requires f != [] && |c| == |f| - 1 && Different(b + (f + [m]) + a) && i < |b + (f + [m]) + a|
    requires b + (c + [f[|f| - 1]]) + a == Without(b + (f + [m]) + a, i)
    ensures c == f[..|f| - 1]
  {
    var s, w, p := b + (f + [m]) + a, b + (c + [f[|f| - 1]]) + a, |b| + |f| - 1;
    assert s[p] == f[|f| - 1] && w[p] == s[p];
    NextTo(s, p);
    WithoutAt(s, i, p);
    forall q | 0 <= q < |c| ensures c[q] == f[q] {
      WithoutAt(s, i, |b| + q);
      assert w[|b| + q] == c[q] && s[|b| + q] == f[q];
    }
  }

  /** The same for the first entry of `f`, from the other side. */
  lemma {:induction false} FirstReplaces(b: seq<Entry>, m: Entry, f: seq<Entry>, a: seq<Entry>)
    requires f != []
    ensures OneGone(b + ([m] + f) + a, m.key, b + ([f[0]] + f[1..]) + a)
  {
    var s, p := b + ([m] + f) + a, |b|;
    assert [f[0]] + f[1..] == f && s[p] == m && Without(s, p) == b + f + a;
  }

  lemma {:induction false} FirstReplaced(b: seq<Entry>, m: Entry, f: seq<Entry>, a: seq<Entry>, c: seq<Entry>, i: nat)
    requires f != [] && |c| == |f| - 1 && Different(b + ([m] + f) + a) && i < |b + ([m] + f) + a|
    requires b + ([f[0]] + c) + a == Without(b + ([m] + f) + a, i)
    ensures c == f[1..]
  {
    var s, w, p := b + ([m] + f) + a, b + ([f[0]] + c) + a, |b|;
    assert s[p + 1] == f[0] && w[p] == s[p + 1];
    NextTo(s, p);
    WithoutAt(s, i, p);
    forall q | 0 <= q < |c| ensures c[q] == f[1..][q] {
      WithoutAt(s, i, p + 1 + q);
      assert w[p + 1 + q] == c[q] && s[p + 2 + q] == f[q + 1];
    }
  }

  /** Removal takes out one entry, whichever. */
  lemma {:induction false} OneShorter(s: seq<Entry>, k: int, r: seq<Entry>)
    requires Removed(s, k, r)
    ensures |r| == |s| - if Has(s, k) then 1 else 0
  {
    RemoveKeyIndex(s, k);
    assert |Keys(r)| == |Keys(RemoveKey(s, k))|;
  }

  lemma {:induction false} FirstInContext(f: seq<Entry>, a: seq<Entry>, c: seq<Entry>)
    requires f != [] && |c| == |f| - 1
    ensures c + a == (f + a)[1..] <==> c == f[1..]
  {
    assert (f + a)[1..] == f[1..] + a;
    SamePart([], f[1..], a, c);
    assert [] + f[1..] + a == f[1..] + a && [] + c + a == c + a;
  }

  // ---------------------------------------------------------------- one step of removal

  /** A node that removal can start from. */
  ghost predicate Removable(x: Tree, t: nat, h: nat) {
    2 <= t && Balanced(x, t, h) && 1 <= |x.keys| && InOrder(x)
  }

  /** The contents are sorted; folded. */
  ghost predicate InOrder(x: Tree) {
    forall q :: Look(q) ==> Sorted(Flat(x))
  }

  /** What removing `k` below `x` leaves, as a sequence; folded. */
  ghost predicate Leaves(r: seq<Entry>, x: Tree, k: int, t: nat, h: nat) {
    forall i :: Look(i) ==> Removable(x, t, h) && r == Flat(Remove(x, k, t, h))
  }

  lemma {:induction false} LeavesShorter(r: seq<Entry>, x: Tree, k: int, t: nat, h: nat)
    requires Leaves(r, x, k, t, h)
    ensures |r| == |Flat(x)| - if Has(Flat(x), k) then 1 else 0
  {
    assert Look(0);
    RemoveFlat(x, k, t, h);
    OneShorter(Flat(x), k, r);
  }

  lemma {:induction false} NotEmpty(x: Tree, t: nat, h: nat)
    requires Removable(x, t, h)
    ensures Flat(x) != [] && FirstEntry(x, t, h) == Flat(x)[0] && LastEntry(x, t, h) == Flat(x)[|Flat(x)| - 1]
  {
    FirstEntryFlat(x, t, h);
    LastEntryFlat(x, t, h);
  }

  /** The node holds the key itself. */
  ghost predicate Found(x: Tree, k: int) {
    var i := FindPos(x.keys, k);
    i < |x.keys| && x.keys[i].key == k
  }

  lemma {:induction false} AtLeaf(r: seq<Entry>, x: Tree, k: int, t: nat)
    requires Leaves(r, x, k, t, 0) && Removable(x, t, 0)
    ensures Flat(x) == x.keys
    ensures r == if Found(x, k) then Without(x.keys, FindPos(x.keys, k)) else x.keys
  {
    assert Look(0);
  }

  /** The node after the child at `i` has been filled, if it has no key to spare. */
  ghost function Filled(x: Tree, i: nat, t: nat, h: nat): (r: Tree)
    requires 2 <= t && 0 < h && Balanced(x, t, h) && 1 <= |x.keys| && i <= |x.keys|
    ensures Balanced(r, t, h) && Next(i, r) < |r.children| && t <= |r.children[Next(i, r)].keys|
  {
    if |x.children[i].keys| < t then Fill(x, i, t, h) else x
  }

  /** The child that removal goes on with. */
  ghost function Next(i: nat, r: Tree): nat {
    if i > |r.keys| then i - 1 else i
  }

  /** The child that removal of `k` goes on with, once it has been filled. */
  ghost function Below(x: Tree, k: int, t: nat, h: nat): Tree
    requires Removable(x, t, h) && 0 < h
  {
    var f := Filled(x, FindPos(x.keys, k), t, h);
    f.children[Next(FindPos(x.keys, k), f)]
  }

  /** `y` is that child; folded. */
  ghost predicate GoesTo(y: Tree, x: Tree, k: int, t: nat, h: nat) {
    forall q :: Look(q) ==> Removable(x, t, h) && 0 < h && y == Below(x, k, t, h)
  }

  /** `r` is what `f` holds with `c` in the place of child `j`. */
  ghost predicate Replaced(r: seq<Entry>, f: Tree, j: nat, c: seq<Entry>) {
    && |f.children| == |f.keys| + 1 && j < |f.children|
    && r == Before(f.keys[..j], f.children[..j]) + c + After(f.keys[j..], f.children[j + 1..])
  }

  lemma {:induction false} RemoveGoesDown(x: Tree, k: int, t: nat, h: nat)
    requires Removable(x, t, h) && 0 < h && !Found(x, k)
    ensures var i := FindPos(x.keys, k); var f := Filled(x, i, t, h); Remove(x, k, t, h) == RemoveFrom(f, Next(i, f), k, t, h)
  {}

  /** Filling keeps the contents and the keys on both sides. */
  lemma {:induction false} FilledSame(x: Tree, k: int, t: nat, h: nat)
    requires Removable(x, t, h) && 0 < h && !Found(x, k)
    ensures var i := FindPos(x.keys, k); var f := Filled(x, i, t, h); var j := Next(i, f);
            && Flat(f) == Flat(x) && (j > 0 ==> f.keys[j - 1].key < k) && (j < |f.keys| ==> k < f.keys[j].key)
            && (i == |x.keys| ==> j == |f.keys|) && (i == 0 ==> j == 0)
  {
    assert Look(0);
    var i := FindPos(x.keys, k);
    KeysSorted(x);
    if |x.children[i].keys| < t {
      FillFlat(x, i, t, h);
      FillFences(x, i, k, t);
    }
  }

  /** What a recursive call leaves, in its place. */
  lemma {:induction false} LeavesChild(f: Tree, j: nat, k: int, t: nat, h: nat) returns (c: seq<Entry>)
    requires 2 <= t && 0 < h && Balanced(f, t, h) && InOrder(f) && j < |f.children| && t <= |f.children[j].keys|
    ensures Removable(f.children[j], t, h - 1) && Leaves(c, f.children[j], k, t, h - 1)
    ensures Replaced(Flat(RemoveFrom(f, j, k, t, h)), f, j, c)
  {
    assert Look(0);
    ChildBalanced(f, j, t, h);
    ChildSorted(f, j);
    c := Flat(Remove(f.children[j], k, t, h - 1));
    FlatWithChild(f, j, Remove(f.children[j], k, t, h - 1));
  }

  /** Where a node does not hold the key, removal goes on below, in the only child that may hold it. */
  lemma {:induction false} Down(r: seq<Entry>, x: Tree, k: int, t: nat, h: nat) returns (f: Tree, j: nat, c: seq<Entry>)
    requires Leaves(r, x, k, t, h) && Removable(x, t, h) && 0 < h && !Found(x, k)
    ensures Flat(f) == Flat(x) && Replaced(r, f, j, c) && GoesTo(f.children[j], x, k, t, h)
    ensures (j > 0 ==> f.keys[j - 1].key < k) && (j < |f.keys| ==> k < f.keys[j].key)
    ensures Removable(f.children[j], t, h - 1) && Leaves(c, f.children[j], k, t, h - 1)
    ensures (FindPos(x.keys, k) == |x.keys| ==> j == |f.keys|) && (FindPos(x.keys, k) == 0 ==> j == 0)
  {
    f := Filled(x, FindPos(x.keys, k), t, h);
    j := Next(FindPos(x.keys, k), f);
    RemoveGoesDown(x, k, t, h);
    FilledSame(x, k, t, h);
    c := LeavesChild(f, j, k, t, h);
    Unfolded(r, x, k, t, h);
  }

  lemma {:induction false} Unfolded(r: seq<Entry>, x: Tree, k: int, t: nat, h: nat)
    requires Leaves(r, x, k, t, h)
    ensures Removable(x, t, h) && r == Flat(Remove(x, k, t, h))
  {
    assert Look(0);
  }

  lemma {:induction false} InnerLeaves(r: seq<Entry>, x: Tree, i: nat, t: nat, h: nat)
    requires Removable(x, t, h) && 0 < h && i < |x.keys| && i == FindPos(x.keys, x.keys[i].key)
    requires Leaves(r, x, x.keys[i].key, t, h)
    ensures r == Flat(RemoveInner(x, i, t, h))
  {
    Unfolded(r, x, x.keys[i].key, t, h);
  }

  /** What removal leaves of one of the children. */
  lemma {:induction false} ChildLeaves(x: Tree, i: nat, k: int, t: nat, h: nat) returns (c: seq<Entry>)
    requires Removable(x, t, h) && 0 < h && i < |x.children| == |x.keys| + 1 && 1 <= |x.children[i].keys|
    ensures Removable(x.children[i], t, h - 1) && Leaves(c, x.children[i], k, t, h - 1)
    ensures c == Flat(Remove(x.children[i], k, t, h - 1))
  {
    assert Look(0);
    ChildBalanced(x, i, t, h);
    ChildSorted(x, i);
    c := Flat(Remove(x.children[i], k, t, h - 1));
  }

  /** `r` is what `x` holds with `mid` in the place of key `i` and the children on its sides; folded. */
  ghost predicate Middle(r: seq<Entry>, x: Tree, i: nat, mid: seq<Entry>) {
    forall q :: Look(q) ==>
      && i < |x.keys| && |x.children| == |x.keys| + 1
      && r == Before(x.keys[..i], x.children[..i]) + mid + After(x.keys[i + 1..], x.children[i + 2..])
  }

  lemma {:induction false} PairMiddle(x: Tree, i: nat, l: Tree, k: Entry, r: Tree)
    requires i < |x.keys| && |x.children| == |x.keys| + 1
    ensures Middle(Flat(WithPair(x, i, l, k, r)), x, i, Flat(l) + [k] + Flat(r))
  {
    WithPairFlat(x, i, l, k, r);
  }

  /** A key found in an inner node: the predecessor comes up if the left child can spare a key. */
  lemma {:induction false} Predecessor(r: seq<Entry>, x: Tree, i: nat, t: nat, h: nat) returns (c: seq<Entry>, e: Entry)
    requires 0 < h && i < |x.keys| && i == FindPos(x.keys, x.keys[i].key) && Leaves(r, x, x.keys[i].key, t, h)
    requires Removable(x, t, h) && |x.children| == |x.keys| + 1 && |x.children[i].keys| >= t
    ensures var y := x.children[i];
            && Removable(y, t, h - 1) && EndsWith(Flat(y), e) && Leaves(c, y, e.key, t, h - 1)
            && Middle(r, x, i, c + [e] + Flat(x.children[i + 1]))
  {
    InnerLeaves(r, x, i, t, h);
    c, e := PredecessorFlat(x, i, t, h);
  }

  lemma {:induction false} PredecessorFlat(x: Tree, i: nat, t: nat, h: nat) returns (c: seq<Entry>, e: Entry)
    requires Removable(x, t, h) && 0 < h && i < |x.keys| && |x.children| == |x.keys| + 1 && |x.children[i].keys| >= t
    ensures var y := x.children[i];
            && Removable(y, t, h - 1) && EndsWith(Flat(y), e) && Leaves(c, y, e.key, t, h - 1)
            && Middle(Flat(RemoveInner(x, i, t, h)), x, i, c + [e] + Flat(x.children[i + 1]))
  {
    var d := PredecessorChild(x, i, t, h);
    NotEmpty(x.children[i], t, h - 1);
    c, e := Flat(d), LastEntry(x.children[i], t, h - 1);
    PairMiddle(x, i, d, e, x.children[i + 1]);
  }

  /** `d` is what removing the last key of child `i` leaves of it. */
  lemma {:induction false} PredecessorChild(x: Tree, i: nat, t: nat, h: nat) returns (d: Tree)
    requires Removable(x, t, h) && 0 < h && i < |x.keys| && |x.children| == |x.keys| + 1 && |x.children[i].keys| >= t
    ensures var y := x.children[i];
            && Removable(y, t, h - 1) && Leaves(Flat(d), y, LastEntry(y, t, h - 1).key, t, h - 1)
            && RemoveInner(x, i, t, h) == WithPair(x, i, d, LastEntry(y, t, h - 1), x.children[i + 1])
  {
    PredecessorStep(x, i, t, h);
    var k := LastEntry(x.children[i], t, h - 1).key;
    var c := ChildLeaves(x, i, k, t, h);
    d := Remove(x.children[i], k, t, h - 1);
  }

  /** Otherwise the successor, if the right child can. */
  lemma {:induction false} Successor(r: seq<Entry>, x: Tree, i: nat, t: nat, h: nat) returns (c: seq<Entry>)
    requires 0 < h && i < |x.keys| && i == FindPos(x.keys, x.keys[i].key) && Leaves(r, x, x.keys[i].key, t, h)
    requires Removable(x, t, h) && |x.children| == |x.keys| + 1 && |x.children[i].keys| < t <= |x.children[i + 1].keys|
    ensures var y := x.children[i + 1];
            && Removable(y, t, h - 1) && Flat(y) != [] && Leaves(c, y, Flat(y)[0].key, t, h - 1)
            && Middle(r, x, i, Flat(x.children[i]) + [Flat(y)[0]] + c)
  {
    InnerLeaves(r, x, i, t, h);
    c := SuccessorFlat(x, i, t, h);
  }

  /** `d` is what removing the first key of child `i + 1` leaves of it. */
  lemma {:induction false} SuccessorChild(x: Tree, i: nat, t: nat, h: nat) returns (d: Tree)
    requires Removable(x, t, h) && 0 < h && i < |x.keys| && |x.children| == |x.keys| + 1
    requires |x.children[i].keys| < t <= |x.children[i + 1].keys|
    ensures var y := x.children[i + 1];
            && Removable(y, t, h - 1) && Leaves(Flat(d), y, FirstEntry(y, t, h - 1).key, t, h - 1)
            && RemoveInner(x, i, t, h) == WithPair(x, i, x.children[i], FirstEntry(y, t, h - 1), d)
  {
    SuccessorStep(x, i, t, h);
    var k := FirstEntry(x.children[i + 1], t, h - 1).key;
    var c := ChildLeaves(x, i + 1, k, t, h);
    d := Remove(x.children[i + 1], k, t, h - 1);
  }

  lemma {:induction false} SuccessorFlat(x: Tree, i: nat, t: nat, h: nat) returns (c: seq<Entry>)
    requires Removable(x, t, h) && 0 < h && i < |x.keys| && |x.children| == |x.keys| + 1
    requires |x.children[i].keys| < t <= |x.children[i + 1].keys|
    ensures var y := x.children[i + 1];
            && Removable(y, t, h - 1) && Flat(y) != [] && Leaves(c, y, Flat(y)[0].key, t, h - 1)
            && Middle(Flat(RemoveInner(x, i, t, h)), x, i, Flat(x.children[i]) + [Flat(y)[0]] + c)
  {
    var d := SuccessorChild(x, i, t, h);
    NotEmpty(x.children[i + 1], t, h - 1);
    c := Flat(d);
    PairMiddle(x, i, x.children[i], Flat(x.children[i + 1])[0], d);
  }

  /** Otherwise the two children are merged around the key, which goes on to be removed below. */
  lemma {:induction false} Merging(r: seq<Entry>, x: Tree, i: nat, t: nat, h: nat) returns (m: Tree, c: seq<Entry>)
    requires 0 < h && i < |x.keys| && i == FindPos(x.keys, x.keys[i].key) && Leaves(r, x, x.keys[i].key, t, h)
    requires Removable(x, t, h) && |x.children| == |x.keys| + 1 && |x.children[i].keys| < t && |x.children[i + 1].keys| < t
    ensures Flat(m) == Flat(x) && Replaced(r, m, i, c) && m == Merge(x, i)
    ensures Flat(m.children[i]) == Flat(x.children[i]) + [x.keys[i]] + Flat(x.children[i + 1])
    ensures Removable(m.children[i], t, h - 1) && Leaves(c, m.children[i], x.keys[i].key, t, h - 1)
    ensures Flat(x.children[i]) != [] && Flat(x.children[i + 1]) != []
  {
    m := Merge(x, i);
    MergedChild(x, i, t, h);
    MergedOf(x, i, t, h);
    c := LeavesChild(m, i, x.keys[i].key, t, h);
    Unfolded(r, x, x.keys[i].key, t, h);
  }

  /** The child that a merge makes. */
  lemma {:induction false} MergedChild(x: Tree, i: nat, t: nat, h: nat)
    requires Removable(x, t, h) && 0 < h && i < |x.keys| && |x.children[i].keys| < t && |x.children[i + 1].keys| < t
    ensures |x.children[i].keys| == |x.children[i + 1].keys| == t - 1
    ensures Balanced(Merge(x, i), t, h) && Flat(Merge(x, i)) == Flat(x)
    ensures i < |Merge(x, i).children| == |Merge(x, i).keys| + 1 && t <= |Merge(x, i).children[i].keys|
    ensures RemoveInner(x, i, t, h) == RemoveFrom(Merge(x, i), i, x.keys[i].key, t, h)
  {
    ChildBalanced(x, i, t, h);
    ChildBalanced(x, i + 1, t, h);
    MergeBalanced(x, i, t, h);
    MergeFlat(x, i);
  }

  lemma {:induction false} MergedOf(x: Tree, i: nat, t: nat, h: nat)
    requires Removable(x, t, h) && 0 < h && i < |x.keys| && |x.children[i].keys| < t && |x.children[i + 1].keys| < t
    ensures i < |Merge(x, i).children|
    ensures Flat(Merge(x, i).children[i]) == Flat(x.children[i]) + [x.keys[i]] + Flat(x.children[i + 1])
    ensures Flat(x.children[i]) != [] && Flat(x.children[i + 1]) != []
  {
    ChildBalanced(x, i, t, h);
    ChildBalanced(x, i + 1, t, h);
    FirstEntryFlat(x.children[i], t, h - 1);
    FirstEntryFlat(x.children[i + 1], t, h - 1);
    JoinedFlat(x.children[i], x.keys[i], x.children[i + 1]);
  }

  // ---------------------------------------------------------------- when the first entry is the one that goes

  /**
   Removing the key of the first entry takes out that very entry. It does so at the first leaf; at a node on the way that
   holds the key as well, only if its first two children are merged.
   */
  ghost predicate TakesFirst(x: Tree, t: nat, h: nat)
    decreases h
  {
    && Removable(x, t, h)
    && (h == 0 ||
        if x.keys[0].key == FirstEntry(x, t, h).key then
          |x.children[0].keys| < t && |x.children[1].keys| < t && TakesFirst(Merge(x, 0).children[0], t, h - 1)
        else
          TakesFirst(Below(x, FirstEntry(x, t, h).key, t, h), t, h - 1))
  }

  lemma {:induction false} TakesFirstMerged(x: Tree, t: nat, h: nat)
    requires Removable(x, t, h) && 0 < h && |x.children| == |x.keys| + 1 && x.keys[0].key == FirstEntry(x, t, h).key
    ensures TakesFirst(x, t, h)
            <==> |x.children[0].keys| < t && |x.children[1].keys| < t && TakesFirst(Merge(x, 0).children[0], t, h - 1)
  {}

  lemma {:induction false} TakesFirstBelow(x: Tree, y: Tree, t: nat, h: nat)
    requires Removable(x, t, h) && 0 < h && x.keys[0].key != FirstEntry(x, t, h).key
    requires GoesTo(y, x, FirstEntry(x, t, h).key, t, h)
    ensures TakesFirst(x, t, h) <==> TakesFirst(y, t, h - 1)
  {
    assert Look(0);
  }

  /** What a step says about the first entry, if what it says about the first child is so. */
  ghost predicate FirstExactly(r: seq<Entry>, x: Tree, t: nat, h: nat) {
    forall i :: Look(i) ==>
      && Flat(x) != []
      && (TakesFirst(x, t, h) ==> r == Flat(x)[1..])
      && (Different(Flat(x)) && r == Flat(x)[1..] ==> TakesFirst(x, t, h))
  }

  /** The first entry goes from the whole exactly when it goes from the first child. */
  lemma {:induction false} FirstPlaced(r: seq<Entry>, f: Tree, c: seq<Entry>)
    requires Replaced(r, f, 0, c) && Flat(f.children[0]) != [] && |c| == |Flat(f.children[0])| - 1
    ensures Flat(f) != [] && Flat(f)[0] == Flat(f.children[0])[0]
    ensures r == Flat(f)[1..] <==> c == Flat(f.children[0])[1..]
    ensures Different(Flat(f)) ==> Different(Flat(f.children[0]))
  {
    FlatAt(f, 0);
    var a := After(f.keys[0..], f.children[1..]);
    assert Flat(f) == [] + Flat(f.children[0]) + a == Flat(f.children[0]) + a && r == c + a;
    FirstInContext(Flat(f.children[0]), a, c);
    if Different(Flat(f)) {
      DifferentPart([], Flat(f.children[0]), a);
    }
  }

  lemma {:induction false} FirstStep(r: seq<Entry>, x: Tree, f: Tree, c: seq<Entry>, t: nat, h: nat)
    requires 0 < h && Flat(f) == Flat(x) && Replaced(r, f, 0, c) && Flat(f.children[0]) != []
    requires |c| == |Flat(f.children[0])| - 1 && FirstExactly(c, f.children[0], t, h - 1)
    requires TakesFirst(x, t, h) <==> TakesFirst(f.children[0], t, h - 1)
    ensures FirstExactly(r, x, t, h)
  {
    assert Look(0);
    FirstPlaced(r, f, c);
  }

  /** The key of the first entry is not below any key of the node. */
  lemma {:induction false} FirstPos(x: Tree, t: nat, h: nat)
    requires Removable(x, t, h) && 0 < h && |x.children| == |x.keys| + 1
    ensures FindPos(x.keys, FirstEntry(x, t, h).key) == 0
  {
    assert Look(0);
    NotEmpty(x, t, h);
    KeyInFlat(x, 0);
  }

  lemma {:induction false} HasFirst(s: seq<Entry>)
    requires s != []
    ensures Has(s, s[0].key) && Has(s, s[|s| - 1].key)
  {}

  /** A predecessor coming up leaves another entry where the second one was. */
  lemma {:induction false} MiddleUp(r: seq<Entry>, x: Tree, c: seq<Entry>, e: Entry)
    requires |x.children| == |x.keys| + 1 && 1 <= |x.keys|
    requires var f := Flat(x.children[0]); EndsWith(f, e) && |c| == |f| - 1
    requires Middle(r, x, 0, c + [e] + Flat(x.children[1]))
    ensures Flat(x) != [] && (Different(Flat(x)) ==> r != Flat(x)[1..])
  {
    assert Look(0);
    FlatAround(x, 0);
    var p := |c|;
    if Different(Flat(x)) {
      NextTo(Flat(x), p);
      assert r[p] == Flat(x)[p] && Flat(x)[1..][p] == Flat(x)[p + 1];
    }
  }

  /** A successor coming up leaves the first entry where it is. */
  lemma {:induction false} FirstKept(r: seq<Entry>, x: Tree, e: Entry, c: seq<Entry>)
    requires |x.children| == |x.keys| + 1 && 1 <= |x.keys| && Flat(x.children[0]) != []
    requires Middle(r, x, 0, Flat(x.children[0]) + [e] + c)
    ensures Flat(x) != [] && (Different(Flat(x)) ==> r != Flat(x)[1..])
  {
    assert Look(0);
    FlatAround(x, 0);
    if Different(Flat(x)) {
      NextTo(Flat(x), 0);
      assert r[0] == Flat(x)[0] && Flat(x)[1..][0] == Flat(x)[1];
    }
  }

  lemma {:induction false} FirstUp(r: seq<Entry>, x: Tree, t: nat, h: nat)
    requires Removable(x, t, h) && 0 < h && |x.children| == |x.keys| + 1 && x.keys[0].key == FirstEntry(x, t, h).key
    requires Leaves(r, x, x.keys[0].key, t, h) && (|x.children[0].keys| >= t || |x.children[1].keys| >= t)
    ensures FirstExactly(r, x, t, h)
  {
    FirstPos(x, t, h);
    NotEmpty(x, t, h);
    TakesFirstMerged(x, t, h);
    if |x.children[0].keys| >= t {
      PredecessorUp(r, x, t, h);
    } else {
      SuccessorUp(r, x, t, h);
    }
  }

  lemma {:induction false} PredecessorUp(r: seq<Entry>, x: Tree, t: nat, h: nat)
    requires Removable(x, t, h) && 0 < h && |x.children| == |x.keys| + 1 && FindPos(x.keys, x.keys[0].key) == 0
    requires Leaves(r, x, x.keys[0].key, t, h) && |x.children[0].keys| >= t && Flat(x) != []
    ensures Different(Flat(x)) ==> r != Flat(x)[1..]
  {
    var c, e := Predecessor(r, x, 0, t, h);
    LastShorter(c, x.children[0], e, t, h - 1);
    MiddleUp(r, x, c, e);
  }

  lemma {:induction false} LastShorter(c: seq<Entry>, y: Tree, e: Entry, t: nat, h: nat)
    requires EndsWith(Flat(y), e) && Leaves(c, y, e.key, t, h)
    ensures |c| == |Flat(y)| - 1
  {
    HasFirst(Flat(y));
    LeavesShorter(c, y, e.key, t, h);
  }

  lemma {:induction false} SuccessorUp(r: seq<Entry>, x: Tree, t: nat, h: nat)
    requires Removable(x, t, h) && 0 < h && |x.children| == |x.keys| + 1 && FindPos(x.keys, x.keys[0].key) == 0
    requires Leaves(r, x, x.keys[0].key, t, h) && |x.children[0].keys| < t <= |x.children[1].keys| && Flat(x) != []
    ensures Different(Flat(x)) ==> r != Flat(x)[1..]
  {
    ChildBalanced(x, 0, t, h);
    FirstEntryFlat(x.children[0], t, h - 1);
    var c := Successor(r, x, 0, t, h);
    FirstKept(r, x, Flat(x.children[1])[0], c);
  }

  /** The condition is exact. */
  lemma {:induction false} FirstTaken(r: seq<Entry>, x: Tree, t: nat, h: nat)
    requires Removable(x, t, h) && Leaves(r, x, FirstEntry(x, t, h).key, t, h)
    ensures FirstExactly(r, x, t, h)
    decreases h, 2
  {
    if h == 0 {
      FirstOfLeaf(r, x, t);
    } else if x.keys[0].key != FirstEntry(x, t, h).key {
      FirstTakenBelow(r, x, t, h);
    } else {
      FirstTakenHere(r, x, t, h);
    }
  }

  lemma {:induction false} FirstTakenBelow(r: seq<Entry>, x: Tree, t: nat, h: nat)
    requires Removable(x, t, h) && 0 < h && |x.children| == |x.keys| + 1 && x.keys[0].key != FirstEntry(x, t, h).key
    requires Leaves(r, x, FirstEntry(x, t, h).key, t, h)
    ensures FirstExactly(r, x, t, h)
    decreases h, 0
  {
    var f, c := FirstBelow(r, x, t, h);
    FirstTaken(c, f.children[0], t, h - 1);
    FirstStep(r, x, f, c, t, h);
  }

  lemma {:induction false} FirstTakenHere(r: seq<Entry>, x: Tree, t: nat, h: nat)
    requires Removable(x, t, h) && 0 < h && |x.children| == |x.keys| + 1 && x.keys[0].key == FirstEntry(x, t, h).key
    requires Leaves(r, x, x.keys[0].key, t, h)
    ensures FirstExactly(r, x, t, h)
    decreases h, 1
  {
    if |x.children[0].keys| >= t || |x.children[1].keys| >= t {
      FirstUp(r, x, t, h);
    } else {
      FirstTakenMerged(r, x, t, h);
    }
  }

  lemma {:induction false} FirstTakenMerged(r: seq<Entry>, x: Tree, t: nat, h: nat)
    requires Removable(x, t, h) && 0 < h && |x.children| == |x.keys| + 1 && x.keys[0].key == FirstEntry(x, t, h).key
    requires Leaves(r, x, x.keys[0].key, t, h) && |x.children[0].keys| < t && |x.children[1].keys| < t
    ensures FirstExactly(r, x, t, h)
    decreases h, 0
  {
    var m, c := FirstMerged(r, x, t, h);
    FirstTaken(c, m.children[0], t, h - 1);
    FirstStep(r, x, m, c, t, h);
  }

  lemma {:induction false} FirstOfLeaf(r: seq<Entry>, x: Tree, t: nat)
    requires Removable(x, t, 0) && Leaves(r, x, FirstEntry(x, t, 0).key, t, 0)
    ensures FirstExactly(r, x, t, 0)
  {
    AtLeaf(r, x, x.keys[0].key, t);
    assert x.keys[..0] + x.keys[1..] == x.keys[1..];
  }

  lemma {:induction false} FirstBelow(r: seq<Entry>, x: Tree, t: nat, h: nat) returns (f: Tree, c: seq<Entry>)
    requires Removable(x, t, h) && 0 < h && |x.children| == |x.keys| + 1 && x.keys[0].key != FirstEntry(x, t, h).key
    requires Leaves(r, x, FirstEntry(x, t, h).key, t, h)
    ensures Flat(f) == Flat(x) && Replaced(r, f, 0, c) && Flat(f.children[0]) != [] && |c| == |Flat(f.children[0])| - 1
    ensures Removable(f.children[0], t, h - 1) && Leaves(c, f.children[0], FirstEntry(f.children[0], t, h - 1).key, t, h - 1)
    ensures TakesFirst(x, t, h) <==> TakesFirst(f.children[0], t, h - 1)
  {
    var j: nat;
    FirstPos(x, t, h);
    f, j, c := Down(r, x, FirstEntry(x, t, h).key, t, h);
    TakesFirstBelow(x, f.children[0], t, h);
    FirstSame(x, f, t, h);
    LeavesShorter(c, f.children[0], FirstEntry(x, t, h).key, t, h - 1);
  }

  lemma {:induction false} FirstSame(x: Tree, f: Tree, t: nat, h: nat)
    requires Removable(x, t, h) && 0 < h && Flat(f) == Flat(x) && |f.children| == |f.keys| + 1 && Removable(f.children[0], t, h - 1)
    ensures Flat(f.children[0]) != [] && FirstEntry(f.children[0], t, h - 1) == FirstEntry(x, t, h)
    ensures Has(Flat(f.children[0]), FirstEntry(x, t, h).key)
  {
    NotEmpty(x, t, h);
    NotEmpty(f.children[0], t, h - 1);
    HasFirst(Flat(f.children[0]));
  }

  lemma {:induction false} FirstMerged(r: seq<Entry>, x: Tree, t: nat, h: nat) returns (m: Tree, c: seq<Entry>)
    requires Removable(x, t, h) && 0 < h && |x.children| == |x.keys| + 1 && x.keys[0].key == FirstEntry(x, t, h).key
    requires Leaves(r, x, x.keys[0].key, t, h) && |x.children[0].keys| < t && |x.children[1].keys| < t
    ensures Flat(m) == Flat(x) && Replaced(r, m, 0, c) && Flat(m.children[0]) != [] && |c| == |Flat(m.children[0])| - 1
    ensures Removable(m.children[0], t, h - 1) && Leaves(c, m.children[0], FirstEntry(m.children[0], t, h - 1).key, t, h - 1)
    ensures TakesFirst(x, t, h) <==> TakesFirst(m.children[0], t, h - 1)
  {
    FirstPos(x, t, h);
    TakesFirstMerged(x, t, h);
    m, c := Merging(r, x, 0, t, h);
    FirstSame(x, m, t, h);
    LeavesShorter(c, m.children[0], x.keys[0].key, t, h - 1);
  }

  // ---------------------------------------------------------------- when the last entry is the one that goes

  ghost predicate EndsWith(s: seq<Entry>, e: Entry) {
    s != [] && s[|s| - 1] == e
  }

  lemma {:induction false} EndsWithLast(x: Tree)
    requires |x.children| == |x.keys| + 1
    ensures var j := |x.keys|;
            && x.keys[..j] == x.keys && After(x.keys[j..], x.children[j + 1..]) == []
            && Flat(x) == Before(x.keys, x.children[..j]) + Flat(x.children[j])
  {
    var j := |x.keys|;
    FlatAt(x, j);
    assert x.keys[..j] == x.keys && x.keys[j..] == [] && x.children[j + 1..] == [];
  }

  /** What happens to the last child happens to the whole. */
  lemma {:induction false} LastPlaced(r: seq<Entry>, f: Tree, c: seq<Entry>)
    requires Replaced(r, f, |f.keys|, c) && Flat(f.children[|f.keys|]) != []
    ensures var y := Flat(f.children[|f.keys|]);
            && EndsWith(Flat(f), y[|y| - 1])
            && (c == y[..|y| - 1] ==> r == Flat(f)[..|Flat(f)| - 1])
            && (EndsWith(c, y[|y| - 1]) ==> EndsWith(r, y[|y| - 1]))
            && (LastRepeats(y) ==> LastRepeats(Flat(f)))
  {
    EndsWithLast(f);
    LastInContext(Before(f.keys, f.children[..|f.keys|]), Flat(f.children[|f.keys|]), c);
    assert r == Before(f.keys, f.children[..|f.keys|]) + c + [] == Before(f.keys, f.children[..|f.keys|]) + c;
  }

  lemma {:induction false} LastInContext(b: seq<Entry>, y: seq<Entry>, c: seq<Entry>)
    requires y != []
    ensures EndsWith(b + y, y[|y| - 1])
    ensures c == y[..|y| - 1] ==> b + c == (b + y)[..|b + y| - 1]
    ensures EndsWith(c, y[|y| - 1]) ==> EndsWith(b + c, y[|y| - 1])
    ensures LastRepeats(y) ==> LastRepeats(b + y)
  {
    var s, n := b + y, |b + y|;
    assert s[n - 1] == y[|y| - 1] && s[..n - 1] == b + y[..|y| - 1];
    if |y| >= 2 {
      assert s[n - 2] == y[|y| - 2];
    }
    if c != [] {
      assert (b + c)[|b + c| - 1] == c[|c| - 1];
    }
  }

  /** Where the last key of a node is not the key of the last entry, that key repeats only below. */
  lemma {:induction false} RepeatsBelow(f: Tree, k: int)
    requires |f.children| == |f.keys| + 1 && InOrder(f) && LastRepeats(Flat(f)) && k == Flat(f)[|Flat(f)| - 1].key
    requires |f.keys| > 0 ==> f.keys[|f.keys| - 1].key < k
    ensures LastRepeats(Flat(f.children[|f.keys|]))
  {
    assert Look(0);
    var b, y := Before(f.keys, f.children[..|f.keys|]), Flat(f.children[|f.keys|]);
    EndsWithLast(f);
    AllBelowLast(f, k);
    ShortTail(b, y, k);
  }

  lemma {:induction false} ShortTail(b: seq<Entry>, y: seq<Entry>, k: int)
    ensures AllBelow(b, k - 1) && |y| < 2 <= |b + y| ==> (b + y)[|b + y| - 2].key < k
  {
    if |y| < 2 <= |b + y| {
      assert (b + y)[|b + y| - 2] == b[|b| - if |y| == 1 then 1 else 2];
    }
  }

  lemma {:induction false} AllBelowLast(f: Tree, k: int)
    requires |f.children| == |f.keys| + 1 && Sorted(Flat(f))
    requires |f.keys| > 0 ==> f.keys[|f.keys| - 1].key < k
    ensures AllBelow(Before(f.keys, f.children[..|f.keys|]), k - 1)
  {
    AroundChild(f, |f.keys|, k - 1);
    EndsWithLast(f);
  }

  /** Every key of an inner node has an entry behind it. */
  lemma {:induction false} KeyNotLast(x: Tree, j: nat)
    requires |x.children| == |x.keys| + 1 && j < |x.keys| && InOrder(x) && Flat(x.children[j + 1]) != []
    ensures |Flat(x)| >= 2 && x.keys[j].key <= Flat(x)[|Flat(x)| - 2].key
  {
    assert Look(0);
    FlatAround(x, j);
    var q := |Before(x.keys[..j], x.children[..j])| + |Flat(x.children[j])|;
    assert Flat(x)[q] == x.keys[j] && q + 1 < |Flat(x)|;
  }

  lemma {:induction false} NoneLast(x: Tree, t: nat, h: nat)
    requires Removable(x, t, h) && 0 < h && |x.children| == |x.keys| + 1 && !LastRepeats(Flat(x))
    ensures FindPos(x.keys, LastEntry(x, t, h).key) == |x.keys|
  {
    assert Look(0);
    var p := FindPos(x.keys, LastEntry(x, t, h).key);
    NotEmpty(x, t, h);
    if p < |x.keys| {
      ChildBalanced(x, p + 1, t, h);
      FirstEntryFlat(x.children[p + 1], t, h - 1);
      KeyNotLast(x, p);
    }
  }

  /** Where removal of the last key goes on in the last child. */
  lemma {:induction false} LastBelow(r: seq<Entry>, x: Tree, t: nat, h: nat) returns (f: Tree, c: seq<Entry>)
    requires Removable(x, t, h) && 0 < h && FindPos(x.keys, LastEntry(x, t, h).key) == |x.keys|
    requires Leaves(r, x, LastEntry(x, t, h).key, t, h)
    ensures Flat(f) == Flat(x) && Replaced(r, f, |f.keys|, c) && Flat(f.children[|f.keys|]) != []
    ensures var y := f.children[|f.keys|];
            && Removable(y, t, h - 1) && LastEntry(y, t, h - 1) == LastEntry(x, t, h)
            && Leaves(c, y, LastEntry(y, t, h - 1).key, t, h - 1) && EndsWith(Flat(y), LastEntry(y, t, h - 1))
    ensures |f.keys| > 0 ==> f.keys[|f.keys| - 1].key < LastEntry(x, t, h).key
    ensures EndsWith(Flat(f), LastEntry(x, t, h))
  {
    var j: nat;
    f, j, c := Down(r, x, LastEntry(x, t, h).key, t, h);
    NotEmpty(x, t, h);
    NotEmpty(f.children[j], t, h - 1);
    LastPlaced(r, f, c);
  }

  /** `r` is `s` without its last entry; folded. */
  ghost predicate LastDropped(r: seq<Entry>, s: seq<Entry>) {
    forall i :: Look(i) ==> s != [] && r == s[..|s| - 1]
  }

  /** A last key that is there once goes. */
  /** `r` is what removing the key of the last entry leaves, and the key is there once; folded. */
  ghost predicate LastGoes(r: seq<Entry>, x: Tree, t: nat, h: nat) {
    forall q :: Look(q) ==> Removable(x, t, h) && Leaves(r, x, LastEntry(x, t, h).key, t, h) && !LastRepeats(Flat(x))
  }

  lemma {:induction false} LastOnceLeaf(r: seq<Entry>, x: Tree, t: nat)
    requires LastGoes(r, x, t, 0)
    ensures LastDropped(r, Flat(x))
  {
    assert Look(0);
    LastOfLeaf(r, x, t);
  }

  lemma {:induction false} LastOnce(r: seq<Entry>, x: Tree, t: nat, h: nat)
    requires LastGoes(r, x, t, h)
    ensures LastDropped(r, Flat(x))
    decreases h
  {
    if h == 0 {
      LastOnceLeaf(r, x, t);
    } else {
      var y, c := LastOnceBelow(r, x, t, h);
      LastOnce(c, y, t, h - 1);
    }
  }

  lemma {:induction false} LastOnceBelow(r: seq<Entry>, x: Tree, t: nat, h: nat) returns (y: Tree, c: seq<Entry>)
    requires LastGoes(r, x, t, h) && 0 < h
    ensures LastGoes(c, y, t, h - 1) && (LastDropped(c, Flat(y)) ==> LastDropped(r, Flat(x)))
  {
    assert Look(0);
    y, c := LastOnceChild(r, x, t, h);
  }

  lemma {:induction false} LastOnceChild(r: seq<Entry>, x: Tree, t: nat, h: nat) returns (y: Tree, c: seq<Entry>)
    requires Removable(x, t, h) && 0 < h && |x.children| == |x.keys| + 1 && !LastRepeats(Flat(x))
    requires Leaves(r, x, LastEntry(x, t, h).key, t, h)
    ensures Removable(y, t, h - 1) && Leaves(c, y, LastEntry(y, t, h - 1).key, t, h - 1) && !LastRepeats(Flat(y))
    ensures LastDropped(c, Flat(y)) ==> LastDropped(r, Flat(x))
  {
    assert Look(0);
    NoneLast(x, t, h);
    var f, d := LastBelow(r, x, t, h);
    y, c := f.children[|f.keys|], d;
    LastPlaced(r, f, c);
  }

  lemma {:induction false} LastPos(ks: seq<Entry>)
    requires ks != [] && Sorted(ks)
    ensures var n, p := |ks| - 1, FindPos(ks, ks[|ks| - 1].key);
            p <= n && ks[p].key == ks[n].key && (LastRepeats(ks) ==> p < n) && (!LastRepeats(ks) ==> Without(ks, p) == ks[..n])
  {
    var n, p := |ks| - 1, FindPos(ks, ks[|ks| - 1].key);
    if p < n {
      assert ks[p].key <= ks[n - 1].key <= ks[n].key;
    } else {
      assert ks[..n] + ks[n + 1..] == ks[..n];
    }
  }

  lemma {:induction false} LastOfLeaf(r: seq<Entry>, x: Tree, t: nat)
    requires Removable(x, t, 0) && Leaves(r, x, LastEntry(x, t, 0).key, t, 0)
    ensures Flat(x) != [] && EndsWith(Flat(x), LastEntry(x, t, 0))
    ensures if LastRepeats(Flat(x)) then EndsWith(r, LastEntry(x, t, 0)) else LastDropped(r, Flat(x))
  {
    var n := |x.keys| - 1;
    AtLeaf(r, x, x.keys[n].key, t);
    LeafSorted(x, t);
    LastPos(x.keys);
  }

  lemma {:induction false} LeafSorted(x: Tree, t: nat)
    requires Removable(x, t, 0)
    ensures Flat(x) == x.keys && Sorted(x.keys)
  {
    assert Look(0);
  }

  /** Predecessor up, or successor up with more behind: the last entry is where it was. */
  lemma {:induction false} TailKept(r: seq<Entry>, x: Tree, i: nat, c: seq<Entry>, e: Entry)
    requires |x.children| == |x.keys| + 1 && i < |x.keys| && Flat(x.children[i + 1]) != []
    requires Middle(r, x, i, c + [e] + Flat(x.children[i + 1]))
    ensures Flat(x) != [] && EndsWith(r, Flat(x)[|Flat(x)| - 1])
  {
    assert Look(0);
    FlatAround(x, i);
    var tail := Flat(x.children[i + 1]) + After(x.keys[i + 1..], x.children[i + 2..]);
    assert Flat(x)[|Flat(x)| - 1] == tail[|tail| - 1];
    assert r[|r| - 1] == tail[|tail| - 1];
  }

  lemma {:induction false} TailKeptRight(r: seq<Entry>, x: Tree, i: nat, e: Entry, c: seq<Entry>)
    requires |x.children| == |x.keys| + 1 && i < |x.keys| && Flat(x.children[i + 1]) != []
    requires Middle(r, x, i, Flat(x.children[i]) + [e] + c)
    requires var y := Flat(x.children[i + 1]); After(x.keys[i + 1..], x.children[i + 2..]) == [] ==> EndsWith(c, y[|y| - 1])
    ensures Flat(x) != [] && EndsWith(r, Flat(x)[|Flat(x)| - 1])
  {
    assert Look(0);
    FlatAround(x, i);
    var a := After(x.keys[i + 1..], x.children[i + 2..]);
    if a != [] {
      assert Flat(x)[|Flat(x)| - 1] == a[|a| - 1];
    }
  }

  lemma {:induction false} TailKeptChild(r: seq<Entry>, f: Tree, i: nat, c: seq<Entry>)
    requires Replaced(r, f, i, c) && Flat(f.children[i]) != []
    requires var y := Flat(f.children[i]); After(f.keys[i..], f.children[i + 1..]) == [] ==> EndsWith(c, y[|y| - 1])
    ensures Flat(f) != [] && EndsWith(r, Flat(f)[|Flat(f)| - 1])
  {
    FlatAt(f, i);
    var a := After(f.keys[i..], f.children[i + 1..]);
    if a != [] {
      assert Flat(f)[|Flat(f)| - 1] == a[|a| - 1];
    }
  }

  lemma {:induction false} AtLeastKeys(x: Tree, t: nat, h: nat)
    requires Balanced(x, t, h)
    ensures |Flat(x)| >= |x.keys|
  {
    if h > 0 {
      AfterLonger(x.keys, x.children[1..]);
    }
  }

  lemma {:induction false} AfterLonger(ks: seq<Entry>, cs: seq<Tree>)
    requires |ks| == |cs|
    ensures |After(ks, cs)| >= |ks|
  {
    if cs != [] {
      AfterLonger(ks[1..], cs[1..]);
    }
  }

  /** When nothing comes behind child `i+1` and key `i` is the last key, every entry of that child has it. */
  lemma {:induction false} RightRepeats(x: Tree, i: nat, k: int)
    requires |x.children| == |x.keys| + 1 && i < |x.keys| && InOrder(x) && x.keys[i].key == k
    requires |Flat(x.children[i + 1])| >= 2 && Flat(x) != [] && Flat(x)[|Flat(x)| - 1].key == k
    requires After(x.keys[i + 1..], x.children[i + 2..]) == []
    ensures var y := Flat(x.children[i + 1]); LastRepeats(y) && y[0].key == k && y[|y| - 1] == Flat(x)[|Flat(x)| - 1]
  {
    assert Look(0);
    FlatAround(x, i);
    KeyBetween(x, i);
    var y := Flat(x.children[i + 1]);
    assert y[|y| - 1] == Flat(x)[|Flat(x)| - 1];
    ChildSorted(x, i + 1);
  }

  /** The same for the child that a merge makes. */
  lemma {:induction false} MergedRepeats(m: Tree, i: nat, l: seq<Entry>, e: Entry, g: seq<Entry>)
    requires |m.children| == |m.keys| + 1 && i < |m.children| && After(m.keys[i..], m.children[i + 1..]) == []
    requires InOrder(m) && Flat(m.children[i]) == l + [e] + g && g != [] && Flat(m) != []
    requires e.key == Flat(m)[|Flat(m)| - 1].key
    ensures LastRepeats(Flat(m.children[i])) && EndsWith(Flat(m.children[i]), Flat(m)[|Flat(m)| - 1])
  {
    assert Look(0);
    FlatAt(m, i);
    ChildSorted(m, i);
    var y := Flat(m.children[i]);
    assert y[|l|] == e && |l| <= |y| - 2 && y[|y| - 1] == Flat(m)[|Flat(m)| - 1];
  }

  /** A last entry whose key is there more than once stays. */
  lemma {:induction false} LastStays(r: seq<Entry>, x: Tree, t: nat, h: nat)
    requires Removable(x, t, h) && Leaves(r, x, LastEntry(x, t, h).key, t, h) && LastRepeats(Flat(x))
    ensures EndsWith(r, LastEntry(x, t, h))
    decreases h, 1
  {
    if h == 0 {
      LastOfLeaf(r, x, t);
    } else if FindPos(x.keys, LastEntry(x, t, h).key) == |x.keys| {
      var f, c := LastBelow(r, x, t, h);
      RepeatsBelow(f, LastEntry(x, t, h).key);
      LastStays(c, f.children[|f.keys|], t, h - 1);
      LastPlaced(r, f, c);
    } else {
      var i := FoundLast(x, t, h);
      LastStaysFound(r, x, i, t, h);
    }
  }

  lemma {:induction false} LastStaysFound(r: seq<Entry>, x: Tree, i: nat, t: nat, h: nat)
    requires Removable(x, t, h) && 0 < h && |x.children| == |x.keys| + 1 && i < |x.keys| && i == FindPos(x.keys, x.keys[i].key)
    requires Leaves(r, x, x.keys[i].key, t, h) && x.keys[i].key == LastEntry(x, t, h).key
    ensures EndsWith(r, LastEntry(x, t, h))
    decreases h, 0
  {
    if |x.children[i].keys| >= t {
      StaysLeft(r, x, i, t, h);
    } else if |x.children[i + 1].keys| >= t {
      var c := StaysRight(r, x, i, t, h);
      if After(x.keys[i + 1..], x.children[i + 2..]) == [] {
        LastStays(c, x.children[i + 1], t, h - 1);
      }
      StayedRight(r, x, i, c, t, h);
    } else {
      var m, c := StaysMerged(r, x, i, t, h);
      if After(m.keys[i..], m.children[i + 1..]) == [] {
        LastStays(c, m.children[i], t, h - 1);
      }
      StayedMerged(r, x, m, i, c, t, h);
    }
  }

  lemma {:induction false} FoundLast(x: Tree, t: nat, h: nat) returns (i: nat)
    requires Removable(x, t, h) && 0 < h && |x.children| == |x.keys| + 1
    requires FindPos(x.keys, LastEntry(x, t, h).key) < |x.keys|
    ensures i == FindPos(x.keys, LastEntry(x, t, h).key) < |x.keys| && x.keys[i].key == LastEntry(x, t, h).key
  {
    assert Look(0);
    i := FindPos(x.keys, LastEntry(x, t, h).key);
    NotEmpty(x, t, h);
    KeyInFlat(x, i);
  }

  lemma {:induction false} ChildNotEmpty(x: Tree, j: nat, t: nat, h: nat)
    requires 2 <= t && 0 < h && Balanced(x, t, h) && j < |x.children|
    ensures Flat(x.children[j]) != []
  {
    ChildBalanced(x, j, t, h);
    LastEntryFlat(x.children[j], t, h - 1);
  }

  lemma {:induction false} StaysLeft(r: seq<Entry>, x: Tree, i: nat, t: nat, h: nat)
    requires Removable(x, t, h) && 0 < h && i < |x.keys| && i == FindPos(x.keys, x.keys[i].key)
    requires Leaves(r, x, x.keys[i].key, t, h) && |x.children| == |x.keys| + 1 && |x.children[i].keys| >= t
    ensures EndsWith(r, LastEntry(x, t, h))
  {
    NotEmpty(x, t, h);
    ChildNotEmpty(x, i + 1, t, h);
    var c, e := Predecessor(r, x, i, t, h);
    TailKept(r, x, i, c, e);
  }

  lemma {:induction false} StaysRight(r: seq<Entry>, x: Tree, i: nat, t: nat, h: nat) returns (c: seq<Entry>)
    requires Removable(x, t, h) && 0 < h && i < |x.keys| && i == FindPos(x.keys, x.keys[i].key)
    requires Leaves(r, x, x.keys[i].key, t, h) && |x.children| == |x.keys| + 1
    requires |x.children[i].keys| < t <= |x.children[i + 1].keys| && x.keys[i].key == LastEntry(x, t, h).key
    ensures Flat(x.children[i + 1]) != [] && Removable(x.children[i + 1], t, h - 1)
    ensures Middle(r, x, i, Flat(x.children[i]) + [Flat(x.children[i + 1])[0]] + c)
    ensures After(x.keys[i + 1..], x.children[i + 2..]) == [] ==>
              var y := x.children[i + 1];
              && LastRepeats(Flat(y)) && LastEntry(y, t, h - 1) == LastEntry(x, t, h)
              && Leaves(c, y, LastEntry(y, t, h - 1).key, t, h - 1)
  {
    c := Successor(r, x, i, t, h);
    NotEmpty(x, t, h);
    NotEmpty(x.children[i + 1], t, h - 1);
    AtLeastKeys(x.children[i + 1], t, h - 1);
    if After(x.keys[i + 1..], x.children[i + 2..]) == [] {
      RightRepeats(x, i, x.keys[i].key);
    }
  }

  lemma {:induction false} StayedRight(r: seq<Entry>, x: Tree, i: nat, c: seq<Entry>, t: nat, h: nat)
    requires Removable(x, t, h) && 0 < h && i < |x.keys| && |x.children| == |x.keys| + 1
    requires Flat(x.children[i + 1]) != [] && Removable(x.children[i + 1], t, h - 1)
    requires Middle(r, x, i, Flat(x.children[i]) + [Flat(x.children[i + 1])[0]] + c)
    requires After(x.keys[i + 1..], x.children[i + 2..]) == [] ==> EndsWith(c, LastEntry(x.children[i + 1], t, h - 1))
    ensures EndsWith(r, LastEntry(x, t, h))
  {
    NotEmpty(x, t, h);
    NotEmpty(x.children[i + 1], t, h - 1);
    TailKeptRight(r, x, i, Flat(x.children[i + 1])[0], c);
  }

  lemma {:induction false} StaysMerged(r: seq<Entry>, x: Tree, i: nat, t: nat, h: nat) returns (m: Tree, c: seq<Entry>)
    requires Removable(x, t, h) && 0 < h && i < |x.keys| && i == FindPos(x.keys, x.keys[i].key)
    requires Leaves(r, x, x.keys[i].key, t, h) && |x.children| == |x.keys| + 1
    requires |x.children[i].keys| < t && |x.children[i + 1].keys| < t && x.keys[i].key == LastEntry(x, t, h).key
    ensures Flat(m) == Flat(x) && Replaced(r, m, i, c) && Removable(m.children[i], t, h - 1)
    ensures After(m.keys[i..], m.children[i + 1..]) == [] ==>
              var y := m.children[i];
              && LastRepeats(Flat(y)) && LastEntry(y, t, h - 1) == LastEntry(x, t, h)
              && Leaves(c, y, LastEntry(y, t, h - 1).key, t, h - 1)
  {
    m, c := Merging(r, x, i, t, h);
    MergedEnd(x, m, i, t, h);
  }

  lemma {:induction false} MergedEnd(x: Tree, m: Tree, i: nat, t: nat, h: nat)
    requires Removable(x, t, h) && 0 < h && i < |x.keys| && |x.children| == |x.keys| + 1 && Flat(m) == Flat(x)
    requires x.keys[i].key == LastEntry(x, t, h).key && Flat(x.children[i + 1]) != []
    requires |m.children| == |m.keys| + 1 && i < |m.children| && Removable(m.children[i], t, h - 1)
    requires Flat(m.children[i]) == Flat(x.children[i]) + [x.keys[i]] + Flat(x.children[i + 1])
    ensures After(m.keys[i..], m.children[i + 1..]) == [] ==>
              LastRepeats(Flat(m.children[i])) && LastEntry(m.children[i], t, h - 1) == LastEntry(x, t, h)
  {
    NotEmpty(x, t, h);
    NotEmpty(m.children[i], t, h - 1);
    if After(m.keys[i..], m.children[i + 1..]) == [] {
      MergedRepeats(m, i, Flat(x.children[i]), x.keys[i], Flat(x.children[i + 1]));
    }
  }

  lemma {:induction false} StayedMerged(r: seq<Entry>, x: Tree, m: Tree, i: nat, c: seq<Entry>, t: nat, h: nat)
    requires Removable(x, t, h) && 0 < h && Flat(m) == Flat(x) && Replaced(r, m, i, c) && Removable(m.children[i], t, h - 1)
    requires After(m.keys[i..], m.children[i + 1..]) == [] ==> EndsWith(c, LastEntry(m.children[i], t, h - 1))
    ensures EndsWith(r, LastEntry(x, t, h))
  {
    NotEmpty(x, t, h);
    NotEmpty(m.children[i], t, h - 1);
    TailKeptChild(r, m, i, c);
  }

  /** Removing the key of the last entry takes out that very entry if and only if the key is there once. */
  lemma {:induction false} LastTaken(r: seq<Entry>, x: Tree, t: nat, h: nat)
    requires Removable(x, t, h) && Leaves(r, x, LastEntry(x, t, h).key, t, h)
    ensures Flat(x) != []
    ensures !LastRepeats(Flat(x)) ==> r == Flat(x)[..|Flat(x)| - 1]
    ensures Different(Flat(x)) && r == Flat(x)[..|Flat(x)| - 1] ==> !LastRepeats(Flat(x))
  {
    NotEmpty(x, t, h);
    if LastRepeats(Flat(x)) {
      LastStays(r, x, t, h);
      if Different(Flat(x)) {
        NextTo(Flat(x), |Flat(x)| - 2);
      }
    } else {
      LastOnce(r, x, t, h);
      assert Look(0);
    }
  }

  // ---------------------------------------------------------------- when one entry is taken

  /**
   Removal takes out one entry and keeps all others. It always does at a leaf, and a step down or a merge only hands the
   question on; where a predecessor comes up, its key must be there once in the child it comes from, and where a successor
   does, removing it by its key must take out the first entry of that child.
   */
  ghost predicate OneTaken(x: Tree, k: int, t: nat, h: nat)
    decreases h
  {
    && Removable(x, t, h)
    && (h == 0 ||
        var i := FindPos(x.keys, k);
        if !Found(x, k) then OneTaken(Below(x, k, t, h), k, t, h - 1)
        else if |x.children[i].keys| >= t then !LastRepeats(Flat(x.children[i]))
        else if |x.children[i + 1].keys| >= t then TakesFirst(x.children[i + 1], t, h - 1)
        else OneTaken(Merge(x, i).children[i], k, t, h - 1))
  }

  lemma {:induction false} OneTakenBelow(x: Tree, y: Tree, k: int, t: nat, h: nat)
    requires Removable(x, t, h) && 0 < h && !Found(x, k) && GoesTo(y, x, k, t, h)
    ensures OneTaken(x, k, t, h) <==> OneTaken(y, k, t, h - 1)
  {
    assert Look(0);
  }

  lemma {:induction false} OneTakenFound(x: Tree, k: int, t: nat, h: nat)
    requires Removable(x, t, h) && 0 < h && |x.children| == |x.keys| + 1 && Found(x, k)
    ensures var i := FindPos(x.keys, k);
            OneTaken(x, k, t, h)
            <==> if |x.children[i].keys| >= t then !LastRepeats(Flat(x.children[i]))
                 else if |x.children[i + 1].keys| >= t then TakesFirst(x.children[i + 1], t, h - 1)
                 else OneTaken(Merge(x, i).children[i], k, t, h - 1)
  {}

  /** If the condition `b` holds one entry for `k` has gone; if entries differ, only then. */
  ghost predicate Exactly(b: bool, s: seq<Entry>, k: int, r: seq<Entry>) {
    forall i :: Look(i) ==> (b ==> OneGone(s, k, r)) && (Different(s) && OneGone(s, k, r) ==> b)
  }

  lemma {:induction false} LeafExactly(r: seq<Entry>, x: Tree, k: int, t: nat)
    requires Removable(x, t, 0) && Leaves(r, x, k, t, 0)
    ensures OneGone(Flat(x), k, r)
  {
    assert Look(0);
    AtLeaf(r, x, k, t);
    var i := FindPos(x.keys, k);
    if Found(x, k) {
      assert Has(x.keys, k);
    } else if i < |x.keys| {
      assert forall j :: i <= j < |x.keys| ==> x.keys[i].key <= x.keys[j].key;
    }
  }

  /** What happens to a child happens to the whole, if only that child may hold the key. */
  lemma {:induction false} PlacedExactly(b: bool, r: seq<Entry>, f: Tree, j: nat, k: int, c: seq<Entry>)
    requires Replaced(r, f, j, c) && (Has(Flat(f.children[j]), k) || !Has(Flat(f), k))
    requires |c| == |Flat(f.children[j])| - if Has(Flat(f.children[j]), k) then 1 else 0
    requires Exactly(b, Flat(f.children[j]), k, c)
    ensures Exactly(b, Flat(f), k, r)
  {
    FlatAt(f, j);
    var l, y, a := Before(f.keys[..j], f.children[..j]), Flat(f.children[j]), After(f.keys[j..], f.children[j + 1..]);
    assert Look(0);
    PartSuffices(l, y, a, k, c);
    if Different(Flat(f)) && OneGone(Flat(f), k, r) {
      DifferentPart(l, y, a);
      PartNeeded(l, y, a, k, c);
    }
  }

  lemma {:induction false} HasMiddle(l: seq<Entry>, e: Entry, g: seq<Entry>)
    ensures Has(l + [e] + g, e.key)
  {
    assert (l + [e] + g)[|l|] == e;
  }

  lemma {:induction false} PlacedAll(r: seq<Entry>, f: Tree, j: nat, k: int, c: seq<Entry>)
    requires Replaced(r, f, j, c) && (Has(Flat(f.children[j]), k) || !Has(Flat(f), k))
    requires |c| == |Flat(f.children[j])| - if Has(Flat(f.children[j]), k) then 1 else 0
    ensures forall b: bool :: Exactly(b, Flat(f.children[j]), k, c) ==> Exactly(b, Flat(f), k, r)
  {
    forall b: bool | Exactly(b, Flat(f.children[j]), k, c) ensures Exactly(b, Flat(f), k, r) {
      PlacedExactly(b, r, f, j, k, c);
    }
  }

  /** One entry has gone from `f`, and it is the last one exactly when its key is there once; folded. */
  ghost predicate LastOut(c: seq<Entry>, f: seq<Entry>) {
    forall q :: Look(q) ==>
      && f != [] && |c| == |f| - 1 && (!LastRepeats(f) ==> c == f[..|f| - 1])
      && (Different(f) && c == f[..|f| - 1] ==> !LastRepeats(f))
  }

  lemma {:induction false} LastGone(c: seq<Entry>, y: Tree, e: Entry, t: nat, h: nat)
    requires Removable(y, t, h) && EndsWith(Flat(y), e) && Leaves(c, y, e.key, t, h)
    ensures LastOut(c, Flat(y))
  {
    NotEmpty(y, t, h);
    HasFirst(Flat(y));
    LeavesShorter(c, y, e.key, t, h);
    LastTaken(c, y, t, h);
  }

  lemma {:induction false} FirstGone(c: seq<Entry>, y: Tree, t: nat, h: nat)
    requires Removable(y, t, h) && Flat(y) != [] && Leaves(c, y, Flat(y)[0].key, t, h)
    ensures |c| == |Flat(y)| - 1 && (TakesFirst(y, t, h) ==> c == Flat(y)[1..])
    ensures Different(Flat(y)) && c == Flat(y)[1..] ==> TakesFirst(y, t, h)
  {
    NotEmpty(y, t, h);
    HasFirst(Flat(y));
    LeavesShorter(c, y, Flat(y)[0].key, t, h);
    FirstTaken(c, y, t, h);
    assert Look(0);
  }

  /** A predecessor coming up takes out one entry if and only if its key is there once in the child it comes from. */
  lemma {:induction false} PredecessorExactly(r: seq<Entry>, x: Tree, i: nat, t: nat, h: nat)
    requires Removable(x, t, h) && 0 < h && i < |x.keys| && i == FindPos(x.keys, x.keys[i].key)
    requires Leaves(r, x, x.keys[i].key, t, h) && |x.children| == |x.keys| + 1 && |x.children[i].keys| >= t
    ensures Exactly(!LastRepeats(Flat(x.children[i])), Flat(x), x.keys[i].key, r)
  {
    var c, e := Predecessor(r, x, i, t, h);
    LastGone(c, x.children[i], e, t, h - 1);
    LastUpMiddle(r, x, i, c, e);
  }

  lemma {:induction false} LastUpMiddle(r: seq<Entry>, x: Tree, i: nat, c: seq<Entry>, e: Entry)
    requires i < |x.keys| && |x.children| == |x.keys| + 1
    requires var f := Flat(x.children[i]);
             EndsWith(f, e) && LastOut(c, f) && Middle(r, x, i, c + [e] + Flat(x.children[i + 1]))
    ensures Exactly(!LastRepeats(Flat(x.children[i])), Flat(x), x.keys[i].key, r)
  {
    assert Look(0);
    FlatAround(x, i);
    LastUpExactly(Flat(x), r, Before(x.keys[..i], x.children[..i]), Flat(x.children[i]), x.keys[i], Flat(x.children[i + 1]),
                  After(x.keys[i + 1..], x.children[i + 2..]), c);
  }

  lemma {:induction false} LastUpExactly(s: seq<Entry>, r: seq<Entry>, b: seq<Entry>, f: seq<Entry>, m: Entry, g: seq<Entry>,
                                         a: seq<Entry>, c: seq<Entry>)
    requires LastOut(c, f) && f != []
    requires s == b + (f + [m] + g) + a && r == b + (c + [f[|f| - 1]] + g) + a
    ensures Exactly(!LastRepeats(f), s, m.key, r)
  {
    assert Look(0);
    assert s == b + (f + [m]) + (g + a) && r == b + (c + [f[|f| - 1]]) + (g + a);
    LastReplaces(b, f, m, g + a);
    if Different(s) && OneGone(s, m.key, r) {
      LastUpOnly(s, r, b, f, m, g + a, c);
    }
  }

  lemma {:induction false} LastUpOnly(s: seq<Entry>, r: seq<Entry>, b: seq<Entry>, f: seq<Entry>, m: Entry, a: seq<Entry>,
                                       c: seq<Entry>)
    requires f != [] && |c| == |f| - 1 && s == b + (f + [m]) + a && r == b + (c + [f[|f| - 1]]) + a
    requires Different(s) && OneGone(s, m.key, r)
    ensures c == f[..|f| - 1] && Different(f)
  {
    assert s[|b| + |f|] == m;
    var i :| 0 <= i < |s| && s[i].key == m.key && r == Without(s, i);
    LastReplaced(b, f, m, a, c, i);
    assert s == b + f + ([m] + a);
    DifferentPart(b, f, [m] + a);
  }

  /** A successor coming up takes out one entry if and only if removing its key takes out the first entry of its child. */
  lemma {:induction false} SuccessorExactly(r: seq<Entry>, x: Tree, i: nat, t: nat, h: nat)
    requires Removable(x, t, h) && 0 < h && i < |x.keys| && i == FindPos(x.keys, x.keys[i].key)
    requires Leaves(r, x, x.keys[i].key, t, h) && |x.children| == |x.keys| + 1
    requires |x.children[i].keys| < t <= |x.children[i + 1].keys|
    ensures Exactly(TakesFirst(x.children[i + 1], t, h - 1), Flat(x), x.keys[i].key, r)
  {
    var c := Successor(r, x, i, t, h);
    FirstGone(c, x.children[i + 1], t, h - 1);
    FirstUpMiddle(TakesFirst(x.children[i + 1], t, h - 1), r, x, i, c);
  }

  lemma {:induction false} FirstUpMiddle(q: bool, r: seq<Entry>, x: Tree, i: nat, c: seq<Entry>)
    requires i < |x.keys| && |x.children| == |x.keys| + 1
    requires var f := Flat(x.children[i + 1]);
             && f != [] && |c| == |f| - 1 && (q ==> c == f[1..]) && (Different(f) && c == f[1..] ==> q)
             && Middle(r, x, i, Flat(x.children[i]) + [f[0]] + c)
    ensures Exactly(q, Flat(x), x.keys[i].key, r)
  {
    assert Look(0);
    FlatAround(x, i);
    FirstUpExactly(q, Flat(x), r, Before(x.keys[..i], x.children[..i]), Flat(x.children[i]), x.keys[i],
                   Flat(x.children[i + 1]), After(x.keys[i + 1..], x.children[i + 2..]), c);
  }

  lemma {:induction false} FirstUpExactly(q: bool, s: seq<Entry>, r: seq<Entry>, b: seq<Entry>, g: seq<Entry>, m: Entry,
                                          f: seq<Entry>, a: seq<Entry>, c: seq<Entry>)
    requires f != [] && |c| == |f| - 1 && (q ==> c == f[1..]) && (Different(f) && c == f[1..] ==> q)
    requires s == b + (g + [m] + f) + a && r == b + (g + [f[0]] + c) + a
    ensures Exactly(q, s, m.key, r)
  {
    assert s == (b + g) + ([m] + f) + a && r == (b + g) + ([f[0]] + c) + a;
    FirstReplaces(b + g, m, f, a);
    if Different(s) && OneGone(s, m.key, r) {
      FirstUpOnly(s, r, b + g, m, f, a, c);
    }
  }

  lemma {:induction false} FirstUpOnly(s: seq<Entry>, r: seq<Entry>, b: seq<Entry>, m: Entry, f: seq<Entry>, a: seq<Entry>,
                                        c: seq<Entry>)
    requires f != [] && |c| == |f| - 1 && s == b + ([m] + f) + a && r == b + ([f[0]] + c) + a
    requires Different(s) && OneGone(s, m.key, r)
    ensures c == f[1..] && Different(f)
  {
    assert s[|b|] == m;
    var i :| 0 <= i < |s| && s[i].key == m.key && r == Without(s, i);
    FirstReplaced(b, m, f, a, c, i);
    assert s == (b + [m]) + f + a;
    DifferentPart(b + [m], f, a);
  }

  lemma {:induction false} OnlyBelow(f: Tree, j: nat, k: int)
    requires |f.children| == |f.keys| + 1 && j < |f.children| && InOrder(f)
    requires (j > 0 ==> f.keys[j - 1].key < k) && (j < |f.keys| ==> k < f.keys[j].key)
    ensures Has(Flat(f.children[j]), k) || !Has(Flat(f), k)
  {
    assert Look(0);
    OnlyInChild(f, j, k);
  }

  /** Going down takes out one entry if and only if the call on the child does. */
  lemma {:induction false} BelowExactly(r: seq<Entry>, x: Tree, k: int, t: nat, h: nat) returns (y: Tree, c: seq<Entry>)
    requires Removable(x, t, h) && 0 < h && !Found(x, k) && Leaves(r, x, k, t, h)
    ensures GoesTo(y, x, k, t, h) && Removable(y, t, h - 1) && Leaves(c, y, k, t, h - 1)
    ensures forall b: bool :: Exactly(b, Flat(y), k, c) ==> Exactly(b, Flat(x), k, r)
  {
    var f, j, d := Down(r, x, k, t, h);
    y, c := f.children[j], d;
    OnlyBelow(f, j, k);
    LeavesShorter(c, y, k, t, h - 1);
    PlacedAll(r, f, j, k, c);
  }

  /** So does merging. */
  lemma {:induction false} MergeExactly(r: seq<Entry>, x: Tree, i: nat, t: nat, h: nat) returns (c: seq<Entry>)
    requires Removable(x, t, h) && 0 < h && i < |x.keys| && i == FindPos(x.keys, x.keys[i].key)
    requires Leaves(r, x, x.keys[i].key, t, h) && |x.children| == |x.keys| + 1
    requires |x.children[i].keys| < t && |x.children[i + 1].keys| < t
    ensures var y := Merge(x, i).children[i]; Removable(y, t, h - 1) && Leaves(c, y, x.keys[i].key, t, h - 1)
    ensures var y, k := Merge(x, i).children[i], x.keys[i].key;
            forall b: bool :: Exactly(b, Flat(y), k, c) ==> Exactly(b, Flat(x), k, r)
  {
    var m, d := Merging(r, x, i, t, h);
    c := d;
    var y, k := m.children[i], x.keys[i].key;
    HasMiddle(Flat(x.children[i]), x.keys[i], Flat(x.children[i + 1]));
    LeavesShorter(c, y, k, t, h - 1);
    PlacedAll(r, m, i, k, c);
  }

  lemma {:induction false} LeavesExactly(r: seq<Entry>, x: Tree, k: int, t: nat, h: nat)
    requires Removable(x, t, h) && Leaves(r, x, k, t, h)
    ensures Exactly(OneTaken(x, k, t, h), Flat(x), k, r)
    decreases h, 2
  {
    if h == 0 {
      LeafExactly(r, x, k, t);
    } else if !Found(x, k) {
      var y, c := BelowExactly(r, x, k, t, h);
      OneTakenBelow(x, y, k, t, h);
      LeavesExactly(c, y, k, t, h - 1);
    } else {
      FoundExactly(r, x, FindPos(x.keys, k), t, h);
    }
  }

  lemma {:induction false} FoundExactly(r: seq<Entry>, x: Tree, i: nat, t: nat, h: nat)
    requires Removable(x, t, h) && 0 < h && i < |x.keys| && i == FindPos(x.keys, x.keys[i].key)
    requires Leaves(r, x, x.keys[i].key, t, h) && |x.children| == |x.keys| + 1
    ensures Exactly(OneTaken(x, x.keys[i].key, t, h), Flat(x), x.keys[i].key, r)
    decreases h, 1
  {
    OneTakenFound(x, x.keys[i].key, t, h);
    if |x.children[i].keys| >= t {
      PredecessorExactly(r, x, i, t, h);
    } else if |x.children[i + 1].keys| >= t {
      SuccessorExactly(r, x, i, t, h);
    } else {
      FoundMerged(r, x, i, t, h);
    }
  }

  lemma {:induction false} FoundMerged(r: seq<Entry>, x: Tree, i: nat, t: nat, h: nat)
    requires Removable(x, t, h) && 0 < h && i < |x.keys| && i == FindPos(x.keys, x.keys[i].key)
    requires Leaves(r, x, x.keys[i].key, t, h) && |x.children| == |x.keys| + 1
    requires |x.children[i].keys| < t && |x.children[i + 1].keys| < t
    ensures Removable(Merge(x, i).children[i], t, h - 1)
    ensures Exactly(OneTaken(Merge(x, i).children[i], x.keys[i].key, t, h - 1), Flat(x), x.keys[i].key, r)
    decreases h, 0
  {
    var c := MergeExactly(r, x, i, t, h);
    LeavesExactly(c, Merge(x, i).children[i], x.keys[i].key, t, h - 1);
  }

  /** The condition is exact for trees whose entries differ, and enough for all. */
  lemma {:induction false} RemoveExactly(x: Tree, k: int, t: nat, h: nat)
    requires Removable(x, t, h)
    ensures OneTaken(x, k, t, h) ==> OneGone(Flat(x), k, Flat(Remove(x, k, t, h)))
    ensures Different(Flat(x)) ==> (OneGone(Flat(x), k, Flat(Remove(x, k, t, h))) <==> OneTaken(x, k, t, h))
  {
    LeavesExactly(Flat(Remove(x, k, t, h)), x, k, t, h);
    assert Look(0);
  }

  /** The same for whole trees. */
  ghost predicate TakesOne(x: Root, k: int, t: nat) {
    x.Root? ==> OneTaken(x.tree, k, t, x.height)
  }

  /** btree_remove takes out one entry and keeps all others exactly when the condition holds. */
  lemma {:induction false} RemoveTreeExactly(x: Root, k: int, t: nat)
    requires 2 <= t && ValidTree(x, t)
    ensures TakesOne(x, k, t) ==> OneGone(Contents(x), k, Contents(RemoveTree(x, k, t)))
    ensures Different(Contents(x)) ==> (OneGone(Contents(x), k, Contents(RemoveTree(x, k, t))) <==> TakesOne(x, k, t))
  {
    if x.Root? {
      RemoveExactly(x.tree, k, t, x.height);
      ShrunkContents(Remove(x.tree, k, t, x.height), t, x.height);
    }
  }

  lemma {:induction false} ShrunkContents(x: Tree, t: nat, h: nat)
    requires Balanced(x, t, h)
    ensures Contents(ShrunkRoot(x, h)) == Flat(x)
  {
    if |x.keys| == 0 && h > 0 {
      FlatKeyless(x);
    }
  }

  /** Without repeated keys it always holds. */
  lemma {:induction false} DistinctTaken(x: Root, k: int, t: nat)
    requires 2 <= t && ValidTree(x, t) && Distinct(Contents(x))
    ensures TakesOne(x, k, t)
  {
    RemoveTreeCorrect(x, k, t);
    RemoveTreeExactly(x, k, t);
    if Has(Contents(x), k) {
      var i := RemoveKeyPlace(Contents(x), k);
    } else {
      RemoveKeyAbsent(Contents(x), k);
    }
  }

  // ---------------------------------------------------------------- an input that loses an entry

  /** A leaf of a tree of minimum degree 2, with nothing left behind in it. */
  ghost function Leaf(a: seq<Entry>): Tree
    requires |a| <= 3
  {
    Node(a, [], Nulls(4 - |a|))
  }

  ghost function TwoLevels(a: seq<Entry>, e: Entry, b: seq<Entry>): Tree
    requires |a| <= 3 && |b| <= 3
  {
    Node([e], [Leaf(a), Leaf(b)], Nulls(3))
  }

  lemma {:induction false} TwoLevelsFlat(a: seq<Entry>, e: Entry, b: seq<Entry>)
    requires |a| <= 3 && |b| <= 3
    ensures Flat(TwoLevels(a, e, b)) == a + [e] + b
  {
    var x := TwoLevels(a, e, b);
    assert x.children[1..] == [Leaf(b)] && [e][1..] == [] && x.children[1..][1..] == [];
    assert After([e], [Leaf(b)]) == [e] + Flat(Leaf(b)) + After([], []);
  }

  /**
   Here removing key 2 keeps one entry for it twice and loses another, because the predecessor is looked up by key when it
   is removed below.
   */
  lemma {:induction false} RepeatedKeysLoseAnEntry()
    ensures var x := Root(TwoLevels([Entry(2, 7), Entry(2, 8)], Entry(2, 0), [Entry(3, 0)]), 1);
            && ValidTree(x, 2) && Contents(x) == [Entry(2, 7), Entry(2, 8), Entry(2, 0), Entry(3, 0)]
            && Contents(RemoveTree(x, 2, 2)) == [Entry(2, 8), Entry(2, 8), Entry(3, 0)]
            && !OneGone(Contents(x), 2, Contents(RemoveTree(x, 2, 2))) && !TakesOne(x, 2, 2)
  {
    var x, r := RepeatedExample();
    TwiceTheSame(Contents(x), 2, Contents(r));
    RemoveTreeExactly(x, 2, 2);
  }

  lemma {:induction false} RepeatedExample() returns (x: Root, r: Root)
    ensures x == Root(TwoLevels([Entry(2, 7), Entry(2, 8)], Entry(2, 0), [Entry(3, 0)]), 1) && ValidTree(x, 2)
    ensures r == RemoveTree(x, 2, 2) && Contents(x) == [Entry(2, 7), Entry(2, 8), Entry(2, 0), Entry(3, 0)]
    ensures Contents(r) == [Entry(2, 8), Entry(2, 8), Entry(3, 0)]
  {
    var a, b := [Entry(2, 7), Entry(2, 8)], [Entry(3, 0)];
    TwoLevelsValid(a, Entry(2, 0), b);
    TwoLevelsFlat([Entry(2, 8)], Entry(2, 8), b);
    RemoveRepeated(a, b);
    x := Root(TwoLevels(a, Entry(2, 0), b), 1);
    r := RemoveTree(x, 2, 2);
  }

  lemma {:induction false} TwoLevelsValid(a: seq<Entry>, e: Entry, b: seq<Entry>)
    requires 1 <= |a| <= 3 && 1 <= |b| <= 3 && Sorted(a + [e] + b)
    ensures ValidTree(Root(TwoLevels(a, e, b), 1), 2) && Balanced(TwoLevels(a, e, b), 2, 1)
    ensures Contents(Root(TwoLevels(a, e, b), 1)) == a + [e] + b
  {
    TwoLevelsFlat(a, e, b);
  }

  /** An entry that is there twice afterwards was there twice before, if one entry has gone. */
  lemma {:induction false} TwiceTheSame(s: seq<Entry>, k: int, r: seq<Entry>)
    requires Different(s) && |r| >= 2 && r[0] == r[1]
    ensures !OneGone(s, k, r)
  {
    if Has(s, k) {
      forall i | 0 <= i < |s| && |s| == |r| + 1 ensures r != Without(s, i) {
        WithoutAt(s, i, 0);
        WithoutAt(s, i, 1);
      }
    }
  }

  lemma {:induction false} RemoveRepeated(a: seq<Entry>, b: seq<Entry>)
    requires a == [Entry(2, 7), Entry(2, 8)] && b == [Entry(3, 0)]
    requires Balanced(TwoLevels(a, Entry(2, 0), b), 2, 1)
    ensures Remove(TwoLevels(a, Entry(2, 0), b), 2, 2, 1) == TwoLevels([Entry(2, 8)], Entry(2, 8), b)
  {
    var x := TwoLevels(a, Entry(2, 0), b);
    PredecessorStep(x, 0, 2, 1);
    assert LastEntry(Leaf(a), 2, 0) == Entry(2, 8);
    RemoveFirstOfLeaf(a);
    assert x.children[0 := Leaf([Entry(2, 8)])] == [Leaf([Entry(2, 8)]), Leaf(b)];
  }

  lemma {:induction false} RemoveFirstOfLeaf(a: seq<Entry>)
    requires a == [Entry(2, 7), Entry(2, 8)]
    ensures Remove(Leaf(a), 2, 2, 0) == Leaf([Entry(2, 8)])
  {
    assert a[..0] + a[1..] == [Entry(2, 8)] && [Null] + Nulls(2) == Nulls(3);
  }
}
