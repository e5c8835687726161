/** What the calls on a B-tree leave in the key slots past key_count (src/datastructure/btree.c). */
module BTreeLeft {
  import opened Wrappers
  import opened Folding
  import opened BTreeSpec
  import opened BTreeSlots

  // ---------------------------------------------------------------- every slot holds something once put in

  ghost predicate KeysIn(ks: seq<Entry>, g: set<Entry>) {
    forall i :: 0 <= i < |ks| ==> ks[i] in g
  }

  ghost predicate SlotsIn(s: seq<Slot>, g: set<Entry>) {
    forall i :: 0 <= i < |s| && s[i] != Null ==> s[i].entry in g
  }

  /** Nothing stands in any key slot, in use or not, but entries of `g`. */
  ghost predicate Within(x: Tree, g: set<Entry>) {
    && KeysIn(x.keys, g) && SlotsIn(x.spare, g)
    && forall i :: 0 <= i < |x.children| ==> Within(x.children[i], g)
  }

  lemma {:induction false} WithChildWithin(x: Tree, i: nat, c: Tree, g: set<Entry>)
    requires Within(x, g) && i < |x.children| && Within(c, g)
    ensures Within(WithChild(x, i, c), g)
  {}

  lemma {:induction false} HalvesWithin(y: Tree, t: nat, g: set<Entry>)
    requires 1 <= t && |y.keys| == 2 * t - 1 && (y.children == [] || |y.children| == 2 * t) && Within(y, g)
    ensures Within(LeftHalf(y, t), g) && Within(RightHalf(y, t), g) && y.keys[t - 1] in g
  {
    var r := RightHalf(y, t);
    assert forall j :: 0 <= j < |r.children| ==> r.children[j] == y.children[t + j];
  }

  lemma {:induction false} SplitWithin(x: Tree, i: nat, t: nat, g: set<Entry>)
    requires 1 <= t && i <= |x.keys| && |x.children| == |x.keys| + 1 && |x.children[i].keys| == 2 * t - 1
    requires x.children[i].children == [] || |x.children[i].children| == 2 * t
    requires Within(x, g)
    ensures Within(SplitChild(x, i, t), g)
  {
    var y, s := x.children[i], SplitChild(x, i, t);
    HalvesWithin(y, t, g);
    forall j | 0 <= j < |s.children| ensures Within(s.children[j], g) {
      assert s.children[j] == if j < i then x.children[j] else if j == i then LeftHalf(y, t)
                              else if j == i + 1 then RightHalf(y, t) else x.children[j - 1];
    }
  }

  lemma {:induction false} InsertNonFullWithin(x: Tree, e: Entry, t: nat, h: nat, g: set<Entry>)
    requires 2 <= t && Balanced(x, t, h) && |x.keys| < 2 * t - 1 && Within(x, g) && e in g
    ensures Within(InsertNonFull(x, e, t, h), g)
    decreases h
  {
    var i := InsertPos(x.keys, e.key);
    if h > 0 {
      if |x.children[i].keys| == 2 * t - 1 {
        InsertSplitStep(x, i, e, t, h);
        SplitWithin(x, i, t, g);
        InsertIntoWithin(SplitChild(x, i, t), if x.children[i].keys[t - 1].key < e.key then i + 1 else i, e, t, h, g);
      } else {
        ChildBalanced(x, i, t, h);
        InsertIntoWithin(x, i, e, t, h, g);
      }
    }
  }

  lemma {:induction false} InsertIntoWithin(x: Tree, i: nat, e: Entry, t: nat, h: nat, g: set<Entry>)
    requires 2 <= t && 0 < h && Balanced(x, t, h) && i < |x.children| && |x.children[i].keys| < 2 * t - 1
    requires Within(x, g) && e in g
    ensures Within(InsertInto(x, i, e, t, h), g)
    decreases h, 0
  {
    ChildBalanced(x, i, t, h);
    InsertNonFullWithin(x.children[i], e, t, h - 1, g);
    WithChildWithin(x, i, InsertNonFull(x.children[i], e, t, h - 1), g);
  }

  lemma {:induction false} InsertWithin(x: Tree, e: Entry, t: nat, h: nat, g: set<Entry>)
    requires 2 <= t && Balanced(x, t, h) && 1 <= |x.keys| && Within(x, g) && e in g
    ensures Within(Insert(x, e, t, h), g)
  {
    if |x.keys| == 2 * t - 1 {
      InsertFullWithin(x, e, t, h, g);
    } else {
      InsertNonFullWithin(x, e, t, h, g);
    }
  }

  lemma {:induction false} InsertFullWithin(x: Tree, e: Entry, t: nat, h: nat, g: set<Entry>)
    requires 2 <= t && Balanced(x, t, h) && |x.keys| == 2 * t - 1 && Within(x, g) && e in g
    ensures Within(Insert(x, e, t, h), g)
  {
    var s := FullInsert(x, e, t, h);
    SplitRootWithin(s, x, t, h, g);
    InsertNonFullWithin(s, e, t, h + 1, g);
  }

  lemma {:induction false} SplitRootWithin(s: Tree, x: Tree, t: nat, h: nat, g: set<Entry>)
    requires RootSplit(s, x, t, h) && Within(x, g)
    ensures Within(s, g)
  {
    assert Look(0);
    SplitWithin(Node([], [x], Nulls(2 * t)), 0, t, g);
  }

  lemma {:induction false} WriteWithin(x: Tree, k: int, v: int, t: nat, h: nat, g: set<Entry>)
    requires Balanced(x, t, h) && Within(x, g) && Entry(k, v) in g
    ensures Within(Write(x, k, v, t, h), g)
    decreases h
  {
    var i := FindPos(x.keys, k);
    if h > 0 && !(i < |x.keys| && x.keys[i].key == k) && !(i == |x.keys| && Keeps(x.spare, k)) {
      ChildBalanced(x, i, t, h);
      WriteWithin(x.children[i], k, v, t, h - 1, g);
      WithChildWithin(x, i, Write(x.children[i], k, v, t, h - 1), g);
    }
  }

  lemma {:induction false} LentWithin(x: Tree, g: set<Entry>)
    requires 1 <= |x.keys| && Arity(x) && Within(x, g)
    ensures Within(DropLast(x), g) && Within(DropFirst(x), g)
  {
    var r := DropFirst(x);
    assert forall j :: 0 <= j < |r.children| ==> r.children[j] == x.children[j + 1];
  }

  lemma {:induction false} TakenWithin(c: seq<Tree>, e: Entry, x: Tree, g: set<Entry>)
    requires e in g && Within(x, g) && forall j :: 0 <= j < |c| ==> Within(c[j], g)
    ensures Within(Prepend(c, e, x), g) && Within(Append(x, e, c), g)
  {}

  lemma {:induction false} JoinedWithin(l: Tree, k: Entry, r: Tree, g: set<Entry>)
    requires Within(l, g) && Within(r, g) && k in g
    ensures Within(Joined(l, k, r), g)
  {}

  lemma {:induction false} WithPairWithin(x: Tree, i: nat, l: Tree, k: Entry, r: Tree, g: set<Entry>)
    requires i < |x.keys| && |x.children| == |x.keys| + 1 && Within(x, g) && Within(l, g) && Within(r, g) && k in g
    ensures Within(WithPair(x, i, l, k, r), g)
  {}

  lemma {:induction false} MergeWithin(x: Tree, i: nat, g: set<Entry>)
    requires i < |x.keys| && |x.children| == |x.keys| + 1 && Within(x, g)
    ensures Within(Merge(x, i), g)
  {
    var s := Merge(x, i);
    JoinedWithin(x.children[i], x.keys[i], x.children[i + 1], g);
    forall j | 0 <= j < |s.children| ensures Within(s.children[j], g) {
      assert s.children[j] == if j < i then x.children[j]
                              else if j == i then Joined(x.children[i], x.keys[i], x.children[i + 1]) else x.children[j + 1];
    }
  }

  lemma {:induction false} FillWithin(x: Tree, i: nat, t: nat, g: set<Entry>)
    requires 2 <= t && Fillable(x, i, t) && Within(x, g)
    ensures Within(FillStep(x, i, t), g)
  {
    if i != 0 && |x.children[i - 1].keys| >= t {
      BorrowPrevWithin(x, i - 1, g);
    } else if i != |x.keys| && |x.children[i + 1].keys| >= t {
      BorrowNextWithin(x, i, g);
    } else {
      MergeWithin(x, if i != |x.keys| then i else i - 1, g);
    }
  }

  lemma {:induction false} BorrowPrevWithin(x: Tree, i: nat, g: set<Entry>)
    requires i < |x.keys| && |x.children| == |x.keys| + 1 && 1 <= |x.children[i].keys| && Arity(x.children[i]) && Within(x, g)
    ensures Within(BorrowPrev(x, i), g)
  {
    var l, r := x.children[i], x.children[i + 1];
    var c := if l.children == [] then [] else [l.children[|l.keys|]];
    LentWithin(l, g);
    TakenWithin(c, x.keys[i], r, g);
    WithPairWithin(x, i, DropLast(l), l.keys[|l.keys| - 1], Prepend(c, x.keys[i], r), g);
  }

  lemma {:induction false} BorrowNextWithin(x: Tree, i: nat, g: set<Entry>)
    requires i < |x.keys| && |x.children| == |x.keys| + 1 && 1 <= |x.children[i + 1].keys| && Arity(x.children[i + 1])
    requires Within(x, g)
    ensures Within(BorrowNext(x, i), g)
  {
    var l, r := x.children[i], x.children[i + 1];
    var c := if r.children == [] then [] else [r.children[0]];
    LentWithin(r, g);
    TakenWithin(c, x.keys[i], l, g);
    WithPairWithin(x, i, Append(l, x.keys[i], c), r.keys[0], DropFirst(r), g);
  }

  lemma {:induction false} EndsWithin(x: Tree, t: nat, h: nat, g: set<Entry>)
    requires 2 <= t && Balanced(x, t, h) && 1 <= |x.keys| && Within(x, g)
    ensures LastEntry(x, t, h) in g && FirstEntry(x, t, h) in g
    decreases h
  {
    if h > 0 {
      ChildBalanced(x, 0, t, h);
      ChildBalanced(x, |x.keys|, t, h);
      EndsWithin(x.children[0], t, h - 1, g);
      EndsWithin(x.children[|x.keys|], t, h - 1, g);
    }
  }

  /** `r` is what removing `k` below `x` leaves; folded. */
  ghost predicate Gone(r: Tree, x: Tree, k: int, t: nat, h: nat) {
    forall q :: Look(q) ==> 2 <= t && Balanced(x, t, h) && (0 < h ==> 1 <= |x.keys|) && r == Remove(x, k, t, h)
  }

  /** `e` is the last or the first entry of `y`; folded. */
  ghost predicate EndOf(e: Entry, y: Tree, t: nat, h: nat, last: bool) {
    forall q :: Look(q) ==>
      2 <= t && Balanced(y, t, h) && 1 <= |y.keys| && e == if last then LastEntry(y, t, h) else FirstEntry(y, t, h)
  }

  /** The node holds the key itself. */
  ghost predicate Here(x: Tree, k: int) {
    FindPos(x.keys, k) < |x.keys| && x.keys[FindPos(x.keys, k)].key == k
  }

  /** One step of a removal: `x` becomes `f`, and key `m` is to be removed from its child `j`. */
  ghost predicate StepTo(x: Tree, k: int, t: nat, h: nat, f: Tree, j: nat, m: int) {
    var i := FindPos(x.keys, k);
    && 0 < h && |x.children| == |x.keys| + 1
    && if Here(x, k) then
         if |x.children[i].keys| >= t then
           && j == i && i < |f.keys| && f == x.(keys := x.keys[i := f.keys[i]]) && m == f.keys[i].key
           && EndOf(f.keys[i], x.children[i], t, h - 1, true)
         else if |x.children[i + 1].keys| >= t then
           && j == i + 1 && i < |f.keys| && f == x.(keys := x.keys[i := f.keys[i]]) && m == f.keys[i].key
           && EndOf(f.keys[i], x.children[i + 1], t, h - 1, false)
         else
           j == i && f == Merge(x, i) && m == k
       else
         && m == k && j == (if i > |f.keys| then i - 1 else i)
         && if |x.children[i].keys| < t then 2 <= t && Fillable(x, i, t) && f == FillStep(x, i, t) else f == x
  }

  lemma {:induction false} Steps(r: Tree, x: Tree, k: int, t: nat, h: nat) returns (f: Tree, j: nat, m: int, c: Tree)
    requires Gone(r, x, k, t, h) && 0 < h
    ensures StepTo(x, k, t, h, f, j, m) && |f.children| == |f.keys| + 1 && j < |f.children|
    ensures Gone(c, f.children[j], m, t, h - 1) && r == WithChild(f, j, c)
  {
    assert Look(0);
    if Here(x, k) {
      f, j, m, c := StepsHere(x, k, t, h);
    } else {
      f, j, c := StepsBelow(x, k, t, h);
      m := k;
    }
  }

  lemma {:induction false} StepsHere(x: Tree, k: int, t: nat, h: nat) returns (f: Tree, j: nat, m: int, c: Tree)
    requires 2 <= t && 0 < h && Balanced(x, t, h) && Here(x, k)
    ensures StepTo(x, k, t, h, f, j, m) && |f.children| == |f.keys| + 1 && j < |f.children|
    ensures Gone(c, f.children[j], m, t, h - 1) && RemoveInner(x, FindPos(x.keys, k), t, h) == WithChild(f, j, c)
  {
    var i := FindPos(x.keys, k);
    InnerCases(x, i, t, h);
    if |x.children[i].keys| >= t {
      f, j, m, c := StepsLast(x, k, t, h);
    } else if |x.children[i + 1].keys| >= t {
      f, j, m, c := StepsFirst(x, k, t, h);
    } else {
      f, j, m := Merge(x, i), i, k;
      c := Remove(f.children[i], m, t, h - 1);
    }
  }

  /** The predecessor of the key comes up. */
  lemma {:induction false} StepsLast(x: Tree, k: int, t: nat, h: nat) returns (f: Tree, j: nat, m: int, c: Tree)
    requires 2 <= t && 0 < h && Balanced(x, t, h) && Here(x, k) && |x.children| == |x.keys| + 1
    requires |x.children[FindPos(x.keys, k)].keys| >= t
    ensures StepTo(x, k, t, h, f, j, m) && |f.children| == |f.keys| + 1 && j < |f.children|
    ensures Gone(c, f.children[j], m, t, h - 1) && RemoveInner(x, FindPos(x.keys, k), t, h) == WithChild(f, j, c)
  {
    var i := FindPos(x.keys, k);
    InnerCases(x, i, t, h);
    var e := LastEntry(x.children[i], t, h - 1);
    f, j, m := x.(keys := x.keys[i := e]), i, e.key;
    c := Remove(x.children[i], m, t, h - 1);
  }

  /** The successor of the key comes up. */
  lemma {:induction false} StepsFirst(x: Tree, k: int, t: nat, h: nat) returns (f: Tree, j: nat, m: int, c: Tree)
    requires 2 <= t && 0 < h && Balanced(x, t, h) && Here(x, k) && |x.children| == |x.keys| + 1
    requires |x.children[FindPos(x.keys, k)].keys| < t <= |x.children[FindPos(x.keys, k) + 1].keys|
    ensures StepTo(x, k, t, h, f, j, m) && |f.children| == |f.keys| + 1 && j < |f.children|
    ensures Gone(c, f.children[j], m, t, h - 1) && RemoveInner(x, FindPos(x.keys, k), t, h) == WithChild(f, j, c)
  {
    var i := FindPos(x.keys, k);
    InnerCases(x, i, t, h);
    var e := FirstEntry(x.children[i + 1], t, h - 1);
    f, j, m := x.(keys := x.keys[i := e]), i + 1, e.key;
    c := Remove(x.children[i + 1], m, t, h - 1);
  }

  lemma {:induction false} StepsBelow(x: Tree, k: int, t: nat, h: nat) returns (f: Tree, j: nat, c: Tree)
    requires 2 <= t && 0 < h && Balanced(x, t, h) && 1 <= |x.keys| && !Here(x, k)
    ensures StepTo(x, k, t, h, f, j, k) && |f.children| == |f.keys| + 1 && j < |f.children|
    ensures Gone(c, f.children[j], k, t, h - 1) && Remove(x, k, t, h) == WithChild(f, j, c)
  {
    DescendCases(x, k, t, h);
    if |x.children[FindPos(x.keys, k)].keys| < t {
      f, j, c := StepsFilled(x, k, t, h);
    } else {
      f, j := x, FindPos(x.keys, k);
      c := Remove(f.children[j], k, t, h - 1);
    }
  }

  lemma {:induction false} FilledStep(x: Tree, k: int, t: nat, h: nat, f: Tree, j: nat)
    requires 2 <= t && 0 < h && !Here(x, k) && |x.children| == |x.keys| + 1 && Fillable(x, FindPos(x.keys, k), t)
    requires var i := FindPos(x.keys, k); f == FillStep(x, i, t) && j == if i > |f.keys| then i - 1 else i
    ensures StepTo(x, k, t, h, f, j, k)
  {}

  lemma {:induction false} StepsFilled(x: Tree, k: int, t: nat, h: nat) returns (f: Tree, j: nat, c: Tree)
    requires 2 <= t && 0 < h && Balanced(x, t, h) && 1 <= |x.keys| && !Here(x, k) && |x.children| == |x.keys| + 1
    requires |x.children[FindPos(x.keys, k)].keys| < t
    ensures StepTo(x, k, t, h, f, j, k) && |f.children| == |f.keys| + 1 && j < |f.children|
    ensures Gone(c, f.children[j], k, t, h - 1) && Remove(x, k, t, h) == WithChild(f, j, c)
  {
    var i := FindPos(x.keys, k);
    DescendCases(x, k, t, h);
    f := FillStep(x, i, t);
    j := if i > |f.keys| then i - 1 else i;
    FilledStep(x, k, t, h, f, j);
    c := Remove(f.children[j], k, t, h - 1);
  }

  lemma {:induction false} EndWithin(e: Entry, y: Tree, t: nat, h: nat, last: bool, g: set<Entry>)
    requires EndOf(e, y, t, h, last) && Within(y, g)
    ensures e in g
  {
    assert Look(0);
    EndsWithin(y, t, h, g);
  }

  lemma {:induction false} StepWithin(x: Tree, k: int, t: nat, h: nat, f: Tree, j: nat, m: int, g: set<Entry>)
    requires StepTo(x, k, t, h, f, j, m) && Within(x, g)
    ensures Within(f, g)
  {
    var i := FindPos(x.keys, k);
    if Here(x, k) {
      if |x.children[i].keys| >= t || |x.children[i + 1].keys| >= t {
        EndWithin(f.keys[i], x.children[j], t, h - 1, |x.children[i].keys| >= t, g);
      } else {
        MergeWithin(x, i, g);
      }
    } else if |x.children[i].keys| < t {
      FillWithin(x, i, t, g);
    }
  }

  lemma {:induction false} RemoveWithin(r: Tree, x: Tree, k: int, t: nat, h: nat, g: set<Entry>)
    requires Gone(r, x, k, t, h) && Within(x, g)
    ensures Within(r, g)
    decreases h
  {
    if h == 0 {
      RemoveLeafWithin(r, x, k, t, g);
    } else {
      var f, j, m, c := Steps(r, x, k, t, h);
      StepWithin(x, k, t, h, f, j, m, g);
      RemoveWithin(c, f.children[j], m, t, h - 1, g);
      WithChildWithin(f, j, c, g);
    }
  }

  lemma {:induction false} RemoveLeafWithin(r: Tree, x: Tree, k: int, t: nat, g: set<Entry>)
    requires Gone(r, x, k, t, 0) && Within(x, g)
    ensures Within(r, g)
  {
    assert Look(0);
  }

  /** Whatever a search comes back with stands in some slot. */
  lemma {:induction false} FoundWithin(x: Tree, k: int, t: nat, h: nat, g: set<Entry>)
    requires Balanced(x, t, h) && Within(x, g)
    ensures match Stale(x, k) case None => true case Some(e) => e in g && e.key == k
    ensures match Search(x, k, t, h) case None => true case Some(e) => e in g && e.key == k
    decreases h
  {
    var i := FindPos(x.keys, k);
    if h > 0 && !(i < |x.keys| && x.keys[i].key == k) {
      ChildBalanced(x, i, t, h);
      FoundWithin(x.children[i], k, t, h - 1, g);
    }
  }

  // ---------------------------------------------------------------- what one removal leaves in a clean tree

  lemma {:induction false} KeysDistinct(x: Tree)
    requires |x.children| == |x.keys| + 1 && Distinct(Flat(x))
    ensures Distinct(x.keys)
  {
    forall i, j | 0 <= i < j < |x.keys| ensures x.keys[i].key != x.keys[j].key {
      FlatAt(x, j);
      BeforeHas(x.keys[..j], x.children[..j], i);
      var b := Before(x.keys[..j], x.children[..j]);
      var p :| 0 <= p < |b| && b[p] == x.keys[i];
      assert Flat(x)[p] == x.keys[i] && Flat(x)[|b| + |Flat(x.children[j])|] == x.keys[j];
    }
  }

  lemma {:induction false} DistinctKeys(x: Tree)
    requires Arity(x) && Distinct(Flat(x))
    ensures Distinct(x.keys)
  {
    if x.children != [] {
      KeysDistinct(x);
    }
  }

  lemma {:induction false} ChildDistinct(x: Tree, i: nat)
    requires |x.children| == |x.keys| + 1 && i < |x.children| && Distinct(Flat(x))
    ensures Distinct(Flat(x.children[i]))
  {
    FlatAt(x, i);
    DistinctPart(Before(x.keys[..i], x.children[..i]), Flat(x.children[i]), After(x.keys[i..], x.children[i + 1..]));
  }

  /** Nothing but perhaps the slot right behind the keys holds something, and that is no key of the node. */
  ghost predicate TidyNode(x: Tree) {
    && (forall i :: 1 <= i < |x.spare| ==> x.spare[i] == Null)
    && forall j :: 0 <= j < |x.keys| ==> !Keeps(x.spare, x.keys[j].key)
  }

  ghost predicate Tidy(x: Tree) {
    TidyNode(x) && forall i :: 0 <= i < |x.children| ==> Tidy(x.children[i])
  }

  lemma {:induction false} CleanTidy(x: Tree)
    requires Clean(x)
    ensures Tidy(x)
  {
    forall i | 0 <= i < |x.children| ensures Tidy(x.children[i]) {
      CleanTidy(x.children[i]);
    }
  }

  ghost predicate Ordered(x: Tree) {
    Sorted(Flat(x)) && Distinct(Flat(x))
  }

  /** The contents and the order stay, or the child and its contents do. */
  lemma {:induction false} StepOrdered(r: Tree, x: Tree, k: int, t: nat, h: nat, f: Tree, j: nat, m: int)
    requires Gone(r, x, k, t, h) && StepTo(x, k, t, h, f, j, m) && j < |f.children| == |f.keys| + 1 && Ordered(x)
    ensures Ordered(f.children[j])
  {
    var i := FindPos(x.keys, k);
    StepFlat(r, x, k, t, h, f, j, m);
    if Here(x, k) && (|x.children[i].keys| >= t || |x.children[i + 1].keys| >= t) {
      ChildSorted(x, j);
      ChildDistinct(x, j);
    } else {
      ChildSorted(f, j);
      ChildDistinct(f, j);
    }
  }

  lemma {:induction false} StepFlat(r: Tree, x: Tree, k: int, t: nat, h: nat, f: Tree, j: nat, m: int)
    requires Gone(r, x, k, t, h) && StepTo(x, k, t, h, f, j, m)
    ensures !Here(x, k) || (|x.children[j].keys| < t && |x.children[j + 1].keys| < t) ==> Flat(f) == Flat(x)
  {
    assert Look(0);
    var i := FindPos(x.keys, k);
    if Here(x, k) {
      SiblingsAlike(x, i, i + 1, t, h);
      SiblingsAlike(x, i + 1, i, t, h);
      if f == Merge(x, i) {
        MergeFlat(x, i);
      }
    } else if |x.children[i].keys| < t {
      FillFlat(x, i, t, h);
    }
  }

  lemma {:induction false} TidyAt(x: Tree, i: nat)
    requires i < |x.children|
    ensures Clean(x) ==> Clean(x.children[i]) && Tidy(x.children[i])
  {
    if Clean(x) {
      CleanTidy(x.children[i]);
    }
  }

  /** After one step the child that the removal goes on with is still clean, and all else is tidy. */
  ghost predicate Prepared(f: Tree, j: nat) {
    && TidyNode(f) && j < |f.children| && Clean(f.children[j])
    && forall q :: 0 <= q < |f.children| && q != j ==> Tidy(f.children[q])
  }

  lemma {:induction false} PreparedKeys(x: Tree, f: Tree, j: nat)
    requires Clean(x) && f == x.(keys := f.keys) && j < |x.children|
    ensures Prepared(f, j)
  {
    forall q | 0 <= q < |f.children| ensures Tidy(f.children[q]) {
      TidyAt(x, q);
    }
  }

  lemma {:induction false} PreparedMerge(x: Tree, i: nat)
    requires i < |x.keys| && |x.children| == |x.keys| + 1 && Clean(x) && Distinct(x.keys)
    ensures Prepared(Merge(x, i), i)
  {
    var s := Merge(x, i);
    forall q | 0 <= q < |s.children| && q != i ensures Tidy(s.children[q]) {
      TidyAt(x, if q < i then q else q + 1);
    }
    JoinedClean(x.children[i], x.keys[i], x.children[i + 1]);
    VacatedTidy(x, i, s);
  }

  lemma {:induction false} JoinedClean(l: Tree, k: Entry, r: Tree)
    requires Clean(l) && Clean(r)
    ensures Clean(Joined(l, k, r))
  {}

  lemma {:induction false} VacatedTidy(x: Tree, i: nat, s: Tree)
    requires i < |x.keys| && Blank(x.spare) && Distinct(x.keys) && s.keys == Without(x.keys, i) && s.spare == Vacated(x, i)
    ensures TidyNode(s)
  {
    forall q | 0 <= q < |s.keys| ensures s.keys[q].key != x.keys[i].key {
      assert s.keys[q] == x.keys[if q < i then q else q + 1];
    }
  }

  lemma {:induction false} LentTidy(l: Tree)
    requires 1 <= |l.keys| && Arity(l) && Clean(l) && Distinct(l.keys)
    ensures Tidy(DropLast(l)) && Clean(DropFirst(l))
  {
    var r, f := DropLast(l), DropFirst(l);
    forall q | 0 <= q < |r.children| ensures Tidy(r.children[q]) {
      TidyAt(l, q);
    }
    assert forall q :: 0 <= q < |f.children| ==> f.children[q] == l.children[q + 1];
  }

  lemma {:induction false} TakenClean(c: seq<Tree>, e: Entry, x: Tree)
    requires Clean(x) && forall j :: 0 <= j < |c| ==> Clean(c[j])
    ensures Clean(Prepend(c, e, x)) && Clean(Append(x, e, c))
  {}

  /** The neighbour that lends has at most the lent key left behind, and the child that takes is clean. */
  lemma {:induction false} PreparedPair(x: Tree, i: nat, l: Tree, k: Entry, r: Tree, j: nat)
    requires i < |x.keys| && |x.children| == |x.keys| + 1 && Clean(x) && i <= j <= i + 1
    requires Clean(if j == i then l else r) && Tidy(if j == i then r else l)
    ensures Prepared(WithPair(x, i, l, k, r), j)
  {
    var s := WithPair(x, i, l, k, r);
    forall q | 0 <= q < |s.children| && q != j ensures Tidy(s.children[q]) {
      TidyAt(x, q);
    }
  }

  lemma {:induction false} PreparedPrev(x: Tree, i: nat)
    requires i < |x.keys| && |x.children| == |x.keys| + 1 && 1 <= |x.children[i].keys| && Arity(x.children[i])
    requires Clean(x) && Distinct(Flat(x))
    ensures Prepared(BorrowPrev(x, i), i + 1)
  {
    var l, r := x.children[i], x.children[i + 1];
    var c := if l.children == [] then [] else [l.children[|l.keys|]];
    ChildDistinct(x, i);
    DistinctKeys(l);
    LentTidy(l);
    TakenClean(c, x.keys[i], r);
    PreparedPair(x, i, DropLast(l), l.keys[|l.keys| - 1], Prepend(c, x.keys[i], r), i + 1);
  }

  lemma {:induction false} PreparedNext(x: Tree, i: nat)
    requires i < |x.keys| && |x.children| == |x.keys| + 1 && 1 <= |x.children[i + 1].keys| && Arity(x.children[i + 1])
    requires Clean(x) && Distinct(Flat(x))
    ensures Prepared(BorrowNext(x, i), i)
  {
    var l, r := x.children[i], x.children[i + 1];
    var c := if r.children == [] then [] else [r.children[0]];
    ChildDistinct(x, i + 1);
    DistinctKeys(r);
    LentTidy(r);
    CleanTidy(DropFirst(r));
    TakenClean(c, x.keys[i], l);
    PreparedPair(x, i, Append(l, x.keys[i], c), r.keys[0], DropFirst(r), i);
  }

  lemma {:induction false} StepPrepared(x: Tree, k: int, t: nat, h: nat, f: Tree, j: nat, m: int)
    requires StepTo(x, k, t, h, f, j, m) && j < |f.children| && Clean(x) && Distinct(Flat(x))
    ensures Prepared(f, j)
  {
    var i := FindPos(x.keys, k);
    KeysDistinct(x);
    if Here(x, k) && |x.children[i].keys| < t && |x.children[i + 1].keys| < t {
      PreparedMerge(x, i);
    } else if !Here(x, k) && |x.children[i].keys| < t {
      FilledPrepared(x, i, t);
    } else {
      PreparedKeys(x, f, j);
    }
  }

  lemma {:induction false} FilledPrepared(x: Tree, i: nat, t: nat)
    requires 2 <= t && Fillable(x, i, t) && Clean(x) && Distinct(Flat(x)) && Distinct(x.keys)
    ensures var f := FillStep(x, i, t); Prepared(f, if i > |f.keys| then i - 1 else i)
  {
    if i != 0 && |x.children[i - 1].keys| >= t {
      PreparedPrev(x, i - 1);
    } else if i != |x.keys| && |x.children[i + 1].keys| >= t {
      PreparedNext(x, i);
    } else {
      PreparedMerge(x, if i != |x.keys| then i else i - 1);
    }
  }

  /** Nothing is left behind, and the entries are sorted by different keys; folded. */
  ghost predicate Ready(x: Tree) {
    forall q :: Look(q) ==> Clean(x) && Ordered(x)
  }

  /** Prepared, folded. */
  ghost predicate PreparedFor(f: Tree, j: nat) {
    forall q :: Look(q) ==> Prepared(f, j)
  }

  lemma {:induction false} StepReady(r: Tree, x: Tree, k: int, t: nat, h: nat, f: Tree, j: nat, m: int)
    requires Gone(r, x, k, t, h) && StepTo(x, k, t, h, f, j, m) && j < |f.children| == |f.keys| + 1 && Ready(x)
    ensures PreparedFor(f, j) && Ready(f.children[j])
  {
    assert Look(0);
    StepPrepared(x, k, t, h, f, j, m);
    StepOrdered(r, x, k, t, h, f, j, m);
  }

  /** One step of a removal, and what becomes of the child that it goes on with; folded. */
  ghost predicate OneStep(r: Tree, x: Tree, k: int, t: nat, h: nat, f: Tree, j: nat, m: int, c: Tree) {
    forall q :: Look(q) ==>
      && Gone(r, x, k, t, h) && StepTo(x, k, t, h, f, j, m) && j < |f.children| == |f.keys| + 1 && r == WithChild(f, j, c)
  }

  lemma {:induction false} ReadyStep(r: Tree, x: Tree, k: int, t: nat, h: nat) returns (f: Tree, j: nat, m: int, c: Tree)
    requires Gone(r, x, k, t, h) && Ready(x) && 0 < h
    ensures OneStep(r, x, k, t, h, f, j, m, c) && j < |f.children| && r == WithChild(f, j, c)
    ensures PreparedFor(f, j) && Ready(f.children[j]) && Gone(c, f.children[j], m, t, h - 1)
  {
    f, j, m, c := Steps(r, x, k, t, h);
    StepReady(r, x, k, t, h, f, j, m);
  }

  /**
   One removal from a tree of different keys in which nothing was left behind leaves, in every node, at most the slot right
   behind the keys filled, and never with a key that the node still has.
   */
  lemma {:induction false} RemoveTidy(r: Tree, x: Tree, k: int, t: nat, h: nat)
    requires Gone(r, x, k, t, h) && Ready(x)
    ensures Tidy(r)
    decreases h
  {
    if h == 0 {
      LeafTidy(r, x, k, t);
    } else {
      var f, j, m, c := ReadyStep(r, x, k, t, h);
      RemoveTidy(c, f.children[j], m, t, h - 1);
      PreparedTidy(f, j, c);
    }
  }

  lemma {:induction false} PreparedTidy(f: Tree, j: nat, c: Tree)
    requires PreparedFor(f, j) && Tidy(c)
    ensures j < |f.children| && Tidy(WithChild(f, j, c))
  {
    assert Look(0);
  }

  lemma {:induction false} LeafTidy(r: Tree, x: Tree, k: int, t: nat)
    requires Gone(r, x, k, t, 0) && Ready(x)
    ensures Tidy(r)
  {
    assert Look(0);
    if Here(x, k) {
      VacatedTidy(x, FindPos(x.keys, k), r);
    } else {
      CleanTidy(x);
    }
  }

  // ---------------------------------------------------------------- when the removed key itself is still found

  /**
   The key is removed and a search for it still finds it: it was the last key of its leaf, or of an inner node whose last two
   children are merged around it, or it goes down into a merged child and is still found there.
   */
  ghost predicate Lingers(x: Tree, k: int, t: nat, h: nat)
    decreases h
  {
    var i := FindPos(x.keys, k);
    if h == 0 then Here(x, k) && i + 1 == |x.keys|
    else if |x.children| != |x.keys| + 1 then false
    else if Here(x, k) then
      && |x.children[i].keys| < t && |x.children[i + 1].keys| < t
      && (i + 1 == |x.keys| || Lingers(Merge(x, i).children[i], k, t, h - 1))
    else
      var f := if 2 <= t && Fillable(x, i, t) then FillStep(x, i, t) else x;
      var j := if i > |f.keys| && i > 0 then i - 1 else i;
      j < |f.children| && Lingers(f.children[j], k, t, h - 1)
  }

  /** A node fenced off from `k` at child `j` sends the search there. */
  lemma {:induction false} SearchGoesOn(f: Tree, j: nat, k: int, c: Tree)
    requires |f.children| == |f.keys| + 1 && j < |f.children| && Sorted(f.keys) && !Keeps(f.spare, k)
    requires (j > 0 ==> f.keys[j - 1].key < k) && (j < |f.keys| ==> k < f.keys[j].key)
    ensures Stale(WithChild(f, j, c), k) == Stale(c, k)
  {
    assert FindPos(f.keys, k) == j;
  }

  lemma {:induction false} NotAmong(ks: seq<Entry>, k: int)
    requires Sorted(ks) && (FindPos(ks, k) < |ks| ==> ks[FindPos(ks, k)].key != k)
    ensures forall q :: 0 <= q < |ks| ==> ks[q].key != k
  {
    var i := FindPos(ks, k);
    assert forall q :: i <= q < |ks| ==> ks[q].key >= ks[i].key > k;
  }

  /** Where the node does not hold the key, it is found again exactly if it is in the child that the removal goes on with. */
  lemma {:induction false} LingersBelow(r: Tree, x: Tree, k: int, t: nat, h: nat, f: Tree, j: nat, c: Tree)
    requires Gone(r, x, k, t, h) && StepTo(x, k, t, h, f, j, k) && !Here(x, k) && Ready(x)
    requires j < |f.children| == |f.keys| + 1 && r == WithChild(f, j, c)
    ensures Stale(r, k) == Stale(c, k) && (Lingers(x, k, t, h) <==> Lingers(f.children[j], k, t, h - 1))
  {
    assert Look(0);
    LingersDown(x, k, t, h, f, j);
    StepFlat(r, x, k, t, h, f, j, k);
    KeysSorted(f);
    Fenced(x, k, t, h, f, j);
    SearchGoesOn(f, j, k, c);
  }

  lemma {:induction false} LingersDown(x: Tree, k: int, t: nat, h: nat, f: Tree, j: nat)
    requires StepTo(x, k, t, h, f, j, k) && !Here(x, k) && j < |f.children| == |f.keys| + 1
    ensures Lingers(x, k, t, h) <==> Lingers(f.children[j], k, t, h - 1)
  {
    if |x.children[FindPos(x.keys, k)].keys| >= t {
      NotFillable(x, FindPos(x.keys, k), t);
    }
  }

  lemma {:induction false} Fenced(x: Tree, k: int, t: nat, h: nat, f: Tree, j: nat)
    requires StepTo(x, k, t, h, f, j, k) && !Here(x, k) && Blank(x.spare) && Sorted(Flat(x)) && j <= |f.keys|
    ensures !Keeps(f.spare, k) && (j > 0 ==> f.keys[j - 1].key < k) && (j < |f.keys| ==> k < f.keys[j].key)
  {
    var i := FindPos(x.keys, k);
    KeysSorted(x);
    NotAmong(x.keys, k);
    if |x.children[i].keys| < t {
      FillFences(x, i, k, t);
      FilledKeeps(x, i, k, t);
    }
  }

  lemma {:induction false} NotFillable(x: Tree, i: nat, t: nat)
    requires |x.children| == |x.keys| + 1 && i <= |x.keys| && |x.children[i].keys| >= t
    ensures !Fillable(x, i, t)
  {}

  lemma {:induction false} FilledKeeps(x: Tree, i: nat, k: int, t: nat)
    requires 2 <= t && Fillable(x, i, t) && Blank(x.spare) && forall q :: 0 <= q < |x.keys| ==> x.keys[q].key != k
    ensures !Keeps(FillStep(x, i, t).spare, k)
  {}

  /** The neighbour that comes up is not the key, and its place is on the other side. */
  lemma {:induction false} LingersUp(r: Tree, x: Tree, k: int, t: nat, h: nat, f: Tree, j: nat, m: int, c: Tree)
    requires Gone(r, x, k, t, h) && StepTo(x, k, t, h, f, j, m) && Here(x, k) && Ready(x)
    requires var i := FindPos(x.keys, k); |x.children[i].keys| >= t || |x.children[i + 1].keys| >= t
    requires j < |f.children| == |f.keys| + 1 && r == WithChild(f, j, c)
    ensures Stale(r, k) == None
  {
    assert Look(0);
    var i := FindPos(x.keys, k);
    var last := |x.children[i].keys| >= t;
    NeighbourApart(x, i, f.keys[i], t, h, last);
    KeysSorted(x);
    KeysDistinct(x);
    var o := if last then i + 1 else i;
    AsideFrom(x.keys, i, f.keys);
    CleanHasNone(x.children[o], k);
  }

  lemma {:induction false} AsideFrom(ks: seq<Entry>, i: nat, us: seq<Entry>)
    requires Sorted(ks) && Distinct(ks) && i < |ks| == |us| && us == ks[i := us[i]] && us[i].key != ks[i].key
    ensures var p := FindPos(us, ks[i].key);
            p == (if us[i].key < ks[i].key then i + 1 else i) && (p < |us| ==> us[p].key != ks[i].key)
  {
    forall q | 0 <= q < |ks| && q != i ensures us[q].key != ks[i].key && (us[q].key < ks[i].key <==> q < i) {
      assert us[q] == ks[q];
    }
    var p := FindPos(us, ks[i].key);
    assert p < |us| ==> us[p].key >= ks[i].key;
    assert i + 1 < |us| ==> us[i + 1].key > ks[i].key;
  }

  lemma {:induction false} NeighbourApart(x: Tree, i: nat, e: Entry, t: nat, h: nat, last: bool)
    requires 0 < h && |x.children| == |x.keys| + 1 && i < |x.keys| && Ordered(x)
    requires EndOf(e, x.children[if last then i else i + 1], t, h - 1, last)
    ensures if last then e.key < x.keys[i].key else x.keys[i].key < e.key
  {
    assert Look(0);
    var y := x.children[if last then i else i + 1];
    LastEntryFlat(y, t, h - 1);
    FirstEntryFlat(y, t, h - 1);
    KeyBetween(x, i);
    FlatAround(x, i);
    ApartAround(Before(x.keys[..i], x.children[..i]), Flat(x.children[i]), x.keys[i], Flat(x.children[i + 1]),
                After(x.keys[i + 1..], x.children[i + 2..]));
  }

  lemma {:induction false} ApartAround(b: seq<Entry>, l: seq<Entry>, e: Entry, r: seq<Entry>, a: seq<Entry>)
    requires Distinct(b + (l + [e] + r) + a)
    ensures forall q :: 0 <= q < |l| ==> l[q].key != e.key
    ensures forall q :: 0 <= q < |r| ==> r[q].key != e.key
  {
    DistinctPart(b, l + [e] + r, a);
    var s := l + [e] + r;
    assert s[|l|] == e;
    forall q | 0 <= q < |l| ensures l[q].key != e.key {
      assert s[q] == l[q];
    }
    forall q | 0 <= q < |r| ensures r[q].key != e.key {
      assert s[|l| + 1 + q] == r[q];
    }
  }

  /** The key goes down into the merged child; if it was the last one, it stays in its slot as well. */
  lemma {:induction false} LingersMerged(r: Tree, x: Tree, i: nat, c: Tree)
    requires |x.children| == |x.keys| + 1 && i < |x.keys| && Blank(x.spare) && Sorted(x.keys) && Distinct(x.keys)
    requires r == WithChild(Merge(x, i), i, c)
    ensures Stale(r, x.keys[i].key) == if i + 1 == |x.keys| then Some(x.keys[i]) else Stale(c, x.keys[i].key)
  {
    RemovedKeyPlace(x.keys, i);
    assert r.keys == Without(x.keys, i);
    assert r.children[i] == c;
  }

  lemma {:induction false} LingersHere(r: Tree, x: Tree, k: int, t: nat, h: nat, f: Tree, j: nat, m: int, c: Tree)
    requires Gone(r, x, k, t, h) && StepTo(x, k, t, h, f, j, m) && Here(x, k) && Ready(x)
    requires j < |f.children| == |f.keys| + 1 && r == WithChild(f, j, c)
    requires Stale(c, m).Some? <==> Lingers(f.children[j], m, t, h - 1)
    ensures Stale(r, k).Some? <==> Lingers(x, k, t, h)
  {
    assert Look(0);
    var i := FindPos(x.keys, k);
    if |x.children[i].keys| >= t || |x.children[i + 1].keys| >= t {
      LingersUp(r, x, k, t, h, f, j, m, c);
    } else {
      KeysSorted(x);
      KeysDistinct(x);
      LingersMerged(r, x, i, c);
    }
  }

  /** The condition is exact. */
  lemma {:induction false} LingersExactly(r: Tree, x: Tree, k: int, t: nat, h: nat)
    requires Gone(r, x, k, t, h) && Ready(x)
    ensures Stale(r, k).Some? <==> Lingers(x, k, t, h)
    decreases h
  {
    if h == 0 {
      LingersLeaf(r, x, k, t);
    } else {
      var f, j, m, c := ReadyStep(r, x, k, t, h);
      LingersExactly(c, f.children[j], m, t, h - 1);
      LingersStep(r, x, k, t, h, f, j, m, c);
    }
  }

  lemma {:induction false} LingersStep(r: Tree, x: Tree, k: int, t: nat, h: nat, f: Tree, j: nat, m: int, c: Tree)
    requires OneStep(r, x, k, t, h, f, j, m, c) && Ready(x) && j < |f.children| && 0 < h
    requires Stale(c, m).Some? <==> Lingers(f.children[j], m, t, h - 1)
    ensures Stale(r, k).Some? <==> Lingers(x, k, t, h)
  {
    assert Look(0);
    if Here(x, k) {
      LingersHere(r, x, k, t, h, f, j, m, c);
    } else {
      LingersBelow(r, x, k, t, h, f, j, c);
    }
  }

  lemma {:induction false} LingersLeaf(r: Tree, x: Tree, k: int, t: nat)
    requires Gone(r, x, k, t, 0) && Ready(x)
    ensures Stale(r, k).Some? <==> Lingers(x, k, t, 0)
  {
    assert Look(0);
    if Here(x, k) {
      LeafKeeps(x, k, t);
      assert Has(x.keys, k);
      assert x.keys[|x.keys| - 1].key == k <==> FindPos(x.keys, k) + 1 == |x.keys|;
    } else {
      CleanHasNone(x, k);
    }
  }

  // ---------------------------------------------------------------- whole trees

  /** The same for whole trees. */
  lemma {:induction false} RemoveTreeTidy(x: Root, k: int, t: nat)
    requires 2 <= t && ValidTree(x, t) && CleanTree(x) && Distinct(Contents(x))
    ensures var r := RemoveTree(x, k, t); r.Root? ==> Tidy(r.tree)
  {
    if x.Root? {
      RemoveTidy(Remove(x.tree, k, t, x.height), x.tree, k, t, x.height);
    }
  }

  ghost predicate WithinTree(x: Root, g: set<Entry>) {
    x.Root? ==> Within(x.tree, g)
  }

  lemma {:induction false} InsertTreeWithin(x: Root, e: Entry, t: nat, g: set<Entry>)
    requires 2 <= t && ValidTree(x, t) && WithinTree(x, g) && e in g
    ensures WithinTree(InsertTree(x, e, t), g)
  {
    if x.Root? {
      InsertWithin(x.tree, e, t, x.height, g);
    }
  }

  lemma {:induction false} WriteTreeWithin(x: Root, k: int, v: int, t: nat, g: set<Entry>)
    requires ValidTree(x, t) && WithinTree(x, g) && Entry(k, v) in g
    ensures WithinTree(WriteTree(x, k, v, t), g)
  {
    if x.Root? {
      WriteWithin(x.tree, k, v, t, x.height, g);
    }
  }

  lemma {:induction false} RemoveTreeWithin(x: Root, k: int, t: nat, g: set<Entry>)
    requires 2 <= t && ValidTree(x, t) && WithinTree(x, g)
    ensures WithinTree(RemoveTree(x, k, t), g)
  {
    if x.Root? {
      RemoveWithin(Remove(x.tree, k, t, x.height), x.tree, k, t, x.height, g);
    }
  }

  /** The same for whole trees: where the root has a single key and is merged away, its slots go with it. */
  ghost predicate LingersTree(x: Root, k: int, t: nat) {
    x.Root? &&
    if |x.tree.keys| == 1 && x.height == 0 then false
    else if |x.tree.keys| == 1 == |x.tree.children| - 1 && Here(x.tree, k) then
      && |x.tree.children[0].keys| < t && |x.tree.children[1].keys| < t
      && Lingers(Merge(x.tree, 0).children[0], k, t, x.height - 1)
    else Lingers(x.tree, k, t, x.height)
  }

  /** A key just removed from a clean tree is still found if and only if it lingers. */
  lemma {:induction false} RemovedLingers(x: Root, k: int, t: nat)
    requires 2 <= t && ValidTree(x, t) && CleanTree(x) && Distinct(Contents(x))
    ensures StaleTree(RemoveTree(x, k, t), k).Some? <==> LingersTree(x, k, t)
  {
    if x.Root? {
      NodeLingers(Remove(x.tree, k, t, x.height), x.tree, k, t, x.height);
    }
  }

  lemma {:induction false} NodeLingers(r: Tree, x: Tree, k: int, t: nat, h: nat)
    requires Gone(r, x, k, t, h) && 1 <= |x.keys| && Ready(x)
    ensures r.keys != [] || h == 0 || |r.children| == 1
    ensures (if r.keys != [] then Stale(r, k).Some? else h > 0 && Stale(r.children[0], k).Some?)
            <==> LingersTree(Root(x, h), k, t)
  {
    if r.keys == [] {
      KeyGone(r, x, k, t, h);
      RootLingers(r, x, k, t, h);
    } else {
      LingersExactly(r, x, k, t, h);
      RootStaysHere(r, x, k, t, h);
    }
  }

  lemma {:induction false} KeyGone(r: Tree, x: Tree, k: int, t: nat, h: nat)
    requires Gone(r, x, k, t, h) && 1 <= |x.keys| && r.keys == []
    ensures |x.keys| == 1
  {
    assert Look(0);
  }

  lemma {:induction false} RootStaysHere(r: Tree, x: Tree, k: int, t: nat, h: nat)
    requires Gone(r, x, k, t, h) && 1 <= |x.keys| && r.keys != []
    ensures Lingers(x, k, t, h) <==> LingersTree(Root(x, h), k, t)
  {
    if |x.keys| == 1 && h == 0 {
      assert Look(0);
    } else if |x.keys| == 1 && Here(x, k) {
      var f, j, m, c := Steps(r, x, k, t, h);
    }
  }

  /** A root that loses its only key gives way to the child that the removal went on with. */
  lemma {:induction false} RootLingers(r: Tree, x: Tree, k: int, t: nat, h: nat)
    requires Gone(r, x, k, t, h) && |x.keys| == 1 && r.keys == [] && Ready(x)
    ensures h > 0 ==> |r.children| == 1
    ensures h > 0 && Stale(r.children[0], k).Some? <==> LingersTree(Root(x, h), k, t)
  {
    if h > 0 {
      var f, j, c := OnlyChild(r, x, k, t, h);
      if !Here(x, k) {
        LingersDown(x, k, t, h, f, j);
      }
    }
  }

  lemma {:induction false} OnlyChild(r: Tree, x: Tree, k: int, t: nat, h: nat) returns (f: Tree, j: nat, c: Tree)
    requires Gone(r, x, k, t, h) && |x.keys| == 1 && r.keys == [] && Ready(x) && 0 < h
    ensures StepTo(x, k, t, h, f, j, k) && |f.children| == |f.keys| + 1 && j == 0 && r == WithChild(f, 0, c)
    ensures Here(x, k) ==> f == Merge(x, 0)
    ensures Stale(c, k).Some? <==> Lingers(f.children[0], k, t, h - 1)
  {
    var m;
    f, j, m, c := ReadyStep(r, x, k, t, h);
    LingersExactly(c, f.children[j], m, t, h - 1);
    OnlyStep(r, x, k, t, h, f, j, m, c);
  }

  lemma {:induction false} OnlyStep(r: Tree, x: Tree, k: int, t: nat, h: nat, f: Tree, j: nat, m: int, c: Tree)
    requires OneStep(r, x, k, t, h, f, j, m, c) && |x.keys| == 1 && r.keys == [] && 0 < h
    ensures StepTo(x, k, t, h, f, j, k) && |f.children| == |f.keys| + 1 && j == 0 && r == WithChild(f, 0, c)
    ensures m == k && (Here(x, k) ==> f == Merge(x, 0))
  {
    assert Look(0);
  }

  lemma {:induction false} CleanWithin(x: Tree, t: nat, h: nat, g: set<Entry>)
    requires Balanced(x, t, h) && Clean(x) && forall e :: e in Flat(x) ==> e in g
    ensures Within(x, g)
    decreases h
  {
    if h > 0 {
      forall i | 0 <= i < |x.keys| ensures x.keys[i] in g {
        KeyInFlat(x, i);
      }
      forall i | 0 <= i < |x.children| ensures Within(x.children[i], g) {
        ChildBalanced(x, i, t, h);
        ChildEntries(x, i);
        CleanWithin(x.children[i], t, h - 1, g);
      }
    }
  }

  /** What a search for another key meets is an entry that was in use when the key was removed. */
  lemma {:induction false} RemovedOthers(x: Root, k: int, j: int, t: nat)
    requires 2 <= t && ValidTree(x, t) && CleanTree(x)
    ensures match StaleTree(RemoveTree(x, k, t), j) case None => true case Some(e) => e in Contents(x) && e.key == j
  {
    if x.Root? {
      var g := set e | e in Contents(x);
      CleanWithin(x.tree, t, x.height, g);
      RemoveTreeWithin(x, k, t, g);
      RemoveTreeCorrect(x, k, t);
      FoundInTree(RemoveTree(x, k, t), j, t, g);
    }
  }

  lemma {:induction false} FoundInTree(x: Root, k: int, t: nat, g: set<Entry>)
    requires ValidTree(x, t) && WithinTree(x, g)
    ensures match StaleTree(x, k) case None => true case Some(e) => e in g && e.key == k
    ensures match LookupTree(x, k, t) case None => true case Some(v) => Entry(k, v) in g
  {
    if x.Root? {
      FoundWithin(x.tree, k, t, x.height, g);
    }
  }
}
