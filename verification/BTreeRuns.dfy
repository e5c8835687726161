/** Runs of calls on a B-tree against a finite map (src/datastructure/btree.c). */
module BTreeRuns {
  import opened Wrappers
  import opened Folding
  import opened BTreeSpec
  import opened BTreeSlots
  import opened BTreeLeft
  import opened BTree

  datatype Call = Insert(e: Entry) | Update(key: int, val: int) | Remove(key: int) | Lookup(key: int)

  datatype Reply = Done | Told(ok: bool) | Found(value: Option<int>)

  /** What a call does to a map, and what the map answers. */
  ghost function MapStep(m: map<int, int>, c: Call): map<int, int> {
    match c
    case Insert(e) => m[e.key := e.val]
    case Update(k, v) => if k in m then m[k := v] else m
    case Remove(k) => m - {k}
    case Lookup(_) => m
  }

  ghost function MapReply(m: map<int, int>, c: Call): Reply {
    match c
    case Insert(_) => Done
    case Update(k, _) => Told(k in m)
    case Remove(_) => Done
    case Lookup(k) => Found(if k in m then Some(m[k]) else None)
  }

  ghost function MapAfter(m: map<int, int>, calls: seq<Call>): map<int, int> {
    if calls == [] then m else MapStep(MapAfter(m, calls[..|calls| - 1]), calls[|calls| - 1])
  }

  ghost function MapReplies(m: map<int, int>, calls: seq<Call>): seq<Reply> {
    if calls == [] then [] else
      var n := |calls| - 1;
      MapReplies(m, calls[..n]) + [MapReply(MapAfter(m, calls[..n]), calls[n])]
  }

  /** No insertion meets a key that is already there. */
  ghost predicate FreshKey(m: map<int, int>, c: Call) {
    c.Insert? ==> c.e.key !in m
  }

  ghost predicate FreshKeys(m: map<int, int>, calls: seq<Call>) {
    calls == [] || (FreshKeys(m, calls[..|calls| - 1]) && FreshKey(MapAfter(m, calls[..|calls| - 1]), calls[|calls| - 1]))
  }

  predicate Searches(c: Call) {
    c.Update? || c.Lookup?
  }

  /** Nothing is looked up or updated after something was removed. */
  predicate ReadsFirst(calls: seq<Call>) {
    forall i, j :: 0 <= i < j < |calls| && calls[i].Remove? ==> !Searches(calls[j])
  }

  /** The search of this call meets an entry in a slot that is no longer in use. */
  ghost predicate MeetsLeftover(b: BTreeHead, c: Call)
    reads b, b.root
  {
    Searches(c) && b.Leftover(c.key).Some?
  }

  /** The tree and its reply are what the map and its reply are. */
  ghost predicate Agree(x: Root, reply: Reply, m: map<int, int>, c: Call, t: nat) {
    Represents(x, MapStep(m, c), t) && reply == MapReply(m, c)
  }

  /** A call on a tree that represents a map. */
  ghost predicate Started(x: Root, m: map<int, int>, c: Call, t: nat) {
    Represents(x, m, t) && FreshKey(m, c)
  }

  lemma {:induction false} SameTree(x: Root, m: map<int, int>, n: map<int, int>, t: nat)
    requires Represents(x, m, t)
    ensures Represents(x, n, t) <==> m == n
  {
    if Represents(x, n, t) {
      var s := Contents(x);
      forall k ensures k in m <==> k in n {
        if k in m {
          var i :| 0 <= i < |s| && s[i].key == k;
        }
        if k in n {
          var i :| 0 <= i < |s| && s[i].key == k;
        }
      }
      forall k | k in m ensures m[k] == n[k] {
        var i :| 0 <= i < |s| && s[i].key == k;
      }
    }
  }

  /** From a tree that represents the map, the call has done and said what the map does exactly if `b`; folded. */
  ghost predicate AsMap(x: Root, y: Root, r: Reply, m: map<int, int>, c: Call, t: nat, b: bool) {
    forall i :: Look(i) ==> Started(x, m, c, t) ==> (Agree(y, r, m, c, t) <==> b)
  }

  method PerformInsert(b: BTreeHead, e: Entry, ghost m: map<int, int>) returns (r: Reply)
    requires b.Valid()
    modifies b.Repr()
    ensures b.Valid() && fresh(b.Repr() - old(b.Repr())) && (old(b.Clean()) ==> b.Clean())
    ensures AsMap(old(b.Model()), b.Model(), r, m, Insert(e), b.minDegree, true)
  {
    if b.Clean() {
      InsertTreeClean(b.Model(), e, b.minDegree);
    }
    if Started(b.Model(), m, Insert(e), b.minDegree) {
      InsertAgrees(b.Model(), m, e, b.minDegree);
    }
    b.Insert(e.key, e.val);
    r := Done;
  }

  method PerformRemove(b: BTreeHead, k: int, ghost m: map<int, int>) returns (r: Reply)
    requires b.Valid()
    modifies b.Repr()
    ensures b.Valid() && fresh(b.Repr() - old(b.Repr()))
    ensures AsMap(old(b.Model()), b.Model(), r, m, Remove(k), b.minDegree, true)
  {
    if Started(b.Model(), m, Remove(k), b.minDegree) {
      RemoveAgrees(b.Model(), m, k, b.minDegree);
    }
    b.Remove(k);
    r := Done;
  }

  method PerformLookup(b: BTreeHead, k: int, ghost m: map<int, int>) returns (r: Reply)
    requires b.Valid()
    ensures AsMap(b.Model(), b.Model(), r, m, Lookup(k), b.minDegree,
                  b.Leftover(k) == None || (k in m && m[k] == b.Leftover(k).value.val))
  {
    if Represents(b.Model(), m, b.minDegree) {
      LookupAgrees(b.Model(), m, k, b.minDegree);
    }
    var v := b.Lookup(k);
    r := Found(v);
  }

  method PerformUpdate(b: BTreeHead, k: int, v: int, ghost m: map<int, int>) returns (r: Reply)
    requires b.Valid()
    modifies b.Repr()
    ensures b.Valid() && (old(b.Clean()) ==> b.Clean()) && b.Repr() == old(b.Repr())
    ensures AsMap(old(b.Model()), b.Model(), r, m, Update(k, v), b.minDegree,
                  old(b.Leftover(k)) == None || (k in m && m[k] == v))
  {
    if Represents(b.Model(), m, b.minDegree) {
      Updated(b.Model(), m, k, v, b.minDegree);
    }
    WriteTreeMeans(b.Model(), k, v, b.minDegree);
    var ok := b.Update(k, v);
    r := Told(ok);
  }

  /** What an update does to a tree that represents a map, and what it answers. */
  lemma {:induction false} Updated(x: Root, m: map<int, int>, k: int, v: int, t: nat)
    requires Represents(x, m, t)
    ensures LookupTree(x, k, t).Some? <==> k in m
    ensures Represents(WriteTree(x, k, v, t), if k in m then m[k := v] else m, t)
            && (StaleTree(x, k).Some? || LookupTree(x, k, t).Some? <==> k in m)
            <==> StaleTree(x, k) == None || (k in m && m[k] == v)
  {
    WriteTreeMeans(x, k, v, t);
    LookupAgrees(x, m, k, t);
    if StaleTree(x, k) == None {
      UpdateAgrees(x, m, k, v, t);
    } else {
      SameTree(WriteTree(x, k, v, t), m, if k in m then m[k := v] else m, t);
      assert k in m ==> (m[k := v] == m <==> m[k] == v);
    }
  }

  /**
   One call. As long as its search meets no leftover it does to the tree what it does to the map, and replies the same. A
   lookup that meets one is right exactly when the leftover says what the map says; an update that meets one, exactly when
   the map already has the new value.
   */
  method Perform(b: BTreeHead, c: Call, ghost m: map<int, int>) returns (r: Reply)
    requires b.Valid()
    modifies b.Repr()
    ensures b.Valid() && fresh(b.Repr() - old(b.Repr())) && (!c.Remove? && old(b.Clean()) ==> b.Clean())
    ensures old(b.Clean()) ==> !old(MeetsLeftover(b, c))
    ensures Started(old(b.Model()), m, c, b.minDegree) ==>
              (Agree(b.Model(), r, m, c, b.minDegree)
               <==> !old(MeetsLeftover(b, c))
                    || (c.key in m && m[c.key] == if c.Update? then c.val else old(b.Leftover(c.key)).value.val))
  {
    r := PerformCall(b, c, m);
    assert Look(0);
  }

  method PerformCall(b: BTreeHead, c: Call, ghost m: map<int, int>) returns (r: Reply)
    requires b.Valid()
    modifies b.Repr()
    ensures b.Valid() && fresh(b.Repr() - old(b.Repr())) && (!c.Remove? && old(b.Clean()) ==> b.Clean())
    ensures old(b.Clean()) ==> !old(MeetsLeftover(b, c))
    ensures AsMap(old(b.Model()), b.Model(), r, m, c, b.minDegree,
                  !old(MeetsLeftover(b, c))
                  || (c.key in m && m[c.key] == if c.Update? then c.val else old(b.Leftover(c.key)).value.val))
  {
    if b.Clean() && b.root != null && Searches(c) {
      CleanHasNone(b.root.view.tree, c.key);
    }
    match c
    case Insert(e) => r := PerformInsert(b, e, m);
    case Update(k, v) => r := PerformUpdate(b, k, v, m);
    case Remove(k) => r := PerformRemove(b, k, m);
    case Lookup(k) => r := PerformLookup(b, k, m);
  }

  /**
   Any run of calls, from any tree that represents a map, answers as the map does and ends up representing what the map has
   become, as long as no search meets a leftover; and none does in a run that starts clean and reads before it removes.
   */
  method Run(b: BTreeHead, calls: seq<Call>, ghost m: map<int, int>) returns (replies: seq<Reply>, ghost met: bool)
    requires b.Valid() && Represents(b.Model(), m, b.minDegree) && FreshKeys(m, calls)
    modifies b.Repr()
    ensures b.Valid() && fresh(b.Repr() - old(b.Repr()))
    ensures !met ==> replies == MapReplies(m, calls) && Represents(b.Model(), MapAfter(m, calls), b.minDegree)
    ensures old(b.Clean()) && ReadsFirst(calls) ==> !met
  {
    replies, met := [], false;
    var i := 0;
    while i < |calls|
      invariant 0 <= i <= |calls| && b.Valid() && fresh(b.Repr() - old(b.Repr())) && FreshKeys(m, calls[..i])
      invariant !met ==> replies == MapReplies(m, calls[..i])
      invariant !met ==> Represents(b.Model(), MapAfter(m, calls[..i]), b.minDegree)
      invariant old(b.Clean()) && ReadsFirst(calls) ==> !met && (b.Clean() || exists j :: 0 <= j < i && calls[j].Remove?)
    {
      assert calls[..i + 1][..i] == calls[..i];
      FreshSoFar(m, calls, i);
      met := met || MeetsLeftover(b, calls[i]);
      var r := Perform(b, calls[i], MapAfter(m, calls[..i]));
      replies := replies + [r];
      i := i + 1;
    }
    assert calls[..i] == calls;
  }

  lemma {:induction false} FreshSoFar(m: map<int, int>, calls: seq<Call>, i: nat)
    requires FreshKeys(m, calls) && i < |calls|
    ensures FreshKeys(m, calls[..i + 1]) && FreshKey(MapAfter(m, calls[..i]), calls[i])
    decreases |calls| - i
  {
    if i == |calls| - 1 {
      assert calls[..i + 1] == calls;
    } else {
      FreshSoFar(m, calls, i + 1);
      assert calls[..i + 2][..i + 1] == calls[..i + 1] && calls[..i + 1][..i] == calls[..i];
    }
  }

  // ---------------------------------------------------------------- any run, slots included

  /** What a call makes of a tree with all its slots, and what it answers. */
  ghost function TreeStep(x: Root, c: Call, t: nat): (r: Root)
    requires 2 <= t && ValidTree(x, t)
    ensures ValidTree(r, t)
  {
    match c
    case Insert(e) => InsertTreeCorrect(x, e, t); InsertTree(x, e, t)
    case Update(k, v) => WriteTreeMeans(x, k, v, t); WriteTree(x, k, v, t)
    case Remove(k) => RemoveTreeCorrect(x, k, t); RemoveTree(x, k, t)
    case Lookup(_) => x
  }

  ghost function TreeReply(x: Root, c: Call, t: nat): Reply
    requires ValidTree(x, t)
  {
    match c
    case Insert(_) => Done
    case Update(k, _) => Told(StaleTree(x, k).Some? || LookupTree(x, k, t).Some?)
    case Remove(_) => Done
    case Lookup(k) => Found(if StaleTree(x, k).Some? then Some(StaleTree(x, k).value.val) else LookupTree(x, k, t))
  }

  ghost function TreeAfter(x: Root, calls: seq<Call>, t: nat): (r: Root)
    requires 2 <= t && ValidTree(x, t)
    ensures ValidTree(r, t)
  {
    if calls == [] then x else TreeStep(TreeAfter(x, calls[..|calls| - 1], t), calls[|calls| - 1], t)
  }

  ghost function TreeReplies(x: Root, calls: seq<Call>, t: nat): (r: seq<Reply>)
    requires 2 <= t && ValidTree(x, t)
    ensures |r| == |calls|
  {
    if calls == [] then [] else
      var n := |calls| - 1;
      TreeReplies(x, calls[..n], t) + [TreeReply(TreeAfter(x, calls[..n], t), calls[n], t)]
  }

  /** One call, slot by slot; folded. */
  ghost predicate Stepped(x: Root, c: Call, t: nat, y: Root, r: Reply) {
    forall i :: Look(i) ==> 2 <= t && ValidTree(x, t) && y == TreeStep(x, c, t) && r == TreeReply(x, c, t)
  }

  /** A run of calls, slot by slot; folded. */
  ghost predicate Ran(x: Root, calls: seq<Call>, t: nat, y: Root, rs: seq<Reply>) {
    forall i :: Look(i) ==> 2 <= t && ValidTree(x, t) && y == TreeAfter(x, calls, t) && rs == TreeReplies(x, calls, t)
  }

  lemma {:induction false} RanStep(x: Root, calls: seq<Call>, n: nat, t: nat, y: Root, rs: seq<Reply>, z: Root, r: Reply)
    requires n < |calls| && Ran(x, calls[..n], t, y, rs) && Stepped(y, calls[n], t, z, r)
    ensures Ran(x, calls[..n + 1], t, z, rs + [r])
  {
    assert Look(0);
    assert calls[..n + 1][..n] == calls[..n];
  }

  lemma {:induction false} RanNothing(x: Root, t: nat)
    requires 2 <= t && ValidTree(x, t)
    ensures Ran(x, [], t, x, [])
  {}

  method PerformAny(b: BTreeHead, c: Call) returns (r: Reply)
    requires b.Valid()
    modifies b.Repr()
    ensures b.Valid() && fresh(b.Repr() - old(b.Repr())) && Stepped(old(b.Model()), c, b.minDegree, b.Model(), r)
  {
    r := Done;
    match c
    case Insert(e) => b.Insert(e.key, e.val);
    case Update(k, v) =>
      var ok := b.Update(k, v);
      r := Told(ok);
    case Remove(k) => b.Remove(k);
    case Lookup(k) =>
      var v := b.Lookup(k);
      r := Found(v);
  }

  method RunOne(b: BTreeHead, calls: seq<Call>, n: nat, ghost x: Root, ghost rs: seq<Reply>) returns (r: Reply)
    requires b.Valid() && n < |calls| && Ran(x, calls[..n], b.minDegree, b.Model(), rs)
    modifies b.Repr()
    ensures b.Valid() && fresh(b.Repr() - old(b.Repr())) && Ran(x, calls[..n + 1], b.minDegree, b.Model(), rs + [r])
  {
    ghost var y := b.Model();
    r := PerformAny(b, calls[n]);
    RanStep(x, calls, n, b.minDegree, y, rs, b.Model(), r);
  }

  method RunOn(b: BTreeHead, calls: seq<Call>) returns (replies: seq<Reply>)
    requires b.Valid() && Ran(b.Model(), [], b.minDegree, b.Model(), [])
    modifies b.Repr()
    ensures b.Valid() && fresh(b.Repr() - old(b.Repr()))
    ensures Ran(old(b.Model()), calls[..|calls|], b.minDegree, b.Model(), replies)
  {
    replies := [];
    ghost var x := b.Model();
    assert calls[..0] == [];
    var i := 0;
    while i < |calls|
      invariant 0 <= i <= |calls| && b.Valid() && fresh(b.Repr() - old(b.Repr()))
      invariant Ran(x, calls[..i], b.minDegree, b.Model(), replies)
    {
      var r := RunOne(b, calls, i, x, replies);
      replies := replies + [r];
      i := i + 1;
    }
  }

  /** Any run of calls whatever, from any tree, does and answers, slot by slot, what the specification says. */
  method RunAny(b: BTreeHead, calls: seq<Call>) returns (replies: seq<Reply>)
    requires b.Valid()
    modifies b.Repr()
    ensures b.Valid() && fresh(b.Repr() - old(b.Repr())) && ValidTree(old(b.Model()), b.minDegree)
    ensures b.Model() == TreeAfter(old(b.Model()), calls, b.minDegree)
    ensures replies == TreeReplies(old(b.Model()), calls, b.minDegree)
  {
    RanNothing(b.Model(), b.minDegree);
    replies := RunOn(b, calls);
    assert Look(0) && calls[..|calls|] == calls;
  }

  /** The entries that a run of calls has put in, values of updates included. */
  ghost function Given(calls: seq<Call>): (g: set<Entry>) {
    set i | 0 <= i < |calls| && (calls[i].Insert? || calls[i].Update?) ::
      if calls[i].Insert? then calls[i].e else Entry(calls[i].key, calls[i].val)
  }

  /** Whatever is left behind where: a lookup never answers anything but a value once given for its key. */
  lemma {:induction false} OnlyGiven(calls: seq<Call>, i: nat, t: nat)
    requires 2 <= t && i < |calls| && calls[i].Lookup?
    ensures match TreeReply(TreeAfter(Empty, calls[..i], t), calls[i], t)
            case Found(Some(v)) => Entry(calls[i].key, v) in Given(calls[..i])
            case _ => true
  {
    AfterWithin(calls[..i], t, Given(calls[..i]));
    FoundInTree(TreeAfter(Empty, calls[..i], t), calls[i].key, t, Given(calls[..i]));
  }

  lemma {:induction false} AfterWithin(calls: seq<Call>, t: nat, g: set<Entry>)
    requires 2 <= t && Given(calls) <= g
    ensures WithinTree(TreeAfter(Empty, calls, t), g)
    decreases |calls|
  {
    if calls != [] {
      var n := |calls| - 1;
      GivenBefore(calls, n);
      AfterWithin(calls[..n], t, g);
      StepWithinTree(TreeAfter(Empty, calls[..n], t), calls[n], t, g);
    }
  }

  lemma {:induction false} GivenBefore(calls: seq<Call>, n: nat)
    requires n < |calls|
    ensures Given(calls[..n]) <= Given(calls)
    ensures calls[n].Insert? ==> calls[n].e in Given(calls)
    ensures calls[n].Update? ==> Entry(calls[n].key, calls[n].val) in Given(calls)
  {
    forall e | e in Given(calls[..n]) ensures e in Given(calls) {
      var i :| 0 <= i < n && (calls[..n][i].Insert? || calls[..n][i].Update?)
               && e == if calls[..n][i].Insert? then calls[..n][i].e else Entry(calls[..n][i].key, calls[..n][i].val);
      assert calls[i] == calls[..n][i];
    }
  }

  lemma {:induction false} StepWithinTree(x: Root, c: Call, t: nat, g: set<Entry>)
    requires 2 <= t && ValidTree(x, t) && WithinTree(x, g)
    requires c.Insert? ==> c.e in g
    requires c.Update? ==> Entry(c.key, c.val) in g
    ensures WithinTree(TreeStep(x, c, t), g)
  {
    match c
    case Insert(e) => InsertTreeWithin(x, e, t, g);
    case Update(k, v) => WriteTreeWithin(x, k, v, t, g);
    case Remove(k) => RemoveTreeWithin(x, k, t, g);
    case Lookup(_) =>
  }

  /**
   A removal from a tree in which nothing was left behind, and a lookup after it: right for every other key, and right for
   the removed one exactly when it does not linger.
   */
  method RemoveThenLookup(b: BTreeHead, k: int, j: int, ghost m: map<int, int>) returns (r: Option<int>)
    requires b.Valid() && b.Clean() && Represents(b.Model(), m, b.minDegree)
    modifies b.Repr()
    ensures b.Valid() && Represents(b.Model(), m - {k}, b.minDegree)
    ensures r == (if j in m - {k} then Some(m[j]) else None) <==> !(j == k && LingersTree(old(b.Model()), k, b.minDegree))
  {
    ghost var x := b.Model();
    r := LookAfter(b, k, j);
    LookedUp(x, b.Model(), k, j, m, b.minDegree);
  }

  method LookAfter(b: BTreeHead, k: int, j: int) returns (r: Option<int>)
    requires b.Valid() && ValidTree(b.Model(), b.minDegree)
    modifies b.Repr()
    ensures b.Valid() && RemovedTo(old(b.Model()), k, b.minDegree, b.Model())
    ensures r == if StaleTree(b.Model(), j).Some? then Some(StaleTree(b.Model(), j).value.val)
                 else LookupTree(b.Model(), j, b.minDegree)
  {
    b.Remove(k);
    r := b.Lookup(j);
  }

  /** Removal from a whole tree; folded. */
  ghost predicate RemovedTo(x: Root, k: int, t: nat, y: Root) {
    forall i :: Look(i) ==> 2 <= t && ValidTree(x, t) && y == RemoveTree(x, k, t)
  }

  lemma {:induction false} LookedUp(x: Root, y: Root, k: int, j: int, m: map<int, int>, t: nat)
    requires RemovedTo(x, k, t, y) && 2 <= t && Represents(x, m, t) && CleanTree(x)
    ensures Represents(y, m - {k}, t)
    ensures (if StaleTree(y, j).Some? then Some(StaleTree(y, j).value.val) else LookupTree(y, j, t))
            == (if j in m - {k} then Some(m[j]) else None)
            <==> !(j == k && LingersTree(x, k, t))
  {
    OwnRight(x, y, k, m, t);
    OthersRight(x, y, k, j, m, t);
    LookupAgrees(y, m - {k}, j, t);
  }

  lemma {:induction false} OwnRight(x: Root, y: Root, k: int, m: map<int, int>, t: nat)
    requires RemovedTo(x, k, t, y) && Represents(x, m, t) && CleanTree(x)
    ensures Represents(y, m - {k}, t) && (StaleTree(y, k).Some? <==> LingersTree(x, k, t))
  {
    assert Look(0);
    RemoveAgrees(x, m, k, t);
    RemovedLingers(x, k, t);
  }

  lemma {:induction false} OthersRight(x: Root, y: Root, k: int, j: int, m: map<int, int>, t: nat)
    requires RemovedTo(x, k, t, y) && Represents(x, m, t) && CleanTree(x)
    ensures match StaleTree(y, j) case None => true case Some(e) => j in m && m[j] == e.val
  {
    assert Look(0);
    RemovedOthers(x, k, j, t);
    if StaleTree(y, j).Some? {
      BoundEntry(Contents(x), m, StaleTree(y, j).value);
    }
  }

  // ---------------------------------------------------------------- an update that gets lost

  lemma {:induction false} RootParts(x: Tree, h: nat, m: map<int, int>, t: nat)
    requires Represents(Root(x, h), m, t) && 0 < h
    ensures |x.children| == |x.keys| + 1 && 1 <= |x.keys| && Distinct(Flat(x)) && Binds(Flat(x), m)
  {}

  lemma {:induction false} LastOfTree(x: Tree, h: nat, m: map<int, int>, t: nat)
    requires Represents(Root(x, h), m, t) && 0 < h
    ensures 1 <= |x.keys| && Distinct(x.keys)
    ensures var e := x.keys[|x.keys| - 1]; e.key in m && m[e.key] == e.val
  {
    RootParts(x, h, m, t);
    KeysDistinct(x);
    LastOfRoot(x, m);
  }

  lemma {:induction false} LastOfRoot(x: Tree, m: map<int, int>)
    requires Binds(Flat(x), m) && |x.children| == |x.keys| + 1 && 1 <= |x.keys|
    ensures var e := x.keys[|x.keys| - 1]; e.key in m && m[e.key] == e.val
  {
    KeyInFlat(x, |x.keys| - 1);
    BoundEntry(Flat(x), m, x.keys[|x.keys| - 1]);
  }

  lemma {:induction false} BoundEntry(s: seq<Entry>, m: map<int, int>, e: Entry)
    requires Binds(s, m) && e in s
    ensures e.key in m && m[e.key] == e.val
  {
    var i :| 0 <= i < |s| && s[i] == e;
  }

  /**
   A key is removed and the last two children of the root are merged on the way. Then an update of the last key of the root
   answers that it has been made, and the tree represents the map without it.
   */
  method UpdateMisses(b: BTreeHead, k: int, v: int, ghost m: map<int, int>) returns (found: Option<int>, ok: bool)
    requires b.Valid() && Represents(b.Model(), m, b.minDegree)
    requires b.root != null && b.height > 0 && b.MergesAtRoot(b.root.view.tree, k)
    modifies b.Repr()
    ensures b.Valid() && ok && Represents(b.Model(), m - {k}, b.minDegree)
    ensures var ks := old(b.root.view.tree.keys); var e := ks[|ks| - 1];
            e.key in m && m[e.key] == e.val && found == Some(e.val)
  {
    found, ok := UpdateLost(b, k, v, m);
    assert Look(0);
  }

  /** Represents, folded. */
  ghost predicate Shows(x: Root, m: map<int, int>, t: nat) {
    forall i :: Look(i) ==> 2 <= t && Represents(x, m, t)
  }

  lemma {:induction false} ShowsLast(x: Tree, h: nat, m: map<int, int>, k: int, t: nat)
    requires Shows(Root(x, h), m, t) && 0 < h
    ensures 1 <= |x.keys| && Distinct(x.keys)
    ensures var e := x.keys[|x.keys| - 1]; e.key in m && m[e.key] == e.val
    ensures ValidTree(Root(x, h), t) && 2 <= t && Shows(RemoveTree(Root(x, h), k, t), m - {k}, t)
  {
    assert Look(0);
    LastOfTree(x, h, m, t);
    RemoveAgrees(Root(x, h), m, k, t);
  }

  lemma {:induction false} ShowsSame(x: Root, y: Root, m: map<int, int>, t: nat)
    requires Shows(x, m, t) && ValidTree(y, t) && Contents(x) == Contents(y)
    ensures Shows(y, m, t)
  {
    assert Look(0);
  }

  method UpdateLost(b: BTreeHead, k: int, v: int, ghost m: map<int, int>) returns (found: Option<int>, ok: bool)
    requires b.Valid() && Shows(b.Model(), m, b.minDegree)
    requires b.root != null && b.height > 0 && b.MergesAtRoot(b.root.view.tree, k)
    modifies b.Repr()
    ensures b.Valid() && ok && Shows(b.Model(), m - {k}, b.minDegree)
    ensures var ks := old(b.root.view.tree.keys); var e := ks[|ks| - 1];
            e.key in m && m[e.key] == e.val && found == Some(e.val)
  {
    ShowsLast(b.root.view.tree, b.height, m, k, b.minDegree);
    ghost var r := RemoveTree(b.Model(), k, b.minDegree);
    found, ok := b.UpdateAfterMerge(k, v);
    ShowsSame(r, b.Model(), m - {k}, b.minDegree);
  }

  ghost function OneKey(e: Entry): Tree {
    Node([e], [], Nulls(3))
  }

  /** Minimum degree 2, keys 1 to 5 under a root with 2 and 4: removing 5 merges around 4, which stays in the tree. */
  lemma {:induction false} MissedInput(a: int, b: int, c: int, d: int, e: int)
    ensures var x := Node([Entry(2, b), Entry(4, d)], [OneKey(Entry(1, a)), OneKey(Entry(3, c)), OneKey(Entry(5, e))], Nulls(2));
            && ValidTree(Root(x, 1), 2) && MergedAway(x, 5, 2)
            && Contents(Root(x, 1)) == [Entry(1, a), Entry(2, b), Entry(3, c), Entry(4, d), Entry(5, e)]
  {
    var l, m, r := OneKey(Entry(1, a)), OneKey(Entry(3, c)), OneKey(Entry(5, e));
    var ks := [Entry(2, b), Entry(4, d)];
    var x := Node(ks, [l, m, r], Nulls(2));
    assert x.children[1..] == [m, r] && [m, r][1..] == [r] && ks[1..] == [ks[1]];
    assert After([ks[1]], [r]) == [ks[1]] + Flat(r) + After([], []);
    assert After(ks, [m, r]) == [ks[0]] + Flat(m) + After([ks[1]], [r]);
    assert Flat(x) == [Entry(1, a), Entry(2, b), Entry(3, c), Entry(4, d), Entry(5, e)];
    assert FindPos(ks, 5) == 2 by {
      assert FindPos([ks[1]], 5) == 1 + FindPos([ks[1]][1..], 5);
    }
  }
}
