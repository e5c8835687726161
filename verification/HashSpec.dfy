/** Buckets of the chained hash table as values (src/datastructure/hashtable.c). */
module HashSpec {
  import opened Wrappers

  datatype Entry<K, V> = Entry(key: K, value: V)

  /**
   How a table tells keys apart: `norm` gives two keys the same normal form exactly when the comparison holds, and the
   hash does not look at anything else.
   */
  ghost predicate Lawful<K(!new), N(!new)>(compare: (K, K) -> bool, hash: K -> nat, norm: K -> N) {
    forall a, b :: (compare(a, b) <==> norm(a) == norm(b)) && (norm(a) == norm(b) ==> hash(a) == hash(b))
  }

  ghost predicate Respects<K(!new), N(!new)>(hash: K -> nat, norm: K -> N) {
    forall a, b :: norm(a) == norm(b) ==> hash(a) == hash(b)
  }

  /** What the first entry for `n` in a bucket holds. */
  ghost function Find<K, N(!new), V>(norm: K -> N, b: seq<Entry<K, V>>, n: N): Option<V> {
    if b == [] then None else if norm(b[0].key) == n then Some(b[0].value) else Find(norm, b[1..], n)
  }

  /** The bucket without the first entry for `n`. */
  ghost function Drop<K, N(!new), V>(norm: K -> N, b: seq<Entry<K, V>>, n: N): seq<Entry<K, V>> {
    if b == [] then [] else if norm(b[0].key) == n then b[1..] else [b[0]] + Drop(norm, b[1..], n)
  }

  /** No two entries of a bucket are for the same key. */
  ghost predicate Apart<K, N(!new), V>(norm: K -> N, b: seq<Entry<K, V>>) {
    forall i, j :: 0 <= i < j < |b| ==> norm(b[i].key) != norm(b[j].key)
  }

  function Slot<K>(hash: K -> nat, k: K, cap: nat): (s: nat)
    requires 0 < cap
    ensures s < cap
  {
    hash(k) % cap
  }

  /** Every entry stands in the bucket its hash says. */
  ghost predicate Homed<K, V>(hash: K -> nat, bs: seq<seq<Entry<K, V>>>) {
    forall i, j :: 0 <= i < |bs| && 0 <= j < |bs[i]| ==> hash(bs[i][j].key) % |bs| == i
  }

  ghost predicate AllApart<K, N(!new), V>(norm: K -> N, bs: seq<seq<Entry<K, V>>>) {
    forall i :: 0 <= i < |bs| ==> Apart(norm, bs[i])
  }

  ghost function Lookup<K, N(!new), V>(hash: K -> nat, norm: K -> N, bs: seq<seq<Entry<K, V>>>, k: K): Option<V>
    requires 0 < |bs|
  {
    Find(norm, bs[Slot(hash, k, |bs|)], norm(k))
  }

  ghost function Total<T>(bs: seq<seq<T>>): nat {
    if bs == [] then 0 else Total(bs[..|bs| - 1]) + |bs[|bs| - 1]|
  }

  lemma {:induction false} TotalSet<T>(bs: seq<seq<T>>, i: nat, b: seq<T>)
    requires i < |bs|
    ensures Total(bs[i := b]) == Total(bs) - |bs[i]| + |b|
  {
    var n := |bs| - 1;
    if i == n {
      assert bs[i := b][..n] == bs[..n];
    } else {
      assert bs[i := b][..n] == bs[..n][i := b];
      TotalSet(bs[..n], i, b);
    }
  }

  lemma {:induction false} TotalZero<T>(bs: seq<seq<T>>)
    ensures Total(bs) == 0 <==> forall i :: 0 <= i < |bs| ==> bs[i] == []
  {
    if bs != [] {
      var n := |bs| - 1;
      TotalZero(bs[..n]);
      if Total(bs) == 0 {
        forall i | 0 <= i < |bs| ensures bs[i] == [] {
          assert i < n ==> bs[..n][i] == bs[i];
        }
      } else {
        assert bs[n] != [] || exists i :: 0 <= i < n && bs[..n][i] != [];
      }
    }
  }

  /** An entry that is there is found. */
  lemma {:induction false} FindAt<K, N(!new), V>(norm: K -> N, b: seq<Entry<K, V>>, j: nat)
    requires j < |b| && Apart(norm, b)
    ensures Find(norm, b, norm(b[j].key)) == Some(b[j].value)
  {
    if j > 0 {
      assert b[1..][j - 1] == b[j];
      FindAt(norm, b[1..], j - 1);
    }
  }

  lemma {:induction false} FindNone<K, N(!new), V>(norm: K -> N, b: seq<Entry<K, V>>, n: N)
    ensures Find(norm, b, n) == None <==> forall j :: 0 <= j < |b| ==> norm(b[j].key) != n
  {
    if b != [] {
      FindNone(norm, b[1..], n);
      assert forall j :: 0 <= j < |b[1..]| ==> b[1..][j] == b[j + 1];
      assert forall j :: 0 < j < |b| ==> b[j] == b[1..][j - 1];
    }
  }

  /** Dropping the entry for `n` leaves nothing for `n` and everything else. */
  lemma {:induction false} DropFinds<K, N(!new), V>(norm: K -> N, b: seq<Entry<K, V>>, n: N, m: N)
    requires Apart(norm, b)
    ensures Find(norm, Drop(norm, b, n), m) == if m == n then None else Find(norm, b, m)
  {
    if b != [] {
      if norm(b[0].key) == n {
        FindNone(norm, b[1..], n);
      } else {
        DropFinds(norm, b[1..], n, m);
        assert ([b[0]] + Drop(norm, b[1..], n))[1..] == Drop(norm, b[1..], n);
      }
    }
  }

  /** Dropping takes out one entry, the one at some place `j`. */
  lemma {:induction false} DropAt<K, N(!new), V>(norm: K -> N, b: seq<Entry<K, V>>, j: nat)
    requires j < |b| && Apart(norm, b)
    ensures Drop(norm, b, norm(b[j].key)) == b[..j] + b[j + 1..]
  {
    if j > 0 {
      assert b[1..][j - 1] == b[j];
      DropAt(norm, b[1..], j - 1);
      assert [b[0]] + (b[1..][..j - 1] + b[1..][j..]) == b[..j] + b[j + 1..];
    }
  }

  // ---------------------------------------------------------------- whole tables

  /** The buckets of a table: entries at home, none twice. */
  ghost predicate Sound<K(!new), N(!new), V>(hash: K -> nat, norm: K -> N, bs: seq<seq<Entry<K, V>>>) {
    Respects(hash, norm) && 0 < |bs| && Homed(hash, bs) && AllApart(norm, bs)
  }

  function Prepended<K, V>(hash: K -> nat, bs: seq<seq<Entry<K, V>>>, e: Entry<K, V>): seq<seq<Entry<K, V>>>
    requires 0 < |bs|
  {
    var s := Slot(hash, e.key, |bs|);
    bs[s := [e] + bs[s]]
  }

  lemma {:induction false} PutShape<K(!new), N(!new), V>(hash: K -> nat, norm: K -> N, bs: seq<seq<Entry<K, V>>>, e: Entry<K, V>)
    requires Sound(hash, norm, bs) && Lookup(hash, norm, bs, e.key) == None
    ensures Sound(hash, norm, Prepended(hash, bs, e)) && Total(Prepended(hash, bs, e)) == Total(bs) + 1
  {
    var s := Slot(hash, e.key, |bs|);
    FindNone(norm, bs[s], norm(e.key));
    TotalSet(bs, s, [e] + bs[s]);
  }

  lemma {:induction false} PutLooks<K(!new), N(!new), V>(hash: K -> nat, norm: K -> N, bs: seq<seq<Entry<K, V>>>,
      e: Entry<K, V>, k: K)
    requires Sound(hash, norm, bs)
    ensures Lookup(hash, norm, Prepended(hash, bs, e), k)
            == if norm(k) == norm(e.key) then Some(e.value) else Lookup(hash, norm, bs, k)
  {
    var s := Slot(hash, e.key, |bs|);
    assert ([e] + bs[s])[1..] == bs[s];
  }

  ghost function Dropped<K, N(!new), V>(hash: K -> nat, norm: K -> N, bs: seq<seq<Entry<K, V>>>, k: K): seq<seq<Entry<K, V>>>
    requires 0 < |bs|
  {
    var s := Slot(hash, k, |bs|);
    bs[s := Drop(norm, bs[s], norm(k))]
  }

  lemma {:induction false} DropWithin<K, N(!new), V>(norm: K -> N, b: seq<Entry<K, V>>, n: N) returns (j: nat)
    requires Apart(norm, b) && Find(norm, b, n).Some?
    ensures j < |b| && norm(b[j].key) == n && Drop(norm, b, n) == b[..j] + b[j + 1..]
    ensures Find(norm, b, n) == Some(b[j].value)
  {
    FindNone(norm, b, n);
    j :| 0 <= j < |b| && norm(b[j].key) == n;
    DropAt(norm, b, j);
    FindAt(norm, b, j);
  }

  lemma {:induction false} RemoveShape<K(!new), N(!new), V>(hash: K -> nat, norm: K -> N, bs: seq<seq<Entry<K, V>>>, k: K)
    requires Sound(hash, norm, bs) && Lookup(hash, norm, bs, k).Some?
    ensures Sound(hash, norm, Dropped(hash, norm, bs, k)) && Total(Dropped(hash, norm, bs, k)) == Total(bs) - 1
  {
    var s := Slot(hash, k, |bs|);
    var j := DropWithin(norm, bs[s], norm(k));
    var b := bs[s][..j] + bs[s][j + 1..];
    TotalSet(bs, s, b);
    assert forall i :: 0 <= i < |b| ==> b[i] == bs[s][if i < j then i else i + 1];
  }

  lemma {:induction false} RemoveLooks<K(!new), N(!new), V>(hash: K -> nat, norm: K -> N, bs: seq<seq<Entry<K, V>>>, k: K, l: K)
    requires Sound(hash, norm, bs)
    ensures Lookup(hash, norm, Dropped(hash, norm, bs, k), l) == if norm(l) == norm(k) then None else Lookup(hash, norm, bs, l)
  {
    DropFinds(norm, bs[Slot(hash, k, |bs|)], norm(k), norm(l));
  }

  // ---------------------------------------------------------------- rehashing

  /** Every key has one home while entries move from the old buckets to the new ones. */
  ghost predicate Moving<K(!new), N(!new), V>(hash: K -> nat, norm: K -> N, old_: seq<seq<Entry<K, V>>>,
      new_: seq<seq<Entry<K, V>>>)
  {
    && Sound(hash, norm, old_) && Sound(hash, norm, new_)
    && forall k :: Lookup(hash, norm, old_, k) == None || Lookup(hash, norm, new_, k) == None
  }

  /** Where a key is found while entries move. */
  ghost function Either<K, N(!new), V>(hash: K -> nat, norm: K -> N, old_: seq<seq<Entry<K, V>>>,
      new_: seq<seq<Entry<K, V>>>, k: K): Option<V>
    requires 0 < |old_| && 0 < |new_|
  {
    if Lookup(hash, norm, old_, k).Some? then Lookup(hash, norm, old_, k) else Lookup(hash, norm, new_, k)
  }

  /** Taking the front entry of a bucket drops that key. */
  lemma {:induction false} FrontDrops<K(!new), N(!new), V>(hash: K -> nat, norm: K -> N, bs: seq<seq<Entry<K, V>>>, i: nat)
    requires Sound(hash, norm, bs) && i < |bs| && bs[i] != []
    ensures Slot(hash, bs[i][0].key, |bs|) == i
    ensures bs[i := bs[i][1..]] == Dropped(hash, norm, bs, bs[i][0].key)
    ensures Lookup(hash, norm, bs, bs[i][0].key) == Some(bs[i][0].value)
  {
    assert Slot(hash, bs[i][0].key, |bs|) == i;
  }

  lemma {:induction false} MoveStep<K(!new), N(!new), V>(hash: K -> nat, norm: K -> N, old_: seq<seq<Entry<K, V>>>,
      new_: seq<seq<Entry<K, V>>>, i: nat)
    requires Moving(hash, norm, old_, new_) && i < |old_| && old_[i] != []
    ensures var e := old_[i][0]; var old', new' := old_[i := old_[i][1..]], Prepended(hash, new_, e);
            && Moving(hash, norm, old', new') && Total(old') + Total(new') == Total(old_) + Total(new_)
            && forall k :: Either(hash, norm, old', new', k) == Either(hash, norm, old_, new_, k)
  {
    var e := old_[i][0];
    var old', new' := old_[i := old_[i][1..]], Prepended(hash, new_, e);
    FrontDrops(hash, norm, old_, i);
    RemoveShape(hash, norm, old_, e.key);
    PutShape(hash, norm, new_, e);
    forall k
      ensures Lookup(hash, norm, old', k) == None || Lookup(hash, norm, new', k) == None
      ensures Either(hash, norm, old', new', k) == Either(hash, norm, old_, new_, k)
    {
      MoveLooks(hash, norm, old_, new_, i, k);
    }
  }

  lemma {:induction false} MoveLooks<K(!new), N(!new), V>(hash: K -> nat, norm: K -> N, old_: seq<seq<Entry<K, V>>>,
      new_: seq<seq<Entry<K, V>>>, i: nat, k: K)
    requires Moving(hash, norm, old_, new_) && i < |old_| && old_[i] != []
    ensures var e := old_[i][0]; var old', new' := old_[i := old_[i][1..]], Prepended(hash, new_, e);
            && (Lookup(hash, norm, old', k) == None || Lookup(hash, norm, new', k) == None)
            && Either(hash, norm, old', new', k) == Either(hash, norm, old_, new_, k)
  {
    var e := old_[i][0];
    FrontDrops(hash, norm, old_, i);
    RemoveLooks(hash, norm, old_, e.key, k);
    PutLooks(hash, norm, new_, e, k);
    SameLookup(hash, norm, old_, e.key, k);
  }

  /** Keys with the same normal form are found alike. */
  lemma {:induction false} SameLookup<K(!new), N(!new), V>(hash: K -> nat, norm: K -> N, bs: seq<seq<Entry<K, V>>>, k: K, l: K)
    requires Sound(hash, norm, bs)
    ensures norm(k) == norm(l) ==> Lookup(hash, norm, bs, k) == Lookup(hash, norm, bs, l)
  {}

  ghost function Flat<T>(bs: seq<seq<T>>): seq<T> {
    if bs == [] then [] else Flat(bs[..|bs| - 1]) + bs[|bs| - 1]
  }

  lemma {:induction false} FlatStep<T>(bs: seq<seq<T>>, i: nat)
    requires i < |bs|
    ensures Flat(bs[..i + 1]) == Flat(bs[..i]) + bs[i]
  {
    assert bs[..i + 1][..i] == bs[..i];
  }

  /** The buckets before `i` emptied. */
  ghost function Emptied<T>(bs: seq<seq<T>>, i: nat): (r: seq<seq<T>>)
    ensures |r| == |bs| && forall j :: 0 <= j < |bs| ==> r[j] == if j < i then [] else bs[j]
  {
    seq(|bs|, j requires 0 <= j < |bs| => if j < i then [] else bs[j])
  }

  lemma {:induction false} EmptiedStep<T>(bs: seq<seq<T>>, i: nat)
    requires i < |bs|
    ensures Emptied(bs, i)[i := []] == Emptied(bs, i + 1)
  {}

  lemma {:induction false} EmptiedEnds<T>(bs: seq<seq<T>>)
    ensures Emptied(bs, 0) == bs && bs[..0] == [] && bs[..|bs|] == bs
  {}

  lemma {:induction false} TakeFront<T>(bs: seq<seq<T>>, i: nat, todo: seq<T>, seen: seq<T>)
    requires i < |bs| && todo != []
    ensures bs[i := todo][i := todo[1..]] == bs[i := todo[1..]]
    ensures seen + [todo[0]] + todo[1..] == seen + todo
  {}
}
