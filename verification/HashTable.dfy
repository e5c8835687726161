/** struct hashtable: an array of buckets that is rehashed as it fills (src/datastructure/hashtable.c). */
module HashTables {
  import opened Wrappers
  import opened HashSpec

  const DEFAULT_CAPACITY: nat := 16

  ghost function Pow2(n: nat): nat {
    if n == 0 then 1 else 2 * Pow2(n - 1)
  }

  ghost function MapGet<N, V>(m: map<N, V>, n: N): Option<V> {
    if n in m then Some(m[n]) else None
  }

  /** The buckets say what the map says, key by key. */
  ghost predicate Agrees<K(!new), N(!new), V>(hash: K -> nat, norm: K -> N, bs: seq<seq<Entry<K, V>>>, m: map<N, V>)
    requires 0 < |bs|
  {
    forall k :: Lookup(hash, norm, bs, k) == MapGet(m, norm(k))
  }

  datatype Call<K, V> = PutCall(key: K, value: V) | GetCall(key: K) | RemoveCall(key: K)

  datatype Answer<V> = Stored(ok: bool) | Found(value: Option<V>)

  /** What a call answers on a finite map that refuses to bind a key twice. */
  ghost function AnswerTo<K, N(!new), V>(norm: K -> N, c: Call<K, V>, m: map<N, V>): Answer<V> {
    match c
    case PutCall(k, _) => Stored(norm(k) !in m)
    case GetCall(k) => Found(MapGet(m, norm(k)))
    case RemoveCall(k) => Found(MapGet(m, norm(k)))
  }

  ghost function MapStep<K, N(!new), V>(norm: K -> N, c: Call<K, V>, m: map<N, V>): map<N, V> {
    match c
    case PutCall(k, v) => if norm(k) in m then m else m[norm(k) := v]
    case GetCall(_) => m
    case RemoveCall(k) => m - {norm(k)}
  }

  ghost function Answers<K, N(!new), V>(norm: K -> N, cs: seq<Call<K, V>>, m: map<N, V>): seq<Answer<V>> {
    if cs == [] then [] else [AnswerTo(norm, cs[0], m)] + Answers(norm, cs[1..], MapStep(norm, cs[0], m))
  }

  ghost function MapAfter<K, N(!new), V>(norm: K -> N, cs: seq<Call<K, V>>, m: map<N, V>): map<N, V> {
    if cs == [] then m else MapAfter(norm, cs[1..], MapStep(norm, cs[0], m))
  }

  lemma {:induction false} AnswersStep<K, N(!new), V>(norm: K -> N, cs: seq<Call<K, V>>, i: nat, m: map<N, V>,
      before: seq<Answer<V>>)
    requires i < |cs|
    ensures before + Answers(norm, cs[i..], m)
            == before + [AnswerTo(norm, cs[i], m)] + Answers(norm, cs[i + 1..], MapStep(norm, cs[i], m))
    ensures MapAfter(norm, cs[i..], m) == MapAfter(norm, cs[i + 1..], MapStep(norm, cs[i], m))
  {
    assert cs[i..][1..] == cs[i + 1..];
  }

  class HashTable<K(!new), N(!new), V> {
    const compare: (K, K) -> bool
    const hash: K -> nat
    ghost const norm: K -> N
    var count: nat
    var buckets: array<seq<Entry<K, V>>>
    /** The finite map that the table stands for; its keys are normal forms. */
    ghost var model: map<N, V>
    ghost var doublings: nat

    ghost predicate Valid()
      reads this, buckets
    {
      && Lawful(compare, hash, norm)
      && buckets.Length == DEFAULT_CAPACITY * Pow2(doublings) && 2 * count < buckets.Length
      && Sound(hash, norm, buckets[..]) && count == Total(buckets[..]) == |model|
      && Agrees(hash, norm, buckets[..], model)
    }

    /** hashtable_init */
    constructor (compare: (K, K) -> bool, hash: K -> nat, ghost norm: K -> N)
      requires Lawful(compare, hash, norm)
      ensures Valid() && fresh(buckets) && model == map[] && count == 0
      ensures this.compare == compare && this.hash == hash && this.norm == norm
    {
      this.compare, this.hash, this.norm := compare, hash, norm;
      count, model, doublings := 0, map[], 0;
      buckets := new seq<Entry<K, V>>[DEFAULT_CAPACITY](_ => []);
      new;
      TotalZero(buckets[..]);
      NothingThere(hash, norm, buckets[..]);
    }

    /** The loop over a bucket that put, get and remove share: the place of the first entry that compares equal. */
    method Seek(b: seq<Entry<K, V>>, key: K) returns (found: bool, j: nat)
      requires Lawful(compare, hash, norm)
      ensures found <==> Find(norm, b, norm(key)).Some?
      ensures found ==> j < |b| && norm(b[j].key) == norm(key) && Find(norm, b, norm(key)) == Some(b[j].value)
                        && Drop(norm, b, norm(key)) == b[..j] + b[j + 1..]
    {
      j := 0;
      while j < |b|
        invariant 0 <= j <= |b| && Find(norm, b, norm(key)) == Find(norm, b[j..], norm(key))
        invariant Drop(norm, b, norm(key)) == b[..j] + Drop(norm, b[j..], norm(key))
      {
        assert b[j..][1..] == b[j + 1..];
        if compare(b[j].key, key) {
          return true, j;
        }
        assert b[..j] + ([b[j]] + Drop(norm, b[j + 1..], norm(key))) == b[..j + 1] + Drop(norm, b[j + 1..], norm(key));
        j := j + 1;
      }
      found := false;
    }

    /** hashtable_get */
    method Get(key: K) returns (r: Option<V>)
      requires Valid()
      ensures r == MapGet(model, norm(key))
    {
      var b := buckets[Slot(hash, key, buckets.Length)];
      assert Lookup(hash, norm, buckets[..], key) == Find(norm, b, norm(key));
      var found, j := Seek(b, key);
      r := if found then Some(b[j].value) else None;
    }

    /** hashtable_remove: the entry is handed to the caller. */
    method Remove(key: K) returns (r: Option<Entry<K, V>>)
      requires Valid()
      modifies this`count, this`model, buckets
      ensures Valid()
      ensures model == old(model) - {norm(key)}
      ensures r.Some? <==> norm(key) in old(model)
      ensures r.Some? ==> norm(r.value.key) == norm(key) && r.value.value == old(model)[norm(key)]
      ensures r.Some? ==> buckets[..] == Dropped(hash, norm, old(buckets[..]), key)
    {
      var s := Slot(hash, key, buckets.Length);
      var b := buckets[s];
      ghost var was := buckets[..];
      assert Lookup(hash, norm, was, key) == Find(norm, b, norm(key)) == MapGet(model, norm(key));
      var found, j := Seek(b, key);
      if !found {
        return None;
      }
      RemoveShape(hash, norm, was, key);
      buckets[s] := b[..j] + b[j + 1..];
      count := count - 1;
      assert buckets[..] == Dropped(hash, norm, was, key);
      RemoveAgrees(hash, norm, was, model, key);
      model := model - {norm(key)};
      r := Some(b[j]);
    }

    /** hashtable_put up to the resize; a key that is there already is refused. */
    method Add(key: K, value: V) returns (ok: bool)
      requires Valid()
      modifies this`count, this`model, buckets
      ensures ok <==> norm(key) !in old(model)
      ensures model == if ok then old(model)[norm(key) := value] else old(model)
      ensures !ok ==> Valid()
      ensures count == Total(buckets[..]) == |model| && count == old(count) + if ok then 1 else 0
      ensures Sound(hash, norm, buckets[..]) && Agrees(hash, norm, buckets[..], model)
    {
      var e := Entry(key, value);
      var s := Slot(hash, key, buckets.Length);
      var b := buckets[s];
      ghost var was := buckets[..];
      assert Lookup(hash, norm, was, key) == Find(norm, b, norm(key)) == MapGet(model, norm(key));
      var found, j := Seek(b, key);
      if found {
        return false;
      }
      PutShape(hash, norm, was, e);
      buckets[s] := [e] + b;
      count := count + 1;
      assert buckets[..] == Prepended(hash, was, e);
      PutAgrees(hash, norm, was, model, e);
      model := model[norm(key) := value];
      ok := true;
    }

    /** The inner loop of the rehash: the entries of one old bucket go to their new buckets, front to front. */
    method MoveBucket(old_: array<seq<Entry<K, V>>>, new_: array<seq<Entry<K, V>>>, i: nat, ghost m: map<N, V>)
      requires old_ != new_ && i < old_.Length && Moving(hash, norm, old_[..], new_[..])
      requires EitherAgrees(hash, norm, old_[..], new_[..], m)
      modifies old_, new_
      ensures Moving(hash, norm, old_[..], new_[..]) && EitherAgrees(hash, norm, old_[..], new_[..], m)
      ensures Total(old_[..]) + Total(new_[..]) == old(Total(old_[..]) + Total(new_[..]))
      ensures old_[..] == old(old_[..])[i := []]
    {
      while old_[i] != []
        invariant Moving(hash, norm, old_[..], new_[..]) && EitherAgrees(hash, norm, old_[..], new_[..], m)
        invariant Total(old_[..]) + Total(new_[..]) == old(Total(old_[..]) + Total(new_[..]))
        invariant old_[..] == old(old_[..])[i := old_[i]]
        decreases |old_[i]|
      {
        ghost var os, ns := old_[..], new_[..];
        MoveStep(hash, norm, os, ns, i);
        var e := old_[i][0];
        var s := Slot(hash, e.key, new_.Length);
        old_[i] := old_[i][1..];
        new_[s] := [e] + new_[s];
        assert old_[..] == os[i := os[i][1..]] && new_[..] == Prepended(hash, ns, e);
      }
    }

    /** The outer loop of the rehash. */
    method Rehash(new_: array<seq<Entry<K, V>>>)
      requires Sound(hash, norm, buckets[..]) && Agrees(hash, norm, buckets[..], model)
      requires new_ != buckets && 0 < new_.Length && forall i :: 0 <= i < new_.Length ==> new_[i] == []
      modifies buckets, new_
      ensures Sound(hash, norm, new_[..]) && Agrees(hash, norm, new_[..], model)
      ensures Total(new_[..]) == old(Total(buckets[..]))
    {
      NothingThere(hash, norm, new_[..]);
      TotalZero(new_[..]);
      ghost var total := Total(buckets[..]);
      var i := 0;
      while i < buckets.Length
        invariant 0 <= i <= buckets.Length && Moving(hash, norm, buckets[..], new_[..])
        invariant EitherAgrees(hash, norm, buckets[..], new_[..], model)
        invariant Total(buckets[..]) + Total(new_[..]) == total
        invariant forall j :: 0 <= j < i ==> buckets[j] == []
      {
        MoveBucket(buckets, new_, i, model);
        i := i + 1;
      }
      TotalZero(buckets[..]);
      NothingThere(hash, norm, buckets[..]);
    }

    /** hashtable_resize, when allocation succeeds: twice the buckets once half as many entries are in. */
    method Resize()
      requires Lawful(compare, hash, norm) && buckets.Length == DEFAULT_CAPACITY * Pow2(doublings)
      requires count == Total(buckets[..]) == |model| && count < buckets.Length
      requires Sound(hash, norm, buckets[..]) && Agrees(hash, norm, buckets[..], model)
      modifies this`buckets, this`doublings, buckets
      ensures Valid() && (buckets == old(buckets) || fresh(buckets))
    {
      if 2 * count < buckets.Length {
        return;
      }
      var bigger := new seq<Entry<K, V>>[buckets.Length * 2](_ => []);
      Rehash(bigger);
      buckets := bigger;
      doublings := doublings + 1;
    }

    /** hashtable_put */
    method Put(key: K, value: V) returns (ok: bool)
      requires Valid()
      modifies this`count, this`model, this`buckets, this`doublings, buckets
      ensures Valid() && (buckets == old(buckets) || fresh(buckets))
      ensures ok <==> norm(key) !in old(model)
      ensures model == if ok then old(model)[norm(key) := value] else old(model)
    {
      ok := Add(key, value);
      if ok {
        Resize();
      }
    }

    /** The callback that removes the entry it is given, through the table itself. */
    method RemoveFront(i: nat, key: K)
      requires Valid() && i < buckets.Length && buckets[i] != [] && key == buckets[i][0].key
      modifies this`count, this`model, buckets
      ensures Valid() && buckets[..] == old(buckets[..])[i := old(buckets[i])[1..]]
    {
      ghost var was := buckets[..];
      FrontDrops(hash, norm, was, i);
      assert Lookup(hash, norm, was, key) == MapGet(model, norm(key));
      var r := Remove(key);
    }

    /** The inner loop of hashtable_foreach with that callback; the next entry is fetched before the call. */
    method DrainBucket(i: nat) returns (seen: seq<Entry<K, V>>)
      requires Valid() && i < buckets.Length
      modifies this`count, this`model, buckets
      ensures Valid() && seen == old(buckets[i]) && buckets[..] == old(buckets[..])[i := []]
    {
      seen := [];
      var todo := buckets[i];
      ghost var was, all := buckets[..], todo;
      while todo != []
        invariant Valid() && seen + todo == all && i < buckets.Length && buckets[..] == was[i := todo]
        decreases |todo|
      {
        var pos := todo[0];
        TakeFront(was, i, todo, seen);
        todo := todo[1..];
        RemoveFront(i, pos.key);
        seen := seen + [pos];
      }
    }

    /** hashtable_foreach with a removing callback: every entry is met once and the table ends up empty. */
    method ForEachRemoving() returns (seen: seq<Entry<K, V>>)
      requires Valid()
      modifies this`count, this`model, buckets
      ensures Valid() && seen == Flat(old(buckets[..]))
      ensures count == 0 && model == map[] && forall i :: 0 <= i < buckets.Length ==> buckets[i] == []
    {
      seen := [];
      ghost var was := buckets[..];
      var i := 0;
      EmptiedEnds(was);
      while i < buckets.Length
        invariant Valid() && 0 <= i <= buckets.Length == |was| && seen == Flat(was[..i])
        invariant buckets[..] == Emptied(was, i)
      {
        var some := DrainBucket(i);
        FlatStep(was, i);
        EmptiedStep(was, i);
        seen := seen + some;
        i := i + 1;
      }
      TotalZero(buckets[..]);
    }

    /** hashtable_free: with no entry counted, the assertion that every ring is empty holds. */
    method Free()
      requires Valid() && count == 0
      ensures forall i :: 0 <= i < buckets.Length ==> buckets[i] == []
    {
      TotalZero(buckets[..]);
      var i := 0;
      while i < buckets.Length
        invariant 0 <= i <= buckets.Length
      {
        assert buckets[i] == buckets[..][i] == [];
        i := i + 1;
      }
    }

    /** Any run of calls answers as the finite map does. */
    method RunCalls(calls: seq<Call<K, V>>) returns (answers: seq<Answer<V>>)
      requires Valid()
      modifies this`count, this`model, this`buckets, this`doublings, buckets
      ensures Valid() && (buckets == old(buckets) || fresh(buckets))
      ensures answers == Answers(norm, calls, old(model)) && model == MapAfter(norm, calls, old(model))
    {
      answers := [];
      var i := 0;
      assert calls[0..] == calls;
      while i < |calls|
        invariant 0 <= i <= |calls| && Valid() && (buckets == old(buckets) || fresh(buckets))
        invariant answers + Answers(norm, calls[i..], model) == Answers(norm, calls, old(model))
        invariant MapAfter(norm, calls[i..], model) == MapAfter(norm, calls, old(model))
      {
        ghost var m := model;
        var a := RunCall(calls[i]);
        AnswersStep(norm, calls, i, m, answers);
        answers := answers + [a];
        i := i + 1;
      }
    }

    method RunCall(c: Call<K, V>) returns (a: Answer<V>)
      requires Valid()
      modifies this`count, this`model, this`buckets, this`doublings, buckets
      ensures Valid() && (buckets == old(buckets) || fresh(buckets))
      ensures a == AnswerTo(norm, c, old(model)) && model == MapStep(norm, c, old(model))
    {
      match c {
        case PutCall(k, v) =>
          var ok := Put(k, v);
          a := Stored(ok);
        case GetCall(k) =>
          var r := Get(k);
          a := Found(r);
        case RemoveCall(k) =>
          var r := Remove(k);
          a := Found(if r.Some? then Some(r.value.value) else None);
      }
    }
  }

  /** While entries move, old and new buckets together say what the map says. */
  ghost predicate EitherAgrees<K(!new), N(!new), V>(hash: K -> nat, norm: K -> N, old_: seq<seq<Entry<K, V>>>,
      new_: seq<seq<Entry<K, V>>>, m: map<N, V>)
    requires 0 < |old_| && 0 < |new_|
  {
    forall k :: Either(hash, norm, old_, new_, k) == MapGet(m, norm(k))
  }

  lemma {:induction false} NothingThere<K(!new), N(!new), V>(hash: K -> nat, norm: K -> N, bs: seq<seq<Entry<K, V>>>)
    requires 0 < |bs| && forall i :: 0 <= i < |bs| ==> bs[i] == []
    ensures forall k :: Lookup(hash, norm, bs, k) == None
  {}

  lemma {:induction false} RemoveAgrees<K(!new), N(!new), V>(hash: K -> nat, norm: K -> N, bs: seq<seq<Entry<K, V>>>,
      m: map<N, V>, key: K)
    requires Sound(hash, norm, bs) && Agrees(hash, norm, bs, m) && norm(key) in m
    ensures Agrees(hash, norm, Dropped(hash, norm, bs, key), m - {norm(key)}) && |m - {norm(key)}| == |m| - 1
  {
    forall k ensures Lookup(hash, norm, Dropped(hash, norm, bs, key), k) == MapGet(m - {norm(key)}, norm(k)) {
      RemoveLooks(hash, norm, bs, key, k);
    }
    var m' := m - {norm(key)};
    assert m == m'[norm(key) := m[norm(key)]];
  }

  lemma {:induction false} PutAgrees<K(!new), N(!new), V>(hash: K -> nat, norm: K -> N, bs: seq<seq<Entry<K, V>>>,
      m: map<N, V>, e: Entry<K, V>)
    requires Sound(hash, norm, bs) && Agrees(hash, norm, bs, m)
    ensures Agrees(hash, norm, Prepended(hash, bs, e), m[norm(e.key) := e.value])
  {
    forall k ensures Lookup(hash, norm, Prepended(hash, bs, e), k) == MapGet(m[norm(e.key) := e.value], norm(k)) {
      PutLooks(hash, norm, bs, e, k);
    }
  }
}
