/**
 What a reader sees of a row, NULL bits included, once columns have come and gone: the source moves the values of a row
 when a column is added or removed, but not the bits of its NULL bitmap (src/primitive/column.c).
 */
module NullBits {
  import opened Wrappers
  import opened RowStore
  import opened ColumnSpec

  /** The columns of a row as they read: nothing where the NULL bit is set. */
  function Fields(r: Record): (f: seq<Option<Value>>)
    ensures |f| == |r.values|
    ensures forall j :: 0 <= j < |f| ==> f[j] == if j < |r.nulls| && r.nulls[j] then None else Some(r.values[j])
  {
    seq(|r.values|, j requires 0 <= j < |r.values| => if j < |r.nulls| && r.nulls[j] then None else Some(r.values[j]))
  }

  /** The bits from `pos` on are all alike, up to the last of `n` columns. */
  predicate AlikeFrom(nulls: seq<bool>, pos: nat, n: nat)
    requires n <= |nulls|
  {
    forall j :: pos <= j < n - 1 ==> nulls[j] == nulls[j + 1]
  }

  /** The columns that are left read what they read before if and only if the bits from the removed one on are all alike. */
  lemma {:induction false} RemovedExactly(r: Record, pos: nat)
    requires pos < |r.values| <= |r.nulls|
    ensures Fields(NarrowRecord(r, pos)) == Except(Fields(r), pos) <==> AlikeFrom(r.nulls, pos, |r.values|)
  {
    var f, g, n := Fields(NarrowRecord(r, pos)), Except(Fields(r), pos), |r.values|;
    assert |f| == |g| == n - 1;
    forall j | 0 <= j < n - 1
      ensures f[j] == g[j] <==> j < pos || r.nulls[j] == r.nulls[j + 1]
    {
      assert NarrowRecord(r, pos).values[j] == r.values[if j < pos then j else j + 1];
      assert g[j] == Fields(r)[if j < pos then j else j + 1];
    }
    if f != g {
      assert exists j :: 0 <= j < n - 1 && f[j] != g[j];
    } else {
      forall j | pos <= j < n - 1 ensures r.nulls[j] == r.nulls[j + 1] {
        assert f[j] == g[j];
      }
    }
  }

  /** A row with NULL and `v` reads NULL alone without its first column; one with `v` and NULL reads the value under the NULL. */
  lemma {:induction false} RemovedInput(v: Value, w: Value, more: seq<bool>)
    ensures var r := Record([true, false] + more, [w, v]); Fields(r) == [None, Some(v)] && Fields(NarrowRecord(r, 0)) == [None]
    ensures var r := Record([false, true] + more, [v, w]); Fields(r) == [Some(v), None] && Fields(NarrowRecord(r, 0)) == [Some(w)]
  {
    assert NarrowRecord(Record([true, false] + more, [w, v]), 0).values == [v];
    assert NarrowRecord(Record([false, true] + more, [v, w]), 0).values == [w];
  }

  /** A new column has nothing in rows that were there before; it reads so if and only if its bit happens to be set. */
  lemma {:induction false} AddedExactly(r: Record, c: Column)
    requires |r.values| < |r.nulls|
    ensures Fields(Record(r.nulls, r.values + [ZeroedValue(c)])) == Fields(r) + [None] <==> r.nulls[|r.values|]
  {
    var n := |r.values|;
    var f := Fields(Record(r.nulls, r.values + [ZeroedValue(c)]));
    assert f[..n] == Fields(r);
    assert f == f[..n] + [f[n]];
    assert (Fields(r) + [None])[n] == None;
  }

  // ---------------------------------------------------------------- many rows

  function Reads(rs: seq<Record>): (fs: seq<seq<Option<Value>>>)
    ensures |fs| == |rs| && forall k :: 0 <= k < |fs| ==> fs[k] == Fields(rs[k])
  {
    seq(|rs|, k requires 0 <= k < |rs| => Fields(rs[k]))
  }

  function WithoutColumn<T>(fs: seq<seq<T>>, pos: nat): (w: seq<seq<T>>)
    ensures |w| == |fs| && forall k :: 0 <= k < |fs| ==> w[k] == if pos < |fs[k]| then Except(fs[k], pos) else fs[k]
  {
    seq(|fs|, k requires 0 <= k < |fs| => if pos < |fs[k]| then Except(fs[k], pos) else fs[k])
  }

  function WithColumn<T>(fs: seq<seq<T>>, x: T): (w: seq<seq<T>>)
    ensures |w| == |fs| && forall k :: 0 <= k < |fs| ==> w[k] == fs[k] + [x]
  {
    seq(|fs|, k requires 0 <= k < |fs| => fs[k] + [x])
  }

  /** Rows with `n` values and room for as many bits. */
  ghost predicate Even(rs: seq<Record>, n: nat) {
    forall k :: 0 <= k < |rs| ==> |rs[k].values| == n <= |rs[k].nulls|
  }

  lemma {:induction false} AllRemovedExactly(rs: seq<Record>, pos: nat, n: nat)
    requires Even(rs, n) && pos < n
    ensures Reads(NarrowRecords(rs, pos)) == WithoutColumn(Reads(rs), pos)
            <==> forall k :: 0 <= k < |rs| ==> AlikeFrom(rs[k].nulls, pos, n)
  {
    var f, g := Reads(NarrowRecords(rs, pos)), WithoutColumn(Reads(rs), pos);
    forall k | 0 <= k < |rs| ensures f[k] == g[k] <==> AlikeFrom(rs[k].nulls, pos, n) {
      RemovedExactly(rs[k], pos);
    }
    if f == g {
      assert forall k :: 0 <= k < |rs| ==> f[k] == g[k];
    }
  }

  lemma {:induction false} AllAddedExactly(rs: seq<Record>, c: Column, n: nat)
    requires Even(rs, n) && forall k :: 0 <= k < |rs| ==> n < |rs[k].nulls|
    ensures Reads(WideRecords(rs, c)) == WithColumn(Reads(rs), None) <==> forall k :: 0 <= k < |rs| ==> rs[k].nulls[n]
  {
    var f, g := Reads(WideRecords(rs, c)), WithColumn(Reads(rs), None);
    forall k | 0 <= k < |rs| ensures f[k] == g[k] <==> rs[k].nulls[n] {
      AddedExactly(rs[k], c);
    }
    if f == g {
      assert forall k :: 0 <= k < |rs| ==> f[k] == g[k];
    }
  }

  // ---------------------------------------------------------------- several columns at once

  /** What stands, from `k` on, at the columns with these names. */
  function Picked<T>(s: seq<T>, cs: seq<Column>, names: seq<string>, k: nat): seq<T>
    requires k <= |s| == |cs|
    decreases |s| - k
  {
    if k == |s| then []
    else if cs[k].name in names then [s[k]] + Picked(s, cs, names, k + 1)
    else Picked(s, cs, names, k + 1)
  }

  /** Where those columns are. */
  function Places(cs: seq<Column>, names: seq<string>, k: nat): (at: seq<nat>)
    requires k <= |cs|
    ensures |at| <= |cs| - k && forall i :: 0 <= i < |at| ==> k <= at[i] < |cs|
    decreases |cs| - k
  {
    if k == |cs| then []
    else if cs[k].name in names then [k] + Places(cs, names, k + 1)
    else Places(cs, names, k + 1)
  }

  lemma {:induction false} PickedPlaces<T>(s: seq<T>, cs: seq<Column>, names: seq<string>, k: nat)
    requires k <= |s| == |cs|
    ensures |Picked(s, cs, names, k)| == |Places(cs, names, k)|
    ensures forall i :: 0 <= i < |Places(cs, names, k)| ==> Picked(s, cs, names, k)[i] == s[Places(cs, names, k)[i]]
    decreases |s| - k
  {
    if k < |s| {
      PickedPlaces(s, cs, names, k + 1);
    }
  }

  /** A row of which the other columns have been taken out one after the other. */
  function PickedRecord(r: Record, cs: seq<Column>, names: seq<string>): Record
    requires |r.values| == |cs|
  {
    Record(r.nulls, Picked(r.values, cs, names, 0))
  }

  /** Every place that a column has come to has the bit of the one it came from. */
  predicate BitsMeet(nulls: seq<bool>, places: seq<nat>) {
    forall i :: 0 <= i < |places| && i < |nulls| && places[i] < |nulls| ==> nulls[i] == nulls[places[i]]
  }

  /** The columns picked read what they read before if and only if each has come to a place with the bit of its own. */
  lemma {:induction false} PickedExactly(r: Record, cs: seq<Column>, names: seq<string>)
    requires |r.values| == |cs| <= |r.nulls|
    ensures Fields(PickedRecord(r, cs, names)) == Picked(Fields(r), cs, names, 0) <==> BitsMeet(r.nulls, Places(cs, names, 0))
  {
    var f, g, at := Fields(PickedRecord(r, cs, names)), Picked(Fields(r), cs, names, 0), Places(cs, names, 0);
    PickedPlaces(r.values, cs, names, 0);
    PickedPlaces(Fields(r), cs, names, 0);
    forall i | 0 <= i < |at| ensures f[i] == g[i] <==> r.nulls[i] == r.nulls[at[i]] {
      assert g[i] == Fields(r)[at[i]] && PickedRecord(r, cs, names).values[i] == r.values[at[i]];
    }
    if f == g {
      assert forall i :: 0 <= i < |at| ==> f[i] == g[i];
    }
  }

  /** Columns that are the first ones stay where they were. */
  lemma {:induction false} FirstStay(cs: seq<Column>, names: seq<string>, n: nat, k: nat)
    requires k <= n <= |cs| && forall i :: 0 <= i < |cs| ==> (cs[i].name in names <==> i < n)
    ensures |Places(cs, names, k)| == n - k && forall i :: 0 <= i < n - k ==> Places(cs, names, k)[i] == k + i
    decreases n - k
  {
    if k < n {
      FirstStay(cs, names, n, k + 1);
    } else {
      NoneStay(cs, names, k);
    }
  }

  lemma {:induction false} NoneStay(cs: seq<Column>, names: seq<string>, k: nat)
    requires k <= |cs| && forall i :: k <= i < |cs| ==> cs[i].name !in names
    ensures Places(cs, names, k) == []
    decreases |cs| - k
  {
    if k < |cs| {
      NoneStay(cs, names, k + 1);
    }
  }

  lemma {:induction false} PickedFirst<T>(s: seq<T>, cs: seq<Column>, names: seq<string>, n: nat)
    requires |s| == |cs| && n <= |cs| && forall i :: 0 <= i < |cs| ==> (cs[i].name in names <==> i < n)
    ensures Picked(s, cs, names, 0) == s[..n]
  {
    FirstStay(cs, names, n, 0);
    PickedPlaces(s, cs, names, 0);
  }

  /** So picking the first columns is always right. */
  lemma {:induction false} FirstColumnsRight(r: Record, cs: seq<Column>, names: seq<string>, n: nat)
    requires |r.values| == |cs| <= |r.nulls| && n <= |cs|
    requires forall i :: 0 <= i < |cs| ==> (cs[i].name in names <==> i < n)
    ensures Fields(PickedRecord(r, cs, names)) == Fields(r)[..n]
  {
    PickedFirst(r.values, cs, names, n);
  }

  /** Columns that are all kept from `k` up to `p`. */
  lemma {:induction false} PickedBetween<T>(s: seq<T>, cs: seq<Column>, names: seq<string>, k: nat, p: nat)
    requires k <= p <= |s| == |cs| && forall i :: k <= i < p ==> cs[i].name in names
    ensures Picked(s, cs, names, k) == s[k..p] + Picked(s, cs, names, p)
    decreases p - k
  {
    if k < p {
      var rest := Picked(s, cs, names, p);
      PickedBetween(s, cs, names, k + 1, p);
      assert s[k..p] == [s[k]] + s[k + 1..p];
      assert [s[k]] + (s[k + 1..p] + rest) == ([s[k]] + s[k + 1..p]) + rest;
    }
  }

  /** Taking out column `q`, the last one before `p` that is not picked. */
  lemma {:induction false} TakenOut<T>(s: seq<T>, cs: seq<Column>, names: seq<string>, q: nat, p: nat)
    requires q < p <= |s| == |cs| && cs[q].name !in names && forall i :: q < i < p ==> cs[i].name in names
    ensures Except(s[..p] + Picked(s, cs, names, p), q) == s[..q] + Picked(s, cs, names, q)
  {
    var rest := Picked(s, cs, names, p);
    PickedBetween(s, cs, names, q + 1, p);
    assert s[..p] + rest == s[..q] + [s[q]] + (s[q + 1..p] + rest);
    MiddleOut(s[..q], s[q], s[q + 1..p] + rest);
  }

  lemma {:induction false} MiddleOut<T>(a: seq<T>, x: T, b: seq<T>)
    ensures Except(a + [x] + b, |a|) == a + b
  {}

  /** Rows of which everything from `p` on has been picked. */
  function PartlyPicked(rs: seq<Record>, cs: seq<Column>, names: seq<string>, p: nat): (w: seq<Record>)
    requires p <= |cs|
    ensures |w| == |rs|
    ensures forall k :: 0 <= k < |rs| && |rs[k].values| == |cs| ==>
              w[k] == Record(rs[k].nulls, rs[k].values[..p] + Picked(rs[k].values, cs, names, p))
  {
    seq(|rs|, k requires 0 <= k < |rs| =>
      if |rs[k].values| == |cs| then Record(rs[k].nulls, rs[k].values[..p] + Picked(rs[k].values, cs, names, p)) else rs[k])
  }

  lemma {:induction false} RowsTakenOut(rs: seq<Record>, cs: seq<Column>, names: seq<string>, q: nat, p: nat)
    requires forall k :: 0 <= k < |rs| ==> |rs[k].values| == |cs|
    requires q < p <= |cs| && cs[q].name !in names && forall i :: q < i < p ==> cs[i].name in names
    ensures NarrowRecords(PartlyPicked(rs, cs, names, p), q) == PartlyPicked(rs, cs, names, q)
  {
    forall k | 0 <= k < |rs| ensures NarrowRecord(PartlyPicked(rs, cs, names, p)[k], q) == PartlyPicked(rs, cs, names, q)[k] {
      TakenOut(rs[k].values, cs, names, q, p);
    }
  }

  /** Rows with the columns picked. */
  function PickedRecords(rs: seq<Record>, cs: seq<Column>, names: seq<string>): (w: seq<Record>)
    requires forall k :: 0 <= k < |rs| ==> |rs[k].values| == |cs|
    ensures |w| == |rs| && forall k :: 0 <= k < |rs| ==> w[k] == PickedRecord(rs[k], cs, names)
  {
    seq(|rs|, k requires 0 <= k < |rs| => PickedRecord(rs[k], cs, names))
  }

  lemma {:induction false} AllPicked(rs: seq<Record>, cs: seq<Column>, names: seq<string>, p: nat)
    requires forall k :: 0 <= k < |rs| ==> |rs[k].values| == |cs|
    requires p <= |cs| && forall i :: 0 <= i < p ==> cs[i].name in names
    ensures PartlyPicked(rs, cs, names, p) == PickedRecords(rs, cs, names)
    ensures cs[..p] + Picked(cs, cs, names, p) == Picked(cs, cs, names, 0)
  {
    PickedBetween(cs, cs, names, 0, p);
    forall k | 0 <= k < |rs| ensures PartlyPicked(rs, cs, names, p)[k] == PickedRecords(rs, cs, names)[k] {
      PickedBetween(rs[k].values, cs, names, 0, p);
    }
  }

  lemma {:induction false} NothingPicked(rs: seq<Record>, cs: seq<Column>, names: seq<string>)
    requires forall k :: 0 <= k < |rs| ==> |rs[k].values| == |cs|
    ensures PartlyPicked(rs, cs, names, |cs|) == rs
  {
    forall k | 0 <= k < |rs| ensures PartlyPicked(rs, cs, names, |cs|)[k] == rs[k] {
      assert rs[k].values[..|cs|] + [] == rs[k].values;
    }
  }

  /** Rows `ws` read what the columns picked of the rows `rs` read. */
  ghost predicate ReadsAsPicked(ws: seq<Record>, rs: seq<Record>, cs: seq<Column>, names: seq<string>)
    requires Even(rs, |cs|)
  {
    |ws| == |rs| && forall k :: 0 <= k < |rs| ==> Fields(ws[k]) == Picked(Fields(rs[k]), cs, names, 0)
  }

  /** All rows read at the columns picked what they read before if and only if each has its bits where they are needed. */
  lemma {:induction false} AllPickedExactly(rs: seq<Record>, cs: seq<Column>, names: seq<string>)
    requires Even(rs, |cs|)
    ensures ReadsAsPicked(PickedRecords(rs, cs, names), rs, cs, names)
            <==> forall k :: 0 <= k < |rs| ==> BitsMeet(rs[k].nulls, Places(cs, names, 0))
  {
    forall k | 0 <= k < |rs|
      ensures Fields(PickedRecords(rs, cs, names)[k]) == Picked(Fields(rs[k]), cs, names, 0)
              <==> BitsMeet(rs[k].nulls, Places(cs, names, 0))
    {
      PickedExactly(rs[k], cs, names);
    }
  }
}
