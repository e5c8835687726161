/**
 Collapsing rows with equal keys, and exactly when one row is left that counts its group
 (src/engine/executor_select.c:1465-1588).
 */
module GroupSpec {
  import opened Ints
  import opened Wrappers
  import opened RowStore

  // ---------------------------------------------------------------- groups in a list of keys

  /** A list of keys; None where there is no row to group. Beside it stands the slot that each has in its page. */
  type Keys<K> = seq<Option<K>>

  /** One of the first `n` rows has the key of row `k` and stands in a smaller slot. */
  ghost predicate Under<K(!new)>(ks: Keys<K>, sl: seq<nat>, n: nat, k: nat)
    requires |sl| == |ks| && n <= |ks| && k < |ks|
  {
    exists q :: 0 <= q < n && ks[q] == ks[k] && sl[q] < sl[k]
  }

  /** No row of the key of row `k` stands in a smaller slot. */
  ghost predicate Lowest<K(!new)>(ks: Keys<K>, sl: seq<nat>, k: nat)
    requires |sl| == |ks| && k < |ks|
  {
    ks[k].Some? && !Under(ks, sl, |ks|, k)
  }

  /** When its turn has come, row `i` takes in row `q`. */
  ghost predicate Takes<K(!new)>(ks: Keys<K>, sl: seq<nat>, i: nat, q: nat)
    requires |sl| == |ks| && i < |ks| && q < |ks|
  {
    ks[q] == ks[i] && sl[i] < sl[q] && !Under(ks, sl, i, q)
  }

  /** How many of the first `n` rows it takes in. */
  ghost function Taken<K(!new)>(ks: Keys<K>, sl: seq<nat>, i: nat, n: nat): nat
    requires |sl| == |ks| && i < |ks| && n <= |ks|
  {
    if n == 0 then 0 else Taken(ks, sl, i, n - 1) + if Takes(ks, sl, i, n - 1) then 1 else 0
  }

  /** How many of the first `n` rows have the key of row `k`. */
  ghost function Members<K(!new)>(ks: Keys<K>, k: nat, n: nat): nat
    requires k < |ks| && n <= |ks|
  {
    if n == 0 then 0 else Members(ks, k, n - 1) + if ks[n - 1] == ks[k] then 1 else 0
  }

  /** Every other row of its key stands in a greater slot and is not taken in by a row before `k`. */
  ghost predicate Clear<K(!new)>(ks: Keys<K>, sl: seq<nat>, k: nat)
    requires |sl| == |ks| && k < |ks|
  {
    forall q :: 0 <= q < |ks| && q != k && ks[q] == ks[k] ==> sl[k] < sl[q] && !Under(ks, sl, k, q)
  }

  lemma {:induction false} UnderStep<K(!new)>(ks: Keys<K>, sl: seq<nat>, n: nat, k: nat)
    requires |sl| == |ks| && n < |ks| && k < |ks|
    ensures Under(ks, sl, n + 1, k) <==> Under(ks, sl, n, k) || (ks[n] == ks[k] && sl[n] < sl[k])
  {}

  lemma {:induction false} TakenMembers<K(!new)>(ks: Keys<K>, sl: seq<nat>, k: nat, n: nat)
    requires |sl| == |ks| && k < |ks| && n <= |ks|
    ensures Taken(ks, sl, k, n) + (if k < n then 1 else 0) <= Members(ks, k, n)
    ensures Taken(ks, sl, k, n) + (if k < n then 1 else 0) == Members(ks, k, n)
            <==> forall q :: 0 <= q < n && q != k && ks[q] == ks[k] ==> Takes(ks, sl, k, q)
  {
    if n > 0 {
      TakenMembers(ks, sl, k, n - 1);
      assert !Takes(ks, sl, k, k);
    }
  }

  /** A row counts its whole group, and is the only one left of it, exactly when nothing stands in its way. */
  lemma {:induction false} GroupExactly<K(!new)>(ks: Keys<K>, sl: seq<nat>, k: nat)
    requires |sl| == |ks| && k < |ks| && Lowest(ks, sl, k)
    ensures 1 + Taken(ks, sl, k, |ks|) == Members(ks, k, |ks|) <==> Clear(ks, sl, k)
    ensures Clear(ks, sl, k) ==> forall l :: 0 <= l < |ks| && Lowest(ks, sl, l) && ks[l] == ks[k] ==> l == k
  {
    TakenMembers(ks, sl, k, |ks|);
    if Clear(ks, sl, k) {
      forall q | 0 <= q < |ks| && q != k && ks[q] == ks[k] ensures Takes(ks, sl, k, q) {}
      forall l | 0 <= l < |ks| && l != k && ks[l] == ks[k] ensures !Lowest(ks, sl, l) {
        assert sl[k] < sl[l];
      }
    } else {
      var q :| 0 <= q < |ks| && q != k && ks[q] == ks[k] && !(sl[k] < sl[q] && !Under(ks, sl, k, q));
      assert !Takes(ks, sl, k, q);
    }
  }

  /** Two rows of one key in the same slot of two pages are never brought together. */
  lemma {:induction false} SameSlotStays<K(!new)>(ks: Keys<K>, sl: seq<nat>, k: nat, l: nat)
    requires |sl| == |ks| && k < |ks| && l < |ks| && ks[k] == ks[l] && sl[k] == sl[l]
    ensures Lowest(ks, sl, k) <==> Lowest(ks, sl, l)
  {}

  /** What a row has taken in is not passed on: of three rows of one key, the last of them the lowest, one goes uncounted. */
  lemma {:induction false} CountLost<K(!new)>(x: K, y: K)
    requires x != y
    ensures var ks, sl := [Some(y), Some(x), Some(x), Some(x)], [0, 1, 2, 0];
            && Lowest(ks, sl, 3) && !Lowest(ks, sl, 1) && !Lowest(ks, sl, 2)
            && 1 + Taken(ks, sl, 3, 4) == 2 && Members(ks, 3, 4) == 3
  {
    var ks, sl: seq<nat> := [Some(y), Some(x), Some(x), Some(x)], [0, 1, 2, 0];
    assert ks[0] == Some(y) && ks[1] == ks[2] == ks[3] == Some(x) && sl[0] == 0 && sl[1] == 1 && sl[2] == 2 && sl[3] == 0;
    assert Under(ks, sl, 4, 1) && Under(ks, sl, 4, 2) && Under(ks, sl, 3, 2) by {
      assert ks[3] == ks[1] && sl[3] < sl[1] && ks[3] == ks[2] && sl[3] < sl[2] && ks[1] == ks[2] && sl[1] < sl[2];
    }
    TakenOfFour(ks, sl);
    MembersOfFour(ks);
  }

  lemma {:induction false} MembersOfFour<K(!new)>(ks: Keys<K>)
    requires |ks| == 4 && ks[0] != ks[1] == ks[2] == ks[3]
    ensures Members(ks, 3, 4) == 3
  {
    assert Members(ks, 3, 1) == 0;
    assert Members(ks, 3, 2) == 1;
    assert Members(ks, 3, 3) == 2;
  }

  lemma {:induction false} TakenOfFour<K(!new)>(ks: Keys<K>, sl: seq<nat>)
    requires |ks| == |sl| == 4 && ks[0] != ks[1] == ks[2] == ks[3] && sl[1] == 1 && sl[2] == 2 && sl[3] == 0 && Under(ks, sl, 3, 2)
    ensures Taken(ks, sl, 3, 4) == 1
  {
    assert !Takes(ks, sl, 3, 0) && Takes(ks, sl, 3, 1) && !Takes(ks, sl, 3, 2) && !Takes(ks, sl, 3, 3);
    assert Taken(ks, sl, 3, 1) == 0;
    assert Taken(ks, sl, 3, 2) == 1;
    assert Taken(ks, sl, 3, 3) == 1;
  }

  // ---------------------------------------------------------------- sums over groups

  /** The groups of the lowest rows before `m`, as far as they lie before `n`. */
  ghost function SumTo<K(!new)>(ks: Keys<K>, sl: seq<nat>, m: nat, n: nat): nat
    requires |sl| == |ks| && m <= |ks| && n <= |ks|
  {
    if m == 0 then 0 else SumTo(ks, sl, m - 1, n) + if Lowest(ks, sl, m - 1) then Members(ks, m - 1, n) else 0
  }

  ghost function RowsTo<K>(ks: Keys<K>, n: nat): nat
    requires n <= |ks|
  {
    if n == 0 then 0 else RowsTo(ks, n - 1) + if ks[n - 1].Some? then 1 else 0
  }

  /** All groups are collapsed to one row that counts them. */
  ghost predicate AllClear<K(!new)>(ks: Keys<K>, sl: seq<nat>)
    requires |sl| == |ks|
  {
    forall k :: 0 <= k < |ks| && Lowest(ks, sl, k) ==> Clear(ks, sl, k)
  }

  /** Some row of every key is the lowest. */
  lemma {:induction false} SomeLowest<K(!new)>(ks: Keys<K>, sl: seq<nat>, k: nat) returns (l: nat)
    requires |sl| == |ks| && k < |ks| && ks[k].Some?
    ensures l < |ks| && ks[l] == ks[k] && Lowest(ks, sl, l)
    decreases sl[k]
  {
    if Under(ks, sl, |ks|, k) {
      var q :| 0 <= q < |ks| && ks[q] == ks[k] && sl[q] < sl[k];
      l := SomeLowest(ks, sl, q);
    } else {
      l := k;
    }
  }

  /** One more row adds one to the group it belongs to, if that group's lowest row `l` is among the first `m`. */
  lemma {:induction false} SumStep<K(!new)>(ks: Keys<K>, sl: seq<nat>, m: nat, n: nat, l: nat)
    requires |sl| == |ks| && m <= |ks| && n < |ks| && AllClear(ks, sl)
    requires ks[n].Some? ==> l < |ks| && ks[l] == ks[n] && Lowest(ks, sl, l)
    ensures SumTo(ks, sl, m, n + 1) == SumTo(ks, sl, m, n) + if ks[n].Some? && l < m then 1 else 0
  {
    if m > 0 {
      SumStep(ks, sl, m - 1, n, l);
      if Lowest(ks, sl, m - 1) && ks[m - 1] == ks[n] {
        GroupExactly(ks, sl, m - 1);
      }
    }
  }

  lemma {:induction false} SumNone<K(!new)>(ks: Keys<K>, sl: seq<nat>, m: nat)
    requires |sl| == |ks| && m <= |ks|
    ensures SumTo(ks, sl, m, 0) == 0
  {
    if m > 0 {
      SumNone(ks, sl, m - 1);
    }
  }

  /** Then every row is counted in exactly one group. */
  lemma {:induction false} GroupsAddUp<K(!new)>(ks: Keys<K>, sl: seq<nat>, n: nat)
    requires |sl| == |ks| && n <= |ks| && AllClear(ks, sl)
    ensures SumTo(ks, sl, |ks|, n) == RowsTo(ks, n)
  {
    if n == 0 {
      SumNone(ks, sl, |ks|);
    } else {
      GroupsAddUp(ks, sl, n - 1);
      var l := 0;
      if ks[n - 1].Some? {
        l := SomeLowest(ks, sl, n - 1);
      }
      SumStep(ks, sl, |ks|, n - 1, l);
    }
  }

  /** In a single page nothing ever stands in the way. */
  lemma {:induction false} OnePageClear<K(!new)>(ks: Keys<K>, sl: seq<nat>)
    requires |sl| == |ks| && forall k :: 0 <= k < |ks| ==> sl[k] == k
    ensures AllClear(ks, sl)
  {
    forall k | 0 <= k < |ks| && Lowest(ks, sl, k) ensures Clear(ks, sl, k) {
      assert forall i :: 0 <= i < k ==> sl[i] < sl[k] && ks[i] != ks[k];
    }
  }

  // ---------------------------------------------------------------- what is counted and what is lost

  /** The row is still there when its turn comes. */
  ghost predicate Turns<K(!new)>(ks: Keys<K>, sl: seq<nat>, k: nat)
    requires |sl| == |ks| && k < |ks|
  {
    ks[k].Some? && !Under(ks, sl, k, k)
  }

  /** How many of the first `n` rows have been taken in when the first `m` have had their turn. */
  ghost function UnderTo<K(!new)>(ks: Keys<K>, sl: seq<nat>, m: nat, n: nat): nat
    requires |sl| == |ks| && m <= |ks| && n <= |ks|
  {
    if n == 0 then 0 else UnderTo(ks, sl, m, n - 1) + if ks[n - 1].Some? && Under(ks, sl, m, n - 1) then 1 else 0
  }

  /** A turn takes in the rows that have not been taken in before, and nothing else does. */
  lemma {:induction false} TurnTakes<K(!new)>(ks: Keys<K>, sl: seq<nat>, m: nat, n: nat)
    requires |sl| == |ks| && m < |ks| && n <= |ks|
    ensures UnderTo(ks, sl, m + 1, n) == UnderTo(ks, sl, m, n) + if Turns(ks, sl, m) then Taken(ks, sl, m, n) else 0
  {
    if n > 0 {
      TurnTakes(ks, sl, m, n - 1);
      UnderStep(ks, sl, m, n - 1);
      if ks[m].Some? && ks[n - 1] == ks[m] && Under(ks, sl, m, m) && sl[m] < sl[n - 1] {
        var i :| 0 <= i < m && ks[i] == ks[m] && sl[i] < sl[m];
        assert Under(ks, sl, m, n - 1);
      }
    }
  }

  lemma {:induction false} NoneUnder<K(!new)>(ks: Keys<K>, sl: seq<nat>, n: nat)
    requires |sl| == |ks| && n <= |ks|
    ensures UnderTo(ks, sl, 0, n) == 0
  {
    if n > 0 {
      NoneUnder(ks, sl, n - 1);
    }
  }

  /** What the lowest of the first `m` rows count. */
  ghost function KeptTo<K(!new)>(ks: Keys<K>, sl: seq<nat>, m: nat): nat
    requires |sl| == |ks| && m <= |ks|
  {
    if m == 0 then 0 else KeptTo(ks, sl, m - 1) + if Lowest(ks, sl, m - 1) then 1 + Taken(ks, sl, m - 1, |ks|) else 0
  }

  /** What those of the first `m` rows had taken in that have been taken in themselves. */
  ghost function LostTo<K(!new)>(ks: Keys<K>, sl: seq<nat>, m: nat): nat
    requires |sl| == |ks| && m <= |ks|
  {
    if m == 0 then 0 else
      LostTo(ks, sl, m - 1) + if Turns(ks, sl, m - 1) && !Lowest(ks, sl, m - 1) then Taken(ks, sl, m - 1, |ks|) else 0
  }

  /** How many of the first `n` rows are the lowest of their keys. */
  ghost function LowestTo<K(!new)>(ks: Keys<K>, sl: seq<nat>, n: nat): nat
    requires |sl| == |ks| && n <= |ks|
  {
    if n == 0 then 0 else LowestTo(ks, sl, n - 1) + if Lowest(ks, sl, n - 1) then 1 else 0
  }

  lemma {:induction false} LowestOrUnder<K(!new)>(ks: Keys<K>, sl: seq<nat>, n: nat)
    requires |sl| == |ks| && n <= |ks|
    ensures LowestTo(ks, sl, n) + UnderTo(ks, sl, |ks|, n) == RowsTo(ks, n)
  {
    if n > 0 {
      LowestOrUnder(ks, sl, n - 1);
    }
  }

  lemma {:induction false} KeptOrLost<K(!new)>(ks: Keys<K>, sl: seq<nat>, m: nat)
    requires |sl| == |ks| && m <= |ks|
    ensures KeptTo(ks, sl, m) + LostTo(ks, sl, m) == LowestTo(ks, sl, m) + UnderTo(ks, sl, m, |ks|)
  {
    if m == 0 {
      NoneUnder(ks, sl, |ks|);
    } else {
      KeptOrLost(ks, sl, m - 1);
      TurnTakes(ks, sl, m - 1, |ks|);
      assert Under(ks, sl, m - 1, m - 1) ==> Under(ks, sl, |ks|, m - 1);
    }
  }

  /** A row that has taken another in is never taken in itself. */
  ghost predicate NoneLost<K(!new)>(ks: Keys<K>, sl: seq<nat>)
    requires |sl| == |ks|
  {
    forall k :: 0 <= k < |ks| && Turns(ks, sl, k) && Taken(ks, sl, k, |ks|) > 0 ==> Lowest(ks, sl, k)
  }

  lemma {:induction false} LostExactly<K(!new)>(ks: Keys<K>, sl: seq<nat>, m: nat)
    requires |sl| == |ks| && m <= |ks|
    ensures LostTo(ks, sl, m) == 0
            <==> forall k :: 0 <= k < m && Turns(ks, sl, k) && Taken(ks, sl, k, |ks|) > 0 ==> Lowest(ks, sl, k)
  {
    if m > 0 {
      LostExactly(ks, sl, m - 1);
    }
  }

  /** What the lowest rows count and what is lost are together all rows; they count all if and only if none is lost. */
  lemma {:induction false} KeptExactly<K(!new)>(ks: Keys<K>, sl: seq<nat>)
    requires |sl| == |ks|
    ensures KeptTo(ks, sl, |ks|) + LostTo(ks, sl, |ks|) == RowsTo(ks, |ks|)
    ensures KeptTo(ks, sl, |ks|) == RowsTo(ks, |ks|) <==> NoneLost(ks, sl)
  {
    KeptOrLost(ks, sl, |ks|);
    LowestOrUnder(ks, sl, |ks|);
    LostExactly(ks, sl, |ks|);
  }

  lemma {:induction false} SomeTaken<K(!new)>(ks: Keys<K>, sl: seq<nat>, k: nat, n: nat) returns (q: nat)
    requires |sl| == |ks| && k < |ks| && n <= |ks| && Taken(ks, sl, k, n) > 0
    ensures q < n && Takes(ks, sl, k, q)
  {
    if Takes(ks, sl, k, n - 1) {
      q := n - 1;
    } else {
      q := SomeTaken(ks, sl, k, n - 1);
    }
  }

  lemma {:induction false} OnlyLowestTakes<K(!new)>(ks: Keys<K>, sl: seq<nat>, l: nat, k: nat, q: nat)
    requires |sl| == |ks| && l < |ks| && k < |ks| && q < |ks| && ks[l] == ks[k] && Takes(ks, sl, k, q)
    ensures Clear(ks, sl, l) ==> k == l
  {
    assert k < l ==> Under(ks, sl, l, q);
  }

  /** Where every group ends as one row that counts it, none is lost. */
  lemma {:induction false} ClearLosesNone<K(!new)>(ks: Keys<K>, sl: seq<nat>)
    requires |sl| == |ks| && AllClear(ks, sl)
    ensures NoneLost(ks, sl)
  {
    forall k | 0 <= k < |ks| && Turns(ks, sl, k) && Taken(ks, sl, k, |ks|) > 0 ensures Lowest(ks, sl, k) {
      var q := SomeTaken(ks, sl, k, |ks|);
      var l := SomeLowest(ks, sl, k);
      OnlyLowestTakes(ks, sl, l, k, q);
    }
  }

  // ---------------------------------------------------------------- keys of rows

  datatype Key = NullKey | IntKey(n: int)

  /** An integer as the comparison sees it: a 64-bit difference cut to 32 bits is zero modulo 2^32. */
  function KeyOf(r: Row, ci: nat): Key
    requires Keyed(r, ci)
  {
    if r.nulls[ci] then NullKey else IntKey(r.cells[ci].num % TWO32)
  }

  predicate Keyed(r: Row, ci: nat) {
    ci < |r.nulls| && ci < |r.cells| && r.cells[ci].Num?
  }

  /** cmp_rows_col_mattbl on an INTEGER column: zero, or how the first row compares. */
  function CompareKeys(a: Row, b: Row, ci: nat): int
    requires Keyed(a, ci) && Keyed(b, ci)
  {
    if a.nulls[ci] && b.nulls[ci] then 0
    else if a.nulls[ci] then -1
    else if b.nulls[ci] then 1
    else Wrap32(a.cells[ci].num - b.cells[ci].num)
  }

  /** The comparison is zero exactly on equal keys. */
  lemma {:induction false} ZeroIsEqual(a: Row, b: Row, ci: nat)
    requires Keyed(a, ci) && Keyed(b, ci)
    ensures CompareKeys(a, b, ci) == 0 <==> KeyOf(a, ci) == KeyOf(b, ci)
  {}

  /** On 32-bit values keys are equal exactly when the values are, NULL being equal to NULL. */
  lemma {:induction false} KeysAreValues(a: Row, b: Row, ci: nat)
    requires Keyed(a, ci) && Keyed(b, ci) && Fits32(a.cells[ci].num) && Fits32(b.cells[ci].num)
    ensures KeyOf(a, ci) == KeyOf(b, ci)
            <==> a.nulls[ci] == b.nulls[ci] && (!a.nulls[ci] ==> a.cells[ci].num == b.cells[ci].num)
  {}

  /** Beyond them they need not be: rows that differ by 2^32 fall into one group. */
  lemma {:induction false} WideKeysMeet(a: Row, b: Row, ci: nat)
    requires Keyed(a, ci) && Keyed(b, ci) && !a.nulls[ci] && !b.nulls[ci]
    requires b.cells[ci].num == a.cells[ci].num + TWO32
    ensures CompareKeys(a, b, ci) == 0
  {}

  /** The keys of a list of rows, one by one. */
  ghost function KeysOf(p: seq<Row>, ci: nat): (ks: Keys<Key>)
    requires AllKeyed(p, ci)
    ensures |ks| == |p| && forall k :: 0 <= k < |p| ==> ks[k] == KeyAt(p, ci, k)
  {
    seq(|p|, k requires 0 <= k < |p| => KeyAt(p, ci, k))
  }

  ghost function KeyAt(p: seq<Row>, ci: nat, k: nat): Option<Key>
    requires AllKeyed(p, ci) && k < |p|
  {
    if IsLive(p[k]) then Some(KeyOf(p[k], ci)) else None
  }

  ghost predicate AllKeyed(p: seq<Row>, ci: nat) {
    forall k :: 0 <= k < |p| && !p[k].empty ==> Keyed(p[k], ci)
  }

  // ---------------------------------------------------------------- counting columns

  /** A row with `n` added to each COUNT column. */
  function AddCounts(r: Row, cs: seq<Column>, n: int): (s: Row)
    requires |r.cells| == |cs| && forall j :: 0 <= j < |cs| && cs[j].isCount ==> r.cells[j].Num?
    ensures |s.cells| == |cs| && s == r.(cells := s.cells)
    ensures forall j :: 0 <= j < |cs| ==> s.cells[j] == if cs[j].isCount then Num(r.cells[j].num + n) else r.cells[j]
  {
    r.(cells := seq(|cs|, j requires 0 <= j < |cs| => if cs[j].isCount then Num(r.cells[j].num + n) else r.cells[j]))
  }

  // ---------------------------------------------------------------- the collapsed rows

  ghost predicate Countable(p: seq<Row>, cs: seq<Column>, ci: nat) {
    && ci < |cs| && !cs[ci].isCount && AllKeyed(p, ci)
    && forall k :: 0 <= k < |p| && !p[k].empty ==> CountRow(p[k], cs)
  }

  ghost predicate CountRow(r: Row, cs: seq<Column>) {
    |r.cells| == |cs| && forall j :: 0 <= j < |cs| && cs[j].isCount ==> r.cells[j].Num?
  }

  /**
   Row `k` once the rows before `m` have had their turn: what it took in added if it was still there, deleted if one took
   it in.
   */
  ghost function Stage(p: seq<Row>, sl: seq<nat>, cs: seq<Column>, ci: nat, k: nat, m: nat): Row
    requires Countable(p, cs, ci) && |sl| == |p| && k < |p| && m <= |p|
  {
    var ks := KeysOf(p, ci);
    if !IsLive(p[k]) then p[k] else
      var r := if k < m && !Under(ks, sl, k, k) then AddCounts(p[k], cs, Taken(ks, sl, k, |p|)) else p[k];
      if Under(ks, sl, m, k) then r.(deleted := true) else r
  }

  /** A row that is gone has nothing to take in. */
  lemma {:induction false} StageSkip(p: seq<Row>, sl: seq<nat>, cs: seq<Column>, ci: nat, i: nat, k: nat)
    requires Countable(p, cs, ci) && |sl| == |p| && i < |p| && k < |p| && !IsLive(Stage(p, sl, cs, ci, i, i))
    ensures Stage(p, sl, cs, ci, k, i + 1) == Stage(p, sl, cs, ci, k, i)
  {
    var ks := KeysOf(p, ci);
    UnderStep(ks, sl, i, k);
    if IsLive(p[i]) && ks[i] == ks[k] && sl[i] < sl[k] {
      assert Under(ks, sl, i, i);
      var q :| 0 <= q < i && ks[q] == ks[i] && sl[q] < sl[i];
      assert Under(ks, sl, i, k);
    }
  }

  /** When row `i` has its turn, another row that is still live goes exactly if it has the same key and a greater slot. */
  lemma {:induction false} StageHit(p: seq<Row>, sl: seq<nat>, cs: seq<Column>, ci: nat, i: nat, k: nat)
    requires Countable(p, cs, ci) && |sl| == |p| && i < |p| && k < |p| && k != i && IsLive(Stage(p, sl, cs, ci, i, i))
    ensures var ks := KeysOf(p, ci); var r := Stage(p, sl, cs, ci, k, i);
            && (IsLive(r) ==>
                  && IsLive(p[k]) && (Takes(ks, sl, i, k) <==> ks[i] == ks[k] && sl[i] < sl[k])
                  && Stage(p, sl, cs, ci, k, i + 1) == if Takes(ks, sl, i, k) then r.(deleted := true) else r)
            && (!IsLive(r) ==> Stage(p, sl, cs, ci, k, i + 1) == r && !Takes(ks, sl, i, k))
  {
    UnderStep(KeysOf(p, ci), sl, i, k);
  }

  /** A live row that has not been taken in is as it was. */
  lemma {:induction false} StageTurn(p: seq<Row>, sl: seq<nat>, cs: seq<Column>, ci: nat, i: nat)
    requires Countable(p, cs, ci) && |sl| == |p| && i < |p| && IsLive(Stage(p, sl, cs, ci, i, i))
    ensures IsLive(p[i]) && Stage(p, sl, cs, ci, i, i) == p[i] && !Under(KeysOf(p, ci), sl, i, i)
    ensures Stage(p, sl, cs, ci, i, i + 1) == AddCounts(p[i], cs, Taken(KeysOf(p, ci), sl, i, |p|))
  {
    UnderStep(KeysOf(p, ci), sl, i, i);
  }

  lemma {:induction false} AddNone(r: Row, cs: seq<Column>)
    requires CountRow(r, cs)
    ensures AddCounts(r, cs, 0) == r
  {
    assert AddCounts(r, cs, 0).cells == r.cells;
  }

  lemma {:induction false} AddTwice(r: Row, cs: seq<Column>, a: int, b: int)
    requires CountRow(r, cs)
    ensures AddCounts(AddCounts(r, cs, a), cs, b) == AddCounts(r, cs, a + b)
  {
    assert AddCounts(AddCounts(r, cs, a), cs, b).cells == AddCounts(r, cs, a + b).cells;
  }

  // ---------------------------------------------------------------- the steps of the loops

  /** While row `i` has its turn and has come to row `j`. */
  ghost function Between(p: seq<Row>, sl: seq<nat>, cs: seq<Column>, ci: nat, i: nat, j: nat, k: nat): Row
    requires Countable(p, cs, ci) && |sl| == |p| && i < |p| && j <= |p| && k < |p| && IsLive(p[i])
  {
    if k == i then AddCounts(p[i], cs, Taken(KeysOf(p, ci), sl, i, j))
    else Stage(p, sl, cs, ci, k, if k < j then i + 1 else i)
  }

  /** The rows `r` are at stage `m` of collapsing `p`. */
  ghost predicate AtStage(r: seq<Row>, p: seq<Row>, sl: seq<nat>, cs: seq<Column>, ci: nat, m: nat)
    requires Countable(p, cs, ci) && |sl| == |p| && m <= |p|
  {
    |r| == |p| && forall k :: 0 <= k < |p| ==> r[k] == Stage(p, sl, cs, ci, k, m)
  }

  ghost predicate Collecting(r: seq<Row>, p: seq<Row>, sl: seq<nat>, cs: seq<Column>, ci: nat, i: nat, j: nat)
    requires Countable(p, cs, ci) && |sl| == |p| && i < |p| && j <= |p|
  {
    && |r| == |p| && IsLive(p[i]) && IsLive(Stage(p, sl, cs, ci, i, i))
    && forall k :: 0 <= k < |p| ==> r[k] == Between(p, sl, cs, ci, i, j, k)
  }

  lemma {:induction false} StartCollecting(r: seq<Row>, p: seq<Row>, sl: seq<nat>, cs: seq<Column>, ci: nat, i: nat)
    requires Countable(p, cs, ci) && |sl| == |p| && i < |p| && AtStage(r, p, sl, cs, ci, i) && IsLive(r[i])
    ensures Collecting(r, p, sl, cs, ci, i, 0)
  {
    assert r[i] == Stage(p, sl, cs, ci, i, i);
    StageTurn(p, sl, cs, ci, i);
    AddNone(p[i], cs);
  }

  lemma {:induction false} EndCollecting(r: seq<Row>, p: seq<Row>, sl: seq<nat>, cs: seq<Column>, ci: nat, i: nat)
    requires Countable(p, cs, ci) && |sl| == |p| && i < |p| && Collecting(r, p, sl, cs, ci, i, |p|)
    ensures AtStage(r, p, sl, cs, ci, i + 1)
  {
    StageTurn(p, sl, cs, ci, i);
    forall k | 0 <= k < |p| ensures r[k] == Stage(p, sl, cs, ci, k, i + 1) {
      assert r[k] == Between(p, sl, cs, ci, i, |p|, k);
    }
  }

  /** A row that is gone, has another key or does not stand in a greater slot is passed by. */
  lemma {:induction false} PassBy(r: seq<Row>, p: seq<Row>, sl: seq<nat>, cs: seq<Column>, ci: nat, i: nat, j: nat)
    requires Countable(p, cs, ci) && |sl| == |p| && i < |p| && j < |p| && Collecting(r, p, sl, cs, ci, i, j)
    requires !IsLive(r[j]) || KeyAt(p, ci, i) != KeyAt(p, ci, j) || sl[j] <= sl[i]
    ensures Collecting(r, p, sl, cs, ci, i, j + 1)
  {
    assert r[j] == Between(p, sl, cs, ci, i, j, j);
    if j != i {
      StageHit(p, sl, cs, ci, i, j);
    }
    forall k | 0 <= k < |p| ensures r[k] == Between(p, sl, cs, ci, i, j + 1, k) {
      assert r[k] == Between(p, sl, cs, ci, i, j, k);
    }
  }

  lemma {:induction false} TakeIn(r: seq<Row>, p: seq<Row>, sl: seq<nat>, cs: seq<Column>, ci: nat, i: nat, j: nat)
    requires Countable(p, cs, ci) && |sl| == |p| && i < |p| && j < |p| && Collecting(r, p, sl, cs, ci, i, j)
    requires IsLive(r[j]) && KeyAt(p, ci, i) == KeyAt(p, ci, j) && sl[i] < sl[j]
    ensures CountRow(r[i], cs)
    ensures Collecting(r[j := r[j].(deleted := true)][i := AddCounts(r[i], cs, 1)], p, sl, cs, ci, i, j + 1)
  {
    StageHit(p, sl, cs, ci, i, j);
    assert r[j] == Between(p, sl, cs, ci, i, j, j);
    assert r[i] == Between(p, sl, cs, ci, i, j, i);
    AddTwice(p[i], cs, Taken(KeysOf(p, ci), sl, i, j), 1);
    var s := r[j := r[j].(deleted := true)][i := AddCounts(r[i], cs, 1)];
    forall k | 0 <= k < |p| ensures s[k] == Between(p, sl, cs, ci, i, j + 1, k) {
      assert r[k] == Between(p, sl, cs, ci, i, j, k);
    }
  }

  /** The rows the comparison looks at have the keys they had at the start. */
  lemma {:induction false} KeysStay(r: seq<Row>, p: seq<Row>, sl: seq<nat>, cs: seq<Column>, ci: nat, i: nat, j: nat)
    requires Countable(p, cs, ci) && |sl| == |p| && i < |p| && j < |p| && j != i && Collecting(r, p, sl, cs, ci, i, j)
    ensures r[j].empty == p[j].empty && CountRow(r[i], cs) && Keyed(r[i], ci) && KeyOf(r[i], ci) == KeyOf(p[i], ci)
    ensures IsLive(r[j]) ==> Keyed(r[j], ci) && IsLive(p[j]) && KeyOf(r[j], ci) == KeyOf(p[j], ci)
  {
    assert r[j] == Between(p, sl, cs, ci, i, j, j);
    assert r[i] == Between(p, sl, cs, ci, i, j, i);
  }

  /** inc_count_cols up to the update, which copies the row onto itself */
  method IncCountCols(r: Row, cs: seq<Column>) returns (s: Row)
    requires CountRow(r, cs)
    ensures s == AddCounts(r, cs, 1)
  {
    s := r;
    var j := 0;
    while j < |cs|
      invariant 0 <= j <= |cs| && s == r.(cells := s.cells) && |s.cells| == |cs|
      invariant forall k :: 0 <= k < |cs| ==> s.cells[k] == if k < j && cs[k].isCount then Num(r.cells[k].num + 1) else r.cells[k]
    {
      if cs[j].isCount {
        s := s.(cells := s.cells[j := Num(s.cells[j].num + 1)]);
      }
      j := j + 1;
    }
    assert s.cells == AddCounts(r, cs, 1).cells;
  }

  lemma {:induction false} StageNone(p: seq<Row>, sl: seq<nat>, cs: seq<Column>, ci: nat)
    requires Countable(p, cs, ci) && |sl| == |p|
    ensures AtStage(p, p, sl, cs, ci, 0)
  {}

  lemma {:induction false} SkipAll(r: seq<Row>, p: seq<Row>, sl: seq<nat>, cs: seq<Column>, ci: nat, i: nat)
    requires Countable(p, cs, ci) && |sl| == |p| && i < |p| && AtStage(r, p, sl, cs, ci, i) && !IsLive(r[i])
    ensures AtStage(r, p, sl, cs, ci, i + 1)
  {
    assert r[i] == Stage(p, sl, cs, ci, i, i);
    forall k | 0 <= k < |p| ensures r[k] == Stage(p, sl, cs, ci, k, i + 1) {
      StageSkip(p, sl, cs, ci, i, k);
    }
  }

  /** Rows that were never there have no turn. */
  lemma {:induction false} SkipRest(r: seq<Row>, p: seq<Row>, sl: seq<nat>, cs: seq<Column>, ci: nat, i: nat, n: nat)
    requires Countable(p, cs, ci) && |sl| == |p| && i <= n <= |p| && AtStage(r, p, sl, cs, ci, i)
    requires forall q :: i <= q < n ==> !IsLive(p[q])
    ensures AtStage(r, p, sl, cs, ci, n)
    decreases n - i
  {
    if i < n {
      assert r[i] == Stage(p, sl, cs, ci, i, i);
      SkipAll(r, p, sl, cs, ci, i);
      SkipRest(r, p, sl, cs, ci, i + 1, n);
    }
  }

  /** Nor are they, or rows in smaller slots, taken in. */
  lemma {:induction false} PassAll(r: seq<Row>, p: seq<Row>, sl: seq<nat>, cs: seq<Column>, ci: nat, i: nat, j: nat, n: nat)
    requires Countable(p, cs, ci) && |sl| == |p| && i < |p| && j <= n <= |p| && Collecting(r, p, sl, cs, ci, i, j)
    requires forall q :: j <= q < n ==> !IsLive(p[q]) || sl[q] <= sl[i]
    ensures Collecting(r, p, sl, cs, ci, i, n)
    decreases n - j
  {
    if j < n {
      assert r[j] == Between(p, sl, cs, ci, i, j, j);
      PassBy(r, p, sl, cs, ci, i, j);
      PassAll(r, p, sl, cs, ci, i, j + 1, n);
    }
  }

  // ---------------------------------------------------------------- the result

  /** The COUNT column `j` over the live rows. */
  ghost function CountSum(r: seq<Row>, j: nat, n: nat): int
    requires n <= |r| && forall k :: 0 <= k < |r| && IsLive(r[k]) ==> j < |r[k].cells| && r[k].cells[j].Num?
  {
    if n == 0 then 0 else CountSum(r, j, n - 1) + if IsLive(r[n - 1]) then r[n - 1].cells[j].num else 0
  }

  /** Every live row enters with a count of one. */
  ghost predicate CountsOne(p: seq<Row>, cs: seq<Column>, j: nat) {
    j < |cs| && cs[j].isCount && forall k :: 0 <= k < |p| && IsLive(p[k]) ==> j < |p[k].cells| && p[k].cells[j] == Num(1)
  }

  /** What survives the grouping are the rows in the lowest slots of their keys, each counting itself and what it took in. */
  lemma {:induction false} Survivors(r: seq<Row>, p: seq<Row>, sl: seq<nat>, cs: seq<Column>, ci: nat, j: nat, k: nat)
    requires Countable(p, cs, ci) && |sl| == |p| && AtStage(r, p, sl, cs, ci, |p|) && CountsOne(p, cs, j) && k < |p|
    ensures IsLive(r[k]) <==> Lowest(KeysOf(p, ci), sl, k)
    ensures IsLive(r[k]) ==> j < |r[k].cells| && r[k].cells[j] == Num(1 + Taken(KeysOf(p, ci), sl, k, |p|))
  {
    assert r[k] == Stage(p, sl, cs, ci, k, |p|);
    assert Under(KeysOf(p, ci), sl, k, k) ==> Under(KeysOf(p, ci), sl, |p|, k);
  }

  /** A surviving row counts its whole group, and is all that is left of it, exactly when nothing stands in its way. */
  lemma {:induction false} CountsExactly(r: seq<Row>, p: seq<Row>, sl: seq<nat>, cs: seq<Column>, ci: nat, j: nat, k: nat)
    requires Countable(p, cs, ci) && |sl| == |p| && AtStage(r, p, sl, cs, ci, |p|) && CountsOne(p, cs, j)
    requires k < |p| && IsLive(r[k])
    ensures var ks := KeysOf(p, ci);
            && j < |r[k].cells| && (r[k].cells[j] == Num(Members(ks, k, |p|)) <==> Clear(ks, sl, k))
            && (Clear(ks, sl, k) ==> forall l :: 0 <= l < |p| && IsLive(r[l]) && ks[l] == ks[k] ==> l == k)
  {
    Survivors(r, p, sl, cs, ci, j, k);
    GroupExactly(KeysOf(p, ci), sl, k);
    forall l | 0 <= l < |p| && IsLive(r[l]) ensures Lowest(KeysOf(p, ci), sl, l) {
      Survivors(r, p, sl, cs, ci, j, l);
    }
  }

  lemma {:induction false} SumIsKept(r: seq<Row>, p: seq<Row>, sl: seq<nat>, cs: seq<Column>, ci: nat, j: nat, n: nat)
    requires Countable(p, cs, ci) && |sl| == |p| && AtStage(r, p, sl, cs, ci, |p|) && CountsOne(p, cs, j) && n <= |p|
    requires forall k :: 0 <= k < |r| && IsLive(r[k]) ==> j < |r[k].cells| && r[k].cells[j].Num?
    ensures CountSum(r, j, n) == KeptTo(KeysOf(p, ci), sl, n)
  {
    if n > 0 {
      SumIsKept(r, p, sl, cs, ci, j, n - 1);
      Survivors(r, p, sl, cs, ci, j, n - 1);
    }
  }

  lemma {:induction false} RowsAreLive(p: seq<Row>, ci: nat, n: nat)
    requires AllKeyed(p, ci) && n <= |p|
    ensures RowsTo(KeysOf(p, ci), n) == |Live(p[..n])|
  {
    if n > 0 {
      RowsAreLive(p, ci, n - 1);
      assert p[..n][..n - 1] == p[..n - 1];
    }
  }

  /** The counts of the surviving rows add up to the number of rows that were grouped if and only if none is lost. */
  lemma {:induction false} CountsConserved(r: seq<Row>, p: seq<Row>, sl: seq<nat>, cs: seq<Column>, ci: nat, j: nat)
    requires Countable(p, cs, ci) && |sl| == |p| && AtStage(r, p, sl, cs, ci, |p|) && CountsOne(p, cs, j)
    ensures forall k :: 0 <= k < |r| && IsLive(r[k]) ==> j < |r[k].cells| && r[k].cells[j].Num?
    ensures CountSum(r, j, |r|) == |Live(p)| <==> NoneLost(KeysOf(p, ci), sl)
  {
    forall k | 0 <= k < |r| && IsLive(r[k]) ensures j < |r[k].cells| && r[k].cells[j].Num? {
      Survivors(r, p, sl, cs, ci, j, k);
    }
    SumIsKept(r, p, sl, cs, ci, j, |p|);
    KeptExactly(KeysOf(p, ci), sl);
    RowsAreLive(p, ci, |p|);
    assert p[..|p|] == p;
  }

  // ---------------------------------------------------------------- what a table keeps

  lemma {:induction false} StageRow(p: seq<Row>, sl: seq<nat>, cs: seq<Column>, ci: nat, k: nat, m: nat, q: nat)
    requires Countable(p, cs, ci) && |sl| == |p| && k < |p| && m <= |p|
    ensures var r := Stage(p, sl, cs, ci, k, m);
            && RowRefs(r, q) == RowRefs(p[k], q) && r.empty == p[k].empty && r.nulls == p[k].nulls
            && (r.empty ==> r == p[k]) && (Fits(p[k], cs) ==> Fits(r, cs))
  {
    var r := Stage(p, sl, cs, ci, k, m);
    if !p[k].empty {
      SamePointers(r.cells, p[k].cells, q);
    }
  }

  lemma {:induction false} RefsUpTo(p: seq<Row>, n: nat, q: nat)
    requires n < |p|
    ensures PageRefs(p[..n + 1], q) == PageRefs(p[..n], q) + RowRefs(p[n], q)
  {
    assert p[..n + 1][..n] == p[..n];
  }

  lemma {:induction false} StageRefs(r: seq<Row>, p: seq<Row>, sl: seq<nat>, cs: seq<Column>, ci: nat, m: nat, n: nat, q: nat)
    requires Countable(p, cs, ci) && |sl| == |p| && m <= |p| && AtStage(r, p, sl, cs, ci, m) && n <= |p|
    ensures PageRefs(r[..n], q) == PageRefs(p[..n], q)
  {
    if n > 0 {
      StageRefs(r, p, sl, cs, ci, m, n - 1, q);
      RefsUpTo(r, n - 1, q);
      RefsUpTo(p, n - 1, q);
      StageRow(p, sl, cs, ci, n - 1, m, q);
    }
  }
}
