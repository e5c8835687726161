/** GROUP BY on a materialised table (src/engine/executor_select.c:1526-1588). */
module GroupBy {
  import opened Folding
  import opened RowStore
  import opened VacuumSpec
  import opened TableStore
  import opened GroupSpec
  import C = Condition

  // ---------------------------------------------------------------- all pages as one list of rows

  ghost function Rows(ps: seq<Page>): seq<Row> {
    if ps == [] then [] else Rows(ps[..|ps| - 1]) + ps[|ps| - 1]
  }

  /** The slot that each row of that list has in its page. */
  ghost function RowSlots(ps: seq<Page>): (sl: seq<nat>)
    ensures |sl| == |Rows(ps)|
  {
    if ps == [] then [] else RowSlots(ps[..|ps| - 1]) + seq(|ps[|ps| - 1]|, i => i)
  }

  /** Where slot `i` of page `b` is in the list. */
  ghost function At(ps: seq<Page>, b: nat, i: nat): nat
    requires b <= |ps|
  {
    |Rows(ps[..b])| + i
  }

  ghost predicate SameSizes(ps: seq<Page>, qs: seq<Page>) {
    |ps| == |qs| && forall b :: 0 <= b < |ps| ==> |ps[b]| == |qs[b]|
  }

  lemma {:induction false} RowsEnd(ps: seq<Page>)
    ensures At(ps, |ps|, 0) == |Rows(ps)|
  {
    assert ps[..|ps|] == ps;
  }

  lemma {:induction false} NextPage(ps: seq<Page>, b: nat)
    requires b < |ps|
    ensures At(ps, b + 1, 0) == At(ps, b, |ps[b]|)
  {
    assert ps[..b + 1][..b] == ps[..b];
  }

  /** A row of a page is the one at its place. */
  lemma {:induction false} RowsPlace(ps: seq<Page>, b: nat, i: nat)
    requires b < |ps| && i < |ps[b]|
    ensures At(ps, b, i) < |Rows(ps)| && Rows(ps)[At(ps, b, i)] == ps[b][i] && RowSlots(ps)[At(ps, b, i)] == i
    decreases |ps|
  {
    var n := |ps| - 1;
    if b < n {
      RowsPlace(ps[..n], b, i);
      assert ps[..n][..b] == ps[..b];
    }
  }

  lemma {:induction false} RowsBound(ps: seq<Page>, b: nat, i: nat)
    requires b < |ps| && i <= |ps[b]|
    ensures At(ps, b, i) <= |Rows(ps)|
  {
    if i > 0 {
      RowsPlace(ps, b, i - 1);
    } else if |ps[b]| > 0 {
      RowsPlace(ps, b, 0);
    } else {
      RowsGrow(ps, b);
    }
  }

  lemma {:induction false} RowsGrow(ps: seq<Page>, b: nat)
    requires b <= |ps|
    ensures |Rows(ps[..b])| <= |Rows(ps)|
  {
    if b < |ps| {
      assert ps[..|ps| - 1][..b] == ps[..b];
      RowsGrow(ps[..|ps| - 1], b);
    } else {
      assert ps[..b] == ps;
    }
  }

  lemma {:induction false} SameRows(ps: seq<Page>, qs: seq<Page>)
    requires SameSizes(ps, qs)
    ensures |Rows(ps)| == |Rows(qs)| && RowSlots(ps) == RowSlots(qs)
  {
    if ps != [] {
      SameRows(ps[..|ps| - 1], qs[..|qs| - 1]);
    }
  }

  lemma {:induction false} SamePlace(ps: seq<Page>, qs: seq<Page>, b: nat, i: nat)
    requires SameSizes(ps, qs) && b <= |ps|
    ensures At(ps, b, i) == At(qs, b, i)
  {
    SameRows(ps[..b], qs[..b]);
  }

  /** Writing a slot writes one row of the list. */
  lemma {:induction false} RowsPut(ps: seq<Page>, b: nat, i: nat, r: Row)
    requires b < |ps| && i < |ps[b]|
    ensures At(ps, b, i) < |Rows(ps)| && Rows(SetSlot(ps, b, i, r)) == Rows(ps)[At(ps, b, i) := r]
    ensures SameSizes(ps, SetSlot(ps, b, i, r))
    decreases |ps|
  {
    var n := |ps| - 1;
    var qs := SetSlot(ps, b, i, r);
    RowsPlace(ps, b, i);
    if b < n {
      RowsPut(ps[..n], b, i, r);
      assert ps[..n][..b] == ps[..b] && qs[..n] == SetSlot(ps[..n], b, i, r) && qs[n] == ps[n];
    } else {
      assert qs[..n] == ps[..n];
    }
  }

  lemma {:induction false} RowsRefs(ps: seq<Page>, q: nat)
    ensures PageRefs(Rows(ps), q) == StoreRefs(ps, q)
  {
    if ps != [] {
      RowsRefs(ps[..|ps| - 1], q);
      PageRefsConcat(Rows(ps[..|ps| - 1]), ps[|ps| - 1], q);
    }
  }

  lemma {:induction false} RowsLive(ps: seq<Page>)
    ensures Live(Rows(ps)) == LiveAll(ps)
  {
    if ps != [] {
      RowsLive(ps[..|ps| - 1]);
      LiveConcat(Rows(ps[..|ps| - 1]), ps[|ps| - 1]);
    }
  }

  // ---------------------------------------------------------------- the loops

  /** The rows of the pages `r` are at stage `m` of collapsing those of `ps`; folded. */
  ghost predicate Staged(r: seq<Page>, ps: seq<Page>, cs: seq<Column>, ci: nat, m: nat) {
    forall x :: Look(x) ==>
      Countable(Rows(ps), cs, ci) && SameSizes(ps, r) && m <= |Rows(ps)| && AtStage(Rows(r), Rows(ps), RowSlots(ps), cs, ci, m)
  }

  /** Row `i` of the list has its turn and has come to row `q`; folded. */
  ghost predicate Turn(r: seq<Page>, ps: seq<Page>, cs: seq<Column>, ci: nat, i: nat, q: nat) {
    forall x :: Look(x) ==>
      && Countable(Rows(ps), cs, ci) && SameSizes(ps, r) && i < |Rows(ps)| && q <= |Rows(ps)|
      && Collecting(Rows(r), Rows(ps), RowSlots(ps), cs, ci, i, q)
  }

  /** Two slots of pages as rows of the list. */
  lemma {:induction false} TwoPlaces(r: seq<Page>, ps: seq<Page>, b: nat, i: nat, d: nat, j: nat)
    requires SameSizes(ps, r) && b < |ps| && i < |ps[b]| && d < |ps| && j < |ps[d]| && i < j
    ensures At(ps, b, i) < |Rows(ps)| == |Rows(r)| && At(ps, d, j) < |Rows(ps)| && At(ps, b, i) != At(ps, d, j)
    ensures Rows(r)[At(ps, b, i)] == r[b][i] && Rows(r)[At(ps, d, j)] == r[d][j]
    ensures Rows(ps)[At(ps, b, i)] == ps[b][i] && Rows(ps)[At(ps, d, j)] == ps[d][j]
    ensures RowSlots(ps)[At(ps, b, i)] == i && RowSlots(ps)[At(ps, d, j)] == j
  {
    SameRows(ps, r);
    SamePlace(ps, r, b, i);
    SamePlace(ps, r, d, j);
    RowsPlace(r, b, i);
    RowsPlace(r, d, j);
    RowsPlace(ps, b, i);
    RowsPlace(ps, d, j);
  }

  /** What the inner loop reads of the two rows. */
  lemma {:induction false} TurnSlots(r: seq<Page>, ps: seq<Page>, cs: seq<Column>, ci: nat, b: nat, i: nat, d: nat, j: nat)
    requires b < |ps| && i < |ps[b]| && d < |ps| && j < |ps[d]| && i < j && Turn(r, ps, cs, ci, At(ps, b, i), At(ps, d, j))
    ensures SameSizes(ps, r) && r[d][j].empty == ps[d][j].empty && CountRow(r[b][i], cs) && Keyed(r[b][i], ci)
    ensures IsLive(r[d][j]) ==> Keyed(r[d][j], ci)
  {
    assert Look(0);
    TwoPlaces(r, ps, b, i, d, j);
    KeysStay(Rows(r), Rows(ps), RowSlots(ps), cs, ci, At(ps, b, i), At(ps, d, j));
  }

  lemma {:induction false} PassSlot(r: seq<Page>, ps: seq<Page>, cs: seq<Column>, ci: nat, b: nat, i: nat, d: nat, j: nat)
    requires b < |ps| && i < |ps[b]| && d < |ps| && j < |ps[d]| && i < j && Turn(r, ps, cs, ci, At(ps, b, i), At(ps, d, j))
    requires SameSizes(ps, r) && Keyed(r[b][i], ci) && (IsLive(r[d][j]) ==> Keyed(r[d][j], ci))
    requires IsLive(r[d][j]) ==> CompareKeys(r[b][i], r[d][j], ci) != 0
    ensures Turn(r, ps, cs, ci, At(ps, b, i), At(ps, d, j + 1))
  {
    assert Look(0);
    TwoPlaces(r, ps, b, i, d, j);
    KeysStay(Rows(r), Rows(ps), RowSlots(ps), cs, ci, At(ps, b, i), At(ps, d, j));
    if IsLive(r[d][j]) {
      ZeroIsEqual(r[b][i], r[d][j], ci);
    }
    PassBy(Rows(r), Rows(ps), RowSlots(ps), cs, ci, At(ps, b, i), At(ps, d, j));
  }

  lemma {:induction false} TakeSlot(r: seq<Page>, ps: seq<Page>, cs: seq<Column>, ci: nat, b: nat, i: nat, d: nat, j: nat,
                                     s: seq<Page>)
    requires b < |ps| && i < |ps[b]| && d < |ps| && j < |ps[d]| && i < j && Turn(r, ps, cs, ci, At(ps, b, i), At(ps, d, j))
    requires SameSizes(ps, r) && Keyed(r[b][i], ci) && IsLive(r[d][j]) && Keyed(r[d][j], ci)
    requires CompareKeys(r[b][i], r[d][j], ci) == 0 && CountRow(r[b][i], cs)
    requires var q := SetSlot(r, d, j, r[d][j].(deleted := true));
             b < |q| && i < |q[b]| && s == SetSlot(q, b, i, AddCounts(r[b][i], cs, 1))
    ensures Turn(s, ps, cs, ci, At(ps, b, i), At(ps, d, j + 1))
  {
    assert Look(0);
    TwoPlaces(r, ps, b, i, d, j);
    KeysStay(Rows(r), Rows(ps), RowSlots(ps), cs, ci, At(ps, b, i), At(ps, d, j));
    ZeroIsEqual(r[b][i], r[d][j], ci);
    TakeIn(Rows(r), Rows(ps), RowSlots(ps), cs, ci, At(ps, b, i), At(ps, d, j));
    TwoPuts(r, ps, b, i, d, j, r[d][j].(deleted := true), AddCounts(r[b][i], cs, 1));
  }

  lemma {:induction false} TwoPuts(r: seq<Page>, ps: seq<Page>, b: nat, i: nat, d: nat, j: nat, x: Row, y: Row)
    requires SameSizes(ps, r) && b < |ps| && i < |ps[b]| && d < |ps| && j < |ps[d]|
    ensures var s := SetSlot(SetSlot(r, d, j, x), b, i, y);
            && SameSizes(ps, s) && At(ps, d, j) < |Rows(r)| && At(ps, b, i) < |Rows(r)|
            && Rows(s) == Rows(r)[At(ps, d, j) := x][At(ps, b, i) := y]
  {
    var q := SetSlot(r, d, j, x);
    SamePlace(ps, r, d, j);
    RowsPut(r, d, j, x);
    SamePlace(ps, q, b, i);
    RowsPut(q, b, i, y);
  }

  /** The pages before the loops, each filled from the front; folded. */
  ghost predicate Filled(ps: seq<Page>, used: seq<nat>) {
    forall x :: Look(x) ==> |used| == |ps| && forall b :: 0 <= b < |ps| ==> Prefix(ps[b], used[b])
  }

  /** Slots up to the one whose turn it is are not looked at. */
  lemma {:induction false} SkipLow(r: seq<Page>, ps: seq<Page>, cs: seq<Column>, ci: nat, b: nat, i: nat, d: nat, n: nat)
    requires b < |ps| && i < |ps[b]| && d < |ps| && n <= |ps[d]| && n <= i + 1 && Turn(r, ps, cs, ci, At(ps, b, i), At(ps, d, 0))
    ensures Turn(r, ps, cs, ci, At(ps, b, i), At(ps, d, n))
  {
    assert Look(0);
    RowsBound(ps, d, n);
    RowsPlace(ps, b, i);
    forall q | At(ps, d, 0) <= q < At(ps, d, n) ensures RowSlots(ps)[q] <= RowSlots(ps)[At(ps, b, i)] {
      RowsPlace(ps, d, q - At(ps, d, 0));
    }
    PassAll(Rows(r), Rows(ps), RowSlots(ps), cs, ci, At(ps, b, i), At(ps, d, 0), At(ps, d, n));
  }

  /** Nor are those behind the first empty one. */
  lemma {:induction false} SkipEmpty(r: seq<Page>, ps: seq<Page>, used: seq<nat>, cs: seq<Column>, ci: nat, b: nat, i: nat,
                                      d: nat, j: nat)
    requires b < |ps| && i < |ps[b]| && d < |ps| && j <= |ps[d]| && Turn(r, ps, cs, ci, At(ps, b, i), At(ps, d, j))
    requires Filled(ps, used) && (j < |ps[d]| ==> ps[d][j].empty)
    ensures Turn(r, ps, cs, ci, At(ps, b, i), At(ps, d + 1, 0))
  {
    assert Look(0);
    NextPage(ps, d);
    RowsBound(ps, d, |ps[d]|);
    forall q | At(ps, d, j) <= q < At(ps, d, |ps[d]|) ensures !IsLive(Rows(ps)[q]) {
      RowsPlace(ps, d, q - At(ps, d, 0));
      assert Prefix(ps[d], used[d]);
    }
    PassAll(Rows(r), Rows(ps), RowSlots(ps), cs, ci, At(ps, b, i), At(ps, d, j), At(ps, d, |ps[d]|));
  }

  /** The body of the inner loop: a row with the same key goes and is counted. */
  method CollectSlot(rows: seq<Page>, cs: seq<Column>, ci: nat, b: nat, i: nat, d: nat, j: nat, ghost ps: seq<Page>)
      returns (r: seq<Page>)
    requires b < |rows| && i < |rows[b]| && d < |rows| && j < |rows[d]| && i < j && !rows[d][j].empty
    requires SameSizes(ps, rows) && Turn(rows, ps, cs, ci, At(ps, b, i), At(ps, d, j))
    ensures SameSizes(ps, r) && Turn(r, ps, cs, ci, At(ps, b, i), At(ps, d, j + 1))
  {
    r := rows;
    TurnSlots(r, ps, cs, ci, b, i, d, j);
    if !r[d][j].deleted && CompareKeys(r[b][i], r[d][j], ci) == 0 {
      var row := IncCountCols(r[b][i], cs);
      var s := SetSlot(r, d, j, r[d][j].(deleted := true));
      s := SetSlot(s, b, i, row);
      TakeSlot(r, ps, cs, ci, b, i, d, j, s);
      r := s;
    } else {
      PassSlot(r, ps, cs, ci, b, i, d, j);
    }
  }

  /** The inner loop over one page, from the slot behind the one whose turn it is. */
  method CollectPage(rows: seq<Page>, cs: seq<Column>, ci: nat, b: nat, i: nat, d: nat, ghost ps: seq<Page>, ghost used: seq<nat>)
      returns (r: seq<Page>)
    requires b < |rows| && i < |rows[b]| && d < |rows| && SameSizes(ps, rows) && Filled(ps, used)
    requires Turn(rows, ps, cs, ci, At(ps, b, i), At(ps, d, 0))
    ensures SameSizes(ps, r) && Turn(r, ps, cs, ci, At(ps, b, i), At(ps, d + 1, 0))
  {
    r := rows;
    if i + 1 >= |rows[d]| {
      SkipLow(r, ps, cs, ci, b, i, d, |rows[d]|);
      SkipEmpty(r, ps, used, cs, ci, b, i, d, |rows[d]|);
      return;
    }
    SkipLow(r, ps, cs, ci, b, i, d, i + 1);
    var j := i + 1;
    while j < |r[d]|
      invariant SameSizes(ps, r) && i < j <= |r[d]| && Turn(r, ps, cs, ci, At(ps, b, i), At(ps, d, j))
    {
      TurnSlots(r, ps, cs, ci, b, i, d, j);
      if r[d][j].empty {
        break;
      }
      r := CollectSlot(r, cs, ci, b, i, d, j, ps);
      j := j + 1;
    }
    SkipEmpty(r, ps, used, cs, ci, b, i, d, j);
  }

  lemma {:induction false} TurnBegins(r: seq<Page>, ps: seq<Page>, cs: seq<Column>, ci: nat, b: nat, i: nat)
    requires SameSizes(ps, r) && b < |ps| && i < |ps[b]| && Staged(r, ps, cs, ci, At(ps, b, i)) && IsLive(r[b][i])
    ensures Turn(r, ps, cs, ci, At(ps, b, i), At(ps, 0, 0))
  {
    assert Look(0);
    SamePlace(ps, r, b, i);
    RowsPlace(r, b, i);
    RowsPlace(ps, b, i);
    StartCollecting(Rows(r), Rows(ps), RowSlots(ps), cs, ci, At(ps, b, i));
  }

  lemma {:induction false} TurnEnds(r: seq<Page>, ps: seq<Page>, cs: seq<Column>, ci: nat, b: nat, i: nat)
    requires b < |ps| && i < |ps[b]| && Turn(r, ps, cs, ci, At(ps, b, i), At(ps, |ps|, 0))
    ensures Staged(r, ps, cs, ci, At(ps, b, i + 1))
  {
    assert Look(0);
    RowsEnd(ps);
    EndCollecting(Rows(r), Rows(ps), RowSlots(ps), cs, ci, At(ps, b, i));
  }

  /** Row `i` of page `b` takes in the rows with its key in greater slots, page by page. */
  method Collect(rows: seq<Page>, cs: seq<Column>, ci: nat, b: nat, i: nat, ghost ps: seq<Page>, ghost used: seq<nat>)
      returns (r: seq<Page>)
    requires SameSizes(ps, rows) && Filled(ps, used) && b < |rows| && i < |rows[b]| && IsLive(rows[b][i])
    requires Staged(rows, ps, cs, ci, At(ps, b, i))
    ensures SameSizes(ps, r) && Staged(r, ps, cs, ci, At(ps, b, i + 1))
  {
    r := rows;
    TurnBegins(r, ps, cs, ci, b, i);
    var d := 0;
    while d < |r|
      invariant SameSizes(ps, r) && 0 <= d <= |r| && Turn(r, ps, cs, ci, At(ps, b, i), At(ps, d, 0))
    {
      r := CollectPage(r, cs, ci, b, i, d, ps, used);
      d := d + 1;
    }
    TurnEnds(r, ps, cs, ci, b, i);
  }

  lemma {:induction false} StagedSlot(r: seq<Page>, ps: seq<Page>, cs: seq<Column>, ci: nat, b: nat, i: nat)
    requires SameSizes(ps, r) && b < |ps| && i < |ps[b]| && Staged(r, ps, cs, ci, At(ps, b, i))
    ensures r[b][i].empty == ps[b][i].empty
    ensures r[b][i].deleted && !r[b][i].empty ==> Staged(r, ps, cs, ci, At(ps, b, i + 1))
  {
    assert Look(0);
    SamePlace(ps, r, b, i);
    RowsPlace(r, b, i);
    RowsPlace(ps, b, i);
    StageRow(Rows(ps), RowSlots(ps), cs, ci, At(ps, b, i), At(ps, b, i), 0);
    if !IsLive(r[b][i]) {
      SkipAll(Rows(r), Rows(ps), RowSlots(ps), cs, ci, At(ps, b, i));
    }
  }

  lemma {:induction false} StagedRest(r: seq<Page>, ps: seq<Page>, used: seq<nat>, cs: seq<Column>, ci: nat, b: nat, i: nat)
    requires b < |ps| && i <= |ps[b]| && Staged(r, ps, cs, ci, At(ps, b, i))
    requires Filled(ps, used) && (i < |ps[b]| ==> ps[b][i].empty)
    ensures Staged(r, ps, cs, ci, At(ps, b + 1, 0))
  {
    assert Look(0);
    NextPage(ps, b);
    RowsBound(ps, b, |ps[b]|);
    forall q | At(ps, b, i) <= q < At(ps, b, |ps[b]|) ensures !IsLive(Rows(ps)[q]) {
      RowsPlace(ps, b, q - At(ps, b, 0));
      assert Prefix(ps[b], used[b]);
    }
    SkipRest(Rows(r), Rows(ps), RowSlots(ps), cs, ci, At(ps, b, i), At(ps, b, |ps[b]|));
  }

  /** The outer loop over one page. */
  method GroupPage(rows: seq<Page>, cs: seq<Column>, ci: nat, b: nat, ghost ps: seq<Page>, ghost used: seq<nat>)
      returns (r: seq<Page>)
    requires SameSizes(ps, rows) && Filled(ps, used) && b < |rows| && Staged(rows, ps, cs, ci, At(ps, b, 0))
    ensures SameSizes(ps, r) && Staged(r, ps, cs, ci, At(ps, b + 1, 0))
  {
    r := rows;
    var i := 0;
    while i < |r[b]|
      invariant SameSizes(ps, r) && 0 <= i <= |r[b]| && Staged(r, ps, cs, ci, At(ps, b, i))
    {
      StagedSlot(r, ps, cs, ci, b, i);
      if r[b][i].empty {
        break;
      }
      if !r[b][i].deleted {
        r := Collect(r, cs, ci, b, i, ps, used);
      }
      i := i + 1;
    }
    StagedRest(r, ps, used, cs, ci, b, i);
  }

  /** All pages: every row is brought to its final stage. */
  method GroupPages(ps: seq<Page>, cs: seq<Column>, ci: nat, ghost used: seq<nat>) returns (r: seq<Page>)
    requires Filled(ps, used) && Countable(Rows(ps), cs, ci)
    ensures SameSizes(ps, r) && AtStage(Rows(r), Rows(ps), RowSlots(ps), cs, ci, |Rows(ps)|)
  {
    r := ps;
    StageNone(Rows(ps), RowSlots(ps), cs, ci);
    var b := 0;
    while b < |r|
      invariant SameSizes(ps, r) && 0 <= b <= |r| && Staged(r, ps, cs, ci, At(ps, b, 0))
    {
      r := GroupPage(r, cs, ci, b, ps, used);
      b := b + 1;
    }
    RowsEnd(ps);
    assert Look(0);
  }

  // ---------------------------------------------------------------- the table

  lemma {:induction false} FitsCounts(r: Row, cs: seq<Column>, ci: nat)
    requires Fits(r, cs) && !r.empty && ci < |cs| <= MAX_COLUMNS && cs[ci].kind == Integer
    requires forall j :: 0 <= j < |cs| && cs[j].isCount ==> cs[j].kind == Integer
    ensures Keyed(r, ci) && CountRow(r, cs)
  {
    forall j | 0 <= j < |cs| && cs[j].kind == Integer ensures r.cells[j].Num? {
      assert !(r.cells[j].Ptr?);
    }
  }

  /** Every row of the list is a row of some page. */
  lemma {:induction false} SomePlace(ps: seq<Page>, q: nat) returns (b: nat, i: nat)
    requires q < |Rows(ps)|
    ensures b < |ps| && i < |ps[b]| && q == At(ps, b, i)
  {
    var n := |ps| - 1;
    if q < |Rows(ps[..n])| {
      b, i := SomePlace(ps[..n], q);
      assert ps[..n][..b] == ps[..b];
    } else {
      b, i := n, q - |Rows(ps[..n])|;
    }
  }

  lemma {:induction false} AllCountable(ps: seq<Page>, cs: seq<Column>, ci: nat)
    requires AllFit(ps, cs) && ci < |cs| <= MAX_COLUMNS && cs[ci].kind == Integer && !cs[ci].isCount
    requires forall j :: 0 <= j < |cs| && cs[j].isCount ==> cs[j].kind == Integer
    ensures Countable(Rows(ps), cs, ci)
  {
    forall q | 0 <= q < |Rows(ps)| && !Rows(ps)[q].empty ensures Keyed(Rows(ps)[q], ci) && CountRow(Rows(ps)[q], cs) {
      var b, i := SomePlace(ps, q);
      RowsPlace(ps, b, i);
      assert Fits(ps[b][i], cs);
      FitsCounts(Rows(ps)[q], cs, ci);
    }
  }

  /** The collapsed pages in the place of the old ones. */
  lemma {:induction false} Collapsed(ps: seq<Page>, r: seq<Page>, cs: seq<Column>, ci: nat, used: seq<nat>, offset: nat,
                                      heap: map<nat, string>)
    requires Countable(Rows(ps), cs, ci) && SameSizes(ps, r) && AtStage(Rows(r), Rows(ps), RowSlots(ps), cs, ci, |Rows(ps)|)
    requires Sound(cs, ps, used, offset, heap)
    ensures Sound(cs, r, used, offset, heap)
  {
    forall q | q != 0 ensures StoreRefs(r, q) == InHeap(heap, q) {
      StageRefs(Rows(r), Rows(ps), RowSlots(ps), cs, ci, |Rows(ps)|, |Rows(ps)|, q);
      assert Rows(ps)[..|Rows(ps)|] == Rows(ps) && Rows(r)[..|Rows(ps)|] == Rows(r);
      RowsRefs(ps, q);
      RowsRefs(r, q);
    }
    forall b, i | 0 <= b < |r| && 0 <= i < |r[b]|
      ensures r[b][i].empty == ps[b][i].empty && (r[b][i].empty ==> r[b][i] == ps[b][i]) && Fits(r[b][i], cs)
    {
      SamePlace(ps, r, b, i);
      RowsPlace(r, b, i);
      RowsPlace(ps, b, i);
      StageRow(Rows(ps), RowSlots(ps), cs, ci, At(ps, b, i), |Rows(ps)|, 0);
      assert Fits(ps[b][i], cs);
    }
  }

  /**
   proc_groupby_clause for one INTEGER column, over all pages: what is left are, for each key, the rows in its lowest slot,
   each counting itself and what it took in.
   */
  method GroupByClause(t: Table, field: string)
    requires t.Valid() && C.IntColumn(t.columns, field) && !t.columns[C.IndexOf(t.columns, field)].isCount
    requires forall j :: 0 <= j < |t.columns| && t.columns[j].isCount ==> t.columns[j].kind == Integer
    modifies t`blocks
    ensures t.Valid() && SameSizes(old(t.blocks), t.blocks)
    ensures var ps, ci := old(t.blocks), C.IndexOf(t.columns, field);
            Countable(Rows(ps), t.columns, ci) && AtStage(Rows(t.blocks), Rows(ps), RowSlots(ps), t.columns, ci, |Rows(ps)|)
  {
    var ci := C.FindColumn(t.columns, field);
    AllCountable(t.blocks, t.columns, ci);
    var r := GroupPages(t.blocks, t.columns, ci, t.used);
    Collapsed(t.blocks, r, t.columns, ci, t.used, t.freeOffset, t.heap);
    t.blocks := r;
  }

  /** In a table of one page every group ends as one row that counts it. */
  lemma {:induction false} OnePageRight(ps: seq<Page>, cs: seq<Column>, ci: nat)
    requires |ps| == 1 && Countable(Rows(ps), cs, ci)
    ensures AllClear(KeysOf(Rows(ps), ci), RowSlots(ps)) && NoneLost(KeysOf(Rows(ps), ci), RowSlots(ps))
  {
    assert ps[..0] == [];
    OnePageClear(KeysOf(Rows(ps), ci), RowSlots(ps));
    ClearLosesNone(KeysOf(Rows(ps), ci), RowSlots(ps));
  }

  /** The counts add up to the rows a reader saw before if and only if no row that has taken one in is taken in itself. */
  lemma {:induction false} CountsAddUp(r: seq<Page>, ps: seq<Page>, cs: seq<Column>, ci: nat, j: nat)
    requires Countable(Rows(ps), cs, ci) && AtStage(Rows(r), Rows(ps), RowSlots(ps), cs, ci, |Rows(ps)|)
    requires CountsOne(Rows(ps), cs, j)
    ensures forall k :: 0 <= k < |Rows(r)| && IsLive(Rows(r)[k]) ==> j < |Rows(r)[k].cells| && Rows(r)[k].cells[j].Num?
    ensures CountSum(Rows(r), j, |Rows(r)|) == |LiveAll(ps)| <==> NoneLost(KeysOf(Rows(ps), ci), RowSlots(ps))
  {
    CountsConserved(Rows(r), Rows(ps), RowSlots(ps), cs, ci, j);
    RowsLive(ps);
  }
}
