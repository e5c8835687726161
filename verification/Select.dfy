/** The loops of the SELECT executor over tables (src/engine/executor_select.c). */
module Select {
  import opened Wrappers
  import opened Folding
  import opened RowStore
  import opened ColumnSpec
  import opened NullBits
  import opened TableStore
  import opened Condition
  import opened JoinOrder
  import opened SelectSpec
  import opened Sieve

  // ---------------------------------------------------------------- one merged row

  /** cpy_cols */
  method CpyCols(src: seq<Column>, table: string, s: Record, dst: seq<Column>, d: Record) returns (r: Record)
    requires Scaffold(dst, table, src) && RecordFits(s, src) && RecordFits(d, dst)
    ensures r == CopyCols(src, table, s, dst, d, |src|)
  {
    r := d;
    var i := 0;
    while i < |src|
      invariant 0 <= i <= |src| && r == CopyCols(src, table, s, dst, d, i)
    {
      var j := FindColumn(dst, Qualified(table, src[i].name));
      assert j == Place(dst, table, src[i]) < |dst|;
      if !s.nulls[i] {
        r := Record(r.nulls[j := false], r.values[j := s.values[i]]);
      } else if src[i].kind == Varchar {
        r := r.(values := r.values[j := StrValue("")]);
      }
      i := i + 1;
    }
  }

  /** init_count_cols */
  method InitCountCols(dst: seq<Column>, d: Record) returns (r: Record)
    requires RecordFits(d, dst) && CountsAreInts(dst)
    ensures r == CountsSet(dst, d)
  {
    r := d;
    var j := 0;
    while j < |dst|
      invariant 0 <= j <= |dst| && r.nulls == d.nulls && |r.values| == |d.values|
      invariant forall k :: 0 <= k < |dst| ==> r.values[k] == if k < j && dst[k].isCount then IntValue(1) else d.values[k]
    {
      if dst[j].isCount {
        r := r.(values := r.values[j := IntValue(1)]);
      }
      j := j + 1;
    }
    assert r.values == CountsSet(dst, d).values;
  }

  /** _merge_rows on two base tables */
  method MergeRows(left: Side, right: Side, dst: seq<Column>, a: Record, b: Record) returns (m: Record)
    requires Joinable(left, right, dst) && RecordFits(a, left.columns) && RecordFits(b, right.columns)
    ensures m == Merged(left, right, dst, a, b)
  {
    m := CpyCols(left.columns, left.table, a, dst, BlankRecord(dst));
    m := CpyCols(right.columns, right.table, b, dst, m);
    m := InitCountCols(dst, m);
  }

  // ---------------------------------------------------------------- the nested loop

  /** Both tables can be read as sides of the join: no live row has a VARCHAR value without a buffer. */
  ghost predicate SidesOf(q: Join, left: Table, right: Table)
    reads left, right
  {
    && Ready(q) && q.left == Side(left.name, left.columns) && q.right == Side(right.name, right.columns)
    && AllRecordsFit(left.Contents(), left.columns) && AllRecordsFit(right.Contents(), right.columns)
  }

  // ---------------------------------------------------------------- the loops

  /** What the loops know of the join: the rows of both sides, what the table held before, what is kept of each pair. */
  datatype Progress =
    Progress(xs: seq<Record>, ys: seq<Record>, base: seq<Record>, f: (nat, nat) -> Option<Record>)

  ghost predicate KnowsAll(k: Progress, q: Join) {
    && Ready(q) && AllRecordsFit(k.xs, q.left.columns) && AllRecordsFit(k.ys, q.right.columns)
    && k.f == Matrix(q, k.xs, k.ys)
  }

  /** KnowsAll, folded: the loops only hand it on. */
  ghost predicate Knows(k: Progress, q: Join) {
    forall i :: Look(i) ==> KnowsAll(k, q)
  }

  /** The rows are the live ones of these pages; folded. */
  ghost predicate RowsOf(rs: seq<Record>, ps: seq<Page>, heap: map<nat, string>) {
    forall i :: Look(i) ==> rs == Records(LiveAll(ps), heap)
  }

  lemma {:induction false} Unfold(k: Progress, q: Join)
    requires Knows(k, q)
    ensures KnowsAll(k, q)
  {
    assert Look(0);
  }

  lemma {:induction false} RowOfSlot(rs: seq<Record>, ps: seq<Page>, b: nat, i: nat, heap: map<nat, string>)
    requires RowsOf(rs, ps, heap) && b < |ps| && i < |ps[b]| && IsLive(ps[b][i])
    ensures Seen(ps, b, i) < |rs| && rs[Seen(ps, b, i)] == ReadRow(ps[b][i], heap)
  {
    assert Look(0);
    RowAt(ps, b, i, heap);
  }

  lemma {:induction false} AllRowsSeen(rs: seq<Record>, ps: seq<Page>, heap: map<nat, string>)
    requires RowsOf(rs, ps, heap)
    ensures LiveBelow(ps, |ps|) == |rs|
  {
    assert Look(0);
    AllSeen(ps);
  }

  datatype State = State(valid: bool, columns: seq<Column>, contents: seq<Record>)

  ghost function StateOf(t: Table): State
    reads t
  {
    State(t.Valid(), t.columns, t.Contents())
  }

  /** The table holds `k.base` and then what the nested loop has kept so far; folded like Knows. */
  ghost predicate Upto(mat: Table, q: Join, k: Progress, t: Trail<Record>)
    reads mat
  {
    forall i :: Look(i) ==> StateOf(mat) == State(true, q.dst, Along(k.base, t))
  }

  /** The innermost step: merge, test ON, insert. */
  method JoinPair(mat: Table, q: Join, a: Record, b: Record, ghost k: Progress, ghost x: nat, ghost y: nat,
      ghost t: Trail<Record>) returns (ghost t': Trail<Record>)
    requires Knows(k, q) && x < |k.xs| && y < |k.ys| && a == k.xs[x] && b == k.ys[y] && Upto(mat, q, k, t)
    modifies mat
    ensures t' == Keep(k.f, x, y, t) && Upto(mat, q, k, t')
  {
    Unfold(k, q);
    assert Look(0);
    var m := MergeRows(q.left, q.right, q.dst, a, b);
    var ok := EvalRowCond(q.on, m, q.dst);
    assert k.f(x, y) == MatchedAt(q, k.xs, k.ys, x, y) == Matched(q, a, b);
    t' := t;
    if ok {
      MergedStored(q.left, q.right, q.dst, a, b);
      var inserted := mat.InsertRow(m, RowSize(q.dst));
      t' := More(t, m);
    }
  }

  /** One slot of the right table that is not empty; `y` counts the live rows before it. */
  method JoinRightSlot(mat: Table, q: Join, a: Record, ps: seq<Page>, b: nat, j: nat, heap: map<nat, string>,
      ghost k: Progress, ghost x: nat, ghost y: nat, ghost t: Trail<Record>)
      returns (ghost y': nat, ghost t': Trail<Record>)
    requires b < |ps| && j < |ps[b]| && !ps[b][j].empty && Knows(k, q) && RowsOf(k.ys, ps, heap)
    requires x < |k.xs| && k.xs[x] == a && y == Seen(ps, b, j) && Upto(mat, q, k, t)
    modifies mat
    ensures y' == Seen(ps, b, j + 1) && Upto(mat, q, k, t')
    ensures (y' == y && t' == t) || (y' == y + 1 && t' == Keep(k.f, x, y, t))
  {
    y', t' := y, t;
    if !ps[b][j].deleted {
      RowOfSlot(k.ys, ps, b, j, heap);
      t' := JoinPair(mat, q, a, ReadRow(ps[b][j], heap), k, x, y, t);
      y' := y + 1;
    }
  }

  /** The loop over one page of the right table. */
  method JoinRightPage(mat: Table, q: Join, a: Record, ps: seq<Page>, b: nat, heap: map<nat, string>,
      ghost n: nat, ghost k: Progress, ghost x: nat, ghost y: nat, ghost t0: Trail<Record>, ghost t: Trail<Record>)
      returns (ghost y': nat, ghost t': Trail<Record>)
    requires b < |ps| && Prefix(ps[b], n) && Knows(k, q) && RowsOf(k.ys, ps, heap)
    requires x < |k.xs| && k.xs[x] == a && y == LiveBelow(ps, b) && Upto(mat, q, k, t) && t == InnerTrail(k.f, t0, x, y)
    modifies mat
    ensures y' == LiveBelow(ps, b + 1) && Upto(mat, q, k, t') && t' == InnerTrail(k.f, t0, x, y')
  {
    var j := 0;
    y', t' := y, t;
    PageSeen(ps, b, n);
    while j < |ps[b]|
      invariant 0 <= j <= n <= |ps[b]| && y' == Seen(ps, b, j)
      invariant Upto(mat, q, k, t') && t' == InnerTrail(k.f, t0, x, y')
    {
      if ps[b][j].empty {
        break;
      }
      y', t' := JoinRightSlot(mat, q, a, ps, b, j, heap, k, x, y', t');
      j := j + 1;
    }
  }

  /** The loop over the pages of the right table for one left row. */
  method JoinRight(mat: Table, q: Join, a: Record, ps: seq<Page>, heap: map<nat, string>,
      ghost use: seq<nat>, ghost k: Progress, ghost x: nat, ghost t: Trail<Record>) returns (ghost t': Trail<Record>)
    requires Filled(ps, use) && Knows(k, q) && RowsOf(k.ys, ps, heap)
    requires x < |k.xs| && k.xs[x] == a && Upto(mat, q, k, t)
    modifies mat
    ensures Upto(mat, q, k, t') && t' == InnerTrail(k.f, t, x, |k.ys|)
  {
    var b := 0;
    ghost var y := 0;
    t' := t;
    AllRowsSeen(k.ys, ps, heap);
    while b < |ps|
      invariant 0 <= b <= |ps| && y == LiveBelow(ps, b) && Upto(mat, q, k, t') && t' == InnerTrail(k.f, t, x, y)
    {
      y, t' := JoinRightPage(mat, q, a, ps, b, heap, use[b], k, x, y, t, t');
      b := b + 1;
    }
  }

  /** One slot of the left table that is not empty. */
  method JoinLeftSlot(mat: Table, q: Join, ls: seq<Page>, b: nat, i: nat, lheap: map<nat, string>, ps: seq<Page>,
      heap: map<nat, string>, ghost use: seq<nat>, ghost k: Progress, ghost x: nat, ghost t: Trail<Record>)
      returns (ghost x': nat, ghost t': Trail<Record>)
    requires b < |ls| && i < |ls[b]| && !ls[b][i].empty && RowsOf(k.xs, ls, lheap)
    requires Filled(ps, use) && Knows(k, q) && RowsOf(k.ys, ps, heap)
    requires x == Seen(ls, b, i) && Upto(mat, q, k, t)
    modifies mat
    ensures x' == Seen(ls, b, i + 1) && Upto(mat, q, k, t')
    ensures (x' == x && t' == t) || (x' == x + 1 && t' == InnerTrail(k.f, t, x, |k.ys|))
  {
    x', t' := x, t;
    if !ls[b][i].deleted {
      RowOfSlot(k.xs, ls, b, i, lheap);
      t' := JoinRight(mat, q, ReadRow(ls[b][i], lheap), ps, heap, use, k, x, t);
      x' := x + 1;
    }
  }

  /** The loop over one page of the left table. */
  method JoinLeftPage(mat: Table, q: Join, ls: seq<Page>, b: nat, lheap: map<nat, string>, ps: seq<Page>,
      heap: map<nat, string>, ghost n: nat, ghost use: seq<nat>, ghost k: Progress, ghost x: nat, ghost t: Trail<Record>)
      returns (ghost x': nat, ghost t': Trail<Record>)
    requires b < |ls| && Prefix(ls[b], n) && RowsOf(k.xs, ls, lheap)
    requires Filled(ps, use) && Knows(k, q) && RowsOf(k.ys, ps, heap)
    requires x == LiveBelow(ls, b) && Upto(mat, q, k, t) && t == OuterTrail(k.f, x, |k.ys|)
    modifies mat
    ensures x' == LiveBelow(ls, b + 1) && Upto(mat, q, k, t') && t' == OuterTrail(k.f, x', |k.ys|)
  {
    var i := 0;
    x', t' := x, t;
    PageSeen(ls, b, n);
    while i < |ls[b]|
      invariant 0 <= i <= n <= |ls[b]| && x' == Seen(ls, b, i)
      invariant Upto(mat, q, k, t') && t' == OuterTrail(k.f, x', |k.ys|)
    {
      if ls[b][i].empty {
        break;
      }
      x', t' := JoinLeftSlot(mat, q, ls, b, i, lheap, ps, heap, use, k, x', t');
      i := i + 1;
    }
  }

  /** The outermost loop of the join. */
  method JoinLeft(mat: Table, q: Join, ls: seq<Page>, lheap: map<nat, string>, ps: seq<Page>, heap: map<nat, string>,
      ghost luse: seq<nat>, ghost use: seq<nat>, ghost k: Progress) returns (ghost t: Trail<Record>)
    requires Filled(ls, luse) && RowsOf(k.xs, ls, lheap)
    requires Filled(ps, use) && Knows(k, q) && RowsOf(k.ys, ps, heap) && Upto(mat, q, k, Start)
    modifies mat
    ensures Upto(mat, q, k, t) && t == OuterTrail(k.f, |k.xs|, |k.ys|)
  {
    var b := 0;
    ghost var x := 0;
    t := Start;
    AllRowsSeen(k.xs, ls, lheap);
    while b < |ls|
      invariant 0 <= b <= |ls| && x == LiveBelow(ls, b) && Upto(mat, q, k, t) && t == OuterTrail(k.f, x, |k.ys|)
    {
      x, t := JoinLeftPage(mat, q, ls, b, lheap, ps, heap, luse[b], use, k, x, t);
      b := b + 1;
    }
  }

  /** _join_nested_loop_tbl2tbl */
  method JoinTables(mat: Table, left: Table, right: Table, q: Join)
    requires mat != left && mat != right && left.Valid() && right.Valid() && mat.Valid()
    requires SidesOf(q, left, right) && mat.columns == q.dst
    modifies mat
    ensures mat.Valid() && mat.columns == q.dst
    ensures mat.Contents() == old(mat.Contents()) + JoinRows(q, left.Contents(), right.Contents())
  {
    ghost var xs, ys := left.Contents(), right.Contents();
    ghost var k := Progress(xs, ys, mat.Contents(), Matrix(q, xs, ys));
    ghost var t := JoinLeft(mat, q, left.blocks, left.heap, right.blocks, right.heap, left.used, right.used, k);
    assert Look(0);
    AlongOuter(k.base, k.f, |xs|, |ys|);
  }

  // ---------------------------------------------------------------- WHERE

  /** The verdict of the condition on rows of these columns. */
  ghost function Passes(c: Cond, cs: seq<Column>): Record -> bool {
    (r: Record) => RecordFits(r, cs) && CondFits(c, cs) && Eval(c, r, cs)
  }

  /** One slot of the pass that is not empty. */
  method WhereSlot(t: Table, c: Cond, b: nat, i: nat, ghost k: Pass, ghost y: nat, ghost done: seq<Record>)
      returns (ghost y': nat, ghost done': seq<Record>)
    requires Judging(t, c, k) && Filtered(t, k.keep, k.was, y, done)
    requires b < |t.blocks| && i < |t.blocks[b]| && !t.blocks[b][i].empty && Seen(t.blocks, b, i) == |done|
    modifies t`blocks
    ensures Filtered(t, k.keep, k.was, y', done') && SameTaken(old(t.blocks), t.blocks)
    ensures b < |t.blocks| && i < |t.blocks[b]| && Seen(t.blocks, b, i + 1) == |done'|
  {
    y', done' := y, done;
    if !t.blocks[b][i].deleted {
      var row := ReadRow(t.blocks[b][i], t.heap);
      RowJudged(t, c, k, y, done, b, i);
      var stays := EvalRowCond(c, row, t.columns);
      done' := Settle(t, k.keep, b, i, stays, k.was, y, done);
      y' := y + 1;
    }
  }

  /** The pass judges by the condition; folded. */
  ghost predicate Judging(t: Table, c: Cond, k: Pass)
    reads t`columns
  {
    forall i :: Look(i) ==>
      CondFits(c, t.columns) && AllRecordsFit(k.was, t.columns) && k.keep == Passes(c, t.columns)
  }

  /** The row in a slot is one the condition can judge. */
  lemma {:induction false} RowJudged(t: Table, c: Cond, k: Pass, y: nat, done: seq<Record>, b: nat, i: nat)
    requires Judging(t, c, k) && Filtered(t, k.keep, k.was, y, done)
    requires b < |t.blocks| && i < |t.blocks[b]| && IsLive(t.blocks[b][i]) && Seen(t.blocks, b, i) == |done|
    ensures var r := ReadRow(t.blocks[b][i], t.heap);
            RowOf(r, t.columns) && CondFits(c, t.columns) && k.keep(r) == Eval(c, r, t.columns)
  {
    assert Look(0);
    RowAt(t.blocks, b, i, t.heap);
    NextRow(k.keep, k.was, y, done, t.Contents());
  }

  /** The pass over one page. */
  method WherePage(t: Table, c: Cond, b: nat, ghost k: Pass, ghost y: nat, ghost done: seq<Record>)
      returns (ghost y': nat, ghost done': seq<Record>)
    requires Judging(t, c, k) && Filtered(t, k.keep, k.was, y, done) && b < |t.blocks| && LiveBelow(t.blocks, b) == |done|
    modifies t`blocks
    ensures Filtered(t, k.keep, k.was, y', done') && |t.blocks| == |old(t.blocks)|
    ensures LiveBelow(t.blocks, b + 1) == |done'|
  {
    var i := 0;
    y', done' := y, done;
    FilteredPages(t, k.keep, k.was, y, done);
    ghost var n := t.used[b];
    while i < |t.blocks[b]|
      invariant Filtered(t, k.keep, k.was, y', done') && |t.blocks| == |old(t.blocks)|
      invariant Prefix(t.blocks[b], n) && 0 <= i <= n && Seen(t.blocks, b, i) == |done'|
      decreases n - i
    {
      if t.blocks[b][i].empty {
        break;
      }
      y', done' := WhereSlot(t, c, b, i, k, y', done');
      FilteredPages(t, k.keep, k.was, y', done');
      i := i + 1;
    }
    PageSeen(t.blocks, b, n);
  }

  /** What the condition says of rows of these columns. */
  ghost function Satisfies(c: Cond, cs: seq<Column>): Record -> bool {
    (r: Record) => RecordFits(r, cs) && CondFits(c, cs) && Holds(c, r, cs)
  }

  /** No row makes the evaluator compare an integer beyond 32 bits or take a NULL literal for 0. */
  ghost predicate AllSmall(rs: seq<Record>, c: Cond, cs: seq<Column>) {
    CondFits(c, cs) && forall k :: 0 <= k < |rs| ==> RecordFits(rs[k], cs) && Small(c, rs[k], cs)
  }

  /** On such rows the verdict is what the condition says. */
  lemma {:induction false} WantedMeans(rs: seq<Record>, c: Cond, cs: seq<Column>)
    ensures AllSmall(rs, c, cs) ==> Wanted(Passes(c, cs), rs) == Wanted(Satisfies(c, cs), rs)
  {
    if AllSmall(rs, c, cs) && rs != [] {
      var n := |rs| - 1;
      WantedMeans(rs[..n], c, cs);
      EvalMeans(c, rs[n], cs);
    }
  }

  /** proc_where_clause: rows that do not satisfy the condition are marked deleted. */
  method WhereClause(t: Table, c: Cond)
    requires t.Valid() && CondFits(c, t.columns) && AllRecordsFit(t.Contents(), t.columns)
    modifies t`blocks
    ensures t.Valid() && t.Contents() == Wanted(Passes(c, t.columns), old(t.Contents()))
    ensures AllSmall(old(t.Contents()), c, t.columns) ==> t.Contents() == Wanted(Satisfies(c, t.columns), old(t.Contents()))
  {
    WantedMeans(t.Contents(), c, t.columns);
    ghost var k, done, y := Pass(t.Contents(), Passes(c, t.columns)), [], 0;
    var b := 0;
    FilteredStart(t, k.keep);
    while b < |t.blocks|
      invariant b <= |t.blocks| == |old(t.blocks)| && Filtered(t, k.keep, k.was, y, done)
      invariant LiveBelow(t.blocks, b) == |done|
      decreases |old(t.blocks)| - b
    {
      y, done := WherePage(t, c, b, k, y, done);
      b := b + 1;
    }
    FilteredAll(t, k.keep, k.was, y, done);
  }

  // ---------------------------------------------------------------- the SELECT list

  /** The loop over the SELECT list. */
  method Listed(names: seq<string>, name: string) returns (found: bool)
    ensures found == (name in names)
  {
    found := false;
    for i := 0 to |names|
      invariant !found && name !in names[..i]
    {
      if names[i] == name {
        return true;
      }
    }
    assert names[..|names|] == names;
  }

  /** `drop` holds the columns before `i` that the list does not name, first to last. */
  ghost predicate Unlisted(cs: seq<Column>, names: seq<string>, i: nat, drop: seq<nat>) {
    && i <= |cs|
    && (forall m :: 0 <= m < |drop| ==> drop[m] < i && cs[drop[m]].name !in names)
    && (forall m, n :: 0 <= m < n < |drop| ==> drop[m] < drop[n])
    && forall j :: 0 <= j < i ==> cs[j].name in names || j in drop
  }

  /** Which columns have to go. */
  method FindUnlisted(cs: seq<Column>, names: seq<string>) returns (drop: seq<nat>)
    ensures Unlisted(cs, names, |cs|, drop)
  {
    drop := [];
    for i := 0 to |cs|
      invariant Unlisted(cs, names, i, drop)
    {
      var found := Listed(names, cs[i].name);
      if !found {
        drop := drop + [i];
      }
    }
  }

  /** Where the columns from `drop[m]` on have been dealt with. */
  ghost function DealtFrom(cs: seq<Column>, drop: seq<nat>, m: nat): nat
    requires m <= |drop|
  {
    if m == |drop| then |cs| else drop[m]
  }

  /** `drop` holds just the columns that the list does not name; folded. */
  ghost predicate AllUnlisted(cs: seq<Column>, names: seq<string>, drop: seq<nat>) {
    forall x :: Look(x) ==> Unlisted(cs, names, |cs|, drop)
  }

  lemma {:induction false} KeptBetween(cs: seq<Column>, names: seq<string>, drop: seq<nat>, m: nat)
    requires AllUnlisted(cs, names, drop) && m <= |drop|
    ensures DealtFrom(cs, drop, m) <= |cs|
    ensures forall j :: (if m == 0 then 0 else drop[m - 1] + 1) <= j < DealtFrom(cs, drop, m) ==> cs[j].name in names
    ensures m > 0 ==> drop[m - 1] < DealtFrom(cs, drop, m) && cs[drop[m - 1]].name !in names
  {
    assert Look(0);
    forall j | (if m == 0 then 0 else drop[m - 1] + 1) <= j < DealtFrom(cs, drop, m) ensures j !in drop {
      forall n | 0 <= n < |drop| ensures drop[n] != j {}
    }
  }

  /** The table with everything from `p` on picked; folded. */
  ghost predicate PickedFrom(t: Table, cs: seq<Column>, rows: seq<Record>, names: seq<string>, p: nat)
    reads t
  {
    forall x :: Look(x) ==>
      && t.Valid() && p <= |cs| && t.columns == cs[..p] + Picked(cs, cs, names, p)
      && t.Contents() == PartlyPicked(rows, cs, names, p)
  }

  /** The rows are as wide as the columns; folded. */
  ghost predicate AllWide(rows: seq<Record>, cs: seq<Column>) {
    forall x :: Look(x) ==> NamesDiffer(cs) && forall k :: 0 <= k < |rows| ==> |rows[k].values| == |cs|
  }

  /** One column goes. */
  method DropColumn(t: Table, q: nat, ghost p: nat, ghost cs: seq<Column>, ghost rows: seq<Record>, ghost names: seq<string>)
    requires PickedFrom(t, cs, rows, names, p) && AllWide(rows, cs) && q < p <= |cs|
    requires cs[q].name !in names && forall j :: q < j < p ==> cs[j].name in names
    modifies t
    ensures PickedFrom(t, cs, rows, names, q) && |t.blocks| == |old(t.blocks)|
  {
    assert Look(0);
    assert t.columns[q] == cs[q];
    var ok, pos := t.RemColumn(t.columns[q].name);
    assert pos == q;
    TakenOut(cs, cs, names, q, p);
    RowsTakenOut(rows, cs, names, q, p);
  }

  lemma {:induction false} NonePicked(t: Table, names: seq<string>)
    requires t.Valid() && NamesDiffer(t.columns)
    ensures Even(t.Contents(), |t.columns|) && AllWide(t.Contents(), t.columns)
    ensures PickedFrom(t, t.columns, t.Contents(), names, |t.columns|)
  {
    LiveRowsFit(t.blocks, t.columns);
    NothingPicked(t.Contents(), t.columns, names);
    assert t.columns[..|t.columns|] + Picked(t.columns, t.columns, names, |t.columns|) == t.columns;
  }

  lemma {:induction false} AllDealtWith(t: Table, cs: seq<Column>, rows: seq<Record>, names: seq<string>, drop: seq<nat>)
    requires AllUnlisted(cs, names, drop) && AllWide(rows, cs) && Even(rows, |cs|)
    requires PickedFrom(t, cs, rows, names, DealtFrom(cs, drop, 0))
    ensures t.Valid() && t.columns == Picked(cs, cs, names, 0) && t.Contents() == PickedRecords(rows, cs, names)
  {
    assert Look(0);
    KeptBetween(cs, names, drop, 0);
    AllPicked(rows, cs, names, DealtFrom(cs, drop, 0));
  }

  /** The second loop: the columns go, the last one first. */
  method DropColumns(t: Table, drop: seq<nat>, ghost cs: seq<Column>, ghost rows: seq<Record>, ghost names: seq<string>)
    requires PickedFrom(t, cs, rows, names, |cs|) && AllWide(rows, cs) && AllUnlisted(cs, names, drop)
    modifies t
    ensures PickedFrom(t, cs, rows, names, DealtFrom(cs, drop, 0)) && |t.blocks| == |old(t.blocks)|
  {
    var m: nat := |drop|;
    while m > 0
      invariant m <= |drop| && PickedFrom(t, cs, rows, names, DealtFrom(cs, drop, m)) && |t.blocks| == |old(t.blocks)|
    {
      KeptBetween(cs, names, drop, m);
      DropColumn(t, drop[m - 1], DealtFrom(cs, drop, m), cs, rows, names);
      m := m - 1;
    }
  }

  /**
   proc_select_clause: the columns that the list does not name go. The others read what they read before if and only if each
   comes to a place with the NULL bit of its own, in every row.
   */
  method SelectClause(t: Table, names: seq<string>)
    requires t.Valid() && NamesDiffer(t.columns)
    modifies t
    ensures t.Valid() && |t.blocks| == |old(t.blocks)|
    ensures t.columns == Picked(old(t.columns), old(t.columns), names, 0)
    ensures Even(old(t.Contents()), |old(t.columns)|)
    ensures t.Contents() == PickedRecords(old(t.Contents()), old(t.columns), names)
    ensures ReadsAsPicked(t.Contents(), old(t.Contents()), old(t.columns), names)
            <==> forall k :: 0 <= k < |old(t.Contents())| ==>
                   BitsMeet(old(t.Contents())[k].nulls, Places(old(t.columns), names, 0))
  {
    ghost var cs, rows := t.columns, t.Contents();
    NonePicked(t, names);
    var drop := FindUnlisted(t.columns, names);
    DropColumns(t, drop, cs, rows, names);
    AllDealtWith(t, cs, rows, names, drop);
    AllPickedExactly(rows, cs, names);
  }

  // ---------------------------------------------------------------- a whole statement

  /** A table that holds a row has a page. */
  lemma {:induction false} HasPage(t: Table)
    requires t.Contents() != []
    ensures t.blocks != []
  {}

  lemma {:induction false} JoinedFit(q: Join, xs: seq<Record>, ys: seq<Record>)
    requires Ready(q) && AllRecordsFit(xs, q.left.columns) && AllRecordsFit(ys, q.right.columns)
    ensures AllRecordsFit(JoinRows(q, xs, ys), q.dst)
  {
    JoinExactly(q, xs, ys);
    var rs, ps := JoinRows(q, xs, ys), Pairs(Matrix(q, xs, ys), |xs|, |ys|);
    forall i | 0 <= i < |rs| ensures RecordFits(rs[i], q.dst) {
      assert Matched(q, xs[ps[i].x], ys[ps[i].y]) == Some(rs[i]);
    }
  }

  /** The FROM and WHERE clauses: join into an empty table and filter. */
  method JoinWhere(mat: Table, left: Table, right: Table, q: Join, where_: Cond)
    requires mat != left && mat != right && left.Valid() && right.Valid() && mat.Valid() && mat.blocks == []
    requires SidesOf(q, left, right) && mat.columns == q.dst && CondFits(where_, q.dst)
    requires JoinRows(q, left.Contents(), right.Contents()) != []
    modifies mat
    ensures mat.Valid() && mat.columns == q.dst && mat.blocks != []
    ensures AllRecordsFit(JoinRows(q, left.Contents(), right.Contents()), q.dst)
    ensures mat.Contents() == Wanted(Passes(where_, q.dst), JoinRows(q, left.Contents(), right.Contents()))
    ensures AllSmall(JoinRows(q, left.Contents(), right.Contents()), where_, q.dst) ==>
              mat.Contents() == Wanted(Satisfies(where_, q.dst), JoinRows(q, left.Contents(), right.Contents()))
  {
    ghost var rows := JoinRows(q, left.Contents(), right.Contents());
    assert mat.Contents() == [];
    JoinTables(mat, left, right, q);
    assert mat.Contents() == rows;
    JoinedFit(q, left.Contents(), right.Contents());
    FilterJoined(mat, rows, where_);
  }

  /** The WHERE clause on rows that have just been joined. */
  method FilterJoined(mat: Table, ghost rows: seq<Record>, where_: Cond)
    requires mat.Valid() && CondFits(where_, mat.columns) && AllRecordsFit(rows, mat.columns) && rows != []
    requires mat.Contents() == rows
    modifies mat`blocks
    ensures mat.Valid() && mat.blocks != [] && mat.Contents() == Wanted(Passes(where_, mat.columns), rows)
    ensures AllSmall(rows, where_, mat.columns) ==> mat.Contents() == Wanted(Satisfies(where_, mat.columns), rows)
  {
    HasPage(mat);
    WhereClause(mat, where_);
  }

  /**
   SELECT from two joined tables with a WHERE clause and no grouping: join into an empty table, filter, keep the columns of
   the list, compact. The compaction needs a page, so some pair must have satisfied ON; the list names a column that is not
   a count.
   */
  method SelectJoin(mat: Table, left: Table, right: Table, q: Join, where_: Cond, names: seq<string>)
    requires mat != left && mat != right && left.Valid() && right.Valid() && mat.Valid() && mat.blocks == []
    requires SidesOf(q, left, right) && mat.columns == q.dst && CondFits(where_, q.dst) && NamesDiffer(q.dst)
    requires exists j :: 0 <= j < |q.dst| && q.dst[j].name in names && !q.dst[j].isCount
    requires JoinRows(q, left.Contents(), right.Contents()) != []
    modifies mat
    ensures mat.Valid() && mat.columns == Picked(q.dst, q.dst, names, 0)
    ensures AllRecordsFit(JoinRows(q, left.Contents(), right.Contents()), q.dst)
    ensures var rows := Wanted(Passes(where_, q.dst), JoinRows(q, left.Contents(), right.Contents()));
            Even(rows, |q.dst|) && mat.Contents() == PickedRecords(rows, q.dst, names)
    ensures AllSmall(JoinRows(q, left.Contents(), right.Contents()), where_, q.dst) ==>
              var rows := Wanted(Satisfies(where_, q.dst), JoinRows(q, left.Contents(), right.Contents()));
              Even(rows, |q.dst|) && mat.Contents() == PickedRecords(rows, q.dst, names)
    ensures forall b, i :: 0 <= b < |mat.blocks| && 0 <= i < |mat.blocks[b]| ==> !mat.blocks[b][i].deleted
  {
    JoinWhere(mat, left, right, q, where_);
    SelectClause(mat, names);
    mat.Vacuum();
  }
}
