/**
 Rows in pages, as values: the slot layout that insert's page test fixes, the live rows in scan order, and the
 heap buffers that rows point to (src/primitive/row.c, src/primitive/vacuum.c, src/primitive/table.c).
 */
module RowStore {

  const PAGE: nat := 4096
  /** sizeof(struct row): two flags and a bitmap of 128 bits, the data after it aligned to eight bytes. */
  const HEADER: nat := 24
  const MAX_COLUMNS: nat := 128

  datatype ColumnType = Varchar | Integer | TinyInt | Double | Date | DateTime

  datatype Column = Column(name: string, kind: ColumnType, precision: nat, isCount: bool)

  /** What a row keeps per column: the value itself or, for VARCHAR, a pointer (0 is the null pointer). */
  datatype Cell = Num(num: int) | Ptr(ptr: nat)

  datatype Row = Row(empty: bool, deleted: bool, nulls: seq<bool>, cells: seq<Cell>)

  const EmptyRow := Row(true, false, [], [])

  type Page = seq<Row>

  // ---------------------------------------------------------------- sizes

  /** table_calc_column_space */
  function Space(c: Column): nat {
    if c.kind == Varchar then 8 else c.precision
  }

  function DataSize(cs: seq<Column>): nat {
    if cs == [] then 0 else DataSize(cs[..|cs| - 1]) + Space(cs[|cs| - 1])
  }

  /** table_calc_row_size */
  function RowSize(cs: seq<Column>): (len: nat)
    ensures len >= HEADER
  {
    HEADER + DataSize(cs)
  }

  /** How many slots the loops over a page visit. */
  function Slots(len: nat): nat
    requires 0 < len
  {
    PAGE / len
  }

  /** How many rows insert puts into a page before it asks for another one. */
  function Capacity(len: nat): nat
    requires 0 < len
  {
    (PAGE - 1) / len
  }

  /** The page test of insert, add-column and vacuum, in slots. */
  lemma {:induction false} PageTest(j: nat, len: nat)
    requires 0 < len
    ensures j * len + len >= PAGE <==> j >= Capacity(len)
  {
    var c := Capacity(len);
    assert c * len <= PAGE - 1 < c * len + len;
    if j >= c {
      assert j * len >= c * len by { MulMonotone(c, j, len); }
    } else {
      assert (j + 1) * len <= c * len by { MulMonotone(j + 1, c, len); }
    }
  }

  lemma {:induction false} MulMonotone(a: nat, b: nat, n: nat)
    requires a <= b
    ensures a * n <= b * n
  {}

  /** Multiples in order come from factors in order. */
  lemma {:induction false} MulLess(a: nat, b: nat, n: nat)
    ensures a * n < b * n ==> a < b
  {
    if b <= a {
      MulMonotone(b, a, n);
    }
  }

  lemma {:induction false} QuotientBounds(x: nat, n: nat)
    requires 0 < n
    ensures x / n * n <= x < (x / n + 1) * n
  {}

  lemma {:induction false} SlotOfOffset(j: nat, len: nat)
    requires 0 < len
    ensures j * len / len == j
  {
    var q := j * len / len;
    QuotientBounds(j * len, len);
    MulLess(j, q + 1, len);
    NextFactor(j, len);
    MulLess(q, j + 1, len);
  }

  /** The quotient grows with the dividend, by at most one when the dividend grows by one. */
  lemma {:induction false} QuotientStep(x: nat, n: nat)
    requires 0 < n
    ensures x / n <= (x + 1) / n <= x / n + 1
  {
    var c, s := x / n, (x + 1) / n;
    QuotientBounds(x, n);
    QuotientBounds(x + 1, n);
    MulLess(c, s + 1, n);
    NextFactor(c + 1, n);
    MulLess(s, c + 2, n);
  }

  lemma {:induction false} NextFactor(a: nat, n: nat)
    ensures (a + 1) * n == a * n + n
  {}

  /** A page has at most one slot that insert never fills. */
  lemma {:induction false} CapacitySlots(len: nat)
    requires 0 < len < PAGE
    ensures 1 <= Capacity(len) <= Slots(len) <= Capacity(len) + 1
  {
    QuotientStep(PAGE - 1, len);
    QuotientBounds(PAGE - 1, len);
    MulLess(1, Capacity(len) + 1, len);
  }

  // ---------------------------------------------------------------- live rows

  predicate IsLive(r: Row) {
    !r.empty && !r.deleted
  }

  ghost function LiveOf(r: Row): seq<Row> {
    if IsLive(r) then [r] else []
  }

  /** The live rows of a page in slot order. */
  ghost function Live(p: Page): seq<Row> {
    if p == [] then [] else Live(p[..|p| - 1]) + LiveOf(p[|p| - 1])
  }

  /** The live rows of a table in scan order. */
  ghost function LiveAll(ps: seq<Page>): seq<Row> {
    if ps == [] then [] else LiveAll(ps[..|ps| - 1]) + Live(ps[|ps| - 1])
  }

  lemma {:induction false} LiveConcat(a: Page, b: Page)
    ensures Live(a + b) == Live(a) + Live(b)
  {
    if b == [] {
      assert a + b == a;
    } else {
      assert (a + b)[..|a + b| - 1] == a + b[..|b| - 1];
      LiveConcat(a, b[..|b| - 1]);
    }
  }

  lemma {:induction false} LiveAllConcat(a: seq<Page>, b: seq<Page>)
    ensures LiveAll(a + b) == LiveAll(a) + LiveAll(b)
  {
    if b == [] {
      assert a + b == a;
    } else {
      assert (a + b)[..|a + b| - 1] == a + b[..|b| - 1];
      LiveAllConcat(a, b[..|b| - 1]);
    }
  }

  lemma {:induction false} LiveOne(r: Row)
    ensures Live([r]) == LiveOf(r)
  {
    assert [r][..0] == [];
  }

  lemma {:induction false} LiveAllOne(p: Page)
    ensures LiveAll([p]) == Live(p)
  {
    assert [p][..0] == [];
  }

  lemma {:induction false} LiveNone(p: Page)
    requires forall i :: 0 <= i < |p| ==> !IsLive(p[i])
    ensures Live(p) == []
  {
    if p != [] {
      LiveNone(p[..|p| - 1]);
    }
  }

  lemma {:induction false} LiveAllNone(ps: seq<Page>)
    requires forall b :: 0 <= b < |ps| ==> Live(ps[b]) == []
    ensures LiveAll(ps) == []
  {
    if ps != [] {
      LiveAllNone(ps[..|ps| - 1]);
    }
  }

  /** A page around one of its slots. */
  lemma {:induction false} LiveAt(p: Page, i: nat, r: Row)
    requires i < |p|
    ensures Live(p) == Live(p[..i]) + LiveOf(p[i]) + Live(p[i + 1..])
    ensures Live(p[i := r]) == Live(p[..i]) + LiveOf(r) + Live(p[i + 1..])
  {
    assert p == p[..i] + [p[i]] + p[i + 1..] && p[i := r] == p[..i] + [r] + p[i + 1..];
    LiveConcat(p[..i] + [p[i]], p[i + 1..]);
    LiveConcat(p[..i], [p[i]]);
    LiveConcat(p[..i] + [r], p[i + 1..]);
    LiveConcat(p[..i], [r]);
    LiveOne(p[i]);
    LiveOne(r);
  }

  /** A table around one of its pages. */
  lemma {:induction false} LiveAllAt(ps: seq<Page>, b: nat, p: Page)
    requires b < |ps|
    ensures LiveAll(ps) == LiveAll(ps[..b]) + Live(ps[b]) + LiveAll(ps[b + 1..])
    ensures LiveAll(ps[b := p]) == LiveAll(ps[..b]) + Live(p) + LiveAll(ps[b + 1..])
  {
    assert ps == ps[..b] + [ps[b]] + ps[b + 1..] && ps[b := p] == ps[..b] + [p] + ps[b + 1..];
    LiveAllConcat(ps[..b] + [ps[b]], ps[b + 1..]);
    LiveAllConcat(ps[..b], [ps[b]]);
    LiveAllConcat(ps[..b] + [p], ps[b + 1..]);
    LiveAllConcat(ps[..b], [p]);
    LiveAllOne(ps[b]);
    LiveAllOne(p);
  }

  function SetSlot(ps: seq<Page>, b: nat, i: nat, r: Row): seq<Page>
    requires b < |ps| && i < |ps[b]|
  {
    ps[b := ps[b][i := r]]
  }

  // ---------------------------------------------------------------- moving a row down

  /** Nothing live from slot `j` of page `d` up to slot `i` of page `s`. */
  ghost predicate DeadBetween(ps: seq<Page>, d: nat, j: nat, s: nat, i: nat) {
    && d <= s < |ps| && j <= |ps[d]| && i <= |ps[s]|
    && if d == s then forall q :: j <= q < i ==> !IsLive(ps[d][q]) else
         && (forall q :: j <= q < |ps[d]| ==> !IsLive(ps[d][q]))
         && (forall b, q :: d < b < s && 0 <= q < |ps[b]| ==> !IsLive(ps[b][q]))
         && (forall q :: 0 <= q < i ==> !IsLive(ps[s][q]))
  }

  /** The store after the row in slot `i` of page `s` has moved to slot `j` of page `d`. */
  ghost function Moved(ps: seq<Page>, d: nat, j: nat, s: nat, i: nat): (r: seq<Page>)
    requires d < |ps| && s < |ps| && j < |ps[d]| && i < |ps[s]| && (d != s || j != i)
    ensures |r| == |ps| && forall b :: 0 <= b < |ps| ==> |r[b]| == |ps[b]|
  {
    SetSlot(SetSlot(ps, d, j, ps[s][i]), s, i, EmptyRow)
  }

  /** Dead rows before or after a live one do not show. */
  lemma {:induction false} LiveAfterDead(a: Page, d: Page, r: Row, c: Page)
    requires IsLive(r) && forall q :: 0 <= q < |d| ==> !IsLive(d[q])
    ensures Live(a + d + [r] + c) == Live(a) + [r] + Live(c)
  {
    LiveNone(d);
    LiveOne(r);
    LiveConcat(a, d);
    assert Live(a + d) == Live(a);
    LiveConcat(a + d, [r]);
    LiveConcat(a + d + [r], c);
  }

  lemma {:induction false} LiveBeforeDead(a: Page, d: Page, r: Row, c: Page)
    requires IsLive(r) && forall q :: 0 <= q < |d| ==> !IsLive(d[q])
    ensures Live(a + [r] + d + c) == Live(a) + [r] + Live(c)
  {
    LiveNone(d);
    LiveOne(r);
    LiveConcat(a, [r]);
    LiveConcat(a + [r], d);
    assert Live(a + [r] + d) == Live(a + [r]);
    LiveConcat(a + [r] + d, c);
  }

  lemma {:induction false} MovedWithin(p: Page, j: nat, i: nat)
    requires j < i < |p| && IsLive(p[i]) && forall q :: j <= q < i ==> !IsLive(p[q])
    ensures Live(p[j := p[i]][i := EmptyRow]) == Live(p)
  {
    var a, d, r, c := p[..j], p[j..i], p[i], p[i + 1..];
    var d2 := p[j + 1..i] + [EmptyRow];
    assert p == a + d + [r] + c;
    assert p[j := r][i := EmptyRow] == a + [r] + d2 + c;
    LiveAfterDead(a, d, r, c);
    LiveBeforeDead(a, d2, r, c);
  }

  lemma {:induction false} MovedPieces(ps: seq<Page>, d: nat, j: nat, s: nat, i: nat)
    requires d < s < |ps| && j < |ps[d]| && i < |ps[s]|
    ensures ps == ps[..d] + [ps[d]] + ps[d + 1..s] + [ps[s]] + ps[s + 1..]
    ensures Moved(ps, d, j, s, i)
            == ps[..d] + [ps[d][j := ps[s][i]]] + ps[d + 1..s] + [ps[s][i := EmptyRow]] + ps[s + 1..]
  {}

  lemma {:induction false} MovedAcross(ps: seq<Page>, d: nat, j: nat, s: nat, i: nat)
    requires d < s && DeadBetween(ps, d, j, s, i) && j < |ps[d]| && i < |ps[s]| && IsLive(ps[s][i])
    ensures LiveAll(Moved(ps, d, j, s, i)) == LiveAll(ps)
  {
    var a, mid, c := ps[..d], ps[d + 1..s], ps[s + 1..];
    var pd, pt := ps[d][j := ps[s][i]], ps[s][i := EmptyRow];
    MovedPieces(ps, d, j, s, i);
    MidDead(ps, d, s);
    LiveAllFive(a, ps[d], mid, ps[s], c);
    LiveAllFive(a, pd, mid, pt, c);
    MovedEnds(ps[d], j, ps[s], i);
    Regroup(LiveAll(a), Live(pd), Live(pt), LiveAll(c));
    Regroup(LiveAll(a), Live(ps[d]), Live(ps[s]), LiveAll(c));
  }

  lemma {:induction false} Regroup(a: seq<Row>, b: seq<Row>, c: seq<Row>, d: seq<Row>)
    ensures a + b + c + d == a + (b + c) + d
  {}

  lemma {:induction false} LiveAllSnoc(a: seq<Page>, p: Page)
    ensures LiveAll(a + [p]) == LiveAll(a) + Live(p)
  {
    assert (a + [p])[..|a + [p]| - 1] == a;
  }

  lemma {:induction false} LiveAllFive(a: seq<Page>, p: Page, mid: seq<Page>, q: Page, c: seq<Page>)
    requires LiveAll(mid) == []
    ensures LiveAll(a + [p] + mid + [q] + c) == LiveAll(a) + Live(p) + Live(q) + LiveAll(c)
  {
    var b, d := a + [p] + mid, a + [p] + mid + [q];
    LiveAllSnoc(a, p);
    LiveAllConcat(a + [p], mid);
    assert LiveAll(b) == LiveAll(a + [p]);
    LiveAllSnoc(b, q);
    LiveAllConcat(d, c);
  }

  lemma {:induction false} MidDead(ps: seq<Page>, d: nat, s: nat)
    requires d < s < |ps| && forall b, q :: d < b < s && 0 <= q < |ps[b]| ==> !IsLive(ps[b][q])
    ensures LiveAll(ps[d + 1..s]) == []
  {
    var mid := ps[d + 1..s];
    forall b | 0 <= b < |mid| ensures Live(mid[b]) == [] {
      assert mid[b] == ps[d + 1 + b];
      LiveNone(mid[b]);
    }
    LiveAllNone(mid);
  }

  lemma {:induction false} MovedEnds(p: Page, j: nat, q: Page, i: nat)
    requires j < |p| && i < |q| && IsLive(q[i])
    requires forall k :: j <= k < |p| ==> !IsLive(p[k])
    requires forall k :: 0 <= k < i ==> !IsLive(q[k])
    ensures Live(p[j := q[i]]) + Live(q[i := EmptyRow]) == Live(p) + Live(q)
  {
    LastSlot(p, j, q[i]);
    FirstSlot(q, i);
  }

  lemma {:induction false} LastSlot(p: Page, j: nat, r: Row)
    requires j < |p| && IsLive(r) && forall k :: j <= k < |p| ==> !IsLive(p[k])
    ensures Live(p[j := r]) == Live(p) + [r]
  {
    LiveAt(p, j, r);
    LiveNone(p[j + 1..]);
    assert Live(p) == Live(p[..j]) && Live(p[j := r]) == Live(p[..j]) + [r];
  }

  lemma {:induction false} FirstSlot(q: Page, i: nat)
    requires i < |q| && IsLive(q[i]) && forall k :: 0 <= k < i ==> !IsLive(q[k])
    ensures [q[i]] + Live(q[i := EmptyRow]) == Live(q)
  {
    LiveAt(q, i, EmptyRow);
    LiveNone(q[..i]);
    assert Live(q) == [q[i]] + Live(q[i + 1..]) && Live(q[i := EmptyRow]) == Live(q[i + 1..]);
  }

  /** Moving a live row down past dead ones keeps the live rows and their order. */
  lemma {:induction false} MovedLive(ps: seq<Page>, d: nat, j: nat, s: nat, i: nat)
    requires DeadBetween(ps, d, j, s, i) && j < |ps[d]| && i < |ps[s]| && IsLive(ps[s][i]) && (d == s ==> j < i)
    ensures LiveAll(Moved(ps, d, j, s, i)) == LiveAll(ps)
  {
    if d < s {
      MovedAcross(ps, d, j, s, i);
    } else {
      var p := ps[d][j := ps[d][i]][i := EmptyRow];
      MovedWithin(ps[d], j, i);
      LiveAllAt(ps, d, p);
      assert Moved(ps, d, j, s, i) == ps[d := p];
    }
  }

  // ---------------------------------------------------------------- buffers

  function PtrCount(c: Cell, q: nat): nat {
    if c == Ptr(q) then 1 else 0
  }

  /** How often the cells point to buffer `q`. */
  ghost function CellRefs(cs: seq<Cell>, q: nat): nat {
    if cs == [] then 0 else CellRefs(cs[..|cs| - 1], q) + PtrCount(cs[|cs| - 1], q)
  }

  /** An empty slot points to nothing, whatever its bytes are. */
  ghost function RowRefs(r: Row, q: nat): nat {
    if r.empty then 0 else CellRefs(r.cells, q)
  }

  ghost function PageRefs(p: Page, q: nat): nat {
    if p == [] then 0 else PageRefs(p[..|p| - 1], q) + RowRefs(p[|p| - 1], q)
  }

  ghost function StoreRefs(ps: seq<Page>, q: nat): nat {
    if ps == [] then 0 else StoreRefs(ps[..|ps| - 1], q) + PageRefs(ps[|ps| - 1], q)
  }

  lemma {:induction false} CellRefsSet(cs: seq<Cell>, i: nat, c: Cell, q: nat)
    requires i < |cs|
    ensures CellRefs(cs[i := c], q) == CellRefs(cs, q) - PtrCount(cs[i], q) + PtrCount(c, q)
  {
    var n := |cs| - 1;
    if i == n {
      assert cs[i := c][..n] == cs[..n];
    } else {
      assert cs[i := c][..n] == cs[..n][i := c];
      CellRefsSet(cs[..n], i, c, q);
    }
  }

  lemma {:induction false} CellRefsConcat(a: seq<Cell>, b: seq<Cell>, q: nat)
    ensures CellRefs(a + b, q) == CellRefs(a, q) + CellRefs(b, q)
  {
    if b == [] {
      assert a + b == a;
    } else {
      assert (a + b)[..|a + b| - 1] == a + b[..|b| - 1];
      CellRefsConcat(a, b[..|b| - 1], q);
    }
  }

  lemma {:induction false} PageRefsSet(p: Page, i: nat, r: Row, q: nat)
    requires i < |p|
    ensures PageRefs(p[i := r], q) == PageRefs(p, q) - RowRefs(p[i], q) + RowRefs(r, q)
  {
    var n := |p| - 1;
    if i == n {
      assert p[i := r][..n] == p[..n];
    } else {
      assert p[i := r][..n] == p[..n][i := r];
      PageRefsSet(p[..n], i, r, q);
    }
  }

  lemma {:induction false} StoreRefsSet(ps: seq<Page>, b: nat, p: Page, q: nat)
    requires b < |ps|
    ensures StoreRefs(ps[b := p], q) == StoreRefs(ps, q) - PageRefs(ps[b], q) + PageRefs(p, q)
  {
    var n := |ps| - 1;
    if b == n {
      assert ps[b := p][..n] == ps[..n];
    } else {
      assert ps[b := p][..n] == ps[..n][b := p];
      StoreRefsSet(ps[..n], b, p, q);
    }
  }

  lemma {:induction false} SetSlotRefs(ps: seq<Page>, b: nat, i: nat, r: Row, q: nat)
    requires b < |ps| && i < |ps[b]|
    ensures StoreRefs(SetSlot(ps, b, i, r), q) == StoreRefs(ps, q) - RowRefs(ps[b][i], q) + RowRefs(r, q)
  {
    PageRefsSet(ps[b], i, r, q);
    StoreRefsSet(ps, b, ps[b][i := r], q);
  }

  /** A move gives up what the overwritten slot pointed to, and nothing else. */
  lemma {:induction false} MovedRefs(ps: seq<Page>, d: nat, j: nat, s: nat, i: nat, q: nat)
    requires d < |ps| && s < |ps| && j < |ps[d]| && i < |ps[s]| && (d != s || j != i)
    ensures StoreRefs(Moved(ps, d, j, s, i), q) == StoreRefs(ps, q) - RowRefs(ps[d][j], q)
  {
    var ps1 := SetSlot(ps, d, j, ps[s][i]);
    SetSlotRefs(ps, d, j, ps[s][i], q);
    assert ps1[s][i] == ps[s][i];
    SetSlotRefs(ps1, s, i, EmptyRow, q);
  }

  lemma {:induction false} StoreRefsConcat(a: seq<Page>, b: seq<Page>, q: nat)
    ensures StoreRefs(a + b, q) == StoreRefs(a, q) + StoreRefs(b, q)
  {
    if b == [] {
      assert a + b == a;
    } else {
      assert (a + b)[..|a + b| - 1] == a + b[..|b| - 1];
      StoreRefsConcat(a, b[..|b| - 1], q);
    }
  }

  lemma {:induction false} PageRefsEmpty(p: Page, q: nat)
    requires forall i :: 0 <= i < |p| ==> p[i].empty
    ensures PageRefs(p, q) == 0
  {
    if p != [] {
      PageRefsEmpty(p[..|p| - 1], q);
    }
  }

  lemma {:induction false} StoreRefsOne(p: Page, q: nat)
    ensures StoreRefs([p], q) == PageRefs(p, q)
  {
    assert [p][..0] == [];
  }

  /** What a row points to counts for the table. */
  lemma {:induction false} RowRefsWithin(ps: seq<Page>, b: nat, i: nat, q: nat)
    requires b < |ps| && i < |ps[b]|
    ensures RowRefs(ps[b][i], q) <= StoreRefs(ps, q)
  {
    SetSlotRefs(ps, b, i, EmptyRow, q);
  }

  // ---------------------------------------------------------------- shape of a table

  predicate Blank(r: Row) {
    r.empty && !r.deleted
  }

  /** Exactly the first `n` slots are taken. */
  ghost predicate Prefix(p: Page, n: nat) {
    n <= |p| && (forall i :: 0 <= i < n ==> !p[i].empty) && forall i :: n <= i < |p| ==> Blank(p[i])
  }

  ghost predicate Fits(r: Row, cs: seq<Column>) {
    !r.empty ==> |r.cells| == |cs| && |r.nulls| == MAX_COLUMNS
                 && forall i :: 0 <= i < |cs| ==> (r.cells[i].Ptr? <==> cs[i].kind == Varchar)
  }

  ghost predicate AllFit(ps: seq<Page>, cs: seq<Column>) {
    forall b, i :: 0 <= b < |ps| && 0 <= i < |ps[b]| ==> Fits(ps[b][i], cs)
  }

  /** Page by page, as many slots as the row size gives, filled from the front and never past the capacity. */
  ghost predicate Shaped(ps: seq<Page>, used: seq<nat>, len: nat)
    requires 0 < len
  {
    && |used| == |ps|
    && forall b :: 0 <= b < |ps| ==> |ps[b]| == Slots(len) && Prefix(ps[b], used[b]) && used[b] <= Capacity(len)
  }

  /** Every buffer is pointed to exactly once, by a row that is not empty, and nothing else is pointed to. */
  ghost predicate Owned(ps: seq<Page>, heap: map<nat, string>) {
    0 !in heap && forall q :: q != 0 ==> StoreRefs(ps, q) == InHeap(heap, q)
  }

  ghost function InHeap(heap: map<nat, string>, q: nat): nat {
    if q in heap then 1 else 0
  }

  // ---------------------------------------------------------------- what a row says

  datatype Value = IntValue(n: int) | StrValue(s: string) | Dangling

  datatype Record = Record(nulls: seq<bool>, values: seq<Value>)

  function Read(c: Cell, heap: map<nat, string>): Value {
    match c
    case Num(n) => IntValue(n)
    case Ptr(p) => if p in heap then StrValue(heap[p]) else Dangling
  }

  function ReadAll(cs: seq<Cell>, heap: map<nat, string>): (r: seq<Value>)
    ensures |r| == |cs| && forall i :: 0 <= i < |cs| ==> r[i] == Read(cs[i], heap)
  {
    seq(|cs|, i requires 0 <= i < |cs| => Read(cs[i], heap))
  }

  /** The live rows with their strings, in scan order. */
  function Records(rs: seq<Row>, heap: map<nat, string>): (r: seq<Record>)
    ensures |r| == |rs| && forall i :: 0 <= i < |rs| ==> r[i] == Record(rs[i].nulls, ReadAll(rs[i].cells, heap))
  {
    seq(|rs|, i requires 0 <= i < |rs| => Record(rs[i].nulls, ReadAll(rs[i].cells, heap)))
  }

  // ---------------------------------------------------------------- strings stay put

  /** Every pointer of these rows is null or outstanding. */
  ghost predicate Anchored(rs: seq<Row>, heap: map<nat, string>) {
    forall k, i :: 0 <= k < |rs| && 0 <= i < |rs[k].cells| ==> AnchoredCell(rs[k].cells[i], heap)
  }

  ghost predicate AnchoredCell(c: Cell, heap: map<nat, string>) {
    c.Ptr? ==> c.ptr == 0 || c.ptr in heap
  }

  lemma {:induction false} CellReferred(cs: seq<Cell>, i: nat)
    requires i < |cs| && cs[i].Ptr?
    ensures CellRefs(cs, cs[i].ptr) >= 1
  {
    CellRefsSet(cs, i, Num(0), cs[i].ptr);
  }

  lemma {:induction false} PageAnchored(p: Page, heap: map<nat, string>)
    requires forall q :: q != 0 ==> PageRefs(p, q) <= InHeap(heap, q)
    ensures Anchored(Live(p), heap)
  {
    if p != [] {
      var r := p[|p| - 1];
      assert forall q :: q != 0 ==> PageRefs(p[..|p| - 1], q) <= PageRefs(p, q) && RowRefs(r, q) <= PageRefs(p, q);
      PageAnchored(p[..|p| - 1], heap);
      if IsLive(r) {
        forall i | 0 <= i < |r.cells| ensures AnchoredCell(r.cells[i], heap) {
          if r.cells[i].Ptr? {
            CellReferred(r.cells, i);
            assert r.cells[i].ptr != 0 ==> RowRefs(r, r.cells[i].ptr) <= InHeap(heap, r.cells[i].ptr);
          }
        }
      }
    }
  }

  lemma {:induction false} StoreAnchored(ps: seq<Page>, heap: map<nat, string>)
    requires forall q :: q != 0 ==> StoreRefs(ps, q) <= InHeap(heap, q)
    ensures Anchored(LiveAll(ps), heap)
  {
    if ps != [] {
      var n := |ps| - 1;
      assert forall q :: q != 0 ==> StoreRefs(ps[..n], q) <= StoreRefs(ps, q) && PageRefs(ps[n], q) <= StoreRefs(ps, q);
      StoreAnchored(ps[..n], heap);
      PageAnchored(ps[n], heap);
    }
  }

  /** Buffers that come or go elsewhere do not change what these rows say. */
  lemma {:induction false} RecordsStable(rs: seq<Row>, small: map<nat, string>, large: map<nat, string>)
    requires Anchored(rs, small) && 0 !in large
    requires small.Keys <= large.Keys && forall q :: q in small ==> small[q] == large[q]
    ensures Records(rs, small) == Records(rs, large)
  {
    forall k | 0 <= k < |rs| ensures ReadAll(rs[k].cells, small) == ReadAll(rs[k].cells, large) {
      forall i | 0 <= i < |rs[k].cells| ensures Read(rs[k].cells[i], small) == Read(rs[k].cells[i], large) {
        assert AnchoredCell(rs[k].cells[i], small);
      }
    }
  }

  lemma {:induction false} RecordsConcat(a: seq<Row>, b: seq<Row>, heap: map<nat, string>)
    ensures Records(a + b, heap) == Records(a, heap) + Records(b, heap)
  {}

  // ---------------------------------------------------------------- appending

  /** A page as table_datablock_init leaves it. */
  function BlankPage(n: nat): (p: Page)
    ensures |p| == n && forall i :: 0 <= i < n ==> p[i] == EmptyRow
  {
    seq(n, _ => EmptyRow)
  }

  /** Taking the first free slot of the last page puts the row after all the others. */
  lemma {:induction false} AppendLive(ps: seq<Page>, n: nat, r: Row)
    requires ps != [] && Prefix(ps[|ps| - 1], n) && n < |ps[|ps| - 1]| && IsLive(r)
    ensures LiveAll(SetSlot(ps, |ps| - 1, n, r)) == LiveAll(ps) + [r]
  {
    var b := |ps| - 1;
    LastSlot(ps[b], n, r);
    LiveAllAt(ps, b, ps[b][n := r]);
  }

  lemma {:induction false} BlankPageLive(ps: seq<Page>, n: nat)
    ensures LiveAll(ps + [BlankPage(n)]) == LiveAll(ps)
    ensures forall q :: StoreRefs(ps + [BlankPage(n)], q) == StoreRefs(ps, q)
  {
    LiveNone(BlankPage(n));
    LiveAllConcat(ps, [BlankPage(n)]);
    LiveAllOne(BlankPage(n));
    forall q ensures StoreRefs(ps + [BlankPage(n)], q) == StoreRefs(ps, q) {
      StoreRefsConcat(ps, [BlankPage(n)], q);
      StoreRefsOne(BlankPage(n), q);
      PageRefsEmpty(BlankPage(n), q);
    }
  }

  // ---------------------------------------------------------------- one row among the live ones

  /** How many live rows stand before slot `i` of page `b`. */
  ghost function LiveIndex(ps: seq<Page>, b: nat, i: nat): nat
    requires b < |ps| && i < |ps[b]|
  {
    |LiveAll(ps[..b]) + Live(ps[b][..i])|
  }

  ghost function LiveBefore(ps: seq<Page>, b: nat, i: nat): seq<Row>
    requires b < |ps| && i < |ps[b]|
  {
    LiveAll(ps[..b]) + Live(ps[b][..i])
  }

  ghost function LiveAfter(ps: seq<Page>, b: nat, i: nat): seq<Row>
    requires b < |ps| && i < |ps[b]|
  {
    Live(ps[b][i + 1..]) + LiveAll(ps[b + 1..])
  }

  /** Changing one slot changes what it contributes and nothing else. */
  lemma {:induction false} LiveSet(ps: seq<Page>, b: nat, i: nat, r: Row)
    requires b < |ps| && i < |ps[b]|
    ensures LiveAll(ps) == LiveBefore(ps, b, i) + LiveOf(ps[b][i]) + LiveAfter(ps, b, i)
    ensures LiveAll(SetSlot(ps, b, i, r)) == LiveBefore(ps, b, i) + LiveOf(r) + LiveAfter(ps, b, i)
  {
    var x, y, u, v := LiveAll(ps[..b]), Live(ps[b][..i]), Live(ps[b][i + 1..]), LiveAll(ps[b + 1..]);
    LiveAt(ps[b], i, r);
    LiveAllAt(ps, b, ps[b][i := r]);
    Bracket(x, y, LiveOf(ps[b][i]), u, v);
    Bracket(x, y, LiveOf(r), u, v);
  }

  lemma {:induction false} Bracket(x: seq<Row>, y: seq<Row>, m: seq<Row>, u: seq<Row>, v: seq<Row>)
    ensures x + (y + m + u) + v == (x + y) + m + (u + v)
  {}

  ghost function ListRefs(rs: seq<Row>, q: nat): nat {
    if rs == [] then 0 else ListRefs(rs[..|rs| - 1], q) + RowRefs(rs[|rs| - 1], q)
  }

  lemma {:induction false} ListRefsConcat(a: seq<Row>, b: seq<Row>, q: nat)
    ensures ListRefs(a + b, q) == ListRefs(a, q) + ListRefs(b, q)
  {
    if b == [] {
      assert a + b == a;
    } else {
      assert (a + b)[..|a + b| - 1] == a + b[..|b| - 1];
      ListRefsConcat(a, b[..|b| - 1], q);
    }
  }

  lemma {:induction false} LiveRefs(p: Page, q: nat)
    ensures ListRefs(Live(p), q) <= PageRefs(p, q)
  {
    if p != [] {
      var r := p[|p| - 1];
      LiveRefs(p[..|p| - 1], q);
      ListRefsConcat(Live(p[..|p| - 1]), LiveOf(r), q);
      assert IsLive(r) ==> LiveOf(r)[..0] == [];
    }
  }

  lemma {:induction false} LiveAllRefs(ps: seq<Page>, q: nat)
    ensures ListRefs(LiveAll(ps), q) <= StoreRefs(ps, q)
  {
    if ps != [] {
      var n := |ps| - 1;
      LiveAllRefs(ps[..n], q);
      LiveRefs(ps[n], q);
      ListRefsConcat(LiveAll(ps[..n]), Live(ps[n]), q);
    }
  }

  lemma {:induction false} ListRefsAt(rs: seq<Row>, k: nat, q: nat)
    requires k < |rs|
    ensures RowRefs(rs[k], q) <= ListRefs(rs, q)
  {
    if k < |rs| - 1 {
      ListRefsAt(rs[..|rs| - 1], k, q);
    }
  }

  lemma {:induction false} LiveNotEmpty(ps: seq<Page>)
    ensures forall k :: 0 <= k < |LiveAll(ps)| ==> IsLive(LiveAll(ps)[k])
  {
    if ps != [] {
      LiveNotEmpty(ps[..|ps| - 1]);
      LivePageNotEmpty(ps[|ps| - 1]);
    }
  }

  lemma {:induction false} LivePageNotEmpty(p: Page)
    ensures forall k :: 0 <= k < |Live(p)| ==> IsLive(Live(p)[k])
  {
    if p != [] {
      LivePageNotEmpty(p[..|p| - 1]);
    }
  }

  // ---------------------------------------------------------------- deleting and updating one row

  function Except<T>(s: seq<T>, k: nat): seq<T>
    requires k < |s|
  {
    s[..k] + s[k + 1..]
  }

  /** Marking a live row deleted takes exactly that row out of the scan. */
  lemma {:induction false} DeleteLive(ps: seq<Page>, b: nat, i: nat)
    requires b < |ps| && i < |ps[b]| && IsLive(ps[b][i])
    ensures LiveIndex(ps, b, i) < |LiveAll(ps)| && LiveAll(ps)[LiveIndex(ps, b, i)] == ps[b][i]
    ensures LiveAll(SetSlot(ps, b, i, ps[b][i].(deleted := true))) == Except(LiveAll(ps), LiveIndex(ps, b, i))
  {
    LiveSet(ps, b, i, ps[b][i].(deleted := true));
  }

  /** Replacing a live row by a live row replaces it in the scan. */
  lemma {:induction false} ReplaceLive(ps: seq<Page>, b: nat, i: nat, r: Row)
    requires b < |ps| && i < |ps[b]| && IsLive(ps[b][i]) && IsLive(r)
    ensures LiveIndex(ps, b, i) < |LiveAll(ps)| && LiveAll(ps)[LiveIndex(ps, b, i)] == ps[b][i]
    ensures LiveAll(SetSlot(ps, b, i, r)) == LiveAll(ps)[LiveIndex(ps, b, i) := r]
  {
    LiveSet(ps, b, i, r);
  }

  /** Heaps that agree on what these rows point to give the same records. */
  lemma {:induction false} RecordsApart(rs: seq<Row>, h: map<nat, string>, g: map<nat, string>)
    requires forall k :: 0 <= k < |rs| ==> !rs[k].empty
    requires h.Keys == g.Keys && forall q :: q in h && ListRefs(rs, q) > 0 ==> h[q] == g[q]
    ensures Records(rs, h) == Records(rs, g)
  {
    forall k | 0 <= k < |rs| ensures ReadAll(rs[k].cells, h) == ReadAll(rs[k].cells, g) {
      forall i | 0 <= i < |rs[k].cells| ensures Read(rs[k].cells[i], h) == Read(rs[k].cells[i], g) {
        if rs[k].cells[i].Ptr? {
          CellReferred(rs[k].cells, i);
          ListRefsAt(rs, k, rs[k].cells[i].ptr);
        }
      }
    }
  }

  /** When each buffer has one owner, new strings in one row's buffers do not show in the other rows. */
  lemma {:induction false} OthersKeep(a: seq<Row>, r: Row, c: seq<Row>, h: map<nat, string>, g: map<nat, string>)
    requires forall k :: 0 <= k < |a + [r] + c| ==> !(a + [r] + c)[k].empty
    requires 0 !in h && forall q :: q != 0 ==> ListRefs(a + [r] + c, q) <= 1
    requires h.Keys == g.Keys && forall q :: q in h && RowRefs(r, q) == 0 ==> h[q] == g[q]
    ensures Records(a, h) == Records(a, g) && Records(c, h) == Records(c, g)
  {
    forall q | q in h && (ListRefs(a, q) > 0 || ListRefs(c, q) > 0) ensures h[q] == g[q] {
      ListRefsConcat(a + [r], c, q);
      ListRefsConcat(a, [r], q);
      assert [r][..0] == [];
    }
    NoneEmpty(a, [r] + c, a + [r] + c);
    NoneEmpty(a + [r], c, a + [r] + c);
    RecordsApart(a, h, g);
    RecordsApart(c, h, g);
  }

  lemma {:induction false} NoneEmpty(a: seq<Row>, b: seq<Row>, all: seq<Row>)
    requires all == a + b && forall k :: 0 <= k < |all| ==> !all[k].empty
    ensures forall k :: 0 <= k < |a| ==> !a[k].empty
    ensures forall k :: 0 <= k < |b| ==> !b[k].empty
  {
    forall k | 0 <= k < |a| ensures !a[k].empty {
      assert all[k] == a[k];
    }
    forall k | 0 <= k < |b| ensures !b[k].empty {
      assert all[|a| + k] == b[k];
    }
  }

  lemma {:induction false} TwoRefs(cs: seq<Cell>, i: nat, j: nat)
    requires i < j < |cs| && cs[i].Ptr? && cs[j] == cs[i]
    ensures CellRefs(cs, cs[i].ptr) >= 2
  {
    CellRefsSet(cs, j, Num(0), cs[i].ptr);
    CellReferred(cs[j := Num(0)], i);
  }

  /** Only pointers count. */
  lemma {:induction false} SamePointers(a: seq<Cell>, b: seq<Cell>, q: nat)
    requires |a| == |b| && forall i :: 0 <= i < |a| ==> a[i] == b[i] || (a[i].Num? && b[i].Num?)
    ensures CellRefs(a, q) == CellRefs(b, q)
  {
    if a != [] {
      SamePointers(a[..|a| - 1], b[..|b| - 1], q);
    }
  }
}
