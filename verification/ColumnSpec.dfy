/** What adding or removing a column means for the rows of a table (src/primitive/column.c). */
module ColumnSpec {
  import opened RowStore
  import opened Words
  import opened VacuumSpec

  // ---------------------------------------------------------------- one row

  /** The bytes that ADD COLUMN leaves for the new column: zero, which for VARCHAR is the null pointer. */
  function Zeroed(c: Column): Cell {
    if c.kind == Varchar then Ptr(0) else Num(0)
  }

  function WideRow(r: Row, c: Column): Row {
    r.(cells := r.cells + [Zeroed(c)])
  }

  /** The row without one column. The null bitmap is not shifted. */
  function NarrowRow(r: Row, pos: nat): Row {
    if pos < |r.cells| then r.(cells := r.cells[..pos] + r.cells[pos + 1..]) else r
  }

  // ---------------------------------------------------------------- many rows

  ghost function Wide(rs: seq<Row>, c: Column): (w: seq<Row>)
    ensures |w| == |rs| && forall k :: 0 <= k < |rs| ==> w[k] == WideRow(rs[k], c)
  {
    seq(|rs|, k requires 0 <= k < |rs| => WideRow(rs[k], c))
  }

  ghost function Narrow(rs: seq<Row>, pos: nat): (w: seq<Row>)
    ensures |w| == |rs| && forall k :: 0 <= k < |rs| ==> w[k] == NarrowRow(rs[k], pos)
  {
    seq(|rs|, k requires 0 <= k < |rs| => NarrowRow(rs[k], pos))
  }

  lemma {:induction false} WideConcat(a: seq<Row>, b: seq<Row>, c: Column)
    ensures Wide(a + b, c) == Wide(a, c) + Wide(b, c)
  {}

  lemma {:induction false} NarrowConcat(a: seq<Row>, b: seq<Row>, pos: nat)
    ensures Narrow(a + b, pos) == Narrow(a, pos) + Narrow(b, pos)
  {}

  /** Adding a column and removing it again gives the rows back. */
  lemma {:induction false} NarrowWide(rs: seq<Row>, c: Column, n: nat)
    requires forall k :: 0 <= k < |rs| ==> |rs[k].cells| == n
    ensures Narrow(Wide(rs, c), n) == rs
  {
    forall k | 0 <= k < |rs| ensures NarrowRow(WideRow(rs[k], c), n) == rs[k] {
      assert (rs[k].cells + [Zeroed(c)])[..n] == rs[k].cells;
    }
  }

  // ---------------------------------------------------------------- what the rows say

  /** What bytes mean for a column of this type; a pointer is looked up in memory. */
  function Meaning(b: seq<Byte>, kind: ColumnType, memory: map<nat, string>): Value
    requires |b| >= 1
  {
    match kind
    case Varchar => if Decode(b) in memory then StrValue(memory[Decode(b)]) else Dangling
    case TinyInt => IntValue(if b[0] == 0 then 0 else 1)
    case Double => IntValue(Decode(b))
    case _ => IntValue(WordValue(b))
  }

  function ZeroedValue(c: Column): Value {
    if c.kind == Varchar then Dangling else IntValue(0)
  }

  /** The cell and the value are what zero bytes mean in a column of that type. */
  lemma {:induction false} ZerosMean(c: Column, heap: map<nat, string>)
    requires 1 <= Space(c) && 0 !in heap
    ensures Read(Zeroed(c), heap) == ZeroedValue(c) == Meaning(Zeros(Space(c)), c.kind, heap)
  {
    DecodeZeros(Space(c));
  }

  /** Every row has gained what zero bytes mean in column `c`, and is as it was otherwise. */
  ghost predicate GainZeros(ws: seq<Record>, rs: seq<Record>, c: Column, heap: map<nat, string>) {
    && 1 <= Space(c) && |ws| == |rs|
    && forall k :: 0 <= k < |rs| ==>
         ws[k] == Record(rs[k].nulls, rs[k].values + [Meaning(Zeros(Space(c)), c.kind, heap)])
  }

  lemma {:induction false} WideGains(rs: seq<Record>, c: Column, heap: map<nat, string>)
    requires 1 <= Space(c) && 0 !in heap
    ensures GainZeros(WideRecords(rs, c), rs, c, heap)
  {
    ZerosMean(c, heap);
  }

  ghost function WideRecords(rs: seq<Record>, c: Column): (w: seq<Record>)
    ensures |w| == |rs| && forall k :: 0 <= k < |rs| ==> w[k] == Record(rs[k].nulls, rs[k].values + [ZeroedValue(c)])
  {
    seq(|rs|, k requires 0 <= k < |rs| => Record(rs[k].nulls, rs[k].values + [ZeroedValue(c)]))
  }

  ghost function NarrowRecord(r: Record, pos: nat): Record {
    if pos < |r.values| then Record(r.nulls, r.values[..pos] + r.values[pos + 1..]) else r
  }

  ghost function NarrowRecords(rs: seq<Record>, pos: nat): (w: seq<Record>)
    ensures |w| == |rs| && forall k :: 0 <= k < |rs| ==> w[k] == NarrowRecord(rs[k], pos)
  {
    seq(|rs|, k requires 0 <= k < |rs| => NarrowRecord(rs[k], pos))
  }

  lemma {:induction false} WideSays(rs: seq<Row>, c: Column, heap: map<nat, string>)
    requires 0 !in heap
    ensures Records(Wide(rs, c), heap) == WideRecords(Records(rs, heap), c)
  {
    forall k | 0 <= k < |rs|
      ensures ReadAll(WideRow(rs[k], c).cells, heap) == ReadAll(rs[k].cells, heap) + [ZeroedValue(c)]
    {
      assert Read(Zeroed(c), heap) == ZeroedValue(c);
    }
  }

  lemma {:induction false} NarrowSays(rs: seq<Row>, pos: nat, heap: map<nat, string>)
    ensures Records(Narrow(rs, pos), heap) == NarrowRecords(Records(rs, heap), pos)
  {
    forall k | 0 <= k < |rs|
      ensures Record(rs[k].nulls, ReadAll(NarrowRow(rs[k], pos).cells, heap))
              == NarrowRecord(Record(rs[k].nulls, ReadAll(rs[k].cells, heap)), pos)
    {
      var cs := rs[k].cells;
      if pos < |cs| {
        assert ReadAll(cs[..pos] + cs[pos + 1..], heap) == ReadAll(cs, heap)[..pos] + ReadAll(cs, heap)[pos + 1..];
      }
    }
  }

  // ---------------------------------------------------------------- buffers

  lemma {:induction false} WideRefs(r: Row, c: Column, q: nat)
    requires q != 0
    ensures RowRefs(WideRow(r, c), q) == RowRefs(r, q)
  {
    var w := r.cells + [Zeroed(c)];
    assert w[..|w| - 1] == r.cells;
  }

  lemma {:induction false} NarrowRefs(r: Row, pos: nat, q: nat)
    requires pos < |r.cells| && !r.empty
    ensures RowRefs(NarrowRow(r, pos), q) == RowRefs(r, q) - PtrCount(r.cells[pos], q)
  {
    var cs := r.cells;
    assert cs == cs[..pos] + [cs[pos]] + cs[pos + 1..];
    CellRefsConcat(cs[..pos] + [cs[pos]], cs[pos + 1..], q);
    CellRefsConcat(cs[..pos], [cs[pos]], q);
    CellRefsConcat(cs[..pos], cs[pos + 1..], q);
    assert [cs[pos]][..0] == [];
  }

  // ---------------------------------------------------------------- scanning a page up to its first empty slot

  /** Stopping at the first empty slot misses nothing. */
  lemma {:induction false} PrefixOnly(p: Page, n: nat)
    requires Prefix(p, n)
    ensures Live(p[..n]) == Live(p) && forall q :: PageRefs(p[..n], q) == PageRefs(p, q)
  {
    assert p == p[..n] + p[n..];
    LiveConcat(p[..n], p[n..]);
    LiveNone(p[n..]);
    forall q ensures PageRefs(p[..n], q) == PageRefs(p, q) {
      PageRefsConcat(p[..n], p[n..], q);
      PageRefsEmpty(p[n..], q);
    }
  }

  lemma {:induction false} LiveStep(p: Page, i: nat)
    requires i < |p|
    ensures Live(p[..i + 1]) == Live(p[..i]) + LiveOf(p[i])
    ensures forall q :: PageRefs(p[..i + 1], q) == PageRefs(p[..i], q) + RowRefs(p[i], q)
  {
    assert p[..i + 1][..i] == p[..i];
  }

  lemma {:induction false} LiveAllStep(ps: seq<Page>, b: nat)
    requires b < |ps|
    ensures LiveAll(ps[..b + 1]) == LiveAll(ps[..b]) + Live(ps[b])
    ensures forall q :: StoreRefs(ps[..b + 1], q) == StoreRefs(ps[..b], q) + PageRefs(ps[b], q)
  {
    assert ps[..b + 1][..b] == ps[..b];
  }

  // ---------------------------------------------------------------- the width of live rows

  lemma {:induction false} PageRowsFit(p: Page, cs: seq<Column>)
    requires forall i :: 0 <= i < |p| ==> Fits(p[i], cs)
    ensures forall k :: 0 <= k < |Live(p)| ==> !Live(p)[k].empty && Fits(Live(p)[k], cs)
  {
    if p != [] {
      PageRowsFit(p[..|p| - 1], cs);
    }
  }

  lemma {:induction false} LiveRowsFit(ps: seq<Page>, cs: seq<Column>)
    requires AllFit(ps, cs)
    ensures forall k :: 0 <= k < |LiveAll(ps)| ==> !LiveAll(ps)[k].empty && Fits(LiveAll(ps)[k], cs)
  {
    if ps != [] {
      var n := |ps| - 1;
      assert forall b, i :: 0 <= b < n && 0 <= i < |ps[..n][b]| ==> Fits(ps[b][i], cs);
      LiveRowsFit(ps[..n], cs);
      PageRowsFit(ps[n], cs);
    }
  }

  // ---------------------------------------------------------------- appending a row to laid-out pages

  /** Any row that is not empty, deleted ones too, can be put after the others. */
  lemma {:induction false} AppendAny(ps: seq<Page>, n: nat, r: Row)
    requires ps != [] && Prefix(ps[|ps| - 1], n) && n < |ps[|ps| - 1]| && !r.empty
    ensures LiveAll(SetSlot(ps, |ps| - 1, n, r)) == LiveAll(ps) + LiveOf(r)
  {
    if IsLive(r) {
      AppendLive(ps, n, r);
    } else {
      var b := |ps| - 1;
      LiveSet(ps, b, n, r);
      assert LiveOf(ps[b][n]) == [] == LiveOf(r);
    }
  }

  lemma {:induction false} AppendRefs(ps: seq<Page>, n: nat, r: Row)
    requires ps != [] && Prefix(ps[|ps| - 1], n) && n < |ps[|ps| - 1]|
    ensures forall q :: StoreRefs(SetSlot(ps, |ps| - 1, n, r), q) == StoreRefs(ps, q) + RowRefs(r, q)
  {
    forall q ensures StoreRefs(SetSlot(ps, |ps| - 1, n, r), q) == StoreRefs(ps, q) + RowRefs(r, q) {
      SetSlotRefs(ps, |ps| - 1, n, r, q);
    }
  }
}
