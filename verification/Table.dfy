/** struct table: columns, pages and the heap buffers of its VARCHAR values, changed in place. */
module TableStore {
  import opened Folding
  import opened RowStore
  import opened VacuumSpec
  import opened ColumnSpec

  /** What the compaction may not change: the number of pages until the end, the live rows, what they say. */
  datatype Holding = Holding(pages: nat, live: seq<Row>, records: seq<Record>)

  /**
   What every operation keeps: the row fits a page, the pages are filled from the front, the free offset is just past
   the last row, and each buffer belongs to exactly one pointer.
   */
  ghost predicate Sound(cs: seq<Column>, ps: seq<Page>, used: seq<nat>, offset: nat, heap: map<nat, string>) {
    && |cs| <= MAX_COLUMNS && RowSize(cs) < PAGE
    && Shaped(ps, used, RowSize(cs)) && (ps != [] ==> offset == used[|used| - 1] * RowSize(cs))
    && AllFit(ps, cs) && Owned(ps, heap)
  }

  class Table {
    const name: string
    var columns: seq<Column>
    /** The datablock list, front to back. */
    var blocks: seq<Page>
    var freeOffset: nat
    /** The outstanding zalloc buffers by address. */
    var heap: map<nat, string>
    var nextAddress: nat
    /** How many rows stand in each page. */
    ghost var used: seq<nat>

    ghost predicate Valid()
      reads this
    {
      Sound(columns, blocks, used, freeOffset, heap) && Bounded()
    }

    ghost predicate Bounded()
      reads this
    {
      0 < nextAddress && forall q :: q in heap ==> 0 < q < nextAddress
    }

    /** The rows a reader sees, strings included. */
    ghost function Contents(): seq<Record>
      reads this
    {
      Records(LiveAll(blocks), heap)
    }

    /** table_init */
    constructor (name: string)
      ensures Valid() && columns == [] && blocks == [] && Contents() == [] && this.name == name
    {
      this.name := name;
      columns, blocks, freeOffset, heap, nextAddress, used := [], [], 0, map[], 1, [];
    }

    // -------------------------------------------------------------- buffers

    method Zalloc(content: string) returns (p: nat)
      requires Bounded()
      modifies this`heap, this`nextAddress
      ensures p != 0 && p !in old(heap) && heap == old(heap)[p := content] && Bounded()
    {
      p := nextAddress;
      nextAddress := nextAddress + 1;
      heap := heap[p := content];
    }

    /** free: a null pointer is fine, anything else must be outstanding. */
    method Free(p: nat)
      requires p == 0 || p in heap
      modifies this`heap
      ensures heap == old(heap) - {p}
    {
      heap := heap - {p};
    }

    /** table_free_row_content */
    method FreeRowContent(r: Row)
      requires Fits(r, columns) && 0 !in heap && forall q :: q != 0 ==> RowRefs(r, q) <= InHeap(heap, q)
      modifies this`heap
      ensures 0 !in heap && forall q :: q != 0 ==> InHeap(heap, q) == InHeap(old(heap), q) - RowRefs(r, q)
      ensures heap.Keys <= old(heap).Keys && forall q :: q in heap ==> heap[q] == old(heap)[q]
    {
      if r.empty {
        return;
      }
      assert r.cells[..0] == [] && r.cells[..|r.cells|] == r.cells;
      var i := 0;
      while i < |columns|
        invariant 0 <= i <= |columns| && 0 !in heap
        invariant forall q :: q != 0 ==> InHeap(heap, q) == InHeap(old(heap), q) - CellRefs(r.cells[..i], q)
        invariant heap.Keys <= old(heap).Keys && forall q :: q in heap ==> heap[q] == old(heap)[q]
      {
        RefsStep(r.cells, i);
        if columns[i].kind == Varchar {
          ghost var p := r.cells[i].ptr;
          if r.cells[i].ptr != 0 {
            RefsLeft(r.cells, i, p);
          }
          Free(r.cells[i].ptr);
        }
        i := i + 1;
      }
    }

    // -------------------------------------------------------------- insertion

    /** One column of the loop of table_insert_row: a VARCHAR value goes to a buffer of its own. */
    method MakeCell(rec: Record, i: nat) returns (c: Cell)
      requires RecordFits(rec, columns) && i < |columns| && Bounded()
      modifies this`heap, this`nextAddress
      ensures Bounded() && (c.Ptr? <==> columns[i].kind == Varchar) && (c.Ptr? ==> c.ptr in heap)
      ensures Read(c, heap) == StoredValue(rec, columns, i)
      ensures forall q :: q != 0 ==> InHeap(heap, q) == InHeap(old(heap), q) + PtrCount(c, q)
      ensures old(heap).Keys <= heap.Keys && forall q :: q in old(heap) ==> heap[q] == old(heap)[q]
    {
      if columns[i].kind == Varchar {
        var p := Zalloc(if rec.nulls[i] then "" else rec.values[i].s);
        c := Ptr(p);
      } else {
        c := Num(rec.values[i].n);
      }
    }

    /** The loop of table_insert_row over the columns. */
    method MakeCells(rec: Record) returns (cells: seq<Cell>)
      requires RecordFits(rec, columns) && Bounded()
      modifies this`heap, this`nextAddress
      ensures Bounded() && Fits(Row(false, false, rec.nulls, cells), columns) && Grown(old(heap), heap, cells)
      ensures Record(rec.nulls, ReadAll(cells, heap)) == Stored(rec, columns)
    {
      cells := [];
      var i := 0;
      while i < |columns|
        invariant 0 <= i <= |columns| && |cells| == i && Bounded()
        invariant forall j :: 0 <= j < i ==> (cells[j].Ptr? <==> columns[j].kind == Varchar)
        invariant forall j :: 0 <= j < i ==> Read(cells[j], heap) == StoredValue(rec, columns, j)
        invariant forall j :: 0 <= j < i && cells[j].Ptr? ==> cells[j].ptr in heap
        invariant forall q :: q != 0 ==> InHeap(heap, q) == InHeap(old(heap), q) + CellRefs(cells, q)
        invariant old(heap).Keys <= heap.Keys && forall q :: q in old(heap) ==> heap[q] == old(heap)[q]
      {
        var c := MakeCell(rec, i);
        assert (cells + [c])[..i] == cells;
        cells := cells + [c];
        i := i + 1;
      }
    }

    /** table_datablock_init on a page cut into slots */
    static method DatablockInit(p: Page, from: nat) returns (r: Page)
      requires from <= |p|
      ensures r == Cleared(p, from)
    {
      r := p;
      var i := from;
      while i < |p|
        invariant from <= i <= |p| == |r| && r[..from] == p[..from] && r[i..] == p[i..]
        invariant forall k :: from <= k < i ==> r[k] == EmptyRow
      {
        r := r[i := EmptyRow];
        i := i + 1;
      }
    }

    /** datablock_alloc and table_datablock_init: a page that is all blank. */
    static method NewDatablock(len: nat) returns (page: Page)
      requires 0 < len
      ensures page == BlankPage(Slots(len))
    {
      page := DatablockInit(seq(PAGE / len, _ => EmptyRow), 0);
    }

    /** One more page at the end of the list. */
    method AddPage(len: nat)
      requires Valid() && len == RowSize(columns)
      modifies this`blocks, this`freeOffset, this`used
      ensures Valid() && blocks == old(blocks) + [BlankPage(Slots(len))] && used == old(used) + [0] && freeOffset == 0
      ensures Contents() == old(Contents())
    {
      FreshPage(blocks, used, freeOffset, columns, len);
      assert Enter(0);
      var page := NewDatablock(len);
      blocks := blocks + [page];
      freeOffset := 0;
      used := used + [0];
    }

    /** The table as it will be once row `r` stands in the first free slot of the last page. */
    ghost predicate Ready(r: Row, len: nat, rows: seq<Record>)
      requires 0 < |used| == |blocks| && used[|used| - 1] < |blocks[|blocks| - 1]|
      reads this
    {
      var b, n := |blocks| - 1, used[|used| - 1];
      forall k :: Look(k) ==>
        && Sound(columns, SetSlot(blocks, b, n, r), used[b := n + 1], (n + 1) * len, heap)
        && Records(LiveAll(SetSlot(blocks, b, n, r)), heap) == rows
    }

    /** The row that table_insert_row writes, with buffers of its own. */
    method MakeRow(rec: Record, len: nat) returns (r: Row)
      requires Valid() && RecordFits(rec, columns) && len == RowSize(columns)
      requires blocks != [] && used[|used| - 1] < Capacity(len) && used[|used| - 1] < |blocks[|blocks| - 1]|
      modifies this`heap, this`nextAddress
      ensures Bounded() && Ready(r, len, old(Contents()) + [Stored(rec, columns)])
    {
      var cells := MakeCells(rec);
      r := Row(false, false, rec.nulls, cells);
      AppendSound(columns, blocks, used, freeOffset, old(heap), heap, r);
    }

    /** The first free slot of the last page, and the offset behind it. */
    method FreeSlot(len: nat) returns (b: nat, i: nat, next: nat)
      requires Valid() && len == RowSize(columns) && blocks != [] && used[|used| - 1] < Capacity(len)
      ensures |used| == |blocks| && b == |blocks| - 1 && i == used[b] < |blocks[b]| && next == (i + 1) * len
    {
      b := |blocks| - 1;
      i, next := SlotAt(freeOffset, len, used[b]);
      RoomAtEnd(blocks, used, len);
      // the assertion of the source that the slot is blank
      assert Blank(blocks[b][i]);
    }

    method PutRow(b: nat, i: nat, next: nat, r: Row, ghost rows: seq<Record>)
      requires Bounded() && 0 < |used| == |blocks| && b == |blocks| - 1 && i == used[b] < |blocks[b]|
      requires next == (i + 1) * RowSize(columns) && Ready(r, RowSize(columns), rows)
      modifies this`blocks, this`freeOffset, this`used
      ensures Valid() && |blocks| == old(|blocks|) && Contents() == rows
    {
      assert Look(0);
      blocks, freeOffset := SetSlot(blocks, b, i, r), next;
      used := used[b := i + 1];
    }

    /** The rest of table_insert_row, once the last page has a free slot. */
    method FillSlot(rec: Record, len: nat)
      requires Valid() && RecordFits(rec, columns) && len == RowSize(columns)
      requires blocks != [] && used[|used| - 1] < Capacity(len)
      modifies this
      ensures Valid() && columns == old(columns) && |blocks| == old(|blocks|)
      ensures Contents() == old(Contents()) + [Stored(rec, columns)]
    {
      var b, i, next := FreeSlot(len);
      var r := MakeRow(rec, len);
      PutRow(b, i, next, r, old(Contents()) + [Stored(rec, columns)]);
    }

    /** The slot at an offset, and the offset of the next one. */
    static method SlotAt(offset: nat, len: nat, ghost n: nat) returns (slot: nat, next: nat)
      requires 0 < len && offset == n * len
      ensures slot == n && next == (n + 1) * len
    {
      SlotOfOffset(n, len);
      slot, next := offset / len, offset + len;
    }

    /** table_insert_row */
    method InsertRow(rec: Record, len: nat) returns (ok: bool)
      requires Valid() && RecordFits(rec, columns)
      modifies this
      ensures Valid() && columns == old(columns)
      ensures ok <==> len == RowSize(columns)
      ensures Contents() == if ok then old(Contents()) + [Stored(rec, columns)] else old(Contents())
    {
      if len == 0 || len != RowSize(columns) {
        return false;
      }
      var shouldAlloc := blocks == [] || freeOffset + len >= PAGE;
      if blocks != [] {
        PageTest(used[|used| - 1], len);
      }
      if shouldAlloc {
        CapacitySlots(len);
        AddPage(len);
      }
      FillSlot(rec, len);
      ok := true;
    }

    // -------------------------------------------------------------- deletion and update

    /** What the source's assertion demands of a caller: the offset is that of a live row. */
    ghost predicate AtLiveRow(b: nat, offset: nat)
      reads this
    {
      && b < |blocks| && 0 < RowSize(columns) && offset % RowSize(columns) == 0
      && offset / RowSize(columns) < |blocks[b]| && IsLive(blocks[b][offset / RowSize(columns)])
    }

    /** table_delete_row: the buffers stay until the vacuum. */
    method DeleteRow(b: nat, offset: nat) returns (ok: bool)
      requires Valid() && (offset < PAGE ==> AtLiveRow(b, offset))
      modifies this`blocks
      ensures Valid() && (ok <==> offset < PAGE)
      ensures !ok ==> blocks == old(blocks)
      ensures ok ==> var i := offset / RowSize(columns); var k := LiveIndex(old(blocks), b, i);
                     && blocks == SetSlot(old(blocks), b, i, old(blocks)[b][i].(deleted := true))
                     && k < |old(Contents())| && Contents() == Except(old(Contents()), k)
    {
      if offset >= PAGE {
        return false;
      }
      var i := offset / RowSize(columns);
      var r := blocks[b][i].(deleted := true);
      DeleteRecord(blocks, b, i, heap);
      KeepsShape(blocks, used, RowSize(columns), columns, b, i, r);
      blocks := SetSlot(blocks, b, i, r);
      ok := true;
    }

    /** The loop of table_update_row: VARCHAR values are copied into the buffers the row already has. */
    method UpdateCells(r: Row, rec: Record) returns (cells: seq<Cell>)
      requires Fits(r, columns) && !r.empty && RecordFits(rec, columns)
      requires forall i :: 0 <= i < |columns| && r.cells[i].Ptr? ==> r.cells[i].ptr in heap
      requires forall q :: q in heap ==> RowRefs(r, q) <= 1
      modifies this`heap
      ensures Fits(Row(false, false, rec.nulls, cells), columns)
      ensures forall q :: CellRefs(cells, q) == RowRefs(r, q)
      ensures heap.Keys == old(heap).Keys && forall q :: q in heap && RowRefs(r, q) == 0 ==> heap[q] == old(heap)[q]
      ensures ReadAll(cells, heap) == rec.values
    {
      cells := r.cells;
      var i := 0;
      while i < |columns|
        invariant 0 <= i <= |columns| && |cells| == |columns|
        invariant forall j :: 0 <= j < |columns| ==> cells[j] == r.cells[j] || (cells[j].Num? && r.cells[j].Num?)
        invariant forall j :: 0 <= j < i ==> Read(cells[j], heap) == rec.values[j]
        invariant heap.Keys == old(heap).Keys
        invariant forall q :: q in heap && RowRefs(r, q) == 0 ==> heap[q] == old(heap)[q]
      {
        if columns[i].kind == Varchar {
          var p := r.cells[i].ptr;
          forall j | 0 <= j < i ensures cells[j] != Ptr(p) {
            if r.cells[j] == Ptr(p) {
              TwoRefs(r.cells, j, i);
            }
          }
          CellReferred(r.cells, i);
          heap := heap[p := rec.values[i].s];
        } else {
          cells := cells[i := Num(rec.values[i].n)];
        }
        i := i + 1;
      }
      forall q ensures CellRefs(cells, q) == RowRefs(r, q) {
        SamePointers(cells, r.cells, q);
      }
    }

    /** table_update_row. A null pointer, as ADD COLUMN leaves it, is outside what the source can update. */
    method UpdateRow(b: nat, offset: nat, rec: Record, len: nat) returns (ok: bool)
      requires Valid() && RecordFits(rec, columns)
      requires offset < PAGE && len == RowSize(columns) ==>
        AtLiveRow(b, offset) && forall c :: c in blocks[b][offset / len].cells && c.Ptr? ==> c.ptr != 0
      modifies this`blocks, this`heap
      ensures Valid() && (ok <==> offset < PAGE && len == RowSize(columns))
      ensures !ok ==> blocks == old(blocks) && heap == old(heap)
      ensures ok ==> var k := LiveIndex(old(blocks), b, offset / len);
                     k < |old(Contents())| && Contents() == old(Contents())[k := Record(rec.nulls, rec.values)]
    {
      if offset >= PAGE || len != RowSize(columns) {
        return false;
      }
      var i := offset / len;
      var r := blocks[b][i];
      OwnedRow(blocks, heap, b, i);
      var cells := UpdateCells(r, rec);
      var r' := Row(false, false, rec.nulls, cells);
      ReplaceSound(columns, blocks, used, freeOffset, b, i, r', old(heap), heap);
      blocks := SetSlot(blocks, b, i, r');
      ok := true;
    }

    // -------------------------------------------------------------- compaction

    /** What holds between the steps of the compaction, whatever the pages look like. */
    ghost predicate Settled()
      reads this
    {
      && |columns| <= MAX_COLUMNS && RowSize(columns) < PAGE
      && AllFit(blocks, columns) && Owned(blocks, heap) && Bounded()
    }

    /** The table still holds these rows, saying the same, in as many pages. */
    ghost predicate Settles(was: Holding)
      reads this
    {
      Settled() && Holding(|blocks|, LiveAll(blocks), Contents()) == was
    }

    /** One move of the compaction: free what the target slot owned, copy the row, blank the source slot. */
    method MoveRow(d: nat, j: nat, s: nat, i: nat)
      requires Settled() && d < |blocks| && s < |blocks| && j < |blocks[d]| && i < |blocks[s]| && (d != s || j != i)
      requires !IsLive(blocks[d][j]) && LiveAll(Moved(blocks, d, j, s, i)) == LiveAll(blocks)
      modifies this`blocks, this`heap
      ensures Settled() && blocks == Moved(old(blocks), d, j, s, i) && Contents() == old(Contents())
    {
      ghost var target := blocks[d][j];
      RefsOfSlot(blocks, d, j, heap);
      FreeRowContent(blocks[d][j]);
      MovedOwned(blocks, d, j, s, i, old(heap), heap);
      var row := blocks[s][i];
      blocks := SetSlot(blocks, d, j, row);
      blocks := SetSlot(blocks, s, i, EmptyRow);
    }

    /** The two tests of the compaction on a live row in slot `k`: has it room, and does it stand there already? */
    static method Judge(samePage: bool, dst: nat, k: nat, len: nat, ghost j: nat)
      returns (full: bool, kept: bool, slot: nat, next: nat)
      requires 0 < len && dst == j * len
      ensures full <==> j >= Capacity(len)
      ensures kept <==> !full && samePage && j == k
      ensures slot == j && next == (j + 1) * len
    {
      PageTest(j, len);
      SlotOfOffset(j, len);
      SlotOfOffset(k, len);
      full := dst + len >= PAGE;
      kept := !full && samePage && dst == k * len;
      slot, next := dst / len, dst + len;
    }

    /** The live row in slot `k` of page `s` moves to where the next one belongs. */
    method MoveLive(d: nat, j: nat, s: nat, k: nat, ghost len: nat, ghost was: Holding)
      requires Settles(was) && len == RowSize(columns) && Between(blocks, d, j, s, k, len)
      requires k < Slots(len) && IsLive(blocks[s][k]) && j < Capacity(len) && (d == s ==> j < k)
      modifies this`blocks, this`heap
      ensures Settles(was) && Between(blocks, d, j + 1, s, k + 1, len)
    {
      MoveDown(blocks, d, j, s, k, len);
      MoveRow(d, j, s, k);
    }

    /** One live row met by the compaction: it does not fit any more, stays where it is, or moves down. */
    method PlaceRow(d: nat, s: nat, k: nat, dstOffset: nat, len: nat, ghost j0: nat, ghost was: Holding)
      returns (dst: nat, full: bool, kept: bool, ghost j: nat)
      requires Settles(was) && len == RowSize(columns) && Between(blocks, d, j0, s, k, len)
      requires k < Slots(len) && IsLive(blocks[s][k]) && dstOffset == j0 * len
      modifies this`blocks, this`heap
      ensures Settles(was)
      ensures dst == j * len && (kept ==> d == s)
      ensures full ==> d < s && j == Capacity(len) && Between(blocks, d, j, s, k, len) && IsLive(blocks[s][k])
      ensures !full ==> Between(blocks, d, j, s, k + 1, len)
    {
      dst, j := dstOffset, j0;
      var slot, next;
      full, kept, slot, next := Judge(d == s, dst, k, len, j);
      if full {
        FullMeansAhead(blocks, d, s, k, len);
      } else {
        if kept {
          KeepRow(blocks, d, k, len);
        } else {
          MoveLive(d, slot, s, k, len, was);
        }
        dst, j := next, j + 1;
      }
    }

    /**
     The inner loop of the compaction over page `s`. The source offset lags when rows stay where they are, which only
     happens in the destination page itself.
     */
    method VacuumPage(d: nat, s: nat, dstOffset: nat, srcOffset: nat, len: nat, ghost j0: nat, ghost i0: nat,
        ghost was: Holding)
      returns (dst: nat, src: nat, full: bool, ghost j: nat, ghost i: nat)
      requires Settles(was) && len == RowSize(columns)
      requires dstOffset == j0 * len && srcOffset == i0 * len && Between(blocks, d, j0, s, i0, len)
      modifies this`blocks, this`heap
      ensures Settles(was)
      ensures dst == j * len && Between(blocks, d, j, s, i, len)
      ensures !full ==> i == Slots(len)
      ensures full ==> d < s && j == Capacity(len) && i < Slots(len) && IsLive(blocks[s][i]) && src == i * len
    {
      dst, src, full, j := dstOffset, srcOffset, false, j0;
      SlotOfOffset(i0, len);
      var k := srcOffset / len;
      ghost var lag := k;
      while k < Slots(len)
        invariant Settles(was)
        invariant dst == j * len && Between(blocks, d, j, s, k, len)
        invariant src == lag * len && (d < s ==> lag == k)
        invariant !full
      {
        var row := blocks[s][k];
        var kept := false;
        if !row.deleted && !row.empty {
          dst, full, kept, j := PlaceRow(d, s, k, dst, len, j, was);
          if full {
            break;
          }
        } else {
          PassDead(blocks, d, j, s, k, len);
        }
        k := k + 1;
        if kept {
          continue;
        }
        OneTimesMore(lag, len);
        src, lag := src + len, lag + 1;
      }
      i := k;
    }

    /** The source loop for one destination page: it goes on where it last stopped, until the page is full. */
    method FillPage(d: nat, srcIdx: nat, srcOffset: nat, len: nat, ghost i0: nat, ghost was: Holding)
      returns (dst: nat, s: nat, src: nat, full: bool, ghost j: nat, ghost i: nat)
      requires Settles(was) && len == RowSize(columns) && srcIdx < |blocks|
      requires srcOffset == i0 * len && Between(blocks, d, 0, srcIdx, i0, len)
      modifies this`blocks, this`heap
      ensures Settles(was) && dst == j * len
      ensures full ==> d < s < |blocks| && j == Capacity(len) && i < Slots(len) && src == i * len
                       && Between(blocks, d, j, s, i, len) && IsLive(blocks[s][i])
      ensures !full ==> s == |blocks| && Between(blocks, d, j, s - 1, Slots(len), len)
    {
      dst, s, src, full := 0, srcIdx, srcOffset, false;
      j, i := 0, i0;
      while s < |blocks|
        invariant Settles(was) && srcIdx <= s <= |blocks| && dst == j * len && !full
        invariant s < |blocks| ==> src == i * len && Between(blocks, d, j, s, i, len)
        invariant s == |blocks| ==> Between(blocks, d, j, s - 1, Slots(len), len)
        decreases was.pages - s
      {
        dst, src, full, j, i := VacuumPage(d, s, dst, src, len, j, i, was);
        if full {
          break;
        }
        if s + 1 < |blocks| {
          NextSource(blocks, d, j, s, len);
        }
        s, src := s + 1, 0;
        i := 0;
      }
    }

    /** Filling one destination page, and what that says about the next. */
    method FillNext(d: nat, srcIdx: nat, srcOffset: nat, len: nat, ghost i0: nat, ghost was: Holding)
      returns (dst: nat, s: nat, src: nat, full: bool, ghost j: nat, ghost i: nat)
      requires Settles(was) && len == RowSize(columns) && srcIdx < |blocks|
      requires srcOffset == i0 * len && Between(blocks, d, 0, srcIdx, i0, len)
      modifies this`blocks, this`heap
      ensures Settles(was) && d < |blocks| && dst == j * len
      ensures full ==> src == i * len && d < s < |blocks| && Between(blocks, d + 1, 0, s, i, len)
                       && |was.live| > FullRows(d + 1, len)
      ensures !full ==> Between(blocks, d, j, |blocks| - 1, Slots(len), len)
    {
      dst, s, src, full, j, i := FillPage(d, srcIdx, srcOffset, len, i0, was);
      if full {
        PageFull(blocks, d, s, i, len);
      }
    }

    /**
     The destination loop; the last page never fills up, so it ends inside. Afterwards pages before `d` are full and nothing
     after slot `j` of page `d` is live.
     */
    method FillPages(len: nat, ghost was: Holding) returns (dst: nat, d: nat, ghost j: nat)
      requires Settles(was) && len == RowSize(columns) && blocks != [] && Between(blocks, 0, 0, 0, 0, len)
      modifies this`blocks, this`heap
      ensures Settles(was) && d < |blocks| && dst == j * len
      ensures Between(blocks, d, j, |blocks| - 1, Slots(len), len)
      ensures d == 0 || |was.live| > FullRows(d, len)
    {
      var s, src, full := 0, 0, false;
      ghost var i := 0;
      d := 0;
      while true
        invariant Settles(was) && d <= s < |blocks|
        invariant src == i * len && Between(blocks, d, 0, s, i, len)
        invariant d == 0 || |was.live| > FullRows(d, len)
        decreases was.pages - d
      {
        dst, s, src, full, j, i := FillNext(d, s, src, len, i, was);
        if !full {
          break;
        }
        d := d + 1;
      }
    }

    /** The loops that free what the rows of a page own, from slot `from` on. */
    method FreeRows(p: Page, from: nat)
      requires from <= |p| && 0 !in heap && forall k :: 0 <= k < |p| ==> Fits(p[k], columns)
      requires forall q :: q != 0 ==> PageRefs(p[from..], q) <= InHeap(heap, q)
      modifies this`heap
      ensures 0 !in heap && forall q :: q != 0 ==> InHeap(heap, q) == InHeap(old(heap), q) - PageRefs(p[from..], q)
      ensures heap.Keys <= old(heap).Keys && forall q :: q in heap ==> heap[q] == old(heap)[q]
    {
      ghost var tail := p[from..];
      ghost var n := 0;
      assert tail[..0] == [] && tail[..|tail|] == tail;
      var i := from;
      while i < |p|
        invariant from <= i <= |p| && n == i - from && 0 !in heap
        invariant forall q :: q != 0 ==> InHeap(heap, q) == InHeap(old(heap), q) - PageRefs(tail[..n], q)
        invariant heap.Keys <= old(heap).Keys && forall q :: q in heap ==> heap[q] == old(heap)[q]
      {
        PageRefsStep(tail, n);
        FreeRowContent(p[i]);
        i, n := i + 1, n + 1;
      }
    }

    /** Freeing the tail of the last page that is kept, and table_datablock_init on it. */
    method ClearTail(d: nat, j: nat, len: nat)
      requires Settled() && d < |blocks| && j <= |blocks[d]|
      requires LiveUpTo(blocks[d], j) && forall q :: j <= q < |blocks[d]| ==> !IsLive(blocks[d][q])
      modifies this`blocks, this`heap
      ensures Settled() && blocks == old(blocks)[d := Cleared(old(blocks)[d], j)]
      ensures LiveAll(blocks) == old(LiveAll(blocks)) && Contents() == old(Contents())
    {
      TailRefs(blocks, d, j, heap);
      FreeRows(blocks[d], j);
      ClearTailOwned(blocks, d, j, old(heap), heap);
      var page := DatablockInit(blocks[d], j);
      blocks := blocks[d := page];
    }

    /** Freeing what the rows of a page own, and the page. */
    method DropPage(b: nat)
      requires Settled() && b < |blocks| && Live(blocks[b]) == []
      modifies this`blocks, this`heap
      ensures Settled() && blocks == Except(old(blocks), b)
      ensures LiveAll(blocks) == old(LiveAll(blocks)) && Contents() == old(Contents())
    {
      PageRefsOwned(blocks, b, heap);
      FreeRows(blocks[b], 0);
      DropOwned(blocks, b, old(heap), heap);
      blocks := Except(blocks, b);
    }

    /** The last loop of the compaction: the pages after the first `keep` go. */
    method DropPages(keep: nat)
      requires Settled() && keep <= |blocks| && forall b :: keep <= b < |blocks| ==> Live(blocks[b]) == []
      modifies this`blocks, this`heap
      ensures Settled() && blocks == old(blocks)[..keep]
      ensures LiveAll(blocks) == old(LiveAll(blocks)) && Contents() == old(Contents())
    {
      ghost var was, live, records := blocks, LiveAll(blocks), Contents();
      while keep < |blocks|
        invariant Settled() && keep <= |blocks| && blocks[..keep] == was[..keep]
        invariant forall b :: keep <= b < |blocks| ==> Live(blocks[b]) == []
        invariant LiveAll(blocks) == live && Contents() == records
        decreases |blocks|
      {
        ExceptFront(blocks, keep);
        DropPage(keep);
      }
    }

    /** After the moves: blank what follows the last row, free the pages that are no longer used. */
    method Tidy(dst: nat, d: nat, len: nat, ghost j: nat, ghost was: Holding)
      requires Settles(was) && len == RowSize(columns) && d < |blocks| && dst == j * len
      requires Between(blocks, d, j, |blocks| - 1, Slots(len), len)
      modifies this`blocks, this`heap
      ensures Settled() && LiveAll(blocks) == was.live && Contents() == was.records && Compact(blocks, d, j, len)
    {
      SlotOfOffset(j, len);
      RestDead(blocks, d, j, len);
      ClearTail(d, dst / len, len);
      DropPages(d + 1);
    }

    /** All the steps of the compaction in a row. */
    method Compress(len: nat, ghost was: Holding) returns (ghost d: nat, ghost j: nat)
      requires Settles(was) && len == RowSize(columns) && blocks != [] && Between(blocks, 0, 0, 0, 0, len)
      modifies this`blocks, this`heap, this`freeOffset
      ensures Settled() && LiveAll(blocks) == was.live && Contents() == was.records && Compact(blocks, d, j, len)
      ensures freeOffset == j * len && (d == 0 || |was.live| > FullRows(d, len))
    {
      var dst, last;
      dst, last, j := FillPages(len, was);
      freeOffset := dst;
      Tidy(dst, last, len, j, was);
      d := last;
    }

    /** table_vacuum, for a table with at least one page */
    method Vacuum()
      requires Valid() && blocks != []
      modifies this
      ensures Valid() && columns == old(columns)
      ensures Contents() == old(Contents()) && LiveAll(blocks) == old(LiveAll(blocks))
      ensures forall b, i :: 0 <= b < |blocks| && 0 <= i < |blocks[b]| ==> !blocks[b][i].deleted
      ensures forall b :: 0 <= b < |used| - 1 ==> used[b] == Capacity(RowSize(columns))
      ensures Least(|blocks|, |LiveAll(blocks)|, Capacity(RowSize(columns)))
    {
      var len := RowSize(columns);
      Start(blocks, used, len);
      ghost var d, j := Compress(len, Holding(|blocks|, LiveAll(blocks), Contents()));
      CompactShaped(blocks, d, j, len);
      CompactLeast(blocks, d, j, len);
      used := CompactUse(d, j, len);
    }

    // -------------------------------------------------------------- adding and removing a column

    /** The loops over the columns that look for a name. */
    method FindColumn(name: string) returns (pos: nat)
      ensures pos <= |columns| && (pos < |columns| ==> columns[pos].name == name)
      ensures forall i :: 0 <= i < pos ==> columns[i].name != name
    {
      pos := 0;
      while pos < |columns| && columns[pos].name != name
        invariant pos <= |columns| && forall i :: 0 <= i < pos ==> columns[i].name != name
      {
        pos := pos + 1;
      }
    }

    /** A page for re-laid rows when there is none yet or the last one has no room. */
    static method EnsureRoom(pages: seq<Page>, offset: nat, len: nat, ghost use: seq<nat>, ghost cs: seq<Column>)
      returns (ps: seq<Page>, o: nat, ghost u: seq<nat>)
      requires 0 < len < PAGE && LaidOut(pages, use, offset, cs, len)
      ensures LaidOut(ps, u, o, cs, len) && |u| == |ps| > 0 && u[|u| - 1] < Capacity(len)
      ensures LiveAll(ps) == LiveAll(pages) && forall q :: StoreRefs(ps, q) == StoreRefs(pages, q)
    {
      ps, o, u := pages, offset, use;
      assert Enter(0);
      if pages != [] {
        PageTest(use[|use| - 1], len);
      }
      if pages == [] || offset + len >= PAGE {
        FreshPage(pages, use, offset, cs, len);
        var page := NewDatablock(len);
        ps, o, u := pages + [page], 0, use + [0];
      }
    }

    /** One row of the re-laying loop. */
    static method CopyRow(pages: seq<Page>, offset: nat, row: Row, len: nat, ghost use: seq<nat>, ghost cs: seq<Column>)
      returns (ps: seq<Page>, o: nat, ghost u: seq<nat>)
      requires 0 < len < PAGE && LaidOut(pages, use, offset, cs, len) && Fits(row, cs) && !row.empty
      ensures LaidOut(ps, u, o, cs, len)
      ensures LiveAll(ps) == LiveAll(pages) + LiveOf(row)
      ensures forall q :: StoreRefs(ps, q) == StoreRefs(pages, q) + RowRefs(row, q)
    {
      ps, o, u := EnsureRoom(pages, offset, len, use, cs);
      assert Enter(0);
      ghost var n := u[|u| - 1];
      var i, next := SlotAt(o, len, n);
      CopiedRow(ps, u, o, len, cs, row);
      ps, o, u := SetSlot(ps, |ps| - 1, i, row), next, u[|u| - 1 := n + 1];
    }

    static method RelayRow(p: Page, i: nat, pages: seq<Page>, offset: nat, c: Column, len: nat,
        ghost use: seq<nat>, ghost cs: seq<Column>, ghost start: seq<Page>)
      returns (ps: seq<Page>, o: nat, ghost u: seq<nat>)
      requires 0 < len < PAGE && LaidOut(pages, use, offset, cs + [c], len)
      requires i < |p| && !p[i].empty && Fits(p[i], cs) && Relayed(pages, start, p, i, c)
      ensures LaidOut(ps, u, o, cs + [c], len) && Relayed(ps, start, p, i + 1, c)
    {
      ps, o, u := CopyRow(pages, offset, WideRow(p[i], c), len, use, cs + [c]);
      RelayStep(pages, ps, start, p, i, c);
    }

    /** The inner loop of datablock_add_column: the rows of one old page, deleted ones too, up to the first empty slot. */
    static method RelayPage(p: Page, pages: seq<Page>, offset: nat, c: Column, len: nat,
        ghost n: nat, ghost use: seq<nat>, ghost cs: seq<Column>)
      returns (ps: seq<Page>, o: nat, ghost u: seq<nat>)
      requires 0 < len < PAGE && LaidOut(pages, use, offset, cs + [c], len)
      requires Prefix(p, n) && forall k :: 0 <= k < |p| ==> Fits(p[k], cs)
      ensures LaidOut(ps, u, o, cs + [c], len)
      ensures LiveAll(ps) == LiveAll(pages) + Wide(Live(p), c)
      ensures forall q :: q != 0 ==> StoreRefs(ps, q) == StoreRefs(pages, q) + PageRefs(p, q)
    {
      ps, o, u := pages, offset, use;
      var i := 0;
      RelayStart(pages, p, c);
      while i < |p|
        invariant 0 <= i <= n && LaidOut(ps, u, o, cs + [c], len) && Relayed(ps, pages, p, i, c)
      {
        if p[i].empty {
          break;
        }
        ps, o, u := RelayRow(p, i, ps, o, c, len, u, cs, pages);
        i := i + 1;
      }
      RelayEnd(ps, pages, p, n, c);
    }

    /** datablock_add_column: every row is copied to a new list of pages. */
    static method DatablockAddColumn(oldHead: seq<Page>, c: Column, len: nat, ghost was: seq<nat>, ghost cs: seq<Column>)
      returns (pages: seq<Page>, offset: nat, ghost use: seq<nat>)
      requires 0 < len < PAGE && AllFit(oldHead, cs) && Filled(oldHead, was)
      ensures LaidOut(pages, use, offset, cs + [c], len) && LiveAll(pages) == Wide(LiveAll(oldHead), c)
      ensures forall q :: q != 0 ==> StoreRefs(pages, q) == StoreRefs(oldHead, q)
    {
      pages, offset, use := [], 0, [];
      var b := 0;
      ghost var live := LiveAll(oldHead[..0]);
      assert oldHead[..|oldHead|] == oldHead && live == Wide(live, c) == [];
      while b < |oldHead|
        invariant 0 <= b <= |oldHead| && LaidOut(pages, use, offset, cs + [c], len)
        invariant live == LiveAll(oldHead[..b]) && LiveAll(pages) == Wide(live, c)
        invariant forall q :: q != 0 ==> StoreRefs(pages, q) == StoreRefs(oldHead[..b], q)
      {
        LiveAllStep(oldHead, b);
        WideConcat(live, Live(oldHead[b]), c);
        live := live + Live(oldHead[b]);
        pages, offset, use := RelayPage(oldHead[b], pages, offset, c, len, was[b], use, cs);
        b := b + 1;
      }
    }

    /** The part of table_add_column that touches rows. */
    method WidenRows(c: Column)
      requires Valid() && RowSize(columns + [c]) < PAGE
      modifies this`blocks, this`freeOffset, this`used
      ensures LaidOut(blocks, used, freeOffset, columns + [c], RowSize(columns + [c])) && Owned(blocks, heap)
      ensures LiveAll(blocks) == Wide(LiveAll(old(blocks)), c)
    {
      if blocks != [] {
        blocks, freeOffset, used := DatablockAddColumn(blocks, c, RowSize(columns + [c]), used, columns);
      }
    }

    /** table_add_column, as long as a row with the new column is shorter than a page */
    method AddColumn(c: Column) returns (ok: bool)
      requires Valid() && RowSize(columns + [c]) < PAGE
      modifies this
      ensures Valid()
      ensures ok <==> c.precision >= 1 && |old(columns)| < MAX_COLUMNS
                      && forall i :: 0 <= i < |old(columns)| ==> old(columns)[i].name != c.name
      ensures !ok ==> columns == old(columns) && blocks == old(blocks)
      ensures ok ==> columns == old(columns) + [c] && LiveAll(blocks) == Wide(LiveAll(old(blocks)), c)
      ensures heap == old(heap) && Contents() == if ok then WideRecords(old(Contents()), c) else old(Contents())
      ensures ok ==> GainZeros(Contents(), old(Contents()), c, heap)
    {
      if c.precision < 1 || |columns| + 1 > MAX_COLUMNS {
        return false;
      }
      var pos := FindColumn(c.name);
      if pos < |columns| {
        return false;
      }
      WideSays(LiveAll(blocks), c, heap);
      WideGains(Contents(), c, heap);
      WidenRows(c);
      assert Enter(0);
      columns := columns + [c];
      ok := true;
    }

    /** Removing a column from one row: its buffer is freed and the data after it closes the gap. */
    method RemCell(row: Row, pos: nat) returns (r: Row)
      requires pos < |columns| && Fits(row, columns) && !row.empty
      requires 0 !in heap && forall q :: q != 0 ==> RowRefs(row, q) <= InHeap(heap, q)
      modifies this`heap
      ensures r == NarrowRow(row, pos) && Fits(r, Except(columns, pos)) && 0 !in heap
      ensures forall q :: q != 0 ==> InHeap(heap, q) == InHeap(old(heap), q) - RowRefs(row, q) + RowRefs(r, q)
      ensures heap.Keys <= old(heap).Keys && forall q :: q in heap ==> heap[q] == old(heap)[q]
    {
      r := row.(cells := row.cells[..pos] + row.cells[pos + 1..]);
      forall q ensures RowRefs(r, q) == RowRefs(row, q) - PtrCount(row.cells[pos], q) {
        NarrowRefs(row, pos, q);
      }
      if columns[pos].kind == Varchar {
        CellReferred(row.cells, pos);
        ghost var q := row.cells[pos].ptr;
        assert q != 0 ==> RowRefs(row, q) <= InHeap(heap, q);
        Free(row.cells[pos].ptr);
      }
    }

    /** The loop of datablock_rem_column over one page, up to the first empty slot. */
    method RemRows(p: Page, pos: nat, ghost n: nat) returns (rows: Page)
      requires pos < |columns| && Prefix(p, n) && forall k :: 0 <= k < |p| ==> Fits(p[k], columns)
      requires 0 !in heap && forall q :: q != 0 ==> PageRefs(p, q) <= InHeap(heap, q)
      modifies this`heap
      ensures |rows| == n && Live(rows) == Narrow(Live(p[..n]), pos)
      ensures forall k :: 0 <= k < |rows| ==> !rows[k].empty && Fits(rows[k], Except(columns, pos))
      ensures Exchanged(old(heap), heap, p[..n], rows)
    {
      rows := [];
      var i := 0;
      assert p[..0] == [];
      while i < |p|
        invariant 0 <= i <= n && |rows| == i && Exchanged(old(heap), heap, p[..i], rows)
        invariant Live(rows) == Narrow(Live(p[..i]), pos)
        invariant forall k :: 0 <= k < |rows| ==> !rows[k].empty && Fits(rows[k], Except(columns, pos))
      {
        if p[i].empty {
          break;
        }
        ghost var before := heap;
        StillOwned(old(heap), heap, p, i, rows);
        var r := RemCell(p[i], pos);
        ExchangeStep(old(heap), before, heap, p, i, rows, r);
        RemStep(p, i, pos, rows, r);
        rows := rows + [r];
        i := i + 1;
      }
    }

    /**
     One page of datablock_rem_column, slot by slot; the overlapping moves that bring it about are in module PageBytes.
     */
    method RemPage(p: Page, pos: nat, slots: nat, ghost n: nat) returns (out: Page, taken: nat)
      requires pos < |columns| && Prefix(p, n) && n <= slots && forall k :: 0 <= k < |p| ==> Fits(p[k], columns)
      requires 0 !in heap && forall q :: q != 0 ==> PageRefs(p, q) <= InHeap(heap, q)
      modifies this`heap
      ensures taken == n && |out| == slots && Prefix(out, n) && Live(out) == Narrow(Live(p), pos)
      ensures forall k :: 0 <= k < |out| ==> Fits(out[k], Except(columns, pos))
      ensures Exchanged(old(heap), heap, p, out)
    {
      var rows := RemRows(p, pos, n);
      taken := |rows|;
      PadExchange(old(heap), heap, p, n, rows, slots - n);
      PadShape(rows, slots - n, Except(columns, pos));
      out := rows + BlankPage(slots - |rows|);
    }

    ghost predicate Removing(b: nat, pos: nat, len: nat, was: seq<Page>, h: map<nat, string>)
      requires 0 < len && pos < |columns|
      reads this
    {
      RemovingPages(blocks, used, heap, was, h, b, pos, Except(columns, pos), len)
    }

    /** One page of datablock_rem_column. */
    method RemNext(b: nat, pos: nat, cur: nat, len: nat, ghost was: seq<Page>, ghost h: map<nat, string>)
      returns (taken: nat)
      requires pos < |columns| && 0 < len <= cur < PAGE && Removing(b, pos, len, was, h) && b < |blocks|
      requires PageOf(was[b], used[b], columns, cur)
      modifies this`blocks, this`heap
      ensures Removing(b + 1, pos, len, was, h) && taken == used[b]
    {
      assert Look(0) && blocks[b] == blocks[b..][0] == was[b..][0] == was[b];
      ghost var before := heap;
      CapacityGrows(cur, len);
      PageRefsOwned(blocks, b, heap);
      var out;
      out, taken := RemPage(blocks[b], pos, Slots(len), used[b]);
      RemovingStep(blocks, used, before, heap, was, h, b, pos, Except(columns, pos), len, out);
      blocks := blocks[b := out];
    }

    /** datablock_rem_column: page by page, in place. */
    method DatablockRemColumn(pos: nat, cur: nat, len: nat)
      requires pos < |columns| && 0 < len <= cur < PAGE && blocks != []
      requires Shaped(blocks, used, cur) && AllFit(blocks, columns) && Owned(blocks, heap)
      modifies this`blocks, this`heap, this`freeOffset
      ensures LaidOut(blocks, used, freeOffset, Except(columns, pos), len) && Owned(blocks, heap) && blocks != []
      ensures LiveAll(blocks) == Narrow(LiveAll(old(blocks)), pos) && Shrunk(old(heap), heap)
    {
      var b, blkOffset := 0, 0;
      ghost var was, h := blocks, heap;
      RemovingStart(blocks, used, heap, pos, Except(columns, pos), len);
      while b < |blocks|
        invariant b <= |blocks| && Removing(b, pos, len, was, h)
        invariant b > 0 ==> blkOffset == used[b - 1] * len
        decreases |was| - b
      {
        var taken := RemNext(b, pos, cur, len, was, h);
        blkOffset := taken * len;
        b := b + 1;
      }
      freeOffset := blkOffset;
      RemovingEnd(blocks, used, heap, was, h, freeOffset, pos, Except(columns, pos), len);
    }

    /** table_rem_column */
    method RemColumn(name: string) returns (ok: bool, ghost pos: nat)
      requires Valid()
      modifies this
      ensures Valid()
      ensures ok <==> exists i :: 0 <= i < |old(columns)| && old(columns)[i].name == name
      ensures !ok ==> columns == old(columns) && blocks == old(blocks) && heap == old(heap)
      ensures ok ==> pos < |old(columns)| && old(columns)[pos].name == name
                     && (forall i :: 0 <= i < pos ==> old(columns)[i].name != name)
                     && columns == Except(old(columns), pos)
                     && LiveAll(blocks) == Narrow(LiveAll(old(blocks)), pos)
                     && Contents() == NarrowRecords(old(Contents()), pos) && |blocks| == |old(blocks)|
    {
      var p := FindColumn(name);
      pos := p;
      if p >= |columns| {
        return false, pos;
      }
      NarrowRows(p);
      assert Enter(0);
      columns := columns[..p] + columns[p + 1..];
      ok := true;
    }

    /** The part of table_rem_column that touches rows. */
    method NarrowRows(pos: nat)
      requires Valid() && pos < |columns|
      modifies this`blocks, this`heap, this`freeOffset
      ensures RowSize(Except(columns, pos)) < PAGE && Owned(blocks, heap) && Bounded()
      ensures LaidOut(blocks, used, freeOffset, Except(columns, pos), RowSize(Except(columns, pos)))
      ensures LiveAll(blocks) == Narrow(LiveAll(old(blocks)), pos) && Contents() == NarrowRecords(old(Contents()), pos)
    {
      var cur := RowSize(columns);
      SizeWithout(columns, pos);
      NarrowSays(LiveAll(blocks), pos, heap);
      NarrowNone(pos);
      if blocks != [] {
        DatablockRemColumn(pos, cur, cur - Space(columns[pos]));
        StillSays(blocks, old(heap), heap);
      }
    }

    // -------------------------------------------------------------- reading and destroying

    /** The scan of the readers: page by page, up to the first empty slot, passing over deleted rows. */
    method Scan() returns (rows: seq<Row>)
      requires Valid()
      ensures rows == LiveAll(blocks)
    {
      rows := [];
      var b := 0;
      assert blocks[..0] == [] && blocks[..|blocks|] == blocks;
      while b < |blocks|
        invariant 0 <= b <= |blocks| && rows == LiveAll(blocks[..b])
      {
        LiveAllStep(blocks, b);
        var live := ScanPage(blocks[b], used[b]);
        rows := rows + live;
        b := b + 1;
      }
    }

    static method ScanPage(p: Page, ghost n: nat) returns (rows: seq<Row>)
      requires Prefix(p, n)
      ensures rows == Live(p)
    {
      rows := [];
      var i := 0;
      PrefixOnly(p, n);
      assert p[..0] == [];
      while i < |p|
        invariant 0 <= i <= n && rows == Live(p[..i])
      {
        if p[i].empty {
          break;
        }
        LiveStep(p, i);
        if !p[i].deleted {
          rows := rows + [p[i]];
        }
        i := i + 1;
      }
      assert i == n;
    }

    /** table_destroy: no buffer is left over. */
    method Destroy()
      requires Valid()
      modifies this`blocks, this`heap, this`used
      ensures blocks == [] && heap == map[]
    {
      while blocks != []
        invariant Owned(blocks, heap) && AllFit(blocks, columns)
        decreases |blocks|
      {
        ghost var before := heap;
        PageRefsOwned(blocks, 0, heap);
        FreeRows(blocks[0], 0);
        DropFirst(blocks, before, heap);
        blocks := blocks[1..];
      }
      NoRefsNoHeap(heap);
      used := [];
    }
  }

  lemma {:induction false} RefsStep(cs: seq<Cell>, i: nat)
    requires i < |cs|
    ensures forall q :: CellRefs(cs[..i + 1], q) == CellRefs(cs[..i], q) + PtrCount(cs[i], q)
  {
    assert cs[..i + 1][..i] == cs[..i];
  }

  lemma {:induction false} RefsLeft(cs: seq<Cell>, i: nat, q: nat)
    requires i < |cs|
    ensures CellRefs(cs[..i], q) + PtrCount(cs[i], q) <= CellRefs(cs, q)
  {
    RefsStep(cs, i);
    assert cs == cs[..i + 1] + cs[i + 1..];
    CellRefsConcat(cs[..i + 1], cs[i + 1..], q);
  }

  /** A row as the caller of table_insert_row hands it over: one value per column, of the column's type. */
  predicate RecordFits(rec: Record, cs: seq<Column>) {
    && |rec.values| == |cs| <= MAX_COLUMNS == |rec.nulls|
    && forall i :: 0 <= i < |cs| ==> if cs[i].kind == Varchar then rec.values[i].StrValue? else rec.values[i].IntValue?
  }

  ghost predicate AllRecordsFit(rs: seq<Record>, cs: seq<Column>) {
    forall i :: 0 <= i < |rs| ==> RecordFits(rs[i], cs)
  }

  /** A NULL string is stored as a zeroed buffer; other values are stored as they come. */
  function StoredValue(rec: Record, cs: seq<Column>, i: nat): Value
    requires RecordFits(rec, cs) && i < |cs|
  {
    if cs[i].kind == Varchar && rec.nulls[i] then StrValue("") else rec.values[i]
  }

  function Stored(rec: Record, cs: seq<Column>): Record
    requires RecordFits(rec, cs)
  {
    Record(rec.nulls, seq(|cs|, i requires 0 <= i < |cs| => StoredValue(rec, cs, i)))
  }

  /** The heap `g` is `h` and the buffers these cells point to. */
  ghost predicate Grown(h: map<nat, string>, g: map<nat, string>, cells: seq<Cell>) {
    forall i :: Look(i) ==>
      && 0 !in g && h.Keys <= g.Keys && (forall q :: q in h ==> g[q] == h[q])
      && forall q :: q != 0 ==> InHeap(g, q) == InHeap(h, q) + CellRefs(cells, q)
  }

  /** What taking the first free slot of the last page does to the records and to the buffers. */
  lemma {:induction false} AppendRecord(ps: seq<Page>, n: nat, r: Row, small: map<nat, string>, large: map<nat, string>)
    requires ps != [] && Prefix(ps[|ps| - 1], n) && n < |ps[|ps| - 1]| && IsLive(r)
    requires Owned(ps, small) && Grown(small, large, r.cells)
    ensures var ps' := SetSlot(ps, |ps| - 1, n, r);
            && Owned(ps', large)
            && Records(LiveAll(ps'), large) == Records(LiveAll(ps), small) + [Record(r.nulls, ReadAll(r.cells, large))]
  {
    assert Look(0);
    var b, live := |ps| - 1, LiveAll(ps);
    StoreAnchored(ps, small);
    AppendLive(ps, n, r);
    RecordsStable(live, small, large);
    RecordsConcat(live, [r], large);
    forall q | q != 0 ensures StoreRefs(SetSlot(ps, b, n, r), q) == InHeap(large, q) {
      SetSlotRefs(ps, b, n, r, q);
    }
  }

  /** A row's pointers are outstanding, each owned once. */
  lemma {:induction false} OwnedRow(ps: seq<Page>, heap: map<nat, string>, b: nat, i: nat)
    requires Owned(ps, heap) && b < |ps| && i < |ps[b]| && !ps[b][i].empty
    ensures forall q :: q != 0 ==> RowRefs(ps[b][i], q) <= InHeap(heap, q)
    ensures forall k :: 0 <= k < |ps[b][i].cells| && ps[b][i].cells[k].Ptr? && ps[b][i].cells[k].ptr != 0 ==>
              ps[b][i].cells[k].ptr in heap
  {
    forall q | q != 0 ensures RowRefs(ps[b][i], q) <= InHeap(heap, q) {
      RowRefsWithin(ps, b, i, q);
    }
    forall k | 0 <= k < |ps[b][i].cells| && ps[b][i].cells[k].Ptr? ensures RowRefs(ps[b][i], ps[b][i].cells[k].ptr) >= 1 {
      CellReferred(ps[b][i].cells, k);
    }
  }

  /** A list of live rows in which each buffer has one owner, after one row was overwritten. */
  lemma {:induction false} ReplacedRecord(live: seq<Row>, k: nat, r: Row, h: map<nat, string>, g: map<nat, string>)
    requires k < |live| && (forall i :: 0 <= i < |live| ==> !live[i].empty) && 0 !in h
    requires forall q :: q != 0 ==> ListRefs(live, q) <= 1
    requires g.Keys == h.Keys && forall q :: q in h && RowRefs(live[k], q) == 0 ==> g[q] == h[q]
    ensures Records(live[k := r], g) == Records(live, h)[k := Record(r.nulls, ReadAll(r.cells, g))]
  {
    var x, y := live[..k], live[k + 1..];
    assert live == x + [live[k]] + y && live[k := r] == x + [r] + y;
    OthersKeep(x, live[k], y, h, g);
    RecordsPieces(x, live[k], y, h);
    RecordsPieces(x, r, y, g);
    PutMiddle(Records(x, h), Record(live[k].nulls, ReadAll(live[k].cells, h)), Records(y, h), Record(r.nulls, ReadAll(r.cells, g)));
  }

  lemma {:induction false} PutMiddle<T>(a: seq<T>, x: T, b: seq<T>, y: T)
    ensures (a + [x] + b)[|a| := y] == a + [y] + b
  {}

  /** What overwriting a live row does to the records. */
  lemma {:induction false} ReplaceRecord(ps: seq<Page>, b: nat, i: nat, r: Row, h: map<nat, string>, g: map<nat, string>)
    requires b < |ps| && i < |ps[b]| && IsLive(ps[b][i]) && IsLive(r) && Owned(ps, h)
    requires g.Keys == h.Keys && forall q :: q in h && RowRefs(ps[b][i], q) == 0 ==> g[q] == h[q]
    requires forall q :: CellRefs(r.cells, q) == RowRefs(ps[b][i], q)
    ensures var ps', k := SetSlot(ps, b, i, r), LiveIndex(ps, b, i);
            && k < |LiveAll(ps)|
            && Records(LiveAll(ps'), g) == Records(LiveAll(ps), h)[k := Record(r.nulls, ReadAll(r.cells, g))]
  {
    ReplaceLive(ps, b, i, r);
    LiveNotEmpty(ps);
    forall q | q != 0 ensures ListRefs(LiveAll(ps), q) <= 1 {
      LiveAllRefs(ps, q);
    }
    ReplacedRecord(LiveAll(ps), LiveIndex(ps, b, i), r, h, g);
  }

  lemma {:induction false} RecordsPieces(x: seq<Row>, r: Row, y: seq<Row>, h: map<nat, string>)
    ensures Records(x + [r] + y, h) == Records(x, h) + [Record(r.nulls, ReadAll(r.cells, h))] + Records(y, h)
  {}

  /** A last page with fewer rows than its capacity has a blank slot after them. */
  lemma {:induction false} RoomAtEnd(ps: seq<Page>, used: seq<nat>, len: nat)
    requires 0 < len < PAGE && ps != [] && Shaped(ps, used, len) && used[|used| - 1] < Capacity(len)
    ensures used[|used| - 1] < |ps[|ps| - 1]| && Blank(ps[|ps| - 1][used[|used| - 1]])
    ensures Prefix(ps[|ps| - 1], used[|used| - 1])
  {
    CapacitySlots(len);
  }

  /** Taking the first free slot of the last page keeps the table's shape. */
  lemma {:induction false} AppendShape(ps: seq<Page>, used: seq<nat>, len: nat, cs: seq<Column>, r: Row)
    requires 0 < len < PAGE && ps != [] && Shaped(ps, used, len) && AllFit(ps, cs) && Fits(r, cs) && !r.empty
    requires used[|used| - 1] < Capacity(len)
    ensures var b, n := |ps| - 1, used[|used| - 1];
            n < |ps[b]| && Shaped(SetSlot(ps, b, n, r), used[b := n + 1], len) && AllFit(SetSlot(ps, b, n, r), cs)
  {
    CapacitySlots(len);
  }

  /** Inserting a row keeps the table sound and adds one record at the end. */
  lemma {:induction false} AppendSound(cs: seq<Column>, ps: seq<Page>, used: seq<nat>, offset: nat,
      small: map<nat, string>, large: map<nat, string>, r: Row)
    requires Sound(cs, ps, used, offset, small) && ps != [] && used[|used| - 1] < Capacity(RowSize(cs))
    requires IsLive(r) && Fits(r, cs)
    requires Grown(small, large, r.cells)
    ensures var len, b, n := RowSize(cs), |ps| - 1, used[|used| - 1];
            && n < |ps[b]| && Sound(cs, SetSlot(ps, b, n, r), used[b := n + 1], (n + 1) * len, large)
            && Records(LiveAll(SetSlot(ps, b, n, r)), large)
               == Records(LiveAll(ps), small) + [Record(r.nulls, ReadAll(r.cells, large))]
  {
    RoomAtEnd(ps, used, RowSize(cs));
    AppendRecord(ps, used[|used| - 1], r, small, large);
    AppendShape(ps, used, RowSize(cs), cs, r);
  }

  /** The same for re-laid rows, deleted ones too. */
  lemma {:induction false} CopiedRow(ps: seq<Page>, used: seq<nat>, offset: nat, len: nat, cs: seq<Column>, r: Row)
    requires 0 < len < PAGE && LaidOut(ps, used, offset, cs, len) && Fits(r, cs) && !r.empty
    requires |used| == |ps| > 0 && used[|used| - 1] < Capacity(len)
    ensures var b, n := |ps| - 1, used[|used| - 1];
            && n < |ps[b]| && LaidOut(SetSlot(ps, b, n, r), used[b := n + 1], (n + 1) * len, cs, len)
            && LiveAll(SetSlot(ps, b, n, r)) == LiveAll(ps) + LiveOf(r)
            && forall q :: StoreRefs(SetSlot(ps, b, n, r), q) == StoreRefs(ps, q) + RowRefs(r, q)
  {
    assert Enter(0);
    RoomAtEnd(ps, used, len);
    AppendAny(ps, used[|used| - 1], r);
    AppendRefs(ps, used[|used| - 1], r);
    AppendShape(ps, used, len, cs, r);
  }

  /** A slot that stays taken keeps the table's shape. */
  lemma {:induction false} KeepsShape(ps: seq<Page>, used: seq<nat>, len: nat, cs: seq<Column>, b: nat, i: nat, r: Row)
    requires 0 < len && Shaped(ps, used, len) && AllFit(ps, cs) && Fits(r, cs)
    requires b < |ps| && i < |ps[b]| && !ps[b][i].empty && !r.empty
    ensures Shaped(SetSlot(ps, b, i, r), used, len) && AllFit(SetSlot(ps, b, i, r), cs)
  {}

  /** A row with the pointers of the row before it owns the same buffers. */
  lemma {:induction false} SameRefs(ps: seq<Page>, b: nat, i: nat, r: Row, h: map<nat, string>, g: map<nat, string>)
    requires b < |ps| && i < |ps[b]| && Owned(ps, h) && g.Keys == h.Keys
    requires forall q :: RowRefs(r, q) == RowRefs(ps[b][i], q)
    ensures Owned(SetSlot(ps, b, i, r), g)
  {
    forall q | q != 0 ensures StoreRefs(SetSlot(ps, b, i, r), q) == InHeap(g, q) {
      SetSlotRefs(ps, b, i, r, q);
    }
  }

  /** Overwriting a live row in place keeps the table sound. */
  lemma {:induction false} ReplaceSound(cs: seq<Column>, ps: seq<Page>, used: seq<nat>, offset: nat, b: nat, i: nat, r: Row,
      h: map<nat, string>, g: map<nat, string>)
    requires Sound(cs, ps, used, offset, h) && b < |ps| && i < |ps[b]| && IsLive(ps[b][i]) && IsLive(r) && Fits(r, cs)
    requires g.Keys == h.Keys && forall q :: q in h && RowRefs(ps[b][i], q) == 0 ==> g[q] == h[q]
    requires forall q :: CellRefs(r.cells, q) == RowRefs(ps[b][i], q)
    ensures var ps', k := SetSlot(ps, b, i, r), LiveIndex(ps, b, i);
            && k < |LiveAll(ps)| && Sound(cs, ps', used, offset, g)
            && Records(LiveAll(ps'), g) == Records(LiveAll(ps), h)[k := Record(r.nulls, ReadAll(r.cells, g))]
  {
    ReplaceRecord(ps, b, i, r, h, g);
    SameRefs(ps, b, i, r, h, g);
    KeepsShape(ps, used, RowSize(cs), cs, b, i, r);
  }

  /** What marking a live row deleted does to the records. */
  lemma {:induction false} DeleteRecord(ps: seq<Page>, b: nat, i: nat, heap: map<nat, string>)
    requires b < |ps| && i < |ps[b]| && IsLive(ps[b][i]) && Owned(ps, heap)
    ensures var ps', k := SetSlot(ps, b, i, ps[b][i].(deleted := true)), LiveIndex(ps, b, i);
            && Owned(ps', heap) && k < |LiveAll(ps)|
            && Records(LiveAll(ps'), heap) == Except(Records(LiveAll(ps), heap), k)
  {
    DeleteLive(ps, b, i);
    RecordsExcept(LiveAll(ps), LiveIndex(ps, b, i), heap);
    SameRefs(ps, b, i, ps[b][i].(deleted := true), heap, heap);
  }

  lemma {:induction false} RecordsExcept(rs: seq<Row>, k: nat, heap: map<nat, string>)
    requires k < |rs|
    ensures Records(Except(rs, k), heap) == Except(Records(rs, heap), k)
  {}

  lemma {:induction false} RefsOfSlot(ps: seq<Page>, b: nat, i: nat, heap: map<nat, string>)
    requires Owned(ps, heap) && b < |ps| && i < |ps[b]|
    ensures forall q :: q != 0 ==> RowRefs(ps[b][i], q) <= InHeap(heap, q)
  {
    forall q | q != 0 ensures RowRefs(ps[b][i], q) <= InHeap(heap, q) {
      RowRefsWithin(ps, b, i, q);
    }
  }

  /** Every live row still owns its buffers once the overwritten slot's are gone. */
  lemma {:induction false} MovedOwned(ps: seq<Page>, d: nat, j: nat, s: nat, i: nat, h: map<nat, string>, g: map<nat, string>)
    requires d < |ps| && s < |ps| && j < |ps[d]| && i < |ps[s]| && (d != s || j != i)
    requires Owned(ps, h) && 0 !in g && LiveAll(Moved(ps, d, j, s, i)) == LiveAll(ps)
    requires forall q :: q != 0 ==> InHeap(g, q) == InHeap(h, q) - RowRefs(ps[d][j], q)
    requires g.Keys <= h.Keys && forall q :: q in g ==> g[q] == h[q]
    ensures Owned(Moved(ps, d, j, s, i), g)
    ensures Records(LiveAll(ps), h) == Records(LiveAll(ps), g)
  {
    forall q | q != 0 ensures StoreRefs(Moved(ps, d, j, s, i), q) == InHeap(g, q) {
      MovedRefs(ps, d, j, s, i, q);
    }
    StoreAnchored(Moved(ps, d, j, s, i), g);
    RecordsStable(LiveAll(ps), g, h);
  }

  lemma {:induction false} PageRefsStep(p: Page, i: nat)
    requires i < |p|
    ensures forall q :: PageRefs(p[..i + 1], q) == PageRefs(p[..i], q) + RowRefs(p[i], q)
    ensures forall q :: PageRefs(p[..i], q) + RowRefs(p[i], q) <= PageRefs(p, q)
  {
    assert p[..i + 1][..i] == p[..i] && p == p[..i + 1] + p[i + 1..];
    forall q ensures PageRefs(p[..i], q) + RowRefs(p[i], q) <= PageRefs(p, q) {
      PageRefsConcat(p[..i + 1], p[i + 1..], q);
    }
  }

  lemma {:induction false} TailRefs(ps: seq<Page>, b: nat, j: nat, heap: map<nat, string>)
    requires Owned(ps, heap) && b < |ps| && j <= |ps[b]|
    ensures forall q :: q != 0 ==> PageRefs(ps[b][j..], q) <= InHeap(heap, q)
  {
    forall q | q != 0 ensures PageRefs(ps[b][j..], q) <= InHeap(heap, q) {
      ClearedRefs(ps[b], j, q);
      StoreRefsSet(ps, b, Cleared(ps[b], j), q);
      StoreRefsSet(ps, b, [], q);
    }
  }

  lemma {:induction false} ClearTailOwned(ps: seq<Page>, d: nat, j: nat, h: map<nat, string>, g: map<nat, string>)
    requires Owned(ps, h) && d < |ps| && j <= |ps[d]| && 0 !in g
    requires LiveUpTo(ps[d], j) && forall q :: j <= q < |ps[d]| ==> !IsLive(ps[d][q])
    requires forall q :: q != 0 ==> InHeap(g, q) == InHeap(h, q) - PageRefs(ps[d][j..], q)
    requires g.Keys <= h.Keys && forall q :: q in g ==> g[q] == h[q]
    ensures var ps' := ps[d := Cleared(ps[d], j)];
            && Owned(ps', g) && LiveAll(ps') == LiveAll(ps) && Records(LiveAll(ps), h) == Records(LiveAll(ps), g)
  {
    var ps' := ps[d := Cleared(ps[d], j)];
    ClearedLive(ps[d], j);
    LiveAllAt(ps, d, Cleared(ps[d], j));
    forall q | q != 0 ensures StoreRefs(ps', q) == InHeap(g, q) {
      ClearedRefs(ps[d], j, q);
      StoreRefsSet(ps, d, Cleared(ps[d], j), q);
    }
    StoreAnchored(ps', g);
    RecordsStable(LiveAll(ps), g, h);
  }

  lemma {:induction false} PageRefsOwned(ps: seq<Page>, b: nat, heap: map<nat, string>)
    requires Owned(ps, heap) && b < |ps|
    ensures ps[b][0..] == ps[b] && forall q :: q != 0 ==> PageRefs(ps[b], q) <= InHeap(heap, q)
  {
    forall q | q != 0 ensures PageRefs(ps[b], q) <= InHeap(heap, q) {
      StoreRefsSet(ps, b, [], q);
    }
  }

  lemma {:induction false} DropRefs(ps: seq<Page>, b: nat, q: nat)
    requires b < |ps|
    ensures StoreRefs(Except(ps, b), q) == StoreRefs(ps, q) - PageRefs(ps[b], q)
  {
    var a, c := ps[..b], ps[b + 1..];
    assert ps == a + [ps[b]] + c;
    StoreRefsConcat(a + [ps[b]], c, q);
    StoreRefsConcat(a, [ps[b]], q);
    StoreRefsConcat(a, c, q);
    StoreRefsOne(ps[b], q);
  }

  lemma {:induction false} DropLive(ps: seq<Page>, b: nat)
    requires b < |ps| && Live(ps[b]) == []
    ensures LiveAll(Except(ps, b)) == LiveAll(ps)
  {
    LiveAllAt(ps, b, ps[b]);
    LiveAllConcat(ps[..b], ps[b + 1..]);
    assert LiveAll(ps[..b]) + [] == LiveAll(ps[..b]);
  }

  lemma {:induction false} ExceptFront(ps: seq<Page>, b: nat)
    requires b < |ps|
    ensures |Except(ps, b)| == |ps| - 1 && Except(ps, b)[..b] == ps[..b]
    ensures forall k :: b <= k < |ps| - 1 ==> Except(ps, b)[k] == ps[k + 1]
  {}

  /** A page without live rows can go once its buffers are free. */
  lemma {:induction false} DropOwned(ps: seq<Page>, b: nat, h: map<nat, string>, g: map<nat, string>)
    requires Owned(ps, h) && b < |ps| && Live(ps[b]) == [] && 0 !in g
    requires forall q :: q != 0 ==> InHeap(g, q) == InHeap(h, q) - PageRefs(ps[b], q)
    requires g.Keys <= h.Keys && forall q :: q in g ==> g[q] == h[q]
    ensures Owned(Except(ps, b), g) && LiveAll(Except(ps, b)) == LiveAll(ps)
    ensures Records(LiveAll(ps), h) == Records(LiveAll(ps), g)
  {
    DropLive(ps, b);
    forall q | q != 0 ensures StoreRefs(Except(ps, b), q) == InHeap(g, q) {
      DropRefs(ps, b, q);
    }
    StoreAnchored(Except(ps, b), g);
    RecordsStable(LiveAll(ps), g, h);
  }

  /** Pages filled front to back with rows of these columns; `offset` is just past the last of them. */
  ghost predicate LaidOut(ps: seq<Page>, used: seq<nat>, offset: nat, cs: seq<Column>, len: nat)
    requires 0 < len
  {
    forall k :: Enter(k) ==> Shaped(ps, used, len) && AllFit(ps, cs) && (ps != [] ==> offset == used[|used| - 1] * len)
  }

  lemma {:induction false} FreshPage(ps: seq<Page>, used: seq<nat>, offset: nat, cs: seq<Column>, len: nat)
    requires 0 < len < PAGE && LaidOut(ps, used, offset, cs, len)
    ensures LaidOut(ps + [BlankPage(Slots(len))], used + [0], 0, cs, len) && 0 < Capacity(len)
    ensures LiveAll(ps + [BlankPage(Slots(len))]) == LiveAll(ps)
    ensures forall q :: StoreRefs(ps + [BlankPage(Slots(len))], q) == StoreRefs(ps, q)
  {
    assert Enter(0);
    CapacitySlots(len);
    BlankPageLive(ps, Slots(len));
  }

  /** `ps` is `pages` followed by the first `i` rows of `p`, widened. */
  ghost predicate Relayed(ps: seq<Page>, pages: seq<Page>, p: Page, i: nat, c: Column)
    requires i <= |p|
  {
    forall k :: Look(k) ==>
      && LiveAll(ps) == LiveAll(pages) + Wide(Live(p[..i]), c)
      && forall q :: q != 0 ==> StoreRefs(ps, q) == StoreRefs(pages, q) + PageRefs(p[..i], q)
  }

  lemma {:induction false} RelayStart(pages: seq<Page>, p: Page, c: Column)
    ensures Relayed(pages, pages, p, 0, c)
  {
    assert p[..0] == [] && Wide(Live([]), c) == [];
  }

  lemma {:induction false} RelayEnd(ps: seq<Page>, pages: seq<Page>, p: Page, n: nat, c: Column)
    requires Prefix(p, n) && Relayed(ps, pages, p, n, c)
    ensures LiveAll(ps) == LiveAll(pages) + Wide(Live(p), c)
    ensures forall q :: q != 0 ==> StoreRefs(ps, q) == StoreRefs(pages, q) + PageRefs(p, q)
  {
    assert Look(0);
    PrefixOnly(p, n);
  }

  lemma {:induction false} WideStep(p: Page, i: nat, c: Column)
    requires i < |p|
    ensures Wide(Live(p[..i + 1]), c) == Wide(Live(p[..i]), c) + LiveOf(WideRow(p[i], c))
  {
    LiveStep(p, i);
    WideConcat(Live(p[..i]), LiveOf(p[i]), c);
    assert Wide(LiveOf(p[i]), c) == LiveOf(WideRow(p[i], c));
  }

  lemma {:induction false} RelayStep(before: seq<Page>, ps: seq<Page>, pages: seq<Page>, p: Page, i: nat, c: Column)
    requires i < |p| && Relayed(before, pages, p, i, c)
    requires LiveAll(ps) == LiveAll(before) + LiveOf(WideRow(p[i], c))
    requires forall q :: StoreRefs(ps, q) == StoreRefs(before, q) + RowRefs(WideRow(p[i], c), q)
    ensures Relayed(ps, pages, p, i + 1, c)
  {
    assert Look(0);
    WideStep(p, i, c);
    forall q | q != 0 ensures StoreRefs(ps, q) == StoreRefs(pages, q) + PageRefs(p[..i + 1], q) {
      WideRefs(p[i], c, q);
      PageRefsStep(p, i);
    }
  }

  ghost predicate Filled(ps: seq<Page>, used: seq<nat>) {
    |used| == |ps| && forall b :: 0 <= b < |ps| ==> Prefix(ps[b], used[b])
  }

  lemma {:induction false} RemStep(p: Page, i: nat, pos: nat, rows: Page, r: Row)
    requires i < |p| && r == NarrowRow(p[i], pos) && Live(rows) == Narrow(Live(p[..i]), pos)
    ensures Live(rows + [r]) == Narrow(Live(p[..i + 1]), pos)
    ensures forall q :: PageRefs(rows + [r], q) == PageRefs(rows, q) + RowRefs(r, q)
  {
    assert (rows + [r])[..|rows|] == rows;
    LiveStep(p, i);
    NarrowConcat(Live(p[..i]), LiveOf(p[i]), pos);
    assert Narrow(LiveOf(p[i]), pos) == LiveOf(r);
  }

  lemma {:induction false} PadPage(p: Page, n: nat)
    ensures Live(p + BlankPage(n)) == Live(p) && forall q :: PageRefs(p + BlankPage(n), q) == PageRefs(p, q)
  {
    LiveConcat(p, BlankPage(n));
    LiveNone(BlankPage(n));
    forall q ensures PageRefs(p + BlankPage(n), q) == PageRefs(p, q) {
      PageRefsConcat(p, BlankPage(n), q);
      PageRefsEmpty(BlankPage(n), q);
    }
  }

  /** Nothing but buffers of the rows `from` was freed, and what remains of theirs belongs to the rows `to`. */
  ghost predicate Exchanged(h: map<nat, string>, g: map<nat, string>, from: Page, to: Page) {
    && 0 !in g && g.Keys <= h.Keys && (forall q :: q in g ==> g[q] == h[q])
    && forall q :: q != 0 ==> InHeap(g, q) == InHeap(h, q) - PageRefs(from, q) + PageRefs(to, q)
  }

  lemma {:induction false} StillOwned(h: map<nat, string>, g: map<nat, string>, p: Page, i: nat, rows: Page)
    requires i < |p| && Exchanged(h, g, p[..i], rows) && forall q :: q != 0 ==> PageRefs(p, q) <= InHeap(h, q)
    ensures forall q :: q != 0 ==> RowRefs(p[i], q) <= InHeap(g, q)
  {
    PageRefsStep(p, i);
  }

  lemma {:induction false} ExchangeStep(h: map<nat, string>, g: map<nat, string>, g': map<nat, string>,
      p: Page, i: nat, rows: Page, r: Row)
    requires i < |p| && Exchanged(h, g, p[..i], rows) && 0 !in g'
    requires forall q :: q != 0 ==> InHeap(g', q) == InHeap(g, q) - RowRefs(p[i], q) + RowRefs(r, q)
    requires g'.Keys <= g.Keys && forall q :: q in g' ==> g'[q] == g[q]
    ensures Exchanged(h, g', p[..i + 1], rows + [r])
  {
    PageRefsStep(p, i);
    assert (rows + [r])[..|rows|] == rows;
  }

  lemma {:induction false} PadExchange(h: map<nat, string>, g: map<nat, string>, p: Page, n: nat, rows: Page, more: nat)
    requires Prefix(p, n) && Exchanged(h, g, p[..n], rows)
    ensures Exchanged(h, g, p, rows + BlankPage(more))
    ensures Live(p[..n]) == Live(p) && Live(rows + BlankPage(more)) == Live(rows)
  {
    PrefixOnly(p, n);
    PadPage(rows, more);
  }

  lemma {:induction false} PadShape(rows: Page, more: nat, cs: seq<Column>)
    requires forall k :: 0 <= k < |rows| ==> !rows[k].empty && Fits(rows[k], cs)
    ensures Prefix(rows + BlankPage(more), |rows|)
    ensures forall k :: 0 <= k < |rows| + more ==> Fits((rows + BlankPage(more))[k], cs)
  {}

  lemma {:induction false} WiderRows(n: nat, len: nat, cur: nat)
    requires len <= cur
    ensures n * len <= n * cur
  {}

  lemma {:induction false} CapacityGrows(cur: nat, len: nat)
    requires 0 < len <= cur < PAGE
    ensures Capacity(cur) <= Capacity(len) <= Slots(len)
  {
    CapacitySlots(len);
    var c, d := Capacity(cur), Capacity(len);
    QuotientBounds(PAGE - 1, cur);
    QuotientBounds(PAGE - 1, len);
    WiderRows(d + 1, len, cur);
    MulLess(c, d + 1, cur);
  }

  /** Buffers were freed, none was added or changed. */
  ghost predicate Shrunk(h: map<nat, string>, g: map<nat, string>) {
    g.Keys <= h.Keys && forall q :: q in g ==> g[q] == h[q]
  }

  ghost predicate PageOf(p: Page, n: nat, cs: seq<Column>, len: nat)
    requires 0 < len
  {
    |p| == Slots(len) && Prefix(p, n) && n <= Capacity(len) && forall k :: 0 <= k < |p| ==> Fits(p[k], cs)
  }

  lemma {:induction false} PagesLaidOut(ps: seq<Page>, used: seq<nat>, offset: nat, cs: seq<Column>, len: nat)
    requires 0 < len && |used| == |ps| && (ps != [] ==> offset == used[|used| - 1] * len)
    requires forall k :: 0 <= k < |ps| ==> PageOf(ps[k], used[k], cs, len)
    ensures LaidOut(ps, used, offset, cs, len)
  {}

  lemma {:induction false} RemPageOwned(ps: seq<Page>, b: nat, out: Page, h: map<nat, string>, g: map<nat, string>)
    requires Owned(ps, h) && b < |ps| && Exchanged(h, g, ps[b], out)
    ensures Owned(ps[b := out], g)
  {
    forall q | q != 0 ensures StoreRefs(ps[b := out], q) == InHeap(g, q) {
      StoreRefsSet(ps, b, out, q);
    }
  }

  lemma {:induction false} RemPageLive(ps: seq<Page>, was: seq<Page>, b: nat, out: Page, pos: nat)
    requires b < |ps| == |was| && LiveAll(ps[..b]) == Narrow(LiveAll(was[..b]), pos)
    requires Live(out) == Narrow(Live(was[b]), pos)
    ensures LiveAll(ps[b := out][..b + 1]) == Narrow(LiveAll(was[..b + 1]), pos)
  {
    assert ps[b := out][..b] == ps[..b];
    LiveAllStep(ps[b := out], b);
    LiveAllStep(was, b);
    NarrowConcat(LiveAll(was[..b]), Live(was[b]), pos);
  }

  /** The pages before `b` have lost the column; `was` is what the pages were, `h` the buffers that were outstanding. */
  ghost predicate RemovingPages(ps: seq<Page>, used: seq<nat>, g: map<nat, string>, was: seq<Page>, h: map<nat, string>,
      b: nat, pos: nat, cs: seq<Column>, len: nat)
    requires 0 < len
  {
    && b <= |ps| == |was| == |used|
    && forall i :: Look(i) ==>
         && Owned(ps, g) && Shrunk(h, g) && ps[b..] == was[b..] && LiveAll(ps[..b]) == Narrow(LiveAll(was[..b]), pos)
         && forall k :: 0 <= k < b ==> PageOf(ps[k], used[k], cs, len)
  }

  lemma {:induction false} RemovingStart(ps: seq<Page>, used: seq<nat>, h: map<nat, string>, pos: nat, cs: seq<Column>,
      len: nat)
    requires 0 < len && |ps| == |used| && Owned(ps, h)
    ensures RemovingPages(ps, used, h, ps, h, 0, pos, cs, len)
  {
    assert ps[..0] == [];
  }

  lemma {:induction false} RemovingEnd(ps: seq<Page>, used: seq<nat>, g: map<nat, string>, was: seq<Page>,
      h: map<nat, string>, offset: nat, pos: nat, cs: seq<Column>, len: nat)
    requires 0 < len && RemovingPages(ps, used, g, was, h, |ps|, pos, cs, len)
    requires ps != [] ==> offset == used[|used| - 1] * len
    ensures LaidOut(ps, used, offset, cs, len) && Owned(ps, g) && LiveAll(ps) == Narrow(LiveAll(was), pos) && Shrunk(h, g)
  {
    assert Look(0) && ps[..|ps|] == ps && was[..|ps|] == was;
    PagesLaidOut(ps, used, offset, cs, len);
  }

  lemma {:induction false} RestKept(ps: seq<Page>, was: seq<Page>, b: nat, out: Page)
    requires b < |ps| == |was| && ps[b..] == was[b..]
    ensures ps[b := out][b + 1..] == was[b + 1..]
  {
    assert ps[b := out][b + 1..] == ps[b..][1..];
    assert was[b + 1..] == was[b..][1..];
  }

  lemma {:induction false} RemovingStep(ps: seq<Page>, used: seq<nat>, g: map<nat, string>, g': map<nat, string>,
      was: seq<Page>, h: map<nat, string>, b: nat, pos: nat, cs: seq<Column>, len: nat, out: Page)
    requires 0 < len && RemovingPages(ps, used, g, was, h, b, pos, cs, len) && b < |ps| && ps[b] == was[b]
    requires Exchanged(g, g', ps[b], out) && Live(out) == Narrow(Live(ps[b]), pos) && PageOf(out, used[b], cs, len)
    ensures RemovingPages(ps[b := out], used, g', was, h, b + 1, pos, cs, len)
  {
    assert Look(0);
    RemPageOwned(ps, b, out, g, g');
    RemPageLive(ps, was, b, out, pos);
    RestKept(ps, was, b, out);
  }

  lemma {:induction false} DataSizeConcat(a: seq<Column>, b: seq<Column>)
    ensures DataSize(a + b) == DataSize(a) + DataSize(b)
  {
    if b == [] {
      assert a + b == a;
    } else {
      assert (a + b)[..|a + b| - 1] == a + b[..|b| - 1];
      DataSizeConcat(a, b[..|b| - 1]);
    }
  }

  lemma {:induction false} SizeWithout(cs: seq<Column>, pos: nat)
    requires pos < |cs|
    ensures Space(cs[pos]) <= DataSize(cs) && RowSize(Except(cs, pos)) == RowSize(cs) - Space(cs[pos])
  {
    assert cs == cs[..pos] + [cs[pos]] + cs[pos + 1..];
    DataSizeConcat(cs[..pos] + [cs[pos]], cs[pos + 1..]);
    DataSizeConcat(cs[..pos], [cs[pos]]);
    DataSizeConcat(cs[..pos], cs[pos + 1..]);
    assert [cs[pos]][..0] == [];
  }

  lemma {:induction false} NarrowNone(pos: nat)
    ensures Narrow(LiveAll([]), pos) == LiveAll([])
  {}

  /** Rows that own what they point to say the same after other buffers were freed. */
  lemma {:induction false} StillSays(ps: seq<Page>, h: map<nat, string>, g: map<nat, string>)
    requires Owned(ps, g) && Shrunk(h, g) && 0 !in h
    ensures Records(LiveAll(ps), g) == Records(LiveAll(ps), h)
  {
    StoreAnchored(ps, g);
    RecordsStable(LiveAll(ps), g, h);
  }

  lemma {:induction false} DropFirst(ps: seq<Page>, h: map<nat, string>, g: map<nat, string>)
    requires Owned(ps, h) && ps != [] && 0 !in g
    requires forall q :: q != 0 ==> InHeap(g, q) == InHeap(h, q) - PageRefs(ps[0], q)
    ensures Owned(ps[1..], g)
  {
    assert Except(ps, 0) == ps[1..];
    forall q | q != 0 ensures StoreRefs(ps[1..], q) == InHeap(g, q) {
      DropRefs(ps, 0, q);
    }
  }

  lemma {:induction false} NoRefsNoHeap(heap: map<nat, string>)
    requires Owned([], heap)
    ensures heap == map[]
  {
    forall q ensures q !in heap {
      assert q != 0 ==> StoreRefs([], q) == InHeap(heap, q);
    }
  }
}
