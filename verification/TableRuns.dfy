/** Runs of the table operations, against what a caller sees of a table: its columns and its rows. */
module TableRuns {
  import opened RowStore
  import opened Wrappers
  import opened ColumnSpec
  import opened NullBits
  import opened TableStore
  import opened Sieve
  import Condition

  /** One operation. Rows are named by their position in scan order. */
  datatype Step =
    | Insert(rec: Record, len: nat)
    | Delete(row: nat)
    | Update(row: nat, rec: Record)
    | AddColumn(column: Column)
    | RemColumn(name: string)
    | Vacuum

  datatype Sheet = Sheet(columns: seq<Column>, rows: seq<Record>)

  ghost function SheetOf(t: Table): Sheet
    reads t
  {
    Sheet(t.columns, t.Contents())
  }

  /** What the operations ask of their callers. */
  ghost predicate Possible(s: Sheet, st: Step) {
    match st
    case Insert(rec, _) => RecordFits(rec, s.columns)
    case Delete(k) => k < |s.rows|
    case Update(k, rec) => k < |s.rows| && RecordFits(rec, s.columns) && Dangling !in s.rows[k].values
    case AddColumn(c) => RowSize(s.columns + [c]) < PAGE
    case RemColumn(_) => true
    case Vacuum => true
  }

  predicate Addable(cs: seq<Column>, c: Column) {
    c.precision >= 1 && |cs| < MAX_COLUMNS && Condition.IndexOf(cs, c.name) == |cs|
  }

  /** What an operation makes of the columns and rows. */
  ghost function After(s: Sheet, st: Step): Sheet
    requires Possible(s, st)
  {
    match st
    case Insert(rec, len) => if len == RowSize(s.columns) then s.(rows := s.rows + [Stored(rec, s.columns)]) else s
    case Delete(k) => s.(rows := Except(s.rows, k))
    case Update(k, rec) => s.(rows := s.rows[k := rec])
    case AddColumn(c) => if Addable(s.columns, c) then Sheet(s.columns + [c], WideRecords(s.rows, c)) else s
    case RemColumn(name) =>
      var pos := Condition.IndexOf(s.columns, name);
      if pos < |s.columns| then Sheet(Except(s.columns, pos), NarrowRecords(s.rows, pos)) else s
    case Vacuum => s
  }

  ghost predicate AllPossible(s: Sheet, run: seq<Step>)
    decreases |run|
  {
    run == [] || (Possible(s, run[0]) && AllPossible(After(s, run[0]), run[1..]))
  }

  ghost function AfterAll(s: Sheet, run: seq<Step>): Sheet
    requires AllPossible(s, run)
    decreases |run|
  {
    if run == [] then s else AfterAll(After(s, run[0]), run[1..])
  }

  // ---------------------------------------------------------------- what is meant, NULLs included

  /** Every row has a value for every column, and a bitmap of the size the source gives it. */
  ghost predicate Rectangular(s: Sheet) {
    && |s.columns| <= MAX_COLUMNS
    && forall k :: 0 <= k < |s.rows| ==> |s.rows[k].values| == |s.columns| && |s.rows[k].nulls| == MAX_COLUMNS
  }

  lemma {:induction false} StaysRectangular(s: Sheet, st: Step)
    requires Rectangular(s) && Possible(s, st)
    ensures Rectangular(After(s, st))
  {}

  /** Columns and rows as they read. */
  datatype View = View(columns: seq<Column>, rows: seq<seq<Option<Value>>>)

  ghost function ViewOf(s: Sheet): View {
    View(s.columns, Reads(s.rows))
  }

  /** What an operation is meant to make of them: a column takes its NULLs with it, and a new one has nothing to read. */
  ghost function Meant(v: View, st: Step): View {
    match st
    case Insert(rec, len) => if len == RowSize(v.columns) then v.(rows := v.rows + [Fields(rec)]) else v
    case Delete(k) => if k < |v.rows| then v.(rows := Except(v.rows, k)) else v
    case Update(k, rec) => if k < |v.rows| then v.(rows := v.rows[k := Fields(rec)]) else v
    case AddColumn(c) => if Addable(v.columns, c) then View(v.columns + [c], WithColumn(v.rows, None)) else v
    case RemColumn(name) =>
      var pos := Condition.IndexOf(v.columns, name);
      if pos < |v.columns| then View(Except(v.columns, pos), WithoutColumn(v.rows, pos)) else v
    case Vacuum => v
  }

  /** The NULL bits are where a change of columns needs them. */
  ghost predicate BitsRight(s: Sheet, st: Step)
    requires Rectangular(s)
  {
    match st
    case AddColumn(c) => Addable(s.columns, c) ==> forall k :: 0 <= k < |s.rows| ==> s.rows[k].nulls[|s.columns|]
    case RemColumn(name) =>
      var pos := Condition.IndexOf(s.columns, name);
      forall k :: 0 <= k < |s.rows| ==> AlikeFrom(s.rows[k].nulls, pos, |s.columns|)
    case _ => true
  }

  /** An operation makes of a table what is meant if and only if that is so. */
  lemma {:induction false} StepExactly(s: Sheet, st: Step)
    requires Rectangular(s) && Possible(s, st)
    ensures ViewOf(After(s, st)) == Meant(ViewOf(s), st) <==> BitsRight(s, st)
  {
    match st
    case Insert(rec, len) => InsertReads(s.rows, rec, s.columns);
    case Delete(k) => assert Reads(Except(s.rows, k)) == Except(Reads(s.rows), k);
    case Update(k, rec) => assert Reads(s.rows[k := rec]) == Reads(s.rows)[k := Fields(rec)];
    case AddColumn(c) =>
      if Addable(s.columns, c) {
        AllAddedExactly(s.rows, c, |s.columns|);
      }
    case RemColumn(name) =>
      var pos := Condition.IndexOf(s.columns, name);
      if pos < |s.columns| {
        AllRemovedExactly(s.rows, pos, |s.columns|);
      }
    case Vacuum =>
  }

  /** What is stored under a NULL does not show. */
  lemma {:induction false} InsertReads(rs: seq<Record>, rec: Record, cs: seq<Column>)
    requires RecordFits(rec, cs)
    ensures Reads(rs + [Stored(rec, cs)]) == Reads(rs) + [Fields(rec)]
  {
    assert Fields(Stored(rec, cs)) == Fields(rec);
  }

  // ---------------------------------------------------------------- finding a row

  /** The scan of one page for the live row number `k`. */
  method LocateIn(ps: seq<Page>, b: nat, k: nat, before: nat, ghost n: nat) returns (found: bool, i: nat, seen: nat)
    requires b < |ps| && Prefix(ps[b], n) && before == LiveBelow(ps, b) <= k
    ensures found ==> i < |ps[b]| && IsLive(ps[b][i]) && Seen(ps, b, i) == k
    ensures !found ==> seen == LiveBelow(ps, b + 1) <= k
  {
    i, seen, found := 0, before, false;
    while i < |ps[b]| && !ps[b][i].empty
      invariant i <= n && seen == Seen(ps, b, i) <= k
    {
      if !ps[b][i].deleted {
        if seen == k {
          return true, i, seen;
        }
        seen := seen + 1;
      }
      i := i + 1;
    }
    PageSeen(ps, b, n);
  }

  /** The live row number `k` of a table, as a page and an offset. */
  method Locate(t: Table, k: nat) returns (b: nat, offset: nat)
    requires t.Valid() && k < |LiveAll(t.blocks)|
    ensures t.AtLiveRow(b, offset) && offset < PAGE && LiveIndex(t.blocks, b, offset / RowSize(t.columns)) == k
  {
    b := 0;
    var seen, found, i := 0, false, 0;
    AllSeen(t.blocks);
    while true
      invariant b < |t.blocks| && seen == LiveBelow(t.blocks, b) <= k
      decreases |t.blocks| - b
    {
      found, i, seen := LocateIn(t.blocks, b, k, seen, t.used[b]);
      if found {
        break;
      }
      b := b + 1;
    }
    SeenIs(t.blocks, b, i);
    offset := OffsetOf(i, RowSize(t.columns));
  }

  // ---------------------------------------------------------------- one operation

  lemma {:induction false} IndexMissing(cs: seq<Column>, name: string)
    ensures Condition.IndexOf(cs, name) == |cs| <==> forall i :: 0 <= i < |cs| ==> cs[i].name != name
    ensures forall i :: 0 <= i < Condition.IndexOf(cs, name) ==> cs[i].name != name
  {
    Condition.IndexIsFirst(cs, name, 0);
  }

  /** A row whose strings can all be read has no null pointer. */
  lemma {:induction false} NoNulls(t: Table, b: nat, i: nat)
    requires t.Valid() && b < |t.blocks| && i < |t.blocks[b]| && IsLive(t.blocks[b][i])
    ensures LiveIndex(t.blocks, b, i) < |t.Contents()|
    ensures Dangling !in t.Contents()[LiveIndex(t.blocks, b, i)].values ==>
              forall c :: c in t.blocks[b][i].cells && c.Ptr? ==> c.ptr != 0
  {
    var cells := t.blocks[b][i].cells;
    SeenIs(t.blocks, b, i);
    RowAt(t.blocks, b, i, t.heap);
    forall c | c in cells && c.Ptr? && c.ptr == 0 ensures Dangling in ReadAll(cells, t.heap) {
      var j :| 0 <= j < |cells| && cells[j] == c;
      assert ReadAll(cells, t.heap)[j] == Dangling;
    }
  }

  method PerformUpdate(t: Table, k: nat, rec: Record)
    requires t.Valid() && Possible(SheetOf(t), Update(k, rec))
    modifies t
    ensures t.Valid() && SheetOf(t) == After(old(SheetOf(t)), Update(k, rec))
  {
    var b, offset := Locate(t, k);
    NoNulls(t, b, offset / RowSize(t.columns));
    var ok := t.UpdateRow(b, offset, rec, RowSize(t.columns));
  }

  method PerformAddColumn(t: Table, c: Column)
    requires t.Valid() && Possible(SheetOf(t), AddColumn(c))
    modifies t
    ensures t.Valid() && SheetOf(t) == After(old(SheetOf(t)), AddColumn(c))
  {
    IndexMissing(t.columns, c.name);
    var ok := t.AddColumn(c);
  }

  method PerformRemColumn(t: Table, name: string)
    requires t.Valid()
    modifies t
    ensures t.Valid() && SheetOf(t) == After(old(SheetOf(t)), RemColumn(name))
  {
    IndexMissing(t.columns, name);
    ghost var cs := t.columns;
    var ok, pos := t.RemColumn(name);
    if ok {
      assert pos == Condition.IndexOf(cs, name);
    }
  }

  method PerformDelete(t: Table, k: nat)
    requires t.Valid() && Possible(SheetOf(t), Delete(k))
    modifies t
    ensures t.Valid() && SheetOf(t) == After(old(SheetOf(t)), Delete(k))
  {
    var b, offset := Locate(t, k);
    var ok := t.DeleteRow(b, offset);
  }

  /** A vacuum is only asked for when there is a page. */
  method PerformVacuum(t: Table)
    requires t.Valid()
    modifies t
    ensures t.Valid() && SheetOf(t) == old(SheetOf(t))
  {
    if t.blocks != [] {
      t.Vacuum();
    }
  }

  /** The rows of a table are as many values long as it has columns. */
  lemma {:induction false} TableRectangular(t: Table)
    requires t.Valid()
    ensures Rectangular(SheetOf(t))
  {
    LiveRowsFit(t.blocks, t.columns);
  }

  /**
   Every operation keeps the table valid and does to columns and rows what the source says. What they read is then what is
   meant exactly when the NULL bits are where a change of columns needs them.
   */
  method Perform(t: Table, st: Step)
    requires t.Valid() && Possible(SheetOf(t), st)
    modifies t
    ensures t.Valid() && SheetOf(t) == After(old(SheetOf(t)), st)
    ensures Rectangular(old(SheetOf(t)))
    ensures ViewOf(SheetOf(t)) == Meant(old(ViewOf(SheetOf(t))), st) <==> BitsRight(old(SheetOf(t)), st)
  {
    TableRectangular(t);
    StepExactly(SheetOf(t), st);
    match st
    case Insert(rec, len) => var ok := t.InsertRow(rec, len);
    case Delete(k) => PerformDelete(t, k);
    case Update(k, rec) => PerformUpdate(t, k, rec);
    case AddColumn(c) => PerformAddColumn(t, c);
    case RemColumn(name) => PerformRemColumn(t, name);
    case Vacuum => PerformVacuum(t);
  }

  // ---------------------------------------------------------------- runs

  lemma {:induction false} RunSplit(s: Sheet, run: seq<Step>, i: nat)
    requires AllPossible(s, run) && i < |run|
    ensures AllPossible(s, run[..i]) && Possible(AfterAll(s, run[..i]), run[i])
    ensures AllPossible(s, run[..i + 1]) && AfterAll(s, run[..i + 1]) == After(AfterAll(s, run[..i]), run[i])
    decreases i
  {
    if i > 0 {
      RunSplit(After(s, run[0]), run[1..], i - 1);
      assert run[..i][1..] == run[1..][..i - 1] && run[..i + 1][1..] == run[1..][..i];
    }
  }

  ghost function MeantAll(v: View, run: seq<Step>): View
    decreases |run|
  {
    if run == [] then v else MeantAll(Meant(v, run[0]), run[1..])
  }

  /** The NULL bits are right at every step of a run. */
  ghost predicate AllBitsRight(s: Sheet, run: seq<Step>)
    requires Rectangular(s) && AllPossible(s, run)
    decreases |run|
  {
    run == [] || (BitsRight(s, run[0]) && (StaysRectangular(s, run[0]); AllBitsRight(After(s, run[0]), run[1..])))
  }

  /** After its first `i` steps a run has made what was meant. */
  ghost predicate AsMeant(s: Sheet, run: seq<Step>, i: nat)
    requires AllPossible(s, run) && i <= |run|
  {
    AllPossible(s, run[..i]) && ViewOf(AfterAll(s, run[..i])) == MeantAll(ViewOf(s), run[..i])
  }

  /** After every step it has. */
  ghost predicate AlwaysAsMeant(s: Sheet, run: seq<Step>)
    requires AllPossible(s, run)
  {
    forall i :: 0 <= i <= |run| ==> AsMeant(s, run, i)
  }

  lemma {:induction false} FirstStep(s: Sheet, run: seq<Step>, i: nat)
    requires AllPossible(s, run) && 1 <= i <= |run| && ViewOf(After(s, run[0])) == Meant(ViewOf(s), run[0])
    ensures AsMeant(s, run, i) <==> AsMeant(After(s, run[0]), run[1..], i - 1)
  {
    assert run[..i][1..] == run[1..][..i - 1] && run[..i][0] == run[0];
  }

  lemma {:induction false} LaterSteps(s: Sheet, run: seq<Step>)
    requires run != [] && AllPossible(s, run) && ViewOf(After(s, run[0])) == Meant(ViewOf(s), run[0])
    ensures AlwaysAsMeant(s, run) <==> AlwaysAsMeant(After(s, run[0]), run[1..])
  {
    var n := |run|;
    assert run[..0] == [] && AsMeant(s, run, 0);
    if AlwaysAsMeant(After(s, run[0]), run[1..]) {
      forall i | 1 <= i <= n ensures AsMeant(s, run, i) {
        FirstStep(s, run, i);
      }
    }
    if AlwaysAsMeant(s, run) {
      forall j | 0 <= j <= n - 1 ensures AsMeant(After(s, run[0]), run[1..], j) {
        FirstStep(s, run, j + 1);
      }
    }
  }

  lemma {:induction false} WrongAtOnce(s: Sheet, run: seq<Step>)
    requires run != [] && AllPossible(s, run) && ViewOf(After(s, run[0])) != Meant(ViewOf(s), run[0])
    ensures !AlwaysAsMeant(s, run)
  {
    assert run[..1] == [run[0]] && [run[0]][1..] == [];
    OneStep(s, run[0]);
    assert MeantAll(ViewOf(s), [run[0]]) == MeantAll(Meant(ViewOf(s), run[0]), [run[0]][1..]) == Meant(ViewOf(s), run[0]);
    assert !AsMeant(s, run, 1);
  }

  /** A run makes what is meant, step after step, if and only if the NULL bits are right at every step. */
  lemma {:induction false} RunExactly(s: Sheet, run: seq<Step>)
    requires Rectangular(s) && AllPossible(s, run)
    ensures AlwaysAsMeant(s, run) <==> AllBitsRight(s, run)
    decreases |run|
  {
    if run == [] {
      assert run[..0] == [];
    } else {
      StepExactly(s, run[0]);
      StaysRectangular(s, run[0]);
      if BitsRight(s, run[0]) {
        RunExactly(After(s, run[0]), run[1..]);
        LaterSteps(s, run);
      } else {
        WrongAtOnce(s, run);
      }
    }
  }

  lemma {:induction false} RunMeans(s: Sheet, run: seq<Step>)
    requires Rectangular(s) && AllPossible(s, run)
    ensures AllBitsRight(s, run) ==> ViewOf(AfterAll(s, run)) == MeantAll(ViewOf(s), run)
  {
    RunExactly(s, run);
    assert run[..|run|] == run;
    assert AllBitsRight(s, run) ==> AsMeant(s, run, |run|);
  }

  /**
   A whole run: the table stays valid throughout, ends with the columns and rows the source gives it, and reads what is meant
   if the NULL bits are right at every step.
   */
  method PerformAll(t: Table, run: seq<Step>)
    requires t.Valid() && AllPossible(SheetOf(t), run)
    modifies t
    ensures t.Valid() && SheetOf(t) == AfterAll(old(SheetOf(t)), run) && Rectangular(old(SheetOf(t)))
    ensures AllBitsRight(old(SheetOf(t)), run) ==> ViewOf(SheetOf(t)) == MeantAll(old(ViewOf(SheetOf(t))), run)
  {
    ghost var s := SheetOf(t);
    TableRectangular(t);
    RunMeans(s, run);
    var i := 0;
    while i < |run|
      invariant 0 <= i <= |run| && AllPossible(s, run[..i]) && t.Valid() && SheetOf(t) == AfterAll(s, run[..i])
    {
      RunSplit(s, run, i);
      Perform(t, run[i]);
      i := i + 1;
    }
    assert run[..i] == run;
  }

  /** From table_init to table_destroy: no buffer is left over. */
  method Lifetime(name: string, run: seq<Step>) returns (t: Table)
    requires AllPossible(Sheet([], []), run)
    ensures fresh(t) && t.blocks == [] && t.heap == map[]
  {
    t := new Table(name);
    PerformAll(t, run);
    t.Destroy();
  }

  // ---------------------------------------------------------------- what runs mean

  /** Rows stay as wide as the table through any run. */
  lemma {:induction false} RunsStayRectangular(s: Sheet, run: seq<Step>)
    requires Rectangular(s) && AllPossible(s, run)
    ensures Rectangular(AfterAll(s, run))
    decreases |run|
  {
    if run != [] {
      StaysRectangular(s, run[0]);
      RunsStayRectangular(After(s, run[0]), run[1..]);
    }
  }

  lemma {:induction false} RunsInTurn(s: Sheet, run: seq<Step>, more: seq<Step>)
    requires AllPossible(s, run) && AllPossible(AfterAll(s, run), more)
    ensures AllPossible(s, run + more) && AfterAll(s, run + more) == AfterAll(AfterAll(s, run), more)
    decreases |run|
  {
    if run == [] {
      assert run + more == more;
    } else {
      RunsInTurn(After(s, run[0]), run[1..], more);
      assert (run + more)[1..] == run[1..] + more;
    }
  }

  lemma {:induction false} OneStep(s: Sheet, a: Step)
    requires Possible(s, a)
    ensures AllPossible(s, [a]) && AfterAll(s, [a]) == After(s, a)
  {
    assert [a][1..] == [];
  }

  lemma {:induction false} TwoSteps(s: Sheet, a: Step, b: Step)
    requires Possible(s, a) && Possible(After(s, a), b)
    ensures AllPossible(s, [a, b]) && AfterAll(s, [a, b]) == After(After(s, a), b)
  {
    OneStep(After(s, a), b);
    assert [a, b][1..] == [b];
  }

  lemma {:induction false} NewColumnLast(cs: seq<Column>, c: Column)
    requires Condition.IndexOf(cs, c.name) == |cs|
    ensures Condition.IndexOf(cs + [c], c.name) == |cs| && Except(cs + [c], |cs|) == cs
  {
    var n := Condition.IndexOf(cs + [c], c.name);
    IndexMissing(cs, c.name);
    IndexMissing(cs + [c], c.name);
    assert (cs + [c])[|cs|].name == c.name;
    assert forall i :: 0 <= i < |cs| ==> (cs + [c])[i] == cs[i];
  }

  lemma {:induction false} NarrowedBack(rows: seq<Record>, c: Column, n: nat)
    requires forall k :: 0 <= k < |rows| ==> |rows[k].values| == n
    ensures NarrowRecords(WideRecords(rows, c), n) == rows
  {
    forall k | 0 <= k < |rows| ensures NarrowRecords(WideRecords(rows, c), n)[k] == rows[k] {
      assert (rows[k].values + [ZeroedValue(c)])[..n] == rows[k].values;
    }
  }

  lemma {:induction false} AddedAndRemoved(s: Sheet, c: Column)
    requires Rectangular(s) && Possible(s, AddColumn(c))
    ensures var both := [AddColumn(c), RemColumn(c.name)];
            && AllPossible(s, both)
            && (AfterAll(s, both) == s <==> Condition.IndexOf(s.columns, c.name) == |s.columns|)
  {
    TwoSteps(s, AddColumn(c), RemColumn(c.name));
    if Addable(s.columns, c) {
      NewColumnLast(s.columns, c);
      NarrowedBack(s.rows, c, |s.columns|);
    }
  }

  /**
   Whatever a table has been through, adding a column and removing the column of that name changes nothing exactly when the
   table had no such column; otherwise nothing is added, and the old one goes.
   */
  lemma {:induction false} AddThenRemove(run: seq<Step>, c: Column)
    requires AllPossible(Sheet([], []), run) && Possible(AfterAll(Sheet([], []), run), AddColumn(c))
    ensures var s := AfterAll(Sheet([], []), run); var longer := run + [AddColumn(c), RemColumn(c.name)];
            && AllPossible(Sheet([], []), longer)
            && (AfterAll(Sheet([], []), longer) == s <==> Condition.IndexOf(s.columns, c.name) == |s.columns|)
  {
    RunsStayRectangular(Sheet([], []), run);
    AddedAndRemoved(AfterAll(Sheet([], []), run), c);
    RunsInTurn(Sheet([], []), run, [AddColumn(c), RemColumn(c.name)]);
  }
}
