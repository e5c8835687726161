/** The bytes of a row: how INSERT writes them and how the evaluators read them (src/engine/executor_insert.c). */
module RowCodec {
  import opened RowStore
  import opened Bits
  import opened Ints
  import opened Words
  import opened ColumnSpec
  import opened TableStore
  import C = Condition

  const BITMAP_BYTES: nat := 16

  /** struct row */
  class RowBuf {
    var empty: bool
    var deleted: bool
    const bitmap: array<bv8>
    const data: array<Byte>

    /** The bitmap and the data are different memory. */
    ghost predicate Separate() {
      var a: object, b: object := bitmap, data;
      a != b && bitmap.Length == BITMAP_BYTES
    }

    /** zalloc of a row with this much data */
    constructor (size: nat)
      ensures fresh(bitmap) && fresh(data) && bitmap.Length == BITMAP_BYTES && data.Length == size
      ensures (forall n :: 0 <= n < BITMAP_BYTES ==> bitmap[n] == 0) && forall k :: 0 <= k < size ==> data[k] == 0
      ensures !empty && !deleted && Separate()
    {
      empty, deleted := false, false;
      var bits := new bv8[BITMAP_BYTES](_ => 0);
      data := new Byte[size](_ => 0);
      bitmap := bits;
    }
  }

  // ---------------------------------------------------------------- layout

  /** Where a column's bytes start in the data: after the columns before it. */
  function Offset(cs: seq<Column>, i: nat): nat
    requires i <= |cs|
  {
    if i == 0 then 0 else Offset(cs, i - 1) + Space(cs[i - 1])
  }

  lemma {:induction false} OffsetFront(cs: seq<Column>, i: nat)
    requires i <= |cs|
    ensures Offset(cs, i) == DataSize(cs[..i])
  {
    if i > 0 {
      OffsetFront(cs, i - 1);
      assert cs[..i][..i - 1] == cs[..i - 1];
    }
  }

  /** No column's bytes overlap another's. */
  lemma {:induction false} ColumnsApart(cs: seq<Column>, i: nat, j: nat)
    requires i <= j <= |cs|
    ensures Offset(cs, i) <= Offset(cs, j) && (i < j ==> Offset(cs, i) + Space(cs[i]) <= Offset(cs, j))
  {
    if i < j {
      ColumnsApart(cs, i, j - 1);
    }
  }

  lemma {:induction false} ColumnWithin(cs: seq<Column>, i: nat)
    requires i < |cs|
    ensures Offset(cs, i) + Space(cs[i]) <= DataSize(cs)
  {
    ColumnsApart(cs, i, |cs|);
    OffsetFront(cs, |cs|);
    assert cs[..|cs|] == cs;
  }

  /** The bytes of column `i`. */
  function Bytes(s: seq<Byte>, cs: seq<Column>, i: nat): (b: seq<Byte>)
    requires i < |cs| && |s| == DataSize(cs)
    ensures |b| == Space(cs[i])
  {
    ColumnWithin(cs, i);
    s[Offset(cs, i)..Offset(cs, i) + Space(cs[i])]
  }

  /** Sizes as CREATE TABLE sets them, from the type of the column. */
  predicate Sized(cs: seq<Column>) {
    forall i :: 0 <= i < |cs| ==> Space(cs[i]) == if cs[i].kind == TinyInt then 1 else 8
  }

  // ---------------------------------------------------------------- literals

  /** A value of the VALUES list: a string lives at an address, a double is its 64 bits. */
  datatype Literal =
    | IntLit(n: int)
    | BoolLit(b: bool)
    | RealLit(bits: nat)
    | StrLit(s: string, address: nat)
    | NullLit

  type Parser = (string, ColumnType) -> int

  /** What the checks of the semantic phase leave for a column. */
  predicate WellTyped(l: Literal, kind: ColumnType, parse: Parser) {
    match l
    case IntLit(n) => kind == Integer && Fits64(n)
    case BoolLit(_) => kind == TinyInt
    case RealLit(bits) => kind == Double && bits < WORD
    case StrLit(s, address) =>
      (kind == Varchar && address < WORD) || ((kind == Date || kind == DateTime) && Fits64(parse(s, kind)))
    case NullLit => true
  }

  /** The memory that memcpy takes a value from. */
  function Payload(l: Literal, kind: ColumnType, parse: Parser): (s: seq<Byte>)
    requires l != NullLit
    ensures |s| == if l.BoolLit? then 1 else 8
  {
    match l
    case IntLit(n) => Word(n)
    case BoolLit(b) => [if b then 1 else 0]
    case RealLit(bits) => Encode(bits, 8)
    case StrLit(s, address) => if kind == Varchar then Encode(address, 8) else Word(parse(s, kind))
  }

  // ---------------------------------------------------------------- which value a column gets

  /** The literal that the first `n` values give column `i`: the last one for it, if any. */
  function Given(order: seq<nat>, vals: seq<Literal>, n: nat, i: nat): Literal
    requires n <= |vals| <= |order|
  {
    if n == 0 then NullLit else if order[n - 1] == i then vals[n - 1] else Given(order, vals, n - 1, i)
  }

  predicate Distinct(order: seq<nat>) {
    forall i, j :: 0 <= i < j < |order| ==> order[i] != order[j]
  }

  /** In a list without duplicates each value reaches its column. */
  lemma {:induction false} GivenAt(order: seq<nat>, vals: seq<Literal>, n: nat, k: nat)
    requires k < n <= |vals| <= |order| && Distinct(order)
    ensures Given(order, vals, n, order[k]) == vals[k]
  {
    if k < n - 1 {
      GivenAt(order, vals, n - 1, k);
    }
  }

  /** A column that is not listed gets none. */
  lemma {:induction false} GivenNone(order: seq<nat>, vals: seq<Literal>, n: nat, i: nat)
    requires n <= |vals| <= |order| && forall k :: 0 <= k < n ==> order[k] != i
    ensures Given(order, vals, n, i) == NullLit
  {
    if n > 0 {
      GivenNone(order, vals, n - 1, i);
    }
  }

  // ---------------------------------------------------------------- the written row

  /** Column `i` of the row holds this literal: its bytes and a clear NULL bit, or a set one. */
  ghost predicate Holds(bitmap: seq<bv8>, data: seq<Byte>, cs: seq<Column>, i: nat, l: Literal, parse: Parser)
    requires i < |cs| <= MAX_COLUMNS && |bitmap| == BITMAP_BYTES && |data| == DataSize(cs)
  {
    && BitAt(bitmap, 0, i) == (l == NullLit)
    && (l != NullLit ==> Bytes(data, cs, i) == Payload(l, cs[i].kind, parse))
  }

  /** Every column holds what the first `n` values give it; bits past the columns stay clear. */
  ghost predicate Written(row: RowBuf, cs: seq<Column>, order: seq<nat>, vals: seq<Literal>, n: nat, parse: Parser)
    requires |cs| <= MAX_COLUMNS && n <= |vals| <= |order|
    reads row, row.bitmap, row.data
  {
    && row.Separate() && row.data.Length == DataSize(cs)
    && (forall i :: 0 <= i < |cs| ==> Holds(row.bitmap[..], row.data[..], cs, i, Given(order, vals, n, i), parse))
    && forall i :: |cs| <= i < MAX_COLUMNS ==> !BitAt(row.bitmap[..], 0, i)
  }

  /** memcpy */
  method MemCpy(a: array<Byte>, at: nat, src: seq<Byte>)
    requires at + |src| <= a.Length
    modifies a
    ensures a[..at] == old(a[..at]) && a[at..at + |src|] == src && a[at + |src|..] == old(a[at + |src|..])
  {
    forall k | 0 <= k < |src| {
      a[at + k] := src[k];
    }
  }

  /** Writing one column leaves the others alone. */
  lemma {:induction false} OthersStay(s: seq<Byte>, t: seq<Byte>, cs: seq<Column>, i: nat, j: nat)
    requires i < |cs| && j < |cs| && i != j && |s| == |t| == DataSize(cs)
    requires Offset(cs, i) + Space(cs[i]) <= |s| && t[..Offset(cs, i)] == s[..Offset(cs, i)]
    requires t[Offset(cs, i) + Space(cs[i])..] == s[Offset(cs, i) + Space(cs[i])..]
    ensures Bytes(t, cs, j) == Bytes(s, cs, j)
  {
    ColumnWithin(cs, j);
    if j < i {
      ColumnsApart(cs, j, i);
      SliceFront(s, t, Offset(cs, i), Offset(cs, j), Space(cs[j]));
    } else {
      ColumnsApart(cs, i, j);
      SliceBack(s, t, Offset(cs, i) + Space(cs[i]), Offset(cs, j), Space(cs[j]));
    }
  }

  // ---------------------------------------------------------------- writing

  /** The loop that marks every column NULL. */
  method MarkNull(row: RowBuf, cs: seq<Column>)
    requires |cs| <= MAX_COLUMNS && row.Separate()
    requires forall i :: 0 <= i < BITMAP_BYTES ==> row.bitmap[i] == 0
    modifies row.bitmap
    ensures forall i :: 0 <= i < MAX_COLUMNS ==> BitAt(row.bitmap[..], 0, i) == (i < |cs|)
  {
    var i := 0;
    while i < |cs|
      invariant 0 <= i <= |cs|
      invariant forall k :: 0 <= k < MAX_COLUMNS ==> BitAt(row.bitmap[..], 0, k) == (k < i)
    {
      ghost var was := row.bitmap[..];
      BitSet(row.bitmap, 0, i, BITMAP_BYTES);
      assert forall k :: 0 <= k < MAX_COLUMNS && k != i ==> BitAt(row.bitmap[..], 0, k) == BitAt(was, 0, k);
      i := i + 1;
    }
  }

  /** The loop that works out where a column starts. */
  method Displacement(cs: seq<Column>, i: nat) returns (at: nat)
    requires i <= |cs|
    ensures at == Offset(cs, i)
  {
    at := 0;
    var k := 0;
    while k < i
      invariant 0 <= k <= i && at == Offset(cs, k)
    {
      at := at + Space(cs[k]);
      k := k + 1;
    }
  }

  /** One turn of the loop of build_row. */
  method WriteValue(row: RowBuf, cs: seq<Column>, i: nat, l: Literal, parse: Parser)
    requires i < |cs| <= MAX_COLUMNS && Sized(cs) && WellTyped(l, cs[i].kind, parse)
    requires row.Separate() && row.data.Length == DataSize(cs) && BitAt(row.bitmap[..], 0, i)
    modifies row.bitmap, row.data
    ensures Holds(row.bitmap[..], row.data[..], cs, i, l, parse)
    ensures forall j :: 0 <= j < MAX_COLUMNS && j != i ==> BitAt(row.bitmap[..], 0, j) == old(BitAt(row.bitmap[..], 0, j))
    ensures forall j :: 0 <= j < |cs| && j != i ==> Bytes(row.data[..], cs, j) == old(Bytes(row.data[..], cs, j))
  {
    if l == NullLit {
      return;
    }
    ghost var s := row.data[..];
    var at := Displacement(cs, i);
    ColumnWithin(cs, i);
    MemCpy(row.data, at, Payload(l, cs[i].kind, parse));
    forall j | 0 <= j < |cs| && j != i ensures Bytes(row.data[..], cs, j) == Bytes(s, cs, j) {
      OthersStay(s, row.data[..], cs, i, j);
    }
    ghost var was := row.bitmap[..];
    BitClear(row.bitmap, 0, i, BITMAP_BYTES);
    assert forall j :: 0 <= j < MAX_COLUMNS && j != i ==> BitAt(row.bitmap[..], 0, j) == BitAt(was, 0, j);
  }

  /** The values of one VALUES list fit the columns they are for. */
  predicate Fitting(cs: seq<Column>, order: seq<nat>, vals: seq<Literal>, parse: Parser) {
    && |cs| <= MAX_COLUMNS && Sized(cs) && |vals| <= |order| && Distinct(order)
    && forall k :: 0 <= k < |vals| ==> order[k] < |cs| && WellTyped(vals[k], cs[order[k]].kind, parse)
  }

  lemma {:induction false} NotYetGiven(order: seq<nat>, vals: seq<Literal>, n: nat)
    requires n < |vals| <= |order| && Distinct(order)
    ensures Given(order, vals, n, order[n]) == NullLit
  {
    GivenNone(order, vals, n, order[n]);
  }

  /** build_row on a zeroed row */
  method BuildRow(row: RowBuf, cs: seq<Column>, order: seq<nat>, vals: seq<Literal>, parse: Parser)
    requires Fitting(cs, order, vals, parse) && row.Separate() && row.data.Length == DataSize(cs)
    requires forall i :: 0 <= i < BITMAP_BYTES ==> row.bitmap[i] == 0
    modifies row, row.bitmap, row.data
    ensures Written(row, cs, order, vals, |vals|, parse) && !row.empty && !row.deleted
  {
    row.deleted, row.empty := false, false;
    MarkNull(row, cs);
    var k := 0;
    while k < |vals|
      invariant 0 <= k <= |vals| && Written(row, cs, order, vals, k, parse) && !row.empty && !row.deleted
    {
      NotYetGiven(order, vals, k);
      assert Holds(row.bitmap[..], row.data[..], cs, order[k], Given(order, vals, k, order[k]), parse);
      ghost var bits, bytes := row.bitmap[..], row.data[..];
      WriteValue(row, cs, order[k], vals[k], parse);
      ghost var n := k + 1;
      forall i | 0 <= i < |cs| ensures Holds(row.bitmap[..], row.data[..], cs, i, Given(order, vals, n, i), parse) {
        assert i != order[k] ==> Holds(bits, bytes, cs, i, Given(order, vals, k, i), parse);
      }
      k := k + 1;
    }
  }

  // ---------------------------------------------------------------- the order of the columns

  /** build_column_order */
  method BuildColumnOrder(cs: seq<Column>, listed: bool, names: seq<string>) returns (order: seq<nat>)
    requires listed ==> forall k :: 0 <= k < |names| ==> C.IndexOf(cs, names[k]) < |cs|
    ensures listed ==> |order| == |names| && forall k :: 0 <= k < |names| ==> order[k] == C.IndexOf(cs, names[k])
    ensures !listed ==> |order| == |cs| && forall k :: 0 <= k < |cs| ==> order[k] == k
    ensures (listed ==> forall i, j :: 0 <= i < j < |names| ==> names[i] != names[j]) ==> Distinct(order)
  {
    order := [];
    var i := 0;
    if !listed {
      while i < |cs|
        invariant 0 <= i <= |cs| && |order| == i && forall k :: 0 <= k < i ==> order[k] == k
      {
        order := order + [i];
        i := i + 1;
      }
    } else {
      while i < |names|
        invariant 0 <= i <= |names| && |order| == i
        invariant forall k :: 0 <= k < i ==> order[k] == C.IndexOf(cs, names[k]) < |cs|
      {
        var j := C.FindColumn(cs, names[i]);
        order := order + [j];
        i := i + 1;
      }
      NamesApart(cs, names, order);
    }
  }

  /** Different names have different columns. */
  lemma {:induction false} NamesApart(cs: seq<Column>, names: seq<string>, order: seq<nat>)
    requires |order| == |names| && forall k :: 0 <= k < |names| ==> order[k] == C.IndexOf(cs, names[k]) < |cs|
    ensures (forall i, j :: 0 <= i < j < |names| ==> names[i] != names[j]) ==> Distinct(order)
  {
    assert forall k :: 0 <= k < |names| ==> cs[order[k]].name == names[k];
  }

  // ---------------------------------------------------------------- reading

  /** The walk of the evaluators: past the columns before the field, then the value, unless the NULL bit is set. */
  method ReadField(row: RowBuf, cs: seq<Column>, name: string) returns (isNull: bool, bytes: seq<Byte>)
    requires |cs| <= MAX_COLUMNS && row.Separate() && row.data.Length == DataSize(cs) && C.IndexOf(cs, name) < |cs|
    ensures isNull == BitAt(row.bitmap[..], 0, C.IndexOf(cs, name))
    ensures bytes == Bytes(row.data[..], cs, C.IndexOf(cs, name))
  {
    var i, offset := 0, 0;
    while cs[i].name != name
      invariant 0 <= i <= C.IndexOf(cs, name) == C.IndexFrom(cs, name, i) && offset == Offset(cs, i)
      decreases |cs| - i
    {
      offset := offset + Space(cs[i]);
      i := i + 1;
    }
    isNull := BitTest(row.bitmap, 0, i, BITMAP_BYTES);
    ColumnWithin(cs, i);
    bytes := row.data[offset..offset + Space(cs[i])];
  }

  /** The value that a literal stands for in a column of this type. */
  function ValueOf(l: Literal, kind: ColumnType, parse: Parser): Value
    requires l != NullLit
  {
    match l
    case IntLit(n) => IntValue(n)
    case BoolLit(b) => IntValue(if b then 1 else 0)
    case RealLit(bits) => IntValue(bits)
    case StrLit(s, _) => if kind == Varchar then StrValue(s) else IntValue(parse(s, kind))
  }

  /** The strings of the statement are where their nodes keep them. */
  predicate InMemory(l: Literal, memory: map<nat, string>) {
    l.StrLit? ==> l.address in memory && memory[l.address] == l.s
  }

  /** Reading the bytes that were written gives the value back. */
  lemma {:induction false} ReadsBack(l: Literal, kind: ColumnType, parse: Parser, memory: map<nat, string>)
    requires l != NullLit && WellTyped(l, kind, parse) && InMemory(l, memory)
    ensures Meaning(Payload(l, kind, parse), kind, memory) == ValueOf(l, kind, parse)
  {
    match l
    case IntLit(n) => WordBack(n);
    case BoolLit(_) =>
    case RealLit(bits) => WordSized(bits);
    case StrLit(s, address) =>
      if kind == Varchar {
        WordSized(address);
      } else {
        WordBack(parse(s, kind));
      }
    case NullLit =>
  }

  lemma {:induction false} WordSized(u: nat)
    requires u < WORD
    ensures Decode(Encode(u, 8)) == u
  {
    PowerWord();
    DecodeEncode(u, 8);
  }

  /**
   A row written from a list of values in any order reads back column by column: the value for the columns that got one,
   NULL for those that were left out or given NULL.
   */
  lemma {:induction false} RowRoundTrip(row: RowBuf, cs: seq<Column>, order: seq<nat>, vals: seq<Literal>, parse: Parser,
      memory: map<nat, string>, i: nat)
    requires Fitting(cs, order, vals, parse) && Written(row, cs, order, vals, |vals|, parse) && i < |cs|
    requires forall k :: 0 <= k < |vals| ==> InMemory(vals[k], memory)
    ensures (forall k :: 0 <= k < |vals| ==> order[k] != i) ==> BitAt(row.bitmap[..], 0, i)
    ensures forall k :: 0 <= k < |vals| && order[k] == i ==> BitAt(row.bitmap[..], 0, i) == (vals[k] == NullLit)
    ensures forall k :: 0 <= k < |vals| && order[k] == i && vals[k] != NullLit ==>
              |Bytes(row.data[..], cs, i)| >= 1
              && Meaning(Bytes(row.data[..], cs, i), cs[i].kind, memory) == ValueOf(vals[k], cs[i].kind, parse)
  {
    var l := Given(order, vals, |vals|, i);
    assert Holds(row.bitmap[..], row.data[..], cs, i, l, parse);
    if forall k :: 0 <= k < |vals| ==> order[k] != i {
      GivenNone(order, vals, |vals|, i);
    }
    forall k | 0 <= k < |vals| && order[k] == i ensures l == vals[k] {
      GivenAt(order, vals, |vals|, k);
    }
    forall k | 0 <= k < |vals| && order[k] == i && vals[k] != NullLit
      ensures Meaning(Payload(l, cs[i].kind, parse), cs[i].kind, memory) == ValueOf(vals[k], cs[i].kind, parse)
    {
      ReadsBack(vals[k], cs[i].kind, parse, memory);
    }
  }

  // ---------------------------------------------------------------- from the statement to the table

  /** The record that the bytes of a row are handed to table_insert_row as; a NULL string is not read. */
  function RecordOf(bitmap: seq<bv8>, data: seq<Byte>, cs: seq<Column>, memory: map<nat, string>): (r: Record)
    requires |cs| <= MAX_COLUMNS && |bitmap| == BITMAP_BYTES && |data| == DataSize(cs) && Sized(cs)
    ensures |r.nulls| == MAX_COLUMNS && |r.values| == |cs|
    ensures forall i :: 0 <= i < MAX_COLUMNS ==> r.nulls[i] == BitAt(bitmap, 0, i)
    ensures forall i :: 0 <= i < |cs| ==> r.values[i] == FieldOf(bitmap, data, cs, memory, i)
  {
    Record(seq(MAX_COLUMNS, i requires 0 <= i < MAX_COLUMNS => BitAt(bitmap, 0, i)),
           seq(|cs|, i requires 0 <= i < |cs| => FieldOf(bitmap, data, cs, memory, i)))
  }

  function FieldOf(bitmap: seq<bv8>, data: seq<Byte>, cs: seq<Column>, memory: map<nat, string>, i: nat): Value
    requires i < |cs| <= MAX_COLUMNS && |bitmap| == BITMAP_BYTES && |data| == DataSize(cs) && Sized(cs)
  {
    if cs[i].kind == Varchar && BitAt(bitmap, 0, i) then StrValue("")
    else Meaning(Bytes(data, cs, i), cs[i].kind, memory)
  }

  /** What the statement says of column `i`: the literal it gives, or NULL. */
  ghost predicate Says(r: Record, cs: seq<Column>, i: nat, l: Literal, parse: Parser)
    requires i < |cs| <= |r.nulls| && |cs| == |r.values|
  {
    r.nulls[i] == (l == NullLit) && (l != NullLit ==> r.values[i] == ValueOf(l, cs[i].kind, parse))
  }

  /** The record of a written row says what the statement says, and fits the columns. */
  lemma {:induction false} WrittenRecord(row: RowBuf, cs: seq<Column>, order: seq<nat>, vals: seq<Literal>, parse: Parser,
      memory: map<nat, string>)
    requires Fitting(cs, order, vals, parse) && Written(row, cs, order, vals, |vals|, parse)
    requires forall k :: 0 <= k < |vals| ==> InMemory(vals[k], memory)
    ensures var r := RecordOf(row.bitmap[..], row.data[..], cs, memory);
            && RecordFits(r, cs)
            && forall i :: 0 <= i < |cs| ==> Says(r, cs, i, Given(order, vals, |vals|, i), parse)
  {
    var r := RecordOf(row.bitmap[..], row.data[..], cs, memory);
    forall i | 0 <= i < |cs|
      ensures Says(r, cs, i, Given(order, vals, |vals|, i), parse)
      ensures if cs[i].kind == Varchar then r.values[i].StrValue? else r.values[i].IntValue?
    {
      FieldSays(row.bitmap[..], row.data[..], cs, order, vals, parse, memory, i);
    }
  }

  lemma {:induction false} FieldSays(bitmap: seq<bv8>, data: seq<Byte>, cs: seq<Column>, order: seq<nat>, vals: seq<Literal>,
      parse: Parser, memory: map<nat, string>, i: nat)
    requires Fitting(cs, order, vals, parse) && i < |cs| && |bitmap| == BITMAP_BYTES && |data| == DataSize(cs)
    requires Holds(bitmap, data, cs, i, Given(order, vals, |vals|, i), parse)
    requires forall k :: 0 <= k < |vals| ==> InMemory(vals[k], memory)
    ensures var l := Given(order, vals, |vals|, i);
            && (l != NullLit ==> FieldOf(bitmap, data, cs, memory, i) == ValueOf(l, cs[i].kind, parse))
            && BitAt(bitmap, 0, i) == (l == NullLit)
    ensures var v := FieldOf(bitmap, data, cs, memory, i);
            if cs[i].kind == Varchar then v.StrValue? else v.IntValue?
  {
    var l := Given(order, vals, |vals|, i);
    if l != NullLit {
      var k := GivenFrom(order, vals, |vals|, i);
      ReadsBack(l, cs[i].kind, parse, memory);
    }
  }

  lemma {:induction false} GivenFrom(order: seq<nat>, vals: seq<Literal>, n: nat, i: nat) returns (k: nat)
    requires n <= |vals| <= |order| && Given(order, vals, n, i) != NullLit
    ensures k < n && order[k] == i && Given(order, vals, n, i) == vals[k]
  {
    if order[n - 1] == i {
      k := n - 1;
    } else {
      k := GivenFrom(order, vals, n - 1, i);
    }
  }

  /** One VALUES list of an INSERT: the row is written, then stored. */
  method InsertValues(t: Table, order: seq<nat>, vals: seq<Literal>, parse: Parser, memory: map<nat, string>)
      returns (ghost r: Record)
    requires t.Valid() && Fitting(t.columns, order, vals, parse)
    requires forall k :: 0 <= k < |vals| ==> InMemory(vals[k], memory)
    modifies t
    ensures t.Valid() && t.columns == old(t.columns)
    ensures |r.nulls| == MAX_COLUMNS && |r.values| == |t.columns|
    ensures forall i :: 0 <= i < |t.columns| ==> Says(r, t.columns, i, Given(order, vals, |vals|, i), parse)
    ensures t.Contents() == old(t.Contents()) + [r]
  {
    var cs := t.columns;
    var row := new RowBuf(DataSize(cs));
    BuildRow(row, cs, order, vals, parse);
    WrittenRecord(row, cs, order, vals, parse, memory);
    var rec := RecordOf(row.bitmap[..], row.data[..], cs, memory);
    var ok := t.InsertRow(rec, RowSize(cs));
    r := Stored(rec, cs);
  }
}
