/**
 DELETE conditions: the checks of the semantic phase against the evaluator of the execution phase
 (src/parser/semantic_delete.c, src/engine/executor_delete.c).
 */
module DeleteCond {
  import opened Wrappers
  import opened RowStore
  import C = Condition

  // ---------------------------------------------------------------- conditions, rows, outcomes

  /** A leaf with its tag; only the union member that the tag names has been written. */
  datatype Leaf =
    | Name(name: string)
    | IntLeaf(n: int)
    | StrLeaf(s: string)
    | RealLeaf(r: real)
    | BoolLeaf(b: bool)
    | NullLeaf

  datatype Cond =
    | Cmp(op: C.CmpOp, left: Leaf, right: Leaf)
    | IsNull(field: Leaf, negated: bool)
    | In(items: seq<Leaf>, negated: bool)
    | Gate(gate: C.LogOp, kids: seq<Cond>)

  /** What a column of a row holds; dates are seconds. */
  datatype CellValue = IntCell(n: int) | TimeCell(t: int) | BoolCell(b: bool) | RealCell(r: real) | StrCell(s: string)

  datatype DelRow = DelRow(nulls: seq<bool>, cells: seq<CellValue>)

  predicate CellFits(v: CellValue, kind: ColumnType) {
    match kind
    case Integer => v.IntCell?
    case TinyInt => v.BoolCell?
    case Double => v.RealCell?
    case Varchar => v.StrCell?
    case Date => v.TimeCell?
    case DateTime => v.TimeCell?
  }

  predicate RowFits(r: DelRow, cs: seq<Column>) {
    && |cs| == |r.cells| <= MAX_COLUMNS == |r.nulls|
    && forall i :: 0 <= i < |cs| ==> CellFits(r.cells[i], cs[i].kind)
  }

  /** strptime and mktime: the seconds that a string means as a date of this type, if it does. */
  type Parser = (string, ColumnType) -> Option<int>

  /** Why an evaluation goes wrong: an abort branch, a bitmap index out of range, a union member nobody wrote. */
  datatype Fault = Abort | BadIndex | WrongMember | BadDate

  datatype Result<T> = Ok(value: T) | Err(fault: Fault)

  // ---------------------------------------------------------------- the checks

  predicate LeafExists(l: Leaf, cs: seq<Column>) {
    l.Name? ==> C.IndexOf(cs, l.name) < |cs|
  }

  /** __check_column_exists */
  predicate ColumnsExist(c: Cond, cs: seq<Column>) {
    match c
    case Cmp(_, a, b) => LeafExists(a, cs) && LeafExists(b, cs)
    case IsNull(f, _) => LeafExists(f, cs)
    case In(items, _) => forall i :: 0 <= i < |items| ==> LeafExists(items[i], cs)
    case Gate(_, kids) => forall i :: 0 <= i < |kids| ==> ColumnsExist(kids[i], cs)
  }

  /** How many of the first `n` items are fields. */
  function Fields(items: seq<Leaf>, n: nat): nat
    requires n <= |items|
  {
    if n == 0 then 0 else Fields(items, n - 1) + if items[n - 1].Name? then 1 else 0
  }

  /** check_isxin_entries: no more than one field among the items. */
  predicate InEntries(c: Cond) {
    match c
    case In(items, _) => Fields(items, |items|) <= 1
    case Gate(_, kids) => forall i :: 0 <= i < |kids| ==> InEntries(kids[i])
    case _ => true
  }

  /** check_isxnull_entries */
  predicate NullEntries(c: Cond) {
    match c
    case IsNull(f, _) => f.Name?
    case Gate(_, kids) => forall i :: 0 <= i < |kids| ==> NullEntries(kids[i])
    case _ => true
  }

  predicate IsEquality(op: C.CmpOp) {
    op == C.Eq || op == C.Diff
  }

  function KindOf(cs: seq<Column>, name: string): ColumnType
    requires C.IndexOf(cs, name) < |cs|
  {
    cs[C.IndexOf(cs, name)].kind
  }

  /** check_values_field_to_field */
  predicate FieldsCompare(op: C.CmpOp, a: ColumnType, b: ColumnType) {
    a == b && (a == Varchar ==> IsEquality(op))
  }

  /** check_values_field_to_value */
  predicate ValueCompares(op: C.CmpOp, kind: ColumnType, v: Leaf, parse: Parser)
    requires !v.Name?
  {
    match v
    case StrLeaf(s) =>
      if kind == Date || kind == DateTime then parse(s, kind).Some?
      else kind == Varchar && IsEquality(op)
    case IntLeaf(_) => kind == Integer
    case RealLeaf(_) => kind == Double
    case BoolLeaf(_) => kind == TinyInt
    case NullLeaf => IsEquality(op)
  }

  predicate SameTag(a: Leaf, b: Leaf) {
    match a
    case Name(_) => b.Name?
    case IntLeaf(_) => b.IntLeaf?
    case StrLeaf(_) => b.StrLeaf?
    case RealLeaf(_) => b.RealLeaf?
    case BoolLeaf(_) => b.BoolLeaf?
    case NullLeaf => b.NullLeaf?
  }

  /** check_values_value_to_value */
  predicate ValuesCompare(op: C.CmpOp, a: Leaf, b: Leaf) {
    SameTag(a, b) && ((a.StrLeaf? || a.NullLeaf?) ==> IsEquality(op))
  }

  /** check_values_for_cmp */
  predicate CmpTypes(op: C.CmpOp, a: Leaf, b: Leaf, cs: seq<Column>, parse: Parser)
    requires LeafExists(a, cs) && LeafExists(b, cs)
  {
    if a.Name? && b.Name? then FieldsCompare(op, KindOf(cs, a.name), KindOf(cs, b.name))
    else if a.Name? then ValueCompares(op, KindOf(cs, a.name), b, parse)
    else if b.Name? then ValueCompares(op, KindOf(cs, b.name), a, parse)
    else ValuesCompare(op, a, b)
  }

  /** The first field among the items, or their number. */
  function FieldAt(items: seq<Leaf>, i: nat): (r: nat)
    requires i <= |items|
    ensures i <= r <= |items| && (r < |items| ==> items[r].Name?)
    decreases |items| - i
  {
    if i == |items| || items[i].Name? then i else FieldAt(items, i + 1)
  }

  /** IN names a field; the parser also lets through lists of values alone. */
  predicate HasField(items: seq<Leaf>) {
    FieldAt(items, 0) < |items|
  }

  function InOp(negated: bool): C.CmpOp {
    if negated then C.Diff else C.Eq
  }

  /** check_values_for_isxin, when a field is there */
  predicate InTypes(items: seq<Leaf>, negated: bool, cs: seq<Column>, parse: Parser)
    requires HasField(items) && forall i :: 0 <= i < |items| ==> LeafExists(items[i], cs)
  {
    var f := items[FieldAt(items, 0)];
    assert LeafExists(f, cs);
    forall i :: 0 <= i < |items| && !items[i].Name? ==>
      ValueCompares(InOp(negated), KindOf(cs, f.name), items[i], parse)
  }

  /** Every IN of the condition names a field. */
  predicate FieldedIns(c: Cond) {
    match c
    case In(items, _) => HasField(items)
    case Gate(_, kids) => forall i :: 0 <= i < |kids| ==> FieldedIns(kids[i])
    case _ => true
  }

  /** __check_value_types */
  predicate TypesFit(c: Cond, cs: seq<Column>, parse: Parser)
    requires ColumnsExist(c, cs) && FieldedIns(c)
  {
    match c
    case Cmp(op, a, b) => CmpTypes(op, a, b, cs, parse)
    case IsNull(_, _) => true
    case In(items, negated) => InTypes(items, negated, cs, parse)
    case Gate(_, kids) => forall i :: 0 <= i < |kids| ==> TypesFit(kids[i], cs, parse)
  }

  /** semantic_analyse_delete_stmt on the condition */
  predicate Accepts(c: Cond, cs: seq<Column>, parse: Parser)
    requires FieldedIns(c)
  {
    ColumnsExist(c, cs) && InEntries(c) && NullEntries(c) && TypesFit(c, cs, parse)
  }

  // ---------------------------------------------------------------- the evaluator

  function CompareReal(op: C.CmpOp, a: real, b: real): bool {
    match op
    case Eq => a == b
    case Diff => a != b
    case Gte => a >= b
    case Gt => a > b
    case Lte => a <= b
    case Lt => a < b
  }

  /** Strings and booleans know only = and <>. */
  function CompareOnly<T(==)>(op: C.CmpOp, a: T, b: T): bool {
    match op
    case Eq => a == b
    case Diff => a != b
    case _ => false
  }

  /** bit_test on the null bitmap; an index of -1 stands for a column that was not found. */
  function NullBit(r: DelRow, i: int): Result<bool>
    requires |r.nulls| == MAX_COLUMNS
  {
    if 0 <= i < MAX_COLUMNS then Ok(r.nulls[i]) else Err(BadIndex)
  }

  /** The loop of cmp_field_to_field: the first name wins a column, so that the second may be left without one. */
  function FieldIndexes(cs: seq<Column>, a: string, b: string, n: nat): (int, int)
    requires n <= |cs|
  {
    if n == 0 then (-1, -1) else
      var (i, j) := FieldIndexes(cs, a, b, n - 1);
      if cs[n - 1].name == a then (n - 1, j)
      else if cs[n - 1].name == b then (i, n - 1)
      else (i, j)
  }

  function ReadCells(op: C.CmpOp, kind: ColumnType, a: CellValue, b: CellValue): Result<bool> {
    match kind
    case Double => if a.RealCell? && b.RealCell? then Ok(CompareReal(op, a.r, b.r)) else Err(WrongMember)
    case TinyInt => if a.BoolCell? && b.BoolCell? then Ok(CompareOnly(op, a.b, b.b)) else Err(WrongMember)
    case Integer => if a.IntCell? && b.IntCell? then Ok(C.CompareInt(op, a.n, b.n)) else Err(WrongMember)
    case Date => if a.TimeCell? && b.TimeCell? then Ok(C.Compare(op, a.t, b.t)) else Err(WrongMember)
    case DateTime => if a.TimeCell? && b.TimeCell? then Ok(C.Compare(op, a.t, b.t)) else Err(WrongMember)
    case Varchar => if a.StrCell? && b.StrCell? then Ok(CompareOnly(op, a.s, b.s)) else Err(WrongMember)
  }

  /** cmp_field_to_field */
  function CmpFields(op: C.CmpOp, a: string, b: string, r: DelRow, cs: seq<Column>): Result<bool>
    requires RowFits(r, cs)
  {
    var (i, j) := FieldIndexes(cs, a, b, |cs|);
    match NullBit(r, i)
    case Err(e) => Err(e)
    case Ok(m) =>
      match NullBit(r, j)
      case Err(e) => Err(e)
      case Ok(n) =>
        if m || n then Ok(false)
        else if 0 <= i < |cs| && 0 <= j < |cs| then ReadCells(op, cs[i].kind, r.cells[i], r.cells[j])
        else Err(Abort)
  }

  /** The literal as a column of this type reads it out of the union. */
  function ReadLeaf(v: Leaf, kind: ColumnType, parse: Parser): Result<CellValue> {
    match kind
    case Double => if v.RealLeaf? then Ok(RealCell(v.r)) else Err(WrongMember)
    case TinyInt => if v.BoolLeaf? then Ok(BoolCell(v.b)) else Err(WrongMember)
    case Integer => if v.IntLeaf? then Ok(IntCell(v.n)) else Err(WrongMember)
    case Varchar => if v.StrLeaf? then Ok(StrCell(v.s)) else Err(WrongMember)
    case _ =>
      if !v.StrLeaf? then Err(WrongMember)
      else match parse(v.s, kind) case None => Err(BadDate) case Some(t) => Ok(TimeCell(t))
  }

  /** cmp_field_to_value, which also serves a value compared with a field, the field still on the left */
  function CmpValue(op: C.CmpOp, f: string, v: Leaf, r: DelRow, cs: seq<Column>, parse: Parser): Result<bool>
    requires RowFits(r, cs)
  {
    var i := C.IndexOf(cs, f);
    match NullBit(r, if i < |cs| then i else -1)
    case Err(e) => Err(e)
    case Ok(isNull) =>
      if isNull || v.NullLeaf? then Ok(false)
      else if i >= |cs| then Err(Abort)
      else match ReadLeaf(v, cs[i].kind, parse)
        case Err(e) => Err(e)
        case Ok(w) => ReadCells(op, cs[i].kind, r.cells[i], w)
  }

  /** cmp_value_to_value: the first literal's tag decides which member of both is read. */
  function CmpLiterals(op: C.CmpOp, a: Leaf, b: Leaf): Result<bool> {
    match a
    case RealLeaf(x) => if b.RealLeaf? then Ok(CompareReal(op, x, b.r)) else Err(WrongMember)
    case BoolLeaf(x) => if b.BoolLeaf? then Ok(CompareOnly(op, x, b.b)) else Err(WrongMember)
    case IntLeaf(x) => if b.IntLeaf? then Ok(C.CompareInt(op, x, b.n)) else Err(WrongMember)
    case NullLeaf => Ok(false)
    case StrLeaf(x) => if b.StrLeaf? then Ok(CompareOnly(op, x, b.s)) else Err(WrongMember)
    case Name(_) => Err(Abort)
  }

  /** eval_cmp */
  function EvalCmp(op: C.CmpOp, a: Leaf, b: Leaf, r: DelRow, cs: seq<Column>, parse: Parser): Result<bool>
    requires RowFits(r, cs)
  {
    if a.Name? && b.Name? then CmpFields(op, a.name, b.name, r, cs)
    else if a.Name? then CmpValue(op, a.name, b, r, cs, parse)
    else if b.Name? then CmpValue(op, b.name, a, r, cs, parse)
    else CmpLiterals(op, a, b)
  }

  /** eval_isxnull; what is not a field has no name to read */
  function EvalIsNull(f: Leaf, negated: bool, r: DelRow, cs: seq<Column>): Result<bool>
    requires RowFits(r, cs)
  {
    if !f.Name? then Err(WrongMember) else
      match NullBit(r, if C.IndexOf(cs, f.name) < |cs| then C.IndexOf(cs, f.name) else -1)
      case Err(e) => Err(e)
      case Ok(b) => Ok(b != negated)
  }

  /** The second loop of eval_isxin: true at the first value that compares. */
  function EvalItems(op: C.CmpOp, f: string, items: seq<Leaf>, i: nat, r: DelRow, cs: seq<Column>, parse: Parser): Result<bool>
    requires RowFits(r, cs) && i <= |items|
    decreases |items| - i
  {
    if i == |items| then Ok(false)
    else if items[i].Name? then EvalItems(op, f, items, i + 1, r, cs, parse)
    else match CmpValue(op, f, items[i], r, cs, parse)
      case Err(e) => Err(e)
      case Ok(b) => if b then Ok(true) else EvalItems(op, f, items, i + 1, r, cs, parse)
  }

  /** eval_isxin */
  function EvalIn(items: seq<Leaf>, negated: bool, r: DelRow, cs: seq<Column>, parse: Parser): Result<bool>
    requires RowFits(r, cs)
  {
    var k := FieldAt(items, 0);
    if k == |items| then Err(Abort)
    else EvalItems(InOp(negated), items[k].name, items, 0, r, cs, parse)
  }

  function Width(c: Cond): nat {
    if c.Gate? then |c.kids| else 0
  }

  /** eval_delete_row; a gate works out all its children */
  function Eval(c: Cond, r: DelRow, cs: seq<Column>, parse: Parser): Result<bool>
    requires RowFits(r, cs)
    decreases c, Width(c) + 1
  {
    match c
    case Cmp(op, a, b) => EvalCmp(op, a, b, r, cs, parse)
    case IsNull(f, negated) => EvalIsNull(f, negated, r, cs)
    case In(items, negated) => EvalIn(items, negated, r, cs, parse)
    case Gate(_, kids) => EvalGate(c, |kids|, r, cs, parse)
  }

  /** The gate after its first `n` children. */
  function EvalGate(c: Cond, n: nat, r: DelRow, cs: seq<Column>, parse: Parser): Result<bool>
    requires RowFits(r, cs) && c.Gate? && n <= |c.kids|
    decreases c, n
  {
    if n == 0 then Ok(true) else
      match EvalGate(c, n - 1, r, cs, parse)
      case Err(e) => Err(e)
      case Ok(acc) =>
        match Eval(c.kids[n - 1], r, cs, parse)
        case Err(e) => Err(e)
        case Ok(b) => Ok(if n == 1 then b else C.GateStep(c.gate, acc, b))
  }

  // ---------------------------------------------------------------- soundness

  predicate NamesUnique(cs: seq<Column>) {
    forall i, j :: 0 <= i < j < |cs| ==> cs[i].name != cs[j].name
  }

  /** A comparison of a column with itself somewhere in the condition. */
  predicate SelfCompares(c: Cond) {
    match c
    case Cmp(_, a, b) => a.Name? && b.Name? && a.name == b.name
    case Gate(_, kids) => exists i :: 0 <= i < |kids| && SelfCompares(kids[i])
    case _ => false
  }

  lemma {:induction false} IndexUnique(cs: seq<Column>, name: string, k: nat)
    requires NamesUnique(cs) && k < |cs| && cs[k].name == name
    ensures C.IndexOf(cs, name) == k
  {
    C.IndexIsFirst(cs, name, 0);
    var r := C.IndexOf(cs, name);
    assert r <= k && cs[r].name == name;
  }

  /** The two indices the loop finds among the first `n` columns; the second name gets none when it is the first again. */
  lemma {:induction false} IndexesFound(cs: seq<Column>, a: string, b: string, n: nat)
    requires n <= |cs|
    ensures var (i, j) := FieldIndexes(cs, a, b, n);
            && -1 <= i < n && (i >= 0 ==> cs[i].name == a) && (i < 0 ==> forall k :: 0 <= k < n ==> cs[k].name != a)
            && -1 <= j < n && (j >= 0 ==> cs[j].name == b && a != b)
            && (j < 0 && a != b ==> forall k :: 0 <= k < n ==> cs[k].name != b)
  {
    if n > 0 {
      IndexesFound(cs, a, b, n - 1);
    }
  }

  lemma {:induction false} FieldsSound(op: C.CmpOp, a: string, b: string, r: DelRow, cs: seq<Column>)
    requires NamesUnique(cs) && RowFits(r, cs) && C.IndexOf(cs, a) < |cs| && C.IndexOf(cs, b) < |cs|
    requires FieldsCompare(op, KindOf(cs, a), KindOf(cs, b))
    ensures CmpFields(op, a, b, r, cs).Err? <==> a == b
    ensures a == b ==> CmpFields(op, a, b, r, cs) == Err(BadIndex)
  {
    IndexesFound(cs, a, b, |cs|);
    var (i, j) := FieldIndexes(cs, a, b, |cs|);
    assert i >= 0;
    IndexUnique(cs, a, i);
    if a != b {
      assert j >= 0;
      IndexUnique(cs, b, j);
      assert CellFits(r.cells[i], cs[i].kind) && CellFits(r.cells[j], cs[j].kind);
    }
  }

  lemma {:induction false} ValueSound(op: C.CmpOp, f: string, v: Leaf, r: DelRow, cs: seq<Column>, parse: Parser)
    requires RowFits(r, cs) && C.IndexOf(cs, f) < |cs| && !v.Name? && ValueCompares(op, KindOf(cs, f), v, parse)
    ensures CmpValue(op, f, v, r, cs, parse).Ok?
  {
    assert CellFits(r.cells[C.IndexOf(cs, f)], KindOf(cs, f));
  }

  lemma {:induction false} CmpSound(op: C.CmpOp, a: Leaf, b: Leaf, r: DelRow, cs: seq<Column>, parse: Parser)
    requires NamesUnique(cs) && RowFits(r, cs) && LeafExists(a, cs) && LeafExists(b, cs) && CmpTypes(op, a, b, cs, parse)
    ensures EvalCmp(op, a, b, r, cs, parse).Err? <==> SelfCompares(Cmp(op, a, b))
    ensures SelfCompares(Cmp(op, a, b)) ==> EvalCmp(op, a, b, r, cs, parse) == Err(BadIndex)
  {
    if a.Name? && b.Name? {
      FieldsSound(op, a.name, b.name, r, cs);
    } else if a.Name? {
      ValueSound(op, a.name, b, r, cs, parse);
    } else if b.Name? {
      ValueSound(op, b.name, a, r, cs, parse);
    }
  }

  lemma {:induction false} ItemsSound(op: C.CmpOp, f: string, items: seq<Leaf>, i: nat, r: DelRow, cs: seq<Column>,
      parse: Parser)
    requires RowFits(r, cs) && i <= |items| && C.IndexOf(cs, f) < |cs|
    requires forall k :: 0 <= k < |items| && !items[k].Name? ==> ValueCompares(op, KindOf(cs, f), items[k], parse)
    ensures EvalItems(op, f, items, i, r, cs, parse).Ok?
    decreases |items| - i
  {
    if i < |items| {
      ItemsSound(op, f, items, i + 1, r, cs, parse);
      if !items[i].Name? {
        ValueSound(op, f, items[i], r, cs, parse);
      }
    }
  }

  /** A condition that the checks accept goes wrong on a row exactly when it compares a column with itself. */
  lemma {:induction false} AcceptedIsSound(c: Cond, r: DelRow, cs: seq<Column>, parse: Parser)
    requires NamesUnique(cs) && RowFits(r, cs) && FieldedIns(c) && Accepts(c, cs, parse)
    ensures Eval(c, r, cs, parse).Err? <==> SelfCompares(c)
    ensures SelfCompares(c) ==> Eval(c, r, cs, parse) == Err(BadIndex)
    decreases c, 0
  {
    match c
    case Cmp(op, a, b) => CmpSound(op, a, b, r, cs, parse);
    case IsNull(f, _) =>
    case In(items, negated) =>
      var f := items[FieldAt(items, 0)];
      assert LeafExists(f, cs);
      ItemsSound(InOp(negated), f.name, items, 0, r, cs, parse);
    case Gate(_, kids) =>
      forall i | 0 <= i < |kids|
        ensures Eval(kids[i], r, cs, parse).Err? <==> SelfCompares(kids[i])
        ensures SelfCompares(kids[i]) ==> Eval(kids[i], r, cs, parse) == Err(BadIndex)
      {
        AcceptedIsSound(kids[i], r, cs, parse);
      }
      GateSound(c, |kids|, r, cs, parse);
  }

  lemma {:induction false} GateSound(c: Cond, n: nat, r: DelRow, cs: seq<Column>, parse: Parser)
    requires RowFits(r, cs) && c.Gate? && n <= |c.kids|
    requires forall i :: 0 <= i < n ==> (Eval(c.kids[i], r, cs, parse).Err? <==> SelfCompares(c.kids[i]))
    requires forall i :: 0 <= i < n && SelfCompares(c.kids[i]) ==> Eval(c.kids[i], r, cs, parse) == Err(BadIndex)
    ensures EvalGate(c, n, r, cs, parse).Err? <==> exists i :: 0 <= i < n && SelfCompares(c.kids[i])
    ensures EvalGate(c, n, r, cs, parse).Err? ==> EvalGate(c, n, r, cs, parse) == Err(BadIndex)
  {
    if n > 0 {
      GateSound(c, n - 1, r, cs, parse);
    }
  }
}
