/** What a DELETE condition means, and where the evaluator of src/engine/executor_delete.c says something else. */
module DeleteMeaning {
  import opened Wrappers
  import opened Ints
  import opened Folding
  import opened RowStore
  import opened DeleteCond
  import C = Condition

  // ---------------------------------------------------------------- the meaning

  /** Two values of one type in the order their type has; strings and booleans have none. */
  ghost predicate Stands(op: C.CmpOp, a: CellValue, b: CellValue) {
    match a
    case IntCell(x) => b.IntCell? && C.Compare(op, x, b.n)
    case TimeCell(x) => b.TimeCell? && C.Compare(op, x, b.t)
    case BoolCell(x) => b.BoolCell? && CompareOnly(op, x, b.b)
    case RealCell(x) => b.RealCell? && CompareReal(op, x, b.r)
    case StrCell(x) => b.StrCell? && CompareOnly(op, x, b.s)
  }

  /** Values of one type. */
  predicate OneType(a: CellValue, b: CellValue) {
    match a
    case IntCell(_) => b.IntCell?
    case TimeCell(_) => b.TimeCell?
    case BoolCell(_) => b.BoolCell?
    case RealCell(_) => b.RealCell?
    case StrCell(_) => b.StrCell?
  }

  /** Of values of one type = is equality and <> is not. */
  lemma {:induction false} StandsEqual(a: CellValue, b: CellValue)
    requires OneType(a, b)
    ensures Stands(C.Eq, a, b) <==> a == b
    ensures Stands(C.Diff, a, b) <==> a != b
  {}

  /** Integers and times stand in the order of the integers, doubles in that of the reals, strings and booleans in none. */
  lemma {:induction false} StandsInOrder(a: CellValue, b: CellValue)
    requires OneType(a, b)
    ensures Stands(C.Lt, a, b) <==> match a
            case IntCell(x) => x < b.n
            case TimeCell(x) => x < b.t
            case RealCell(x) => x < b.r
            case _ => false
    ensures Stands(C.Gt, a, b) <==> Stands(C.Lt, b, a)
    ensures a.BoolCell? || a.StrCell? ==> !Stands(C.Gte, a, b) && !Stands(C.Lte, a, b)
    ensures !(a.BoolCell? || a.StrCell?) ==>
              (Stands(C.Gte, a, b) <==> !Stands(C.Lt, a, b)) && (Stands(C.Lte, a, b) <==> !Stands(C.Gt, a, b))
  {}

  /** A comparison needs both its values. */
  ghost predicate Related(op: C.CmpOp, a: Option<CellValue>, b: Option<CellValue>) {
    a.Some? && b.Some? && Stands(op, a.value, b.value)
  }

  /** A column of the row, or a literal as a column of type `kind` would hold it. */
  ghost function ValueOf(l: Leaf, kind: ColumnType, r: DelRow, cs: seq<Column>, parse: Parser): Option<CellValue>
    requires RowFits(r, cs)
  {
    match l
    case Name(f) => var i := C.IndexOf(cs, f); if i == |cs| || r.nulls[i] then None else Some(r.cells[i])
    case _ => Literal(l, kind, parse)
  }

  ghost function Literal(l: Leaf, kind: ColumnType, parse: Parser): Option<CellValue> {
    match l
    case IntLeaf(n) => Some(IntCell(n))
    case RealLeaf(x) => Some(RealCell(x))
    case BoolLeaf(b) => Some(BoolCell(b))
    case StrLeaf(s) =>
      if kind != Date && kind != DateTime then Some(StrCell(s))
      else (match parse(s, kind) case None => None case Some(t) => Some(TimeCell(t)))
    case _ => None
  }

  /** The type that a comparison is made in: that of the column on either side. */
  function SideKind(a: Leaf, b: Leaf, cs: seq<Column>): ColumnType
    requires LeafExists(a, cs) && LeafExists(b, cs)
  {
    if a.Name? then KindOf(cs, a.name) else if b.Name? then KindOf(cs, b.name) else Varchar
  }

  /** Item `i` is a value that stands in relation `op` to the field of the list. */
  ghost predicate ItemRelated(op: C.CmpOp, items: seq<Leaf>, i: nat, r: DelRow, cs: seq<Column>, parse: Parser)
    requires RowFits(r, cs) && HasField(items) && i < |items| && forall k :: 0 <= k < |items| ==> LeafExists(items[k], cs)
  {
    var f := items[FieldAt(items, 0)];
    assert LeafExists(f, cs);
    Related(op, ValueOf(f, Varchar, r, cs, parse), Literal(items[i], KindOf(cs, f.name), parse))
  }

  /** What a condition says of a row. */
  ghost predicate Meant(c: Cond, r: DelRow, cs: seq<Column>, parse: Parser)
    requires RowFits(r, cs) && ColumnsExist(c, cs)
    decreases c, Width(c) + 1
  {
    match c
    case Cmp(op, a, b) =>
      Related(op, ValueOf(a, SideKind(a, b, cs), r, cs, parse), ValueOf(b, SideKind(a, b, cs), r, cs, parse))
    case IsNull(f, negated) => f.Name? && r.nulls[C.IndexOf(cs, f.name)] != negated
    case In(items, false) => HasField(items) && exists i :: 0 <= i < |items| && ItemRelated(C.Eq, items, i, r, cs, parse)
    case In(items, true) =>
      && HasField(items)
      && forall i :: 0 <= i < |items| && !items[i].Name? ==> ItemRelated(C.Diff, items, i, r, cs, parse)
    case Gate(And, kids) => forall i :: 0 <= i < |kids| ==> Meant(kids[i], r, cs, parse)
    case Gate(Or, kids) => exists i :: 0 <= i < |kids| && Meant(kids[i], r, cs, parse)
    case Gate(Xor, kids) => HowMany(c, |kids|, r, cs, parse) % 2 == 1
  }

  /** How many of the first `n` inputs of a gate are meant. */
  ghost function HowMany(c: Cond, n: nat, r: DelRow, cs: seq<Column>, parse: Parser): nat
    requires RowFits(r, cs) && ColumnsExist(c, cs) && c.Gate? && n <= |c.kids|
    decreases c, n
  {
    if n == 0 then 0 else HowMany(c, n - 1, r, cs, parse) + if Meant(c.kids[n - 1], r, cs, parse) then 1 else 0
  }

  // ---------------------------------------------------------------- where the evaluator says so

  /**
   A literal on the left of a column is compared from the right: that is no matter for equality, for NULL, and for booleans,
   which have no order.
   */
  predicate Unturned(op: C.CmpOp, a: Leaf, b: Leaf, cs: seq<Column>)
    requires LeafExists(a, cs) && LeafExists(b, cs)
  {
    a.Name? || !b.Name? || IsEquality(op) || a.NullLeaf? || KindOf(cs, b.name) == TinyInt
  }

  /** The values of a list are one value, be it NULL, in one or more copies. */
  ghost predicate OneValue(items: seq<Leaf>, kind: ColumnType, parse: Parser) {
    && (exists i :: 0 <= i < |items| && !items[i].Name?)
    && forall i, j :: 0 <= i < |items| && 0 <= j < |items| && !items[i].Name? && !items[j].Name? ==>
         Literal(items[i], kind, parse) == Literal(items[j], kind, parse)
  }

  /** No order is turned round, NOT IN lists one value, and gates have inputs. */
  ghost predicate Straight(c: Cond, cs: seq<Column>, parse: Parser)
    requires ColumnsExist(c, cs)
  {
    match c
    case Cmp(op, a, b) => Unturned(op, a, b, cs)
    case IsNull(_, _) => true
    case In(items, negated) => negated && HasField(items) ==> OneValue(items, ListKind(items, cs), parse)
    case Gate(_, kids) => kids != [] && forall i :: 0 <= i < |kids| ==> Straight(kids[i], cs, parse)
  }

  function ListKind(items: seq<Leaf>, cs: seq<Column>): ColumnType
    requires HasField(items) && forall k :: 0 <= k < |items| ==> LeafExists(items[k], cs)
  {
    var f := items[FieldAt(items, 0)];
    assert LeafExists(f, cs);
    KindOf(cs, f.name)
  }

  predicate SmallLeaf(l: Leaf) {
    l.IntLeaf? ==> Fits32(l.n)
  }

  /** The integers of the row fit 32 bits. */
  predicate SmallRow(r: DelRow) {
    forall i :: 0 <= i < |r.cells| && r.cells[i].IntCell? ==> Fits32(r.cells[i].n)
  }

  /** So do those of the condition. */
  predicate SmallLeaves(c: Cond) {
    match c
    case Cmp(_, a, b) => SmallLeaf(a) && SmallLeaf(b)
    case IsNull(_, _) => true
    case In(items, _) => forall i :: 0 <= i < |items| ==> SmallLeaf(items[i])
    case Gate(_, kids) => forall i :: 0 <= i < |kids| ==> SmallLeaves(kids[i])
  }

  // ---------------------------------------------------------------- comparisons

  /** A column and a literal, the column on the left. */
  lemma {:induction false} ValueMeans(op: C.CmpOp, f: string, v: Leaf, r: DelRow, cs: seq<Column>, parse: Parser)
    requires RowFits(r, cs) && SmallRow(r) && C.IndexOf(cs, f) < |cs| && !v.Name? && SmallLeaf(v)
    requires ValueCompares(op, KindOf(cs, f), v, parse)
    ensures CmpValue(op, f, v, r, cs, parse)
            == Ok(Related(op, ValueOf(Name(f), Varchar, r, cs, parse), Literal(v, KindOf(cs, f), parse)))
  {
    assert CellFits(r.cells[C.IndexOf(cs, f)], KindOf(cs, f));
  }

  lemma {:induction false} FieldsMean(op: C.CmpOp, a: string, b: string, r: DelRow, cs: seq<Column>, parse: Parser)
    requires NamesUnique(cs) && RowFits(r, cs) && SmallRow(r) && C.IndexOf(cs, a) < |cs| && C.IndexOf(cs, b) < |cs|
    requires FieldsCompare(op, KindOf(cs, a), KindOf(cs, b)) && a != b
    ensures CmpFields(op, a, b, r, cs)
            == Ok(Related(op, ValueOf(Name(a), Varchar, r, cs, parse), ValueOf(Name(b), Varchar, r, cs, parse)))
  {
    IndexesFound(cs, a, b, |cs|);
    var (i, j) := FieldIndexes(cs, a, b, |cs|);
    var p, q := C.IndexOf(cs, a), C.IndexOf(cs, b);
    assert cs[p].name == a && cs[q].name == b;
    IndexUnique(cs, a, i);
    IndexUnique(cs, b, j);
    assert CellFits(r.cells[p], cs[p].kind) && CellFits(r.cells[q], cs[q].kind);
  }

  /**
   A column = or <> a literal that the checker lets through: meant of a row exactly when the column is not NULL and its value
   is, or is not, the literal; and what is meant is what the evaluator says.
   */
  lemma {:induction false} EqualMeans(f: string, v: Leaf, r: DelRow, cs: seq<Column>, parse: Parser)
    requires NamesUnique(cs) && RowFits(r, cs) && SmallRow(r) && C.IndexOf(cs, f) < |cs| && !v.Name? && SmallLeaf(v)
    requires ValueCompares(C.Eq, KindOf(cs, f), v, parse)
    ensures var i, w := C.IndexOf(cs, f), Literal(v, KindOf(cs, f), parse);
            && (Meant(Cmp(C.Eq, Name(f), v), r, cs, parse) <==> !r.nulls[i] && w == Some(r.cells[i]))
            && (Meant(Cmp(C.Diff, Name(f), v), r, cs, parse) <==> !r.nulls[i] && w.Some? && w != Some(r.cells[i]))
            && Eval(Cmp(C.Eq, Name(f), v), r, cs, parse) == Ok(!r.nulls[i] && w == Some(r.cells[i]))
            && Eval(Cmp(C.Diff, Name(f), v), r, cs, parse) == Ok(!r.nulls[i] && w.Some? && w != Some(r.cells[i]))
  {
    var i := C.IndexOf(cs, f);
    assert CellFits(r.cells[i], KindOf(cs, f));
    ValueMeans(C.Eq, f, v, r, cs, parse);
    ValueMeans(C.Diff, f, v, r, cs, parse);
    if !v.NullLeaf? {
      StandsEqual(r.cells[i], Literal(v, KindOf(cs, f), parse).value);
    }
  }

  /** Read from the right, an order is the opposite one. */
  function Mirrored(op: C.CmpOp): C.CmpOp {
    match op
    case Eq => C.Eq
    case Diff => C.Diff
    case Gte => C.Lte
    case Gt => C.Lt
    case Lte => C.Gte
    case Lt => C.Gt
  }

  lemma {:induction false} CmpMeans(op: C.CmpOp, a: Leaf, b: Leaf, r: DelRow, cs: seq<Column>, parse: Parser)
    requires NamesUnique(cs) && RowFits(r, cs) && SmallRow(r) && LeafExists(a, cs) && LeafExists(b, cs)
    requires CmpTypes(op, a, b, cs, parse) && !SelfCompares(Cmp(op, a, b)) && Unturned(op, a, b, cs)
    requires SmallLeaf(a) && SmallLeaf(b)
    ensures Eval(Cmp(op, a, b), r, cs, parse) == Ok(Meant(Cmp(op, a, b), r, cs, parse))
  {
    if a.Name? && b.Name? {
      FieldsMean(op, a.name, b.name, r, cs, parse);
    } else if a.Name? {
      ValueMeans(op, a.name, b, r, cs, parse);
    } else if b.Name? {
      ValueMeans(op, b.name, a, r, cs, parse);
      assert CellFits(r.cells[C.IndexOf(cs, b.name)], KindOf(cs, b.name));
    }
  }

  /** What the evaluator says of a literal on the left is what the mirrored comparison means, on every row. */
  lemma {:induction false} TurnedRound(op: C.CmpOp, v: Leaf, f: string, r: DelRow, cs: seq<Column>, parse: Parser)
    requires RowFits(r, cs) && SmallRow(r) && C.IndexOf(cs, f) < |cs| && !v.Name? && SmallLeaf(v)
    requires ValueCompares(op, KindOf(cs, f), v, parse)
    ensures Eval(Cmp(op, v, Name(f)), r, cs, parse) == Ok(Meant(Cmp(Mirrored(op), v, Name(f)), r, cs, parse))
  {
    ValueMeans(op, f, v, r, cs, parse);
    assert CellFits(r.cells[C.IndexOf(cs, f)], KindOf(cs, f));
  }

  // ---------------------------------------------------------------- lists

  /** The loop of eval_isxin finds out whether some value is related to the field. */
  lemma {:induction false} ItemsMean(op: C.CmpOp, items: seq<Leaf>, i: nat, r: DelRow, cs: seq<Column>, parse: Parser)
    requires RowFits(r, cs) && SmallRow(r) && i <= |items|
    requires forall k :: 0 <= k < |items| ==> LeafExists(items[k], cs) && SmallLeaf(items[k])
    requires HasField(items)
    requires forall k :: 0 <= k < |items| && !items[k].Name? ==> ValueCompares(op, ListKind(items, cs), items[k], parse)
    ensures EvalItems(op, items[FieldAt(items, 0)].name, items, i, r, cs, parse)
            == Ok(exists k :: i <= k < |items| && ItemRelated(op, items, k, r, cs, parse))
    decreases |items| - i
  {
    if i < |items| {
      ItemsMean(op, items, i + 1, r, cs, parse);
      ItemMeans(op, items, i, r, cs, parse);
    }
  }

  lemma {:induction false} ItemMeans(op: C.CmpOp, items: seq<Leaf>, i: nat, r: DelRow, cs: seq<Column>, parse: Parser)
    requires RowFits(r, cs) && SmallRow(r) && i < |items|
    requires forall k :: 0 <= k < |items| ==> LeafExists(items[k], cs) && SmallLeaf(items[k])
    requires HasField(items) && (!items[i].Name? ==> ValueCompares(op, ListKind(items, cs), items[i], parse))
    ensures if items[i].Name? then !ItemRelated(op, items, i, r, cs, parse)
            else CmpValue(op, items[FieldAt(items, 0)].name, items[i], r, cs, parse) == Ok(ItemRelated(op, items, i, r, cs, parse))
  {
    var f := items[FieldAt(items, 0)];
    assert LeafExists(f, cs);
    if !items[i].Name? {
      ValueMeans(op, f.name, items[i], r, cs, parse);
    }
  }

  lemma {:induction false} InMeans(items: seq<Leaf>, negated: bool, r: DelRow, cs: seq<Column>, parse: Parser)
    requires RowFits(r, cs) && SmallRow(r) && forall k :: 0 <= k < |items| ==> LeafExists(items[k], cs) && SmallLeaf(items[k])
    requires HasField(items) && InTypes(items, negated, cs, parse) && (negated ==> OneValue(items, ListKind(items, cs), parse))
    ensures Eval(In(items, negated), r, cs, parse) == Ok(Meant(In(items, negated), r, cs, parse))
  {
    ItemsMean(InOp(negated), items, 0, r, cs, parse);
    if negated {
      var i :| 0 <= i < |items| && !items[i].Name?;
      forall k | 0 <= k < |items| && !items[k].Name?
        ensures ItemRelated(C.Diff, items, k, r, cs, parse) <==> ItemRelated(C.Diff, items, i, r, cs, parse) {}
      forall k | 0 <= k < |items| && items[k].Name? ensures !ItemRelated(C.Diff, items, k, r, cs, parse) {}
    }
  }

  // ---------------------------------------------------------------- whole conditions

  /** What a gate says of its first `n` inputs. */
  ghost predicate GateMeant(c: Cond, n: nat, r: DelRow, cs: seq<Column>, parse: Parser)
    requires RowFits(r, cs) && ColumnsExist(c, cs) && c.Gate? && n <= |c.kids|
  {
    match c.gate
    case And => forall i :: 0 <= i < n ==> Meant(c.kids[i], r, cs, parse)
    case Or => exists i :: 0 <= i < n && Meant(c.kids[i], r, cs, parse)
    case Xor => HowMany(c, n, r, cs, parse) % 2 == 1
  }

  lemma {:induction false} OneMoreInput(c: Cond, n: nat, r: DelRow, cs: seq<Column>, parse: Parser)
    requires RowFits(r, cs) && ColumnsExist(c, cs) && c.Gate? && n < |c.kids|
    ensures GateMeant(c, n + 1, r, cs, parse)
            <==> if n == 0 then Meant(c.kids[0], r, cs, parse)
                 else C.GateStep(c.gate, GateMeant(c, n, r, cs, parse), Meant(c.kids[n], r, cs, parse))
  {
    if n == 0 {
      assert HowMany(c, 0, r, cs, parse) == 0;
    }
  }

  /** The evaluator says of every input what it means; folded. */
  ghost predicate KidsSay(c: Cond, r: DelRow, cs: seq<Column>, parse: Parser)
    requires RowFits(r, cs) && ColumnsExist(c, cs) && c.Gate?
  {
    forall q :: Look(q) ==>
      forall i :: 0 <= i < |c.kids| ==> Eval(c.kids[i], r, cs, parse) == Ok(Meant(c.kids[i], r, cs, parse))
  }

  lemma {:induction false} KidSays(c: Cond, i: nat, r: DelRow, cs: seq<Column>, parse: Parser)
    requires RowFits(r, cs) && ColumnsExist(c, cs) && c.Gate? && i < |c.kids| && KidsSay(c, r, cs, parse)
    ensures Eval(c.kids[i], r, cs, parse) == Ok(Meant(c.kids[i], r, cs, parse))
  {
    assert Look(0);
  }

  lemma {:induction false} GateMeans(c: Cond, n: nat, r: DelRow, cs: seq<Column>, parse: Parser)
    requires RowFits(r, cs) && ColumnsExist(c, cs) && c.Gate? && 1 <= n <= |c.kids| && KidsSay(c, r, cs, parse)
    ensures EvalGate(c, n, r, cs, parse) == Ok(GateMeant(c, n, r, cs, parse))
  {
    KidSays(c, n - 1, r, cs, parse);
    OneMoreInput(c, n - 1, r, cs, parse);
    if n > 1 {
      GateMeans(c, n - 1, r, cs, parse);
    } else {
      assert EvalGate(c, 0, r, cs, parse) == Ok(true);
    }
  }

  /**
   A condition that passed the checks says of every row what it means, where no order is turned round and NOT IN lists one
   value.
   */
  lemma {:induction false} EvalMeans(c: Cond, r: DelRow, cs: seq<Column>, parse: Parser)
    requires NamesUnique(cs) && RowFits(r, cs) && FieldedIns(c) && Accepts(c, cs, parse) && !SelfCompares(c)
    requires Straight(c, cs, parse) && SmallRow(r) && SmallLeaves(c)
    ensures Eval(c, r, cs, parse) == Ok(Meant(c, r, cs, parse))
    decreases c
  {
    match c
    case Cmp(op, a, b) => CmpMeans(op, a, b, r, cs, parse);
    case IsNull(f, _) =>
    case In(items, negated) => InMeans(items, negated, r, cs, parse);
    case Gate(_, kids) =>
      forall i | 0 <= i < |kids| ensures Eval(kids[i], r, cs, parse) == Ok(Meant(kids[i], r, cs, parse)) {
        EvalMeans(kids[i], r, cs, parse);
      }
      GateMeans(c, |kids|, r, cs, parse);
  }

  // ---------------------------------------------------------------- and exactly where

  function AnyCell(kind: ColumnType): (v: CellValue)
    ensures CellFits(v, kind) && (v.IntCell? ==> Fits32(v.n))
  {
    match kind
    case Integer => IntCell(0)
    case TinyInt => BoolCell(false)
    case Double => RealCell(0.0)
    case Varchar => StrCell("")
    case _ => TimeCell(0)
  }

  /** A row without NULLs that holds `v` in the column named `f`. */
  function RowHolding(cs: seq<Column>, f: string, v: CellValue): (r: DelRow)
    requires |cs| <= MAX_COLUMNS && C.IndexOf(cs, f) < |cs| && CellFits(v, KindOf(cs, f)) && (v.IntCell? ==> Fits32(v.n))
    ensures RowFits(r, cs) && SmallRow(r) && r.cells[C.IndexOf(cs, f)] == v && !r.nulls[C.IndexOf(cs, f)]
  {
    DelRow(seq(MAX_COLUMNS, _ => false), seq(|cs|, i requires 0 <= i < |cs| => AnyCell(cs[i].kind))[C.IndexOf(cs, f) := v])
  }

  /** Another value of that type; for those that have an order, one next to it. */
  function Other(v: CellValue): (w: CellValue)
    ensures w != v && (v.IntCell? && Fits32(v.n) ==> w.IntCell? && Fits32(w.n))
    ensures forall kind: ColumnType :: CellFits(v, kind) ==> CellFits(w, kind)
    ensures forall op :: !IsEquality(op) && !v.BoolCell? && !v.StrCell? ==> Stands(op, w, v) != Stands(op, v, w)
  {
    match v
    case IntCell(n) => IntCell(if n > 0 then n - 1 else n + 1)
    case TimeCell(t) => TimeCell(t + 1)
    case BoolCell(b) => BoolCell(!b)
    case RealCell(x) => RealCell(x + 1.0)
    case StrCell(s) => StrCell(s + "x")
  }

  /** The evaluator says what is meant of every row whose integers fit 32 bits. */
  ghost predicate RightEverywhere(c: Cond, cs: seq<Column>, parse: Parser)
    requires ColumnsExist(c, cs)
  {
    forall r: DelRow :: RowFits(r, cs) && SmallRow(r) ==> Eval(c, r, cs, parse) == Ok(Meant(c, r, cs, parse))
  }

  /** A literal on the left of a column is right on every row exactly when no order is turned round. */
  lemma {:induction false} TurnedExactly(op: C.CmpOp, v: Leaf, f: string, cs: seq<Column>, parse: Parser)
    requires |cs| <= MAX_COLUMNS && C.IndexOf(cs, f) < |cs| && !v.Name? && SmallLeaf(v)
    requires ValueCompares(op, KindOf(cs, f), v, parse)
    ensures RightEverywhere(Cmp(op, v, Name(f)), cs, parse) <==> Unturned(op, v, Name(f), cs)
  {
    if Unturned(op, v, Name(f), cs) {
      forall r: DelRow | RowFits(r, cs) && SmallRow(r)
        ensures Eval(Cmp(op, v, Name(f)), r, cs, parse) == Ok(Meant(Cmp(op, v, Name(f)), r, cs, parse)) {
        ValueMeans(op, f, v, r, cs, parse);
        assert CellFits(r.cells[C.IndexOf(cs, f)], KindOf(cs, f));
      }
    } else {
      var w := Literal(v, KindOf(cs, f), parse).value;
      var r := RowHolding(cs, f, Other(w));
      TurnedRound(op, v, f, r, cs, parse);
      assert Stands(op, Other(w), w) != Stands(op, w, Other(w));
    }
  }

  lemma {:induction false} LiteralFits(op: C.CmpOp, kind: ColumnType, v: Leaf, parse: Parser)
    requires !v.Name? && SmallLeaf(v) && ValueCompares(op, kind, v, parse)
    ensures var w := Literal(v, kind, parse);
            (w.None? <==> v.NullLeaf?) && (w.Some? ==> CellFits(w.value, kind) && (w.value.IntCell? ==> Fits32(w.value.n)))
  {}

  lemma {:induction false} Unequal(v: CellValue, w: CellValue, kind: ColumnType)
    requires CellFits(v, kind) && CellFits(w, kind)
    ensures Stands(C.Diff, v, w) <==> v != w
  {}

  /** A row of which NOT IN says yes although one of the values is not unlike the column. */
  lemma {:induction false} TwoValues(items: seq<Leaf>, i: nat, j: nat, cs: seq<Column>, parse: Parser) returns (r: DelRow)
    requires |cs| <= MAX_COLUMNS && forall k :: 0 <= k < |items| ==> LeafExists(items[k], cs) && SmallLeaf(items[k])
    requires HasField(items) && InTypes(items, true, cs, parse) && i < |items| && j < |items|
    requires !items[i].Name? && !items[j].Name? && Literal(items[i], ListKind(items, cs), parse).Some?
    requires Literal(items[i], ListKind(items, cs), parse) != Literal(items[j], ListKind(items, cs), parse)
    ensures RowFits(r, cs) && SmallRow(r)
    ensures ItemRelated(C.Diff, items, i, r, cs, parse) != ItemRelated(C.Diff, items, j, r, cs, parse)
  {
    var f, kind := items[FieldAt(items, 0)], ListKind(items, cs);
    LiteralFits(C.Diff, kind, items[i], parse);
    LiteralFits(C.Diff, kind, items[j], parse);
    var v, w := Literal(items[i], kind, parse).value, Literal(items[j], kind, parse);
    if w.Some? {
      r := RowHolding(cs, f.name, v);
      Unequal(v, w.value, kind);
      Unequal(v, v, kind);
    } else {
      r := RowHolding(cs, f.name, Other(v));
      Unequal(Other(v), v, kind);
    }
  }

  /** NOT IN is right on every row exactly when it lists one value. */
  lemma {:induction false} NotInExactly(items: seq<Leaf>, cs: seq<Column>, parse: Parser)
    requires |cs| <= MAX_COLUMNS && forall k :: 0 <= k < |items| ==> LeafExists(items[k], cs) && SmallLeaf(items[k])
    requires HasField(items) && InTypes(items, true, cs, parse)
    ensures RightEverywhere(In(items, true), cs, parse) <==> OneValue(items, ListKind(items, cs), parse)
  {
    var kind := ListKind(items, cs);
    if OneValue(items, kind, parse) {
      forall r: DelRow | RowFits(r, cs) && SmallRow(r)
        ensures Eval(In(items, true), r, cs, parse) == Ok(Meant(In(items, true), r, cs, parse)) {
        InMeans(items, true, r, cs, parse);
      }
    } else {
      NotInWrong(items, cs, parse);
    }
  }

  lemma {:induction false} NotInWrong(items: seq<Leaf>, cs: seq<Column>, parse: Parser)
    requires |cs| <= MAX_COLUMNS && forall k :: 0 <= k < |items| ==> LeafExists(items[k], cs) && SmallLeaf(items[k])
    requires HasField(items) && InTypes(items, true, cs, parse) && !OneValue(items, ListKind(items, cs), parse)
    ensures !RightEverywhere(In(items, true), cs, parse)
  {
    var f, kind := items[FieldAt(items, 0)], ListKind(items, cs);
    if forall i :: 0 <= i < |items| ==> items[i].Name? {
      var r := RowHolding(cs, f.name, AnyCell(kind));
      ItemsMean(C.Diff, items, 0, r, cs, parse);
      assert Meant(In(items, true), r, cs, parse);
    } else {
      var i, j :| 0 <= i < |items| && 0 <= j < |items| && !items[i].Name? && !items[j].Name?
                  && Literal(items[i], kind, parse) != Literal(items[j], kind, parse);
      var r: DelRow;
      if Literal(items[i], kind, parse).Some? {
        r := TwoValues(items, i, j, cs, parse);
      } else {
        r := TwoValues(items, j, i, cs, parse);
      }
      ItemsMean(C.Diff, items, 0, r, cs, parse);
      assert Eval(In(items, true), r, cs, parse) == Ok(true) && !Meant(In(items, true), r, cs, parse);
    }
  }

  // ---------------------------------------------------------------- what the checks turn down

  /** The operator has a meaning for values of this type. */
  predicate Orderable(op: C.CmpOp, kind: ColumnType) {
    op == C.Eq || op == C.Diff || kind != Varchar
  }

  /**
   A column and a literal pass the checks exactly when no row makes their comparison go wrong and strings are not put in an
   order; a NULL literal only for = and <>.
   */
  lemma {:induction false} ValueExactly(op: C.CmpOp, f: string, v: Leaf, cs: seq<Column>, parse: Parser)
    requires |cs| <= MAX_COLUMNS && C.IndexOf(cs, f) < |cs| && !v.Name?
    ensures var kind := KindOf(cs, f);
            ValueCompares(op, kind, v, parse)
            <==> (forall r: DelRow :: RowFits(r, cs) ==> CmpValue(op, f, v, r, cs, parse).Ok?)
                 && Orderable(op, if v.NullLeaf? then Varchar else kind)
  {
    var kind := KindOf(cs, f);
    if ReadLeaf(v, kind, parse).Ok? || v.NullLeaf? {
      forall r: DelRow | RowFits(r, cs) ensures CmpValue(op, f, v, r, cs, parse).Ok? {
        assert CellFits(r.cells[C.IndexOf(cs, f)], kind);
      }
    } else {
      var r := RowHolding(cs, f, AnyCell(kind));
      assert RowFits(r, cs) && CmpValue(op, f, v, r, cs, parse).Err?;
    }
  }

  /** Two columns pass exactly when they have one type and strings are not put in an order; no row makes that go wrong. */
  lemma {:induction false} FieldsExactly(op: C.CmpOp, a: string, b: string, cs: seq<Column>)
    requires NamesUnique(cs) && |cs| <= MAX_COLUMNS && C.IndexOf(cs, a) < |cs| && C.IndexOf(cs, b) < |cs| && a != b
    ensures var k, l := KindOf(cs, a), KindOf(cs, b);
            && (FieldsCompare(op, k, l) <==> k == l && Orderable(op, k))
            && ((forall r: DelRow :: RowFits(r, cs) ==> CmpFields(op, a, b, r, cs).Ok?)
                <==> CellFits(AnyCell(k), l))
  {
    var p, q := C.IndexOf(cs, a), C.IndexOf(cs, b);
    IndexesFound(cs, a, b, |cs|);
    var (i, j) := FieldIndexes(cs, a, b, |cs|);
    IndexUnique(cs, a, i);
    IndexUnique(cs, b, j);
    if CellFits(AnyCell(cs[p].kind), cs[q].kind) {
      forall r: DelRow | RowFits(r, cs) ensures CmpFields(op, a, b, r, cs).Ok? {
        assert CellFits(r.cells[p], cs[p].kind) && CellFits(r.cells[q], cs[q].kind);
      }
    } else {
      var r := RowHolding(cs, a, AnyCell(cs[p].kind));
      assert RowFits(r, cs) && CellFits(r.cells[q], cs[q].kind) && CmpFields(op, a, b, r, cs).Err?;
    }
  }

  /** DELETE ... WHERE 5 < f1 takes the rows with f1 below 5, and NOT IN (1, 2) takes the rows with 1. */
  lemma {:induction false} WrongRows(f: string, r: DelRow, cs: seq<Column>, parse: Parser)
    requires RowFits(r, cs) && C.IndexOf(cs, f) < |cs| && !r.nulls[C.IndexOf(cs, f)] && r.cells[C.IndexOf(cs, f)] == IntCell(1)
    requires KindOf(cs, f) == Integer && SmallRow(r)
    ensures Eval(Cmp(C.Lt, IntLeaf(5), Name(f)), r, cs, parse) == Ok(true)
    ensures !Meant(Cmp(C.Lt, IntLeaf(5), Name(f)), r, cs, parse)
    ensures Eval(In([Name(f), IntLeaf(1), IntLeaf(2)], true), r, cs, parse) == Ok(true)
    ensures !Meant(In([Name(f), IntLeaf(1), IntLeaf(2)], true), r, cs, parse)
  {
    var items := [Name(f), IntLeaf(1), IntLeaf(2)];
    assert FieldAt(items, 0) == 0;
    ItemsMean(C.Diff, items, 0, r, cs, parse);
    assert ItemRelated(C.Diff, items, 2, r, cs, parse) && !ItemRelated(C.Diff, items, 1, r, cs, parse);
  }
}
