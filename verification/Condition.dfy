/**
 Conditions over the rows of a materialised table: the evaluator as the program has it, and what a condition means
 (src/engine/executor_select.c:440-528, 836-1025).
 */
module Condition {
  import opened Ints
  import opened RowStore

  datatype CmpOp = Eq | Diff | Gte | Gt | Lte | Lt

  datatype LogOp = And | Or | Xor

  datatype Operand = Field(name: string) | IntOf(n: int) | NullOf

  /** Conditions over INTEGER columns. A Clause is the ON or WHERE node around them. */
  datatype Cond =
    | Cmp(op: CmpOp, left: Operand, right: Operand)
    | IsNull(field: string, negated: bool)
    | Logic(gate: LogOp, kids: seq<Cond>)
    | Clause(kids: seq<Cond>)

  function Compare(op: CmpOp, a: int, b: int): bool {
    match op
    case Eq => a == b
    case Diff => a != b
    case Gte => a >= b
    case Gt => a > b
    case Lte => a <= b
    case Lt => a < b
  }

  /** cmp_int_value_to_value */
  function CompareInt(op: CmpOp, a: int, b: int): bool {
    Compare(op, Wrap32(a), Wrap32(b))
  }

  /** The first column of that name from `i` on, or the number of columns. */
  function IndexFrom(cs: seq<Column>, name: string, i: nat): (r: nat)
    requires i <= |cs|
    ensures i <= r <= |cs| && (r < |cs| ==> cs[r].name == name)
    decreases |cs| - i
  {
    if i == |cs| || cs[i].name == name then i else IndexFrom(cs, name, i + 1)
  }

  function IndexOf(cs: seq<Column>, name: string): nat {
    IndexFrom(cs, name, 0)
  }

  /** It is the first one. */
  lemma {:induction false} IndexIsFirst(cs: seq<Column>, name: string, i: nat)
    requires i <= |cs|
    ensures forall k :: i <= k < IndexFrom(cs, name, i) ==> cs[k].name != name
    decreases |cs| - i
  {
    if i < |cs| && cs[i].name != name {
      IndexIsFirst(cs, name, i + 1);
    }
  }

  /** An integer column of the table. */
  predicate IntColumn(cs: seq<Column>, name: string) {
    IndexOf(cs, name) < |cs| && cs[IndexOf(cs, name)].kind == Integer
  }

  predicate OperandFits(o: Operand, cs: seq<Column>) {
    o.Field? ==> IntColumn(cs, o.name)
  }

  /** Every field the condition names is an integer column, and gates have inputs. */
  predicate CondFits(c: Cond, cs: seq<Column>) {
    match c
    case Cmp(_, a, b) => OperandFits(a, cs) && OperandFits(b, cs)
    case IsNull(f, _) => IndexOf(cs, f) < |cs|
    case Logic(_, kids) => kids != [] && forall i :: 0 <= i < |kids| ==> CondFits(kids[i], cs)
    case Clause(kids) => forall i :: 0 <= i < |kids| ==> CondFits(kids[i], cs)
  }

  /** A row of these columns as the evaluator reads it. */
  predicate RowOf(r: Record, cs: seq<Column>) {
    && |r.values| == |cs| <= MAX_COLUMNS == |r.nulls|
    && forall i :: 0 <= i < |cs| && cs[i].kind == Integer ==> r.values[i].IntValue?
  }

  // ---------------------------------------------------------------- the evaluator

  function NullAt(r: Record, cs: seq<Column>, f: string): bool
    requires RowOf(r, cs) && IndexOf(cs, f) < |cs|
  {
    r.nulls[IndexOf(cs, f)]
  }

  function IntAt(r: Record, cs: seq<Column>, f: string): int
    requires RowOf(r, cs) && IntColumn(cs, f)
  {
    r.values[IndexOf(cs, f)].n
  }

  function IsNullOperand(o: Operand, r: Record, cs: seq<Column>): bool
    requires RowOf(r, cs) && OperandFits(o, cs)
  {
    match o
    case Field(f) => NullAt(r, cs, f)
    case IntOf(_) => false
    case NullOf => true
  }

  function OperandValue(o: Operand, r: Record, cs: seq<Column>): int
    requires RowOf(r, cs) && OperandFits(o, cs)
  {
    match o
    case Field(f) => IntAt(r, cs, f)
    case IntOf(n) => n
    case NullOf => 0
  }

  /**
   eval_cmp: a comparison with NULL on either side is false, whatever the operator, except that between two literals only
   the first is asked what it is: an integer is then compared with what a NULL literal holds, which is 0.
   */
  function EvalCmp(op: CmpOp, a: Operand, b: Operand, r: Record, cs: seq<Column>): bool
    requires RowOf(r, cs) && OperandFits(a, cs) && OperandFits(b, cs)
  {
    if a.IntOf? && b.NullOf? then CompareInt(op, a.n, 0)
    else if IsNullOperand(a, r, cs) || IsNullOperand(b, r, cs) then false
    else CompareInt(op, OperandValue(a, r, cs), OperandValue(b, r, cs))
  }

  function GateStep(gate: LogOp, acc: bool, eval: bool): bool {
    match gate
    case And => acc && eval
    case Or => acc || eval
    case Xor => acc != eval
  }

  function Width(c: Cond): nat {
    if c.Logic? || c.Clause? then |c.kids| else 0
  }

  /** eval_row_cond: a gate takes in all its children from the first on; a clause stops at the first that is false. */
  function Eval(c: Cond, r: Record, cs: seq<Column>): bool
    requires RowOf(r, cs) && CondFits(c, cs)
    decreases c, Width(c) + 2
  {
    match c
    case Cmp(op, a, b) => EvalCmp(op, a, b, r, cs)
    case IsNull(f, negated) => NullAt(r, cs, f) != negated
    case Logic(_, kids) => EvalGate(c, |kids|, r, cs)
    case Clause(kids) => EvalClause(c, 0, r, cs)
  }

  /** The gate after its first `n` children. */
  function EvalGate(c: Cond, n: nat, r: Record, cs: seq<Column>): bool
    requires RowOf(r, cs) && CondFits(c, cs) && c.Logic? && 1 <= n <= |c.kids|
    decreases c, n
  {
    var eval := Eval(c.kids[n - 1], r, cs);
    if n == 1 then eval else GateStep(c.gate, EvalGate(c, n - 1, r, cs), eval)
  }

  function EvalClause(c: Cond, i: nat, r: Record, cs: seq<Column>): bool
    requires RowOf(r, cs) && CondFits(c, cs) && c.Clause? && i <= |c.kids|
    decreases c, |c.kids| + 1 - i
  {
    i == |c.kids| || (Eval(c.kids[i], r, cs) && EvalClause(c, i + 1, r, cs))
  }

  // ---------------------------------------------------------------- the meaning

  /** A field or literal as a value that may be missing. */
  ghost predicate Known(o: Operand, r: Record, cs: seq<Column>)
    requires RowOf(r, cs)
  {
    match o
    case Field(f) => IndexOf(cs, f) < |cs| && !r.nulls[IndexOf(cs, f)]
    case IntOf(_) => true
    case NullOf => false
  }

  /** What a condition says of a row, over unbounded integers. */
  ghost predicate Holds(c: Cond, r: Record, cs: seq<Column>)
    requires RowOf(r, cs) && CondFits(c, cs)
    decreases c, Width(c) + 1
  {
    match c
    case Cmp(op, a, b) =>
      Known(a, r, cs) && Known(b, r, cs) && Compare(op, OperandValue(a, r, cs), OperandValue(b, r, cs))
    case IsNull(f, negated) => if negated then !r.nulls[IndexOf(cs, f)] else r.nulls[IndexOf(cs, f)]
    case Logic(And, kids) => forall i :: 0 <= i < |kids| ==> Holds(kids[i], r, cs)
    case Logic(Or, kids) => exists i :: 0 <= i < |kids| && Holds(kids[i], r, cs)
    case Logic(Xor, kids) => HowMany(c, |kids|, r, cs) % 2 == 1
    case Clause(kids) => forall i :: 0 <= i < |kids| ==> Holds(kids[i], r, cs)
  }

  /** How many of the first `n` inputs of a gate hold. */
  ghost function HowMany(c: Cond, n: nat, r: Record, cs: seq<Column>): nat
    requires RowOf(r, cs) && CondFits(c, cs) && c.Logic? && n <= |c.kids|
    decreases c, n
  {
    if n == 0 then 0 else HowMany(c, n - 1, r, cs) + if Holds(c.kids[n - 1], r, cs) then 1 else 0
  }

  /** An integer literal compared with a NULL literal by an operator that holds between it and 0. */
  predicate NullTakenForZero(op: CmpOp, a: Operand, b: Operand) {
    a.IntOf? && b.NullOf? && Compare(op, Wrap32(a.n), 0)
  }

  /** All integers that are compared fit 32 bits, and no NULL literal is taken for 0. */
  predicate Small(c: Cond, r: Record, cs: seq<Column>)
    requires RowOf(r, cs) && CondFits(c, cs)
  {
    match c
    case Cmp(op, a, b) => SmallOperand(a, r, cs) && SmallOperand(b, r, cs) && !NullTakenForZero(op, a, b)
    case IsNull(_, _) => true
    case Logic(_, kids) => forall i :: 0 <= i < |kids| ==> Small(kids[i], r, cs)
    case Clause(kids) => forall i :: 0 <= i < |kids| ==> Small(kids[i], r, cs)
  }

  predicate SmallOperand(o: Operand, r: Record, cs: seq<Column>)
    requires RowOf(r, cs) && OperandFits(o, cs)
  {
    IsNullOperand(o, r, cs) || Fits32(OperandValue(o, r, cs))
  }

  // ---------------------------------------------------------------- the order of the integers

  /**
   The six operators belong to one order: < is irreflexive, transitive, total on different integers and steps from each
   integer to the next; > is < with the sides exchanged, >= and <= are their opposites, = is equality and <> its opposite.
   */
  lemma {:induction false} OrderLaws(a: int, b: int, c: int)
    ensures Compare(Eq, a, b) <==> a == b
    ensures Compare(Diff, a, b) <==> !Compare(Eq, a, b)
    ensures Compare(Gt, a, b) <==> Compare(Lt, b, a)
    ensures Compare(Gte, a, b) <==> !Compare(Lt, a, b)
    ensures Compare(Lte, a, b) <==> !Compare(Gt, a, b)
    ensures !Compare(Lt, a, a) && Compare(Lt, a, a + 1)
    ensures Compare(Lt, a, b) && Compare(Lt, b, c) ==> Compare(Lt, a, c)
    ensures a != b ==> (Compare(Lt, a, b) <==> !Compare(Lt, b, a))
  {}

  /** A relation with these laws is the order of the integers and no other. */
  lemma {:induction false} OnlyOrder(lt: (int, int) -> bool, a: int, b: int)
    requires forall n :: !lt(n, n) && lt(n, n + 1)
    requires forall l, m, n :: lt(l, m) && lt(m, n) ==> lt(l, n)
    ensures lt(a, b) <==> a < b
  {
    if a < b {
      Ascends(lt, a, b);
    } else if b < a {
      Ascends(lt, b, a);
      assert lt(a, b) ==> lt(a, a);
    }
  }

  lemma {:induction false} Ascends(lt: (int, int) -> bool, a: int, b: int)
    requires a < b && forall n :: !lt(n, n) && lt(n, n + 1)
    requires forall l, m, n :: lt(l, m) && lt(m, n) ==> lt(l, n)
    ensures lt(a, b)
    decreases b - a
  {
    var m := b - 1;
    assert !lt(m, m) && lt(m, m + 1);
    if a < m {
      Ascends(lt, a, m);
    }
  }

  /** A column against a column or against an integer, in the integers' own order; NULL stands in no relation. */
  lemma {:induction false} HoldsInOrder(f: string, b: Operand, r: Record, cs: seq<Column>)
    requires RowOf(r, cs) && IntColumn(cs, f) && OperandFits(b, cs) && !b.NullOf?
    ensures var x, y := r.values[IndexOf(cs, f)].n, if b.Field? then r.values[IndexOf(cs, b.name)].n else b.n;
            var known := !r.nulls[IndexOf(cs, f)] && (b.Field? ==> !r.nulls[IndexOf(cs, b.name)]);
            && (Holds(Cmp(Eq, Field(f), b), r, cs) <==> known && x == y)
            && (Holds(Cmp(Diff, Field(f), b), r, cs) <==> known && x != y)
            && (Holds(Cmp(Gte, Field(f), b), r, cs) <==> known && x >= y)
            && (Holds(Cmp(Gt, Field(f), b), r, cs) <==> known && x > y)
            && (Holds(Cmp(Lte, Field(f), b), r, cs) <==> known && x <= y)
            && (Holds(Cmp(Lt, Field(f), b), r, cs) <==> known && x < y)
            && (Fits32(x) && Fits32(y) ==> forall op :: Eval(Cmp(op, Field(f), b), r, cs) == Holds(Cmp(op, Field(f), b), r, cs))
  {
    var x, y := OperandValue(Field(f), r, cs), OperandValue(b, r, cs);
    OrderExactly(x, y);
    forall op ensures Fits32(x) && Fits32(y) ==> Eval(Cmp(op, Field(f), b), r, cs) == Holds(Cmp(op, Field(f), b), r, cs) {
      assert Fits32(x) && Fits32(y) ==> CompareInt(op, x, y) == Compare(op, x, y);
    }
  }

  // ---------------------------------------------------------------- exactly when a comparison is right

  /** Two integers compare alike before and after they are passed as an int. */
  predicate SameOrder(x: int, y: int) {
    (x < y <==> Wrap32(x) < Wrap32(y)) && (x == y <==> Wrap32(x) == Wrap32(y))
  }

  /** The comparison is right for every operator exactly when narrowing keeps the order of the two integers. */
  lemma {:induction false} OrderExactly(x: int, y: int)
    ensures (forall op :: CompareInt(op, x, y) == Compare(op, x, y)) <==> SameOrder(x, y)
  {
    if forall op :: CompareInt(op, x, y) == Compare(op, x, y) {
      assert CompareInt(Eq, x, y) == Compare(Eq, x, y) && CompareInt(Lt, x, y) == Compare(Lt, x, y);
    }
  }

  /** An integer compares rightly with every 32-bit integer exactly when it is one itself. */
  lemma {:induction false} NarrowExactly(n: int)
    ensures (forall m, op :: Fits32(m) ==> CompareInt(op, n, m) == Compare(op, n, m)) <==> Fits32(n)
  {
    if !Fits32(n) {
      assert Fits32(Wrap32(n)) && CompareInt(Eq, n, Wrap32(n)) && !Compare(Eq, n, Wrap32(n));
    }
  }

  /** Beyond 32 bits it can go wrong: 2^32 and 0 compare equal. */
  lemma {:induction false} WideValuesDiffer()
    ensures CompareInt(Eq, TWO32, 0) && !Compare(Eq, TWO32, 0)
  {}

  /** A row without NULLs that has `m` in every column. */
  function RowWith(cs: seq<Column>, m: int): Record {
    Record(seq(MAX_COLUMNS, _ => false), seq(|cs|, _ => IntValue(m)))
  }

  /**
   A column compared with a literal is judged rightly on all rows that hold 32-bit integers, whatever the operator, exactly
   when the literal fits 32 bits.
   */
  lemma {:induction false} LiteralExactly(f: string, n: int, cs: seq<Column>)
    requires IntColumn(cs, f) && |cs| <= MAX_COLUMNS
    ensures (forall r, op :: RowOf(r, cs) && Fits32(IntAt(r, cs, f)) ==>
               Eval(Cmp(op, Field(f), IntOf(n)), r, cs) == Holds(Cmp(op, Field(f), IntOf(n)), r, cs))
            <==> Fits32(n)
  {
    if !Fits32(n) {
      var r, c := RowWith(cs, Wrap32(n)), Cmp(Eq, Field(f), IntOf(n));
      assert RowOf(r, cs) && Fits32(IntAt(r, cs, f)) && Eval(c, r, cs) && !Holds(c, r, cs);
    }
  }

  /** Two literals, the second NULL: the verdict is right exactly when the operator does not hold between the first and 0. */
  lemma {:induction false} NullLiteralExactly(op: CmpOp, a: Operand, r: Record, cs: seq<Column>)
    requires RowOf(r, cs) && OperandFits(a, cs)
    ensures Eval(Cmp(op, a, NullOf), r, cs) == Holds(Cmp(op, a, NullOf), r, cs) <==> !NullTakenForZero(op, a, NullOf)
  {}

  /** WHERE 1 <> NULL and WHERE 0 = NULL let every row through. */
  lemma {:induction false} NullLiteralTrue(r: Record, cs: seq<Column>)
    requires RowOf(r, cs)
    ensures Eval(Cmp(Diff, IntOf(1), NullOf), r, cs) && !Holds(Cmp(Diff, IntOf(1), NullOf), r, cs)
    ensures Eval(Cmp(Eq, IntOf(0), NullOf), r, cs) && !Holds(Cmp(Eq, IntOf(0), NullOf), r, cs)
  {}

  /**
   Any comparison is judged rightly whatever the operator exactly when it is not an integer literal against a NULL literal
   and narrowing keeps the order.
   */
  lemma {:induction false} CmpExactly(a: Operand, b: Operand, r: Record, cs: seq<Column>)
    requires RowOf(r, cs) && OperandFits(a, cs) && OperandFits(b, cs)
    ensures (forall op :: Eval(Cmp(op, a, b), r, cs) == Holds(Cmp(op, a, b), r, cs))
            <==> !(a.IntOf? && b.NullOf?)
                 && (Known(a, r, cs) && Known(b, r, cs) ==> SameOrder(OperandValue(a, r, cs), OperandValue(b, r, cs)))
  {
    var x, y := OperandValue(a, r, cs), OperandValue(b, r, cs);
    if a.IntOf? && b.NullOf? {
      assert Eval(Cmp(Eq, a, b), r, cs) || Eval(Cmp(Diff, a, b), r, cs);
    } else {
      forall op ensures Eval(Cmp(op, a, b), r, cs) == Holds(Cmp(op, a, b), r, cs)
                        <==> (Known(a, r, cs) && Known(b, r, cs) ==> CompareInt(op, x, y) == Compare(op, x, y)) {}
      OrderExactly(x, y);
    }
  }

  /** While the integers compared fit 32 bits and no NULL literal is taken for 0, the evaluator says what the condition means. */
  lemma {:induction false} EvalMeans(c: Cond, r: Record, cs: seq<Column>)
    requires RowOf(r, cs) && CondFits(c, cs) && Small(c, r, cs)
    ensures Eval(c, r, cs) <==> Holds(c, r, cs)
    decreases c, 1
  {
    match c
    case Cmp(op, a, b) => SmallMeans(op, a, b, r, cs);
    case IsNull(_, _) =>
    case Logic(_, kids) =>
      KidsMean(c, r, cs);
      GateMeans(c, |kids|, r, cs);
    case Clause(kids) =>
      KidsMean(c, r, cs);
      ClauseMeans(c, 0, r, cs);
  }

  lemma {:induction false} SmallMeans(op: CmpOp, a: Operand, b: Operand, r: Record, cs: seq<Column>)
    requires RowOf(r, cs) && CondFits(Cmp(op, a, b), cs) && Small(Cmp(op, a, b), r, cs)
    ensures Eval(Cmp(op, a, b), r, cs) == Holds(Cmp(op, a, b), r, cs)
  {
    if b.NullOf? {
      NullLiteralExactly(op, a, r, cs);
    } else if Known(a, r, cs) && Known(b, r, cs) {
      NarrowExactly(OperandValue(a, r, cs));
    }
  }

  lemma {:induction false} KidsMean(c: Cond, r: Record, cs: seq<Column>)
    requires RowOf(r, cs) && CondFits(c, cs) && Small(c, r, cs) && (c.Logic? || c.Clause?)
    ensures forall i :: 0 <= i < |c.kids| ==> (Eval(c.kids[i], r, cs) <==> Holds(c.kids[i], r, cs))
    decreases c, 0
  {
    forall i | 0 <= i < |c.kids| ensures Eval(c.kids[i], r, cs) <==> Holds(c.kids[i], r, cs) {
      EvalMeans(c.kids[i], r, cs);
    }
  }

  lemma {:induction false} GateMeans(c: Cond, n: nat, r: Record, cs: seq<Column>)
    requires RowOf(r, cs) && CondFits(c, cs) && c.Logic? && 1 <= n <= |c.kids|
    requires forall i :: 0 <= i < n ==> (Eval(c.kids[i], r, cs) <==> Holds(c.kids[i], r, cs))
    ensures c.gate == And ==> (EvalGate(c, n, r, cs) <==> forall i :: 0 <= i < n ==> Holds(c.kids[i], r, cs))
    ensures c.gate == Or ==> (EvalGate(c, n, r, cs) <==> exists i :: 0 <= i < n && Holds(c.kids[i], r, cs))
    ensures c.gate == Xor ==> (EvalGate(c, n, r, cs) <==> HowMany(c, n, r, cs) % 2 == 1)
  {
    if n > 1 {
      GateMeans(c, n - 1, r, cs);
    } else {
      assert HowMany(c, 0, r, cs) == 0;
    }
  }

  lemma {:induction false} ClauseMeans(c: Cond, i: nat, r: Record, cs: seq<Column>)
    requires RowOf(r, cs) && CondFits(c, cs) && c.Clause? && i <= |c.kids|
    requires forall j :: 0 <= j < |c.kids| ==> (Eval(c.kids[j], r, cs) <==> Holds(c.kids[j], r, cs))
    ensures EvalClause(c, i, r, cs) <==> forall j :: i <= j < |c.kids| ==> Holds(c.kids[j], r, cs)
    decreases |c.kids| - i
  {
    if i < |c.kids| {
      ClauseMeans(c, i + 1, r, cs);
    }
  }

  // ---------------------------------------------------------------- the loops of the evaluator

  /** The loops that look a column up by name. */
  method FindColumn(cs: seq<Column>, name: string) returns (i: nat)
    ensures i == IndexOf(cs, name)
  {
    i := 0;
    while i < |cs|
      invariant 0 <= i <= |cs| && IndexOf(cs, name) == IndexFrom(cs, name, i)
    {
      if cs[i].name == name {
        return;
      }
      i := i + 1;
    }
  }

  /** eval_row_cond with its loops over the children */
  method EvalRowCond(c: Cond, r: Record, cs: seq<Column>) returns (ret: bool)
    requires RowOf(r, cs) && CondFits(c, cs)
    ensures ret == Eval(c, r, cs)
    decreases c
  {
    match c {
      case Cmp(op, a, b) => ret := EvalCmp(op, a, b, r, cs);
      case IsNull(f, negated) =>
        var i := FindColumn(cs, f);
        ret := r.nulls[i] != negated;
      case Logic(gate, kids) =>
        ret := true;
        var gateInit, i := false, 0;
        while i < |kids|
          invariant 0 <= i <= |kids| && (gateInit <==> i > 0) && (i > 0 ==> ret == EvalGate(c, i, r, cs))
        {
          var eval := EvalRowCond(kids[i], r, cs);
          if !gateInit {
            gateInit, ret := true, eval;
          } else {
            ret := GateStep(gate, ret, eval);
          }
          i := i + 1;
        }
      case Clause(kids) =>
        ret := true;
        var i := 0;
        while i < |kids|
          invariant 0 <= i <= |kids| && EvalClause(c, 0, r, cs) == EvalClause(c, i, r, cs)
        {
          var eval := EvalRowCond(kids[i], r, cs);
          if !eval {
            return false;
          }
          i := i + 1;
        }
    }
  }
}
