/** The loops of the DELETE checks and of the DELETE executor. */
module DeleteExec {
  import opened Wrappers
  import opened Folding
  import opened RowStore
  import opened TableStore
  import opened Sieve
  import opened DeleteCond
  import M = DeleteMeaning
  import RowCodec
  import C = Condition
  import HashTables

  // ---------------------------------------------------------------- checking types

  /** What the check comes to; Crash where it reads through the field it did not find. */
  datatype Verdict = Yes | No | Crash

  function Judge(b: bool): Verdict {
    if b then Yes else No
  }

  /** check_values_for_isxin from item `i` on, with whatever field was found */
  function InVerdict(items: seq<Leaf>, negated: bool, i: nat, cs: seq<Column>, parse: Parser): Verdict
    requires i <= |items| && forall k :: 0 <= k < |items| ==> LeafExists(items[k], cs)
    decreases |items| - i
  {
    if i == |items| then Yes
    else if items[i].Name? then InVerdict(items, negated, i + 1, cs, parse)
    else if !HasField(items) then Crash
    else
      var f := items[FieldAt(items, 0)];
      assert LeafExists(f, cs);
      if ValueCompares(InOp(negated), KindOf(cs, f.name), items[i], parse)
      then InVerdict(items, negated, i + 1, cs, parse) else No
  }

  /** __check_value_types on any condition, fielded or not: the first child that is not fine settles it. */
  function TypesVerdict(c: Cond, cs: seq<Column>, parse: Parser): Verdict
    requires ColumnsExist(c, cs)
    decreases c, Width(c) + 2
  {
    match c
    case Cmp(op, a, b) => Judge(CmpTypes(op, a, b, cs, parse))
    case IsNull(_, _) => Yes
    case In(items, negated) => InVerdict(items, negated, 0, cs, parse)
    case Gate(_, kids) => KidsVerdict(c, 0, cs, parse)
  }

  function KidsVerdict(c: Cond, i: nat, cs: seq<Column>, parse: Parser): Verdict
    requires c.Gate? && ColumnsExist(c, cs) && i <= |c.kids|
    decreases c, |c.kids| + 1 - i
  {
    if i == |c.kids| then Yes else
      var v := TypesVerdict(c.kids[i], cs, parse);
      if v == Yes then KidsVerdict(c, i + 1, cs, parse) else v
  }

  /** With a field in every IN the check never crashes and says what TypesFit says. */
  lemma {:induction false} VerdictFits(c: Cond, cs: seq<Column>, parse: Parser)
    requires ColumnsExist(c, cs) && FieldedIns(c)
    ensures TypesVerdict(c, cs, parse) == Judge(TypesFit(c, cs, parse))
    decreases c, Width(c) + 2
  {
    match c
    case Cmp(_, _, _) =>
    case IsNull(_, _) =>
    case In(items, negated) => InVerdictFits(items, negated, 0, cs, parse);
    case Gate(_, kids) => KidsVerdictFits(c, 0, cs, parse);
  }

  lemma {:induction false} InVerdictFits(items: seq<Leaf>, negated: bool, i: nat, cs: seq<Column>, parse: Parser)
    requires HasField(items) && i <= |items| && forall k :: 0 <= k < |items| ==> LeafExists(items[k], cs)
    ensures var f := items[FieldAt(items, 0)];
            LeafExists(f, cs) && InVerdict(items, negated, i, cs, parse) == Judge(
              forall k :: i <= k < |items| && !items[k].Name? ==>
                ValueCompares(InOp(negated), KindOf(cs, f.name), items[k], parse))
    decreases |items| - i
  {
    var f := items[FieldAt(items, 0)];
    assert LeafExists(f, cs);
    if i < |items| {
      InVerdictFits(items, negated, i + 1, cs, parse);
    }
  }

  lemma {:induction false} KidsVerdictFits(c: Cond, i: nat, cs: seq<Column>, parse: Parser)
    requires c.Gate? && ColumnsExist(c, cs) && FieldedIns(c) && i <= |c.kids|
    ensures KidsVerdict(c, i, cs, parse) == Judge(forall k :: i <= k < |c.kids| ==> TypesFit(c.kids[k], cs, parse))
    decreases c, |c.kids| + 1 - i
  {
    if i < |c.kids| {
      VerdictFits(c.kids[i], cs, parse);
      KidsVerdictFits(c, i + 1, cs, parse);
    }
  }

  /** The check has nothing against the condition, looked at part by part in any order. */
  ghost predicate Accepted(c: Cond, cs: seq<Column>, parse: Parser)
    requires ColumnsExist(c, cs)
  {
    match c
    case Cmp(op, a, b) => CmpTypes(op, a, b, cs, parse)
    case IsNull(_, _) => true
    case In(items, negated) => items == [] || (HasField(items) && InTypes(items, negated, cs, parse))
    case Gate(_, kids) => forall i :: 0 <= i < |kids| ==> Accepted(kids[i], cs, parse)
  }

  /** A list of values without a field, with nothing before it that the check turns down. */
  ghost predicate BareReached(c: Cond, cs: seq<Column>, parse: Parser)
    requires ColumnsExist(c, cs)
    decreases c, 1
  {
    match c
    case In(items, _) => items != [] && !HasField(items)
    case Gate(_, kids) => exists i :: 0 <= i < |kids| && BareReachedAt(c, i, cs, parse)
    case _ => false
  }

  ghost predicate BareReachedAt(c: Cond, i: nat, cs: seq<Column>, parse: Parser)
    requires ColumnsExist(c, cs) && c.Gate? && i < |c.kids|
    decreases c, 0
  {
    BareReached(c.kids[i], cs, parse) && forall j :: 0 <= j < i ==> Accepted(c.kids[j], cs, parse)
  }

  /** The check crashes exactly when it reaches a list without a field before anything it turns down. */
  lemma {:induction false} CrashesExactly(c: Cond, cs: seq<Column>, parse: Parser)
    requires ColumnsExist(c, cs)
    ensures TypesVerdict(c, cs, parse) == Crash <==> BareReached(c, cs, parse)
    ensures TypesVerdict(c, cs, parse) == Yes <==> Accepted(c, cs, parse)
    decreases c, Width(c) + 2
  {
    match c
    case Cmp(_, _, _) =>
    case IsNull(_, _) =>
    case In(items, negated) => InExactly(items, negated, cs, parse);
    case Gate(_, kids) =>
      KidsExactly(c, 0, cs, parse);
      assert forall i: nat :: i < |kids| ==> (ReachedFrom(c, 0, i, cs, parse) <==> BareReachedAt(c, i, cs, parse));
  }

  lemma {:induction false} InExactly(items: seq<Leaf>, negated: bool, cs: seq<Column>, parse: Parser)
    requires forall k :: 0 <= k < |items| ==> LeafExists(items[k], cs)
    ensures InVerdict(items, negated, 0, cs, parse) == Crash <==> items != [] && !HasField(items)
    ensures InVerdict(items, negated, 0, cs, parse) == Yes
            <==> items == [] || (HasField(items) && InTypes(items, negated, cs, parse))
  {
    if HasField(items) {
      InVerdictFits(items, negated, 0, cs, parse);
    } else if items != [] {
      FieldSkipped(items);
    }
  }

  /** Without a field the very first item is a value. */
  lemma {:induction false} FieldSkipped(items: seq<Leaf>)
    requires items != [] && !HasField(items)
    ensures !items[0].Name?
  {}

  /** The child at `i` has a bare list that is reached from child `k` on. */
  ghost predicate ReachedFrom(c: Cond, k: nat, i: nat, cs: seq<Column>, parse: Parser)
    requires ColumnsExist(c, cs) && c.Gate?
  {
    k <= i < |c.kids| && BareReached(c.kids[i], cs, parse) && forall j :: k <= j < i ==> Accepted(c.kids[j], cs, parse)
  }

  ghost predicate ReachedAfter(c: Cond, k: nat, cs: seq<Column>, parse: Parser)
    requires ColumnsExist(c, cs) && c.Gate?
  {
    exists i: nat :: ReachedFrom(c, k, i, cs, parse)
  }

  lemma {:induction false} KidsExactly(c: Cond, k: nat, cs: seq<Column>, parse: Parser)
    requires c.Gate? && ColumnsExist(c, cs) && k <= |c.kids|
    ensures KidsVerdict(c, k, cs, parse) == Crash <==> ReachedAfter(c, k, cs, parse)
    ensures KidsVerdict(c, k, cs, parse) == Yes <==> forall i :: k <= i < |c.kids| ==> Accepted(c.kids[i], cs, parse)
    decreases c, |c.kids| + 1 - k
  {
    if k < |c.kids| {
      CrashesExactly(c.kids[k], cs, parse);
      KidsExactly(c, k + 1, cs, parse);
      KidsStep(c, k, k + 1, cs, parse);
    }
  }

  /** A bare list is reached from `k` on if child `k` has one, or is accepted and one is reached after it. */
  lemma {:induction false} KidsStep(c: Cond, k: nat, n: nat, cs: seq<Column>, parse: Parser)
    requires c.Gate? && ColumnsExist(c, cs) && k < |c.kids| && n == k + 1
    ensures ReachedAfter(c, k, cs, parse)
            <==> BareReached(c.kids[k], cs, parse) || (Accepted(c.kids[k], cs, parse) && ReachedAfter(c, n, cs, parse))
  {
    if ReachedAfter(c, k, cs, parse) {
      var i: nat :| ReachedFrom(c, k, i, cs, parse);
      assert i == k || ReachedFrom(c, n, i, cs, parse);
    }
    if BareReached(c.kids[k], cs, parse) {
      assert ReachedFrom(c, k, k, cs, parse);
    }
    if Accepted(c.kids[k], cs, parse) && ReachedAfter(c, n, cs, parse) {
      var i: nat :| ReachedFrom(c, n, i, cs, parse);
      assert ReachedFrom(c, k, i, cs, parse);
    }
  }

  /** A list of values without a field crashes the check, whatever the columns are. */
  lemma {:induction false} BareListCrashes(items: seq<Leaf>, negated: bool, cs: seq<Column>, parse: Parser)
    requires items != [] && forall k :: 0 <= k < |items| ==> !items[k].Name?
    ensures ColumnsExist(In(items, negated), cs) && TypesVerdict(In(items, negated), cs, parse) == Crash
  {
    NoField(items, 0);
  }

  lemma {:induction false} NoField(items: seq<Leaf>, i: nat)
    requires i <= |items| && forall k :: 0 <= k < |items| ==> !items[k].Name?
    ensures FieldAt(items, i) == |items|
    decreases |items| - i
  {
    if i < |items| {
      NoField(items, i + 1);
    }
  }

  // ---------------------------------------------------------------- the checks with their hash table

  type TypeTable = HashTables.HashTable<string, string, ColumnType>

  /** The table binds the names of the columns to their types. */
  ghost predicate Binds(ht: TypeTable, cs: seq<Column>)
    reads ht, ht.buckets
  {
    && ht.Valid()
    && forall s: string :: HashTables.MapGet(ht.model, ht.norm(s)) == TypeIn(cs, s)
  }

  ghost function TypeIn(cs: seq<Column>, s: string): Option<ColumnType> {
    if C.IndexOf(cs, s) < |cs| then Some(KindOf(cs, s)) else None
  }

  method TypeOf(ht: TypeTable, name: string, ghost cs: seq<Column>) returns (kind: ColumnType)
    requires Binds(ht, cs) && C.IndexOf(cs, name) < |cs|
    ensures kind == KindOf(cs, name)
  {
    var r := ht.Get(name);
    assert r == TypeIn(cs, name);
    kind := r.value;
  }

  /** check_values_for_cmp */
  method CheckCmp(op: C.CmpOp, a: Leaf, b: Leaf, ht: TypeTable, ghost cs: seq<Column>, parse: Parser) returns (ok: bool)
    requires Binds(ht, cs) && LeafExists(a, cs) && LeafExists(b, cs)
    ensures ok == CmpTypes(op, a, b, cs, parse)
  {
    if a.Name? && b.Name? {
      var k := TypeOf(ht, a.name, cs);
      var l := TypeOf(ht, b.name, cs);
      ok := FieldsCompare(op, k, l);
    } else if a.Name? {
      var k := TypeOf(ht, a.name, cs);
      ok := ValueCompares(op, k, b, parse);
    } else if b.Name? {
      var k := TypeOf(ht, b.name, cs);
      ok := ValueCompares(op, k, a, parse);
    } else {
      ok := ValuesCompare(op, a, b);
    }
  }

  /** check_values_for_isxin */
  method CheckIn(items: seq<Leaf>, negated: bool, ht: TypeTable, ghost cs: seq<Column>, parse: Parser) returns (v: Verdict)
    requires Binds(ht, cs) && forall k :: 0 <= k < |items| ==> LeafExists(items[k], cs)
    ensures v == InVerdict(items, negated, 0, cs, parse)
  {
    var f, i := 0, 0;
    while f < |items| && !items[f].Name?
      invariant 0 <= f <= |items| && FieldAt(items, 0) == FieldAt(items, f)
    {
      f := f + 1;
    }
    while i < |items|
      invariant 0 <= i <= |items| && InVerdict(items, negated, 0, cs, parse) == InVerdict(items, negated, i, cs, parse)
    {
      if !items[i].Name? {
        if f == |items| {
          return Crash;
        }
        assert LeafExists(items[f], cs);
        var k := TypeOf(ht, items[f].name, cs);
        if !ValueCompares(InOp(negated), k, items[i], parse) {
          return No;
        }
      }
      i := i + 1;
    }
    v := Yes;
  }

  /** __check_value_types */
  method CheckNode(c: Cond, ht: TypeTable, ghost cs: seq<Column>, parse: Parser) returns (v: Verdict)
    requires Binds(ht, cs) && ColumnsExist(c, cs)
    ensures v == TypesVerdict(c, cs, parse)
    decreases c
  {
    match c {
      case Cmp(op, a, b) =>
        var ok := CheckCmp(op, a, b, ht, cs, parse);
        v := Judge(ok);
      case IsNull(_, _) => v := Yes;
      case In(items, negated) => v := CheckIn(items, negated, ht, cs, parse);
      case Gate(_, kids) =>
        var i := 0;
        while i < |kids|
          invariant 0 <= i <= |kids| && KidsVerdict(c, 0, cs, parse) == KidsVerdict(c, i, cs, parse)
        {
          v := CheckNode(kids[i], ht, cs, parse);
          if v != Yes {
            return;
          }
          i := i + 1;
        }
        v := Yes;
    }
  }

  /** The map after the first `n` columns have been put. */
  ghost predicate BindsFirst(m: map<string, ColumnType>, cs: seq<Column>, n: nat)
    requires n <= |cs|
  {
    && (forall k :: 0 <= k < n ==> cs[k].name in m && m[cs[k].name] == cs[k].kind)
    && forall s :: s in m ==> Named(cs, n, s)
  }

  ghost predicate Named(cs: seq<Column>, n: nat, s: string)
    requires n <= |cs|
  {
    exists k :: 0 <= k < n && cs[k].name == s
  }

  lemma {:induction false} AllBound(m: map<string, ColumnType>, cs: seq<Column>, s: string)
    requires NamesUnique(cs) && BindsFirst(m, cs, |cs|)
    ensures HashTables.MapGet(m, s) == TypeIn(cs, s)
  {
    C.IndexIsFirst(cs, s, 0);
    var i := C.IndexOf(cs, s);
    assert i < |cs| ==> cs[i].name in m;
    assert s in m ==> Named(cs, |cs|, s);
  }

  /** The loop that puts the columns into the hash table; names being unique, no put is refused. */
  method PutColumns(ht: TypeTable, cs: seq<Column>)
    requires ht.Valid() && ht.model == map[] && NamesUnique(cs) && forall s: string :: ht.norm(s) == s
    modifies ht, ht.buckets
    ensures Binds(ht, cs) && (ht.buckets == old(ht.buckets) || fresh(ht.buckets))
  {
    var i := 0;
    while i < |cs|
      invariant 0 <= i <= |cs| && ht.Valid() && BindsFirst(ht.model, cs, i)
      invariant ht.buckets == old(ht.buckets) || fresh(ht.buckets)
    {
      ghost var m := ht.model;
      var ok := ht.Put(cs[i].name, cs[i].kind);
      OneMoreBound(m, cs, i);
      i := i + 1;
    }
    forall s: string ensures HashTables.MapGet(ht.model, ht.norm(s)) == TypeIn(cs, s) {
      AllBound(ht.model, cs, s);
    }
  }

  lemma {:induction false} OneMoreBound(m: map<string, ColumnType>, cs: seq<Column>, i: nat)
    requires NamesUnique(cs) && i < |cs| && BindsFirst(m, cs, i)
    ensures cs[i].name !in m && BindsFirst(m[cs[i].name := cs[i].kind], cs, i + 1)
  {
    var m' := m[cs[i].name := cs[i].kind];
    assert cs[i].name in m ==> Named(cs, i, cs[i].name);
    forall s | s in m' ensures Named(cs, i + 1, s) {
      assert s in m ==> Named(cs, i, s);
      assert cs[i].name == s || s in m;
    }
  }

  /** check_value_types: the table is filled, asked, emptied entry by entry and freed. */
  method CheckValueTypes(c: Cond, cs: seq<Column>, parse: Parser, hash: string -> nat) returns (v: Verdict)
    requires NamesUnique(cs) && ColumnsExist(c, cs)
    ensures v == TypesVerdict(c, cs, parse)
  {
    var ht := new HashTables.HashTable<string, string, ColumnType>((a: string, b: string) => a == b, hash, (s: string) => s);
    PutColumns(ht, cs);
    v := CheckNode(c, ht, cs, parse);
    var seen := ht.ForEachRemoving();
    ht.Free();
  }

  // ---------------------------------------------------------------- the evaluator's loops

  /** The loop of cmp_field_to_field. */
  method FindFields(cs: seq<Column>, a: string, b: string) returns (i: int, j: int)
    ensures (i, j) == FieldIndexes(cs, a, b, |cs|)
    ensures -1 <= i < |cs| && (i >= 0 ==> cs[i].name == a) && (i < 0 ==> forall k :: 0 <= k < |cs| ==> cs[k].name != a)
    ensures -1 <= j < |cs| && (j >= 0 ==> cs[j].name == b && a != b)
    ensures j < 0 && a != b ==> forall k :: 0 <= k < |cs| ==> cs[k].name != b
  {
    IndexesFound(cs, a, b, |cs|);
    i, j := -1, -1;
    var n := 0;
    while n < |cs|
      invariant 0 <= n <= |cs| && (i, j) == FieldIndexes(cs, a, b, n)
    {
      if cs[n].name == a {
        i := n;
      } else if cs[n].name == b {
        j := n;
      }
      n := n + 1;
    }
  }

  /** eval_isxin */
  method EvalList(items: seq<Leaf>, negated: bool, r: DelRow, cs: seq<Column>, parse: Parser) returns (res: Result<bool>)
    requires RowFits(r, cs)
    ensures res == EvalIn(items, negated, r, cs, parse)
  {
    var f, i := 0, 0;
    while f < |items| && !items[f].Name?
      invariant 0 <= f <= |items| && FieldAt(items, 0) == FieldAt(items, f)
    {
      f := f + 1;
    }
    if f == |items| {
      return Err(Abort);
    }
    var op, name := InOp(negated), items[f].name;
    while i < |items|
      invariant 0 <= i <= |items|
      invariant EvalItems(op, name, items, 0, r, cs, parse) == EvalItems(op, name, items, i, r, cs, parse)
    {
      if !items[i].Name? {
        var one := CmpValue(op, name, items[i], r, cs, parse);
        if one.Err? || one.value {
          return one;
        }
      }
      i := i + 1;
    }
    res := Ok(false);
  }

  /** eval_delete_row */
  method EvalDeleteRow(c: Cond, r: DelRow, cs: seq<Column>, parse: Parser) returns (res: Result<bool>)
    requires RowFits(r, cs)
    ensures res == Eval(c, r, cs, parse)
    decreases c
  {
    match c {
      case Cmp(op, a, b) => res := EvalCmp(op, a, b, r, cs, parse);
      case IsNull(f, negated) => res := EvalIsNull(f, negated, r, cs);
      case In(items, negated) => res := EvalList(items, negated, r, cs, parse);
      case Gate(gate, kids) =>
        var acc, gateInit, i := true, false, 0;
        while i < |kids|
          invariant 0 <= i <= |kids| && (gateInit <==> i > 0) && EvalGate(c, i, r, cs, parse) == Ok(acc)
        {
          var one := EvalDeleteRow(kids[i], r, cs, parse);
          if one.Err? {
            GateStops(c, i + 1, |kids|, r, cs, parse);
            return one;
          }
          if !gateInit {
            gateInit, acc := true, one.value;
          } else {
            acc := C.GateStep(gate, acc, one.value);
          }
          i := i + 1;
        }
        res := Ok(acc);
    }
  }

  /** Once a child goes wrong the gate has gone wrong. */
  lemma {:induction false} GateStops(c: Cond, i: nat, n: nat, r: DelRow, cs: seq<Column>, parse: Parser)
    requires RowFits(r, cs) && c.Gate? && i <= n <= |c.kids| && EvalGate(c, i, r, cs, parse).Err?
    ensures EvalGate(c, n, r, cs, parse) == EvalGate(c, i, r, cs, parse)
  {
    if i < n {
      GateStops(c, i, n - 1, r, cs, parse);
    }
  }

  // ---------------------------------------------------------------- the scan

  /** Bytes of a stored value as the evaluator reads them; DOUBLE columns are not part of this model. */
  function CellOf(v: Value, kind: ColumnType): CellValue {
    match v
    case IntValue(n) => if kind == Integer then IntCell(n) else if kind == TinyInt then BoolCell(n != 0) else TimeCell(n)
    case StrValue(s) => StrCell(s)
    case Dangling => StrCell("")
  }

  function DelRowOf(r: Record, cs: seq<Column>): DelRow
    requires RecordFits(r, cs)
  {
    DelRow(r.nulls, seq(|cs|, i requires 0 <= i < |cs| => CellOf(r.values[i], cs[i].kind)))
  }

  /** The literal of a VALUES list as a literal of a condition. */
  function LeafOf(l: RowCodec.Literal): Leaf {
    match l
    case IntLit(n) => IntLeaf(n)
    case BoolLit(b) => BoolLeaf(b)
    case StrLit(s, _) => StrLeaf(s)
    case _ => NullLeaf
  }

  /** What INSERT stores for a literal is what DELETE reads back as equal to that literal, dates parsed alike. */
  lemma {:induction false} InsertedMatches(l: RowCodec.Literal, kind: ColumnType, insert: RowCodec.Parser, parse: Parser)
    requires !l.NullLit? && !l.RealLit? && RowCodec.WellTyped(l, kind, insert)
    requires l.StrLit? && kind != Varchar ==> parse(l.s, kind) == Some(insert(l.s, kind))
    ensures var v, w := CellOf(RowCodec.ValueOf(l, kind, insert), kind), M.Literal(LeafOf(l), kind, parse);
            CellFits(v, kind) && w == Some(v) && M.Stands(C.Eq, v, w.value) && !M.Stands(C.Diff, v, w.value)
  {}

  predicate NoDoubles(cs: seq<Column>) {
    forall i :: 0 <= i < |cs| ==> cs[i].kind != Double
  }

  lemma {:induction false} DelRowFits(r: Record, cs: seq<Column>)
    requires RecordFits(r, cs) && NoDoubles(cs)
    ensures RowFits(DelRowOf(r, cs), cs)
  {
    forall i | 0 <= i < |cs| ensures CellFits(DelRowOf(r, cs).cells[i], cs[i].kind) {
      assert if cs[i].kind == Varchar then r.values[i].StrValue? else r.values[i].IntValue?;
    }
  }

  /** The rows that a DELETE leaves: those that do not satisfy its condition. */
  ghost function Spared(c: Cond, cs: seq<Column>, parse: Parser): Record -> bool {
    (r: Record) => RecordFits(r, cs) && RowFits(DelRowOf(r, cs), cs) && Eval(c, DelRowOf(r, cs), cs, parse) != Ok(true)
  }

  /** A statement that passed the checks, on a table that its condition can be evaluated on. */
  ghost predicate Runnable(c: Cond, cs: seq<Column>, parse: Parser) {
    NamesUnique(cs) && NoDoubles(cs) && FieldedIns(c) && Accepts(c, cs, parse) && !SelfCompares(c)
  }

  /** The scan judges by the condition; folded. */
  ghost predicate Judging(t: Table, c: Cond, parse: Parser, k: Pass)
    reads t`columns
  {
    forall i :: Look(i) ==>
      Runnable(c, t.columns, parse) && AllRecordsFit(k.was, t.columns) && k.keep == Spared(c, t.columns, parse)
  }

  /** On the row in a slot the evaluation goes through. */
  lemma {:induction false} RowJudged(t: Table, c: Cond, parse: Parser, k: Pass, y: nat, done: seq<Record>, b: nat, i: nat)
    requires Judging(t, c, parse, k) && Filtered(t, k.keep, k.was, y, done)
    requires b < |t.blocks| && i < |t.blocks[b]| && IsLive(t.blocks[b][i]) && Seen(t.blocks, b, i) == |done|
    ensures var r := ReadRow(t.blocks[b][i], t.heap);
            && RecordFits(r, t.columns) && RowFits(DelRowOf(r, t.columns), t.columns)
            && Eval(c, DelRowOf(r, t.columns), t.columns, parse).Ok?
            && k.keep(r) == !Eval(c, DelRowOf(r, t.columns), t.columns, parse).value
  {
    assert Look(0);
    RowAt(t.blocks, b, i, t.heap);
    NextRow(k.keep, k.was, y, done, t.Contents());
    var r := ReadRow(t.blocks[b][i], t.heap);
    DelRowFits(r, t.columns);
    AcceptedIsSound(c, DelRowOf(r, t.columns), t.columns, parse);
  }

  /** One slot of the scan. */
  method DeleteSlot(t: Table, c: Cond, parse: Parser, b: nat, i: nat, ghost k: Pass, ghost y: nat, ghost done: seq<Record>)
      returns (hit: bool, ghost y': nat, ghost done': seq<Record>)
    requires Judging(t, c, parse, k) && Filtered(t, k.keep, k.was, y, done)
    requires b < |t.blocks| && i < |t.blocks[b]| && Seen(t.blocks, b, i) == |done|
    modifies t`blocks
    ensures Filtered(t, k.keep, k.was, y', done') && SameTaken(old(t.blocks), t.blocks)
    ensures b < |t.blocks| && i < |t.blocks[b]| && Seen(t.blocks, b, i + 1) == |done'|
    ensures y' - |done'| == y - |done| + if hit then 1 else 0
  {
    y', done', hit := y, done, false;
    var row := t.blocks[b][i];
    if !row.deleted && !row.empty {
      RowJudged(t, c, parse, k, y, done, b, i);
      var res := EvalDeleteRow(c, DelRowOf(ReadRow(row, t.heap), t.columns), t.columns, parse);
      hit := res.value;
      done' := Settle(t, k.keep, b, i, !hit, k.was, y, done);
      y' := y + 1;
    }
  }

  method DeletePage(t: Table, c: Cond, parse: Parser, b: nat, ghost k: Pass, ghost y: nat, ghost done: seq<Record>)
      returns (hits: nat, ghost y': nat, ghost done': seq<Record>)
    requires Judging(t, c, parse, k) && Filtered(t, k.keep, k.was, y, done)
    requires b < |t.blocks| && LiveBelow(t.blocks, b) == |done|
    modifies t`blocks
    ensures Filtered(t, k.keep, k.was, y', done') && |t.blocks| == |old(t.blocks)|
    ensures LiveBelow(t.blocks, b + 1) == |done'| && y' - |done'| == y - |done| + hits
  {
    var i, n := 0, |t.blocks[b]|;
    hits, y', done' := 0, y, done;
    while i < n
      invariant Filtered(t, k.keep, k.was, y', done') && |t.blocks| == |old(t.blocks)|
      invariant 0 <= i <= n == |t.blocks[b]| && Seen(t.blocks, b, i) == |done'| && y' - |done'| == y - |done| + hits
    {
      var hit;
      ghost var before := t.blocks;
      hit, y', done' := DeleteSlot(t, c, parse, b, i, k, y', done');
      assert SameEmpty(before[b], t.blocks[b]);
      hits := hits + if hit then 1 else 0;
      i := i + 1;
    }
    WholePageSeen(t.blocks, b);
  }

  /** The rows that a DELETE is meant to leave. */
  ghost function Unmeant(c: Cond, cs: seq<Column>, parse: Parser): Record -> bool {
    (r: Record) =>
      RecordFits(r, cs) && RowFits(DelRowOf(r, cs), cs) && ColumnsExist(c, cs) && !M.Meant(c, DelRowOf(r, cs), cs, parse)
  }

  /** No order is turned round, NOT IN lists one value, and all integers fit 32 bits. */
  ghost predicate Plain(rs: seq<Record>, c: Cond, cs: seq<Column>, parse: Parser) {
    && ColumnsExist(c, cs) && M.Straight(c, cs, parse) && M.SmallLeaves(c)
    && forall k :: 0 <= k < |rs| ==> RecordFits(rs[k], cs) && M.SmallRow(DelRowOf(rs[k], cs))
  }

  lemma {:induction false} SparedMeans(rs: seq<Record>, c: Cond, cs: seq<Column>, parse: Parser)
    requires Runnable(c, cs, parse)
    ensures Plain(rs, c, cs, parse) ==> Wanted(Spared(c, cs, parse), rs) == Wanted(Unmeant(c, cs, parse), rs)
  {
    if Plain(rs, c, cs, parse) && rs != [] {
      var n := |rs| - 1;
      SparedMeans(rs[..n], c, cs, parse);
      RowMeans(rs[n], c, cs, parse);
    }
  }

  lemma {:induction false} RowMeans(r: Record, c: Cond, cs: seq<Column>, parse: Parser)
    requires Runnable(c, cs, parse) && Plain([r], c, cs, parse)
    ensures Spared(c, cs, parse)(r) == Unmeant(c, cs, parse)(r)
  {
    assert [r][0] == r;
    DelRowFits(r, cs);
    M.EvalMeans(c, DelRowOf(r, cs), cs, parse);
  }

  /** scan_delete: the rows that satisfy an accepted condition go, the others stay in order, and the count is right. */
  method ScanDelete(t: Table, c: Cond, parse: Parser) returns (affected: nat)
    requires t.Valid() && Runnable(c, t.columns, parse) && AllRecordsFit(t.Contents(), t.columns)
    modifies t`blocks
    ensures t.Valid() && t.Contents() == Wanted(Spared(c, t.columns, parse), old(t.Contents()))
    ensures affected == |old(t.Contents())| - |t.Contents()|
    ensures Plain(old(t.Contents()), c, t.columns, parse) ==>
              t.Contents() == Wanted(Unmeant(c, t.columns, parse), old(t.Contents()))
  {
    SparedMeans(t.Contents(), c, t.columns, parse);
    ghost var k, done := Pass(t.Contents(), Spared(c, t.columns, parse)), [];
    ghost var y: nat := 0;
    affected := 0;
    var b := 0;
    FilteredStart(t, k.keep);
    while b < |t.blocks|
      invariant b <= |t.blocks| == |old(t.blocks)| && Filtered(t, k.keep, k.was, y, done)
      invariant LiveBelow(t.blocks, b) == |done| && y - |done| == affected
      decreases |old(t.blocks)| - b
    {
      var hits;
      hits, y, done := DeletePage(t, c, parse, b, k, y, done);
      affected, b := affected + hits, b + 1;
    }
    FilteredAll(t, k.keep, k.was, y, done);
  }
}
