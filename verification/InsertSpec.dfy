/**
 INSERT statements as values: the postfix token queue of the parser, the tree built from it, flattening the tree again,
 and what an arithmetic expression is worth (src/parser/ast_insert.c, src/engine/optimiser_insert.c).
 */
module InsertSpec {
  import opened Ints
  import opened Wrappers

  datatype Op = Add | Sub | Mul | Div | Mod

  datatype Literal = IntLit(n: int) | StrLit(s: string) | RealLit(r: real) | BoolLit(b: bool) | NullLit | NegMark

  /** node_type with what the node keeps. Counts come from the token. */
  datatype Kind =
    | Column(name: string)
    | InsCols(columns: nat)
    | Val(lit: Literal)
    | Oper(op: Op)
    | Values(count: nat)
    | InsVals(columnList: bool, rows: nat, table: string)

  /** A node with its children in list order; an operator's list holds the right operand first. */
  datatype Tree = Tree(kind: Kind, kids: seq<Tree>)

  datatype Token =
    | ColumnTok(name: string)
    | InsColsTok(columns: nat)
    | LitTok(lit: Literal)
    | OpTok(op: Op)
    | NegTok
    | ValuesTok(count: nat)
    | InsValsTok(columnList: bool, rows: nat, table: string)
    | Stmt

  const NegLeaf := Tree(Val(NegMark), [])

  // ---------------------------------------------------------------- building

  /** How many nodes a token takes from the stack. */
  function Arity(tok: Token): nat {
    match tok
    case ColumnTok(_) => 0
    case InsColsTok(n) => n
    case LitTok(_) => 0
    case OpTok(_) => 2
    case NegTok => 1
    case ValuesTok(n) => n
    case InsValsTok(cols, n, _) => n + if cols then 1 else 0
    case Stmt => 0
  }

  /** The parser never queues the builder's own negation mark. */
  predicate Queued(tok: Token) {
    tok != LitTok(NegMark)
  }

  function KindOf(tok: Token): Kind
    requires tok != Stmt
  {
    match tok
    case ColumnTok(c) => Column(c)
    case InsColsTok(n) => InsCols(n)
    case LitTok(l) => Val(l)
    case OpTok(op) => Oper(op)
    case NegTok => Oper(Mul)
    case ValuesTok(n) => Values(n)
    case InsValsTok(cols, n, t) => InsVals(cols, n, t)
  }

  /** The children of a new node, in list order, from its operands in source order. */
  function KidsOf(tok: Token, args: seq<Tree>): seq<Tree>
    requires |args| == Arity(tok)
  {
    match tok
    case OpTok(_) => [args[1], args[0]]
    case NegTok => [NegLeaf, args[0]]
    case _ => args
  }

  function Make(tok: Token, args: seq<Tree>): Tree
    requires tok != Stmt && |args| == Arity(tok)
  {
    Tree(KindOf(tok), KidsOf(tok, args))
  }

  /** One turn of the builder's loop; None where a pop finds the stack empty. */
  function Step(st: seq<Tree>, tok: Token): Option<seq<Tree>>
    requires tok != Stmt
  {
    var k := Arity(tok);
    if |st| < k then None else Some(st[..|st| - k] + [Make(tok, st[|st| - k..])])
  }

  predicate NoStmt(toks: seq<Token>) {
    forall i :: 0 <= i < |toks| ==> toks[i] != Stmt && Queued(toks[i])
  }

  function Run(toks: seq<Token>, st: seq<Tree>): Option<seq<Tree>>
    requires NoStmt(toks)
  {
    if toks == [] then Some(st) else
      match Step(st, toks[0])
      case None => None
      case Some(st') => Run(toks[1..], st')
  }

  // ---------------------------------------------------------------- how high the stack is

  /** The height of the stack after these tokens, when no pop finds it empty. */
  function Rise(toks: seq<Token>, h: nat): Option<nat> {
    if toks == [] then Some(h) else
      if h < Arity(toks[0]) then None else Rise(toks[1..], h - Arity(toks[0]) + 1)
  }

  /** Only the counts decide whether the builder gets through and how many nodes it ends with. */
  lemma {:induction false} RunRises(toks: seq<Token>, st: seq<Tree>)
    requires NoStmt(toks)
    ensures Run(toks, st).None? <==> Rise(toks, |st|).None?
    ensures Run(toks, st).Some? ==> Rise(toks, |st|) == Some(|Run(toks, st).value|)
  {
    if toks != [] && Step(st, toks[0]).Some? {
      RunRises(toks[1..], Step(st, toks[0]).value);
    }
  }

  lemma {:induction false} RunConcat(a: seq<Token>, b: seq<Token>, st: seq<Tree>)
    requires NoStmt(a) && NoStmt(b)
    ensures NoStmt(a + b)
    ensures Run(a + b, st) == if Run(a, st).None? then None else Run(b, Run(a, st).value)
  {
    if a == [] {
      assert a + b == b;
    } else {
      assert (a + b)[1..] == a[1..] + b;
      if Step(st, a[0]).Some? {
        RunConcat(a[1..], b, Step(st, a[0]).value);
      }
    }
  }

  // ---------------------------------------------------------------- flattening

  predicate IsNeg(t: Tree) {
    t.kind == Oper(Mul) && |t.kids| == 2 && t.kids[0] == NegLeaf
  }

  /** The trees that token queues stand for: as many children as the kind says, and the mark only where NEG puts it. */
  predicate Built(t: Tree) {
    match t.kind
    case Column(_) => t.kids == []
    case Val(l) => t.kids == [] && l != NegMark
    case Oper(_) => |t.kids| == 2 && (IsNeg(t) || Built(t.kids[0])) && Built(t.kids[1])
    case InsCols(n) => |t.kids| == n && forall i :: 0 <= i < n ==> Built(t.kids[i])
    case Values(n) => |t.kids| == n && forall i :: 0 <= i < n ==> Built(t.kids[i])
    case InsVals(cols, n, _) =>
      |t.kids| == n + (if cols then 1 else 0) && forall i :: 0 <= i < |t.kids| ==> Built(t.kids[i])
  }

  predicate AllBuilt(ts: seq<Tree>) {
    forall i :: 0 <= i < |ts| ==> Built(ts[i])
  }

  function TokenOf(t: Tree): Token {
    match t.kind
    case Column(c) => ColumnTok(c)
    case InsCols(n) => InsColsTok(n)
    case Val(l) => LitTok(l)
    case Oper(op) => if IsNeg(t) then NegTok else OpTok(op)
    case Values(n) => ValuesTok(n)
    case InsVals(cols, n, table) => InsValsTok(cols, n, table)
  }

  /** The operands of a node in source order. */
  function ArgsOf(t: Tree): seq<Tree>
    requires Built(t)
  {
    if IsNeg(t) then [t.kids[1]] else if t.kind.Oper? then [t.kids[1], t.kids[0]] else t.kids
  }

  /** Source order: the operands one after the other, then the node itself. */
  ghost function Flatten(t: Tree): seq<Token>
    requires Built(t)
    decreases t, |t.kids| + 1
  {
    (if IsNeg(t) then Flatten(t.kids[1])
     else if t.kind.Oper? then Flatten(t.kids[1]) + Flatten(t.kids[0])
     else FlattenKids(t, |t.kids|))
    + [TokenOf(t)]
  }

  ghost function FlattenKids(t: Tree, n: nat): seq<Token>
    requires AllBuilt(t.kids) && n <= |t.kids|
    decreases t, n
  {
    if n == 0 then [] else FlattenKids(t, n - 1) + Flatten(t.kids[n - 1])
  }

  ghost function FlattenAll(ts: seq<Tree>): seq<Token>
    requires AllBuilt(ts)
  {
    if ts == [] then [] else FlattenAll(ts[..|ts| - 1]) + Flatten(ts[|ts| - 1])
  }

  lemma {:induction false} KidsAll(t: Tree, n: nat)
    requires AllBuilt(t.kids) && n <= |t.kids|
    ensures AllBuilt(t.kids[..n]) && FlattenKids(t, n) == FlattenAll(t.kids[..n])
  {
    if n > 0 {
      KidsAll(t, n - 1);
      assert t.kids[..n][..n - 1] == t.kids[..n - 1];
    }
  }

  lemma {:induction false} FlattenTwo(a: Tree, b: Tree)
    requires Built(a) && Built(b)
    ensures FlattenAll([a, b]) == Flatten(a) + Flatten(b) && FlattenAll([a]) == Flatten(a)
  {
    var s := [a, b];
    assert s[..1] == [a] && [a][..0] == [];
    assert FlattenAll(s) == FlattenAll(s[..1]) + Flatten(s[1]);
  }

  /** A node flattens to its operands and its token. */
  lemma {:induction false} FlattenParts(t: Tree)
    requires Built(t)
    ensures AllBuilt(ArgsOf(t)) && Flatten(t) == FlattenAll(ArgsOf(t)) + [TokenOf(t)]
  {
    if IsNeg(t) {
      FlattenTwo(t.kids[1], t.kids[1]);
    } else if t.kind.Oper? {
      FlattenTwo(t.kids[1], t.kids[0]);
    } else {
      KidsAll(t, |t.kids|);
      assert t.kids[..|t.kids|] == t.kids;
    }
  }

  lemma {:induction false} Regroup(a: seq<Token>, b: seq<Token>, c: seq<Token>)
    ensures a + (b + c) == a + b + c
  {}

  lemma {:induction false} FlattenAllConcat(a: seq<Tree>, b: seq<Tree>)
    requires AllBuilt(a) && AllBuilt(b)
    ensures AllBuilt(a + b) && FlattenAll(a + b) == FlattenAll(a) + FlattenAll(b)
  {
    if b == [] {
      assert a + b == a;
    } else {
      var n := |b| - 1;
      assert (a + b)[..|a + b| - 1] == a + b[..n];
      FlattenAllConcat(a, b[..n]);
      Regroup(FlattenAll(a), FlattenAll(b[..n]), Flatten(b[n]));
    }
  }

  /** Taking a node apart and making it again, and the other way round. */
  lemma {:induction false} MakeAgain(t: Tree)
    requires Built(t)
    ensures TokenOf(t) != Stmt && Queued(TokenOf(t)) && |ArgsOf(t)| == Arity(TokenOf(t))
    ensures Make(TokenOf(t), ArgsOf(t)) == t
  {}

  lemma {:induction false} TakeApart(tok: Token, args: seq<Tree>)
    requires tok != Stmt && Queued(tok) && |args| == Arity(tok) && AllBuilt(args)
    ensures Built(Make(tok, args)) && TokenOf(Make(tok, args)) == tok && ArgsOf(Make(tok, args)) == args
  {}

  // ---------------------------------------------------------------- the round trip

  lemma {:induction false} RunLast(toks: seq<Token>, st: seq<Tree>, tok: Token)
    requires NoStmt(toks) && tok != Stmt && Queued(tok) && Run(toks, st).Some?
    ensures NoStmt(toks + [tok]) && Run(toks + [tok], st) == Step(Run(toks, st).value, tok)
  {
    RunConcat(toks, [tok], st);
    assert [tok][1..] == [];
  }

  lemma {:induction false} BuildArgs(t: Tree, n: nat, st: seq<Tree>)
    requires Built(t) && n <= |ArgsOf(t)|
    ensures AllBuilt(ArgsOf(t)[..n]) && NoStmt(FlattenAll(ArgsOf(t)[..n]))
    ensures Run(FlattenAll(ArgsOf(t)[..n]), st) == Some(st + ArgsOf(t)[..n])
    decreases t, n
  {
    if n == 0 {
      assert st + ArgsOf(t)[..0] == st;
    } else {
      var args, x := ArgsOf(t)[..n - 1], ArgsOf(t)[n - 1];
      assert ArgsOf(t)[..n] == args + [x];
      BuildArgs(t, n - 1, st);
      BuildFlatten(x, st + args);
      BuildOneMore(args, x, st);
    }
  }

  lemma {:induction false} BuildOneMore(args: seq<Tree>, x: Tree, st: seq<Tree>)
    requires AllBuilt(args) && Built(x) && NoStmt(FlattenAll(args)) && NoStmt(Flatten(x))
    requires Run(FlattenAll(args), st) == Some(st + args) && Run(Flatten(x), st + args) == Some(st + args + [x])
    ensures AllBuilt(args + [x]) && NoStmt(FlattenAll(args + [x]))
    ensures Run(FlattenAll(args + [x]), st) == Some(st + (args + [x]))
  {
    assert (args + [x])[..|args|] == args;
    RunConcat(FlattenAll(args), Flatten(x), st);
    assert st + args + [x] == st + (args + [x]);
  }

  /** Building the tokens of a tree puts that tree on the stack. */
  lemma {:induction false} BuildFlatten(t: Tree, st: seq<Tree>)
    requires Built(t)
    ensures NoStmt(Flatten(t)) && Run(Flatten(t), st) == Some(st + [t])
    decreases t, |ArgsOf(t)| + 1
  {
    var args := ArgsOf(t);
    assert args[..|args|] == args;
    BuildArgs(t, |args|, st);
    FlattenParts(t);
    MakeAgain(t);
    RunLast(FlattenAll(args), st, TokenOf(t));
    assert (st + args)[..|st + args| - |args|] == st && (st + args)[|st + args| - |args|..] == args;
  }

  lemma {:induction false} StepFlattens(st: seq<Tree>, tok: Token)
    requires tok != Stmt && Queued(tok) && AllBuilt(st) && Step(st, tok).Some?
    ensures AllBuilt(Step(st, tok).value) && FlattenAll(Step(st, tok).value) == FlattenAll(st) + [tok]
  {
    var k := Arity(tok);
    var rest, args := st[..|st| - k], st[|st| - k..];
    assert st == rest + args;
    TakeApart(tok, args);
    FlattenParts(Make(tok, args));
    FlattenAllConcat(rest, args);
    FlattenAllConcat(rest, [Make(tok, args)]);
    FlattenTwo(Make(tok, args), Make(tok, args));
    Regroup(FlattenAll(rest), FlattenAll(args), [tok]);
  }

  /** Whatever the builder has on its stack flattens to the tokens it has read. */
  lemma {:induction false} FlattenBuild(toks: seq<Token>, st: seq<Tree>)
    requires NoStmt(toks) && AllBuilt(st) && Run(toks, st).Some?
    ensures AllBuilt(Run(toks, st).value) && FlattenAll(Run(toks, st).value) == FlattenAll(st) + toks
  {
    if toks != [] {
      StepFlattens(st, toks[0]);
      FlattenBuild(toks[1..], Step(st, toks[0]).value);
      assert [toks[0]] + toks[1..] == toks;
      Regroup(FlattenAll(st), [toks[0]], toks[1..]);
    }
  }

  /** A queue whose counts come out at one node is the flattening of exactly one tree, the one that is built. */
  lemma {:induction false} OneTree(toks: seq<Token>)
    requires NoStmt(toks) && Rise(toks, 0) == Some(1)
    ensures Run(toks, []).Some? && |Run(toks, []).value| == 1
    ensures var t := Run(toks, []).value[0]; Built(t) && Flatten(t) == toks
    ensures forall t :: Built(t) && Flatten(t) == toks ==> Run(toks, []).value == [t]
  {
    RunRises(toks, []);
    FlattenBuild(toks, []);
    var st := Run(toks, []).value;
    assert st == [st[0]];
    FlattenTwo(st[0], st[0]);
    forall t | Built(t) && Flatten(t) == toks ensures st == [t] {
      BuildFlatten(t, []);
    }
  }

  // ---------------------------------------------------------------- the whole queue

  datatype Outcome = Root(tree: Tree) | NoRoot | Abort

  function StmtAt(toks: seq<Token>): (n: nat)
    ensures n <= |toks| && (n < |toks| ==> toks[n] == Stmt)
    ensures forall i :: 0 <= i < n ==> toks[i] != Stmt
  {
    if toks == [] || toks[0] == Stmt then 0 else StmtAt(toks[1..]) + 1
  }

  /** ast_insert_build_tree on a whole queue. Popping an empty stack aborts, and so does a stack that is not empty at the end. */
  function BuildResult(toks: seq<Token>): Outcome
    requires forall i :: 0 <= i < |toks| ==> Queued(toks[i])
  {
    var n := StmtAt(toks);
    match Run(toks[..n], [])
    case None => Abort
    case Some(st) =>
      if n == |toks| then (if st == [] then NoRoot else Abort)
      else if |st| == 1 then Root(st[0]) else Abort
  }

  /** The builder delivers a tree exactly when the counts before STMT come out at one node, and it is the tree of those tokens. */
  lemma {:induction false} RootExactly(toks: seq<Token>)
    requires forall i :: 0 <= i < |toks| ==> Queued(toks[i])
    ensures var n := StmtAt(toks);
            BuildResult(toks).Root? <==> n < |toks| && Rise(toks[..n], 0) == Some(1)
    ensures BuildResult(toks).Root? ==>
              Built(BuildResult(toks).tree) && Flatten(BuildResult(toks).tree) == toks[..StmtAt(toks)]
  {
    var front := toks[..StmtAt(toks)];
    RunRises(front, []);
    if Rise(front, 0) == Some(1) {
      OneTree(front);
    }
  }

  // ---------------------------------------------------------------- arithmetic

  /** A value while an expression is worked out. */
  datatype Num = Int(n: int) | Null

  /** What an expression comes to; Trap where the program aborts or divides by zero in a remainder. */
  datatype Worth = Done(num: Num) | Trap

  /** Division and remainder truncate toward zero. */
  function Quot(a: int, b: int): int
    requires b != 0
  {
    if a >= 0 then a / b else -((-a) / b)
  }

  function Rem(a: int, b: int): int
    requires b != 0
  {
    a - Quot(a, b) * b
  }

  lemma {:induction false} Truncates(a: int, b: int)
    requires b != 0
    ensures a == Quot(a, b) * b + Rem(a, b)
    ensures (if b > 0 then b else -b) > (if Rem(a, b) > 0 then Rem(a, b) else -Rem(a, b))
    ensures a >= 0 ==> Rem(a, b) >= 0
    ensures a <= 0 ==> Rem(a, b) <= 0
  {
    var x := if a >= 0 then a else -a;
    assert x == x / b * b + x % b;
  }

  /** calci: the result of an operator, before it is stored. */
  function Exact(op: Op, l: int, r: int): int
    requires (op == Div || op == Mod) ==> r != 0
  {
    match op
    case Add => l + r
    case Sub => l - r
    case Mul => l * r
    case Div => Quot(l, r)
    case Mod => Rem(l, r)
  }

  /** calci on integers or NULL. A NULL right operand aborts; a NULL left one makes NULL, as dividing by zero does. */
  function Calc(op: Op, l: Num, r: Num): Worth {
    if r == Null then Trap
    else if l == Null then Done(Null)
    else if op == Div && r.n == 0 then Done(Null)
    else if op == Mod && r.n == 0 then Trap
    else Done(Int(Wrap32(Exact(op, l.n, r.n))))
  }

  function Negate(v: Num): Worth {
    if v == Null then Trap else Done(Int(-v.n))
  }

  // ---------------------------------------------------------------- what the operators mean

  /** Sum, difference, product, truncated quotient and remainder of unbounded integers, the last two where there are any. */
  function OnIntegers(op: Op, a: int, b: int): Worth {
    match op
    case Add => Done(Int(a + b))
    case Sub => Done(Int(a - b))
    case Mul => Done(Int(a * b))
    case Div => if b == 0 then Done(Null) else Done(Int(Quot(a, b)))
    case Mod => if b == 0 then Trap else Done(Int(Rem(a, b)))
  }

  /** NULL on the left gives NULL; NULL on the right cannot be worked with. */
  function WorkOut(op: Op, l: Num, r: Num): Worth {
    match r
    case Null => Trap
    case Int(b) => match l case Null => Done(Null) case Int(a) => OnIntegers(op, a, b)
  }

  function Opposite(v: Num): Worth {
    match v case Null => Trap case Int(n) => Done(Int(0 - n))
  }

  /** calci gives what the operator means, NULLs and division by zero included, if and only if the result fits 32 bits. */
  lemma {:induction false} CalcExactly(op: Op, l: Num, r: Num)
    ensures Calc(op, l, r) == WorkOut(op, l, r)
            <==> (WorkOut(op, l, r).Done? && WorkOut(op, l, r).num.Int? ==> Fits32(WorkOut(op, l, r).num.n))
  {}

  /** The tokens of an arithmetic expression over integer literals, which is all the checker lets through for INTEGER. */
  predicate Arith(tok: Token) {
    tok.OpTok? || tok.NegTok? || (tok.LitTok? && tok.lit.IntLit? && Fits32(tok.lit.n))
  }

  predicate AllArith(toks: seq<Token>) {
    forall i :: 0 <= i < |toks| ==> Arith(toks[i])
  }

  /** Working the queue on a stack of values, operands in source order: as the folder does, or on unbounded integers. */
  function Eval(toks: seq<Token>, vs: seq<Num>, wrap: bool): Option<seq<Num>>
    requires AllArith(toks)
  {
    if toks == [] then Some(vs) else
      match EvalStep(toks[0], vs, wrap)
      case None => None
      case Some(vs') => Eval(toks[1..], vs', wrap)
  }

  function EvalStep(tok: Token, vs: seq<Num>, wrap: bool): Option<seq<Num>>
    requires Arith(tok)
  {
    var n := |vs|;
    if n < Arity(tok) then None else
      match tok
      case OpTok(op) =>
        Push(vs[..n - 2], if wrap then Calc(op, vs[n - 2], vs[n - 1]) else WorkOut(op, vs[n - 2], vs[n - 1]))
      case NegTok => Push(vs[..n - 1], if wrap then Negate(vs[n - 1]) else Opposite(vs[n - 1]))
      case LitTok(l) => Some(vs + [Int(l.n)])
  }

  function Push(vs: seq<Num>, w: Worth): Option<seq<Num>> {
    match w case Trap => None case Done(v) => Some(vs + [v])
  }

  // ---------------------------------------------------------------- folding

  /** An expression tree over integer literals. */
  predicate ArithTree(t: Tree) {
    match t.kind
    case Val(l) => t.kids == [] && l.IntLit? && Fits32(l.n)
    case Oper(_) => |t.kids| == 2 && (IsNeg(t) || ArithTree(t.kids[0])) && ArithTree(t.kids[1])
    case _ => false
  }

  /** resolve_math_expr: the first child is the right operand, or the mark that the second is to be negated. */
  function Fold(t: Tree): Worth
    requires ArithTree(t)
  {
    if t.kind.Val? then Done(Int(t.kind.lit.n))
    else if IsNeg(t) then FoldNeg(Fold(t.kids[1]))
    else FoldOp(t.kind.op, Fold(t.kids[0]), Fold(t.kids[1]))
  }

  function FoldNeg(x: Worth): Worth {
    match x case Trap => Trap case Done(v) => Negate(v)
  }

  function FoldOp(op: Op, first: Worth, second: Worth): Worth {
    if first.Trap? || second.Trap? then Trap else Calc(op, second.num, first.num)
  }

  lemma {:induction false} ArithBuilt(t: Tree)
    requires ArithTree(t)
    ensures Built(t)
  {
    if t.kind.Oper? {
      ArithBuilt(t.kids[1]);
      if !IsNeg(t) {
        ArithBuilt(t.kids[0]);
      }
    }
  }

  lemma {:induction false} EvalConcat(a: seq<Token>, b: seq<Token>, vs: seq<Num>, wrap: bool)
    requires AllArith(a) && AllArith(b)
    ensures AllArith(a + b)
    ensures Eval(a + b, vs, wrap) == if Eval(a, vs, wrap).None? then None else Eval(b, Eval(a, vs, wrap).value, wrap)
  {
    if a == [] {
      assert a + b == b;
    } else {
      assert (a + b)[1..] == a[1..] + b;
      if EvalStep(a[0], vs, wrap).Some? {
        EvalConcat(a[1..], b, EvalStep(a[0], vs, wrap).value, wrap);
      }
    }
  }

  lemma {:induction false} EvalOne(tok: Token, vs: seq<Num>, wrap: bool)
    requires Arith(tok)
    ensures Eval([tok], vs, wrap) == EvalStep(tok, vs, wrap)
  {
    assert [tok][1..] == [];
  }

  lemma {:induction false} EvalNeg(t: Tree, vs: seq<Num>)
    requires ArithTree(t) && IsNeg(t) && Built(t) && AllArith(Flatten(t.kids[1]))
    requires Eval(Flatten(t.kids[1]), vs, true) == Push(vs, Fold(t.kids[1]))
    ensures AllArith(Flatten(t)) && Eval(Flatten(t), vs, true) == Push(vs, Fold(t))
  {
    EvalConcat(Flatten(t.kids[1]), [NegTok], vs, true);
    if Fold(t.kids[1]).Done? {
      EvalOne(NegTok, vs + [Fold(t.kids[1]).num], true);
    }
  }

  lemma {:induction false} EvalOp(t: Tree, vs: seq<Num>)
    requires ArithTree(t) && t.kind.Oper? && !IsNeg(t) && Built(t)
    requires AllArith(Flatten(t.kids[0])) && AllArith(Flatten(t.kids[1]))
    requires Eval(Flatten(t.kids[1]), vs, true) == Push(vs, Fold(t.kids[1]))
    requires Fold(t.kids[1]).Done? ==>
               Eval(Flatten(t.kids[0]), vs + [Fold(t.kids[1]).num], true)
               == Push(vs + [Fold(t.kids[1]).num], Fold(t.kids[0]))
    ensures AllArith(Flatten(t)) && Eval(Flatten(t), vs, true) == Push(vs, Fold(t))
  {
    var l, r, tok := Flatten(t.kids[1]), Flatten(t.kids[0]), OpTok(t.kind.op);
    EvalConcat(l + r, [tok], vs, true);
    EvalConcat(l, r, vs, true);
    if Fold(t.kids[1]).Done? && Fold(t.kids[0]).Done? {
      var vs' := vs + [Fold(t.kids[1]).num] + [Fold(t.kids[0]).num];
      EvalOne(tok, vs', true);
      assert vs'[..|vs'| - 2] == vs;
    }
  }

  /** Folding the tree gives what working its tokens gives, traps included. */
  lemma {:induction false} FoldIsEval(t: Tree, vs: seq<Num>)
    requires ArithTree(t)
    ensures Built(t) && AllArith(Flatten(t)) && Eval(Flatten(t), vs, true) == Push(vs, Fold(t))
  {
    ArithBuilt(t);
    if t.kind.Val? {
      EvalOne(LitTok(t.kind.lit), vs, true);
    } else if IsNeg(t) {
      FoldIsEval(t.kids[1], vs);
      EvalNeg(t, vs);
    } else {
      FoldIsEval(t.kids[1], vs);
      FoldIsEval(t.kids[0], if Fold(t.kids[1]).Done? then vs + [Fold(t.kids[1]).num] else vs);
      EvalOp(t, vs);
    }
  }

  lemma {:induction false} AllArithSplit(a: seq<Token>, b: seq<Token>)
    requires AllArith(a + b)
    ensures AllArith(a) && AllArith(b)
  {
    forall i | 0 <= i < |a| ensures Arith(a[i]) {
      assert (a + b)[i] == a[i];
    }
    forall i | 0 <= i < |b| ensures Arith(b[i]) {
      assert (a + b)[|a| + i] == b[i];
    }
  }

  /** Only arithmetic trees flatten to arithmetic tokens. */
  lemma {:induction false} TreeOfArith(t: Tree)
    requires Built(t) && AllArith(Flatten(t))
    ensures ArithTree(t)
  {
    var n := |Flatten(t)| - 1;
    assert Flatten(t)[n] == TokenOf(t) && Arith(TokenOf(t));
    if IsNeg(t) {
      AllArithSplit(Flatten(t.kids[1]), [NegTok]);
      TreeOfArith(t.kids[1]);
    } else if t.kind.Oper? {
      AllArithSplit(Flatten(t.kids[1]) + Flatten(t.kids[0]), [TokenOf(t)]);
      AllArithSplit(Flatten(t.kids[1]), Flatten(t.kids[0]));
      TreeOfArith(t.kids[1]);
      TreeOfArith(t.kids[0]);
    }
  }

  /** Building an arithmetic queue and folding the tree is working the queue. */
  lemma {:induction false} BuildThenFold(toks: seq<Token>)
    requires NoStmt(toks) && AllArith(toks) && Rise(toks, 0) == Some(1)
    ensures Run(toks, []).Some? && |Run(toks, []).value| == 1
    ensures var t := Run(toks, []).value[0]; ArithTree(t) && Eval(toks, [], true) == Push([], Fold(t))
  {
    OneTree(toks);
    var t := Run(toks, []).value[0];
    TreeOfArith(t);
    FoldIsEval(t, []);
  }

  // ---------------------------------------------------------------- how far 32 bits carry

  /** Worked on unbounded integers, every operator's result fits an int. */
  predicate FitsAlong(toks: seq<Token>, vs: seq<Num>)
    requires AllArith(toks)
  {
    toks == [] || EvalStep(toks[0], vs, false).None?
    || (StepFits(toks[0], EvalStep(toks[0], vs, false).value) && FitsAlong(toks[1..], EvalStep(toks[0], vs, false).value))
  }

  predicate StepFits(tok: Token, vs: seq<Num>) {
    tok.OpTok? && vs != [] && vs[|vs| - 1].Int? ==> Fits32(vs[|vs| - 1].n)
  }

  /** While results fit, storing them in an int changes nothing. */
  lemma {:induction false} WrapsAway(toks: seq<Token>, vs: seq<Num>)
    requires AllArith(toks) && FitsAlong(toks, vs)
    ensures Eval(toks, vs, true) == Eval(toks, vs, false)
  {
    if toks != [] {
      var exact := EvalStep(toks[0], vs, false);
      if exact.Some? {
        if toks[0].OpTok? {
          CalcExactly(toks[0].op, vs[|vs| - 2], vs[|vs| - 1]);
        }
        assert EvalStep(toks[0], vs, true) == exact;
        WrapsAway(toks[1..], exact.value);
      }
    }
  }

  /** The folded value is the mathematical one as long as no intermediate result leaves 32 bits. */
  lemma {:induction false} FoldIsExact(toks: seq<Token>)
    requires NoStmt(toks) && AllArith(toks) && Rise(toks, 0) == Some(1) && FitsAlong(toks, [])
    ensures Run(toks, []).Some? && |Run(toks, []).value| == 1
    ensures var t := Run(toks, []).value[0]; ArithTree(t) && Eval(toks, [], false) == Push([], Fold(t))
  {
    BuildThenFold(toks);
    WrapsAway(toks, []);
  }

  /** Operands stay within 32 bits and one, so that no 64-bit operation of the folder overflows. */
  lemma {:induction false} OperandRange(t: Tree)
    requires ArithTree(t)
    ensures Fold(t).Done? && Fold(t).num.Int? ==> -TWO31 <= Fold(t).num.n <= TWO31
    ensures Fold(t).Done? && Fold(t).num.Int? && t.kind.Oper? && !IsNeg(t) ==> Fits32(Fold(t).num.n)
  {
    if IsNeg(t) {
      OperandRange(t.kids[1]);
    }
  }

  lemma {:induction false} NoOverflow64(op: Op, l: int, r: int)
    requires -TWO31 <= l <= TWO31 && -TWO31 <= r <= TWO31 && ((op == Div || op == Mod) ==> r != 0)
    ensures -0x4000_0000_0000_0000 <= Exact(op, l, r) <= 0x4000_0000_0000_0000
  {
    match op
    case Mul => ProductRange(TWO31, l, r);
    case Div => QuotRange(l, r);
    case Mod => Truncates(l, r);
    case _ =>
  }

  lemma {:induction false} ProductRange(m: int, l: int, r: int)
    requires -m <= l <= m && -m <= r <= m
    ensures -(m * m) <= l * r <= m * m
  {
    NotNegative(m - l, m + r);
    NotNegative(m + l, m - r);
    NotNegative(m - l, m - r);
    NotNegative(m + l, m + r);
    assert (m - l) * (m + r) + (m + l) * (m - r) == 2 * (m * m) - 2 * (l * r);
    assert (m - l) * (m - r) + (m + l) * (m + r) == 2 * (m * m) + 2 * (l * r);
  }

  lemma {:induction false} NotNegative(a: int, b: int)
    requires a >= 0 && b >= 0
    ensures a * b >= 0
  {}

  lemma {:induction false} QuotRange(l: int, r: int)
    requires -TWO31 <= l <= TWO31 && r != 0
    ensures -TWO31 <= Quot(l, r) <= TWO31
  {
    var x := if l >= 0 then l else -l;
    var q := x / r;
    assert x == q * r + x % r;
    if q > x {
      if r > 0 { assert (q - x) * r > 0 || x == 0; }
    }
  }

  // ---------------------------------------------------------------- expressions without division

  predicate RingTree(t: Tree)
    requires ArithTree(t)
  {
    t.kind.Val? || (t.kind.op != Div && t.kind.op != Mod && (IsNeg(t) || RingTree(t.kids[0])) && RingTree(t.kids[1]))
  }

  /** What the expression is worth on unbounded integers. */
  function Value(t: Tree): int
    requires ArithTree(t) && RingTree(t)
  {
    if t.kind.Val? then t.kind.lit.n
    else if IsNeg(t) then -Value(t.kids[1])
    else
      var l, r := Value(t.kids[1]), Value(t.kids[0]);
      match t.kind.op case Add => l + r case Sub => l - r case _ => l * r
  }

  predicate Congruent(a: int, b: int) {
    (a - b) % TWO32 == 0
  }

  lemma {:induction false} CongruentBy(a: int, b: int, k: int)
    requires a - b == TWO32 * k
    ensures Congruent(a, b)
  {}

  lemma {:induction false} Apart(a: int, b: int) returns (k: int)
    requires Congruent(a, b)
    ensures a - b == TWO32 * k
  {
    k := (a - b) / TWO32;
  }

  lemma {:induction false} Product(m: int, b: int, k: int, d: int, j: int)
    ensures (b + m * k) * (d + m * j) - b * d == m * (b * j + k * d + m * (k * j))
  {
    assert (b + m * k) * (d + m * j) == b * d + b * (m * j) + (m * k) * d + (m * k) * (m * j);
    assert b * (m * j) == m * (b * j) && (m * k) * d == m * (k * d);
    assert (m * k) * (m * j) == m * (m * (k * j));
  }

  lemma {:induction false} ExactCongruent(op: Op, l: int, l': int, r: int, r': int)
    requires op != Div && op != Mod && Congruent(l, l') && Congruent(r, r')
    ensures Congruent(Exact(op, l, r), Exact(op, l', r'))
  {
    var j := Apart(l, l');
    var k := Apart(r, r');
    match op
    case Add => CongruentBy(l + r, l' + r', j + k);
    case Sub => CongruentBy(l - r, l' - r', j - k);
    case Mul =>
      Product(TWO32, l', j, r', k);
      CongruentBy(l * r, l' * r', l' * k + j * r' + TWO32 * (j * k));
  }

  lemma {:induction false} CongruentTrans(a: int, b: int, c: int)
    requires Congruent(a, b) && Congruent(b, c)
    ensures Congruent(a, c)
  {
    var j := Apart(a, b);
    var k := Apart(b, c);
    CongruentBy(a, c, j + k);
  }

  /** Without division the folded value is right modulo 2^32, whatever overflowed on the way. */
  lemma {:induction false} RingFold(t: Tree)
    requires ArithTree(t) && RingTree(t)
    ensures Fold(t).Done? && Fold(t).num.Int? && Congruent(Fold(t).num.n, Value(t))
  {
    if IsNeg(t) {
      RingFold(t.kids[1]);
      var k := Apart(Fold(t.kids[1]).num.n, Value(t.kids[1]));
      CongruentBy(Fold(t).num.n, Value(t), -k);
    } else if t.kind.Oper? {
      RingFold(t.kids[1]);
      RingFold(t.kids[0]);
      var l, r := Fold(t.kids[1]).num.n, Fold(t.kids[0]).num.n;
      ExactCongruent(t.kind.op, l, Value(t.kids[1]), r, Value(t.kids[0]));
      CongruentTrans(Fold(t).num.n, Exact(t.kind.op, l, r), Value(t));
    }
  }

  lemma {:induction false} Closest(a: int, b: int)
    requires Fits32(a) && Fits32(b) && Congruent(a, b)
    ensures a == b
  {
    var k := Apart(a, b);
  }

  ghost function Calculated(op: Op, l: int, r: int): (n: int)
    requires op != Div && op != Mod
    ensures Fits32(n) && Calc(op, Int(l), Int(r)) == Done(Int(n)) && Congruent(n, Exact(op, l, r))
  {
    Wrap32(Exact(op, l, r))
  }

  /**
   What makes +, - and * what they are holds of calci through every overflow: + is commutative and counts up from 0, - undoes
   it, and * repeats it.
   */
  lemma {:induction false} CalcLaws(a: int, b: int)
    requires Fits32(a) && Fits32(b)
    ensures Calculated(Add, a, b) == Calculated(Add, b, a) && Calculated(Add, a, 0) == a
    ensures a + 1 < TWO31 ==> Calculated(Add, a, 1) == a + 1
    ensures Calculated(Sub, Calculated(Add, a, b), b) == a
    ensures Calculated(Mul, a, 0) == 0
    ensures Calculated(Mul, a, Calculated(Add, b, 1)) == Calculated(Add, Calculated(Mul, a, b), a)
  {
    var sum := Calculated(Add, a, b);
    var k := Apart(sum, a + b);
    CongruentBy(sum - b, a, k);
    CongruentTrans(Calculated(Sub, sum, b), sum - b, a);
    Closest(Calculated(Sub, sum, b), a);
    Repeats(a, b, Calculated(Add, b, 1), Calculated(Mul, a, b));
  }

  lemma {:induction false} Repeats(a: int, b: int, next: int, product: int)
    requires Congruent(next, b + 1) && Congruent(product, a * b)
    ensures Calculated(Mul, a, next) == Calculated(Add, product, a)
  {
    var l, r := Calculated(Mul, a, next), Calculated(Add, product, a);
    CongruentBy(a, a, 0);
    ExactCongruent(Mul, a, a, next, b + 1);
    CongruentTrans(l, a * next, a * (b + 1));
    ExactCongruent(Add, product, a * b, a, a);
    CongruentTrans(r, product + a, a * b + a);
    MeetIn(l, a * (b + 1), r, a * b + a);
    Closest(l, r);
  }

  lemma {:induction false} MeetIn(l: int, x: int, r: int, y: int)
    requires Congruent(l, x) && Congruent(r, y) && x == y
    ensures Congruent(l, r)
  {
    var i := Apart(l, x);
    var j := Apart(r, y);
    CongruentBy(l, r, i - j);
  }

  /** So an expression of +, - and * folds to its mathematical value exactly when that value fits 32 bits. */
  lemma {:induction false} RingExactly(t: Tree)
    requires ArithTree(t) && RingTree(t) && t.kind.Oper? && !IsNeg(t)
    ensures Fold(t) == Done(Int(Value(t))) <==> Fits32(Value(t))
  {
    RingFold(t);
    OperandRange(t);
    if Fits32(Value(t)) {
      Closest(Fold(t).num.n, Value(t));
    }
  }

  // ---------------------------------------------------------------- expressions with division

  /** What any expression is worth on unbounded integers, division truncating, NULLs and traps included. */
  function Worked(t: Tree): Worth
    requires ArithTree(t)
  {
    if t.kind.Val? then Done(Int(t.kind.lit.n))
    else if IsNeg(t) then WorkNeg(Worked(t.kids[1]))
    else
      var first, second := Worked(t.kids[0]), Worked(t.kids[1]);
      if first.Trap? || second.Trap? then Trap else WorkOut(t.kind.op, second.num, first.num)
  }

  function WorkNeg(x: Worth): Worth {
    match x case Trap => Trap case Done(v) => Opposite(v)
  }

  /** The values that folding such a tree can come to: an int, as often negated as the tree says. */
  predicate InRange(t: Tree, n: int)
    requires ArithTree(t)
  {
    if IsNeg(t) then InRange(t.kids[1], -n) else Fits32(n)
  }

  predicate WorthInRange(t: Tree, w: Worth)
    requires ArithTree(t)
  {
    w.Done? && w.num.Int? ==> InRange(t, w.num.n)
  }

  /** Both operands of every division and remainder are in range; other results may be as large as they like. */
  predicate DivisionsFit(t: Tree)
    requires ArithTree(t)
  {
    t.kind.Val?
    || ((IsNeg(t) || DivisionsFit(t.kids[0])) && DivisionsFit(t.kids[1])
        && (!IsNeg(t) && (t.kind.op == Div || t.kind.op == Mod) ==>
              WorthInRange(t.kids[0], Worked(t.kids[0])) && WorthInRange(t.kids[1], Worked(t.kids[1]))))
  }

  /** The same but for multiples of 2^32. */
  predicate Alike(a: Worth, b: Worth) {
    && a.Trap? == b.Trap?
    && (a.Done? ==> a.num.Int? == b.num.Int? && (a.num.Int? ==> Congruent(a.num.n, b.num.n)))
  }

  lemma {:induction false} FoldInRange(t: Tree)
    requires ArithTree(t)
    ensures WorthInRange(t, Fold(t))
  {
    if IsNeg(t) {
      FoldInRange(t.kids[1]);
    }
  }

  lemma {:induction false} RangeClosest(t: Tree, a: int, b: int)
    requires ArithTree(t) && InRange(t, a) && InRange(t, b) && Congruent(a, b)
    ensures a == b
  {
    if IsNeg(t) {
      var k := Apart(a, b);
      CongruentBy(-a, -b, -k);
      RangeClosest(t.kids[1], -a, -b);
    } else {
      Closest(a, b);
    }
  }

  /** An expression in range that is right but for multiples of 2^32 is right. */
  lemma {:induction false} AlikeInRange(t: Tree)
    requires ArithTree(t) && Alike(Fold(t), Worked(t)) && WorthInRange(t, Worked(t))
    ensures Fold(t) == Worked(t)
  {
    FoldInRange(t);
    if Fold(t).Done? && Fold(t).num.Int? {
      RangeClosest(t, Fold(t).num.n, Worked(t).num.n);
    }
  }

  lemma {:induction false} NegAlike(a: Worth, b: Worth)
    requires Alike(a, b)
    ensures Alike(FoldNeg(a), WorkNeg(b))
  {
    if a.Done? && a.num.Int? {
      var k := Apart(a.num.n, b.num.n);
      CongruentBy(-a.num.n, -b.num.n, -k);
    }
  }

  lemma {:induction false} CalcAlike(op: Op, l: Num, l': Num, r: Num, r': Num)
    requires Alike(Done(l), Done(l')) && Alike(Done(r), Done(r'))
    requires op == Div || op == Mod ==> l == l' && r == r'
    ensures Alike(Calc(op, l, r), WorkOut(op, l', r'))
  {
    if l.Int? && r.Int? && !((op == Div || op == Mod) && r.n == 0) {
      var x, y := Exact(op, l.n, r.n), Exact(op, l'.n, r'.n);
      if op == Div || op == Mod {
        CongruentBy(x, y, 0);
      } else {
        ExactCongruent(op, l.n, l'.n, r.n, r'.n);
      }
      CongruentTrans(Wrap32(x), x, y);
    }
  }

  /** While the operands of divisions are in range, folding is right but for multiples of 2^32. */
  lemma {:induction false} FoldAlike(t: Tree)
    requires ArithTree(t) && DivisionsFit(t)
    ensures Alike(Fold(t), Worked(t))
  {
    if IsNeg(t) {
      FoldAlike(t.kids[1]);
      NegAlike(Fold(t.kids[1]), Worked(t.kids[1]));
    } else if t.kind.Oper? {
      FoldAlike(t.kids[0]);
      FoldAlike(t.kids[1]);
      if t.kind.op == Div || t.kind.op == Mod {
        AlikeInRange(t.kids[0]);
        AlikeInRange(t.kids[1]);
      }
      if Fold(t.kids[0]).Done? && Fold(t.kids[1]).Done? {
        CalcAlike(t.kind.op, Fold(t.kids[1]).num, Worked(t.kids[1]).num, Fold(t.kids[0]).num, Worked(t.kids[0]).num);
      }
    }
  }

  /** Then it is right if and only if the value of the whole is in range, whatever overflowed on the way. */
  lemma {:induction false} FoldExactly(t: Tree)
    requires ArithTree(t) && DivisionsFit(t)
    ensures Fold(t) == Worked(t) <==> WorthInRange(t, Worked(t))
  {
    FoldInRange(t);
    FoldAlike(t);
    if WorthInRange(t, Worked(t)) {
      AlikeInRange(t);
    }
  }

  function Leaf(n: int): Tree {
    Tree(Val(IntLit(n)), [])
  }

  /** 1073741824 * 4 / 4 comes to 0: the dividend is out of range. */
  lemma {:induction false} WideDividend()
    ensures var product := Tree(Oper(Mul), [Leaf(4), Leaf(0x4000_0000)]); var t := Tree(Oper(Div), [Leaf(4), product]);
            && ArithTree(t) && !DivisionsFit(t)
            && Fold(t) == Done(Int(0)) && Worked(t) == Done(Int(0x4000_0000))
  {
    var product := Tree(Oper(Mul), [Leaf(4), Leaf(0x4000_0000)]);
    assert Fold(product) == Done(Int(0)) && Worked(product) == Done(Int(TWO32));
  }

  /** Without division there is nothing to ask. */
  lemma {:induction false} RingDivides(t: Tree)
    requires ArithTree(t) && RingTree(t)
    ensures DivisionsFit(t) && Worked(t) == Done(Int(Value(t)))
  {
    if IsNeg(t) {
      RingDivides(t.kids[1]);
    } else if t.kind.Oper? {
      RingDivides(t.kids[0]);
      RingDivides(t.kids[1]);
    }
  }
}
