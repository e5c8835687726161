/** The INSERT tree on the heap: built by a loop over the token queue, folded in place. */
module InsertTree {
  import opened Ints
  import opened Wrappers
  import opened InsertSpec

  /** struct ast_node and its INSERT variants. `children` is the list behind node_children_head. */
  class AstNode {
    var kind: Kind
    var children: seq<AstNode>
    /** This node and everything below it. */
    ghost var repr: set<AstNode>

    constructor (kind: Kind, children: seq<AstNode>, ghost repr: set<AstNode>)
      ensures this.kind == kind && this.children == children && this.repr == repr + {this}
    {
      this.kind, this.children, this.repr := kind, children, repr + {this};
    }
  }

  /** The node stands for this tree, and the trees of its children do not share nodes. */
  ghost predicate Stands(n: AstNode, t: Tree)
    reads n, n.repr
    decreases t
  {
    && n in n.repr && n.kind == t.kind && |n.children| == |t.kids|
    && (forall i :: 0 <= i < |n.children| ==>
          n.children[i] in n.repr && n.children[i].repr <= n.repr - {n} && Stands(n.children[i], t.kids[i]))
    && forall i, j :: 0 <= i < j < |n.children| ==> n.children[i].repr !! n.children[j].repr
  }

  /** A list of nodes that stand for these trees without sharing, all within `u`. */
  ghost predicate StandAll(ns: seq<AstNode>, ts: seq<Tree>, u: set<AstNode>)
    reads u
  {
    && |ns| == |ts|
    && (forall i :: 0 <= i < |ns| ==> ns[i] in u && ns[i].repr <= u && Stands(ns[i], ts[i]))
    && forall i, j :: 0 <= i < j < |ns| ==> ns[i].repr !! ns[j].repr
  }

  ghost function Below(ns: seq<AstNode>): (r: set<AstNode>)
    reads ns
    ensures forall i :: 0 <= i < |ns| ==> ns[i].repr <= r
  {
    set i, x | 0 <= i < |ns| && x in ns[i].repr :: x
  }

  // ---------------------------------------------------------------- building

  /** The loops that pop operands and add each at the front of the new list. */
  method PopList(st: seq<AstNode>, n: nat) returns (kids: seq<AstNode>, rest: seq<AstNode>)
    requires n <= |st|
    ensures rest == st[..|st| - n] && kids == st[|st| - n..]
  {
    kids, rest := [], st;
    var i := 0;
    while i < n
      invariant 0 <= i <= n && rest == st[..|st| - i] && kids == st[|st| - i..]
    {
      var top := |rest| - 1;
      kids, rest := [rest[top]] + kids, rest[..top];
      i := i + 1;
    }
  }

  /** A new node over nodes that stand for the trees of its kids; it owns everything in `u`. */
  method NewNode(kind: Kind, kids: seq<AstNode>, ghost ts: seq<Tree>, ghost u: set<AstNode>) returns (n: AstNode)
    requires StandAll(kids, ts, u)
    ensures fresh(n) && Stands(n, Tree(kind, ts)) && n.repr == u + {n}
  {
    n := new AstNode(kind, kids, u);
  }

  /** The popped operands keep to themselves. */
  lemma {:induction false} SplitStack(st: seq<AstNode>, ts: seq<Tree>, u: set<AstNode>, k: nat)
    requires StandAll(st, ts, u) && k <= |st|
    ensures StandAll(st[..k], ts[..k], u) && StandAll(st[k..], ts[k..], Below(st[k..]))
    ensures Below(st[k..]) <= u && forall i :: 0 <= i < k ==> st[i].repr !! Below(st[k..])
  {
    var v := Below(st[k..]);
    forall i | 0 <= i < k ensures st[i].repr !! v {
      forall x | x in v ensures x !in st[i].repr {
        assert exists j :: 0 <= j < |st[k..]| && x in st[k..][j].repr;
      }
    }
    forall x | x in v ensures x in u {
      assert exists j :: 0 <= j < |st[k..]| && x in st[k..][j].repr;
    }
  }

  /** A node over the popped part of the stack, new nodes apart, can be pushed on what is left. */
  lemma {:induction false} PushNode(st: seq<AstNode>, ts: seq<Tree>, u: set<AstNode>, n: AstNode, t: Tree, v: set<AstNode>)
    requires StandAll(st, ts, u) && Stands(n, t) && n.repr * u <= v
    requires forall i :: 0 <= i < |st| ==> st[i].repr !! v
    ensures StandAll(st + [n], ts + [t], u + n.repr)
  {
    forall i | 0 <= i < |st| ensures st[i].repr !! n.repr {}
  }

  /** The children of an operator: the right operand, then the left one. */
  method LinkOp(args: seq<AstNode>, ghost ts: seq<Tree>, ghost v: set<AstNode>) returns (kids: seq<AstNode>)
    requires |args| == 2 && StandAll(args, ts, v)
    ensures StandAll(kids, [ts[1], ts[0]], v)
  {
    kids := [args[0]];
    kids := [args[1]] + kids;
  }

  /** The children of a negation: the mark, then the operand. */
  method LinkNeg(arg: AstNode, ghost t: Tree, ghost v: set<AstNode>) returns (kids: seq<AstNode>, ghost v': set<AstNode>)
    requires StandAll([arg], [t], v)
    ensures StandAll(kids, [NegLeaf, t], v') && v <= v' && fresh(v' - v)
  {
    assert [arg][0] == arg;
    var neg := NewNode(Val(NegMark), [], [], {});
    kids := [arg];
    kids := [neg] + kids;
    v' := v + {neg};
  }

  /** Kids in list order from operands in source order. */
  method LinkKids(tok: Token, args: seq<AstNode>, ghost ts: seq<Tree>, ghost v: set<AstNode>)
    returns (kids: seq<AstNode>, ghost kts: seq<Tree>, ghost v': set<AstNode>)
    requires tok != Stmt && |args| == Arity(tok) && StandAll(args, ts, v)
    ensures kts == KidsOf(tok, ts) && StandAll(kids, kts, v') && v <= v' && fresh(v' - v)
  {
    kts, v' := KidsOf(tok, ts), v;
    match tok {
      case OpTok(_) => kids := LinkOp(args, ts, v);
      case NegTok =>
        assert args == [args[0]] && ts == [ts[0]];
        kids, v' := LinkNeg(args[0], ts[0], v);
      case _ => kids := args;
    }
  }

  /** The node for a token over its operands. */
  method MakeNode(tok: Token, args: seq<AstNode>, ghost ts: seq<Tree>, ghost v: set<AstNode>) returns (n: AstNode)
    requires tok != Stmt && |args| == Arity(tok) && StandAll(args, ts, v)
    ensures Stands(n, Make(tok, ts)) && v <= n.repr && fresh(n.repr - v)
  {
    var kids;
    ghost var kts, v';
    kids, kts, v' := LinkKids(tok, args, ts, v);
    n := NewNode(KindOf(tok), kids, kts, v');
  }

  /** The stack after a step, split at `k`. */
  ghost function StepAt(ts: seq<Tree>, tok: Token, k: nat): (r: seq<Tree>)
    requires tok != Stmt && k <= |ts| && |ts| - k == Arity(tok)
    ensures Step(ts, tok) == Some(r)
  {
    ts[..k] + [Make(tok, ts[k..])]
  }

  /** One turn of the builder's loop. */
  method BuildNode(tok: Token, st: seq<AstNode>, ghost ts: seq<Tree>, ghost u: set<AstNode>)
    returns (ok: bool, st': seq<AstNode>, ghost ts': seq<Tree>, ghost u': set<AstNode>)
    requires tok != Stmt && StandAll(st, ts, u)
    ensures ok <==> Step(ts, tok).Some?
    ensures ok ==> Step(ts, tok) == Some(ts') && StandAll(st', ts', u') && u <= u' && fresh(u' - u)
  {
    st', ts', u', ok := st, ts, u, Arity(tok) <= |st|;
    if !ok {
      return;
    }
    ghost var k := |st| - Arity(tok);
    ghost var v := Below(st[k..]);
    ts' := StepAt(ts, tok, k);
    SplitStack(st, ts, u, k);
    var args, rest := PopList(st, Arity(tok));
    var n := MakeNode(tok, args, ts[k..], v);
    PushNode(rest, ts[..k], u, n, Make(tok, ts[k..]), v);
    st', u' := rest + [n], u + n.repr;
  }

  /** The builder's loop up to STMT or the end of the queue. */
  method BuildAll(queue: seq<Token>) returns (ok: bool, rest: seq<Token>, st: seq<AstNode>, ghost ts: seq<Tree>, ghost u: set<AstNode>)
    requires forall i :: 0 <= i < |queue| ==> Queued(queue[i])
    ensures |rest| <= |queue| && rest == queue[|queue| - |rest|..]
    ensures ok ==> |queue| - |rest| == StmtAt(queue) && Run(queue[..StmtAt(queue)], []) == Some(ts)
    ensures !ok <==> Run(queue[..StmtAt(queue)], []).None?
    ensures ok ==> StandAll(st, ts, u) && fresh(u)
  {
    ok, rest, st, ts, u := true, queue, [], [], {};
    ghost var n := StmtAt(queue);
    ghost var done := 0;
    while rest != [] && rest[0] != Stmt
      invariant 0 <= done <= n && rest == queue[done..] && StandAll(st, ts, u) && fresh(u)
      invariant Run(queue[..n], []) == Run(queue[done..n], ts)
      decreases |rest|
    {
      var tok := rest[0];
      assert queue[done..n][0] == tok && queue[done..n][1..] == queue[done + 1..n];
      ok, st, ts, u := BuildNode(tok, st, ts, u);
      if !ok {
        return;
      }
      rest, done := rest[1..], done + 1;
    }
  }

  /** ast_insert_build_tree */
  method BuildTree(queue: seq<Token>) returns (root: AstNode?, abort: bool, ghost u: set<AstNode>)
    requires forall i :: 0 <= i < |queue| ==> Queued(queue[i])
    ensures abort <==> BuildResult(queue) == Abort
    ensures root != null <==> BuildResult(queue).Root?
    ensures root != null ==> Stands(root, BuildResult(queue).tree) && root in u && root.repr <= u && fresh(u)
  {
    var ok, rest, st;
    ghost var ts;
    ok, rest, st, ts, u := BuildAll(queue);
    root, abort := null, !ok;
    if !ok {
      return;
    }
    if rest != [] {
      if st == [] {
        return null, true, u;
      }
      root, st := st[|st| - 1], st[..|st| - 1];
    }
    if st != [] {
      return null, true, u;
    }
  }

  // ---------------------------------------------------------------- folding

  predicate IsNum(k: Kind) {
    k.Val? && (k.lit.IntLit? || k.lit.NullLit?)
  }

  function NumOf(k: Kind): Num
    requires IsNum(k)
  {
    if k.lit.IntLit? then Int(k.lit.n) else Null
  }

  function KindOfNum(v: Num): (k: Kind)
    ensures IsNum(k) && NumOf(k) == v
  {
    Val(if v.Int? then IntLit(v.n) else NullLit)
  }

  function LeafOf(v: Num): Tree {
    Tree(KindOfNum(v), [])
  }

  /** negate: the operand's value and type overwrite the mark. */
  method NegateInto(operand: AstNode, out: AstNode) returns (trap: bool)
    requires IsNum(operand.kind)
    modifies out`kind
    ensures trap <==> Negate(NumOf(old(operand.kind))).Trap?
    ensures !trap ==> out.kind == KindOfNum(Negate(NumOf(old(operand.kind))).num)
    ensures trap ==> out.kind == old(out.kind)
  {
    if operand.kind.lit.IntLit? {
      out.kind := Val(IntLit(operand.kind.lit.n * -1));
      trap := false;
    } else {
      trap := true;
    }
  }

  /** calci: the result goes into the node of the first child, which is the right operand. */
  method CalcInto(op: Op, first: AstNode, second: AstNode) returns (trap: bool)
    requires IsNum(first.kind) && IsNum(second.kind) && first.kind.lit.IntLit?
    modifies first`kind
    ensures var w := Calc(op, NumOf(old(second.kind)), NumOf(old(first.kind)));
            && (trap <==> w.Trap?) && (!trap ==> first.kind == KindOfNum(w.num))
  {
    trap := false;
    var result := NullLit;
    if first.kind.lit.NullLit? || second.kind.lit.NullLit? {
    } else {
      var l, r := second.kind.lit.n, first.kind.lit.n;
      match op {
        case Add => result := IntLit(Wrap32(l + r));
        case Sub => result := IntLit(Wrap32(l - r));
        case Mul => result := IntLit(Wrap32(l * r));
        case Div => if r != 0 { result := IntLit(Wrap32(Quot(l, r))); }
        case Mod =>
          if r == 0 {
            return true;
          }
          result := IntLit(Wrap32(Rem(l, r)));
      }
    }
    first.kind := Val(result);
  }

  /** The last part of resolve_math_expr, once both children are values. */
  method Combine(op: Op, first: AstNode, second: AstNode) returns (trap: bool)
    requires first.kind.Val? && IsNum(second.kind) && (first.kind.lit == NegMark || IsNum(first.kind))
    modifies first`kind
    ensures var neg := old(first.kind) == Val(NegMark);
            var w := if neg then Negate(NumOf(old(second.kind)))
                     else Calc(op, NumOf(old(second.kind)), NumOf(old(first.kind)));
            && (trap <==> w.Trap?) && (!trap ==> first.kind == KindOfNum(w.num))
  {
    if first.kind.lit == NegMark {
      trap := NegateInto(second, first);
    } else if first.kind.lit.IntLit? {
      trap := CalcInto(op, first, second);
    } else {
      trap := true;
    }
  }

  /** The tree a child stands for once it has been resolved: a value, or the negation mark as it was. */
  ghost function Resolved(t: Tree): Tree
    requires ArithTree(t) || t == NegLeaf
    requires ArithTree(t) ==> Fold(t).Done?
  {
    if t == NegLeaf then t else LeafOf(Fold(t).num)
  }

  ghost predicate Traps(t: Tree)
    requires ArithTree(t) || t == NegLeaf
  {
    ArithTree(t) && Fold(t).Trap?
  }

  /** The recursive case for one child: afterwards the node that stands in its place has no children. */
  method ResolveChild(n: AstNode, ghost t: Tree) returns (trap: bool, r: AstNode)
    requires Stands(n, t) && (ArithTree(t) || t == NegLeaf)
    modifies n.repr
    ensures trap <==> Traps(t)
    ensures r in old(n.repr) && (!trap ==> Stands(r, Resolved(t)) && r.repr <= old(n.repr))
    decreases t, 1
  {
    trap, r := false, n;
    if n.children != [] {
      trap, r := Resolve(n, t);
    }
  }

  /** resolve_math_expr; the caller puts the node it gets where `node` was. */
  method Resolve(node: AstNode, ghost t: Tree) returns (trap: bool, r: AstNode)
    requires Stands(node, t) && ArithTree(t) && t.kind.Oper?
    modifies node.repr
    ensures trap <==> Fold(t).Trap?
    ensures r in old(node.repr) && (!trap ==> Stands(r, LeafOf(Fold(t).num)) && r.repr <= old(node.repr))
    decreases t, 0
  {
    var first, second := node.children[0], node.children[1];
    r := node;
    trap, first := ResolveChild(first, t.kids[0]);
    if trap {
      return;
    }
    trap, second := ResolveChild(second, t.kids[1]);
    if trap {
      return;
    }
    trap := Combine(node.kind.op, first, second);
    r := first;
  }

  // ---------------------------------------------------------------- the pass over the statement

  /** What the checker lets through among the values of an INTEGER column. */
  ghost predicate Checked(t: Tree) {
    t.kind.Oper? ==> ArithTree(t)
  }

  ghost predicate KidTraps(t: Tree)
    requires Checked(t)
  {
    t.kind.Oper? && Fold(t).Trap?
  }

  ghost function FoldKid(t: Tree): Tree
    requires Checked(t)
  {
    if t.kind.Oper? && Fold(t).Done? then LeafOf(Fold(t).num) else t
  }

  ghost predicate AllChecked(ts: seq<Tree>) {
    forall i :: 0 <= i < |ts| ==> Checked(ts[i])
  }

  /** The first `n` values folded. */
  ghost function FoldFirst(ts: seq<Tree>, n: nat): (r: seq<Tree>)
    requires AllChecked(ts) && n <= |ts|
    ensures |r| == |ts| && forall i :: 0 <= i < |ts| ==> r[i] == if i < n then FoldKid(ts[i]) else ts[i]
  {
    seq(|ts|, i requires 0 <= i < |ts| => if i < n then FoldKid(ts[i]) else ts[i])
  }

  /** Folding one value: its node takes the place of the expression in the list. */
  method OptimiseValue(v: AstNode, i: nat, ghost t: Tree) returns (trap: bool)
    requires Stands(v, t) && i < |t.kids| && Checked(t.kids[i])
    modifies v.repr
    ensures trap <==> KidTraps(t.kids[i])
    ensures !trap ==> Stands(v, t.(kids := t.kids[i := FoldKid(t.kids[i])])) && v.repr == old(v.repr)
  {
    trap := false;
    if v.children[i].kind.Oper? {
      var r;
      trap, r := Resolve(v.children[i], t.kids[i]);
      if !trap {
        v.children := v.children[i := r];
      }
    }
  }

  /** The loop of optimise_math_expr over one VALUES list. */
  method OptimiseValues(v: AstNode, ghost t: Tree) returns (trap: bool)
    requires Stands(v, t) && AllChecked(t.kids)
    modifies v.repr
    ensures trap <==> exists i :: 0 <= i < |t.kids| && KidTraps(t.kids[i])
    ensures !trap ==> Stands(v, t.(kids := FoldFirst(t.kids, |t.kids|))) && v.repr == old(v.repr)
  {
    var i := 0;
    assert FoldFirst(t.kids, 0) == t.kids;
    while i < |v.children|
      invariant 0 <= i <= |v.children| == |t.kids| && v.repr == old(v.repr)
      invariant Stands(v, t.(kids := FoldFirst(t.kids, i)))
      invariant forall j :: 0 <= j < i ==> !KidTraps(t.kids[j])
    {
      ghost var now := t.(kids := FoldFirst(t.kids, i));
      trap := OptimiseValue(v, i, now);
      if trap {
        return;
      }
      assert now.kids[i := FoldKid(t.kids[i])] == FoldFirst(t.kids, i + 1);
      i := i + 1;
    }
    trap := false;
  }

  /** A statement whose VALUES lists hold only values and checked expressions. */
  ghost predicate CheckedStmt(t: Tree) {
    forall i :: 0 <= i < |t.kids| ==> t.kids[i].kind.Values? ==> AllChecked(t.kids[i].kids)
  }

  ghost predicate ListTraps(t: Tree)
    requires t.kind.Values? ==> AllChecked(t.kids)
  {
    t.kind.Values? && exists i :: 0 <= i < |t.kids| && KidTraps(t.kids[i])
  }

  ghost function FoldList(t: Tree): Tree
    requires t.kind.Values? ==> AllChecked(t.kids)
  {
    if t.kind.Values? then t.(kids := FoldFirst(t.kids, |t.kids|)) else t
  }

  /** The first `n` lists folded. */
  ghost function FoldLists(t: Tree, n: nat): (r: Tree)
    requires CheckedStmt(t) && n <= |t.kids|
    ensures r.kind == t.kind && |r.kids| == |t.kids|
    ensures forall i :: 0 <= i < |t.kids| ==> r.kids[i] == if i < n then FoldList(t.kids[i]) else t.kids[i]
  {
    t.(kids := seq(|t.kids|, i requires 0 <= i < |t.kids| => if i < n then FoldList(t.kids[i]) else t.kids[i]))
  }

  /** One child of the statement, the column list left alone. */
  method OptimiseList(n: AstNode, i: nat, ghost t: Tree) returns (trap: bool)
    requires Stands(n, t) && i < |t.kids| && (t.kids[i].kind.Values? ==> AllChecked(t.kids[i].kids))
    modifies n.repr
    ensures trap <==> ListTraps(t.kids[i])
    ensures !trap ==> Stands(n, t.(kids := t.kids[i := FoldList(t.kids[i])])) && n.repr == old(n.repr)
  {
    trap := false;
    if n.children[i].kind.Values? {
      trap := OptimiseValues(n.children[i], t.kids[i]);
    }
  }

  /** optimise_math_expr on a whole statement */
  method OptimiseStmt(n: AstNode, ghost t: Tree) returns (trap: bool)
    requires Stands(n, t) && CheckedStmt(t)
    modifies n.repr
    ensures trap <==> exists i :: 0 <= i < |t.kids| && ListTraps(t.kids[i])
    ensures !trap ==> Stands(n, FoldLists(t, |t.kids|))
  {
    var i := 0;
    assert FoldLists(t, 0).kids == t.kids;
    while i < |n.children|
      invariant 0 <= i <= |n.children| == |t.kids| && n.repr == old(n.repr)
      invariant Stands(n, FoldLists(t, i))
      invariant forall j :: 0 <= j < i ==> !ListTraps(t.kids[j])
    {
      ghost var now := FoldLists(t, i);
      trap := OptimiseList(n, i, now);
      if trap {
        return;
      }
      assert now.kids[i := FoldList(t.kids[i])] == FoldLists(t, i + 1).kids;
      i := i + 1;
    }
    trap := false;
  }
}
