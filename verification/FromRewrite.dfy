/** Comma-separated FROM entries rewritten into synthetic joins (src/engine/optimiser_select.c:316-527). */
module FromRewrite {
  import opened RowStore
  import C = Condition

  datatype Kind = TableEntry(name: string) | JoinEntry | OnExpr(cond: C.Cond) | OtherNode

  /** A node of the SELECT tree. Conditions hang off their ON node as values: this pass never changes one. */
  class Node {
    const kind: Kind
    var children: seq<Node>

    constructor (kind: Kind)
      ensures this.kind == kind && children == []
    {
      this.kind, children := kind, [];
    }
  }

  predicate IsEntry(n: Node) {
    n.kind.TableEntry? || n.kind.JoinEntry?
  }

  /** 1 = 1, as the pass builds it. */
  const Always := C.Clause([C.Cmp(C.Eq, C.IntOf(1), C.IntOf(1))])

  /** It holds of every row. */
  lemma {:induction false} AlwaysHolds(r: Record, cs: seq<Column>)
    requires C.RowOf(r, cs)
    ensures C.CondFits(Always, cs) && C.Eval(Always, r, cs)
  {
    assert Always.kids[0] == C.Cmp(C.Eq, C.IntOf(1), C.IntOf(1));
    assert C.CondFits(Always.kids[0], cs);
    assert C.EvalClause(Always, 1, r, cs);
  }

  // ---------------------------------------------------------------- one synthetic join

  ghost predicate Joins(j: Node, left: Node, right: Node)
    reads j
  {
    && j.kind.JoinEntry? && |j.children| == 3 && j.children[0] == left && j.children[1] == right
    && j.children[2].kind == OnExpr(Always)
  }

  /**
   wrap_on_join_node: `left` stands at `i` in the list of `holder`, `right` at `j` in the list of `top`; a join takes the
   place of the one and both become its children.
   */
  method WrapOnJoin(holder: Node, i: nat, top: Node, j: nat) returns (join: Node)
    requires i < |holder.children| && j < |top.children| && (holder == top ==> i < j)
    modifies holder`children, top`children
    ensures fresh(join) && Joins(join, old(holder.children[i]), old(top.children[j]))
    ensures fresh(join.children[2])
    ensures holder == top ==> top.children == Except(old(top.children)[i := join], j)
    ensures holder != top ==> holder.children == old(holder.children)[i := join] && top.children == Except(old(top.children), j)
  {
    var left, right := holder.children[i], top.children[j];
    var on := new Node(OnExpr(Always));
    join := new Node(JoinEntry);
    holder.children := holder.children[i := join];
    top.children := Except(top.children, j);
    join.children := [on];
    join.children := [right] + join.children;
    join.children := [left] + join.children;
  }

  // ---------------------------------------------------------------- the entries of a list

  function Entries(s: seq<Node>): seq<Node> {
    if s == [] then [] else Entries(s[..|s| - 1]) + if IsEntry(s[|s| - 1]) then [s[|s| - 1]] else []
  }

  /** The list with its first entry replaced by `head` and the other entries gone. */
  function Collapsed(s: seq<Node>, head: Node): seq<Node> {
    if s == [] then [] else
      var n := |s| - 1;
      Collapsed(s[..n], head) + if !IsEntry(s[n]) then [s[n]] else if Entries(s[..n]) == [] then [head] else []
  }

  /** Where the first entry stands, in the list as in the collapsed one. */
  ghost function Place(s: seq<Node>): nat {
    if s == [] then 0 else if Entries(s[..|s| - 1]) != [] then Place(s[..|s| - 1]) else |s| - 1
  }

  lemma {:induction false} CollapsedNone(s: seq<Node>, head: Node)
    requires Entries(s) == []
    ensures Collapsed(s, head) == s
  {
    if s != [] {
      CollapsedNone(s[..|s| - 1], head);
    }
  }

  /** The collapsed list depends on its head in one place only. */
  lemma {:induction false} CollapsedHead(s: seq<Node>, a: Node, b: Node)
    requires Entries(s) != []
    ensures Place(s) < |Collapsed(s, a)| && Collapsed(s, a)[Place(s)] == a
    ensures Collapsed(s, a)[Place(s) := b] == Collapsed(s, b)
  {
    var n := |s| - 1;
    if Entries(s[..n]) != [] {
      CollapsedHead(s[..n], a, b);
      UpdateFront(Collapsed(s[..n], a), if !IsEntry(s[n]) then [s[n]] else [], Place(s), b);
    } else {
      CollapsedNone(s[..n], a);
      CollapsedNone(s[..n], b);
      assert (s[..n] + [a])[n := b] == s[..n] + [b];
    }
  }

  lemma {:induction false} UpdateFront(x: seq<Node>, r: seq<Node>, k: nat, b: Node)
    requires k < |x|
    ensures (x + r)[k] == x[k] && (x + r)[k := b] == x[k := b] + r
  {}

  lemma {:induction false} CollapsedStep(s: seq<Node>, p: nat, head: Node)
    requires p < |s|
    ensures Entries(s[..p + 1]) == Entries(s[..p]) + if IsEntry(s[p]) then [s[p]] else []
    ensures Collapsed(s[..p + 1], head)
            == Collapsed(s[..p], head)
               + (if !IsEntry(s[p]) then [s[p]] else if Entries(s[..p]) == [] then [head] else [])
    ensures s[p..] == [s[p]] + s[p + 1..]
  {
    assert s[..p + 1][..p] == s[..p];
  }

  /** Right-deep: each join has an entry on its left and the next join, or the last entry, on its right. */
  ghost predicate Chain(joins: seq<Node>, es: seq<Node>)
    reads joins
  {
    && |es| == |joins| + 1
    && forall i :: 0 <= i < |joins| ==> Joins(joins[i], es[i], if i + 1 < |joins| then joins[i + 1] else es[i + 1])
  }

  // ---------------------------------------------------------------- the pass

  /** After the first `p` nodes of `was`: entries met so far hang in a chain, the rest of the list is untouched. */
  ghost predicate Sofar(top: Node, was: seq<Node>, p: nat, es: seq<Node>, joins: seq<Node>)
    reads top, joins
  {
    && p <= |was| && es == Entries(was[..p]) && top !in joins
    && (es == [] ==> joins == [] && top.children == was)
    && (es != [] ==> Chain(joins, es) && top.children == Collapsed(was[..p], HeadOf(es, joins)) + was[p..])
  }

  /** What stands for all the entries met: the only one, or the first join. */
  ghost function HeadOf(es: seq<Node>, joins: seq<Node>): Node
    requires es != []
  {
    if joins == [] then es[0] else joins[0]
  }

  /** Where the last entry met stands: in the list itself, or on the right of the last join. */
  ghost predicate Stands(top: Node, was: seq<Node>, p: nat, es: seq<Node>, joins: seq<Node>, holder: Node, i: nat)
    requires p <= |was|
  {
    if |es| == 1 then holder == top && i == Place(was[..p])
    else joins != [] && holder == joins[|joins| - 1] && i == 1
  }

  /** A node that is not an entry is passed over. */
  lemma {:induction false} PassOther(top: Node, was: seq<Node>, p: nat, es: seq<Node>, joins: seq<Node>)
    requires Sofar(top, was, p, es, joins) && p < |was| && !IsEntry(was[p])
    ensures Sofar(top, was, p + 1, es, joins)
    ensures es != [] ==> Place(was[..p + 1]) == Place(was[..p])
                         && |Collapsed(was[..p + 1], HeadOf(es, joins))| == |Collapsed(was[..p], HeadOf(es, joins))| + 1
  {
    assert was[..p + 1][..p] == was[..p];
    if es != [] {
      CollapsedStep(was, p, HeadOf(es, joins));
    } else {
      CollapsedStep(was, p, top);
    }
  }

  /** The first entry stays where it is. */
  lemma {:induction false} MeetFirst(top: Node, was: seq<Node>, p: nat)
    requires Sofar(top, was, p, [], []) && p < |was| && IsEntry(was[p])
    ensures Sofar(top, was, p + 1, [was[p]], []) && Place(was[..p + 1]) == p && |Collapsed(was[..p + 1], was[p])| == p + 1
  {
    assert was[..p + 1][..p] == was[..p];
    CollapsedStep(was, p, was[p]);
    CollapsedNone(was[..p], was[p]);
    assert was == was[..p] + [was[p]] + was[p + 1..];
  }

  lemma {:induction false} ReplaceInFront(a: seq<Node>, b: seq<Node>, i: nat, n: Node)
    requires i < |a| && b != []
    ensures Except((a + b)[i := n], |a|) == a[i := n] + b[1..]
    ensures Except(a + b, |a|) == a + b[1..]
  {}

  /** The second entry: the first join takes the place of the first entry. */
  method MeetSecond(top: Node, i: nat, q: nat, ghost was: seq<Node>, ghost p: nat, ghost e: Node) returns (join: Node)
    requires Sofar(top, was, p, [e], []) && p < |was| && IsEntry(was[p]) && i == Place(was[..p])
    requires q == |Collapsed(was[..p], e)|
    modifies top`children
    ensures Sofar(top, was, p + 1, [e, was[p]], [join]) && fresh(join)
    ensures q == |Collapsed(was[..p + 1], join)|
  {
    ghost var front := Collapsed(was[..p], e);
    CollapsedHead(was[..p], e, e);
    CollapsedStep(was, p, e);
    join := WrapOnJoin(top, i, top, q);
    ReplaceInFront(front, was[p..], i, join);
    CollapsedHead(was[..p], e, join);
    CollapsedStep(was, p, join);
    assert front[i] == e;
  }

  lemma {:induction false} ChainMore(joins: seq<Node>, es: seq<Node>, join: Node, e: Node)
    requires joins != [] && |es| == |joins| + 1 && join !in joins
    requires forall k :: 0 <= k < |joins| - 1 ==> Joins(joins[k], es[k], joins[k + 1])
    requires Joins(joins[|joins| - 1], es[|joins| - 1], join) && Joins(join, es[|joins|], e)
    ensures Chain(joins + [join], es + [e])
  {}

  /** A further entry: the new join takes the place of the last entry inside the last join. */
  method MeetNext(top: Node, holder: Node, q: nat, ghost was: seq<Node>, ghost p: nat, ghost es: seq<Node>,
      ghost joins: seq<Node>) returns (join: Node)
    requires Sofar(top, was, p, es, joins) && |es| >= 2 && p < |was| && IsEntry(was[p])
    requires joins != [] && holder == joins[|joins| - 1] && q == |Collapsed(was[..p], joins[0])|
    requires forall k :: 0 <= k < |joins| - 1 ==> joins[k] != holder
    modifies top`children, holder`children
    ensures Sofar(top, was, p + 1, es + [was[p]], joins + [join]) && fresh(join)
    ensures q == |Collapsed(was[..p + 1], joins[0])|
  {
    ghost var front := Collapsed(was[..p], joins[0]);
    ghost var m := |joins|;
    assert Joins(joins[m - 1], es[m - 1], es[m]);
    CollapsedStep(was, p, joins[0]);
    join := WrapOnJoin(holder, 1, top, q);
    CollapsedHead(was[..p], joins[0], joins[0]);
    ReplaceInFront(front, was[p..], 0, joins[0]);
    forall k | 0 <= k < m - 1 ensures Joins(joins[k], es[k], joins[k + 1]) {
      assert old(Joins(joins[k], es[k], joins[k + 1]));
    }
    ChainMore(joins, es, join, was[p]);
  }

  /** A collapsed list has one entry, its head. */
  lemma {:induction false} OneEntry(s: seq<Node>, head: Node)
    requires Entries(s) != [] && IsEntry(head)
    ensures Entries(Collapsed(s, head)) == [head]
  {
    var n := |s| - 1;
    var front := Collapsed(s[..n], head);
    if Entries(s[..n]) != [] {
      OneEntry(s[..n], head);
      assert (front + [s[n]])[..|front|] == front && front + [] == front;
    } else {
      CollapsedNone(s[..n], head);
      assert (s[..n] + [head])[..n] == s[..n];
    }
  }

  /** do_replace_entries_from */
  method DoReplaceEntries(top: Node) returns (ghost joins: seq<Node>)
    modifies top`children
    ensures var was := old(top.children); Sofar(top, was, |was|, Entries(was), joins) && was[..|was|] == was
    ensures forall j :: j in joins ==> fresh(j)
  {
    ghost var was, p, es := top.children, 0, [];
    var holder, i, q, hasLeft := top, 0, 0, false;
    joins := [];
    while q < |top.children|
      invariant Sofar(top, was, p, es, joins) && (hasLeft <==> es != []) && q <= |top.children|
      invariant |top.children| - q == |was| - p && (es == [] ==> q == p)
      invariant es != [] ==> q == |Collapsed(was[..p], HeadOf(es, joins))|
      invariant hasLeft && joins == [] ==> holder == top && i == Place(was[..p])
      invariant joins != [] ==> |es| >= 2 && holder == joins[|joins| - 1]
      invariant forall k, l :: 0 <= k < l < |joins| ==> joins[k] != joins[l]
      invariant forall j :: j in joins ==> fresh(j)
      decreases |was| - p
    {
      assert top.children[q] == was[p];
      if !IsEntry(top.children[q]) {
        PassOther(top, was, p, es, joins);
        q := q + 1;
      } else if !hasLeft {
        MeetFirst(top, was, p);
        es := [was[p]];
        holder, i, hasLeft := top, q, true;
        q := q + 1;
      } else {
        var join;
        if holder == top {
          join := MeetSecond(top, i, q, was, p, es[0]);
        } else {
          assert holder in joins;
          join := MeetNext(top, holder, q, was, p, es, joins);
        }
        es, joins := es + [was[p]], joins + [join];
        holder := join;
      }
      p := p + 1;
    }
    assert was[..|was|] == was;
  }

  ghost function Count(s: seq<Node>, n: nat, tables: bool): nat
    requires n <= |s|
  {
    if n == 0 then 0 else
      Count(s, n - 1, tables) + if (if tables then s[n - 1].kind.TableEntry? else s[n - 1].kind.JoinEntry?) then 1 else 0
  }

  lemma {:induction false} CountEntries(s: seq<Node>, n: nat)
    requires n <= |s|
    ensures |Entries(s[..n])| == Count(s, n, true) + Count(s, n, false)
  {
    if n > 0 {
      CountEntries(s, n - 1);
      assert s[..n][..n - 1] == s[..n - 1];
    }
  }

  /** replace_entries_from: a single table or join is left alone. */
  method ReplaceEntriesFrom(top: Node) returns (ghost joins: seq<Node>)
    modifies top`children
    ensures var was := old(top.children); var es := Entries(was);
            && |joins| == (if |es| <= 1 then 0 else |es| - 1)
            && (|es| <= 1 ==> top.children == was)
            && (|es| >= 2 ==> Chain(joins, es) && IsEntry(joins[0]) && top.children == Collapsed(was, joins[0])
                              && Entries(top.children) == [joins[0]])
    ensures forall j :: j in joins ==> fresh(j)
  {
    ghost var was := top.children;
    var tables, chained, k := 0, 0, 0;
    while k < |top.children|
      invariant 0 <= k <= |was| && top.children == was
      invariant tables == Count(was, k, true) && chained == Count(was, k, false)
    {
      if top.children[k].kind.TableEntry? {
        tables := tables + 1;
      } else if top.children[k].kind.JoinEntry? {
        chained := chained + 1;
      }
      k := k + 1;
    }
    CountEntries(was, |was|);
    assert was[..|was|] == was;
    joins := [];
    if !((chained == 1 && tables == 0) || (chained == 0 && tables == 1)) {
      joins := DoReplaceEntries(top);
      if |Entries(was)| >= 2 {
        assert Joins(joins[0], Entries(was)[0], if 1 < |joins| then joins[1] else Entries(was)[1]);
        OneEntry(was, joins[0]);
        assert Collapsed(was, joins[0]) + was[|was|..] == Collapsed(was, joins[0]);
      }
    }
  }

  // ---------------------------------------------------------------- what a FROM clause means

  /** The joined entries as a tree. */
  datatype From = Entry(node: Node) | Join(left: From, right: From, on: C.Cond)

  /** The node stands for the tree; joins are looked for in `js`. */
  ghost predicate Shape(n: Node, t: From, js: set<Node>)
    reads js
    decreases t
  {
    match t
    case Entry(m) => n == m
    case Join(l, r, on) =>
      && n in js && n.kind.JoinEntry? && |n.children| == 3 && n.children[2].kind == OnExpr(on)
      && Shape(n.children[0], l, js) && Shape(n.children[1], r, js)
  }

  /** The right-deep tree over the entries from `k` on. */
  ghost function ChainTree(es: seq<Node>, k: nat): From
    requires k < |es|
    decreases |es| - k
  {
    if k == |es| - 1 then Entry(es[k]) else Join(Entry(es[k]), ChainTree(es, k + 1), Always)
  }

  /** The pass builds the right-deep tree. */
  lemma {:induction false} ChainShape(joins: seq<Node>, es: seq<Node>, k: nat, js: set<Node>)
    requires Chain(joins, es) && k < |joins| && forall j :: j in joins ==> j in js
    ensures Shape(joins[k], ChainTree(es, k), js)
    decreases |joins| - k
  {
    assert Joins(joins[k], es[k], if k + 1 < |joins| then joins[k + 1] else es[k + 1]);
    if k + 1 < |joins| {
      ChainShape(joins, es, k + 1, js);
    }
  }

  type Tuple = seq<Value>

  /** Rows of the left with each row of the right, in the order of a nested loop. */
  ghost function Product(xs: seq<Tuple>, ys: seq<Tuple>): seq<Tuple> {
    if xs == [] then [] else Product(xs[..|xs| - 1], ys) + WithEach(xs[|xs| - 1], ys)
  }

  ghost function WithEach(x: Tuple, ys: seq<Tuple>): (r: seq<Tuple>)
    ensures |r| == |ys| && forall i :: 0 <= i < |ys| ==> r[i] == x + ys[i]
  {
    seq(|ys|, i requires 0 <= i < |ys| => x + ys[i])
  }

  /** Every tuple of the first list is followed by every one of the second, the second running faster. */
  lemma {:induction false} ProductAt(xs: seq<Tuple>, ys: seq<Tuple>, i: nat, j: nat)
    requires i < |xs| && j < |ys|
    ensures |Product(xs, ys)| == |xs| * |ys|
    ensures i * |ys| + j < |Product(xs, ys)| && Product(xs, ys)[i * |ys| + j] == xs[i] + ys[j]
  {
    ProductSize(xs, ys);
    var n := |xs| - 1;
    ProductSize(xs[..n], ys);
    if i < n {
      ProductAt(xs[..n], ys, i, j);
    }
    RowWithin(i, n, j, |ys|);
  }

  lemma {:induction false} ProductSize(xs: seq<Tuple>, ys: seq<Tuple>)
    ensures |Product(xs, ys)| == |xs| * |ys|
  {
    if xs != [] {
      var n := |xs| - 1;
      ProductSize(xs[..n], ys);
      assert (n + 1) * |ys| == n * |ys| + |ys|;
    }
  }

  lemma {:induction false} RowWithin(i: nat, n: nat, j: nat, m: nat)
    requires i <= n && j < m
    ensures i * m + j < (n + 1) * m == n * m + m && (i < n ==> i * m + j < n * m)
  {
    NextFactor(i, m);
    NextFactor(n, m);
    MulMonotone(i, n, m);
    if i < n {
      MulMonotone(i + 1, n, m);
    }
  }

  ghost function Keep(on: C.Cond, rs: seq<Tuple>, sat: (C.Cond, Tuple) -> bool): seq<Tuple> {
    if rs == [] then [] else
      Keep(on, rs[..|rs| - 1], sat) + if sat(on, rs[|rs| - 1]) then [rs[|rs| - 1]] else []
  }

  /** What a FROM tree means, given the rows of its entries and which tuples satisfy a condition. */
  ghost function Meaning(t: From, rows: Node -> seq<Tuple>, sat: (C.Cond, Tuple) -> bool): seq<Tuple> {
    match t
    case Entry(n) => rows(n)
    case Join(l, r, on) => Keep(on, Product(Meaning(l, rows, sat), Meaning(r, rows, sat)), sat)
  }

  /** What the comma list means: the cross product of its entries, one after the other. */
  ghost function Cross(es: seq<Node>, rows: Node -> seq<Tuple>): seq<Tuple>
    requires es != []
  {
    if |es| == 1 then rows(es[0]) else Product(Cross(es[..|es| - 1], rows), rows(es[|es| - 1]))
  }

  lemma {:induction false} KeepAll(on: C.Cond, rs: seq<Tuple>, sat: (C.Cond, Tuple) -> bool)
    requires forall r :: sat(on, r)
    ensures Keep(on, rs, sat) == rs
  {
    if rs != [] {
      KeepAll(on, rs[..|rs| - 1], sat);
    }
  }

  lemma {:induction false} ProductConcat(xs: seq<Tuple>, ys: seq<Tuple>, zs: seq<Tuple>)
    ensures Product(xs + ys, zs) == Product(xs, zs) + Product(ys, zs)
  {
    if ys == [] {
      assert xs + ys == xs;
    } else {
      var n := |ys| - 1;
      assert (xs + ys)[..|xs + ys| - 1] == xs + ys[..n];
      ProductConcat(xs, ys[..n], zs);
      Regroup(Product(xs, zs), Product(ys[..n], zs), WithEach(ys[n], zs));
    }
  }

  lemma {:induction false} Regroup(a: seq<Tuple>, b: seq<Tuple>, c: seq<Tuple>)
    ensures a + b + c == a + (b + c)
  {}

  /** A tuple in front of a product is a tuple in front of its left side. */
  lemma {:induction false} WithProduct(x: Tuple, ys: seq<Tuple>, zs: seq<Tuple>)
    ensures WithEach(x, Product(ys, zs)) == Product(WithEach(x, ys), zs)
  {
    if ys != [] {
      var n := |ys| - 1;
      WithProduct(x, ys[..n], zs);
      assert WithEach(x, ys)[..n] == WithEach(x, ys[..n]);
      WithEachConcat(x, Product(ys[..n], zs), WithEach(ys[n], zs));
      WithTwice(x, ys[n], zs);
    }
  }

  lemma {:induction false} WithEachConcat(x: Tuple, a: seq<Tuple>, b: seq<Tuple>)
    ensures WithEach(x, a + b) == WithEach(x, a) + WithEach(x, b)
  {}

  lemma {:induction false} WithTwice(x: Tuple, y: Tuple, zs: seq<Tuple>)
    ensures WithEach(x, WithEach(y, zs)) == WithEach(x + y, zs)
  {
    forall i | 0 <= i < |zs| ensures x + (y + zs[i]) == x + y + zs[i] {}
  }

  lemma {:induction false} ProductAssoc(xs: seq<Tuple>, ys: seq<Tuple>, zs: seq<Tuple>)
    ensures Product(Product(xs, ys), zs) == Product(xs, Product(ys, zs))
  {
    if xs != [] {
      var n := |xs| - 1;
      ProductAssoc(xs[..n], ys, zs);
      ProductConcat(Product(xs[..n], ys), WithEach(xs[n], ys), zs);
      WithProduct(xs[n], ys, zs);
    }
  }

  /** Taking the first entry off the comma list. */
  lemma {:induction false} CrossFirst(es: seq<Node>, rows: Node -> seq<Tuple>)
    requires |es| >= 2
    ensures Cross(es, rows) == Product(rows(es[0]), Cross(es[1..], rows))
  {
    var n := |es| - 1;
    if |es| == 2 {
      assert es[..1] == [es[0]] && es[1..] == [es[1]];
    } else {
      CrossFirst(es[..n], rows);
      assert es[..n][1..] == es[1..][..n - 1];
      ProductAssoc(rows(es[0]), Cross(es[1..][..n - 1], rows), rows(es[n]));
    }
  }

  /** The right-deep chain of synthetic joins means the cross product of the entries. */
  lemma {:induction false} RewriteMeans(es: seq<Node>, k: nat, rows: Node -> seq<Tuple>, sat: (C.Cond, Tuple) -> bool)
    requires k < |es| && forall r :: sat(Always, r)
    ensures Meaning(ChainTree(es, k), rows, sat) == Cross(es[k..], rows)
    decreases |es| - k
  {
    if k < |es| - 1 {
      RewriteMeans(es, k + 1, rows, sat);
      CrossFirst(es[k..], rows);
      assert es[k..][1..] == es[k + 1..];
      KeepAll(Always, Product(rows(es[k]), Cross(es[k + 1..], rows)), sat);
    }
  }
}
