/** The circular doubly linked ring behind pages, buckets and AST children (src/datastructure/linkedlist.c). */
module LinkedList {

  /** struct list_head */
  class ListHead {
    var next: ListHead?
    var prev: ListHead?

    constructor ()
      ensures next == null && prev == null
    {
      next, prev := null, null;
    }
  }

  /** Once around: from the head through the nodes back to the head. */
  function Round(head: ListHead, ns: seq<ListHead>): seq<ListHead> {
    [head] + ns + [head]
  }

  predicate Distinct(s: seq<ListHead>) {
    forall i, j :: 0 <= i < j < |s| ==> s[i] != s[j]
  }

  /** Following `next` from the head visits exactly `ns`, once each, and comes back; `prev` goes the other way. */
  ghost predicate Ring(head: ListHead, ns: seq<ListHead>)
    reads head, ns
  {
    Distinct([head] + ns) && Chain(Round(head, ns))
  }

  ghost predicate Chain(s: seq<ListHead>)
    reads s
  {
    forall i :: 0 <= i < |s| - 1 ==> Linked(s[i], s[i + 1])
  }

  ghost predicate Linked(a: ListHead, b: ListHead)
    reads a, b
  {
    a.next == b && b.prev == a
  }

  method ListHeadInit(head: ListHead)
    modifies head
    ensures Ring(head, [])
  {
    head.next := head;
    head.prev := head;
  }

  /** Different places on the way round are different nodes, but for the head at both ends. */
  lemma {:induction false} Apart(head: ListHead, ns: seq<ListHead>, i: nat, j: nat)
    requires Distinct([head] + ns) && i < |Round(head, ns)| && j < |Round(head, ns)| && i != j
    requires {i, j} != {0, |ns| + 1}
    ensures Round(head, ns)[i] != Round(head, ns)[j]
  {
    var m, n := |ns| + 1, [head] + ns;
    var a, b := if i == m then 0 else i, if j == m then 0 else j;
    assert Round(head, ns)[i] == n[a] && Round(head, ns)[j] == n[b];
    assert a < b || b < a;
  }

  lemma {:induction false} DistinctInsert(a: seq<ListHead>, b: seq<ListHead>, node: ListHead)
    requires Distinct(a + b) && node !in a + b
    ensures Distinct(a + [node] + b)
  {
    var s, t := a + b, a + [node] + b;
    forall i, j | 0 <= i < j < |t| ensures t[i] != t[j] {
      assert i != |a| ==> t[i] == s[if i < |a| then i else i - 1];
      assert j != |a| ==> t[j] == s[if j < |a| then j else j - 1];
    }
  }

  lemma {:induction false} DistinctDrop(a: seq<ListHead>, b: seq<ListHead>, node: ListHead)
    requires Distinct(a + [node] + b)
    ensures Distinct(a + b)
  {
    var s, t := a + [node] + b, a + b;
    forall i, j | 0 <= i < j < |t| ensures t[i] != t[j] {
      assert t[i] == s[if i < |a| then i else i + 1] && t[j] == s[if j < |a| then j else j + 1];
    }
  }

  /** The ring without one node names no node twice. */
  lemma {:induction false} DropApart(head: ListHead, ns: seq<ListHead>, i: nat)
    requires i < |ns| && Distinct([head] + ns)
    ensures Distinct([head] + (ns[..i] + ns[i + 1..]))
  {
    assert [head] + ns == ([head] + ns[..i]) + [ns[i]] + ns[i + 1..];
    assert [head] + (ns[..i] + ns[i + 1..]) == ([head] + ns[..i]) + ns[i + 1..];
    DistinctDrop([head] + ns[..i], ns[i + 1..], ns[i]);
  }

  /** list_add puts a node right after `at`: after the head that is the front, after the last node it is the back. */
  method ListAdd(node: ListHead, at: ListHead, ghost head: ListHead, ghost ns: seq<ListHead>, ghost i: nat)
    requires Ring(head, ns) && i <= |ns| && at == Round(head, ns)[i] && node !in Round(head, ns)
    modifies head, ns, node
    ensures Ring(head, ns[..i] + [node] + ns[i..])
  {
    ghost var s := Round(head, ns);
    assert Linked(s[i], s[i + 1]);
    at.next.prev := node;
    node.next := at.next;
    node.prev := at;
    at.next := node;
    forall k | 0 <= k < |s| - 1 && k != i ensures Linked(s[k], s[k + 1]) {
      Apart(head, ns, k, i);
      Apart(head, ns, k + 1, i + 1);
      assert s[k].next == old(s[k].next) && s[k + 1].prev == old(s[k + 1].prev);
    }
    ghost var t := Round(head, ns[..i] + [node] + ns[i..]);
    assert t == s[..i + 1] + [node] + s[i + 1..];
    assert [head] + ns == [head] + ns[..i] + ns[i..];
    assert [head] + (ns[..i] + [node] + ns[i..]) == [head] + ns[..i] + [node] + ns[i..];
    DistinctInsert([head] + ns[..i], ns[i..], node);
  }

  /** list_del takes a node out and clears its links. */
  method ListDel(entry: ListHead, ghost head: ListHead, ghost ns: seq<ListHead>, ghost i: nat)
    requires Ring(head, ns) && i < |ns| && entry == ns[i]
    modifies head, ns
    ensures Ring(head, ns[..i] + ns[i + 1..]) && entry.next == null && entry.prev == null
  {
    ghost var s := Round(head, ns);
    assert Linked(s[i], s[i + 1]) && Linked(s[i + 1], s[i + 2]);
    entry.prev.next := entry.next;
    entry.next.prev := entry.prev;
    entry.prev := null;
    entry.next := null;
    forall k | 0 <= k < |s| - 1 && k != i && k != i + 1 ensures Linked(s[k], s[k + 1]) {
      Apart(head, ns, k, i);
      Apart(head, ns, k, i + 1);
      Apart(head, ns, k + 1, i + 1);
      Apart(head, ns, k + 1, i + 2);
      assert s[k].next == old(s[k].next) && s[k + 1].prev == old(s[k + 1].prev);
    }
    assert Round(head, ns[..i] + ns[i + 1..]) == s[..i + 1] + s[i + 2..];
    DropApart(head, ns, i);
  }

  lemma {:induction false} NotHead(head: ListHead, ns: seq<ListHead>)
    requires Distinct([head] + ns)
    ensures forall k :: 0 <= k < |ns| ==> ns[k] != head
  {
    forall k | 0 <= k < |ns| ensures ns[k] != head {
      assert ns[k] == ([head] + ns)[k + 1] && head == ([head] + ns)[0];
    }
  }

  /** list_length; the loop is list_for_each. */
  method ListLength(head: ListHead, ghost ns: seq<ListHead>) returns (count: nat)
    requires Ring(head, ns)
    ensures count == |ns|
  {
    count := 0;
    ghost var s := Round(head, ns);
    assert Linked(s[0], s[1]);
    var pos := head.next;
    while pos != head
      invariant count <= |ns| && pos == s[count + 1]
      decreases |ns| - count
    {
      assert pos == ns[count] && Linked(s[count + 1], s[count + 2]);
      count := count + 1;
      pos := pos.next;
    }
    NotHead(head, ns);
    assert s[count + 1] == (ns + [head])[count];
  }

  /** list_is_empty */
  method ListIsEmpty(head: ListHead, ghost ns: seq<ListHead>) returns (empty: bool)
    requires Ring(head, ns)
    ensures empty <==> ns == []
  {
    ghost var s := Round(head, ns);
    assert Linked(s[0], s[1]);
    empty := head == head.next;
    if ns != [] {
      Apart(head, ns, 0, 1);
    }
  }

  /** list_for_each_safe around list_del: every node is met once, in order, and the ring ends up empty. */
  method Drain(head: ListHead, ghost ns: seq<ListHead>) returns (seen: seq<ListHead>)
    requires Ring(head, ns)
    modifies head, ns
    ensures Ring(head, []) && seen == ns
  {
    seen := [];
    ghost var left := ns;
    assert Linked(Round(head, left)[0], Round(head, left)[1]);
    var pos := head.next;
    while pos != head
      invariant |seen| <= |ns| && left == ns[|seen|..] && seen == ns[..|seen|]
      invariant Ring(head, left) && pos == (left + [head])[0]
      decreases |left|
    {
      var n := NextSafe(pos, head, left);
      ListDel(pos, head, left, 0);
      assert left[..0] + left[1..] == left[1..] == ns[|seen| + 1..];
      seen, left := seen + [pos], left[1..];
      pos := n;
    }
    NotHead(head, left);
  }

  /** What the safe loop saves before the body runs: the node after `pos`, or the head. */
  method NextSafe(pos: ListHead, head: ListHead, ghost left: seq<ListHead>) returns (n: ListHead)
    requires Ring(head, left) && pos != head && pos == (left + [head])[0]
    ensures left != [] && pos == left[0] && n == (left[1..] + [head])[0]
  {
    ghost var s := Round(head, left);
    assert left != [];
    assert Linked(s[1], s[2]);
    n := pos.next;
  }
}
