/** The order in which a nested loop over two lists meets what it keeps. */
module JoinOrder {
  import opened Wrappers

  /** What the inner loop keeps for outer position `x` among the first `n` inner ones. */
  ghost function Inner<T>(f: (nat, nat) -> Option<T>, x: nat, n: nat): seq<T> {
    if n == 0 then [] else Inner(f, x, n - 1) + Kept(f, x, n - 1)
  }

  ghost function Kept<T>(f: (nat, nat) -> Option<T>, x: nat, y: nat): seq<T> {
    if f(x, y).Some? then [f(x, y).value] else []
  }

  /** What the nested loop keeps for the first `m` outer positions. */
  ghost function Outer<T>(f: (nat, nat) -> Option<T>, m: nat, n: nat): seq<T> {
    if m == 0 then [] else Outer(f, m - 1, n) + Inner(f, m - 1, n)
  }

  datatype Pair = Pair(x: nat, y: nat)

  ghost predicate Before(p: Pair, q: Pair) {
    p.x < q.x || (p.x == q.x && p.y < q.y)
  }

  ghost function InnerPairs<T>(f: (nat, nat) -> Option<T>, x: nat, n: nat): seq<Pair> {
    if n == 0 then [] else
      InnerPairs(f, x, n - 1) + if f(x, n - 1).Some? then [Pair(x, n - 1)] else []
  }

  ghost function Pairs<T>(f: (nat, nat) -> Option<T>, m: nat, n: nat): seq<Pair> {
    if m == 0 then [] else Pairs(f, m - 1, n) + InnerPairs(f, m - 1, n)
  }

  /** `ps` lists, in lexicographic order, exactly the pairs from these ranges that are kept. */
  ghost predicate Exactly<T>(f: (nat, nat) -> Option<T>, from: nat, m: nat, n: nat, ps: seq<Pair>) {
    AllKept(f, from, m, n, ps) && NoneMissed(f, from, m, n, ps) && Ascending(ps)
  }

  ghost predicate AllKept<T>(f: (nat, nat) -> Option<T>, from: nat, m: nat, n: nat, ps: seq<Pair>) {
    forall i :: 0 <= i < |ps| ==> from <= ps[i].x < m && ps[i].y < n && f(ps[i].x, ps[i].y).Some?
  }

  ghost predicate NoneMissed<T>(f: (nat, nat) -> Option<T>, from: nat, m: nat, n: nat, ps: seq<Pair>) {
    forall x: nat, y: nat :: from <= x < m && y < n && f(x, y).Some? ==> Listed(ps, x, y)
  }

  ghost predicate Ascending(ps: seq<Pair>) {
    forall i, j :: 0 <= i < j < |ps| ==> Before(ps[i], ps[j])
  }

  ghost predicate Listed(ps: seq<Pair>, x: nat, y: nat) {
    exists i :: 0 <= i < |ps| && ps[i] == Pair(x, y)
  }

  lemma {:induction false} ListedMore(ps: seq<Pair>, qs: seq<Pair>, x: nat, y: nat)
    ensures Listed(ps, x, y) || Listed(qs, x, y) ==> Listed(ps + qs, x, y)
  {
    if Listed(ps, x, y) {
      var i :| 0 <= i < |ps| && ps[i] == Pair(x, y);
      assert (ps + qs)[i] == Pair(x, y);
    }
    if Listed(qs, x, y) {
      var i :| 0 <= i < |qs| && qs[i] == Pair(x, y);
      assert (ps + qs)[|ps| + i] == Pair(x, y);
    }
  }

  lemma {:induction false} InnerExactly<T>(f: (nat, nat) -> Option<T>, x: nat, n: nat)
    ensures Exactly(f, x, x + 1, n, InnerPairs(f, x, n))
  {
    if n > 0 {
      InnerExactly(f, x, n - 1);
      var ps := InnerPairs(f, x, n - 1);
      var qs := if f(x, n - 1).Some? then [Pair(x, n - 1)] else [];
      forall y: nat | y < n && f(x, y).Some? ensures Listed(ps + qs, x, y) {
        assert y == n - 1 ==> qs[0] == Pair(x, y);
        ListedMore(ps, qs, x, y);
      }
    }
  }

  lemma {:induction false} KeptConcat<T>(f: (nat, nat) -> Option<T>, k: nat, m: nat, n: nat, ps: seq<Pair>, qs: seq<Pair>)
    requires k <= m && AllKept(f, 0, k, n, ps) && AllKept(f, k, m, n, qs)
    ensures AllKept(f, 0, m, n, ps + qs)
  {}

  lemma {:induction false} MissedConcat<T>(f: (nat, nat) -> Option<T>, k: nat, m: nat, n: nat, ps: seq<Pair>, qs: seq<Pair>)
    requires k <= m && NoneMissed(f, 0, k, n, ps) && NoneMissed(f, k, m, n, qs)
    ensures NoneMissed(f, 0, m, n, ps + qs)
  {
    forall x: nat, y: nat | x < m && y < n && f(x, y).Some? ensures Listed(ps + qs, x, y) {
      assert x < k ==> Listed(ps, x, y);
      ListedMore(ps, qs, x, y);
    }
  }

  lemma {:induction false} AscendingConcat(ps: seq<Pair>, qs: seq<Pair>, k: nat)
    requires Ascending(ps) && Ascending(qs)
    requires forall i :: 0 <= i < |ps| ==> ps[i].x < k
    requires forall i :: 0 <= i < |qs| ==> k <= qs[i].x
    ensures Ascending(ps + qs)
  {}

  lemma {:induction false} PairsExactly<T>(f: (nat, nat) -> Option<T>, m: nat, n: nat)
    ensures Exactly(f, 0, m, n, Pairs(f, m, n))
  {
    if m > 0 {
      PairsExactly(f, m - 1, n);
      InnerExactly(f, m - 1, n);
      var ps, qs := Pairs(f, m - 1, n), InnerPairs(f, m - 1, n);
      KeptConcat(f, m - 1, m, n, ps, qs);
      MissedConcat(f, m - 1, m, n, ps, qs);
      AscendingConcat(ps, qs, m - 1);
    }
  }

  /** `rs` are what is kept of the pairs `ps`, one for one. */
  ghost predicate ValuesOf<T>(f: (nat, nat) -> Option<T>, ps: seq<Pair>, rs: seq<T>) {
    |rs| == |ps| && forall i :: 0 <= i < |ps| ==> f(ps[i].x, ps[i].y) == Some(rs[i])
  }

  lemma {:induction false} ValuesConcat<T>(f: (nat, nat) -> Option<T>, ps: seq<Pair>, rs: seq<T>, qs: seq<Pair>, ts: seq<T>)
    requires ValuesOf(f, ps, rs) && ValuesOf(f, qs, ts)
    ensures ValuesOf(f, ps + qs, rs + ts)
  {}

  lemma {:induction false} InnerValues<T>(f: (nat, nat) -> Option<T>, x: nat, n: nat)
    ensures ValuesOf(f, InnerPairs(f, x, n), Inner(f, x, n))
  {
    if n > 0 {
      InnerValues(f, x, n - 1);
      var qs := if f(x, n - 1).Some? then [Pair(x, n - 1)] else [];
      ValuesConcat(f, InnerPairs(f, x, n - 1), Inner(f, x, n - 1), qs, Kept(f, x, n - 1));
    }
  }

  lemma {:induction false} OuterValues<T>(f: (nat, nat) -> Option<T>, m: nat, n: nat)
    ensures ValuesOf(f, Pairs(f, m, n), Outer(f, m, n))
  {
    if m > 0 {
      OuterValues(f, m - 1, n);
      InnerValues(f, m - 1, n);
      ValuesConcat(f, Pairs(f, m - 1, n), Outer(f, m - 1, n), InnerPairs(f, m - 1, n), Inner(f, m - 1, n));
    }
  }

  /** The nested loop keeps exactly the pairs to be kept, each once, in lexicographic order. */
  lemma {:induction false} OuterExactly<T>(f: (nat, nat) -> Option<T>, m: nat, n: nat)
    ensures Exactly(f, 0, m, n, Pairs(f, m, n)) && ValuesOf(f, Pairs(f, m, n), Outer(f, m, n))
  {
    PairsExactly(f, m, n);
    OuterValues(f, m, n);
  }

  // ---------------------------------------------------------------- the same, element by element

  /** What has been kept so far, last element first. */
  datatype Trail<T> = Start | More(before: Trail<T>, last: T)

  /** `base` and then the elements of the trail, in the order in which they were kept. */
  ghost function Along<T>(base: seq<T>, t: Trail<T>): seq<T> {
    match t
    case Start => base
    case More(b, x) => Along(base, b) + [x]
  }

  ghost function Keep<T>(f: (nat, nat) -> Option<T>, x: nat, y: nat, t: Trail<T>): Trail<T> {
    if f(x, y).Some? then More(t, f(x, y).value) else t
  }

  ghost function InnerTrail<T>(f: (nat, nat) -> Option<T>, t: Trail<T>, x: nat, n: nat): Trail<T> {
    if n == 0 then t else Keep(f, x, n - 1, InnerTrail(f, t, x, n - 1))
  }

  ghost function OuterTrail<T>(f: (nat, nat) -> Option<T>, m: nat, n: nat): Trail<T> {
    if m == 0 then Start else InnerTrail(f, OuterTrail(f, m - 1, n), m - 1, n)
  }

  lemma {:induction false} AlongInner<T>(base: seq<T>, f: (nat, nat) -> Option<T>, t: Trail<T>, x: nat, n: nat)
    ensures Along(base, InnerTrail(f, t, x, n)) == Along(base, t) + Inner(f, x, n)
  {
    if n > 0 {
      AlongInner(base, f, t, x, n - 1);
    }
  }

  /** The trail of the nested loop reads as what the nested loop keeps. */
  lemma {:induction false} AlongOuter<T>(base: seq<T>, f: (nat, nat) -> Option<T>, m: nat, n: nat)
    ensures Along(base, OuterTrail(f, m, n)) == base + Outer(f, m, n)
  {
    if m > 0 {
      AlongOuter(base, f, m - 1, n);
      AlongInner(base, f, OuterTrail(f, m - 1, n), m - 1, n);
    }
  }
}
