/** What the two cursors of the compaction keep true of the pages (src/primitive/vacuum.c). */
module VacuumSpec {
  import opened Folding
  import opened RowStore

  /** Every page has the slots the row size gives, and the ones past the capacity were never used. */
  ghost predicate Cut(ps: seq<Page>, len: nat)
    requires 0 < len < PAGE
  {
    forall b :: 0 <= b < |ps| ==> |ps[b]| == Slots(len) && BlankFrom(ps[b], Capacity(len))
  }

  ghost predicate BlankFrom(p: Page, n: nat) {
    forall q :: n <= q < |p| ==> Blank(p[q])
  }

  /** The first `n` slots are live. */
  ghost predicate LiveUpTo(p: Page, n: nat) {
    n <= |p| && forall q :: 0 <= q < n ==> IsLive(p[q])
  }

  /**
   The pages before `d` are full, the first `j` slots of page `d` are live, and no row is live from there up to slot
   `i` of page `s`, which is as far as the source cursor has come.
   */
  ghost predicate Between(ps: seq<Page>, d: nat, j: nat, s: nat, i: nat, len: nat)
    requires 0 < len < PAGE
  {
    && d <= s < |ps| && j <= Capacity(len) && i <= Slots(len) && (d == s ==> j <= i) && |ps[d]| == |ps[s]| == Slots(len)
    && forall k :: Look(k) ==> Swept(ps, d, j, s, i, len)
  }

  ghost predicate Swept(ps: seq<Page>, d: nat, j: nat, s: nat, i: nat, len: nat)
    requires 0 < len < PAGE && d < |ps|
  {
    && Cut(ps, len) && (forall b :: 0 <= b < d ==> LiveUpTo(ps[b], Capacity(len)))
    && LiveUpTo(ps[d], j) && DeadBetween(ps, d, j, s, i)
  }

  lemma {:induction false} Start(ps: seq<Page>, used: seq<nat>, len: nat)
    requires 0 < len < PAGE && Shaped(ps, used, len) && ps != []
    ensures Between(ps, 0, 0, 0, 0, len)
  {}

  /** A slot that is not live is passed over. */
  lemma {:induction false} PassDead(ps: seq<Page>, d: nat, j: nat, s: nat, i: nat, len: nat)
    requires 0 < len < PAGE && Between(ps, d, j, s, i, len) && i < Slots(len) && !IsLive(ps[s][i])
    ensures Between(ps, d, j, s, i + 1, len)
  {}

  /** A live row that already stands where it belongs stays. */
  lemma {:induction false} KeepRow(ps: seq<Page>, d: nat, i: nat, len: nat)
    requires 0 < len < PAGE && Between(ps, d, i, d, i, len) && i < Capacity(len) && i < Slots(len) && IsLive(ps[d][i])
    ensures Between(ps, d, i + 1, d, i + 1, len)
  {}

  lemma {:induction false} MovedSwept(ps: seq<Page>, d: nat, j: nat, s: nat, i: nat, len: nat)
    requires 0 < len < PAGE && d <= s < |ps| && Swept(ps, d, j, s, i, len)
    requires j < Capacity(len) <= Slots(len) && i < Slots(len) && IsLive(ps[s][i]) && (d == s ==> j < i)
    ensures Swept(Moved(ps, d, j, s, i), d, j + 1, s, i + 1, len)
  {}

  lemma {:induction false} MoveDown(ps: seq<Page>, d: nat, j: nat, s: nat, i: nat, len: nat)
    requires 0 < len < PAGE && Between(ps, d, j, s, i, len) && j < Capacity(len) && i < Slots(len) && IsLive(ps[s][i])
    requires d == s ==> j < i
    ensures j < Slots(len) && (d != s || j != i) && !IsLive(ps[d][j])
    ensures Between(Moved(ps, d, j, s, i), d, j + 1, s, i + 1, len)
    ensures LiveAll(Moved(ps, d, j, s, i)) == LiveAll(ps)
  {
    assert Look(0);
    CapacitySlots(len);
    MovedLive(ps, d, j, s, i);
    MovedSwept(ps, d, j, s, i, len);
  }

  /** Within one page the destination never fills up before the source is done. */
  lemma {:induction false} FullMeansAhead(ps: seq<Page>, d: nat, s: nat, i: nat, len: nat)
    requires 0 < len < PAGE && Between(ps, d, Capacity(len), s, i, len) && i < Slots(len) && IsLive(ps[s][i])
    ensures d < s
  {
    assert Look(0) && BlankFrom(ps[s], Capacity(len));
  }

  lemma {:induction false} NextSource(ps: seq<Page>, d: nat, j: nat, s: nat, len: nat)
    requires 0 < len < PAGE && Between(ps, d, j, s, Slots(len), len) && s + 1 < |ps|
    ensures Between(ps, d, j, s + 1, 0, len)
  {
    assert Look(0);
  }

  lemma {:induction false} NextDestination(ps: seq<Page>, d: nat, s: nat, i: nat, len: nat)
    requires 0 < len < PAGE && Between(ps, d, Capacity(len), s, i, len) && d < s
    ensures Between(ps, d + 1, 0, s, i, len)
  {
    assert Look(0);
  }

  // ---------------------------------------------------------------- counting

  lemma {:induction false} LiveCountExact(p: Page, n: nat)
    requires LiveUpTo(p, n) && forall q :: n <= q < |p| ==> !IsLive(p[q])
    ensures |Live(p)| == n
  {
    if n < |p| {
      LiveCountExact(p[..|p| - 1], n);
    } else if n > 0 {
      LiveCountExact(p[..n - 1], n - 1);
    }
  }

  lemma {:induction false} OneTimesMore(m: nat, n: nat)
    ensures (m + 1) * n == m * n + n
  {}

  lemma {:induction false} EvenPages(ps: seq<Page>, n: nat)
    requires forall b :: 0 <= b < |ps| ==> |Live(ps[b])| == n
    ensures |LiveAll(ps)| == |ps| * n
  {
    if ps != [] {
      var m := |ps| - 1;
      EvenPages(ps[..m], n);
      OneTimesMore(m, n);
    }
  }

  /** Full pages hold their capacity. */
  lemma {:induction false} FullPages(ps: seq<Page>, d: nat, len: nat)
    requires 0 < len < PAGE && Cut(ps, len) && d <= |ps| && forall b :: 0 <= b < d ==> LiveUpTo(ps[b], Capacity(len))
    ensures |LiveAll(ps[..d])| == d * Capacity(len)
  {
    forall b | 0 <= b < d ensures |Live(ps[..d][b])| == Capacity(len) {
      assert BlankFrom(ps[b], Capacity(len));
      LiveCountExact(ps[b], Capacity(len));
    }
    EvenPages(ps[..d], Capacity(len));
  }

  lemma {:induction false} MoreLive(ps: seq<Page>, d: nat, s: nat, i: nat)
    requires d <= s < |ps| && i < |ps[s]| && IsLive(ps[s][i])
    ensures |LiveAll(ps)| > |LiveAll(ps[..d])|
  {
    LiveAllAt(ps, s, ps[s]);
    LiveAt(ps[s], i, ps[s][i]);
    assert ps[..s] == ps[..d] + ps[d..s];
    LiveAllConcat(ps[..d], ps[d..s]);
  }

  /** How many rows `d` full pages hold. */
  ghost function FullRows(d: nat, len: nat): nat
    requires 0 < len
  {
    if d == 0 then 0 else FullRows(d - 1, len) + Capacity(len)
  }

  lemma {:induction false} FullRowsIs(d: nat, len: nat)
    requires 0 < len
    ensures FullRows(d, len) == d * Capacity(len)
  {
    if d > 0 {
      FullRowsIs(d - 1, len);
      OneTimesMore(d - 1, Capacity(len));
    }
  }

  /** When a page is full and another live row is waiting, the next page is due and will not stay empty. */
  lemma {:induction false} PageFull(ps: seq<Page>, d: nat, s: nat, i: nat, len: nat)
    requires 0 < len < PAGE && Between(ps, d, Capacity(len), s, i, len) && d < s && i < Slots(len) && IsLive(ps[s][i])
    ensures Between(ps, d + 1, 0, s, i, len) && |LiveAll(ps)| > FullRows(d + 1, len)
  {
    NextDestination(ps, d, s, i, len);
    assert Look(0);
    FullPages(ps, d + 1, len);
    FullRowsIs(d + 1, len);
    MoreLive(ps, d + 1, s, i);
  }

  // ---------------------------------------------------------------- the end

  /** The page with everything from slot `j` on blank. */
  ghost function Cleared(p: Page, j: nat): (r: Page)
    requires j <= |p|
    ensures |r| == |p|
  {
    p[..j] + BlankPage(|p| - j)
  }

  /** Rows that are not live can go. */
  lemma {:induction false} ClearedLive(p: Page, j: nat)
    requires LiveUpTo(p, j) && forall q :: j <= q < |p| ==> !IsLive(p[q])
    ensures Live(Cleared(p, j)) == Live(p)
  {
    LiveNone(p[j..]);
    LiveNone(BlankPage(|p| - j));
    assert p == p[..j] + p[j..];
    LiveConcat(p[..j], p[j..]);
    LiveConcat(p[..j], BlankPage(|p| - j));
  }

  lemma {:induction false} PageRefsConcat(a: Page, b: Page, q: nat)
    ensures PageRefs(a + b, q) == PageRefs(a, q) + PageRefs(b, q)
  {
    if b == [] {
      assert a + b == a;
    } else {
      assert (a + b)[..|a + b| - 1] == a + b[..|b| - 1];
      PageRefsConcat(a, b[..|b| - 1], q);
    }
  }

  lemma {:induction false} ClearedRefs(p: Page, j: nat, q: nat)
    requires j <= |p|
    ensures PageRefs(Cleared(p, j), q) == PageRefs(p, q) - PageRefs(p[j..], q)
  {
    assert p == p[..j] + p[j..];
    PageRefsConcat(p[..j], p[j..], q);
    PageRefsConcat(p[..j], BlankPage(|p| - j), q);
    PageRefsEmpty(BlankPage(|p| - j), q);
  }

  /** Full pages, then one whose taken slots come first, and nothing deleted. */
  ghost predicate Compact(ps: seq<Page>, d: nat, j: nat, len: nat)
    requires 0 < len < PAGE
  {
    && Cut(ps, len) && |ps| == d + 1 && j <= Capacity(len)
    && (forall b :: 0 <= b < d ==> LiveUpTo(ps[b], Capacity(len)))
    && LiveUpTo(ps[d], j) && BlankFrom(ps[d], j)
  }

  ghost function CompactUse(d: nat, j: nat, len: nat): (u: seq<nat>)
    requires 0 < len < PAGE
    ensures |u| == d + 1 && u[d] == j && forall b :: 0 <= b < d ==> u[b] == Capacity(len)
  {
    seq(d, _ => Capacity(len)) + [j]
  }

  lemma {:induction false} CompactShaped(ps: seq<Page>, d: nat, j: nat, len: nat)
    requires 0 < len < PAGE && Compact(ps, d, j, len)
    ensures Shaped(ps, CompactUse(d, j, len), len)
    ensures |LiveAll(ps)| == d * Capacity(len) + j
    ensures forall b, q :: 0 <= b < |ps| && 0 <= q < |ps[b]| ==> !ps[b][q].deleted
  {
    CapacitySlots(len);
    FullPages(ps, d, len);
    LiveCountExact(ps[d], j);
    forall b | 0 <= b < |ps| ensures Prefix(ps[b], CompactUse(d, j, len)[b]) {
      assert b < d ==> LiveUpTo(ps[b], Capacity(len)) && BlankFrom(ps[b], Capacity(len));
    }
  }

  /** As few pages as `rows` rows need when a page takes `cap` of them, but one page at least. */
  ghost predicate Least(pages: nat, rows: nat, cap: nat) {
    1 <= pages && rows <= pages * cap && (pages == 1 || (pages - 1) * cap < rows)
  }

  /** When the cursors have met the end, nothing after the destination is live. */
  lemma {:induction false} RestDead(ps: seq<Page>, d: nat, j: nat, len: nat)
    requires 0 < len < PAGE && ps != [] && Between(ps, d, j, |ps| - 1, Slots(len), len)
    ensures j <= |ps[d]| && LiveUpTo(ps[d], j) && forall q :: j <= q < |ps[d]| ==> !IsLive(ps[d][q])
    ensures forall b :: d < b < |ps| ==> Live(ps[b]) == []
    ensures Compact(ps[d := Cleared(ps[d], j)][..d + 1], d, j, len)
  {
    assert Look(0);
    forall b | d < b < |ps| ensures Live(ps[b]) == [] {
      LiveNone(ps[b]);
    }
  }

  lemma {:induction false} CompactLeast(ps: seq<Page>, d: nat, j: nat, len: nat)
    requires 0 < len < PAGE && Compact(ps, d, j, len) && (d == 0 || |LiveAll(ps)| > FullRows(d, len))
    ensures Least(d + 1, |LiveAll(ps)|, Capacity(len))
  {
    FullRowsIs(d, len);
    CompactShaped(ps, d, j, len);
    OneTimesMore(d, Capacity(len));
  }
}
