/** Passes over a table in scan order that mark the rows they do not want as deleted. */
module Sieve {
  import opened Folding
  import opened RowStore
  import opened ColumnSpec
  import opened TableStore

  /** What a pass judges by: the rows it started with and which of them it wants. */
  datatype Pass = Pass(was: seq<Record>, keep: Record -> bool)

  // ---------------------------------------------------------------- positions in scan order

  /** How many live rows the pages before `b` hold. */
  ghost function LiveBelow(ps: seq<Page>, b: nat): nat
    requires b <= |ps|
  {
    if b == 0 then 0 else LiveBelow(ps, b - 1) + |Live(ps[b - 1])|
  }

  /** How many live rows a scan has met before slot `i` of page `b`. */
  ghost function Seen(ps: seq<Page>, b: nat, i: nat): nat
    requires b < |ps| && i <= |ps[b]|
  {
    if i == 0 then LiveBelow(ps, b) else Seen(ps, b, i - 1) + if IsLive(ps[b][i - 1]) then 1 else 0
  }

  lemma {:induction false} LiveBelowIs(ps: seq<Page>, b: nat)
    requires b <= |ps|
    ensures LiveBelow(ps, b) == |LiveAll(ps[..b])|
  {
    if b > 0 {
      LiveBelowIs(ps, b - 1);
      LiveAllStep(ps, b - 1);
    }
  }

  lemma {:induction false} SeenIs(ps: seq<Page>, b: nat, i: nat)
    requires b < |ps| && i <= |ps[b]|
    ensures Seen(ps, b, i) == |LiveAll(ps[..b])| + |Live(ps[b][..i])|
  {
    if i == 0 {
      LiveBelowIs(ps, b);
    } else {
      SeenIs(ps, b, i - 1);
      LiveStep(ps[b], i - 1);
    }
  }

  /** At the first empty slot the scan has met all of the page. */
  lemma {:induction false} PageSeen(ps: seq<Page>, b: nat, n: nat)
    requires b < |ps| && Prefix(ps[b], n)
    ensures Seen(ps, b, n) == LiveBelow(ps, b + 1)
  {
    SeenIs(ps, b, n);
    LiveBelowIs(ps, b);
    PrefixOnly(ps[b], n);
  }

  lemma {:induction false} AllSeen(ps: seq<Page>)
    ensures LiveBelow(ps, |ps|) == |LiveAll(ps)|
  {
    LiveBelowIs(ps, |ps|);
    assert ps[..|ps|] == ps;
  }

  function ReadRow(r: Row, heap: map<nat, string>): Record {
    Record(r.nulls, ReadAll(r.cells, heap))
  }

  /** The live row in a slot is the one at its position among all live rows. */
  lemma {:induction false} RowAt(ps: seq<Page>, b: nat, i: nat, heap: map<nat, string>)
    requires b < |ps| && i < |ps[b]| && IsLive(ps[b][i])
    ensures Seen(ps, b, i) < |LiveAll(ps)|
    ensures Records(LiveAll(ps), heap)[Seen(ps, b, i)] == ReadRow(ps[b][i], heap)
  {
    SeenIs(ps, b, i);
    LiveSet(ps, b, i, ps[b][i]);
  }

  // ---------------------------------------------------------------- a pass half done

  /** The rows wanted, in their order. */
  ghost function Wanted(keep: Record -> bool, rs: seq<Record>): seq<Record> {
    if rs == [] then [] else Wanted(keep, rs[..|rs| - 1]) + if keep(rs[|rs| - 1]) then [rs[|rs| - 1]] else []
  }

  /** The pass has looked at the first `y` rows of `was` and left `done` of them; folded. */
  ghost predicate Filtered(t: Table, keep: Record -> bool, was: seq<Record>, y: nat, done: seq<Record>)
    reads t
  {
    forall i :: Look(i) ==> FilteredNow(t, keep, was, y, done)
  }

  ghost predicate FilteredNow(t: Table, keep: Record -> bool, was: seq<Record>, y: nat, done: seq<Record>)
    reads t
  {
    t.Valid() && Halfway(keep, was, y, done, t.Contents())
  }

  /** `now` is `was` with its first `y` rows sieved down to `done`. */
  ghost predicate Halfway(keep: Record -> bool, was: seq<Record>, y: nat, done: seq<Record>, now: seq<Record>) {
    y <= |was| && now == done + was[y..] && done == Wanted(keep, was[..y])
  }

  lemma {:induction false} NextRow(keep: Record -> bool, was: seq<Record>, y: nat, done: seq<Record>, now: seq<Record>)
    requires Halfway(keep, was, y, done, now) && |done| < |now|
    ensures y < |was| && now[|done|] == was[y]
    ensures keep(was[y]) ==> Halfway(keep, was, y + 1, done + [was[y]], now)
    ensures !keep(was[y]) ==> Halfway(keep, was, y + 1, done, Except(now, |done|))
  {
    assert was[..y + 1][..y] == was[..y];
    assert was[y..] == [was[y]] + was[y + 1..];
    assert done + was[y..] == done + [was[y]] + was[y + 1..];
    assert Except(now, |done|) == done + was[y + 1..];
  }

  /** Slots before `i` of page `b` count the same in both. */
  lemma {:induction false} SeenSame(ps: seq<Page>, qs: seq<Page>, b: nat, i: nat)
    requires b < |ps| == |qs| && ps[..b] == qs[..b] && i <= |ps[b]| && i <= |qs[b]| && ps[b][..i] == qs[b][..i]
    ensures Seen(ps, b, i) == Seen(qs, b, i)
  {
    SeenIs(ps, b, i);
    SeenIs(qs, b, i);
  }

  /** The same slots are empty in both. */
  ghost predicate SameTaken(ps: seq<Page>, qs: seq<Page>) {
    && |ps| == |qs| && forall b :: 0 <= b < |ps| ==> SameEmpty(ps[b], qs[b])
  }

  ghost predicate SameEmpty(p: Page, q: Page) {
    |p| == |q| && forall i :: 0 <= i < |p| ==> p[i].empty == q[i].empty
  }

  /** The offset of a slot. */
  method OffsetOf(i: nat, len: nat) returns (offset: nat)
    requires 0 < len && i < Slots(len)
    ensures offset < PAGE && offset / len == i && offset % len == 0
  {
    SlotOfOffset(i, len);
    MulMonotone(i + 1, Slots(len), len);
    offset := i * len;
    assert offset == offset / len * len + offset % len;
  }

  /** Deleting the row in a slot by its offset. */
  method DeleteAt(t: Table, b: nat, i: nat)
    requires t.Valid() && b < |t.blocks| && i < |t.blocks[b]| && IsLive(t.blocks[b][i])
    modifies t`blocks
    ensures t.Valid() && t.blocks == SetSlot(old(t.blocks), b, i, old(t.blocks)[b][i].(deleted := true))
    ensures Seen(old(t.blocks), b, i) < |old(t.Contents())|
    ensures t.Contents() == Except(old(t.Contents()), Seen(old(t.blocks), b, i))
  {
    SeenIs(t.blocks, b, i);
    var offset := OffsetOf(i, RowSize(t.columns));
    var ok := t.DeleteRow(b, offset);
  }

  /** Nothing but the slot's `deleted` flag may differ. */
  ghost predicate Marked(ps: seq<Page>, qs: seq<Page>, b: nat, i: nat, gone: bool)
    requires b < |ps| && i < |ps[b]|
  {
    qs == if gone then SetSlot(ps, b, i, ps[b][i].(deleted := true)) else ps
  }

  lemma {:induction false} MarkedSeen(ps: seq<Page>, qs: seq<Page>, b: nat, i: nat, gone: bool)
    requires b < |ps| && i < |ps[b]| && IsLive(ps[b][i]) && Marked(ps, qs, b, i, gone)
    ensures SameTaken(ps, qs) && i + 1 <= |qs[b]| && Seen(qs, b, i + 1) == Seen(ps, b, i) + if gone then 0 else 1
  {
    assert qs[..b] == ps[..b] && qs[b][..i] == ps[b][..i];
    SeenSame(ps, qs, b, i);
  }

  lemma {:induction false} FilteredPages(t: Table, keep: Record -> bool, was: seq<Record>, y: nat, done: seq<Record>)
    requires Filtered(t, keep, was, y, done)
    ensures Filled(t.blocks, t.used)
  {
    assert Look(0);
  }

  /** When the pass has met every live row, what is left is what was wanted. */
  lemma {:induction false} FilteredAll(t: Table, keep: Record -> bool, was: seq<Record>, y: nat, done: seq<Record>)
    requires Filtered(t, keep, was, y, done) && LiveBelow(t.blocks, |t.blocks|) == |done|
    ensures t.Valid() && t.Contents() == Wanted(keep, was) && y == |was| && done == Wanted(keep, was)
  {
    assert Look(0);
    AllSeen(t.blocks);
    assert |done + was[y..]| == |done|;
    assert was[y..] == [] && was[..y] == was && done + [] == done;
  }

  lemma {:induction false} FilteredStart(t: Table, keep: Record -> bool)
    requires t.Valid()
    ensures Filtered(t, keep, t.Contents(), 0, [])
  {
    var was := t.Contents();
    assert was[..0] == [] && [] + was[0..] == was;
  }

  // ---------------------------------------------------------------- one row of a pass

  /** Acting on the verdict for a live row: it stays or is marked deleted. */
  method Settle(t: Table, ghost keep: Record -> bool, b: nat, i: nat, stays: bool, ghost was: seq<Record>, ghost y: nat,
      ghost done: seq<Record>) returns (ghost done': seq<Record>)
    requires Filtered(t, keep, was, y, done) && b < |t.blocks| && i < |t.blocks[b]| && IsLive(t.blocks[b][i])
    requires Seen(t.blocks, b, i) == |done| && stays == keep(ReadRow(t.blocks[b][i], t.heap))
    modifies t`blocks
    ensures Filtered(t, keep, was, y + 1, done') && SameTaken(old(t.blocks), t.blocks)
    ensures b < |t.blocks| && i < |t.blocks[b]| && Seen(t.blocks, b, i + 1) == |done'|
    ensures |done'| == |done| + if stays then 1 else 0
  {
    assert Look(0);
    ghost var row := ReadRow(t.blocks[b][i], t.heap);
    RowAt(t.blocks, b, i, t.heap);
    NextRow(keep, was, y, done, t.Contents());
    done' := if stays then done + [row] else done;
    if !stays {
      DeleteAt(t, b, i);
    }
    MarkedSeen(old(t.blocks), t.blocks, b, i, !stays);
  }

  lemma {:induction false} WholePageSeen(ps: seq<Page>, b: nat)
    requires b < |ps|
    ensures Seen(ps, b, |ps[b]|) == LiveBelow(ps, b + 1)
  {
    SeenIs(ps, b, |ps[b]|);
    LiveBelowIs(ps, b);
    assert ps[b][..|ps[b]|] == ps[b];
  }
}
