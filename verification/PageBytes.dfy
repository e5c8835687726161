/**
 Removing a column inside one page, byte by byte (src/primitive/column.c:170-209): two overlapping moves per row, the
 first inside the row, the second to the row's new place.
 */
module PageBytes {

  import opened Words
  import R = RowStore

  // ---------------------------------------------------------------- rows as stretches of bytes

  /** The bytes of row `i` in a page of rows of `len` bytes. */
  function Chunk(s: seq<Byte>, i: nat, len: nat): (c: seq<Byte>)
    requires i * len + len <= |s|
    ensures |c| == len
  {
    s[i * len..i * len + len]
  }

  /** A row's bytes without the `prec` bytes at `at`. */
  function Cut(row: seq<Byte>, at: nat, prec: nat): (c: seq<Byte>)
    requires at + prec <= |row|
    ensures |c| == |row| - prec
  {
    row[..at] + row[at + prec..]
  }

  /** The first `n` rows, each without the column, back to back. */
  ghost function Packed(s: seq<Byte>, n: nat, len: nat, at: nat, prec: nat): seq<Byte>
    requires n * len <= |s| && at + prec <= len
  {
    if n == 0 then [] else
      RowWithin(n - 1, n, len);
      Packed(s, n - 1, len, at, prec) + Cut(Chunk(s, n - 1, len), at, prec)
  }

  lemma {:induction false} RowWithin(i: nat, n: nat, len: nat)
    requires i < n
    ensures i * len + len <= n * len
  {
    assert n * len == i * len + (n - i) * len;
    assert (n - i) * len == len + (n - i - 1) * len;
  }

  lemma {:induction false} PackedLength(s: seq<Byte>, n: nat, len: nat, at: nat, prec: nat)
    requires n * len <= |s| && at + prec <= len
    ensures |Packed(s, n, len, at, prec)| == n * (len - prec)
  {
    if n > 0 {
      RowWithin(n - 1, n, len);
      PackedLength(s, n - 1, len, at, prec);
      R.NextFactor(n - 1, len - prec);
    }
  }

  /** The last row stands behind the others. */
  lemma {:induction false} PackedLast(s: seq<Byte>, n: nat, len: nat, at: nat, prec: nat)
    requires 0 < n && n * len <= |s| && at + prec <= len
    ensures (n - 1) * len + len <= |s| && |Packed(s, n - 1, len, at, prec)| == (n - 1) * (len - prec)
    ensures Packed(s, n, len, at, prec) == Packed(s, n - 1, len, at, prec) + Cut(Chunk(s, n - 1, len), at, prec)
  {
    RowWithin(n - 1, n, len);
    PackedLength(s, n - 1, len, at, prec);
  }

  /** Row `i` of the packed rows is row `i` of the page without the column. */
  lemma {:induction false} PackedChunk(s: seq<Byte>, n: nat, len: nat, at: nat, prec: nat, i: nat)
    requires n * len <= |s| && at + prec <= len && i < n
    ensures i * len + len <= |s| && i * (len - prec) + (len - prec) <= |Packed(s, n, len, at, prec)|
    ensures Chunk(Packed(s, n, len, at, prec), i, len - prec) == Cut(Chunk(s, i, len), at, prec)
  {
    PackedLast(s, n, len, at, prec);
    ghost var front, last := Packed(s, n - 1, len, at, prec), Cut(Chunk(s, n - 1, len), at, prec);
    if i < n - 1 {
      PackedChunk(s, n - 1, len, at, prec, i);
      FrontChunk(front, last, i, len - prec);
    } else {
      BackChunk(front, last, i, len - prec);
    }
  }

  lemma {:induction false} FrontChunk(a: seq<Byte>, b: seq<Byte>, i: nat, len: nat)
    requires i * len + len <= |a|
    ensures Chunk(a + b, i, len) == Chunk(a, i, len)
  {
    Front(a, b, i * len, len);
  }

  lemma {:induction false} BackChunk(a: seq<Byte>, b: seq<Byte>, i: nat, len: nat)
    requires |a| == i * len && |b| == len
    ensures Chunk(a + b, i, len) == b
  {
    Back(a, b, i * len);
  }

  lemma {:induction false} Back(a: seq<Byte>, b: seq<Byte>, n: nat)
    requires n == |a|
    ensures (a + b)[n..n + |b|] == b
  {}

  lemma {:induction false} Front(a: seq<Byte>, b: seq<Byte>, lo: nat, n: nat)
    requires lo + n <= |a|
    ensures (a + b)[lo..lo + n] == a[lo..lo + n]
  {}

  // ---------------------------------------------------------------- memmove and memset

  method MemMove(a: array<Byte>, dst: nat, src: nat, n: nat)
    requires dst + n <= a.Length && src + n <= a.Length
    modifies a
    ensures a[..] == old(a[..dst]) + old(a[src..src + n]) + old(a[dst + n..])
  {
    forall k | 0 <= k < n {
      a[dst + k] := a[src + k];
    }
  }

  method MemZero(a: array<Byte>, at: nat, n: nat)
    requires at + n <= a.Length
    modifies a
    ensures a[..] == old(a[..at]) + Zeros(n) + old(a[at + n..])
  {
    ghost var was := a[..];
    forall k | 0 <= k < n {
      a[at + k] := 0;
    }
    assert a[..at] == was[..at] && a[at..at + n] == Zeros(n) && a[at + n..] == was[at + n..];
  }

  // ---------------------------------------------------------------- one row

  /** The first move: what follows the column inside the row is pulled over it. */
  method PullOver(a: array<Byte>, row: nat, len: nat, at: nat, prec: nat)
    requires row + len <= a.Length && at + prec <= len
    modifies a
    ensures a[..row] == old(a[..row]) && a[row + len..] == old(a[row + len..])
    ensures a[row..row + (len - prec)] == Cut(old(a[row..row + len]), at, prec)
  {
    MemMove(a, row + at, row + at + prec, len - at - prec);
  }

  /** For a VARCHAR column: read the pointer, free what it points to, zero it. */
  method TakePointer(a: array<Byte>, at: nat, prec: nat) returns (ptr: seq<Byte>)
    requires at + prec <= a.Length
    modifies a
    ensures ptr == old(a[at..at + prec]) && a[..at] == old(a[..at]) && a[at + prec..] == old(a[at + prec..])
  {
    ptr := a[at..at + prec];
    MemZero(a, at, prec);
  }

  /** The freeing of what a VARCHAR column points to. What is left in the column does not matter to the row without it. */
  method FreeColumn(a: array<Byte>, row: nat, len: nat, at: nat, prec: nat, isVar: bool) returns (freed: seq<seq<Byte>>)
    requires row + len <= a.Length && at + prec <= len
    modifies a
    ensures a[..row] == old(a[..row]) && a[row + len..] == old(a[row + len..])
    ensures Cut(a[row..row + len], at, prec) == Cut(old(a[row..row + len]), at, prec)
    ensures freed == if isVar then [old(a[row + at..row + at + prec])] else []
  {
    freed := [];
    if isVar {
      ghost var was := a[..];
      var p := TakePointer(a, row + at, prec);
      freed := [p];
      SameCut(was, a[..], row, len, at, prec);
    }
  }

  /** Both moves for the row at `row`; `blk` is where it goes. Nothing after the row is touched. */
  method RemoveFromRow(a: array<Byte>, blk: nat, row: nat, len: nat, at: nat, prec: nat, isVar: bool)
    returns (freed: seq<seq<Byte>>)
    requires blk <= row && row + len <= a.Length && at + prec <= len
    modifies a
    ensures a[..blk] == old(a[..blk]) && a[row + len..] == old(a[row + len..])
    ensures a[blk..blk + (len - prec)] == Cut(old(a[row..row + len]), at, prec)
    ensures freed == if isVar then [old(a[row + at..row + at + prec])] else []
  {
    ghost var was := a[..];
    freed := FreeColumn(a, row, len, at, prec, isVar);
    PullOver(a, row, len, at, prec);
    ShorterFront(a[..], was, row, blk);
    MoveDown(a, blk, row, len - prec, len);
  }

  /** The second move: nothing before its new place and nothing after the old row changes. */
  method MoveDown(a: array<Byte>, blk: nat, row: nat, n: nat, ghost len: nat)
    requires blk <= row && n <= len && row + len <= a.Length
    modifies a
    ensures a[..blk] == old(a[..blk]) && a[row + len..] == old(a[row + len..]) && a[blk..blk + n] == old(a[row..row + n])
  {
    ghost var s := a[..];
    MemMove(a, blk, row, n);
    assert a[blk + n..] == s[blk + n..];
    assert a[row + len..] == a[blk + n..][row + len - blk - n..] && s[row + len..] == s[blk + n..][row + len - blk - n..];
  }

  /** What stands in the column itself does not matter. */
  lemma {:induction false} SameCut(s: seq<Byte>, t: seq<Byte>, row: nat, len: nat, at: nat, prec: nat)
    requires row + len <= |s| == |t| && at + prec <= len
    requires t[..row + at] == s[..row + at] && t[row + at + prec..] == s[row + at + prec..]
    ensures Cut(t[row..row + len], at, prec) == Cut(s[row..row + len], at, prec)
    ensures t[..row] == s[..row] && t[row + len..] == s[row + len..]
  {
    assert t[..row] == t[..row + at][..row] && s[..row] == s[..row + at][..row];
    assert t[row..row + len][..at] == t[..row + at][row..] && s[row..row + len][..at] == s[..row + at][row..];
    var n := len - at - prec;
    assert t[row..row + len][at + prec..] == t[row + at + prec..][..n];
    assert s[row..row + len][at + prec..] == s[row + at + prec..][..n];
    assert t[row + len..] == t[row + at + prec..][n..] && s[row + len..] == s[row + at + prec..][n..];
  }

  // ---------------------------------------------------------------- one page

  /** The rows of the page stand in its first `n` slots: their `empty` flags, and only theirs, are clear. */
  ghost predicate Taken(s: seq<Byte>, n: nat, len: nat)
    requires R.HEADER <= len && |s| == R.PAGE
  {
    && n * len <= R.PAGE && n <= R.PAGE / len
    && (forall i :: 0 <= i < n ==> RowFlag(s, i, len) == 0)
    && (n < R.PAGE / len ==> RowFlag(s, n, len) != 0)
  }

  /** The first byte of slot `i`. */
  ghost function RowFlag(s: seq<Byte>, i: nat, len: nat): Byte
    requires |s| == R.PAGE
  {
    if i * len < R.PAGE then s[i * len] else 0
  }

  /** The pointers of a VARCHAR column, row by row. */
  ghost function Pointers(s: seq<Byte>, n: nat, len: nat, at: nat, prec: nat): seq<seq<Byte>>
    requires n * len <= |s| && at + prec <= len
  {
    if n == 0 then [] else
      RowWithin(n - 1, n, len);
      Pointers(s, n - 1, len, at, prec) + [Chunk(s, n - 1, len)[at..at + prec]]
  }

  ghost function Freed(s: seq<Byte>, n: nat, len: nat, at: nat, prec: nat, isVar: bool): seq<seq<Byte>>
  {
    if isVar && n * len <= |s| && at + prec <= len then Pointers(s, n, len, at, prec) else []
  }

  /** `t` is the page `was` after its first `i` rows have been packed; from row `i` on nothing has changed. */
  ghost predicate HalfPacked(t: seq<Byte>, was: seq<Byte>, i: nat, row: nat, blk: nat, len: nat, at: nat, prec: nat)
    requires at + prec <= len
  {
    && |t| == |was| && i * len == row <= |was| && i * (len - prec) == blk <= row
    && t[..blk] == Packed(was, i, len, at, prec) && t[row..] == was[row..]
  }

  lemma {:induction false} PackStep(t: seq<Byte>, u: seq<Byte>, was: seq<Byte>, i: nat, row: nat, blk: nat,
      len: nat, at: nat, prec: nat)
    requires at + prec <= len && HalfPacked(t, was, i, row, blk, len, at, prec) && |u| == |t| && row + len <= |t|
    requires u[..blk] == t[..blk] && u[row + len..] == t[row + len..]
    requires u[blk..blk + (len - prec)] == Cut(t[row..row + len], at, prec)
    ensures HalfPacked(u, was, i + 1, row + len, blk + (len - prec), len, at, prec)
    ensures t[row..row + len] == Chunk(was, i, len)
  {
    NextMultiple(i, len);
    NextMultiple(i, len - prec);
    RestSlice(t, was, row, len);
    JoinSlices(u, blk, len - prec);
  }

  lemma {:induction false} NextMultiple(i: nat, len: nat)
    ensures (i + 1) * len == i * len + len
  {}

  lemma {:induction false} SlotFits(i: nat, len: nat)
    requires 0 < len && i < R.PAGE / len
    ensures i * len + len <= R.PAGE
  {
    RowWithin(i, R.PAGE / len, len);
  }

  lemma {:induction false} FreedStep(t: seq<Byte>, was: seq<Byte>, i: nat, row: nat, len: nat, at: nat, prec: nat,
      isVar: bool)
    requires at + prec <= len && row == i * len && row + len <= |was| == |t| && t[row..row + len] == Chunk(was, i, len)
    ensures (i + 1) * len <= |was|
    ensures Freed(was, i + 1, len, at, prec, isVar)
            == Freed(was, i, len, at, prec, isVar) + if isVar then [t[row + at..row + at + prec]] else []
  {
    NextMultiple(i, len);
    SubSlice(t, row, len, at, prec);
  }

  /** One row is packed. */
  method PackOne(a: array<Byte>, blk: nat, row: nat, len: nat, at: nat, prec: nat, isVar: bool, ghost was: seq<Byte>, ghost i: nat)
    returns (ptr: seq<seq<Byte>>)
    requires at + prec <= len && HalfPacked(a[..], was, i, row, blk, len, at, prec) && row + len <= a.Length
    modifies a
    ensures HalfPacked(a[..], was, i + 1, row + len, blk + (len - prec), len, at, prec)
    ensures Freed(was, i + 1, len, at, prec, isVar) == Freed(was, i, len, at, prec, isVar) + ptr
  {
    ghost var t := a[..];
    ptr := RemoveFromRow(a, blk, row, len, at, prec, isVar);
    PackStep(t, a[..], was, i, row, blk, len, at, prec);
    FreedStep(t, was, i, row, len, at, prec, isVar);
  }

  /** The moves of one page. Every row is read before anything is written over it. */
  method PackRows(a: array<Byte>, len: nat, at: nat, prec: nat, isVar: bool, ghost n: nat)
    returns (taken: nat, blk: nat, freed: seq<seq<Byte>>)
    requires a.Length == R.PAGE && at + prec <= len && R.HEADER <= len && Taken(a[..], n, len)
    modifies a
    ensures taken == n && HalfPacked(a[..], old(a[..]), n, n * len, blk, len, at, prec)
    ensures freed == Freed(old(a[..]), n, len, at, prec, isVar)
  {
    ghost var was := a[..];
    var i: nat, row: nat := 0, 0;
    blk, freed := 0, [];
    while i < R.PAGE / len
      invariant 0 <= i <= n && HalfPacked(a[..], was, i, row, blk, len, at, prec)
      invariant freed == Freed(was, i, len, at, prec, isVar)
    {
      SlotFits(i, len);
      FlagHere(a[..], was, i, row, blk, len, at, prec, n);
      if a[row] != 0 {
        break;
      }
      var ptr := PackOne(a, blk, row, len, at, prec, isVar, was, i);
      i, row, blk, freed := i + 1, row + len, blk + (len - prec), freed + ptr;
    }
    taken := i;
  }

  /** The flag that is tested is the one the row had at the start. */
  lemma {:induction false} FlagHere(t: seq<Byte>, was: seq<Byte>, i: nat, row: nat, blk: nat, len: nat, at: nat, prec: nat,
      n: nat)
    requires at + prec <= len && R.HEADER <= len && HalfPacked(t, was, i, row, blk, len, at, prec)
    requires |was| == R.PAGE && Taken(was, n, len) && i <= n && i < R.PAGE / len && row + len <= R.PAGE
    ensures t[row] != 0 <==> i == n
  {
    assert t[row] == t[row..][0] == was[row..][0] == RowFlag(was, i, len);
  }

  // ---------------------------------------------------------------- the tail of the page

  /** A slot that holds nothing: the `empty` flag and zeros. */
  function EmptySlot(len: nat): (c: seq<Byte>)
    requires 0 < len
    ensures |c| == len
  {
    [1 as Byte] + Zeros(len - 1)
  }

  method MarkSlot(a: array<Byte>, p: nat, len: nat)
    requires R.HEADER <= len && p + len <= a.Length && a[p..] == Zeros(a.Length - p)
    modifies a
    ensures a[..p] == old(a[..p]) && a[p..p + len] == EmptySlot(len) && a[p + len..] == Zeros(a.Length - p - len)
  {
    assert a[p + len..] == a[p..][len..] && a[p..p + len] == a[p..][..len];
    a[p + 1] := 0;
    a[p] := 1;
  }

  /** Slots `n` up to `j` hold nothing. */
  ghost predicate EmptyFrom(s: seq<Byte>, n: nat, j: nat, len: nat)
    requires 0 < len
  {
    forall k :: n <= k < j ==> IsEmptySlot(s, k, len)
  }

  ghost predicate IsEmptySlot(s: seq<Byte>, k: nat, len: nat)
    requires 0 < len
  {
    k * len + len <= |s| && Chunk(s, k, len) == EmptySlot(len)
  }

  lemma {:induction false} EmptyKept(s: seq<Byte>, t: seq<Byte>, n: nat, j: nat, p: nat, len: nat)
    requires 0 < len && EmptyFrom(s, n, j, len) && p == j * len && p + len <= |t| == |s| && t[..p] == s[..p]
    requires t[p..p + len] == EmptySlot(len)
    ensures EmptyFrom(t, n, j + 1, len) && (j + 1) * len == p + len
  {
    NextMultiple(j, len);
    forall k | n <= k < j + 1 ensures IsEmptySlot(t, k, len) {
      if k < j {
        assert IsEmptySlot(s, k, len);
        RowWithin(k, j, len);
        SliceFront(s, t, p, k * len, len);
      }
    }
  }

  /** The loop that flags the slots after the last row as empty. */
  method MarkEmpty(a: array<Byte>, blk: nat, len: nat, ghost n: nat)
    requires a.Length == R.PAGE && R.HEADER <= len && blk == n * len <= R.PAGE && n <= R.PAGE / len
    requires a[blk..] == Zeros(R.PAGE - blk)
    modifies a
    ensures a[..blk] == old(a[..blk]) && EmptyFrom(a[..], n, R.PAGE / len, len)
  {
    ghost var front := a[..blk];
    DivideBack(n, len);
    var j: nat, p: nat := blk / len, blk;
    while j < R.PAGE / len
      invariant n <= j <= R.PAGE / len && p == j * len && blk <= p <= R.PAGE
      invariant a[..blk] == front && EmptyFrom(a[..], n, j, len) && a[p..] == Zeros(R.PAGE - p)
    {
      SlotFits(j, len);
      ghost var s := a[..];
      MarkSlot(a, p, len);
      EmptyKept(s, a[..], n, j, p, len);
      assert a[..blk] == a[..p][..blk] == s[..p][..blk];
      j, p := j + 1, p + len;
    }
  }

  lemma {:induction false} DivideBack(n: nat, len: nat)
    requires 0 < len
    ensures n * len / len == n
  {
    var q := n * len / len;
    assert q * len <= n * len < q * len + len;
    if q < n {
      RowWithin(q, n, len);
    }
    if n < q {
      RowWithin(n, q, len);
    }
  }

  // ---------------------------------------------------------------- the result

  /** Row `i` of `t` is row `i` of `s` without the column. */
  ghost predicate RowNarrowed(t: seq<Byte>, s: seq<Byte>, i: nat, len: nat, at: nat, prec: nat)
    requires at + prec <= len
  {
    && i * len + len <= |s| && i * (len - prec) + (len - prec) <= |t|
    && Chunk(t, i, len - prec) == Cut(Chunk(s, i, len), at, prec)
  }

  lemma {:induction false} PackedNarrowed(t: seq<Byte>, s: seq<Byte>, n: nat, len: nat, at: nat, prec: nat)
    requires at + prec <= len && n * len <= |s| && n * (len - prec) <= |t|
    requires t[..n * (len - prec)] == Packed(s, n, len, at, prec)
    ensures forall i :: 0 <= i < n ==> RowNarrowed(t, s, i, len, at, prec)
  {
    PackedLength(s, n, len, at, prec);
    var p := Packed(s, n, len, at, prec);
    FrontNarrowed(t, p, s, n, len, at, prec);
  }

  lemma {:induction false} FrontNarrowed(t: seq<Byte>, p: seq<Byte>, s: seq<Byte>, n: nat, len: nat, at: nat, prec: nat)
    requires at + prec <= len && n * len <= |s| && p == Packed(s, n, len, at, prec) && |p| <= |t| && t[..|p|] == p
    ensures forall i :: 0 <= i < n ==> RowNarrowed(t, s, i, len, at, prec)
  {
    forall i: nat | i < n ensures RowNarrowed(t, s, i, len, at, prec) {
      PackedRow(s, n, len, at, prec, i);
      RowOfFront(t, p, s, i, len, at, prec);
    }
  }

  lemma {:induction false} PackedRow(s: seq<Byte>, n: nat, len: nat, at: nat, prec: nat, i: nat)
    requires at + prec <= len && n * len <= |s| && i < n
    ensures RowNarrowed(Packed(s, n, len, at, prec), s, i, len, at, prec)
  {
    PackedChunk(s, n, len, at, prec, i);
  }

  lemma {:induction false} RowOfFront(t: seq<Byte>, p: seq<Byte>, s: seq<Byte>, i: nat, len: nat, at: nat, prec: nat)
    requires at + prec <= len && |p| <= |t| && t[..|p|] == p && RowNarrowed(p, s, i, len, at, prec)
    ensures RowNarrowed(t, s, i, len, at, prec)
  {
    ChunkOfFront(t, p, |p|, i, len - prec);
  }

  lemma {:induction false} ChunkOfFront(t: seq<Byte>, p: seq<Byte>, size: nat, i: nat, m: nat)
    requires size <= |t| && t[..size] == p && i * m + m <= |p|
    ensures i * m + m <= |t| && Chunk(t, i, m) == Chunk(p, i, m)
  {
    var lo := i * m;
    assert t[lo..lo + m] == t[..size][lo..lo + m];
  }

  lemma {:induction false} MoreSlots(len: nat, m: nat, n: nat)
    requires 0 < m <= len && n <= R.PAGE / len
    ensures n <= R.PAGE / m && n * m <= n * len <= R.PAGE
  {
    RowsWithin(n, len);
    Smaller(n, m, len);
    EnoughSlots(n, m);
  }

  lemma {:induction false} RowsWithin(n: nat, len: nat)
    requires 0 < len && n <= R.PAGE / len
    ensures n * len <= R.PAGE
  {
    if n > 0 {
      SlotFits(n - 1, len);
      NextMultiple(n - 1, len);
    }
  }

  lemma {:induction false} Smaller(n: nat, m: nat, len: nat)
    requires m <= len
    ensures n * m <= n * len
  {}

  lemma {:induction false} EnoughSlots(n: nat, m: nat)
    requires 0 < m && n * m <= R.PAGE
    ensures n <= R.PAGE / m
  {
    var y := R.PAGE / m;
    assert R.PAGE < y * m + m;
    if n > y {
      RowWithin(y, n, m);
    }
  }

  /** Flags travel with their rows. */
  /** The flag of a slot is its first byte. */
  lemma {:induction false} FlagOf(s: seq<Byte>, i: nat, len: nat)
    requires 0 < len && |s| == R.PAGE && i * len + len <= |s|
    ensures RowFlag(s, i, len) == Chunk(s, i, len)[0]
  {}

  lemma {:induction false} StillTaken(t: seq<Byte>, s: seq<Byte>, n: nat, len: nat, at: nat, prec: nat)
    requires R.HEADER <= at && at + prec <= len && R.HEADER <= len - prec && |t| == |s| == R.PAGE && Taken(s, n, len)
    requires n * (len - prec) <= R.PAGE && n <= R.PAGE / (len - prec)
    requires forall i :: 0 <= i < n ==> RowNarrowed(t, s, i, len, at, prec)
    requires EmptyFrom(t, n, R.PAGE / (len - prec), len - prec)
    ensures Taken(t, n, len - prec)
  {
    var m := len - prec;
    forall i: nat | i < n ensures RowFlag(t, i, m) == 0 {
      assert RowNarrowed(t, s, i, len, at, prec);
      FlagOf(t, i, m);
      FlagOf(s, i, len);
    }
    if n < R.PAGE / m {
      assert IsEmptySlot(t, n, m);
      FlagOf(t, n, m);
    }
  }

  /** The `n` rows of page `was` without the column, packed, and every slot after them empty. */
  ghost predicate ColumnGone(t: seq<Byte>, was: seq<Byte>, n: nat, len: nat, at: nat, prec: nat)
    requires at + prec <= len && R.HEADER <= len - prec && |t| == R.PAGE
  {
    && (forall i :: 0 <= i < n ==> RowNarrowed(t, was, i, len, at, prec))
    && EmptyFrom(t, n, R.PAGE / (len - prec), len - prec) && Taken(t, n, len - prec)
  }

  /**
   datablock_rem_column on one page: the rows keep their order and every byte outside the column, the freed pointers are
   the ones the rows held, and the rest of the page is empty slots.
   */
  method RemoveColumn(a: array<Byte>, len: nat, at: nat, prec: nat, isVar: bool, ghost n: nat)
    returns (taken: nat, blk: nat, freed: seq<seq<Byte>>)
    requires a.Length == R.PAGE && R.HEADER <= at && at + prec <= len && R.HEADER <= len - prec && Taken(a[..], n, len)
    modifies a
    ensures taken == n && blk == n * (len - prec)
    ensures ColumnGone(a[..], old(a[..]), n, len, at, prec)
    ensures n * len <= R.PAGE && freed == Freed(old(a[..]), n, len, at, prec, isVar)
  {
    ghost var was := a[..];
    MoreSlots(len, len - prec, n);
    taken, blk, freed := PackRows(a, len, at, prec, isVar, n);
    ghost var front := a[..blk];
    MemZero(a, blk, R.PAGE - blk);
    assert a[..blk] == front && a[blk..] == Zeros(R.PAGE - blk);
    MarkEmpty(a, blk, len - prec, n);
    PackedNarrowed(a[..], was, n, len, at, prec);
    StillTaken(a[..], was, n, len, at, prec);
  }

  /** What ADD COLUMN makes of a row: the old bytes, then zeros, in a slot that was zeroed. */
  method WidenSlot(dst: array<Byte>, to: nat, row: seq<Byte>, prec: nat)
    requires R.HEADER <= |row| && to + |row| + prec <= dst.Length
    requires dst[to..to + |row| + prec] == EmptySlot(|row| + prec)
    modifies dst
    ensures dst[..to] == old(dst[..to]) && dst[to..to + |row| + prec] == row + Zeros(prec)
    ensures dst[to + |row| + prec..] == old(dst[to + |row| + prec..])
  {
    ghost var was := dst[to..to + |row| + prec];
    assert was[|row|..] == dst[to + |row|..to + |row| + prec];
    forall k | 0 <= k < |row| {
      dst[to + k] := row[k];
    }
    assert dst[to + |row|..to + |row| + prec] == was[|row|..] == Zeros(prec);
  }

  /** Removing the column that was just added gives each row its bytes back. */
  lemma {:induction false} CutWidened(row: seq<Byte>, prec: nat)
    ensures Cut(row + Zeros(prec), |row|, prec) == row
  {}
}
