/** hashtable_str_hash and hashtable_str_compare on NUL-terminated keys. */
module StringKeys {
  import opened Wrappers
  import opened HashSpec
  import opened Ints
  import HashTables

  /** A C char: signed, eight bits. */
  type Bytes = seq<int>

  /** The part of a buffer that strcmp looks at. */
  function CString(b: Bytes): (s: Bytes)
    ensures |s| <= |b| && s == b[..|s|] && (forall i :: 0 <= i < |s| ==> s[i] != 0) && (|s| < |b| ==> b[|s|] == 0)
  {
    if b == [] || b[0] == 0 then [] else [b[0]] + CString(b[1..])
  }

  /** hash * 33 + c on a 64-bit unsigned word, over the whole length of the key. */
  function HashFrom(h: nat, b: Bytes): (r: nat)
    ensures b != [] ==> r < WORD
  {
    if b == [] then h else (HashFrom(h, b[..|b| - 1]) * 33 + b[|b| - 1]) % WORD
  }

  function StrHash(b: Bytes): nat {
    HashFrom(5381, b)
  }

  function StrCompare(a: Bytes, b: Bytes): bool {
    CString(a) == CString(b)
  }

  /** The loop of hashtable_str_hash, shifts and wrap-around included. */
  method ComputeStrHash(key: Bytes) returns (hash: nat)
    ensures hash == StrHash(key)
  {
    hash := 5381;
    var i := 0;
    assert key[..0] == [] && key[..|key|] == key;
    while i < |key|
      invariant 0 <= i <= |key| && hash == HashFrom(5381, key[..i])
    {
      assert key[..i + 1][..i] == key[..i];
      var shifted := hash * 32 % WORD;
      Wraps(hash, key[i]);
      hash := ((shifted + hash) % WORD + key[i]) % WORD;
      i := i + 1;
    }
  }

  /** Wrapping after every step is wrapping once. */
  lemma {:induction false} Wraps(h: int, c: int)
    ensures ((h * 32 % WORD + h) % WORD + c) % WORD == (h * 33 + c) % WORD
  {
    var a := h * 32 / WORD;
    var x := h * 32 % WORD + h;
    assert h * 32 == a * WORD + h * 32 % WORD;
    var b := x / WORD;
    assert x == b * WORD + x % WORD;
  }

  /** Keys that callers pass: the terminator is the last byte and the only NUL. */
  predicate Terminated(b: Bytes) {
    b != [] && b[|b| - 1] == 0 && forall i :: 0 <= i < |b| - 1 ==> b[i] != 0
  }

  type Key = b: Bytes | Terminated(b) witness [0]

  lemma {:induction false} WholeKey(b: Bytes)
    requires Terminated(b)
    ensures CString(b) == b[..|b| - 1]
  {
    if |b| > 1 {
      WholeKey(b[1..]);
      assert b[1..][..|b| - 2] == b[..|b| - 1][1..];
    }
  }

  /** On such keys the hash respects the comparison, so that the table is a map from strings. */
  lemma {:induction false} StringsLawful()
    ensures Lawful<Key, Bytes>((a: Key, b: Key) => StrCompare(a, b), (a: Key) => StrHash(a), (a: Key) => CString(a))
  {
    forall a: Key, b: Key | CString(a) == CString(b) ensures a == b {
      WholeKey(a);
      WholeKey(b);
      assert a == a[..|a| - 1] + [0] && b == b[..|b| - 1] + [0];
    }
  }

  /** hashtable_init with the string functions */
  method NewStringTable<V>() returns (t: HashTables.HashTable<Key, Bytes, V>)
    ensures fresh(t) && fresh(t.buckets) && t.Valid() && t.model == map[]
  {
    StringsLawful();
    t := new HashTables.HashTable((a: Key, b: Key) => StrCompare(a, b), (a: Key) => StrHash(a), (a: Key) => CString(a));
  }

  /** Bytes after the terminator break it: equal strings, different hashes. */
  lemma {:induction false} TrailingBytesBreak()
    ensures StrCompare([97, 0], [97, 0, 1]) && StrHash([97, 0]) == 5863110 && StrHash([97, 0, 1]) == 193482631
  {
    var a, b := [97, 0], [97, 0, 1];
    assert CString(a[1..]) == [] == CString(b[1..]);
    assert b[..2] == a && a[..1] == [97] && [97][..0] == [];
    assert HashFrom(5381, [97]) == 177670 && HashFrom(5381, a) == 5863110 && HashFrom(5381, b) == 193482631;
  }

  // ---------------------------------------------------------------- exactly when they do

  function Power(n: nat): nat {
    if n == 0 then 1 else Power(n - 1) * 33
  }

  /** What bytes at the end of a key add to its hash, before it wraps around. */
  function Weight(b: Bytes): int {
    if b == [] then 0 else Weight(b[..|b| - 1]) * 33 + b[|b| - 1]
  }

  lemma {:induction false} HashInTurn(h: nat, a: Bytes, b: Bytes)
    ensures HashFrom(h, a + b) == HashFrom(HashFrom(h, a), b)
  {
    if b == [] {
      assert a + b == a;
    } else {
      var n := |b| - 1;
      assert (a + b)[..|a + b| - 1] == a + b[..n];
      HashInTurn(h, a, b[..n]);
    }
  }

  lemma {:induction false} WrapsOnce(x: int, c: int)
    ensures (x % WORD * 33 + c) % WORD == (x * 33 + c) % WORD
  {
    var k := x / WORD;
    assert x == k * WORD + x % WORD;
    assert x * 33 + c == (x % WORD * 33 + c) + (33 * k) * WORD;
    WrapsBy(x % WORD * 33 + c, 33 * k);
  }

  lemma {:induction false} WrapsBy(x: int, k: int)
    ensures (x + k * WORD) % WORD == x % WORD
  {
    assert x + k * WORD == (x / WORD + k) * WORD + x % WORD;
  }

  lemma {:induction false} HashTail(h: nat, b: Bytes)
    requires h < WORD
    ensures HashFrom(h, b) == (h * Power(|b|) + Weight(b)) % WORD
  {
    if b != [] {
      var n := |b| - 1;
      HashTail(h, b[..n]);
      var x := h * Power(n) + Weight(b[..n]);
      WrapsOnce(x, b[n]);
      assert x * 33 + b[n] == h * (Power(n) * 33) + (Weight(b[..n]) * 33 + b[n]);
    }
  }

  lemma {:induction false} SameWord(x: int, y: int)
    ensures x % WORD == y % WORD <==> (x - y) % WORD == 0
  {
    var k := x / WORD - y / WORD;
    assert x - y == (x % WORD - y % WORD) + k * WORD;
    WrapsBy(x % WORD - y % WORD, k);
  }

  lemma {:induction false} UpToTerminator(a: Bytes, t: Bytes)
    requires Terminated(a)
    ensures CString(a + t) == CString(a)
  {
    assert (a + t)[0] == a[0];
    if a[0] != 0 {
      assert (a + t)[1..] == a[1..] + t && Terminated(a[1..]);
      UpToTerminator(a[1..], t);
    }
  }

  /**
   Two buffers that hold the same string and other bytes after its terminator are equal keys. They have the same hash if and
   only if what those bytes add differs by a multiple of 2^64.
   */
  lemma {:induction false} TrailingExactly(a: Key, t: Bytes, u: Bytes)
    ensures StrCompare(a + t, a + u)
    ensures StrHash(a + t) == StrHash(a + u)
            <==> (StrHash(a) * Power(|t|) + Weight(t) - (StrHash(a) * Power(|u|) + Weight(u))) % WORD == 0
  {
    UpToTerminator(a, t);
    UpToTerminator(a, u);
    HashInTurn(5381, a, t);
    HashInTurn(5381, a, u);
    HashTail(StrHash(a), t);
    HashTail(StrHash(a), u);
    SameWord(StrHash(a) * Power(|t|) + Weight(t), StrHash(a) * Power(|u|) + Weight(u));
  }

  /** One byte after the terminator of each: exactly when it is the same byte, whatever the string. */
  lemma {:induction false} TrailingByte(a: Key, c: int, d: int)
    requires -128 <= c < 128 && -128 <= d < 128
    ensures StrHash(a + [c]) == StrHash(a + [d]) <==> c == d
  {
    TrailingExactly(a, [c], [d]);
    assert [c][..0] == [] && [d][..0] == [];
    assert Weight([c]) == c && Weight([d]) == d;
  }
}
