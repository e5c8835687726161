/** Bytes, and integers as bytes in memory, least significant first. */
module Words {
  import opened Ints

  newtype Byte = x: int | 0 <= x < 256

  /** `u` in `n` bytes. */
  function Encode(u: nat, n: nat): (s: seq<Byte>)
    ensures |s| == n
  {
    if n == 0 then [] else [(u % 256) as Byte] + Encode(u / 256, n - 1)
  }

  function Decode(s: seq<Byte>): nat {
    if s == [] then 0 else (s[0] as nat) + 256 * Decode(s[1..])
  }

  function Zeros(n: nat): (z: seq<Byte>)
    ensures |z| == n && forall k :: 0 <= k < n ==> z[k] == 0
  {
    seq(n, _ => 0)
  }

  lemma {:induction false} DecodeZeros(n: nat)
    ensures Decode(Zeros(n)) == 0
  {
    if n > 0 {
      assert Zeros(n)[1..] == Zeros(n - 1);
      DecodeZeros(n - 1);
    }
  }

  ghost function Power(n: nat): nat {
    if n == 0 then 1 else 256 * Power(n - 1)
  }

  lemma {:induction false} DecodeEncode(u: nat, n: nat)
    requires u < Power(n)
    ensures Decode(Encode(u, n)) == u
  {
    if n > 0 {
      assert u / 256 < Power(n - 1);
      DecodeEncode(u / 256, n - 1);
      assert Encode(u, n)[1..] == Encode(u / 256, n - 1);
    }
  }

  const HALF: int := 0x8000_0000_0000_0000

  predicate Fits64(n: int) {
    -HALF <= n < HALF
  }

  /** A 64-bit integer in memory. */
  function Word(n: int): (s: seq<Byte>)
    ensures |s| == 8
  {
    Encode(n % WORD, 8)
  }

  function WordValue(s: seq<Byte>): int {
    var u := Decode(s);
    if u < HALF then u else u - WORD
  }

  lemma {:induction false} PowerWord()
    ensures Power(8) == WORD
  {
    assert Power(2) == 256 * Power(1) == 65536;
    assert Power(4) == 256 * Power(3) == 256 * (256 * Power(2));
    assert Power(6) == 256 * Power(5) == 256 * (256 * Power(4));
    assert Power(8) == 256 * Power(7) == 256 * (256 * Power(6));
  }

  lemma {:induction false} WordBack(n: int)
    requires Fits64(n)
    ensures WordValue(Word(n)) == n
  {
    PowerWord();
    DecodeEncode(n % WORD, 8);
  }

  // ---------------------------------------------------------------- slices

  /** A slice of a common front is common. */
  lemma {:induction false} SliceFront<T>(s: seq<T>, t: seq<T>, at: nat, lo: nat, n: nat)
    requires at <= |s| && at <= |t| && s[..at] == t[..at] && lo + n <= at
    ensures s[lo..lo + n] == t[lo..lo + n]
  {
    assert s[lo..lo + n] == s[..at][lo..lo + n] && t[lo..lo + n] == t[..at][lo..lo + n];
  }

  /** A slice of a common rest is common. */
  lemma {:induction false} SliceBack<T>(s: seq<T>, t: seq<T>, at: nat, lo: nat, n: nat)
    requires |s| == |t| && at <= lo && lo + n <= |s| && s[at..] == t[at..]
    ensures s[lo..lo + n] == t[lo..lo + n]
  {
    var k := lo - at;
    assert s[lo..lo + n] == s[at..][k..k + n] && t[lo..lo + n] == t[at..][k..k + n];
  }

  lemma {:induction false} SubSlice<T>(s: seq<T>, lo: nat, n: nat, k: nat, m: nat)
    requires lo + n <= |s| && k + m <= n
    ensures s[lo..lo + n][k..k + m] == s[lo + k..lo + k + m]
  {
    var a, b := s[lo..lo + n][k..k + m], s[lo + k..lo + k + m];
    forall i | 0 <= i < m ensures a[i] == b[i] {
      assert s[lo..lo + n][k + i] == s[lo + k + i];
    }
  }

  /** A slice of a rest that is common to two sequences, and the rest after it. */
  lemma {:induction false} RestSlice<T>(s: seq<T>, t: seq<T>, lo: nat, n: nat)
    requires |s| == |t| && lo + n <= |s| && s[lo..] == t[lo..]
    ensures s[lo..lo + n] == t[lo..lo + n] && s[lo + n..] == t[lo + n..]
  {
    assert s[lo..lo + n] == s[lo..][..n] && t[lo..lo + n] == t[lo..][..n];
    assert s[lo + n..] == s[lo..][n..] && t[lo + n..] == t[lo..][n..];
  }

  lemma {:induction false} JoinSlices<T>(s: seq<T>, at: nat, n: nat)
    requires at + n <= |s|
    ensures s[..at + n] == s[..at] + s[at..at + n]
  {
    var l := s[..at + n];
    assert l == l[..at] + l[at..] && l[..at] == s[..at] && l[at..] == s[at..at + n];
  }

  lemma {:induction false} ShorterFront<T>(s: seq<T>, t: seq<T>, at: nat, n: nat)
    requires n <= at <= |s| && at <= |t| && s[..at] == t[..at]
    ensures s[..n] == t[..n]
  {
    assert s[..n] == s[..at][..n] && t[..n] == t[..at][..n];
  }
}
