/** Bits in a stretch of bytes (src/lib/bit.c). */
module Bits {

  /** 1 << k */
  function Mask(k: nat): bv8
    requires k < 8
  {
    match k
    case 0 => 1
    case 1 => 2
    case 2 => 4
    case 3 => 8
    case 4 => 16
    case 5 => 32
    case 6 => 64
    case _ => 128
  }

  predicate Bit(b: bv8, k: nat)
    requires k < 8
  {
    b & Mask(k) != 0
  }

  /** Setting one bit of a byte leaves the other seven, and so do clearing and toggling. */
  lemma {:induction false} SetBit(b: bv8, k: nat, j: nat)
    requires k < 8 && j < 8
    ensures Bit(b | Mask(k), j) == (j == k || Bit(b, j))
  {}

  lemma {:induction false} ClearedBit(b: bv8, k: nat, j: nat)
    requires k < 8 && j < 8
    ensures Bit(b & !Mask(k), j) == (j != k && Bit(b, j))
  {}

  lemma {:induction false} ToggledBit(b: bv8, k: nat, j: nat)
    requires k < 8 && j < 8
    ensures Bit(b ^ Mask(k), j) == (if j == k then !Bit(b, j) else Bit(b, j))
  {}

  /** Bit `n` of the bytes from `base` on. */
  predicate BitAt(s: seq<bv8>, base: nat, n: nat)
    requires base + n / 8 < |s|
  {
    Bit(s[base + n / 8], n % 8)
  }

  /** Two stretches agree on every bit below `len` bytes but bit `n`, and outside them on every byte. */
  ghost predicate OnlyBit(s: seq<bv8>, t: seq<bv8>, base: nat, len: nat, n: nat)
    requires base + len <= |s|
  {
    && |t| == |s|
    && (forall i :: 0 <= i < |s| && i != base + n / 8 ==> t[i] == s[i])
    && forall m: nat :: m / 8 < len && m != n ==> BitAt(t, base, m) == BitAt(s, base, m)
  }

  /** bit_test */
  method BitTest(a: array<bv8>, base: nat, n: nat, len: nat) returns (r: bool)
    requires n / 8 < len && base + len <= a.Length
    ensures r == BitAt(a[..], base, n)
  {
    r := a[base + n / 8] & Mask(n % 8) != 0;
  }

  /** bit_set */
  method BitSet(a: array<bv8>, base: nat, n: nat, len: nat)
    requires n / 8 < len && base + len <= a.Length
    modifies a
    ensures OnlyBit(old(a[..]), a[..], base, len, n) && BitAt(a[..], base, n)
  {
    ghost var s := a[..];
    a[base + n / 8] := a[base + n / 8] | Mask(n % 8);
    forall m: nat | m / 8 < len ensures BitAt(a[..], base, m) == (m == n || BitAt(s, base, m)) {
      SetBit(s[base + n / 8], n % 8, m % 8);
    }
  }

  /** bit_clear */
  method BitClear(a: array<bv8>, base: nat, n: nat, len: nat)
    requires n / 8 < len && base + len <= a.Length
    modifies a
    ensures OnlyBit(old(a[..]), a[..], base, len, n) && !BitAt(a[..], base, n)
  {
    ghost var s := a[..];
    a[base + n / 8] := a[base + n / 8] & !Mask(n % 8);
    forall m: nat | m / 8 < len ensures BitAt(a[..], base, m) == (m != n && BitAt(s, base, m)) {
      ClearedBit(s[base + n / 8], n % 8, m % 8);
    }
  }

  /** bit_toggle */
  method BitToggle(a: array<bv8>, base: nat, n: nat, len: nat)
    requires n / 8 < len && base + len <= a.Length
    modifies a
    ensures OnlyBit(old(a[..]), a[..], base, len, n) && BitAt(a[..], base, n) != old(BitAt(a[..], base, n))
  {
    ghost var s := a[..];
    a[base + n / 8] := a[base + n / 8] ^ Mask(n % 8);
    forall m: nat | m / 8 < len ensures BitAt(a[..], base, m) == (if m == n then !BitAt(s, base, m) else BitAt(s, base, m)) {
      ToggledBit(s[base + n / 8], n % 8, m % 8);
    }
  }
}
