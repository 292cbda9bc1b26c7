/**
 BLS12-381 secret scalars as the program stores them: 32 bytes, most significant first,
 with 0 < value < r.  The second half proves what overwriting a scalar with zeros, one byte
 at a time from the front, does to that value.
 */
module Scalar {
  import opened Common

  const SIZE: nat := 32

  /** r, the order of the BLS12-381 groups. */
  const ORDER: nat := 0x73eda753299d7d483339d80809a1d80553bda402fffe5bfeffffffff00000001

  /** The parameter of the curve. */
  const X: int := -0xd201000000010000

  /** r is the value at X of the polynomial x^4 - x^2 + 1 that gives the group order of every such curve. */
  lemma OrderOfCurve()
    ensures ORDER == X * X * X * X - X * X + 1
  {
  }

  function Pow256(n: nat): (p: nat)
    ensures p >= 1
  {
    if n == 0 then 1 else 256 * Pow256(n - 1)
  }

  function BigEndian(s: Bytes): nat {
    if s == [] then 0 else BigEndian(s[..|s| - 1]) * 256 + s[|s| - 1]
  }

  /** What blst's scalar deserialisation accepts. */
  predicate Valid(s: Bytes) {
    |s| == SIZE && 0 < BigEndian(s) < ORDER
  }

  /** A buffer whose first k bytes have been overwritten with zeros. */
  function ZeroPrefix(s: Bytes, k: nat): (z: Bytes)
    requires k <= |s|
    ensures |z| == |s|
    ensures forall i :: 0 <= i < |s| ==> z[i] == if i < k then 0 else s[i]
  {
    Zeros(k) + s[k..]
  }

  lemma {:induction false} BigEndianBound(s: Bytes)
    ensures BigEndian(s) < Pow256(|s|)
  {
    if s != [] {
      BigEndianBound(s[..|s| - 1]);
    }
  }

  lemma Positional(v: nat, p: nat, w: nat)
    ensures (v * p + w) * 256 == v * (256 * p) + w * 256
  {
  }

  /** Concatenation is positional: the left part counts in units of 256^|b|. */
  lemma {:induction false} BigEndianConcat(a: Bytes, b: Bytes)
    ensures BigEndian(a + b) == BigEndian(a) * Pow256(|b|) + BigEndian(b)
  {
    if b == [] {
      assert a + b == a;
    } else {
      var b' := b[..|b| - 1];
      assert (a + b)[..|a + b| - 1] == a + b';
      BigEndianConcat(a, b');
      Positional(BigEndian(a), Pow256(|b'|), BigEndian(b'));
    }
  }

  /** The value is zero exactly when every byte is. */
  lemma {:induction false} BigEndianZero(s: Bytes)
    ensures BigEndian(s) == 0 <==> forall i :: 0 <= i < |s| ==> s[i] == 0
  {
    if s != [] {
      var t := s[..|s| - 1];
      BigEndianZero(t);
      if BigEndian(s) == 0 {
        assert forall i :: 0 <= i < |t| ==> s[i] == t[i];
      }
    }
  }

  lemma {:induction false} ModOfSum(q: nat, p: nat, r: nat)
    requires r < p
    ensures (q * p + r) % p == r
    decreases q
  {
    if q > 0 {
      ModOfSum(q - 1, p, r);
      assert q * p + r == ((q - 1) * p + r) + p;
      ModAddOne((q - 1) * p + r, p);
    }
  }

  lemma ModAddOne(x: nat, p: nat)
    requires p > 0
    ensures (x + p) % p == x % p
  {
    var d, e := x / p, (x + p) / p;
    var g := e - d - 1;
    assert g * p == x % p - (x + p) % p;
    MultipleAtLeast(g, p);
  }

  lemma MultipleAtLeast(g: int, p: nat)
    ensures g >= 1 ==> g * p >= p
    ensures g <= -1 ==> g * p <= -(p as int)
  {
  }

  lemma SuffixValue(a: Bytes, b: Bytes)
    ensures BigEndian(a + b) % Pow256(|b|) == BigEndian(b) <= BigEndian(a + b)
  {
    BigEndianConcat(a, b);
    BigEndianBound(b);
    ModOfSum(BigEndian(a), Pow256(|b|), BigEndian(b));
    ProductNonNegative(BigEndian(a), Pow256(|b|));
  }

  lemma ProductNonNegative(a: nat, b: nat)
    ensures a * b >= 0
  {
  }

  lemma LeadingZeros(k: nat, b: Bytes)
    ensures BigEndian(Zeros(k) + b) == BigEndian(b)
  {
    BigEndianConcat(Zeros(k), b);
    BigEndianZero(Zeros(k));
  }

  /** Zeroing k leading bytes reduces the value modulo 256^(|s| - k). */
  lemma ZeroPrefixValue(s: Bytes, k: nat)
    requires k <= |s|
    ensures BigEndian(ZeroPrefix(s, k)) == BigEndian(s) % Pow256(|s| - k)
    ensures BigEndian(ZeroPrefix(s, k)) <= BigEndian(s)
  {
    assert s == s[..k] + s[k..];
    SuffixValue(s[..k], s[k..]);
    LeadingZeros(k, s[k..]);
  }

  /**
   A partly zeroed key is still below r, and it is still accepted as a key exactly when some
   byte that has not been reached yet is nonzero; once all 32 bytes are gone it never is.
   It equals the original key exactly when the bytes overwritten so far were zero already.
   */
  lemma PartialZeroing(s: Bytes, k: nat)
    requires Valid(s) && k <= SIZE
    ensures BigEndian(ZeroPrefix(s, k)) == BigEndian(s) % Pow256(SIZE - k)
    ensures BigEndian(ZeroPrefix(s, k)) < ORDER
    ensures Valid(ZeroPrefix(s, k)) <==> exists i :: k <= i < SIZE && s[i] != 0
    ensures ZeroPrefix(s, k) == s <==> forall i :: 0 <= i < k ==> s[i] == 0
    ensures k == SIZE ==> !Valid(ZeroPrefix(s, k))
  {
    var z := ZeroPrefix(s, k);
    ZeroPrefixValue(s, k);
    BigEndianZero(z);
    if BigEndian(z) == 0 {
      forall i | k <= i < SIZE ensures s[i] == 0 {
        assert z[i] == s[i];
      }
    }
    if z == s {
      assert forall i :: 0 <= i < k ==> s[i] == z[i];
    }
  }
}
