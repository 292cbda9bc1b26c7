/** Hexadecimal text (section 8 of RFC 4648) as Go's encoding/hex reads and writes it. */
module Hex {
  import opened Common

  type Nibble = n: int | 0 <= n < 16

  function Digit(n: Nibble): char {
    "0123456789abcdef"[n]
  }

  /** Both cases are read; only lower case is written. */
  function Value(c: char): Option<Nibble> {
    if '0' <= c <= '9' then Some(c as int - '0' as int)
    else if 'a' <= c <= 'f' then Some(c as int - 'a' as int + 10)
    else if 'A' <= c <= 'F' then Some(c as int - 'A' as int + 10)
    else None
  }

  predicate IsHex(c: char) {
    Value(c).Some?
  }

  function Encode(b: Bytes): (s: string)
    ensures |s| == 2 * |b|
  {
    seq(2 * |b|, i requires 0 <= i < 2 * |b| =>
      Digit(if i % 2 == 0 then b[i / 2] / 16 else b[i / 2] % 16))
  }

  function Pair(hi: char, lo: char): byte
    requires IsHex(hi) && IsHex(lo)
  {
    16 * Value(hi).value + Value(lo).value
  }

  /** hex.DecodeString: an odd length or a character that is no digit is an error. */
  function DecodeString(s: string): (r: Option<Bytes>)
    ensures r.Some? ==> 2 * |r.value| == |s|
  {
    if |s| % 2 == 0 && forall i :: 0 <= i < |s| ==> IsHex(s[i]) then
      Some(seq(|s| / 2, k requires 0 <= k < |s| / 2 => Pair(s[2 * k], s[2 * k + 1])))
    else
      None
  }

  lemma DigitValue(n: Nibble)
    ensures Value(Digit(n)) == Some(n)
  {
  }

  /** What Encode writes, character by character. */
  lemma EncodeAt(b: Bytes, k: nat)
    requires k < |b|
    ensures Encode(b)[2 * k] == Digit(b[k] / 16) && Encode(b)[2 * k + 1] == Digit(b[k] % 16)
    ensures IsHex(Encode(b)[2 * k]) && IsHex(Encode(b)[2 * k + 1])
    ensures Pair(Encode(b)[2 * k], Encode(b)[2 * k + 1]) == b[k]
  {
    assert (2 * k) / 2 == k && (2 * k + 1) / 2 == k;
    DigitValue(b[k] / 16);
    DigitValue(b[k] % 16);
  }

  lemma EncodeIsHex(b: Bytes)
    ensures forall i :: 0 <= i < |Encode(b)| ==> IsHex(Encode(b)[i])
  {
    forall i | 0 <= i < |Encode(b)| ensures IsHex(Encode(b)[i]) {
      EncodeAt(b, i / 2);
      assert i == 2 * (i / 2) || i == 2 * (i / 2) + 1;
    }
  }

  lemma DecodedPairwise(s: string, b: Bytes)
    requires |s| == 2 * |b| && forall i :: 0 <= i < |s| ==> IsHex(s[i])
    requires forall k :: 0 <= k < |b| ==> Pair(s[2 * k], s[2 * k + 1]) == b[k]
    ensures DecodeString(s) == Some(b)
  {
    assert DecodeString(s).value == b;
  }

  function UpperChar(c: char): char {
    if 'a' <= c <= 'z' then c - 32 as char else c
  }

  function Upper(s: string): (t: string)
    ensures |t| == |s|
  {
    seq(|s|, i requires 0 <= i < |s| => UpperChar(s[i]))
  }

  lemma UpperValue(c: char)
    ensures Value(UpperChar(c)) == Value(c)
  {
  }

  /** Letter case does not matter, in what is decoded nor in what is refused. */
  lemma AnyCase(s: string)
    ensures DecodeString(Upper(s)) == DecodeString(s)
  {
    var t := Upper(s);
    forall i | 0 <= i < |s| ensures t[i] == UpperChar(s[i]) && Value(t[i]) == Value(s[i]) {
      UpperValue(s[i]);
    }
    if DecodeString(s).Some? {
      assert DecodeString(t).value == DecodeString(s).value;
    } else if |s| % 2 == 0 {
      var i :| 0 <= i < |s| && !IsHex(s[i]);
      assert !IsHex(t[i]);
    }
  }

  /** Decoding undoes encoding on every byte string, the empty one included. */
  lemma RoundTrip(b: Bytes)
    ensures DecodeString(Encode(b)) == Some(b)
  {
    var s := Encode(b);
    EncodeIsHex(b);
    forall k | 0 <= k < |b| ensures Pair(s[2 * k], s[2 * k + 1]) == b[k] {
      EncodeAt(b, k);
    }
    DecodedPairwise(s, b);
  }
}
