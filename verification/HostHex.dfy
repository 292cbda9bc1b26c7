/**
 The hand-written hexDecode of backend/awsnitro.  It scans each two-character slice with
 fmt.Sscanf("%02x"), which skips leading blanks and stops at the first character that is no
 digit, so one digit is enough for a slice to be read.  Each char stands for one byte of the
 Go string.
 */
module HostHex {
  import opened Common
  import opened Hex

  /** What Sscanf skips: tab, vertical tab, form feed, carriage return, space; a newline is an error. */
  predicate IsBlank(c: char) {
    var n := c as int;
    n == 9 || n == 11 || n == 12 || n == 13 || n == 32
  }

  function ScanPair(c: char, d: char): Option<byte> {
    if IsHex(c) then
      if IsHex(d) then Some(Pair(c, d)) else Some(Value(c).value)
    else if IsBlank(c) && IsHex(d) then Some(Value(d).value)
    else None
  }

  predicate Scans(s: string, k: nat)
    requires 2 * k + 1 < |s|
  {
    ScanPair(s[2 * k], s[2 * k + 1]).Some?
  }

  /** What hexDecode computes. */
  function Decoded(s: string): (r: Option<Bytes>)
    ensures r.Some? ==> s != "" && |r.value| == |s| / 2
  {
    if s != "" && forall k :: 0 <= k < |s| / 2 ==> Scans(s, k) then
      Some(seq(|s| / 2, k requires 0 <= k < |s| / 2 && Scans(s, k) => ScanPair(s[2 * k], s[2 * k + 1]).value))
    else
      None
  }

  method HexDecode(s: string) returns (r: Option<Bytes>)
    ensures r == Decoded(s)
  {
    if |s| == 0 {
      return None;
    }
    var out := new byte[|s| / 2];
    var i := 0;
    while i < |s| - 1
      invariant 0 <= i <= |s| && i % 2 == 0
      invariant forall k :: 0 <= k < i / 2 ==> Scans(s, k) && out[k] == ScanPair(s[2 * k], s[2 * k + 1]).value
    {
      var b := ScanPair(s[i], s[i + 1]);
      if b.None? {
        assert !Scans(s, i / 2);
        return None;
      }
      out[i / 2] := b.value;
      i := i + 2;
    }
    r := Some(out[..]);
    assert out[..] == Decoded(s).value;
  }

  lemma DecodedPairwise(s: string, b: Bytes)
    requires s != "" && |s| / 2 == |b|
    requires forall k :: 0 <= k < |b| ==> Scans(s, k) && ScanPair(s[2 * k], s[2 * k + 1]).value == b[k]
    ensures Decoded(s) == Some(b)
  {
    assert Decoded(s).value == b;
  }

  lemma EncodedScans(b: Bytes, k: nat)
    requires k < |b|
    ensures Scans(Encode(b), k)
    ensures ScanPair(Encode(b)[2 * k], Encode(b)[2 * k + 1]) == Some(b[k])
  {
    EncodeAt(b, k);
  }

  /** hexDecode inverts lower-case encoding on every non-empty byte string, and only there. */
  lemma RoundTrip(b: Bytes)
    ensures Decoded(Encode(b)) == if b == [] then None else Some(b)
  {
    if b != [] {
      var s := Encode(b);
      forall k | 0 <= k < |b|
        ensures Scans(s, k) && ScanPair(s[2 * k], s[2 * k + 1]).value == b[k]
      {
        EncodedScans(b, k);
      }
      DecodedPairwise(s, b);
    }
  }

  /** Nothing past the last whole pair matters: a trailing odd character is never looked at. */
  lemma OnlyWholePairsMatter(s: string, t: string)
    requires s != "" && t != ""
    requires |s| / 2 == |t| / 2 && s[..|s| / 2 * 2] == t[..|t| / 2 * 2]
    ensures Decoded(s) == Decoded(t)
  {
    var n := |s| / 2;
    forall k | 0 <= k < n
      ensures Scans(s, k) == Scans(t, k)
      ensures ScanPair(s[2 * k], s[2 * k + 1]) == ScanPair(t[2 * k], t[2 * k + 1])
    {
      assert s[2 * k] == s[..n * 2][2 * k] && s[2 * k + 1] == s[..n * 2][2 * k + 1];
      assert t[2 * k] == t[..n * 2][2 * k] && t[2 * k + 1] == t[..n * 2][2 * k + 1];
    }
    if Decoded(s).Some? {
      assert forall k :: 0 <= k < n ==> Scans(s, k);
      assert Decoded(s).value == Decoded(t).value;
    } else {
      var k :| 0 <= k < n && !Scans(s, k);
      assert !Scans(t, k);
    }
  }

  /**
   hexDecode agrees with encoding/hex on a non-empty string exactly when the string is whole
   hex pairs, or has a pair that does not scan; everything between is accepted only here.
   */
  lemma AgreesWithStandard(s: string)
    requires s != ""
    ensures Decoded(s) == DecodeString(s) <==>
            || (|s| % 2 == 0 && forall i :: 0 <= i < |s| ==> IsHex(s[i]))
            || exists k :: 0 <= k < |s| / 2 && !Scans(s, k)
  {
    if DecodeString(s).Some? {
      forall k | 0 <= k < |s| / 2 ensures Scans(s, k) {
        assert IsHex(s[2 * k]) && IsHex(s[2 * k + 1]);
      }
      assert Decoded(s).value == DecodeString(s).value;
    } else if k :| 0 <= k < |s| / 2 && !Scans(s, k) {
      assert !(IsHex(s[2 * k]) && IsHex(s[2 * k + 1]));
    }
  }

  /** The gap is real: a pair with one digit, and a lone character, are both accepted. */
  lemma AcceptsMore()
    ensures Decoded("ag") == Some([10]) && DecodeString("ag") == None
    ensures Decoded("z") == Some([]) && DecodeString("z") == None
  {
    assert Scans("ag", 0);
    assert Decoded("ag").value == [10];
    assert !IsHex("ag"[1]);
    assert Decoded("z").value == [];
  }
}
