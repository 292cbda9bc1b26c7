/**
 Base64 text (section 4 of RFC 4648), the form in which encoding/json carries byte slices.
 The decoder reads padded text; it does not skip line breaks.
 */
module Base64 {
  import opened Common

  type Sextet = n: int | 0 <= n < 64

  const PAD: char := '='

  function Digit(n: Sextet): char {
    if n < 26 then 'A' + n as char
    else if n < 52 then 'a' + (n - 26) as char
    else if n < 62 then '0' + (n - 52) as char
    else if n == 62 then '+' else '/'
  }

  function Value(c: char): Option<Sextet> {
    if 'A' <= c <= 'Z' then Some(c as int - 'A' as int)
    else if 'a' <= c <= 'z' then Some(c as int - 'a' as int + 26)
    else if '0' <= c <= '9' then Some(c as int - '0' as int + 52)
    else if c == '+' then Some(62)
    else if c == '/' then Some(63)
    else None
  }

  function Encode(b: Bytes): string {
    match |b|
    case 0 => ""
    case 1 => [Digit(b[0] / 4), Digit(b[0] % 4 * 16), PAD, PAD]
    case 2 => [Digit(b[0] / 4), Digit(b[0] % 4 * 16 + b[1] / 16), Digit(b[1] % 16 * 4), PAD]
    case _ =>
      [Digit(b[0] / 4), Digit(b[0] % 4 * 16 + b[1] / 16), Digit(b[1] % 16 * 4 + b[2] / 64), Digit(b[2] % 64)]
      + Encode(b[3..])
  }

  function First(u: Sextet, v: Sextet): byte { u * 4 + v / 16 }

  function Second(v: Sextet, w: Sextet): byte { v % 16 * 16 + w / 4 }

  function Third(w: Sextet, x: Sextet): byte { w % 4 * 64 + x }

  function Decode(s: string): Option<Bytes> {
    if s == "" then Some([])
    else if |s| < 4 || Value(s[0]).None? || Value(s[1]).None? then None
    else
      var u, v := Value(s[0]).value, Value(s[1]).value;
      if s[2] == PAD then
        if |s| == 4 && s[3] == PAD then Some([First(u, v)]) else None
      else if Value(s[2]).None? then None
      else
        var w := Value(s[2]).value;
        if s[3] == PAD then
          if |s| == 4 then Some([First(u, v), Second(v, w)]) else None
        else if Value(s[3]).None? then None
        else
          match Decode(s[4..])
          case None => None
          case Some(rest) => Some([First(u, v), Second(v, w), Third(w, Value(s[3]).value)] + rest)
  }

  lemma DigitValue(n: Sextet)
    ensures Value(Digit(n)) == Some(n) && Digit(n) != PAD
  {
  }

  /** Splitting three bytes into four sextets loses nothing. */
  lemma Regroup(a: byte, b: byte, c: byte)
    ensures First(a / 4, a % 4 * 16 + b / 16) == a
    ensures Second(a % 4 * 16 + b / 16, b % 16 * 4 + c / 64) == b
    ensures Third(b % 16 * 4 + c / 64, c % 64) == c
  {
  }

  lemma DecodeFour(u: Sextet, v: Sextet, w: Sextet, x: Sextet, rest: string)
    ensures Decode([Digit(u), Digit(v), Digit(w), Digit(x)] + rest) ==
            match Decode(rest)
            case None => None
            case Some(r) => Some([First(u, v), Second(v, w), Third(w, x)] + r)
  {
    DigitValue(u);
    DigitValue(v);
    DigitValue(w);
    DigitValue(x);
    assert ([Digit(u), Digit(v), Digit(w), Digit(x)] + rest)[4..] == rest;
  }

  lemma DecodeThree(u: Sextet, v: Sextet, w: Sextet)
    ensures Decode([Digit(u), Digit(v), Digit(w), PAD]) == Some([First(u, v), Second(v, w)])
  {
    DigitValue(u);
    DigitValue(v);
    DigitValue(w);
  }

  lemma DecodeTwo(u: Sextet, v: Sextet)
    ensures Decode([Digit(u), Digit(v), PAD, PAD]) == Some([First(u, v)])
  {
    DigitValue(u);
    DigitValue(v);
  }

  lemma ShortTail(b: Bytes)
    requires |b| == 1 || |b| == 2
    ensures Decode(Encode(b)) == Some(b)
  {
    if |b| == 1 {
      Regroup(b[0], 0, 0);
      DecodeTwo(b[0] / 4, b[0] % 4 * 16);
      assert b == [b[0]];
    } else {
      Regroup(b[0], b[1], 0);
      DecodeThree(b[0] / 4, b[0] % 4 * 16 + b[1] / 16, b[1] % 16 * 4);
      assert b == [b[0], b[1]];
    }
  }

  lemma WholeGroup(a: byte, b: byte, c: byte, rest: Bytes)
    requires Decode(Encode(rest)) == Some(rest)
    ensures Decode(Encode([a, b, c] + rest)) == Some([a, b, c] + rest)
  {
    var all := [a, b, c] + rest;
    assert all[3..] == rest;
    var u: Sextet, v: Sextet, w: Sextet, x: Sextet := a / 4, a % 4 * 16 + b / 16, b % 16 * 4 + c / 64, c % 64;
    assert Encode(all) == [Digit(u), Digit(v), Digit(w), Digit(x)] + Encode(rest);
    Regroup(a, b, c);
    DecodeFour(u, v, w, x, Encode(rest));
  }

  lemma {:induction false} RoundTrip(b: Bytes)
    ensures Decode(Encode(b)) == Some(b)
  {
    if |b| > 2 {
      RoundTrip(b[3..]);
      WholeGroup(b[0], b[1], b[2], b[3..]);
      assert b == [b[0], b[1], b[2]] + b[3..];
    } else if b != [] {
      ShortTail(b);
    }
  }

  /** The alphabet of the standard's table 1. */
  lemma Alphabet(n: Sextet)
    ensures n < 26 ==> Digit(n) == "ABCDEFGHIJKLMNOPQRSTUVWXYZ"[n]
    ensures 26 <= n < 52 ==> Digit(n) == "abcdefghijklmnopqrstuvwxyz"[n - 26]
    ensures 52 <= n ==> Digit(n) == "0123456789+/"[n - 52]
  {
  }

  /** Whole groups of four, digits all of them but the last p, which are padding. */
  predicate Padded(s: string, p: nat) {
    && |s| % 4 == 0 && p <= |s|
    && (forall i :: 0 <= i < |s| - p ==> Value(s[i]).Some?)
    && (forall i :: |s| - p <= i < |s| ==> s[i] == PAD)
  }

  lemma PaddedTail(s: string, p: nat)
    requires |s| > 4 && p <= 2 && forall i :: 0 <= i < 4 ==> Value(s[i]).Some?
    ensures Padded(s, p) <==> Padded(s[4..], p)
  {
    if Padded(s[4..], p) {
      forall i | 0 <= i < |s| ensures if i < |s| - p then Value(s[i]).Some? else s[i] == PAD {
        if i >= 4 {
          assert s[4..][i - 4] == s[i];
        }
      }
    }
  }

  /** What is read: exactly the texts of whole groups with at most two characters of padding at their end. */
  lemma {:induction false} ReadsIff(s: string)
    ensures Decode(s).Some? <==> exists p: nat :: p <= 2 && Padded(s, p)
  {
    if |s| > 4 && forall i :: 0 <= i < 4 ==> Value(s[i]).Some? {
      ReadsIff(s[4..]);
      forall p: nat | p <= 2 ensures Padded(s, p) <==> Padded(s[4..], p) {
        PaddedTail(s, p);
      }
    } else if |s| == 4 {
      assert s[4..] == "";
      OneGroup(s);
    } else if |s| == 0 {
      assert Padded(s, 0);
    }
  }

  lemma OneGroup(s: string)
    requires |s| == 4
    ensures Decode(s).Some? <==> Padded(s, 0) || Padded(s, 1) || Padded(s, 2)
  {
    assert s[4..] == "";
  }
}
