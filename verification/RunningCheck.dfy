/**
 enclaveRunning: whether the text of "nitro-cli describe-enclaves" contains the wanted CID,
 decided by a substring search with nothing after the number.
 */
module RunningCheck {

  const KEY: string := "\"EnclaveCID\": "

  predicate IsDigit(c: char) {
    '0' <= c <= '9'
  }

  function Decimal(n: nat): string {
    if n < 10 then ['0' + n as char] else Decimal(n / 10) + ['0' + (n % 10) as char]
  }

  lemma {:induction false} DecimalDigits(n: nat)
    ensures |Decimal(n)| > 0
    ensures forall i :: 0 <= i < |Decimal(n)| ==> IsDigit(Decimal(n)[i])
  {
    if n >= 10 {
      DecimalDigits(n / 10);
    }
  }

  // ----- numbers and their texts

  /** What a reader of base ten makes of a text of digits. */
  function ReadDecimal(s: string): nat
    requires forall i :: 0 <= i < |s| ==> IsDigit(s[i])
  {
    if s == [] then 0
    else
      assert IsDigit(s[|s| - 1]);
      10 * ReadDecimal(s[..|s| - 1]) + (s[|s| - 1] as int - '0' as int)
  }

  /** The text is read back as the number, and has no leading zero. */
  lemma {:induction false} DecimalReads(n: nat)
    ensures forall i :: 0 <= i < |Decimal(n)| ==> IsDigit(Decimal(n)[i])
    ensures ReadDecimal(Decimal(n)) == n
    ensures Decimal(n) != [] && (Decimal(n)[0] == '0' <==> n == 0)
  {
    DecimalDigits(n);
    if n >= 10 {
      DecimalReads(n / 10);
      DecimalDigits(n / 10);
      assert Decimal(n)[..|Decimal(n)| - 1] == Decimal(n / 10);
    } else {
      assert Decimal(n)[..0] == [];
    }
  }

  /** b without its last k digits. */
  function Truncated(b: nat, k: nat): nat {
    if k == 0 then b else Truncated(b / 10, k - 1)
  }

  lemma {:induction false} TruncatedIsPrefix(b: nat, k: nat)
    requires Truncated(b, k) > 0
    ensures Decimal(Truncated(b, k)) <= Decimal(b)
  {
    if k > 0 {
      if b < 10 {
        TruncatedZero(k - 1);
      }
      TruncatedIsPrefix(b / 10, k - 1);
    }
  }

  lemma {:induction false} TruncatedZero(k: nat)
    ensures Truncated(0, k) == 0
  {
    if k > 0 {
      TruncatedZero(k - 1);
    }
  }

  lemma {:induction false} PrefixIsTruncated(a: nat, b: nat) returns (k: nat)
    requires Decimal(a) <= Decimal(b)
    ensures Truncated(b, k) == a
  {
    DecimalReads(a);
    DecimalReads(b);
    if |Decimal(a)| == |Decimal(b)| {
      assert Decimal(a) == Decimal(b);
      k := 0;
    } else {
      k := PrefixIsTruncated(a, b / 10);
      k := k + 1;
    }
  }

  /** What is left of the running CID without some of its last digits is the one asked for. */
  ghost predicate TakenFor(running: nat, cid: nat) {
    running == cid || (cid > 0 && exists k :: Truncated(running, k) == cid)
  }

  /**
   Which CIDs are taken for which: the text of one begins with that of another exactly when
   the other is what is left of it without some of its last digits; and CID 0 only with itself.
   */
  lemma PrefixIff(cid: nat, running: nat)
    ensures Decimal(cid) <= Decimal(running) <==> TakenFor(running, cid)
  {
    if Decimal(cid) <= Decimal(running) {
      var k := PrefixIsTruncated(cid, running);
      DecimalReads(cid);
      DecimalReads(running);
    } else if k: nat :| cid > 0 && Truncated(running, k) == cid {
      TruncatedIsPrefix(running, k);
    }
  }

  /** One running enclave, and the text between its number and the next entry's key. */
  datatype Entry = Entry(cid: nat, gap: string)

  predicate OccursAt(text: string, pattern: string, p: nat) {
    p + |pattern| <= |text| && text[p..p + |pattern|] == pattern
  }

  /** strings.Contains */
  ghost predicate Contains(text: string, pattern: string) {
    exists p: nat :: OccursAt(text, pattern, p)
  }

  /** The output: text before the first entry, then each entry's key, number and gap. */
  function Render(gap: string, entries: seq<Entry>): string
    decreases |entries|
  {
    if entries == [] then gap
    else gap + KEY + Decimal(entries[0].cid) + Render(entries[0].gap, entries[1..])
  }

  /** The key is written for entries only. */
  ghost predicate Plain(gap: string) {
    !Contains(gap, KEY)
  }

  /** After a number comes something that is no digit, and no further key before the next entry. */
  ghost predicate WellFormed(entries: seq<Entry>) {
    forall i :: 0 <= i < |entries| ==>
      Plain(entries[i].gap) && entries[i].gap != "" && !IsDigit(entries[i].gap[0])
  }

  function Wanted(cid: nat): string {
    KEY + Decimal(cid)
  }

  lemma OccursWithin(text: string, pattern: string, p: nat, i: nat)
    requires OccursAt(text, pattern, p) && i < |pattern|
    ensures text[p + i] == pattern[i]
  {
    assert text[p..p + |pattern|][i] == text[p + i];
  }

  /** The key cannot overlap a shifted copy of itself: its second quote is followed by a colon. */
  lemma KeyHasNoBorder(text: string, p: nat, q: nat)
    requires OccursAt(text, KEY, p) && OccursAt(text, KEY, q) && p < q
    ensures p + |KEY| <= q
  {
    if q < p + |KEY| {
      OccursWithin(text, KEY, q, 0);
      OccursWithin(text, KEY, p, q - p);
      assert q - p == 11;
      OccursWithin(text, KEY, q, 1);
      OccursWithin(text, KEY, p, 12);
    }
  }

  /** The key cannot include a digit, nor start inside a number. */
  lemma KeyAvoidsDigits(text: string, p: nat, d: nat)
    requires OccursAt(text, KEY, p) && d < |text| && IsDigit(text[d])
    ensures d < p || p + |KEY| <= d
  {
    if p <= d < p + |KEY| {
      OccursWithin(text, KEY, p, d - p);
    }
  }

  lemma SuffixOccurrence(text: string, pattern: string, p: nat, cut: nat)
    requires cut <= p && cut <= |text|
    ensures OccursAt(text, pattern, p) <==> OccursAt(text[cut..], pattern, p - cut)
  {
    if p + |pattern| <= |text| {
      assert text[cut..][p - cut..p - cut + |pattern|] == text[p..p + |pattern|];
    }
  }

  lemma PrefixOccurrence(text: string, tail: string, pattern: string, p: nat)
    requires p + |pattern| <= |text|
    ensures OccursAt(text + tail, pattern, p) <==> OccursAt(text, pattern, p)
  {
    assert text[p..p + |pattern|] == (text + tail)[p..p + |pattern|];
  }

  /** Every key in the text is the key of an entry: none starts in a gap. */
  lemma KeyNotInGap(gap: string, entries: seq<Entry>, p: nat)
    requires Plain(gap) && OccursAt(Render(gap, entries), KEY, p)
    ensures p >= |gap| && entries != []
  {
    var text := Render(gap, entries);
    assert text == gap + text[|gap|..];
    if p + |KEY| <= |gap| {
      PrefixOccurrence(gap, text[|gap|..], KEY, p);
    } else if p < |gap| {
      assert text[|gap|..|gap| + |KEY|] == KEY;
      KeyHasNoBorder(text, p, |gap|);
    }
  }

  /** The number after a key: the digits asked for must be where the entry's digits are. */
  lemma NumberAtKey(number: string, rest: string, wanted: string)
    requires forall i :: 0 <= i < |wanted| ==> IsDigit(wanted[i])
    requires rest != "" && !IsDigit(rest[0])
    ensures wanted <= number + rest <==> wanted <= number
  {
    if |wanted| > |number| {
      assert IsDigit(wanted[|number|]) && (number + rest)[|number|] == rest[0];
    }
  }

  lemma Pieces(a: string, k: string, n: string, r: string)
    ensures OccursAt(a + k + n + r, k, |a|)
    ensures OccursAt(a + k + n + r, n, |a| + |k|)
    ensures (a + k + n + r)[|a| + |k|..] == n + r
    ensures (a + k + n + r)[|a| + |k| + |n|..] == r
  {
    var text := a + k + n + r;
    assert text[|a|..|a| + |k|] == k;
    assert text[|a| + |k|..|a| + |k| + |n|] == n;
  }

  lemma Layout(gap: string, entries: seq<Entry>)
    requires entries != []
    ensures var text, number, rest :=
              Render(gap, entries), Decimal(entries[0].cid), Render(entries[0].gap, entries[1..]);
            && OccursAt(text, KEY, |gap|)
            && OccursAt(text, number, |gap| + |KEY|)
            && text[|gap| + |KEY|..] == number + rest
            && text[|gap| + |KEY| + |number|..] == rest
  {
    var number, rest := Decimal(entries[0].cid), Render(entries[0].gap, entries[1..]);
    assert Render(gap, entries) == gap + KEY + number + rest;
    Pieces(gap, KEY, number, rest);
  }

  lemma SplitPattern(text: string, a: string, b: string, p: nat)
    ensures OccursAt(text, a + b, p) <==> OccursAt(text, a, p) && OccursAt(text, b, p + |a|)
  {
    if p + |a + b| <= |text| {
      var both := text[p..p + |a + b|];
      assert both[..|a|] == text[p..p + |a|];
      assert both[|a|..] == text[p + |a|..p + |a| + |b|];
      assert both == both[..|a|] + both[|a|..];
      assert (a + b)[..|a|] == a && (a + b)[|a|..] == b;
    }
  }

  lemma PatternTail(text: string, key: string, number: string, p: nat, tail: string)
    requires OccursAt(text, key + number, p) && text[p + |key|..] == tail
    ensures number <= tail
  {
    SplitPattern(text, key, number, p);
    SuffixOccurrence(text, number, p + |key|, p + |key|);
    assert tail[0..|number|] == number;
  }

  lemma ShorterNumber(text: string, key: string, number: string, whole: string, p: nat)
    requires OccursAt(text, key, p) && OccursAt(text, whole, p + |key|) && number <= whole
    ensures OccursAt(text, key + number, p)
  {
    assert whole == number + whole[|number|..];
    SplitPattern(text, number, whole[|number|..], p + |key|);
    SplitPattern(text, key, number, p);
  }

  /** Where a key can start: where the first entry's key does, or past that entry's number. */
  lemma WhereKeyStarts(gap: string, entries: seq<Entry>, p: nat)
    requires Plain(gap) && OccursAt(Render(gap, entries), KEY, p)
    ensures entries != []
    ensures p == |gap| || p >= |gap| + |KEY| + |Decimal(entries[0].cid)|
  {
    KeyNotInGap(gap, entries, p);
    Layout(gap, entries);
    if p > |gap| {
      var text, number := Render(gap, entries), Decimal(entries[0].cid);
      DecimalDigits(entries[0].cid);
      KeyHasNoBorder(text, |gap|, p);
      if p < |gap| + |KEY| + |number| {
        OccursWithin(text, number, |gap| + |KEY|, p - |gap| - |KEY|);
        KeyAvoidsDigits(text, p, p);
      }
    }
  }

  lemma RenderStart(gap: string, entries: seq<Entry>)
    requires gap != ""
    ensures Render(gap, entries) != "" && Render(gap, entries)[0] == gap[0]
  {
  }

  lemma NumberFound(text: string, key: string, wanted: string, number: string, rest: string, p: nat)
    requires OccursAt(text, key + wanted, p) && text[p + |key|..] == number + rest
    requires forall i :: 0 <= i < |wanted| ==> IsDigit(wanted[i])
    requires rest != "" && !IsDigit(rest[0])
    ensures wanted <= number
  {
    PatternTail(text, key, wanted, p, number + rest);
    NumberAtKey(number, rest, wanted);
  }

  lemma AtFirstKey(gap: string, entries: seq<Entry>, cid: nat)
    requires WellFormed(entries) && entries != []
    requires OccursAt(Render(gap, entries), Wanted(cid), |gap|)
    ensures Decimal(cid) <= Decimal(entries[0].cid)
  {
    var number, rest := Decimal(entries[0].cid), Render(entries[0].gap, entries[1..]);
    DecimalDigits(cid);
    Layout(gap, entries);
    RenderStart(entries[0].gap, entries[1..]);
    NumberFound(Render(gap, entries), KEY, Decimal(cid), number, rest, |gap|);
  }

  lemma {:induction false} FoundMeansPrefix(gap: string, entries: seq<Entry>, cid: nat, p: nat) returns (i: nat)
    requires Plain(gap) && WellFormed(entries) && OccursAt(Render(gap, entries), Wanted(cid), p)
    ensures i < |entries| && Decimal(cid) <= Decimal(entries[i].cid)
    decreases |entries|
  {
    var text := Render(gap, entries);
    SplitPattern(text, KEY, Decimal(cid), p);
    WhereKeyStarts(gap, entries, p);
    if p == |gap| {
      AtFirstKey(gap, entries, cid);
      i := 0;
    } else {
      var d := |gap| + |KEY| + |Decimal(entries[0].cid)|;
      var rest := entries[1..];
      Layout(gap, entries);
      SuffixOccurrence(text, Wanted(cid), p, d);
      assert forall j :: 0 <= j < |rest| ==> rest[j] == entries[j + 1];
      i := FoundMeansPrefix(entries[0].gap, rest, cid, p - d);
      i := i + 1;
    }
  }

  lemma {:induction false} PrefixIsFound(gap: string, entries: seq<Entry>, cid: nat, i: nat) returns (p: nat)
    requires i < |entries| && Decimal(cid) <= Decimal(entries[i].cid)
    ensures OccursAt(Render(gap, entries), Wanted(cid), p)
    decreases i
  {
    var text, number := Render(gap, entries), Decimal(entries[0].cid);
    Layout(gap, entries);
    if i == 0 {
      p := |gap|;
      ShorterNumber(text, KEY, Decimal(cid), number, p);
    } else {
      var q := PrefixIsFound(entries[0].gap, entries[1..], cid, i - 1);
      p := |gap| + |KEY| + |number| + q;
      SuffixOccurrence(text, Wanted(cid), p, |gap| + |KEY| + |number|);
    }
  }

  /**
   The check answers true exactly when some running enclave's CID, written in decimal,
   begins with the digits asked for: so never false for one that runs, but true for 1 when
   only 16 runs.
   */
  lemma AnswersPrefix(gap: string, entries: seq<Entry>, cid: nat)
    requires Plain(gap) && WellFormed(entries)
    ensures Contains(Render(gap, entries), Wanted(cid)) <==>
            exists i :: 0 <= i < |entries| && Decimal(cid) <= Decimal(entries[i].cid)
    ensures (exists i :: 0 <= i < |entries| && entries[i].cid == cid) ==> Contains(Render(gap, entries), Wanted(cid))
  {
    if p: nat :| OccursAt(Render(gap, entries), Wanted(cid), p) {
      var i := FoundMeansPrefix(gap, entries, cid, p);
    }
    if i :| 0 <= i < |entries| && Decimal(cid) <= Decimal(entries[i].cid) {
      var p := PrefixIsFound(gap, entries, cid, i);
    }
  }

  ghost predicate SomePrefix(entries: seq<Entry>, cid: nat) {
    exists i :: 0 <= i < |entries| && Decimal(cid) <= Decimal(entries[i].cid)
  }

  ghost predicate SomeTakenFor(entries: seq<Entry>, cid: nat) {
    exists i :: 0 <= i < |entries| && TakenFor(entries[i].cid, cid)
  }

  lemma SamePrefixes(entries: seq<Entry>, cid: nat)
    ensures SomePrefix(entries, cid) <==> SomeTakenFor(entries, cid)
  {
    forall i | 0 <= i < |entries|
      ensures Decimal(cid) <= Decimal(entries[i].cid) <==> TakenFor(entries[i].cid, cid)
    {
      PrefixIff(cid, entries[i].cid);
    }
  }

  lemma AnswersSomePrefix(gap: string, entries: seq<Entry>, cid: nat)
    requires Plain(gap) && WellFormed(entries)
    ensures Contains(Render(gap, entries), Wanted(cid)) <==> SomePrefix(entries, cid)
  {
    AnswersPrefix(gap, entries, cid);
  }

  /** In numbers: true exactly when some running CID is the one asked for with digits added at its end. */
  lemma AnswersTruncation(gap: string, entries: seq<Entry>, cid: nat)
    requires Plain(gap) && WellFormed(entries)
    ensures Contains(Render(gap, entries), Wanted(cid)) <==> SomeTakenFor(entries, cid)
  {
    AnswersSomePrefix(gap, entries, cid);
    SamePrefixes(entries, cid);
  }

  /** A false positive: with only enclave 16 running, enclave 1 is reported as running. */
  lemma FalsePositive()
    ensures Contains(Render("", [Entry(16, ",")]), Wanted(1))
  {
    assert Decimal(16) == "16" && Decimal(1) == "1";
    var p := PrefixIsFound("", [Entry(16, ",")], 1, 0);
  }
}
