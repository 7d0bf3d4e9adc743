/** The index file (src/mbox-index.c): one line "start end" for every message, as text. */
module IndexFormat {
  import opened Bytes

  /** The token arrays have 26 bytes, one of them for the NUL. */
  const TOKEN: nat := 25

  datatype Entry = Entry(start: int, end: int)

  // ---------- Numbers ----------

  function Decimal(n: nat): (s: Bytes)
    ensures |s| > 0 && AllDigits(s)
  {
    if n < 10 then [(48 + n) as byte] else Decimal(n / 10) + [(48 + n % 10) as byte]
  }

  predicate IsDigit(b: byte) {
    48 <= b <= 57
  }

  predicate AllDigits(s: Bytes) {
    forall k :: 0 <= k < |s| ==> IsDigit(s[k])
  }

  function Value(s: Bytes): int {
    if s == [] then 0 else Value(s[..|s| - 1]) * 10 + (s[|s| - 1] as int - 48)
  }

  function DigitCount(s: Bytes): (k: nat)
    ensures k <= |s|
  {
    if s == [] || !IsDigit(s[0]) then 0 else 1 + DigitCount(s[1..])
  }

  /** `atol`, where its result fits: blanks, a sign, digits up to the first other byte. */
  function Atol(s: Bytes): int {
    if s == [] then 0
    else if s[0] == SPACE || 9 <= s[0] <= 13 then Atol(s[1..])
    else if s[0] == 45 then -Value(s[1..][..DigitCount(s[1..])])
    else if s[0] == 43 then Value(s[1..][..DigitCount(s[1..])])
    else Value(s[..DigitCount(s)])
  }

  lemma {:induction false} DecimalRoundTrip(n: nat)
    ensures Value(Decimal(n)) == n
  {
    if n >= 10 {
      DecimalRoundTrip(n / 10);
      assert Decimal(n)[..|Decimal(n)| - 1] == Decimal(n / 10);
    }
  }

  lemma {:induction false} AllAreCounted(s: Bytes)
    requires AllDigits(s)
    ensures DigitCount(s) == |s|
  {
    if s != [] {
      AllAreCounted(s[1..]);
    }
  }

  lemma AtolOfDecimal(n: nat)
    ensures Atol(Decimal(n)) == n
  {
    var s := Decimal(n);
    assert IsDigit(s[0]);
    AllAreCounted(s);
    assert s[..|s|] == s;
    DecimalRoundTrip(n);
  }

  lemma {:induction false} DigitsEnd(digits: Bytes, rest: Bytes)
    requires AllDigits(digits) && (rest != [] ==> !IsDigit(rest[0]))
    ensures DigitCount(digits + rest) == |digits|
    decreases |digits|
  {
    if digits == [] {
      assert digits + rest == rest;
    } else {
      assert (digits + rest)[1..] == digits[1..] + rest;
      DigitsEnd(digits[1..], rest);
    }
  }

  /** Blanks, a sign if there is one, a number, and whatever comes behind it. */
  lemma {:induction false} AtolIs(blanks: Bytes, sign: Bytes, n: nat, rest: Bytes)
    requires forall k :: 0 <= k < |blanks| ==> blanks[k] == 32 || 9 <= blanks[k] <= 13
    requires (sign == [] || sign == [43] || sign == [45]) && (rest != [] ==> !IsDigit(rest[0]))
    ensures Atol(blanks + (sign + (Decimal(n) + rest))) == if sign == [45] then -(n as int) else n
    decreases |blanks|
  {
    var number := sign + (Decimal(n) + rest);
    if blanks == [] {
      assert blanks + number == number;
      NumberIs(sign, n, rest);
    } else {
      assert (blanks + number)[1..] == blanks[1..] + number;
      AtolIs(blanks[1..], sign, n, rest);
    }
  }

  lemma NumberIs(sign: Bytes, n: nat, rest: Bytes)
    requires (sign == [] || sign == [43] || sign == [45]) && (rest != [] ==> !IsDigit(rest[0]))
    ensures Atol(sign + (Decimal(n) + rest)) == if sign == [45] then -(n as int) else n
  {
    var digits := Decimal(n);
    var s := digits + rest;
    DigitsEnd(digits, rest);
    DecimalRoundTrip(n);
    assert s[..|digits|] == digits && IsDigit(s[0]);
    if sign == [] {
      assert sign + s == s;
    } else {
      assert (sign + s)[1..] == s;
    }
  }

  function Pow10(k: nat): nat {
    if k == 0 then 1 else 10 * Pow10(k - 1)
  }

  lemma {:induction false} DecimalLength(n: nat, k: nat)
    requires k > 0 && n < Pow10(k)
    ensures |Decimal(n)| <= k
    decreases k
  {
    if n >= 10 {
      assert k > 1;
      DecimalLength(n / 10, k - 1);
    }
  }

  /** A 63-bit number has at most 19 digits. */
  lemma FitsToken(n: nat)
    requires n < 0x8000_0000_0000_0000
    ensures |Decimal(n)| <= TOKEN
  {
    assert Pow10(1) == 10;
    assert Pow10(4) == 10_000;
    assert Pow10(8) == 100_000_000;
    assert Pow10(12) == 1_000_000_000_000;
    assert Pow10(16) == 10_000_000_000_000_000;
    assert Pow10(19) == 10_000_000_000_000_000_000;
    DecimalLength(n, 19);
  }

  // ---------- Lines ----------

  ghost predicate Storable(es: seq<Entry>) {
    forall e :: e in es ==> 0 <= e.start < 0x8000_0000_0000_0000 && 0 <= e.end < 0x8000_0000_0000_0000
  }

  /** The printed form of one entry; `%zu` prints what is not negative. */
  function Line(e: Entry): Bytes
    requires e.start >= 0 && e.end >= 0
  {
    Decimal(e.start) + ([SPACE] + (Decimal(e.end) + [LF]))
  }

  /** "1234567890 98" and a line feed. */
  lemma LinePrinted()
    ensures Line(Entry(1234567890, 98)) == [49, 50, 51, 52, 53, 54, 55, 56, 57, 48, 32, 57, 56, 10]
  {
    assert Decimal(12) == [49, 50];
    assert Decimal(12345) == [49, 50, 51, 52, 53];
    assert Decimal(12345678) == [49, 50, 51, 52, 53, 54, 55, 56];
    assert Decimal(1234567890) == [49, 50, 51, 52, 53, 54, 55, 56, 57, 48];
    assert Decimal(98) == [57, 56];
  }

  function Lines(es: seq<Entry>): Bytes
    requires forall e :: e in es ==> e.start >= 0 && e.end >= 0
  {
    if es == [] then [] else Line(es[0]) + Lines(es[1..])
  }

  lemma {:induction false} LinesAppend(es: seq<Entry>, e: Entry)
    requires e.start >= 0 && e.end >= 0 && forall x :: x in es ==> x.start >= 0 && x.end >= 0
    ensures Lines(es + [e]) == Lines(es) + Line(e)
  {
    if es == [] {
      assert es + [e] == [e];
    } else {
      assert (es + [e])[1..] == es[1..] + [e];
      LinesAppend(es[1..], e);
      assert Line(es[0]) + (Lines(es[1..]) + Line(e)) == Line(es[0]) + Lines(es[1..]) + Line(e);
    }
  }

  // ---------- Parsing ----------

  /** What the parser makes of the data from `o` on; None where it would leave the data or a token array. */
  function ParseFrom(data: Bytes, o: nat): Option<seq<Entry>>
    requires o <= |data|
    decreases |data| - o
  {
    if o == |data| then Some([]) else
      var s := Find(data, o, SPACE);
      if s == |data| || s - o > TOKEN then None else
        var e := Find(data, s + 1, LF);
        if e == |data| || e - (s + 1) > TOKEN then None else
          WithEntry(Entry(Atol(data[o..s]), Atol(data[s + 1..e])), ParseFrom(data, e + 1))
  }

  function WithEntry(e: Entry, rest: Option<seq<Entry>>): Option<seq<Entry>> {
    if rest.None? then None else Some([e] + rest.value)
  }

  lemma OneEntry(data: Bytes, o: nat, s: nat, n: nat, a: Bytes, b: Bytes, next: nat)
    requires o <= s < |data| && s - o <= TOKEN && Find(data, o, SPACE) == s && data[o..s] == a
    requires s < n < |data| && n - (s + 1) <= TOKEN && Find(data, s + 1, LF) == n && data[s + 1..n] == b
    requires next == n + 1
    ensures ParseFrom(data, o) == WithEntry(Entry(Atol(a), Atol(b)), ParseFrom(data, next))
  {
  }

  /** Two tokens of digits, printed as a line at `o`, are the first entry parsed from there. */
  lemma FirstLine(data: Bytes, o: nat, a: Bytes, b: Bytes, next: nat)
    requires AllDigits(a) && AllDigits(b) && |a| <= TOKEN && |b| <= TOKEN
    requires Stands(data, o, a + ([SPACE] + (b + [LF]))) && next == o + |a| + |b| + 2
    ensures next <= |data| && ParseFrom(data, o) == WithEntry(Entry(Atol(a), Atol(b)), ParseFrom(data, next))
  {
    var s := o + |a|;
    var n := s + 1 + |b|;
    StandsParts(data, o, a, [SPACE] + (b + [LF]), s);
    StandsParts(data, s, [SPACE], b + [LF], s + 1);
    StandsParts(data, s + 1, b, [LF], n);
    FindToken(data, o, a, SPACE, s);
    FindToken(data, s + 1, b, LF, n);
    OneEntry(data, o, s, n, a, b, next);
  }

  lemma LineTokens(e: Entry) returns (a: Bytes, b: Bytes)
    requires Storable([e])
    ensures e.start >= 0 && e.end >= 0 && Line(e) == a + ([SPACE] + (b + [LF]))
    ensures AllDigits(a) && AllDigits(b) && |a| <= TOKEN && |b| <= TOKEN
    ensures Atol(a) == e.start && Atol(b) == e.end
  {
    assert e in [e];
    FitsToken(e.start);
    FitsToken(e.end);
    AtolOfDecimal(e.start);
    AtolOfDecimal(e.end);
    a, b := Decimal(e.start), Decimal(e.end);
  }

  /** Parsing the printed lines gives back the entries. */
  lemma {:induction false} ParseRoundTrip(data: Bytes, o: nat, es: seq<Entry>)
    requires Storable(es) && Stands(data, o, Lines(es)) && |data| == o + |Lines(es)|
    ensures ParseFrom(data, o) == Some(es)
    decreases |es|
  {
    if es != [] {
      var e, tail := es[0], es[1..];
      var next := o + |Line(e)|;
      StandsParts(data, o, Line(e), Lines(tail), next);
      ParseRoundTrip(data, next, tail);
      var a, b := LineTokens(e);
      FirstLine(data, o, a, b, next);
      assert [e] + tail == es;
    }
  }

  /** What was printed is what is parsed, from the whole file. */
  lemma SavedIsLoaded(es: seq<Entry>)
    requires Storable(es)
    ensures ParseFrom(Lines(es), 0) == Some(es)
  {
    forall k: nat | k < |Lines(es)| ensures Same(Lines(es), 0, Lines(es), k) {
    }
    ParseRoundTrip(Lines(es), 0, es);
  }
}
