/**
 Decoding "=XX" escapes with output and input in one buffer (src/mbox-buf.c); the part of
 section 4.2 of RFC 2047 that speaks of "=" and two hexadecimal digits.
 */
module Decode {
  import opened Bytes
  import opened HeaderFormat

  const EQUALS: byte := 61

  function HexToInt(c: byte): int {
    if 48 <= c <= 57 then c as int - 48
    else if 65 <= c <= 70 then c as int - 65 + 10
    else if 97 <= c <= 102 then c as int - 97 + 10
    else -1
  }

  predicate IsEscape(s: Bytes) {
    |s| >= 3 && s[0] == EQUALS && HexToInt(s[1]) != -1 && HexToInt(s[2]) != -1
  }

  /** The first byte decoded, and the rest of the text. */
  function Head(s: Bytes): byte
    requires s != []
  {
    if IsEscape(s) then (HexToInt(s[1]) * 16 + HexToInt(s[2])) as byte else s[0]
  }

  function Tail(s: Bytes): Bytes
    requires s != []
  {
    if IsEscape(s) then s[3..] else s[1..]
  }

  function Decoded(s: Bytes): (r: Bytes)
    ensures |r| <= |s|
    decreases |s|
  {
    if s == [] then [] else [Head(s)] + Decoded(Tail(s))
  }

  // ---------- What the text says ----------

  function Digit(n: nat, lower: bool): byte
    requires n < 16
  {
    if n < 10 then (48 + n) as byte else if lower then (97 + n - 10) as byte else (65 + n - 10) as byte
  }

  predicate IsDigit(c: byte) {
    48 <= c <= 57 || 65 <= c <= 70 || 97 <= c <= 102
  }

  /** The digits are "0123456789ABCDEF" or "0123456789abcdef". */
  lemma DigitTable(n: nat)
    requires n < 16
    ensures Digit(n, false) == [48, 49, 50, 51, 52, 53, 54, 55, 56, 57, 65, 66, 67, 68, 69, 70][n]
    ensures Digit(n, true) == [48, 49, 50, 51, 52, 53, 54, 55, 56, 57, 97, 98, 99, 100, 101, 102][n]
  {
  }

  /** A byte that stands for itself, or "=" and two digits, each in either case. */
  datatype Token = Itself(b: byte) | Escape(hi: nat, lo: nat, hiLower: bool, loLower: bool)

  predicate Proper(t: Token) {
    t.Escape? ==> t.hi < 16 && t.lo < 16
  }

  function Written(t: Token): Bytes
    requires Proper(t)
  {
    match t
    case Itself(b) => [b]
    case Escape(hi, lo, hiLower, loLower) => [EQUALS, Digit(hi, hiLower), Digit(lo, loLower)]
  }

  function Meant(t: Token): byte
    requires Proper(t)
  {
    match t
    case Itself(b) => b
    case Escape(hi, lo, _, _) => (16 * hi + lo) as byte
  }

  function WrittenAll(ts: seq<Token>): Bytes
    requires forall t :: t in ts ==> Proper(t)
  {
    if ts == [] then [] else Written(ts[0]) + WrittenAll(ts[1..])
  }

  function MeantAll(ts: seq<Token>): (r: Bytes)
    requires forall t :: t in ts ==> Proper(t)
    ensures |r| == |ts|
  {
    if ts == [] then [] else [Meant(ts[0])] + MeantAll(ts[1..])
  }

  /** No "=" that stands for itself has two digits behind it. */
  predicate Clear(ts: seq<Token>)
    requires forall t :: t in ts ==> Proper(t)
  {
    ts != [] ==> Clear(ts[1..]) && (ts[0] == Itself(EQUALS) ==> !TwoDigits(WrittenAll(ts[1..])))
  }

  predicate TwoDigits(s: Bytes) {
    |s| >= 2 && IsDigit(s[0]) && IsDigit(s[1])
  }

  lemma DigitIs(n: nat, lower: bool)
    requires n < 16
    ensures HexToInt(Digit(n, lower)) == n && IsDigit(Digit(n, lower)) && Digit(n, lower) != NUL
  {
  }

  lemma NoDigit(c: byte)
    ensures HexToInt(c) == -1 <==> !IsDigit(c)
    ensures IsDigit(c) ==> 0 <= HexToInt(c) < 16 && (c == Digit(HexToInt(c), true) || c == Digit(HexToInt(c), false))
  {
  }

  lemma EscapeHead(s: Bytes, hi: nat, lo: nat)
    requires |s| >= 3 && s[0] == EQUALS && hi < 16 && lo < 16 && HexToInt(s[1]) == hi && HexToInt(s[2]) == lo
    ensures Decoded(s) == [(16 * hi + lo) as byte] + Decoded(s[3..])
  {
  }

  lemma EscapeDecodes(hi: nat, lo: nat, x: byte, y: byte, rest: Bytes)
    requires hi < 16 && lo < 16 && HexToInt(x) == hi && HexToInt(y) == lo
    ensures Decoded([EQUALS, x, y] + rest) == [(16 * hi + lo) as byte] + Decoded(rest)
  {
    var s := [EQUALS, x, y] + rest;
    assert s[3..] == rest;
    EscapeHead(s, hi, lo);
  }

  lemma ItselfDecodes(b: byte, rest: Bytes)
    requires b == EQUALS ==> !TwoDigits(rest)
    ensures Decoded([b] + rest) == [b] + Decoded(rest)
  {
    var s := [b] + rest;
    if |rest| >= 2 {
      assert s[1] == rest[0] && s[2] == rest[1];
      NoDigit(rest[0]);
      NoDigit(rest[1]);
    }
    assert !IsEscape(s) && Tail(s) == rest;
  }

  /** One token, in front of a text. */
  lemma TokenDecodes(t: Token, rest: Bytes)
    requires Proper(t) && (t == Itself(EQUALS) ==> !TwoDigits(rest))
    ensures Decoded(Written(t) + rest) == [Meant(t)] + Decoded(rest)
  {
    match t
    case Itself(b) => ItselfDecodes(b, rest);
    case Escape(hi, lo, hiLower, loLower) =>
      var x, y := Digit(hi, hiLower), Digit(lo, loLower);
      DigitIs(hi, hiLower);
      DigitIs(lo, loLower);
      EscapeDecodes(hi, lo, x, y, rest);
  }

  /** Decoding gives every token its meaning: the byte the digits name, or the byte itself. */
  lemma {:induction false} TokensDecode(ts: seq<Token>)
    requires (forall t :: t in ts ==> Proper(t)) && Clear(ts)
    ensures Decoded(WrittenAll(ts)) == MeantAll(ts)
    decreases |ts|
  {
    if ts != [] {
      TokensDecode(ts[1..]);
      assert ts[0] in ts;
      TokenDecodes(ts[0], WrittenAll(ts[1..]));
    }
  }

  /** Every text is written in such tokens. */
  lemma {:induction false} TokensOf(s: Bytes) returns (ts: seq<Token>)
    ensures (forall t :: t in ts ==> Proper(t)) && Clear(ts) && WrittenAll(ts) == s
    decreases |s|
  {
    if s == [] {
      ts := [];
    } else if s[0] == EQUALS && TwoDigits(s[1..]) {
      NoDigit(s[1]);
      NoDigit(s[2]);
      var hi, lo := HexToInt(s[1]), HexToInt(s[2]);
      var t := Escape(hi, lo, s[1] == Digit(hi, true), s[2] == Digit(lo, true));
      var rest := TokensOf(s[3..]);
      ts := [t] + rest;
      assert ts[1..] == rest && s == Written(t) + s[3..];
    } else {
      var rest := TokensOf(s[1..]);
      ts := [Itself(s[0])] + rest;
      assert ts[1..] == rest && s == Written(Itself(s[0])) + s[1..];
    }
  }

  /** So decoding a text comes to `d` exactly if the text is written in tokens that mean `d`. */
  lemma DecodedIff(s: Bytes, d: Bytes)
    ensures Decoded(s) == d <==>
      exists ts: seq<Token> :: (forall t :: t in ts ==> Proper(t)) && Clear(ts) && WrittenAll(ts) == s && MeantAll(ts) == d
  {
    var ts := TokensOf(s);
    TokensDecode(ts);
    assert WrittenAll(ts) == s && MeantAll(ts) == Decoded(s);
    forall us: seq<Token> | (forall t :: t in us ==> Proper(t)) && Clear(us) && WrittenAll(us) == s ensures MeantAll(us) == Decoded(s) {
      TokensDecode(us);
    }
  }

  // ---------- The encoders it inverts ----------

  /** "=" and NUL are escaped, and whatever else the encoder likes to escape. */
  predicate Escaped(ts: seq<Token>) {
    forall t :: t in ts ==> Proper(t) && t != Itself(EQUALS) && t != Itself(NUL)
  }

  lemma {:induction false} EscapedIsClear(ts: seq<Token>)
    requires Escaped(ts)
    ensures Clear(ts)
    decreases |ts|
  {
    if ts != [] {
      assert ts[0] in ts;
      EscapedIsClear(ts[1..]);
    }
  }

  /** Decoding undoes every such encoder, whichever case it writes its digits in. */
  lemma DecodeRoundTrip(s: Bytes, ts: seq<Token>)
    requires Escaped(ts) && MeantAll(ts) == s
    ensures Decoded(WrittenAll(ts)) == s
  {
    EscapedIsClear(ts);
    TokensDecode(ts);
  }

  /** What an encoder writes holds no NUL, so the decoder sees all of it. */
  lemma {:induction false} EncodedHasNoNul(ts: seq<Token>)
    requires Escaped(ts)
    ensures NUL !in WrittenAll(ts)
    decreases |ts|
  {
    if ts != [] {
      assert ts[0] in ts;
      EncodedHasNoNul(ts[1..]);
      if ts[0].Escape? {
        DigitIs(ts[0].hi, ts[0].hiLower);
        DigitIs(ts[0].lo, ts[0].loLower);
      }
    }
  }

  /** A text without "=" says itself. */
  lemma {:induction false} PlainDecodes(s: Bytes)
    requires EQUALS !in s
    ensures Decoded(s) == s
    decreases |s|
  {
    if s != [] {
      PlainDecodes(s[1..]);
    }
  }

  // ---------- In place ----------

  /** The rest of the text stands from `i` up to a NUL at `n`, with a byte to spare behind it. */
  ghost predicate RestAt(data: Bytes, i: nat, n: nat, rest: Bytes) {
    && i <= n && n + 1 < |data| && data[n] == NUL && |rest| == n - i
    && forall k :: i <= k < n ==> data[k] == rest[k - i] && data[k] != NUL
  }

  /** Midway: decoded up to `out`, the rest not yet touched. */
  ghost predicate Decoding(before: Bytes, now: Bytes, text: Bytes, out: nat, i: nat, rest: Bytes) {
    && out <= i && |now| == |before| && RestAt(now, i, |text|, rest)
    && Decoded(text) == now[..out] + Decoded(rest)
    && forall k :: out <= k < |now| ==> now[k] == before[k]
  }

  /** What the loop reads ahead: an escape is seen in the buffer exactly when the text has one. */
  lemma ReadAhead(data: Bytes, i: nat, n: nat, rest: Bytes)
    requires RestAt(data, i, n, rest) && i < n
    ensures rest != [] && data[i] == rest[0]
    ensures data[i] == EQUALS ==>
      (IsEscape(rest) <==> HexToInt(data[i + 1]) != -1 && HexToInt(data[i + 2]) != -1)
    ensures IsEscape(rest) ==> data[i + 1] == rest[1] && data[i + 2] == rest[2]
  {
    assert i + 1 < n ==> data[i + 1] == rest[1];
    assert i + 2 < n ==> data[i + 2] == rest[2];
  }

  lemma RestStep(now: Bytes, i: nat, n: nat, rest: Bytes, out: nat, b: byte, d: nat)
    requires RestAt(now, i, n, rest) && out <= i && 0 < d <= |rest|
    ensures RestAt(now[out := b], i + d, n, rest[d..])
  {
  }

  /** One byte is written; it lands in front of everything still to be read. */
  lemma DecodeStep(before: Bytes, now: Bytes, text: Bytes, out: nat, i: nat, rest: Bytes)
    requires Decoding(before, now, text, out, i, rest) && rest != []
    ensures var j := i + if IsEscape(rest) then 3 else 1;
      j <= |text| && Decoding(before, now[out := Head(rest)], text, out + 1, j, Tail(rest))
  {
    RestStep(now, i, |text|, rest, out, Head(rest), if IsEscape(rest) then 3 else 1);
    var front, b, more := now[..out], Head(rest), Decoded(Tail(rest));
    assert now[out := b][..out + 1] == front + [b];
    assert front + ([b] + more) == front + [b] + more;
  }

  /** One byte or one escape, from place `i` to place `out`. */
  method DecodeByte(data: array<byte>, i: nat, out: nat, ghost n: nat, ghost rest: Bytes) returns (next: nat)
    requires RestAt(data[..], i, n, rest) && i < n && out <= i
    modifies data
    ensures rest != [] && next == i + (if IsEscape(rest) then 3 else 1)
    ensures data[..] == old(data[..])[out := Head(rest)]
  {
    ReadAhead(data[..], i, n, rest);
    next := i + 1;
    if data[i] == EQUALS {
      var hi, lo := HexToInt(data[i + 1]), HexToInt(data[i + 2]);
      if hi != -1 && lo != -1 {
        data[out] := (hi * 16 + lo) as byte;
        return i + 3;
      }
    }
    data[out] := data[i];
  }

  /**
   Decodes the NUL-terminated text at the start of `data` onto itself. The place written to
   never passes the place read from, so the result is that of decoding the original text.
   */
  method DecodeMimeEncoded(data: array<byte>, ghost text: Bytes) returns (outlen: nat)
    requires RestAt(data[..], 0, |text|, text)
    modifies data
    ensures outlen == |Decoded(text)| && data[..outlen] == Decoded(text)
    ensures forall k :: outlen <= k < data.Length ==> data[k] == old(data[k])
  {
    outlen := 0;
    var i := 0;
    ghost var rest, before := text, data[..];
    while data[i] != NUL
      invariant i <= |text| && Decoding(before, data[..], text, outlen, i, rest)
      decreases |text| - i
    {
      ghost var now := data[..];
      DecodeStep(before, now, text, outlen, i, rest);
      i := DecodeByte(data, i, outlen, |text|, rest);
      outlen := outlen + 1;
      rest := Tail(rest);
    }
    assert rest == [];
    assert data[..outlen] + [] == data[..outlen];
  }

  /** memmove towards the start, and a NUL behind what was moved. */
  method Slice(data: array<byte>, from: nat, size: nat)
    requires from + size < data.Length
    modifies data
    ensures data[..size] == old(data[from..from + size]) && data[size] == NUL
    ensures forall k :: size < k < data.Length ==> data[k] == old(data[k])
  {
    var k := 0;
    while k < size
      invariant k <= size
      invariant forall j :: 0 <= j < k ==> data[j] == old(data[from + j])
      invariant forall j :: k <= j < data.Length ==> data[j] == old(data[j])
    {
      data[k] := data[from + k];
      k := k + 1;
    }
    data[size] := NUL;
  }

  /** The text before the first NUL. */
  function UpToNul(s: Bytes): Bytes {
    s[..Find(s, 0, NUL)]
  }

  /**
   Decodes an encoded word of `len` bytes in place: what stands between the ten bytes of
   prefix and the two of suffix, up to a first NUL. Fails where C would move a negative size.
   */
  method DecodeInplace(data: array<byte>, len: nat) returns (ok: bool, newLen: nat)
    requires len < data.Length
    modifies data
    ensures ok <==> len >= 12
    ensures ok ==> newLen <= len - 12 && data[newLen] == NUL
    ensures ok ==> data[..newLen] == Decoded(UpToNul(old(data[10..len - 2])))
  {
    if len < 12 {
      return false, len;
    }
    ghost var word := data[10..len - 2];
    Slice(data, 10, len - 10 - 2);
    assert data[..len - 12] == word;
    TextOf(data[..], len - 12, word);
    newLen := DecodeMimeEncoded(data, UpToNul(word));
    data[newLen] := NUL;
    return true, newLen;
  }

  lemma TextOf(data: Bytes, size: nat, word: Bytes)
    requires size + 1 < |data| && data[..size] == word && data[size] == NUL
    ensures RestAt(data, 0, |UpToNul(word)|, UpToNul(word))
  {
    var n := Find(word, 0, NUL);
    FindStops(word, 0, NUL);
    forall k | 0 <= k < n ensures data[k] == UpToNul(word)[k] && data[k] != NUL {
      assert data[k] == word[k];
    }
    assert n < size ==> data[n] == word[n];
  }

  /** The guard lets one word through that is too short: prefix and suffix sharing a "?". */
  lemma ShortWord(s: Bytes)
    ensures IsMimeEncoded(s) && |s| < 12 <==> s == MIME_PREFIX + [EQUALS]
  {
    if IsMimeEncoded(s) && |s| < 12 {
      assert s[..10][9] == s[9] && s[|s| - 2..][1] == s[|s| - 1];
      assert s == s[..10] + [s[10]];
    }
  }
}
