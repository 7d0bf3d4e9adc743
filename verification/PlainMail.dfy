/**
 What the header parser makes of ordinary mail: lines that end in CR LF, values folded at
 blanks or tabs. Printed byte for byte here, so that nothing rests on the parser's own terms.
 */
module PlainMail {
  import opened Bytes
  import opened KeyOrder
  import opened HeaderFormat
  import opened HeaderRoundTrip

  /** A header: its value begins with `first` and goes on in lines that begin with a space, or with a tab. */
  datatype Mail = Mail(key: Bytes, first: Bytes, tabs: bool, more: seq<Bytes>)

  function Blank(tabs: bool): byte {
    if tabs then 9 else 32
  }

  /** Key, ": ", and lines that end in CR LF. */
  function MailText(m: Mail): Bytes {
    m.key + ([58, 32] + (m.first + ([13, 10] + MoreText(m.tabs, m.more))))
  }

  function MoreText(tabs: bool, more: seq<Bytes>): Bytes {
    if more == [] then [] else [Blank(tabs)] + (more[0] + ([13, 10] + MoreText(tabs, more[1..])))
  }

  function MailTexts(ms: seq<Mail>): Bytes {
    if ms == [] then [] else MailText(ms[0]) + MailTexts(ms[1..])
  }

  /** Unfolded: the line ends go; a space stays, a tab does not. */
  function MailValue(m: Mail): Bytes {
    m.first + MoreValue(m.tabs, m.more)
  }

  function MoreValue(tabs: bool, more: seq<Bytes>): Bytes {
    if more == [] then [] else (if tabs then [] else [32]) + (more[0] + MoreValue(tabs, more[1..]))
  }

  function MailPairs(ms: seq<Mail>): seq<Pair> {
    if ms == [] then [] else [Pair(ms[0].key, MailValue(ms[0]))] + MailPairs(ms[1..])
  }

  predicate Plain(s: Bytes) {
    forall k :: 0 <= k < |s| ==> s[k] != 9 && s[k] != 10 && s[k] != 13
  }

  /** "=?utf-8?Q?" in front and "?=" at the end. */
  predicate EncodedWord(v: Bytes) {
    [61, 63, 117, 116, 102, 45, 56, 63, 81, 63] <= v && v[|v| - 2..] == [63, 61]
  }

  ghost predicate GoodMail(m: Mail) {
    && Plain(m.key) && (forall k :: 0 <= k < |m.key| ==> m.key[k] != 58)
    && (m.key != [] ==> m.key[0] != 32) && !([70, 114, 111, 109, 32] <= m.key)
    && Plain(m.first) && (forall i :: 0 <= i < |m.more| ==> Plain(m.more[i]))
    && !EncodedWord(MailValue(m))
  }

  ghost predicate GoodMails(ms: seq<Mail>) {
    forall i :: 0 <= i < |ms| ==> GoodMail(ms[i])
  }

  // ---------- Bytes dropped, and values decoded ----------

  /** A byte is dropped from a value if it is CR or a tab. */
  lemma {:induction false} StripByte(b: byte)
    ensures Strip([b]) == if b == 13 || b == 9 then [] else [b]
    ensures DropCR([b]) == if b == 13 then [] else [b]
  {
    assert [b][..0] == [];
  }

  lemma {:induction false} StripPlain(s: Bytes)
    requires Plain(s)
    ensures Strip(s) == s
    decreases |s|
  {
    if s != [] {
      StripPlain(s[..|s| - 1]);
    }
  }

  lemma {:induction false} DropCRJoins(a: Bytes, b: Bytes)
    ensures DropCR(a + b) == DropCR(a) + DropCR(b)
    decreases |b|
  {
    if b == [] {
      assert a + b == a;
    } else {
      var n := |b| - 1;
      assert (a + b)[..|a + b| - 1] == a + b[..n];
      DropCRJoins(a, b[..n]);
    }
  }

  /** A value is decoded if it is an encoded word, and stored as it was unfolded if it is not. */
  lemma {:induction false} StoredIs(dec: Decoder, v: Bytes)
    ensures Stored(dec, v) == if EncodedWord(v) then dec(v) else v
  {
    if |v| >= 10 && v[..10] == MIME_PREFIX {
      assert MIME_PREFIX <= v;
    }
  }

  lemma {:induction false} StoredEncoded(dec: Decoder, text: Bytes)
    ensures var v := [61, 63, 117, 116, 102, 45, 56, 63, 81, 63] + text + [63, 61]; Stored(dec, v) == dec(v)
  {
    var v := [61, 63, 117, 116, 102, 45, 56, 63, 81, 63] + text + [63, 61];
    assert v[..10] == [61, 63, 117, 116, 102, 45, 56, 63, 81, 63];
    assert v[|v| - 2..] == [63, 61];
    StoredIs(dec, v);
  }

  // ---------- Mail as printed headers ----------

  /** The lines behind the first one, as parts of the value. */
  function MoreParts(tabs: bool, more: seq<Bytes>): (r: seq<Bytes>)
    ensures |r| == |more|
    ensures forall i :: 0 <= i < |more| ==> r[i] == [Blank(tabs)] + (more[i] + [13])
  {
    if more == [] then [] else [[Blank(tabs)] + (more[0] + [13])] + MoreParts(tabs, more[1..])
  }

  function AsHeader(m: Mail): Header {
    Header(m.key, [m.first + [13]] + MoreParts(m.tabs, m.more))
  }

  function AsHeaders(ms: seq<Mail>): (r: seq<Header>)
    ensures |r| == |ms| && forall i :: 0 <= i < |ms| ==> r[i] == AsHeader(ms[i])
  {
    if ms == [] then [] else [AsHeader(ms[0])] + AsHeaders(ms[1..])
  }

  lemma {:induction false} LineEnd(line: Bytes, rest: Bytes)
    ensures (line + [13]) + ([10] + rest) == line + ([13, 10] + rest)
  {
  }

  lemma {:induction false} FoldedLineEnd(b: byte, line: Bytes, rest: Bytes)
    ensures ([b] + (line + [13])) + ([10] + rest) == [b] + (line + ([13, 10] + rest))
  {
  }

  lemma {:induction false} MorePrinted(tabs: bool, more: seq<Bytes>)
    ensures PrintParts(MoreParts(tabs, more)) == MoreText(tabs, more)
    decreases |more|
  {
    if more != [] {
      var rest := more[1..];
      MorePrinted(tabs, rest);
      assert MoreParts(tabs, more)[1..] == MoreParts(tabs, rest);
      FoldedLineEnd(Blank(tabs), more[0], MoreText(tabs, rest));
    }
  }

  lemma {:induction false} MailPrinted(m: Mail)
    ensures PrintHeader(AsHeader(m)) == MailText(m)
  {
    var parts := AsHeader(m).parts;
    assert parts[1..] == MoreParts(m.tabs, m.more);
    MorePrinted(m.tabs, m.more);
    LineEnd(m.first, MoreText(m.tabs, m.more));
  }

  lemma {:induction false} MailsPrinted(ms: seq<Mail>)
    ensures PrintHeaders(AsHeaders(ms)) == MailTexts(ms)
    decreases |ms|
  {
    if ms != [] {
      MailPrinted(ms[0]);
      MailsPrinted(ms[1..]);
      assert AsHeaders(ms)[1..] == AsHeaders(ms[1..]);
    }
  }

  lemma {:induction false} MailGood(m: Mail)
    requires GoodMail(m)
    ensures GoodHeader(AsHeader(m))
  {
    var parts := AsHeader(m).parts;
    forall i | 0 <= i < |parts| ensures NoLF(parts[i]) && (i > 0 ==> parts[i] != [] && IsFold(parts[i][0])) {
      if i > 0 {
        assert parts[i] == [Blank(m.tabs)] + (m.more[i - 1] + [13]);
      }
    }
  }

  // ---------- Its values ----------

  lemma {:induction false} MoreStripped(tabs: bool, more: seq<Bytes>)
    requires forall i :: 0 <= i < |more| ==> Plain(more[i])
    ensures Strip(Concat(MoreParts(tabs, more))) == MoreValue(tabs, more)
    decreases |more|
  {
    if more != [] {
      var rest := more[1..];
      MoreStripped(tabs, rest);
      assert MoreParts(tabs, more)[1..] == MoreParts(tabs, rest);
      var line := more[0] + [13];
      StripJoins([Blank(tabs)] + line, Concat(MoreParts(tabs, rest)));
      StripJoins([Blank(tabs)], line);
      LineStripped(more[0]);
      StripByte(Blank(tabs));
      Associate(Strip([Blank(tabs)]), more[0], MoreValue(tabs, rest));
    }
  }

  lemma {:induction false} LineStripped(line: Bytes)
    requires Plain(line)
    ensures Strip(line + [13]) == line
  {
    StripJoins(line, [13]);
    StripPlain(line);
    StripByte(13);
    assert line + [] == line;
  }

  lemma {:induction false} MailUnfolded(dec: Decoder, m: Mail)
    requires GoodMail(m)
    ensures Unfolded(dec, AsHeader(m)) == Pair(m.key, MailValue(m))
  {
    var parts, more := AsHeader(m).parts, MoreParts(m.tabs, m.more);
    assert parts[1..] == more;
    StripJoins(m.first + [13], Concat(more));
    LineStripped(m.first);
    MoreStripped(m.tabs, m.more);
    StoredIs(dec, MailValue(m));
  }

  lemma {:induction false} MailsUnfolded(dec: Decoder, ms: seq<Mail>)
    requires GoodMails(ms)
    ensures UnfoldedAll(dec, AsHeaders(ms)) == MailPairs(ms)
    decreases |ms|
  {
    if ms != [] {
      MailUnfolded(dec, ms[0]);
      var rest := ms[1..];
      assert forall i :: 0 <= i < |rest| ==> rest[i] == ms[i + 1];
      MailsUnfolded(dec, rest);
      assert AsHeaders(ms)[1..] == AsHeaders(rest);
    }
  }

  /**
   A block of such headers, a blank line, and a body that does not begin with another one: the
   parser gives each key with its unfolded value, in order, and stops at the first byte of the body.
   */
  lemma {:induction false} PlainMailParses(dec: Decoder, mem: Bytes, len: nat, o: nat, ms: seq<Mail>, end: nat)
    requires ms != [] && GoodMails(ms) && Stands(mem, o, MailTexts(ms)) && end == o + |MailTexts(ms)|
    requires end + 2 <= len < |mem| && mem[end] == 13 && mem[end + 1] == 10
    requires mem[end + 2] != 13 && mem[end + 2] != 10
    ensures ParseHeaders(dec, mem, len, o) == Scanned(MailPairs(ms), end + 2)
  {
    MailsPrinted(ms);
    MailsUnfolded(dec, ms);
    var hs := AsHeaders(ms);
    forall i | 0 <= i < |hs| ensures GoodHeader(hs[i]) {
      MailGood(ms[i]);
    }
    assert BlankTo(mem, len, end, end + 2);
    HeadersRoundTrip(dec, mem, len, o, o, hs, end, end + 2);
  }

  lemma {:induction false} DropCRPlain(s: Bytes)
    requires Plain(s)
    ensures DropCR(s) == s
    decreases |s|
  {
    if s != [] {
      DropCRPlain(s[..|s| - 1]);
    }
  }

  /** With a From line in front: the line under "__FROM_LINE__", and once more in front of the first key. */
  lemma {:induction false} FromMailParses(dec: Decoder, mem: Bytes, len: nat, o: nat, from: Bytes, start: nat, ms: seq<Mail>, end: nat)
    requires [70, 114, 111, 109, 32] <= from && Plain(from) && Stands(mem, o, from + [13, 10]) && start == o + |from| + 2
    requires ms != [] && GoodMails(ms) && Stands(mem, start, MailTexts(ms)) && end == start + |MailTexts(ms)|
    requires end + 2 <= len < |mem| && mem[end] == 13 && mem[end + 1] == 10
    requires mem[end + 2] != 13 && mem[end + 2] != 10
    ensures ParseHeaders(dec, mem, len, o) ==
      Scanned([Pair([95, 95, 70, 82, 79, 77, 95, 76, 73, 78, 69, 95, 95], from), Pair(from + ms[0].key, MailValue(ms[0]))]
              + MailPairs(ms[1..]), end + 2)
  {
    MailsPrinted(ms);
    var hs := AsHeaders(ms);
    forall i | 0 <= i < |hs| ensures GoodHeader(hs[i]) {
      MailGood(ms[i]);
    }
    assert BlankTo(mem, len, end, end + 2);
    FromLineOf(mem, o, from);
    FromLineJoinsKey(dec, mem, len, o, from + [13], start, hs, end, end + 2);
    MailUnfolded(dec, ms[0]);
    var rest := ms[1..];
    assert forall i :: 0 <= i < |rest| ==> rest[i] == ms[i + 1];
    MailsUnfolded(dec, rest);
    assert hs[1..] == AsHeaders(rest);
  }

  lemma {:induction false} FromLineOf(mem: Bytes, o: nat, from: Bytes)
    requires [70, 114, 111, 109, 32] <= from && Plain(from) && Stands(mem, o, from + [13, 10])
    ensures FROM <= from + [13] && NoLF(from + [13]) && DropCR(from + [13]) == from
    ensures Stands(mem, o, from + [13]) && Stands(mem, o + |from + [13]|, [LF])
  {
    assert from + [13, 10] == (from + [13]) + [10];
    StandsParts(mem, o, from + [13], [10], o + |from + [13]|);
    DropCRJoins(from, [13]);
    DropCRPlain(from);
    StripByte(13);
    assert from + [] == from;
  }
}
