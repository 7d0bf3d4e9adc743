/** Parsing a printed header block gives back its unfolded pairs, and stops at the body. */
module HeaderRoundTrip {
  import opened Bytes
  import opened KeyOrder
  import opened HeaderFormat

  // ---------- Values ----------

  lemma {:induction false} StripJoins(a: Bytes, b: Bytes)
    ensures Strip(a + b) == Strip(a) + Strip(b)
  {
    if b == [] {
      assert a + b == a;
    } else {
      var n := |b| - 1;
      assert (a + b)[..|a + b| - 1] == a + b[..n];
      StripJoins(a, b[..n]);
    }
  }

  /** A value in parts, printed at `o`, is read and unfolded. */
  lemma {:induction false} ValueStands(mem: Bytes, o: nat, parts: seq<Bytes>, acc: Bytes, next: nat)
    requires parts != [] && Folded(parts) && Stands(mem, o, PrintParts(parts))
    requires next == o + |PrintParts(parts)| < |mem| && !IsFold(mem[next])
    ensures ValueFrom(mem, o, acc) == Some((acc + Strip(Concat(parts)), next))
    decreases |parts|
  {
    var p, rest := parts[0], parts[1..];
    var nl := o + |p|;
    StandsParts(mem, o, p, [LF] + PrintParts(rest), nl);
    StandsParts(mem, nl, [LF], PrintParts(rest), nl + 1);
    assert NoLF(p);
    FindToken(mem, o, p, LF, nl);
    if rest == [] {
      assert p + [] == p;
      ValueEnds(mem, o, p, acc, nl);
    } else {
      FoldedTail(parts);
      assert Same(mem, nl + 1, PrintParts(rest), 0);
      ValueStands(mem, nl + 1, rest, acc + Strip(p), next);
      ValueGoesOn(mem, o, p, acc, nl);
      StripJoins(p, Concat(rest));
      Associate(acc, Strip(p), Strip(Concat(rest)));
    }
  }

  lemma Associate(a: Bytes, b: Bytes, c: Bytes)
    ensures a + b + c == a + (b + c)
  {
  }

  lemma ValueGoesOn(mem: Bytes, o: nat, p: Bytes, acc: Bytes, nl: nat)
    requires o <= nl && nl + 1 < |mem| && Find(mem, o, LF) == nl && mem[o..nl] == p && IsFold(mem[nl + 1])
    ensures ValueFrom(mem, o, acc) == ValueFrom(mem, nl + 1, acc + Strip(p))
  {
  }

  lemma ValueEnds(mem: Bytes, o: nat, p: Bytes, acc: Bytes, nl: nat)
    requires o <= nl && nl + 1 < |mem| && Find(mem, o, LF) == nl && mem[o..nl] == p && !IsFold(mem[nl + 1])
    ensures ValueFrom(mem, o, acc) == Some((acc + Strip(p), nl + 1))
  {
  }

  lemma FoldedTail(parts: seq<Bytes>)
    requires Folded(parts) && |parts| > 1
    ensures Folded(parts[1..]) && parts[1] != [] && IsFold(parts[1][0]) && parts[1..][0] == parts[1]
  {
    var rest := parts[1..];
    forall i | 0 <= i < |rest| ensures NoLF(rest[i]) && (i >= 1 ==> rest[i] != [] && IsFold(rest[i][0])) {
      assert rest[i] == parts[i + 1];
    }
  }

  // ---------- One header ----------

  lemma {:induction false} FromMatchStops(mem: Bytes, o: nat, k: nat, m: nat)
    requires k <= m < 5 && o + m < |mem| && mem[o + m] != FROM[m]
    ensures FromMatch(mem, o, k) <= m
    decreases m - k
  {
    if k < m && mem[o + k] == FROM[k] {
      FromMatchStops(mem, o, k + 1, m);
    }
  }

  /** A good key is not mistaken for a From line. */
  lemma NoFromLine(mem: Bytes, o: nat, key: Bytes)
    requires GoodKey(key) && Stands(mem, o, key) && Stands(mem, o + |key|, [COLON])
    ensures FromPart(mem, o) == Some(([], [], o))
  {
    var m: nat;
    if k: nat :| k < 5 && k < |key| && key[k] != FROM[k] {
      m := k;
      assert Same(mem, o, key, m);
    } else {
      assert |key| < 5;
      m := |key|;
      assert Same(mem, o + |key|, [COLON], 0);
    }
    FromMatchStops(mem, o, 0, m);
  }

  lemma HeaderIs(dec: Decoder, mem: Bytes, o: nat, c: nat, key: Bytes, v: Bytes, line: Bytes, pairs: seq<Pair>, next: nat)
    requires o <= c && c + 2 <= |mem| && Find(mem, o, COLON) == c && mem[o..c] == key
    requires ValueFrom(mem, c + 2, []) == Some((v, next))
    ensures HeaderAfter(dec, mem, line, pairs, o) == Scanned(pairs + [Pair(line + key, Stored(dec, v))], next)
  {
  }

  lemma KeyAndValue(dec: Decoder, mem: Bytes, o: nat, h: Header, line: Bytes, pairs: seq<Pair>, next: nat)
    requires (forall k :: 0 <= k < |h.key| ==> h.key[k] != COLON) && h.parts != [] && Folded(h.parts)
    requires Stands(mem, o, PrintHeader(h))
    requires next == o + |PrintHeader(h)| < |mem| && !IsFold(mem[next])
    ensures HeaderAfter(dec, mem, line, pairs, o) == Scanned(pairs + [Pair(line + h.key, Stored(dec, Strip(Concat(h.parts))))], next)
  {
    var c := o + |h.key|;
    StandsParts(mem, o, h.key, [COLON, SPACE] + PrintParts(h.parts), c);
    StandsParts(mem, c, [COLON, SPACE], PrintParts(h.parts), c + 2);
    assert Same(mem, c, [COLON, SPACE], 0);
    assert Same(mem, c, [COLON], 0);
    FindToken(mem, o, h.key, COLON, c);
    var v := Strip(Concat(h.parts));
    ValueStands(mem, c + 2, h.parts, [], next);
    assert [] + v == v;
    HeaderIs(dec, mem, o, c, h.key, v, line, pairs, next);
  }

  lemma HeaderStands(dec: Decoder, mem: Bytes, o: nat, h: Header, next: nat)
    requires GoodHeader(h) && Stands(mem, o, PrintHeader(h))
    requires next == o + |PrintHeader(h)| < |mem| && !IsFold(mem[next])
    ensures OneHeader(dec, mem, o) == Scanned([Unfolded(dec, h)], next)
  {
    var c := o + |h.key|;
    StandsParts(mem, o, h.key, [COLON, SPACE] + PrintParts(h.parts), c);
    StandsParts(mem, c, [COLON, SPACE], PrintParts(h.parts), c + 2);
    assert Same(mem, c, [COLON, SPACE], 0);
    assert Same(mem, c, [COLON], 0);
    NoFromLine(mem, o, h.key);
    KeyAndValue(dec, mem, o, h, [], [], next);
    assert [] + h.key == h.key && [] + [Unfolded(dec, h)] == [Unfolded(dec, h)];
  }

  // ---------- Blocks ----------

  /** Behind the headers: line ends up to `stop`, and something else there. */
  ghost predicate BlankTo(mem: Bytes, len: nat, end: nat, stop: nat) {
    && end < stop <= len < |mem| && !IsLine(mem[stop])
    && forall k :: end <= k < stop ==> IsLine(mem[k])
  }

  /** Where the headers end: at a blank line, or with the message; then the byte behind it is looked at. */
  ghost predicate EndsAt(mem: Bytes, len: nat, end: nat, stop: nat) {
    || BlankTo(mem, len, end, stop)
    || (end == len < |mem| && !IsFold(mem[len]) && stop == if IsLine(mem[len]) then len + 1 else len)
  }

  lemma {:induction false} SkipsBlank(mem: Bytes, len: nat, o: nat, stop: nat)
    requires o <= stop <= len < |mem| && !IsLine(mem[stop]) && forall k :: o <= k < stop ==> IsLine(mem[k])
    ensures SkipLines(mem, len, o) == stop
    decreases stop - o
  {
    if o < stop {
      SkipsBlank(mem, len, o + 1, stop);
    }
  }

  /** The first byte of a printed header. */
  lemma HeaderStarts(mem: Bytes, o: nat, h: Header)
    requires GoodKey(h.key) && Stands(mem, o, PrintHeader(h))
    ensures o < |mem| && !IsLine(mem[o]) && !IsFold(mem[o])
  {
    assert Same(mem, o, PrintHeader(h), 0);
  }

  lemma LoopTurn(dec: Decoder, mem: Bytes, len: nat, o: nat, pairs: seq<Pair>, ps: seq<Pair>, next: nat)
    requires o < len < |mem| && OneHeader(dec, mem, o) == Scanned(ps, next) && next <= len
    ensures !IsLine(mem[next]) ==> ParseLoop(dec, mem, len, o, pairs) == ParseLoop(dec, mem, len, next, pairs + ps)
    ensures IsLine(mem[next]) ==> ParseLoop(dec, mem, len, o, pairs) == Scanned(pairs + ps, SkipLines(mem, len, next))
  {
  }

  /** The first byte behind a header: another header, the blank line, or the end of the message. */
  lemma BehindHeader(mem: Bytes, len: nat, next: nat, rest: seq<Header>, end: nat, stop: nat)
    requires GoodHeaders(rest) && Stands(mem, next, PrintHeaders(rest))
    requires end == next + |PrintHeaders(rest)| && EndsAt(mem, len, end, stop)
    ensures next <= len && !IsFold(mem[next]) && (rest != [] ==> !IsLine(mem[next]))
  {
    if rest != [] {
      StandsParts(mem, next, PrintHeader(rest[0]), PrintHeaders(rest[1..]), next + |PrintHeader(rest[0])|);
      HeaderStarts(mem, next, rest[0]);
    }
  }

  /** The main loop behind the last header. */
  lemma LoopEnds(dec: Decoder, mem: Bytes, len: nat, end: nat, pairs: seq<Pair>, stop: nat)
    requires EndsAt(mem, len, end, stop)
    ensures IsLine(mem[end]) ==> SkipLines(mem, len, end) == stop
    ensures !IsLine(mem[end]) ==> ParseLoop(dec, mem, len, end, pairs) == Scanned(pairs, stop)
  {
    if BlankTo(mem, len, end, stop) {
      SkipsBlank(mem, len, end, stop);
    }
  }

  /** The main loop once one header is read, and printed ones follow. */
  lemma {:induction false} LoopFrom(dec: Decoder, mem: Bytes, len: nat, o: nat, pairs: seq<Pair>, ps: seq<Pair>, next: nat,
                                    rest: seq<Header>, end: nat, stop: nat)
    requires o < len < |mem| && OneHeader(dec, mem, o) == Scanned(ps, next)
    requires GoodHeaders(rest) && Stands(mem, next, PrintHeaders(rest))
    requires end == next + |PrintHeaders(rest)| && EndsAt(mem, len, end, stop)
    ensures ParseLoop(dec, mem, len, o, pairs) == Scanned(pairs + ps + UnfoldedAll(dec, rest), stop)
    decreases |rest|, 1
  {
    BehindHeader(mem, len, next, rest, end, stop);
    LoopTurn(dec, mem, len, o, pairs, ps, next);
    if rest == [] {
      LoopEnds(dec, mem, len, next, pairs + ps, stop);
      assert pairs + ps + [] == pairs + ps;
    } else {
      BlockStands(dec, mem, len, next, rest, pairs + ps, end, stop);
    }
  }

  /** The main loop over printed headers. */
  lemma {:induction false} BlockStands(dec: Decoder, mem: Bytes, len: nat, o: nat, hs: seq<Header>, pairs: seq<Pair>, end: nat, stop: nat)
    requires hs != [] && GoodHeaders(hs) && Stands(mem, o, PrintHeaders(hs))
    requires end == o + |PrintHeaders(hs)| && EndsAt(mem, len, end, stop)
    ensures ParseLoop(dec, mem, len, o, pairs) == Scanned(pairs + UnfoldedAll(dec, hs), stop)
    decreases |hs|, 0
  {
    var h, rest := hs[0], hs[1..];
    var next := o + |PrintHeader(h)|;
    StandsParts(mem, o, PrintHeader(h), PrintHeaders(rest), next);
    GoodTail(hs);
    BehindHeader(mem, len, next, rest, end, stop);
    HeaderStands(dec, mem, o, h, next);
    LoopFrom(dec, mem, len, o, pairs, [Unfolded(dec, h)], next, rest, end, stop);
    OneInFront(pairs, Unfolded(dec, h), UnfoldedAll(dec, rest));
  }

  lemma OneInFront(pairs: seq<Pair>, p: Pair, rest: seq<Pair>)
    ensures pairs + [p] + rest == pairs + ([p] + rest)
  {
  }

  lemma GoodTail(hs: seq<Header>)
    requires hs != [] && GoodHeaders(hs)
    ensures GoodHeader(hs[0]) && GoodHeaders(hs[1..])
  {
    var rest := hs[1..];
    forall i | 0 <= i < |rest| ensures GoodHeader(rest[i]) {
      assert rest[i] == hs[i + 1];
    }
  }

  lemma {:induction false} LeadSkipped(mem: Bytes, o: nat, start: nat)
    requires o <= start < |mem| && !IsLine(mem[start]) && forall k :: o <= k < start ==> IsLine(mem[k])
    ensures SkipLead(mem, o) == start
    decreases start - o
  {
    if o < start {
      LeadSkipped(mem, o + 1, start);
    }
  }

  /**
   A block of printed headers between line ends, not preceded by a From line, is parsed into
   its unfolded pairs, in order; the parser stops at the first byte of the body.
   */
  lemma HeadersRoundTrip(dec: Decoder, mem: Bytes, len: nat, o: nat, start: nat, hs: seq<Header>, end: nat, stop: nat)
    requires o <= start && forall k :: o <= k < start && k < |mem| ==> IsLine(mem[k])
    requires hs != [] && GoodHeaders(hs) && Stands(mem, start, PrintHeaders(hs))
    requires end == start + |PrintHeaders(hs)| && EndsAt(mem, len, end, stop)
    ensures ParseHeaders(dec, mem, len, o) == Scanned(UnfoldedAll(dec, hs), stop)
  {
    StandsParts(mem, start, PrintHeader(hs[0]), PrintHeaders(hs[1..]), start + |PrintHeader(hs[0])|);
    HeaderStarts(mem, start, hs[0]);
    LeadSkipped(mem, o, start);
    BlockStands(dec, mem, len, start, hs, [], end, stop);
    assert [] + UnfoldedAll(dec, hs) == UnfoldedAll(dec, hs);
  }

  // ---------- A From line in front ----------

  lemma {:induction false} FromMatchAll(mem: Bytes, o: nat, k: nat)
    requires k <= 5 && Stands(mem, o, FROM)
    ensures FromMatch(mem, o, k) == 5
    decreases 5 - k
  {
    if k < 5 {
      assert Same(mem, o, FROM, k);
      FromMatchAll(mem, o, k + 1);
    }
  }

  /** The line is stored under its own name, and its bytes stay in front of the next key. */
  lemma FromLineStands(mem: Bytes, o: nat, from: Bytes, start: nat)
    requires FROM <= from && NoLF(from) && Stands(mem, o, from) && Stands(mem, o + |from|, [LF])
    requires start == o + |from| + 1
    ensures !IsLine(mem[o]) && FromPart(mem, o) == Some((DropCR(from), [Pair(FROM_LINE_KEY, DropCR(from))], start))
  {
    var nl := o + |from|;
    FindToken(mem, o, from, LF, nl);
    FromStands(mem, o, from);
    FromMatchAll(mem, o, 0);
  }

  lemma FromStands(mem: Bytes, o: nat, from: Bytes)
    requires FROM <= from && Stands(mem, o, from)
    ensures Stands(mem, o, FROM) && !IsLine(mem[o])
  {
    forall k: nat | k < |FROM| ensures Same(mem, o, FROM, k) {
      assert Same(mem, o, from, k);
    }
    assert Same(mem, o, FROM, 0);
  }

  function JoinedPairs(dec: Decoder, line: Bytes, h: Header): seq<Pair> {
    [Pair(FROM_LINE_KEY, line), Pair(line + h.key, Unfolded(dec, h).value)]
  }

  lemma FromHeader(dec: Decoder, mem: Bytes, o: nat, line: Bytes, start: nat, h: Header, next: nat)
    requires o <= |mem| && FromPart(mem, o) == Some((line, [Pair(FROM_LINE_KEY, line)], start))
    requires start <= |mem| && GoodHeader(h) && Stands(mem, start, PrintHeader(h))
    requires next == start + |PrintHeader(h)| < |mem| && !IsFold(mem[next])
    ensures OneHeader(dec, mem, o) == Scanned(JoinedPairs(dec, line, h), next)
  {
    KeyAndValue(dec, mem, start, h, line, [Pair(FROM_LINE_KEY, line)], next);
    assert [Pair(FROM_LINE_KEY, line)] + [Pair(line + h.key, Unfolded(dec, h).value)] == JoinedPairs(dec, line, h);
  }

  lemma LoopJoined(dec: Decoder, mem: Bytes, len: nat, o: nat, line: Bytes, start: nat, hs: seq<Header>, end: nat, stop: nat)
    requires o < len < |mem| && FromPart(mem, o) == Some((line, [Pair(FROM_LINE_KEY, line)], start))
    requires hs != [] && GoodHeaders(hs) && Stands(mem, start, PrintHeaders(hs))
    requires end == start + |PrintHeaders(hs)| && EndsAt(mem, len, end, stop)
    ensures ParseLoop(dec, mem, len, o, []) == Scanned(JoinedPairs(dec, line, hs[0]) + UnfoldedAll(dec, hs[1..]), stop)
  {
    var h, rest := hs[0], hs[1..];
    var next, ps := start + |PrintHeader(h)|, JoinedPairs(dec, line, h);
    StandsParts(mem, start, PrintHeader(h), PrintHeaders(rest), next);
    GoodTail(hs);
    BehindHeader(mem, len, next, rest, end, stop);
    FromHeader(dec, mem, o, line, start, h, next);
    LoopFrom(dec, mem, len, o, [], ps, next, rest, end, stop);
    assert [] + ps == ps;
  }

  lemma StartsHere(dec: Decoder, mem: Bytes, len: nat, o: nat)
    requires o < len < |mem| && !IsLine(mem[o])
    ensures ParseHeaders(dec, mem, len, o) == ParseLoop(dec, mem, len, o, [])
  {
    LeadSkipped(mem, o, o);
  }

  lemma BlockJoined(dec: Decoder, mem: Bytes, len: nat, o: nat, line: Bytes, start: nat, hs: seq<Header>, end: nat, stop: nat)
    requires o < start <= |mem| && !IsLine(mem[o])
    requires FromPart(mem, o) == Some((line, [Pair(FROM_LINE_KEY, line)], start))
    requires hs != [] && GoodHeaders(hs) && Stands(mem, start, PrintHeaders(hs))
    requires end == start + |PrintHeaders(hs)| && EndsAt(mem, len, end, stop)
    ensures ParseHeaders(dec, mem, len, o) == Scanned(JoinedPairs(dec, line, hs[0]) + UnfoldedAll(dec, hs[1..]), stop)
  {
    LoopJoined(dec, mem, len, o, line, start, hs, end, stop);
    StartsHere(dec, mem, len, o);
  }

  /**
   With a From line in front, the first header is stored under the line and its name run
   together; only the headers behind it come out under their own names.
   */
  lemma FromLineJoinsKey(dec: Decoder, mem: Bytes, len: nat, o: nat, from: Bytes, start: nat, hs: seq<Header>, end: nat, stop: nat)
    requires FROM <= from && NoLF(from) && Stands(mem, o, from) && Stands(mem, o + |from|, [LF]) && start == o + |from| + 1
    requires hs != [] && GoodHeaders(hs) && Stands(mem, start, PrintHeaders(hs))
    requires end == start + |PrintHeaders(hs)| && EndsAt(mem, len, end, stop)
    ensures ParseHeaders(dec, mem, len, o) == Scanned(JoinedPairs(dec, DropCR(from), hs[0]) + UnfoldedAll(dec, hs[1..]), stop)
  {
    FromLineStands(mem, o, from, start);
    BlockJoined(dec, mem, len, o, DropCR(from), start, hs, end, stop);
  }
}
