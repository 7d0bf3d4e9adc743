/**
 What the splitter's two scans (src/mbox-parser.c) make of the bytes in a buffer, and of a
 whole file: where the headers of a message end, and where the next "From " line is.
 */
module LineScan {
  import opened Bytes

  /** A line beginning with "From " starts right after position `p`. */
  predicate FromAt(file: Bytes, p: nat) {
    && p + 6 <= |file| && file[p] == LF
    && file[p + 1] == 70 && file[p + 2] == 114 && file[p + 3] == 111 && file[p + 4] == 109 && file[p + 5] == 32
  }

  lemma FromAtIs(file: Bytes, p: nat)
    ensures FromAt(file, p) <==> p + 6 <= |file| && file[p..p + 6] == [LF] + FROM
  {
    if p + 6 <= |file| {
      var line := file[p..p + 6];
      assert line[0] == file[p] && line[1] == file[p + 1] && line[2] == file[p + 2];
      assert line[3] == file[p + 3] && line[4] == file[p + 4] && line[5] == file[p + 5];
      if FromAt(file, p) {
        assert line == [LF] + FROM;
      }
    }
  }

  ghost predicate FirstFrom(file: Bytes, from: nat, p: nat) {
    from <= p && FromAt(file, p) && forall q :: from <= q < p ==> !FromAt(file, q)
  }

  /** A blank line ends at `h`: two line feeds, possibly with a carriage return between. */
  predicate BlankLineAt(file: Bytes, start: nat, h: nat) {
    || (start + 2 <= h <= |file| && file[h - 2] == LF && file[h - 1] == LF)
    || (start + 3 <= h <= |file| && file[h - 3] == LF && file[h - 2] == CR && file[h - 1] == LF)
  }

  /** The byte at `i`; the buffer keeps a NUL behind its last byte. */
  function ByteAt(data: Bytes, i: nat): byte
    requires i <= |data|
  {
    if i < |data| then data[i] else NUL
  }

  /** What is in the buffer now will be there when more has been read. */
  ghost predicate Extends(data: Bytes, more: Bytes) {
    |data| <= |more| && forall k :: 0 <= k < |data| ==> data[k] == more[k]
  }

  // ---------- The end of the headers ----------

  /** mboxBufCanParseHeaders as a function: whether a blank line is in sight, and where the scan stops. */
  function CanParse(data: Bytes, pos: nat): (r: (bool, nat))
    requires pos <= |data|
    ensures pos <= r.1 <= |data| && (r.0 ==> pos + 2 <= r.1)
    decreases |data| - pos
  {
    var c := ByteAt(data, pos);
    if c == NUL then (false, pos)
    else if c != LF then CanParse(data, pos + 1)
    else if ByteAt(data, pos + 1) == NUL then (false, pos)
    else if data[pos + 1] == LF then (true, pos + 2)
    else if data[pos + 1] == CR && ByteAt(data, pos + 2) == LF then (true, pos + 3)
    else CanParse(data, pos + 1)
  }

  /** A scan that fails has come as far as it can: without another read it fails in the same place. */
  lemma {:induction false} CanParseRepeats(data: Bytes, pos: nat)
    requires pos <= |data| && !CanParse(data, pos).0
    ensures CanParse(data, CanParse(data, pos).1) == CanParse(data, pos)
    decreases |data| - pos
  {
    if pos < CanParse(data, pos).1 {
      CanParseRepeats(data, pos + 1);
    }
  }

  /** The first blank line behind `o` ends at `h`, and no NUL stands in front of it. */
  ghost predicate FirstBlank(file: Bytes, o: nat, h: nat) {
    && BlankLineAt(file, o, h)
    && (forall g :: o <= g < h ==> !BlankLineAt(file, o, g))
    && forall k :: o <= k < h ==> file[k] != NUL
  }

  /** Why a scan that fails stops: the end, a NUL, or a line feed in front of one of them. */
  predicate StopsAt(data: Bytes, q: nat) {
    || q == |data| || (q < |data| && data[q] == NUL)
    || (q < |data| && data[q] == LF && (q + 1 == |data| || data[q + 1] == NUL))
  }

  /** What a scan has passed, and what it stopped at. */
  lemma {:induction false} CanParseStops(data: Bytes, pos: nat)
    requires pos <= |data|
    ensures var (found, q) := CanParse(data, pos);
      && (forall k :: pos <= k < q ==> data[k] != NUL)
      && (forall g :: pos <= g < (if found then q else q + 2) ==> !BlankLineAt(data, pos, g))
      && (!found && pos < q && data[q - 1] == LF ==> q < |data| && data[q] != NUL)
      && if found then BlankLineAt(data, pos, q) else StopsAt(data, q)
    decreases |data| - pos
  {
    if pos < |data| && data[pos] != NUL && !StopsAt(data, pos) && !BlankLineAt(data, pos, pos + 2) && !BlankLineAt(data, pos, pos + 3) {
      CanParseStops(data, pos + 1);
      forall g | !BlankLineAt(data, pos + 1, g) ensures !BlankLineAt(data, pos, g) {
      }
    }
  }

  /** In any buffer: the scan succeeds at the first blank line, if no NUL stands in front of it. */
  lemma CanParseIff(data: Bytes, pos: nat, h: nat)
    requires pos <= |data|
    ensures CanParse(data, pos) == (true, h) <==> FirstBlank(data, pos, h)
  {
    CanParseStops(data, pos);
    var (found, q) := CanParse(data, pos);
    assert found ==> FirstBlank(data, pos, q);
    assert !found && BlankLineAt(data, pos, h) ==> q + 2 <= h;
  }

  /** The buffer ends inside a blank line: LF CR stand at its end, and the next byte of the file is LF. */
  predicate SplitsBlank(data: Bytes, more: Bytes, pos: nat) {
    pos + 2 <= |data| < |more| && data[|data| - 2] == LF && data[|data| - 1] == CR && more[|data|] == LF
  }

  /**
   More bytes change the result only if the scan failed on the last ones; and it can go on
   where it stopped unless the buffer ends inside a blank line, which is then passed.
   */
  lemma {:induction false} CanParseMore(data: Bytes, more: Bytes, pos: nat)
    requires pos <= |data| && Extends(data, more)
    ensures var (found, q) := CanParse(data, pos);
      if found || q + 1 < |data| then CanParse(more, pos) == (found, q)
      else if SplitsBlank(data, more, pos) then q == |data| && CanParse(more, pos) == (true, |data| + 1)
      else CanParse(more, pos) == CanParse(more, q)
    decreases |data| - pos
  {
    if pos < |data| && data[pos] != NUL {
      assert more[pos] == data[pos];
      if pos + 1 < |data| {
        assert more[pos + 1] == data[pos + 1];
        if pos + 2 < |data| {
          assert more[pos + 2] == data[pos + 2];
        }
      }
      if data[pos] != LF || (pos + 1 < |data| && data[pos + 1] != NUL && data[pos + 1] != LF && !(data[pos + 1] == CR && ByteAt(data, pos + 2) == LF)) {
        CanParseMore(data, more, pos + 1);
      }
    }
  }

  /** Where the headers of the message at `o` end, if the scan can see the whole file. */
  datatype HeadersEnd = EndsAt(h: nat) | NoEnd | NeverEnds

  function HeadersOf(file: Bytes, o: nat): (r: HeadersEnd)
    requires o <= |file|
    ensures r.EndsAt? ==> o + 2 <= r.h <= |file|
  {
    var rest := file[o..];
    var (found, q) := CanParse(rest, 0);
    if found then EndsAt(o + q) else if ByteAt(rest, 0) == NUL || q + 1 >= |rest| then NoEnd else NeverEnds
  }

  /** The message at `o` has its headers end, and in front of `end`. */
  predicate HeadedBefore(file: Bytes, o: nat, end: nat)
    requires o <= |file|
  {
    HeadersOf(file, o).EndsAt? && HeadersOf(file, o).h <= end
  }

  /** Blank lines of the rest of the file, in places of the file. */
  lemma BlankOfRest(file: Bytes, o: nat, g: nat, rest: Bytes)
    requires o <= g && o <= |file| && rest == file[o..]
    ensures BlankLineAt(rest, 0, g - o) <==> BlankLineAt(file, o, g)
  {
    assert forall k :: o <= k < |file| ==> file[k] == rest[k - o];
  }

  lemma FirstBlankOfRest(file: Bytes, o: nat, h: nat)
    requires o <= h <= |file|
    ensures FirstBlank(file[o..], 0, h - o) <==> FirstBlank(file, o, h)
  {
    var rest := file[o..];
    assert forall k :: o <= k < |file| ==> file[k] == rest[k - o];
    BlankOfRest(file, o, h, rest);
    if FirstBlank(rest, 0, h - o) {
      forall g | o <= g < h ensures !BlankLineAt(file, o, g) {
        BlankOfRest(file, o, g, rest);
        assert !BlankLineAt(rest, 0, g - o);
      }
    }
    if FirstBlank(file, o, h) {
      forall g | 0 <= g < h - o ensures !BlankLineAt(rest, 0, g) {
        BlankOfRest(file, o, g + o, rest);
      }
    }
  }

  /** In any file the headers end at the first blank line, if no NUL stands in front of it. */
  lemma HeadersEndIff(file: Bytes, o: nat, h: nat)
    requires o <= |file|
    ensures HeadersOf(file, o) == EndsAt(h) <==> FirstBlank(file, o, h)
  {
    if o <= h <= |file| {
      CanParseIff(file[o..], 0, h - o);
      FirstBlankOfRest(file, o, h);
    }
  }

  /** A NUL inside the file stands at `z`, behind the first byte of the message, in front of any blank line. */
  ghost predicate NulInHeaders(file: Bytes, o: nat, z: nat) {
    && o < z < |file| && file[z] == NUL
    && (forall k :: o <= k < z ==> file[k] != NUL)
    && (forall g :: o <= g <= z ==> !BlankLineAt(file, o, g))
    && (z + 1 < |file| || file[z - 1] == LF)
  }

  /** Exactly then the loop over the scan never ends. */
  lemma NeverEndsIff(file: Bytes, o: nat)
    requires o <= |file|
    ensures HeadersOf(file, o).NeverEnds? <==> exists z :: NulInHeaders(file, o, z)
  {
    if HeadersOf(file, o).NeverEnds? {
      var z := NulFound(file, o, file[o..]);
    }
    if z :| NulInHeaders(file, o, z) {
      NulBlocks(file, o, z, file[o..]);
    }
  }

  lemma NulFound(file: Bytes, o: nat, rest: Bytes) returns (z: nat)
    requires o <= |file| && rest == file[o..] && HeadersOf(file, o).NeverEnds?
    ensures NulInHeaders(file, o, z)
  {
    CanParseStops(rest, 0);
    var q := CanParse(rest, 0).1;
    assert forall k :: o <= k < |file| ==> file[k] == rest[k - o];
    z := if rest[q] == NUL then o + q else o + q + 1;
    forall g | o <= g <= z ensures !BlankLineAt(file, o, g) {
      assert !BlankLineAt(rest, 0, g - o);
      BlankOfRest(file, o, g, rest);
    }
  }

  lemma NulBlocks(file: Bytes, o: nat, z: nat, rest: Bytes)
    requires o <= |file| && rest == file[o..]
    requires NulInHeaders(file, o, z)
    ensures HeadersOf(file, o).NeverEnds?
  {
    CanParseStops(rest, 0);
    var (found, q) := CanParse(rest, 0);
    assert forall k :: o <= k < |file| ==> file[k] == rest[k - o];
    assert rest[0] == file[o] && rest[z - o] == NUL && rest[z - 1 - o] == file[z - 1];
    if found {
      BlankOfRest(file, o, o + q, rest);
    }
  }

  // ---------- The next "From " line ----------

  datatype LineScan = Seen(at: nat) | Short(at: nat)

  /**
   Line by line through the buffer: a "From " line that is there in full, or the place at
   which fewer than ten more bytes are in sight.
   */
  function ScanLines(data: Bytes, pos: nat): (r: LineScan)
    requires pos <= |data|
    ensures pos <= r.at <= |data|
    decreases |data| - pos
  {
    var q := Find(data, pos, LF);
    if FromAt(data, q) then Seen(q) else if q + 10 >= |data| then Short(q) else ScanLines(data, q + 1)
  }

  /** The line feeds on the way were far enough from the end, and no "From " line began there. */
  lemma {:induction false} ScanPasses(data: Bytes, pos: nat)
    requires pos <= |data|
    ensures var r := ScanLines(data, pos);
      && (forall k :: pos <= k < r.at && data[k] == LF ==> k + 10 < |data| && !FromAt(data, k))
      && (if r.Seen? then FromAt(data, r.at) else !FromAt(data, r.at) && r.at + 10 >= |data|)
      && (r.at < |data| ==> data[r.at] == LF)
    decreases |data| - pos
  {
    var q := Find(data, pos, LF);
    FindStops(data, pos, LF);
    if !FromAt(data, q) && q + 10 < |data| {
      ScanPasses(data, q + 1);
    }
  }

  lemma ScanEnds(data: Bytes, pos: nat)
    requires pos <= |data|
    ensures var r := ScanLines(data, pos); r.Short? ==> r.at + 10 >= |data|
  {
    ScanPasses(data, pos);
  }

  lemma FromAtMore(data: Bytes, more: Bytes, q: nat)
    requires Extends(data, more)
    ensures FromAt(data, q) ==> FromAt(more, q)
    ensures q + 6 <= |data| && FromAt(more, q) ==> FromAt(data, q)
  {
  }

  /** More bytes change the result only if it came to the end of what was there. */
  lemma {:induction false} ScanMore(data: Bytes, more: Bytes, pos: nat)
    requires pos <= |data| && Extends(data, more)
    ensures var r := ScanLines(data, pos);
      ScanLines(more, pos) == if r.Seen? then r else ScanLines(more, r.at)
    decreases |data| - pos
  {
    var q := Find(data, pos, LF);
    FindStops(data, pos, LF);
    FindMore(data, more, pos, LF);
    FromAtMore(data, more, q);
    if !FromAt(data, q) && q + 10 < |data| {
      ScanMore(data, more, q + 1);
    } else if !FromAt(data, q) {
      ScanFromFind(more, pos, q);
    }
  }

  lemma ScanStops(data: Bytes, pos: nat)
    requires pos <= |data|
    ensures var q := Find(data, pos, LF);
      && ScanLines(data, pos) == ScanLines(data, q)
      && ScanLines(data, q) == if FromAt(data, q) then Seen(q) else if q + 10 >= |data| then Short(q) else ScanLines(data, q + 1)
  {
    FindStops(data, pos, LF);
  }

  lemma ScanFromFind(more: Bytes, pos: nat, q: nat)
    requires pos <= q <= |more| && Find(more, pos, LF) == Find(more, q, LF)
    ensures ScanLines(more, pos) == ScanLines(more, q)
  {
  }

  lemma {:induction false} FindMore(data: Bytes, more: Bytes, pos: nat, b: byte)
    requires pos <= |data| && Extends(data, more)
    ensures var q := Find(data, pos, b);
      if q < |data| then Find(more, pos, b) == q else Find(more, pos, b) == Find(more, q, b)
    decreases |data| - pos
  {
    if pos < |data| && data[pos] != b {
      FindMore(data, more, pos + 1, b);
    }
  }

  /** The scan of a buffer, in places of the file. */
  lemma ScanOfSlice(file: Bytes, a: nat, b: nat, pos: nat)
    requires a <= b <= |file| && pos <= b - a
    ensures var r := ScanLines(file[a..b], pos);
      && (r.Seen? ==> FirstFrom(file, a + pos, a + r.at))
      && (forall p :: a + pos <= p < a + r.at ==> !FromAt(file, p))
  {
    var data := file[a..b];
    var r := ScanLines(data, pos);
    ScanPasses(data, pos);
    assert forall k :: 0 <= k < b - a ==> data[k] == file[a + k];
    forall p | a + pos <= p < a + r.at ensures !FromAt(file, p) {
      var k := p - a;
      assert data[k] == file[p];
      assert k + 6 <= b - a ==> (FromAt(data, k) <==> FromAt(file, p));
    }
  }

  /**
   A buffer that ends at `f` ends too close behind the "From " line at `e`, with the headers
   ending at `h`: the line is not there in full, or a line feed on the way to it stands within
   the last ten bytes.
   */
  predicate TooClose(file: Bytes, h: nat, e: nat, f: nat)
    requires e <= |file|
  {
    f < e + 6 || exists q :: h <= q < e && file[q] == LF && f <= q + 10
  }

  /** Exactly then the scan gives up in front of that line, if it is the next one. */
  lemma CutShortIff(file: Bytes, a: nat, h: nat, e: nat, f: nat)
    requires a <= h <= e < f <= |file| && FirstFrom(file, h, e)
    ensures ScanLines(file[a..f], h - a).Short? <==> TooClose(file, h, e, f)
  {
    var data, pos := file[a..f], h - a;
    var r := ScanLines(data, pos);
    ScanPasses(data, pos);
    ScanOfSlice(file, a, f, pos);
    assert forall k :: 0 <= k < f - a ==> data[k] == file[a + k];
    if r.Seen? {
      assert a + r.at == e;
      forall q | h <= q < e && file[q] == LF ensures f > q + 10 {
        assert data[q - a] == LF;
      }
    } else {
      assert a + r.at <= e;
      if a + r.at < e {
        assert file[a + r.at] == LF;
      }
    }
  }

  /**
   With the last line feed in front of that line at `q`: the scan gives up if the buffer ends
   inside the six bytes the line begins with, or within ten bytes of `q`.
   */
  lemma CutShortBehind(file: Bytes, a: nat, h: nat, q: nat, e: nat, f: nat)
    requires a <= h <= q < e < f <= |file| && FirstFrom(file, h, e)
    requires file[q] == LF && forall k :: q < k < e ==> file[k] != LF
    ensures ScanLines(file[a..f], h - a).Short? <==> f < e + 6 || f <= q + 10
  {
    CutShortIff(file, a, h, e, f);
  }

  /** What a scan has seen it still sees in a longer buffer. */
  lemma SeenStays(file: Bytes, a: nat, h: nat, f: nat, f': nat)
    requires a <= h <= f <= f' <= |file|
    ensures ScanLines(file[a..f], h - a).Seen? ==> ScanLines(file[a..f'], h - a) == ScanLines(file[a..f], h - a)
  {
    assert forall k :: 0 <= k < f - a ==> file[a..f][k] == file[a + k] == file[a..f'][k];
    ScanMore(file[a..f], file[a..f'], h - a);
  }

  /** The place of the first "From " line at or behind `p`, or the end of the file. */
  function NextFrom(file: Bytes, p: nat): (e: nat)
    requires p <= |file|
    ensures p <= e <= |file|
    decreases |file| - p
  {
    if p == |file| || FromAt(file, p) then p else NextFrom(file, p + 1)
  }

  lemma {:induction false} NextFromIs(file: Bytes, p: nat, e: nat)
    requires FirstFrom(file, p, e)
    ensures NextFrom(file, p) == e
    decreases e - p
  {
    if p < e {
      NextFromIs(file, p + 1, e);
    }
  }

  lemma {:induction false} NextFromFirst(file: Bytes, p: nat)
    requires p <= |file|
    ensures var e := NextFrom(file, p); forall q :: p <= q < e ==> !FromAt(file, q)
    ensures var e := NextFrom(file, p); e < |file| ==> FirstFrom(file, p, e)
    decreases |file| - p
  {
    if p < |file| && !FromAt(file, p) {
      NextFromFirst(file, p + 1);
    }
  }
}
