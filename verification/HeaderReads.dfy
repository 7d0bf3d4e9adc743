/**
 The search for the end of the headers as the reads come in (src/mbox-parser.c,
 mboxParserCtxSeekHeaders): what it comes to in any file with any reads, and exactly when that
 is what the whole file says.
 */
module HeaderReads {
  import opened Bytes
  import opened LineScan
  import opened Syscalls

  // ---------- Where reads end ----------

  /** Where the first read that reaches behind `end` ends, with the k-th one to begin at `f`. */
  function Past(reading: Answers, k: nat, f: nat, end: nat, size: nat): (r: nat)
    requires f <= size
    ensures f <= r <= size && (end < size ==> r > end)
    decreases size - f
  {
    if f > end || f == size then f
    else Past(reading, k + 1, f + Delivered(reading(k), READ_SIZE, size - f), end, size)
  }

  /** A read that does not begin behind `end` is on the way there. */
  lemma PastStep(reading: Answers, k: nat, f: nat, end: nat, size: nat)
    requires f <= size && f <= end
    ensures Past(reading, k, f, end, size) == Past(reading, k + 1, f + Delivered(reading(k), READ_SIZE, size - f), end, size)
  {
  }

  /** Where the first `n` reads end, with the first one to begin at `start`. */
  function Reached(reading: Answers, start: nat, size: nat, n: nat): (f: nat)
    requires start <= size
    ensures start <= f <= size
  {
    if n == 0 then start
    else
      var f := Reached(reading, start, size, n - 1);
      f + Delivered(reading(n - 1), READ_SIZE, size - f)
  }

  lemma ReachedStep(reading: Answers, start: nat, size: nat, n: nat, f: nat)
    requires start <= size && f == Reached(reading, start, size, n)
    ensures Reached(reading, start, size, n + 1) == f + Delivered(reading(n), READ_SIZE, size - f)
  {
  }

  /** One of the reads ends at `x`. */
  ghost predicate ReadEndsAt(reading: Answers, start: nat, size: nat, x: nat)
    requires start <= size
  {
    exists n: nat :: Reached(reading, start, size, n) == x
  }

  /** What Past finds is where a read ends. */
  lemma {:induction false} PastIsReached(reading: Answers, start: nat, size: nat, k: nat, end: nat)
    requires start <= size
    ensures ReadEndsAt(reading, start, size, Past(reading, k, Reached(reading, start, size, k), end, size))
    decreases size - Reached(reading, start, size, k)
  {
    var f := Reached(reading, start, size, k);
    if f <= end && f < size {
      var next := k + 1;
      assert Reached(reading, start, size, next) == f + Delivered(reading(k), READ_SIZE, size - f);
      PastIsReached(reading, start, size, next, end);
    }
  }

  // ---------- The search ----------

  /**
   Scan; if that fails where the bytes end, read and scan on; with the scan at `pos` of a buffer
   that begins at `o` and ends at `f`, and the k-th read the next one.
   */
  function HeadersBy(file: Bytes, o: nat, pos: nat, k: nat, f: nat, reading: Answers): (r: HeadersEnd)
    requires o <= f <= |file| && pos <= f - o
    ensures r.EndsAt? ==> o + pos + 2 <= r.h <= |file|
    decreases |file| - f
  {
    var (found, q) := CanParse(file[o..f], pos);
    if found then EndsAt(o + q)
    else if ByteAt(file[o..f], 0) != NUL && q + 1 < f - o then NeverEnds
    else if f == |file| then NoEnd
    else HeadersBy(file, o, q, k + 1, f + Delivered(reading(k), READ_SIZE, |file| - f), reading)
  }

  /** A scan that failed is at home where it stopped. */
  lemma ByRepeats(file: Bytes, o: nat, pos: nat, k: nat, f: nat, reading: Answers, data: Bytes)
    requires o <= f <= |file| && pos <= f - o && data == file[o..f] && !CanParse(data, pos).0
    ensures HeadersBy(file, o, CanParse(data, pos).1, k, f, reading) == HeadersBy(file, o, pos, k, f, reading)
  {
    CanParseRepeats(data, pos);
  }

  /** A scan that has failed where it calls for no read. */
  lemma ByHangs(file: Bytes, o: nat, pos: nat, k: nat, f: nat, reading: Answers, data: Bytes)
    requires o <= f <= |file| && data == file[o..f] && pos + 1 < |data|
    requires CanParse(data, pos) == (false, pos) && ByteAt(data, 0) != NUL
    ensures HeadersBy(file, o, pos, k, f, reading) == NeverEnds
  {
  }

  /** A scan that has failed where it calls for one. */
  lemma ByRead(file: Bytes, o: nat, pos: nat, k: nat, f: nat, reading: Answers, data: Bytes, k': nat, f': nat)
    requires o <= f <= |file| && pos <= f - o && data == file[o..f] && CanParse(data, pos) == (false, pos)
    requires ByteAt(data, 0) == NUL || pos + 1 >= |data|
    requires k' == k + 1 && f' == f + Delivered(reading(k), READ_SIZE, |file| - f)
    ensures HeadersBy(file, o, pos, k, f, reading) == if f == |file| then NoEnd else HeadersBy(file, o, pos, k', f', reading)
  {
  }

  lemma SliceExtends(file: Bytes, o: nat, f: nat, f': nat)
    requires o <= f <= f' <= |file|
    ensures Extends(file[o..f], file[o..f'])
  {
    assert forall k :: 0 <= k < f - o ==> file[o..f][k] == file[o + k] == file[o..f'][k];
  }

  /** A scan that fails in front of the last bytes fails there however many more are read. */
  lemma {:induction false} ByStuck(file: Bytes, o: nat, pos: nat, k: nat, f: nat, reading: Answers)
    requires o <= f <= |file| && pos + 1 < f - o && CanParse(file[o..f], pos) == (false, pos)
    ensures !HeadersBy(file, o, pos, k, f, reading).EndsAt?
    decreases |file| - f
  {
    if f < |file| {
      var f' := f + Delivered(reading(k), READ_SIZE, |file| - f);
      SliceExtends(file, o, f, f');
      CanParseMore(file[o..f], file[o..f'], pos);
      ByStuck(file, o, pos, k + 1, f', reading);
    }
  }

  /** While the search reads on, the buffer ends in front of the place where the headers do. */
  lemma ByBehind(file: Bytes, o: nat, pos: nat, k: nat, f: nat, reading: Answers)
    requires o <= f <= |file| && pos <= f - o && CanParse(file[o..f], pos) == (false, pos)
    ensures var r := HeadersBy(file, o, pos, k, f, reading); r.EndsAt? ==> f < r.h
  {
    if pos + 1 < f - o {
      ByStuck(file, o, pos, k, f, reading);
    }
  }

  // ---------- Against the whole file ----------

  /** One of the reads ends inside the CR LF of the blank line that the headers end with. */
  predicate Splits(file: Bytes, o: nat, k: nat, f: nat, reading: Answers)
    requires o <= f <= |file|
  {
    var whole := HeadersOf(file, o);
    && whole.EndsAt? && file[whole.h - 2] == CR
    && Past(reading, k, f, whole.h - 2, |file|) == whole.h - 1
  }

  /** The scan of the whole file would go on from `pos`, too. */
  ghost predicate Resumes(file: Bytes, o: nat, pos: nat)
    requires o + pos <= |file|
  {
    CanParse(file[o..], pos) == CanParse(file[o..], 0)
  }

  lemma WholeIs(file: Bytes, o: nat, pos: nat)
    requires o + pos <= |file| && Resumes(file, o, pos)
    ensures var (found, q) := CanParse(file[o..], pos);
      HeadersOf(file, o) ==
        if found then EndsAt(o + q)
        else if ByteAt(file[o..], 0) == NUL || q + 1 >= |file| - o then NoEnd else NeverEnds
  {
  }

  /** One scan of the buffer, against the whole file. */
  lemma ScanAgainst(file: Bytes, o: nat, pos: nat, f: nat, data: Bytes)
    requires o <= f <= |file| && pos <= f - o && Resumes(file, o, pos) && data == file[o..f]
    ensures var (found, q) := CanParse(data, pos);
      && (found ==> HeadersOf(file, o) == EndsAt(o + q))
      && (!found && q + 1 < |data| ==>
            HeadersOf(file, o) == (if data[0] == NUL then NoEnd else NeverEnds) && Resumes(file, o, q))
      && (!found && q + 1 >= |data| && f == |file| ==> HeadersOf(file, o) == NoEnd)
      && (!found && q + 1 >= |data| && f < |file| && !SplitsBlank(data, file[o..], pos) ==> Resumes(file, o, q))
      && (SplitsBlank(data, file[o..], pos) && !found && q + 1 >= |data| ==> q == |data| && HeadersOf(file, o) == EndsAt(f + 1))
  {
    SliceExtends(file, o, f, |file|);
    assert file[o..|file|] == file[o..];
    CanParseMore(data, file[o..], pos);
    WholeIs(file, o, pos);
    var (found, q) := CanParse(data, pos);
    if !found {
      CanParseRepeats(data, pos);
      CanParseMore(data, file[o..], q);
    }
    if f == |file| {
      assert data == file[o..];
    }
  }

  /** A buffer that ends inside the blank line: the place where the headers end is passed. */
  lemma SplitPasses(file: Bytes, o: nat, pos: nat, k: nat, f: nat, reading: Answers)
    requires o <= f < |file| && pos <= f - o && HeadersOf(file, o) == EndsAt(f + 1)
    requires SplitsBlank(file[o..f], file[o..], pos)
    requires !CanParse(file[o..f], pos).0 && CanParse(file[o..f], pos).1 == f - o
    ensures Splits(file, o, k, f, reading) && HeadersBy(file, o, pos, k, f, reading) != HeadersOf(file, o)
  {
    assert file[f - 1] == file[o..f][f - o - 1];
  }

  /** Without one, a read in front of that place changes nothing about the ones to come. */
  lemma SplitLater(file: Bytes, o: nat, pos: nat, k: nat, f: nat, reading: Answers)
    requires o <= f < |file| && pos <= f - o && Resumes(file, o, pos)
    requires !CanParse(file[o..f], pos).0
    requires SplitsBlank(file[o..f], file[o..], pos) ==> CanParse(file[o..f], pos).1 + 1 < f - o
    ensures Splits(file, o, k, f, reading) <==>
      Splits(file, o, k + 1, f + Delivered(reading(k), READ_SIZE, |file| - f), reading)
  {
    var (data, rest, whole) := (file[o..f], file[o..], HeadersOf(file, o));
    if whole.EndsAt? {
      ScanAgainst(file, o, pos, f, data);
      HeadersStart(file, o, pos);
      EndsLater(file, o, pos, f, whole.h, data, rest);
    }
  }

  /** A scan that can go on there has not passed the blank line. */
  lemma HeadersStart(file: Bytes, o: nat, pos: nat)
    requires o + pos <= |file| && Resumes(file, o, pos)
    ensures var whole := HeadersOf(file, o); whole.EndsAt? ==> BlankLineAt(file, o + pos, whole.h)
  {
    CanParseStops(file[o..], pos);
    assert forall i :: o <= i < |file| ==> file[i] == file[o..][i - o];
  }

  lemma EndsLater(file: Bytes, o: nat, pos: nat, f: nat, h: nat, data: Bytes, rest: Bytes)
    requires o <= f < |file| && pos <= f - o && data == file[o..f] && rest == file[o..]
    requires BlankLineAt(file, o + pos, h) && CanParse(data, pos) == (false, CanParse(data, pos).1)
    requires CanParse(data, pos).1 + 1 >= |data| && !SplitsBlank(data, rest, pos)
    ensures file[h - 2] == CR ==> f <= h - 2
  {
    CanParseStops(data, pos);
    assert forall i :: 0 <= i < f - o ==> data[i] == rest[i] == file[o + i];
    if h <= f {
      assert BlankLineAt(data, pos, h - o);
    }
    assert rest[f - o] == file[f];
  }

  /** A search that goes on after a read comes to what the rest of it does. */
  lemma ByGoesOn(file: Bytes, o: nat, pos: nat, k: nat, f: nat, reading: Answers, q: nat)
    requires o <= f < |file| && pos <= f - o && CanParse(file[o..f], pos) == (false, q)
    requires ByteAt(file[o..f], 0) == NUL || q + 1 >= f - o
    ensures HeadersBy(file, o, pos, k, f, reading) ==
      HeadersBy(file, o, q, k + 1, f + Delivered(reading(k), READ_SIZE, |file| - f), reading)
  {
  }

  /** A search that ends with this scan. */
  lemma ByEnds(file: Bytes, o: nat, pos: nat, k: nat, f: nat, reading: Answers)
    requires o <= f <= |file| && pos <= f - o && Resumes(file, o, pos)
    requires CanParse(file[o..f], pos).0 || f == |file| || (ByteAt(file[o..f], 0) != NUL && CanParse(file[o..f], pos).1 + 1 < f - o)
    ensures HeadersBy(file, o, pos, k, f, reading) == HeadersOf(file, o) && !Splits(file, o, k, f, reading)
  {
    ScanAgainst(file, o, pos, f, file[o..f]);
  }

  /** Exactly then the search does not come to what the whole file says. */
  lemma {:induction false} ByIff(file: Bytes, o: nat, pos: nat, k: nat, f: nat, reading: Answers)
    requires o <= f <= |file| && pos <= f - o && Resumes(file, o, pos)
    ensures HeadersBy(file, o, pos, k, f, reading) == HeadersOf(file, o) <==> !Splits(file, o, k, f, reading)
    decreases |file| - f
  {
    var data := file[o..f];
    var (found, q) := CanParse(data, pos);
    if found || f == |file| || (ByteAt(data, 0) != NUL && q + 1 < |data|) {
      ByEnds(file, o, pos, k, f, reading);
    } else {
      ScanAgainst(file, o, pos, f, data);
      if SplitsBlank(data, file[o..], pos) && q + 1 >= |data| {
        SplitPasses(file, o, pos, k, f, reading);
      } else {
        ByGoesOn(file, o, pos, k, f, reading, q);
        SplitLater(file, o, pos, k, f, reading);
        ByIff(file, o, q, k + 1, f + Delivered(reading(k), READ_SIZE, |file| - f), reading);
      }
    }
  }

  /** No read ends inside the CR LF of that blank line, with the first one to begin at `start`. */
  ghost predicate Unsplit(file: Bytes, o: nat, start: nat, reading: Answers)
    requires o <= |file| && start <= |file|
  {
    var whole := HeadersOf(file, o);
    whole.EndsAt? && file[whole.h - 2] == CR ==> !ReadEndsAt(reading, start, |file|, whole.h - 1)
  }

  /** Then the headers end where the whole file says, whatever has been read before. */
  lemma UnsplitMeansWhole(file: Bytes, o: nat, start: nat, k: nat, f: nat, reading: Answers)
    requires start <= |file| && o <= f == Reached(reading, start, |file|, k) && Unsplit(file, o, start, reading)
    ensures HeadersBy(file, o, 0, k, f, reading) == HeadersOf(file, o)
  {
    var whole := HeadersOf(file, o);
    if whole.EndsAt? {
      PastIsReached(reading, start, |file|, k, whole.h - 2);
    }
    ByIff(file, o, 0, k, f, reading);
  }
}
