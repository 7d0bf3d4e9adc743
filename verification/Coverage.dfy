/**
 The ranges and the messages together (src/mbox.c, mboxMain): what the contexts cut, one
 behind the other, is the file from its beginning on, unless a message is lost between them.
 */
module Coverage {
  import opened Bytes
  import opened HeaderReads
  import opened LineScan
  import opened Splitter
  import opened Messages
  import opened Ranges
  import opened Syscalls

  /** What the loop over one range leaves: its messages, where the last one ends, and how it stopped. */
  datatype Outcome = Outcome(msgs: seq<Message>, at: nat, f: nat, err: IoErr, done: bool, returned: bool)

  /** Where the first read behind the range ends, from the answers to the reads of the context alone. */
  function ReadEnd(file: Bytes, c: Ctx, reading: Answers): nat
    requires c.start <= |file|
  {
    Past(reading, 0, c.start, c.end, |file|)
  }

  /** As Messages.GetAllMessages promises of a new parser for the range of the context. */
  ghost predicate OutcomeOf(file: Bytes, c: Ctx, reading: Answers, r: Outcome) {
    && c.start <= |file| && (NoFault(reading) ==> r.err != IoReadErr)
    && Over(file, c.start, c.end, r.msgs, r.at, r.f, ReadEnd(file, c, reading), r.err, r.done, r.returned,
            WellRead(file, c.start, c.end, c.start, reading))
  }

  /** The io job of one context, as the thread runs it. */
  method RunContext(file: Bytes, c: Ctx, reading: Answers) returns (r: Outcome)
    requires c.start <= |file|
    ensures OutcomeOf(file, c, reading, r)
  {
    var p := new Parser(file, c.start, c.end, reading);
    var msgs, returned := GetAllMessages(p);
    r := Outcome(msgs, p.offset, p.fileOffset, p.ioErr, p.done, returned);
  }

  /** No message of the range is lost: it is cut up to the line feed the next range begins with. */
  predicate Covered(file: Bytes, c: Ctx, reading: Answers)
    requires c.start <= |file|
  {
    StopAt(file, c.start, c.end, ReadEnd(file, c, reading)) == c.end + 1
  }

  /** The messages of the first `k` contexts: each but the first begins with a byte already there. */
  function First(rs: seq<Outcome>, k: nat): Bytes
    requires k <= |rs|
  {
    if k == 0 then [] else First(rs, k - 1) + Part(rs[k - 1], k == 1)
  }

  function Whole(rs: seq<Outcome>): Bytes {
    First(rs, |rs|)
  }

  function Part(r: Outcome, first: bool): Bytes {
    var piece := Joined(r.msgs);
    if first || |piece| == 0 then piece else piece[1..]
  }

  /** No read fails or splits a blank line; the headers of every range but the last end inside. */
  ghost predicate Clean(file: Bytes, cs: seq<Ctx>, readings: seq<Answers>, rs: seq<Outcome>) {
    && |rs| == |cs| == |readings| > 0
    && forall i :: 0 <= i < |rs| ==>
         && OutcomeOf(file, cs[i], readings[i], rs[i]) && NoFault(readings[i])
         && WellRead(file, cs[i].start, cs[i].end, cs[i].start, readings[i])
         && (i + 1 < |rs| ==> WellHeaded(file, cs[i].start, cs[i].end))
  }

  /** How far the messages reach: to where the last context stops, or behind the byte it shares. */
  function Reach(cs: seq<Ctx>, rs: seq<Outcome>): nat
    requires |rs| == |cs| > 0
  {
    var (c, last) := (cs[|cs| - 1], rs[|rs| - 1]);
    if |rs| > 1 && last.at <= c.start then c.start + 1 else last.at
  }

  /** The last context stops within ten bytes of the end of the file, unless there the headers do not end. */
  ghost predicate Stops(file: Bytes, r: Outcome) {
    r.at <= |file| && (r.at + 10 >= |file| || !HeadersOf(file, r.at).EndsAt?)
  }

  // ---------- One context ----------

  /** Where a context but the last stops, and that is behind its range exactly if it is covered. */
  lemma RangeStops(file: Bytes, c: Ctx, reading: Answers, r: Outcome)
    requires OutcomeOf(file, c, reading, r) && NoFault(reading) && WellRead(file, c.start, c.end, c.start, reading)
    requires c.start < c.end && FromAt(file, c.end) && WellHeaded(file, c.start, c.end)
    ensures if Covered(file, c, reading) then r.at == c.end + 1 else c.start <= r.at < c.end
  {
    assert Regular(file, c.start, c.end);
    StopsBehind(file, c.start, c.end, c.start, ReadEnd(file, c, reading));
  }

  lemma LastStops(file: Bytes, c: Ctx, reading: Answers, r: Outcome)
    requires OutcomeOf(file, c, reading, r) && c.end == |file| && NoFault(reading)
    requires WellRead(file, c.start, c.end, c.start, reading)
    ensures Stops(file, r)
  {
  }

  /** What the context cut, put together, is the file from its start to where it stopped. */
  lemma PieceOf(file: Bytes, c: Ctx, reading: Answers, r: Outcome)
    requires OutcomeOf(file, c, reading, r)
    ensures c.start <= r.at <= |file| && Joined(r.msgs) == file[c.start..r.at]
  {
    ChainJoins(file, c.start, r.msgs, r.at);
  }

  // ---------- All contexts ----------

  /** Every range but the first begins where the one before ends, at a "From " line. */
  ghost predicate Follows(file: Bytes, cs: seq<Ctx>, i: nat)
    requires i < |cs|
  {
    && cs[i].start <= |file| && cs[i].start < cs[i].end
    && (i == 0 ==> cs[i].start == 0)
    && (i > 0 ==> cs[i - 1].end == cs[i].start)
    && (i + 1 < |cs| ==> FromAt(file, cs[i].end))
  }

  ghost predicate AllCovered(file: Bytes, cs: seq<Ctx>, readings: seq<Answers>, k: nat)
    requires k <= |cs| == |readings| && forall i :: 0 <= i < |cs| ==> cs[i].start <= |file|
  {
    forall i :: 0 <= i < k ==> Covered(file, cs[i], readings[i])
  }

  /** What the joins below need of a context: what it adds, and where it stops. */
  ghost predicate InPlace(file: Bytes, cs: seq<Ctx>, rs: seq<Outcome>, covered: seq<bool>, i: nat)
    requires i < |cs| == |rs| == |covered|
  {
    && cs[i].start <= rs[i].at <= |file| && cs[i].start < cs[i].end
    && Part(rs[i], i == 0) == Added(file, cs[i].start, rs[i].at, i == 0)
    && (i == 0 ==> cs[i].start == 0) && (i > 0 ==> cs[i - 1].end == cs[i].start)
    && (i + 1 < |cs| ==> cs[i].end < |file| && if covered[i] then rs[i].at == cs[i].end + 1 else rs[i].at < cs[i].end)
  }

  /** The bytes from `start` to `at`, without the first one if it is there already. */
  function Added(file: Bytes, start: nat, at: nat, first: bool): Bytes
    requires start <= at <= |file|
  {
    if first || start == at then file[start..at] else file[start + 1..at]
  }

  lemma PartOf(file: Bytes, c: Ctx, reading: Answers, r: Outcome, first: bool)
    requires OutcomeOf(file, c, reading, r)
    ensures c.start <= r.at <= |file| && Part(r, first) == Added(file, c.start, r.at, first)
  {
    PieceOf(file, c, reading, r);
    TailOf(file, c.start, r.at, Joined(r.msgs));
  }

  lemma TailOf(file: Bytes, start: nat, at: nat, piece: Bytes)
    requires start <= at <= |file| && piece == file[start..at]
    ensures start < at ==> |piece| > 0 && piece[1..] == file[start + 1..at]
    ensures start == at ==> |piece| == 0
  {
  }

  lemma PlaceOf(file: Bytes, cs: seq<Ctx>, readings: seq<Answers>, rs: seq<Outcome>, covered: seq<bool>, i: nat)
    requires Clean(file, cs, readings, rs) && |covered| == |cs| && i < |cs| && Follows(file, cs, i)
    requires covered[i] == Covered(file, cs[i], readings[i])
    ensures InPlace(file, cs, rs, covered, i)
  {
    var (c, r, reading) := (cs[i], rs[i], readings[i]);
    PartOf(file, c, reading, r, i == 0);
    if i + 1 < |cs| {
      RangeStops(file, c, reading, r);
    }
  }

  /** So far, up to a range that ends at `end`: everything is there, or some bytes are missing. */
  ghost predicate SoFar(file: Bytes, whole: Bytes, end: nat, all: bool) {
    && end < |file|
    && if all then whole == file[..end + 1] else |whole| < end + 1
  }

  /** One context more: `s` is the byte it shares with the one before. */
  lemma JoinNext(file: Bytes, whole: Bytes, s: nat, at: nat, all: bool, part: Bytes, reach: nat)
    requires SoFar(file, whole, s, all) && s <= at <= |file| && part == Added(file, s, at, false)
    requires reach == if at == s then s + 1 else at
    ensures if all then whole + part == file[..reach] else |whole + part| < reach
  {
    if s < at {
      assert file[..s + 1] + file[s + 1..at] == file[..at];
    }
  }

  lemma JoinEnd(file: Bytes, whole: Bytes, s: nat, at: nat, all: bool, part: Bytes, reach: nat, total: Bytes)
    requires SoFar(file, whole, s, all) && s <= at <= |file| && part == Added(file, s, at, false)
    requires reach == (if at == s then s + 1 else at) && total == whole + part
    ensures reach <= |file| && (total == file[..reach] <==> all)
  {
    JoinNext(file, whole, s, at, all, part, reach);
  }

  /** A range that is covered, or not, behind what there is so far. */
  lemma JoinRange(file: Bytes, whole: Bytes, s: nat, at: nat, end: nat, all: bool, part: Bytes, covered: bool)
    requires SoFar(file, whole, s, all) && s <= at <= |file| && part == Added(file, s, at, false)
    requires s < end < |file| && if covered then at == end + 1 else at < end
    ensures SoFar(file, whole + part, end, all && covered)
  {
    JoinNext(file, whole, s, at, all, part, if at == s then s + 1 else at);
  }

  predicate AllTrue(covered: seq<bool>, k: nat)
    requires k <= |covered|
  {
    k == 0 || (AllTrue(covered, k - 1) && covered[k - 1])
  }

  /** The first `k` contexts, the last one not among them. */
  lemma {:induction false} JoinFirst(file: Bytes, cs: seq<Ctx>, rs: seq<Outcome>, covered: seq<bool>, k: nat)
    requires |cs| == |rs| == |covered| && 0 < k < |rs|
    requires forall i: nat :: i < |cs| ==> InPlace(file, cs, rs, covered, i)
    ensures SoFar(file, First(rs, k), cs[k - 1].end, AllTrue(covered, k))
    decreases k
  {
    var j := k - 1;
    assert InPlace(file, cs, rs, covered, j);
    if j == 0 {
      assert AllTrue(covered, 0);
      FirstRange(file, rs[0].at, cs[0].end, covered[0], First(rs, 0), Part(rs[0], true));
    } else {
      JoinFirst(file, cs, rs, covered, j);
      JoinRange(file, First(rs, j), cs[j].start, rs[j].at, cs[j].end, AllTrue(covered, j), Part(rs[j], false), covered[j]);
    }
  }

  lemma FirstRange(file: Bytes, at: nat, end: nat, covered: bool, none: Bytes, part: Bytes)
    requires none == [] && at <= |file| && part == Added(file, 0, at, true)
    requires end < |file| && if covered then at == end + 1 else at < end
    ensures SoFar(file, none + part, end, covered)
  {
  }

  /** One context alone. */
  lemma JoinOne(file: Bytes, cs: seq<Ctx>, rs: seq<Outcome>, covered: seq<bool>)
    requires |cs| == |rs| == |covered| == 1 && InPlace(file, cs, rs, covered, 0)
    ensures Reach(cs, rs) <= |file| && Whole(rs) == file[..Reach(cs, rs)] && AllTrue(covered, 0)
  {
    assert First(rs, 0) + Part(rs[0], true) == file[..rs[0].at];
  }

  /** All of them: the messages are the file exactly if no context but the last loses one. */
  lemma {:induction false} JoinLast(file: Bytes, cs: seq<Ctx>, rs: seq<Outcome>, covered: seq<bool>)
    requires |cs| == |rs| == |covered| > 1
    requires forall i: nat :: i < |cs| ==> InPlace(file, cs, rs, covered, i)
    ensures Reach(cs, rs) <= |file|
    ensures Whole(rs) == file[..Reach(cs, rs)] <==> AllTrue(covered, |cs| - 1)
  {
    var j := |rs| - 1;
    var (s, at, part) := (cs[j].start, rs[j].at, Part(rs[j], false));
    var reach := if at == s then s + 1 else at;
    JoinFirst(file, cs, rs, covered, j);
    assert InPlace(file, cs, rs, covered, j) && InPlace(file, cs, rs, covered, j - 1);
    JoinEnd(file, First(rs, j), s, at, AllTrue(covered, j), part, reach, Whole(rs));
  }

  /** Which contexts are covered. */
  function Coverings(file: Bytes, cs: seq<Ctx>, readings: seq<Answers>, k: nat): (covered: seq<bool>)
    requires k <= |cs| == |readings| && forall i :: 0 <= i < |cs| ==> cs[i].start <= |file|
    ensures |covered| == k && forall i :: 0 <= i < k ==> covered[i] == Covered(file, cs[i], readings[i])
  {
    if k == 0 then [] else Coverings(file, cs, readings, k - 1) + [Covered(file, cs[k - 1], readings[k - 1])]
  }

  lemma {:induction false} AllTrueIff(file: Bytes, cs: seq<Ctx>, readings: seq<Answers>, covered: seq<bool>, k: nat)
    requires |cs| == |readings| == |covered| && k <= |cs| && forall i :: 0 <= i < |cs| ==> cs[i].start <= |file|
    requires forall i :: 0 <= i < |cs| ==> covered[i] == Covered(file, cs[i], readings[i])
    ensures AllTrue(covered, k) <==> AllCovered(file, cs, readings, k)
    decreases k
  {
    if k > 0 {
      AllTrueIff(file, cs, readings, covered, k - 1);
    }
  }

  lemma {:induction false} JoinAll(file: Bytes, cs: seq<Ctx>, readings: seq<Answers>, rs: seq<Outcome>)
    requires Clean(file, cs, readings, rs)
    requires forall i: nat :: i < |cs| ==> Follows(file, cs, i)
    ensures forall i :: 0 <= i < |cs| ==> cs[i].start <= |file|
    ensures Reach(cs, rs) <= |file|
    ensures Whole(rs) == file[..Reach(cs, rs)] <==> AllCovered(file, cs, readings, |cs| - 1)
  {
    forall i: nat | i < |cs| ensures cs[i].start <= |file| && cs[i].start < cs[i].end {
      assert Follows(file, cs, i);
    }
    var covered := Coverings(file, cs, readings, |cs|);
    AllTrueIff(file, cs, readings, covered, |cs| - 1);
    forall i: nat | i < |cs| ensures InPlace(file, cs, rs, covered, i) {
      PlaceOf(file, cs, readings, rs, covered, i);
    }
    if |cs| == 1 {
      JoinOne(file, cs, rs, covered);
    } else {
      JoinLast(file, cs, rs, covered);
    }
  }

  /**
   For every file that begins with "From ", every thread count whose starts are in order, and
   all reads that neither fail nor split a blank line: the messages of all contexts together are
   the file, up to where the last context stops, if and only if no other context loses one.
   */
  lemma {:induction false} WholeFile(file: Bytes, threads: nat, s: Search, readings: seq<Answers>, rs: seq<Outcome>)
    requires threads > 0 && AllFound(file, threads, s) && InOrder(file, threads, s)
    requires NoFaults(s) && MatchAt(file, true, 0)
    requires Clean(file, Kept(ContextsOf(file, threads, s)), readings, rs)
    ensures var cs := Kept(ContextsOf(file, threads, s));
      && Stops(file, rs[|rs| - 1]) && Reach(cs, rs) <= |file|
      && (forall i :: 0 <= i < |cs| ==> cs[i].start <= |file|)
      && (Whole(rs) == file[..Reach(cs, rs)] <==> AllCovered(file, cs, readings, |cs| - 1))
  {
    var cs := KeptOfFile(file, threads, s);
    LastStops(file, cs[|cs| - 1], readings[|cs| - 1], rs[|cs| - 1]);
    JoinAll(file, cs, readings, rs);
  }

  lemma KeptOfFile(file: Bytes, threads: nat, s: Search) returns (cs: seq<Ctx>)
    requires threads > 0 && AllFound(file, threads, s) && InOrder(file, threads, s)
    requires NoFaults(s) && MatchAt(file, true, 0)
    ensures cs == Kept(ContextsOf(file, threads, s)) && Covers(cs, 0, |file|)
    ensures forall i: nat :: i < |cs| ==> Follows(file, cs, i)
  {
    cs := Kept(ContextsOf(file, threads, s));
    assert Share(file, threads, 0) == 0 && StartAt(file, threads, s, 0).Some?;
    StartsAtZero(file, s, 0);
    CoversIff(file, threads, s);
    forall i: nat | i < |cs| ensures Follows(file, cs, i) {
      KeptFollows(file, threads, s, cs, i);
    }
  }

  lemma KeptFollows(file: Bytes, threads: nat, s: Search, cs: seq<Ctx>, i: nat)
    requires AllFound(file, threads, s) && NoFaults(s) && MatchAt(file, true, 0)
    requires cs == Kept(ContextsOf(file, threads, s)) && Covers(cs, 0, |file|) && i < |cs|
    ensures Follows(file, cs, i)
  {
    var (h, j) := (i - 1, i + 1);
    if i > 0 {
      assert cs[h].end == cs[i].start;
    }
    KeptReady(file, threads, s, i);
    if j < |cs| {
      KeptReady(file, threads, s, j);
      assert cs[i].end == cs[j].start;
    }
  }
}
