/**
 The messages of one range (src/mbox.c, mboxParserCtxGetNextMessageCallback): consecutive
 slices of the file, and when they reach the end of the range.
 */
module Messages {
  import opened Bytes
  import opened HeaderReads
  import opened LineScan
  import opened Splitter
  import opened Syscalls

  /** Messages that follow each other without gap or overlap from `start` to `end`. */
  ghost predicate Chain(file: Bytes, start: nat, msgs: seq<Message>, end: nat) {
    && start <= end <= |file|
    && (|msgs| == 0 ==> end == start)
    && (|msgs| > 0 ==> msgs[0].start == start && msgs[|msgs| - 1].end == end)
    && (forall i :: 0 <= i < |msgs| ==>
          msgs[i].start < msgs[i].end <= |file| && msgs[i].bytes == file[msgs[i].start..msgs[i].end])
    && (forall i, j :: 0 <= i < j < |msgs| && j == i + 1 ==> msgs[i].end == msgs[j].start)
  }

  /** Cut at a "From " line; if `whole`, behind the headers as the whole file has them. */
  ghost predicate CutAt(file: Bytes, start: nat, end: nat, whole: bool) {
    exists h :: CutBy(file, start, h, end) && (whole ==> start <= |file| && HeadersOf(file, start) == EndsAt(h))
  }

  /** The first `n` messages end at "From " lines. */
  ghost predicate AllCut(file: Bytes, msgs: seq<Message>, n: int, whole: bool) {
    forall i :: 0 <= i < n && i < |msgs| ==> CutAt(file, msgs[i].start, msgs[i].end, whole)
  }

  ghost predicate StartBefore(msgs: seq<Message>, bound: nat) {
    forall i :: 0 <= i < |msgs| ==> msgs[i].start < bound
  }

  lemma ChainAppend(file: Bytes, start: nat, msgs: seq<Message>, m: Message)
    requires Chain(file, start, msgs, m.start)
    requires m.start < m.end <= |file| && m.bytes == file[m.start..m.end]
    ensures Chain(file, start, msgs + [m], m.end)
  {
  }

  // ---------- The whole range ----------

  /** Every message that begins in front of `end` has its headers end in front of it, too. */
  ghost predicate WellHeaded(file: Bytes, start: nat, end: nat) {
    forall o :: start <= o < end && o <= |file| && (o == start || FromAt(file, o - 1)) ==> HeadedBefore(file, o, end)
  }

  /** The range ends at a "From " line, and its headers inside. */
  ghost predicate Regular(file: Bytes, start: nat, end: nat) {
    start < end && FromAt(file, end) && WellHeaded(file, start, end)
  }

  /** Of no message of the range does a read split the blank line, with the first read to begin at `first`. */
  ghost predicate WellRead(file: Bytes, start: nat, end: nat, first: nat, reading: Answers)
    requires first <= |file|
  {
    forall o :: start <= o <= |file| && (o == start || (o < end && FromAt(file, o - 1))) ==>
      Unsplit(file, o, first, reading)
  }

  /** In a file without carriage returns, none does. */
  lemma PlainIsWellRead(file: Bytes, start: nat, end: nat, first: nat, reading: Answers)
    requires first <= |file| && CR !in file
    ensures WellRead(file, start, end, first, reading)
  {
  }

  /**
   Where the messages of a range end if the first read behind it ends at `f`: behind the line
   feed the range ends at; or in front of the first message whose "From " line that read is
   too close to.
   */
  function StopAt(file: Bytes, o: nat, end: nat, f: nat): nat
    requires o <= |file|
    decreases |file| - o
  {
    var x := HeadersOf(file, o);
    if !x.EndsAt? then o
    else
      var e := NextFrom(file, x.h);
      if e == |file| || TooClose(file, x.h, e, f) then o
      else if e >= end then e + 1
      else StopAt(file, e + 1, end, f)
  }

  /** Where the headers of a message in a regular range end, and the "From " line behind them. */
  lemma NextIn(file: Bytes, start: nat, end: nat, o: nat) returns (x: nat, e: nat)
    requires Regular(file, start, end) && start <= o < end && (o == start || FromAt(file, o - 1))
    ensures IsNext(file, end, o, x, e)
  {
    assert HeadedBefore(file, o, end);
    x := HeadersOf(file, o).h;
    e := FirstFromIn(file, x, end);
    NoFromInside(file, end, e);
  }

  ghost predicate IsNext(file: Bytes, end: nat, o: nat, x: nat, e: nat) {
    && end < |file| && o <= |file| && HeadersOf(file, o) == EndsAt(x)
    && FirstFrom(file, x, e) && o <= x && (e == end || e + 1 < end)
  }

  /** One message further, with the first read behind the range ending at `ahead`. */
  lemma StopStep(file: Bytes, end: nat, o: nat, x: nat, e: nat, r: Next, h: nat, err: IoErr, f: nat, ahead: nat)
    requires IsNext(file, end, o, x, e)
    requires err != IoReadErr && Decided(file, o, HeadersOf(file, o), end, r, h, err, f)
    requires end < ahead <= |file| && f <= ahead && (f > end ==> f == ahead)
    ensures !r.NoReturn? && err == IoOk && (r.Got? ==> r.msg.end == e + 1)
    ensures r.Got? <==> !TooClose(file, x, e, ahead)
  {
    DecidedAt(file, o, end, r, x, h, e, err, f);
    ScanMeansClose(file, o, x, e, f, ahead);
  }

  /** A message that the range goes on behind does not change where it stops. */
  lemma StopGoesOn(file: Bytes, start: nat, end: nat, o: nat, m: Message, h: nat, err: IoErr, f: nat, ahead: nat)
    requires Regular(file, start, end) && start <= o < end && (o == start || FromAt(file, o - 1))
    requires err != IoReadErr && Decided(file, o, HeadersOf(file, o), end, Got(m), h, err, f) && m.end < end
    requires end < ahead <= |file| && f <= ahead && (f > end ==> f == ahead)
    ensures m.end <= |file| && StopAt(file, m.end, end, ahead) == StopAt(file, o, end, ahead)
  {
    var x, e := NextIn(file, start, end, o);
    StopStep(file, end, o, x, e, Got(m), h, err, f, ahead);
    StopBehind(file, end, o, x, e, m.end, ahead);
  }

  lemma StopBehind(file: Bytes, end: nat, o: nat, x: nat, e: nat, next: nat, ahead: nat)
    requires IsNext(file, end, o, x, e) && !TooClose(file, x, e, ahead) && next == e + 1 < end
    ensures StopAt(file, next, end, ahead) == StopAt(file, o, end, ahead)
  {
    StopNext(file, o, end, x, e, ahead);
  }

  /** The last message of a regular range, or none. */
  lemma StopsThere(file: Bytes, start: nat, end: nat, o: nat, r: Next, h: nat, err: IoErr, f: nat, ahead: nat)
    requires Regular(file, start, end) && start <= o < end && (o == start || FromAt(file, o - 1))
    requires err != IoReadErr && Decided(file, o, HeadersOf(file, o), end, r, h, err, f) && (r.Got? ==> r.msg.end >= end || err == IoEof)
    requires end < ahead <= |file| && f <= ahead && (f > end ==> f == ahead)
    ensures !r.NoReturn? && StopAt(file, o, end, ahead) == if r.Got? then r.msg.end else o
  {
    var x, e := NextIn(file, start, end, o);
    StopStep(file, end, o, x, e, r, h, err, f, ahead);
    StopNext(file, o, end, x, e, ahead);
  }

  /** What the scan sees in a buffer that may still grow, with the first read behind the range at `ahead`. */
  lemma ScanMeansClose(file: Bytes, o: nat, x: nat, e: nat, f: nat, ahead: nat)
    requires o <= x <= f <= ahead <= |file| && FirstFrom(file, x, e) && e < ahead
    ensures ScanLines(file[o..f], x - o).Seen? ==> !TooClose(file, x, e, ahead)
    ensures ScanLines(file[o..f], x - o).Short? && f == ahead ==> TooClose(file, x, e, ahead)
  {
    if ScanLines(file[o..f], x - o).Seen? {
      SeenBefore(file, o, x, e, f);
      SeenClear(file, o, x, e, f, ahead);
    } else if f == ahead {
      CutShortIff(file, o, x, e, ahead);
    }
  }

  /** With headers and a "From " line in reach: the message up to that line, or a scan cut short. */
  lemma DecidedAt(file: Bytes, o: nat, end: nat, r: Next, x: nat, h: nat, e: nat, err: IoErr, f: nat)
    requires o <= |file| && err != IoReadErr && Decided(file, o, HeadersOf(file, o), end, r, h, err, f)
    requires HeadersOf(file, o) == EndsAt(x) && FirstFrom(file, x, e) && end < |file|
    ensures !r.NoReturn? && err == IoOk && o <= x <= f <= |file|
    ensures r.Got? ==> r.msg.end == e + 1 && ScanLines(file[o..f], x - o).Seen?
    ensures r.Nothing? ==> f > end && ScanLines(file[o..f], x - o).Short?
  {
  }

  lemma NoFromInside(file: Bytes, end: nat, e: nat)
    requires FromAt(file, end) && FromAt(file, e) && e <= end
    ensures e == end || e + 1 < end
  {
  }

  lemma StopNext(file: Bytes, o: nat, end: nat, h: nat, e: nat, ahead: nat)
    requires o <= |file| && HeadersOf(file, o) == EndsAt(h) && FirstFrom(file, h, e)
    ensures StopAt(file, o, end, ahead) ==
      if TooClose(file, h, e, ahead) then o else if e >= end then e + 1 else StopAt(file, e + 1, end, ahead)
  {
    NextFromIs(file, h, e);
  }

  lemma SeenClear(file: Bytes, o: nat, h: nat, e: nat, f: nat, ahead: nat)
    requires o <= h <= e < f <= ahead <= |file| && FirstFrom(file, h, e) && ScanLines(file[o..f], h - o).Seen?
    ensures !TooClose(file, h, e, ahead)
  {
    SeenStays(file, o, h, f, ahead);
    CutShortIff(file, o, h, e, ahead);
  }

  lemma SeenBefore(file: Bytes, o: nat, h: nat, e: nat, f: nat)
    requires o <= h <= f <= |file| && FirstFrom(file, h, e) && ScanLines(file[o..f], h - o).Seen?
    ensures e < f
  {
    ScanOfSlice(file, o, f, h - o);
    ScanPasses(file[o..f], h - o);
  }

  lemma FirstFromIn(file: Bytes, h: nat, end: nat) returns (e: nat)
    requires h <= end && FromAt(file, end)
    ensures FirstFrom(file, h, e) && e <= end
    decreases end - h
  {
    if FromAt(file, h) {
      e := h;
    } else {
      e := FirstFromIn(file, h + 1, end);
    }
  }

  /** A first read that ends ten bytes or more behind the range is never too close. */
  lemma {:induction false} StopsBehind(file: Bytes, start: nat, end: nat, o: nat, f: nat)
    requires Regular(file, start, end) && start <= o < end && (o == start || FromAt(file, o - 1)) && f > end
    ensures var at := StopAt(file, o, end, f); at == end + 1 || (start <= at < end && f <= end + 9)
    decreases end - o
  {
    var h, e := NextIn(file, start, end, o);
    StopNext(file, o, end, h, e, f);
    if !TooClose(file, h, e, f) && e < end {
      StopsBehind(file, start, end, e + 1, f);
    }
  }

  /**
   The message that ends where the range does is dropped exactly if the last read ended in the
   "From " line behind it, or within ten bytes of a line feed of its own.
   */
  lemma LostIff(file: Bytes, end: nat, o: nat, r: Next, x: nat, h: nat, err: IoErr, f: nat)
    requires err != IoReadErr && o <= |file| && HeadersOf(file, o) == EndsAt(x) && FirstFrom(file, x, end)
    requires Decided(file, o, EndsAt(x), end, r, h, err, f)
    ensures err == IoOk && f > end
    ensures r.Nothing? <==> TooClose(file, x, end, f)
  {
    if r.Got? {
      ScanPasses(file[o..f], x - o);
      ScanOfSlice(file, o, f, x - o);
    }
    CutShortIff(file, o, x, end, f);
  }

  /**
   How the loop over a range comes out: `at` is where its last message ends, `f` where its last
   read did; `whole` says that no read splits the blank line of a message.
   */
  ghost predicate CameOut(file: Bytes, start: nat, end: nat, at: nat, f: nat, ahead: nat, err: IoErr, returned: bool, whole: bool) {
    && start <= |file| && at <= |file|
    && (returned ==> at >= end || err != IoOk || f > end)
    && (whole && err != IoReadErr ==>
          && (Regular(file, start, end) ==> returned && at == StopAt(file, start, end, ahead))
          && (!returned ==> HeadersOf(file, at).NeverEnds?)
          && (returned && |file| <= end ==> at + 10 >= |file| || HeadersOf(file, at).NoEnd?))
  }

  /** What has been cut so far, up to `at`. */
  ghost predicate CutUpTo(file: Bytes, start: nat, end: nat, msgs: seq<Message>, at: nat, cut: int, whole: bool) {
    && Chain(file, start, msgs, at) && AllCut(file, msgs, cut, whole)
    && (start < end ==> StartBefore(msgs, end))
  }

  lemma CutOneMore(file: Bytes, start: nat, end: nat, msgs: seq<Message>, m: Message, whole: bool)
    requires CutUpTo(file, start, end, msgs, m.start, |msgs|, whole) && (start < end ==> m.start < end)
    requires m.start < m.end <= |file| && m.bytes == file[m.start..m.end]
    ensures CutUpTo(file, start, end, msgs + [m], m.end, |msgs|, whole)
    ensures CutAt(file, m.start, m.end, whole) ==> CutUpTo(file, start, end, msgs + [m], m.end, |msgs| + 1, whole)
  {
    ChainAppend(file, start, msgs, m);
  }

  lemma CutEndsAtFrom(file: Bytes, start: nat, end: nat, whole: bool)
    requires CutAt(file, start, end, whole)
    ensures end > 0 && FromAt(file, end - 1)
  {
    var h :| CutBy(file, start, h, end);
  }

  /** Where the first read behind the range ends, as far as it is known at `f`. */
  predicate IsAhead(file: Bytes, end: nat, f: nat, ahead: nat) {
    f <= ahead <= |file| && (f > end ==> f == ahead) && (end < |file| ==> end < ahead)
  }

  /** Between two messages of a range: cut up to `at`, which is where the range or a "From " line begins. */
  ghost predicate Going(file: Bytes, start: nat, end: nat, msgs: seq<Message>, at: nat, ahead: nat, whole: bool) {
    && CutUpTo(file, start, end, msgs, at, |msgs|, whole)
    && start <= at <= |file| && (at == start || (at < end && FromAt(file, at - 1)))
    && (whole && Regular(file, start, end) ==> StopAt(file, at, end, ahead) == StopAt(file, start, end, ahead))
  }

  /** At the end of the loop: only the message that a full file ends with need not end at a "From " line. */
  ghost predicate Over(file: Bytes, start: nat, end: nat, msgs: seq<Message>, at: nat,
                       f: nat, ahead: nat, err: IoErr, done: bool, returned: bool, whole: bool)
  {
    && CutUpTo(file, start, end, msgs, at, if err == IoEof && done then |msgs| - 1 else |msgs|, whole)
    && CameOut(file, start, end, at, f, ahead, err, returned, whole)
  }

  /** What the code knows of a message it got: a slice of the file, at a "From " line but for the last one. */
  ghost predicate CutFrom(file: Bytes, end: nat, o: nat, m: Message, err: IoErr, done: bool, whole: bool) {
    && m.start == o < m.end <= |file| && m.bytes == file[o..m.end]
    && done == (m.end >= end || err == IoEof) && (err != IoEof ==> CutAt(file, o, m.end, whole))
  }

  /** What one turn of the loop over a range knows. */
  ghost predicate Turn(file: Bytes, start: nat, end: nat, o: nat, r: Next, h: nat,
                       f: nat, ahead: nat, err: IoErr, done: bool, whole: bool)
  {
    && start <= o <= |file|
    && (whole && err != IoReadErr ==> Decided(file, o, HeadersOf(file, o), end, r, h, err, f))
    && (if r.Got? then CutFrom(file, end, o, r.msg, err, done, whole) else !done)
    && (r.Nothing? ==> err != IoOk || f > end)
    && (whole && Regular(file, start, end) && err != IoReadErr ==> IsAhead(file, end, f, ahead))
  }

  /** The last turn of the loop. */
  lemma LastTurn(file: Bytes, start: nat, end: nat, msgs: seq<Message>, o: nat, r: Next, h: nat,
                 f: nat, ahead: nat, err: IoErr, done: bool, whole: bool)
    requires Going(file, start, end, msgs, o, ahead, whole) && Turn(file, start, end, o, r, h, f, ahead, err, done, whole)
    requires r.Got? ==> done && err != IoReadErr
    ensures CameOut(file, start, end, if r.Got? then r.msg.end else o, f, ahead, err, !r.NoReturn?, whole)
  {
    if whole && Regular(file, start, end) && err != IoReadErr {
      StopsThere(file, start, end, o, r, h, err, f, ahead);
    }
  }

  /** A turn of the loop that goes on. */
  lemma NextTurn(file: Bytes, start: nat, end: nat, msgs: seq<Message>, o: nat, r: Next, h: nat,
                 f: nat, ahead: nat, err: IoErr, whole: bool)
    requires Going(file, start, end, msgs, o, ahead, whole) && Turn(file, start, end, o, r, h, f, ahead, err, false, whole)
    requires r.Got? && err == IoOk
    ensures Going(file, start, end, msgs + [r.msg], r.msg.end, ahead, whole)
  {
    CutOneMore(file, start, end, msgs, r.msg, whole);
    CutEndsAtFrom(file, o, r.msg.end, whole);
    if whole && Regular(file, start, end) {
      StopGoesOn(file, start, end, o, r.msg, h, err, f, ahead);
    }
  }

  /** One turn of the loop over a range. */
  lemma OneTurn(file: Bytes, start: nat, end: nat, msgs: seq<Message>, o: nat,
                r: Next, h: nat, f: nat, ahead: nat, err: IoErr, done: bool, whole: bool)
    requires Going(file, start, end, msgs, o, ahead, whole) && Turn(file, start, end, o, r, h, f, ahead, err, done, whole)
    requires r.Got? ==> err != IoReadErr
    ensures r.Got? && !done ==> Going(file, start, end, msgs + [r.msg], r.msg.end, ahead, whole)
    ensures r.Got? && done ==> Over(file, start, end, msgs + [r.msg], r.msg.end, f, ahead, err, done, true, whole)
    ensures !r.Got? ==> Over(file, start, end, msgs, o, f, ahead, err, done, r.Nothing?, whole)
  {
    if r.Got? && !done {
      NextTurn(file, start, end, msgs, o, r, h, f, ahead, err, whole);
    } else {
      LastTurn(file, start, end, msgs, o, r, h, f, ahead, err, done, whole);
      if r.Got? {
        CutOneMore(file, start, end, msgs, r.msg, whole);
      }
    }
  }

  /** In a range whose headers end inside no read begins behind it, but for one that is the last. */
  ghost predicate OnTime(p: Parser, start: nat, ahead: nat, whole: bool)
    requires p.fileOffset <= |p.file|
    reads p
  {
    whole && Regular(p.file, start, p.endOffset) && p.ioErr != IoReadErr ==> p.Ahead() == ahead
  }

  /** The next message of the range that begins at `start`. */
  method TakeNext(p: Parser, ghost start: nat, ghost ahead: nat, ghost whole: bool) returns (r: Next, ghost h: nat)
    requires p.Valid() && !p.done && OnTime(p, start, ahead, whole)
    requires start <= p.offset && (p.offset == start || (p.offset < p.endOffset && FromAt(p.file, p.offset - 1)))
    requires whole ==> WellRead(p.file, start, p.endOffset, p.first, p.reading)
    modifies p
    ensures p.endOffset == old(p.endOffset) && p.offset == if r.Got? then r.msg.end else old(p.offset)
    ensures Turn(p.file, start, p.endOffset, old(p.offset), r, h, p.fileOffset, ahead, p.ioErr, p.done, whole)
    ensures r.Got? ==> p.ioErr != IoReadErr
    ensures r.Got? && !p.done ==> p.Valid() && OnTime(p, start, ahead, whole)
    ensures p.ioErr == IoReadErr ==> p.LastFailed()
    ensures r.NoReturn? ==> p.Hanging() && NUL in p.file
  {
    ghost var o := p.offset;
    assert whole ==> Unsplit(p.file, o, p.first, p.reading);
    assert Regular(p.file, start, p.endOffset) ==> HeadedBefore(p.file, o, p.endOffset);
    r, h := p.GetNextMessage();
    if r.Got? && p.ioErr != IoEof {
      assert CutBy(p.file, o, h, r.msg.end);
      assert whole ==> HeadersOf(p.file, o) == EndsAt(h);
    }
  }

  /**
   The loop of the io job: one message after the other until the range is used up, or nothing
   more comes; `returned` is false if the search for a message never ends.
   */
  method GetAllMessages(p: Parser) returns (msgs: seq<Message>, returned: bool)
    requires p.Valid() && !p.done
    modifies p
    ensures p.endOffset == old(p.endOffset)
    ensures Over(p.file, old(p.offset), p.endOffset, msgs, p.offset, p.fileOffset, old(p.Ahead()), p.ioErr, p.done, returned,
                 WellRead(p.file, old(p.offset), p.endOffset, p.first, p.reading))
    ensures p.ioErr == IoReadErr ==> p.LastFailed()
    ensures NoFault(p.reading) ==> p.ioErr != IoReadErr
    ensures !returned ==> p.Hanging() && NUL in p.file
  {
    msgs := [];
    ghost var start, ahead, whole := p.offset, p.Ahead(), WellRead(p.file, p.offset, p.endOffset, p.first, p.reading);
    while true
      invariant p.Valid() && !p.done && p.endOffset == old(p.endOffset)
      invariant Going(p.file, start, p.endOffset, msgs, p.offset, ahead, whole) && OnTime(p, start, ahead, whole)
      decreases |p.file| - p.offset
    {
      ghost var o := p.offset;
      var r, h := TakeNext(p, start, ahead, whole);
      OneTurn(p.file, start, p.endOffset, msgs, o, r, h, p.fileOffset, ahead, p.ioErr, p.done, whole);
      if !r.Got? {
        return msgs, r.Nothing?;
      }
      msgs := msgs + [r.msg];
      if p.done {
        return msgs, true;
      }
    }
    returned := true;
  }

  // ---------- Together, and whatever the reads ----------

  function Joined(msgs: seq<Message>): Bytes {
    if |msgs| == 0 then [] else Joined(msgs[..|msgs| - 1]) + msgs[|msgs| - 1].bytes
  }

  /** Put together, the messages are the piece of the file they were cut from. */
  lemma {:induction false} ChainJoins(file: Bytes, start: nat, msgs: seq<Message>, end: nat)
    requires Chain(file, start, msgs, end)
    ensures Joined(msgs) == file[start..end]
    decreases |msgs|
  {
    var n := |msgs|;
    if n > 0 {
      var before := msgs[..n - 1];
      ChainStart(file, start, msgs, n - 1);
      ChainJoins(file, start, before, msgs[n - 1].start);
      var m := msgs[n - 1].start;
      assert file[start..m] + file[m..end] == file[start..end];
    }
  }

  /** The first messages of a chain are a chain up to the next one. */
  lemma {:induction false} ChainStart(file: Bytes, start: nat, msgs: seq<Message>, n: nat)
    requires |msgs| > 0 && n < |msgs|
    requires exists end :: Chain(file, start, msgs, end)
    ensures Chain(file, start, msgs[..n], msgs[n].start)
    decreases n
  {
    if n > 0 {
      ChainStart(file, start, msgs, n - 1);
      assert msgs[n - 1].end == msgs[n].start;
      assert msgs[..n][n - 1] == msgs[n - 1];
    }
  }

  /**
   Two runs from the same start cut the same messages, however differently their reads came
   out, as far as both cut at "From " lines and no read splits a blank line.
   */
  lemma {:induction false} ReadsDoNotMatter(file: Bytes, start: nat, a: seq<Message>, b: seq<Message>,
                                            aEnd: nat, bEnd: nat, i: nat)
    requires Chain(file, start, a, aEnd) && Chain(file, start, b, bEnd)
    requires i < |a| && i < |b| && AllCut(file, a, i + 1, true) && AllCut(file, b, i + 1, true)
    ensures a[i] == b[i]
  {
    if i > 0 {
      ReadsDoNotMatter(file, start, a, b, aEnd, bEnd, i - 1);
      assert a[i - 1].end == a[i].start && b[i - 1].end == b[i].start;
    }
    CutUnique(file, a[i].start, a[i].end, b[i].end);
  }

  lemma CutUnique(file: Bytes, start: nat, end: nat, end': nat)
    requires CutAt(file, start, end, true) && CutAt(file, start, end', true)
    ensures end == end'
  {
    var h :| CutBy(file, start, h, end) && HeadersOf(file, start) == EndsAt(h);
    var h' :| CutBy(file, start, h', end') && HeadersOf(file, start) == EndsAt(h');
  }

  // ---------- A message that is lost ----------

  /** A message of eight bytes, and the "From " line of the next one. */
  function TwoLines(): Bytes {
    [70, 114, 111, 109, 32, 10, 10, 10, 70, 114, 111, 109, 32]
  }

  /** The range ends where the message does; a first read of eight bytes is too close, one of thirteen is not. */
  lemma LossyReads(n: nat)
    requires n == 8 || n == 13
    ensures var file := TwoLines();
      Regular(file, 0, 7) && StopAt(file, 0, 7, Past(k => n, 0, 0, 7, |file|)) == if n == 8 then 0 else 8
  {
    var file, reading: Answers := TwoLines(), k => n;
    assert FirstBlank(file, 0, 7) by {
      assert file[5] == LF && file[6] == LF;
    }
    HeadersEndIff(file, 0, 7);
    assert Past(reading, 0, 0, 7, 13) == n by {
      assert Delivered(reading(0), READ_SIZE, 13) == n;
    }
    assert forall q: nat :: q < 6 ==> !FromAt(file, q);
    NextFromIs(file, 7, 7);
    assert TooClose(file, 7, 7, n) <==> n == 8;
  }

  /** The job of that range, with a first read of `n` bytes. */
  method LossyRun(n: nat) returns (msgs: seq<Message>)
    requires n == 8 || n == 13
    ensures n == 8 ==> msgs == []
    ensures n == 13 ==> Joined(msgs) == TwoLines()[..8]
  {
    var file := TwoLines();
    LossyReads(n);
    PlainIsWellRead(file, 0, 7, 0, k => n);
    var p := new Parser(file, 0, 7, k => n);
    var returned;
    msgs, returned := GetAllMessages(p);
    ChainJoins(file, 0, msgs, p.offset);
  }

  /** The same range of the same file, read eight bytes at first and as a whole. */
  method LosesMessage() returns (lost: seq<Message>, kept: seq<Message>)
    ensures lost == [] && Joined(kept) == TwoLines()[..8]
  {
    lost := LossyRun(8);
    kept := LossyRun(13);
  }

  /** A message with CR LF at the end of its lines: a "From " line, the blank line, one byte of text. */
  function CrLfMessage(): Bytes {
    [70, 114, 111, 109, 32, 13, 10, 13, 10, 46]
  }

  /** A first read of eight bytes ends inside the blank line; one of ten does not. */
  lemma SplitReads(n: nat)
    requires n == 8 || n == 10
    ensures var file := CrLfMessage();
      && HeadersOf(file, 0) == EndsAt(9)
      && HeadersBy(file, 0, 0, 0, 0, k => n) == if n == 8 then NoEnd else EndsAt(9)
  {
    var file, reading: Answers := CrLfMessage(), k => n;
    assert FirstBlank(file, 0, 9) by {
      assert file[6] == LF && file[7] == CR && file[8] == LF;
    }
    HeadersEndIff(file, 0, 9);
    assert Past(reading, 0, 0, 7, 10) == n by {
      assert Delivered(reading(0), READ_SIZE, 10) == n;
    }
    ByIff(file, 0, 0, 0, 0, reading);
  }

  /** The same message, read eight bytes at first and as a whole: once there is none, once it is cut. */
  method LosesSplit() returns (lost: Next, kept: Next)
    ensures lost == Nothing && kept.Got?
  {
    var file := CrLfMessage();
    SplitReads(8);
    SplitReads(10);
    ghost var h;
    var first := new Parser(file, 0, 10, k => 8);
    lost, h := first.GetNextMessage();
    var second := new Parser(file, 0, 10, k => 10);
    kept, h := second.GetNextMessage();
  }
}
