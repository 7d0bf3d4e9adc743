/**
 The message splitter (src/mbox-parser.c): a buffer over a file, refilled by reads of any
 size, out of which messages are cut at the lines that begin with "From ". The file is a
 sequence of bytes; the answers of the system say of every read whether it fails and how much
 it delivers.
 */
module Splitter {
  import opened Bytes
  import opened HeaderReads
  import opened LineScan
  import opened Syscalls

  datatype IoErr = IoOk | IoEof | IoReadErr

  datatype Message = Message(bytes: Bytes, start: nat, end: nat)

  /** How the search for the headers' end comes out; Stuck stands for a loop that never ends. */
  datatype Seek = Found | Failed | Stuck

  datatype Next = Got(msg: Message) | Nothing | NoReturn

  /** One cut of the buffer in two is one cut of the file. */
  lemma CutBuffer(file: Bytes, a: nat, b: nat, p: nat)
    requires a <= b <= |file| && p <= b - a
    ensures file[a..b][..p] == file[a..a + p] && file[a..b][p..] == file[a + p..b]
  {
    assert forall k :: 0 <= k < b - a ==> file[a..b][k] == file[a + k];
  }

  lemma ReadJoins(file: Bytes, a: nat, b: nat, n: nat)
    requires a <= b && b + n <= |file|
    ensures file[a..b] + file[b..b + n] == file[a..b + n] && Extends(file[a..b], file[a..b + n])
  {
    assert file[a..b + n] == file[a..b] + file[b..b + n];
  }

  lemma BlankInBuffer(file: Bytes, a: nat, b: nat, pos: nat)
    requires a <= b <= |file| && pos <= b - a && BlankLineAt(file[a..b], 0, pos)
    ensures BlankLineAt(file, a, a + pos)
  {
    assert forall k :: 0 <= k < b - a ==> file[a..b][k] == file[a + k];
  }

  /** How the rest of the cut comes out once the headers are known to end at `h`, without a failed read. */
  ghost predicate AfterHeaders(file: Bytes, o: nat, end: nat, r: Next, h: nat, err: IoErr, f: nat) {
    && o <= h <= f <= |file| && !r.NoReturn?
    && (err == IoEof ==> r.Got? && f == |file| <= end && r.msg.end + 10 >= |file|)
    && (r.Nothing? ==> err == IoOk && f > end && ScanLines(file[o..f], h - o).Short?)
    && (r.Got? && err == IoOk ==>
          r.msg.end > 0 && FirstFrom(file, h, r.msg.end - 1) && ScanLines(file[o..f], h - o).Seen?)
  }

  /** How cutting a message at `o` comes out if the search for its headers comes to `ends`, without a failed read. */
  ghost predicate Decided(file: Bytes, o: nat, ends: HeadersEnd, end: nat, r: Next, h: nat, err: IoErr, f: nat) {
    match ends
    case NeverEnds => r.NoReturn?
    case NoEnd => r.Nothing? && err == IoEof && f == |file|
    case EndsAt(x) => h == x && AfterHeaders(file, o, end, r, h, err, f)
  }

  /** The message at `start` ends at the first "From " line behind a blank line of its own at `h`. */
  ghost predicate CutBy(file: Bytes, start: nat, h: nat, end: nat) {
    BlankLineAt(file, start, h) && end > 0 && FirstFrom(file, h, end - 1)
  }

  /**
   A search for the next "From " line comes to what the scan of the bytes read so far comes
   to; it gives up (0) only behind the end of the range. The buffer ends at `f`.
   */
  ghost predicate Comes(scan: LineScan, pos: nat, code: int, err: IoErr, f: nat, end: nat, size: nat) {
    && (code == 1 || code == 0 || code == -1)
    && (code == -1 <==> err == IoReadErr)
    && (code == 1 && err == IoOk ==> pos > 0 && scan == Seen(pos - 1))
    && (code == 0 || err == IoEof ==> scan == Short(pos))
    && (code == 0 ==> err == IoOk && f > end)
    && (err == IoEof ==> code == 1 && f == size <= end)
  }

  /** A search that gives up leaves no message. */
  lemma GivesUp(file: Bytes, o: nat, end: nat, h: nat, f: nat, pos: nat, code: int, err: IoErr)
    requires o <= h <= f <= |file| && code != 1
    requires Comes(ScanLines(file[o..f], h - o), pos, code, err, f, end, |file|)
    ensures err != IoReadErr ==> AfterHeaders(file, o, end, Nothing, h, err, f)
    ensures err != IoOk || f > end
  {
  }

  /** A search that succeeds ends the message at the first "From " line, or where the file ends. */
  lemma Succeeds(file: Bytes, o: nat, end: nat, h: nat, f: nat, pos: nat, m: Message, err: IoErr)
    requires o <= h <= f <= |file| && m.end == o + pos <= f
    requires Comes(ScanLines(file[o..f], h - o), pos, 1, err, f, end, |file|)
    requires BlankLineAt(file, o, h)
    ensures AfterHeaders(file, o, end, Got(m), h, err, f)
    ensures err != IoEof ==> CutBy(file, o, h, m.end)
  {
    if err == IoEof {
      ScanEnds(file[o..f], h - o);
    } else {
      ScanOfSlice(file, o, f, h - o);
    }
  }

  /** What a code of the search makes of the message at `o`, with the bytes read so far in `data`. */
  lemma EndsAs(file: Bytes, data: Bytes, o: nat, end: nat, h: nat, from: nat, f: nat, pos: nat, code: int, err: IoErr)
      returns (next: Next)
    requires o <= f <= |file| && data == file[o..f] && from <= pos <= |data| && h == o + from
    requires BlankLineAt(file, o, h)
    requires Comes(ScanLines(data, from), pos, code, err, f, end, |file|)
    ensures pos > 0 && !next.NoReturn? && (code == 1 <==> next.Got?)
    ensures next.Got? ==> next.msg == Message(file[o..o + pos], o, o + pos)
    ensures next.Got? && err != IoEof ==> err == IoOk && CutBy(file, o, h, o + pos)
    ensures err == IoReadErr ==> next.Nothing?
    ensures err != IoReadErr ==> AfterHeaders(file, o, end, next, h, err, f)
  {
    if code == 1 {
      next := Got(Message(file[o..o + pos], o, o + pos));
      Succeeds(file, o, end, h, f, pos, next.msg, err);
    } else {
      next := Nothing;
      GivesUp(file, o, end, h, f, pos, code, err);
    }
  }

  lemma HangsAtNul(data: Bytes, pos: nat)
    requires pos + 1 < |data| && CanParse(data, pos) == (false, pos)
    ensures NUL in data
  {
    assert data[pos] == NUL || data[pos + 1] == NUL;
  }

  class Parser {
    const file: Bytes
    const reading: Answers // what the system answers to the reads of this context
    const first: nat       // where the first of them begins
    var calls: nat         // how many of them have been made
    var data: Bytes        // what is in the buffer
    var pos: nat           // how far the scan has come in it
    var offset: nat        // file position of the current message
    var endOffset: nat     // where the range of this context ends
    var fileOffset: nat    // file position of the next read
    var ioErr: IoErr
    var done: bool

    constructor (file: Bytes, start: nat, end: nat, reading: Answers)
      requires start <= |file|
      ensures Valid() && this.file == file && offset == start && endOffset == end && !done
      ensures this.reading == reading && calls == 0 && fileOffset == first == start
    {
      this.file, this.reading, first, calls, data, pos := file, reading, start, 0, [], 0;
      offset, fileOffset, endOffset := start, start, end;
      ioErr, done := IoOk, false;
    }

    /** The reads so far have come to the file offset. */
    ghost predicate Tracked()
      reads `fileOffset, `ioErr, `calls
    {
      first <= |file| && (ioErr != IoReadErr ==> fileOffset == Reached(reading, first, |file|, calls))
    }

    /** What is left in the buffer is what follows the current offset in the file. */
    ghost predicate Valid()
      reads this
    {
      && pos <= |data| && offset <= fileOffset <= |file|
      && data[pos..] == file[offset..fileOffset]
      && ioErr == IoOk && Tracked()
    }

    /** While a message is being cut, the buffer begins with it. */
    ghost predicate Buffering()
      reads this
    {
      pos <= |data| && offset <= fileOffset <= |file| && data == file[offset..fileOffset] && Tracked()
    }

    /** The scan fails where it stands, and no read is called for: it fails there for ever. */
    ghost predicate Hanging()
      reads this
    {
      Buffering() && pos + 1 < |data| && CanParse(data, pos) == (false, pos) && data[0] != NUL
    }

    /** What the search for the headers' end comes to from `at` on. */
    ghost function From(at: nat): HeadersEnd
      requires offset <= fileOffset <= |file| && at <= fileOffset - offset
      reads this
    {
      HeadersBy(file, offset, at, calls, fileOffset, reading)
    }

    /** Where the first read behind the range ends, or has ended. */
    ghost function Ahead(): nat
      requires fileOffset <= |file|
      reads `endOffset, `fileOffset, `calls
    {
      Past(reading, calls, fileOffset, endOffset, |file|)
    }

    /** The system failed the last read. */
    ghost predicate LastFailed()
      reads `calls
    {
      calls > 0 && reading(calls - 1) < 0
    }

    /** One read to the end of the buffer; how much arrives is up to the system. */
    method Read() returns (rbytes: int)
      requires Buffering() && ioErr == IoOk
      modifies `data, `fileOffset, `ioErr, `calls
      ensures Buffering() && fileOffset >= old(fileOffset) && Extends(old(data), data)
      ensures ioErr == IoReadErr <==> reading(old(calls)) < 0
      ensures calls == old(calls) + 1
      ensures ioErr != IoReadErr ==>
        rbytes == Delivered(reading(old(calls)), READ_SIZE, |file| - old(fileOffset))
      ensures ioErr != IoReadErr && old(fileOffset) <= endOffset ==> Ahead() == old(Ahead())
      ensures ioErr == IoOk <==> rbytes > 0
      ensures ioErr == IoEof <==> rbytes == 0
      ensures rbytes > 0 ==> fileOffset == old(fileOffset) + rbytes
      ensures rbytes <= 0 ==> data == old(data) && fileOffset == old(fileOffset)
      ensures rbytes == 0 ==> fileOffset == |file|
    {
      var answer := reading(calls);
      ReachedStep(reading, first, |file|, calls, fileOffset);
      calls := calls + 1;
      if answer < 0 {
        rbytes, ioErr := -1, IoReadErr;
        return;
      }
      rbytes := Delivered(answer, READ_SIZE, |file| - fileOffset);
      if rbytes == 0 {
        ioErr := IoEof;
        return;
      }
      Append(rbytes);
    }

    /** The next bytes of the file, at the end of the buffer. */
    method Append(rbytes: nat)
      requires offset <= fileOffset && fileOffset + rbytes <= |file| && data == file[offset..fileOffset] && pos <= |data|
      modifies `data, `fileOffset
      ensures fileOffset == old(fileOffset) + rbytes && data == file[offset..fileOffset] && pos <= |data|
      ensures Extends(old(data), data)
    {
      ReadJoins(file, offset, fileOffset, rbytes);
      data := data + file[fileOffset..fileOffset + rbytes];
      fileOffset := fileOffset + rbytes;
    }

    method CanParseHeaders() returns (found: bool)
      requires pos <= |data|
      modifies `pos
      ensures (found, pos) == CanParse(data, old(pos)) && pos <= |data|
    {
      while pos < |data|
        invariant pos <= |data| && CanParse(data, pos) == CanParse(data, old(pos))
      {
        while ByteAt(data, pos) != LF && ByteAt(data, pos) != NUL
          invariant pos <= |data| && CanParse(data, pos) == CanParse(data, old(pos))
          decreases |data| - pos
        {
          pos := pos + 1;
        }
        if ByteAt(data, pos) == NUL || ByteAt(data, pos + 1) == NUL {
          return false;
        }
        if data[pos] == LF && data[pos + 1] == LF {
          pos := pos + 2;
          return true;
        } else if data[pos] == LF && data[pos + 1] == CR && ByteAt(data, pos + 2) == LF {
          pos := pos + 3;
          return true;
        }
        pos := pos + 1;
      }
      found := false;
    }

    /** What the loop below knows between two scans, if it is to come to `ends`. */
    ghost predicate Scanned(found: bool, ends: HeadersEnd)
      reads this
    {
      Buffering() &&
      if found then BlankLineAt(data, 0, pos) && ends == EndsAt(offset + pos)
      else CanParse(data, pos) == (false, pos) && ends == From(pos)
    }

    /** A scan from where the last one stopped, or from the start. */
    method Scan(ghost ends: HeadersEnd) returns (found: bool)
      requires Buffering() && ends == From(pos)
      modifies `pos
      ensures Scanned(found, ends)
    {
      ghost var from := pos;
      found := CanParseHeaders();
      CanParseStops(data, from);
      if !found {
        CanParseRepeats(data, from);
        ByRepeats(file, offset, from, calls, fileOffset, reading, data);
      }
    }

    /** A read for the headers does not change what the search is to come to. */
    method ReadMore(ghost ends: HeadersEnd) returns (rbytes: int)
      requires Scanned(false, ends) && ioErr == IoOk && (ByteAt(data, 0) == NUL || pos + 1 >= |data|)
      modifies `data, `fileOffset, `ioErr, `calls
      ensures Buffering() && (ioErr == IoOk <==> rbytes > 0)
      ensures ioErr == IoOk ==> ends == From(pos) && fileOffset > old(fileOffset)
      ensures ioErr == IoEof ==> ends == NoEnd && fileOffset == |file|
      ensures ioErr == IoReadErr ==> LastFailed()
      ensures ioErr != IoReadErr && ends.EndsAt? && ends.h <= endOffset ==> Ahead() == old(Ahead())
    {
      ghost var k := calls + 1;
      ghost var f := fileOffset + Delivered(reading(calls), READ_SIZE, |file| - fileOffset);
      ByRead(file, offset, pos, calls, fileOffset, reading, data, k, f);
      ByBehind(file, offset, pos, calls, fileOffset, reading);
      rbytes := Read();
      if ioErr == IoOk {
        assert calls == k && fileOffset == f;
        assert ends == From(pos);
      }
    }

    /** After a scan that failed: one more read, or the end of the search. */
    method ReadHeaders(ghost ends: HeadersEnd) returns (r: Option<Seek>)
      requires Scanned(false, ends) && ioErr == IoOk
      modifies `data, `fileOffset, `ioErr, `calls
      ensures Buffering() && (r.None? ==> ends == From(pos) && fileOffset > old(fileOffset))
      ensures r == None || r == Some(Failed) || r == Some(Stuck)
      ensures r == Some(Failed) <==> ioErr != IoOk
      ensures r == Some(Stuck) ==> Hanging() && NUL in file
      ensures ioErr != IoReadErr && r.Some? ==> ends == if r.value.Failed? then NoEnd else NeverEnds
      ensures ioErr == IoEof ==> fileOffset == |file|
      ensures ioErr == IoReadErr ==> LastFailed()
      ensures ioErr != IoReadErr && ends.EndsAt? && ends.h <= endOffset ==> Ahead() == old(Ahead())
    {
      if ByteAt(data, 0) == NUL || pos + 1 >= |data| {
        var rbytes := ReadMore(ends);
        return if rbytes == 0 || ioErr != IoOk then Some(Failed) else None;
      }
      ByHangs(file, offset, pos, calls, fileOffset, reading, data);
      HangsAtNul(data, pos);
      return Some(Stuck);
    }

    /**
     Scans to the end of the headers, reading more of the file as it goes. Where a failed scan
     calls for no read, the next scan fails in the same place, and so on for ever: Stuck.
     */
    method SeekHeaders() returns (r: Seek)
      requires Buffering() && pos == 0 && ioErr == IoOk
      modifies `data, `pos, `fileOffset, `ioErr, `calls
      ensures Buffering()
      ensures r.Failed? <==> ioErr != IoOk
      ensures r.Found? ==> BlankLineAt(file, offset, offset + pos)
      ensures r.Stuck? ==> Hanging() && NUL in file
      ensures ioErr != IoReadErr ==> CameTo(r) == old(From(0))
      ensures ioErr != IoReadErr ==>
        (CameTo(r) == HeadersOf(file, offset) <==> !old(Splits(file, offset, calls, fileOffset, reading)))
      ensures ioErr == IoEof ==> fileOffset == |file|
      ensures ioErr == IoReadErr ==> LastFailed()
      ensures var ends := old(From(0));
        ioErr != IoReadErr && ends.EndsAt? && ends.h <= endOffset ==> Ahead() == old(Ahead())
    {
      ghost var ends := From(0);
      ghost var split := Splits(file, offset, calls, fileOffset, reading);
      assert ends == HeadersOf(file, offset) <==> !split by {
        ByIff(file, offset, 0, calls, fileOffset, reading);
      }
      var found := Scan(ends);
      while !found
        invariant Scanned(found, ends) && ioErr == IoOk
        invariant ends.EndsAt? && ends.h <= endOffset ==> Ahead() == old(Ahead())
        decreases |file| - fileOffset, !found
      {
        var end := ReadHeaders(ends);
        if end.Some? {
          return end.value;
        }
        found := Scan(ends);
      }
      BlankInBuffer(file, offset, fileOffset, pos);
      return Found;
    }

    /** The outcome of the search, as a place in the file. */
    ghost function CameTo(r: Seek): HeadersEnd
      reads this
    {
      match r
      case Found => EndsAt(offset + pos)
      case Failed => NoEnd
      case Stuck => NeverEnds
    }

    /** Advances to the next line feed in the buffer, or to the end of the buffer. */
    method SkipToLineFeed(ghost from: nat)
      requires from <= pos <= |data| && ScanLines(data, from) == ScanLines(data, pos)
      modifies `pos
      ensures old(pos) <= pos <= |data|
      ensures ScanLines(data, from) ==
        if FromAt(data, pos) then Seen(pos) else if pos + 10 >= |data| then Short(pos) else ScanLines(data, pos + 1)
    {
      ScanStops(data, pos);
      while pos < |data| && data[pos] != LF
        invariant pos <= |data| && Find(data, pos, LF) == Find(data, old(pos), LF)
      {
        pos := pos + 1;
      }
    }

    /** A read at the end of a scan that came up short: the same place is looked at once more. */
    method ReadOn(ghost from: nat) returns (rbytes: int)
      requires Buffering() && ioErr == IoOk && from <= pos && ScanLines(data, from) == Short(pos) && fileOffset <= endOffset
      modifies `data, `fileOffset, `ioErr, `calls
      ensures Buffering() && fileOffset >= old(fileOffset) && from <= |data|
      ensures (ioErr == IoOk <==> rbytes > 0) && (ioErr == IoEof <==> rbytes == 0)
      ensures rbytes > 0 ==> fileOffset > old(fileOffset) && ScanLines(data, from) == ScanLines(data, pos)
      ensures rbytes <= 0 ==> data == old(data) && fileOffset == old(fileOffset)
      ensures rbytes == 0 ==> fileOffset == |file|
      ensures ioErr == IoReadErr ==> LastFailed()
      ensures ioErr != IoReadErr ==> Ahead() == old(Ahead())
    {
      ghost var before := data;
      rbytes := Read();
      ScanMore(before, data, from);
    }

    /** Close to the end of the buffer: gives up behind the range, or reads and looks at the place once more. */
    method GiveUpOrRead(ghost from: nat) returns (code: Option<int>)
      requires Buffering() && ioErr == IoOk && from <= pos && ScanLines(data, from) == Short(pos)
      modifies `data, `fileOffset, `ioErr, `calls
      ensures Buffering() && from <= |data|
      ensures code.None? ==>
        ioErr == IoOk && ScanLines(data, from) == ScanLines(data, pos) && fileOffset > old(fileOffset)
      ensures code.Some? ==> Comes(ScanLines(data, from), pos, code.value, ioErr, fileOffset, endOffset, |file|)
      ensures ioErr == IoReadErr ==> LastFailed()
      ensures ioErr != IoReadErr ==> Ahead() == old(Ahead())
    {
      if fileOffset > endOffset {
        return Some(0);
      }
      var rbytes := ReadOn(from);
      if rbytes == 0 && ioErr == IoEof {
        return Some(1);
      } else if ioErr != IoOk {
        return Some(-1);
      }
      // step back and forward again: the same position is looked at once more
      code := None;
    }

    /** One turn of the loop below; no code yet, or how the search from `from` comes out. */
    method SeekLine(ghost from: nat) returns (code: Option<int>)
      requires Buffering() && ioErr == IoOk && from <= pos && ScanLines(data, from) == ScanLines(data, pos)
      modifies `data, `pos, `fileOffset, `ioErr, `calls
      ensures Buffering() && from <= pos && from <= |data|
      ensures code.None? ==> ioErr == IoOk && ScanLines(data, from) == ScanLines(data, pos)
      ensures code.None? ==>
        fileOffset > old(fileOffset) || (fileOffset == old(fileOffset) && |data| - pos < |data| - old(pos))
      ensures code.Some? ==> Comes(ScanLines(data, from), pos, code.value, ioErr, fileOffset, endOffset, |file|)
      ensures ioErr == IoReadErr ==> LastFailed()
      ensures ioErr != IoReadErr ==> Ahead() == old(Ahead())
    {
      SkipToLineFeed(from);
      if FromAt(data, pos) {
        pos := pos + 1;
        return Some(1);
      }
      code := None;
      if pos + 10 >= |data| {
        code := GiveUpOrRead(from);
      } else {
        pos := pos + 1;
      }
    }

    /** Scans to the next "From " line, one line at a time. */
    method SeekNextFromLine() returns (code: int)
      requires Buffering() && ioErr == IoOk
      modifies `data, `pos, `fileOffset, `ioErr, `calls
      ensures Buffering() && old(pos) <= pos && old(pos) <= |data|
      ensures Comes(ScanLines(data, old(pos)), pos, code, ioErr, fileOffset, endOffset, |file|)
      ensures ioErr == IoReadErr ==> LastFailed()
      ensures ioErr != IoReadErr ==> Ahead() == old(Ahead())
    {
      var found := None;
      while found == None
        invariant Buffering() && old(pos) <= pos && old(pos) <= |data|
        invariant found == None ==> ioErr == IoOk && ScanLines(data, old(pos)) == ScanLines(data, pos)
        invariant found != None ==>
          Comes(ScanLines(data, old(pos)), pos, found.value, ioErr, fileOffset, endOffset, |file|)
        invariant (ioErr == IoReadErr ==> LastFailed()) && (ioErr != IoReadErr ==> Ahead() == old(Ahead()))
        decreases found == None, |file| - fileOffset, |data| - pos
      {
        found := SeekLine(old(pos));
      }
      code := found.value;
    }

    /** The bytes up to the place of the scan are a message; the next one starts there. */
    method Advance() returns (m: Message)
      requires Buffering() && pos > 0
      modifies `offset, `done
      ensures offset == old(offset) + pos <= fileOffset
      ensures m == Message(file[old(offset)..old(offset) + pos], old(offset), old(offset) + pos)
      ensures done == (old(done) || offset >= endOffset || ioErr == IoEof)
      ensures data[pos..] == file[offset..fileOffset] && IsSlice(m)
    {
      CutBuffer(file, offset, fileOffset, pos);
      var msgStart := offset;
      offset := offset + pos;
      if offset >= endOffset || ioErr == IoEof {
        done := true;
      }
      m := Message(data[..pos], msgStart, offset);
    }

    /** How the search behind the headers comes out: `next` is the message it makes, if any. */
    method SeekEnd(ghost h: nat) returns (code: int, ghost next: Next)
      requires Buffering() && ioErr == IoOk && h == offset + pos && BlankLineAt(file, offset, h)
      modifies `data, `pos, `fileOffset, `ioErr, `calls
      ensures Buffering() && pos > 0 && !next.NoReturn? && (code == 1 <==> next.Got?)
      ensures next.Got? ==> next.msg == Message(file[offset..offset + pos], offset, offset + pos)
      ensures next.Got? && ioErr != IoEof ==> ioErr == IoOk && CutBy(file, offset, h, offset + pos)
      ensures ioErr == IoReadErr ==> next.Nothing?
      ensures ioErr != IoReadErr ==> AfterHeaders(file, offset, endOffset, next, h, ioErr, fileOffset)
      ensures ioErr == IoReadErr ==> LastFailed()
      ensures ioErr != IoReadErr ==> Ahead() == old(Ahead())
    {
      ghost var from := pos;
      code := SeekNextFromLine();
      next := EndsAs(file, data, offset, endOffset, h, from, fileOffset, pos, code, ioErr);
    }

    /** Behind the headers: the message goes on to the next "From " line, or to the end of the file. */
    method CutMessage(ghost h: nat) returns (r: Next)
      requires Buffering() && ioErr == IoOk && h == offset + pos && BlankLineAt(file, offset, h)
      modifies `data, `pos, `offset, `fileOffset, `ioErr, `done, `calls
      ensures !r.Got? ==> offset == old(offset) && done == old(done)
      ensures r.Got? ==> IsSlice(r.msg) && r.msg.start == old(offset) && r.msg.end == offset
      ensures r.Got? ==> done == (old(done) || offset >= endOffset || ioErr == IoEof)
      ensures r.Got? && ioErr != IoEof ==> Valid() && CutBy(file, old(offset), h, offset)
      ensures ioErr == IoReadErr ==> r.Nothing?
      ensures !r.NoReturn? && offset <= fileOffset <= |file|
      ensures r.Nothing? ==> ioErr != IoOk || fileOffset > endOffset
      ensures ioErr != IoReadErr ==> AfterHeaders(file, old(offset), endOffset, r, h, ioErr, fileOffset)
      ensures ioErr == IoReadErr ==> LastFailed()
      ensures ioErr != IoReadErr ==> Ahead() == old(Ahead())
    {
      var code, next := SeekEnd(h);
      if code != 1 {
        return Nothing;
      }
      var m := Advance();
      r := Got(m);
    }

    /** What has been parsed leaves the buffer. */
    method DropParsed()
      requires Valid()
      modifies `data, `pos
      ensures Buffering() && pos == 0
    {
      data := data[pos..];
      pos := 0;
    }

    lemma UnsplitHeaders()
      requires Valid()
      ensures Unsplit(file, offset, first, reading) ==> From(0) == HeadersOf(file, offset)
    {
      if Unsplit(file, offset, first, reading) {
        UnsplitMeansWhole(file, offset, first, calls, fileOffset, reading);
      }
    }

    /**
     Cuts the next message. As long as no read fails, what comes out depends on the file and on
     its reads alone: nothing if the headers do not end, or if the buffer reaches behind the
     range and is cut short (`h` is where the headers end). If no read splits a blank line, the
     headers end where the whole file says.
     */
    method GetNextMessage() returns (r: Next, ghost h: nat)
      requires Valid()
      modifies `data, `pos, `offset, `fileOffset, `ioErr, `done, `calls
      ensures !r.Got? ==> offset == old(offset) && done == old(done)
      ensures r.Got? ==> IsSlice(r.msg) && r.msg.start == old(offset) && r.msg.end == offset
      ensures r.Got? ==> done == (old(done) || offset >= endOffset || ioErr == IoEof)
      ensures r.Got? && ioErr != IoEof ==> Valid() && CutBy(file, old(offset), h, offset)
      ensures ioErr == IoReadErr ==> r.Nothing?
      ensures r.Nothing? ==> ioErr != IoOk || fileOffset > endOffset
      ensures offset <= fileOffset <= |file|
      ensures r.NoReturn? ==> Hanging() && NUL in file
      ensures (ioErr == IoReadErr ==> LastFailed()) && (NoFault(reading) ==> ioErr != IoReadErr)
      ensures ioErr != IoReadErr ==> Decided(file, old(offset), old(From(0)), endOffset, r, h, ioErr, fileOffset)
      ensures Unsplit(file, old(offset), first, reading) ==> old(From(0)) == HeadersOf(file, old(offset))
      ensures var ends := old(From(0));
        ioErr != IoReadErr && ends.EndsAt? && ends.h <= endOffset ==> Ahead() == old(Ahead())
    {
      UnsplitHeaders();
      DropParsed();
      h := 0;
      var seek := SeekHeaders();
      if seek.Stuck? {
        return NoReturn, h;
      } else if seek.Failed? {
        return Nothing, h;
      }
      h := offset + pos;
      r := CutMessage(h);
    }

    /** A message is a non-empty slice of the file. */
    ghost predicate IsSlice(m: Message) {
      m.start < m.end <= |file| && m.bytes == file[m.start..m.end]
    }
  }
}
