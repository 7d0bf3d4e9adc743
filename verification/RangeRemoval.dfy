/** Cutting a range out of a file in place (delete-from-file/main.c). */
module RangeRemoval {
  import opened Bytes
  import opened Syscalls

  function Removed(file: Bytes, start: nat, end: nat): Bytes
    requires start <= end <= |file|
  {
    file[..start] + file[end..]
  }

  /** Removing what was inserted gives back the file. */
  lemma RemoveUndoesInsert(a: Bytes, b: Bytes, c: Bytes)
    ensures Removed(a + b + c, |a|, |a| + |b|) == a + c
  {
    assert (a + b + c)[..|a|] == a && (a + b + c)[|a| + |b|..] == c;
  }

  /**
   Midway: the bytes from `end0` to `end` have moved down to `start0`; what is in front of
   `start0`, and what is still to be read, is untouched.
   */
  ghost predicate Moved(before: Bytes, now: Bytes, start0: nat, end0: nat, end: nat) {
    && start0 <= end0 <= end <= |before| == |now|
    && forall k: nat :: k < |now| ==> InPlace(before, now, start0, end0, end, k)
  }

  predicate InPlace(before: Bytes, now: Bytes, start0: nat, end0: nat, end: nat, k: nat)
    requires start0 <= end0 <= end <= |before| == |now| && k < |now|
  {
    if k < start0 then now[k] == before[k]
    else if k < start0 + (end - end0) then now[k] == before[k + (end0 - start0)]
    else end <= k ==> now[k] == before[k]
  }

  /** The `n` bytes at `from` copied to `at`, all of them read before the first is written. */
  function Copied(file: Bytes, from: nat, n: nat, at: nat): (r: Bytes)
    requires from + n <= |file| && at + n <= |file|
    ensures |r| == |file|
  {
    if n == 0 then file else Copied(file, from, n - 1, at)[at + n - 1 := file[from + n - 1]]
  }

  lemma {:induction false} CopiedAt(file: Bytes, from: nat, n: nat, at: nat, k: nat)
    requires from + n <= |file| && at + n <= |file| && k < |file|
    ensures Copied(file, from, n, at)[k] == file[if at <= k < at + n then k - at + from else k]
    decreases n
  {
    if n > 0 {
      CopiedAt(file, from, n - 1, at, k);
    }
  }

  /** A full write of the next `n` bytes. It may overlap their own place, but nothing behind it. */
  lemma MoveChunk(before: Bytes, now: Bytes, start0: nat, end0: nat, end: nat, n: nat)
    requires Moved(before, now, start0, end0, end) && end + n <= |now|
    ensures Moved(before, Copied(now, end, n, start0 + (end - end0)), start0, end0, end + n)
  {
    var at, end' := start0 + (end - end0), end + n;
    var now' := Copied(now, end, n, at);
    forall k: nat | k < |now| ensures InPlace(before, now', start0, end0, end', k) {
      assert InPlace(before, now, start0, end0, end, k);
      CopiedAt(now, end, n, at, k);
      if at <= k < at + n {
        assert InPlace(before, now, start0, end0, end, k - at + end);
      }
    }
  }

  lemma MovedAll(before: Bytes, now: Bytes, start0: nat, end0: nat)
    requires Moved(before, now, start0, end0, |before|)
    ensures now[..|before| - (end0 - start0)] == Removed(before, start0, end0)
  {
    forall k | 0 <= k < |before| - (end0 - start0) ensures now[k] == Removed(before, start0, end0)[k] {
      assert InPlace(before, now, start0, end0, |before|, k);
    }
  }

  lemma MovedNone(file: Bytes, start: nat, end: nat)
    requires start <= end <= |file|
    ensures Moved(file, file, start, end, end)
  {
    forall k: nat | k < |file| ensures InPlace(file, file, start, end, end, k) {
    }
  }

  /** The system under the file: the answers to its reads and to its writes. */
  datatype Disk = Disk(read: Answers, write: Answers)

  /** No read fails and every write is full, of as many calls as it takes to move `left` bytes. */
  predicate AllFull(disk: Disk, k: nat, left: nat, bufsiz: nat)
    requires bufsiz > 0
    decreases left
  {
    left == 0 ||
    var n := Delivered(disk.read(k), bufsiz, left);
    disk.read(k) >= 0 && disk.write(k) >= n && AllFull(disk, k + 1, left - n, bufsiz)
  }

  /** What the k-th write of `n` bytes returns, at `at`; a negative place makes it fail. */
  function Written(disk: Disk, k: nat, n: nat, at: int): (wbytes: int)
    ensures wbytes <= n && (at < 0 ==> wbytes < 0)
  {
    if at < 0 then -1 else Wrote(disk.write(k), n)
  }

  /** What the chunks moved from round `k` on make of the file, whatever the system answers. */
  function Moves(disk: Disk, k: nat, file: Bytes, start: int, end: nat, bufsiz: nat): (r: Bytes)
    requires start <= end <= |file| && bufsiz > 0
    ensures |r| == |file|
    decreases |file| - end
  {
    if disk.read(k) < 0 || end == |file| then file else
      var n := Delivered(disk.read(k), bufsiz, |file| - end);
      var wbytes := Written(disk, k, n, start);
      Moves(disk, k + 1, if wbytes > 0 then Copied(file, end, wbytes, start) else file, start + wbytes, end + n, bufsiz)
  }

  /** With full writes the file without the range comes first, whatever the sizes of the chunks. */
  lemma {:induction false} FullMoves(disk: Disk, k: nat, before: Bytes, now: Bytes, start0: nat, end0: nat,
                                     at: nat, end: nat, bufsiz: nat)
    requires bufsiz > 0 && Moved(before, now, start0, end0, end) && at == start0 + (end - end0)
    requires AllFull(disk, k, |now| - end, bufsiz)
    ensures Moved(before, Moves(disk, k, now, at, end, bufsiz), start0, end0, |before|)
    decreases |now| - end
  {
    if end < |now| {
      var n := Delivered(disk.read(k), bufsiz, |now| - end);
      MoveChunk(before, now, start0, end0, end, n);
      FullMoves(disk, k + 1, before, Copied(now, end, n, at), start0, end0, at + n, end + n, bufsiz);
    }
  }

  /** One short write, and the bytes it left out are lost: of "abcd" without its first byte "bdc" is left. */
  lemma ShortWriteLoses()
    ensures var disk := Disk(k => 2, k => if k == 0 then 1 else 2);
      Moves(disk, 0, [97, 98, 99, 100], 0, 1, 2)[..3] == [98, 100, 99] != Removed([97, 98, 99, 100], 0, 1)
  {
    var disk, file: Bytes, next: Bytes := Disk(k => 2, k => if k == 0 then 1 else 2), [97, 98, 99, 100], [98, 98, 99, 100];
    assert Copied(file, 1, 1, 0) == next && Copied(next, 3, 1, 1) == [98, 100, 99, 100];
    assert Moves(disk, 1, next, 1, 3, 2) == [98, 100, 99, 100];
    assert Removed(file, 0, 1)[1] == 99;
  }

  lemma WrittenIsCopied(before: Bytes, now: Bytes, chunk: Bytes, at: nat, from: nat, n: nat)
    requires n <= |chunk| && from + |chunk| <= |before| && at + n <= |before| && chunk == before[from..from + |chunk|]
    requires now == before[..at] + chunk[..n] + before[at + n..]
    ensures now == Copied(before, from, n, at)
  {
    forall k: nat | k < |before| ensures now[k] == Copied(before, from, n, at)[k] {
      CopiedAt(before, from, n, at, k);
    }
  }

  class File {
    const disk: Disk
    var contents: Bytes
    var calls: nat        // rounds of a read and a write so far

    constructor (disk: Disk, contents: Bytes)
      ensures this.disk == disk && this.contents == contents && calls == 0
    {
      this.disk, this.contents, calls := disk, contents, 0;
    }

    /** Nothing if the read fails, or at the end of the file. */
    method Pread(size: nat, at: nat) returns (chunk: Bytes)
      requires size > 0 && at <= |contents|
      ensures |chunk| == if disk.read(calls) < 0 then 0 else Delivered(disk.read(calls), size, |contents| - at)
      ensures at + |chunk| <= |contents| && chunk == contents[at..at + |chunk|]
    {
      var answer := disk.read(calls);
      if answer < 0 {
        return [];
      }
      chunk := contents[at..at + Delivered(answer, size, |contents| - at)];
    }

    /** Writes over what is at `at`, as much of the chunk as the system takes. */
    method Pwrite(chunk: Bytes, at: int) returns (wbytes: int)
      requires at + |chunk| <= |contents|
      modifies this
      ensures wbytes == Written(disk, old(calls), |chunk|, at) && calls == old(calls) + 1
      ensures contents == if wbytes <= 0 then old(contents) else
        old(contents)[..at] + chunk[..wbytes] + old(contents)[at + wbytes..]
    {
      wbytes := if at < 0 then -1 else Wrote(disk.write(calls), |chunk|);
      if wbytes > 0 {
        contents := contents[..at] + chunk[..wbytes] + contents[at + wbytes..];
      }
      calls := calls + 1;
    }

    /** One round of the loop below; nothing is moved when a read fails or the file has ended. */
    method MoveRound(start: int, end: nat, bufsiz: nat) returns (n: nat, wbytes: int)
      requires start <= end <= |contents| && bufsiz > 0
      modifies this
      ensures n == if disk.read(old(calls)) < 0 then 0 else Delivered(disk.read(old(calls)), bufsiz, old(|contents|) - end)
      ensures n == 0 ==> contents == old(contents)
      ensures n > 0 ==> wbytes == Written(disk, old(calls), n, start) && calls == old(calls) + 1
      ensures n > 0 ==>
        contents == if wbytes > 0 then Copied(old(contents), end, wbytes, start) else old(contents)
    {
      var buf := Pread(bufsiz, end);
      n, wbytes := |buf|, 0;
      if n > 0 {
        ghost var before := contents;
        wbytes := Pwrite(buf, start);
        if wbytes > 0 {
          WrittenIsCopied(before, contents, buf, start, end, wbytes);
        }
      }
    }

    /**
     Moves the bytes behind the range to its start, chunk by chunk, and cuts off the rest.
     If no read fails and every write is full, what is left is the file without the range.
     */
    method RemoveFrom(startOffset: nat, endOffset: nat, bufsiz: nat)
      requires startOffset <= endOffset <= |contents| && bufsiz > 0
      modifies this
      ensures |contents| == old(|contents|) - (endOffset - startOffset)
      ensures contents == Moves(disk, old(calls), old(contents), startOffset, endOffset, bufsiz)[..|contents|]
      ensures AllFull(disk, old(calls), old(|contents|) - endOffset, bufsiz) ==>
        contents == Removed(old(contents), startOffset, endOffset)
    {
      ghost var before := contents;
      var newSize := |contents| - (endOffset - startOffset);
      var start: int, end := startOffset, endOffset;
      while true
        invariant start <= end <= |contents| == |before|
        invariant Moves(disk, calls, contents, start, end, bufsiz)
               == Moves(disk, old(calls), before, startOffset, endOffset, bufsiz)
        decreases |contents| - end
      {
        var rbytes, wbytes := MoveRound(start, end, bufsiz);
        if rbytes == 0 {
          break;
        }
        end := end + rbytes;
        start := start + wbytes;
      }
      if AllFull(disk, old(calls), |before| - endOffset, bufsiz) {
        MovedNone(before, startOffset, endOffset);
        FullMoves(disk, old(calls), before, before, startOffset, endOffset, startOffset, endOffset, bufsiz);
        MovedAll(before, contents, startOffset, endOffset);
      }
      contents := contents[..newSize];
    }
  }
}
