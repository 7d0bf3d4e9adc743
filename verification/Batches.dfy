/**
 Loading by index (src/mbox-index.c): the offsets are cut into batches, each batch is read from
 the mailbox in one piece, and the messages are cut out of that piece.
 */
module Batches {
  import opened Bytes
  import opened IndexFormat

  /** `size_t` arithmetic. */
  function U64(x: int): nat {
    x % 0x1_0000_0000_0000_0000
  }

  // ---------- Cutting into batches ----------

  /** The bytes of a batch, as added up in `size_t`. */
  function Total(b: seq<Entry>): nat {
    if b == [] then 0 else U64(Total(b[..|b| - 1]) + U64(b[|b| - 1].end - b[|b| - 1].start))
  }

  /** Of messages that follow each other it is the number of bytes they cover. */
  lemma {:induction false} TotalCovers(b: seq<Entry>)
    requires b != [] && 0 <= b[0].start && b[|b| - 1].end < 0x1_0000_0000_0000_0000
    requires forall i :: 0 <= i < |b| ==> b[i].start <= b[i].end
    requires forall i, j :: 0 <= i < j < |b| && j == i + 1 ==> b[i].end == b[j].start
    ensures Total(b) == b[|b| - 1].end - b[0].start
    decreases |b|
  {
    var n := |b| - 1;
    if n > 0 {
      assert b[n - 1].end == b[n].start;
      TotalCovers(b[..n]);
    } else {
      assert b[..0] == [];
    }
  }

  /** No prefix reaches the threshold. */
  ghost predicate Open(b: seq<Entry>) {
    forall k :: 0 <= k <= |b| ==> Total(b[..k]) < READ_SIZE
  }

  /** The last entry, and no earlier one, reaches the threshold. */
  ghost predicate Closed(b: seq<Entry>) {
    b != [] && Open(b[..|b| - 1]) && Total(b) >= READ_SIZE
  }

  function Flat(jobs: seq<seq<Entry>>): seq<Entry> {
    if jobs == [] then [] else Flat(jobs[..|jobs| - 1]) + jobs[|jobs| - 1]
  }

  lemma FlatAdd(jobs: seq<seq<Entry>>, b: seq<Entry>)
    ensures Flat(jobs + [b]) == Flat(jobs) + b
  {
    assert (jobs + [b])[..|jobs|] == jobs;
  }

  lemma OpenAdd(b: seq<Entry>, e: Entry)
    requires Open(b)
    ensures if Total(b + [e]) < READ_SIZE then Open(b + [e]) else Closed(b + [e])
  {
    var c := b + [e];
    assert c[..|b|] == b;
    if Total(c) < READ_SIZE {
      forall k | 0 <= k <= |c| ensures Total(c[..k]) < READ_SIZE {
        if k <= |b| {
          assert c[..k] == b[..k];
        } else {
          assert c[..k] == c;
        }
      }
    }
  }

  lemma MoveFirst(done: seq<Entry>, batch: seq<Entry>, rest: seq<Entry>)
    requires rest != []
    ensures var more := batch + [rest[0]];
      && batch + rest == more + rest[1..]
      && done + (batch + rest) == done + more + ([] + rest[1..])
      && Total(more) == U64(Total(batch) + U64(rest[0].end - rest[0].start))
  {
    var more := batch + [rest[0]];
    assert more[..|batch|] == batch;
    assert rest == [rest[0]] + rest[1..];
  }

  /** The jobs handed out, the batch at hand and the entries to come are the list. */
  ghost predicate Loading(entries: seq<Entry>, jobs: seq<seq<Entry>>, batch: seq<Entry>, rest: seq<Entry>) {
    && entries == Flat(jobs) + (batch + rest) && Open(batch)
    && forall j :: 0 <= j < |jobs| ==> Closed(jobs[j])
  }

  lemma LoadOne(entries: seq<Entry>, jobs: seq<seq<Entry>>, batch: seq<Entry>, rest: seq<Entry>)
    requires Loading(entries, jobs, batch, rest) && rest != []
    ensures var b := batch + [rest[0]];
      && Total(b) == U64(Total(batch) + U64(rest[0].end - rest[0].start))
      && if Total(b) < READ_SIZE then Loading(entries, jobs, b, rest[1..])
         else Loading(entries, jobs + [b], [], rest[1..])
  {
    MoveFirst(Flat(jobs), batch, rest);
    OpenAdd(batch, rest[0]);
    FlatAdd(jobs, batch + [rest[0]]);
  }

  lemma LoadLast(entries: seq<Entry>, jobs: seq<seq<Entry>>, batch: seq<Entry>)
    requires Loading(entries, jobs, batch, [])
    ensures batch == [] ==> Flat(jobs) == entries
    ensures Flat(jobs + [batch]) == entries
  {
    FlatAdd(jobs, batch);
    assert batch + [] == batch && Flat(jobs) + [] == Flat(jobs);
  }

  /**
   Hands the entries to the pool in batches. The jobs are non-empty and make up the whole list
   in order; each is closed by the entry that reaches the threshold, but for a last, open one.
   */
  method BatchLoad(entries: seq<Entry>) returns (jobs: seq<seq<Entry>>)
    requires entries != []
    ensures Flat(jobs) == entries
    ensures forall j :: 0 <= j < |jobs| ==> jobs[j] != []
    ensures forall j :: 0 <= j < |jobs| ==> Closed(jobs[j]) || (j == |jobs| - 1 && Open(jobs[j]))
  {
    var indexes, batch := entries, [];
    var batchBytes: nat := 0;
    jobs := [];
    while |indexes| > 0
      invariant Loading(entries, jobs, batch, indexes) && batchBytes == Total(batch)
      decreases |indexes|
    {
      var offsets := indexes[0];
      LoadOne(entries, jobs, batch, indexes);
      indexes := indexes[1..];
      var messageSize := U64(offsets.end - offsets.start);
      batch := batch + [offsets];
      if U64(batchBytes + messageSize) < READ_SIZE {
        batchBytes := U64(batchBytes + messageSize);
      } else {
        jobs := jobs + [batch];
        batchBytes := 0;
        batch := [];
      }
    }
    LoadLast(entries, jobs, batch);
    if |batch| > 0 {
      jobs := jobs + [batch];
    }
  }

  // ---------- Reading a batch ----------

  /** What a read from `start` to `end` brings: the bytes there are. */
  function Piece(file: Bytes, start: nat, end: nat): Bytes
    requires start <= end
  {
    file[Min(start, |file|)..Min(end, |file|)]
  }

  /**
   Every message lies between the first start and the last end, and inside the file; or it is
   empty and stands where the read begins.
   */
  predicate Reachable(file: Bytes, batch: seq<Entry>) {
    && batch != [] && 0 <= batch[0].start <= batch[|batch| - 1].end
    && AllInside(file, batch, |batch|, batch[0].start, batch[|batch| - 1].end)
  }

  predicate AllInside(file: Bytes, batch: seq<Entry>, n: nat, lo: int, hi: int)
    requires n <= |batch|
  {
    forall i :: 0 <= i < n ==> Inside(|file|, batch[i], lo, hi)
  }

  predicate Inside(size: nat, e: Entry, lo: int, hi: int) {
    lo <= e.start <= e.end <= hi && (e.end <= size || e.end == lo)
  }

  /** The file from the start of the entry to its end; an entry outside the file has an empty message. */
  predicate IsMessage(file: Bytes, e: Entry, m: Bytes) {
    && 0 <= e.start <= e.end
    && if e.end <= |file| then m == file[e.start..e.end] else e.start == e.end && m == []
  }

  /** The messages of a batch, in order. */
  predicate LoadsBatch(file: Bytes, batch: seq<Entry>, msgs: seq<Bytes>) {
    |msgs| == |batch| && forall i :: 0 <= i < |batch| ==> IsMessage(file, batch[i], msgs[i])
  }

  /** An entry lies in the piece if it lies inside the range and the file. */
  lemma PieceEnds(file: Bytes, lo: nat, hi: nat, e: Entry)
    requires lo <= hi
    ensures lo <= e.start <= e.end <= lo + |Piece(file, lo, hi)| <==> Inside(|file|, e, lo, hi)
  {
  }

  lemma PieceOfPiece(file: Bytes, piece: Bytes, lo: nat, b: nat, start: nat, end: nat)
    requires lo <= b <= |file| && piece == file[lo..b] && lo <= start <= end <= b
    ensures piece[start - lo..end - lo] == file[start..end]
  {
    forall k | 0 <= k < end - start ensures piece[start - lo..end - lo][k] == file[start..end][k] {
      assert piece[start - lo + k] == file[start + k];
    }
  }

  lemma PieceIs(file: Bytes, lo: nat, hi: nat)
    requires lo <= hi && lo <= |file|
    ensures Piece(file, lo, hi) == file[lo..Min(hi, |file|)]
  {
  }

  /** One message of the piece that was read from `diff` on. */
  method CutOut(ghost file: Bytes, buf: Bytes, diff: nat, ghost last: nat, offset: Entry) returns (msg: Option<Bytes>)
    requires diff <= last && buf == Piece(file, diff, last)
    ensures msg.Some? <==> Inside(|file|, offset, diff, last)
    ensures msg.Some? ==> IsMessage(file, offset, msg.value)
  {
    var from, len := offset.start - diff, offset.end - offset.start;
    PieceEnds(file, diff, last, offset);
    if from < 0 || len < 0 || from + len > |buf| {
      return None;
    }
    if offset.end <= |file| {
      PieceIs(file, diff, last);
      PieceOfPiece(file, buf, diff, Min(last, |file|), offset.start, offset.end);
    }
    msg := Some(buf[from..from + len]);
  }

  /** Cuts the messages of a batch out of one read; fails where C would leave the buffer. */
  method GetMessages(file: Bytes, batch: seq<Entry>) returns (r: Option<seq<Bytes>>)
    requires batch != []
    ensures r.Some? <==> Reachable(file, batch)
    ensures r.Some? ==> LoadsBatch(file, batch, r.value)
  {
    var diff, last := batch[0].start, batch[|batch| - 1].end;
    var size := last - diff;
    if diff < 0 || size < 0 {
      return None;
    }
    var buf := Piece(file, diff, diff + size);
    var msgs: seq<Bytes> := [];
    var n := 0;
    while n < |batch|
      invariant 0 <= n <= |batch| && |msgs| == n
      invariant forall i :: 0 <= i < n ==> IsMessage(file, batch[i], msgs[i])
      invariant AllInside(file, batch, n, diff, last)
    {
      var msg := CutOut(file, buf, diff, last, batch[n]);
      if msg == None {
        return None;
      }
      msgs := msgs + [msg.value];
      n := n + 1;
    }
    return Some(msgs);
  }

  // ---------- Well-formed indexes ----------

  /** Sorted starts, nondecreasing ends, all inside the mailbox. */
  ghost predicate WellOrdered(es: seq<Entry>, size: nat) {
    && (forall i :: 0 <= i < |es| ==> 0 <= es[i].start <= es[i].end <= size)
    && forall i, j :: 0 <= i < j < |es| ==> es[i].start <= es[j].start && es[i].end <= es[j].end
  }

  lemma {:induction false} JobIsSlice(jobs: seq<seq<Entry>>, j: nat) returns (lo: nat)
    requires j < |jobs|
    ensures lo + |jobs[j]| <= |Flat(jobs)| && Flat(jobs)[lo..lo + |jobs[j]|] == jobs[j]
    decreases |jobs|
  {
    var n := |jobs| - 1;
    if j == n {
      lo := |Flat(jobs[..n])|;
    } else {
      lo := JobIsSlice(jobs[..n], j);
      var s, rest := Flat(jobs[..n]), jobs[n];
      assert (s + rest)[lo..lo + |jobs[j]|] == s[lo..lo + |jobs[j]|];
    }
  }

  lemma OrderedReachable(file: Bytes, batch: seq<Entry>)
    requires WellOrdered(batch, |file|) && batch != []
    ensures Reachable(file, batch)
  {
    var last := |batch| - 1;
    forall i | 0 <= i < |batch| ensures batch[0].start <= batch[i].start <= batch[i].end <= batch[last].end {
      assert i == 0 || batch[0].start <= batch[i].start;
      assert i == last || batch[i].end <= batch[last].end;
    }
  }

  /** In a well-ordered index every message of every batch is cut out right, and whole. */
  lemma AllReachable(file: Bytes, entries: seq<Entry>, jobs: seq<seq<Entry>>, j: nat)
    requires WellOrdered(entries, |file|) && Flat(jobs) == entries && j < |jobs| && jobs[j] != []
    ensures Reachable(file, jobs[j])
    ensures forall i :: 0 <= i < |jobs[j]| ==> 0 <= jobs[j][i].start <= jobs[j][i].end <= |file|
  {
    var lo := JobIsSlice(jobs, j);
    var b := jobs[j];
    assert forall i :: 0 <= i < |b| ==> b[i] == entries[lo + i];
    OrderedReachable(file, b);
  }

  // ---------- All batches together ----------

  /** What the jobs load, one batch behind the other. */
  ghost predicate Loads(file: Bytes, jobs: seq<seq<Entry>>, msgs: seq<seq<Bytes>>) {
    |msgs| == |jobs| && forall j :: 0 <= j < |jobs| ==> LoadsBatch(file, jobs[j], msgs[j])
  }

  function Joined(msgs: seq<seq<Bytes>>): seq<Bytes> {
    if msgs == [] then [] else Joined(msgs[..|msgs| - 1]) + msgs[|msgs| - 1]
  }

  /** However the index is cut into batches, together they load the message of every entry, in order. */
  lemma {:induction false} BatchesLoadAll(file: Bytes, jobs: seq<seq<Entry>>, msgs: seq<seq<Bytes>>)
    requires Loads(file, jobs, msgs)
    ensures LoadsBatch(file, Flat(jobs), Joined(msgs))
    decreases |jobs|
  {
    if jobs != [] {
      var n := |jobs| - 1;
      BatchesLoadAll(file, jobs[..n], msgs[..n]);
      assert LoadsBatch(file, jobs[n], msgs[n]);
      JoinLoads(file, Flat(jobs[..n]), Joined(msgs[..n]), jobs[n], msgs[n]);
    }
  }

  lemma JoinLoads(file: Bytes, a: seq<Entry>, p: seq<Bytes>, b: seq<Entry>, q: seq<Bytes>)
    requires LoadsBatch(file, a, p) && LoadsBatch(file, b, q)
    ensures LoadsBatch(file, a + b, p + q)
  {
  }

  /** A message that contains the next one lies outside what is read for the two. */
  lemma NestedUnreachable(file: Bytes)
    requires |file| >= 100
    ensures !Reachable(file, [Entry(0, 100), Entry(10, 20)])
  {
    var batch := [Entry(0, 100), Entry(10, 20)];
    assert batch[0].end > batch[|batch| - 1].end;
  }
}
