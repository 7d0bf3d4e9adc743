/**
 Saving, loading and batching the index (src/mbox-index.c), and cutting messages out of one
 large read of the mailbox.
 */
module Index {
  import opened Bytes
  import opened IndexFormat
  import opened RingList
  import opened RingSort
  import opened Syscalls

  // ---------- What saving comes to ----------

  /** The system under the index file: whether it opens, and the answers to its writes and syncs. */
  datatype Disk = Disk(opens: bool, write: Answers, sync: Answers)

  /** The file, what is buffered for it, how many writes were tried, and whether one failed. */
  datatype Saving = Saving(file: Bytes, buf: Bytes, calls: nat, failed: bool)

  /** Writes the buffer out: an error if the write or the sync behind it fails, or nothing is written. */
  function WriteOut(disk: Disk, s: Saving): Saving {
    var wbytes := Wrote(disk.write(s.calls), |s.buf|);
    if wbytes <= 0 then s.(calls := s.calls + 1, failed := true)
    else
      var file := s.file + s.buf[..wbytes];
      if disk.sync(s.calls) < 0 then Saving(file, s.buf, s.calls + 1, true)
      else Saving(file, [], s.calls + 1, s.failed)
  }

  /** One more line; the buffer is flushed whenever it fills a multiple of `bufsiz`. */
  function AddLine(disk: Disk, s: Saving, e: Entry, bufsiz: nat): Saving
    requires e.start >= 0 && e.end >= 0 && bufsiz > 0
  {
    var t := s.(buf := s.buf + Line(e));
    if |t.buf| % bufsiz == 0 then WriteOut(disk, t) else t
  }

  /** All lines, and what is left in the buffer at the end, up to a first error. */
  function SaveAll(disk: Disk, s: Saving, es: seq<Entry>, bufsiz: nat): Saving
    requires Printable(es) && bufsiz > 0
    decreases |es|
  {
    if s.failed then s
    else if es == [] then if |s.buf| > 0 then WriteOut(disk, s) else s
    else SaveAll(disk, AddLine(disk, s, es[0], bufsiz), es[1..], bufsiz)
  }

  predicate Printable(es: seq<Entry>) {
    forall e :: e in es ==> e.start >= 0 && e.end >= 0
  }

  /** The sizes of the writes it takes, with `pending` bytes in the buffer already. */
  function Flushes(pending: nat, es: seq<Entry>, bufsiz: nat): seq<nat>
    requires Printable(es) && bufsiz > 0
    decreases |es|
  {
    if es == [] then if pending > 0 then [pending] else []
    else
      var p := pending + |Line(es[0])|;
      if p % bufsiz == 0 then [p] + Flushes(0, es[1..], bufsiz) else Flushes(p, es[1..], bufsiz)
  }

  function SumOf(sizes: seq<nat>): nat {
    if sizes == [] then 0 else sizes[0] + SumOf(sizes[1..])
  }

  /** Together the writes are the buffered bytes and the lines; all but the last fill the buffer. */
  lemma {:induction false} FlushesAll(pending: nat, es: seq<Entry>, bufsiz: nat)
    requires Printable(es) && bufsiz > 0
    ensures var sizes := Flushes(pending, es, bufsiz);
      && SumOf(sizes) == pending + |Lines(es)|
      && forall k :: 0 <= k < |sizes| - 1 ==> sizes[k] % bufsiz == 0
    decreases |es|
  {
    if es != [] {
      var p := pending + |Line(es[0])|;
      FlushesAll(if p % bufsiz == 0 then 0 else p, es[1..], bufsiz);
      if p % bufsiz == 0 {
        var rest := Flushes(0, es[1..], bufsiz);
        assert ([p] + rest)[1..] == rest;
      }
    }
  }

  /** None of the `n` calls from the k-th on fails, or writes nothing. */
  predicate AllDone(disk: Disk, k: nat, n: nat)
    decreases n
  {
    n == 0 || (disk.write(k) > 0 && disk.sync(k) >= 0 && AllDone(disk, k + 1, n - 1))
  }

  /** The system takes each of those writes as a whole. */
  predicate AllWhole(disk: Disk, k: nat, sizes: seq<nat>)
    decreases |sizes|
  {
    sizes == [] || (disk.write(k) >= sizes[0] && AllWhole(disk, k + 1, sizes[1..]))
  }

  lemma WriteOutDone(disk: Disk, s: Saving)
    requires |s.buf| > 0 && !s.failed
    ensures var r := WriteOut(disk, s);
      && (!r.failed <==> disk.write(s.calls) > 0 && disk.sync(s.calls) >= 0) && r.calls == s.calls + 1
      && (!r.failed ==> r.buf == [] && |r.file| <= |s.file| + |s.buf|)
      && (!r.failed && disk.write(s.calls) >= |s.buf| ==> r.file == s.file + s.buf)
      && (!r.failed && disk.write(s.calls) < |s.buf| ==> |r.file| < |s.file| + |s.buf|)
  {
    assert s.buf[..|s.buf|] == s.buf;
  }

  /** Nothing flushed: the line is in the buffer. */
  lemma LineBuffered(s: Saving, es: seq<Entry>, text: Bytes)
    requires Printable(es) && es != [] && text == s.file + s.buf + Lines(es)
    ensures text == s.file + (s.buf + Line(es[0])) + Lines(es[1..]) && |Lines(es)| == |Line(es[0])| + |Lines(es[1..])|
  {
    Reassociate(s.file, s.buf, Line(es[0]), Lines(es[1..]));
  }

  lemma Reassociate(a: Bytes, b: Bytes, c: Bytes, d: Bytes)
    ensures a + b + (c + d) == a + (b + c) + d
  {
  }

  /**
   For every disk: saving reports an error exactly when a call it makes fails or writes
   nothing; if none does, the file holds exactly the lines if every write is whole, and is too
   short for them if one is not.
   */
  lemma {:induction false} SaveComesTo(disk: Disk, s: Saving, es: seq<Entry>, bufsiz: nat, text: Bytes)
    requires Printable(es) && bufsiz > 0 && !s.failed && text == s.file + s.buf + Lines(es)
    ensures var (r, sizes) := (SaveAll(disk, s, es, bufsiz), Flushes(|s.buf|, es, bufsiz));
      && (!r.failed <==> AllDone(disk, s.calls, |sizes|))
      && (!r.failed ==> r.buf == [])
      && (!r.failed && AllWhole(disk, s.calls, sizes) ==> r.file == text)
      && (!r.failed && !AllWhole(disk, s.calls, sizes) ==> |r.file| < |text|)
    decreases |es|
  {
    if es == [] {
      if |s.buf| > 0 {
        WriteOutDone(disk, s);
        LastFlush(disk, s.calls, |s.buf|);
      }
      assert text == s.file + s.buf;
    } else {
      LineBuffered(s, es, text);
      var t := s.(buf := s.buf + Line(es[0]));
      if |t.buf| % bufsiz == 0 {
        SaveFlushed(disk, s, t, es, bufsiz, text);
      } else {
        SaveComesTo(disk, t, es[1..], bufsiz, text);
      }
    }
  }

  lemma {:induction false} LastFlush(disk: Disk, k: nat, n: nat)
    ensures AllDone(disk, k, |[n]|) <==> disk.write(k) > 0 && disk.sync(k) >= 0
    ensures AllWhole(disk, k, [n]) <==> disk.write(k) >= n
  {
    assert AllDone(disk, k + 1, 0) && AllWhole(disk, k + 1, [n][1..]);
  }

  lemma {:induction false} SaveFlushed(disk: Disk, s: Saving, t: Saving, es: seq<Entry>, bufsiz: nat, text: Bytes)
    requires Printable(es) && es != [] && bufsiz > 0 && !s.failed && t == s.(buf := s.buf + Line(es[0]))
    requires |t.buf| % bufsiz == 0 && text == t.file + t.buf + Lines(es[1..])
    ensures var (r, sizes) := (SaveAll(disk, s, es, bufsiz), Flushes(|s.buf|, es, bufsiz));
      && (!r.failed <==> AllDone(disk, s.calls, |sizes|))
      && (!r.failed ==> r.buf == [])
      && (!r.failed && AllWhole(disk, s.calls, sizes) ==> r.file == text)
      && (!r.failed && !AllWhole(disk, s.calls, sizes) ==> |r.file| < |text|)
    decreases |es|, 0
  {
    var u, rest := WriteOut(disk, t), Flushes(0, es[1..], bufsiz);
    WriteOutDone(disk, t);
    assert SaveAll(disk, s, es, bufsiz) == SaveAll(disk, u, es[1..], bufsiz);
    assert ([|t.buf|] + rest)[1..] == rest;
    if !u.failed {
      SaveComesTo(disk, u, es[1..], bufsiz, u.file + u.buf + Lines(es[1..]));
      if u.file == t.file + t.buf {
        assert u.file + u.buf + Lines(es[1..]) == text;
      }
    }
  }

  // ---------- Saving ----------

  function CompareByStart(a: Entry, b: Entry): int {
    if a.start < b.start then -1 else if a.start == b.start then 0 else 1
  }

  /** An open index file and its buffer. */
  class IndexFile {
    const disk: Disk
    var file: Bytes
    var fileOffset: nat
    var buf: Bytes
    var calls: nat
    var failed: bool

    constructor (disk: Disk)
      ensures this.disk == disk && State() == Saving([], [], 0, false) && fileOffset == 0
    {
      this.disk, file, fileOffset, buf, calls, failed := disk, [], 0, [], 0, false;
    }

    ghost function State(): Saving
      reads this
    {
      Saving(file, buf, calls, failed)
    }

    /** pwrite at the file offset, an error if it fails or writes nothing. */
    method Pwrite() returns (wbytes: int)
      requires fileOffset == |file| && !failed
      modifies `file, `failed
      ensures wbytes == Wrote(disk.write(calls), |buf|) && failed == (wbytes <= 0)
      ensures file == if wbytes <= 0 then old(file) else old(file) + buf[..wbytes]
    {
      wbytes := Wrote(disk.write(calls), |buf|);
      if wbytes > 0 {
        file := file + buf[..wbytes];
      } else {
        failed := true;
      }
    }

    /** Writes the buffer out, and has it synced. */
    method TryWrite() returns (ok: bool)
      requires fileOffset == |file| && !failed
      modifies this
      ensures State() == WriteOut(disk, old(State())) && ok == !failed
      ensures ok ==> fileOffset == |file|
    {
      var wbytes := Pwrite();
      if !failed {
        failed := disk.sync(calls) < 0;
      }
      calls := calls + 1;
      ok := !failed;
      if ok {
        fileOffset := fileOffset + wbytes;
        buf := [];
      }
    }
  }

  /** What a saved list comes to: an error, the whole file, or a file that is too short. */
  ghost predicate SavedAs(disk: Disk, es: seq<Entry>, bufsiz: nat, ok: bool, file: Bytes)
    requires Printable(es) && bufsiz > 0
  {
    && (ok <==> AllDone(disk, 0, |Flushes(0, es, bufsiz)|))
    && (ok ==> (file == Lines(es) <==> AllWhole(disk, 0, Flushes(0, es, bufsiz))))
  }

  lemma SaveResult(disk: Disk, es: seq<Entry>, bufsiz: nat)
    requires Printable(es) && bufsiz > 0
    ensures var r := SaveAll(disk, Saving([], [], 0, false), es, bufsiz); SavedAs(disk, es, bufsiz, !r.failed, r.file)
  {
    SaveComesTo(disk, Saving([], [], 0, false), es, bufsiz, Lines(es));
  }

  /** Writes the lines of the list, flushing whenever the buffer fills a multiple of `bufsiz`. */
  method SaveNodes(l: MboxList<Entry>, io: IndexFile, bufsiz: nat) returns (ok: bool)
    requires l.Valid() && l.len > 0 && Printable(l.Contents()) && bufsiz > 0
    requires io.State() == Saving([], [], 0, false) && io.fileOffset == 0
    modifies io
    ensures io.State() == SaveAll(io.disk, Saving([], [], 0, false), l.Contents(), bufsiz) && ok == !io.failed
    ensures SavedAs(io.disk, l.Contents(), bufsiz, ok, io.file)
  {
    SaveResult(io.disk, l.Contents(), bufsiz);
    ghost var s, ring, i := l.Contents(), l.ring, 0;
    ghost var start := io.State();
    var node := l.root;
    var count := l.len;
    while count > 0
      invariant count == l.len - i && node == NodeAt(ring, i) && ring == l.ring
      invariant io.fileOffset == |io.file| && !io.failed
      invariant SaveAll(io.disk, io.State(), s[i..], bufsiz) == SaveAll(io.disk, start, s, bufsiz)
      decreases count
    {
      Walk(ring, i);
      var msg := node.data;
      SaveOne(io.disk, io.State(), s, i, bufsiz);
      ok := AppendLine(io, msg, bufsiz);
      if !ok {
        return;
      }
      node := node.next;
      count, i := count - 1, i + 1;
    }
    assert s[i..] == [];
    ok := true;
    if |io.buf| > 0 {
      ok := io.TryWrite();
    }
  }

  lemma SaveOne(disk: Disk, st: Saving, s: seq<Entry>, i: nat, bufsiz: nat)
    requires Printable(s) && i < |s| && bufsiz > 0 && !st.failed
    ensures s[i] in s
    ensures var st' := AddLine(disk, st, s[i], bufsiz);
      && SaveAll(disk, st, s[i..], bufsiz) == SaveAll(disk, st', s[i + 1..], bufsiz)
      && (st'.failed ==> SaveAll(disk, st, s[i..], bufsiz) == st')
  {
    assert s[i..][0] == s[i] && s[i..][1..] == s[i + 1..];
  }

  method AppendLine(io: IndexFile, msg: Entry, bufsiz: nat) returns (ok: bool)
    requires msg.start >= 0 && msg.end >= 0 && bufsiz > 0 && io.fileOffset == |io.file| && !io.failed
    modifies io
    ensures io.State() == AddLine(io.disk, old(io.State()), msg, bufsiz) && ok == !io.failed
    ensures ok ==> io.fileOffset == |io.file|
  {
    io.buf := io.buf + Line(msg);
    ok := true;
    if |io.buf| % bufsiz == 0 {
      ok := io.TryWrite();
    }
  }

  /** No message comes behind one that begins later. */
  predicate InOrder(es: seq<Entry>) {
    forall i, j :: 0 <= i < j < |es| ==> es[i].start <= es[j].start
  }

  method SortByStart(l: MboxList<Entry>)
    requires l.Valid() && Printable(l.Contents())
    modifies l.ring`data
    ensures l.Valid() && multiset(l.Contents()) == multiset(old(l.Contents())) && Printable(l.Contents())
    ensures InOrder(l.Contents())
  {
    ghost var s := l.Contents();
    assert Sortable(CompareByStart, s);
    l.QSort(Some(CompareByStart));
    ghost var t := l.Contents();
    forall i, j | 0 <= i < j < |t| ensures t[i].start <= t[j].start {
      assert CompareByStart(t[i], t[j]) <= 0;
    }
    forall e | e in l.Contents() ensures e in s {
      SameElements(s, l.Contents(), e);
    }
  }

  /** Sorts the list and writes it to the open file. */
  method SaveSorted(l: MboxList<Entry>, io: IndexFile, bufsiz: nat) returns (ok: bool)
    requires l.Valid() && l.len > 0 && Printable(l.Contents()) && bufsiz > 0
    requires io.State() == Saving([], [], 0, false) && io.fileOffset == 0
    modifies l.ring`data, io
    ensures l.Valid() && multiset(l.Contents()) == multiset(old(l.Contents())) && Printable(l.Contents())
    ensures InOrder(l.Contents()) && ok == !io.failed
    ensures SavedAs(io.disk, l.Contents(), bufsiz, ok, io.file)
  {
    SortByStart(l);
    ok := SaveNodes(l, io, bufsiz);
  }

  method Open(disk: Disk) returns (io: Option<IndexFile>)
    ensures io.Some? <==> disk.opens
    ensures io.Some? ==> fresh(io.value) && io.value.disk == disk
    ensures io.Some? ==> io.value.State() == Saving([], [], 0, false) && io.value.fileOffset == 0
  {
    io := None;
    if disk.opens {
      var file := new IndexFile(disk);
      io := Some(file);
    }
  }

  /**
   Saves the list, sorted by start. An error is reported exactly when a call on the open file
   failed; without one the file holds exactly the lines of the sorted list if and only if the
   system took every write as a whole. A file that cannot be opened is no error: nothing is
   sorted or saved.
   */
  method Save(l: MboxList<Entry>, bufsiz: nat, disk: Disk) returns (io: Option<IndexFile>, ok: bool)
    requires l.Valid() && Printable(l.Contents()) && bufsiz > 0
    modifies l.ring`data
    ensures l.Valid() && multiset(l.Contents()) == multiset(old(l.Contents())) && Printable(l.Contents())
    ensures io.Some? <==> l.len > 0 && disk.opens
    ensures io == None ==> ok && l.Contents() == old(l.Contents())
    ensures io.Some? ==> InOrder(l.Contents())
    ensures io.Some? ==> SavedAs(disk, l.Contents(), bufsiz, ok, io.value.file)
  {
    if l.len == 0 {
      return None, true;
    }
    io := Open(disk);
    if io == None {
      return None, true;
    }
    ok := SaveSorted(l, io.value, bufsiz);
  }

  // ---------- Loading ----------

  /** Copies one token, up to `b`; fails where C would leave the data or the token array. */
  method ReadToken(data: Bytes, start: nat, b: byte) returns (token: Option<Bytes>, o: nat)
    requires start <= |data|
    ensures var r := Find(data, start, b);
      if r < |data| && r - start < 26 then token == Some(data[start..r]) && o == r else token == None
  {
    var tmp: Bytes := [];
    o := start;
    while o < |data| && data[o] != b && |tmp| < TOKEN
      invariant start <= o <= |data| && tmp == data[start..o] && |tmp| <= TOKEN
      invariant Find(data, start, b) == Find(data, o, b)
    {
      tmp := tmp + [data[o]];
      o := o + 1;
    }
    if o == |data| || data[o] != b {
      return None, o;
    }
    return Some(tmp), o;
  }

  /** Parses one line, and adds it to the list. */
  method ReadEntry(data: Bytes, offset: nat, l: MboxList<Entry>) returns (ok: bool, next: nat, ghost e: Entry)
    requires offset < |data| && l.Valid()
    modifies l, l.repr`next, l.repr`prev
    ensures ok ==> offset < next <= |data| && l.Valid() && fresh(l.repr - old(l.repr))
    ensures ok ==> l.Contents() == old(l.Contents()) + [e]
    ensures ok ==> ParseFrom(data, offset) == WithEntry(e, ParseFrom(data, next))
    ensures !ok ==> ParseFrom(data, offset) == None
  {
    e := Entry(0, 0);
    var first, s := ReadToken(data, offset, SPACE);
    if first.None? {
      return false, offset, e;
    }
    var second, n := ReadToken(data, s + 1, LF);
    if second.None? {
      return false, offset, e;
    }
    OneEntry(data, offset, s, n, first.value, second.value, n + 1);
    var msg := Entry(Atol(first.value), Atol(second.value));
    l.AddTail(msg);
    return true, n + 1, msg;
  }

  /** Parses a whole index file into a list. */
  method IndexesToList(data: Bytes) returns (r: Option<MboxList<Entry>>)
    ensures ParseFrom(data, 0).None? ==> r == None
    ensures ParseFrom(data, 0).Some? ==>
      r.Some? && r.value.Valid() && r.value.Contents() == ParseFrom(data, 0).value
    ensures r.Some? ==> fresh(r.value) && fresh(r.value.repr)
  {
    var l := new MboxList<Entry>();
    var offset := 0;
    ghost var whole := ParseFrom(data, 0);
    PrependNothing(whole);
    while offset < |data|
      invariant offset <= |data| && l.Valid() && fresh(l) && fresh(l.repr)
      invariant whole == Prepend(l.Contents(), ParseFrom(data, offset))
      decreases |data| - offset
    {
      ghost var acc := l.Contents();
      var ok, next;
      ghost var e;
      ok, next, e := ReadEntry(data, offset, l);
      if !ok {
        return None;
      }
      PrependStep(acc, e, ParseFrom(data, next));
      offset := next;
    }
    assert l.Contents() + [] == l.Contents();
    return Some(l);
  }

  function Prepend(acc: seq<Entry>, rest: Option<seq<Entry>>): Option<seq<Entry>> {
    if rest.None? then None else Some(acc + rest.value)
  }

  lemma PrependNothing(rest: Option<seq<Entry>>)
    ensures Prepend([], rest) == rest
  {
    if rest.Some? {
      assert [] + rest.value == rest.value;
    }
  }

  lemma PrependStep(acc: seq<Entry>, e: Entry, rest: Option<seq<Entry>>)
    ensures Prepend(acc, WithEntry(e, rest)) == Prepend(acc + [e], rest)
  {
    if rest.Some? {
      assert acc + ([e] + rest.value) == acc + [e] + rest.value;
    }
  }
}
