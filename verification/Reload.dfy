/** The whole way of an index (src/mbox-index.c): saved, read back, cut into batches, loaded. */
module Reload {
  import opened Bytes
  import opened IndexFormat
  import opened RingList
  import opened RingSort
  import opened Index
  import opened Batches

  /** Entries inside the mailbox, whose ends keep the order of their starts. */
  ghost predicate Regular(es: seq<Entry>, size: nat) {
    && size < 0x8000_0000_0000_0000
    && (forall e :: e in es ==> 0 <= e.start <= e.end <= size)
    && forall a, b :: a in es && b in es && a.start <= b.start ==> a.end <= b.end
  }

  lemma RegularSorted(es: seq<Entry>, sorted: seq<Entry>, size: nat)
    requires Regular(es, size) && multiset(sorted) == multiset(es) && InOrder(sorted)
    ensures Storable(sorted) && WellOrdered(sorted, size)
  {
    forall e | e in sorted ensures e in es {
      SameElements(es, sorted, e);
    }
    forall i, j | 0 <= i < j < |sorted| ensures sorted[i].start <= sorted[j].start && sorted[i].end <= sorted[j].end {
      assert sorted[i] in sorted && sorted[j] in sorted;
    }
    assert forall i :: 0 <= i < |sorted| ==> sorted[i] in sorted;
  }

  /** Takes the offsets off the list, first to last, as the loop over the batches does. */
  method TakeAll(l: MboxList<Entry>) returns (es: seq<Entry>)
    requires l.Valid()
    modifies l, l.repr`next, l.repr`prev
    ensures es == old(l.Contents())
  {
    es := [];
    ghost var all := l.Contents();
    while l.len > 0
      invariant l.Valid() && es + l.Contents() == all && l.repr <= old(l.repr)
      decreases l.len
    {
      ghost var rest := l.Contents();
      var e := l.RemoveHead();
      assert rest == [rest[0]] + rest[1..];
      es := es + [e.value];
    }
    assert l.Contents() == [];
  }

  /**
   Loads batch by batch; what is loaded are the messages of all entries in order, and in a
   well-ordered index no batch fails.
   */
  method LoadAll(mbox: Bytes, entries: seq<Entry>) returns (r: Option<seq<Bytes>>)
    requires entries != []
    ensures r.Some? ==> LoadsBatch(mbox, entries, r.value)
    ensures WellOrdered(entries, |mbox|) ==> r.Some?
  {
    var jobs := BatchLoad(entries);
    var loaded: seq<seq<Bytes>>, msgs: seq<Bytes> := [], [];
    var j := 0;
    while j < |jobs|
      invariant j <= |jobs| && |loaded| == j && msgs == Batches.Joined(loaded)
      invariant forall i :: 0 <= i < j ==> LoadsBatch(mbox, jobs[i], loaded[i])
    {
      if WellOrdered(entries, |mbox|) {
        AllReachable(mbox, entries, jobs, j);
      }
      var batch := GetMessages(mbox, jobs[j]);
      if batch == None {
        return None;
      }
      assert (loaded + [batch.value])[..j] == loaded;
      loaded := loaded + [batch.value];
      msgs := msgs + batch.value;
      j := j + 1;
    }
    BatchesLoadAll(mbox, jobs, loaded);
    r := Some(msgs);
  }

  /**
   Saves the list, reads the file back, and loads the mailbox through it. If the system took
   every write as a whole, what comes out is the message of every entry, in the order of the
   sorted list.
   */
  method SaveAndLoad(l: MboxList<Entry>, bufsiz: nat, disk: Disk, mbox: Bytes) returns (saved: bool, r: Option<seq<Bytes>>)
    requires l.Valid() && l.len > 0 && Regular(l.Contents(), |mbox|) && bufsiz > 0
    modifies l.ring`data
    ensures l.Valid() && multiset(l.Contents()) == multiset(old(l.Contents())) && Printable(l.Contents())
    ensures saved <==> disk.opens && AllDone(disk, 0, |Flushes(0, l.Contents(), bufsiz)|)
    ensures saved && AllWhole(disk, 0, Flushes(0, l.Contents(), bufsiz)) ==>
      r.Some? && LoadsBatch(mbox, l.Contents(), r.value)
  {
    r := None;
    ghost var es := l.Contents();
    var io, ok := Save(l, bufsiz, disk);
    saved := ok && io.Some?;
    if !saved {
      return;
    }
    RegularSorted(es, l.Contents(), |mbox|);
    r := Load(io.value.file, mbox, l.Contents());
  }

  /** Reads the index file, and loads the mailbox through it. */
  method Load(index: Bytes, mbox: Bytes, ghost es: seq<Entry>) returns (r: Option<seq<Bytes>>)
    requires es != [] && Storable(es) && WellOrdered(es, |mbox|)
    ensures index == Lines(es) ==> r.Some? && LoadsBatch(mbox, es, r.value)
  {
    SavedIsLoaded(es);
    var indexes := IndexesToList(index);
    if indexes == None {
      return None;
    }
    var entries := TakeAll(indexes.value);
    if entries == [] {
      return None;
    }
    r := LoadAll(mbox, entries);
  }
}
