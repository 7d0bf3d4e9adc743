/**
 Cutting the file into one range per io thread (src/mbox.c, mboxSetAllOffsets, with
 mboxParserCtxSeekStart of src/mbox-parser.c): each context looks for a "From " line in the
 window in front of its share, the ranges run from each start to the next, and the contexts
 left with an empty range are squeezed out of the array in place.
 */
module Ranges {
  import opened Bytes
  import opened LineScan
  import opened Syscalls

  /** A context is a struct: the array holds it by value and memmove copies it. */
  datatype Ctx = Ctx(id: nat, start: nat, end: nat, offset: nat, fileOffset: nat)

  /** The answer to the k-th read of the i-th search, and how many reads of a search are followed. */
  datatype Search = Search(reading: (nat, nat) -> int, rounds: nat)

  /** What is searched for: "From " for a context at the beginning of the file, else "\nFrom ". */
  predicate MatchAt(file: Bytes, first: bool, p: nat) {
    if first then
      && p + 5 <= |file|
      && file[p] == 70 && file[p + 1] == 114 && file[p + 2] == 111 && file[p + 3] == 109 && file[p + 4] == 32
    else FromAt(file, p)
  }

  lemma MatchAtIs(file: Bytes, p: nat)
    ensures MatchAt(file, true, p) <==> p + 5 <= |file| && file[p..p + 5] == FROM
    ensures MatchAt(file, false, p) <==> p + 6 <= |file| && file[p..p + 6] == [LF] + FROM
  {
    FromAtIs(file, p);
    if p + 5 <= |file| {
      var s := file[p..p + 5];
      assert s[0] == file[p] && s[1] == file[p + 1] && s[2] == file[p + 2] && s[3] == file[p + 3] && s[4] == file[p + 4];
    }
  }

  function MatchLength(first: bool): nat {
    if first then 5 else 6
  }

  /** One window further back. */
  function Back(offset: nat): nat {
    if offset < READ_SIZE then 0 else offset - READ_SIZE
  }

  /** The first complete match in [q, end). */
  function FirstMatch(file: Bytes, first: bool, q: nat, end: nat): Option<nat>
    decreases end - q
  {
    if q >= end then None
    else if q + MatchLength(first) <= end && MatchAt(file, first, q) then Some(q)
    else FirstMatch(file, first, q + 1, end)
  }

  /** Where the k-th read of the i-th search ends, if it begins at `w`. */
  function WindowEnd(file: Bytes, s: Search, i: nat, k: nat, w: nat): (end: nat)
    requires w <= |file|
    ensures w <= end <= |file| && (w < |file| ==> w < end)
  {
    w + Delivered(s.reading(i, k), READ_SIZE, |file| - w)
  }

  /**
   Where the i-th context starts: the first match in what the first read with a match delivered,
   window by window towards the front; the offset itself after a failed read or in an empty
   file. None if the reads that are followed bring no end.
   */
  function SearchBack(file: Bytes, s: Search, i: nat, origin: nat, offset: nat, k: nat): Option<nat>
    requires offset <= |file|
    decreases s.rounds - k
  {
    if k >= s.rounds then None
    else
      var w := Back(offset);
      if s.reading(i, k) < 0 || |file| == 0 then Some(origin)
      else
        var p := FirstMatch(file, origin == 0, w, WindowEnd(file, s, i, k, w));
        if p.Some? then p else SearchBack(file, s, i, origin, w, k + 1)
  }

  /** The search inside one window, from its front. */
  method SearchWindow(file: Bytes, first: bool, w: nat, end: nat) returns (p: Option<nat>)
    ensures p == FirstMatch(file, first, w, end)
    ensures p.Some? ==> FirstIn(file, first, w, end, p.value)
    ensures p.None? ==> NoneIn(file, first, w, end)
  {
    var idx := w;
    p := None;
    FirstMatchIs(file, first, w, end);
    while idx < end
      invariant FirstMatch(file, first, idx, end) == FirstMatch(file, first, w, end)
    {
      if idx + MatchLength(first) <= end && MatchAt(file, first, idx) {
        return Some(idx);
      }
      idx := idx + 1;
    }
  }

  /** Goes backwards window by window until a read fails, or brings a "From " line. */
  method SeekStart(file: Bytes, s: Search, i: nat, fileOffset: nat) returns (start: Option<nat>)
    requires fileOffset <= |file|
    ensures start == SearchBack(file, s, i, fileOffset, fileOffset, 0)
  {
    var offset: nat, k := fileOffset, 0;
    while k < s.rounds
      invariant offset <= fileOffset
      invariant SearchBack(file, s, i, fileOffset, offset, k) == SearchBack(file, s, i, fileOffset, fileOffset, 0)
    {
      offset := Back(offset);
      var answer := s.reading(i, k);
      var rbytes := Delivered(answer, READ_SIZE, |file| - offset);
      if rbytes == 0 || answer < 0 {
        return Some(fileOffset);
      }
      var p := SearchWindow(file, fileOffset == 0, offset, offset + rbytes);
      if p.Some? {
        return p;
      }
      k := k + 1;
    }
    start := None;
  }

  // ---------- What the search finds ----------

  /** The first complete match inside the window is at `p`. */
  ghost predicate FirstIn(file: Bytes, first: bool, w: nat, end: nat, p: nat) {
    && w <= p && p + MatchLength(first) <= end && MatchAt(file, first, p)
    && forall q :: w <= q < p ==> !MatchAt(file, first, q)
  }

  ghost predicate NoneIn(file: Bytes, first: bool, w: nat, end: nat) {
    forall q :: w <= q && q + MatchLength(first) <= end ==> !MatchAt(file, first, q)
  }

  lemma {:induction false} FirstMatchIs(file: Bytes, first: bool, q: nat, end: nat)
    ensures var r := FirstMatch(file, first, q, end);
      if r.Some? then FirstIn(file, first, q, end, r.value) else NoneIn(file, first, q, end)
    decreases end - q
  {
    if q < end && !(q + MatchLength(first) <= end && MatchAt(file, first, q)) {
      FirstMatchIs(file, first, q + 1, end);
    }
  }

  /** Where the window of the k-th read begins; the loop of the code goes through them all. */
  function WindowStart(offset: nat, k: nat): (w: nat)
    ensures w <= offset
  {
    Back(if k == 0 then offset else WindowStart(offset, k - 1))
  }

  /** One read further back every time, and not beyond the front of the file. */
  lemma {:induction false} WindowStartIs(offset: nat, k: nat)
    ensures WindowStart(offset, k) == if offset < (k + 1) * 300000 then 0 else offset - (k + 1) * 300000
  {
    if k > 0 {
      WindowStartIs(offset, k - 1);
    }
  }

  /** Full reads pass over no byte: whatever lies in front of the offset is in one of the windows read so far. */
  lemma {:induction false} NoGaps(file: Bytes, s: Search, i: nat, origin: nat, k: nat, q: nat) returns (j: nat)
    requires origin <= |file| && WindowStart(origin, k) <= q < origin
    requires forall j: nat :: j <= k ==> s.reading(i, j) >= READ_SIZE
    ensures j <= k && WindowStart(origin, j) <= q < WindowEnd(file, s, i, j, WindowStart(origin, j))
  {
    WindowStartIs(origin, k);
    if k > 0 && WindowStart(origin, k - 1) <= q {
      j := NoGaps(file, s, i, origin, k - 1, q);
    } else {
      j := k;
      if k > 0 {
        WindowStartIs(origin, k - 1);
      }
      assert s.reading(i, j) >= READ_SIZE;
    }
  }

  /** The k-th read ends the search, with a start at `p`. */
  ghost predicate EndsWith(file: Bytes, s: Search, i: nat, origin: nat, k: nat, p: nat)
    requires origin <= |file|
  {
    var w := WindowStart(origin, k);
    if s.reading(i, k) < 0 || |file| == 0 then p == origin
    else FirstIn(file, origin == 0, w, WindowEnd(file, s, i, k, w), p)
  }

  ghost predicate GoesOn(file: Bytes, s: Search, i: nat, origin: nat, k: nat)
    requires origin <= |file|
  {
    var w := WindowStart(origin, k);
    s.reading(i, k) >= 0 && |file| > 0 && NoneIn(file, origin == 0, w, WindowEnd(file, s, i, k, w))
  }

  /** The k-th read is the first to end the search. */
  ghost predicate EndsFirst(file: Bytes, s: Search, i: nat, origin: nat, k: nat, p: nat)
    requires origin <= |file|
  {
    k < s.rounds && EndsWith(file, s, i, origin, k, p) && forall j: nat :: j < k ==> GoesOn(file, s, i, origin, j)
  }

  lemma {:induction false} SearchBackIs(file: Bytes, s: Search, i: nat, origin: nat, offset: nat, k: nat)
      returns (n: nat)
    requires origin <= |file| && offset == (if k == 0 then origin else WindowStart(origin, k - 1))
    requires forall j: nat :: j < k ==> GoesOn(file, s, i, origin, j)
    ensures var r := SearchBack(file, s, i, origin, offset, k);
      if r.Some? then EndsFirst(file, s, i, origin, n, r.value)
      else forall j: nat :: j < s.rounds ==> GoesOn(file, s, i, origin, j)
    decreases s.rounds - k
  {
    n := k;
    if k < s.rounds && s.reading(i, k) >= 0 && |file| > 0 {
      var w := Back(offset);
      FirstMatchIs(file, origin == 0, w, WindowEnd(file, s, i, k, w));
      if FirstMatch(file, origin == 0, w, WindowEnd(file, s, i, k, w)).None? {
        n := SearchBackIs(file, s, i, origin, w, k + 1);
      }
    }
  }

  /**
   For every file, offset, and answers of the system: the search finds `p` if and only if the
   first read that ends it does with `p`; and it does not end if and only if no read ends it.
   */
  lemma SearchIff(file: Bytes, s: Search, i: nat, origin: nat, p: nat)
    requires origin <= |file|
    ensures SearchBack(file, s, i, origin, origin, 0) == Some(p) <==>
      exists k :: EndsFirst(file, s, i, origin, k, p)
    ensures SearchBack(file, s, i, origin, origin, 0) == None <==>
      forall k: nat :: k < s.rounds ==> GoesOn(file, s, i, origin, k)
  {
    var n := SearchBackIs(file, s, i, origin, origin, 0);
    var r := SearchBack(file, s, i, origin, origin, 0);
    if r.Some? {
      assert EndsFirst(file, s, i, origin, n, r.value) && !GoesOn(file, s, i, origin, n);
      if k :| EndsFirst(file, s, i, origin, k, p) {
        EndsOnce(file, s, i, origin, n, r.value, k, p);
      }
    } else {
      forall k: nat ensures !EndsFirst(file, s, i, origin, k, p) {
        assert k < s.rounds ==> GoesOn(file, s, i, origin, k);
      }
    }
  }

  lemma EndsOnce(file: Bytes, s: Search, i: nat, origin: nat, k: nat, p: nat, k': nat, p': nat)
    requires origin <= |file|
    requires EndsFirst(file, s, i, origin, k, p) && EndsFirst(file, s, i, origin, k', p')
    ensures k == k' && p == p'
  {
    assert k < k' ==> GoesOn(file, s, i, origin, k);
    assert k' < k ==> GoesOn(file, s, i, origin, k');
  }

  ghost predicate NoFaults(s: Search) {
    forall i: nat, k: nat :: s.reading(i, k) >= 0
  }

  /** Unless a read fails, a start is a "From " line of the kind searched for. */
  lemma StartMatches(file: Bytes, s: Search, i: nat, origin: nat)
    requires origin <= |file| && SearchBack(file, s, i, origin, origin, 0).Some?
    ensures var p := SearchBack(file, s, i, origin, origin, 0).value;
      p <= |file| && (|file| > 0 && NoFaults(s) ==> MatchAt(file, origin == 0, p))
  {
    var k := SearchBackIs(file, s, i, origin, origin, 0);
  }

  /** In a file that begins with "From " a context at its beginning starts there. */
  lemma StartsAtZero(file: Bytes, s: Search, i: nat)
    requires MatchAt(file, true, 0) && SearchBack(file, s, i, 0, 0, 0).Some?
    ensures SearchBack(file, s, i, 0, 0, 0) == Some(0)
  {
    var k := SearchBackIs(file, s, i, 0, 0, 0);
  }

  // ---------- The contexts ----------

  /** Where the i-th share of the file begins. */
  function Share(file: Bytes, threads: nat, i: nat): (r: nat)
    requires i < threads
    ensures r <= |file|
  {
    TimesOrdered(i, threads, |file| / threads);
    i * (|file| / threads)
  }

  /** The shares are equally long, and less than one byte for each of them is left over. */
  lemma SharesEqual(file: Bytes, threads: nat, i: nat)
    requires i < threads && threads > 1
    ensures Share(file, threads, i) == i * Share(file, threads, 1)
    ensures threads * Share(file, threads, 1) <= |file| < threads * Share(file, threads, 1) + threads
  {
    assert Share(file, threads, 1) == |file| / threads;
  }

  lemma ShareOrdered(file: Bytes, threads: nat, i: nat, j: nat)
    requires i <= j < threads
    ensures Share(file, threads, i) <= Share(file, threads, j)
  {
    TimesOrdered(i, j, |file| / threads);
  }

  lemma TimesOrdered(a: nat, b: nat, c: nat)
    requires a <= b
    ensures a * c <= b * c
  {
  }

  /** Where the i-th context starts. */
  function StartAt(file: Bytes, threads: nat, s: Search, i: nat): Option<nat>
    requires i < threads
  {
    SearchBack(file, s, i, Share(file, threads, i), Share(file, threads, i), 0)
  }

  /** Every search ends. */
  ghost predicate AllFound(file: Bytes, threads: nat, s: Search) {
    forall i :: 0 <= i < threads ==> StartAt(file, threads, s, i).Some?
  }

  /** No later share finds an earlier start. */
  ghost predicate InOrder(file: Bytes, threads: nat, s: Search)
    requires AllFound(file, threads, s)
  {
    forall i, j :: 0 <= i < j < threads && j == i + 1 ==>
      StartAt(file, threads, s, i).value <= StartAt(file, threads, s, j).value
  }

  /** The i-th context: its range runs to the next start, or to the end of the file. */
  ghost function ContextOf(file: Bytes, threads: nat, s: Search, i: nat): Ctx
    requires AllFound(file, threads, s) && i < threads
  {
    var start := StartAt(file, threads, s, i).value;
    Ctx(i, start, if i + 1 < threads then StartAt(file, threads, s, i + 1).value else |file|,
        if i == 0 && threads > 1 then 0 else start, start)
  }

  ghost function ContextsOf(file: Bytes, threads: nat, s: Search): (cs: seq<Ctx>)
    requires AllFound(file, threads, s)
    ensures |cs| == threads && forall i :: 0 <= i < threads ==> cs[i] == ContextOf(file, threads, s, i)
  {
    seq(threads, (i: nat) requires i < threads => ContextOf(file, threads, s, i))
  }

  /** What the search jobs leave in a context. */
  ghost predicate Found(file: Bytes, threads: nat, s: Search, c: Ctx, i: nat)
    requires i < threads
  {
    && StartAt(file, threads, s, i) == Some(c.start)
    && c.id == i && c.fileOffset == c.start && c.offset == Share(file, threads, i)
  }

  /** Every context gets its share and looks for its start; false if a search does not end. */
  method FindStarts(file: Bytes, s: Search, contexts: array<Ctx>) returns (returned: bool)
    modifies contexts
    ensures returned <==> AllFound(file, contexts.Length, s)
    ensures returned ==> forall i :: 0 <= i < contexts.Length ==> Found(file, contexts.Length, s, contexts[i], i)
  {
    var threads := contexts.Length;
    var i := 0;
    while i < threads
      invariant i <= threads
      invariant forall j :: 0 <= j < i ==> Found(file, threads, s, contexts[j], j)
    {
      var chunk := |file| / threads;
      var offset := i * chunk;
      assert offset == Share(file, threads, i);
      var start := SeekStart(file, s, i, offset);
      assert start == StartAt(file, threads, s, i);
      if start == None {
        return false;
      }
      contexts[i] := Ctx(i, start.value, 0, offset, start.value);
      i := i + 1;
    }
    forall j | 0 <= j < threads ensures StartAt(file, threads, s, j).Some? {
      assert Found(file, threads, s, contexts[j], j);
    }
    returned := true;
  }

  /** Each range ends where the next one starts, the last one at the end of the file. */
  ghost predicate EndsSet(found: seq<Ctx>, cs: seq<Ctx>, size: nat) {
    && |cs| == |found| > 0
    && (forall i :: 0 <= i < |cs| ==> cs[i].start == found[i].start && cs[i].fileOffset == found[i].fileOffset)
    && (forall i :: 0 <= i < |cs| ==> cs[i].id == found[i].id)
    && (forall i :: 0 < i < |cs| ==> cs[i].offset == cs[i].start)
    && cs[0].offset == (if |cs| > 1 then found[0].offset else cs[0].start)
    && (forall i :: 0 <= i < |cs| - 1 ==> cs[i].end == cs[i + 1].start)
    && cs[|cs| - 1].end == size
  }

  method SetEnds(file: Bytes, contexts: array<Ctx>)
    requires contexts.Length > 0
    modifies contexts
    ensures EndsSet(old(contexts[..]), contexts[..], |file|)
  {
    var n := contexts.Length;
    var i := 1;
    while i < n
      invariant 1 <= i <= n
      invariant forall j :: 0 <= j < n ==>
        contexts[j].start == old(contexts[j].start) && contexts[j].fileOffset == old(contexts[j].fileOffset)
      invariant forall j :: 0 <= j < n ==> contexts[j].id == old(contexts[j].id)
      invariant forall j :: 0 < j < i ==> contexts[j].offset == contexts[j].start
      invariant contexts[0].offset == old(contexts[0].offset)
      invariant forall j :: 0 <= j < i - 1 ==> contexts[j].end == contexts[j + 1].start
    {
      contexts[i - 1] := contexts[i - 1].(end := contexts[i].start);
      contexts[i] := contexts[i].(offset := contexts[i].start);
      i := i + 1;
    }
    contexts[n - 1] := contexts[n - 1].(end := |file|, offset := contexts[n - 1].start);
  }

  /** The contexts with something to parse, numbered anew. */
  function Kept(cs: seq<Ctx>): seq<Ctx> {
    if |cs| == 0 then []
    else
      var (before, c) := (Kept(cs[..|cs| - 1]), cs[|cs| - 1]);
      if c.end <= c.start then before else before + [c.(id := |before|)]
  }

  /** Squeezes the empty contexts out of the array; the first `kept` elements remain. */
  method Compact(contexts: array<Ctx>) returns (kept: nat)
    modifies contexts
    ensures kept <= contexts.Length && contexts[..kept] == Kept(old(contexts[..]))
  {
    var i := 0;
    kept := 0;
    while i < contexts.Length
      invariant kept <= i <= contexts.Length
      invariant forall j :: i <= j < contexts.Length ==> contexts[j] == old(contexts[j])
      invariant contexts[..kept] == Kept(old(contexts[..i]))
    {
      assert old(contexts[..i + 1])[..i] == old(contexts[..i]);
      if contexts[i].end > contexts[i].start {
        contexts[i] := contexts[i].(id := kept);
        contexts[kept] := contexts[i];
        kept := kept + 1;
      }
      i := i + 1;
    }
    assert old(contexts[..i]) == old(contexts[..]);
  }

  /** Ranges that lie one behind the other and cover [from, to). */
  ghost predicate Covers(cs: seq<Ctx>, from: nat, to: nat) {
    && (|cs| == 0 ==> from == to)
    && (|cs| > 0 ==> cs[0].start == from && cs[|cs| - 1].end == to)
    && (forall i :: 0 <= i < |cs| ==> cs[i].start < cs[i].end && cs[i].id == i)
    && (forall i, j :: 0 <= i < j < |cs| && j == i + 1 ==> cs[i].end == cs[j].start)
  }

  /** Ranges that run from each start to the next: with starts in order the kept ones cover. */
  lemma {:induction false} KeptCovers(cs: seq<Ctx>)
    requires |cs| > 0 && forall i :: 0 <= i < |cs| ==> cs[i].start <= cs[i].end
    requires forall i, j :: 0 <= i < j < |cs| && j == i + 1 ==> cs[i].end == cs[j].start
    ensures Covers(Kept(cs), cs[0].start, cs[|cs| - 1].end)
    decreases |cs|
  {
    var n := |cs|;
    if n == 1 {
      assert Kept(cs[..0]) == [];
    } else {
      KeptCovers(cs[..n - 1]);
      assert cs[n - 2].end == cs[n - 1].start;
    }
  }

  lemma {:induction false} KeptFrom(cs: seq<Ctx>, i: nat) returns (j: nat)
    requires i < |Kept(cs)|
    ensures j < |cs| && Kept(cs)[i] == cs[j].(id := i)
    decreases |cs|
  {
    var n := |cs|;
    var before := Kept(cs[..n - 1]);
    if i < |before| {
      j := KeptFrom(cs[..n - 1], i);
    } else {
      j := n - 1;
    }
  }

  function Length(cs: seq<Ctx>): int {
    if |cs| == 0 then 0 else Length(cs[..|cs| - 1]) + cs[|cs| - 1].end - cs[|cs| - 1].start
  }

  ghost predicate Linked(cs: seq<Ctx>) {
    forall i, j :: 0 <= i < j < |cs| && j == i + 1 ==> cs[i].end == cs[j].start
  }

  lemma {:induction false} LinkedLength(cs: seq<Ctx>)
    requires |cs| > 0 && Linked(cs)
    ensures Length(cs) == cs[|cs| - 1].end - cs[0].start
    decreases |cs|
  {
    var n := |cs|;
    if n > 1 {
      LinkedLength(cs[..n - 1]);
      assert cs[n - 2].end == cs[n - 1].start;
    } else {
      assert Length(cs[..0]) == 0;
    }
  }

  /** Dropping the empty ranges drops no length; dropping a reversed range adds some. */
  lemma {:induction false} KeptLength(cs: seq<Ctx>)
    ensures Length(Kept(cs)) >= Length(cs)
    ensures Length(Kept(cs)) == Length(cs) ==> forall i :: 0 <= i < |cs| ==> cs[i].start <= cs[i].end
    decreases |cs|
  {
    var n := |cs|;
    if n > 0 {
      KeptLength(cs[..n - 1]);
      var (before, c) := (Kept(cs[..n - 1]), cs[n - 1]);
      LengthAppend(before, c.(id := |before|));
      if Length(Kept(cs)) == Length(cs) {
        assert forall i :: 0 <= i < n - 1 ==> cs[..n - 1][i] == cs[i];
      }
    }
  }

  lemma LengthAppend(cs: seq<Ctx>, c: Ctx)
    ensures Length(cs + [c]) == Length(cs) + c.end - c.start
  {
    assert (cs + [c])[..|cs|] == cs;
  }

  /** Linked ranges: the kept ones cover exactly when none of them is reversed. */
  lemma LinkedCovers(cs: seq<Ctx>)
    requires |cs| > 0 && Linked(cs)
    ensures Covers(Kept(cs), cs[0].start, cs[|cs| - 1].end)
       <==> forall i :: 0 <= i < |cs| ==> cs[i].start <= cs[i].end
  {
    var from, to := cs[0].start, cs[|cs| - 1].end;
    if Covers(Kept(cs), from, to) {
      LinkedLength(cs);
      if |Kept(cs)| > 0 {
        LinkedLength(Kept(cs));
      }
      KeptLength(cs);
    }
    if forall i :: 0 <= i < |cs| ==> cs[i].start <= cs[i].end {
      KeptCovers(cs);
    }
  }

  // ---------- The whole cut ----------

  /** For every file and thread count: what remains in the array, if every search ends. */
  method SetAllOffsets(file: Bytes, s: Search, contexts: array<Ctx>) returns (kept: nat, returned: bool)
    requires contexts.Length > 0
    modifies contexts
    ensures returned <==> AllFound(file, contexts.Length, s)
    ensures returned ==> kept <= contexts.Length && contexts[..kept] == Kept(ContextsOf(file, contexts.Length, s))
  {
    kept := 0;
    returned := FindStarts(file, s, contexts);
    if returned {
      ghost var found := contexts[..];
      SetEnds(file, contexts);
      ContextsSet(file, s, found, contexts[..]);
      kept := Compact(contexts);
    }
  }

  lemma ContextsSet(file: Bytes, s: Search, found: seq<Ctx>, cs: seq<Ctx>)
    requires |found| == |cs| > 0 && AllFound(file, |cs|, s) && EndsSet(found, cs, |file|)
    requires forall i :: 0 <= i < |cs| ==> Found(file, |cs|, s, found[i], i)
    ensures cs == ContextsOf(file, |cs|, s)
  {
    forall i | 0 <= i < |cs| ensures cs[i] == ContextOf(file, |cs|, s, i) {
      assert Found(file, |cs|, s, found[i], i);
      if i + 1 < |cs| {
        assert Found(file, |cs|, s, found[i + 1], i + 1);
      }
    }
  }

  /**
   For every file, thread count, and answers of the system: the kept ranges lie one behind the
   other and cover the file from the first start exactly when no later share finds an earlier
   start.
   */
  lemma CoversIff(file: Bytes, threads: nat, s: Search)
    requires threads > 0 && AllFound(file, threads, s)
    ensures Covers(Kept(ContextsOf(file, threads, s)), StartAt(file, threads, s, 0).value, |file|)
       <==> InOrder(file, threads, s)
  {
    var cs := ContextsOf(file, threads, s);
    assert StartAt(file, threads, s, threads - 1).Some?;
    StartMatches(file, s, threads - 1, Share(file, threads, threads - 1));
    LinkedCovers(cs);
    if forall i :: 0 <= i < threads ==> cs[i].start <= cs[i].end {
      forall i, j | 0 <= i < j < threads && j == i + 1
        ensures StartAt(file, threads, s, i).value <= StartAt(file, threads, s, j).value
      {
        assert cs[i].start <= cs[i].end;
      }
    }
    if InOrder(file, threads, s) {
      forall i | 0 <= i < threads ensures cs[i].start <= cs[i].end {
        var j := i + 1;
        assert j < threads ==> StartAt(file, threads, s, i).value <= StartAt(file, threads, s, j).value;
      }
    }
  }

  /** In a file that begins with "From " each kept context is ready to be parsed from a "From " line on. */
  lemma KeptReady(file: Bytes, threads: nat, s: Search, i: nat)
    requires AllFound(file, threads, s) && NoFaults(s) && MatchAt(file, true, 0)
    requires i < |Kept(ContextsOf(file, threads, s))|
    ensures var c := Kept(ContextsOf(file, threads, s))[i];
      c.offset == c.start == c.fileOffset && MatchAt(file, c.start == 0, c.start)
  {
    var cs := ContextsOf(file, threads, s);
    var j := KeptFrom(cs, i);
    assert Kept(cs)[i].start == StartAt(file, threads, s, j).value;
    StartMatches(file, s, j, Share(file, threads, j));
    if Share(file, threads, j) == 0 {
      StartsAtZero(file, s, j);
    }
  }

  // ---------- Files that are always cut in order ----------

  /** The first read of every search brings a complete match, and the file begins with "From ". */
  ghost predicate WellCut(file: Bytes, threads: nat, s: Search) {
    && MatchAt(file, true, 0) && s.rounds > 0
    && forall i :: 0 <= i < threads ==> FirstReadFinds(file, threads, s, i)
  }

  ghost predicate FirstReadFinds(file: Bytes, threads: nat, s: Search, i: nat)
    requires i < threads
  {
    var o := Share(file, threads, i);
    s.reading(i, 0) >= 0 && FirstMatch(file, o == 0, Back(o), WindowEnd(file, s, i, 0, Back(o))).Some?
  }

  /** In a well-cut file a later share never finds an earlier start: the ranges cover the file. */
  lemma WellCutCovers(file: Bytes, threads: nat, s: Search)
    requires threads > 0 && WellCut(file, threads, s)
    ensures AllFound(file, threads, s)
    ensures Covers(Kept(ContextsOf(file, threads, s)), 0, |file|)
  {
    forall i | 0 <= i < threads ensures StartAt(file, threads, s, i).Some? {
      StartsOrdered(file, threads, s, i, i);
    }
    forall i, j | 0 <= i < j < threads && j == i + 1
      ensures StartAt(file, threads, s, i).value <= StartAt(file, threads, s, j).value
    {
      StartsOrdered(file, threads, s, i, j);
    }
    assert Share(file, threads, 0) == 0 && StartAt(file, threads, s, 0).Some?;
    StartsAtZero(file, s, 0);
    CoversIff(file, threads, s);
  }

  /** However much the two reads brought. */
  lemma StartsOrdered(file: Bytes, threads: nat, s: Search, i: nat, j: nat)
    requires WellCut(file, threads, s) && i <= j < threads
    ensures StartAt(file, threads, s, i).Some? && StartAt(file, threads, s, j).Some?
    ensures StartAt(file, threads, s, i).value <= StartAt(file, threads, s, j).value
  {
    var a, b := Share(file, threads, i), Share(file, threads, j);
    ShareOrdered(file, threads, i, j);
    assert FirstReadFinds(file, threads, s, i) && FirstReadFinds(file, threads, s, j);
    FirstMatchIs(file, a == 0, Back(a), WindowEnd(file, s, i, 0, Back(a)));
    FirstMatchIs(file, b == 0, Back(b), WindowEnd(file, s, j, 0, Back(b)));
  }

  // ---------- Files that are not ----------

  /** "From " lines at 50000 and at 150000, and perhaps at 350000. */
  function Sparse(late: bool, k: nat): byte {
    if k < 5 then FROM[k]
    else if k == 50000 || k == 150000 || (late && k == 350000) then LF
    else if 50001 <= k < 50006 then FROM[k - 50001]
    else if 150001 <= k < 150006 then FROM[k - 150001]
    else if late && 350001 <= k < 350006 then FROM[k - 350001]
    else 120
  }

  function SparseFile(late: bool): (file: Bytes)
    ensures |file| == 800000 && forall k :: 0 <= k < 800000 ==> file[k] == Sparse(late, k)
  {
    seq(800000, (k: nat) => Sparse(late, k))
  }

  lemma SparseMatches(late: bool, q: nat)
    ensures MatchAt(SparseFile(late), false, q) <==> q == 50000 || q == 150000 || (late && q == 350000)
    ensures MatchAt(SparseFile(late), true, 0)
  {
  }

  /** Full reads; but the first read of the fourth search brings 100 bytes if `short`. */
  function SparseSearch(short: bool): Search {
    Search((i, k) => if short && i == 3 && k == 0 then 100 else READ_SIZE, 2)
  }

  lemma SparseStart(late: bool, short: bool, i: nat, offset: nat, k: nat, p: nat)
    requires 0 < offset <= 800000 && k < 2 && (p == 50000 || p == 150000)
    requires WindowStart(offset, k) <= p <= WindowStart(offset, k) + 200000 && !(short && i == 3 && k == 0)
    requires p == 150000 ==> WindowStart(offset, k) > 50000
    requires WindowStart(offset, k) + READ_SIZE <= 800000
    requires k == 1 ==> WindowStart(offset, 0) > 150000 && (late ==> short && i == 3 && WindowStart(offset, 0) + 100 < 350000)
    ensures SearchBack(SparseFile(late), SparseSearch(short), i, offset, offset, 0) == Some(p)
  {
    var (file, s) := (SparseFile(late), SparseSearch(short));
    forall q: nat ensures MatchAt(file, false, q) <==> q == 50000 || q == 150000 || (late && q == 350000) {
      SparseMatches(late, q);
    }
    assert FirstIn(file, false, WindowStart(offset, k), WindowStart(offset, k) + READ_SIZE, p);
    if k == 1 {
      assert GoesOn(file, s, i, offset, 0);
    }
    assert EndsFirst(file, s, i, offset, k, p);
    SearchIff(file, s, i, offset, p);
  }

  /** Four contexts, of which the last finds an earlier start than the third. */
  lemma SparseStarts(late: bool)
    ensures var (file, s) := (SparseFile(late), SparseSearch(late));
      && StartAt(file, 4, s, 0) == Some(0) && StartAt(file, 4, s, 1) == Some(50000)
      && StartAt(file, 4, s, 2) == Some(150000) && StartAt(file, 4, s, 3) == Some(50000)
  {
    SparseMatches(late, 0);
    SparseStart(late, late, 1, 200000, 0, 50000);
    SparseStart(late, late, 2, 400000, 0, 150000);
    assert WindowStart(600000, 0) == 300000 && WindowStart(600000, 1) == 0;
    SparseStart(late, late, 3, 600000, 1, 50000);
    SparseZero(late);
  }

  lemma SparseZero(late: bool)
    ensures SearchBack(SparseFile(late), SparseSearch(late), 0, 0, 0, 0) == Some(0)
  {
    SparseMatches(late, 0);
  }

  /**
   The third range is reversed, and the kept ranges do not cover the file: with full reads,
   and in a file that full reads cut in order, after one short read.
   */
  lemma StartsOutOfOrder(late: bool)
    ensures var (file, s) := (SparseFile(late), SparseSearch(late));
      && AllFound(file, 4, s) && NoFaults(s)
      && StartAt(file, 4, s, 2) == Some(150000) && StartAt(file, 4, s, 3) == Some(50000)
      && !Covers(Kept(ContextsOf(file, 4, s)), 0, |file|)
  {
    SparseStarts(late);
    CoversIff(SparseFile(late), 4, SparseSearch(late));
  }

  /** With full reads only, the second of these files is well cut. */
  lemma LateIsWellCut()
    ensures WellCut(SparseFile(true), 4, SparseSearch(false))
  {
    var (file, s) := (SparseFile(true), SparseSearch(false));
    forall q: nat ensures MatchAt(file, false, q) <==> q == 50000 || q == 150000 || q == 350000 {
      SparseMatches(true, q);
    }
    forall i | 0 <= i < 4 ensures FirstReadFinds(file, 4, s, i) {
      var o := Share(file, 4, i);
      FirstMatchIs(file, o == 0, Back(o), WindowEnd(file, s, i, 0, Back(o)));
      assert MatchAt(file, o == 0, if i == 0 then 0 else if i == 1 then 50000 else if i == 2 then 150000 else 350000);
    }
  }
}
