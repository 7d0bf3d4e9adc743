/** The header parser (mboxParseEmailHeaders, src/mbox-parser.c), filling the header tree. */
module Headers {
  import opened Bytes
  import opened KeyOrder
  import opened HeaderOrder
  import opened HeaderFormat
  import opened RbShape
  import opened RbHeap

  lemma StripStep(mem: Bytes, start: nat, o: nat)
    requires start <= o < |mem|
    ensures var s, t, b := mem[start..o], mem[start..o + 1], mem[o];
      && Strip(t) == (if b == CR || b == TAB then Strip(s) else Strip(s) + [b])
      && DropCR(t) == (if b == CR then DropCR(s) else DropCR(s) + [b])
  {
    var t := mem[start..o + 1];
    assert t[..|t| - 1] == mem[start..o];
  }

  lemma AppendJoins(acc: Bytes, s: Bytes, b: byte)
    ensures acc + s + [b] == acc + (s + [b])
  {
  }

  /** One more byte of a line: what is kept of it goes behind what was read already. */
  lemma LineStep(mem: Bytes, start: nat, o: nat, acc: Bytes, value: Bytes)
    requires start <= o < |mem| && mem[o] != LF && value == acc + Strip(mem[start..o])
    ensures (if mem[o] == CR || mem[o] == TAB then value else value + [mem[o]]) == acc + Strip(mem[start..o + 1])
    ensures Find(mem, o, LF) == Find(mem, o + 1, LF)
  {
    StripStep(mem, start, o);
    AppendJoins(acc, Strip(mem[start..o]), mem[o]);
  }

  /** Copies one line of a value behind what was read already. */
  method ReadLine(mem: Bytes, start: nat, acc: Bytes) returns (value: Bytes, o: nat)
    requires start <= |mem|
    ensures o == Find(mem, start, LF) && value == acc + Strip(mem[start..o])
  {
    value, o := acc, start;
    while o < |mem| && mem[o] != LF
      invariant start <= o <= |mem| && value == acc + Strip(mem[start..o])
      invariant Find(mem, start, LF) == Find(mem, o, LF)
    {
      LineStep(mem, start, o, acc, value);
      if mem[o] != CR && mem[o] != TAB {
        value := value + [mem[o]];
      }
      o := o + 1;
    }
  }

  /** Copies a value, going on as long as the next line starts with a blank. */
  method ReadValue(mem: Bytes, start: nat) returns (ok: bool, value: Bytes, next: nat)
    requires start <= |mem|
    ensures ValueFrom(mem, start, []) == if ok then Some((value, next)) else None
  {
    value, next := [], start;
    while true
      invariant next <= |mem|
      invariant ValueFrom(mem, start, []) == ValueFrom(mem, next, value)
      decreases |mem| - next
    {
      var o;
      value, o := ReadLine(mem, next, value);
      if o == |mem| || o + 1 == |mem| {
        return false, value, o;
      }
      next := o + 1;
      if !IsFold(mem[next]) {
        return true, value, next;
      }
    }
  }

  /** The bytes of a From line, without CR. */
  method ReadFromLine(mem: Bytes, start: nat) returns (key: Bytes, o: nat)
    requires start <= |mem|
    ensures o == Find(mem, start, LF) && key == DropCR(mem[start..o])
  {
    key, o := [], start;
    while o < |mem| && mem[o] != LF
      invariant start <= o <= |mem| && key == DropCR(mem[start..o])
      invariant Find(mem, start, LF) == Find(mem, o, LF)
    {
      StripStep(mem, start, o);
      if mem[o] != CR {
        key := key + [mem[o]];
      }
      o := o + 1;
    }
  }

  /** Copies a key behind what is left over from a From line. */
  method ReadKey(mem: Bytes, start: nat, before: Bytes) returns (key: Bytes, o: nat)
    requires start <= |mem|
    ensures o == Find(mem, start, COLON) && key == before + mem[start..o]
  {
    key, o := before, start;
    while o < |mem| && mem[o] != COLON
      invariant start <= o <= |mem| && key == before + mem[start..o]
      invariant Find(mem, start, COLON) == Find(mem, o, COLON)
    {
      key := key + [mem[o]];
      o := o + 1;
    }
  }

  ghost predicate Holds(headers: RbTree, pairs: seq<Pair>)
    reads headers, headers.repr, headers.sentinel
  {
    headers.Valid() && headers.keycmp == CaseCmp && headers.kept == KeepAll(CaseCmp, pairs)
  }

  /**
   Two trees of the same pairs, however they came by them, give the same answer to a query
   that is not a proper prefix of two kept keys.
   */
  method AskBoth(t: RbTree, u: RbTree, query: Bytes, ghost ps: seq<Pair>, ghost qs: seq<Pair>)
      returns (a: Option<Bytes>, b: Option<Bytes>)
    requires Holds(t, ps) && Holds(u, qs) && multiset(t.kept) == multiset(u.kept)
    requires !Ambiguous(t.kept, query)
    ensures a == b
    ensures a.Some? <==> exists p :: p in t.kept && CaseCmp(query, p.key) == 0
  {
    a := t.Get(query);
    b := u.Get(query);
    OneAnswer(ps, t.kept, u.kept, query, a, b);
  }

  ghost predicate Answers(list: seq<Pair>, query: Bytes, a: Option<Bytes>) {
    && (a.Some? <==> KeyOrder.Has(CaseCmp, list, query))
    && (a.Some? ==> exists p :: p in list && Equal(CaseCmp, query, p.key) && p.value == a.value)
  }

  /** A header is found under its name in any case of the letters: the answer is the same. */
  method AskAnyCase(t: RbTree, query: Bytes, other: Bytes, ghost ps: seq<Pair>) returns (a: Option<Bytes>, b: Option<Bytes>)
    requires Holds(t, ps) && SameName(query, other) && !Ambiguous(t.kept, query)
    ensures a == b
    ensures a.Some? <==> exists p :: p in t.kept && CaseCmp(query, p.key) == 0
  {
    a := t.Get(query);
    b := t.Get(other);
    AnyCaseAnswers(t.kept, query, other, b);
    OneAnswer(ps, t.kept, t.kept, query, a, b);
  }

  lemma AnyCaseAnswers(list: seq<Pair>, query: Bytes, other: Bytes, b: Option<Bytes>)
    requires SameName(query, other) && Answers(list, other, b)
    ensures Answers(list, query, b)
  {
    forall key ensures Equal(CaseCmp, query, key) <==> Equal(CaseCmp, other, key) {
      AnyCase(query, other, key);
    }
  }

  lemma OneAnswer(ps: seq<Pair>, s: seq<Pair>, t: seq<Pair>, query: Bytes, a: Option<Bytes>, b: Option<Bytes>)
    requires s == KeepAll(CaseCmp, ps) && multiset(s) == multiset(t) && !Ambiguous(s, query)
    requires Answers(s, query, a) && Answers(t, query, b)
    ensures a == b
    ensures a.Some? <==> exists p :: p in s && CaseCmp(query, p.key) == 0
  {
    KeptPrefixFree(ps);
    HasOfPermutation(CaseCmp, s, t, query);
    if a.Some? {
      var p :| p in s && Equal(CaseCmp, query, p.key) && p.value == a.value;
      var q :| q in t && Equal(CaseCmp, query, q.key) && q.value == b.value;
      assert q in multiset(t);
      AnswerIndependentOfShape(s, query, p, q);
    } else {
      forall p | p in s ensures CaseCmp(query, p.key) != 0 {
        var i :| 0 <= i < |s| && s[i] == p;
        assert !Equal(CaseCmp, query, s[i].key);
      }
    }
  }

  method Store(headers: RbTree, key: Bytes, value: Bytes, ghost pairs: seq<Pair>)
    requires Holds(headers, pairs)
    modifies headers, headers.repr
    ensures Holds(headers, pairs + [Pair(key, value)])
    ensures forall n <- headers.repr :: n in old(headers.repr) || fresh(n)
  {
    headers.Insert(key, value);
    assert (pairs + [Pair(key, value)])[..|pairs|] == pairs;
  }

  /** A From line, if there is one, is stored; its bytes stay in the key. */
  method ReadFromPart(mem: Bytes, start: nat, headers: RbTree, ghost pairs: seq<Pair>)
      returns (ok: bool, key: Bytes, next: nat)
    requires start <= |mem| && Holds(headers, pairs)
    modifies headers, headers.repr
    ensures ok <==> FromPart(mem, start).Some?
    ensures ok ==> FromPart(mem, start).value.0 == key && FromPart(mem, start).value.2 == next
    ensures ok ==> Holds(headers, pairs + FromPart(mem, start).value.1)
    ensures forall n <- headers.repr :: n in old(headers.repr) || fresh(n)
  {
    key, next := [], start;
    var k := FromMatch(mem, start, 0);
    if k < 5 {
      assert pairs + [] == pairs;
      return start + k < |mem|, key, next;
    }
    key, next := ReadFromLine(mem, start);
    if next == |mem| {
      return false, key, next;
    }
    Store(headers, FROM_LINE_KEY, key, pairs);
    return true, key, next + 1;
  }

  lemma PairsAssociate(a: seq<Pair>, b: seq<Pair>, p: Pair)
    ensures a + b + [p] == a + (b + [p])
  {
  }

  /** One turn of the main loop. */
  method ReadHeader(dec: Decoder, mem: Bytes, start: nat, headers: RbTree, ghost pairs: seq<Pair>)
      returns (ok: bool, next: nat)
    requires start <= |mem| && Holds(headers, pairs)
    modifies headers, headers.repr
    ensures ok <==> OneHeader(dec, mem, start).Scanned?
    ensures ok ==> next == OneHeader(dec, mem, start).next && Holds(headers, pairs + OneHeader(dec, mem, start).pairs)
    ensures forall n <- headers.repr :: n in old(headers.repr) || fresh(n)
  {
    var before, key, value;
    ok, before, next := ReadFromPart(mem, start, headers, pairs);
    if !ok {
      return;
    }
    ghost var extra := FromPart(mem, start).value.1;
    assert OneHeader(dec, mem, start) == HeaderAfter(dec, mem, before, extra, next);
    ok, key, value, next := ReadPair(dec, mem, next, before, extra);
    if ok {
      PairsAssociate(pairs, extra, Pair(key, value));
      Store(headers, key, value, pairs + extra);
    }
  }

  /** A key and its value; fails where C leaves the buffer. */
  method ReadPair(dec: Decoder, mem: Bytes, start: nat, before: Bytes, ghost pairs: seq<Pair>)
      returns (ok: bool, key: Bytes, value: Bytes, next: nat)
    requires start <= |mem|
    ensures ok <==> HeaderAfter(dec, mem, before, pairs, start).Scanned?
    ensures ok ==> HeaderAfter(dec, mem, before, pairs, start) == Scanned(pairs + [Pair(key, value)], next)
  {
    value, next := [], start;
    var c;
    key, c := ReadKey(mem, start, before);
    if c + 2 > |mem| {
      return false, key, value, next;
    }
    ok, value, next := ReadValue(mem, c + 2);
    if ok && IsMimeEncoded(value) {
      value := dec(value);
    }
  }

  method SkipLineEnds(mem: Bytes, len: nat, start: nat) returns (o: nat)
    requires len < |mem|
    ensures o == SkipLines(mem, len, start)
  {
    o := start;
    while o <= len && IsLine(mem[o])
      invariant SkipLines(mem, len, start) == SkipLines(mem, len, o)
      decreases len + 1 - o
    {
      o := o + 1;
    }
  }

  /**
   Parses the headers of a message into a new tree: exactly the pairs of the functional form,
   under the rule that the first of equal keys wins. `ok` is false where C would leave the
   buffer.
   */
  method ParseEmailHeaders(dec: Decoder, mem: Bytes, len: nat, start: nat, sentinel: RbNode)
      returns (headers: RbTree, ok: bool, next: nat)
    requires len < |mem| && start <= |mem|
    modifies sentinel
    ensures fresh(headers) && headers.sentinel == sentinel
    ensures ok <==> ParseHeaders(dec, mem, len, start).Scanned?
    ensures ok ==> next == ParseHeaders(dec, mem, len, start).next
    ensures ok ==> Holds(headers, ParseHeaders(dec, mem, len, start).pairs)
  {
    CaseCmpCoherent();
    headers := new RbTree(CaseCmp, sentinel);
    next := start;
    while next < |mem| && IsLine(mem[next])
      invariant start <= next <= |mem| && SkipLead(mem, start) == SkipLead(mem, next)
      invariant Holds(headers, []) && fresh(headers) && fresh(headers.repr)
    {
      next := next + 1;
    }
    if next == |mem| {
      return headers, false, next;
    }
    ghost var pairs := [];
    while next < len
      invariant next <= |mem| && Holds(headers, pairs) && fresh(headers) && fresh(headers.repr)
      invariant headers.sentinel == sentinel
      invariant ParseHeaders(dec, mem, len, start) == ParseLoop(dec, mem, len, next, pairs)
      decreases |mem| - next
    {
      ghost var h := OneHeader(dec, mem, next);
      var more;
      more, next := ReadHeader(dec, mem, next, headers, pairs);
      if !more {
        return headers, false, next;
      }
      pairs := pairs + h.pairs;
      if next <= len && IsLine(mem[next]) {
        next := SkipLineEnds(mem, len, next);
        return headers, true, next;
      }
    }
    return headers, true, next;
  }
}
