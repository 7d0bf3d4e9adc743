/**
 Lists of messages (src/mbox-msg.c): the two comparators the list is sorted by, and the filter
 by sender.
 */
module MsgList {
  import opened Bytes
  import opened HeaderOrder
  import opened Kmp
  import opened RingList
  import opened RingSort

  /** The fields the comparators and the filter read. */
  datatype MsgLite = MsgLite(from: Option<Bytes>, unixTimestamp: int)

  // ---------- Sorting ----------

  /** A message without a date, marked by -1, compares as smaller on either side. */
  function CompareByDate(m1: MsgLite, m2: MsgLite): int {
    if m1.unixTimestamp == -1 || m2.unixTimestamp == -1 then -1
    else if m1.unixTimestamp < m2.unixTimestamp then -1
    else if m1.unixTimestamp > m2.unixTimestamp then 1
    else 0
  }

  function CompareByFrom(m1: MsgLite, m2: MsgLite): int {
    if m1.from.None? || m2.from.None? then -1 else CaseCmp(m1.from.value, m2.from.value)
  }

  /** The comparison by date is a preorder only where the undated cannot tie what is apart. */
  lemma ByDatePreorder(s: seq<MsgLite>)
    ensures TotalPreorder(CompareByDate, s) <==>
      || (forall m :: m in s ==> m.unixTimestamp != -1)
      || (forall m, n :: m in s && n in s && m.unixTimestamp != -1 && n.unixTimestamp != -1
            ==> m.unixTimestamp == n.unixTimestamp)
  {
    if TotalPreorder(CompareByDate, s) {
      forall u, m, n | u in s && m in s && n in s && u.unixTimestamp == -1
        && m.unixTimestamp != -1 && n.unixTimestamp != -1 ensures m.unixTimestamp == n.unixTimestamp
      {
        assert CompareByDate(m, u) <= 0 && CompareByDate(u, n) <= 0;
        assert CompareByDate(n, u) <= 0 && CompareByDate(u, m) <= 0;
        assert CompareByDate(m, n) <= 0 && CompareByDate(n, m) <= 0;
      }
    }
  }

  /** The sort needs no preorder: either comparator will do on every list. */
  lemma Comparators(s: seq<MsgLite>)
    ensures Sortable(CompareByDate, s)
    ensures Sortable(CompareByFrom, s)
  {
    forall x, p, y | x in s && p in s && y in s && CompareByFrom(x, p) <= 0 && CompareByFrom(y, p) > 0
      ensures CompareByFrom(x, y) <= 0
    {
      if x.from.Some? {
        var a, b, c := x.from.value, p.from.value, y.from.value;
        CaseCmpFlips(a, b);
        CaseCmpFlips(b, c);
        CaseCmpFlips(a, c);
        if CaseCmp(a, b) < 0 {
          CaseCmpTransitive(a, b, c);
        } else if CaseCmp(c, a) < 0 {
          CaseCmpTransitive(b, c, a);
        }
      }
    }
    forall p, y | p in s && y in s && CompareByFrom(y, p) > 0 ensures CompareByFrom(p, y) <= 0 {
      CaseCmpFlips(y.from.value, p.from.value);
    }
  }

  /** All dated messages come out in order, whatever undated ones stand between them. */
  method SortByDate(l: MboxList<MsgLite>)
    requires l.Valid()
    modifies l.ring`data
    ensures l.Valid() && multiset(l.Contents()) == multiset(old(l.Contents()))
    ensures forall i, j :: 0 <= i < j < l.len ==>
      var m, n := l.Contents()[i], l.Contents()[j];
      m.unixTimestamp == -1 || n.unixTimestamp == -1 || m.unixTimestamp <= n.unixTimestamp
  {
    Comparators(l.Contents());
    l.QSort(Some(CompareByDate));
    ghost var s := l.Contents();
    forall i, j | 0 <= i < j < l.len
      ensures s[i].unixTimestamp == -1 || s[j].unixTimestamp == -1 || s[i].unixTimestamp <= s[j].unixTimestamp
    {
      assert CompareByDate(s[i], s[j]) <= 0;
    }
  }

  /**
   No sender comes behind a greater one: of two messages with senders the earlier one has the
   smaller letter at the first place where the senders differ, ignoring case, if there is one
   inside the shorter length.
   */
  method SortByFrom(l: MboxList<MsgLite>)
    requires l.Valid()
    modifies l.ring`data
    ensures l.Valid() && multiset(l.Contents()) == multiset(old(l.Contents()))
    ensures forall i, j :: 0 <= i < j < l.len ==> InFront(l.Contents()[i], l.Contents()[j])
  {
    Comparators(l.Contents());
    l.QSort(Some(CompareByFrom));
    ghost var s := l.Contents();
    forall i, j | 0 <= i < j < l.len ensures InFront(s[i], s[j]) {
      assert CompareByFrom(s[i], s[j]) <= 0;
      ByFromMeans(s[i], s[j]);
    }
  }

  ghost predicate InFront(m: MsgLite, n: MsgLite) {
    m.from.Some? && n.from.Some? ==>
      var (a, b) := (m.from.value, n.from.value); forall k: nat :: DifferFirst(a, b, k) ==> Lower(a[k]) < Lower(b[k])
  }

  lemma ByFromMeans(m: MsgLite, n: MsgLite)
    requires CompareByFrom(m, n) <= 0
    ensures InFront(m, n)
  {
    if m.from.Some? && n.from.Some? {
      var a, b := m.from.value, n.from.value;
      forall k: nat | DifferFirst(a, b, k) ensures Lower(a[k]) < Lower(b[k]) {
        CaseCmpAt(a, b, k);
      }
    }
  }

  // ---------- Filtering ----------

  /** The sender stands somewhere in the visible part of the From header, ignoring case. */
  predicate HasSender(m: MsgLite, sender: Bytes) {
    m.from.Some? && exists i :: 0 <= i <= |m.from.value| && Occurs(LowerAll(Visible(m.from.value)), LowerAll(sender), i)
  }

  /** The case-insensitive search finds the sender. */
  predicate Hit(m: MsgLite, table: seq<nat>, sender: Bytes)
    requires |table| == |sender| && Falls(table)
  {
    m.from.Some? && CaseSearch(m.from.value, table, sender) != -1
  }

  function Filter<T>(s: seq<T>, p: T -> bool): seq<T> {
    if s == [] then [] else
      var last := s[|s| - 1];
      Filter(s[..|s| - 1], p) + if p(last) then [last] else []
  }

  function Reverse<T>(s: seq<T>): seq<T> {
    if s == [] then [] else [s[|s| - 1]] + Reverse(s[..|s| - 1])
  }

  lemma {:induction false} ReverseAt<T>(s: seq<T>, k: nat)
    requires k < |s|
    ensures |Reverse(s)| == |s| && Reverse(s)[k] == s[|s| - 1 - k]
  {
    if |s| > 1 {
      ReverseAt(s[..|s| - 1], if k > 0 then k - 1 else 0);
    }
  }

  /** A filtered list holds what passes, and keeps its order: what is in front stays in front. */
  lemma {:induction false} FilterIs<T>(s: seq<T>, t: seq<T>, p: T -> bool)
    ensures Filter(s + t, p) == Filter(s, p) + Filter(t, p)
    ensures forall x :: x in Filter(t, p) <==> x in t && p(x)
    decreases |t|
  {
    if t == [] {
      assert s + t == s;
    } else {
      var n := |t| - 1;
      assert (s + t)[..|s + t| - 1] == s + t[..n];
      FilterIs(s, t[..n], p);
    }
  }

  lemma {:induction false} FilterSame<T>(s: seq<T>, p: T -> bool, q: T -> bool)
    requires forall x :: x in s ==> p(x) == q(x)
    ensures Filter(s, p) == Filter(s, q)
  {
    if s != [] {
      FilterSame(s[..|s| - 1], p, q);
    }
  }

  /** The hits among the first `i` messages, last first. */
  function HitsUpTo(s: seq<MsgLite>, i: nat, table: seq<nat>, sender: Bytes): seq<MsgLite>
    requires i <= |s| && |table| == |sender| && Falls(table)
  {
    if i == 0 then []
    else (if Hit(s[i - 1], table, sender) then [s[i - 1]] else []) + HitsUpTo(s, i - 1, table, sender)
  }

  lemma {:induction false} HitsAreFiltered(s: seq<MsgLite>, i: nat, table: seq<nat>, sender: Bytes)
    requires i <= |s| && |table| == |sender| && Falls(table)
    ensures HitsUpTo(s, i, table, sender) == Reverse(Filter(s[..i], m => Hit(m, table, sender)))
  {
    if i > 0 {
      HitsAreFiltered(s, i - 1, table, sender);
      assert s[..i][..i - 1] == s[..i - 1];
      var kept := Filter(s[..i - 1], m => Hit(m, table, sender));
      assert (kept + [s[i - 1]])[..|kept|] == kept;
      assert kept + [] == kept;
    }
  }

  lemma HitMeans(m: MsgLite, table: seq<nat>, sender: Bytes)
    requires |table| == |sender| > 0 && IsTable(sender, table) && Falls(table)
    ensures Hit(m, table, sender) ==> HasSender(m, sender)
    ensures CaseSafe(sender) ==> (Hit(m, table, sender) <==> HasSender(m, sender))
  {
    if m.from.Some? {
      CaseSound(m.from.value, table, sender);
    }
  }

  /** The sender stands at the first place in the From header where its first letter does. */
  ghost predicate SenderFirst(m: MsgLite, sender: Bytes) {
    m.from.Some? && exists i: nat :: StandsFirst(LowerAll(Visible(m.from.value)), LowerAll(sender), i)
  }

  /** Safe or not: such a message is a hit. */
  lemma FirstIsHit(m: MsgLite, table: seq<nat>, sender: Bytes)
    requires |table| == |sender| > 0 && Falls(table) && SenderFirst(m, sender)
    ensures Hit(m, table, sender)
  {
    var i: nat :| StandsFirst(LowerAll(Visible(m.from.value)), LowerAll(sender), i);
    CaseFindsFirst(m.from.value, table, sender, i);
  }

  lemma {:induction false} FilterKeeps<T>(s: seq<T>, p: T -> bool, x: T)
    requires x in s && p(x)
    ensures x in Reverse(Filter(s, p))
  {
    var n := |s| - 1;
    var last := s[n];
    var kept := Filter(s[..n], p);
    if x in s[..n] {
      FilterKeeps(s[..n], p, x);
    }
    if p(last) {
      assert (kept + [last])[..|kept|] == kept;
    } else {
      assert kept + [] == kept;
    }
  }

  lemma HitsMean(s: seq<MsgLite>, table: seq<nat>, sender: Bytes)
    requires |table| == |sender| > 0 && IsTable(sender, table) && Falls(table) && CaseSafe(sender)
    ensures Filter(s, m => Hit(m, table, sender)) == Filter(s, m => HasSender(m, sender))
  {
    forall m | m in s ensures Hit(m, table, sender) <==> HasSender(m, sender) {
      HitMeans(m, table, sender);
    }
    FilterSame(s, m => Hit(m, table, sender), m => HasSender(m, sender));
  }

  /** One turn of the loop below: a hit goes to the front of the new list. */
  method KeepIfHit(msg: MsgLite, table: array<nat>, sender: Bytes, out: MboxList<MsgLite>)
    requires table.Length == |sender| > 0 && IsTable(sender, table[..]) && Falls(table[..])
    requires out.Valid() && msg.from.Some?
    modifies out, out.repr`next, out.repr`prev
    ensures out.Valid() && fresh(out.repr - old(out.repr))
    ensures out.Contents() == (if Hit(msg, table[..], sender) then [msg] else []) + old(out.Contents())
  {
    var at := ContainsCasePatternWithTable(msg.from.value, table, sender);
    if at != -1 {
      out.AddHead(msg);
    }
  }

  /** The walk around the ring. */
  method CollectHits(l: MboxList<MsgLite>, table: array<nat>, sender: Bytes, ghost entries: seq<nat>)
      returns (out: MboxList<MsgLite>)
    requires l.Valid() && l.len > 0 && forall m :: m in l.Contents() ==> m.from.Some?
    requires table[..] == entries && |entries| == |sender| > 0 && IsTable(sender, entries) && Falls(entries)
    ensures out.Valid() && fresh(out)
    ensures out.Contents() == Reverse(Filter(l.Contents(), m => Hit(m, entries, sender)))
  {
    out := new MboxList<MsgLite>();
    ghost var s, i, ring := l.Contents(), 0, l.ring;
    var n := l.root;
    var count := l.len;
    while count > 0
      invariant count == l.len - i && n == NodeAt(ring, i)
      invariant unchanged(l) && unchanged(ring)
      invariant out.Valid() && fresh(out) && fresh(out.repr)
      invariant out.Contents() == HitsUpTo(s, i, entries, sender)
    {
      Walk(ring, i);
      KeepIfHit(n.data, table, sender, out);
      n := n.next;
      count, i := count - 1, i + 1;
    }
    assert s[..i] == s;
    HitsAreFiltered(s, i, entries, sender);
  }

  /**
   The messages the search finds, last first. For a sender in which no two letters differ only
   by case, and for every other safe one, these are exactly the messages from that sender.
   */
  method FilterBySender(l: MboxList<MsgLite>, sender: Bytes)
      returns (filtered: Option<MboxList<MsgLite>>, ghost table: seq<nat>)
    requires l.Valid() && |sender| > 0 && NUL !in sender
    requires forall m :: m in l.Contents() ==> m.from.Some?
    ensures l.len == 0 ==> filtered == None
    ensures l.len > 0 ==> filtered.Some? && filtered.value.Valid() && fresh(filtered.value)
    ensures l.len > 0 ==> |table| == |sender| && IsTable(sender, table) && Falls(table)
    ensures l.len > 0 ==>
      filtered.value.Contents() == Reverse(Filter(l.Contents(), m => Hit(m, table, sender)))
    ensures l.len > 0 && CaseSafe(sender) ==>
      filtered.value.Contents() == Reverse(Filter(l.Contents(), m => HasSender(m, sender)))
    ensures forall m :: m in l.Contents() && SenderFirst(m, sender) ==> m in filtered.value.Contents()
  {
    if l.len == 0 {
      return None, [];
    }
    var entries, _ := ComputePrefixTable(sender);
    table := entries[..];
    TableFalls(sender, table);
    var out := CollectHits(l, entries, sender, table);
    filtered := Some(out);
    if CaseSafe(sender) {
      HitsMean(l.Contents(), table, sender);
    }
    forall m | m in l.Contents() && SenderFirst(m, sender) ensures m in out.Contents() {
      FirstIsHit(m, table, sender);
      FilterKeeps(l.Contents(), m => Hit(m, table, sender), m);
    }
  }
}
