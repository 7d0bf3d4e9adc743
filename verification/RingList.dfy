/**
 The circular doubly linked list (src/mbox-list.c): the links at both ends, and the quicksort
 that swaps data between the nodes and never touches a link.
 */
module RingList {
  import opened Bytes
  import opened RingSort

  class LNode<T> {
    var data: T
    var next: LNode?<T>
    var prev: LNode?<T>

    constructor (data: T)
      ensures this.data == data
    {
      this.data := data;
      next, prev := null, null;
    }
  }

  // ---------- Rings as sequences of nodes ----------

  ghost predicate Apart<T>(nodes: seq<LNode<T>>, i: nat, j: nat)
    requires i < |nodes| && j < |nodes|
  {
    nodes[i] != nodes[j]
  }

  ghost predicate Linked<T>(nodes: seq<LNode<T>>, i: nat)
    requires i + 1 < |nodes|
    reads nodes`next, nodes`prev
  {
    nodes[i].next == nodes[i + 1] && nodes[i + 1].prev == nodes[i]
  }

  /** Distinct nodes, each linked to the one behind it, and back. */
  ghost predicate Chain<T>(nodes: seq<LNode<T>>)
    reads nodes`next, nodes`prev
  {
    && (forall i: nat, j: nat :: i < j < |nodes| ==> Apart(nodes, i, j))
    && forall i: nat :: i + 1 < |nodes| ==> Linked(nodes, i)
  }

  /** A chain that closes. */
  ghost predicate Ring<T>(ring: seq<LNode<T>>)
    reads ring`next, ring`prev
  {
    && Chain(ring)
    && (|ring| > 0 ==> ring[|ring| - 1].next == ring[0] && ring[0].prev == ring[|ring| - 1])
  }

  function DataOf<T>(ring: seq<LNode<T>>): (s: seq<T>)
    reads ring
    ensures |s| == |ring|
  {
    seq(|ring|, i requires 0 <= i < |ring| reads ring => ring[i].data)
  }

  /** Two chains linked one behind the other are one. */
  lemma ChainJoins<T>(a: seq<LNode<T>>, b: seq<LNode<T>>)
    requires Chain(a) && Chain(b) && |a| > 0 && |b| > 0
    requires forall n :: n in a ==> n !in b
    requires a[|a| - 1].next == b[0] && b[0].prev == a[|a| - 1]
    ensures Chain(a + b) && DataOf(a + b) == DataOf(a) + DataOf(b)
  {
    forall i: nat, j: nat | i < j < |a + b| ensures Apart(a + b, i, j) {
      if i < |a| <= j {
        assert a[i] !in b && b[j - |a|] in b;
      } else {
        assert if j < |a| then Apart(a, i, j) else Apart(b, i - |a|, j - |a|);
      }
    }
    forall i: nat | i + 1 < |a + b| ensures Linked(a + b, i) {
      assert if i + 1 < |a| then Linked(a, i) else i < |a| || Linked(b, i - |a|);
    }
  }

  /** The two parts of a chain are chains. */
  lemma ChainParts<T>(a: seq<LNode<T>>, b: seq<LNode<T>>)
    requires Chain(a + b)
    ensures Chain(a) && Chain(b) && DataOf(a + b) == DataOf(a) + DataOf(b)
    ensures |a| > 0 && |b| > 0 ==> a[|a| - 1].next == b[0] && b[0].prev == a[|a| - 1]
    ensures forall n :: n in a ==> n !in b
  {
    var s := a + b;
    assert forall i: nat :: i < |a| ==> s[i] == a[i];
    assert forall i: nat :: i < |b| ==> s[|a| + i] == b[i];
    forall i: nat, j: nat | i < j < |a| ensures Apart(a, i, j) {
      assert Apart(s, i, j);
    }
    forall i: nat, j: nat | i < j < |b| ensures Apart(b, i, j) {
      assert Apart(s, |a| + i, |a| + j);
    }
    forall i: nat | i + 1 < |a| ensures Linked(a, i) {
      assert Linked(s, i);
    }
    forall i: nat | i + 1 < |b| ensures Linked(b, i) {
      assert Linked(s, |a| + i);
    }
    if |a| > 0 && |b| > 0 {
      assert Linked(s, |a| - 1);
    }
    forall n | n in a ensures n !in b {
      var i: nat :| i < |a| && a[i] == n;
      forall j: nat | j < |b| ensures b[j] != n {
        assert Apart(s, i, |a| + j);
      }
    }
  }

  /** Writes to the two outer links leave a chain a chain, and its data alone. */
  twostate lemma ChainKept<T>(nodes: seq<LNode<T>>)
    requires old(Chain(nodes))
    requires forall n :: n in nodes ==> n == nodes[|nodes| - 1] || n.next == old(n.next)
    requires forall n :: n in nodes ==> n == nodes[0] || n.prev == old(n.prev)
    requires forall n :: n in nodes ==> n.data == old(n.data)
    ensures Chain(nodes) && DataOf(nodes) == old(DataOf(nodes))
  {
    assert forall i: nat :: i < |nodes| ==> nodes[i] in nodes;
    forall i: nat | i + 1 < |nodes| ensures Linked(nodes, i) {
      assert old(Linked(nodes, i)) && Apart(nodes, i, |nodes| - 1) && Apart(nodes, 0, i + 1);
    }
    forall i: nat, j: nat | i < j < |nodes| ensures Apart(nodes, i, j) {
      assert Apart(nodes, i, j);
    }
  }

  // ---------- Links ----------

  /** Puts `n` between the tail and the head of a ring. */
  method Insert<T>(ghost ring: seq<LNode<T>>, head: LNode<T>, n: LNode<T>)
    requires Ring(ring) && |ring| > 0 && head == ring[0] && n !in ring
    modifies ring`next, ring`prev, n`next, n`prev
    ensures Ring([n] + ring) && Ring(ring + [n])
    ensures DataOf([n] + ring) == [n.data] + old(DataOf(ring))
    ensures DataOf(ring + [n]) == old(DataOf(ring)) + [n.data]
  {
    var tail := head.prev;
    n.next := head;
    n.prev := tail;
    tail.next := n;
    head.prev := n;
    ChainKept(ring);
    ChainJoins([n], ring);
    ChainJoins(ring, [n]);
  }

  /** Joins two rings into one. */
  method Splice<T>(ghost a: seq<LNode<T>>, ghost b: seq<LNode<T>>, head: LNode<T>, auxHead: LNode<T>)
    requires Ring(a) && |a| > 0 && head == a[0]
    requires Ring(b) && |b| > 0 && auxHead == b[0] && forall n :: n in a ==> n !in b
    modifies a`next, a`prev, b`next, b`prev
    ensures Ring(a + b) && DataOf(a + b) == old(DataOf(a)) + old(DataOf(b))
  {
    var tail := head.prev;
    var auxTail := auxHead.prev;
    auxHead.prev := tail;
    tail.next := auxHead;
    head.prev := auxTail;
    auxTail.next := head;
    assert a[0] !in b && a[|a| - 1] !in b;
    ChainKept(a);
    ChainKept(b);
    ChainJoins(a, b);
  }

  // ---------- Walking ----------

  /** The node `i` places from the first; one step past either end leads around. */
  ghost function NodeAt<T>(ring: seq<LNode<T>>, i: int): LNode<T>
    requires |ring| > 0 && -1 <= i <= |ring|
  {
    if i == -1 then ring[|ring| - 1] else if i == |ring| then ring[0] else ring[i]
  }

  lemma Steps<T>(ring: seq<LNode<T>>, i: int)
    requires Ring(ring) && 0 <= i < |ring|
    ensures ring[i].next == NodeAt(ring, i + 1) && ring[i].prev == NodeAt(ring, i - 1)
  {
    assert i + 1 < |ring| ==> Linked(ring, i);
    assert i > 0 ==> Linked(ring, i - 1);
  }

  /** One step of a walk from the root. */
  lemma Walk<T>(ring: seq<LNode<T>>, i: int)
    requires Ring(ring) && 0 <= i < |ring|
    ensures NodeAt(ring, i).data == DataOf(ring)[i] && DataOf(ring)[i] in DataOf(ring)
    ensures NodeAt(ring, i).next == NodeAt(ring, i + 1)
  {
    Steps(ring, i);
  }

  // ---------- Quicksort ----------

  /**
   The nodes from place `lo` to place `hi`, possibly none. The ends of an empty segment look
   like those of the whole ring; the flag `count`, set in every call but the first, tells the
   two apart.
   */
  ghost predicate IsSegment<T>(ring: seq<LNode<T>>, low: LNode<T>, high: LNode<T>, count: int, lo: int, hi: int) {
    && |ring| >= 2 && 0 <= lo <= hi + 1 <= |ring|
    && low == NodeAt(ring, lo) && high == NodeAt(ring, hi)
    && if count == 1 then hi - lo + 1 < |ring| else hi - lo + 1 == |ring|
  }

  /** The guard of the recursion holds exactly for segments with nothing to sort. */
  lemma GuardMeansSorted<T>(ring: seq<LNode<T>>, low: LNode<T>, high: LNode<T>, count: int, lo: int, hi: int)
    requires Ring(ring) && IsSegment(ring, low, high, count, lo, hi)
    ensures low == high || (count == 1 && low == high.next) <==> hi - lo + 1 <= 1
  {
    Steps(ring, if hi == -1 then |ring| - 1 else hi);
    assert Apart(ring, 0, |ring| - 1);
    assert lo < hi ==> Apart(ring, lo, hi);
    assert 0 < lo < hi ==> Apart(ring, 0, lo);
    assert 0 <= lo < hi + 1 < |ring| ==> Apart(ring, lo, hi + 1);
  }

  /** Either side of a node is a segment again, and never the whole ring. */
  lemma Sides<T>(ring: seq<LNode<T>>, low: LNode<T>, high: LNode<T>, count: int, lo: int, p: int, hi: int)
    requires Ring(ring) && IsSegment(ring, low, high, count, lo, hi) && lo <= p <= hi
    ensures ring[p].prev == NodeAt(ring, p - 1) && ring[p].next == NodeAt(ring, p + 1)
    ensures IsSegment(ring, low, NodeAt(ring, p - 1), 1, lo, p - 1)
    ensures IsSegment(ring, NodeAt(ring, p + 1), high, 1, p + 1, hi)
  {
    Steps(ring, p);
  }

  method SwapData<T>(ghost ring: seq<LNode<T>>, a: LNode<T>, b: LNode<T>, ghost i: int, ghost j: int)
    requires Ring(ring) && 0 <= i <= j < |ring| && a == ring[i] && b == ring[j]
    modifies ring`data
    ensures var d := old(DataOf(ring)); DataOf(ring) == Swapped(d, i, j)
  {
    var tmp := a.data;
    a.data := b.data;
    b.data := tmp;
    forall k | 0 <= k < |ring| && k != i && k != j ensures ring[k].data == old(ring[k].data) {
      assert if k < i then Apart(ring, k, i) else Apart(ring, i, k);
      assert if k < j then Apart(ring, k, j) else Apart(ring, j, k);
    }
  }

  /** The branch of the loop below: data at most equal to the pivot joins the front of the segment. */
  method TakeSmaller<T>(ghost ring: seq<LNode<T>>, low: LNode<T>, prev: LNode?<T>, current: LNode<T>, pivot: T,
                        compare: (T, T) -> int, ghost d0: seq<T>, ghost lo: int, ghost s: int, ghost c: int,
                        ghost hi: int)
    returns (r: LNode?<T>, ghost s': int)
    requires Ring(ring) && Scanned(compare, d0, DataOf(ring), pivot, lo, s, c, hi) && c < hi
    requires prev == NodeAt(ring, s) && current == ring[c]
    modifies ring`data
    ensures s <= s' <= c && r == NodeAt(ring, s')
    ensures Scanned(compare, d0, DataOf(ring), pivot, lo, s', c + 1, hi)
  {
    r, s' := prev, s;
    if compare(current.data, pivot) <= 0 {
      ScanSwap(compare, d0, DataOf(ring), pivot, lo, s, c, hi);
      NextNode(ring, s);
      r := if prev == null then low else prev.next;
      SwapData(ring, r, current, s + 1, c);
      s' := s + 1;
    } else {
      ScanSkip(compare, d0, DataOf(ring), pivot, lo, s, c, hi);
    }
  }

  /** Partitions the segment around the data of its last node, and returns that data's node. */
  method QSortPivot<T>(ghost ring: seq<LNode<T>>, low: LNode<T>, high: LNode<T>, compare: (T, T) -> int,
                       ghost lo: int, ghost hi: int)
    returns (r: LNode?<T>, ghost p: int)
    requires Ring(ring) && 0 <= lo < hi < |ring| && low == ring[lo] && high == ring[hi]
    modifies ring`data
    ensures lo <= p <= hi && r == ring[p]
    ensures Partitioned(compare, DataOf(ring), lo, p, hi + 1)
    ensures Permuted(old(DataOf(ring)), DataOf(ring), lo, hi + 1)
  {
    var pivot := high.data;
    Steps(ring, lo);
    var prev := low.prev;
    var current := low;
    ghost var d0, s, c := DataOf(ring), lo - 1, lo;
    while current != high
      invariant Scanned(compare, d0, DataOf(ring), pivot, lo, s, c, hi)
      invariant current == ring[c] && prev == NodeAt(ring, s)
      decreases hi - c
    {
      Steps(ring, c);
      prev, s := TakeSmaller(ring, low, prev, current, pivot, compare, d0, lo, s, c, hi);
      current := current.next;
      c := c + 1;
    }
    assert c < hi ==> Apart(ring, c, hi);
    ScanEnd(compare, d0, DataOf(ring), pivot, lo, s, hi);
    NextNode(ring, s);
    prev := if prev == null then low else prev.next;
    SwapData(ring, prev, current, s + 1, hi);
    return prev, s + 1;
  }

  lemma NextNode<T>(ring: seq<LNode<T>>, s: int)
    requires Ring(ring) && -1 <= s < |ring| - 1
    ensures NodeAt(ring, s).next == ring[s + 1]
  {
    Steps(ring, if s == -1 then |ring| - 1 else s);
  }

  /** Sorts the segment from `lo` to `hi` of the ring; no link changes. */
  method QSortHelper<T>(ghost ring: seq<LNode<T>>, low: LNode<T>, high: LNode<T>, count: int,
                        compare: (T, T) -> int, ghost lo: int, ghost hi: int)
    requires Ring(ring) && IsSegment(ring, low, high, count, lo, hi)
    modifies ring`data
    ensures Sorts(compare, old(DataOf(ring)), DataOf(ring), lo, hi + 1)
    decreases hi - lo + 1, 1
  {
    GuardMeansSorted(ring, low, high, count, lo, hi);
    if low == high || (count == 1 && low == high.next) {
      ShortSorts(compare, DataOf(ring), lo, hi + 1);
      return;
    }
    ghost var d0 := DataOf(ring);
    var pivot, p := QSortPivot(ring, low, high, compare, lo, hi);
    ghost var d1 := DataOf(ring);
    Sides(ring, low, high, count, lo, p, hi);
    QSortSides(ring, low, pivot, high, compare, lo, p, hi);
    SortsAfter(compare, d0, d1, DataOf(ring), lo, hi + 1);
  }

  /** The two recursive calls, on either side of the pivot. */
  method QSortSides<T>(ghost ring: seq<LNode<T>>, low: LNode<T>, pivot: LNode<T>, high: LNode<T>,
                       compare: (T, T) -> int, ghost lo: int, ghost p: int, ghost hi: int)
    requires Ring(ring) && |ring| >= 2 && 0 <= lo <= p <= hi < |ring| && pivot == ring[p]
    requires pivot.prev == NodeAt(ring, p - 1) && pivot.next == NodeAt(ring, p + 1)
    requires IsSegment(ring, low, NodeAt(ring, p - 1), 1, lo, p - 1)
    requires IsSegment(ring, NodeAt(ring, p + 1), high, 1, p + 1, hi)
    requires Partitioned(compare, DataOf(ring), lo, p, hi + 1)
    modifies ring`data
    ensures Sorts(compare, old(DataOf(ring)), DataOf(ring), lo, hi + 1)
    decreases hi - lo + 1, 0
  {
    ghost var d1 := DataOf(ring);
    QSortHelper(ring, low, pivot.prev, 1, compare, lo, p - 1);
    ghost var d2 := DataOf(ring);
    QSortHelper(ring, pivot.next, high, 1, compare, p + 1, hi);
    SidesSorted(compare, d1, d2, DataOf(ring), lo, p, hi + 1);
  }

  class MboxList<T> {
    var len: nat
    var root: LNode?<T>
    /** The nodes from the root on. */
    ghost var ring: seq<LNode<T>>
    /** At least those nodes, as a set. */
    ghost var repr: set<LNode<T>>

    ghost predicate Valid()
      reads this, ring
    {
      && (forall n :: n in ring ==> n in repr)
      && Ring(ring) && len == |ring|
      && root == if len == 0 then null else ring[0]
    }

    ghost function Contents(): (s: seq<T>)
      reads this, ring
      ensures |s| == |ring|
    {
      DataOf(ring)
    }

    constructor ()
      ensures Valid() && Contents() == [] && repr == {}
    {
      len, root, ring, repr := 0, null, [], {};
    }

    method AddHead(data: T)
      requires Valid()
      modifies this, repr`next, repr`prev
      ensures Valid() && Contents() == [data] + old(Contents())
      ensures ring == [ring[0]] + old(ring)
      ensures fresh(ring[0]) && repr == old(repr) + {ring[0]}
    {
      var n := new LNode(data);
      ghost var was := ring;
      ring, repr := [n] + ring, repr + {n};
      len := len + 1;
      if root == null {
        root := n;
        n.next, n.prev := n, n;
      } else {
        var head := root;
        root := n;
        Insert(was, head, n);
      }
    }

    method AddTail(data: T)
      requires Valid()
      modifies this, repr`next, repr`prev
      ensures Valid() && Contents() == old(Contents()) + [data]
      ensures ring == old(ring) + [ring[|ring| - 1]]
      ensures fresh(ring[|ring| - 1]) && repr == old(repr) + {ring[|ring| - 1]}
    {
      var n := new LNode(data);
      ghost var was := ring;
      ring, repr := ring + [n], repr + {n};
      len := len + 1;
      if root == null {
        root := n;
        n.next, n.prev := n, n;
      } else {
        Insert(was, root, n);
      }
    }

    method RemoveHead() returns (val: Option<T>)
      requires Valid()
      modifies this, repr`next, repr`prev
      ensures Valid()
      ensures repr == old(repr)
      ensures old(len) == 0 ==> val == None && ring == []
      ensures old(len) > 0 ==> val.Some? && old(Contents()) == [val.value] + Contents()
      ensures old(len) > 0 ==> old(ring) == [old(ring)[0]] + ring
    {
      if len == 0 || root == null {
        return None;
      }
      var head := root;
      val := Some(head.data);
      ghost var rest := ring[1..];
      assert ring == [head] + rest;
      ChainParts([head], rest);
      ring := rest;
      if len == 1 {
        root := null;
      } else {
        var tail := root.prev;
        root := root.next;
        tail.next := root;
        root.prev := tail;
      }
      len := len - 1;
      ChainKept(rest);
    }

    method RemoveTail() returns (val: Option<T>)
      requires Valid()
      modifies this, repr`next, repr`prev
      ensures Valid()
      ensures repr == old(repr)
      ensures old(len) == 0 ==> val == None && ring == []
      ensures old(len) > 0 ==> val.Some? && old(Contents()) == Contents() + [val.value]
      ensures old(len) > 0 ==> old(ring) == ring + [old(ring)[old(len) - 1]]
    {
      if len == 0 {
        return None;
      }
      var tail := root.prev;
      val := Some(tail.data);
      ghost var rest := ring[..len - 1];
      assert ring == rest + [tail];
      ChainParts(rest, [tail]);
      ring := rest;
      if len == 1 {
        root := null;
      } else {
        var newTail := tail.prev;
        root.prev := newTail;
        newTail.next := root;
      }
      len := len - 1;
      ChainKept(rest);
    }

    /** Takes over the nodes of `aux`, which is released. */
    method AppendListTail(aux: MboxList<T>)
      requires Valid() && aux.Valid() && aux != this
      requires forall n :: n in ring ==> n !in aux.ring
      modifies this, repr`next, repr`prev, aux, aux.repr`next, aux.repr`prev
      ensures Valid() && ring == old(ring) + old(aux.ring) && repr <= old(repr) + old(aux.repr)
      ensures Contents() == old(Contents()) + old(aux.Contents())
    {
      if aux.len == 0 {
        return;
      }
      if len == 0 {
        TakeRing(aux);
      } else {
        JoinRing(aux);
      }
      len := len + aux.len;
      aux.len := 0;
    }

    /** The first branch of AppendListTail: the root of `aux` becomes the root. */
    ghost predicate Taken(aux: MboxList<T>, nodes: seq<LNode<T>>, n: nat)
      reads this, ring
    {
      && (forall n :: n in ring ==> n in repr)
      && Ring(ring) && ring == nodes && |nodes| == n > 0 && root == nodes[0]
    }

    method TakeRing(aux: MboxList<T>)
      requires Valid() && len == 0 && aux.Valid() && aux.len > 0 && aux != this
      modifies this`ring, this`repr, this`root, aux`ring
      ensures Taken(aux, old(ring) + old(aux.ring), len + aux.len) && repr == old(repr) + aux.repr
      ensures Contents() == old(Contents()) + old(aux.Contents())
    {
      ghost var nodes := aux.ring;
      assert ring + nodes == nodes && Contents() + aux.Contents() == aux.Contents();
      ring, aux.ring, repr := nodes, [], repr + aux.repr;
      root := aux.root;
    }

    method JoinRing(aux: MboxList<T>)
      requires Valid() && len > 0 && aux.Valid() && aux.len > 0 && aux != this
      requires forall n :: n in ring ==> n !in aux.ring
      modifies this`ring, this`repr, repr`next, repr`prev, aux`ring, aux.repr`next, aux.repr`prev
      ensures Taken(aux, old(ring) + old(aux.ring), len + aux.len) && repr == old(repr) + aux.repr
      ensures Contents() == old(Contents()) + old(aux.Contents())
    {
      ghost var first, second := ring, aux.ring;
      ring, aux.ring, repr := first + second, [], repr + aux.repr;
      Splice(first, second, root, aux.root);
    }

    /** Sorts the list from the root on; nodes and links stay as they are. */
    method QSort(compare: Option<(T, T) -> int>)
      requires Valid()
      modifies ring`data
      ensures Valid() && multiset(Contents()) == multiset(old(Contents()))
      ensures compare == None ==> Contents() == old(Contents())
      ensures compare.Some? && Sortable(compare.value, old(Contents()))
        ==> Ordered(compare.value, Contents(), 0, len)
    {
      if len <= 1 || compare == None {
        return;
      }
      QSortHelper(ring, root, root.prev, 0, compare.value, 0, len - 1);
    }
  }
}
