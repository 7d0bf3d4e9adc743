/**
 What the tree needs of its comparison callback, and the plain list it must agree with.
 The callback is a strict partial order in which "neither below" counts as equal. Equality
 need not be transitive: the header comparison of CaseCmp is exactly such a callback.
 */
module KeyOrder {
  import opened Bytes

  type Compare = (Bytes, Bytes) -> int

  datatype Pair = Pair(key: Bytes, value: Bytes)

  /** Mentioned only to say when the laws below are to be instantiated. */
  ghost predicate Chain(a: Bytes, b: Bytes, c: Bytes) {
    true
  }

  /** `cmp` is a strict partial order, read off the sign of its result. */
  ghost predicate Coherent(cmp: Compare) {
    forall a, b, c {:trigger Chain(a, b, c)} ::
      && (cmp(a, b) < 0 <==> cmp(b, a) > 0)
      && (cmp(a, b) < 0 && cmp(b, c) < 0 ==> cmp(a, c) < 0)
  }

  lemma Antisymmetric(cmp: Compare, a: Bytes, b: Bytes)
    requires Coherent(cmp)
    ensures cmp(a, b) < 0 <==> cmp(b, a) > 0
    ensures cmp(a, b) == 0 <==> cmp(b, a) == 0
  {
    assert Chain(a, b, a) && Chain(b, a, b);
  }

  lemma Transitive(cmp: Compare, a: Bytes, b: Bytes, c: Bytes)
    requires Coherent(cmp) && cmp(a, b) < 0 && cmp(b, c) < 0
    ensures cmp(a, c) < 0
  {
    assert Chain(a, b, c);
  }

  ghost predicate Equal(cmp: Compare, a: Bytes, b: Bytes) {
    cmp(a, b) == 0
  }

  // ---------- The reference: a list that keeps the first of equal keys ----------

  ghost predicate Has(cmp: Compare, list: seq<Pair>, key: Bytes) {
    exists i :: 0 <= i < |list| && Equal(cmp, key, list[i].key)
  }

  /** Keep the pair only if its key is equal to no key kept before. */
  ghost function KeepFirst(cmp: Compare, list: seq<Pair>, p: Pair): seq<Pair> {
    if Has(cmp, list, p.key) then list else list + [p]
  }

  ghost function KeepAll(cmp: Compare, pairs: seq<Pair>): seq<Pair> {
    if |pairs| == 0 then []
    else KeepFirst(cmp, KeepAll(cmp, pairs[..|pairs| - 1]), pairs[|pairs| - 1])
  }

  /** What has been kept stays: a later pair never takes the place of an earlier one. */
  lemma {:induction false} KeptStays(cmp: Compare, pairs: seq<Pair>, i: nat)
    requires i <= |pairs|
    ensures KeepAll(cmp, pairs[..i]) <= KeepAll(cmp, pairs)
    decreases |pairs|
  {
    if i == |pairs| {
      assert pairs[..i] == pairs;
    } else {
      var before := pairs[..|pairs| - 1];
      assert before[..i] == pairs[..i];
      KeptStays(cmp, before, i);
    }
  }

  // ---------- Sorted lists ----------

  ghost predicate Sorted(cmp: Compare, s: seq<Pair>) {
    forall i, j :: 0 <= i < j < |s| ==> cmp(s[i].key, s[j].key) < 0
  }

  /** Every key of `s` lies strictly below `key`. */
  ghost predicate AllBelow(cmp: Compare, s: seq<Pair>, key: Bytes) {
    forall i :: 0 <= i < |s| ==> cmp(key, s[i].key) > 0
  }

  ghost predicate AllAbove(cmp: Compare, s: seq<Pair>, key: Bytes) {
    forall i :: 0 <= i < |s| ==> cmp(key, s[i].key) < 0
  }

  lemma SortedParts(cmp: Compare, a: seq<Pair>, b: seq<Pair>)
    requires Sorted(cmp, a + b)
    ensures Sorted(cmp, a) && Sorted(cmp, b)
    ensures forall i, j :: 0 <= i < |a| && 0 <= j < |b| ==> cmp(a[i].key, b[j].key) < 0
  {
    forall i, j | 0 <= i < j < |a| ensures cmp(a[i].key, a[j].key) < 0 {
      assert (a + b)[i] == a[i] && (a + b)[j] == a[j];
    }
    forall i, j | 0 <= i < j < |b| ensures cmp(b[i].key, b[j].key) < 0 {
      assert (a + b)[|a| + i] == b[i] && (a + b)[|a| + j] == b[j];
    }
    forall i, j | 0 <= i < |a| && 0 <= j < |b| ensures cmp(a[i].key, b[j].key) < 0 {
      assert (a + b)[i] == a[i] && (a + b)[|a| + j] == b[j];
    }
  }

  /** One comparison with a middle key settles everything on the far side of it. */
  lemma CompareSplits(cmp: Compare, a: seq<Pair>, p: Pair, b: seq<Pair>, key: Bytes)
    requires Coherent(cmp) && Sorted(cmp, a + [p] + b)
    ensures cmp(key, p.key) < 0 ==> AllAbove(cmp, [p] + b, key)
    ensures cmp(key, p.key) > 0 ==> AllBelow(cmp, a + [p], key)
  {
    assert a + [p] + b == a + ([p] + b);
    SortedParts(cmp, a, [p] + b);
    SortedParts(cmp, [p], b);
    if cmp(key, p.key) < 0 {
      forall i | 0 <= i < |[p] + b| ensures cmp(key, ([p] + b)[i].key) < 0 {
        if i > 0 {
          assert ([p] + b)[i] == b[i - 1] && cmp([p][0].key, b[i - 1].key) < 0;
          Transitive(cmp, key, p.key, b[i - 1].key);
        }
      }
    }
    if cmp(key, p.key) > 0 {
      forall i | 0 <= i < |a + [p]| ensures cmp(key, (a + [p])[i].key) > 0 {
        if i < |a| {
          assert ([p] + b)[0] == p && cmp(a[i].key, ([p] + b)[0].key) < 0;
          Antisymmetric(cmp, p.key, key);
          Transitive(cmp, a[i].key, p.key, key);
          Antisymmetric(cmp, a[i].key, key);
        }
      }
    }
  }

  /** A key above everything in `a` and below everything in `b` goes between them. */
  lemma SortedInsert(cmp: Compare, a: seq<Pair>, p: Pair, b: seq<Pair>)
    requires Coherent(cmp) && Sorted(cmp, a + b)
    requires AllBelow(cmp, a, p.key) && AllAbove(cmp, b, p.key)
    ensures Sorted(cmp, a + [p] + b)
  {
    SortedParts(cmp, a, b);
    var s := a + [p] + b;
    forall i, j | 0 <= i < j < |s| ensures cmp(s[i].key, s[j].key) < 0 {
      if i < |a| {
        assert s[i] == a[i] && cmp(p.key, a[i].key) > 0;
        Antisymmetric(cmp, a[i].key, p.key);
      }
      assert j > |a| ==> s[j] == b[j - |a| - 1];
      assert i > |a| ==> s[i] == b[i - |a| - 1];
    }
  }

  /** A list that is a rearrangement of `s` answers `Has` the way `s` does. */
  lemma HasOfPermutation(cmp: Compare, s: seq<Pair>, t: seq<Pair>, key: Bytes)
    requires multiset(s) == multiset(t)
    ensures Has(cmp, s, key) == Has(cmp, t, key)
  {
    HasByMember(cmp, s, t, key);
    HasByMember(cmp, t, s, key);
  }

  lemma HasByMember(cmp: Compare, s: seq<Pair>, t: seq<Pair>, key: Bytes)
    requires multiset(s) == multiset(t)
    ensures Has(cmp, s, key) ==> Has(cmp, t, key)
  {
    if Has(cmp, s, key) {
      var i :| 0 <= i < |s| && Equal(cmp, key, s[i].key);
      assert s[i] in multiset(s);
      assert s[i] in t;
      var j :| 0 <= j < |t| && t[j] == s[i];
      assert Equal(cmp, key, t[j].key);
    }
  }
}
