/**
 The comparison the header tree is built on (mboxBufCaseCmp, src/mbox-buf.c): strncasecmp
 over the shorter of the two lengths. Two keys are equal when one is a prefix of the other,
 ignoring case, so equality is not transitive; the tree is sound all the same.
 */
module HeaderOrder {
  import opened Bytes
  import opened KeyOrder

  /** `tolower` in the C locale. */
  function Lower(b: byte): byte {
    if 65 <= b <= 90 then b + 32 else b
  }

  /** strncasecmp(a, b, min(|a|, |b|)); it also stops where both have a NUL. */
  function CaseCmp(a: Bytes, b: Bytes): int {
    if |a| == 0 || |b| == 0 then 0
    else if Lower(a[0]) != Lower(b[0]) then Lower(a[0]) as int - Lower(b[0]) as int
    else if a[0] == NUL then 0
    else CaseCmp(a[1..], b[1..])
  }

  /** The same letter, perhaps in the other case; or the same byte. */
  predicate SameLetter(a: byte, b: byte) {
    a == b || (65 <= a <= 90 && b == a + 32) || (65 <= b <= 90 && a == b + 32)
  }

  /** Exactly those are made equal; capitals become small letters, every other byte stays. */
  lemma LowerIs(a: byte, b: byte)
    ensures Lower(a) == Lower(b) <==> SameLetter(a, b)
    ensures !(65 <= Lower(a) <= 90) && (!(65 <= a <= 90) ==> Lower(a) == a)
  {
  }

  /** Inside the shorter length the two first differ at `k`, ignoring case, and no NUL stands before. */
  ghost predicate DifferFirst(a: Bytes, b: Bytes, k: nat) {
    && k < |a| && k < |b| && !SameLetter(a[k], b[k])
    && forall j :: 0 <= j < k ==> SameLetter(a[j], b[j]) && a[j] != NUL
  }

  /** There the sign is decided: smaller letter, smaller key. */
  lemma {:induction false} CaseCmpAt(a: Bytes, b: Bytes, k: nat)
    requires DifferFirst(a, b, k)
    ensures CaseCmp(a, b) == Lower(a[k]) as int - Lower(b[k]) as int != 0
    decreases k
  {
    LowerIs(a[0], b[0]);
    if k > 0 {
      assert SameLetter(a[0], b[0]) && a[0] != NUL;
      assert forall j :: 0 <= j < k - 1 ==> a[1..][j] == a[j + 1] && b[1..][j] == b[j + 1];
      CaseCmpAt(a[1..], b[1..], k - 1);
    }
  }

  /** If there is no such place, the keys are equal. */
  lemma {:induction false} CaseCmpNowhere(a: Bytes, b: Bytes)
    ensures CaseCmp(a, b) != 0 ==> exists k: nat :: DifferFirst(a, b, k)
    decreases |a|
  {
    if |a| > 0 && |b| > 0 {
      LowerIs(a[0], b[0]);
      if !SameLetter(a[0], b[0]) {
        assert DifferFirst(a, b, 0);
      } else if a[0] != NUL && CaseCmp(a, b) != 0 {
        CaseCmpNowhere(a[1..], b[1..]);
        var k: nat :| DifferFirst(a[1..], b[1..], k);
        DifferLater(a, b, k);
      }
    }
  }

  lemma DifferLater(a: Bytes, b: Bytes, k: nat)
    requires |a| > 0 && |b| > 0 && SameLetter(a[0], b[0]) && a[0] != NUL && DifferFirst(a[1..], b[1..], k)
    ensures DifferFirst(a, b, k + 1)
  {
    forall j | 0 < j <= k ensures SameLetter(a[j], b[j]) && a[j] != NUL {
      assert a[1..][j - 1] == a[j] && b[1..][j - 1] == b[j];
    }
  }

  /** Which of two keys is smaller: the one with the smaller letter at the first place where they differ. */
  lemma CaseCmpSign(a: Bytes, b: Bytes)
    ensures CaseCmp(a, b) < 0 <==> exists k: nat :: DifferFirst(a, b, k) && Lower(a[k]) < Lower(b[k])
  {
    CaseCmpNowhere(a, b);
    forall k: nat | DifferFirst(a, b, k) ensures CaseCmp(a, b) == Lower(a[k]) as int - Lower(b[k]) as int {
      CaseCmpAt(a, b, k);
    }
    if CaseCmp(a, b) < 0 {
      var k: nat :| DifferFirst(a, b, k);
      assert Lower(a[k]) < Lower(b[k]);
    }
  }

  /** The same key, with letters in either case. */
  ghost predicate SameName(a: Bytes, b: Bytes) {
    |a| == |b| && forall k :: 0 <= k < |a| ==> SameLetter(a[k], b[k])
  }

  /** The case of the letters makes no difference to any comparison. */
  lemma {:induction false} AnyCase(a: Bytes, b: Bytes, c: Bytes)
    requires SameName(a, b)
    ensures CaseCmp(a, c) == CaseCmp(b, c)
    decreases |a|
  {
    if |a| > 0 && |c| > 0 {
      assert SameLetter(a[0], b[0]);
      LowerIs(a[0], b[0]);
      forall k | 0 <= k < |a[1..]| ensures SameLetter(a[1..][k], b[1..][k]) {
        assert SameLetter(a[k + 1], b[k + 1]);
      }
      AnyCase(a[1..], b[1..], c[1..]);
    }
  }

  /** The part of a key the comparison can see: lower case, up to and including a first NUL. */
  function Folded(a: Bytes): Bytes {
    if |a| == 0 then []
    else if a[0] == NUL then [NUL]
    else [Lower(a[0])] + Folded(a[1..])
  }

  ghost predicate IsPrefix(a: Bytes, b: Bytes) {
    Folded(a) <= Folded(b)
  }

  ghost predicate IsProperPrefix(a: Bytes, b: Bytes) {
    Folded(a) < Folded(b)
  }

  lemma ConsPrefix(x: byte, a: Bytes, y: byte, b: Bytes)
    ensures [x] + a <= [y] + b <==> x == y && a <= b
    ensures [x] + a < [y] + b <==> x == y && a < b
  {
    if [x] + a <= [y] + b {
      assert ([x] + a)[0] == ([y] + b)[0];
      assert ([x] + a)[1..] <= ([y] + b)[1..];
      assert ([x] + a)[1..] == a && ([y] + b)[1..] == b;
    }
  }

  /** Equal means: one key is a case-insensitive prefix of the other. */
  lemma {:induction false} EqualMeansPrefix(a: Bytes, b: Bytes)
    ensures CaseCmp(a, b) == 0 <==> IsPrefix(a, b) || IsPrefix(b, a)
    decreases |a|
  {
    if |a| > 0 && |b| > 0 {
      if a[0] != NUL && b[0] != NUL {
        ConsPrefix(Lower(a[0]), Folded(a[1..]), Lower(b[0]), Folded(b[1..]));
        ConsPrefix(Lower(b[0]), Folded(b[1..]), Lower(a[0]), Folded(a[1..]));
        EqualMeansPrefix(a[1..], b[1..]);
      } else {
        assert Folded(a)[0] == Lower(a[0]) && Folded(b)[0] == Lower(b[0]);
      }
    }
  }

  lemma {:induction false} CaseCmpFlips(a: Bytes, b: Bytes)
    ensures CaseCmp(a, b) == -CaseCmp(b, a)
    decreases |a|
  {
    if |a| > 0 && |b| > 0 {
      CaseCmpFlips(a[1..], b[1..]);
    }
  }

  lemma {:induction false} CaseCmpTransitive(a: Bytes, b: Bytes, c: Bytes)
    requires CaseCmp(a, b) < 0 && CaseCmp(b, c) < 0
    ensures CaseCmp(a, c) < 0
    decreases |a|
  {
    if Lower(a[0]) == Lower(b[0]) && Lower(b[0]) == Lower(c[0]) {
      CaseCmpTransitive(a[1..], b[1..], c[1..]);
    }
  }

  /** What the tree asks of its callback holds of the header comparison, on all keys. */
  lemma CaseCmpCoherent()
    ensures Coherent(CaseCmp)
  {
    forall a, b, c
      ensures CaseCmp(a, b) < 0 <==> CaseCmp(b, a) > 0
      ensures CaseCmp(a, b) < 0 && CaseCmp(b, c) < 0 ==> CaseCmp(a, c) < 0
    {
      CaseCmpFlips(a, b);
      if CaseCmp(a, b) < 0 && CaseCmp(b, c) < 0 {
        CaseCmpTransitive(a, b, c);
      }
    }
  }

  /** Equality is not transitive: "a" and "b" are both equal to the empty key. */
  lemma EqualityNotTransitive()
    ensures CaseCmp([97], []) == 0 && CaseCmp([], [98]) == 0 && CaseCmp([97], [98]) != 0
  {
    assert Lower(97) != Lower(98);
  }

  // ---------- What a sequence of inserts keeps ----------

  ghost predicate PrefixFree(list: seq<Pair>) {
    forall i, j :: 0 <= i < |list| && 0 <= j < |list| && i != j ==> !IsPrefix(list[i].key, list[j].key)
  }

  /** However many pairs are inserted, no kept key is a prefix of another kept key. */
  lemma {:induction false} KeptPrefixFree(pairs: seq<Pair>)
    ensures PrefixFree(KeepAll(CaseCmp, pairs))
    decreases |pairs|
  {
    if |pairs| > 0 {
      var (before, p) := (KeepAll(CaseCmp, pairs[..|pairs| - 1]), pairs[|pairs| - 1]);
      KeptPrefixFree(pairs[..|pairs| - 1]);
      forall i | 0 <= i < |before|
        ensures CaseCmp(p.key, before[i].key) != 0 ==>
          !IsPrefix(p.key, before[i].key) && !IsPrefix(before[i].key, p.key)
      {
        EqualMeansPrefix(p.key, before[i].key);
      }
      if !Has(CaseCmp, before, p.key) {
        assert forall i :: 0 <= i < |before| ==> !Equal(CaseCmp, p.key, before[i].key);
      }
    }
  }

  /** On a prefix-free list the comparison is a strict total order. */
  lemma TotalOnPrefixFree(list: seq<Pair>, i: nat, j: nat, k: nat)
    requires PrefixFree(list) && i < |list| && j < |list| && k < |list|
    ensures i != j ==> CaseCmp(list[i].key, list[j].key) < 0 || CaseCmp(list[j].key, list[i].key) < 0
    ensures !(CaseCmp(list[i].key, list[j].key) < 0 && CaseCmp(list[j].key, list[i].key) < 0)
    ensures CaseCmp(list[i].key, list[j].key) < 0 && CaseCmp(list[j].key, list[k].key) < 0
        ==> CaseCmp(list[i].key, list[k].key) < 0
  {
    EqualMeansPrefix(list[i].key, list[j].key);
    CaseCmpFlips(list[i].key, list[j].key);
    if CaseCmp(list[i].key, list[j].key) < 0 && CaseCmp(list[j].key, list[k].key) < 0 {
      CaseCmpTransitive(list[i].key, list[j].key, list[k].key);
    }
  }

  lemma PrefixesCompare(a: Bytes, b: Bytes, c: Bytes)
    ensures a <= c && b <= c ==> a <= b || b <= a
    ensures a <= b && b <= c ==> a <= c
  {
    if a <= c && b <= c {
      assert a == c[..|a|] && b == c[..|b|];
    }
  }

  /** Two kept keys both answer a query exactly when the query is a proper prefix of both. */
  lemma AmbiguousQuery(list: seq<Pair>, i: nat, j: nat, query: Bytes)
    requires PrefixFree(list) && i < |list| && j < |list| && i != j
    ensures CaseCmp(query, list[i].key) == 0 && CaseCmp(query, list[j].key) == 0
       <==> IsProperPrefix(query, list[i].key) && IsProperPrefix(query, list[j].key)
  {
    var (q, a, b) := (Folded(query), Folded(list[i].key), Folded(list[j].key));
    EqualMeansPrefix(query, list[i].key);
    EqualMeansPrefix(query, list[j].key);
    assert !(a <= b) && !(b <= a);
    PrefixesCompare(a, b, q);
    PrefixesCompare(a, q, b);
    PrefixesCompare(b, q, a);
  }

  /** The query is a proper prefix of two kept keys. */
  ghost predicate Ambiguous(list: seq<Pair>, query: Bytes) {
    exists i, j :: 0 <= i < |list| && 0 <= j < |list| && i != j &&
      IsProperPrefix(query, list[i].key) && IsProperPrefix(query, list[j].key)
  }

  /** So the answer to any other query does not depend on the shape of the tree. */
  lemma AnswerIndependentOfShape(list: seq<Pair>, query: Bytes, p: Pair, p': Pair)
    requires PrefixFree(list) && p in list && p' in list
    requires CaseCmp(query, p.key) == 0 && CaseCmp(query, p'.key) == 0
    requires !Ambiguous(list, query)
    ensures p == p'
  {
    var i :| 0 <= i < |list| && list[i] == p;
    var j :| 0 <= j < |list| && list[j] == p';
    if i != j {
      AmbiguousQuery(list, i, j, query);
    }
  }
}
