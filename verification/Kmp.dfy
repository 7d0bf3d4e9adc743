/**
 Substring search after Knuth, Morris and Pratt (src/mbox-buf.c): the table of borders, the
 matcher, and the matcher that ignores case but goes by the case-sensitive table.

 The lemmas speak of a pattern `p`, which the table is made from, and of its image `f`, which
 is compared with the text: `f` is `p` itself, or `p` in lower case.
 */
module Kmp {
  import opened Bytes
  import opened HeaderOrder

  // ---------- Specification ----------

  /** The first `q` characters of `p` stand in `t` just before position `i`. */
  ghost predicate Ends(p: Bytes, q: nat, t: Bytes, i: nat)
    decreases q
  {
    && q <= |p| && q <= i <= |t|
    && (q == 0 || (p[q - 1] == t[i - 1] && Ends(p, q - 1, t, i - 1)))
  }

  /** `k` characters at both ends of `p[..m]` agree, and they are not all of it. */
  ghost predicate Border(p: Bytes, m: nat, k: nat) {
    k < m && Ends(p, k, p, m)
  }

  ghost predicate LongestBorder(p: Bytes, m: nat, k: nat) {
    Border(p, m, k) && forall j: nat :: Border(p, m, j) ==> j <= k
  }

  /** The first entries of the table: the longest border of each prefix of the pattern. */
  ghost predicate IsTable(p: Bytes, table: seq<nat>) {
    |table| <= |p| && forall m: nat :: m < |table| ==> LongestBorder(p, m + 1, table[m])
  }

  predicate Occurs(text: Bytes, p: Bytes, i: int) {
    0 <= i && i + |p| <= |text| && forall k: nat :: k < |p| ==> p[k] == text[i + k]
  }

  /** A search result: the first occurrence, or -1 if there is none. */
  ghost predicate IsFirst(text: Bytes, p: Bytes, r: int) {
    && (r == -1 || Occurs(text, p, r))
    && forall i :: Occurs(text, p, i) ==> 0 <= r <= i
  }

  /** The matchers stop at the first NUL. */
  function Visible(buf: Bytes): Bytes {
    buf[..NulFrom(buf, 0)]
  }

  /** The first NUL at or behind `i`, or the end of the buffer. */
  function NulFrom(buf: Bytes, i: nat): (r: nat)
    requires i <= |buf|
    ensures i <= r <= |buf| && (forall k: nat :: i <= k < r ==> buf[k] != NUL) && (r < |buf| ==> buf[r] == NUL)
    decreases |buf| - i
  {
    if i == |buf| || buf[i] == NUL then i else NulFrom(buf, i + 1)
  }

  function LowerAll(s: Bytes): (r: Bytes)
    ensures |r| == |s| && forall k: nat :: k < |s| ==> r[k] == Lower(s[k])
  {
    seq(|s|, k requires 0 <= k < |s| => Lower(s[k]))
  }

  /** Characters the pattern does not tell apart, its image does not either. */
  ghost predicate Image(p: Bytes, f: Bytes) {
    |p| == |f| && forall i: nat, j: nat :: i < |p| && j < |p| && p[i] == p[j] ==> f[i] == f[j]
  }

  /**
   What a table made from `p` must offer for a search by `f` to miss nothing: where a border
   of `f` leads on with another character than the match itself does, some border of `p`, at
   least as long, leads on with that character too.
   */
  ghost predicate Offers(p: Bytes, f: Bytes) {
    |p| == |f| && forall q: nat, b: nat :: q < |p| && Border(f, q, b) && f[b] != f[q] ==> Offered(p, f, q, b)
  }

  ghost predicate Offered(p: Bytes, f: Bytes, q: nat, b: nat)
    requires |p| == |f| && b < q < |p|
  {
    exists a: nat :: b <= a && Border(p, q, a) && f[a] == f[b]
  }

  // ---------- One character ----------

  /** The state after one more character: fall back along the table, then extend. */
  function Step(f: Bytes, table: seq<nat>, q: nat, c: byte): nat
    requires q < |f| && q <= |table| && Falls(table)
    decreases q
  {
    if q > 0 && f[q] != c then Step(f, table, table[q - 1], c)
    else if f[q] == c then q + 1 else 0
  }

  /** How many characters that step compares. */
  function StepCost(f: Bytes, table: seq<nat>, q: nat, c: byte): nat
    requires q < |f| && q <= |table| && Falls(table)
    decreases q
  {
    if q == 0 then 1 else if f[q] == c then 2 else 1 + StepCost(f, table, table[q - 1], c)
  }

  /** Every comparison but two is paid for by a shorter match. */
  lemma {:induction false} StepCostBound(f: Bytes, table: seq<nat>, q: nat, c: byte)
    requires q < |f| && q <= |table| && Falls(table)
    ensures StepCost(f, table, q, c) + Step(f, table, q, c) <= q + 3
    decreases q
  {
    if q > 0 && f[q] != c {
      StepCostBound(f, table, table[q - 1], c);
    }
  }

  ghost predicate Falls(table: seq<nat>) {
    forall m: nat :: m < |table| ==> table[m] <= m
  }

  lemma TableFalls(p: Bytes, table: seq<nat>)
    requires IsTable(p, table)
    ensures Falls(table)
  {
    forall m: nat | m < |table| ensures table[m] <= m {
      assert LongestBorder(p, m + 1, table[m]);
    }
  }

  lemma {:induction false} EndsMeans(p: Bytes, q: nat, t: Bytes, i: nat)
    ensures Ends(p, q, t, i) <==> q <= |p| && q <= i <= |t| && forall k: nat :: k < q ==> p[k] == t[i - q + k]
    decreases q
  {
    if 0 < q <= |p| && q <= i <= |t| {
      EndsMeans(p, q - 1, t, i - 1);
      if Ends(p, q - 1, t, i - 1) {
        forall k: nat | k < q && p[q - 1] == t[i - 1] ensures p[k] == t[i - q + k] {
          assert k < q - 1 ==> p[k] == t[i - 1 - (q - 1) + k];
        }
      } else {
        var k: nat :| k < q - 1 && p[k] != t[i - 1 - (q - 1) + k];
        assert p[k] != t[i - q + k];
      }
    }
  }

  /** Shorter matches inside a match are the borders of the match. */
  lemma {:induction false} EndsInside(p: Bytes, q: nat, b: nat, t: Bytes, i: nat)
    requires Ends(p, q, t, i) && b < q
    ensures Ends(p, b, t, i) <==> Border(p, q, b)
    decreases q
  {
    if b > 0 {
      EndsInside(p, q - 1, b - 1, t, i - 1);
    }
  }

  /**
   Where a step from `q` leads: one past the longest of `q` and its borders that `c` extends.
   The borders are those of `p`, the characters those of `f`.
   */
  lemma {:induction false} StepBest(p: Bytes, f: Bytes, table: seq<nat>, q: nat, c: byte)
    requires IsTable(p, table) && Falls(table) && |p| == |f| && q < |p| && q <= |table|
    ensures var r := Step(f, table, q, c);
      && r <= q + 1
      && (r > 0 ==> f[r - 1] == c && (r - 1 == q || Border(p, q, r - 1)))
      && (f[q] == c ==> r == q + 1)
      && forall b: nat :: Border(p, q, b) && f[b] == c ==> b < r
    decreases q
  {
    if q > 0 && f[q] != c {
      var next := table[q - 1];
      assert LongestBorder(p, q - 1 + 1, next);
      StepBest(p, f, table, next, c);
      var r := Step(f, table, next, c);
      forall b: nat | Border(p, q, b) ensures b == next || Border(p, next, b) {
        if b < next {
          EndsInside(p, next, b, p, q);
        }
      }
      if 0 < r <= next {
        EndsInside(p, next, r - 1, p, q);
      }
    }
  }

  /** The inner lines of the loops; `comparisons` counts the characters compared. */
  method Shift(pattern: Bytes, table: array<nat>, ghost n: nat, k: nat, c: byte)
      returns (q: nat, ghost comparisons: nat)
    requires n <= table.Length && Falls(table[..n]) && k <= n && k < |pattern|
    ensures q == Step(pattern, table[..n], k, c)
    ensures comparisons == StepCost(pattern, table[..n], k, c)
  {
    q, comparisons := k, 0;
    while q > 0 && pattern[q] != c
      invariant q <= k
      invariant comparisons + StepCost(pattern, table[..n], q, c) == StepCost(pattern, table[..n], k, c)
      invariant Step(pattern, table[..n], q, c) == Step(pattern, table[..n], k, c)
    {
      assert table[q - 1] == table[..n][q - 1];
      comparisons := comparisons + 1;
      q := table[q - 1];
    }
    comparisons := comparisons + if q > 0 then 2 else 1;
    if pattern[q] == c {
      q := q + 1;
    }
  }

  // ---------- The table ----------

  /** The borders one character on, from the longest border here. */
  lemma BorderStep(p: Bytes, i: nat, k: nat, j: nat)
    requires i < |p| && LongestBorder(p, i, k) && 0 < j <= i + 1
    ensures Border(p, i + 1, j) <==> p[j - 1] == p[i] && (j - 1 == k || Border(p, k, j - 1))
  {
    if j - 1 < k {
      EndsInside(p, k, j - 1, p, i);
    } else if j - 1 > k {
      assert !Border(p, i, j - 1);
    }
  }

  /** The next entry of the table, from the one before. */
  lemma NextEntry(p: Bytes, table: seq<nat>, k: nat)
    requires 0 < |table| < |p| && IsTable(p, table) && Falls(table) && k == table[|table| - 1]
    ensures LongestBorder(p, |table| + 1, Step(p, table, k, p[|table|]))
  {
    var i := |table|;
    assert LongestBorder(p, i - 1 + 1, k);
    StepBest(p, p, table, k, p[i]);
    var r, next := Step(p, table, k, p[i]), i + 1;
    if r > 0 {
      BorderStep(p, i, k, r);
    }
    forall j: nat | Border(p, next, j) ensures j <= r {
      if j > 0 {
        BorderStep(p, i, k, j);
      }
    }
  }

  /** How many characters are compared for the entries of a table. */
  function TableCost(p: Bytes, table: seq<nat>): nat
    requires |table| <= |p| && Falls(table)
  {
    var i := |table| - 1;
    if i <= 0 then 0 else TableCost(p, table[..i]) + StepCost(p, table[..i], table[i - 1], p[i])
  }

  lemma TableCostStep(p: Bytes, before: seq<nat>, k: nat, r: nat)
    requires 0 < |before| < |p| && Falls(before) && Falls(before + [r]) && k == before[|before| - 1]
    ensures TableCost(p, before + [r]) == TableCost(p, before) + StepCost(p, before, k, p[|before|])
  {
    assert (before + [r])[..|before|] == before;
  }

  /** Fills the table; `comparisons` counts the characters compared. */
  method ComputePrefixTable(pattern: Bytes) returns (table: array<nat>, ghost comparisons: nat)
    requires |pattern| > 0
    ensures fresh(table) && table.Length == |pattern| && IsTable(pattern, table[..])
    ensures Falls(table[..]) && comparisons == TableCost(pattern, table[..]) <= 3 * |pattern|
  {
    table := new nat[|pattern|];
    table[0] := 0;
    assert LongestBorder(pattern, 1, table[..1][0]);
    comparisons := 0;
    var k: nat := 0;
    var i := 1;
    while i < |pattern|
      invariant 1 <= i <= |pattern| && k == table[i - 1]
      invariant IsTable(pattern, table[..i])
      invariant Falls(table[..i]) && comparisons == TableCost(pattern, table[..i]) && comparisons + k <= 3 * i
    {
      ghost var before := table[..i];
      StepCostBound(pattern, before, k, pattern[i]);
      TableFalls(pattern, before);
      NextEntry(pattern, before, k);
      ghost var more, last;
      last := k;
      k, more := Shift(pattern, table, i, k, pattern[i]);
      comparisons := comparisons + more;
      table[i] := k;
      i := i + 1;
      assert table[..i] == before + [k];
      TableFalls(pattern, table[..i]);
      TableCostStep(pattern, before, last, k);
    }
    assert table[..] == table[..i];
  }

  // ---------- A whole search ----------

  /** The search from position `i` of the text in state `q`. */
  function Run(f: Bytes, table: seq<nat>, t: Bytes, i: nat, q: nat): int
    requires i <= |t| && q < |f| == |table| && Falls(table)
    decreases |t| - i
  {
    if i == |t| then -1 else
      var r := Step(f, table, q, t[i]);
      if r >= |f| then i + 1 - |f| else Run(f, table, t, i + 1, r)
  }

  /** How many characters the search compares. */
  function RunCost(f: Bytes, table: seq<nat>, t: Bytes, i: nat, q: nat): nat
    requires i <= |t| && q < |f| == |table| && Falls(table)
    decreases |t| - i
  {
    if i == |t| then 0 else
      var r := Step(f, table, q, t[i]);
      StepCost(f, table, q, t[i]) + if r >= |f| then 0 else RunCost(f, table, t, i + 1, r)
  }

  /** At most three for each character of the text. */
  lemma {:induction false} RunCostBound(f: Bytes, table: seq<nat>, t: Bytes, i: nat, q: nat)
    requires i <= |t| && q < |f| == |table| && Falls(table)
    ensures RunCost(f, table, t, i, q) <= q + 3 * (|t| - i)
    decreases |t| - i
  {
    if i < |t| {
      StepCostBound(f, table, q, t[i]);
      var r := Step(f, table, q, t[i]);
      if r < |f| {
        RunCostBound(f, table, t, i + 1, r);
      }
    }
  }

  lemma {:induction false} ImageEnds(p: Bytes, f: Bytes, b: nat, q: nat)
    requires Image(p, f) && Ends(p, b, p, q)
    ensures Ends(f, b, f, q)
    decreases b
  {
    if b > 0 {
      ImageEnds(p, f, b - 1, q - 1);
    }
  }

  /** A step stays inside the text's matches. */
  lemma StepSound(p: Bytes, f: Bytes, table: seq<nat>, t: Bytes, i: nat, q: nat)
    requires Image(p, f) && IsTable(p, table) && Falls(table) && |table| == |f|
    requires i < |t| && q < |f| && Ends(f, q, t, i)
    ensures Ends(f, Step(f, table, q, t[i]), t, i + 1)
  {
    StepBest(p, f, table, q, t[i]);
    var r := Step(f, table, q, t[i]);
    if r > 0 {
      if r - 1 < q {
        ImageEnds(p, f, r - 1, q);
        EndsInside(f, q, r - 1, t, i);
      }
    }
  }

  lemma FullMatch(t: Bytes, f: Bytes, i: nat)
    ensures Ends(f, |f|, t, i) <==> i <= |t| && Occurs(t, f, i - |f|)
  {
    EndsMeans(f, |f|, t, i);
  }

  /** What is found is there, whatever the image. */
  lemma {:induction false} RunSound(p: Bytes, f: Bytes, table: seq<nat>, t: Bytes, i: nat, q: nat)
    requires Image(p, f) && IsTable(p, table) && Falls(table) && |table| == |f|
    requires i <= |t| && q < |f| && Ends(f, q, t, i)
    ensures var r := Run(f, table, t, i, q); r == -1 || Occurs(t, f, r)
    decreases |t| - i
  {
    if i < |t| {
      StepSound(p, f, table, t, i, q);
      StepBest(p, f, table, q, t[i]);
      var r := Step(f, table, q, t[i]);
      if r < |f| {
        RunSound(p, f, table, t, i + 1, r);
      } else {
        FullMatch(t, f, i + 1);
      }
    }
  }

  /** The longest match so far, with no full match seen. */
  ghost predicate Longest(f: Bytes, q: nat, t: Bytes, i: nat) {
    && q < |f| && Ends(f, q, t, i)
    && (forall j: nat :: j < |f| && Ends(f, j, t, i) ==> j <= q)
    && forall j: nat :: Occurs(t, f, j) ==> i < j + |f|
  }

  /** A step misses no match. */
  lemma StepComplete(p: Bytes, f: Bytes, table: seq<nat>, t: Bytes, i: nat, q: nat, j: nat)
    requires IsTable(p, table) && Falls(table) && |table| == |f| && Offers(p, f)
    requires i < |t| && Longest(f, q, t, i) && Ends(f, j, t, i + 1)
    ensures j <= Step(f, table, q, t[i])
  {
    var c := t[i];
    StepBest(p, f, table, q, c);
    if j > 0 {
      if j - 1 < q && f[q] != c {
        EndsInside(f, q, j - 1, t, i);
        assert Offered(p, f, q, j - 1);
      }
    }
  }

  /** After the step either the first occurrence is complete, or none is. */
  lemma StepDecides(p: Bytes, f: Bytes, table: seq<nat>, t: Bytes, i: nat, q: nat)
    requires Image(p, f) && IsTable(p, table) && Falls(table) && |table| == |f| && Offers(p, f)
    requires i < |t| && Longest(f, q, t, i)
    ensures var r := Step(f, table, q, t[i]);
      r <= |f| && if r == |f| then IsFirst(t, f, i + 1 - |f|) else Longest(f, r, t, i + 1)
  {
    StepSound(p, f, table, t, i, q);
    StepBest(p, f, table, q, t[i]);
    var r, next := Step(f, table, q, t[i]), i + 1;
    forall j: nat | Ends(f, j, t, next) ensures j <= r {
      StepComplete(p, f, table, t, i, q, j);
    }
    Decided(f, t, next, r);
  }

  /** No occurrence ends before position `i`; so one that ends there is the first. */
  lemma Decided(f: Bytes, t: Bytes, i: nat, r: nat)
    requires i <= |t| && r <= |f| && Ends(f, r, t, i)
    requires forall j: nat :: Ends(f, j, t, i) ==> j <= r
    requires forall j: nat :: Occurs(t, f, j) ==> i <= j + |f|
    ensures if r == |f| then IsFirst(t, f, i - |f|) else Longest(f, r, t, i)
  {
    FullMatch(t, f, i);
    if r < |f| {
      assert !Ends(f, |f|, t, i);
    }
  }

  /** With such a table the search finds the first occurrence. */
  lemma {:induction false} RunFirst(p: Bytes, f: Bytes, table: seq<nat>, t: Bytes, i: nat, q: nat)
    requires Image(p, f) && IsTable(p, table) && Falls(table) && |table| == |f| && Offers(p, f)
    requires i <= |t| && Longest(f, q, t, i)
    ensures IsFirst(t, f, Run(f, table, t, i, q))
    decreases |t| - i
  {
    if i < |t| {
      StepDecides(p, f, table, t, i, q);
      var r := Step(f, table, q, t[i]);
      if r < |f| {
        RunFirst(p, f, table, t, i + 1, r);
      }
    }
  }

  /** Too few characters are left for a full match. */
  lemma {:induction false} RunTooShort(p: Bytes, f: Bytes, table: seq<nat>, t: Bytes, i: nat, q: nat)
    requires IsTable(p, table) && Falls(table) && |table| == |p| == |f|
    requires i <= |t| && q + (|t| - i) < |f|
    ensures Run(f, table, t, i, q) == -1
    decreases |t| - i
  {
    if i < |t| {
      StepBest(p, f, table, q, t[i]);
      RunTooShort(p, f, table, t, i + 1, Step(f, table, q, t[i]));
    }
  }

  /** While the text repeats the pattern, the state counts along. */
  lemma {:induction false} RunAlong(f: Bytes, table: seq<nat>, t: Bytes, i: nat, m: nat)
    requires i <= m <= |t| && m < |f| == |table| && Falls(table) && forall k: nat :: k < m ==> t[k] == f[k]
    ensures Run(f, table, t, i, i) == Run(f, table, t, m, m)
    decreases m - i
  {
    if i < m {
      RunAlong(f, table, t, i + 1, m);
    }
  }

  /** Without such a table it does not: a text that is missed. */
  lemma RunMisses(p: Bytes, f: Bytes, table: seq<nat>, q: nat, b: nat) returns (t: Bytes)
    requires IsTable(p, table) && Falls(table) && |table| == |p| == |f| && q < |p|
    requires Border(f, q, b) && f[b] != f[q] && !Offered(p, f, q, b)
    ensures t == f[..q] + f[b..]
    ensures Occurs(t, f, q - b) && Run(f, table, t, 0, 0) == -1
  {
    t := f[..q] + f[b..];
    EndsMeans(f, b, f, q);
    RunAlong(f, table, t, 0, q);
    StepBest(p, f, table, q, t[q]);
    var r := Step(f, table, q, t[q]);
    assert t[q] == f[b];
    RunTooShort(p, f, table, t, q + 1, r);
  }

  /** Characters the pattern cannot begin with are passed over. */
  lemma {:induction false} RunSkips(f: Bytes, table: seq<nat>, t: Bytes, i: nat, m: nat)
    requires 0 < |f| == |table| && Falls(table) && i <= m <= |t| && forall k: nat :: i <= k < m ==> t[k] != f[0]
    ensures Run(f, table, t, i, 0) == Run(f, table, t, m, 0)
    decreases m - i
  {
    if i < m {
      RunSkips(f, table, t, i + 1, m);
    }
  }

  /** A match the search has begun at is a match it ends with. */
  lemma {:induction false} RunThrough(f: Bytes, table: seq<nat>, t: Bytes, m: nat, k: nat, at: nat)
    requires k < |f| == |table| && Falls(table) && Occurs(t, f, m) && at == m + k
    ensures Run(f, table, t, at, k) == m
    decreases |f| - k
  {
    assert f[k] == t[m + k];
    if k + 1 < |f| {
      RunThrough(f, table, t, m, k + 1, at + 1);
    }
  }

  // ---------- The matcher ----------

  lemma NulNext(buf: Bytes, i: nat)
    requires i < |buf| && buf[i] != NUL && NulFrom(buf, 0) == NulFrom(buf, i)
    ensures NulFrom(buf, 0) == NulFrom(buf, i + 1) && i < |Visible(buf)| && Visible(buf)[i] == buf[i]
  {
  }

  /** From the start of a text every search is in order. */
  lemma Fresh(f: Bytes, t: Bytes)
    requires |f| > 0
    ensures Longest(f, 0, t, 0)
  {
  }

  lemma PlainFirst(text: Bytes, table: seq<nat>, pattern: Bytes)
    requires |table| == |pattern| > 0 && IsTable(pattern, table) && Falls(table)
    ensures IsFirst(text, pattern, Run(pattern, table, text, 0, 0))
  {
    Fresh(pattern, text);
    RunFirst(pattern, pattern, table, text, 0, 0);
  }

  method ContainsPatternWithTable(buf: Bytes, table: array<nat>, pattern: Bytes)
      returns (retval: int, ghost comparisons: nat)
    requires table.Length == |pattern| && IsTable(pattern, table[..])
    ensures |pattern| == 0 ==> retval == -1
    ensures |pattern| > 0 ==> IsFirst(Visible(buf), pattern, retval)
    ensures |pattern| > 0 ==>
      Falls(table[..]) && comparisons == RunCost(pattern, table[..], Visible(buf), 0, 0) <= 3 * |Visible(buf)|
  {
    retval, comparisons := -1, 0;
    if |pattern| == 0 {
      return;
    }
    ghost var text := Visible(buf);
    ghost var entries := table[..];
    TableFalls(pattern, entries);
    PlainFirst(text, entries, pattern);
    RunCostBound(pattern, entries, text, 0, 0);
    var q: nat := 0;
    var i := 0;
    while i < |buf|
      invariant i <= |text| && q < |pattern|
      invariant NulFrom(buf, 0) == NulFrom(buf, i)
      invariant Run(pattern, entries, text, i, q) == Run(pattern, entries, text, 0, 0)
      invariant comparisons + RunCost(pattern, entries, text, i, q) == RunCost(pattern, entries, text, 0, 0)
    {
      if buf[i] == NUL {
        break;
      }
      NulNext(buf, i);
      StepBest(pattern, pattern, entries, q, buf[i]);
      ghost var more;
      assert table[..table.Length] == entries;
      q, more := Shift(pattern, table, table.Length, q, buf[i]);
      comparisons := comparisons + more;
      if q == |pattern| {
        retval := i - |pattern| + 1;
        return;
      }
      i := i + 1;
    }
  }

  ghost predicate FullTable(pattern: Bytes, table: seq<nat>) {
    |table| == |pattern| && IsTable(pattern, table) && Falls(table)
  }

  /** The characters compared for the table, and then for the search. */
  function SearchCost(pattern: Bytes, table: seq<nat>, buf: Bytes): nat
    requires |pattern| > 0 && |table| == |pattern| && Falls(table)
  {
    TableCost(pattern, table) + RunCost(pattern, table, Visible(buf), 0, 0)
  }

  method ContainsPattern(buf: Bytes, pattern: Bytes) returns (retval: int, ghost comparisons: nat)
    requires |pattern| > 0
    ensures IsFirst(Visible(buf), pattern, retval)
    ensures exists table :: FullTable(pattern, table) && comparisons == SearchCost(pattern, table, buf)
    ensures comparisons <= 3 * (|Visible(buf)| + |pattern|)
  {
    var table, forTable := ComputePrefixTable(pattern);
    var r, forText := ContainsPatternWithTable(buf, table, pattern);
    assert FullTable(pattern, table[..]);
    retval, comparisons := r, forTable + forText;
  }

  // ---------- The matcher that ignores case ----------

  ghost predicate CaseSafe(pattern: Bytes) {
    Offers(pattern, LowerAll(pattern))
  }

  /** What the case-insensitive matcher returns. */
  function CaseSearch(buf: Bytes, table: seq<nat>, pattern: Bytes): int
    requires |table| == |pattern| && Falls(table)
  {
    if |pattern| == 0 then -1
    else Run(LowerAll(pattern), table, LowerAll(Visible(buf)), 0, 0)
  }

  /** A match in front of which the first character of the pattern does not stand. */
  ghost predicate StandsFirst(text: Bytes, f: Bytes, i: nat) {
    |f| > 0 && Occurs(text, f, i) && forall k: nat :: k < i ==> text[k] != f[0]
  }

  /** Whatever the pattern, such a match is found; one at the start of the text always is. */
  lemma CaseFindsFirst(buf: Bytes, table: seq<nat>, pattern: Bytes, i: nat)
    requires |table| == |pattern| > 0 && Falls(table)
    requires StandsFirst(LowerAll(Visible(buf)), LowerAll(pattern), i)
    ensures CaseSearch(buf, table, pattern) == i
  {
    var text, f := LowerAll(Visible(buf)), LowerAll(pattern);
    RunSkips(f, table, text, 0, i);
    RunThrough(f, table, text, i, 0, i);
  }

  method CaseShift(pattern: Bytes, table: array<nat>, k: nat, c: byte) returns (q: nat)
    requires table.Length == |pattern| && Falls(table[..]) && k < |pattern|
    ensures q == Step(LowerAll(pattern), table[..], k, Lower(c))
  {
    q := k;
    while q > 0 && Lower(pattern[q]) != Lower(c)
      invariant q <= k
      invariant Step(LowerAll(pattern), table[..], q, Lower(c)) == Step(LowerAll(pattern), table[..], k, Lower(c))
    {
      assert table[q - 1] == table[..][q - 1];
      q := table[q - 1];
    }
    if Lower(pattern[q]) == Lower(c) {
      q := q + 1;
    }
  }

  method ContainsCasePatternWithTable(buf: Bytes, table: array<nat>, pattern: Bytes) returns (retval: int)
    requires table.Length == |pattern| && IsTable(pattern, table[..])
    ensures Falls(table[..]) && retval == CaseSearch(buf, table[..], pattern)
    ensures retval == -1 || Occurs(LowerAll(Visible(buf)), LowerAll(pattern), retval)
    ensures |pattern| > 0 && CaseSafe(pattern) ==> IsFirst(LowerAll(Visible(buf)), LowerAll(pattern), retval)
  {
    ghost var entries := table[..];
    TableFalls(pattern, entries);
    var q: nat := 0;
    retval := -1;
    if |pattern| == 0 {
      return;
    }
    ghost var text, f := LowerAll(Visible(buf)), LowerAll(pattern);
    CaseSound(buf, entries, pattern);
    var i := 0;
    while i < |buf|
      invariant i <= |text| && q < |pattern|
      invariant NulFrom(buf, 0) == NulFrom(buf, i)
      invariant Run(f, entries, text, i, q) == Run(f, entries, text, 0, 0)
    {
      if buf[i] == NUL {
        break;
      }
      NulNext(buf, i);
      StepBest(pattern, f, entries, q, text[i]);
      q := CaseShift(pattern, table, q, buf[i]);
      if q == |pattern| {
        retval := i - |pattern| + 1;
        return;
      }
      i := i + 1;
    }
  }

  method ContainsCasePattern(buf: Bytes, pattern: Bytes) returns (retval: int)
    requires |pattern| > 0
    ensures retval == -1 || Occurs(LowerAll(Visible(buf)), LowerAll(pattern), retval)
    ensures CaseSafe(pattern) ==> IsFirst(LowerAll(Visible(buf)), LowerAll(pattern), retval)
    ensures forall i: nat :: StandsFirst(LowerAll(Visible(buf)), LowerAll(pattern), i) ==> retval == i
  {
    var table, _ := ComputePrefixTable(pattern);
    retval := ContainsCasePatternWithTable(buf, table, pattern);
    forall i: nat | StandsFirst(LowerAll(Visible(buf)), LowerAll(pattern), i) ensures retval == i {
      CaseFindsFirst(buf, table[..], pattern, i);
    }
  }

  /** Every result is a match ignoring case; it is the first one if the pattern is safe. */
  lemma CaseSound(buf: Bytes, table: seq<nat>, pattern: Bytes)
    requires |table| == |pattern| > 0 && IsTable(pattern, table) && Falls(table)
    ensures var text, f, r := LowerAll(Visible(buf)), LowerAll(pattern), CaseSearch(buf, table, pattern);
      (r == -1 || Occurs(text, f, r)) && (CaseSafe(pattern) ==> IsFirst(text, f, r))
  {
    var text, f := LowerAll(Visible(buf)), LowerAll(pattern);
    Fresh(f, text);
    RunSound(pattern, f, table, text, 0, 0);
    if CaseSafe(pattern) {
      RunFirst(pattern, f, table, text, 0, 0);
    }
  }

  ghost predicate AlwaysFirst(table: seq<nat>, pattern: Bytes)
    requires |table| == |pattern| && Falls(table)
  {
    forall buf: Bytes :: IsFirst(LowerAll(Visible(buf)), LowerAll(pattern), CaseSearch(buf, table, pattern))
  }

  lemma NotOffered(p: Bytes, f: Bytes) returns (q: nat, b: nat)
    requires |p| == |f| && !Offers(p, f)
    ensures q < |p| && Border(f, q, b) && f[b] != f[q] && !Offered(p, f, q, b)
  {
    q, b :| q < |p| && Border(f, q, b) && f[b] != f[q] && !Offered(p, f, q, b);
  }

  /** A text the matcher fails on, for a pattern that is not safe. */
  lemma UnsafeMisses(table: seq<nat>, pattern: Bytes) returns (text: Bytes, i: nat)
    requires |table| == |pattern| > 0 && IsTable(pattern, table) && Falls(table) && NUL !in pattern
    requires !CaseSafe(pattern)
    ensures Occurs(LowerAll(Visible(text)), LowerAll(pattern), i)
    ensures CaseSearch(text, table, pattern) == -1
  {
    var q, b := NotOffered(pattern, LowerAll(pattern));
    text := RunMisses(pattern, LowerAll(pattern), table, q, b);
    i := q - b;
    LowerText(pattern, q, b);
  }

  lemma LowerText(pattern: Bytes, q: nat, b: nat)
    requires NUL !in pattern && b <= q <= |pattern|
    ensures var text := LowerAll(pattern)[..q] + LowerAll(pattern)[b..]; Visible(text) == text == LowerAll(text)
  {
    var text := LowerAll(pattern)[..q] + LowerAll(pattern)[b..];
    forall k: nat | k < |text| ensures text[k] != NUL && Lower(text[k]) == text[k] {
      assert text[k] == Lower(pattern[if k < q then k else k - q + b]);
    }
  }

  /** The matcher finds the first match in every text exactly when the pattern is safe. */
  lemma CaseFirstIff(table: seq<nat>, pattern: Bytes)
    requires |table| == |pattern| > 0 && IsTable(pattern, table) && Falls(table) && NUL !in pattern
    ensures AlwaysFirst(table, pattern) <==> CaseSafe(pattern)
  {
    if CaseSafe(pattern) {
      forall buf: Bytes
        ensures IsFirst(LowerAll(Visible(buf)), LowerAll(pattern), CaseSearch(buf, table, pattern))
      {
        CaseSound(buf, table, pattern);
      }
    } else {
      var text, i := UnsafeMisses(table, pattern);
      assert !IsFirst(LowerAll(Visible(text)), LowerAll(pattern), CaseSearch(text, table, pattern));
    }
  }

  /** A pattern in which no two letters differ only by case is safe. */
  lemma OneCaseIsSafe(pattern: Bytes)
    requires forall a, b :: a in pattern && b in pattern && Lower(a) == Lower(b) ==> a == b
    ensures CaseSafe(pattern)
  {
    var f := LowerAll(pattern);
    forall q: nat, b: nat | q < |pattern| && Border(f, q, b) && f[b] != f[q] ensures Offered(pattern, f, q, b) {
      ImageEnds(f, pattern, b, q);
      assert Border(pattern, q, b);
    }
  }

  /** "aAb" is not safe, and is not found in "aaab". */
  lemma MixedCaseMissed(table: seq<nat>)
    requires |table| == 3 && IsTable([97, 65, 98], table) && Falls(table)
    ensures !CaseSafe([97, 65, 98])
    ensures CaseSearch([97, 97, 97, 98], table, [97, 65, 98]) == -1
    ensures Occurs(LowerAll([97, 97, 97, 98]), LowerAll([97, 65, 98]), 1)
  {
    var p: Bytes := [97, 65, 98];
    var f := LowerAll(p);
    assert Border(f, 2, 1);
    assert f[1] != f[2];
    assert p[0] != p[1] && !Border(p, 2, 1);
    assert !Offered(p, f, 2, 1);
    var t := RunMisses(p, f, table, 2, 1);
    var buf: Bytes := [97, 97, 97, 98];
    assert t == buf;
    assert Visible(buf) == buf;
    assert LowerAll(buf) == buf;
  }
}
