/**
 The block allocator (src/mbox-memory.c): first fit over a bitset of 32-bit words, with the
 number of blocks of each allocation stored in front of it.

 The test for free blocks looks at one word only. A grant that stays inside that word and
 inside the pool is sound; one that straddles two words can overlap another (see Straddles).
 */
module MemPool {
  import opened Bytes

  const BLOCK: nat := 8
  const INFO: nat := 5

  // ---------- 32-bit words, bit 0 first ----------

  type Word = w: seq<bool> | |w| == 32 witness seq(32, k => false)

  function Ones(): Word {
    seq(32, k => true)
  }

  function One(): Word {
    seq(32, k => k == 0)
  }

  function And(a: Word, b: Word): Word {
    seq(32, k requires 0 <= k < 32 => a[k] && b[k])
  }

  function Or(a: Word, b: Word): Word {
    seq(32, k requires 0 <= k < 32 => a[k] || b[k])
  }

  function Not(a: Word): Word {
    seq(32, k requires 0 <= k < 32 => !a[k])
  }

  /** Bits shifted past either end are lost. */
  function Shl(a: Word, s: nat): Word {
    seq(32, k requires 0 <= k < 32 => k >= s && a[k - s])
  }

  function Shr(a: Word, s: nat): Word {
    seq(32, k requires 0 <= k < 32 => k + s < 32 && a[k + s])
  }

  predicate IsZero(a: Word) {
    forall k :: 0 <= k < 32 ==> !a[k]
  }

  // ---------- Bits of the whole pool ----------

  /** Bit `k` of word `w` is bit `32 * w + k`. */
  ghost predicate Represents(words: seq<Word>, bits: seq<bool>) {
    && |bits| == 32 * |words|
    && forall w, k {:trigger words[w][k]} :: 0 <= w < |words| && 0 <= k < 32 ==> words[w][k] == bits[32 * w + k]
  }

  function WordEnd(i: nat): nat {
    i - i % 32 + 32
  }

  predicate Clear(bits: seq<bool>, lo: nat, hi: nat) {
    forall b :: lo <= b < hi && b < |bits| ==> !bits[b]
  }

  /** What the mask test sees: the part of the range that lies in the word of its first block. */
  predicate Passes(bits: seq<bool>, i: nat, n: nat) {
    Clear(bits, i, Min(i + n, WordEnd(i)))
  }

  ghost predicate IsFirstFit(bits: seq<bool>, blocks: nat, n: nat, i: nat) {
    i < blocks && Passes(bits, i, n) && forall h: nat :: h < i ==> !Passes(bits, h, n)
  }

  function SetRange(bits: seq<bool>, lo: nat, hi: nat): seq<bool> {
    seq(|bits|, b requires 0 <= b < |bits| => bits[b] || lo <= b < hi)
  }

  function ClearRange(bits: seq<bool>, lo: nat, hi: nat): seq<bool> {
    seq(|bits|, b requires 0 <= b < |bits| => bits[b] && !(lo <= b < hi))
  }

  function SetBits(bits: seq<bool>): set<int> {
    set b | 0 <= b < |bits| && bits[b]
  }

  function Count(bits: seq<bool>): nat {
    |SetBits(bits)|
  }

  lemma CountSet(bits: seq<bool>, b: nat)
    requires b < |bits| && !bits[b]
    ensures Count(bits[b := true]) == Count(bits) + 1
  {
    assert SetBits(bits[b := true]) == SetBits(bits) + {b};
  }

  lemma {:induction false} CountSetRange(bits: seq<bool>, lo: nat, hi: nat)
    requires lo <= hi <= |bits| && Clear(bits, lo, hi)
    ensures Count(SetRange(bits, lo, hi)) == Count(bits) + hi - lo
    decreases hi - lo
  {
    if lo == hi {
      assert SetRange(bits, lo, hi) == bits;
    } else {
      CountSetRange(bits, lo, hi - 1);
      assert SetRange(bits, lo, hi) == SetRange(bits, lo, hi - 1)[hi - 1 := true];
      CountSet(SetRange(bits, lo, hi - 1), hi - 1);
    }
  }

  /** Clearing a range that was clear before it was set brings everything back. */
  lemma FreeUndoesAlloc(bits: seq<bool>, lo: nat, hi: nat)
    requires hi <= |bits| && Clear(bits, lo, hi)
    ensures ClearRange(SetRange(bits, lo, hi), lo, hi) == bits
  {
  }

  /** The mask test, with its truncating shift, is the test on bits. */
  lemma MaskTest(words: seq<Word>, bits: seq<bool>, i: nat, n: nat)
    requires Represents(words, bits) && 1 <= n <= 32 && i / 32 < |words|
    ensures IsZero(And(words[i / 32], Shl(Shr(Ones(), 32 - n), i % 32))) <==> Passes(bits, i, n)
  {
    var w, s := words[i / 32], i % 32;
    var mask := Shl(Shr(Ones(), 32 - n), s);
    assert forall k :: 0 <= k < 32 ==> mask[k] == (s <= k < s + n);
    assert forall k :: 0 <= k < 32 ==> words[i / 32][k] == bits[i - s + k];
    if IsZero(And(w, mask)) {
      forall b | i <= b < Min(i + n, WordEnd(i)) && b < |bits| ensures !bits[b] {
        var k := b - (i - s);
        assert bits[b] == w[k] && !And(w, mask)[k];
      }
    } else {
      var k :| 0 <= k < 32 && And(w, mask)[k];
      assert bits[i - s + k];
    }
  }

  lemma SetBit(words: seq<Word>, bits: seq<bool>, b: nat)
    requires Represents(words, bits) && b < |bits|
    ensures Represents(words[b / 32 := Or(words[b / 32], Shl(One(), b % 32))], bits[b := true])
  {
    BitUpdate(words, bits, b, Or(words[b / 32], Shl(One(), b % 32)), true);
  }

  lemma ClearBit(words: seq<Word>, bits: seq<bool>, b: nat)
    requires Represents(words, bits) && b < |bits|
    ensures Represents(words[b / 32 := And(words[b / 32], Not(Shl(One(), b % 32)))], bits[b := false])
  {
    BitUpdate(words, bits, b, And(words[b / 32], Not(Shl(One(), b % 32))), false);
  }

  lemma BitUpdate(words: seq<Word>, bits: seq<bool>, b: nat, w: Word, x: bool)
    requires Represents(words, bits) && b < |bits| && w == words[b / 32][b % 32 := x]
    ensures Represents(words[b / 32 := w], bits[b := x])
  {
    var words' := words[b / 32 := w];
    forall v, k | 0 <= v < |words| && 0 <= k < 32 ensures words'[v][k] == bits[b := x][32 * v + k] {
      assert words[v][k] == bits[32 * v + k];
    }
  }

  // ---------- When a grant is sound ----------

  /** The grant stays inside the word of its first block and inside the pool. */
  predicate Fits(blocks: nat, i: nat, n: nat) {
    i % 32 + n <= 32 && i + n <= blocks
  }

  /** A first fit reaches beyond `size` exactly when no range that ends in front of it passes the test. */
  lemma LeavesIff(bits: seq<bool>, blocks: nat, n: nat, i: nat, size: nat)
    requires n > 0 && IsFirstFit(bits, blocks, n, i) && blocks <= size
    ensures i + n > size <==> forall h: nat :: h < blocks && h + n <= size ==> !Passes(bits, h, n)
  {
    assert i + n <= size ==> Passes(bits, i, n);
  }

  lemma OneFirstFit(bits: seq<bool>, blocks: nat, n: nat, i: nat, j: nat)
    requires IsFirstFit(bits, blocks, n, i) && IsFirstFit(bits, blocks, n, j)
    ensures i == j
  {
  }

  /** Every run of taken blocks starts and ends at a multiple of `n`. */
  ghost predicate Aligned(bits: seq<bool>, n: nat)
    requires n > 0
  {
    forall b: nat, c: nat :: b < |bits| && c < |bits| && b / n == c / n ==> Agree(bits, b, c)
  }

  predicate Agree(bits: seq<bool>, b: nat, c: nat)
    requires b < |bits| && c < |bits|
  {
    bits[b] == bits[c]
  }

  lemma FirstFitAligned(bits: seq<bool>, blocks: nat, n: nat, i: nat)
    requires n > 0 && blocks <= |bits| && Aligned(bits, n) && IsFirstFit(bits, blocks, n, i)
    ensures i % n == 0
  {
    var h := i - i % n;
    SameSlot(n, i, h);
    if i != h {
      forall b | h <= b < Min(h + n, WordEnd(h)) && b < |bits| ensures !bits[b] {
        SameSlot(n, i, b);
        assert Agree(bits, b, i);
      }
      assert Passes(bits, h, n);
    }
  }

  /** Requests of one size that divides the word always fit: the pool is sound for them. */
  lemma UniformFits(bits: seq<bool>, blocks: nat, n: nat, i: nat)
    requires n > 0 && 32 % n == 0 && blocks % n == 0 && blocks <= |bits|
    requires Aligned(bits, n) && IsFirstFit(bits, blocks, n, i)
    ensures Fits(blocks, i, n) && i % n == 0 && Aligned(SetRange(bits, i, i + n), n)
  {
    FirstFitAligned(bits, blocks, n, i);
    SlotInWord(n, i);
    SlotBelow(n, i, blocks / n);
    SlotAligned(bits, SetRange(bits, i, i + n), n, i, true);
  }

  /** A whole slot set or cleared. */
  lemma SlotAligned(bits: seq<bool>, bits': seq<bool>, n: nat, s: nat, x: bool)
    requires n > 0 && Aligned(bits, n) && s % n == 0 && |bits'| == |bits|
    requires forall b :: 0 <= b < |bits| ==> bits'[b] == if s <= b < s + n then x else bits[b]
    ensures Aligned(bits', n)
  {
    forall b: nat, c: nat | b < |bits| && c < |bits| && b / n == c / n ensures Agree(bits', b, c) {
      assert Agree(bits, b, c);
      SameSlot(n, s, b);
      SameSlot(n, s, c);
    }
  }

  /** Freeing such a range keeps the runs aligned. */
  lemma FreeAligned(bits: seq<bool>, n: nat, s: nat)
    requires n > 0 && Aligned(bits, n) && s % n == 0
    ensures Aligned(ClearRange(bits, s, s + n), n)
  {
    SlotAligned(bits, ClearRange(bits, s, s + n), n, s, false);
  }

  /** In an aligned pool a free block is in a slot that passes the test. */
  lemma FreeBlockPasses(bits: seq<bool>, blocks: nat, n: nat, b: nat) returns (h: nat)
    requires n > 0 && blocks <= |bits| && Aligned(bits, n) && b < blocks && !bits[b]
    ensures h < blocks && Passes(bits, h, n)
  {
    h := b - b % n;
    SameSlot(n, b, h);
    forall k | h <= k < Min(h + n, WordEnd(h)) && k < |bits| ensures !bits[k] {
      SameSlot(n, b, k);
      assert Agree(bits, k, b);
    }
  }

  /** The books of a pool that serves requests of `n` blocks only. */
  ghost predicate UniformBooks(bits: seq<bool>, blocks: nat, live: map<nat, nat>, n: nat) {
    && n > 0 && 32 % n == 0 && blocks % n == 0 && Aligned(bits, n)
    && forall s :: s in live ==> live[s] == n && s % n == 0
  }

  /** What a first fit of `n` blocks does to such books. */
  lemma UniformGrant(bits: seq<bool>, blocks: nat, live: map<nat, nat>, owner: map<nat, nat>, n: nat, i: nat,
                     bits': seq<bool>, live': map<nat, nat>)
    requires UniformBooks(bits, blocks, live, n) && Sound(bits, blocks, live, owner) && blocks <= |bits|
    requires IsFirstFit(bits, blocks, n, i)
    ensures Fits(blocks, i, n) && i !in live && Clear(bits, i, i + n)
    ensures bits' == SetRange(bits, i, i + n) && live' == live[i := n] ==> UniformBooks(bits', blocks, live', n)
  {
    UniformFits(bits, blocks, n, i);
    AllocSound(bits, blocks, live, owner, i, n);
  }

  lemma UniformFree(bits: seq<bool>, blocks: nat, live: map<nat, nat>, n: nat, s: nat,
                    bits': seq<bool>, live': map<nat, nat>)
    requires UniformBooks(bits, blocks, live, n) && s in live
    requires bits' == ClearRange(bits, s, s + live[s]) && live' == live - {s}
    ensures UniformBooks(bits', blocks, live', n)
  {
    FreeAligned(bits, n, s);
  }

  // Block `i` and block `b` in slots of `n` blocks, where `n` divides the word.

  lemma SameSlot(n: nat, i: nat, b: nat)
    requires n > 0
    ensures i % n <= i && (i - i % n <= b < i - i % n + n <==> b / n == i / n)
  {
    var q, r := i / n, b / n;
    assert i == n * q + i % n && b == n * r + b % n && n * q >= 0;
    if q < r {
      NextMultiple(n, q, r);
    } else if r < q {
      NextMultiple(n, r, q);
    }
  }

  lemma SlotInWord(n: nat, i: nat)
    requires n > 0 && 32 % n == 0 && i % n == 0
    ensures i % 32 + n <= 32
  {
    var m, w := 32 / n, i / 32;
    assert 32 == n * m;
    assert 32 * w == n * (m * w) by {
      Reassociate(n, m, w);
    }
    assert n * (m * w + m) == 32 * w + 32;
    SlotBelow(n, i, m * w + m);
  }

  lemma Reassociate(n: nat, m: nat, w: nat)
    ensures (n * m) * w == n * (m * w)
  {
  }

  lemma SlotBelow(n: nat, i: nat, b: nat)
    requires n > 0 && i % n == 0 && i < n * b
    ensures i + n <= n * b
  {
    var q := i / n;
    assert i == n * q;
    if q < b {
      NextMultiple(n, q, b);
    } else if b < q {
      NextMultiple(n, b, q);
    }
  }

  lemma {:induction false} NextMultiple(n: nat, a: int, b: int)
    requires a < b
    ensures n * a + n <= n * b
    decreases b - a
  {
    assert n * b == n * (b - 1) + n;
    if a < b - 1 {
      NextMultiple(n, a, b - 1);
    }
  }

  // ---------- The count in front of an allocation ----------

  /** The count four bytes hold, most significant first. */
  function CountOf(b0: byte, b1: byte, b2: byte, b3: byte): nat {
    b0 as nat * 0x100_0000 + b1 as nat * 0x1_0000 + b2 as nat * 256 + b3 as nat
  }

  lemma CountIsBigEndian(b0: byte, b1: byte, b2: byte, b3: byte)
    ensures CountOf(b0, b1, b2, b3) == 256 * (256 * (256 * b0 as nat + b1 as nat) + b2 as nat) + b3 as nat
  {
  }

  lemma CountRoundTrip(len: nat)
    requires len < 0x1_0000_0000
    ensures len / 0x100_0000 < 256
    ensures CountOf((len / 0x100_0000) as byte, (len / 0x1_0000 % 256) as byte,
                    (len / 256 % 256) as byte, (len % 256) as byte) == len
  {
    assert len == 256 * (len / 256) + len % 256;
    assert len / 256 == 256 * (len / 0x1_0000) + len / 256 % 256;
    assert len / 0x1_0000 == 256 * (len / 0x100_0000) + len / 0x1_0000 % 256;
  }

  function BlockCount(size: nat): (n: nat)
    ensures BLOCK * (n - 1) < size + INFO <= BLOCK * n
  {
    (size + INFO + BLOCK - 1) / BLOCK
  }

  /** The count of every live allocation stands in front of it. */
  ghost predicate Counted(data: Bytes, live: map<nat, nat>) {
    forall s :: s in live ==> BLOCK * s + INFO <= |data| && HasCount(data, s, live[s])
  }

  /** The count, and a NUL. */
  predicate HasCount(data: Bytes, s: nat, n: nat)
    requires BLOCK * s + INFO <= |data|
  {
    var p := BLOCK * s;
    CountOf(data[p], data[p + 1], data[p + 2], data[p + 3]) == n && data[p + 4] == NUL
  }

  /** Nothing but the count in front of the allocation at block `s` has changed. */
  ghost predicate SameOutside(d: Bytes, d': Bytes, s: nat) {
    |d'| == |d| && forall k :: 0 <= k < |d| && !(BLOCK * s <= k < BLOCK * s + INFO) ==> d'[k] == d[k]
  }

  // ---------- Live ranges ----------

  /**
   `live` maps the first block of every live allocation to its length, `owner` every taken
   block to the first block of its allocation.
   */
  ghost predicate Sound(bits: seq<bool>, blocks: nat, live: map<nat, nat>, owner: map<nat, nat>) {
    && (forall s :: s in live ==> live[s] > 0 && Fits(blocks, s, live[s]))
    && (forall b :: b in owner ==> owner[b] in live && owner[b] <= b < owner[b] + live[owner[b]])
    && (forall s, b :: s in live && s <= b < s + live[s] ==> Owns(owner, s, b))
    && forall b :: 0 <= b < |bits| ==> (bits[b] <==> b in owner)
  }

  predicate Owns(owner: map<nat, nat>, s: nat, b: nat) {
    b in owner && owner[b] == s
  }

  /** Live ranges do not overlap, and a bit is set exactly when its block is in one of them. */
  lemma LiveRanges(bits: seq<bool>, blocks: nat, live: map<nat, nat>, owner: map<nat, nat>)
    requires Sound(bits, blocks, live, owner)
    ensures forall s, t :: s in live && t in live && s < t ==> s + live[s] <= t
    ensures forall b :: 0 <= b < |bits| ==> (bits[b] <==> exists s :: s in live && s <= b < s + live[s])
  {
    forall s, t | s in live && t in live && s < t ensures s + live[s] <= t {
      assert Owns(owner, t, t);
      assert t < s + live[s] ==> Owns(owner, s, t);
    }
    forall b | 0 <= b < |bits| ensures bits[b] <==> exists s :: s in live && s <= b < s + live[s] {
      if s :| s in live && s <= b < s + live[s] {
        assert Owns(owner, s, b);
      }
    }
  }

  predicate Overlap(lo: nat, hi: nat, lo': nat, hi': nat) {
    lo < hi' && lo' < hi
  }

  /** A first-fit grant overlaps a live range exactly when some block of it in the next word is taken. */
  lemma GrantOverlapsIff(bits: seq<bool>, blocks: nat, live: map<nat, nat>, owner: map<nat, nat>, i: nat, n: nat)
    requires Sound(bits, blocks, live, owner) && IsFirstFit(bits, blocks, n, i) && 1 <= n && i + n <= |bits|
    ensures (exists s :: s in live && Overlap(i, i + n, s, s + live[s])) <==> !Clear(bits, WordEnd(i), i + n)
  {
    LiveRanges(bits, blocks, live, owner);
    if s :| s in live && Overlap(i, i + n, s, s + live[s]) {
      var b := if i < s then s else i;
      assert bits[b];
    }
    if b :| WordEnd(i) <= b < i + n && bits[b] {
      var s :| s in live && s <= b < s + live[s];
      assert Overlap(i, i + n, s, s + live[s]);
    }
  }

  ghost function Taken(owner: map<nat, nat>, i: nat, n: nat): map<nat, nat> {
    owner + map b | i <= b < i + n && Within(b, i, n) :: i
  }

  predicate Within(b: int, i: nat, n: nat) {
    i <= b < i + n
  }

  ghost function Released(owner: map<nat, nat>, s: nat): map<nat, nat> {
    map b | b in owner && owner[b] != s :: owner[b]
  }

  /** A grant that fits was free, and keeps the pool sound. */
  lemma AllocSound(bits: seq<bool>, blocks: nat, live: map<nat, nat>, owner: map<nat, nat>, i: nat, n: nat)
    requires Sound(bits, blocks, live, owner) && blocks <= |bits| && n > 0
    requires Fits(blocks, i, n) && Passes(bits, i, n)
    ensures Clear(bits, i, i + n) && i !in live
    ensures Sound(SetRange(bits, i, i + n), blocks, live[i := n], Taken(owner, i, n))
  {
    var live', owner' := live[i := n], Taken(owner, i, n);
    if i in live {
      assert Owns(owner, i, i);
    }
    forall b | i <= b < i + n ensures b !in owner {
      assert !bits[b];
    }
    forall s, b | s in live' && s <= b < s + live'[s] ensures Owns(owner', s, b) {
      if s != i {
        assert Owns(owner, s, b);
      }
    }
  }

  /** Freeing a live range keeps the pool sound, and clears what was set for it. */
  lemma FreeSound(bits: seq<bool>, blocks: nat, live: map<nat, nat>, owner: map<nat, nat>, s: nat)
    requires Sound(bits, blocks, live, owner) && s in live && blocks <= |bits|
    ensures Sound(ClearRange(bits, s, s + live[s]), blocks, live - {s}, Released(owner, s))
    ensures SetRange(ClearRange(bits, s, s + live[s]), s, s + live[s]) == bits
  {
    var hi := s + live[s];
    forall b | s <= b < hi ensures bits[b] && Owns(owner, s, b) {
      assert Owns(owner, s, b);
    }
    var live', owner' := live - {s}, Released(owner, s);
    forall t, b | t in live' && t <= b < t + live'[t] ensures Owns(owner', t, b) {
      assert Owns(owner, t, b);
    }
  }

  // ---------- The pool ----------

  /** The outcome of a request; writing past the bitset is undefined in C and ends the model. */
  datatype Outcome = Granted(ptr: nat) | OutOfMemory | OutOfBounds

  /** The books agree: bits, counts and the number of blocks taken. */
  ghost predicate Accounted(bits: seq<bool>, data: Bytes, blocks: nat, live: map<nat, nat>, owner: map<nat, nat>, taken: nat) {
    Sound(bits, blocks, live, owner) && Counted(data, live) && taken == Count(bits)
  }

  lemma FreeCovered(bits: seq<bool>, d: Bytes, blocks: nat, live: map<nat, nat>, owner: map<nat, nat>,
                    taken: nat, s: nat)
    requires Accounted(bits, d, blocks, live, owner, taken) && s in live && blocks <= |bits|
    ensures BLOCK * s + INFO <= |d| && HasCount(d, s, live[s])
    ensures s + live[s] <= |bits| && live[s] <= taken
  {
    var live', owner' := FreeAccounted(bits, d, d, blocks, live, owner, taken, s, ClearRange(bits, s, s + live[s]), taken - live[s]);
  }

  /** What freeing `s` leaves of the books, once its count is overwritten and its bits are cleared. */
  lemma FreeAccounted(bits: seq<bool>, d: Bytes, d': Bytes, blocks: nat, live: map<nat, nat>, owner: map<nat, nat>,
                      taken: nat, s: nat, bits': seq<bool>, taken': int) returns (live': map<nat, nat>, owner': map<nat, nat>)
    requires Accounted(bits, d, blocks, live, owner, taken) && s in live && blocks <= |bits|
    requires SameOutside(d, d', s) && taken' == taken - live[s] && bits' == ClearRange(bits, s, s + live[s])
    ensures taken' >= 0 && live' == live - {s}
    ensures Accounted(bits', d', blocks, live', owner', taken')
  {
    live', owner' := live - {s}, Released(owner, s);
    FreeSound(bits, blocks, live, owner, s);
    CountSetRange(ClearRange(bits, s, s + live[s]), s, s + live[s]);
    CountedFree(d, d', live, s);
  }

  lemma GrantAccounted(bits: seq<bool>, d: Bytes, d': Bytes, blocks: nat, live: map<nat, nat>, owner: map<nat, nat>,
                       taken: nat, i: nat, n: nat, bits': seq<bool>, taken': nat) returns (live': map<nat, nat>, owner': map<nat, nat>)
    requires Accounted(bits, d, blocks, live, owner, taken) && blocks <= |bits| && n > 0
    requires Fits(blocks, i, n) && Passes(bits, i, n) && taken' == taken + n
    requires SameOutside(d, d', i) && BLOCK * i + INFO <= |d| && HasCount(d', i, n)
    requires bits' == SetRange(bits, i, i + n)
    ensures live' == live[i := n]
    ensures Accounted(bits', d', blocks, live', owner', taken')
  {
    live', owner' := live[i := n], Taken(owner, i, n);
    AllocSound(bits, blocks, live, owner, i, n);
    CountSetRange(bits, i, i + n);
    CountedGrant(d, d', live, i, n);
  }

  class Pool {
    const data: array<byte>
    const blocks: nat
    var taken: nat
    const bitset: array<Word>
    /** The bitset as one sequence; first block and length of every live allocation; owners. */
    ghost var bits: seq<bool>
    ghost var live: map<nat, nat>
    ghost var owner: map<nat, nat>

    ghost predicate Sized()
      reads this, bitset
    {
      && data.Length == BLOCK * blocks && bitset.Length == (blocks + 31) / 32
      && Represents(bitset[..], bits)
    }

    ghost predicate Valid()
      reads this, data, bitset
    {
      && Sized()
      && Accounted(bits, data[..], blocks, live, owner, taken)
    }

    /** A pool that has served requests of `n` blocks only. */
    ghost predicate Uniform(n: nat)
      reads this, data, bitset
    {
      Valid() && UniformBooks(bits, blocks, live, n)
    }

    constructor (blockCount: nat)
      ensures Valid() && blocks == blockCount && live == map[] && taken == 0
      ensures fresh(data) && fresh(bitset)
      ensures |bits| == 32 * ((blockCount + 31) / 32) && Clear(bits, 0, |bits|)
    {
      blocks, taken := blockCount, 0;
      data := new byte[blockCount * BLOCK];
      bitset := new Word[(blockCount + 31) / 32](k => seq(32, j => false));
      live, owner := map[], map[];
      new;
      bits := seq(32 * bitset.Length, b => false);
      assert SetBits(bits) == {};
    }

    /** Writes the count in front of `ptr`. */
    method SetBlockCount(ptr: nat, len: nat, ghost s: nat)
      requires ptr == BLOCK * s + INFO <= data.Length && len < 0x1_0000_0000
      modifies data
      ensures HasCount(data[..], s, len) && bitset[..] == old(bitset[..])
      ensures SameOutside(old(data[..]), data[..], s)
    {
      CountRoundTrip(len);
      var p := ptr - INFO;
      data[p] := (len / 0x100_0000) as byte;
      data[p + 1] := (len / 0x1_0000 % 256) as byte;
      data[p + 2] := (len / 256 % 256) as byte;
      data[p + 3] := (len % 256) as byte;
      data[p + 4] := NUL;
    }

    method GetBlockCount(ptr: nat, ghost s: nat, ghost n: nat) returns (len: nat)
      requires ptr == BLOCK * s + INFO <= data.Length && HasCount(data[..], s, n)
      ensures len == n
    {
      var p := ptr - INFO;
      len := data[p] as nat * 0x100_0000 + data[p + 1] as nat * 0x1_0000 + data[p + 2] as nat * 256 + data[p + 3] as nat;
    }

    /** Sets the bits of a grant, unless it runs out of the bitset. */
    method MarkRange(i: nat, n: nat) returns (ok: bool)
      requires Represents(bitset[..], bits) && n > 0
      modifies this`bits, bitset
      ensures Represents(bitset[..], bits) && data[..] == old(data[..])
      ensures ok <==> i + n <= 32 * bitset.Length
      ensures ok ==> bits == SetRange(old(bits), i, i + n)
    {
      var j := i;
      assert SetRange(bits, i, i) == bits;
      while j < i + n
        invariant i <= j <= i + n && (j == i || j <= 32 * bitset.Length)
        invariant Represents(bitset[..], bits) && bits == SetRange(old(bits), i, j)
      {
        if j / 32 >= bitset.Length {
          return false;
        }
        ghost var words := bitset[..];
        SetBit(words, bits, j);
        bitset[j / 32] := Or(bitset[j / 32], Shl(One(), j % 32));
        assert bitset[..] == words[j / 32 := Or(words[j / 32], Shl(One(), j % 32))];
        bits := bits[j := true];
        assert bits == SetRange(old(bits), i, j + 1);
        j := j + 1;
      }
      return true;
    }

    /** Clears the bits of an allocation, last block first. */
    method ClearBits(s: nat, len: nat)
      requires Represents(bitset[..], bits) && s + len <= |bits|
      modifies this`bits, bitset
      ensures Represents(bitset[..], bits) && data[..] == old(data[..])
      ensures bits == ClearRange(old(bits), s, s + len)
    {
      var i := len - 1;
      assert ClearRange(bits, s + len, s + len) == bits;
      while i >= 0
        invariant -1 <= i < len
        invariant Represents(bitset[..], bits) && bits == ClearRange(old(bits), s + i + 1, s + len)
      {
        var idx := s + i;
        ghost var words := bitset[..];
        ClearBit(words, bits, idx);
        bitset[idx / 32] := And(bitset[idx / 32], Not(Shl(One(), idx % 32)));
        assert bitset[..] == words[idx / 32 := And(words[idx / 32], Not(Shl(One(), idx % 32)))];
        bits := bits[idx := false];
        assert bits == ClearRange(old(bits), s + i, s + len);
        i := i - 1;
      }
    }

    /** Takes `n` blocks from block `i` on: bits, number of blocks taken, count. */
    method Take(i: nat, n: nat) returns (ok: bool)
      requires Represents(bitset[..], bits) && BLOCK * i + INFO <= data.Length && 1 <= n <= 32
      modifies this`bits, this`taken, data, bitset
      ensures Represents(bitset[..], bits)
      ensures ok <==> i + n <= 32 * bitset.Length
      ensures ok ==> bits == SetRange(old(bits), i, i + n) && taken == old(taken) + n && HasCount(data[..], i, n)
      ensures SameOutside(old(data[..]), data[..], i)
    {
      ok := MarkRange(i, n);
      if !ok {
        return;
      }
      taken := taken + n;
      var ptr := INFO + i * BLOCK;
      SetBlockCount(ptr, n, i);
    }

    ghost method Enter(live': map<nat, nat>, owner': map<nat, nat>)
      requires Sized() && Accounted(bits, data[..], blocks, live', owner', taken)
      modifies this`live, this`owner
      ensures Valid() && live == live'
    {
      ghost var d := data[..];
      live, owner := live', owner';
      assert data[..] == d;
    }

    /** Enters a grant that fits into the books. */
    ghost method EnterGrant(b: seq<bool>, d: Bytes, t: nat, i: nat, n: nat)
      requires Sized() && Accounted(b, d, blocks, live, owner, t)
      requires n > 0 && Fits(blocks, i, n) && Passes(b, i, n)
      requires bits == SetRange(b, i, i + n) && taken == t + n
      requires SameOutside(d, data[..], i) && HasCount(data[..], i, n)
      modifies this`live, this`owner
      ensures Valid() && live == old(live)[i := n]
    {
      ghost var live', owner' := GrantAccounted(b, d, data[..], blocks, live, owner, t, i, n, bits, taken);
      Enter(live', owner');
    }

    /** Grants `n` blocks from block `i` on. */
    method Grant(i: nat, n: nat) returns (r: Outcome)
      requires Valid() && i < blocks && 1 <= n <= 32 && Passes(bits, i, n)
      modifies this, data, bitset
      ensures r == OutOfBounds || r == Granted(BLOCK * i + INFO)
      ensures r.OutOfBounds? <==> i + n > old(|bits|)
      ensures r.Granted? ==> bits == SetRange(old(bits), i, i + n)
      ensures r.Granted? && Fits(blocks, i, n) ==> Valid() && live == old(live)[i := n]
      ensures r.Granted? && !Fits(blocks, i, n) ==> live == old(live)
      ensures SameOutside(old(data[..]), data[..], i)
    {
      ghost var b, d, t := bits, data[..], taken;
      var ok := Take(i, n);
      if !ok {
        return OutOfBounds;
      }
      if Fits(blocks, i, n) {
        EnterGrant(b, d, t, i, n);
      }
      return Granted(INFO + i * BLOCK);
    }

    /** The first block whose range passes the mask test, or `blocks` if none does. */
    method FirstFit(n: nat) returns (i: nat)
      requires Sized() && 1 <= n <= 32
      ensures if i == blocks then forall h: nat :: h < blocks ==> !Passes(bits, h, n)
              else IsFirstFit(bits, blocks, n, i)
    {
      var mask := Shr(Ones(), 32 - n);
      i := 0;
      while i < blocks
        invariant i <= blocks && forall h: nat :: h < i ==> !Passes(bits, h, n)
      {
        MaskTest(bitset[..], bits, i, n);
        assert bitset[..][i / 32] == bitset[i / 32];
        if IsZero(And(bitset[i / 32], Shl(mask, i % 32))) {
          return;
        }
        i := i + 1;
      }
    }

    /** First fit. A grant that fits keeps the pool valid and touches no other allocation. */
    method Alloc(size: nat) returns (r: Outcome, ghost i: nat)
      requires Valid() && BlockCount(size) <= 32
      modifies this, data, bitset
      ensures var n := BlockCount(size);
        r.OutOfMemory? <==> forall h: nat :: h < blocks ==> !Passes(old(bits), h, n)
      ensures r.OutOfMemory? ==> unchanged(this) && unchanged(data) && unchanged(bitset)
      ensures if r.OutOfMemory? then i == blocks else IsFirstFit(old(bits), blocks, BlockCount(size), i)
      ensures r.OutOfBounds? <==> i < blocks && i + BlockCount(size) > old(|bits|)
      ensures r.Granted? ==> r.ptr == BLOCK * i + INFO && bits == SetRange(old(bits), i, i + BlockCount(size))
      ensures r.Granted? && Fits(blocks, i, BlockCount(size)) ==> Valid() && live == old(live)[i := BlockCount(size)]
      ensures r.Granted? && !Fits(blocks, i, BlockCount(size)) ==> live == old(live)
      ensures SameOutside(old(data[..]), data[..], i)
    {
      var n := BlockCount(size);
      var c := FirstFit(n);
      i := c;
      if c == blocks {
        return OutOfMemory, c;
      }
      r := Grant(c, n);
    }

    /** Gives back the blocks from `s` on, as many as the count in front of `ptr` says. */
    method Release(ptr: nat, ghost s: nat, ghost n: nat)
      requires Represents(bitset[..], bits) && ptr == BLOCK * s + INFO <= data.Length
      requires HasCount(data[..], s, n) && s + n <= |bits| && n <= taken
      modifies this`bits, this`taken, data, bitset
      ensures Represents(bitset[..], bits) && bits == ClearRange(old(bits), s, s + n)
      ensures taken == old(taken) - n && SameOutside(old(data[..]), data[..], s)
    {
      var len := GetBlockCount(ptr, s, n);
      SetBlockCount(ptr, 0, s);
      taken := taken - len;
      assert ptr / BLOCK == s;
      ClearBits(ptr / BLOCK, len);
    }

    ghost method EnterFree(b: seq<bool>, d: Bytes, t: nat, s: nat)
      requires Sized() && Accounted(b, d, blocks, live, owner, t) && s in live && blocks <= |b|
      requires bits == ClearRange(b, s, s + live[s]) && taken == t - live[s] && SameOutside(d, data[..], s)
      modifies this`live, this`owner
      ensures Valid() && live == old(live) - {s}
    {
      ghost var live', owner' := FreeAccounted(b, d, data[..], blocks, live, owner, t, s, bits, taken);
      assert Accounted(bits, data[..], blocks, live', owner', taken);
      Enter(live', owner');
    }

    /** Frees a live allocation: clears the bits set for it, and no others. */
    method Free(ptr: nat, ghost s: nat)
      requires Valid() && s in live && ptr == BLOCK * s + INFO
      modifies this, data, bitset
      ensures Valid() && live == old(live) - {s}
      ensures bits == ClearRange(old(bits), s, s + old(live)[s])
      ensures SameOutside(old(data[..]), data[..], s)
    {
      ghost var b, d, t, n := bits, data[..], taken, live[s];
      FreeCovered(b, d, blocks, live, owner, t, s);
      Release(ptr, s, n);
      EnterFree(b, d, t, s);
    }

    /** The caller writes inside the size it was granted: every count and all other data survive. */
    method Write(s: nat, size: nat, off: nat, x: byte)
      requires Valid() && s in live && BlockCount(size) == live[s] && off < size
      modifies data
      ensures Valid() && data[..] == old(data[..])[BLOCK * s + INFO + off := x]
      ensures forall t, k :: t in live && t != s && BLOCK * t <= k < BLOCK * (t + live[t]) ==>
        0 <= k < data.Length && data[k] == old(data[k])
    {
      LiveRanges(bits, blocks, live, owner);
      ghost var d := data[..];
      data[BLOCK * s + INFO + off] := x;
      CountedWrite(d, data[..], live, s, BLOCK * s + INFO + off);
    }
  }

  // ---------- Requests of one size ----------

  ghost predicate AllTaken(bits: seq<bool>, blocks: nat)
    requires blocks <= |bits|
  {
    forall b :: 0 <= b < blocks ==> bits[b]
  }

  lemma NoneFree(bits: seq<bool>, blocks: nat, live: map<nat, nat>, n: nat)
    requires UniformBooks(bits, blocks, live, n) && blocks <= |bits|
    ensures n <= 32 && ((forall h: nat :: h < blocks ==> !Passes(bits, h, n)) <==> AllTaken(bits, blocks))
  {
    if b :| 0 <= b < blocks && !bits[b] {
      var h := FreeBlockPasses(bits, blocks, n, b);
    }
    assert forall h: nat :: h < blocks && Passes(bits, h, n) ==> !bits[h];
  }

  /** One request: it fails only if every block is taken, and else it fits. */
  method AllocUniform(pool: Pool, size: nat, ghost n: nat) returns (r: Outcome, ghost i: nat)
    requires pool.Uniform(n) && n == BlockCount(size)
    modifies pool, pool.data, pool.bitset
    ensures pool.Uniform(n) && r != OutOfBounds
    ensures old(pool.blocks <= |pool.bits|) && (r.OutOfMemory? <==> AllTaken(old(pool.bits), pool.blocks))
    ensures r.OutOfMemory? ==> pool.live == old(pool.live)
    ensures r.Granted? ==> r.ptr == BLOCK * i + INFO && Fits(pool.blocks, i, n) && Clear(old(pool.bits), i, i + n)
    ensures r.Granted? ==> i !in old(pool.live) && pool.live == old(pool.live)[i := n]
  {
    ghost var before, blocks, live, owner := pool.bits, pool.blocks, pool.live, pool.owner;
    NoneFree(before, blocks, live, n);
    r, i := pool.Alloc(size);
    if !r.OutOfMemory? {
      UniformGrant(before, blocks, live, owner, n, i, pool.bits, pool.live);
    }
  }

  method FreeUniform(pool: Pool, ptr: nat, ghost s: nat, ghost n: nat)
    requires pool.Uniform(n) && s in pool.live && ptr == BLOCK * s + INFO
    modifies pool, pool.data, pool.bitset
    ensures pool.Uniform(n) && pool.live == old(pool.live) - {s}
  {
    ghost var bits, blocks, live := pool.bits, pool.blocks, pool.live;
    pool.Free(ptr, s);
    UniformFree(bits, blocks, live, n, s, pool.bits, pool.live);
  }

  datatype Request = Take | Give(k: nat)

  /** What was granted and not given back: different live ranges. */
  ghost predicate Held(held: seq<nat>, live: map<nat, nat>) {
    && (forall k :: 0 <= k < |held| ==> held[k] >= INFO && (held[k] - INFO) % BLOCK == 0 && (held[k] - INFO) / BLOCK in live)
    && forall j, k :: 0 <= j < k < |held| ==> held[j] != held[k]
  }

  lemma HeldMore(held: seq<nat>, live: map<nat, nat>, i: nat, n: nat)
    requires Held(held, live) && i !in live
    ensures Held(held + [BLOCK * i + INFO], live[i := n])
  {
  }

  lemma HeldLess(held: seq<nat>, live: map<nat, nat>, k: nat) returns (s: nat)
    requires Held(held, live) && k < |held|
    ensures s in live && held[k] == BLOCK * s + INFO && Held(held[..k] + held[k + 1..], live - {s})
  {
    s := (held[k] - INFO) / BLOCK;
  }

  method ServeOne(pool: Pool, size: nat, ghost n: nat, held: seq<nat>, request: Request) returns (held': seq<nat>)
    requires pool.Uniform(n) && n == BlockCount(size) && Held(held, pool.live)
    modifies pool, pool.data, pool.bitset
    ensures pool.Uniform(n) && Held(held', pool.live)
  {
    held' := held;
    ghost var live := pool.live;
    if request.Take? {
      var r;
      ghost var i;
      r, i := AllocUniform(pool, size, n);
      if r.Granted? {
        HeldMore(held, live, i, n);
        held' := held + [r.ptr];
      }
    } else if request.k < |held| {
      ghost var s := HeldLess(held, live, request.k);
      FreeUniform(pool, held[request.k], s, n);
      held' := held[..request.k] + held[request.k + 1..];
    }
  }

  /**
   Any number of requests of one size, and frees of what they granted, from a new pool on: the
   pool stays uniform, so that every grant lies inside its word and the pool, none overlaps
   another, and a request fails only when every block is taken.
   */
  method ServeUniform(blockCount: nat, size: nat, requests: seq<Request>) returns (pool: Pool, held: seq<nat>)
    requires var n := BlockCount(size); n > 0 && 32 % n == 0 && blockCount % n == 0
    ensures fresh(pool) && pool.blocks == blockCount && pool.Uniform(BlockCount(size)) && Held(held, pool.live)
  {
    ghost var n := BlockCount(size);
    pool := new Pool(blockCount);
    held := [];
    var i := 0;
    while i < |requests|
      invariant i <= |requests| && fresh(pool) && fresh(pool.data) && fresh(pool.bitset) && pool.blocks == blockCount
      invariant pool.Uniform(n) && Held(held, pool.live)
    {
      held := ServeOne(pool, size, n, held, requests[i]);
      i := i + 1;
    }
  }

  // ---------- Two runs that end outside what was free ----------

  /** The request for `n` blocks in state `b` is granted from block `i` on, inside the bitset. */
  ghost predicate Grants(b: seq<bool>, blocks: nat, n: nat, i: nat, b': seq<bool>) {
    IsFirstFit(b, blocks, n, i) && i + n <= |b| && b' == SetRange(b, i, i + n)
  }

  method AllocAt(pool: Pool, size: nat, ghost blocks: nat, ghost n: nat, ghost i: nat,
                 ghost b: seq<bool>, ghost b': seq<bool>) returns (r: Outcome)
    requires pool.Valid() && pool.bits == b && pool.blocks == blocks && n == BlockCount(size) <= 32
    requires Grants(b, blocks, n, i, b')
    modifies pool, pool.data, pool.bitset
    ensures r == Granted(BLOCK * i + INFO) && pool.bits == b'
    ensures Fits(blocks, i, n) ==> pool.Valid() && pool.live == old(pool.live)[i := n]
    ensures !Fits(blocks, i, n) ==> pool.live == old(pool.live)
  {
    ghost var j;
    assert i < blocks && Passes(b, i, n);
    r, j := pool.Alloc(size);
    assert !r.OutOfMemory?;
    OneFirstFit(b, blocks, n, i, j);
  }

  /** Block `k` of 64 is taken if it lies in [lo, hi). */
  ghost predicate TakenIn(bits: seq<bool>, lo: nat, hi: nat) {
    |bits| == 64 && forall k :: 0 <= k < 64 ==> (bits[k] <==> lo <= k < hi)
  }

  /** A new pool of 64 blocks, after a request for 32 blocks. */
  method FillWord() returns (pool: Pool, first: Outcome)
    ensures pool.Valid() && fresh(pool) && fresh(pool.data) && fresh(pool.bitset) && pool.blocks == 64
    ensures first == Granted(INFO) && pool.live == map[0 := 32] && TakenIn(pool.bits, 0, 32)
  {
    pool := new Pool(64);
    ghost var b0 := pool.bits;
    ghost var b1 := SetRange(b0, 0, 32);
    first := AllocAt(pool, 251, 64, 32, 0, b0, b1);
  }

  lemma FillStep(b: seq<bool>) returns (b': seq<bool>)
    requires TakenIn(b, 0, 32)
    ensures Grants(b, 64, 1, 32, b') && TakenIn(ClearRange(b', 0, 32), 32, 33)
  {
    b' := SetRange(b, 32, 33);
    forall h: nat | h < 32 ensures !Passes(b, h, 1) {
      assert b[h];
    }
  }

  /** And after one for a single block. */
  method Fill() returns (pool: Pool, first: Outcome, second: Outcome)
    ensures pool.Valid() && fresh(pool) && fresh(pool.data) && fresh(pool.bitset) && pool.blocks == 64
    ensures first == Granted(INFO) && second == Granted(BLOCK * 32 + INFO)
    ensures pool.live == map[0 := 32, 32 := 1] && TakenIn(ClearRange(pool.bits, 0, 32), 32, 33)
  {
    pool, first := FillWord();
    ghost var b := pool.bits;
    ghost var b' := FillStep(b);
    second := AllocAt(pool, 3, 64, 1, 32, b, b');
  }

  /** And after a free of the first. */
  method Fragment() returns (pool: Pool, second: Outcome)
    ensures pool.Valid() && pool.blocks == 64 && TakenIn(pool.bits, 32, 33) && second == Granted(BLOCK * 32 + INFO)
    ensures 32 in pool.live && fresh(pool) && fresh(pool.data) && fresh(pool.bitset)
  {
    var first;
    pool, first, second := Fill();
    pool.Free(first.ptr, 0);
  }

  lemma StraddleSteps(b0: seq<bool>) returns (b1: seq<bool>, b2: seq<bool>)
    requires TakenIn(b0, 32, 33)
    ensures Grants(b0, 64, 31, 0, b1) && Grants(b1, 64, 2, 31, b2)
  {
    b1 := SetRange(b0, 0, 31);
    b2 := SetRange(b1, 31, 33);
    forall h: nat | h < 31 ensures !Passes(b1, h, 2) {
      assert b1[h];
    }
  }

  /** Requests for 31 and for two blocks in that pool: the last grant overlaps one that is still live. */
  method Straddles() returns (pool: Pool, second: Outcome, last: Outcome)
    ensures second == Granted(BLOCK * 32 + INFO) && 32 in pool.live
    ensures last.Granted? && last.ptr < second.ptr < last.ptr + 11
  {
    pool, second := Fragment();
    ghost var b0 := pool.bits;
    ghost var b1, b2 := StraddleSteps(b0);
    var third := AllocAt(pool, 243, 64, 31, 0, b0, b1);
    last := AllocAt(pool, 11, 64, 2, 31, b1, b2);
  }

  lemma OutsideSteps(b0: seq<bool>) returns (b1: seq<bool>, b2: seq<bool>)
    requires |b0| == 64 && Clear(b0, 0, 64)
    ensures Grants(b0, 33, 32, 0, b1) && Grants(b1, 33, 2, 32, b2)
  {
    b1 := SetRange(b0, 0, 32);
    b2 := SetRange(b1, 32, 34);
    forall h: nat | h < 32 ensures !Passes(b1, h, 2) {
      assert b1[h];
    }
  }

  /** In a new pool of 33 blocks the second of two requests, for two blocks, ends outside the pool. */
  method LeavesPool() returns (pool: Pool, last: Outcome)
    ensures last.Granted? && last.ptr - INFO + BLOCK * BlockCount(11) > pool.data.Length
  {
    pool := new Pool(33);
    ghost var b0 := pool.bits;
    ghost var b1, b2 := OutsideSteps(b0);
    var first := AllocAt(pool, 251, 33, 32, 0, b0, b1);
    last := AllocAt(pool, 11, 33, 2, 32, b1, b2);
  }

  lemma CountedGrant(d: Bytes, d': Bytes, live: map<nat, nat>, i: nat, n: nat)
    requires Counted(d, live) && SameOutside(d, d', i) && BLOCK * i + INFO <= |d| && HasCount(d', i, n) && i !in live
    ensures Counted(d', live[i := n])
  {
    forall s | s in live ensures BLOCK * s + INFO <= |d'| && HasCount(d', s, live[s]) {
      assert HasCount(d, s, live[s]);
    }
  }

  lemma CountedFree(d: Bytes, d': Bytes, live: map<nat, nat>, s: nat)
    requires Counted(d, live) && SameOutside(d, d', s) && s in live
    ensures Counted(d', live - {s})
  {
    forall t | t in live && t != s ensures BLOCK * t + INFO <= |d'| && HasCount(d', t, live[t]) {
      assert HasCount(d, t, live[t]);
    }
  }

  lemma CountedWrite(d: Bytes, d': Bytes, live: map<nat, nat>, s: nat, at: nat)
    requires Counted(d, live) && |d'| == |d| && s in live && BLOCK * s + INFO <= at < BLOCK * (s + live[s])
    requires forall k :: 0 <= k < |d| && k != at ==> d'[k] == d[k]
    requires forall t, u :: t in live && u in live && t < u ==> t + live[t] <= u
    ensures Counted(d', live)
  {
    forall t | t in live ensures BLOCK * t + INFO <= |d'| && HasCount(d', t, live[t]) {
      assert HasCount(d, t, live[t]);
    }
  }
}
