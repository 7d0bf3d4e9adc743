/** Bytes as the C library sees them, and the sequence facts every module shares. */
module Bytes {
  newtype byte = x: int | 0 <= x < 256

  type Bytes = seq<byte>

  const NUL: byte := 0
  const TAB: byte := 9
  const LF: byte := 10
  const CR: byte := 13
  const SPACE: byte := 32

  /** "From " */
  const FROM: Bytes := [70, 114, 111, 109, 32]

  /** How much one read asks for. */
  const READ_SIZE: nat := 300000

  function Min(a: nat, b: nat): nat {
    if a < b then a else b
  }

  datatype Option<+T> = None | Some(value: T)

  /** A piece of a piece is a piece. */
  lemma SliceOfSlice(file: Bytes, a: nat, b: nat, i: nat, j: nat)
    requires a <= b <= |file| && i <= j <= b - a
    ensures file[a..b][i..j] == file[a + i..a + j]
  {
    assert forall k :: 0 <= k < j - i ==> file[a..b][i..j][k] == file[a + i..a + j][k];
  }

  /** The first place of `b` at or behind `o`, or the end. */
  function Find(data: Bytes, o: nat, b: byte): (r: nat)
    requires o <= |data|
    ensures o <= r <= |data|
    decreases |data| - o
  {
    if o == |data| || data[o] == b then o else Find(data, o + 1, b)
  }

  lemma {:induction false} FindStops(s: Bytes, o: nat, b: byte)
    requires o <= |s|
    ensures var r := Find(s, o, b); (forall k :: o <= k < r ==> s[k] != b) && (r < |s| ==> s[r] == b)
    decreases |s| - o
  {
    if o < |s| && s[o] != b {
      FindStops(s, o + 1, b);
    }
  }

  lemma {:induction false} FindIs(data: Bytes, o: nat, r: nat, b: byte)
    requires o <= r < |data| && data[r] == b && forall k :: o <= k < r ==> data[k] != b
    ensures Find(data, o, b) == r
    decreases r - o
  {
    if o < r {
      FindIs(data, o + 1, r, b);
    }
  }

  /** The text stands in the data at `o`. */
  ghost predicate Stands(data: Bytes, o: nat, text: Bytes) {
    o + |text| <= |data| && forall k: nat :: k < |text| ==> Same(data, o, text, k)
  }

  predicate Same(data: Bytes, o: nat, text: Bytes, k: nat)
    requires k < |text| && o + k < |data|
  {
    data[o + k] == text[k]
  }

  lemma StandsParts(data: Bytes, o: nat, a: Bytes, b: Bytes, m: nat)
    requires Stands(data, o, a + b) && m == o + |a|
    ensures Stands(data, o, a) && Stands(data, m, b)
  {
    forall k: nat | k < |a| ensures Same(data, o, a, k) {
      assert Same(data, o, a + b, k);
    }
    forall k: nat | k < |b| ensures Same(data, m, b, k) {
      assert Same(data, o, a + b, |a| + k);
    }
  }

  /** A token that stands in front of a `b`, and holds none, is what a scan for `b` passes. */
  lemma FindToken(data: Bytes, o: nat, token: Bytes, b: byte, r: nat)
    requires Stands(data, o, token) && Stands(data, r, [b]) && r == o + |token|
    requires forall k :: 0 <= k < |token| ==> token[k] != b
    ensures Find(data, o, b) == r && data[o..r] == token
  {
    assert Same(data, r, [b], 0);
    forall k | o <= k < r ensures data[k] == token[k - o] {
      assert Same(data, o, token, k - o);
    }
    FindIs(data, o, r, b);
  }
}
