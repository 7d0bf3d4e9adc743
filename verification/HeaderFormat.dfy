/**
 Header blocks (mboxParseEmailHeaders, src/mbox-parser.c) as functions of the bytes: what one
 pass of each loop takes from the buffer, and the printed form it inverts. Folding is that of
 sections 2.2 and 2.2.3 of RFC 5322.

 The buffer is `mem`, of which the first `len` bytes belong to the message; the parser may look
 at bytes behind them, but not outside `mem`.
 */
module HeaderFormat {
  import opened Bytes
  import opened KeyOrder

  const COLON: byte := 58

  /** "__FROM_LINE__" */
  const FROM_LINE_KEY: Bytes := [95, 95, 70, 82, 79, 77, 95, 76, 73, 78, 69, 95, 95]
  /** "=?utf-8?Q?" and "?=" */
  const MIME_PREFIX: Bytes := [61, 63, 117, 116, 102, 45, 56, 63, 81, 63]
  const MIME_SUFFIX: Bytes := [63, 61]

  // ---------- Scanning ----------

  /** Pairs in the order they are inserted, and where the scan ends; or why the model stops. */
  datatype Scan = Scanned(pairs: seq<Pair>, next: nat) | Overrun

  predicate IsLine(b: byte) {
    b == CR || b == LF
  }

  predicate IsFold(b: byte) {
    b == SPACE || b == TAB
  }

  /** Drops the bytes a value never holds. */
  function Strip(s: Bytes): Bytes {
    if s == [] then [] else Strip(s[..|s| - 1]) + if s[|s| - 1] == CR || s[|s| - 1] == TAB then [] else [s[|s| - 1]]
  }

  function DropCR(s: Bytes): Bytes {
    if s == [] then [] else DropCR(s[..|s| - 1]) + if s[|s| - 1] == CR then [] else [s[|s| - 1]]
  }

  /** How much of "From " stands at `o`, where it can be compared at all. */
  function FromMatch(mem: Bytes, o: nat, k: nat): (r: nat)
    requires k <= 5 && o + k <= |mem|
    ensures k <= r <= 5 && o + r <= |mem|
    decreases 5 - k
  {
    if k == 5 || o + k == |mem| || mem[o + k] != FROM[k] then k else FromMatch(mem, o, k + 1)
  }

  /** A From line, if one stands at `o`: its bytes are left over in front of the next key. */
  function FromPart(mem: Bytes, o: nat): Option<(Bytes, seq<Pair>, nat)>
    requires o <= |mem|
    ensures FromPart(mem, o).Some? ==> o <= FromPart(mem, o).value.2 <= |mem|
  {
    var k := FromMatch(mem, o, 0);
    if k < 5 then if o + k == |mem| then None else Some(([], [], o)) else
      var nl := Find(mem, o, LF);
      if nl == |mem| then None else
        var line := DropCR(mem[o..nl]);
        Some((line, [Pair(FROM_LINE_KEY, line)], nl + 1))
  }

  /** A value and its folded lines, from `o` on, after what was read already. */
  function ValueFrom(mem: Bytes, o: nat, acc: Bytes): Option<(Bytes, nat)>
    requires o <= |mem|
    ensures ValueFrom(mem, o, acc).Some? ==> o < ValueFrom(mem, o, acc).value.1 < |mem|
    decreases |mem| - o
  {
    var nl := Find(mem, o, LF);
    if nl == |mem| || nl + 1 == |mem| then None else
      var value := acc + Strip(mem[o..nl]);
      if IsFold(mem[nl + 1]) then ValueFrom(mem, nl + 1, value) else Some((value, nl + 1))
  }

  predicate IsMimeEncoded(value: Bytes) {
    |value| >= 10 && value[..10] == MIME_PREFIX && value[|value| - 2..] == MIME_SUFFIX
  }

  /**
   What the decoder that copies makes of an encoded value. It copies from behind the value, so
   that C leaves its result open: every function stands for it.
   */
  type Decoder = Bytes -> Bytes

  function Stored(dec: Decoder, value: Bytes): Bytes {
    if IsMimeEncoded(value) then dec(value) else value
  }

  /** One turn of the main loop: a From line if there is one, a key, and its value. */
  function OneHeader(dec: Decoder, mem: Bytes, o: nat): (r: Scan)
    requires o <= |mem|
    ensures r.Scanned? ==> o < r.next < |mem|
  {
    var from := FromPart(mem, o);
    if from.None? then Overrun else HeaderAfter(dec, mem, from.value.0, from.value.1, from.value.2)
  }

  function HeaderAfter(dec: Decoder, mem: Bytes, line: Bytes, pairs: seq<Pair>, o: nat): (r: Scan)
    requires o <= |mem|
    ensures r.Scanned? ==> o < r.next < |mem|
  {
    var c := Find(mem, o, COLON);
    if c + 2 > |mem| then Overrun else
      var value := ValueFrom(mem, c + 2, []);
      if value.None? then Overrun
      else Scanned(pairs + [Pair(line + mem[o..c], Stored(dec, value.value.0))], value.value.1)
  }

  /** mboxBufGetChar: NUL behind the message. */
  function GetChar(mem: Bytes, len: nat, o: nat): byte
    requires o < |mem|
  {
    if o > len then NUL else mem[o]
  }

  function SkipLines(mem: Bytes, len: nat, o: nat): (r: nat)
    requires len < |mem|
    ensures r >= o
    decreases len + 1 - o
  {
    if o <= len && IsLine(mem[o]) then SkipLines(mem, len, o + 1) else o
  }

  /** The main loop: headers until a blank line, or the end of the message. */
  function ParseLoop(dec: Decoder, mem: Bytes, len: nat, o: nat, pairs: seq<Pair>): Scan
    requires len < |mem| && o <= |mem|
    decreases |mem| - o
  {
    if o >= len then Scanned(pairs, o) else
      var h := OneHeader(dec, mem, o);
      if !h.Scanned? then h
      else if IsLine(GetChar(mem, len, h.next)) then Scanned(pairs + h.pairs, SkipLines(mem, len, h.next))
      else ParseLoop(dec, mem, len, h.next, pairs + h.pairs)
  }

  /** The line ends in front of the first header. */
  function SkipLead(mem: Bytes, o: nat): (r: nat)
    requires o <= |mem|
    ensures o <= r <= |mem|
    decreases |mem| - o
  {
    if o < |mem| && IsLine(mem[o]) then SkipLead(mem, o + 1) else o
  }

  function ParseHeaders(dec: Decoder, mem: Bytes, len: nat, o: nat): Scan
    requires len < |mem| && o <= |mem|
  {
    var start := SkipLead(mem, o);
    if start == |mem| then Overrun else ParseLoop(dec, mem, len, start, [])
  }

  // ---------- Printing ----------

  /** A header, its value in the parts it is folded into. */
  datatype Header = Header(key: Bytes, parts: seq<Bytes>)

  function PrintParts(parts: seq<Bytes>): Bytes {
    if parts == [] then [] else parts[0] + ([LF] + PrintParts(parts[1..]))
  }

  function Concat(parts: seq<Bytes>): Bytes {
    if parts == [] then [] else parts[0] + Concat(parts[1..])
  }

  function PrintHeader(h: Header): Bytes {
    h.key + ([COLON, SPACE] + PrintParts(h.parts))
  }

  function PrintHeaders(hs: seq<Header>): Bytes {
    if hs == [] then [] else PrintHeader(hs[0]) + PrintHeaders(hs[1..])
  }

  /** Unfolding: the line ends go, the blanks behind them stay; CR and tabs are dropped. */
  function Unfolded(dec: Decoder, h: Header): Pair {
    Pair(h.key, Stored(dec, Strip(Concat(h.parts))))
  }

  function UnfoldedAll(dec: Decoder, hs: seq<Header>): seq<Pair> {
    if hs == [] then [] else [Unfolded(dec, hs[0])] + UnfoldedAll(dec, hs[1..])
  }

  predicate NoLF(s: Bytes) {
    forall k :: 0 <= k < |s| ==> s[k] != LF
  }

  /** All parts but the first start with a blank. */
  ghost predicate Folded(parts: seq<Bytes>) {
    && (forall i :: 0 <= i < |parts| ==> NoLF(parts[i]))
    && forall i :: 1 <= i < |parts| ==> parts[i] != [] && IsFold(parts[i][0])
  }

  predicate GoodKey(key: Bytes) {
    && (forall k :: 0 <= k < |key| ==> key[k] != COLON && key[k] != LF)
    && (key != [] ==> !IsLine(key[0]) && !IsFold(key[0]))
    && !(FROM <= key)
  }

  ghost predicate GoodHeader(h: Header) {
    GoodKey(h.key) && h.parts != [] && Folded(h.parts)
  }

  ghost predicate GoodHeaders(hs: seq<Header>) {
    forall i :: 0 <= i < |hs| ==> GoodHeader(hs[i])
  }
}
