/**
 `utils/messagedigest.cc`: the sixteen-word circular schedule, expanded in place over the
 bytes of the block being hashed.
 */
module Sha1 {
  import opened Sha1Spec

  function Rotate8(x: word): word { (x << 8) | (x >> 24) }
  function Rotate24(x: word): word { (x << 24) | (x >> 8) }

  function LittleEndian(b0: bv8, b1: bv8, b2: bv8, b3: bv8): word {
    (b3 as word << 24) | (b2 as word << 16) | (b1 as word << 8) | (b0 as word)
  }

  /** The byte swap of `blk0` on a little-endian host. */
  function SwapBytes(l: word): word {
    (Rotate24(l) & 0xFF00FF00) | (Rotate8(l) & 0x00FF00FF)
  }

  /** `block->l[i]`: slot i of the block seen as sixteen host words. */
  function Slot(s: Block, i: nat): word
    requires i < 16
  {
    LittleEndian(s[4 * i], s[4 * i + 1], s[4 * i + 2], s[4 * i + 3])
  }

  /** Before round i the ring holds the last sixteen schedule words, and raw input beyond them. */
  ghost predicate Ring(s: Block, m: Block, i: nat) {
    && (forall t :: 0 <= t < i && i - 16 <= t ==> Slot(s, t % 16) == W(m, t))
    && (forall j :: i <= j < 16 ==> Slot(s, j) == Slot(m, j))
  }

  lemma SwapReadsBigEndian(b0: bv8, b1: bv8, b2: bv8, b3: bv8)
    ensures SwapBytes(LittleEndian(b0, b1, b2, b3)) == BigEndian(b0, b1, b2, b3)
  {
  }

  lemma StoredWordReadsBack(x: word)
    ensures LittleEndian((x & 0xff) as bv8, ((x >> 8) & 0xff) as bv8,
                         ((x >> 16) & 0xff) as bv8, ((x >> 24) & 0xff) as bv8) == x
  {
  }

  /** The rewritten choose and majority forms of the macros R0, R1 and R3. */
  function ChooseByMask(w: word, x: word, y: word): word { (w & (x ^ y)) ^ y }
  function MajorityByMask(w: word, x: word, y: word): word { ((w | x) & y) | (w & x) }

  function Select(i: nat, w: word, x: word, y: word): word {
    if i < 20 then ChooseByMask(w, x, y)
    else if i < 40 then Parity(w, x, y)
    else if i < 60 then MajorityByMask(w, x, y)
    else Parity(w, x, y)
  }

  lemma ChooseForms(w: word, x: word, y: word)
    ensures (w & (x ^ y)) ^ y == (w & x) | (!w & y)
  {
  }

  lemma MajorityForms(w: word, x: word, y: word)
    ensures ((w | x) & y) | (w & x) == (w & x) | (w & y) | (x & y)
  {
  }

  lemma MasksAgree(w: word, x: word, y: word)
    ensures ChooseByMask(w, x, y) == Choose(w, x, y)
    ensures MajorityByMask(w, x, y) == Majority(w, x, y)
  {
    ChooseForms(w, x, y);
    MajorityForms(w, x, y);
  }

  lemma SelectIsF(i: nat, w: word, x: word, y: word)
    ensures Select(i, w, x, y) == F(i, w, x, y)
  {
    hide Choose, Parity, Majority, ChooseByMask, MajorityByMask;
    MasksAgree(w, x, y);
  }

  /** The right-hand side `z += f + blk + K + rol(v, 5)` of every macro. */
  function MacroSum(z: word, f: word, b: word, k: word, v5: word): word { z + (f + b + k + v5) }

  lemma SumOrder(z: word, f: word, b: word, k: word, v5: word)
    ensures z + (f + b + k + v5) == v5 + f + z + b + k
  {
  }

  lemma MacroSumIsTemp(z: word, f: word, b: word, k: word, v5: word)
    ensures MacroSum(z, f, b, k, v5) == Temp(v5, f, z, b, k)
  {
    SumOrder(z, f, b, k, v5);
  }

  /** Renaming the registers instead of moving them is the standard's shift. */
  lemma MacroIsShift(i: nat, v: word, w: word, x: word, y: word, z: word, b: word)
    ensures Registers(MacroSum(z, Select(i, w, x, y), b, K(i), Rotate5(v)), v, Rotate30(w), x, y)
         == Shift(Registers(v, w, x, y, z), b, i)
  {
    hide Select, F, Rotate5, Rotate30, K, MacroSum, Temp;
    SelectIsF(i, w, x, y);
    MacroSumIsTemp(z, Select(i, w, x, y), b, K(i), Rotate5(v));
  }

  /** Assigns `block->l[i]`: the four bytes behind the union member are overwritten. */
  method StoreSlot(buf: array<bv8>, off: nat, i: nat, x: word)
    requires off + 64 <= buf.Length && i < 16
    modifies buf
    ensures Slot(buf[off..off + 64], i) == x
    ensures forall k :: 0 <= k < buf.Length && !(off + 4 * i <= k < off + 4 * i + 4) ==> buf[k] == old(buf[k])
  {
    var at := off + 4 * i;
    buf[at] := (x & 0xff) as bv8;
    buf[at + 1] := ((x >> 8) & 0xff) as bv8;
    buf[at + 2] := ((x >> 16) & 0xff) as bv8;
    buf[at + 3] := ((x >> 24) & 0xff) as bv8;
    StoredWordReadsBack(x);
  }

  /** Only slot i changed, so the ring moves on to i + 1 when slot i & 15 received W(i). */
  lemma RingAdvances(before: Block, after: Block, m: Block, i: nat)
    requires Ring(before, m, i)
    requires Slot(after, i % 16) == W(m, i)
    requires forall j :: 0 <= j < 16 && j != i % 16 ==> Slot(after, j) == Slot(before, j)
    ensures Ring(after, m, i + 1)
  {
    hide Slot, W;
    forall t | 0 <= t < i + 1 && i + 1 - 16 <= t
      ensures Slot(after, t % 16) == W(m, t)
    {
      if t != i {
        assert t % 16 != i % 16;
      }
    }
  }

  lemma OtherSlots(s: Block, s': Block, i: nat)
    requires i < 16
    requires forall k :: 0 <= k < 64 && !(4 * i <= k < 4 * i + 4) ==> s'[k] == s[k]
    ensures forall j :: 0 <= j < 16 && j != i ==> Slot(s', j) == Slot(s, j)
  {
    hide LittleEndian;
  }

  /** The macros `blk0` and `blk`: compute W(i), store it over slot i & 15 and yield it. */
  method Expand(buf: array<bv8>, off: nat, i: nat, ghost m: Block) returns (x: word)
    requires off + 64 <= buf.Length
    requires Ring(buf[off..off + 64], m, i)
    modifies buf
    ensures x == W(m, i)
    ensures Ring(buf[off..off + 64], m, i + 1)
    ensures forall k :: 0 <= k < buf.Length && !(off <= k < off + 64) ==> buf[k] == old(buf[k])
  {
    var s: Block := buf[off..off + 64];
    if i < 16 {
      x := SwapBytes(Slot(s, i));
      SwapReadsBigEndian(m[4 * i], m[4 * i + 1], m[4 * i + 2], m[4 * i + 3]);
    } else {
      x := Rotate1(Slot(s, (i + 13) % 16) ^ Slot(s, (i + 8) % 16) ^ Slot(s, (i + 2) % 16) ^ Slot(s, i % 16));
      RingLookback(s, m, i);
    }
    StoreSlot(buf, off, i % 16, x);
    ghost var s': Block := buf[off..off + 64];
    OtherSlots(s, s', i % 16);
    RingAdvances(s, s', m, i);
  }

  /** The four slots `blk` reads hold W(i-3), W(i-8), W(i-14) and W(i-16). */
  lemma RingLookback(s: Block, m: Block, i: nat)
    requires i >= 16 && Ring(s, m, i)
    ensures Slot(s, (i + 13) % 16) == W(m, i - 3)
    ensures Slot(s, (i + 8) % 16) == W(m, i - 8)
    ensures Slot(s, (i + 2) % 16) == W(m, i - 14)
    ensures Slot(s, i % 16) == W(m, i - 16)
  {
    assert (i - 3) % 16 == (i + 13) % 16;
    assert (i - 8) % 16 == (i + 8) % 16;
    assert (i - 14) % 16 == (i + 2) % 16;
    assert (i - 16) % 16 == i % 16;
    assert Slot(s, (i - 3) % 16) == W(m, i - 3);
    assert Slot(s, (i - 8) % 16) == W(m, i - 8);
    assert Slot(s, (i - 14) % 16) == W(m, i - 14);
    assert Slot(s, (i - 16) % 16) == W(m, i - 16);
  }

  /** One macro line, R0 to R4 chosen by the round number as the eighty lines choose them. */
  method Round(buf: array<bv8>, off: nat, v: word, w: word, x: word, y: word, z: word, i: nat, ghost m: Block)
    returns (w': word, z': word)
    requires off + 64 <= buf.Length
    requires Ring(buf[off..off + 64], m, i)
    modifies buf
    ensures Registers(z', v, w', x, y) == Shift(Registers(v, w, x, y, z), W(m, i), i)
    ensures Ring(buf[off..off + 64], m, i + 1)
    ensures forall k :: 0 <= k < buf.Length && !(off <= k < off + 64) ==> buf[k] == old(buf[k])
  {
    hide *;
    var b := Expand(buf, off, i, m);
    z' := MacroSum(z, Select(i, w, x, y), b, K(i), Rotate5(v));
    w' := Rotate30(w);
    MacroIsShift(i, v, w, x, y, z, b);
  }

  ghost function StateOf(state: array<word>): Registers
    reads state
    requires state.Length == 5
  {
    Registers(state[0], state[1], state[2], state[3], state[4])
  }

  /** What one transform leaves in the sixty-four bytes it was given: W(64) to W(79). */
  ghost predicate HoldsLastWords(s: Block, m: Block) {
    forall j :: 0 <= j < 16 ==> Slot(s, j) == W(m, 64 + j)
  }

  lemma RingAtTheStart(m: Block)
    ensures Ring(m, m, 0)
  {
  }

  lemma RoundsAtTheStart(h: Registers, m: Block)
    ensures Rounds(h, m, 0) == h
  {
  }

  lemma RingAtTheEnd(s: Block, m: Block)
    requires Ring(s, m, 80)
    ensures HoldsLastWords(s, m)
  {
    forall j | 0 <= j < 16
      ensures Slot(s, j) == W(m, 64 + j)
    {
      assert (64 + j) % 16 == j;
    }
  }

  /** Five consecutive macro lines, after which every register is back under its own name. */
  method FiveRounds(buf: array<bv8>, off: nat, r: Registers, i: nat, ghost m: Block, ghost h: Registers)
    returns (r': Registers)
    requires off + 64 <= buf.Length
    requires Ring(buf[off..off + 64], m, i) && r == Rounds(h, m, i)
    modifies buf
    ensures r' == Rounds(h, m, i + 5) && Ring(buf[off..off + 64], m, i + 5)
    ensures forall k :: 0 <= k < buf.Length && !(off <= k < off + 64) ==> buf[k] == old(buf[k])
  {
    hide Shift, W, Slot, Ring;
    var Registers(a, b, c, d, e) := r;
    b, e := Round(buf, off, a, b, c, d, e, i, m);
    assert Registers(e, a, b, c, d) == Rounds(h, m, i + 1);
    a, d := Round(buf, off, e, a, b, c, d, i + 1, m);
    assert Registers(d, e, a, b, c) == Rounds(h, m, i + 2);
    e, c := Round(buf, off, d, e, a, b, c, i + 2, m);
    assert Registers(c, d, e, a, b) == Rounds(h, m, i + 3);
    d, b := Round(buf, off, c, d, e, a, b, i + 3, m);
    assert Registers(b, c, d, e, a) == Rounds(h, m, i + 4);
    c, a := Round(buf, off, b, c, d, e, a, i + 4, m);
    r' := Registers(a, b, c, d, e);
  }

  /** The eighty macro lines, as sixteen groups of five. */
  method EightyRounds(buf: array<bv8>, off: nat, h: Registers) returns (r: Registers)
    requires off + 64 <= buf.Length
    modifies buf
    ensures r == Rounds(h, old(buf[off..off + 64]), 80)
    ensures HoldsLastWords(buf[off..off + 64], old(buf[off..off + 64]))
    ensures forall k :: 0 <= k < buf.Length && !(off <= k < off + 64) ==> buf[k] == old(buf[k])
  {
    hide Shift, W, Slot, Ring, Rounds;
    ghost var m: Block := buf[off..off + 64];
    RingAtTheStart(m);
    RoundsAtTheStart(h, m);
    r := h;
    var i := 0;
    while i < 80
      invariant 0 <= i <= 80 && i % 5 == 0
      invariant r == Rounds(h, m, i)
      invariant Ring(buf[off..off + 64], m, i)
      invariant forall k :: 0 <= k < buf.Length && !(off <= k < off + 64) ==> buf[k] == old(buf[k])
    {
      r := FiveRounds(buf, off, r, i, m, h);
      i := i + 5;
    }
    RingAtTheEnd(buf[off..off + 64], m);
  }

  /** `Sha1Transform` on the block at `off`. */
  method Sha1Transform(state: array<word>, buf: array<bv8>, off: nat)
    requires state.Length == 5 && off + 64 <= buf.Length
    modifies state, buf
    ensures StateOf(state) == Compress(old(StateOf(state)), old(buf[off..off + 64]))
    ensures HoldsLastWords(buf[off..off + 64], old(buf[off..off + 64]))
    ensures forall k :: 0 <= k < buf.Length && !(off <= k < off + 64) ==> buf[k] == old(buf[k])
  {
    hide Rounds, HoldsLastWords, Plus;
    var h := Registers(state[0], state[1], state[2], state[3], state[4]);
    var r := EightyRounds(buf, off, h);
    state[0] := Plus(state[0], r.a);
    state[1] := Plus(state[1], r.b);
    state[2] := Plus(state[2], r.c);
    state[3] := Plus(state[3], r.d);
    state[4] := Plus(state[4], r.e);
  }

  /** `_msg_len >> (k * 8)`. */
  function ShiftBytes(v: bv64, k: nat): bv64 {
    if k == 0 then v else ShiftBytes(v, k - 1) >> 8
  }

  lemma {:induction false} ShiftFirst(v: bv64, k: nat)
    ensures ShiftBytes(v >> 8, k) == ShiftBytes(v, k + 1)
  {
    if k > 0 { ShiftFirst(v, k - 1); }
  }

  /** Shifting and masking the length yields the bytes of the standard's length field. */
  lemma {:induction false} LengthByte(v: bv64, n: nat, i: nat)
    requires i < n
    ensures BigEndianBytes(v, n)[i] == (ShiftBytes(v, n - 1 - i) & 0xff) as bv8
  {
    if i < n - 1 {
      LengthByte(v >> 8, n - 1, i);
      ShiftFirst(v, n - 2 - i);
    }
  }

  /** The loops that write `_msg_len` over the last eight bytes of a block. */
  method WriteLength(block: array<bv8>, v: bv64)
    requires block.Length == 64
    modifies block
    ensures block[..] == old(block[..56]) + BigEndianBytes(v, 8)
  {
    hide BigEndianBytes, ShiftBytes;
    var i := 0;
    while i < 8
      invariant 0 <= i <= 8
      invariant block[..56] == old(block[..56])
      invariant block[56..56 + i] == BigEndianBytes(v, 8)[..i]
    {
      LengthByte(v, 8, i);
      block[56 + i] := (ShiftBytes(v, 7 - i) & 0xff) as bv8;
      assert BigEndianBytes(v, 8)[..i + 1] == BigEndianBytes(v, 8)[..i] + [block[56 + i]];
      i := i + 1;
    }
    assert block[..] == block[..56] + block[56..];
  }

  lemma OneMoreBlock(h: Registers, m: seq<bv8>, curr: nat)
    requires curr % 64 == 0 && curr + 64 <= |m|
    ensures HashBlocks(h, m[..curr + 64]) == Compress(HashBlocks(h, m[..curr]), m[curr..curr + 64])
  {
    var q := m[curr..curr + 64];
    assert m[..curr + 64] == m[..curr] + q;
    HashBlocksConcat(h, m[..curr], q);
    OneBlock(HashBlocks(h, m[..curr]), q);
  }

  lemma NoBlocks(h: Registers, p: seq<bv8>)
    requires p == []
    ensures HashBlocks(h, p) == h
  {
  }

  lemma OneBlock(h: Registers, q: Block)
    ensures HashBlocks(h, q) == Compress(h, q)
  {
    assert q[..64] == q && q[64..] == [];
  }

  /** A tail shorter than 56 bytes shares its block with the length. */
  lemma PadInOneBlock(m: seq<bv8>, n: nat)
    requires n == |m| % 64 < 56
    ensures Pad(m) == m[..|m| - n] + (m[|m| - n..] + [0x80] + Zeros(55 - n) + BigEndianBytes(BitLength(|m|), 8))
  {
    assert (55 - |m|) % 64 == 55 - n;
    assert m == m[..|m| - n] + m[|m| - n..];
  }

  /** A longer tail pushes the length into a block of its own. */
  lemma PadInTwoBlocks(m: seq<bv8>, n: nat)
    requires n == |m| % 64 >= 56
    ensures Pad(m)
         == m[..|m| - n] + ((m[|m| - n..] + [0x80] + Zeros(63 - n)) + (Zeros(56) + BigEndianBytes(BitLength(|m|), 8)))
  {
    assert (55 - |m|) % 64 == 119 - n;
    assert Zeros(119 - n) == Zeros(63 - n) + Zeros(56);
    assert m == m[..|m| - n] + m[|m| - n..];
  }

  /** The first n blocks hold the last words of their schedules, the rest is untouched. */
  ghost predicate BlocksOverwritten(now: seq<bv8>, was: seq<bv8>, n: nat)
    requires |now| == |was| && 64 * n <= |was|
  {
    && now[64 * n..] == was[64 * n..]
    && forall b :: 0 <= b < n ==> HoldsLastWords(now[64 * b..64 * b + 64], was[64 * b..64 * b + 64])
  }

  /** The loop over the full blocks of the message, each expanded over the message itself. */
  method HashFullBlocks(state: array<word>, msg: array<bv8>)
    requires state.Length == 5 && StateOf(state) == INITIAL
    modifies state, msg
    ensures StateOf(state) == HashBlocks(INITIAL, old(msg[..msg.Length / 64 * 64]))
    ensures BlocksOverwritten(msg[..], old(msg[..]), msg.Length / 64)
  {
    hide Compress, HoldsLastWords, HashBlocks, BlocksOverwritten;
    ghost var m := msg[..];
    ghost var n := 0;
    var curr := 0;
    NoBlocks(INITIAL, m[..curr]);
    NothingOverwritten(m);
    while curr + 64 <= msg.Length
      invariant curr == 64 * n <= msg.Length
      invariant StateOf(state) == HashBlocks(INITIAL, m[..curr])
      invariant BlocksOverwritten(msg[..], m, n)
    {
      OneMoreBlock(INITIAL, m, curr);
      ghost var before := msg[..];
      BlockUntouched(before, m, n);
      assert msg[curr..curr + 64] == before[curr..curr + 64];
      Sha1Transform(state, msg, curr);
      OneMoreOverwritten(before, msg[..], m, n);
      curr := curr + 64;
      n := n + 1;
    }
  }

  lemma NothingOverwritten(m: seq<bv8>)
    ensures BlocksOverwritten(m, m, 0)
  {
  }

  lemma BlockUntouched(now: seq<bv8>, was: seq<bv8>, n: nat)
    requires |now| == |was| && 64 * n + 64 <= |was| && BlocksOverwritten(now, was, n)
    ensures now[64 * n..64 * n + 64] == was[64 * n..64 * n + 64]
  {
    hide HoldsLastWords;
    assert now[64 * n..64 * n + 64] == now[64 * n..][..64];
    assert was[64 * n..64 * n + 64] == was[64 * n..][..64];
  }

  lemma OneMoreOverwritten(before: seq<bv8>, now: seq<bv8>, was: seq<bv8>, n: nat)
    requires |now| == |was| == |before| && 64 * n + 64 <= |was|
    requires BlocksOverwritten(before, was, n)
    requires HoldsLastWords(now[64 * n..64 * n + 64], was[64 * n..64 * n + 64])
    requires forall k :: 0 <= k < |was| && !(64 * n <= k < 64 * n + 64) ==> now[k] == before[k]
    ensures BlocksOverwritten(now, was, n + 1)
  {
    hide HoldsLastWords;
    forall k | 64 * n + 64 <= k < |was|
      ensures now[k] == was[k]
    {
      assert now[k] == before[k] == before[64 * n..][k - 64 * n];
    }
    forall b | 0 <= b < n
      ensures HoldsLastWords(now[64 * b..64 * b + 64], was[64 * b..64 * b + 64])
    {
      assert now[64 * b..64 * b + 64] == before[64 * b..64 * b + 64];
    }
  }

  /** `last_block` before the length is written: the tail, the one bit, zeros. */
  method TailBlock(msg: array<bv8>, n: nat) returns (last: array<bv8>)
    requires n == msg.Length % 64
    ensures fresh(last) && last.Length == 64
    ensures last[..] == msg[msg.Length - n..] + [0x80] + Zeros(63 - n)
  {
    last := new bv8[64](_ => 0);
    forall k | 0 <= k < n {
      last[k] := msg[msg.Length - n + k];
    }
    last[n] := 0x80;
  }

  method AbsorbBlock(state: array<word>, block: array<bv8>, ghost p: seq<bv8>)
    requires state.Length == 5 && block.Length == 64 && |p| % 64 == 0
    requires StateOf(state) == HashBlocks(INITIAL, p)
    modifies state, block
    ensures StateOf(state) == HashBlocks(INITIAL, p + old(block[..]))
  {
    hide Compress, HoldsLastWords;
    ghost var q: Block := block[..];
    assert block[0..64] == q;
    Sha1Transform(state, block, 0);
    OneBlock(HashBlocks(INITIAL, p), q);
    HashBlocksConcat(INITIAL, p, q);
  }

  /** `last_block_len >= 56`: the length goes into `new_block`. */
  method HashTwoBlocks(state: array<word>, last: array<bv8>, bits: bv64, ghost p: seq<bv8>)
    requires state.Length == 5 && last.Length == 64 && |p| % 64 == 0
    requires StateOf(state) == HashBlocks(INITIAL, p)
    modifies state, last
    ensures StateOf(state) == HashBlocks(INITIAL, p + (old(last[..]) + (Zeros(56) + BigEndianBytes(bits, 8))))
  {
    hide HashBlocks, BigEndianBytes;
    ghost var first := last[..];
    AbsorbBlock(state, last, p);
    var block := new bv8[64](_ => 0);
    assert block[..56] == Zeros(56);
    WriteLength(block, bits);
    ghost var second := block[..];
    AbsorbBlock(state, block, p + first);
    assert p + first + second == p + (first + second);
  }

  /** The tail cases: one padded block, or two when the length does not fit behind the tail. */
  method HashTail(state: array<word>, msg: array<bv8>, ghost m: seq<bv8>)
    requires state.Length == 5 && |m| == msg.Length
    requires msg[|m| - |m| % 64..] == m[|m| - |m| % 64..]
    requires StateOf(state) == HashBlocks(INITIAL, m[..|m| - |m| % 64])
    modifies state
    ensures StateOf(state) == HashBlocks(INITIAL, Pad(m))
  {
    hide HashBlocks, BigEndianBytes, BitLength, Pad;
    var n := msg.Length % 64;
    var bits := BitLength(msg.Length);
    var last := TailBlock(msg, n);
    if n < 56 {
      assert last[..56] == m[|m| - n..] + [0x80] + Zeros(55 - n);
      WriteLength(last, bits);
      PadInOneBlock(m, n);
      AbsorbBlock(state, last, m[..|m| - n]);
    } else {
      PadInTwoBlocks(m, n);
      HashTwoBlocks(state, last, bits, m[..|m| - n]);
    }
  }

  lemma DigestWord(h: Registers, i: nat)
    requires i < 5
    ensures DigestBytes(h)[4 * i..4 * i + 4] == WordBytes([h.a, h.b, h.c, h.d, h.e][i])
  {
    hide WordBytes;
  }

  /** The nested loops that write the five words, most significant byte first. */
  method WriteDigest(state: array<word>, res: array<bv8>)
    requires state.Length == 5 && res.Length >= 21
    modifies res
    ensures res[..20] == DigestBytes(StateOf(state))
    ensures res[20..] == old(res[20..])
  {
    hide WordBytes, DigestBytes;
    ghost var d := DigestBytes(StateOf(state));
    var i := 0;
    while i < 5
      invariant 0 <= i <= 5
      invariant res[..4 * i] == d[..4 * i]
      invariant res[20..] == old(res[20..])
    {
      DigestWord(StateOf(state), i);
      var j := 0;
      while j < 4
        invariant 0 <= j <= 4
        invariant res[..4 * i + j] == d[..4 * i + j]
        invariant res[20..] == old(res[20..])
      {
        res[i * 4 + j] := WordBytes(state[i])[j];
        assert d[4 * i + j] == d[4 * i..4 * i + 4][j];
        j := j + 1;
      }
      i := i + 1;
    }
  }

  /** `Digest`: the digest in `res`, and the message buffer as the schedule left it. */
  method Digest(msg: array<bv8>, res: array<bv8>)
    requires res.Length >= 21 && msg != res
    modifies msg, res
    ensures res[..20] == Sha1Spec.Sha1(old(msg[..]))
    ensures res[20] == 0 && res[21..] == old(res[21..])
    ensures BlocksOverwritten(msg[..], old(msg[..]), msg.Length / 64)
  {
    hide HashBlocks, HoldsLastWords, Pad;
    ghost var m := msg[..];
    var state := new word[5];
    state[0], state[1], state[2], state[3], state[4] := 0x67452301, 0xEFCDAB89, 0x98BADCFE, 0x10325476, 0xC3D2E1F0;
    HashFullBlocks(state, msg);
    HashTail(state, msg, m);
    WriteDigest(state, res);
    res[20] := 0;
  }
}
