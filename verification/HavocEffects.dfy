/** What each edit of afl_mutate does, byte by byte and in terms of the numbers that the bytes stand
    for; HavocEdits says how it is put together. */
module HavocEffects {
  import opened Binary
  import opened HavocEdits
  import S = Sattolo

  // ---- the number of a byte ----------------------------------------------------------------------

  function At(b: bool, w: nat): nat { if b then w else 0 }
  lemma ValStep(b: Bits, i: nat)
    requires i < |b|
    ensures Val(b[i..]) == At(b[i], 1) + 2 * Val(b[i + 1..])
  {
    assert b[i..][1..] == b[i + 1..];
  }
  lemma ValOfEight(b: Bits)
    requires |b| == 8
    ensures Val(b) == At(b[0], 1) + At(b[1], 2) + At(b[2], 4) + At(b[3], 8) + At(b[4], 16) + At(b[5], 32) + At(b[6], 64) + At(b[7], 128)
  {
    assert b[0..] == b && b[8..] == [];
    assert Val([]) == 0;
    forall i, w: nat | 0 <= i < 8 ensures At(b[i], w) == w * At(b[i], 1) { AtTimes(b[i], w); }
    forall i | 0 <= i < 8 ensures Val(b[i..]) == At(b[i], 1) + 2 * Val(b[i + 1..]) { ValStep(b, i); }
    hide Val, At;
    assert Val(b[4..]) == At(b[4], 1) + 2 * At(b[5], 1) + 4 * At(b[6], 1) + 8 * At(b[7], 1);
    assert Val(b[0..]) == At(b[0], 1) + 2 * At(b[1], 1) + 4 * At(b[2], 1) + 8 * At(b[3], 1) + 16 * Val(b[4..]);
  }
  lemma AtTimes(b: bool, w: nat)
    ensures At(b, w) == w * At(b, 1)
  {
  }
  lemma NumFlat(v: bv8)
    ensures Num(v) == At(v & 1 != 0, 1) + At(v & 2 != 0, 2) + At(v & 4 != 0, 4) + At(v & 8 != 0, 8)
      + At(v & 16 != 0, 16) + At(v & 32 != 0, 32) + At(v & 64 != 0, 64) + At(v & 128 != 0, 128)
  {
    ValOfEight(ByteBits(v));
    hide Val;
  }
  lemma AddOne(v: bv8)
    ensures Added(v, 1) == if v == 0xFF then 0 else v + 1
  {}
  lemma NumStep(v: bv8)
    requires v != 0xFF
    ensures Num(v + 1) == Num(v) + 1
  {
    NumFlat(v);
    NumFlat(v + 1);
    hide Num;
  }
  lemma NumEnds()
    ensures Num(0) == 0 && Num(0xFF) == 255
  {
    NumFlat(0);
    NumFlat(0xFF);
    hide Num;
  }
  lemma AddedAfter(v: bv8, x: bv8)
    requires x != 0xFF
    ensures Added(v, x + 1) == Added(Added(v, x), 1) && Added(v, 0) == v
  {
  }
  lemma NumNotLast(v: bv8)
    ensures Num(v) < 256 && (Num(v) == 255 <==> v == 0xFF) && (Num(v) == 0 <==> v == 0)
  {
    NumRange(v);
    NumEnds();
    NumRange(0xFF);
    NumRange(0);
    hide Num, Byte;
  }
  lemma {:induction false} NumAdded(v: bv8, x: bv8)
    ensures Num(Added(v, x)) == (Num(v) + Num(x)) % 256
    decreases Num(x)
  {
    hide Num, Added, Byte;
    NumNotLast(v);
    NumNotLast(x);
    if x == 0 {
      AddedAfter(v, 0);
    } else {
      var y := Pred(x);
      NumAdded(v, y);
      AddedAfter(v, y);
      AddOne(Added(v, y));
      NumNotLast(Added(v, y));
      NumEnds();
      NextMod(Num(v) + Num(y));
      if Added(v, y) != 0xFF { NumStep(Added(v, y)); }
    }
  }
  lemma NextMod(s: nat)
    ensures (s + 1) % 256 == if s % 256 == 255 then 0 else s % 256 + 1
  {
  }
  lemma Pred(x: bv8) returns (y: bv8)
    requires x != 0
    ensures y != 0xFF && x == y + 1 && Num(x) == Num(y) + 1
  {
    y := Less(x);
    NumStep(y);
    hide Num;
  }
  lemma Less(x: bv8) returns (y: bv8)
    requires x != 0
    ensures y != 0xFF && x == y + 1
  {
    y := x - 1;
  }

  // ---- the bits of a byte ------------------------------------------------------------------------

  lemma {:induction false} BitOfVal(b: Bits, j: nat)
    requires j < |b|
    ensures BitAt(Val(b), j) == b[j]
    decreases |b|
  {
    if j > 0 {
      BitOfVal(b[1..], j - 1);
      BitStep(Val(b), j);
    }
  }

  lemma BitOfNum(v: bv8, j: nat)
    requires j < 8
    ensures BitAt(Num(v), j) == Has(v, j)
  {
    hide BitAt, Val, Has;
    BitOfVal(ByteBits(v), j);
    assert ByteBits(v)[j] == Has(v, j);
  }

  lemma XoredBit(v: bv8, x: bv8, j: nat)
    requires j < 8
    ensures Has(Xored(v, x), j) == (Has(v, j) != Has(x, j))
  {
  }

  lemma OneBit(k: nat, j: nat)
    requires k < 8 && j < 8
    ensures Has(Bit(k), j) <==> j == k
  {
  }

  /** The exclusive or, bit by bit. */
  lemma XoredNum(v: bv8, x: bv8)
    ensures forall j: nat :: j < 8 ==> BitAt(Num(Xored(v, x)), j) == (BitAt(Num(v), j) != BitAt(Num(x), j))
  {
    hide Has, Num, Xored, BitAt;
    forall j: nat | j < 8
      ensures BitAt(Num(Xored(v, x)), j) == (BitAt(Num(v), j) != BitAt(Num(x), j))
    {
      BitOfNum(v, j);
      BitOfNum(x, j);
      BitOfNum(Xored(v, x), j);
      XoredBit(v, x, j);
    }
  }

  lemma BitNum(k: nat)
    requires k < 8
    ensures forall j: nat :: j < 8 ==> (BitAt(Num(Bit(k)), j) <==> j == k)
  {
    hide Has, Num, BitAt, Bit;
    forall j: nat | j < 8
      ensures BitAt(Num(Bit(k)), j) <==> j == k
    {
      BitOfNum(Bit(k), j);
      OneBit(k, j);
    }
  }

  // ---- words -------------------------------------------------------------------------------------

  /** The number that two or four bytes stand for, the low byte first or last. */
  function Word16(b: Bytes, off: nat, big: bool): nat
    requires off + 2 <= |b|
  {
    if big then 0x100 * Num(b[off]) + Num(b[off + 1]) else Num(b[off]) + 0x100 * Num(b[off + 1])
  }

  function Word32(b: Bytes, off: nat, big: bool): nat
    requires off + 4 <= |b|
  {
    if big then 0x100_0000 * Num(b[off]) + 0x1_0000 * Num(b[off + 1]) + 0x100 * Num(b[off + 2]) + Num(b[off + 3])
    else Num(b[off]) + 0x100 * Num(b[off + 1]) + 0x1_0000 * Num(b[off + 2]) + 0x100_0000 * Num(b[off + 3])
  }

  lemma WordOfGet16(b: Bytes, off: nat, big: bool)
    requires off + 2 <= |b|
    ensures Word16(b, off, big) == if big then Swap16(Get16(b, off)) else Get16(b, off)
  {
    NumRange(b[off]);
    NumRange(b[off + 1]);
    hide Num, Byte;
    Quarters(Num(b[off + 1]), Num(b[off]));
  }

  lemma WordOfGet32(b: Bytes, off: nat, big: bool)
    requires off + 4 <= |b|
    ensures Word32(b, off, big) == if big then Swap32(Get32(b, off)) else Get32(b, off)
  {
    NumRange(b[off]);
    NumRange(b[off + 1]);
    NumRange(b[off + 2]);
    NumRange(b[off + 3]);
    hide Num, Byte, Swap32;
    SwapDigits(Get32(b, off), Num(b[off]), Num(b[off + 1]), Num(b[off + 2]), Num(b[off + 3]));
  }

  /** What INSERT16 and INSERT32 store, in either order. */
  lemma StoredWord16(x: nat, big: bool)
    requires x < M16
    ensures Word16(Put16(if big then Swap16(x) else x), 0, big) == x
  {
    var y := if big then Swap16(x) else x;
    assert Put16(y)[0..2] == Put16(y);
    PutGet16(Put16(y), 0, y);
    WordOfGet16(Put16(y), 0, big);
    Swap16Undo(x);
    hide Put16, Get16, Swap16, Word16;
  }

  lemma StoredWord32(x: nat, big: bool)
    requires x < M32
    ensures Word32(Put32(if big then Swap32(x) else x), 0, big) == x
  {
    var y := if big then Swap32(x) else x;
    assert Put32(y)[0..4] == Put32(y);
    PutGet32(Put32(y), 0, y);
    WordOfGet32(Put32(y), 0, big);
    SwapsUndo(0, x);
    hide Put32, Get32, Swap32, Word32;
  }

  lemma SumWord16(b: Bytes, off: nat, delta: nat, big: bool)
    requires off + 2 <= |b| && delta < M16
    ensures var r := Patch(b, off, Put16(Add16Of(Get16(b, off), delta, big)));
      Word16(r, off, big) == (Word16(b, off, big) + delta) % M16
  {
    hide Patch, Put16, Get16, Swap16, Word16;
    var y := Add16Of(Get16(b, off), delta, big);
    var r := Patch(b, off, Put16(y));
    PatchReads(b, off, Put16(y));
    PutGet16(r, off, y);
    WordOfGet16(b, off, big);
    WordOfGet16(r, off, big);
    Swap16Undo(Plus16(Swap16(Get16(b, off)), delta));
  }

  lemma SumWord32(b: Bytes, off: nat, delta: nat, big: bool)
    requires off + 4 <= |b| && delta < M32
    ensures var r := Patch(b, off, Put32(Add32Of(Get32(b, off), delta, big)));
      Word32(r, off, big) == (Word32(b, off, big) + delta) % M32
  {
    hide Patch, Put32, Get32, Swap32, Word32;
    var y := Add32Of(Get32(b, off), delta, big);
    var r := Patch(b, off, Put32(y));
    PatchReads(b, off, Put32(y));
    PutGet32(r, off, y);
    WordOfGet32(b, off, big);
    WordOfGet32(r, off, big);
    SwapsUndo(0, Plus32(Swap32(Get32(b, off)), delta));
  }

  // ---- all edits ---------------------------------------------------------------------------------

  /** Same length, and the same outside the n bytes from off on. */
  predicate Elsewhere(b: Bytes, r: Bytes, off: nat, n: nat) {
    |r| == |b| && forall k :: 0 <= k < |b| && !(off <= k < off + n) ==> r[k] == b[k]
  }

  /** r is what the edit makes of b. */
  ghost predicate Effect(e: Edit, b: Bytes, r: Bytes)
  {
    match e
    case FlipBit(off, bit) =>
      off < |b| && Elsewhere(b, r, off, 1)
      && forall j: nat :: j < 8 ==> BitAt(Num(r[off]), j) == (BitAt(Num(b[off]), j) != (j == bit))
    case XorByte(off, x) =>
      off < |b| && Elsewhere(b, r, off, 1)
      && forall j: nat :: j < 8 ==> BitAt(Num(r[off]), j) == (BitAt(Num(b[off]), j) != BitAt(Num(x), j))
    case AddByte(off, delta) =>
      off < |b| && Elsewhere(b, r, off, 1) && Num(r[off]) == (Num(b[off]) + Num(delta)) % 256
    case Add16(off, delta, big) =>
      off + 2 <= |b| && Elsewhere(b, r, off, 2) && Word16(r, off, big) == (Word16(b, off, big) + delta) % M16
    case Add32(off, delta, big) =>
      off + 4 <= |b| && Elsewhere(b, r, off, 4) && Word32(r, off, big) == (Word32(b, off, big) + delta) % M32
    case Store(off, data) =>
      off + |data| <= |b| && Elsewhere(b, r, off, |data|) && forall k :: off <= k < off + |data| ==> r[k] == data[k - off]
    case CopyWithin(src, dst, n) =>
      src + n <= |b| && dst + n <= |b| && Elsewhere(b, r, dst, n) && forall k :: dst <= k < dst + n ==> r[k] == b[k - dst + src]
    case Fill(off, n, val) =>
      off + n <= |b| && Elsewhere(b, r, off, n) && forall k :: off <= k < off + n ==> r[k] == val
    case SwapBlocks(x, y, n) =>
      |r| == |b| && x + n <= |b| && y + n <= |b|
      && forall k :: 0 <= k < |b| ==>
           r[k] == if x <= k < x + n then b[y + (k - x)] else if y <= k < y + n then b[x + (k - y)] else b[k]
    case Shuffle(off, js) =>
      off + |js| <= |b| && Elsewhere(b, r, off, |js|) && CycledBlock(b, r, off, |js|)
    case Delete(off, n) =>
      |r| + n == |b| && forall k :: 0 <= k < |r| ==> r[k] == if k < off then b[k] else b[k + n]
    case Insert(off, data) => Replaced(b, r, off, 0, data)
    case Replace(off, n, data) => Replaced(b, r, off, n, data)
    case Nothing => r == b
  }

  ghost predicate CycledBlock(b: Bytes, r: Bytes, off: nat, n: nat)
    requires |r| == |b| && off + n <= |b|
  {
    Cycled(r[off..off + n], b[off..off + n])
  }

  /** Rearranged by one cycle through all positions. */
  ghost predicate Cycled(after: Bytes, before: Bytes) {
    exists p, orbit :: |p| == |after| && S.IsCycle(p, orbit) && S.Rearranged(after, before, p)
  }

  /** The data stands where n bytes were. */
  predicate Replaced(b: Bytes, r: Bytes, off: nat, n: nat, data: Bytes) {
    && off + n <= |b| && |r| == |b| - n + |data|
    && forall k :: 0 <= k < |r| ==>
         r[k] == if k < off then b[k] else if k < off + |data| then data[k - off] else b[k - |data| + n]
  }

  lemma PatchEffect(b: Bytes, off: nat, data: Bytes)
    requires off + |data| <= |b|
    ensures Elsewhere(b, Patch(b, off, data), off, |data|)
    ensures forall k :: off <= k < off + |data| ==> Patch(b, off, data)[k] == data[k - off]
  {
  }

  lemma ShuffleEffect(b: Bytes, off: nat, js: seq<nat>)
    requires |js| >= 1 && off + |js| <= |b| && S.Choices(js)
    ensures var r := Patch(b, off, S.Shuffled(b[off..off + |js|], js, |js| - 1));
      Elsewhere(b, r, off, |js|) && CycledBlock(b, r, off, |js|)
  {
    hide S.Shuffled, S.Choices, Patch, Elsewhere, CycledBlock, Cycled;
    ShuffleCycles(b[off..off + |js|], js);
    PatchCycles(b, off, S.Shuffled(b[off..off + |js|], js, |js| - 1));
  }

  lemma PatchCycles(b: Bytes, off: nat, after: Bytes)
    requires off + |after| <= |b| && Cycled(after, b[off..off + |after|])
    ensures Elsewhere(b, Patch(b, off, after), off, |after|) && CycledBlock(b, Patch(b, off, after), off, |after|)
  {
    hide Patch, Elsewhere, CycledBlock, Cycled;
    PatchEffect(b, off, after);
    PatchReads(b, off, after);
    BlockCycles(b, Patch(b, off, after), off, after);
  }

  lemma ShuffleCycles(block: Bytes, js: seq<nat>)
    requires |block| == |js| >= 1 && S.Choices(js)
    ensures S.InRange(js) && Cycled(S.Shuffled(block, js, |js| - 1), block)
  {
    hide S.IsCycle, S.Rearranged, S.Shuffled;
    var p, orbit := S.ShuffledIsCycle(block, js, |js| - 1);
  }

  lemma BlockCycles(b: Bytes, r: Bytes, off: nat, after: Bytes)
    requires off + |after| <= |b| == |r| && r[off..off + |after|] == after && Cycled(after, b[off..off + |after|])
    ensures CycledBlock(b, r, off, |after|)
  {
    hide Cycled;
  }

  lemma ByteEffect(e: Edit, b: Bytes, max: nat)
    requires ValidFor(e, |b|, max) && (e.FlipBit? || e.XorByte? || e.AddByte?)
    ensures Effect(e, b, Apply(e, b, max))
  {
    hide Num, Xored, Added, Bit, BitAt;
    match e
    case FlipBit(off, bit) => FlippedNum(b[off], bit);
    case XorByte(off, x) => XoredNum(b[off], x);
    case AddByte(off, delta) => NumAdded(b[off], delta);
  }

  lemma FlippedNum(v: bv8, bit: nat)
    requires bit < 8
    ensures forall j: nat :: j < 8 ==> BitAt(Num(Xored(v, Bit(bit))), j) == (BitAt(Num(v), j) != (j == bit))
  {
    XoredNum(v, Bit(bit));
    BitNum(bit);
    hide Num, Xored, Bit, BitAt;
  }

  lemma WordEffect(e: Edit, b: Bytes, max: nat)
    requires ValidFor(e, |b|, max) && (e.Add16? || e.Add32?)
    ensures Effect(e, b, Apply(e, b, max))
  {
    hide Num, Patch, Put16, Put32, Get16, Get32, Word16, Word32, Add16Of, Add32Of;
    match e
    case Add16(off, delta, big) =>
      PatchEffect(b, off, Put16(Add16Of(Get16(b, off), delta, big)));
      SumWord16(b, off, delta, big);
    case Add32(off, delta, big) =>
      PatchEffect(b, off, Put32(Add32Of(Get32(b, off), delta, big)));
      SumWord32(b, off, delta, big);
  }

  lemma BlockEffect(e: Edit, b: Bytes, max: nat)
    requires ValidFor(e, |b|, max) && (e.Store? || e.CopyWithin? || e.Fill?)
    ensures Effect(e, b, Apply(e, b, max))
  {
    hide Patch;
    match e
    case Store(off, data) => PatchEffect(b, off, data);
    case CopyWithin(src, dst, n) => PatchEffect(b, dst, b[src..src + n]);
    case Fill(off, n, val) =>
      PatchEffect(b, off, seq(n, _ => val));
  }

  lemma MoveEffect(e: Edit, b: Bytes, max: nat)
    requires ValidFor(e, |b|, max) && (e.SwapBlocks? || e.Shuffle?)
    ensures Effect(e, b, Apply(e, b, max))
  {
    hide Patch, SwapSeq, S.Shuffled, CycledBlock, Elsewhere;
    match e
    case SwapBlocks(x, y, n) => forall k | 0 <= k < |b| { SwapIndex(b, x, y, n, k); }
    case Shuffle(off, js) => ShuffleEffect(b, off, js);
  }

  lemma LengthEffect(e: Edit, b: Bytes, max: nat)
    requires ValidFor(e, |b|, max) && (e.Delete? || e.Insert? || e.Replace? || e.Nothing?)
    ensures Effect(e, b, Apply(e, b, max))
  {
    hide Replaced;
    match e
    case Insert(off, data) => ReplaceEffect(b, off, 0, data);
    case Replace(off, n, data) => ReplaceEffect(b, off, n, data);
    case _ =>
  }

  lemma ReplaceEffect(b: Bytes, off: nat, n: nat, data: Bytes)
    requires off + n <= |b|
    ensures Replaced(b, b[..off] + data + b[off + n..], off, n, data)
  {
  }

  /** Every edit does what its effect says. */
  lemma Effects(e: Edit, b: Bytes, max: nat)
    requires ValidFor(e, |b|, max)
    ensures Effect(e, b, Apply(e, b, max))
  {
    hide Effect, Apply;
    if e.FlipBit? || e.XorByte? || e.AddByte? {
      ByteEffect(e, b, max);
    } else if e.Add16? || e.Add32? {
      WordEffect(e, b, max);
    } else if e.Store? || e.CopyWithin? || e.Fill? {
      BlockEffect(e, b, max);
    } else if e.SwapBlocks? || e.Shuffle? {
      MoveEffect(e, b, max);
    } else {
      LengthEffect(e, b, max);
    }
  }
}
