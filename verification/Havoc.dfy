/** afl_mutate: every case edits the buffer in place, within its bounds and within max_len; the edit is
    the one that HavocDraws gives for the random numbers drawn. */
module Havoc {
  import opened Memory
  import opened RandBelow
  import opened HavocEdits
  import opened HavocEffects
  import opened HavocDraws
  import S = Sattolo
  import A = AsciiNum

  const HAVOC_BLK_SMALL: nat := 32
  const HAVOC_BLK_MEDIUM: nat := 128
  const HAVOC_BLK_LARGE: nat := 1500
  const HAVOC_BLK_XL: nat := 32768
  const ARITH_MAX: nat := 35
  const MUT_STRATEGY_ARRAY_SIZE: nat := 256

  function Neg(x: bv8): bv8 { 0 - x }

  lemma NegSum(x: bv8)
    ensures Added(Neg(x), x) == 0 && (x != 0 ==> Neg(x) != 0)
  {
  }

  lemma NegNum(x: bv8)
    requires x != 0
    ensures Num(Neg(x)) == 256 - Num(x)
  {
    hide Neg, Num, Added;
    NegSum(x);
    NumAdded(Neg(x), x);
    NumNotLast(Neg(x));
    NumNotLast(x);
    NumEnds();
  }

  /** The tail is copied up first, then the data goes in front of it. */
  lemma MadeRoom<T>(a: seq<T>, len: nat, c: seq<T>, d: seq<T>, at: nat, data: seq<T>)
    requires at <= len && len + |data| <= |a|
    requires c == a[..at + |data|] + a[..len][at..] + a[len + |data|..]
    requires d == c[..at] + data + c[at + |data|..]
    ensures d[..len + |data|] == a[..len][..at] + data + a[..len][at..]
  {
    assert c[at + |data|..] == a[..len][at..] + a[len + |data|..];
    assert c[..at] == a[..len][..at];
  }

  /** Two buffers that differ in one block only. */
  lemma BlockPatched<T>(b: seq<T>, c: seq<T>, len: nat, off: nat, n: nat)
    requires |b| == |c| && off + n <= len <= |b| && c[..off] == b[..off] && c[off + n..] == b[off + n..]
    ensures c[..len] == Patch(b[..len], off, c[off..off + n])
    ensures b[..len][off..off + n] == b[off..off + n]
  {
    assert c[..len] == c[..off] + c[off..off + n] + c[off + n..][..len - off - n];
  }

  lemma ShuffleApplies(b: Bytes, c: Bytes, len: nat, off: nat, js: seq<nat>, max: nat)
    requires |js| >= 1 && S.Choices(js) && |b| == |c| && off + |js| <= len <= |b|
    requires c[..off] == b[..off] && c[off + |js|..] == b[off + |js|..]
    requires c[off..off + |js|] == S.Shuffled(b[off..off + |js|], js, |js| - 1)
    ensures ValidFor(Shuffle(off, js), len, max) && c[..len] == Apply(Shuffle(off, js), b[..len], max)
  {
    hide S.Shuffled, S.Choices, Patch;
    BlockPatched(b, c, len, off, |js|);
  }

  /** The bytes behind a block move down over it. */
  lemma CutDown<T>(a: seq<T>, len: nat, c: seq<T>, at: nat, n: nat)
    requires at + n <= len <= |a|
    requires c == a[..at] + a[at + n..len] + a[len - n..]
    ensures c[..len - n] == a[..len][..at] + a[..len][at + n..]
  {
  }

  class Mutator {
    const buf: array<bv8>
    const tmp: array<bv8>
    var len: nat
    const rng: Rng
    const c: Config

    constructor (buf: array<bv8>, len: nat, tmp: array<bv8>, rng: Rng, c: Config)
      ensures this.buf == buf && this.len == len && this.tmp == tmp && this.rng == rng && this.c == c
    {
      this.buf, this.len, this.tmp, this.rng, this.c := buf, len, tmp, rng, c;
    }

    ghost predicate Valid()
      reads this
    {
      && buf != tmp && 1 <= len <= c.maxLen <= buf.Length && c.maxLen <= tmp.Length
      && |c.interesting8| > 0 && |c.interesting16| > 0 && |c.interesting32| > 0
      && (forall i :: 0 <= i < |c.interesting16| ==> c.interesting16[i] < M16)
      && (forall i :: 0 <= i < |c.interesting32| ==> c.interesting32[i] < M32)
    }

    function Content(): (b: Bytes)
      requires len <= buf.Length
      reads this, buf
      ensures |b| == len
    {
      buf[..len]
    }

    /** What one case does after the requests d: nothing, or one valid edit; a retry changes nothing. */
    twostate predicate Did(retry: bool, e: seq<Edit>, d: seq<Drawn>)
      requires old(Valid())
      reads this, buf, rng
    {
      && Valid()
      && |e| <= 1 && (retry ==> e == [])
      && (e == [] ==> Content() == old(Content()))
      && (|e| == 1 ==> ValidFor(e[0], |old(Content())|, c.maxLen) && Content() == Apply(e[0], old(Content()), c.maxLen))
      && rng.Asked(d)
    }

    /** choose_block_len: between 1 and the smaller of limit and HAVOC_BLK_XL; 1 when limit is 0. */
    method ChooseBlockLen(limit: nat) returns (n: nat, ghost d: seq<Drawn>)
      modifies rng
      ensures limit >= 1 ==> 1 <= n <= limit
      ensures limit == 0 ==> n == 1
      ensures n <= HAVOC_BLK_XL && (!c.runOver10m ==> n <= HAVOC_BLK_SMALL)
      ensures rng.Asked(d) && LengthDrawn(c, d, limit, n)
    {
      hide rng.Honest;
      var minValue, maxValue, class_, half, cd := ChooseClass();
      if minValue >= limit { minValue := 1; }
      var r := rng.Below(Min(maxValue, limit) + 1 - minValue);
      n := minValue + r;
      d := cd + [Bounded(Min(maxValue, limit) + 1 - minValue, r)];
      assert LengthBy(c, d, limit, n, class_, half);
    }

    /** The switch of choose_block_len. */
    method ChooseClass() returns (minValue: nat, maxValue: nat, ghost class_: nat, ghost half: nat, ghost d: seq<Drawn>)
      modifies rng
      ensures minValue == Shortest(class_, half) && maxValue == Longest(class_, half)
      ensures 1 <= minValue <= maxValue <= HAVOC_BLK_XL && (!c.runOver10m ==> maxValue <= HAVOC_BLK_SMALL)
      ensures rng.Asked(d) && d == [Bounded(Classes(c), class_)] + (if class_ >= 2 then [Bounded(10, half)] else [])
    {
      hide rng.Honest;
      var rlim := if c.runOver10m then Min(c.queueCycle, 3) else 1;
      var which := rng.Below(rlim);
      class_, half, d := which, 0, [Bounded(rlim, which)];
      match which {
        case 0 => minValue, maxValue := 1, HAVOC_BLK_SMALL;
        case 1 => minValue, maxValue := HAVOC_BLK_SMALL, HAVOC_BLK_MEDIUM;
        case _ =>
          var tenth := rng.Below(10);
          half, d := tenth, d + [Bounded(10, tenth)];
          if tenth != 0 {
            minValue, maxValue := HAVOC_BLK_MEDIUM, HAVOC_BLK_LARGE;
          } else {
            minValue, maxValue := HAVOC_BLK_LARGE, HAVOC_BLK_XL;
          }
      }
      assert which < 2 ==> d == d + [];
    }

    // ---- single bytes and words ---------------------------------------------------------------

    method SetByte(off: nat, v: bv8)
      requires Valid() && off < len
      modifies buf
      ensures Content() == old(Content())[off := v]
    {
      buf[off] := v;
    }

    method FlipBitCase() returns (ghost e: seq<Edit>, ghost d: seq<Drawn>)
      requires Valid()
      modifies buf, rng
      ensures Did(false, e, d) && |e| == 1 && Flips(old(Content()), d, e[0])
    {
      hide rng.Honest;
      var bit := rng.Below(8);
      var off := rng.Below(len);
      SetByte(off, Xored(buf[off], Bit(bit)));
      e, d := [FlipBit(off, bit)], [Bounded(8, bit), Bounded(len, off)];
    }

    method Interesting8Case() returns (ghost e: seq<Edit>, ghost d: seq<Drawn>)
      requires Valid()
      modifies buf, rng
      ensures Did(false, e, d) && |e| == 1 && Puts8(c.interesting8, old(Content()), d, e[0])
    {
      hide rng.Honest;
      var item := rng.Below(|c.interesting8|);
      var off := rng.Below(len);
      SetByte(off, c.interesting8[item]);
      e, d := [Store(off, [c.interesting8[item]])], [Bounded(|c.interesting8|, item), Bounded(len, off)];
    }

    /** The byte changes as a number modulo 256. */
    method AddAt(off: nat, delta: bv8) returns (ghost e: seq<Edit>)
      requires Valid() && off < len
      modifies buf
      ensures Valid() && e == [AddByte(off, delta)] && ValidFor(e[0], len, c.maxLen)
      ensures Content() == Apply(e[0], old(Content()), c.maxLen)
      ensures Num(Content()[off]) == (Num(old(Content())[off]) + Num(delta)) % 256
    {
      hide Num, Added;
      NumAdded(buf[off], delta);
      SetByte(off, Added(buf[off], delta));
      e := [AddByte(off, delta)];
    }

    /** BYTEADD and BYTESUB. */
    method AddByteCase(delta: bv8) returns (ghost e: seq<Edit>, ghost d: seq<Drawn>, ghost off: nat)
      requires Valid()
      modifies buf, rng
      ensures Did(false, e, d) && |e| == 1 && AddsOne(old(Content()), d, e[0], Num(delta))
      ensures off < len && Num(Content()[off]) == (Num(old(Content())[off]) + Num(delta)) % 256
    {
      hide rng.Honest, Num, ValidFor, Apply;
      var at := rng.Below(len);
      e := AddAt(at, delta);
      off, d := at, [Bounded(len, at)];
    }

    /** ARITH8 and ARITH8_: the amount goes to or off the number of one byte, modulo 256. */
    method Arith8Case(subtract: bool) returns (ghost e: seq<Edit>, ghost d: seq<Drawn>, ghost off: nat, ghost amount: nat)
      requires Valid()
      modifies buf, rng
      ensures Did(false, e, d) && |e| == 1 && Adds8(old(Content()), d, e[0], subtract)
      ensures off < len && 1 <= amount <= 35
      ensures Num(Content()[off]) == (if subtract then Num(old(Content())[off]) + 256 - amount else Num(old(Content())[off]) + amount) % 256
    {
      hide rng.Honest, Num, Byte, Neg, ValidFor, Apply;
      var item := rng.Below(ARITH_MAX);
      ByteNum(1 + item);
      NumNotLast(Byte(1 + item));
      NegNum(Byte(1 + item));
      var at := rng.Below(len);
      e := AddAt(at, if subtract then Neg(Byte(1 + item)) else Byte(1 + item));
      off, amount, d := at, 1 + item, [Bounded(ARITH_MAX, item), Bounded(len, at)];
    }

    method XorAt(off: nat, x: bv8) returns (ghost e: seq<Edit>)
      requires Valid() && off < len
      modifies buf
      ensures Valid() && e == [XorByte(off, x)] && ValidFor(e[0], len, c.maxLen)
      ensures Content() == Apply(e[0], old(Content()), c.maxLen)
    {
      SetByte(off, Xored(buf[off], x));
      e := [XorByte(off, x)];
    }

    /** RAND8: the xor value is never zero. */
    method Rand8Case() returns (ghost e: seq<Edit>, ghost d: seq<Drawn>)
      requires Valid()
      modifies buf, rng
      ensures Did(false, e, d) && |e| == 1 && XorsAny(old(Content()), d, e[0])
    {
      hide rng.Honest, Num, Byte, Xored, Apply, ValidFor;
      var off := rng.Below(len);
      var item := rng.Below(255);
      ByteNum(1 + item);
      e := XorAt(off, Byte(1 + item));
      d := [Bounded(len, off), Bounded(255, item)];
    }

    /** FLIP8. */
    method XorByteCase() returns (ghost e: seq<Edit>, ghost d: seq<Drawn>)
      requires Valid()
      modifies buf, rng
      ensures Did(false, e, d) && |e| == 1 && XorsAll(old(Content()), d, e[0])
    {
      hide rng.Honest, Num, Xored, Apply, ValidFor;
      var off := rng.Below(len);
      NumEnds();
      e := XorAt(off, 0xFF);
      d := [Bounded(len, off)];
    }

    method PatchBuf(off: nat, data: Bytes)
      requires Valid() && off + |data| <= len
      modifies buf
      ensures Content() == Patch(old(Content()), off, data)
    {
      MemCpy(buf, off, data);
    }

    method StoreAt(off: nat, data: Bytes)
      requires Valid() && off + |data| <= len
      modifies buf
      ensures Valid() && ValidFor(Store(off, data), len, c.maxLen)
      ensures Content() == Apply(Store(off, data), old(Content()), c.maxLen)
    {
      hide Patch;
      PatchBuf(off, data);
    }

    /** INTERESTING16 and INTERESTING16BE; inputs under two bytes are left alone. */
    method Interesting16Case(big: bool) returns (ghost e: seq<Edit>, ghost d: seq<Drawn>)
      requires Valid()
      modifies buf, rng
      ensures Did(false, e, d) && (e == [] <==> len < 2) && (e == [] ==> d == [])
      ensures e != [] ==> Puts16(c.interesting16, old(Content()), d, e[0], big)
    {
      e, d := [], [];
      if len < 2 { return; }
      hide rng.Honest, Puts16, Apply, ValidFor;
      e, d := Interesting16(big);
    }

    method Interesting16(big: bool) returns (ghost e: seq<Edit>, ghost d: seq<Drawn>)
      requires Valid() && len >= 2
      modifies buf, rng
      ensures Did(false, e, d) && |e| == 1 && Puts16(c.interesting16, old(Content()), d, e[0], big)
    {
      hide rng.Honest, Put16, Swap16, Word16, Apply, ValidFor;
      var item := rng.Below(|c.interesting16|);
      var off := rng.Below(len - 1);
      var v := c.interesting16[item];
      var data := Put16(if big then Swap16(v) else v);
      StoredWord16(v, big);
      StoreAt(off, data);
      e, d := [Store(off, data)], [Bounded(|c.interesting16|, item), Bounded(len - 1, off)];
    }

    method Interesting32Case(big: bool) returns (ghost e: seq<Edit>, ghost d: seq<Drawn>)
      requires Valid()
      modifies buf, rng
      ensures Did(false, e, d) && (e == [] <==> len < 4) && (e == [] ==> d == [])
      ensures e != [] ==> Puts32(c.interesting32, old(Content()), d, e[0], big)
    {
      e, d := [], [];
      if len < 4 { return; }
      hide rng.Honest, Puts32, Apply, ValidFor;
      e, d := Interesting32(big);
    }

    method Interesting32(big: bool) returns (ghost e: seq<Edit>, ghost d: seq<Drawn>)
      requires Valid() && len >= 4
      modifies buf, rng
      ensures Did(false, e, d) && |e| == 1 && Puts32(c.interesting32, old(Content()), d, e[0], big)
    {
      hide rng.Honest, Put32, Swap32, Word32, Apply, ValidFor;
      var item := rng.Below(|c.interesting32|);
      var off := rng.Below(len - 3);
      var v := c.interesting32[item];
      var data := Put32(if big then Swap32(v) else v);
      StoredWord32(v, big);
      StoreAt(off, data);
      e, d := [Store(off, data)], [Bounded(|c.interesting32|, item), Bounded(len - 3, off)];
    }

    method AddAt16(pos: nat, delta: nat, big: bool)
      requires Valid() && pos + 2 <= len && delta < M16
      modifies buf
      ensures Valid() && ValidFor(Add16(pos, delta, big), len, c.maxLen)
      ensures Content() == Apply(Add16(pos, delta, big), old(Content()), c.maxLen)
    {
      hide Patch, Put16, Add16Of, Get16;
      PatchBuf(pos, Put16(Add16Of(Get16(Content(), pos), delta, big)));
    }

    method AddAt32(pos: nat, delta: nat, big: bool)
      requires Valid() && pos + 4 <= len && delta < M32
      modifies buf
      ensures Valid() && ValidFor(Add32(pos, delta, big), len, c.maxLen)
      ensures Content() == Apply(Add32(pos, delta, big), old(Content()), c.maxLen)
    {
      hide Patch, Put32, Add32Of, Get32;
      PatchBuf(pos, Put32(Add32Of(Get32(Content(), pos), delta, big)));
    }

    /** ARITH16 and ARITH16BE, adding or subtracting 1..ARITH_MAX. */
    method Add16Case(subtract: bool, big: bool) returns (ghost e: seq<Edit>, ghost d: seq<Drawn>)
      requires Valid()
      modifies buf, rng
      ensures Did(false, e, d) && (e == [] <==> len < 2) && (e == [] ==> d == [])
      ensures e != [] ==> Adds16(old(Content()), d, e[0], subtract, big)
    {
      e, d := [], [];
      if len < 2 { return; }
      hide rng.Honest, Adds16, Apply, ValidFor;
      e, d := Arith16(subtract, big);
    }

    method Arith16(subtract: bool, big: bool) returns (ghost e: seq<Edit>, ghost d: seq<Drawn>)
      requires Valid() && len >= 2
      modifies buf, rng
      ensures Did(false, e, d) && |e| == 1 && Adds16(old(Content()), d, e[0], subtract, big)
    {
      hide rng.Honest, Apply, ValidFor;
      var pos := rng.Below(len - 1);
      var item := rng.Below(ARITH_MAX);
      d := [Bounded(len - 1, pos), Bounded(ARITH_MAX, item)];
      item := item + 1;
      var delta := if subtract then Neg16(item) else item;
      AddAt16(pos, delta, big);
      e := [Add16(pos, delta, big)];
    }

    /** ARITH32 and ARITH32BE; the big-endian addition passes big as false, see
        Arith32BEIsLittleEndian. */
    method Add32Case(subtract: bool, big: bool) returns (ghost e: seq<Edit>, ghost d: seq<Drawn>)
      requires Valid()
      modifies buf, rng
      ensures Did(false, e, d) && (e == [] <==> len < 4) && (e == [] ==> d == [])
      ensures e != [] ==> Adds32(old(Content()), d, e[0], subtract, big)
    {
      e, d := [], [];
      if len < 4 { return; }
      hide rng.Honest, Adds32, Apply, ValidFor;
      e, d := Arith32(subtract, big);
    }

    method Arith32(subtract: bool, big: bool) returns (ghost e: seq<Edit>, ghost d: seq<Drawn>)
      requires Valid() && len >= 4
      modifies buf, rng
      ensures Did(false, e, d) && |e| == 1 && Adds32(old(Content()), d, e[0], subtract, big)
    {
      hide rng.Honest, Apply, ValidFor;
      var pos := rng.Below(len - 3);
      var item := rng.Below(ARITH_MAX);
      d := [Bounded(len - 3, pos), Bounded(ARITH_MAX, item)];
      item := item + 1;
      var delta := if subtract then Neg32(item) else item;
      AddAt32(pos, delta, big);
      e := [Add32(pos, delta, big)];
    }

    // ---- blocks ---------------------------------------------------------------------------------

    /** Head, inserted part and tail are assembled in the scratch buffer and copied back. */
    method InsertViaTmp(at: nat, data: Bytes)
      requires Valid() && at <= len && len + |data| <= c.maxLen
      modifies this`len, buf, tmp
      ensures Valid() && ValidFor(Insert(at, data), old(len), c.maxLen)
      ensures Content() == Apply(Insert(at, data), old(Content()), c.maxLen)
    {
      ReplaceViaTmp(at, 0, data);
    }

    method ReplaceViaTmp(at: nat, n: nat, data: Bytes)
      requires Valid() && at + n <= len && 1 <= len - n + |data| <= c.maxLen
      modifies this`len, buf, tmp
      ensures Valid() && len == old(len) - n + |data|
      ensures Content() == old(Content())[..at] + data + old(Content())[at + n..]
    {
      var b := Content();
      Assemble(b[..at], data, b[at + n..]);
      len := len - n + |data|;
      MemCpy(buf, 0, tmp[..len]);
    }

    method Assemble(head: Bytes, data: Bytes, tail: Bytes)
      requires |head| + |data| + |tail| <= tmp.Length
      modifies tmp
      ensures tmp[..|head| + |data| + |tail|] == head + data + tail
    {
      MemCpy(tmp, 0, head);
      MemCpy(tmp, |head|, data);
      assert tmp[..|head| + |data|] == head + data;
      MemCpy(tmp, |head| + |data|, tail);
    }

    /** Where a block filled with one byte goes, and which byte: random or the one in front. */
    method FillPlace(limit: nat) returns (at: nat, v: bv8, ghost d: seq<Drawn>)
      requires Valid() && 1 <= limit <= len
      modifies rng
      ensures at < limit && rng.Asked(d) && FilledBy(Content(), d, at, limit, v)
    {
      hide rng.Honest, Num, Byte;
      at := rng.Below(limit);
      var strat := rng.Below(2);
      d := [Bounded(limit, at), Bounded(2, strat)];
      if strat != 0 {
        var item := rng.Below(256);
        ByteNum(item);
        v := Byte(item);
        assert FillDrawn(Content(), at, strat, [Bounded(256, item)], v);
        d := d + [Bounded(256, item)];
      } else {
        v := buf[if at > 0 then at - 1 else 0];
        assert FillDrawn(Content(), at, strat, [], v);
        assert d == d + [];
      }
    }

    /** CLONE_COPY. */
    method CloneCopyCase() returns (retry: bool, ghost e: seq<Edit>, ghost d: seq<Drawn>)
      requires Valid()
      modifies this`len, buf, tmp, rng
      ensures Did(retry, e, d)
      ensures e == [] <==> old(len) + HAVOC_BLK_XL >= c.maxLen
      ensures (retry <==> e == [] && old(len) >= 8) && (e == [] ==> d == [])
      ensures e != [] ==> ClonesCopy(c, old(Content()), d, e[0])
    {
      hide rng.Honest, Apply, ValidFor, Copied;
      retry, e, d := false, [], [];
      if len + HAVOC_BLK_XL < c.maxLen {
        var b := Content();
        e, d := CloneOf(b, len);
      } else if len >= 8 {
        retry := true;
      }
    }

    /** A block of src goes into the input, in front of one of its first places. */
    method CloneOf(src: Bytes, places: nat) returns (ghost e: seq<Edit>, ghost d: seq<Drawn>)
      requires Valid() && src != [] && 1 <= places <= len + 1 && len + HAVOC_BLK_XL <= c.maxLen
      modifies this`len, buf, tmp, rng
      ensures Did(false, e, d) && |e| == 1 && e[0].Insert?
      ensures Copied(c, src, |src|, |src|, d, e[0].data, e[0].off, places)
    {
      hide rng.Honest, Apply, ValidFor, LengthDrawn, Copied;
      var cloneLen, ld := ChooseBlockLen(|src|);
      var cloneFrom := rng.Below(|src| - cloneLen + 1);
      var cloneTo := rng.Below(places);
      var data := src[cloneFrom..cloneFrom + cloneLen];
      d := ld + [Bounded(|src| - cloneLen + 1, cloneFrom), Bounded(places, cloneTo)];
      CopiedIs(c, src, |src|, |src|, d, data, cloneTo, places, ld, cloneLen, cloneFrom);
      InsertViaTmp(cloneTo, data);
      e := [Insert(cloneTo, data)];
    }

    /** CLONE_FIXED. */
    method CloneFixedCase() returns (retry: bool, ghost e: seq<Edit>, ghost d: seq<Drawn>)
      requires Valid()
      modifies this`len, buf, tmp, rng
      ensures Did(retry, e, d)
      ensures e == [] <==> old(len) + HAVOC_BLK_XL >= c.maxLen
      ensures (retry <==> e == [] && old(len) >= 8) && (e == [] ==> d == [])
      ensures e != [] ==> ClonesFixed(c, old(Content()), d, e[0])
    {
      hide rng.Honest, Apply, ValidFor, LengthDrawn, FilledBy;
      retry, e, d := false, [], [];
      if len + HAVOC_BLK_XL < c.maxLen {
        var cloneLen, ld := ChooseBlockLen(HAVOC_BLK_XL);
        var cloneTo, item, fd := FillPlace(len);
        d := ld + fd;
        var data := seq(cloneLen, _ => item);
        InsertViaTmp(cloneTo, data);
        e := [Insert(cloneTo, data)];
      } else if len >= 8 {
        retry := true;
      }
    }

    /** OVERWRITE_COPY. */
    method OverwriteCopyCase() returns (ghost e: seq<Edit>, ghost d: seq<Drawn>)
      requires Valid()
      modifies buf, rng
      ensures Did(false, e, d) && (e == [] <==> len < 2) && (e == [] ==> d == [])
      ensures e != [] ==> OverwritesCopy(c, old(Content()), d, e[0])
    {
      hide rng.Honest, Apply, LengthDrawn;
      e, d := [], [];
      if len < 2 { return; }
      var copyLen, ld := ChooseBlockLen(len - 1);
      var copyFrom := rng.Below(len - copyLen + 1);
      var copyTo := rng.Below(len - copyLen + 1);
      assert PartLength(c, ld, Content(), copyLen);
      d := ld + [Bounded(len - copyLen + 1, copyFrom), Bounded(len - copyLen + 1, copyTo)];
      if copyFrom != copyTo {
        MoveInside(copyFrom, copyTo, copyLen);
      } else {
        StaysSame(Content(), copyTo, copyLen);
      }
      e := [CopyWithin(copyFrom, copyTo, copyLen)];
    }

    lemma StaysSame(b: Bytes, at: nat, n: nat)
      requires at + n <= |b|
      ensures Apply(CopyWithin(at, at, n), b, c.maxLen) == b
    {
      hide Patch;
      PatchSame(b, at, n);
    }

    method MoveInside(src: nat, dst: nat, n: nat)
      requires Valid() && src + n <= len && dst + n <= len
      modifies buf
      ensures Content() == Apply(CopyWithin(src, dst, n), old(Content()), c.maxLen)
    {
      hide Patch;
      var b := Content();
      PatchBuf(dst, b[src..src + n]);
    }

    /** OVERWRITE_FIXED. */
    method OverwriteFixedCase() returns (ghost e: seq<Edit>, ghost d: seq<Drawn>)
      requires Valid()
      modifies buf, rng
      ensures Did(false, e, d) && (e == [] <==> len < 2) && (e == [] ==> d == [])
      ensures e != [] ==> OverwritesFixed(c, old(Content()), d, e[0])
    {
      hide rng.Honest, LengthDrawn, FilledBy, Patch;
      e, d := [], [];
      if len < 2 { return; }
      var copyLen, ld := ChooseBlockLen(len - 1);
      assert PartLength(c, ld, Content(), copyLen);
      var copyTo, item, fd := FillPlace(len - copyLen + 1);
      d := ld + fd;
      PatchBuf(copyTo, seq(copyLen, _ => item));
      e := [Fill(copyTo, copyLen, item)];
    }

    /** SWITCH: the two blocks never overlap, because the length is at most their distance. */
    method SwitchCase() returns (ghost e: seq<Edit>, ghost d: seq<Drawn>)
      requires Valid()
      modifies buf, tmp, rng
      ensures Did(false, e, d)
      ensures e != [] ==> Switches(c, old(Content()), d, e[0])
      ensures !rng.dry ==> (e == [] <==> len < 4) && (e == [] ==> d == [])
    {
      hide rng.Honest, LengthDrawn, PlacesDrawn, Switches, Apply, ValidFor;
      e, d := [], [];
      if len < 4 { return; }
      ghost var b := Content();
      var switchFrom, switchTo, k, pd := TwoPlaces();
      d := pd;
      if switchFrom == switchTo { return; }  // only on a run that is cut short
      ghost var ld, n;
      n, ld := SwitchPlaces(switchFrom, switchTo);
      e, d := [SwapBlocks(switchFrom, switchTo, n)], pd + ld;
      SwitchDrawn(b, pd, switchFrom, switchTo, k, ld, n);
    }

    lemma SwitchDrawn(b: Bytes, pd: seq<Drawn>, x: nat, y: nat, k: nat, ld: seq<Drawn>, n: nat)
      requires 4 <= |b| && x < |b| && y < |b| && x != y
      requires PlacesDrawn(pd, |b|, x, y, k) && LengthDrawn(c, ld, SwitchLimit(|b|, x, y), n)
      ensures Switches(c, b, pd + ld, SwapBlocks(x, y, n))
    {
      hide PlacesDrawn, LengthDrawn;
    }

    method SwitchPlaces(switchFrom: nat, switchTo: nat) returns (ghost n: nat, ghost ld: seq<Drawn>)
      requires Valid() && switchFrom < len && switchTo < len && switchFrom != switchTo
      modifies buf, tmp, rng
      ensures Valid() && rng.Asked(ld) && LengthDrawn(c, ld, SwitchLimit(len, switchFrom, switchTo), n)
      ensures ValidFor(SwapBlocks(switchFrom, switchTo, n), len, c.maxLen)
      ensures Content() == Apply(SwapBlocks(switchFrom, switchTo, n), old(Content()), c.maxLen)
    {
      hide rng.Honest, LengthDrawn, SwapSeq;
      var switchLen, toEnd: nat;
      if switchFrom < switchTo {
        switchLen, toEnd := switchTo - switchFrom, len - switchTo;
      } else {
        switchLen, toEnd := switchFrom - switchTo, len - switchFrom;
      }
      var blockLen, drawn := ChooseBlockLen(Min(switchLen, toEnd));
      n, ld := blockLen, drawn;
      SwitchBlocks(switchFrom, switchTo, blockLen);
    }

    method TwoPlaces() returns (x: nat, y: nat, ghost k: nat, ghost d: seq<Drawn>)
      requires Valid() && len >= 2
      modifies rng
      ensures x < len && y < len && (x == y ==> rng.dry)
      ensures rng.Asked(d) && PlacesDrawn(d, len, x, y, k)
    {
      hide rng.Honest;
      var n := len;
      x := rng.Below(n);
      y := rng.Below(n);
      k := 0;
      d := [Bounded(n, x)] + [Bounded(n, y)];
      assert seq(0, _ => Bounded(n, x)) == [];
      while x == y && !rng.dry
        invariant y < n && rng.Asked(d) && PlacesDrawn(d, n, x, y, k)
        decreases |rng.tape|, !rng.dry
      {
        assert d == [Bounded(n, x)] + seq(k + 1, _ => Bounded(n, x));
        y := rng.Below(n);
        d := d + [Bounded(n, y)];
        k := k + 1;
      }
    }

    method SwitchBlocks(x: nat, y: nat, n: nat)
      requires Valid() && x + n <= len && y + n <= len && (x + n <= y || y + n <= x)
      modifies buf, tmp
      ensures Content() == SwapSeq(old(Content()), x, y, n)
    {
      hide Patch, SwapSeq;
      var b := Content();
      var xs, ys := b[x..x + n], b[y..y + n];
      assert |xs| == n && |ys| == n;
      Backup(xs);
      assert tmp[..n] == xs;
      PatchBoth(x, ys, y, tmp[..n]);
      SwapIsPatches(b, x, y, n);
    }

    lemma SwapIsPatches(b: Bytes, x: nat, y: nat, n: nat)
      requires x + n <= |b| && y + n <= |b|
      ensures Patch(Patch(b, x, b[y..y + n]), y, b[x..x + n]) == SwapSeq(b, x, y, n)
    {
      hide Patch;
    }

    method Backup(xs: Bytes)
      requires Valid() && |xs| <= len
      modifies tmp
      ensures tmp[..|xs|] == xs
    {
      MemCpy(tmp, 0, xs);
    }

    method PatchBoth(x: nat, ys: Bytes, y: nat, xs: Bytes)
      requires Valid() && x + |ys| <= len && y + |xs| <= len
      modifies buf
      ensures Content() == Patch(Patch(old(Content()), x, ys), y, xs)
    {
      hide Patch;
      PatchBuf(x, ys);
      PatchBuf(y, xs);
    }

    /** DEL. */
    method DeleteCase() returns (ghost e: seq<Edit>, ghost d: seq<Drawn>)
      requires Valid()
      modifies this`len, buf, rng
      ensures Did(false, e, d) && (e == [] <==> old(len) < 2) && (e == [] ==> d == [])
      ensures e != [] ==> Deletes(c, old(Content()), d, e[0])
    {
      hide rng.Honest, LengthDrawn, Apply;
      e, d := [], [];
      if len < 2 { return; }
      var delLen, ld := ChooseBlockLen(len - 1);
      assert PartLength(c, ld, Content(), delLen);
      var delFrom := rng.Below(len - delLen + 1);
      d := ld + [Bounded(len - delLen + 1, delFrom)];
      CutOut(delFrom, delLen);
      e := [Delete(delFrom, delLen)];
    }

    /** DELONE. */
    method DeleteOneCase() returns (ghost e: seq<Edit>, ghost d: seq<Drawn>)
      requires Valid()
      modifies this`len, buf, rng
      ensures Did(false, e, d) && (e == [] <==> old(len) < 2) && (e == [] ==> d == [])
      ensures e != [] ==> DeletesOne(old(Content()), d, e[0])
    {
      hide rng.Honest, Apply;
      e, d := [], [];
      if len < 2 { return; }
      var delLen := 1;
      var delFrom := rng.Below(len - delLen + 1);
      d := [Bounded(len, delFrom)];
      CutOut(delFrom, delLen);
      e := [Delete(delFrom, delLen)];
    }

    method CutOut(at: nat, n: nat)
      requires Valid() && 1 <= n && at + n <= len && n < len
      modifies this`len, buf
      ensures Valid() && Content() == Apply(Delete(at, n), old(Content()), c.maxLen)
    {
      hide Patch;
      ghost var a := buf[..];
      MemCpy(buf, at, buf[at + n..len]);
      assert at + |a[at + n..len]| == len - n;
      CutDown(a, len, buf[..], at, n);
      len := len - n;
    }

    /** SHUFFLE. */
    method ShuffleCase() returns (ghost e: seq<Edit>, ghost d: seq<Drawn>)
      requires Valid()
      modifies buf, rng
      ensures Valid() && rng.Asked(d)
      ensures !rng.dry ==> Did(false, e, d) && (e == [] <==> len < 4) && (e == [] ==> d == [])
      ensures !rng.dry && e != [] ==> Shuffles(c, old(Content()), d, e[0])
    {
      hide rng.Honest, LengthDrawn, Apply, ValidFor, ShuffledBy;
      e, d := [], [];
      if len < 4 { return; }
      var blen, ld := ChooseBlockLen(len - 1);
      assert PartLength(c, ld, Content(), blen);
      var off := rng.Below(len - blen + 1);
      ghost var js, sd := ShuffleBlock(off, blen);
      d := ld + ([Bounded(len - blen + 1, off)] + sd);
      if !rng.dry { e := [Shuffle(off, js)]; }
    }

    method ShuffleBlock(off: nat, blen: nat) returns (ghost js: seq<nat>, ghost sd: seq<Drawn>)
      requires Valid() && 1 <= blen && off + blen <= len
      modifies buf, rng
      ensures |js| == blen && rng.Asked(sd) && ShuffledBy(sd, js)
      ensures !rng.dry ==> ValidFor(Shuffle(off, js), len, c.maxLen)
      ensures !rng.dry ==> Content() == Apply(Shuffle(off, js), old(Content()), c.maxLen)
    {
      hide S.Shuffled, S.Choices, ValidFor, Apply, S.Partnered, rng.Honest;
      ghost var before := buf[..];
      js, sd := S.Shuffle(buf, off, blen, rng);
      if !rng.dry { ShuffleApplies(before, buf[..], len, off, js, c.maxLen); }
    }

    /** INSERTONE. */
    method InsertOneCase() returns (retry: bool, ghost e: seq<Edit>, ghost d: seq<Drawn>)
      requires Valid()
      modifies this`len, buf, tmp, rng
      ensures Did(retry, e, d) && (e == [] ==> d == [])
      ensures e == [] <==> old(len) < 2 || old(len) == c.maxLen
      ensures retry <==> 2 <= old(len) == c.maxLen
      ensures e != [] ==> InsertsOne(c, old(Content()), d, e[0])
    {
      hide rng.Honest, FilledBy, Apply, ValidFor;
      retry, e, d := false, [], [];
      if len < 2 { return; }
      if len + 1 > c.maxLen { retry := true; return; }
      var cloneTo, item, fd := FillPlace(len);
      d := fd;
      InsertViaTmp(cloneTo, [item]);
      e := [Insert(cloneTo, [item])];
    }

    // ---- numbers --------------------------------------------------------------------------------

    /** ASCIINUM. */
    method AsciiNumCase() returns (retry: bool, ghost e: seq<Edit>, ghost d: seq<Drawn>)
      requires Valid()
      modifies this`len, buf, tmp, rng
      ensures Did(retry, e, d)
      ensures e != [] ==> RewritesNumber(old(Content()), d, e[0])
      ensures !retry && e == [] ==> (old(len) < 4 && d == []) || (old(len) < 8 && FindsNoNumber(old(Content()), d))
      ensures retry ==> (old(len) >= 8 && FindsNoNumber(old(Content()), d)) || NoRoomToRewrite(c, old(Content()), d)
    {
      hide rng.Honest, A.NoDigits, Rewrites, Apply, ValidFor;
      retry, e, d := false, [], [];
      if len < 4 { return; }
      var b := Content();
      var found, off, end, text: Bytes;
      ghost var w;
      found, off, end, text, w, d := NewText();
      if !found { retry := len >= 8; return; }
      retry, e := PrintAt(off, end, text);
      assert retry ==> TooLong(c, b, w);
    }

    /** The number found, and what is printed in its place. */
    method NewText() returns (found: bool, off: nat, end: nat, text: Bytes, ghost w: Rewriting, ghost d: seq<Drawn>)
      requires Valid() && len >= 4
      modifies rng
      ensures rng.Asked(d) && (!found ==> FindsNoNumber(Content(), d))
      ensures found ==> Rewrites(Content(), d, w) && off == w.off && end - off == Span(w) && off < end <= len && text == A.NumBuf(w.val')
    {
      hide rng.Honest, A.NumberAt, A.ChangedTo, A.Drops, A.NumBuf, A.NoDigits, A.FirstCyclic;
      var b := Content();
      var start := rng.Below(len);
      d, text, w := [Bounded(len, start)], [], Rewriting(0, 0, 0, 0, 0, [], 0);
      var val: int;
      found, off, end, val := A.PickNumber(b, start);
      if !found { return; }
      var strat := rng.Below(8);
      A.NumberFits(b, off, end, val);
      var val', dropped, cd := A.Change(val, strat, rng);
      w := Rewriting(start, off, end, val, strat, cd, val');
      d := [Bounded(len, start), Bounded(8, strat)] + cd;
      if dropped {
        A.SpanSurvives(b, off, end, val, strat);
        end := end - 1;
      }
      text := A.NumBuf(val');
    }

    method PrintAt(off: nat, end: nat, text: Bytes) returns (retry: bool, ghost e: seq<Edit>)
      requires Valid() && off < end <= len && text != []
      modifies this`len, buf, tmp
      ensures Valid() && |e| <= 1 && (retry <==> e == []) && (retry ==> Content() == old(Content()))
      ensures retry <==> old(len) - (end - off) + |text| > c.maxLen && |text| != end - off
      ensures e != [] ==> SpanOf(e[0], off, end - off) && e[0].data == text
      ensures e != [] ==> ValidFor(e[0], old(len), c.maxLen) && Content() == Apply(e[0], old(Content()), c.maxLen)
    {
      hide Patch;
      retry, e := false, [];
      var oldLen, newLen := end - off, |text|;
      if oldLen == newLen {
        PatchBuf(off, text);
        e := [Store(off, text)];
      } else if off + newLen + len - end > c.maxLen {
        retry := true;
      } else {
        ReplaceViaTmp(off, oldLen, text);
        e := [Replace(off, oldLen, text)];
      }
    }

    /** INSERTASCIINUM: despite its name it overwrites; the digits are the last ones of the number. */
    method InsertAsciiNumCase() returns (retry: bool, ghost e: seq<Edit>, ghost d: seq<Drawn>)
      requires Valid()
      modifies buf, rng
      ensures Did(retry, e, d)
      ensures e == [] ==> NoRoomForDigits(old(Content()), d) && (retry <==> len >= 8)
      ensures e != [] ==> WritesDigits(old(Content()), d, e[0])
    {
      hide rng.Honest, Apply, ValidFor, HavocDraws.LastDigits;
      retry, e := false, [];
      var want := rng.Below(8);
      var pos := rng.Below(len);
      d := [Bounded(8, want), Bounded(len, pos)];
      var insLen := want + 1;
      if len < pos + insLen { retry := len >= 8; return; }
      var val := rng.RandNext();
      d := d + [Raw(val)];
      var data := CutDigits(val, insLen);
      StoreAt(pos, data);
      e := [Store(pos, data)];
    }

    method CutDigits(val: nat, insLen0: nat) returns (data: Bytes)
      ensures HavocDraws.LastDigits(data, val, insLen0) && |data| <= insLen0
    {
      hide A.Digits;
      var insLen := insLen0;
      var numbuf := A.Digits(val);
      var off: nat := 0;
      if insLen > |numbuf| { insLen := |numbuf|; } else { off := |numbuf| - insLen; }
      data := numbuf[off..off + insLen];
    }

    // ---- dictionaries and splicing ---------------------------------------------------------------

    /** EXTRA_OVERWRITE and AUTO_EXTRA_OVERWRITE. */
    method ExtraOverwriteCase(dict: seq<Bytes>) returns (retry: bool, ghost e: seq<Edit>, ghost d: seq<Drawn>)
      requires Valid()
      modifies buf, rng
      ensures Did(retry, e, d) && (retry <==> e == []) && (retry ==> NoEntry(dict, len, d))
      ensures e != [] ==> OverwritesEntry(dict, old(Content()), d, e[0])
    {
      hide rng.Honest, Apply, ValidFor;
      retry, e, d := true, [], [];
      if |dict| == 0 { return; }
      var use := rng.Below(|dict|);
      d := [Bounded(|dict|, use)];
      var extraLen := |dict[use]|;
      if extraLen > len { return; }
      var at := rng.Below(len - extraLen + 1);
      d := [Bounded(|dict|, use), Bounded(len - extraLen + 1, at)];
      StoreAt(at, dict[use]);
      retry, e := false, [Store(at, dict[use])];
    }

    method InsertInPlace(at: nat, data: Bytes)
      requires Valid() && at <= len && len + |data| <= c.maxLen
      modifies this`len, buf
      ensures Valid() && ValidFor(Insert(at, data), old(len), c.maxLen)
      ensures Content() == Apply(Insert(at, data), old(Content()), c.maxLen)
    {
      MoveUp(at, data);
    }

    method MoveUp(at: nat, data: Bytes)
      requires Valid() && at <= len && len + |data| <= c.maxLen
      modifies this`len, buf
      ensures Valid() && len == old(len) + |data|
      ensures Content() == old(Content())[..at] + data + old(Content())[at..]
    {
      ghost var a := buf[..];
      MemCpy(buf, at + |data|, Content()[at..]);
      ghost var b := buf[..];
      assert b == a[..at + |data|] + a[..len][at..] + a[len + |data|..];
      MemCpy(buf, at, data);
      MadeRoom(a, len, b, buf[..], at, data);
      len := len + |data|;
    }

    /** EXTRA_INSERT and AUTO_EXTRA_INSERT: the tail is moved up in place. */
    method ExtraInsertCase(dict: seq<Bytes>) returns (retry: bool, ghost e: seq<Edit>, ghost d: seq<Drawn>)
      requires Valid()
      modifies this`len, buf, rng
      ensures Did(retry, e, d) && (retry <==> e == []) && (retry ==> NoEntry(dict, c.maxLen - len, d))
      ensures e != [] ==> InsertsEntry(c, dict, old(Content()), d, e[0])
    {
      hide rng.Honest, Apply, ValidFor;
      retry, e, d := true, [], [];
      if |dict| == 0 { return; }
      var use := rng.Below(|dict|);
      d := [Bounded(|dict|, use)];
      var data := dict[use];
      if len + |data| > c.maxLen { return; }
      var at := rng.Below(len + 1);
      d := [Bounded(|dict|, use), Bounded(len + 1, at)];
      InsertInPlace(at, data);
      retry, e := false, [Insert(at, data)];
    }

    /** SPLICE_OVERWRITE; a splice input of one byte relies on ChooseBlockLen(0) being 1. */
    method SpliceOverwriteCase() returns (retry: bool, ghost e: seq<Edit>, ghost d: seq<Drawn>)
      requires Valid()
      modifies buf, rng
      ensures Did(retry, e, d) && (retry <==> e == []) && (retry <==> c.splice == []) && (retry ==> d == [])
      ensures e != [] ==> OverwritesSplice(c, old(Content()), d, e[0])
    {
      hide rng.Honest, Apply, ValidFor, OverwritesSplice;
      retry, e, d := true, [], [];
      if |c.splice| == 0 { return; }
      e, d := OverwriteSplice();
      retry := false;
    }

    method OverwriteSplice() returns (ghost e: seq<Edit>, ghost d: seq<Drawn>)
      requires Valid() && c.splice != []
      modifies buf, rng
      ensures Did(false, e, d) && |e| == 1 && OverwritesSplice(c, old(Content()), d, e[0])
    {
      hide rng.Honest, Apply, ValidFor, LengthDrawn, Copied;
      var drawn, ld := ChooseBlockLen(|c.splice| - 1);
      var copyLen := drawn;
      if copyLen > len { copyLen := len; }
      var copyFrom := rng.Below(|c.splice| - copyLen + 1);
      var copyTo := rng.Below(len - copyLen + 1);
      var data := c.splice[copyFrom..copyFrom + copyLen];
      d := ld + [Bounded(|c.splice| - copyLen + 1, copyFrom), Bounded(len - copyLen + 1, copyTo)];
      CopiedIs(c, c.splice, |c.splice| - 1, len, d, data, copyTo, len - copyLen + 1, ld, drawn, copyFrom);
      StoreAt(copyTo, data);
      e := [Store(copyTo, data)];
    }

    /** SPLICE_INSERT. */
    method SpliceInsertCase() returns (retry: bool, ghost e: seq<Edit>, ghost d: seq<Drawn>)
      requires Valid()
      modifies this`len, buf, tmp, rng
      ensures Did(retry, e, d) && (retry <==> e == []) && (retry ==> d == [])
      ensures retry <==> c.splice == [] || old(len) + HAVOC_BLK_XL > c.maxLen
      ensures e != [] ==> InsertsSplice(c, old(Content()), d, e[0])
    {
      hide rng.Honest, Apply, ValidFor, Copied;
      retry, e, d := true, [], [];
      if |c.splice| == 0 { return; }
      if len + HAVOC_BLK_XL > c.maxLen { return; }
      e, d := CloneOf(c.splice, len + 1);
      retry := false;
    }

    // ---- the step loop ---------------------------------------------------------------------------

    predicate InOneByte(m: Mutation) {
      m.FLIPBIT? || m.INTERESTING8? || m.ARITH8_? || m.ARITH8? || m.RAND8? || m.BYTEADD? || m.BYTESUB? || m.FLIP8?
    }

    predicate InTwoBytes(m: Mutation) {
      m.INTERESTING16? || m.INTERESTING16BE? || m.ARITH16_? || m.ARITH16BE_? || m.ARITH16? || m.ARITH16BE?
    }

    predicate InOneWord(m: Mutation) {
      InTwoBytes(m) || m.INTERESTING32? || m.INTERESTING32BE? || m.ARITH32_? || m.ARITH32BE_? || m.ARITH32? || m.ARITH32BE?
    }

    /** The cases of the switch that change one byte. */
    method DispatchByte(m: Mutation) returns (ghost e: seq<Edit>, ghost d: seq<Drawn>)
      requires Valid() && InOneByte(m)
      modifies buf, rng
      ensures Did(false, e, d) && Outcome(c, m, old(Content()), d, false, e)
    {
      hide rng.Honest, Apply, ValidFor, Flips, Puts8, Adds8, AddsOne, XorsAny, XorsAll, Num;
      NumEnds();
      OneNum();
      ghost var off, amount;
      match m {
        case FLIPBIT => e, d := FlipBitCase();
        case INTERESTING8 => e, d := Interesting8Case();
        case ARITH8_ => e, d, off, amount := Arith8Case(true);
        case ARITH8 => e, d, off, amount := Arith8Case(false);
        case RAND8 => e, d := Rand8Case();
        case BYTEADD => e, d, off := AddByteCase(1);
        case BYTESUB => e, d, off := AddByteCase(0xFF);
        case FLIP8 => e, d := XorByteCase();
      }
    }

    method DispatchTwoBytes(m: Mutation) returns (ghost e: seq<Edit>, ghost d: seq<Drawn>)
      requires Valid() && InTwoBytes(m)
      modifies buf, rng
      ensures Did(false, e, d) && Outcome(c, m, old(Content()), d, false, e)
    {
      hide rng.Honest, Apply, ValidFor, Puts16, Adds16;
      match m {
        case INTERESTING16 => e, d := Interesting16Case(false);
        case INTERESTING16BE => e, d := Interesting16Case(true);
        case ARITH16_ => e, d := Add16Case(true, false);
        case ARITH16BE_ => e, d := Add16Case(true, true);
        case ARITH16 => e, d := Add16Case(false, false);
        case ARITH16BE => e, d := Add16Case(false, true);
      }
    }

    /** The cases of the switch that change two or four bytes. */
    method DispatchWord(m: Mutation) returns (ghost e: seq<Edit>, ghost d: seq<Drawn>)
      requires Valid() && InOneWord(m)
      modifies buf, rng
      ensures Did(false, e, d) && Outcome(c, m, old(Content()), d, false, e)
    {
      hide rng.Honest, Apply, ValidFor, Puts32, Adds32;
      if InTwoBytes(m) {
        hide Outcome;
        e, d := DispatchTwoBytes(m);
        return;
      }
      match m {
        case INTERESTING32 => e, d := Interesting32Case(false);
        case INTERESTING32BE => e, d := Interesting32Case(true);
        case ARITH32_ => e, d := Add32Case(true, false);
        case ARITH32BE_ => e, d := Add32Case(true, true);
        case ARITH32 => e, d := Add32Case(false, false);
        case ARITH32BE => e, d := Add32Case(false, false);
      }
    }

    predicate FromDictionary(m: Mutation) {
      m.EXTRA_OVERWRITE? || m.EXTRA_INSERT? || m.AUTO_EXTRA_OVERWRITE? || m.AUTO_EXTRA_INSERT?
    }

    predicate FromElsewhere(m: Mutation) { FromDictionary(m) || m.SPLICE_OVERWRITE? || m.SPLICE_INSERT? }

    method DispatchDictionary(m: Mutation) returns (retry: bool, ghost e: seq<Edit>, ghost d: seq<Drawn>)
      requires Valid() && FromDictionary(m)
      modifies this`len, buf, tmp, rng
      ensures Did(retry, e, d) && Outcome(c, m, old(Content()), d, retry, e)
    {
      hide rng.Honest, Apply, ValidFor, NoEntry, OverwritesEntry, InsertsEntry, Outcome;
      ghost var b := Content();
      match m {
        case EXTRA_OVERWRITE => retry, e, d := ExtraOverwriteCase(c.extras);
        case EXTRA_INSERT => retry, e, d := ExtraInsertCase(c.extras);
        case AUTO_EXTRA_OVERWRITE => retry, e, d := ExtraOverwriteCase(c.autoExtras);
        case AUTO_EXTRA_INSERT => retry, e, d := ExtraInsertCase(c.autoExtras);
      }
      EntryOutcome(m, b, d, retry, e);
    }

    lemma EntryOutcome(m: Mutation, b: Bytes, d: seq<Drawn>, retry: bool, e: seq<Edit>)
      requires FromDictionary(m) && |e| <= 1 && (retry <==> e == [])
      requires m.EXTRA_OVERWRITE? ==> if retry then NoEntry(c.extras, |b|, d) else OverwritesEntry(c.extras, b, d, e[0])
      requires m.EXTRA_INSERT? ==> if retry then NoEntry(c.extras, c.maxLen - |b|, d) else InsertsEntry(c, c.extras, b, d, e[0])
      requires m.AUTO_EXTRA_OVERWRITE? ==> if retry then NoEntry(c.autoExtras, |b|, d) else OverwritesEntry(c.autoExtras, b, d, e[0])
      requires m.AUTO_EXTRA_INSERT? ==> if retry then NoEntry(c.autoExtras, c.maxLen - |b|, d) else InsertsEntry(c, c.autoExtras, b, d, e[0])
      ensures Outcome(c, m, b, d, retry, e)
    {
      hide NoEntry, OverwritesEntry, InsertsEntry;
    }

    /** The cases of the switch that take bytes from a dictionary or another input. */
    method DispatchElsewhere(m: Mutation) returns (retry: bool, ghost e: seq<Edit>, ghost d: seq<Drawn>)
      requires Valid() && FromElsewhere(m)
      modifies this`len, buf, tmp, rng
      ensures Did(retry, e, d) && Outcome(c, m, old(Content()), d, retry, e)
    {
      hide rng.Honest, Apply, ValidFor, OverwritesSplice, InsertsSplice;
      if FromDictionary(m) {
        hide Outcome;
        retry, e, d := DispatchDictionary(m);
        return;
      }
      match m {
        case SPLICE_OVERWRITE => retry, e, d := SpliceOverwriteCase();
        case SPLICE_INSERT => retry, e, d := SpliceInsertCase();
      }
    }

    /** The cases of the switch that work on blocks and numbers of the input. */
    method DispatchBlock(m: Mutation) returns (retry: bool, ghost e: seq<Edit>, ghost d: seq<Drawn>)
      requires Valid() && !InOneByte(m) && !InOneWord(m) && !FromElsewhere(m)
      modifies this`len, buf, tmp, rng
      ensures Valid() && rng.Asked(d)
      ensures !rng.dry ==> Did(retry, e, d) && Outcome(c, m, old(Content()), d, retry, e)
    {
      hide rng.Honest, Apply, ValidFor, ClonesCopy, ClonesFixed, OverwritesCopy, OverwritesFixed, Switches, Deletes, DeletesOne,
        Shuffles, InsertsOne, RewritesNumber, WritesDigits, NoRoomForDigits, NoRoomToRewrite, FindsNoNumber;
      retry := false;
      match m {
        case CLONE_COPY => retry, e, d := CloneCopyCase();
        case CLONE_FIXED => retry, e, d := CloneFixedCase();
        case OVERWRITE_COPY => e, d := OverwriteCopyCase();
        case OVERWRITE_FIXED => e, d := OverwriteFixedCase();
        case SWITCH => e, d := SwitchCase();
        case DEL => e, d := DeleteCase();
        case SHUFFLE => e, d := ShuffleCase();
        case DELONE => e, d := DeleteOneCase();
        case INSERTONE => retry, e, d := InsertOneCase();
        case ASCIINUM => retry, e, d := AsciiNumCase();
        case INSERTASCIINUM => retry, e, d := InsertAsciiNumCase();
      }
    }

    /** The switch. */
    method Dispatch(m: Mutation) returns (retry: bool, ghost e: seq<Edit>, ghost d: seq<Drawn>)
      requires Valid()
      modifies this`len, buf, tmp, rng
      ensures Valid() && rng.Asked(d)
      ensures !rng.dry ==> Did(retry, e, d) && Outcome(c, m, old(Content()), d, retry, e)
    {
      hide rng.Honest, Outcome, Apply, ValidFor;
      retry := false;
      if InOneByte(m) {
        e, d := DispatchByte(m);
      } else if InOneWord(m) {
        e, d := DispatchWord(m);
      } else if FromElsewhere(m) {
        retry, e, d := DispatchElsewhere(m);
      } else {
        retry, e, d := DispatchBlock(m);
      }
    }

    /** One step: draw mutations until one does not ask for a retry. */
    method Step(strategy: seq<Mutation>) returns (ghost e: seq<Edit>, ghost d: seq<Drawn>)
      requires Valid() && |strategy| == MUT_STRATEGY_ARRAY_SIZE
      modifies this`len, buf, tmp, rng
      ensures Valid() && rng.Asked(d)
      ensures !rng.dry ==> Did(false, e, d) && StepBy(c, strategy, old(Content()), d, Entry(e))
    {
      hide rng.Honest, Apply, ValidFor, Outcome, Turn, OnlyRetries, StepBy;
      e, d := [], [];
      ghost var before := Content();
      var retry := true;
      NoTurns(strategy, before);
      while retry && !rng.dry
        invariant Valid() && rng.Asked(d)
        invariant retry && !rng.dry ==> Content() == before && OnlyRetries(c, strategy, before, d)
        invariant !rng.dry && !retry ==> Did(false, e, d) && StepBy(c, strategy, before, d, Entry(e))
        decreases |rng.tape|, !rng.dry
      {
        var r := rng.Below(MUT_STRATEGY_ARRAY_SIZE);
        ghost var md;
        retry, e, md := Dispatch(strategy[r]);
        if !rng.dry {
          OneTurn(c, strategy, before, r, md, retry, e);
          if retry { NoMoreTurns(c, strategy, before, d, [Bounded(256, r)] + md); }
          else { StepEnds(c, strategy, before, d, [Bounded(256, r)] + md, e); }
        }
        d := d + ([Bounded(256, r)] + md);
      }
    }

    lemma NoTurns(strategy: seq<Mutation>, b: Bytes)
      ensures OnlyRetries(c, strategy, b, [])
    {
    }

    lemma NoSteps(strategy: seq<Mutation>, b: Bytes)
      ensures ValidScript([], b, c.maxLen) && RunBy(c, strategy, b, [], [])
    {
    }

    /** afl_mutate: a run that is not cut short carries out a valid script with one entry for each
        step, and both the script and what it asks for are the ones that the answers drawn from the tape
        stand for.  It ends with between 1 and maxLen bytes. */
    method Mutate(steps: nat, strategy: seq<Mutation>) returns (n: nat, ghost script: seq<Edit>, ghost d: seq<Drawn>)
      requires len == 0 || Valid()
      requires |strategy| == MUT_STRATEGY_ARRAY_SIZE
      modifies this`len, buf, tmp, rng
      ensures n == len && (old(len) == 0 ==> n == 0 && buf[..] == old(buf[..]))
      ensures old(len) > 0 ==> 1 <= n <= c.maxLen && Valid()
      ensures old(len) > 0 && !rng.dry ==> |script| == steps
      ensures old(len) > 0 && !rng.dry ==> ValidScript(script, old(Content()), c.maxLen) && Content() == Run(script, old(Content()), c.maxLen)
      ensures old(len) > 0 && !rng.dry ==> RunBy(c, strategy, old(Content()), d, script)
      ensures rng.Asked(d)
    {
      hide rng.Honest, ValidFor, Apply, StepBy, RunBy;
      script, d := [], [];
      if len == 0 { return 0, script, d; }
      ghost var start := Content();
      var step := 0;
      NoSteps(strategy, start);
      while step < steps
        invariant Valid() && step <= steps && rng.Asked(d)
        invariant !rng.dry ==> |script| == step
        invariant !rng.dry ==> ValidScript(script, start, c.maxLen) && Content() == Run(script, start, c.maxLen)
        invariant !rng.dry ==> RunBy(c, strategy, start, d, script)
      {
        ghost var before := Content();
        ghost var e, sd := Step(strategy);
        if !rng.dry {
          NothingApplies(before);
          RunSnoc(script, start, c.maxLen, Entry(e));
          RunBySnoc(c, strategy, start, d, script, sd, Entry(e));
          script := script + [Entry(e)];
        }
        d := d + sd;
        step := step + 1;
      }
      n := len;
    }

    lemma NothingApplies(b: Bytes)
      ensures ValidFor(Nothing, |b|, c.maxLen) && Apply(Nothing, b, c.maxLen) == b
    {
    }
  }

  lemma OneNum()
    ensures Num(1) == 1
  {
    NumEnds();
    NumStep(0);
    hide Num;
  }
}
