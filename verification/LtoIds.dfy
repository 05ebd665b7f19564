/** How the LTO pass numbers what it instruments: a counting walk and an emitting walk over each
    function have to agree, and functions called from several places get their range of ids once
    for every caller. */
module LtoIds {
  import opened LittleEndian

  /** The type of a select's condition: an integer, a vector of n + 1 lanes or something else. */
  datatype Condition = Scalar | Vector(moreLanes: nat) | Unhandled

  /** Interesting is a C call to __afl_coverage_interesting. */
  datatype Instr = Interesting | Select(cond: Condition) | Plain

  /** wanted: shouldInstrumentBlock; listed: the block is in BlockList and skipped. */
  datatype Block = Block(code: seq<Instr>, wanted: bool, listed: bool)

  /** callers: the call counter once the caller depth has been followed. */
  datatype Func = Func(blocks: seq<Block>, callers: nat)

  /** An emitted id; the context offset is added to it at run time when offset is set. */
  datatype Id = Id(base: nat, offset: bool)

  // ---- how many ids a piece of code takes ------------------------------------------------------

  function SitesIn(x: Instr): nat {
    match x
    case Interesting => 1
    case Select(Scalar) => 2
    case Select(Vector(more)) => 2 + 2 * more
    case _ => 0
  }

  function Sites(code: seq<Instr>): nat {
    if code == [] then 0 else SitesIn(code[0]) + Sites(code[1..])
  }

  function CodeSites(blocks: seq<Block>): nat {
    if blocks == [] then 0 else CodeSites(blocks[..|blocks| - 1]) + Sites(blocks[|blocks| - 1].code)
  }

  function Injected(blocks: seq<Block>): nat {
    if blocks == [] then 0
    else Injected(blocks[..|blocks| - 1]) + if blocks[|blocks| - 1].wanted && !blocks[|blocks| - 1].listed then 1 else 0
  }

  /** What one instruction is given: consecutive ids; only the first lane pair of a vector takes the
      context offset. */
  function IdsFor(x: Instr, from: nat, ctx: bool): (ids: seq<Id>)
    ensures |ids| == SitesIn(x)
    ensures forall j :: 0 <= j < |ids| ==> ids[j].base == from + j + 1
    ensures forall j :: 0 <= j < |ids| ==> (ids[j].offset <==> ctx && j < 2)
  {
    seq(SitesIn(x), j requires 0 <= j => Id(from + j + 1, ctx && j < 2))
  }

  /** One lane of the vector of ids that a select chooses from. */
  datatype Lane = Poison | Lane(id: Id)

  /** The vector of the true side (side 0) or the false side (side 1) as it is built: every lane is
      inserted into a new vector, so all but the last are lost. */
  function Lanes(cond: Condition, from: nat, ctx: bool, side: nat): seq<Lane> {
    match cond
    case Scalar => [Lane(Id(from + side + 1, ctx))]
    case Vector(more) =>
      seq(more + 1, i requires 0 <= i => if i == more then Lane(Id(from + 2 * more + side + 1, ctx && more == 0)) else Poison)
    case Unhandled => []
  }

  /** CreateInsertElement on the vector type: a new vector with one lane set. */
  function InsertElement(elements: nat, id: Id, at: nat): seq<Lane> {
    seq(elements, i => if i == at then Lane(id) else Poison)
  }

  /** The first n pairs of ids of a select. */
  function PairIds(n: nat, from: nat, ctx: bool): (ids: seq<Id>)
    ensures |ids| == 2 * n
  {
    seq(2 * n, j requires 0 <= j => Id(from + j + 1, ctx && j < 2))
  }

  lemma FirstPair(from: nat, ctx: bool)
    ensures PairIds(1, from, ctx) == [Id(from + 1, ctx), Id(from + 2, ctx)]
  {
  }

  lemma MorePairs(i: nat, from: nat, ctx: bool)
    requires i >= 1
    ensures PairIds(i + 1, from, ctx) == PairIds(i, from, ctx) + [Id(from + 2 * i + 1, false), Id(from + 2 * i + 2, false)]
  {
  }

  lemma ScalarIds(from: nat, ctx: bool)
    ensures PairIds(1, from, ctx) == IdsFor(Select(Scalar), from, ctx)
    ensures Lanes(Scalar, from, ctx, 0) == [Lane(Id(from + 1, ctx))] && Lanes(Scalar, from, ctx, 1) == [Lane(Id(from + 2, ctx))]
  {
  }

  lemma VectorIds(more: nat, from: nat, ctx: bool)
    ensures PairIds(more + 1, from, ctx) == IdsFor(Select(Vector(more)), from, ctx)
    ensures InsertElement(more + 1, Id(from + 2 * more + 1, ctx && more == 0), more) == Lanes(Vector(more), from, ctx, 0)
    ensures InsertElement(more + 1, Id(from + 2 * more + 2, ctx && more == 0), more) == Lanes(Vector(more), from, ctx, 1)
  {
  }

  /** The ids allocated for a select all reach it, with the context offset of the function, exactly
      when its condition has one lane. */
  lemma LanesArrive(cond: Condition, from: nat, ctx: bool, side: nat)
    requires !cond.Unhandled?
    ensures (forall i :: 0 <= i < |Lanes(cond, from, ctx, side)| ==>
              Lanes(cond, from, ctx, side)[i] == Lane(Id(from + 2 * i + side + 1, ctx)))
      <==> (cond.Vector? ==> cond.moreLanes == 0)
  {
    if cond.Vector? && cond.moreLanes > 0 { assert Lanes(cond, from, ctx, side)[0] == Poison; }
  }

  function CodeIds(code: seq<Instr>, from: nat, ctx: bool): seq<Id> {
    if code == [] then [] else IdsFor(code[0], from, ctx) + CodeIds(code[1..], from + SitesIn(code[0]), ctx)
  }

  /** The ids of the instructions of all blocks. */
  function BlocksIds(blocks: seq<Block>, from: nat, ctx: bool): seq<Id> {
    if blocks == [] then []
    else
      var ids := BlocksIds(blocks[..|blocks| - 1], from, ctx);
      ids + CodeIds(blocks[|blocks| - 1].code, from + |ids|, ctx)
  }

  lemma BlocksIdsNext(blocks: seq<Block>, i: nat, from: nat, ctx: bool)
    requires i < |blocks|
    ensures BlocksIds(blocks[..i + 1], from, ctx)
         == BlocksIds(blocks[..i], from, ctx) + CodeIds(blocks[i].code, from + |BlocksIds(blocks[..i], from, ctx)|, ctx)
  {
    hide CodeIds;
    assert blocks[..i + 1][..i] == blocks[..i];
  }

  lemma NoBlocksIds(blocks: seq<Block>, from: nat, ctx: bool)
    ensures BlocksIds(blocks[..0], from, ctx) == [] && blocks[..|blocks|] == blocks
  {
  }

  /** n ids of blocks. */
  function PlainIds(n: nat, from: nat, ctx: bool): (ids: seq<Id>)
    ensures |ids| == n
  {
    seq(n, j requires 0 <= j => Id(from + j + 1, ctx))
  }

  /** Numbered one after the other from from + 1 on. */
  predicate Consecutive(ids: seq<Id>, from: nat) {
    forall j :: 0 <= j < |ids| ==> ids[j].base == from + j + 1
  }

  predicate NoOffset(ids: seq<Id>) {
    forall j :: 0 <= j < |ids| ==> !ids[j].offset
  }

  lemma {:induction false} CodeIdsConsecutive(code: seq<Instr>, from: nat, ctx: bool)
    ensures |CodeIds(code, from, ctx)| == Sites(code) && Consecutive(CodeIds(code, from, ctx), from)
    ensures !ctx ==> NoOffset(CodeIds(code, from, ctx))
  {
    if code != [] {
      CodeIdsConsecutive(code[1..], from + SitesIn(code[0]), ctx);
    }
  }

  lemma {:induction false} BlocksIdsConsecutive(blocks: seq<Block>, from: nat, ctx: bool)
    ensures |BlocksIds(blocks, from, ctx)| == CodeSites(blocks) && Consecutive(BlocksIds(blocks, from, ctx), from)
    ensures !ctx ==> NoOffset(BlocksIds(blocks, from, ctx))
  {
    hide CodeIds, Sites;
    if blocks != [] {
      var front, last := blocks[..|blocks| - 1], blocks[|blocks| - 1];
      BlocksIdsConsecutive(front, from, ctx);
      CodeIdsConsecutive(last.code, from + |BlocksIds(front, from, ctx)|, ctx);
    }
  }

  /** The ids of the code from instruction j on. */
  function IdsLeft(code: seq<Instr>, j: nat, from: nat, ctx: bool): seq<Id>
    requires j <= |code|
  {
    CodeIds(code[j..], from, ctx)
  }

  function SitesLeft(code: seq<Instr>, j: nat): nat
    requires j <= |code|
  {
    Sites(code[j..])
  }

  lemma CodeIdsStep(code: seq<Instr>, j: nat, from: nat, ctx: bool)
    requires j < |code|
    ensures SitesLeft(code, j) == SitesIn(code[j]) + SitesLeft(code, j + 1)
    ensures IdsLeft(code, j, from, ctx) == IdsFor(code[j], from, ctx) + IdsLeft(code, j + 1, from + SitesIn(code[j]), ctx)
  {
    assert code[j..][1..] == code[j + 1..];
  }

  /** The code with the added select of the ids behind each select that is numbered. */
  function Rewritten(code: seq<Instr>): (r: seq<Instr>)
    ensures |r| >= |code|
  {
    if code == [] then [] else Rewritten(code[..|code| - 1]) + Doubled(code[|code| - 1])
  }

  function Doubled(x: Instr): seq<Instr> {
    if x.Select? && !x.cond.Unhandled? then [x, x] else [x]
  }

  lemma Regroup<T>(a: seq<T>, b: seq<T>, c: seq<T>)
    ensures (a + b) + c == a + (b + c)
  {
  }

  function InsertAfter<T>(s: seq<T>, i: nat, x: T): seq<T>
    requires i < |s|
  {
    s[..i + 1] + [x] + s[i + 1..]
  }

  /** The code when the first j instructions have been rewritten, and how long they are now. */
  function HalfWay(code: seq<Instr>, j: nat): seq<Instr>
    requires j <= |code|
  {
    Rewritten(code[..j]) + code[j..]
  }

  function LengthTo(code: seq<Instr>, j: nat): nat
    requires j <= |code|
  {
    |Rewritten(code[..j])|
  }

  lemma Advance(code: seq<Instr>, j: nat)
    requires j < |code|
    ensures LengthTo(code, j) < |HalfWay(code, j)| && HalfWay(code, j)[LengthTo(code, j)] == code[j]
    ensures LengthTo(code, j + 1) == LengthTo(code, j) + |Doubled(code[j])|
    ensures HalfWay(code, j + 1)
         == if |Doubled(code[j])| == 2 then InsertAfter(HalfWay(code, j), LengthTo(code, j), code[j]) else HalfWay(code, j)
  {
    assert code[..j + 1][..j] == code[..j];
    assert code[j..] == [code[j]] + code[j + 1..];
  }

  lemma NothingYet(code: seq<Instr>, from: nat, ctx: bool)
    ensures HalfWay(code, 0) == code && LengthTo(code, 0) == 0
    ensures IdsLeft(code, 0, from, ctx) == CodeIds(code, from, ctx) && SitesLeft(code, 0) == Sites(code)
  {
  }

  lemma NothingLeft(code: seq<Instr>, from: nat, ctx: bool, j: nat)
    requires j <= |code|
    ensures |HalfWay(code, j)| == LengthTo(code, j) + |code| - j
    ensures j == |code| ==> HalfWay(code, j) == Rewritten(code)
    ensures j == |code| ==> SitesLeft(code, j) == 0 && IdsLeft(code, j, from, ctx) == []
  {
    if j == |code| { assert code[..j] == code; }
  }

  lemma NotNumbered(x: Instr, from: nat, ctx: bool)
    requires x.Plain? || (x.Select? && x.cond.Unhandled?)
    ensures SitesIn(x) == 0 && IdsFor(x, from, ctx) == []
  {
  }

  // ---- the pass -----------------------------------------------------------------------------------

  /** One instrumented function: its first id less one, how many contexts and ids it has. */
  datatype Region = Region(start: nat, contexts: nat, ids: seq<Id>)

  /** The map entry that an allocated id stands for in context c. */
  function Value(r: Region, j: nat, c: nat): nat
    requires j < |r.ids|
  {
    r.ids[j].base + if r.ids[j].offset then |r.ids| * c else 0
  }

  predicate RegionOk(r: Region) {
    r.contexts >= 1 && Consecutive(r.ids, r.start) && (r.contexts == 1 ==> NoOffset(r.ids))
  }

  function End(r: Region): nat { r.start + |r.ids| * r.contexts }

  class Pass {
    var globalId: nat
    var inst: nat
    var ctxAdd: bool         // whether a context offset is added in the current function
    const instrumentCtx: bool
    const tracePCGuard: bool

    constructor (startId: nat, instrumentCtx: bool, tracePCGuard: bool)
      ensures globalId == (if startId < 4 then 4 else startId) && inst == 0 && !ctxAdd
      ensures this.instrumentCtx == instrumentCtx && this.tracePCGuard == tracePCGuard
    {
      globalId := if startId < 4 then 4 else startId;
      inst, ctxAdd := 0, false;
      this.instrumentCtx, this.tracePCGuard := instrumentCtx, tracePCGuard;
    }

    /** The counting walk over a block's instructions. */
    method CountCode(code: seq<Instr>)
      modifies this`inst
      ensures inst == old(inst) + Sites(code)
    {
      var i := 0;
      while i < |code|
        invariant 0 <= i <= |code| && inst + Sites(code[i..]) == old(inst) + Sites(code)
      {
        match code[i] {
          case Interesting => inst := inst + 1;
          case Select(Scalar) => inst := inst + 2;
          case Select(Vector(more)) => inst := inst + (more + 1) * 2;
          case _ =>
        }
        i := i + 1;
      }
    }

    /** The ids of one select, and the two vectors it chooses from. */
    method EmitSelect(cond: Condition) returns (ids: seq<Id>, x: seq<Lane>, y: seq<Lane>)
      requires !cond.Unhandled?
      ensures x == Lanes(cond, old(globalId), ctxAdd, 0) && y == Lanes(cond, old(globalId), ctxAdd, 1)
      modifies this`globalId, this`inst
      ensures ids == IdsFor(Select(cond), old(globalId), ctxAdd)
      ensures globalId == old(globalId) + |ids| && inst == old(inst) + |ids|
    {
      hide IdsFor, Lanes, PairIds, InsertElement;
      FirstPair(globalId, ctxAdd);
      ids := [Id(globalId + 1, ctxAdd), Id(globalId + 2, ctxAdd)];
      x, y := [Lane(ids[0])], [Lane(ids[1])];
      globalId := globalId + 2;
      if cond.Scalar? {
        inst := inst + 2;
        ScalarIds(old(globalId), ctxAdd);
      } else {
        var elements := cond.moreLanes + 1;
        x, y := InsertElement(elements, ids[0], 0), InsertElement(elements, ids[1], 0);
        inst := inst + elements * 2;
        var i := 1;
        while i < elements
          invariant 1 <= i <= elements && globalId == old(globalId) + 2 * i && inst == old(inst) + elements * 2
          invariant ids == PairIds(i, old(globalId), ctxAdd)
          invariant x == InsertElement(elements, Id(old(globalId) + 2 * i - 1, ctxAdd && i == 1), i - 1)
          invariant y == InsertElement(elements, Id(old(globalId) + 2 * i, ctxAdd && i == 1), i - 1)
        {
          MorePairs(i, old(globalId), ctxAdd);
          var val1, val2 := Id(globalId + 1, false), Id(globalId + 2, false);
          globalId := globalId + 2;
          ids := ids + [val1, val2];
          x, y := InsertElement(elements, val1, i), InsertElement(elements, val2, i);
          i := i + 1;
        }
        VectorIds(cond.moreLanes, old(globalId), ctxAdd);
      }
    }

    /** The emitting walk.  Each numbered select gets a new select of the ids right behind it, which
        the walk meets next and must not number again. */
    method EmitCode(original: seq<Instr>) returns (code: seq<Instr>, ids: seq<Id>)
      modifies this`globalId, this`inst
      ensures code == Rewritten(original) && ids == CodeIds(original, old(globalId), ctxAdd)
      ensures globalId == old(globalId) + Sites(original) && inst == old(inst) + Sites(original)
    {
      hide CodeIds, Sites, IdsLeft, SitesLeft, IdsFor, SitesIn, Rewritten, InsertAfter, HalfWay, LengthTo, Doubled;
      NothingYet(original, globalId, ctxAdd);
      code, ids := original, [];
      var i, skipNext := 0, false;
      ghost var j := 0;   // how many of the original instructions are behind
      while i < |code|
        invariant 0 <= j <= |original| && code == HalfWay(original, j)
        invariant 0 <= i == LengthTo(original, j) - if skipNext then 1 else 0
        invariant globalId + SitesLeft(original, j) == old(globalId) + Sites(original)
        invariant inst + SitesLeft(original, j) == old(inst) + Sites(original)
        invariant ids + IdsLeft(original, j, globalId, ctxAdd) == CodeIds(original, old(globalId), ctxAdd)
        decreases |original| - j, skipNext
      {
        NothingLeft(original, globalId, ctxAdd, j);
        if skipNext {
          skipNext := false;
        } else {
          Advance(original, j);
          CodeIdsStep(original, j, globalId, ctxAdd);
          var x := code[i];
          var more: seq<Id>;
          more, skipNext := EmitOne(x);
          if skipNext { code := InsertAfter(code, i, x); }
          Regroup(ids, more, IdsLeft(original, j + 1, globalId, ctxAdd));
          ids := ids + more;
          j := j + 1;
        }
        i := i + 1;
      }
      NothingLeft(original, globalId, ctxAdd, j);
    }

    /** One instruction; numbered says whether a select of the ids is added behind it. */
    method EmitOne(x: Instr) returns (ids: seq<Id>, numbered: bool)
      modifies this`globalId, this`inst
      ensures ids == IdsFor(x, old(globalId), ctxAdd) && |ids| == SitesIn(x)
      ensures globalId == old(globalId) + |ids| && inst == old(inst) + |ids|
      ensures |Doubled(x)| == if numbered then 2 else 1
    {
      hide IdsFor;
      ids, numbered := [], false;
      if x == Interesting {
        ids := EmitInteresting();
      } else if x.Select? && !x.cond.Unhandled? {
        var trues, falses;
        ids, trues, falses := EmitSelect(x.cond);
        numbered := true;
      } else {
        NotNumbered(x, globalId, ctxAdd);
      }
    }

    method EmitInteresting() returns (ids: seq<Id>)
      modifies this`globalId, this`inst
      ensures ids == IdsFor(Interesting, old(globalId), ctxAdd)
      ensures globalId == old(globalId) + |ids| && inst == old(inst) + |ids|
    {
      globalId, inst := globalId + 1, inst + 1;
      ids := [Id(globalId, ctxAdd)];
    }

    /** Fake_InjectCoverage. */
    method CountBlocks(blocks: seq<Block>)
      modifies this`inst
      ensures inst == old(inst) + Injected(blocks)
    {
      for i := 0 to |blocks|
        invariant inst == old(inst) + Injected(blocks[..i])
      {
        assert blocks[..i + 1][..i] == blocks[..i];
        if blocks[i].wanted && !blocks[i].listed { inst := inst + 1; }
      }
      assert blocks[..|blocks|] == blocks;
    }

    /** InjectCoverage, calling InjectCoverageAtBlock. */
    method InjectCoverage(blocks: seq<Block>) returns (ids: seq<Id>)
      modifies this`globalId, this`inst
      ensures ids == PlainIds(if tracePCGuard then Injected(blocks) else 0, old(globalId), ctxAdd)
      ensures globalId == old(globalId) + |ids|
    {
      ids := [];
      for i := 0 to |blocks|
        invariant ids == PlainIds(if tracePCGuard then Injected(blocks[..i]) else 0, old(globalId), ctxAdd)
        invariant globalId == old(globalId) + |ids|
      {
        assert blocks[..i + 1][..i] == blocks[..i];
        if blocks[i].wanted && !blocks[i].listed && tracePCGuard {
          globalId, inst := globalId + 1, inst + 1;
          ids := ids + [Id(globalId, ctxAdd)];
        }
      }
      assert blocks[..|blocks|] == blocks;
    }

    /** The counting pass of a function that is called from several places: how many ids it will
        take.  The instruction counter is put back afterwards. */
    method CountFunction(f: Func) returns (n: nat)
      modifies this`inst
      ensures n == CodeSites(f.blocks) + Injected(f.blocks) && inst == old(inst)
    {
      var instSave := inst;
      for i := 0 to |f.blocks|
        invariant inst == instSave + CodeSites(f.blocks[..i])
      {
        assert f.blocks[..i + 1][..i] == f.blocks[..i];
        CountCode(f.blocks[i].code);
      }
      assert f.blocks[..|f.blocks|] == f.blocks;
      CountBlocks(f.blocks);
      n := inst - instSave;
      inst := instSave;
    }

    /** The emitting pass over the instructions of all blocks. */
    method EmitFunction(f: Func) returns (ids: seq<Id>)
      modifies this`globalId, this`inst
      ensures ids == BlocksIds(f.blocks, old(globalId), ctxAdd) && globalId == old(globalId) + |ids|
    {
      hide CodeIds, Sites, BlocksIds, Rewritten;
      NoBlocksIds(f.blocks, globalId, ctxAdd);
      ids := [];
      for i := 0 to |f.blocks|
        invariant ids == BlocksIds(f.blocks[..i], old(globalId), ctxAdd) && globalId == old(globalId) + |ids|
      {
        BlocksIdsNext(f.blocks, i, old(globalId), ctxAdd);
        var code, more := EmitCode(f.blocks[i].code);
        CodeIdsConsecutive(f.blocks[i].code, old(globalId) + |ids|, ctxAdd);
        ids := ids + more;
      }
      assert f.blocks[..|f.blocks|] == f.blocks;
    }

    /** With contexts and several callers, the counting pass; it also collects the blocks. */
    method PrepareContexts(f: Func) returns (instInThisFunc: nat, toInstrument: seq<Block>)
      modifies this`inst, this`ctxAdd
      ensures ctxAdd == UsesContexts(f, instrumentCtx)
      ensures instInThisFunc == if ctxAdd then CodeSites(f.blocks) + Injected(f.blocks) else 0
      ensures toInstrument == if instrumentCtx && f.callers <= 1 then [] else f.blocks
    {
      hide CodeSites, Injected;
      instInThisFunc := 0;
      toInstrument := if instrumentCtx then [] else f.blocks;
      ctxAdd := false;
      if instrumentCtx && f.callers > 1 {
        var n := CountFunction(f);
        toInstrument := f.blocks;
        if n > 1 {
          instInThisFunc := n;
          ctxAdd := true;
        }
      }
    }

    /** The emitting pass. */
    method EmitAll(f: Func, toInstrument: seq<Block>) returns (ids: seq<Id>)
      requires ctxAdd == UsesContexts(f, instrumentCtx)
      requires toInstrument == if instrumentCtx && f.callers <= 1 then [] else f.blocks
      modifies this`globalId, this`inst
      ensures ids == ExpectedIds(f, old(globalId), instrumentCtx, tracePCGuard) && globalId == old(globalId) + |ids|
    {
      hide CodeSites, Injected, BlocksIds, PlainIds;
      NoneInjected();
      ids := EmitFunction(f);
      var blockIds := InjectCoverage(toInstrument);
      ids := ids + blockIds;
    }

    /** instrumentFunction.  bug is set where the source reports that the two passes disagree and
        stops.  With contexts, the blocks to instrument are collected by the counting pass alone, so
        a function with at most one caller gets no block ids. */
    method InstrumentFunction(f: Func) returns (bug: bool, r: Region)
      requires f.callers != 1
      modifies this
      ensures r.start == old(globalId) && RegionOk(r)
      ensures Describes(r, f, instrumentCtx, tracePCGuard)
      ensures bug <==> Disagrees(f, instrumentCtx, tracePCGuard)
      ensures !bug ==> globalId == End(r)
    {
      hide ExpectedIds, RegionOk, CodeSites, Injected;
      var saveGlobal := globalId;
      var instInThisFunc, toInstrument := PrepareContexts(f);
      var ids := EmitAll(f, toInstrument);
      ExpectedOk(f, saveGlobal, instrumentCtx, tracePCGuard);
      bug := false;
      r := Region(saveGlobal, if instInThisFunc > 0 then f.callers else 1, ids);
      if instInThisFunc > 0 && f.callers > 1 {
        if instInThisFunc != globalId - saveGlobal { return true, r; }
        OnceMore(|ids|, f.callers);
        globalId := globalId + instInThisFunc * (f.callers - 1);
      }
    }

    /** All functions of the module, up to the first disagreement. */
    method InstrumentModule(fs: seq<Func>) returns (bug: bool, regions: seq<Region>)
      requires forall i :: 0 <= i < |fs| ==> fs[i].callers != 1
      modifies this
      ensures bug <==> exists i :: 0 <= i < |fs| && Disagrees(fs[i], instrumentCtx, tracePCGuard)
      ensures !bug ==> |regions| == |fs| && Packed(regions, old(globalId), globalId)
      ensures !bug ==> forall i :: 0 <= i < |fs| ==> Describes(regions[i], fs[i], instrumentCtx, tracePCGuard)
    {
      hide End, RegionOk, Packed, Disagrees, Describes;
      PackedNone(globalId);
      bug, regions := false, [];
      for i := 0 to |fs|
        invariant !bug && |regions| == i && Packed(regions, old(globalId), globalId)
        invariant forall k :: 0 <= k < i ==> !Disagrees(fs[k], instrumentCtx, tracePCGuard)
        invariant forall k :: 0 <= k < i ==> Describes(regions[k], fs[k], instrumentCtx, tracePCGuard)
      {
        var r: Region;
        bug, r := InstrumentFunction(fs[i]);
        if bug {
          assert Disagrees(fs[i], instrumentCtx, tracePCGuard);
          return;
        }
        PackedSnoc(regions, old(globalId), r.start, r);
        regions := regions + [r];
      }
    }
  }

  /** Whether a function's ids depend on the caller: the counting pass found more than one. */
  predicate UsesContexts(f: Func, instrumentCtx: bool) {
    instrumentCtx && f.callers > 1 && CodeSites(f.blocks) + Injected(f.blocks) > 1
  }

  /** The ids of a function: those of its instructions, then those of its blocks. */
  function ExpectedIds(f: Func, from: nat, instrumentCtx: bool, tracePCGuard: bool): seq<Id> {
    var ctx := UsesContexts(f, instrumentCtx);
    var ids := BlocksIds(f.blocks, from, ctx);
    ids + PlainIds(Emitted(f, instrumentCtx, tracePCGuard) - CodeSites(f.blocks), from + |ids|, ctx)
  }

  /** Every wanted block gets an id exactly when blocks are numbered by TracePCGuard and either there
      are no contexts or the function has several callers, or when there is none. */
  lemma AllBlocksNumbered(f: Func, from: nat, instrumentCtx: bool, tracePCGuard: bool)
    ensures |ExpectedIds(f, from, instrumentCtx, tracePCGuard)| == CodeSites(f.blocks) + Injected(f.blocks)
      <==> Injected(f.blocks) == 0 || (tracePCGuard && (!instrumentCtx || f.callers > 1))
  {
    hide CodeSites, Injected, BlocksIds;
    BlocksIdsConsecutive(f.blocks, from, UsesContexts(f, instrumentCtx));
  }

  /** With contexts, the blocks of a function that is called from one place or none are lost. */
  lemma SingleCallerLosesBlocks(from: nat)
    ensures var f := Func([Block([], true, false)], 0);
      Injected(f.blocks) == 1 && ExpectedIds(f, from, true, true) == []
  {
    var b := [Block([], true, false)];
    assert b[..|b| - 1] == [];
    assert Sites(b[0].code) == 0;
    assert CodeSites([]) == 0 && Injected([]) == 0;
    assert CodeSites(b) == 0;
    assert Injected(b) == 1;
    BlocksIdsConsecutive(b, from, false);
    assert BlocksIds(b, from, false) == [];
  }

  /** Without TracePCGuard the pass stops at a function with two blocks and two callers. */
  lemma PassesCanDisagree()
    ensures Disagrees(Func([Block([], true, false), Block([], true, false)], 2), true, false)
  {
    var b := [Block([], true, false), Block([], true, false)];
    assert b[..1] == [Block([], true, false)] && b[..1][..0] == [];
  }

  lemma ExpectedOk(f: Func, from: nat, instrumentCtx: bool, tracePCGuard: bool)
    ensures var ids := ExpectedIds(f, from, instrumentCtx, tracePCGuard);
      && |ids| == Emitted(f, instrumentCtx, tracePCGuard)
      && RegionOk(Region(from, if UsesContexts(f, instrumentCtx) then f.callers else 1, ids))
    ensures Injected([]) == 0
  {
    hide CodeSites, Injected, BlocksIds;
    NoneInjected();
    BlocksIdsConsecutive(f.blocks, from, UsesContexts(f, instrumentCtx));
  }

  lemma NoneInjected()
    ensures Injected([]) == 0
  {
  }

  function Emitted(f: Func, instrumentCtx: bool, tracePCGuard: bool): nat {
    CodeSites(f.blocks) + if tracePCGuard && (!instrumentCtx || f.callers > 1) then Injected(f.blocks) else 0
  }

  /** The counting pass and the emitting pass find different numbers of ids. */
  predicate Disagrees(f: Func, instrumentCtx: bool, tracePCGuard: bool) {
    UsesContexts(f, instrumentCtx) && !tracePCGuard && Injected(f.blocks) > 0
  }

  predicate Describes(r: Region, f: Func, instrumentCtx: bool, tracePCGuard: bool) {
    && r.ids == ExpectedIds(f, r.start, instrumentCtx, tracePCGuard)
    && r.contexts == if UsesContexts(f, instrumentCtx) then f.callers else 1
  }

  /** The blocks that are wanted and not listed, each counted once. */
  lemma {:induction false} InjectedAre(blocks: seq<Block>)
    ensures Injected(blocks) == |set i | 0 <= i < |blocks| && blocks[i].wanted && !blocks[i].listed|
  {
    if blocks != [] {
      var n := |blocks| - 1;
      var front := blocks[..n];
      InjectedAre(front);
      var a := set i | 0 <= i < |front| && front[i].wanted && !front[i].listed;
      var b := set i | 0 <= i < |blocks| && blocks[i].wanted && !blocks[i].listed;
      assert b == a + if blocks[n].wanted && !blocks[n].listed then {n} else {};
    }
  }

  /** The ids of a function are taken once for every caller exactly when contexts are on and it has
      several callers and more than one id; a single id takes one entry whatever the callers. */
  lemma EntriesTaken(r: Region, f: Func, instrumentCtx: bool, tracePCGuard: bool)
    requires Describes(r, f, instrumentCtx, tracePCGuard) && !Disagrees(f, instrumentCtx, tracePCGuard)
    ensures End(r) == r.start + if instrumentCtx && f.callers > 1 && |r.ids| > 1 then |r.ids| * f.callers else |r.ids|
  {
    hide ExpectedIds, RegionOk, CodeSites, Injected;
    ExpectedOk(f, r.start, instrumentCtx, tracePCGuard);
  }

  /** The ids of instruction k follow those of the instructions before it. */
  lemma {:induction false} CodeIdAt(code: seq<Instr>, from: nat, ctx: bool, k: nat, j: nat)
    requires k < |code| && j < SitesIn(code[k])
    ensures Sites(code[..k]) + j < |CodeIds(code, from, ctx)|
    ensures CodeIds(code, from, ctx)[Sites(code[..k]) + j] == Id(from + Sites(code[..k]) + j + 1, ctx && j < 2)
    decreases k
  {
    if k > 0 {
      assert code[..k][1..] == code[1..][..k - 1];
      CodeIdAt(code[1..], from + SitesIn(code[0]), ctx, k - 1, j);
    } else {
      assert code[..0] == [];
    }
  }

  /** The regions follow each other without gaps. */
  predicate Packed(rs: seq<Region>, from: nat, to: nat) {
    && (forall i :: 0 <= i < |rs| ==> RegionOk(rs[i]))
    && (forall i :: 0 <= i < |rs| ==> rs[i].start == Before(rs, from, i))
    && to == Before(rs, from, |rs|)
  }

  /** The last id taken when i regions are done. */
  function Before(rs: seq<Region>, from: nat, i: nat): nat
    requires i <= |rs|
  {
    if i == 0 then from else End(rs[i - 1])
  }

  // ---- no two ids share a map entry ----------------------------------------------------------------

  lemma OnceMore(n: nat, callers: nat)
    ensures n * callers == n + n * (callers - 1)
  {
  }

  lemma PackedNone(from: nat)
    ensures Packed([], from, from)
  {
  }

  lemma PackedSnoc(rs: seq<Region>, from: nat, to: nat, r: Region)
    requires Packed(rs, from, to) && RegionOk(r) && r.start == to
    ensures Packed(rs + [r], from, End(r))
  {
    hide End, RegionOk;
    forall i | 0 <= i < |rs|
      ensures (rs + [r])[i].start == Before(rs + [r], from, i)
    {
      assert rs[i].start == Before(rs, from, i);
    }
  }

  lemma EndAtLeast(r: Region)
    requires r.contexts >= 1
    ensures r.start + |r.ids| <= End(r)
  {
    MulMonotone(|r.ids|, 1, r.contexts);
  }

  lemma {:induction false} LaterStarts(rs: seq<Region>, from: nat, to: nat, a: nat, b: nat)
    requires Packed(rs, from, to) && a < b <= |rs|
    ensures End(rs[a]) <= if b < |rs| then rs[b].start else to
    decreases b
  {
    hide End;
    if a < b - 1 {
      LaterStarts(rs, from, to, a, b - 1);
      EndAtLeast(rs[b - 1]);
    }
  }

  lemma {:induction false} EarlierStarts(rs: seq<Region>, from: nat, to: nat, a: nat)
    requires Packed(rs, from, to) && a < |rs|
    ensures from <= rs[a].start
  {
    hide End;
    if a > 0 {
      EarlierStarts(rs, from, to, a - 1);
      EndAtLeast(rs[a - 1]);
    }
  }

  lemma InRegion(r: Region, j: nat, c: nat)
    requires RegionOk(r) && j < |r.ids| && c < r.contexts
    ensures r.start < Value(r, j, c) <= End(r)
  {
    MulMonotone(|r.ids|, c + 1, r.contexts);
    assert |r.ids| * (c + 1) == |r.ids| * c + |r.ids|;
    MulMonotone(|r.ids|, 0, c);
  }

  lemma SameRegion(r: Region, j: nat, c: nat, k: nat, d: nat)
    requires RegionOk(r) && j < |r.ids| && k < |r.ids| && Value(r, j, c) == Value(r, k, d)
    ensures j == k && (r.ids[j].offset ==> c == d)
  {
    var n := |r.ids|;
    var c', d' := if r.ids[j].offset then c else 0, if r.ids[k].offset then d else 0;
    Above(n, j, k, c', d');
    Above(n, k, j, d', c');
  }

  lemma Above(n: nat, j: nat, k: nat, c: nat, d: nat)
    requires j < n && k < n
    ensures c < d ==> j + n * c < k + n * d
  {
    if c < d {
      MulMonotone(n, c + 1, d);
      assert n * (c + 1) == n * c + n;
    }
  }

  /** Two ids allocated in the module, each in one of its contexts, stand for the same entry exactly
      when they are the same id in the same context; those of the later lanes of a vector select,
      which leave the context out, stand for one entry in all contexts. */
  lemma IdsDoNotCollide(rs: seq<Region>, from: nat, to: nat, a: nat, j: nat, c: nat, b: nat, k: nat, d: nat)
    requires Packed(rs, from, to) && a < |rs| && b < |rs|
    requires j < |rs[a].ids| && c < rs[a].contexts && k < |rs[b].ids| && d < rs[b].contexts
    ensures Value(rs[a], j, c) == Value(rs[b], k, d) <==> a == b && j == k && (rs[a].ids[j].offset ==> c == d)
  {
    InRegion(rs[a], j, c);
    InRegion(rs[b], k, d);
    if a < b {
      LaterStarts(rs, from, to, a, b);
    } else if b < a {
      LaterStarts(rs, from, to, b, a);
    } else if Value(rs[a], j, c) == Value(rs[b], k, d) {
      SameRegion(rs[a], j, c, k, d);
    }
  }

  /** __afl_final_loc. */
  function FinalLoc(globalId: nat): nat { (globalId + 8) / 8 * 8 }

  lemma FinalLocAbove(n: nat)
    ensures n < FinalLoc(n) <= n + 8 && FinalLoc(n) % 8 == 0
  {
  }

  /** Every entry is inside the map, above the ids that are reserved, and the map is a whole number
      of eight-byte words. */
  lemma IdsFitTheMap(rs: seq<Region>, from: nat, to: nat, a: nat, j: nat, c: nat)
    requires Packed(rs, from, to) && a < |rs| && j < |rs[a].ids| && c < rs[a].contexts
    ensures from < Value(rs[a], j, c) <= to < FinalLoc(to) <= to + 8 && FinalLoc(to) % 8 == 0
  {
    hide End, Value, FinalLoc, RegionOk;
    FinalLocAbove(to);
    assert RegionOk(rs[a]);
    InRegion(rs[a], j, c);
    EarlierStarts(rs, from, to, a);
    LaterStarts(rs, from, to, a, |rs|);
  }
}
