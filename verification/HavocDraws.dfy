/** What each mutation of afl_mutate does to an input, as a function of the random numbers it asks for:
    which requests it makes, in which order, and the edit that their answers stand for. */
module HavocDraws {
  import opened RandBelow
  import opened HavocEdits
  import opened HavocEffects
  import S = Sattolo
  import A = AsciiNum

  datatype Mutation =
    | FLIPBIT | INTERESTING8 | INTERESTING16 | INTERESTING16BE | INTERESTING32 | INTERESTING32BE
    | ARITH8_ | ARITH8 | ARITH16_ | ARITH16BE_ | ARITH16 | ARITH16BE
    | ARITH32_ | ARITH32BE_ | ARITH32 | ARITH32BE
    | RAND8 | CLONE_COPY | CLONE_FIXED | OVERWRITE_COPY | OVERWRITE_FIXED
    | BYTEADD | BYTESUB | FLIP8 | SWITCH | DEL | SHUFFLE | DELONE | INSERTONE
    | ASCIINUM | INSERTASCIINUM
    | EXTRA_OVERWRITE | EXTRA_INSERT | AUTO_EXTRA_OVERWRITE | AUTO_EXTRA_INSERT
    | SPLICE_OVERWRITE | SPLICE_INSERT

  /** What afl_mutate is given besides the input. */
  datatype Config = Config(maxLen: nat, queueCycle: nat, runOver10m: bool, interesting8: seq<bv8>,
                           interesting16: seq<nat>, interesting32: seq<nat>, extras: seq<Bytes>,
                           autoExtras: seq<Bytes>, splice: Bytes)

  function Min(a: nat, b: nat): nat { if a < b then a else b }

  // ---- the length of a block ----------------------------------------------------------------------

  /** How many classes of lengths there are. */
  function Classes(c: Config): nat { if c.runOver10m then Min(c.queueCycle, 3) else 1 }

  /** The shortest and the longest length of a class; the last class has two halves. */
  function Shortest(class_: nat, tenth: nat): nat {
    if class_ == 0 then 1 else if class_ == 1 then 32 else if tenth != 0 then 128 else 1500
  }

  function Longest(class_: nat, tenth: nat): nat {
    if class_ == 0 then 32 else if class_ == 1 then 128 else if tenth != 0 then 1500 else 32768
  }

  /** The class, its half, and the place of n between the shortest length, or 1 if that is too long, and
      the longest that the limit allows. */
  predicate LengthBy(c: Config, d: seq<Drawn>, limit: nat, n: nat, class_: nat, tenth: nat) {
    var lo := if Shortest(class_, tenth) >= limit then 1 else Shortest(class_, tenth);
    var hi := Min(Longest(class_, tenth), limit);
    && lo <= n && lo <= hi + 1
    && d == [Bounded(Classes(c), class_)] + (if class_ >= 2 then [Bounded(10, tenth)] else []) + [Bounded(hi + 1 - lo, n - lo)]
  }

  ghost predicate LengthDrawn(c: Config, d: seq<Drawn>, limit: nat, n: nat) {
    exists class_, tenth :: LengthBy(c, d, limit, n, class_, tenth)
  }

  /** Of a block that is shorter than the input. */
  ghost predicate PartLength(c: Config, d: seq<Drawn>, b: Bytes, n: nat) {
    2 <= |b| && LengthDrawn(c, d, |b| - 1, n)
  }

  // ---- single bytes and words ---------------------------------------------------------------------

  predicate Flips(b: Bytes, d: seq<Drawn>, e: Edit) {
    e.FlipBit? && d == [Bounded(8, e.bit), Bounded(|b|, e.off)]
  }

  ghost predicate Puts8(table: seq<bv8>, b: Bytes, d: seq<Drawn>, e: Edit) {
    e.Store? && exists item :: 0 <= item < |table| && e.data == [table[item]] && d == [Bounded(|table|, item), Bounded(|b|, e.off)]
  }

  ghost predicate Puts16(table: seq<nat>, b: Bytes, d: seq<Drawn>, e: Edit, big: bool) {
    e.Store? && |b| >= 2 && |e.data| == 2
    && exists item :: 0 <= item < |table| && Word16(e.data, 0, big) == table[item]
         && d == [Bounded(|table|, item), Bounded(|b| - 1, e.off)]
  }

  ghost predicate Puts32(table: seq<nat>, b: Bytes, d: seq<Drawn>, e: Edit, big: bool) {
    e.Store? && |b| >= 4 && |e.data| == 4
    && exists item :: 0 <= item < |table| && Word32(e.data, 0, big) == table[item]
         && d == [Bounded(|table|, item), Bounded(|b| - 3, e.off)]
  }

  /** By 1 to 35, up or down modulo the word size. */
  predicate Adds8(b: Bytes, d: seq<Drawn>, e: Edit, down: bool) {
    && e.AddByte? && |d| == 2 && d[0].Bounded? && d[0].limit == 35 && d[1] == Bounded(|b|, e.off)
    && d[0].r < 35 && Num(e.delta) == if down then 255 - d[0].r else 1 + d[0].r
  }

  predicate Adds16(b: Bytes, d: seq<Drawn>, e: Edit, down: bool, big: bool) {
    && e.Add16? && |b| >= 2 && e.big == big
    && |d| == 2 && d[0] == Bounded(|b| - 1, e.off) && d[1].Bounded? && d[1].limit == 35
    && d[1].r < 35 && e.delta16 == if down then 0xFFFF - d[1].r else 1 + d[1].r
  }

  predicate Adds32(b: Bytes, d: seq<Drawn>, e: Edit, down: bool, big: bool) {
    && e.Add32? && |b| >= 4 && e.big == big
    && |d| == 2 && d[0] == Bounded(|b| - 3, e.off) && d[1].Bounded? && d[1].limit == 35
    && d[1].r < 35 && e.delta32 == if down then 0xFFFF_FFFF - d[1].r else 1 + d[1].r
  }

  predicate AddsOne(b: Bytes, d: seq<Drawn>, e: Edit, delta: nat) {
    e.AddByte? && Num(e.delta) == delta && d == [Bounded(|b|, e.off)]
  }

  predicate XorsAny(b: Bytes, d: seq<Drawn>, e: Edit) {
    e.XorByte? && Num(e.x) >= 1 && d == [Bounded(|b|, e.off), Bounded(255, Num(e.x) - 1)]
  }

  predicate XorsAll(b: Bytes, d: seq<Drawn>, e: Edit) {
    e.XorByte? && Num(e.x) == 255 && d == [Bounded(|b|, e.off)]
  }

  // ---- blocks -------------------------------------------------------------------------------------

  /** After its length, where a block of src comes from and where it goes. */
  predicate CopiedBy(src: Bytes, d: seq<Drawn>, data: Bytes, off: nat, offLimit: nat, ld: seq<Drawn>, from: nat) {
    && from + |data| <= |src| && data == src[from..from + |data|]
    && d == ld + [Bounded(|src| - |data| + 1, from), Bounded(offLimit, off)]
  }

  /** A block of src whose length is drawn below limit and cut to most. */
  ghost predicate Copied(c: Config, src: Bytes, limit: nat, most: nat, d: seq<Drawn>, data: Bytes, off: nat, offLimit: nat) {
    exists ld, n, from ::
      LengthDrawn(c, ld, limit, n) && |data| == Min(n, most) && CopiedBy(src, d, data, off, offLimit, ld, from)
  }

  lemma CopiedIs(c: Config, src: Bytes, limit: nat, most: nat, d: seq<Drawn>, data: Bytes, off: nat, offLimit: nat,
                 ld: seq<Drawn>, n: nat, from: nat)
    requires LengthDrawn(c, ld, limit, n) && |data| == Min(n, most) && CopiedBy(src, d, data, off, offLimit, ld, from)
    ensures Copied(c, src, limit, most, d, data, off, offLimit)
  {
    hide LengthDrawn, CopiedBy;
  }

  /** The fill byte: a random one or the one in front of the place. */
  predicate FillDrawn(b: Bytes, at: nat, strat: nat, fd: seq<Drawn>, v: bv8) {
    at < |b| && if strat != 0 then fd == [Bounded(256, Num(v))] else fd == [] && v == b[if at > 0 then at - 1 else 0]
  }

  /** The place, then the choice of the fill byte. */
  ghost predicate FilledBy(b: Bytes, d: seq<Drawn>, at: nat, atLimit: nat, v: bv8) {
    exists strat, fd :: FillDrawn(b, at, strat, fd, v) && d == [Bounded(atLimit, at), Bounded(2, strat)] + fd
  }

  ghost predicate ClonesFixed(c: Config, b: Bytes, d: seq<Drawn>, e: Edit) {
    && e.Insert? && |b| + 32768 < c.maxLen && e.data != []
    && (forall i :: 0 <= i < |e.data| ==> e.data[i] == e.data[0])
    && exists ld, fd :: LengthDrawn(c, ld, 32768, |e.data|) && FilledBy(b, fd, e.off, |b|, e.data[0]) && d == ld + fd
  }

  ghost predicate ClonesCopy(c: Config, b: Bytes, d: seq<Drawn>, e: Edit) {
    e.Insert? && |b| + 32768 < c.maxLen && Copied(c, b, |b|, |b|, d, e.data, e.off, |b|)
  }

  ghost predicate OverwritesCopy(c: Config, b: Bytes, d: seq<Drawn>, e: Edit) {
    && e.CopyWithin? && 2 <= |b| && e.n < |b|
    && exists ld :: PartLength(c, ld, b, e.n) && d == ld + [Bounded(|b| - e.n + 1, e.src), Bounded(|b| - e.n + 1, e.dst)]
  }

  ghost predicate OverwritesFixed(c: Config, b: Bytes, d: seq<Drawn>, e: Edit) {
    && e.Fill? && 2 <= |b| && e.n < |b|
    && exists ld, fd :: PartLength(c, ld, b, e.n) && FilledBy(b, fd, e.off, |b| - e.n + 1, e.val) && d == ld + fd
  }

  ghost predicate Deletes(c: Config, b: Bytes, d: seq<Drawn>, e: Edit) {
    && e.Delete? && 2 <= |b| && e.n < |b|
    && exists ld :: PartLength(c, ld, b, e.n) && d == ld + [Bounded(|b| - e.n + 1, e.off)]
  }

  predicate DeletesOne(b: Bytes, d: seq<Drawn>, e: Edit) {
    e.Delete? && 2 <= |b| && e.n == 1 && d == [Bounded(|b|, e.off)]
  }

  ghost predicate InsertsOne(c: Config, b: Bytes, d: seq<Drawn>, e: Edit) {
    e.Insert? && 2 <= |b| < c.maxLen && |e.data| == 1 && FilledBy(b, d, e.off, |b|, e.data[0])
  }

  /** The second place is asked for until it differs from the first. */
  predicate PlacesDrawn(d: seq<Drawn>, n: nat, x: nat, y: nat, k: nat) {
    d == [Bounded(n, x)] + seq(k, _ => Bounded(n, x)) + [Bounded(n, y)]
  }

  /** The length is limited by the distance and by what is behind the later place. */
  function SwitchLimit(n: nat, x: nat, y: nat): nat
    requires x < n && y < n
  {
    if x < y then Min(y - x, n - y) else Min(x - y, n - x)
  }

  ghost predicate Switches(c: Config, b: Bytes, d: seq<Drawn>, e: Edit) {
    && e.SwapBlocks? && 4 <= |b| && e.a < |b| && e.b < |b| && e.a != e.b
    && exists pd, k: nat, ld :: PlacesDrawn(pd, |b|, e.a, e.b, k) && LengthDrawn(c, ld, SwitchLimit(|b|, e.a, e.b), e.n) && d == pd + ld
  }

  /** The partners of all positions but the first, from the last down. */
  ghost predicate ShuffledBy(d: seq<Drawn>, js: seq<nat>) {
    js != [] && js[0] == 0 && S.Partnered(d, js, |js| - 1, 1)
  }

  ghost predicate Shuffles(c: Config, b: Bytes, d: seq<Drawn>, e: Edit) {
    && e.Shuffle? && 4 <= |b| && |e.js| < |b|
    && exists ld, sd ::
         PartLength(c, ld, b, |e.js|) && ShuffledBy(sd, e.js)
         && d == ld + ([Bounded(|b| - |e.js| + 1, e.off)] + sd)
  }

  // ---- numbers ------------------------------------------------------------------------------------

  predicate HasNoDigits(b: Bytes) { A.NoDigits(b, 0, |b|) }

  /** e overwrites exactly the n bytes from off on. */
  predicate SpanOf(e: Edit, off: nat, n: nat) {
    (e.Store? && e.off == off && |e.data| == n) || (e.Replace? && e.off == off && e.n == n && |e.data| != n)
  }

  /** The number found from start on is val, and the strategy makes val' of it. */
  datatype Rewriting = Rewriting(start: nat, off: nat, end: nat, val: int, strat: nat, cd: seq<Drawn>, val': int)

  ghost predicate Rewrites(b: Bytes, d: seq<Drawn>, w: Rewriting) {
    && w.start < |b| && A.FirstCyclic(b, w.start, w.off) && A.NumberAt(b, w.off, w.end, w.val)
    && A.ChangedTo(w.strat, w.val, w.cd, w.val') && Span(w) >= 1
    && d == [Bounded(|b|, w.start), Bounded(8, w.strat)] + w.cd
  }

  /** How many characters are replaced. */
  function Span(w: Rewriting): int { w.end - w.off - if A.Drops(w.strat, w.val) then 1 else 0 }

  /** The printed result stands in place of the number. */
  ghost predicate RewritesNumber(b: Bytes, d: seq<Drawn>, e: Edit) {
    4 <= |b| && (e.Store? || e.Replace?)
    && exists w :: Rewrites(b, d, w) && SpanOf(e, w.off, Span(w)) && e.data == A.NumBuf(w.val')
  }

  /** It does not fit. */
  ghost predicate NoRoomToRewrite(c: Config, b: Bytes, d: seq<Drawn>) {
    4 <= |b| && exists w :: Rewrites(b, d, w) && TooLong(c, b, w)
  }

  predicate TooLong(c: Config, b: Bytes, w: Rewriting) {
    |A.NumBuf(w.val')| != Span(w) && |b| - Span(w) + |A.NumBuf(w.val')| > c.maxLen
  }

  ghost predicate FindsNoNumber(b: Bytes, d: seq<Drawn>) {
    4 <= |b| && HasNoDigits(b) && exists start: nat :: d == [Bounded(|b|, start)]
  }

  /** The last digits of v, as many as asked for or as there are. */
  predicate LastDigits(data: Bytes, v: nat, want: nat) {
    var n := Min(want, |A.Digits(v)|);
    |data| == n && data == A.Digits(v)[|A.Digits(v)| - n..]
  }

  ghost predicate WritesDigits(b: Bytes, d: seq<Drawn>, e: Edit) {
    e.Store? && exists want: nat, v: nat ::
      e.off + (want + 1) <= |b| && LastDigits(e.data, v, want + 1) && d == [Bounded(8, want), Bounded(|b|, e.off), Raw(v)]
  }

  ghost predicate NoRoomForDigits(b: Bytes, d: seq<Drawn>) {
    exists want: nat, pos: nat :: |b| < pos + (want + 1) && d == [Bounded(8, want), Bounded(|b|, pos)]
  }

  // ---- dictionaries and splicing --------------------------------------------------------------------

  ghost predicate OverwritesEntry(dict: seq<Bytes>, b: Bytes, d: seq<Drawn>, e: Edit) {
    && e.Store? && |e.data| <= |b|
    && exists use :: 0 <= use < |dict| && e.data == dict[use] && d == [Bounded(|dict|, use), Bounded(|b| - |e.data| + 1, e.off)]
  }

  ghost predicate InsertsEntry(c: Config, dict: seq<Bytes>, b: Bytes, d: seq<Drawn>, e: Edit) {
    && e.Insert? && |b| + |e.data| <= c.maxLen
    && exists use :: 0 <= use < |dict| && e.data == dict[use] && d == [Bounded(|dict|, use), Bounded(|b| + 1, e.off)]
  }

  /** There is no entry, or one was drawn that has no room. */
  ghost predicate NoEntry(dict: seq<Bytes>, room: int, d: seq<Drawn>) {
    (dict == [] && d == []) || exists use :: 0 <= use < |dict| && |dict[use]| > room && d == [Bounded(|dict|, use)]
  }

  ghost predicate OverwritesSplice(c: Config, b: Bytes, d: seq<Drawn>, e: Edit) {
    e.Store? && c.splice != [] && |e.data| <= |b| && Copied(c, c.splice, |c.splice| - 1, |b|, d, e.data, e.off, |b| - |e.data| + 1)
  }

  ghost predicate InsertsSplice(c: Config, b: Bytes, d: seq<Drawn>, e: Edit) {
    e.Insert? && c.splice != [] && |b| + 32768 <= c.maxLen && Copied(c, c.splice, |c.splice|, |c.splice|, d, e.data, e.off, |b| + 1)
  }

  // ---- all mutations ----------------------------------------------------------------------------------

  /** The edit that the mutation makes of b when it is given the answers d. */
  ghost predicate Fits(c: Config, m: Mutation, b: Bytes, d: seq<Drawn>, e: Edit) {
    match m
    case FLIPBIT => Flips(b, d, e)
    case INTERESTING8 => Puts8(c.interesting8, b, d, e)
    case INTERESTING16 => Puts16(c.interesting16, b, d, e, false)
    case INTERESTING16BE => Puts16(c.interesting16, b, d, e, true)
    case INTERESTING32 => Puts32(c.interesting32, b, d, e, false)
    case INTERESTING32BE => Puts32(c.interesting32, b, d, e, true)
    case ARITH8_ => Adds8(b, d, e, true)
    case ARITH8 => Adds8(b, d, e, false)
    case ARITH16_ => Adds16(b, d, e, true, false)
    case ARITH16BE_ => Adds16(b, d, e, true, true)
    case ARITH16 => Adds16(b, d, e, false, false)
    case ARITH16BE => Adds16(b, d, e, false, true)
    case ARITH32_ => Adds32(b, d, e, true, false)
    case ARITH32BE_ => Adds32(b, d, e, true, true)
    case ARITH32 => Adds32(b, d, e, false, false)
    case ARITH32BE => Adds32(b, d, e, false, false)
    case RAND8 => XorsAny(b, d, e)
    case CLONE_COPY => ClonesCopy(c, b, d, e)
    case CLONE_FIXED => ClonesFixed(c, b, d, e)
    case OVERWRITE_COPY => OverwritesCopy(c, b, d, e)
    case OVERWRITE_FIXED => OverwritesFixed(c, b, d, e)
    case BYTEADD => AddsOne(b, d, e, 1)
    case BYTESUB => AddsOne(b, d, e, 255)
    case FLIP8 => XorsAll(b, d, e)
    case SWITCH => Switches(c, b, d, e)
    case DEL => Deletes(c, b, d, e)
    case SHUFFLE => Shuffles(c, b, d, e)
    case DELONE => DeletesOne(b, d, e)
    case INSERTONE => InsertsOne(c, b, d, e)
    case ASCIINUM => RewritesNumber(b, d, e)
    case INSERTASCIINUM => WritesDigits(b, d, e)
    case EXTRA_OVERWRITE => OverwritesEntry(c.extras, b, d, e)
    case EXTRA_INSERT => InsertsEntry(c, c.extras, b, d, e)
    case AUTO_EXTRA_OVERWRITE => OverwritesEntry(c.autoExtras, b, d, e)
    case AUTO_EXTRA_INSERT => InsertsEntry(c, c.autoExtras, b, d, e)
    case SPLICE_OVERWRITE => OverwritesSplice(c, b, d, e)
    case SPLICE_INSERT => InsertsSplice(c, b, d, e)
  }

  /** When the mutation leaves b as it is. */
  ghost predicate Skips(c: Config, m: Mutation, b: Bytes, d: seq<Drawn>) {
    match m
    case ASCIINUM => (|b| < 4 && d == []) || (|b| < 8 && FindsNoNumber(b, d))
    case INSERTASCIINUM => |b| < 8 && NoRoomForDigits(b, d)
    case CLONE_COPY => d == [] && |b| < 8 && |b| + 32768 >= c.maxLen
    case CLONE_FIXED => d == [] && |b| < 8 && |b| + 32768 >= c.maxLen
    case _ => d == [] && |b| < Needed(m)
  }

  /** The shortest input that the mutation works on. */
  function Needed(m: Mutation): nat {
    match m
    case INTERESTING16 => 2 case INTERESTING16BE => 2 case INTERESTING32 => 4 case INTERESTING32BE => 4
    case ARITH16_ => 2 case ARITH16BE_ => 2 case ARITH16 => 2 case ARITH16BE => 2
    case ARITH32_ => 4 case ARITH32BE_ => 4 case ARITH32 => 4 case ARITH32BE => 4
    case OVERWRITE_COPY => 2 case OVERWRITE_FIXED => 2
    case SWITCH => 4 case DEL => 2 case SHUFFLE => 4 case DELONE => 2 case INSERTONE => 2
    case _ => 0
  }

  /** When it asks for another mutation instead. */
  ghost predicate Retries(c: Config, m: Mutation, b: Bytes, d: seq<Drawn>) {
    match m
    case CLONE_COPY => d == [] && |b| >= 8 && |b| + 32768 >= c.maxLen
    case CLONE_FIXED => d == [] && |b| >= 8 && |b| + 32768 >= c.maxLen
    case INSERTONE => d == [] && 2 <= |b| == c.maxLen
    case ASCIINUM => (|b| >= 8 && FindsNoNumber(b, d)) || NoRoomToRewrite(c, b, d)
    case INSERTASCIINUM => |b| >= 8 && NoRoomForDigits(b, d)
    case EXTRA_OVERWRITE => NoEntry(c.extras, |b|, d)
    case EXTRA_INSERT => NoEntry(c.extras, c.maxLen - |b|, d)
    case AUTO_EXTRA_OVERWRITE => NoEntry(c.autoExtras, |b|, d)
    case AUTO_EXTRA_INSERT => NoEntry(c.autoExtras, c.maxLen - |b|, d)
    case SPLICE_OVERWRITE => d == [] && c.splice == []
    case SPLICE_INSERT => d == [] && (c.splice == [] || |b| + 32768 > c.maxLen)
    case _ => false
  }

  /** What comes of a mutation: another one, nothing, or an edit. */
  ghost predicate Outcome(c: Config, m: Mutation, b: Bytes, d: seq<Drawn>, retry: bool, e: seq<Edit>) {
    if retry then e == [] && Retries(c, m, b, d)
    else if e == [] then Skips(c, m, b, d)
    else |e| == 1 && Fits(c, m, b, d, e[0])
  }

  // ---- steps and runs ---------------------------------------------------------------------------------

  function Entry(e: seq<Edit>): Edit { if e == [] then Nothing else e[0] }

  /** One turn: a mutation of the table is drawn and does this. */
  ghost predicate Turn(c: Config, strategy: seq<Mutation>, b: Bytes, d: seq<Drawn>, retry: bool, e: seq<Edit>) {
    exists r, md :: 0 <= r < |strategy| && Outcome(c, strategy[r], b, md, retry, e) && d == [Bounded(256, r)] + md
  }

  /** Turns that each asked for another one. */
  ghost predicate OnlyRetries(c: Config, strategy: seq<Mutation>, b: Bytes, d: seq<Drawn>)
    decreases |d|
  {
    d == [] || exists front, last :: d == front + last && |front| < |d| && OnlyRetries(c, strategy, b, front) && Turn(c, strategy, b, last, true, [])
  }

  /** A step: turns until one does not ask for another. */
  ghost predicate StepBy(c: Config, strategy: seq<Mutation>, b: Bytes, d: seq<Drawn>, e: Edit) {
    exists front, last, es ::
      OnlyRetries(c, strategy, b, front) && Turn(c, strategy, b, last, false, es) && d == front + last && e == Entry(es)
  }

  /** A whole run: each entry of the script is what its share of the answers makes of the bytes it meets. */
  ghost predicate RunBy(c: Config, strategy: seq<Mutation>, b: Bytes, d: seq<Drawn>, script: seq<Edit>)
    requires ValidScript(script, b, c.maxLen)
    decreases |script|
  {
    if script == [] then d == []
    else exists first, rest ::
      d == first + rest && StepBy(c, strategy, b, first, script[0])
      && RunBy(c, strategy, Apply(script[0], b, c.maxLen), rest, script[1..])
  }

  lemma {:induction false} RunBySnoc(c: Config, strategy: seq<Mutation>, b: Bytes, d: seq<Drawn>, script: seq<Edit>, sd: seq<Drawn>, e: Edit)
    requires ValidScript(script, b, c.maxLen) && RunBy(c, strategy, b, d, script)
    requires ValidFor(e, |Run(script, b, c.maxLen)|, c.maxLen) && StepBy(c, strategy, Run(script, b, c.maxLen), sd, e)
    ensures ValidScript(script + [e], b, c.maxLen) && RunBy(c, strategy, b, d + sd, script + [e])
    decreases |script|
  {
    hide Apply, ValidFor, StepBy;
    RunSnoc(script, b, c.maxLen, e);
    if script == [] {
      assert script + [e] == [e];
      assert [e][1..] == [] && d + sd == sd + [];
    } else {
      var first, rest :| d == first + rest && StepBy(c, strategy, b, first, script[0])
        && RunBy(c, strategy, Apply(script[0], b, c.maxLen), rest, script[1..]);
      RunBySnoc(c, strategy, Apply(script[0], b, c.maxLen), rest, script[1..], sd, e);
      assert (script + [e])[1..] == script[1..] + [e] && d + sd == first + (rest + sd);
    }
  }

  lemma NoMoreTurns(c: Config, strategy: seq<Mutation>, b: Bytes, front: seq<Drawn>, last: seq<Drawn>)
    requires OnlyRetries(c, strategy, b, front) && Turn(c, strategy, b, last, true, [])
    ensures OnlyRetries(c, strategy, b, front + last)
  {
    hide Outcome;
    assert last != [];
  }

  lemma StepEnds(c: Config, strategy: seq<Mutation>, b: Bytes, front: seq<Drawn>, last: seq<Drawn>, es: seq<Edit>)
    requires OnlyRetries(c, strategy, b, front) && Turn(c, strategy, b, last, false, es)
    ensures StepBy(c, strategy, b, front + last, Entry(es))
  {
    hide OnlyRetries, Turn;
  }

  lemma OneTurn(c: Config, strategy: seq<Mutation>, b: Bytes, r: nat, md: seq<Drawn>, retry: bool, e: seq<Edit>)
    requires r < |strategy| && Outcome(c, strategy[r], b, md, retry, e)
    ensures Turn(c, strategy, b, [Bounded(256, r)] + md, retry, e)
  {
    hide Outcome;
  }

  /** Inputs of at least 8 bytes are never left as they are: every step edits them. */
  lemma LongInputsAreEdited(c: Config, strategy: seq<Mutation>, b: Bytes, d: seq<Drawn>, e: Edit)
    requires |b| >= 8 && StepBy(c, strategy, b, d, e)
    ensures exists m, md :: m in strategy && Fits(c, m, b, md, e)
  {
    hide Fits, OnlyRetries, FindsNoNumber, NoRoomForDigits, Needed;
    var front, last, es :| OnlyRetries(c, strategy, b, front) && Turn(c, strategy, b, last, false, es) && d == front + last && e == Entry(es);
    var r, md :| 0 <= r < |strategy| && Outcome(c, strategy[r], b, md, false, es) && last == [Bounded(256, r)] + md;
    NeededSmall(strategy[r]);
    assert es != [];
    assert strategy[r] in strategy;
  }

  lemma NeededSmall(m: Mutation)
    ensures Needed(m) <= 4
  {
  }
}
