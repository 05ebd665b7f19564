/** MUT_ASCIINUM: find a decimal number in the buffer, read it without overflow, change it inside
    64 bits and print it.  The buffer that snprintf is given the size of is a pointer, so on a
    64-bit host the text is cut to seven characters. */
module AsciiNum {
  import opened RandBelow

  type Bytes = seq<bv8>

  const INT64_MAX: int := 0x7FFF_FFFF_FFFF_FFFF
  const INT64_MIN: int := -0x8000_0000_0000_0000
  const UINT64: int := 0x1_0000_0000_0000_0000
  const TEXT_MAX: nat := 7  // sizeof a pointer, less the terminator

  predicate InS64(x: int) { INT64_MIN <= x <= INT64_MAX }

  predicate IsDigit(c: bv8) { 0x30 <= c <= 0x39 }

  function DigitValue(c: bv8): (d: nat)
    requires IsDigit(c)
    ensures d <= 9
  {
    DigitBound(c);
    (c - 0x30) as nat
  }

  lemma DigitBound(c: bv8)
    requires IsDigit(c)
    ensures c - 0x30 <= 9
  {
  }

  predicate AllDigits(b: Bytes) {
    forall k :: 0 <= k < |b| ==> IsDigit(b[k])
  }

  function Decimal(b: Bytes): nat
    requires AllDigits(b)
  {
    if b == [] then 0 else 10 * Decimal(b[..|b| - 1]) + DigitValue(b[|b| - 1])
  }

  // ---- finding a number -------------------------------------------------------------------

  predicate NoDigits(b: Bytes, lo: nat, hi: nat)
    requires lo <= hi <= |b|
  {
    forall k :: lo <= k < hi ==> !IsDigit(b[k])
  }

  /** The position at which a cyclic scan from start first meets a digit. */
  ghost predicate FirstCyclic(b: Bytes, start: nat, off: nat)
    requires start <= |b|
  {
    && off < |b| && IsDigit(b[off])
    && if start <= off then NoDigits(b, start, off) else NoDigits(b, start, |b|) && NoDigits(b, 0, off)
  }

  lemma RunGrows(b: Bytes, off: nat, end: nat)
    requires off <= end < |b| && IsDigit(b[end]) && (off < end ==> AllDigits(b[off..end]))
    ensures AllDigits(b[off..end + 1])
  {
    hide IsDigit;
    var r := b[off..end + 1];
    forall k | 0 <= k < |r|
      ensures IsDigit(r[k])
    {
      if off + k < end { assert r[k] == b[off..end][k]; }
    }
  }

  /** The search: forward to the end, then from the beginning up to where it started; then the
      whole run of digits. */
  method FindNumber(b: Bytes, start: nat) returns (found: bool, off: nat, end: nat)
    requires start < |b|
    ensures found <==> !NoDigits(b, 0, |b|)
    ensures found ==> FirstCyclic(b, start, off) && off < end <= |b| && AllDigits(b[off..end])
    ensures found ==> end == |b| || !IsDigit(b[end])
  {
    hide IsDigit, AllDigits;
    found, off, end := false, 0, 0;
    var off2, cnt := start, 0;
    while off2 + cnt < |b| && !IsDigit(b[off2 + cnt])
      invariant off2 + cnt <= |b| && NoDigits(b, off2, off2 + cnt)
    {
      cnt := cnt + 1;
    }
    if off2 + cnt == |b| {
      off2, cnt := 0, 0;
      while cnt < start && !IsDigit(b[off2 + cnt])
        invariant cnt <= start && NoDigits(b, 0, cnt)
      {
        cnt := cnt + 1;
      }
      if cnt == start { return; }
    }
    off := off2 + cnt;
    RunGrows(b, off, off);
    off2 := off + 1;
    while off2 < |b| && IsDigit(b[off2])
      invariant off < off2 <= |b| && AllDigits(b[off..off2])
    {
      RunGrows(b, off, off2);
      off2 := off2 + 1;
    }
    found, end := true, off2;
  }

  // ---- reading it ---------------------------------------------------------------------------

  lemma DecimalSnoc(b: Bytes, c: bv8)
    requires AllDigits(b) && IsDigit(c)
    ensures AllDigits(b + [c]) && Decimal(b + [c]) == 10 * Decimal(b) + DigitValue(c)
  {
    assert (b + [c])[..|b|] == b;
  }

  lemma OneMoreDigit(b: Bytes, off: nat, i: nat, end0: nat)
    requires off <= i < end0 <= |b| && AllDigits(b[off..end0])
    ensures IsDigit(b[i]) && AllDigits(b[off..i]) && AllDigits(b[off..i + 1])
    ensures Decimal(b[off..i + 1]) == 10 * Decimal(b[off..i]) + DigitValue(b[i])
    ensures i == off ==> Decimal(b[off..i]) == 0
  {
    hide IsDigit, DigitValue;
    assert b[i] == b[off..end0][i - off];
    assert b[off..i] == b[off..end0][..i - off];
    assert b[off..i + 1] == b[off..i] + [b[i]];
    DecimalSnoc(b[off..i], b[i]);
  }

  /** The accumulation loop stops just before the value would leave s64: it reads the longest
      prefix of the run that fits. */
  method ReadNumber(b: Bytes, off: nat, end0: nat) returns (val: int, end: nat)
    requires off < end0 <= |b| && AllDigits(b[off..end0])
    ensures off < end <= end0 && AllDigits(b[off..end]) && val == Decimal(b[off..end]) <= INT64_MAX
    ensures end < end0 ==> AllDigits(b[off..end + 1]) && Decimal(b[off..end + 1]) > INT64_MAX
  {
    hide IsDigit, DigitValue, Decimal, AllDigits;
    OneMoreDigit(b, off, off, end0);
    val := DigitValue(b[off]);
    end := end0;
    var i := off + 1;
    while i < end
      invariant off < i <= end <= end0
      invariant AllDigits(b[off..i]) && val == Decimal(b[off..i]) <= INT64_MAX
      invariant end < end0 ==> i == end && AllDigits(b[off..end + 1]) && Decimal(b[off..end + 1]) > INT64_MAX
      decreases end - i
    {
      OneMoreDigit(b, off, i, end0);
      var digit := DigitValue(b[i]);
      if val > INT64_MAX / 10 || val * 10 > INT64_MAX - digit {
        end := i;
      } else {
        val := val * 10 + digit;
        i := i + 1;
      }
    }
  }

  /** The number whose digits start at off and end at end: the whole rest of the run, or the longest
      part of it that fits; negative behind a minus sign. */
  ghost predicate NumberAt(b: Bytes, off: nat, end: nat, val: int) {
    && off < end <= |b| && AllDigits(b[off..end]) && Decimal(b[off..end]) <= INT64_MAX
    && val == (if off > 0 && b[off - 1] == 0x2d then -(Decimal(b[off..end]) as int) else Decimal(b[off..end]))
    && (end == |b| || !IsDigit(b[end]) || (AllDigits(b[off..end + 1]) && Decimal(b[off..end + 1]) > INT64_MAX))
  }

  method PickNumber(b: Bytes, start: nat) returns (found: bool, off: nat, end: nat, val: int)
    requires start < |b|
    ensures found <==> !NoDigits(b, 0, |b|)
    ensures found ==> FirstCyclic(b, start, off) && NumberAt(b, off, end, val)
  {
    end, val := 0, 0;
    var run: nat;
    found, off, run := FindNumber(b, start);
    if found {
      val, end := ReadNumber(b, off, run);
      if off > 0 && b[off - 1] == 0x2d { val := -val; }
    }
  }

  lemma NumberFits(b: Bytes, off: nat, end: nat, val: int)
    requires NumberAt(b, off, end, val)
    ensures off < end <= |b| && -INT64_MAX <= val <= INT64_MAX
  {
  }

  lemma {:induction false} DecimalBelow(b: Bytes)
    requires AllDigits(b)
    ensures Decimal(b) < Pow10(|b|)
  {
    if b != [] { DecimalBelow(b[..|b| - 1]); }
  }

  function Pow10(n: nat): (p: nat)
    ensures p >= 1
  {
    if n == 0 then 1 else 10 * Pow10(n - 1)
  }

  // ---- changing it ----------------------------------------------------------------------------

  /** C division truncates toward zero. */
  function DivTrunc(x: int, d: nat): int
    requires d > 0
  {
    if x >= 0 then x / d else -((-x) / d)
  }

  /** The quotient of smaller size: the remainder is less than the divisor and has the sign of x. */
  lemma TowardZero(x: int, d: nat)
    requires d > 0
    ensures var rest := x - d * DivTrunc(x, d);
      0 < rest + d && rest < d && (x >= 0 ==> rest >= 0) && (x <= 0 ==> rest <= 0)
  {
  }

  /** The cast to u64. */
  function AsU64(x: int): int { if x < 0 then x + UINT64 else x }

  /** Whether a strategy first divides by ten and gives up the last digit of the span. */
  predicate Drops(strat: nat, val: int) {
    (strat == 0 && val == INT64_MAX)
    || (strat == 1 && val == INT64_MIN)
    || (strat == 2 && (val > DivTrunc(INT64_MAX, 2) || val < DivTrunc(INT64_MIN, 2)))
    || (strat == 5 && val > INT64_MAX - 256)
    || (strat == 6 && val < INT64_MIN + 256)
  }

  /** The value after the division by ten, if there is one. */
  function Trimmed(strat: nat, val: int): int {
    if Drops(strat, val) then DivTrunc(val, 10) else val
  }

  /** A digit goes exactly where the strategy could leave 64 signed bits: with any amount up to 256
      where the amount is drawn. */
  lemma DropsExactly(strat: nat, val: int)
    requires -INT64_MAX <= val <= INT64_MAX
    ensures Drops(strat, val) <==> CouldLeave(strat, val)
  {
  }

  predicate CouldLeave(strat: nat, val: int) {
    match strat
    case 0 => !InS64(val + 1)
    case 1 => !InS64(val - 1)
    case 2 => !InS64(2 * val)
    case 5 => !InS64(val + 256)
    case 6 => !InS64(val - 256)
    case _ => false
  }

  predicate OneByte(d: seq<Drawn>) { |d| == 1 && d[0].Bounded? && d[0].limit == 256 && d[0].r < 256 }

  /** What each of the eight strategies turns a value into, given the answers it draws. */
  predicate ChangedTo(strat: nat, val0: int, d: seq<Drawn>, val: int) {
    match strat
    case 0 => d == [] && val == Trimmed(0, val0) + 1
    case 1 => d == [] && val == val0 - 1
    case 2 => d == [] && val == 2 * Trimmed(2, val0)
    case 3 => d == [] && val == DivTrunc(val0, 2)
    case 4 =>
      if 0 < val0 < 0x19999999 then |d| == 1 && d[0].Raw? && val == d[0].x % (10 * val0)
      else OneByte(d) && val == d[0].r
    case 5 => OneByte(d) && val == Trimmed(5, val0) + d[0].r
    case 6 => OneByte(d) && val == Trimmed(6, val0) - d[0].r
    case _ => strat == 7 && d == [] && val == -val0 - 1
  }

  /** The eight strategies.  Every intermediate value stays inside s64, so none has undefined
      behaviour; the result is returned with whether the span lost its last digit. */
  method Change(val0: int, strat: nat, rng: Rng) returns (val: int, dropped: bool, ghost d: seq<Drawn>)
    requires -INT64_MAX <= val0 <= INT64_MAX && strat < 8
    modifies rng
    ensures InS64(val) && dropped == Drops(strat, val0) && rng.Asked(d) && ChangedTo(strat, val0, d, val)
    ensures InS64(Trimmed(strat, val0)) && (strat == 4 && 0 < val0 < 0x19999999 ==> InS64(10 * val0))
  {
    hide rng.Honest;
    val, d := val0, [];
    dropped := Drops(strat, val0);
    if dropped { val := DivTrunc(val, 10); }
    assert InS64(val);
    match strat {
      case 0 => val := val + 1;
      case 1 => val := val - 1;
      case 2 => val := val * 2;
      case 3 => val := DivTrunc(val, 2);
      case 4 =>
        if val != 0 && AsU64(val) < 0x19999999 {
          var r := rng.RandNext();
          d := [Raw(r)];
          val := r % (val * 10);
        } else {
          val := rng.Below(256);
          d := [Bounded(256, val)];
        }
      case 5 =>
        var r := rng.Below(256);
        d := [Bounded(256, r)];
        val := val + r;
      case 6 =>
        var r := rng.Below(256);
        d := [Bounded(256, r)];
        val := val - r;
      case _ => val := -val - 1;
    }
  }

  /** Dropping the last digit never empties the span: only values of many digits are divided. */
  lemma SpanSurvives(b: Bytes, off: nat, end: nat, val: int, strat: nat)
    requires NumberAt(b, off, end, val) && Drops(strat, val)
    ensures off < end - 1
  {
    assert Pow10(1) == 10;
    DecimalBelow(b[off..end]);
  }

  // ---- printing it ------------------------------------------------------------------------------

  function Char(d: nat): bv8
    requires d <= 9
  {
    0x30 + (d as bv8)
  }

  lemma CharIsDigit(d: nat)
    requires d <= 9
    ensures IsDigit(Char(d)) && DigitValue(Char(d)) == d
  {
    if d == 0 {} else if d == 1 {} else if d == 2 {} else if d == 3 {} else if d == 4 {}
    else if d == 5 {} else if d == 6 {} else if d == 7 {} else if d == 8 {} else {}
  }

  /** The decimal digits of n, without leading zeros. */
  function Digits(n: nat): (b: Bytes)
    ensures |b| >= 1
  {
    if n < 10 then [Char(n)] else Digits(n / 10) + [Char(n % 10)]
  }

  lemma {:induction false} DigitsDecimal(n: nat)
    ensures AllDigits(Digits(n)) && Decimal(Digits(n)) == n
    ensures forall k: nat :: k >= 1 ==> (|Digits(n)| <= k <==> n < Pow10(k))
  {
    hide Char, IsDigit, DigitValue;
    if n < 10 {
      CharIsDigit(n);
      DecimalSnoc([], Char(n));
      assert Digits(n) == [] + [Char(n)];
      forall k: nat | k >= 1 ensures n < Pow10(k) {
        assert Pow10(k - 1) >= 1;
      }
    } else {
      DigitsDecimal(n / 10);
      CharIsDigit(n % 10);
      DecimalSnoc(Digits(n / 10), Char(n % 10));
      forall k: nat | k >= 1
        ensures |Digits(n)| <= k <==> n < Pow10(k)
      {
        if k == 1 {
          assert Pow10(1) == 10;
        } else {
          assert |Digits(n / 10)| <= k - 1 <==> n / 10 < Pow10(k - 1);
        }
      }
    }
  }

  /** snprintf with PRId64 into numbuf. */
  function Print(val: int): Bytes {
    if val < 0 then [0x2d] + Digits(-val) else Digits(val)
  }

  function NumBuf(val: int): (t: Bytes)
    ensures 1 <= |t| <= TEXT_MAX
  {
    var full := Print(val);
    if |full| <= TEXT_MAX then full else full[..TEXT_MAX]
  }

  /** The value a reader takes from the text. */
  function Parsed(t: Bytes): int
    requires t != [] && AllDigits(if t[0] == 0x2d then t[1..] else t)
  {
    if t[0] == 0x2d then -(Decimal(t[1..]) as int) else Decimal(t)
  }

  lemma {:induction false} PrefixValue(n: nat, k: nat)
    requires 1 <= k <= |Digits(n)|
    ensures AllDigits(Digits(n)[..k]) && Decimal(Digits(n)[..k]) <= n
    ensures k < |Digits(n)| ==> Decimal(Digits(n)[..k]) < n
  {
    DigitsDecimal(n);
    if k < |Digits(n)| {
      PrefixValue(n / 10, k);
      assert Digits(n)[..k] == Digits(n / 10)[..k];
    } else {
      assert Digits(n)[..k] == Digits(n);
    }
  }

  lemma DigitsNotMinus(n: nat)
    ensures Digits(n)[0] != 0x2d
  {
    DigitsDecimal(n);
    assert IsDigit(Digits(n)[0]);
    MinusNotDigit();
    hide IsDigit;
  }

  lemma MinusNotDigit()
    ensures !IsDigit(0x2d)
  {
  }

  lemma RoundTripsAbove(n: nat)
    ensures AllDigits(NumBuf(n)) && NumBuf(n)[0] != 0x2d
    ensures Parsed(NumBuf(n)) == n <==> n <= 9999999
  {
    hide IsDigit, Digits, AllDigits, Decimal, Pow10;
    var k := if |Digits(n)| <= TEXT_MAX then |Digits(n)| else TEXT_MAX;
    DigitsDecimal(n);
    PrefixValue(n, k);
    DigitsNotMinus(n);
    SevenDigits();
    assert NumBuf(n) == Digits(n)[..k] && NumBuf(n)[0] == Digits(n)[0];
    assert |Digits(n)| <= 7 <==> n < Pow10(7);
    assert Digits(n)[..|Digits(n)|] == Digits(n);
  }

  lemma RoundTripsBelow(val: int)
    requires val < 0
    ensures NumBuf(val)[0] == 0x2d && AllDigits(NumBuf(val)[1..])
    ensures Parsed(NumBuf(val)) == val <==> -999999 <= val
  {
    hide IsDigit, Digits, AllDigits, Decimal, Pow10;
    var n: nat := -val;
    var k := if |Digits(n)| <= TEXT_MAX - 1 then |Digits(n)| else TEXT_MAX - 1;
    DigitsDecimal(n);
    PrefixValue(n, k);
    SevenDigits();
    assert NumBuf(val)[1..] == Digits(n)[..k];
    assert |Digits(n)| <= 6 <==> n < Pow10(6);
    assert Digits(n)[..|Digits(n)|] == Digits(n);
  }

  /** Exactly the values of at most seven characters survive printing; every other one is cut to
      a number of smaller magnitude. */
  lemma TextRoundTrips(val: int)
    ensures var t := NumBuf(val); AllDigits(if t[0] == 0x2d then t[1..] else t)
    ensures Parsed(NumBuf(val)) == val <==> -999999 <= val <= 9999999
  {
    hide NumBuf, Parsed, AllDigits;
    if val < 0 { RoundTripsBelow(val); } else { RoundTripsAbove(val); }
  }

  lemma SevenDigits()
    ensures Pow10(6) == 1000000 && Pow10(7) == 10000000
  {
    assert Pow10(3) == 1000;
    assert Pow10(5) == 100000;
  }
}
