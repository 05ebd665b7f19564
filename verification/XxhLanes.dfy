/** What XXH32 and XXH64 share: four lanes that each take one word of every stripe, and the
    mixing of the bytes left over after the last whole stripe. */
module XxhLanes {
  import opened LittleEndian

  datatype Lanes4 = Lanes4(v1: nat, v2: nat, v3: nat, v4: nat)

  /** The primitives the streaming logic does not look into; every result holds for any of them. */
  datatype Mixer = Mixer(
    round: (nat, nat) -> nat,
    converge: Lanes4 -> nat,
    step8: (nat, nat) -> nat,
    step4: (nat, nat) -> nat,
    step1: (nat, nat) -> nat,
    avalanche: nat -> nat)

  /** Four bytes at a time, then one at a time: the tail of XXH32_finalize. */
  function Tail4(m: Mixer, h: nat, b: Bytes): nat
    decreases |b|
  {
    if |b| >= 4 then Tail4(m, m.step4(h, Read(b[..4])), b[4..]) else Tail1(m, h, b)
  }

  function Tail1(m: Mixer, h: nat, b: Bytes): nat
    decreases |b|
  {
    if b == [] then m.avalanche(h) else Tail1(m, m.step1(h, b[0] as nat), b[1..])
  }

  /** Eight at a time, at most one four, then one at a time: the tail of XXH64_finalize. */
  function Tail8(m: Mixer, h: nat, b: Bytes): nat
    decreases |b|
  {
    if |b| >= 8 then Tail8(m, m.step8(h, Read(b[..8])), b[8..])
    else if |b| >= 4 then Tail1(m, m.step4(h, Read(b[..4])), b[4..])
    else Tail1(m, h, b)
  }

  // ---- one step of a tail that is read from p to end --------------------------------------------------

  lemma Tail8Step(m: Mixer, h: nat, b: Bytes, p: nat, end: nat)
    requires p + 8 <= end <= |b|
    ensures Tail8(m, h, b[p..end]) == Tail8(m, m.step8(h, Read(b[p..p + 8])), b[p + 8..end])
  {
    assert b[p..end][..8] == b[p..p + 8] && b[p..end][8..] == b[p + 8..end];
    hide Tail1, Read;
  }

  lemma Tail8Four(m: Mixer, h: nat, b: Bytes, p: nat, end: nat)
    requires p <= end <= |b| && end - p < 8
    ensures Tail8(m, h, b[p..end])
         == if end - p >= 4 then Tail1(m, m.step4(h, Read(b[p..p + 4])), b[p + 4..end]) else Tail1(m, h, b[p..end])
  {
    if end - p >= 4 { assert b[p..end][..4] == b[p..p + 4] && b[p..end][4..] == b[p + 4..end]; }
    hide Tail1, Read;
  }

  lemma Tail4Step(m: Mixer, h: nat, b: Bytes, p: nat, end: nat)
    requires p <= end <= |b|
    ensures Tail4(m, h, b[p..end])
         == if end - p >= 4 then Tail4(m, m.step4(h, Read(b[p..p + 4])), b[p + 4..end]) else Tail1(m, h, b[p..end])
  {
    if end - p >= 4 { assert b[p..end][..4] == b[p..p + 4] && b[p..end][4..] == b[p + 4..end]; }
    hide Tail1, Read;
  }

  lemma Tail1Step(m: Mixer, h: nat, b: Bytes, p: nat, end: nat)
    requires p <= end <= |b|
    ensures Tail1(m, h, b[p..end])
         == if p < end then Tail1(m, m.step1(h, b[p] as nat), b[p + 1..end]) else m.avalanche(h)
  {
    if p < end { assert b[p..end][1..] == b[p + 1..end]; }
  }

  // ---- folds over words --------------------------------------------------------------------------------

  /** One word after the other. */
  function Folded(f: (nat, nat) -> nat, h: nat, ws: seq<nat>): nat {
    if ws == [] then h else f(Folded(f, h, ws[..|ws| - 1]), ws[|ws| - 1])
  }

  lemma {:induction false} FoldedFirst(f: (nat, nat) -> nat, h: nat, x: nat, ws: seq<nat>)
    ensures Folded(f, h, [x] + ws) == Folded(f, f(h, x), ws)
  {
    if ws == [] {
      assert [x] + ws == [x] && [x][..0] == [];
    } else {
      var n := |ws| - 1;
      FoldedFirst(f, h, x, ws[..n]);
      assert ([x] + ws)[..n + 1] == [x] + ws[..n];
    }
  }

  /** The first n words of four or eight bytes, and single bytes. */
  function Words4(b: Bytes, n: nat): (ws: seq<nat>)
    requires 4 * n <= |b|
    ensures |ws| == n
  {
    seq(n, i requires 0 <= i < n => Read(b[4 * i..4 * i + 4]))
  }

  function Words8(b: Bytes, n: nat): (ws: seq<nat>)
    requires 8 * n <= |b|
    ensures |ws| == n
  {
    seq(n, i requires 0 <= i < n => Read(b[8 * i..8 * i + 8]))
  }

  function Singles(b: Bytes): (ws: seq<nat>)
    ensures |ws| == |b|
  {
    seq(|b|, i requires 0 <= i < |b| => b[i] as nat)
  }

  lemma {:induction false} Tail1Folded(m: Mixer, h: nat, b: Bytes)
    ensures Tail1(m, h, b) == m.avalanche(Folded(m.step1, h, Singles(b)))
    decreases |b|
  {
    if b != [] {
      Tail1Folded(m, m.step1(h, b[0] as nat), b[1..]);
      FoldedFirst(m.step1, h, b[0] as nat, Singles(b[1..]));
      assert Singles(b) == [b[0] as nat] + Singles(b[1..]);
    }
  }

  /** The tail of XXH32: all words of four bytes, then what is left byte by byte, then the avalanche. */
  lemma {:induction false} Tail4Folded(m: Mixer, h: nat, b: Bytes)
    ensures Tail4(m, h, b)
         == m.avalanche(Folded(m.step1, Folded(m.step4, h, Words4(b, |b| / 4)), Singles(b[4 * (|b| / 4)..])))
    decreases |b|
  {
    hide Read, Tail1, Folded;
    if |b| >= 4 {
      var n := |b| / 4;
      Tail4Folded(m, m.step4(h, Read(b[..4])), b[4..]);
      assert |b[4..]| / 4 == n - 1 && b[4..][4 * (n - 1)..] == b[4 * n..];
      FirstWord4(b, n);
      FoldedFirst(m.step4, h, Read(b[..4]), Words4(b[4..], n - 1));
    } else {
      Tail1Folded(m, h, b);
      NoWords(m.step4, h, Words4(b, 0));
      assert b[0..] == b;
    }
  }

  lemma NoWords(f: (nat, nat) -> nat, h: nat, ws: seq<nat>)
    requires |ws| == 0
    ensures Folded(f, h, ws) == h
  {
  }

  lemma FirstWord4(b: Bytes, n: nat)
    requires 0 < n && 4 * n <= |b|
    ensures Words4(b, n) == [Read(b[..4])] + Words4(b[4..], n - 1)
  {
    hide Read;
    forall i | 0 < i < n ensures b[4 * i..4 * i + 4] == b[4..][4 * (i - 1)..4 * (i - 1) + 4] {}
    assert b[4 * 0..4 * 0 + 4] == b[..4];
  }

  lemma FirstWord8(b: Bytes, n: nat)
    requires 0 < n && 8 * n <= |b|
    ensures Words8(b, n) == [Read(b[..8])] + Words8(b[8..], n - 1)
  {
    hide Read;
    forall i | 0 < i < n ensures b[8 * i..8 * i + 8] == b[8..][8 * (i - 1)..8 * (i - 1) + 8] {}
    assert b[8 * 0..8 * 0 + 8] == b[..8];
  }

  /** The tail of XXH64: all words of eight bytes, at most one of four, then byte by byte. */
  lemma {:induction false} Tail8Folded(m: Mixer, h: nat, b: Bytes)
    ensures var r := b[8 * (|b| / 8)..];
      var fours := |r| / 4;
      Tail8(m, h, b) == m.avalanche(Folded(m.step1, Folded(m.step4, Folded(m.step8, h, Words8(b, |b| / 8)), Words4(r, fours)), Singles(r[4 * fours..])))
    decreases |b|
  {
    hide Read, Tail1, Folded, Tail4;
    if |b| >= 8 {
      var n := |b| / 8;
      Tail8Folded(m, m.step8(h, Read(b[..8])), b[8..]);
      assert |b[8..]| / 8 == n - 1 && b[8..][8 * (n - 1)..] == b[8 * n..];
      FirstWord8(b, n);
      FoldedFirst(m.step8, h, Read(b[..8]), Words8(b[8..], n - 1));
    } else {
      ShortTail(m, h, b);
      NoWords(m.step8, h, Words8(b, 0));
      assert b[0..] == b;
    }
  }

  lemma ShortTail(m: Mixer, h: nat, b: Bytes)
    requires |b| < 8
    ensures Tail8(m, h, b) == m.avalanche(Folded(m.step1, Folded(m.step4, h, Words4(b, |b| / 4)), Singles(b[4 * (|b| / 4)..])))
  {
    Tail4Folded(m, h, b);
    hide Read, Folded, Tail1;
    if |b| >= 4 { assert Tail4(m, h, b) == Tail4(m, m.step4(h, Read(b[..4])), b[4..]); }
  }
}
