/** The 64-bit and the 32-bit header agree on every map: the same bytes give the same classified
    trace, the same verdicts and the same virgin map. */
module CoverageWidths {
  import opened CoverageBytes
  import W64 = Coverage64
  import W32 = Coverage32

  ghost predicate SameBytes(a: seq<bv64>, b: seq<bv32>) {
    W64.Bytes(a) == W32.Bytes(b)
  }

  lemma ClassifyAgrees(lookup: bv16 -> bv16, a: seq<bv64>, b: seq<bv32>)
    requires SameBytes(a, b)
    ensures SameBytes(W64.Classified(lookup, a), W32.Classified(lookup, b))
  {
    W64.ClassifyBytes(lookup, a);
    W32.ClassifyBytes(lookup, b);
    hide W64.Bytes, W32.Bytes, W64.Classified, W32.Classified, ClassifiedBytes;
  }

  /** skim answers the same in both widths. */
  lemma SkimAgrees(lookup: bv16 -> bv16, v64: seq<bv64>, c64: seq<bv64>, v32: seq<bv32>, c32: seq<bv32>)
    requires SameBytes(v64, v32) && SameBytes(c64, c32) && |c64| == |v64| && |c32| == |v32|
    ensures W64.AnyInteresting(lookup, c64, v64) <==> W32.AnyInteresting(lookup, c32, v32)
  {
    W64.SkimIsDiscover(lookup, v64, c64);
    W32.SkimIsDiscover(lookup, v32, c32);
    ClassifyAgrees(lookup, c64, c32);
    hide W64.AnyInteresting, W32.AnyInteresting, W64.Bytes, W32.Bytes, W64.Classified, W32.Classified, Verdict;
  }

  /** Running the same traces through both widths: the same verdicts, the same virgin bytes. */
  method DiscoverBoth(traces64: seq<seq<bv64>>, n64: nat, traces32: seq<seq<bv32>>, n32: nat)
    returns (v64: array<bv64>, r64: seq<nat>, v32: array<bv32>, r32: seq<nat>)
    requires |traces64| == |traces32| && 8 * n64 == 4 * n32
    requires forall j :: 0 <= j < |traces64| ==> |traces64[j]| == n64 && |traces32[j]| == n32
    requires forall j :: 0 <= j < |traces64| ==> SameBytes(traces64[j], traces32[j])
    ensures SameBytes(v64[..], v32[..]) && r64 == r32 && |r64| == |traces64|
    ensures Sized(W64.ByteTraces(traces64), 8 * n64) && W64.ByteTraces(traces64) == W32.ByteTraces(traces32)
    ensures W64.Bytes(v64[..]) == After(W64.ByteTraces(traces64), 8 * n64)
    ensures InHistory(W64.ByteTraces(traces64), 8 * n64, r64)
  {
    assert W64.ByteTraces(traces64) == W32.ByteTraces(traces32);
    hide W64.Bytes, W32.Bytes, Verdict, After;
    v64, r64 := W64.DiscoverAll(traces64, n64);
    v32, r32 := W32.DiscoverAll(traces32, n32);
  }
}
