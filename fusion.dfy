/** The integer part of `fuseImages`: the common size both inputs are
    resized to, and the loop that fills the fused buffer index by index from
    the two grayscale buffers. */
module Fusion {
  import opened PixelOps

  /** Width and height of an image, as its metadata reports them. */
  datatype Size = Size(width: nat, height: nat)

  /** Both inputs are resized to the smaller width and the smaller height. */
  function TargetSize(s1: Size, s2: Size): (t: Size)
    ensures t.width <= s1.width && t.width <= s2.width
    ensures t.width == s1.width || t.width == s2.width
    ensures t.height <= s1.height && t.height <= s2.height
    ensures t.height == s1.height || t.height == s2.height
  {
    Size(MinOf(s1.width, s2.width), MinOf(s1.height, s2.height))
  }

  /** The target size does not depend on the order of the inputs, and an
      image already no larger than the other keeps its size. */
  lemma TargetSizeProperties(s1: Size, s2: Size)
    ensures TargetSize(s1, s2) == TargetSize(s2, s1)
    ensures s1.width <= s2.width && s1.height <= s2.height ==> TargetSize(s1, s2) == s1
    ensures TargetSize(s1, s1) == s1
  {
  }

  /** What the loop stores at index `i` of the fused buffer. Past the end of
      the second buffer `data2[i]` is `undefined`; every operator then yields
      NaN or `undefined` (laplace returns `data2[i]` itself), and a byte
      buffer stores either as 0. */
  function StoredPixel(rule: Rule, d1: seq<Byte>, d2: seq<Byte>, i: nat): (r: Byte)
    requires i < |d1|
    ensures i < |d2| ==> r == FusePixel(rule, d1[i], d2[i])
    ensures |d2| <= i ==> r == 0
  {
    if i < |d2| then ToUint8(FusePixel(rule, d1[i], d2[i])) else 0
  }

  /** The first `n` entries of the fused buffer, in the order the loop
      writes them. */
  function FusedPrefix(rule: Rule, d1: seq<Byte>, d2: seq<Byte>, n: nat): (r: seq<Byte>)
    requires n <= |d1|
    ensures |r| == n
    decreases n
  {
    if n == 0 then [] else FusedPrefix(rule, d1, d2, n - 1) + [StoredPixel(rule, d1, d2, n - 1)]
  }

  /** The whole fused buffer: as long as the first input. */
  function Fused(rule: Rule, d1: seq<Byte>, d2: seq<Byte>): (r: seq<Byte>)
    ensures |r| == |d1|
  {
    FusedPrefix(rule, d1, d2, |d1|)
  }

  /** Entry `k` of a prefix is the operator applied to the inputs at `k`. */
  lemma {:induction false} FusedPrefixAt(rule: Rule, d1: seq<Byte>, d2: seq<Byte>, n: nat, k: nat)
    requires k < n <= |d1|
    ensures FusedPrefix(rule, d1, d2, n)[k] == StoredPixel(rule, d1, d2, k)
  {
    if k < n - 1 {
      FusedPrefixAt(rule, d1, d2, n - 1, k);
    }
  }

  /** Every entry of the fused buffer is the operator applied to the two
      inputs at the same index, or 0 where the second input has ended. */
  lemma FusedAt(rule: Rule, d1: seq<Byte>, d2: seq<Byte>, k: nat)
    requires k < |d1|
    ensures k < |d2| ==> Fused(rule, d1, d2)[k] == FusePixel(rule, d1[k], d2[k])
    ensures |d2| <= k ==> Fused(rule, d1, d2)[k] == 0
  {
    FusedPrefixAt(rule, d1, d2, |d1|, k);
  }

  /** Entry `k` of the output depends only on entry `k` of each input: inputs
      that agree there give outputs that agree there. */
  lemma Locality(rule: Rule, d1: seq<Byte>, d2: seq<Byte>, e1: seq<Byte>, e2: seq<Byte>, k: nat)
    requires k < |d1| && k < |e1|
    requires d1[k] == e1[k]
    requires k < |d2| <==> k < |e2|
    requires k < |d2| ==> d2[k] == e2[k]
    ensures Fused(rule, d1, d2)[k] == Fused(rule, e1, e2)[k]
  {
    FusedAt(rule, d1, d2, k);
    FusedAt(rule, e1, e2, k);
  }

  /** At every index inside both inputs, laplace keeps the input sample
      farther from mid-gray, the second one on a tie. */
  lemma FusedLaplace(d1: seq<Byte>, d2: seq<Byte>, k: nat)
    requires k < |d1| && k < |d2|
    ensures Contrast(d1[k]) > Contrast(d2[k]) ==> Fused(Laplace, d1, d2)[k] == d1[k]
    ensures Contrast(d1[k]) <= Contrast(d2[k]) ==> Fused(Laplace, d1, d2)[k] == d2[k]
  {
    FusedAt(Laplace, d1, d2, k);
    LaplaceSelects(d1[k], d2[k]);
  }

  /** Swapping two equally long inputs leaves the output of every operator
      except laplace unchanged. */
  lemma FusedSymmetric(rule: Rule, d1: seq<Byte>, d2: seq<Byte>)
    requires rule != Laplace && |d1| == |d2|
    ensures Fused(rule, d1, d2) == Fused(rule, d2, d1)
  {
    forall k | 0 <= k < |d1|
      ensures Fused(rule, d1, d2)[k] == Fused(rule, d2, d1)[k]
    {
      FusedAt(rule, d1, d2, k);
      FusedAt(rule, d2, d1, k);
      Symmetric(rule, d1[k], d2[k]);
    }
  }

  /** Fusing a buffer with itself: average, min, max, laplace and the
      fallback return it unchanged, and absdiff returns all zeros. */
  lemma FusedWithItself(rule: Rule, d: seq<Byte>)
    ensures rule in {Average, Fallback, Min, Max, Laplace} ==> Fused(rule, d, d) == d
    ensures rule == AbsDiff ==> forall k :: 0 <= k < |d| ==> Fused(rule, d, d)[k] == 0
  {
    forall k | 0 <= k < |d|
      ensures rule in {Average, Fallback, Min, Max, Laplace} ==> Fused(rule, d, d)[k] == d[k]
      ensures rule == AbsDiff ==> Fused(rule, d, d)[k] == 0
    {
      FusedAt(rule, d, d, k);
      SelfFusion(rule, d[k]);
    }
  }

  /** The non-PCA part of `fuseImages`: allocate a zero-filled buffer as long
      as the first input, then write index `i` on iteration `i` with the
      operator applied to `data1[i]` and `data2[i]`. */
  method Fuse(data1: array<Byte>, data2: array<Byte>, rule: Rule) returns (fused: array<Byte>)
    ensures fresh(fused)
    ensures fused.Length == data1.Length
    ensures fused[..] == Fused(rule, data1[..], data2[..])
  {
    fused := new Byte[data1.Length](_ => 0);
    var i := 0;
    while i < data1.Length
      invariant 0 <= i <= data1.Length
      invariant fused[..i] == FusedPrefix(rule, data1[..], data2[..], i)
    {
      var v := if i < data2.Length then FusePixel(rule, data1[i], data2[i]) else 0;
      fused[i] := ToUint8(v);
      assert fused[..i + 1] == fused[..i] + [fused[i]];
      i := i + 1;
    }
    assert fused[..] == fused[..data1.Length];
  }

  /** `fuseImages` for a method name outside the PCA branch: the name picks
      the operator, and the loop fills the buffer with it. Every name that is
      `'avg'`, `'average'` or unrecognised fuses each index to the floor of
      the mean of the two samples there. */
  method FuseByName(data1: array<Byte>, data2: array<Byte>, name: string) returns (fused: array<Byte>)
    requires ParseMethod(name).PerPixel?
    ensures fresh(fused)
    ensures fused[..] == Fused(ParseMethod(name).rule, data1[..], data2[..])
    ensures name == "avg" || name == "average" || !Recognised(name) ==>
      forall k :: 0 <= k < fused.Length && k < data2.Length ==> fused[k] == (data1[k] as int + data2[k]) / 2
  {
    fused := Fuse(data1, data2, ParseMethod(name).rule);
    if name == "avg" || name == "average" || !Recognised(name) {
      forall k | 0 <= k < fused.Length && k < data2.Length
        ensures fused[k] == (data1[k] as int + data2[k]) / 2
      {
        assert fused[k] == Fused(ParseMethod(name).rule, data1[..], data2[..])[k];
        FusedAt(ParseMethod(name).rule, data1[..], data2[..], k);
        AverageAliases(name, data1[k], data2[k]);
      }
    }
  }
}
