/** The per-pixel fusion operators of the image fusion engine: how a method
    name is dispatched, and what each operator computes from the two
    co-located grayscale samples `a` (first image) and `b` (second image). */
module PixelOps {

  /** One 8-bit grayscale sample, as held in a raw single-channel buffer. */
  type Byte = x: int | 0 <= x < 256

  /** The operators of the per-pixel loops. `Average` is the `'avg'` /
      `'average'` case; `Fallback` is the switch's `default` arm, which any
      other name reaches. */
  datatype Rule = Laplace | Average | Min | Max | AbsDiff | Multiply | Screen | Fallback

  /** What a method name selects: the principal-component branch, or one of
      the per-pixel operators. */
  datatype Method = Pca | PerPixel(rule: Rule)

  /** The names that the dispatch compares against. */
  predicate Recognised(name: string) {
    name in {"laplace", "pca", "avg", "average", "min", "max", "absdiff", "multiply", "screen"}
  }

  /** The dispatch on the method name: an `if` for `'laplace'`, an `else if`
      for `'pca'`, and a `switch` whose `default` arm catches all other names.
      The comparison is exact (case-sensitive string equality). */
  function ParseMethod(name: string): (m: Method)
    ensures m == Pca <==> name == "pca"
    ensures m == PerPixel(Laplace) <==> name == "laplace"
    ensures m == PerPixel(Average) <==> name == "avg" || name == "average"
    ensures m == PerPixel(Min) <==> name == "min"
    ensures m == PerPixel(Max) <==> name == "max"
    ensures m == PerPixel(AbsDiff) <==> name == "absdiff"
    ensures m == PerPixel(Multiply) <==> name == "multiply"
    ensures m == PerPixel(Screen) <==> name == "screen"
    ensures m == PerPixel(Fallback) <==> !Recognised(name)
  {
    if name == "laplace" then PerPixel(Laplace)
    else if name == "pca" then Pca
    else if name == "avg" || name == "average" then PerPixel(Average)
    else if name == "min" then PerPixel(Min)
    else if name == "max" then PerPixel(Max)
    else if name == "absdiff" then PerPixel(AbsDiff)
    else if name == "multiply" then PerPixel(Multiply)
    else if name == "screen" then PerPixel(Screen)
    else PerPixel(Fallback)
  }

  function Abs(x: int): int { if x < 0 then -x else x }

  function MinOf(x: int, y: int): int { if x <= y then x else y }

  function MaxOf(x: int, y: int): int { if x >= y then x else y }

  /** Distance of a sample from mid-gray, the laplace operator's measure of
      contrast. */
  function Contrast(x: Byte): nat { Abs(x - 128) }

  /** `(255 - a) * (255 - b) / 255` and `a * b / 255` never leave [0, 255]. */
  lemma ScaledProductInRange(x: Byte, y: Byte)
    ensures 0 <= x * y / 255 <= MinOf(x, y)
  {
    assert 0 <= x * y <= 255 * x;
    assert 0 <= x * y <= 255 * y;
  }

  /** The value one iteration of the fusion loops computes before it is
      stored. All divisions have divisor 2 or 255 and a non-negative
      dividend, so Dafny's `/` is the source's `Math.floor` of the quotient.
      Every operator stays within [0, 255] for samples in [0, 255]. */
  function FusePixel(rule: Rule, a: Byte, b: Byte): (r: int)
    ensures 0 <= r <= 255
  {
    match rule
    case Laplace => if Contrast(a) > Contrast(b) then a else b
    case Average => (a + b) / 2
    case Min => MinOf(a, b)
    case Max => MaxOf(a, b)
    case AbsDiff => Abs(a - b)
    case Multiply =>
      ScaledProductInRange(a, b);
      MinOf(255, a * b / 255)
    case Screen =>
      ScaledProductInRange(255 - a, 255 - b);
      255 - (255 - a) * (255 - b) / 255
    case Fallback => (a + b) / 2
  }

  /** Storing a number into an element of a byte buffer: the integer is
      reduced modulo 2^8. A value already in [0, 255] is stored unchanged. */
  function ToUint8(x: int): (r: Byte)
    ensures 0 <= x <= 255 ==> r == x
    ensures (x - r) % 256 == 0
  {
    x % 256
  }

  /** The buffer store in the fusion loops never wraps: what is stored is the
      value the operator computed. */
  lemma StoreNeverWraps(rule: Rule, a: Byte, b: Byte)
    ensures ToUint8(FusePixel(rule, a, b)) == FusePixel(rule, a, b)
  {
  }

  /** Laplace keeps the sample farther from mid-gray; a tie keeps `b`. */
  lemma LaplaceSelects(a: Byte, b: Byte)
    ensures FusePixel(Laplace, a, b) == a || FusePixel(Laplace, a, b) == b
    ensures Contrast(a) > Contrast(b) ==> FusePixel(Laplace, a, b) == a
    ensures Contrast(a) <= Contrast(b) ==> FusePixel(Laplace, a, b) == b
    ensures Contrast(FusePixel(Laplace, a, b)) == MaxOf(Contrast(a), Contrast(b))
  {
  }

  /** The names `'avg'` and `'average'`, and every name the dispatch does not
      recognise, all fuse to the floor of the mean. */
  lemma AverageAliases(name: string, a: Byte, b: Byte)
    requires name == "avg" || name == "average" || !Recognised(name)
    ensures ParseMethod(name).PerPixel?
    ensures FusePixel(ParseMethod(name).rule, a, b) == (a + b) / 2
  {
  }

  /** Every per-pixel operator except laplace is symmetric in its inputs. */
  lemma Symmetric(rule: Rule, a: Byte, b: Byte)
    requires rule != Laplace
    ensures FusePixel(rule, a, b) == FusePixel(rule, b, a)
  {
    if rule == Screen {
      assert (255 - a) * (255 - b) == (255 - b) * (255 - a);
    } else if rule == Multiply {
      assert a * b == b * a;
    }
  }

  /** Laplace is not symmetric: on a contrast tie it keeps the second input. */
  lemma LaplaceNotSymmetric()
    ensures FusePixel(Laplace, 100, 156) == 156
    ensures FusePixel(Laplace, 156, 100) == 100
  {
  }

  /** Fusing a sample with itself: average, min, max, laplace and the
      fallback give it back, and absdiff gives zero. */
  lemma SelfFusion(rule: Rule, a: Byte)
    ensures rule in {Average, Fallback, Min, Max, Laplace} ==> FusePixel(rule, a, a) == a
    ensures rule == AbsDiff ==> FusePixel(rule, a, a) == 0
  {
  }

  /** Multiply darkens: its result is no brighter than either input. */
  lemma MultiplyDarkens(a: Byte, b: Byte)
    ensures FusePixel(Multiply, a, b) <= FusePixel(Min, a, b)
  {
    ScaledProductInRange(a, b);
  }

  /** The `min(255, …)` in multiply never takes effect: the result is the
      floored scaled product itself. */
  lemma MultiplyNeverClamps(a: Byte, b: Byte)
    ensures FusePixel(Multiply, a, b) == a * b / 255
  {
    ScaledProductInRange(a, b);
  }

  /** Screen lightens: its result is no darker than either input. */
  lemma ScreenLightens(a: Byte, b: Byte)
    ensures FusePixel(Max, a, b) <= FusePixel(Screen, a, b)
  {
    ScaledProductInRange(255 - a, 255 - b);
  }

  /** Average and laplace lie between min and max. */
  lemma BetweenMinAndMax(a: Byte, b: Byte)
    ensures FusePixel(Min, a, b) <= FusePixel(Average, a, b) <= FusePixel(Max, a, b)
    ensures FusePixel(Min, a, b) <= FusePixel(Laplace, a, b) <= FusePixel(Max, a, b)
  {
  }

  /** White is the identity of multiply and black the identity of screen;
      black absorbs multiply and white absorbs screen. */
  lemma Identities(a: Byte)
    ensures FusePixel(Multiply, a, 255) == a && FusePixel(Multiply, a, 0) == 0
    ensures FusePixel(Screen, a, 0) == a && FusePixel(Screen, a, 255) == 255
  {
    assert a * 255 / 255 == a;
    assert (255 - a) * 255 / 255 == 255 - a;
  }
}
