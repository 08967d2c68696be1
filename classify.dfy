/**
 * Classification of the composite (meancoastline.js:103-177):
 * the choice of the band pair for the normalized difference, the index
 * itself, the strict `gt` against the Otsu threshold and the self-mask that
 * keeps only class A.
 *
 * A pixel of a single-band image is an `Option<real>`: `None` is a masked
 * pixel, which every per-pixel operation of the engine leaves masked.
 */
module Classify {
  import opened Wrappers
  import Bands
  import Otsu

  datatype BandPair = BandPair(first: string, second: string)

  datatype IndexError = MissingBand(name: string)

  // ---------------------------------------------------------------------
  // The band pair

  /** `na.contains('blue')`: a composite of harmonised bands. */
  predicate MixedLandsat(names: seq<string>) {
    "blue" in names
  }

  const HarmonisedPair := BandPair("swir2", "green")
  const NativeL8Pair := BandPair("B7", "B3")

  /** The band pair the script means to choose: canonical names when the composite has them. */
  function DivBands(names: seq<string>): (r: BandPair)
    ensures MixedLandsat(names) <==> r == HarmonisedPair
    ensures !MixedLandsat(names) <==> r == NativeL8Pair
  {
    if MixedLandsat(names) then HarmonisedPair else NativeL8Pair
  }

  /** The values a condition can hold on the client side of the engine's API. */
  datatype ClientValue = Undefined | Null | Boolean(b: bool) | Number(x: real) | Text(s: string) | ServerObject

  /** JavaScript's conversion of a value to a boolean in an `if`. */
  predicate Truthy(v: ClientValue) {
    match v
    case Undefined => false
    case Null => false
    case Boolean(b) => b
    case Number(x) => x != 0.0
    case Text(s) => s != ""
    case ServerObject => true
  }

  /**
   * `na.contains('blue')` evaluated on the client: a proxy for a server-side
   * boolean, whatever the band names are.
   */
  function ContainsOnClient(names: seq<string>, name: string): (v: ClientValue)
    ensures Truthy(v)
  {
    ServerObject
  }

  /** The band pair as the script's `if (mixed_LS)` chooses it. */
  function DivBandsAsWritten(names: seq<string>): (r: BandPair)
    ensures r == HarmonisedPair
  {
    if Truthy(ContainsOnClient(names, "blue")) then HarmonisedPair else NativeL8Pair
  }

  /** The band names of an unharmonised Landsat 8 top-of-atmosphere scene. */
  const NativeL8Names: seq<string> :=
    ["B1", "B2", "B3", "B4", "B5", "B6", "B7", "B8", "B9", "B10", "B11", "BQA"]

  /** The native Landsat 8 pair names the very bands that harmonisation renames `swir2` and `green`. */
  lemma NativePairMatchesHarmonised()
    ensures |NativeL8Names| >= Bands.NativeBandsNeeded(Bands.L8)
    ensures NativeL8Names[Bands.NativeIndices(Bands.L8)[6]] == NativeL8Pair.first
    ensures Bands.CanonicalNames[6] == HarmonisedPair.first
    ensures NativeL8Names[Bands.NativeIndices(Bands.L8)[1]] == NativeL8Pair.second
    ensures Bands.CanonicalNames[1] == HarmonisedPair.second
  {
  }

  /** Both bands of the chosen pair belong to the composite, harmonised or native Landsat 8. */
  lemma DivBandsPresent(names: seq<string>)
    requires names == NativeL8Names || Bands.CanonicalNames <= names
    ensures DivBands(names).first in names && DivBands(names).second in names
  {
    if names == NativeL8Names {
      assert "blue" !in names;
      assert names[6] == "B7" && names[2] == "B3";
    } else {
      assert names[0] == "blue";
      assert names[6] == "swir2" && names[1] == "green";
    }
  }

  /** A harmonised composite has `blue`, so both rules choose (swir2, green). */
  lemma HarmonisedCompositeAgrees<P>(s: Bands.Sensor, img: seq<Bands.Band<P>>)
    requires |img| >= Bands.NativeBandsNeeded(s)
    ensures Bands.Harmonise(Bands.Key(s), img).Success?
    ensures DivBands(Bands.Names(Bands.Harmonise(Bands.Key(s), img).value)) == HarmonisedPair
    ensures DivBandsAsWritten(Bands.Names(Bands.Harmonise(Bands.Key(s), img).value)) == HarmonisedPair
  {
    Bands.HarmoniseTotal(s, img);
    var names := Bands.Names(Bands.Harmonise(Bands.Key(s), img).value);
    assert names == Bands.CanonicalNames;
    assert names[0] == "blue";
  }

  /** On a composite without `blue`, the script as written asks for a band the composite lacks. */
  lemma AsWrittenMissesNativeBands()
    ensures DivBandsAsWritten(NativeL8Names).first !in NativeL8Names
    ensures DivBands(NativeL8Names).first in NativeL8Names
    ensures DivBands(NativeL8Names).second in NativeL8Names
    ensures Ratio(map n | n in NativeL8Names :: Some(0.5), DivBandsAsWritten(NativeL8Names), 0.0)
      == Failure(MissingBand("swir2"))
  {
    DivBandsPresent(NativeL8Names);
  }

  // ---------------------------------------------------------------------
  // The index

  /** `normalizedDifference` of two values; `z` stands for the engine's result when they sum to zero. */
  function NormalizedDifference(a: real, b: real, z: real): real {
    Otsu.Divide(a - b, a + b, z)
  }

  /** Two non-negative reflectances with a positive sum give an index in [-1, 1]. */
  lemma NormalizedDifferenceBounds(a: real, b: real, z: real)
    requires a >= 0.0 && b >= 0.0 && a + b > 0.0
    ensures -1.0 <= NormalizedDifference(a, b, z) <= 1.0
    ensures NormalizedDifference(a, b, z) > 0.0 <==> a > b
  {
    var n, s := NormalizedDifference(a, b, z), a + b;
    assert n * s == a - b;
    if n > 1.0 {
      Otsu.MultiplyPositive(n - 1.0, s);
      assert false;
    }
    if n < -1.0 {
      Otsu.MultiplyPositive(-1.0 - n, s);
      assert false;
    }
    if n > 0.0 {
      Otsu.MultiplyPositive(n, s);
    }
    if a > b && n <= 0.0 {
      Otsu.MultiplyAtLeastZero(-n, s);
      assert false;
    }
  }

  /** Swapping the pair negates the index. */
  lemma NormalizedDifferenceAntisymmetric(a: real, b: real, z: real)
    requires a + b != 0.0
    ensures NormalizedDifference(b, a, z) == -NormalizedDifference(a, b, z)
  {
    assert (b - a) / (b + a) == -((a - b) / (a + b));
  }

  /** The engine masks the index where a band is masked or negative. */
  predicate Usable(v: Option<real>) {
    v.Some? && v.value >= 0.0
  }

  /**
   * `mean.normalizedDifference(divbands)` at one pixel of the composite,
   * given by its band values (`None` where masked). Asking for a band the
   * composite lacks is an error of the whole computation.
   */
  function Ratio(pixel: map<string, Option<real>>, pair: BandPair, z: real): (r: Result<Option<real>, IndexError>)
    ensures pair.first !in pixel ==> r == Failure(MissingBand(pair.first))
    ensures pair.first in pixel && pair.second !in pixel ==> r == Failure(MissingBand(pair.second))
    ensures r.Success? <==> pair.first in pixel && pair.second in pixel
    ensures r.Success? ==> (r.value.Some? <==> Usable(pixel[pair.first]) && Usable(pixel[pair.second]))
    ensures r.Success? && r.value.Some? ==>
      r.value.value == NormalizedDifference(pixel[pair.first].value, pixel[pair.second].value, z)
  {
    if pair.first !in pixel then Failure(MissingBand(pair.first))
    else if pair.second !in pixel then Failure(MissingBand(pair.second))
    else
      var a, b := pixel[pair.first], pixel[pair.second];
      if Usable(a) && Usable(b) then Success(Some(NormalizedDifference(a.value, b.value, z)))
      else Success(None)
  }

  /** An unmasked index pixel whose bands do not both read zero lies in [-1, 1]. */
  lemma RatioBounds(pixel: map<string, Option<real>>, pair: BandPair, z: real)
    requires Ratio(pixel, pair, z).Success? && Ratio(pixel, pair, z).value.Some?
    requires pixel[pair.first].value + pixel[pair.second].value != 0.0
    ensures -1.0 <= Ratio(pixel, pair, z).value.value <= 1.0
  {
    NormalizedDifferenceBounds(pixel[pair.first].value, pixel[pair.second].value, z);
  }

  /** The index image of a composite given pixel by pixel; one missing band fails it all. */
  function IndexImage(composite: seq<map<string, Option<real>>>, pair: BandPair, z: real)
    : (r: Result<seq<Option<real>>, IndexError>)
    ensures r.Success? <==> forall k :: 0 <= k < |composite| ==> pair.first in composite[k] && pair.second in composite[k]
    ensures r.Failure? ==> r.error == MissingBand(pair.first) || r.error == MissingBand(pair.second)
    ensures r.Success? ==> |r.value| == |composite|
    ensures r.Success? ==>
      forall k :: 0 <= k < |composite| ==> Ratio(composite[k], pair, z) == Success(r.value[k])
  {
    if composite == [] then Success([])
    else
      match Ratio(composite[0], pair, z)
      case Failure(e) => Failure(e)
      case Success(v) =>
        match IndexImage(composite[1..], pair, z)
        case Failure(e) => Failure(e)
        case Success(vs) =>
          assert forall k :: 1 <= k < |composite| ==> composite[k] == composite[1..][k - 1];
          Success([v] + vs)
  }

  // ---------------------------------------------------------------------
  // Classification

  /** `ratio.gt(threshold)` at one pixel. */
  function ClassA(index: Option<real>, t: real): (c: Option<bool>)
    ensures c.None? <==> index.None?
    ensures c.Some? ==> (c.value <==> index.value > t)
  {
    match index
    case None => None
    case Some(v) => Some(v > t)
  }

  /** `classA.mask(classA)` at one pixel: only class A stays unmasked. */
  function AreaMask(c: Option<bool>): (m: Option<bool>)
    ensures m.Some? <==> c == Some(true)
    ensures m.Some? ==> m.value
  {
    match c
    case Some(true) => Some(true)
    case _ => None
  }

  /** The classified and self-masked index image. */
  function ClassAArea(index: seq<Option<real>>, t: real): (r: seq<Option<bool>>)
    ensures |r| == |index|
    ensures forall k :: 0 <= k < |index| ==> r[k] == AreaMask(ClassA(index[k], t))
  {
    seq(|index|, k requires 0 <= k < |index| => AreaMask(ClassA(index[k], t)))
  }

  /** A pixel stays in the area exactly when it is unmasked and its index is above the threshold. */
  lemma InAreaIff(index: seq<Option<real>>, t: real, k: nat)
    requires k < |index|
    ensures ClassAArea(index, t)[k].Some? <==> index[k].Some? && index[k].value > t
  {
  }

  /** The comparison is strict: a pixel at the threshold is not in class A. */
  lemma ThresholdIsStrict(t: real)
    ensures ClassA(Some(t), t) == Some(false)
    ensures AreaMask(ClassA(Some(t), t)) == None
  {
  }

  /** Lowering the threshold keeps every pixel already in the area. */
  lemma AreaMonotone(index: seq<Option<real>>, t1: real, t2: real)
    requires t1 <= t2
    ensures forall k :: 0 <= k < |index| && ClassAArea(index, t2)[k].Some? ==> ClassAArea(index, t1)[k].Some?
  {
    forall k | 0 <= k < |index| && ClassAArea(index, t2)[k].Some?
      ensures ClassAArea(index, t1)[k].Some?
    {
      InAreaIff(index, t2, k);
      InAreaIff(index, t1, k);
    }
  }

  /** Masking the area by itself again changes nothing. */
  lemma SelfMaskIdempotent(c: Option<bool>)
    ensures AreaMask(AreaMask(c)) == AreaMask(c)
  {
  }

  /** The whole step: the Otsu threshold of the index histogram, then the area above it. */
  function ClassifyByOtsu(h: Otsu.Histogram, z: real, index: seq<Option<real>>): (r: Result<seq<Option<bool>>, Otsu.OtsuError>)
    requires Otsu.Paired(h)
    ensures r.Failure? <==> |h.means| == 0
    ensures r.Success? ==> |r.value| == |index|
    ensures r.Success? ==> exists t :: Otsu.IsOtsuThreshold(h, z, t) && r.value == ClassAArea(index, t)
  {
    match Otsu.Otsu(h, z)
    case Failure(e) => Failure(e)
    case Success(t) => Success(ClassAArea(index, t))
  }

  /**
   * With the histogram's mass in two buckets p < q, every pixel whose index
   * is at least the upper cluster's mean is in the area and every pixel at
   * most the lower cluster's mean is not.
   */
  lemma TwoClustersSeparated(h: Otsu.Histogram, z: real, p: nat, q: nat,
                               index: seq<Option<real>>, k: nat)
    requires Otsu.Paired(h) && Otsu.StrictlyAscending(h.means)
    requires p < q < |h.counts|
    requires h.counts[p] > 0 && h.counts[q] > 0
    requires forall j :: 0 <= j < |h.counts| && j != p && j != q ==> h.counts[j] == 0
    requires k < |index| && index[k].Some?
    ensures ClassifyByOtsu(h, z, index).Success?
    ensures index[k].value >= h.means[q] ==> ClassifyByOtsu(h, z, index).value[k] == Some(true)
    ensures index[k].value <= h.means[p] ==> ClassifyByOtsu(h, z, index).value[k] == None
  {
    var t := Otsu.Otsu(h, z).value;
    Otsu.TwoClusters(h, z, p, q, t);
    InAreaIff(index, t, k);
  }
}
