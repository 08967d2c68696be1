/**
 * Sensor band harmonisation (meancoastline.js:18-25, 47).
 *
 * Every Landsat generation stores its bands in its own native order. The
 * script keeps, for each sensor key, seven native band indices and selects
 * those bands under the seven canonical names, so that scenes of all four
 * generations can be merged into one collection.
 */
module Bands {
  import opened Wrappers

  /** The four Landsat generations the script merges (`possibleSensors`). */
  datatype Sensor = L4 | L5 | L7 | L8

  datatype BandError =
    | UnsupportedSensor(key: string)
    | BandCountMismatch
    | BandIndexOutOfRange

  /** One band of an image: its name and its pixel data. */
  datatype Band<P> = Band(name: string, pixels: P)

  /** `bandNames`: the canonical band list, in this order. */
  const CanonicalNames: seq<string> := ["blue", "green", "red", "nir", "swir1", "temp", "swir2"]

  /** `sensor_band_dict`: native band indices per sensor key. */
  const SensorBandDict: map<string, seq<nat>> := map[
    "L8" := [1, 2, 3, 4, 5, 9, 6],
    "L7" := [0, 1, 2, 3, 4, 5, 7],
    "L5" := [0, 1, 2, 3, 4, 5, 6],
    "L4" := [0, 1, 2, 3, 4, 5, 6]
  ]

  /** The key under which the script names a sensor. */
  function Key(s: Sensor): string {
    match s
    case L4 => "L4"
    case L5 => "L5"
    case L7 => "L7"
    case L8 => "L8"
  }

  /** The seven native indices of a known sensor. */
  function NativeIndices(s: Sensor): seq<nat> {
    SensorBandDict[Key(s)]
  }

  /**
   * The number of native bands a scene of sensor `s` must have for every
   * index of its table entry to exist (one more than its largest index).
   */
  function NativeBandsNeeded(s: Sensor): nat {
    match s
    case L4 => 7
    case L5 => 7
    case L7 => 8
    case L8 => 10
  }

  function Names<P>(img: seq<Band<P>>): (r: seq<string>)
    ensures |r| == |img| && forall j :: 0 <= j < |img| ==> r[j] == img[j].name
  {
    seq(|img|, j requires 0 <= j < |img| => img[j].name)
  }

  /** The dictionary knows exactly the keys of the four sensors. */
  lemma KnownKeys(key: string)
    ensures key in SensorBandDict <==> exists s: Sensor :: Key(s) == key
  {
    if key in SensorBandDict {
      assert key == "L4" || key == "L5" || key == "L7" || key == "L8";
      if key == "L4" { assert Key(L4) == key; }
      else if key == "L5" { assert Key(L5) == key; }
      else if key == "L7" { assert Key(L7) == key; }
      else { assert Key(L8) == key; }
    }
  }

  /**
   * Each table entry has seven distinct native indices: no two canonical
   * bands share a source band. NativeBandsNeeded is the number of native
   * bands the entry needs, one more than its largest index.
   */
  lemma IndicesDistinct(s: Sensor)
    ensures |NativeIndices(s)| == |CanonicalNames| == 7
    ensures forall i, j :: 0 <= i < j < 7 ==> NativeIndices(s)[i] != NativeIndices(s)[j]
    ensures forall j :: 0 <= j < 7 ==> NativeIndices(s)[j] < NativeBandsNeeded(s)
    ensures exists j :: 0 <= j < 7 && NativeIndices(s)[j] + 1 == NativeBandsNeeded(s)
  {
    var top := if s == L8 then 5 else 6;
    assert NativeIndices(s)[top] + 1 == NativeBandsNeeded(s);
  }

  /** L4 and L5 scenes are already in canonical order. */
  lemma OlderSensorsIdentity(s: Sensor)
    requires s == L4 || s == L5
    ensures forall j :: 0 <= j < 7 ==> NativeIndices(s)[j] == j
  {
  }

  /**
   * Every index of a sensor's entry exists in a scene of `n` bands exactly
   * when `n` is at least the number of native bands the entry needs.
   */
  lemma SelectableIff(n: nat)
    ensures forall s: Sensor ::
      (forall j :: 0 <= j < |NativeIndices(s)| ==> NativeIndices(s)[j] < n) <==> n >= NativeBandsNeeded(s)
  {
    forall s: Sensor
      ensures (forall j :: 0 <= j < |NativeIndices(s)| ==> NativeIndices(s)[j] < n) <==> n >= NativeBandsNeeded(s)
    {
      var top := if s == L8 then 5 else 6;
      assert NativeIndices(s)[top] + 1 == NativeBandsNeeded(s);
    }
  }

  /**
   * `image.select(indices, names)`: the bands at `indices`, in that order,
   * renamed to `names`. Mismatched lists or an index past the image's last
   * band are errors.
   */
  function Select<P>(img: seq<Band<P>>, indices: seq<nat>, names: seq<string>): (r: Result<seq<Band<P>>, BandError>)
    ensures |indices| != |names| ==> r == Failure(BandCountMismatch)
    ensures |indices| == |names| ==>
      (r.Success? <==> forall j :: 0 <= j < |indices| ==> indices[j] < |img|)
    ensures r.Failure? && |indices| == |names| ==> r.error == BandIndexOutOfRange
    ensures r.Success? ==>
      |r.value| == |names| &&
      forall j :: 0 <= j < |names| ==> r.value[j] == Band(names[j], img[indices[j]].pixels)
  {
    if |indices| != |names| then Failure(BandCountMismatch)
    else if forall j :: 0 <= j < |indices| ==> indices[j] < |img| then
      Success(seq(|names|, j requires 0 <= j < |names| => Band(names[j], img[indices[j]].pixels)))
    else Failure(BandIndexOutOfRange)
  }

  /**
   * `ls.select(sensor_band_dict.get(sensor), bandNames)` for one scene of the
   * sensor with key `key`.
   */
  function Harmonise<P>(key: string, img: seq<Band<P>>): (r: Result<seq<Band<P>>, BandError>)
    ensures key !in SensorBandDict ==> r == Failure(UnsupportedSensor(key))
    ensures forall s: Sensor :: key == Key(s) ==>
      (r.Success? <==> |img| >= NativeBandsNeeded(s)) &&
      (r.Failure? ==> r.error == BandIndexOutOfRange) &&
      (r.Success? ==>
        Names(r.value) == CanonicalNames &&
        forall j :: 0 <= j < 7 ==> r.value[j].pixels == img[NativeIndices(s)[j]].pixels)
  {
    if key !in SensorBandDict then Failure(UnsupportedSensor(key))
    else
      SelectableIff(|img|);
      Select(img, SensorBandDict[key], CanonicalNames)
  }

  /** Harmonisation fails only for an unknown key or a scene with too few bands. */
  lemma HarmoniseTotal<P>(s: Sensor, img: seq<Band<P>>)
    requires |img| >= NativeBandsNeeded(s)
    ensures Harmonise(Key(s), img).Success?
    ensures |Harmonise(Key(s), img).value| == 7
  {
  }

  /** Two scenes that agree on the selected native bands harmonise alike. */
  lemma HarmoniseReadsOnlySelected<P>(s: Sensor, a: seq<Band<P>>, b: seq<Band<P>>)
    requires |a| >= NativeBandsNeeded(s) && |b| >= NativeBandsNeeded(s)
    requires forall j :: 0 <= j < 7 ==> a[NativeIndices(s)[j]].pixels == b[NativeIndices(s)[j]].pixels
    ensures Harmonise(Key(s), a) == Harmonise(Key(s), b)
  {
    var ra, rb := Harmonise(Key(s), a).value, Harmonise(Key(s), b).value;
    assert |ra| == |rb| == 7;
    forall j | 0 <= j < 7 ensures ra[j] == rb[j] {
      assert ra[j].name == Names(ra)[j] == CanonicalNames[j] == Names(rb)[j] == rb[j].name;
    }
    assert ra == rb;
  }
}
