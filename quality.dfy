/**
 * The cloud/quality mask (meancoastline.js:82-86).
 *
 * Each scene is joined with its `cfmask` band, whose value per pixel is a
 * class code: 0 clear, 1 water, 2 cloud shadow, 3 snow, 4 cloud (255 marks
 * fill). `applyMask` keeps a pixel only where the code is below 2.
 */
module Quality {

  datatype CfMaskClass = Clear | Water | Shadow | Snow | Cloud

  /** The class a cfmask code stands for; codes past 4 (fill) stand for none. */
  function ClassOf(code: nat): (c: CfMaskClass)
    requires code <= 4
  {
    match code
    case 0 => Clear
    case 1 => Water
    case 2 => Shadow
    case 3 => Snow
    case 4 => Cloud
  }

  /** A pixel of a scene joined with its cfmask band. */
  datatype Pixel = Pixel(bands: seq<real>, cfmask: nat, unmasked: bool)

  /** `image.select('cfmask').lt(2)` at one pixel. */
  predicate Keep(cfmask: nat) {
    cfmask < 2
  }

  /**
   * `image.updateMask(...)` at one pixel: a pixel already masked stays
   * masked, and the band values are not touched.
   */
  function ApplyMask(p: Pixel): (r: Pixel)
    ensures r.bands == p.bands && r.cfmask == p.cfmask
    ensures r.unmasked <==> p.unmasked && p.cfmask <= 4 && ClassOf(p.cfmask) in {Clear, Water}
  {
    p.(unmasked := p.unmasked && Keep(p.cfmask))
  }

  /** `applyMask` over a whole scene. */
  function MaskScene(scene: seq<Pixel>): (r: seq<Pixel>)
    ensures |r| == |scene|
    ensures forall k :: 0 <= k < |scene| ==> r[k] == ApplyMask(scene[k])
  {
    seq(|scene|, k requires 0 <= k < |scene| => ApplyMask(scene[k]))
  }

  /** Shadow, snow, cloud and fill pixels never survive the mask. */
  lemma ObscuredRemoved(p: Pixel)
    requires p.cfmask > 4 || ClassOf(p.cfmask) in {Shadow, Snow, Cloud}
    ensures !ApplyMask(p).unmasked
  {
  }

  /** Masking twice is masking once. */
  lemma MaskIdempotent(scene: seq<Pixel>)
    ensures MaskScene(MaskScene(scene)) == MaskScene(scene)
  {
  }
}
