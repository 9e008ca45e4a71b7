/** applyOverlay (server/utils/overlayImage.ts): a badge drawn in the top-left corner. */
module OverlayImage {

  import opened Wrappers
  import opened Buffers
  import opened Sharp

  /** The width assumed when the library reports none (or zero). */
  const DefaultBaseWidth: nat := 64
  /** The smallest overlay side. */
  const MinOverlaySide: nat := 16

  /** Where the overlay of a given kind is looked up. */
  function OverlayPath(overlayType: string): string {
    "./overlays/" + overlayType + ".png"
  }

  /** `metadata.width || 64`. */
  function BaseWidth(sharp: Engine, base: Bytes): (w: nat)
    ensures w > 0
    ensures sharp.width(base).Some? && sharp.width(base).value != 0 ==> w == sharp.width(base).value
    ensures sharp.width(base) == None || sharp.width(base) == Some(0) ==> w == DefaultBaseWidth
  {
    match sharp.width(base)
    case Some(w) => if w != 0 then w else DefaultBaseWidth
    case None => DefaultBaseWidth
  }

  /**
   * The side of the square the overlay is scaled to: a quarter of the base
   * width, rounded down, but never below 16.
   */
  function OverlaySide(baseWidth: nat): (side: nat)
    ensures side >= MinOverlaySide
    ensures side == MinOverlaySide || 4 * side <= baseWidth < 4 * (side + 1)
  {
    if baseWidth / 4 < MinOverlaySide then MinOverlaySide else baseWidth / 4
  }

  /** The overlay side never shrinks as the base grows. */
  lemma {:induction false} OverlaySideMonotone(a: nat, b: nat)
    requires a <= b
    ensures OverlaySide(a) <= OverlaySide(b)
  {
    assert a / 4 <= b / 4;
  }

  /** From a 64-pixel base upwards the side is exactly a quarter of the width, rounded down. */
  lemma QuarterFromDefaultWidth(baseWidth: nat)
    requires baseWidth >= DefaultBaseWidth
    ensures 4 * OverlaySide(baseWidth) <= baseWidth < 4 * (OverlaySide(baseWidth) + 1)
  {
  }

  /** A base whose width is unknown or zero gets a 16-pixel overlay. */
  lemma DefaultWidthSide(sharp: Engine, base: Bytes)
    requires sharp.width(base) == None || sharp.width(base) == Some(0)
    ensures OverlaySide(BaseWidth(sharp, base)) == MinOverlaySide
  {
  }

  /**
   * Draws `./overlays/{overlayType}.png` over the top-left corner of the base.
   * A missing overlay file is not an error: the base comes back unchanged.
   * Otherwise the overlay is stretched (`fill`) to a side x side square, encoded
   * as PNG and composited at top 0, left 0; the result is the whole backing
   * store of the library's output buffer (`result.buffer`), not a slice of it.
   */
  function ApplyOverlay(sharp: Engine, overlays: map<string, Bytes>, base: Bytes, overlayType: string): (r: Bytes)
    ensures OverlayPath(overlayType) !in overlays ==> r == base
    ensures OverlayPath(overlayType) in overlays ==>
      var side := OverlaySide(BaseWidth(sharp, base));
      var badge := Detach(sharp.resizePng(overlays[OverlayPath(overlayType)], side, side, Fill));
      r == sharp.composite(base, badge, 0, 0).backing
  {
    var path := OverlayPath(overlayType);
    if path !in overlays then base
    else
      var side := OverlaySide(BaseWidth(sharp, base));
      var badge := Detach(sharp.resizePng(overlays[path], side, side, Fill));
      sharp.composite(base, badge, 0, 0).backing
  }

  /**
   * When the library's output buffer covers its whole backing store, returning
   * `result.buffer` is the same as returning the bytes the buffer views.
   */
  lemma WholeBufferIsView(buf: NodeBuffer)
    requires buf.byteOffset == 0 && buf.byteLength == |buf.backing|
    ensures Detach(buf) == buf.backing
  {
  }
}
