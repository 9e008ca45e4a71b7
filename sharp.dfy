/**
 * The image library.
 *
 * The image library (`sharp`) is native code outside this model. It appears
 * here as a record of function values: whatever it does to pixels is left
 * uninterpreted, and the properties the callers rely on are stated as
 * predicates over those functions.
 */
module Sharp {

  import opened Wrappers
  import opened Buffers

  /** The `fit` option of `resize`. */
  datatype Fit = Inside | Fill

  /**
   * The calls this program makes on the image library, each one a pure
   * function of its inputs:
   * - `width(b)`: `sharp(b).metadata().width` (None when absent),
   * - `resize(b, w, h, fit)`: `sharp(b).resize(w, h, {fit}).toBuffer()`,
   * - `resizePng(b, w, h, fit)`: the same followed by `.png()`,
   * - `composite(base, over, top, left)`: `sharp(base).composite([{input: over, top, left}]).toBuffer()`,
   * - `toWebp(b)`: `sharp(b).toFormat('webp').toBuffer()`.
   */
  datatype Engine = Engine(
    width: Bytes -> Option<nat>,
    resize: (Bytes, int, int, Fit) -> NodeBuffer,
    resizePng: (Bytes, int, int, Fit) -> NodeBuffer,
    composite: (Bytes, Bytes, int, int) -> NodeBuffer,
    toWebp: Bytes -> NodeBuffer)

  /** The library hands back buffers whose views lie inside their backing stores. */
  ghost predicate BuffersWellFormed(sharp: Engine) {
    && (forall b, w, h, f :: sharp.resize(b, w, h, f).WellFormed())
    && (forall b :: sharp.toWebp(b).WellFormed())
  }

  /**
   * What `fit: 'inside'` promises: the image produced is no wider than the box,
   * as the library itself reports it.
   */
  ghost predicate FitsInside(sharp: Engine) {
    forall b, s: int :: 0 < s ==>
      var w := sharp.width(Detach(sharp.resize(b, s, s, Inside)));
      w.Some? && w.value <= s
  }

  /**
   * convertToWebp (server/utils/convertToWebp.ts): the library's webp encoding
   * of the input, detached from the library's buffer.
   */
  function ConvertToWebp(sharp: Engine, buffer: Bytes): (r: Bytes)
    ensures sharp.toWebp(buffer).WellFormed() ==> |r| == sharp.toWebp(buffer).byteLength
  {
    Detach(sharp.toWebp(buffer))
  }
}
