/** resizeImage (server/utils/resizeImage.ts): shrink-only resizing into a square box. */
module ResizeImage {

  import opened Wrappers
  import opened Buffers
  import opened Sharp

  /**
   * The width the guard compares against the box: the width the library
   * reports, or `size` itself when it reports none or zero (`width || size`).
   */
  function SourceWidth(sharp: Engine, buffer: Bytes, size: int): (w: int)
    ensures sharp.width(buffer).Some? && sharp.width(buffer).value != 0 ==> w == sharp.width(buffer).value
    ensures sharp.width(buffer) == None || sharp.width(buffer) == Some(0) ==> w == size
  {
    match sharp.width(buffer)
    case Some(w) => if w != 0 then w else size
    case None => size
  }

  /**
   * The image is only ever shrunk: when it is no wider than `size` the input
   * comes back unchanged; otherwise the library resizes it to fit inside a
   * `size` x `size` box and the bytes its buffer views are returned.
   */
  function Resize(sharp: Engine, buffer: Bytes, size: int): (r: Bytes)
    ensures SourceWidth(sharp, buffer, size) <= size ==> r == buffer
    ensures SourceWidth(sharp, buffer, size) > size ==>
      r == Detach(sharp.resize(buffer, size, size, Inside))
    ensures SourceWidth(sharp, buffer, size) > size && BuffersWellFormed(sharp) ==>
      |r| == sharp.resize(buffer, size, size, Inside).byteLength
  {
    if SourceWidth(sharp, buffer, size) <= size then buffer
    else Detach(sharp.resize(buffer, size, size, Inside))
  }

  /** An image whose width is unknown or zero is never resized. */
  lemma UnknownWidthUnchanged(sharp: Engine, buffer: Bytes, size: int)
    requires sharp.width(buffer) == None || sharp.width(buffer) == Some(0)
    ensures Resize(sharp, buffer, size) == buffer
  {
  }

  /**
   * Resizing twice to the same box is resizing once: whatever the first call
   * returns already fits, so the second call hands it back unchanged.
   */
  lemma ResizeIdempotent(sharp: Engine, buffer: Bytes, size: int)
    requires FitsInside(sharp)
    requires 0 < size
    ensures Resize(sharp, Resize(sharp, buffer, size), size) == Resize(sharp, buffer, size)
  {
    var once := Resize(sharp, buffer, size);
    if SourceWidth(sharp, buffer, size) > size {
      var w := sharp.width(Detach(sharp.resize(buffer, size, size, Inside)));
      assert w.Some? && w.value <= size;
      assert SourceWidth(sharp, once, size) <= size;
    }
  }
}
