/** Bytes, and the Node `Buffer` views that the image library hands back. */
module Buffers {

  type Byte = x: int | 0 <= x < 256
  type Bytes = seq<Byte>

  /**
   * A Node `Buffer`: a view of `byteLength` bytes starting at `byteOffset`
   * inside a larger `ArrayBuffer` (`backing`).
   */
  datatype NodeBuffer = NodeBuffer(backing: Bytes, byteOffset: nat, byteLength: nat) {

    /** The view lies inside its backing store. */
    predicate WellFormed() {
      byteOffset + byteLength <= |backing|
    }
  }

  /** `ArrayBuffer.prototype.slice(start, end)`: both ends are clamped to the length. */
  function ArraySlice(b: Bytes, start: nat, end: nat): (r: Bytes)
    ensures |r| <= |b|
    ensures start <= end <= |b| ==> r == b[start..end]
    ensures end <= start ==> r == []
  {
    var s := if start <= |b| then start else |b|;
    var e := if end <= |b| then end else |b|;
    if s < e then b[s..e] else []
  }

  /**
   * `buf.buffer.slice(buf.byteOffset, buf.byteOffset + buf.byteLength)`: the
   * bytes a Node buffer views, copied into an `ArrayBuffer` of their own.
   */
  function Detach(buf: NodeBuffer): (r: Bytes)
    ensures buf.WellFormed() ==> |r| == buf.byteLength
    ensures buf.WellFormed() ==> forall i :: 0 <= i < |r| ==> r[i] == buf.backing[buf.byteOffset + i]
  {
    ArraySlice(buf.backing, buf.byteOffset, buf.byteOffset + buf.byteLength)
  }
}
