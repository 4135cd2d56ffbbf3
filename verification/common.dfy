/** Small shared vocabulary: optional values, bytes and MongoDB object ids. */
module Common {

  /** A value that may be absent; stands for JavaScript's `null`/`undefined`. */
  datatype Option<+T> = None | Some(value: T)

  /** An octet, as produced by `crypto.randomBytes` and held in a `Buffer`. */
  newtype byte = x: int | 0 <= x < 256

  /** A MongoDB ObjectId: twelve bytes, unique within a collection. */
  type ObjectId = s: seq<byte> | |s| == 12 witness [0, 0, 0, 0, 0, 0, 0, 0, 0, 0, 0, 0]
}
