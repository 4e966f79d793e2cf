/** Bytes, and the bytes of a text. */
module Octets {
  type Byte = b: int | 0 <= b < 256
  type Bytes = seq<Byte>

  /** A C string's bytes; its characters are single bytes. */
  function OctetsOf(s: string): (r: Bytes)
    ensures |r| == |s| && forall i | 0 <= i < |s| :: r[i] == s[i] as int % 256
  {
    seq(|s|, i requires 0 <= i < |s| => s[i] as int % 256)
  }
}
