/** The payload every output format carries: the RGB332 code of each pixel of the
    image, in row-major order. */
module Payload {
  import opened Bytes
  import opened Color
  import opened Raster

  /** The codes of the first n pixels of a buffer, in scan order. */
  function Codes(s: seq<byte>, n: int): (codes: seq<byte>)
    requires 0 <= n && Components * n <= |s|
    ensures |codes| == n
  {
    if n == 0 then [] else Codes(s, n - 1) + [Encode(PixelAt(s, n - 1))]
  }

  /** Code k of the list is the code of pixel k. */
  lemma {:induction false} CodesAt(s: seq<byte>, n: int, k: int)
    requires 0 <= k < n && Components * n <= |s|
    ensures Codes(s, n)[k] == Encode(PixelAt(s, k))
  {
    if k < n - 1 {
      CodesAt(s, n - 1, k);
    }
  }
}
