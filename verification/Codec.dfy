/**
 * What the codec wrappers share: the ABI enumerations, managed bytes and
 * native pointers, the errors the wrappers raise, the calls they make into
 * the native codec (recorded in a ghost log), and C#'s unchecked 32-bit
 * integer arithmetic.
 */
module Codec {
  import opened Wrappers

  /** A managed or native byte. */
  type byte = x: int | 0 <= x < 0x100

  /** A native address; 0 is `IntPtr.Zero`. */
  type Ptr = nat

  const Int32Min := -0x8000_0000
  const Int32Max := 0x7FFF_FFFF

  predicate IsInt32(x: int)
  {
    Int32Min <= x <= Int32Max
  }

  /** C#'s unchecked `int` arithmetic: the result is the one 32-bit two's
      complement value congruent to `x` modulo 2^32. */
  function Wrap32(x: int): (r: int)
    ensures IsInt32(r)
    ensures (x - r) % 0x1_0000_0000 == 0
    ensures IsInt32(x) ==> r == x
  {
    var m := x % 0x1_0000_0000;
    if m <= Int32Max then m else m - 0x1_0000_0000
  }

  /** `TJPixelFormats`. */
  datatype PixelFormat =
    | TJPF_RGB | TJPF_BGR | TJPF_RGBX | TJPF_BGRX | TJPF_XBGR | TJPF_XRGB
    | TJPF_GRAY | TJPF_RGBA | TJPF_BGRA | TJPF_ABGR | TJPF_ARGB | TJPF_CMYK

  /** `TJSubsamplingOptions`. */
  datatype Subsampling = TJSAMP_444 | TJSAMP_422 | TJSAMP_420 | TJSAMP_GRAY | TJSAMP_440 | TJSAMP_411

  /** The exceptions the wrappers raise. */
  datatype TJError =
    | ObjectDisposed(objectName: string)
    | ArgumentNull(paramName: string)
    | NotSupported(message: string)
    /** `TJUtils.GetErrorAndThrow`: the codec's last-error text. */
    | TJException(message: string)
    /** `checked` arithmetic or a negative array length. */
    | Overflow
    /** A pixel format missing from the pixel-size table. */
    | KeyNotFound
    /** `.Length` of a null array. */
    | NullReference
    /** A user callback threw. */
    | CallbackFailed(message: string)

  /** The input image handed to the codec: an address, or a managed array
      pinned for the duration of the call. */
  datatype Source = Address(ptr: Ptr) | PinnedArray(data: seq<byte>)

  /** `fixed (byte* p = managed)`: a null or empty array pins to a null pointer. */
  function Pin(managed: Option<seq<byte>>): (src: Source)
    ensures src == Address(0) <==> managed.None? || managed.value == []
    ensures src.PinnedArray? ==> managed == Some(src.data)
  {
    if managed.None? || managed.value == [] then Address(0) else PinnedArray(managed.value)
  }

  /** The native calls the wrappers make. */
  datatype CodecCall =
    | TjInitCompress
    | TjInitDecompress
    | TjCompress2(handle: Ptr, src: Source, width: int, stride: int, height: int,
                  pixelFormat: PixelFormat, subsamp: Subsampling, quality: int, flags: int)
    | TjFree(buf: Ptr)
    | TjDestroy(handle: Ptr)
    | TjGetErrorStr
    | TjDecompressHeader(handle: Ptr, jpeg: Source, jpegSize: nat)
    | TjDecompress(handle: Ptr, jpeg: Source, jpegSize: nat, width: int, stride: int, height: int,
                   pixelFormat: PixelFormat, flags: int)
    | UserCallback(buf: Ptr, size: int)

  /** The number of `tjDestroy` calls in a log. */
  function Destroys(calls: seq<CodecCall>): (n: nat)
    ensures n <= |calls|
    decreases |calls|
  {
    if calls == [] then 0
    else Destroys(calls[..|calls| - 1]) + (if calls[|calls| - 1].TjDestroy? then 1 else 0)
  }

  /** Counting distributes over concatenation. */
  lemma {:induction false} DestroysAppend(a: seq<CodecCall>, b: seq<CodecCall>)
    ensures Destroys(a + b) == Destroys(a) + Destroys(b)
    decreases |b|
  {
    if b != [] {
      var init := b[..|b| - 1];
      assert (a + b)[..|a + b| - 1] == a + init;
      var last := b[|b| - 1];
      var tally := if last.TjDestroy? then 1 else 0;
      assert (a + b)[|a + b| - 1] == last;
      DestroysAppend(a, init);
      assert Destroys(b) == Destroys(init) + tally;
      assert Destroys(a + b) == Destroys(a + init) + tally;
    } else {
      assert a + b == a;
    }
  }

  /** A log with no `tjDestroy` in it counts none. */
  lemma {:induction false} NoDestroys(calls: seq<CodecCall>)
    requires forall i :: 0 <= i < |calls| ==> !calls[i].TjDestroy?
    ensures Destroys(calls) == 0
    decreases |calls|
  {
    if calls != [] {
      NoDestroys(calls[..|calls| - 1]);
    }
  }
}
