/**
 * `TJDecompressor`: one native decompressor handle, the header-then-body
 * protocol of a decompression, the sizing of the output buffer, the
 * overloads that delegate to one another, and the disposal state machine.
 *
 * What `tjInitDecompress`, `tjDecompressHeader`, `tjDecompress` and
 * `tjGetErrorStr` give back are parameters; `TurboJpegImport.PixelSizes` and
 * `TJPAD` are an `Abi` value. Every native call is appended to the ghost log
 * `calls`.
 */
module Decompressor {
  import opened Wrappers
  import opened Codec
  import opened Image

  /** The tables the wrapper takes from `TurboJpegImport`: bytes per pixel
      for each format, and the row padding `TJPAD` (an `int` function). */
  datatype Abi = Abi(pixelSizes: map<PixelFormat, int>, pad: int -> int)

  /** What `tjDecompressHeader` gives back: its return code and, through its
      `out` parameters, the image's width and height. */
  datatype HeaderReply = HeaderReply(result: int, width: int, height: int)

  /** What `tjDecompress` gives back: its return code and the bytes it writes
      from the start of the destination buffer. */
  datatype DecompressReply = DecompressReply(result: int, pixels: seq<byte>)

  /** `stride = TJPAD(width * PixelSizes[format])`, the product in unchecked
      `int` arithmetic. */
  function Stride(abi: Abi, width: int, pixelFormat: PixelFormat): (stride: int)
    requires pixelFormat in abi.pixelSizes
    ensures IsInt32(stride)
  {
    Wrap32(abi.pad(Wrap32(width * abi.pixelSizes[pixelFormat])))
  }

  /** The length of the output buffer as the wrapper computes it: `stride *
      height` in unchecked `int` arithmetic. A negative value makes `new
      byte[...]` throw; a wrapped positive one allocates a buffer shorter than
      the `stride * height` bytes the codec writes. */
  function BufferLengthAsWritten(stride: int, height: int): (n: int)
    ensures IsInt32(n)
    ensures IsInt32(stride * height) ==> n == stride * height
  {
    Wrap32(stride * height)
  }

  /** The wrapped product can be positive and far smaller than the image:
      a 49152-pixel-wide 4-byte-per-pixel image 43691 rows high needs
      8590000128 bytes and gets a 65536-byte buffer. */
  lemma WrappedLengthTooShort()
    ensures var n := BufferLengthAsWritten(196608, 43691);
            0 <= n && n == 65536 && n < 196608 * 43691 && 196608 * 43691 == 8590000128
  {
  }

  /** The output length with `checked` arithmetic: the exact `stride *
      height` when it is a valid array length, otherwise an overflow. */
  function BufferLength(stride: int, height: int): (n: Option<nat>)
    ensures n.Some? <==> 0 <= stride * height <= Int32Max
    ensures n.Some? ==> n.value == stride * height
  {
    var product := stride * height;
    if 0 <= product <= Int32Max then Some(product) else None
  }

  /** Whenever the checked length exists it is the one the unchecked code
      computes; the two differ only where the unchecked one is wrong. */
  lemma CheckedLengthAgreesWhenInRange(stride: int, height: int)
    ensures BufferLength(stride, height).Some? ==>
              BufferLength(stride, height).value == BufferLengthAsWritten(stride, height)
    ensures BufferLength(stride, height).None? && BufferLengthAsWritten(stride, height) >= 0 ==>
              BufferLengthAsWritten(stride, height) != stride * height
  {
  }

  /** A zeroed buffer of length `n` after the codec wrote `pixels` into it. */
  function Filled(pixels: seq<byte>, n: nat): (buf: seq<byte>)
    ensures |buf| == n
    ensures forall i :: 0 <= i < n && i < |pixels| ==> buf[i] == pixels[i]
    ensures forall i :: |pixels| <= i < n ==> buf[i] == 0
  {
    seq(n, i requires 0 <= i < n => if i < |pixels| then pixels[i] else 0)
  }

  /** A successful decompression: the pixels and the `out` parameters. */
  datatype Decoded = Decoded(data: seq<byte>, width: int, height: int, stride: int)

  /** The outcome of one decompress call and the native calls it made. */
  datatype DecodeRun = DecodeRun(result: Result<Decoded, TJError>, calls: seq<CodecCall>)

  /** `Decompress(IntPtr jpegBuf, ulong jpegBufSize, ..., out width, out height, out stride)`:
      the header is read first and a failure there raises the codec's error;
      the output buffer is sized from the header and the pixel format and
      filled by `tjDecompress`, whose failure also raises the codec's error. */
  function DecompressRun(handle: Ptr, isDisposed: bool, jpeg: Source, jpegSize: nat,
                         pixelFormat: PixelFormat, flags: int, abi: Abi,
                         header: HeaderReply, reply: DecompressReply, lastError: string): DecodeRun
  {
    if isDisposed then DecodeRun(Failure(ObjectDisposed("this")), [])
    else
      var readHeader := [TjDecompressHeader(handle, jpeg, jpegSize)];
      if header.result == -1 then DecodeRun(Failure(TJException(lastError)), readHeader + [TjGetErrorStr])
      else if pixelFormat !in abi.pixelSizes then DecodeRun(Failure(KeyNotFound), readHeader)
      else
        var stride := Stride(abi, header.width, pixelFormat);
        match BufferLength(stride, header.height)
        case None => DecodeRun(Failure(Overflow), readHeader)
        case Some(n) =>
          var decompress := readHeader +
            [TjDecompress(handle, jpeg, jpegSize, header.width, stride, header.height, pixelFormat, flags)];
          if reply.result == -1 then DecodeRun(Failure(TJException(lastError)), decompress + [TjGetErrorStr])
          else DecodeRun(Success(Decoded(Filled(reply.pixels, n), header.width, header.height, stride)), decompress)
  }

  /** The pointer overload as the source computes the buffer length: the
      unchecked product, where a negative length makes `new byte[...]` throw
      and any other length is allocated and handed to `tjDecompress`. */
  function DecompressRunAsWritten(handle: Ptr, isDisposed: bool, jpeg: Source, jpegSize: nat,
                                  pixelFormat: PixelFormat, flags: int, abi: Abi,
                                  header: HeaderReply, reply: DecompressReply, lastError: string): DecodeRun
  {
    if isDisposed then DecodeRun(Failure(ObjectDisposed("this")), [])
    else
      var readHeader := [TjDecompressHeader(handle, jpeg, jpegSize)];
      if header.result == -1 then DecodeRun(Failure(TJException(lastError)), readHeader + [TjGetErrorStr])
      else if pixelFormat !in abi.pixelSizes then DecodeRun(Failure(KeyNotFound), readHeader)
      else
        var stride := Stride(abi, header.width, pixelFormat);
        var n := BufferLengthAsWritten(stride, header.height);
        if n < 0 then DecodeRun(Failure(Overflow), readHeader)
        else
          var decompress := readHeader +
            [TjDecompress(handle, jpeg, jpegSize, header.width, stride, header.height, pixelFormat, flags)];
          if reply.result == -1 then DecodeRun(Failure(TJException(lastError)), decompress + [TjGetErrorStr])
          else DecodeRun(Success(Decoded(Filled(reply.pixels, n), header.width, header.height, stride)), decompress)
  }

  /** On the large image of `WrappedLengthTooShort` (4 bytes per pixel, no
      padding needed), the source hands `tjDecompress` a 65536-byte buffer
      for an image of `stride * height` bytes and reports success; the
      corrected length raises an overflow before `tjDecompress` is called. */
  lemma ShortBufferHandedToCodec(handle: Ptr, jpeg: Source, jpegSize: nat, flags: int, reply: DecompressReply, lastError: string)
    requires reply.result != -1
    ensures var abi := Abi(map[TJPF_RGBX := 4], x => x);
            var header := HeaderReply(0, 49152, 43691);
            var run := DecompressRunAsWritten(handle, false, jpeg, jpegSize, TJPF_RGBX, flags, abi, header, reply, lastError);
            var corrected := DecompressRun(handle, false, jpeg, jpegSize, TJPF_RGBX, flags, abi, header, reply, lastError);
            && run.result.Success?
            && run.result.value.stride == 196608 && run.result.value.height == 43691
            && |run.result.value.data| == 65536 < run.result.value.stride * run.result.value.height
            && run.calls[1] == TjDecompress(handle, jpeg, jpegSize, 49152, 196608, 43691, TJPF_RGBX, flags)
            && corrected == DecodeRun(Failure(Overflow), [TjDecompressHeader(handle, jpeg, jpegSize)])
  {
    var abi := Abi(map[TJPF_RGBX := 4], x => x);
    assert Stride(abi, 49152, TJPF_RGBX) == 196608;
    WrappedLengthTooShort();
  }

  /** The two runs differ only where the unchecked length is wrong: when
      `stride * height` is a valid array length they are the same run. */
  lemma AsWrittenAgreesWhenInRange(handle: Ptr, isDisposed: bool, jpeg: Source, jpegSize: nat,
                                   pixelFormat: PixelFormat, flags: int, abi: Abi,
                                   header: HeaderReply, reply: DecompressReply, lastError: string)
    requires pixelFormat in abi.pixelSizes ==>
               BufferLength(Stride(abi, header.width, pixelFormat), header.height).Some?
    ensures DecompressRunAsWritten(handle, isDisposed, jpeg, jpegSize, pixelFormat, flags, abi, header, reply, lastError) ==
            DecompressRun(handle, isDisposed, jpeg, jpegSize, pixelFormat, flags, abi, header, reply, lastError)
  {
    if pixelFormat in abi.pixelSizes {
      CheckedLengthAgreesWhenInRange(Stride(abi, header.width, pixelFormat), header.height);
    }
  }

  /** The `byte[]` overloads: the disposed check, then `jpegBuf.Length` (a
      null array throws), then the pointer overload on the pinned array and
      its length. */
  function DecompressArrayRun(handle: Ptr, isDisposed: bool, jpegBuf: Option<seq<byte>>,
                              pixelFormat: PixelFormat, flags: int, abi: Abi,
                              header: HeaderReply, reply: DecompressReply, lastError: string): DecodeRun
  {
    if isDisposed then DecodeRun(Failure(ObjectDisposed("this")), [])
    else if jpegBuf.None? then DecodeRun(Failure(NullReference), [])
    else DecompressRun(handle, false, Pin(jpegBuf), |jpegBuf.value|, pixelFormat, flags, abi, header, reply, lastError)
  }

  /** A disposed decompressor fails before any native call, and so does a
      null array; a non-null array gives what the pointer overload gives on
      its pinned address and length. */
  lemma ArrayOverloadsDelegate(handle: Ptr, isDisposed: bool, jpegBuf: Option<seq<byte>>,
                               pixelFormat: PixelFormat, flags: int, abi: Abi,
                               header: HeaderReply, reply: DecompressReply, lastError: string)
    ensures var run := DecompressArrayRun(handle, isDisposed, jpegBuf, pixelFormat, flags, abi, header, reply, lastError);
            && (isDisposed ==> run == DecodeRun(Failure(ObjectDisposed("this")), []))
            && (!isDisposed && jpegBuf.None? ==> run == DecodeRun(Failure(NullReference), []))
            && (jpegBuf.Some? ==>
                  run == DecompressRun(handle, isDisposed, Pin(jpegBuf), |jpegBuf.value|,
                                       pixelFormat, flags, abi, header, reply, lastError))
            && (jpegBuf.Some? && jpegBuf.value == [] ==> run.calls == [] || run.calls[0].jpeg == Address(0))
  {
  }

  /** The protocol: a disposed decompressor makes no native call; the
      header is always read first; a header failure raises the codec's error
      before any buffer is sized or `tjDecompress` is called; `tjDecompress`
      is called at most once, and only after the header succeeded. */
  lemma HeaderComesFirst(handle: Ptr, isDisposed: bool, jpeg: Source, jpegSize: nat,
                         pixelFormat: PixelFormat, flags: int, abi: Abi,
                         header: HeaderReply, reply: DecompressReply, lastError: string)
    ensures var run := DecompressRun(handle, isDisposed, jpeg, jpegSize, pixelFormat, flags, abi, header, reply, lastError);
            && (isDisposed <==> run.calls == [])
            && (!isDisposed ==> run.calls[0] == TjDecompressHeader(handle, jpeg, jpegSize))
            && (!isDisposed && header.result == -1 ==>
                  run == DecodeRun(Failure(TJException(lastError)), [TjDecompressHeader(handle, jpeg, jpegSize), TjGetErrorStr]))
            && (forall i :: 0 <= i < |run.calls| && run.calls[i].TjDecompress? ==> i == 1 && header.result != -1)
            && Destroys(run.calls) == 0
  {
    var run := DecompressRun(handle, isDisposed, jpeg, jpegSize, pixelFormat, flags, abi, header, reply, lastError);
    NoDestroys(run.calls);
  }

  /** A successful decompression reports the header's dimensions and the
      padded stride of the requested format, and returns a buffer of exactly
      `stride * height` bytes holding what the codec wrote; `tjDecompress`
      was told the same stride. A `tjDecompress` failure raises the codec's error. */
  lemma OutputSizing(handle: Ptr, jpeg: Source, jpegSize: nat,
                     pixelFormat: PixelFormat, flags: int, abi: Abi,
                     header: HeaderReply, reply: DecompressReply, lastError: string)
    ensures var run := DecompressRun(handle, false, jpeg, jpegSize, pixelFormat, flags, abi, header, reply, lastError);
            run.result.Success? ==>
              var d := run.result.value;
              && pixelFormat in abi.pixelSizes
              && d.width == header.width && d.height == header.height
              && d.stride == Wrap32(abi.pad(Wrap32(header.width * abi.pixelSizes[pixelFormat])))
              && |d.data| == d.stride * d.height
              && (forall i :: 0 <= i < |d.data| && i < |reply.pixels| ==> d.data[i] == reply.pixels[i])
              && run.calls[1] == TjDecompress(handle, jpeg, jpegSize, d.width, d.stride, d.height, pixelFormat, flags)
    ensures var run := DecompressRun(handle, false, jpeg, jpegSize, pixelFormat, flags, abi, header, reply, lastError);
            header.result != -1 && pixelFormat in abi.pixelSizes &&
            BufferLength(Stride(abi, header.width, pixelFormat), header.height).Some? ==>
              (run.result.Failure? <==> reply.result == -1) &&
              (reply.result == -1 ==> run.result.error == TJException(lastError))
  {
  }

  /** `TJDecompressor`: the handle from `tjInitDecompress`, `_isDisposed`,
      and whether the finalizer was suppressed or has run. */
  class TJDecompressor {
    const handle: Ptr
    var isDisposed: bool
    var finalizerSuppressed: bool
    var finalized: bool
    ghost var calls: seq<CodecCall>

    /** The handle is destroyed once when disposed or finalized and never
        otherwise; disposal and finalization exclude each other. */
    ghost predicate Valid()
      reads this
    {
      && Destroys(calls) == (if isDisposed || finalized then 1 else 0)
      && finalizerSuppressed == isDisposed
      && !(isDisposed && finalized)
    }

    constructor Init(handle: Ptr)
      requires handle != 0
      ensures this.handle == handle && !isDisposed && !finalizerSuppressed && !finalized
      ensures calls == [TjInitDecompress]
      ensures Valid()
    {
      this.handle := handle;
      isDisposed := false;
      finalizerSuppressed := false;
      finalized := false;
      calls := [TjInitDecompress];
    }

    /** The constructor: `tjInitDecompress` gives `initHandle`; a zero handle
        raises the codec's last error. */
    static method Create(initHandle: Ptr, lastError: string) returns (r: Result<TJDecompressor, TJError>)
      ensures r.Failure? <==> initHandle == 0
      ensures r.Failure? ==> r.error == TJException(lastError)
      ensures r.Success? ==> fresh(r.value) && r.value.handle == initHandle && r.value.Valid()
      ensures r.Success? ==> !r.value.isDisposed && r.value.calls == [TjInitDecompress]
    {
      if initHandle == 0 {
        return Failure(TJException(lastError));
      }
      var d := new TJDecompressor.Init(initHandle);
      return Success(d);
    }

    /** `tjDecompress` writing `pixels` from the start of `buf`. */
    static method NativeFill(buf: array<byte>, pixels: seq<byte>)
      requires forall i :: 0 <= i < buf.Length ==> buf[i] == 0
      modifies buf
      ensures buf[..] == Filled(pixels, buf.Length)
    {
      var i := 0;
      while i < buf.Length && i < |pixels|
        invariant 0 <= i <= buf.Length && i <= |pixels|
        invariant forall j :: 0 <= j < i ==> buf[j] == pixels[j]
        invariant forall j :: i <= j < buf.Length ==> buf[j] == 0
      {
        buf[i] := pixels[i];
        i := i + 1;
      }
      assert forall j :: 0 <= j < buf.Length ==> buf[j] == Filled(pixels, buf.Length)[j];
    }

    /** The native part of the pointer overload, after the disposed check:
        read the header, size and allocate the buffer, decompress into it. */
    method ReadAndDecompress(jpeg: Source, jpegSize: nat, pixelFormat: PixelFormat, flags: int, abi: Abi,
                             header: HeaderReply, reply: DecompressReply, lastError: string)
      returns (r: Result<array<byte>, TJError>, width: int, height: int, stride: int)
      modifies this`calls
      ensures var run := DecompressRun(handle, false, jpeg, jpegSize, pixelFormat, flags, abi, header, reply, lastError);
              && (r.Failure? <==> run.result.Failure?)
              && (r.Failure? ==> r.error == run.result.error)
              && (r.Success? ==> fresh(r.value) && run.result.value == Decoded(r.value[..], width, height, stride))
              && calls == old(calls) + run.calls
    {
      var readHeader := TjDecompressHeader(handle, jpeg, jpegSize);
      width, height, stride := header.width, header.height, 0;
      if header.result == -1 {
        calls := calls + [readHeader, TjGetErrorStr];
        return Failure(TJException(lastError)), width, height, stride;
      }
      if pixelFormat !in abi.pixelSizes {
        calls := calls + [readHeader];
        return Failure(KeyNotFound), width, height, stride;
      }
      stride := Stride(abi, width, pixelFormat);
      var bufSize := BufferLength(stride, height);
      if bufSize.None? {
        calls := calls + [readHeader];
        return Failure(Overflow), width, height, stride;
      }
      var buf := new byte[bufSize.value](_ => 0);
      calls := calls + [readHeader, TjDecompress(handle, jpeg, jpegSize, width, stride, height, pixelFormat, flags)];
      if reply.result == -1 {
        calls := calls + [TjGetErrorStr];
        return Failure(TJException(lastError)), width, height, stride;
      }
      NativeFill(buf, reply.pixels);
      return Success(buf), width, height, stride;
    }

    /** The body shared by the pointer overload and, through it, every other. */
    method DecompressFrom(jpeg: Source, jpegSize: nat, pixelFormat: PixelFormat, flags: int, abi: Abi,
                          header: HeaderReply, reply: DecompressReply, lastError: string)
      returns (r: Result<array<byte>, TJError>, width: int, height: int, stride: int)
      requires Valid()
      modifies this`calls
      ensures var run := DecompressRun(handle, isDisposed, jpeg, jpegSize, pixelFormat, flags, abi, header, reply, lastError);
              && (r.Failure? <==> run.result.Failure?)
              && (r.Failure? ==> r.error == run.result.error)
              && (r.Success? ==> fresh(r.value) && run.result.value == Decoded(r.value[..], width, height, stride))
              && calls == old(calls) + run.calls
      ensures Valid()
    {
      if isDisposed {
        return Failure(ObjectDisposed("this")), 0, 0, 0;
      }
      r, width, height, stride := ReadAndDecompress(jpeg, jpegSize, pixelFormat, flags, abi, header, reply, lastError);
      HeaderComesFirst(handle, false, jpeg, jpegSize, pixelFormat, flags, abi, header, reply, lastError);
      DestroysAppend(old(calls), DecompressRun(handle, false, jpeg, jpegSize, pixelFormat, flags, abi, header, reply, lastError).calls);
    }

    /** `byte[] Decompress(IntPtr jpegBuf, ulong jpegBufSize, ..., out width, out height, out stride)`. */
    method Decompress(jpegBuf: Ptr, jpegBufSize: nat, destPixelFormat: PixelFormat, flags: int, abi: Abi,
                      header: HeaderReply, reply: DecompressReply, lastError: string)
      returns (r: Result<array<byte>, TJError>, width: int, height: int, stride: int)
      requires Valid()
      modifies this`calls
      ensures var run := DecompressRun(handle, isDisposed, Address(jpegBuf), jpegBufSize, destPixelFormat, flags,
                                       abi, header, reply, lastError);
              && (r.Failure? <==> run.result.Failure?)
              && (r.Failure? ==> r.error == run.result.error)
              && (r.Success? ==> fresh(r.value) && run.result.value == Decoded(r.value[..], width, height, stride))
              && calls == old(calls) + run.calls
      ensures Valid()
    {
      r, width, height, stride := DecompressFrom(Address(jpegBuf), jpegBufSize, destPixelFormat, flags,
                                                 abi, header, reply, lastError);
    }

    /** `byte[] Decompress(byte[] jpegBuf, ..., out width, out height, out stride)`. */
    method DecompressArray(jpegBuf: Option<seq<byte>>, destPixelFormat: PixelFormat, flags: int, abi: Abi,
                           header: HeaderReply, reply: DecompressReply, lastError: string)
      returns (r: Result<array<byte>, TJError>, width: int, height: int, stride: int)
      requires Valid()
      modifies this`calls
      ensures var run := DecompressArrayRun(handle, isDisposed, jpegBuf, destPixelFormat, flags,
                                            abi, header, reply, lastError);
              && (r.Failure? <==> run.result.Failure?)
              && (r.Failure? ==> r.error == run.result.error)
              && (r.Success? ==> fresh(r.value) && run.result.value == Decoded(r.value[..], width, height, stride))
              && calls == old(calls) + run.calls
      ensures Valid()
    {
      width, height, stride := 0, 0, 0;
      if isDisposed {
        return Failure(ObjectDisposed("this")), width, height, stride;
      }
      if jpegBuf.None? {
        return Failure(NullReference), width, height, stride;
      }
      var jpegBufSize := |jpegBuf.value|;
      r, width, height, stride := DecompressFrom(Pin(jpegBuf), jpegBufSize, destPixelFormat, flags,
                                                 abi, header, reply, lastError);
    }

    /** `DecompressedImage Decompress(IntPtr jpegBuf, ulong jpegBufSize, ...)`:
        the image carries the inner call's dimensions, stride and buffer, and
        the requested format. */
    method DecompressImage(jpegBuf: Ptr, jpegBufSize: nat, destPixelFormat: PixelFormat, flags: int, abi: Abi,
                           header: HeaderReply, reply: DecompressReply, lastError: string)
      returns (r: Result<DecompressedImage, TJError>)
      requires Valid()
      modifies this`calls
      ensures var run := DecompressRun(handle, isDisposed, Address(jpegBuf), jpegBufSize, destPixelFormat, flags,
                                       abi, header, reply, lastError);
              && (r.Failure? <==> run.result.Failure?)
              && (r.Failure? ==> r.error == run.result.error)
              && (r.Success? ==>
                    && fresh(r.value) && fresh(r.value.data)
                    && run.result.value == Decoded(r.value.data[..], r.value.width, r.value.height, r.value.rowBytes)
                    && r.value.pixelFormat == destPixelFormat)
              && calls == old(calls) + run.calls
      ensures Valid()
    {
      if isDisposed {
        return Failure(ObjectDisposed("this"));
      }
      var buffer, width, height, stride := Decompress(jpegBuf, jpegBufSize, destPixelFormat, flags,
                                                      abi, header, reply, lastError);
      if buffer.Failure? {
        return Failure(buffer.error);
      }
      var image := new DecompressedImage(width, height, stride, buffer.value, destPixelFormat);
      return Success(image);
    }

    /** `DecompressedImage Decompress(byte[] jpegBuf, ...)`. */
    method DecompressArrayImage(jpegBuf: Option<seq<byte>>, destPixelFormat: PixelFormat, flags: int, abi: Abi,
                                header: HeaderReply, reply: DecompressReply, lastError: string)
      returns (r: Result<DecompressedImage, TJError>)
      requires Valid()
      modifies this`calls
      ensures var run := DecompressArrayRun(handle, isDisposed, jpegBuf, destPixelFormat, flags,
                                            abi, header, reply, lastError);
              && (r.Failure? <==> run.result.Failure?)
              && (r.Failure? ==> r.error == run.result.error)
              && (r.Success? ==>
                    && fresh(r.value) && fresh(r.value.data)
                    && run.result.value == Decoded(r.value.data[..], r.value.width, r.value.height, r.value.rowBytes)
                    && r.value.pixelFormat == destPixelFormat)
              && calls == old(calls) + run.calls
      ensures Valid()
    {
      if isDisposed {
        return Failure(ObjectDisposed("this"));
      }
      if jpegBuf.None? {
        return Failure(NullReference);
      }
      var jpegBufSize := |jpegBuf.value|;
      var buffer, width, height, stride := DecompressFrom(Pin(jpegBuf), jpegBufSize, destPixelFormat, flags,
                                                          abi, header, reply, lastError);
      if buffer.Failure? {
        return Failure(buffer.error);
      }
      var image := new DecompressedImage(width, height, stride, buffer.value, destPixelFormat);
      return Success(image);
    }

    /** `Dispose(bool callFromUserCode)`: only a call from user code marks the
        object disposed; the handle is destroyed either way. */
    method Release(callFromUserCode: bool)
      modifies this`isDisposed, this`calls
      ensures isDisposed == (old(isDisposed) || callFromUserCode)
      ensures calls == old(calls) + [TjDestroy(handle)]
    {
      if callFromUserCode {
        isDisposed := true;
      }
      calls := calls + [TjDestroy(handle)];
    }

    /** `Dispose()`: the first call destroys the handle and suppresses the
        finalizer; later calls do nothing. */
    method Dispose()
      requires Valid() && !finalized
      modifies this`isDisposed, this`finalizerSuppressed, this`calls
      ensures Valid() && isDisposed && finalizerSuppressed
      ensures Destroys(calls) == 1
      ensures old(isDisposed) ==> calls == old(calls)
      ensures !old(isDisposed) ==> calls == old(calls) + [TjDestroy(handle)]
    {
      if isDisposed {
        return;
      }
      Release(true);
      finalizerSuppressed := true;
      DestroysAppend(old(calls), [TjDestroy(handle)]);
    }

    /** `~TJDecompressor()`: run by the runtime at most once, and never after
        `GC.SuppressFinalize`; it destroys the handle without marking the
        object disposed. */
    method Finalize()
      requires Valid() && !finalizerSuppressed && !finalized
      modifies this`finalized, this`isDisposed, this`calls
      ensures Valid() && finalized && !isDisposed
      ensures Destroys(calls) == 1
      ensures calls == old(calls) + [TjDestroy(handle)]
    {
      finalized := true;
      Release(false);
      DestroysAppend(old(calls), [TjDestroy(handle)]);
    }
  }
}
