/**
 * `TJCompressor`: one native compressor handle, the checks every compress
 * overload runs before the codec is entered, the ownership of the buffer the
 * codec allocates, and the disposal state machine.
 *
 * The codec is not modelled; what `tjInitCompress`, `tjCompress2`,
 * `tjGetErrorStr` and a user callback give back are parameters, and every
 * native call is appended to the ghost log `calls`.
 */
module Compressor {
  import opened Wrappers
  import opened Codec

  /** `CheckOptionsCompatibilityAndThrow`: a grayscale source must be
      compressed with grayscale subsampling; every other pair is accepted. */
  function CheckOptionsCompatibility(subsamp: Subsampling, pixelFormat: PixelFormat): (r: Outcome<TJError>)
    ensures r.Fail? <==> pixelFormat == TJPF_GRAY && subsamp != TJSAMP_GRAY
    ensures r.Fail? ==> r.error == NotSupported(GrayMessage)
  {
    if pixelFormat == TJPF_GRAY && subsamp != TJSAMP_GRAY then Fail(NotSupported(GrayMessage)) else Pass
  }

  const GrayMessage := "Subsampling differ from TJSAMP_GRAY for pixel format TJPF_GRAY is not supported"

  /** The arguments passed through to `tjCompress2`. */
  datatype CompressArgs = CompressArgs(
    src: Source, stride: int, width: int, height: int,
    pixelFormat: PixelFormat, subsamp: Subsampling, quality: int, flags: int)

  /** What `tjCompress2` gives back: its return code and, through its `ref`
      parameters, the address and size of the JPEG it allocated, with the
      bytes found there. */
  datatype CompressReply = CompressReply(result: int, buf: Ptr, bufSize: nat, bytes: seq<byte>)

  /** The codec's side of the contract: a successful call leaves at least
      `bufSize` bytes at `buf`, and at most `Int32Max` of them. */
  predicate ValidReply(reply: CompressReply)
  {
    reply.result != -1 ==> reply.bufSize <= |reply.bytes| && reply.bufSize <= Int32Max
  }

  /** What a user callback does when invoked. */
  datatype CallbackBehaviour = Returns | Throws(message: string)

  /** Where the compressed bytes go: copied into a new array and returned
      (the two `byte[] Compress` overloads), or handed to a callback named
      `paramName` that may be null (`None`). */
  datatype Sink = ReturnArray | Callback(paramName: string, callback: Option<CallbackBehaviour>)

  /** The value of a successful call. */
  datatype Output = Bytes(data: seq<byte>) | Delivered

  /** The outcome of one compress call and the native calls it made. */
  datatype Run = Run(result: Result<Output, TJError>, calls: seq<CodecCall>)

  /** The native part of a compress call, once every check has passed. */
  function NativeRun(handle: Ptr, sink: Sink, args: CompressArgs, reply: CompressReply, lastError: string): Run
    requires ValidReply(reply)
    requires sink.Callback? ==> sink.callback.Some?
  {
    var compress := [TjCompress2(handle, args.src, args.width, args.stride, args.height,
                                 args.pixelFormat, args.subsamp, args.quality, args.flags)];
    if reply.result == -1 then
      Run(Failure(TJException(lastError)), compress + [TjGetErrorStr, TjFree(reply.buf)])
    else match sink
      case ReturnArray =>
        Run(Success(Bytes(reply.bytes[..reply.bufSize])), compress + [TjFree(reply.buf)])
      case Callback(_, callback) =>
        var delivered := compress + [UserCallback(reply.buf, reply.bufSize)] + [TjFree(reply.buf)];
        match callback.value
        case Returns => Run(Success(Delivered), delivered)
        case Throws(message) => Run(Failure(CallbackFailed(message)), delivered)
  }

  /** Every compress overload: the disposed check, then (callback overloads)
      the null-callback check, then the options check, then the codec. */
  function CompressRun(handle: Ptr, isDisposed: bool, sink: Sink, args: CompressArgs,
                       reply: CompressReply, lastError: string): Run
    requires ValidReply(reply)
  {
    if isDisposed then Run(Failure(ObjectDisposed("this")), [])
    else if sink.Callback? && sink.callback.None? then Run(Failure(ArgumentNull(sink.paramName)), [])
    else
      var check := CheckOptionsCompatibility(args.subsamp, args.pixelFormat);
      if check.Fail? then Run(Failure(check.error), [])
      else NativeRun(handle, sink, args, reply, lastError)
  }

  /** The checks come in a fixed order and each failure happens before any
      native call: a disposed compressor fails first whatever the arguments,
      a null callback next whatever the options, an incompatible pair last. */
  lemma ChecksPrecedeNativeCalls(handle: Ptr, isDisposed: bool, sink: Sink, args: CompressArgs,
                                 reply: CompressReply, lastError: string)
    requires ValidReply(reply)
    ensures var run := CompressRun(handle, isDisposed, sink, args, reply, lastError);
            && (isDisposed ==> run == Run(Failure(ObjectDisposed("this")), []))
            && (!isDisposed && sink.Callback? && sink.callback.None? ==>
                  run == Run(Failure(ArgumentNull(sink.paramName)), []))
            && (!isDisposed && !(sink.Callback? && sink.callback.None?) &&
                args.pixelFormat == TJPF_GRAY && args.subsamp != TJSAMP_GRAY ==>
                  run == Run(Failure(NotSupported(GrayMessage)), []))
            && (run.calls == [] <==>
                  isDisposed || (sink.Callback? && sink.callback.None?) ||
                  (args.pixelFormat == TJPF_GRAY && args.subsamp != TJSAMP_GRAY))
  {
  }

  /** Once the codec has been entered, the buffer it reports is freed on every
      outcome, exactly once, as the last native call; the codec is entered
      exactly once, first. */
  lemma NativeBufferAlwaysFreed(handle: Ptr, isDisposed: bool, sink: Sink, args: CompressArgs,
                                reply: CompressReply, lastError: string)
    requires ValidReply(reply)
    ensures var calls := CompressRun(handle, isDisposed, sink, args, reply, lastError).calls;
            calls != [] ==>
              && calls[0].TjCompress2? && calls[|calls| - 1] == TjFree(reply.buf)
              && (forall i :: 0 < i < |calls| ==> !calls[i].TjCompress2?)
              && (forall i :: 0 <= i < |calls| - 1 ==> !calls[i].TjFree?)
              && Destroys(calls) == 0
  {
    var calls := CompressRun(handle, isDisposed, sink, args, reply, lastError).calls;
    if calls != [] {
      NoDestroys(calls);
    }
  }

  /** A codec failure (-1) raises the codec's last error and reaches neither
      the copy nor the callback; otherwise the array overloads return exactly
      the `bufSize` bytes the codec wrote, and the callback overloads pass it
      the codec's buffer and size. */
  lemma NativeOutcome(handle: Ptr, sink: Sink, args: CompressArgs, reply: CompressReply, lastError: string)
    requires ValidReply(reply)
    requires !(sink.Callback? && sink.callback.None?)
    requires !(args.pixelFormat == TJPF_GRAY && args.subsamp != TJSAMP_GRAY)
    ensures var run := CompressRun(handle, false, sink, args, reply, lastError);
            && (reply.result == -1 ==>
                  run.result == Failure(TJException(lastError)) &&
                  forall i :: 0 <= i < |run.calls| ==> !run.calls[i].UserCallback?)
            && (reply.result != -1 && sink.ReturnArray? ==>
                  run.result.Success? && run.result.value.Bytes? &&
                  |run.result.value.data| == reply.bufSize &&
                  forall i :: 0 <= i < reply.bufSize ==> run.result.value.data[i] == reply.bytes[i])
            && (reply.result != -1 && sink.Callback? ==>
                  UserCallback(reply.buf, reply.bufSize) in run.calls &&
                  (run.result.Success? <==> sink.callback.value == Returns))
  {
    var run := CompressRun(handle, false, sink, args, reply, lastError);
    if reply.result != -1 && sink.Callback? {
      assert run.calls[1] == UserCallback(reply.buf, reply.bufSize);
    }
  }

  /** `TJCompressor`: the handle from `tjInitCompress`, `_isDisposed`, and the
      two facts about it the runtime keeps: whether `GC.SuppressFinalize` was
      called and whether the finalizer has run. */
  class TJCompressor {
    const handle: Ptr
    var isDisposed: bool
    var finalizerSuppressed: bool
    var finalized: bool
    ghost var calls: seq<CodecCall>

    /** The handle is destroyed once when disposed or finalized and never
        otherwise; disposal and finalization exclude each other. */
    ghost predicate Valid()
      reads this
    {
      && Destroys(calls) == (if isDisposed || finalized then 1 else 0)
      && finalizerSuppressed == isDisposed
      && !(isDisposed && finalized)
    }

    constructor Init(handle: Ptr)
      requires handle != 0
      ensures this.handle == handle && !isDisposed && !finalizerSuppressed && !finalized
      ensures calls == [TjInitCompress]
      ensures Valid()
    {
      this.handle := handle;
      isDisposed := false;
      finalizerSuppressed := false;
      finalized := false;
      calls := [TjInitCompress];
    }

    /** The constructor: `tjInitCompress` gives `initHandle`; a zero handle
        raises the codec's last error. */
    static method Create(initHandle: Ptr, lastError: string) returns (r: Result<TJCompressor, TJError>)
      ensures r.Failure? <==> initHandle == 0
      ensures r.Failure? ==> r.error == TJException(lastError)
      ensures r.Success? ==> fresh(r.value) && r.value.handle == initHandle && r.value.Valid()
      ensures r.Success? ==> !r.value.isDisposed && r.value.calls == [TjInitCompress]
    {
      if initHandle == 0 {
        return Failure(TJException(lastError));
      }
      var c := new TJCompressor.Init(initHandle);
      return Success(c);
    }

    /** `Marshal.Copy(buf, jpegBuf, 0, bufSize)` into a new array. */
    static method CopyFromNative(bytes: seq<byte>, size: nat) returns (jpegBuf: array<byte>)
      requires size <= |bytes|
      ensures fresh(jpegBuf)
      ensures jpegBuf[..] == bytes[..size]
    {
      jpegBuf := new byte[size];
      var i := 0;
      while i < size
        invariant 0 <= i <= size
        invariant jpegBuf[..i] == bytes[..i]
      {
        jpegBuf[i] := bytes[i];
        i := i + 1;
      }
    }

    /** The `try`/`finally` part of the array overloads: call the codec,
        raise its error on -1, otherwise copy its bytes out; free its buffer
        in every case. */
    method NativeToArray(args: CompressArgs, reply: CompressReply, lastError: string)
      returns (r: Result<array<byte>, TJError>)
      requires ValidReply(reply)
      modifies this`calls
      ensures var run := NativeRun(handle, ReturnArray, args, reply, lastError);
              && (r.Failure? <==> run.result.Failure?)
              && (r.Failure? ==> r.error == run.result.error)
              && (r.Success? ==> fresh(r.value) && run.result.value == Bytes(r.value[..]))
              && calls == old(calls) + run.calls
    {
      var compress := TjCompress2(handle, args.src, args.width, args.stride, args.height,
                                  args.pixelFormat, args.subsamp, args.quality, args.flags);
      if reply.result == -1 {
        calls := calls + [compress, TjGetErrorStr, TjFree(reply.buf)];
        return Failure(TJException(lastError));
      }
      var jpegBuf := CopyFromNative(reply.bytes, reply.bufSize);
      calls := calls + [compress, TjFree(reply.buf)];
      return Success(jpegBuf);
    }

    /** The two overloads that return the JPEG as a new array. */
    method CompressToArray(args: CompressArgs, reply: CompressReply, lastError: string)
      returns (r: Result<array<byte>, TJError>)
      requires ValidReply(reply) && Valid()
      modifies this`calls
      ensures var run := CompressRun(handle, isDisposed, ReturnArray, args, reply, lastError);
              && (r.Failure? <==> run.result.Failure?)
              && (r.Failure? ==> r.error == run.result.error)
              && (r.Success? ==> fresh(r.value) && run.result.value == Bytes(r.value[..]))
              && calls == old(calls) + run.calls
      ensures Valid()
    {
      if isDisposed {
        return Failure(ObjectDisposed("this"));
      }
      var check := CheckOptionsCompatibility(args.subsamp, args.pixelFormat);
      if check.Fail? {
        return Failure(check.error);
      }
      r := NativeToArray(args, reply, lastError);
      KeepsDestroyCount(old(calls), ReturnArray, args, reply, lastError);
    }

    /** The `try`/`finally` part of the callback overloads: call the codec,
        raise its error on -1, otherwise invoke the callback; free the
        codec's buffer in every case, including a throwing callback. */
    method NativeToCallback(args: CompressArgs, paramName: string, callback: CallbackBehaviour,
                            reply: CompressReply, lastError: string)
      returns (r: Outcome<TJError>)
      requires ValidReply(reply)
      modifies this`calls
      ensures var run := NativeRun(handle, Callback(paramName, Some(callback)), args, reply, lastError);
              && (r.Pass? <==> run.result.Success?)
              && (r.Fail? ==> r.error == run.result.error)
              && calls == old(calls) + run.calls
    {
      var compress := TjCompress2(handle, args.src, args.width, args.stride, args.height,
                                  args.pixelFormat, args.subsamp, args.quality, args.flags);
      if reply.result == -1 {
        calls := calls + [compress, TjGetErrorStr, TjFree(reply.buf)];
        return Fail(TJException(lastError));
      }
      calls := calls + [compress, UserCallback(reply.buf, reply.bufSize)];
      r := match callback
        case Returns => Pass
        case Throws(message) => Fail(CallbackFailed(message));
      calls := calls + [TjFree(reply.buf)];
    }

    /** The three overloads that hand the codec's buffer to a callback. */
    method CompressToCallback(args: CompressArgs, paramName: string, callback: Option<CallbackBehaviour>,
                              reply: CompressReply, lastError: string)
      returns (r: Outcome<TJError>)
      requires ValidReply(reply) && Valid()
      modifies this`calls
      ensures var run := CompressRun(handle, isDisposed, Callback(paramName, callback), args, reply, lastError);
              && (r.Pass? <==> run.result.Success?)
              && (r.Fail? ==> r.error == run.result.error)
              && calls == old(calls) + run.calls
      ensures Valid()
    {
      if isDisposed {
        return Fail(ObjectDisposed("this"));
      }
      if callback.None? {
        return Fail(ArgumentNull(paramName));
      }
      var check := CheckOptionsCompatibility(args.subsamp, args.pixelFormat);
      if check.Fail? {
        return check;
      }
      r := NativeToCallback(args, paramName, callback.value, reply, lastError);
      KeepsDestroyCount(old(calls), Callback(paramName, callback), args, reply, lastError);
    }

    /** A compress call leaves the number of `tjDestroy` calls as it was. */
    lemma KeepsDestroyCount(before: seq<CodecCall>, sink: Sink, args: CompressArgs,
                            reply: CompressReply, lastError: string)
      requires ValidReply(reply)
      ensures Destroys(before + CompressRun(handle, isDisposed, sink, args, reply, lastError).calls) == Destroys(before)
    {
      var run := CompressRun(handle, isDisposed, sink, args, reply, lastError);
      NativeBufferAlwaysFreed(handle, isDisposed, sink, args, reply, lastError);
      DestroysAppend(before, run.calls);
    }

    /** `byte[] Compress(IntPtr srcPtr, ...)`. */
    method Compress(srcPtr: Ptr, stride: int, width: int, height: int, pixelFormat: PixelFormat,
                    subSamp: Subsampling, quality: int, flags: int, reply: CompressReply, lastError: string)
      returns (r: Result<array<byte>, TJError>)
      requires ValidReply(reply) && Valid()
      modifies this`calls
      ensures var run := CompressRun(handle, isDisposed, ReturnArray,
                                     CompressArgs(Address(srcPtr), stride, width, height, pixelFormat, subSamp, quality, flags),
                                     reply, lastError);
              && (r.Failure? <==> run.result.Failure?)
              && (r.Failure? ==> r.error == run.result.error)
              && (r.Success? ==> fresh(r.value) && run.result.value == Bytes(r.value[..]))
              && calls == old(calls) + run.calls
      ensures Valid()
    {
      r := CompressToArray(CompressArgs(Address(srcPtr), stride, width, height, pixelFormat, subSamp, quality, flags),
                           reply, lastError);
    }

    /** `byte[] Compress(byte[] srcBuf, ...)`: the array is pinned for the call. */
    method CompressArray(srcBuf: Option<seq<byte>>, stride: int, width: int, height: int, pixelFormat: PixelFormat,
                         subSamp: Subsampling, quality: int, flags: int, reply: CompressReply, lastError: string)
      returns (r: Result<array<byte>, TJError>)
      requires ValidReply(reply) && Valid()
      modifies this`calls
      ensures var run := CompressRun(handle, isDisposed, ReturnArray,
                                     CompressArgs(Pin(srcBuf), stride, width, height, pixelFormat, subSamp, quality, flags),
                                     reply, lastError);
              && (r.Failure? <==> run.result.Failure?)
              && (r.Failure? ==> r.error == run.result.error)
              && (r.Success? ==> fresh(r.value) && run.result.value == Bytes(r.value[..]))
              && calls == old(calls) + run.calls
      ensures Valid()
    {
      r := CompressToArray(CompressArgs(Pin(srcBuf), stride, width, height, pixelFormat, subSamp, quality, flags),
                           reply, lastError);
    }

    /** `Compress(..., Action<IntPtr, int> onCompressionCompleted)`. */
    method CompressWithAction(srcPtr: Ptr, stride: int, width: int, height: int, pixelFormat: PixelFormat,
                              subSamp: Subsampling, quality: int, flags: int,
                              onCompressionCompleted: Option<CallbackBehaviour>,
                              reply: CompressReply, lastError: string)
      returns (r: Outcome<TJError>)
      requires ValidReply(reply) && Valid()
      modifies this`calls
      ensures var run := CompressRun(handle, isDisposed, Callback("onCompressionCompleted", onCompressionCompleted),
                                     CompressArgs(Address(srcPtr), stride, width, height, pixelFormat, subSamp, quality, flags),
                                     reply, lastError);
              && (r.Pass? <==> run.result.Success?)
              && (r.Fail? ==> r.error == run.result.error)
              && calls == old(calls) + run.calls
      ensures Valid()
    {
      r := CompressToCallback(CompressArgs(Address(srcPtr), stride, width, height, pixelFormat, subSamp, quality, flags),
                              "onCompressionCompleted", onCompressionCompleted, reply, lastError);
    }

    /** `Compress(..., TJCompressionComplete onCompressionCompleted, object state)`;
        the state object is passed through to the callback untouched. */
    method CompressWithState(srcPtr: Ptr, stride: int, width: int, height: int, pixelFormat: PixelFormat,
                             subSamp: Subsampling, quality: int, flags: int,
                             onCompressionCompleted: Option<CallbackBehaviour>,
                             reply: CompressReply, lastError: string)
      returns (r: Outcome<TJError>)
      requires ValidReply(reply) && Valid()
      modifies this`calls
      ensures var run := CompressRun(handle, isDisposed, Callback("onCompressionCompleted", onCompressionCompleted),
                                     CompressArgs(Address(srcPtr), stride, width, height, pixelFormat, subSamp, quality, flags),
                                     reply, lastError);
              && (r.Pass? <==> run.result.Success?)
              && (r.Fail? ==> r.error == run.result.error)
              && calls == old(calls) + run.calls
      ensures Valid()
    {
      r := CompressToCallback(CompressArgs(Address(srcPtr), stride, width, height, pixelFormat, subSamp, quality, flags),
                              "onCompressionCompleted", onCompressionCompleted, reply, lastError);
    }

    /** `CompressAsync(..., onAsyncCompressionCompleted, state, cancellationToken)`,
        with the awaited callback treated as a call that returns or throws. */
    method CompressAsync(srcPtr: Ptr, stride: int, width: int, height: int, pixelFormat: PixelFormat,
                         subSamp: Subsampling, quality: int, flags: int,
                         onAsyncCompressionCompleted: Option<CallbackBehaviour>,
                         reply: CompressReply, lastError: string)
      returns (r: Outcome<TJError>)
      requires ValidReply(reply) && Valid()
      modifies this`calls
      ensures var run := CompressRun(handle, isDisposed, Callback("onAsyncCompressionCompleted", onAsyncCompressionCompleted),
                                     CompressArgs(Address(srcPtr), stride, width, height, pixelFormat, subSamp, quality, flags),
                                     reply, lastError);
              && (r.Pass? <==> run.result.Success?)
              && (r.Fail? ==> r.error == run.result.error)
              && calls == old(calls) + run.calls
      ensures Valid()
    {
      r := CompressToCallback(CompressArgs(Address(srcPtr), stride, width, height, pixelFormat, subSamp, quality, flags),
                              "onAsyncCompressionCompleted", onAsyncCompressionCompleted, reply, lastError);
    }

    /** `Dispose(bool callFromUserCode)`: only a call from user code marks the
        object disposed; the handle is destroyed either way. */
    method Release(callFromUserCode: bool)
      modifies this`isDisposed, this`calls
      ensures isDisposed == (old(isDisposed) || callFromUserCode)
      ensures calls == old(calls) + [TjDestroy(handle)]
    {
      if callFromUserCode {
        isDisposed := true;
      }
      calls := calls + [TjDestroy(handle)];
    }

    /** `Dispose()`: the first call destroys the handle and suppresses the
        finalizer; later calls do nothing. */
    method Dispose()
      requires Valid() && !finalized
      modifies this`isDisposed, this`finalizerSuppressed, this`calls
      ensures Valid() && isDisposed && finalizerSuppressed
      ensures Destroys(calls) == 1
      ensures old(isDisposed) ==> calls == old(calls)
      ensures !old(isDisposed) ==> calls == old(calls) + [TjDestroy(handle)]
    {
      if isDisposed {
        return;
      }
      Release(true);
      finalizerSuppressed := true;
      DestroysAppend(old(calls), [TjDestroy(handle)]);
    }

    /** `~TJCompressor()`: run by the runtime at most once, and never after
        `GC.SuppressFinalize`; it destroys the handle without marking the
        object disposed. */
    method Finalize()
      requires Valid() && !finalizerSuppressed && !finalized
      modifies this`finalized, this`isDisposed, this`calls
      ensures Valid() && finalized && !isDisposed
      ensures Destroys(calls) == 1
      ensures calls == old(calls) + [TjDestroy(handle)]
    {
      finalized := true;
      Release(false);
      DestroysAppend(old(calls), [TjDestroy(handle)]);
    }
  }
}
