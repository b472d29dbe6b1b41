# libjpeg-turbo-net: the managed layer, modelled in Dafny

libjpeg-turbo-net is a C# binding over the native libjpeg-turbo codec. All JPEG
encoding and decoding happens inside the native library. The managed side
decides everything else:

- **Loading the library.** `NativeModulesLoader` keeps a process-wide override
  folder and a registry that maps module names to OS handles. It searches
  folders for the library and releases the handles again.
- **Initializing.** `TJInitializer` chooses the folder and the library file
  name, and points the loader at that folder for the duration of the load.
- **Platform.** `Platform` names the architecture and decides the operating
  system once.
- **Compressing.** `TJCompressor` checks its arguments before entering the
  codec, and frees the buffer the codec returns.
- **Decompressing.** `TJDecompressor` reads the JPEG header, sizes the output
  buffer and has the codec fill it.
- **Disposal.** Both codec wrappers own one native handle. They destroy it
  through `Dispose` or the finalizer.

This project models that management logic. The outside world is made of
values passed in as parameters:

- **Host.** The file system and the OS loader are a `Host` value: the existing
  directories and files, how each directory lists its subdirectories, and
  which handle `dlopen` / `LoadLibraryEx` gives for a path.
- **Replies.** Each native codec entry point is a reply value: what
  `tjCompress2`, `tjDecompressHeader` and `tjDecompress` return, and the codec's
  last-error text.
- **Call logs.** Every call into the OS or the codec is appended to a ghost log
  (`osCalls`, `calls`). This lets "every module is attempted", "the buffer is
  always freed" and "the handle is destroyed exactly once" be stated as facts
  about the log.

The model is organized in modules:

- `Wrappers`: `Option`, `Result` and `Outcome`.
- `Platform`: `GetPlatformName` and the operating-system decision of the static
  constructor, for each compilation target.
- `Loader`: the registry, the override and the search.
  - A set of functions (`Plan`, `Attempt`, `Search`, `LoadModules`,
    `ReleaseCalls`) specifies what the loader does, and lemmas prove its
    properties.
  - The class `NativeModulesLoader` holds the mutable state: `_nativePath`,
    `LoadedLibraries`, the current directory and the OS call log.
  - Its methods are the source's loops. Each is proved equal to the
    specification functions.
- `Initializer`: the class `TJInitializer`, with `_isInitialized` and the
  library-name switch.
- `Codec`: what the two codec wrappers share.
  - The pixel-format and subsampling enumerations.
  - The exceptions, modelled as error values.
  - The native call log and the count of `tjDestroy` calls in it.
  - C#'s unchecked 32-bit arithmetic.
- `Compressor`: the class `TJCompressor`.
  - Every compress overload is specified by `CompressRun`.
  - The class invariant `Valid()` ties the number of `tjDestroy` calls to the
    disposal state.
- `Image`: the class `DecompressedImage`, whose get-only properties are
  constant fields.
- `Decompressor`: the class `TJDecompressor`.
  - Every decompress overload is specified by `DecompressRun` or
    `DecompressArrayRun`.
  - It has the same disposal invariant as the compressor.

**Disposal invariant.** The `Valid()` predicate of the two codec wrappers says
four things:

- The log holds exactly one `tjDestroy` once the object is disposed or
  finalized, and none before.
- `GC.SuppressFinalize` has been called exactly when the object is disposed.
- An object is never both disposed and finalized.
- `Dispose` keeps the invariant and is idempotent. The finalizer also keeps it,
  but it may run only when it has not been suppressed. So the handle is
  destroyed at most once overall.

## Model

| member | source | states |
|---|---|---|
| Platform.PlatformName | libjpeg-turbo-net/Platform.cs:85-96 | "x86" exactly for pointer size 4, "x64" exactly for 8, "Unknown" for every other size; total, nothing thrown |
| Platform.DetectNet45 | libjpeg-turbo-net/Platform.cs:20-56 | MacOS iff PlatformID is MacOSX, or is Unix/128 and `uname` succeeded with "Darwin"; Windows iff the id is none of MacOSX, 4, 128; a failing or throwing probe never gives MacOS |
| Platform.DetectNetStandard13 | libjpeg-turbo-net/Platform.cs:57-70 | OSX wins over Linux, Linux over Windows, each as an if-and-only-if |
| Platform.OperationSystem | libjpeg-turbo-net/Platform.cs:18-77 | the set-once property is never IOS, Android or WindowsPhone, whatever the build |
| Loader.CombineShape | libjpeg-turbo-net/NativeModulesLoader.cs:168 | `Path.Combine` ends with its second part, places a relative part under the first and lets a rooted part replace it |
| Loader.OSSubfolder | libjpeg-turbo-net/NativeModulesLoader.cs:191-210 | the OS tag of a subfolder name (`win`, `linux`, `mac`, `android`, `ios`, `wp`) has no '-' in it, which makes the patterns of different systems disjoint (`SubfolderPrefixesDisjoint`) |
| Loader.SubfolderPrefix | libjpeg-turbo-net/NativeModulesLoader.cs:124-127 | the pattern `{os}-{arch}*` without its wildcard; no contract of its own, its property is `SubfolderPrefixesDisjoint` |
| Loader.SubfolderPrefixesDisjoint | libjpeg-turbo-net/NativeModulesLoader.cs:124-127 | no folder name matches the patterns of two different systems for the same platform |
| Loader.MatchingNames | libjpeg-turbo-net/NativeModulesLoader.cs:127-129 | a name is kept exactly when it starts with the `{os}-{arch}` prefix, and no more names come out than went in |
| Loader.MatchingNamesAppend | libjpeg-turbo-net/NativeModulesLoader.cs:129 | filtering keeps listing order and multiplicity: it distributes over concatenation, and keeps one name exactly when it matches |
| Loader.CandidateDirectories | libjpeg-turbo-net/NativeModulesLoader.cs:129 | `Directory.GetDirectories(location, pattern)`; no contract of its own, its properties are `CandidatesMatchPattern` |
| Loader.CandidatesMatchPattern | libjpeg-turbo-net/NativeModulesLoader.cs:124-129 | the candidate folders are exactly the base directory's subfolders whose names match `{os}-{arch}*`, as paths under the base directory, in listing order: the i-th candidate is the i-th matching name |
| Loader.Plan | libjpeg-turbo-net/NativeModulesLoader.cs:101-135 | a non-empty existing override is the only folder used; otherwise a missing base directory or an empty match fails; otherwise the matching subfolders are searched |
| Loader.LoadCall | libjpeg-turbo-net/NativeModulesLoader.cs:218-226 | the OS primitive a load dispatches to; no contract of its own, its use is stated by `NativeModulesLoader.LoadLibrary` and `LoadCallsAttemptEveryModule` |
| Loader.TryAdd | libjpeg-turbo-net/NativeModulesLoader.cs:182 | insert-if-absent: the key is added, an existing entry keeps its handle, no other entry changes |
| Loader.Attempt | libjpeg-turbo-net/NativeModulesLoader.cs:149-188 | a folder attempt succeeds iff the folder exists and every module's file exists there and loads with a non-zero handle |
| Loader.Search | libjpeg-turbo-net/NativeModulesLoader.cs:137-146 | the reference definition of the subfolder loop; no contract of its own, its properties are `SearchSucceedsIffSomeFolderLoads`, `SearchStopsAtFirstSuccess`, `SearchTriesAllWhenNoneLoads` and `SearchKeepsEntries` |
| Loader.SearchFromIsSearch | libjpeg-turbo-net/NativeModulesLoader.cs:137-146 | the loop resumed at folder i ends where the search over the remaining folders does, its calls appended to those already made |
| Loader.LoadCallsAttemptEveryModule | libjpeg-turbo-net/NativeModulesLoader.cs:165-185 | every module is attempted with no early exit: one load call per module, in order, on the module's path under the folder |
| Loader.RegisterAllKeepsEntries | libjpeg-turbo-net/NativeModulesLoader.cs:170-183 | existing entries keep their handles; a module gains an entry iff it was present or its file is not an existing file that failed to load; a new entry holds the handle the load of the module's path returned, zero included |
| Loader.SearchKeepsEntries | libjpeg-turbo-net/NativeModulesLoader.cs:137-146 | the subfolder search never overwrites or drops a registry entry |
| Loader.SearchSucceedsIffSomeFolderLoads | libjpeg-turbo-net/NativeModulesLoader.cs:137-146 | the search returns true iff some candidate folder exists and loads every module |
| Loader.SearchStopsAtFirstSuccess | libjpeg-turbo-net/NativeModulesLoader.cs:137-146 | folders are tried in enumeration order and none after the first that loads every module |
| Loader.SearchTriesAllWhenNoneLoads | libjpeg-turbo-net/NativeModulesLoader.cs:137-146 | when no folder loads, every folder is attempted and the result is false |
| Loader.LoadModules | libjpeg-turbo-net/NativeModulesLoader.cs:101-147 | the reference definition of `LoadUnmanagedModules(modules)`; no contract of its own, its properties are `LoadModulesOutcome` |
| Loader.LoadModulesOutcome | libjpeg-turbo-net/NativeModulesLoader.cs:101-147 | the override alone is tried when usable; no base directory or no match fails with no effect; otherwise success iff some matching subfolder loads; registry entries are never lost |
| Loader.MissingFileShadowsLaterHandle | libjpeg-turbo-net/NativeModulesLoader.cs:170-183 | a missing file in an earlier folder registers the zero handle, and `TryAdd` keeps it when a later folder loads the module, so the search succeeds with no usable handle |
| Loader.ReleaseCall | libjpeg-turbo-net/NativeModulesLoader.cs:63-70 | `dlclose` except on Windows, where `FreeLibrary`; no contract of its own |
| Loader.ReleaseCalls | libjpeg-turbo-net/NativeModulesLoader.cs:76-93 | the releases made for a list of names, skipping absent ones; no contract of its own, its properties are `ReleaseCallsOfPresent`, `ReleaseEachOnce` and `ReleaseCallsOnlyPresent` |
| Loader.ReleaseCallsOfPresent | libjpeg-turbo-net/NativeModulesLoader.cs:76-93 | for names all present, one release per name, in order, each on that name's handle |
| Loader.ReleaseEachOnce | libjpeg-turbo-net/NativeModulesLoader.cs:54-72 | draining releases every registry entry's handle exactly once, one release per entry |
| Loader.ReleaseCallsOnlyPresent | libjpeg-turbo-net/NativeModulesLoader.cs:76-93 | the named overload releases a handle for each listed name that is present and for no other |
| Loader.NativeModulesLoader.constructor | libjpeg-turbo-net/NativeModulesLoader.cs:13-15 | the loader starts with no override, an empty registry and no OS calls |
| Loader.NativeModulesLoader.SetNativePath | libjpeg-turbo-net/NativeModulesLoader.cs:21-26 | `NativePath` then reads back what was set; `None` resets it |
| Loader.NativeModulesLoader.LoadLibrary | libjpeg-turbo-net/NativeModulesLoader.cs:218-235 | `dlopen(path, RTLD_NOW)` except on Windows, where `LoadLibraryEx` with the two search flags; a failure is the zero handle |
| Loader.NativeModulesLoader.LoadModuleFrom | libjpeg-turbo-net/NativeModulesLoader.cs:166-184 | one module: reports exists-and-loaded, registers unless the file exists and failed, makes one load call |
| Loader.NativeModulesLoader.LoadEachModule | libjpeg-turbo-net/NativeModulesLoader.cs:163-185 | the `success &=` loop yields "every module loads", the registry after all `TryAdd`s, and one load call per module |
| Loader.NativeModulesLoader.LoadUnmanagedModulesFrom | libjpeg-turbo-net/NativeModulesLoader.cs:149-188 | the per-folder attempt equals `Attempt`; the current directory is the same on return |
| Loader.NativeModulesLoader.LoadUnmanagedModules | libjpeg-turbo-net/NativeModulesLoader.cs:101-147 | the whole load equals `LoadModules` on the old state; the current directory is the same on return |
| Loader.NativeModulesLoader.SearchSubdirectories | libjpeg-turbo-net/NativeModulesLoader.cs:137-146 | the subfolder loop equals `Search`, returning at the first folder that loads |
| Loader.NativeModulesLoader.LoadLibraries | libjpeg-turbo-net/NativeModulesLoader.cs:32-38 | throws "Unable to load library {name}" exactly when the load fails |
| Loader.NativeModulesLoader.LoadLibrariesArray | libjpeg-turbo-net/NativeModulesLoader.cs:44-50 | throws "Unable to load libraries a; b; " exactly when the load fails |
| Loader.NativeModulesLoader.FreeUnmanagedModules | libjpeg-turbo-net/NativeModulesLoader.cs:54-72 | ends with an empty registry, having released each removed handle once, in removal order |
| Loader.NativeModulesLoader.FreeUnmanagedModulesNamed | libjpeg-turbo-net/NativeModulesLoader.cs:76-93 | releases the present named entries, skips the absent ones, leaves the registry unchanged |
| Initializer.LibraryFileName | libjpeg-turbo-net/TJInitializer.cs:38-55 | `name.dll` for Windows/WindowsPhone, `libname.so` for Linux/Android, `libname.dylib` for MacOS/IOS |
| Initializer.LibraryFileNameIdentifiesFamily | libjpeg-turbo-net/TJInitializer.cs:38-55 | two systems ask for the same file iff they share a naming convention |
| Initializer.ResolveDllPath | libjpeg-turbo-net/TJInitializer.cs:21-31 | `dllPath` when it is an existing directory, otherwise the base directory combined with the platform name |
| Initializer.FallbackUnderBaseDirectory | libjpeg-turbo-net/TJInitializer.cs:21-31 | the fallback folder lies under the base directory and ends with the platform name |
| Initializer.InitMessages | libjpeg-turbo-net/TJInitializer.cs:15-33 | exactly two messages when already initialized and one otherwise: "Library already loaded" comes first iff already initialized, and the last is always "Set libjpeg-turbo path to …" |
| Initializer.TJInitializer.constructor | libjpeg-turbo-net/TJInitializer.cs:10-11 | starts uninitialized, with no messages |
| Initializer.TJInitializer.Initialize | libjpeg-turbo-net/TJInitializer.cs:13-61 | loads the OS-named file with the override set to the chosen folder; success sets the flag and restores the previous override; a failed load throws, leaves the flag and the override as set; the flag never reverts |
| Codec.Wrap32 | libjpeg-turbo-net/TJDecompressor.cs:59-60 | unchecked `int` arithmetic: the result is an int32 congruent to the value modulo 2^32, and the value itself when it fits |
| Codec.Pin | libjpeg-turbo-net/TJCompressor.cs:158-162 | `fixed` pins a null or empty array to the null pointer and any other array to its contents |
| Compressor.CheckOptionsCompatibility | libjpeg-turbo-net/TJCompressor.cs:467-472 | fails with NotSupported iff the format is GRAY and the subsampling is not GRAY |
| Compressor.NativeRun | libjpeg-turbo-net/TJCompressor.cs:79-109 | the reference definition of the try/finally part; no contract of its own, its properties are `NativeBufferAlwaysFreed` and `NativeOutcome` |
| Compressor.CompressRun | libjpeg-turbo-net/TJCompressor.cs:72-110 | the reference definition of every compress overload; no contract of its own, its properties are `ChecksPrecedeNativeCalls`, `NativeBufferAlwaysFreed` and `NativeOutcome` |
| Compressor.ChecksPrecedeNativeCalls | libjpeg-turbo-net/TJCompressor.cs:225-234 | disposed first, then the null callback, then the options; each failure makes no native call, and no native call is made iff one of them fails |
| Compressor.NativeBufferAlwaysFreed | libjpeg-turbo-net/TJCompressor.cs:79-109 | once `tjCompress2` is entered it is the first and only compress call, `tjFree(buf)` is the last call and the only free, and no handle is destroyed |
| Compressor.NativeOutcome | libjpeg-turbo-net/TJCompressor.cs:96-104 | -1 raises the codec's error and reaches no callback; otherwise the array holds exactly the first `bufSize` codec bytes, or the callback receives the buffer and size |
| Compressor.TJCompressor.Init | libjpeg-turbo-net/TJCompressor.cs:30-37 | a new compressor holds the handle, is not disposed and satisfies the disposal invariant |
| Compressor.TJCompressor.Create | libjpeg-turbo-net/TJCompressor.cs:30-37 | construction fails with the codec's error iff `tjInitCompress` returns zero |
| Compressor.TJCompressor.CopyFromNative | libjpeg-turbo-net/TJCompressor.cs:101-104 | the new array equals the first `bufSize` bytes of the native buffer |
| Compressor.TJCompressor.NativeToArray | libjpeg-turbo-net/TJCompressor.cs:79-109 | the try/finally part of the array overloads equals `NativeRun` |
| Compressor.TJCompressor.CompressToArray | libjpeg-turbo-net/TJCompressor.cs:72-110 | the array overloads equal `CompressRun` and keep the disposal invariant |
| Compressor.TJCompressor.NativeToCallback | libjpeg-turbo-net/TJCompressor.cs:236-263 | the try/finally part of the callback overloads equals `NativeRun`, freeing the buffer even when the callback throws |
| Compressor.TJCompressor.CompressToCallback | libjpeg-turbo-net/TJCompressor.cs:225-264 | the callback overloads equal `CompressRun` and keep the disposal invariant |
| Compressor.TJCompressor.KeepsDestroyCount | libjpeg-turbo-net/TJCompressor.cs:72-110 | no compress call destroys the handle |
| Compressor.TJCompressor.Compress | libjpeg-turbo-net/TJCompressor.cs:72-110 | the pointer overload returning an array, as `CompressRun` on the address |
| Compressor.TJCompressor.CompressArray | libjpeg-turbo-net/TJCompressor.cs:147-187 | the array overload, as `CompressRun` on the pinned array |
| Compressor.TJCompressor.CompressWithAction | libjpeg-turbo-net/TJCompressor.cs:225-264 | the `Action` overload, null-checking `onCompressionCompleted` |
| Compressor.TJCompressor.CompressWithState | libjpeg-turbo-net/TJCompressor.cs:303-341 | the state overload, null-checking `onCompressionCompleted` |
| Compressor.TJCompressor.CompressAsync | libjpeg-turbo-net/TJCompressor.cs:381-420 | the async overload, null-checking `onAsyncCompressionCompleted` |
| Compressor.TJCompressor.Release | libjpeg-turbo-net/TJCompressor.cs:442-449 | marks the object disposed only for a user call, and destroys the handle either way |
| Compressor.TJCompressor.Dispose | libjpeg-turbo-net/TJCompressor.cs:426-440 | idempotent: the first call destroys the handle and suppresses the finalizer, later calls do nothing; exactly one destroy in total |
| Compressor.TJCompressor.Finalize | libjpeg-turbo-net/TJCompressor.cs:455-458 | destroys the handle without marking it disposed; exactly one destroy in total |
| Image.DecompressedImage.constructor | LibJpegWrapper/DecompressedImage.cs:14-26 | each get-only property equals its argument, and `Data` is the same array, not a copy |
| Decompressor.Stride | libjpeg-turbo-net/TJDecompressor.cs:59 | the stride `TJPAD(width * PixelSizes[format])` is an int32 |
| Decompressor.BufferLengthAsWritten | libjpeg-turbo-net/TJDecompressor.cs:60 | the unchecked `stride * height` is an int32, equal to the product when that fits |
| Decompressor.WrappedLengthTooShort | libjpeg-turbo-net/TJDecompressor.cs:60-61 | a legal image size for which the unchecked length is positive and far smaller than the image |
| Decompressor.BufferLength | libjpeg-turbo-net/TJDecompressor.cs:60-61 | the checked length is the exact `stride * height` when it is a valid array length, and an overflow otherwise |
| Decompressor.CheckedLengthAgreesWhenInRange | libjpeg-turbo-net/TJDecompressor.cs:60 | the checked and unchecked lengths agree whenever the checked one exists |
| Decompressor.Filled | libjpeg-turbo-net/TJDecompressor.cs:61-73 | the buffer has the allocated length, holds the codec's bytes from the start and zeros after them |
| Decompressor.DecompressRun | libjpeg-turbo-net/TJDecompressor.cs:45-82 | the reference definition of the pointer overload, with the checked buffer length; no contract of its own, its properties are `HeaderComesFirst` and `OutputSizing` |
| Decompressor.DecompressRunAsWritten | libjpeg-turbo-net/TJDecompressor.cs:45-82 | the pointer overload with the unchecked length of line 60; no contract of its own, its properties are `AsWrittenAgreesWhenInRange` and `ShortBufferHandedToCodec` |
| Decompressor.AsWrittenAgreesWhenInRange | libjpeg-turbo-net/TJDecompressor.cs:58-61 | whenever `stride * height` is a valid array length, the run as written and the corrected run are the same |
| Decompressor.ShortBufferHandedToCodec | libjpeg-turbo-net/TJDecompressor.cs:58-80 | on a 49152 × 43691 four-byte image the source allocates 65536 bytes, calls `tjDecompress` with stride 196608 and height 43691 and reports success; the corrected run raises an overflow before `tjDecompress` |
| Decompressor.DecompressArrayRun | libjpeg-turbo-net/TJDecompressor.cs:96-106 | the reference definition of the array overloads; no contract of its own, its properties are `ArrayOverloadsDelegate` |
| Decompressor.ArrayOverloadsDelegate | libjpeg-turbo-net/TJDecompressor.cs:96-106 | the array overloads check disposal, fail on a null array, and otherwise equal the pointer overload on the pinned array and its length |
| Decompressor.HeaderComesFirst | libjpeg-turbo-net/TJDecompressor.cs:45-78 | no native call when disposed; the header is read first; a header failure raises the codec's error before any buffer or `tjDecompress`; no handle is destroyed |
| Decompressor.OutputSizing | libjpeg-turbo-net/TJDecompressor.cs:58-80 | success reports the header's dimensions and stride `TJPAD(width * PixelSizes[format])`, and a buffer of `stride * height` bytes; a `tjDecompress` failure raises the codec's error |
| Decompressor.TJDecompressor.Init | libjpeg-turbo-net/TJDecompressor.cs:23-30 | a new decompressor holds the handle, is not disposed and satisfies the disposal invariant |
| Decompressor.TJDecompressor.Create | libjpeg-turbo-net/TJDecompressor.cs:23-30 | construction fails with the codec's error iff `tjInitDecompress` returns zero |
| Decompressor.TJDecompressor.NativeFill | libjpeg-turbo-net/TJDecompressor.cs:61-73 | the zeroed buffer ends up as `Filled` by the codec's bytes |
| Decompressor.TJDecompressor.ReadAndDecompress | libjpeg-turbo-net/TJDecompressor.cs:50-81 | header, sizing, allocation and `tjDecompress` equal `DecompressRun` on a live object |
| Decompressor.TJDecompressor.DecompressFrom | libjpeg-turbo-net/TJDecompressor.cs:45-82 | the shared body equals `DecompressRun` and keeps the disposal invariant |
| Decompressor.TJDecompressor.Decompress | libjpeg-turbo-net/TJDecompressor.cs:45-82 | the pointer overload, as `DecompressRun` on the address |
| Decompressor.TJDecompressor.DecompressArray | libjpeg-turbo-net/TJDecompressor.cs:96-106 | the array overload, as `DecompressArrayRun` |
| Decompressor.TJDecompressor.DecompressImage | libjpeg-turbo-net/TJDecompressor.cs:119-127 | the image carries the inner call's width, height, stride and buffer and the requested format |
| Decompressor.TJDecompressor.DecompressArrayImage | libjpeg-turbo-net/TJDecompressor.cs:139-149 | the same for the array overload, through the pinned array |
| Decompressor.TJDecompressor.Release | libjpeg-turbo-net/TJDecompressor.cs:171-178 | marks the object disposed only for a user call, and destroys the handle either way |
| Decompressor.TJDecompressor.Dispose | libjpeg-turbo-net/TJDecompressor.cs:155-169 | idempotent: the first call destroys the handle and suppresses the finalizer; exactly one destroy in total |
| Decompressor.TJDecompressor.Finalize | libjpeg-turbo-net/TJDecompressor.cs:183-186 | destroys the handle without marking it disposed; exactly one destroy in total |

## Left out

- The JPEG codec and every `TurboJpegImport` entry point are foreign code. Their results are parameters (reply values and a last-error string), and their calls are recorded in a ghost log.
- `TJPAD` and `PixelSizes` are an abstract `Abi` value: an arbitrary `int` function and an arbitrary table. A format missing from the table raises `KeyNotFoundException`, as a dictionary lookup does.
- `dlopen`, `dlclose`, `LoadLibraryEx`, `FreeLibrary`, `uname`, `Directory`, `File` and `Path` are modelled through the `Host` value.
  - `Path.Combine` and `Path.GetFullPath` follow POSIX rules with '/' as the separator. Windows drive letters and `..` segments are not normalized.
  - The glob `prefix*` is a prefix match.
- Concurrency is not modelled; everything runs sequentially. This covers the `lock`s, the double-checked `_isDisposed` in `Dispose`, the atomicity of `ConcurrentDictionary`, and the `continue` taken when `TryRemove` loses a race in `FreeUnmanagedModules()`.
- The `Action<string>` logger of the loader is not modelled. The initializer's two messages are kept, as a ghost log.
- The base directory is an input (`Host.baseDirectory`). The `#if NET47` and `NETSTANDARD2_0` ways of finding it are not modelled, including the early `false` when the assembly has no location.
- `TJUtils` (unmanaged-memory marshalling) is not part of this model. `GetErrorAndThrow` becomes an error value carrying the codec's last-error text, with a `tjGetErrorStr` call in the log.
- `CompressAsync` is not modelled as asynchronous. Its awaited callback is a call that returns or throws, and cancellation is not modelled.
- The finalizer is an explicit method, not scheduled by a garbage collector. A constructor that throws after `tjInitCompress` or `tjInitDecompress` returned zero leaves an object whose finalizer would still call `tjDestroy(0)`. That object is not modelled.
- `Loader.NativeModulesLoader.LoadUnmanagedModulesFrom` returns the current directory to its old value only on a normal return, as the source does, since the source has no try/finally. Exceptions from `Directory` or `Path` calls are not modelled.
- `Loader.NativeModulesLoader.NativePath` is the bare getter. Its round trip with `SetNativePath` is stated by `SetNativePath`'s contract.
- The `default` branches of `GetOSSubfolder` and of the library-name switch throw `ArgumentOutOfRangeException`. They cannot be reached because `OS` has only six values, so they are absent.
- `Compressor.TJCompressor.CompressToArray` and every compress overload require the codec's reply to be coherent (`ValidReply`): a successful call reports at most `Int32Max` bytes, and at least that many bytes are readable at `buf`. A JPEG of 2 GiB or more is therefore not modelled, and neither is what the `(int)bufSize` casts would then do.
- `Decompressor.DecompressRun` uses the checked `BufferLength`, not the unchecked `stride * height` of line 60 (see Findings). So do `DecompressArrayRun`, `OutputSizing`, `HeaderComesFirst`, `TJDecompressor.ReadAndDecompress`, `DecompressFrom` and the four decompress overloads. Where the product is not a valid array length they raise an overflow before `tjDecompress`. The source allocates the wrapped length instead, as `DecompressRunAsWritten` models. The two agree on every other input (`AsWrittenAgreesWhenInRange`).
- `Initializer.TJInitializer.Initialize` runs the load again when already initialized, as the code does, and only logs that the library was already loaded.

## Findings

| source | as written | input that shows it | evidently intended | confidence | as-written member | corrected member |
|---|---|---|---|---|---|---|
| libjpeg-turbo-net/TJDecompressor.cs:60 | `stride * height` is computed in unchecked 32-bit `int`, so a large image wraps around to a small positive length, and `tjDecompress` then writes `stride * height` bytes into a buffer that is too short | width 49152 in a 4-byte pixel format (stride 196608) and height 43691: the product 8590000128 wraps to a 65536-byte buffer | the buffer length is exactly `stride * height`, and an image too large for an array raises an overflow | not executed | Decompressor.ShortBufferHandedToCodec | Decompressor.BufferLength |
