/**
 * `TJInitializer`: picks the folder to load the codec from, names the
 * library file after the OS, points the loader's override at the folder for
 * the duration of the load, and records that initialization happened.
 */
module Initializer {
  import opened Wrappers
  import opened Platform
  import opened Loader

  /** The three naming conventions for a shared library. */
  datatype LibraryFamily = Dll | SharedObject | Dylib

  function Family(os: OS): LibraryFamily
  {
    match os
    case Windows => Dll
    case WindowsPhone => Dll
    case Linux => SharedObject
    case Android => SharedObject
    case MacOS => Dylib
    case IOS => Dylib
  }

  /** The library file name for the OS: `name.dll` for the Windows family,
      `libname.so` for Linux and Android, `libname.dylib` for macOS and iOS. */
  function LibraryFileName(os: OS, name: string): (file: string)
    ensures Family(os) == Dll ==> file == name + ".dll"
    ensures Family(os) == SharedObject ==> file == "lib" + name + ".so"
    ensures Family(os) == Dylib ==> file == "lib" + name + ".dylib"
  {
    match os
    case Windows => name + ".dll"
    case WindowsPhone => name + ".dll"
    case Linux => "lib" + name + ".so"
    case Android => "lib" + name + ".so"
    case MacOS => "lib" + name + ".dylib"
    case IOS => "lib" + name + ".dylib"
  }

  /** Two systems ask the loader for the same file exactly when they share a
      naming convention. */
  lemma LibraryFileNameIdentifiesFamily(os1: OS, os2: OS, name: string)
    ensures LibraryFileName(os1, name) == LibraryFileName(os2, name) <==> Family(os1) == Family(os2)
  {
    var f1, f2 := LibraryFileName(os1, name), LibraryFileName(os2, name);
    if Family(os1) != Family(os2) {
      // The last letters of ".dll", ".so" and ".dylib" differ, and so do the
      // lengths of "lib" + name + ".so" and "lib" + name + ".dylib".
      assert f1[|f1| - 1] != f2[|f2| - 1] || |f1| != |f2|;
    }
  }

  /** The folder handed to the loader: `dllPath` itself when it names an
      existing directory, otherwise the base directory combined with the
      platform name (`x86`, `x64` or `Unknown`). */
  function ResolveDllPath(host: Host, cwd: string, dllPath: Option<string>): (path: string)
    ensures dllPath.Some? && DirectoryExists(host, cwd, dllPath.value) ==> path == dllPath.value
    ensures !(dllPath.Some? && DirectoryExists(host, cwd, dllPath.value)) ==>
              path == Combine(host.baseDirectory, PlatformName(host.pointerSize))
  {
    if dllPath.Some? && DirectoryExists(host, cwd, dllPath.value) then dllPath.value
    else Combine(host.baseDirectory, PlatformName(host.pointerSize))
  }

  /** The fallback folder lies under the base directory and ends with the
      platform name. */
  lemma FallbackUnderBaseDirectory(host: Host, cwd: string, dllPath: Option<string>)
    requires !(dllPath.Some? && DirectoryExists(host, cwd, dllPath.value))
    ensures var path := ResolveDllPath(host, cwd, dllPath);
            var platform := PlatformName(host.pointerSize);
            host.baseDirectory <= path && |platform| <= |path| && path[|path| - |platform|..] == platform
  {
    var platform := PlatformName(host.pointerSize);
    assert platform[0] != '/';
    CombineShape(host.baseDirectory, platform);
  }

  /** The messages `Initialize` passes to its logger. */
  function InitMessages(wasInitialized: bool, path: string): (log: seq<string>)
    ensures log != [] && log[|log| - 1] == "Set libjpeg-turbo path to " + path
    ensures |log| == if wasInitialized then 2 else 1
    ensures wasInitialized ==> log[0] == "Library already loaded"
  {
    (if wasInitialized then ["Library already loaded"] else []) + ["Set libjpeg-turbo path to " + path]
  }

  /** The static class `TJInitializer` as an object: `_isInitialized`, the
      loader whose override it manipulates, and `TurboJpegImport.LibraryName`. */
  class TJInitializer {
    var isInitialized: bool
    const loader: NativeModulesLoader
    const libraryName: string
    ghost var messages: seq<string>

    constructor (loader: NativeModulesLoader, libraryName: string)
      ensures !isInitialized && messages == []
      ensures this.loader == loader && this.libraryName == libraryName
    {
      isInitialized := false;
      this.loader := loader;
      this.libraryName := libraryName;
      messages := [];
    }

    /** `Initialize(dllPath, logger)`. An earlier initialization is only
        logged, and the load runs again. The override is set to the chosen
        folder for the load and put back only when the load does not throw;
        the flag is set only then, and is never cleared. */
    method Initialize(dllPath: Option<string>) returns (r: Outcome<string>)
      modifies this`isInitialized, this`messages
      modifies loader`nativePath, loader`loadedLibraries, loader`currentDirectory, loader`osCalls
      ensures var path := ResolveDllPath(loader.host, old(loader.currentDirectory), dllPath);
              var file := LibraryFileName(loader.host.os, libraryName);
              var step := LoadModules(loader.host, old(loader.currentDirectory), Some(path), old(loader.loadedLibraries), [file]);
              && messages == old(messages) + InitMessages(old(isInitialized), path)
              && (r.Pass? <==> step.ok)
              && loader.loadedLibraries == step.registry
              && loader.osCalls == old(loader.osCalls) + step.calls
              && (r.Fail? ==> r.error == "Unable to load library " + file && loader.nativePath == Some(path))
      ensures loader.currentDirectory == old(loader.currentDirectory)
      ensures r.Pass? ==> isInitialized && loader.nativePath == old(loader.nativePath)
      ensures r.Fail? ==> isInitialized == old(isInitialized)
      ensures old(isInitialized) ==> isInitialized
    {
      if isInitialized {
        messages := messages + ["Library already loaded"];
      }
      var path := ResolveDllPath(loader.host, loader.currentDirectory, dllPath);
      messages := messages + ["Set libjpeg-turbo path to " + path];
      var current := loader.NativePath();
      loader.SetNativePath(Some(path));
      var file := LibraryFileName(loader.host.os, libraryName);
      r := loader.LoadLibraries(file);
      if r.Fail? {
        return;
      }
      loader.SetNativePath(current);
      isInitialized := true;
    }
  }
}
