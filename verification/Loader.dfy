/**
 * The native-library loader: a process-wide override path, a registry of
 * loaded module handles keyed by file name, the search of `{os}-{arch}*`
 * subfolders, and the per-folder attempt that moves the current directory
 * into the folder and back.
 *
 * The file system and the OS loader are a `Host` value: which directories and
 * files exist, how each directory's subdirectories enumerate, and which handle
 * `dlopen`/`LoadLibraryEx` gives for each path (0 when it fails). Every call
 * into the OS is recorded in a ghost log.
 */
module Loader {
  import opened Wrappers
  import opened Platform

  /** An OS module handle; 0 is IntPtr.Zero. */
  type Handle = nat

  /** `RTLD_NOW`, the mode passed to `dlopen`. */
  const RtldNow := 2
  /** `LOAD_LIBRARY_SEARCH_DLL_LOAD_DIR | LOAD_LIBRARY_SEARCH_DEFAULT_DIRS`. */
  const LoadLibraryFlags := 0x0000_0100 + 0x0000_1000

  /** The process's view of the machine. Paths in `directories`, `files` and the
      keys of `subdirectories` are full paths; a listing gives child names in
      the order the OS enumerates them. */
  datatype Host = Host(
    os: OS,
    pointerSize: int,
    baseDirectory: string,
    directories: set<string>,
    files: set<string>,
    subdirectories: map<string, seq<string>>,
    libraryHandles: map<string, Handle>)

  /** The calls into the OS that the loader makes. */
  datatype OsCall =
    | SetCurrentDirectory(path: string)
    | Dlopen(fileName: string, mode: int)
    | LoadLibraryEx(fileName: string, flags: int)
    | Dlclose(handle: Handle)
    | FreeLibrary(handle: Handle)

  // ---------------------------------------------------------------- paths

  /** `Path.Combine` with '/' as the separator: a rooted second part wins, an
      empty part is dropped, a separator is inserted only when missing. */
  function Combine(first: string, second: string): string
  {
    if second != [] && second[0] == '/' then second
    else if second == [] then first
    else if first == [] then second
    else if first[|first| - 1] == '/' then first + second
    else first + "/" + second
  }

  /** The combined path ends with its second part; a relative second part is
      placed under the first, a rooted one replaces it. */
  lemma CombineShape(first: string, second: string)
    ensures var path := Combine(first, second);
            && |second| <= |path| && path[|path| - |second|..] == second
            && (second != [] && second[0] == '/' ==> path == second)
            && (second == [] || second[0] != '/' ==> first <= path)
  {
    var path := Combine(first, second);
    if second != [] && second[0] == '/' {
    } else if second == [] {
      assert path[|path|..] == [];
    } else if first == [] {
    } else {
      var sep := if first[|first| - 1] == '/' then [] else "/";
      assert path == first + sep + second;
      assert path[|path| - |second|..] == second;
      assert path[..|first|] == first;
    }
  }

  /** `Path.GetFullPath`: a relative path is resolved against the current directory. */
  function FullPath(cwd: string, path: string): string
  {
    Combine(cwd, path)
  }

  /** `Directory.Exists`, which is false for an empty path. */
  predicate DirectoryExists(host: Host, cwd: string, path: string)
  {
    path != [] && FullPath(cwd, path) in host.directories
  }

  /** `File.Exists`, which is false for an empty path. */
  predicate FileExists(host: Host, cwd: string, path: string)
  {
    path != [] && FullPath(cwd, path) in host.files
  }

  // ------------------------------------------------------ subfolder search

  /** The OS part of a native subfolder name. */
  function OSSubfolder(os: OS): (tag: string)
    ensures 2 <= |tag| && '-' !in tag
  {
    match os
    case Windows => "win"
    case Linux => "linux"
    case MacOS => "mac"
    case Android => "android"
    case IOS => "ios"
    case WindowsPhone => "wp"
  }

  /** The search pattern `{os}-{arch}*` without its trailing wildcard: a
      subfolder is a candidate when its name starts with this prefix. */
  function SubfolderPrefix(os: OS, platform: string): string
  {
    OSSubfolder(os) + "-" + platform
  }

  /** The names in a listing that match the pattern, in listing order. */
  function MatchingNames(names: seq<string>, prefix: string): (matches: seq<string>)
    ensures |matches| <= |names|
    ensures forall n :: n in matches <==> n in names && prefix <= n
  {
    if names == [] then []
    else if prefix <= names[0] then [names[0]] + MatchingNames(names[1..], prefix)
    else MatchingNames(names[1..], prefix)
  }

  /** Filtering keeps listing order and multiplicity: it distributes over
      concatenation, and a single name is kept exactly when it matches. */
  lemma {:induction false} MatchingNamesAppend(a: seq<string>, b: seq<string>, prefix: string)
    ensures MatchingNames(a + b, prefix) == MatchingNames(a, prefix) + MatchingNames(b, prefix)
    ensures forall n :: MatchingNames([n], prefix) == if prefix <= n then [n] else []
    decreases |a|
  {
    forall n ensures MatchingNames([n], prefix) == if prefix <= n then [n] else [] {
      assert [n][1..] == [];
    }
    if a != [] {
      assert (a + b)[0] == a[0] && (a + b)[1..] == a[1..] + b;
      MatchingNamesAppend(a[1..], b, prefix);
    } else {
      assert a + b == b;
    }
  }

  /** No name matches the patterns of two different systems: the OS tags
      contain no '-', so the first '-' of a name fixes the tag. */
  lemma SubfolderPrefixesDisjoint(os1: OS, os2: OS, platform: string, name: string)
    requires SubfolderPrefix(os1, platform) <= name && SubfolderPrefix(os2, platform) <= name
    ensures os1 == os2
  {
    TagBeforeDash(OSSubfolder(os1), OSSubfolder(os2), platform, name);
  }

  /** The position of the first '-' in a name (its length when there is none). */
  function FirstDash(name: string): nat
  {
    if name == [] || name[0] == '-' then 0 else 1 + FirstDash(name[1..])
  }

  /** A dash-free tag followed by '-' at the start of a name ends at the name's first '-'. */
  lemma {:induction false} TagEndsAtFirstDash(tag: string, platform: string, name: string)
    requires '-' !in tag
    requires tag + "-" + platform <= name
    ensures |tag| == FirstDash(name)
    ensures tag == name[..|tag|]
    decreases |tag|
  {
    var pattern := tag + "-" + platform;
    assert name[0] == pattern[0];
    if tag != [] {
      assert tag[0] in tag;
      assert tag[1..] + "-" + platform == pattern[1..];
      TagEndsAtFirstDash(tag[1..], platform, name[1..]);
    }
    assert tag == pattern[..|tag|];
  }

  /** Two dash-free tags that both start `name`, each followed by '-', are equal. */
  lemma TagBeforeDash(t1: string, t2: string, platform: string, name: string)
    requires '-' !in t1 && '-' !in t2
    requires t1 + "-" + platform <= name && t2 + "-" + platform <= name
    ensures t1 == t2
  {
    TagEndsAtFirstDash(t1, platform, name);
    TagEndsAtFirstDash(t2, platform, name);
  }

  /** The names of the subdirectories of a directory, in enumeration order. */
  function Listing(host: Host, dir: string): seq<string>
  {
    if dir in host.subdirectories then host.subdirectories[dir] else []
  }

  /** `Directory.GetDirectories(location, "{os}-{arch}*")`: the matching
      subdirectories of the base directory, as paths under it, in enumeration order. */
  function CandidateDirectories(host: Host, cwd: string): (dirs: seq<string>)
  {
    var location := host.baseDirectory;
    var names := Listing(host, FullPath(cwd, location));
    var matches := MatchingNames(names, SubfolderPrefix(host.os, PlatformName(host.pointerSize)));
    seq(|matches|, i requires 0 <= i < |matches| => Combine(location, matches[i]))
  }

  /** `path` is the base directory combined with a listed name that starts
      with `prefix`. */
  predicate UnderMatchingName(host: Host, names: seq<string>, prefix: string, path: string)
  {
    exists n :: n in names && prefix <= n && path == Combine(host.baseDirectory, n)
  }

  /** The candidate folders are exactly the base directory's subfolders
      whose names start with `{os}-{arch}`, as paths under the base directory. */
  lemma CandidatesMatchPattern(host: Host, cwd: string, names: seq<string>)
    requires names == Listing(host, FullPath(cwd, host.baseDirectory))
    ensures var dirs := CandidateDirectories(host, cwd);
            var prefix := SubfolderPrefix(host.os, PlatformName(host.pointerSize));
            && |dirs| <= |names|
            && (forall i :: 0 <= i < |dirs| ==> UnderMatchingName(host, names, prefix, dirs[i]))
            && (forall n :: n in names && prefix <= n ==> Combine(host.baseDirectory, n) in dirs)
            && |dirs| == |MatchingNames(names, prefix)|
            && (forall i :: 0 <= i < |dirs| ==> dirs[i] == Combine(host.baseDirectory, MatchingNames(names, prefix)[i]))
  {
    var prefix := SubfolderPrefix(host.os, PlatformName(host.pointerSize));
    var matches := MatchingNames(names, prefix);
    var dirs := CandidateDirectories(host, cwd);
    assert |dirs| == |matches| <= |names|;
    forall i | 0 <= i < |dirs|
      ensures UnderMatchingName(host, names, prefix, dirs[i])
    {
      var n := matches[i];
      assert n in matches;
      assert n in names && prefix <= n && dirs[i] == Combine(host.baseDirectory, n);
    }
    forall n | n in names && prefix <= n
      ensures Combine(host.baseDirectory, n) in dirs
    {
      var i :| 0 <= i < |matches| && matches[i] == n;
      assert dirs[i] == Combine(host.baseDirectory, n);
    }
  }

  /** How `LoadUnmanagedModules(modules)` proceeds. */
  datatype SearchPlan =
    | FromOverride(dir: string)
    | NoBaseDirectory
    | NoMatchingSubdirectory
    | FromSubdirectories(dirs: seq<string>)

  /** The override is used when it is non-empty and an existing directory;
      otherwise the base directory must exist and have a matching subfolder. */
  function Plan(host: Host, cwd: string, nativePath: Option<string>): (plan: SearchPlan)
    ensures plan.FromOverride? <==>
              nativePath.Some? && nativePath.value != [] && DirectoryExists(host, cwd, nativePath.value)
    ensures plan.FromOverride? ==> plan.dir == nativePath.value
    ensures plan.NoBaseDirectory? <==>
              !plan.FromOverride? && !DirectoryExists(host, cwd, host.baseDirectory)
    ensures plan.NoMatchingSubdirectory? <==>
              !plan.FromOverride? && !plan.NoBaseDirectory? && CandidateDirectories(host, cwd) == []
    ensures plan.FromSubdirectories? ==> plan.dirs == CandidateDirectories(host, cwd) != []
  {
    if nativePath.Some? && nativePath.value != [] && DirectoryExists(host, cwd, nativePath.value) then
      FromOverride(nativePath.value)
    else if !DirectoryExists(host, cwd, host.baseDirectory) then
      NoBaseDirectory
    else
      var dirs := CandidateDirectories(host, cwd);
      if dirs == [] then NoMatchingSubdirectory else FromSubdirectories(dirs)
  }

  // ------------------------------------------------ one module, one folder

  /** The OS primitive that `LoadLibrary` dispatches to: `dlopen` on every
      system other than Windows, `LoadLibraryEx` with the hardened search flags on Windows. */
  function LoadCall(os: OS, path: string): OsCall
  {
    if os != Windows then Dlopen(path, RtldNow) else LoadLibraryEx(path, LoadLibraryFlags)
  }

  /** The handle the OS loader gives for a path; 0 when it fails. */
  function LibraryHandle(host: Host, path: string): Handle
  {
    if path in host.libraryHandles then host.libraryHandles[path] else 0
  }

  /** `ConcurrentDictionary.TryAdd`: insert if absent, an existing entry is kept. */
  function TryAdd(registry: map<string, Handle>, key: string, value: Handle): (r: map<string, Handle>)
    ensures r.Keys == registry.Keys + {key}
    ensures r[key] == if key in registry then registry[key] else value
    ensures forall k :: k in registry ==> r[k] == registry[k]
  {
    if key in registry then registry else registry[key := value]
  }

  /** A module of folder `dir` loads when its file exists there and the OS gives a non-zero handle. */
  predicate ModuleLoads(host: Host, dir: string, lib: string)
  {
    var path := Combine(dir, lib);
    FileExists(host, dir, path) && LibraryHandle(host, path) != 0
  }

  /** A module is skipped only when its file exists and failed to load; a
      missing file is registered with whatever handle the load returned. */
  predicate Registers(host: Host, dir: string, lib: string)
  {
    var path := Combine(dir, lib);
    !(FileExists(host, dir, path) && LibraryHandle(host, path) == 0)
  }

  /** The registry after attempting one module of folder `dir`. */
  function RegisterStep(host: Host, dir: string, registry: map<string, Handle>, lib: string): map<string, Handle>
  {
    if Registers(host, dir, lib) then TryAdd(registry, lib, LibraryHandle(host, Combine(dir, lib)))
    else registry
  }

  /** The registry after attempting every module of folder `dir`, in order. */
  function RegisterAll(host: Host, dir: string, registry: map<string, Handle>, modules: seq<string>): map<string, Handle>
    decreases |modules|
  {
    if modules == [] then registry
    else RegisterStep(host, dir, RegisterAll(host, dir, registry, modules[..|modules| - 1]), modules[|modules| - 1])
  }

  /** The load calls for every module of folder `dir`, in order. */
  function LoadCalls(os: OS, dir: string, modules: seq<string>): seq<OsCall>
    decreases |modules|
  {
    if modules == [] then []
    else LoadCalls(os, dir, modules[..|modules| - 1]) + [LoadCall(os, Combine(dir, modules[|modules| - 1]))]
  }

  /** Every module of `modules` loads from folder `dir`. */
  predicate AllLoad(host: Host, dir: string, modules: seq<string>)
  {
    forall m | m in modules :: ModuleLoads(host, dir, m)
  }

  /** A folder succeeds when it exists and every module in it loads. */
  predicate DirectoryLoads(host: Host, cwd: string, dir: string, modules: seq<string>)
  {
    DirectoryExists(host, cwd, dir) && AllLoad(host, FullPath(cwd, dir), modules)
  }

  lemma AppendOne(host: Host, dir: string, registry: map<string, Handle>, modules: seq<string>, lib: string)
    ensures RegisterAll(host, dir, registry, modules + [lib]) == RegisterStep(host, dir, RegisterAll(host, dir, registry, modules), lib)
    ensures LoadCalls(host.os, dir, modules + [lib]) == LoadCalls(host.os, dir, modules) + [LoadCall(host.os, Combine(dir, lib))]
    ensures AllLoad(host, dir, modules + [lib]) == (AllLoad(host, dir, modules) && ModuleLoads(host, dir, lib))
  {
    assert (modules + [lib])[..|modules|] == modules;
    assert forall m :: m in modules + [lib] <==> m in modules || m == lib;
  }

  /** `AppendOne` for the prefixes a loop over `modules` walks through. */
  lemma PrefixStep(host: Host, dir: string, registry: map<string, Handle>, modules: seq<string>, i: nat)
    requires i < |modules|
    ensures RegisterAll(host, dir, registry, modules[..i + 1]) == RegisterStep(host, dir, RegisterAll(host, dir, registry, modules[..i]), modules[i])
    ensures LoadCalls(host.os, dir, modules[..i + 1]) == LoadCalls(host.os, dir, modules[..i]) + [LoadCall(host.os, Combine(dir, modules[i]))]
    ensures AllLoad(host, dir, modules[..i + 1]) == (AllLoad(host, dir, modules[..i]) && ModuleLoads(host, dir, modules[i]))
  {
    assert modules[..i + 1] == modules[..i] + [modules[i]];
    AppendOne(host, dir, registry, modules[..i], modules[i]);
  }

  /** The effect of an attempt: its result, the new registry and the OS calls made. */
  datatype Step = Step(ok: bool, registry: map<string, Handle>, calls: seq<OsCall>)

  /** `LoadUnmanagedModules(dir, modules)`: a missing folder fails at once;
      otherwise the current directory is moved into the folder, every module
      is attempted (no early exit), and the current directory is moved back. */
  function Attempt(host: Host, cwd: string, registry: map<string, Handle>, dir: string, modules: seq<string>): (s: Step)
    ensures s.ok == DirectoryLoads(host, cwd, dir, modules)
  {
    if !DirectoryExists(host, cwd, dir) then Step(false, registry, [])
    else
      var full := FullPath(cwd, dir);
      Step(DirectoryLoads(host, cwd, dir, modules),
           RegisterAll(host, full, registry, modules),
           [SetCurrentDirectory(full)] + LoadCalls(host.os, full, modules) + [SetCurrentDirectory(cwd)])
  }

  /** The subfolder loop: folders are tried in order and the first success ends it. */
  function Search(host: Host, cwd: string, registry: map<string, Handle>, dirs: seq<string>, modules: seq<string>): Step
    decreases |dirs|
  {
    if dirs == [] then Step(false, registry, [])
    else
      var first := Attempt(host, cwd, registry, dirs[0], modules);
      if first.ok then first
      else
        var rest := Search(host, cwd, first.registry, dirs[1..], modules);
        Step(rest.ok, rest.registry, first.calls + rest.calls)
  }

  /** The subfolder loop resumed at folder `i`, with `log` the calls made so
      far: the state the loop of `LoadUnmanagedModules(modules)` ends in. */
  function SearchFrom(host: Host, cwd: string, registry: map<string, Handle>, log: seq<OsCall>,
                      dirs: seq<string>, i: nat, modules: seq<string>): Step
    requires i <= |dirs|
    decreases |dirs| - i
  {
    if i == |dirs| then Step(false, registry, log)
    else
      var first := Attempt(host, cwd, registry, dirs[i], modules);
      if first.ok then Step(true, first.registry, log + first.calls)
      else SearchFrom(host, cwd, first.registry, log + first.calls, dirs, i + 1, modules)
  }

  /** The resumed loop ends where `Search` over the remaining folders does,
      with its calls appended to those already made. */
  lemma {:induction false} SearchFromIsSearch(host: Host, cwd: string, registry: map<string, Handle>,
                                              log: seq<OsCall>, dirs: seq<string>, i: nat, modules: seq<string>)
    requires i <= |dirs|
    ensures var s := Search(host, cwd, registry, dirs[i..], modules);
            SearchFrom(host, cwd, registry, log, dirs, i, modules) == Step(s.ok, s.registry, log + s.calls)
    decreases |dirs| - i
  {
    if i < |dirs| {
      var first := Attempt(host, cwd, registry, dirs[i], modules);
      assert dirs[i..][1..] == dirs[i + 1..];
      if !first.ok {
        SearchFromIsSearch(host, cwd, first.registry, log + first.calls, dirs, i + 1, modules);
        var rest := Search(host, cwd, first.registry, dirs[i + 1..], modules);
        assert log + first.calls + rest.calls == log + (first.calls + rest.calls);
      }
    }
  }

  /** Every folder attempted in order, with no early exit (a reference for `Search`). */
  function TryEach(host: Host, cwd: string, registry: map<string, Handle>, dirs: seq<string>, modules: seq<string>): Step
    decreases |dirs|
  {
    if dirs == [] then Step(false, registry, [])
    else
      var first := Attempt(host, cwd, registry, dirs[0], modules);
      var rest := TryEach(host, cwd, first.registry, dirs[1..], modules);
      Step(first.ok || rest.ok, rest.registry, first.calls + rest.calls)
  }

  /** `LoadUnmanagedModules(modules)`. */
  function LoadModules(host: Host, cwd: string, nativePath: Option<string>,
                       registry: map<string, Handle>, modules: seq<string>): Step
  {
    match Plan(host, cwd, nativePath)
    case FromOverride(dir) => Attempt(host, cwd, registry, dir, modules)
    case NoBaseDirectory => Step(false, registry, [])
    case NoMatchingSubdirectory => Step(false, registry, [])
    case FromSubdirectories(dirs) => Search(host, cwd, registry, dirs, modules)
  }

  /** The release primitive: `dlclose` except on Windows, where `FreeLibrary`. */
  function ReleaseCall(os: OS, handle: Handle): OsCall
  {
    if os != Windows then Dlclose(handle) else FreeLibrary(handle)
  }

  /** The releases made for `names`, in order, skipping names not in the registry. */
  function ReleaseCalls(os: OS, registry: map<string, Handle>, names: seq<string>): seq<OsCall>
    decreases |names|
  {
    if names == [] then []
    else
      var last := names[|names| - 1];
      ReleaseCalls(os, registry, names[..|names| - 1]) +
      (if last in registry then [ReleaseCall(os, registry[last])] else [])
  }

  /** "a; b; " as built by the `Aggregate` in the multi-module error message. */
  function JoinModules(modules: seq<string>): string
    decreases |modules|
  {
    if modules == [] then "" else JoinModules(modules[..|modules| - 1]) + modules[|modules| - 1] + "; "
  }

  predicate Distinct<T(==)>(s: seq<T>)
  {
    forall i, j :: 0 <= i < j < |s| ==> s[i] != s[j]
  }

  // ------------------------------------------------------------ properties

  /** Every module of a folder is attempted, in order, with no early exit:
      one load call per module, on the module's path under the folder. */
  lemma {:induction false} LoadCallsAttemptEveryModule(os: OS, dir: string, modules: seq<string>)
    ensures |LoadCalls(os, dir, modules)| == |modules|
    ensures forall i :: 0 <= i < |modules| ==> LoadCalls(os, dir, modules)[i] == LoadCall(os, Combine(dir, modules[i]))
    decreases |modules|
  {
    if modules != [] {
      var init := modules[..|modules| - 1];
      LoadCallsAttemptEveryModule(os, dir, init);
      assert forall i :: 0 <= i < |init| ==> init[i] == modules[i];
    }
  }

  /** The registry after a folder's modules: entries already present are
      kept with their handles, and a module gains an entry exactly when it
      was present before or its file is not an existing file that failed to load. */
  lemma {:induction false} RegisterAllKeepsEntries(host: Host, dir: string, registry: map<string, Handle>, modules: seq<string>)
    ensures var r := RegisterAll(host, dir, registry, modules);
            && (forall k :: k in registry ==> k in r && r[k] == registry[k])
            && (forall k :: k in r <==> k in registry || (k in modules && Registers(host, dir, k)))
            && (forall k :: k in r && k !in registry ==> r[k] == LibraryHandle(host, Combine(dir, k)))
    decreases |modules|
  {
    if modules != [] {
      var init := modules[..|modules| - 1];
      RegisterAllKeepsEntries(host, dir, registry, init);
      assert modules == init + [modules[|modules| - 1]];
    }
  }

  /** `Search` never overwrites nor drops a registry entry. */
  lemma {:induction false} SearchKeepsEntries(host: Host, cwd: string, registry: map<string, Handle>,
                                              dirs: seq<string>, modules: seq<string>)
    ensures var r := Search(host, cwd, registry, dirs, modules).registry;
            forall k :: k in registry ==> k in r && r[k] == registry[k]
    decreases |dirs|
  {
    if dirs != [] {
      var first := Attempt(host, cwd, registry, dirs[0], modules);
      if DirectoryExists(host, cwd, dirs[0]) {
        RegisterAllKeepsEntries(host, FullPath(cwd, dirs[0]), registry, modules);
      }
      SearchKeepsEntries(host, cwd, first.registry, dirs[1..], modules);
    }
  }

  /** The subfolder search succeeds exactly when some candidate folder exists
      and every module loads from it. */
  lemma {:induction false} SearchSucceedsIffSomeFolderLoads(host: Host, cwd: string, registry: map<string, Handle>,
                                                            dirs: seq<string>, modules: seq<string>)
    ensures Search(host, cwd, registry, dirs, modules).ok <==>
              exists k :: 0 <= k < |dirs| && DirectoryLoads(host, cwd, dirs[k], modules)
    decreases |dirs|
  {
    if dirs != [] {
      var first := Attempt(host, cwd, registry, dirs[0], modules);
      SearchSucceedsIffSomeFolderLoads(host, cwd, first.registry, dirs[1..], modules);
      if exists k :: 0 <= k < |dirs| && DirectoryLoads(host, cwd, dirs[k], modules) {
        var k :| 0 <= k < |dirs| && DirectoryLoads(host, cwd, dirs[k], modules);
        if k > 0 {
          assert dirs[1..][k - 1] == dirs[k];
        }
      }
      if exists k :: 0 <= k < |dirs| - 1 && DirectoryLoads(host, cwd, dirs[1..][k], modules) {
        var k :| 0 <= k < |dirs| - 1 && DirectoryLoads(host, cwd, dirs[1..][k], modules);
        assert dirs[k + 1] == dirs[1..][k];
      }
    }
  }

  /** Folders are tried in order and the search stops at the first one where
      every module loads: the result is that of attempting exactly the folders
      up to and including it, and none after. */
  lemma {:induction false} SearchStopsAtFirstSuccess(host: Host, cwd: string, registry: map<string, Handle>,
                                                     dirs: seq<string>, modules: seq<string>, k: nat)
    requires k < |dirs| && DirectoryLoads(host, cwd, dirs[k], modules)
    requires forall j :: 0 <= j < k ==> !DirectoryLoads(host, cwd, dirs[j], modules)
    ensures Search(host, cwd, registry, dirs, modules) == TryEach(host, cwd, registry, dirs[..k + 1], modules)
    decreases k
  {
    var first := Attempt(host, cwd, registry, dirs[0], modules);
    if k == 0 {
      var rest := TryEach(host, cwd, first.registry, dirs[1..1], modules);
      assert dirs[..1][1..] == [];
    } else {
      assert forall j :: 0 <= j < k - 1 ==> dirs[1..][j] == dirs[j + 1];
      SearchStopsAtFirstSuccess(host, cwd, first.registry, dirs[1..], modules, k - 1);
      assert dirs[..k + 1][1..] == dirs[1..][..k];
    }
  }

  /** When no folder loads, every folder is attempted. */
  lemma {:induction false} SearchTriesAllWhenNoneLoads(host: Host, cwd: string, registry: map<string, Handle>,
                                                       dirs: seq<string>, modules: seq<string>)
    requires forall j :: 0 <= j < |dirs| ==> !DirectoryLoads(host, cwd, dirs[j], modules)
    ensures Search(host, cwd, registry, dirs, modules) == TryEach(host, cwd, registry, dirs, modules)
    ensures !Search(host, cwd, registry, dirs, modules).ok
    decreases |dirs|
  {
    if dirs != [] {
      var first := Attempt(host, cwd, registry, dirs[0], modules);
      assert forall j :: 0 <= j < |dirs| - 1 ==> dirs[1..][j] == dirs[j + 1];
      SearchTriesAllWhenNoneLoads(host, cwd, first.registry, dirs[1..], modules);
    }
  }

  /** `LoadUnmanagedModules(modules)` as a whole: a usable override is the
      only folder tried; without it, a missing base directory or an empty
      match fails with no effect; otherwise the search succeeds exactly when
      some matching subfolder loads every module. No registry entry is ever
      overwritten or dropped. */
  lemma LoadModulesOutcome(host: Host, cwd: string, nativePath: Option<string>,
                           registry: map<string, Handle>, modules: seq<string>)
    ensures var step := LoadModules(host, cwd, nativePath, registry, modules);
            var plan := Plan(host, cwd, nativePath);
            && (plan.FromOverride? ==> step == Attempt(host, cwd, registry, nativePath.value, modules))
            && (plan.NoBaseDirectory? || plan.NoMatchingSubdirectory? ==> step == Step(false, registry, []))
            && (step.ok <==>
                  || (plan.FromOverride? && DirectoryLoads(host, cwd, nativePath.value, modules))
                  || (plan.FromSubdirectories? &&
                      exists k :: 0 <= k < |plan.dirs| && DirectoryLoads(host, cwd, plan.dirs[k], modules)))
            && (forall k :: k in registry ==> k in step.registry && step.registry[k] == registry[k])
  {
    var plan := Plan(host, cwd, nativePath);
    match plan
    case FromOverride(dir) =>
      if DirectoryExists(host, cwd, dir) {
        RegisterAllKeepsEntries(host, FullPath(cwd, dir), registry, modules);
      }
    case NoBaseDirectory =>
    case NoMatchingSubdirectory =>
    case FromSubdirectories(dirs) =>
      SearchSucceedsIffSomeFolderLoads(host, cwd, registry, dirs, modules);
      SearchKeepsEntries(host, cwd, registry, dirs, modules);
  }

  /** A module missing from an earlier folder is still registered, with the
      zero handle of its failed load; `TryAdd` then keeps that zero when a
      later folder loads the module, so the search succeeds while the
      registry holds no usable handle for it (and the loaded one is never released). */
  lemma MissingFileShadowsLaterHandle()
    ensures var host := Host(Linux, 8, "/app", {"/a", "/b"}, {"/b/t"}, map[], map["/b/t" := 7]);
            var s := Search(host, "/", map[], ["/a", "/b"], ["t"]);
            s.ok && "t" in s.registry && s.registry["t"] == 0
  {
    var host := Host(Linux, 8, "/app", {"/a", "/b"}, {"/b/t"}, map[], map["/b/t" := 7]);
    assert Combine("/", "/a") == "/a" && Combine("/", "/b") == "/b";
    assert Combine("/a", "t") == "/a/t" && Combine("/b", "t") == "/b/t";
    assert Combine("/a", "/a/t") == "/a/t" && Combine("/b", "/b/t") == "/b/t";
    assert !ModuleLoads(host, "/a", "t") && Registers(host, "/a", "t");
    assert ModuleLoads(host, "/b", "t");
    assert ["t"][..0] == [];
    var first := Attempt(host, "/", map[], "/a", ["t"]);
    assert first.registry == map["t" := 0];
    assert !first.ok;
    var second := Attempt(host, "/", first.registry, "/b", ["t"]);
    assert second.ok && second.registry == first.registry;
    assert ["/a", "/b"][1..] == ["/b"];
  }

  /** The releases for a list of names that are all in the registry: one
      per name, in order, each on that name's handle. */
  lemma {:induction false} ReleaseCallsOfPresent(os: OS, registry: map<string, Handle>, names: seq<string>)
    requires forall n :: n in names ==> n in registry
    ensures |ReleaseCalls(os, registry, names)| == |names|
    ensures forall i :: 0 <= i < |names| ==> ReleaseCalls(os, registry, names)[i] == ReleaseCall(os, registry[names[i]])
    decreases |names|
  {
    if names != [] {
      var init := names[..|names| - 1];
      ReleaseCallsOfPresent(os, registry, init);
      assert forall i :: 0 <= i < |init| ==> init[i] == names[i];
    }
  }

  /** A list of distinct names has as many elements as its set. */
  lemma {:induction false} DistinctCardinality(names: seq<string>)
    requires Distinct(names)
    ensures |set n | n in names| == |names|
    decreases |names|
  {
    if names != [] {
      var init := names[..|names| - 1];
      var last := names[|names| - 1];
      assert Distinct(init);
      DistinctCardinality(init);
      assert (set n | n in names) == (set n | n in init) + {last};
      assert last !in init;
    }
  }

  /** Draining state: what is left is the untouched rest of `registry`, and
      `order` lists, without repetition, exactly the keys already taken. */
  predicate Drained(registry: map<string, Handle>, current: map<string, Handle>, order: seq<string>)
  {
    && (forall k :: k in current ==> k in registry && current[k] == registry[k])
    && (forall k :: k in registry ==> (k in current <==> k !in order))
    && (forall k :: k in order ==> k in registry)
    && Distinct(order)
  }

  /** Taking one more key keeps the draining state and releases that key's handle. */
  lemma DrainStep(os: OS, registry: map<string, Handle>, current: map<string, Handle>, order: seq<string>, first: string)
    requires Drained(registry, current, order) && first in current
    ensures Drained(registry, current - {first}, order + [first])
    ensures ReleaseCalls(os, registry, order + [first]) == ReleaseCalls(os, registry, order) + [ReleaseCall(os, current[first])]
  {
    assert (order + [first])[..|order|] == order;
    assert forall k :: k in order + [first] <==> k in order || k == first;
  }

  /** An emptied registry has been drained completely. */
  lemma DrainedAll(registry: map<string, Handle>, current: map<string, Handle>, order: seq<string>)
    requires Drained(registry, current, order) && |current| == 0
    ensures current == map[]
    ensures Distinct(order) && forall k :: k in order <==> k in registry
  {
  }

  /** Draining the registry releases every handle exactly once: given the
      order in which the entries were removed, there is one release per entry
      and the i-th release is on the i-th removed entry's handle. */
  lemma ReleaseEachOnce(os: OS, registry: map<string, Handle>, order: seq<string>)
    requires Distinct(order) && forall k :: k in order <==> k in registry
    ensures |ReleaseCalls(os, registry, order)| == |order| == |registry|
    ensures forall i :: 0 <= i < |order| ==> ReleaseCalls(os, registry, order)[i] == ReleaseCall(os, registry[order[i]])
  {
    ReleaseCallsOfPresent(os, registry, order);
    DistinctCardinality(order);
    assert (set n | n in order) == registry.Keys;
  }

  /** The named overload releases a handle for each listed name present in
      the registry, and only for those. */
  lemma {:induction false} ReleaseCallsOnlyPresent(os: OS, registry: map<string, Handle>, names: seq<string>)
    ensures forall c :: c in ReleaseCalls(os, registry, names) ==>
              exists n :: n in names && n in registry && c == ReleaseCall(os, registry[n])
    ensures forall n :: n in names && n in registry ==> ReleaseCall(os, registry[n]) in ReleaseCalls(os, registry, names)
    ensures (forall n :: n in names ==> n !in registry) ==> ReleaseCalls(os, registry, names) == []
    decreases |names|
  {
    if names != [] {
      var init := names[..|names| - 1];
      ReleaseCallsOnlyPresent(os, registry, init);
      assert names == init + [names[|names| - 1]];
    }
  }

  // ------------------------------------------------------------ the loader

  /** The static class `NativeModulesLoader` as an object: `_nativePath`, the
      `LoadedLibraries` dictionary, and the process's current directory. */
  class NativeModulesLoader {
    const host: Host
    var nativePath: Option<string>
    var loadedLibraries: map<string, Handle>
    var currentDirectory: string
    ghost var osCalls: seq<OsCall>

    constructor (host: Host, currentDirectory: string)
      ensures this.host == host && this.currentDirectory == currentDirectory
      ensures nativePath == None && loadedLibraries == map[] && osCalls == []
    {
      this.host := host;
      this.currentDirectory := currentDirectory;
      nativePath := None;
      loadedLibraries := map[];
      osCalls := [];
    }

    /** `SetNativePath(path = null)`: no validation at set time; `None` resets it. */
    method SetNativePath(path: Option<string>)
      modifies this`nativePath
      ensures nativePath == path
    {
      nativePath := path;
    }

    /** The `NativePath` property. */
    function NativePath(): Option<string>
      reads this
    {
      nativePath
    }

    /** `LoadLibrary(dllname)`: dispatch to the OS primitive; a failure is a zero handle. */
    method LoadLibrary(path: string) returns (handle: Handle)
      modifies this`osCalls
      ensures handle == LibraryHandle(host, path)
      ensures osCalls == old(osCalls) + [LoadCall(host.os, path)]
    {
      osCalls := osCalls + [LoadCall(host.os, path)];
      handle := LibraryHandle(host, path);
    }

    /** One turn of the per-folder loop: check the file, load it, register it
        unless it exists and failed, and report whether it exists and loaded. */
    method LoadModuleFrom(full: string, lib: string) returns (fileExistAndLoaded: bool)
      requires currentDirectory == full
      modifies this`loadedLibraries, this`osCalls
      ensures fileExistAndLoaded == ModuleLoads(host, full, lib)
      ensures loadedLibraries == RegisterStep(host, full, old(loadedLibraries), lib)
      ensures osCalls == old(osCalls) + [LoadCall(host.os, Combine(full, lib))]
    {
      var fullPath := Combine(full, lib);
      var fileExist := FileExists(host, currentDirectory, fullPath);
      var libraryPtr := LoadLibrary(fullPath);
      fileExistAndLoaded := fileExist && libraryPtr != 0;
      if !(fileExist && !fileExistAndLoaded) {
        loadedLibraries := TryAdd(loadedLibraries, lib, libraryPtr);
      }
    }

    /** The module loop of the per-folder attempt, run with the current
        directory inside the folder: every module is attempted, and the result
        accumulates `success &= fileExistAndLoaded`. */
    method LoadEachModule(full: string, modules: seq<string>) returns (success: bool)
      requires currentDirectory == full
      modifies this`loadedLibraries, this`osCalls
      ensures success == AllLoad(host, full, modules)
      ensures loadedLibraries == RegisterAll(host, full, old(loadedLibraries), modules)
      ensures osCalls == old(osCalls) + LoadCalls(host.os, full, modules)
    {
      success := true;
      var i := 0;
      while i < |modules|
        invariant 0 <= i <= |modules|
        invariant success == AllLoad(host, full, modules[..i])
        invariant loadedLibraries == RegisterAll(host, full, old(loadedLibraries), modules[..i])
        invariant osCalls == old(osCalls) + LoadCalls(host.os, full, modules[..i])
      {
        var loaded := LoadModuleFrom(full, modules[i]);
        success := success && loaded;
        PrefixStep(host, full, old(loadedLibraries), modules, i);
        i := i + 1;
      }
      assert modules[..|modules|] == modules;
    }

    /** `LoadUnmanagedModules(dir, modules)`: the per-folder attempt. On a
        normal return the current directory is what it was before. */
    method LoadUnmanagedModulesFrom(dir: string, modules: seq<string>) returns (success: bool)
      modifies this`loadedLibraries, this`currentDirectory, this`osCalls
      ensures var step := Attempt(host, old(currentDirectory), old(loadedLibraries), dir, modules);
              success == step.ok && loadedLibraries == step.registry && osCalls == old(osCalls) + step.calls
      ensures currentDirectory == old(currentDirectory)
    {
      if !DirectoryExists(host, currentDirectory, dir) {
        return false;
      }
      var oldDir := currentDirectory;
      var full := FullPath(currentDirectory, dir);
      currentDirectory := full;
      osCalls := osCalls + [SetCurrentDirectory(full)];
      success := LoadEachModule(full, modules);
      currentDirectory := oldDir;
      osCalls := osCalls + [SetCurrentDirectory(oldDir)];
    }

    /** `LoadUnmanagedModules(modules)`: the override folder alone when it is
        usable, otherwise the matching subfolders in enumeration order. */
    method LoadUnmanagedModules(modules: seq<string>) returns (ok: bool)
      modifies this`loadedLibraries, this`currentDirectory, this`osCalls
      ensures var step := LoadModules(host, old(currentDirectory), nativePath, old(loadedLibraries), modules);
              ok == step.ok && loadedLibraries == step.registry && osCalls == old(osCalls) + step.calls
      ensures currentDirectory == old(currentDirectory)
    {
      var path := NativePath();
      if path.Some? && path.value != [] && DirectoryExists(host, currentDirectory, path.value) {
        ok := LoadUnmanagedModulesFrom(path.value, modules);
        return;
      }
      var location := host.baseDirectory;
      if !DirectoryExists(host, currentDirectory, location) {
        return false;
      }
      var dirs := CandidateDirectories(host, currentDirectory);
      if |dirs| == 0 {
        return false;
      }
      ok := SearchSubdirectories(dirs, modules);
    }

    /** The loop over the matching subfolders of `LoadUnmanagedModules(modules)`:
        the first folder where every module loads ends the search. */
    method SearchSubdirectories(dirs: seq<string>, modules: seq<string>) returns (ok: bool)
      modifies this`loadedLibraries, this`currentDirectory, this`osCalls
      ensures var step := Search(host, old(currentDirectory), old(loadedLibraries), dirs, modules);
              ok == step.ok && loadedLibraries == step.registry && osCalls == old(osCalls) + step.calls
      ensures currentDirectory == old(currentDirectory)
    {
      ghost var cwd := currentDirectory;
      ghost var whole := SearchFrom(host, cwd, loadedLibraries, osCalls, dirs, 0, modules);
      SearchFromIsSearch(host, cwd, loadedLibraries, osCalls, dirs, 0, modules);
      assert dirs[0..] == dirs;
      var i := 0;
      while i < |dirs|
        invariant 0 <= i <= |dirs|
        invariant currentDirectory == cwd
        invariant whole == SearchFrom(host, cwd, loadedLibraries, osCalls, dirs, i, modules)
      {
        var result := LoadUnmanagedModulesFrom(dirs[i], modules);
        if result {
          return true;
        }
        i := i + 1;
      }
      return false;
    }

    /** `LoadLibraries(unmanagedModule)`: throws when the module cannot be loaded. */
    method LoadLibraries(lib: string) returns (r: Outcome<string>)
      modifies this`loadedLibraries, this`currentDirectory, this`osCalls
      ensures var step := LoadModules(host, old(currentDirectory), nativePath, old(loadedLibraries), [lib]);
              (r.Pass? <==> step.ok) && loadedLibraries == step.registry && osCalls == old(osCalls) + step.calls
      ensures r.Fail? ==> r.error == "Unable to load library " + lib
      ensures currentDirectory == old(currentDirectory)
    {
      var ok := LoadUnmanagedModules([lib]);
      r := if ok then Pass else Fail("Unable to load library " + lib);
    }

    /** `LoadLibraries(unmanagedModules)`: throws naming every module when the set cannot be loaded. */
    method LoadLibrariesArray(modules: seq<string>) returns (r: Outcome<string>)
      modifies this`loadedLibraries, this`currentDirectory, this`osCalls
      ensures var step := LoadModules(host, old(currentDirectory), nativePath, old(loadedLibraries), modules);
              (r.Pass? <==> step.ok) && loadedLibraries == step.registry && osCalls == old(osCalls) + step.calls
      ensures r.Fail? ==> r.error == "Unable to load libraries " + JoinModules(modules)
      ensures currentDirectory == old(currentDirectory)
    {
      var ok := LoadUnmanagedModules(modules);
      r := if ok then Pass else Fail("Unable to load libraries " + JoinModules(modules));
    }

    /** `FreeUnmanagedModules()`: drain the registry, releasing each removed
        handle once. `order` is the (unspecified) order in which keys were taken. */
    method FreeUnmanagedModules() returns (ghost order: seq<string>)
      modifies this`loadedLibraries, this`osCalls
      ensures loadedLibraries == map[]
      ensures Distinct(order) && forall k :: k in order <==> k in old(loadedLibraries)
      ensures osCalls == old(osCalls) + ReleaseCalls(host.os, old(loadedLibraries), order)
    {
      order := [];
      while |loadedLibraries| != 0
        invariant Drained(old(loadedLibraries), loadedLibraries, order)
        invariant osCalls == old(osCalls) + ReleaseCalls(host.os, old(loadedLibraries), order)
        decreases loadedLibraries.Keys
      {
        var first :| first in loadedLibraries;
        var ptr := loadedLibraries[first];
        DrainStep(host.os, old(loadedLibraries), loadedLibraries, order, first);
        loadedLibraries := loadedLibraries - {first};
        osCalls := osCalls + [ReleaseCall(host.os, ptr)];
        order := order + [first];
      }
      DrainedAll(old(loadedLibraries), loadedLibraries, order);
    }

    /** `FreeUnmanagedModules(names)`: release the named entries that are
        present, skip the others, and leave the registry as it is. */
    method FreeUnmanagedModulesNamed(names: seq<string>)
      modifies this`osCalls
      ensures osCalls == old(osCalls) + ReleaseCalls(host.os, loadedLibraries, names)
    {
      var i := 0;
      while i < |names|
        invariant 0 <= i <= |names|
        invariant osCalls == old(osCalls) + ReleaseCalls(host.os, loadedLibraries, names[..i])
      {
        var name := names[i];
        if name in loadedLibraries {
          osCalls := osCalls + [ReleaseCall(host.os, loadedLibraries[name])];
        }
        assert names[..i + 1][..i] == names[..i];
        i := i + 1;
      }
      assert names[..|names|] == names;
    }
  }
}
