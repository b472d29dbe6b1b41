/**
 * The platform detector: the operating-system family decided once by the
 * static constructor, and the architecture tag derived from the pointer size.
 */
module Platform {

  /** Operating-system family, in the declaration order of the source's enum
      (so `Windows` is the enum's default value). */
  datatype OS = Windows | Linux | MacOS | IOS | Android | WindowsPhone

  /** The architecture tag for a native pointer size given in bytes.
      Total: every size has a tag and nothing is thrown. */
  function PlatformName(pointerSize: int): (name: string)
    ensures name == "x86" <==> pointerSize == 4
    ensures name == "x64" <==> pointerSize == 8
    ensures name == "Unknown" <==> pointerSize != 4 && pointerSize != 8
  {
    match pointerSize
    case 4 => "x86"
    case 8 => "x64"
    case _ => "Unknown"
  }

  /** Numeric values of the runtime's PlatformID enumeration that the detector tests. */
  const PlatformIdUnix := 4
  const PlatformIdMacOSX := 6
  const PlatformIdMonoUnix := 128

  /** What the probe through libc's `uname` gave: it threw (libc not callable),
      or it returned a status and the ANSI string at the start of the buffer. */
  datatype UnameProbe = UnameThrew | UnameReturned(status: int, sysname: string)

  /** The compilation target of the library together with the runtime facts
      that the static constructor of that build consults. */
  datatype Runtime =
    | Net45(platformId: int, uname: UnameProbe)
    | NetStandard13(isOSX: bool, isLinux: bool)
      /** neither NET45 nor NETSTANDARD1_3 defined: the constructor assigns nothing */
    | OtherTarget

  /** True when the probe says the Unix kernel is Darwin. */
  predicate ReportsDarwin(uname: UnameProbe)
  {
    uname.UnameReturned? && uname.status == 0 && uname.sysname == "Darwin"
  }

  /** The NET45 build: PlatformID MacOSX gives MacOS; ids 4 and 128 give Linux,
      refined to MacOS only by a successful `uname` reporting Darwin; anything
      else is Windows. A throwing or failing probe leaves Linux. */
  function DetectNet45(platformId: int, uname: UnameProbe): (os: OS)
    ensures os in {Windows, Linux, MacOS}
    ensures os == MacOS <==>
              platformId == PlatformIdMacOSX ||
              ((platformId == PlatformIdUnix || platformId == PlatformIdMonoUnix) && ReportsDarwin(uname))
    ensures os == Windows <==>
              platformId !in {PlatformIdMacOSX, PlatformIdUnix, PlatformIdMonoUnix}
    ensures !ReportsDarwin(uname) && platformId != PlatformIdMacOSX ==> os != MacOS
  {
    if platformId == PlatformIdMacOSX then MacOS
    else
      var first := if platformId == PlatformIdUnix || platformId == PlatformIdMonoUnix then Linux else Windows;
      if first == Linux && ReportsDarwin(uname) then MacOS else first
  }

  /** The NETSTANDARD1_3 build: OSX is asked first, then Linux; anything else is Windows. */
  function DetectNetStandard13(isOSX: bool, isLinux: bool): (os: OS)
    ensures os in {Windows, Linux, MacOS}
    ensures os == MacOS <==> isOSX
    ensures os == Linux <==> !isOSX && isLinux
    ensures os == Windows <==> !isOSX && !isLinux
  {
    if isOSX then MacOS else if isLinux then Linux else Windows
  }

  /** The value of the get-only `OperationSystem` property: computed once by the
      static constructor from the runtime and never assigned again. A build that
      defines neither symbol leaves the enum's default value, Windows. */
  function OperationSystem(rt: Runtime): (os: OS)
    ensures os !in {IOS, Android, WindowsPhone}
  {
    match rt
    case Net45(id, probe) => DetectNet45(id, probe)
    case NetStandard13(osx, linux) => DetectNetStandard13(osx, linux)
    case OtherTarget => Windows
  }
}
