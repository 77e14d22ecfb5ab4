/** `PlatformUtils.IsWindows`: which operating-system families count as Windows. */
module Platform {

  /**
   * The members of .NET's `PlatformID` enumeration, in declaration order:
   * the seven of .NET Framework and Mono, and `Other`, which .NET 5 and
   * later add.
   */
  datatype PlatformId = Win32S | Win32Windows | Win32NT | WinCE | Unix | Xbox | MacOSX | Other

  /** `IsWindows`: the platform is one of the four Windows families. */
  predicate IsWindows(platform: PlatformId)
  {
    platform == Win32NT || platform == Win32Windows || platform == Win32S || platform == WinCE
  }

  /** The numeric value .NET assigns to each member of `PlatformID`. */
  function Code(platform: PlatformId): nat
  {
    match platform
    case Win32S => 0
    case Win32Windows => 1
    case Win32NT => 2
    case WinCE => 3
    case Unix => 4
    case Xbox => 5
    case MacOSX => 6
    case Other => 7
  }

  /** Distinct members have distinct values, so the classification by value is one by member. */
  lemma CodeInjective(a: PlatformId, b: PlatformId)
    ensures Code(a) == Code(b) <==> a == b
  {
  }

  /** The Windows families are exactly the first four values of the enumeration. */
  lemma IsWindowsByCode(platform: PlatformId)
    ensures IsWindows(platform) <==> Code(platform) <= 3
  {
  }

  /** The four Windows families are classified as Windows. */
  lemma WindowsFamilies()
    ensures IsWindows(Win32NT) && IsWindows(Win32Windows) && IsWindows(Win32S) && IsWindows(WinCE)
  {
  }

  /** Every other platform, the Unix family included, is not. */
  lemma OtherFamilies()
    ensures !IsWindows(Unix) && !IsWindows(MacOSX) && !IsWindows(Xbox) && !IsWindows(Other)
  {
  }
}
