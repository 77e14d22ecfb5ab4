/**
 * `CreateAndStartProcess` up to the call of `Process.Start`: the start
 * information the primary builds for its child executable.
 */
module Launch {
  import opened Platform

  /** The fields of `ProcessStartInfo` the primary sets. */
  datatype StartInfo = StartInfo(
    fileName: string,
    arguments: string,
    workingDirectory: string,
    verb: string,
    createNoWindow: bool,
    useShellExecute: bool,
    redirectStandardOutput: bool,
    redirectStandardError: bool,
    errorDialog: bool)

  const ChildProcessName: string := "TestProcessChild.exe"
  const MonoRunner: string := "mono"

  /**
   * `Path.Combine(baseDirectory, name)`. The application base directory
   * already ends with a directory separator, so the join is a concatenation.
   */
  function CombinePath(directory: string, name: string): string
  {
    directory + name
  }

  /**
   * The start information for child executable `name` in `baseDirectory`:
   * no window, no shell, both output streams redirected, no error dialog,
   * the base directory as working directory; on Windows the executable is
   * run directly, elsewhere it is the sole argument of `mono`.
   */
  function CreateStartInfo(platform: PlatformId, baseDirectory: string, name: string): (info: StartInfo)
    ensures info.workingDirectory == baseDirectory && info.verb == ""
    ensures info.createNoWindow && !info.useShellExecute && !info.errorDialog
    ensures info.redirectStandardOutput && info.redirectStandardError
  {
    var path := CombinePath(baseDirectory, name);
    var common := StartInfo("", "", baseDirectory, "", true, false, true, true, false);
    if IsWindows(platform) then common.(fileName := path)
    else common.(fileName := MonoRunner, arguments := path)
  }

  /** The characters that separate the arguments of the `Arguments` command line. */
  const ArgumentSeparators: set<char> := {' ', '\t'}

  /** The text has no argument separator and no quote, so a command line reads it as one argument. */
  predicate IsPlainArgument(s: string)
  {
    s != [] && forall k :: 0 <= k < |s| ==> s[k] !in ArgumentSeparators && s[k] != '"'
  }

  /** The length of the word at the start of `s`: its characters before the first separator. */
  function WordLength(s: string): (n: nat)
    ensures n <= |s|
    ensures forall k :: 0 <= k < n ==> s[k] !in ArgumentSeparators
    ensures n < |s| ==> s[n] in ArgumentSeparators
  {
    if s == [] || s[0] in ArgumentSeparators then 0
    else
      var n := 1 + WordLength(s[1..]);
      assert forall k :: 1 <= k < n ==> s[k] == s[1..][k - 1];
      n
  }

  /**
   * The arguments a command line stands for: the maximal runs of
   * non-separator characters, in order. Quoting and escaping are not modelled.
   */
  function CommandLineArguments(line: string): (args: seq<string>)
    ensures forall i :: 0 <= i < |args| ==> args[i] != []
    ensures forall i, k :: 0 <= i < |args| && 0 <= k < |args[i]| ==> args[i][k] !in ArgumentSeparators
    decreases |line|
  {
    if line == [] then []
    else if line[0] in ArgumentSeparators then CommandLineArguments(line[1..])
    else
      var n := WordLength(line);
      [line[..n]] + CommandLineArguments(line[n..])
  }

  /** A text without separators is a command line of exactly one argument, itself. */
  lemma SingleArgument(s: string)
    requires s != [] && forall k :: 0 <= k < |s| ==> s[k] !in ArgumentSeparators
    ensures CommandLineArguments(s) == [s]
  {
    assert WordLength(s) == |s|;
    assert s[..|s|] == s && s[|s|..] == [];
  }

  /**
   * The program that a start information runs: for `mono` with arguments,
   * the first argument, which the runner loads; otherwise the file itself.
   */
  function LaunchedProgram(info: StartInfo): string
  {
    var args := CommandLineArguments(info.arguments);
    if info.fileName == MonoRunner && args != [] then args[0] else info.fileName
  }

  /**
   * The plan depends on the platform alone: direct execution on Windows,
   * `mono` with the path everywhere else (`CreateStartInfo` unfolded).
   */
  lemma PlanByPlatform(platform: PlatformId, baseDirectory: string, name: string)
    ensures var info := CreateStartInfo(platform, baseDirectory, name);
      if IsWindows(platform) then info.fileName == CombinePath(baseDirectory, name) && info.arguments == ""
      else info.fileName == MonoRunner && info.arguments == CombinePath(baseDirectory, name)
  {
  }

  /**
   * The program that runs is the child executable in the base directory:
   * on Windows always, elsewhere when the combined path is read as a single
   * argument, which the unquoted `Arguments` guarantees only for a path
   * without separators or quotes.
   */
  lemma LaunchRunsChild(platform: PlatformId, baseDirectory: string, name: string)
    requires !IsWindows(platform) ==> IsPlainArgument(CombinePath(baseDirectory, name))
    ensures LaunchedProgram(CreateStartInfo(platform, baseDirectory, name)) == CombinePath(baseDirectory, name)
  {
    if !IsWindows(platform) {
      SingleArgument(CombinePath(baseDirectory, name));
    }
  }

  /**
   * Off Windows, a combined path with a separator in it, such as a base
   * directory with a space, is cut into several arguments: what `mono`
   * runs is not the child.
   */
  lemma SeparatedPathMissesChild(platform: PlatformId, baseDirectory: string, name: string, k: nat)
    requires !IsWindows(platform)
    requires k < |CombinePath(baseDirectory, name)| && CombinePath(baseDirectory, name)[k] in ArgumentSeparators
    ensures LaunchedProgram(CreateStartInfo(platform, baseDirectory, name)) != CombinePath(baseDirectory, name)
  {
    var path := CombinePath(baseDirectory, name);
    var args := CommandLineArguments(path);
    if args == [] {
      assert MonoRunner[0] !in ArgumentSeparators && MonoRunner[1] !in ArgumentSeparators;
      assert MonoRunner[2] !in ArgumentSeparators && MonoRunner[3] !in ArgumentSeparators;
      assert |MonoRunner| == 4;
    }
  }
}
