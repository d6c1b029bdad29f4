/**
 * The forked application's command line: the choice of the Java executable
 * (`javaExecutable`) and the argument list built in the fork task's `onlyIf`
 * block.
 */
module Launcher {
  import opened Wrappers
  import opened PropertyFilter

  // ---------------------------------------------------------------------------
  // Java executable
  // ---------------------------------------------------------------------------

  /** `File(parent, child).path` for a normalised parent path. */
  function ChildPath(parent: string, separator: char, child: string): string {
    parent + [separator] + child
  }

  /**
   * `bin/java` and `bin/java.exe` under the runtime's home directory, in that
   * order. Both lie under `javaHome`, they differ, and neither is the bare
   * fallback command, so the caller can tell which case it got.
   */
  function JavaCandidates(javaHome: string, separator: char): (c: seq<string>)
    ensures |c| == 2 && c[0] != c[1]
    ensures forall k :: 0 <= k < |c| ==> javaHome <= c[k] && |c[k]| > |FallbackJava|
  {
    var binDir := ChildPath(javaHome, separator, "bin");
    [ChildPath(binDir, separator, "java"), ChildPath(binDir, separator, "java.exe")]
  }

  /** The bare command used when no candidate exists. */
  const FallbackJava: string := "java"

  /** `firstOrNull { it.exists() }`: the first candidate that exists, if any. */
  function FirstExisting(candidates: seq<string>, fileExists: string -> bool): (r: Option<string>)
    ensures r.Some? ==>
      exists i :: && 0 <= i < |candidates| && candidates[i] == r.value && fileExists(candidates[i])
                  && forall j :: 0 <= j < i ==> !fileExists(candidates[j])
    ensures r.None? <==> forall i :: 0 <= i < |candidates| ==> !fileExists(candidates[i])
  {
    if |candidates| == 0 then None
    else if fileExists(candidates[0]) then Some(candidates[0])
    else
      var r := FirstExisting(candidates[1..], fileExists);
      assert forall i :: 1 <= i < |candidates| ==> candidates[i] == candidates[1..][i - 1];
      r
  }

  /**
   * `javaExecutable`: `bin/java` if it exists, else `bin/java.exe` if that
   * exists, else the bare `java` command. A candidate path is returned only if
   * the file exists.
   */
  function JavaExecutable(javaHome: string, separator: char, fileExists: string -> bool): (r: string)
    ensures var c := JavaCandidates(javaHome, separator);
      && (fileExists(c[0]) ==> r == c[0])
      && (!fileExists(c[0]) && fileExists(c[1]) ==> r == c[1])
      && (r == FallbackJava <==> !fileExists(c[0]) && !fileExists(c[1]))
    ensures r in JavaCandidates(javaHome, separator) ==> fileExists(r)
    ensures r == FallbackJava || r in JavaCandidates(javaHome, separator)
  {
    var c := JavaCandidates(javaHome, separator);
    FirstExisting(c, fileExists).GetOr(FallbackJava)
  }

  // ---------------------------------------------------------------------------
  // Command line
  // ---------------------------------------------------------------------------

  /** What the forked JVM is started with. */
  datatype ForkConfiguration = ForkConfiguration(
    executable: string,
    classpath: string,
    flags: seq<string>,
    mainClass: string)

  const ClasspathOption: string := "-cp"

  /** `listOf(executable, "-cp") + listOf(classpath) + flags + listOf(mainClass)` */
  function CommandLine(config: ForkConfiguration): (cl: seq<string>)
    ensures |cl| == 4 + |config.flags|
    ensures cl[0] == config.executable && cl[1] == ClasspathOption && cl[2] == config.classpath
    ensures cl[3..|cl| - 1] == config.flags
    ensures cl[|cl| - 1] == config.mainClass
  {
    [config.executable, ClasspathOption, config.classpath] + config.flags + [config.mainClass]
  }

  /** Reads a command line back into its parts, when it has the launcher's shape. */
  function ParseCommandLine(cl: seq<string>): Option<ForkConfiguration> {
    if |cl| >= 4 && cl[1] == ClasspathOption then
      Some(ForkConfiguration(cl[0], cl[2], cl[3..|cl| - 1], cl[|cl| - 1]))
    else
      None
  }

  /** Every fork configuration can be read back from its command line. */
  lemma ParseCommandLineInverse(config: ForkConfiguration)
    ensures ParseCommandLine(CommandLine(config)) == Some(config)
  {
  }

  /** Every command line of the launcher's shape is the command line of what it reads back as. */
  lemma CommandLineFromParse(cl: seq<string>)
    requires ParseCommandLine(cl).Some?
    ensures CommandLine(ParseCommandLine(cl).value) == cl
  {
    assert cl == [cl[0], cl[1], cl[2]] + cl[3..|cl| - 1] + [cl[|cl| - 1]];
  }

  /**
   * The command line of the forked application: the executable, `-cp`, the boot
   * jar, the extracted `-D` flags exactly as `extractProperties` returns them,
   * and the launcher class.
   */
  function ForkCommandLine(
    javaExecutable: string, bootJar: string, fp: ForkProperties, classpathName: string, launcherClass: string)
    : (cl: seq<string>)
    ensures var flags := ExtractProperties(fp, classpathName).flags;
      && |cl| == 4 + |flags|
      && cl[0] == javaExecutable && cl[1] == ClasspathOption && cl[2] == bootJar
      && cl[3..|cl| - 1] == flags
      && cl[|cl| - 1] == launcherClass
    ensures forall k :: 3 <= k < |cl| - 1 ==> IsFlag(cl[k])
    ensures fp.Absent? || fp.OtherValue? ==> cl == [javaExecutable, ClasspathOption, bootJar, launcherClass]
  {
    var flags := ExtractProperties(fp, classpathName).flags;
    var cl := CommandLine(ForkConfiguration(javaExecutable, bootJar, flags, launcherClass));
    assert forall k :: 3 <= k < |cl| - 1 ==> cl[k] == flags[k - 3];
    cl
  }

  /** Result of the fork task's `onlyIf` block. */
  datatype ForkOutcome =
    | Launch(commandLine: seq<string>, warned: bool)  // `warned`: `extractProperties` logged its warning
    | NoBootJarOutput  // `outputs.files.first()` throws on an empty collection

  /**
   * The `onlyIf` block of the fork task: take the first output file of the
   * boot-jar task and set the command line from `javaExecutable` and
   * `extractProperties`. The block always answers `true`, so the fork is never
   * skipped; an empty output collection ends in an exception before anything
   * else is evaluated.
   */
  function OnlyIf(
    bootJarOutputs: seq<string>, javaHome: string, separator: char, fileExists: string -> bool,
    fp: ForkProperties, classpathName: string, launcherClass: string)
    : (r: ForkOutcome)
    ensures r.NoBootJarOutput? <==> bootJarOutputs == []
    ensures r.Launch? ==>
      var java := JavaExecutable(javaHome, separator, fileExists);
      var flags := ExtractProperties(fp, classpathName).flags;
      ParseCommandLine(r.commandLine) == Some(ForkConfiguration(java, bootJarOutputs[0], flags, launcherClass))
    ensures r.Launch? ==> (r.warned <==> fp.OtherValue?)
    ensures r.Launch? ==> r.commandLine[0] == FallbackJava || fileExists(r.commandLine[0])
  {
    if |bootJarOutputs| == 0 then NoBootJarOutput
    else
      var java := JavaExecutable(javaHome, separator, fileExists);
      var extraction := ExtractProperties(fp, classpathName);
      var cl := ForkCommandLine(java, bootJarOutputs[0], fp, classpathName, launcherClass);
      ParseCommandLineInverse(ForkConfiguration(java, bootJarOutputs[0], extraction.flags, launcherClass));
      Launch(cl, extraction.warned)
  }
}
