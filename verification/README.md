# springdoc-openapi Gradle plugin: fork command line, in Dafny

The plugin generates an OpenAPI document during a Gradle build. It starts the
Spring Boot application in a forked JVM, reads the API document from it, and
then stops the fork. This project models the plugin's only real computation:
how the fork's command line is built.

- `extractProperties` turns the user's `forkProperties` setting into `-D`
  system-property flags. The setting may be absent, a `String`, a
  `java.util.Properties`, or of some other type. Any flag that would override
  the classpath property (`CLASS_PATH_PROPERTY_NAME`) is left out.
- `javaExecutable` picks the Java executable: `bin/java` or `bin/java.exe`
  under `java.home`, whichever exists first, and otherwise the bare `java`.
- The fork task's `onlyIf` block sets the command line to
  `[java, "-cp", bootJar] + flags + [PROPS_LAUNCHER_CLASS]`.

`CLASS_PATH_PROPERTY_NAME` and `PROPS_LAUNCHER_CLASS` are defined in source
files that are not part of this model, so they are parameters
(`classpathName`, `launcherClass`). The file-existence check, `java.home`
and the platform's path separator are parameters as well.

Modules:

- `Wrappers` (wrappers.dfy): `Option`.
- `Text` (text.dfy): the Kotlin string operations the code calls.
  These are `Char.isWhitespace`, `trim()`,
  `startsWith(prefix, ignoreCase = true)` and `split("-D")`.
- `Seqs` (seqs.dfy): `filter`, `filterNot` and `map` on sequences.
  It proves order preservation, occurrence counts and behaviour under permutation.
- `PropertyFilter` (property_filter.dfy): `extractProperties` and its
  exact characterisation.
- `Launcher` (launcher.dfy): `javaExecutable`, the command line and the
  `onlyIf` block.
- `Scenarios` (scenarios.dfy): the corner cases of the String branch,
  each stated for every input of its shape, plus one Properties-branch
  example.

## Behaviour worth knowing

- The String branch tests the classpath name against the fragment before it
  is trimmed (`src/main/kotlin/org/springdoc/openapi/gradle/plugin/OpenApiGradlePlugin.kt` line 73), and trims afterwards (line 74). So
  `-D classpath=x`, with a space after `-D`, is kept and becomes
  `-Dclasspath=x` (`Scenarios.WhitespaceLetsClasspathThrough`): the classpath filter
  sees the fragment with its leading whitespace, not the trimmed text that
  ends up in the flag.
- A whitespace-only fragment passes both filters and becomes a bare `-D`
  (`Scenarios.WhitespaceFragmentBecomesBareFlag`).
- A `-D` inside a value starts a new flag (`Scenarios.DelimiterInsideValue`).
- The fork is never skipped: the `onlyIf` predicate always answers `true`, and
  `outputs.files.first()` throws when the boot-jar task has no output file.
  `Launcher.OnlyIf` yields `NoBootJarOutput` in that case and never a skip.

## Model

| member | source | states |
|---|---|---|
| PropertyFilter.ExtractProperties | src/main/kotlin/org/springdoc/openapi/gradle/plugin/OpenApiGradlePlugin.kt:67-83 | The warning is raised exactly for an unsupported value type. Absent and unsupported values give no flags. Every flag starts with `-D`. There are at most as many flags as split fragments, or as property entries. |
| PropertyFilter.StringBranch | src/main/kotlin/org/springdoc/openapi/gradle/plugin/OpenApiGradlePlugin.kt:70-74 | String branch, exactly: the flags are the trimmed, `-D`-prefixed fragments of `split("-D")` at increasing positions, in order. A position is kept iff its fragment is non-empty and, untrimmed, does not start with the classpath name ignoring case. |
| PropertyFilter.StringFlagsWellFormed | src/main/kotlin/org/springdoc/openapi/gradle/plugin/OpenApiGradlePlugin.kt:70-74 | Each String-branch flag is `-D` followed by text with no whitespace at either end and no further `-D`. |
| PropertyFilter.PropertiesBranch | src/main/kotlin/org/springdoc/openapi/gradle/plugin/OpenApiGradlePlugin.kt:75-77 | Properties branch, exactly: one `-Dkey=value` per entry whose key does not start with the classpath name ignoring case, in entry order, and nothing else. |
| PropertyFilter.PropertiesOrderIrrelevant | src/main/kotlin/org/springdoc/openapi/gradle/plugin/OpenApiGradlePlugin.kt:75-77 | Entries given in any order yield the same multiset of flags, so the unspecified `Properties` iteration order does not matter. |
| Text.Trim | src/main/kotlin/org/springdoc/openapi/gradle/plugin/OpenApiGradlePlugin.kt:74 | `trim()` leaves no whitespace at either end. It removes only whitespace before and after the infix it returns. |
| Text.TrimUnique | src/main/kotlin/org/springdoc/openapi/gradle/plugin/OpenApiGradlePlugin.kt:74 | Any whitespace-only stripping of a string that leaves clean ends is the result of `trim()`. |
| Text.TrimIdempotent | src/main/kotlin/org/springdoc/openapi/gradle/plugin/OpenApiGradlePlugin.kt:74 | Trimming twice is the same as trimming once. |
| Text.TrimEmptyIff | src/main/kotlin/org/springdoc/openapi/gradle/plugin/OpenApiGradlePlugin.kt:74 | `trim()` gives the empty string iff the input is all whitespace. This is why a whitespace-only fragment becomes the bare flag `-D`. |
| Text.StartsWithIgnoreCaseIff | src/main/kotlin/org/springdoc/openapi/gradle/plugin/OpenApiGradlePlugin.kt:73 | A case-insensitive prefix test holds iff the lower-cased prefix of the string equals the lower-cased name (ASCII letters). |
| Text.SplitDelimiterFreeFragments | src/main/kotlin/org/springdoc/openapi/gradle/plugin/OpenApiGradlePlugin.kt:71 | No fragment of `split("-D")` contains `-D`: the input is cut at every occurrence. |
| Text.JoinSplit | src/main/kotlin/org/springdoc/openapi/gradle/plugin/OpenApiGradlePlugin.kt:71 | Joining the fragments of `split("-D")` with `-D` gives back the input. |
| Text.SplitJoin | src/main/kotlin/org/springdoc/openapi/gradle/plugin/OpenApiGradlePlugin.kt:71 | Splitting fragments joined with `-D` gives back those fragments, when none of them contains `-D`. |
| Seqs.FilterKeepsOrder | src/main/kotlin/org/springdoc/openapi/gradle/plugin/OpenApiGradlePlugin.kt:72-73 | `filter` is order-preserving: the j-th kept element is the element at the j-th kept position, and positions increase. A position is kept iff its element satisfies the predicate. |
| Seqs.FilterCounts | src/main/kotlin/org/springdoc/openapi/gradle/plugin/OpenApiGradlePlugin.kt:72-73 | `filter` keeps every occurrence of a satisfying element and no occurrence of any other element. |
| Seqs.FilterFilter | src/main/kotlin/org/springdoc/openapi/gradle/plugin/OpenApiGradlePlugin.kt:72-73 | `filter` followed by `filterNot` keeps exactly the elements that pass both tests. |
| Seqs.FilterPermutation | src/main/kotlin/org/springdoc/openapi/gradle/plugin/OpenApiGradlePlugin.kt:75-76 | Filtering a permutation gives a permutation of the filtered sequence. |
| Seqs.MapSeqPermutation | src/main/kotlin/org/springdoc/openapi/gradle/plugin/OpenApiGradlePlugin.kt:77 | Mapping a permutation gives a permutation of the mapped sequence. |
| PropertyFilter.StringFlags | src/main/kotlin/org/springdoc/openapi/gradle/plugin/OpenApiGradlePlugin.kt:70-74 | The String branch yields at most one flag per fragment of `split("-D")`, each starting with `-D`. `PropertyFilter.StringBranch` pins it down exactly. |
| PropertyFilter.FragmentFlag | src/main/kotlin/org/springdoc/openapi/gradle/plugin/OpenApiGradlePlugin.kt:74 | `"-D${it.trim()}"` is a `-D` flag whose text after the prefix is the trimmed fragment. |
| PropertyFilter.PropertyFlags | src/main/kotlin/org/springdoc/openapi/gradle/plugin/OpenApiGradlePlugin.kt:75-77 | The Properties branch yields at most one flag per entry, each starting with `-D`. `PropertyFilter.PropertiesBranch` pins it down exactly. |
| PropertyFilter.EntryFlag | src/main/kotlin/org/springdoc/openapi/gradle/plugin/OpenApiGradlePlugin.kt:77 | `"-D${it.key}=${it.value}"` is a `-D` flag; `PropertyFilter.PropertiesBranch` gives its text. |
| Text.IsWhitespace | src/main/kotlin/org/springdoc/openapi/gradle/plugin/OpenApiGradlePlugin.kt:74 | The characters `trim()` strips: JVM `Char.isWhitespace`, i.e. 9-13, 28-31, space, U+00A0, U+1680, U+2000-U+200A, U+2028, U+2029, U+202F, U+205F and U+3000. `Text.Trim`, `Text.TrimUnique` and `Text.TrimEmptyIff` state what trimming does with them. |
| Text.StartsWithIgnoreCase | src/main/kotlin/org/springdoc/openapi/gradle/plugin/OpenApiGradlePlugin.kt:73 | `startsWith(name, true)`, here and at line 76: the name is no longer than the string and matches its prefix character by character ignoring case. `Text.StartsWithIgnoreCaseIff` gives the lower-case reference form. |
| Text.Split | src/main/kotlin/org/springdoc/openapi/gradle/plugin/OpenApiGradlePlugin.kt:71 | `split("-D")` yields at least one fragment, the first being a prefix of the input. `Text.JoinSplit`, `Text.SplitJoin` and `Text.SplitDelimiterFreeFragments` together make it the unique cut into `-D`-free pieces. |
| Seqs.Filter | src/main/kotlin/org/springdoc/openapi/gradle/plugin/OpenApiGradlePlugin.kt:72-73 | `filter` (and `filterNot`, also at line 76) never lengthens its input. `Seqs.FilterKeepsOrder` and `Seqs.FilterCounts` state which elements it keeps and in which order. |
| Seqs.MapSeq | src/main/kotlin/org/springdoc/openapi/gradle/plugin/OpenApiGradlePlugin.kt:74 | `map` (here and at line 77) yields one image per element, position by position. `Seqs.MapSeqPermutation` states its behaviour under reordering. |
| Launcher.JavaCandidates | src/main/kotlin/org/springdoc/openapi/gradle/plugin/OpenApiGradlePlugin.kt:19-20 | The two candidates `bin/java` and `bin/java.exe` lie under `java.home`, differ from each other and from the bare `java` fallback. |
| Launcher.FirstExisting | src/main/kotlin/org/springdoc/openapi/gradle/plugin/OpenApiGradlePlugin.kt:20-21 | `firstOrNull { it.exists() }` returns a candidate that exists and has no existing candidate before it. It returns nothing iff no candidate exists. |
| Launcher.JavaExecutable | src/main/kotlin/org/springdoc/openapi/gradle/plugin/OpenApiGradlePlugin.kt:17-21 | The result is `bin/java` if it exists, else `bin/java.exe` if it exists, else `java`. A candidate path is returned only if it exists. |
| Launcher.CommandLine | src/main/kotlin/org/springdoc/openapi/gradle/plugin/OpenApiGradlePlugin.kt:46-47 | The command line has length 4 + the number of flags. It holds the executable, `-cp` and the classpath first, then the flags unchanged, and the main class last. |
| Launcher.ParseCommandLineInverse | src/main/kotlin/org/springdoc/openapi/gradle/plugin/OpenApiGradlePlugin.kt:46-47 | Every fork configuration can be read back from its command line. |
| Launcher.CommandLineFromParse | src/main/kotlin/org/springdoc/openapi/gradle/plugin/OpenApiGradlePlugin.kt:46-47 | A list of the launcher's shape is the command line of the configuration it reads back as. |
| Launcher.ForkCommandLine | src/main/kotlin/org/springdoc/openapi/gradle/plugin/OpenApiGradlePlugin.kt:46-47 | The fork's command line is the Java executable, `-cp`, the boot jar, the flags exactly as `extractProperties` returns them, and the launcher class. Every middle element is a `-D` flag. With no usable `forkProperties`, it has just those four elements. |
| Launcher.OnlyIf | src/main/kotlin/org/springdoc/openapi/gradle/plugin/OpenApiGradlePlugin.kt:44-49 | An empty boot-jar output collection ends in the exception, and only then. Otherwise the command line reads back as exactly (`javaExecutable` for the given `java.home` and file system, first output file, extracted flags, launcher class), its executable is `java` or an existing file, and the warning is logged iff `forkProperties` has an unsupported type. |
| Scenarios.SingleFragment | src/main/kotlin/org/springdoc/openapi/gradle/plugin/OpenApiGradlePlugin.kt:70-74 | `-D` followed by one fragment gives one trimmed flag if the fragment is non-empty and not a classpath override, and no flag otherwise. |
| Scenarios.ClasspathOverrideDropped | src/main/kotlin/org/springdoc/openapi/gradle/plugin/OpenApiGradlePlugin.kt:73 | `-D<name>…` is dropped when `<name>` matches the classpath name in any letter case. |
| Scenarios.WhitespaceLetsClasspathThrough | src/main/kotlin/org/springdoc/openapi/gradle/plugin/OpenApiGradlePlugin.kt:73-74 | With whitespace between `-D` and the classpath name, the override is kept. The emitted flag's text then starts with the classpath name. |
| Scenarios.WhitespaceFragmentBecomesBareFlag | src/main/kotlin/org/springdoc/openapi/gradle/plugin/OpenApiGradlePlugin.kt:72-74 | A whitespace-only fragment yields the bare flag `-D`. |
| Scenarios.DelimiterInsideValue | src/main/kotlin/org/springdoc/openapi/gradle/plugin/OpenApiGradlePlugin.kt:71-74 | `-Da-Db` yields the two flags `-Da` and `-Db`. |
| Scenarios.ClasspathEntryDroppedExample | src/main/kotlin/org/springdoc/openapi/gradle/plugin/OpenApiGradlePlugin.kt:75-77 | The entries `alpha=1` and `Classpath=x` with classpath name `classpath` yield just `-Dalpha=1`, without a warning. |

## Left out

- Gradle wiring: `apply`, plugin application, the extension, `afterEvaluate`, task registration, `dependsOn` and `finalizedBy` (lines 25-64). This is host build-system behaviour.
- Forking the process and `processHandle.abort()` in the finalizer (line 55). This is OS process control, and the fork task type is not part of this model.
- Logger output (line 79). The warning is the `warned` flag of `Extraction`.
- `by lazy` memoisation of `javaExecutable` (line 17). It is a caching concern, so the value is a pure function of its inputs.
- `System.getProperty("java.home")` and `File.exists()`. These become the parameters `javaHome` and `fileExists`.
- Launcher.JavaExecutable: paths are built as `home + separator + "bin" + separator + name`. `java.io.File` path normalisation and the `absolutePath` of a relative `java.home` are not modelled, because `java.home` is an absolute path.
- Text.CharEqualsIgnoreCase: only ASCII letters change case. Kotlin's Unicode case mapping (for example the Kelvin sign or non-Latin scripts) is not modelled.
- Text.IsWhitespace: U+180E counts as whitespace only on JVMs with Unicode data older than 6.3. It is modelled as not whitespace.
- `java.util.Properties` iteration order is unspecified. Entries are an arbitrary sequence, and `PropertyFilter.PropertiesOrderIrrelevant` states the result up to reordering. Keys and values are their `toString()`.
- `"$bootJar"` is the boot-jar `File`'s path string. The boot-jar outputs are a sequence of path strings.
