# CleanroomRelauncher in Dafny

CleanroomRelauncher is a Forge coremod that runs inside a Minecraft 1.12.2
JVM. If the Cleanroom loader is not already running, it:

- works out which Cleanroom release and which Java 21+ executable to use;
- asks the user through a settings window when it has to;
- extracts a small wrapper class from its own jar into a cache directory;
- assembles the command line of a child JVM;
- starts that child and exits the parent with the child's exit code.

This project models that core and proves properties of the model.

| file | module | what it models |
|---|---|---|
| `wrappers.dfy` | `Wrappers` | `Option` (Java `null`) and `Result` (a thrown exception) |
| `java_text.dfy` | `JavaText` | the `java.lang.String`, `java.util.regex` and `Integer` operations the core relies on, over `seq<char>` |
| `catalog.dfy` | `Catalog` | a release (`name`, `tagName`) and a resolved version (`mainClass`, library and native paths) |
| `config.dfy` | `Config` | `RelauncherConfiguration`: the field defaults, the setters, the path normalisation, the Gson document and `read()` |
| `extraction.dfy` | `Extraction` | `getOrExtract()` over a file system modelled as a map from path to node |
| `arguments.dfy` | `Arguments` | the child's command line: `Arguments` says what it is (`Vector` over the joined class path and native path), `Assemble` builds it with the source's loops |
| `gui.dfy` | `Gui` | `RelauncherGUI`: the memory text box, the argument field rewrite, the release pre-selection and the relaunch button's checks |
| `wizard.dfy` | `Wizard` | `WizardDialog`: steps, the current index, the completed flag, the buttons and the step indicator |
| `relauncher.dfy` | `Relauncher` | `isCleanroom()` and `run()`: the decision, the window, the saved choice, extraction, assembly and the hand-off to the child |

Some things `run()` depends on become inputs of `Relauncher.Run`, all held in
an `Environment` value:

- the class lookup;
- the release query;
- `File.isFile`;
- what the user does in the window;
- the version download;
- the jar's manifest and `/wrapper/` entries;
- MD5;
- the platform path separator;
- the JVM's input arguments and process id;
- the launch blackboard's arguments;
- the child process.

The configuration is `Run`'s first parameter. It may be null, as `Config.Read`
returns for an empty document; `run()` then fails with `NullConfig` once the
releases are known, at the first getter call.

The memory given to `-Xmx` stays a string, exactly as the source passes it.
Java `int` arithmetic is written out with `WrapInt` where it matters.

## The loader probe

`isCleanroom` (CleanroomRelauncher.java:37-44) catches only
`ClassNotFoundException`. Any other failure of the class lookup propagates
out of `run`; the model has it as `LookupFailed`, which ends the run with
`LookupError`.

## Model

| member | source | states |
|---|---|---|
| Config.EmptyDocumentIsDefaults | src/main/java/com/cleanroommc/relauncher/config/RelauncherConfiguration.java:32-46 | A document with no members reads back as the defaults: no release, no noted latest release, no Java path, args "", 4096M, G1GC, no flags |
| Config.SaveThenRead | src/main/java/com/cleanroommc/relauncher/config/RelauncherConfiguration.java:104-113 | Saving then reading returns every non-null field unchanged. A null args, maxMemory, gcType or jvmFlags comes back as its initialiser. The round trip is exact iff those four are non-null |
| Config.NormalizeHead | src/main/java/com/cleanroommc/relauncher/config/RelauncherConfiguration.java:84-86 | A normalised path starts with a backslash only when the input starts with a lone one |
| Config.NormalizeNoDoubleBackslash | src/main/java/com/cleanroommc/relauncher/config/RelauncherConfiguration.java:84-86 | After the setter's replacement no two adjacent backslashes remain |
| Config.NormalizeIdempotent | src/main/java/com/cleanroommc/relauncher/config/RelauncherConfiguration.java:84-86 | Normalising twice equals normalising once |
| Config.NormalizeOther | src/main/java/com/cleanroommc/relauncher/config/RelauncherConfiguration.java:84-86 | A character other than a backslash is copied unchanged |
| Config.NormalizePair | src/main/java/com/cleanroommc/relauncher/config/RelauncherConfiguration.java:84-86 | A leading pair of backslashes becomes one slash |
| Config.NormalizeLone | src/main/java/com/cleanroommc/relauncher/config/RelauncherConfiguration.java:84-86 | A lone backslash is kept |
| Config.NormalizeDoubledPath | src/main/java/com/cleanroommc/relauncher/config/RelauncherConfiguration.java:84-86 | For any drive letter and any name without backslashes, `<drive>:\\<name>` becomes `<drive>:/<name>` (e.g. `C:\\jdk` becomes `C:/jdk`) |
| Config.NormalizeLoneExample | src/main/java/com/cleanroommc/relauncher/config/RelauncherConfiguration.java:84-86 | Three backslashes become a slash and a backslash: pairs are matched left to right without overlap |
| Config.RelauncherConfiguration.constructor | src/main/java/com/cleanroommc/relauncher/config/RelauncherConfiguration.java:32-46 | A new configuration holds the field initialisers |
| Config.RelauncherConfiguration.FromValues | src/main/java/com/cleanroommc/relauncher/config/RelauncherConfiguration.java:24-25 | The object built from a document holds exactly the document's values |
| Config.RelauncherConfiguration.SetCleanroomVersion | src/main/java/com/cleanroommc/relauncher/config/RelauncherConfiguration.java:76-78 | Only the selected version changes, to the given value, which the getter then returns |
| Config.RelauncherConfiguration.SetLatestCleanroomVersion | src/main/java/com/cleanroommc/relauncher/config/RelauncherConfiguration.java:80-82 | Only the noted latest version changes |
| Config.RelauncherConfiguration.SetJavaExecutablePath | src/main/java/com/cleanroommc/relauncher/config/RelauncherConfiguration.java:84-86 | Only the Java path changes, to the normalised input, which has no double backslash |
| Config.RelauncherConfiguration.SetJavaArguments | src/main/java/com/cleanroommc/relauncher/config/RelauncherConfiguration.java:88-90 | Only the arguments change |
| Config.RelauncherConfiguration.SetMaxMemory | src/main/java/com/cleanroommc/relauncher/config/RelauncherConfiguration.java:92-94 | Only the maximum memory changes |
| Config.RelauncherConfiguration.SetGcType | src/main/java/com/cleanroommc/relauncher/config/RelauncherConfiguration.java:96-98 | Only the collector changes |
| Config.RelauncherConfiguration.SetJvmFlags | src/main/java/com/cleanroommc/relauncher/config/RelauncherConfiguration.java:100-102 | Only the flags change |
| Config.Read | src/main/java/com/cleanroommc/relauncher/config/RelauncherConfiguration.java:20-30 | Absent file, or one that cannot be opened: the defaults, with no exception. A document: its members over the defaults. An empty document: null. Malformed JSON, or a read or decoding failure once the file is open: an exception, since Gson's exceptions are unchecked and escape the `IOException` handler |
| Extraction.Purge | src/main/java/com/cleanroommc/relauncher/CleanroomRelauncher.java:109-112 | It only deletes, so what is left keeps its content; afterwards no regular file lies under the directory; paths outside it, and directories anywhere, are kept |
| Extraction.Disk.GetOrExtract | src/main/java/com/cleanroommc/relauncher/CleanroomRelauncher.java:76-130 | The result and the disk it leaves are those of `Extract` in every case, including a copy that stops part way. A well-formed disk stays well-formed |
| Extraction.Disk.PrepareDirectory | src/main/java/com/cleanroommc/relauncher/CleanroomRelauncher.java:108-115 | The disk becomes the purged or created one on success; a failure leaves it as it was and reports `Prepare`'s error; well-formedness is kept |
| Extraction.Disk.CopyAll | src/main/java/com/cleanroommc/relauncher/CleanroomRelauncher.java:117-123 | It succeeds iff `CopyEntries` does, and then leaves its disk; a failure is an extraction error; either way the disk is `CopiedSoFar`, with the entries before the failing one copied; well-formedness is kept |
| Extraction.CopyTargetsFresh | src/main/java/com/cleanroommc/relauncher/CleanroomRelauncher.java:117-123 | A finished copy wrote each entry to a target that did not exist, and the entry names are distinct |
| Extraction.CopyTargetsFilled | src/main/java/com/cleanroommc/relauncher/CleanroomRelauncher.java:117-123 | After a finished copy each target holds its entry's content |
| Extraction.CopyElsewhereUnchanged | src/main/java/com/cleanroommc/relauncher/CleanroomRelauncher.java:117-123 | A finished copy changes no path other than the targets |
| Extraction.PurgeKeepsWellFormed | src/main/java/com/cleanroommc/relauncher/CleanroomRelauncher.java:109-112 | Deleting the regular files keeps every path's parent a directory |
| Extraction.CreateKeepsWellFormed | src/main/java/com/cleanroommc/relauncher/CleanroomRelauncher.java:113-115 | Creating the directory chain keeps the disk well-formed |
| Extraction.CopyKeepsWellFormed | src/main/java/com/cleanroommc/relauncher/CleanroomRelauncher.java:118-121 | Copying one entry into an existing directory keeps the disk well-formed |
| Extraction.CopyPlacesEntries | src/main/java/com/cleanroommc/relauncher/CleanroomRelauncher.java:117-123 | A copy loop that finishes puts each entry, by file name, at a target that did not exist before. The names are distinct. Nothing else changes |
| Extraction.CopyKeepsWellFormedAll | src/main/java/com/cleanroommc/relauncher/CleanroomRelauncher.java:117-123 | The whole copy loop keeps the disk well-formed |
| Extraction.CopiedKeepsWellFormed | src/main/java/com/cleanroommc/relauncher/CleanroomRelauncher.java:117-123 | A copy loop that stops part way also keeps the disk well-formed |
| Extraction.CopiedSoFarFinished | src/main/java/com/cleanroommc/relauncher/CleanroomRelauncher.java:117-123 | A copy loop that runs to the end leaves exactly the disk `CopyEntries` gives |
| Extraction.CopiedKeepsExisting | src/main/java/com/cleanroommc/relauncher/CleanroomRelauncher.java:117-123 | The copy loop, finished or not, overwrites and deletes nothing, and every path it adds is the target of one of the entries |
| Extraction.CopyFailure | src/main/java/com/cleanroommc/relauncher/CleanroomRelauncher.java:117-129 | A copy that fails fails as an extraction error, never as a hash error |
| Extraction.ExtractKeepsWellFormed | src/main/java/com/cleanroommc/relauncher/CleanroomRelauncher.java:94-124 | Extraction keeps a well-formed disk well-formed, whatever the outcome, a partial copy included |
| Extraction.ExtractSkipsWhenCurrent | src/main/java/com/cleanroommc/relauncher/CleanroomRelauncher.java:94-106 | If the cached wrapper's MD5 equals the manifest hash, nothing is written and the cache path is returned |
| Extraction.ExtractEarlyFailures | src/main/java/com/cleanroommc/relauncher/CleanroomRelauncher.java:83-89 | The hash error happens iff the manifest cannot be read. An unopenable jar fails with the disk untouched. A successful result is always `CACHE_DIR/wrapper` |
| Extraction.ExtractInstalls | src/main/java/com/cleanroommc/relauncher/CleanroomRelauncher.java:108-126 | A successful refresh puts every `/wrapper/` entry into the wrapper directory and changes nothing outside it and its ancestors |
| Extraction.ExtractLeavesOnlyEntries | src/main/java/com/cleanroommc/relauncher/CleanroomRelauncher.java:108-123 | After a refresh, the only regular files in the wrapper directory are the jar's entries |
| Extraction.PreparedIsEmpty | src/main/java/com/cleanroommc/relauncher/CleanroomRelauncher.java:108-115 | After the delete or create, no regular file remains under the wrapper directory |
| Extraction.NothingUnderAbsent | src/main/java/com/cleanroommc/relauncher/CleanroomRelauncher.java:113-115 | On a well-formed disk nothing lies under a directory that does not exist |
| Extraction.ExtractIdempotent | src/main/java/com/cleanroommc/relauncher/CleanroomRelauncher.java:94-124 | When the jar's wrapper class matches its manifest hash, a second extraction writes nothing |
| Arguments.AppendHeap | src/main/java/com/cleanroommc/relauncher/CleanroomRelauncher.java:199-207 | The heap option is appended exactly when a size is configured and the user's arguments do not mention `-Xmx` (`HeapArgs`) |
| Arguments.AppendGc | src/main/java/com/cleanroommc/relauncher/CleanroomRelauncher.java:209-216 | The collector option is appended exactly when one is configured and the user's arguments do not mention both `-XX:+Use` and `GC` (`GcArgs`) |
| Arguments.AppendFlags | src/main/java/com/cleanroommc/relauncher/CleanroomRelauncher.java:218-225 | The flag loop appends exactly `FlagArgs` |
| Arguments.AppendTokens | src/main/java/com/cleanroommc/relauncher/CleanroomRelauncher.java:236-238 | The pieces are appended trimmed, in order |
| Arguments.AppendInherited | src/main/java/com/cleanroommc/relauncher/CleanroomRelauncher.java:240-249 | The inherited-argument loop, which inspects the list built so far, yields `AddInherited` |
| Arguments.AppendLaunchArgs | src/main/java/com/cleanroommc/relauncher/CleanroomRelauncher.java:257-261 | Each launch argument's key then value is appended |
| Arguments.BuildHead | src/main/java/com/cleanroommc/relauncher/CleanroomRelauncher.java:196-238 | The list up to the user's tokens is `Head` |
| Arguments.AppendTail | src/main/java/com/cleanroommc/relauncher/CleanroomRelauncher.java:251-264 | The trailing properties, wrapper class, launch arguments and tweaker are appended |
| Arguments.Assemble | src/main/java/com/cleanroommc/relauncher/CleanroomRelauncher.java:196-264 | The imperative assembly returns exactly `Arguments(input)`, including its failure on an empty version list |
| Arguments.LaunchPairsLayout | src/main/java/com/cleanroommc/relauncher/CleanroomRelauncher.java:258-261 | Launch argument j sits at positions 2j and 2j+1 |
| Arguments.InheritedExtends | src/main/java/com/cleanroommc/relauncher/CleanroomRelauncher.java:240-249 | The inherited loop only appends, and only inherited arguments |
| Arguments.TailLayout | src/main/java/com/cleanroommc/relauncher/CleanroomRelauncher.java:251-264 | Whatever part comes first, if it starts with the executable the whole vector is `LaidOut`: the parent id, the main class of versions[0], the joined native paths and the wrapper class, then each launch argument's key and value in order, then `--tweakClass` and the tweaker, last |
| Arguments.HeadStart | src/main/java/com/cleanroommc/relauncher/CleanroomRelauncher.java:196-227 | The part before the inherited arguments starts with the executable, then exactly the heap, collector and flag options, then `-cp` |
| Arguments.ArgumentsShape | src/main/java/com/cleanroommc/relauncher/CleanroomRelauncher.java:196-264 | Assembly fails iff no version was resolved. Otherwise the vector is `LaidOut`: element 0 is the Java path and it ends with the parent id, the main class, the native paths of every version joined by the separator, the wrapper class, the launch pairs and the tweaker |
| Arguments.HeapFallback | src/main/java/com/cleanroommc/relauncher/CleanroomRelauncher.java:199-207 | Element 1 is `-Xmx` plus the configured memory iff that memory is non-null and non-empty and the user's arguments do not contain `-Xmx` anywhere |
| Arguments.GcFallback | src/main/java/com/cleanroommc/relauncher/CleanroomRelauncher.java:209-216 | Right after the heap option comes `-XX:+Use` plus the collector, then the flags and `-cp`, unless no collector is configured or the user's arguments mention both `-XX:+Use` and `GC`; then the flags and `-cp` come straight after the heap option |
| Arguments.VectorShape | src/main/java/com/cleanroommc/relauncher/CleanroomRelauncher.java:196-264 | For any joined class and native paths, the vector is `LaidOut` around those paths |
| Arguments.VectorSplit | src/main/java/com/cleanroommc/relauncher/CleanroomRelauncher.java:196-249 | The part up to the user's tokens is a prefix of the whole vector |
| Arguments.OptionsInVector | src/main/java/com/cleanroommc/relauncher/CleanroomRelauncher.java:196-227 | Position 1 onward holds the heap, collector and flag options, then `-cp` |
| Arguments.ClassPathInVector | src/main/java/com/cleanroommc/relauncher/CleanroomRelauncher.java:227-238 | For any joined paths, right after `-cp` come the class path and then the user's tokens in order |
| Arguments.ClassPathFollows | src/main/java/com/cleanroommc/relauncher/CleanroomRelauncher.java:227-238 | `-cp` is followed by the wrapper path and every library joined by the separator, and then by the user's tokens in order |
| Arguments.HeapFirst | src/main/java/com/cleanroommc/relauncher/CleanroomRelauncher.java:199-207 | Element 1 is `-Xmx` plus the memory iff a non-empty memory is configured and the user's arguments do not mention `-Xmx` |
| Arguments.GcOffered | src/main/java/com/cleanroommc/relauncher/CleanroomRelauncher.java:209-216 | With a collector option, it sits right after the heap option, followed by the flags and `-cp` |
| Arguments.GcWithheld | src/main/java/com/cleanroommc/relauncher/CleanroomRelauncher.java:209-216 | Without a collector option, the flags and `-cp` sit right after the heap option |
| Arguments.FlagArgsMembers | src/main/java/com/cleanroommc/relauncher/CleanroomRelauncher.java:218-225 | `-XX:+f` is added iff f is a configured flag whose exact option the user's arguments do not contain; nothing else is added |
| Arguments.CountStartingPositive | src/main/java/com/cleanroommc/relauncher/CleanroomRelauncher.java:242-247 | Counting arguments with a prefix is positive iff one has it |
| Arguments.CountAppend | src/main/java/com/cleanroommc/relauncher/CleanroomRelauncher.java:240-249 | Appending one argument raises the count by one iff it has the prefix |
| Arguments.XmsNotXmx | src/main/java/com/cleanroommc/relauncher/CleanroomRelauncher.java:242-247 | No argument starts with both `-Xms` and `-Xmx` |
| Arguments.InheritedPrecedence | src/main/java/com/cleanroommc/relauncher/CleanroomRelauncher.java:240-249 | An inherited `-Xms` (or `-Xmx`) is added at most once, and only if no earlier argument has that prefix |
| Arguments.ClassPathPieces | src/main/java/com/cleanroommc/relauncher/CleanroomRelauncher.java:227-234 | Splitting the class path at the separator gives the wrapper path, then every library of every version in order |
| Arguments.TokensFromArgs | src/main/java/com/cleanroommc/relauncher/CleanroomRelauncher.java:236-238 | Every user token comes from the user's arguments and has no space |
| Arguments.TrimmedPieces | src/main/java/com/cleanroommc/relauncher/CleanroomRelauncher.java:237 | Trimming keeps the pieces inside the original text and without spaces |
| Gui.DigitsWithUnit | src/main/java/com/cleanroommc/relauncher/gui/RelauncherGUI.java:486-488 | For digits followed by "", M, m, G or g, stripping the units leaves the digits. The text counts as gigabytes iff the unit is G or g |
| Gui.MegabytesRead | src/main/java/com/cleanroommc/relauncher/gui/RelauncherGUI.java:486-490 | "n", "nM" and "nm" read as n, both as the code computes it and as intended |
| Gui.GigabytesRead | src/main/java/com/cleanroommc/relauncher/gui/RelauncherGUI.java:486-490 | n followed by G or g denotes n*1024 megabytes without wrap-around; the code's `int` result agrees whenever n*1024 fits an `int` |
| Gui.SliderWrapsAround | src/main/java/com/cleanroommc/relauncher/gui/RelauncherGUI.java:487-490 | As written, "4194308G" reads as 4096 because `val *= 1024` wraps around; the intended value is 4294971392 |
| Gui.Slider.constructor | src/main/java/com/cleanroommc/relauncher/gui/RelauncherGUI.java:391 | A slider holds the given range and value |
| Gui.AppendedContains | src/main/java/com/cleanroommc/relauncher/gui/RelauncherGUI.java:507 | An option appended after the trimmed text is in the result |
| Gui.HeapArgumentPlaced | src/main/java/com/cleanroommc/relauncher/gui/RelauncherGUI.java:501-509 | With a non-empty memory, the result holds `-Xmx` plus the memory when the text lacks `-Xmx` or holds a `-Xmx\S+` token. When `-Xmx` appears only bare, the text is unchanged |
| Gui.BareHeapPrefixKept | src/main/java/com/cleanroommc/relauncher/gui/RelauncherGUI.java:504-505 | A field holding only `-Xmx` keeps it and does not receive the chosen memory |
| Gui.GcArgumentPlaced | src/main/java/com/cleanroommc/relauncher/gui/RelauncherGUI.java:511-519 | With the corrected test, the result always holds `-XX:+Use` plus the chosen collector |
| Gui.GcStepsAgree | src/main/java/com/cleanroommc/relauncher/gui/RelauncherGUI.java:511-519 | The as-written and corrected steps differ only where the loose `matches` test and the token search disagree. A hint with no token leaves the text unchanged as written |
| Gui.GcChoiceDropped | src/main/java/com/cleanroommc/relauncher/gui/RelauncherGUI.java:514-515 | `-XX:+UseNUMA -XX:MaxGCPauseMillis=200` matches `.*-XX:\+Use.*GC.*` but has no `-XX:+Use\w+GC` token. As written, choosing G1GC leaves it unchanged and without `-XX:+UseG1GC`; the corrected step adds it |
| Gui.HintWithoutToken | src/main/java/com/cleanroommc/relauncher/gui/RelauncherGUI.java:511-519 | For every field the loose test accepts but that holds no token, the step as written leaves it unchanged, while the corrected step adds the chosen collector |
| Gui.CompactHeadersPlaced | src/main/java/com/cleanroommc/relauncher/gui/RelauncherGUI.java:523-528 | When UseCompactObjectHeaders is chosen, the result holds `-XX:+UseCompactObjectHeaders` |
| Gui.CompactHeadersRemoved | src/main/java/com/cleanroommc/relauncher/gui/RelauncherGUI.java:529-533 | When it is not chosen, the text changes iff it held the option, and it never grows |
| Gui.RewriteResult | src/main/java/com/cleanroommc/relauncher/gui/RelauncherGUI.java:497-537 | The field as the code rewrites it has no blank at either end and no run of two whitespace characters, and it holds the compact-headers option whenever that flag is chosen |
| Gui.PreselectIndex | src/main/java/com/cleanroommc/relauncher/gui/RelauncherGUI.java:269-280 | -1 when nothing is selected or no tag matches (iff). Otherwise the first index whose tagName equals the selection's |
| Gui.TestJava | src/main/java/com/cleanroommc/relauncher/gui/RelauncherGUI.java:540-553 | No dialog iff the probe succeeds with major version at least 21. An old version names its major; a failed probe shows its message |
| Gui.RelaunchCheck | src/main/java/com/cleanroommc/relauncher/gui/RelauncherGUI.java:560-575 | No dialog iff a release is selected, a Java path is set and the Java test passes. The checks run in the source's order |
| Gui.RelauncherGui.constructor | src/main/java/com/cleanroommc/relauncher/gui/RelauncherGUI.java:166-172 | The window starts with the values the caller hands in; the field shows the arguments or "" |
| Gui.RelauncherGui.UpdateArgumentField | src/main/java/com/cleanroommc/relauncher/gui/RelauncherGUI.java:497-538 | A missing field changes nothing. Otherwise the field and `javaArgs` both become the code's rewrite: heap step, the collector step with the looser `matches` test, compact headers, whitespace normalisation; nothing else changes |
| Gui.RelauncherGui.UpdateSliderFromText | src/main/java/com/cleanroommc/relauncher/gui/RelauncherGUI.java:483-495 | Null or unparsable text leaves the slider alone. The parsed value, times 1024 in wrapping `int` arithmetic for gigabytes, moves it only if within [minimum, maximum]. The range never changes |
| Gui.RelauncherGui.RelaunchPressed | src/main/java/com/cleanroommc/relauncher/gui/RelauncherGUI.java:560-575 | On a failed check exactly that one dialog is shown and nothing else changes; when every check passes the window is disposed |
| Wizard.NextButtonLabel | src/main/java/com/cleanroommc/relauncher/gui/wizard/WizardDialog.java:208-212 | The label is "完了" iff the index is the last one, and "次へ >" otherwise |
| Wizard.AfterNext | src/main/java/com/cleanroommc/relauncher/gui/wizard/WizardDialog.java:175-203 | Rejected iff validation fails. Finished iff it passes on the last step. Otherwise the index rises by exactly one and stays in range |
| Wizard.AfterPrevious | src/main/java/com/cleanroommc/relauncher/gui/wizard/WizardDialog.java:164-173 | The index falls by one iff it is positive |
| Wizard.NavigateStaysInRange | src/main/java/com/cleanroommc/relauncher/gui/wizard/WizardDialog.java:164-203 | After any sequence of back, next and cancel, the index stays within the steps |
| Wizard.NavigateNeedsAcceptedSteps | src/main/java/com/cleanroommc/relauncher/gui/wizard/WizardDialog.java:175-203 | The index never runs ahead of the accepted next presses, and completion happens on the last step |
| Wizard.CompletionValidatesEveryStep | src/main/java/com/cleanroommc/relauncher/gui/wizard/WizardDialog.java:175-203 | A session that completes from step 0 passed validation at least once per step |
| Wizard.NavigateCompletionCounts | src/main/java/com/cleanroommc/relauncher/gui/wizard/WizardDialog.java:175-203 | From any index, completing takes enough accepted presses to reach the last step |
| Wizard.AcceptedPressesComplete | src/main/java/com/cleanroommc/relauncher/gui/wizard/WizardDialog.java:190-203 | With every validation passing, size-index presses of next complete the wizard on the last step |
| Wizard.DigitsThenSeparator | src/main/java/com/cleanroommc/relauncher/gui/wizard/WizardDialog.java:217 | Two digit strings followed by the same non-digit separator split equally |
| Wizard.NatToStringInjective | src/main/java/com/cleanroommc/relauncher/gui/wizard/WizardDialog.java:217 | Different numbers print differently |
| Wizard.IndicatorDetermines | src/main/java/com/cleanroommc/relauncher/gui/wizard/WizardDialog.java:215-219 | "ステップ i / n" determines both i and n |
| Wizard.WizardDialog.constructor | src/main/java/com/cleanroommc/relauncher/gui/wizard/WizardDialog.java:44-61 | A new wizard has no steps, index 0, is not completed, and has no callbacks |
| Wizard.WizardDialog.UpdateNavigationButtons | src/main/java/com/cleanroommc/relauncher/gui/wizard/WizardDialog.java:205-213 | Previous is enabled iff the index is positive, and the next label follows `NextButtonLabel` |
| Wizard.WizardDialog.UpdateStepIndicator | src/main/java/com/cleanroommc/relauncher/gui/wizard/WizardDialog.java:215-219 | With steps, the indicator reads the 1-based index over the step count; without steps it is left alone |
| Wizard.WizardDialog.AddStep | src/main/java/com/cleanroommc/relauncher/gui/wizard/WizardDialog.java:140-144 | The step is appended and the indicator refreshed; the index is unchanged |
| Wizard.WizardDialog.ShowWizard | src/main/java/com/cleanroommc/relauncher/gui/wizard/WizardDialog.java:149-162 | It fails with IllegalStateException iff there are no steps. Otherwise it shows card 1, enters step 0 and becomes visible |
| Wizard.WizardDialog.PreviousStep | src/main/java/com/cleanroommc/relauncher/gui/wizard/WizardDialog.java:164-173 | At index 0 nothing changes. Otherwise the current step is exited, the previous one entered, and the buttons and indicator refreshed. It never validates |
| Wizard.WizardDialog.HandleComplete | src/main/java/com/cleanroommc/relauncher/gui/wizard/WizardDialog.java:221-227 | It sets completed, runs the completion callback once if set, then disposes |
| Wizard.WizardDialog.NextStep | src/main/java/com/cleanroommc/relauncher/gui/wizard/WizardDialog.java:175-203 | A failed validation shows its message and changes nothing else. On the last step it completes without moving. Otherwise it exits, advances by one and enters |
| Wizard.WizardDialog.HandleCancel | src/main/java/com/cleanroommc/relauncher/gui/wizard/WizardDialog.java:229-245 | A confirmed cancel clears completed, runs the cancel callback once if set, and disposes. A declined one changes nothing |
| Wizard.WizardDialog.SetOnComplete | src/main/java/com/cleanroommc/relauncher/gui/wizard/WizardDialog.java:250-252 | Only the completion callback changes |
| Wizard.WizardDialog.SetOnCancel | src/main/java/com/cleanroommc/relauncher/gui/wizard/WizardDialog.java:257-259 | Only the cancel callback changes |
| Wizard.WizardDialog.GetStep | src/main/java/com/cleanroommc/relauncher/gui/wizard/WizardDialog.java:271-273 | The step at the index when it is in range, otherwise IndexOutOfBounds |
| Wizard.WizardDialog.GetSteps | src/main/java/com/cleanroommc/relauncher/gui/wizard/WizardDialog.java:278-280 | A copy of the steps, equal in contents |
| Relauncher.IsCleanroom | src/main/java/com/cleanroommc/relauncher/CleanroomRelauncher.java:37-44 | True iff the loader's main class resolves, false iff it is not found; any other lookup failure propagates |
| Relauncher.FindByName | src/main/java/com/cleanroommc/relauncher/CleanroomRelauncher.java:151-153 | None iff no release has the name; otherwise the first release that has it |
| Relauncher.WindowWhenNeeded | src/main/java/com/cleanroommc/relauncher/CleanroomRelauncher.java:145-159 | The window is skipped iff the saved release is still listed, the saved Java path is a regular file, and the noted latest equals releases[0]. Then the saved values are used as they are |
| Relauncher.ConfirmedChoiceIsRemembered | src/main/java/com/cleanroommc/relauncher/CleanroomRelauncher.java:173-184 | After a confirmed window with a listed release and a Java path that is a file, the next run over the same releases skips the window and uses the same choice |
| Relauncher.Vm.constructor | src/main/java/com/cleanroommc/relauncher/CleanroomRelauncher.java:280 | No exit has been requested yet |
| Relauncher.Vm.Exit | src/main/java/com/cleanroommc/relauncher/CleanroomRelauncher.java:280 | The exit code is recorded once |
| Relauncher.Remember | src/main/java/com/cleanroommc/relauncher/CleanroomRelauncher.java:177-183 | The seven setters store the chosen release, the newest release's name, the normalised path and the window's options |
| Relauncher.Launch | src/main/java/com/cleanroommc/relauncher/CleanroomRelauncher.java:188-283 | The outcome is `LaunchResult` and the disk is `LaunchDisk` of the starting disk: no versions leaves it untouched, otherwise it is `Extract`'s. The VM exits exactly once, with the child's code, iff the outcome is a relaunch |
| Relauncher.LaunchSteps | src/main/java/com/cleanroommc/relauncher/CleanroomRelauncher.java:188-283 | The hand-off fails with VersionsUnavailable iff the versions cannot be resolved, with an extraction error iff extraction fails, and with NoVersionResolved iff the version list is empty. Otherwise it relaunches iff the child exits, with the release's versions, the extracted wrapper path and a command that starts with the Java path and is laid out as `ArgumentsShape` says, and fails with LaunchFailed otherwise |
| Relauncher.Run | src/main/java/com/cleanroommc/relauncher/CleanroomRelauncher.java:132-284 | Already Cleanroom iff the class resolves; a lookup error, missing releases or a null configuration (checked in that order) fail with their own error and change nothing. The window exit happens iff the window is needed, the flags are non-null and it is closed; it exits with 0 and changes neither configuration nor disk. Without the window, the hand-off is `LaunchResult` for the remembered release, path and arguments; after a confirmed window, the choice is saved and the hand-off is `LaunchResult` for the chosen release, path and arguments |
| JavaText.RemoveShortens | src/main/java/com/cleanroommc/relauncher/gui/RelauncherGUI.java:531 | `String.replace(t, "")` never lengthens a string, and shortens it iff t occurs |
| JavaText.ReplaceAllInserts | src/main/java/com/cleanroommc/relauncher/gui/RelauncherGUI.java:505 | `replaceAll` with at least one match leaves the replacement in the result |
| JavaText.ReplaceAllNoMatch | src/main/java/com/cleanroommc/relauncher/gui/RelauncherGUI.java:515 | `replaceAll` without a match returns the text unchanged |
| JavaText.GcOptionIsHint | src/main/java/com/cleanroommc/relauncher/gui/RelauncherGUI.java:514-515 | Every text with a `-XX:+Use\w+GC` token has `-XX:+Use` followed later by `GC` |
| JavaText.NormalizedForm | src/main/java/com/cleanroommc/relauncher/gui/RelauncherGUI.java:535 | `replaceAll("\\s+", " ").trim()` leaves no blank at either end and no run of whitespace |
| JavaText.NormalizeKeeps | src/main/java/com/cleanroommc/relauncher/gui/RelauncherGUI.java:535 | A space-free option survives the whitespace normalisation |
| JavaText.TrimIsSlice | src/main/java/com/cleanroommc/relauncher/CleanroomRelauncher.java:237 | `trim()` returns the middle slice, having removed only characters up to U+0020 at both ends |
| JavaText.LeadingBlanksSpan | src/main/java/com/cleanroommc/relauncher/CleanroomRelauncher.java:237 | The characters `trim()` drops at the front are all up to U+0020, and the next one is not |
| JavaText.TrailingBlanksSpan | src/main/java/com/cleanroommc/relauncher/CleanroomRelauncher.java:237 | The characters `trim()` drops at the back are all up to U+0020, and the one before them is not |
| JavaText.JoinSplit | src/main/java/com/cleanroommc/relauncher/CleanroomRelauncher.java:228-231 | Joining the pieces of a split with its separator gives the text back |
| JavaText.SplitJoin | src/main/java/com/cleanroommc/relauncher/CleanroomRelauncher.java:228-233 | Splitting a join of separator-free pieces gives the pieces back |
| JavaText.JavaSplitContained | src/main/java/com/cleanroommc/relauncher/CleanroomRelauncher.java:237 | Each piece of `split(" ")` occurs in the text and has no space |
| JavaText.ParsePrinted | src/main/java/com/cleanroommc/relauncher/gui/RelauncherGUI.java:487 | `Integer.parseInt` reads back any printed int in range |
| JavaText.WrapInt | src/main/java/com/cleanroommc/relauncher/gui/RelauncherGUI.java:489 | Java `int` arithmetic: the result is in range, congruent modulo 2^32, and unchanged when already in range |

## Left out

- Swing: layout, look and feel, fonts, focus and hover effects, scaling, and the combo box's own default selection. The window is the `RelauncherGui` class over its fields. A session of the settings window reaches `Run` as a `WindowOutcome`.
- `replaceCerts`: TLS trust store and temporary files.
- Logging throughout.
- Network, downloads and the release cache. `CleanroomRelease.queryAll` and `CleanroomCache.download` are not part of this model, and their results are inputs.
- MD5 (`DigestUtils`): an opaque function of file content.
- `JavaUtils.parseInstall`: a function from path to `JavaProbe`.
- A failure while hashing the cached wrapper class is caught by the source and counts as a mismatch. In the model MD5 always yields a value, so that failure is not a separate case.
- Failures of `File.delete` and `Files.walk` during the purge are not modelled: every regular file under the directory is deleted.
- The JSON text of the configuration file and `save()`'s I/O. Reading is modelled from the document's members, and `save` as `Serialize`, which drops null members as Gson does.
- `jvmFlags` is a `HashSet`. The model keeps its elements as a sequence in iteration order, which Java leaves unspecified. The sequence is not made free of duplicates: a document that lists a flag twice gives one `-XX:+` option in the code and two in the model.
- `ProcessBuilder`, `inheritIO` and the working directory. The child is a function from the command line to its outcome.
- `ExitVMBypass.exit` does not return in Java. In the model it records the code and `Run` returns at once.
- JavaText: `replaceAll`'s `$` and `\` escapes in the replacement are not modelled. The replacements used here (`-Xmx` plus memory, `-XX:+Use` plus collector) are assumed free of them.
- JavaText: digits, case and whitespace are ASCII only. `Integer.parseInt` also accepts other Unicode digits, and `toUpperCase` also maps other letters.
- JavaText: `.` in `.*-XX:\+Use.*GC.*` does not match line terminators. The field is single-line in practice, and the model keeps this rule.
- Wizard: step panels, `onStepEnter` and `onStepExit` are recorded as events. `validate()` is passed in as a parameter.
- `isCompleted` is read directly from the `completed` field.
- The getters of `RelauncherConfiguration` are reads of its fields, through `Values()`.
- The GUI `windowClosing` handler (RelauncherGUI.java:191-200) clears the selection and exits with 0. This is the `ClosedWindow` outcome of `Run`.

## Findings

| source | as written | input that shows it | evidently intended | confidence | as-written member | corrected member |
|---|---|---|---|---|---|---|
| src/main/java/com/cleanroommc/relauncher/gui/RelauncherGUI.java:487-490 | `val *= 1024` on an `int` wraps around for large gigabyte counts | "4194308G" reads as 4096 MB, which moves the slider to 4 GB | the value in megabytes, or rejecting an out-of-range entry | not executed | Gui.SliderWrapsAround | Gui.GigabytesRead |
| src/main/java/com/cleanroommc/relauncher/gui/RelauncherGUI.java:514-515 | The test `matches(".*-XX:\\+Use.*GC.*")` is looser than the `-XX:\+Use\w+GC` token it then replaces | With `-XX:+UseNUMA -XX:MaxGCPauseMillis=200` and G1GC chosen, the text stays unchanged and holds no `-XX:+UseG1GC` | the chosen collector always ends up in the field | not executed | Gui.GcChoiceDropped | Gui.GcArgumentPlaced |

The window's methods (`UpdateSliderFromText`, `UpdateArgumentField`) keep
the code's behaviour as written. The corrected steps, `Megabytes` and
`WithGc`, are defined beside them, and `GigabytesRead` and
`GcArgumentPlaced` prove the intended properties about them.
