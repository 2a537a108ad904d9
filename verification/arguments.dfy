/**
 * The command line of the child JVM, as `CleanroomRelauncher.run` builds it
 * once a release, a Java executable and the JVM options are settled.
 *
 * `Arguments` is the whole vector as a function of its inputs; `Assemble` is
 * the step-by-step construction, proved to produce it.
 */
module Arguments {
  import opened Wrappers
  import opened JavaText
  import opened Catalog

  const WrapperMainClass: string := "com.cleanroommc.relauncher.wrapper.RelaunchMainWrapper"
  const TweakClass: string := "net.minecraftforge.fml.common.launcher.FMLTweaker"
  const XmsPrefix: string := "-Xms"
  const FlagPrefix: string := "-XX:+"
  const ParentProperty: string := "-Dcleanroom.relauncher.parent="
  const MainClassProperty: string := "-Dcleanroom.relauncher.mainClass="
  const LibraryPathProperty: string := "-Djava.library.path="

  /**
   * Everything the vector depends on. The options come from the configuration
   * (None is `null`), `inheritedArgs` are the running JVM's input arguments,
   * `launchArgs` the launch blackboard's entries in iteration order.
   */
  datatype LaunchInput = LaunchInput(
    javaPath: string,
    javaArgs: Option<string>,
    maxMemory: Option<string>,
    gcType: Option<string>,
    jvmFlags: Option<seq<string>>,
    versions: seq<VersionDescriptor>,
    wrapperClassPath: string,
    pathSeparator: char,
    inheritedArgs: seq<string>,
    processId: string,
    launchArgs: seq<(string, string)>)

  /** `versions.get(0)` on an empty list throws. */
  datatype AssemblyError = NoVersions

  predicate Mentions(javaArgs: Option<string>, t: string) {
    javaArgs.Some? && Contains(javaArgs.value, t)
  }

  /** The configured heap size, unless the user's arguments mention `-Xmx` anywhere. */
  function HeapArgs(maxMemory: Option<string>, javaArgs: Option<string>): seq<string> {
    if maxMemory.Some? && maxMemory.value != [] && !Mentions(javaArgs, HeapPrefix) then [HeapPrefix + maxMemory.value]
    else []
  }

  /** The configured collector, unless the user's arguments mention both `-XX:+Use` and `GC`. */
  function GcArgs(gcType: Option<string>, javaArgs: Option<string>): seq<string> {
    if gcType.Some? && gcType.value != [] && !(Mentions(javaArgs, UsePrefix) && Mentions(javaArgs, "GC")) then [UsePrefix + gcType.value]
    else []
  }

  /** One `-XX:+flag` per configured flag the user's arguments do not already mention. */
  function FlagArgs(flags: seq<string>, javaArgs: Option<string>): seq<string>
    decreases |flags|
  {
    if flags == [] then []
    else
      var f := flags[|flags| - 1];
      FlagArgs(flags[..|flags| - 1], javaArgs) + (if Mentions(javaArgs, FlagPrefix + f) then [] else [FlagPrefix + f])
  }

  function Libraries(versions: seq<VersionDescriptor>): seq<string>
    decreases |versions|
  {
    if versions == [] then [] else versions[0].libraryPaths + Libraries(versions[1..])
  }

  function Natives(versions: seq<VersionDescriptor>): seq<string>
    decreases |versions|
  {
    if versions == [] then [] else versions[0].nativesPaths + Natives(versions[1..])
  }

  /** The wrapper directory, then every library of every version, joined by the path separator. */
  function ClassPath(wrapper: string, versions: seq<VersionDescriptor>, sep: char): string {
    wrapper + [sep] + Join(Libraries(versions), [sep])
  }

  /** Every native directory of every version, joined by the path separator. */
  function NativesPath(versions: seq<VersionDescriptor>, sep: char): string {
    Join(Natives(versions), [sep])
  }

  /** Each piece trimmed, in order. */
  function TrimAll(pieces: seq<string>): seq<string> {
    seq(|pieces|, k requires 0 <= k < |pieces| => Trim(pieces[k]))
  }

  /** The user's arguments split at single spaces, each piece trimmed. */
  function Tokens(javaArgs: Option<string>): seq<string> {
    if javaArgs.Some? && javaArgs.value != [] then TrimAll(JavaSplit(javaArgs.value, ' ')) else []
  }

  predicate AnyStarts(args: seq<string>, p: string) {
    exists k :: 0 <= k < |args| && StartsWith(args[k], p)
  }

  /** One inherited argument: kept if it is the first `-Xms` (or `-Xmx`) of the vector so far. */
  function InheritStep(args: seq<string>, a: string): seq<string> {
    var withXms := if StartsWith(a, XmsPrefix) && !AnyStarts(args, XmsPrefix) then args + [a] else args;
    if StartsWith(a, HeapPrefix) && !AnyStarts(withXms, HeapPrefix) then withXms + [a] else withXms
  }

  function AddInherited(args: seq<string>, inherited: seq<string>): seq<string>
    decreases |inherited|
  {
    if inherited == [] then args
    else InheritStep(AddInherited(args, inherited[..|inherited| - 1]), inherited[|inherited| - 1])
  }

  function LaunchPairs(launchArgs: seq<(string, string)>): seq<string>
    decreases |launchArgs|
  {
    if launchArgs == [] then []
    else
      var (key, value) := launchArgs[|launchArgs| - 1];
      LaunchPairs(launchArgs[..|launchArgs| - 1]) + [key, value]
  }

  /**
   * Everything up to the inherited arguments, for a given class path. The
   * joined paths are parameters here so that the layout lemmas below can
   * treat them as plain strings.
   */
  function HeadWith(input: LaunchInput, classPath: string): seq<string> {
    [input.javaPath]
    + HeapArgs(input.maxMemory, input.javaArgs)
    + GcArgs(input.gcType, input.javaArgs)
    + (if input.jvmFlags.Some? then FlagArgs(input.jvmFlags.value, input.javaArgs) else [])
    + ["-cp", classPath]
    + Tokens(input.javaArgs)
  }

  /** Everything after the inherited arguments, for a given native library path. */
  function TailWith(input: LaunchInput, nativesPath: string): seq<string>
    requires input.versions != []
  {
    [ParentProperty + input.processId,
     MainClassProperty + input.versions[0].mainClass,
     LibraryPathProperty + nativesPath,
     WrapperMainClass]
    + LaunchPairs(input.launchArgs)
    + ["--tweakClass", TweakClass]
  }

  /** The whole vector for given joined paths. */
  function Vector(input: LaunchInput, classPath: string, nativesPath: string): seq<string>
    requires input.versions != []
  {
    AddInherited(HeadWith(input, classPath), input.inheritedArgs) + TailWith(input, nativesPath)
  }

  /** Everything up to the inherited arguments. */
  function Head(input: LaunchInput): seq<string> {
    HeadWith(input, ClassPath(input.wrapperClassPath, input.versions, input.pathSeparator))
  }

  /** Everything after the inherited arguments. */
  function Tail(input: LaunchInput): seq<string>
    requires input.versions != []
  {
    TailWith(input, NativesPath(input.versions, input.pathSeparator))
  }

  /** The child's command line, or the failure when no version was resolved. */
  function Arguments(input: LaunchInput): Result<seq<string>, AssemblyError> {
    if input.versions == [] then Err(NoVersions)
    else Ok(Vector(input, ClassPath(input.wrapperClassPath, input.versions, input.pathSeparator),
                   NativesPath(input.versions, input.pathSeparator)))
  }

  /** The heap fallback: `-Xmx` with the configured size, unless the user's arguments mention `-Xmx`. */
  method AppendHeap(arguments: seq<string>, maxMemory: Option<string>, javaArgs: Option<string>) returns (out: seq<string>)
    ensures out == arguments + HeapArgs(maxMemory, javaArgs)
  {
    out := arguments;
    if maxMemory.Some? && maxMemory.value != [] {
      var hasXmx := false;
      if javaArgs.Some? && Contains(javaArgs.value, HeapPrefix) {
        hasXmx := true;
      }
      if !hasXmx {
        out := out + [HeapPrefix + maxMemory.value];
      }
    }
  }

  /** The collector fallback: `-XX:+Use` and the configured collector, unless the user's arguments name one. */
  method AppendGc(arguments: seq<string>, gcType: Option<string>, javaArgs: Option<string>) returns (out: seq<string>)
    ensures out == arguments + GcArgs(gcType, javaArgs)
  {
    out := arguments;
    if gcType.Some? && gcType.value != [] {
      var hasGc := false;
      if javaArgs.Some? && Contains(javaArgs.value, UsePrefix) && Contains(javaArgs.value, "GC") {
        hasGc := true;
      }
      if !hasGc {
        out := out + [UsePrefix + gcType.value];
      }
    }
  }

  /** The flag loop: each configured flag not mentioned by the user is appended. */
  method AppendFlags(arguments: seq<string>, flags: seq<string>, javaArgs: Option<string>) returns (out: seq<string>)
    ensures out == arguments + FlagArgs(flags, javaArgs)
  {
    out := arguments;
    for i := 0 to |flags|
      invariant out == arguments + FlagArgs(flags[..i], javaArgs)
    {
      assert flags[..i + 1][..i] == flags[..i];
      var flag := flags[i];
      if !(javaArgs.Some? && Contains(javaArgs.value, FlagPrefix + flag)) {
        out := out + [FlagPrefix + flag];
      }
    }
    assert flags[..|flags|] == flags;
  }

  /** `Arrays.stream(javaArgs.split(" ")).map(String::trim).forEach(arguments::add)` */
  method AppendTokens(arguments: seq<string>, pieces: seq<string>) returns (out: seq<string>)
    ensures out == arguments + TrimAll(pieces)
  {
    out := arguments;
    for i := 0 to |pieces|
      invariant |out| == |arguments| + i && out[..|arguments|] == arguments
      invariant forall k :: 0 <= k < i ==> out[|arguments| + k] == Trim(pieces[k])
    {
      out := out + [Trim(pieces[i])];
    }
    assert out == arguments + TrimAll(pieces);
  }

  /** The loop over the running JVM's input arguments. */
  method AppendInherited(arguments: seq<string>, inherited: seq<string>) returns (out: seq<string>)
    ensures out == AddInherited(arguments, inherited)
  {
    out := arguments;
    for i := 0 to |inherited|
      invariant out == AddInherited(arguments, inherited[..i])
    {
      assert inherited[..i + 1][..i] == inherited[..i];
      var argument := inherited[i];
      if StartsWith(argument, XmsPrefix) && !AnyStarts(out, XmsPrefix) {
        out := out + [argument];
      }
      if StartsWith(argument, HeapPrefix) && !AnyStarts(out, HeapPrefix) {
        out := out + [argument];
      }
    }
    assert inherited[..|inherited|] == inherited;
  }

  /** The loop forwarding the launch blackboard's entries, key then value. */
  method AppendLaunchArgs(arguments: seq<string>, launchArgs: seq<(string, string)>) returns (out: seq<string>)
    ensures out == arguments + LaunchPairs(launchArgs)
  {
    out := arguments;
    for i := 0 to |launchArgs|
      invariant out == arguments + LaunchPairs(launchArgs[..i])
    {
      assert launchArgs[..i + 1][..i] == launchArgs[..i];
      var (key, value) := launchArgs[i];
      out := out + [key];
      out := out + [value];
    }
    assert launchArgs[..|launchArgs|] == launchArgs;
  }

  /** The part of the vector before the inherited arguments, one `arguments.add` at a time. */
  method BuildHead(input: LaunchInput) returns (arguments: seq<string>)
    ensures arguments == Head(input)
  {
    var javaArgs := input.javaArgs;
    arguments := [input.javaPath];

    arguments := AppendHeap(arguments, input.maxMemory, javaArgs);
    arguments := AppendGc(arguments, input.gcType, javaArgs);
    ghost var options := [input.javaPath] + HeapArgs(input.maxMemory, javaArgs) + GcArgs(input.gcType, javaArgs);
    assert arguments == options;

    if input.jvmFlags.Some? {
      arguments := AppendFlags(arguments, input.jvmFlags.value, javaArgs);
    }
    ghost var withFlags := options + (if input.jvmFlags.Some? then FlagArgs(input.jvmFlags.value, javaArgs) else []);
    assert arguments == withFlags;

    arguments := arguments + ["-cp"];
    var libraryClassPath := Join(Libraries(input.versions), [input.pathSeparator]);
    arguments := arguments + [input.wrapperClassPath + [input.pathSeparator] + libraryClassPath];
    ghost var withClassPath := withFlags + ["-cp", ClassPath(input.wrapperClassPath, input.versions, input.pathSeparator)];
    assert arguments == withClassPath;

    if javaArgs.Some? && javaArgs.value != [] {
      arguments := AppendTokens(arguments, JavaSplit(javaArgs.value, ' '));
    }
    assert arguments == withClassPath + Tokens(javaArgs);
  }

  /** The fixed properties, the wrapper class, the launch arguments and the tweaker, appended in order. */
  method AppendTail(arguments: seq<string>, input: LaunchInput) returns (out: seq<string>)
    requires input.versions != []
    ensures out == arguments + Tail(input)
  {
    out := arguments + [ParentProperty + input.processId];
    out := out + [MainClassProperty + input.versions[0].mainClass];
    out := out + [LibraryPathProperty + Join(Natives(input.versions), [input.pathSeparator])];
    out := out + [WrapperMainClass];
    out := AppendLaunchArgs(out, input.launchArgs);
    out := out + ["--tweakClass"];
    out := out + [TweakClass];
  }

  /** The vector in the order of `run`. */
  method Assemble(input: LaunchInput) returns (r: Result<seq<string>, AssemblyError>)
    ensures r == Arguments(input)
  {
    var arguments := BuildHead(input);
    arguments := AppendInherited(arguments, input.inheritedArgs);
    if input.versions == [] {
      return Err(NoVersions);
    }
    arguments := AppendTail(arguments, input);
    return Ok(arguments);
  }

  // ---------------------------------------------------------------------
  // Properties of the vector
  // ---------------------------------------------------------------------

  /** The launch blackboard's entries, key at an even offset and value right after it. */
  lemma {:induction false} LaunchPairsLayout(launchArgs: seq<(string, string)>)
    ensures |LaunchPairs(launchArgs)| == 2 * |launchArgs|
    ensures forall j :: 0 <= j < |launchArgs| ==>
      LaunchPairs(launchArgs)[2 * j] == launchArgs[j].0 && LaunchPairs(launchArgs)[2 * j + 1] == launchArgs[j].1
    decreases |launchArgs|
  {
    if launchArgs != [] {
      var init := launchArgs[..|launchArgs| - 1];
      LaunchPairsLayout(init);
      forall j | 0 <= j < |launchArgs|
        ensures LaunchPairs(launchArgs)[2 * j] == launchArgs[j].0 && LaunchPairs(launchArgs)[2 * j + 1] == launchArgs[j].1
      {
        if j < |init| {
          assert launchArgs[j] == init[j];
        }
      }
    }
  }

  /** The inherited-argument loop only ever appends. */
  lemma {:induction false} InheritedExtends(args: seq<string>, inherited: seq<string>)
    ensures |args| <= |AddInherited(args, inherited)|
    ensures AddInherited(args, inherited)[..|args|] == args
    ensures forall k :: |args| <= k < |AddInherited(args, inherited)| ==> AddInherited(args, inherited)[k] in inherited
    decreases |inherited|
  {
    if inherited != [] {
      var init := inherited[..|inherited| - 1];
      InheritedExtends(args, init);
      var before := AddInherited(args, init);
      var after := AddInherited(args, inherited);
      assert after[..|before|] == before;
      forall k | |args| <= k < |after|
        ensures after[k] in inherited
      {
        if k < |before| {
          assert after[k] == before[k];
          assert before[k] in init;
        }
      }
    }
  }

  /**
   * `r` starts with the Java executable and ends with the parent's id, the main
   * class, the native library path, the wrapper class, each launch argument's
   * key and value, and the tweaker, with at least one argument in between.
   */
  predicate LaidOut(r: seq<string>, input: LaunchInput, nativesPath: string)
    requires input.versions != []
  {
    var n := |r| - 2 - 2 * |input.launchArgs|;
    && 5 <= n
    && r[0] == input.javaPath
    && r[n - 4..n] == [ParentProperty + input.processId,
                       MainClassProperty + input.versions[0].mainClass,
                       LibraryPathProperty + nativesPath,
                       WrapperMainClass]
    && (forall j :: 0 <= j < |input.launchArgs| ==>
          r[n + 2 * j] == input.launchArgs[j].0 && r[n + 2 * j + 1] == input.launchArgs[j].1)
    && r[|r| - 2..] == ["--tweakClass", TweakClass]
  }

  /** The vector's layout around the tail, for any part before it that starts with the executable. */
  lemma TailLayout(body: seq<string>, input: LaunchInput, nativesPath: string)
    requires input.versions != [] && body != [] && body[0] == input.javaPath
    ensures LaidOut(body + TailWith(input, nativesPath), input, nativesPath)
  {
    LaunchPairsLayout(input.launchArgs);
    var r := body + TailWith(input, nativesPath);
    var pairs := LaunchPairs(input.launchArgs);
    var fixed := [ParentProperty + input.processId,
                  MainClassProperty + input.versions[0].mainClass,
                  LibraryPathProperty + nativesPath,
                  WrapperMainClass];
    assert r == body + fixed + pairs + ["--tweakClass", TweakClass];
    var n := |body| + 4;
    assert r[n - 4..n] == fixed;
    forall j | 0 <= j < |input.launchArgs|
      ensures r[n + 2 * j] == input.launchArgs[j].0 && r[n + 2 * j + 1] == input.launchArgs[j].1
    {
      assert r[n + 2 * j] == pairs[2 * j];
      assert r[n + 2 * j + 1] == pairs[2 * j + 1];
    }
  }

  /** The part before the inherited arguments starts with the executable and the heap, collector, flag options and `-cp`. */
  lemma HeadStart(input: LaunchInput, classPath: string)
    ensures var options := HeapArgs(input.maxMemory, input.javaArgs) + GcArgs(input.gcType, input.javaArgs)
        + (if input.jvmFlags.Some? then FlagArgs(input.jvmFlags.value, input.javaArgs) else []) + ["-cp"];
      var head := HeadWith(input, classPath);
      |head| >= 1 + |options| && head[0] == input.javaPath && head[1..1 + |options|] == options
  {
  }

  /** The vector starts with the part before the inherited arguments. */
  lemma VectorSplit(input: LaunchInput, classPath: string, nativesPath: string)
    requires input.versions != []
    ensures var head := HeadWith(input, classPath);
      var r := Vector(input, classPath, nativesPath);
      |head| <= |r| && r[..|head|] == head
  {
    var head := HeadWith(input, classPath);
    InheritedExtends(head, input.inheritedArgs);
    var body := AddInherited(head, input.inheritedArgs);
    PrefixThrough(Vector(input, classPath, nativesPath), body, TailWith(input, nativesPath), head);
  }

  /** A prefix of the front part is a prefix of the whole. */
  lemma PrefixThrough(r: seq<string>, body: seq<string>, tail: seq<string>, head: seq<string>)
    requires r == body + tail && |head| <= |body| && body[..|head|] == head
    ensures |head| <= |r| && r[..|head|] == head
  {
    assert r[..|head|] == body[..|head|];
  }

  /** A slice of a prefix is the same slice of the whole. */
  lemma SliceOfPrefix<T>(r: seq<T>, head: seq<T>, i: nat, j: nat)
    requires |head| <= |r| && r[..|head|] == head && i <= j <= |head|
    ensures r[i..j] == head[i..j]
  {
    forall k | i <= k < j
      ensures r[k] == head[k]
    {
      assert r[..|head|][k] == r[k];
    }
  }

  /** `r` holds `xs` from index `i` on. */
  predicate HoldsAt(r: seq<string>, i: nat, xs: seq<string>) {
    i + |xs| <= |r| && r[i..i + |xs|] == xs
  }

  /** Where `r` holds `xs`, it holds every suffix of `xs` further on. */
  lemma HoldsAfter(r: seq<string>, i: nat, xs: seq<string>, k: nat)
    requires HoldsAt(r, i, xs) && k <= |xs|
    ensures HoldsAt(r, i + k, xs[k..])
  {
    assert r[i + k..i + |xs|] == r[i..i + |xs|][k..];
  }

  /** The shape of the vector for given joined paths. */
  lemma VectorShape(input: LaunchInput, classPath: string, nativesPath: string)
    requires input.versions != []
    ensures LaidOut(Vector(input, classPath, nativesPath), input, nativesPath)
  {
    var head := HeadWith(input, classPath);
    var body := AddInherited(head, input.inheritedArgs);
    assert body != [] && body[0] == input.javaPath by {
      InheritedExtends(head, input.inheritedArgs);
      assert body[..|head|][0] == body[0];
    }
    TailLayout(body, input, nativesPath);
  }

  /**
   * The shape of the child's command line: it fails exactly when no version was
   * resolved, and otherwise is laid out as `LaidOut` says, with the native
   * directories of every version as the library path.
   */
  lemma ArgumentsShape(input: LaunchInput)
    ensures Arguments(input).Err? <==> input.versions == []
    ensures Arguments(input).Ok? ==>
      LaidOut(Arguments(input).value, input, NativesPath(input.versions, input.pathSeparator))
  {
    if input.versions != [] {
      VectorShape(input, ClassPath(input.wrapperClassPath, input.versions, input.pathSeparator),
                  NativesPath(input.versions, input.pathSeparator));
    }
  }

  /** Right after the executable come the heap, collector and flag options and `-cp`. */
  lemma OptionsInVector(input: LaunchInput, classPath: string, nativesPath: string)
    requires input.versions != []
    ensures HoldsAt(Vector(input, classPath, nativesPath), 1,
      HeapArgs(input.maxMemory, input.javaArgs) + GcArgs(input.gcType, input.javaArgs)
      + (if input.jvmFlags.Some? then FlagArgs(input.jvmFlags.value, input.javaArgs) else []) + ["-cp"])
  {
    var r := Vector(input, classPath, nativesPath);
    var head := HeadWith(input, classPath);
    var options := HeapArgs(input.maxMemory, input.javaArgs) + GcArgs(input.gcType, input.javaArgs)
      + (if input.jvmFlags.Some? then FlagArgs(input.jvmFlags.value, input.javaArgs) else []) + ["-cp"];
    assert |head| <= |r| && r[..|head|] == head by {
      VectorSplit(input, classPath, nativesPath);
    }
    assert 1 + |options| <= |head| && head[1..1 + |options|] == options by {
      HeadStart(input, classPath);
    }
    SliceOfPrefix(r, head, 1, 1 + |options|);
  }

  /** Whatever a prefix of `r` ends with, `r` holds at that place. */
  lemma HoldsInPrefix(r: seq<string>, front: seq<string>, xs: seq<string>)
    requires |front + xs| <= |r| && r[..|front + xs|] == front + xs
    ensures HoldsAt(r, |front|, xs)
  {
    SliceOfPrefix(r, front + xs, |front|, |front| + |xs|);
    assert (front + xs)[|front|..|front| + |xs|] == xs;
  }

  /** The class path, for given joined paths: right after `-cp`, followed by the user's tokens in order. */
  lemma ClassPathInVector(input: LaunchInput, classPath: string, nativesPath: string)
    requires input.versions != []
    ensures HoldsAt(Vector(input, classPath, nativesPath),
      1 + |HeapArgs(input.maxMemory, input.javaArgs) + GcArgs(input.gcType, input.javaArgs)
        + (if input.jvmFlags.Some? then FlagArgs(input.jvmFlags.value, input.javaArgs) else []) + ["-cp"]|,
      [classPath] + Tokens(input.javaArgs))
  {
    var options := HeapArgs(input.maxMemory, input.javaArgs) + GcArgs(input.gcType, input.javaArgs)
      + (if input.jvmFlags.Some? then FlagArgs(input.jvmFlags.value, input.javaArgs) else []) + ["-cp"];
    var front, xs := [input.javaPath] + options, [classPath] + Tokens(input.javaArgs);
    assert HoldsAt(Vector(input, classPath, nativesPath), |front|, xs) by {
      HeadAtClassPath(input, classPath);
      HoldsInHead(input, classPath, nativesPath, front, xs);
    }
  }

  /** The part before the inherited arguments, cut right after `-cp`. */
  lemma HeadAtClassPath(input: LaunchInput, classPath: string)
    ensures HeadWith(input, classPath) ==
      ([input.javaPath] + (HeapArgs(input.maxMemory, input.javaArgs) + GcArgs(input.gcType, input.javaArgs)
        + (if input.jvmFlags.Some? then FlagArgs(input.jvmFlags.value, input.javaArgs) else []) + ["-cp"]))
      + ([classPath] + Tokens(input.javaArgs))
  {
    var h, g := HeapArgs(input.maxMemory, input.javaArgs), GcArgs(input.gcType, input.javaArgs);
    var f := if input.jvmFlags.Some? then FlagArgs(input.jvmFlags.value, input.javaArgs) else [];
    CutAfterOption(input.javaPath, h, g, f, classPath, Tokens(input.javaArgs));
  }

  /** Regrouping a list of options around `-cp`. */
  lemma CutAfterOption(java: string, h: seq<string>, g: seq<string>, f: seq<string>, c: string, t: seq<string>)
    ensures [java] + h + g + f + ["-cp", c] + t == ([java] + (h + g + f + ["-cp"])) + ([c] + t)
  {
    var a := [java] + h + g + f;
    assert a + ["-cp", c] + t == a + (["-cp"] + ([c] + t));
    assert [java] + (h + g + f + ["-cp"]) == a + ["-cp"];
  }

  /** What the part before the inherited arguments holds, the vector holds at the same place. */
  lemma HoldsInHead(input: LaunchInput, classPath: string, nativesPath: string, front: seq<string>, xs: seq<string>)
    requires input.versions != [] && HeadWith(input, classPath) == front + xs
    ensures HoldsAt(Vector(input, classPath, nativesPath), |front|, xs)
  {
    VectorSplit(input, classPath, nativesPath);
    HoldsInPrefix(Vector(input, classPath, nativesPath), front, xs);
  }

  /**
   * The class path: `-cp` is followed by the wrapper path and every library
   * joined with the separator, and then by the user's tokens in order.
   */
  lemma ClassPathFollows(input: LaunchInput)
    requires input.versions != []
    ensures HoldsAt(Arguments(input).value,
      1 + |HeapArgs(input.maxMemory, input.javaArgs) + GcArgs(input.gcType, input.javaArgs)
        + (if input.jvmFlags.Some? then FlagArgs(input.jvmFlags.value, input.javaArgs) else []) + ["-cp"]|,
      [ClassPath(input.wrapperClassPath, input.versions, input.pathSeparator)] + Tokens(input.javaArgs))
  {
    ClassPathInVector(input, ClassPath(input.wrapperClassPath, input.versions, input.pathSeparator),
                      NativesPath(input.versions, input.pathSeparator));
  }

  /** The heap option of `HeapFallback`, for given joined paths. */
  lemma HeapFirst(input: LaunchInput, classPath: string, nativesPath: string)
    requires input.versions != []
    ensures var r := Vector(input, classPath, nativesPath);
      && |r| > 1
      && (StartsWith(r[1], HeapPrefix) <==>
            input.maxMemory.Some? && input.maxMemory.value != [] && !Mentions(input.javaArgs, HeapPrefix))
      && (StartsWith(r[1], HeapPrefix) ==> r[1] == HeapPrefix + input.maxMemory.value)
  {
    var r := Vector(input, classPath, nativesPath);
    var flags := if input.jvmFlags.Some? then FlagArgs(input.jvmFlags.value, input.javaArgs) else [];
    var heap := HeapArgs(input.maxMemory, input.javaArgs);
    var gc := GcArgs(input.gcType, input.javaArgs);
    var options := heap + gc + flags + ["-cp"];
    assert HoldsAt(r, 1, options) by {
      OptionsInVector(input, classPath, nativesPath);
    }
    assert r[1] == options[0] by {
      assert r[1..1 + |options|][0] == r[1];
    }
    if heap == [] {
      if gc == [] && flags != [] {
        FlagArgsMembers(input.jvmFlags.value, input.javaArgs, flags[0]);
      }
      assert !StartsWith(options[0], HeapPrefix) by {
        if |options[0]| >= 3 {
          assert options[0][2] != HeapPrefix[2];
        }
      }
    }
  }

  /**
   * The configured heap size: the argument after the executable starts with
   * `-Xmx` exactly when a non-empty size is configured and the user's arguments
   * do not mention `-Xmx`, and then it carries the configured size.
   */
  lemma HeapFallback(input: LaunchInput)
    requires input.versions != []
    ensures var r := Arguments(input).value;
      && |r| > 1
      && (StartsWith(r[1], HeapPrefix) <==>
            input.maxMemory.Some? && input.maxMemory.value != [] && !Mentions(input.javaArgs, HeapPrefix))
      && (StartsWith(r[1], HeapPrefix) ==> r[1] == HeapPrefix + input.maxMemory.value)
  {
    HeapFirst(input, ClassPath(input.wrapperClassPath, input.versions, input.pathSeparator),
              NativesPath(input.versions, input.pathSeparator));
  }

  /** The collector case of `GcFallback`: its option sits right after the heap option. */
  lemma GcOffered(input: LaunchInput, classPath: string, nativesPath: string)
    requires input.versions != [] && GcArgs(input.gcType, input.javaArgs) != []
    ensures HoldsAt(Vector(input, classPath, nativesPath), 1 + |HeapArgs(input.maxMemory, input.javaArgs)|,
      [UsePrefix + input.gcType.value]
      + (if input.jvmFlags.Some? then FlagArgs(input.jvmFlags.value, input.javaArgs) else []) + ["-cp"])
  {
    var flags := if input.jvmFlags.Some? then FlagArgs(input.jvmFlags.value, input.javaArgs) else [];
    var gc := GcArgs(input.gcType, input.javaArgs);
    OptionsInVector(input, classPath, nativesPath);
    SkipHeap(Vector(input, classPath, nativesPath), HeapArgs(input.maxMemory, input.javaArgs), gc, flags);
    assert gc == [UsePrefix + input.gcType.value];
  }

  /** The case of `GcFallback` without a collector option: the flags follow the heap option. */
  lemma GcWithheld(input: LaunchInput, classPath: string, nativesPath: string)
    requires input.versions != [] && GcArgs(input.gcType, input.javaArgs) == []
    ensures HoldsAt(Vector(input, classPath, nativesPath), 1 + |HeapArgs(input.maxMemory, input.javaArgs)|,
      (if input.jvmFlags.Some? then FlagArgs(input.jvmFlags.value, input.javaArgs) else []) + ["-cp"])
  {
    var flags := if input.jvmFlags.Some? then FlagArgs(input.jvmFlags.value, input.javaArgs) else [];
    var gc := GcArgs(input.gcType, input.javaArgs);
    OptionsInVector(input, classPath, nativesPath);
    SkipHeap(Vector(input, classPath, nativesPath), HeapArgs(input.maxMemory, input.javaArgs), gc, flags);
    assert gc + flags + ["-cp"] == flags + ["-cp"];
  }

  /** Past the heap options, the options still lie in place. */
  lemma SkipHeap(r: seq<string>, heap: seq<string>, gc: seq<string>, flags: seq<string>)
    requires HoldsAt(r, 1, heap + gc + flags + ["-cp"])
    ensures HoldsAt(r, 1 + |heap|, gc + flags + ["-cp"])
  {
    var options := heap + gc + flags + ["-cp"];
    HoldsAfter(r, 1, options, |heap|);
    assert options[|heap|..] == gc + flags + ["-cp"];
  }

  /**
   * The configured collector: right after the heap option comes `-XX:+Use`
   * and the configured collector, unless none is configured or the user's
   * arguments mention both `-XX:+Use` and `GC`; in that case the flags and
   * `-cp` come straight after the heap option.
   */
  lemma GcFallback(input: LaunchInput)
    requires input.versions != []
    ensures var r := Arguments(input).value;
      var heap := HeapArgs(input.maxMemory, input.javaArgs);
      var flags := if input.jvmFlags.Some? then FlagArgs(input.jvmFlags.value, input.javaArgs) else [];
      var offered := input.gcType.Some? && input.gcType.value != []
        && !(Mentions(input.javaArgs, UsePrefix) && Mentions(input.javaArgs, "GC"));
      && (offered ==> HoldsAt(r, 1 + |heap|, [UsePrefix + input.gcType.value] + flags + ["-cp"]))
      && (!offered ==> HoldsAt(r, 1 + |heap|, flags + ["-cp"]))
  {
    var classPath := ClassPath(input.wrapperClassPath, input.versions, input.pathSeparator);
    var nativesPath := NativesPath(input.versions, input.pathSeparator);
    if GcArgs(input.gcType, input.javaArgs) == [] {
      GcWithheld(input, classPath, nativesPath);
    } else {
      GcOffered(input, classPath, nativesPath);
    }
  }

  /**
   * The configured flags: `-XX:+f` is appended for a configured flag `f` exactly
   * when the user's arguments do not mention `-XX:+f`, and nothing else is appended.
   */
  lemma {:induction false} FlagArgsMembers(flags: seq<string>, javaArgs: Option<string>, x: string)
    ensures x in FlagArgs(flags, javaArgs) <==>
      exists k :: 0 <= k < |flags| && x == FlagPrefix + flags[k] && !Mentions(javaArgs, FlagPrefix + flags[k])
    decreases |flags|
  {
    if flags != [] {
      var init := flags[..|flags| - 1];
      FlagArgsMembers(init, javaArgs, x);
      if x in FlagArgs(init, javaArgs) {
        var k :| 0 <= k < |init| && x == FlagPrefix + init[k] && !Mentions(javaArgs, FlagPrefix + init[k]);
        assert flags[k] == init[k];
      }
      forall k | 0 <= k < |flags| - 1 && x == FlagPrefix + flags[k] && !Mentions(javaArgs, FlagPrefix + flags[k])
        ensures x in FlagArgs(init, javaArgs)
      {
        assert flags[k] == init[k];
      }
    }
  }

  function CountStarting(args: seq<string>, p: string): nat
    decreases |args|
  {
    if args == [] then 0
    else CountStarting(args[..|args| - 1], p) + (if StartsWith(args[|args| - 1], p) then 1 else 0)
  }

  lemma {:induction false} CountStartingPositive(args: seq<string>, p: string)
    ensures CountStarting(args, p) > 0 <==> AnyStarts(args, p)
    decreases |args|
  {
    if args != [] {
      var init := args[..|args| - 1];
      CountStartingPositive(init, p);
      if AnyStarts(init, p) {
        var k :| 0 <= k < |init| && StartsWith(init[k], p);
        assert args[k] == init[k];
      }
      if AnyStarts(args, p) && !StartsWith(args[|args| - 1], p) {
        var k :| 0 <= k < |args| && StartsWith(args[k], p);
        assert init[k] == args[k];
      }
    }
  }

  /** Appending one argument adds one to the count of the prefixes it starts with. */
  lemma CountAppend(args: seq<string>, a: string, p: string)
    ensures CountStarting(args + [a], p) == CountStarting(args, p) + (if StartsWith(a, p) then 1 else 0)
  {
    assert (args + [a])[..|args|] == args;
  }

  /** No argument starts with both `-Xms` and `-Xmx`. */
  lemma XmsNotXmx(a: string)
    ensures !(StartsWith(a, XmsPrefix) && StartsWith(a, HeapPrefix))
  {
  }

  /**
   * The running JVM's `-Xms` and `-Xmx` are inherited only as a fallback: the
   * first inherited argument with the prefix is added when the vector so far has
   * none, and no other one is.
   */
  lemma {:induction false} InheritedPrecedence(args: seq<string>, inherited: seq<string>, p: string)
    requires p == XmsPrefix || p == HeapPrefix
    ensures CountStarting(AddInherited(args, inherited), p) ==
      CountStarting(args, p) + (if !AnyStarts(args, p) && AnyStarts(inherited, p) then 1 else 0)
    decreases |inherited|
  {
    if inherited != [] {
      var init := inherited[..|inherited| - 1];
      var a := inherited[|inherited| - 1];
      InheritedPrecedence(args, init, p);
      var before := AddInherited(args, init);
      CountStartingPositive(before, p);
      CountStartingPositive(args, p);
      XmsNotXmx(a);
      var withXms := if StartsWith(a, XmsPrefix) && !AnyStarts(before, XmsPrefix) then before + [a] else before;
      CountAppend(before, a, p);
      CountAppend(withXms, a, p);
      CountStartingPositive(withXms, p);
      assert AnyStarts(inherited, p) <==> AnyStarts(init, p) || StartsWith(a, p) by {
        if AnyStarts(init, p) {
          var k :| 0 <= k < |init| && StartsWith(init[k], p);
          assert inherited[k] == init[k];
        }
        if AnyStarts(inherited, p) && !StartsWith(a, p) {
          var k :| 0 <= k < |inherited| && StartsWith(inherited[k], p);
          assert init[k] == inherited[k];
        }
      }
    }
  }

  /**
   * The class path: with a separator that no path contains, splitting it gives
   * back the wrapper directory and the libraries in resolver order, or the wrapper
   * directory and one empty entry when there are no libraries.
   */
  lemma ClassPathPieces(wrapper: string, versions: seq<VersionDescriptor>, sep: char)
    requires sep !in wrapper
    requires forall k :: 0 <= k < |Libraries(versions)| ==> sep !in Libraries(versions)[k]
    ensures var libs := Libraries(versions);
      SplitAll(ClassPath(wrapper, versions, sep), sep) == [wrapper] + (if libs == [] then [[]] else libs)
  {
    var libs := Libraries(versions);
    var parts := [wrapper] + (if libs == [] then [[]] else libs);
    if libs == [] {
      assert Join(parts, [sep]) == wrapper + [sep] + Join([[]], [sep]);
    } else {
      assert parts[1..] == libs;
    }
    assert Join(parts, [sep]) == ClassPath(wrapper, versions, sep);
    SplitJoin(parts, sep);
  }

  /** Each token is a piece of the user's arguments with no space in it. */
  lemma TokensFromArgs(javaArgs: Option<string>)
    ensures forall t :: t in Tokens(javaArgs) ==> javaArgs.Some? && Contains(javaArgs.value, t) && ' ' !in t
  {
    if javaArgs.Some? && javaArgs.value != [] {
      JavaSplitContained(javaArgs.value, ' ');
      TrimmedPieces(javaArgs.value, JavaSplit(javaArgs.value, ' '));
    }
  }

  /** Trimmed pieces of `s` without spaces are pieces of `s` without spaces. */
  lemma TrimmedPieces(s: string, pieces: seq<string>)
    requires forall k :: 0 <= k < |pieces| ==> Contains(s, pieces[k]) && ' ' !in pieces[k]
    ensures forall t :: t in TrimAll(pieces) ==> Contains(s, t) && ' ' !in t
  {
    forall t | t in TrimAll(pieces)
      ensures Contains(s, t) && ' ' !in t
    {
      var k :| 0 <= k < |pieces| && t == TrimAll(pieces)[k];
      TrimWithin(pieces[k]);
      SliceOfContained(s, pieces[k], t);
    }
  }

  /** What `trim` keeps of a piece is a slice of it. */
  lemma TrimWithin(piece: string)
    ensures Contains(piece, Trim(piece)) && forall c :: c in Trim(piece) ==> c in piece
  {
    TrimIsSlice(piece);
    var a := TrimFrom(piece);
    var b := a + |Trim(piece)|;
    ContainsSelf(Trim(piece));
    ContainsInSlice(piece, a, b, Trim(piece));
  }

  /** A slice of a slice of `s` is a slice of `s`. */
  lemma SliceOfContained(s: string, piece: string, t: string)
    requires Contains(s, piece) && Contains(piece, t)
    ensures Contains(s, t)
  {
    ContainsIffOccurs(s, piece);
    var i :| OccursAt(s, piece, i);
    assert s[i..i + |piece|] == piece;
    ContainsInSlice(s, i, i + |piece|, t);
  }
}
