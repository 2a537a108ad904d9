/**
 * `CleanroomRelauncher.run`: decide whether the running game needs to be
 * relaunched, whether the settings window must be shown first, and then hand
 * the game over to a child JVM whose exit code the parent exits with.
 */
module Relauncher {
  import opened Wrappers
  import opened JavaText
  import opened Catalog
  import opened Config
  import opened Extraction
  import opened Arguments

  // ---------------------------------------------------------------------
  // Is the loader already running?
  // ---------------------------------------------------------------------

  /** What `Class.forName("com.cleanroommc.boot.Main")` does. */
  datatype ClassLookup =
    | Found
    | NotFound        // ClassNotFoundException, the one exception that is caught
    | LookupFailed    // any other Throwable (a LinkageError, say), which propagates

  /** Why a run ends in an exception instead of a relaunch. */
  datatype RunError =
    | LookupError                        // from isCleanroom
    | ReleasesUnavailable                // "Unable to query Cleanroom's releases ..."
    | NoReleases                         // releases.get(0) on an empty list
    | NullConfig                         // CONFIG is null when Gson read an empty document
    | NullJvmFlags                       // new HashSet<>(null) in the window's initialiser
    | VersionsUnavailable                // "Unable to grab CleanroomVersion to relaunch."
    | ExtractionFailed(cause: ExtractError)
    | NoVersionResolved                  // versions.get(0) on an empty list
    | LaunchFailed                       // IOException or InterruptedException around the child

  /** `isCleanroom()`: true when the loader's main class resolves, false when it is not found. */
  function IsCleanroom(lookup: ClassLookup): (r: Result<bool, RunError>)
    ensures r == Ok(true) <==> lookup == Found
    ensures r == Ok(false) <==> lookup == NotFound
    ensures r.Err? <==> lookup == LookupFailed
  {
    match lookup
    case Found => Ok(true)
    case NotFound => Ok(false)
    case LookupFailed => Err(LookupError)
  }

  // ---------------------------------------------------------------------
  // Does the settings window have to be shown?
  // ---------------------------------------------------------------------

  /** `releases.stream().filter(cr -> cr.name.equals(name)).findFirst()` */
  function FindByName(releases: seq<Release>, name: string): (r: Option<Release>)
    ensures r.None? <==> forall i :: 0 <= i < |releases| ==> releases[i].name != name
    ensures r.Some? ==> exists i ::
      && 0 <= i < |releases| && releases[i] == r.value && releases[i].name == name
      && forall j :: 0 <= j < i ==> releases[j].name != name
    decreases |releases|
  {
    if releases == [] then None
    else if releases[0].name == name then Some(releases[0])
    else
      var r := FindByName(releases[1..], name);
      if r.Some? then
        var i :| 0 <= i < |releases[1..]| && releases[1..][i] == r.value
          && releases[1..][i].name == name && forall j :: 0 <= j < i ==> releases[1..][j].name != name;
        assert releases[i + 1] == r.value;
        assert forall j :: 1 <= j < i + 1 ==> releases[j] == releases[1..][j - 1];
        r
      else r
  }

  /** What `run` knows before it decides on the window. */
  datatype Decision = Decision(
    selected: Option<Release>,
    javaPath: Option<string>,
    javaArgs: Option<string>,
    needsNotifyLatest: bool)

  /**
   * The remembered release looked up by name, the remembered Java path kept
   * only while it names a regular file, and whether the newest release is one
   * the user has not been told about yet.
   */
  function Decide(releases: seq<Release>, config: ConfigValues, isFile: string -> bool): Decision
    requires releases != []
  {
    Decision(
      if config.selectedVersion.Some? then FindByName(releases, config.selectedVersion.value) else None,
      if config.javaPath.Some? && !isFile(config.javaPath.value) then None else config.javaPath,
      config.args,
      config.latestVersion.None? || config.latestVersion.value != releases[0].name)
  }

  /** The window is shown when a release or a Java path is missing, or when there is news. */
  predicate NeedsWindow(d: Decision) {
    d.selected.None? || d.javaPath.None? || d.needsNotifyLatest
  }

  /**
   * The window is skipped exactly when the remembered release is still listed,
   * the remembered Java path is a regular file, and the newest release is the
   * one noted last time; then the remembered release and path are used as they are.
   */
  lemma WindowWhenNeeded(releases: seq<Release>, config: ConfigValues, isFile: string -> bool)
    requires releases != []
    ensures !NeedsWindow(Decide(releases, config, isFile)) <==>
      && config.selectedVersion.Some?
      && (exists i :: 0 <= i < |releases| && releases[i].name == config.selectedVersion.value)
      && config.javaPath.Some? && isFile(config.javaPath.value)
      && config.latestVersion == Some(releases[0].name)
    ensures !NeedsWindow(Decide(releases, config, isFile)) ==>
      var d := Decide(releases, config, isFile);
      && d.selected.value in releases && d.selected.value.name == config.selectedVersion.value
      && d.javaPath == config.javaPath && d.javaArgs == config.args
  {
    var d := Decide(releases, config, isFile);
    if config.selectedVersion.Some? {
      var r := FindByName(releases, config.selectedVersion.value);
      if r.Some? {
        var i :| 0 <= i < |releases| && releases[i] == r.value && releases[i].name == config.selectedVersion.value
          && forall j :: 0 <= j < i ==> releases[j].name != config.selectedVersion.value;
        assert d.selected.value in releases;
      }
    }
  }

  /** What a confirmed window makes `run` store in the configuration. */
  function Remembered(config: ConfigValues, releases: seq<Release>, choice: WindowChoice): ConfigValues
    requires releases != []
  {
    ConfigValues(
      Some(choice.selected.name),
      Some(releases[0].name),
      Some(NormalizeSlashes(choice.javaPath)),
      choice.javaArgs,
      choice.maxMemory,
      choice.gcType,
      choice.jvmFlags)
  }

  /**
   * Once the window has been confirmed with a listed release and a Java path
   * that is a regular file, the next run over the same release list does not
   * show the window again and uses the release of that name.
   */
  lemma ConfirmedChoiceIsRemembered(config: ConfigValues, releases: seq<Release>, choice: WindowChoice,
                                    isFile: string -> bool)
    requires releases != []
    requires choice.selected in releases
    requires isFile(NormalizeSlashes(choice.javaPath))
    ensures var d := Decide(releases, Remembered(config, releases, choice), isFile);
      && !NeedsWindow(d)
      && d.selected.value.name == choice.selected.name
      && d.javaPath == Some(NormalizeSlashes(choice.javaPath))
      && d.javaArgs == choice.javaArgs
  {
    var v := Remembered(config, releases, choice);
    var i :| 0 <= i < |releases| && releases[i] == choice.selected;
    WindowWhenNeeded(releases, v, isFile);
  }

  // ---------------------------------------------------------------------
  // The outside world a run depends on
  // ---------------------------------------------------------------------

  /** The window's fields when its relaunch button closed it; the button's checks make release and path non-null. */
  datatype WindowChoice = WindowChoice(
    selected: Release,
    javaPath: string,
    javaArgs: Option<string>,
    maxMemory: Option<string>,
    gcType: Option<string>,
    jvmFlags: Option<seq<string>>)

  /** How the user leaves the settings window. */
  datatype WindowOutcome =
    | ClosedWindow                  // the close box: selected := null, then exit(0)
    | Confirmed(choice: WindowChoice)

  /** What happens to the child JVM. */
  datatype ChildOutcome = SpawnFailed | Interrupted | ExitedWith(code: int)

  /**
   * The answers of everything `run` consults but this model does not
   * contain: the class lookup, the release catalog, the file system check,
   * the user, the version resolver, the jar, the platform, and the child.
   */
  datatype Environment = Environment(
    lookup: ClassLookup,
    releases: Option<seq<Release>>,                        // None: the query threw
    isFile: string -> bool,
    window: WindowOutcome,
    versions: Release -> Option<seq<VersionDescriptor>>,   // None: the download threw
    cacheDir: Path,
    bundle: Bundle,
    md5: Bytes -> string,
    pathString: Path -> string,
    pathSeparator: char,
    inheritedArgs: seq<string>,
    processId: string,
    launchArgs: seq<(string, string)>,
    child: seq<string> -> ChildOutcome)

  /** How a run ends. */
  datatype RunOutcome =
    | AlreadyCleanroom                                       // returned without doing anything
    | WindowExit                                             // exit(0) from the window's close box
    | Relaunched(input: LaunchInput, command: seq<string>, code: int)   // exit(code) after the child
    | Failed(error: RunError)                                // an exception out of run

  /** `ExitVMBypass.exit`: the exit codes the JVM was asked to exit with, in order. */
  class Vm {
    var exitCodes: seq<int>

    constructor ()
      ensures exitCodes == []
    {
      exitCodes := [];
    }

    method Exit(code: int)
      modifies this
      ensures exitCodes == old(exitCodes) + [code]
    {
      exitCodes := exitCodes + [code];
    }
  }

  /** The launch input built from what `run` has settled on and the configuration as it stands. */
  function Input(javaPath: string, javaArgs: Option<string>, config: ConfigValues,
                 versions: seq<VersionDescriptor>, wrapperClassPath: string, env: Environment): LaunchInput
  {
    LaunchInput(javaPath, javaArgs, config.maxMemory, config.gcType, config.jvmFlags, versions,
                wrapperClassPath, env.pathSeparator, env.inheritedArgs, env.processId, env.launchArgs)
  }

  /**
   * After the window is confirmed: store the choices, the newest release's
   * name and the normalised Java path in the configuration.
   */
  method Remember(config: RelauncherConfiguration, releases: seq<Release>, choice: WindowChoice)
    requires releases != []
    modifies config
    ensures config.Values() == Remembered(old(config.Values()), releases, choice)
  {
    config.SetCleanroomVersion(Some(choice.selected.name));
    config.SetLatestCleanroomVersion(Some(releases[0].name));
    config.SetJavaExecutablePath(choice.javaPath);
    config.SetJavaArguments(choice.javaArgs);
    config.SetMaxMemory(choice.maxMemory);
    config.SetGcType(choice.gcType);
    config.SetJvmFlags(choice.jvmFlags);
  }

  /**
   * How the hand-off ends once a release and a Java path are settled: the
   * release's versions are resolved, the wrapper is extracted, the command is
   * assembled, and the child runs. Every failure is an exception.
   */
  function LaunchResult(release: Release, javaPath: string, javaArgs: Option<string>, config: ConfigValues,
                        env: Environment, nodes: Nodes): RunOutcome
  {
    match env.versions(release)
    case None => Failed(VersionsUnavailable)
    case Some(versions) =>
      var wrapper := Extract(nodes, env.cacheDir, env.bundle, env.md5).0;
      if wrapper.Err? then Failed(ExtractionFailed(wrapper.error))
      else
        var input := Input(javaPath, javaArgs, config, versions, env.pathString(wrapper.value), env);
        match Arguments.Arguments(input)
        case Err(_) => Failed(NoVersionResolved)
        case Ok(command) =>
          match env.child(command)
          case ExitedWith(code) => Relaunched(input, command, code)
          case SpawnFailed => Failed(LaunchFailed)
          case Interrupted => Failed(LaunchFailed)
  }

  /** The disk the hand-off leaves: untouched when the versions are unavailable, otherwise `Extract`'s. */
  function LaunchDisk(release: Release, env: Environment, nodes: Nodes): Nodes {
    if env.versions(release).None? then nodes else Extract(nodes, env.cacheDir, env.bundle, env.md5).1
  }

  /**
   * Each step of the hand-off fails with its own exception, in order; once
   * they all pass, the child's exit decides: an exit code relaunches, with
   * the release's versions, the extracted wrapper and a command laid out as
   * `ArgumentsShape` says, starting with the chosen Java executable.
   */
  lemma LaunchSteps(release: Release, javaPath: string, javaArgs: Option<string>, config: ConfigValues,
                    env: Environment, nodes: Nodes)
    ensures var r := LaunchResult(release, javaPath, javaArgs, config, env, nodes);
      var wrapper := Extract(nodes, env.cacheDir, env.bundle, env.md5).0;
      && (r == Failed(VersionsUnavailable) <==> env.versions(release).None?)
      && (r.Failed? && r.error.ExtractionFailed? <==> env.versions(release).Some? && wrapper.Err?)
      && (r == Failed(NoVersionResolved) <==>
            env.versions(release).Some? && wrapper.Ok? && env.versions(release).value == [])
      && (r.Relaunched? || r.Failed?)
    ensures var r := LaunchResult(release, javaPath, javaArgs, config, env, nodes);
      env.versions(release).Some? && env.versions(release).value != []
      && Extract(nodes, env.cacheDir, env.bundle, env.md5).0.Ok? ==>
        var input := Input(javaPath, javaArgs, config, env.versions(release).value,
                           env.pathString(env.cacheDir + ["wrapper"]), env);
        && Arguments.Arguments(input).Ok?
        && var command := Arguments.Arguments(input).value;
        && (r.Relaunched? <==> env.child(command).ExitedWith?)
        && (r.Relaunched? ==> r == Relaunched(input, command, env.child(command).code))
        && (!r.Relaunched? ==> r == Failed(LaunchFailed))
        && command[0] == javaPath
        && LaidOut(command, input, NativesPath(input.versions, input.pathSeparator))
  {
    ExtractEarlyFailures(nodes, env.cacheDir, env.bundle, env.md5);
    var wrapper := Extract(nodes, env.cacheDir, env.bundle, env.md5).0;
    if env.versions(release).Some? && wrapper.Ok? {
      var input := Input(javaPath, javaArgs, config, env.versions(release).value, env.pathString(wrapper.value), env);
      ArgumentsShape(input);
    }
  }

  /**
   * The hand-off: resolve the release, extract the wrapper, assemble the
   * command, run the child and exit with its code. Every failure is an
   * exception and no exit.
   */
  method Launch(release: Release, javaPath: string, javaArgs: Option<string>, config: ConfigValues,
                env: Environment, disk: Disk, vm: Vm) returns (outcome: RunOutcome)
    modifies disk, vm
    ensures outcome == LaunchResult(release, javaPath, javaArgs, config, env, old(disk.nodes))
    ensures disk.nodes == LaunchDisk(release, env, old(disk.nodes))
    ensures vm.exitCodes == old(vm.exitCodes) + (if outcome.Relaunched? then [outcome.code] else [])
    ensures WellFormed(old(disk.nodes)) ==> WellFormed(disk.nodes)
  {
    var versions := env.versions(release);
    if versions.None? {
      return Failed(VersionsUnavailable);
    }
    var wrapper := disk.GetOrExtract(env.cacheDir, env.bundle, env.md5);
    if wrapper.Err? {
      return Failed(ExtractionFailed(wrapper.error));
    }
    var input := Input(javaPath, javaArgs, config, versions.value, env.pathString(wrapper.value), env);
    var command := Assemble(input);
    if command.Err? {
      return Failed(NoVersionResolved);
    }
    match env.child(command.value)
    case SpawnFailed =>
      return Failed(LaunchFailed);
    case Interrupted =>
      return Failed(LaunchFailed);
    case ExitedWith(code) =>
      vm.Exit(code);
      return Relaunched(input, command.value, code);
  }

  /**
   * `run()`. Certificates, logging and saving the configuration file are
   * left out; the remaining steps keep the code's order. `config` is the
   * `CONFIG` field, which is null when the configuration file held an empty
   * document; the first getter call on it then throws.
   */
  method Run(config: RelauncherConfiguration?, env: Environment, disk: Disk, vm: Vm) returns (outcome: RunOutcome)
    modifies config, disk, vm
    ensures env.lookup == Found <==> outcome == AlreadyCleanroom
    ensures env.lookup == LookupFailed ==> outcome == Failed(LookupError)
    ensures env.lookup == NotFound && env.releases.None? ==> outcome == Failed(ReleasesUnavailable)
    ensures env.lookup == NotFound && env.releases == Some([]) ==> outcome == Failed(NoReleases)
    ensures env.lookup == NotFound && env.releases.Some? && env.releases.value != [] && config == null ==>
      outcome == Failed(NullConfig)
    // Every exit before the settings are read changes nothing.
    ensures env.lookup != NotFound || env.releases.None? || env.releases == Some([]) || config == null ==>
      disk.nodes == old(disk.nodes) && vm.exitCodes == old(vm.exitCodes)
      && (config != null ==> config.Values() == old(config.Values()))
    ensures env.lookup == NotFound && env.releases.Some? && env.releases.value != [] && config != null ==>
      var releases := env.releases.value;
      var d := Decide(releases, old(config.Values()), env.isFile);
      && (outcome == WindowExit <==>
            NeedsWindow(d) && old(config.Values()).jvmFlags.Some? && env.window.ClosedWindow?)
      && (!NeedsWindow(d) ==>
            && config.Values() == old(config.Values())
            && outcome == LaunchResult(d.selected.value, d.javaPath.value, d.javaArgs, old(config.Values()),
                                       env, old(disk.nodes))
            && disk.nodes == LaunchDisk(d.selected.value, env, old(disk.nodes)))
      && (NeedsWindow(d) && old(config.Values()).jvmFlags.None? ==>
            outcome == Failed(NullJvmFlags) && config.Values() == old(config.Values()) && disk.nodes == old(disk.nodes))
      && (NeedsWindow(d) && old(config.Values()).jvmFlags.Some? && env.window.ClosedWindow? ==>
            config.Values() == old(config.Values()) && disk.nodes == old(disk.nodes))
      && (NeedsWindow(d) && old(config.Values()).jvmFlags.Some? && env.window.Confirmed? ==>
            var choice := env.window.choice;
            && config.Values() == Remembered(old(config.Values()), releases, choice)
            && outcome == LaunchResult(choice.selected, choice.javaPath, choice.javaArgs, config.Values(),
                                       env, old(disk.nodes))
            && disk.nodes == LaunchDisk(choice.selected, env, old(disk.nodes)))
    ensures outcome == WindowExit ==> vm.exitCodes == old(vm.exitCodes) + [0]
    ensures outcome.Relaunched? ==> vm.exitCodes == old(vm.exitCodes) + [outcome.code]
    ensures outcome.Failed? ==> vm.exitCodes == old(vm.exitCodes)
    ensures WellFormed(old(disk.nodes)) ==> WellFormed(disk.nodes)
  {
    var cleanroom := IsCleanroom(env.lookup);
    if cleanroom.Err? {
      return Failed(cleanroom.error);
    }
    if cleanroom.value {
      return AlreadyCleanroom;
    }
    if env.releases.None? {
      return Failed(ReleasesUnavailable);
    }
    var releases := env.releases.value;
    if releases == [] {
      return Failed(NoReleases);
    }
    if config == null {
      return Failed(NullConfig);
    }
    var d := Decide(releases, config.Values(), env.isFile);
    var selected, javaPath, javaArgs := d.selected, d.javaPath, d.javaArgs;
    if NeedsWindow(d) {
      if config.jvmFlags.None? {
        return Failed(NullJvmFlags);
      }
      match env.window
      case ClosedWindow =>
        vm.Exit(0);
        return WindowExit;
      case Confirmed(choice) =>
        Remember(config, releases, choice);
        selected, javaPath, javaArgs := Some(choice.selected), Some(choice.javaPath), choice.javaArgs;
    }
    outcome := Launch(selected.value, javaPath.value, javaArgs, config.Values(), env, disk, vm);
  }
}
