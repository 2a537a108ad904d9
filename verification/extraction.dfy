/**
 * `getOrExtract`: copies the wrapper classes out of the relauncher's own jar
 * into the cache, unless the cached wrapper class already has the hash the
 * jar's manifest records.
 *
 * The disk is a map from absolute paths (sequences of names) to nodes; the
 * jar is a value: its manifest and the entries of its `/wrapper/` directory.
 */
module Extraction {
  import opened Wrappers

  type Path = seq<string>
  type Bytes = seq<bv8>

  datatype Node = Directory | RegularFile(content: Bytes)

  type Nodes = map<Path, Node>

  /** `wrapper/com/cleanroommc/relauncher/wrapper`, below the cache root. */
  const WrapperDirectory: Path := ["wrapper", "com", "cleanroommc", "relauncher", "wrapper"]

  const WrapperFileName: string := "RelaunchMainWrapper.class"

  /** One child of the jar's `/wrapper/` directory. */
  datatype BundleEntry = BundleEntry(name: string, node: Node)

  /** `META-INF/MANIFEST.MF`: unreadable, or its main attributes' `WrapperHash` (None when absent). */
  datatype Manifest = UnreadableManifest | Attributes(wrapperHash: Option<string>)

  /** The relauncher's jar, opened as a file system; `wrapperEntries` is None when `/wrapper/` cannot be listed. */
  datatype Bundle =
    | Unopenable
    | Opened(manifest: Manifest, wrapperEntries: Option<seq<BundleEntry>>)

  /** The two RuntimeExceptions `getOrExtract` throws. */
  datatype ExtractError =
    | HashUnreadable   // "Unable to read original hash of the wrapper class file"
    | ExtractFailed    // "Unable to extract relauncher's jar file"

  predicate IsPrefix(prefix: Path, p: Path) {
    |prefix| <= |p| && p[..|prefix|] == prefix
  }

  /** A disk whose every node sits inside directories that exist. */
  ghost predicate WellFormed(nodes: Nodes) {
    forall p, k :: p in nodes && 0 < k < |p| ==> p[..k] in nodes && nodes[p[..k]].Directory?
  }

  function WrapperDir(cacheDir: Path): Path {
    cacheDir + WrapperDirectory
  }

  function WrapperFile(cacheDir: Path): Path {
    WrapperDir(cacheDir) + [WrapperFileName]
  }

  /**
   * The hash check: the cached wrapper class is a readable file whose MD5 equals
   * the manifest's hash. A missing attribute makes `originalHash.equals` throw,
   * which is caught, so it never matches; a directory cannot be read, so it never
   * matches either.
   */
  predicate UpToDate(nodes: Nodes, cacheDir: Path, expected: Option<string>, md5: Bytes -> string) {
    var file := WrapperFile(cacheDir);
    expected.Some? && file in nodes && nodes[file].RegularFile? && md5(nodes[file].content) == expected.value
  }

  /** `Files.walk(dir)` with every regular file deleted: the directory itself too, if it is a file. */
  function Purge(nodes: Nodes, dir: Path): (r: Nodes)
    // Only deletes: whatever is left is as it was.
    ensures forall p :: p in r ==> p in nodes && r[p] == nodes[p]
    // No regular file is left under `dir`.
    ensures forall p :: p in r && IsPrefix(dir, p) ==> r[p] == Directory
    // Paths outside `dir`, and directories anywhere, are kept.
    ensures forall p :: p in nodes && (!IsPrefix(dir, p) || nodes[p] == Directory) ==> p in r
  {
    map p | p in nodes && !(IsPrefix(dir, p) && nodes[p].RegularFile?) :: nodes[p]
  }

  function Prefixes(dir: Path): set<Path> {
    set k | 0 < k <= |dir| :: dir[..k]
  }

  /** `Files.createDirectories(dir)`: fails when some ancestor, or `dir` itself, is a regular file. */
  function CreateDirectories(nodes: Nodes, dir: Path): Result<Nodes, ExtractError> {
    if exists k :: 0 < k <= |dir| && dir[..k] in nodes && nodes[dir[..k]].RegularFile? then
      Err(ExtractFailed)
    else
      Ok(nodes + map p | p in Prefixes(dir) :: Directory)
  }

  /**
   * The copy loop: each entry goes to `dir/name`; `Files.copy` without
   * REPLACE_EXISTING fails when the target exists or `dir` is not a directory,
   * and a directory entry is copied as an empty directory.
   */
  function CopyEntries(nodes: Nodes, dir: Path, entries: seq<BundleEntry>): Result<Nodes, ExtractError>
    decreases |entries|
  {
    if entries == [] then Ok(nodes)
    else
      var target := dir + [entries[0].name];
      if dir !in nodes || !nodes[dir].Directory? || target in nodes then Err(ExtractFailed)
      else CopyEntries(nodes[target := entries[0].node], dir, entries[1..])
  }

  /**
   * The disk the copy loop leaves behind, whether it runs to the end or stops
   * at the first entry it cannot copy: the entries before that one stay copied.
   */
  function CopiedSoFar(nodes: Nodes, dir: Path, entries: seq<BundleEntry>): Nodes
    decreases |entries|
  {
    if entries == [] then nodes
    else
      var target := dir + [entries[0].name];
      if dir !in nodes || !nodes[dir].Directory? || target in nodes then nodes
      else CopiedSoFar(nodes[target := entries[0].node], dir, entries[1..])
  }

  /** What the cache holds before copying, when the hashes did not match. */
  function Prepare(nodes: Nodes, dir: Path): Result<Nodes, ExtractError> {
    if dir in nodes then Ok(Purge(nodes, dir)) else CreateDirectories(nodes, dir)
  }

  /** The result of `getOrExtract` and the disk it leaves behind. */
  function Extract(nodes: Nodes, cacheDir: Path, bundle: Bundle, md5: Bytes -> string): (Result<Path, ExtractError>, Nodes) {
    if bundle.Unopenable? then (Err(ExtractFailed), nodes)
    else if bundle.manifest.UnreadableManifest? then (Err(HashUnreadable), nodes)
    else if UpToDate(nodes, cacheDir, bundle.manifest.wrapperHash, md5) then (Ok(cacheDir + ["wrapper"]), nodes)
    else
      match Prepare(nodes, WrapperDir(cacheDir))
      case Err(e) => (Err(e), nodes)
      case Ok(prepared) =>
        if bundle.wrapperEntries.None? then (Err(ExtractFailed), prepared)
        else
          match CopyEntries(prepared, WrapperDir(cacheDir), bundle.wrapperEntries.value)
          case Err(e) => (Err(e), CopiedSoFar(prepared, WrapperDir(cacheDir), bundle.wrapperEntries.value))
          case Ok(copied) => (Ok(cacheDir + ["wrapper"]), copied)
  }

  /** The local disk; `getOrExtract` changes it step by step. */
  class Disk {
    var nodes: Nodes

    constructor (initial: Nodes)
      ensures nodes == initial
    {
      nodes := initial;
    }

    /** `getOrExtract()`: its result and the disk it leaves are `Extract`'s. */
    method GetOrExtract(cacheDir: Path, bundle: Bundle, md5: Bytes -> string) returns (r: Result<Path, ExtractError>)
      modifies this
      ensures r == Extract(old(nodes), cacheDir, bundle, md5).0
      ensures nodes == Extract(old(nodes), cacheDir, bundle, md5).1
      ensures WellFormed(old(nodes)) ==> WellFormed(nodes)
    {
      if bundle.Unopenable? {
        return Err(ExtractFailed);
      }
      if bundle.manifest.UnreadableManifest? {
        return Err(HashUnreadable);
      }
      var originalHash := bundle.manifest.wrapperHash;
      var dir := WrapperDir(cacheDir);
      var file := WrapperFile(cacheDir);

      var skip := false;
      if file in nodes && nodes[file].RegularFile? {
        var cachedHash := md5(nodes[file].content);
        if originalHash.Some? && originalHash.value == cachedHash {
          skip := true;
        }
      }

      if !skip {
        var prepared := PrepareDirectory(dir);
        if prepared.Err? {
          return Err(prepared.error);
        }
        if bundle.wrapperEntries.None? {
          return Err(ExtractFailed);
        }
        ghost var before := nodes;
        var copied := CopyAll(dir, bundle.wrapperEntries.value);
        if copied.Err? {
          CopyFailure(before, dir, bundle.wrapperEntries.value);
          return Err(copied.error);
        }
      }
      return Ok(cacheDir + ["wrapper"]);
    }

    /**
     * The delete-or-create step before copying: the disk becomes `Prepare`'s,
     * or stays as it was when that fails.
     */
    method PrepareDirectory(dir: Path) returns (r: Result<(), ExtractError>)
      modifies this
      ensures Prepare(old(nodes), dir).Ok? <==> r.Ok?
      ensures r.Ok? ==> nodes == Prepare(old(nodes), dir).value
      ensures r.Err? ==> r.error == Prepare(old(nodes), dir).error && nodes == old(nodes)
      ensures WellFormed(old(nodes)) ==> WellFormed(nodes)
    {
      if dir in nodes {
        if WellFormed(nodes) {
          PurgeKeepsWellFormed(nodes, dir);
        }
        nodes := Purge(nodes, dir);
        return Ok(());
      }
      var created := CreateDirectories(nodes, dir);
      if created.Err? {
        return Err(created.error);
      }
      if WellFormed(nodes) {
        CreateKeepsWellFormed(nodes, dir);
      }
      nodes := created.value;
      return Ok(());
    }

    /**
     * The loop over the jar's `/wrapper/` entries: it succeeds as `CopyEntries`
     * does, and leaves the disk `CopiedSoFar` says, finished or not.
     */
    method CopyAll(dir: Path, entries: seq<BundleEntry>) returns (r: Result<(), ExtractError>)
      modifies this
      ensures CopyEntries(old(nodes), dir, entries).Ok? <==> r.Ok?
      ensures r.Ok? ==> nodes == CopyEntries(old(nodes), dir, entries).value
      ensures r.Err? ==> r.error == ExtractFailed
      ensures nodes == CopiedSoFar(old(nodes), dir, entries)
      ensures WellFormed(old(nodes)) ==> WellFormed(nodes)
    {
      ghost var start := nodes;
      var i := 0;
      while i < |entries|
        invariant 0 <= i <= |entries|
        invariant CopyEntries(nodes, dir, entries[i..]) == CopyEntries(start, dir, entries)
        invariant CopiedSoFar(nodes, dir, entries[i..]) == CopiedSoFar(start, dir, entries)
        invariant WellFormed(start) ==> WellFormed(nodes)
      {
        var target := dir + [entries[i].name];
        if dir !in nodes || !nodes[dir].Directory? || target in nodes {
          return Err(ExtractFailed);
        }
        assert entries[i..][1..] == entries[i + 1..];
        if WellFormed(start) {
          CopyKeepsWellFormed(nodes, dir, entries[i]);
        }
        nodes := nodes[target := entries[i].node];
        i := i + 1;
      }
      return Ok(());
    }
  }

  lemma PurgeKeepsWellFormed(nodes: Nodes, dir: Path)
    requires WellFormed(nodes)
    ensures WellFormed(Purge(nodes, dir))
  {
    var r := Purge(nodes, dir);
    forall p, k | p in r && 0 < k < |p|
      ensures p[..k] in r && r[p[..k]].Directory?
    {
      assert nodes[p[..k]].Directory?;
    }
  }

  lemma CreateKeepsWellFormed(nodes: Nodes, dir: Path)
    requires WellFormed(nodes)
    requires CreateDirectories(nodes, dir).Ok?
    ensures WellFormed(CreateDirectories(nodes, dir).value)
  {
    var r := CreateDirectories(nodes, dir).value;
    forall p, k | p in r && 0 < k < |p|
      ensures p[..k] in r && r[p[..k]].Directory?
    {
      if p in Prefixes(dir) {
        var j :| 0 < j <= |dir| && p == dir[..j];
        assert p[..k] == dir[..k];
        assert p[..k] in Prefixes(dir);
      } else {
        assert p in nodes;
      }
    }
  }

  lemma CopyKeepsWellFormed(nodes: Nodes, dir: Path, e: BundleEntry)
    requires WellFormed(nodes)
    requires dir in nodes && nodes[dir].Directory? && dir + [e.name] !in nodes
    ensures WellFormed(nodes[dir + [e.name] := e.node])
  {
    var target := dir + [e.name];
    var r := nodes[target := e.node];
    forall p, k | p in r && 0 < k < |p|
      ensures p[..k] in r && r[p[..k]].Directory?
    {
      if p == target {
        if k == |dir| {
          assert p[..k] == dir;
        } else {
          assert p[..k] == dir[..k];
        }
      } else {
        assert p in nodes;
      }
    }
  }

  function Target(dir: Path, e: BundleEntry): Path {
    dir + [e.name]
  }

  /**
   * A copy loop that runs to the end puts every entry at its own fresh target,
   * so the names are distinct, and touches nothing else.
   */
  lemma CopyPlacesEntries(nodes: Nodes, dir: Path, entries: seq<BundleEntry>)
    requires CopyEntries(nodes, dir, entries).Ok?
    ensures var r := CopyEntries(nodes, dir, entries).value;
      && (forall i :: 0 <= i < |entries| ==> Target(dir, entries[i]) !in nodes)
      && (forall i :: 0 <= i < |entries| ==> Target(dir, entries[i]) in r && r[Target(dir, entries[i])] == entries[i].node)
      && (forall i, j :: 0 <= i < j < |entries| ==> entries[i].name != entries[j].name)
      && (forall p :: (forall i :: 0 <= i < |entries| ==> p != Target(dir, entries[i])) ==>
            (p in r <==> p in nodes) && (p in r ==> r[p] == nodes[p]))
  {
    CopyTargetsFresh(nodes, dir, entries);
    CopyTargetsFilled(nodes, dir, entries);
    CopyElsewhereUnchanged(nodes, dir, entries);
  }

  /** The targets of a finished copy loop did not exist before, and the names are distinct. */
  lemma {:induction false} CopyTargetsFresh(nodes: Nodes, dir: Path, entries: seq<BundleEntry>)
    requires CopyEntries(nodes, dir, entries).Ok?
    ensures forall i :: 0 <= i < |entries| ==> Target(dir, entries[i]) !in nodes
    ensures forall i, j :: 0 <= i < j < |entries| ==> entries[i].name != entries[j].name
    decreases |entries|
  {
    if entries != [] {
      var e := entries[0];
      var next := nodes[Target(dir, e) := e.node];
      CopyTargetsFresh(next, dir, entries[1..]);
      forall i | 0 < i < |entries|
        ensures Target(dir, entries[i]) !in next
      {
        assert entries[i] == entries[1..][i - 1];
      }
      forall i, j | 0 <= i < j < |entries|
        ensures entries[i].name != entries[j].name
      {
        if i > 0 {
          assert entries[i] == entries[1..][i - 1] && entries[j] == entries[1..][j - 1];
        }
      }
    }
  }

  /** Nothing but the targets changes during a finished copy loop. */
  lemma {:induction false} CopyElsewhereUnchanged(nodes: Nodes, dir: Path, entries: seq<BundleEntry>)
    requires CopyEntries(nodes, dir, entries).Ok?
    ensures var r := CopyEntries(nodes, dir, entries).value;
      forall p :: (forall i :: 0 <= i < |entries| ==> p != Target(dir, entries[i])) ==>
        (p in r <==> p in nodes) && (p in r ==> r[p] == nodes[p])
    decreases |entries|
  {
    if entries != [] {
      var e := entries[0];
      var next := nodes[Target(dir, e) := e.node];
      CopyElsewhereUnchanged(next, dir, entries[1..]);
      var r := CopyEntries(nodes, dir, entries).value;
      assert r == CopyEntries(next, dir, entries[1..]).value;
      forall p | (forall i :: 0 <= i < |entries| ==> p != Target(dir, entries[i]))
        ensures (p in r <==> p in nodes) && (p in r ==> r[p] == nodes[p])
      {
        assert p != Target(dir, entries[0]);
        forall m | 0 <= m < |entries[1..]|
          ensures p != Target(dir, entries[1..][m])
        {
          assert entries[1..][m] == entries[m + 1];
        }
      }
    }
  }

  /** Every target of a finished copy loop holds its entry's node. */
  lemma {:induction false} CopyTargetsFilled(nodes: Nodes, dir: Path, entries: seq<BundleEntry>)
    requires CopyEntries(nodes, dir, entries).Ok?
    ensures var r := CopyEntries(nodes, dir, entries).value;
      forall i :: 0 <= i < |entries| ==> Target(dir, entries[i]) in r && r[Target(dir, entries[i])] == entries[i].node
    decreases |entries|
  {
    if entries != [] {
      var e := entries[0];
      var next := nodes[Target(dir, e) := e.node];
      var rest := entries[1..];
      CopyTargetsFilled(next, dir, rest);
      var r := CopyEntries(nodes, dir, entries).value;
      assert r == CopyEntries(next, dir, rest).value;
      forall i | 0 < i < |entries|
        ensures Target(dir, entries[i]) in r && r[Target(dir, entries[i])] == entries[i].node
      {
        assert entries[i] == rest[i - 1];
      }
      assert Target(dir, e) in r && r[Target(dir, e)] == e.node by {
        CopyTargetsFresh(nodes, dir, entries);
        forall m | 0 <= m < |rest|
          ensures Target(dir, e) != Target(dir, rest[m])
        {
          assert rest[m] == entries[m + 1];
          assert Target(dir, e)[|dir|] != Target(dir, rest[m])[|dir|];
        }
        CopyElsewhereUnchanged(next, dir, rest);
      }
    }
  }

  lemma {:induction false} CopyKeepsWellFormedAll(nodes: Nodes, dir: Path, entries: seq<BundleEntry>)
    requires WellFormed(nodes)
    requires CopyEntries(nodes, dir, entries).Ok?
    ensures WellFormed(CopyEntries(nodes, dir, entries).value)
    decreases |entries|
  {
    if entries != [] {
      CopyKeepsWellFormed(nodes, dir, entries[0]);
      CopyKeepsWellFormedAll(nodes[dir + [entries[0].name] := entries[0].node], dir, entries[1..]);
    }
  }

  /** A copy loop that stops part way keeps the disk well-formed too. */
  lemma {:induction false} CopiedKeepsWellFormed(nodes: Nodes, dir: Path, entries: seq<BundleEntry>)
    requires WellFormed(nodes)
    ensures WellFormed(CopiedSoFar(nodes, dir, entries))
    decreases |entries|
  {
    var target := if entries == [] then dir else dir + [entries[0].name];
    if entries != [] && dir in nodes && nodes[dir].Directory? && target !in nodes {
      CopyKeepsWellFormed(nodes, dir, entries[0]);
      CopiedKeepsWellFormed(nodes[target := entries[0].node], dir, entries[1..]);
    }
  }

  /**
   * Without REPLACE_EXISTING the copy loop, finished or not, overwrites and
   * deletes nothing: every path keeps its node, and only targets are added.
   */
  lemma {:induction false} CopiedKeepsExisting(nodes: Nodes, dir: Path, entries: seq<BundleEntry>)
    ensures var r := CopiedSoFar(nodes, dir, entries);
      && (forall p :: p in nodes ==> p in r && r[p] == nodes[p])
      && (forall p :: p in r && p !in nodes ==> exists i :: 0 <= i < |entries| && p == Target(dir, entries[i]))
    decreases |entries|
  {
    if entries != [] {
      var target := dir + [entries[0].name];
      if dir in nodes && nodes[dir].Directory? && target !in nodes {
        var next := nodes[target := entries[0].node];
        CopiedKeepsExisting(next, dir, entries[1..]);
        var r := CopiedSoFar(nodes, dir, entries);
        assert r == CopiedSoFar(next, dir, entries[1..]);
        forall p | p in r && p !in nodes
          ensures exists i :: 0 <= i < |entries| && p == Target(dir, entries[i])
        {
          if p == target {
            assert p == Target(dir, entries[0]);
          } else {
            assert p in r && p !in next;
            var i :| 0 <= i < |entries[1..]| && p == Target(dir, entries[1..][i]);
            assert p == Target(dir, entries[i + 1]);
          }
        }
      }
    }
  }

  /** A copy loop that runs to the end leaves the disk `CopyEntries` gives. */
  lemma {:induction false} CopiedSoFarFinished(nodes: Nodes, dir: Path, entries: seq<BundleEntry>)
    requires CopyEntries(nodes, dir, entries).Ok?
    ensures CopiedSoFar(nodes, dir, entries) == CopyEntries(nodes, dir, entries).value
    decreases |entries|
  {
    if entries != [] {
      CopiedSoFarFinished(nodes[dir + [entries[0].name] := entries[0].node], dir, entries[1..]);
    }
  }

  /** `getOrExtract` keeps every file inside an existing directory. */
  lemma ExtractKeepsWellFormed(nodes: Nodes, cacheDir: Path, bundle: Bundle, md5: Bytes -> string)
    requires WellFormed(nodes)
    ensures WellFormed(Extract(nodes, cacheDir, bundle, md5).1)
  {
    var dir := WrapperDir(cacheDir);
    if bundle.Opened? && bundle.manifest.Attributes? && !UpToDate(nodes, cacheDir, bundle.manifest.wrapperHash, md5) {
      if dir in nodes {
        PurgeKeepsWellFormed(nodes, dir);
      } else if CreateDirectories(nodes, dir).Ok? {
        CreateKeepsWellFormed(nodes, dir);
      }
      if Prepare(nodes, dir).Ok? && bundle.wrapperEntries.Some? {
        if CopyEntries(Prepare(nodes, dir).value, dir, bundle.wrapperEntries.value).Ok? {
          CopyKeepsWellFormedAll(Prepare(nodes, dir).value, dir, bundle.wrapperEntries.value);
        } else {
          CopiedKeepsWellFormed(Prepare(nodes, dir).value, dir, bundle.wrapperEntries.value);
        }
      }
    }
  }

  /** Matching hashes: the call succeeds and the disk is left alone. */
  lemma ExtractSkipsWhenCurrent(nodes: Nodes, cacheDir: Path, bundle: Bundle, md5: Bytes -> string)
    requires bundle.Opened? && bundle.manifest.Attributes?
    requires UpToDate(nodes, cacheDir, bundle.manifest.wrapperHash, md5)
    ensures Extract(nodes, cacheDir, bundle, md5) == (Ok(cacheDir + ["wrapper"]), nodes)
  {
  }

  /** A copy loop fails only with the extraction error. */
  lemma {:induction false} CopyFailure(nodes: Nodes, dir: Path, entries: seq<BundleEntry>)
    ensures CopyEntries(nodes, dir, entries).Err? ==> CopyEntries(nodes, dir, entries).error == ExtractFailed
    decreases |entries|
  {
    if entries != [] {
      CopyFailure(nodes[dir + [entries[0].name] := entries[0].node], dir, entries[1..]);
    }
  }

  /**
   * The two failures before anything is touched: an unopenable jar and an
   * unreadable manifest, which alone yields the hash error. Both leave the disk as it was.
   */
  lemma ExtractEarlyFailures(nodes: Nodes, cacheDir: Path, bundle: Bundle, md5: Bytes -> string)
    ensures var (r, after) := Extract(nodes, cacheDir, bundle, md5);
      && (r == Err(HashUnreadable) <==> bundle.Opened? && bundle.manifest.UnreadableManifest?)
      && (bundle.Unopenable? ==> r == Err(ExtractFailed) && after == nodes)
      && (r == Err(HashUnreadable) ==> after == nodes)
      && (r.Ok? ==> r.value == cacheDir + ["wrapper"])
  {
    if bundle.Opened? && bundle.wrapperEntries.Some? && Prepare(nodes, WrapperDir(cacheDir)).Ok? {
      CopyFailure(Prepare(nodes, WrapperDir(cacheDir)).value, WrapperDir(cacheDir), bundle.wrapperEntries.value);
    }
  }

  /**
   * A successful refresh puts every entry of the jar's `/wrapper/` into the wrapper
   * directory, and outside that directory and its ancestors nothing changes.
   */
  lemma ExtractInstalls(nodes: Nodes, cacheDir: Path, bundle: Bundle, md5: Bytes -> string)
    requires bundle.Opened? && bundle.manifest.Attributes?
    requires !UpToDate(nodes, cacheDir, bundle.manifest.wrapperHash, md5)
    requires Extract(nodes, cacheDir, bundle, md5).0.Ok?
    ensures bundle.wrapperEntries.Some?
    ensures var after := Extract(nodes, cacheDir, bundle, md5).1;
      var dir := WrapperDir(cacheDir);
      var entries := bundle.wrapperEntries.value;
      && (forall i :: 0 <= i < |entries| ==> Target(dir, entries[i]) in after && after[Target(dir, entries[i])] == entries[i].node)
      && (forall p :: !IsPrefix(dir, p) && p !in Prefixes(dir) ==>
            (p in after <==> p in nodes) && (p in after ==> after[p] == nodes[p]))
  {
    var dir := WrapperDir(cacheDir);
    var entries := bundle.wrapperEntries.value;
    var prepared := Prepare(nodes, dir).value;
    var after := Extract(nodes, cacheDir, bundle, md5).1;
    CopyPlacesEntries(prepared, dir, entries);
    assert after == CopyEntries(prepared, dir, entries).value;
    forall p | !IsPrefix(dir, p) && p !in Prefixes(dir)
      ensures (p in after <==> p in nodes) && (p in after ==> after[p] == nodes[p])
    {
      assert forall i :: 0 <= i < |entries| ==> p != Target(dir, entries[i]);
    }
  }

  /** On a well-formed disk, after a refresh the only regular files in the wrapper directory are the jar's entries. */
  lemma ExtractLeavesOnlyEntries(nodes: Nodes, cacheDir: Path, bundle: Bundle, md5: Bytes -> string)
    requires WellFormed(nodes)
    requires bundle.Opened? && bundle.manifest.Attributes?
    requires !UpToDate(nodes, cacheDir, bundle.manifest.wrapperHash, md5)
    requires Extract(nodes, cacheDir, bundle, md5).0.Ok?
    ensures bundle.wrapperEntries.Some?
    ensures var after := Extract(nodes, cacheDir, bundle, md5).1;
      var dir := WrapperDir(cacheDir);
      var entries := bundle.wrapperEntries.value;
      forall p :: IsPrefix(dir, p) && p in after && after[p].RegularFile? ==>
        exists i :: 0 <= i < |entries| && p == Target(dir, entries[i])
  {
    var dir := WrapperDir(cacheDir);
    var entries := bundle.wrapperEntries.value;
    var prepared := Prepare(nodes, dir).value;
    var after := Extract(nodes, cacheDir, bundle, md5).1;
    CopyPlacesEntries(prepared, dir, entries);
    assert after == CopyEntries(prepared, dir, entries).value;
    PreparedIsEmpty(nodes, dir);
  }

  /** On a well-formed disk the prepared wrapper directory holds no regular file. */
  lemma PreparedIsEmpty(nodes: Nodes, dir: Path)
    requires WellFormed(nodes) && dir != []
    requires Prepare(nodes, dir).Ok?
    ensures forall p :: p in Prepare(nodes, dir).value && IsPrefix(dir, p) ==> Prepare(nodes, dir).value[p].Directory?
  {
    var prepared := Prepare(nodes, dir).value;
    if dir in nodes {
      assert prepared == Purge(nodes, dir);
    } else {
      assert prepared == nodes + map q | q in Prefixes(dir) :: Directory;
      NothingUnderAbsent(nodes, dir);
    }
  }

  /** On a well-formed disk nothing lies under a path that does not exist. */
  lemma NothingUnderAbsent(nodes: Nodes, dir: Path)
    requires WellFormed(nodes) && dir != [] && dir !in nodes
    ensures forall q :: q in nodes ==> !IsPrefix(dir, q)
  {
    forall q | q in nodes
      ensures !IsPrefix(dir, q)
    {
      assert q[..|q|] == q;
    }
  }

  /**
   * Extracting twice: once the jar's wrapper class, whose MD5 is the manifest's
   * hash, has been copied, the next call skips and changes nothing.
   */
  lemma ExtractIdempotent(nodes: Nodes, cacheDir: Path, bundle: Bundle, md5: Bytes -> string, k: nat)
    requires bundle.Opened? && bundle.manifest.Attributes? && bundle.wrapperEntries.Some?
    requires k < |bundle.wrapperEntries.value|
    requires bundle.wrapperEntries.value[k].name == WrapperFileName
    requires bundle.wrapperEntries.value[k].node.RegularFile?
    requires bundle.manifest.wrapperHash == Some(md5(bundle.wrapperEntries.value[k].node.content))
    requires Extract(nodes, cacheDir, bundle, md5).0.Ok?
    ensures var after := Extract(nodes, cacheDir, bundle, md5).1;
      Extract(after, cacheDir, bundle, md5) == (Ok(cacheDir + ["wrapper"]), after)
  {
    var after := Extract(nodes, cacheDir, bundle, md5).1;
    if !UpToDate(nodes, cacheDir, bundle.manifest.wrapperHash, md5) {
      ExtractInstalls(nodes, cacheDir, bundle, md5);
      assert Target(WrapperDir(cacheDir), bundle.wrapperEntries.value[k]) == WrapperFile(cacheDir);
    }
    assert UpToDate(after, cacheDir, bundle.manifest.wrapperHash, md5);
  }
}
