/**
 * The relauncher's persisted configuration: a record of seven nullable fields
 * with defaults, one setter per field, and the default-on-failure `read`.
 */
module Config {
  import opened Wrappers
  import opened JavaText

  /** The field values of a configuration; None stands for `null`. */
  datatype ConfigValues = ConfigValues(
    selectedVersion: Option<string>,
    latestVersion: Option<string>,
    javaPath: Option<string>,
    args: Option<string>,
    maxMemory: Option<string>,
    gcType: Option<string>,
    jvmFlags: Option<seq<string>>)

  /** The field initialisers: what a configuration that was never saved holds. */
  const Defaults: ConfigValues :=
    ConfigValues(None, None, None, Some(""), Some("4096M"), Some("G1GC"), Some([]))

  /** One member of a JSON object: left out, or written with a value (None for `null`). */
  datatype Entry<T> = Missing | Given(value: Option<T>)

  /** A parsed configuration document, member by member under its serialized name. */
  datatype ConfigDocument = ConfigDocument(
    selectedVersion: Entry<string>,
    latestVersion: Entry<string>,
    javaPath: Entry<string>,
    args: Entry<string>,
    maxMemory: Entry<string>,
    gcType: Entry<string>,
    jvmFlags: Entry<seq<string>>)

  /** What `read` finds at the configuration file's location. */
  datatype ConfigFile =
    | Absent                           // Files.notExists
    | Unopenable                       // Files.newBufferedReader throws an IOException
    | Malformed                        // Gson throws: JsonSyntaxException, or JsonIOException for a read or decoding failure
    | EmptyDocument                    // a document Gson turns into null
    | Document(document: ConfigDocument)

  /**
   * Gson builds the object with its no-argument constructor and then assigns
   * the members the document has: a missing member keeps its initialiser.
   */
  function Assign<T>(e: Entry<T>, initial: Option<T>): Option<T> {
    match e
    case Missing => initial
    case Given(v) => v
  }

  function Deserialize(doc: ConfigDocument): ConfigValues {
    ConfigValues(
      Assign(doc.selectedVersion, Defaults.selectedVersion),
      Assign(doc.latestVersion, Defaults.latestVersion),
      Assign(doc.javaPath, Defaults.javaPath),
      Assign(doc.args, Defaults.args),
      Assign(doc.maxMemory, Defaults.maxMemory),
      Assign(doc.gcType, Defaults.gcType),
      Assign(doc.jvmFlags, Defaults.jvmFlags))
  }

  /** Gson's default serializer leaves null fields out of the document. */
  function Written<T>(v: Option<T>): Entry<T> {
    if v.Some? then Given(v) else Missing
  }

  /** The document `save` writes for the given field values. */
  function Serialize(v: ConfigValues): ConfigDocument {
    ConfigDocument(Written(v.selectedVersion), Written(v.latestVersion), Written(v.javaPath),
                   Written(v.args), Written(v.maxMemory), Written(v.gcType), Written(v.jvmFlags))
  }

  /** A document without members reads as the defaults. */
  lemma EmptyDocumentIsDefaults()
    ensures Deserialize(ConfigDocument(Missing, Missing, Missing, Missing, Missing, Missing, Missing)) == Defaults
  {
  }

  /**
   * Reading back what was saved gives every non-null field as it was, and a
   * null field as its initialiser; so the round trip is exact if and only if
   * none of the four fields with a non-null initialiser was null.
   */
  lemma SaveThenRead(v: ConfigValues)
    ensures var r := Deserialize(Serialize(v));
      && r.selectedVersion == v.selectedVersion
      && r.latestVersion == v.latestVersion
      && r.javaPath == v.javaPath
      && r.args == (if v.args.Some? then v.args else Some(""))
      && r.maxMemory == (if v.maxMemory.Some? then v.maxMemory else Some("4096M"))
      && r.gcType == (if v.gcType.Some? then v.gcType else Some("G1GC"))
      && r.jvmFlags == (if v.jvmFlags.Some? then v.jvmFlags else Some([]))
    ensures Deserialize(Serialize(v)) == v <==>
      v.args.Some? && v.maxMemory.Some? && v.gcType.Some? && v.jvmFlags.Some?
  {
  }

  /** The two backslashes that `setJavaExecutablePath` turns into a slash. */
  const DoubleBackslash: string := "\\\\"

  /**
   * `path.replace("\\\\", "/")`: each pair of backslashes, found left to right
   * without overlapping, becomes one forward slash.
   */
  function NormalizeSlashes(path: string): string {
    Replace(path, DoubleBackslash, "/")
  }

  /** A normalised path starts with a backslash only where the input starts with a lone one. */
  lemma {:induction false} NormalizeHead(path: string)
    ensures var r := NormalizeSlashes(path);
      r != [] && r[0] == '\\' ==> path != [] && path[0] == '\\' && !StartsWith(path, DoubleBackslash)
  {
  }

  /** No two neighbouring backslashes survive normalisation: lone ones stay, pairs go. */
  lemma {:induction false} NormalizeNoDoubleBackslash(path: string)
    ensures !Contains(NormalizeSlashes(path), DoubleBackslash)
    decreases |path|
  {
    var r := NormalizeSlashes(path);
    if path != [] {
      if StartsWith(path, DoubleBackslash) {
        var rest := path[2..];
        NormalizeNoDoubleBackslash(rest);
        assert r == "/" + NormalizeSlashes(rest);
        assert r[1..] == NormalizeSlashes(rest);
        assert !StartsWith(r, DoubleBackslash) by { assert r[0] == '/'; }
      } else {
        var rest := path[1..];
        NormalizeNoDoubleBackslash(rest);
        NormalizeHead(rest);
        assert r == [path[0]] + NormalizeSlashes(rest);
        assert r[1..] == NormalizeSlashes(rest);
      }
    }
  }

  /** Normalising an already normalised path changes nothing. */
  lemma NormalizeIdempotent(path: string)
    ensures NormalizeSlashes(NormalizeSlashes(path)) == NormalizeSlashes(path)
  {
    NormalizeNoDoubleBackslash(path);
    ReplaceAbsent(NormalizeSlashes(path), DoubleBackslash, "/");
  }

  /** A character other than a backslash is copied as it is. */
  lemma NormalizeOther(c: char, rest: string)
    requires c != '\\'
    ensures NormalizeSlashes([c] + rest) == [c] + NormalizeSlashes(rest)
  {
    assert ([c] + rest)[1..] == rest;
    assert !StartsWith([c] + rest, DoubleBackslash) by {
      if |[c] + rest| >= 2 { assert ([c] + rest)[..2][0] == c; }
    }
  }

  /** A pair of backslashes becomes one slash. */
  lemma NormalizePair(rest: string)
    ensures NormalizeSlashes(DoubleBackslash + rest) == "/" + NormalizeSlashes(rest)
  {
    assert (DoubleBackslash + rest)[2..] == rest;
    assert (DoubleBackslash + rest)[..2] == DoubleBackslash;
  }

  /** A backslash that is not followed by another one is copied as it is. */
  lemma NormalizeLone(rest: string)
    requires rest == [] || rest[0] != '\\'
    ensures NormalizeSlashes("\\" + rest) == "\\" + NormalizeSlashes(rest)
  {
    assert ("\\" + rest)[1..] == rest;
    assert !StartsWith("\\" + rest, DoubleBackslash) by {
      if |"\\" + rest| >= 2 { assert ("\\" + rest)[..2][1] == rest[0]; }
    }
  }

  /**
   * A Windows path written with doubled backslashes after its drive letter,
   * such as `C:\\jdk`, comes out with a forward slash, as `C:/jdk`.
   */
  lemma NormalizeDoubledPath(drive: char, name: string)
    requires drive != '\\' && '\\' !in name
    ensures NormalizeSlashes([drive, ':'] + DoubleBackslash + name) == [drive, ':', '/'] + name
  {
    assert NormalizeSlashes(name) == name by {
      MissingCharacter(name, DoubleBackslash, '\\');
      ReplaceAbsent(name, DoubleBackslash, "/");
    }
    var t := DoubleBackslash + name;
    assert NormalizeSlashes(t) == "/" + name by {
      NormalizePair(name);
    }
    var u := ":" + t;
    assert NormalizeSlashes(u) == ":/" + name by {
      NormalizeOther(':', t);
    }
    assert NormalizeSlashes([drive] + u) == [drive] + ":/" + name by {
      NormalizeOther(drive, u);
    }
    assert [drive, ':'] + DoubleBackslash + name == [drive] + u;
    assert [drive] + ":/" + name == [drive, ':', '/'] + name;
  }

  /** Lone backslashes are kept; of three in a row, the first two become a slash. */
  lemma NormalizeLoneExample()
    ensures NormalizeSlashes("a\\\\\\b") == "a/\\b"
  {
    NormalizeOther('b', "");
    NormalizeLone("b");
    NormalizePair("\\b");
    NormalizeOther('a', DoubleBackslash + "\\b");
    assert "a\\\\\\b" == [ 'a' ] + (DoubleBackslash + "\\b");
  }

  /** The configuration object; its fields are overwritten by the setters. */
  class RelauncherConfiguration {
    var cleanroomVersion: Option<string>
    var latestCleanroomVersion: Option<string>
    var javaExecutablePath: Option<string>
    var javaArguments: Option<string>
    var maxMemory: Option<string>
    var gcType: Option<string>
    var jvmFlags: Option<seq<string>>

    /** All fields at once. */
    function Values(): ConfigValues
      reads this
    {
      ConfigValues(cleanroomVersion, latestCleanroomVersion, javaExecutablePath,
                   javaArguments, maxMemory, gcType, jvmFlags)
    }

    /** `new RelauncherConfiguration()`: every field at its initialiser. */
    constructor ()
      ensures Values() == Defaults
    {
      cleanroomVersion := None;
      latestCleanroomVersion := None;
      javaExecutablePath := None;
      javaArguments := Some("");
      maxMemory := Some("4096M");
      gcType := Some("G1GC");
      jvmFlags := Some([]);
    }

    /** The object Gson builds from a document. */
    constructor FromValues(v: ConfigValues)
      ensures Values() == v
    {
      cleanroomVersion := v.selectedVersion;
      latestCleanroomVersion := v.latestVersion;
      javaExecutablePath := v.javaPath;
      javaArguments := v.args;
      maxMemory := v.maxMemory;
      gcType := v.gcType;
      jvmFlags := v.jvmFlags;
    }

    method SetCleanroomVersion(version: Option<string>)
      modifies this
      ensures Values() == old(Values()).(selectedVersion := version)
    {
      cleanroomVersion := version;
    }

    method SetLatestCleanroomVersion(version: Option<string>)
      modifies this
      ensures Values() == old(Values()).(latestVersion := version)
    {
      latestCleanroomVersion := version;
    }

    /** Stores the path with its doubled backslashes turned into slashes; a null path throws, so the type excludes it. */
    method SetJavaExecutablePath(path: string)
      modifies this
      ensures Values() == old(Values()).(javaPath := Some(NormalizeSlashes(path)))
      ensures !Contains(javaExecutablePath.value, DoubleBackslash)
    {
      javaExecutablePath := Some(NormalizeSlashes(path));
      NormalizeNoDoubleBackslash(path);
    }

    method SetJavaArguments(args: Option<string>)
      modifies this
      ensures Values() == old(Values()).(args := args)
    {
      javaArguments := args;
    }

    method SetMaxMemory(memory: Option<string>)
      modifies this
      ensures Values() == old(Values()).(maxMemory := memory)
    {
      maxMemory := memory;
    }

    method SetGcType(gc: Option<string>)
      modifies this
      ensures Values() == old(Values()).(gcType := gc)
    {
      gcType := gc;
    }

    method SetJvmFlags(flags: Option<seq<string>>)
      modifies this
      ensures Values() == old(Values()).(jvmFlags := flags)
    {
      jvmFlags := flags;
    }
  }

  /**
   * `RelauncherConfiguration.read()`: a missing file, or one that cannot be
   * opened, gives the defaults; a document gives its members over the
   * defaults; an empty document gives null. Everything Gson throws is
   * unchecked and escapes the `catch (IOException)`: a malformed document,
   * and equally a read or decoding failure after the file was opened (a
   * directory, bytes that are not UTF-8). Both are `Malformed`, reported as
   * `thrown`.
   */
  method Read(file: ConfigFile) returns (config: RelauncherConfiguration?, thrown: bool)
    ensures (file.Absent? || file.Unopenable?) ==> !thrown && config != null && fresh(config) && config.Values() == Defaults
    ensures file.Document? ==> !thrown && config != null && fresh(config) && config.Values() == Deserialize(file.document)
    ensures file.EmptyDocument? ==> !thrown && config == null
    ensures file.Malformed? ==> thrown && config == null
  {
    if file.Absent? || file.Unopenable? {
      config := new RelauncherConfiguration();
      thrown := false;
    } else if file.Document? {
      config := new RelauncherConfiguration.FromValues(Deserialize(file.document));
      thrown := false;
    } else {
      config := null;
      thrown := file.Malformed?;
    }
  }
}
