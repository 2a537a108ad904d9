/**
 * The logic of the relauncher's settings window: reading the memory text box
 * into the slider, rewriting the free-form JVM argument field from the
 * structured choices, pre-selecting the remembered release, and the checks the
 * relaunch button makes before the window may close.
 */
module Gui {
  import opened Wrappers
  import opened JavaText
  import opened Catalog

  // ---------------------------------------------------------------------
  // Memory text box -> slider
  // ---------------------------------------------------------------------

  /** `text.toUpperCase().replace("M", "").replace("G", "")`: the part handed to `parseInt`. */
  function SliderDigits(text: string): string {
    Replace(Replace(AsciiUpper(text), "M", ""), "G", "")
  }

  /** The text asks for gigabytes when its upper-case form ends with "G". */
  predicate InGigabytes(text: string) {
    EndsWith(AsciiUpper(text), "G")
  }

  /**
   * The megabyte count the text box yields as the code computes it: the
   * parsed `int`, times 1024 for gigabytes, in 32-bit arithmetic that wraps
   * around. None stands for the NumberFormatException that is ignored.
   */
  function MegabytesAsWritten(text: string): Option<int> {
    match ParseInt(SliderDigits(text))
    case None => None
    case Some(v) => Some(if InGigabytes(text) then WrapInt(v * 1024) else v)
  }

  /**
   * The megabyte count the text denotes: the parsed number, times 1024 for
   * gigabytes, without wrap-around, so that a count too large for the slider
   * stays too large.
   */
  function Megabytes(text: string): Option<int> {
    match ParseInt(SliderDigits(text))
    case None => None
    case Some(v) => Some(if InGigabytes(text) then v * 1024 else v)
  }

  /** Upper-casing leaves digits alone. */
  lemma UpperDigits(d: string, unit: string)
    requires AllDigits(d)
    ensures AsciiUpper(d + unit) == d + AsciiUpper(unit)
  {
    var r := AsciiUpper(d + unit);
    forall i | 0 <= i < |d| ensures r[i] == d[i] {
      assert (d + unit)[i] == d[i] && IsDigit(d[i]);
    }
    forall i | |d| <= i < |r| ensures r[i] == AsciiUpper(unit)[i - |d|] {
      assert (d + unit)[i] == unit[i - |d|];
    }
  }

  /** Digits hold neither unit letter. */
  lemma NoUnitLetters(d: string)
    requires AllDigits(d)
    ensures 'M' !in d && 'G' !in d
  {
    forall i | 0 <= i < |d| ensures d[i] != 'M' && d[i] != 'G' {
      assert IsDigit(d[i]);
    }
  }

  /** Stripping "M" and "G" from digits followed by an upper-case unit leaves the digits. */
  lemma StripUnit(d: string, u: string)
    requires AllDigits(d)
    requires u == "" || u == "M" || u == "G"
    ensures Replace(Replace(d + u, "M", ""), "G", "") == d
  {
    NoUnitLetters(d);
    MissingCharacter(d, "M", 'M');
    MissingCharacter(d, "G", 'G');
    if u == "G" {
      MissingCharacter(d + u, "M", 'M');
      ReplaceAbsent(d + u, "M", "");
      ReplaceAfter(d, u, 'G', "");
      assert Replace(u, "G", "") == "";
      assert d + [] == d;
    } else if u == "M" {
      ReplaceAfter(d, u, 'M', "");
      assert Replace(u, "M", "") == "";
      assert d + [] == d;
      ReplaceAbsent(d, "G", "");
    } else {
      assert d + u == d;
      ReplaceAbsent(d, "M", "");
      ReplaceAbsent(d, "G", "");
    }
  }

  /** A number followed by a unit letter or none is read as that number, and as gigabytes just for "G" or "g". */
  lemma DigitsWithUnit(d: string, unit: string)
    requires d != [] && AllDigits(d)
    requires unit == "" || unit == "M" || unit == "m" || unit == "G" || unit == "g"
    ensures SliderDigits(d + unit) == d
    ensures InGigabytes(d + unit) <==> unit == "G" || unit == "g"
  {
    var u := AsciiUpper(unit);
    UpperDigits(d, unit);
    assert u == "" || u == "M" || u == "G" by {
      assert unit != [] ==> u[0] == UpperChar(unit[0]);
    }
    StripUnit(d, u);
    assert InGigabytes(d + unit) <==> u == "G" by {
      var w := d + u;
      if u == [] {
        assert w == d && IsDigit(d[|d| - 1]);
      } else {
        assert w[|w| - 1] == u[0];
      }
    }
  }

  /** A number typed plainly or with "M"/"m" is that many megabytes. */
  lemma MegabytesRead(n: nat, unit: string)
    requires n <= MaxInt
    requires unit == "" || unit == "M" || unit == "m"
    ensures Megabytes(NatToString(n) + unit) == Some(n)
    ensures MegabytesAsWritten(NatToString(n) + unit) == Some(n)
  {
    DigitsWithUnit(NatToString(n), unit);
    ParsePrinted(n);
  }

  /**
   * A number typed with "G"/"g" denotes 1024 times that many megabytes, however
   * large; the code's `int` arithmetic agrees as long as the product fits an `int`.
   */
  lemma GigabytesRead(n: nat, unit: string)
    requires n <= MaxInt
    requires unit == "G" || unit == "g"
    ensures Megabytes(NatToString(n) + unit) == Some(n * 1024)
    ensures n * 1024 <= MaxInt ==> MegabytesAsWritten(NatToString(n) + unit) == Some(n * 1024)
  {
    DigitsWithUnit(NatToString(n), unit);
    ParsePrinted(n);
  }

  /**
   * With 32-bit multiplication, 4194308 gigabytes wrap around to 4096
   * megabytes, a value inside the slider's range, which the slider then takes.
   */
  lemma SliderWrapsAround()
    ensures MegabytesAsWritten(NatToString(4194308) + "G") == Some(4096)
    ensures Megabytes(NatToString(4194308) + "G") == Some(4294971392)
  {
    DigitsWithUnit(NatToString(4194308), "G");
    ParsePrinted(4194308);
    assert WrapInt(4194308 * 1024) == 4096;
  }

  /** The slider: its range and its current value, in megabytes. */
  class Slider {
    var minimum: int
    var maximum: int
    var value: int

    /** `new JSlider(minimum, maximum, value)` */
    constructor (minimum: int, maximum: int, value: int)
      ensures this.minimum == minimum && this.maximum == maximum && this.value == value
    {
      this.minimum := minimum;
      this.maximum := maximum;
      this.value := value;
    }
  }

  // ---------------------------------------------------------------------
  // Argument field rewriting
  // ---------------------------------------------------------------------

  const CompactHeadersFlag: string := "UseCompactObjectHeaders"
  const CompactHeadersArg: string := "-XX:+UseCompactObjectHeaders"

  /**
   * The maximum-memory step: a non-empty choice replaces every `-Xmx\S+`
   * token when the text mentions "-Xmx" at all, and is appended otherwise.
   */
  function WithHeap(text: string, maxMemory: Option<string>): string {
    if maxMemory.Some? && maxMemory.value != [] then
      var memArg := HeapPrefix + maxMemory.value;
      if Contains(text, HeapPrefix) then ReplaceAll(text, HeapOption, memArg)
      else Trim(text) + " " + memArg
    else text
  }

  /**
   * The garbage-collector step as the code has it: the looser test
   * `.*-XX:\+Use.*GC.*` decides between replacing `-XX:\+Use\w+GC` tokens and
   * appending.
   */
  function WithGcAsWritten(text: string, gcType: Option<string>): string {
    if gcType.Some? && gcType.value != [] then
      var gcArg := UsePrefix + gcType.value;
      if MatchesGcHint(text) then ReplaceAll(text, GcOption, gcArg)
      else Trim(text) + " " + gcArg
    else text
  }

  /**
   * The garbage-collector step with the test that matches the replacement:
   * replace the `-XX:\+Use\w+GC` tokens when there is one, append otherwise.
   */
  function WithGc(text: string, gcType: Option<string>): string {
    if gcType.Some? && gcType.value != [] then
      var gcArg := UsePrefix + gcType.value;
      if HasMatch(text, GcOption) then ReplaceAll(text, GcOption, gcArg)
      else Trim(text) + " " + gcArg
    else text
  }

  /** The compact-object-headers step: appended when chosen and absent, every occurrence removed when not chosen. */
  function WithCompactHeaders(text: string, jvmFlags: Option<seq<string>>): string {
    if jvmFlags.Some? && CompactHeadersFlag in jvmFlags.value then
      if !Contains(text, CompactHeadersArg) then Trim(text) + " " + CompactHeadersArg else text
    else if Contains(text, CompactHeadersArg) then Replace(text, CompactHeadersArg, "")
    else text
  }

  /**
   * The whole rewrite of the argument field as the code performs it, with the
   * looser collector test, ending in whitespace normalisation.
   */
  function RewriteArguments(text: string, maxMemory: Option<string>, gcType: Option<string>,
                            jvmFlags: Option<seq<string>>): string
  {
    NormalizeSpaces(WithCompactHeaders(WithGcAsWritten(WithHeap(text, maxMemory), gcType), jvmFlags))
  }

  /** An argument appended after a trimmed text ends up in the result. */
  lemma AppendedContains(text: string, arg: string)
    ensures Contains(Trim(text) + " " + arg, arg)
  {
    ContainsSelf(arg);
    SuffixContains(Trim(text) + " " + arg, arg, arg);
  }

  /**
   * The heap step puts "-Xmx" + the choice into the text, except when the text
   * mentions "-Xmx" without any non-space character after it, which is then
   * left as it was.
   */
  lemma HeapArgumentPlaced(text: string, memory: string)
    requires memory != []
    ensures !Contains(text, HeapPrefix) || HasMatch(text, HeapOption) ==>
      Contains(WithHeap(text, Some(memory)), HeapPrefix + memory)
    ensures Contains(text, HeapPrefix) && !HasMatch(text, HeapOption) ==>
      WithHeap(text, Some(memory)) == text
  {
    var memArg := HeapPrefix + memory;
    if Contains(text, HeapPrefix) {
      if HasMatch(text, HeapOption) {
        ReplaceAllInserts(text, HeapOption, memArg);
      } else {
        ReplaceAllNoMatch(text, HeapOption, memArg);
      }
    } else {
      AppendedContains(text, memArg);
    }
  }

  /** A bare "-Xmx" at the end of the field stays as it is. */
  lemma BareHeapPrefixKept(memory: string)
    requires memory != []
    ensures WithHeap("-Xmx", Some(memory)) == "-Xmx"
  {
    ContainsSelf(HeapPrefix);
    assert MatchLength("-Xmx", HeapOption) == 0 by { assert "-Xmx"[4..] == []; }
    assert !HasMatch("-Xmx"[1..], HeapOption) by {
      assert !HasMatch("-Xmx"[1..][1..], HeapOption) by {
        assert !HasMatch("-Xmx"[1..][1..][1..], HeapOption);
      }
    }
    HeapArgumentPlaced("-Xmx", memory);
  }

  /** The corrected garbage-collector step always leaves the chosen collector's option in the text. */
  lemma GcArgumentPlaced(text: string, gc: string)
    requires gc != []
    ensures Contains(WithGc(text, Some(gc)), UsePrefix + gc)
  {
    var gcArg := UsePrefix + gc;
    if HasMatch(text, GcOption) {
      ReplaceAllInserts(text, GcOption, gcArg);
    } else {
      AppendedContains(text, gcArg);
    }
  }

  /**
   * The code's step and the corrected one differ only where the looser
   * `matches` test and the presence of a replaceable token disagree; where the
   * test hits a text without a token, the code leaves the text as it was.
   */
  lemma GcStepsAgree(text: string, gcType: Option<string>)
    ensures WithGcAsWritten(text, gcType) != WithGc(text, gcType) ==>
      (MatchesGcHint(text) <==> !HasMatch(text, GcOption))
    ensures MatchesGcHint(text) && !HasMatch(text, GcOption) ==> WithGcAsWritten(text, gcType) == text
  {
    if MatchesGcHint(text) && !HasMatch(text, GcOption) && gcType.Some? && gcType.value != [] {
      ReplaceAllNoMatch(text, GcOption, UsePrefix + gcType.value);
    }
  }

  /** Without a '-', no `-XX:\+Use\w+GC` token can start anywhere. */
  lemma {:induction false} NoGcTokenWithoutDash(s: string)
    requires '-' !in s
    ensures !HasMatch(s, GcOption)
    decreases |s|
  {
    if s != [] {
      assert !StartsWith(s, UsePrefix) by { assert s[0] != '-'; }
      NoGcTokenWithoutDash(s[1..]);
    }
  }

  /** Characters before the first '-' cannot start a token. */
  lemma {:induction false} GcTokenSkip(a: string, b: string)
    requires '-' !in a
    ensures HasMatch(a + b, GcOption) <==> HasMatch(b, GcOption)
    decreases |a|
  {
    if a != [] {
      assert (a + b)[1..] == a[1..] + b;
      assert !StartsWith(a + b, UsePrefix) by { assert (a + b)[0] == a[0] != '-'; }
      GcTokenSkip(a[1..], b);
    } else {
      assert a + b == b;
    }
  }

  /** Two options a field may hold: a `-XX:+Use…` switch that is no collector, and a collector tuning option. */
  const NumaOption: string := "-XX:+UseNUMA"
  const PauseOption: string := "-XX:MaxGCPauseMillis=200"

  /** A field holding other `-XX:+Use…` and `…GC…` options, but no collector option. */
  const NoCollectorArgs: string := NumaOption + " " + PauseOption

  /** The longest run of class `k` stops where the class does. */
  lemma {:induction false} RunStops(a: string, b: string, k: CharClass)
    requires forall i :: 0 <= i < |a| ==> InClass(a[i], k)
    requires b != [] && !InClass(b[0], k)
    ensures Run(a + b, k) == |a|
    decreases |a|
  {
    if a == [] {
      assert a + b == b;
    } else {
      assert (a + b)[1..] == a[1..] + b;
      RunStops(a[1..], b, k);
    }
  }

  /** The field is one line. */
  lemma NoCollectorArgsOneLine()
    ensures forall i :: 0 <= i < |NoCollectorArgs| ==> !IsLineTerminator(NoCollectorArgs[i])
  {
    var s := NoCollectorArgs;
    forall i | 0 <= i < |s| ensures !IsLineTerminator(s[i]) {
      if i < |NumaOption| {
        assert s[i] == NumaOption[i];
      } else if i == |NumaOption| {
        assert s[i] == ' ';
      } else {
        assert s[i] == PauseOption[i - |NumaOption| - 1];
      }
    }
  }

  /** The looser test accepts the field: "-XX:+Use" at its start and "GC" further on. */
  lemma NoCollectorArgsHint()
    ensures MatchesGcHint(NoCollectorArgs)
  {
    NoCollectorArgsOneLine();
    NoCollectorArgsUseThenGc();
  }

  lemma NoCollectorArgsUseThenGc()
    ensures UseThenGc(NoCollectorArgs)
  {
    var s := NoCollectorArgs;
    assert StartsWith(s, UsePrefix) by {
      assert s[..8] == NumaOption[..8];
    }
    assert s[8..] == "NUMA " + PauseOption;
    assert Contains(PauseOption, "GC") by {
      assert OccursAt(PauseOption, "GC", 7);
      ContainsIffOccurs(PauseOption, "GC");
    }
    assert EndsWith(s[8..], PauseOption);
    SuffixContains(s[8..], PauseOption, "GC");
  }

  /** The option at the front, `-XX:+UseNUMA`, has no "GC" in its word. */
  lemma NoCollectorArgsFront()
    ensures MatchLength(NoCollectorArgs, GcOption) == 0
  {
    var s := NoCollectorArgs;
    assert s[..8] == UsePrefix;
    var t := s[8..];
    assert t == "NUMA" + (" " + PauseOption);
    RunStops("NUMA", " " + PauseOption, Word);
    assert t[1] == 'U' && t[2] == 'M' && t[3] == 'A' && t[4] == ' ';
    assert GreedyGcEnd(t, 4) == 0;
  }

  /** The collector tuning option starts no token either: after its '-' there is none. */
  lemma PauseOptionNoToken()
    ensures !HasMatch(PauseOption, GcOption)
  {
    var tail := "XX:MaxGCPauseMillis=200";
    assert PauseOption == "-" + tail;
    assert '-' !in tail;
    DashTailNoToken(tail);
  }

  /** An option `-XX:` followed by no '+' and no further '-' starts no token. */
  lemma DashTailNoToken(tail: string)
    requires '-' !in tail && |tail| >= 4 && tail[3] != '+'
    ensures !HasMatch("-" + tail, GcOption)
  {
    var p := "-" + tail;
    assert p[1..] == tail;
    assert !StartsWith(p, UsePrefix) by {
      assert p[4] == tail[3];
    }
    DashOnlyAtFront(p);
  }

  /** A text whose only '-' is its first character holds a token only if it starts with one. */
  lemma DashOnlyAtFront(p: string)
    requires p != [] && !StartsWith(p, UsePrefix) && '-' !in p[1..]
    ensures !HasMatch(p, GcOption)
  {
    NoGcTokenWithoutDash(p[1..]);
  }

  /** No `-XX:\+Use\w+GC` token occurs in the field. */
  lemma NoCollectorArgsNoToken()
    ensures !HasMatch(NoCollectorArgs, GcOption)
  {
    var s := NoCollectorArgs;
    var middle := "XX:+UseNUMA ";
    assert s[1..] == middle + PauseOption;
    assert '-' !in middle;
    assert MatchLength(s, GcOption) == 0 by {
      NoCollectorArgsFront();
    }
    assert !HasMatch(PauseOption, GcOption) by {
      PauseOptionNoToken();
    }
    FrontThenNoToken(s, middle, PauseOption);
  }

  /** A text with no token at its front and no '-' until `rest` holds a token only if `rest` does. */
  lemma FrontThenNoToken(s: string, middle: string, rest: string)
    requires s != [] && s[1..] == middle + rest && '-' !in middle
    requires MatchLength(s, GcOption) == 0 && !HasMatch(rest, GcOption)
    ensures !HasMatch(s, GcOption)
  {
    GcTokenSkip(middle, rest);
  }

  /**
   * The looser test accepts this field, there is no token to replace, and so
   * the chosen G1 collector is never added to it; the corrected step adds it.
   */
  lemma GcChoiceDropped()
    ensures MatchesGcHint(NoCollectorArgs) && !HasMatch(NoCollectorArgs, GcOption)
    ensures WithGcAsWritten(NoCollectorArgs, Some("G1GC")) == NoCollectorArgs
    ensures !Contains(WithGcAsWritten(NoCollectorArgs, Some("G1GC")), "-XX:+UseG1GC")
    ensures Contains(WithGc(NoCollectorArgs, Some("G1GC")), "-XX:+UseG1GC")
  {
    var s, arg := NoCollectorArgs, "-XX:+UseG1GC";
    assert MatchesGcHint(s) && !HasMatch(s, GcOption) by {
      NoCollectorArgsHint();
      NoCollectorArgsNoToken();
    }
    var gc := "G1GC";
    assert UsePrefix + gc == arg;
    assert !Contains(s, arg) by {
      assert '1' !in s;
      MissingCharacter(s, arg, '1');
    }
    assert WithGcAsWritten(s, Some(gc)) == s && Contains(WithGc(s, Some(gc)), UsePrefix + gc) by {
      HintWithoutToken(s, gc);
    }
  }

  /**
   * Whenever the looser test accepts a field that holds no token, the step as
   * written leaves the field alone, while the corrected step adds the choice.
   */
  lemma HintWithoutToken(s: string, gc: string)
    requires MatchesGcHint(s) && !HasMatch(s, GcOption) && gc != []
    ensures WithGcAsWritten(s, Some(gc)) == s
    ensures Contains(WithGc(s, Some(gc)), UsePrefix + gc)
  {
    GcStepsAgree(s, Some(gc));
    GcArgumentPlaced(s, gc);
  }

  /** The compact-headers step leaves the option in the text when it is chosen. */
  lemma CompactHeadersPlaced(text: string, flags: seq<string>)
    requires CompactHeadersFlag in flags
    ensures Contains(WithCompactHeaders(text, Some(flags)), CompactHeadersArg)
  {
    if !Contains(text, CompactHeadersArg) {
      AppendedContains(text, CompactHeadersArg);
    }
  }

  /**
   * Without the flag the step deletes the option: the text changes exactly
   * when it held the option, and it never grows.
   */
  lemma CompactHeadersRemoved(text: string, jvmFlags: Option<seq<string>>)
    requires jvmFlags.None? || CompactHeadersFlag !in jvmFlags.value
    ensures |WithCompactHeaders(text, jvmFlags)| <= |text|
    ensures WithCompactHeaders(text, jvmFlags) == text <==> !Contains(text, CompactHeadersArg)
  {
    RemoveShortens(text, CompactHeadersArg);
  }

  /**
   * After the rewrite the field has no blank at either end and no run of
   * whitespace, and it holds the compact-headers option whenever that is chosen.
   */
  lemma RewriteResult(text: string, maxMemory: Option<string>, gcType: Option<string>, jvmFlags: Option<seq<string>>)
    ensures var r := RewriteArguments(text, maxMemory, gcType, jvmFlags);
      && (r == [] || (!IsBlank(r[0]) && !IsBlank(r[|r| - 1])))
      && NoSpaceRun(r)
    ensures jvmFlags.Some? && CompactHeadersFlag in jvmFlags.value ==>
      Contains(RewriteArguments(text, maxMemory, gcType, jvmFlags), CompactHeadersArg)
  {
    var g := WithGcAsWritten(WithHeap(text, maxMemory), gcType);
    var t := WithCompactHeaders(g, jvmFlags);
    assert RewriteArguments(text, maxMemory, gcType, jvmFlags) == NormalizeSpaces(t);
    NormalizedForm(t);
    if jvmFlags.Some? && CompactHeadersFlag in jvmFlags.value {
      CompactHeadersPlaced(g, jvmFlags.value);
      CompactArgShape();
      NormalizeKeeps(t, CompactHeadersArg);
    }
  }

  /** The compact-headers option has no whitespace and no blank at its ends. */
  lemma CompactArgShape()
    ensures forall i :: 0 <= i < |CompactHeadersArg| ==> !IsSpace(CompactHeadersArg[i])
    ensures !IsBlank(CompactHeadersArg[0]) && !IsBlank(CompactHeadersArg[|CompactHeadersArg| - 1])
  {
  }

  // ---------------------------------------------------------------------
  // Pre-selecting the remembered release
  // ---------------------------------------------------------------------

  /**
   * The index the release box starts on: the first release whose tag name is
   * the remembered release's, or -1 (leave the box as it is) when nothing is
   * remembered or no release has that tag.
   */
  method PreselectIndex(releases: seq<Release>, selected: Option<Release>) returns (index: int)
    ensures selected.None? ==> index == -1
    ensures selected.Some? ==>
      (index == -1 <==> forall i :: 0 <= i < |releases| ==> releases[i].tagName != selected.value.tagName)
    ensures index != -1 ==>
      && 0 <= index < |releases|
      && releases[index].tagName == selected.value.tagName
      && forall j :: 0 <= j < index ==> releases[j].tagName != selected.value.tagName
  {
    index := -1;
    if selected.Some? {
      var i := 0;
      while i < |releases|
        invariant 0 <= i <= |releases|
        invariant forall j :: 0 <= j < i ==> releases[j].tagName != selected.value.tagName
      {
        if releases[i].tagName == selected.value.tagName {
          index := i;
          break;
        }
        i := i + 1;
      }
    }
  }

  // ---------------------------------------------------------------------
  // The relaunch button
  // ---------------------------------------------------------------------

  /** What `JavaUtils.parseInstall` makes of a path: an installation of some major version, or an IOException. */
  datatype JavaProbe = Installed(major: int) | ProbeFailed(message: string)

  /** The error dialogs the relaunch button can show. */
  datatype Dialog =
    | ReleaseNotSelected
    | JavaNotSelected
    | JavaTestFailed(message: string)
    | OldJavaVersion(major: int)

  /** The minimum major Java version the loader runs on. */
  const MinimumJavaMajor: int := 21

  /**
   * `testJavaAndReturn`: no dialog (null) exactly for an installation of Java
   * 21 or newer; otherwise the dialog that says why not.
   */
  function TestJava(probe: JavaProbe): (dialog: Option<Dialog>)
    ensures dialog.None? <==> probe.Installed? && probe.major >= MinimumJavaMajor
    ensures dialog.Some? && probe.Installed? ==> dialog.value == OldJavaVersion(probe.major)
    ensures probe.ProbeFailed? ==> dialog == Some(JavaTestFailed(probe.message))
  {
    match probe
    case ProbeFailed(message) => Some(JavaTestFailed(message))
    case Installed(major) => if major < MinimumJavaMajor then Some(OldJavaVersion(major)) else None
  }

  /**
   * One press of the relaunch button: the first failing check names the
   * dialog; None means the window is disposed. Java is only probed once a
   * release and a path are both chosen.
   */
  function RelaunchCheck(selected: Option<Release>, javaPath: Option<string>,
                         parseInstall: string -> JavaProbe): (dialog: Option<Dialog>)
    ensures dialog.None? <==>
      selected.Some? && javaPath.Some? &&
      parseInstall(javaPath.value).Installed? && parseInstall(javaPath.value).major >= MinimumJavaMajor
    ensures selected.None? ==> dialog == Some(ReleaseNotSelected)
    ensures selected.Some? && javaPath.None? ==> dialog == Some(JavaNotSelected)
  {
    if selected.None? then Some(ReleaseNotSelected)
    else if javaPath.None? then Some(JavaNotSelected)
    else TestJava(parseInstall(javaPath.value))
  }

  // ---------------------------------------------------------------------
  // The window's state
  // ---------------------------------------------------------------------

  /**
   * The settings window: the choices the caller reads back once it closes,
   * the argument text field (None before the field is built), the error
   * dialogs shown so far, and whether the window was disposed.
   */
  class RelauncherGui {
    var selected: Option<Release>
    var javaPath: Option<string>
    var javaArgs: Option<string>
    var maxMemory: Option<string>
    var gcType: Option<string>
    var jvmFlags: Option<seq<string>>
    var argsField: Option<string>
    var dialogs: seq<Dialog>
    var disposed: bool

    /** The window as the caller's initialiser leaves it, with the argument field holding `javaArgs`. */
    constructor (selected: Option<Release>, javaPath: Option<string>, javaArgs: Option<string>,
                 maxMemory: Option<string>, gcType: Option<string>, jvmFlags: Option<seq<string>>)
      ensures this.selected == selected && this.javaPath == javaPath && this.javaArgs == javaArgs
      ensures this.maxMemory == maxMemory && this.gcType == gcType && this.jvmFlags == jvmFlags
      ensures argsField == Some(if javaArgs.Some? then javaArgs.value else [])
      ensures dialogs == [] && !disposed
    {
      this.selected := selected;
      this.javaPath := javaPath;
      this.javaArgs := javaArgs;
      this.maxMemory := maxMemory;
      this.gcType := gcType;
      this.jvmFlags := jvmFlags;
      argsField := Some(if javaArgs.Some? then javaArgs.value else []);
      dialogs := [];
      disposed := false;
    }

    /**
     * `updateArgumentField`: rewrite the field's text from the memory,
     * collector and flag choices, one step after the other, and store the
     * result as `javaArgs` too.
     */
    method UpdateArgumentField()
      modifies this
      ensures old(argsField).None? ==> argsField.None? && javaArgs == old(javaArgs)
      ensures old(argsField).Some? ==>
        var r := RewriteArguments(old(argsField).value, maxMemory, gcType, jvmFlags);
        argsField == Some(r) && javaArgs == Some(r)
      ensures selected == old(selected) && javaPath == old(javaPath) && maxMemory == old(maxMemory)
      ensures gcType == old(gcType) && jvmFlags == old(jvmFlags)
      ensures dialogs == old(dialogs) && disposed == old(disposed)
    {
      if argsField.None? {
        return;
      }
      var currentArgs := argsField.value;
      currentArgs := WithHeap(currentArgs, maxMemory);
      currentArgs := WithGcAsWritten(currentArgs, gcType);
      currentArgs := WithCompactHeaders(currentArgs, jvmFlags);
      currentArgs := NormalizeSpaces(currentArgs);
      argsField := Some(currentArgs);
      javaArgs := Some(currentArgs);
    }

    /**
     * `updateSliderFromText`: a number the text box parses moves the slider
     * when it lies within the slider's range; anything else is ignored.
     */
    method UpdateSliderFromText(slider: Slider, text: Option<string>)
      modifies slider
      ensures slider.minimum == old(slider.minimum) && slider.maximum == old(slider.maximum)
      ensures var m := if text.Some? then MegabytesAsWritten(text.value) else None;
        slider.value == if m.Some? && slider.minimum <= m.value <= slider.maximum then m.value
                        else old(slider.value)
    {
      if text.None? {
        return;
      }
      var upper := AsciiUpper(text.value);
      var num := Replace(Replace(upper, "M", ""), "G", "");
      var parsed := ParseInt(num);
      if parsed.None? {
        return;
      }
      var val := parsed.value;
      if EndsWith(upper, "G") {
        val := WrapInt(val * 1024);
      }
      if slider.minimum <= val <= slider.maximum {
        slider.value := val;
      }
    }

    /**
     * The relaunch button's handler: show the dialog the checks name, or
     * dispose of the window when they all pass.
     */
    method RelaunchPressed(parseInstall: string -> JavaProbe)
      modifies this
      ensures var d := RelaunchCheck(selected, javaPath, parseInstall);
        && dialogs == old(dialogs) + (if d.Some? then [d.value] else [])
        && disposed == (old(disposed) || d.None?)
      ensures selected == old(selected) && javaPath == old(javaPath) && javaArgs == old(javaArgs)
      ensures maxMemory == old(maxMemory) && gcType == old(gcType) && jvmFlags == old(jvmFlags)
      ensures argsField == old(argsField)
    {
      if selected.None? {
        dialogs := dialogs + [ReleaseNotSelected];
        return;
      }
      if javaPath.None? {
        dialogs := dialogs + [JavaNotSelected];
        return;
      }
      var test := TestJava(parseInstall(javaPath.value));
      if test.Some? {
        dialogs := dialogs + [test.value];
        return;
      }
      disposed := true;
    }
  }
}
