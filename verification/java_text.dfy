/**
 * The pieces of java.lang.String, java.util.regex and Integer that the
 * relauncher relies on, written out over `seq<char>` so that the rest of the
 * model can use exactly the semantics the JVM gives them.
 */
module JavaText {
  import opened Wrappers

  // ---------------------------------------------------------------------
  // Prefixes, suffixes and occurrences
  // ---------------------------------------------------------------------

  /** `s.startsWith(p)` */
  predicate StartsWith(s: string, p: string) {
    |p| <= |s| && s[..|p|] == p
  }

  /** `s.endsWith(p)` */
  predicate EndsWith(s: string, p: string) {
    |p| <= |s| && s[|s| - |p|..] == p
  }

  /** `t` occurs in `s` at index `i`. */
  predicate OccursAt(s: string, t: string, i: int) {
    0 <= i && i + |t| <= |s| && s[i..i + |t|] == t
  }

  /** `s.contains(t)`, as a left-to-right scan. */
  predicate Contains(s: string, t: string)
    decreases |s|
  {
    StartsWith(s, t) || (s != [] && Contains(s[1..], t))
  }

  /** The scan finds `t` exactly when `t` occurs at some index of `s`. */
  lemma {:induction false} ContainsIffOccurs(s: string, t: string)
    ensures Contains(s, t) <==> exists i :: OccursAt(s, t, i)
    decreases |s|
  {
    if StartsWith(s, t) {
      assert OccursAt(s, t, 0);
    } else if s == [] {
    } else {
      ContainsIffOccurs(s[1..], t);
      if Contains(s[1..], t) {
        var i :| OccursAt(s[1..], t, i);
        assert s[1..][i..i + |t|] == s[i + 1..i + 1 + |t|];
        assert OccursAt(s, t, i + 1);
      }
      forall i | OccursAt(s, t, i) ensures OccursAt(s[1..], t, i - 1) {
        assert i != 0;
        assert s[1..][i - 1..i - 1 + |t|] == s[i..i + |t|];
      }
    }
  }

  /** Whatever a slice of `s` contains, `s` contains. */
  lemma ContainsInSlice(s: string, i: nat, j: nat, t: string)
    requires i <= j <= |s| && Contains(s[i..j], t)
    ensures Contains(s, t)
  {
    ContainsIffOccurs(s[i..j], t);
    var k :| OccursAt(s[i..j], t, k);
    forall m | 0 <= m < |t| ensures s[i + k + m] == t[m] {
      assert s[i..j][k..k + |t|][m] == t[m];
    }
    assert s[i + k..i + k + |t|] == t;
    assert OccursAt(s, t, i + k);
    ContainsIffOccurs(s, t);
  }

  /** A string that starts with `p` contains everything `p` contains. */
  lemma PrefixContains(s: string, p: string, t: string)
    requires StartsWith(s, p) && Contains(p, t)
    ensures Contains(s, t)
  {
    assert s[0..|p|] == p;
    ContainsInSlice(s, 0, |p|, t);
  }

  /** A string that ends with `p` contains everything `p` contains. */
  lemma SuffixContains(s: string, p: string, t: string)
    requires EndsWith(s, p) && Contains(p, t)
    ensures Contains(s, t)
  {
    assert s[|s| - |p|..|s|] == p;
    ContainsInSlice(s, |s| - |p|, |s|, t);
  }

  /** Every string contains itself. */
  lemma ContainsSelf(s: string)
    ensures Contains(s, s)
  {
    assert StartsWith(s, s);
  }

  /** A string cannot contain `t` when one of `t`'s characters never appears in it. */
  lemma MissingCharacter(s: string, t: string, c: char)
    requires c in t && c !in s
    ensures !Contains(s, t)
  {
    ContainsIffOccurs(s, t);
    var k :| 0 <= k < |t| && t[k] == c;
    forall i | 0 <= i && i + |t| <= |s| ensures !OccursAt(s, t, i) {
      assert s[i..i + |t|][k] == s[i + k] != c;
    }
  }

  // ---------------------------------------------------------------------
  // String.replace(CharSequence, CharSequence)
  // ---------------------------------------------------------------------

  /**
   * `s.replace(target, replacement)`: the occurrences of `target` are found
   * left to right without overlapping, and each one is replaced.
   */
  function Replace(s: string, target: string, replacement: string): string
    requires target != []
    decreases |s|
  {
    if s == [] then []
    else if StartsWith(s, target) then replacement + Replace(s[|target|..], target, replacement)
    else [s[0]] + Replace(s[1..], target, replacement)
  }

  /** A string without the target is returned unchanged. */
  lemma {:induction false} ReplaceAbsent(s: string, target: string, replacement: string)
    requires target != [] && !Contains(s, target)
    ensures Replace(s, target, replacement) == s
    decreases |s|
  {
    if s != [] {
      ReplaceAbsent(s[1..], target, replacement);
    }
  }

  /** Deleting every occurrence never lengthens a string, and shortens it exactly when there is one. */
  lemma {:induction false} RemoveShortens(s: string, target: string)
    requires target != []
    ensures |Replace(s, target, "")| <= |s|
    ensures |Replace(s, target, "")| < |s| <==> Contains(s, target)
    decreases |s|
  {
    if s != [] {
      if StartsWith(s, target) {
        RemoveShortens(s[|target|..], target);
      } else {
        RemoveShortens(s[1..], target);
      }
    }
  }

  /** A front part without the target character is copied as it is. */
  lemma {:induction false} ReplaceAfter(a: string, b: string, c: char, replacement: string)
    requires c !in a
    ensures Replace(a + b, [c], replacement) == a + Replace(b, [c], replacement)
    decreases |a|
  {
    if a != [] {
      assert (a + b)[1..] == a[1..] + b;
      assert !StartsWith(a + b, [c]) by { assert (a + b)[0] == a[0]; }
      ReplaceAfter(a[1..], b, c, replacement);
      calc {
        Replace(a + b, [c], replacement);
        [a[0]] + Replace(a[1..] + b, [c], replacement);
        [a[0]] + (a[1..] + Replace(b, [c], replacement));
        { assert [a[0]] + a[1..] == a; }
        a + Replace(b, [c], replacement);
      }
    } else {
      assert a + b == b;
    }
  }

  /** Replacing a single character by nothing removes that character and keeps all others. */
  lemma {:induction false} RemoveCharacter(s: string, c: char)
    ensures forall x :: x in Replace(s, [c], []) <==> x in s && x != c
    decreases |s|
  {
    if s != [] {
      RemoveCharacter(s[1..], c);
      assert s == [s[0]] + s[1..];
    }
  }

  // ---------------------------------------------------------------------
  // String.trim()
  // ---------------------------------------------------------------------

  /** `String.trim` removes every character up to and including U+0020. */
  predicate IsBlank(c: char) {
    c <= ' '
  }

  predicate AllBlank(s: string) {
    forall k :: 0 <= k < |s| ==> IsBlank(s[k])
  }

  /** How many blank characters `s` starts with. */
  function LeadingBlanks(s: string): (n: nat)
    ensures n <= |s|
    decreases |s|
  {
    if s != [] && IsBlank(s[0]) then 1 + LeadingBlanks(s[1..]) else 0
  }

  /** How many blank characters `s` ends with. */
  function TrailingBlanks(s: string): (n: nat)
    ensures n <= |s|
    decreases |s|
  {
    if s != [] && IsBlank(s[|s| - 1]) then 1 + TrailingBlanks(s[..|s| - 1]) else 0
  }

  /** Drops the blank characters at the front. */
  function TrimStart(s: string): string {
    s[LeadingBlanks(s)..]
  }

  /** Drops the blank characters at the back. */
  function TrimEnd(s: string): string {
    s[..|s| - TrailingBlanks(s)]
  }

  /** `s.trim()`: the slice of `s` left once the blanks at both ends are dropped. */
  function Trim(s: string): string {
    TrimEnd(TrimStart(s))
  }

  /** Index of the first character `trim` keeps. */
  function TrimFrom(s: string): nat {
    LeadingBlanks(s)
  }

  /** The leading blanks are blank, and the character after them is not. */
  lemma {:induction false} LeadingBlanksSpan(s: string)
    ensures AllBlank(s[..LeadingBlanks(s)])
    ensures LeadingBlanks(s) == |s| || !IsBlank(s[LeadingBlanks(s)])
    decreases |s|
  {
    if s != [] && IsBlank(s[0]) {
      var n := LeadingBlanks(s);
      LeadingBlanksSpan(s[1..]);
      forall k | 0 <= k < n ensures IsBlank(s[k]) {
        if k > 0 {
          assert s[k] == s[1..][..n - 1][k - 1];
        }
      }
      if n < |s| {
        assert s[n] == s[1..][n - 1];
      }
    }
  }

  /** The trailing blanks are blank, and the character before them is not. */
  lemma {:induction false} TrailingBlanksSpan(s: string)
    ensures AllBlank(s[|s| - TrailingBlanks(s)..])
    ensures TrailingBlanks(s) == |s| || !IsBlank(s[|s| - 1 - TrailingBlanks(s)])
    decreases |s|
  {
    if s != [] && IsBlank(s[|s| - 1]) {
      var t := s[..|s| - 1];
      var n := TrailingBlanks(s);
      TrailingBlanksSpan(t);
      forall k | |s| - n <= k < |s| ensures IsBlank(s[k]) {
        if k < |s| - 1 {
          assert s[k] == t[|t| - (n - 1)..][k - (|s| - n)];
        }
      }
      if n < |s| {
        assert s[|s| - 1 - n] == t[|t| - 1 - (n - 1)];
      }
    }
  }

  /** What `trim` keeps is one slice of the input, with only blanks cut on either side. */
  lemma TrimIsSlice(s: string)
    ensures TrimFrom(s) + |Trim(s)| <= |s|
    ensures Trim(s) == s[TrimFrom(s)..TrimFrom(s) + |Trim(s)|]
    ensures AllBlank(s[..TrimFrom(s)]) && AllBlank(s[TrimFrom(s) + |Trim(s)|..])
    ensures Trim(s) == [] || (!IsBlank(Trim(s)[0]) && !IsBlank(Trim(s)[|Trim(s)| - 1]))
  {
    var a := LeadingBlanks(s);
    var u := s[a..];
    var b := TrailingBlanks(u);
    var r := u[..|u| - b];
    LeadingBlanksSpan(s);
    TrailingBlanksSpan(u);
    assert Trim(s) == r;
    assert r == s[a..a + |r|];
    assert s[a + |r|..] == u[|u| - b..];
    if r != [] {
      assert r[0] == s[a];
      assert r[|r| - 1] == u[|u| - 1 - b];
    }
  }

  /** Dropping leading blanks keeps every occurrence of a string that starts with a non-blank. */
  lemma {:induction false} TrimStartKeeps(s: string, t: string)
    requires t != [] && !IsBlank(t[0]) && Contains(s, t)
    ensures Contains(TrimStart(s), t)
    decreases |s|
  {
    if s != [] && IsBlank(s[0]) {
      assert !StartsWith(s, t) by { if |t| <= |s| { assert s[..|t|][0] == s[0]; } }
      TrimStartKeeps(s[1..], t);
      assert TrimStart(s) == TrimStart(s[1..]);
    } else {
      assert TrimStart(s) == s;
    }
  }

  /** Dropping trailing blanks keeps every occurrence of a string that ends with a non-blank. */
  lemma {:induction false} TrimEndKeeps(s: string, t: string)
    requires t != [] && !IsBlank(t[|t| - 1]) && Contains(s, t)
    ensures Contains(TrimEnd(s), t)
    decreases |s|
  {
    if s != [] && IsBlank(s[|s| - 1]) {
      var s' := s[..|s| - 1];
      ContainsIffOccurs(s, t);
      var i :| OccursAt(s, t, i);
      assert s[i..i + |t|][|t| - 1] == s[i + |t| - 1];
      assert i + |t| < |s|;
      assert s'[i..i + |t|] == s[i..i + |t|];
      assert OccursAt(s', t, i);
      ContainsIffOccurs(s', t);
      TrimEndKeeps(s', t);
      assert TrimEnd(s) == TrimEnd(s');
    } else {
      assert TrimEnd(s) == s;
    }
  }

  /** `trim` keeps every occurrence of a string that neither starts nor ends with a blank. */
  lemma TrimKeeps(s: string, t: string)
    requires t != [] && !IsBlank(t[0]) && !IsBlank(t[|t| - 1])
    requires Contains(s, t)
    ensures Contains(Trim(s), t)
  {
    TrimStartKeeps(s, t);
    TrimEndKeeps(TrimStart(s), t);
  }

  /** Nothing that `trim` returns starts or ends with a blank. */
  lemma TrimEnds(s: string)
    ensures var r := Trim(s); r == [] || (!IsBlank(r[0]) && !IsBlank(r[|r| - 1]))
  {
    TrimIsSlice(s);
  }

  // ---------------------------------------------------------------------
  // Regular expressions used with String.replaceAll and String.matches
  // ---------------------------------------------------------------------

  /** The regex class `\s`: space, tab, newline, vertical tab, form feed, carriage return. */
  predicate IsSpace(c: char) {
    c == ' ' || c == '\t' || c == '\n' || c == '\U{0B}' || c == '\U{0C}' || c == '\r'
  }

  /** The regex class `\w`: ASCII letters, digits and underscore. */
  predicate IsWordChar(c: char) {
    ('a' <= c <= 'z') || ('A' <= c <= 'Z') || ('0' <= c <= '9') || c == '_'
  }

  /** Characters the regex `.` does not match (no DOTALL, no UNIX_LINES). */
  predicate IsLineTerminator(c: char) {
    c == '\n' || c == '\r' || c == '\U{85}' || c == '\U{2028}' || c == '\U{2029}'
  }

  datatype CharClass = Space | NonSpace | Word

  predicate InClass(c: char, k: CharClass) {
    match k
    case Space => IsSpace(c)
    case NonSpace => !IsSpace(c)
    case Word => IsWordChar(c)
  }

  /** Length of the longest run of characters of class `k` at the front of `s` (greedy `k+`). */
  function Run(s: string, k: CharClass): (n: nat)
    ensures n <= |s|
    ensures forall i :: 0 <= i < n ==> InClass(s[i], k)
    ensures n < |s| ==> !InClass(s[n], k)
    decreases |s|
  {
    if s != [] && InClass(s[0], k) then 1 + Run(s[1..], k) else 0
  }

  /** The three patterns the argument field rewriter hands to `replaceAll`. */
  datatype Pattern =
    | HeapOption   // -Xmx\S+
    | GcOption     // -XX:\+Use\w+GC
    | SpaceRun     // \s+

  const HeapPrefix: string := "-Xmx"
  const UsePrefix: string := "-XX:+Use"

  /**
   * Backtracking of `\w+GC`: the longest `j` in [1, k] with "GC" at index `j`
   * of `t`, or 0 when there is none.
   */
  function GreedyGcEnd(t: string, k: nat): (j: nat)
    ensures j <= k
    ensures j > 0 ==> OccursAt(t, "GC", j)
    ensures forall m :: j < m <= k ==> !OccursAt(t, "GC", m)
    decreases k
  {
    if k == 0 then 0 else if OccursAt(t, "GC", k) then k else GreedyGcEnd(t, k - 1)
  }

  /**
   * Length of the match of `p` at the very front of `s`, 0 when `p` does not
   * match there. Each pattern is greedy as java.util.regex is.
   */
  function MatchLength(s: string, p: Pattern): (n: nat)
    ensures n <= |s|
  {
    match p
    case HeapOption =>
      if StartsWith(s, HeapPrefix) && Run(s[4..], NonSpace) > 0 then 4 + Run(s[4..], NonSpace) else 0
    case GcOption =>
      if StartsWith(s, UsePrefix) then
        var t := s[8..];
        var j := GreedyGcEnd(t, Run(t, Word));
        if j > 0 then 8 + j + 2 else 0
      else 0
    case SpaceRun =>
      Run(s, Space)
  }

  /**
   * `s.replaceAll(p, replacement)`: the leftmost match is replaced, and the
   * search resumes right after it. Every match of these patterns is nonempty
   * and is decided by the text from its start on, so trying each start in
   * turn is the same search.
   */
  function ReplaceAll(s: string, p: Pattern, replacement: string): string
    decreases |s|
  {
    if s == [] then []
    else
      var n := MatchLength(s, p);
      if n > 0 then replacement + ReplaceAll(s[n..], p, replacement)
      else [s[0]] + ReplaceAll(s[1..], p, replacement)
  }

  /** The pattern matches at some index of `s`. */
  predicate HasMatch(s: string, p: Pattern)
    decreases |s|
  {
    s != [] && (MatchLength(s, p) > 0 || HasMatch(s[1..], p))
  }

  /** Without a match, `replaceAll` returns its input. */
  lemma {:induction false} ReplaceAllNoMatch(s: string, p: Pattern, replacement: string)
    requires !HasMatch(s, p)
    ensures ReplaceAll(s, p, replacement) == s
    decreases |s|
  {
    if s != [] {
      ReplaceAllNoMatch(s[1..], p, replacement);
    }
  }

  /** With a match, the replacement appears in the output. */
  lemma {:induction false} ReplaceAllInserts(s: string, p: Pattern, replacement: string)
    requires HasMatch(s, p)
    ensures Contains(ReplaceAll(s, p, replacement), replacement)
    decreases |s|
  {
    var r := ReplaceAll(s, p, replacement);
    var n := MatchLength(s, p);
    if n > 0 {
      assert StartsWith(r, replacement);
    } else {
      ReplaceAllInserts(s[1..], p, replacement);
      assert r[1..] == ReplaceAll(s[1..], p, replacement);
    }
  }

  /** `s.matches(".*-XX:\\+Use.*GC.*")`: no line terminator, and "GC" somewhere after a "-XX:+Use". */
  predicate MatchesGcHint(s: string) {
    (forall i :: 0 <= i < |s| ==> !IsLineTerminator(s[i])) && UseThenGc(s)
  }

  predicate UseThenGc(s: string)
    decreases |s|
  {
    (StartsWith(s, UsePrefix) && Contains(s[8..], "GC")) || (s != [] && UseThenGc(s[1..]))
  }

  /** Every replaceable `-XX:+Use\w+GC` token is also a hit of the looser `matches` test. */
  lemma {:induction false} GcOptionIsHint(s: string)
    requires HasMatch(s, GcOption)
    ensures UseThenGc(s)
    decreases |s|
  {
    if MatchLength(s, GcOption) > 0 {
      var t := s[8..];
      var j := GreedyGcEnd(t, Run(t, Word));
      ContainsIffOccurs(t, "GC");
    } else {
      GcOptionIsHint(s[1..]);
    }
  }

  // ---------------------------------------------------------------------
  // Whitespace normalisation: replaceAll("\\s+", " ").trim()
  // ---------------------------------------------------------------------

  /** No two neighbouring characters are both `\s`. */
  predicate NoSpaceRun(s: string) {
    forall i :: 0 <= i < |s| - 1 ==> !(IsSpace(s[i]) && IsSpace(s[i + 1]))
  }

  /** `replaceAll("\\s+", " ")` */
  function CollapseSpaces(s: string): string {
    ReplaceAll(s, SpaceRun, " ")
  }

  /** Collapsing leaves a string that starts with the same non-space character. */
  lemma CollapseHead(s: string)
    requires s != [] && !IsSpace(s[0])
    ensures CollapseSpaces(s) == [s[0]] + CollapseSpaces(s[1..])
  {
  }

  /** After collapsing, no two neighbouring characters are whitespace. */
  lemma {:induction false} CollapseNoSpaceRun(s: string)
    ensures NoSpaceRun(CollapseSpaces(s))
    ensures s != [] ==> CollapseSpaces(s) != [] && (IsSpace(CollapseSpaces(s)[0]) <==> IsSpace(s[0]))
    decreases |s|
  {
    if s != [] {
      var n := MatchLength(s, SpaceRun);
      var r := CollapseSpaces(s);
      if n > 0 {
        var rest := s[n..];
        CollapseNoSpaceRun(rest);
        assert r == " " + CollapseSpaces(rest);
        assert rest != [] ==> !IsSpace(rest[0]);
      } else {
        CollapseNoSpaceRun(s[1..]);
        assert r == [s[0]] + CollapseSpaces(s[1..]);
      }
    }
  }

  /** Collapsing keeps every occurrence of a string without whitespace. */
  lemma {:induction false} CollapseKeepsPrefix(s: string, t: string)
    requires StartsWith(s, t) && forall i :: 0 <= i < |t| ==> !IsSpace(t[i])
    ensures StartsWith(CollapseSpaces(s), t)
    decreases |t|
  {
    if t != [] {
      assert s[0] == t[0];
      CollapseHead(s);
      assert StartsWith(s[1..], t[1..]) by {
        assert s[1..][..|t| - 1] == s[1..|t|] == t[1..];
      }
      CollapseKeepsPrefix(s[1..], t[1..]);
    }
  }

  lemma {:induction false} CollapseKeeps(s: string, t: string)
    requires t != [] && forall i :: 0 <= i < |t| ==> !IsSpace(t[i])
    requires Contains(s, t)
    ensures Contains(CollapseSpaces(s), t)
    decreases |s|
  {
    var r := CollapseSpaces(s);
    if StartsWith(s, t) {
      CollapseKeepsPrefix(s, t);
    } else {
      assert Contains(s[1..], t);
      var n := MatchLength(s, SpaceRun);
      if n > 0 {
        // The occurrence cannot start inside the run of spaces.
        ContainsIffOccurs(s[1..], t);
        var i :| OccursAt(s[1..], t, i);
        assert s[i + 1] == t[0];
        assert i + 1 >= n;
        assert s[1..][i..i + |t|] == s[i + 1..i + 1 + |t|];
        assert s[n..][i + 1 - n..i + 1 - n + |t|] == s[i + 1..i + 1 + |t|];
        assert OccursAt(s[n..], t, i + 1 - n);
        ContainsIffOccurs(s[n..], t);
        CollapseKeeps(s[n..], t);
        assert r == " " + CollapseSpaces(s[n..]);
        assert r[1..] == CollapseSpaces(s[n..]);
      } else {
        CollapseKeeps(s[1..], t);
        assert r[1..] == CollapseSpaces(s[1..]);
      }
    }
  }

  /** `replaceAll("\\s+", " ").trim()` */
  function NormalizeSpaces(s: string): string {
    Trim(CollapseSpaces(s))
  }

  /** The normalised text has no blank at either end and no run of whitespace. */
  lemma NormalizedForm(s: string)
    ensures var r := NormalizeSpaces(s);
      && (r == [] || (!IsBlank(r[0]) && !IsBlank(r[|r| - 1])))
      && NoSpaceRun(r)
  {
    var c := CollapseSpaces(s);
    CollapseNoSpaceRun(s);
    TrimIsSlice(c);
    var r := Trim(c);
    var a := TrimFrom(c);
    forall i | 0 <= i < |r| - 1 ensures !(IsSpace(r[i]) && IsSpace(r[i + 1])) {
      assert r[i] == c[a + i] && r[i + 1] == c[a + i + 1];
    }
  }

  /** Normalising keeps every occurrence of a string with no whitespace and no blank at its ends. */
  lemma NormalizeKeeps(s: string, t: string)
    requires t != [] && forall i :: 0 <= i < |t| ==> !IsSpace(t[i])
    requires !IsBlank(t[0]) && !IsBlank(t[|t| - 1])
    requires Contains(s, t)
    ensures Contains(NormalizeSpaces(s), t)
  {
    CollapseKeeps(s, t);
    TrimKeeps(CollapseSpaces(s), t);
  }

  // ---------------------------------------------------------------------
  // Splitting and joining
  // ---------------------------------------------------------------------

  /** The pieces between the occurrences of `c`, empty pieces included. */
  function SplitAll(s: string, c: char): (parts: seq<string>)
    ensures |parts| >= 1
    decreases |s|
  {
    if s == [] then [[]]
    else if s[0] == c then [[]] + SplitAll(s[1..], c)
    else
      var rest := SplitAll(s[1..], c);
      [[s[0]] + rest[0]] + rest[1..]
  }

  /** `Collectors.joining(sep)` / `String.join(sep, parts)` */
  function Join(parts: seq<string>, sep: string): string
    decreases |parts|
  {
    if parts == [] then []
    else if |parts| == 1 then parts[0]
    else parts[0] + sep + Join(parts[1..], sep)
  }

  /** Splitting and joining back on the same character gives the text back. */
  lemma {:induction false} JoinSplit(s: string, c: char)
    ensures Join(SplitAll(s, c), [c]) == s
    decreases |s|
  {
    if s != [] {
      JoinSplit(s[1..], c);
      var rest := SplitAll(s[1..], c);
      if s[0] != c {
        if |rest| == 1 {
          assert Join(SplitAll(s, c), [c]) == [s[0]] + rest[0];
        } else {
          assert SplitAll(s, c)[1..] == rest[1..];
          assert Join(SplitAll(s, c), [c]) == [s[0]] + rest[0] + [c] + Join(rest[1..], [c]);
        }
      }
    }
  }

  /** Joining pieces that do not hold the separator and splitting again gives the pieces back. */
  lemma {:induction false} SplitJoin(parts: seq<string>, c: char)
    requires |parts| >= 1
    requires forall k :: 0 <= k < |parts| ==> c !in parts[k]
    ensures SplitAll(Join(parts, [c]), c) == parts
    decreases |parts|, |parts[0]|
  {
    var p := parts[0];
    if p == [] {
      if |parts| > 1 {
        SplitJoin(parts[1..], c);
        assert Join(parts, [c]) == [c] + Join(parts[1..], [c]);
        assert Join(parts, [c])[1..] == Join(parts[1..], [c]);
      }
    } else {
      var tail := [p[1..]] + parts[1..];
      assert c !in tail[0] by {
        forall x | x in p[1..] ensures x != c { assert x in p; }
      }
      SplitJoin(tail, c);
      if |parts| == 1 {
        assert Join(parts, [c]) == p == [p[0]] + p[1..];
      } else {
        assert Join(tail, [c]) == p[1..] + [c] + Join(parts[1..], [c]);
        assert Join(parts, [c]) == [p[0]] + Join(tail, [c]);
      }
      assert Join(parts, [c])[1..] == Join(tail, [c]);
      assert [p[0]] + p[1..] == p;
    }
  }

  /** Every piece of a split is a slice of the text. */
  lemma {:induction false} SplitPiecesContained(s: string, c: char)
    ensures forall k :: 0 <= k < |SplitAll(s, c)| ==> Contains(s, SplitAll(s, c)[k])
    decreases |s|
  {
    var parts := SplitAll(s, c);
    if s != [] {
      SplitPiecesContained(s[1..], c);
      var rest := SplitAll(s[1..], c);
      forall k | 0 <= k < |parts| ensures Contains(s, parts[k]) {
        if s[0] == c {
          if k > 0 { assert parts[k] == rest[k - 1]; }
        } else if k == 0 {
          // the first piece extends the first piece of the rest by s[0]
          assert rest[0] == [] || Contains(s[1..], rest[0]);
          FirstPieceIsPrefix(s[1..], c);
          assert StartsWith(s, parts[0]) by {
            assert s[..|parts[0]|] == [s[0]] + s[1..][..|rest[0]|];
          }
        } else {
          assert parts[k] == rest[k];
        }
      }
    }
  }

  lemma {:induction false} FirstPieceIsPrefix(s: string, c: char)
    ensures StartsWith(s, SplitAll(s, c)[0])
    decreases |s|
  {
    if s != [] && s[0] != c {
      FirstPieceIsPrefix(s[1..], c);
    }
  }

  /** Drops the empty strings at the end, as `split` with limit 0 does. */
  function DropTrailingEmpty(parts: seq<string>): (r: seq<string>)
    ensures |r| <= |parts| && r == parts[..|r|]
    ensures r == [] || r[|r| - 1] != []
    ensures forall k :: |r| <= k < |parts| ==> parts[k] == []
    decreases |parts|
  {
    if parts != [] && parts[|parts| - 1] == [] then DropTrailingEmpty(parts[..|parts| - 1]) else parts
  }

  /** No piece of a split holds the separator. */
  lemma {:induction false} SplitAllNoSeparator(s: string, c: char)
    ensures forall k :: 0 <= k < |SplitAll(s, c)| ==> c !in SplitAll(s, c)[k]
    decreases |s|
  {
    if s != [] {
      SplitAllNoSeparator(s[1..], c);
      var rest := SplitAll(s[1..], c);
      if s[0] != c {
        assert c !in [s[0]] + rest[0];
        forall k | 1 <= k < |SplitAll(s, c)|
          ensures c !in SplitAll(s, c)[k]
        {
          assert SplitAll(s, c)[k] == rest[k];
        }
      } else {
        forall k | 1 <= k < |SplitAll(s, c)|
          ensures c !in SplitAll(s, c)[k]
        {
          assert SplitAll(s, c)[k] == rest[k - 1];
        }
      }
    }
  }

  /**
   * `s.split(String.valueOf(c))`: when `c` does not occur, the text itself;
   * otherwise the pieces between occurrences with trailing empty pieces dropped.
   */
  function JavaSplit(s: string, c: char): seq<string> {
    if c !in s then [s] else DropTrailingEmpty(SplitAll(s, c))
  }

  /** Every piece of `split` is a slice of the text without the separator. */
  lemma JavaSplitContained(s: string, c: char)
    ensures forall k :: 0 <= k < |JavaSplit(s, c)| ==> Contains(s, JavaSplit(s, c)[k])
    ensures forall k :: 0 <= k < |JavaSplit(s, c)| ==> c !in JavaSplit(s, c)[k]
  {
    if c !in s {
      ContainsSelf(s);
    } else {
      SplitPiecesContained(s, c);
      SplitAllNoSeparator(s, c);
    }
  }

  // ---------------------------------------------------------------------
  // Upper case, integers
  // ---------------------------------------------------------------------

  function UpperChar(c: char): char {
    if 'a' <= c <= 'z' then (c as int - 'a' as int + 'A' as int) as char else c
  }

  /** `s.toUpperCase()` on ASCII letters; every other character is kept. */
  function AsciiUpper(s: string): (r: string)
    ensures |r| == |s| && forall i :: 0 <= i < |s| ==> r[i] == UpperChar(s[i])
  {
    seq(|s|, i requires 0 <= i < |s| => UpperChar(s[i]))
  }

  const MinInt: int := -0x8000_0000
  const MaxInt: int := 0x7FFF_FFFF

  /** The value of `v` as a Java `int`: two's complement wrap-around to 32 bits. */
  function WrapInt(v: int): (r: int)
    ensures MinInt <= r <= MaxInt
    ensures (r - v) % 0x1_0000_0000 == 0
    ensures MinInt <= v <= MaxInt ==> r == v
  {
    var m := v % 0x1_0000_0000;
    if m > MaxInt then m - 0x1_0000_0000 else m
  }

  predicate IsDigit(c: char) {
    '0' <= c <= '9'
  }

  predicate AllDigits(s: string) {
    forall i :: 0 <= i < |s| ==> IsDigit(s[i])
  }

  /** Decimal value of a string of digits, read left to right. */
  function DigitsValue(s: string): nat
    requires AllDigits(s)
    decreases |s|
  {
    if s == [] then 0 else 10 * DigitsValue(s[..|s| - 1]) + (s[|s| - 1] as int - '0' as int)
  }

  /**
   * `Integer.parseInt(s)`: an optional sign and at least one decimal digit,
   * whose value fits a Java `int`; None stands for NumberFormatException.
   */
  function ParseInt(s: string): (r: Option<int>)
    ensures r.Some? ==> MinInt <= r.value <= MaxInt
    ensures r.Some? ==> s != [] && (IsDigit(s[0]) || s[0] == '-' || s[0] == '+')
  {
    if s == [] then None
    else
      var digits := if s[0] == '-' || s[0] == '+' then s[1..] else s;
      if digits == [] || !AllDigits(digits) then None
      else
        var v: int := if s[0] == '-' then 0 - DigitsValue(digits) else DigitsValue(digits);
        if MinInt <= v <= MaxInt then Some(v) else None
  }

  function DigitChar(d: nat): char
    requires d < 10
  {
    ('0' as int + d) as char
  }

  /** `Integer.toString(n)` for a non-negative `n`. */
  function NatToString(n: nat): (r: string)
    ensures r != [] && AllDigits(r)
    decreases n
  {
    if n < 10 then [DigitChar(n)] else NatToString(n / 10) + [DigitChar(n % 10)]
  }

  lemma {:induction false} DigitsOfNatToString(n: nat)
    ensures DigitsValue(NatToString(n)) == n
    decreases n
  {
    if n >= 10 {
      DigitsOfNatToString(n / 10);
      var s := NatToString(n);
      assert s[..|s| - 1] == NatToString(n / 10);
    }
  }

  /** Printing a non-negative int and parsing it back gives the same int. */
  lemma ParsePrinted(n: nat)
    requires n <= MaxInt
    ensures ParseInt(NatToString(n)) == Some(n)
  {
    DigitsOfNatToString(n);
  }
}
