/**
 * The release script's version handling: semantic-version tags
 * (`vMAJ.MIN.PAT` or `MAJ.MIN.PAT`), bumping them, the search for the
 * latest usable tag among git's answers, and the check that the dashboard
 * files carry the expected version.
 */
module GitCommit {
  import opened Wrappers
  import opened Text
  import opened Decimal

  /** A release version; `prefixV` says whether its tag is written with a leading `v`. */
  datatype Version = Version(major: nat, minor: nat, patch: nat, prefixV: bool)

  // ---------------------------------------------------------------------
  // Printing
  // ---------------------------------------------------------------------

  function Dotted(a: string, b: string, c: string): string {
    a + "." + b + "." + c
  }

  /** `Version.plain`: `MAJ.MIN.PAT`, never with the `v`. */
  function Plain(v: Version): (r: string)
    ensures r != [] && IsDigit(r[0]) && IsDigit(r[|r| - 1])
    ensures 'v' !in r
  {
    var a, b, c := NatToString(v.major), NatToString(v.minor), NatToString(v.patch);
    assert forall x :: x in a ==> IsDigit(x);
    assert forall x :: x in b ==> IsDigit(x);
    assert forall x :: x in c ==> IsDigit(x);
    Dotted(a, b, c)
  }

  /** `Version.tag`: the plain form, with a `v` in front exactly when `prefixV`. */
  function Tag(v: Version): (r: string)
    ensures r != [] && (r[0] == 'v' <==> v.prefixV)
    ensures r[|r| - 1] != 'v' && IsDigit(r[|r| - 1])
    ensures v.prefixV ==> r[1..] == Plain(v)
    ensures !v.prefixV ==> r == Plain(v)
  {
    if v.prefixV then "v" + Plain(v) else Plain(v)
  }

  // ---------------------------------------------------------------------
  // Parsing
  // ---------------------------------------------------------------------

  /** `s.split(".")`: the pieces between dots, at least one. */
  function SplitDots(s: string): (r: seq<string>)
    ensures |r| >= 1
    ensures forall i :: 0 <= i < |r| ==> '.' !in r[i]
  {
    if s == [] then [[]]
    else
      var rest := SplitDots(s[1..]);
      if s[0] == '.' then [[]] + rest
      else
        var first := [s[0]] + rest[0];
        assert '.' !in first;
        [first] + rest[1..]
  }

  /** Pieces glued back together with dots. */
  function JoinDots(parts: seq<string>): string
    requires |parts| >= 1
  {
    if |parts| == 1 then parts[0] else parts[0] + "." + JoinDots(parts[1..])
  }

  /** Splitting at the dots loses nothing. */
  lemma {:induction false} JoinSplitDots(s: string)
    ensures JoinDots(SplitDots(s)) == s
  {
    if s != [] {
      var rest := SplitDots(s[1..]);
      JoinSplitDots(s[1..]);
      if s[0] == '.' {
        assert ([[]] + rest)[1..] == rest;
        assert s == "." + s[1..];
      } else {
        var parts := SplitDots(s);
        assert parts[0] == [s[0]] + rest[0];
        if |rest| > 1 {
          assert parts[1..] == rest[1..];
        }
        assert s == [s[0]] + s[1..];
      }
    }
  }

  /** A dot-free piece followed by a dot splits off as the first piece. */
  lemma {:induction false} SplitDotsCons(a: string, rest: string)
    requires '.' !in a
    ensures SplitDots(a + "." + rest) == [a] + SplitDots(rest)
  {
    if a == [] {
      assert a + "." + rest == "." + rest;
      assert ("." + rest)[1..] == rest;
    } else {
      assert (a + "." + rest)[1..] == a[1..] + "." + rest;
      SplitDotsCons(a[1..], rest);
      assert a == [a[0]] + a[1..];
    }
  }

  /** A dot-free string is a single piece. */
  lemma {:induction false} SplitDotsNoDot(a: string)
    requires '.' !in a
    ensures SplitDots(a) == [a]
  {
    if a != [] {
      SplitDotsNoDot(a[1..]);
      assert a == [a[0]] + a[1..];
    }
  }

  /**
   * `Version.parse_tag`: after stripping, the whole string must match
   * `^(v)?(0|[1-9]\d*)\.(0|[1-9]\d*)\.(0|[1-9]\d*)$`; `None` otherwise.
   */
  function ParseTag(tag: string): Option<Version> {
    ParseStripped(PyStrip(tag))
  }

  /** The regular-expression match on an already stripped tag. */
  function ParseStripped(s: string): (r: Option<Version>)
    ensures r.Some? ==> (r.value.prefixV <==> |s| > 0 && s[0] == 'v')
  {
    var prefixV := |s| > 0 && s[0] == 'v';
    var body := if prefixV then s[1..] else s;
    var parts := SplitDots(body);
    if |parts| == 3 && IsCanonicalNumeral(parts[0]) && IsCanonicalNumeral(parts[1]) && IsCanonicalNumeral(parts[2])
    then Some(Version(NumeralValue(parts[0]), NumeralValue(parts[1]), NumeralValue(parts[2]), prefixV))
    else None
  }

  /** A printed tag has no whitespace at its ends, so stripping keeps it. */
  lemma TagIsStripped(v: Version)
    ensures PyStrip(Tag(v)) == Tag(v)
  {
    TagTrimmed(v);
    StripKeepsTrimmed(Tag(v), IsPyWhitespace);
  }

  /** A printed tag begins with `v` or a digit and ends with a digit. */
  lemma TagTrimmed(v: Version)
    ensures var t := Tag(v); t != [] && !IsPyWhitespace(t[0]) && !IsPyWhitespace(t[|t| - 1])
  {
    var t := Tag(v);
    if !v.prefixV {
      assert t[0] == Plain(v)[0];
    }
  }

  /** Printing the three numbers and splitting at the dots gives them back. */
  lemma SplitPlain(v: Version)
    ensures SplitDots(Plain(v)) == [NatToString(v.major), NatToString(v.minor), NatToString(v.patch)]
  {
    var a, b, c := NatToString(v.major), NatToString(v.minor), NatToString(v.patch);
    NatToStringHasNoDot(v.major);
    NatToStringHasNoDot(v.minor);
    NatToStringHasNoDot(v.patch);
    assert Plain(v) == a + "." + (b + "." + c);
    SplitDotsCons(a, b + "." + c);
    SplitDotsCons(b, c);
    SplitDotsNoDot(c);
  }

  /** Round trip: parsing the tag a version prints gives that version back. */
  lemma ParseTagRoundTrip(v: Version)
    ensures ParseTag(Tag(v)) == Some(v)
  {
    TagIsStripped(v);
    SplitPlain(v);
    NatToStringRoundTrip(v.major);
    NatToStringRoundTrip(v.minor);
    NatToStringRoundTrip(v.patch);
    var t := Tag(v);
    var body := if v.prefixV then t[1..] else t;
    assert body == Plain(v);
  }

  /** Round trip the other way: an accepted tag is, once stripped, exactly the tag of what it parsed to. */
  lemma ParseTagOnlyCanonical(tag: string)
    requires ParseTag(tag).Some?
    ensures Tag(ParseTag(tag).value) == PyStrip(tag)
  {
    ParseStrippedOnlyCanonical(PyStrip(tag));
  }

  /** Three pieces glued back together are the string they were split from. */
  lemma ThreePieces(body: string)
    requires |SplitDots(body)| == 3
    ensures var parts := SplitDots(body); body == Dotted(parts[0], parts[1], parts[2])
  {
    var parts := SplitDots(body);
    var p0, p1, p2 := parts[0], parts[1], parts[2];
    JoinSplitDots(body);
    assert parts[1..] == [p1, p2] && parts[1..][1..] == [p2];
    assert JoinDots(parts[1..]) == p1 + "." + p2;
    assert body == p0 + "." + (p1 + "." + p2);
  }

  /** Canonical numerals print back exactly. */
  lemma PlainOfCanonical(p0: string, p1: string, p2: string, prefixV: bool)
    requires IsCanonicalNumeral(p0) && IsCanonicalNumeral(p1) && IsCanonicalNumeral(p2)
    ensures Plain(Version(NumeralValue(p0), NumeralValue(p1), NumeralValue(p2), prefixV)) == Dotted(p0, p1, p2)
  {
    CanonicalRoundTrip(p0);
    CanonicalRoundTrip(p1);
    CanonicalRoundTrip(p2);
  }

  lemma ParseStrippedOnlyCanonical(s: string)
    requires ParseStripped(s).Some?
    ensures Tag(ParseStripped(s).value) == s
  {
    var prefixV := |s| > 0 && s[0] == 'v';
    var body := if prefixV then s[1..] else s;
    var parts := SplitDots(body);
    var v := ParseStripped(s).value;
    ThreePieces(body);
    PlainOfCanonical(parts[0], parts[1], parts[2], prefixV);
    assert Plain(v) == body;
    TagFromPlain(v, s);
  }

  /** A tag is its plain form behind the `v` it says it has. */
  lemma TagFromPlain(v: Version, s: string)
    requires v.prefixV <==> |s| > 0 && s[0] == 'v'
    requires Plain(v) == if v.prefixV then s[1..] else s
    ensures Tag(v) == s
  {
    if v.prefixV {
      assert s == "v" + s[1..];
    }
  }

  /** A string of the regular expression's language, built from its parts. */
  function SemverText(prefixV: bool, a: string, b: string, c: string): string {
    (if prefixV then "v" else "") + Dotted(a, b, c)
  }

  /**
   * Every string of the regular expression's language is accepted, whatever
   * whitespace surrounds it, with the numbers its digits denote.
   */
  lemma ParseTagAcceptsSemver(prefixV: bool, a: string, b: string, c: string, padLeft: string, padRight: string)
    requires IsCanonicalNumeral(a) && IsCanonicalNumeral(b) && IsCanonicalNumeral(c)
    requires forall i :: 0 <= i < |padLeft| ==> IsPyWhitespace(padLeft[i])
    requires forall i :: 0 <= i < |padRight| ==> IsPyWhitespace(padRight[i])
    ensures ParseTag(padLeft + SemverText(prefixV, a, b, c) + padRight)
            == Some(Version(NumeralValue(a), NumeralValue(b), NumeralValue(c), prefixV))
  {
    var v := Version(NumeralValue(a), NumeralValue(b), NumeralValue(c), prefixV);
    CanonicalRoundTrip(a);
    CanonicalRoundTrip(b);
    CanonicalRoundTrip(c);
    assert Plain(v) == Dotted(a, b, c);
    var t := Tag(v);
    assert t == SemverText(prefixV, a, b, c);
    TagTrimmed(v);
    StripPadded(padLeft, t, padRight);
    TagIsStripped(v);
    ParseTagRoundTrip(v);
  }

  // ---------------------------------------------------------------------
  // Bumping
  // ---------------------------------------------------------------------

  datatype BumpLevel = Major | Minor | Patch

  /**
   * `level.lower().strip()` matched against the names and their digit
   * aliases. Lower-casing is ASCII only, which decides the same matches.
   */
  function BumpLevelOf(level: string): (r: Option<BumpLevel>)
    ensures r == Some(Major) <==> PyStrip(LowerAscii(level)) in {"major", "1"}
    ensures r == Some(Minor) <==> PyStrip(LowerAscii(level)) in {"minor", "2"}
    ensures r == Some(Patch) <==> PyStrip(LowerAscii(level)) in {"patch", "3"}
  {
    var l := PyStrip(LowerAscii(level));
    if l == "major" || l == "1" then Some(Major)
    else if l == "minor" || l == "2" then Some(Minor)
    else if l == "patch" || l == "3" then Some(Patch)
    else None
  }

  /** Strictly earlier in (major, minor, patch) order. */
  predicate LexLess(a: Version, b: Version) {
    a.major < b.major
    || (a.major == b.major && a.minor < b.minor)
    || (a.major == b.major && a.minor == b.minor && a.patch < b.patch)
  }

  /** `Version.bump`; an unknown level is the `ValueError("Invalid bump level")`. */
  function Bump(v: Version, level: string): (r: Result<Version, string>)
    ensures r.Failure? <==> BumpLevelOf(level).None?
    ensures r.Failure? ==> r.error == "Invalid bump level"
    ensures r.Success? ==> r.value.prefixV == v.prefixV && LexLess(v, r.value)
    ensures BumpLevelOf(level) == Some(Major) ==> r == Success(Version(v.major + 1, 0, 0, v.prefixV))
    ensures BumpLevelOf(level) == Some(Minor) ==> r == Success(Version(v.major, v.minor + 1, 0, v.prefixV))
    ensures BumpLevelOf(level) == Some(Patch) ==> r == Success(Version(v.major, v.minor, v.patch + 1, v.prefixV))
  {
    match BumpLevelOf(level)
    case None => Failure("Invalid bump level")
    case Some(Major) => Success(Version(v.major + 1, 0, 0, v.prefixV))
    case Some(Minor) => Success(Version(v.major, v.minor + 1, 0, v.prefixV))
    case Some(Patch) => Success(Version(v.major, v.minor, v.patch + 1, v.prefixV))
  }

  /** Every answer the interactive prompt lets through is a level `bump` accepts. */
  lemma PromptAnswersAreLevels(v: Version, resp: string)
    requires resp in {"1", "2", "3", "major", "minor", "patch"}
    ensures Bump(v, resp).Success?
  {
    NormalizedWord(resp);
  }

  /** A lower-case word of letters and digits is unchanged by `lower().strip()`. */
  lemma NormalizedWord(w: string)
    requires w != [] && forall i :: 0 <= i < |w| ==> 'a' <= w[i] <= 'z' || '0' <= w[i] <= '9'
    ensures PyStrip(LowerAscii(w)) == w
  {
    assert LowerAscii(w) == w;
    StripKeepsTrimmed(w, IsPyWhitespace);
  }

  /** A bumped version's tag parses back to the bumped version, with the old prefix. */
  lemma BumpedTagParses(v: Version, level: string)
    requires Bump(v, level).Success?
    ensures ParseTag(Tag(Bump(v, level).value)) == Some(Bump(v, level).value)
    ensures (Tag(Bump(v, level).value)[0] == 'v') == (Tag(v)[0] == 'v')
  {
    ParseTagRoundTrip(Bump(v, level).value);
  }

  // ---------------------------------------------------------------------
  // Finding the latest tag
  // ---------------------------------------------------------------------

  /** A blank line never parses, so skipping blank lines changes nothing. */
  lemma BlankDoesNotParse()
    ensures ParseTag("").None?
  {
    assert SplitDots("") == [[]];
  }

  /** One line of the tag listing: its stripped text and version when it parses. */
  function LineTag(line: string): (r: Option<(string, Version)>)
    ensures r.None? <==> ParseTag(PyStrip(line)).None?
    ensures r.Some? ==> r.value.0 == PyStrip(line) && ParseTag(r.value.0) == Some(r.value.1)
    ensures r.Some? ==> PyStrip(r.value.0) == r.value.0
  {
    var t := PyStrip(line);
    StripKeepsTrimmed(t, IsPyWhitespace);
    BlankDoesNotParse();
    if t != "" && ParseTag(t).Some? then Some((t, ParseTag(t).value)) else None
  }

  /** The first present value of a sequence of optional values. */
  function FirstSome<T>(xs: seq<Option<T>>): (r: Option<T>)
    ensures r.Some? ==> r in xs
  {
    if xs == [] then None
    else if xs[0].Some? then xs[0]
    else FirstSome(xs[1..])
  }

  /** `FirstSome` picks the earliest present value. */
  lemma {:induction false} FirstSomeAt<T>(xs: seq<Option<T>>, i: nat)
    requires i < |xs| && xs[i].Some?
    requires forall j :: 0 <= j < i ==> xs[j].None?
    ensures FirstSome(xs) == xs[i]
  {
    if i > 0 {
      var rest := xs[1..];
      assert rest[i - 1] == xs[i];
      FirstSomeAt(rest, i - 1);
    }
  }

  /** `FirstSome` finds nothing exactly when every value is absent. */
  lemma {:induction false} FirstSomeNone<T>(xs: seq<Option<T>>)
    ensures FirstSome(xs).None? <==> forall i :: 0 <= i < |xs| ==> xs[i].None?
  {
    if xs != [] {
      var rest := xs[1..];
      FirstSomeNone(rest);
      assert forall i :: 1 <= i < |xs| ==> xs[i] == rest[i - 1];
    }
  }

  /** One step of `FirstSome` from position `i` on. */
  lemma FirstSomeStep<T>(xs: seq<Option<T>>, i: nat)
    requires i < |xs|
    ensures FirstSome(xs[i..]) == if xs[i].Some? then xs[i] else FirstSome(xs[i + 1..])
  {
    assert xs[i..][0] == xs[i];
    assert xs[i..][1..] == xs[i + 1..];
  }

  /** The parse of every line of the tag listing, in order. */
  function LineTags(lines: seq<string>): (r: seq<Option<(string, Version)>>)
    ensures |r| == |lines| && forall i :: 0 <= i < |lines| ==> r[i] == LineTag(lines[i])
  {
    seq(|lines|, i requires 0 <= i < |lines| => LineTag(lines[i]))
  }

  /** The first line of `git tag --merged HEAD` that parses as a version tag. */
  function FirstParsable(lines: seq<string>): (r: Option<(string, Version)>)
    ensures r.Some? ==> ParseTag(r.value.0) == Some(r.value.1) && PyStrip(r.value.0) == r.value.0
  {
    var r := FirstSome(LineTags(lines));
    assert r.Some? ==> exists i :: 0 <= i < |lines| && r == LineTag(lines[i]);
    r
  }

  /** `FirstParsable` picks the earliest line that parses. */
  lemma FirstParsableAt(lines: seq<string>, i: nat)
    requires i < |lines| && LineTag(lines[i]).Some?
    requires forall j :: 0 <= j < i ==> LineTag(lines[j]).None?
    ensures FirstParsable(lines) == LineTag(lines[i])
  {
    FirstSomeAt(LineTags(lines), i);
  }

  /** `FirstParsable` finds nothing exactly when no line parses. */
  lemma FirstParsableNone(lines: seq<string>)
    ensures FirstParsable(lines).None? <==> forall i :: 0 <= i < |lines| ==> LineTag(lines[i]).None?
  {
    FirstSomeNone(LineTags(lines));
  }

  /** The fallback loop over `git tag --merged HEAD` output. */
  method FirstParsableTag(lines: seq<string>) returns (r: Option<(string, Version)>)
    ensures r == FirstParsable(lines)
  {
    var i := 0;
    ghost var tags := LineTags(lines);
    assert tags[0..] == tags;
    while i < |lines|
      invariant 0 <= i <= |lines|
      invariant FirstSome(tags) == FirstSome(tags[i..])
    {
      var found := LineTag(lines[i]);
      FirstSomeStep(tags, i);
      assert tags[i] == found;
      if found.Some? {
        return found;
      }
      i := i + 1;
    }
    return None;
  }

  /**
   * `get_latest_reachable_tag`, with git's answers as parameters: the
   * output of `git describe` (`None` when it failed) and the lines of the
   * tag listing (`None` when it failed). `None` is the exit with status 3.
   */
  method GetLatestReachableTag(describe: Option<string>, listed: Option<seq<string>>) returns (r: Option<(string, Version)>)
    ensures describe.Some? && PyStrip(describe.value) != "" && ParseTag(PyStrip(describe.value)).Some? ==>
      r == Some((PyStrip(describe.value), ParseTag(PyStrip(describe.value)).value))
    ensures !(describe.Some? && PyStrip(describe.value) != "" && ParseTag(PyStrip(describe.value)).Some?) ==>
      r == (if listed.Some? then FirstParsable(listed.value) else None)
    ensures r.Some? ==> ParseTag(r.value.0) == Some(r.value.1) && Tag(r.value.1) == r.value.0
  {
    if describe.Some? {
      var tag := PyStrip(describe.value);
      if tag != "" {
        var v := ParseTag(tag);
        if v.Some? {
          r := Some((tag, v.value));
          StripKeepsTrimmed(tag, IsPyWhitespace);
          ParseTagOnlyCanonical(tag);
          return;
        }
      }
    }
    if listed.Some? {
      r := FirstParsableTag(listed.value);
      if r.Some? {
        ParseTagOnlyCanonical(r.value.0);
      }
    } else {
      r := None;
    }
  }

  // ---------------------------------------------------------------------
  // The version written in the dashboard files
  // ---------------------------------------------------------------------

  /** What the script finds for one file: it is absent, or it holds this set of distinct `vX.Y.Z` strings. */
  datatype FileState = Missing | Present(versions: set<string>)

  datatype Problem =
    | NotFound(path: string)
    | NoVersion(path: string)
    | MultipleVersions(path: string, versions: set<string>)
    | Mismatch(path: string, found: string)

  /** A file is in order when it exists and all its version strings are the expected one. */
  predicate FileMatches(expected: string, state: FileState) {
    state.Present? && state.versions == {expected}
  }

  /** The problem reported for one file, if any. */
  function ClassifyFile(expected: string, path: string, state: FileState): (r: Option<Problem>)
    ensures r.None? <==> FileMatches(expected, state)
    ensures r.Some? ==> r.value.path == path
    ensures r == Some(NotFound(path)) <==> state.Missing?
    ensures r == Some(NoVersion(path)) <==> state.Present? && state.versions == {}
    ensures r.Some? && r.value.MultipleVersions? <==> state.Present? && |state.versions| > 1
  {
    match state
    case Missing => Some(NotFound(path))
    case Present(versions) =>
      if versions == {} then Some(NoVersion(path))
      else if |versions| > 1 then Some(MultipleVersions(path, versions))
      else
        var found :| found in versions;
        SingletonSet(versions, found);
        if found != expected then Some(Mismatch(path, found)) else None
  }

  /** Helper for `ClassifyFile`: a set of at most one element that holds `x` is `{x}`. */
  lemma SingletonSet(s: set<string>, x: string)
    requires x in s && |s| <= 1
    ensures s == {x}
  {
    var rest := s - {x};
    assert s == rest + {x} && x !in rest;
    assert |rest| == 0;
  }

  /** The problems of the files in order, one per offending file. */
  function ProblemsOf(expected: string, files: seq<(string, FileState)>): (r: seq<Problem>)
    ensures |r| <= |files|
    ensures r == [] <==> forall i :: 0 <= i < |files| ==> FileMatches(expected, files[i].1)
  {
    if files == [] then []
    else
      var p := ClassifyFile(expected, files[0].0, files[0].1);
      var rest := ProblemsOf(expected, files[1..]);
      assert forall i :: 1 <= i < |files| ==> files[i] == files[1..][i - 1];
      (if p.Some? then [p.value] else []) + rest
  }

  /** Helper for the loop of `EnsureVersionInFilesMatches`: concatenation is associative. */
  lemma ConcatAssoc<T>(a: seq<T>, b: seq<T>, c: seq<T>)
    ensures (a + b) + c == a + (b + c)
  {
  }

  lemma ProblemsStep(expected: string, files: seq<(string, FileState)>, i: nat)
    requires i < |files|
    ensures var p := ClassifyFile(expected, files[i].0, files[i].1);
      ProblemsOf(expected, files[i..]) == (if p.Some? then [p.value] else []) + ProblemsOf(expected, files[i + 1..])
  {
    assert files[i..][1..] == files[i + 1..];
  }

  /**
   * `ensure_version_in_files_matches`: the problems of every file, and the
   * exit status 8 when there is at least one.
   */
  method EnsureVersionInFilesMatches(expected: string, files: seq<(string, FileState)>)
    returns (problems: seq<Problem>, exitCode: Option<int>)
    ensures problems == ProblemsOf(expected, files)
    ensures exitCode == Some(8) <==> exists i :: 0 <= i < |files| && !FileMatches(expected, files[i].1)
    ensures exitCode.None? <==> forall i :: 0 <= i < |files| ==> FileMatches(expected, files[i].1)
  {
    problems := [];
    var i := 0;
    assert files[0..] == files;
    while i < |files|
      invariant 0 <= i <= |files|
      invariant problems + ProblemsOf(expected, files[i..]) == ProblemsOf(expected, files)
    {
      var p := ClassifyFile(expected, files[i].0, files[i].1);
      ProblemsStep(expected, files, i);
      var found := if p.Some? then [p.value] else [];
      ConcatAssoc(problems, found, ProblemsOf(expected, files[i + 1..]));
      assert (problems + found) + ProblemsOf(expected, files[i + 1..]) == problems + ProblemsOf(expected, files[i..]);
      problems := problems + found;
      i := i + 1;
    }
    assert problems == ProblemsOf(expected, files);
    exitCode := if problems != [] then Some(8) else None;
  }
}
