/**
 * The one decision the single-file build makes on its own: whether a
 * `href`/`src` attribute names a local asset to inline, or something the
 * browser fetches (a remote URL, a protocol-relative URL, a data URI).
 */
module BuildAllInOne {
  import opened Wrappers
  import opened Text

  /** The prefixes that mark a reference as not local, compared case-sensitively. */
  const RemotePrefixes: seq<string> := ["http://", "https://", "//", "data:"]

  /** `s` begins with one of the remote prefixes. */
  predicate IsRemote(s: string) {
    exists k :: 0 <= k < |RemotePrefixes| && StartsWith(s, RemotePrefixes[k])
  }

  /** `IsRemote` spelled out prefix by prefix. */
  lemma IsRemoteCases(s: string)
    ensures IsRemote(s) <==>
      StartsWith(s, "http://") || StartsWith(s, "https://") || StartsWith(s, "//") || StartsWith(s, "data:")
  {
    if StartsWith(s, "http://") {
      assert StartsWith(s, RemotePrefixes[0]);
    } else if StartsWith(s, "https://") {
      assert StartsWith(s, RemotePrefixes[1]);
    } else if StartsWith(s, "//") {
      assert StartsWith(s, RemotePrefixes[2]);
    } else if StartsWith(s, "data:") {
      assert StartsWith(s, RemotePrefixes[3]);
    }
  }

  /**
   * `is_local_href`: a missing or empty attribute is not local; otherwise the
   * stripped value is local unless it begins with a remote prefix. The
   * emptiness test looks at the value before it is stripped.
   */
  function IsLocalHref(src: Option<string>): (r: bool)
    ensures src.None? || src.value == "" ==> !r
    ensures src.Some? && src.value != "" ==> (r <==> !IsRemote(PyStrip(src.value)))
  {
    if src.None? || src.value == "" then false
    else
      var s := PyStrip(src.value);
      IsRemoteCases(s);
      !(StartsWith(s, "http://") || StartsWith(s, "https://") || StartsWith(s, "//") || StartsWith(s, "data:"))
  }

  /** Surrounding whitespace never changes the answer for a non-blank reference. */
  lemma PaddingIrrelevant(padLeft: string, s: string, padRight: string)
    requires s != [] && !IsPyWhitespace(s[0]) && !IsPyWhitespace(s[|s| - 1])
    requires forall i :: 0 <= i < |padLeft| ==> IsPyWhitespace(padLeft[i])
    requires forall i :: 0 <= i < |padRight| ==> IsPyWhitespace(padRight[i])
    ensures IsLocalHref(Some(padLeft + s + padRight)) == IsLocalHref(Some(s))
  {
    StripPadded(padLeft, s, padRight);
    StripPadded([], s, []);
    assert [] + s + [] == s;
  }

  /** Every remote prefix is non-empty and begins and ends with a non-whitespace character. */
  lemma PrefixesTrimmed(k: nat)
    requires k < |RemotePrefixes|
    ensures var p := RemotePrefixes[k]; p != [] && !IsPyWhitespace(p[0]) && !IsPyWhitespace(p[|p| - 1])
  {
  }

  /** A remote prefix followed by anything, with any whitespace around it, is not local. */
  lemma RemoteIsNotLocal(padLeft: string, k: nat, rest: string, padRight: string)
    requires k < |RemotePrefixes|
    requires rest == [] || !IsPyWhitespace(rest[|rest| - 1])
    requires forall i :: 0 <= i < |padLeft| ==> IsPyWhitespace(padLeft[i])
    requires forall i :: 0 <= i < |padRight| ==> IsPyWhitespace(padRight[i])
    ensures !IsLocalHref(Some(padLeft + (RemotePrefixes[k] + rest) + padRight))
  {
    var p := RemotePrefixes[k];
    var t := p + rest;
    PrefixesTrimmed(k);
    assert t[0] == p[0];
    assert t[|t| - 1] == if rest == [] then p[|p| - 1] else rest[|rest| - 1];
    StripPadded(padLeft, t, padRight);
    assert t[..|p|] == p;
    assert IsRemote(t);
  }

  /** A non-empty value made only of whitespace strips to nothing, and nothing is local. */
  lemma BlankIsLocal(s: string)
    requires s != [] && forall i :: 0 <= i < |s| ==> IsPyWhitespace(s[i])
    ensures IsLocalHref(Some(s))
  {
    StripEmptyIff(s, IsPyWhitespace);
  }

  /**
   * A trimmed reference that does not start like any remote prefix (a
   * relative path, or an upper-case scheme such as `HTTP://`) is local.
   */
  lemma RelativeIsLocal(s: string)
    requires s != [] && !IsPyWhitespace(s[0]) && !IsPyWhitespace(s[|s| - 1])
    requires s[0] != 'h' && s[0] != '/' && s[0] != 'd'
    ensures IsLocalHref(Some(s))
  {
    StripKeepsTrimmed(s, IsPyWhitespace);
    forall k | 0 <= k < |RemotePrefixes|
      ensures !StartsWith(s, RemotePrefixes[k])
    {
      assert RemotePrefixes[k][0] in "h/d";
    }
  }

  /** The prefix test is case-sensitive: an upper-case scheme counts as a local path. */
  lemma UpperCaseSchemeIsLocal()
    ensures IsLocalHref(Some("HTTP://example.com/app.css"))
  {
    RelativeIsLocal("HTTP://example.com/app.css");
  }
}
