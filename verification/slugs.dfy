/**
 * The strings used as HTML ids and CSS hooks for allocation names:
 * `allocationSlug` in the current code, `createHtmlIdFromString` in v1.4.3,
 * which additionally drops commas.
 */
module Slugs {
  import opened Text

  /** No character the slug removes or replaces, and no upper-case ASCII letter. */
  predicate IsSlugShaped(s: string) {
    forall c :: c in s ==> c != ' ' && c != '(' && c != ')' && c != ':' && !('A' <= c <= 'Z')
  }

  /** Lowering and replacing spaces leaves neither a space nor an upper-case ASCII letter. */
  lemma LoweredShape(name: string)
    ensures forall c :: c in ReplaceChar(LowerAscii(name), ' ', '-') ==> c != ' ' && !('A' <= c <= 'Z')
  {
    var lowered := ReplaceChar(LowerAscii(name), ' ', '-');
    forall c | c in lowered
      ensures c != ' ' && !('A' <= c <= 'Z')
    {
      var i :| 0 <= i < |lowered| && lowered[i] == c;
    }
  }

  /** `allocationSlug`: lower-case, spaces to hyphens, parentheses and colons dropped. */
  function AllocationSlug(name: string): (r: string)
    ensures IsSlugShaped(r)
    ensures |r| <= |name|
  {
    var lowered := ReplaceChar(LowerAscii(name), ' ', '-');
    var a := RemoveChar(lowered, '(');
    var b := RemoveChar(a, ')');
    var r := RemoveChar(b, ':');
    LoweredShape(name);
    assert forall c :: c in r ==> c in b && c in a && c in lowered;
    r
  }

  /** `createHtmlIdFromString` (v1.4.3): the same steps with commas also dropped after the parentheses. */
  function CreateHtmlIdFromString(name: string): (r: string)
    ensures IsSlugShaped(r) && ',' !in r
  {
    var lowered := ReplaceChar(LowerAscii(name), ' ', '-');
    var a := RemoveChar(lowered, '(');
    var b := RemoveChar(a, ',');
    var c := RemoveChar(b, ')');
    var r := RemoveChar(c, ':');
    LoweredShape(name);
    assert forall x :: x in r ==> x in c && x in b && x in a && x in lowered;
    r
  }

  /** Slugging a slug changes nothing. */
  lemma AllocationSlugIdempotent(name: string)
    ensures AllocationSlug(AllocationSlug(name)) == AllocationSlug(name)
  {
    var s := AllocationSlug(name);
    assert forall i :: 0 <= i < |s| ==> s[i] in s;
    assert LowerAscii(s) == s;
    assert ReplaceChar(s, ' ', '-') == s;
    RemoveCharAbsent(s, '(');
    RemoveCharAbsent(s, ')');
    RemoveCharAbsent(s, ':');
  }

  /** What the slug makes of one character: dropped, turned into a hyphen, or lower-cased. */
  function SlugChar(c: char, dropComma: bool): string {
    if c == '(' || c == ')' || c == ':' || (dropComma && c == ',') then []
    else [if c == ' ' then '-' else LowerChar(c)]
  }

  /** A reference definition: the slug is the per-character map, in order. */
  function SlugOf(name: string, dropComma: bool): string {
    if name == [] then [] else SlugChar(name[0], dropComma) + SlugOf(name[1..], dropComma)
  }

  lemma LowerReplaceAppend(a: string, b: string)
    ensures ReplaceChar(LowerAscii(a + b), ' ', '-') == ReplaceChar(LowerAscii(a), ' ', '-') + ReplaceChar(LowerAscii(b), ' ', '-')
  {
  }

  /** The slug of a concatenation is the concatenation of the slugs. */
  lemma AllocationSlugAppend(a: string, b: string)
    ensures AllocationSlug(a + b) == AllocationSlug(a) + AllocationSlug(b)
  {
    var la, lb := ReplaceChar(LowerAscii(a), ' ', '-'), ReplaceChar(LowerAscii(b), ' ', '-');
    LowerReplaceAppend(a, b);
    RemoveCharAppend(la, lb, '(');
    RemoveCharAppend(RemoveChar(la, '('), RemoveChar(lb, '('), ')');
    RemoveCharAppend(RemoveChar(RemoveChar(la, '('), ')'), RemoveChar(RemoveChar(lb, '('), ')'), ':');
  }

  /** The archived id of a concatenation is the concatenation of the ids. */
  lemma HtmlIdAppend(a: string, b: string)
    ensures CreateHtmlIdFromString(a + b) == CreateHtmlIdFromString(a) + CreateHtmlIdFromString(b)
  {
    HtmlIdIsSlugWithoutCommas(a + b);
    HtmlIdIsSlugWithoutCommas(a);
    HtmlIdIsSlugWithoutCommas(b);
    AllocationSlugAppend(a, b);
    RemoveCharAppend(AllocationSlug(a), AllocationSlug(b), ',');
  }

  /** The slug of a single character. */
  lemma AllocationSlugOfChar(c: char)
    ensures AllocationSlug([c]) == SlugChar(c, false)
  {
    var l := ReplaceChar(LowerAscii([c]), ' ', '-');
    assert l == [if c == ' ' then '-' else LowerChar(c)];
    assert l[1..] == [];
  }

  /** `allocationSlug` is the per-character map: every kept character stays in its place, in order. */
  lemma {:induction false} AllocationSlugIsSlugOf(name: string)
    ensures AllocationSlug(name) == SlugOf(name, false)
  {
    if name != [] {
      assert name == [name[0]] + name[1..];
      AllocationSlugAppend([name[0]], name[1..]);
      AllocationSlugOfChar(name[0]);
      AllocationSlugIsSlugOf(name[1..]);
    }
  }

  /** The archived id is the per-character map that also drops commas. */
  lemma {:induction false} HtmlIdIsSlugOf(name: string)
    ensures CreateHtmlIdFromString(name) == SlugOf(name, true)
  {
    if name != [] {
      assert name == [name[0]] + name[1..];
      HtmlIdAppend([name[0]], name[1..]);
      HtmlIdIsSlugWithoutCommas([name[0]]);
      AllocationSlugOfChar(name[0]);
      HtmlIdIsSlugOf(name[1..]);
    }
  }

  /**
   * A name without parentheses or colons keeps its length: each space
   * becomes a hyphen and every other character is lower-cased in place.
   */
  lemma AllocationSlugOfPlainName(name: string)
    requires '(' !in name && ')' !in name && ':' !in name
    ensures var r := AllocationSlug(name);
      |r| == |name| && forall i :: 0 <= i < |name| ==> r[i] == if name[i] == ' ' then '-' else LowerChar(name[i])
  {
    var lowered := ReplaceChar(LowerAscii(name), ' ', '-');
    forall i | 0 <= i < |lowered|
      ensures lowered[i] != '(' && lowered[i] != ')' && lowered[i] != ':'
    {
      assert name[i] in name;
    }
    RemoveCharAbsent(lowered, '(');
    RemoveCharAbsent(lowered, ')');
    RemoveCharAbsent(lowered, ':');
  }

  /** The v1.4.3 id is the current slug with its commas removed. */
  lemma HtmlIdIsSlugWithoutCommas(name: string)
    ensures CreateHtmlIdFromString(name) == RemoveChar(AllocationSlug(name), ',')
  {
    var lowered := ReplaceChar(LowerAscii(name), ' ', '-');
    var a := RemoveChar(lowered, '(');
    RemoveCharCommutes(a, ',', ')');
    RemoveCharCommutes(RemoveChar(a, ')'), ',', ':');
  }
}
