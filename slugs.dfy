/**
 * The slug pipeline shared by `Event.generateSlug`, `School.generateSlug` and
 * `Community.generateSlug`:
 *   toLowerCase -> replaceAll("[^a-z0-9\\s-]", "") -> replaceAll("\\s+", "-")
 *   -> replaceAll("-+", "-") -> trim
 * stated over ASCII (Java's Unicode case mapping is not modelled).
 */
module Slugs {

  import opened Wrappers
  import opened JavaString

  /** `Character.toLowerCase` on ASCII: only 'A'..'Z' change. */
  function LowerAscii(c: char): char
  {
    if 'A' <= c <= 'Z' then (c as int + 32) as char else c
  }

  /** The class `\s` of java.util.regex: space, \t, \n, \u000B, \f and \r. */
  predicate IsRegexSpace(c: char)
  {
    c == ' ' || c == '\t' || c == '\n' || c == '\r' || c as int == 11 || c as int == 12
  }

  /** The characters a slug is made of. */
  predicate IsSlugChar(c: char)
  {
    'a' <= c <= 'z' || '0' <= c <= '9' || c == '-'
  }

  /** The characters that survive `replaceAll("[^a-z0-9\\s-]", "")`. */
  predicate IsKept(c: char)
  {
    IsSlugChar(c) || IsRegexSpace(c)
  }

  predicate AllSlugChars(s: string)
  {
    forall i :: 0 <= i < |s| ==> IsSlugChar(s[i])
  }

  predicate NoDoubleHyphen(s: string)
  {
    forall i :: 0 <= i < |s| - 1 ==> !(s[i] == '-' && s[i + 1] == '-')
  }

  /** What every generated slug looks like. */
  predicate IsSlug(s: string)
  {
    AllSlugChars(s) && NoDoubleHyphen(s)
  }

  /** Stage 1, `toLowerCase()`. */
  function LowerCase(s: string): (r: string)
    ensures |r| == |s|
    ensures forall i :: 0 <= i < |s| ==> r[i] == LowerAscii(s[i])
  {
    seq(|s|, i requires 0 <= i < |s| => LowerAscii(s[i]))
  }

  /** Stage 2, `replaceAll("[^a-z0-9\\s-]", "")`. */
  function StripDisallowed(s: string): (r: string)
    ensures |r| <= |s|
    ensures forall i :: 0 <= i < |r| ==> IsKept(r[i])
    ensures (forall i :: 0 <= i < |s| ==> IsKept(s[i])) ==> r == s
  {
    if s == [] then []
    else (if IsKept(s[0]) then [s[0]] else []) + StripDisallowed(s[1..])
  }

  /** Stage 3, `replaceAll("\\s+", "-")`: each maximal run of spaces becomes one '-'. */
  function HyphenateSpaces(s: string): (r: string)
    ensures |r| <= |s|
    ensures forall i :: 0 <= i < |r| ==> !IsRegexSpace(r[i])
    ensures (forall i :: 0 <= i < |s| ==> IsKept(s[i])) ==> AllSlugChars(r)
    ensures (forall i :: 0 <= i < |s| ==> !IsRegexSpace(s[i])) ==> r == s
  {
    if s == [] then []
    else if IsRegexSpace(s[0]) then
      if |s| > 1 && IsRegexSpace(s[1]) then HyphenateSpaces(s[1..])
      else ['-'] + HyphenateSpaces(s[1..])
    else [s[0]] + HyphenateSpaces(s[1..])
  }

  /** Stage 4, `replaceAll("-+", "-")`: each maximal run of '-' becomes one '-'. */
  function CollapseHyphens(s: string): (r: string)
    ensures |r| <= |s|
    ensures s != [] ==> r != [] && r[0] == s[0]
    ensures NoDoubleHyphen(r)
    ensures AllSlugChars(s) ==> AllSlugChars(r)
    ensures NoDoubleHyphen(s) ==> r == s
  {
    if |s| <= 1 then s
    else if s[0] == '-' && s[1] == '-' then CollapseHyphens(s[1..])
    else [s[0]] + CollapseHyphens(s[1..])
  }

  /** The whole pipeline on a non-null title. */
  function Slugify(title: string): (r: string)
    ensures IsSlug(r)
    ensures |r| <= |title|
  {
    var kept := StripDisallowed(LowerCase(title));
    var hyphenated := HyphenateSpaces(kept);
    assert AllSlugChars(hyphenated);
    var collapsed := CollapseHyphens(hyphenated);
    assert collapsed != [] ==> IsSlugChar(collapsed[0]) && IsSlugChar(collapsed[|collapsed| - 1]);
    Trim(collapsed)
  }

  /** `generateSlug(title)` of Event and School: a null title gives "". */
  function GenerateSlug(title: Option<string>): (r: string)
    ensures title.None? ==> r == []
    ensures IsSlug(r)
  {
    match title
    case None => []
    case Some(t) => Slugify(t)
  }

  /** A string that already has the shape of a slug passes through unchanged. */
  lemma SlugifyFixesSlugs(s: string)
    requires IsSlug(s)
    ensures Slugify(s) == s
  {
    SlugCharsSurviveStages(s);
    assert s == [] || (!TrimsAway(s[0]) && !TrimsAway(s[|s| - 1])) by {
      if s != [] {
        assert IsSlugChar(s[0]) && IsSlugChar(s[|s| - 1]);
      }
    }
  }

  /** Slug characters pass the first three stages unchanged. */
  lemma SlugCharsSurviveStages(s: string)
    requires IsSlug(s)
    ensures CollapseHyphens(HyphenateSpaces(StripDisallowed(LowerCase(s)))) == s
  {
    assert LowerCase(s) == s;
    assert forall i :: 0 <= i < |s| ==> IsKept(s[i]) && !IsRegexSpace(s[i]);
  }

  /** Generating a slug from a generated slug changes nothing. */
  lemma SlugifyIdempotent(title: string)
    ensures Slugify(Slugify(title)) == Slugify(title)
  {
    SlugifyFixesSlugs(Slugify(title));
  }
}
