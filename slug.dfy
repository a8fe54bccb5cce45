/**
 * `getSlugFromString` of the create-tag form: a pipeline of five stages, each
 * its own function here. The input is put in canonical decomposition (NFD);
 * combining diacritical marks are deleted; the text is lowercased; every
 * character that is neither a word character nor whitespace is deleted; and
 * every maximal run of whitespace becomes one hyphen. There is no trimming.
 *
 * Canonical decomposition and Unicode lowercasing are library calls whose
 * tables are not modelled; they are parameters of the pipeline, constrained by
 * `IsNfd` and `IsLowerCaseMapping`.
 */
module Slug {
  import opened Text
  import opened Wrappers

  /** What the model relies on of `normalize('NFD')`: it leaves ASCII text unchanged. */
  ghost predicate IsNfd(nfd: string -> string)
  {
    forall s :: AllAscii(s) ==> nfd(s) == s
  }

  /**
   * A further property of `normalize('NFD')`, used only where whitespace at
   * the ends of a name matters: text that starts (ends) with whitespace still
   * starts (ends) with whitespace. No whitespace character is a combining
   * character, and the two that decompose (U+2000, U+2001) decompose to
   * whitespace.
   */
  ghost predicate KeepsEdgeSpace(nfd: string -> string)
  {
    && (forall s {:trigger nfd(s)} :: s != [] && IsSpace(s[0]) ==> nfd(s) != [] && IsSpace(nfd(s)[0]))
    && (forall s {:trigger nfd(s)} :: s != [] && IsSpace(s[|s| - 1]) ==> nfd(s) != [] && IsSpace(nfd(s)[|nfd(s)| - 1]))
  }

  /**
   * What the model relies on of `toLowerCase`, read character by character
   * (a character may lower to several, as U+0130 does): ASCII lowers by
   * `A-Z` to `a-z`; no result contains `A-Z`; whitespace is left alone; and
   * no other character lowers to whitespace.
   */
  ghost predicate IsLowerCaseMapping(lower: char -> string)
  {
    && (forall c :: IsAscii(c) ==> lower(c) == [ToAsciiLower(c)])
    && (forall c, i :: 0 <= i < |lower(c)| ==> !IsAsciiUpper(lower(c)[i]))
    && (forall c :: IsSpace(c) ==> lower(c) == [c])
    && (forall c, i :: !IsSpace(c) && 0 <= i < |lower(c)| ==> !IsSpace(lower(c)[i]))
  }

  /** Stage 2: delete every character in U+0300 to U+036F. */
  function StripMarks(s: string): (r: string)
    ensures forall i :: 0 <= i < |r| ==> !IsCombiningMark(r[i])
  {
    if s == [] then []
    else if IsCombiningMark(s[0]) then StripMarks(s[1..])
    else [s[0]] + StripMarks(s[1..])
  }

  /** Stage 3: lowercase every character with `lower`. */
  function LowerCase(s: string, lower: char -> string): string
  {
    if s == [] then [] else lower(s[0]) + LowerCase(s[1..], lower)
  }

  /** Stage 4: delete every character that is neither `\w` nor `\s`. */
  function KeepWordOrSpace(s: string): (r: string)
    ensures forall i :: 0 <= i < |r| ==> IsWordChar(r[i]) || IsSpace(r[i])
  {
    if s == [] then []
    else if IsWordChar(s[0]) || IsSpace(s[0]) then [s[0]] + KeepWordOrSpace(s[1..])
    else KeepWordOrSpace(s[1..])
  }

  /**
   * Stage 5, as the global replacement scans the text: the first whitespace
   * character of a run writes `-`, the rest of the run writes nothing.
   * `afterSpace` says whether the character before `s` was whitespace.
   */
  function HyphenateFrom(s: string, afterSpace: bool): (r: string)
    ensures forall i :: 0 <= i < |r| ==> !IsSpace(r[i])
  {
    if s == [] then []
    else if IsSpace(s[0]) then (if afterSpace then [] else "-") + HyphenateFrom(s[1..], true)
    else [s[0]] + HyphenateFrom(s[1..], false)
  }

  /** Stage 5: replace each maximal run of whitespace by a single `-`. */
  function Hyphenate(s: string): (r: string)
    ensures forall i :: 0 <= i < |r| ==> !IsSpace(r[i])
  {
    HyphenateFrom(s, false)
  }

  /** The suffix of `s` left after its leading run of whitespace. */
  function DropSpaces(s: string): (r: string)
    ensures |r| <= |s| && r == s[|s| - |r|..]
    ensures r == [] || !IsSpace(r[0])
    ensures forall i :: 0 <= i < |s| - |r| ==> IsSpace(s[i])
  {
    if s != [] && IsSpace(s[0]) then DropSpaces(s[1..]) else s
  }

  /** Stages 2 to 5, applied to text that is already decomposed. */
  function SlugOfNormalized(t: string, lower: char -> string): string
  {
    Hyphenate(KeepWordOrSpace(LowerCase(StripMarks(t), lower)))
  }

  /** `getSlugFromString(input)`. On ASCII input the decomposition does nothing,
      so the slug is that of the input itself. */
  function SlugFromString(input: string, nfd: string -> string, lower: char -> string): (r: string)
    ensures IsNfd(nfd) && AllAscii(input) ==> r == SlugOfNormalized(input, lower)
  {
    SlugOfNormalized(nfd(input), lower)
  }

  /** The read-only slug field: `getSlugFromString(watch('name') ?? '')`. */
  function SlugField(name: Option<string>, nfd: string -> string, lower: char -> string): (r: string)
    requires IsNfd(nfd)
    ensures name.None? ==> r == []
    ensures name.Some? ==> r == SlugFromString(name.value, nfd, lower)
  {
    assert AllAscii([]);
    SlugFromString(name.GetOr([]), nfd, lower)
  }
}
