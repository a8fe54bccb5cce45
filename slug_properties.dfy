/** What `getSlugFromString` guarantees, stage by stage and end to end. */
module SlugProperties {
  import opened Text
  import opened Slug

  /** `s` with every `-` deleted. */
  function DeleteHyphens(s: string): (r: string)
    ensures '-' !in r
  {
    if s == [] then []
    else if s[0] == '-' then DeleteHyphens(s[1..])
    else [s[0]] + DeleteHyphens(s[1..])
  }

  /** `s` with every whitespace character deleted. */
  function DeleteSpaces(s: string): string
  {
    if s == [] then []
    else if IsSpace(s[0]) then DeleteSpaces(s[1..])
    else [s[0]] + DeleteSpaces(s[1..])
  }

  /** Reference reading of stage 5, first half: delete every whitespace
      character that is immediately followed by another one. */
  function SqueezeSpaces(s: string): string
  {
    if s == [] then []
    else if |s| >= 2 && IsSpace(s[0]) && IsSpace(s[1]) then SqueezeSpaces(s[1..])
    else [s[0]] + SqueezeSpaces(s[1..])
  }

  /** Reference reading of stage 5, second half: write `-` for every
      whitespace character. */
  function SpacesToHyphens(s: string): string
  {
    if s == [] then [] else [if IsSpace(s[0]) then '-' else s[0]] + SpacesToHyphens(s[1..])
  }

  predicate NoDoubleHyphen(s: string)
  {
    forall i :: 0 <= i < |s| - 1 ==> s[i] != '-' || s[i + 1] != '-'
  }

  predicate NoSpace(s: string)
  {
    forall i :: 0 <= i < |s| ==> !IsSpace(s[i])
  }

  // ---------------------------------------------------------------------------
  // Stage 5 as the replacement of maximal whitespace runs

  /** Inside a run, the remaining whitespace writes nothing. */
  lemma {:induction false} HyphenateAfterSpace(s: string)
    ensures HyphenateFrom(s, true) == Hyphenate(DropSpaces(s))
    decreases |s|
  {
    if s != [] && IsSpace(s[0]) {
      HyphenateAfterSpace(s[1..]);
    }
  }

  /** Each maximal whitespace run, the one at the front included, becomes
      exactly one `-`; every other character is copied. */
  lemma HyphenateUnfold(s: string)
    requires s != []
    ensures IsSpace(s[0]) ==> Hyphenate(s) == "-" + Hyphenate(DropSpaces(s[1..]))
    ensures !IsSpace(s[0]) ==> Hyphenate(s) == [s[0]] + Hyphenate(s[1..])
  {
    if IsSpace(s[0]) {
      HyphenateAfterSpace(s[1..]);
    }
  }

  // ---------------------------------------------------------------------------
  // Stage 5 against its reference reading

  lemma {:induction false} SqueezeRun(s: string)
    requires s != [] && IsSpace(s[0])
    ensures SpacesToHyphens(SqueezeSpaces(s)) == "-" + SpacesToHyphens(SqueezeSpaces(DropSpaces(s[1..])))
    decreases |s|
  {
    if |s| >= 2 && IsSpace(s[1]) {
      assert s[1..][1..] == s[2..];
      SqueezeRun(s[1..]);
    } else {
      var rest := SqueezeSpaces(s[1..]);
      assert ([s[0]] + rest)[1..] == rest;
    }
  }

  /** Replacing each maximal whitespace run by `-` is the same as squeezing
      every run to one character and then turning whitespace into `-`. */
  lemma {:induction false} HyphenateIsSqueezeThenReplace(s: string)
    ensures Hyphenate(s) == SpacesToHyphens(SqueezeSpaces(s))
    decreases |s|
  {
    if s == [] {
    } else if IsSpace(s[0]) {
      HyphenateUnfold(s);
      HyphenateIsSqueezeThenReplace(DropSpaces(s[1..]));
      SqueezeRun(s);
    } else {
      HyphenateUnfold(s);
      HyphenateIsSqueezeThenReplace(s[1..]);
      var rest := SqueezeSpaces(s[1..]);
      assert ([s[0]] + rest)[1..] == rest;
    }
  }

  lemma {:induction false} DropSpacesKeepsNoHyphen(s: string)
    requires '-' !in s
    ensures '-' !in DropSpaces(s)
    decreases |s|
  {
    if s != [] && IsSpace(s[0]) {
      assert s == [s[0]] + s[1..];
      DropSpacesKeepsNoHyphen(s[1..]);
    }
  }

  lemma NoHyphenInTail(s: string)
    requires s != [] && '-' !in s
    ensures '-' !in s[1..] && s[0] != '-'
  {
    assert s == [s[0]] + s[1..];
  }

  /** Text starting with a non-space character: stage 5 copies it first. */
  lemma HyphenateHead(t: string)
    requires t != [] && !IsSpace(t[0])
    ensures Hyphenate(t) != [] && Hyphenate(t)[0] == t[0]
  {
  }

  lemma NoDoubleHyphenCons(c: char, h: string)
    requires NoDoubleHyphen(h)
    requires h == [] || c != '-' || h[0] != '-'
    ensures NoDoubleHyphen([c] + h)
  {
    var r := [c] + h;
    forall i | 0 <= i < |r| - 1 ensures r[i] != '-' || r[i + 1] != '-' {
      if i > 0 {
        assert r[i] == h[i - 1] && r[i + 1] == h[i];
      }
    }
  }

  /** When the text holds no `-` of its own, stage 5 never writes two in a row. */
  lemma {:induction false} HyphenateNoDoubleHyphen(s: string)
    requires '-' !in s
    ensures NoDoubleHyphen(Hyphenate(s))
    decreases |s|
  {
    if s != [] {
      HyphenateUnfold(s);
      NoHyphenInTail(s);
      if IsSpace(s[0]) {
        var t := DropSpaces(s[1..]);
        DropSpacesKeepsNoHyphen(s[1..]);
        HyphenateNoDoubleHyphen(t);
        if t != [] {
          HyphenateHead(t);
        }
        NoDoubleHyphenCons('-', Hyphenate(t));
      } else {
        HyphenateNoDoubleHyphen(s[1..]);
        NoDoubleHyphenCons(s[0], Hyphenate(s[1..]));
      }
    }
  }

  lemma {:induction false} DeleteSpacesOfDropSpaces(s: string)
    ensures DeleteSpaces(DropSpaces(s)) == DeleteSpaces(s)
    decreases |s|
  {
    if s != [] && IsSpace(s[0]) {
      DeleteSpacesOfDropSpaces(s[1..]);
    }
  }

  lemma DeleteHyphensCons(c: char, h: string)
    ensures DeleteHyphens([c] + h) == if c == '-' then DeleteHyphens(h) else [c] + DeleteHyphens(h)
  {
    assert ([c] + h)[1..] == h;
  }

  /** Every `-` that stage 5 writes stands for whitespace: deleting the
      hyphens from its result gives the input with its whitespace deleted. */
  lemma {:induction false} HyphenateHyphensAreSpaces(s: string)
    requires '-' !in s
    ensures DeleteHyphens(Hyphenate(s)) == DeleteSpaces(s)
    decreases |s|
  {
    if s != [] {
      HyphenateUnfold(s);
      NoHyphenInTail(s);
      if IsSpace(s[0]) {
        var t := DropSpaces(s[1..]);
        DropSpacesKeepsNoHyphen(s[1..]);
        HyphenateHyphensAreSpaces(t);
        DeleteSpacesOfDropSpaces(s[1..]);
        DeleteHyphensCons('-', Hyphenate(t));
      } else {
        HyphenateHyphensAreSpaces(s[1..]);
        DeleteHyphensCons(s[0], Hyphenate(s[1..]));
      }
    }
  }

  lemma LastOfConcat(a: string, h: string)
    requires h != []
    ensures (a + h)[|a + h| - 1] == h[|h| - 1]
  {
  }

  lemma {:induction false} HyphenateFromTrailingSpace(s: string, afterSpace: bool)
    requires s != [] && IsSpace(s[|s| - 1])
    ensures !afterSpace ==> HyphenateFrom(s, afterSpace) != []
    ensures HyphenateFrom(s, afterSpace) != [] ==>
      HyphenateFrom(s, afterSpace)[|HyphenateFrom(s, afterSpace)| - 1] == '-'
    decreases |s|
  {
    var u := s[1..];
    if u == [] {
      assert HyphenateFrom(u, true) == [];
    } else {
      assert u[|u| - 1] == s[|s| - 1];
      var space := IsSpace(s[0]);
      HyphenateFromTrailingSpace(u, space);
      var h := HyphenateFrom(u, space);
      if h != [] {
        LastOfConcat(if space then (if afterSpace then [] else "-") else [s[0]], h);
      }
    }
  }

  /** Text ending in whitespace gives a result ending in `-`. */
  lemma HyphenateTrailingSpace(s: string)
    requires s != [] && IsSpace(s[|s| - 1])
    ensures Hyphenate(s) != [] && Hyphenate(s)[|Hyphenate(s)| - 1] == '-'
  {
    HyphenateFromTrailingSpace(s, false);
  }

  /** Stage 5 writes only `-` and characters of its input. */
  lemma {:induction false} HyphenateChars(s: string)
    ensures forall c :: c in Hyphenate(s) ==> c == '-' || c in s
    decreases |s|
  {
    if s == [] {
    } else if IsSpace(s[0]) {
      HyphenateUnfold(s);
      var t := DropSpaces(s[1..]);
      HyphenateChars(t);
      assert forall c :: c in t ==> c in s;
    } else {
      HyphenateUnfold(s);
      HyphenateChars(s[1..]);
    }
  }

  /** A whitespace-free prefix passes stage 5 unchanged. */
  lemma {:induction false} HyphenatePassesWord(w: string, t: string)
    requires NoSpace(w)
    ensures Hyphenate(w + t) == w + Hyphenate(t)
    decreases |w|
  {
    if w != [] {
      HyphenateUnfold(w + t);
      assert (w + t)[1..] == w[1..] + t;
      HyphenatePassesWord(w[1..], t);
    } else {
      assert w + t == t;
    }
  }

  /** A maximal whitespace run at the front becomes one `-`. */
  lemma {:induction false} HyphenateSpaceRun(run: string, t: string)
    requires run != [] && forall i :: 0 <= i < |run| ==> IsSpace(run[i])
    requires t == [] || !IsSpace(t[0])
    ensures Hyphenate(run + t) == "-" + Hyphenate(t)
    decreases |run|
  {
    var s := run + t;
    assert s[0] == run[0] && IsSpace(s[0]);
    assert s[1..] == run[1..] + t;
    DropSpacesOfRun(run[1..], t);
    HyphenateUnfold(s);
  }

  lemma {:induction false} DropSpacesOfRun(run: string, t: string)
    requires forall i :: 0 <= i < |run| ==> IsSpace(run[i])
    requires t == [] || !IsSpace(t[0])
    ensures DropSpaces(run + t) == t
    decreases |run|
  {
    if run != [] {
      assert (run + t)[1..] == run[1..] + t;
      DropSpacesOfRun(run[1..], t);
    } else {
      assert run + t == t;
    }
  }

  /** Text without whitespace passes stage 5 unchanged. */
  lemma {:induction false} HyphenateWithoutSpace(s: string)
    requires NoSpace(s)
    ensures Hyphenate(s) == s
    decreases |s|
  {
    if s != [] {
      HyphenateUnfold(s);
      HyphenateWithoutSpace(s[1..]);
    }
  }

  // ---------------------------------------------------------------------------
  // Stages 2 to 4

  /** Stage 2 keeps exactly the characters outside U+0300 to U+036F. */
  lemma {:induction false} StripMarksKeeps(s: string)
    ensures forall c :: c in StripMarks(s) <==> c in s && !IsCombiningMark(c)
    ensures (forall i :: 0 <= i < |s| ==> !IsCombiningMark(s[i])) ==> StripMarks(s) == s
    decreases |s|
  {
    if s != [] {
      StripMarksKeeps(s[1..]);
      assert forall c :: c in s <==> c == s[0] || c in s[1..];
    }
  }

  /** ASCII text has no combining marks to delete. */
  lemma StripMarksOfAscii(s: string)
    requires AllAscii(s)
    ensures StripMarks(s) == s
  {
    StripMarksKeeps(s);
  }

  /** Stage 4 keeps exactly the word characters and the whitespace. */
  lemma {:induction false} KeepWordOrSpaceKeeps(s: string)
    ensures forall c :: c in KeepWordOrSpace(s) <==> c in s && (IsWordChar(c) || IsSpace(c))
    ensures (forall i :: 0 <= i < |s| ==> IsWordChar(s[i]) || IsSpace(s[i])) ==> KeepWordOrSpace(s) == s
    decreases |s|
  {
    if s != [] {
      KeepWordOrSpaceKeeps(s[1..]);
      assert forall c :: c in s <==> c == s[0] || c in s[1..];
    }
  }

  lemma {:induction false} StripMarksAppend(a: string, b: string)
    ensures StripMarks(a + b) == StripMarks(a) + StripMarks(b)
    decreases |a|
  {
    if a != [] {
      assert (a + b)[1..] == a[1..] + b;
      StripMarksAppend(a[1..], b);
    } else {
      assert a + b == b;
    }
  }

  lemma {:induction false} LowerCaseAppend(a: string, b: string, lower: char -> string)
    ensures LowerCase(a + b, lower) == LowerCase(a, lower) + LowerCase(b, lower)
    decreases |a|
  {
    if a != [] {
      assert (a + b)[1..] == a[1..] + b;
      LowerCaseAppend(a[1..], b, lower);
    } else {
      assert a + b == b;
    }
  }

  lemma {:induction false} KeepWordOrSpaceAppend(a: string, b: string)
    ensures KeepWordOrSpace(a + b) == KeepWordOrSpace(a) + KeepWordOrSpace(b)
    decreases |a|
  {
    if a != [] {
      assert (a + b)[1..] == a[1..] + b;
      KeepWordOrSpaceAppend(a[1..], b);
    } else {
      assert a + b == b;
    }
  }

  /** Lowercasing never yields `A-Z`. */
  lemma {:induction false} LowerCaseNoUpper(s: string, lower: char -> string)
    requires IsLowerCaseMapping(lower)
    ensures forall c :: c in LowerCase(s, lower) ==> !IsAsciiUpper(c)
    decreases |s|
  {
    if s != [] {
      LowerCaseNoUpper(s[1..], lower);
      var h := lower(s[0]);
      assert forall c :: c in h ==> !IsAsciiUpper(c) by {
        forall c | c in h ensures !IsAsciiUpper(c) {
          var i :| 0 <= i < |h| && h[i] == c;
        }
      }
    }
  }

  /** On ASCII text lowercasing is ASCII lowercasing. */
  lemma {:induction false} LowerCaseOfAscii(s: string, lower: char -> string)
    requires IsLowerCaseMapping(lower) && AllAscii(s)
    ensures LowerCase(s, lower) == MapAsciiLower(s)
    decreases |s|
  {
    if s != [] {
      assert IsAscii(s[0]);
      LowerCaseOfAscii(s[1..], lower);
    }
  }

  /** Stage 4 applied to slug characters deletes exactly the hyphens. */
  lemma {:induction false} KeepWordOrSpaceOfSlugChars(s: string)
    requires forall i :: 0 <= i < |s| ==> IsSlugChar(s[i])
    ensures KeepWordOrSpace(s) == DeleteHyphens(s)
    decreases |s|
  {
    if s != [] {
      KeepWordOrSpaceOfSlugChars(s[1..]);
    }
  }

  lemma {:induction false} MapAsciiLowerWithoutUpper(s: string)
    requires forall i :: 0 <= i < |s| ==> !IsAsciiUpper(s[i])
    ensures MapAsciiLower(s) == s
  {
  }

  lemma {:induction false} DeleteHyphensUnchanged(s: string)
    ensures DeleteHyphens(s) == s <==> '-' !in s
    decreases |s|
  {
    if s != [] {
      DeleteHyphensUnchanged(s[1..]);
      if s[0] == '-' {
        DeleteHyphensShorter(s[1..]);
      }
    }
  }

  lemma {:induction false} DeleteHyphensShorter(s: string)
    ensures |DeleteHyphens(s)| <= |s|
    decreases |s|
  {
    if s != [] {
      DeleteHyphensShorter(s[1..]);
    }
  }

  // ---------------------------------------------------------------------------
  // The whole pipeline

  /** Every character of a slug is `a-z`, `0-9`, `_` or `-`; a slug holds no
      whitespace and no combining mark. */
  lemma SlugAlphabet(t: string, lower: char -> string)
    requires IsLowerCaseMapping(lower)
    ensures forall i :: 0 <= i < |SlugOfNormalized(t, lower)| ==> IsSlugChar(SlugOfNormalized(t, lower)[i])
    ensures NoSpace(SlugOfNormalized(t, lower))
    ensures forall c :: c in SlugOfNormalized(t, lower) ==> !IsCombiningMark(c)
  {
    var l := LowerCase(StripMarks(t), lower);
    LowerCaseNoUpper(StripMarks(t), lower);
    var k := KeepWordOrSpace(l);
    KeepWordOrSpaceKeeps(l);
    HyphenateChars(k);
    assert forall c :: c in k ==> (IsAsciiLower(c) || IsDigit(c) || c == '_' || IsSpace(c));
  }

  /** A slug never holds two adjacent `-`: the input's own hyphens are deleted
      at stage 4 and each whitespace run yields one hyphen. */
  lemma SlugNoDoubleHyphen(t: string, lower: char -> string)
    ensures NoDoubleHyphen(SlugOfNormalized(t, lower))
  {
    var k := KeepWordOrSpace(LowerCase(StripMarks(t), lower));
    assert '-' !in k;
    HyphenateNoDoubleHyphen(k);
  }

  /** Deleting the hyphens from a slug gives the word characters that survive
      stage 4, in order: every hyphen comes from whitespace. */
  lemma SlugHyphensComeFromSpaces(t: string, lower: char -> string)
    ensures DeleteHyphens(SlugOfNormalized(t, lower))
         == DeleteSpaces(KeepWordOrSpace(LowerCase(StripMarks(t), lower)))
  {
    var k := KeepWordOrSpace(LowerCase(StripMarks(t), lower));
    assert '-' !in k;
    HyphenateHyphensAreSpaces(k);
  }

  /** No trimming: leading whitespace gives a leading `-`. */
  lemma SlugLeadingSpace(t: string, lower: char -> string)
    requires IsLowerCaseMapping(lower)
    requires t != [] && IsSpace(t[0])
    ensures SlugOfNormalized(t, lower) != [] && SlugOfNormalized(t, lower)[0] == '-'
  {
    var m := StripMarks(t);
    assert m == [t[0]] + StripMarks(t[1..]);
    var l := LowerCase(m, lower);
    assert l == lower(t[0]) + LowerCase(m[1..], lower);
    assert l[0] == t[0];
  }

  /** No trimming: trailing whitespace gives a trailing `-`. */
  lemma SlugTrailingSpace(t: string, lower: char -> string)
    requires IsLowerCaseMapping(lower)
    requires t != [] && IsSpace(t[|t| - 1])
    ensures SlugOfNormalized(t, lower) != []
    ensures SlugOfNormalized(t, lower)[|SlugOfNormalized(t, lower)| - 1] == '-'
  {
    var c := t[|t| - 1];
    var p := t[..|t| - 1];
    assert t == p + [c];
    StripMarksAppend(p, [c]);
    LowerCaseAppend(StripMarks(p), [c], lower);
    var l := LowerCase(StripMarks(p), lower);
    assert LowerCase([c], lower) == [c];
    KeepWordOrSpaceAppend(l, [c]);
    var k := KeepWordOrSpace(l) + [c];
    HyphenateTrailingSpace(k);
  }

  /** No trimming, from the name itself: a name starting with whitespace gives
      a slug starting with `-`. */
  lemma NameLeadingSpace(input: string, nfd: string -> string, lower: char -> string)
    requires KeepsEdgeSpace(nfd) && IsLowerCaseMapping(lower)
    requires input != [] && IsSpace(input[0])
    ensures SlugFromString(input, nfd, lower) != [] && SlugFromString(input, nfd, lower)[0] == '-'
  {
    SlugLeadingSpace(nfd(input), lower);
  }

  /** No trimming, from the name itself: a name ending with whitespace gives a
      slug ending with `-`. */
  lemma NameTrailingSpace(input: string, nfd: string -> string, lower: char -> string)
    requires KeepsEdgeSpace(nfd) && IsLowerCaseMapping(lower)
    requires input != [] && IsSpace(input[|input| - 1])
    ensures SlugFromString(input, nfd, lower) != []
    ensures SlugFromString(input, nfd, lower)[|SlugFromString(input, nfd, lower)| - 1] == '-'
  {
    SlugTrailingSpace(nfd(input), lower);
  }

  /** On ASCII input the pipeline is: keep `[A-Za-z0-9_]` and whitespace,
      lowercase, and turn whitespace runs into `-`. */
  lemma SlugOfAscii(s: string, nfd: string -> string, lower: char -> string)
    requires IsNfd(nfd) && IsLowerCaseMapping(lower) && AllAscii(s)
    ensures SlugFromString(s, nfd, lower) == Hyphenate(MapAsciiLower(KeepWordOrSpace(s)))
  {
    StripMarksKeeps(s);
    LowerCaseOfAscii(s, lower);
    KeepWordOrSpaceOfLowered(s);
  }

  lemma {:induction false} KeepWordOrSpaceOfLowered(s: string)
    ensures KeepWordOrSpace(MapAsciiLower(s)) == MapAsciiLower(KeepWordOrSpace(s))
    decreases |s|
  {
    if s != [] {
      KeepWordOrSpaceOfLowered(s[1..]);
      assert MapAsciiLower(s)[1..] == MapAsciiLower(s[1..]);
    }
  }

  /** ASCII input without whitespace: the slug is the input's `[A-Za-z0-9_]`
      characters, lowercased, in their original order. */
  lemma SlugOfAsciiWord(s: string, nfd: string -> string, lower: char -> string)
    requires IsNfd(nfd) && IsLowerCaseMapping(lower) && AllAscii(s) && NoSpace(s)
    ensures SlugFromString(s, nfd, lower) == MapAsciiLower(KeepWordOrSpace(s))
  {
    SlugOfAscii(s, nfd, lower);
    var w := KeepWordOrSpace(s);
    var k := MapAsciiLower(w);
    KeepWordOrSpaceKeeps(s);
    forall i | 0 <= i < |k| ensures !IsSpace(k[i]) {
      assert w[i] in s;
    }
    HyphenateWithoutSpace(k);
  }

  /** An empty name gives an empty slug. */
  lemma SlugOfEmpty(nfd: string -> string, lower: char -> string)
    requires IsNfd(nfd)
    ensures SlugFromString([], nfd, lower) == []
  {
    assert AllAscii([]);
  }

  /** A letter that decomposes into an ASCII letter and a combining mark
      (`é` into `e` and U+0301) leaves only the lowercased base letter. */
  lemma SlugOfDecomposedLetter(s: string, base: char, mark: char, nfd: string -> string, lower: char -> string)
    requires IsLowerCaseMapping(lower)
    requires IsAsciiUpper(base) || IsAsciiLower(base)
    requires IsCombiningMark(mark)
    requires nfd(s) == [base, mark]
    ensures SlugFromString(s, nfd, lower) == [ToAsciiLower(base)]
  {
    assert [base, mark][1..] == [mark] && [mark][1..] == [];
    assert !IsCombiningMark(base) && IsAscii(base);
    assert StripMarks([mark]) == StripMarks([]) == [];
    assert StripMarks([base, mark]) == [base] + StripMarks([mark]) == [base];
    var b := ToAsciiLower(base);
    assert LowerCase([base], lower) == lower(base) + LowerCase([], lower) == [b];
    assert IsWordChar(b) && !IsSpace(b);
    assert KeepWordOrSpace([b]) == [b];
    assert Hyphenate([b]) == [b] + Hyphenate([]);
  }

  /** The pipeline is not idempotent: running it on a slug deletes the
      slug's hyphens and changes nothing else. */
  lemma SlugOfSlug(s: string, nfd: string -> string, lower: char -> string)
    requires IsNfd(nfd) && IsLowerCaseMapping(lower)
    ensures SlugFromString(SlugFromString(s, nfd, lower), nfd, lower)
         == DeleteHyphens(SlugFromString(s, nfd, lower))
  {
    var t := SlugFromString(s, nfd, lower);
    SlugAlphabet(nfd(s), lower);
    assert AllAscii(t);
    StripMarksKeeps(t);
    LowerCaseOfAscii(t, lower);
    MapAsciiLowerWithoutUpper(t);
    KeepWordOrSpaceOfSlugChars(t);
    KeepWordOrSpaceKeeps(t);
    var u := DeleteHyphens(t);
    assert forall i :: 0 <= i < |u| ==> u[i] in t;
    HyphenateWithoutSpace(u);
  }

  /** A second application changes a slug exactly when the slug holds a `-`. */
  lemma SlugIdempotentIff(s: string, nfd: string -> string, lower: char -> string)
    requires IsNfd(nfd) && IsLowerCaseMapping(lower)
    ensures SlugFromString(SlugFromString(s, nfd, lower), nfd, lower) == SlugFromString(s, nfd, lower)
        <==> '-' !in SlugFromString(s, nfd, lower)
  {
    SlugOfSlug(s, nfd, lower);
    DeleteHyphensUnchanged(SlugFromString(s, nfd, lower));
  }
}
