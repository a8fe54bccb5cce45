/** Concrete inputs and the slugs the pipeline gives them. */
module SlugExamples {
  import opened Text
  import opened Slug
  import opened SlugProperties

  /** Whitespace becomes `-`. */
  lemma SpaceBecomesHyphen(nfd: string -> string, lower: char -> string)
    requires IsNfd(nfd) && IsLowerCaseMapping(lower)
    ensures SlugFromString("a b", nfd, lower) == "a-b"
  {
    EvalSpaceKeep();
    EvalSpaceLower();
    EvalSpaceHyphenate();
    SlugOfAscii("a b", nfd, lower);
  }

  /** The input's own `-` is deleted. */
  lemma HyphenIsDeleted(nfd: string -> string, lower: char -> string)
    requires IsNfd(nfd) && IsLowerCaseMapping(lower)
    ensures SlugFromString("a-b", nfd, lower) == "ab"
  {
    EvalHyphenKeep();
    EvalHyphenLower();
    EvalHyphenHyphenate();
    SlugOfAscii("a-b", nfd, lower);
  }

  /** Deleting a character can join two whitespace runs into one. */
  lemma DeletionJoinsRuns(nfd: string -> string, lower: char -> string)
    requires IsNfd(nfd) && IsLowerCaseMapping(lower)
    ensures SlugFromString("a ! b", nfd, lower) == "a-b"
  {
    EvalPunctuationKeep();
    EvalPunctuationLower();
    EvalPunctuationHyphenate();
    SlugOfAscii("a ! b", nfd, lower);
  }

  /** No trimming: `" a "` gives `"-a-"`. */
  lemma NoTrimming(nfd: string -> string, lower: char -> string)
    requires IsNfd(nfd) && IsLowerCaseMapping(lower)
    ensures SlugFromString(" a ", nfd, lower) == "-a-"
  {
    EvalPaddedKeep();
    EvalPaddedLower();
    EvalPaddedHyphenate();
    SlugOfAscii(" a ", nfd, lower);
  }

  /** `" Café Life! "`, whose decomposition writes `é` as `e` followed by
      U+0301, gives `"-cafe-life-"`, not `"cafe-life"`. */
  lemma CafeLife(nfd: string -> string, lower: char -> string)
    requires IsLowerCaseMapping(lower)
    requires nfd(" Caf\U{00E9} Life! ") == " Cafe\U{0301} Life! "
    ensures SlugFromString(" Caf\U{00E9} Life! ", nfd, lower) == "-cafe-life-"
  {
    assert " Cafe\U{0301} Life! " == " Cafe" + "\U{0301}" + " Life! ";
    EvalCafeLife(" Cafe\U{0301} Life! ", " Cafe", "\U{0301}", " Life! ", lower);
  }

  // Evaluation of the stages on the inputs above, one stage per lemma.

  lemma EvalSpaceKeep()
    ensures KeepWordOrSpace("a b") == "a b"
  {
  }

  lemma EvalSpaceLower()
    ensures AllAscii("a b") && MapAsciiLower("a b") == "a b"
  {
  }

  lemma EvalSpaceHyphenate()
    ensures Hyphenate("a b") == "a-b"
  {
  }

  lemma EvalHyphenKeep()
    ensures KeepWordOrSpace("a-b") == "ab"
  {
  }

  lemma EvalHyphenLower()
    ensures AllAscii("a-b") && MapAsciiLower("ab") == "ab"
  {
  }

  lemma EvalHyphenHyphenate()
    ensures Hyphenate("ab") == "ab"
  {
  }

  lemma EvalPunctuationKeep()
    ensures KeepWordOrSpace("a ! b") == "a  b"
  {
  }

  lemma EvalPunctuationLower()
    ensures AllAscii("a ! b") && MapAsciiLower("a  b") == "a  b"
  {
  }

  lemma EvalPunctuationHyphenate()
    ensures Hyphenate("a  b") == "a-b"
  {
  }

  lemma EvalPaddedKeep()
    ensures KeepWordOrSpace(" a ") == " a "
  {
  }

  lemma EvalPaddedLower()
    ensures AllAscii(" a ") && MapAsciiLower(" a ") == " a "
  {
  }

  lemma EvalPaddedHyphenate()
    ensures Hyphenate(" a ") == "-a-"
  {
  }

  /** The stages on the decomposed `" Café Life! "`, one at a time. */
  lemma EvalCafeLife(d: string, a: string, m: string, b: string, lower: char -> string)
    requires IsLowerCaseMapping(lower)
    requires a == " Cafe" && m == "\U{0301}" && b == " Life! " && d == a + m + b
    ensures SlugOfNormalized(d, lower) == "-cafe-life-"
  {
    EvalCafeLifeMarks(a, m, b);
    EvalCafeLifeLower(a, b, " cafe", " life! ", lower);
    EvalCafeLifeKeep(" cafe", " life! ", " life ");
    EvalCafeLifeHyphenate(" cafe", " life ");
  }

  lemma EvalCafeLifeMarks(a: string, m: string, b: string)
    requires a == " Cafe" && m == "\U{0301}" && b == " Life! "
    ensures StripMarks(a + m + b) == a + b
  {
    assert a + m + b == a + (m + b);
    StripMarksAppend(a, m + b);
    StripMarksAppend(m, b);
    assert AllAscii(a) && AllAscii(b);
    StripMarksOfAscii(a);
    StripMarksOfAscii(b);
    assert m[1..] == [];
  }

  lemma EvalCafeLifeLower(a: string, b: string, la: string, lb: string, lower: char -> string)
    requires IsLowerCaseMapping(lower)
    requires a == " Cafe" && b == " Life! " && la == " cafe" && lb == " life! "
    ensures LowerCase(a + b, lower) == la + lb
  {
    LowerCaseAppend(a, b, lower);
    EvalLowerCafe();
    EvalLowerLife();
    LowerCaseOfAscii(a, lower);
    LowerCaseOfAscii(b, lower);
  }

  lemma EvalLowerCafe()
    ensures AllAscii(" Cafe") && MapAsciiLower(" Cafe") == " cafe"
  {
  }

  lemma EvalLowerLife()
    ensures AllAscii(" Life! ") && MapAsciiLower(" Life! ") == " life! "
  {
  }

  lemma EvalCafeLifeKeep(la: string, lb: string, kb: string)
    requires la == " cafe" && lb == " life! " && kb == " life "
    ensures KeepWordOrSpace(la + lb) == la + kb
  {
    KeepWordOrSpaceAppend(la, lb);
    EvalKeepCafe();
    EvalKeepLife();
  }

  lemma EvalKeepCafe()
    ensures KeepWordOrSpace(" cafe") == " cafe"
  {
  }

  lemma EvalKeepLife()
    ensures KeepWordOrSpace(" life! ") == " life "
  {
  }

  lemma EvalCafeLifeHyphenate(la: string, kb: string)
    requires la == " cafe" && kb == " life "
    ensures Hyphenate(la + kb) == "-cafe-life-"
  {
    var sp, w1, w2 := " ", "cafe", "life";
    assert la == sp + w1 && kb == sp + (w2 + sp);
    assert la + kb == sp + (w1 + (sp + (w2 + sp)));
    HyphenateSpaceRun(sp, w1 + (sp + (w2 + sp)));
    HyphenatePassesWord(w1, sp + (w2 + sp));
    HyphenateSpaceRun(sp, w2 + sp);
    HyphenatePassesWord(w2, sp);
    assert sp == sp + [];
    HyphenateSpaceRun(sp, []);
    assert "-" + (w1 + ("-" + (w2 + ("-" + [])))) == "-cafe-life-";
  }
}
