/**
 * The create-tag form's schema: `name` is a string of at least three
 * characters, where a character is a UTF-16 code unit as in JavaScript's
 * `length`; `slug` is any string.
 */
module TagForm {
  import opened Wrappers
  import opened Text

  const MinNameLength := 3
  const MinNameMessage := "Minimum 3 characters."

  datatype CreateTagInput = CreateTagInput(name: string, slug: string)

  /** A rejected field and the message shown for it. */
  datatype Issue = Issue(path: string, message: string)

  /** The schema check: the input itself when the name is long enough,
      otherwise the one issue on `name`. */
  function ValidateCreateTag(input: CreateTagInput): (r: Result<CreateTagInput, seq<Issue>>)
    ensures r.Success? <==> Utf16Length(input.name) >= MinNameLength
    ensures r.Success? ==> r.value == input
    ensures r.Failure? ==> r.error == [Issue("name", MinNameMessage)]
  {
    if Utf16Length(input.name) < MinNameLength then Failure([Issue("name", MinNameMessage)])
    else Success(input)
  }

  /** The slug never decides whether an input is accepted. */
  lemma SlugIsUnconstrained(name: string, slug1: string, slug2: string)
    ensures ValidateCreateTag(CreateTagInput(name, slug1)).Success?
        <==> ValidateCreateTag(CreateTagInput(name, slug2)).Success?
  {
  }

  /** Three or more code points always pass, one or none never does. */
  lemma NameLengthBounds(input: CreateTagInput)
    ensures |input.name| >= MinNameLength ==> ValidateCreateTag(input).Success?
    ensures |input.name| <= 1 ==> ValidateCreateTag(input).Failure?
  {
  }

  /** For a name within the Basic Multilingual Plane the rule is exactly
      "at least three characters". */
  lemma BmpNameRule(input: CreateTagInput)
    requires forall i :: 0 <= i < |input.name| ==> input.name[i] <= '\U{FFFF}'
    ensures ValidateCreateTag(input).Success? <==> |input.name| >= MinNameLength
  {
  }

  /** Two code points above U+FFFF are four code units and pass. */
  lemma TwoAstralCharactersPass(slug: string)
    ensures ValidateCreateTag(CreateTagInput("\U{1F600}\U{1F600}", slug)).Success?
  {
  }

  /** Two ASCII characters are rejected with the schema's message. */
  lemma TwoAsciiCharactersFail(slug: string)
    ensures ValidateCreateTag(CreateTagInput("ab", slug))
         == Failure([Issue("name", MinNameMessage)])
  {
  }
}
