# Tags page logic: slug derivation, name rule and URL search parameters

The application is a small React page that lists video tags and creates new
ones. Nearly all of it is UI. This project models the two pieces of it that
compute something, and proves what they guarantee.

**The create-tag form** (`src/components/create-tag-form.tsx`).
- `getSlugFromString` turns a tag name into a slug in five stages:
  1. NFD-normalise the name.
  2. Delete the combining diacritical marks U+0300 to U+036F.
  3. Lowercase the text.
  4. Delete every character that is neither `\w` (ASCII `[A-Za-z0-9_]`, because the pattern has no `u` flag) nor `\s`.
  5. Replace each maximal whitespace run with one `-`.
- The read-only slug field shows the slug of the watched name; a missing name counts as `''`.
- The schema accepts a name only if it has at least 3 characters, and accepts any slug.

Modules:
- `Text`: character classes and the UTF-16 length, which is what JavaScript's `length` counts.
- `Slug`: the five stages and the slug field.
- `SlugProperties`: the proofs.
- `SlugExamples`: concrete inputs.
- `TagForm`: the schema rule.

**The tags page** (`src/app.tsx`).
- It reads `page`, `filter` and `per_page` from the URL's search parameters, each with its own default.
- It builds the query key `['get-tags', page, filter, perPage]` and the request URL from those values.
- On submission of the filter form, `onFilter` edits the parameter object in place. It sets `page` to `"1"` and `filter` to the debounced filter text.

Modules:
- `SearchParams`: the `URLSearchParams` object, as an ordered list of entries. `get` answers the first match. `set` replaces the first match, drops the later ones, or appends.
- `QueryString`: a reader of query strings. It is the partner of the request URL.
- `TagsApp`: the page's reads, key, URL, `onFilter`, and the component's state.

NFD and lowercasing are parameters of the pipeline, not tables:
- `nfd` is required to leave ASCII text unchanged (`IsNfd`). The two lemmas about whitespace at the ends of a name also require that whitespace at either end stays whitespace (`KeepsEdgeSpace`).
- `lower` maps one character to a string, as `toLowerCase` may lengthen a character (`IsLowerCaseMapping`). It must satisfy four conditions:
  - ASCII lowers `A-Z` to `a-z`;
  - no result holds `A-Z`;
  - whitespace maps to itself;
  - nothing else lowers to whitespace.

### Behaviour worth knowing
- The slug function is not idempotent. Stage 4 deletes `-`, so `"a b"` gives `"a-b"` and `"a-b"` gives `"ab"`.
  - `SlugProperties.SlugOfSlug` states what a second run does: it deletes the hyphens.
  - `SlugProperties.SlugIdempotentIff` states exactly when a second run changes nothing.
- Nothing trims: `" Café Life! "` gives `"-cafe-life-"` (`SlugExamples.CafeLife`).
- Any non-empty `page` text goes to `Number`, which gives `NaN` for non-numeric text. Only a missing or empty `page` gives 1 (`TagsApp.PageParamOf`, `TagsApp.PageTextIsKept`).

## Model

| member | source | states |
|---|---|---|
| Text.Utf16Length | src/components/create-tag-form.tsx:9 | The length the name rule counts lies between the number of code points and twice that. It equals the number of code points exactly when no code point is above U+FFFF, and exceeds it otherwise. |
| Slug.SlugFromString | src/components/create-tag-form.tsx:15-23 | On ASCII input the decomposition changes nothing, and the slug is that of the input itself. Its other properties are stated by `SlugProperties.SlugAlphabet`, `SlugNoDoubleHyphen`, `NameLeadingSpace`, `NameTrailingSpace`, `SlugOfAscii`, `SlugOfSlug` and `SlugIdempotentIff`. |
| Slug.SlugOfNormalized | src/components/create-tag-form.tsx:19-22 | Stages 2 to 5 on decomposed text. Its contract is stated by `SlugProperties.SlugAlphabet`, `SlugNoDoubleHyphen`, `SlugHyphensComeFromSpaces`, `SlugLeadingSpace` and `SlugTrailingSpace`. |
| Slug.StripMarks | src/components/create-tag-form.tsx:19 | No character of the result lies in U+0300 to U+036F. |
| Slug.LowerCase | src/components/create-tag-form.tsx:20 | Each character is lowercased by the mapping. Its contract is stated by `SlugProperties.LowerCaseNoUpper` (no `A-Z` remains) and `SlugProperties.LowerCaseOfAscii` (ASCII lowercases one for one). |
| Slug.KeepWordOrSpace | src/components/create-tag-form.tsx:21 | Every character of the result is `[A-Za-z0-9_]` or whitespace. |
| Slug.HyphenateFrom | src/components/create-tag-form.tsx:22 | The result of the whitespace replacement holds no whitespace. |
| Slug.Hyphenate | src/components/create-tag-form.tsx:22 | The result holds no whitespace. `SlugProperties.HyphenateUnfold` and `HyphenateIsSqueezeThenReplace` state that each maximal whitespace run becomes exactly one `-`. |
| Slug.SlugField | src/components/create-tag-form.tsx:34 | A missing name gives the empty slug; a present name gives its slug. |
| SlugProperties.HyphenateUnfold | src/components/create-tag-form.tsx:22 | Each maximal whitespace run, including a leading one, becomes exactly one `-`; every other character is copied. |
| SlugProperties.HyphenateIsSqueezeThenReplace | src/components/create-tag-form.tsx:22 | Replacing maximal runs equals an independent reading: squeeze every run to one character, then turn whitespace into `-`. |
| SlugProperties.HyphenateNoDoubleHyphen | src/components/create-tag-form.tsx:22 | On text without `-`, the replacement never writes two adjacent `-`. |
| SlugProperties.HyphenateHyphensAreSpaces | src/components/create-tag-form.tsx:22 | On text without `-`, deleting the hyphens from the result gives the input with its whitespace deleted. |
| SlugProperties.HyphenateTrailingSpace | src/components/create-tag-form.tsx:22 | Text ending in whitespace gives a result ending in `-`. |
| SlugProperties.HyphenateWithoutSpace | src/components/create-tag-form.tsx:22 | Text without whitespace passes through stage 5 unchanged. |
| SlugProperties.StripMarksKeeps | src/components/create-tag-form.tsx:19 | A character survives mark deletion if and only if it is in the input and is not a combining mark; text without marks is unchanged. |
| SlugProperties.StripMarksOfAscii | src/components/create-tag-form.tsx:19 | ASCII text has no marks to delete. |
| SlugProperties.LowerCaseNoUpper | src/components/create-tag-form.tsx:20 | The lowercased text holds no `A-Z`. |
| SlugProperties.LowerCaseOfAscii | src/components/create-tag-form.tsx:20 | On ASCII text, lowercasing is exactly `A-Z` to `a-z`, one character for one. |
| SlugProperties.KeepWordOrSpaceKeeps | src/components/create-tag-form.tsx:21 | A character survives stage 4 if and only if it is in the input and is `\w` or `\s`; text of such characters is unchanged. |
| SlugProperties.KeepWordOrSpaceOfSlugChars | src/components/create-tag-form.tsx:21 | On text of slug characters, stage 4 deletes exactly the hyphens. |
| SlugProperties.SlugAlphabet | src/components/create-tag-form.tsx:17-22 | Every slug character is `a-z`, `0-9`, `_` or `-`. A slug holds no whitespace and no combining mark. |
| SlugProperties.SlugNoDoubleHyphen | src/components/create-tag-form.tsx:21-22 | A slug never holds two adjacent `-`. |
| SlugProperties.SlugHyphensComeFromSpaces | src/components/create-tag-form.tsx:21-22 | Removing the hyphens from a slug leaves exactly the non-whitespace characters that survived stage 4, in order. Every `-` therefore stands for a whitespace run. |
| SlugProperties.SlugLeadingSpace | src/components/create-tag-form.tsx:19-22 | No trimming: decomposed text starting with whitespace gives a slug starting with `-`. |
| SlugProperties.SlugTrailingSpace | src/components/create-tag-form.tsx:19-22 | No trimming: decomposed text ending with whitespace gives a slug ending with `-`. |
| SlugProperties.NameLeadingSpace | src/components/create-tag-form.tsx:15-23 | No trimming: a name starting with whitespace gives a slug starting with `-`. |
| SlugProperties.NameTrailingSpace | src/components/create-tag-form.tsx:15-23 | No trimming: a name ending with whitespace gives a slug ending with `-`. |
| SlugProperties.SlugOfAscii | src/components/create-tag-form.tsx:17-22 | On ASCII input the slug is: keep `[A-Za-z0-9_]` and whitespace, lowercase them, and turn whitespace runs into `-`. |
| SlugProperties.SlugOfAsciiWord | src/components/create-tag-form.tsx:20-21 | On ASCII input without whitespace, the slug is the input's `[A-Za-z0-9_]` characters, lowercased, in their original order. |
| SlugProperties.SlugOfEmpty | src/components/create-tag-form.tsx:34 | The empty name gives the empty slug. |
| SlugProperties.SlugOfDecomposedLetter | src/components/create-tag-form.tsx:18-20 | A letter whose decomposition is an ASCII letter plus a combining mark (`é`) leaves only the lowercased base letter. |
| SlugProperties.SlugOfSlug | src/components/create-tag-form.tsx:21-22 | Running the pipeline on a slug deletes the slug's hyphens and changes nothing else. |
| SlugProperties.SlugIdempotentIff | src/components/create-tag-form.tsx:17-22 | A second run leaves a slug unchanged if and only if the slug holds no `-`. |
| SlugExamples.SpaceBecomesHyphen | src/components/create-tag-form.tsx:22 | `"a b"` gives `"a-b"`. |
| SlugExamples.HyphenIsDeleted | src/components/create-tag-form.tsx:21 | `"a-b"` gives `"ab"`. |
| SlugExamples.DeletionJoinsRuns | src/components/create-tag-form.tsx:21-22 | `"a ! b"` gives `"a-b"`: deleting `!` joins two runs into one. |
| SlugExamples.NoTrimming | src/components/create-tag-form.tsx:17-22 | `" a "` gives `"-a-"`. |
| SlugExamples.CafeLife | src/components/create-tag-form.tsx:17-22 | `" Café Life! "`, where `é` decomposes to `e` plus U+0301, gives `"-cafe-life-"`. |
| TagForm.ValidateCreateTag | src/components/create-tag-form.tsx:8-11 | An input is accepted if and only if its name has at least 3 UTF-16 code units. An accepted input is returned as it is. A rejected one yields a single issue on `name` with the message `Minimum 3 characters.`. |
| TagForm.SlugIsUnconstrained | src/components/create-tag-form.tsx:10 | The slug never decides acceptance. |
| TagForm.NameLengthBounds | src/components/create-tag-form.tsx:9 | A name of 3 or more code points always passes; a name of 0 or 1 never does. |
| TagForm.BmpNameRule | src/components/create-tag-form.tsx:9 | For a name within U+0000 to U+FFFF, acceptance is exactly "at least 3 characters". |
| TagForm.TwoAstralCharactersPass | src/components/create-tag-form.tsx:9 | Two emoji count as four code units and pass. |
| TagForm.TwoAsciiCharactersFail | src/components/create-tag-form.tsx:9 | `"ab"` is rejected with the schema's message. |
| SearchParams.Lookup | src/app.tsx:25-29 | `get` finds nothing if and only if no entry has the name; otherwise it answers a value stored under that name. |
| SearchParams.LookupFirst | src/app.tsx:25-29 | When the first entry under a name is at position `i`, `get` answers that entry's value. |
| SearchParams.ReplaceFirst | src/app.tsx:50-51 | `set` on a present name. Its contract is stated by `SearchParams.ReplaceFirstFacts`: the name then reads the new value, has exactly one entry, and the other entries and their reads are unchanged. |
| SearchParams.Update | src/app.tsx:50-51 | `set(name, value)`. Its contract is stated by `UpdateLookup`, `UpdateLookupOther`, `UpdateFrame`, `UpdateCount` and `UpdateIdempotent`. |
| SearchParams.UpdateLookup | src/app.tsx:50-51 | After `set(name, value)`, `get(name)` answers `value`. |
| SearchParams.UpdateLookupOther | src/app.tsx:50-51 | `set` on one name leaves `get` of every other name unchanged. |
| SearchParams.UpdateFrame | src/app.tsx:50-51 | `set` on one name leaves every entry under the other names unchanged, in order. |
| SearchParams.UpdateCount | src/app.tsx:50-51 | After `set(name, …)`, exactly one entry has that name. |
| SearchParams.UpdateIdempotent | src/app.tsx:50-51 | Setting the same value twice is the same as setting it once. |
| SearchParams.Params.Get | src/app.tsx:25-29 | The object's `get` answers the first value under the name, and answers nothing exactly when the name is absent. |
| SearchParams.Params.Set | src/app.tsx:50-51 | The object's entries become the `set` update of the old ones: the name reads the new value and the other entries are kept. |
| TagsApp.PageParamOf | src/app.tsx:25-27 | `page` is the default 1 if and only if it is absent or empty. Otherwise it is `Number` of the stored text. |
| TagsApp.FilterParamOf | src/app.tsx:28 | `filter` is the stored value when present, even when empty, and `""` only when absent. |
| TagsApp.PerPageParamOf | src/app.tsx:29 | `per_page` is the stored value when present, even when empty, and `"10"` only when absent. |
| TagsApp.QueryKeyOf | src/app.tsx:35 | The query key is `get-tags` with the three parameter reads. How `onFilter` changes it is stated by `TagsApp.OnFilterQueryKey`, and what the request carries by `TagsApp.RequestUrlCarriesKey`. |
| TagsApp.EmptyValues | src/app.tsx:25-29 | A present but empty `page` reads as 1, while a present but empty `filter` or `per_page` reads as `""`. |
| TagsApp.PageTextIsKept | src/app.tsx:25-27 | Any non-empty `page` text, numeric or not, goes to `Number`. |
| TagsApp.FilterUpdate | src/app.tsx:49-53 | The two `set` calls of `onFilter`. Its contract is stated by `OnFilterResetsPage`, `OnFilterSetsFilter`, `OnFilterSingleEntries`, `OnFilterFrame` and `OnFilterIdempotent`. |
| TagsApp.OnFilterResetsPage | src/app.tsx:50 | After `onFilter`, `page` is `"1"` whatever it was. |
| TagsApp.OnFilterSetsFilter | src/app.tsx:51 | After `onFilter`, `filter` is the debounced value. |
| TagsApp.OnFilterSingleEntries | src/app.tsx:49-53 | After `onFilter`, exactly one entry is named `page` and exactly one is named `filter`. |
| TagsApp.OnFilterFrame | src/app.tsx:49-53 | `onFilter` leaves every entry under any other name unchanged, in order. Every other name reads as before, `per_page` in particular. |
| TagsApp.OnFilterIdempotent | src/app.tsx:49-53 | Two submissions with the same debounced value give the parameters one submission gives. |
| TagsApp.OnFilterQueryKey | src/app.tsx:35 | After `onFilter`, the query key is `get-tags` for page `Number("1")`, the debounced filter and the old page size. |
| TagsApp.PageText | src/app.tsx:38 | The default page is written `1`. When the number writer writes numbers, every character of the page text is one a written number can hold, so never `&`. |
| TagsApp.TagsQuery | src/app.tsx:38 | `_page`, `_per_page` and `title` joined with `&`, unescaped. What it reads back as is stated by `TagsApp.TagsQueryRoundTrip` and `TagsApp.AmpersandInFilter`. |
| TagsApp.RequestUrl | src/app.tsx:38 | The tags endpoint, `?` and the query string. Its contract is stated by `TagsApp.RequestUrlCarriesKey`. |
| TagsApp.TagsQueryRoundTrip | src/app.tsx:38 | When no value holds `&`, the request's query string reads back as exactly `_page`, `_per_page` and `title` with the three values, in order. |
| TagsApp.RequestUrlCarriesKey | src/app.tsx:35-38 | The request URL is the tags endpoint and a query string. When neither the page size nor the filter holds `&`, that string reads back as the key's page text, page size and filter, in order. |
| TagsApp.AmpersandInFilter | src/app.tsx:38 | Values are not escaped. A filter `a&b` sends `title=a`, and `b` reads as an entry of its own. |
| QueryString.ParseEncode | src/app.tsx:38 | Writing entries as `name=value` joined by `&` and reading them back gives the same entries, provided no name holds `=` or `&` and no value holds `&`. |
| TagsApp.TagsPage.constructor | src/app.tsx:31 | The filter input's local state starts from the URL's `filter`. |
| TagsApp.TagsPage.Key | src/app.tsx:35 | The query key of the current parameters. How it changes is stated by `TagsApp.TagsPage.SetFilter` and `TagsApp.TagsPage.OnFilter`. |
| TagsApp.TagsPage.ReadParams | src/app.tsx:25-29 | The render's three `get` calls give `PageParamOf`, `FilterParamOf` and `PerPageParamOf` of the entries, and together they make the query key. |
| TagsApp.TagsPage.SetFilter | src/app.tsx:102 | Typing in the filter input changes the local state and never the query key. |
| TagsApp.TagsPage.OnFilter | src/app.tsx:47-54 | The parameter object is updated in place: `page` to `"1"` and then `filter` to the debounced value. The other entries are kept, and the query key becomes page 1 of the debounced filter with the old page size. |

## Left out

- `normalize('NFD')` and `toLowerCase` are Unicode library tables. They are parameters, constrained as described above.
  - The model relies only on NFD leaving ASCII unchanged. `SlugExamples.CafeLife` and `SlugProperties.SlugOfDecomposedLetter` state the decomposition they use as a precondition.
- JavaScript strings may hold lone surrogates. Stage 4 deletes them, and `.length` counts each as one unit. A Dafny `char` is a Unicode scalar value and cannot hold one, so such names are not modelled.
- Lowercasing is modelled one character at a time. Context-dependent mappings, such as the Greek final sigma, are not modelled.
- `Number(...)` on `page` is floating point, with NaN. It is kept abstract:
  - The page is `DefaultPage` or `NumberOf(text)`.
  - The URL writes a number through a parameter standing for `String(Number(text))`. The model relies only on that text holding the characters of a written JavaScript number (`IsNumberText`).
  - The model therefore does not identify `NumberOf("1")` with the default page, although both are the number 1.
- `useDebounceValue` is timer-based, and its source is not part of this model. The debounced filter is an input of `onFilter`.
- The whole update happens inside `setSearchParams`, which also serialises the parameters into the browser URL and re-renders. The model takes the object the callback edits to be the one the page reads next.
- `fetch` and JSON decoding are network I/O.
- The TanStack Query options (`keepPreviousData`, the 24-hour `staleTime`) are library caching behaviour.
- Not modelled, because they are UI: the JSX, dialogs, table, pagination component and the `isLoading` branch.
- `console.log`, and `createTag`, which only logs.
- `src/main.tsx`, which only bootstraps the router, the query client and React.
- The react-hook-form and zod wiring beyond the length rule on `name` and the unconstrained `slug`. Inputs are always strings here, so zod's "required" case does not arise.
- `QueryString` splits at `&` and at the first `=`. It does no percent-decoding, does not treat `+` as space, and does not cut at `#`.
  - `TagsApp.TagsQueryRoundTrip` therefore states what the request carries as a plain string.
  - It does not state how a server would decode the string; a filter holding `#`, `%` or `+` would read differently there.
