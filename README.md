# I18n Smart Manager: a verified model of the conversion and locale core

I18n Smart Manager is a VS Code extension. It finds Korean text in `ts`, `tsx`
and `vue` sources and replaces it with translation calls such as `t('key')`.
It also writes the matching entries into nested JSON locale files and puts
those files into spreadsheet tables. This project models the logic under all
of that. The editor, the file system, the network and the spreadsheet API are
not modelled.

The model covers four parts.

- **Conversion (text-conversion.ts).**
  - Interpolation extraction: `${…}`, then `{{…}}` for `vue` or `{…}` not
    preceded by `$` for `tsx`. Each regular expression is an explicit scanner.
  - The key builder, with the default transform.
  - The call builder and its file-type wrapper.
  - The first-accepted-wins range planner.
  - The descending sort of the planned edits.
  - The two context fix-ups: props binding and needless stringification.
- **Locale generation (locale-generation.ts).**
  - `flattenJson` and `unflattenJson`, including the case where the latter throws.
  - The existing-key filter.
  - Entry building with in-batch deduplication.
  - Translation alignment and the early exits.
  - The merge that saves the store.
  - The output file-name cleanup.
- **Spreadsheet tables (spreadsheet.ts).** `convertJsonToSheetData`,
  `mergeData`, and the aggregation half of `combineMultipleLocales`.
- **Tree view state (tree-data-provider.ts).** The pending and applied lists,
  the set of excluded IDs, and the section view.

## How the model is built

| aspect | in the model |
|---|---|
| JSON object | `Json.Obj`: its members in enumeration order |
| flat map | an insertion-ordered association list with JavaScript assignment (an existing key keeps its place; a new key goes last) |
| helpers whose code is not shown (`removeQuotes`, `isQuotedText`, the user's key function) | total function parameters, bundled as `KeyGeneration.Hooks` |
| `I18nItem.getUniqueId` | the constructor parameter of the tree provider |

Each loop of the source is a Dafny `method` with loop invariants. It is proved
equal to a specification function. The properties below are then proved about
that function as lemmas. One loop is the exception: the loop over the six
stringification patterns (text-conversion.ts:379) returns the same widened edit
for whichever pattern matches first. It is therefore the function
`ContextFixups.StringificationFix` over the predicate `ContextFixups.Stringified`,
which holds when any of the six patterns matches. The two services and the tree
provider are classes whose fields the methods update.

Some specification functions carry no contract of their own. The lemmas about
them carry the properties:

- `Conversion.ConvertTextWithVariables` (text-conversion.ts:52-72):
  `Conversion.CallShape`, `Conversion.UnwrapWrap` and
  `Conversion.ConvertedKeyReadBack`.
- `ConversionService.Plan`: `ConversionService.PlanDisjoint`,
  `ConversionService.PlanMaximal`, `ConversionService.PlanPrefix` and
  `ConversionService.PlanFromRanges`.
- `Spreadsheet.Merged`: `Spreadsheet.MergeRowShape`, `Spreadsheet.MergeRowsKeys`,
  `Spreadsheet.MergeRowsKeepsCells` and `Spreadsheet.MergeRowsLastWins`.

Some behaviours look surprising but are reproduced as the code has them. Each
one is proved.

- **The placeholder order differs between key and value.** The key template
  numbers the `${…}` matches first (`Interpolation.VariablesOf`). The entry
  value numbers the family matches first (`Interpolation.PlaceholderValue`).
  `Interpolation.PlaceholderOrderDiffers` shows this for the `tsx` text
  `${a}{b}`. Its variables are `a, b` and its key template is `{0}{1}`, but
  its value is `{1}{0}`.
- **The backslash collapse happens only in the filter.** The filter looks a
  text up under a key with runs of backslashes collapsed. The entry is stored
  under the key without the collapse. `LocaleGeneration.FilterKeyIsEntryKey`
  shows that the two keys agree exactly when the key has no doubled backslash.
- **A `tsx` template is not a fixed point.** The template `{0}` is itself a
  `tsx` interpolation (`Interpolation.TsxScanOfOne`, `Interpolation.VariablesOfZero`).
- **The stringification fix-up removes the quotes.** It widens the edit over
  the quote on each side and emits only the bare call (`ContextFixups.QuotesRemoved`).
- **`unflattenJson` throws when a leaf key comes before a longer key under it.**
  `FlatJson.LeafBeforeLongerKey` proves this for any two positions `i < j`
  where the key at `j` starts with the key at `i` followed by a dot. The first
  key leaves a string on the way, and the later key tries to enter it.

## Model

| member | source | states |
|---|---|---|
| KeyGeneration.CollapseSpacesChars | src/services/text-conversion.ts:41 | the result holds no JavaScript white space; every other character comes from the input or is the `_` of a run; text without white space is unchanged |
| KeyGeneration.CollapseSpacesRun | src/services/text-conversion.ts:41 | a whole run of white space, with none on either side, becomes exactly one `_` between the collapses of the two sides |
| KeyGeneration.CollapseSpacesAppend | src/services/text-conversion.ts:41 | cut after a character other than white space, the collapse of the whole is the collapse of the first piece followed by that of the second, so the pieces keep their order |
| KeyGeneration.ReplaceCharChars | src/services/text-conversion.ts:42-47 | the replaced character disappears unless the replacement holds it; every other character comes from the input or the replacement |
| KeyGeneration.ReplaceCharUnchanged | src/services/text-conversion.ts:42-47 | text without the character is unchanged |
| KeyGeneration.ReplaceCharAppend | src/services/text-conversion.ts:42-47 | the replacement of a concatenation is the concatenation of the replacements |
| KeyGeneration.ReplaceCharAt | src/services/text-conversion.ts:42-47 | each occurrence of the character becomes the replacement, between the replacements of the text before and after it |
| KeyGeneration.ReplaceCharIsSplitJoin | src/services/text-conversion.ts:42-47 | `.replace(/c/g, rep)` equals `split(c).join(rep)` |
| KeyGeneration.DoubleEscapesChars | src/services/text-conversion.ts:43 | no new kind of character appears |
| KeyGeneration.DoubleEscapesUnchanged | src/services/text-conversion.ts:43 | text without a backslash is unchanged |
| KeyGeneration.UndoubleDoubleEscapes | src/services/text-conversion.ts:43 | turning each doubled backslash before a character other than a line terminator back into one gives the text back: exactly the escaped pairs were doubled, and no two texts share a doubled form |
| KeyGeneration.DefaultTransformIsKeySafe | src/services/text-conversion.ts:40-47 | the default key holds no white space, `.`, `[`, `]`, `'` or `"` |
| KeyGeneration.DefaultTransformKeepsPlainText | src/services/text-conversion.ts:40-47 | text of key-safe characters without a backslash is its own default key |
| KeyGeneration.ApplyKeyFunction | src/services/text-conversion.ts:22-48 | the user's result when the function returns a string; otherwise the default transform, which is key-safe |
| KeyGeneration.ConvertToI18nKeyFacts | src/services/text-conversion.ts:445-456 | the key is the user's function, or else the key-safe default, applied to the text without its quotes |
| KeyGeneration.FullKey | src/services/text-conversion.ts:63 | the bare key under an empty namespace; otherwise `namespace.` followed by the key |
| KeyGeneration.FullKeyInjective | src/services/text-conversion.ts:63 | within one namespace, full keys are equal exactly when the keys are |
| Interpolation.MatchAt | src/services/text-conversion.ts:409 | a match starts at the opening delimiter and lies inside the text; its whole text is that slice; the capture is what lies between the delimiters and has no `}` |
| Interpolation.MatchAtIsRegex | src/services/text-conversion.ts:409-428 | a match exists exactly when the regular expression matches at that index: the first `}` after at least one character, preceded by no `$` for `tsx` and followed by a second `}` for `vue` |
| Interpolation.ScanFrom | src/services/text-conversion.ts:409-410 | the occurrences are in order, do not overlap and lie within the text |
| Interpolation.ScanFromIsLeftmost | src/services/text-conversion.ts:409-410 | the scan finds the leftmost non-overlapping matches: no match starts before each one or after the last |
| Interpolation.LeftmostIsScanFrom | src/services/text-conversion.ts:409-410 | conversely, any ordered sequence of genuine leftmost matches is the scan |
| Interpolation.ScanFromIsGenuine | src/services/text-conversion.ts:409-410 | each occurrence reported is the match at its own start |
| Interpolation.NoBraceNoMatch | src/services/text-conversion.ts:409-428 | text without `{` has no matches |
| Interpolation.RecordMatches | src/services/text-conversion.ts:410-415 | the loop appends each trimmed capture, replaces each match's first occurrence in the template by the next placeholder, and advances the counter by the number of matches |
| Interpolation.SubstituteAppend | src/services/text-conversion.ts:407-434 | the template after both passes is the template after the first pass, updated by the second with the counter carried on |
| Interpolation.ExtractVariables | src/services/text-conversion.ts:403-442 | the method computes `VariablesOf`: the `${…}` pass, then the file type's pass, with one counter across both |
| Interpolation.VariablesAreCaptures | src/services/text-conversion.ts:403-435 | there is one variable per match; the `${…}` captures come first, then the family captures; `ts` runs only the first pass; each is the trimmed capture of a genuine match |
| Interpolation.VariablesAreTrimmed | src/services/text-conversion.ts:411 | each variable has no `}` and no white space at either end |
| Interpolation.NoInterpolation | src/services/text-conversion.ts:404-406 | text without `{` yields no variables, and the template is the text |
| Interpolation.TsxScanOfOne | src/services/text-conversion.ts:428 | one character other than `}` between braces, such as the placeholder `{0}`, is one `tsx` match and no `${…}` match |
| Interpolation.VariablesOfOne | src/services/text-conversion.ts:426-434 | in `tsx`, a template `{c}` for one character `c` that is neither `}` nor white space yields the one variable `c` |
| Interpolation.VariablesOfZero | src/services/text-conversion.ts:426-434 | `{0}` in `tsx` yields the variable `0` |
| Interpolation.TemplateOfX | src/services/text-conversion.ts:426-434 | `{x}` in `tsx` has the template `{0}` |
| Interpolation.ReplaceAllIsRebuild | src/services/locale-generation.ts:319-324 | global replacement with a counting callback replaces the scanned matches, in order, by consecutive placeholders and keeps the text between them |
| Interpolation.MixedVariables | src/services/text-conversion.ts:403-435 | the `tsx` text `${a}{b}` has the variables `a, b` |
| Interpolation.MixedTemplate | src/services/text-conversion.ts:403-435 | the `tsx` text `${a}{b}` has the key template `{0}{1}` |
| Interpolation.MixedValue | src/services/locale-generation.ts:315-326 | the `tsx` text `${a}{b}` has the value `{1}{0}` |
| Interpolation.PlaceholderOrderDiffers | src/services/locale-generation.ts:303-326 | all three at once: key and value number the two variables in opposite order |
| Interpolation.PlaceholderValueWithoutInterpolation | src/services/locale-generation.ts:315-326 | a value without `{` is unchanged by the placeholder replacement |
| Conversion.CallShape | src/services/text-conversion.ts:60-71 | the call starts with `t('` and the full key; it is `t('key')` exactly when there are no variables; otherwise it ends with `, [` and the variables joined by `, ` |
| Conversion.ReadKeyOfCall | src/services/text-conversion.ts:64-70 | the key read back from a call is its full key, when that has no quote |
| Conversion.UnwrapWrap | src/services/text-conversion.ts:73-83 | quoted text and `ts` get the bare call; otherwise slicing off the wrapper (one brace for `tsx`, two for `vue`) gives the call back |
| Conversion.WrappedKeyReadBack | src/services/text-conversion.ts:60-83 | a key-safe key under a quote-free namespace is read back from the wrapped call |
| Conversion.ConvertedKeyReadBack | src/services/text-conversion.ts:52-84 | with the default transform, the converted call names the full default key of the text, or of its template when it has variables |
| ConversionService.MatchingRanges | src/services/text-conversion.ts:113 | exactly the ranges holding the text, each from the input |
| ConversionService.Candidates | src/services/text-conversion.ts:111-115 | the candidates are exactly the input ranges whose text is one of the texts |
| ConversionService.PlanDisjoint | src/services/text-conversion.ts:115-157 | no two planned edits overlap: there is no pair `a, b` with `a.start < b.end && a.end > b.start` |
| ConversionService.PlanMaximal | src/services/text-conversion.ts:117-121 | a candidate is dropped only when it overlaps an edit accepted before it |
| ConversionService.PlanPrefix | src/services/text-conversion.ts:111-159 | the plan only grows: the plan of a prefix is a prefix of the plan |
| ConversionService.PlanFromRanges | src/services/text-conversion.ts:123-130 | each planned edit has the start and end of an input range whose text is in `texts`, and its converted text |
| ConversionService.TextConversionService.ProcessConversions | src/services/text-conversion.ts:87-159 | with an editor, the saved edits are reset and then replaced by the plan; without one, nothing changes |
| ConversionService.TextConversionService.PlanRanges | src/services/text-conversion.ts:115-158 | the inner loop extends the saved edits and the processed ranges exactly as the plan does |
| ConversionService.TextConversionService.SetNamespace | src/services/text-conversion.ts:12-14 | the namespace is set, and the saved edits stay |
| ConversionService.InsertDesc | src/services/text-conversion.ts:241 | inserting adds exactly the one edit |
| ConversionService.SortDesc | src/services/text-conversion.ts:241 | the sort is a permutation |
| ConversionService.SortDescSorted | src/services/text-conversion.ts:241 | the sort yields non-increasing starts |
| ConversionService.SortDescStable | src/services/text-conversion.ts:241 | edits with equal starts keep their relative order |
| ConversionService.FixAllTs | src/services/text-conversion.ts:264-350 | in a `ts` document every edit is handed over as planned |
| ConversionService.FixUpTs | src/services/text-conversion.ts:264-350 | in a `ts` document both fix-ups return the edit unchanged |
| ConversionService.FixOne | src/services/text-conversion.ts:246-253 | one edit gets the props-binding fix, then the stringification fix |
| ConversionService.FixEdits | src/services/text-conversion.ts:243-255 | the loop yields both fix-ups of each sorted edit, one for one and in order |
| ConversionService.TextConversionService.ApplyConversionFromPreview | src/services/text-conversion.ts:207-261 | no texts, no editor or an unknown file type gives no edit and no change; otherwise the saved edits become the plan sorted by descending start, and each is fixed up in that order |
| ContextFixups.ContextStart | src/services/text-conversion.ts:272-275 | the backward scan stops at or before the edit, just after a white-space character or at 0, and passes no white space |
| ContextFixups.ContextEnd | src/services/text-conversion.ts:278-281 | the forward scan stops at or after the edit, within the text, at `' '`, at `'>'` or at the end, and passes neither |
| ContextFixups.NameEndSpec | src/services/text-conversion.ts:294 | the greedy `\w+(?:-\w+)*` scan passes only word characters and hyphens followed by one, and stops where neither follows |
| ContextFixups.NameEndAt | src/services/text-conversion.ts:294 | a name followed by `=` ends where the greedy scan from inside it stops, so backtracking to a shorter name never reaches the `=` |
| ContextFixups.LazyClose | src/services/text-conversion.ts:294 | the lazy `.*?` stops at the first closing text after the start: no line terminator and no earlier closing text lies before it |
| ContextFixups.LazyCloseFinds | src/services/text-conversion.ts:294 | any closing text reachable without a line terminator makes the lazy search succeed |
| ContextFixups.VueQuotedCallSpec | src/services/text-conversion.ts:294 | the captured call `t(…)` lies between `="{{` and `}}"` with no line terminator inside, and no shorter such call exists |
| ContextFixups.TsxQuotedCallSpec | src/services/text-conversion.ts:312 | the captured call `t(…)` lies between `="{` and `}"` with no `}` inside, and it is the only such call |
| ContextFixups.TsxTemplateCallSpec | src/services/text-conversion.ts:325 | the captured call `t(…)` lies between ``={`{`` and ``}`}`` with no backtick inside, and it is the only such call |
| ContextFixups.PropsAtSpec | src/services/text-conversion.ts:294-325 | the scan at an index finds a match exactly when a match starts there, and then the one name possible and the shortest call |
| ContextFixups.SearchPropsSpec | src/services/text-conversion.ts:295 | the search returns the scan at the first index where one succeeds, or nothing when none does |
| ContextFixups.SearchFirst | src/services/text-conversion.ts:295 | what the search finds is the match `String.match` reports: the leftmost start, then the shortest call there |
| ContextFixups.FirstMatchUnique | src/services/text-conversion.ts:295-297 | `String.match` reports at most one match, so the name and the call it yields are determined |
| ContextFixups.SearchFinds | src/services/text-conversion.ts:295-327 | the search finds nothing exactly when no index matches, and finds `pm` exactly when `pm` is the reported match |
| ContextFixups.PropsFixInContext | src/services/text-conversion.ts:288-339 | `vue` with a replacement wrapped in `{{…}}` and a match rewrites the edit to `:name="call"` over the context; `tsx` with `{…}` tries the quoted pattern, then the template one, and rewrites it to `name={call}`; otherwise the edit is kept |
| ContextFixups.PropsBindingFix | src/services/text-conversion.ts:264-340 | `ts` keeps the edit; otherwise the rewrite is the one above on the text between the backward and the forward scan, which enclose the edit, stay in the text and stop at white space, `' '` or `'>'` |
| ContextFixups.AttributeContext | src/services/text-conversion.ts:272-286 | for an edit of the whole value of `name="x"`, with white space or the start before it and a space, `>` or the end after it, the context is the attribute and the text there becomes `name="rep"` |
| ContextFixups.VueFirstMatch | src/services/text-conversion.ts:294-297 | in `name="{{call}}"`, with `call` on one line and free of `"`, the reported match is `name` with `call` |
| ContextFixups.TsxFirstMatch | src/services/text-conversion.ts:312-315 | in `name="{call}"`, with no `}` in `call`, the reported match is `name` with `call` |
| ContextFixups.VueAttributeBinding | src/services/text-conversion.ts:288-303 | in `vue`, replacing the whole value of such an attribute by `{{call}}` becomes `:name="call"` over the whole attribute |
| ContextFixups.TsxAttributeBinding | src/services/text-conversion.ts:306-321 | in `tsx`, replacing the whole value of such an attribute by `{call}` becomes `name={call}` over the whole attribute |
| ContextFixups.VueTitleBinding | src/services/text-conversion.ts:288-303 | in `<a title="X">`, the edit of offsets 10-11 to `{{t('k')}}` becomes `:title="t('k')"` over offsets 3-12 |
| ContextFixups.CheckAndFixPropsBinding | src/services/text-conversion.ts:264-340 | the two while-loops and the pattern tests compute the props-binding fix |
| ContextFixups.StringificationFix | src/services/text-conversion.ts:343-400 | `ts` and no match leave the edit as it is; on a match the range becomes `[max(0, start-1), min(|content|, end+1))` and the replacement loses 2 characters at each end for `vue` and 1 for `tsx` |
| ContextFixups.StringifiedFix | src/services/text-conversion.ts:343-400 | inside the text, a stringified context widens the edit by one character on each side and replaces it by the unwrapped call |
| ContextFixups.WrappedIsStringified | src/services/text-conversion.ts:364-377 | a wrapped call on one line between double quotes is one the patterns detect |
| ContextFixups.QuotesRemoved | src/services/text-conversion.ts:355-395 | a wrapped call between double quotes is replaced, quotes included, by the bare call |
| FlatJson.Put | src/services/locale-generation.ts:63 | after `obj[k] = v`, the key holds the value and every other key is unchanged |
| FlatJson.PutDistinct | src/services/locale-generation.ts:63 | assignment keeps the keys distinct |
| FlatJson.AssignGet | src/services/locale-generation.ts:60 | after `Object.assign`, a key holds the source's value if the source has it, else the target's |
| FlatJson.PathKeyInjective | src/services/locale-generation.ts:56 | different segment paths have different flat keys |
| FlatJson.FlattenDistinct | src/services/locale-generation.ts:51-69 | flattening never yields a key twice |
| FlatJson.FlattenLeaves | src/services/locale-generation.ts:51-69 | for a clean object, every path has its leaf under its dot key, and every key is the dot key of a path |
| FlatJson.FlattenJson | src/services/locale-generation.ts:51-69 | the recursive loop computes the flattening |
| FlatJson.UnflattenJson | src/services/locale-generation.ts:72-91 | the nested loops compute the unflattening, including the throwing case |
| FlatJson.ErrorPersists | src/services/locale-generation.ts:75-88 | once a key throws, the result is that error |
| FlatJson.SetPathSpec | src/services/locale-generation.ts:76-87 | with the way down open and nothing below, setting a path stores the leaf there and changes no other path |
| FlatJson.UnflattenHolds | src/services/locale-generation.ts:72-91 | for rebuildable keys, unflattening does not throw, and every path's leaf is the value of its dot key |
| FlatJson.RoundTrip | src/services/locale-generation.ts:51-91 | `flattenJson(unflattenJson(M))` has the same value under every key as `M`, when `M`'s keys have non-empty dot segments and none is a dot-prefix of another |
| FlatJson.SetPathBlocks | src/services/locale-generation.ts:77-87 | a successful descent leaves a string on its own path |
| FlatJson.SetPathKeepsBlocked | src/services/locale-generation.ts:77-87 | a later successful descent along any path keeps a string on a blocked path |
| FlatJson.BlockedStops | src/services/locale-generation.ts:79-85 | the descent along a longer path through a blocked one throws |
| FlatJson.BlockedUpTo | src/services/locale-generation.ts:72-91 | from a key on, the unflattening has thrown or has a string on that key's path |
| FlatJson.LeafBeforeLongerKey | src/services/locale-generation.ts:72-91 | `unflattenJson` throws whenever a key is followed, at once or later, by a key that extends it with a dot |
| JsStrings.SplitAppend | src/services/locale-generation.ts:76 | splitting `a.b` on dots gives the segments of `a` followed by those of `b` |
| LocaleGeneration.CollapseRunsFacts | src/services/locale-generation.ts:147 | after the collapse no character is doubled, and the other characters are kept in order |
| LocaleGeneration.CollapseRunsFixed | src/services/locale-generation.ts:147 | the collapse changes nothing exactly when no character is doubled; it is idempotent |
| LocaleGeneration.FilterKeyIsEntryKey | src/services/locale-generation.ts:135-330 | the filter key equals the entry key exactly when the key has no doubled backslash |
| LocaleGeneration.ConvertedCallNamesEntry | src/services/locale-generation.ts:303-330 | with a key-safe key, the call put into the source names the key the entry is stored under |
| LocaleGeneration.LocalesGenerationService.FilterTextsForTranslation | src/services/locale-generation.ts:121-166 | texts whose key is new are to be translated and the others are skipped, each list in input order; the skipped keys are the keys of the skipped texts |
| LocaleGeneration.LocalesGenerationService.LookupKey | src/services/locale-generation.ts:135-150 | the key is the template's key when there are variables, else the text's key, collapsed and under the namespace |
| LocaleGeneration.FilterClassifies | src/services/locale-generation.ts:134-159 | the two lists partition the input as subsequences; every skipped key exists; no text to translate has an existing key |
| LocaleGeneration.LocalesGenerationService.ProcessTextsToLocaleEntries | src/services/locale-generation.ts:284-352 | the loop computes the deduplicated entries of the texts |
| LocaleGeneration.LocalesGenerationService.BuildEntry | src/services/locale-generation.ts:300-333 | one entry: its key, its value after placeholders and quote removal, and its variables |
| LocaleGeneration.DedupShape | src/services/locale-generation.ts:336-348 | entry keys are pairwise distinct and not existing; `newKeys` are the entry keys in order; entries plus skipped keys account for every text |
| LocaleGeneration.DedupFirstWins | src/services/locale-generation.ts:336-348 | the entries are exactly the candidates whose key is new and not produced by an earlier text |
| LocaleGeneration.CandidateFacts | src/services/locale-generation.ts:301-347 | `variables` is present exactly when the text has variables; without variables the value is `removeQuotes` of the text to use |
| LocaleGeneration.MergeGet | src/services/locale-generation.ts:365-368 | the merged map maps each entry key to its value and keeps every other existing key |
| LocaleGeneration.SavedEntries | src/services/locale-generation.ts:365-371 | when the merged keys can be nested, the store is built, and reading it back gives the entry values and the untouched existing values |
| LocaleGeneration.LocalesGenerationService.SaveLocales | src/services/locale-generation.ts:364-371 | the merge, then the unflattening |
| LocaleGeneration.IndexMapIsLastIndex | src/services/locale-generation.ts:214-217 | the index map sends each text to its last index |
| LocaleGeneration.AlignedFiltered | src/services/locale-generation.ts:211-224 | each adjusted translation of a filtered text is the translation at the last index of that text |
| LocaleGeneration.LocalesGenerationService.AlignTranslations | src/services/locale-generation.ts:211-224 | the loop computes the alignment |
| LocaleGeneration.GenerationEarlyExits | src/services/locale-generation.ts:177-208 | the run stops without writing exactly when there is no text or every key exists; then all texts count as skipped |
| LocaleGeneration.GenerationKeys | src/services/locale-generation.ts:227-240 | the new keys and the skipped keys account for every text; new keys are distinct and not existing |
| LocaleGeneration.LocalesGenerationService.ProcessLocaleGeneration | src/services/locale-generation.ts:169-243 | the method computes the run's outcome |
| LocaleGeneration.LocalesGenerationService.SetNamespace | src/services/locale-generation.ts:12-14 | the namespace is set |
| LocaleGeneration.CleanFileNameFacts | src/services/locale-generation.ts:256-270 | the cleaned name is never empty; unless it is the fallback, it has no `..` and no `//` |
| LocaleGeneration.CollapsesKeep | src/services/locale-generation.ts:260-261 | a name without doubled dots or slashes is unchanged by the collapses |
| Spreadsheet.DataRow | src/services/spreadsheet.ts:117-131 | a 5-cell row with the key in column 0 and the value only in the language's column |
| Spreadsheet.DataRowCases | src/services/spreadsheet.ts:117-130 | the value goes in column 1/2/3/4 for `ko`/`en`/`zh`/`ja`; any other language leaves columns 1-4 empty |
| Spreadsheet.ConvertJsonToSheetData | src/services/spreadsheet.ts:106-135 | the loop computes the sheet of the flattened data |
| Spreadsheet.SheetDataShape | src/services/spreadsheet.ts:106-135 | the header `Key, Korean, English, Chinese, Japanese`, then one 5-cell row per flattened key, keys distinct and exactly those of the data |
| Spreadsheet.SheetColumn | src/services/spreadsheet.ts:117-130 | the value column of a language lies inside the five-column row |
| Spreadsheet.MergeColumn | src/services/spreadsheet.ts:172 | `ko`, `en`, `zh` and `ja` write to their columns 1, 2, 3 and 4 of a new sheet; any other language writes to column 4 |
| Spreadsheet.FindRow | src/services/spreadsheet.ts:181 | the first row after the header with the key, or -1 when none has it |
| Spreadsheet.MergeRowShape | src/services/spreadsheet.ts:177-192 | the header stays; a present key changes only its column; a new key appends one row |
| Spreadsheet.MergeRowsKeys | src/services/spreadsheet.ts:175-193 | the result's length is the existing length plus the number of distinct new keys not already present |
| Spreadsheet.MergeRowsKeepsCells | src/services/spreadsheet.ts:175-193 | existing rows keep every cell outside the language's column |
| Spreadsheet.MergeRowsLastWins | src/services/spreadsheet.ts:175-193 | a merged key's column holds its last new value; other keys keep their rows |
| Spreadsheet.MergeData | src/services/spreadsheet.ts:170-196 | the loop computes the merge |
| Spreadsheet.LanguageOfLocaleFile | src/services/spreadsheet.ts:258 | `locales.<lang>.json` has the language `<lang>` |
| Spreadsheet.LanguageOfDefault | src/services/spreadsheet.ts:258 | a name without `locales.` falls back to `ko` |
| Spreadsheet.LanguagesMembers | src/services/spreadsheet.ts:256-261 | the available languages are exactly those of the files |
| Spreadsheet.HeaderLabels | src/services/spreadsheet.ts:283-302 | `Key`, then the label of each language |
| Spreadsheet.BuildHeaders | src/services/spreadsheet.ts:283-302 | the loop computes the header row |
| Spreadsheet.CombinedHeader | src/services/spreadsheet.ts:283-304 | the header is `Key`, then the present languages in `ko, en, zh, ja` order; other languages are omitted |
| Spreadsheet.FirstSeen | src/services/spreadsheet.ts:251-270 | the key list is duplicate-free, has exactly the keys seen, and is in first-seen order |
| Spreadsheet.GatherKeys | src/services/spreadsheet.ts:266-271 | the gathered key list is the first-seen extension over the keys of every file in order |
| Spreadsheet.FileKeysMembers | src/services/spreadsheet.ts:263-271 | a key is among the file keys exactly when some file's entries have it |
| Spreadsheet.GatherConsistent | src/services/spreadsheet.ts:256-280 | the gathered key list is duplicate-free and holds exactly the keys of the value map |
| Spreadsheet.GatherLookup | src/services/spreadsheet.ts:269-276 | the value stored for a key and language is the one of the last file that has it |
| Spreadsheet.CombinedRows | src/services/spreadsheet.ts:306-319 | one row per distinct key in first-seen order, of header width, with the key in column 0; a cell is the last value for its language when that is non-empty, else empty |
| Spreadsheet.CombineMultipleLocales | src/services/spreadsheet.ts:249-322 | the loops compute the combined table |
| Spreadsheet.GatherPass | src/services/spreadsheet.ts:256-280 | the file loop computes the key list, the value map and the language set |
| Spreadsheet.BuildRows | src/services/spreadsheet.ts:306-319 | the header, then one row per key |
| TreeDataProvider.UpdatedItems | src/providers/tree-data-provider.ts:69-96 | every text becomes one item: the Korean texts pending and the others applied, each in input order |
| TreeDataProvider.I18nTreeDataProvider.UpdateData | src/providers/tree-data-provider.ts:69-99 | the two lists are rebuilt from the texts; the exclusions stay |
| TreeDataProvider.I18nTreeDataProvider.ExcludeText | src/providers/tree-data-provider.ts:113-121 | the ID is added, which hides exactly the visible items with that ID; nothing else changes |
| TreeDataProvider.I18nTreeDataProvider.IncludeText | src/providers/tree-data-provider.ts:123-131 | the ID is removed, so every pending item with it is shown again; nothing else changes |
| TreeDataProvider.I18nTreeDataProvider.ClearExcludedTexts | src/providers/tree-data-provider.ts:137-139 | the set is emptied, so the filtered texts are all texts; nothing else changes |
| TreeDataProvider.I18nTreeDataProvider.SetActive | src/providers/tree-data-provider.ts:101-103 | the flag is set; nothing else changes |
| TreeDataProvider.I18nTreeDataProvider.GetChildren | src/providers/tree-data-provider.ts:30-67 | the root has the pending section, counting and holding the non-excluded items, and the applied section; a section holds its items; anything else has none |
| TreeDataProvider.FilteredKoreanTexts | src/providers/tree-data-provider.ts:141-147 | the filtered texts are the order-preserving subsequence of the items whose ID is not excluded; with nothing excluded they are all texts |
| TreeDataProvider.ExcludeHides | src/providers/tree-data-provider.ts:113-114 | excluding one more ID filters the visible items by that ID |

## Left out

- The editor surface: decorations, highlighting, positions, `WorkspaceEdit`, refresh events and `setContext`. The document is its text, and edits are offset triples handed over in order.
- Running the user's key code with `new Function`. It is a function parameter returning `None` when it throws or returns a non-string.
- `removeQuotes`, `isQuotedText`, `getFileType` and `I18nItem`: their code is not part of this model. They are parameters. An unknown file type is `None`.
- File I/O: reading locale files, `JSON.parse` and `JSON.stringify`, writing files. `readExistingLocales` is given as a flat map; its empty-map fallback is that map being empty.
- The backslash fix-ups on the serialised JSON text (locale-generation.ts 375-385). They act on `JSON.stringify` output, which is not modelled.
- Paths and the project root (`path.join`, `resolvePath`, `getProjectRoot`). Only the file-name cleanup of `resolveOutputPath` is modelled.
- Translation network calls, progress and notifications. Translations are an input.
- Google Sheets authentication, reads and writes, and the monitoring timers and command wiring.
- JSON key enumeration order: a JavaScript object lists integer-like keys first. The model keeps the members in the order given.
- Non-object JSON, arrays and non-string leaves as locale values; own-property checks against prototype keys. Leaves are strings.
- `$` replacement patterns in `String.replace` strings. The replacements used (`{N}`, file names) are modelled as literal text.
- LocaleGeneration.LocalesGenerationService.ProcessLocaleGeneration: requires as many translations as texts. The source reads `translatedTexts[i]`, and an out-of-range index would give `undefined`.
- Spreadsheet.MergeData: requires rows after the header to have at least five cells. `mergeData` has no caller, and the rows it sees are of the `convertJsonToSheetData` shape.
- Spreadsheet.CombineMultipleLocales: a file that fails to read or parse is `None` and adds no entries. A file's content is a JSON object.
- Text offsets in UTF-16 code units: JavaScript's `.length`, indices and document offsets count UTF-16 code units. The model's `string` counts Unicode characters, so a character outside the Basic Multilingual Plane is one position here and two in the source. `ContextFixups.ContextStart`, `ContextFixups.ContextEnd`, `ContextFixups.StringificationFix` and `ConversionService.Overlaps` are exact only for text inside that plane, which includes all Korean text.
- Spreadsheet.MergeData: `[...existingData]` copies only the outer array, so the source's row updates also change the caller's row arrays. The model works on values and returns a new sheet without touching its input.
- Regular expressions: no general engine is modelled. Each of the three props patterns and the six stringification patterns has its own scanner. For the props patterns, the lemmas prove that the scanner finds the leftmost match, the greedy name and the lazy or bounded call that `String.match` reports.
- TreeDataProvider.I18nTreeDataProvider: the children of a section are computed; the item labels, tooltips and commands are not modelled. IDs of the form `text:start:end` come from the `uniqueId` parameter.
