# SEO-friendly image names, modelled in Dafny

This project models the pure logic of a DatoCMS plugin. The plugin renames the
assets of a product's image gallery to search-engine-friendly basenames such as
`shirts-classic-tee-image-3fa9c`. It also offers a configuration screen where
editors write a filename template that mentions fields of the model.

The model covers these parts of the code:

- `extractLocalizedString`: turns an untyped field value into one string for a
  locale. It searches keys by locale prefix and falls back to the base language.
  Module `Localized`.
- `intersectionOfArrays`: the elements of the first array that occur in every
  array. Module `Intersection`.
- From the gallery component:
  - `slugifyProductType` and `slugifyImageName` (module `Slug`).
  - The re-sort of fetched uploads into requested-id order, the target names,
    the "needs update" list with its `ext` fallback, and the state
    reconciliation after a single rename (module `Gallery`).
- From the configuration screen:
  - The `exampleString` template preview (module `Template`).
  - `getSupportedFields`, `mentionableFields` and `currentModelFields` (module
    `FieldSelection`).

Shared helpers live in `Wrappers` (`Option`, `Result`) and `JsText`. `JsText`
holds the JavaScript string primitives the code relies on: `startsWith`, the
regex classes `\s` and `.`, `split(sep)[0]`, lower-casing, how a template
literal prints a string that may be null or missing, and how an `Error` prints.

Every host call becomes a parameter: the uploads the host returns, its answer to
a rename, the sample record, the field and model maps. `localeCompare` becomes a
parameter `le` that is required to be a total preorder. JavaScript's sparse
arrays, which the re-sort can produce, are modelled as `seq<Option<Upload>>`,
with `None` for a hole.

Three facts about the code that the model follows:

- The product type is only lower-cased, with each whitespace run turned into
  one "-" and an "s" appended. No other characters are replaced, nothing is
  trimmed, and the handle is inserted as the template literal prints it, so a
  null or missing handle appears as "null" or "undefined". No general non-alphanumeric
  slugifier is applied to the whole name.
- Tokens are looked up as whole keys of the sample record. Dotted
  `local.model.remote` tokens are not resolved; that logic exists only in a
  commented-out block.
- A matching locale key that is the empty string counts as no match, because
  the code tests the key's truthiness. This is reachable only with the locale
  "" or a base language "".

## Model

| member | source | states |
|---|---|---|
| Localized.FindKey | src/utils/extractLocalizedString.ts:31-33 | The search answers the first key, in key order, that starts with the prefix; no answer means no key starts with it. |
| Localized.NonEmptyStringOr | src/utils/extractLocalizedString.ts:48-56 | A value yields itself exactly when it is a non-empty string, and "" otherwise. |
| Localized.Extract | src/utils/extractLocalizedString.ts:15-61 | A string input is returned unchanged. null, undefined, numbers and booleans give "". For an object, the first key starting with the full locale decides, with no fallback, even when its value is empty or not a string. The base language (text before the first "-") is tried only when no key starts with the full locale and the locale has a "-". No match gives "". The result is always "", the input string, or one of the object's string values. |
| JsText.BeforeFirst | src/utils/extractLocalizedString.ts:38 | `split("-")[0]` is the longest prefix without "-": it stops at the first "-", or is the whole string when there is none. |
| Intersection.IntersectionOfArrays | src/utils/intersectionOfArrays.ts:1-5 | The reduction equals the reference filter of the first array by membership in every array. No arrays give []. The result is never longer than the first array. |
| Intersection.KeepMembersStep | src/utils/intersectionOfArrays.ts:2-4 | One more filter step is the same as filtering against one more array. |
| Intersection.KeepCommonLength | src/utils/intersectionOfArrays.ts:2-5 | The result is at most as long as the array it filters. |
| Intersection.KeepCommonIsSubsequence | src/utils/intersectionOfArrays.ts:2-4 | The result is an order-keeping subsequence of the first array. |
| Intersection.KeepCommonCounts | src/utils/intersectionOfArrays.ts:2-5 | An element common to all arrays keeps every one of its occurrences in the first array; any other element does not occur. |
| Intersection.KeepCommonMembers | src/utils/intersectionOfArrays.ts:3-4 | Every element of the result occurs in every array and in the first one. |
| Intersection.KeepCommonSelf | src/utils/intersectionOfArrays.ts:1-5 | Filtering an array by arrays all equal to it gives the array back, so a single array is returned unchanged. |
| Intersection.IntersectionProperties | src/utils/intersectionOfArrays.ts:1-5 | No arrays give []. One array gives itself. The result is a subsequence of the first array, its elements are in every array, and common elements keep their full count. |
| JsText.LowerCase | src/components/SEOFriendlyImageNames.tsx:27 | Lower-casing keeps the length, maps each ASCII capital to its small letter, and keeps every other character. |
| Slug.DropWhitespace | src/components/SEOFriendlyImageNames.tsx:28 | Dropping a leading whitespace run leaves text that starts with a non-whitespace character or is empty. It is strictly shorter when there was leading whitespace and unchanged otherwise. |
| Slug.CollapseWhitespace | src/components/SEOFriendlyImageNames.tsx:28 | After `replace(/\s+/g, "-")` no whitespace is left, the text is no longer than before, and no capital letter is introduced. |
| Slug.CollapseIdentity | src/components/SEOFriendlyImageNames.tsx:28 | The replacement leaves a text unchanged exactly when it has no whitespace. |
| Slug.CollapseAppend | src/components/SEOFriendlyImageNames.tsx:28 | The replacement distributes over a concatenation whose join does not split a whitespace run. |
| Slug.CollapseRun | src/components/SEOFriendlyImageNames.tsx:28 | Each maximal whitespace run, however long, becomes exactly one "-". |
| Slug.SlugifyProductType | src/components/SEOFriendlyImageNames.tsx:23-33 | The slug ends in "s", so it is never empty, even for "". It has no whitespace and no capitals, and is at most one character longer than the product type. |
| Slug.SlugifyJoin | src/components/SEOFriendlyImageNames.tsx:23-33 | Two words separated by whitespace slug to the first word's collapsed form, one "-", and the second word's slug. |
| Slug.MediaKind | src/components/SEOFriendlyImageNames.tsx:46-48 | The kind is "video" exactly when a MIME type is given and starts with "video", and "image" otherwise, including when it is missing. |
| Slug.NumberSuffix | src/components/SEOFriendlyImageNames.tsx:163 | The suffix is the first min(5, length) characters of the md5. |
| Slug.SlugifyImageName | src/components/SEOFriendlyImageNames.tsx:35-50 | The name is the product-type slug, "-", the handle as the template literal prints it ("null" or "undefined" when it is null or missing), "-", then the kind, "-" and the suffix. |
| Gallery.ProductType | src/components/SEOFriendlyImageNames.tsx:76-85 | The product type is the collection's `product_type` when present, and "" when the collection or the field is missing. |
| Gallery.IndexOf | src/components/SEOFriendlyImageNames.tsx:115 | `indexOf` answers the first position of the id, or -1 exactly when the id was not requested. |
| Gallery.Store | src/components/SEOFriendlyImageNames.tsx:116 | Writing at an index sets that slot, grows the array with holes when the index is past the end, and leaves other slots as they were. |
| Gallery.Reorder | src/components/SEOFriendlyImageNames.tsx:111-119 | Each slot holds the last fetched upload whose id is first requested there. When the fetched ids are a permutation of distinct requested ids, there are no holes and slot i holds the upload with id `ids[i]`. |
| Gallery.ReorderRestoresOrder | src/components/SEOFriendlyImageNames.tsx:111-117 | For distinct requested ids fetched in any order, the re-sorted array spans exactly the ids and its i-th upload has the i-th id. |
| Gallery.UpdatedImageNames | src/components/SEOFriendlyImageNames.tsx:155-167 | There is one target name per slot and holes stay holes. Each name is built from that upload's MIME type and md5 prefix. |
| Gallery.MissingHandlePrinted | src/components/SEOFriendlyImageNames.tsx:49 | A product without a handle still gets names, with the text "null" or "undefined" where the handle would be. |
| Gallery.ExtSearch | src/components/SEOFriendlyImageNames.tsx:181 | The search answers the group of the leftmost match of `\.([0-9a-z]+)(?:[?#]\|$)` (case-insensitive), and nothing exactly when no position matches. |
| Gallery.Ext | src/components/SEOFriendlyImageNames.tsx:179-182 | The extension is `format` when it is not null. Otherwise it is the leftmost regex match in the filename, or "" when nothing matches. |
| Gallery.ThumbnailOf | src/components/SEOFriendlyImageNames.tsx:183-185 | The thumbnail is a 50x50 preview URL exactly when the MIME type starts with "image", and the video icon otherwise. |
| Gallery.ImagesNeedingUpdate | src/components/SEOFriendlyImageNames.tsx:170-193 | The list is no longer than the images, and every row's current basename differs from its computed one. |
| Gallery.ImagesNeedingUpdateExactly | src/components/SEOFriendlyImageNames.tsx:170-193 | The rows are exactly the uploads whose basename differs, case-sensitively, from the name computed at the same position, in gallery order. Each row carries that upload's id, current basename, computed name, extension and thumbnail. |
| Gallery.UpdateSingleFile | src/components/SEOFriendlyImageNames.tsx:195-228 | State changes exactly when the host answers with the requested basename. Then only uploads with the returned id are replaced, and length and all other slots are kept. A host error or a mismatch raises the matching error and leaves the list as it was. |
| Gallery.ReplaceByIdNeeding | src/components/SEOFriendlyImageNames.tsx:212-216 | Replacing an id's uploads by an upload already at its target name removes exactly that id's rows from the "needs update" list. |
| Gallery.RenameResolvesEntry | src/components/SEOFriendlyImageNames.tsx:210-216 | After a confirmed rename to the computed name, the "needs update" list is the old list without the renamed id's rows, other rows unchanged. |
| Gallery.ErrorText | src/components/SEOFriendlyImageNames.tsx:218-220 | A host error prints as its name, ": " and its message (only the non-empty one of them when the other is empty), so a network TypeError does not start with "Error: ". The basename check's error prints as "Error: Image <id> basename mismatch even after update: <returned> does not match <requested>". |
| Gallery.ConfirmedRenameAsWritten | src/components/SEOFriendlyImageNames.tsx:230-263 | As written, the "Updated to …" notice is shown whatever the rename's outcome. |
| Gallery.FailedRenameReportedAsDone | src/components/SEOFriendlyImageNames.tsx:222-224 | A rename the host rejects leaves an error in the outcome, yet the editor is shown the success notice. |
| Gallery.ConfirmedRename | src/components/SEOFriendlyImageNames.tsx:230-263 | With the error reaching the caller, the notice is shown exactly when the rename went through. Otherwise the "Failed to update …" alert names the current basename and the error, and the state is kept. |
| Template.FindClose | src/components/ManualFieldConfigScreen.tsx:202 | The search answers the first "}" with no line terminator before it, and nothing exactly when a line terminator comes before every later "}". |
| Template.TokenEnd | src/components/ManualFieldConfigScreen.tsx:202 | A match of `\{(.+?)}` at the head is the shortest one possible, and no match is found exactly when none exists. |
| Template.Parse | src/components/ManualFieldConfigScreen.tsx:202 | Reading the template loses nothing: the pieces write back to it. Each piece is read where the previous ones end: a token exactly where `\{(.+?)}` matches there, spanning its shortest match, and a single literal character exactly where no match starts. Every token is non-empty, has no line terminator, and contains "}" at most as its first character. |
| Template.ParseUnique | src/components/ManualFieldConfigScreen.tsx:202 | The global scan is unique: any pieces that write back to the template and are each read where the previous ones end are exactly the parse. |
| Template.FindEntry | src/components/ManualFieldConfigScreen.tsx:205 | The lookup answers the first property with exactly that key, or nothing when there is none. |
| Template.Lookup | src/components/ManualFieldConfigScreen.tsx:205 | A token's replacement is "" when there is no sample record, when the record has no property with that key, or when the value is null. Otherwise a string value is used as it is, a number or boolean by its text, and an object as "[object Object]". |
| Template.ReplaceIsRender | src/components/ManualFieldConfigScreen.tsx:202-206 | The substitution replaces each match, left to right, by the record's value for its token and keeps all other text in order. |
| Template.NoMatchUnchanged | src/components/ManualFieldConfigScreen.tsx:202-206 | A template in which the regex matches at no position is returned unchanged. |
| Template.EmptyBracesKept | src/components/ManualFieldConfigScreen.tsx:202 | A literal "{}" not followed by another "}" is not a token and stays in the text. |
| Template.NoBraceNoTokens | src/components/ManualFieldConfigScreen.tsx:202 | A template without "{" has no tokens. |
| Template.ExampleString | src/components/ManualFieldConfigScreen.tsx:198-209 | A missing or empty template gives no example. Otherwise the example is the rendered template, and a template without matches is returned unchanged. |
| FieldSelection.FilterSupported | src/components/ManualFieldConfigScreen.tsx:82-88 | The filter keeps every occurrence of the fields of the model whose type is string, slug, integer, float or link, and nothing else. |
| FieldSelection.Insert | src/components/ManualFieldConfigScreen.tsx:89-91 | Inserting into a list sorted by API key keeps it sorted and adds exactly the new field. |
| FieldSelection.SortByApiKey | src/components/ManualFieldConfigScreen.tsx:89-91 | The sorted list is ordered by API key under the comparison and is a permutation of its input. |
| FieldSelection.GetSupportedFields | src/components/ManualFieldConfigScreen.tsx:75-93 | The result is sorted by API key and is a permutation of exactly the model's fields of a supported type. |
| FieldSelection.MentionableFields | src/components/ManualFieldConfigScreen.tsx:95-140 | There is one suggestion per supported field, in the same order, with id the field's id and display its API key. |
| FieldSelection.MentionsSortedAndComplete | src/components/ManualFieldConfigScreen.tsx:95-140 | The suggestions offer every supported field of the current model and nothing else, by ascending display text. |
| FieldSelection.FromEntries | src/components/ManualFieldConfigScreen.tsx:145 | `Object.fromEntries` has exactly the entries' keys. A key's value comes from its last entry, and every pair of the map is one of the entries. |
| FieldSelection.FieldsByApiKey | src/components/ManualFieldConfigScreen.tsx:164-169 | The map has exactly the fields' API keys, and each key maps to one of the fields with that key. |
| FieldSelection.LookupItemTypes | src/components/ManualFieldConfigScreen.tsx:155-157 | Looking up the ids succeeds exactly when the host knows every id, and then gives the models in order. Otherwise it reports an unknown id. |
| FieldSelection.RelatedModels | src/components/ManualFieldConfigScreen.tsx:155-172 | The related models are keyed by the target models' API keys. Each holds one of the field's target models, the one with that API key, and that model's supported fields by API key. An unknown target is an error. |
| FieldSelection.RelatedEntriesKeys | src/components/ManualFieldConfigScreen.tsx:159-172 | The related-model entries have exactly the targets' API keys, and each describes its own model. |
| FieldSelection.EntryOf | src/components/ManualFieldConfigScreen.tsx:147-184 | A link field without `item_item_type` contributes nothing, a link field with it one linked entry, and any other field one plain entry. Each entry is keyed by the field's API key. A linked entry carries the related models of exactly that field's targets. |
| FieldSelection.ModelFieldEntries | src/components/ManualFieldConfigScreen.tsx:146-185 | The entries fail exactly when a kept link field names an unknown model. Otherwise their keys are exactly the API keys of the kept fields, each entry is linked exactly when its field is a link, and a linked entry carries the related models of its own field's targets. |
| FieldSelection.CurrentModelFields | src/components/ManualFieldConfigScreen.tsx:142-187 | The map has exactly the API keys of the supported fields, minus link fields without `item_item_type`. Each value is a supported field of the current model under its own key, and a link value carries the related models of its own field's targets. It fails exactly when a kept link field names an unknown model. |
| FieldSelection.CurrentModelFieldsByKey | src/components/ManualFieldConfigScreen.tsx:145-185 | When API keys are unique among the supported fields, every kept field is found under its own key. A link field's value then holds its target models keyed by their API keys, each one of the field's target models with its supported fields by API key. |

## Findings

| source | as written | input that shows it | evidently intended | confidence | as-written member | corrected member |
|---|---|---|---|---|---|---|
| src/components/SEOFriendlyImageNames.tsx:222-224 | `updateSingleFile` catches and only logs its own error, so the `try`/`catch` around it in `handleSingleFileUpdate` (lines 252-261) never sees a failure. The notice "Updated to …" is always shown. | The editor confirms a rename and the update call fails (for example a network TypeError "Failed to fetch"), or the host answers with a different basename. | The failure reaches the caller, which shows the "Failed to update …" alert instead of the success notice. | not executed; high (the caller's alert path is unreachable as written) | Gallery.ConfirmedRenameAsWritten (exhibited by Gallery.FailedRenameReportedAsDone) | Gallery.ConfirmedRename |

## Left out

- React state, hooks, memoisation and JSX rendering are not modelled. Only the pure computations are, as functions of explicit inputs.
- Host and network calls are not modelled: `buildClient`, `items.find`, `items.list`, `uploads.list` and `uploads.update`. Their results are parameters: the fetched uploads, the collection, the sample record, and the rename response.
- The errors these calls raise inside `fetchImageData` and the effect hooks are caught and logged; that path is not modelled.
- Console logging is not modelled.
- The bulk rename `updateAllFilesInParallel` is not modelled. It runs concurrent `Promise.all` updates, then a refetch, behind confirm dialogs.
- The confirm dialog of a single rename is not modelled. Only the path after the editor confirms is.
- src/utils/DebugTree.tsx, src/main.tsx, src/components/GlobalConfigScreen.tsx and src/utils/cmaClient.ts are not part of this model. They hold debug UI, wiring, static text and client setup.
- The commented-out link branch of `mentionableFields` and dotted cross-record tokens are not modelled, because that code is never run.
- JsText.LowerCase: `toLocaleLowerCase("en-US")` is modelled for ASCII letters only, so non-ASCII capitals such as "É" are kept as they are.
- FieldSelection.SortByApiKey: `localeCompare` is abstracted as a total preorder `le`. The result is proved sorted and a permutation. The stability of `Array.prototype.sort` for equal keys is not stated.
- FieldSelection.GetSupportedFields: the same abstraction of `localeCompare` applies, and the order among fields with equal keys is not stated.
- Localized.Extract: an object is given as its own properties in `Object.keys` order, with distinct keys. Arrays and functions are not separate shapes of `Value`; an array can be written as an object with index keys.
- Gallery.ErrorText: only thrown `Error` objects are modelled, as a name and a message. A thrown value of another kind, or an error whose name is not a string, is not.
- The product handle is modelled as a string, null or missing. Another kind of form value there, such as a number, is not modelled.
- Template.FindEntry: only the sample record's own properties are looked up. Inherited properties such as "constructor" are not modelled.
- Template.Lookup: an array-valued property, which `replace` would print as its elements joined by commas, is not modelled.
- The video-icon data URI is not modelled. `Thumbnail` has a `VideoIcon` constructor instead.
- The preview's memo dependencies are not modelled: `exampleString` is not recomputed when the sample record arrives. The model computes the preview from the record it is given.
