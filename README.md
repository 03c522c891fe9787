# Page form completer, modelled in Dafny

QupZilla's password manager uses `PageFormCompleter` to do two things with a page:

- **Extract.** When a form is submitted, it reads the POST body and recovers the user name and password that were typed. It first rewrites a multipart (`------WebKitFormBoundary…`) body into `name=value&` form (`convertWebKitFormBoundaryIfNecessary`). It then decodes the body into an ordered list of key/value pairs (`createQueryItems`). Finally it looks, in every frame of the page, for a password input whose name and current value were submitted (`queryItemsContains`), and for that form's user-name field (`findUsername`).
- **Complete.** When a saved login is replayed (`completePage`), it writes each saved pair into every text, password, email or untyped input of that name.

The project models these operations and proves what they compute. It has one Dafny module per concern:

| module | file | what it holds |
|---|---|---|
| `Text` | text.dfy | substring search, `trimmed()`, `remove(c)`, `replace('+', ' ')` on `seq<char>` |
| `Normalizer` | normalizer.dfy | the multipart rewrite, with the minimal regular-expression match as two searches |
| `QueryItems` | query_items.dfy | decoded pairs, the first-key-wins lookup, the `+`-to-space post-pass |
| `Document` | document.dfy | input elements (a class with a mutable `value` attribute), forms, the frame tree, the breadth-first frame walk |
| `Username` | username.dfy | the five user-name selectors as an ordered list of rules |
| `Extraction` | extraction.dfy | `extractFormData` and the specification of its result |
| `Completion` | completion.dfy | `completePage` and the specification of the resulting attribute values |

Each imperative part of the source is a Dafny method, and its loops carry invariants. These parts are the rewrite loop, the post-pass loop, the frame walk, the two nested loops of `extractFormData` and the two nested loops of `completePage`. Each method is proved equal to a function or to a stated new state, and the properties are proved about those functions.

Two behaviours of the code are easy to misread:

- **Pair lookup.** A pair counts as submitted only when the *first* submitted item with that key carries the value. Being present somewhere in the list is not enough. See `QueryItems.ShadowedPairRejected`.
- **User-name check.** `findUsername` takes the first input with a non-empty name and live value from the earliest tier that has one. It does so *without* consulting the submitted pairs. Only that single pair is then checked against the body; later inputs of that tier and later tiers are not tried.

When no form confirms a user name, the result is the password of the *last* matching password input in scan order, not the first.

## Model

| member | source | states |
|---|---|---|
| Text.IndexOf | src/lib/autofill/pageformcompleter.cpp:171 | the result is -1 or an index at or after `from` where the pattern occurs, and the pattern occurs nowhere between `from` and the result |
| Text.Contains | src/lib/autofill/pageformcompleter.cpp:158 | true exactly when the pattern occurs at some index |
| Text.Trim | src/lib/autofill/pageformcompleter.cpp:177 | the result is the slice of the input left once its leading and trailing white space are cut off: everything outside the slice is white space, and the slice neither starts nor ends with white space; it is empty exactly when the input is all white space |
| Text.RemoveAll | src/lib/autofill/pageformcompleter.cpp:177 | the character no longer occurs; a first or last character that is not the removed one stays first or last |
| Text.RemoveAllOne | src/lib/autofill/pageformcompleter.cpp:177 | a single character is dropped exactly when it is the removed one |
| Text.RemoveAllAppend | src/lib/autofill/pageformcompleter.cpp:177 | removal distributes over concatenation, so every other character is kept, in order (with RemoveAllOne this fixes the result) |
| Text.PlusToSpace | src/lib/autofill/pageformcompleter.cpp:235-236 | same length, every `+` becomes a space, every other character stays where it was, and no `+` is left |
| Normalizer.FindMatch | src/lib/autofill/pageformcompleter.cpp:163-167 | a match found at or after `pos` ends, with its closing text, inside the data |
| Normalizer.FindMatchSpec | src/lib/autofill/pageformcompleter.cpp:163-167 | the two searches find exactly the leftmost match with the shortest capture, as minimal matching of `name="(.*)------WebKitFormBoundary` defines it, and find none only when no match exists at or after `pos` |
| Normalizer.CleanValue | src/lib/autofill/pageformcompleter.cpp:177 | the cleaned value holds no newline and neither starts nor ends with white space |
| Normalizer.CleanValueContent | src/lib/autofill/pageformcompleter.cpp:177 | the cleaned value is the raw text with its leading and trailing white space cut off and then every newline removed |
| Normalizer.ParseCaptureWellFormed | src/lib/autofill/pageformcompleter.cpp:171-183 | a captured group yields at most one pair; that pair has a non-empty name without `"` and a non-empty, newline-free, trimmed value |
| Normalizer.CaptureWithoutQuote | src/lib/autofill/pageformcompleter.cpp:171-174 | a capture without a `"` contributes nothing |
| Normalizer.CaptureAtFirstQuote | src/lib/autofill/pageformcompleter.cpp:171-183 | with its first `"` at `k`, a capture contributes the pair (text before `k`, cleaned text after `k`) when both are non-empty |
| Normalizer.CaptureAtFirstQuoteEmpty | src/lib/autofill/pageformcompleter.cpp:176-181 | with its first `"` at `k`, a capture contributes nothing when the text before `k` or the cleaned text after `k` is empty |
| Normalizer.FieldsFromWellFormed | src/lib/autofill/pageformcompleter.cpp:166-184 | every pair the scan emits is well formed |
| Normalizer.RenderCapture | src/lib/autofill/pageformcompleter.cpp:168-183 | the text appended for one capture is the `name=value&` rendering of what that capture contributes |
| Normalizer.RewriteCaptures | src/lib/autofill/pageformcompleter.cpp:162-186 | the loop's output is the rendering of all pairs found by successive leftmost-minimal matches, each search resuming after the previous closing text |
| Normalizer.ConvertWebKitFormBoundaryIfNecessary | src/lib/autofill/pageformcompleter.cpp:145-187 | the result is the body unchanged when it lacks the marker, and the rewrite of it otherwise |
| Normalizer.NormalizeWithoutMarker | src/lib/autofill/pageformcompleter.cpp:158-160 | a body without the marker passes through unchanged |
| Normalizer.NormalizeWithMarker | src/lib/autofill/pageformcompleter.cpp:162-186 | with the marker present the output is the `name=value&` rendering of a list of pairs that are all well formed |
| Normalizer.FormatParsesBack | src/lib/autofill/pageformcompleter.cpp:183 | splitting the output at `&` and each piece at its first `=` gives back the pairs in order, when no name holds `&` or `=` and no value holds `&` |
| QueryItems.FirstKeyMatches | src/lib/autofill/pageformcompleter.cpp:134-142 | a true answer means the exact pair is among the items |
| QueryItems.QueryItemsContains | src/lib/autofill/pageformcompleter.cpp:127-143 | false for an empty name or value; a true answer means the exact pair is among the items |
| QueryItems.FirstKeyMatchesSpec | src/lib/autofill/pageformcompleter.cpp:134-142 | the scan is true if and only if the first item keyed `name` has value `value`; it is false when no key matches |
| QueryItems.QueryItemsContainsSpec | src/lib/autofill/pageformcompleter.cpp:127-143 | true if and only if name and value are non-empty and the first item keyed `name` carries `value` |
| QueryItems.LaterItemsIgnored | src/lib/autofill/pageformcompleter.cpp:137-139 | once the key occurs, appending further items never changes the answer |
| QueryItems.ShadowedPairRejected | src/lib/autofill/pageformcompleter.cpp:137-139 | a pair present in the list is rejected when the first item with that key carries another value |
| QueryItems.Unplussed | src/lib/autofill/pageformcompleter.cpp:235-236 | key and value keep their lengths and hold no `+` |
| QueryItems.PlusPassShape | src/lib/autofill/pageformcompleter.cpp:233-238 | the post-pass keeps the number and order of the items, leaves no `+`, and changes no other character |
| QueryItems.PlusPassIdempotent | src/lib/autofill/pageformcompleter.cpp:233-238 | running the post-pass twice is the same as once |
| QueryItems.CreateQueryItems | src/lib/autofill/pageformcompleter.cpp:217-241 | the items are the decoder's items after the post-pass |
| Document.BfsVisitsEveryFrame | src/lib/autofill/pageformcompleter.cpp:247-253 | the walk visits exactly the frames of the tree, each as often as it occurs (same multiset as a pre-order listing), and as many as the tree has |
| Document.BfsStartsWithQueue | src/lib/autofill/pageformcompleter.cpp:247-253 | the frames already queued are visited first, in queue order |
| Document.FrameOrder | src/lib/autofill/pageformcompleter.cpp:247-253 | the walk of a page visits as many frames as the tree has, the main frame first |
| Document.CollectFrom | src/lib/autofill/pageformcompleter.cpp:251 | every collected element was selected in one of the visited frames |
| Document.GetAllElementsFromPage | src/lib/autofill/pageformcompleter.cpp:243-256 | the result is every frame's matches, concatenated in breadth-first frame order |
| Username.FirstEligible | src/lib/autofill/pageformcompleter.cpp:200-211 | a result is the (name, live value) of the first input that matches the selector and has both non-empty; no result means no such input |
| Username.FindUsername | src/lib/autofill/pageformcompleter.cpp:189-215 | with the selectors as written, a pair is found exactly when some input of the form has a non-empty name and live value, and it is always such an input's pair |
| Username.FindUsernameBy | src/lib/autofill/pageformcompleter.cpp:189-215 | the result is the empty pair or has a non-empty name and value |
| Username.FindUsernameTiers | src/lib/autofill/pageformcompleter.cpp:199-214 | the tiers are tried in order: the result is the first eligible input of the earliest tier that has one, and the empty pair when no tier has one |
| Username.FindUsernameFromForm | src/lib/autofill/pageformcompleter.cpp:199-211 | a non-empty result is the pair of an input of the form that is the first hit of some tier |
| Username.LastSourceRuleMatchesEverything | src/lib/autofill/pageformcompleter.cpp:197 | read as the predicate it spells, the fifth selector matches every input, hidden and password ones included |
| Username.IntendedRulesSkipHiddenAndPassword | src/lib/autofill/pageformcompleter.cpp:192-197 | with the corrected fifth selector, no selector matches a hidden or password input |
| Username.IntendedUsernameNotHiddenOrPassword | src/lib/autofill/pageformcompleter.cpp:189-215 | with the corrected selectors, a non-empty user name is never taken from a hidden or password input |
| Extraction.PasswordInputsSpec | src/lib/autofill/pageformcompleter.cpp:56 | the selection keeps exactly the form's inputs typed `password` |
| Extraction.PasswordInputsAppend | src/lib/autofill/pageformcompleter.cpp:56 | the selection keeps document order: selecting from two runs of inputs is selecting from each in turn |
| Extraction.FormCandidatesValid | src/lib/autofill/pageformcompleter.cpp:58-62 | each candidate of a form is one of its inputs whose (name, live value) was submitted |
| Extraction.FormCandidatesAppend | src/lib/autofill/pageformcompleter.cpp:58-62 | candidates keep input order |
| Extraction.FormCandidatesComplete | src/lib/autofill/pageformcompleter.cpp:58-62 | every input whose (name, live value) was submitted is a candidate |
| Extraction.CandidatesValid | src/lib/autofill/pageformcompleter.cpp:54-62 | each candidate is a password input of one of the page's forms whose pair was submitted |
| Extraction.CandidatesAppend | src/lib/autofill/pageformcompleter.cpp:54-62 | candidates keep form order |
| Extraction.CandidatesComplete | src/lib/autofill/pageformcompleter.cpp:54-62 | every password input of the page's forms whose pair was submitted is a candidate |
| Extraction.SubmittedPasswordFound | src/lib/autofill/pageformcompleter.cpp:54-87 | a submitted password input in any form of the page means a password is reported |
| Extraction.FirstConfirmed | src/lib/autofill/pageformcompleter.cpp:66-70 | the index is that of the first candidate whose form's user-name pair was submitted, or the number of candidates when there is none |
| Extraction.Expected | src/lib/autofill/pageformcompleter.cpp:54-89 | a password is reported exactly when some candidate exists, and it is a candidate's live value; a user name only comes with a password, from a candidate's form whose user-name pair was submitted |
| Extraction.SearchForm | src/lib/autofill/pageformcompleter.cpp:55-73 | the inner loop stops exactly when the form has a candidate and its user-name pair was submitted, with the first candidate's password; otherwise the password is the last candidate's, or the incoming one |
| Extraction.SearchForms | src/lib/autofill/pageformcompleter.cpp:54-78 | the two loops compute the specified credentials |
| Extraction.FoundIn | src/lib/autofill/pageformcompleter.cpp:75-77 | breaking out at a form whose candidates confirm gives that form's user name and first candidate's password |
| Extraction.NoneConfirmed | src/lib/autofill/pageformcompleter.cpp:80-87 | when no candidate confirms, the last candidate's password is reported with no user name |
| Extraction.ExtractFormData | src/lib/autofill/pageformcompleter.cpp:33-90 | the stored body is the normalised one; an empty body or one without `=` gives nothing found; `found` holds exactly when the password is non-empty; otherwise the credentials are the specified ones for the page's forms and the decoded pairs |
| Extraction.PasswordOnlyFormAsWritten | src/lib/autofill/pageformcompleter.cpp:193-197 | as written, with the selectors read as the predicates they spell, a form whose only input is a password input reports that password as the user name too |
| Extraction.PasswordOnlyFormIntended | src/lib/autofill/pageformcompleter.cpp:193-197 | with the corrected fifth selector, the same form reports the password and no user name |
| Completion.FillLastWins | src/lib/autofill/pageformcompleter.cpp:103-123 | a completable input ends up with the value of the last item keyed by its name |
| Completion.FillUntouched | src/lib/autofill/pageformcompleter.cpp:112-123 | an input of another type, or whose name is no key, keeps its value |
| Completion.FillIdempotent | src/lib/autofill/pageformcompleter.cpp:92-125 | completing an already completed input changes nothing |
| Completion.ApplyItem | src/lib/autofill/pageformcompleter.cpp:112-123 | every input of a completable type named `key` gets `value`, and every other input keeps its value |
| Completion.CompletePage | src/lib/autofill/pageformcompleter.cpp:92-125 | every input of the page ends with the value specified for its type, name and previous value from the decoded pairs |

## Left out

- The percent-decoding of `QUrlQuery`/`QUrl::fromEncoded` is not modelled. It is the parameter `decode`, and only the `+`-to-space post-pass after it is modelled.
- The Qt 4 branch of `createQueryItems` (`replace('+', ' ')` before decoding) is not modelled; the Qt 5 branch is.
- The regular-expression engine is replaced by two substring searches. The model proves that they find the leftmost, minimal match of the one pattern used.
- Bytes versus characters are not modelled. `QByteArray` and `QString` are both `seq<char>`, so the Latin-1/UTF-8 conversions between them and the positions they shift are not captured.
- Text.Trim: only the six ASCII white-space characters count as white space, not the rest of Unicode's.
- The page is an in-memory value, not a live `QWebPage`. `evaluateJavaScript("this.value")` is a fixed field `live` of each input. `findAll`/`findAllElements` are explicit selections: `Form.inputs`, `Frame.forms`, `Frame.inputs`, `PasswordInputs`, and the `Username.Rule` predicates.
- Attribute values are compared exactly; the CSS engine's own matching rules, such as case-insensitive `type` values, are not modelled.
- Writing the `value` attribute in `completePage` does not change an input's `live` value.
- Completion.CompletePage: it requires that the page's inputs exist when it starts. The source has no such condition; the requirement only states that the element objects are already allocated.
- Username.SourceRules: the selectors are read as the predicates they spell. Whether the browser's selector engine accepts the fallback selector is not modelled. CSS Selectors Level 3 allows only a simple selector inside `:not()`, so an engine may reject this one; `findAll` would then return no inputs and the fifth tier would match nothing.
- Extraction.ExtractFormData: it takes the list of user-name selectors as the parameter `rules`. The source's list is `Username.SourceRules`.
- The `qDebug` diagnostic for a body without `=` and the constructor that stores the page are not modelled.

## Findings

| source | as written | input that shows it | evidently intended | confidence | as-written member | corrected member |
|---|---|---|---|---|---|---|
| src/lib/autofill/pageformcompleter.cpp:197 | read as the predicate it spells, the fallback selector `input:not([type="hidden"][type="password"])` excludes inputs typed both hidden and password at once, which is no input, so it matches every input (an engine that rejects the compound `:not()` argument would instead match nothing) | a form whose only input is a password input named `pass` with value `secret`, body `pass=secret`: the password input is also taken as the user-name field and the result is user name `secret`, password `secret` | exclude hidden inputs and password inputs (`input:not([type="hidden"]):not([type="password"])`), giving user name empty and password `secret` | not executed | Extraction.PasswordOnlyFormAsWritten | Extraction.PasswordOnlyFormIntended |
