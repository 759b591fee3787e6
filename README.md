# mass_translate, modelled in Dafny

This project models the batch-translation pipeline `mass_translate` of the
Infinitranslate web application (main.py:39-115) and proves what it promises about
its answer whatever the translation service replies. The pipeline has four parts:

* the **normaliser** (module `Normalise`) turns every fragment into a bounded text with no `'\n'` or `'\r'`;
* the **reply parser** (module `Reply`) takes the translations out of the service's raw answer;
* the **retry-and-split engine** `translate_chunk` (module `Engine`) makes up to
  `max_retries` attempts on a chunk, falls back to the original text of a single
  fragment, and otherwise bisects the chunk;
* the **batch loop** (module `Planner`) cuts the input into slices of `batch_size`
  and concatenates their translations.

Module `Strings` models the Python string built-ins that these parts use. They are
`strip()` over the full `str.isspace()` set, `replace`, and `splitlines()` with all of
its line boundaries, where "\r\n" counts as one boundary. It also models `str(n)`.
Module `Comprehension` models the element-wise loop and the filtered list
comprehension in generic form. Module `Wrappers` holds `Option`.

The service is a parameter of type `Service = (nat, Prompt) -> Option<string>`. A call
gets the number of calls made before it and the prompt, and returns the text of the
reply, or `None` when the call raises. The number of earlier calls stands for
everything the service may depend on besides the prompt. The method that takes the
service also returns the number of calls it made.

Each loop of the source, and the recursion of `translate_chunk`, is a method proved
equal to a specification function:

- `CleanChunk` (main.py:45-50) computes `Cleaned`;
- `BuildListing` (main.py:73-74) computes `Listing`;
- `RetryLoop` (main.py:52-92) computes `Retry`;
- `TranslateChunk` (main.py:42-105) computes `Translate`;
- `MassTranslate` (main.py:107-115) computes `Plan`.

The properties are lemmas about those functions.

The engine functions (`Retry`, `TranslateWith`) and the batch function (`Plan`) are
generic. The engine sees the service only through the parsed replies (`Replies`).
The loop sees the engine only as a chunk translator (`Translator`). `RepliesOf` and
`EngineOf` tie them to the concrete pipeline. The length and call-count lemmas hold
for every service. The order lemmas (`TranslateInPlace`, `MassTranslateInPlace`)
hold for every service whose accepted answers translate unit by unit. The isolation
lemmas (`TranslateIsolates`, `MassTranslateIsolates`) hold when, in addition,
failures happen exactly on the non-empty chunks holding a bad unit. A service sees a fragment
only through its normal form, so at the top level a fragment is bad when its normal
form is in a given set. Module `BlankService` gives a concrete service that meets
these hypotheses with a non-empty set. It raises on every prompt whose listing shows
a blank fragment and answers all other prompts. Against it, `mass_translate` keeps
exactly the blank fragments untranslated. The refusal lemmas hold for a service whose
answers to the prompts for the target language are never accepted. Examples are
`Mute`, which answers every prompt with an apology, and `RaisesFor(lang)`, which
raises on every prompt for `lang` and answers the others.

## Model

| member | source | states |
|---|---|---|
| Strings.IsSpace | main.py:47 | the characters `str.isspace()` accepts, which `strip()` removes at either end of a fragment (main.py:47), of the raw reply (main.py:78) and of each payload (main.py:82); its contract is in Strip and StripOfPadded |
| Strings.IsLineBreak | main.py:78-82 | the boundaries `splitlines()` breaks at, "\r\n" counting as one; every one is whitespace, so the `strip()` of the raw reply removes those at its ends |
| Strings.DeleteChar | main.py:47 | `replace('\r', '')` leaves no `'\r'` and never lengthens the text (the multiset contract is DeleteCharCounts) |
| Strings.Strip | main.py:47 | `strip()` leaves no whitespace at either end, never lengthens, and gives "" exactly when the text is all whitespace |
| Strings.StripFixedPoints | main.py:47 | stripping twice is stripping once; a text is left alone exactly when it has no whitespace at either end |
| Strings.StripOfPadded | main.py:47 | whitespace around a stripped text is exactly what `strip()` removes |
| Strings.ReplaceChar | main.py:47 | `replace(c, d)` keeps the length and changes exactly the occurrences of `c` into `d` |
| Strings.DeleteCharCounts | main.py:47 | `replace('\r', '')` removes every `'\r'` and keeps every other character, as a multiset |
| Normalise.Flatten | main.py:47 | the flattened text holds neither `'\n'` nor `'\r'` |
| Normalise.Normalise | main.py:47-49 | a normalised fragment is at most 300 + 3 characters long |
| Normalise.NormaliseShape | main.py:47-49 | a normalised fragment holds no `'\n'` or `'\r'` and has no leading whitespace; it is cut exactly when the stripped, flattened text exceeds 300 characters, and empty exactly when the flattened text is all whitespace |
| Normalise.NormaliseForm | main.py:47-49 | a normalised fragment is stripped and either at most 300 characters long or its first 300 characters followed by "..." |
| Normalise.NormaliseIdempotent | main.py:47-49 | normalising a normalised fragment changes nothing |
| Normalise.NormaliseTwoLines | main.py:47 | a short fragment over two lines with whitespace around it becomes the two lines joined by one space |
| Normalise.Cleaned | main.py:45-50 | the cleaned chunk, the normal form of each fragment in chunk order, has one entry per fragment |
| Normalise.CleanedAt | main.py:45-50 | the cleaned chunk is as long as the chunk, and entry k is the normal form of fragment k |
| Normalise.CleanChunk | main.py:45-50 | the cleaning loop computes the element-wise normal form of the chunk |
| Normalise.BuildListing | main.py:73-74 | the loop appends `"{idx}. {text}\n"` for each cleaned unit, numbered from 1 |
| Normalise.Listing | main.py:73-74 | the text appended to the prompt: line `"{idx}. {text}\n"` for each cleaned unit, numbered from 1 (what it computes is stated by BuildListing and ListingLayout) |
| Normalise.ListingLayout | main.py:73-74 | when no unit holds a line boundary, the listing is exactly one line per unit, line k being `str(k + 1) + ". "` followed by unit k |
| Strings.NatToString | main.py:74 | `str(n)` is a non-empty digit string with no leading zero except for 0 itself (its value is NatToStringValue) |
| Strings.NatToStringValue | main.py:74 | `str(n)` is a digit string whose decimal value is n |
| Strings.Lines | main.py:82 | no line that `splitlines()` yields holds a line boundary |
| Strings.LinesOfJoin | main.py:82 | `splitlines()` recovers the lines that were joined with "\n" when none holds a boundary and the last is not empty |
| Reply.HasMarker | main.py:82 | `">>>" in line`, as a left-to-right search (its contract is HasMarkerIff) |
| Reply.HasMarkerIff | main.py:82 | the marker test holds exactly when `">>>"` occurs somewhere in the line |
| Reply.Payload | main.py:82 | `line[8:].strip()` is stripped and is "" for a line of at most 8 characters |
| Comprehension.KeepSelects | main.py:82 | the filtered comprehension has one entry per selected position, and entry k is `f` of the element at the k-th selected position |
| Comprehension.PositionsIncreasing | main.py:82 | the selected positions are strictly increasing, so the order of the reply is kept |
| Comprehension.PositionsComplete | main.py:82 | every element that passes the filter is selected |
| Reply.Parse | main.py:78-82 | the parser: strip the reply, split it into lines, keep the payload of every marked line; at most one entry per line (the full contract is ParseSelects) |
| Reply.ParseSelects | main.py:78-82 | the parsed list has one entry per marked line of the stripped reply, in reply order, with none missed; unmarked lines contribute nothing; entry k is the payload of the k-th marked line |
| Reply.Pad3 | main.py:59-60 | `f"{n:03d}"` for n below 1000 is exactly three digits |
| Reply.Pad3Value | main.py:59-60 | the three-digit number the prompt asks for has the unit's index as its decimal value |
| Reply.FormatReply | main.py:57-68 | the reply the prompt asks for, one line `III >>> text` per unit numbered from 001, joined by "\n"; it is empty exactly when there is no unit (ParseFormatReply is its round trip with the parser) |
| Reply.UnmarkedReply | main.py:78-82 | a reply with no `>` anywhere in it, such as an apology over any number of lines and with any surrounding whitespace, parses into no translation |
| Reply.ParseFormatReply | main.py:78-82 | a reply in the requested format, one `III >>> text` line per unit, parses back to exactly those texts |
| Engine.PromptFor | main.py:55-74 | the varying parts of the prompt: the language, the announced count `len(cleaned_chunk)` and the numbered listing |
| Engine.ParseReply | main.py:76-82 | a raised call gives no list and a reply always gives one, with at most one entry per character of the reply |
| Engine.RepliesOf | main.py:45-82 | the service as the engine sees it: the chunk is cleaned, the prompt built from it, and the reply parsed, `None` when the call raised |
| Engine.Accepted | main.py:84 | an attempt succeeds exactly when the call did not raise and the reply parses into one line per unit |
| Engine.Retry | main.py:52-92 | at most `max_retries` calls; a list is returned only when it has exactly one entry per unit, and it is the reply to the last call as parsed; every earlier call was refused; when nothing is accepted, every attempt was made |
| Engine.RetryLoop | main.py:52-92 | the retry loop, building the prompt and parsing each reply, computes `Retry`, an exception counting as a failed attempt |
| Engine.FirstAttemptAccepted | main.py:84-85 | an acceptable first answer is returned as parsed, with no padding or truncation, after one call |
| Engine.WellFormedAnswer | main.py:76-85 | a first reply in the requested format with one line per unit is the translation, after one call |
| Engine.Halves | main.py:101-103 | the halves are non-empty, strictly shorter, split at `len // 2`, and concatenate back to the chunk |
| Engine.TranslateWith | main.py:42-105 | `translate_chunk` on parsed replies: retries, the one-unit fallback, the split at `len // 2` and the left-then-right concatenation; calls are only ever added |
| Engine.Translate | main.py:42-105 | `translate_chunk` against a service, through `RepliesOf` |
| Engine.TranslateChunk | main.py:42-105 | `translate_chunk` computes `Translate`, including the original-text fallback for one unit and the left-then-right concatenation of the halves |
| Engine.TranslateLength | main.py:42-105 | for every non-empty chunk and every service, the result has exactly one entry per unit |
| Engine.TranslateInPlace | main.py:42-105 | when every accepted answer translates unit by unit with `g`, entry k of the result is unit k translated or unit k itself, whichever halves were translated and whichever fell back: the units stay in order |
| Engine.TranslateIsolates | main.py:42-105 | with at least one attempt, for any test `isBad` on units: when answers are accepted exactly for the non-empty chunks holding no bad unit and translate unit by unit, exactly the bad units keep their original text, each at its own position, and every other unit is translated |
| Engine.TranslateCalls | main.py:52-105 | a chunk of n units costs at most `Budget(max_retries, n)` calls |
| Engine.BudgetClosed | main.py:52-105 | that budget is `max_retries` * (2n - 1), one full set of attempts for each chunk the halving can produce |
| Engine.TranslateRefused | main.py:95-105 | when no answer about a non-empty chunk is ever accepted, the result is the chunk itself, element for element, after `max_retries` * (2n - 1) calls |
| Engine.NoRetries | main.py:52-105 | with `max_retries` = 0 no call is made and the chunk is returned unchanged |
| Engine.RefusingService | main.py:76-92 | a service that raises or miscounts on every prompt announcing at least one line has no answer about a non-empty chunk accepted |
| Engine.UnmarkedRefuses | main.py:76-92 | a service none of whose replies holds a `>` refuses every prompt announcing at least one line |
| Engine.MuteRefuses | main.py:76-92 | a service that answers every prompt with an apology holding no `>` refuses every such prompt, so the refusal lemmas apply to it |
| Engine.RaisesForSilent | main.py:76-92 | a service that raises on every prompt for `lang` has no answer for `lang` accepted, whatever it answers for other languages |
| Engine.RaisesForAnswers | main.py:76-92 | that service does not refuse every prompt, so the per-language hypothesis of MassTranslateRefused covers services that `Refuses` excludes |
| Planner.Batches | main.py:107-108 | the slices `text_list[i:i + batch_size]` for i = 0, bs, 2 bs, ... (its contract is in BatchAt, BatchesCount, BatchesSizes and BatchesConcat) |
| Planner.BatchAt | main.py:107-108 | batch k is `text_list[k*bs : (k+1)*bs]` cut at the end, and it exists for every slice start below the length |
| Planner.BatchesCount | main.py:107 | there are `ceil(len / bs)` batches, as many as steps of `range(0, len, bs)` |
| Planner.BatchesSizes | main.py:107-108 | every batch is non-empty with at most `bs` fragments, and all but the last hold exactly `bs` |
| Planner.BatchesConcat | main.py:107-108 | the batches concatenate back to the input |
| Planner.Plan | main.py:107-115 | the batch loop on a chunk translator: each slice translated in turn, the results appended in order, `None` as soon as a batch comes back empty |
| Planner.EngineOf | main.py:109 | `translate_chunk` as the loop's chunk translator: the empty chunk, which the loop never hands over, is answered with `[]` at no call, and the call counter never goes back |
| Planner.TranslateBatch | main.py:109 | one batch is answered by `translate_chunk` |
| Planner.MassTranslate | main.py:39-115 | the batch loop computes `Plan` for the engine against the service, with calls numbered from 0 |
| Planner.PlanSame | main.py:107-113 | the loop depends on the chunk translator only through the non-empty chunks it is handed |
| Planner.PlanTotal | main.py:107-115 | when every batch keeps its length, the `None` branch is never taken and the answer is as long as the input |
| Planner.PlanBatches | main.py:107-115 | when every batch keeps its length, the answer is the per-batch results concatenated in batch order |
| Planner.PlanKeepsText | main.py:107-115 | when every batch comes back unchanged, so does the input |
| Planner.MassTranslateTotal | main.py:107-115 | whatever the service does, `mass_translate` returns a list, never `None`, with one entry per input fragment |
| Planner.MassTranslateBatches | main.py:107-115 | whatever the service does, the answer is the translations of the batches in order |
| Planner.PlanInPlace | main.py:107-115 | when every batch comes back in place, the answer is in place: entry k belongs to fragment k |
| Planner.PlanIsolates | main.py:107-115 | when every batch leaves exactly its bad fragments untranslated, so does the whole answer |
| Planner.MassTranslateInPlace | main.py:39-115 | when the service's accepted answers translate unit by unit with `g`, entry k of the answer is fragment k translated or fragment k itself |
| Planner.MassTranslateIsolates | main.py:39-115 | a service that fails, among the prompts for non-empty chunks, exactly on those listing a fragment whose normal form is in `badForms`, and otherwise translates unit by unit with `g`, gets back one entry per fragment: fragment k itself when its normal form is in `badForms`, and `g` of fragment k otherwise |
| BlankService.ListingShowsBlank | main.py:45-74 | the listing sent to the service has a space right before a "\n" exactly when some fragment of the chunk normalises to the empty text, so a service can tell these chunks from the prompt alone |
| BlankService.ParseAnswerReply | main.py:78-82 | a reply of `n` identical lines `000 >>> X` parses into `n` copies of "X" |
| BlankService.BlankRefusingReplies | main.py:45-82 | through cleaning, prompt and parser, the service gives no answer for a chunk holding a blank fragment, and one "X" per fragment for every other chunk |
| BlankService.BlankRefusingIsolates | main.py:42-105 | the service meets both hypotheses of the isolation lemmas with the non-empty set of bad normal forms {""} |
| BlankService.BlankFragmentsKept | main.py:39-115 | against that service, with at least one attempt, `mass_translate` returns one entry per fragment: the original text of each fragment that normalises to "", each at its own position, and "X" for every other fragment |
| Planner.MassTranslateRefused | main.py:95-115 | against a service whose every answer to the prompts for `lang` is refused (one that raises on them, or apologises), `mass_translate` returns its input unchanged, whatever the service does for other languages |

## Left out

- `time.sleep(1.5)` (main.py:92) and the `print` calls are left out. The calls outside the `try` are taken not to raise. The print of the raw reply (main.py:80) sits inside the `try`: if it raised (say, a reply that the console's encoding cannot show), the attempt would fail although the reply was acceptable. The `None` reply covers that case as well.
- The Gemini SDK set-up and the remote `generate_content` call (main.py:6-8, 77) are replaced by the `Service` parameter. An exception, whether raised by the call or by `response.text`, is a `None` reply.
- The prose of the prompt (main.py:55-71) is fixed text. The prompt is modelled by the three parts that vary: the language, the announced count and the numbered listing.
- The Flask routes, the page download, the BeautifulSoup filtering and the node replacement (main.py:122-192) are not part of this model.
- The single-string `translate` (main.py:14-37) is outside the batch pipeline and not modelled.
- The `depth` parameter of `translate_chunk` (main.py:42, 102-103) has no effect and is dropped.
- Engine.TranslateChunk requires a non-empty chunk. For an empty chunk a reply is accepted only when it holds no marked line. When every reply holds one, when every call raises, or when `max_retries` = 0 and no attempt is made, the source splits `[]` into `[]` and `[]` again and again (main.py:101-103), until Python's recursion limit raises `RecursionError` at main.py:102, outside the `try`, so it escapes `mass_translate`. The batch loop only hands over non-empty slices. Planner.EngineOf answers the empty chunk with `[]` so that the translator is total, and the loop never asks.
- Planner.MassTranslate takes `batchSize: nat` with `requires batchSize > 0` and `maxRetries: nat`, so a few inputs of the source are outside the model. `batch_size = 0` raises `ValueError` at main.py:107. A negative `batch_size` gives an empty `range`, so the source returns `[]` for any input, and the length promise does not hold then. A negative `max_retries` gives no attempts, which is the same as 0.
- Reply.ParseFormatReply and Engine.WellFormedAnswer cover replies of fewer than 1000 lines, because the prompt's three-digit format (`Pad3`, main.py:59-60) exists only below 1000. The parser itself still gets a line such as `"1000 >>> Hola"` right, since the 9th character is a space that `strip()` removes. It goes wrong only at five digits: `"10000 >>> Hola"` gives `"> Hola"`. With the default `batch_size` of 500 no chunk has more than 500 lines.
- Normalise.ListingLayout assumes no cleaned unit holds a line boundary: normalisation turns "\n" into a space and deletes "\r" everywhere; other boundaries survive inside a unit: `splitlines()` also breaks at "\x0b", "\x0c", "\x1c"-"\x1e", "\x85", "\u2028" and "\u2029", so such a unit spans more than one line of the listing.
- Engine.TranslateInPlace and Engine.TranslateIsolates speak of services whose accepted answers translate unit by unit with one function `g`. When an accepted answer is arbitrary text, no lemma says which entry belongs to which unit beyond the length, the fallback texts and the left-then-right concatenation, and the source cannot tell either.
- Engine.TranslateCalls states an upper bound on the calls, not their exact number, which depends on the replies. The exact number when every answer is refused is in Engine.TranslateRefused.
- Python integers are unbounded, so no integer width is modelled. Strings are sequences of code points, as Python's `len` and slicing count them.
