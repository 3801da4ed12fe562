# Equipment-text parsing and normalisation, modelled in Dafny

The application behind this model is a Streamlit page. On it a sales
engineer picks one record of test equipment, such as an Agilent E4980A
with options `001/710/710`. The page extracts brand, model and option
codes, normalises them, optionally through a language model, and shows an
options table. This project models the deterministic part of that
pipeline and proves what it does.

- **`Parsing`** models `parsing.py`.
  - `parse_query` strips the text and finds the first `/`. It takes brand
    and model as the first two whitespace tokens before that slash that are
    not one of nine stop words (compared in lower case). It then walks from
    slash to slash to find where the options fragment ends.
  - `split_options_deterministic` cuts a fragment on `/`, strips each piece
    and drops the empty ones.
  - Both are methods with the source's loops. Each is proved equal to a
    declarative function (`ParsedQueryOf`, `SplitOptions`), and the
    properties are proved about those functions.
- **`App`** models the glue in `app.py`:
  - reading the `eqBrand`, `eqModel` and `options` fields of a tab-separated
    record;
  - the option filter that drops codes repeating the brand or model;
  - the analysis payload, on the no-client path, the language-model path
    and the exception fallback;
  - the validation of the category named by the language model;
  - `|` escaping in the Markdown table.
- **`Prompting`** models the deterministic parts of `prompting.py`:
  - the user prompt;
  - the shape check applied to the language model's reply;
  - the fallback records of the marketplace search.
- **`PyStr`** gives the Python string primitives the code relies on:
  `str.strip`, `str.split()`, `str.split(sep)`, `str.find`, `sep.join`,
  `str.lower` and the last-index semantics of a dict comprehension.
- **`JsonValue`** gives the values `json.loads` can produce, together with
  Python's `key in value` test on each of them.
- **`Wrappers`** holds `Option` and `Result`.

The chat-completion call is a parameter `complete: string -> Completion`.
A `Completion` is either the reply content (possibly missing) or the error
the call raised. `json.loads` is a parameter
`decode: string -> Result<Json, string>`. The API key the application ships
with is empty (app.py:35), so `get_openai_client` never returns a client.
The model keeps the key as a parameter of `AnalyzeSelection`, so both
paths are covered.

## Model

| member | source | states |
|---|---|---|
| PyStr.Strip | parsing.py:38 | `str.strip()`: the result has no whitespace at either end (the whitespace set is Python's `str.isspace`) |
| PyStr.StripSlice | parsing.py:38 | the stripped text is the contiguous slice of the input after its leading whitespace, and it is empty exactly when the input is all whitespace |
| PyStr.StripDropsOnlySpace | parsing.py:38 | every character before and every character after the stripped slice is whitespace, so `strip()` removes nothing else |
| PyStr.SplitWords | parsing.py:45 | `str.split()`: every word is non-empty and holds no whitespace |
| PyStr.SplitWordsCons | parsing.py:86 | a word followed by whitespace splits off as the first word, and the rest is split on its own |
| PyStr.SplitWordsAvoid | parsing.py:86 | a character missing from the text is missing from every word `split()` yields |
| PyStr.Find | parsing.py:41 | `str.find`: -1 exactly when the character does not occur from `start` on; otherwise the index of its first occurrence from `start` |
| PyStr.LastIndexOf | app.py:122 | -1 or the index of an occurrence, with no occurrence after it |
| PyStr.SplitOn | parsing.py:131 | `str.split(sep)`: at least one piece, and no piece holds the separator |
| PyStr.JoinSplitOn | parsing.py:131 | joining the pieces of `split(sep)` with `sep` gives the text back |
| PyStr.SplitOnJoin | app.py:289 | splitting the `sep`-join of separator-free pieces gives those pieces back |
| PyStr.Join | app.py:289 | `sep.join(parts)`: the pieces with `sep` between neighbours; `SplitOnJoin` and `JoinSplitOn` make it the inverse of `split(sep)` |
| PyStr.LowerChar | parsing.py:47 | `c.lower()` for one character: the capitals A to Z become a to z, and a character outside ASCII other than the Kelvin sign stays outside ASCII |
| PyStr.Lower | parsing.py:89 | `s.lower()`: the lower-cased text has the same length as the text |
| PyStr.LowerAt | app.py:287 | the model's lower-casing maps each character on its own (ASCII and Latin-1 capitals and the Kelvin sign to lower case, everything else unchanged) and keeps the length |
| PyStr.LowerCharIdempotent | app.py:287 | lower-casing one character twice is lower-casing it once |
| PyStr.LowerIdempotent | app.py:287 | lower-casing a text twice is lower-casing it once |
| Parsing.FilterStopWords | parsing.py:89 | the kept words are none of the nine stop words, compared after lower-casing |
| Parsing.IsStopWord | parsing.py:47 | `word.lower() in [...]`: the lower-cased word is one of the listed connecting words (`StopWords`: with, options, option, like, such, as, enter, a, query, with `like` listed twice) |
| Parsing.StopWordIgnoresCase | parsing.py:47 | a word and its lower-cased form are stop words together |
| Parsing.StopWordSamples | parsing.py:89 | "With" and "OPTION" are stop words, whatever their case |
| Parsing.NonStopWordSamples | parsing.py:89 | "has", "to", "be" and "delivered" are not stop words: only the listed words are filtered |
| Parsing.NotStopWord | parsing.py:89 | a lower-case word missing from the list is not a stop word |
| Parsing.LowerOfLowerCase | parsing.py:89 | a word of the letters a to z is its own lower-cased form |
| Parsing.BrandOf | parsing.py:92 | `filtered_words[0] if filtered_words else ""`: the first word left by the stop-word filter, or ""; `BrandAndModelChoice` and `BrandModelOfWords` state what it is |
| Parsing.ModelOf | parsing.py:93 | `filtered_words[1] if len(filtered_words) > 1 else ""`: the second word left by the filter, or ""; `BrandAndModelChoice` and `BrandModelOfWords` state what it is |
| Parsing.CandidateWords | parsing.py:85-86 | the words brand and model are drawn from: `split()` of the stripped text without a `/`, else of the stripped text before the first `/`; `CandidateWordsBeforeSlash` states what they are |
| Parsing.RawOptionsOf | parsing.py:104-107 | the options fragment of the stripped text: "" without a `/`, else the stripped slice from the first `/` to `OptionsEnd`; its shape is stated by the `RawOptions...` lemmas |
| Parsing.ParsedQueryOf | parsing.py:38-109 | the declarative `parse_query`: brand and model from `CandidateWords`, options fragment from `RawOptionsOf` of the stripped text; `ParseQuery` is proved equal to it |
| Parsing.ParseQuery | parsing.py:38-109 | the loop-based parser returns exactly `ParsedQueryOf(text)`: brand and model from the words before the first `/` (all words when there is none), and the options fragment from the slash scan |
| Parsing.ScanOptionsEnd | parsing.py:57-82 | the slash-to-slash walk terminates (the position moves strictly forward to the next `/`) and ends the fragment at `OptionsEnd`: the end of the text when no space follows the last `/`, else just past that `/` |
| Parsing.FirstMeaningful | parsing.py:89-93 | the index of the first word that is not a stop word; every word before it is a stop word |
| Parsing.FilterStopWordsHead | parsing.py:89 | the filter keeps the first meaningful word and then filters the words after it |
| Parsing.BrandAndModelChoice | parsing.py:47-51 | brand is the first non-stop word (or ""); model is the first non-stop word after the brand (or "") |
| Parsing.CandidateWordsBeforeSlash | parsing.py:85-86 | the candidate words are non-empty, whitespace-free and hold no `/`; that words after the first slash never become brand or model follows from `CandidateWords` splitting only `t[..slash]`, and `ParsedBrandModelIgnoresTail` states it |
| Parsing.BrandModelOfWords | parsing.py:89-93 | brand and model are words of the list that are not stop words, and a model is only found when a brand is |
| Parsing.ParsedBrandModel | parsing.py:47-51 | for every text, brand and model are not stop words, keep their casing, are words before the first `/` without `/`, and model non-empty implies brand non-empty |
| Parsing.ParsedBrandModelIgnoresTail | parsing.py:85-93 | two texts that agree up to their first `/` get the same brand and model |
| Parsing.FirstSlashAfter | parsing.py:41 | in `head + "/" + tail` with no `/` in `head`, the first `/` sits right after `head` |
| Parsing.OptionsEnd | parsing.py:61-82 | the fragment ends after the last `/` and within the text |
| Parsing.RawOptionsNoSlash | parsing.py:43-53 | without a `/` the options fragment is "" |
| Parsing.RawOptionsSpaceAfterLastSlash | parsing.py:66-78 | when a space follows the last `/`, the fragment is exactly the slice from the first `/` to the last `/` inclusive, so the trailing word is dropped |
| Parsing.RawOptionsNoSpaceAfterLastSlash | parsing.py:67-69 | when no space follows the last `/`, the fragment is the whole rest of the stripped text from the first `/` |
| Parsing.RawOptionsShape | parsing.py:104 | with a `/`, the fragment is non-empty, starts with `/`, is stripped, and is a prefix of the text from the first `/` |
| Parsing.RawOptionsUnstripped | parsing.py:104 | in a stripped text, stripping the slice from the first `/` to the end index changes nothing |
| Parsing.SlashSliceStripped | parsing.py:104 | a slice that starts and ends with `/` is unchanged by `strip()` |
| Parsing.SlashSuffixStripped | parsing.py:104 | the rest of a stripped text from a `/` on is unchanged by `strip()` |
| Parsing.SlashSlicePrefix | parsing.py:104 | a slice starting at a `/` is non-empty, starts with `/` and is a prefix of the rest of the text |
| Parsing.IntendedOptionsEnd | parsing.py:71-75 | the corrected end index lies after the last `/` and within the text |
| Parsing.TrailingWordKeptOnlyByIntended | parsing.py:72-78 | when a word follows the last `/`, the code as written ends the fragment at that `/`, while the corrected scan appends the word |
| Parsing.IntendedRawOptionsAtSpace | parsing.py:71-75 | the corrected fragment is the slice up to the last `/` followed by the trailing word, which is non-empty |
| Parsing.StripSlashThenWord | parsing.py:72 | stripping a slice that starts with `/` and ends in a word keeps both |
| Parsing.CleanPieces | parsing.py:131-134 | the kept pieces are non-empty and stripped, never more than the pieces given, and hold no `/` when the pieces hold none |
| Parsing.SplitOptions | parsing.py:126-136 | every option returned is non-empty, stripped and free of `/` |
| Parsing.SplitOptionsDeterministic | parsing.py:112-136 | the loop returns exactly `SplitOptions(raw)`: "" gives `[]`, and otherwise the stripped non-empty pieces in order |
| Parsing.CleanPiecesStep | parsing.py:131-134 | one more piece appends its stripped form when that is non-empty |
| Parsing.CleanPiecesOfOptions | parsing.py:131-134 | cleaning options that are already clean changes nothing |
| Parsing.SplitOptionsOfJoin | parsing.py:126-136 | splitting the `/`-join of clean options gives the same list, in order and with duplicates |
| Parsing.SplitOptionsRoundTrip | parsing.py:126-136 | re-splitting the joined output of the splitter gives the same list |
| Parsing.SplitOptionsSample | app.py:91 | `"001/710/710"` splits into `["001", "710", "710"]` (order and the duplicate are kept) |
| JsonValue.Contains | prompting.py:384 | Python's `in`: key membership for a dict, element membership for a list, a substring test for a str (true exactly when the key is a slice of the string), and a TypeError for null, bool and numbers |
| JsonValue.SubstringAt | prompting.py:384 | `needle in hay` on two strings holds exactly when `needle` is the slice of `hay` at some position |
| Prompting.BuildUserPrompt | prompting.py:188-211 | the prompt is the fixed head, the original text verbatim, then the fixed tail |
| Prompting.PromptRoundTrip | prompting.py:201-211 | the original text can be read back out of the prompt |
| Prompting.BuildUserPromptInjective | prompting.py:201-211 | different texts give different prompts |
| Prompting.ReplyText | prompting.py:380 | missing or empty content reads as `"{}"`; other content is used as is |
| Prompting.NormalizedRecord | prompting.py:385-392 | the record holds the keys "normalized" and "results" |
| Prompting.NormalizedRecordIsFallback | prompting.py:385-403 | a normalised record equals the fallback record `FallbackRecord` exactly when brand and model are "" and there are no options |
| Prompting.StrArray | app.py:313 | the JSON list has one string per option, in order |
| Prompting.CheckNormalized | prompting.py:381-403 | the result always holds "normalized"; a decoded value holding "normalized" is returned unchanged; a decode error, a value lacking the key, and a value on which `in` raises give the fallback record |
| Prompting.CheckNormalizedIdempotent | prompting.py:381-403 | checking an already checked value changes nothing |
| Prompting.NormalizeOptionsViaLlm | prompting.py:320-403 | a failing call is the only error and surfaces unchanged; otherwise the result holds "normalized" and is either the fallback record or the decoded reply |
| Prompting.EmptyReplyGivesFallback | prompting.py:380-392 | a missing or empty reply yields the fallback record |
| Prompting.UsableReplyKept | prompting.py:382-393 | a reply that decodes to a value holding "normalized" is returned as decoded |
| Prompting.EmptySearch | prompting.py:495-507 | the empty answer holds "search_results" and has no results, zero totals and quality "low" |
| Prompting.SearchFailedRecord | prompting.py:514-526 | the answer on any exception: an empty search with price range "Search failed" and the error in its one recommendation |
| Prompting.EmptySearchRecordsDiffer | prompting.py:494-526 | `NoResultsRecord` and every `SearchFailedRecord` are empty searches, and the two differ ("No results found" against "Search failed") |
| Prompting.CompleteMarketplaceSearch | prompting.py:478-526 | the answer always holds "search_results"; a failed call or decode gives the "Search failed" record; a decoded value holding "search_results" is returned as it is, one without it gives the no-results record, and one on which `in` raises gives the "Search failed" record with that error |
| Prompting.MarketplaceFallbackIsEmpty | prompting.py:494-526 | every answer that is not the decoded reply is an empty search with zero results and quality "low" |
| Prompting.EmptyReplyGivesNoResults | prompting.py:490-507 | a missing or empty reply gives the no-results record |
| App.NoClientConfigured | app.py:35-52 | with the configured empty key there is no client |
| App.ClientAvailable | app.py:43-52 | `get_openai_client` returns a client exactly when the key is non-empty |
| App.ColumnMap | app.py:121-122 | the header map has exactly the header names as keys, each mapped to its last position |
| App.FieldAt | app.py:132-135 | a missing name or a short row gives ""; otherwise the field at the mapped index |
| App.ExtractFromSelectedLine | app.py:103-137 | brand, model and options are the fields at the last header positions of `eqBrand`, `eqModel` and `options`, or "" when the column is missing or the row is too short |
| App.FieldAtColumn | app.py:122-135 | looking a name up in the column map gives the field under the name's last column |
| App.SampleColumnIndex | app.py:82 | in the sample header the duplicated `createddate` resolves to its second position, and the three columns read sit at 7, 8 and 9 |
| App.LastIndexOfAt | app.py:122 | a position holding the name with no later occurrence is the last index |
| App.SampleSplit | app.py:82-91 | splitting the tab-joined sample header and row on tabs gives the fields back |
| App.SampleExtraction | app.py:82-137 | the E4980A sample record extracts to brand "Agilent", model "E4980A" and options "001/710/710" |
| App.KeptOptions | app.py:283-288 | the kept options are among the given options, none equals the brand or model ignoring case, and every given option that equals neither is kept |
| App.SameAsBrandOrModel | app.py:287 | `opt.lower() in [brand.lower(), model.lower()]` with the model's lower-casing |
| App.SameAsBrandOrModelIgnoresCase | app.py:287 | the comparison ignores case on every side, and the brand and the model themselves always match |
| App.KeptOptionsAppend | app.py:284-288 | filtering a concatenation is the concatenation of the filtered parts, so kept options stay in their original order, duplicates included |
| App.KeptOptionsSingle | app.py:287-288 | a single option is kept exactly when it equals neither brand nor model ignoring case |
| App.FilterOptions | app.py:280-291 | the loop-based filter returns the `/`-join of `KeptOptions` of the split options (every option not repeating brand or model, in order), or "" for empty input, and splitting its result gives back exactly those options |
| App.KeptOptionsClean | app.py:283-288 | filtering keeps option codes clean |
| App.KeptOptionsIdempotent | app.py:283-288 | filtering twice is filtering once |
| App.KeptOptionsAllKept | app.py:283-288 | a list with no entry matching brand or model is kept whole |
| App.LlmInput | app.py:297 | the language-model input is brand, a space and model, followed by a space and the options only when there are options |
| App.OverrideBrandModel | app.py:318-319 | the assignments succeed exactly when the payload is a dict whose "normalized" entry is a dict; then brand and model are set and every other entry is unchanged |
| App.OverrideLlmRecord | app.py:307-319 | overriding a normalised record sets brand and model and keeps its options |
| App.AnalyzeSelection | app.py:275-329 | on every path the payload's brand and model are the stripped extracted ones. Without a client the options are the filtered split; with a client the payload is the overridden reply, or the record with no options when the call raises or the reply's shape rejects the override |
| App.IsCategory | app.py:514-515 | `answer in valid_categories`: the eight category names |
| App.ChooseCategory | app.py:494-518 | the category is always one of the eight names: the stripped reply when it is one of them, else "General" (also without a client, on a failing call or with missing content) |
| App.EscapePipes | app.py:536 | escaping never shortens the text, leaves a text without `|` unchanged, and puts `\` in front of every `|` |
| App.EscapePipesRoundTrip | app.py:536 | unescaping the escaped text gives the original back, so only the `|` characters are changed |

## Left out

- The Streamlit page is not modelled: rendering, the radio selection, spinners, CSS, `st.session_state` caching, and the Markdown table built from the rows (apart from the cell escaping).
- Constructing the OpenAI client and calling `chat.completions.create` are network calls. They appear only as the `complete` parameter or as a `Completion` value.
- `json.loads` is the `decode` parameter. Its parsing of JSON text is not modelled, and `Float` values are kept only as a tag carrying a real.
- The prompt constants (`SYSTEM_PROMPT`, `SYSTEM_PROMPT_COMPLETE_MARKETPLACE`) are not modelled. Neither is `build_complete_marketplace_search_prompt`, and neither is the category prompt text. They are instructions to the language model with no checkable behaviour, so `ChooseCategory` takes the reply as given.
- The unused `schema` dicts in `prompting.py` are left out.
- The option explanations (app.py:360-395) and the marketplace call sites in `app.py` are network round trips, so they are not modelled. `scrape_effective_sites` is not part of this model.
- `TEMPERATURE`, `MODEL_NAME` and the other settings are left out. They only parameterise the network calls.
- The dead computation of `last_word_before_slash` (parsing.py:95-101) is left out. Its result is never used.
- `parse_query` is imported by `app.py` but never called there. The model keeps the two separate, as the code does.
- Printing the error in `complete_marketplace_search_via_llm` (prompting.py:512) is console output and is left out.
- PyStr.Lower and PyStr.LowerAt: `str.lower()` is modelled for ASCII, the Latin-1 capitals and the Kelvin sign only. Full Unicode case mapping is not modelled: Greek, Cyrillic and other capitals stay unchanged, and characters whose lower-case form is longer (such as U+0130) keep length one. This is exact for the stop-word test, whose words are ASCII. It is weaker for comparing options with brand and model, so App.SameAsBrandOrModel, App.KeptOptions and App.FilterOptions may keep an option that Python would drop as a case-insensitive match.
- PyStr.LowerChar: lower-cases only ASCII capitals, the Latin-1 capitals and the Kelvin sign, and always gives one character; the PyStr.Lower line above says what this leaves out.
- PyStr.SplitWords: its contract states only that every word is non-empty and free of whitespace. That the words are the maximal runs, in order, is given by the lemmas `SplitWordsCons` and `SplitWordsSkipSpace`.
- Parsing.ParseQuery: its result on a literal text (such as the example in the comment at parsing.py:56) is not evaluated as a lemma. The general lemmas `RawOptionsSpaceAfterLastSlash` and `TrailingWordKeptOnlyByIntended` cover that case.

## Findings

| source | as written | input that shows it | evidently intended | confidence | as-written member | corrected member |
|---|---|---|---|---|---|---|
| parsing.py:72-78 | `last_part` is sliced from the last `/` itself, so it always starts with `/`. The branch that keeps a trailing word never fires, and whenever a space follows the last `/` the options end just after that slash. | `"Agilent 8116A /160/EEC/PLK/UK6 has to be delivered soon"` gives raw options `"/160/EEC/PLK/"`; `UK6` is lost | raw options `"/160/EEC/PLK/UK6"`, as the comments at parsing.py:56 and 74 describe | not executed | Parsing.TrailingWordKeptOnlyByIntended | Parsing.IntendedRawOptionsAtSpace |

The parser in the model (`ParseQuery`, `ParsedQueryOf`) follows the code as written. That is the behaviour the application has, though it differs from the comment at parsing.py:56. The corrected scan is modelled beside it as `IntendedOptionsEnd`, `IntendedRawOptionsOf` and `IntendedParsedQueryOf`. `IntendedRawOptionsAtSpace` proves that the corrected scan keeps the word after the last `/`.
