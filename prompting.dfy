/**
 * The deterministic parts of the language-model helpers: the user prompt
 * for equipment parsing, the shape check applied to the model's reply in
 * `normalize_options_via_llm`, and the fallback records of
 * `complete_marketplace_search_via_llm`.
 *
 * The chat-completion call and `json.loads` are not modelled: the call is a
 * parameter returning a `Completion`, and decoding is a parameter from the
 * reply text to a `Result` over decoded JSON values.
 */
module Prompting {
  import opened Wrappers
  import opened JsonValue

  /** The fixed text in front of the user's text. */
  const PromptHead: string := "PARSE THIS INPUT TEXT:\n\nORIGINAL TEXT: "

  /** The fixed text behind the user's text; the numbered steps are joined
      with no separator between them. */
  const PromptTail: string :=
    "\n\nEXTRACTION TASK:\n"
    + "1) Extract the brand (first meaningful word before '/')"
    + "2) Extract the model (second meaningful word before '/')"
    + "3) Extract ALL options (including the word before first '/' and everything after split by '/')"
    + "4) Ignore any text after the last option"
    + "\n"
    + "OUTPUT: Return ONLY the JSON object with 'normalized' and 'results' keys."

  /** `build_user_prompt`: the original text, verbatim, between the two fixed parts. */
  function BuildUserPrompt(originalText: string): (prompt: string)
    ensures |prompt| == |PromptHead| + |originalText| + |PromptTail|
    ensures prompt[..|PromptHead|] == PromptHead
    ensures prompt[|PromptHead|..|PromptHead| + |originalText|] == originalText
    ensures prompt[|PromptHead| + |originalText|..] == PromptTail
  {
    PromptHead + originalText + PromptTail
  }

  /** Reads the original text back out of a prompt. */
  function PromptedText(prompt: string): string
    requires |PromptHead| + |PromptTail| <= |prompt|
  {
    prompt[|PromptHead|..|prompt| - |PromptTail|]
  }

  /** The prompt gives back the text it was built from, so two different
      texts never produce the same prompt. */
  lemma {:induction false} PromptRoundTrip(originalText: string)
    ensures PromptedText(BuildUserPrompt(originalText)) == originalText
  {
    var prompt := BuildUserPrompt(originalText);
    assert |prompt| - |PromptTail| == |PromptHead| + |originalText|;
  }

  /** Different texts give different prompts. */
  lemma {:induction false} BuildUserPromptInjective(a: string, b: string)
    requires BuildUserPrompt(a) == BuildUserPrompt(b)
    ensures a == b
  {
    PromptRoundTrip(a);
    PromptRoundTrip(b);
  }

  /** What the chat-completion call hands back: the message content (which
      may be missing), or the error the call raised. */
  datatype Completion = Replied(content: Option<string>) | CallFailed(error: string)

  /** `content or "{}"`: missing and empty content both read as "{}". */
  function ReplyText(content: Option<string>): (text: string)
    ensures text != ""
    ensures content.Some? && content.value != "" ==> text == content.value
    ensures content == None || content == Some("") ==> text == "{}"
  {
    match content
    case Some(s) => if s == "" then "{}" else s
    case None => "{}"
  }

  /** The `normalized` record with the given brand, model and option codes,
      and an empty `results` list. */
  function NormalizedRecord(brand: string, model: string, options: seq<string>): (record: Json)
    ensures Contains(record, "normalized") == Ok(true)
    ensures Contains(record, "results") == Ok(true)
  {
    Object(map[
      "normalized" := Object(map[
        "brand" := Str(brand),
        "model" := Str(model),
        "options" := Array(StrArray(options))]),
      "results" := Array([])])
  }

  /** A list of strings as JSON strings, in the same order. */
  function StrArray(items: seq<string>): (values: seq<Json>)
    ensures |values| == |items|
    ensures forall i :: 0 <= i < |items| ==> values[i] == Str(items[i])
  {
    if items == [] then [] else [Str(items[0])] + StrArray(items[1..])
  }

  /** The record returned when the reply cannot be used. */
  const FallbackRecord: Json := NormalizedRecord("", "", [])

  /** A normalised record is the fallback record exactly when its brand and
      model are empty and it has no options, so the fallback carries nothing. */
  lemma {:induction false} NormalizedRecordIsFallback(brand: string, model: string, options: seq<string>)
    ensures NormalizedRecord(brand, model, options) == FallbackRecord <==> brand == "" && model == "" && options == []
  {
    if NormalizedRecord(brand, model, options) == FallbackRecord {
      var inner := NormalizedRecord(brand, model, options).fields["normalized"].fields;
      assert inner["brand"] == Str(brand) && inner["model"] == Str(model);
      assert inner["options"] == Array(StrArray(options));
      assert FallbackRecord.fields["normalized"].fields["options"] == Array([]);
      assert |StrArray(options)| == 0;
    }
  }

  /** The check after decoding: a decoded value that holds "normalized" is
      kept as it is (nothing inside it is checked); a decode error, a value
      without "normalized", and a value on which the `in` test raises all
      give the fallback record. */
  function CheckNormalized(decoded: Result<Json, string>): (data: Json)
    ensures Contains(data, "normalized") == Ok(true)
    ensures data == FallbackRecord || decoded == Ok(data)
    ensures decoded.Ok? && Contains(decoded.value, "normalized") == Ok(true) ==> data == decoded.value
    ensures decoded.Err? ==> data == FallbackRecord
  {
    match decoded
    case Err(_) => FallbackRecord
    case Ok(value) =>
      match Contains(value, "normalized")
      case Ok(true) => value
      case _ => FallbackRecord
  }

  /** Running the check on its own output changes nothing. */
  lemma {:induction false} CheckNormalizedIdempotent(decoded: Result<Json, string>)
    ensures CheckNormalized(Ok(CheckNormalized(decoded))) == CheckNormalized(decoded)
  {
  }

  /** `normalize_options_via_llm`: the prompt goes to the model; a failing
      call is not caught here and surfaces as an error; otherwise the reply
      text is decoded and checked. */
  function NormalizeOptionsViaLlm(
    originalText: string,
    complete: string -> Completion,
    decode: string -> Result<Json, string>
  ): (r: Result<Json, string>)
    ensures complete(BuildUserPrompt(originalText)).CallFailed? <==> r.Err?
    ensures r.Err? ==> r.error == complete(BuildUserPrompt(originalText)).error
    ensures r.Ok? ==> Contains(r.value, "normalized") == Ok(true)
    ensures r.Ok? ==> (r.value == FallbackRecord ||
      decode(ReplyText(complete(BuildUserPrompt(originalText)).content)) == Ok(r.value))
  {
    match complete(BuildUserPrompt(originalText))
    case CallFailed(e) => Err(e)
    case Replied(content) => Ok(CheckNormalized(decode(ReplyText(content))))
  }

  /** A missing or empty reply decodes as the empty dict, which has no
      "normalized" key, so the fallback record comes back. */
  lemma {:induction false} EmptyReplyGivesFallback(
    originalText: string,
    complete: string -> Completion,
    decode: string -> Result<Json, string>
  )
    requires decode("{}") == Ok(Object(map[]))
    requires complete(BuildUserPrompt(originalText)) in {Replied(None), Replied(Some(""))}
    ensures NormalizeOptionsViaLlm(originalText, complete, decode) == Ok(FallbackRecord)
  {
    var content := complete(BuildUserPrompt(originalText)).content;
    assert ReplyText(content) == "{}";
    assert Contains(Object(map[]), "normalized") == Ok(false);
  }

  /** A reply that decodes to a value holding "normalized" is returned as decoded. */
  lemma {:induction false} UsableReplyKept(
    originalText: string,
    complete: string -> Completion,
    decode: string -> Result<Json, string>,
    value: Json
  )
    requires complete(BuildUserPrompt(originalText)).Replied?
    requires decode(ReplyText(complete(BuildUserPrompt(originalText)).content)) == Ok(value)
    requires Contains(value, "normalized") == Ok(true)
    ensures NormalizeOptionsViaLlm(originalText, complete, decode) == Ok(value)
  {
  }

  /** The empty marketplace answer: no results, zero counts, quality "low",
      one recommendation and no queries. */
  function EmptySearch(priceRange: string, recommendation: string): (record: Json)
    ensures Contains(record, "search_results") == Ok(true)
    ensures IsEmptySearch(record)
  {
    Object(map[
      "search_results" := Array([]),
      "search_summary" := Object(map[
        "total_results" := Int(0),
        "exact_matches" := Int(0),
        "partial_matches" := Int(0),
        "price_range" := Str(priceRange),
        "vendor_count" := Int(0),
        "search_quality_score" := Str("low"),
        "recommendations" := Array([Str(recommendation)]),
        "search_queries_used" := Array([])])])
  }

  /** A marketplace answer with no results, zero totals and quality "low". */
  predicate IsEmptySearch(record: Json) {
    && record.Object?
    && "search_results" in record.fields && record.fields["search_results"] == Array([])
    && "search_summary" in record.fields
    && var summary := record.fields["search_summary"];
    && summary.Object?
    && "total_results" in summary.fields && summary.fields["total_results"] == Int(0)
    && "search_quality_score" in summary.fields && summary.fields["search_quality_score"] == Str("low")
  }

  /** The answer when the decoded reply has no "search_results". */
  const NoResultsRecord: Json := EmptySearch("No results found", "No search results available")

  /** The answer when anything in the call, the decoding or the key test raises. */
  function SearchFailedRecord(error: string): Json {
    EmptySearch("Search failed", "Search failed due to error: " + error)
  }

  /** Both empty marketplace answers are empty searches, and the price range
      tells them apart: "No results found" against "Search failed". */
  lemma {:induction false} EmptySearchRecordsDiffer(error: string)
    ensures IsEmptySearch(NoResultsRecord) && IsEmptySearch(SearchFailedRecord(error))
    ensures NoResultsRecord != SearchFailedRecord(error)
  {
    var noResults := NoResultsRecord.fields["search_summary"].fields;
    var failed := SearchFailedRecord(error).fields["search_summary"].fields;
    assert noResults["price_range"] == Str("No results found");
    assert failed["price_range"] == Str("Search failed");
    assert "No results found"[0] != "Search failed"[0];
  }

  /** The post-processing in `complete_marketplace_search_via_llm`, given the
      reply of the call: every failure lands in the "Search failed" record,
      a value without "search_results" becomes the no-results record, and
      any other decoded value is returned unchanged. */
  function CompleteMarketplaceSearch(reply: Completion, decode: string -> Result<Json, string>): (data: Json)
    ensures Contains(data, "search_results") == Ok(true)
    ensures reply.CallFailed? ==> data == SearchFailedRecord(reply.error)
    ensures reply.Replied? && decode(ReplyText(reply.content)).Err?
      ==> data == SearchFailedRecord(decode(ReplyText(reply.content)).error)
    ensures reply.Replied? && decode(ReplyText(reply.content)).Ok? ==>
      var value := decode(ReplyText(reply.content)).value;
      && (Contains(value, "search_results") == Ok(true) ==> data == value)
      && (Contains(value, "search_results") == Ok(false) ==> data == NoResultsRecord)
      && (Contains(value, "search_results").Err? ==> data == SearchFailedRecord(Contains(value, "search_results").error))
    ensures data == NoResultsRecord
         || (exists e :: data == SearchFailedRecord(e))
         || (reply.Replied? && decode(ReplyText(reply.content)) == Ok(data))
  {
    match reply
    case CallFailed(e) => SearchFailedRecord(e)
    case Replied(content) =>
      match decode(ReplyText(content))
      case Err(e) => SearchFailedRecord(e)
      case Ok(value) =>
        match Contains(value, "search_results")
        case Err(e) => SearchFailedRecord(e)
        case Ok(false) => NoResultsRecord
        case Ok(true) => value
  }

  /** Whenever the decoded reply is not passed through, the answer is an
      empty search with zero results and quality "low". */
  lemma {:induction false} MarketplaceFallbackIsEmpty(reply: Completion, decode: string -> Result<Json, string>)
    ensures var data := CompleteMarketplaceSearch(reply, decode);
      IsEmptySearch(data) || (reply.Replied? && decode(ReplyText(reply.content)) == Ok(data))
  {
    var data := CompleteMarketplaceSearch(reply, decode);
    if data == NoResultsRecord {
    } else if reply.Replied? && decode(ReplyText(reply.content)) == Ok(data) {
    } else {
      var e :| data == SearchFailedRecord(e);
    }
  }

  /** A missing or empty reply gives the no-results record. */
  lemma {:induction false} EmptyReplyGivesNoResults(reply: Completion, decode: string -> Result<Json, string>)
    requires decode("{}") == Ok(Object(map[]))
    requires reply in {Replied(None), Replied(Some(""))}
    ensures CompleteMarketplaceSearch(reply, decode) == NoResultsRecord
  {
    assert ReplyText(reply.content) == "{}";
    assert Contains(Object(map[]), "search_results") == Ok(false);
  }
}
