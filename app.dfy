/**
 * The deterministic glue of the Streamlit page: pulling brand, model and
 * options out of a tab-separated record, dropping options that repeat the
 * brand or the model, building the analysis payload (with or without the
 * language model, and with its exception fallback), validating the category
 * the model names for an option, and escaping `|` in table cells.
 */
module App {
  import opened Wrappers
  import opened PyStr
  import opened JsonValue
  import opened Parsing
  import opened Prompting

  /** The API key the application is configured with: empty. */
  const ApiKey: string := ""

  /** `get_openai_client` hands back a client only for a non-empty key. */
  predicate ClientAvailable(apiKey: string) {
    apiKey != ""
  }

  /** With the configured key there is never a client, so every run takes the
      deterministic path. */
  lemma NoClientConfigured()
    ensures !ClientAvailable(ApiKey)
  {
  }

  /** `{name: i for i, name in enumerate(cols)}`: later columns overwrite
      earlier ones with the same name. */
  function ColumnMap(cols: seq<string>): (index: map<string, nat>)
    ensures forall name :: name in index <==> name in cols
    ensures forall name :: name in index ==> index[name] == LastIndexOf(cols, name)
  {
    if cols == [] then map[]
    else
      var init := cols[..|cols| - 1];
      assert forall name :: name in cols <==> name in init || name == cols[|cols| - 1];
      ColumnMap(init)[cols[|cols| - 1] := |cols| - 1]
  }

  /** `parts[idx] if idx is not None and idx < len(parts) else ""`. */
  function FieldAt(parts: seq<string>, index: map<string, nat>, name: string): (field: string)
    ensures name !in index ==> field == ""
    ensures name in index && index[name] >= |parts| ==> field == ""
    ensures name in index && index[name] < |parts| ==> field == parts[index[name]]
  {
    if name in index && index[name] < |parts| then parts[index[name]] else ""
  }

  /** Brand, model and options of one record. */
  datatype Selection = Selection(brand: string, model: string, options: string)

  /** `_extract_from_selected_line`: the fields of `line` under the header
      columns `eqBrand`, `eqModel` and `options`; a missing column or a short
      row gives "" for that field. */
  function ExtractFromSelectedLine(header: string, line: string): (s: Selection)
    ensures var cols, parts := SplitOn(header, '\t'), SplitOn(line, '\t');
      && s.brand == ColumnField(cols, parts, "eqBrand")
      && s.model == ColumnField(cols, parts, "eqModel")
      && s.options == ColumnField(cols, parts, "options")
  {
    var cols, parts := SplitOn(header, '\t'), SplitOn(line, '\t');
    var index := ColumnMap(cols);
    FieldAtColumn(cols, parts, "eqBrand");
    FieldAtColumn(cols, parts, "eqModel");
    FieldAtColumn(cols, parts, "options");
    Selection(FieldAt(parts, index, "eqBrand"), FieldAt(parts, index, "eqModel"), FieldAt(parts, index, "options"))
  }

  /** Looking a name up in the column map finds the field under its last column. */
  lemma {:induction false} FieldAtColumn(cols: seq<string>, parts: seq<string>, name: string)
    ensures FieldAt(parts, ColumnMap(cols), name) == ColumnField(cols, parts, name)
  {
    if name !in cols {
      assert LastIndexOf(cols, name) == -1;
    }
  }

  /** The field of `parts` at the last header position named `name`, or ""
      when the header lacks the name or the row is too short. */
  function ColumnField(cols: seq<string>, parts: seq<string>, name: string): string {
    var i := LastIndexOf(cols, name);
    if 0 <= i < |parts| then parts[i] else ""
  }

  /** The column names of the sample data set; `createddate` occurs twice. */
  const SampleColumns: seq<string> := ["quoteid", "createddate", "contactname", "ID", "record_id",
    "createddate", "QuoteID", "eqModel", "eqBrand", "options"]

  /** The E4980A record of the sample data set, field by field. */
  const SampleRow: seq<string> := ["28871", "2014-01-26", "Larry Meiners", "3477026", "107150",
    "NULL", "28871", "E4980A", "Agilent", "001/710/710"]

  /** In the sample header the duplicated `createddate` resolves to its
      second position, and the three columns read are found. */
  lemma SampleColumnIndex()
    ensures ColumnMap(SampleColumns)["createddate"] == 5
    ensures LastIndexOf(SampleColumns, "eqModel") == 7
    ensures LastIndexOf(SampleColumns, "eqBrand") == 8
    ensures LastIndexOf(SampleColumns, "options") == 9
  {
    var cols := SampleColumns;
    LastIndexOfAt(cols, "createddate", 5);
    LastIndexOfAt(cols, "eqModel", 7);
    LastIndexOfAt(cols, "eqBrand", 8);
    LastIndexOfAt(cols, "options", 9);
  }

  /** The last occurrence is the one with no equal element after it. */
  lemma {:induction false} LastIndexOfAt(s: seq<string>, x: string, i: nat)
    requires i < |s| && s[i] == x
    requires forall j :: i < j < |s| ==> s[j] != x
    ensures LastIndexOf(s, x) == i
  {
    var r := LastIndexOf(s, x);
    assert i <= r;
  }

  /** Splitting the tab-joined sample header and row gives the fields back. */
  lemma SampleSplit()
    ensures SplitOn(Join('\t', SampleColumns), '\t') == SampleColumns
    ensures SplitOn(Join('\t', SampleRow), '\t') == SampleRow
  {
    var cols, row := SampleColumns, SampleRow;
    assert forall i :: 0 <= i < |cols| ==> '\t' !in cols[i];
    assert forall i :: 0 <= i < |row| ==> '\t' !in row[i];
    SplitOnJoin(cols, '\t');
    SplitOnJoin(row, '\t');
  }

  /** Extraction from the sample record, with header and row joined by tabs
      as in the data set. */
  lemma SampleExtraction()
    ensures ExtractFromSelectedLine(Join('\t', SampleColumns), Join('\t', SampleRow))
      == Selection("Agilent", "E4980A", "001/710/710")
  {
    SampleColumnIndex();
    SampleSplit();
    var row := SampleRow;
    assert row[7] == "E4980A" && row[8] == "Agilent" && row[9] == "001/710/710";
  }

  /** `s.lower() in [a.lower(), b.lower()]`. */
  predicate SameAsBrandOrModel(option: string, brand: string, model: string) {
    Lower(option) == Lower(brand) || Lower(option) == Lower(model)
  }

  /** The comparison ignores letter case on every side, and an option equal
      to the brand or to the model always matches. */
  lemma {:induction false} SameAsBrandOrModelIgnoresCase(option: string, brand: string, model: string)
    ensures SameAsBrandOrModel(option, brand, model) <==> SameAsBrandOrModel(Lower(option), Lower(brand), Lower(model))
    ensures SameAsBrandOrModel(brand, brand, model) && SameAsBrandOrModel(model, brand, model)
  {
    LowerIdempotent(option);
    LowerIdempotent(brand);
    LowerIdempotent(model);
  }

  /** The options, in order and with duplicates, that do not repeat the
      brand or the model up to letter case. */
  function KeptOptions(options: seq<string>, brand: string, model: string): (kept: seq<string>)
    ensures |kept| <= |options|
    ensures forall i :: 0 <= i < |kept| ==> !SameAsBrandOrModel(kept[i], brand, model)
    ensures forall i :: 0 <= i < |kept| ==> kept[i] in options
    ensures forall option :: option in options && !SameAsBrandOrModel(option, brand, model) ==> option in kept
  {
    if options == [] then []
    else
      var init, option := options[..|options| - 1], options[|options| - 1];
      var kept := KeptOptions(init, brand, model);
      assert options == init + [option];
      assert forall i :: 0 <= i < |kept| ==> kept[i] in options by {
        forall i | 0 <= i < |kept| ensures kept[i] in options {
          var j :| 0 <= j < |init| && init[j] == kept[i];
          assert options[j] == init[j];
        }
      }
      if SameAsBrandOrModel(option, brand, model) then kept else kept + [option]
  }

  /** The options-string step of the analysis (app.py, the `if options_str`
      block): split on `/`, strip and drop empty pieces, drop the pieces that
      repeat the brand or the model, and join the rest with `/`. */
  method FilterOptions(optionsStr: string, brandParsed: string, modelParsed: string) returns (rawOptions: string)
    ensures rawOptions == Join('/', KeptOptions(SplitOptions(optionsStr), brandParsed, modelParsed))
    ensures SplitOptions(rawOptions) == KeptOptions(SplitOptions(optionsStr), brandParsed, modelParsed)
  {
    if optionsStr == "" {
      rawOptions := "";
    } else {
      var rawOptionsList := SplitOptionsDeterministic(optionsStr);
      var filteredOptions: seq<string> := [];
      for i := 0 to |rawOptionsList|
        invariant filteredOptions == KeptOptions(rawOptionsList[..i], brandParsed, modelParsed)
      {
        var option := rawOptionsList[i];
        assert rawOptionsList[..i + 1][..i] == rawOptionsList[..i];
        if !SameAsBrandOrModel(option, brandParsed, modelParsed) && |option| > 0 {
          filteredOptions := filteredOptions + [option];
        }
      }
      assert rawOptionsList[..|rawOptionsList|] == rawOptionsList;
      rawOptions := Join('/', filteredOptions);
    }
    KeptOptionsClean(SplitOptions(optionsStr), brandParsed, modelParsed);
    SplitOptionsOfJoin(KeptOptions(SplitOptions(optionsStr), brandParsed, modelParsed));
  }

  /** The filter works piece by piece: filtering a concatenation is the
      concatenation of the filtered parts, so the kept options stay in their
      original order. */
  lemma {:induction false} KeptOptionsAppend(a: seq<string>, b: seq<string>, brand: string, model: string)
    ensures KeptOptions(a + b, brand, model) == KeptOptions(a, brand, model) + KeptOptions(b, brand, model)
    decreases |b|
  {
    if b == [] {
      assert a + b == a;
    } else {
      var init, option := b[..|b| - 1], b[|b| - 1];
      assert (a + b)[..|a + b| - 1] == a + init;
      assert (a + b)[|a + b| - 1] == option;
      KeptOptionsAppend(a, init, brand, model);
    }
  }

  /** A single option is kept exactly when it repeats neither the brand nor the model. */
  lemma {:induction false} KeptOptionsSingle(option: string, brand: string, model: string)
    ensures KeptOptions([option], brand, model) == if SameAsBrandOrModel(option, brand, model) then [] else [option]
  {
    assert [option][..0] == [];
  }

  /** Filtering keeps clean option codes clean. */
  lemma {:induction false} KeptOptionsClean(options: seq<string>, brand: string, model: string)
    requires forall i :: 0 <= i < |options| ==> IsOption(options[i])
    ensures forall i :: 0 <= i < |KeptOptions(options, brand, model)| ==> IsOption(KeptOptions(options, brand, model)[i])
  {
    var kept := KeptOptions(options, brand, model);
    forall i | 0 <= i < |kept| ensures IsOption(kept[i]) {
      var j :| 0 <= j < |options| && options[j] == kept[i];
    }
  }

  /** Filtering twice changes nothing. */
  lemma {:induction false} KeptOptionsIdempotent(options: seq<string>, brand: string, model: string)
    ensures KeptOptions(KeptOptions(options, brand, model), brand, model) == KeptOptions(options, brand, model)
  {
    if options != [] {
      var init := options[..|options| - 1];
      var kept := KeptOptions(init, brand, model);
      KeptOptionsIdempotent(init, brand, model);
      KeptOptionsAllKept(kept, brand, model);
      KeptOptionsAllKept(KeptOptions(options, brand, model), brand, model);
    }
  }

  /** A list none of whose entries repeats the brand or model is kept whole. */
  lemma {:induction false} KeptOptionsAllKept(options: seq<string>, brand: string, model: string)
    requires forall i :: 0 <= i < |options| ==> !SameAsBrandOrModel(options[i], brand, model)
    ensures KeptOptions(options, brand, model) == options
  {
    if options != [] {
      var init := options[..|options| - 1];
      KeptOptionsAllKept(init, brand, model);
      assert options == init + [options[|options| - 1]];
    }
  }

  /** The text handed to the language model: brand and model, followed by
      the filtered options when there are any. */
  function LlmInput(brand: string, model: string, rawOptions: string): (input: string)
    ensures |input| == |brand| + 1 + |model| + (if rawOptions == "" then 0 else 1 + |rawOptions|)
    ensures input[..|brand| + 1 + |model|] == brand + " " + model
    ensures rawOptions != "" ==> input[|brand| + 1 + |model|..] == " " + rawOptions
  {
    if rawOptions != "" then brand + " " + model + " " + rawOptions else brand + " " + model
  }

  /** `payload["normalized"]["brand"] = brand` and the same for the model:
      only a dict whose "normalized" entry is itself a dict takes both
      assignments; every other shape raises. */
  function OverrideBrandModel(payload: Json, brand: string, model: string): (r: Result<Json, string>)
    ensures r.Ok? <==> payload.Object? && "normalized" in payload.fields && payload.fields["normalized"].Object?
    ensures r.Ok? ==> NormalizedField(r.value, "brand") == Some(Str(brand))
    ensures r.Ok? ==> NormalizedField(r.value, "model") == Some(Str(model))
    ensures r.Ok? ==> r.value.Object? && r.value.fields.Keys == payload.fields.Keys
    ensures r.Ok? ==> forall k :: k in payload.fields && k != "normalized" ==> r.value.fields[k] == payload.fields[k]
    ensures r.Ok? ==> forall k :: k != "brand" && k != "model" ==> NormalizedField(r.value, k) == NormalizedField(payload, k)
  {
    match payload
    case Object(fields) =>
      if "normalized" !in fields then Err("KeyError: 'normalized'")
      else
        (match fields["normalized"]
         case Object(normalized) =>
           Ok(Object(fields["normalized" := Object(normalized["brand" := Str(brand)]["model" := Str(model)])]))
         case Array(_) => Err("TypeError: list indices must be integers or slices, not str")
         case other => Err("TypeError: '" + TypeName(other) + "' object does not support item assignment"))
    case Str(_) => Err("TypeError: string indices must be integers, not 'str'")
    case Array(_) => Err("TypeError: list indices must be integers or slices, not str")
    case other => Err("TypeError: '" + TypeName(other) + "' object is not subscriptable")
  }

  /** `payload["normalized"][key]` when the payload has that shape. */
  function NormalizedField(payload: Json, key: string): Option<Json> {
    if payload.Object? && "normalized" in payload.fields
       && payload.fields["normalized"].Object? && key in payload.fields["normalized"].fields
    then Some(payload.fields["normalized"].fields[key])
    else None
  }

  /** Overriding the language-model record always installs the given brand
      and model and leaves its option list alone. */
  lemma {:induction false} OverrideLlmRecord(payload: Json, brand: string, model: string, b: string, m: string, options: seq<string>)
    requires payload == NormalizedRecord(b, m, options)
    ensures OverrideBrandModel(payload, brand, model) == Ok(NormalizedRecord(brand, model, options))
  {
    var inner := map["brand" := Str(b), "model" := Str(m), "options" := Array(StrArray(options))];
    var updated := map["brand" := Str(brand), "model" := Str(model), "options" := Array(StrArray(options))];
    assert inner["brand" := Str(brand)]["model" := Str(model)] == updated;
    var outer := map["normalized" := Object(inner), "results" := Array([])];
    assert outer["normalized" := Object(updated)] == NormalizedRecord(brand, model, options).fields;
  }

  /** The analysis step of the page for one selected record: extract and
      strip brand and model, filter the options, then build the payload
      either from the language model or deterministically, and always write
      the stripped brand and model into it. Anything that raises on the way
      (the call, or a reply whose shape rejects the assignments) leaves the
      record with no options. */
  method AnalyzeSelection(
    header: string,
    line: string,
    apiKey: string,
    complete: string -> Completion,
    decode: string -> Result<Json, string>
  ) returns (payload: Json)
    ensures var s := ExtractFromSelectedLine(header, line);
      var brand, model := Strip(s.brand), Strip(s.model);
      && NormalizedField(payload, "brand") == Some(Str(brand))
      && NormalizedField(payload, "model") == Some(Str(model))
      && (!ClientAvailable(apiKey) ==>
            payload == NormalizedRecord(brand, model, KeptOptions(SplitOptions(s.options), brand, model)))
      && (ClientAvailable(apiKey) ==>
            var rawOptions := Join('/', KeptOptions(SplitOptions(s.options), brand, model));
            var reply := NormalizeOptionsViaLlm(LlmInput(brand, model, rawOptions), complete, decode);
            payload == if reply.Ok? && OverrideBrandModel(reply.value, brand, model).Ok?
                       then OverrideBrandModel(reply.value, brand, model).value
                       else NormalizedRecord(brand, model, []))
  {
    var s := ExtractFromSelectedLine(header, line);
    var brandParsed := Strip(s.brand);
    var modelParsed := Strip(s.model);
    var rawOptions := FilterOptions(s.options, brandParsed, modelParsed);
    var fallback := NormalizedRecord(brandParsed, modelParsed, []);
    OverrideLlmRecord(fallback, brandParsed, modelParsed, brandParsed, modelParsed, []);
    var llmInput := LlmInput(brandParsed, modelParsed, rawOptions);
    var candidate: Json;
    if ClientAvailable(apiKey) {
      var reply := NormalizeOptionsViaLlm(llmInput, complete, decode);
      if reply.Err? {
        return fallback;
      }
      candidate := reply.value;
    } else {
      var options := SplitOptionsDeterministic(rawOptions);
      candidate := NormalizedRecord(brandParsed, modelParsed, options);
      OverrideLlmRecord(candidate, brandParsed, modelParsed, brandParsed, modelParsed, options);
    }
    var overridden := OverrideBrandModel(candidate, brandParsed, modelParsed);
    if overridden.Err? {
      return fallback;
    }
    payload := overridden.value;
  }

  /** `answer in valid_categories`: the eight names an option may be filed under. */
  predicate IsCategory(answer: string) {
    || answer == "Connectivity" || answer == "Software" || answer == "Calibration" || answer == "Power"
    || answer == "Display" || answer == "Storage" || answer == "Communication" || answer == "General"
  }

  /** The category shown for one option, given whether there is a client and
      what the categorisation call returns: the model's stripped answer when
      it is one of the listed names, "General" otherwise, and "General" when
      there is no client, the call raises, or the reply has no content. */
  function ChooseCategory(hasClient: bool, reply: Completion): (category: string)
    ensures IsCategory(category)
    ensures category == if hasClient && reply.Replied? && reply.content.Some? && IsCategory(Strip(reply.content.value))
                        then Strip(reply.content.value) else "General"
  {
    if !hasClient then "General"
    else
      match reply
      case CallFailed(_) => "General"
      case Replied(None) => "General"
      case Replied(Some(content)) =>
        var answer := Strip(content);
        if IsCategory(answer) then answer else "General"
  }

  /** `s.replace("|", "\\|")`. */
  function EscapePipes(s: string): (r: string)
    ensures |r| >= |s|
    ensures '|' !in s ==> r == s
    ensures forall i :: 0 <= i < |r| && r[i] == '|' ==> i > 0 && r[i - 1] == '\\'
    ensures r == [] || r[0] != '|'
  {
    if s == [] then []
    else if s[0] == '|' then
      var rest := EscapePipes(s[1..]);
      assert forall i :: 2 <= i < |rest| + 2 && ("\\|" + rest)[i] == '|' ==> rest[i - 2] == '|';
      "\\|" + rest
    else
      var rest := EscapePipes(s[1..]);
      assert forall i :: 1 <= i < |rest| + 1 && ([s[0]] + rest)[i] == '|' ==> rest[i - 1] == '|';
      [s[0]] + rest
  }

  /** Reads an escaped cell back: every `\|` becomes `|`. */
  function UnescapePipes(r: string): string {
    if r == [] then []
    else if |r| >= 2 && r[0] == '\\' && r[1] == '|' then "|" + UnescapePipes(r[2..])
    else [r[0]] + UnescapePipes(r[1..])
  }

  /** Escaping loses nothing: unescaping gives the description back. */
  lemma {:induction false} EscapePipesRoundTrip(s: string)
    ensures UnescapePipes(EscapePipes(s)) == s
  {
    if s != [] {
      EscapePipesRoundTrip(s[1..]);
      var rest := EscapePipes(s[1..]);
      if s[0] == '|' {
        assert ("\\|" + rest)[2..] == rest;
      } else {
        assert ([s[0]] + rest)[1..] == rest;
        assert s == [s[0]] + s[1..];
      }
    }
  }
}
