/**
 * The deterministic query parser: `parse_query` splits a free-form equipment
 * description into brand, model and the raw slash-separated options fragment,
 * and `split_options_deterministic` cuts such a fragment into option codes.
 */
module Parsing {
  import opened PyStr

  /** The connecting words never taken as brand or model, compared after
      lower-casing; the list names "like" twice. */
  const StopWords: seq<string> := ["with", "options", "option", "like", "such", "as", "enter", "a", "query", "like"]

  predicate IsStopWord(word: string) {
    Lower(word) in StopWords
  }

  /** The stop-word test ignores letter case: a word and its lower-cased
      form are stop words together. */
  lemma {:induction false} StopWordIgnoresCase(word: string)
    ensures IsStopWord(word) <==> IsStopWord(Lower(word))
  {
    LowerIdempotent(word);
  }

  /** The stop-word test ignores case: "With" and "OPTION" are stop words. */
  lemma StopWordSamples()
    ensures IsStopWord("With") && IsStopWord("OPTION")
  {
    assert IsStopWord("With") by {
      LowerAt("With");
      assert Lower("With") == "with";
    }
    assert IsStopWord("OPTION") by {
      LowerAt("OPTION");
      assert Lower("OPTION") == "option";
    }
  }

  /** Only the listed connecting words are filtered: "has", "to", "be" and
      "delivered" are not stop words. */
  lemma NonStopWordSamples()
    ensures !IsStopWord("has") && !IsStopWord("to") && !IsStopWord("be") && !IsStopWord("delivered")
  {
    NotStopWord("has");
    NotStopWord("to");
    NotStopWord("be");
    NotStopWord("delivered");
  }

  /** A lower-case word missing from the list is not a stop word. */
  lemma {:induction false} NotStopWord(word: string)
    requires forall i :: 0 <= i < |word| ==> 'a' <= word[i] <= 'z'
    requires word !in StopWords
    ensures !IsStopWord(word)
  {
    LowerOfLowerCase(word);
  }

  /** A word made of the letters a to z is its own lower-cased form. */
  lemma {:induction false} LowerOfLowerCase(word: string)
    requires forall i :: 0 <= i < |word| ==> 'a' <= word[i] <= 'z'
    ensures Lower(word) == word
  {
    LowerAt(word);
  }

  /** The words that are not stop words, in their original order and casing. */
  function FilterStopWords(words: seq<string>): (kept: seq<string>)
    ensures |kept| <= |words|
    ensures forall i :: 0 <= i < |kept| ==> !IsStopWord(kept[i])
  {
    if words == [] then []
    else (if IsStopWord(words[0]) then [] else [words[0]]) + FilterStopWords(words[1..])
  }

  /** What `parse_query` returns. */
  datatype ParsedQuery = ParsedQuery(brand: string, model: string, rawOptions: string)

  /** The first word that survives the stop-word filter, or "". */
  function BrandOf(words: seq<string>): string {
    var kept := FilterStopWords(words);
    if |kept| > 0 then kept[0] else ""
  }

  /** The second word that survives the stop-word filter, or "". */
  function ModelOf(words: seq<string>): string {
    var kept := FilterStopWords(words);
    if |kept| > 1 then kept[1] else ""
  }

  /** The words brand and model are drawn from: the whole stripped text when
      it has no `/`, otherwise only the stripped text before the first `/`. */
  function CandidateWords(text: string): seq<string> {
    var t := Strip(text);
    var slash := Find(t, '/', 0);
    if slash == -1 then SplitWords(t) else SplitWords(Strip(t[..slash]))
  }

  /** Where the options fragment of `t` ends: at the end of `t` when no space
      character follows the last `/`, otherwise just after that last `/`. */
  function OptionsEnd(t: string): (e: nat)
    requires '/' in t
    ensures LastIndexOf(t, '/') < e <= |t|
  {
    var last := LastIndexOf(t, '/');
    if Find(t, ' ', last) == -1 then |t| else last + 1
  }

  /** The options fragment of the stripped text `t`: "" without a `/`,
      otherwise the stripped slice from the first `/` to `OptionsEnd`. */
  function RawOptionsOf(t: string): string {
    var slash := Find(t, '/', 0);
    if slash == -1 then "" else Strip(t[slash..OptionsEnd(t)])
  }

  /** The result `parse_query` computes, stated without its scanning loop. */
  function ParsedQueryOf(text: string): ParsedQuery {
    var words := CandidateWords(text);
    ParsedQuery(BrandOf(words), ModelOf(words), RawOptionsOf(Strip(text)))
  }

  /** `parse_query`: strip the text, find the first `/`, scan for where the
      options end, and take brand and model from the words before the first `/`. */
  method ParseQuery(text: string) returns (q: ParsedQuery)
    ensures q == ParsedQueryOf(text)
  {
    var t := Strip(text);
    var slashIndex := Find(t, '/', 0);
    if slashIndex == -1 {
      var words := SplitWords(t);
      assert words == CandidateWords(text);
      var filtered := FilterStopWords(words);
      var brand := if |filtered| > 0 then filtered[0] else "";
      var model := if |filtered| > 1 then filtered[1] else "";
      return ParsedQuery(brand, model, "");
    }
    var optionsEnd := ScanOptionsEnd(t, slashIndex);
    var brandModelPart := Strip(t[..slashIndex]);
    var brandModelWords := SplitWords(brandModelPart);
    assert brandModelWords == CandidateWords(text);
    var filtered := FilterStopWords(brandModelWords);
    var brand := if |filtered| > 0 then filtered[0] else "";
    var model := if |filtered| > 1 then filtered[1] else "";
    var optionsPart := Strip(t[slashIndex..optionsEnd]);
    assert optionsPart == RawOptionsOf(t);
    q := ParsedQuery(brand, model, optionsPart);
  }

  /** The slash-to-slash walk of `parse_query`: from the first `/`, jump to
      the next `/` until there is none, then end the options at the end of
      the text when no space follows, or else just after the last `/` (the
      branch meant to keep a trailing word cannot fire: the piece it looks
      at starts with the `/` itself). */
  method ScanOptionsEnd(t: string, slashIndex: nat) returns (optionsEnd: int)
    requires slashIndex == Find(t, '/', 0)
    ensures optionsEnd == OptionsEnd(t)
  {
    optionsEnd := slashIndex;
    var currentPos := slashIndex;
    while currentPos < |t|
      invariant slashIndex <= currentPos < |t| && t[currentPos] == '/'
      invariant currentPos <= LastIndexOf(t, '/')
      decreases |t| - currentPos
    {
      var nextSlash := Find(t, '/', currentPos + 1);
      if nextSlash == -1 {
        var nextSpace := Find(t, ' ', currentPos);
        if nextSpace == -1 {
          optionsEnd := |t|;
        } else {
          // the slice starts at the slash itself, so its first character is '/'
          StripKeepsHead(t[currentPos..nextSpace]);
          var lastPart := Strip(t[currentPos..nextSpace]);
          if lastPart != [] && lastPart[0] != '/' {
            optionsEnd := nextSpace;
          } else {
            optionsEnd := currentPos + 1;
          }
        }
        assert LastIndexOf(t, '/') == currentPos;
        return;
      }
      currentPos := nextSlash;
    }
  }

  /** Index of the first word that is not a stop word (`|words|` when there is none). */
  function FirstMeaningful(words: seq<string>): (i: nat)
    ensures i <= |words|
    ensures forall k :: 0 <= k < i ==> IsStopWord(words[k])
    ensures i < |words| ==> !IsStopWord(words[i])
  {
    if words == [] || !IsStopWord(words[0]) then 0 else 1 + FirstMeaningful(words[1..])
  }

  /** The filter keeps the first non-stop word and then filters what follows it. */
  lemma {:induction false} FilterStopWordsHead(words: seq<string>)
    ensures var i := FirstMeaningful(words);
      FilterStopWords(words) == if i == |words| then [] else [words[i]] + FilterStopWords(words[i + 1..])
  {
    if words != [] && IsStopWord(words[0]) {
      var tail := words[1..];
      assert FilterStopWords(words) == FilterStopWords(tail) by {
        assert [] + FilterStopWords(tail) == FilterStopWords(tail);
      }
      FilterStopWordsHead(tail);
      var j := FirstMeaningful(tail);
      assert FirstMeaningful(words) == j + 1;
      if j < |tail| {
        assert tail[j] == words[j + 1];
        assert tail[j + 1..] == words[j + 2..];
      }
    } else if words != [] {
      assert words[0 + 1..] == words[1..];
    }
  }

  /** Brand is the first word that is not a stop word, or "" when there is
      none; model is chosen the same way from the words after the brand. */
  lemma {:induction false} BrandAndModelChoice(words: seq<string>)
    ensures var i := FirstMeaningful(words);
      && BrandOf(words) == (if i < |words| then words[i] else "")
      && ModelOf(words) == (if i < |words| then BrandOf(words[i + 1..]) else "")
  {
    FilterStopWordsHead(words);
    var i := FirstMeaningful(words);
    if i < |words| {
      var rest := FilterStopWords(words[i + 1..]);
      assert FilterStopWords(words) == [words[i]] + rest;
      assert |rest| > 0 ==> ([words[i]] + rest)[1] == rest[0];
    }
  }

  /** The words brand and model are drawn from are whitespace-free, non-empty
      and hold no `/`. (That nothing after the first slash can reach them
      comes from `CandidateWords` splitting only the text before that slash;
      `ParsedBrandModelIgnoresTail` states it.) */
  lemma {:induction false} CandidateWordsBeforeSlash(text: string)
    ensures forall i :: 0 <= i < |CandidateWords(text)| ==>
      IsWord(CandidateWords(text)[i]) && '/' !in CandidateWords(text)[i]
  {
    var t := Strip(text);
    var slash := Find(t, '/', 0);
    if slash == -1 {
      SplitWordsAvoid(t, '/');
    } else {
      StripAvoid(t[..slash], '/');
      SplitWordsAvoid(Strip(t[..slash]), '/');
    }
  }

  /** The brand and the model chosen from a list of non-empty words are
      meaningful words of that list, and a model is only chosen once a brand is. */
  lemma {:induction false} BrandModelOfWords(words: seq<string>)
    requires forall k :: 0 <= k < |words| ==> words[k] != []
    ensures ModelOf(words) != "" ==> BrandOf(words) != ""
    ensures BrandOf(words) != "" ==> !IsStopWord(BrandOf(words)) && BrandOf(words) in words
    ensures ModelOf(words) != "" ==> !IsStopWord(ModelOf(words)) && ModelOf(words) in words
  {
    BrandAndModelChoice(words);
    var i := FirstMeaningful(words);
    if i < |words| {
      assert BrandOf(words) == words[i] && words[i] != [];
      var rest := words[i + 1..];
      BrandAndModelChoice(rest);
      var j := FirstMeaningful(rest);
      if j < |rest| {
        assert ModelOf(words) == rest[j] == words[i + 1 + j];
      } else {
        assert ModelOf(words) == "";
      }
    } else {
      assert BrandOf(words) == "" && ModelOf(words) == "";
    }
  }

  /** Brand and model are never stop words, keep the casing they have in the
      text, come from the words before the first `/`, and a model is only
      found once a brand is. */
  lemma {:induction false} ParsedBrandModel(text: string)
    ensures var q := ParsedQueryOf(text);
      && (q.model != "" ==> q.brand != "")
      && (q.brand != "" ==> !IsStopWord(q.brand) && q.brand in CandidateWords(text) && '/' !in q.brand && IsWord(q.brand))
      && (q.model != "" ==> !IsStopWord(q.model) && q.model in CandidateWords(text) && '/' !in q.model && IsWord(q.model))
  {
    var words := CandidateWords(text);
    CandidateWordsBeforeSlash(text);
    BrandModelOfWords(words);
  }

  /** Brand and model depend only on the text before the first `/`: two texts
      that agree up to their first slash get the same brand and model. */
  lemma {:induction false} ParsedBrandModelIgnoresTail(text1: string, text2: string, head: string, tail1: string, tail2: string)
    requires '/' !in head
    requires Strip(text1) == head + "/" + tail1
    requires Strip(text2) == head + "/" + tail2
    ensures ParsedQueryOf(text1).brand == ParsedQueryOf(text2).brand
    ensures ParsedQueryOf(text1).model == ParsedQueryOf(text2).model
  {
    FirstSlashAfter(Strip(text1), head, tail1);
    FirstSlashAfter(Strip(text2), head, tail2);
    assert CandidateWords(text1) == CandidateWords(text2);
  }

  /** In `head + "/" + tail` with no `/` in `head`, the first `/` sits right after `head`. */
  lemma {:induction false} FirstSlashAfter(t: string, head: string, tail: string)
    requires '/' !in head && t == head + "/" + tail
    ensures Find(t, '/', 0) == |head| && t[..|head|] == head
  {
    assert t[|head|] == '/';
    assert forall i :: 0 <= i < |head| ==> t[i] == head[i];
  }

  /** Without a `/` in the stripped text the options fragment is "". */
  lemma {:induction false} RawOptionsNoSlash(t: string)
    requires '/' !in t
    ensures RawOptionsOf(t) == ""
  {
  }

  /** When a space character follows the last `/`, the fragment runs from the
      first `/` to the last one inclusive: the word after the last `/` is dropped. */
  lemma {:induction false} RawOptionsSpaceAfterLastSlash(t: string)
    requires '/' in t && Find(t, ' ', LastIndexOf(t, '/')) != -1
    ensures OptionsEnd(t) == LastIndexOf(t, '/') + 1
    ensures RawOptionsOf(t) == t[Find(t, '/', 0)..LastIndexOf(t, '/') + 1]
  {
    var first, last := Find(t, '/', 0), LastIndexOf(t, '/');
    assert 0 <= first <= last by {
      var i :| 0 <= i < |t| && t[i] == '/';
      assert t[first] == '/';
    }
    SlashSliceStripped(t, first, last);
    assert RawOptionsOf(t) == Strip(t[first..last + 1]);
  }

  /** A slice that starts and ends with `/` is already stripped. */
  lemma {:induction false} SlashSliceStripped(t: string, first: nat, last: nat)
    requires first <= last < |t| && t[first] == '/' && t[last] == '/'
    ensures Strip(t[first..last + 1]) == t[first..last + 1]
  {
    var raw := t[first..last + 1];
    assert raw[0] == '/' && raw[|raw| - 1] == '/';
    StripStripped(raw);
  }

  /** When no space character follows the last `/`, the fragment is the rest of
      the (stripped) text from the first `/`. */
  lemma {:induction false} RawOptionsNoSpaceAfterLastSlash(t: string)
    requires IsStripped(t)
    requires '/' in t && Find(t, ' ', LastIndexOf(t, '/')) == -1
    ensures OptionsEnd(t) == |t|
    ensures RawOptionsOf(t) == t[Find(t, '/', 0)..]
  {
    var first, last, e := Find(t, '/', 0), LastIndexOf(t, '/'), OptionsEnd(t);
    assert 0 <= first <= last by {
      var i :| 0 <= i < |t| && t[i] == '/';
      assert t[first] == '/';
    }
    SlashSuffixStripped(t, first);
    assert RawOptionsOf(t) == Strip(t[first..e]);
  }

  /** In a stripped text, the rest from a `/` onwards is already stripped. */
  lemma {:induction false} SlashSuffixStripped(t: string, first: nat)
    requires IsStripped(t) && first < |t| && t[first] == '/'
    ensures Strip(t[first..|t|]) == t[first..]
  {
    var raw := t[first..];
    assert raw == t[first..|t|];
    assert raw[0] == '/' && raw[|raw| - 1] == t[|t| - 1];
    StripStripped(raw);
  }

  /** With a `/` present, the fragment is a non-empty, stripped prefix of the
      text from the first `/`, and starts with that `/`. */
  lemma {:induction false} RawOptionsShape(t: string)
    requires IsStripped(t) && '/' in t
    ensures var raw := RawOptionsOf(t);
      && raw != [] && raw[0] == '/' && IsStripped(raw)
      && raw <= t[Find(t, '/', 0)..]
  {
    var first, e := Find(t, '/', 0), OptionsEnd(t);
    RawOptionsUnstripped(t);
    assert first < e by {
      assert t[first] == '/';
    }
    SlashSlicePrefix(t, first, e);
  }

  /** In a stripped text the fragment needs no stripping of its own: it is
      exactly the slice from the first `/` to `OptionsEnd`. */
  lemma {:induction false} RawOptionsUnstripped(t: string)
    requires IsStripped(t) && '/' in t
    ensures RawOptionsOf(t) == t[Find(t, '/', 0)..OptionsEnd(t)]
  {
    if Find(t, ' ', LastIndexOf(t, '/')) != -1 {
      RawOptionsSpaceAfterLastSlash(t);
    } else {
      RawOptionsNoSpaceAfterLastSlash(t);
    }
  }

  /** A slice from a `/` is non-empty, starts with that `/`, and is a prefix of the rest of the text. */
  lemma {:induction false} SlashSlicePrefix(t: string, first: nat, e: nat)
    requires first < e <= |t| && t[first] == '/'
    ensures t[first..e] != [] && t[first..e][0] == '/' && t[first..e] <= t[first..]
  {
    assert t[first..e] == t[first..][..e - first];
  }

  /** Where the options fragment was meant to end: after the last `/` the
      scan looks at the text up to the next space and, when that holds a
      word, keeps it; only a bare trailing `/` ends the fragment at the slash. */
  function IntendedOptionsEnd(t: string): (e: nat)
    requires '/' in t
    ensures LastIndexOf(t, '/') < e <= |t|
  {
    var last := LastIndexOf(t, '/');
    var space := Find(t, ' ', last);
    if space == -1 then |t|
    else if Strip(t[last + 1..space]) != [] then space
    else last + 1
  }

  /** The options fragment with the trailing word kept. */
  function IntendedRawOptionsOf(t: string): string {
    var slash := Find(t, '/', 0);
    if slash == -1 then "" else Strip(t[slash..IntendedOptionsEnd(t)])
  }

  /** `parse_query` as its comments describe it: brand and model as before,
      options fragment up to the end of the word after the last `/`. */
  function IntendedParsedQueryOf(text: string): ParsedQuery {
    var words := CandidateWords(text);
    ParsedQuery(BrandOf(words), ModelOf(words), IntendedRawOptionsOf(Strip(text)))
  }

  /** When a word sits between the last `/` and the next space, the code as
      written cuts the fragment at the slash, while the intended fragment
      carries on to the end of that word. */
  lemma {:induction false} TrailingWordKeptOnlyByIntended(t: string, first: nat, last: nat, space: nat)
    requires Find(t, '/', 0) == first && LastIndexOf(t, '/') == last
    requires Find(t, ' ', last) == space && Strip(t[last + 1..space]) != []
    ensures RawOptionsOf(t) == t[first..last + 1]
    ensures IntendedRawOptionsOf(t) == t[first..last + 1] + RStrip(t[last + 1..space])
    ensures RStrip(t[last + 1..space]) != []
  {
    assert RawOptionsOf(t) == t[first..last + 1] by {
      RawOptionsSpaceAfterLastSlash(t);
    }
    IntendedRawOptionsAtSpace(t, first, last, space);
  }

  /** The intended fragment, when a word follows the last `/`: the slice up to
      the last `/` followed by that word without its trailing whitespace. */
  lemma {:induction false} IntendedRawOptionsAtSpace(t: string, first: nat, last: nat, space: nat)
    requires Find(t, '/', 0) == first && LastIndexOf(t, '/') == last
    requires Find(t, ' ', last) == space && Strip(t[last + 1..space]) != []
    ensures IntendedRawOptionsOf(t) == t[first..last + 1] + RStrip(t[last + 1..space])
    ensures RStrip(t[last + 1..space]) != []
  {
    assert first <= last by {
      assert t[last] == '/';
    }
    assert last < space by {
      assert t[last] != ' ';
    }
    assert IntendedOptionsEnd(t) == space;
    StripSlashThenWord(t, first, last + 1, space);
  }

  /** Stripping a slice that starts with `/` and ends in a word keeps
      everything up to that word and the word itself. */
  lemma {:induction false} StripSlashThenWord(t: string, first: nat, mid: nat, end: nat)
    requires first < mid <= end <= |t| && t[first] == '/'
    requires Strip(t[mid..end]) != []
    ensures Strip(t[first..end]) == t[first..mid] + RStrip(t[mid..end])
    ensures RStrip(t[mid..end]) != []
  {
    SliceSplit(t, first, mid, end);
    assert t[first..mid][0] == '/';
    StripAppend(t[first..mid], t[mid..end]);
  }

  /** A clean option code: non-empty, stripped and free of `/`. */
  predicate IsOption(option: string) {
    option != [] && IsStripped(option) && '/' !in option
  }

  /** The stripped, non-empty pieces, left to right, duplicates kept. */
  function CleanPieces(pieces: seq<string>): (options: seq<string>)
    ensures |options| <= |pieces|
    ensures forall i :: 0 <= i < |options| ==> options[i] != [] && IsStripped(options[i])
    ensures (forall j :: 0 <= j < |pieces| ==> '/' !in pieces[j]) ==> forall i :: 0 <= i < |options| ==> IsOption(options[i])
  {
    if pieces == [] then []
    else
      var last := pieces[|pieces| - 1];
      StripAvoid(last, '/');
      var option := Strip(last);
      CleanPieces(pieces[..|pieces| - 1]) + (if option == [] then [] else [option])
  }

  /** What `split_options_deterministic` returns. */
  function SplitOptions(rawOptions: string): (options: seq<string>)
    ensures forall i :: 0 <= i < |options| ==> IsOption(options[i])
  {
    if rawOptions == [] then [] else CleanPieces(SplitOn(rawOptions, '/'))
  }

  /** `split_options_deterministic`: split on `/`, strip every piece and keep the non-empty ones. */
  method SplitOptionsDeterministic(rawOptions: string) returns (options: seq<string>)
    ensures options == SplitOptions(rawOptions)
    ensures forall i :: 0 <= i < |options| ==> IsOption(options[i])
  {
    if rawOptions == [] {
      return [];
    }
    options := [];
    var pieces := SplitOn(rawOptions, '/');
    for i := 0 to |pieces|
      invariant options == CleanPieces(pieces[..i])
    {
      var option := Strip(pieces[i]);
      CleanPiecesStep(pieces, i);
      if option != [] {
        options := options + [option];
      }
    }
    assert pieces[..|pieces|] == pieces;
  }

  /** One more piece adds its stripped form when that is not empty. */
  lemma {:induction false} CleanPiecesStep(pieces: seq<string>, i: nat)
    requires i < |pieces|
    ensures CleanPieces(pieces[..i + 1])
      == CleanPieces(pieces[..i]) + (if Strip(pieces[i]) == [] then [] else [Strip(pieces[i])])
  {
    assert pieces[..i + 1][..i] == pieces[..i];
  }

  /** Cleaning a list of options that are already clean changes nothing. */
  lemma {:induction false} CleanPiecesOfOptions(options: seq<string>)
    requires forall i :: 0 <= i < |options| ==> IsOption(options[i])
    ensures CleanPieces(options) == options
  {
    if options != [] {
      var init := options[..|options| - 1];
      CleanPiecesOfOptions(init);
      StripStripped(options[|options| - 1]);
      assert options == init + [options[|options| - 1]];
    }
  }

  /** Splitting the `/`-join of clean options gives those options back, in
      order and with their duplicates. */
  lemma {:induction false} SplitOptionsOfJoin(options: seq<string>)
    requires forall i :: 0 <= i < |options| ==> IsOption(options[i])
    ensures SplitOptions(Join('/', options)) == options
  {
    if options != [] {
      assert Join('/', options) != [] by {
        if |options| > 1 { assert Join('/', options) == options[0] + ['/'] + Join('/', options[1..]); }
      }
      SplitOnJoin(options, '/');
      CleanPiecesOfOptions(options);
    }
  }

  /** Re-splitting the joined output of the splitter gives the same list. */
  lemma {:induction false} SplitOptionsRoundTrip(rawOptions: string)
    ensures SplitOptions(Join('/', SplitOptions(rawOptions))) == SplitOptions(rawOptions)
  {
    SplitOptionsOfJoin(SplitOptions(rawOptions));
  }

  /** The option list of the E4980A row in the sample data: the duplicate
      `710` is kept, and order is preserved. */
  lemma SplitOptionsSample()
    ensures SplitOptions("001/710/710") == ["001", "710", "710"]
  {
    var options := ["001", "710", "710"];
    assert IsOption(options[0]) && IsOption(options[1]);
    assert Join('/', options) == "001/710/710";
    SplitOptionsOfJoin(options);
  }
}
