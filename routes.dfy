/**
  The decision rule of the `/` route: normalise the submitted word, look it
  up, and on a miss ask the close-match routine for the single nearest word of
  the table. Rendering the page is not part of this model; the route's
  outcome is the pair (result, suggestion) handed to the template.
 */
module Routes {
  import opened Wrappers
  import opened PyStr
  import opened WordStore

  /**
    `raw.lower().strip()`: the form of a word that is looked up. It is the
    lower-cased input with its leading and trailing whitespace cut off.
   */
  function Normalize(raw: string): (word: string)
    ensures |word| <= |raw|
    ensures LeadingSpaces(Lower(raw)) + |word| <= |raw|
    ensures word == Lower(raw)[LeadingSpaces(Lower(raw))..LeadingSpaces(Lower(raw)) + |word|]
    ensures forall k :: 0 <= k < LeadingSpaces(Lower(raw)) ==> IsSpace(raw[k])
    ensures forall k :: LeadingSpaces(Lower(raw)) + |word| <= k < |raw| ==> IsSpace(raw[k])
    ensures forall i :: 0 <= i < |word| ==> !IsUpper(word[i])
    ensures word == [] || (!IsSpace(word[0]) && !IsSpace(word[|word| - 1]))
  {
    var low := Lower(raw);
    assert forall k :: 0 <= k < |raw| ==> (IsSpace(low[k]) <==> IsSpace(raw[k]));
    Strip(low)
  }

  /** Normalising a normalised word changes nothing. */
  lemma NormalizeIdempotent(raw: string)
    ensures Normalize(Normalize(raw)) == Normalize(raw)
  {
    var n := Normalize(raw);
    assert Lower(n) == n;
    StripIdempotent(Lower(raw));
  }

  /** A submission normalises to the empty word exactly when it is all whitespace. */
  lemma NormalizeEmptyIff(raw: string)
    ensures Normalize(raw) == [] <==> forall k :: 0 <= k < |raw| ==> IsSpace(raw[k])
  {
    var low := Lower(raw);
    StripEmptyIff(low);
    assert forall k :: 0 <= k < |raw| ==> (IsSpace(low[k]) <==> IsSpace(raw[k]));
  }

  /** "  HAPPY  " is looked up as "happy". */
  lemma NormalizeExample()
    ensures Normalize("  HAPPY  ") == "happy"
  {
    var raw, pad, core := "  HAPPY  ", "  ", "happy";
    assert Lower(raw) == pad + core + pad;
    StripExact(pad, core, pad);
  }

  /** How the route was requested. Only a POST carries a form. */
  datatype Request = Get | Post(form: map<string, string>)

  /** What the route hands to the template. */
  datatype Response = Response(result: Option<Entry>, suggestion: Option<string>)

  /** The close-match routine: a word and the candidate words give the close matches. */
  type CloseMatcher = (string, seq<string>) -> seq<string>

  /**
    What the route relies on from the close-match routine when it asks for at
    most one match: at most one word comes back, and it is one of the candidates.
   */
  ghost predicate ValidMatcher(closeMatches: CloseMatcher) {
    forall word, candidates ::
      && |closeMatches(word, candidates)| <= 1
      && (closeMatches(word, candidates) != [] ==> closeMatches(word, candidates)[0] in candidates)
  }

  /** `request.form.get("word", "")`: the submitted word, or "" when the form has none. */
  function FormWord(form: map<string, string>): (raw: string)
    ensures "word" in form ==> raw == form["word"]
    ensures "word" !in form ==> raw == ""
  {
    if "word" in form then form["word"] else ""
  }

  /**
    The route. `rows` is the table that `query_word` reads and `allWords` what
    `get_all_words` returns. Nothing is produced for a GET or a blank word; a
    non-blank word gives the lookup's result; on a miss the suggestion is the
    matcher's first word if it returned one and nothing otherwise, so it is
    always one of `allWords`.
   */
  function Index(rows: map<string, Row>, allWords: seq<string>, req: Request, closeMatches: CloseMatcher)
    : (resp: Response)
    requires ValidMatcher(closeMatches)
    ensures req.Get? ==> resp == Response(None, None)
    ensures req.Post? && Normalize(FormWord(req.form)) == [] ==> resp == Response(None, None)
    ensures req.Post? && Normalize(FormWord(req.form)) != [] ==>
              resp.result == QueryWord(rows, Normalize(FormWord(req.form)))
    ensures resp.suggestion.Some? ==>
              && req.Post?
              && Normalize(FormWord(req.form)) !in rows
              && resp.suggestion.value in allWords
    ensures resp.suggestion.Some? ==> resp.result.None?
    ensures req.Post? && Normalize(FormWord(req.form)) != [] && Normalize(FormWord(req.form)) !in rows ==>
              var matches := closeMatches(Normalize(FormWord(req.form)), allWords);
              resp.suggestion == if matches == [] then None else Some(matches[0])
  {
    match req
    case Get => Response(None, None)
    case Post(form) =>
      var word := Normalize(FormWord(form));
      if word == [] then
        Response(None, None)
      else
        var result := QueryWord(rows, word);
        if result.Some? then
          Response(result, None)
        else
          var matches := closeMatches(word, allWords);
          if matches != [] then Response(None, Some(matches[0])) else Response(None, None)
  }

  /** The route answers a submission exactly as it answers its normalised form. */
  lemma IndexNormalizes(
    rows: map<string, Row>, allWords: seq<string>, form: map<string, string>, closeMatches: CloseMatcher)
    requires ValidMatcher(closeMatches)
    ensures Index(rows, allWords, Post(form), closeMatches)
         == Index(rows, allWords, Post(form["word" := Normalize(FormWord(form))]), closeMatches)
  {
    NormalizeIdempotent(FormWord(form));
  }

  /**
    A blank submission touches neither the table nor the matcher: the answer
    is the same whatever the table holds and whatever the matcher would say.
   */
  lemma BlankIgnoresStore(
    rows: map<string, Row>, rows': map<string, Row>, allWords: seq<string>, allWords': seq<string>,
    form: map<string, string>, closeMatches: CloseMatcher, closeMatches': CloseMatcher)
    requires ValidMatcher(closeMatches) && ValidMatcher(closeMatches')
    requires forall k :: 0 <= k < |FormWord(form)| ==> IsSpace(FormWord(form)[k])
    ensures Index(rows, allWords, Post(form), closeMatches)
         == Index(rows', allWords', Post(form), closeMatches')
         == Response(None, None)
  {
    NormalizeEmptyIff(FormWord(form));
  }

  /** On a hit for a non-blank word the matcher is not consulted: any matcher gives the same answer. */
  lemma HitIgnoresMatcher(
    rows: map<string, Row>, allWords: seq<string>, form: map<string, string>,
    closeMatches: CloseMatcher, closeMatches': CloseMatcher)
    requires ValidMatcher(closeMatches) && ValidMatcher(closeMatches')
    requires Normalize(FormWord(form)) != [] && Normalize(FormWord(form)) in rows
    ensures Index(rows, allWords, Post(form), closeMatches)
         == Index(rows, allWords, Post(form), closeMatches')
         == Response(QueryWord(rows, Normalize(FormWord(form))), None)
  {
  }

  /**
    Against a consistent table, whose word list is `get_all_words`, a
    suggestion is a word of the table that a lookup would find.
   */
  lemma SuggestionIsTableWord(t: WordTable, req: Request, closeMatches: CloseMatcher)
    requires t.Valid() && ValidMatcher(closeMatches)
    ensures Index(t.rows, t.AllWords(), req, closeMatches).suggestion.Some? ==>
              QueryWord(t.rows, Index(t.rows, t.AllWords(), req, closeMatches).suggestion.value).Some?
  {
  }

  /** Submitting "  HAPPY  " after init_db on a new table shows the entry for "happy". */
  lemma HappySubmission(closeMatches: CloseMatcher)
    requires ValidMatcher(closeMatches)
    ensures var resp := Index(SeedAll(map[], SampleData), NewWords(map[], SampleData),
                              Post(map["word" := "  HAPPY  "]), closeMatches);
            && resp.suggestion.None?
            && resp.result.Some?
            && resp.result.value.synonyms == ["joyful", "cheerful", "content"]
  {
    NormalizeExample();
    HappyLookup();
  }
}
