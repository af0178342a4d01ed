/** Course search with a generative-model fallback
    (backend/controllers/aiController.js, `searchWithAi`). The model's reply,
    the regular-expression engine and the course collection are inputs. */
module AiSearch {
  import opened Js
  import opened Http
  import Catalog

  /** What the model call produced: it threw, or it returned a reply whose
      `response.text` and `text` may each be absent. */
  datatype ModelReply = ModelFailed | ModelText(responseText: Option<string>, text: Option<string>)

  /** `x?.trim()` followed by `||`: a trimmed text that is not empty. */
  function TrimmedText(t: Option<string>): (r: Option<string>)
    ensures r.Some? <==> t.Some? && Trim(t.value) != []
    ensures r.Some? ==> r.value == Trim(t.value)
  {
    if t.Some? && Trim(t.value) != [] then Some(Trim(t.value)) else None
  }

  /** The fallback keyword: the first non-empty trimmed text of the reply,
      `response.text` before `text`, and "Others" when both are empty or absent. */
  function Keyword(reply: ModelReply): (k: string)
    requires reply.ModelText?
    ensures k != []
    ensures TrimmedText(reply.responseText).Some? ==> k == Trim(reply.responseText.value)
    ensures TrimmedText(reply.responseText).None? && TrimmedText(reply.text).Some? ==> k == Trim(reply.text.value)
    ensures TrimmedText(reply.responseText).None? && TrimmedText(reply.text).None? ==> k == "Others"
  {
    match TrimmedText(reply.responseText)
    case Some(k) => k
    case None =>
      match TrimmedText(reply.text)
      case Some(k) => k
      case None => "Others"
  }

  /** The keyword is never empty and never starts or ends with whitespace. */
  lemma KeywordIsTrimmed(reply: ModelReply)
    requires reply.ModelText?
    ensures var k := Keyword(reply);
      k != [] && !IsWhitespace(k[0]) && !IsWhitespace(k[|k| - 1])
  {
    if TrimmedText(reply.responseText).Some? {
      TrimRules(reply.responseText.value);
    } else if TrimmedText(reply.text).Some? {
      TrimRules(reply.text.value);
    }
  }

  /** Any of the five searched fields matches the pattern. `fm(field, pattern)`
      is the case-insensitive regular-expression test; a field the course does
      not have matches nothing. */
  predicate FieldsMatch(c: Catalog.Course, pattern: string, fm: (string, string) -> bool)
  {
    || fm(c.title, pattern)
    || (c.subTitle.Some? && fm(c.subTitle.value, pattern))
    || (c.description.Some? && fm(c.description.value, pattern))
    || fm(c.category, pattern)
    || (c.level.Some? && fm(c.level.value, pattern))
  }

  /** One `Course.find` of the search: published courses whose fields match. */
  predicate Hit(c: Catalog.Course, pattern: string, fm: (string, string) -> bool)
  {
    c.isPublished && FieldsMatch(c, pattern, fm)
  }

  /** The courses of the collection, in its natural order, that the query
      selects. */
  function Find(courses: seq<Catalog.Course>, pattern: string, fm: (string, string) -> bool): (r: seq<Catalog.Course>)
    ensures forall c :: c in r <==> c in courses && Hit(c, pattern, fm)
    ensures |r| <= |courses|
  {
    if courses == [] then []
    else if Hit(courses[0], pattern, fm) then [courses[0]] + Find(courses[1..], pattern, fm)
    else Find(courses[1..], pattern, fm)
  }

  /** The search keeps the collection's order: searching two stretches of
      the collection one after the other gives the search of the whole. */
  lemma {:induction false} FindKeepsOrder(a: seq<Catalog.Course>, b: seq<Catalog.Course>,
                                          pattern: string, fm: (string, string) -> bool)
    ensures Find(a + b, pattern, fm) == Find(a, pattern, fm) + Find(b, pattern, fm)
  {
    if a == [] {
      assert a + b == b;
    } else {
      assert (a + b)[0] == a[0];
      assert (a + b)[1..] == a[1..] + b;
      FindKeepsOrder(a[1..], b, pattern, fm);
    }
  }

  /** What one request did: whether the model was called, whether the second
      search ran, and the reply. */
  datatype Outcome = Outcome(modelCalled: bool, keywordSearchRun: bool, reply: Result<seq<Catalog.Course>>)

  /** `searchWithAi` for the body's `input` ("" when missing). A pattern the
      regular-expression engine refuses (`validPattern` false) makes the
      query throw, as does a failed model call: both end in 500. */
  function SearchWithAi(input: string, reply: ModelReply, courses: seq<Catalog.Course>,
                        fm: (string, string) -> bool, validPattern: string -> bool): (o: Outcome)
    ensures input == "" ==> o == Outcome(false, false, Err(Error(400, "Search query is required")))
    ensures input != "" ==> o.modelCalled
    ensures o.keywordSearchRun ==> input != "" && reply.ModelText? && validPattern(input) && Find(courses, input, fm) == []
    ensures o.reply.Err? && input != "" ==> o.reply.error == Error(500, "AI Search Error")
    ensures o.reply.Ok? ==> o.reply.status == 200 && input != "" && reply.ModelText? && validPattern(input)
  {
    if input == "" then Outcome(false, false, Err(Error(400, "Search query is required")))
    else if reply.ModelFailed? || !validPattern(input) then Outcome(true, false, Err(Error(500, "AI Search Error")))
    else
      var direct := Find(courses, input, fm);
      if |direct| > 0 then Outcome(true, false, Ok(200, direct))
      else
        var keyword := Keyword(reply);
        if !validPattern(keyword) then Outcome(true, true, Err(Error(500, "AI Search Error")))
        else Outcome(true, true, Ok(200, Find(courses, keyword, fm)))
  }

  /** The two-phase choice: the direct results whenever there are any (the
      keyword search is then skipped), otherwise the keyword results, which
      may be empty; every course returned is published and matches the input
      or the keyword. */
  lemma SearchSelectsPhase(input: string, reply: ModelReply, courses: seq<Catalog.Course>,
                           fm: (string, string) -> bool, validPattern: string -> bool)
    requires input != "" && reply.ModelText? && validPattern(input)
    ensures var o := SearchWithAi(input, reply, courses, fm, validPattern);
      && (Find(courses, input, fm) != [] ==> o.reply == Ok(200, Find(courses, input, fm)) && !o.keywordSearchRun)
      && (Find(courses, input, fm) == [] && validPattern(Keyword(reply)) ==>
            o.reply == Ok(200, Find(courses, Keyword(reply), fm)) && o.keywordSearchRun)
      && (o.reply.Ok? ==> forall c :: c in o.reply.value ==>
            c.isPublished && (FieldsMatch(c, input, fm) || FieldsMatch(c, Keyword(reply), fm)))
  {
  }

  /** An unpublished course is never returned, whatever it matches. */
  lemma UnpublishedNeverFound(input: string, reply: ModelReply, courses: seq<Catalog.Course>,
                              fm: (string, string) -> bool, validPattern: string -> bool, c: Catalog.Course)
    requires !c.isPublished
    ensures var o := SearchWithAi(input, reply, courses, fm, validPattern);
      o.reply.Ok? ==> c !in o.reply.value
  {
  }
}
