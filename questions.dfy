/**
 * Question validation and normalisation: the private createQuestion and
 * updateQuestion helpers of SurveyController (lines 256-301). Each JSON-encodes
 * array `data`, runs Laravel's validator over a fixed rule table, and writes only
 * the attributes that have a rule (`$validator->validated()`).
 */
module Questions {
  import opened Wrappers
  import opened Php

  /** The Survey::TYPE_* constants that the `type` rule lists. */
  datatype QuestionType = Text | Textarea | Select | Radio | Checkbox

  function TypeName(t: QuestionType): string {
    match t
    case Text => "text"
    case Textarea => "textarea"
    case Select => "select"
    case Radio => "radio"
    case Checkbox => "checkbox"
  }

  /** `Rule::in([...])`: the (string) value is one of the type names; no integer or array is. */
  function TypeNamed(v: Value): (r: Option<QuestionType>)
    ensures r.Some? ==> v == Str(TypeName(r.value))
    ensures r.None? ==> forall t :: v != Str(TypeName(t))
  {
    match v
    case Str(s) =>
      if s == "text" then Some(Text)
      else if s == "textarea" then Some(Textarea)
      else if s == "select" then Some(Select)
      else if s == "radio" then Some(Radio)
      else if s == "checkbox" then Some(Checkbox)
      else None
    case _ => None
  }

  /** One question as the request sent it: a PHP array from attribute name to value. */
  type Entry = map<string, Value>

  /** A row of the survey_questions table. */
  datatype Question = Question(
    surveyId: int,
    text: string,
    kind: QuestionType,
    description: Option<string>,   // NULL when None
    data: Value)                   // never an array: arrays are stored JSON-encoded

  /** The survey_questions table, by primary key. */
  type Table = map<int, Question>

  /** What every row written through createQuestion or updateQuestion satisfies. */
  predicate RowOk(q: Question) {
    !Blank(q.text) && !q.data.Arr?
  }

  /** createQuestion has no rule for `id`; updateQuestion checks it against the question ids. */
  datatype RuleSet = CreateRules | UpdateRules(questionIds: set<int>)

  function RuleKeys(rules: RuleSet): set<string> {
    {"question", "type", "description", "data", "survey_id"} + (if rules.UpdateRules? then {"id"} else {})
  }

  /**
   * Whether attribute `f` of `e` passes its rule:
   *   question    => required|string
   *   type        => required, Rule::in(type names)
   *   description => nullable|string
   *   data        => present
   *   survey_id   => exists:Survey,id
   *   id          => exists:SurveyQuestion,id   (update rules only)
   * A rule without `required` or `present` passes when its attribute is absent.
   */
  predicate Passes(f: string, e: Entry, rules: RuleSet, surveys: set<int>) {
    if f == "question" then f in e && e[f].Str? && !Blank(e[f].s)
    else if f == "type" then f in e && TypeNamed(e[f]).Some?
    else if f == "description" then f in e ==> e[f].Null? || e[f].Str?
    else if f == "data" then f in e
    else if f == "survey_id" then f in e ==> IdKey(e[f]).Some? && IdKey(e[f]).value in surveys
    else if f == "id" then rules.UpdateRules? && f in e ==> IdKey(e[f]).Some? && IdKey(e[f]).value in rules.questionIds
    else true
  }

  /** The validation rules, written out attribute by attribute. */
  predicate RulesHold(e: Entry, rules: RuleSet, surveys: set<int>) {
    && "question" in e && e["question"].Str? && !Blank(e["question"].s)
    && "type" in e && TypeNamed(e["type"]).Some?
    && ("description" in e ==> e["description"].Null? || e["description"].Str?)
    && "data" in e
    && ("survey_id" in e ==> IdKey(e["survey_id"]).Some? && IdKey(e["survey_id"]).value in surveys)
    && (rules.UpdateRules? && "id" in e ==> IdKey(e["id"]).Some? && IdKey(e["id"]).value in rules.questionIds)
  }

  /** The rule table and the written-out rules agree. */
  lemma AllPassIffRulesHold(e: Entry, rules: RuleSet, surveys: set<int>)
    ensures (forall f :: f in RuleKeys(rules) ==> Passes(f, e, rules, surveys)) <==> RulesHold(e, rules, surveys)
  {
    if RulesHold(e, rules, surveys) {
      forall f | f in RuleKeys(rules) ensures Passes(f, e, rules, surveys) {
      }
    }
    if forall f :: f in RuleKeys(rules) ==> Passes(f, e, rules, surveys) {
      assert Passes("question", e, rules, surveys);
      assert Passes("type", e, rules, surveys);
      assert Passes("description", e, rules, surveys);
      assert Passes("data", e, rules, surveys);
      assert Passes("survey_id", e, rules, surveys);
      if rules.UpdateRules? { assert Passes("id", e, rules, surveys); }
    }
  }

  /**
   * What `$validator->validated()` returns: exactly the attributes that have a rule,
   * each as the request spelled it except that the two ids are resolved to the row
   * ids they name. Anything else the caller sent, a caller's `id` under the create
   * rules included, has no field here.
   */
  datatype Validated = Validated(
    id: Option<int>,
    question: string,
    kind: QuestionType,
    description: Option<Value>,
    data: Value,
    surveyId: Option<int>)

  /** The request with array `data` JSON-encoded, as lines 258-262 and 281-285 leave it. */
  function Normalised(entry: Entry, encode: Value -> string): (e: Entry)
    requires "data" in entry
    ensures e.Keys == entry.Keys
    ensures e["data"] == JsonEncoded(entry["data"], encode)
    ensures forall f :: f in entry && f != "data" ==> e[f] == entry[f]
  {
    entry["data" := JsonEncoded(entry["data"], encode)]
  }

  /** The attributes of the entry that fail their rule. */
  function Failing(e: Entry, rules: RuleSet, surveys: set<int>): (failed: set<string>)
    ensures failed <= RuleKeys(rules)
    ensures forall f :: f in RuleKeys(rules) ==> (f in failed <==> !Passes(f, e, rules, surveys))
  {
    set f | f in RuleKeys(rules) && !Passes(f, e, rules, surveys)
  }

  /**
   * Lines 258-276 and 281-300 up to the write: JSON-encode array `data` (reading
   * `$data['data']` raises when the key is missing), then validate. The result is
   * the validated attributes or the exception `validated()` throws, which names
   * every attribute that failed.
   */
  function Validate(entry: Entry, rules: RuleSet, surveys: set<int>, encode: Value -> string): (r: Result<Validated, Exception>)
    ensures "data" !in entry ==> r == Failure(UndefinedKey("data"))
    ensures r.Success? <==> "data" in entry && RulesHold(entry, rules, surveys)
    ensures r.Failure? && "data" in entry ==>
      && r.error.ValidationFailed? && r.error.fields != {} && r.error.fields <= RuleKeys(rules)
      && forall f :: f in RuleKeys(rules) ==> (f in r.error.fields <==> !Passes(f, entry, rules, surveys))
    ensures r.Success? ==>
      && Str(r.value.question) == entry["question"] && !Blank(r.value.question)
      && Str(TypeName(r.value.kind)) == entry["type"]
      && r.value.description == (if "description" in entry then Some(entry["description"]) else None)
      && (r.value.description.Some? ==> r.value.description.value.Null? || r.value.description.value.Str?)
      && r.value.data == JsonEncoded(entry["data"], encode)
      && r.value.surveyId == (if "survey_id" in entry then IdKey(entry["survey_id"]) else None)
      && (r.value.surveyId.Some? ==> r.value.surveyId.value in surveys)
      && r.value.id == (if rules.UpdateRules? && "id" in entry then IdKey(entry["id"]) else None)
      && (r.value.id.Some? ==> rules.UpdateRules? && r.value.id.value in rules.questionIds)
  {
    if "data" !in entry then Failure(UndefinedKey("data"))
    else
      var e := Normalised(entry, encode);
      var failed := Failing(e, rules, surveys);
      assert failed == Failing(entry, rules, surveys) by {
        assert forall f :: Passes(f, e, rules, surveys) <==> Passes(f, entry, rules, surveys);
      }
      AllPassIffRulesHold(entry, rules, surveys);
      if failed != {} then
        Failure(ValidationFailed(failed))
      else
        assert RulesHold(entry, rules, surveys);
        Success(Validated(
          if rules.UpdateRules? && "id" in e then IdKey(e["id"]) else None,
          e["question"].s,
          TypeNamed(e["type"]).value,
          if "description" in e then Some(e["description"]) else None,
          e["data"],
          if "survey_id" in e then IdKey(e["survey_id"]) else None))
  }

  /** The row `SurveyQuestion::create($validator->validated())` inserts (line 276). */
  function NewRow(v: Validated): (q: Question)
    requires v.surveyId.Some?
    ensures q.surveyId == v.surveyId.value && q.text == v.question && q.kind == v.kind && q.data == v.data
    ensures q.description == (if v.description.Some? && v.description.value.Str? then Some(v.description.value.s) else None)
  {
    Question(v.surveyId.value, v.question, v.kind, DescriptionAfter(v.description, None), v.data)
  }

  /**
   * The row after `$question->update($validator->validated())` (line 300): the
   * attributes that were sent replace the stored ones, an absent description or
   * survey_id keeps the stored value, and the primary key is not part of the row.
   */
  function UpdatedRow(q: Question, v: Validated): (q': Question)
    ensures q'.text == v.question && q'.kind == v.kind && q'.data == v.data
    ensures q'.surveyId == (if v.surveyId.Some? then v.surveyId.value else q.surveyId)
    ensures v.description.None? ==> q'.description == q.description
    ensures v.description.Some? ==>
      q'.description == (if v.description.value.Str? then Some(v.description.value.s) else None)
  {
    Question(v.surveyId.GetOr(q.surveyId), v.question, v.kind, DescriptionAfter(v.description, q.description), v.data)
  }

  /** The description column after writing a validated description (absent, null or a string). */
  function DescriptionAfter(given: Option<Value>, stored: Option<string>): Option<string> {
    match given
    case None => stored
    case Some(Str(s)) => Some(s)
    case Some(_) => None
  }

  /**
   * createQuestion (lines 256-277): the row `SurveyQuestion::create` inserts, or
   * the exception. Both callers set survey_id first, so a created row always
   * belongs to the survey that survey_id names.
   */
  function CreateQuestion(entry: Entry, surveys: set<int>, encode: Value -> string): (r: Result<Question, Exception>)
    requires "survey_id" in entry
    ensures r.Success? <==> "data" in entry && RulesHold(entry, CreateRules, surveys)
    ensures r.Failure? ==> r.error == Validate(entry, CreateRules, surveys, encode).error
    ensures r.Success? ==>
      && RowOk(r.value) && IdKey(entry["survey_id"]) == Some(r.value.surveyId) && r.value.surveyId in surveys
      && Str(r.value.text) == entry["question"] && Str(TypeName(r.value.kind)) == entry["type"]
      && r.value.data == JsonEncoded(entry["data"], encode)
      && r.value.description == (if "description" in entry && entry["description"].Str? then Some(entry["description"].s) else None)
  {
    var v := Validate(entry, CreateRules, surveys, encode);
    if v.Failure? then Failure(v.error) else Success(NewRow(v.value))
  }

  /**
   * updateQuestion (lines 279-301) on stored row q, with `questionIds` the ids the
   * `exists` rule on `id` accepts: the row after the update, or the exception. A
   * survey_id that was sent moves the row to that survey.
   */
  function UpdateQuestion(q: Question, entry: Entry, questionIds: set<int>, surveys: set<int>, encode: Value -> string): (r: Result<Question, Exception>)
    ensures r.Success? <==> "data" in entry && RulesHold(entry, UpdateRules(questionIds), surveys)
    ensures r.Failure? ==> r.error == Validate(entry, UpdateRules(questionIds), surveys, encode).error
    ensures r.Success? ==>
      && !Blank(r.value.text) && Str(r.value.text) == entry["question"] && Str(TypeName(r.value.kind)) == entry["type"]
      && r.value.data == JsonEncoded(entry["data"], encode) && !r.value.data.Arr?
      && r.value.surveyId == (if "survey_id" in entry then IdKey(entry["survey_id"]).value else q.surveyId)
      && r.value.description == (if "description" !in entry then q.description
                                 else if entry["description"].Str? then Some(entry["description"].s) else None)
  {
    var v := Validate(entry, UpdateRules(questionIds), surveys, encode);
    if v.Failure? then Failure(v.error) else Success(UpdatedRow(q, v.value))
  }
}
