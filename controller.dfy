/**
 * SurveyController (app/Http/Controllers/SurveyController.php) over the four tables
 * its actions write: surveys, survey_questions, survey_answers and
 * survey_question_answers, each a map from primary key to row with the next
 * auto-increment id beside it. The caller's user id, the random file name, and
 * base64_decode and json_encode are parameters. An exception that an action catches
 * and returns as its response is the action's Failed outcome; whatever the action
 * wrote before it stays written.
 */
module Controller {
  import opened Wrappers
  import opened Php
  import opened Questions
  import opened Images
  import opened Reconciliation
  import opened Answers

  /**
   * The survey's image column. saveImage returns the Throwable instead of a path
   * when it fails (lines 251-253), and store and update write whatever it returned,
   * so the column then holds that exception.
   */
  datatype ImageCell = NoImage | ImagePath(path: string) | ImageFailure(error: ImageError)

  /** A surveys row: its owner, the other attributes the request sent, and the image column. */
  datatype Survey = Survey(userId: int, attrs: map<string, Value>, image: ImageCell)

  /** The `image` attribute of a validated request: not sent, sent as null, or a string. */
  datatype ImageInput = NotSent | SentNull | Sent(uri: string)

  /**
   * The image column after store or update (lines 48-53 and 100-110). A sent string
   * goes through saveImage and the column takes the path, or the exception saveImage
   * returned. A sent null fails `isset` and is written as it is. Without an image the
   * column keeps `current`.
   */
  function ImageColumn(image: ImageInput, current: ImageCell, name: string, decode: string -> Option<seq<byte>>): ImageCell {
    match image
    case NotSent => current
    case SentNull => NoImage
    case Sent(uri) =>
      match SaveImage(uri, name, decode)
      case Success(file) => ImagePath(file.path)
      case Failure(err) => ImageFailure(err)
  }

  /**
   * A sent image becomes a path exactly when it is a data URI with a whitelisted
   * subtype and a decodable payload; otherwise the column holds saveImage's
   * exception, and the previous image is gone either way.
   */
  lemma SentImageStored(uri: string, current: ImageCell, name: string, decode: string -> Option<seq<byte>>)
    ensures ImageColumn(Sent(uri), current, name, decode).ImagePath? <==>
      exists subtype, payload :: IsSubtype(subtype) && uri == DataUri(subtype, payload)
        && Lower(subtype) in AllowedTypes && decode(payload).Some?
    ensures !ImageColumn(Sent(uri), current, name, decode).ImagePath? ==> ImageColumn(Sent(uri), current, name, decode).ImageFailure?
  {
    if SaveImage(uri, name, decode).Success? {
      SaveImageOnlyDataUris(uri, name, decode);
    }
    if exists subtype, payload :: IsSubtype(subtype) && uri == DataUri(subtype, payload)
        && Lower(subtype) in AllowedTypes && decode(payload).Some? {
      var subtype, payload :| IsSubtype(subtype) && uri == DataUri(subtype, payload)
        && Lower(subtype) in AllowedTypes && decode(payload).Some?;
      SaveImageAccepts(subtype, payload, name, decode);
    }
  }

  /** The path a stored image gets: `images/<name>.<lowercased subtype>`. */
  lemma SentImagePath(subtype: string, payload: string, current: ImageCell, name: string, decode: string -> Option<seq<byte>>)
    requires IsSubtype(subtype) && Lower(subtype) in AllowedTypes && decode(payload).Some?
    ensures ImageColumn(Sent(DataUri(subtype, payload)), current, name, decode) == ImagePath("images/" + name + "." + Lower(subtype))
  {
    SaveImageAccepts(subtype, payload, name, decode);
  }

  class SurveyController {
    var surveys: map<int, Survey>
    var questions: Table
    var answers: map<int, Answer>
    var questionAnswers: AnswerTable
    var nextSurveyId: int
    var nextQuestionId: int
    var nextAnswerId: int
    var nextQuestionAnswerId: int

    /** Every id is below its table's next id, and every question row satisfies RowOk. */
    ghost predicate Valid()
      reads this
    {
      && (forall id :: id in surveys ==> id < nextSurveyId)
      && Fresh(questions, nextQuestionId) && AllRowsOk(questions)
      && (forall id :: id in answers ==> id < nextAnswerId)
      && (forall id :: id in questionAnswers ==> id < nextQuestionAnswerId)
    }

    constructor ()
      ensures Valid()
      ensures surveys == map[] && questions == map[] && answers == map[] && questionAnswers == map[]
    {
      surveys := map[];
      questions := map[];
      answers := map[];
      questionAnswers := map[];
      nextSurveyId := 1;
      nextQuestionId := 1;
      nextAnswerId := 1;
      nextQuestionAnswerId := 1;
    }

    /**
     * store (lines 43-65): save the image when one was sent, create the survey, then
     * create its questions in order until one throws. The survey and the questions
     * created before the exception stay. The owner is the `user_id` the validated
     * request carries (store does not read Auth); it travels as `userId`, apart from
     * the other attributes, as the image travels as `image`.
     */
    method Store(userId: int, attrs: map<string, Value>, image: ImageInput, entries: seq<Entry>,
                 name: string, decode: string -> Option<seq<byte>>, encode: Value -> string)
      returns (surveyId: int, outcome: Outcome)
      requires Valid() && "image" !in attrs && "user_id" !in attrs
      modifies this
      ensures Valid()
      ensures surveyId == old(nextSurveyId) && surveyId !in old(surveys) && nextSurveyId == surveyId + 1
      ensures surveys == old(surveys)[surveyId := Survey(userId, attrs, ImageColumn(image, NoImage, name, decode))]
      ensures Show(surveyId, userId).Success?
      ensures Step(questions, nextQuestionId, outcome)
           == InsertAll(old(questions), old(nextQuestionId), CreatorFor(surveys.Keys, surveyId, encode), entries)
      ensures answers == old(answers) && nextAnswerId == old(nextAnswerId)
      ensures questionAnswers == old(questionAnswers) && nextQuestionAnswerId == old(nextQuestionAnswerId)
    {
      var cell := ImageColumn(image, NoImage, name, decode);
      surveyId, outcome := StoreSurvey(userId, attrs, cell, entries, encode);
    }

    /** Lines 53-59: create the survey row with the given image column, then its questions. */
    method StoreSurvey(userId: int, attrs: map<string, Value>, cell: ImageCell, entries: seq<Entry>, encode: Value -> string)
      returns (surveyId: int, outcome: Outcome)
      requires Valid()
      modifies this
      ensures Valid()
      ensures surveyId == old(nextSurveyId) && surveyId !in old(surveys) && nextSurveyId == surveyId + 1
      ensures surveys == old(surveys)[surveyId := Survey(userId, attrs, cell)]
      ensures Step(questions, nextQuestionId, outcome)
           == InsertAll(old(questions), old(nextQuestionId), CreatorFor(surveys.Keys, surveyId, encode), entries)
      ensures answers == old(answers) && nextAnswerId == old(nextAnswerId)
      ensures questionAnswers == old(questionAnswers) && nextQuestionAnswerId == old(nextQuestionAnswerId)
    {
      surveyId := nextSurveyId;
      surveys := surveys[surveyId := Survey(userId, attrs, cell)];
      nextSurveyId := nextSurveyId + 1;
      ghost var t0, n0 := questions, nextQuestionId;
      outcome := InsertQuestions(CreatorFor(surveys.Keys, surveyId, encode), entries);
      StoreKeepsRowsOk(t0, n0, surveys.Keys, surveyId, entries, encode);
    }

    /** The loop of lines 56-59: create each entry in order through `create` until one throws. */
    method InsertQuestions(create: Creator, entries: seq<Entry>) returns (outcome: Outcome)
      modifies this
      ensures Step(questions, nextQuestionId, outcome) == InsertAll(old(questions), old(nextQuestionId), create, entries)
      ensures surveys == old(surveys) && nextSurveyId == old(nextSurveyId)
      ensures answers == old(answers) && nextAnswerId == old(nextAnswerId)
      ensures questionAnswers == old(questionAnswers) && nextQuestionAnswerId == old(nextQuestionAnswerId)
    {
      var table, next := questions, nextQuestionId;
      var i := 0;
      while i < |entries|
        invariant 0 <= i <= |entries|
        invariant InsertAll(table, next, create, entries[i..]) == InsertAll(old(questions), old(nextQuestionId), create, entries)
      {
        assert entries[i..][0] == entries[i] && entries[i..][1..] == entries[i + 1..];
        var r := create(entries[i]);
        if r.Failure? {
          questions, nextQuestionId := table, next;
          outcome := Failed(r.error);
          return;
        }
        table := table[next := r.value];
        next := next + 1;
        i := i + 1;
      }
      questions, nextQuestionId := table, next;
      outcome := Done;
    }

    /**
     * show (lines 73-86): the survey for its owner, a 403 for anyone else. There is
     * no such check in update, storeAnswer or showForGuest.
     */
    function Show(surveyId: int, userId: int): (r: Result<Survey, Exception>)
      reads this
      requires surveyId in surveys
      ensures r.Success? <==> userId == surveys[surveyId].userId
      ensures r.Success? ==> r.value == surveys[surveyId]
      ensures r.Failure? ==> r.error == Forbidden
    {
      if userId != surveys[surveyId].userId then Failure(Forbidden) else Success(surveys[surveyId])
    }

    /**
     * update (lines 95-141): replace the image when one was sent, write the sent
     * attributes over the stored ones, then reconcile the questions. This action does
     * not check that the caller owns the survey; UpdateSurveyRequest is not part of
     * this model. A `user_id` the request sends (`owner`) is written over the stored
     * one by line 110 and so hands the survey to that user.
     */
    method Update(surveyId: int, owner: Option<int>, attrs: map<string, Value>, image: ImageInput, entries: seq<Entry>,
                  name: string, decode: string -> Option<seq<byte>>, encode: Value -> string)
      returns (outcome: Outcome)
      requires Valid() && surveyId in surveys && "image" !in attrs && "user_id" !in attrs
      modifies this
      ensures Valid()
      ensures surveys == old(surveys)[surveyId := Survey(owner.GetOr(old(surveys[surveyId].userId)), old(surveys[surveyId].attrs) + attrs,
                           ImageColumn(image, old(surveys[surveyId].image), name, decode))]
      ensures owner.Some? ==> Show(surveyId, owner.value).Success?
      ensures owner.None? ==> surveys[surveyId].userId == old(surveys[surveyId].userId)
      ensures image.SentNull? ==> surveys[surveyId].image == NoImage
      ensures image.NotSent? ==> surveys[surveyId].image == old(surveys[surveyId].image)
      ensures Step(questions, nextQuestionId, outcome)
           == Reconciled(old(questions), old(nextQuestionId), CreatorFor(surveys.Keys, surveyId, encode), RewritersFor(surveys.Keys, encode), surveyId, entries)
      ensures nextSurveyId == old(nextSurveyId)
      ensures answers == old(answers) && nextAnswerId == old(nextAnswerId)
      ensures questionAnswers == old(questionAnswers) && nextQuestionAnswerId == old(nextQuestionAnswerId)
    {
      var survey := surveys[surveyId];
      var cell := ImageColumn(image, survey.image, name, decode);
      outcome := UpdateSurvey(surveyId, Survey(owner.GetOr(survey.userId), survey.attrs + attrs, cell), entries, encode);
    }

    /** Lines 110-135: write the survey row, then reconcile its questions. */
    method UpdateSurvey(surveyId: int, survey: Survey, entries: seq<Entry>, encode: Value -> string) returns (outcome: Outcome)
      requires Valid() && surveyId in surveys
      modifies this
      ensures Valid()
      ensures surveys == old(surveys)[surveyId := survey]
      ensures Step(questions, nextQuestionId, outcome)
           == Reconciled(old(questions), old(nextQuestionId), CreatorFor(surveys.Keys, surveyId, encode), RewritersFor(surveys.Keys, encode), surveyId, entries)
      ensures nextSurveyId == old(nextSurveyId)
      ensures answers == old(answers) && nextAnswerId == old(nextAnswerId)
      ensures questionAnswers == old(questionAnswers) && nextQuestionAnswerId == old(nextQuestionAnswerId)
    {
      surveys := surveys[surveyId := survey];
      ghost var t0, n0 := questions, nextQuestionId;
      outcome := Reconcile(surveyId, entries, CreatorFor(surveys.Keys, surveyId, encode), RewritersFor(surveys.Keys, encode));
      ReconciledKeepsValid(t0, n0, surveys.Keys, surveyId, entries, encode);
    }

    /**
     * Lines 112-135: delete the survey's rows that no entry names, create the entries
     * whose id is in toAdd, then update each of the survey's rows, as loaded after the
     * creations in id order, from the last entry naming it. The first exception ends
     * the call with everything before it written.
     */
    method Reconcile(surveyId: int, entries: seq<Entry>, create: Creator, rewriteAt: set<int> -> Rewriter) returns (outcome: Outcome)
      modifies this
      ensures Step(questions, nextQuestionId, outcome)
           == Reconciled(old(questions), old(nextQuestionId), create, rewriteAt, surveyId, entries)
      ensures surveys == old(surveys) && nextSurveyId == old(nextSurveyId)
      ensures answers == old(answers) && nextAnswerId == old(nextAnswerId)
      ensures questionAnswers == old(questionAnswers) && nextQuestionAnswerId == old(nextQuestionAnswerId)
    {
      var existing := SurveyIds(questions, surveyId);
      if DiffRaises(entries, existing) {
        outcome := Failed(ArrayToString);
        return;
      }
      questions := questions - ToDelete(questions, surveyId, entries);
      ghost var t1, n1 := questions, nextQuestionId;
      outcome := CreateMissing(create, existing, entries);
      ghost var s := Creations(t1, n1, create, existing, entries);
      if outcome.Failed? {
        assert Reconciled(old(questions), old(nextQuestionId), create, rewriteAt, surveyId, entries) == s;
        return;
      }
      if HasArrayId(entries) {
        // keyBy('id') at line 130 cannot use an array as a key.
        outcome := Failed(IllegalOffset);
        return;
      }
      var rewrite := rewriteAt(questions.Keys);
      var remaining := SurveyIds(questions, surveyId);
      ghost var t2 := questions;
      outcome := UpdateNamed(rewrite, entries, remaining);
      assert Reconciled(old(questions), old(nextQuestionId), create, rewriteAt, surveyId, entries)
          == Step(Updates(t2, rewrite, entries, remaining).table, s.next, Updates(t2, rewrite, entries, remaining).outcome);
    }

    /** The loop of lines 123-128: create, through `create`, each entry whose id is in toAdd. */
    method CreateMissing(create: Creator, existing: set<int>, entries: seq<Entry>) returns (outcome: Outcome)
      modifies this
      ensures Step(questions, nextQuestionId, outcome) == Creations(old(questions), old(nextQuestionId), create, existing, entries)
      ensures surveys == old(surveys) && nextSurveyId == old(nextSurveyId)
      ensures answers == old(answers) && nextAnswerId == old(nextAnswerId)
      ensures questionAnswers == old(questionAnswers) && nextQuestionAnswerId == old(nextQuestionAnswerId)
    {
      var table, next := questions, nextQuestionId;
      var i := 0;
      while i < |entries|
        invariant 0 <= i <= |entries|
        invariant Creations(table, next, create, existing, entries[i..]) == Creations(old(questions), old(nextQuestionId), create, existing, entries)
      {
        var e := entries[i];
        assert entries[i..][0] == e && entries[i..][1..] == entries[i + 1..];
        if "id" !in e {
          questions, nextQuestionId := table, next;
          outcome := Failed(UndefinedKey("id"));
          return;
        }
        if InToAdd(e["id"], existing) {
          var r := create(e);
          if r.Failure? {
            questions, nextQuestionId := table, next;
            outcome := Failed(r.error);
            return;
          }
          table := table[next := r.value];
          next := next + 1;
        }
        i := i + 1;
      }
      questions, nextQuestionId := table, next;
      outcome := Done;
    }

    /**
     * The loop of lines 131-135: visit the rows in `remaining` in id order and rewrite,
     * through `rewrite`, each one an entry names, until a rewrite throws.
     */
    method UpdateNamed(rewrite: Rewriter, entries: seq<Entry>, remaining: set<int>) returns (outcome: Outcome)
      requires remaining <= questions.Keys
      modifies this
      ensures Change(questions, outcome) == Updates(old(questions), rewrite, entries, remaining)
      ensures surveys == old(surveys) && nextSurveyId == old(nextSurveyId) && nextQuestionId == old(nextQuestionId)
      ensures answers == old(answers) && nextAnswerId == old(nextAnswerId)
      ensures questionAnswers == old(questionAnswers) && nextQuestionAnswerId == old(nextQuestionAnswerId)
    {
      var table, left := questions, remaining;
      while left != {}
        invariant left <= table.Keys
        invariant Updates(table, rewrite, entries, left) == Updates(old(questions), rewrite, entries, remaining)
        decreases left
      {
        var id := Min(left);
        var found := LastEntryFor(entries, id);
        if found.Some? {
          var r := rewrite(table[id], found.value);
          if r.Failure? {
            questions := table;
            outcome := Failed(r.error);
            return;
          }
          table := table[id := r.value];
        }
        left := left - {id};
      }
      questions := table;
      outcome := Done;
    }

    /**
     * destroy (lines 149-165): a 403 that deletes nothing for anyone but the owner;
     * for the owner, the survey row is deleted.
     */
    method Destroy(surveyId: int, userId: int) returns (outcome: Outcome)
      requires Valid() && surveyId in surveys
      modifies this
      ensures Valid()
      ensures userId != old(surveys[surveyId].userId) ==> outcome == Failed(Forbidden) && surveys == old(surveys)
      ensures userId == old(surveys[surveyId].userId) ==> outcome == Done && surveys == old(surveys) - {surveyId}
      ensures questions == old(questions) && nextQuestionId == old(nextQuestionId) && nextSurveyId == old(nextSurveyId)
      ensures answers == old(answers) && questionAnswers == old(questionAnswers)
      ensures nextAnswerId == old(nextAnswerId) && nextQuestionAnswerId == old(nextQuestionAnswerId)
    {
      if userId != surveys[surveyId].userId {
        return Failed(Forbidden);
      }
      surveys := surveys - {surveyId};
      outcome := Done;
    }

    /**
     * storeAnswer (lines 182-213): create the submission's survey_answers row, then
     * one survey_question_answers row per entry. Nothing checks that the question
     * belongs to the survey, or exists.
     */
    method StoreAnswer(surveyId: int, items: seq<Submitted>, encode: Value -> string) returns (answerId: int)
      requires Valid() && surveyId in surveys
      modifies this
      ensures Valid()
      ensures answerId == old(nextAnswerId) && answerId !in old(answers) && nextAnswerId == answerId + 1
      ensures answers == old(answers)[answerId := Answer(surveyId)]
      ensures questionAnswers == Recorded(old(questionAnswers), old(nextQuestionAnswerId), answerId, items, encode)
      ensures nextQuestionAnswerId == old(nextQuestionAnswerId) + |items|
      ensures surveys == old(surveys) && questions == old(questions)
      ensures nextSurveyId == old(nextSurveyId) && nextQuestionId == old(nextQuestionId)
    {
      answerId := nextAnswerId;
      answers := answers[answerId := Answer(surveyId)];
      nextAnswerId := nextAnswerId + 1;

      var rows, next := questionAnswers, nextQuestionAnswerId;
      var i := 0;
      while i < |items|
        invariant 0 <= i <= |items|
        invariant next == old(nextQuestionAnswerId) + i
        invariant Recorded(rows, next, answerId, items[i..], encode)
               == Recorded(old(questionAnswers), old(nextQuestionAnswerId), answerId, items, encode)
        invariant forall id :: id in rows ==> id < next
      {
        // The `SurveyQuestion::where(...)->get()` lookup of line 196 returns a
        // collection, which `!$question` never rejects; it changes nothing.
        rows := rows[next := Stored(items[i], answerId, encode)];
        next := next + 1;
        assert items[i..][1..] == items[i + 1..];
        i := i + 1;
      }
      assert items[i..] == [];
      questionAnswers, nextQuestionAnswerId := rows, next;
    }
  }
}
