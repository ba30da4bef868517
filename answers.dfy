/**
 * The rows SurveyController::storeAnswer writes (lines 182-213): one survey_answers
 * row per submission, then one survey_question_answers row per entry of the
 * submitted `answers` array, in the array's order.
 */
module Answers {
  import opened Php

  /** A survey_answers row. Its start and end dates read the clock and are not modelled. */
  datatype Answer = Answer(surveyId: int)

  /** A survey_question_answers row: the question, the submission it belongs to, and the stored answer. */
  datatype QuestionAnswer = QuestionAnswer(questionId: int, answerId: int, answer: Value)

  /** One `$questionId => $answer` entry of the validated `answers` array. */
  datatype Submitted = Submitted(questionId: int, answer: Value)

  /** The survey_question_answers table, by primary key. */
  type AnswerTable = map<int, QuestionAnswer>

  /** Lines 202-206: the row stored for one entry, an array answer JSON-encoded. */
  function Stored(s: Submitted, answerId: int, encode: Value -> string): QuestionAnswer {
    QuestionAnswer(s.questionId, answerId, JsonEncoded(s.answer, encode))
  }

  /**
   * The loop of lines 195-209 on the table, with `next` the next free id: every
   * entry is stored in order. The `!$question` guard of line 198 tests a query
   * result collection, which is never falsy, so no entry is refused.
   */
  function Recorded(rows: AnswerTable, next: int, answerId: int, items: seq<Submitted>, encode: Value -> string): (r: AnswerTable)
    ensures forall id :: id in r <==> id in rows || next <= id < next + |items|
    ensures forall id :: id in rows && !(next <= id < next + |items|) ==> r[id] == rows[id]
    decreases |items|
  {
    if items == [] then rows
    else Recorded(rows[next := Stored(items[0], answerId, encode)], next + 1, answerId, items[1..], encode)
  }

  /**
   * Answer intake: entry k is stored under next + k, linked to the submission, with
   * an array answer JSON-encoded and any other answer unchanged.
   */
  lemma {:induction false} RecordedRows(rows: AnswerTable, next: int, answerId: int, items: seq<Submitted>, encode: Value -> string)
    ensures var r := Recorded(rows, next, answerId, items, encode);
      forall k :: 0 <= k < |items| ==>
        && r[next + k].questionId == items[k].questionId
        && r[next + k].answerId == answerId
        && (items[k].answer.Arr? ==> r[next + k].answer == Str(encode(items[k].answer)))
        && (!items[k].answer.Arr? ==> r[next + k].answer == items[k].answer)
    decreases |items|
  {
    if items != [] {
      var rows' := rows[next := Stored(items[0], answerId, encode)];
      var rest := items[1..];
      RecordedRows(rows', next + 1, answerId, rest, encode);
      var r := Recorded(rows', next + 1, answerId, rest, encode);
      forall k | 0 <= k < |items|
        ensures && r[next + k].questionId == items[k].questionId
                && r[next + k].answerId == answerId
                && (items[k].answer.Arr? ==> r[next + k].answer == Str(encode(items[k].answer)))
                && (!items[k].answer.Arr? ==> r[next + k].answer == items[k].answer)
      {
        if k == 0 {
          assert r[next] == rows'[next];
        } else {
          assert rest[k - 1] == items[k];
          assert next + 1 + (k - 1) == next + k;
        }
      }
    }
  }

  /** The loop adds exactly |items| rows, since every id it uses is new. */
  lemma RecordedCount(rows: AnswerTable, next: int, answerId: int, items: seq<Submitted>, encode: Value -> string)
    requires forall id :: id in rows ==> id < next
    ensures var r := Recorded(rows, next, answerId, items, encode);
      |r.Keys| == |rows.Keys| + |items|
  {
    var r := Recorded(rows, next, answerId, items, encode);
    SpanSize(next, |items|);
    assert r.Keys == rows.Keys + Span(next, |items|);
    assert rows.Keys * Span(next, |items|) == {};
  }

  /** The ids next, next + 1, ..., next + n - 1. */
  function Span(next: int, n: nat): (s: set<int>)
    ensures forall id :: id in s <==> next <= id < next + n
  {
    if n == 0 then {} else Span(next, n - 1) + {next + n - 1}
  }

  lemma {:induction false} SpanSize(next: int, n: nat)
    ensures |Span(next, n)| == n
  {
    if n > 0 {
      var smaller := Span(next, n - 1);
      SpanSize(next, n - 1);
      assert next + n - 1 !in smaller;
      assert Span(next, n) == smaller + {next + n - 1};
    }
  }
}
