/**
 * The question-table side of SurveyController::store (lines 53-59) and of the
 * reconciliation in SurveyController::update (lines 112-135), as functions of the
 * table before the call. The loops are written over the call they make for each
 * entry (createQuestion or updateQuestion), so what a loop does is proved once for
 * any such call; CreatorFor and RewriterFor fix the calls the controller makes.
 * The controller's methods are proved to compute exactly these functions.
 */
module Reconciliation {
  import opened Wrappers
  import opened Php
  import opened Questions

  /** The question table and the next free id after a phase, and how the phase ended. */
  datatype Step = Step(table: Table, next: int, outcome: Outcome)

  /** The table after the update phase, which creates nothing, and how it ended. */
  datatype Change = Change(table: Table, outcome: Outcome)

  /** Every row's id is below the next id the table will hand out. */
  ghost predicate Fresh(t: Table, next: int) {
    forall id :: id in t ==> id < next
  }

  /** The entry with its survey_id overwritten, as lines 57 and 125 do before createQuestion. */
  function ForSurvey(entry: Entry, surveyId: int): (e: Entry)
    ensures "survey_id" in e && IdKey(e["survey_id"]) == Some(surveyId)
  {
    entry["survey_id" := Int(surveyId)]
  }

  /** Setting survey_id adds or overwrites that attribute only. */
  lemma ForSurveyFrame(entry: Entry, surveyId: int)
    ensures var e := ForSurvey(entry, surveyId);
      e.Keys == entry.Keys + {"survey_id"} && e["survey_id"] == Int(surveyId)
      && forall f :: f in entry && f != "survey_id" ==> e[f] == entry[f]
  {
  }

  /** What one createQuestion call makes of an entry: the row it inserts, or the exception. */
  type Creator = Entry -> Result<Question, Exception>

  /** What one updateQuestion call makes of a stored row and an entry. */
  type Rewriter = (Question, Entry) -> Result<Question, Exception>

  /** The createQuestion call of lines 57 and 125: the entry, with survey_id set to the survey's id. */
  function CreatorFor(surveys: set<int>, surveyId: int, encode: Value -> string): Creator {
    e => CreateQuestion(ForSurvey(e, surveyId), surveys, encode)
  }

  /** The updateQuestion call of line 134, validated against the question ids `questionIds`. */
  function RewriterFor(questionIds: set<int>, surveys: set<int>, encode: Value -> string): Rewriter {
    (q, e) => UpdateQuestion(q, e, questionIds, surveys, encode)
  }

  /** The updateQuestion call for whichever table the update loop runs against. */
  function RewritersFor(surveys: set<int>, encode: Value -> string): set<int> -> Rewriter {
    ids => RewriterFor(ids, surveys, encode)
  }

  /** Every row the call creates belongs to survey surveyId and satisfies RowOk. */
  ghost predicate CreatesRowsOf(create: Creator, surveyId: int) {
    forall e :: create(e).Success? ==> create(e).value.surveyId == surveyId && RowOk(create(e).value)
  }

  /**
   * The controller's createQuestion call succeeds exactly when the entry, with its
   * survey_id set, passes the create rules, and then creates a row of the survey.
   */
  lemma CreatorForRows(surveys: set<int>, surveyId: int, encode: Value -> string)
    ensures forall e :: CreatorFor(surveys, surveyId, encode)(e).Success? <==>
      "data" in e && RulesHold(ForSurvey(e, surveyId), CreateRules, surveys)
    ensures CreatesRowsOf(CreatorFor(surveys, surveyId, encode), surveyId)
  {
    var create := CreatorFor(surveys, surveyId, encode);
    forall e
      ensures create(e).Success? <==> "data" in e && RulesHold(ForSurvey(e, surveyId), CreateRules, surveys)
      ensures create(e).Success? ==> create(e).value.surveyId == surveyId && RowOk(create(e).value)
    {
      assert create(e) == CreateQuestion(ForSurvey(e, surveyId), surveys, encode);
    }
  }

  /** The loop of store (lines 56-59): create every entry in order until one throws. */
  function InsertAll(t: Table, next: int, create: Creator, entries: seq<Entry>): (s: Step)
    ensures next <= s.next <= next + |entries|
    ensures forall id :: id in s.table <==> id in t || next <= id < s.next
    ensures forall id :: id in t && !(next <= id < s.next) ==> s.table[id] == t[id]
    ensures s.outcome.Done? <==> s.next == next + |entries|
    decreases |entries|
  {
    if entries == [] then Step(t, next, Done)
    else
      match create(entries[0])
      case Failure(err) => Step(t, next, Failed(err))
      case Success(q) =>
        var r := InsertAll(t[next := q], next + 1, create, entries[1..]);
        r
  }

  // ---------------------------------------------------------------------------
  // The diff of lines 112-119.

  /** `Arr::pluck($data['questions'], 'id')` yields null for an entry without an id. */
  function IdOf(e: Entry): Value {
    if "id" in e then e["id"] else Null
  }

  /** `$survey->questions()->pluck('id')`: the ids of the survey's rows (line 113). */
  function SurveyIds(t: Table, surveyId: int): set<int> {
    set id | id in t && t[id].surveyId == surveyId
  }

  /** Some incoming entry names row id. */
  predicate Mentioned(entries: seq<Entry>, id: int) {
    exists i :: 0 <= i < |entries| && IdKey(IdOf(entries[i])) == Some(id)
  }

  /** Some incoming entry has an array as its id. */
  predicate HasArrayId(entries: seq<Entry>) {
    exists i :: 0 <= i < |entries| && IdOf(entries[i]).Arr?
  }

  /**
   * Whether lines 117-119 raise "Array to string conversion". array_diff converts
   * the values it compares to strings, and converting an array raises; but it
   * returns at once when its first argument is empty, and returns a copy of a first
   * argument of two or more values when its second is empty. So when the survey has
   * no rows, line 117 converts nothing and line 119 converts a sent id only when it
   * is the only one; otherwise every sent id is converted.
   */
  predicate DiffRaises(entries: seq<Entry>, existing: set<int>) {
    HasArrayId(entries) && (existing != {} || |entries| == 1)
  }

  /** `$toDelete = array_diff($existingIds, $newIds)` (line 117). */
  function ToDelete(t: Table, surveyId: int, entries: seq<Entry>): set<int> {
    set id | id in SurveyIds(t, surveyId) && !Mentioned(entries, id)
  }

  /** `in_array($question['id'], $toAdd)` with `$toAdd = array_diff($newIds, $existingIds)` (lines 119, 124). */
  predicate InToAdd(id: Value, existing: set<int>) {
    !(IdKey(id).Some? && IdKey(id).value in existing)
  }

  /** The entries that carry an id in toAdd, in order: the ones the create loop creates. */
  function NewEntries(entries: seq<Entry>, existing: set<int>): seq<Entry>
    decreases |entries|
  {
    if entries == [] then []
    else if "id" in entries[0] && InToAdd(entries[0]["id"], existing) then [entries[0]] + NewEntries(entries[1..], existing)
    else NewEntries(entries[1..], existing)
  }

  /** The create loop (lines 123-128). Reading `$question['id']` raises for an entry without one. */
  function Creations(t: Table, next: int, create: Creator, existing: set<int>, entries: seq<Entry>): (s: Step)
    ensures next <= s.next
    ensures forall id :: id in s.table <==> id in t || next <= id < s.next
    ensures forall id :: id in t && !(next <= id < s.next) ==> s.table[id] == t[id]
    decreases |entries|
  {
    if entries == [] then Step(t, next, Done)
    else if "id" !in entries[0] then Step(t, next, Failed(UndefinedKey("id")))
    else if !InToAdd(entries[0]["id"], existing) then Creations(t, next, create, existing, entries[1..])
    else
      match create(entries[0])
      case Failure(err) => Step(t, next, Failed(err))
      case Success(q) =>
        var r := Creations(t[next := q], next + 1, create, existing, entries[1..]);
        r
  }

  // ---------------------------------------------------------------------------
  // The update loop of lines 130-135.

  /** `collect($data['questions'])->keyBy('id')[$id]`: the last entry naming id, if any. */
  function LastEntryFor(entries: seq<Entry>, id: int): (r: Option<Entry>)
    ensures r.Some? <==> Mentioned(entries, id)
    ensures r.Some? ==> IdKey(IdOf(r.value)) == Some(id)
    ensures r.Some? ==> exists i :: 0 <= i < |entries| && entries[i] == r.value
                          && forall j :: i < j < |entries| ==> IdKey(IdOf(entries[j])) != Some(id)
    decreases |entries|
  {
    if entries == [] then None
    else
      var last := entries[|entries| - 1];
      if IdKey(IdOf(last)) == Some(id) then Some(last)
      else
        var r := LastEntryFor(entries[..|entries| - 1], id);
        assert Mentioned(entries, id) ==> Mentioned(entries[..|entries| - 1], id) by {
          if Mentioned(entries, id) {
            var i :| 0 <= i < |entries| && IdKey(IdOf(entries[i])) == Some(id);
            assert entries[..|entries| - 1][i] == entries[i];
          }
        }
        assert r.Some? ==> exists i :: 0 <= i < |entries| && entries[i] == r.value
                              && forall j :: i < j < |entries| ==> IdKey(IdOf(entries[j])) != Some(id) by {
          if r.Some? {
            var init := entries[..|entries| - 1];
            var i :| 0 <= i < |init| && init[i] == r.value
                     && forall j :: i < j < |init| ==> IdKey(IdOf(init[j])) != Some(id);
            assert entries[i] == r.value;
            forall j | i < j < |entries| ensures IdKey(IdOf(entries[j])) != Some(id) {
              if j < |init| { assert entries[j] == init[j]; }
            }
          }
        }
        r
  }

  /** m is the smallest element of s. */
  predicate IsLeast(s: set<int>, m: int) {
    m in s && forall x :: x in s ==> m <= x
  }

  lemma MinExists(s: set<int>)
    requires s != {}
    ensures exists m :: IsLeast(s, m)
    decreases |s|
  {
    assert exists x :: x in s by {
      if forall x :: x !in s { assert false; }
    }
    var x :| x in s;
    if s == {x} {
      assert IsLeast(s, x);
    } else {
      var rest := s - {x};
      MinExists(rest);
      var m :| IsLeast(rest, m);
      assert forall y :: y in s ==> y == x || y in rest;
      if x < m {
        assert IsLeast(s, x);
      } else {
        assert IsLeast(s, m);
      }
    }
  }

  /** The smallest id: `$survey->questions` comes back in primary-key order. */
  function Min(s: set<int>): (m: int)
    requires s != {}
    ensures m in s && forall x :: x in s ==> m <= x
  {
    MinExists(s);
    var m :| IsLeast(s, m);
    m
  }

  /** The update loop over the rows left in `remaining`, smallest id first, until an update throws. */
  function Updates(t: Table, rewrite: Rewriter, entries: seq<Entry>, remaining: set<int>): (c: Change)
    requires remaining <= t.Keys
    ensures c.table.Keys == t.Keys
    ensures forall id :: id in t && id !in remaining ==> c.table[id] == t[id]
    decreases remaining
  {
    if remaining == {} then Change(t, Done)
    else
      var id := Min(remaining);
      match LastEntryFor(entries, id)
      case None => Updates(t, rewrite, entries, remaining - {id})
      case Some(e) =>
        match rewrite(t[id], e)
        case Failure(err) => Change(t, Failed(err))
        case Success(q) => Updates(t[id := q], rewrite, entries, remaining - {id})
  }

  /**
   * Lines 112-135 on the question table: diff, delete, create, key the entries by
   * id, then update the survey's rows as they are after the creations. There is no
   * transaction: whatever ran before an exception stays.
   */
  function Reconciled(t: Table, next: int, create: Creator, rewriteAt: set<int> -> Rewriter, surveyId: int, entries: seq<Entry>): Step {
    var existing := SurveyIds(t, surveyId);
    if DiffRaises(entries, existing) then Step(t, next, Failed(ArrayToString))
    else
      var s := Creations(t - ToDelete(t, surveyId, entries), next, create, existing, entries);
      if s.outcome.Failed? then s
      else if HasArrayId(entries) then Step(s.table, s.next, Failed(IllegalOffset))
      else
        var c := Updates(s.table, rewriteAt(s.table.Keys), entries, SurveyIds(s.table, surveyId));
        Step(c.table, s.next, c.outcome)
  }

  // ---------------------------------------------------------------------------
  // What the loops do, for any createQuestion or updateQuestion call.

  /** store's loop creates the entries in order: the row under next + k is what the call made of entry k. */
  lemma {:induction false} InsertAllRows(t: Table, next: int, create: Creator, entries: seq<Entry>)
    ensures var s := InsertAll(t, next, create, entries);
      forall k :: 0 <= k < s.next - next ==> create(entries[k]) == Success(s.table[next + k])
    decreases |entries|
  {
    if entries != [] && create(entries[0]).Success? {
      var q := create(entries[0]).value;
      var rest := entries[1..];
      InsertAllRows(t[next := q], next + 1, create, rest);
      var s := InsertAll(t[next := q], next + 1, create, rest);
      forall k | 0 <= k < s.next - next
        ensures create(entries[k]) == Success(s.table[next + k])
      {
        if k == 0 {
          assert s.table[next] == q;
        } else {
          var j := k - 1;
          assert create(rest[j]) == Success(s.table[next + 1 + j]);
          assert rest[j] == entries[k];
        }
      }
    }
  }

  /** When store's loop stops early, it is the entry after the last one created that threw. */
  lemma {:induction false} InsertAllStops(t: Table, next: int, create: Creator, entries: seq<Entry>)
    ensures var s := InsertAll(t, next, create, entries);
      s.outcome.Failed? ==> s.next - next < |entries| && create(entries[s.next - next]) == Failure(s.outcome.error)
    decreases |entries|
  {
    if entries != [] && create(entries[0]).Success? {
      var q := create(entries[0]).value;
      var rest := entries[1..];
      InsertAllStops(t[next := q], next + 1, create, rest);
      var s := InsertAll(t[next := q], next + 1, create, rest);
      if s.outcome.Failed? {
        assert rest[s.next - (next + 1)] == entries[s.next - next];
      }
    }
  }

  /** The create loop creates exactly what store's loop creates for the entries with an id in toAdd. */
  lemma {:induction false} CreationsAreInserts(t: Table, next: int, create: Creator, existing: set<int>, entries: seq<Entry>)
    requires forall i :: 0 <= i < |entries| ==> "id" in entries[i]
    ensures Creations(t, next, create, existing, entries) == InsertAll(t, next, create, NewEntries(entries, existing))
    decreases |entries|
  {
    if entries != [] {
      var rest := entries[1..];
      if InToAdd(entries[0]["id"], existing) {
        if create(entries[0]).Success? {
          CreationsAreInserts(t[next := create(entries[0]).value], next + 1, create, existing, rest);
        }
        var n := NewEntries(entries, existing);
        assert n[0] == entries[0] && n[1..] == NewEntries(rest, existing);
      } else {
        CreationsAreInserts(t, next, create, existing, rest);
      }
    }
  }

  /** The create loop finishes only when every entry carries an id. */
  lemma {:induction false} CreationsNeedIds(t: Table, next: int, create: Creator, existing: set<int>, entries: seq<Entry>)
    requires Creations(t, next, create, existing, entries).outcome.Done?
    ensures forall i :: 0 <= i < |entries| ==> "id" in entries[i]
    decreases |entries|
  {
    if entries != [] {
      var rest := entries[1..];
      if !InToAdd(entries[0]["id"], existing) {
        CreationsNeedIds(t, next, create, existing, rest);
      } else {
        CreationsNeedIds(t[next := create(entries[0]).value], next + 1, create, existing, rest);
      }
      forall i | 0 < i < |entries| ensures "id" in entries[i] {
        assert entries[i] == rest[i - 1];
      }
    }
  }

  /**
   * When the update loop finishes, it has rewritten each row in `remaining` that
   * an entry names with what the call made of the row and the last entry naming
   * it, and left the other rows in `remaining` alone.
   */
  lemma {:induction false} UpdatesSpec(t: Table, rewrite: Rewriter, entries: seq<Entry>, remaining: set<int>)
    requires remaining <= t.Keys
    ensures var c := Updates(t, rewrite, entries, remaining);
      c.outcome.Done? ==> forall id :: id in remaining ==>
        if Mentioned(entries, id) then rewrite(t[id], LastEntryFor(entries, id).value) == Success(c.table[id])
        else c.table[id] == t[id]
    decreases remaining
  {
    if remaining != {} {
      var id := Min(remaining);
      var rest := remaining - {id};
      match LastEntryFor(entries, id)
      case None =>
        UpdatesSpec(t, rewrite, entries, rest);
      case Some(e) =>
        if rewrite(t[id], e).Success? {
          UpdatesSpec(t[id := rewrite(t[id], e).value], rewrite, entries, rest);
        }
    }
  }

  /** When the update loop stops early, the call on some row it was to visit threw, on that row as it was. */
  lemma {:induction false} UpdatesStops(t: Table, rewrite: Rewriter, entries: seq<Entry>, remaining: set<int>)
    requires remaining <= t.Keys
    ensures var c := Updates(t, rewrite, entries, remaining);
      c.outcome.Failed? ==>
        exists id :: id in remaining && Mentioned(entries, id) && rewrite(t[id], LastEntryFor(entries, id).value) == Failure(c.outcome.error)
    decreases remaining
  {
    if remaining != {} {
      var id := Min(remaining);
      var rest := remaining - {id};
      match LastEntryFor(entries, id)
      case None =>
        UpdatesStops(t, rewrite, entries, rest);
      case Some(e) =>
        if rewrite(t[id], e).Success? {
          var t1 := t[id := rewrite(t[id], e).value];
          UpdatesStops(t1, rewrite, entries, rest);
          var c := Updates(t1, rewrite, entries, rest);
          if c.outcome.Failed? {
            var other :| other in rest && Mentioned(entries, other)
              && rewrite(t1[other], LastEntryFor(entries, other).value) == Failure(c.outcome.error);
            assert t1[other] == t[other];
          }
        }
    }
  }

  /** Every row satisfies RowOk. */
  ghost predicate AllRowsOk(t: Table) {
    forall id :: id in t ==> RowOk(t[id])
  }

  /** Every row the call writes satisfies RowOk. */
  ghost predicate RewritesRowsOk(rewrite: Rewriter) {
    forall q, e :: rewrite(q, e).Success? ==> RowOk(rewrite(q, e).value)
  }

  /** The create loop adds rows of the survey only, so a table of good rows stays one. */
  lemma {:induction false} CreationsKeepRowsOk(t: Table, next: int, surveyId: int, create: Creator, existing: set<int>, entries: seq<Entry>)
    requires AllRowsOk(t) && CreatesRowsOf(create, surveyId)
    ensures var s := Creations(t, next, create, existing, entries);
      AllRowsOk(s.table) && forall id :: next <= id < s.next ==> s.table[id].surveyId == surveyId
    decreases |entries|
  {
    if entries != [] && "id" in entries[0] {
      if !InToAdd(entries[0]["id"], existing) {
        CreationsKeepRowsOk(t, next, surveyId, create, existing, entries[1..]);
      } else if create(entries[0]).Success? {
        var t1 := t[next := create(entries[0]).value];
        CreationsKeepRowsOk(t1, next + 1, surveyId, create, existing, entries[1..]);
        var s := Creations(t1, next + 1, create, existing, entries[1..]);
        assert s.table[next] == t1[next];
      }
    }
  }

  /** The update loop only writes what the call returns, so a table of good rows stays one. */
  lemma {:induction false} UpdatesKeepRowsOk(t: Table, rewrite: Rewriter, entries: seq<Entry>, remaining: set<int>)
    requires remaining <= t.Keys && AllRowsOk(t) && RewritesRowsOk(rewrite)
    ensures AllRowsOk(Updates(t, rewrite, entries, remaining).table)
    decreases remaining
  {
    if remaining != {} {
      var id := Min(remaining);
      match LastEntryFor(entries, id)
      case None =>
        UpdatesKeepRowsOk(t, rewrite, entries, remaining - {id});
      case Some(e) =>
        if rewrite(t[id], e).Success? {
          UpdatesKeepRowsOk(t[id := rewrite(t[id], e).value], rewrite, entries, remaining - {id});
        }
    }
  }

  // ---------------------------------------------------------------------------
  // What the controller's calls do.

  /**
   * store's loop with a call that creates rows of the survey: every row it adds
   * belongs to the survey and satisfies RowOk, so a table of good rows stays one,
   * and every id stays below the next id.
   */
  lemma StoreCreates(t: Table, next: int, surveyId: int, create: Creator, entries: seq<Entry>)
    requires CreatesRowsOf(create, surveyId)
    ensures var s := InsertAll(t, next, create, entries);
      && (forall id :: next <= id < s.next ==> s.table[id].surveyId == surveyId && RowOk(s.table[id]))
      && (AllRowsOk(t) ==> AllRowsOk(s.table))
      && (Fresh(t, next) ==> Fresh(s.table, s.next))
  {
    var s := InsertAll(t, next, create, entries);
    InsertAllRows(t, next, create, entries);
    forall id | next <= id < s.next ensures s.table[id].surveyId == surveyId && RowOk(s.table[id]) {
      assert create(entries[id - next]) == Success(s.table[next + (id - next)]);
    }
  }

  /** store's loop with the controller's createQuestion call keeps every row good and every id below the next id. */
  lemma StoreKeepsRowsOk(t: Table, next: int, surveys: set<int>, surveyId: int, entries: seq<Entry>, encode: Value -> string)
    requires Fresh(t, next) && AllRowsOk(t)
    ensures var s := InsertAll(t, next, CreatorFor(surveys, surveyId, encode), entries);
      Fresh(s.table, s.next) && AllRowsOk(s.table)
  {
    CreatorForRows(surveys, surveyId, encode);
    StoreCreates(t, next, surveyId, CreatorFor(surveys, surveyId, encode), entries);
  }

  /** What the controller's updateQuestion call writes satisfies RowOk. */
  lemma RewriterForRows(questionIds: set<int>, surveys: set<int>, encode: Value -> string)
    ensures RewritesRowsOk(RewriterFor(questionIds, surveys, encode))
  {
    var rewrite := RewriterFor(questionIds, surveys, encode);
    forall q, e | rewrite(q, e).Success? ensures RowOk(rewrite(q, e).value) {
      assert rewrite(q, e) == UpdateQuestion(q, e, questionIds, surveys, encode);
    }
  }

  /** Whatever table the loop runs against, the controller's updateQuestion call writes rows satisfying RowOk. */
  lemma RewritersForRows(surveys: set<int>, encode: Value -> string)
    ensures forall ids :: RewritesRowsOk(RewritersFor(surveys, encode)(ids))
  {
    forall ids ensures RewritesRowsOk(RewritersFor(surveys, encode)(ids)) {
      RewriterForRows(ids, surveys, encode);
      assert RewritersFor(surveys, encode)(ids) == RewriterFor(ids, surveys, encode);
    }
  }

  /** The reconciliation, with calls that keep rows good, keeps every row satisfying RowOk however it ends. */
  lemma ReconciledKeepsRowsOk(t: Table, next: int, create: Creator, rewriteAt: set<int> -> Rewriter, surveyId: int, entries: seq<Entry>)
    requires AllRowsOk(t) && CreatesRowsOf(create, surveyId)
    requires forall ids :: RewritesRowsOk(rewriteAt(ids))
    ensures AllRowsOk(Reconciled(t, next, create, rewriteAt, surveyId, entries).table)
  {
    var existing := SurveyIds(t, surveyId);
    if !DiffRaises(entries, existing) {
      var t1 := t - ToDelete(t, surveyId, entries);
      CreationsKeepRowsOk(t1, next, surveyId, create, existing, entries);
      var s := Creations(t1, next, create, existing, entries);
      if s.outcome.Done? && !HasArrayId(entries) {
        var rewrite := rewriteAt(s.table.Keys);
        UpdatesKeepRowsOk(s.table, rewrite, entries, SurveyIds(s.table, surveyId));
      }
    }
  }

  /** The controller's reconciliation keeps every row good and every id below the next id, however it ends. */
  lemma ReconciledKeepsValid(t: Table, next: int, surveys: set<int>, surveyId: int, entries: seq<Entry>, encode: Value -> string)
    requires Fresh(t, next) && AllRowsOk(t)
    ensures var r := Reconciled(t, next, CreatorFor(surveys, surveyId, encode), RewritersFor(surveys, encode), surveyId, entries);
      Fresh(r.table, r.next) && AllRowsOk(r.table)
  {
    CreatorForRows(surveys, surveyId, encode);
    RewritersForRows(surveys, encode);
    DeletionScope(t, next, CreatorFor(surveys, surveyId, encode), RewritersFor(surveys, encode), surveyId, entries);
    ReconciledKeepsRowsOk(t, next, CreatorFor(surveys, surveyId, encode), RewritersFor(surveys, encode), surveyId, entries);
  }

  /**
   * Deletion scope. Whatever way the call ends after the diff, every row of the
   * survey that no entry names is gone, and no row of another survey is deleted
   * or changed: the ids to delete come from this survey's rows only and the
   * update loop visits this survey's rows only.
   */
  lemma DeletionScope(t: Table, next: int, create: Creator, rewriteAt: set<int> -> Rewriter, surveyId: int, entries: seq<Entry>)
    requires Fresh(t, next)
    ensures var r := Reconciled(t, next, create, rewriteAt, surveyId, entries);
      && (!DiffRaises(entries, SurveyIds(t, surveyId)) ==>
            forall id :: id in t && t[id].surveyId == surveyId && !Mentioned(entries, id) ==> id !in r.table)
      && (forall id :: id in t && t[id].surveyId != surveyId ==> id in r.table && r.table[id] == t[id])
      && Fresh(r.table, r.next)
  {
    var existing := SurveyIds(t, surveyId);
    if !DiffRaises(entries, existing) {
      var t1 := t - ToDelete(t, surveyId, entries);
      var s := Creations(t1, next, create, existing, entries);
      if s.outcome.Done? && !HasArrayId(entries) {
        var remaining := SurveyIds(s.table, surveyId);
        var c := Updates(s.table, rewriteAt(s.table.Keys), entries, remaining);
        forall id | id in t && t[id].surveyId != surveyId ensures id in c.table && c.table[id] == t[id] {
          assert id in t1 && id < next;
          assert s.table[id] == t[id];
          assert id !in remaining;
        }
      } else {
        forall id | id in t && t[id].surveyId != surveyId ensures id in s.table && s.table[id] == t[id] {
          assert id in t1 && id < next;
        }
      }
    }
  }

  /**
   * Array ids. When the survey has rows, or the entry is the only one, array_diff
   * raises before anything is written. Otherwise nothing is compared: nothing is
   * deleted, every entry is in toAdd and the create loop creates the entries in
   * order; once it has created them all, keyBy('id') raises on the array key at
   * line 130. Either way the call fails.
   */
  lemma ArrayIdOutcomes(t: Table, next: int, create: Creator, rewriteAt: set<int> -> Rewriter, surveyId: int, entries: seq<Entry>)
    requires Fresh(t, next) && HasArrayId(entries)
    ensures var r := Reconciled(t, next, create, rewriteAt, surveyId, entries);
      && r.outcome.Failed?
      && (DiffRaises(entries, SurveyIds(t, surveyId)) ==> r == Step(t, next, Failed(ArrayToString)))
      && (forall id :: id in t ==> id in r.table && r.table[id] == t[id])
      && (!DiffRaises(entries, SurveyIds(t, surveyId)) ==>
            && r.next <= next + |entries|
            && (forall k :: 0 <= k < r.next - next ==> create(entries[k]) == Success(r.table[next + k]))
            && (r.next == next + |entries| ==> r.outcome == Failed(IllegalOffset)))
  {
    var existing := SurveyIds(t, surveyId);
    if !DiffRaises(entries, existing) {
      assert existing == {};
      assert ToDelete(t, surveyId, entries) == {};
      assert t - ToDelete(t, surveyId, entries) == t;
      var s := Creations(t, next, create, {}, entries);
      assert Reconciled(t, next, create, rewriteAt, surveyId, entries)
          == (if s.outcome.Failed? then s else Step(s.table, s.next, Failed(IllegalOffset)));
      forall id | id in t ensures id in s.table && s.table[id] == t[id] {
        assert id < next;
      }
      CreationsOfEmpty(t, next, create, entries);
    }
  }

  /** With no stored ids the create loop creates the entries in order, and finishes exactly when it has created them all. */
  lemma {:induction false} CreationsOfEmpty(t: Table, next: int, create: Creator, entries: seq<Entry>)
    ensures var s := Creations(t, next, create, {}, entries);
      && s.next <= next + |entries|
      && (forall k :: 0 <= k < s.next - next ==> create(entries[k]) == Success(s.table[next + k]))
      && (s.outcome.Done? <==> s.next == next + |entries|)
    decreases |entries|
  {
    if entries != [] && "id" in entries[0] {
      assert InToAdd(entries[0]["id"], {});
      if create(entries[0]).Success? {
        var q := create(entries[0]).value;
        var rest := entries[1..];
        CreationsOfEmpty(t[next := q], next + 1, create, rest);
        var s := Creations(t[next := q], next + 1, create, {}, rest);
        assert Creations(t, next, create, {}, entries) == s;
        forall k | 0 <= k < s.next - next ensures create(entries[k]) == Success(s.table[next + k]) {
          if k == 0 {
            assert s.table[next] == t[next := q][next];
          } else {
            assert rest[k - 1] == entries[k];
            assert next + 1 + (k - 1) == next + k;
          }
        }
      }
    }
  }

  /**
   * toDelete is array_diff by string comparison (lines 113-117): when no sent id is
   * an array, a row of the survey is deleted exactly when no sent id has the string
   * form of its id.
   */
  lemma ToDeleteIsDiff(t: Table, surveyId: int, entries: seq<Entry>)
    requires !HasArrayId(entries)
    ensures forall id :: id in ToDelete(t, surveyId, entries) <==>
      id in SurveyIds(t, surveyId) && forall i :: 0 <= i < |entries| ==> StringForm(IdOf(entries[i])) != Decimal(id)
  {
    forall id, i | 0 <= i < |entries| {
      IdKeyIsStringComparison(IdOf(entries[i]), id);
    }
  }

  /**
   * toAdd is array_diff by string comparison (line 119): a sent id that is no array
   * is in toAdd exactly when its string form is no stored id's.
   */
  lemma InToAddIsDiff(v: Value, existing: set<int>)
    requires !v.Arr?
    ensures InToAdd(v, existing) <==> forall id :: id in existing ==> StringForm(v) != Decimal(id)
  {
    forall id {
      IdKeyIsStringComparison(v, id);
    }
  }

  /**
   * Creation. When the call finishes, each entry whose id is null, missing from the
   * survey's ids or not an id at all was created exactly once, under consecutive
   * fresh ids, and nothing else was added. A created row holds what the create
   * call made of its entry, unless some entry also names the fresh id, in which
   * case the update loop rewrites it.
   */
  lemma ReconcileCreates(t: Table, next: int, create: Creator, rewriteAt: set<int> -> Rewriter, surveyId: int, entries: seq<Entry>)
    requires Fresh(t, next)
    requires Reconciled(t, next, create, rewriteAt, surveyId, entries).outcome.Done?
    ensures var r := Reconciled(t, next, create, rewriteAt, surveyId, entries);
      var created := NewEntries(entries, SurveyIds(t, surveyId));
      && (forall i :: 0 <= i < |entries| ==> "id" in entries[i])
      && r.next == next + |created|
      && (forall id :: id in r.table <==> (id in t && id !in ToDelete(t, surveyId, entries)) || next <= id < r.next)
      && (forall k :: 0 <= k < |created| && !Mentioned(entries, next + k) ==> create(created[k]) == Success(r.table[next + k]))
  {
    var existing := SurveyIds(t, surveyId);
    var t1 := t - ToDelete(t, surveyId, entries);
    var s := Creations(t1, next, create, existing, entries);
    var rewrite := rewriteAt(s.table.Keys);
    var remaining := SurveyIds(s.table, surveyId);
    var c := Updates(s.table, rewrite, entries, remaining);
    assert !HasArrayId(entries);
    assert Reconciled(t, next, create, rewriteAt, surveyId, entries) == Step(c.table, s.next, c.outcome);
    CreationsNeedIds(t1, next, create, existing, entries);
    CreationsAreInserts(t1, next, create, existing, entries);
    var created := NewEntries(entries, existing);
    InsertAllRows(t1, next, create, created);
    UpdatesSpec(s.table, rewrite, entries, remaining);
    forall k | 0 <= k < |created| && !Mentioned(entries, next + k)
      ensures create(created[k]) == Success(c.table[next + k])
    {
      assert create(created[k]) == Success(s.table[next + k]);
      assert next + k in s.table;
      assert c.table[next + k] == s.table[next + k];
    }
  }

  /**
   * Update in place. When the call finishes, every row the survey had that an
   * entry names keeps its id and holds what the update call wrote from the last
   * entry naming it, validated against the ids of the table after the creations.
   */
  lemma ReconcileUpdatesInPlace(t: Table, next: int, create: Creator, rewriteAt: set<int> -> Rewriter, surveyId: int, entries: seq<Entry>)
    requires Fresh(t, next)
    requires Reconciled(t, next, create, rewriteAt, surveyId, entries).outcome.Done?
    ensures var r := Reconciled(t, next, create, rewriteAt, surveyId, entries);
      forall id :: id in t && t[id].surveyId == surveyId && Mentioned(entries, id) ==>
        id in r.table && rewriteAt(r.table.Keys)(t[id], LastEntryFor(entries, id).value) == Success(r.table[id])
  {
    var existing := SurveyIds(t, surveyId);
    var t1 := t - ToDelete(t, surveyId, entries);
    var s := Creations(t1, next, create, existing, entries);
    var rewrite := rewriteAt(s.table.Keys);
    var remaining := SurveyIds(s.table, surveyId);
    var c := Updates(s.table, rewrite, entries, remaining);
    assert !HasArrayId(entries);
    assert Reconciled(t, next, create, rewriteAt, surveyId, entries) == Step(c.table, s.next, c.outcome);
    UpdatesSpec(s.table, rewrite, entries, remaining);
    forall id | id in t && t[id].surveyId == surveyId && Mentioned(entries, id)
      ensures id in c.table && rewrite(t[id], LastEntryFor(entries, id).value) == Success(c.table[id])
    {
      assert id !in ToDelete(t, surveyId, entries);
      assert id in t1 && id < next;
      assert s.table[id] == t[id];
      assert id in remaining;
    }
  }

  /**
   * Idempotence of shape. When the entries name exactly the survey's rows, there
   * is nothing to delete and nothing to create: the call keeps the table's ids and
   * the id counter, and only updates.
   */
  lemma IdempotentShape(t: Table, next: int, create: Creator, rewriteAt: set<int> -> Rewriter, surveyId: int, entries: seq<Entry>)
    requires Fresh(t, next)
    requires forall i :: 0 <= i < |entries| ==>
      "id" in entries[i] && IdKey(entries[i]["id"]).Some? && IdKey(entries[i]["id"]).value in SurveyIds(t, surveyId)
    requires forall id :: id in SurveyIds(t, surveyId) ==> Mentioned(entries, id)
    ensures ToDelete(t, surveyId, entries) == {}
    ensures NewEntries(entries, SurveyIds(t, surveyId)) == []
    ensures var r := Reconciled(t, next, create, rewriteAt, surveyId, entries);
      r.next == next && r.table.Keys == t.Keys
  {
    var existing := SurveyIds(t, surveyId);
    NoNewEntries(entries, existing);
    assert !HasArrayId(entries) by {
      forall i | 0 <= i < |entries| ensures !IdOf(entries[i]).Arr? {
        assert IdKey(entries[i]["id"]).Some?;
      }
    }
    assert ToDelete(t, surveyId, entries) == {};
    assert t - ToDelete(t, surveyId, entries) == t;
    CreationsAreInserts(t, next, create, existing, entries);
    assert Creations(t, next, create, existing, entries) == Step(t, next, Done);
  }

  lemma {:induction false} NoNewEntries(entries: seq<Entry>, existing: set<int>)
    requires forall i :: 0 <= i < |entries| ==>
      "id" in entries[i] && IdKey(entries[i]["id"]).Some? && IdKey(entries[i]["id"]).value in existing
    ensures NewEntries(entries, existing) == []
    decreases |entries|
  {
    if entries != [] {
      forall i | 0 <= i < |entries| - 1
        ensures "id" in entries[1..][i] && IdKey(entries[1..][i]["id"]).Some? && IdKey(entries[1..][i]["id"]).value in existing
      {
        assert entries[1..][i] == entries[i + 1];
      }
      NoNewEntries(entries[1..], existing);
    }
  }
}
