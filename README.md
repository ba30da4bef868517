# SurveyController, modelled in Dafny

This project verifies a model of the survey controller of a Laravel survey application
(`app/Http/Controllers/SurveyController.php`). The controller:

- creates surveys together with their questions;
- edits a survey and reconciles its stored questions against the list the client sends;
- deletes surveys;
- records the answers to a survey.

Its helpers do two jobs:

- validate and write one question (`createQuestion`, `updateQuestion`);
- decode an image that arrives as a data URI (`saveImage`).

The model works with these tables:

- surveys, survey_questions, survey_answers and survey_question_answers;
- each table is a map from primary key to row, with the next auto-increment id beside it.

How values and failures are represented:

- Request values: a PHP value is `Null`, `Int`, `Str` or `Arr`, and a submitted question is a map from attribute name to value.
- How an action ends: an exception that an action catches and returns as its response is the action's `Failed` outcome.
  - Nothing is wrapped in a transaction.
  - Whatever was written before the exception stays written.
- Parameters: the caller's user id, `Str::random()`, `base64_decode` and `json_encode` are parameters.

Files:

- `wrappers.dfy`: `Option` and `Result`.
- `php.dfy`: PHP values and exceptions.
  - How `array_diff` compares ids, which is by their string form.
  - `is_array($v) ? json_encode($v) : $v`.
- `questions.dfy`: the validation rules of `createQuestion` and `updateQuestion`, what `validated()` keeps, and the rows the two write.
- `images.dfy`: `saveImage`, made up of:
  - the header match `^data:image\/(\w+);base64,`;
  - `strpos` of the comma;
  - the lowercase whitelist;
  - the decode;
  - the path `images/<name>.<type>`.
- `reconciliation.dfy`: the question-table side of `store`'s loop and of `update`, as total functions of the table before the call.
  - The loops are written over the per-entry call (`Creator`, `Rewriter`), so what a loop does is proved once for any call.
  - `CreatorFor` and `RewritersFor` fix the calls the controller makes.
- `answers.dfy`: the rows `storeAnswer` writes.
- `controller.dfy`: `class SurveyController` with the four tables as fields.
  - Its methods run the source's loops over the tables.
  - Each loop method is proved to compute the corresponding function of `reconciliation.dfy` or `answers.dfy`.
  - Each action (`Store`, `Update`, `Destroy`, `StoreAnswer`, and the `StoreSurvey` and `UpdateSurvey` steps) is also proved to keep `Valid()`: every id is below its counter, and every question row has non-blank text and non-array data. The loop helpers do not mention `Valid()`; the actions restore it through `StoreKeepsRowsOk` and `ReconciledKeepsValid`.

The model follows the code as written:

- `update` runs without a transaction.
  - A validation failure in the middle of the create loop leaves the deletions and earlier creations in place (`Reconciliation.DeletionScope`, `Reconciliation.CreationsAreInserts`).
  - `store` is not atomic either: the survey and the questions created before a failing one stay.
- This controller does not check in `update` that the caller owns the survey; only `show` and `destroy` do. `UpdateSurveyRequest`, which might, is not part of this model.
- `storeAnswer` does not reject answers to foreign or unknown questions. `SurveyQuestion::where(...)->get()` returns a collection, which `!$question` never treats as false.
- `$survey->questions` at line 131 is loaded after the creations.
  - The update loop therefore also visits rows created by the same request.
  - If some entry's id names such a fresh id, that row is rewritten from the entry.
- `updateQuestion` validates the sent `survey_id` only against the set of existing surveys and writes it. A question can thus be moved to another survey.
- An id that is an array fails the whole `update`, but not always before anything is written (`Reconciliation.ArrayIdOutcomes`).
  - `array_diff` converts the ids it compares to strings, and converting an array raises. When the survey has rows, or only one entry is sent, this happens at lines 117-119, before any write.
  - When the survey has no rows and two or more entries are sent, `array_diff` compares nothing. Every entry is then in `toAdd` and is created.
  - After that, `keyBy('id')` at line 130 raises because an array cannot be an array key. The created rows stay.
- A sent `image: null` fails `isset`, so it is not saved, but `validated()` keeps it, and `$survey->update($data)` clears the column (`Controller.ImageColumn`).
- A `user_id` sent to `update` is written over the stored one at line 110, which hands the survey to that user (`Controller.SurveyController.Update`).
- An entry without an `id` key stops `update` at line 124 with an undefined-key exception, after the deletions and the creations before it (`Reconciliation.CreationsNeedIds`, `Reconciliation.DeletionScope`).
- `$data['data']` is read before validation, so an entry without a `data` key ends the action with an undefined-key exception, not a validation error.

## Model

| member | source | states |
|---|---|---|
| Php.JsonEncoded | app/Http/Controllers/SurveyController.php:258-260 | an array value becomes the string json_encode gives for it; any other value is kept; the result is never an array |
| Php.IdKeyIsStringComparison | app/Http/Controllers/SurveyController.php:117-119 | for a non-array id, IdKey names row id n exactly when the id's PHP string form equals the decimal spelling of n, which is how array_diff compares |
| Php.ParseDecimal | app/Http/Controllers/SurveyController.php:117-119 | reading back PHP's decimal spelling of any integer gives that integer |
| Php.DecimalOfParse | app/Http/Controllers/SurveyController.php:117-119 | a string that spells an integer is PHP's own spelling of it, so the spelling-to-id map is one-to-one |
| Php.NatDigitsCanonical | app/Http/Controllers/SurveyController.php:117-119 | the decimal digits of n have no leading zero and denote n |
| Php.NatDigitsOfValue | app/Http/Controllers/SurveyController.php:117-119 | a canonical digit string is the decimal spelling of the number it denotes |
| Php.ArrayKeyOfId | app/Http/Controllers/SurveyController.php:130-132 | a non-array id is stored by keyBy under the integer key of row id n exactly when IdKey names n, that is, exactly when its string form is the decimal spelling of n |
| Questions.TypeNamed | app/Http/Controllers/SurveyController.php:264-270 | the `type` value passes Rule::in exactly when it is the string name of one of the five question types, and then names that type |
| Questions.AllPassIffRulesHold | app/Http/Controllers/SurveyController.php:262-274 | every attribute with a rule passes its rule if and only if the written-out rule conjunction holds |
| Questions.Normalised | app/Http/Controllers/SurveyController.php:258-260 | the request keeps the same attributes, `data` becomes its JSON-encoded form when it is an array, and every other attribute is unchanged |
| Questions.Validate | app/Http/Controllers/SurveyController.php:256-301 | a missing `data` raises an undefined-key exception; otherwise validation succeeds if and only if the rules hold; a failure names exactly the failing attributes; a success returns the sent question, type and description, the encoded data and the resolved ids |
| Questions.NewRow | app/Http/Controllers/SurveyController.php:276 | the created row holds the validated survey id, text, type and data, with the description a sent string or else null |
| Questions.UpdatedRow | app/Http/Controllers/SurveyController.php:300 | the rewritten row takes the validated text, type and data; it takes the survey id when one was sent and keeps its own otherwise; the description is unchanged if not sent, set if a string, cleared otherwise |
| Questions.CreateQuestion | app/Http/Controllers/SurveyController.php:256-277 | it succeeds if and only if `data` is present and the create rules hold; a failure is the validation error; a created row belongs to the sent survey, which exists, and holds the sent text and type, the encoded data, and the sent description when it is a string (null otherwise) |
| Questions.UpdateQuestion | app/Http/Controllers/SurveyController.php:279-301 | it succeeds if and only if `data` is present and the update rules hold, the sent id naming an existing question; a success has non-blank text, non-array data, the sent survey id or the old one, and the description rule |
| Images.WordRun | app/Http/Controllers/SurveyController.php:220 | the capture of `\w+` is the longest prefix of word characters |
| Images.LowerIdempotent | app/Http/Controllers/SurveyController.php:223 | lowering the captured type twice gives the same as once |
| Images.LowerKeepsLowercase | app/Http/Controllers/SurveyController.php:223 | a type without upper-case letters is kept as sent |
| Images.LowerIsCaseVariant | app/Http/Controllers/SurveyController.php:223 | for a target without upper-case letters, strtolower gives it exactly from the strings that spell it with some of its letters in upper case |
| Images.LowerAllowed | app/Http/Controllers/SurveyController.php:223-225 | the whitelist accepts exactly the case variants of jpg, jpeg, gif and png, such as `PNG` or `JpEg` |
| Images.IndexOf | app/Http/Controllers/SurveyController.php:221 | strpos gives the first position of the character, or nothing when it does not occur |
| Images.HeaderComma | app/Http/Controllers/SurveyController.php:220-221 | in a matched header, the first comma is the one ending `;base64,`, and the string is the data URI of the captured subtype and what follows |
| Images.SaveImage | app/Http/Controllers/SurveyController.php:217-254 | a success comes only from a matched header and writes to `images/<name>.<lowercased subtype>` |
| Images.MatchDataUri | app/Http/Controllers/SurveyController.php:220 | the header of `data:image/<subtype>;base64,<payload>` is matched with exactly that subtype |
| Images.SaveImageAccepts | app/Http/Controllers/SurveyController.php:220-250 | a data URI with a whitelisted subtype and a decodable payload is saved under `images/<name>.<lowercased subtype>` with the decoded payload |
| Images.SaveImageRejectsType | app/Http/Controllers/SurveyController.php:225-227 | a subtype outside jpg, jpeg, gif and png is refused with the lowercased type |
| Images.SaveImageRejectsUndecodable | app/Http/Controllers/SurveyController.php:230-234 | a whitelisted data URI whose payload does not decode is refused |
| Images.SaveImageOnlyDataUris | app/Http/Controllers/SurveyController.php:220-237 | every saved image was a data URI with a whitelisted subtype and a decodable payload |
| Images.NonDataUriRejected | app/Http/Controllers/SurveyController.php:235-237 | a string that is no image data URI is refused as such |
| Reconciliation.CreatorForRows | app/Http/Controllers/SurveyController.php:57-58 | the controller's create call succeeds exactly when `data` is present and the entry with its survey id passes the create rules; every row it creates belongs to the survey and satisfies RowOk |
| Reconciliation.ForSurveyFrame | app/Http/Controllers/SurveyController.php:57 | setting survey_id adds or overwrites that one attribute with the survey id and leaves every other attribute of the entry as sent |
| Reconciliation.InsertAll | app/Http/Controllers/SurveyController.php:56-59 | the loop adds exactly the ids from next up to the new next id, at most one per entry, and changes no other row; it is Done exactly when every entry was created |
| Reconciliation.InsertAllRows | app/Http/Controllers/SurveyController.php:56-59 | the row under next + k is what the call made of entry k |
| Reconciliation.InsertAllStops | app/Http/Controllers/SurveyController.php:56-59 | a failure is the error of the first entry the call refused, and the entries before it were all created |
| Reconciliation.StoreCreates | app/Http/Controllers/SurveyController.php:56-59 | with a call that creates rows of the survey, every added row belongs to the survey and satisfies RowOk, and ids stay below the counter |
| Reconciliation.StoreKeepsRowsOk | app/Http/Controllers/SurveyController.php:56-59 | store's loop with the controller's call keeps every row good and every id below the next id |
| Reconciliation.Creations | app/Http/Controllers/SurveyController.php:123-128 | the loop adds exactly the ids from next up to the new next id and changes no other row |
| Reconciliation.CreationsAreInserts | app/Http/Controllers/SurveyController.php:119-128 | when every entry has an id, the loop creates exactly the entries that array_diff puts in toAdd, in order, as store's loop does |
| Reconciliation.CreationsNeedIds | app/Http/Controllers/SurveyController.php:124 | if the loop finishes, every entry has an `id` key |
| Reconciliation.LastEntryFor | app/Http/Controllers/SurveyController.php:130 | keyBy('id') finds an entry exactly when some entry names the id; it is an entry naming the id, and no later entry names it |
| Reconciliation.Min | app/Http/Controllers/SurveyController.php:131 | the smallest id of a non-empty set, the order the relation is iterated in |
| Reconciliation.Updates | app/Http/Controllers/SurveyController.php:131-135 | the loop keeps the table's ids and changes only rows in the visited set |
| Reconciliation.UpdatesSpec | app/Http/Controllers/SurveyController.php:131-135 | when the loop finishes, each visited row that an entry names holds what the call made of it and its last entry, and each other row is unchanged |
| Reconciliation.UpdatesStops | app/Http/Controllers/SurveyController.php:131-135 | a failure is the error of a named row whose rewrite the call refused |
| Reconciliation.CreationsKeepRowsOk | app/Http/Controllers/SurveyController.php:123-128 | the create loop adds rows of the survey only, so a table of good rows stays one |
| Reconciliation.UpdatesKeepRowsOk | app/Http/Controllers/SurveyController.php:131-135 | the update loop writes only what the call returns, so a table of good rows stays one |
| Reconciliation.RewriterForRows | app/Http/Controllers/SurveyController.php:133 | every row the controller's update call writes satisfies RowOk |
| Reconciliation.RewritersForRows | app/Http/Controllers/SurveyController.php:133 | every row the controller's update call writes satisfies RowOk, whichever table it validates against |
| Reconciliation.ReconciledKeepsRowsOk | app/Http/Controllers/SurveyController.php:112-135 | with calls that keep rows good, the reconciliation keeps every row satisfying RowOk however it ends |
| Reconciliation.ReconciledKeepsValid | app/Http/Controllers/SurveyController.php:112-135 | the controller's reconciliation keeps every row good and every id below the next id |
| Reconciliation.DeletionScope | app/Http/Controllers/SurveyController.php:113-135 | unless array_diff raises on an array id, the survey's rows that no entry names are gone however the call ends; every row of another survey is still there, unchanged; ids stay below the counter |
| Reconciliation.ArrayIdOutcomes | app/Http/Controllers/SurveyController.php:117-130 | with an array id the call always fails: when the survey has rows or one entry is sent, at the diff with nothing written; otherwise no row is deleted or changed, the entries are created in order under consecutive ids, and once all are created keyBy raises an illegal-offset error |
| Reconciliation.CreationsOfEmpty | app/Http/Controllers/SurveyController.php:119-128 | with no stored ids, every entry is in toAdd: the loop creates the entries in order and finishes exactly when it has created all of them |
| Reconciliation.ToDeleteIsDiff | app/Http/Controllers/SurveyController.php:113-117 | without array ids, a row is deleted exactly when it belongs to the survey and no sent id has its decimal spelling as string form, which is array_diff's comparison |
| Reconciliation.InToAddIsDiff | app/Http/Controllers/SurveyController.php:119-124 | a non-array sent id is in toAdd exactly when its string form is no stored id's decimal spelling |
| Reconciliation.ReconcileCreates | app/Http/Controllers/SurveyController.php:117-128 | on success, the table holds exactly the surviving old rows plus one fresh id per entry in toAdd, and each fresh row no entry names is what the create call made of its entry |
| Reconciliation.ReconcileUpdatesInPlace | app/Http/Controllers/SurveyController.php:130-135 | on success, every row of the survey that an entry names keeps its id and holds what the update call made of it and its last entry, validated against the ids after the creations |
| Reconciliation.IdempotentShape | app/Http/Controllers/SurveyController.php:112-135 | when the entries name exactly the survey's rows, nothing is deleted or created, and the ids and the counter stay the same |
| Reconciliation.NoNewEntries | app/Http/Controllers/SurveyController.php:119 | entries that all name existing rows leave toAdd empty |
| Answers.Recorded | app/Http/Controllers/SurveyController.php:195-209 | the loop adds exactly the ids next to next + number of entries and changes no other row |
| Answers.RecordedRows | app/Http/Controllers/SurveyController.php:202-208 | entry k is stored under next + k with its question id and the submission's id, an array answer JSON-encoded and any other answer as sent |
| Answers.RecordedCount | app/Http/Controllers/SurveyController.php:195-209 | the table grows by exactly one row per submitted entry |
| Controller.SentImageStored | app/Http/Controllers/SurveyController.php:48-51 | a sent image string becomes a stored path if and only if it is a data URI with a whitelisted subtype and a decodable payload; otherwise the column holds saveImage's exception |
| Controller.SentImagePath | app/Http/Controllers/SurveyController.php:100-110 | a stored image's column is `images/<name>.<lowercased subtype>`, whatever the column held before |
| Controller.SurveyController.constructor | app/Http/Controllers/SurveyController.php:24 | all tables start empty, with valid counters |
| Controller.SurveyController.Store | app/Http/Controllers/SurveyController.php:43-65 | a new survey under a fresh id, owned by the request's user_id, with the other sent attributes and the image column ImageColumn gives (no image or a sent null leave it empty); its owner passes show; then store's loop on the question table; validity kept; answers untouched |
| Controller.SurveyController.StoreSurvey | app/Http/Controllers/SurveyController.php:53-59 | inserts the survey row under the next id and runs store's loop, keeping validity |
| Controller.SurveyController.InsertQuestions | app/Http/Controllers/SurveyController.php:56-59 | the while loop computes InsertAll on the question table and counter |
| Controller.SurveyController.Show | app/Http/Controllers/SurveyController.php:73-86 | the survey is returned if and only if the caller owns it; anyone else gets 403 |
| Controller.SurveyController.Update | app/Http/Controllers/SurveyController.php:95-141 | the survey takes the sent attributes over the stored ones; a sent user_id becomes the owner, who then passes show, and otherwise the owner is kept; a sent image gives the column ImageColumn computes, a sent null clears it, no image keeps it; the question table becomes the reconciliation of the old one; validity kept; no owner check in this action |
| Controller.SurveyController.UpdateSurvey | app/Http/Controllers/SurveyController.php:110-135 | writes the survey row, then reconciles the questions, keeping validity |
| Controller.SurveyController.Reconcile | app/Http/Controllers/SurveyController.php:112-135 | the diff, delete, create and update steps, including the array-id failures at the diff and at keyBy, compute Reconciled on the question table and counter |
| Controller.SurveyController.CreateMissing | app/Http/Controllers/SurveyController.php:123-128 | the while loop computes Creations on the question table and counter |
| Controller.SurveyController.UpdateNamed | app/Http/Controllers/SurveyController.php:131-135 | the while loop over the ids in ascending order computes Updates on the question table |
| Controller.SurveyController.Destroy | app/Http/Controllers/SurveyController.php:149-165 | a non-owner gets 403 and nothing changes; for the owner only the survey row is deleted |
| Controller.SurveyController.StoreAnswer | app/Http/Controllers/SurveyController.php:182-213 | one new submission row for the survey under a fresh id, then Recorded on the answer table with the counter advanced by the number of entries; validity kept; no configured-question check |

Some specification functions have no row of their own, because lemmas state what they mean:

- `Reconciliation.Reconciled` (lines 112-135): DeletionScope, ReconcileCreates, ReconcileUpdatesInPlace, IdempotentShape, ArrayIdOutcomes and ReconciledKeepsValid.
- `Reconciliation.SurveyIds`, `ToDelete`, `InToAdd` and `NewEntries` (lines 113-124): ToDeleteIsDiff, InToAddIsDiff, CreationsAreInserts and NoNewEntries.
- `Php.IdKey` (lines 130-132): ArrayKeyOfId and IdKeyIsStringComparison.
- `Images.MatchHeader` (line 220): MatchDataUri and HeaderComma.
- `Answers.Stored` (lines 202-206): RecordedRows.
- `Controller.ImageColumn` (lines 48-51 and 100-110): SentImageStored and SentImagePath.
- `Questions.Passes` and `Questions.RulesHold` (lines 262-274): AllPassIffRulesHold.

## Left out

- Eloquent and the database: each table is a map from id to row. Pagination and `SurveyResource` serialisation are not modelled, and neither is `index`, which only lists the caller's surveys.
- `showForGuest`: it only serialises the survey.
- Database constraints and cascades: the migrations are not part of this model. `destroy` deletes the survey row only, and no foreign key stops a question or an answer from naming a missing survey.
- Route model binding: a survey id that does not exist is a 404 before the action runs, so the actions require an existing survey.
- Request classes: `StoreSurveyRequest`, `UpdateSurveyRequest` and `StoreSurveyAnswerRequest` are not part of this model. The survey attributes arrive already validated, the `questions` and `answers` arrays are assumed present, and answer keys are integers.
- `Auth::user()`: the caller's id is a parameter of `show` and `destroy`.
- Controller.SurveyController.Store: the owner comes with the request as `user_id` (`StoreSurveyRequest` is not part of this model, so how it fills that value is not modelled); the model takes it as `userId`, separately from the other attributes.
- Controller.SurveyController.Update: a sent `user_id` is taken as the integer `owner`; a value the database would coerce or reject is not modelled.
- `Carbon::now()`: the start and end dates of a submission read the clock and are not stored.
- `Str::random()`, `base64_decode` and `json_encode`: these are parameters. `str_replace('', '+', ...)` at line 229 is the identity, because PHP ignores an empty search string.
- File I/O: the directory check, `file_put_contents` and `File::delete` of the old image are not modelled. A saved image is its path and its bytes.
- Booleans and floats in request values are not modelled.
- Integers are unbounded, and PHP_INT_MAX overflow is not modelled.
- Reconciliation.CreationsAreInserts: line 124 uses PHP's loose `in_array`. The model compares by the canonical integer key, as `array_diff` does, so the loose-comparison edge case of a non-canonical numeric string such as "07" is not modelled.
- The Throwable an action returns as its response is reduced to its kind (`Exception`).
- Controller.SurveyController.Show: an `abort(403)` inside `try` is caught and returned like any other exception. The model gives `Failure(Forbidden)` without modelling the HTTP response object.
- Questions.CreateQuestion: requires a `survey_id` key, which both callers set before the call (lines 57 and 125).
- MySQL's coercion of the stored values to column types is not modelled.
- Reconciliation.Min: the update loop and `Controller.SurveyController.UpdateNamed` visit `$survey->questions` in ascending id order. No `orderBy` is in the code, so this is the order the database usually returns, assumed here.
- Questions.CreateQuestion and Questions.UpdateQuestion: the `exists` rules compare in the database. There a value such as "05", "5.0" or even an array can match a stored id. The model decides membership with IdKey, which accepts only an integer or its canonical decimal spelling.
- Php.JsonEncoded: `json_encode` is a total parameter `encode: Value -> string`. The case where it returns false is not modelled.
