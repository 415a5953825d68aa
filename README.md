# vExsam exam engine, modelled in Dafny

vExsam is a Streamlit exam simulator. A candidate enters a name, a pass mark,
a subject and a question count. The engine draws a sample of questions that
is balanced across the subject's sections, runs a one-hour attempt with page
navigation and a countdown, grades the recorded answers, and shows a
percentage and a pass/fail verdict. A separate script loads the question bank
from a CSV file.

This project models that engine and proves properties of it:

- `Bank` (`bank.dfy`): the `Questions` table as a sequence of rows whose ids
  are distinct (the primary key), and the filtered queries the sampler runs.
- `Sampler` (`sampler.dfy`): `get_balanced_questions`. It covers the
  per-section quotas (`total // n`, plus one for the first `total % n`
  sections), the first round over the sections with the `NOT IN` exclusion,
  and the back-fill round.
- `Grading` (`grading.dfy`): the scoring loop of `finish_exam`, the list of
  misses, and the exact pass/fail verdict.
- `Session` (`session.dfy`): the per-user session state as a class. It has
  the setup, exam and results phases, the start button, answer saving, the
  navigation buttons, the server-side deadline check, submission, the verdict
  and "new exam".
- `Timer` (`timer.dfy`): the browser-side code. It reconciles the stored
  deadline with the server's deadline and computes the `MM:SS` countdown.
- `Import` (`import.dfy`): the row loop of `import_real_questions_from_csv`.
  It skips incomplete rows, applies Python's `strip()` to every field,
  defaults `section` and `passage_text`, and counts the inserts.
- `Percent` (`percent.dfy`): the percentage as Python computes it, in IEEE 754
  binary64 arithmetic. It exists for the finding below.
- `Wrappers` (`wrappers.dfy`): `Option`, `Result`, `Min` and `Max`.

How non-deterministic and outside things are modelled:

- `ORDER BY RANDOM() LIMIT k` is a method `Draw` that returns any
  duplicate-free choice of `min(k, available)` eligible rows.
- The order `SELECT DISTINCT section` returns is left open. Any
  duplicate-free list of the subject's sections is allowed.
- The clock (`time.time()`, `Date.now()`) is a parameter.
- The browser's `sessionStorage` entry is an `Option<int>`.

## Model

| member | source | states |
|---|---|---|
| Bank.Eligible | app.py:47-51 | The rows a `WHERE subject=? [AND section=?] [AND id NOT IN (...)]` query can return: exactly the store rows matching every condition, and no more of them than the store holds. |
| Bank.EligibleExcludesNothing | app.py:47-51 | When no matching row has an excluded id, the query with `NOT IN` returns what the query without it returns. That is why the two branches of the first round agree. |
| Bank.EligibleDistinct | app.py:18 | A query over a store with a primary key returns no id twice. |
| Bank.SameIdSameRow | app.py:18 | In a store with distinct ids, two rows with the same id are the same row. |
| Bank.DistinctIdsCard | app.py:18 | A sequence of rows with distinct ids has exactly as many ids as rows. |
| Bank.EligibleAfterExclusion | app.py:57-60 | After `drawn` questions of the subject, the back-fill query has exactly the subject's question count minus `len(drawn)` rows to choose from. |
| Bank.SelectionBound | app.py:57-61 | A duplicate-free selection from one subject is never larger than that subject's question count. |
| Sampler.QuotaSumPrefix | app.py:40-46 | The first `k` section quotas add up to `k*(total//n) + min(k, total%n)`. |
| Sampler.QuotasSumToTotal | app.py:40-46 | All `n` quotas add up to exactly `total_limit`. |
| Sampler.QuotasBalanced | app.py:40-46 | Quotas never increase along the section list and differ by at most one. A section gets the extra question exactly when its index is below `total % n`. |
| Sampler.FirstQuotaPositive | app.py:40-46 | With a positive total, the first section's quota is at least one. |
| Sampler.Quota | app.py:40-46 | A section's share is `total//n` or one more. An index past the section list gets `total//n`. |
| Sampler.SectionsOf | app.py:36-37 | There is always a valid `DISTINCT section` result: each section of the subject appears once and nothing else appears. |
| Sampler.NoSectionsNoQuestions | app.py:36-39 | The section list is empty exactly when the subject has no questions, so the early `return []` loses nothing. |
| Sampler.Draw | app.py:49-52 | One `ORDER BY RANDOM() LIMIT k` fetch returns `min(k, eligible)` distinct rows, all of them eligible. |
| Sampler.OtherSectionsDisjoint | app.py:47-51 | Excluding ids drawn from other sections leaves the current section's query unchanged. |
| Sampler.DrawSections | app.py:42-55 | Section `i` contributes exactly `min(quota_i, size of section i)` of its own questions. The whole round has distinct ids, at most `total_limit` rows, and at least one row when the total is positive. `selected_ids` is the set of ids drawn so far. |
| Sampler.GetBalancedQuestions | app.py:32-62 | Exactly `min(total_limit, questions of the subject)` rows, so an empty list when the subject has no sections or the total is 0. The rows have distinct ids and all belong to the subject. The result is the per-section parts followed by a back-fill no longer than the deficit. Each part holds `min(quota, section size)` rows of its own section. |
| Grading.UnansweredIsMissed | app.py:71-75 | A question left unanswered, or answered with an empty value while its key is not empty, is listed among the misses, and the answer shown for it is the "لم يجب" (unanswered) marker. |
| Grading.Score | app.py:69-74 | The score never exceeds the number of questions. |
| Grading.Misses | app.py:69-75 | There is at most one miss entry per question. |
| Grading.ScoreCountsCorrect | app.py:71-74 | The score is the number of positions whose recorded answer equals the correct option. |
| Grading.ScorePlusMisses | app.py:69-75 | Every question is counted as right or listed as missed, never both: score plus misses is the question count. |
| Grading.GradeConcat | app.py:71-75 | Grading a concatenation adds the scores and concatenates the miss lists in order. |
| Grading.MissesAreTheWrongOnes | app.py:71-75 | A miss entry is listed exactly when some question's answer is wrong and the entry carries that question's section, text, shown answer and correct option. |
| Grading.PassesIsPercentage | app.py:320-322 | The integer verdict `score*100 >= pass_mark*count` is equivalent to the exact percentage `score/count*100` being at least the pass mark. |
| Grading.Passes | app.py:322 | The exact verdict. A pass mark of 0 or less always passes. A full score passes any mark up to 100. No score passes a mark above 100. |
| Grading.PassesBoundary | app.py:322 | A percentage exactly equal to the pass mark passes, and a higher score never fails where a lower one passed. |
| Grading.GradingExample | app.py:67-76 | Keys A, B, C, D and answers A, C, none, D give score 2, a pass at 50, and misses q2 (answered C) and q3 (unanswered), in that order. |
| Session.Preselected | app.py:301-302 | The radio index is the position of the first option equal to the recorded answer. There is none exactly when the question is unanswered or the answer is not among its options. |
| Session.ExamSession.constructor | app.py:330-332 | A new session is in setup with nothing recorded. |
| Session.ExamSession.Start | app.py:248-256 | An empty name shows the name message and changes nothing. An empty sample shows the empty-bank message and changes nothing. Otherwise the exam starts at question 0 with no answers and deadline now + 3600. The questions are the sampler's run: a non-empty section list, one draw per section of `min(quota, section size)` rows of that section, then a back-fill no longer than the deficit. They have distinct ids, all belong to the subject, and number `min(count, questions of the subject)`. |
| Session.ExamSession.Begin | app.py:252-256 | A start with a non-empty sample sets the exam phase, the name, the pass mark, the subject and the questions. It puts the first question current, clears the answers and sets the deadline one hour after `now`. |
| Session.ExamSession.SaveAnswer | app.py:64-65 | The answer map gets the new value at the question's id, and nothing else changes. |
| Session.SaveAnswerOverwrites | app.py:64-65 | Saving the same value twice is saving it once, and a later value replaces an earlier one. |
| Session.ExamSession.Jump | app.py:282-286 | A question-map button makes that question current. |
| Session.ExamSession.GoPrevious | app.py:306-308 | "Previous" moves back one question. |
| Session.ExamSession.GoNext | app.py:309-312 | "Next" moves forward one question. |
| Session.ExamSession.Finish | app.py:67-76 | Results hold the score and the misses of the recorded answers. A second call once in results changes nothing. |
| Session.ExamSession.CheckExpiry | app.py:265-267 | The attempt ends exactly when `now > end_time`, with the graded results. Before the deadline nothing changes. |
| Session.ExamSession.ExamPage | app.py:264-316 | Past the deadline, results come before any button takes effect. Otherwise exactly the pressed button acts (jump, previous, next, finish or submit). Navigation leaves the score and the misses as they were. Answers and questions are never changed by it. |
| Session.ExamSession.Passed | app.py:320-322 | Pass exactly when the exact percentage of right answers is at least the pass mark. |
| Session.ExamSession.NewExam | app.py:330-332 | "New exam" clears the state back to setup. |
| Timer.Reconcile | app.py:134-138 | The stored deadline becomes the later of the stored value and the server's deadline in milliseconds. It stays absent only when nothing was stored and the server's deadline is not positive. |
| Timer.ReconcileNeverShortens | app.py:136-138 | Reconciling never moves a stored deadline earlier, adopts a later server deadline, and is idempotent. |
| Timer.ReconcileAllIsLatest | app.py:136-138 | Over any sequence of page renders, from any starting store, the stored deadline is the largest of the starting value and every server deadline seen. The starting store may be the empty one setup leaves. An absent key reads as 0. The key is present afterwards exactly when it was before or some server deadline was positive. |
| Timer.AfterSetup | app.py:215 | The setup page removes the stored key. Whatever an earlier attempt left there, the next attempt's first render adopts its own server deadline. |
| Timer.TickAt | app.py:180-195 | The countdown expires exactly when `rem <= 0`. Otherwise `m*60000 + s*1000 <= rem < m*60000 + s*1000 + 1000` with `s < 60`. |
| Timer.TickStore | app.py:181-183 | An expired tick removes the stored key and any other tick leaves it, so a render after expiry adopts the server deadline. |
| Timer.ClientExpiresNoLaterThanServer | app.py:134-183 | Against a deadline of `end_time` seconds, on a whole-second clock, the countdown has expired exactly from second `end_time` on. So it has expired whenever the server's check `now > end_time` (app.py:265) fires, and already one second before. |
| Timer.TickMonotone | app.py:180-195 | As the clock advances, an expired countdown stays expired and the remaining time shown never grows. |
| Timer.Decimal | app.py:196-197 | JavaScript's decimal rendering of a non-negative integer: digits only, and one digit exactly below 10. |
| Timer.Pad2 | app.py:196-197 | The `(x < 10 ? '0' : '') + x` padding: at least two digits, exactly two below 100. |
| Timer.Display | app.py:182-197 | An expired tick shows "00:00". Otherwise, with seconds below 60, the text ends in a colon and two digits. Under 100 minutes it is exactly five characters. |
| Timer.DecimalRoundTrip | app.py:196-197 | Reading the decimal rendering back gives the number. |
| Timer.Pad2RoundTrip | app.py:196-197 | Reading the padded rendering back gives the number. |
| Timer.DisplayRoundTrip | app.py:194-197 | The timer text is digits, a colon and two digits. The part before the colon reads back as the minutes and the part after as the seconds. |
| Import.TrimStartSpec | import_data.py:51-59 | Removing leading whitespace drops a whitespace prefix and stops at a non-space. |
| Import.TrimEndSpec | import_data.py:51-59 | Removing trailing whitespace drops a whitespace suffix and stops at a non-space. |
| Import.StripSpec | import_data.py:51-59 | `strip()` returns a contiguous middle part that neither starts nor ends with whitespace, and only whitespace is removed around it. |
| Import.StripIdempotent | import_data.py:51-59 | Stripping twice is stripping once. |
| Import.Strip | import_data.py:51-59 | `strip()` never lengthens its input, and an empty cell stays empty. |
| Import.MissingOptionIsFirst | import_data.py:55-58 | The column whose lookup fails is the first of `option_a` to `option_d`, in insert order, that the row lacks. There is none exactly when the row has all four. |
| Import.Normalize | import_data.py:47-60 | The insert fails exactly when the row lacks one of the four option columns (the `KeyError`). It names the first missing one in insert order. Otherwise it yields the row's insert. |
| Import.InsertTrimmed | import_data.py:51-59 | Every inserted value is whitespace-trimmed. |
| Import.InsertDefaults | import_data.py:52-53 | Section and passage take their defaults ("قسم عام" and the empty text) only when those columns are absent. A present column is stripped, even if blank. |
| Import.DefaultSectionTrimmed | import_data.py:52 | The default section has no surrounding whitespace. |
| Import.BlankSubjectInsertsEmpty | import_data.py:43-51 | The required-column check looks only for a non-empty cell. A subject made of whitespace passes it, and the row is inserted with an empty subject. |
| Import.Insert | import_data.py:47-60 | The INSERT values of a complete accepted row. Subject, text and correct option are no longer than their cells, and an absent passage column gives an empty passage. |
| Import.AcceptedRows | import_data.py:42-45 | A row is kept exactly when it has non-empty subject, question text and correct option. |
| Import.InsertAll | import_data.py:47-60 | One insert per accepted row. |
| Import.InsertAllInOrder | import_data.py:42-60 | The `i`-th insert is the insert of the `i`-th accepted row, so the inserts follow the file's order. |
| Import.ImportSpecOk | import_data.py:42-61 | The import completes exactly when every accepted row has all four option columns. It then inserts the accepted rows, in file order, normalized. |
| Import.ImportSpecErr | import_data.py:42-60 | A failed import is reported with the missing column and the record number (`row_num`) of the accepted row lacking it. The model attaches that number. Every accepted row before it was complete. |
| Import.ImportSpec | import_data.py:42-61 | A completed import inserts at most one row per record. A failure carries a record number within the records read. |
| Import.InsertAllTrimmed | import_data.py:51-59 | Every value of a completed import is trimmed. |
| Import.ImportSpecStep | import_data.py:42-61 | One record of the loop is either skipped, refused with its record number, or inserted. |
| Import.ImportRows | import_data.py:40-61 | The loop (records numbered from 2) fails with the same record number and column as the row-by-row definition, or inserts the same values. `inserted_count` equals the number of accepted rows. |
| Percent.RoundHalfEven | app.py:320 | Rounding a quotient to the nearest integer: down below half, up above half, to the even neighbour at exactly half. |
| Percent.Scale | app.py:320 | For quotients `p/q` below 2^53, the binary exponent that brings the quotient into the 53-bit mantissa range `[2^52, 2^53)`. A larger quotient gets exponent 0. |
| Percent.RoundQuotient | app.py:320 | IEEE 754 division of two integers: the exponent places the quotient in the mantissa range, and the mantissa is the rounded quotient. A quotient of at most 1 never rounds above 1. |
| Percent.FloatPercent | app.py:320 | The percentage as a binary64 value. A score of 0 gives 0.0. Any other score gives a normalized mantissa between 2^52 and 2^53. |
| Percent.FloatPasses | app.py:322 | The verdict as written. A pass mark of 0 or less always passes. A score of 0 passes exactly when the pass mark is not positive. |
| Percent.FloatVerdictMissesPassMark | app.py:320-322 | With 100 questions, 29 right and a pass mark of 29, the exact verdict passes but the verdict as written (`29/100*100 >= 29` in floating point) fails. |

## Left out

- Streamlit rendering, CSS and themes are not modelled. Neither are the radio-highlighting script, reruns, or the button click that the countdown triggers on expiry. The countdown is modelled up to its `Expired` tick and the removal of the stored key.
- Database connection handling and table creation are not modelled. The schema is the `Question` record.
- File I/O and `print` are not modelled. The CSV file is read as a sequence of row maps.
- `create_favicon.py` and the pages under `pages/` are not part of this model.
- Sampler.Draw: models the rows `ORDER BY RANDOM()` can return. How uniformly random they are is not modelled.
- Sampler.GetBalancedQuestions: `total_limit` is a natural number. A negative SQLite `LIMIT` means "no limit", and the UI only offers 20 to 100, so negative totals are left out.
- Session.ExamSession.Start: the deadline is an integer number of seconds. `time.time()` is fractional, and that fraction is not modelled.
- Timer.Reconcile: the millisecond deadline is an integer. Parsing a fractional value with `parseInt` truncates it, and that truncation is left out.
- Timer.Reconcile: when nothing is stored and the server deadline is not positive, the browser computes `NaN`. The model returns `None` there and does not model what `NaN` does to the countdown.
- Import.ImportRows: the spreadsheet reader's handling of short rows (`None` cells) and extra columns is not modelled. A row is a map from the nine known columns to text.
- Import.ImportRows: a missing option column raises an exception, so the connection rolls back and nothing is inserted. The model returns the error and no inserts. The traceback and the exit of the script are not modelled.
- Import.ImportSpecErr: the source's `KeyError` names only the missing column. The record number in the model's error is `row_num`, which counts the reader's records. A quoted cell spanning several lines makes it differ from the file line.
- In these places the code departs from the schema, from the meaning of the fields, or from the deadline. The model follows the code:
  - The correct option is meant to be one of the four options, but it is never checked against them.
  - A subject that is only whitespace passes the required-column check and is inserted, stripped to empty.
  - The import's default section "قسم عام" differs from the table's column default "عام".
  - The deadline is meant to close the attempt, but an answer saved after it still counts. The save callback runs before the page checks the deadline, so the grading includes it.

## Findings

| source | as written | input that shows it | evidently intended | confidence | as-written member | corrected member |
|---|---|---|---|---|---|---|
| app.py:320-322 | `pct = (raw_score / len(questions)) * 100` in binary64, then `pct >= pass_mark` | 100 questions, 29 right, pass mark 29: `29/100` rounds to 0.28999999999999998 and `*100` to 28.999999999999996, so the page shows "29.00 %" and a fail | a percentage equal to the pass mark passes (`score*100 >= pass_mark*count`) | high, not executed | Percent.FloatVerdictMissesPassMark | Session.ExamSession.Passed |
