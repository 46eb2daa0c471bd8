# A verified model of the agent evaluation and answer-file core

This project models, in Dafny, the core of a small question-answering agent
project:

- `evaluation.py`:
  - text normalisation (`normalize_text`);
  - extraction of the first number in a text (`extract_number`);
  - grading of a prediction against an expected answer (`grade`);
  - the scoring loop `evaluate_agent`.
- `agent/strategies.py`: what the chain-of-thought strategy `run_cot` does with the model's reply. It turns the result envelope into one answer string, taken from the first usable `FINAL ANSWER:` line, else the last non-empty line.
- `generate_answer_template.py`:
  - validation of a single answer and of the finished answer list;
  - the bookkeeping of `build_answers`: restoring answers from a checkpoint, computing the pending questions, saving checkpoint snapshots every 100 results, consuming the results, and filling missing slots with `ERROR`.

The model has four modules, one file each:

| file | module | models |
|---|---|---|
| `text_prims.dfy` | `TextPrims` | the Python string built-ins the core relies on (`strip`, `lower`, `split`/`" ".join`, `in`/`split(prefix, 1)`, `splitlines`) and two linear searches |
| `evaluation.dfy` | `Evaluation` | `evaluation.py` |
| `strategies.dfy` | `Strategies` | the post-call part of `run_cot` |
| `answer_template.dfy` | `AnswerTemplate` | `generate_answer_template.py` |

Pure code is modelled as functions and lemmas. The answer list that
`build_answers` mutates slot by slot is an `array<Option<Record>>`, updated by
methods with loop invariants:
- `RestoreCheckpoint`
- `ConsumeResults`
- `FillMissing`
- `BuildAnswers`

Each of these methods is proved against a specification function:
- `RestoredSlots`
- `Run`, built from one `Step` per pool result
- `Filled`
- `BuildSpec`

The lemmas then state what the code promises about those functions.

Two parts of the environment enter as parameters:
- The agent is a parameter: a function from question and domain to an answer.
- The thread pool's results are a sequence of `PoolEvent`s, consumed in the order they arrive:
  - `Returned(idx, answer)`, where the answer is `None` when the agent raised inside `process_single`;
  - `Crashed(idx)`, when the task itself raised.

A checkpoint file is the JSON list it held, or `None` when it is missing or unreadable.

Text follows ASCII rules:
- whitespace is Python's ASCII `isspace` set: space, `\t` to `\r`, and `\x1c` to `\x1f`;
- `\d` is `0`-`9`;
- case is `A`-`Z`/`a`-`z`;
- lines are separated by `\n`.

## Model

| member | source | states |
|---|---|---|
| TextPrims.Strip | evaluation.py:7 | the stripped text is what remains of the text after a blank head and a blank tail are cut off; it has no whitespace at either end, is empty exactly when the text is blank, and a trimmed text is its own strip |
| TextPrims.StripKeepsChars | agent/strategies.py:29 | stripping introduces no character |
| TextPrims.Lower | evaluation.py:7 | `lower()` keeps the length, changes only upper-case letters, leaves none, and keeps whitespace where it was |
| TextPrims.LowerIsLowerCase | evaluation.py:7 | `lower()` leaves no upper-case letter |
| TextPrims.LowerOfLowerCase | evaluation.py:7 | `lower()` is the identity on lower-case text |
| TextPrims.Words | evaluation.py:9 | every piece `split()` yields is a non-empty run without whitespace, and there are none exactly when the text is blank |
| TextPrims.WordsAreRuns | evaluation.py:9 | the pieces of `split()` occur in the text at increasing, non-touching positions, each with whitespace or an end of the text on both sides, and every non-whitespace character lies in one of them |
| TextPrims.JoinSpace | evaluation.py:9 | `" ".join` of no words is empty; otherwise its length is the words' total length plus one separator per gap |
| TextPrims.JoinSpaceShape | evaluation.py:9 | `" ".join` of words is trimmed, single-spaced, and empty exactly when there are no words |
| TextPrims.WordsOfJoin | evaluation.py:9 | `split()` recovers the words `" ".join` put together |
| TextPrims.WordsOfStrip | evaluation.py:7-9 | stripping does not change the words of a text |
| TextPrims.Find | agent/strategies.py:39-41 | the result is the first position where the pattern occurs, and None means it occurs nowhere |
| TextPrims.SplitLines | agent/strategies.py:34 | no line holds a line break, and a non-empty text has at least one line |
| TextPrims.SplitLinesRoundTrip | agent/strategies.py:34 | writing every line back with a `\n` gives the text, plus a final `\n` if it lacked one |
| TextPrims.SplitLinesKeepsChars | agent/strategies.py:34 | every character other than a line break lies on some line |
| TextPrims.FirstWhere | agent/strategies.py:37-44 | the first index whose element satisfies the test, or None when none does |
| TextPrims.LastWhere | agent/strategies.py:47-50 | the last index whose element satisfies the test, or None when none does |
| Evaluation.NormalizeText | evaluation.py:2-10 | the result is trimmed, single-spaced and lower-case; it is empty exactly for None or blank input; its words are the words of the lower-cased input |
| Evaluation.NormalizeIdempotent | evaluation.py:2-10 | normalising twice is normalising once |
| Evaluation.NormalizeIsJoinedWords | evaluation.py:2-10 | the normal form is the lower-cased words joined by single spaces |
| Evaluation.Search | evaluation.py:17 | `re.search` finds a match exactly when the text has a digit, and the match is the leftmost, greedy one |
| Evaluation.ExtractNumber | evaluation.py:12-19 | None exactly for None input or a text without a digit; otherwise the text of the leftmost greedy match |
| Evaluation.LeftmostGreedyIsUnique | evaluation.py:17 | at most one span meets the leftmost-greedy specification |
| Evaluation.MatchIsLiteral | evaluation.py:17 | the matched text is a full literal `[-+]?\d+(\.\d+)?` |
| Evaluation.MatchIsLongest | evaluation.py:17 | no longer literal starts where the match starts |
| Evaluation.NoEarlierLiteral | evaluation.py:17 | every literal starts where a match can start |
| Evaluation.ExtractNumberIsLeftmostLongest | evaluation.py:12-19 | against an independent grammar of literals: None exactly when no substring is a literal; otherwise the leftmost, and there the longest, literal substring |
| Evaluation.BlankHasNoNumber | evaluation.py:14-15 | a blank text gives None |
| Evaluation.ExtractNumberBySpan | evaluation.py:12-19 | a span meeting the specification is what is returned |
| Evaluation.SignedDecimalExample | evaluation.py:17 | "The total is -12.5 items" gives "-12.5" |
| Evaluation.NoDigitsExample | evaluation.py:17-19 | "no digits here" gives None |
| Evaluation.Grade | evaluation.py:22-31 | numeric: correct exactly when the expected text has a number and both extracted numbers are equal (so the prediction has a digit too); text: correct exactly when both lower-cased texts have the same words |
| Evaluation.TextGradeIsEquivalence | evaluation.py:29-31 | text grading is reflexive, symmetric and transitive |
| Evaluation.TextGradeAcceptsNormalized | evaluation.py:29-31 | the normalised expected answer is accepted |
| Evaluation.NumericGradeComparesText | evaluation.py:24-28 | numbers are compared as matched text: "5" vs "5.0" is wrong, "5" vs "x = 5" is correct |
| Evaluation.GradingKind | evaluation.py:50 | "numeric" exactly when the domain is present and contains "math", else "text" |
| Evaluation.EvaluatedCount | evaluation.py:36-38 | all items when no limit is given, else the smaller of the limit and the size, and none for a negative limit |
| Evaluation.EvaluateAgent | evaluation.py:34-62 | grades the first `EvaluatedCount` items in order; the score is the number graded correct among them, and never exceeds the total |
| Evaluation.CorrectCount | evaluation.py:56-59 | the score never exceeds the number of graded items |
| Evaluation.CorrectCountStep | evaluation.py:56-59 | one more item adds one to the score exactly when it is graded correct |
| Evaluation.CorrectCountExtremes | evaluation.py:56-59 | the score equals the number of items exactly when every item is graded correct, and is zero exactly when none is |
| Strategies.MarkerAnswer | agent/strategies.py:39-44 | an answer taken after the marker is non-empty and trimmed |
| Strategies.HasMarkerAnswer | agent/strategies.py:37-44 | a line offers a marker answer only when its stripped form contains the case-sensitive marker; a blank line never does |
| Strategies.FirstMarkerLine | agent/strategies.py:37-44 | the index of the first line offering a marker answer, with none before it; None exactly when no line offers one |
| Strategies.LastNonEmptyLine | agent/strategies.py:47-50 | the index of the last non-blank line, with only blank lines after it; None exactly when every line is blank |
| Strategies.RunCot | agent/strategies.py:24-53 | the answer is always non-empty and trimmed; a failed call, or a missing or blank reply, gives "ERROR" |
| Strategies.MarkerLineWins | agent/strategies.py:37-44 | when some line offers a non-empty answer after the marker, the first such line's answer is returned; marker lines with nothing after the marker are passed over |
| Strategies.NoMarkerGivesLastLine | agent/strategies.py:37-50 | when no line offers a marker answer (no marker, or nothing after it, as in "FINAL ANSWER:" followed by "42" on the next line), the last non-blank line, stripped, is returned |
| Strategies.NoMarkerAtAllGivesLastLine | agent/strategies.py:37-50 | in particular, with no marker on any line, the last non-blank line, stripped, is returned |
| Strategies.FallbackLine | agent/strategies.py:37-50 | when no line offers a marker answer there is no marker line, and the last non-blank line is the one the backward search finds |
| Strategies.WholeTextFallbackUnreachable | agent/strategies.py:52-53 | a successful non-blank reply always has a non-empty line, so the whole-text fallback never runs |
| Strategies.TrimmedTextHasNonEmptyLine | agent/strategies.py:34-50 | a non-empty trimmed text has a non-blank line |
| Strategies.LowerCaseLineHasNoMarker | agent/strategies.py:35-39 | the marker is case-sensitive: a line without upper-case letters (e.g. "final answer: 7") never offers a marker answer |
| Strategies.NoMarkerInLowerCase | agent/strategies.py:35-39 | a text without upper-case letters does not contain the marker |
| AnswerTemplate.ValidateSingleAnswer | generate_answer_template.py:34-68 | rejected with "Empty answer" exactly when the answer is empty or whitespace-only; every other answer is accepted with an empty reason |
| AnswerTemplate.ProcessSingle | generate_answer_template.py:124-149 | the record is `{"output": s}`, where s is "ERROR" exactly when the agent raised, answered blank, or answered "ERROR", and is otherwise the agent's answer |
| AnswerTemplate.Validate | generate_answer_template.py:206-219 | a length mismatch is reported exactly when the lengths differ, whatever the entries; otherwise the first entry without "output" or with a non-string output is reported, the missing key taking precedence; valid exactly when lengths agree and every output is a string |
| AnswerTemplate.ValidateResults | generate_answer_template.py:206-225 | the index loop returns the verdict of `Validate` and warns for exactly the long outputs before the point where it stops |
| AnswerTemplate.LongOutputs | generate_answer_template.py:220-224 | the warned indices are increasing and are exactly the entries with a string output of at least 5000 characters |
| AnswerTemplate.LongOutputNeverFails | generate_answer_template.py:220-225 | a valid list stays valid when any output is replaced by a string of any length |
| AnswerTemplate.ClassifyEntry | generate_answer_template.py:108-111 | a truthy entry that is not an object ends the restore; an object is restored exactly when its "output" is present and not "", "PENDING", "ERROR" or null |
| AnswerTemplate.RestoreEnd | generate_answer_template.py:104-114 | the restore gets exactly as far as the first entry that raises |
| AnswerTemplate.RestoreCheckpoint | generate_answer_template.py:100-114 | on the empty answer array, fills exactly the slots `RestoredSlots` describes (nothing unless the checkpoint was read and has one entry per question) and counts them |
| AnswerTemplate.CountFilledFill | generate_answer_template.py:110-111 | filling an empty slot adds one to `already_done` |
| AnswerTemplate.PendingIndices | generate_answer_template.py:117 | pending indices are unfilled slots, in strictly increasing order |
| AnswerTemplate.PendingIndicesComplete | generate_answer_template.py:117 | every unfilled slot is pending, and there are as many as questions minus filled slots |
| AnswerTemplate.Snapshot | generate_answer_template.py:153-156 | the saved list has one entry per slot: a filled slot as it is, an empty slot as a placeholder that a restore never takes for an answer |
| AnswerTemplate.CheckpointRoundTrip | generate_answer_template.py:151-158 | reading a saved snapshot back restores exactly the filled slots with a usable output; PENDING placeholders are not restored and nothing ends the restore early |
| AnswerTemplate.RestoreIdempotent | generate_answer_template.py:107-111 | saving the restored slots and restoring again gives the same slots |
| AnswerTemplate.Filled | generate_answer_template.py:197-200 | no slot is left empty; filled slots are unchanged; an empty slot records the ERROR answer |
| AnswerTemplate.FillMissing | generate_answer_template.py:196-200 | every empty slot becomes `{"output": "ERROR"}` and the other slots are unchanged |
| AnswerTemplate.RecordOf | generate_answer_template.py:174-190 | the record a result stores: the task's `process_single` record when it returned, and an ERROR record when it raised |
| AnswerTemplate.Step | generate_answer_template.py:172-191 | one result stores its own record (`RecordOf`) in its own slot and changes no other slot; it adds one to `completed` and appends at most one save of the new slots; `last_checkpoint` becomes `completed` exactly when a save is made and is otherwise kept; a crashed task never saves; a returned task saves exactly when 100 results have come in since the last save, after which the gap is below 100 |
| AnswerTemplate.Run | generate_answer_template.py:172-191 | the answer list keeps its length and each result adds one to `completed` |
| AnswerTemplate.ConsumeResults | generate_answer_template.py:172-191 | the loop's slots, counters and saved checkpoints are those of `Run` from the state after the restore |
| AnswerTemplate.RunWritesOnlyEventSlots | generate_answer_template.py:174-175 | a slot no result names keeps what it held |
| AnswerTemplate.RunFillsEventSlots | generate_answer_template.py:174-190 | every slot a result names is filled afterwards |
| AnswerTemplate.RunStoresEventRecords | generate_answer_template.py:172-191 | index-based collection: after the loop, the slot of the last result naming a question holds that result's record |
| AnswerTemplate.CheckpointGap | generate_answer_template.py:182-191 | `completed - last_checkpoint` stays below 100 plus the number of trailing crashed tasks; in particular it is below 100 after every returned task |
| AnswerTemplate.SavesEveryInterval | generate_answer_template.py:182-185 | with no crashed task, after m results there have been m / 100 saves and m % 100 results wait for the next one |
| AnswerTemplate.ReturnedStepInterval | generate_answer_template.py:174-185 | one returned task moves the count since the last save and the number of saves on as one more result moves the remainder and the quotient of the division by 100 |
| AnswerTemplate.IntervalStep | generate_answer_template.py:183-185 | one more result moves the count since the last save on by one, wrapping at 100 |
| AnswerTemplate.AllPendingAnswered | generate_answer_template.py:165-191 | when the pool returns one result per pending index in any order, every slot is filled and `completed` equals the number of questions |
| AnswerTemplate.PendingEventsDistinct | generate_answer_template.py:165-170 | with one result per pending index, each result names a different question, and only empty slots are named |
| AnswerTemplate.BuildAnswers | generate_answer_template.py:90-202 | returns the restored answers without saving when nothing is pending; otherwise runs the result loop, saves a final snapshot, and fills the gaps with ERROR, as `BuildSpec` says |
| AnswerTemplate.BuildAnswersRecords | generate_answer_template.py:90-202 | answers keep their order: with one result per pending index, a restored answer stays at its question, and every other question's answer is the record of its own result |
| AnswerTemplate.LoopAnswersRecords | generate_answer_template.py:165-200 | after the result loop and the final fill, filled slots keep their records and each result's record is at its question |
| AnswerTemplate.AnswersKeep | generate_answer_template.py:143-149 | any property of `{"output": s}` records that the restored records share holds of every returned answer |
| AnswerTemplate.BuildAnswersShape | generate_answer_template.py:196-202 | one answer per question, each with an "output" key |
| AnswerTemplate.BuildAnswersValidate | generate_answer_template.py:237-246 | when the restored records have string outputs, the returned answers pass `validate_results` |
| AnswerTemplate.RunKeepsOutputs | generate_answer_template.py:172-191 | a property of every `{"output": s}` record that holds of the filled slots before the loop holds after it |

## Left out

- File input and output, JSON parsing and printing are not modelled:
  - `load_questions`, `main`, the JSON dump and load of answers and checkpoints, the progress and warning messages, and the float percentage;
  - a checkpoint is the list it held, or None when the file is missing or cannot be parsed;
  - a saved checkpoint is appended to a list of saves.
- A checkpoint file holding something other than a list is not modelled.
- The thread pool and `as_completed` scheduling are not modelled. Results are consumed sequentially in an arbitrary order, so races between workers are not represented.
- An exception raised inside the `try` of the result loop after the slot was written (a failed checkpoint write) is not modelled. It would set the slot to ERROR and count the same result twice; it only arises from I/O.
- `CoreAgent.run`, `call_model` and the HTTP request in `agent/api_client.py` are not part of this model:
  - the agent is a parameter of `EvaluateAgent` and of the result events;
  - `run_cot` receives the call's result envelope as input.
- `setup_checkpoint.py`, `debug_dev.py` and `run_dev.py` are not part of this model: they are a one-off file rewrite and manual drivers.
- Unicode is not modelled. The model uses ASCII rules for whitespace, digits and case, and `\n` as the only line break.
- Evaluation.EvaluateAgent: the agent is a total function and every item has an input and an expected output. In the source, an exception raised by `agent.run` (evaluation.py:53), or a missing "input" or "output" key (evaluation.py:45-46), ends `evaluate_agent` before any score is printed; the model has no such error path.
- Evaluation.EvaluateAgent: returns the printed score `(num_correct, total)`; the Python function prints it and returns None.
- AnswerTemplate.ConsumeResults: the pool's results are given up front. The model does not capture that they are produced concurrently, nor that each task is submitted once per pending index; that case is what `AllPendingAnswered` assumes.
- AnswerTemplate.CheckpointGap: a crashed task skips the interval test. The bound `completed - last_checkpoint < 100` therefore holds only after a returned task; after crashes the proved bound is 100 plus the number of trailing crashes.
- AnswerTemplate.BuildAnswersValidate: a restored record whose output is not a string (a number, say) passes the restore filter and would make `validate_results` raise a TypeError. The lemma therefore assumes the restored outputs are strings, as in every checkpoint this program writes.
- The model call in `agent/api_client.py` (lines 21-24) makes one attempt and sends only the model name and the prompt: the system message, temperature and token limit it is given are dropped. Since the call is not modelled, neither is this.
