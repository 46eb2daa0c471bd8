/**
  The answer-file generator: per-answer validation, validation of the finished
  answer list, and the bookkeeping of `build_answers` over a fixed-length
  answer array (checkpoint restore, pending indices, checkpoint snapshots,
  the result loop with its save interval, and the final ERROR fill).

  Files, printing and the thread pool are not modelled: a checkpoint file is
  the JSON list it held (or None when it is missing or unreadable), a saved
  checkpoint is appended to a list of saves, and the pool's results are a
  sequence of events consumed one after another.
*/
module AnswerTemplate {
  import opened TextPrims
  import Evaluation

  /** Save a checkpoint every this many completed questions. */
  const CheckpointInterval: nat := 100

  /** Outputs at least this long draw a warning from `validate_results`. */
  const OutputLimit: nat := 5000

  /** The placeholder a checkpoint holds for a question not yet answered. */
  const PendingOutput: string := "PENDING"

  /** The output recorded for a failed or rejected answer. */
  const ErrorOutput: string := "ERROR"

  const EmptyAnswerReason: string := "Empty answer"

  // ---------------------------------------------------------------------------
  // JSON values and answer records
  // ---------------------------------------------------------------------------

  /** A JSON value as read back from a file. Numbers, booleans and lists are
      told apart only by their truthiness, which is all the code looks at. */
  datatype Json =
    | JNull
    | JString(str: string)
    | JObject(fields: map<string, Json>)
    | JOther(truthy: bool)

  /** One answer entry: a JSON object. */
  type Record = map<string, Json>

  /** Python truthiness of a JSON value. */
  predicate Truthy(v: Json)
  {
    match v
    case JNull => false
    case JString(s) => s != []
    case JObject(m) => |m| != 0
    case JOther(t) => t
  }

  /** The record `{"output": s}`. */
  function OutputRecord(s: string): Record
  {
    map["output" := JString(s)]
  }

  /** `r.get("output")`: None when the key is missing. */
  function OutputOf(r: Record): Json
  {
    if "output" in r then r["output"] else JNull
  }

  predicate HasStringOutput(r: Record)
  {
    "output" in r && r["output"].JString?
  }

  // ---------------------------------------------------------------------------
  // validate_single_answer and process_single
  // ---------------------------------------------------------------------------

  /** The `(ok, reason)` pair returned by `validate_single_answer`. */
  datatype Check = Check(ok: bool, reason: string)

  /** `clean.upper() in {"A", "B", "C", "D"}` for ASCII text. */
  predicate IsChoiceLetter(clean: string)
  {
    |clean| == 1 && clean[0] in "ABCDabcd"
  }

  /** `validate_single_answer`: an empty or whitespace-only answer is
      rejected with "Empty answer"; every other answer is accepted, whichever
      of the multiple-choice, yes/no, numeric or free-text branches it
      reaches. The question is not consulted. */
  function ValidateSingleAnswer(question: string, answer: string): (r: Check)
    ensures !r.ok <==> IsBlank(answer)
    ensures r.ok ==> r.reason == []
    ensures !r.ok ==> r.reason == EmptyAnswerReason
  {
    if answer == [] || Strip(answer) == [] then Check(false, EmptyAnswerReason)
    else
      var clean := Strip(answer);
      if IsChoiceLetter(clean) then Check(true, "")
      else if clean == "Yes" || clean == "No" then Check(true, "")
      else if Evaluation.ExtractNumber(Some(clean)).Some? then Check(true, "")
      else Check(true, "")
  }

  /** `process_single` once the agent has run: `outcome` is the agent's answer,
      or None when the agent raised. The record's output is "ERROR" exactly
      when the agent raised, its answer was blank, or its answer was itself
      "ERROR"; otherwise it is the agent's answer unchanged. */
  function ProcessSingle(question: string, outcome: Option<string>): (r: Record)
    ensures HasStringOutput(r) && r == OutputRecord(r["output"].str)
    ensures r["output"].str == ErrorOutput <==>
      outcome.None? || IsBlank(outcome.value) || outcome.value == ErrorOutput
    ensures r["output"].str != ErrorOutput ==> r["output"].str == outcome.value
  {
    match outcome
    case None => OutputRecord(ErrorOutput)
    case Some(answer) =>
      if ValidateSingleAnswer(question, answer).ok then OutputRecord(answer)
      else OutputRecord(ErrorOutput)
  }

  // ---------------------------------------------------------------------------
  // validate_results
  // ---------------------------------------------------------------------------

  /** How `validate_results` ends: normally, or with the first error it
      raises. */
  datatype Verdict =
    | Valid
    | LengthMismatch(questions: nat, answers: nat)
    | MissingOutput(index: nat)
    | NonStringOutput(index: nat)

  predicate Faulty(r: Record)
  {
    !HasStringOutput(r)
  }

  /** The verdict of `validate_results`: a length mismatch is reported before
      any entry is looked at; otherwise the first entry, in index order,
      without an "output" key or with a non-string output is reported, the
      missing key taking precedence at that entry. The length of an output
      plays no part. */
  function Validate(numQuestions: nat, answers: seq<Record>): (v: Verdict)
    ensures numQuestions != |answers| ==> v == LengthMismatch(numQuestions, |answers|)
    ensures v.LengthMismatch? <==> numQuestions != |answers|
    ensures v == Valid <==>
      numQuestions == |answers| && forall i :: 0 <= i < |answers| ==> HasStringOutput(answers[i])
    ensures v.MissingOutput? ==>
      && numQuestions == |answers|
      && v.index < |answers| && "output" !in answers[v.index]
      && forall i :: 0 <= i < v.index ==> HasStringOutput(answers[i])
    ensures v.NonStringOutput? ==>
      && numQuestions == |answers|
      && v.index < |answers| && "output" in answers[v.index]
      && !answers[v.index]["output"].JString?
      && forall i :: 0 <= i < v.index ==> HasStringOutput(answers[i])
  {
    if numQuestions != |answers| then LengthMismatch(numQuestions, |answers|)
    else
      match FirstWhere(answers, Faulty)
      case None => Valid
      case Some(i) => if "output" !in answers[i] then MissingOutput(i) else NonStringOutput(i)
  }

  predicate IsLong(r: Record)
  {
    HasStringOutput(r) && |r["output"].str| >= OutputLimit
  }

  /** The indices below n whose output is a string of at least OutputLimit
      characters, in increasing order. */
  function LongOutputs(answers: seq<Record>, n: nat): (w: seq<nat>)
    requires n <= |answers|
    ensures forall k :: 0 <= k < |w| ==> w[k] < n && IsLong(answers[w[k]])
    ensures forall i :: 0 <= i < n && IsLong(answers[i]) ==> i in w
    ensures forall k, l :: 0 <= k < l < |w| ==> w[k] < w[l]
  {
    if n == 0 then []
    else LongOutputs(answers, n - 1) + (if IsLong(answers[n - 1]) then [n - 1] else [])
  }

  /** The warnings `validate_results` prints before it stops: one per long
      output among the entries it got past. */
  function WarnedBefore(numQuestions: nat, answers: seq<Record>): seq<nat>
  {
    match Validate(numQuestions, answers)
    case Valid => LongOutputs(answers, |answers|)
    case LengthMismatch(_, _) => []
    case MissingOutput(i) => LongOutputs(answers, i)
    case NonStringOutput(i) => LongOutputs(answers, i)
  }

  /** `validate_results`: an index loop that stops at the first failure and
      warns about long outputs on the way. */
  method ValidateResults(numQuestions: nat, answers: seq<Record>) returns (v: Verdict, warned: seq<nat>)
    ensures v == Validate(numQuestions, answers)
    ensures warned == WarnedBefore(numQuestions, answers)
  {
    if numQuestions != |answers| {
      return LengthMismatch(numQuestions, |answers|), [];
    }
    warned := [];
    var idx := 0;
    while idx < |answers|
      invariant 0 <= idx <= |answers|
      invariant forall i :: 0 <= i < idx ==> HasStringOutput(answers[i])
      invariant warned == LongOutputs(answers, idx)
    {
      var answer := answers[idx];
      if "output" !in answer {
        StopsAt(numQuestions, answers, idx);
        return MissingOutput(idx), warned;
      }
      if !answer["output"].JString? {
        StopsAt(numQuestions, answers, idx);
        return NonStringOutput(idx), warned;
      }
      if |answer["output"].str| >= OutputLimit {
        warned := warned + [idx];
      }
      idx := idx + 1;
    }
    RunsThrough(numQuestions, answers);
    v := Valid;
  }

  /** The loop stops at the first faulty entry, having warned about the long
      outputs before it. */
  lemma StopsAt(numQuestions: nat, answers: seq<Record>, idx: nat)
    requires numQuestions == |answers| && idx < |answers| && Faulty(answers[idx])
    requires forall i :: 0 <= i < idx ==> HasStringOutput(answers[i])
    ensures Validate(numQuestions, answers) ==
      if "output" !in answers[idx] then MissingOutput(idx) else NonStringOutput(idx)
    ensures WarnedBefore(numQuestions, answers) == LongOutputs(answers, idx)
  {
    FirstWhereIs(answers, Faulty, idx);
  }

  /** The loop runs through a list without a faulty entry, warning about
      every long output. */
  lemma RunsThrough(numQuestions: nat, answers: seq<Record>)
    requires numQuestions == |answers|
    requires forall i :: 0 <= i < |answers| ==> HasStringOutput(answers[i])
    ensures Validate(numQuestions, answers) == Valid
    ensures WarnedBefore(numQuestions, answers) == LongOutputs(answers, |answers|)
  {
  }

  /** A long output only warns: in a valid answer list, replacing any output
      by a string of any length keeps the list valid. */
  lemma LongOutputNeverFails(numQuestions: nat, answers: seq<Record>, i: nat, s: string)
    requires Validate(numQuestions, answers) == Valid && i < |answers|
    ensures Validate(numQuestions, answers[i := answers[i]["output" := JString(s)]]) == Valid
  {
    var changed := answers[i := answers[i]["output" := JString(s)]];
    assert forall j :: 0 <= j < |changed| ==> HasStringOutput(changed[j]) by {
      forall j | 0 <= j < |changed|
        ensures HasStringOutput(changed[j])
      {
        if j != i {
          assert changed[j] == answers[j];
        }
      }
    }
  }

  // ---------------------------------------------------------------------------
  // Answer slots
  // ---------------------------------------------------------------------------

  /** The number of filled slots. */
  function CountFilled(slots: seq<Option<Record>>): (n: nat)
    ensures n <= |slots|
  {
    if slots == [] then 0
    else CountFilled(slots[..|slots| - 1]) + (if slots[|slots| - 1].Some? then 1 else 0)
  }

  /** No slot is filled in an all-empty list. */
  lemma {:induction false} CountFilledNone(slots: seq<Option<Record>>)
    requires forall i :: 0 <= i < |slots| ==> slots[i].None?
    ensures CountFilled(slots) == 0
  {
    if slots != [] {
      CountFilledNone(slots[..|slots| - 1]);
    }
  }

  /** Filling an empty slot adds one to the count. */
  lemma {:induction false} CountFilledFill(slots: seq<Option<Record>>, i: nat, r: Record)
    requires i < |slots| && slots[i].None?
    ensures CountFilled(slots[i := Some(r)]) == CountFilled(slots) + 1
  {
    var n := |slots|;
    var filled := slots[i := Some(r)];
    if i == n - 1 {
      assert filled[..n - 1] == slots[..n - 1];
    } else {
      assert filled[..n - 1] == slots[..n - 1][i := Some(r)];
      CountFilledFill(slots[..n - 1], i, r);
    }
  }

  /** The slots as records, once every slot is filled. */
  function Values(slots: seq<Option<Record>>): seq<Record>
    requires forall i :: 0 <= i < |slots| ==> slots[i].Some?
  {
    seq(|slots|, i requires 0 <= i < |slots| => slots[i].value)
  }

  // ---------------------------------------------------------------------------
  // Checkpoint restore
  // ---------------------------------------------------------------------------

  /** The output values a checkpoint entry must not have to be restored. */
  predicate Usable(output: Json)
  {
    output != JNull && output != JString("") &&
    output != JString(PendingOutput) && output != JString(ErrorOutput)
  }

  predicate Restorable(r: Record)
  {
    "output" in r && Usable(r["output"])
  }

  /** What the restore loop does with one checkpoint entry. */
  datatype Restore = Skip | Fill(record: Record) | Abort

  /** A falsy entry is skipped; a truthy entry that is not an object has no
      `get`, and the error ends the restore; an object is restored exactly
      when it has a usable output (a missing key reads as None). */
  function ClassifyEntry(e: Json): (c: Restore)
    ensures c.Abort? <==> Truthy(e) && !e.JObject?
    ensures c.Fill? <==> e.JObject? && Restorable(e.fields)
    ensures c.Fill? ==> c.record == e.fields
  {
    if !Truthy(e) then Skip
    else if !e.JObject? then Abort
    else if Usable(OutputOf(e.fields)) then Fill(e.fields)
    else Skip
  }

  /** How far the restore loop gets: the index of the first entry that ends
      it, or the whole checkpoint. */
  function RestoreEnd(cp: seq<Json>): (n: nat)
    ensures n <= |cp|
    ensures forall i :: 0 <= i < n ==> !ClassifyEntry(cp[i]).Abort?
    ensures n < |cp| ==> ClassifyEntry(cp[n]).Abort?
  {
    if cp == [] || ClassifyEntry(cp[0]).Abort? then 0
    else 1 + RestoreEnd(cp[1..])
  }

  /** Slot i after the restore: the record of entry i when the loop reached
      it and restores it. */
  function RestoredSlot(cp: seq<Json>, i: nat): Option<Record>
    requires i < |cp|
  {
    if i < RestoreEnd(cp) && ClassifyEntry(cp[i]).Fill? then Some(cp[i].fields) else None
  }

  /** The answer slots after the restore: nothing is restored unless the
      checkpoint could be read and holds exactly `total` entries. */
  function RestoredSlots(total: nat, checkpoint: Option<seq<Json>>): (slots: seq<Option<Record>>)
    ensures |slots| == total
  {
    if checkpoint.None? || |checkpoint.value| != total then seq(total, _ => None)
    else seq(total, i requires 0 <= i < total => RestoredSlot(checkpoint.value, i))
  }

  /** The restore step of `build_answers` on the freshly emptied answer array:
      it fills the slots RestoredSlots describes and counts them. */
  method RestoreCheckpoint(answers: array<Option<Record>>, checkpoint: Option<seq<Json>>)
    returns (alreadyDone: nat)
    requires forall i :: 0 <= i < answers.Length ==> answers[i].None?
    modifies answers
    ensures answers[..] == RestoredSlots(answers.Length, checkpoint)
    ensures alreadyDone == CountFilled(answers[..])
  {
    CountFilledNone(answers[..]);
    alreadyDone := 0;
    if checkpoint.None? || |checkpoint.value| != answers.Length {
      assert answers[..] == RestoredSlots(answers.Length, checkpoint);
      return;
    }
    var cp := checkpoint.value;
    var i := 0;
    while i < |cp|
      invariant i <= RestoreEnd(cp)
      invariant forall j :: 0 <= j < answers.Length ==>
        answers[j] == if j < i then RestoredSlot(cp, j) else None
      invariant alreadyDone == CountFilled(answers[..])
    {
      var c := ClassifyEntry(cp[i]);
      if c.Abort? {
        break;
      }
      if c.Fill? {
        CountFilledFill(answers[..], i, c.record);
        answers[i] := Some(c.record);
        alreadyDone := alreadyDone + 1;
      }
      i := i + 1;
    }
    assert answers[..] == RestoredSlots(answers.Length, checkpoint);
  }

  // ---------------------------------------------------------------------------
  // Pending indices, snapshots and the final fill
  // ---------------------------------------------------------------------------

  /** `pending_indices`: unfilled slots, in increasing order. */
  function PendingIndices(slots: seq<Option<Record>>): (p: seq<nat>)
    ensures forall k :: 0 <= k < |p| ==> p[k] < |slots| && slots[p[k]].None?
    ensures forall k, l :: 0 <= k < l < |p| ==> p[k] < p[l]
  {
    if slots == [] then []
    else
      var n := |slots| - 1;
      var q := PendingIndices(slots[..n]);
      assert forall k :: 0 <= k < |q| ==> slots[..n][q[k]] == slots[q[k]];
      if slots[n].None? then q + [n] else q
  }

  /** The pending indices are all the unfilled slots: every unfilled slot is
      pending, and there are as many as the slots minus the filled ones. */
  lemma {:induction false} PendingIndicesComplete(slots: seq<Option<Record>>)
    ensures forall i :: 0 <= i < |slots| && slots[i].None? ==> i in PendingIndices(slots)
    ensures |PendingIndices(slots)| == |slots| - CountFilled(slots)
  {
    if slots != [] {
      var n := |slots| - 1;
      PendingIndicesComplete(slots[..n]);
      assert forall i :: 0 <= i < n ==> slots[..n][i] == slots[i];
    }
  }

  /** The list `save_checkpoint` writes: each filled slot as it is, each empty
      slot as a placeholder that a later restore never takes for an answer. */
  function Snapshot(slots: seq<Option<Record>>): (r: seq<Record>)
    ensures |r| == |slots|
    ensures forall i :: 0 <= i < |slots| && slots[i].Some? ==> r[i] == slots[i].value
    ensures forall i :: 0 <= i < |slots| && slots[i].None? ==> !Restorable(r[i])
  {
    seq(|slots|, i requires 0 <= i < |slots| =>
      if slots[i].Some? then slots[i].value else OutputRecord(PendingOutput))
  }

  /** A written list read back as JSON: a list of objects. */
  function AsJson(records: seq<Record>): seq<Json>
  {
    seq(|records|, i requires 0 <= i < |records| => JObject(records[i]))
  }

  /** The final fill: no slot is left empty, a filled slot is kept as it
      is, and an empty one records the ERROR answer. */
  function Filled(slots: seq<Option<Record>>): (r: seq<Option<Record>>)
    ensures |r| == |slots|
    ensures forall i :: 0 <= i < |r| ==> r[i].Some?
    ensures forall i :: 0 <= i < |slots| && slots[i].Some? ==> r[i] == slots[i]
    ensures forall i :: 0 <= i < |slots| && slots[i].None? ==>
      HasStringOutput(r[i].value) && r[i].value["output"].str == ErrorOutput
  {
    seq(|slots|, i requires 0 <= i < |slots| =>
      if slots[i].None? then Some(OutputRecord(ErrorOutput)) else slots[i])
  }

  /** Reading back a saved checkpoint restores exactly the filled slots whose
      output is usable: PENDING placeholders, and answers recorded as ERROR or
      as the empty string, are run again; nothing ends the restore early. */
  lemma CheckpointRoundTrip(slots: seq<Option<Record>>)
    ensures RestoredSlots(|slots|, Some(AsJson(Snapshot(slots)))) ==
      seq(|slots|, i requires 0 <= i < |slots| =>
        if slots[i].Some? && Restorable(slots[i].value) then slots[i] else None)
  {
    var cp := AsJson(Snapshot(slots));
    assert forall i :: 0 <= i < |cp| ==> cp[i].JObject?;
    assert RestoreEnd(cp) == |cp|;
  }

  /** Restoring is idempotent: saving the restored slots and restoring again
      gives the same slots. */
  lemma RestoreIdempotent(total: nat, checkpoint: Option<seq<Json>>)
    ensures var restored := RestoredSlots(total, checkpoint);
      RestoredSlots(total, Some(AsJson(Snapshot(restored)))) == restored
  {
    var restored := RestoredSlots(total, checkpoint);
    CheckpointRoundTrip(restored);
  }

  /** The final fill leaves no slot empty and changes no filled slot. */
  method FillMissing(answers: array<Option<Record>>)
    modifies answers
    ensures answers[..] == Filled(old(answers[..]))
  {
    for i := 0 to answers.Length
      invariant forall j :: 0 <= j < answers.Length ==>
        answers[j] == if j < i then Filled(old(answers[..]))[j] else old(answers[j])
    {
      if answers[i].None? {
        answers[i] := Some(OutputRecord(ErrorOutput));
      }
    }
  }

  // ---------------------------------------------------------------------------
  // The result loop
  // ---------------------------------------------------------------------------

  /** One result taken from the pool: the task for `idx` returned, carrying the
      agent's answer (None when the agent raised inside `process_single`), or
      the task itself raised. */
  datatype PoolEvent =
    | Returned(idx: nat, outcome: Option<string>)
    | Crashed(idx: nat)

  predicate EventsInRange(events: seq<PoolEvent>, total: nat)
  {
    forall k :: 0 <= k < |events| ==> events[k].idx < total
  }

  /** The state of the result loop: the answer slots, the counters
      `completed` and `last_checkpoint`, and the checkpoints saved so far. */
  datatype Progress = Progress(
    slots: seq<Option<Record>>,
    completed: nat,
    lastCheckpoint: nat,
    saves: seq<seq<Record>>)

  /** The record a result puts in its question's slot: the task's
      `process_single` record, or ERROR when the task itself raised. */
  function RecordOf(questions: seq<string>, e: PoolEvent): (r: Record)
    requires e.idx < |questions|
    ensures HasStringOutput(r)
    ensures e.Crashed? ==> r["output"].str == ErrorOutput
    ensures e.Returned? ==> r == ProcessSingle(questions[e.idx], e.outcome)
  {
    match e
    case Returned(idx, outcome) => ProcessSingle(questions[idx], outcome)
    case Crashed(_) => OutputRecord(ErrorOutput)
  }

  /** One iteration of the result loop. A returned task stores its record and
      saves a checkpoint once CheckpointInterval results have come in since
      the last save; a crashed task stores ERROR and skips the interval test. */
  function Step(questions: seq<string>, p: Progress, e: PoolEvent): (q: Progress)
    requires |p.slots| == |questions| && e.idx < |questions|
    ensures |q.slots| == |p.slots| && q.completed == p.completed + 1
    ensures q.slots[e.idx] == Some(RecordOf(questions, e))
    ensures forall j :: 0 <= j < |p.slots| && j != e.idx ==> q.slots[j] == p.slots[j]
    ensures q.saves == p.saves || q.saves == p.saves + [Snapshot(q.slots)]
    ensures e.Crashed? ==> q.saves == p.saves
    ensures q.lastCheckpoint == if q.saves != p.saves then q.completed else p.lastCheckpoint
    ensures e.Returned? ==>
      (q.saves != p.saves <==> p.completed + 1 >= p.lastCheckpoint + CheckpointInterval)
    ensures e.Returned? && p.lastCheckpoint <= p.completed ==>
      q.lastCheckpoint <= q.completed < q.lastCheckpoint + CheckpointInterval
  {
    match e
    case Returned(idx, outcome) =>
      var slots := p.slots[idx := Some(ProcessSingle(questions[idx], outcome))];
      var completed := p.completed + 1;
      if completed - p.lastCheckpoint >= CheckpointInterval then
        Progress(slots, completed, completed, p.saves + [Snapshot(slots)])
      else
        Progress(slots, completed, p.lastCheckpoint, p.saves)
    case Crashed(idx) =>
      Progress(p.slots[idx := Some(OutputRecord(ErrorOutput))], p.completed + 1, p.lastCheckpoint, p.saves)
  }

  /** The result loop over a sequence of events. */
  function Run(questions: seq<string>, p: Progress, events: seq<PoolEvent>): (q: Progress)
    requires |p.slots| == |questions| && EventsInRange(events, |questions|)
    ensures |q.slots| == |questions|
    ensures q.completed == p.completed + |events|
    decreases |events|
  {
    if events == [] then p
    else
      var n := |events| - 1;
      assert EventsInRange(events[..n], |questions|) by {
        assert forall k :: 0 <= k < n ==> events[..n][k] == events[k];
      }
      Step(questions, Run(questions, p, events[..n]), events[n])
  }

  /** The `as_completed` loop of `build_answers`, consuming the pool's results
      in the order they arrive. */
  method ConsumeResults(questions: seq<string>, answers: array<Option<Record>>,
                        events: seq<PoolEvent>, alreadyDone: nat)
    returns (completed: nat, lastCheckpoint: nat, saves: seq<seq<Record>>)
    requires answers.Length == |questions| && EventsInRange(events, |questions|)
    modifies answers
    ensures Progress(answers[..], completed, lastCheckpoint, saves) ==
      Run(questions, Progress(old(answers[..]), alreadyDone, alreadyDone, []), events)
  {
    ghost var start := Progress(answers[..], alreadyDone, alreadyDone, []);
    completed, lastCheckpoint, saves := alreadyDone, alreadyDone, [];
    for k := 0 to |events|
      invariant EventsInRange(events[..k], |questions|)
      invariant Progress(answers[..], completed, lastCheckpoint, saves) == Run(questions, start, events[..k])
    {
      assert events[..k + 1][..k] == events[..k];
      match events[k]
      case Returned(idx, outcome) =>
        answers[idx] := Some(ProcessSingle(questions[idx], outcome));
        completed := completed + 1;
        if completed - lastCheckpoint >= CheckpointInterval {
          saves := saves + [Snapshot(answers[..])];
          lastCheckpoint := completed;
        }
      case Crashed(idx) =>
        answers[idx] := Some(OutputRecord(ErrorOutput));
        completed := completed + 1;
    }
    assert events[..|events|] == events;
  }

  /** The number of crashed tasks at the end of the event sequence. */
  function TrailingCrashes(events: seq<PoolEvent>): (n: nat)
    ensures n <= |events|
  {
    if events == [] || events[|events| - 1].Returned? then 0
    else TrailingCrashes(events[..|events| - 1]) + 1
  }

  /** Each event writes only its own slot: a slot no event names keeps what
      it held. */
  lemma {:induction false} RunWritesOnlyEventSlots(questions: seq<string>, p: Progress,
                                                   events: seq<PoolEvent>, j: nat)
    requires |p.slots| == |questions| && EventsInRange(events, |questions|)
    requires j < |questions| && forall k :: 0 <= k < |events| ==> events[k].idx != j
    ensures Run(questions, p, events).slots[j] == p.slots[j]
  {
    if events != [] {
      var n := |events| - 1;
      assert forall k :: 0 <= k < n ==> events[..n][k] == events[k];
      RunWritesOnlyEventSlots(questions, p, events[..n], j);
    }
  }

  /** Every slot an event names is filled afterwards. */
  lemma {:induction false} RunFillsEventSlots(questions: seq<string>, p: Progress,
                                              events: seq<PoolEvent>, k: nat)
    requires |p.slots| == |questions| && EventsInRange(events, |questions|)
    requires k < |events|
    ensures Run(questions, p, events).slots[events[k].idx].Some?
  {
    var n := |events| - 1;
    if k < n {
      assert events[..n][k] == events[k];
      RunFillsEventSlots(questions, p, events[..n], k);
    }
  }

  /** Index-based collection: the slot of the last result naming a question
      holds that result's record, whatever came before it and after it. */
  lemma {:induction false} RunStoresEventRecords(questions: seq<string>, p: Progress,
                                                 events: seq<PoolEvent>, k: nat)
    requires |p.slots| == |questions| && EventsInRange(events, |questions|)
    requires k < |events| && forall l :: k < l < |events| ==> events[l].idx != events[k].idx
    ensures Run(questions, p, events).slots[events[k].idx] == Some(RecordOf(questions, events[k]))
  {
    var n := |events| - 1;
    if k < n {
      assert forall l :: 0 <= l < n ==> events[..n][l] == events[l];
      RunStoresEventRecords(questions, p, events[..n], k);
    }
  }

  /** The save interval: starting just after a save, `completed` runs ahead
      of `last_checkpoint` by less than CheckpointInterval plus the number of
      trailing crashed tasks, since a crash skips the interval test; in
      particular the gap is below CheckpointInterval after every returned
      task. */
  lemma {:induction false} CheckpointGap(questions: seq<string>, p: Progress, events: seq<PoolEvent>)
    requires |p.slots| == |questions| && EventsInRange(events, |questions|)
    requires p.lastCheckpoint == p.completed
    ensures var q := Run(questions, p, events);
      && q.lastCheckpoint <= q.completed
      && q.completed < q.lastCheckpoint + CheckpointInterval + TrailingCrashes(events)
    ensures TrailingCrashes(events) == 0 ==>
      Run(questions, p, events).completed - Run(questions, p, events).lastCheckpoint < CheckpointInterval
  {
    if events != [] {
      var n := |events| - 1;
      assert forall k :: 0 <= k < n ==> events[..n][k] == events[k];
      CheckpointGap(questions, p, events[..n]);
    }
  }

  /** Without crashed tasks a checkpoint is saved after every
      CheckpointInterval results: after m results there have been
      m / CheckpointInterval saves, and m % CheckpointInterval results wait
      for the next one. */
  lemma {:induction false} SavesEveryInterval(questions: seq<string>, p: Progress, events: seq<PoolEvent>)
    requires |p.slots| == |questions| && EventsInRange(events, |questions|)
    requires p.lastCheckpoint == p.completed
    requires forall k :: 0 <= k < |events| ==> events[k].Returned?
    ensures var q := Run(questions, p, events);
      && q.completed - q.lastCheckpoint == |events| % CheckpointInterval
      && |q.saves| == |p.saves| + |events| / CheckpointInterval
  {
    if events != [] {
      var n := |events| - 1;
      assert forall k :: 0 <= k < n ==> events[..n][k] == events[k];
      SavesEveryInterval(questions, p, events[..n]);
      var before := Run(questions, p, events[..n]);
      assert Run(questions, p, events) == Step(questions, before, events[n]);
      ReturnedStepInterval(questions, before, events[n], n);
    }
  }

  /** One returned task after n results moves the count since the last save
      and the number of saves on as `n + 1` moves the remainder and the
      quotient. */
  lemma ReturnedStepInterval(questions: seq<string>, p: Progress, e: PoolEvent, n: nat)
    requires |p.slots| == |questions| && e.idx < |questions| && e.Returned?
    requires p.lastCheckpoint <= p.completed
    requires p.completed - p.lastCheckpoint == n % CheckpointInterval
    ensures var q := Step(questions, p, e);
      && q.completed - q.lastCheckpoint == (n + 1) % CheckpointInterval
      && |q.saves| == |p.saves| + (n + 1) / CheckpointInterval - n / CheckpointInterval
  {
    var q := Step(questions, p, e);
    IntervalStep(n);
    if n % CheckpointInterval + 1 >= CheckpointInterval {
      assert q.saves != p.saves;
    } else {
      assert q.saves == p.saves;
    }
  }

  /** Counting one more result moves the remainder on by one, wrapping to 0
      and adding one to the quotient when a full interval is reached. */
  lemma IntervalStep(n: nat)
    ensures n % CheckpointInterval + 1 >= CheckpointInterval ==>
      (n + 1) % CheckpointInterval == 0 && (n + 1) / CheckpointInterval == n / CheckpointInterval + 1
    ensures n % CheckpointInterval + 1 < CheckpointInterval ==>
      (n + 1) % CheckpointInterval == n % CheckpointInterval + 1 &&
      (n + 1) / CheckpointInterval == n / CheckpointInterval
  {
    var q, r := n / CheckpointInterval, n % CheckpointInterval;
    assert n == CheckpointInterval * q + r;
    if r + 1 >= CheckpointInterval {
      assert n + 1 == CheckpointInterval * (q + 1);
    } else {
      assert n + 1 == CheckpointInterval * q + (r + 1);
    }
  }

  /** The indices the events name, in order. */
  function EventIndices(events: seq<PoolEvent>): seq<nat>
  {
    seq(|events|, k requires 0 <= k < |events| => events[k].idx)
  }

  /** When the pool hands back one result per pending index, in any order,
      every slot is filled and `completed` reaches the number of questions. */
  lemma AllPendingAnswered(questions: seq<string>, p: Progress, events: seq<PoolEvent>)
    requires |p.slots| == |questions| && p.completed == CountFilled(p.slots)
    requires multiset(EventIndices(events)) == multiset(PendingIndices(p.slots))
    ensures EventsInRange(events, |questions|)
    ensures var q := Run(questions, p, events);
      && (forall i :: 0 <= i < |q.slots| ==> q.slots[i].Some?)
      && q.completed == |questions|
  {
    var pending := PendingIndices(p.slots);
    PendingIndicesComplete(p.slots);
    assert |events| == |EventIndices(events)| == |multiset(EventIndices(events))|;
    assert |events| == |pending| by {
      assert |multiset(pending)| == |pending|;
    }
    forall k | 0 <= k < |events|
      ensures events[k].idx < |questions|
    {
      assert EventIndices(events)[k] in multiset(EventIndices(events));
    }
    var q := Run(questions, p, events);
    forall i | 0 <= i < |q.slots|
      ensures q.slots[i].Some?
    {
      if p.slots[i].None? {
        assert i in multiset(EventIndices(events));
        var k :| 0 <= k < |events| && EventIndices(events)[k] == i;
        RunFillsEventSlots(questions, p, events, k);
      } else if k :| 0 <= k < |events| && events[k].idx == i {
        RunFillsEventSlots(questions, p, events, k);
      } else {
        RunWritesOnlyEventSlots(questions, p, events, i);
      }
    }
  }

  /** A value occurs at most once in a strictly increasing sequence. */
  lemma {:induction false} IncreasingHoldsOnce(xs: seq<nat>, x: nat)
    requires forall a, b :: 0 <= a < b < |xs| ==> xs[a] < xs[b]
    ensures multiset(xs)[x] <= 1
    decreases |xs|
  {
    if xs != [] {
      var rest := xs[1..];
      assert xs == [xs[0]] + rest;
      IncreasingHoldsOnce(rest, x);
      if xs[0] == x {
        assert forall a :: 0 <= a < |rest| ==> rest[a] == xs[a + 1];
        assert x !in rest;
      }
    }
  }

  /** A value at two positions occurs at least twice. */
  lemma RepeatCountsTwice(xs: seq<nat>, k: nat, l: nat)
    requires k < l < |xs| && xs[k] == xs[l]
    ensures multiset(xs)[xs[k]] >= 2
  {
    assert xs == xs[..l] + xs[l..];
    assert xs[..l][k] == xs[k];
    assert xs[l..][0] == xs[l];
  }

  /** One result per pending index means each question is named by at most
      one result, and only pending questions are. */
  lemma PendingEventsDistinct(slots: seq<Option<Record>>, events: seq<PoolEvent>)
    requires multiset(EventIndices(events)) == multiset(PendingIndices(slots))
    ensures forall k :: 0 <= k < |events| ==> events[k].idx < |slots| && slots[events[k].idx].None?
    ensures forall k, l :: 0 <= k < l < |events| ==> events[k].idx != events[l].idx
  {
    var ids, pending := EventIndices(events), PendingIndices(slots);
    forall k | 0 <= k < |events|
      ensures events[k].idx < |slots| && slots[events[k].idx].None?
    {
      assert ids[k] in multiset(ids);
      var j :| 0 <= j < |pending| && pending[j] == ids[k];
    }
    forall k, l | 0 <= k < l < |events|
      ensures events[k].idx != events[l].idx
    {
      if ids[k] == ids[l] {
        RepeatCountsTwice(ids, k, l);
        IncreasingHoldsOnce(pending, ids[k]);
        assert false;
      }
    }
  }

  // ---------------------------------------------------------------------------
  // build_answers
  // ---------------------------------------------------------------------------

  /** What `build_answers` returns, and the checkpoints it saves on the way. */
  datatype Build = Build(answers: seq<Record>, saves: seq<seq<Record>>)

  /** `build_answers` as a function of the questions, the checkpoint read at
      start and the pool's results: nothing pending returns the restored
      answers without saving; otherwise the result loop runs, a final
      checkpoint is saved, and empty slots are filled with ERROR. */
  function BuildSpec(questions: seq<string>, checkpoint: Option<seq<Json>>, events: seq<PoolEvent>): Build
    requires EventsInRange(events, |questions|)
  {
    var restored := RestoredSlots(|questions|, checkpoint);
    PendingIndicesComplete(restored);
    if PendingIndices(restored) == [] then Build(Values(restored), [])
    else
      var done := CountFilled(restored);
      var q := Run(questions, Progress(restored, done, done, []), events);
      Build(Values(Filled(q.slots)), q.saves + [Snapshot(q.slots)])
  }

  /** `build_answers`, with the answer list as a fixed-length array updated
      in place. */
  method BuildAnswers(questions: seq<string>, checkpoint: Option<seq<Json>>, events: seq<PoolEvent>)
    returns (answers: seq<Record>, saves: seq<seq<Record>>)
    requires EventsInRange(events, |questions|)
    ensures Build(answers, saves) == BuildSpec(questions, checkpoint, events)
  {
    var slots := new Option<Record>[|questions|](_ => None);
    var alreadyDone := RestoreCheckpoint(slots, checkpoint);
    var pending := PendingIndices(slots[..]);
    PendingIndicesComplete(slots[..]);
    if pending == [] {
      return Values(slots[..]), [];
    }
    var completed, lastCheckpoint;
    completed, lastCheckpoint, saves := ConsumeResults(questions, slots, events, alreadyDone);
    saves := saves + [Snapshot(slots[..])];
    FillMissing(slots);
    answers := Values(slots[..]);
  }

  /** Every filled slot's record satisfies P. */
  predicate SlotsSatisfy(slots: seq<Option<Record>>, P: Record -> bool)
  {
    forall i :: 0 <= i < |slots| && slots[i].Some? ==> P(slots[i].value)
  }

  /** A property of records that every record `process_single` makes, the
      ERROR record and every restored record have holds of every answer
      `build_answers` returns. */
  lemma AnswersKeep(questions: seq<string>, checkpoint: Option<seq<Json>>, events: seq<PoolEvent>,
                    P: Record -> bool)
    requires EventsInRange(events, |questions|)
    requires forall s :: P(OutputRecord(s))
    requires SlotsSatisfy(RestoredSlots(|questions|, checkpoint), P)
    ensures var b := BuildSpec(questions, checkpoint, events);
      |b.answers| == |questions| && forall i :: 0 <= i < |b.answers| ==> P(b.answers[i])
  {
    var restored := RestoredSlots(|questions|, checkpoint);
    var done := CountFilled(restored);
    PendingIndicesComplete(restored);
    if PendingIndices(restored) != [] {
      var start := Progress(restored, done, done, []);
      RunKeepsOutputs(questions, start, events, P);
      FilledSatisfies(Run(questions, start, events).slots, P);
    }
  }

  /** After the final fill every slot is filled, and a property of the ERROR
      record and of the filled slots holds of every slot. */
  lemma FilledSatisfies(slots: seq<Option<Record>>, P: Record -> bool)
    requires forall s :: P(OutputRecord(s))
    requires SlotsSatisfy(slots, P)
    ensures var f := Filled(slots);
      |f| == |slots| && (forall i :: 0 <= i < |f| ==> f[i].Some?) && SlotsSatisfy(f, P)
  {
    assert P(OutputRecord(ErrorOutput));
  }

  /** One answer per question, each with an "output" key. */
  lemma BuildAnswersShape(questions: seq<string>, checkpoint: Option<seq<Json>>, events: seq<PoolEvent>)
    requires EventsInRange(events, |questions|)
    ensures var b := BuildSpec(questions, checkpoint, events);
      |b.answers| == |questions| && forall i :: 0 <= i < |b.answers| ==> "output" in b.answers[i]
  {
    AnswersKeep(questions, checkpoint, events, OutputIsKey);
  }

  predicate OutputIsKey(r: Record)
  {
    "output" in r
  }

  /** Every checkpoint entry that would be restored has a string output, as in
      every checkpoint this program saves. */
  predicate StringCheckpoint(checkpoint: Option<seq<Json>>)
  {
    checkpoint.Some? ==>
      forall i :: 0 <= i < |checkpoint.value| && ClassifyEntry(checkpoint.value[i]).Fill? ==>
        HasStringOutput(checkpoint.value[i].fields)
  }

  /** The answers `build_answers` returns pass `validate_results` whenever the
      restored records have string outputs. */
  lemma BuildAnswersValidate(questions: seq<string>, checkpoint: Option<seq<Json>>, events: seq<PoolEvent>)
    requires EventsInRange(events, |questions|) && StringCheckpoint(checkpoint)
    ensures Validate(|questions|, BuildSpec(questions, checkpoint, events).answers) == Valid
  {
    AnswersKeep(questions, checkpoint, events, HasStringOutput);
  }

  /** Answers keep their order: when the pool hands back one result per
      pending index, a restored answer stays at its question, and every other
      question's answer is the record of its own result. */
  lemma BuildAnswersRecords(questions: seq<string>, checkpoint: Option<seq<Json>>, events: seq<PoolEvent>)
    requires multiset(EventIndices(events)) == multiset(PendingIndices(RestoredSlots(|questions|, checkpoint)))
    ensures EventsInRange(events, |questions|)
    ensures var restored := RestoredSlots(|questions|, checkpoint);
      var b := BuildSpec(questions, checkpoint, events);
      && |b.answers| == |questions|
      && (forall i :: 0 <= i < |questions| && restored[i].Some? ==> b.answers[i] == restored[i].value)
      && (forall k :: 0 <= k < |events| ==> b.answers[events[k].idx] == RecordOf(questions, events[k]))
  {
    var restored := RestoredSlots(|questions|, checkpoint);
    LoopAnswersRecords(questions, restored, events);
    if PendingIndices(restored) == [] {
      assert |EventIndices(events)| == 0;
    }
  }

  /** The answers after the result loop and the final fill, for results that
      name each pending index once: filled slots keep their records, and each
      result's record is at its question. */
  lemma LoopAnswersRecords(questions: seq<string>, restored: seq<Option<Record>>, events: seq<PoolEvent>)
    requires |restored| == |questions|
    requires multiset(EventIndices(events)) == multiset(PendingIndices(restored))
    ensures EventsInRange(events, |questions|)
    ensures var done := CountFilled(restored);
      var answers := Values(Filled(Run(questions, Progress(restored, done, done, []), events).slots));
      && |answers| == |questions|
      && (forall i :: 0 <= i < |questions| && restored[i].Some? ==> answers[i] == restored[i].value)
      && (forall k :: 0 <= k < |events| ==> answers[events[k].idx] == RecordOf(questions, events[k]))
  {
    PendingEventsDistinct(restored, events);
    var done := CountFilled(restored);
    var start := Progress(restored, done, done, []);
    RunRecords(questions, start, events);
    FinalAnswers(Run(questions, start, events).slots);
  }

  /** The result loop over results that name distinct, empty slots keeps every
      filled slot and stores each result's record in its slot. */
  lemma RunRecords(questions: seq<string>, p: Progress, events: seq<PoolEvent>)
    requires |p.slots| == |questions| && EventsInRange(events, |questions|)
    requires forall k :: 0 <= k < |events| ==> p.slots[events[k].idx].None?
    requires forall k, l :: 0 <= k < l < |events| ==> events[k].idx != events[l].idx
    ensures var slots := Run(questions, p, events).slots;
      && (forall i :: 0 <= i < |slots| && p.slots[i].Some? ==> slots[i] == p.slots[i])
      && (forall k :: 0 <= k < |events| ==> slots[events[k].idx] == Some(RecordOf(questions, events[k])))
  {
    forall i | 0 <= i < |questions| && p.slots[i].Some?
      ensures Run(questions, p, events).slots[i] == p.slots[i]
    {
      RunWritesOnlyEventSlots(questions, p, events, i);
    }
    forall k | 0 <= k < |events|
      ensures Run(questions, p, events).slots[events[k].idx] == Some(RecordOf(questions, events[k]))
    {
      RunStoresEventRecords(questions, p, events, k);
    }
  }

  /** The returned answers are the filled slots' records, and ERROR for a
      slot left empty. */
  lemma FinalAnswers(slots: seq<Option<Record>>)
    ensures var answers := Values(Filled(slots));
      && |answers| == |slots|
      && (forall i :: 0 <= i < |slots| && slots[i].Some? ==> answers[i] == slots[i].value)
      && (forall i :: 0 <= i < |slots| && slots[i].None? ==> answers[i] == OutputRecord(ErrorOutput))
  {
  }

  /** A property of records that the records `process_single` makes and the
      ERROR record have is kept by the result loop: it holds of every filled
      slot afterwards if it held of every filled slot before. */
  lemma {:induction false} RunKeepsOutputs(questions: seq<string>, p: Progress, events: seq<PoolEvent>,
                                           P: Record -> bool)
    requires |p.slots| == |questions| && EventsInRange(events, |questions|)
    requires forall s :: P(OutputRecord(s))
    requires SlotsSatisfy(p.slots, P)
    ensures SlotsSatisfy(Run(questions, p, events).slots, P)
  {
    if events != [] {
      var n := |events| - 1;
      assert forall k :: 0 <= k < n ==> events[..n][k] == events[k];
      RunKeepsOutputs(questions, p, events[..n], P);
      StepKeepsOutputs(questions, Run(questions, p, events[..n]), events[n], P);
    }
  }

  /** One iteration of the result loop keeps a property that every
      `{"output": s}` record has. */
  lemma StepKeepsOutputs(questions: seq<string>, p: Progress, e: PoolEvent, P: Record -> bool)
    requires |p.slots| == |questions| && e.idx < |questions|
    requires forall s :: P(OutputRecord(s))
    requires SlotsSatisfy(p.slots, P)
    ensures SlotsSatisfy(Step(questions, p, e).slots, P)
  {
    var r := if e.Returned? then ProcessSingle(questions[e.idx], e.outcome) else OutputRecord(ErrorOutput);
    assert r == OutputRecord(r["output"].str);
    assert P(r);
    assert Step(questions, p, e).slots == p.slots[e.idx := Some(r)];
  }
}
