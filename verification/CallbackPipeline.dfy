/**
 * The ONLYOFFICE save pipeline: record the callback, fetch the output, write,
 * finalise and commit the revision (adapters/onlyoffice/src/routes.rs,
 * AdapterService::callback; runtime.rs, record_callback and
 * commit_callback_output).
 *
 * Requests are served concurrently and share one context cache, so the model is
 * a state machine over attempts whose effects interleave in any order.  Every
 * remote reply is an input, including failures.
 */
module CallbackPipeline {
  import opened Prelude
  import opened CallbackEvents
  import opened CallbackContexts

  // ---- Receipts ---------------------------------------------------------------------

  datatype Idempotency = New | Pending | Duplicate

  /** Core's errors, and the one of an output that was not fetched or not acceptable. */
  datatype CoreError = Unavailable | Denied | Gone | Invalid | BadOutput

  datatype ReceiptState =
    | Received | Staging | Staged
    | CommittedState | CheckpointState | NoOpState | ConflictState
    | RejectedState | FailedState | UnspecifiedState | UnknownState

  datatype Receipt = Receipt(eventId: Text, state: ReceiptState, revisionId: Revision)

  /** Core has already settled the callback. */
  predicate Terminal(state: ReceiptState) {
    state in {CommittedState, CheckpointState, NoOpState, ConflictState}
  }

  function ReceiptIdempotency(state: ReceiptState): Result<Idempotency, CoreError> {
    if state in {Received, Staging, Staged} then Ok(New)
    else if Terminal(state) then Ok(Duplicate)
    else if state.RejectedState? then Err(Invalid)
    else Err(Unavailable)
  }

  function ReceiptForEvent(receipt: Receipt, outputRequired: bool): Result<Idempotency, CoreError> {
    if receipt.eventId == [] then Err(Invalid)
    else
      var idempotency := ReceiptIdempotency(receipt.state);
      if idempotency.Ok? && !idempotency.value.Duplicate? && outputRequired && receipt.revisionId == []
      then Err(Invalid)
      else idempotency
  }

  datatype RevisionKind = NoRevision | CheckpointRevision | UserSaveRevision | FinalSaveRevision

  function RevisionKindOf(e: Event): RevisionKind {
    if !RequiresOutput(e) then NoRevision
    else if e.status.ForceSave? then
      if e.saveType == Some(Timer) then CheckpointRevision else UserSaveRevision
    else FinalSaveRevision
  }

  /** A timer save is finalised but never committed as the document head. */
  predicate IsCheckpoint(e: Event) { RevisionKindOf(e).CheckpointRevision? }

  // ---- Attempts ------------------------------------------------------------------------

  /** What an attempt has asked of Core, the gateway and the file service, and whether it went well. */
  datatype Effect =
    | Recorded(ok: bool)
    | Fetched(ok: bool)
    | Begun(revision: Revision, ok: bool)
    | Written(revision: Revision, ok: bool)
    | Finalized(revision: Revision, ok: bool)
    | Committed(revision: Revision, ok: bool)

  datatype Phase =
    | Recording
    | Fetching
    | LookingUp
    | Beginning(revision: Revision)
    | Writing(revision: Revision)
    | Finalizing(revision: Revision)
    | Committing(revision: Revision)
    | Done(outcome: Result<Idempotency, CoreError>)

  datatype Attempt = Attempt(event: Event, fingerprint: Fingerprint, phase: Phase, trace: seq<Effect>)

  datatype Admission = Admission(revisionId: Revision, complete: bool)  // complete: both capabilities present

  datatype CommitState = CommitCommitted | CommitNoOp | CommitConflict | CommitOther

  datatype State = State(cache: seq<Binding>, attempts: map<nat, Attempt>)

  const START: State := State([], map[])

  /** The parts outside the adapter: the digest, the URL check, and Core's revision for each fingerprint. */
  datatype World = World(
    digest: seq<Byte> -> Fingerprint, exactUrl: Text -> bool, revisionOf: Fingerprint -> Revision)

  datatype Step =
    | Arrive(id: nat, event: Event)
    | Record(id: nat, receipt: Result<Receipt, CoreError>)
    | Fetch(id: nat, ok: bool)                            // fetched, and media type and package accepted
    | LookUp(id: nat)
    | Begin(id: nat, admission: Result<Admission, CoreError>)
    | Write(id: nat, error: Option<CoreError>)
    | Finalize(id: nat, error: Option<CoreError>)
    | Commit(id: nat, state: Result<CommitState, CoreError>)

  /** Core answers with the revision it assigned to the fingerprint, or with none. */
  predicate Honest(world: World, s: State, step: Step) {
    step.Record? && step.id in s.attempts && step.receipt.Ok? && step.receipt.value.revisionId != [] ==>
      step.receipt.value.revisionId == world.revisionOf(s.attempts[step.id].fingerprint)
  }

  /** What a step does: the attempt's next phase, its effects, and the cache after it. */
  datatype Outcome = Outcome(phase: Phase, effects: seq<Effect>, cache: seq<Binding>)

  function Applied(a: Attempt, o: Outcome): Attempt {
    a.(phase := o.phase, trace := a.trace + o.effects)
  }

  function ActRecord(a: Attempt, cache: seq<Binding>, receipt: Result<Receipt, CoreError>): Outcome {
    if receipt.Err? then Outcome(Done(Err(receipt.error)), [Recorded(false)], cache)
    else
      var idempotency := ReceiptForEvent(receipt.value, RequiresOutput(a.event));
      if idempotency.Err? || idempotency.value.Duplicate? then Outcome(Done(idempotency), [Recorded(false)], cache)
      else if !RequiresOutput(a.event) then Outcome(Done(Ok(New)), [Recorded(true)], cache)
      else if receipt.value.revisionId == [] then Outcome(Done(Err(Invalid)), [Recorded(false)], cache)
      else Outcome(Fetching, [Recorded(true)], Remembered(cache, a.fingerprint, receipt.value.revisionId))
  }

  function ActLookUp(a: Attempt, cache: seq<Binding>): Outcome {
    match Lookup(cache, a.fingerprint)
    case None => Outcome(Done(Err(Gone)), [], cache)
    case Some(revision) => Outcome(Beginning(revision), [], cache)
  }

  function ActBegin(cache: seq<Binding>, revision: Revision, admission: Result<Admission, CoreError>): Outcome {
    if admission.Ok? && admission.value.revisionId == revision && admission.value.complete
    then Outcome(Writing(admission.value.revisionId), [Begun(revision, true)], cache)
    else Outcome(Done(Err(if admission.Ok? then Invalid else admission.error)), [Begun(revision, false)], cache)
  }

  function ActFinalize(a: Attempt, cache: seq<Binding>, revision: Revision, error: Option<CoreError>): Outcome {
    if error.Some? then Outcome(Done(Err(error.value)), [Finalized(revision, false)], cache)
    else if IsCheckpoint(a.event) then
      Outcome(Done(Ok(New)), [Finalized(revision, true)], Without(cache, a.fingerprint))
    else Outcome(Committing(revision), [Finalized(revision, true)], cache)
  }

  function ActCommit(a: Attempt, cache: seq<Binding>, revision: Revision,
                     state: Result<CommitState, CoreError>): Outcome
  {
    if state.Err? then Outcome(Done(Err(state.error)), [Committed(revision, false)], cache)
    else
      match state.value
      case CommitOther => Outcome(Done(Err(Invalid)), [Committed(revision, false)], cache)
      case CommitConflict =>
        Outcome(Done(Ok(Duplicate)), [Committed(revision, false)], Without(cache, a.fingerprint))
      case _ => Outcome(Done(Ok(New)), [Committed(revision, true)], Without(cache, a.fingerprint))
  }

  /** A step that does not fit the attempt's phase changes nothing. */
  function Act(a: Attempt, cache: seq<Binding>, step: Step): Outcome {
    match (step, a.phase)
    case (Record(_, receipt), Recording) => ActRecord(a, cache, receipt)
    case (Fetch(_, ok), Fetching) =>
      Outcome(if ok then LookingUp else Done(Err(BadOutput)), [Fetched(ok)], cache)
    case (LookUp(_), LookingUp) => ActLookUp(a, cache)
    case (Begin(_, admission), Beginning(revision)) => ActBegin(cache, revision, admission)
    case (Write(_, error), Writing(revision)) =>
      Outcome(if error.None? then Finalizing(revision) else Done(Err(error.value)),
              [Written(revision, error.None?)], cache)
    case (Finalize(_, error), Finalizing(revision)) => ActFinalize(a, cache, revision, error)
    case (Commit(_, state), Committing(revision)) => ActCommit(a, cache, revision, state)
    case _ => Outcome(a.phase, [], cache)
  }

  /** One step of the adapter. */
  function Next(world: World, s: State, step: Step): State {
    if step.Arrive? then
      if step.id in s.attempts || ValidateCallback(step.event, world.exactUrl).Some? then s
      else s.(attempts := s.attempts[step.id :=
             Attempt(step.event, world.digest(Preimage(step.event)), Recording, [])])
    else if step.id !in s.attempts then s
    else
      var a := s.attempts[step.id];
      var o := Act(a, s.cache, step);
      State(o.cache, s.attempts[step.id := Applied(a, o)])
  }

  // ---- What every attempt may do -------------------------------------------------------------

  predicate OfRevision(effect: Effect, revision: Revision) {
    effect.Recorded? || effect.Fetched? || effect.revision == revision
  }

  /** The position of an effect in the pipeline. */
  function Rank(effect: Effect): nat {
    match effect
    case Recorded(_) => 0
    case Fetched(_) => 1
    case Begun(_, _) => 2
    case Written(_, _) => 3
    case Finalized(_, _) => 4
    case Committed(_, _) => 5
  }

  /**
   * An attempt goes through record, fetch, begin, write, finalise and commit in
   * that order, once each; it goes on only after a success; it names one
   * revision throughout; a callback without output stops after recording, and a
   * checkpoint after finalising.
   */
  predicate ProperTrace(e: Event, revision: Revision, trace: seq<Effect>) {
    && |trace| <= 6
    && (forall i | 0 <= i < |trace| :: Rank(trace[i]) == i && OfRevision(trace[i], revision))
    && (forall i | 0 <= i < |trace| - 1 :: trace[i].ok)
    && (|trace| > 1 ==> RequiresOutput(e))
    && (|trace| > 5 ==> !IsCheckpoint(e))
  }

  /** How far the phase says the attempt has come, all of it successfully. */
  predicate InPhase(a: Attempt, revision: Revision) {
    var progress :=
      match a.phase
      case Recording => 0
      case Fetching => 1
      case LookingUp => 2
      case Beginning(_) => 2
      case Writing(_) => 3
      case Finalizing(_) => 4
      case Committing(_) => 5
      case Done(_) => |a.trace|;
    && |a.trace| == progress
    && (!a.phase.Done? ==>
          && (forall i | 0 <= i < |a.trace| :: a.trace[i].ok)
          && (!a.phase.Recording? ==> RequiresOutput(a.event))
          && (a.phase.Committing? ==> !IsCheckpoint(a.event))
          && (a.phase.Beginning? || a.phase.Writing? || a.phase.Finalizing? || a.phase.Committing? ==>
                a.phase.revision == revision))
  }

  predicate GoodAttempt(world: World, a: Attempt) {
    && a.fingerprint == world.digest(Preimage(a.event))
    && ProperTrace(a.event, world.revisionOf(a.fingerprint), a.trace)
    && InPhase(a, world.revisionOf(a.fingerprint))
  }

  /** The cache binds fingerprints to Core's own revisions only. */
  predicate GoodCache(world: World, cache: seq<Binding>) {
    forall i | 0 <= i < |cache| :: cache[i].1 == world.revisionOf(cache[i].0)
  }

  predicate Good(world: World, s: State) {
    GoodCache(world, s.cache) && forall id | id in s.attempts :: GoodAttempt(world, s.attempts[id])
  }

  lemma {:induction false} WithoutKeepsGood(world: World, cache: seq<Binding>, key: Fingerprint)
    requires GoodCache(world, cache)
    ensures GoodCache(world, Without(cache, key))
  {
    if cache != [] {
      assert forall i | 0 <= i < |cache[1..]| :: cache[1..][i] == cache[i + 1];
      WithoutKeepsGood(world, cache[1..], key);
    }
  }

  lemma {:induction false} LookupIsGood(world: World, cache: seq<Binding>, key: Fingerprint)
    requires GoodCache(world, cache) && Lookup(cache, key).Some?
    ensures Lookup(cache, key).value == world.revisionOf(key)
  {
    if cache[0].0 != key {
      assert forall i | 0 <= i < |cache[1..]| :: cache[1..][i] == cache[i + 1];
      LookupIsGood(world, cache[1..], key);
    }
  }

  /** Adding the next effect of the pipeline, after successes only, keeps the trace proper. */
  lemma NextEffect(e: Event, revision: Revision, trace: seq<Effect>, effect: Effect)
    requires ProperTrace(e, revision, trace) && |trace| < 6
    requires forall i | 0 <= i < |trace| :: trace[i].ok
    requires Rank(effect) == |trace| && OfRevision(effect, revision)
    requires |trace| > 0 ==> RequiresOutput(e)
    requires |trace| == 5 ==> !IsCheckpoint(e)
    ensures ProperTrace(e, revision, trace + [effect])
  {
  }

  /** The attempt's own part of an honest step. */
  predicate HonestTo(world: World, a: Attempt, step: Step) {
    step.Record? && step.receipt.Ok? && step.receipt.value.revisionId != [] ==>
      step.receipt.value.revisionId == world.revisionOf(a.fingerprint)
  }

  lemma ActKeepsCache(world: World, a: Attempt, cache: seq<Binding>, step: Step)
    requires GoodCache(world, cache) && HonestTo(world, a, step)
    ensures GoodCache(world, Act(a, cache, step).cache)
  {
    WithoutKeepsGood(world, cache, a.fingerprint);
  }

  lemma ActKeepsAttempt(world: World, a: Attempt, cache: seq<Binding>, step: Step)
    requires GoodAttempt(world, a) && GoodCache(world, cache)
    ensures GoodAttempt(world, Applied(a, Act(a, cache, step)))
  {
    var revision, o := world.revisionOf(a.fingerprint), Act(a, cache, step);
    if o.effects == [] {
      assert a.trace + o.effects == a.trace;
      if step.LookUp? && a.phase.LookingUp? && Lookup(cache, a.fingerprint).Some? {
        LookupIsGood(world, cache, a.fingerprint);
      }
    } else {
      assert o.effects == [o.effects[0]];
      NextEffect(a.event, revision, a.trace, o.effects[0]);
    }
  }

  lemma ArriveKeepsGood(world: World, s: State, step: Step)
    requires Good(world, s) && step.Arrive?
    ensures Good(world, Next(world, s, step))
  {
    var a := Attempt(step.event, world.digest(Preimage(step.event)), Recording, []);
    assert GoodAttempt(world, a);
  }

  lemma NextKeepsGood(world: World, s: State, step: Step)
    requires Good(world, s) && Honest(world, s, step)
    ensures Good(world, Next(world, s, step))
  {
    if step.Arrive? {
      ArriveKeepsGood(world, s, step);
    } else if step.id in s.attempts {
      ActKeepsCache(world, s.attempts[step.id], s.cache, step);
      ActKeepsAttempt(world, s.attempts[step.id], s.cache, step);
    }
  }

  // ---- Runs --------------------------------------------------------------------------------------

  function Run(world: World, s: State, steps: seq<Step>): State {
    if steps == [] then s else Next(world, Run(world, s, steps[..|steps| - 1]), steps[|steps| - 1])
  }

  /** Core answers honestly at every step of a run. */
  predicate HonestRun(world: World, s: State, steps: seq<Step>) {
    steps != [] ==>
      && HonestRun(world, s, steps[..|steps| - 1])
      && Honest(world, Run(world, s, steps[..|steps| - 1]), steps[|steps| - 1])
  }

  /**
   * In every run, whatever callbacks arrive, fail, are retried, interleave or
   * are evicted from the cache, every attempt's effects are proper: it writes
   * only to Core's revision for its event's fingerprint, commits only after its
   * own successful write and finalisation, and never commits a checkpoint.
   */
  lemma {:induction false} EveryRunIsGood(world: World, steps: seq<Step>)
    requires HonestRun(world, START, steps)
    ensures Good(world, Run(world, START, steps))
    decreases |steps|
  {
    if steps != [] {
      EveryRunIsGood(world, steps[..|steps| - 1]);
      NextKeepsGood(world, Run(world, START, steps[..|steps| - 1]), steps[|steps| - 1]);
    }
  }

  /** A commit in a run: what the attempt did before it. */
  lemma CommitFollowsItsOwnWrite(world: World, steps: seq<Step>, id: nat, i: nat)
    requires HonestRun(world, START, steps)
    requires id in Run(world, START, steps).attempts
    requires var a := Run(world, START, steps).attempts[id]; i < |a.trace| && a.trace[i].Committed?
    ensures var a := Run(world, START, steps).attempts[id];
      var revision := world.revisionOf(world.digest(Preimage(a.event)));
      && i == 5
      && (a.event.status == MustSave || (a.event.status == ForceSave && a.event.saveType != Some(Timer)))
      && a.trace[..5] == [Recorded(true), Fetched(true), Begun(revision, true), Written(revision, true),
                          Finalized(revision, true)]
      && a.trace[5].revision == revision
  {
    EveryRunIsGood(world, steps);
    var a := Run(world, START, steps).attempts[id];
    assert GoodAttempt(world, a);
    assert Rank(a.trace[i]) == i;
    assert Rank(a.trace[0]) == 0 && Rank(a.trace[1]) == 1 && Rank(a.trace[2]) == 2
        && Rank(a.trace[3]) == 3 && Rank(a.trace[4]) == 4;
  }

  /** An attempt that is done stays as it is, whatever happens to the others. */
  lemma {:induction false} DoneStays(world: World, s: State, id: nat, steps: seq<Step>)
    requires id in s.attempts && s.attempts[id].phase.Done?
    ensures id in Run(world, s, steps).attempts && Run(world, s, steps).attempts[id] == s.attempts[id]
    decreases |steps|
  {
    if steps != [] {
      DoneStays(world, s, id, steps[..|steps| - 1]);
      DoneDoesNotAct(s.attempts[id], Run(world, s, steps[..|steps| - 1]).cache, steps[|steps| - 1]);
    }
  }

  lemma DoneDoesNotAct(a: Attempt, cache: seq<Binding>, step: Step)
    requires a.phase.Done?
    ensures Applied(a, Act(a, cache, step)) == a
  {
    assert a.trace + [] == a.trace;
  }

  /** After a terminal receipt, or any other that is not a success, the attempt does nothing more in any run. */
  lemma TerminalReceiptEndsAttempt(world: World, s: State, id: nat, receipt: Receipt, steps: seq<Step>)
    requires id in s.attempts && s.attempts[id].phase.Recording?
    requires receipt.state in {CommittedState, CheckpointState, NoOpState, ConflictState, RejectedState, FailedState}
    ensures var after := Next(world, s, Record(id, Ok(receipt)));
      && after.cache == s.cache
      && after.attempts[id].phase.Done?
      && after.attempts[id].trace == s.attempts[id].trace + [Recorded(false)]
      && id in Run(world, after, steps).attempts
      && Run(world, after, steps).attempts[id] == after.attempts[id]
  {
    DoneStays(world, Next(world, s, Record(id, Ok(receipt))), id, steps);
  }

  /** A timer save is never committed, in any run. */
  lemma TimerIsNeverCommitted(world: World, steps: seq<Step>, id: nat)
    requires HonestRun(world, START, steps) && id in Run(world, START, steps).attempts
    requires var e := Run(world, START, steps).attempts[id].event; e.status == ForceSave && e.saveType == Some(Timer)
    ensures forall effect | effect in Run(world, START, steps).attempts[id].trace :: !effect.Committed?
  {
    var a := Run(world, START, steps).attempts[id];
    forall effect | effect in a.trace ensures !effect.Committed? {
      var i :| 0 <= i < |a.trace| && a.trace[i] == effect;
      if effect.Committed? {
        CommitFollowsItsOwnWrite(world, steps, id, i);
        assert false;
      }
    }
  }

  /** Nothing is fetched or written for a callback that announces no output, in any run. */
  lemma OnlyOutputIsFetched(world: World, steps: seq<Step>, id: nat)
    requires HonestRun(world, START, steps) && id in Run(world, START, steps).attempts
    requires Run(world, START, steps).attempts[id].event.status !in {MustSave, ForceSave}
    ensures forall effect | effect in Run(world, START, steps).attempts[id].trace :: effect.Recorded?
  {
    EveryRunIsGood(world, steps);
    var a := Run(world, START, steps).attempts[id];
    assert GoodAttempt(world, a);
    forall effect | effect in a.trace ensures effect.Recorded? {
      var i :| 0 <= i < |a.trace| && a.trace[i] == effect;
      assert Rank(a.trace[i]) == i;
    }
  }

  // ---- What each reply leads to -----------------------------------------------------------------

  /** The state in which only one attempt went on. */
  predicate MovesTo(s: State, after: State, id: nat, phase: Phase, effects: seq<Effect>, cache: seq<Binding>) {
    && id in s.attempts
    && after == State(cache, s.attempts[id := s.attempts[id].(phase := phase, trace := s.attempts[id].trace + effects)])
  }

  /**
   * What a receipt leads to.  One that Core has not settled resumes a callback with
   * output under the revision it names; the settled ones are duplicates.
   */
  lemma ReceiptOutcome(world: World, s: State, id: nat, receipt: Receipt)
    requires id in s.attempts && s.attempts[id].phase.Recording?
    ensures var a, after := s.attempts[id], Next(world, s, Record(id, Ok(receipt)));
      var output, open := a.event.status in {MustSave, ForceSave}, receipt.state in {Received, Staging, Staged};
      && (receipt.eventId == [] ==> MovesTo(s, after, id, Done(Err(Invalid)), [Recorded(false)], s.cache))
      && (receipt.eventId != [] && open && !output ==>
            MovesTo(s, after, id, Done(Ok(New)), [Recorded(true)], s.cache))
      && (receipt.eventId != [] && open && output && receipt.revisionId == [] ==>
            MovesTo(s, after, id, Done(Err(Invalid)), [Recorded(false)], s.cache))
      && (receipt.eventId != [] && open && output && receipt.revisionId != [] ==>
            MovesTo(s, after, id, Fetching, [Recorded(true)],
                    Remembered(s.cache, a.fingerprint, receipt.revisionId)))
      && (receipt.eventId != [] && receipt.state in {CommittedState, CheckpointState, NoOpState, ConflictState} ==>
            MovesTo(s, after, id, Done(Ok(Duplicate)), [Recorded(false)], s.cache))
      && (receipt.eventId != [] && receipt.state == RejectedState ==>
            MovesTo(s, after, id, Done(Err(Invalid)), [Recorded(false)], s.cache))
      && (receipt.eventId != [] && receipt.state in {FailedState, UnspecifiedState, UnknownState} ==>
            MovesTo(s, after, id, Done(Err(Unavailable)), [Recorded(false)], s.cache))
  {
  }

  /** What Core's refusal of a record, a fetch and the lookup in the cache lead to. */
  lemma FetchOutcomes(world: World, s: State, id: nat, error: CoreError, ok: bool)
    requires id in s.attempts && Distinct(s.cache)
    ensures s.attempts[id].phase.Recording? ==>
      MovesTo(s, Next(world, s, Record(id, Err(error))), id, Done(Err(error)), [Recorded(false)], s.cache)
    ensures s.attempts[id].phase.Fetching? ==>
      MovesTo(s, Next(world, s, Fetch(id, ok)), id, if ok then LookingUp else Done(Err(BadOutput)),
              [Fetched(ok)], s.cache)
    ensures s.attempts[id].phase.LookingUp? ==>
      forall revision | (s.attempts[id].fingerprint, revision) in s.cache ::
        MovesTo(s, Next(world, s, LookUp(id)), id, Beginning(revision), [], s.cache)
    ensures s.attempts[id].phase.LookingUp? && (forall b | b in s.cache :: b.0 != s.attempts[id].fingerprint) ==>
      MovesTo(s, Next(world, s, LookUp(id)), id, Done(Err(Gone)), [], s.cache)
  {
    forall revision ensures
      && (Lookup(s.cache, s.attempts[id].fingerprint) == Some(revision)
          <==> (s.attempts[id].fingerprint, revision) in s.cache)
      && (Lookup(s.cache, s.attempts[id].fingerprint).None?
          <==> forall b | b in s.cache :: b.0 != s.attempts[id].fingerprint)
    {
      LookupIff(s.cache, s.attempts[id].fingerprint, revision);
    }
  }

  /** Whatever happens in a run, only validated callbacks are attempted, under their own fingerprint. */
  lemma {:induction false} OnlyValidIsAttempted(world: World, steps: seq<Step>, id: nat)
    requires id in Run(world, START, steps).attempts
    ensures var a := Run(world, START, steps).attempts[id];
      && ValidateCallback(a.event, world.exactUrl).None? && a.fingerprint == world.digest(Preimage(a.event))
      && Arrive(id, a.event) in steps
    decreases |steps|
  {
    var before := steps[..|steps| - 1];
    var last := steps[|steps| - 1];
    assert steps == before + [last];
    if id in Run(world, START, before).attempts {
      OnlyValidIsAttempted(world, before, id);
    }
  }

  /** What the admission and the answers to write and finalise lead to. */
  lemma WriteOutcomes(world: World, s: State, id: nat, revision: Revision,
                      admission: Result<Admission, CoreError>, error: Option<CoreError>)
    requires id in s.attempts
    ensures s.attempts[id].phase == Beginning(revision) ==>
      var after := Next(world, s, Begin(id, admission));
      if admission.Ok? && admission.value == Admission(revision, true)
      then MovesTo(s, after, id, Writing(revision), [Begun(revision, true)], s.cache)
      else MovesTo(s, after, id, Done(Err(if admission.Err? then admission.error else Invalid)),
                   [Begun(revision, false)], s.cache)
    ensures s.attempts[id].phase == Writing(revision) ==>
      var after := Next(world, s, Write(id, error));
      if error.None? then MovesTo(s, after, id, Finalizing(revision), [Written(revision, true)], s.cache)
      else MovesTo(s, after, id, Done(Err(error.value)), [Written(revision, false)], s.cache)
    ensures s.attempts[id].phase == Finalizing(revision) ==>
      var e, after := s.attempts[id].event, Next(world, s, Finalize(id, error));
      if error.Some? then MovesTo(s, after, id, Done(Err(error.value)), [Finalized(revision, false)], s.cache)
      else if e.status == ForceSave && e.saveType == Some(Timer)
      then MovesTo(s, after, id, Done(Ok(New)), [Finalized(revision, true)],
                   Without(s.cache, s.attempts[id].fingerprint))
      else MovesTo(s, after, id, Committing(revision), [Finalized(revision, true)], s.cache)
  {
  }

  /** What the answer to a commit leads to: a conflict is a duplicate, and a settled callback leaves the cache. */
  lemma CommitOutcome(world: World, s: State, id: nat, revision: Revision, state: Result<CommitState, CoreError>)
    requires id in s.attempts && s.attempts[id].phase == Committing(revision)
    ensures var after, settled := Next(world, s, Commit(id, state)), Without(s.cache, s.attempts[id].fingerprint);
      && (state == Ok(CommitCommitted) || state == Ok(CommitNoOp) ==>
            MovesTo(s, after, id, Done(Ok(New)), [Committed(revision, true)], settled))
      && (state == Ok(CommitConflict) ==>
            MovesTo(s, after, id, Done(Ok(Duplicate)), [Committed(revision, false)], settled))
      && (state == Ok(CommitOther) ==>
            MovesTo(s, after, id, Done(Err(Invalid)), [Committed(revision, false)], s.cache))
      && (state.Err? ==> MovesTo(s, after, id, Done(Err(state.error)), [Committed(revision, false)], s.cache))
  {
  }

  // ---- Fingerprints across attempts -----------------------------------------------------------------

  /** The digest does not collide on the events of a run. */
  predicate NoCollision(world: World, a: Event, b: Event) {
    world.digest(Preimage(a)) == world.digest(Preimage(b)) ==> Preimage(a) == Preimage(b)
  }

  /**
   * The revision of a timer checkpoint is never committed, by any attempt of any
   * run, if digests do not collide and Core gives different fingerprints
   * different revisions.
   */
  lemma CheckpointRevisionIsNeverCommitted(world: World, steps: seq<Step>, checkpoint: Event, id: nat, i: nat)
    requires HonestRun(world, START, steps)
    requires checkpoint.status == ForceSave && checkpoint.saveType == Some(Timer) && Addressable(checkpoint)
    requires id in Run(world, START, steps).attempts
    requires var a := Run(world, START, steps).attempts[id];
      && Addressable(a.event) && NoCollision(world, a.event, checkpoint)
      && i < |a.trace| && a.trace[i].Committed?
    requires forall f, g :: world.revisionOf(f) == world.revisionOf(g) ==> f == g
    ensures var a := Run(world, START, steps).attempts[id];
      a.trace[i].revision != world.revisionOf(world.digest(Preimage(checkpoint)))
  {
    CommitFollowsItsOwnWrite(world, steps, id, i);
    var a := Run(world, START, steps).attempts[id];
    if Preimage(a.event) == Preimage(checkpoint) {
      PreimageIff(a.event, checkpoint);
      assert false;
    }
  }

  // ---- A retry is enough ------------------------------------------------------------------------------

  /** An attempt that nobody disturbs, from any state of the cache, is committed under Core's revision. */
  lemma UndisturbedAttemptCommits(world: World, s: State, id: nat, e: Event, eventId: Text) returns (steps: seq<Step>)
    requires id !in s.attempts && ValidateCallback(e, world.exactUrl).None?
    requires e.status == MustSave || (e.status == ForceSave && e.saveType != Some(Timer))
    requires eventId != []
    requires world.revisionOf(world.digest(Preimage(e))) != []
    ensures HonestRun(world, s, steps)
    ensures var after := Run(world, s, steps);
      && id in after.attempts && after.attempts[id].phase == Done(Ok(New))
      && |after.attempts[id].trace| == 6
      && after.attempts[id].trace[5] == Committed(world.revisionOf(world.digest(Preimage(e))), true)
  {
    steps := UndisturbedAttemptBegins(world, s, id, e, eventId);
    steps := BegunAttemptCommits(world, s, steps, id, e);
  }

  lemma UndisturbedAttemptBegins(world: World, s: State, id: nat, e: Event, eventId: Text) returns (steps: seq<Step>)
    requires id !in s.attempts && ValidateCallback(e, world.exactUrl).None?
    requires RequiresOutput(e) && eventId != [] && world.revisionOf(world.digest(Preimage(e))) != []
    ensures HonestRun(world, s, steps)
    ensures var after := Run(world, s, steps);
      var fingerprint := world.digest(Preimage(e));
      && id in after.attempts
      && after.attempts[id] == Attempt(e, fingerprint, Beginning(world.revisionOf(fingerprint)),
                                      [Recorded(true), Fetched(true)])
  {
    steps := UndisturbedAttemptIsRecorded(world, s, id, e, eventId);
    var a := Run(world, s, steps).attempts[id];
    steps, a := RunAct(world, s, steps, id, a, Fetch(id, true));
    steps, a := RunAct(world, s, steps, id, a, LookUp(id));
    assert a.trace == [Recorded(true), Fetched(true)];
  }

  lemma UndisturbedAttemptIsRecorded(world: World, s: State, id: nat, e: Event, eventId: Text)
      returns (steps: seq<Step>)
    requires id !in s.attempts && ValidateCallback(e, world.exactUrl).None?
    requires RequiresOutput(e) && eventId != [] && world.revisionOf(world.digest(Preimage(e))) != []
    ensures HonestRun(world, s, steps)
    ensures var after := Run(world, s, steps);
      var fingerprint := world.digest(Preimage(e));
      && id in after.attempts && after.attempts[id] == Attempt(e, fingerprint, Fetching, [Recorded(true)])
      && Lookup(after.cache, fingerprint) == Some(world.revisionOf(fingerprint))
  {
    var fingerprint := world.digest(Preimage(e));
    var revision := world.revisionOf(fingerprint);
    steps := RunArrive(world, s, id, e);
    var a := Attempt(e, fingerprint, Recording, []);
    steps, a := RunAct(world, s, steps, id, a, Record(id, Ok(Receipt(eventId, Received, revision))));
    JustRemembered(s.cache, fingerprint, revision);
    assert a.trace == [Recorded(true)];
  }

  lemma BegunAttemptCommits(world: World, s: State, before: seq<Step>, id: nat, e: Event) returns (steps: seq<Step>)
    requires !IsCheckpoint(e) && HonestRun(world, s, before)
    requires var mid := Run(world, s, before);
      var fingerprint := world.digest(Preimage(e));
      && id in mid.attempts
      && mid.attempts[id] == Attempt(e, fingerprint, Beginning(world.revisionOf(fingerprint)),
                                      [Recorded(true), Fetched(true)])
    ensures HonestRun(world, s, steps)
    ensures var after := Run(world, s, steps);
      && id in after.attempts && after.attempts[id].phase == Done(Ok(New))
      && |after.attempts[id].trace| == 6
      && after.attempts[id].trace[5] == Committed(world.revisionOf(world.digest(Preimage(e))), true)
  {
    var a := Run(world, s, before).attempts[id];
    var revision := a.phase.revision;
    steps, a := RunAct(world, s, before, id, a, Begin(id, Ok(Admission(revision, true))));
    steps, a := RunAct(world, s, steps, id, a, Write(id, None));
    steps, a := RunAct(world, s, steps, id, a, Finalize(id, None));
    steps, a := RunAct(world, s, steps, id, a, Commit(id, Ok(CommitCommitted)));
  }

  lemma RunSnoc(world: World, s: State, steps: seq<Step>, step: Step) returns (more: seq<Step>)
    requires HonestRun(world, s, steps) && Honest(world, Run(world, s, steps), step)
    ensures HonestRun(world, s, more)
    ensures more == steps + [step] && Run(world, s, more) == Next(world, Run(world, s, steps), step)
  {
    more := steps + [step];
    assert more[..|more| - 1] == steps;
  }

  lemma RunArrive(world: World, s: State, id: nat, e: Event) returns (steps: seq<Step>)
    requires id !in s.attempts && ValidateCallback(e, world.exactUrl).None?
    ensures HonestRun(world, s, steps)
    ensures var after := Run(world, s, steps);
      && id in after.attempts && after.cache == s.cache
      && after.attempts[id] == Attempt(e, world.digest(Preimage(e)), Recording, [])
  {
    steps := RunSnoc(world, s, [], Arrive(id, e));
  }

  lemma RunAct(world: World, s: State, steps: seq<Step>, id: nat, a: Attempt, step: Step)
      returns (more: seq<Step>, b: Attempt)
    requires !step.Arrive? && step.id == id
    requires var mid := Run(world, s, steps); id in mid.attempts && mid.attempts[id] == a
    requires HonestRun(world, s, steps) && Honest(world, Run(world, s, steps), step)
    ensures HonestRun(world, s, more)
    ensures var cache := Run(world, s, steps).cache;
      && b == Applied(a, Act(a, cache, step))
      && Run(world, s, more).cache == Act(a, cache, step).cache
    ensures id in Run(world, s, more).attempts && Run(world, s, more).attempts[id] == b
  {
    more := RunSnoc(world, s, steps, step);
    b := Run(world, s, more).attempts[id];
  }

  lemma {:induction false} WithoutHasNone(list: seq<Binding>, key: Fingerprint)
    ensures forall b | b in Without(list, key) :: b.0 != key
  {
    if list != [] { WithoutHasNone(list[1..], key); }
  }

  lemma JustRemembered(cache: seq<Binding>, key: Fingerprint, revision: Revision)
    ensures Lookup(Remembered(cache, key, revision), key) == Some(revision)
  {
    WithoutHasNone(cache, key);
    var kept := Without(cache, key);
    var moved := kept + [(key, revision)];
    LookupAtBack(kept, key, revision);
    if |moved| > MAX_CALLBACK_CONTEXTS {
      assert moved[1..] == kept[1..] + [(key, revision)];
      assert forall b | b in kept[1..] :: b in kept;
      LookupAtBack(kept[1..], key, revision);
    }
  }

  lemma {:induction false} LookupAtBack(list: seq<Binding>, key: Fingerprint, revision: Revision)
    requires forall b | b in list :: b.0 != key
    ensures Lookup(list + [(key, revision)], key) == Some(revision)
    decreases |list|
  {
    if list != [] {
      assert list[0] in list && (list + [(key, revision)])[1..] == list[1..] + [(key, revision)];
      LookupAtBack(list[1..], key, revision);
    }
  }
}
