/** The `end` a tombstone carries (src/entrypoints/detached_run.py). */
module Tombstone {
  import opened Common
  import opened Lifecycle

  datatype EndOutcome =
    Adopted | KeptInput | NoWinner | AdoptionFailed | StoppedByRequest | Deadline | FinishRefused
    | RunDidFail | ForceStopped

  datatype EndingFact = EndingFact(outcome: Option<EndOutcome>, resumable: bool, roundsFinished: nat)

  datatype EndRecord = EndRecord(outcome: EndOutcome, resumable: bool, resumeFromRound: Option<nat>)

  function OutcomeOf(phase: RunPhase, ending: Option<EndingFact>, terminated: bool): Option<EndOutcome> {
    if terminated then Some(ForceStopped)
    else if ending.Some? && ending.value.outcome.Some? then ending.value.outcome
    else match phase.status
      case Stopped => Some(StoppedByRequest)
      case Failed => Some(RunDidFail)
      case _ => None
  }

  function EndRecordOf(phase: RunPhase, ending: Option<EndingFact>, terminated: bool): Option<EndRecord> {
    match OutcomeOf(phase, ending, terminated)
    case None => None
    case Some(outcome) =>
      var resumable := ending.Some? && ending.value.resumable && !(outcome.StoppedByRequest? || outcome.ForceStopped?);
      Some(EndRecord(outcome, resumable, if resumable then Some(ending.value.roundsFinished + 1) else None))
  }

  /** The end is missing exactly when nothing names it; a force stop outranks whatever was reported;
      and a run resumes exactly when it was vouched for and no operator stopped it, at the round after
      its last finished one (so `EndRecord`'s own validator never rejects it). */
  ghost predicate Tells(end: Option<EndRecord>, phase: RunPhase, ending: Option<EndingFact>, terminated: bool) {
    && (end.None? <==>
          !terminated && (ending.None? || ending.value.outcome.None?) && phase.status !in {Stopped, Failed})
    && (end.Some? ==>
          end.value.outcome ==
          if terminated then ForceStopped
          else if ending.Some? && ending.value.outcome.Some? then ending.value.outcome.value
          else if phase.status.Stopped? then StoppedByRequest
          else RunDidFail)
    && (end.Some? && end.value.resumable <==>
          && !terminated && ending.Some? && ending.value.resumable
          && (if ending.value.outcome.Some? then ending.value.outcome.value !in {StoppedByRequest, ForceStopped}
              else phase.status.Failed?))
    && (end.Some? ==>
          end.value.resumeFromRound ==
          if end.value.resumable then Some(ending.value.roundsFinished + 1) else None)
  }

  lemma EndRecordTells(phase: RunPhase, ending: Option<EndingFact>, terminated: bool)
    ensures Tells(EndRecordOf(phase, ending, terminated), phase, ending, terminated)
  {
  }
}
