/** The build status of a component and its four classifications
    (lib/node/builder/model.ts). A component's `status` field may be unset,
    hence `Option<Status>`. */
module BuildStatus {
  import opened Wrappers

  datatype Status =
    | Waiting | Building | Redundant
    | Success | Failure | Canceled | Skipped
    | FailureUpstream | CanceledUpstream

  /** The constant lists the predicates search. */
  const PendingStatuses: seq<Status> := [Waiting, Building]
  const ContinuableStatuses: seq<Status> := [Success, Skipped, Redundant]

  /** `componentStatusPending`: unset, or found in the pending list. */
  predicate Pending(s: Option<Status>) {
    s.None? || s.value in PendingStatuses
  }

  /** `componentStatusFinal` */
  predicate Final(s: Option<Status>) {
    !Pending(s)
  }

  /** `componentStatusContinuable`: set, and found in the continuable list. */
  predicate Continuable(s: Option<Status>) {
    s.Some? && s.value in ContinuableStatuses
  }

  /** `componentStatusFlowStop`: set, and not continuable. */
  predicate FlowStop(s: Option<Status>) {
    s.Some? && !Continuable(s)
  }

  /** Pending means unset, `waiting` or `building`, and nothing else. */
  lemma PendingExactly(s: Option<Status>)
    ensures Pending(s) <==> s == None || s == Some(Waiting) || s == Some(Building)
  {
  }

  /** Final is exactly the negation of pending: every set status other than
      `waiting` and `building`. */
  lemma FinalExactly(s: Option<Status>)
    ensures Final(s) <==> !Pending(s)
    ensures Final(s) <==> s.Some? && s.value != Waiting && s.value != Building
  {
  }

  /** Continuable means `success`, `skipped` or `redundant`; each of them is final. */
  lemma ContinuableExactly(s: Option<Status>)
    ensures Continuable(s) <==> s == Some(Success) || s == Some(Skipped) || s == Some(Redundant)
    ensures Continuable(s) ==> Final(s)
  {
  }

  /** Every set status is exactly one of continuable and flow-stop; an unset
      status is neither. */
  lemma ContinuableOrFlowStop(s: Option<Status>)
    ensures s.Some? ==> (Continuable(s) <==> !FlowStop(s))
    ensures s.None? ==> !Continuable(s) && !FlowStop(s)
  {
  }

  /** Flow-stop tests only "set and not continuable", so the pending `waiting`
      and `building` are flow-stop too, alongside the failing terminal states. */
  lemma FlowStopExactly(s: Option<Status>)
    ensures FlowStop(s) <==> s.Some? && s.value !in {Success, Skipped, Redundant}
    ensures FlowStop(Some(Waiting)) && FlowStop(Some(Building))
    ensures FlowStop(s) && Final(s) <==>
      s.Some? && s.value in {Failure, Canceled, FailureUpstream, CanceledUpstream}
  {
    if s.Some? {
      match s.value
      case Waiting =>
      case Building =>
      case Redundant =>
      case Success =>
      case Failure =>
      case Canceled =>
      case Skipped =>
      case FailureUpstream =>
      case CanceledUpstream =>
    }
  }
}
