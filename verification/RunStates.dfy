/** The claim lifecycle of crates/apohara-dispatch/src/state.rs. */
module RunStates {
  datatype RunState = Unclaimed | Claimed | Running | RetryQueued | Released

  predicate CanTransition(from: RunState, to: RunState) {
    match (from, to)
    case (Unclaimed, Claimed) => true
    case (Claimed, Running) => true
    case (Claimed, Released) => true
    case (Running, RetryQueued) => true
    case (Running, Released) => true
    case (RetryQueued, Claimed) => true
    case (RetryQueued, Released) => true
    case (Released, Unclaimed) => true
    case _ => false
  }

  /** Where each state may be entered from: a slot is claimed or retried anew, and freed from anything but unclaimed. */
  lemma EnteredFrom(from: RunState, to: RunState)
    ensures to.Unclaimed? ==> (CanTransition(from, to) <==> from.Released?)
    ensures to.Claimed? ==> (CanTransition(from, to) <==> from.Unclaimed? || from.RetryQueued?)
    ensures to.Running? ==> (CanTransition(from, to) <==> from.Claimed?)
    ensures to.RetryQueued? ==> (CanTransition(from, to) <==> from.Running?)
    ensures to.Released? ==> (CanTransition(from, to) <==> !from.Unclaimed? && !from.Released?)
  {
  }

  predicate IsClaimable(s: RunState) {
    s.Unclaimed? || s.Released?
  }

  /** A live claim: the only states the reaper and the claim guard care about. */
  predicate IsActive(s: RunState) {
    s.Claimed? || s.Running?
  }
}
