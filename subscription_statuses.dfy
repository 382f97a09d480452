/** The lifecycle states of an event subscription and their two classifications. */
module SubscriptionStatuses {

  datatype SubscriptionStatus =
    | Pending
    | Approved
    | Rejected
    | Cancelled
    | Waitlisted
    | Attended
    | NoShow
    | Expired
  {
    /** `isActive()`: the subscription still holds or waits for a place. */
    predicate IsActive()
    {
      this == Pending || this == Approved || this == Waitlisted
    }

    /** `isCompleted()`: the event is over for this subscription. */
    predicate IsCompleted()
    {
      this == Attended || this == NoShow || this == Expired
    }
  }

  /**
   * Every status falls into one of the two classes except the two ways a
   * subscription is refused or withdrawn.
   */
  lemma ClassifiedUnlessRejectedOrCancelled(s: SubscriptionStatus)
    ensures s.IsActive() || s.IsCompleted() <==> s != Rejected && s != Cancelled
  {
  }

  /** No status is both active and completed. */
  lemma ActiveAndCompletedDisjoint(s: SubscriptionStatus)
    ensures !(s.IsActive() && s.IsCompleted())
  {
  }

  /** REJECTED and CANCELLED belong to neither class. */
  lemma TerminalStatusesUnclassified(s: SubscriptionStatus)
    requires s == Rejected || s == Cancelled
    ensures !s.IsActive() && !s.IsCompleted()
  {
  }
}
