/**
 * A student's subscription to an event: its guards (`canCancel`,
 * `canCheckIn`, `canSubmitFeedback`), its transitions and its persistence
 * callbacks, including the generated check-in code.
 */
module EventSubscriptions {

  import opened Wrappers
  import opened JavaInt
  import opened JavaTime
  import opened JavaString
  import opened SubscriptionStatuses
  import Decimal
  import Events

  /**
   * The generated check-in code: "EVT", then the clock's milliseconds modulo
   * 10000 in decimal, then a random number below 10000 padded to four digits.
   */
  function CheckInCode(millis: nat, random: nat): string
    requires random < 10000
  {
    "EVT" + Decimal.ToDecimal(millis % 10000) + Decimal.ZeroPadded(random, 4)
  }

  /**
   * A generated code is "EVT" followed by 5 to 8 digits, whose last four encode
   * the random draw, and it is never blank.
   */
  lemma CheckInCodeShape(millis: nat, random: nat)
    requires random < 10000
    ensures var c := CheckInCode(millis, random);
      StartsWith(c, "EVT") && 8 <= |c| <= 11 && Decimal.AllDigits(c[3..])
      && Decimal.ValueOf(c[|c| - 4..]) == random
      && !IsBlank(Some(c))
  {
    var c := CheckInCode(millis, random);
    var d := Decimal.ToDecimal(millis % 10000);
    var p := Decimal.ZeroPadded(random, 4);
    Decimal.ToDecimalLength(millis % 10000, 4);
    Decimal.ZeroPaddedMeans(random, 4);
    DigitsAfterPrefix(d, p);
    assert c == "EVT" + (d + p);
    assert c[3..] == d + p;
    assert c[|c| - 4..] == p;
    TrimKeepsVisibleStart(c);
  }

  /** Two digit strings joined are digits. */
  lemma DigitsAfterPrefix(d: string, p: string)
    requires Decimal.AllDigits(d) && Decimal.AllDigits(p)
    ensures Decimal.AllDigits(d + p)
  {
    assert forall i :: 0 <= i < |d + p| ==> (d + p)[i] == if i < |d| then d[i] else p[i - |d|];
  }

  class EventSubscription {
    var event: Events.Event?
    var status: Option<SubscriptionStatus>
    var registrationDate: Option<Instant>
    var approvalDate: Option<Instant>
    var cancellationDate: Option<Instant>
    var attended: Option<bool>
    var attendanceDate: Option<Instant>
    var checkInCode: Option<string>
    var checkInTime: Option<Instant>
    var checkOutTime: Option<Instant>
    var certificateIssued: Option<bool>
    var certificateIssueDate: Option<Instant>
    var feedbackSubmitted: Option<bool>
    var rating: Option<Int32>
    var feedbackComment: Option<string>
    var isActive: Option<bool>
    var cancellationReason: Option<string>
    var createdAt: Option<Instant>
    var updatedAt: Option<Instant>

    /** The no-argument constructor with the field initialisers. */
    constructor ()
      ensures event == null && status == Some(Pending)
      ensures attended == Some(false) && certificateIssued == Some(false)
      ensures feedbackSubmitted == Some(false) && isActive == Some(true)
      ensures registrationDate.None? && approvalDate.None? && cancellationDate.None?
      ensures attendanceDate.None? && checkInCode.None? && checkInTime.None? && checkOutTime.None?
      ensures certificateIssueDate.None? && rating.None? && feedbackComment.None?
      ensures cancellationReason.None? && createdAt.None? && updatedAt.None?
    {
      event := null;
      status := Some(Pending);
      registrationDate := None;
      approvalDate := None;
      cancellationDate := None;
      attended := Some(false);
      attendanceDate := None;
      checkInCode := None;
      checkInTime := None;
      checkOutTime := None;
      certificateIssued := Some(false);
      certificateIssueDate := None;
      feedbackSubmitted := Some(false);
      rating := None;
      feedbackComment := None;
      isActive := Some(true);
      cancellationReason := None;
      createdAt := None;
      updatedAt := None;
    }

    /** PENDING, APPROVED or WAITLISTED subscriptions may be cancelled. */
    predicate CanCancel()
      reads this
    {
      status == Some(Pending) || status == Some(Approved) || status == Some(Waitlisted)
    }

    /**
     * The unboxing and dereferences `canCheckIn()` performs past its
     * short-circuits must not meet a null.
     */
    predicate CheckInDefined()
      reads this, event
    {
      status == Some(Approved) ==>
        attended.Some? &&
        ((attended == Some(false) && event != null && event.status == Some(Events.Active)
          && event.maxParticipants.Some?) ==> event.currentParticipants.Some?)
    }

    /** APPROVED, not yet attended, and attached to an event that still accepts registrations. */
    predicate CanCheckIn(now: Instant)
      reads this, event
      requires CheckInDefined()
    {
      status == Some(Approved) && !attended.value && event != null && event.CanRegister(now)
    }

    /** Attended and no feedback yet; both flags are unboxed. */
    predicate CanSubmitFeedback()
      reads this
      requires attended.Some? && (attended.value ==> feedbackSubmitted.Some?)
    {
      attended.value && !feedbackSubmitted.value
    }

    method Approve(now: Instant)
      modifies this`status, this`approvalDate
      ensures status == Some(Approved) && approvalDate == Some(now)
    {
      status := Some(Approved);
      approvalDate := Some(now);
    }

    /** Cancels unconditionally (callers are expected to consult `CanCancel` first). */
    method Cancel(reason: Option<string>, now: Instant)
      modifies this`status, this`cancellationDate, this`cancellationReason, this`isActive
      ensures status == Some(Cancelled) && cancellationDate == Some(now)
      ensures cancellationReason == reason && isActive == Some(false)
      ensures !CanCancel()
    {
      status := Some(Cancelled);
      cancellationDate := Some(now);
      cancellationReason := reason;
      isActive := Some(false);
    }

    /** Marks attendance unconditionally; afterwards check-in is no longer possible. */
    method CheckIn(now: Instant)
      modifies this`attended, this`attendanceDate, this`checkInTime
      ensures attended == Some(true) && attendanceDate == Some(now) && checkInTime == Some(now)
      ensures CheckInDefined() && !CanCheckIn(now)
    {
      attended := Some(true);
      attendanceDate := Some(now);
      checkInTime := Some(now);
    }

    method CheckOut(now: Instant)
      modifies this`checkOutTime
      ensures checkOutTime == Some(now)
    {
      checkOutTime := Some(now);
    }

    /** Records the feedback; afterwards no further feedback is accepted. */
    method SubmitFeedback(rating: Option<Int32>, comment: Option<string>)
      modifies this`rating, this`feedbackComment, this`feedbackSubmitted
      ensures this.rating == rating && feedbackComment == comment && feedbackSubmitted == Some(true)
      ensures attended.Some? ==> !CanSubmitFeedback()
    {
      this.rating := rating;
      feedbackComment := comment;
      feedbackSubmitted := Some(true);
    }

    method IssueCertificate(now: Instant)
      modifies this`certificateIssued, this`certificateIssueDate
      ensures certificateIssued == Some(true) && certificateIssueDate == Some(now)
    {
      certificateIssued := Some(true);
      certificateIssueDate := Some(now);
    }

    /**
     * The pre-persist callback. `millis` and `random` stand for the clock's
     * milliseconds and the random draw the code generator uses.
     */
    method OnCreate(now: Instant, millis: nat, random: nat)
      requires random < 10000
      modifies this`createdAt, this`updatedAt, this`registrationDate, this`status, this`isActive, this`checkInCode
      ensures createdAt == if old(createdAt).None? then Some(now) else old(createdAt)
      ensures updatedAt == if old(updatedAt).None? then Some(now) else old(updatedAt)
      ensures registrationDate == if old(registrationDate).None? then Some(now) else old(registrationDate)
      ensures status == if old(status).None? then Some(Pending) else old(status)
      ensures isActive == if old(isActive).None? then Some(true) else old(isActive)
      ensures checkInCode == if IsBlank(old(checkInCode)) then Some(CheckInCode(millis, random)) else old(checkInCode)
      ensures !IsBlank(checkInCode)
    {
      FillDefaults(now);
      FillCode(millis, random);
    }

    /** The null-filling steps of the pre-persist callback. */
    method FillDefaults(now: Instant)
      modifies this`createdAt, this`updatedAt, this`registrationDate, this`status, this`isActive
      ensures createdAt == if old(createdAt).None? then Some(now) else old(createdAt)
      ensures updatedAt == if old(updatedAt).None? then Some(now) else old(updatedAt)
      ensures registrationDate == if old(registrationDate).None? then Some(now) else old(registrationDate)
      ensures status == if old(status).None? then Some(Pending) else old(status)
      ensures isActive == if old(isActive).None? then Some(true) else old(isActive)
    {
      if createdAt.None? {
        createdAt := Some(now);
      }
      if updatedAt.None? {
        updatedAt := Some(now);
      }
      if registrationDate.None? {
        registrationDate := Some(now);
      }
      if status.None? {
        status := Some(Pending);
      }
      if isActive.None? {
        isActive := Some(true);
      }
    }

    /** The code step of the pre-persist callback: a blank code is generated. */
    method FillCode(millis: nat, random: nat)
      requires random < 10000
      modifies this`checkInCode
      ensures checkInCode == if IsBlank(old(checkInCode)) then Some(CheckInCode(millis, random)) else old(checkInCode)
      ensures !IsBlank(checkInCode)
    {
      if IsBlank(checkInCode) {
        CheckInCodeShape(millis, random);
        checkInCode := Some(CheckInCode(millis, random));
      }
    }

    /** The pre-update callback: stamps the time and fills the dates a status change implies. */
    method OnUpdate(now: Instant)
      modifies this`updatedAt, this`approvalDate, this`cancellationDate, this`attendanceDate
      ensures updatedAt == Some(now)
      ensures approvalDate == if status == Some(Approved) && old(approvalDate).None? then Some(now) else old(approvalDate)
      ensures cancellationDate == if status == Some(Cancelled) && old(cancellationDate).None? then Some(now) else old(cancellationDate)
      ensures attendanceDate == if attended == Some(true) && old(attendanceDate).None? then Some(now) else old(attendanceDate)
    {
      updatedAt := Some(now);
      if status == Some(Approved) && approvalDate.None? {
        approvalDate := Some(now);
      }
      if status == Some(Cancelled) && cancellationDate.None? {
        cancellationDate := Some(now);
      }
      if attended == Some(true) && attendanceDate.None? {
        attendanceDate := Some(now);
      }
    }
  }

  /** `canCancel()` is exactly "the status is an active one". */
  lemma CanCancelIffActiveStatus(s: EventSubscription)
    ensures s.CanCancel() <==> s.status.Some? && s.status.value.IsActive()
  {
  }

  /**
   * A subscription that may check in may also still be cancelled, and its
   * event is active, before its deadline and below its capacity.
   */
  lemma CheckInMeansCancellableOnOpenEvent(s: EventSubscription, now: Instant)
    requires s.CheckInDefined() && s.CanCheckIn(now)
    ensures s.CanCancel() && s.status.value.IsActive()
    ensures s.event != null && s.event.status == Some(Events.Active) && s.event.IsRegistrationOpen(now)
    ensures s.event.maxParticipants.Some? ==>
              s.event.currentParticipants.Some? && s.event.currentParticipants.value < s.event.maxParticipants.value
  {
  }

  /** A full event blocks the check-in of its approved subscribers. */
  lemma FullEventBlocksCheckIn(s: EventSubscription, now: Instant)
    requires s.CheckInDefined()
    requires s.event != null && s.event.maxParticipants.Some? && s.event.currentParticipants.Some?
    requires s.event.IsFull()
    ensures !s.CanCheckIn(now)
  {
  }

  /** Once the registration deadline has passed, check-in is closed. */
  lemma ClosedRegistrationBlocksCheckIn(s: EventSubscription, now: Instant)
    requires s.CheckInDefined()
    requires s.event != null && !s.event.IsRegistrationOpen(now)
    ensures !s.CanCheckIn(now)
  {
  }

  /** Completed statuses can no longer be cancelled. */
  lemma CompletedCannotCancel(s: EventSubscription)
    requires s.status.Some? && s.status.value.IsCompleted()
    ensures !s.CanCancel()
  {
  }
}
