/**
 * The event entity: its registration gates (`isRegistrationOpen`, `isFull`,
 * `canRegister`), its participant counter and its persistence callbacks.
 */
module Events {

  import opened Wrappers
  import opened JavaInt
  import opened JavaTime
  import opened JavaString
  import Slugs
  import Counters

  datatype EventStatus = Draft | Active | Cancelled | Completed | Archived

  /**
   * An event row. Only the columns the entity's own logic reads or writes are
   * fields; every field is settable by callers, as the generated setters are.
   */
  class Event {
    var title: Option<string>
    var slug: Option<string>
    var status: Option<EventStatus>
    var maxParticipants: Option<Int32>
    var currentParticipants: Option<Int32>
    var registrationDeadline: Option<Instant>
    var createdAt: Option<Instant>
    var updatedAt: Option<Instant>

    /** The no-argument constructor with the field initialisers. */
    constructor ()
      ensures status == Some(Draft) && currentParticipants == Some(0)
      ensures title.None? && slug.None? && maxParticipants.None?
      ensures registrationDeadline.None? && createdAt.None? && updatedAt.None?
    {
      title := None;
      slug := None;
      status := Some(Draft);
      maxParticipants := None;
      currentParticipants := Some(0);
      registrationDeadline := None;
      createdAt := None;
      updatedAt := None;
    }

    /** Registration is open without a deadline, and strictly before it otherwise. */
    predicate IsRegistrationOpen(now: Instant)
      reads this
    {
      registrationDeadline.None? || now < registrationDeadline.value
    }

    /**
     * Full when a capacity is set and reached. Unboxing a null participant
     * count against a set capacity throws, hence the precondition.
     */
    predicate IsFull()
      reads this
      requires maxParticipants.Some? ==> currentParticipants.Some?
    {
      maxParticipants.Some? && currentParticipants.value >= maxParticipants.value
    }

    /** ACTIVE, not full and before the deadline. */
    predicate CanRegister(now: Instant)
      reads this
      requires status == Some(Active) && maxParticipants.Some? ==> currentParticipants.Some?
    {
      status == Some(Active) && !IsFull() && IsRegistrationOpen(now)
    }

    /** Adds one participant, treating a null count as zero; no capacity check. */
    method IncrementParticipants()
      modifies this`currentParticipants
      ensures currentParticipants == Some(Counters.Incremented(old(currentParticipants)))
    {
      if currentParticipants.None? {
        currentParticipants := Some(0);
      }
      currentParticipants := Some(Add(currentParticipants.value, 1));
    }

    /** Removes one participant, never going below zero. */
    method DecrementParticipants()
      modifies this`currentParticipants
      ensures currentParticipants == Some(Counters.Decremented(old(currentParticipants)))
    {
      if currentParticipants.None? || currentParticipants.value <= 0 {
        currentParticipants := Some(0);
      } else {
        currentParticipants := Some(currentParticipants.value - 1);
      }
    }

    /** The pre-persist callback: fills the defaults the caller left null. */
    method OnCreate(now: Instant)
      modifies this`createdAt, this`updatedAt, this`currentParticipants, this`status, this`slug
      ensures createdAt == if old(createdAt).None? then Some(now) else old(createdAt)
      ensures updatedAt == if old(updatedAt).None? then Some(now) else old(updatedAt)
      ensures currentParticipants == if old(currentParticipants).None? then Some(0) else old(currentParticipants)
      ensures status == if old(status).None? then Some(Draft) else old(status)
      ensures slug == if IsBlank(old(slug)) then Some(Slugs.GenerateSlug(title)) else old(slug)
      ensures slug.Some? && (old(slug).Some? || Slugs.IsSlug(slug.value))
    {
      if createdAt.None? {
        createdAt := Some(now);
      }
      if updatedAt.None? {
        updatedAt := Some(now);
      }
      if currentParticipants.None? {
        currentParticipants := Some(0);
      }
      if status.None? {
        status := Some(Draft);
      }
      if IsBlank(slug) {
        slug := Some(Slugs.GenerateSlug(title));
      }
    }

    /** The pre-update callback: stamps the modification time. */
    method OnUpdate(now: Instant)
      modifies this`updatedAt
      ensures updatedAt == Some(now)
    {
      updatedAt := Some(now);
    }
  }

  /** An event that is not ACTIVE never accepts a registration. */
  lemma OnlyActiveEventsRegister(e: Event, now: Instant)
    requires e.status != Some(Active)
    ensures !e.CanRegister(now)
  {
  }

  /** Without a capacity an event is never full. */
  lemma UncappedEventNeverFull(e: Event)
    requires e.maxParticipants.None?
    ensures !e.IsFull()
  {
  }

  /**
   * The capacity property is conditional: a caller that checks `canRegister()`
   * before `incrementParticipants()` keeps the count within the capacity.
   */
  lemma AdmissionStaysWithinCapacity(e: Event, now: Instant)
    requires e.status == Some(Active) && e.maxParticipants.Some? ==> e.currentParticipants.Some?
    requires e.CanRegister(now)
    ensures e.maxParticipants.Some? ==>
              Counters.Incremented(e.currentParticipants) == e.currentParticipants.value + 1 <= e.maxParticipants.value
  {
  }

  /** `incrementParticipants()` itself does not check capacity: on a full event it overshoots. */
  lemma IncrementIgnoresCapacity(e: Event)
    requires e.maxParticipants.Some? ==> e.currentParticipants.Some?
    requires e.IsFull() && e.currentParticipants.value < MaxInt
    ensures Counters.Incremented(e.currentParticipants) > e.maxParticipants.value
  {
  }

  /** Registration closes at the deadline instant itself. */
  lemma DeadlineIsExclusive(e: Event, now: Instant)
    requires e.registrationDeadline == Some(now)
    ensures !e.IsRegistrationOpen(now)
  {
  }
}
