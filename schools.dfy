/**
 * The school entity: operational / accreditation / admission predicates, the
 * student and teacher counters, and the status transitions.
 */
module Schools {

  import opened Wrappers
  import opened JavaInt
  import opened JavaTime
  import opened JavaString
  import Slugs
  import Counters

  datatype SchoolStatus =
    | Active
    | Inactive
    | Suspended
    | PendingVerification
    | Closed
    | Merged
    | Accredited
    | NonAccredited

  datatype SchoolType =
    | University | College | HighSchool | MiddleSchool | ElementarySchool | Vocational
    | LanguageSchool | Technical | Business | Medical | Law | Art | Music | Online
    | International | Private | Public | K12 | Academy

  /** The accreditation value that counts as accredited. */
  const AccreditedLabel: string := "ACCREDITED"

  /** A school row, restricted to the columns the entity's own logic touches. */
  class School {
    var name: Option<string>
    var slug: Option<string>
    var schoolType: Option<SchoolType>
    var status: Option<SchoolStatus>
    var totalStudents: Option<Int32>
    var totalTeachers: Option<Int32>
    var isActive: Option<bool>
    var isFeatured: Option<bool>
    var verified: Option<bool>
    var verificationDate: Option<Instant>
    var accreditationStatus: Option<string>
    var accreditationExpiryDate: Option<Instant>
    var createdAt: Option<Instant>
    var updatedAt: Option<Instant>

    /** The no-argument constructor with the field initialisers. */
    constructor ()
      ensures name.None? && slug.None? && schoolType == Some(University) && status == Some(Active)
      ensures totalStudents == Some(0) && totalTeachers == Some(0)
      ensures isActive == Some(true) && isFeatured == Some(false) && verified == Some(false)
      ensures verificationDate.None? && accreditationStatus.None? && accreditationExpiryDate.None?
      ensures createdAt.None? && updatedAt.None?
    {
      name := None;
      slug := None;
      schoolType := Some(University);
      status := Some(Active);
      totalStudents := Some(0);
      totalTeachers := Some(0);
      isActive := Some(true);
      isFeatured := Some(false);
      verified := Some(false);
      verificationDate := None;
      accreditationStatus := None;
      accreditationExpiryDate := None;
      createdAt := None;
      updatedAt := None;
    }

    /** ACTIVE and flagged active; the flag is unboxed once the status matches. */
    predicate IsOperational()
      reads this
      requires status == Some(Active) ==> isActive.Some?
    {
      status == Some(Active) && isActive.value
    }

    /** Labelled ACCREDITED, with no expiry or an expiry strictly after `now`. */
    predicate IsAccredited(now: Instant)
      reads this
    {
      accreditationStatus == Some(AccreditedLabel)
      && (accreditationExpiryDate.None? || accreditationExpiryDate.value > now)
    }

    predicate CanAdmitStudents(now: Instant)
      reads this
      requires status == Some(Active) ==> isActive.Some?
    {
      IsOperational() && IsAccredited(now)
    }

    method IncrementStudentCount()
      modifies this`totalStudents
      ensures totalStudents == Some(Counters.Incremented(old(totalStudents)))
    {
      if totalStudents.None? {
        totalStudents := Some(0);
      }
      totalStudents := Some(Add(totalStudents.value, 1));
    }

    method DecrementStudentCount()
      modifies this`totalStudents
      ensures totalStudents == Some(Counters.Decremented(old(totalStudents)))
    {
      if totalStudents.None? || totalStudents.value <= 0 {
        totalStudents := Some(0);
      } else {
        totalStudents := Some(totalStudents.value - 1);
      }
    }

    method IncrementTeacherCount()
      modifies this`totalTeachers
      ensures totalTeachers == Some(Counters.Incremented(old(totalTeachers)))
    {
      if totalTeachers.None? {
        totalTeachers := Some(0);
      }
      totalTeachers := Some(Add(totalTeachers.value, 1));
    }

    method DecrementTeacherCount()
      modifies this`totalTeachers
      ensures totalTeachers == Some(Counters.Decremented(old(totalTeachers)))
    {
      if totalTeachers.None? || totalTeachers.value <= 0 {
        totalTeachers := Some(0);
      } else {
        totalTeachers := Some(totalTeachers.value - 1);
      }
    }

    method Verify(now: Instant)
      modifies this`verified, this`verificationDate
      ensures verified == Some(true) && verificationDate == Some(now)
    {
      verified := Some(true);
      verificationDate := Some(now);
    }

    method Suspend()
      modifies this`status, this`isActive
      ensures status == Some(Suspended) && isActive == Some(false)
      ensures !IsOperational() && forall now :: !CanAdmitStudents(now)
    {
      status := Some(Suspended);
      isActive := Some(false);
    }

    method Activate()
      modifies this`status, this`isActive
      ensures status == Some(Active) && isActive == Some(true)
      ensures IsOperational() && forall now :: CanAdmitStudents(now) <==> IsAccredited(now)
    {
      status := Some(Active);
      isActive := Some(true);
    }

    method Deactivate()
      modifies this`status, this`isActive
      ensures status == Some(Inactive) && isActive == Some(false)
      ensures !IsOperational() && forall now :: !CanAdmitStudents(now)
    {
      status := Some(Inactive);
      isActive := Some(false);
    }

    /** The pre-persist callback: fills the defaults the caller left null. */
    method OnCreate(now: Instant)
      modifies this`createdAt, this`updatedAt, this`status, this`schoolType, this`isActive,
               this`isFeatured, this`verified, this`slug
      ensures createdAt == if old(createdAt).None? then Some(now) else old(createdAt)
      ensures updatedAt == if old(updatedAt).None? then Some(now) else old(updatedAt)
      ensures status == if old(status).None? then Some(Active) else old(status)
      ensures old(schoolType).None? ==> schoolType == Some(University)
      ensures old(schoolType).Some? ==> schoolType == old(schoolType)
      ensures isActive == if old(isActive).None? then Some(true) else old(isActive)
      ensures isFeatured == if old(isFeatured).None? then Some(false) else old(isFeatured)
      ensures verified == if old(verified).None? then Some(false) else old(verified)
      ensures slug == if IsBlank(old(slug)) then Some(Slugs.GenerateSlug(name)) else old(slug)
      ensures status == Some(Active) ==> isActive.Some?
    {
      FillDefaults(now);
      FillSlug();
    }

    /** The null-filling steps of the pre-persist callback. */
    method FillDefaults(now: Instant)
      modifies this`createdAt, this`updatedAt, this`status, this`schoolType, this`isActive,
               this`isFeatured, this`verified
      ensures createdAt == if old(createdAt).None? then Some(now) else old(createdAt)
      ensures updatedAt == if old(updatedAt).None? then Some(now) else old(updatedAt)
      ensures status == if old(status).None? then Some(Active) else old(status)
      ensures old(schoolType).None? ==> schoolType == Some(University)
      ensures old(schoolType).Some? ==> schoolType == old(schoolType)
      ensures isActive == if old(isActive).None? then Some(true) else old(isActive)
      ensures isFeatured == if old(isFeatured).None? then Some(false) else old(isFeatured)
      ensures verified == if old(verified).None? then Some(false) else old(verified)
    {
      FillTimesAndStatus(now);
      FillType();
      FillFlags();
    }

    /** The timestamp and status steps of the pre-persist callback. */
    method FillTimesAndStatus(now: Instant)
      modifies this`createdAt, this`updatedAt, this`status
      ensures createdAt == if old(createdAt).None? then Some(now) else old(createdAt)
      ensures updatedAt == if old(updatedAt).None? then Some(now) else old(updatedAt)
      ensures status == if old(status).None? then Some(Active) else old(status)
    {
      createdAt := if createdAt.None? then Some(now) else createdAt;
      updatedAt := if updatedAt.None? then Some(now) else updatedAt;
      status := if status.None? then Some(Active) else status;
    }

    /** The flag steps of the pre-persist callback. */
    method FillFlags()
      modifies this`isActive, this`isFeatured, this`verified
      ensures isActive == if old(isActive).None? then Some(true) else old(isActive)
      ensures isFeatured == if old(isFeatured).None? then Some(false) else old(isFeatured)
      ensures verified == if old(verified).None? then Some(false) else old(verified)
    {
      isActive := if isActive.None? then Some(true) else isActive;
      isFeatured := if isFeatured.None? then Some(false) else isFeatured;
      verified := if verified.None? then Some(false) else verified;
    }

    /** The type step of the pre-persist callback: a missing type becomes UNIVERSITY. */
    method FillType()
      modifies this`schoolType
      ensures old(schoolType).None? ==> schoolType == Some(University)
      ensures old(schoolType).Some? ==> schoolType == old(schoolType)
    {
      if schoolType.None? {
        schoolType := Some(University);
      }
    }

    /** The slug step of the pre-persist callback: a blank slug is derived from the name. */
    method FillSlug()
      modifies this`slug
      ensures slug == if IsBlank(old(slug)) then Some(Slugs.GenerateSlug(name)) else old(slug)
    {
      if IsBlank(slug) {
        slug := Some(Slugs.GenerateSlug(name));
      }
    }

    method OnUpdate(now: Instant)
      modifies this`updatedAt
      ensures updatedAt == Some(now)
    {
      updatedAt := Some(now);
    }
  }

  /**
   * The admission window is an initial stretch of time: a school that can
   * admit at `later` could admit at every earlier instant.
   */
  lemma AdmissionWindowIsPrefix(s: School, earlier: Instant, later: Instant)
    requires s.status == Some(Active) ==> s.isActive.Some?
    requires earlier <= later && s.CanAdmitStudents(later)
    ensures s.CanAdmitStudents(earlier)
  {
  }

  /** An accreditation expiring at `now` or earlier no longer counts. */
  lemma ExpiredAccreditationBlocksAdmission(s: School, now: Instant)
    requires s.status == Some(Active) ==> s.isActive.Some?
    requires s.accreditationExpiryDate.Some? && s.accreditationExpiryDate.value <= now
    ensures !s.IsAccredited(now) && !s.CanAdmitStudents(now)
  {
  }

  /** A school without an accreditation label is never accredited, whatever its expiry date. */
  lemma MissingLabelNotAccredited(s: School, now: Instant)
    requires s.accreditationStatus.None?
    ensures !s.IsAccredited(now)
  {
  }
}
