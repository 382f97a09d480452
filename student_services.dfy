/**
 * The student service over an abstract student store: one profile per user,
 * the student-code check, partial updates, the soft delete, status changes,
 * graduation and the derived years-until-graduation figure.
 */
module StudentServices {

  import opened Wrappers
  import opened JavaInt
  import opened JavaTime
  import opened JavaString
  import opened Students

  datatype StudentError =
    | StudentNotFound
    | UserHasProfile
    | CodeTaken
    | MissingName
    | IdentityTaken
    | NotEligible
    | NullValue

  const Pending: string := "PENDING"

  /** A partial update: every absent field leaves the student's value unchanged. */
  datatype StudentUpdate = StudentUpdate(
    firstName: Option<string>,
    lastName: Option<string>,
    dateOfBirth: Option<Day>,
    details: map<Detail, string>,
    schoolId: Option<int>,
    program: Option<string>,
    major: Option<string>,
    enrollmentYear: Option<Int32>,
    expectedGraduationYear: Option<Int32>,
    communityId: Option<int>,
    clubId: Option<int>,
    advisorId: Option<int>,
    isInternational: Option<bool>,
    isActive: Option<bool>,
    isGraduated: Option<bool>)

  /** `o` if it is present, otherwise the current value. */
  function Patched<T>(o: Option<T>, current: Option<T>): (r: Option<T>)
    ensures o.Some? ==> r == o
    ensures o.None? ==> r == current
  {
    if o.Some? then o else current
  }

  /**
   * The profile columns after `updateStudent`'s assignments: every present
   * field of `u` replaces the old value, and the free-text attributes of `u`
   * overwrite the old ones except the e-mail column, which it never copies.
   */
  function PatchedProfile(p: Profile, u: StudentUpdate): (r: Profile)
    ensures Email in r.details <==> Email in p.details
    ensures Email in r.details ==> r.details[Email] == p.details[Email]
    ensures forall d :: d in u.details && d != Email ==> d in r.details && r.details[d] == u.details[d]
    ensures forall d :: d in p.details && d !in u.details ==> d in r.details && r.details[d] == p.details[d]
    ensures r.details.Keys == p.details.Keys + (u.details.Keys - {Email})
  {
    Profile(
      Patched(u.dateOfBirth, p.dateOfBirth),
      p.details + (u.details - {Email}),
      Patched(u.schoolId, p.schoolId),
      Patched(u.program, p.program),
      Patched(u.major, p.major),
      Patched(u.enrollmentYear, p.enrollmentYear),
      Patched(u.expectedGraduationYear, p.expectedGraduationYear),
      Patched(u.communityId, p.communityId),
      Patched(u.clubId, p.clubId),
      Patched(u.advisorId, p.advisorId))
  }

  /** Sending the same partial update twice leaves the profile as sending it once. */
  lemma PatchedProfileIdempotent(p: Profile, u: StudentUpdate)
    ensures PatchedProfile(PatchedProfile(p, u), u) == PatchedProfile(p, u)
  {
  }

  /** An update with no field present leaves the profile as it was. */
  lemma EmptyUpdateKeepsProfile(p: Profile, u: StudentUpdate)
    requires u.dateOfBirth.None? && u.details == map[] && u.schoolId.None? && u.program.None? && u.major.None?
    requires u.enrollmentYear.None? && u.expectedGraduationYear.None?
    requires u.communityId.None? && u.clubId.None? && u.advisorId.None?
    ensures PatchedProfile(p, u) == p
  {
  }

  /** What `isStudentActive` answers for a student. */
  predicate StudentIsActive(s: Student)
    reads s
  {
    s.isActive == Some(true) && s.enrollmentStatus == Some(Active)
  }

  /**
   * The derived `yearsUntilGraduation`: absent without an expected year,
   * otherwise `max(0, expected - currentYear)` on Java ints.
   */
  function YearsUntilGraduation(expected: Option<Int32>, currentYear: Int32): (r: Option<Int32>)
    ensures r.None? <==> expected.None?
    ensures r.Some? ==> 0 <= r.value
    ensures r.Some? && MinInt <= expected.value - currentYear <= MaxInt ==>
              r.value == if expected.value >= currentYear then expected.value - currentYear else 0
  {
    if expected.None? then None
    else
      var d := Sub(expected.value, currentYear);
      Some(if d < 0 then 0 else d)
  }

  /**
   * Barring overflow, no years remain exactly when the expected year has come,
   * which is the year condition of graduation eligibility.
   */
  lemma NoYearsLeftMeansYearReached(expected: Int32, currentYear: Int32)
    requires MinInt <= expected - currentYear <= MaxInt
    ensures YearsUntilGraduation(Some(expected), currentYear) == Some(0) <==> currentYear >= expected
  {
  }

  /**
   * Whenever the Java subtraction overflows, the figure differs from
   * `max(0, expected - currentYear)`: a far-future year reads as 0 years, a
   * far-past one as a positive number of years.
   */
  lemma OverflowMisreportsYears(expected: Int32, currentYear: Int32)
    requires !(MinInt <= expected - currentYear <= MaxInt)
    ensures YearsUntilGraduation(Some(expected), currentYear).value
              != (if expected >= currentYear then expected - currentYear else 0)
    ensures expected > currentYear ==> YearsUntilGraduation(Some(expected), currentYear) == Some(0)
  {
  }

  /** Both profiles hold the attribute `d`, with the same value. */
  predicate SameDetail(p: Profile, q: Profile, d: Detail)
  {
    d in p.details && d in q.details && p.details[d] == q.details[d]
  }

  /** Two profiles hold the same id-card number or the same passport number, which the unique columns refuse. */
  predicate SharesIdentity(p: Profile, q: Profile)
  {
    SameDetail(p, q, IdCardNumber) || SameDetail(p, q, PassportNumber)
  }

  /** What every stored student has: a user id, both name parts and both flags. */
  predicate Stored(s: Student)
    reads s
  {
    s.userId.Some? && s.firstName.Some? && s.lastName.Some? && s.isActive.Some? && s.isGraduated.Some?
  }

  /**
   * `s` is the profile `createStudent` saves for `req`: the request's values,
   * both sync statuses pending, an active enrolment with zero credits, a
   * non-blank code (the requested one unless it is blank) and the full name
   * built from the name parts.
   */
  predicate CreatedFrom(s: Student, req: CreateStudentRequest)
    reads s
  {
    s.userId == Some(req.userId) && s.firstName == req.firstName && s.lastName == req.lastName
    && s.profile == req.profile
    && s.userSyncStatus == Some(Pending) && s.advisorSyncStatus == Some(Pending)
    && s.enrollmentStatus == Some(Active) && s.isActive == Some(true) && s.isGraduated == Some(false)
    && s.isInternational == Some(req.isInternational.GetOr(false))
    && s.totalCredits == Some(0) && s.completedCredits == Some(0)
    && !IsBlank(s.studentCode)
    && (!IsBlank(req.studentCode) ==> s.studentCode == req.studentCode)
    && s.fullName == FullNameOf(req.firstName, req.lastName)
    && StudentIsActive(s)
  }

  /** The mapped entity with its sync statuses, after the pre-persist callback. */
  method NewProfile(req: CreateStudentRequest, now: Instant, currentYear: Int32, random: nat) returns (s: Student)
    requires random < 100000 && req.firstName.Some? && req.lastName.Some?
    ensures fresh(s) && CreatedFrom(s, req) && Stored(s)
  {
    s := new Student.Persisted(req, Pending, now, currentYear, random);
    CodeAfterCreateIsSet(req.studentCode, req.profile.enrollmentYear.GetOr(currentYear), req.profile.schoolId, random);
  }

  /**
   * `updateStudent`'s effect on `s`: every present field of `u` replaces the
   * old value (except the e-mail column, which it never copies), a new
   * advisor is marked for synchronisation, the full name is rebuilt when a
   * name part is given, and nothing else changes.
   */
  twostate predicate UpdateApplied(s: Student, u: StudentUpdate)
    reads s
  {
    s.firstName == Patched(u.firstName, old(s.firstName)) && s.lastName == Patched(u.lastName, old(s.lastName))
    && s.fullName == (if u.firstName.Some? || u.lastName.Some? then
                        Some(s.firstName.GetOr("null") + " " + s.lastName.GetOr("null"))
                      else old(s.fullName))
    && s.profile == PatchedProfile(old(s.profile), u)
    && s.advisorSyncStatus == (if u.advisorId.Some? then Some(Pending) else old(s.advisorSyncStatus))
    && s.isInternational == Patched(u.isInternational, old(s.isInternational))
    && s.isActive == Patched(u.isActive, old(s.isActive))
    && s.isGraduated == Patched(u.isGraduated, old(s.isGraduated))
    && s.userId == old(s.userId) && s.studentCode == old(s.studentCode)
    && s.enrollmentStatus == old(s.enrollmentStatus) && s.graduationDate == old(s.graduationDate)
    && s.completedCredits == old(s.completedCredits) && s.totalCredits == old(s.totalCredits)
    && s.userSyncStatus == old(s.userSyncStatus)
    && s.createdAt == old(s.createdAt) && s.updatedAt == old(s.updatedAt)
  }

  /** The whole run of assignments of `updateStudent`. */
  method ApplyUpdate(s: Student, u: StudentUpdate)
    modifies s
    ensures UpdateApplied(s, u)
    ensures old(Stored(s)) ==> Stored(s)
  {
    UpdateNames(s, u);
    UpdateProfileAndFlags(s, u);
  }

  /** The name assignments of `updateStudent`, and the full name rebuilt from them. */
  method UpdateNames(s: Student, u: StudentUpdate)
    modifies s`firstName, s`lastName, s`fullName
    ensures s.firstName == Patched(u.firstName, old(s.firstName)) && s.lastName == Patched(u.lastName, old(s.lastName))
    ensures s.fullName == (if u.firstName.Some? || u.lastName.Some? then
                             Some(s.firstName.GetOr("null") + " " + s.lastName.GetOr("null"))
                           else old(s.fullName))
  {
    s.firstName := Patched(u.firstName, s.firstName);
    s.lastName := Patched(u.lastName, s.lastName);
    if u.firstName.Some? || u.lastName.Some? {
      s.fullName := Some(s.firstName.GetOr("null") + " " + s.lastName.GetOr("null"));
    }
  }

  /** The profile and flag assignments of `updateStudent`; a new advisor is marked for synchronisation. */
  method UpdateProfileAndFlags(s: Student, u: StudentUpdate)
    modifies s`profile, s`advisorSyncStatus, s`isInternational, s`isActive, s`isGraduated
    ensures s.profile == PatchedProfile(old(s.profile), u)
    ensures s.advisorSyncStatus == (if u.advisorId.Some? then Some(Pending) else old(s.advisorSyncStatus))
    ensures s.isInternational == Patched(u.isInternational, old(s.isInternational))
    ensures s.isActive == Patched(u.isActive, old(s.isActive))
    ensures s.isGraduated == Patched(u.isGraduated, old(s.isGraduated))
  {
    s.profile := PatchedProfile(s.profile, u);
    if u.advisorId.Some? {
      s.advisorSyncStatus := Some(Pending);
    }
    s.isInternational := Patched(u.isInternational, s.isInternational);
    s.isActive := Patched(u.isActive, s.isActive);
    s.isGraduated := Patched(u.isGraduated, s.isGraduated);
  }

  class StudentService {
    var students: map<int, Student>
    var nextId: int

    /**
     * Ids are below the next one handed out; every student has a user id, no
     * two share one, both name parts are present and both flags are set, and
     * no two hold the same id-card or passport number.
     */
    ghost predicate Valid()
      reads this, students.Values
    {
      0 <= nextId
      && (forall id :: id in students ==>
            0 <= id < nextId && Stored(students[id]))
      && UserIdsDistinct() && IdentitiesDistinct()
    }

    /** No two students share a user id. */
    ghost predicate UserIdsDistinct()
      reads this, students.Values`userId
    {
      forall i, j :: i in students && j in students && i != j ==> students[i].userId != students[j].userId
    }

    /** No two students share an id-card or passport number. */
    ghost predicate IdentitiesDistinct()
      reads this, students.Values`profile
    {
      forall i, j :: i in students && j in students && i != j ==>
        !SharesIdentity(students[i].profile, students[j].profile)
    }

    /** The student stored under `id`, if any, as a frame. */
    function Row(id: int): set<Student>
      reads this
    {
      if id in students then {students[id]} else {}
    }

    /** `existsByUserId(userId)`. */
    predicate UserExists(userId: int)
      reads this, students.Values
    {
      exists id :: id in students && students[id].userId == Some(userId)
    }

    /** A student stored under one of `ids` holds the id-card or passport number of `p`. */
    predicate IdentityHeld(p: Profile, ids: set<int>)
      reads this, students.Values
    {
      exists id :: id in ids && id in students && SharesIdentity(students[id].profile, p)
    }

    /** `existsByStudentCode(code)`. */
    predicate CodeExists(code: string)
      reads this, students.Values
    {
      exists id :: id in students && students[id].studentCode == Some(code)
    }

    constructor ()
      ensures Valid() && students == map[] && nextId == 1
    {
      students := map[];
      nextId := 1;
    }

    /**
     * Whether creating from `req` must be refused, and with which error: the
     * service's user and code checks, then the refusals of the table itself,
     * a null name part or an id-card or passport number already stored.
     */
    function CreateConflict(req: CreateStudentRequest): (r: Option<StudentError>)
      reads this, students.Values
      ensures r == Some(UserHasProfile) <==> UserExists(req.userId)
      ensures r == Some(CodeTaken) <==> !UserExists(req.userId) && req.studentCode.Some? && CodeExists(req.studentCode.value)
      ensures r == Some(IdentityTaken) <==>
                !UserExists(req.userId) && !(req.studentCode.Some? && CodeExists(req.studentCode.value))
                && req.firstName.Some? && req.lastName.Some? && IdentityHeld(req.profile, students.Keys)
      ensures r.None? <==>
                !UserExists(req.userId) && !(req.studentCode.Some? && CodeExists(req.studentCode.value))
                && req.firstName.Some? && req.lastName.Some? && !IdentityHeld(req.profile, students.Keys)
    {
      if UserExists(req.userId) then Some(UserHasProfile)
      else if req.studentCode.Some? && CodeExists(req.studentCode.value) then Some(CodeTaken)
      else if req.firstName.None? || req.lastName.None? then Some(MissingName)
      else if IdentityHeld(req.profile, students.Keys) then Some(IdentityTaken)
      else None
    }

    method CreateStudent(req: CreateStudentRequest, now: Instant, currentYear: Int32, random: nat)
      returns (res: Result<Student, StudentError>)
      requires Valid() && random < 100000
      modifies this
      ensures Valid()
      ensures old(CreateConflict(req)).Some? ==>
                res == Err(old(CreateConflict(req)).value) && students == old(students) && nextId == old(nextId)
      ensures old(CreateConflict(req)).None? ==>
                res.Ok? && fresh(res.value) && students == old(students)[old(nextId) := res.value]
                && nextId == old(nextId) + 1
      ensures res.Ok? ==> CreatedFrom(res.value, req)
    {
      var conflict := CreateConflict(req);
      if conflict.Some? {
        return Err(conflict.value);
      }
      var s := NewProfile(req, now, currentYear, random);
      students := students[nextId := s];
      nextId := nextId + 1;
      return Ok(s);
    }

    method UpdateStudent(id: int, u: StudentUpdate) returns (res: Result<Student, StudentError>)
      requires Valid()
      modifies if id in students then {students[id]} else {}
      ensures Valid()
      ensures id !in students ==> res == Err(StudentNotFound)
      ensures id in students && old(IdentityHeld(PatchedProfile(students[id].profile, u), students.Keys - {id})) ==>
                res == Err(IdentityTaken) && unchanged(students[id])
      ensures id in students && !old(IdentityHeld(PatchedProfile(students[id].profile, u), students.Keys - {id})) ==>
                res == Ok(students[id]) && UpdateApplied(students[id], u)
    {
      if id !in students {
        return Err(StudentNotFound);
      }
      var s := students[id];
      if IdentityHeld(PatchedProfile(s.profile, u), students.Keys - {id}) {
        return Err(IdentityTaken);
      }
      assert forall k :: k in students && k != id ==> students[k] != s;
      ApplyUpdate(s, u);
      assert forall k :: k in students && k != id ==>
        !SharesIdentity(students[k].profile, s.profile) && !SharesIdentity(s.profile, students[k].profile);
      return Ok(s);
    }

    /** The soft delete: the student stays stored, inactive. */
    method DeleteStudent(id: int) returns (res: Result<(), StudentError>)
      requires Valid()
      modifies Row(id)`enrollmentStatus, Row(id)`isActive
      ensures Valid()
      ensures id !in students ==> res == Err(StudentNotFound)
      ensures id in students ==>
                res == Ok(()) && students[id].enrollmentStatus == Some(Inactive) && students[id].isActive == Some(false)
                && !StudentIsActive(students[id])
    {
      if id !in students {
        return Err(StudentNotFound);
      }
      var s := students[id];
      assert forall k :: k in students && k != id ==> students[k] != s;
      s.Deactivate();
      s.enrollmentStatus := Some(Inactive);
      return Ok(());
    }

    method ChangeEnrollmentStatus(id: int, status: Option<EnrollmentStatus>) returns (res: Result<Student, StudentError>)
      requires Valid()
      modifies Row(id)`enrollmentStatus, Row(id)`isActive
      ensures Valid()
      ensures id !in students ==> res == Err(StudentNotFound)
      ensures id in students ==>
                res == Ok(students[id]) && students[id].enrollmentStatus == status
                && students[id].isActive == Some(status == Some(Active))
                && (StudentIsActive(students[id]) <==> status == Some(Active))
    {
      if id !in students {
        return Err(StudentNotFound);
      }
      var s := students[id];
      s.enrollmentStatus := status;
      s.isActive := Some(status == Some(Active));
      return Ok(s);
    }

    method GraduateStudent(id: int, currentYear: int, today: Day) returns (res: Result<Student, StudentError>)
      requires Valid()
      modifies Row(id)`isGraduated, Row(id)`graduationDate, Row(id)`enrollmentStatus
      ensures Valid()
      ensures id !in students ==> res == Err(StudentNotFound)
      ensures id in students && !old(students[id].EligibilityDefined(currentYear)) ==>
                res == Err(NullValue) && unchanged(students[id])
      ensures id in students && old(students[id].EligibilityDefined(currentYear))
              && !old(students[id].IsEligibleForGraduation(currentYear)) ==>
                res == Err(NotEligible) && unchanged(students[id])
      ensures res.Ok? ==>
                id in students && res.value == students[id]
                && old(students[id].EligibilityDefined(currentYear)) && old(students[id].IsEligibleForGraduation(currentYear))
                && students[id].enrollmentStatus == Some(Graduated) && students[id].isGraduated == Some(true)
                && students[id].graduationDate == Some(today)
                && !StudentIsActive(students[id])
      ensures res.Ok? <==>
                id in students && old(students[id].EligibilityDefined(currentYear))
                && old(students[id].IsEligibleForGraduation(currentYear))
    {
      if id !in students {
        return Err(StudentNotFound);
      }
      var s := students[id];
      if !s.EligibilityDefined(currentYear) {
        return Err(NullValue);
      }
      if !s.IsEligibleForGraduation(currentYear) {
        return Err(NotEligible);
      }
      s.Graduate(today);
      return Ok(s);
    }

    method UpdateProgram(id: int, program: Option<string>, major: Option<string>) returns (res: Result<Student, StudentError>)
      requires Valid()
      modifies Row(id)`profile
      ensures Valid()
      ensures id !in students ==> res == Err(StudentNotFound)
      ensures id in students ==>
                res == Ok(students[id])
                && students[id].profile == old(students[id].profile).(program := Patched(program, old(students[id].profile.program)),
                                                                      major := Patched(major, old(students[id].profile.major)))
                && students[id].userId == old(students[id].userId)
    {
      if id !in students {
        return Err(StudentNotFound);
      }
      var s := students[id];
      assert forall k :: k in students && k != id ==> students[k] != s;
      s.profile := s.profile.(program := Patched(program, s.profile.program), major := Patched(major, s.profile.major));
      assert forall k :: k in students && k != id ==>
        !SharesIdentity(students[k].profile, s.profile) && !SharesIdentity(s.profile, students[k].profile);
      return Ok(s);
    }

    method IsStudentActive(id: int) returns (res: Result<bool, StudentError>)
      requires Valid()
      ensures id !in students ==> res == Err(StudentNotFound)
      ensures id in students ==> res == Ok(StudentIsActive(students[id]))
    {
      if id !in students {
        return Err(StudentNotFound);
      }
      var s := students[id];
      return Ok(s.isActive.value && s.enrollmentStatus == Some(Active));
    }
  }
}
