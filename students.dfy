/**
 * The student entity: enrolment status and flags, graduation eligibility,
 * credit counting, the academic level, the generated student code and the
 * generated full name.
 */
module Students {

  import opened Wrappers
  import opened JavaInt
  import opened JavaTime
  import opened JavaString
  import Decimal

  datatype EnrollmentStatus = Active | Inactive | Suspended | Graduated | Withdrawn | OnLeave | Probation

  /** The free-text attributes that no rule of the entity or the service inspects. */
  datatype Detail =
    | Gender | Nationality | Citizenship | IdCardNumber | PassportNumber
    | Address | City | State | Country | PostalCode | PhoneNumber | EmergencyPhone
    | Email | PersonalEmail | Minor | ProfilePicture | ResumeUrl | LinkedinUrl | GithubUrl | PortfolioUrl
    | VisaStatus | FinancialAidStatus | ScholarshipName | Disabilities | SpecialNeeds | MedicalConditions
    | EmergencyContactName | EmergencyContactRelationship | EmergencyContactAddress | EmergencyContactEmail
    | Notes

  /**
   * The columns that only the mapper and `updateStudent` write: the date of
   * birth, the free-text attributes, the school, programme and major, the
   * enrolment and expected graduation years, and the community, club and
   * advisor ids. They are one value here; each is its own column in the table.
   */
  datatype Profile = Profile(
    dateOfBirth: Option<Day>,
    details: map<Detail, string>,
    schoolId: Option<int>,
    program: Option<string>,
    major: Option<string>,
    enrollmentYear: Option<Int32>,
    expectedGraduationYear: Option<Int32>,
    communityId: Option<int>,
    clubId: Option<int>,
    advisorId: Option<int>)

  datatype AcademicLevel = Freshman | Sophomore | Junior | Senior

  function Rank(l: AcademicLevel): nat
  {
    match l
    case Freshman => 0
    case Sophomore => 1
    case Junior => 2
    case Senior => 3
  }

  /** The level a number of completed credits earns; no credits recorded counts as a freshman. */
  function LevelFor(credits: Option<Int32>): (r: AcademicLevel)
    ensures credits.None? ==> r == Freshman
    ensures credits.Some? ==>
              (r == Senior <==> 90 <= credits.value)
              && (r == Junior <==> 60 <= credits.value < 90)
              && (r == Sophomore <==> 30 <= credits.value < 60)
              && (r == Freshman <==> credits.value < 30)
  {
    if credits.None? then Freshman
    else if credits.value >= 90 then Senior
    else if credits.value >= 60 then Junior
    else if credits.value >= 30 then Sophomore
    else Freshman
  }

  /** More completed credits never give a lower level. */
  lemma LevelMonotone(a: Int32, b: Int32)
    requires a <= b
    ensures Rank(LevelFor(Some(a))) <= Rank(LevelFor(Some(b)))
  {
  }

  /** The full name built from the two name parts, or null when both are null. */
  function FullNameOf(first: Option<string>, last: Option<string>): (r: Option<string>)
    ensures r.None? <==> first.None? && last.None?
    ensures first.None? && last.Some? ==> r == last
    ensures first.Some? && last.None? ==> r == first
    ensures first.Some? && last.Some? ==>
              |r.value| == |first.value| + 1 + |last.value|
              && StartsWith(r.value, first.value + " ") && EndsWith(r.value, " " + last.value)
  {
    if first.None? && last.None? then None
    else if first.None? then last
    else if last.None? then first
    else Some(first.value + " " + last.value)
  }

  /** `Integer.toString(n)`. */
  function IntText(n: int): (r: string)
  {
    if n < 0 then "-" + Decimal.ToDecimal(-n) else Decimal.ToDecimal(n)
  }

  /** `String.format("%0<width>d", n)`: the sign takes one of the padded places. */
  function SignedZeroPadded(n: int, width: nat): (r: string)
  {
    if n < 0 then "-" + Decimal.ZeroPadded(-n, if width == 0 then 0 else width - 1)
    else Decimal.ZeroPadded(n, width)
  }

  /** The generated code `YEAR-SCHOOL-RANDOM`, for a random draw below 100000. */
  function StudentCode(year: int, schoolId: Option<int>, random: nat): string
    requires random < 100000
  {
    IntText(year) + "-" + (if schoolId.Some? then SignedZeroPadded(schoolId.value, 3) else "000")
    + "-" + Decimal.ZeroPadded(random, 5)
  }

  /**
   * A generated code is never blank, and it ends with a dash and the five
   * digits of the random draw.
   */
  lemma StudentCodeTail(year: int, schoolId: Option<int>, random: nat)
    requires random < 100000
    ensures var c := StudentCode(year, schoolId, random);
      !IsBlank(Some(c)) && |c| >= 6 && c[|c| - 6] == '-'
      && Decimal.AllDigits(c[|c| - 5..]) && Decimal.ValueOf(c[|c| - 5..]) == random
  {
    StudentCodeVisible(year, schoolId, random);
    var p := Decimal.ZeroPadded(random, 5);
    FiveDigitDraw(random);
    var q := IntText(year) + "-" + (if schoolId.Some? then SignedZeroPadded(schoolId.value, 3) else "000") + "-";
    assert StudentCode(year, schoolId, random) == q + p;
    DashBeforeTail(q, p);
  }

  /** The random draw is rendered as exactly five digits that read back as the draw. */
  lemma FiveDigitDraw(random: nat)
    requires random < 100000
    ensures var p := Decimal.ZeroPadded(random, 5);
      |p| == 5 && Decimal.AllDigits(p) && Decimal.ValueOf(p) == random
  {
    assert Decimal.Pow10(5) == 100000;
    Decimal.ZeroPaddedMeans(random, 5);
  }

  /** Appending a tail to a piece ending in a dash leaves the dash just before the tail. */
  lemma DashBeforeTail(q: string, p: string)
    requires q != [] && q[|q| - 1] == '-'
    ensures var c := q + p; |c| >= |p| + 1 && c[|c| - |p| - 1] == '-' && c[|c| - |p|..] == p
  {
    var c := q + p;
    assert c[|q| - 1] == q[|q| - 1];
  }

  /** A generated code starts with the year's first character, so it does not trim to nothing. */
  lemma StudentCodeVisible(year: int, schoolId: Option<int>, random: nat)
    requires random < 100000
    ensures !IsBlank(Some(StudentCode(year, schoolId, random)))
  {
    var c := StudentCode(year, schoolId, random);
    var y := IntText(year);
    assert y != [] && c[0] == y[0];
    TrimKeepsVisibleStart(c);
  }

  /** The code the pre-persist callback leaves: the given one unless it is blank, else a generated one. */
  function CodeAfterCreate(code: Option<string>, year: int, schoolId: Option<int>, random: nat): Option<string>
    requires random < 100000
  {
    if IsBlank(code) then Some(StudentCode(year, schoolId, random)) else code
  }

  /** After the callback a student always has a code, and a code that was given is kept. */
  lemma CodeAfterCreateIsSet(code: Option<string>, year: int, schoolId: Option<int>, random: nat)
    requires random < 100000
    ensures var r := CodeAfterCreate(code, year, schoolId, random);
      !IsBlank(r) && (!IsBlank(code) ==> r == code)
  {
    if IsBlank(code) {
      StudentCodeVisible(year, schoolId, random);
    }
  }

  /**
   * For a non-negative year and school id the code splits at its dashes into
   * the year, the school id and the random draw, each read back exactly.
   */
  lemma StudentCodeRoundTrip(year: nat, schoolId: nat, random: nat)
    requires random < 100000
    ensures var ps := Pieces(StudentCode(year, Some(schoolId), random), '-');
      |ps| == 3
      && Decimal.AllDigits(ps[0]) && Decimal.AllDigits(ps[1]) && Decimal.AllDigits(ps[2])
      && Decimal.ValueOf(ps[0]) == year && Decimal.ValueOf(ps[1]) == schoolId
      && Decimal.ValueOf(ps[2]) == random
  {
    var y := Decimal.ToDecimal(year);
    var s := Decimal.ZeroPadded(schoolId, 3);
    var r := Decimal.ZeroPadded(random, 5);
    Decimal.ZeroPaddedMeans(schoolId, 3);
    Decimal.ZeroPaddedMeans(random, 5);
    Decimal.ValueOfToDecimal(year);
    DigitsHaveNoDash(y);
    DigitsHaveNoDash(s);
    DigitsHaveNoDash(r);
    assert StudentCode(year, Some(schoolId), random) == y + ['-'] + (s + ['-'] + r);
    PiecesOfConcat(y, '-', s + ['-'] + r);
    PiecesOfConcat(s, '-', r);
  }

  lemma DigitsHaveNoDash(s: string)
    requires Decimal.AllDigits(s)
    ensures '-' !in s
  {
  }

  /** The columns the pre-persist callback fills when they are null. */
  datatype Defaulted = Defaulted(
    createdAt: Option<Instant>, updatedAt: Option<Instant>, enrollmentStatus: Option<EnrollmentStatus>,
    isActive: Option<bool>, isGraduated: Option<bool>, isInternational: Option<bool>,
    totalCredits: Option<Int32>, completedCredits: Option<Int32>)

  /**
   * Each null column takes the callback's default (the clock for the
   * timestamps, active, not graduated, domestic, no credits); a set column is
   * kept.
   */
  function FillNulls(d: Defaulted, now: Instant): Defaulted
  {
    Defaulted(
      Some(d.createdAt.GetOr(now)), Some(d.updatedAt.GetOr(now)), Some(d.enrollmentStatus.GetOr(Active)),
      Some(d.isActive.GetOr(true)), Some(d.isGraduated.GetOr(false)), Some(d.isInternational.GetOr(false)),
      Some(d.totalCredits.GetOr(0)), Some(d.completedCredits.GetOr(0)))
  }

  /** No column is null after the callback, and a second run (at any time) changes nothing. */
  lemma FillNullsCompletes(d: Defaulted, now: Instant, later: Instant)
    ensures var r := FillNulls(d, now);
      && r.createdAt.Some? && r.updatedAt.Some? && r.enrollmentStatus.Some? && r.isActive.Some?
      && r.isGraduated.Some? && r.isInternational.Some? && r.totalCredits.Some? && r.completedCredits.Some?
      && FillNulls(r, later) == r
  {
  }

  /** The callback never overwrites a column that was set. */
  lemma FillNullsKeepsSet(d: Defaulted, now: Instant)
    ensures var r := FillNulls(d, now);
      && (d.createdAt.Some? ==> r.createdAt == d.createdAt)
      && (d.updatedAt.Some? ==> r.updatedAt == d.updatedAt)
      && (d.enrollmentStatus.Some? ==> r.enrollmentStatus == d.enrollmentStatus)
      && (d.isActive.Some? ==> r.isActive == d.isActive)
      && (d.isGraduated.Some? ==> r.isGraduated == d.isGraduated)
      && (d.isInternational.Some? ==> r.isInternational == d.isInternational)
      && (d.totalCredits.Some? ==> r.totalCredits == d.totalCredits)
      && (d.completedCredits.Some? ==> r.completedCredits == d.completedCredits)
  {
  }

  /** A creation request; the user id is required, everything else may be absent. */
  datatype CreateStudentRequest = CreateStudentRequest(
    userId: int,
    studentCode: Option<string>,
    firstName: Option<string>,
    lastName: Option<string>,
    profile: Profile,
    isInternational: Option<bool>)

  class Student {
    var userId: Option<int>
    var studentCode: Option<string>
    var firstName: Option<string>
    var lastName: Option<string>
    var fullName: Option<string>
    var profile: Profile
    var enrollmentStatus: Option<EnrollmentStatus>
    var totalCredits: Option<Int32>
    var completedCredits: Option<Int32>
    var isInternational: Option<bool>
    var isActive: Option<bool>
    var isGraduated: Option<bool>
    var graduationDate: Option<Day>
    var userSyncStatus: Option<string>
    var advisorSyncStatus: Option<string>
    var createdAt: Option<Instant>
    var updatedAt: Option<Instant>

    /** The no-argument constructor with the field initialisers. */
    constructor ()
      ensures enrollmentStatus == Some(Active) && totalCredits == Some(0) && completedCredits == Some(0)
      ensures isInternational == Some(false) && isActive == Some(true) && isGraduated == Some(false)
      ensures userId.None? && studentCode.None? && firstName.None? && lastName.None? && fullName.None?
      ensures profile == Profile(None, map[], None, None, None, None, None, None, None, None) && graduationDate.None?
      ensures userSyncStatus.None? && advisorSyncStatus.None? && createdAt.None? && updatedAt.None?
    {
      userId, studentCode, firstName, lastName, fullName := None, None, None, None, None;
      profile := Profile(None, map[], None, None, None, None, None, None, None, None);
      enrollmentStatus, totalCredits, completedCredits := Some(Active), Some(0), Some(0);
      isInternational, isActive, isGraduated, graduationDate := Some(false), Some(true), Some(false), None;
      userSyncStatus, advisorSyncStatus, createdAt, updatedAt := None, None, None, None;
    }

    /**
     * A profile as `createStudent` saves it: `modelMapper.map(dto, Student.class)`
     * over the initialisers, both sync statuses set to `syncStatus`, and then
     * the pre-persist callback (`OnCreate`) with the clock, the current year
     * and the random draw as inputs. The initialisers leave `OnCreate` only the
     * timestamps, the flag the request may null, the code and the full name to fill.
     */
    constructor Persisted(req: CreateStudentRequest, syncStatus: string, now: Instant, currentYear: Int32, random: nat)
      requires random < 100000
      ensures userId == Some(req.userId)
      ensures firstName == req.firstName && lastName == req.lastName
      ensures studentCode == CodeAfterCreate(req.studentCode, req.profile.enrollmentYear.GetOr(currentYear), req.profile.schoolId, random)
      ensures fullName == FullNameOf(req.firstName, req.lastName)
      ensures profile == req.profile
      ensures isInternational == Some(req.isInternational.GetOr(false))
      ensures enrollmentStatus == Some(Active) && isActive == Some(true) && isGraduated == Some(false)
      ensures totalCredits == Some(0) && completedCredits == Some(0) && graduationDate.None?
      ensures userSyncStatus == Some(syncStatus) && advisorSyncStatus == Some(syncStatus)
      ensures createdAt == Some(now) && updatedAt == Some(now)
    {
      var code := CodeAfterCreate(req.studentCode, req.profile.enrollmentYear.GetOr(currentYear), req.profile.schoolId, random);
      var name := FullNameOf(req.firstName, req.lastName);
      userId, studentCode, firstName, lastName, fullName := Some(req.userId), code, req.firstName, req.lastName, name;
      profile := req.profile;
      enrollmentStatus, totalCredits, completedCredits := Some(Active), Some(0), Some(0);
      isInternational, isActive, isGraduated, graduationDate := Some(req.isInternational.GetOr(false)), Some(true), Some(false), None;
      userSyncStatus, advisorSyncStatus, createdAt, updatedAt := Some(syncStatus), Some(syncStatus), Some(now), Some(now);
    }

    /** The unboxings `isEligibleForGraduation` reaches do not meet a null. */
    predicate EligibilityDefined(currentYear: int)
      reads this
    {
      enrollmentStatus == Some(Active) ==>
        isGraduated.Some?
        && (!isGraduated.value && profile.expectedGraduationYear.Some? && currentYear >= profile.expectedGraduationYear.value ==>
              completedCredits.Some? && totalCredits.Some?)
    }

    /**
     * Active, not yet graduated, the expected graduation year reached, and
     * every required credit completed.
     */
    predicate IsEligibleForGraduation(currentYear: int)
      requires EligibilityDefined(currentYear)
      reads this
    {
      enrollmentStatus == Some(Active) && !isGraduated.value
      && profile.expectedGraduationYear.Some? && currentYear >= profile.expectedGraduationYear.value
      && completedCredits.value >= totalCredits.value
    }

    /** The unboxings `canEnrollInCourse` reaches do not meet a null. */
    predicate EnrolmentDefined()
      reads this
    {
      enrollmentStatus == Some(Active) ==> isGraduated.Some? && (!isGraduated.value ==> isActive.Some?)
    }

    predicate CanEnrollInCourse()
      requires EnrolmentDefined()
      reads this
    {
      enrollmentStatus == Some(Active) && !isGraduated.value && isActive.value
    }

    method Graduate(today: Day)
      modifies this`isGraduated, this`graduationDate, this`enrollmentStatus
      ensures isGraduated == Some(true) && graduationDate == Some(today) && enrollmentStatus == Some(Graduated)
      ensures forall y :: EligibilityDefined(y) && !IsEligibleForGraduation(y)
      ensures EnrolmentDefined() && !CanEnrollInCourse()
    {
      isGraduated := Some(true);
      graduationDate := Some(today);
      enrollmentStatus := Some(Graduated);
    }

    method Suspend()
      modifies this`enrollmentStatus, this`isActive
      ensures enrollmentStatus == Some(Suspended) && isActive == Some(false)
      ensures EnrolmentDefined() && !CanEnrollInCourse()
    {
      enrollmentStatus := Some(Suspended);
      isActive := Some(false);
    }

    method Activate()
      modifies this`enrollmentStatus, this`isActive
      ensures enrollmentStatus == Some(Active) && isActive == Some(true)
      ensures isGraduated.Some? ==> EnrolmentDefined() && (CanEnrollInCourse() <==> !isGraduated.value)
    {
      enrollmentStatus := Some(Active);
      isActive := Some(true);
    }

    method Deactivate()
      modifies this`enrollmentStatus, this`isActive
      ensures enrollmentStatus == Some(Inactive) && isActive == Some(false)
      ensures EnrolmentDefined() && !CanEnrollInCourse()
    {
      enrollmentStatus := Some(Inactive);
      isActive := Some(false);
    }

    /** `addCredits`: a null counter starts from zero; the sum is a Java `int` sum. */
    method AddCredits(credits: Int32)
      modifies this`completedCredits
      ensures completedCredits == Some(Add(old(completedCredits).GetOr(0), credits))
      ensures MinInt <= old(completedCredits).GetOr(0) + credits <= MaxInt ==>
                completedCredits.value == old(completedCredits).GetOr(0) + credits
    {
      if completedCredits.None? {
        completedCredits := Some(0);
      }
      completedCredits := Some(Add(completedCredits.value, credits));
    }

    /** `getCurrentAcademicLevel`. */
    function CurrentAcademicLevel(): AcademicLevel
      reads this
    {
      LevelFor(completedCredits)
    }

    /** The eight columns the pre-persist callback defaults when null. */
    function DefaultedColumns(): Defaulted
      reads this`createdAt, this`updatedAt, this`enrollmentStatus, this`isActive, this`isGraduated
      reads this`isInternational, this`totalCredits, this`completedCredits
    {
      Defaulted(createdAt, updatedAt, enrollmentStatus, isActive, isGraduated, isInternational, totalCredits, completedCredits)
    }

    /**
     * The pre-persist callback: fills the null timestamps, status, flags and
     * credit counters, and generates a blank code or full name. The clock, the
     * current year and the random draw are inputs.
     */
    method OnCreate(now: Instant, currentYear: Int32, random: nat)
      requires random < 100000
      modifies this`createdAt, this`updatedAt, this`enrollmentStatus, this`isActive, this`isGraduated
      modifies this`isInternational, this`totalCredits, this`completedCredits, this`studentCode, this`fullName
      ensures DefaultedColumns() == FillNulls(old(DefaultedColumns()), now)
      ensures CodeFrom(old(studentCode), currentYear, random)
      ensures NameFrom(old(fullName))
    {
      FillDefaults(now);
      FillGenerated(currentYear, random);
    }

    /** The generating steps of `OnCreate`. */
    method FillGenerated(currentYear: Int32, random: nat)
      requires random < 100000
      modifies this`studentCode, this`fullName
      ensures CodeFrom(old(studentCode), currentYear, random)
      ensures NameFrom(old(fullName))
    {
      FillCode(currentYear, random);
      FillName();
    }

    /** The code the pre-persist callback leaves when it found `code0`: a blank one is generated. */
    predicate CodeFrom(code0: Option<string>, currentYear: Int32, random: nat)
      requires random < 100000
      reads this`studentCode, this`profile
    {
      studentCode == CodeAfterCreate(code0, profile.enrollmentYear.GetOr(currentYear), profile.schoolId, random)
    }

    /** The full name the pre-persist callback leaves when it found `name0`: a blank one is built. */
    predicate NameFrom(name0: Option<string>)
      reads this`fullName, this`firstName, this`lastName
    {
      fullName == if IsBlank(name0) then FullNameOf(firstName, lastName) else name0
    }

    /** The null-filling steps of `OnCreate`. */
    method FillDefaults(now: Instant)
      modifies this`createdAt, this`updatedAt, this`enrollmentStatus, this`isActive, this`isGraduated
      modifies this`isInternational, this`totalCredits, this`completedCredits
      ensures DefaultedColumns() == FillNulls(old(DefaultedColumns()), now)
    {
      FillTimesAndStatus(now);
      FillFlagsAndCredits();
    }

    /** The timestamp and status steps of `OnCreate`. */
    method FillTimesAndStatus(now: Instant)
      modifies this`createdAt, this`updatedAt, this`enrollmentStatus
      ensures createdAt == (if old(createdAt).None? then Some(now) else old(createdAt))
      ensures updatedAt == (if old(updatedAt).None? then Some(now) else old(updatedAt))
      ensures enrollmentStatus == (if old(enrollmentStatus).None? then Some(Active) else old(enrollmentStatus))
    {
      if createdAt.None? {
        createdAt := Some(now);
      }
      if updatedAt.None? {
        updatedAt := Some(now);
      }
      if enrollmentStatus.None? {
        enrollmentStatus := Some(Active);
      }
    }

    /** The flag and credit-counter steps of `OnCreate`. */
    method FillFlagsAndCredits()
      modifies this`isActive, this`isGraduated, this`isInternational, this`totalCredits, this`completedCredits
      ensures isActive == (if old(isActive).None? then Some(true) else old(isActive))
      ensures isGraduated == (if old(isGraduated).None? then Some(false) else old(isGraduated))
      ensures isInternational == (if old(isInternational).None? then Some(false) else old(isInternational))
      ensures totalCredits == (if old(totalCredits).None? then Some(0) else old(totalCredits))
      ensures completedCredits == (if old(completedCredits).None? then Some(0) else old(completedCredits))
    {
      if isActive.None? {
        isActive := Some(true);
      }
      if isGraduated.None? {
        isGraduated := Some(false);
      }
      if isInternational.None? {
        isInternational := Some(false);
      }
      if totalCredits.None? {
        totalCredits := Some(0);
      }
      if completedCredits.None? {
        completedCredits := Some(0);
      }
    }

    /** The code-generating step of `OnCreate`. */
    method FillCode(currentYear: Int32, random: nat)
      requires random < 100000
      modifies this`studentCode
      ensures CodeFrom(old(studentCode), currentYear, random)
    {
      studentCode := CodeAfterCreate(studentCode, profile.enrollmentYear.GetOr(currentYear), profile.schoolId, random);
    }

    /** The full-name step of `OnCreate`. */
    method FillName()
      modifies this`fullName
      ensures NameFrom(old(fullName))
    {
      if IsBlank(fullName) {
        fullName := FullNameOf(firstName, lastName);
      }
    }

    /**
     * The pre-update callback: stamps the time, rebuilds the full name when a
     * name part is present, and dates a graduation that has none.
     */
    method OnUpdate(now: Instant, today: Day)
      requires isGraduated.Some?
      modifies this`updatedAt, this`fullName, this`graduationDate
      ensures updatedAt == Some(now)
      ensures fullName == if firstName.Some? || lastName.Some? then FullNameOf(firstName, lastName) else old(fullName)
      ensures graduationDate == if isGraduated.value && old(graduationDate).None? then Some(today) else old(graduationDate)
      ensures isGraduated.value ==> graduationDate.Some?
    {
      updatedAt := Some(now);
      if firstName.Some? || lastName.Some? {
        fullName := FullNameOf(firstName, lastName);
      }
      if isGraduated.value && graduationDate.None? {
        graduationDate := Some(today);
      }
    }
  }

  /** Graduation needs the expected year to have come. */
  lemma EligibilityNeedsYear(s: Student, currentYear: int)
    requires s.EligibilityDefined(currentYear) && s.IsEligibleForGraduation(currentYear)
    ensures s.profile.expectedGraduationYear.Some? && s.profile.expectedGraduationYear.value <= currentYear
    ensures s.completedCredits.value >= s.totalCredits.value
  {
  }

  /** Eligibility, once reached, holds in every later year. */
  lemma EligibilityPersists(s: Student, y1: int, y2: int)
    requires y1 <= y2 && s.EligibilityDefined(y2)
    ensures s.EligibilityDefined(y1)
    ensures s.IsEligibleForGraduation(y1) ==> s.IsEligibleForGraduation(y2)
  {
  }

  /** An eligible student can also enrol in a course when active. */
  lemma EligibleActiveCanEnrol(s: Student, currentYear: int)
    requires s.EligibilityDefined(currentYear) && s.IsEligibleForGraduation(currentYear) && s.isActive == Some(true)
    ensures s.EnrolmentDefined() && s.CanEnrollInCourse()
  {
  }
}
