/**
 * The rows of the seven tables the route handlers read and write, and the
 * database that holds them. Each table keeps its rows in rowid order together
 * with the next id SQLite will assign (`INTEGER PRIMARY KEY AUTOINCREMENT`).
 * Timestamps (`CURRENT_TIMESTAMP`) are integers supplied by the caller.
 */
module Schema {
  import opened Values
  import opened Tables

  datatype Conference = Conference(
    title: Value,
    description: Value,
    date: Value,
    time: Value,
    venue: Value,
    address: Value,
    banner: Value,
    speakers: Value,
    agenda: Value,
    guidelines: Value,
    status: Value,
    featuredInSlider: int,
    createdAt: int,
    updatedAt: int)

  datatype Registration = Registration(
    conferenceId: Value,
    fullname: Value,
    email: Value,
    phone: Value,
    age: Value,
    dateOfBirth: Value,
    state: Value,
    organization: Value,
    isStudent: int,
    institution: Value,
    isRegisteredVoter: int,
    voterState: Value,
    attendanceType: Value,
    referralCode: Value,
    qrCodePath: string,
    attendeeCode: string,
    checkedIn: int,
    checkinTime: Option<int>,
    createdAt: int)

  datatype Rep = Rep(
    conferenceId: Value,
    name: Value,
    email: Value,
    phone: Value,
    institution: Value,
    referralCode: string,
    createdAt: int)

  /** The `assignment_type` column. */
  datatype AssignmentType = Referral | Auto | Manual

  datatype Assignment = Assignment(
    registrationId: Value,
    repId: Value,
    assignmentType: AssignmentType,
    assignedBy: Value,
    assignedAt: int)

  datatype HeroSlide = HeroSlide(
    title: Value,
    subtitle: Value,
    buttons: Value,
    backgroundImagePath: Value,
    overlayAlignment: Value,
    orderIndex: int,
    isActive: int,
    isConferenceSlide: int,
    conferenceId: Value,
    createdAt: int)

  datatype ContentBlock = ContentBlock(
    sectionKey: string,
    title: Value,
    content: Value,
    imageUrl: Value,
    videoUrl: Value,
    bannerUrl: Value,
    updatedAt: int)

  datatype Member = Member(
    fullName: Value,
    phone: Value,
    email: Value,
    age: Value,
    gender: Value,
    state: Value,
    lga: Value,
    occupation: Value,
    isRegisteredVoter: int,
    notRegisteredReason: Value,
    createdAt: int)

  /** `section_key TEXT UNIQUE`: no two content rows share a key. */
  ghost predicate UniqueSectionKeys(rows: seq<Row<ContentBlock>>) {
    forall i, j :: 0 <= i < j < |rows| ==> rows[i].data.sectionKey != rows[j].data.sectionKey
  }

  /** The SQLite database file: one sequence of rows per table and one id counter per table. */
  class Database {
    var conferences: seq<Row<Conference>>
    var registrations: seq<Row<Registration>>
    var reps: seq<Row<Rep>>
    var assignments: seq<Row<Assignment>>
    var heroSlides: seq<Row<HeroSlide>>
    var content: seq<Row<ContentBlock>>
    var members: seq<Row<Member>>

    var nextConferenceId: int
    var nextRegistrationId: int
    var nextRepId: int
    var nextAssignmentId: int
    var nextSlideId: int
    var nextContentId: int
    var nextMemberId: int

    ghost predicate ConferencesValid()
      reads this`conferences, this`nextConferenceId
    {
      Keyed(conferences, nextConferenceId) && nextConferenceId >= 1
    }

    ghost predicate RegistrationsValid()
      reads this`registrations, this`nextRegistrationId
    {
      Keyed(registrations, nextRegistrationId) && nextRegistrationId >= 1
    }

    ghost predicate RepsValid()
      reads this`reps, this`nextRepId
    {
      Keyed(reps, nextRepId) && nextRepId >= 1
    }

    ghost predicate AssignmentsValid()
      reads this`assignments, this`nextAssignmentId
    {
      Keyed(assignments, nextAssignmentId) && nextAssignmentId >= 1
    }

    ghost predicate SlidesValid()
      reads this`heroSlides, this`nextSlideId
    {
      Keyed(heroSlides, nextSlideId) && nextSlideId >= 1
    }

    /** Besides the primary key, `section_key` is unique. */
    ghost predicate ContentValid()
      reads this`content, this`nextContentId
    {
      Keyed(content, nextContentId) && nextContentId >= 1 && UniqueSectionKeys(content)
    }

    ghost predicate MembersValid()
      reads this`members, this`nextMemberId
    {
      Keyed(members, nextMemberId) && nextMemberId >= 1
    }

    /** Every table keeps its primary-key invariant. */
    ghost predicate Valid()
      reads this
    {
      && ConferencesValid() && RegistrationsValid() && RepsValid() && AssignmentsValid()
      && SlidesValid() && ContentValid() && MembersValid()
    }

    /** A freshly created database: every table empty. */
    constructor ()
      ensures Valid()
      ensures conferences == [] && registrations == [] && reps == [] && assignments == []
      ensures heroSlides == [] && content == [] && members == []
    {
      conferences, registrations, reps, assignments := [], [], [], [];
      heroSlides, content, members := [], [], [];
      nextConferenceId, nextRegistrationId, nextRepId, nextAssignmentId := 1, 1, 1, 1;
      nextSlideId, nextContentId, nextMemberId := 1, 1, 1;
    }
  }
}
