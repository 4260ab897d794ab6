/**
 * The entities of the syllabus backend: the workflow status, the user with
 * its role and optional career, the syllabus with its general data, its six
 * text sections, its units and evaluations, and the reference data
 * (academic periods and careers).  Dates are opaque day numbers or strings;
 * timestamps are not modelled.
 */
module Domain {
  import opened Base
  import opened Text

  /** The workflow states of a syllabus, in declaration order. */
  datatype Status = Created | Assigned | Submitted | Approved | Returned

  const AllStatuses: seq<Status> := [Created, Assigned, Submitted, Approved, Returned]

  /** The position of a status in the enum declaration: the enum has exactly these five values. */
  function Ordinal(st: Status): (i: nat)
    ensures i < |AllStatuses| && AllStatuses[i] == st
  {
    match st
    case Created => 0
    case Assigned => 1
    case Submitted => 2
    case Approved => 3
    case Returned => 4
  }

  /** `SyllabusStatus.valueOf`: how a request parameter or a JSON string becomes a status. */
  function ParseStatus(s: string): Option<Status> {
    if s == "CREATED" then Some(Created)
    else if s == "ASSIGNED" then Some(Assigned)
    else if s == "SUBMITTED" then Some(Submitted)
    else if s == "APPROVED" then Some(Approved)
    else if s == "RETURNED" then Some(Returned)
    else None
  }

  /** `name()` of a status: its wire form, which `valueOf` reads back. */
  function StatusName(st: Status): (s: string)
    ensures ParseStatus(s) == Some(st)
    ensures forall other: Status :: other != st ==> ParseStatus(s) != Some(other)
  {
    match st
    case Created => "CREATED"
    case Assigned => "ASSIGNED"
    case Submitted => "SUBMITTED"
    case Approved => "APPROVED"
    case Returned => "RETURNED"
  }

  /** Every string `valueOf` accepts is the name of the status it yields. */
  lemma ParseStatusOnlyNames(s: string)
    ensures ParseStatus(s).Some? ==> s == StatusName(ParseStatus(s).value)
    ensures ParseStatus(s).None? ==> forall st: Status :: s != StatusName(st)
  {
  }

  datatype Role = Coordinator | Professor

  function RoleName(r: Role): string {
    match r
    case Coordinator => "COORDINATOR"
    case Professor => "PROFESSOR"
  }

  /** The authenticated caller of an endpoint: its username and the roles granted to it. */
  datatype Auth = Auth(username: string, authorities: set<Role>)

  /** A stored user. The password is already encoded; `status` is the audit status. */
  datatype User = User(
    id: nat,
    username: string,
    password: string,
    fullName: string,
    role: Role,
    career: Option<string>,
    status: string)

  /** `career != null && !career.isEmpty()` */
  predicate HasCareer(u: User) {
    u.career.Some? && u.career.value != []
  }

  /** `career != null && !career.trim().isEmpty()`: the career scope of the spreadsheet uploads. */
  predicate HasCareerScope(u: User) {
    u.career.Some? && !IsBlank(u.career.value)
  }

  /** A learning unit. Dates are ISO strings as the client sends them. */
  datatype Unit = Unit(
    unitNumber: int,
    title: Option<string>,
    startDate: Option<string>,
    endDate: Option<string>,
    content: Option<string>,
    week1Content: Option<string>,
    week2Content: Option<string>,
    week3Content: Option<string>,
    week4Content: Option<string>,
    methodology: Option<string>,
    createdBy: Option<nat>)

  /** An evaluation; the weight is an integer percentage (the backend's 0.10 is 10 here). */
  datatype Evaluation = Evaluation(
    id: Option<int>,
    name: Option<string>,
    weight: Option<int>,
    consolidationDate: Option<string>,
    description: Option<string>,
    createdBy: Option<nat>)

  datatype Period = Period(
    id: nat,
    name: string,
    startDate: int,
    endDate: int,
    coordinator: nat,
    status: string,
    createdBy: nat)

  datatype Career = Career(id: nat, name: string)

  /** Section I of a syllabus, "datos generales": exactly what a spreadsheet row carries. */
  datatype GeneralData = GeneralData(
    faculty: Option<string>,
    career: Option<string>,
    semester: Option<string>,
    credits: Option<int>,
    totalHours: Option<int>,
    theoryHours: Option<int>,
    practiceHours: Option<int>,
    trainingArea: Option<string>,
    courseCode: Option<string>,
    courseName: Option<string>,
    courseType: Option<string>,
    prerequisites: Option<string>,
    professorEmail: Option<string>)

  /** The six free-text sections a professor writes. */
  datatype Content = Content(
    courseCompetence: Option<string>,
    profileCompetence: Option<string>,
    previousCompetence: Option<string>,
    sumilla: Option<string>,
    bibliography: Option<string>,
    activities: Option<string>)

  /**
   * A syllabus. `period`, `professor` and `coordinator` hold the ids of the
   * referenced entities; `status` is the audit status, distinct from the
   * workflow status.
   */
  datatype Syllabus = Syllabus(
    id: Option<nat>,
    general: GeneralData,
    period: Option<nat>,
    professor: Option<nat>,
    coordinator: Option<nat>,
    content: Content,
    units: seq<Unit>,
    evaluations: seq<Evaluation>,
    workflowStatus: Status,
    status: Option<string>,
    createdBy: Option<nat>)

  const NoGeneralData := GeneralData(None, None, None, None, None, None, None, None, None, None, None, None, None)

  const NoContent := Content(None, None, None, None, None, None)

  const ActiveStatus: string := "ACTIVE"

  /** `new Syllabus()`: every field at its initialiser. */
  const EmptySyllabus := Syllabus(None, NoGeneralData, None, None, None, NoContent, [], [], Created, Some(ActiveStatus), None)

  /** The state of a `Syllabus.builder()`: the three collections and the workflow status may still be null. */
  datatype Builder = Builder(
    id: Option<nat>,
    general: GeneralData,
    period: Option<nat>,
    professor: Option<nat>,
    coordinator: Option<nat>,
    content: Content,
    units: Option<seq<Unit>>,
    evaluations: Option<seq<Evaluation>>,
    workflowStatus: Option<Status>,
    status: Option<string>,
    createdBy: Option<nat>)

  /** `Syllabus.builder()`: the builder defaults the workflow status to CREATED and the audit status to ACTIVE. */
  const NewBuilder := Builder(None, NoGeneralData, None, None, None, NoContent, None, None, Some(Created), Some(ActiveStatus), None)

  /** `build()`, i.e. the all-arguments constructor, which maps null collections and a null workflow status to defaults. */
  function Build(b: Builder): (s: Syllabus)
    ensures s.id == b.id
    ensures b.units.None? ==> s.units == []
    ensures b.units.Some? ==> s.units == b.units.value
    ensures b.evaluations.None? ==> s.evaluations == []
    ensures b.evaluations.Some? ==> s.evaluations == b.evaluations.value
    ensures b.workflowStatus.None? ==> s.workflowStatus == Created
    ensures b.workflowStatus.Some? ==> s.workflowStatus == b.workflowStatus.value
    ensures s.status == b.status
    ensures s.general == b.general && s.content == b.content
    ensures s.period == b.period && s.professor == b.professor && s.coordinator == b.coordinator
    ensures s.createdBy == b.createdBy
  {
    Syllabus(
      b.id, b.general, b.period, b.professor, b.coordinator, b.content,
      b.units.GetOr([]), b.evaluations.GetOr([]), b.workflowStatus.GetOr(Created),
      b.status, b.createdBy)
  }

  /** Whatever route creates a syllabus, its workflow status starts as CREATED unless set explicitly. */
  lemma WorkflowStatusDefaults(b: Builder)
    requires b.workflowStatus == NewBuilder.workflowStatus || b.workflowStatus.None?
    ensures EmptySyllabus.workflowStatus == Created
    ensures Build(b).workflowStatus == Created
  {
  }

  /** The persist hook: a syllabus saved without an audit status gets ACTIVE. */
  function OnCreate(s: Syllabus): (r: Syllabus)
    ensures r.status.Some?
    ensures s.status.None? ==> r.status == Some(ActiveStatus)
    ensures s.status.Some? ==> r == s
    ensures r.(status := s.status) == s
  {
    if s.status.None? then s.(status := Some(ActiveStatus)) else s
  }

  /** `setWorkflowStatus`: sets the workflow status and touches nothing else. */
  function SetWorkflowStatus(s: Syllabus, st: Status): (r: Syllabus)
    ensures r.workflowStatus == st
    ensures r.(workflowStatus := s.workflowStatus) == s
  {
    s.(workflowStatus := st)
  }
}
