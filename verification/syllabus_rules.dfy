/**
 * The syllabus service of the backend: creation from the template, the
 * spreadsheet merge into one syllabus, the all-or-nothing bulk import, the
 * role-dependent listing, the content update and the workflow status update.
 *
 * Every operation takes the whole store and, on success, returns the new
 * store with its result; a failure returns only the reason.
 */
module SyllabusRules {
  import opened Base
  import opened Text
  import opened Domain
  import opened Stores
  import opened Excel

  /**
   * The body of a create request. The service also reads a career from it,
   * so the request carries one (a request without it behaves as `None`).
   */
  datatype CreateRequest = CreateRequest(
    professorEmail: Option<string>,
    periodId: Option<nat>,
    periodName: Option<string>,
    courseName: Option<string>,
    courseCode: Option<string>,
    career: Option<string>)

  /** The acting user of a coordinator-only operation: it must exist and be a coordinator. */
  function ActingCoordinator(users: seq<User>, username: string): (r: Result<User>)
    ensures r.Success? ==> r.value in users && r.value.username == username && r.value.role == Coordinator
    ensures r.Failure? ==> r.error in {ActingUserNotFound, NotCoordinator}
    ensures r.Failure? && r.error == ActingUserNotFound <==> forall k :: 0 <= k < |users| ==> users[k].username != username
  {
    match FindUser(users, username)
    case None => Failure(ActingUserNotFound)
    case Some(u) => if u.role != Coordinator then Failure(NotCoordinator) else Success(u)
  }

  /** Under unique usernames, the coordinator check succeeds exactly when a coordinator has that username. */
  lemma ActingCoordinatorIff(users: seq<User>, username: string)
    requires Unique(users, Username)
    ensures ActingCoordinator(users, username).Success? <==>
      exists k :: 0 <= k < |users| && users[k].username == username && users[k].role == Coordinator
  {
    if k :| 0 <= k < |users| && users[k].username == username && users[k].role == Coordinator {
      FindUserUnique(users, k);
    }
  }

  /** The academic period of a create request: by id when one is given, else by name, else an error. */
  function ResolvePeriod(periods: seq<Period>, req: CreateRequest): (r: Result<Period>)
    ensures r.Success? ==> r.value in periods
    ensures r.Success? && req.periodId.Some? ==> r.value.id == req.periodId.value
    ensures r.Success? && req.periodId.None? ==> req.periodName.Some? && r.value.name == req.periodName.value
    ensures r.Failure? <==>
      || (req.periodId.Some? && forall k :: 0 <= k < |periods| ==> periods[k].id != req.periodId.value)
      || (req.periodId.None? && req.periodName.Some? && forall k :: 0 <= k < |periods| ==> periods[k].name != req.periodName.value)
      || (req.periodId.None? && req.periodName.None?)
    ensures r.Failure? ==> r.error == (if req.periodId.None? && req.periodName.None? then PeriodNotGiven else PeriodNotFound)
  {
    if req.periodId.Some? then
      match FindPeriod(periods, req.periodId.value)
      case None => Failure(PeriodNotFound)
      case Some(p) => Success(p)
    else if req.periodName.Some? then
      match FindPeriodByName(periods, req.periodName.value)
      case None => Failure(PeriodNotFound)
      case Some(p) => Success(p)
    else Failure(PeriodNotGiven)
  }

  /** The professor an email names: it must be a stored user with the PROFESSOR role. */
  function ResolveProfessor(users: seq<User>, email: string): (r: Result<User>)
    ensures r.Success? ==> r.value in users && r.value.username == email && r.value.role == Professor
    ensures r.Failure? ==> r.error in {ProfessorNotFound(email), NotAProfessor(email)}
    ensures r.Failure? && r.error == ProfessorNotFound(email) <==> forall k :: 0 <= k < |users| ==> users[k].username != email
  {
    match FindUser(users, email)
    case None => Failure(ProfessorNotFound(email))
    case Some(u) => if u.role != Professor then Failure(NotAProfessor(email)) else Success(u)
  }

  /** Under unique usernames, an email resolves exactly when a professor has it as username. */
  lemma ResolveProfessorIff(users: seq<User>, email: string)
    requires Unique(users, Username)
    ensures ResolveProfessor(users, email).Success? <==>
      exists k :: 0 <= k < |users| && users[k].username == email && users[k].role == Professor
  {
    if k :| 0 <= k < |users| && users[k].username == email && users[k].role == Professor {
      FindUserUnique(users, k);
    }
  }

  /** The career of a new syllabus: the coordinator's own when set, otherwise the request must name one. */
  function TargetCareer(coord: User, req: CreateRequest): (r: Result<string>)
    ensures HasCareer(coord) ==> r == Success(coord.career.value)
    ensures !HasCareer(coord) ==> (r.Success? <==> req.career.Some? && req.career.value != [])
    ensures !HasCareer(coord) && r.Success? ==> r.value == req.career.value
    ensures r.Failure? ==> r.error == CareerRequired
    ensures r.Success? ==> r.value != []
  {
    if HasCareer(coord) then Success(coord.career.value)
    else if req.career.None? || req.career.value == [] then Failure(CareerRequired)
    else Success(req.career.value)
  }

  function BlankUnit(unitNumber: int, title: string, createdBy: nat): Unit {
    Unit(unitNumber, Some(title), None, None, None, None, None, None, None, None, Some(createdBy))
  }

  /** The four units every new syllabus starts with. */
  function UnitTemplate(createdBy: nat): (r: seq<Unit>)
    ensures |r| == 4
    ensures forall i :: 0 <= i < 4 ==> r[i] == BlankUnit(i + 1, "UNIDAD " + ToRoman(i + 1), createdBy)
  {
    [BlankUnit(1, "UNIDAD " + ToRoman(1), createdBy), BlankUnit(2, "UNIDAD " + ToRoman(2), createdBy),
     BlankUnit(3, "UNIDAD " + ToRoman(3), createdBy), BlankUnit(4, "UNIDAD " + ToRoman(4), createdBy)]
  }

  /** The template units are numbered 1 to 4 in order and titled with the roman numerals I to IV. */
  lemma UnitTemplateTitles(createdBy: nat)
    ensures forall i :: 0 <= i < 4 ==> UnitTemplate(createdBy)[i].unitNumber == i + 1
    ensures forall i, j :: 0 <= i < j < 4 ==> UnitTemplate(createdBy)[i].unitNumber < UnitTemplate(createdBy)[j].unitNumber
    ensures UnitTemplate(createdBy)[0].title == Some("UNIDAD I")
    ensures UnitTemplate(createdBy)[1].title == Some("UNIDAD II")
    ensures UnitTemplate(createdBy)[2].title == Some("UNIDAD III")
    ensures UnitTemplate(createdBy)[3].title == Some("UNIDAD IV")
  {
    assert ToRoman(1) == "I" && ToRoman(2) == "II" && ToRoman(3) == "III" && ToRoman(4) == "IV";
    assert "UNIDAD " + "I" == "UNIDAD I";
    assert "UNIDAD " + "II" == "UNIDAD II";
    assert "UNIDAD " + "III" == "UNIDAD III";
    assert "UNIDAD " + "IV" == "UNIDAD IV";
  }

  /** The names of the six template evaluations, in order. */
  const TemplateNames: seq<string> := ["EVIDENCIA 1", "EVIDENCIA 2", "EXAMEN PARCIAL", "EVIDENCIA 3", "EVIDENCIA 4", "EXAMEN FINAL"]

  /** Their weights, as integer percentages. */
  const TemplateWeights: seq<int> := [10, 10, 30, 10, 10, 30]

  function TemplateEvaluation(name: string, weight: int, createdBy: nat): Evaluation {
    Evaluation(None, Some(name), Some(weight), None, None, Some(createdBy))
  }

  /** The six evaluations every new syllabus starts with. */
  function EvaluationTemplate(createdBy: nat): (r: seq<Evaluation>)
    ensures |r| == |TemplateNames| == |TemplateWeights| == 6
    ensures forall i :: 0 <= i < 6 ==> r[i].name == Some(TemplateNames[i]) && r[i].weight == Some(TemplateWeights[i])
    ensures forall i :: 0 <= i < 6 ==> r[i].id.None? && r[i].createdBy == Some(createdBy)
  {
    [TemplateEvaluation("EVIDENCIA 1", 10, createdBy),
     TemplateEvaluation("EVIDENCIA 2", 10, createdBy),
     TemplateEvaluation("EXAMEN PARCIAL", 30, createdBy),
     TemplateEvaluation("EVIDENCIA 3", 10, createdBy),
     TemplateEvaluation("EVIDENCIA 4", 10, createdBy),
     TemplateEvaluation("EXAMEN FINAL", 30, createdBy)]
  }

  /** The sum of the weights of a list of evaluations; a missing weight counts as 0. */
  function TotalWeight(evals: seq<Evaluation>): int {
    if |evals| == 0 then 0 else TotalWeight(evals[..|evals| - 1]) + evals[|evals| - 1].weight.GetOr(0)
  }

  /** The template weights add up to the whole grade. */
  lemma TemplateWeightsTotal(createdBy: nat)
    ensures TotalWeight(EvaluationTemplate(createdBy)) == 100
  {
    var e := EvaluationTemplate(createdBy);
    assert e[..1][..0] == [] && e[..1][0] == e[0];
    assert e[..2][..1] == e[..1] && e[..2][1] == e[1];
    assert e[..3][..2] == e[..2] && e[..3][2] == e[2];
    assert e[..4][..3] == e[..3] && e[..4][3] == e[3];
    assert e[..5][..4] == e[..4] && e[..5][4] == e[4];
    assert e[..5] == e[..|e| - 1];
    assert TotalWeight(e[..1]) == 10;
    assert TotalWeight(e[..2]) == 20;
    assert TotalWeight(e[..3]) == 50;
    assert TotalWeight(e[..4]) == 60;
    assert TotalWeight(e[..5]) == 70;
  }

  /** A syllabus as the template leaves it: CREATED, active, the template units and evaluations, no text yet. */
  predicate FromTemplate(s: Syllabus, periodId: nat, coord: User) {
    && s.period == Some(periodId)
    && s.coordinator == Some(coord.id)
    && s.createdBy == Some(coord.id)
    && s.workflowStatus == Created
    && s.status == Some(ActiveStatus)
    && s.content == NoContent
    && s.units == UnitTemplate(coord.id)
    && TemplateEvaluations(s.evaluations, coord.id)
  }

  /** The template evaluations, whatever ids they were given. */
  predicate TemplateEvaluations(es: seq<Evaluation>, createdBy: nat) {
    |es| == 6 && forall k :: 0 <= k < |es| ==> es[k].(id := None) == EvaluationTemplate(createdBy)[k]
  }

  /** After saving, every evaluation carries an id, and no two the same. */
  predicate EvaluationsSaved(s: Syllabus) {
    (forall k :: 0 <= k < |s.evaluations| ==> s.evaluations[k].id.Some?) && DistinctIds(s.evaluations)
  }

  /** Saving a syllabus built from the template keeps it a template syllabus and gives its evaluations distinct ids. */
  lemma InsertTemplateSyllabus(ss: seq<Syllabus>, periodId: nat, general: GeneralData, professor: Option<nat>, coord: User)
    ensures var saved := InsertSyllabus(ss, TemplateSyllabus(periodId, general, professor, coord)).1;
      && FromTemplate(saved, periodId, coord) && EvaluationsSaved(saved)
      && saved.general == general && saved.professor == professor
      && forall k :: 0 <= k < |saved.evaluations| ==> saved.evaluations[k].id.value > MaxStoredEvaluationId(ss)
  {
    var t := TemplateSyllabus(periodId, general, professor, coord);
    var saved := InsertSyllabus(ss, t).1;
    forall k | 0 <= k < |saved.evaluations|
      ensures saved.evaluations[k].(id := None) == EvaluationTemplate(coord.id)[k]
    {
      assert t.evaluations[k].id.None?;
      assert saved.evaluations[k].(id := t.evaluations[k].id) == t.evaluations[k];
    }
  }

  /** `Syllabus.builder()...build()` followed by `setUnits` and `setEvaluations` with the templates. */
  function TemplateSyllabus(periodId: nat, general: GeneralData, professor: Option<nat>, coord: User): (s: Syllabus)
    ensures FromTemplate(s, periodId, coord)
    ensures s.id.None? && s.general == general && s.professor == professor
  {
    var b := NewBuilder.(
      general := general, period := Some(periodId), professor := professor,
      coordinator := Some(coord.id), workflowStatus := Some(Created), createdBy := Some(coord.id));
    Build(b).(units := UnitTemplate(coord.id), evaluations := EvaluationTemplate(coord.id))
  }

  /** The professor of a new syllabus: none without an email, otherwise the user the email names. */
  function RequestedProfessor(users: seq<User>, email: Option<string>): (r: Result<Option<User>>)
    ensures email.None? ==> r == Success(None)
    ensures email.Some? ==> (r.Success? <==> ResolveProfessor(users, email.value).Success?)
    ensures email.Some? && r.Success? ==> r.value == Some(ResolveProfessor(users, email.value).value)
    ensures r.Failure? ==> email.Some? && r.error == ResolveProfessor(users, email.value).error
  {
    if email.None? then Success(None)
    else
      var p :- ResolveProfessor(users, email.value);
      Success(Some(p))
  }

  function UserIdOf(u: Option<User>): Option<nat> {
    match u
    case None => None
    case Some(v) => Some(v.id)
  }

  /**
   * `createSyllabus`: checks in order the acting coordinator, the period,
   * the professor and the career, then saves one new syllabus built from
   * the template.
   */
  function CreateSyllabus(db: Db, req: CreateRequest, username: string): (r: Result<(Db, Syllabus)>)
    ensures r.Success? ==> ActingCoordinator(db.users, username).Success?
    ensures r.Success? ==> ResolvePeriod(db.periods, req).Success?
    ensures r.Success? ==> TargetCareer(ActingCoordinator(db.users, username).value, req).Success?
    ensures r.Success? ==>
      var (db', s) := r.value;
      var coord := ActingCoordinator(db.users, username).value;
      && db' == db.(syllabi := db.syllabi + [s])
      && s.id.Some? && (forall k :: 0 <= k < |db.syllabi| ==> SyllabusKey(db.syllabi[k]) < s.id.value)
      && FromTemplate(s, ResolvePeriod(db.periods, req).value.id, coord)
      && EvaluationsSaved(s)
      && (forall k :: 0 <= k < |s.evaluations| ==> s.evaluations[k].id.value > MaxStoredEvaluationId(db.syllabi))
      && s.general == NoGeneralData.(courseName := req.courseName, career := Some(TargetCareer(coord, req).value),
                                     courseCode := req.courseCode, professorEmail := req.professorEmail)
      && (req.professorEmail.None? <==> s.professor.None?)
      && (s.professor.Some? ==> exists k :: (0 <= k < |db.users| && db.users[k].id == s.professor.value
            && db.users[k].username == req.professorEmail.value && db.users[k].role == Professor))
    ensures ActingCoordinator(db.users, username).Failure? ==> r == Failure(ActingCoordinator(db.users, username).error)
    ensures ActingCoordinator(db.users, username).Success? && ResolvePeriod(db.periods, req).Failure? ==>
      r == Failure(ResolvePeriod(db.periods, req).error)
    ensures (&& ActingCoordinator(db.users, username).Success? && ResolvePeriod(db.periods, req).Success?
             && RequestedProfessor(db.users, req.professorEmail).Failure?) ==>
      r == Failure(RequestedProfessor(db.users, req.professorEmail).error)
    ensures (&& ActingCoordinator(db.users, username).Success? && ResolvePeriod(db.periods, req).Success?
             && RequestedProfessor(db.users, req.professorEmail).Success?
             && TargetCareer(ActingCoordinator(db.users, username).value, req).Failure?) ==>
      r == Failure(TargetCareer(ActingCoordinator(db.users, username).value, req).error)
  {
    var coord :- ActingCoordinator(db.users, username);
    var period :- ResolvePeriod(db.periods, req);
    var professor :- RequestedProfessor(db.users, req.professorEmail);
    var career :- TargetCareer(coord, req);
    var general := NoGeneralData.(
      courseName := req.courseName, career := Some(career),
      courseCode := req.courseCode, professorEmail := req.professorEmail);
    var ins := InsertSyllabus(db.syllabi, TemplateSyllabus(period.id, general, UserIdOf(professor), coord));
    InsertTemplateSyllabus(db.syllabi, period.id, general, UserIdOf(professor), coord);
    Success((db.(syllabi := ins.0), ins.1))
  }

  /** The conditions under which a syllabus can be created, stated over the stored users and periods. */
  predicate CanCreate(db: Db, req: CreateRequest, username: string) {
    && (exists k :: 0 <= k < |db.users| && db.users[k].username == username && db.users[k].role == Coordinator
          && (HasCareer(db.users[k]) || (req.career.Some? && req.career.value != [])))
    && (if req.periodId.Some? then exists k :: 0 <= k < |db.periods| && db.periods[k].id == req.periodId.value
        else req.periodName.Some? && exists k :: 0 <= k < |db.periods| && db.periods[k].name == req.periodName.value)
    && (req.professorEmail.Some? ==>
          exists k :: 0 <= k < |db.users| && db.users[k].username == req.professorEmail.value && db.users[k].role == Professor)
  }

  /** Creation succeeds exactly when each of its four checks does. */
  lemma CreateSyllabusSteps(db: Db, req: CreateRequest, username: string)
    ensures CreateSyllabus(db, req, username).Success? <==>
      && ActingCoordinator(db.users, username).Success?
      && ResolvePeriod(db.periods, req).Success?
      && RequestedProfessor(db.users, req.professorEmail).Success?
      && TargetCareer(ActingCoordinator(db.users, username).value, req).Success?
  {
  }

  /** Under unique usernames, creation succeeds exactly when the coordinator, the period, the professor and a career are all there. */
  lemma CreateSyllabusSucceedsIff(db: Db, req: CreateRequest, username: string)
    requires Unique(db.users, Username)
    ensures CreateSyllabus(db, req, username).Success? <==> CanCreate(db, req, username)
  {
    CreateSyllabusSteps(db, req, username);
    var acting := ActingCoordinator(db.users, username);
    var coordOk := exists k :: (0 <= k < |db.users| && db.users[k].username == username && db.users[k].role == Coordinator
          && (HasCareer(db.users[k]) || (req.career.Some? && req.career.value != [])));
    assert acting.Success? && TargetCareer(acting.value, req).Success? <==> coordOk by {
      ActingCoordinatorIff(db.users, username);
      if k :| 0 <= k < |db.users| && db.users[k].username == username {
        FindUserUnique(db.users, k);
      }
    }
    assert RequestedProfessor(db.users, req.professorEmail).Success? <==>
      (req.professorEmail.Some? ==>
          exists k :: 0 <= k < |db.users| && db.users[k].username == req.professorEmail.value && db.users[k].role == Professor) by {
      if req.professorEmail.Some? {
        ResolveProfessorIff(db.users, req.professorEmail.value);
      }
    }
  }

  /** Creation keeps the store well formed. */
  lemma CreateSyllabusWf(db: Db, req: CreateRequest, username: string)
    requires Wf(db) && CreateSyllabus(db, req, username).Success?
    ensures Wf(CreateSyllabus(db, req, username).value.0)
  {
    var coord := ActingCoordinator(db.users, username).value;
    var period := ResolvePeriod(db.periods, req).value;
    var professor := RequestedProfessor(db.users, req.professorEmail).value;
    var career := TargetCareer(coord, req).value;
    var general := NoGeneralData.(
      courseName := req.courseName, career := Some(career),
      courseCode := req.courseCode, professorEmail := req.professorEmail);
    InsertSyllabusWf(db.syllabi, TemplateSyllabus(period.id, general, UserIdOf(professor), coord));
  }

  /** `userRepository.findByUsername(...).orElseThrow(...)` for the acting user of any role. */
  function LookupUser(users: seq<User>, username: string): (r: Result<User>)
    ensures r.Success? <==> FindUser(users, username).Some?
    ensures r.Success? ==> r.value == FindUser(users, username).value
    ensures r.Failure? ==> r.error == ActingUserNotFound
  {
    match FindUser(users, username)
    case None => Failure(ActingUserNotFound)
    case Some(u) => Success(u)
  }

  /** `getSyllabus`: the position of the syllabus with that id, or an error. */
  function LocateSyllabus(ss: seq<Syllabus>, id: nat): (r: Result<nat>)
    ensures r.Success? ==> r.value < |ss| && ss[r.value].id == Some(id)
    ensures r.Failure? <==> forall k :: 0 <= k < |ss| ==> ss[k].id != Some(id)
    ensures r.Failure? ==> r.error == SyllabusNotFound
  {
    match FindSyllabus(ss, id)
    case None => Failure(SyllabusNotFound)
    case Some(i) => Success(i)
  }

  /** The career a parsed row is checked under: trimmed, with a missing career read as "". */
  function SheetCareer(s: Syllabus): string {
    Trim(s.general.career.GetOr(""))
  }

  /** A parsed row belongs to the (trimmed) career of the coordinator, ignoring case. */
  predicate InScope(required: string, s: Syllabus) {
    EqualsIgnoreCase(required, SheetCareer(s))
  }

  /** The career scope of a coordinator's uploads, when it has one. */
  function RequiredCareer(u: User): string
    requires HasCareerScope(u)
  {
    Trim(u.career.value)
  }

  /** A value from the sheet replaces a stored course code or name only when it is present and non-empty. */
  function PreferFilled(stored: Option<string>, sheet: Option<string>): (r: Option<string>)
    ensures sheet.Some? && sheet.value != [] ==> r == sheet
    ensures !(sheet.Some? && sheet.value != []) ==> r == stored
  {
    if sheet.Some? && sheet.value != [] then sheet else stored
  }

  /**
   * The merge of a spreadsheet row into stored general data: the professor
   * email is kept, course code and name are replaced only by non-empty
   * values, and every other field is taken from the sheet, even when empty.
   */
  function MergeGeneral(stored: GeneralData, sheet: GeneralData): (r: GeneralData)
    ensures r.professorEmail == stored.professorEmail
    ensures r.courseCode == PreferFilled(stored.courseCode, sheet.courseCode)
    ensures r.courseName == PreferFilled(stored.courseName, sheet.courseName)
    ensures r.(courseCode := sheet.courseCode, courseName := sheet.courseName, professorEmail := sheet.professorEmail) == sheet
  {
    sheet.(
      courseCode := PreferFilled(stored.courseCode, sheet.courseCode),
      courseName := PreferFilled(stored.courseName, sheet.courseName),
      professorEmail := stored.professorEmail)
  }

  /** Merging the same row twice is merging it once. */
  lemma MergeGeneralIdempotent(stored: GeneralData, sheet: GeneralData)
    ensures MergeGeneral(MergeGeneral(stored, sheet), sheet) == MergeGeneral(stored, sheet)
  {
  }

  /** The stored data a merge reads are only the course code, course name and professor email. */
  lemma MergeGeneralReads(a: GeneralData, b: GeneralData, sheet: GeneralData)
    requires a.courseCode == b.courseCode && a.courseName == b.courseName && a.professorEmail == b.professorEmail
    ensures MergeGeneral(a, sheet) == MergeGeneral(b, sheet)
  {
  }

  /** The individual upload of a career-scoped coordinator rejects a row of another career. */
  predicate UploadOutOfScope(user: User, parsed: Syllabus) {
    user.role == Coordinator && HasCareerScope(user) && !InScope(RequiredCareer(user), parsed)
  }

  /** Both emails are known and differ, ignoring case. */
  predicate EmailMismatch(parsed: Syllabus, existing: Syllabus) {
    && parsed.general.professorEmail.Some?
    && existing.general.professorEmail.Some?
    && !EqualsIgnoreCase(parsed.general.professorEmail.value, existing.general.professorEmail.value)
  }

  /**
   * `updateSyllabusFromExcel`: the first row of the sheet is merged into the
   * general data of an existing syllabus, after the career-scope and the
   * professor-email checks.
   */
  function UpdateSyllabusFromExcel(db: Db, id: nat, sheet: Sheet, parse: NumberParser, username: string): (r: Result<(Db, Syllabus)>)
    ensures FindUser(db.users, username).None? ==> r == Failure(ActingUserNotFound)
    ensures FindUser(db.users, username).Some? && FindSyllabus(db.syllabi, id).None? ==> r == Failure(SyllabusNotFound)
    ensures FindUser(db.users, username).Some? && FindSyllabus(db.syllabi, id).Some? && ParseAllSyllabi(sheet, parse).Failure?
      ==> r == Failure(NoValidRows)
    ensures r.Success? ==> FindUser(db.users, username).Some? && FindSyllabus(db.syllabi, id).Some? && ParseAllSyllabi(sheet, parse).Success?
    ensures FindUser(db.users, username).Some? && FindSyllabus(db.syllabi, id).Some? && ParseAllSyllabi(sheet, parse).Success? ==>
      var parsed := ParseAllSyllabi(sheet, parse).value[0];
      var existing := db.syllabi[FindSyllabus(db.syllabi, id).value];
      (r.Failure? <==> UploadOutOfScope(FindUser(db.users, username).value, parsed) || EmailMismatch(parsed, existing))
    ensures r.Success? ==>
      var (db', s) := r.value;
      var i := FindSyllabus(db.syllabi, id).value;
      var parsed := ParseAllSyllabi(sheet, parse).value[0];
      && db' == db.(syllabi := db.syllabi[i := s])
      && s == db.syllabi[i].(general := s.general)
      && s.general == MergeGeneral(db.syllabi[i].general, parsed.general)
  {
    var user :- LookupUser(db.users, username);
    var i :- LocateSyllabus(db.syllabi, id);
    var rows :- ParseAllSyllabi(sheet, parse);
    var parsed := rows[0];
    var existing := db.syllabi[i];
    if UploadOutOfScope(user, parsed) then Failure(CareerOutOfScope(RequiredCareer(user), SheetCareer(parsed)))
    else if EmailMismatch(parsed, existing) then Failure(ProfessorEmailMismatch)
    else
      var merged := existing.(general := MergeGeneral(existing.general, parsed.general));
      Success((db.(syllabi := db.syllabi[i := merged]), merged))
  }

  /** After a successful upload, a career-scoped coordinator's syllabus carries a career of that scope, and the professor email is as before. */
  lemma UpdateFromExcelRespectsScope(db: Db, id: nat, sheet: Sheet, parse: NumberParser, username: string)
    requires UpdateSyllabusFromExcel(db, id, sheet, parse, username).Success?
    ensures
      var user := FindUser(db.users, username).value;
      var s := UpdateSyllabusFromExcel(db, id, sheet, parse, username).value.1;
      user.role == Coordinator && HasCareerScope(user) ==> InScope(RequiredCareer(user), s)
    ensures
      var s := UpdateSyllabusFromExcel(db, id, sheet, parse, username).value.1;
      s.general.professorEmail == db.syllabi[FindSyllabus(db.syllabi, id).value].general.professorEmail
  {
  }

  /** The spreadsheet merge keeps the store well formed. */
  lemma UpdateFromExcelWf(db: Db, id: nat, sheet: Sheet, parse: NumberParser, username: string)
    requires Wf(db) && UpdateSyllabusFromExcel(db, id, sheet, parse, username).Success?
    ensures Wf(UpdateSyllabusFromExcel(db, id, sheet, parse, username).value.0)
  {
    var i := FindSyllabus(db.syllabi, id).value;
    ReplaceSyllabusWf(db.syllabi, i, UpdateSyllabusFromExcel(db, id, sheet, parse, username).value.1);
  }

  /** The first parsed row outside the required career, if any. */
  function FirstOutOfScope(required: string, rows: seq<Syllabus>): (r: Option<nat>)
    ensures r.None? <==> forall k :: 0 <= k < |rows| ==> InScope(required, rows[k])
    ensures r.Some? ==> r.value < |rows| && !InScope(required, rows[r.value])
    ensures r.Some? ==> forall j :: 0 <= j < r.value ==> InScope(required, rows[j])
  {
    FirstWhere(rows, s => !InScope(required, s))
  }

  /** A professor the bulk import links: only a present, non-empty email is looked up. */
  predicate ProfessorLinked(users: seq<User>, email: Option<string>, professor: Option<nat>) {
    if email.Some? && email.value != [] then
      professor.Some? && exists k :: (0 <= k < |users| && users[k].id == professor.value
        && users[k].username == email.value && users[k].role == Professor)
    else professor.None?
  }

  /** The row names a professor the import must look up, and the lookup fails. */
  predicate RowProfessorFails(users: seq<User>, row: Syllabus) {
    && row.general.professorEmail.Some?
    && row.general.professorEmail.value != []
    && ResolveProfessor(users, row.general.professorEmail.value).Failure?
  }

  /** The professor of one imported row. */
  function RowProfessor(users: seq<User>, row: Syllabus): (r: Result<Option<nat>>)
    ensures r.Failure? <==> RowProfessorFails(users, row)
    ensures r.Failure? ==> r.error == ResolveProfessor(users, row.general.professorEmail.value).error
    ensures r.Success? ==> ProfessorLinked(users, row.general.professorEmail, r.value)
  {
    var email := row.general.professorEmail;
    if email.Some? && email.value != [] then
      var p :- ResolveProfessor(users, email.value);
      Success(Some(p.id))
    else Success(None)
  }

  /** What the import saves for one parsed row: the template, every general field of the row, and the row's professor. */
  predicate ImportedFrom(s: Syllabus, row: Syllabus, users: seq<User>, periodId: nat, coord: User) {
    && FromTemplate(s, periodId, coord)
    && EvaluationsSaved(s)
    && s.general == row.general
    && ProfessorLinked(users, row.general.professorEmail, s.professor)
  }

  /**
   * The saving loop of the bulk import: one new syllabus per parsed row, in
   * order; the first row whose professor cannot be resolved aborts the whole
   * loop with that row's course name.
   */
  function ImportRows(users: seq<User>, ss: seq<Syllabus>, rows: seq<Syllabus>, periodId: nat, coord: User)
    : (r: Result<(seq<Syllabus>, seq<Syllabus>)>)
    ensures r.Success? ==> |r.value.1| == |rows| && r.value.0 == ss + r.value.1
    ensures r.Success? ==> forall k :: 0 <= k < |rows| ==> ImportedFrom(r.value.1[k], rows[k], users, periodId, coord)
    ensures r.Failure? ==> r.error.ImportRowFailed?
    decreases |rows|
  {
    if |rows| == 0 then Success((ss, []))
    else
      match RowProfessor(users, rows[0])
      case Failure(e) => Failure(ImportRowFailed(rows[0].general.courseName, e))
      case Success(prof) =>
        var ins := InsertSyllabus(ss, TemplateSyllabus(periodId, rows[0].general, prof, coord));
        InsertTemplateSyllabus(ss, periodId, rows[0].general, prof, coord);
        var rest :- ImportRows(users, ins.0, rows[1..], periodId, coord);
        assert forall k :: 1 <= k < |rows| ==> rows[k] == rows[1..][k - 1];
        Success((rest.0, [ins.1] + rest.1))
  }

  /** The first parsed row whose professor cannot be resolved, if any. */
  function FirstFailingRow(users: seq<User>, rows: seq<Syllabus>): (r: Option<nat>)
    ensures r.None? <==> forall k :: 0 <= k < |rows| ==> !RowProfessorFails(users, rows[k])
    ensures r.Some? ==> r.value < |rows| && RowProfessorFails(users, rows[r.value])
    ensures r.Some? ==> forall j :: 0 <= j < r.value ==> !RowProfessorFails(users, rows[j])
  {
    FirstWhere(rows, row => RowProfessorFails(users, row))
  }

  /** The reason the import gives for a row whose professor cannot be resolved. */
  function RowFailure(users: seq<User>, row: Syllabus): Error
    requires RowProfessorFails(users, row)
  {
    ImportRowFailed(row.general.courseName, ResolveProfessor(users, row.general.professorEmail.value).error)
  }

  /** The saving loop fails exactly when some row's professor cannot be resolved, and then with the first such row. */
  lemma {:induction false} ImportRowsFailure(users: seq<User>, ss: seq<Syllabus>, rows: seq<Syllabus>, periodId: nat, coord: User)
    ensures ImportRows(users, ss, rows, periodId, coord).Failure? <==> FirstFailingRow(users, rows).Some?
    ensures ImportRows(users, ss, rows, periodId, coord).Failure? ==>
      ImportRows(users, ss, rows, periodId, coord).error == RowFailure(users, rows[FirstFailingRow(users, rows).value])
    decreases |rows|
  {
    if |rows| > 0 && !RowProfessorFails(users, rows[0]) {
      var prof := RowProfessor(users, rows[0]).value;
      var ins := InsertSyllabus(ss, TemplateSyllabus(periodId, rows[0].general, prof, coord));
      ImportRowsFailure(users, ins.0, rows[1..], periodId, coord);
      var first := FirstFailingRow(users, rows);
      var rest := FirstFailingRow(users, rows[1..]);
      assert forall k :: 1 <= k < |rows| ==> rows[k] == rows[1..][k - 1];
      if rest.Some? {
        assert first.Some?;
        assert first.value == rest.value + 1;
      } else {
        assert first.None?;
      }
    }
  }

  /** The saving loop gives every new syllabus a fresh id. */
  lemma {:induction false} ImportRowsWf(users: seq<User>, ss: seq<Syllabus>, rows: seq<Syllabus>, periodId: nat, coord: User)
    requires SyllabiSaved(ss) && Unique(ss, SyllabusKey)
    requires ImportRows(users, ss, rows, periodId, coord).Success?
    ensures SyllabiSaved(ImportRows(users, ss, rows, periodId, coord).value.0)
    ensures Unique(ImportRows(users, ss, rows, periodId, coord).value.0, SyllabusKey)
    decreases |rows|
  {
    if |rows| > 0 {
      var prof := RowProfessor(users, rows[0]).value;
      var ins := InsertSyllabus(ss, TemplateSyllabus(periodId, rows[0].general, prof, coord));
      InsertSyllabusWf(ss, TemplateSyllabus(periodId, rows[0].general, prof, coord));
      ImportRowsWf(users, ins.0, rows[1..], periodId, coord);
    }
  }

  /** `findById` on the academic periods, as a result. */
  function LookupPeriod(periods: seq<Period>, id: nat): (r: Result<Period>)
    ensures r.Success? ==> r.value in periods && r.value.id == id
    ensures r.Failure? <==> forall k :: 0 <= k < |periods| ==> periods[k].id != id
    ensures r.Failure? ==> r.error == PeriodNotFound
  {
    match FindPeriod(periods, id)
    case None => Failure(PeriodNotFound)
    case Some(p) => Success(p)
  }

  /** The career check of the bulk import: every parsed row must belong to a scoped coordinator's career. */
  function ScopeCheck(coord: User, rows: seq<Syllabus>): (r: Option<Error>)
    ensures r.None? <==> !HasCareerScope(coord) || forall k :: 0 <= k < |rows| ==> InScope(RequiredCareer(coord), rows[k])
    ensures r.Some? ==> r.value.CareerOutOfScope?
  {
    if !HasCareerScope(coord) then None
    else match FirstOutOfScope(RequiredCareer(coord), rows)
      case None => None
      case Some(k) => Some(CareerOutOfScope(RequiredCareer(coord), SheetCareer(rows[k])))
  }

  /**
   * The second half of `importSyllabiFromExcel`, once the rows are parsed:
   * the career check of every row, then the saving loop, all or nothing.
   */
  function ImportParsedRows(db: Db, rows: seq<Syllabus>, periodId: nat, coord: User): (r: Result<(Db, seq<Syllabus>)>)
    ensures r.Success? <==> ScopeCheck(coord, rows).None? && FirstFailingRow(db.users, rows).None?
    ensures ScopeCheck(coord, rows).Some? ==> r == Failure(ScopeCheck(coord, rows).value)
    ensures ScopeCheck(coord, rows).None? && FirstFailingRow(db.users, rows).Some? ==>
      r == Failure(RowFailure(db.users, rows[FirstFailingRow(db.users, rows).value]))
    ensures r.Success? ==>
      var (db', saved) := r.value;
      && db' == db.(syllabi := db.syllabi + saved)
      && |saved| == |rows|
      && (forall k :: 0 <= k < |rows| ==> ImportedFrom(saved[k], rows[k], db.users, periodId, coord))
      && (HasCareerScope(coord) ==> forall k :: 0 <= k < |saved| ==> InScope(RequiredCareer(coord), saved[k]))
  {
    match ScopeCheck(coord, rows)
    case Some(e) => Failure(e)
    case None =>
      ImportRowsFailure(db.users, db.syllabi, rows, periodId, coord);
      var res :- ImportRows(db.users, db.syllabi, rows, periodId, coord);
      Success((db.(syllabi := res.0), res.1))
  }

  /**
   * `importSyllabiFromExcel`: after the coordinator, the period and the
   * sheet are read, the career of every row is checked before anything is
   * saved; then every row is saved, or none is.
   */
  function ImportSyllabiFromExcel(db: Db, sheet: Sheet, parse: NumberParser, periodId: nat, username: string)
    : (r: Result<(Db, seq<Syllabus>)>)
    ensures ActingCoordinator(db.users, username).Failure? ==> r == Failure(ActingCoordinator(db.users, username).error)
    ensures ActingCoordinator(db.users, username).Success? && FindPeriod(db.periods, periodId).None? ==>
      r == Failure(PeriodNotFound)
    ensures (&& ActingCoordinator(db.users, username).Success? && FindPeriod(db.periods, periodId).Some?
             && ParseAllSyllabi(sheet, parse).Failure?) ==>
      r == Failure(NoValidRows)
    ensures (&& ActingCoordinator(db.users, username).Success? && FindPeriod(db.periods, periodId).Some?
             && ParseAllSyllabi(sheet, parse).Success?) ==>
      r == ImportParsedRows(db, ParseAllSyllabi(sheet, parse).value, periodId, ActingCoordinator(db.users, username).value)
    ensures r.Success? ==>
      ActingCoordinator(db.users, username).Success? && FindPeriod(db.periods, periodId).Some? && ParseAllSyllabi(sheet, parse).Success?
    ensures ActingCoordinator(db.users, username).Success? && FindPeriod(db.periods, periodId).Some? && ParseAllSyllabi(sheet, parse).Success? ==>
      var coord := ActingCoordinator(db.users, username).value;
      var rows := ParseAllSyllabi(sheet, parse).value;
      (r.Success? <==> ScopeCheck(coord, rows).None? && FirstFailingRow(db.users, rows).None?)
    ensures r.Success? ==>
      var (db', saved) := r.value;
      var coord := ActingCoordinator(db.users, username).value;
      var rows := ParseAllSyllabi(sheet, parse).value;
      && db' == db.(syllabi := db.syllabi + saved)
      && |saved| == |rows|
      && (forall k :: 0 <= k < |rows| ==> ImportedFrom(saved[k], rows[k], db.users, periodId, coord))
      && (HasCareerScope(coord) ==> forall k :: 0 <= k < |saved| ==> InScope(RequiredCareer(coord), saved[k]))
  {
    var coord :- ActingCoordinator(db.users, username);
    var period :- LookupPeriod(db.periods, periodId);
    var rows :- ParseAllSyllabi(sheet, parse);
    ImportParsedRows(db, rows, period.id, coord)
  }

  /** The bulk import keeps the store well formed. */
  lemma ImportWf(db: Db, sheet: Sheet, parse: NumberParser, periodId: nat, username: string)
    requires Wf(db) && ImportSyllabiFromExcel(db, sheet, parse, periodId, username).Success?
    ensures Wf(ImportSyllabiFromExcel(db, sheet, parse, periodId, username).value.0)
  {
    var coord := ActingCoordinator(db.users, username).value;
    var rows := ParseAllSyllabi(sheet, parse).value;
    ImportRowsWf(db.users, db.syllabi, rows, periodId, coord);
  }

  /** Which syllabi `getSyllabi` shows a user: a professor its own, a coordinator with a career that career's (ignoring case), any other coordinator all. */
  predicate VisibleTo(u: User, s: Syllabus) {
    match u.role
    case Professor => s.professor == Some(u.id)
    case Coordinator => !HasCareer(u) || EqualsIgnoreCaseOrNull(u.career.value, s.general.career)
  }

  function AssignedTo(professorId: nat): Syllabus -> bool {
    (s: Syllabus) => s.professor == Some(professorId)
  }

  function OfCareer(career: string): Syllabus -> bool {
    (s: Syllabus) => EqualsIgnoreCaseOrNull(career, s.general.career)
  }

  /** `getSyllabi`: the stored syllabi the acting user may see, in store order. */
  function GetSyllabi(db: Db, username: string): (r: Result<seq<Syllabus>>)
    ensures r.Failure? <==> FindUser(db.users, username).None?
    ensures r.Failure? ==> r.error == ActingUserNotFound
    ensures r.Success? ==> forall s :: s in r.value ==> s in db.syllabi && VisibleTo(FindUser(db.users, username).value, s)
    ensures r.Success? ==> forall k :: 0 <= k < |db.syllabi| && VisibleTo(FindUser(db.users, username).value, db.syllabi[k]) ==> db.syllabi[k] in r.value
  {
    var user :- LookupUser(db.users, username);
    match user.role
    case Professor => Success(Filter(db.syllabi, AssignedTo(user.id)))
    case Coordinator =>
      if HasCareer(user) then Success(Filter(db.syllabi, OfCareer(user.career.value)))
      else Success(db.syllabi)
  }

  /** What `getSyllabi` returns keeps the store order. */
  lemma GetSyllabiOrdered(db: Db, username: string)
    requires GetSyllabi(db, username).Success?
    ensures IsSubsequence(GetSyllabi(db, username).value, db.syllabi)
  {
    var user := FindUser(db.users, username).value;
    match user.role
    case Professor => FilterIsSubsequence(db.syllabi, AssignedTo(user.id));
    case Coordinator =>
      if HasCareer(user) {
        FilterIsSubsequence(db.syllabi, OfCareer(user.career.value));
      } else {
        FilterAll(db.syllabi, (s: Syllabus) => true);
        FilterIsSubsequence(db.syllabi, (s: Syllabus) => true);
      }
  }

  /** A syllabus without a career is never shown to a coordinator who has one. */
  lemma NoCareerHiddenFromScopedCoordinator(db: Db, username: string, s: Syllabus)
    requires GetSyllabi(db, username).Success?
    requires FindUser(db.users, username).value.role == Coordinator && HasCareer(FindUser(db.users, username).value)
    requires s.general.career.None?
    ensures s !in GetSyllabi(db, username).value
  {
  }

  /** `getSyllabiByProfessor`: the syllabi assigned to the named user, whatever its role. */
  function GetSyllabiByProfessor(db: Db, username: string): (r: Result<seq<Syllabus>>)
    ensures r.Failure? <==> FindUser(db.users, username).None?
    ensures r.Failure? ==> r.error == ProfessorNotFound(username)
    ensures r.Success? ==> forall s :: s in r.value <==> s in db.syllabi && s.professor == Some(FindUser(db.users, username).value.id)
  {
    match FindUser(db.users, username)
    case None => Failure(ProfessorNotFound(username))
    case Some(u) => Success(Filter(db.syllabi, AssignedTo(u.id)))
  }

  /** `getSyllabiByStatus`: the stored syllabi in one workflow status, in store order. */
  function GetSyllabiByStatus(db: Db, st: Status): (r: seq<Syllabus>)
    ensures forall s :: s in r <==> s in db.syllabi && s.workflowStatus == st
  {
    Filter(db.syllabi, (s: Syllabus) => s.workflowStatus == st)
  }

  /** Listing by each status in turn partitions the store. */
  lemma StatusListsPartition(db: Db)
    ensures |GetSyllabiByStatus(db, Created)| + |GetSyllabiByStatus(db, Assigned)| + |GetSyllabiByStatus(db, Submitted)|
      + |GetSyllabiByStatus(db, Approved)| + |GetSyllabiByStatus(db, Returned)| == |db.syllabi|
  {
    StatusCountsPartition(db.syllabi);
  }

  /** The counts of the five statuses add up to the whole list. */
  lemma {:induction false} StatusCountsPartition(ss: seq<Syllabus>)
    ensures |Filter(ss, (s: Syllabus) => s.workflowStatus == Created)| + |Filter(ss, (s: Syllabus) => s.workflowStatus == Assigned)|
      + |Filter(ss, (s: Syllabus) => s.workflowStatus == Submitted)| + |Filter(ss, (s: Syllabus) => s.workflowStatus == Approved)|
      + |Filter(ss, (s: Syllabus) => s.workflowStatus == Returned)| == |ss|
  {
    if |ss| > 0 {
      StatusCountsPartition(ss[1..]);
    }
  }

  /** `getSyllabus` */
  function GetSyllabus(db: Db, id: nat): (r: Result<Syllabus>)
    ensures r.Success? ==> r.value in db.syllabi && r.value.id == Some(id)
    ensures r.Failure? <==> forall k :: 0 <= k < |db.syllabi| ==> db.syllabi[k].id != Some(id)
    ensures r.Failure? ==> r.error == SyllabusNotFound
  {
    var i :- LocateSyllabus(db.syllabi, id);
    Success(db.syllabi[i])
  }

  /** The body of an update request: the six text sections, and the units and evaluations when they are not null. */
  datatype ContentUpdate = ContentUpdate(content: Content, units: Option<seq<Unit>>, evaluations: Option<seq<Evaluation>>)

  /** The professor's edit of one syllabus: text sections always, units and evaluations only when supplied. */
  function ApplyContent(s: Syllabus, upd: ContentUpdate): (r: Syllabus)
    ensures r.content == upd.content
    ensures r.units == upd.units.GetOr(s.units) && r.evaluations == upd.evaluations.GetOr(s.evaluations)
    ensures r.(content := s.content, units := s.units, evaluations := s.evaluations) == s
  {
    s.(content := upd.content,
       units := if upd.units.Some? then upd.units.value else s.units,
       evaluations := if upd.evaluations.Some? then upd.evaluations.value else s.evaluations)
  }

  /** Applying the same edit twice is applying it once. */
  lemma ApplyContentIdempotent(s: Syllabus, upd: ContentUpdate)
    ensures ApplyContent(ApplyContent(s, upd), upd) == ApplyContent(s, upd)
  {
  }

  /** `updateSyllabus`: only the professor-editable parts of the stored syllabus change. */
  function UpdateSyllabus(db: Db, id: nat, upd: ContentUpdate): (r: Result<(Db, Syllabus)>)
    ensures r.Failure? <==> forall k :: 0 <= k < |db.syllabi| ==> db.syllabi[k].id != Some(id)
    ensures r.Failure? ==> r.error == SyllabusNotFound
    ensures r.Success? ==>
      var (db', s) := r.value;
      var i := FindSyllabus(db.syllabi, id).value;
      && db' == db.(syllabi := db.syllabi[i := s])
      && s == ApplyContent(db.syllabi[i], upd)
      && s.general == db.syllabi[i].general && s.workflowStatus == db.syllabi[i].workflowStatus
  {
    var i :- LocateSyllabus(db.syllabi, id);
    var s := ApplyContent(db.syllabi[i], upd);
    Success((db.(syllabi := db.syllabi[i := s]), s))
  }

  /** `updateStatus`: sets the workflow status of one syllabus, whatever it was. */
  function UpdateStatus(db: Db, id: nat, st: Status): (r: Result<(Db, Syllabus)>)
    ensures r.Failure? <==> forall k :: 0 <= k < |db.syllabi| ==> db.syllabi[k].id != Some(id)
    ensures r.Failure? ==> r.error == SyllabusNotFound
    ensures r.Success? ==>
      var (db', s) := r.value;
      var i := FindSyllabus(db.syllabi, id).value;
      && db' == db.(syllabi := db.syllabi[i := s])
      && s.workflowStatus == st
      && s.(workflowStatus := db.syllabi[i].workflowStatus) == db.syllabi[i]
  {
    var i :- LocateSyllabus(db.syllabi, id);
    var s := SetWorkflowStatus(db.syllabi[i], st);
    Success((db.(syllabi := db.syllabi[i := s]), s))
  }

  /** The current status is never consulted: the outcome is the same whatever status the syllabus had. */
  lemma UpdateStatusIgnoresCurrent(db: Db, id: nat, st: Status, current: Status)
    requires FindSyllabus(db.syllabi, id).Some?
    ensures
      var i := FindSyllabus(db.syllabi, id).value;
      var db2 := db.(syllabi := db.syllabi[i := SetWorkflowStatus(db.syllabi[i], current)]);
      UpdateStatus(db2, id, st) == UpdateStatus(db, id, st)
  {
    var i := FindSyllabus(db.syllabi, id).value;
    var ss2 := db.syllabi[i := SetWorkflowStatus(db.syllabi[i], current)];
    FindSyllabusSameIds(ss2, db.syllabi, id);
    assert ss2[i := SetWorkflowStatus(ss2[i], st)] == db.syllabi[i := SetWorkflowStatus(db.syllabi[i], st)];
  }

  /** Status updates and content edits keep the store well formed. */
  lemma UpdatesWf(db: Db, id: nat, st: Status, upd: ContentUpdate)
    requires Wf(db)
    ensures UpdateStatus(db, id, st).Success? ==> Wf(UpdateStatus(db, id, st).value.0)
    ensures UpdateSyllabus(db, id, upd).Success? ==> Wf(UpdateSyllabus(db, id, upd).value.0)
  {
    if FindSyllabus(db.syllabi, id).Some? {
      var i := FindSyllabus(db.syllabi, id).value;
      ReplaceSyllabusWf(db.syllabi, i, SetWorkflowStatus(db.syllabi[i], st));
      ReplaceSyllabusWf(db.syllabi, i, ApplyContent(db.syllabi[i], upd));
    }
  }

  /** `deleteSyllabus`: removes the syllabus with that id; an unknown id changes nothing. */
  function DeleteSyllabus(db: Db, id: nat): (r: Db)
    ensures r.users == db.users && r.periods == db.periods && r.careers == db.careers
    ensures forall s :: s in r.syllabi <==> s in db.syllabi && s.id != Some(id)
    ensures IsSubsequence(r.syllabi, db.syllabi)
  {
    FilterIsSubsequence(db.syllabi, (s: Syllabus) => s.id != Some(id));
    db.(syllabi := Filter(db.syllabi, (s: Syllabus) => s.id != Some(id)))
  }

  /** Deleting an id that is not stored leaves the store as it was. */
  lemma DeleteUnknownIsNoOp(db: Db, id: nat)
    requires forall k :: 0 <= k < |db.syllabi| ==> db.syllabi[k].id != Some(id)
    ensures DeleteSyllabus(db, id) == db
  {
    FilterAll(db.syllabi, (s: Syllabus) => s.id != Some(id));
  }
}
