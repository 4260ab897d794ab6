/**
 * The syllabus list page of the client: which fetched syllabi are shown,
 * how a status is labelled, which row actions each role is offered and
 * which request a confirmed action sends.  The signed-in user is optional;
 * its role is the string the server sent.
 */
module SyllabiView {
  import opened Base
  import opened Text
  import opened Domain
  import opened Stores
  import opened SyllabusEndpoints

  /** The signed-in user as the client keeps it; a career of "" is falsy. */
  datatype ClientUser = ClientUser(role: string, career: Option<string>)

  type Session = Option<ClientUser>

  /** `user?.role` */
  function RoleOf(session: Session): Option<string> {
    match session
    case None => None
    case Some(u) => Some(u.role)
  }

  /** The session the client keeps for a stored user after signing in. */
  function SessionOf(u: User): Session {
    Some(ClientUser(RoleName(u.role), u.career))
  }

  /** The period selector: every period, or one period id. */
  datatype PeriodChoice = AllPeriods | OnePeriod(id: nat)

  /** Whether one fetched syllabus survives the list filter. */
  predicate Shown(choice: PeriodChoice, role: Option<string>, s: Syllabus) {
    && (choice.OnePeriod? ==> s.period == Some(choice.id))
    && !(role == Some("PROFESSOR") && s.workflowStatus == Created)
  }

  /**
   * `filteredSyllabi`: with a period selected only its syllabi remain, and a
   * professor never sees a CREATED one; the rest keep their order.
   */
  function FilterSyllabi(list: seq<Syllabus>, choice: PeriodChoice, session: Session): (r: seq<Syllabus>)
    ensures IsSubsequence(r, list)
    ensures choice.OnePeriod? ==> forall k :: 0 <= k < |r| ==> r[k].period == Some(choice.id)
    ensures RoleOf(session) == Some("PROFESSOR") ==> forall k :: 0 <= k < |r| ==> r[k].workflowStatus != Created
    ensures forall k :: 0 <= k < |list| && Shown(choice, RoleOf(session), list[k]) ==> list[k] in r
  {
    var keep := (s: Syllabus) => Shown(choice, RoleOf(session), s);
    FilterIsSubsequence(list, keep);
    Filter(list, keep)
  }

  /** Without a period selected, anyone but a professor sees the whole list, CREATED syllabi included. */
  lemma NonProfessorSeesAll(list: seq<Syllabus>, session: Session)
    requires RoleOf(session) != Some("PROFESSOR")
    ensures FilterSyllabi(list, AllPeriods, session) == list
  {
    FilterAll(list, (s: Syllabus) => Shown(AllPeriods, RoleOf(session), s));
  }

  /** A professor without a period selected sees exactly the syllabi that are not CREATED. */
  lemma ProfessorSeesAllButCreated(list: seq<Syllabus>, session: Session)
    requires RoleOf(session) == Some("PROFESSOR")
    ensures FilterSyllabi(list, AllPeriods, session) == Filter(list, (s: Syllabus) => s.workflowStatus != Created)
  {
    var keep := (s: Syllabus) => Shown(AllPeriods, RoleOf(session), s);
    var notCreated := (s: Syllabus) => s.workflowStatus != Created;
    SameFilter(list, keep, notCreated);
  }

  /** The label a coordinator reads for each status. */
  function CoordinatorLabel(st: Status): string {
    match st
    case Created => "Pendiente de asignar"
    case Assigned => "Enviado al profesor"
    case Submitted => "Pendiente de revisión"
    case Approved => "Aprobado"
    case Returned => "Devuelto con observaciones"
  }

  /** The label a professor reads; CREATED has none. */
  function ProfessorLabel(st: Status): Option<string> {
    match st
    case Created => None
    case Assigned => Some("Por completar")
    case Submitted => Some("En revisión")
    case Approved => Some("Aprobado")
    case Returned => Some("Requiere correcciones")
  }

  /**
   * `getStatusLabel`: "---" for an empty status, the role's label for a
   * known status, and the status text itself otherwise.
   */
  function StatusLabel(status: string, role: Option<string>): (r: string)
    ensures status == "" ==> r == "---"
    ensures status != "" && role == Some("COORDINATOR") && ParseStatus(status).Some? ==> r == CoordinatorLabel(ParseStatus(status).value)
    ensures status != "" && role == Some("PROFESSOR") && ParseStatus(status).Some? && ProfessorLabel(ParseStatus(status).value).Some?
      ==> r == ProfessorLabel(ParseStatus(status).value).value
    ensures status != "" && role == Some("PROFESSOR") && ParseStatus(status) == Some(Created) ==> r == status
    ensures status != "" && ParseStatus(status).None? ==> r == status
    ensures status != "" && role != Some("COORDINATOR") && role != Some("PROFESSOR") ==> r == status
  {
    if status == "" then "---"
    else if role == Some("COORDINATOR") then
      match ParseStatus(status)
      case Some(st) => CoordinatorLabel(st)
      case None => status
    else if role == Some("PROFESSOR") then
      match ParseStatus(status)
      case Some(st) => ProfessorLabel(st).GetOr(status)
      case None => status
    else status
  }

  /** A coordinator can tell every status from its label: the five labels differ. */
  lemma CoordinatorLabelsDistinct(a: Status, b: Status)
    requires a != b
    ensures StatusLabel(StatusName(a), Some("COORDINATOR")) != StatusLabel(StatusName(b), Some("COORDINATOR"))
  {
  }

  /** A professor reads "CREATED" verbatim: that status has no label in the professor's table. */
  lemma ProfessorSeesRawCreated()
    ensures StatusLabel(StatusName(Created), Some("PROFESSOR")) == "CREATED"
  {
  }

  /** The row buttons, in display order. */
  datatype Button = AssignButton | ApproveButton | ReturnButton | UploadButton | EditButton | PdfButton | DeleteButton

  /**
   * The buttons of one row: assign for a coordinator on CREATED, approve and
   * return for a coordinator on SUBMITTED, upload and delete for any
   * coordinator, edit for a professor, and the PDF view for everyone.
   * The career is not consulted.
   */
  function RowButtons(role: Option<string>, st: Status): (r: seq<Button>)
    ensures AssignButton in r <==> role == Some("COORDINATOR") && st == Created
    ensures ApproveButton in r <==> role == Some("COORDINATOR") && st == Submitted
    ensures ReturnButton in r <==> role == Some("COORDINATOR") && st == Submitted
    ensures UploadButton in r <==> role == Some("COORDINATOR")
    ensures DeleteButton in r <==> role == Some("COORDINATOR")
    ensures EditButton in r <==> role == Some("PROFESSOR")
    ensures PdfButton in r
    ensures forall i, j :: 0 <= i < j < |r| ==> r[i] != r[j]
  {
    if role == Some("COORDINATOR") then
      match st
      case Created => [AssignButton, UploadButton, PdfButton, DeleteButton]
      case Submitted => [ApproveButton, ReturnButton, UploadButton, PdfButton, DeleteButton]
      case _ => [UploadButton, PdfButton, DeleteButton]
    else if role == Some("PROFESSOR") then [EditButton, PdfButton]
    else [PdfButton]
  }

  /** The actions that open the confirmation dialog. */
  datatype Action = Assign | Approve | Return | Delete

  /** The request a confirmed action sends: a deletion, or a status change. */
  datatype ActionRequest = DeleteRequest | StatusRequest(status: Status)

  /** `handleConfirmAction`: assign, approve and return become status changes; delete sends no status. */
  function ConfirmAction(a: Action): (r: ActionRequest)
    ensures r.DeleteRequest? <==> a == Delete
    ensures r.StatusRequest? ==> r.status in {Assigned, Approved, Returned}
    ensures a == Assign ==> r == StatusRequest(Assigned)
    ensures a == Approve ==> r == StatusRequest(Approved)
    ensures a == Return ==> r == StatusRequest(Returned)
  {
    match a
    case Assign => StatusRequest(Assigned)
    case Approve => StatusRequest(Approved)
    case Return => StatusRequest(Returned)
    case Delete => DeleteRequest
  }

  /** Different actions send different requests. */
  lemma ConfirmActionInjective(a: Action, b: Action)
    requires a != b
    ensures ConfirmAction(a) != ConfirmAction(b)
  {
  }

  /** The action behind each status button. */
  function ButtonAction(b: Button): Option<Action> {
    match b
    case AssignButton => Some(Assign)
    case ApproveButton => Some(Approve)
    case ReturnButton => Some(Return)
    case DeleteButton => Some(Delete)
    case _ => None
  }

  /** The workflow the buttons walk: CREATED to ASSIGNED, and SUBMITTED to APPROVED or RETURNED. */
  predicate WorkflowStep(from: Status, to: Status) {
    || (from == Created && to == Assigned)
    || (from == Submitted && (to == Approved || to == Returned))
  }

  /**
   * Every status change the page offers follows the workflow, and the server
   * accepts it from a coordinator; the order lives in the client only.
   */
  lemma OfferedChangesFollowWorkflow(role: Option<string>, st: Status, b: Button)
    requires b in RowButtons(role, st)
    requires ButtonAction(b).Some? && ConfirmAction(ButtonAction(b).value).StatusRequest?
    ensures WorkflowStep(st, ConfirmAction(ButtonAction(b).value).status)
    ensures StatusChangePermitted({Coordinator}, ConfirmAction(ButtonAction(b).value).status)
  {
  }

  /** `user?.role === 'COORDINATOR' && user?.career`: the creation menu. */
  predicate ShowCreateMenu(session: Session) {
    && RoleOf(session) == Some("COORDINATOR")
    && session.value.career.Some? && session.value.career.value != ""
  }

  /**
   * The creation menu appears for a stored user exactly when the backend
   * can take the syllabus career from that user: a coordinator with a career.
   */
  lemma CreateMenuMatchesBackend(u: User)
    ensures ShowCreateMenu(SessionOf(u)) <==> u.role == Coordinator && HasCareer(u)
  {
  }
}
