/**
 * The syllabus endpoints: the role guards in front of the service, the
 * routing of the list endpoint, and the authorisation of status changes.
 *
 * The status endpoint checks only who asks and for which status; it never
 * looks at the status the syllabus is in, nor at whom it is assigned to.
 */
module SyllabusEndpoints {
  import opened Base
  import opened Text
  import opened Domain
  import opened Stores
  import opened Excel
  import opened SyllabusRules

  /** `POST /api/syllabi`: coordinators only. */
  function CreateEndpoint(db: Db, auth: Auth, req: CreateRequest): (r: Result<(Db, Syllabus)>)
    ensures Coordinator !in auth.authorities ==> r == Failure(AccessDenied)
    ensures Coordinator in auth.authorities ==> r == CreateSyllabus(db, req, auth.username)
  {
    if Coordinator !in auth.authorities then Failure(AccessDenied) else CreateSyllabus(db, req, auth.username)
  }

  /** `POST /api/syllabi/{id}/upload-excel`: coordinators only; the caller's username reaches the service. */
  function UploadExcelEndpoint(db: Db, auth: Auth, id: nat, sheet: Sheet, parse: NumberParser): (r: Result<(Db, Syllabus)>)
    ensures Coordinator !in auth.authorities ==> r == Failure(AccessDenied)
    ensures Coordinator in auth.authorities ==> r == UpdateSyllabusFromExcel(db, id, sheet, parse, auth.username)
  {
    if Coordinator !in auth.authorities then Failure(AccessDenied)
    else UpdateSyllabusFromExcel(db, id, sheet, parse, auth.username)
  }

  /** `POST /api/syllabi/upload-bulk`: coordinators only. */
  function UploadBulkEndpoint(db: Db, auth: Auth, sheet: Sheet, parse: NumberParser, periodId: nat): (r: Result<(Db, seq<Syllabus>)>)
    ensures Coordinator !in auth.authorities ==> r == Failure(AccessDenied)
    ensures Coordinator in auth.authorities ==> r == ImportSyllabiFromExcel(db, sheet, parse, periodId, auth.username)
  {
    if Coordinator !in auth.authorities then Failure(AccessDenied)
    else ImportSyllabiFromExcel(db, sheet, parse, periodId, auth.username)
  }

  /** A caller without the coordinator role changes nothing through the three guarded endpoints. */
  lemma GuardedEndpointsNeedCoordinator(db: Db, auth: Auth, req: CreateRequest, id: nat, sheet: Sheet, parse: NumberParser, periodId: nat)
    requires Coordinator !in auth.authorities
    ensures CreateEndpoint(db, auth, req).Failure?
    ensures UploadExcelEndpoint(db, auth, id, sheet, parse).Failure?
    ensures UploadBulkEndpoint(db, auth, sheet, parse, periodId).Failure?
  {
  }

  /**
   * `GET /api/syllabi`: a coordinator gets the syllabi in the requested
   * status, or all of them; anyone else gets the syllabi assigned to it.
   */
  function ListSyllabi(db: Db, auth: Auth, status: Option<Status>): (r: Result<seq<Syllabus>>)
    ensures Coordinator in auth.authorities && status.Some? ==>
      r.Success? && forall s :: s in r.value <==> s in db.syllabi && s.workflowStatus == status.value
    ensures Coordinator in auth.authorities && status.None? ==> r == Success(db.syllabi)
    ensures Coordinator !in auth.authorities ==> (r.Failure? <==> FindUser(db.users, auth.username).None?)
    ensures Coordinator !in auth.authorities && r.Success? ==>
      forall s :: s in r.value <==> s in db.syllabi && s.professor == Some(FindUser(db.users, auth.username).value.id)
  {
    if Coordinator in auth.authorities then
      if status.Some? then Success(GetSyllabiByStatus(db, status.value)) else Success(db.syllabi)
    else GetSyllabiByProfessor(db, auth.username)
  }

  /**
   * The list endpoint does not scope coordinators by career: the stored
   * users, and so the caller's career, play no part in what it returns.
   */
  lemma ListIgnoresCareer(db: Db, users: seq<User>, auth: Auth, status: Option<Status>)
    requires Coordinator in auth.authorities
    ensures ListSyllabi(db.(users := users), auth, status) == ListSyllabi(db, auth, status)
  {
  }

  /**
   * Every stored syllabus that `getSyllabi` hides from a career-scoped
   * coordinator is still listed to that coordinator by the list endpoint.
   */
  lemma ListShowsOtherCareers(db: Db, username: string, k: nat)
    requires FindUser(db.users, username).Some?
    requires FindUser(db.users, username).value.role == Coordinator && HasCareer(FindUser(db.users, username).value)
    requires k < |db.syllabi| && !VisibleTo(FindUser(db.users, username).value, db.syllabi[k])
    ensures db.syllabi[k] in ListSyllabi(db, Auth(username, {Coordinator}), None).value
    ensures GetSyllabi(db, username).Success? && db.syllabi[k] !in GetSyllabi(db, username).value
  {
  }

  /** One such syllabus: a coordinator of career A is listed a syllabus of career B. */
  lemma ListShowsOtherCareersExample()
    ensures
      var coord := User(1, "coord", "", "", Coordinator, Some("A"), ActiveStatus);
      var other := EmptySyllabus.(id := Some(1), general := NoGeneralData.(career := Some("B")));
      var db := Db([coord], [], [], [other]);
      && ListSyllabi(db, Auth("coord", {Coordinator}), None) == Success([other])
      && GetSyllabi(db, "coord") == Success([])
  {
    var coord := User(1, "coord", "", "", Coordinator, Some("A"), ActiveStatus);
    var other := EmptySyllabus.(id := Some(1), general := NoGeneralData.(career := Some("B")));
    assert !EqualsIgnoreCase("A", "B") by {
      assert "A"[0] == 'A' && "B"[0] == 'B';
      assert FoldCase('A') == 'a' && FoldCase('B') == 'b';
    }
    assert Filter([other], OfCareer("A")) == [] by {
      assert !OfCareer("A")(other);
    }
  }

  /** The authorisation rule of the status endpoint, stated on the caller's roles and the requested status. */
  predicate StatusChangePermitted(authorities: set<Role>, st: Status) {
    && (Coordinator in authorities || Professor in authorities)
    && (Professor in authorities ==> st == Submitted)
  }

  /** `POST /api/syllabi/{id}/status` */
  function UpdateStatusEndpoint(db: Db, auth: Auth, id: nat, st: Status): (r: Result<(Db, Syllabus)>)
    ensures Professor in auth.authorities && st != Submitted ==> r == Failure(ProfessorsOnlySubmit)
    ensures Professor !in auth.authorities && Coordinator !in auth.authorities ==> r == Failure(UnauthorizedStatusChange)
    ensures StatusChangePermitted(auth.authorities, st) ==> r == UpdateStatus(db, id, st)
    ensures r.Success? <==> StatusChangePermitted(auth.authorities, st) && exists k :: 0 <= k < |db.syllabi| && db.syllabi[k].id == Some(id)
    ensures r.Success? ==> r.value.1.workflowStatus == st
  {
    if Professor in auth.authorities && st != Submitted then Failure(ProfessorsOnlySubmit)
    else if Coordinator !in auth.authorities && Professor !in auth.authorities then Failure(UnauthorizedStatusChange)
    else UpdateStatus(db, id, st)
  }

  /** Nothing orders the workflow on the server: a coordinator can send an APPROVED syllabus back to CREATED. */
  lemma CoordinatorReopensApproved(db: Db, username: string, id: nat)
    requires FindSyllabus(db.syllabi, id).Some? && db.syllabi[FindSyllabus(db.syllabi, id).value].workflowStatus == Approved
    ensures UpdateStatusEndpoint(db, Auth(username, {Coordinator}), id, Created).Success?
    ensures UpdateStatusEndpoint(db, Auth(username, {Coordinator}), id, Created).value.1.workflowStatus == Created
  {
  }

  /**
   * A professor can submit any stored syllabus, including an APPROVED one
   * assigned to someone else: neither the status nor the assignment is read.
   */
  lemma ProfessorSubmitsAnySyllabus(db: Db, username: string, id: nat)
    requires exists k :: 0 <= k < |db.syllabi| && db.syllabi[k].id == Some(id)
    ensures UpdateStatusEndpoint(db, Auth(username, {Professor}), id, Submitted).Success?
  {
  }

  /** The outcome of the status endpoint does not depend on the status the syllabus was in. */
  lemma StatusEndpointIgnoresCurrent(db: Db, auth: Auth, id: nat, st: Status, current: Status)
    requires FindSyllabus(db.syllabi, id).Some?
    ensures
      var i := FindSyllabus(db.syllabi, id).value;
      var db2 := db.(syllabi := db.syllabi[i := SetWorkflowStatus(db.syllabi[i], current)]);
      UpdateStatusEndpoint(db2, auth, id, st) == UpdateStatusEndpoint(db, auth, id, st)
  {
    UpdateStatusIgnoresCurrent(db, id, st, current);
  }
}
