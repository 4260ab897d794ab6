/**
 * Failure-compatible wrappers shared by every module of the model.
 *
 * The backend reports every failure by throwing a RuntimeException whose
 * message names the reason; here each reason is one constructor of `Error`,
 * so that contracts can say which failure an input produces.  A `Failure`
 * never carries a new store: every service method of the backend is
 * transactional, so a failed call leaves the repositories as they were.
 */
module Base {

  datatype Option<+T> = None | Some(value: T) {
    function GetOr(default: T): T {
      match this
      case Some(v) => v
      case None => default
    }
  }

  /** The reasons the backend gives when it refuses a request. */
  datatype Error =
    | ActingUserNotFound              // "Coordinator not found" / "User not found"
    | NotCoordinator                  // "Only coordinators can ..."
    | PeriodNotFound                  // lookup of an academic period by id or name failed
    | PeriodNotGiven                  // neither period id nor period name in the request
    | ProfessorNotFound(email: string)
    | NotAProfessor(email: string)
    | CareerRequired                  // administrator created a syllabus without a career
    | SyllabusNotFound
    | NoValidRows                     // the spreadsheet has no data row that maps
    | CareerOutOfScope(required: string, found: string)
    | ProfessorEmailMismatch
    | ImportRowFailed(course: Option<string>, cause: Error)
    | ProfessorsOnlySubmit            // a professor asked for a status other than SUBMITTED
    | UnauthorizedStatusChange        // neither coordinator nor professor authority
    | AccessDenied                    // a role guard on the endpoint refused the caller
    | UserNotFound                    // 404 of the user update endpoint
    | UsernameTaken
    | PeriodNameTaken
    | CareerNameTaken

  datatype Result<+T> = Success(value: T) | Failure(error: Error) {
    predicate IsFailure() {
      Failure?
    }

    function PropagateFailure<U>(): Result<U>
      requires Failure?
    {
      Failure(error)
    }

    function Extract(): T
      requires Success?
    {
      value
    }
  }
}
