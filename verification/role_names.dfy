/**
 * How the client names the role of the signed-in user: a coordinator
 * without a career is the administrator.
 */
module RoleNames {
  import opened Base
  import opened Domain
  import opened SyllabiView

  /** A string is falsy in JavaScript when it is missing or empty. */
  predicate Falsy(s: Option<string>) {
    s.None? || s.value == ""
  }

  /** `getRoleDisplayName` */
  function RoleDisplayName(role: Option<string>, career: Option<string>): (r: string)
    ensures Falsy(role) ==> r == ""
    ensures role == Some("COORDINATOR") && Falsy(career) ==> r == "Administrador/a"
    ensures role == Some("COORDINATOR") && !Falsy(career) ==> r == "Coordinador/a"
    ensures role == Some("PROFESSOR") ==> r == "Docente"
    ensures !Falsy(role) && role != Some("COORDINATOR") && role != Some("PROFESSOR") ==> r == role.value
  {
    if Falsy(role) then ""
    else if role.value == "COORDINATOR" && Falsy(career) then "Administrador/a"
    else if role.value == "COORDINATOR" then "Coordinador/a"
    else if role.value == "PROFESSOR" then "Docente"
    else role.value
  }

  /** The kinds of account the backend distinguishes by role and career scope. */
  datatype AccountKind = Administrator | CareerCoordinator | Teacher

  function KindOf(u: User): AccountKind {
    if u.role == Professor then Teacher
    else if HasCareer(u) then CareerCoordinator
    else Administrator
  }

  /**
   * For a stored user the client's name tells the kind of account apart:
   * the administrator is exactly the coordinator the backend treats as
   * unscoped, and exactly the coordinator who is not offered the creation menu.
   */
  lemma DisplayNameNamesKind(u: User)
    ensures RoleDisplayName(Some(RoleName(u.role)), u.career) ==
      match KindOf(u)
      case Administrator => "Administrador/a"
      case CareerCoordinator => "Coordinador/a"
      case Teacher => "Docente"
    ensures RoleDisplayName(Some(RoleName(u.role)), u.career) == "Administrador/a"
      <==> u.role == Coordinator && !ShowCreateMenu(SessionOf(u))
  {
    CreateMenuMatchesBackend(u);
  }

  /** Different kinds of account get different names. */
  lemma DisplayNamesDistinct(u: User, v: User)
    requires KindOf(u) != KindOf(v)
    ensures RoleDisplayName(Some(RoleName(u.role)), u.career) != RoleDisplayName(Some(RoleName(v.role)), v.career)
  {
    DisplayNameNamesKind(u);
    DisplayNameNamesKind(v);
  }
}
