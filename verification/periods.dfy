/**
 * The academic-period registry: coordinators create periods with unique
 * names, and periods are listed by owner or fetched by id.
 */
module Periods {
  import opened Base
  import opened Domain
  import opened Stores
  import opened SyllabusRules

  /** The body of a period-creation request. Dates are day numbers. */
  datatype PeriodRequest = PeriodRequest(name: string, startDate: int, endDate: int)

  /** The period the builder makes for a request: owned and created by the coordinator, ACTIVE, with a fresh id. */
  function NewPeriod(periods: seq<Period>, req: PeriodRequest, coord: User): (p: Period)
    ensures p.name == req.name && p.startDate == req.startDate && p.endDate == req.endDate
    ensures p.coordinator == coord.id && p.createdBy == coord.id && p.status == ActiveStatus
    ensures forall k :: 0 <= k < |periods| ==> periods[k].id < p.id
  {
    Period(FreshId(periods, PeriodId), req.name, req.startDate, req.endDate, coord.id, ActiveStatus, coord.id)
  }

  /**
   * `createAcademicPeriod`: the acting user must exist and be a coordinator,
   * and the name must be free; then exactly one period is appended.
   */
  function CreatePeriod(db: Db, req: PeriodRequest, username: string): (r: Result<(Db, Period)>)
    ensures ActingCoordinator(db.users, username).Failure? ==> r == Failure(ActingCoordinator(db.users, username).error)
    ensures ActingCoordinator(db.users, username).Success? && (exists k :: 0 <= k < |db.periods| && db.periods[k].name == req.name)
      ==> r == Failure(PeriodNameTaken)
    ensures r.Success? ==> ActingCoordinator(db.users, username).Success?
    ensures r.Success? ==> forall k :: 0 <= k < |db.periods| ==> db.periods[k].name != req.name
    ensures r.Success? ==> r.value.0 == db.(periods := db.periods + [r.value.1])
    ensures r.Success? ==> var p := r.value.1;
      && p.name == req.name && p.startDate == req.startDate && p.endDate == req.endDate
      && p.coordinator == p.createdBy
      && (exists k :: 0 <= k < |db.users| && db.users[k].id == p.coordinator
                      && db.users[k].username == username && db.users[k].role == Coordinator)
  {
    var coord :- ActingCoordinator(db.users, username);
    if FindPeriodByName(db.periods, req.name).Some? then Failure(PeriodNameTaken)
    else
      var p := NewPeriod(db.periods, req, coord);
      Success((db.(periods := db.periods + [p]), p))
  }

  /** Creating a period succeeds exactly for a coordinator with a new name. */
  lemma CreatePeriodSucceedsIff(db: Db, req: PeriodRequest, username: string)
    requires Unique(db.users, Username)
    ensures CreatePeriod(db, req, username).Success? <==>
      && (exists k :: 0 <= k < |db.users| && db.users[k].username == username && db.users[k].role == Coordinator)
      && (forall k :: 0 <= k < |db.periods| ==> db.periods[k].name != req.name)
  {
    ActingCoordinatorIff(db.users, username);
  }

  /** Period creation keeps the store well formed. */
  lemma CreatePeriodWf(db: Db, req: PeriodRequest, username: string)
    requires Wf(db)
    ensures CreatePeriod(db, req, username).Success? ==> Wf(CreatePeriod(db, req, username).value.0)
  {
    var r := CreatePeriod(db, req, username);
    if r.Success? {
      var p := r.value.1;
      AppendUnique(db.periods, p, PeriodId);
      AppendUnique(db.periods, p, PeriodName);
    }
  }

  /** `getAcademicPeriodsByCoordinator`: an unknown user is an error; otherwise the periods that user owns, in store order. */
  function PeriodsByCoordinator(db: Db, username: string): (r: Result<seq<Period>>)
    ensures r.Failure? <==> forall k :: 0 <= k < |db.users| ==> db.users[k].username != username
    ensures r.Failure? ==> r.error == ActingUserNotFound
    ensures r.Success? ==> IsSubsequence(r.value, db.periods)
    ensures r.Success? ==> exists u :: (u in db.users && u.username == username
      && (forall k :: 0 <= k < |r.value| ==> r.value[k].coordinator == u.id)
      && (forall k :: 0 <= k < |db.periods| && db.periods[k].coordinator == u.id ==> db.periods[k] in r.value))
  {
    match FindUser(db.users, username)
    case None => Failure(ActingUserNotFound)
    case Some(u) =>
      var owned := Filter(db.periods, (p: Period) => p.coordinator == u.id);
      FilterIsSubsequence(db.periods, (p: Period) => p.coordinator == u.id);
      Success(owned)
  }

  /** `getAcademicPeriod`: the stored period with that id, or an error. */
  function GetPeriod(db: Db, id: nat): (r: Result<Period>)
    ensures r.Failure? <==> forall k :: 0 <= k < |db.periods| ==> db.periods[k].id != id
    ensures r.Failure? ==> r.error == PeriodNotFound
    ensures r.Success? ==> r.value in db.periods && r.value.id == id
  {
    match FindPeriod(db.periods, id)
    case None => Failure(PeriodNotFound)
    case Some(p) => Success(p)
  }

  /** A period just created is found again by its id and listed among its creator's periods. */
  lemma CreatedPeriodFound(db: Db, req: PeriodRequest, username: string)
    requires Wf(db)
    requires CreatePeriod(db, req, username).Success?
    ensures var (db', p) := CreatePeriod(db, req, username).value;
      GetPeriod(db', p.id) == Success(p)
    ensures var (db', p) := CreatePeriod(db, req, username).value;
      PeriodsByCoordinator(db', username).Success? && p in PeriodsByCoordinator(db', username).value
  {
    var (db', p) := CreatePeriod(db, req, username).value;
    var k := |db.periods|;
    assert db'.periods[k] == p;
  }
}
