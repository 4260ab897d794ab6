/**
 * The dashboard of the client: one counter per workflow status over the
 * fetched syllabi, shown as five cards whose titles depend on the role.
 */
module Dashboard {
  import opened Base
  import opened Domain
  import opened Stores

  /** The number of syllabi in one workflow status. */
  function StatusCount(list: seq<Syllabus>, st: Status): (n: nat)
    ensures n <= |list|
  {
    Count(list, (s: Syllabus) => s.workflowStatus == st)
  }

  /** The statuses of a list, as a multiset: an independent account of how many syllabi are in each status. */
  function StatusBag(list: seq<Syllabus>): multiset<Status> {
    multiset(Map(list, (s: Syllabus) => s.workflowStatus))
  }

  /** Each counter is the multiplicity of its status among the syllabi. */
  lemma {:induction false} StatusCountIsMultiplicity(list: seq<Syllabus>, st: Status)
    ensures StatusCount(list, st) == StatusBag(list)[st]
  {
    if |list| > 0 {
      StatusCountIsMultiplicity(list[1..], st);
      var f := (s: Syllabus) => s.workflowStatus;
      assert list == [list[0]] + list[1..];
      MapAppend([list[0]], list[1..], f);
      assert Map([list[0]], f) == [list[0].workflowStatus];
    }
  }

  /** The five counters together count every syllabus once: the status type is closed. */
  lemma {:induction false} CountersSum(list: seq<Syllabus>)
    ensures StatusCount(list, Created) + StatusCount(list, Assigned) + StatusCount(list, Submitted)
      + StatusCount(list, Approved) + StatusCount(list, Returned) == |list|
  {
    if |list| > 0 {
      CountersSum(list[1..]);
    }
  }

  /** A card of the dashboard. */
  datatype Card = Card(title: string, value: nat)

  /** The card titles: a coordinator's differ from everyone else's except for the approved card. */
  function CardTitle(coordinator: bool, st: Status): string {
    match st
    case Created => if coordinator then "Pendiente de asignar" else "Creados"
    case Assigned => if coordinator then "Enviados al profesor" else "Por completar"
    case Submitted => if coordinator then "Pendiente de revisión" else "En revisión"
    case Approved => "Aprobados"
    case Returned => if coordinator then "Devueltos con observaciones" else "Requiere correcciones"
  }

  /** `statCards`: one card per status, in the order CREATED, ASSIGNED, SUBMITTED, APPROVED, RETURNED. */
  function StatCards(list: seq<Syllabus>, role: Option<string>): (r: seq<Card>)
    ensures |r| == |AllStatuses|
    ensures forall i :: 0 <= i < |r| ==> r[i].value == StatusBag(list)[AllStatuses[i]]
    ensures forall i :: 0 <= i < |r| ==> r[i].title == CardTitle(role == Some("COORDINATOR"), AllStatuses[i])
  {
    forall st: Status { StatusCountIsMultiplicity(list, st); }
    Map(AllStatuses, (st: Status) => Card(CardTitle(role == Some("COORDINATOR"), st), StatusCount(list, st)))
  }

  /** The counters do not depend on the role; only the titles do, and the approved card reads the same for all. */
  lemma CardsIgnoreRole(list: seq<Syllabus>, a: Option<string>, b: Option<string>)
    ensures forall i :: 0 <= i < |AllStatuses| ==> StatCards(list, a)[i].value == StatCards(list, b)[i].value
    ensures StatCards(list, a)[Ordinal(Approved)].title == StatCards(list, b)[Ordinal(Approved)].title == "Aprobados"
  {
  }

  /** The card values add up to the number of fetched syllabi. */
  lemma CardsTotal(list: seq<Syllabus>, role: Option<string>)
    ensures var cards := StatCards(list, role);
      cards[0].value + cards[1].value + cards[2].value + cards[3].value + cards[4].value == |list|
  {
    CountersSum(list);
    forall st: Status { StatusCountIsMultiplicity(list, st); }
  }
}
