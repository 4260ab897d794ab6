/**
 * The professor's syllabus editor on the client: how a fetched syllabus is
 * normalised, how the text sections, units and evaluations are edited in
 * place, how the navigation sections select a unit or an evaluation, and
 * how sending saves before it asks for SUBMITTED.
 */
module Editor {
  import opened Base
  import opened Text
  import opened Domain
  import opened Stores
  import opened SyllabusRules
  import opened SyllabusEndpoints

  // ---------------------------------------------------------------- loading

  predicate SortedByNumber(us: seq<Unit>) {
    forall i, j :: 0 <= i < j < |us| ==> us[i].unitNumber <= us[j].unitNumber
  }

  /** Puts one unit into a sorted run, before the first unit whose number is not smaller. */
  function InsertUnit(u: Unit, us: seq<Unit>): (r: seq<Unit>)
    requires SortedByNumber(us)
    ensures SortedByNumber(r)
    ensures multiset(r) == multiset(us) + multiset{u}
    ensures forall x :: x in r ==> x == u || x in us
    ensures |r| == |us| + 1
  {
    if |us| == 0 then [u]
    else if u.unitNumber <= us[0].unitNumber then
      SortedCons(u, us);
      [u] + us
    else
      var rest := InsertUnit(u, us[1..]);
      assert us == [us[0]] + us[1..];
      assert forall k :: 1 <= k < |us| ==> us[0].unitNumber <= us[k].unitNumber;
      SortedCons(us[0], rest);
      [us[0]] + rest
  }

  /** A unit numbered no higher than every unit of a sorted run can go in front of it. */
  lemma SortedCons(x: Unit, us: seq<Unit>)
    requires SortedByNumber(us)
    requires forall y :: y in us ==> x.unitNumber <= y.unitNumber
    ensures SortedByNumber([x] + us)
  {
    var r := [x] + us;
    forall i, j | 0 <= i < j < |r| ensures r[i].unitNumber <= r[j].unitNumber {
      assert r[j] == us[j - 1];
      if i > 0 {
        assert r[i] == us[i - 1];
      }
    }
  }

  /** `units.sort((a, b) => a.unitNumber - b.unitNumber)`: the same units, ascending by number. */
  function SortUnits(us: seq<Unit>): (r: seq<Unit>)
    ensures SortedByNumber(r)
    ensures multiset(r) == multiset(us)
    ensures |r| == |us|
  {
    if |us| == 0 then []
    else
      assert us == [us[0]] + us[1..];
      InsertUnit(us[0], SortUnits(us[1..]))
  }

  /** Units already in order come back unchanged. */
  lemma {:induction false} SortSortedUnits(us: seq<Unit>)
    requires SortedByNumber(us)
    ensures SortUnits(us) == us
  {
    if |us| > 0 {
      SortSortedUnits(us[1..]);
    }
  }

  /**
   * The four readings of the browser clock taken while the defaults are built,
   * one per evaluation, in the order the source takes them.
   */
  datatype ClockReadings = ClockReadings(t0: int, t1: int, t2: int, t3: int)
  {
    function At(k: nat): int
      requires k < 4
    {
      if k == 0 then t0 else if k == 1 then t1 else if k == 2 then t2 else t3
    }

    /** The clock did not step backwards between the readings. */
    predicate NonDecreasing() {
      t0 <= t1 <= t2 <= t3
    }
  }

  /**
   * The four evaluations the editor starts from when a syllabus has none; the
   * k-th takes the k-th clock reading plus k as its id.
   */
  function DefaultEvaluations(clock: ClockReadings): (r: seq<Evaluation>)
    ensures |r| == 4
    ensures forall k :: 0 <= k < 4 ==> r[k].id == Some(clock.At(k) + k)
    ensures forall k :: 0 <= k < 4 ==> r[k].consolidationDate == Some("") && r[k].description == Some("")
    ensures forall k :: 0 <= k < 4 ==> r[k].weight == None && r[k].createdBy == None
    ensures r[0].name == Some("Consolidado 1") && r[1].name == Some("Examen Parcial")
    ensures r[2].name == Some("Consolidado 2") && r[3].name == Some("Examen Final")
  {
    [ Evaluation(Some(clock.t0), Some("Consolidado 1"), None, Some(""), Some(""), None),
      Evaluation(Some(clock.t1 + 1), Some("Examen Parcial"), None, Some(""), Some(""), None),
      Evaluation(Some(clock.t2 + 2), Some("Consolidado 2"), None, Some(""), Some(""), None),
      Evaluation(Some(clock.t3 + 3), Some("Examen Final"), None, Some(""), Some(""), None) ]
  }

  /** While the clock does not step backwards, the four default ids are distinct. */
  lemma DefaultIdsDistinct(clock: ClockReadings)
    requires clock.NonDecreasing()
    ensures DistinctIds(DefaultEvaluations(clock))
  {
  }

  /** A clock that steps back by one millisecond between the first two readings gives two evaluations the same id. */
  lemma ClockStepBackCollides()
    ensures DefaultEvaluations(ClockReadings(1, 0, 0, 0))[0].id == DefaultEvaluations(ClockReadings(1, 0, 0, 0))[1].id
  {
  }

  /** `fetchSyllabus`: units sorted by number; an empty evaluation list replaced by the four defaults. */
  function LoadSyllabus(s: Syllabus, clock: ClockReadings): (r: Syllabus)
    ensures SortedByNumber(r.units) && multiset(r.units) == multiset(s.units)
    ensures |s.evaluations| > 0 ==> r.evaluations == s.evaluations
    ensures |s.evaluations| == 0 ==> r.evaluations == DefaultEvaluations(clock)
    ensures |s.evaluations| == 0 && clock.NonDecreasing() ==> DistinctIds(r.evaluations)
    ensures r.(units := s.units, evaluations := s.evaluations) == s
  {
    s.(units := SortUnits(s.units),
       evaluations := if |s.evaluations| == 0 then DefaultEvaluations(clock) else s.evaluations)
  }

  // ---------------------------------------------------------------- text sections

  /** The six text inputs, named after the syllabus fields they edit. */
  datatype ContentField = CourseCompetence | ProfileCompetence | PreviousCompetence | Sumilla | Bibliography | Activities

  function ReadContent(c: Content, f: ContentField): Option<string> {
    match f
    case CourseCompetence => c.courseCompetence
    case ProfileCompetence => c.profileCompetence
    case PreviousCompetence => c.previousCompetence
    case Sumilla => c.sumilla
    case Bibliography => c.bibliography
    case Activities => c.activities
  }

  /** Content is determined by its six fields. */
  lemma ContentExtensional(a: Content, b: Content)
    requires forall f: ContentField :: ReadContent(a, f) == ReadContent(b, f)
    ensures a == b
  {
    assert ReadContent(a, CourseCompetence) == ReadContent(b, CourseCompetence);
    assert ReadContent(a, ProfileCompetence) == ReadContent(b, ProfileCompetence);
    assert ReadContent(a, PreviousCompetence) == ReadContent(b, PreviousCompetence);
    assert ReadContent(a, Sumilla) == ReadContent(b, Sumilla);
    assert ReadContent(a, Bibliography) == ReadContent(b, Bibliography);
    assert ReadContent(a, Activities) == ReadContent(b, Activities);
  }

  /** `handleInputChange`: the named text section takes the typed value; nothing else changes. */
  function InputChange(s: Syllabus, f: ContentField, v: string): (r: Syllabus)
    ensures ReadContent(r.content, f) == Some(v)
    ensures forall g: ContentField :: g != f ==> ReadContent(r.content, g) == ReadContent(s.content, g)
    ensures r.(content := s.content) == s
  {
    var c := s.content;
    s.(content := match f
      case CourseCompetence => c.(courseCompetence := Some(v))
      case ProfileCompetence => c.(profileCompetence := Some(v))
      case PreviousCompetence => c.(previousCompetence := Some(v))
      case Sumilla => c.(sumilla := Some(v))
      case Bibliography => c.(bibliography := Some(v))
      case Activities => c.(activities := Some(v)))
  }

  /** Typing into one section twice keeps the last value; typing into two sections commutes. */
  lemma InputChangesCompose(s: Syllabus, f: ContentField, g: ContentField, a: string, b: string)
    ensures InputChange(InputChange(s, f, a), f, b) == InputChange(s, f, b)
    ensures f != g ==> InputChange(InputChange(s, f, a), g, b) == InputChange(InputChange(s, g, b), f, a)
  {
    ContentExtensional(InputChange(InputChange(s, f, a), f, b).content, InputChange(s, f, b).content);
    if f != g {
      ContentExtensional(InputChange(InputChange(s, f, a), g, b).content, InputChange(InputChange(s, g, b), f, a).content);
    }
  }

  // ---------------------------------------------------------------- units

  /** The unit inputs of the unit editor. */
  datatype UnitField = UnitContent | StartDate | EndDate | Week1 | Week2 | Week3 | Week4 | Methodology

  function ReadUnit(u: Unit, f: UnitField): Option<string> {
    match f
    case UnitContent => u.content
    case StartDate => u.startDate
    case EndDate => u.endDate
    case Week1 => u.week1Content
    case Week2 => u.week2Content
    case Week3 => u.week3Content
    case Week4 => u.week4Content
    case Methodology => u.methodology
  }

  /** `{ ...unit, [field]: value }` */
  function WriteUnit(u: Unit, f: UnitField, v: string): (r: Unit)
    ensures ReadUnit(r, f) == Some(v)
    ensures forall g: UnitField :: g != f ==> ReadUnit(r, g) == ReadUnit(u, g)
    ensures r.unitNumber == u.unitNumber && r.title == u.title && r.createdBy == u.createdBy
  {
    match f
    case UnitContent => u.(content := Some(v))
    case StartDate => u.(startDate := Some(v))
    case EndDate => u.(endDate := Some(v))
    case Week1 => u.(week1Content := Some(v))
    case Week2 => u.(week2Content := Some(v))
    case Week3 => u.(week3Content := Some(v))
    case Week4 => u.(week4Content := Some(v))
    case Methodology => u.(methodology := Some(v))
  }

  /**
   * `handleUnitChange`: one field of the unit at the index takes the value;
   * the other units, the list length and the rest of the syllabus stay.
   * The unit editor is only shown for a unit that exists.
   */
  function UnitChange(s: Syllabus, idx: nat, f: UnitField, v: string): (r: Syllabus)
    requires idx < |s.units|
    ensures |r.units| == |s.units|
    ensures ReadUnit(r.units[idx], f) == Some(v)
    ensures forall g: UnitField :: g != f ==> ReadUnit(r.units[idx], g) == ReadUnit(s.units[idx], g)
    ensures r.units[idx].unitNumber == s.units[idx].unitNumber
    ensures forall k :: 0 <= k < |s.units| && k != idx ==> r.units[k] == s.units[k]
    ensures r.(units := s.units) == s
  {
    s.(units := s.units[idx := WriteUnit(s.units[idx], f, v)])
  }

  /** Editing a unit keeps the units sorted: the number is not an editable field. */
  lemma UnitChangeKeepsOrder(s: Syllabus, idx: nat, f: UnitField, v: string)
    requires idx < |s.units| && SortedByNumber(s.units)
    ensures SortedByNumber(UnitChange(s, idx, f, v).units)
  {
    var r := UnitChange(s, idx, f, v).units;
    assert forall k :: 0 <= k < |r| ==> r[k].unitNumber == s.units[k].unitNumber;
  }

  // ---------------------------------------------------------------- evaluations

  /** The inputs of the evaluation panel. */
  datatype EvalField = EvalName | ConsolidationDate | Description

  function ReadEval(e: Evaluation, f: EvalField): Option<string> {
    match f
    case EvalName => e.name
    case ConsolidationDate => e.consolidationDate
    case Description => e.description
  }

  function WriteEval(e: Evaluation, f: EvalField, v: string): (r: Evaluation)
    ensures ReadEval(r, f) == Some(v)
    ensures forall g: EvalField :: g != f ==> ReadEval(r, g) == ReadEval(e, g)
    ensures r.id == e.id && r.weight == e.weight && r.createdBy == e.createdBy
  {
    match f
    case EvalName => e.(name := Some(v))
    case ConsolidationDate => e.(consolidationDate := Some(v))
    case Description => e.(description := Some(v))
  }

  /**
   * `handleEvalChange`: every evaluation whose id is the given one has the
   * field set; the others, the order and the length stay.
   */
  function EvalChange(s: Syllabus, id: int, f: EvalField, v: string): (r: Syllabus)
    ensures |r.evaluations| == |s.evaluations|
    ensures forall k :: 0 <= k < |s.evaluations| && s.evaluations[k].id == Some(id) ==>
      r.evaluations[k] == WriteEval(s.evaluations[k], f, v)
    ensures forall k :: 0 <= k < |s.evaluations| && s.evaluations[k].id != Some(id) ==>
      r.evaluations[k] == s.evaluations[k]
    ensures forall k :: 0 <= k < |s.evaluations| ==> r.evaluations[k].id == s.evaluations[k].id
    ensures r.(evaluations := s.evaluations) == s
  {
    s.(evaluations := Map(s.evaluations, (e: Evaluation) => if e.id == Some(id) then WriteEval(e, f, v) else e))
  }

  /** An edit for an id no evaluation has changes nothing. */
  lemma EvalChangeUnknownId(s: Syllabus, id: int, f: EvalField, v: string)
    requires forall k :: 0 <= k < |s.evaluations| ==> s.evaluations[k].id != Some(id)
    ensures EvalChange(s, id, f, v) == s
  {
    assert EvalChange(s, id, f, v).evaluations == s.evaluations;
  }

  // ---------------------------------------------------------------- navigation

  const EvalPrefix: string := "eval_"

  /** The text before the first underscore: `split('_')[0]`. */
  function BeforeUnderscore(s: string): (r: string)
    ensures |r| <= |s| && r == s[..|r|]
    ensures forall k :: 0 <= k < |r| ==> r[k] != '_'
    ensures |r| == |s| || s[|r|] == '_'
  {
    if |s| == 0 || s[0] == '_' then [] else [s[0]] + BeforeUnderscore(s[1..])
  }

  /** The navigation entry of an evaluation: `eval_${ev.id}`, where a missing id prints as "undefined". */
  function EvalSection(e: Evaluation): string {
    EvalPrefix + (if e.id.Some? then IntString(e.id.value) else "undefined")
  }

  /** `evaluations.find(e => e.id === id)` */
  function FindEvaluation(evals: seq<Evaluation>, id: int): (r: Option<Evaluation>)
    ensures r.None? <==> forall k :: 0 <= k < |evals| ==> evals[k].id != Some(id)
    ensures r.Some? ==> exists k :: (0 <= k < |evals| && evals[k] == r.value && r.value.id == Some(id)
      && forall j :: 0 <= j < k ==> evals[j].id != Some(id))
  {
    match FirstWhere(evals, (e: Evaluation) => e.id == Some(id))
    case None => None
    case Some(k) => Some(evals[k])
  }

  /**
   * `getActiveEvaluation`: nothing unless the section starts with "eval_";
   * otherwise the first evaluation whose id is the number after the prefix.
   */
  function ActiveEvaluation(evals: seq<Evaluation>, section: string): (r: Option<Evaluation>)
    ensures !(|section| >= |EvalPrefix| && section[..|EvalPrefix|] == EvalPrefix) ==> r.None?
    ensures r.Some? ==> r.value in evals && r.value.id.Some?
  {
    if |section| < |EvalPrefix| || section[..|EvalPrefix|] != EvalPrefix then None
    else match ParseInt(BeforeUnderscore(section[|EvalPrefix|..]))
      case None => None
      case Some(id) => FindEvaluation(evals, id)
  }

  /** A printed integer has no underscore, so the whole of it is read back. */
  lemma IntStringHasNoUnderscore(n: int)
    ensures BeforeUnderscore(IntString(n)) == IntString(n)
  {
    var s := IntString(n);
    var m: nat := if n < 0 then -n else n;
    assert forall k :: 0 <= k < |NatString(m)| ==> IsDigit(NatString(m)[k]);
    forall k | 0 <= k < |s| ensures s[k] != '_' {
      if n < 0 && k > 0 {
        assert s[k] == NatString(m)[k - 1];
      }
    }
    NoUnderscoreWhole(s);
  }

  lemma {:induction false} NoUnderscoreWhole(s: string)
    requires forall k :: 0 <= k < |s| ==> s[k] != '_'
    ensures BeforeUnderscore(s) == s
  {
    if |s| > 0 {
      NoUnderscoreWhole(s[1..]);
    }
  }

  /**
   * Choosing the navigation entry of an evaluation with an id opens the first
   * evaluation with that id; under distinct ids, that evaluation itself. An
   * entry for an evaluation without an id opens nothing.
   */
  lemma EvalSectionRoundTrip(evals: seq<Evaluation>, e: Evaluation)
    ensures e.id.Some? ==> ActiveEvaluation(evals, EvalSection(e)) == FindEvaluation(evals, e.id.value)
    ensures e.id.None? ==> ActiveEvaluation(evals, EvalSection(e)).None?
  {
    var section := EvalSection(e);
    var tail := if e.id.Some? then IntString(e.id.value) else "undefined";
    assert section == EvalPrefix + tail;
    assert section[..|EvalPrefix|] == EvalPrefix && section[|EvalPrefix|..] == tail;
    if e.id.Some? {
      IntStringHasNoUnderscore(e.id.value);
      ParseIntString(e.id.value);
    } else {
      NoUnderscoreWhole(tail);
      assert tail[0] == 'u';
      assert DigitPrefix(tail) == [];
    }
  }

  /** Under distinct ids, the navigation entry of an evaluation opens that very evaluation. */
  lemma EvalSectionOpensItself(evals: seq<Evaluation>, k: nat)
    requires k < |evals| && evals[k].id.Some?
    requires DistinctIds(evals)
    ensures ActiveEvaluation(evals, EvalSection(evals[k])) == Some(evals[k])
  {
    EvalSectionRoundTrip(evals, evals[k]);
  }

  /** Each of the six evaluations of a newly created syllabus opens its own editor. */
  lemma CreatedEvaluationsOpen(db: Db, req: CreateRequest, username: string, k: nat)
    requires CreateSyllabus(db, req, username).Success?
    requires k < |CreateSyllabus(db, req, username).value.1.evaluations|
    ensures var s := CreateSyllabus(db, req, username).value.1;
      |s.evaluations| == 6 && ActiveEvaluation(s.evaluations, EvalSection(s.evaluations[k])) == Some(s.evaluations[k])
  {
    var s := CreateSyllabus(db, req, username).value.1;
    EvalSectionOpensItself(s.evaluations, k);
  }

  /** The four unit entries of the navigation. */
  const UnitSections: seq<string> := ["unit_1", "unit_2", "unit_3", "unit_4"]

  /** `parseInt(activeSection.split('_')[1]) - 1` for a unit entry: the index of the unit it edits. */
  function UnitIndex(section: string): (r: Option<int>)
    ensures r.Some? <==> section in UnitSections
    ensures r.Some? ==> 0 <= r.value < 4 && UnitSections[r.value] == section
  {
    if section !in UnitSections then None
    else
      UnitSectionNumber(section);
      Some(ParseInt(BeforeUnderscore(section[5..])).GetOr(0) - 1)
  }

  /** The text after "unit_" in a unit entry reads as that entry's number. */
  lemma UnitSectionNumber(section: string)
    requires section in UnitSections
    ensures ParseInt(BeforeUnderscore(section[5..])).Some?
    ensures var n := ParseInt(BeforeUnderscore(section[5..])).value; 1 <= n <= 4 && UnitSections[n - 1] == section
  {
    var k :| 0 <= k < 4 && UnitSections[k] == section;
    var digit := section[5..];
    assert digit == [DigitChar(k + 1)];
    NoUnderscoreWhole(digit);
    DigitPrefixOfDigits(digit);
    NatStringValue(k + 1);
    assert NatString(k + 1) == digit;
  }

  /** The roman numeral the unit editor shows for an index. */
  function RomanLabel(idx: nat): string
    requires idx < 4
  {
    ["I", "II", "III", "IV"][idx]
  }

  /** The editor's numeral is the one the server put in the unit's template title. */
  lemma RomanLabelMatchesTemplate(idx: nat, createdBy: nat)
    requires idx < 4
    ensures RomanLabel(idx) == ToRoman(idx + 1)
    ensures UnitTemplate(createdBy)[idx].title == Some("UNIDAD " + RomanLabel(idx))
  {
    assert ToRoman(1) == "I" && ToRoman(2) == "II" && ToRoman(3) == "III" && ToRoman(4) == "IV";
    UnitTemplateTitles(createdBy);
  }

  // ---------------------------------------------------------------- sending

  /** What the client sends when saving: its copy's sections, units and evaluations. */
  function SaveRequest(s: Syllabus): ContentUpdate {
    ContentUpdate(s.content, Some(s.units), Some(s.evaluations))
  }

  /**
   * `handleConfirmSend`: save first, and ask for SUBMITTED only when the save
   * went through. Returns the resulting store and whether the status was
   * changed. A failed status request leaves the save in place.
   */
  function ConfirmSend(db: Db, auth: Auth, id: nat, s: Syllabus): (r: (Db, bool))
    ensures UpdateSyllabus(db, id, SaveRequest(s)).Failure? ==> r == (db, false)
    ensures UpdateSyllabus(db, id, SaveRequest(s)).Success? && !r.1 ==> r.0 == UpdateSyllabus(db, id, SaveRequest(s)).value.0
    ensures r.1 ==> exists k :: (0 <= k < |r.0.syllabi| && r.0.syllabi[k].id == Some(id)
      && r.0.syllabi[k].workflowStatus == Submitted && r.0.syllabi[k].content == s.content
      && r.0.syllabi[k].units == s.units && r.0.syllabi[k].evaluations == s.evaluations)
  {
    match UpdateSyllabus(db, id, SaveRequest(s))
    case Failure(_) => (db, false)
    case Success((saved, _)) =>
      match UpdateStatusEndpoint(saved, auth, id, Submitted)
      case Failure(_) => (saved, false)
      case Success((sent, _)) =>
        var i := FindSyllabus(db.syllabi, id).value;
        FindSyllabusSameIds(db.syllabi, saved.syllabi, id);
        assert sent.syllabi[i].id == Some(id);
        (sent, true)
  }

  /** A professor's send of a stored syllabus goes through both steps. */
  lemma ProfessorSendSucceeds(db: Db, username: string, id: nat, s: Syllabus)
    requires exists k :: 0 <= k < |db.syllabi| && db.syllabi[k].id == Some(id)
    ensures ConfirmSend(db, Auth(username, {Professor}), id, s).1
  {
    var saved := UpdateSyllabus(db, id, SaveRequest(s)).value.0;
    var i := FindSyllabus(db.syllabi, id).value;
    assert saved.syllabi[i].id == Some(id);
  }
}
