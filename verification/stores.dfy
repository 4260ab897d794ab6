/**
 * The repositories, modelled as sequences in insertion order.
 *
 * Saving a new entity appends it under an id larger than every stored id
 * (the database's identity column); saving an existing entity replaces it in
 * place.  `Wf` is the uniqueness the schema declares: unique ids, unique
 * usernames, unique period names and unique career names.
 */
module Stores {
  import opened Base
  import opened Domain

  /** The elements of `xs` that satisfy `p`, in their original order. */
  function Filter<T>(xs: seq<T>, p: T -> bool): (r: seq<T>)
    ensures |r| <= |xs|
    ensures forall k :: 0 <= k < |r| ==> p(r[k])
    ensures forall x :: x in r ==> x in xs
    ensures forall k :: 0 <= k < |xs| && p(xs[k]) ==> xs[k] in r
  {
    if |xs| == 0 then []
    else if p(xs[0]) then [xs[0]] + Filter(xs[1..], p)
    else Filter(xs[1..], p)
  }

  /** `a` is `b` with some elements left out and the rest in the same order. */
  predicate IsSubsequence<T(==)>(a: seq<T>, b: seq<T>)
    decreases |b|
  {
    if |a| == 0 then true
    else if |b| == 0 then false
    else if a[0] == b[0] then IsSubsequence(a[1..], b[1..])
    else IsSubsequence(a, b[1..])
  }

  /** A subsequence stays one when the longer sequence grows at the end. */
  lemma {:induction false} SubsequenceGrow<T>(a: seq<T>, b: seq<T>, x: T)
    requires IsSubsequence(a, b)
    ensures IsSubsequence(a, b + [x])
    decreases |b|
  {
    if |a| > 0 {
      assert (b + [x])[1..] == b[1..] + [x];
      if a[0] == b[0] {
        SubsequenceGrow(a[1..], b[1..], x);
      } else {
        SubsequenceGrow(a, b[1..], x);
      }
    }
  }

  /** Appending the same element to both sides keeps a subsequence. */
  lemma {:induction false} SubsequenceSnoc<T>(a: seq<T>, b: seq<T>, x: T)
    requires IsSubsequence(a, b)
    ensures IsSubsequence(a + [x], b + [x])
    decreases |b|
  {
    if |b| == 0 {
      assert a == [];
      var single: seq<T> := [x];
      assert single[1..] == [];
    } else {
      assert (b + [x])[1..] == b[1..] + [x];
      if |a| == 0 {
        if b[0] != x {
          SubsequenceSnoc(a, b[1..], x);
        }
      } else if a[0] == b[0] {
        assert (a + [x])[1..] == a[1..] + [x];
        SubsequenceSnoc(a[1..], b[1..], x);
      } else {
        SubsequenceSnoc(a, b[1..], x);
      }
    }
  }

  /** Filtering keeps the survivors in their original order. */
  lemma {:induction false} FilterIsSubsequence<T>(xs: seq<T>, p: T -> bool)
    ensures IsSubsequence(Filter(xs, p), xs)
  {
    if |xs| > 0 {
      FilterIsSubsequence(xs[1..], p);
      if p(xs[0]) {
        assert Filter(xs, p) == [xs[0]] + Filter(xs[1..], p);
        assert (Filter(xs, p))[1..] == Filter(xs[1..], p);
      }
    }
  }

  /** A filter that every element passes is the identity. */
  lemma {:induction false} FilterAll<T>(xs: seq<T>, p: T -> bool)
    requires forall k :: 0 <= k < |xs| ==> p(xs[k])
    ensures Filter(xs, p) == xs
  {
    if |xs| > 0 {
      FilterAll(xs[1..], p);
      assert [xs[0]] + xs[1..] == xs;
    }
  }

  /** A filter no element passes is empty. */
  lemma {:induction false} FilterNone<T>(xs: seq<T>, p: T -> bool)
    requires forall k :: 0 <= k < |xs| ==> !p(xs[k])
    ensures Filter(xs, p) == []
  {
    if |xs| > 0 {
      FilterNone(xs[1..], p);
    }
  }

  /** Two tests that agree on every element filter alike. */
  lemma {:induction false} SameFilter<T>(xs: seq<T>, p: T -> bool, q: T -> bool)
    requires forall k :: 0 <= k < |xs| ==> p(xs[k]) == q(xs[k])
    ensures Filter(xs, p) == Filter(xs, q)
  {
    if |xs| > 0 {
      SameFilter(xs[1..], p, q);
    }
  }

  /** Filtering distributes over concatenation. */
  lemma {:induction false} FilterAppend<T>(a: seq<T>, b: seq<T>, p: T -> bool)
    ensures Filter(a + b, p) == Filter(a, p) + Filter(b, p)
  {
    if |a| == 0 {
      assert a + b == b;
    } else {
      var ab := a + b;
      assert ab[0] == a[0];
      assert ab[1..] == a[1..] + b;
      FilterAppend(a[1..], b, p);
      if p(a[0]) {
        calc {
          Filter(ab, p);
          [a[0]] + Filter(a[1..] + b, p);
          [a[0]] + (Filter(a[1..], p) + Filter(b, p));
          ([a[0]] + Filter(a[1..], p)) + Filter(b, p);
        }
      }
    }
  }

  /** Filtering out one element that fails the test, between two blocks that pass it, just drops it. */
  lemma FilterDropsOne<T>(before: seq<T>, x: T, after: seq<T>, p: T -> bool)
    requires forall i :: 0 <= i < |before| ==> p(before[i])
    requires forall i :: 0 <= i < |after| ==> p(after[i])
    requires !p(x)
    ensures Filter(before + [x] + after, p) == before + after
  {
    var bx := before + [x];
    assert Filter(bx + after, p) == Filter(bx, p) + Filter(after, p) by {
      FilterAppend(bx, after, p);
    }
    assert Filter(bx, p) == Filter(before, p) + Filter([x], p) by {
      FilterAppend(before, [x], p);
    }
    assert Filter([x], p) == [] by {
      FilterNone([x], p);
    }
    assert Filter(before, p) == before by {
      FilterAll(before, p);
    }
    assert Filter(after, p) == after by {
      FilterAll(after, p);
    }
    assert before + [x] + after == bx + after;
    assert before + [] == before;
  }

  /** The number of elements of `xs` that satisfy `p`. */
  function Count<T>(xs: seq<T>, p: T -> bool): (n: nat)
    ensures n <= |xs|
  {
    |Filter(xs, p)|
  }

  /** Splitting a sequence by a predicate and its negation loses and duplicates nothing. */
  lemma {:induction false} CountComplement<T>(xs: seq<T>, p: T -> bool, q: T -> bool)
    requires forall x :: q(x) == !p(x)
    ensures Count(xs, p) + Count(xs, q) == |xs|
  {
    if |xs| > 0 {
      CountComplement(xs[1..], p, q);
    }
  }

  /** `f` applied to every element of `xs`. */
  function Map<A, B>(xs: seq<A>, f: A -> B): (r: seq<B>)
    ensures |r| == |xs| && forall k :: 0 <= k < |xs| ==> r[k] == f(xs[k])
  {
    seq(|xs|, k requires 0 <= k < |xs| => f(xs[k]))
  }

  lemma MapAppend<A, B>(a: seq<A>, b: seq<A>, f: A -> B)
    ensures Map(a + b, f) == Map(a, f) + Map(b, f)
  {
    assert forall k :: 0 <= k < |a + b| ==> Map(a + b, f)[k] == (Map(a, f) + Map(b, f))[k];
  }

  /** The first position of `xs` whose element satisfies `p`, if any. */
  function FirstWhere<T>(xs: seq<T>, p: T -> bool): (r: Option<nat>)
    ensures r.None? <==> forall k :: 0 <= k < |xs| ==> !p(xs[k])
    ensures r.Some? ==> r.value < |xs| && p(xs[r.value])
    ensures r.Some? ==> forall j :: 0 <= j < r.value ==> !p(xs[j])
  {
    if |xs| == 0 then None
    else if p(xs[0]) then Some(0)
    else match FirstWhere(xs[1..], p)
      case None =>
        assert forall k :: 1 <= k < |xs| ==> xs[k] == xs[1..][k - 1];
        None
      case Some(j) =>
        assert forall k :: 1 <= k <= j + 1 ==> xs[k] == xs[1..][k - 1];
        Some(j + 1)
  }

  /** The present values of a sequence of options, in order. */
  function Somes<T>(xs: seq<Option<T>>): (r: seq<T>)
    ensures |r| <= |xs|
    ensures forall x :: x in r ==> Some(x) in xs
    ensures r == [] <==> forall k :: 0 <= k < |xs| ==> xs[k].None?
  {
    if |xs| == 0 then []
    else
      var rest := Somes(xs[1..]);
      assert (forall k :: 0 <= k < |xs[1..]| ==> xs[1..][k].None?) ==> forall k :: 1 <= k < |xs| ==> xs[k].None? by {
        if forall k :: 0 <= k < |xs[1..]| ==> xs[1..][k].None? {
          forall k | 1 <= k < |xs| ensures xs[k].None? {
            assert xs[k] == xs[1..][k - 1];
          }
        }
      }
      match xs[0]
      case None => rest
      case Some(x) => [x] + rest
  }

  lemma {:induction false} SomesAppend<T>(a: seq<Option<T>>, b: seq<Option<T>>)
    ensures Somes(a + b) == Somes(a) + Somes(b)
  {
    if |a| == 0 {
      assert a + b == b;
    } else {
      assert (a + b)[1..] == a[1..] + b;
      SomesAppend(a[1..], b);
    }
  }

  /** No two elements of `xs` share a key. */
  predicate Unique<T, K(==)>(xs: seq<T>, key: T -> K) {
    forall i, j :: 0 <= i < j < |xs| ==> key(xs[i]) != key(xs[j])
  }

  /** A number larger than every id in `xs`: the next value of the identity column. */
  function FreshId<T>(xs: seq<T>, id: T -> nat): (r: nat)
    ensures forall k :: 0 <= k < |xs| ==> id(xs[k]) < r
  {
    if |xs| == 0 then 1
    else
      var rest := FreshId(xs[1..], id);
      assert forall k :: 1 <= k < |xs| ==> id(xs[k]) < rest by {
        forall k | 1 <= k < |xs| ensures id(xs[k]) < rest {
          assert xs[k] == xs[1..][k - 1];
        }
      }
      if id(xs[0]) < rest then rest else id(xs[0]) + 1
  }

  /** Appending an element whose key no stored element has keeps the keys unique. */
  lemma AppendUnique<T, K>(xs: seq<T>, x: T, key: T -> K)
    requires Unique(xs, key)
    requires forall k :: 0 <= k < |xs| ==> key(xs[k]) != key(x)
    ensures Unique(xs + [x], key)
  {
    var ys := xs + [x];
    forall i, j | 0 <= i < j < |ys| ensures key(ys[i]) != key(ys[j]) {
      if j < |xs| {
        assert ys[i] == xs[i] && ys[j] == xs[j];
      }
    }
  }

  function UserId(u: User): nat { u.id }
  function Username(u: User): string { u.username }
  function PeriodId(p: Period): nat { p.id }
  function PeriodName(p: Period): string { p.name }
  function CareerId(c: Career): nat { c.id }
  function CareerName(c: Career): string { c.name }
  function SyllabusKey(s: Syllabus): nat { s.id.GetOr(0) }

  /** All repositories of the backend. */
  datatype Db = Db(users: seq<User>, periods: seq<Period>, careers: seq<Career>, syllabi: seq<Syllabus>)

  /** Every stored syllabus has an id. */
  predicate SyllabiSaved(ss: seq<Syllabus>) {
    forall k :: 0 <= k < |ss| ==> ss[k].id.Some?
  }

  /** The unique constraints of the schema. */
  predicate Wf(db: Db) {
    && Unique(db.users, UserId) && Unique(db.users, Username)
    && Unique(db.periods, PeriodId) && Unique(db.periods, PeriodName)
    && Unique(db.careers, CareerId) && Unique(db.careers, CareerName)
    && SyllabiSaved(db.syllabi) && Unique(db.syllabi, SyllabusKey)
  }

  /** A repository's `findBy<Key>`: the first stored entity whose key is `k`. */
  function Lookup<T, K(==)>(xs: seq<T>, key: T -> K, k: K): (r: Option<T>)
    ensures r.Some? ==> r.value in xs && key(r.value) == k
    ensures r.None? <==> forall i :: 0 <= i < |xs| ==> key(xs[i]) != k
  {
    if |xs| == 0 then None
    else if key(xs[0]) == k then Some(xs[0])
    else Lookup(xs[1..], key, k)
  }

  /** Under a unique key, looking a stored entity up by its key finds that entity. */
  lemma {:induction false} LookupUnique<T, K>(xs: seq<T>, key: T -> K, i: nat)
    requires i < |xs| && Unique(xs, key)
    ensures Lookup(xs, key, key(xs[i])) == Some(xs[i])
  {
    if i > 0 {
      assert key(xs[0]) != key(xs[i]);
      assert Unique(xs[1..], key) by {
        forall a, b | 0 <= a < b < |xs[1..]| ensures key(xs[1..][a]) != key(xs[1..][b]) {
          assert xs[1..][a] == xs[a + 1] && xs[1..][b] == xs[b + 1];
        }
      }
      LookupUnique(xs[1..], key, i - 1);
    }
  }

  /** `userRepository.findByUsername` */
  function FindUser(users: seq<User>, username: string): (r: Option<User>)
    ensures r.Some? ==> r.value in users && r.value.username == username
    ensures r.None? ==> forall k :: 0 <= k < |users| ==> users[k].username != username
  {
    Lookup(users, Username, username)
  }

  /** Under unique usernames, looking a stored user up by name finds that user. */
  lemma FindUserUnique(users: seq<User>, k: nat)
    requires k < |users| && Unique(users, Username)
    ensures FindUser(users, users[k].username) == Some(users[k])
  {
    LookupUnique(users, Username, k);
  }

  /** `userRepository.findById`: the index of the user with that id. */
  function FindUserIndex(users: seq<User>, id: nat): (r: Option<nat>)
    ensures r.Some? ==> r.value < |users| && users[r.value].id == id
    ensures r.None? ==> forall k :: 0 <= k < |users| ==> users[k].id != id
  {
    if |users| == 0 then None
    else if users[0].id == id then Some(0)
    else match FindUserIndex(users[1..], id)
      case None => None
      case Some(i) => Some(i + 1)
  }

  /** `academicPeriodRepository.findById` */
  function FindPeriod(periods: seq<Period>, id: nat): (r: Option<Period>)
    ensures r.Some? ==> r.value in periods && r.value.id == id
    ensures r.None? ==> forall k :: 0 <= k < |periods| ==> periods[k].id != id
  {
    Lookup(periods, PeriodId, id)
  }

  /** `academicPeriodRepository.findByName` */
  function FindPeriodByName(periods: seq<Period>, name: string): (r: Option<Period>)
    ensures r.Some? ==> r.value in periods && r.value.name == name
    ensures r.None? ==> forall k :: 0 <= k < |periods| ==> periods[k].name != name
  {
    Lookup(periods, PeriodName, name)
  }

  /** `careerRepository.findByName` */
  function FindCareerByName(careers: seq<Career>, name: string): (r: Option<Career>)
    ensures r.Some? ==> r.value in careers && r.value.name == name
    ensures r.None? ==> forall k :: 0 <= k < |careers| ==> careers[k].name != name
  {
    Lookup(careers, CareerName, name)
  }

  /** `syllabusRepository.findById`: the index of the syllabus with that id. */
  function FindSyllabus(ss: seq<Syllabus>, id: nat): (r: Option<nat>)
    ensures r.Some? ==> r.value < |ss| && ss[r.value].id == Some(id)
    ensures r.None? ==> forall k :: 0 <= k < |ss| ==> ss[k].id != Some(id)
  {
    if |ss| == 0 then None
    else if ss[0].id == Some(id) then Some(0)
    else match FindSyllabus(ss[1..], id)
      case None => None
      case Some(i) => Some(i + 1)
  }

  /** The lookup by id reads nothing but the ids. */
  lemma {:induction false} FindSyllabusSameIds(a: seq<Syllabus>, b: seq<Syllabus>, id: nat)
    requires |a| == |b| && forall k :: 0 <= k < |a| ==> a[k].id == b[k].id
    ensures FindSyllabus(a, id) == FindSyllabus(b, id)
  {
    if |a| > 0 {
      FindSyllabusSameIds(a[1..], b[1..], id);
    }
  }

  /** Evaluation ids that no two evaluations of the list share. */
  predicate DistinctIds(es: seq<Evaluation>) {
    forall i, j :: 0 <= i < j < |es| ==> es[i].id != es[j].id
  }

  /** The evaluations that already carry an id carry different ones. */
  predicate DistinctPresentIds(es: seq<Evaluation>) {
    forall i, j :: 0 <= i < j < |es| && es[i].id.Some? && es[j].id.Some? ==> es[i].id != es[j].id
  }

  /** An upper bound, at least 0, of the evaluation ids in the list. */
  function MaxEvaluationId(es: seq<Evaluation>): (m: int)
    ensures m >= 0
    ensures forall k :: 0 <= k < |es| && es[k].id.Some? ==> es[k].id.value <= m
  {
    if |es| == 0 then 0
    else
      var rest := MaxEvaluationId(es[1..]);
      assert forall k :: 1 <= k < |es| ==> es[k] == es[1..][k - 1];
      if es[0].id.Some? && es[0].id.value > rest then es[0].id.value else rest
  }

  /** An upper bound, at least 0, of the ids of the evaluations stored with any syllabus. */
  function MaxStoredEvaluationId(ss: seq<Syllabus>): (m: int)
    ensures m >= 0
    ensures forall k, j :: 0 <= k < |ss| && 0 <= j < |ss[k].evaluations| && ss[k].evaluations[j].id.Some? ==>
      ss[k].evaluations[j].id.value <= m
  {
    if |ss| == 0 then 0
    else
      var rest := MaxStoredEvaluationId(ss[1..]);
      var here := MaxEvaluationId(ss[0].evaluations);
      assert forall k :: 1 <= k < |ss| ==> ss[k] == ss[1..][k - 1];
      if here > rest then here else rest
  }

  /**
   * The cascade of `save` to the evaluations: each one without an id gets a
   * generated id, `next` plus its position; the others keep theirs.
   */
  function NumberEvaluations(es: seq<Evaluation>, next: int): (r: seq<Evaluation>)
    ensures |r| == |es|
    ensures forall k :: 0 <= k < |es| ==> r[k].id.Some? && r[k].(id := es[k].id) == es[k]
    ensures forall k :: 0 <= k < |es| && es[k].id.Some? ==> r[k].id == es[k].id
    ensures forall k :: 0 <= k < |es| && es[k].id.None? ==> next <= r[k].id.value
    ensures forall i, j :: 0 <= i < j < |es| && es[i].id.None? && es[j].id.None? ==> r[i].id != r[j].id
  {
    seq(|es|, k requires 0 <= k < |es| => if es[k].id.None? then es[k].(id := Some(next + k)) else es[k])
  }

  /**
   * `syllabusRepository.save` of a new syllabus: it gets a fresh id, the
   * persist hook runs, and the cascade gives every evaluation without an id
   * one that no stored evaluation and no evaluation of the syllabus uses.
   */
  function InsertSyllabus(ss: seq<Syllabus>, s: Syllabus): (r: (seq<Syllabus>, Syllabus))
    ensures r.1.id.Some? && forall k :: 0 <= k < |ss| ==> SyllabusKey(ss[k]) < r.1.id.value
    ensures r.1 == OnCreate(s).(id := r.1.id, evaluations := r.1.evaluations)
    ensures r.0 == ss + [r.1]
    ensures |r.1.evaluations| == |s.evaluations|
    ensures forall k :: 0 <= k < |s.evaluations| ==>
      r.1.evaluations[k].id.Some? && r.1.evaluations[k].(id := s.evaluations[k].id) == s.evaluations[k]
    ensures forall k :: 0 <= k < |s.evaluations| && s.evaluations[k].id.Some? ==> r.1.evaluations[k].id == s.evaluations[k].id
    ensures forall k :: 0 <= k < |s.evaluations| && s.evaluations[k].id.None? ==>
      && r.1.evaluations[k].id.value > MaxStoredEvaluationId(ss)
      && r.1.evaluations[k].id.value > MaxEvaluationId(s.evaluations)
    ensures DistinctPresentIds(s.evaluations) ==> DistinctIds(r.1.evaluations)
  {
    var next := 1 + (if MaxStoredEvaluationId(ss) > MaxEvaluationId(s.evaluations)
                     then MaxStoredEvaluationId(ss) else MaxEvaluationId(s.evaluations));
    var evals := NumberEvaluations(s.evaluations, next);
    var saved := OnCreate(s.(id := Some(FreshId(ss, SyllabusKey)))).(evaluations := evals);
    (ss + [saved], saved)
  }

  /** Inserting a syllabus keeps every stored syllabus identified and the ids unique. */
  lemma InsertSyllabusWf(ss: seq<Syllabus>, s: Syllabus)
    requires SyllabiSaved(ss) && Unique(ss, SyllabusKey)
    ensures SyllabiSaved(InsertSyllabus(ss, s).0) && Unique(InsertSyllabus(ss, s).0, SyllabusKey)
  {
    var (ss', saved) := InsertSyllabus(ss, s);
    AppendUnique(ss, saved, SyllabusKey);
  }

  /** Saving a changed syllabus in place keeps ids unique as long as its id is kept. */
  lemma ReplaceSyllabusWf(ss: seq<Syllabus>, i: nat, s: Syllabus)
    requires i < |ss| && s.id == ss[i].id
    requires SyllabiSaved(ss) && Unique(ss, SyllabusKey)
    ensures SyllabiSaved(ss[i := s]) && Unique(ss[i := s], SyllabusKey)
  {
  }
}
