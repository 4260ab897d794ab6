/**
 * The career registry: careers are created with unique names and deleted
 * by id.
 */
module Careers {
  import opened Base
  import opened Domain
  import opened Stores

  /** `createCareer`: a taken name is refused; otherwise one career with that name and a fresh id is appended. */
  function CreateCareer(careers: seq<Career>, name: string): (r: Result<(seq<Career>, Career)>)
    ensures r.Failure? <==> exists k :: 0 <= k < |careers| && careers[k].name == name
    ensures r.Failure? ==> r.error == CareerNameTaken
    ensures r.Success? ==> r.value.0 == careers + [r.value.1]
    ensures r.Success? ==> r.value.1.name == name
    ensures r.Success? ==> forall k :: 0 <= k < |careers| ==> careers[k].id != r.value.1.id
  {
    if FindCareerByName(careers, name).Some? then Failure(CareerNameTaken)
    else
      var c := Career(FreshId(careers, CareerId), name);
      Success((careers + [c], c))
  }

  /** Creating careers keeps ids and names unique, and after success exactly one career bears the name. */
  lemma CreateCareerWf(careers: seq<Career>, name: string)
    requires Unique(careers, CareerId) && Unique(careers, CareerName)
    ensures CreateCareer(careers, name).Success? ==>
      var careers' := CreateCareer(careers, name).value.0;
      && Unique(careers', CareerId) && Unique(careers', CareerName)
      && Count(careers', (c: Career) => c.name == name) == 1
  {
    var r := CreateCareer(careers, name);
    if r.Success? {
      var c := r.value.1;
      AppendUnique(careers, c, CareerId);
      AppendUnique(careers, c, CareerName);
      CountNamed(careers, c, name);
    }
  }

  /** Appending a career with a name nobody has yet makes exactly one career of that name. */
  lemma {:induction false} CountNamed(careers: seq<Career>, c: Career, name: string)
    requires c.name == name
    requires forall k :: 0 <= k < |careers| ==> careers[k].name != name
    ensures Count(careers + [c], (x: Career) => x.name == name) == 1
  {
    var p := (x: Career) => x.name == name;
    FilterNone(careers, p);
    FilterAppend(careers, [c], p);
    assert Filter([c], p) == [c];
  }

  /** The careers `deleteCareer` keeps. */
  function IdIsNot(id: nat): Career -> bool {
    (c: Career) => c.id != id
  }

  /** `deleteCareer`: removes the career with that id, keeping the others in order; an unknown id changes nothing. */
  function DeleteCareer(careers: seq<Career>, id: nat): (r: seq<Career>)
    ensures forall k :: 0 <= k < |r| ==> r[k].id != id
    ensures forall k :: 0 <= k < |careers| && careers[k].id != id ==> careers[k] in r
    ensures forall c :: c in r ==> c in careers
    ensures IsSubsequence(r, careers)
  {
    FilterIsSubsequence(careers, IdIsNot(id));
    Filter(careers, IdIsNot(id))
  }

  /** Deleting an id that is not stored leaves the store as it was. */
  lemma DeleteUnknownCareer(careers: seq<Career>, id: nat)
    requires forall k :: 0 <= k < |careers| ==> careers[k].id != id
    ensures DeleteCareer(careers, id) == careers
  {
    FilterAll(careers, IdIsNot(id));
  }

  /** Under unique ids, deleting a stored career removes exactly one entry. */
  lemma DeleteCareerRemovesOne(careers: seq<Career>, k: nat)
    requires k < |careers| && Unique(careers, CareerId)
    ensures DeleteCareer(careers, careers[k].id) == careers[..k] + careers[k + 1..]
  {
    var id := careers[k].id;
    var before, after := careers[..k], careers[k + 1..];
    assert careers == before + [careers[k]] + after;
    forall i | 0 <= i < |before| ensures IdIsNot(id)(before[i]) {
      assert before[i] == careers[i];
    }
    forall i | 0 <= i < |after| ensures IdIsNot(id)(after[i]) {
      assert after[i] == careers[k + 1 + i];
    }
    FilterDropsOne(before, careers[k], after, IdIsNot(id));
  }
}
