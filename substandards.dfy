/**
 * The substandard lookups of the frontend API client: the validator titles of a substandard,
 * found by id, and whether it has a validator of a given title.
 */
module Substandards {
  import opened Optional

  datatype SubstandardValidator = SubstandardValidator(title: string, scriptBytes: string, scriptHash: string)

  datatype Substandard = Substandard(id: string, validators: seq<SubstandardValidator>)

  /** `substandards.find(s => s.id === id)`, as an index: the first substandard with that id. */
  function FindById(substandards: seq<Substandard>, id: string): (r: Option<nat>)
    ensures r.Some? ==> r.value < |substandards| && substandards[r.value].id == id
                        && forall j :: 0 <= j < r.value ==> substandards[j].id != id
    ensures r.None? <==> forall j :: 0 <= j < |substandards| ==> substandards[j].id != id
  {
    if substandards == [] then None
    else if substandards[0].id == id then Some(0)
    else
      assert forall j :: 1 <= j < |substandards| ==> substandards[j] == substandards[1..][j - 1];
      match FindById(substandards[1..], id)
      case None => None
      case Some(i) => Some(i + 1)
  }

  /** `validators.map(v => v.title)`. */
  function Titles(validators: seq<SubstandardValidator>): (r: seq<string>)
    ensures |r| == |validators|
    ensures forall i :: 0 <= i < |r| ==> r[i] == validators[i].title
  {
    if validators == [] then [] else [validators[0].title] + Titles(validators[1..])
  }

  /** getValidatorTitles: the titles of the first substandard with the id, or none for an unknown id. */
  function GetValidatorTitles(substandardId: string, substandards: seq<Substandard>): (r: seq<string>)
    ensures FindById(substandards, substandardId).None? ==> r == []
    ensures FindById(substandards, substandardId).Some? ==>
      var s := substandards[FindById(substandards, substandardId).value];
      |r| == |s.validators| && forall i :: 0 <= i < |r| ==> r[i] == s.validators[i].title
  {
    match FindById(substandards, substandardId)
    case None => []
    case Some(i) => Titles(substandards[i].validators)
  }

  /** hasValidator: `titles.includes(validatorTitle)`. */
  predicate HasValidator(substandardId: string, validatorTitle: string, substandards: seq<Substandard>)
    ensures HasValidator(substandardId, validatorTitle, substandards) ==>
      exists k, i :: 0 <= k < |substandards| && substandards[k].id == substandardId
        && 0 <= i < |substandards[k].validators| && substandards[k].validators[i].title == validatorTitle
  {
    validatorTitle in GetValidatorTitles(substandardId, substandards)
  }

  /**
   * A substandard has a validator of that title exactly when the first substandard with the id
   * lists one; for an id no substandard has, never.
   */
  lemma HasValidatorOfFirst(substandardId: string, validatorTitle: string, substandards: seq<Substandard>)
    ensures HasValidator(substandardId, validatorTitle, substandards) <==>
      exists k :: 0 <= k < |substandards| && substandards[k].id == substandardId
        && (forall j :: 0 <= j < k ==> substandards[j].id != substandardId)
        && exists i :: 0 <= i < |substandards[k].validators| && substandards[k].validators[i].title == validatorTitle
    ensures (forall j :: 0 <= j < |substandards| ==> substandards[j].id != substandardId) ==>
      !HasValidator(substandardId, validatorTitle, substandards)
  {
    var titles := GetValidatorTitles(substandardId, substandards);
    match FindById(substandards, substandardId)
    case None =>
    case Some(k) =>
      var vs := substandards[k].validators;
      if validatorTitle in titles {
        var i :| 0 <= i < |titles| && titles[i] == validatorTitle;
        assert vs[i].title == validatorTitle;
      }
      if exists i :: 0 <= i < |vs| && vs[i].title == validatorTitle {
        var i :| 0 <= i < |vs| && vs[i].title == validatorTitle;
        assert titles[i] == validatorTitle;
      }
      forall k' | 0 <= k' < |substandards| && substandards[k'].id == substandardId
        && (forall j :: 0 <= j < k' ==> substandards[j].id != substandardId)
        ensures k' == k
      {
      }
  }
}
