/** The variable catalog: an ordered list of known variables, taken as a parameter. */
module Catalog {
  import opened Wrappers

  /** A catalog entry: a unique id, a label (`labelText`) shown and searched, and the literal substitution text. */
  datatype Variable = Variable(id: string, labelText: string, value: string)

  /** Index of the first entry whose id is `id` (the search behind Array.prototype.find). */
  function FindIndex(catalog: seq<Variable>, id: string): (r: Option<nat>)
    ensures r.Some? ==> r.value < |catalog| && catalog[r.value].id == id
    ensures r.Some? ==> forall j :: 0 <= j < r.value ==> catalog[j].id != id
    ensures r.None? ==> forall j :: 0 <= j < |catalog| ==> catalog[j].id != id
  {
    if |catalog| == 0 then None
    else if catalog[0].id == id then Some(0)
    else
      match FindIndex(catalog[1..], id)
      case None => None
      case Some(k) => Some(k + 1)
  }

  /** The first entry whose id is `id` (Array.prototype.find), or None when no entry has it. */
  function Find(catalog: seq<Variable>, id: string): (r: Option<Variable>)
    ensures r.None? <==> forall v :: v in catalog ==> v.id != id
    ensures r.Some? ==> r.value in catalog && r.value.id == id
    ensures r.Some? ==> exists k :: 0 <= k < |catalog| && catalog[k] == r.value &&
                          forall j :: 0 <= j < k ==> catalog[j].id != id
  {
    match FindIndex(catalog, id)
    case None => None
    case Some(k) => Some(catalog[k])
  }
}
