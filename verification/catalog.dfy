/** The unified catalog (`OrbitalData`) and its one lookup, `get_id`, which probes the
    four per-category maps in a fixed order. The per-category entity records are not
    part of this model, so they are the type parameters `R` (research), `D`
    (descriptions), `B` (buildables) and `P` (recipes). */
module Catalog {
  import opened Wrappers

  datatype OrbitalData<R, D, B, P> = OrbitalData(
    research: map<string, R>,
    descriptions: map<string, D>,
    buildables: map<string, B>,
    recipes: map<string, P>)

  /** The read view a lookup returns, tagged with the map it came from. */
  datatype OrbitalItem<R, D, B, P> =
    | Research(research: R)
    | Description(description: D)
    | Buildable(buildable: B)
    | Recipe(recipe: P)

  predicate InAny<R, D, B, P>(data: OrbitalData<R, D, B, P>, id: string) {
    id in data.research || id in data.descriptions || id in data.buildables || id in data.recipes
  }

  /** The item is the value stored under `id` in the map its tag names. */
  ghost predicate StoredUnder<R, D, B, P>(data: OrbitalData<R, D, B, P>, id: string, item: OrbitalItem<R, D, B, P>) {
    match item
    case Research(v) => id in data.research && data.research[id] == v
    case Description(v) => id in data.descriptions && data.descriptions[id] == v
    case Buildable(v) => id in data.buildables && data.buildables[id] == v
    case Recipe(v) => id in data.recipes && data.recipes[id] == v
  }

  /** `get_id`: research wins over descriptions, descriptions over buildables, and
      buildables over recipes. */
  function GetId<R, D, B, P>(data: OrbitalData<R, D, B, P>, id: string): (r: Option<OrbitalItem<R, D, B, P>>)
    ensures r.None? <==> !InAny(data, id)
    ensures r.Some? ==> StoredUnder(data, id, r.value)
    ensures id in data.research ==> r == Some(Research(data.research[id]))
    ensures id !in data.research && id in data.descriptions ==> r == Some(Description(data.descriptions[id]))
    ensures r.Some? && r.value.Buildable? ==> id !in data.research && id !in data.descriptions
    ensures r.Some? && r.value.Recipe? ==> id !in data.research && id !in data.descriptions && id !in data.buildables
  {
    if id in data.research then Some(Research(data.research[id]))
    else if id in data.descriptions then Some(Description(data.descriptions[id]))
    else if id in data.buildables then Some(Buildable(data.buildables[id]))
    else if id in data.recipes then Some(Recipe(data.recipes[id]))
    else None
  }

  /** No id is a key of two maps. */
  predicate Disjoint<R, D, B, P>(data: OrbitalData<R, D, B, P>) {
    && data.research.Keys !! data.descriptions.Keys
    && data.research.Keys !! data.buildables.Keys
    && data.research.Keys !! data.recipes.Keys
    && data.descriptions.Keys !! data.buildables.Keys
    && data.descriptions.Keys !! data.recipes.Keys
    && data.buildables.Keys !! data.recipes.Keys
  }

  /** A lookup that probes the maps in the opposite order. */
  function GetIdReversed<R, D, B, P>(data: OrbitalData<R, D, B, P>, id: string): Option<OrbitalItem<R, D, B, P>> {
    if id in data.recipes then Some(Recipe(data.recipes[id]))
    else if id in data.buildables then Some(Buildable(data.buildables[id]))
    else if id in data.descriptions then Some(Description(data.descriptions[id]))
    else if id in data.research then Some(Research(data.research[id]))
    else None
  }

  /** The precedence only decides collisions: when no id is shared between maps, every
      id is found in its own map, tagged accordingly, whatever order the maps are
      probed in. */
  lemma PrecedenceOnlyBreaksTies<R, D, B, P>(data: OrbitalData<R, D, B, P>, id: string)
    requires Disjoint(data)
    ensures GetId(data, id) == GetIdReversed(data, id)
    ensures id in data.buildables ==> GetId(data, id) == Some(Buildable(data.buildables[id]))
    ensures id in data.recipes ==> GetId(data, id) == Some(Recipe(data.recipes[id]))
  {
  }

  /** An id shared by research and recipes is reported as research, and the two lookup
      orders then disagree. */
  lemma CollisionResolvedByPrecedence<R, D, B, P>(data: OrbitalData<R, D, B, P>, id: string)
    requires id in data.research && id in data.recipes
    ensures GetId(data, id) == Some(Research(data.research[id]))
    ensures GetIdReversed(data, id) == Some(Recipe(data.recipes[id]))
  {
  }
}
