/** The catalog handlers: add, update and delete a sweet, and the filtered
    search. Each takes the catalog and answers with the new catalog or the
    reason for refusing; a refusal writes nothing. */
module SweetController {
  import opened Results
  import opened SweetModel
  import Text

  /** Add a sweet under the identifier the database assigns (`id`, fresh).
      Schema validation comes first, then the unique index on the name. */
  function AddSweet(c: Catalog, f: SweetFields, id: SweetId): (r: Result<Catalog>)
    requires id !in c
    ensures r.Ok? <==> Build(f).Ok? && !NameTaken(c, Build(f).value.name, None)
    ensures Build(f).Err? ==> r == Err(ValidationFailed)
    ensures Build(f).Ok? && NameTaken(c, Build(f).value.name, None) ==> r == Err(DuplicateName)
    ensures r.Ok? ==> && Build(f).Ok?
                      && !NameTaken(c, Build(f).value.name, None)
                      && r.value.Keys == c.Keys + {id}
                      && r.value[id] == Build(f).value
                      && (forall k | k in c :: r.value[k] == c[k])
  {
    var b := Build(f);
    if b.Err? then Err(ValidationFailed)
    else if NameTaken(c, b.value.name, None) then Err(DuplicateName)
    else Ok(Store(c, id, b.value))
  }

  /** A successful add keeps every sweet valid and the names unique. */
  lemma AddSweetKeepsValid(c: Catalog, f: SweetFields, id: SweetId)
    requires id !in c && ValidCatalog(c) && AddSweet(c, f, id).Ok?
    ensures ValidCatalog(AddSweet(c, f, id).value)
  {
    var s := Build(f).value;
    var c' := AddSweet(c, f, id).value;
    assert forall k | k in c :: c[k].name != s.name;
    forall k | k in c'
      ensures ValidSweet(c'[k])
    {
      if k != id {
        assert c'[k] == c[k];
      }
    }
    forall a, b | a in c' && b in c' && a != b
      ensures c'[a].name != c'[b].name
    {
      if a == id {
        assert c'[b] == c[b];
      } else if b == id {
        assert c'[a] == c[a];
      } else {
        assert c'[a] == c[a] && c'[b] == c[b];
      }
    }
  }

  /** Partial update with validators. The update is validated before the
      lookup, so an invalid patch is refused with 400 even for an unknown
      id; then an unknown id gives 404; then the unique index refuses a
      name another sweet carries. */
  function UpdateSweet(c: Catalog, id: SweetId, f: SweetFields): (r: Result<Catalog>)
    ensures r.Ok? <==> ValidPatch(f) && id in c && !NameTaken(c, Patch(c[id], f).name, Some(id))
    ensures !ValidPatch(f) ==> r == Err(ValidationFailed)
    ensures ValidPatch(f) && id !in c ==> r == Err(SweetNotFound)
    ensures r.Ok? ==> && ValidPatch(f) && id in c
                      && r.value.Keys == c.Keys
                      && r.value[id] == Patch(c[id], f)
                      && (forall k | k in c && k != id :: r.value[k] == c[k])
    ensures r == Err(DuplicateName) <==>
      ValidPatch(f) && id in c && NameTaken(c, Patch(c[id], f).name, Some(id))
    ensures ValidCatalog(c) && r.Ok? ==> ValidCatalog(r.value)
  {
    if !ValidPatch(f) then Err(ValidationFailed)
    else if id !in c then Err(SweetNotFound)
    else
      var s := Patch(c[id], f);
      if NameTaken(c, s.name, Some(id)) then Err(DuplicateName)
      else Ok(Store(c, id, s))
  }

  /** Hard delete. */
  function DeleteSweet(c: Catalog, id: SweetId): (r: Result<Catalog>)
    ensures r.Ok? <==> id in c
    ensures id !in c <==> r == Err(SweetNotFound)
    ensures r.Ok? ==> && r.value.Keys == c.Keys - {id}
                      && (forall k | k in r.value :: r.value[k] == c[k])
    ensures ValidCatalog(c) && r.Ok? ==> ValidCatalog(r.value)
  {
    if id !in c then Err(SweetNotFound) else Ok(c - {id})
  }

  /** Adding a sweet and deleting it again gives back the original catalog. */
  lemma AddThenDelete(c: Catalog, f: SweetFields, id: SweetId)
    requires id !in c && AddSweet(c, f, id).Ok?
    ensures DeleteSweet(AddSweet(c, f, id).value, id) == Ok(c)
  {
    var c' := AddSweet(c, f, id).value;
    WithoutAdded(c, c', id);
  }

  /** A catalog that extends `c` by the one fresh id `id` gives back `c`
      once `id` is removed. */
  lemma WithoutAdded(c: Catalog, c': Catalog, id: SweetId)
    requires id !in c && c'.Keys == c.Keys + {id}
    requires forall k | k in c :: c'[k] == c[k]
    ensures c' - {id} == c
  {
  }

  /** An update that supplies no field changes nothing, but still reports
      an unknown id. */
  lemma EmptyPatchIsIdentity(c: Catalog, id: SweetId)
    requires UniqueNames(c)
    ensures var r := UpdateSweet(c, id, SweetFields(None, None, None, None, None));
            if id in c then r == Ok(c) else r == Err(SweetNotFound)
  {
    if id in c {
      assert Store(c, id, c[id]) == c;
    }
  }

  /** The search request. Empty strings stand for absent text filters; the
      price bounds are inclusive and each may be absent. */
  datatype SearchQuery = SearchQuery(
    name: string,
    category: string,
    minPrice: Option<int>,
    maxPrice: Option<int>)

  const NoFilters := SearchQuery("", "", None, None)

  /** A sweet satisfies every filter the query supplies. */
  predicate Matches(q: SearchQuery, s: Sweet) {
    && (q.name != "" ==> Text.ContainsIgnoreCase(s.name, q.name))
    && (q.category != "" ==> CategoryName(s.category) == q.category)
    && (q.minPrice.Some? ==> q.minPrice.value <= s.price)
    && (q.maxPrice.Some? ==> s.price <= q.maxPrice.value)
  }

  /** The sweets of the catalog that satisfy the query: every answer is a
      catalog entry satisfying all supplied filters, and every such entry
      is in the answer. */
  function Search(c: Catalog, q: SearchQuery): (r: Catalog)
    ensures r.Keys <= c.Keys
    ensures forall id | id in r :: r[id] == c[id]
    ensures forall id | id in c ::
      id in r <==>
        && (q.name != "" ==> Text.ContainsIgnoreCase(c[id].name, q.name))
        && (q.category != "" ==> CategoryName(c[id].category) == q.category)
        && (q.minPrice.Some? ==> q.minPrice.value <= c[id].price)
        && (q.maxPrice.Some? ==> c[id].price <= q.maxPrice.value)
  {
    map id | id in c && Matches(q, c[id]) :: c[id]
  }

  /** A query without filters lists the whole catalog. */
  lemma SearchWithoutFilters(c: Catalog)
    ensures Search(c, NoFilters) == c
  {
  }

  /** `q2` keeps every filter of `q1` and may add more or tighten the price
      range. */
  predicate Narrows(q2: SearchQuery, q1: SearchQuery) {
    && (q1.name != "" ==> q2.name == q1.name)
    && (q1.category != "" ==> q2.category == q1.category)
    && (q1.minPrice.Some? ==> q2.minPrice.Some? && q2.minPrice.value >= q1.minPrice.value)
    && (q1.maxPrice.Some? ==> q2.maxPrice.Some? && q2.maxPrice.value <= q1.maxPrice.value)
  }

  /** Adding or tightening a filter never enlarges the answer. */
  lemma NarrowerSearchIsSubset(c: Catalog, q1: SearchQuery, q2: SearchQuery)
    requires Narrows(q2, q1)
    ensures Search(c, q2).Keys <= Search(c, q1).Keys
  {
  }

  /** A category filter that names no category finds nothing. */
  lemma UnknownCategoryFindsNothing(c: Catalog, q: SearchQuery)
    requires q.category != "" && ParseCategory(q.category).None?
    ensures Search(c, q) == map[]
  {
  }

  /** Searching by any piece of a sweet's name, in any letter case, finds
      that sweet when the other filters admit it. */
  lemma {:induction false} SearchFindsByNamePiece(c: Catalog, id: SweetId, i: int, j: int, q: SearchQuery)
    requires id in c && 0 <= i <= j <= |c[id].name|
    requires Text.Lower(q.name) == Text.Lower(c[id].name[i..j])
    requires q.category != "" ==> CategoryName(c[id].category) == q.category
    requires q.minPrice.Some? ==> q.minPrice.value <= c[id].price
    requires q.maxPrice.Some? ==> c[id].price <= q.maxPrice.value
    ensures id in Search(c, q)
  {
    Text.SliceIsFound(c[id].name, i, j);
  }
}
