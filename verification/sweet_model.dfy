/** The Sweet schema: a catalog item, the closed set of categories, the
    field constraints the schema enforces on every write, and the partial
    field records that the add and update requests carry. */
module SweetModel {
  import opened Results
  import Text

  type SweetId = nat

  datatype Category = Chocolate | Candy | Gummy | HardCandy | Lollipop | Other

  /** The spelling of each category in requests and stored documents. */
  function CategoryName(c: Category): string {
    match c
    case Chocolate => "chocolate"
    case Candy => "candy"
    case Gummy => "gummy"
    case HardCandy => "hard-candy"
    case Lollipop => "lollipop"
    case Other => "other"
  }

  /** The schema's enum check: a string names a category exactly when it is
      that category's spelling. */
  function ParseCategory(s: string): (r: Option<Category>)
    ensures forall c: Category :: r == Some(c) <==> CategoryName(c) == s
  {
    if s == "chocolate" then Some(Chocolate)
    else if s == "candy" then Some(Candy)
    else if s == "gummy" then Some(Gummy)
    else if s == "hard-candy" then Some(HardCandy)
    else if s == "lollipop" then Some(Lollipop)
    else if s == "other" then Some(Other)
    else None
  }

  /** A stored sweet. Prices are in minor currency units. `quantity` is the
      stock on hand. */
  datatype Sweet = Sweet(
    name: string,
    category: Category,
    price: int,
    quantity: int,
    description: Option<string>)

  /** A sweet together with its identifier, as the list and search
      endpoints hand it to the client. */
  datatype Listing = Listing(id: SweetId, doc: Sweet)

  /** The sweets collection. */
  type Catalog = map<SweetId, Sweet>

  /** What the schema guarantees of every stored sweet: a non-empty trimmed
      name, a non-negative price and stock, a trimmed description. */
  predicate ValidSweet(s: Sweet) {
    && s.name != ""
    && Text.Trimmed(s.name)
    && s.price >= 0
    && s.quantity >= 0
    && (s.description.Some? ==> Text.Trimmed(s.description.value))
  }

  /** The unique index on `name`. */
  predicate UniqueNames(c: Catalog) {
    forall a, b | a in c && b in c && a != b :: c[a].name != c[b].name
  }

  predicate ValidCatalog(c: Catalog) {
    && (forall id | id in c :: ValidSweet(c[id]))
    && UniqueNames(c)
  }

  /** Some other sweet than `except` already carries `name`. */
  predicate NameTaken(c: Catalog, name: string, except: Option<SweetId>) {
    exists k | k in c :: c[k].name == name && except != Some(k)
  }

  /** `c` with sweet `s` stored under `id` and every other entry kept. */
  function Store(c: Catalog, id: SweetId, s: Sweet): (r: Catalog)
    ensures r.Keys == c.Keys + {id}
    ensures r[id] == s
    ensures forall k | k in c && k != id :: r[k] == c[k]
  {
    c[id := s]
  }

  /** `c` with the stock of `id` set to `n` and everything else kept. */
  function WithStock(c: Catalog, id: SweetId, n: int): (r: Catalog)
    requires id in c
    ensures r.Keys == c.Keys
    ensures r[id].quantity == n
    ensures r[id] == c[id].(quantity := n)
    ensures forall k | k in c && k != id :: r[k] == c[k]
  {
    c[id := c[id].(quantity := n)]
  }

  /** Changing only the stock of a sweet keeps the catalog valid as long as
      the new stock is not negative. */
  lemma WithStockValid(c: Catalog, id: SweetId, n: int)
    requires ValidCatalog(c) && id in c && n >= 0
    ensures ValidCatalog(WithStock(c, id, n))
  {
    var r := WithStock(c, id, n);
    forall a, b | a in r && b in r && a != b
      ensures r[a].name != r[b].name
    {
      assert r[a].name == c[a].name && r[b].name == c[b].name;
    }
  }

  /** The body of an add or update request: every field may be absent. */
  datatype SweetFields = SweetFields(
    name: Option<string>,
    category: Option<string>,
    price: Option<int>,
    quantity: Option<int>,
    description: Option<string>)

  /** Document validation on create: name, category and price are required,
      the name is stored trimmed and must not be empty once trimmed, the
      category must be one of the enum values, price and quantity must not
      be negative, and an absent quantity defaults to 0. */
  function Build(f: SweetFields): (r: Result<Sweet>)
    ensures r.Ok? <==>
      && f.name.Some? && Text.Trim(f.name.value) != ""
      && f.category.Some? && ParseCategory(f.category.value).Some?
      && f.price.Some? && f.price.value >= 0
      && (f.quantity.None? || f.quantity.value >= 0)
    ensures r.Err? ==> r.reason == ValidationFailed
    ensures r.Ok? ==> ValidSweet(r.value)
    ensures r.Ok? ==> && r.value.name == Text.Trim(f.name.value)
                      && CategoryName(r.value.category) == f.category.value
                      && r.value.price == f.price.value
                      && r.value.quantity == (if f.quantity.Some? then f.quantity.value else 0)
                      && r.value.description == (if f.description.Some? then Some(Text.Trim(f.description.value)) else None)
  {
    if f.name.None? || Text.Trim(f.name.value) == "" then Err(ValidationFailed)
    else if f.category.None? || ParseCategory(f.category.value).None? then Err(ValidationFailed)
    else if f.price.None? || f.price.value < 0 then Err(ValidationFailed)
    else if f.quantity.Some? && f.quantity.value < 0 then Err(ValidationFailed)
    else
      Ok(Sweet(
        Text.Trim(f.name.value),
        ParseCategory(f.category.value).value,
        f.price.value,
        if f.quantity.Some? then f.quantity.value else 0,
        if f.description.Some? then Some(Text.Trim(f.description.value)) else None))
  }

  /** Update validation: only the supplied fields are checked, each against
      the same constraint as on create. */
  predicate ValidPatch(f: SweetFields) {
    && (f.name.Some? ==> Text.Trim(f.name.value) != "")
    && (f.category.Some? ==> ParseCategory(f.category.value).Some?)
    && (f.price.Some? ==> f.price.value >= 0)
    && (f.quantity.Some? ==> f.quantity.value >= 0)
  }

  /** The sweet after a partial update: supplied fields replace the stored
      ones (name and description trimmed), the others are kept. */
  function Patch(s: Sweet, f: SweetFields): (r: Sweet)
    requires ValidPatch(f)
    ensures ValidSweet(s) ==> ValidSweet(r)
    ensures f.name.None? ==> r.name == s.name
    ensures f.category.None? ==> r.category == s.category
    ensures f.price.None? ==> r.price == s.price
    ensures f.quantity.None? ==> r.quantity == s.quantity
    ensures f.description.None? ==> r.description == s.description
    ensures f.name.Some? ==> r.name == Text.Trim(f.name.value)
    ensures f.category.Some? ==> CategoryName(r.category) == f.category.value
    ensures f.price.Some? ==> r.price == f.price.value
    ensures f.quantity.Some? ==> r.quantity == f.quantity.value
    ensures f.description.Some? ==> r.description == Some(Text.Trim(f.description.value))
    ensures f == SweetFields(None, None, None, None, None) ==> r == s
  {
    Sweet(
      if f.name.Some? then Text.Trim(f.name.value) else s.name,
      if f.category.Some? then ParseCategory(f.category.value).value else s.category,
      if f.price.Some? then f.price.value else s.price,
      if f.quantity.Some? then f.quantity.value else s.quantity,
      if f.description.Some? then Some(Text.Trim(f.description.value)) else s.description)
  }
}
