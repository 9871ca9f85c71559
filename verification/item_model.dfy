/** The item schema: its enumerations, its bounds and the defaults a new listing gets. */
module ItemModel {
  import opened Wrappers
  import opened JsText
  import opened UserModel

  type ItemId = nat

  datatype Category = Clothing | Shoes | Accessories | Bags | Jewelry | Other
  datatype Condition = New | LikeNew | Good | Fair
  datatype ItemStatus = Available | Pending | Swapped | Removed

  /** The `enum` lists of the schema, in the order the schema gives them. */
  const CategoryNames: seq<string> := ["clothing", "shoes", "accessories", "bags", "jewelry", "other"]
  const ConditionNames: seq<string> := ["new", "like-new", "good", "fair"]

  const TitleMaxLength: nat := 100
  const DescriptionMaxLength: nat := 1000
  const MinPointValue: int := 1

  function CategoryName(c: Category): (r: string)
    ensures r in CategoryNames
  {
    match c
    case Clothing => "clothing"
    case Shoes => "shoes"
    case Accessories => "accessories"
    case Bags => "bags"
    case Jewelry => "jewelry"
    case Other => "other"
  }

  function ConditionName(c: Condition): (r: string)
    ensures r in ConditionNames
  {
    match c
    case New => "new"
    case LikeNew => "like-new"
    case Good => "good"
    case Fair => "fair"
  }

  /** The schema's enum cast: a stored category is one of the six names. */
  function ParseCategory(s: string): (r: Option<Category>)
    ensures r.Some? <==> s in CategoryNames
    ensures r.Some? ==> CategoryName(r.value) == s
  {
    if s == "clothing" then Some(Clothing)
    else if s == "shoes" then Some(Shoes)
    else if s == "accessories" then Some(Accessories)
    else if s == "bags" then Some(Bags)
    else if s == "jewelry" then Some(Jewelry)
    else if s == "other" then Some(Other)
    else None
  }

  /** The schema's enum cast: a stored condition is one of the four names. */
  function ParseCondition(s: string): (r: Option<Condition>)
    ensures r.Some? <==> s in ConditionNames
    ensures r.Some? ==> ConditionName(r.value) == s
  {
    if s == "new" then Some(New)
    else if s == "like-new" then Some(LikeNew)
    else if s == "good" then Some(Good)
    else if s == "fair" then Some(Fair)
    else None
  }

  /** Names and enumeration values correspond one to one. */
  lemma NamesRoundTrip(c: Category, d: Condition)
    ensures ParseCategory(CategoryName(c)) == Some(c)
    ensures ParseCondition(ConditionName(d)) == Some(d)
  {
  }

  /** A stored listing. `garmentType` is the free-text `type` field of the schema. */
  datatype Item = Item(
    title: string,
    description: string,
    category: Category,
    garmentType: string,
    size: string,
    condition: Condition,
    tags: seq<string>,
    images: seq<string>,
    uploader: UserId,
    pointValue: int,
    status: ItemStatus,
    approved: bool)

  /** What a saved item satisfies beyond its enumerations (which the types carry):
      required strings are non-empty, the trimmed fields are trimmed, the length
      bounds and the `pointValue` minimum hold. */
  predicate SchemaValid(it: Item) {
    && it.title != [] && Trimmed(it.title) && |it.title| <= TitleMaxLength
    && it.description != [] && |it.description| <= DescriptionMaxLength
    && it.garmentType != [] && it.size != []
    && (forall i | 0 <= i < |it.tags| :: Trimmed(it.tags[i]))
    && (forall i | 0 <= i < |it.images| :: it.images[i] != [])
    && it.pointValue >= MinPointValue
  }
}
