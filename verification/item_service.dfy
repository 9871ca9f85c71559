/** The catalogue service: pricing, listing creation, the public listing query with
    its pagination, a user's own listings, and the admin approval gate. */
module ItemService {
  import opened Wrappers
  import opened JsText
  import opened UserModel
  import opened ItemModel
  import opened StoreState

  /* ---------------------------------------------------------------- pricing */

  /** Base points per category name; any other name falls back to 10. */
  function BasePoints(category: string): nat {
    if category == "clothing" then 20
    else if category == "shoes" then 25
    else if category == "accessories" then 15
    else if category == "bags" then 30
    else if category == "jewelry" then 35
    else 10
  }

  /** The condition multiplier as the source writes it; any other name falls back to 1.0. */
  function Multiplier(condition: string): real {
    if condition == "new" then 1.5
    else if condition == "like-new" then 1.2
    else if condition == "good" then 1.0
    else if condition == "fair" then 0.8
    else 1.0
  }

  /** The same multiplier in integer tenths. */
  function MultiplierTenths(condition: string): nat {
    if condition == "new" then 15
    else if condition == "like-new" then 12
    else if condition == "good" then 10
    else if condition == "fair" then 8
    else 10
  }

  /** The point value of a listing. Note the argument order: condition first.
      The result is `Math.round(base * multiplier)`: the nearest integer to the
      exact product, halves rounded up. It is always between 8 and 53. */
  function PointValue(condition: string, category: string): (r: int)
    ensures 8 <= r <= 53
  {
    (BasePoints(category) * MultiplierTenths(condition) + 5) / 10
  }

  /** Integer tenths reproduce `Math.round` of the product the source computes: the
      price is within half a point of base times multiplier, halves rounding up. */
  lemma PointValueRounds(condition: string, category: string)
    ensures var r := PointValue(condition, category) as real;
      r - 0.5 <= (BasePoints(category) as real) * Multiplier(condition) < r + 0.5
  {
  }

  /** The worked values of the pricing table. */
  lemma PointValueExamples()
    ensures PointValue("new", "bags") == 45
    ensures PointValue("fair", "other") == 8
    ensures PointValue("new", "shoes") == 38
    ensures PointValue("new", "jewelry") == 53
    ensures PointValue("good", "clothing") == 20
    ensures PointValue("mint", "hats") == 10
  {
  }

  /** A category outside the enumeration prices as "other", and a condition outside it
      prices as "good". */
  lemma PointValueFallbacks(condition: string, category: string)
    ensures category !in CategoryNames ==> PointValue(condition, category) == PointValue(condition, "other")
    ensures condition !in ConditionNames ==> PointValue(condition, category) == PointValue("good", category)
  {
  }

  /** Every price satisfies the schema's minimum. */
  lemma PointValueMeetsSchema(condition: string, category: string)
    ensures PointValue(condition, category) >= MinPointValue
  {
  }

  /* --------------------------------------------------------------- creation */

  /** The fields of a new listing as they reach the service. */
  datatype ItemData = ItemData(
    title: string,
    description: string,
    category: string,
    condition: string,
    garmentType: string,
    size: string,
    tags: seq<string>,
    images: seq<string>)

  /** What the save of a new listing accepts: a title that is non-blank and at most
      100 characters once trimmed, a non-empty description of at most 1000 characters,
      a known category and condition, a non-empty type and size, no empty image. */
  predicate SaveAccepts(d: ItemData) {
    && !Blank(d.title) && |Trim(d.title)| <= TitleMaxLength
    && d.description != [] && |d.description| <= DescriptionMaxLength
    && d.category in CategoryNames && d.condition in ConditionNames
    && d.garmentType != [] && d.size != []
    && (forall i | 0 <= i < |d.images| :: d.images[i] != [])
  }

  function TrimAll(tags: seq<string>): (r: seq<string>)
    ensures |r| == |tags|
    ensures forall i | 0 <= i < |r| :: r[i] == Trim(tags[i])
  {
    seq(|tags|, i requires 0 <= i < |tags| => Trim(tags[i]))
  }

  /** `it` is the listing `d` becomes when `uploader` creates it: the trimmed title and
      tags, the computed price, `available` and not yet approved. */
  predicate NewListing(it: Item, d: ItemData, uploader: UserId) {
    && it.title == Trim(d.title)
    && it.description == d.description
    && CategoryName(it.category) == d.category
    && ConditionName(it.condition) == d.condition
    && it.garmentType == d.garmentType
    && it.size == d.size
    && it.tags == TrimAll(d.tags)
    && it.images == d.images
    && it.uploader == uploader
    && it.pointValue == PointValue(d.condition, d.category)
    && it.status == Available
    && !it.approved
  }

  /** The listing built from `d` once its category and condition names are cast. */
  function Listing(d: ItemData, uploader: UserId, category: Category, condition: Condition): (it: Item)
    requires CategoryName(category) == d.category && ConditionName(condition) == d.condition
    ensures NewListing(it, d, uploader)
  {
    Item(Trim(d.title), d.description, category, d.garmentType, d.size, condition,
         TrimAll(d.tags), d.images, uploader, PointValue(d.condition, d.category),
         Available, false)
  }

  /** With known names, the schema accepts the built listing exactly when the data
      meets `SaveAccepts`. */
  lemma ListingSchemaValid(d: ItemData, uploader: UserId, category: Category, condition: Condition)
    requires CategoryName(category) == d.category && ConditionName(condition) == d.condition
    ensures ItemModel.SchemaValid(Listing(d, uploader, category, condition)) <==> SaveAccepts(d)
  {
    var it := Listing(d, uploader, category, condition);
    var title := Trim(d.title);
    assert it.title == title && (title != [] <==> !Blank(d.title)) && Trimmed(title);
    assert it.description == d.description && it.images == d.images;
    assert it.garmentType == d.garmentType && it.size == d.size;
    assert it.pointValue >= MinPointValue;
    TagsTrimmed(d.tags);
    assert d.category in CategoryNames && d.condition in ConditionNames;
  }

  /** Every stored tag is trimmed. */
  lemma TagsTrimmed(tags: seq<string>)
    ensures forall i | 0 <= i < |TrimAll(tags)| :: Trimmed(TrimAll(tags)[i])
  {
  }

  /** Saving a new listing: the schema decides, and an accepted listing gets the next id. */
  function SaveListing(st: Store, it: Item): (r: Transition<ItemId>)
    ensures r.result.Success? <==> ItemModel.SchemaValid(it)
    ensures r.result.Failure? ==> r.store == st && r.result.error == ItemNotSaved
    ensures r.result.Success? ==>
      && r.result.value == st.nextId
      && r.store == st.(items := st.items[st.nextId := it], nextId := st.nextId + 1)
  {
    if ItemModel.SchemaValid(it) then
      Transition(st.(items := st.items[st.nextId := it], nextId := st.nextId + 1), Success(st.nextId))
    else
      Transition(st, Failure(ItemNotSaved))
  }

  /** `createItem`: store the listing with its computed price, `available` and awaiting
      approval, or fail without a change when the schema refuses it. */
  function CreateItem(st: Store, d: ItemData, uploader: UserId): (r: Transition<ItemId>)
    ensures r.result.Success? <==> SaveAccepts(d)
    ensures r.result.Failure? ==> r.store == st && r.result.error == ItemNotSaved
    ensures r.result.Success? ==>
      var id := r.result.value;
      && id == st.nextId && id in r.store.items
      && NewListing(r.store.items[id], d, uploader)
      && ItemModel.SchemaValid(r.store.items[id])
      && r.store == st.(items := st.items[id := r.store.items[id]], nextId := id + 1)
  {
    var category := ParseCategory(d.category);
    var condition := ParseCondition(d.condition);
    if category.None? || condition.None? then Transition(st, Failure(ItemNotSaved))
    else
      ListingSchemaValid(d, uploader, category.value, condition.value);
      SaveListing(st, Listing(d, uploader, category.value, condition.value))
  }

  /** Creating a listing keeps the store consistent. */
  lemma CreateItemKeepsValid(st: Store, d: ItemData, uploader: UserId)
    requires st.Valid()
    ensures CreateItem(st, d, uploader).store.Valid()
  {
  }

  /* ---------------------------------------------------------------- queries */

  /** The optional listing filters; the empty string means "not given" (it is falsy). */
  datatype Filters = Filters(category: string, condition: string, size: string)

  /** The public listing query: approved, available, and equal to every given filter. */
  predicate Listed(it: Item, f: Filters) {
    && it.approved && it.status == Available
    && (f.category == "" || CategoryName(it.category) == f.category)
    && (f.condition == "" || ConditionName(it.condition) == f.condition)
    && (f.size == "" || it.size == f.size)
  }

  /** All listed items, newest first. */
  function Matching(st: Store, f: Filters): seq<ItemId> {
    NewestFirst(st.items, (it: Item) => Listed(it, f), st.nextId)
  }

  /** `Math.ceil(total / limit)`, or None when the quotient is not a finite number
      (a limit of 0). */
  function PageCount(total: nat, limit: int): (r: Option<int>)
    ensures r.None? <==> limit == 0
    ensures limit > 0 ==> (r.value - 1) * limit < total <= r.value * limit
    ensures limit < 0 ==> r.value * limit <= total < (r.value - 1) * limit
  {
    if limit == 0 then None
    else if limit > 0 then
      var p := (total + limit - 1) / limit;
      CeilBounds(total, limit, p);
      Some(p)
    else
      var p := -(total / -limit);
      FloorBounds(total, -limit, total / -limit);
      Some(p)
  }

  lemma CeilBounds(total: nat, limit: int, p: int)
    requires limit > 0 && p == (total + limit - 1) / limit
    ensures (p - 1) * limit < total <= p * limit
  {
    var q := total + limit - 1;
    assert q == p * limit + q % limit;
    assert (p - 1) * limit == p * limit - limit;
  }

  lemma FloorBounds(total: nat, n: int, q: int)
    requires n > 0 && q == total / n
    ensures -q * -n <= total < (-q - 1) * -n
  {
    assert total == q * n + total % n;
    assert (-q - 1) * -n == q * n + n;
  }

  /** How many documents `limit(n)` returns at most: 0 means no limit, a negative
      limit returns its absolute value in one batch. */
  function Take(limit: int, available: nat): (r: nat)
    ensures r <= available
    ensures limit != 0 ==> r <= if limit > 0 then limit else -limit
    ensures limit == 0 ==> r == available
    ensures limit != 0 ==> r == available || r == if limit > 0 then limit else -limit
  {
    if limit == 0 then available
    else if limit > 0 then (if limit < available then limit else available)
    else (if -limit < available then -limit else available)
  }

  /** One page of the listing, the number of listed items and the page count. */
  datatype Page = Page(items: seq<ItemId>, total: nat, pages: Option<int>)

  /** `getItems`: the listed items, newest first, after skipping `(page - 1) * limit`
      of them and keeping at most `limit`. A negative skip is refused by the database. */
  function GetItems(st: Store, f: Filters, page: int, limit: int): (r: Result<Page, ServiceError>)
    ensures r.Failure? <==> (page - 1) * limit < 0
    ensures r.Failure? ==> r.error == ItemsNotFetched
    ensures r.Success? ==>
      var all := Matching(st, f);
      var skip := (page - 1) * limit;
      && r.value.total == |all|
      && r.value.pages == PageCount(|all|, limit)
      && (forall i | 0 <= i < |r.value.items| :: skip + i < |all| && r.value.items[i] == all[skip + i])
      && (skip < |all| ==> |r.value.items| == Take(limit, |all| - skip))
      && (skip >= |all| ==> r.value.items == [])
    ensures r.Success? ==> forall id | id in r.value.items :: id in st.items && Listed(st.items[id], f)
    ensures r.Success? && limit > 0 ==> |r.value.items| <= limit
  {
    var skip := (page - 1) * limit;
    if skip < 0 then Failure(ItemsNotFetched)
    else
      var all := Matching(st, f);
      var rest := if skip < |all| then all[skip..] else [];
      Success(Page(rest[..Take(limit, |rest|)], |all|, PageCount(|all|, limit)))
  }

  /** A sequence without repetitions has as many elements as its set of elements. */
  lemma {:induction false} DistinctCardinality(s: seq<nat>)
    requires forall i, j | 0 <= i < j < |s| :: s[i] != s[j]
    ensures |set i | 0 <= i < |s| :: s[i]| == |s|
  {
    if s != [] {
      var tail := s[1..];
      DistinctCardinality(tail);
      var whole := set i | 0 <= i < |s| :: s[i];
      var rest := set i | 0 <= i < |tail| :: tail[i];
      assert whole == {s[0]} + rest by {
        forall x | x in whole ensures x in {s[0]} + rest {
          var i :| 0 <= i < |s| && s[i] == x;
          if i > 0 { assert tail[i - 1] == x; }
        }
        forall x | x in rest ensures x in whole {
          var i :| 0 <= i < |tail| && tail[i] == x;
          assert s[i + 1] == x;
        }
      }
      assert s[0] !in rest by {
        forall i | 0 <= i < |tail| ensures tail[i] != s[0] {
          assert tail[i] == s[i + 1];
        }
      }
    }
  }

  /** The ids of all listed items. */
  function ListedIds(st: Store, f: Filters): set<ItemId> {
    set id | id in st.items && Listed(st.items[id], f)
  }

  /** In a consistent store, `total` counts exactly the listed items. */
  lemma TotalCountsListed(st: Store, f: Filters, page: int, limit: int)
    requires st.Valid()
    requires GetItems(st, f, page, limit).Success?
    ensures GetItems(st, f, page, limit).value.total == |ListedIds(st, f)|
  {
    var all := Matching(st, f);
    DistinctCardinality(all);
    assert (set i | 0 <= i < |all| :: all[i]) == ListedIds(st, f) by {
      forall id | id in ListedIds(st, f) ensures id in (set i | 0 <= i < |all| :: all[i]) {
        assert id in all;
      }
    }
  }

  /** Paging through the listing with a positive limit shows the item at position `i`
      of the full listing on page `i / limit + 1`, at position `i % limit`. */
  lemma PageOfPosition(st: Store, f: Filters, limit: int, i: nat)
    requires limit > 0 && i < |Matching(st, f)|
    ensures var r := GetItems(st, f, i / limit + 1, limit);
      r.Success? && i % limit < |r.value.items| && r.value.items[i % limit] == Matching(st, f)[i]
  {
    var q, m := i / limit, i % limit;
    DivModFacts(i, limit);
    assert (q + 1 - 1) * limit == q * limit;
    WindowAt(st, f, q + 1, limit, m);
  }

  /** A page with a positive limit holds, at position `m < limit`, the listed item at
      position `skip + m` whenever there is one. */
  lemma WindowAt(st: Store, f: Filters, page: int, limit: int, m: nat)
    requires limit > 0 && (page - 1) * limit >= 0 && m < limit
    requires (page - 1) * limit + m < |Matching(st, f)|
    ensures var r := GetItems(st, f, page, limit);
      r.Success? && m < |r.value.items| && r.value.items[m] == Matching(st, f)[(page - 1) * limit + m]
  {
    var all := Matching(st, f);
    var skip := (page - 1) * limit;
    var r := GetItems(st, f, page, limit);
    assert |r.value.items| == Take(limit, |all| - skip);
  }

  /** Euclidean division of a natural number by a positive one. */
  lemma DivModFacts(i: nat, n: int)
    requires n > 0
    ensures (i / n) * n + i % n == i && 0 <= i % n < n && i / n >= 0 && (i / n) * n >= 0
  {
  }

  /** `getItemById`. */
  function GetItemById(st: Store, id: ItemId): (r: Result<Item, ServiceError>)
    ensures r.Success? <==> id in st.items
    ensures r.Success? ==> r.value == st.items[id]
    ensures r.Failure? ==> r.error == ItemNotFound
  {
    if id in st.items then Success(st.items[id]) else Failure(ItemNotFound)
  }

  /** A listing just created is found under the id the creation returned, with the
      fields it was created from, and every other lookup answers as before. */
  lemma GetCreatedItem(st: Store, d: ItemData, uploader: UserId, other: ItemId)
    requires CreateItem(st, d, uploader).result.Success?
    requires other != st.nextId
    ensures var r := CreateItem(st, d, uploader);
      && GetItemById(r.store, r.result.value).Success?
      && NewListing(GetItemById(r.store, r.result.value).value, d, uploader)
      && GetItemById(r.store, other) == GetItemById(st, other)
  {
  }

  /** `getUserItems`: the user's own listings of every status, newest first. */
  function GetUserItems(st: Store, user: UserId): (r: seq<ItemId>)
    ensures forall i, j | 0 <= i < j < |r| :: r[i] > r[j]
    ensures forall id | id in r :: id in st.items && st.items[id].uploader == user
    ensures st.Valid() ==> forall id | id in st.items && st.items[id].uploader == user :: id in r
  {
    NewestFirst(st.items, (it: Item) => it.uploader == user, st.nextId)
  }

  /* ------------------------------------------------------------- moderation */

  predicate IsAdmin(st: Store, actor: UserId) {
    actor in st.users && st.users[actor].role == Admin
  }

  /** `approveItem`: only an admin may approve; approval sets the flag and nothing else,
      whatever the item's status. */
  function ApproveItem(st: Store, id: ItemId, actor: UserId): (r: Transition<Item>)
    ensures !IsAdmin(st, actor) ==> r == Transition(st, Failure(Unauthorized))
    ensures IsAdmin(st, actor) && id !in st.items ==> r == Transition(st, Failure(ItemNotFound))
    ensures r.result.Success? <==> IsAdmin(st, actor) && id in st.items
    ensures r.result.Success? ==>
      && r.result.value == st.items[id].(approved := true)
      && r.result.value.status == st.items[id].status
      && r.store == st.(items := st.items[id := r.result.value])
    ensures st.Valid() ==> r.store.Valid()
  {
    if !IsAdmin(st, actor) then Transition(st, Failure(Unauthorized))
    else if id !in st.items then Transition(st, Failure(ItemNotFound))
    else
      var it := st.items[id].(approved := true);
      Transition(st.(items := st.items[id := it]), Success(it))
  }

  /** `rejectItem`: only an admin may reject; rejection marks the item `removed`
      whatever its status, and reports success even for an unknown id. */
  function RejectItem(st: Store, id: ItemId, actor: UserId): (r: Transition<()>)
    ensures !IsAdmin(st, actor) ==> r == Transition(st, Failure(Unauthorized))
    ensures r.result.Success? <==> IsAdmin(st, actor)
    ensures r.result.Success? ==> r.store == st.(items := SetStatus(st.items, id, Removed))
    ensures r.result.Success? && id in st.items ==> r.store.items[id].status == Removed
    ensures st.Valid() ==> r.store.Valid()
  {
    if !IsAdmin(st, actor) then Transition(st, Failure(Unauthorized))
    else Transition(st.(items := SetStatus(st.items, id, Removed)), Success(()))
  }
}
