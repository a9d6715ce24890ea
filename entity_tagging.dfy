/**
 * Calais.extract_entities: the entity items of an OpenCalais JSON answer are
 * sorted into one bucket of names per supported entity category, by their
 * OpenCalais "_type". The JSON answer is given as the sequence of its item
 * dictionaries; the keys of the outer dictionary play no part.
 */
module EntityTagging {
  import opened Wrappers

  /** One item of the JSON answer: its string-valued fields. */
  type Item = map<string, string>

  const Person: string := "Person"
  const Organisation: string := "Organisation"
  const Location: string := "Location"
  const Url: string := "URL"
  const EmailAddress: string := "EmailAddress"
  const Facility: string := "Facility"
  const PhoneNumber: string := "PhoneNumber"
  const Position: string := "Position"
  const Product: string := "Product"
  const Technology: string := "Technology"
  const IndustryTerm: string := "IndustryTerm"

  /** SUPPORTED_ENTITIES */
  const SupportedEntities: set<string> :=
    {Person, Organisation, Location, Url, EmailAddress, Facility, PhoneNumber, Position, Product, Technology, IndustryTerm}

  /** The categories in the order extract_entities tests them. */
  const CheckOrder: seq<string> :=
    [Location, Organisation, Person, Url, EmailAddress, Facility, PhoneNumber, Position, Product, Technology, IndustryTerm]

  /** The OpenCalais types that fall into a category; none for anything else. */
  function TypesOf(category: string): set<string> {
    if category == Location then {"City", "Country", "ProvinceOrState", "Region", "Continent", "NaturalFeature"}
    else if category == Organisation then {"Company", "Organization"}
    else if category == Person then {"Person", "Journalist"}
    else if category == Url then {"URL"}
    else if category == EmailAddress then {"EmailAddress"}
    else if category == Facility then {"Facility"}
    else if category == PhoneNumber then {"PhoneNumber", "FaxNumber"}
    else if category == Position then {"Position"}
    else if category == Product then {"Product"}
    else if category == Technology then {"Technology"}
    else if category == IndustryTerm then {"IndustryTerm"}
    else {}
  }

  /** The tests cover each supported category once and nothing else. */
  lemma CheckOrderCategories()
    ensures |CheckOrder| == |SupportedEntities| == 11
    ensures forall c :: c in CheckOrder <==> c in SupportedEntities
  {
  }

  /** No OpenCalais type belongs to two categories, so an item lands in at most one bucket. */
  lemma TypesDisjoint(t: string, c1: string, c2: string)
    requires c1 in SupportedEntities && c2 in SupportedEntities
    requires t in TypesOf(c1) && t in TypesOf(c2)
    ensures c1 == c2
  {
    TypesCategory(c1, t);
    TypesCategory(c2, t);
  }

  /** The category an OpenCalais type falls into, if any. */
  function CategoryOf(t: string): Option<string> {
    if t in TypesOf(Location) then Some(Location)
    else if t in TypesOf(Organisation) then Some(Organisation)
    else if t in TypesOf(Person) then Some(Person)
    else if t in TypesOf(Url) then Some(Url)
    else if t in TypesOf(EmailAddress) then Some(EmailAddress)
    else if t in TypesOf(Facility) then Some(Facility)
    else if t in TypesOf(PhoneNumber) then Some(PhoneNumber)
    else if t in TypesOf(Position) then Some(Position)
    else if t in TypesOf(Product) then Some(Product)
    else if t in TypesOf(Technology) then Some(Technology)
    else if t in TypesOf(IndustryTerm) then Some(IndustryTerm)
    else None
  }

  /** Every type of a supported category is looked up as that category. */
  lemma TypesCategory(c: string, t: string)
    requires c in SupportedEntities && t in TypesOf(c)
    ensures CategoryOf(t) == Some(c)
  {
  }

  /** entity_dist before any item: every supported category with no names. */
  function EmptyBuckets(): (r: map<string, set<string>>)
    ensures r.Keys == SupportedEntities
    ensures forall c :: c in r ==> r[c] == {}
  {
    map[Location := {}, Organisation := {}, Person := {}, Url := {}, EmailAddress := {}, Facility := {},
        PhoneNumber := {}, Position := {}, Product := {}, Technology := {}, IndustryTerm := {}]
  }

  /** "_typeGroup" in items and items['_typeGroup'] == 'entities' */
  predicate IsEntity(item: Item) {
    "_typeGroup" in item && item["_typeGroup"] == "entities"
  }

  /** The type of an entity item is one some category collects. */
  predicate KnownType(t: string) {
    exists c :: c in SupportedEntities && t in TypesOf(c)
  }

  /** An entity item without "_type", or of a collected type without "name", raises KeyError. */
  predicate Raises(item: Item) {
    IsEntity(item) && ("_type" !in item || (KnownType(item["_type"]) && "name" !in item))
  }

  /** The item puts its non-empty name into the category's bucket. */
  predicate Contributes(item: Item, category: string, name: string) {
    && IsEntity(item) && "_type" in item && item["_type"] in TypesOf(category)
    && "name" in item && item["name"] == name && name != ""
  }

  /** Some item of the sequence contributes the name to the category. */
  predicate ContributedBy(items: seq<Item>, category: string, name: string) {
    exists k :: 0 <= k < |items| && Contributes(items[k], category, name)
  }

  /** One test "if items['_type'] in <types> and items['name']: entity_dist[category].add(items['name'])". */
  function AddIfOfType(dist: map<string, set<string>>, item: Item, t: string, category: string): (r: Result<map<string, set<string>>>)
    requires category in dist
  {
    if t !in TypesOf(category) then Success(dist)
    else if "name" !in item then Failure(KeyError)
    else if item["name"] == "" then Success(dist)
    else Success(dist[category := dist[category] + {item["name"]}])
  }

  /** The tests of extract_entities for one item of type t, in order, stopping at the first error. */
  function AddAll(dist: map<string, set<string>>, item: Item, t: string, cats: seq<string>): (r: Result<map<string, set<string>>>)
    requires forall c :: c in cats ==> c in dist
  {
    if cats == [] then Success(dist)
    else
      match AddIfOfType(dist, item, t, cats[0])
      case Failure(e) => Failure(e)
      case Success(next) => AddAll(next, item, t, cats[1..])
  }

  /**
   * The tests fail exactly when some tested category collects the type and
   * the item has no name; otherwise every bucket gains the item's non-empty
   * name exactly when the category is tested and collects the type.
   */
  lemma {:induction false} AddAllEffect(dist: map<string, set<string>>, item: Item, t: string, cats: seq<string>)
    requires forall c :: c in cats ==> c in dist
    ensures AddAll(dist, item, t, cats).Failure? <==> (exists c :: c in cats && t in TypesOf(c)) && "name" !in item
    ensures AddAll(dist, item, t, cats).Failure? ==> AddAll(dist, item, t, cats).error == KeyError
    ensures AddAll(dist, item, t, cats).Success? ==>
              && AddAll(dist, item, t, cats).value.Keys == dist.Keys
              && forall c, name :: c in dist ==>
                   (name in AddAll(dist, item, t, cats).value[c] <==>
                    name in dist[c] || (c in cats && t in TypesOf(c) && "name" in item && item["name"] == name && name != ""))
  {
    if cats != [] {
      var step := AddIfOfType(dist, item, t, cats[0]);
      if step.Success? {
        assert forall c :: c in cats[1..] ==> c in step.value;
        AddAllEffect(step.value, item, t, cats[1..]);
        assert forall c :: c in cats <==> c == cats[0] || c in cats[1..];
      }
    }
  }

  /** The loop body for one item: skipped unless an entity, KeyError without "_type". */
  function ItemStep(dist: map<string, set<string>>, item: Item): (r: Result<map<string, set<string>>>)
    requires dist.Keys == SupportedEntities
  {
    if !IsEntity(item) then Success(dist)
    else if "_type" !in item then Failure(KeyError)
    else AddAll(dist, item, item["_type"], CheckOrder)
  }

  /** One item either raises, or adds its name to the buckets it contributes to and nothing else. */
  lemma ItemStepEffect(dist: map<string, set<string>>, item: Item)
    requires dist.Keys == SupportedEntities
    ensures ItemStep(dist, item).Failure? <==> Raises(item)
    ensures ItemStep(dist, item).Failure? ==> ItemStep(dist, item).error == KeyError
    ensures ItemStep(dist, item).Success? ==>
              && ItemStep(dist, item).value.Keys == SupportedEntities
              && forall c, name :: c in SupportedEntities ==>
                   (name in ItemStep(dist, item).value[c] <==> name in dist[c] || Contributes(item, c, name))
  {
    CheckOrderCategories();
    if IsEntity(item) && "_type" in item {
      AddAllEffect(dist, item, item["_type"], CheckOrder);
    }
  }

  /**
   * extract_entities: the buckets of every supported category. It raises
   * KeyError exactly when some item does; otherwise a name is in a
   * category's bucket exactly when some entity item of a type the category
   * collects carries that non-empty name.
   */
  method ExtractEntities(jsonResult: seq<Item>) returns (r: Result<map<string, set<string>>>)
    ensures r.Failure? <==> exists k :: 0 <= k < |jsonResult| && Raises(jsonResult[k])
    ensures r.Failure? ==> r.error == KeyError
    ensures r.Success? ==> r.value.Keys == SupportedEntities
    ensures r.Success? ==> forall c, name :: c in SupportedEntities ==>
              (name in r.value[c] <==> ContributedBy(jsonResult, c, name))
  {
    var entityDist := EmptyBuckets();
    var i := 0;
    while i < |jsonResult|
      invariant i <= |jsonResult|
      invariant entityDist.Keys == SupportedEntities
      invariant forall k :: 0 <= k < i ==> !Raises(jsonResult[k])
      invariant forall c, name :: c in SupportedEntities ==>
                  (name in entityDist[c] <==> ContributedBy(jsonResult[..i], c, name))
    {
      var items := jsonResult[i];
      ItemStepEffect(entityDist, items);
      var next := ItemStep(entityDist, items);
      if next.Failure? {
        return Failure(next.error);
      }
      forall c, name | c in SupportedEntities
        ensures name in next.value[c] <==> ContributedBy(jsonResult[..i + 1], c, name)
      {
        ContributedSnoc(jsonResult, i, c, name);
      }
      entityDist := next.value;
      i := i + 1;
    }
    assert jsonResult[..i] == jsonResult;
    return Success(entityDist);
  }

  /** The contributions of one more item are the earlier ones and its own. */
  lemma ContributedSnoc(items: seq<Item>, i: nat, c: string, name: string)
    requires i < |items|
    ensures ContributedBy(items[..i + 1], c, name) <==> ContributedBy(items[..i], c, name) || Contributes(items[i], c, name)
  {
    var longer := items[..i + 1];
    if ContributedBy(items[..i], c, name) {
      var k :| 0 <= k < i && Contributes(items[..i][k], c, name);
      assert longer[k] == items[..i][k];
    }
    if Contributes(items[i], c, name) {
      assert longer[i] == items[i];
    }
    if ContributedBy(longer, c, name) {
      var k :| 0 <= k < i + 1 && Contributes(longer[k], c, name);
      if k < i {
        assert items[..i][k] == longer[k];
      }
    }
  }

  /** A falsy (empty) answer gives every supported category an empty bucket. */
  lemma ExtractEmpty()
    ensures EmptyBuckets().Keys == SupportedEntities
    ensures forall c, name :: c in SupportedEntities ==> !ContributedBy([], c, name)
  {
  }

  /** Every collected name is the name field of some input item. */
  lemma ContributedName(items: seq<Item>, c: string, name: string)
    requires ContributedBy(items, c, name)
    ensures exists k :: 0 <= k < |items| && "name" in items[k] && items[k]["name"] == name
  {
    var k :| 0 <= k < |items| && Contributes(items[k], c, name);
  }

  /** An item contributes its name to at most one category. */
  lemma ContributesOnce(item: Item, c1: string, c2: string, name: string)
    requires c1 in SupportedEntities && c2 in SupportedEntities
    requires Contributes(item, c1, name) && Contributes(item, c2, name)
    ensures c1 == c2
  {
    TypesDisjoint(item["_type"], c1, c2);
  }
}
