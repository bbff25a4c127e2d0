/** The listings page: the filter form state, its edits, the availability
    pre-filter applied when the catalog arrives, and the query that turns the
    held properties and the form into the displayed list. */
module PropertiesPage {
  import opened Seqs
  import opened Text
  import opened Catalog
  import opened Sorting

  /** The filter form, every field the text of a form control. */
  datatype Filters = Filters(
    location: string,
    minPrice: string,
    maxPrice: string,
    bedrooms: string,
    sortBy: string)

  /** The form when the page opens: the location is the `location` URL query
      parameter, or empty when that is absent (`|| ''`); the list is sorted by
      ascending price. */
  function InitialFilters(locationParam: Option<string>): Filters {
    var location := match locationParam case Some(v) => v case None => "";
    Filters(location, "", "", "", "price-asc")
  }

  /** The names of the form fields. */
  const FilterKeys: set<string> := {"location", "minPrice", "maxPrice", "bedrooms", "sortBy"}

  /** `filters[key]`, `None` for a name that is not a form field. */
  function Field(f: Filters, key: string): Option<string> {
    if key == "location" then Some(f.location)
    else if key == "minPrice" then Some(f.minPrice)
    else if key == "maxPrice" then Some(f.maxPrice)
    else if key == "bedrooms" then Some(f.bedrooms)
    else if key == "sortBy" then Some(f.sortBy)
    else None
  }

  /** `handleFilterChange(key, value)`: the state setter's update
      `prev => ({ ...prev, [key]: value })`. Field `key` takes `value` and every
      other field keeps its value. A name that is not a form field would only
      add a property that nothing reads, so the form is unchanged. */
  function HandleFilterChange(prev: Filters, key: string, value: string): (r: Filters)
    ensures key in FilterKeys ==> Field(r, key) == Some(value)
    ensures forall k :: k != key ==> Field(r, k) == Field(prev, k)
    ensures key !in FilterKeys ==> r == prev
  {
    match key
    case "location" => prev.(location := value)
    case "minPrice" => prev.(minPrice := value)
    case "maxPrice" => prev.(maxPrice := value)
    case "bedrooms" => prev.(bedrooms := value)
    case "sortBy" => prev.(sortBy := value)
    case _ => prev
  }

  /** `clearFilters()`: the opening form with the location emptied as well;
      that is, the form the page opens with when the URL has no location. */
  function ClearFilters(): (r: Filters)
    ensures forall param :: r == InitialFilters(param).(location := "")
    ensures r == InitialFilters(None)
  {
    Filters("", "", "", "", "price-asc")
  }

  /** The pre-filter applied when the catalog document arrives: the page holds
      only the available properties, in catalog order. */
  function AvailableOnly(data: seq<Property>): (r: seq<Property>)
    ensures forall p :: p in r ==> p.available
    ensures forall p :: p in data && p.available ==> p in r
    ensures forall p :: multiset(r)[p] == if p.available then multiset(data)[p] else 0
    ensures IsSubseq(r, data)
  {
    var r := Filter(data, (p: Property) => p.available);
    FilterIsSubseq(data, (p: Property) => p.available);
    forall p
      ensures multiset(r)[p] == if p.available then multiset(data)[p] else 0
    {
      FilterMultiplicity(data, (q: Property) => q.available, p);
    }
    forall p | p in data && p.available
      ensures p in r
    {
      FilterKeeps(data, (q: Property) => q.available, p);
    }
    r
  }

  /** `location.toLowerCase().includes(text.toLowerCase())`. */
  predicate LocationMatches(p: Property, text: string) {
    Includes(Lower(p.location), Lower(text))
  }

  /** `n >= parseInt(text)`; a comparison with NaN is false. */
  predicate AtLeast(n: int, bound: Option<int>) {
    bound.Some? && n >= bound.value
  }

  /** `n <= parseInt(text)`; a comparison with NaN is false. */
  predicate AtMost(n: int, bound: Option<int>) {
    bound.Some? && n <= bound.value
  }

  /** `n === parseInt(text)`; NaN equals nothing. */
  predicate SameNumber(n: int, v: Option<int>) {
    v.Some? && n == v.value
  }

  // Each filter is guarded by the truthiness of its form field: an empty
  // string skips it, any other text (`"0"` included) applies it.

  predicate LocationOk(f: Filters, p: Property) {
    f.location == "" || LocationMatches(p, f.location)
  }

  predicate MinPriceOk(f: Filters, p: Property) {
    f.minPrice == "" || AtLeast(p.price, ParseInt(f.minPrice))
  }

  predicate MaxPriceOk(f: Filters, p: Property) {
    f.maxPrice == "" || AtMost(p.price, ParseInt(f.maxPrice))
  }

  predicate BedroomsOk(f: Filters, p: Property) {
    f.bedrooms == "" || SameNumber(p.bedrooms, ParseInt(f.bedrooms))
  }

  /** `p` passes every active filter of `f`. */
  predicate Matches(f: Filters, p: Property) {
    LocationOk(f, p) && MinPriceOk(f, p) && MaxPriceOk(f, p) && BedroomsOk(f, p)
  }

  /** The cases of the sort switch; any other text has no case and no default. */
  function SortOrder(sortBy: string): Option<Order> {
    match sortBy
    case "price-asc" => Some(PriceAsc)
    case "price-desc" => Some(PriceDesc)
    case "size-asc" => Some(SizeAsc)
    case "size-desc" => Some(SizeDesc)
    case "name" => Some(ByName)
    case _ => None
  }

  /** The displayed list, stated as a whole: the properties passing every active
      filter, in their own order, then stably sorted when the key is known. */
  function Query(properties: seq<Property>, f: Filters): seq<Property> {
    var passing := Filter(properties, (p: Property) => Matches(f, p));
    match SortOrder(f.sortBy)
    case None => passing
    case Some(o) => InsertionSort(o, passing)
  }

  /** `applyFilters()`: a copy of the held list is narrowed by each active
      filter in turn, sorted in place by the chosen key, and becomes the
      displayed list. */
  method ApplyFilters(properties: seq<Property>, filters: Filters) returns (filtered: seq<Property>)
    ensures filtered == Query(properties, filters)
  {
    filtered := properties;
    FilterAll(properties, (p: Property) => true);

    ghost var before := filtered;
    if filters.location != "" {
      filtered := Filter(filtered, (p: Property) => LocationMatches(p, filters.location));
    }
    FilterGuarded(properties, before, (p: Property) => true, (p: Property) => LocationMatches(p, filters.location),
                  (p: Property) => LocationOk(filters, p), filters.location != "", filtered);

    before := filtered;
    if filters.minPrice != "" {
      filtered := Filter(filtered, (p: Property) => AtLeast(p.price, ParseInt(filters.minPrice)));
    }
    FilterGuarded(properties, before, (p: Property) => LocationOk(filters, p),
                  (p: Property) => AtLeast(p.price, ParseInt(filters.minPrice)),
                  (p: Property) => LocationOk(filters, p) && MinPriceOk(filters, p),
                  filters.minPrice != "", filtered);

    before := filtered;
    if filters.maxPrice != "" {
      filtered := Filter(filtered, (p: Property) => AtMost(p.price, ParseInt(filters.maxPrice)));
    }
    FilterGuarded(properties, before, (p: Property) => LocationOk(filters, p) && MinPriceOk(filters, p),
                  (p: Property) => AtMost(p.price, ParseInt(filters.maxPrice)),
                  (p: Property) => LocationOk(filters, p) && MinPriceOk(filters, p) && MaxPriceOk(filters, p),
                  filters.maxPrice != "", filtered);

    before := filtered;
    if filters.bedrooms != "" {
      filtered := Filter(filtered, (p: Property) => SameNumber(p.bedrooms, ParseInt(filters.bedrooms)));
    }
    FilterGuarded(properties, before,
                  (p: Property) => LocationOk(filters, p) && MinPriceOk(filters, p) && MaxPriceOk(filters, p),
                  (p: Property) => SameNumber(p.bedrooms, ParseInt(filters.bedrooms)),
                  (p: Property) => Matches(filters, p),
                  filters.bedrooms != "", filtered);

    match SortOrder(filters.sortBy) {
      case Some(o) =>
        filtered := SortCopy(filtered, o);
      case None =>
    }
  }

  /** `filtered.sort(...)` on the page's copy: the records go into an array,
      which is sorted in place and read back. */
  method SortCopy(s: seq<Property>, o: Order) returns (r: seq<Property>)
    ensures r == InsertionSort(o, s)
  {
    var a := new Property[|s|](k requires 0 <= k < |s| => s[k]);
    assert forall k :: 0 <= k < |s| ==> a[k] == s[k];
    assert a[..] == s;
    SortInPlace(a, o);
    r := a[..];
  }

  // ---------------------------------------------------------------------
  // What the displayed list is

  /** A record is displayed exactly when it is held and passes every active
      filter; each is displayed as often as it is held. */
  lemma QueryMembers(properties: seq<Property>, f: Filters, p: Property)
    ensures multiset(Query(properties, f))[p] == if Matches(f, p) then multiset(properties)[p] else 0
    ensures p in Query(properties, f) <==> p in properties && Matches(f, p)
  {
    var passing := Filter(properties, (q: Property) => Matches(f, q));
    FilterMultiplicity(properties, (q: Property) => Matches(f, q), p);
    match SortOrder(f.sortBy) {
      case Some(o) => InsertionSortPermutes(o, passing);
      case None =>
    }
  }

  /** The list is never longer than the held list. */
  lemma QueryLength(properties: seq<Property>, f: Filters)
    ensures |Query(properties, f)| <= |properties|
  {
  }

  /** The page holds only available properties, so every displayed one is
      available, whatever the filters. */
  lemma QueryAvailable(data: seq<Property>, f: Filters, p: Property)
    requires p in Query(AvailableOnly(data), f)
    ensures p.available && p in data
  {
    QueryMembers(AvailableOnly(data), f, p);
    FilterMultiplicity(data, (q: Property) => q.available, p);
  }

  /** With a known key the list is sorted by it, and records with equal keys
      keep the order in which they passed the filters. */
  lemma QuerySortedStably(properties: seq<Property>, f: Filters, o: Order)
    requires SortOrder(f.sortBy) == Some(o)
    ensures Sorted(o, Query(properties, f))
    ensures forall q :: KeyClass(o, Query(properties, f), q) ==
                        KeyClass(o, Filter(properties, (p: Property) => Matches(f, p)), q)
  {
    var passing := Filter(properties, (p: Property) => Matches(f, p));
    InsertionSortSorted(o, passing);
    forall q
      ensures KeyClass(o, Query(properties, f), q) == KeyClass(o, passing, q)
    {
      InsertionSortStable(o, passing, q);
    }
  }

  /** With an unknown key nothing is sorted: the passing records stay in the
      order the page holds them. */
  lemma QueryUnknownKeyKeepsOrder(properties: seq<Property>, f: Filters)
    requires SortOrder(f.sortBy).None?
    ensures Query(properties, f) == Filter(properties, (p: Property) => Matches(f, p))
    ensures IsSubseq(Query(properties, f), properties)
  {
    FilterIsSubseq(properties, (p: Property) => Matches(f, p));
  }

  /** Empty filter fields filter nothing: every held property is listed. */
  lemma EmptyFieldsKeepAll(properties: seq<Property>, f: Filters)
    requires f.location == "" && f.minPrice == "" && f.maxPrice == "" && f.bedrooms == ""
    ensures Filter(properties, (p: Property) => Matches(f, p)) == properties
    ensures multiset(Query(properties, f)) == multiset(properties)
  {
    FilterAll(properties, (p: Property) => Matches(f, p));
    if o :| SortOrder(f.sortBy) == Some(o) {
      InsertionSortPermutes(o, properties);
    }
  }

  /** After "Clear All" the list is every held property, by ascending price. */
  lemma ClearedQuery(properties: seq<Property>)
    ensures Query(properties, ClearFilters()) == InsertionSort(PriceAsc, properties)
  {
    FilterAll(properties, (p: Property) => Matches(ClearFilters(), p));
  }

  /** The location filter compares case-insensitively: it holds when the
      lowered filter text occurs somewhere in the lowered location, and lowering
      the filter text first changes nothing. */
  lemma LocationFilterMeaning(p: Property, text: string)
    ensures LocationMatches(p, text) <==> exists i :: OccursAt(Lower(p.location), Lower(text), i)
    ensures LocationMatches(p, Lower(text)) == LocationMatches(p, text)
  {
    IncludesIff(Lower(p.location), Lower(text));
    LowerIdempotent(text);
  }

  /** A number typed into a price or bedroom field is read back by `parseInt`,
      so the bounds and the bedroom count mean what they say; `"0"` is a
      filter that applies like any other. */
  lemma NumericFieldsMeaning(f: Filters, p: Property, min: nat, max: nat, beds: nat)
    ensures f.minPrice == Decimal(min) ==> (MinPriceOk(f, p) <==> p.price >= min)
    ensures f.maxPrice == Decimal(max) ==> (MaxPriceOk(f, p) <==> p.price <= max)
    ensures f.bedrooms == Decimal(beds) ==> (BedroomsOk(f, p) <==> p.bedrooms == beds)
  {
    ParseIntDecimal(min);
    ParseIntDecimal(max);
    ParseIntDecimal(beds);
  }

  /** The "3+ Bedrooms" option has the value `"3"` and the filter is exact:
      it lists properties with exactly three bedrooms, not four. */
  lemma ThreePlusMeansExactlyThree(properties: seq<Property>, f: Filters, p: Property)
    requires f.bedrooms == "3"
    ensures p in Query(properties, f) ==> p.bedrooms == 3
    ensures p.bedrooms == 4 ==> p !in Query(properties, f)
  {
    ParseIntThree();
    QueryMembers(properties, f, p);
  }

  lemma ParseIntThree()
    ensures ParseInt("3") == Some(3)
  {
    ParseIntDecimal(3);
    assert Decimal(3) == "3";
  }

  /** A bound that `parseInt` reads as NaN fails every comparison, so the list
      is empty rather than unfiltered. */
  lemma UnreadableBoundEmptiesList(properties: seq<Property>, f: Filters)
    requires (f.minPrice != "" && ParseInt(f.minPrice).None?) ||
             (f.maxPrice != "" && ParseInt(f.maxPrice).None?) ||
             (f.bedrooms != "" && ParseInt(f.bedrooms).None?)
    ensures Query(properties, f) == []
  {
    if Query(properties, f) != [] {
      var p := Query(properties, f)[0];
      QueryMembers(properties, f, p);
    }
  }

  /** The direction of each key: ascending keys never decrease along the list,
      descending keys never increase, and names are in lexicographic order. */
  lemma QueryOrderByKey(properties: seq<Property>, f: Filters, i: nat, j: nat)
    requires i < j < |Query(properties, f)|
    ensures var r := Query(properties, f);
            (f.sortBy == "price-asc" ==> r[i].price <= r[j].price) &&
            (f.sortBy == "price-desc" ==> r[i].price >= r[j].price) &&
            (f.sortBy == "size-asc" ==> r[i].size <= r[j].size) &&
            (f.sortBy == "size-desc" ==> r[i].size >= r[j].size) &&
            (f.sortBy == "name" ==> StrLe(r[i].name, r[j].name))
  {
    var r := Query(properties, f);
    match SortOrder(f.sortBy) {
      case None =>
      case Some(o) =>
        QuerySortedStably(properties, f, o);
        assert Before(o, r[i], r[j]);
    }
  }

  // ---------------------------------------------------------------------
  // A three-record catalog

  const A := Property("a", "Asoke Loft", "Asoke", 35000, 45, 2, true, false, "a.jpg", [])
  const B := Property("b", "Ekkamai House", "Ekkamai", 45000, 80, 2, true, false, "b.jpg", [])
  const C := Property("c", "Ari Studio", "Ari", 30000, 30, 1, false, false, "c.jpg", [])

  /** The page holds the two available records, in catalog order. */
  lemma ExampleHeld()
    ensures AvailableOnly([A, B, C]) == [A, B]
  {
    var avail := (p: Property) => p.available;
    assert [A, B, C] == [A, B] + [C] && [A, B] == [A] + [B] && [A] == [] + [A];
    FilterSnoc([], A, avail);
    FilterSnoc([A], B, avail);
    FilterSnoc([A, B], C, avail);
  }

  /** The two held records stay in price order when sorted by ascending price. */
  lemma ExampleSortedPair()
    ensures InsertionSort(PriceAsc, [A, B]) == [A, B]
  {
    assert [A, B][..1] == [A] && [A][..0] == [];
    assert InsertionSort(PriceAsc, [A]) == [A];
  }

  lemma ExampleTwoBedroomsCases(f: Filters)
    requires f == Filters("", "", "", "2", "price-asc")
    ensures Matches(f, A) && Matches(f, B)
  {
    ParseIntTwo();
  }

  /** Two-bedroom homes by ascending price: the unavailable one is never held. */
  lemma ExampleTwoBedrooms()
    ensures Query(AvailableOnly([A, B, C]), Filters("", "", "", "2", "price-asc")) == [A, B]
  {
    var f := Filters("", "", "", "2", "price-asc");
    ExampleTwoBedroomsCases(f);
    calc {
      Query(AvailableOnly([A, B, C]), f);
      { ExampleHeld(); }
      Query([A, B], f);
      InsertionSort(PriceAsc, Filter([A, B], (p: Property) => Matches(f, p)));
      { FilterPair(A, B, (p: Property) => Matches(f, p)); }
      InsertionSort(PriceAsc, [A, B]);
      { ExampleSortedPair(); }
      [A, B];
    }
  }

  lemma ParseIntTwo()
    ensures ParseInt("2") == Some(2)
  {
    ParseIntDecimal(2);
    assert Decimal(2) == "2";
  }

  lemma ExampleFortyThousand()
    ensures ParseInt("40000") == Some(40000)
  {
    ParseIntDecimal(40000);
    assert Decimal(4) == "4";
    DecimalSnoc(4, 0);
    assert Decimal(40) == "40";
    DecimalSnoc(40, 0);
    assert Decimal(400) == "400";
    DecimalSnoc(400, 0);
    assert Decimal(4000) == "4000";
    DecimalSnoc(4000, 0);
    assert Decimal(40000) == "40000";
  }

  /** How a filter treats a two-record list. */
  lemma FilterPair(x: Property, y: Property, p: Property -> bool)
    ensures Filter([x, y], p) == (if p(x) then [x] else []) + (if p(y) then [y] else [])
  {
    assert [x, y] == [x] + [y] && [x] == [] + [x];
    FilterSnoc([], x, p);
    FilterSnoc([x], y, p);
  }

  lemma ExampleMinimumPriceCases(f: Filters)
    requires f == Filters("", "40000", "", "", "price-asc")
    ensures !Matches(f, A) && Matches(f, B)
  {
    ExampleFortyThousand();
  }

  /** A minimum price keeps only the dearer home. */
  lemma ExampleMinimumPrice()
    ensures Query(AvailableOnly([A, B, C]), Filters("", "40000", "", "", "price-asc")) == [B]
  {
    var f := Filters("", "40000", "", "", "price-asc");
    ExampleMinimumPriceCases(f);
    calc {
      Query(AvailableOnly([A, B, C]), f);
      { ExampleHeld(); }
      Query([A, B], f);
      InsertionSort(PriceAsc, Filter([A, B], (p: Property) => Matches(f, p)));
      { FilterPair(A, B, (p: Property) => Matches(f, p)); }
      InsertionSort(PriceAsc, [B]);
      { assert [B][..0] == []; }
      [B];
    }
  }

  lemma ExampleNoDistrictCases(f: Filters)
    requires f == Filters("sukhumvit", "", "", "", "price-asc")
    ensures !Matches(f, A) && !Matches(f, B)
  {
    IncludesLonger(Lower(A.location), Lower(f.location));
    IncludesLonger(Lower(B.location), Lower(f.location));
  }

  /** A district that nothing is in gives the empty list, not an error. */
  lemma ExampleNoDistrictMatch()
    ensures Query(AvailableOnly([A, B, C]), Filters("sukhumvit", "", "", "", "price-asc")) == []
  {
    var f := Filters("sukhumvit", "", "", "", "price-asc");
    ExampleNoDistrictCases(f);
    calc {
      Query(AvailableOnly([A, B, C]), f);
      { ExampleHeld(); }
      Query([A, B], f);
      InsertionSort(PriceAsc, Filter([A, B], (p: Property) => Matches(f, p)));
      { FilterPair(A, B, (p: Property) => Matches(f, p)); }
      InsertionSort(PriceAsc, []);
      [];
    }
  }
}
