/** The home page: the featured selection, the service-area cards with their
    listing counts, and the search box that opens the listings page. */
module HomePage {
  import opened Seqs
  import opened Text
  import opened Catalog
  import opened PropertiesPage

  // ---------------------------------------------------------------------
  // Featured properties

  predicate IsFeatured(p: Property) {
    p.featured && p.available
  }

  /** `featuredProperties`: the featured, available records in catalog order. */
  function FeaturedProperties(properties: seq<Property>): (r: seq<Property>)
    ensures forall p :: p in r ==> IsFeatured(p) && p in properties
    ensures forall p :: p in properties && IsFeatured(p) ==> p in r
    ensures forall p :: multiset(r)[p] == if IsFeatured(p) then multiset(properties)[p] else 0
    ensures IsSubseq(r, properties)
  {
    var r := Filter(properties, IsFeatured);
    FilterIsSubseq(properties, IsFeatured);
    forall p
      ensures multiset(r)[p] == if IsFeatured(p) then multiset(properties)[p] else 0
    {
      FilterMultiplicity(properties, IsFeatured, p);
    }
    forall p | p in properties && IsFeatured(p)
      ensures p in r
    {
      FilterKeeps(properties, IsFeatured, p);
    }
    r
  }

  /** How many featured cards the page shows at most. */
  const ShownLimit: nat := 6

  /** `featuredProperties.slice(0, 6)`: the cards shown, a prefix of the
      featured list that is the whole list when it is short enough. */
  function ShownFeatured(properties: seq<Property>): (r: seq<Property>)
    ensures |r| <= ShownLimit && |r| <= |FeaturedProperties(properties)|
    ensures r == FeaturedProperties(properties)[..|r|]
    ensures |FeaturedProperties(properties)| <= ShownLimit ==> r == FeaturedProperties(properties)
    ensures |FeaturedProperties(properties)| >= ShownLimit ==> |r| == ShownLimit
    ensures forall p :: p in r ==> IsFeatured(p)
    ensures IsSubseq(r, properties)
  {
    var featured := FeaturedProperties(properties);
    var r := Take(featured, ShownLimit);
    PrefixIsSubseq(featured, |r|);
    IsSubseqTrans(r, featured, properties);
    r
  }

  // ---------------------------------------------------------------------
  // Service-area cards

  /** The four districts with a card, in card order. */
  const Areas: seq<string> := ["Sukhumvit", "Ekkamai", "Asoke", "Promphong"]

  /** The location field of every record, in catalog order. */
  function Locations(properties: seq<Property>): seq<string> {
    seq(|properties|, i requires 0 <= i < |properties| => properties[i].location)
  }

  /** `properties.filter(p => p.location === name).length`, over the whole
      catalog as loaded. */
  function AreaCount(properties: seq<Property>, name: string): nat {
    |Filter(properties, (p: Property) => p.location == name)|
  }

  /** The count is the number of records whose location is exactly `name`:
      no case folding, no substring match, and availability plays no part. */
  lemma {:induction false} AreaCountCounts(properties: seq<Property>, name: string)
    ensures AreaCount(properties, name) == multiset(Locations(properties))[name]
  {
    if properties != [] {
      var init, last := properties[..|properties| - 1], properties[|properties| - 1];
      assert properties == init + [last];
      AreaCountCounts(init, name);
      FilterSnoc(init, last, (p: Property) => p.location == name);
      assert Locations(properties) == Locations(init) + [last.location];
    }
  }

  /** The card for `name` links to the listings page with `name` as the
      location parameter. */
  function AreaLink(name: string): string {
    "/properties?location=" + name
  }

  /** The cards: each district with its count and its link. */
  function AreaCards(properties: seq<Property>): (r: seq<(string, nat, string)>)
    ensures |r| == |Areas|
    ensures forall i :: 0 <= i < |r| ==>
              r[i] == (Areas[i], multiset(Locations(properties))[Areas[i]], AreaLink(Areas[i]))
  {
    var r := seq(|Areas|, i requires 0 <= i < |Areas| =>
                 (Areas[i], AreaCount(properties, Areas[i]), AreaLink(Areas[i])));
    forall i | 0 <= i < |r|
      ensures r[i].1 == multiset(Locations(properties))[Areas[i]]
    {
      AreaCountCounts(properties, Areas[i]);
    }
    r
  }

  const Unlisted := Property("u", "Sukhumvit Suite", "Sukhumvit", 50000, 70, 2, false, false, "u.jpg", [])
  const Lowercase := Property("l", "Sukhumvit Flat", "sukhumvit", 40000, 50, 1, true, false, "l.jpg", [])

  lemma CardCountsUnlisted()
    ensures AreaCount([Unlisted, Lowercase], "Sukhumvit") == 1
  {
    AreaCountCounts([Unlisted, Lowercase], "Sukhumvit");
    assert Locations([Unlisted, Lowercase]) == ["Sukhumvit"] + ["sukhumvit"];
  }

  lemma ListingMatchesLowercase()
    ensures Matches(InitialFilters(Some("Sukhumvit")), Lowercase)
  {
    var f := InitialFilters(Some("Sukhumvit"));
    assert Lower(Lowercase.location) == Lower(f.location);
    assert StartsWith(Lower(Lowercase.location), Lower(f.location));
  }

  /** The count and the listing it links to can disagree. An unavailable
      Sukhumvit record is counted on the card but never listed. An available
      record spelled "sukhumvit" is listed by the case-insensitive location filter
      but not counted by the exact comparison. */
  lemma AreaCountDiffersFromListing()
    ensures AreaCount([Unlisted, Lowercase], "Sukhumvit") == 1
    ensures Unlisted !in Query(AvailableOnly([Unlisted, Lowercase]), InitialFilters(Some("Sukhumvit")))
    ensures Lowercase in Query(AvailableOnly([Unlisted, Lowercase]), InitialFilters(Some("Sukhumvit")))
  {
    var catalog := [Unlisted, Lowercase];
    var f := InitialFilters(Some("Sukhumvit"));
    CardCountsUnlisted();
    ListingMatchesLowercase();
    assert Lowercase in AvailableOnly(catalog);
    QueryMembers(AvailableOnly(catalog), f, Lowercase);
    if Unlisted in Query(AvailableOnly(catalog), f) {
      QueryAvailable(catalog, f, Unlisted);
    }
  }

  // ---------------------------------------------------------------------
  // Search box

  /** The entries of the two dropdowns. */
  const LocationOptions: seq<string> := ["All Areas", "Sukhumvit", "Ekkamai", "Asoke", "Promphong"]
  const PriceOptions: seq<string> :=
    ["Any Price", "30,000 - 40,000", "40,000 - 50,000", "50,000 - 60,000", "60,000+"]

  /** A location selection that narrows the search. */
  predicate LocationChosen(searchLocation: string) {
    searchLocation != "" && searchLocation != "All Areas"
  }

  /** A price selection that narrows the search. */
  predicate PriceChosen(priceRange: string) {
    priceRange != "" && priceRange != "Any Price"
  }

  /** A query pair worth sending. */
  predicate Wanted(pair: (string, string)) {
    (pair.0 == "location" && LocationChosen(pair.1)) || (pair.0 == "price" && PriceChosen(pair.1))
  }

  /** The query pairs of a search: of the location pair and the price pair,
      in that order, the ones whose selection narrows the search. */
  function SearchPairs(searchLocation: string, priceRange: string): seq<(string, string)> {
    Filter([("location", searchLocation), ("price", priceRange)], Wanted)
  }

  /** `URLSearchParams.toString()`, with the library's percent-encoding of
      names and values as the parameter `encode`. */
  function QueryString(params: seq<(string, string)>, encode: string -> string): string {
    if params == [] then ""
    else if |params| == 1 then encode(params[0].0) + "=" + encode(params[0].1)
    else encode(params[0].0) + "=" + encode(params[0].1) + "&" + QueryString(params[1..], encode)
  }

  /** `handleSearch()`: the location and price pairs are appended in turn when
      their selection narrows the search, and the page navigates to the
      listings URL carrying them. */
  method HandleSearch(searchLocation: string, priceRange: string, encode: string -> string)
    returns (params: seq<(string, string)>, href: string)
    ensures params == SearchPairs(searchLocation, priceRange)
    ensures href == "/properties?" + QueryString(params, encode)
  {
    params := [];
    if searchLocation != "" && searchLocation != "All Areas" {
      params := params + [("location", searchLocation)];
    }
    if priceRange != "" && priceRange != "Any Price" {
      params := params + [("price", priceRange)];
    }
    SearchPairsWritten(searchLocation, priceRange);
    href := "/properties?" + QueryString(params, encode);
  }

  /** The search pairs written out. */
  lemma SearchPairsWritten(searchLocation: string, priceRange: string)
    ensures SearchPairs(searchLocation, priceRange) ==
            (if LocationChosen(searchLocation) then [("location", searchLocation)] else []) +
            (if PriceChosen(priceRange) then [("price", priceRange)] else [])
  {
    var l, p := ("location", searchLocation), ("price", priceRange);
    assert [l, p] == [l] + [p] && [l] == [] + [l];
    FilterSnoc([], l, Wanted);
    FilterSnoc([l], p, Wanted);
  }

  /** A location pair is sent exactly when a district was picked, a price pair
      exactly when a range was picked, each carrying the selection, and no
      other pair is sent. */
  lemma SearchPairsMeaning(searchLocation: string, priceRange: string)
    ensures var r := SearchPairs(searchLocation, priceRange);
            (forall v :: ("location", v) in r <==> v == searchLocation && LocationChosen(searchLocation)) &&
            (forall v :: ("price", v) in r <==> v == priceRange && PriceChosen(priceRange)) &&
            (forall pair :: pair in r ==> pair.0 == "location" || pair.0 == "price")
  {
    SearchPairsCases(searchLocation, priceRange);
  }

  /** At most the two pairs are sent, and the location pair comes first. */
  lemma SearchPairsOrder(searchLocation: string, priceRange: string)
    ensures var r := SearchPairs(searchLocation, priceRange);
            |r| <= 2 &&
            (forall i, j :: 0 <= i < j < |r| ==> r[i].0 == "location" && r[j].0 == "price")
  {
    SearchPairsCases(searchLocation, priceRange);
  }

  /** The four cases of the two selections. */
  lemma SearchPairsCases(searchLocation: string, priceRange: string)
    ensures var r := SearchPairs(searchLocation, priceRange);
            var l, p := ("location", searchLocation), ("price", priceRange);
            (LocationChosen(searchLocation) && PriceChosen(priceRange) ==> r == [l, p]) &&
            (LocationChosen(searchLocation) && !PriceChosen(priceRange) ==> r == [l]) &&
            (!LocationChosen(searchLocation) && PriceChosen(priceRange) ==> r == [p]) &&
            (!LocationChosen(searchLocation) && !PriceChosen(priceRange) ==> r == [])
  {
    SearchPairsWritten(searchLocation, priceRange);
  }

  /** Leaving both dropdowns at an entry that does not narrow the search,
      such as their first, searches everything: the target is the bare
      listings URL, whatever the encoding. */
  lemma SearchAllIsBareUrl(searchLocation: string, priceRange: string, encode: string -> string)
    ensures !LocationChosen(searchLocation) && !PriceChosen(priceRange) <==>
            "/properties?" + QueryString(SearchPairs(searchLocation, priceRange), encode) == "/properties?"
  {
    var r := SearchPairs(searchLocation, priceRange);
    SearchPairsCases(searchLocation, priceRange);
    if r != [] {
      assert |QueryString(r, encode)| > 0;
      assert |"/properties?" + QueryString(r, encode)| > |"/properties?"|;
    }
  }

  /** `URLSearchParams.get(key)`: the value of the first pair named `key`. */
  function GetParam(params: seq<(string, string)>, key: string): (r: Option<string>)
    ensures r.None? <==> forall v :: (key, v) !in params
    ensures r.Some? ==> (key, r.value) in params
    ensures r.Some? ==> exists i :: 0 <= i < |params| && params[i] == (key, r.value) &&
                         forall j :: 0 <= j < i ==> params[j].0 != key
  {
    match Find(params, (pair: (string, string)) => pair.0 == key)
    case None => None
    case Some(pair) =>
      var i :| 0 <= i < |params| && params[i] == pair && pair.0 == key &&
               forall j :: 0 <= j < i ==> params[j].0 != key;
      assert params[i] == (key, pair.1);
      Some(pair.1)
  }

  /** A district picked in the search box is the location filter the listings
      page opens with, given that the browser hands the query back unchanged;
      with no district picked the filter is empty. */
  lemma SearchOpensListingAt(searchLocation: string, priceRange: string)
    ensures InitialFilters(GetParam(SearchPairs(searchLocation, priceRange), "location")).location ==
            if LocationChosen(searchLocation) then searchLocation else ""
  {
    SearchPairsMeaning(searchLocation, priceRange);
  }

  /** The listings page reads only the location parameter, so the price range
      picked on the home page does not change the filters it opens with. */
  lemma ListingIgnoresPriceRange(searchLocation: string, priceRange: string, otherRange: string)
    ensures InitialFilters(GetParam(SearchPairs(searchLocation, priceRange), "location")) ==
            InitialFilters(GetParam(SearchPairs(searchLocation, otherRange), "location"))
  {
    SearchOpensListingAt(searchLocation, priceRange);
    SearchOpensListingAt(searchLocation, otherRange);
  }

  /** Of the dropdown entries, all but the first narrow the search. */
  lemma DropdownEntries(i: nat)
    requires i < |LocationOptions| && i < |PriceOptions|
    ensures LocationChosen(LocationOptions[i]) <==> i > 0
    ensures PriceChosen(PriceOptions[i]) <==> i > 0
  {
  }
}
