# Listings logic of the perfectland rental site

The perfectland site lists condominiums for rent in Bangkok. Apart from static
markup, its logic sits in three page components, and this project models that
logic:

- **The listings page** keeps only the available records when the catalog
  arrives. It narrows them by four optional filters: a case-insensitive
  location substring, a minimum price, a maximum price and an exact bedroom
  count. It then sorts the result in place by one of five keys. The filter form
  is edited one field at a time and can be cleared.
- **The home page** shows up to six featured, available properties. Its
  district cards show a count of the records whose location is exactly that
  district. Its search box builds the query pairs for the listings URL.
- **The detail page** finds the record with the route's id. It shows a
  gallery made of the main image followed by the others, with a thumbnail
  strip when there is more than one image. It has a contact modal that a
  submit closes and resets.

The catalog is an input sequence of `Catalog.Property` records. Each
JavaScript library operation the pages use is written out, with the facts the
pages rely on proved about it:

- `filter`, `slice`, `find`: `Seqs`;
- `toLowerCase`, `includes`, `localeCompare`, `parseInt`: `Text`;
- the stable comparator sort: `Sorting`.

The listings query is given twice:

- `PropertiesPage.Query` is a value-level definition;
- `PropertiesPage.ApplyFilters` reassigns its list filter by filter, like the
  page does, and sorts an array in place with `Sorting.SortInPlace`.

The method is proved equal to the definition. `Sorting.StableSortIsInsertionSort`
shows that a stable sort has only one possible result for a given comparator,
so modelling the library sort by an insertion sort loses nothing.

The model follows the code in three places where it behaves differently
from what the page suggests:

- A district card counts every catalog record with that location, including
  unavailable ones. It compares case-sensitively, while the listing it links
  to matches case-insensitive substrings (`HomePage.AreaCountDiffersFromListing`).
- A price or bedroom field whose text `parseInt` reads as NaN empties the list.
  It does not leave the list unfiltered (`PropertiesPage.UnreadableBoundEmptiesList`).
- The "3+ Bedrooms" option selects exactly three bedrooms
  (`PropertiesPage.ThreePlusMeansExactlyThree`).

## Model

| member | source | states |
|---|---|---|
| Seqs.Filter | src/pages/PropertiesPage.tsx:56-58 | `filter` returns only elements of the input that pass the predicate, never more of them than the input has |
| Seqs.FilterMultiplicity | src/pages/PropertiesPage.tsx:56-58 | an element passing the predicate keeps every occurrence; one failing it keeps none |
| Seqs.FilterIsSubseq | src/pages/PropertiesPage.tsx:56-58 | `filter` keeps the input order: its result is a subsequence of the input |
| Seqs.FilterFilter | src/pages/PropertiesPage.tsx:55-72 | two filters in a row are one filter by the conjunction of their predicates |
| Seqs.FilterGuarded | src/pages/PropertiesPage.tsx:55-72 | a filter step skipped by a false guard is the same as filtering by a predicate that holds everywhere |
| Seqs.Take | src/pages/HomePage.tsx:174 | `slice(0, n)` is the prefix of length `min(length, n)` |
| Seqs.Find | src/pages/PropertyDetailPage.tsx:42 | `find` gives nothing exactly when no element passes; otherwise it gives the first element that passes |
| Text.Lower | src/pages/PropertiesPage.tsx:57 | the lowered text has the same length, no capital letter, and each character equal to the original up to letter case |
| Text.LowerIdempotent | src/pages/PropertiesPage.tsx:57 | lowering an already lowered text changes nothing |
| Text.LowerIgnoresCase | src/pages/PropertiesPage.tsx:57 | two texts that differ only in letter case lower to the same text, so the location search ignores case |
| Text.IncludesIff | src/pages/PropertiesPage.tsx:57 | `includes` holds exactly when the text occurs at some position |
| Text.IncludesLonger | src/pages/PropertiesPage.tsx:57 | a text longer than the location never occurs in it |
| Text.StrLeTotal | src/pages/PropertiesPage.tsx:89 | any two names are ordered one way or the other |
| Text.StrLeTrans | src/pages/PropertiesPage.tsx:89 | the name order is transitive |
| Text.StrLeAntisymmetric | src/pages/PropertiesPage.tsx:89 | names ordered both ways are equal |
| Text.ParseIntDecimal | src/pages/PropertiesPage.tsx:63 | `parseInt` reads a decimal numeral back as its value |
| Text.ParseIntNegativeDecimal | src/pages/PropertiesPage.tsx:63 | a leading minus sign negates the value |
| Text.ParseIntDecimalPrefix | src/pages/PropertiesPage.tsx:63 | parsing stops at the first character that cannot continue the number, so `"1.5"` reads as 1 |
| Text.ParseIntNoDigits | src/pages/PropertiesPage.tsx:63 | text with no digit where the number starts, after an optional sign, is NaN |
| Sorting.BeforeTotal | src/pages/PropertiesPage.tsx:77-89 | every comparator of the sort switch places any two records one way or the other |
| Sorting.BeforeTrans | src/pages/PropertiesPage.tsx:77-89 | every comparator is transitive, so it is a consistent comparator |
| Sorting.SameKeyIffEqualKey | src/pages/PropertiesPage.tsx:77-89 | two records tie under a comparator exactly when their price, size or name is equal |
| Sorting.InsertionSortPermutes | src/pages/PropertiesPage.tsx:77-89 | sorting only reorders: the result has the same elements with the same multiplicities |
| Sorting.InsertionSortSorted | src/pages/PropertiesPage.tsx:77-89 | every pair in the result is in comparator order |
| Sorting.InsertionSortStable | src/pages/PropertiesPage.tsx:77-89 | records with equal keys keep their input order |
| Sorting.StableSortIsInsertionSort | src/pages/PropertiesPage.tsx:77-89 | a sequence is a stable sort of the input exactly when it equals the insertion sort |
| Sorting.ShiftPast | src/pages/PropertiesPage.tsx:77-89 | the records at the end of the sorted prefix that must follow the new one move one place right, and the rest of the array is unchanged |
| Sorting.InsertAt | src/pages/PropertiesPage.tsx:77-89 | one in-place insertion step: the element at `i` moves into the sorted prefix and the rest of the array is unchanged |
| Sorting.SortInPlace | src/pages/PropertiesPage.tsx:77-89 | `sort` on an array leaves it holding the stable sort of its old contents |
| PropertiesPage.HandleFilterChange | src/pages/PropertiesPage.tsx:96-98 | the named field takes the new value and every other field keeps its own; an unknown name changes nothing |
| PropertiesPage.ClearFilters | src/pages/PropertiesPage.tsx:100-108 | the cleared form is the opening form with an empty location, for any URL location |
| PropertiesPage.AvailableOnly | src/pages/PropertiesPage.tsx:40 | the page holds exactly the available records, each as often as in the catalog, in catalog order |
| PropertiesPage.ApplyFilters | src/pages/PropertiesPage.tsx:51-94 | the displayed list is the held records passing every active filter, stably sorted when the key is known |
| PropertiesPage.SortCopy | src/pages/PropertiesPage.tsx:77-89 | sorting the page's array copy gives the stable sort of the list |
| PropertiesPage.QueryMembers | src/pages/PropertiesPage.tsx:55-72 | a record is displayed exactly when it is held and passes every active filter, as often as it is held |
| PropertiesPage.QueryLength | src/pages/PropertiesPage.tsx:52-91 | the displayed list is never longer than the held list |
| PropertiesPage.QueryAvailable | src/pages/PropertiesPage.tsx:40-52 | every displayed record is available and comes from the catalog |
| PropertiesPage.QuerySortedStably | src/pages/PropertiesPage.tsx:75-91 | with a known key the list is in key order, and ties keep their filtered order |
| PropertiesPage.QueryOrderByKey | src/pages/PropertiesPage.tsx:75-91 | ascending keys never decrease along the list, descending keys never increase, and names are in lexicographic order |
| PropertiesPage.QueryUnknownKeyKeepsOrder | src/pages/PropertiesPage.tsx:75-91 | an unknown key sorts nothing: the list is the filtered records in held order |
| PropertiesPage.EmptyFieldsKeepAll | src/pages/PropertiesPage.tsx:55-72 | empty filter fields drop nothing: every held record is displayed |
| PropertiesPage.ClearedQuery | src/pages/PropertiesPage.tsx:100-108 | after "Clear All" every held record is shown, by ascending price |
| PropertiesPage.LocationFilterMeaning | src/pages/PropertiesPage.tsx:55-59 | the location filter holds when the lowered text occurs in the lowered location; lowering the text first changes nothing |
| PropertiesPage.NumericFieldsMeaning | src/pages/PropertiesPage.tsx:62-72 | a number in a field is a lower price bound, an upper price bound or an exact bedroom count; `"0"` applies too |
| PropertiesPage.ThreePlusMeansExactlyThree | src/pages/PropertiesPage.tsx:70-72 | the bedroom value `"3"`, the option labelled "3+" at line 202, lists homes with exactly three bedrooms and never four |
| PropertiesPage.UnreadableBoundEmptiesList | src/pages/PropertiesPage.tsx:62-72 | a non-empty field that `parseInt` reads as NaN empties the list |
| PropertiesPage.ExampleTwoBedrooms | src/pages/PropertiesPage.tsx:51-94 | on a sample catalog, two-bedroom homes by ascending price leave out the unavailable record |
| PropertiesPage.ExampleMinimumPrice | src/pages/PropertiesPage.tsx:62-64 | on the same catalog, a minimum of 40000 keeps only the dearer home |
| PropertiesPage.ExampleNoDistrictMatch | src/pages/PropertiesPage.tsx:55-59 | on the same catalog, a district no record is in gives an empty list |
| HomePage.FeaturedProperties | src/pages/HomePage.tsx:34 | the featured list is exactly the featured and available records, each as often as in the catalog, in catalog order |
| HomePage.ShownFeatured | src/pages/HomePage.tsx:174 | at most six cards, a prefix of the featured list; the whole list when it has six or fewer |
| HomePage.AreaCountCounts | src/pages/HomePage.tsx:263-266 | a card's count is how often its name occurs, exactly, among all catalog locations |
| HomePage.AreaCards | src/pages/HomePage.tsx:262-270 | one card per district, in order, with its exact count and its listings link |
| HomePage.AreaCountDiffersFromListing | src/pages/HomePage.tsx:263-266 | the card counts an unavailable record that the linked listing never shows, and the listing shows a lowercase spelling that the card does not count |
| HomePage.HandleSearch | src/pages/HomePage.tsx:38-48 | the pairs appended are the search pairs, and the target is the listings URL carrying them |
| HomePage.SearchPairsMeaning | src/pages/HomePage.tsx:39-46 | a location pair is sent exactly when a district is picked, a price pair exactly when a range is picked, each carrying the selection, and nothing else is sent |
| HomePage.SearchPairsOrder | src/pages/HomePage.tsx:39-46 | at most two pairs are sent, and the location pair comes before the price pair |
| HomePage.SearchAllIsBareUrl | src/pages/HomePage.tsx:47 | the target is exactly `/properties?` if and only if neither dropdown narrows the search |
| HomePage.DropdownEntries | src/pages/HomePage.tsx:35-36 | every dropdown entry but the first narrows the search |
| HomePage.GetParam | src/pages/PropertiesPage.tsx:28 | the value read is that of the first pair with the name, and there is none exactly when no pair has it |
| HomePage.SearchOpensListingAt | src/pages/PropertiesPage.tsx:27-33 | a district picked on the home page is the location the listings page opens with |
| HomePage.ListingIgnoresPriceRange | src/pages/PropertiesPage.tsx:27-33 | the price range picked on the home page does not change the filters the listings page opens with |
| PropertyDetailPage.FindById | src/pages/PropertyDetailPage.tsx:42-43 | the lookup is null exactly when no record has the id; otherwise it is a catalog record with that id |
| PropertyDetailPage.FindByIdFirst | src/pages/PropertyDetailPage.tsx:42-43 | the record found is the first one with the id |
| PropertyDetailPage.AllImages | src/pages/PropertyDetailPage.tsx:72 | the gallery is the main image, then the other images, with the main image counted once more |
| PropertyDetailPage.ThumbnailsIffMoreImages | src/pages/PropertyDetailPage.tsx:109 | a property has a strip exactly when it lists further images |
| PropertyDetailPage.Loaded | src/pages/PropertyDetailPage.tsx:38-46 | the loaded record is the lookup result, and nothing else in the page state changes |
| PropertyDetailPage.SelectImage | src/pages/PropertyDetailPage.tsx:112-115 | a thumbnail click sets the index, and nothing else changes |
| PropertyDetailPage.SetContactFormShown | src/pages/PropertyDetailPage.tsx:222 | the modal button sets whether the form shows, and nothing else changes |
| PropertyDetailPage.EditContact | src/pages/PropertyDetailPage.tsx:282-313 | an input changes its own field of the form and no other |
| PropertyDetailPage.ContactChanged | src/pages/PropertyDetailPage.tsx:282-313 | editing a field touches only that field of the form and nothing else on the page |
| PropertyDetailPage.HandleContactSubmit | src/pages/PropertyDetailPage.tsx:48-59 | submitting closes the modal and restores the form to its initial contents, leaving the rest of the page alone |
| PropertyDetailPage.SubmitForgetsEdits | src/pages/PropertyDetailPage.tsx:52-58 | an edit before a submit leaves no trace after it |
| PropertyDetailPage.RenderLoadingIffNoRecord | src/pages/PropertyDetailPage.tsx:61-70 | the loading view is drawn exactly when no record is held |
| PropertyDetailPage.UnknownIdStaysLoading | src/pages/PropertyDetailPage.tsx:61-70 | an id no record has leaves the page on the loading view |
| PropertyDetailPage.LoadedShowsMainImage | src/pages/PropertyDetailPage.tsx:97 | when the record arrives the displayed image is the main image, from the initial index 0 |
| PropertyDetailPage.ClickShowsThumbnail | src/pages/PropertyDetailPage.tsx:112-117 | clicking thumbnail `k` shows its image and highlights thumbnail `k` alone |

## Left out

- Loading the catalog document (`fetch`, `response.json()`) and the logging of its errors are I/O. The catalog is a parameter of every operation.
- React state, effects and rendering are not modelled as such. A state setter is a function from the old record to the new one. The effect that re-runs the query whenever the catalog or the form changes is `ApplyFilters` applied to the current values.
- A fetch may resolve after the user has already edited the form. That ordering of events is not modelled.
- `toLowerCase` lowers ASCII letters only. Other Unicode case mappings are not modelled.
- `localeCompare` is plain lexicographic order on code points. Locale collation is not modelled.
- `parseInt` is modelled on text. Results beyond 2^53, where floating point loses precision, are not modelled.
- Prices and sizes are whole numbers. Fractional sizes and floating-point subtraction in the comparators are not modelled.
- `toLocaleString` price formatting is display only and is not modelled.
- HomePage.HandleSearch: `URLSearchParams.toString` is the parameter `encode`, so the model does not fix the encoding of names and values. The browser navigation that follows is not modelled.
- HomePage.SearchOpensListingAt: the URL's round trip through the browser is taken to return the pairs unchanged. Decoding is not modelled.
- The alert shown on a contact submit and the loading spinner are display only and are not modelled.
- The detail page does not reset the selected image index when the route id changes. The model states range facts only against the gallery the index was chosen from.
- ContactPage, Navigation, Footer, AboutPage, ServicesPage and App are static markup, a menu toggle, a simulated form submit and router wiring. They are not part of this model.
