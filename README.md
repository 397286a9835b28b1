# Rental catalogue model

A Dafny model of the in-memory rental catalogue of a small Express web
application (`server.js`). The server keeps one array of six rentable items
(`itemsList`). Each item has an id, a name, an image path, a minimum rental
period in days, and an `isRented` flag. Requests search the catalogue by
keyword, rent one item for a number of days, filter the catalogue by rental
status, and return every rented item at once. Only the `isRented` flags ever
change.

Layout, one module per file:

- `items.dfy` (`Items`): the `Item` record and the `View` a handler renders.
  A `View` is the catalogue page with a list of items, or the error page with
  one of the six error messages. The file also holds the seed catalogue, the
  order-preserving `Filter` that every accumulator loop of the server builds,
  and `RentedItems`/`AvailableItems` with their lemmas.
- `text.dfy` (`Text`): ASCII lowercasing, `includes` (`Contains`) and
  `split(' ')` (`Split`), with the round trip between `Split` and `Join`.
- `search.dfy` (`Search`): what the search's nested loops compute
  (`SearchMatches`) and what that result is: OR across tokens, token-major
  order, one entry per matching (token, item) pair. It also works out three
  searches on the seed catalogue, one lemma per seed name and token.
- `rental.dfy` (`Rental`): rent and return-all as pure transitions from the
  catalogue before a request to the catalogue after it plus the rendered view,
  with the properties of each transition.
- `store.dfy` (`Store`): the class `Catalogue`. It holds `itemsList` as an
  `array<Item>`, and its methods implement the helpers and handlers with the
  server's loops. Each method is proved against the functions above. `Rent` and
  `ReturnAll` change the array in place and keep the class invariant: ids are
  distinct and nothing but the flags differs from the seed.

Modelling decisions:

- Ids are strings compared for equality. The ids `uuidv4()` generates at
  startup are a parameter of the constructor, and they must be pairwise
  distinct.
- `parseInt(req.body.numDays)` is an `Option<int>`, where `None` stands for
  NaN. A comparison with NaN is false, so `None` takes the "minimum not met"
  branch (`MeetsMinimum`).
- `Math.random()` draws are a parameter of `GenerateRandomItems`. They are
  reals in [0, 1), and `Math.floor(r * n)` is `Pick`.
- The rent handler builds its list of rented items with its own loop
  (server.js:150-155). That loop is identical to `getRentedItems`, so
  `Catalogue.Rent` calls `GetRentedItems`.
- The keyword is split on the single space character (server.js:103), not
  on whitespace in general. An empty keyword, or one with two spaces in a
  row, yields an empty token, and the empty token matches every item
  (`EmptyKeywordListsAll`, `DoubledSpaceListsAll`).
- The filter mode is the request's string (server.js:172-174). Any value
  other than 'rented-items' or 'available-items' lists the whole catalogue.
- An error page is modelled by the `Problem` it reports. `Message` holds the
  six texts, and no two of them coincide (`MessageInjective`).

## Model

| member | source | states |
|---|---|---|
| `Items.SeedItems` | server.js:38-81 | the six seed items, none rented, with minimum periods 14, 7, 30, 2, 2, 2; distinct uuids make the ids distinct |
| `Items.MessageInjective` | server.js:121-225 | the six error texts are pairwise different, so the error page says which problem occurred |
| `Items.Filter` | server.js:250-268 | the accumulated list holds only elements of the input that satisfy the test, and holds every element that does |
| `Items.FilterIsSubsequence` | server.js:250-268 | an accumulator loop keeps catalogue order: its result is a subsequence of the catalogue |
| `Items.FilterMultiplicity` | server.js:250-268 | filtering keeps every copy of a matching element and drops every copy of the others |
| `Items.FilterPartition` | server.js:250-268 | filtering by a test and by its negation splits the input: the lengths add up and the multisets sum to the input's |
| `Items.FilterKeepsAll` | server.js:107-112 | a test that every element passes keeps the whole input unchanged |
| `Items.FilterEmpty` | server.js:177-201 | a filtered list is empty exactly when no element passes the test |
| `Items.FilterAppend` | server.js:250-268 | an accumulator loop over two stretches of the catalogue builds the two results one after the other |
| `Items.RentedAvailableCharacterized` | server.js:250-268 | getRentedItems returns exactly the rented items and getAvailableItems exactly the others, both in catalogue order |
| `Items.RentedAvailablePartition` | server.js:250-268 | the rented and the available lists together are the catalogue: the lengths sum to its length and the multisets to its multiset |
| `Items.NoneRentedIffRentedEmpty` | server.js:242-258 | "nothing rented" holds exactly when the list of rented items is empty |
| `Items.SameListingKeepsDistinctIds` | server.js:147-148 | changing only rental flags keeps ids distinct |
| `Items.SameListingTransitive` | server.js:147-217 | two rounds of flag-only changes are a flag-only change |
| `Text.Lower` | server.js:108-109 | lowercasing keeps the length, lowers each character, and leaves no upper-case ASCII letter |
| `Text.LowerIdempotent` | server.js:108-109 | lowercasing twice is lowercasing once |
| `Text.ContainsIffOccurs` | server.js:109 | `includes` holds exactly when the needle occurs at some position of the name |
| `Text.ContainsEmpty` | server.js:109 | every string includes the empty string |
| `Text.AbsentChar` | server.js:109 | a needle with a character the name lacks is not included |
| `Text.LowerNoUpper` | server.js:109 | lowercasing a keyword with no upper-case letter leaves it as it is |
| `Text.FoundAt` | server.js:108-109 | a needle that the name's characters from some position on lower to is included in the lowercased name |
| `Text.MissingLetter` | server.js:108-109 | a needle holding a letter that no character of the name lowers to is not included in the lowercased name |
| `Text.LoneLetter` | server.js:108-109 | a needle whose letter occurs in the lowercased name once, at a place where the rest of the needle does not fit, is not included |
| `Text.Split` | server.js:103 | `split(' ')` yields at least one piece and no piece contains a space |
| `Text.DoubledSpaceEmptyPiece` | server.js:103 | two spaces in a row put an empty piece, not the first one, into the split |
| `Text.JoinSplit` | server.js:103 | joining the pieces with single spaces gives back the keyword |
| `Text.SplitWordPrefix` | server.js:103 | a word without spaces in front of a string extends the string's first piece |
| `Text.SplitJoin` | server.js:103 | splitting undoes joining for space-free pieces, so the split is the unique such decomposition |
| `Search.MatchingCharacterized` | server.js:107-112 | one inner-loop pass pushes exactly the items whose lowercased name includes the lowercased token, in catalogue order |
| `Search.MatchingOnlyAt` | server.js:107-112 | when only the item at one position matches a token, the inner loop pushes that item alone |
| `Search.MatchingOnlyAtTwo` | server.js:107-112 | when only the items at two positions match a token, the inner loop pushes those two, in catalogue order |
| `Search.SearchAppend` | server.js:106-113 | results are token-major: the results for two lists of tokens, one after the other, are concatenated |
| `Search.SearchSingle` | server.js:106-113 | the result for one token is that token's matching items |
| `Search.SearchMember` | server.js:106-113 | OR across tokens: an item is in the result exactly when it is in the catalogue and matches some token |
| `Search.SearchMemberSound` | server.js:106-113 | every item in the result is a catalogue item that matches some token |
| `Search.SearchMemberComplete` | server.js:106-113 | every catalogue item that matches some token is in the result |
| `Search.SearchMultiplicity` | server.js:106-113 | duplicates are kept: an item occurs as often as it occurs in the catalogue times the number of tokens it matches |
| `Search.SearchCountsPairs` | server.js:106-113 | on a catalogue with distinct ids, each item occurs once per token it matches |
| `Search.DistinctOccursOnce` | server.js:38-81 | in a catalogue with distinct ids every item occurs exactly once |
| `Search.EmptyTokenMatchesAll` | server.js:109 | the empty token matches every item |
| `Search.EmptyKeywordListsAll` | server.js:103-113 | an empty keyword lists the whole catalogue |
| `Search.DoubledSpaceListsAll` | server.js:103-113 | a keyword with two spaces in a row puts every catalogue item in the result |
| `Search.SearchEmptyIff` | server.js:115-122 | "No items found!" is shown exactly when no (token, item) pair matches |
| `Search.SearchIgnoresKeywordCase` | server.js:109 | lowercasing the keyword first does not change whether an item matches |
| `Search.IphoneOnSeed` | server.js:38-81 | of the seed names, only "Apple iPhone 14 Plus" includes "iphone" |
| `Search.AppleOnSeed` | server.js:38-81 | of the seed names, exactly the iPhone's and the MacBook's include "apple" |
| `Search.ProOnSeed` | server.js:38-81 | of the seed names, only the MacBook's includes "pro" |
| `Search.NonexistentOnSeed` | server.js:38-81 | no seed name includes "nonexistentword" |
| `Search.SeedSearchIphone` | server.js:100-113 | searching the seed catalogue for "iphone" yields the iPhone alone |
| `Search.SeedSearchNothing` | server.js:100-113 | searching the seed catalogue for "nonexistentword" yields nothing |
| `Search.SeedSearchApplePro` | server.js:100-113 | "apple pro" splits into "apple" and "pro", and yields the iPhone, the MacBook, and the MacBook again |
| `Rental.FirstIndex` | server.js:130-138 | the search loop stops at the first item with the id, or yields -1 exactly when no item has it |
| `Rental.FirstIndexOfDistinct` | server.js:130-138 | with distinct ids, the position found is that of the item carrying the id |
| `Rental.ClearAll` | server.js:215-217 | clearing keeps every field except the flags, and no item is rented afterwards |
| `Rental.RentUnknownId` | server.js:140-144 | renting an id no item has renders "can not be found" for any numDays and changes nothing |
| `Rental.RentSucceeds` | server.js:147-159 | with numDays at least the minimum, only that item's flag is set; the rendered list is exactly the rented items in catalogue order, and it includes that item and every item rented before |
| `Rental.RentBelowMinimum` | server.js:145-166 | fewer days than the minimum, or a NaN day count, renders "minimum not met" and changes nothing |
| `Rental.RentKeepsListing` | server.js:147-148 | rent changes at most the flags, so ids stay distinct |
| `Rental.RentOnlySetsFlags` | server.js:147-148 | rent never clears a flag |
| `Rental.RentAlreadyRented` | server.js:147-148 | renting an item that is already rented succeeds and leaves the catalogue as it was |
| `Rental.RentIdempotent` | server.js:125-168 | repeating a rent request produces the same catalogue and the same view |
| `Rental.ReturnAllClears` | server.js:214-221 | with something rented, return clears every flag, keeps every other field, and lists the whole catalogue |
| `Rental.ReturnAllNothingRented` | server.js:222-227 | with nothing rented, return renders "nothing to return" and changes nothing |
| `Rental.ReturnAllSucceedsIff` | server.js:211-227 | return succeeds exactly when the list of rented items is non-empty |
| `Rental.ReturnAllTwice` | server.js:211-228 | a second return right after a first always fails and changes nothing |
| `Rental.JblScenario` | server.js:125-228 | on the seed catalogue, renting the JBL headphone for 2 days succeeds and removes it from the available items; a return restores the seed catalogue, and it is available again |
| `Store.Pick` | server.js:237 | `Math.floor(r * n)` with r in [0, 1) is a valid index into n items |
| `Store.Catalogue.constructor` | server.js:38-81 | startup yields the seed catalogue, with distinct ids, as both the array and the recorded seed, and the class invariant holds |
| `Store.Catalogue.FindPosition` | server.js:130-138 | the linear search with `break` returns the first position holding the id, or -1 |
| `Store.Catalogue.CheckRentedItems` | server.js:242-248 | the early-stopping loop returns true exactly when no item is rented |
| `Store.Catalogue.GetRentedItems` | server.js:250-258 | the loop returns the rented items in catalogue order |
| `Store.Catalogue.GetAvailableItems` | server.js:260-268 | the loop returns the items not rented, in catalogue order |
| `Store.Catalogue.GenerateRandomItems` | server.js:234-240 | exactly numOfItems entries, entry k being the item at the index the k-th draw selects, so each is a catalogue item |
| `Store.Catalogue.SearchByKeyword` | server.js:100-123 | the nested loops compute the search result, and the error page is rendered exactly when it is empty |
| `Store.Catalogue.Rent` | server.js:125-168 | the handler performs exactly the rent transition on the array and keeps the class invariant |
| `Store.Catalogue.FilterByStatus` | server.js:170-209 | 'rented-items' and 'available-items' list the rented or available items, or the matching error when that list is empty; any other mode lists the catalogue |
| `Store.Catalogue.ReturnAll` | server.js:211-228 | the handler performs exactly the return-all transition on the array and keeps the class invariant |
| `Store.SeedSearches` | server.js:38-123 | after startup, searching "iphone" lists the iPhone, "nonexistentword" renders "No items found!", and "apple pro" lists the iPhone and the MacBook twice |

## Left out

- Express setup, static assets, body parsing, the Handlebars engine and its `json` helper, port binding and the start log (server.js:1-32, 270-275): framework plumbing and I/O. Each handler's `res.render` becomes the returned `View`.
- GET `/` and GET `/rental-catalogue` (server.js:88-97): routing that renders `generateRandomItems(itemsList, 3)` or the whole array. The first is `GenerateRandomItems`; the second has no logic.
- `uuidv4()` (server.js:4, 40-75): library randomness. The ids are a constructor parameter that must be pairwise distinct, standing in for uuid uniqueness.
- `parseInt` (server.js:127): text parsing. Its result is an `Option<int>`.
- `Math.random()` (server.js:237): its values are a parameter, read as reals in [0, 1). Floating-point rounding of the product is not modelled.
- GenerateRandomItems: requires a non-empty catalogue when items are drawn, because on an empty array the source yields `undefined` entries. The catalogue always holds six items.
- `toLowerCase` (server.js:108-109): only ASCII letters are lowered. Unicode case mapping is not modelled.
- A request body without `keyword` or `results` (server.js:101, 172): the keyword is always a string here, and a missing filter mode behaves like any other unrecognised string.
- Object identity: the server's result lists hold references to the same item objects as `itemsList`. The model's lists hold copies of the items' values, taken when the list is built. The page is rendered before any later request, so this makes no difference.
- Concurrency: there is none. Node runs each handler to completion, so each method is one atomic step.
