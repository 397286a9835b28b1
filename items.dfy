/** The rental catalogue's data model: items, the views a request ends in,
    the order-preserving filter every query is built from, and the seed
    catalogue the server starts with. */
module Items {

  datatype Option<T> = None | Some(value: T)

  /** Item identifiers are the strings uuidv4 produces at startup; the
      model only compares them for equality. */
  type ItemId = string

  /** One catalogue entry. Only `isRented` ever changes after startup. */
  datatype Item = Item(itemId: ItemId, name: string, img: string, minRental: int, isRented: bool)

  /** The error messages the handlers render. */
  datatype Problem =
    | ItemNotFound      // rent: no item has the requested id
    | MinimumNotMet     // rent: numDays below the item's minimum (or not a number)
    | NoItemsFound      // search: nothing matched
    | RentalListEmpty   // filter 'rented-items': nothing is rented
    | NoMoreToRent      // filter 'available-items': everything is rented
    | NothingToReturn   // return: nothing is rented

  /** Every handler ends by rendering either the catalogue view with a list
      of items or the error view with a message. */
  datatype View = CatalogueView(items: seq<Item>) | ErrorView(problem: Problem)

  /** The text the error view shows for each problem. */
  function Message(p: Problem): string
  {
    match p
    case ItemNotFound => "This item can not be found!"
    case MinimumNotMet => "You did not meet the minimum requirement!"
    case NoItemsFound => "No items found!"
    case RentalListEmpty => "Your rental list is empty!"
    case NoMoreToRent => "There's no more item to rent!"
    case NothingToReturn => "You do not have any item to return!"
  }

  /** Each error page's text names one problem only, so a view that records
      the problem loses nothing of what the page says. */
  lemma MessageInjective(p: Problem, q: Problem)
    ensures Message(p) == Message(q) <==> p == q
  {
  }

  predicate DistinctIds(s: seq<Item>)
  {
    forall i, j :: 0 <= i < j < |s| ==> s[i].itemId != s[j].itemId
  }

  /** `b` is the catalogue `a` with at most the rental flags changed. */
  predicate SameListing(a: seq<Item>, b: seq<Item>)
  {
    |a| == |b| && forall i :: 0 <= i < |a| ==> a[i].(isRented := b[i].isRented) == b[i]
  }

  lemma SameListingKeepsDistinctIds(a: seq<Item>, b: seq<Item>)
    requires SameListing(a, b) && DistinctIds(a)
    ensures DistinctIds(b)
  {
    forall i, j | 0 <= i < j < |b| ensures b[i].itemId != b[j].itemId {
      assert a[i].(isRented := b[i].isRented) == b[i];
      assert a[j].(isRented := b[j].isRented) == b[j];
    }
  }

  lemma SameListingTransitive(a: seq<Item>, b: seq<Item>, c: seq<Item>)
    requires SameListing(a, b) && SameListing(b, c)
    ensures SameListing(a, c)
  {
    forall i | 0 <= i < |a| ensures a[i].(isRented := c[i].isRented) == c[i] {
      assert a[i].(isRented := b[i].isRented) == b[i];
      assert b[i].(isRented := c[i].isRented) == c[i];
    }
  }

  // ---------------------------------------------------------------------
  // Order-preserving filtering
  // ---------------------------------------------------------------------

  /** The elements of `s` that satisfy `p`, in their order in `s`: what a
      loop that pushes each matching element onto an accumulator builds. */
  function Filter<T>(s: seq<T>, p: T -> bool): (r: seq<T>)
    ensures |r| <= |s|
    ensures forall x :: x in r ==> x in s && p(x)
    ensures forall x :: x in s && p(x) ==> x in r
  {
    if s == [] then []
    else
      var init, last := s[..|s| - 1], s[|s| - 1];
      assert s == init + [last];
      if p(last) then Filter(init, p) + [last] else Filter(init, p)
  }

  /** `a` is obtained from `b` by deleting elements, keeping the order. */
  predicate IsSubsequence<T(==)>(a: seq<T>, b: seq<T>)
  {
    if a == [] then true
    else if b == [] then false
    else if a[|a| - 1] == b[|b| - 1] then IsSubsequence(a[..|a| - 1], b[..|b| - 1])
    else IsSubsequence(a, b[..|b| - 1])
  }

  lemma {:induction false} FilterIsSubsequence<T>(s: seq<T>, p: T -> bool)
    ensures IsSubsequence(Filter(s, p), s)
  {
    if s != [] {
      var init := s[..|s| - 1];
      FilterIsSubsequence(init, p);
      if p(s[|s| - 1]) {
        var r := Filter(s, p);
        assert r[..|r| - 1] == Filter(init, p);
      } else if Filter(init, p) != [] {
        // the last element kept satisfies p, so it is not the dropped s[|s| - 1]
        var f := Filter(init, p);
        assert f[|f| - 1] in f;
      }
    }
  }

  /** Filtering keeps every copy of a matching element and no copy of any other. */
  lemma {:induction false} FilterMultiplicity<T>(s: seq<T>, p: T -> bool, x: T)
    ensures multiset(Filter(s, p))[x] == if p(x) then multiset(s)[x] else 0
  {
    if s != [] {
      var init := s[..|s| - 1];
      assert s == init + [s[|s| - 1]];
      FilterMultiplicity(init, p, x);
    }
  }

  /** Filtering by a predicate and by its negation splits the sequence. */
  lemma {:induction false} FilterPartition<T>(s: seq<T>, p: T -> bool, q: T -> bool)
    requires forall x :: q(x) == !p(x)
    ensures |Filter(s, p)| + |Filter(s, q)| == |s|
    ensures multiset(Filter(s, p)) + multiset(Filter(s, q)) == multiset(s)
  {
    if s != [] {
      var init := s[..|s| - 1];
      assert s == init + [s[|s| - 1]];
      FilterPartition(init, p, q);
    }
  }

  /** A predicate that holds of every element keeps the whole sequence. */
  lemma {:induction false} FilterKeepsAll<T>(s: seq<T>, p: T -> bool)
    requires forall x :: x in s ==> p(x)
    ensures Filter(s, p) == s
  {
    if s != [] {
      var init := s[..|s| - 1];
      assert s == init + [s[|s| - 1]];
      FilterKeepsAll(init, p);
    }
  }

  /** Nothing is kept exactly when no element satisfies the predicate. */
  lemma {:induction false} FilterEmpty<T>(s: seq<T>, p: T -> bool)
    ensures Filter(s, p) == [] <==> forall x :: x in s ==> !p(x)
  {
    if s != [] {
      var init := s[..|s| - 1];
      assert s == init + [s[|s| - 1]];
      FilterEmpty(init, p);
    }
  }

  /** Filtering a concatenation filters each part. */
  lemma {:induction false} FilterAppend<T>(a: seq<T>, b: seq<T>, p: T -> bool)
    ensures Filter(a + b, p) == Filter(a, p) + Filter(b, p)
  {
    if b != [] {
      var init := b[..|b| - 1];
      var last := b[|b| - 1];
      assert b == init + [last];
      assert a + b == (a + init) + [last];
      FilterAppend(a, init, p);
      assert Filter(a + b, p) == Filter(a + init, p) + (if p(last) then [last] else []);
      assert Filter(b, p) == Filter(init, p) + (if p(last) then [last] else []);
    } else {
      assert a + b == a;
    }
  }

  /** One step of the accumulator loop over a prefix of a sequence. */
  lemma FilterStep<T>(s: seq<T>, i: nat, p: T -> bool)
    requires i < |s|
    ensures Filter(s[..i + 1], p) == Filter(s[..i], p) + (if p(s[i]) then [s[i]] else [])
  {
    assert s[..i + 1][..i] == s[..i];
  }

  // ---------------------------------------------------------------------
  // Rented and available items
  // ---------------------------------------------------------------------

  function IsRented(x: Item): bool { x.isRented }

  function IsAvailable(x: Item): bool { !x.isRented }

  /** What getRentedItems returns: the rented items in catalogue order. */
  function RentedItems(s: seq<Item>): seq<Item>
  {
    Filter(s, IsRented)
  }

  /** What getAvailableItems returns: the items not rented, in catalogue order. */
  function AvailableItems(s: seq<Item>): seq<Item>
  {
    Filter(s, IsAvailable)
  }

  /** Every rented item of the catalogue is in RentedItems, every element of
      RentedItems is a rented item of the catalogue, the order is the
      catalogue's, and AvailableItems is the same for the other flag value. */
  lemma RentedAvailableCharacterized(s: seq<Item>, x: Item)
    ensures x in RentedItems(s) <==> x in s && x.isRented
    ensures x in AvailableItems(s) <==> x in s && !x.isRented
    ensures IsSubsequence(RentedItems(s), s) && IsSubsequence(AvailableItems(s), s)
  {
    assert IsRented(x) == x.isRented;
    assert IsAvailable(x) == !x.isRented;
    FilterIsSubsequence(s, IsRented);
    FilterIsSubsequence(s, IsAvailable);
  }

  /** The rented and the available items together are the catalogue. */
  lemma RentedAvailablePartition(s: seq<Item>)
    ensures |RentedItems(s)| + |AvailableItems(s)| == |s|
    ensures multiset(RentedItems(s)) + multiset(AvailableItems(s)) == multiset(s)
  {
    FilterPartition(s, IsRented, IsAvailable);
  }

  /** No item of `s` is rented. */
  predicate NoneRented(s: seq<Item>)
  {
    forall i :: 0 <= i < |s| ==> !s[i].isRented
  }

  lemma NoneRentedIffRentedEmpty(s: seq<Item>)
    ensures NoneRented(s) <==> RentedItems(s) == []
  {
    if !NoneRented(s) {
      var i :| 0 <= i < |s| && s[i].isRented;
      assert s[i] in s && IsRented(s[i]);
    } else {
      FilterEmpty(s, IsRented);
    }
  }

  // ---------------------------------------------------------------------
  // The seed catalogue
  // ---------------------------------------------------------------------

  /** The six items the server starts with, given the identifiers uuidv4
      produced for them. */
  function SeedItems(ids: seq<ItemId>): (s: seq<Item>)
    requires |ids| == 6
    ensures |s| == 6 && NoneRented(s)
    ensures forall i :: 0 <= i < 6 ==> s[i].itemId == ids[i]
    ensures [s[0].minRental, s[1].minRental, s[2].minRental,
             s[3].minRental, s[4].minRental, s[5].minRental] == [14, 7, 30, 2, 2, 2]
    ensures (forall i, j :: 0 <= i < j < 6 ==> ids[i] != ids[j]) ==> DistinctIds(s)
  {
    [ Item(ids[0], "Acer A4581 Laptop", "img/acer-notebook.jpg", 14, false),
      Item(ids[1], "Apple iPhone 14 Plus", "img/apple-iphone14plus.jpg", 7, false),
      Item(ids[2], "Google Pixel Phone", "img/google-pixel.jpg", 30, false),
      Item(ids[3], "JBL Headphone", "img/jbl-headphone.jpg", 2, false),
      Item(ids[4], "Apple MacBook Pro 13\"", "img/macbook-pro-13inch.jpg", 2, false),
      Item(ids[5], "Samsung Flip Phone", "img/samsung-flip.jpg", 2, false) ]
  }
}
