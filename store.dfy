/** The server's in-memory catalogue (`itemsList`) and the request handlers
    that read and update it, as a class over an array of items. Each method
    is one request handled to completion. */
module Store {
  import opened Items
  import opened Text
  import opened Search
  import Rental

  /** `Math.floor(r * n)`: the index a draw `r` from [0, 1) selects among `n` items. */
  function Pick(r: real, n: nat): (k: int)
    requires 0.0 <= r < 1.0 && n > 0
    ensures 0 <= k < n
  {
    var x := r * n as real;
    assert 0.0 <= x < n as real;
    x.Floor
  }

  class Catalogue {
    /** itemsList: the array is never replaced, only its entries' flags change. */
    const items: array<Item>
    /** The catalogue as seeded at startup. */
    ghost const seed: seq<Item>

    /** Ids are distinct and nothing but rental flags has changed since startup. */
    ghost predicate Valid()
      reads this, items
    {
      DistinctIds(seed) && SameListing(seed, items[..])
    }

    /** Server startup: the six seed items, none rented; `ids` are the
        identifiers uuidv4 generated for them. */
    constructor (ids: seq<ItemId>)
      requires |ids| == 6 && forall i, j :: 0 <= i < j < 6 ==> ids[i] != ids[j]
      ensures Valid() && fresh(items) && seed == SeedItems(ids) && items[..] == seed
    {
      var s := SeedItems(ids);
      seed := s;
      items := new Item[6](i requires 0 <= i < 6 => s[i]);
      new;
      assert items[..] == s;
    }

    lemma ValidIds()
      requires Valid()
      ensures DistinctIds(items[..])
    {
      SameListingKeepsDistinctIds(seed, items[..]);
    }

    // -------------------------------------------------------------------
    // Helpers
    // -------------------------------------------------------------------

    /** The rent handler's search loop: the first position holding `id`, or -1. */
    method FindPosition(id: ItemId) returns (position: int)
      ensures position == Rental.FirstIndex(items[..], id)
    {
      position := -1;
      var i := 0;
      while i < items.Length
        invariant 0 <= i <= items.Length && position == -1
        invariant forall k :: 0 <= k < i ==> items[k].itemId != id
      {
        if items[i].itemId == id {
          position := i;
          break;
        }
        i := i + 1;
      }
    }

    /** checkRentedItems: true exactly when no item is rented; the loop stops
        at the first rented item. */
    method CheckRentedItems() returns (isEmpty: bool)
      ensures isEmpty <==> NoneRented(items[..])
    {
      isEmpty := true;
      var i := 0;
      while i < items.Length && isEmpty
        invariant 0 <= i <= items.Length
        invariant isEmpty <==> forall k :: 0 <= k < i ==> !items[k].isRented
      {
        if items[i].isRented {
          isEmpty := false;
        }
        i := i + 1;
      }
    }

    /** getRentedItems: the rented items in catalogue order. */
    method GetRentedItems() returns (rentedItems: seq<Item>)
      ensures rentedItems == RentedItems(items[..])
    {
      rentedItems := [];
      for i := 0 to items.Length
        invariant rentedItems == RentedItems(items[..i])
      {
        FilterStep(items[..], i, IsRented);
        if items[i].isRented {
          rentedItems := rentedItems + [items[i]];
        }
      }
      assert items[..items.Length] == items[..];
    }

    /** getAvailableItems: the items not rented, in catalogue order. */
    method GetAvailableItems() returns (availItems: seq<Item>)
      ensures availItems == AvailableItems(items[..])
    {
      availItems := [];
      for i := 0 to items.Length
        invariant availItems == AvailableItems(items[..i])
      {
        FilterStep(items[..], i, IsAvailable);
        if !items[i].isRented {
          availItems := availItems + [items[i]];
        }
      }
      assert items[..items.Length] == items[..];
    }

    /** generateRandomItems: `draws[k]` is the k-th value Math.random()
        returned; each entry is drawn independently, with replacement. */
    method GenerateRandomItems(numOfItems: nat, draws: seq<real>) returns (newList: seq<Item>)
      requires |draws| == numOfItems
      requires forall k :: 0 <= k < |draws| ==> 0.0 <= draws[k] < 1.0
      requires numOfItems > 0 ==> items.Length > 0
      ensures |newList| == numOfItems
      ensures forall k :: 0 <= k < numOfItems ==> newList[k] == items[Pick(draws[k], items.Length)]
      ensures forall k :: 0 <= k < numOfItems ==> newList[k] in items[..]
    {
      newList := [];
      for i := 0 to numOfItems
        invariant |newList| == i
        invariant forall k :: 0 <= k < i ==> newList[k] == items[Pick(draws[k], items.Length)]
      {
        newList := newList + [items[Pick(draws[i], items.Length)]];
      }
    }

    // -------------------------------------------------------------------
    // Request handlers
    // -------------------------------------------------------------------

    /** POST /search: every (token, item) pair whose lowercased name
        includes the lowercased token, tokens split on single spaces. */
    method SearchByKeyword(keyword: string) returns (v: View)
      ensures var m := SearchMatches(items[..], Split(keyword));
        v == if m == [] then ErrorView(NoItemsFound) else CatalogueView(m)
    {
      var keywordArr := Split(keyword);
      var matchedResults: seq<Item> := [];
      for i := 0 to |keywordArr|
        invariant matchedResults == SearchMatches(items[..], keywordArr[..i])
      {
        for j := 0 to items.Length
          invariant matchedResults ==
                    SearchMatches(items[..], keywordArr[..i]) + Matching(items[..j], keywordArr[i])
        {
          MatchingStep(items[..], j, keywordArr[i]);
          var itemName := Lower(items[j].name);
          if Contains(itemName, Lower(keywordArr[i])) {
            matchedResults := matchedResults + [items[j]];
          }
        }
        assert items[..items.Length] == items[..];
        SearchStep(items[..], keywordArr, i);
      }
      assert keywordArr[..|keywordArr|] == keywordArr;
      if matchedResults != [] {
        v := CatalogueView(matchedResults);
      } else {
        v := ErrorView(NoItemsFound);
      }
    }

    /** POST /rental-catalogue/:id: find the item, check the minimum, set the
        flag and list the rented items. */
    method Rent(id: ItemId, numDays: Option<int>) returns (v: View)
      requires Valid()
      modifies items
      ensures Valid()
      ensures Rental.Transition(items[..], v) == Rental.Rent(old(items[..]), id, numDays)
    {
      ValidIds();
      ghost var before := items[..];
      var position := FindPosition(id);
      if position == -1 {
        return ErrorView(ItemNotFound);
      }
      if numDays.Some? && numDays.value >= items[position].minRental {
        items[position] := items[position].(isRented := true);
        assert items[..] == before[position := before[position].(isRented := true)];
        var rentedItems := GetRentedItems();
        v := CatalogueView(rentedItems);
      } else {
        v := ErrorView(MinimumNotMet);
      }
      Rental.RentKeepsListing(before, id, numDays);
      SameListingTransitive(seed, before, items[..]);
    }

    /** POST /filter: 'rented-items' and 'available-items' select by flag and
        fail when nothing is selected; any other value lists everything. */
    method FilterByStatus(mode: string) returns (v: View)
      ensures mode == "rented-items" ==>
        v == if RentedItems(items[..]) == [] then ErrorView(RentalListEmpty)
             else CatalogueView(RentedItems(items[..]))
      ensures mode == "available-items" ==>
        v == if AvailableItems(items[..]) == [] then ErrorView(NoMoreToRent)
             else CatalogueView(AvailableItems(items[..]))
      ensures mode != "rented-items" && mode != "available-items" ==> v == CatalogueView(items[..])
    {
      if mode == "rented-items" {
        var results := GetRentedItems();
        v := if results != [] then CatalogueView(results) else ErrorView(RentalListEmpty);
      } else if mode == "available-items" {
        var results := GetAvailableItems();
        v := if results != [] then CatalogueView(results) else ErrorView(NoMoreToRent);
      } else {
        v := CatalogueView(items[..]);
      }
    }

    /** POST /return: fail when nothing is rented, otherwise clear every
        flag and list the whole catalogue. */
    method ReturnAll() returns (v: View)
      requires Valid()
      modifies items
      ensures Valid()
      ensures Rental.Transition(items[..], v) == Rental.ReturnAll(old(items[..]))
    {
      ghost var before := items[..];
      var isRentedEmpty := CheckRentedItems();
      if !isRentedEmpty {
        for i := 0 to items.Length
          invariant forall k :: 0 <= k < i ==> items[k] == before[k].(isRented := false)
          invariant forall k :: i <= k < items.Length ==> items[k] == before[k]
        {
          items[i] := items[i].(isRented := false);
        }
        assert items[..] == Rental.ClearAll(before);
        v := CatalogueView(items[..]);
      } else {
        v := ErrorView(NothingToReturn);
      }
      SameListingTransitive(seed, before, items[..]);
    }
  }

  /** Startup followed by three searches: "iphone" finds the iPhone alone,
      "nonexistentword" renders the error page, and "apple pro" lists the
      iPhone and the MacBook for "apple" and the MacBook again for "pro". */
  method SeedSearches(ids: seq<ItemId>) returns (iphone: View, nothing: View, applePro: View)
    requires |ids| == 6 && forall i, j :: 0 <= i < j < 6 ==> ids[i] != ids[j]
    ensures iphone == CatalogueView([SeedItems(ids)[1]])
    ensures nothing == ErrorView(NoItemsFound)
    ensures applePro == CatalogueView([SeedItems(ids)[1], SeedItems(ids)[4], SeedItems(ids)[4]])
  {
    var c := new Catalogue(ids);
    SeedSearchIphone(ids);
    SeedSearchNothing(ids);
    SeedSearchApplePro(ids);
    iphone := c.SearchByKeyword("iphone");
    nothing := c.SearchByKeyword("nonexistentword");
    applePro := c.SearchByKeyword("apple pro");
  }
}
