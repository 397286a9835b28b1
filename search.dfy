/** What the keyword search computes: for each space-separated token in
    turn, every item whose lowercased name contains the lowercased token,
    in catalogue order. Results are concatenated token by token and are not
    deduplicated. */
module Search {
  import opened Items
  import opened Text

  /** The search's test: the lowercased name includes the lowercased token. */
  function MatchesToken(x: Item, token: string): bool
  {
    Contains(Lower(x.name), Lower(token))
  }

  /** What one pass of the inner loop pushes: the items matching one token. */
  function Matching(s: seq<Item>, token: string): seq<Item>
  {
    Filter(s, (x: Item) => MatchesToken(x, token))
  }

  /** What the two nested loops push, tokens in the outer loop and items in
      the inner one. */
  function SearchMatches(s: seq<Item>, tokens: seq<string>): seq<Item>
  {
    if tokens == [] then []
    else SearchMatches(s, tokens[..|tokens| - 1]) + Matching(s, tokens[|tokens| - 1])
  }

  /** One step of the inner loop. */
  lemma MatchingStep(s: seq<Item>, j: nat, token: string)
    requires j < |s|
    ensures Matching(s[..j + 1], token) ==
            Matching(s[..j], token) + (if MatchesToken(s[j], token) then [s[j]] else [])
  {
    FilterStep(s, j, (x: Item) => MatchesToken(x, token));
  }

  /** One step of the outer loop. */
  lemma SearchStep(s: seq<Item>, tokens: seq<string>, i: nat)
    requires i < |tokens|
    ensures SearchMatches(s, tokens[..i + 1]) == SearchMatches(s, tokens[..i]) + Matching(s, tokens[i])
  {
    assert tokens[..i + 1][..i] == tokens[..i];
  }

  /** The number of tokens an item's name matches. */
  function MatchCount(x: Item, tokens: seq<string>): nat
  {
    if tokens == [] then 0
    else MatchCount(x, tokens[..|tokens| - 1]) + (if MatchesToken(x, tokens[|tokens| - 1]) then 1 else 0)
  }

  /** The items matching one token are exactly the catalogue's matching items,
      kept in catalogue order, each as often as it occurs in the catalogue. */
  lemma MatchingCharacterized(s: seq<Item>, token: string, x: Item)
    ensures x in Matching(s, token) <==> x in s && MatchesToken(x, token)
    ensures IsSubsequence(Matching(s, token), s)
    ensures multiset(Matching(s, token))[x] == if MatchesToken(x, token) then multiset(s)[x] else 0
  {
    var p := (y: Item) => MatchesToken(y, token);
    assert p(x) == MatchesToken(x, token);
    FilterIsSubsequence(s, p);
    FilterMultiplicity(s, p, x);
  }

  /** Results are token-major: the results for a list of tokens followed by
      another are the first list's results followed by the second's. */
  lemma {:induction false} SearchAppend(s: seq<Item>, a: seq<string>, b: seq<string>)
    ensures SearchMatches(s, a + b) == SearchMatches(s, a) + SearchMatches(s, b)
    decreases |b|
  {
    if b == [] {
      assert a + b == a;
    } else {
      var b' := b[..|b| - 1];
      assert (a + b)[..|a + b| - 1] == a + b';
      assert (a + b)[|a + b| - 1] == b[|b| - 1];
      SearchAppend(s, a, b');
    }
  }

  /** The result for a single token is that token's matching items. */
  lemma SearchSingle(s: seq<Item>, token: string)
    ensures SearchMatches(s, [token]) == Matching(s, token)
  {
    assert [token][..0] == [];
  }

  /** Every item in the result is a catalogue item matching some token. */
  lemma {:induction false} SearchMemberSound(s: seq<Item>, tokens: seq<string>, x: Item)
    requires x in SearchMatches(s, tokens)
    ensures x in s && exists k :: 0 <= k < |tokens| && MatchesToken(x, tokens[k])
  {
    var init, last := tokens[..|tokens| - 1], tokens[|tokens| - 1];
    MatchingCharacterized(s, last, x);
    if x in SearchMatches(s, init) {
      SearchMemberSound(s, init, x);
      var k :| 0 <= k < |init| && MatchesToken(x, init[k]);
      assert tokens[k] == init[k];
    } else {
      assert MatchesToken(x, tokens[|tokens| - 1]);
    }
  }

  /** Every catalogue item matching some token is in the result. */
  lemma {:induction false} SearchMemberComplete(s: seq<Item>, tokens: seq<string>, x: Item, k: int)
    requires x in s && 0 <= k < |tokens| && MatchesToken(x, tokens[k])
    ensures x in SearchMatches(s, tokens)
  {
    var init, last := tokens[..|tokens| - 1], tokens[|tokens| - 1];
    if k == |tokens| - 1 {
      MatchingCharacterized(s, last, x);
    } else {
      assert init[k] == tokens[k];
      SearchMemberComplete(s, init, x, k);
    }
  }

  /** OR across tokens: an item appears in the result exactly when it is in
      the catalogue and its name matches at least one token. */
  lemma SearchMember(s: seq<Item>, tokens: seq<string>, x: Item)
    ensures x in SearchMatches(s, tokens) <==>
            x in s && exists k :: 0 <= k < |tokens| && MatchesToken(x, tokens[k])
  {
    if x in SearchMatches(s, tokens) {
      SearchMemberSound(s, tokens, x);
    }
    if x in s && exists k :: 0 <= k < |tokens| && MatchesToken(x, tokens[k]) {
      var k :| 0 <= k < |tokens| && MatchesToken(x, tokens[k]);
      SearchMemberComplete(s, tokens, x, k);
    }
  }

  /** One entry per matching (token, item) pair: an item occurs in the result
      as many times as it occurs in the catalogue times the number of tokens
      it matches. */
  lemma {:induction false} SearchMultiplicity(s: seq<Item>, tokens: seq<string>, x: Item)
    ensures multiset(SearchMatches(s, tokens))[x] == multiset(s)[x] * MatchCount(x, tokens)
  {
    if tokens != [] {
      var init, last := tokens[..|tokens| - 1], tokens[|tokens| - 1];
      var earlier, now := SearchMatches(s, init), Matching(s, last);
      assert SearchMatches(s, tokens) == earlier + now;
      assert multiset(earlier + now)[x] == multiset(earlier)[x] + multiset(now)[x];
      SearchMultiplicity(s, init, x);
      MatchingCharacterized(s, last, x);
      MultiplyStep(multiset(s)[x], MatchCount(x, init), if MatchesToken(x, last) then 1 else 0);
    }
  }

  lemma MultiplyStep(m: nat, c: nat, d: nat)
    requires d <= 1
    ensures m * (c + d) == m * c + (if d == 1 then m else 0)
  {
  }

  /** In a catalogue with distinct ids every item occurs once. */
  lemma {:induction false} DistinctOccursOnce(s: seq<Item>, x: Item)
    requires DistinctIds(s) && x in s
    ensures multiset(s)[x] == 1
  {
    var init, last := s[..|s| - 1], s[|s| - 1];
    assert s == init + [last];
    assert DistinctIds(init);
    if x == last {
      assert x !in init;
    } else {
      DistinctOccursOnce(init, x);
    }
  }

  /** On the catalogue, each item occurs once per token it matches. */
  lemma SearchCountsPairs(s: seq<Item>, tokens: seq<string>, x: Item)
    requires DistinctIds(s) && x in s
    ensures multiset(SearchMatches(s, tokens))[x] == MatchCount(x, tokens)
  {
    SearchMultiplicity(s, tokens, x);
    DistinctOccursOnce(s, x);
  }

  /** The empty token is contained in every name, so it matches every item. */
  lemma EmptyTokenMatchesAll(s: seq<Item>)
    ensures Matching(s, "") == s
  {
    var p := (y: Item) => MatchesToken(y, "");
    forall y | y in s ensures p(y) {
      ContainsEmpty(Lower(y.name));
    }
    FilterKeepsAll(s, p);
  }

  /** An empty keyword splits into one empty token and lists the whole catalogue. */
  lemma EmptyKeywordListsAll(s: seq<Item>)
    ensures SearchMatches(s, Split("")) == s
  {
    SearchSingle(s, "");
    EmptyTokenMatchesAll(s);
  }

  /** A doubled space in the keyword leaves an empty token, so every item is
      in the result. */
  lemma DoubledSpaceListsAll(s: seq<Item>, keyword: string, i: nat, x: Item)
    requires i + 1 < |keyword| && keyword[i] == ' ' && keyword[i + 1] == ' '
    requires x in s
    ensures x in SearchMatches(s, Split(keyword))
  {
    var tokens := Split(keyword);
    DoubledSpaceEmptyPiece(keyword, i);
    var k :| 0 <= k < |tokens[1..]| && tokens[1..][k] == "";
    assert tokens[k + 1] == "";
    ContainsEmpty(Lower(x.name));
    SearchMemberComplete(s, tokens, x, k + 1);
  }

  /** The search reports "No items found!" exactly when no (token, item)
      pair matches. */
  lemma SearchEmptyIff(s: seq<Item>, tokens: seq<string>)
    ensures SearchMatches(s, tokens) == [] <==>
            forall k, j :: 0 <= k < |tokens| && 0 <= j < |s| ==> !MatchesToken(s[j], tokens[k])
  {
    if SearchMatches(s, tokens) != [] {
      var x := SearchMatches(s, tokens)[0];
      SearchMember(s, tokens, x);
      var k :| 0 <= k < |tokens| && MatchesToken(x, tokens[k]);
      var j :| 0 <= j < |s| && s[j] == x;
      assert MatchesToken(s[j], tokens[k]);
    } else {
      forall k, j | 0 <= k < |tokens| && 0 <= j < |s| ensures !MatchesToken(s[j], tokens[k]) {
        SearchMember(s, tokens, s[j]);
      }
    }
  }

  /** The search ignores the case of the keyword. */
  lemma SearchIgnoresKeywordCase(x: Item, token: string)
    ensures MatchesToken(x, Lower(token)) == MatchesToken(x, token)
  {
    LowerIdempotent(token);
  }

  /** When only the item at position `j` matches the token, one inner-loop
      pass pushes exactly that item. */
  lemma {:induction false} MatchingOnlyAt(s: seq<Item>, token: string, j: nat)
    requires j < |s|
    requires forall k :: 0 <= k < |s| ==> (MatchesToken(s[k], token) <==> k == j)
    ensures Matching(s, token) == [s[j]]
  {
    var init := s[..|s| - 1];
    assert s == init + [s[|s| - 1]];
    if j == |s| - 1 {
      forall x | x in init ensures !MatchesToken(x, token) {
        var k :| 0 <= k < |init| && init[k] == x;
        assert s[k] == x;
      }
      FilterEmpty(init, x => MatchesToken(x, token));
    } else {
      MatchingOnlyAt(init, token, j);
    }
  }

  /** When only the items at positions `i` and `j` match the token, one
      inner-loop pass pushes exactly those two, in catalogue order. */
  lemma MatchingOnlyAtTwo(s: seq<Item>, token: string, i: nat, j: nat)
    requires i < j < |s|
    requires forall k :: 0 <= k < |s| ==> (MatchesToken(s[k], token) <==> k == i || k == j)
    ensures Matching(s, token) == [s[i], s[j]]
  {
    assert s == s[..j] + s[j..];
    FilterAppend(s[..j], s[j..], x => MatchesToken(x, token));
    MatchingOnlyAt(s[..j], token, i);
    MatchingOnlyAt(s[j..], token, 0);
  }

  // ---------------------------------------------------------------------
  // Searches on the seed catalogue
  // ---------------------------------------------------------------------

  /** How each example token fares against each seed item's name: an
      occurrence is exhibited, or a letter of the token that the name lacks,
      or one that the name has at a single position where the rest of the
      token does not fit. */
  lemma IphoneInAcer(x: Item)
    requires x.name == "Acer A4581 Laptop"
    ensures !MatchesToken(x, "iphone")
  {
    LowerNoUpper("iphone");
    MissingLetter(x.name, "iphone", 'i');
  }

  lemma IphoneInIphone(x: Item)
    requires x.name == "Apple iPhone 14 Plus"
    ensures MatchesToken(x, "iphone")
  {
    LowerNoUpper("iphone");
    FoundAt(x.name, "iphone", 6);
  }

  lemma IphoneInPixel(x: Item)
    requires x.name == "Google Pixel Phone"
    ensures !MatchesToken(x, "iphone")
  {
    LowerNoUpper("iphone");
    LoneLetter(x.name, "iphone", 0, 8, 1);
  }

  lemma IphoneInHeadphone(x: Item)
    requires x.name == "JBL Headphone"
    ensures !MatchesToken(x, "iphone")
  {
    LowerNoUpper("iphone");
    MissingLetter(x.name, "iphone", 'i');
  }

  lemma IphoneInMacBook(x: Item)
    requires x.name == "Apple MacBook Pro 13\""
    ensures !MatchesToken(x, "iphone")
  {
    LowerNoUpper("iphone");
    MissingLetter(x.name, "iphone", 'i');
  }

  lemma IphoneInFlipPhone(x: Item)
    requires x.name == "Samsung Flip Phone"
    ensures !MatchesToken(x, "iphone")
  {
    LowerNoUpper("iphone");
    LoneLetter(x.name, "iphone", 0, 10, 2);
  }

  lemma AppleInAcer(x: Item)
    requires x.name == "Acer A4581 Laptop"
    ensures !MatchesToken(x, "apple")
  {
    LowerNoUpper("apple");
    LoneLetter(x.name, "apple", 4, 2, 0);
  }

  lemma AppleInIphone(x: Item)
    requires x.name == "Apple iPhone 14 Plus"
    ensures MatchesToken(x, "apple")
  {
    LowerNoUpper("apple");
    FoundAt(x.name, "apple", 0);
  }

  lemma AppleInPixel(x: Item)
    requires x.name == "Google Pixel Phone"
    ensures !MatchesToken(x, "apple")
  {
    LowerNoUpper("apple");
    MissingLetter(x.name, "apple", 'a');
  }

  lemma AppleInHeadphone(x: Item)
    requires x.name == "JBL Headphone"
    ensures !MatchesToken(x, "apple")
  {
    LowerNoUpper("apple");
    LoneLetter(x.name, "apple", 0, 6, 1);
  }

  lemma AppleInMacBook(x: Item)
    requires x.name == "Apple MacBook Pro 13\""
    ensures MatchesToken(x, "apple")
  {
    LowerNoUpper("apple");
    FoundAt(x.name, "apple", 0);
  }

  lemma AppleInFlipPhone(x: Item)
    requires x.name == "Samsung Flip Phone"
    ensures !MatchesToken(x, "apple")
  {
    LowerNoUpper("apple");
    LoneLetter(x.name, "apple", 0, 1, 1);
  }

  lemma ProInAcer(x: Item)
    requires x.name == "Acer A4581 Laptop"
    ensures !MatchesToken(x, "pro")
  {
    LowerNoUpper("pro");
    LoneLetter(x.name, "pro", 1, 3, 0);
  }

  lemma ProInIphone(x: Item)
    requires x.name == "Apple iPhone 14 Plus"
    ensures !MatchesToken(x, "pro")
  {
    LowerNoUpper("pro");
    MissingLetter(x.name, "pro", 'r');
  }

  lemma ProInPixel(x: Item)
    requires x.name == "Google Pixel Phone"
    ensures !MatchesToken(x, "pro")
  {
    LowerNoUpper("pro");
    MissingLetter(x.name, "pro", 'r');
  }

  lemma ProInHeadphone(x: Item)
    requires x.name == "JBL Headphone"
    ensures !MatchesToken(x, "pro")
  {
    LowerNoUpper("pro");
    MissingLetter(x.name, "pro", 'r');
  }

  lemma ProInMacBook(x: Item)
    requires x.name == "Apple MacBook Pro 13\""
    ensures MatchesToken(x, "pro")
  {
    LowerNoUpper("pro");
    FoundAt(x.name, "pro", 14);
  }

  lemma ProInFlipPhone(x: Item)
    requires x.name == "Samsung Flip Phone"
    ensures !MatchesToken(x, "pro")
  {
    LowerNoUpper("pro");
    MissingLetter(x.name, "pro", 'r');
  }

  lemma NonexistentInAcer(x: Item)
    requires x.name == "Acer A4581 Laptop"
    ensures !MatchesToken(x, "nonexistentword")
  {
    LowerNoUpper("nonexistentword");
    MissingLetter(x.name, "nonexistentword", 'w');
  }

  lemma NonexistentInIphone(x: Item)
    requires x.name == "Apple iPhone 14 Plus"
    ensures !MatchesToken(x, "nonexistentword")
  {
    LowerNoUpper("nonexistentword");
    MissingLetter(x.name, "nonexistentword", 'w');
  }

  lemma NonexistentInPixel(x: Item)
    requires x.name == "Google Pixel Phone"
    ensures !MatchesToken(x, "nonexistentword")
  {
    LowerNoUpper("nonexistentword");
    MissingLetter(x.name, "nonexistentword", 'w');
  }

  lemma NonexistentInHeadphone(x: Item)
    requires x.name == "JBL Headphone"
    ensures !MatchesToken(x, "nonexistentword")
  {
    LowerNoUpper("nonexistentword");
    MissingLetter(x.name, "nonexistentword", 'w');
  }

  lemma NonexistentInMacBook(x: Item)
    requires x.name == "Apple MacBook Pro 13\""
    ensures !MatchesToken(x, "nonexistentword")
  {
    LowerNoUpper("nonexistentword");
    MissingLetter(x.name, "nonexistentword", 'w');
  }

  lemma NonexistentInFlipPhone(x: Item)
    requires x.name == "Samsung Flip Phone"
    ensures !MatchesToken(x, "nonexistentword")
  {
    LowerNoUpper("nonexistentword");
    MissingLetter(x.name, "nonexistentword", 'w');
  }

  lemma IphoneOnSeed(ids: seq<ItemId>)
    requires |ids| == 6
    ensures forall k :: 0 <= k < 6 ==> (MatchesToken(SeedItems(ids)[k], "iphone") <==> k == 1)
  {
    var s := SeedItems(ids);
    IphoneInAcer(s[0]);
    IphoneInIphone(s[1]);
    IphoneInPixel(s[2]);
    IphoneInHeadphone(s[3]);
    IphoneInMacBook(s[4]);
    IphoneInFlipPhone(s[5]);
  }

  lemma AppleOnSeed(ids: seq<ItemId>)
    requires |ids| == 6
    ensures forall k :: 0 <= k < 6 ==> (MatchesToken(SeedItems(ids)[k], "apple") <==> k == 1 || k == 4)
  {
    var s := SeedItems(ids);
    AppleInAcer(s[0]);
    AppleInIphone(s[1]);
    AppleInPixel(s[2]);
    AppleInHeadphone(s[3]);
    AppleInMacBook(s[4]);
    AppleInFlipPhone(s[5]);
  }

  lemma ProOnSeed(ids: seq<ItemId>)
    requires |ids| == 6
    ensures forall k :: 0 <= k < 6 ==> (MatchesToken(SeedItems(ids)[k], "pro") <==> k == 4)
  {
    var s := SeedItems(ids);
    ProInAcer(s[0]);
    ProInIphone(s[1]);
    ProInPixel(s[2]);
    ProInHeadphone(s[3]);
    ProInMacBook(s[4]);
    ProInFlipPhone(s[5]);
  }

  lemma NonexistentOnSeed(ids: seq<ItemId>)
    requires |ids| == 6
    ensures forall k :: 0 <= k < 6 ==> !MatchesToken(SeedItems(ids)[k], "nonexistentword")
  {
    var s := SeedItems(ids);
    NonexistentInAcer(s[0]);
    NonexistentInIphone(s[1]);
    NonexistentInPixel(s[2]);
    NonexistentInHeadphone(s[3]);
    NonexistentInMacBook(s[4]);
    NonexistentInFlipPhone(s[5]);
  }

  /** Searching the seed catalogue for "iphone" finds exactly the iPhone. */
  lemma SeedSearchIphone(ids: seq<ItemId>)
    requires |ids| == 6
    ensures SearchMatches(SeedItems(ids), Split("iphone")) == [SeedItems(ids)[1]]
  {
    var s := SeedItems(ids);
    IphoneOnSeed(ids);
    SplitJoin(["iphone"]);
    SearchSingle(s, "iphone");
    MatchingOnlyAt(s, "iphone", 1);
  }

  /** No seed name includes "nonexistentword", so that search finds nothing. */
  lemma SeedSearchNothing(ids: seq<ItemId>)
    requires |ids| == 6
    ensures SearchMatches(SeedItems(ids), Split("nonexistentword")) == []
  {
    NonexistentOnSeed(ids);
    SplitJoin(["nonexistentword"]);
    SearchEmptyIff(SeedItems(ids), ["nonexistentword"]);
  }

  /** "apple pro" is the two tokens "apple" and "pro"; the iPhone matches the
      first, the MacBook both, so the MacBook is listed twice. */
  lemma SeedSearchApplePro(ids: seq<ItemId>)
    requires |ids| == 6
    ensures Split("apple pro") == ["apple", "pro"]
    ensures var s := SeedItems(ids);
      SearchMatches(s, Split("apple pro")) == [s[1], s[4], s[4]]
  {
    AppleOnSeed(ids);
    ProOnSeed(ids);
    SplitJoin(["apple", "pro"]);
    assert Join(["apple", "pro"]) == "apple pro";
    var s := SeedItems(ids);
    SearchAppend(s, ["apple"], ["pro"]);
    assert ["apple"] + ["pro"] == ["apple", "pro"];
    SearchSingle(s, "apple");
    SearchSingle(s, "pro");
    MatchingOnlyAtTwo(s, "apple", 1, 4);
    MatchingOnlyAt(s, "pro", 4);
  }
}
