/**
 * `handle_restaurant_request`: "list" lists every restaurant row, "remove
 * restaurant" deletes all of them, "remove restaurant <name>" deletes the rows
 * with exactly that name, "recommend" looks for the preferences "fancy",
 * "quiet" and "relaxed" and lists the restaurants whose notes mention them,
 * and anything else gets the help text.
 */
module Restaurant {
  import opened Text
  import opened Table
  import opened Replies

  const Category := "restaurant"
  const ListCommand := "list"
  const RemoveCommand := "remove restaurant"
  const RecommendCommand := "recommend"

  /** The preferences recognised in a recommendation request, in the order they are checked. */
  const Preferences: seq<string> := ["fancy", "quiet", "relaxed"]

  const EmptyListing := "No restaurant items found."
  const ListingHeader := "All restaurant items:"
  const AllRemoved := "All restaurant items removed!"
  const RemovedPrefix := "Removed restaurant item: "
  const NeedPreference :=
    "We need a preference to recommend a restaurant. " +
    "For example: 'recommend a fancy place'."
  const NoMatchPrefix := "No restaurants found matching your preference(s): "
  const Help :=
    "Not sure what you want to do with restaurants.\n" +
    "You can say:\n" +
    "  'list restaurants' (to list everything),\n" +
    "  'remove restaurant' (remove all items),\n" +
    "  'remove restaurant [item]' (remove a single item),\n" +
    "  or 'recommend a fancy place' for a naive recommendation."

  /** Every restaurant row, of every user. */
  const AllRestaurants: Filter := [CategoryIs(Category)]

  /** The restaurant rows whose name is exactly `name`. */
  function NamedRestaurant(name: string): Filter
  {
    [CategoryIs(Category), NameIs(name)]
  }

  /** The restaurant rows whose notes mention `keyword` ignoring case. */
  function Noting(keyword: string): Filter
  {
    [CategoryIs(Category), NotesILike(keyword)]
  }

  // ---------------------------------------------------------------------------
  // Preferences

  /** The members of `known` that occur in `t`, in the order of `known`. */
  function PresentIn(t: string, known: seq<string>): seq<string>
  {
    if known == [] then []
    else (if Contains(t, known[0]) then [known[0]] else []) + PresentIn(t, known[1..])
  }

  /** `a` is `b` with some elements left out. */
  predicate IsSubsequence(a: seq<string>, b: seq<string>)
    decreases |b|
  {
    if b == [] then a == []
    else (a != [] && a[0] == b[0] && IsSubsequence(a[1..], b[1..])) || IsSubsequence(a, b[1..])
  }

  lemma {:induction false} PresentInSpec(t: string, known: seq<string>)
    ensures forall k :: k in PresentIn(t, known) <==> k in known && Contains(t, k)
    ensures IsSubsequence(PresentIn(t, known), known)
  {
    if known != [] {
      PresentInSpec(t, known[1..]);
      assert known == [known[0]] + known[1..];
      var rest := PresentIn(t, known[1..]);
      if Contains(t, known[0]) {
        var p := [known[0]] + rest;
        assert p[0] == known[0] && p[1..] == rest;
      } else {
        assert PresentIn(t, known) == [] + rest == rest;
      }
    }
  }

  /** The preferences named in the request: the three `if ... in lower_text` tests. */
  method ExtractKeywords(t: string) returns (keywords: seq<string>)
    ensures keywords == PresentIn(t, Preferences)
    ensures forall k :: k in keywords <==> k in Preferences && Contains(t, k)
    ensures IsSubsequence(keywords, Preferences)
  {
    keywords := [];
    if Contains(t, "fancy") {
      keywords := keywords + ["fancy"];
    }
    if Contains(t, "quiet") {
      keywords := keywords + ["quiet"];
    }
    if Contains(t, "relaxed") {
      keywords := keywords + ["relaxed"];
    }
    PresentInPreferences(t);
    PresentInSpec(t, Preferences);
  }

  /** The three tests, one per preference, in order. */
  lemma PresentInPreferences(t: string)
    ensures PresentIn(t, Preferences) ==
      (if Contains(t, "fancy") then ["fancy"] else []) +
      (if Contains(t, "quiet") then ["quiet"] else []) +
      (if Contains(t, "relaxed") then ["relaxed"] else [])
  {
    var relaxed := (if Contains(t, "relaxed") then ["relaxed"] else []);
    var quiet := (if Contains(t, "quiet") then ["quiet"] else []);
    assert Preferences[1..] == ["quiet", "relaxed"];
    assert Preferences[1..][1..] == ["relaxed"];
    assert Preferences[1..][1..][1..] == [];
    assert PresentIn(t, ["relaxed"]) == relaxed + PresentIn(t, []) == relaxed;
    assert PresentIn(t, ["quiet", "relaxed"]) == quiet + relaxed;
  }

  // ---------------------------------------------------------------------------
  // Recommendations

  /** The rows found for each keyword in turn, concatenated. */
  function RecommendedFor(rows: seq<Item>, keywords: seq<string>): seq<Item>
    decreases |keywords|
  {
    if keywords == [] then []
    else RecommendedFor(rows, keywords[..|keywords| - 1]) + Matching(rows, Noting(keywords[|keywords| - 1]))
  }

  /** How many of the keywords the row `x` is found for. */
  function Hits(keywords: seq<string>, x: Item): nat
    decreases |keywords|
  {
    if keywords == [] then 0
    else Hits(keywords[..|keywords| - 1], x) + (if Matches(Noting(keywords[|keywords| - 1]), x) then 1 else 0)
  }

  /** The loop over the keywords that extends `recommended_items` with each query's rows. */
  method CollectRecommendations(store: ItemStore, keywords: seq<string>) returns (found: seq<Item>)
    ensures found == RecommendedFor(store.rows, keywords)
  {
    found := [];
    for i := 0 to |keywords|
      invariant found == RecommendedFor(store.rows, keywords[..i])
    {
      assert keywords[..i + 1][..i] == keywords[..i];
      var results := store.Select(Noting(keywords[i]));
      if results != [] {
        found := found + results;
      }
    }
    assert keywords[..|keywords|] == keywords;
  }

  /**
   * A row is recommended once per matching keyword: its count in the result
   * is its count in the table times the number of keywords its notes mention.
   */
  lemma {:induction false} RecommendedMultiplicity(rows: seq<Item>, keywords: seq<string>, x: Item)
    ensures multiset(RecommendedFor(rows, keywords))[x] == multiset(rows)[x] * Hits(keywords, x)
    decreases |keywords|
  {
    if keywords != [] {
      var init := keywords[..|keywords| - 1];
      var f := Noting(keywords[|keywords| - 1]);
      RecommendedMultiplicity(rows, init, x);
      MatchingMultiplicity(rows, f, x);
      RecommendedForLast(rows, keywords, x);
      MultiplicityStep(multiset(RecommendedFor(rows, keywords))[x],
                       multiset(RecommendedFor(rows, init))[x],
                       multiset(rows)[x], Hits(init, x), Hits(keywords, x));
    } else {
      MultiplicityStep(0, 0, multiset(rows)[x], 0, 0);
    }
  }

  lemma RecommendedForLast(rows: seq<Item>, keywords: seq<string>, x: Item)
    requires keywords != []
    ensures var init := keywords[..|keywords| - 1];
      var f := Noting(keywords[|keywords| - 1]);
      multiset(RecommendedFor(rows, keywords))[x] ==
        multiset(RecommendedFor(rows, init))[x] + multiset(Matching(rows, f))[x] &&
      Hits(keywords, x) == Hits(init, x) + (if Matches(f, x) then 1 else 0)
  {
  }

  /** One more keyword adds `m` copies of the row exactly when it adds one hit. */
  lemma MultiplicityStep(total: int, before: int, m: int, h: int, hits: int)
    requires before == m * h
    requires (hits == h && total == before) || (hits == h + 1 && total == before + m)
    ensures total == m * hits
  {
  }

  /** Found for a keyword means: a restaurant row whose notes mention it, ignoring case. */
  lemma NotingSpec(keyword: string, x: Item)
    ensures Matches(Noting(keyword), x) <==>
      x.category == Category && x.notes.Some? && Contains(Lower(x.notes.value), Lower(keyword))
  {
    MatchesTwo(CategoryIs(Category), NotesILike(keyword), x);
  }

  function Header(count: nat): string
  {
    "Recommended restaurants (found " + NatToString(count) + " matches):"
  }

  /** The reply to a recommendation request that named at least one preference. */
  function RecommendationReply(keywords: seq<string>, found: seq<Item>): (r: string)
    ensures found == [] ==> r == NoMatchPrefix + Join(keywords, ", ")
    ensures found != [] ==> |Header(|found|)| < |r| && r[..|Header(|found|)| + 1] == Header(|found|) + "\n"
  {
    if found == [] then NoMatchPrefix + Join(keywords, ", ")
    else
      EnumeratedJoinStart(Header(|found|), found, NameWithNotes);
      Join(Enumerated(Header(|found|), found, NameWithNotes), "\n")
  }

  /** The count in the header is the number of numbered lines that follow it. */
  lemma HeaderCount(keywords: seq<string>, found: seq<Item>)
    requires found != []
    ensures RecommendationReply(keywords, found) == Join(Enumerated(Header(|found|), found, NameWithNotes), "\n")
    ensures |Enumerated(Header(|found|), found, NameWithNotes)| == |found| + 1
    ensures DigitsValue(NatToString(|found|)) == |found|
  {
    EnumeratedShape(Header(|found|), found, NameWithNotes);
    NatToStringRoundTrip(|found|);
  }

  // ---------------------------------------------------------------------------
  // The handler

  method HandleRestaurantRequest(body: string, userId: string, store: ItemStore) returns (reply: string)
    modifies store
    ensures Contains(Lower(body), ListCommand) ==>
      store.rows == old(store.rows) &&
      reply == ListingReply(EmptyListing, ListingHeader, Matching(old(store.rows), AllRestaurants))
    ensures !Contains(Lower(body), ListCommand) && Contains(Lower(body), RemoveCommand) ==>
      var name := Remainder(Lower(body), RemoveCommand);
      if name == [] then
        store.rows == Kept(old(store.rows), AllRestaurants) && reply == AllRemoved
      else
        store.rows == Kept(old(store.rows), NamedRestaurant(name)) && reply == RemovedPrefix + name
    // Recommendation only reads the table, and only once a preference is named.
    ensures (!Contains(Lower(body), ListCommand) && !Contains(Lower(body), RemoveCommand) &&
             Contains(Lower(body), RecommendCommand)) ==>
      var keywords := PresentIn(Lower(body), Preferences);
      store.rows == old(store.rows) &&
      reply == if keywords == [] then NeedPreference
               else RecommendationReply(keywords, RecommendedFor(old(store.rows), keywords))
    ensures (!Contains(Lower(body), ListCommand) && !Contains(Lower(body), RemoveCommand) &&
             !Contains(Lower(body), RecommendCommand)) ==>
      store.rows == old(store.rows) && reply == Help
  {
    var lowerText := Lower(body);

    if Contains(lowerText, ListCommand) {
      var items := store.Select(AllRestaurants);
      if items == [] {
        return EmptyListing;
      }
      var lines := EnumerateLines(ListingHeader, items, NameOnly);
      return Join(lines, "\n");
    }

    if Contains(lowerText, RemoveCommand) {
      var remainder := Remainder(lowerText, RemoveCommand);
      if remainder == [] {
        store.Delete(AllRestaurants);
        return AllRemoved;
      } else {
        store.Delete(NamedRestaurant(remainder));
        return RemovedPrefix + remainder;
      }
    }

    if Contains(lowerText, RecommendCommand) {
      var keywords := ExtractKeywords(lowerText);
      if keywords == [] {
        return NeedPreference;
      }
      var recommendedItems := CollectRecommendations(store, keywords);
      if recommendedItems != [] {
        var lines := EnumerateLines(Header(|recommendedItems|), recommendedItems, NameWithNotes);
        return Join(lines, "\n");
      } else {
        return NoMatchPrefix + Join(keywords, ", ");
      }
    }

    return Help;
  }

  /** Bulk removal deletes every restaurant row of every user and keeps every other row. */
  lemma BulkRemoval(rows: seq<Item>)
    ensures forall x :: x in Kept(rows, AllRestaurants) <==> x in rows && x.category != Category
  {
    KeptMembers(rows, AllRestaurants);
    forall x: Item
      ensures Matches(AllRestaurants, x) <==> x.category == Category
    {
      MatchesOne(CategoryIs(Category), x);
    }
  }

  /** Removal by name deletes exactly the restaurant rows whose name equals the remainder. */
  lemma NamedRemoval(rows: seq<Item>, name: string)
    ensures forall x :: x in Kept(rows, NamedRestaurant(name)) <==>
      x in rows && !(x.category == Category && x.name == name)
  {
    KeptMembers(rows, NamedRestaurant(name));
    forall x: Item
      ensures Matches(NamedRestaurant(name), x) <==> x.category == Category && x.name == name
    {
      MatchesTwo(CategoryIs(Category), NameIs(name), x);
    }
  }
}
