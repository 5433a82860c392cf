/**
 * `handle_tv_request`: "list tv" (or "list tv shows") lists every tv row,
 * "remove tv" deletes all of them, "remove tv <name>" deletes the rows with
 * exactly that name, "recommend tv" answers with a fixed list of shows, and
 * anything else gets the help text.
 */
module Tv {
  import opened Text
  import opened Table
  import opened Replies

  const Category := "tv"
  const ListCommand := "list tv"
  const ListShowsCommand := "list tv shows"
  const RemoveCommand := "remove tv"
  const RecommendCommand := "recommend tv"

  const EmptyListing := "No TV items found."
  const ListingHeader := "All TV items:"
  const AllRemoved := "All TV items removed!"
  const RemovedPrefix := "Removed TV item: "
  const Recommendations :=
    "Here are a few TV recommendations:\n" +
    "- Breaking Bad\n" +
    "- The Office\n" +
    "- Stranger Things\n"
  const Help :=
    "Not sure what you want to do with TV.\n" +
    "You can say:\n" +
    "  'list tv shows' (to list everything),\n" +
    "  'remove tv' (remove all TV items),\n" +
    "  'remove tv [show]' (remove a single item), or\n" +
    "  'recommend tv' for recommendations."

  /** Every tv row, of every user. */
  const AllShows: Filter := [CategoryIs(Category)]

  /** The tv rows whose name is exactly `name`. */
  function NamedShow(name: string): Filter
  {
    [CategoryIs(Category), NameIs(name)]
  }

  /** The second disjunct of the list test adds nothing: it implies the first. */
  lemma ListTestIsListTv(t: string)
    ensures Contains(t, ListCommand) || Contains(t, ListShowsCommand) <==> Contains(t, ListCommand)
  {
    if Contains(t, ListShowsCommand) {
      assert ListShowsCommand == ListCommand + " shows";
      ContainsPrefixOf(t, ListCommand, " shows");
    }
  }

  method HandleTvRequest(body: string, userId: string, store: ItemStore) returns (reply: string)
    modifies store
    ensures Contains(Lower(body), ListCommand) ==>
      store.rows == old(store.rows) &&
      reply == ListingReply(EmptyListing, ListingHeader, Matching(old(store.rows), AllShows))
    ensures !Contains(Lower(body), ListCommand) && Contains(Lower(body), RemoveCommand) ==>
      var name := Remainder(Lower(body), RemoveCommand);
      if name == [] then
        store.rows == Kept(old(store.rows), AllShows) && reply == AllRemoved
      else
        store.rows == Kept(old(store.rows), NamedShow(name)) && reply == RemovedPrefix + name
    // The fixed recommendation needs no table access and is reached only past list and remove.
    ensures (!Contains(Lower(body), ListCommand) && !Contains(Lower(body), RemoveCommand) &&
             Contains(Lower(body), RecommendCommand)) ==>
      store.rows == old(store.rows) && reply == Recommendations
    ensures (!Contains(Lower(body), ListCommand) && !Contains(Lower(body), RemoveCommand) &&
             !Contains(Lower(body), RecommendCommand)) ==>
      store.rows == old(store.rows) && reply == Help
  {
    var lowerText := Lower(body);
    ListTestIsListTv(lowerText);

    if Contains(lowerText, ListCommand) || Contains(lowerText, ListShowsCommand) {
      var items := store.Select(AllShows);
      if items == [] {
        return EmptyListing;
      }
      var lines := EnumerateLines(ListingHeader, items, NameOnly);
      return Join(lines, "\n");
    }

    if Contains(lowerText, RemoveCommand) {
      var remainder := Remainder(lowerText, RemoveCommand);
      if remainder == [] {
        store.Delete(AllShows);
        return AllRemoved;
      } else {
        store.Delete(NamedShow(remainder));
        return RemovedPrefix + remainder;
      }
    }

    if Contains(lowerText, RecommendCommand) {
      return Recommendations;
    }

    return Help;
  }

  /** Bulk removal deletes every tv row of every user and keeps every other row. */
  lemma BulkRemoval(rows: seq<Item>)
    ensures forall x :: x in Kept(rows, AllShows) <==> x in rows && x.category != Category
    ensures multiset(rows) == multiset(Matching(rows, AllShows)) + multiset(Kept(rows, AllShows))
  {
    KeptMembers(rows, AllShows);
    forall x: Item
      ensures Matches(AllShows, x) <==> x.category == Category
    {
      MatchesOne(CategoryIs(Category), x);
    }
    SelectDeletePartition(rows, AllShows);
  }

  /** Removal by name deletes exactly the tv rows whose name equals the remainder. */
  lemma NamedRemoval(rows: seq<Item>, name: string)
    ensures forall x :: x in Kept(rows, NamedShow(name)) <==>
      x in rows && !(x.category == Category && x.name == name)
  {
    KeptMembers(rows, NamedShow(name));
    forall x: Item
      ensures Matches(NamedShow(name), x) <==> x.category == Category && x.name == name
    {
      MatchesTwo(CategoryIs(Category), NameIs(name), x);
    }
  }
}
