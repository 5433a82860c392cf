/**
 * `handle_grocery_request`: "list" lists every grocery row, "remove grocery"
 * deletes all of them, "remove grocery <name>" deletes the rows with exactly
 * that name, and anything else gets the help text.
 */
module Grocery {
  import opened Text
  import opened Table
  import opened Replies

  const Category := "grocery"
  const ListCommand := "list"
  const RemoveCommand := "remove grocery"

  const EmptyListing := "No grocery items found."
  const ListingHeader := "All grocery items:"
  const AllRemoved := "All grocery items removed!"
  const RemovedPrefix := "Removed grocery item: "
  const Help :=
    "Not sure what you want to do with groceries.\n" +
    "You can say:\n" +
    "  'list groceries' (to list everything),\n" +
    "  'remove grocery' (remove all items),\n" +
    "  or 'remove grocery [item]' (remove a single item)."

  /** Every grocery row, of every user. */
  const AllGroceries: Filter := [CategoryIs(Category)]

  /** The grocery rows whose name is exactly `name`. */
  function NamedGrocery(name: string): Filter
  {
    [CategoryIs(Category), NameIs(name)]
  }

  method HandleGroceryRequest(body: string, userId: string, store: ItemStore) returns (reply: string)
    modifies store
    // "list" anywhere wins, even over "remove grocery"; listing changes nothing.
    ensures Contains(Lower(body), ListCommand) ==>
      store.rows == old(store.rows) &&
      reply == ListingReply(EmptyListing, ListingHeader, Matching(old(store.rows), AllGroceries))
    // Otherwise "remove grocery" deletes all groceries or those named by the remainder.
    ensures !Contains(Lower(body), ListCommand) && Contains(Lower(body), RemoveCommand) ==>
      var name := Remainder(Lower(body), RemoveCommand);
      if name == [] then
        store.rows == Kept(old(store.rows), AllGroceries) && reply == AllRemoved
      else
        store.rows == Kept(old(store.rows), NamedGrocery(name)) && reply == RemovedPrefix + name
    ensures !Contains(Lower(body), ListCommand) && !Contains(Lower(body), RemoveCommand) ==>
      store.rows == old(store.rows) && reply == Help
  {
    var lowerText := Lower(body);

    if Contains(lowerText, ListCommand) {
      var items := store.Select(AllGroceries);
      if items == [] {
        return EmptyListing;
      }
      var lines := EnumerateLines(ListingHeader, items, NameOnly);
      return Join(lines, "\n");
    }

    if Contains(lowerText, RemoveCommand) {
      var remainder := Remainder(lowerText, RemoveCommand);
      if remainder == [] {
        store.Delete(AllGroceries);
        return AllRemoved;
      } else {
        store.Delete(NamedGrocery(remainder));
        return RemovedPrefix + remainder;
      }
    }

    return Help;
  }

  /**
   * Bulk removal deletes every grocery row of every user and keeps every
   * other row; a second bulk removal finds nothing left to delete.
   */
  lemma BulkRemoval(rows: seq<Item>)
    ensures forall x :: x in Kept(rows, AllGroceries) <==> x in rows && x.category != Category
    ensures Kept(Kept(rows, AllGroceries), AllGroceries) == Kept(rows, AllGroceries)
  {
    KeptMembers(rows, AllGroceries);
    forall x: Item
      ensures Matches(AllGroceries, x) <==> x.category == Category
    {
      MatchesOne(CategoryIs(Category), x);
    }
    KeptIdempotent(rows, AllGroceries);
  }

  /**
   * Removal by name deletes exactly the grocery rows whose name equals the
   * remainder; when there are none the table is unchanged (and the reply
   * still reports the removal).
   */
  lemma NamedRemoval(rows: seq<Item>, name: string)
    ensures forall x :: x in Kept(rows, NamedGrocery(name)) <==>
      x in rows && !(x.category == Category && x.name == name)
    ensures (forall x | x in rows :: !(x.category == Category && x.name == name)) ==>
      Kept(rows, NamedGrocery(name)) == rows
  {
    KeptMembers(rows, NamedGrocery(name));
    MatchingMembers(rows, NamedGrocery(name));
    forall x: Item
      ensures Matches(NamedGrocery(name), x) <==> x.category == Category && x.name == name
    {
      MatchesTwo(CategoryIs(Category), NameIs(name), x);
    }
    if forall x | x in rows :: !(x.category == Category && x.name == name) {
      if Matching(rows, NamedGrocery(name)) != [] {
        assert Matching(rows, NamedGrocery(name))[0] in Matching(rows, NamedGrocery(name));
      }
      KeptWhenNoneMatch(rows, NamedGrocery(name));
    }
  }

  /**
   * The name compared against the table is lower-case, like the names the
   * entry path stores, so "remove grocery BANANAS" names the row "bananas".
   */
  lemma RemovedNameIsLower(body: string)
    requires Contains(Lower(body), RemoveCommand)
    ensures IsLower(Remainder(Lower(body), RemoveCommand))
  {
    LowerIsLower(body);
    RemainderIsLower(Lower(body), RemoveCommand);
  }
}
