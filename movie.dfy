/**
 * `handle_movie_request`: "list movies" lists every movie row, "remove movie"
 * deletes all of them, "remove movie <title>" deletes the movie rows whose
 * name equals the title ignoring case (and says so when there are none),
 * "recommend me a(n) <genre> movie" lists the movies whose notes mention the
 * genre, and anything else gets the help text.
 */
module Movie {
  import opened Text
  import opened Table
  import opened Replies
  import MovieQuery

  const Category := "movie"
  const ListCommand := "list movies"
  const RemoveCommand := "remove movie"

  const EmptyListing := "No movies found."
  const ListingHeader := "All movies:"
  const AllRemoved := "All movies removed!"
  const RemovedPrefix := "Removed movie: "
  const NotFoundPrefix := "No movie found matching: "
  const Help :=
    "Not sure what you want to do with movies.\n" +
    "Try:\n" +
    "  'list movies' (to list everything),\n" +
    "  'remove movie' (remove all),\n" +
    "  'remove movie [title]' (remove one),\n" +
    "  'recommend me an action movie' (recommendation)."

  /** Every movie row, of every user. */
  const AllMovies: Filter := [CategoryIs(Category)]

  /** The movie rows whose name equals `title` ignoring case. */
  function Titled(title: string): Filter
  {
    [CategoryIs(Category), NameILike(title)]
  }

  /** The movie rows whose notes mention `genre` ignoring case. */
  function OfGenre(genre: string): Filter
  {
    [CategoryIs(Category), NotesILike(genre)]
  }

  /** The reply to a recommendation for `genre` given the rows found. */
  function GenreReply(genre: string, found: seq<Item>): (r: string)
    ensures found == [] ==> r == "No recommendations found for " + genre + " movies."
    ensures found != [] ==> var h := "Recommended " + genre + " movie(s):";
      |h| < |r| && r[..|h| + 1] == h + "\n"
  {
    ListingReply("No recommendations found for " + genre + " movies.",
                 "Recommended " + genre + " movie(s):", found)
  }

  method HandleMovieRequest(body: string, userId: string, store: ItemStore) returns (reply: string)
    modifies store
    ensures Contains(Lower(body), ListCommand) ==>
      store.rows == old(store.rows) &&
      reply == ListingReply(EmptyListing, ListingHeader, Matching(old(store.rows), AllMovies))
    ensures !Contains(Lower(body), ListCommand) && Contains(Lower(body), RemoveCommand) ==>
      var title := Remainder(Lower(body), RemoveCommand);
      if title == [] then
        store.rows == Kept(old(store.rows), AllMovies) && reply == AllRemoved
      else if Matching(old(store.rows), Titled(title)) == [] then
        store.rows == old(store.rows) && reply == NotFoundPrefix + title
      else
        store.rows == Kept(old(store.rows), Titled(title)) && reply == RemovedPrefix + title
    // Recommendation is tried only past list and remove, and only reads the table.
    ensures (!Contains(Lower(body), ListCommand) && !Contains(Lower(body), RemoveCommand) &&
             MovieQuery.Genre(Lower(body)).Some?) ==>
      var genre := MovieQuery.Genre(Lower(body)).value;
      store.rows == old(store.rows) &&
      reply == GenreReply(genre, Matching(old(store.rows), OfGenre(genre)))
    ensures (!Contains(Lower(body), ListCommand) && !Contains(Lower(body), RemoveCommand) &&
             MovieQuery.Genre(Lower(body)).None?) ==>
      store.rows == old(store.rows) && reply == Help
  {
    var lowerText := Lower(body);

    if Contains(lowerText, ListCommand) {
      var items := store.Select(AllMovies);
      if items == [] {
        return EmptyListing;
      }
      var lines := EnumerateLines(ListingHeader, items, NameOnly);
      return Join(lines, "\n");
    }

    if Contains(lowerText, RemoveCommand) {
      var remainder := Remainder(lowerText, RemoveCommand);
      if remainder == [] {
        store.Delete(AllMovies);
        return AllRemoved;
      } else {
        var matchingItems := store.Select(Titled(remainder));
        if matchingItems != [] {
          store.Delete(Titled(remainder));
          return RemovedPrefix + remainder;
        } else {
          return NotFoundPrefix + remainder;
        }
      }
    }

    var genre := MovieQuery.Genre(lowerText);
    if genre.Some? {
      var items := store.Select(OfGenre(genre.value));
      if items == [] {
        return "No recommendations found for " + genre.value + " movies.";
      } else {
        var lines := EnumerateLines("Recommended " + genre.value + " movie(s):", items, NameOnly);
        return Join(lines, "\n");
      }
    }

    return Help;
  }

  /**
   * The title in "remove movie <title>" selects the movie rows whose name,
   * lower-cased, is the title: "remove movie INCEPTION" and "remove movie
   * inception" both select a row named "Inception".
   */
  lemma TitleIgnoresCase(body: string, x: Item)
    requires Contains(Lower(body), RemoveCommand)
    ensures Matches(Titled(Remainder(Lower(body), RemoveCommand)), x) <==>
      x.category == Category && Lower(x.name) == Remainder(Lower(body), RemoveCommand)
  {
    var title := Remainder(Lower(body), RemoveCommand);
    LowerIsLower(body);
    RemainderIsLower(Lower(body), RemoveCommand);
    LowerFixesLower(title);
    MatchesTwo(CategoryIs(Category), NameILike(title), x);
  }

  /**
   * The title check decides the outcome: some movie row matches exactly when
   * a delete with the same filter removes a row, so "No movie found" is
   * answered exactly when nothing would have been deleted.
   */
  lemma RemovalChecked(rows: seq<Item>, title: string)
    ensures Matching(rows, Titled(title)) == [] <==> Kept(rows, Titled(title)) == rows
    ensures forall x :: x in Kept(rows, Titled(title)) <==>
      x in rows && !(x.category == Category && Lower(x.name) == Lower(title))
  {
    SelectDeletePartition(rows, Titled(title));
    if Matching(rows, Titled(title)) == [] {
      KeptWhenNoneMatch(rows, Titled(title));
    }
    KeptMembers(rows, Titled(title));
    forall x: Item
      ensures Matches(Titled(title), x) <==> x.category == Category && Lower(x.name) == Lower(title)
    {
      MatchesTwo(CategoryIs(Category), NameILike(title), x);
    }
  }

  /** The recommended rows are the movie rows whose notes mention the genre, ignoring case. */
  lemma GenreSelection(rows: seq<Item>, genre: string)
    ensures forall x :: x in Matching(rows, OfGenre(genre)) <==>
      x in rows && x.category == Category && x.notes.Some? &&
      Contains(Lower(x.notes.value), Lower(genre))
  {
    MatchingMembers(rows, OfGenre(genre));
    forall x: Item
      ensures Matches(OfGenre(genre), x) <==>
        x.category == Category && x.notes.Some? && Contains(Lower(x.notes.value), Lower(genre))
    {
      MatchesTwo(CategoryIs(Category), NotesILike(genre), x);
    }
  }
}
