# SMS category handlers

A model of the four category handlers of an SMS list assistant: groceries,
TV, movies and restaurants. Each handler receives the text of an SMS and
lower-cases it. It then picks one branch by an ordered chain of substring tests
(for movies, a regular expression search): list first, then remove, then
recommend, then a help text. The chosen branch reads or deletes rows of the
shared `items` table and returns the reply text.

The project is organised as follows:

- `wrappers.dfy`: `Option`.
- `text.dfy` (module `Text`): the Python string operations the handlers use.
  - ASCII `lower()` and substring search (`in`).
  - `split(p, 1)[1]`.
  - `strip()`, with the full `str.isspace()` character set.
  - `"\n".join` with its inverse `split`.
  - `str(n)` for naturals.
- `table.dfy` (module `Table`): the `items` table and its query builder.
  - Rows are `Item` values.
  - A query's filter is a conjunction of `.eq` and `.ilike` conditions.
  - `ItemStore` is a class whose `rows` field is the table.
  - `Select` returns the rows satisfying the filter, in table order.
  - `Delete` removes exactly those rows.
- `replies.dfy` (module `Replies`): the numbered replies. `EnumerateLines` is the `enumerate(..., start=1)` loop that builds `response_lines`.
- `movie_query.dfy` (module `MovieQuery`): the search for `recommend me a?n?\s+(.*?)\s+movie`. It is a backtracking search in the order Python's engine tries alternatives. It is proved to agree with a declarative definition of a match. It finds a match exactly when one exists. The match it finds is the preferred one, which is unique: it starts leftmost; among matches with that start, its first `\s+` run is longest, so its group starts latest; among those, its group is the shortest.
- `grocery.dfy`, `tv.dfy`, `movie.dfy`, `restaurant.dfy`: one method per handler.
  - It takes the body, the user id and the store, and returns the reply.
  - Its contract gives, for each branch, the reply and the new table as functions of the lower-cased body and the old table.
  - Lemmas beside it state which rows a removal deletes and keeps, and which rows a recommendation returns.

## Model

| member | source | states |
|---|---|---|
| Grocery.HandleGroceryRequest | agents/grocery.py:3-59 | "list" anywhere wins, even over "remove grocery": the table is unchanged and the reply is "No grocery items found." or the numbered listing of the grocery rows. Otherwise "remove grocery" with an empty stripped remainder deletes the grocery rows and replies "All grocery items removed!". With a non-empty remainder it deletes the grocery rows named exactly that and replies "Removed grocery item: <remainder>". Any other body gets the help text and the table is unchanged. |
| Grocery.BulkRemoval | agents/grocery.py:32-39 | After bulk removal a row remains exactly when it was in the table and is not a grocery row, whoever owns it. A second bulk removal leaves the table as the first left it. |
| Grocery.NamedRemoval | agents/grocery.py:40-50 | A named removal keeps exactly the rows that are not grocery rows with that exact name. When no row has that name the table is unchanged, although the reply still reports the removal. |
| Grocery.RemovedNameIsLower | agents/grocery.py:31-44 | The name compared against the table is lower-case, because the body is lower-cased before the remainder is taken. |
| Tv.ListTestIsListTv | agents/tv.py:14 | The test `"list tv" in t or "list tv shows" in t` holds exactly when "list tv" occurs. The second disjunct is subsumed. |
| Tv.HandleTvRequest | agents/tv.py:3-67 | "list tv" lists the tv rows ("No TV items found." when there are none) and leaves the table unchanged. Otherwise "remove tv" deletes all tv rows ("All TV items removed!") or the tv rows named exactly the remainder ("Removed TV item: <remainder>"). Otherwise "recommend tv" returns the fixed three-show text with the table unchanged. Any other body gets the help text. |
| Tv.BulkRemoval | agents/tv.py:29-39 | Bulk removal keeps exactly the non-tv rows. The old table is, as a multiset, the deleted rows plus the kept rows. |
| Tv.NamedRemoval | agents/tv.py:40-48 | A named removal keeps exactly the rows that are not tv rows with exactly that name. |
| Movie.HandleMovieRequest | agents/movie.py:4-83 | The branches are tried in the order list, remove, recommend, help. "list movies" lists the movie rows and leaves the table unchanged. "remove movie" with an empty remainder deletes all movie rows. With a title, if no movie row's name matches it ignoring case, nothing is deleted and the reply is "No movie found matching: <title>". Otherwise exactly those rows are deleted and the reply is "Removed movie: <title>". When the pattern matches, the reply lists the movie rows whose notes mention the genre, or says none were found, and the table is unchanged. Otherwise the reply is the help text. |
| Movie.TitleIgnoresCase | agents/movie.py:40-45 | A movie row matches the title exactly when its lower-cased name equals the title, so "remove movie INCEPTION" selects "Inception". |
| Movie.RemovalChecked | agents/movie.py:41-54 | The select finds no row exactly when the delete with the same filter would leave the table unchanged. The delete keeps exactly the rows that are not movies whose name equals the title ignoring case. |
| Movie.GenreReply | agents/movie.py:67-73 | With no rows found the reply is "No recommendations found for <genre> movies.". Otherwise it begins with "Recommended <genre> movie(s):" and a line break. |
| Movie.GenreSelection | agents/movie.py:61-65 | The rows recommended are the movie rows whose notes are present and contain the genre, ignoring case. |
| MovieQuery.SearchCorrect | agents/movie.py:57 | The search finds nothing exactly when no span matches the pattern. When it finds a match, that match is the preferred one: it satisfies the pattern and starts at or before every other match. Among matches with the same start, none has a later group start. Among those with the same group start too, none has a shorter group. |
| MovieQuery.PreferredUnique | agents/movie.py:57 | Two preferred matches are the same span, so the preference rule fixes the group. |
| MovieQuery.MatchAtGreedy | agents/movie.py:57 | Among all matches at a start position, the one found there has the latest group start. Among those with its group start, it has the shortest group. |
| MovieQuery.Search | agents/movie.py:57 | `re.search` returns the match at the first start position that has one, and nothing when no start position has one. |
| MovieQuery.Genre | agents/movie.py:57-59 | Recommendation fires exactly when the pattern matches somewhere in the text. The genre is the stripped group of the preferred match. |
| MovieQuery.SearchFrom | agents/movie.py:57 | The scan over start positions returns the match at the first start position where one exists, and nothing when no start position from `p` on has one. |
| MovieQuery.MatchAtSound | agents/movie.py:57 | A match found at a start position satisfies the pattern, and its group is the shortest one for its group start. |
| MovieQuery.MatchAtComplete | agents/movie.py:57 | Wherever the pattern matches, the backtracking search at that start position finds a match. |
| MovieQuery.TailAtIff | agents/movie.py:57 | The greedy `\s+` followed by "movie" succeeds at a position exactly when some run of whitespace there is followed by "movie". |
| MovieQuery.LazyEnd | agents/movie.py:57 | The lazy group ends at the first position, moving right without crossing a newline, after which `\s+movie` matches. When there is no such position, none exists before the next newline. |
| MovieQuery.GreedyWs | agents/movie.py:57 | Trying the `\s+` run lengths longest first yields a group start from which the lazy group succeeds, and no later group start within the run leads to a match. When none does, no group start and end within the run can match. |
| MovieQuery.PrefixEnds | agents/movie.py:57 | The positions where `a?n?` may end are exactly the ends of "", "a", "n" and "an" at that point. |
| MovieQuery.TryGaps | agents/movie.py:57 | Trying the `a?n?` ends in engine order yields one of them with a group that matches, shortest from its group start. When none does, the rest of the pattern fails from every end. |
| MovieQuery.TryGapsFirstGap | agents/movie.py:57 | With the ends tried in decreasing order, the end chosen is the largest from which the rest of the pattern matches. |
| MovieQuery.TryGapsLongestRun | agents/movie.py:57 | From the end chosen, no longer whitespace run leads to a match. |
| MovieQuery.OptANBeforeWhitespace | agents/movie.py:57 | A whitespace character lies beyond whatever `a?n?` consumed, because "a" and "n" are not whitespace. |
| MovieQuery.ActionExample | agents/movie.py:57-59 | The help text's example "recommend me an action movie" yields the genre "action". |
| Restaurant.ExtractKeywords | agents/restaurant.py:50-56 | The keywords are those of "fancy", "quiet" and "relaxed" that occur in the text, in that fixed order. The result is a subsequence of that list, and a word is in it exactly when it occurs. |
| Restaurant.PresentInSpec | agents/restaurant.py:50-56 | Filtering a list of known words by occurrence keeps exactly the words that occur, as a subsequence of the list. |
| Restaurant.CollectRecommendations | agents/restaurant.py:64-73 | The loop over the keywords yields the concatenation, in keyword order, of each keyword's query results. Appending only non-empty results changes nothing. |
| Restaurant.RecommendedMultiplicity | agents/restaurant.py:64-73 | A row occurs in the recommendations as often as it occurs in the table, times the number of keywords its notes mention. A row matching two keywords is listed twice. |
| Restaurant.NotingSpec | agents/restaurant.py:67-71 | A keyword query returns the restaurant rows whose notes are present and contain the keyword, ignoring case. |
| Restaurant.RecommendationReply | agents/restaurant.py:75-84 | With no rows found the reply is "No restaurants found matching your preference(s): " and the keywords joined by ", ". Otherwise it begins with the header that counts the matches, and a line break. |
| Restaurant.HeaderCount | agents/restaurant.py:75-82 | With matches, the reply is the header and one numbered line per match. The count printed in the header reads back as the number of matches. |
| Restaurant.HandleRestaurantRequest | agents/restaurant.py:3-94 | "list" anywhere lists the restaurant rows with the table unchanged. Otherwise "remove restaurant" deletes all restaurant rows or those named exactly the remainder, always reporting success. Otherwise "recommend" with no preference word replies with the preference request. With preferences it replies with the recommendations, or with "No restaurants found matching your preference(s): " and the keywords joined by ", ". The table is unchanged in both. Any other body gets the help text. |
| Restaurant.BulkRemoval | agents/restaurant.py:32-37 | Bulk removal keeps exactly the non-restaurant rows. |
| Restaurant.NamedRemoval | agents/restaurant.py:38-45 | A named removal keeps exactly the rows that are not restaurant rows with exactly that name. |
| Replies.EnumerateLines | agents/grocery.py:22-26 | The loop builds the header followed by, at position i, the line `i. name` of the i-th row, numbered from 1 in table order. There is one more line than there are rows. |
| Replies.EnumeratedShape | agents/tv.py:23-25 | The numbered lines have length rows + 1. Line 0 is the header and line i describes row i - 1. |
| Replies.ListingReply | agents/grocery.py:19-26 | With no rows the reply is the empty-table message. Otherwise it begins with the header and a line break. |
| Replies.EnumeratedJoinStart | agents/grocery.py:22-26 | The joined numbered lines begin with the header and a line break. |
| Replies.ListingLines | agents/grocery.py:19-26 | For a non-empty listing whose header and names contain no newline, splitting the reply at newlines gives back the header and the numbered lines. The reply therefore has one line more than there are rows. |
| Table.ItemStore.Select | agents/grocery.py:14-17 | A select returns the rows satisfying every condition of the filter, in table order, and leaves the table alone. |
| Table.ItemStore.Delete | agents/grocery.py:35-38 | A delete leaves in the table exactly the rows that do not satisfy the filter, in their old order. |
| Table.MatchingMembers | agents/movie.py:41-45 | A row is selected exactly when it is in the table and satisfies the filter. |
| Table.KeptMembers | agents/grocery.py:45-49 | A row survives a delete exactly when it was in the table and does not satisfy the filter. |
| Table.MatchingMultiplicity | agents/restaurant.py:67-71 | A selected row appears as often as in the table, and a row not satisfying the filter does not appear. |
| Table.SelectDeletePartition | agents/movie.py:41-51 | Select and delete with the same filter split the table: as multisets the table is the selected rows plus the kept rows, and the lengths add up. |
| Table.KeptWhenNoneMatch | agents/movie.py:46-54 | A delete whose filter selects nothing leaves the table as it was. |
| Table.KeptIdempotent | agents/grocery.py:35-38 | Repeating a delete changes nothing further, and afterwards the filter selects nothing. |
| Table.KeptNarrower | agents/grocery.py:45-49 | Adding a condition to a delete never removes a row the shorter filter keeps, so a named removal never removes a row that bulk removal would keep. |
| Text.Lower | agents/grocery.py:10 | Lower-casing keeps the length and maps each character through the ASCII lower-case mapping. |
| Text.LowerIsLower | agents/grocery.py:10 | The result of lower-casing is lower-case, and lower-casing twice is lower-casing once. |
| Text.LowerFixesLower | agents/movie.py:44 | Lower-casing leaves a lower-case string as it is. |
| Text.IndexFrom | agents/grocery.py:13 | The search returns the first position at or after `from` where the pattern occurs, or nothing when it occurs nowhere from there. |
| Text.ContainsIff | agents/grocery.py:13 | `pat in s` holds exactly when `pat` occurs at some position of `s`. |
| Text.ContainsPrefixOf | agents/tv.py:14 | A text containing `p + q` also contains `p`. |
| Text.After | agents/grocery.py:31 | `s.split(pat, 1)[1]` is what follows the first occurrence of `pat`: the text equals the part before it, `pat`, and the result. |
| Text.Strip | agents/grocery.py:31 | `strip()` returns a slice of the text with only whitespace before and after it, beginning and ending with non-whitespace. It is empty exactly when the text is all whitespace. |
| Text.Remainder | agents/grocery.py:31-33 | The remainder is empty exactly when only whitespace follows the command. It is no longer than what follows the command. |
| Text.RemainderIsLower | agents/grocery.py:31 | The remainder of a lower-case text is lower-case. |
| Text.SplitJoin | agents/grocery.py:26 | Splitting `"\n".join(lines)` at newlines gives back the lines when none of them contains a newline. |
| Text.NatToStringRoundTrip | agents/restaurant.py:77 | The decimal rendering of a count reads back as the same count. |

## Left out

- `embeddings.py` and `main.py` are not part of this model. They are an offline embedding backfill and the web app set-up: network calls, environment secrets and floating point.
- The database client is an in-memory table. The order in which the database returns rows is taken to be table order, and queries cannot fail.
- `lower()` is modelled on the ASCII letters only. Unicode case mapping is not modelled.
- `ilike("name", remainder)` is treated as case-insensitive equality and `ilike("notes", "%kw%")` as case-insensitive substring search. Pattern characters that the user types inside the text are not interpreted: the SQL wildcards `%` and `_`, PostgREST's `*` (read as `%` in `like` and `ilike`), and the `\` escape.
- Reads are not observable in this model. The statement that the TV recommendation and the restaurant branch without preferences never touch the table is modelled as "the table is unchanged".
- The user id parameter is accepted and ignored, as in the source. Every query spans all users.
- `item.get("notes", "N/A")` is modelled as the notes column rendered by the f-string: a NULL column prints as "None". The "N/A" default never applies, because `select("*")` always returns the column.
- Only the one regular expression the movie handler uses is modelled, as a dedicated search. Python's general regex engine is not.
- The grocery, TV and restaurant removals compare names exactly with `.eq` and always report success, as the code does. The code is followed here rather than a case-insensitive policy that reports when nothing matched, which only the movie handler implements.
- Grocery.HandleGroceryRequest, Tv.HandleTvRequest, Movie.HandleMovieRequest and Restaurant.HandleRestaurantRequest state the listing reply through `ListingReply`, the numbered lines joined with "\n". The line-by-line reading of that reply is stated separately by `Replies.ListingLines`, and it needs names without newlines.
- Each handler call is modelled as running alone and at once. In `agents/movie.py:41-51` the select and the delete are separate queries, so another request could change the table between them. Such interleaving is not modelled.
