/**
 * The shared `items` table and the part of the query builder the handlers
 * use: a filter is a conjunction of `.eq(...)` and `.ilike(...)` conditions,
 * `select` returns the rows that satisfy it in table order, and `delete`
 * removes exactly those rows.
 */
module Table {
  import opened Wrappers
  import opened Text

  /** One row of `items` (the columns the handlers read or filter on). */
  datatype Item = Item(userId: string, category: string, name: string, notes: Option<string>)

  /** One condition of a query. */
  datatype Cond =
    | CategoryIs(category: string)   // .eq("category", c)
    | NameIs(name: string)           // .eq("name", n)
    | NameILike(pattern: string)     // .ilike("name", p): case-insensitive equality
    | NotesILike(needle: string)     // .ilike("notes", f"%{k}%"): case-insensitive substring

  type Filter = seq<Cond>

  predicate Holds(c: Cond, x: Item)
  {
    match c
    case CategoryIs(k) => x.category == k
    case NameIs(n) => x.name == n
    case NameILike(p) => Lower(x.name) == Lower(p)
    // A NULL notes column never satisfies ILIKE.
    case NotesILike(k) => x.notes.Some? && Contains(Lower(x.notes.value), Lower(k))
  }

  predicate Matches(f: Filter, x: Item)
  {
    forall c | c in f :: Holds(c, x)
  }

  lemma MatchesOne(c: Cond, x: Item)
    ensures Matches([c], x) <==> Holds(c, x)
  {
    assert c in [c];
  }

  lemma MatchesTwo(c: Cond, d: Cond, x: Item)
    ensures Matches([c, d], x) <==> Holds(c, x) && Holds(d, x)
  {
    assert c in [c, d] && d in [c, d];
  }

  /** The rows a `select` with filter `f` returns, in table order. */
  function Matching(rows: seq<Item>, f: Filter): seq<Item>
  {
    if rows == [] then []
    else (if Matches(f, rows[0]) then [rows[0]] else []) + Matching(rows[1..], f)
  }

  /** The rows a `delete` with filter `f` leaves, in table order. */
  function Kept(rows: seq<Item>, f: Filter): seq<Item>
  {
    if rows == [] then []
    else (if Matches(f, rows[0]) then [] else [rows[0]]) + Kept(rows[1..], f)
  }

  lemma {:induction false} MatchingMembers(rows: seq<Item>, f: Filter)
    ensures forall x :: x in Matching(rows, f) <==> x in rows && Matches(f, x)
  {
    if rows != [] {
      MatchingMembers(rows[1..], f);
      assert rows == [rows[0]] + rows[1..];
    }
  }

  lemma {:induction false} KeptMembers(rows: seq<Item>, f: Filter)
    ensures forall x :: x in Kept(rows, f) <==> x in rows && !Matches(f, x)
  {
    if rows != [] {
      KeptMembers(rows[1..], f);
      assert rows == [rows[0]] + rows[1..];
    }
  }

  /** A selected row appears as often as it does in the table; other rows not at all. */
  lemma {:induction false} MatchingMultiplicity(rows: seq<Item>, f: Filter, x: Item)
    ensures multiset(Matching(rows, f))[x] == if Matches(f, x) then multiset(rows)[x] else 0
  {
    if rows != [] {
      MatchingMultiplicity(rows[1..], f, x);
      assert rows == [rows[0]] + rows[1..];
    }
  }

  /** Every row is either selected or kept, never both nor neither. */
  lemma {:induction false} SelectDeletePartition(rows: seq<Item>, f: Filter)
    ensures multiset(rows) == multiset(Matching(rows, f)) + multiset(Kept(rows, f))
    ensures |rows| == |Matching(rows, f)| + |Kept(rows, f)|
  {
    if rows != [] {
      SelectDeletePartition(rows[1..], f);
      assert rows == [rows[0]] + rows[1..];
    }
  }

  /** A delete that matches no row leaves the table as it was. */
  lemma {:induction false} KeptWhenNoneMatch(rows: seq<Item>, f: Filter)
    requires Matching(rows, f) == []
    ensures Kept(rows, f) == rows
  {
    if rows != [] {
      KeptWhenNoneMatch(rows[1..], f);
      assert rows == [rows[0]] + rows[1..];
    }
  }

  /** Repeating a delete changes nothing more. */
  lemma {:induction false} KeptIdempotent(rows: seq<Item>, f: Filter)
    ensures Kept(Kept(rows, f), f) == Kept(rows, f)
    ensures Matching(Kept(rows, f), f) == []
  {
    if rows != [] {
      KeptIdempotent(rows[1..], f);
      var rest := Kept(rows[1..], f);
      if !Matches(f, rows[0]) {
        var k := [rows[0]] + rest;
        assert k[0] == rows[0] && k[1..] == rest;
        assert Kept(k, f) == [rows[0]] + Kept(rest, f);
        assert Matching(k, f) == Matching(rest, f);
      } else {
        assert Kept(rows, f) == [] + rest == rest;
      }
    }
  }

  /** Adding a condition to a delete only keeps more rows. */
  lemma {:induction false} KeptNarrower(rows: seq<Item>, f: Filter, c: Cond)
    ensures forall x :: x in Kept(rows, f) ==> x in Kept(rows, f + [c])
  {
    KeptMembers(rows, f);
    KeptMembers(rows, f + [c]);
    forall x | x in Kept(rows, f)
      ensures x in Kept(rows, f + [c])
    {
      var d :| d in f && !Holds(d, x);
      assert d in f + [c];
    }
  }

  /** The `items` table as the handlers see it through the client. */
  class ItemStore {
    var rows: seq<Item>

    constructor (initial: seq<Item>)
      ensures rows == initial
    {
      rows := initial;
    }

    /** `.select("*")` with the filter's conditions; does not change the table. */
    method Select(f: Filter) returns (found: seq<Item>)
      ensures found == Matching(rows, f)
    {
      found := Matching(rows, f);
    }

    /** `.delete()` with the filter's conditions. */
    method Delete(f: Filter)
      modifies this
      ensures rows == Kept(old(rows), f)
    {
      rows := Kept(rows, f);
    }
  }
}
