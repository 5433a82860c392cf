/**
 * The numbered replies the handlers build: a header line followed by one
 * `i. name` line per row, numbered from 1 in the order the rows came back,
 * joined with newlines.
 */
module Replies {
  import opened Wrappers
  import opened Text
  import opened Table

  /** Listings show only the name; restaurant recommendations add the notes. */
  datatype LineStyle = NameOnly | NameWithNotes

  /** How an f-string renders a notes value; `None` is Python's rendering of a NULL column. */
  function NotesText(notes: Option<string>): string
  {
    match notes
    case Some(n) => n
    case None => "None"
  }

  /** The line for the row at 1-based position `i`. */
  function EntryLine(style: LineStyle, i: nat, x: Item): string
  {
    match style
    case NameOnly => NatToString(i) + ". " + x.name
    case NameWithNotes => NatToString(i) + ". " + x.name + " (notes: " + NotesText(x.notes) + ")"
  }

  /** The `response_lines` list: the header, then one numbered line per row. */
  function Enumerated(header: string, rows: seq<Item>, style: LineStyle): seq<string>
    decreases |rows|
  {
    if rows == [] then [header]
    else Enumerated(header, rows[..|rows| - 1], style) + [EntryLine(style, |rows|, rows[|rows| - 1])]
  }

  lemma {:induction false} EnumeratedShape(header: string, rows: seq<Item>, style: LineStyle)
    ensures |Enumerated(header, rows, style)| == |rows| + 1
    ensures Enumerated(header, rows, style)[0] == header
    ensures forall i | 1 <= i <= |rows| :: Enumerated(header, rows, style)[i] == EntryLine(style, i, rows[i - 1])
    decreases |rows|
  {
    if rows != [] {
      var init := rows[..|rows| - 1];
      EnumeratedShape(header, init, style);
      var lines := Enumerated(header, rows, style);
      assert lines == Enumerated(header, init, style) + [EntryLine(style, |rows|, rows[|rows| - 1])];
      forall i | 1 <= i <= |rows|
        ensures lines[i] == EntryLine(style, i, rows[i - 1])
      {
        if i < |rows| {
          assert init[i - 1] == rows[i - 1];
        }
      }
    }
  }

  /**
   * The `for i, item in enumerate(items, start=1)` loop that appends one line
   * per row to `response_lines`.
   */
  method EnumerateLines(header: string, rows: seq<Item>, style: LineStyle) returns (lines: seq<string>)
    ensures lines == Enumerated(header, rows, style)
    ensures |lines| == |rows| + 1 && lines[0] == header
    ensures forall i | 1 <= i <= |rows| :: lines[i] == EntryLine(style, i, rows[i - 1])
  {
    lines := [header];
    for i := 0 to |rows|
      invariant lines == Enumerated(header, rows[..i], style)
    {
      assert rows[..i + 1][..i] == rows[..i];
      lines := lines + [EntryLine(style, i + 1, rows[i])];
    }
    assert rows[..|rows|] == rows;
    EnumeratedShape(header, rows, style);
  }

  /** Joined, the numbered lines of a non-empty listing begin with the header and a line break. */
  lemma EnumeratedJoinStart(header: string, rows: seq<Item>, style: LineStyle)
    requires rows != []
    ensures var r := Join(Enumerated(header, rows, style), "\n");
      |header| < |r| && r[..|header| + 1] == header + "\n"
  {
    var lines := Enumerated(header, rows, style);
    EnumeratedShape(header, rows, style);
    var rest := Join(lines[1..], "\n");
    assert Join(lines, "\n") == header + "\n" + rest;
    assert (header + "\n" + rest)[..|header| + 1] == header + "\n";
  }

  /** The list reply: `empty` when there are no rows, else the numbered lines joined by "\n". */
  function ListingReply(empty: string, header: string, rows: seq<Item>): (r: string)
    ensures rows == [] ==> r == empty
    ensures rows != [] ==> |header| < |r| && r[..|header| + 1] == header + "\n"
  {
    if rows == [] then empty
    else
      EnumeratedJoinStart(header, rows, NameOnly);
      Join(Enumerated(header, rows, NameOnly), "\n")
  }

  /**
   * When neither the header nor any name contains a newline, the reply to a
   * non-empty listing has exactly one more line than there are rows, and the
   * line after the header at position i names row i.
   */
  lemma ListingLines(empty: string, header: string, rows: seq<Item>)
    requires rows != []
    requires '\n' !in header
    requires forall i | 0 <= i < |rows| :: '\n' !in rows[i].name
    ensures Split(ListingReply(empty, header, rows), '\n') == Enumerated(header, rows, NameOnly)
    ensures |Split(ListingReply(empty, header, rows), '\n')| == |rows| + 1
  {
    var lines := Enumerated(header, rows, NameOnly);
    EnumeratedShape(header, rows, NameOnly);
    forall k | 0 <= k < |lines|
      ensures '\n' !in lines[k]
    {
      if k > 0 {
        var d := NatToString(k);
        assert lines[k] == d + ". " + rows[k - 1].name;
        assert '\n' !in d;
      }
    }
    SplitJoin(lines, '\n');
  }
}
