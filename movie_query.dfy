/**
 * `re.search(r"recommend me a?n?\s+(.*?)\s+movie", text)` for the one pattern
 * the movie handler uses, written as the backtracking search Python's regex
 * engine performs: the leftmost start first; at a start, `a?` and `n?` try
 * the letter before the empty match, `\s+` tries the longest run first, and
 * the lazy group `(.*?)` (which never spans a newline) tries the shortest
 * capture first. The search is proved to agree with a declarative
 * description of what a match is.
 */
module MovieQuery {
  import opened Wrappers
  import opened Text

  const Lead := "recommend me "
  const Word := "movie"

  /**
   * A match: `Lead` begins at `start`; the optional "a" and "n" occupy
   * `[start + |Lead|, gap)`; the first `\s+` occupies `[gap, capStart)`; the
   * group is `[capStart, capEnd)`; then `\s+movie` follows.
   */
  datatype Span = Span(start: nat, gap: nat, capStart: nat, capEnd: nat)

  predicate NoNewlineIn(s: string, i: nat, j: nat)
    requires i <= j <= |s|
  {
    forall k | i <= k < j :: s[k] != '\n'
  }

  /** `s[q..g]` is one of "", "a", "n", "an": what `a?n?` can consume. */
  predicate OptAN(s: string, q: nat, g: nat)
  {
    q <= g <= |s| &&
    (g == q ||
     (g == q + 1 && (s[q] == 'a' || s[q] == 'n')) ||
     (g == q + 2 && s[q] == 'a' && s[q + 1] == 'n'))
  }

  /** `\s+movie` matches at position `e`. */
  ghost predicate WordAfterWs(s: string, e: nat)
  {
    exists f: nat :: e < f <= |s| && WhitespaceBetween(s, e, f) && OccursAt(s, Word, f)
  }

  /** The pattern matches with the given positions. */
  ghost predicate IsMatch(s: string, m: Span)
  {
    m.start + |Lead| <= m.gap < m.capStart <= m.capEnd <= |s| &&
    OccursAt(s, Lead, m.start) &&
    OptAN(s, m.start + |Lead|, m.gap) &&
    WhitespaceBetween(s, m.gap, m.capStart) &&
    NoNewlineIn(s, m.capStart, m.capEnd) &&
    WordAfterWs(s, m.capEnd)
  }

  // ---------------------------------------------------------------------------
  // The backtracking search

  /** Length of the longest whitespace run starting at `i`. */
  function WsRun(s: string, i: nat): (n: nat)
    requires i <= |s|
    ensures i + n <= |s| && WhitespaceBetween(s, i, i + n)
    ensures i + n == |s| || !IsWhitespace(s[i + n])
    decreases |s| - i
  {
    if i < |s| && IsWhitespace(s[i]) then 1 + WsRun(s, i + 1) else 0
  }

  /** `\s+movie` at `e`, as the engine checks it (greedy run, then the word). */
  predicate TailAt(s: string, e: nat)
    requires e <= |s|
  {
    var n := WsRun(s, e);
    n > 0 && OccursAt(s, Word, e + n)
  }

  lemma TailAtIff(s: string, e: nat)
    requires e <= |s|
    ensures TailAt(s, e) <==> WordAfterWs(s, e)
  {
    var n := WsRun(s, e);
    if WordAfterWs(s, e) {
      var f: nat :| e < f <= |s| && WhitespaceBetween(s, e, f) && OccursAt(s, Word, f);
      assert s[f] == Word[0];
      VisibleNotWhitespace(s[f]);
      assert e + n == f;
    }
  }

  /** The lazy group from `c`: the first end, moving right, where the rest matches. */
  function LazyEnd(s: string, c: nat, e: nat): (r: Option<nat>)
    requires c <= e <= |s| && NoNewlineIn(s, c, e)
    requires forall y | c <= y < e :: !TailAt(s, y)
    ensures r.Some? ==> e <= r.value <= |s| && NoNewlineIn(s, c, r.value) && TailAt(s, r.value)
    ensures r.Some? ==> forall y | c <= y < r.value :: !TailAt(s, y)
    ensures r.None? ==> forall y | c <= y <= |s| && NoNewlineIn(s, c, y) :: !TailAt(s, y)
    decreases |s| - e
  {
    if TailAt(s, e) then Some(e)
    else if e < |s| && s[e] != '\n' then LazyEnd(s, c, e + 1)
    else
      assert forall y | e < y <= |s| :: !NoNewlineIn(s, c, y) by {
        forall y | e < y <= |s| ensures !NoNewlineIn(s, c, y) {
          if e < |s| { assert s[e] == '\n'; }
        }
      }
      None
  }

  /** `\s+` from `gap`, trying the run lengths `len`, `len - 1`, ..., 1. */
  function GreedyWs(s: string, gap: nat, len: nat): (r: Option<(nat, nat)>)
    requires gap + len <= |s| && WhitespaceBetween(s, gap, gap + len)
    ensures r.Some? ==> var (c, e) := r.value;
      gap < c <= gap + len && c <= e <= |s| && WhitespaceBetween(s, gap, c) &&
      NoNewlineIn(s, c, e) && TailAt(s, e) &&
      (forall y | c <= y < e :: !TailAt(s, y))
    // No longer run, that is no later group start within the run, leads to a match.
    ensures r.Some? ==> forall c, e | r.value.0 < c <= gap + len && c <= e <= |s| && NoNewlineIn(s, c, e) :: !TailAt(s, e)
    ensures r.None? ==> forall c, e | gap < c <= gap + len && c <= e <= |s| && NoNewlineIn(s, c, e) :: !TailAt(s, e)
    decreases len
  {
    if len == 0 then None
    else
      match LazyEnd(s, gap + len, gap + len)
      case Some(e) => Some((gap + len, e))
      case None => GreedyWs(s, gap, len - 1)
  }

  /** Where `n?` can end after `g`: past an "n" first, then without it. */
  function OptNEnds(s: string, g: nat): seq<nat>
    requires g <= |s|
  {
    if g < |s| && s[g] == 'n' then [g + 1, g] else [g]
  }

  /** Where `a?n?` can end after `q`, in the order the engine tries them. */
  function PrefixEnds(s: string, q: nat): (ends: seq<nat>)
    requires q <= |s|
    ensures forall g :: g in ends <==> OptAN(s, q, g)
  {
    (if q < |s| && s[q] == 'a' then OptNEnds(s, q + 1) else []) + OptNEnds(s, q)
  }

  /** `a?n?` tries its longer consumptions first. */
  lemma PrefixEndsDecreasing(s: string, q: nat)
    requires q <= |s|
    ensures var ends := PrefixEnds(s, q); forall i, j | 0 <= i < j < |ends| :: ends[j] < ends[i]
  {
  }

  /** No way of matching `\s+(.*?)\s+movie` starts at `g`. */
  ghost predicate GapFails(s: string, g: nat)
  {
    forall c, e | g < c <= e <= |s| && WhitespaceBetween(s, g, c) && NoNewlineIn(s, c, e) :: !TailAt(s, e)
  }

  /** Every whitespace run from `g` lies within the longest one. */
  lemma WithinRun(s: string, g: nat)
    requires g <= |s|
    ensures forall c | g < c <= |s| && WhitespaceBetween(s, g, c) :: c <= g + WsRun(s, g)
  {
  }

  /** The first end of `a?n?` (in engine order) from which the rest matches. */
  function TryGaps(s: string, p: nat, gaps: seq<nat>): (r: Option<Span>)
    requires forall g | g in gaps :: g <= |s|
    ensures r.Some? ==> r.value.start == p && r.value.gap in gaps
    ensures r.Some? ==> var m := r.value;
      m.gap < m.capStart <= m.capEnd <= |s| && WhitespaceBetween(s, m.gap, m.capStart) &&
      NoNewlineIn(s, m.capStart, m.capEnd) && TailAt(s, m.capEnd) &&
      (forall y | m.capStart <= y < m.capEnd :: !TailAt(s, y))
    ensures r.None? ==> forall g | g in gaps :: GapFails(s, g)
    decreases |gaps|
  {
    if gaps == [] then None
    else
      var g := gaps[0];
      assert g in gaps;
      assert forall x | x in gaps[1..] :: x in gaps;
      match GreedyWs(s, g, WsRun(s, g))
      case Some((c, e)) => Some(Span(p, g, c, e))
      case None =>
        WithinRun(s, g);
        TryGaps(s, p, gaps[1..])
  }

  /** The group found by `TryGaps` starts after the longest whitespace run that leads to a match. */
  lemma {:induction false} TryGapsLongestRun(s: string, p: nat, gaps: seq<nat>)
    requires forall g | g in gaps :: g <= |s|
    requires TryGaps(s, p, gaps).Some?
    ensures var m := TryGaps(s, p, gaps).value;
      forall c, e | m.capStart < c <= e <= |s| && WhitespaceBetween(s, m.gap, c) && NoNewlineIn(s, c, e) :: !TailAt(s, e)
    decreases |gaps|
  {
    var g := gaps[0];
    assert g in gaps;
    assert forall x | x in gaps[1..] :: x in gaps;
    WithinRun(s, g);
    if GreedyWs(s, g, WsRun(s, g)).None? {
      TryGapsLongestRun(s, p, gaps[1..]);
    }
  }

  /**
   * With the ends of `a?n?` in decreasing order, as the engine tries them, the end
   * `TryGaps` settles on is the largest from which the rest matches.
   */
  lemma {:induction false} TryGapsFirstGap(s: string, p: nat, gaps: seq<nat>)
    requires forall g | g in gaps :: g <= |s|
    requires forall i, j | 0 <= i < j < |gaps| :: gaps[j] < gaps[i]
    requires TryGaps(s, p, gaps).Some?
    ensures forall g | g in gaps && !GapFails(s, g) :: g <= TryGaps(s, p, gaps).value.gap
    decreases |gaps|
  {
    var g := gaps[0];
    assert g in gaps;
    assert forall x | x in gaps[1..] :: x in gaps;
    if GreedyWs(s, g, WsRun(s, g)).None? {
      WithinRun(s, g);
      assert GapFails(s, g);
      TryGapsFirstGap(s, p, gaps[1..]);
      forall x | x in gaps && x != g ensures x in gaps[1..] {
        var j :| 0 <= j < |gaps| && gaps[j] == x;
        assert gaps[1..][j - 1] == x;
      }
    } else {
      forall x | x in gaps ensures x <= g {
        var j :| 0 <= j < |gaps| && gaps[j] == x;
      }
    }
  }


  function StartGaps(s: string, p: nat): (gaps: seq<nat>)
    requires p <= |s|
    ensures forall g | g in gaps :: g <= |s|
  {
    if OccursAt(s, Lead, p) then PrefixEnds(s, p + |Lead|) else []
  }

  /** The match the engine finds at start position `p`, if any. */
  function MatchAt(s: string, p: nat): (r: Option<Span>)
    requires p <= |s|
    ensures r.Some? ==> r.value.start == p
  {
    TryGaps(s, p, StartGaps(s, p))
  }

  /** The first match at a start position `p` or later. */
  function SearchFrom(s: string, p: nat): (r: Option<Span>)
    requires p <= |s|
    ensures r.Some? ==> p <= r.value.start <= |s| && MatchAt(s, r.value.start) == r
    ensures r.Some? ==> forall q | p <= q < r.value.start :: MatchAt(s, q).None?
    ensures r.None? ==> forall q | p <= q <= |s| :: MatchAt(s, q).None?
    decreases |s| - p
  {
    var here := MatchAt(s, p);
    if here.Some? then here
    else if p == |s| then None
    else
      var r := SearchFrom(s, p + 1);
      assert r.Some? ==> forall q | p <= q < r.value.start :: MatchAt(s, q).None? by {
        if r.Some? {
          forall q | p <= q < r.value.start
            ensures MatchAt(s, q).None?
          {
            if q == p {
              assert MatchAt(s, q) == here;
            }
          }
        }
      }
      r
  }

  /** `re.search(...)` over the whole text. */
  function Search(s: string): (r: Option<Span>)
    ensures r.Some? ==> r.value.start <= |s| && MatchAt(s, r.value.start) == r
    ensures r.Some? ==> forall q: nat | q < r.value.start :: MatchAt(s, q).None?
    ensures r.None? ==> forall q: nat | q <= |s| :: MatchAt(s, q).None?
  {
    SearchFrom(s, 0)
  }

  // ---------------------------------------------------------------------------
  // Agreement with the declarative description

  lemma MatchAtSound(s: string, p: nat)
    requires p <= |s| && MatchAt(s, p).Some?
    ensures var m := MatchAt(s, p).value;
      m.start == p && IsMatch(s, m) &&
      forall y | m.capStart <= y < m.capEnd :: !IsMatch(s, m.(capEnd := y))
  {
    var m := MatchAt(s, p).value;
    TailAtIff(s, m.capEnd);
    forall y | m.capStart <= y < m.capEnd
      ensures !IsMatch(s, m.(capEnd := y))
    {
      TailAtIff(s, y);
    }
  }

  lemma MatchAtComplete(s: string, m: Span)
    requires IsMatch(s, m)
    ensures MatchAt(s, m.start).Some?
  {
    TailAtIff(s, m.capEnd);
    assert m.gap in PrefixEnds(s, m.start + |Lead|);
  }

  /** A whitespace character after `a?n?` lies beyond whatever `a?n?` consumed. */
  lemma OptANBeforeWhitespace(s: string, q: nat, g: nat, w: nat)
    requires OptAN(s, q, g) && q <= w < |s| && IsWhitespace(s[w])
    ensures g <= w
  {
    if w < g {
      VisibleNotWhitespace(s[w]);
    }
  }

  /**
   * Among the matches at the start where the engine finds one, its group starts
   * latest (the first `\s+` is greedy), and among those with that group start
   * its group is the shortest (the group is lazy).
   */
  lemma MatchAtGreedy(s: string, m': Span)
    requires IsMatch(s, m')
    ensures MatchAt(s, m'.start).Some?
    ensures var m := MatchAt(s, m'.start).value;
      m'.capStart <= m.capStart && (m'.capStart == m.capStart ==> m.capEnd <= m'.capEnd)
  {
    MatchAtComplete(s, m');
    var p := m'.start;
    var q := p + |Lead|;
    var m := MatchAt(s, p).value;
    var gaps := StartGaps(s, p);
    assert gaps == PrefixEnds(s, q);
    TailAtIff(s, m'.capEnd);
    assert !GapFails(s, m'.gap);
    PrefixEndsDecreasing(s, q);
    TryGapsFirstGap(s, p, gaps);
    OptANBeforeWhitespace(s, q, m.gap, m'.gap);
    TryGapsLongestRun(s, p, gaps);
  }

  /**
   * The match Python's engine reports: it starts leftmost; among matches with
   * that start, its group starts latest; among those, its group is the shortest.
   */
  ghost predicate Preferred(s: string, m: Span)
  {
    IsMatch(s, m) &&
    (forall m' | IsMatch(s, m') :: m.start <= m'.start) &&
    (forall m' | IsMatch(s, m') && m'.start == m.start :: m'.capStart <= m.capStart) &&
    (forall m' | IsMatch(s, m') && m'.start == m.start && m'.capStart == m.capStart :: m.capEnd <= m'.capEnd)
  }

  /** At most one match is preferred, so the preference rule fixes the group. */
  lemma PreferredUnique(s: string, m1: Span, m2: Span)
    requires Preferred(s, m1) && Preferred(s, m2)
    ensures m1 == m2
  {
    var q := m1.start + |Lead|;
    assert m1.start == m2.start && m1.capStart == m2.capStart && m1.capEnd == m2.capEnd;
    OptANBeforeWhitespace(s, q, m1.gap, m2.gap);
    OptANBeforeWhitespace(s, q, m2.gap, m1.gap);
  }

  /**
   * The search finds a match exactly when the pattern matches somewhere, and
   * the match it finds is the preferred one.
   */
  lemma SearchCorrect(s: string)
    ensures Search(s).None? <==> forall m :: !IsMatch(s, m)
    ensures Search(s).Some? ==> Preferred(s, Search(s).value)
  {
    match Search(s)
    case None =>
      forall m | IsMatch(s, m)
        ensures false
      {
        MatchAtComplete(s, m);
      }
    case Some(m) =>
      MatchAtSound(s, m.start);
      forall m' | IsMatch(s, m')
        ensures m.start <= m'.start
      {
        MatchAtComplete(s, m');
      }
      forall m' | IsMatch(s, m') && m'.start == m.start
        ensures m'.capStart <= m.capStart
        ensures m'.capStart == m.capStart ==> m.capEnd <= m'.capEnd
      {
        MatchAtGreedy(s, m');
      }
  }

  /** `match.group(1).strip()`, when the pattern matches. */
  function Genre(s: string): (g: Option<string>)
    ensures g.Some? <==> exists m :: IsMatch(s, m)
    ensures forall m | Preferred(s, m) :: g == Some(Strip(s[m.capStart..m.capEnd]))
  {
    SearchCorrect(s);
    assert forall m | Preferred(s, m) :: Search(s) == Some(m) by {
      forall m | Preferred(s, m) ensures Search(s) == Some(m) {
        PreferredUnique(s, Search(s).value, m);
      }
    }
    match Search(s)
    case None => None
    case Some(m) => Some(Strip(s[m.capStart..m.capEnd]))
  }

  const ActionRequest := "recommend me an action movie"

  lemma ActionTail()
    ensures TailAt(ActionRequest, 22)
    ensures forall y | 16 <= y < 22 :: !TailAt(ActionRequest, y)
  {
    var s := ActionRequest;
    assert s[22] == ' ' && s[23] == 'm';
    SpaceIsWhitespace();
    VisibleNotWhitespace(s[23]);
    assert WsRun(s, 22) == 1;
    assert s[23..28] == Word;
    forall y | 16 <= y < 22
      ensures !TailAt(s, y)
    {
      assert s[y] in "action";
      VisibleNotWhitespace(s[y]);
    }
  }

  lemma ActionPrefix()
    ensures OccursAt(ActionRequest, Lead, 0)
    ensures PrefixEnds(ActionRequest, 13) == [15, 14, 13]
  {
    var s := ActionRequest;
    assert s[0..13] == Lead;
    assert s[13] == 'a' && s[14] == 'n' && s[15] == ' ';
    assert OptNEnds(s, 14) == [15, 14];
    assert OptNEnds(s, 13) == [13];
  }

  lemma ActionGap()
    ensures WsRun(ActionRequest, 15) == 1
  {
    var s := ActionRequest;
    assert s[15] == ' ' && s[16] == 'a';
    SpaceIsWhitespace();
    VisibleNotWhitespace(s[16]);
    assert WsRun(s, 16) == 0;
  }

  lemma ActionLazy()
    ensures LazyEnd(ActionRequest, 16, 16) == Some(22)
  {
    var s := ActionRequest;
    ActionTail();
    assert LazyEnd(s, 16, 22) == Some(22);
    assert LazyEnd(s, 16, 21) == Some(22);
    assert LazyEnd(s, 16, 20) == Some(22);
    assert LazyEnd(s, 16, 19) == Some(22);
    assert LazyEnd(s, 16, 18) == Some(22);
    assert LazyEnd(s, 16, 17) == Some(22);
  }

  lemma ActionMatchAt()
    ensures MatchAt(ActionRequest, 0) == Some(Span(0, 15, 16, 22))
  {
    ActionPrefix();
    ActionGap();
    ActionLazy();
    assert GreedyWs(ActionRequest, 15, 1) == Some((16, 22));
  }

  lemma ActionGroup()
    ensures Strip(ActionRequest[16..22]) == "action"
  {
    var g := ActionRequest[16..22];
    assert g == "action";
    VisibleNotWhitespace(g[0]);
    VisibleNotWhitespace(g[5]);
  }

  /** The help text's own example asks for action movies. */
  lemma ActionExample()
    ensures Genre(ActionRequest) == Some("action")
  {
    ActionMatchAt();
    ActionGroup();
  }
}
