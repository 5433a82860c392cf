/**
 * The string operations the handlers apply to an SMS body: ASCII lower-casing,
 * substring search (Python's `in` and `str.split(sep, 1)`), whitespace
 * stripping (`str.strip()`), `"\n".join(...)`, and decimal rendering of a
 * list position.
 */
module Text {
  import opened Wrappers

  /** The code point ranges, inclusive, of the characters for which Python's `str.isspace()` holds. */
  const WhitespaceRanges: seq<(int, int)> := [
    (0x09, 0x0D), (0x1C, 0x20), (0x85, 0x85), (0xA0, 0xA0), (0x1680, 0x1680),
    (0x2000, 0x200A), (0x2028, 0x2029), (0x202F, 0x202F), (0x205F, 0x205F), (0x3000, 0x3000)]

  predicate InRanges(n: int, ranges: seq<(int, int)>)
  {
    ranges != [] && ((ranges[0].0 <= n <= ranges[0].1) || InRanges(n, ranges[1..]))
  }

  predicate IsWhitespace(c: char)
  {
    InRanges(c as int, WhitespaceRanges)
  }

  lemma {:induction false} BelowAllRanges(n: int, ranges: seq<(int, int)>)
    requires forall i | 0 <= i < |ranges| :: n < ranges[i].0
    ensures !InRanges(n, ranges)
  {
    if ranges != [] {
      BelowAllRanges(n, ranges[1..]);
    }
  }

  /** Printable ASCII, from '!' to '~', is never whitespace. */
  lemma VisibleNotWhitespace(c: char)
    requires 0x21 <= c as int <= 0x7E
    ensures !IsWhitespace(c)
  {
    var r := WhitespaceRanges;
    var n := c as int;
    assert !(r[0].0 <= n <= r[0].1) && !(r[1..][0].0 <= n <= r[1..][0].1);
    assert r[1..][1..] == r[2..];
    BelowAllRanges(n, r[2..]);
    assert !InRanges(n, r[1..]);
  }

  lemma SpaceIsWhitespace()
    ensures IsWhitespace(' ')
  {
    assert WhitespaceRanges[1..][0] == (0x1C, 0x20);
  }

  /** Every character of `s[i..j]` is whitespace, stated on positions of `s`. */
  predicate WhitespaceBetween(s: string, i: nat, j: nat)
    requires i <= j <= |s|
  {
    forall k | i <= k < j :: IsWhitespace(s[k])
  }

  predicate AllWhitespace(s: string)
  {
    WhitespaceBetween(s, 0, |s|)
  }

  // ---------------------------------------------------------------------------
  // Lower-casing

  function LowerChar(c: char): char
  {
    if 'A' <= c <= 'Z' then (c as int + 32) as char else c
  }

  /** `str.lower()`, restricted to the ASCII letters. */
  function Lower(s: string): (r: string)
    ensures |r| == |s|
    ensures forall k | 0 <= k < |s| :: r[k] == LowerChar(s[k])
  {
    seq(|s|, k requires 0 <= k < |s| => LowerChar(s[k]))
  }

  /** No character of `s` is changed by lower-casing. */
  predicate IsLower(s: string)
  {
    forall k | 0 <= k < |s| :: LowerChar(s[k]) == s[k]
  }

  lemma LowerIsLower(s: string)
    ensures IsLower(Lower(s))
    ensures Lower(Lower(s)) == Lower(s)
  {
    forall k | 0 <= k < |s|
      ensures LowerChar(Lower(s)[k]) == Lower(s)[k]
    {
      var c := s[k];
      if 'A' <= c <= 'Z' {
        assert 'a' <= LowerChar(c) <= 'z';
      }
    }
  }

  lemma LowerFixesLower(s: string)
    requires IsLower(s)
    ensures Lower(s) == s
  {
  }

  // ---------------------------------------------------------------------------
  // Substring search

  /** `pat` occurs in `s` starting at position `i`. */
  predicate OccursAt(s: string, pat: string, i: nat)
  {
    i + |pat| <= |s| && s[i..i + |pat|] == pat
  }

  /** The first position at or after `from` where `pat` occurs in `s`. */
  function IndexFrom(s: string, pat: string, from: nat): (r: Option<nat>)
    ensures r.Some? ==> from <= r.value && OccursAt(s, pat, r.value)
    ensures r.Some? ==> forall k | from <= k < r.value :: !OccursAt(s, pat, k)
    ensures r.None? ==> forall k: nat | from <= k :: !OccursAt(s, pat, k)
    decreases |s| - from
  {
    if from + |pat| > |s| then None
    else if OccursAt(s, pat, from) then Some(from)
    else IndexFrom(s, pat, from + 1)
  }

  /** Python's `pat in s`. */
  predicate Contains(s: string, pat: string)
  {
    IndexFrom(s, pat, 0).Some?
  }

  lemma ContainsIff(s: string, pat: string)
    ensures Contains(s, pat) <==> exists k: nat :: OccursAt(s, pat, k)
  {
    var r := IndexFrom(s, pat, 0);
    if r.Some? {
      assert OccursAt(s, pat, r.value);
    }
  }

  /** A body that contains `p + q` also contains `p`. */
  lemma {:induction false} ContainsPrefixOf(s: string, p: string, q: string)
    requires Contains(s, p + q)
    ensures Contains(s, p)
  {
    var k := IndexFrom(s, p + q, 0).value;
    assert s[k..k + |p|] == (p + q)[..|p|] == p;
    assert OccursAt(s, p, k);
    ContainsIff(s, p);
  }

  /** The text after the first occurrence of `pat`: `s.split(pat, 1)[1]`. */
  function After(s: string, pat: string): (r: string)
    requires Contains(s, pat)
    ensures exists k: nat :: OccursAt(s, pat, k) && s == s[..k] + pat + r
    ensures |r| <= |s| - |pat|
    // The occurrence split at is the first one.
    ensures IndexFrom(s, pat, 0) == Some(|s| - |pat| - |r|)
  {
    var k := IndexFrom(s, pat, 0).value;
    assert s == s[..k] + s[k..k + |pat|] + s[k + |pat|..];
    s[k + |pat|..]
  }

  // ---------------------------------------------------------------------------
  // Stripping

  function TrimStart(s: string): (r: string)
    ensures |r| <= |s| && r == s[|s| - |r|..]
    ensures WhitespaceBetween(s, 0, |s| - |r|)
    ensures r == [] || !IsWhitespace(r[0])
  {
    if s != [] && IsWhitespace(s[0]) then TrimStart(s[1..]) else s
  }

  function TrimEnd(s: string): (r: string)
    ensures |r| <= |s| && r == s[..|r|]
    ensures WhitespaceBetween(s, |r|, |s|)
    ensures r == [] || !IsWhitespace(r[|r| - 1])
  {
    if s != [] && IsWhitespace(s[|s| - 1]) then TrimEnd(s[..|s| - 1]) else s
  }

  /**
   * `r` is what stripping leaves of `s` when `i` leading characters go: a
   * slice of `s` preceded and followed only by whitespace, and beginning and
   * ending with a non-whitespace character unless empty.
   */
  predicate StrippedAt(s: string, r: string, i: nat)
  {
    i + |r| <= |s| && r == s[i..i + |r|] &&
    WhitespaceBetween(s, 0, i) && WhitespaceBetween(s, i + |r|, |s|) &&
    (r == [] || (!IsWhitespace(r[0]) && !IsWhitespace(r[|r| - 1])))
  }

  /** Python's `s.strip()`: empty exactly when `s` is all whitespace. */
  function Strip(s: string): (r: string)
    ensures |r| <= |s|
    ensures StrippedAt(s, r, |s| - |TrimStart(s)|)
    ensures r == [] <==> AllWhitespace(s)
  {
    StripShape(s);
    TrimEnd(TrimStart(s))
  }

  lemma StripShape(s: string)
    ensures StrippedAt(s, TrimEnd(TrimStart(s)), |s| - |TrimStart(s)|)
    ensures TrimEnd(TrimStart(s)) == [] <==> AllWhitespace(s)
  {
    StripSlice(s);
    StripTail(s);
    StripEnds(s);
    StripEmptyIfBlank(s);
    StripBlankIfEmpty(s);
  }

  lemma StripEnds(s: string)
    ensures var r := TrimEnd(TrimStart(s));
      r == [] || (!IsWhitespace(r[0]) && !IsWhitespace(r[|r| - 1]))
  {
    var t := TrimStart(s);
    var r := TrimEnd(t);
    if r != [] {
      assert r[0] == t[0];
    }
  }

  lemma StripSlice(s: string)
    ensures var t := TrimStart(s); var r := TrimEnd(t); var i := |s| - |t|;
      i + |r| <= |s| && r == s[i..i + |r|]
  {
    var t := TrimStart(s);
    SliceOfSuffix(s, |s| - |t|, TrimEnd(t));
  }

  lemma StripTail(s: string)
    ensures var t := TrimStart(s); var r := TrimEnd(t); var i := |s| - |t|;
      i + |r| <= |s| && WhitespaceBetween(s, i + |r|, |s|)
  {
    var t := TrimStart(s);
    WhitespaceInSuffix(s, |s| - |t|, |TrimEnd(t)|, |t|);
  }

  lemma WhitespaceInSuffix(s: string, i: nat, a: nat, b: nat)
    requires i <= |s| && a <= b <= |s| - i && WhitespaceBetween(s[i..], a, b)
    ensures WhitespaceBetween(s, i + a, i + b)
  {
    forall k | i + a <= k < i + b
      ensures IsWhitespace(s[k])
    {
      assert s[k] == s[i..][k - i];
    }
  }

  /** A prefix `r` of the suffix of `s` from `i` is the slice of `s` at `i`. */
  lemma SliceOfSuffix(s: string, i: nat, r: string)
    requires i <= |s| && |r| <= |s| - i && r == s[i..][..|r|]
    ensures r == s[i..i + |r|]
  {
  }

  lemma StripBlankIfEmpty(s: string)
    ensures TrimEnd(TrimStart(s)) == [] ==> AllWhitespace(s)
  {
    var t := TrimStart(s);
    var r := TrimEnd(t);
    var i := |s| - |t|;
    if r == [] {
      assert t == [];
    }
  }

  lemma StripEmptyIfBlank(s: string)
    ensures AllWhitespace(s) ==> TrimEnd(TrimStart(s)) == []
  {
    var t := TrimStart(s);
    var r := TrimEnd(t);
    var i := |s| - |t|;
    if r != [] {
      assert r[0] == t[0] == s[i];
    }
  }

  lemma StripKeepsLower(s: string)
    requires IsLower(s)
    ensures IsLower(Strip(s))
  {
    var i := |s| - |TrimStart(s)|;
    SliceKeepsLower(s, i, i + |Strip(s)|);
  }

  lemma SliceKeepsLower(s: string, i: nat, j: nat)
    requires IsLower(s) && i <= j <= |s|
    ensures IsLower(s[i..j])
  {
    forall k | 0 <= k < j - i
      ensures LowerChar(s[i..j][k]) == s[i..j][k]
    {
      assert s[i..j][k] == s[i + k];
    }
  }

  /**
   * `t.split(phrase, 1)[1].strip()`: the text after the first occurrence of
   * `phrase`, stripped; empty exactly when only whitespace follows.
   */
  function Remainder(t: string, phrase: string): (r: string)
    requires Contains(t, phrase)
    ensures r == [] <==> AllWhitespace(After(t, phrase))
    ensures |r| <= |t| - |phrase|
  {
    Strip(After(t, phrase))
  }

  /** The remainder of a lower-cased body is itself lower-case. */
  lemma RemainderIsLower(t: string, phrase: string)
    requires Contains(t, phrase) && IsLower(t)
    ensures IsLower(Remainder(t, phrase))
  {
    var a := After(t, phrase);
    var k: nat :| OccursAt(t, phrase, k) && t == t[..k] + phrase + a;
    assert a == (t[..k] + phrase + a)[k + |phrase|..] == t[k + |phrase|..];
    SliceKeepsLower(t, k + |phrase|, |t|);
    StripKeepsLower(a);
  }

  // ---------------------------------------------------------------------------
  // Joining and splitting lines

  /** Python's `sep.join(parts)`. */
  function Join(parts: seq<string>, sep: string): string
    decreases |parts|
  {
    if parts == [] then ""
    else if |parts| == 1 then parts[0]
    else parts[0] + sep + Join(parts[1..], sep)
  }

  /** Python's `s.split(d)` for a one-character separator. */
  function Split(s: string, d: char): (parts: seq<string>)
    ensures |parts| >= 1
    decreases |s|
  {
    if s == [] then [""]
    else
      var rest := Split(s[1..], d);
      if s[0] == d then [""] + rest else [[s[0]] + rest[0]] + rest[1..]
  }

  lemma {:induction false} SplitWord(w: string, d: char)
    requires d !in w
    ensures Split(w, d) == [w]
    decreases |w|
  {
    if w != [] {
      SplitWord(w[1..], d);
      assert [w[0]] + w[1..] == w;
    }
  }

  lemma {:induction false} SplitWordThen(w: string, d: char, rest: string)
    requires d !in w
    ensures Split(w + [d] + rest, d) == [w] + Split(rest, d)
    decreases |w|
  {
    var s := w + [d] + rest;
    if w == [] {
      assert s[1..] == rest;
    } else {
      assert s[1..] == w[1..] + [d] + rest;
      SplitWordThen(w[1..], d, rest);
      assert [w[0]] + w[1..] == w;
    }
  }

  /** Splitting the joined lines on the separator gives the lines back. */
  lemma {:induction false} SplitJoin(lines: seq<string>, d: char)
    requires |lines| >= 1
    requires forall k | 0 <= k < |lines| :: d !in lines[k]
    ensures Split(Join(lines, [d]), d) == lines
    decreases |lines|
  {
    if |lines| == 1 {
      SplitWord(lines[0], d);
    } else {
      SplitJoin(lines[1..], d);
      SplitWordThen(lines[0], d, Join(lines[1..], [d]));
      assert [lines[0]] + lines[1..] == lines;
    }
  }

  // ---------------------------------------------------------------------------
  // Decimal numerals

  function Digit(n: nat): (c: char)
    requires n < 10
    ensures '0' <= c <= '9' && (c as int) - ('0' as int) == n
  {
    ('0' as int + n) as char
  }

  /** `str(n)` for a non-negative integer. */
  function NatToString(n: nat): (r: string)
    ensures |r| >= 1
    ensures forall k | 0 <= k < |r| :: '0' <= r[k] <= '9'
    ensures r[0] == '0' ==> n == 0 && r == "0"
  {
    if n < 10 then [Digit(n)] else NatToString(n / 10) + [Digit(n % 10)]
  }

  /** The value of a string of decimal digits. */
  function DigitsValue(s: string): nat
    requires forall k | 0 <= k < |s| :: '0' <= s[k] <= '9'
  {
    if s == [] then 0
    else DigitsValue(s[..|s| - 1]) * 10 + ((s[|s| - 1] as int) - ('0' as int))
  }

  lemma {:induction false} NatToStringRoundTrip(n: nat)
    ensures DigitsValue(NatToString(n)) == n
  {
    if n >= 10 {
      NatToStringRoundTrip(n / 10);
      var r := NatToString(n);
      assert r[..|r| - 1] == NatToString(n / 10);
    }
  }
}
