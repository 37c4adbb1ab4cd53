/**
 * The pieces of Swift's `String` and Foundation's string API that the browser core
 * relies on: prefix and suffix tests, splitting and joining, ASCII lower-casing,
 * whitespace trimming, literal replacement and decimal printing of integers.
 */
module Text {
  import opened Wrappers

  predicate HasPrefix(s: string, p: string) {
    |p| <= |s| && s[..|p|] == p
  }

  predicate HasSuffix(s: string, p: string) {
    |p| <= |s| && s[|s| - |p|..] == p
  }

  // ---------------------------------------------------------------------------
  // Splitting at a character

  /** Splits `s` at the first occurrence of `c`: the text before it and, when `c`
      occurs, the text after it. */
  function SplitAtFirst(s: string, c: char): (r: (string, Option<string>))
    ensures r.1.None? ==> r.0 == s && c !in s
    ensures r.1.Some? ==> s == r.0 + [c] + r.1.value && c !in r.0
  {
    if s == [] then ([], None)
    else if s[0] == c then ([], Some(s[1..]))
    else
      var (a, b) := SplitAtFirst(s[1..], c);
      ([s[0]] + a, b)
  }

  lemma {:induction false} SplitAtFirstAt(a: string, c: char, b: string)
    requires c !in a
    ensures SplitAtFirst(a + [c] + b, c) == (a, Some(b))
  {
    if a != [] {
      assert (a + [c] + b)[1..] == a[1..] + [c] + b;
      SplitAtFirstAt(a[1..], c, b);
      assert [a[0]] + a[1..] == a;
    }
  }

  lemma SplitAtFirstAbsent(a: string, c: char)
    requires c !in a
    ensures SplitAtFirst(a, c) == (a, None)
  {
  }

  /** Foundation's `components(separatedBy:)`: every piece, empty ones included. */
  function SplitKeep(s: string, c: char): (r: seq<string>)
    ensures |r| >= 1
    ensures forall i :: 0 <= i < |r| ==> c !in r[i]
    decreases |s|
  {
    var (a, b) := SplitAtFirst(s, c);
    if b.None? then [a] else [a] + SplitKeep(b.value, c)
  }

  /** `joined(separator:)`. */
  function Join(xs: seq<string>, sep: string): string {
    if xs == [] then ""
    else if |xs| == 1 then xs[0]
    else xs[0] + sep + Join(xs[1..], sep)
  }

  /** Joining the pieces with the separator gives back the original text. */
  lemma {:induction false} JoinSplitKeep(s: string, c: char)
    ensures Join(SplitKeep(s, c), [c]) == s
    decreases |s|
  {
    var (a, b) := SplitAtFirst(s, c);
    if b.Some? {
      JoinSplitKeep(b.value, c);
    }
  }

  /** Splitting a join of separator-free pieces gives back the pieces. */
  lemma {:induction false} SplitKeepJoin(xs: seq<string>, c: char)
    requires |xs| >= 1
    requires forall i :: 0 <= i < |xs| ==> c !in xs[i]
    ensures SplitKeep(Join(xs, [c]), c) == xs
  {
    if |xs| == 1 {
      SplitAtFirstAbsent(xs[0], c);
    } else {
      SplitAtFirstAt(xs[0], c, Join(xs[1..], [c]));
      SplitKeepJoin(xs[1..], c);
    }
  }

  /** A character absent from the text is absent from every piece. */
  lemma {:induction false} SplitKeepAvoids(s: string, c: char, d: char)
    requires d !in s
    ensures forall i :: 0 <= i < |SplitKeep(s, c)| ==> d !in SplitKeep(s, c)[i]
    decreases |s|
  {
    var (a, b) := SplitAtFirst(s, c);
    if b.Some? {
      SplitKeepAvoids(b.value, c, d);
    }
  }

  function NonEmpty(xs: seq<string>): (r: seq<string>)
    ensures forall i :: 0 <= i < |r| ==> r[i] != "" && r[i] in xs
  {
    if xs == [] then []
    else if xs[0] == "" then NonEmpty(xs[1..])
    else [xs[0]] + NonEmpty(xs[1..])
  }

  /** Swift's `split(separator:)`, which leaves out empty pieces. */
  function SplitOmit(s: string, c: char): (r: seq<string>)
    ensures forall i :: 0 <= i < |r| ==> r[i] != "" && c !in r[i]
  {
    NonEmpty(SplitKeep(s, c))
  }

  /** A character absent from the text is absent from every non-empty piece. */
  lemma SplitOmitAvoids(s: string, c: char, d: char)
    requires d !in s
    ensures forall i :: 0 <= i < |SplitOmit(s, c)| ==> d !in SplitOmit(s, c)[i]
  {
    SplitKeepAvoids(s, c, d);
  }

  lemma SplitOmitFirst(a: string, c: char, b: string)
    requires a != [] && c !in a
    ensures SplitOmit(a + [c] + b, c) == [a] + SplitOmit(b, c)
  {
    SplitAtFirstAt(a, c, b);
  }

  lemma SplitOmitLast(a: string, c: char)
    requires a != [] && c !in a
    ensures SplitOmit(a, c) == [a]
  {
    SplitAtFirstAbsent(a, c);
    assert SplitKeep(a, c) == [a];
    assert NonEmpty([a]) == [a] + NonEmpty([a][1..]);
    assert [a][1..] == [];
  }

  // ---------------------------------------------------------------------------
  // Case and whitespace

  /** `lowercased()` on the ASCII letters. */
  function LowerChar(c: char): char {
    if 'A' <= c <= 'Z' then (c as int + 32) as char else c
  }

  function Lower(s: string): string {
    seq(|s|, i requires 0 <= i < |s| => LowerChar(s[i]))
  }

  lemma LowerConcat(a: string, b: string)
    ensures Lower(a + b) == Lower(a) + Lower(b)
  {
  }

  predicate NoUpper(s: string) {
    forall i :: 0 <= i < |s| ==> !('A' <= s[i] <= 'Z')
  }

  lemma NoUpperConcat(a: string, b: string)
    requires NoUpper(a) && NoUpper(b)
    ensures NoUpper(a + b)
  {
    forall i | 0 <= i < |a + b| ensures !('A' <= (a + b)[i] <= 'Z') {
      if i >= |a| {
        assert (a + b)[i] == b[i - |a|];
      }
    }
  }

  /** A text without upper-case letters is its own lower-case form. */
  lemma LowerUnchanged(s: string)
    requires NoUpper(s)
    ensures Lower(s) == s
  {
  }

  /** Lower-casing leaves every character that is not an upper-case letter in place,
      so it neither adds nor removes such a character. */
  lemma LowerKeepsNonLetter(s: string, c: char)
    requires !('A' <= c <= 'Z') && !('a' <= c <= 'z')
    ensures c in Lower(s) <==> c in s
  {
    if c in s {
      var i :| 0 <= i < |s| && s[i] == c;
      assert Lower(s)[i] == c;
    }
    if c in Lower(s) {
      var i :| 0 <= i < |s| && Lower(s)[i] == c;
      assert s[i] == c;
    }
  }

  lemma LowerJoin(xs: seq<string>, sep: string)
    requires Lower(sep) == sep
    ensures Lower(Join(xs, sep)) == Join(seq(|xs|, i requires 0 <= i < |xs| => Lower(xs[i])), sep)
  {
    if |xs| > 1 {
      LowerConcat(xs[0] + sep, Join(xs[1..], sep));
      LowerConcat(xs[0], sep);
      LowerJoin(xs[1..], sep);
      var ys := seq(|xs|, i requires 0 <= i < |xs| => Lower(xs[i]));
      assert ys[1..] == seq(|xs| - 1, i requires 0 <= i < |xs| - 1 => Lower(xs[1..][i]));
    }
  }

  /** The fixed set of white-space and newline characters used for trimming. */
  predicate IsWhitespace(c: char) {
    c == ' ' || c == '\t' || c == '\n' || c == '\r' || c == '\U{000B}' || c == '\U{000C}'
  }

  predicate AllWhitespace(s: string) {
    forall i :: 0 <= i < |s| ==> IsWhitespace(s[i])
  }

  function TrimStart(s: string): (r: string)
    ensures |r| <= |s| && r == s[|s| - |r|..]
    ensures AllWhitespace(s[..|s| - |r|])
    ensures r == [] || !IsWhitespace(r[0])
  {
    if s != [] && IsWhitespace(s[0]) then TrimStart(s[1..]) else s
  }

  function TrimEnd(s: string): (r: string)
    ensures |r| <= |s| && r == s[..|r|]
    ensures AllWhitespace(s[|r|..])
    ensures r == [] || !IsWhitespace(r[|r| - 1])
  {
    if s != [] && IsWhitespace(s[|s| - 1]) then TrimEnd(s[..|s| - 1]) else s
  }

  /** `trimmingCharacters(in: .whitespacesAndNewlines)`. */
  function Trim(s: string): string {
    TrimEnd(TrimStart(s))
  }

  lemma {:induction false} TrimStartEmpty(s: string)
    ensures TrimStart(s) == [] <==> AllWhitespace(s)
  {
    if s != [] && IsWhitespace(s[0]) {
      TrimStartEmpty(s[1..]);
    }
  }

  lemma {:induction false} TrimEndEmpty(s: string)
    ensures TrimEnd(s) == [] <==> AllWhitespace(s)
  {
    if s != [] && IsWhitespace(s[|s| - 1]) {
      TrimEndEmpty(s[..|s| - 1]);
    }
  }

  /** Trimming yields the empty string exactly when every character is white space. */
  lemma TrimEmptyIff(s: string)
    ensures Trim(s) == "" <==> AllWhitespace(s)
  {
    TrimStartEmpty(s);
    TrimEndEmpty(TrimStart(s));
  }

  lemma {:induction false} TrimStartLeading(w: string, t: string)
    requires AllWhitespace(w)
    requires t == [] || !IsWhitespace(t[0])
    ensures TrimStart(w + t) == t
  {
    if w != [] {
      assert (w + t)[1..] == w[1..] + t;
      TrimStartLeading(w[1..], t);
    }
  }

  lemma {:induction false} TrimEndTrailing(t: string, w: string)
    requires AllWhitespace(w)
    requires t == [] || !IsWhitespace(t[|t| - 1])
    ensures TrimEnd(t + w) == t
  {
    if w != [] {
      assert (t + w)[..|t + w| - 1] == t + w[..|w| - 1];
      TrimEndTrailing(t, w[..|w| - 1]);
    }
  }

  /** Trimming removes exactly the white space around a text whose ends are not white space. */
  lemma TrimFramed(w1: string, t: string, w2: string)
    requires AllWhitespace(w1) && AllWhitespace(w2)
    requires t != [] && !IsWhitespace(t[0]) && !IsWhitespace(t[|t| - 1])
    ensures Trim(w1 + t + w2) == t
  {
    assert w1 + t + w2 == w1 + (t + w2);
    TrimStartLeading(w1, t + w2);
    TrimEndTrailing(t, w2);
  }

  // ---------------------------------------------------------------------------
  // Literal replacement

  predicate OccursAt(s: string, pat: string, i: nat) {
    i + |pat| <= |s| && s[i..i + |pat|] == pat
  }

  lemma OccursAtShift(a: string, b: string, pat: string, i: nat)
    requires OccursAt(b, pat, i)
    ensures OccursAt(a + b, pat, |a| + i)
  {
    assert (a + b)[|a| + i..|a| + i + |pat|] == b[i..i + |pat|];
  }

  /** An occurrence inside the middle piece is an occurrence in the whole. */
  lemma OccursInside(a: string, b: string, c: string, pat: string, i: nat)
    requires OccursAt(b, pat, i)
    ensures OccursAt(a + b + c, pat, |a| + i)
  {
    assert (a + b + c)[|a| + i..|a| + i + |pat|] == b[i..i + |pat|];
  }

  /** Every piece of a join occurs in it. */
  lemma {:induction false} JoinContains(xs: seq<string>, sep: string, k: nat)
    requires k < |xs|
    ensures exists i: nat :: OccursAt(Join(xs, sep), xs[k], i)
  {
    if |xs| == 1 {
      assert OccursAt(Join(xs, sep), xs[k], 0);
    } else if k == 0 {
      assert Join(xs, sep)[..|xs[0]|] == xs[0];
      assert OccursAt(Join(xs, sep), xs[k], 0);
    } else {
      JoinContains(xs[1..], sep, k - 1);
      var i: nat :| OccursAt(Join(xs[1..], sep), xs[1..][k - 1], i);
      OccursAtShift(xs[0] + sep, Join(xs[1..], sep), xs[k], i);
      assert Join(xs, sep) == (xs[0] + sep) + Join(xs[1..], sep);
    }
  }

  /** `replacingOccurrences(of:with:)`: every non-overlapping occurrence, scanning left to right. */
  function ReplaceAll(s: string, pat: string, rep: string): (r: string)
    requires |pat| > 0
    ensures |rep| >= |pat| ==> |r| >= |s|
    decreases |s|
  {
    if |s| < |pat| then s
    else if s[..|pat|] == pat then rep + ReplaceAll(s[|pat|..], pat, rep)
    else [s[0]] + ReplaceAll(s[1..], pat, rep)
  }

  /** A prefix in which no occurrence starts is copied unchanged. */
  lemma {:induction false} ReplaceAllSkip(x: string, y: string, pat: string, rep: string)
    requires |pat| > 0
    requires forall i :: 0 <= i < |x| ==> !OccursAt(x + y, pat, i)
    ensures ReplaceAll(x + y, pat, rep) == x + ReplaceAll(y, pat, rep)
    decreases |x|
  {
    if x == [] {
      assert x + y == y;
    } else if |x + y| < |pat| {
      assert ReplaceAll(y, pat, rep) == y;
    } else {
      var t := x[1..] + y;
      ReplaceAllHead(x + y, pat, rep);
      assert t == (x + y)[1..];
      NoOccurrenceShifted(x, y, pat);
      ReplaceAllSkip(x[1..], y, pat, rep);
      assert [x[0]] + x[1..] == x;
    }
  }

  /** A text that does not start with the pattern keeps its first character. */
  lemma ReplaceAllHead(s: string, pat: string, rep: string)
    requires |pat| > 0 && |s| >= |pat| && !OccursAt(s, pat, 0)
    ensures ReplaceAll(s, pat, rep) == [s[0]] + ReplaceAll(s[1..], pat, rep)
  {
    assert s[0..|pat|] == s[..|pat|];
  }

  lemma NoOccurrenceShifted(x: string, y: string, pat: string)
    requires x != []
    requires forall i :: 0 <= i < |x| ==> !OccursAt(x + y, pat, i)
    ensures forall i :: 0 <= i < |x[1..]| ==> !OccursAt(x[1..] + y, pat, i)
  {
    var s := x + y;
    var t := x[1..] + y;
    forall i | 0 <= i < |x[1..]|
      ensures !OccursAt(t, pat, i)
    {
      assert !OccursAt(s, pat, i + 1);
      if i + |pat| <= |t| {
        assert t[i..i + |pat|] == s[i + 1..i + 1 + |pat|];
      }
    }
  }

  /** A text in which the pattern does not occur is returned unchanged. */
  lemma ReplaceAllAbsent(s: string, pat: string, rep: string)
    requires |pat| > 0
    requires forall i :: 0 <= i < |s| ==> !OccursAt(s, pat, i)
    ensures ReplaceAll(s, pat, rep) == s
  {
    assert s + [] == s;
    ReplaceAllSkip(s, [], pat, rep);
  }

  /** The single occurrence of the pattern is replaced and nothing else changes. */
  lemma ReplaceAllOnce(a: string, pat: string, b: string, rep: string)
    requires |pat| > 0
    requires forall i :: 0 <= i < |a + pat + b| && i != |a| ==> !OccursAt(a + pat + b, pat, i)
    ensures ReplaceAll(a + pat + b, pat, rep) == a + rep + b
  {
    var s := a + pat + b;
    assert s == a + (pat + b);
    ReplaceAllSkip(a, pat + b, pat, rep);
    assert (pat + b)[..|pat|] == pat;
    assert (pat + b)[|pat|..] == b;
    NoOccurrenceAfter(a, pat, b);
    ReplaceAllAbsent(b, pat, rep);
  }

  lemma NoOccurrenceAfter(a: string, pat: string, b: string)
    requires |pat| > 0
    requires forall i :: 0 <= i < |a + pat + b| && i != |a| ==> !OccursAt(a + pat + b, pat, i)
    ensures forall i :: 0 <= i < |b| ==> !OccursAt(b, pat, i)
  {
    var s := a + pat + b;
    forall i | 0 <= i < |b|
      ensures !OccursAt(b, pat, i)
    {
      assert !OccursAt(s, pat, |a| + |pat| + i);
      if i + |pat| <= |b| {
        assert s[|a| + |pat| + i..|a| + |pat| + i + |pat|] == b[i..i + |pat|];
      }
    }
  }

  // ---------------------------------------------------------------------------
  // Decimal printing

  function DecimalDigit(d: nat): char
    requires d < 10
  {
    (('0' as int) + d) as char
  }

  /** String interpolation of a non-negative `Int`. */
  function NatToDecimal(n: nat): (r: string)
    ensures |r| >= 1
  {
    if n < 10 then [DecimalDigit(n)] else NatToDecimal(n / 10) + [DecimalDigit(n % 10)]
  }

  /** Reading decimal digits back: the inverse of `NatToDecimal`. */
  function DecimalValue(s: string): nat {
    if s == [] then 0
    else
      var c := s[|s| - 1];
      DecimalValue(s[..|s| - 1]) * 10 + if '0' <= c <= '9' then c as int - '0' as int else 0
  }

  lemma {:induction false} DecimalRoundTrip(n: nat)
    ensures DecimalValue(NatToDecimal(n)) == n
  {
    var s := NatToDecimal(n);
    if n >= 10 {
      assert s[..|s| - 1] == NatToDecimal(n / 10);
      DecimalRoundTrip(n / 10);
    }
  }

  /** Distinct numbers print differently. */
  lemma NatToDecimalInjective(m: nat, n: nat)
    requires m != n
    ensures NatToDecimal(m) != NatToDecimal(n)
  {
    DecimalRoundTrip(m);
    DecimalRoundTrip(n);
  }
}
