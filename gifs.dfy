/** The GIF library offered to the model: a table from short names to archived GIF
    addresses, the short links the model is told to use, and the rewrite that puts the
    long addresses back into a generated page. */
module Gifs {
  import opened Wrappers
  import opened Text

  // ---------------------------------------------------------------------------
  // The table

  datatype Entry = Entry(name: string, url: string)

  /** The entries of the `Gifs.shared` dictionary literal, in the order they are written. */
  const SharedEntries: seq<Entry> := [
    Entry("Email3D", "https://web.archive.org/web/20090830063639/http://geocities.com/computerdivawv/3demail.gif"),
    Entry("SmashingComputer", "https://web.archive.org/web/20090829015037/http://www.geocities.com/nukinight2001/smashingcomputer.gif"),
    Entry("BirdL", "https://web.archive.org/web/20090831084926if_/http://geocities.com/coptics33/animate/birdl.gif"),
    Entry("InternetExplorer", "https://web.archive.org/web/20091024235337im_/http://geocities.com/powderplayers/images2/ie.gif"),
    Entry("AWishFor", "https://web.archive.org/web/20091025154931if_/http://www.geocities.com/madisonpaigetuzzio/AWishfor.gif"),
    Entry("Collectors", "https://web.archive.org/web/20090902115704if_/http://www.geocities.com/sjc_ollectors/0157.gif"),
    Entry("Belongs", "https://web.archive.org/web/20091027113454if_/http://www.geocities.com/melissafamily/belongs.gif"),
    Entry("Coffee3", "https://web.archive.org/web/20090729051521if_/http://www.geocities.com/regularguyswinery/coffee3.gif"),
    Entry("UnderConstruction", "https://web.archive.org/web/20091024235037if_/http://www.geocities.com/winnipegbluebombers2003/Undercomstruction.gif"),
    Entry("Mail03B", "https://web.archive.org/web/20090727105513if_/http://it.geocities.com/studiocasentini/mail03b.gif"),
    Entry("Keys", "https://web.archive.org/web/20090903044712if_/http://geocities.com/petsburgh/3739/races/keys.gif"),
    Entry("Key", "https://web.archive.org/web/20091026191655if_/http://geocities.com/nvrsurrender/key.gif"),
    Entry("ForkStabSpoon", "https://web.archive.org/web/20091022120522if_/http://www.geocities.com/mockswyrm/goth/forkstabspoon.gif"),
    Entry("ILoveYou", "https://web.archive.org/web/20090806132629if_/http://www.geocities.com/blueyegurlx101/i_loveyou_1_.gif"),
    Entry("New1", "https://web.archive.org/web/20090727081729if_/http://www.geocities.com/case_ross/new1.gif"),
    Entry("GuitarAnim", "https://web.archive.org/web/20091027131807if_/http://geocities.com/crimescenelive/page/guitaranim.gif"),
    Entry("Heart2", "https://web.archive.org/web/20090830131600if_/http://geocities.com/BourbonStreet/Delta/9353/heart2.gif")
  ]

  /** A dictionary literal traps on a repeated key. */
  predicate DistinctNames(es: seq<Entry>) {
    forall i, j :: 0 <= i < j < |es| ==> es[i].name != es[j].name
  }

  function Names(es: seq<Entry>): (r: seq<string>)
    ensures |r| == |es|
    ensures forall i :: 0 <= i < |es| ==> r[i] == es[i].name
  {
    if es == [] then [] else [es[0].name] + Names(es[1..])
  }

  /** `namesToURLs`: the dictionary the entries build. */
  function Table(es: seq<Entry>): (r: map<string, string>)
    requires DistinctNames(es)
    ensures forall n :: n in r <==> n in Names(es)
    ensures forall i :: 0 <= i < |es| ==> r[es[i].name] == es[i].url
  {
    if es == [] then map[]
    else
      var rest := Table(es[1..]);
      assert forall i :: 1 <= i < |es| ==> es[i] == es[1..][i - 1];
      rest[es[0].name := es[0].url]
  }

  /** Every archived address is longer than the short link it replaces, so a rewrite
      never shortens the page. */
  predicate Lengthening(table: map<string, string>) {
    forall n :: n in table ==> |table[n]| >= |ShortUrl(n)|
  }

  /** The first character and the length of each shared name, which tell them apart. */
  const SharedSignatures: seq<(char, nat)> := [
    ('E', 7), ('S', 16), ('B', 5), ('I', 16), ('A', 8), ('C', 10), ('B', 7), ('C', 7), ('U', 17),
    ('M', 7), ('K', 4), ('K', 3), ('F', 13), ('I', 8), ('N', 4), ('G', 10), ('H', 6)
  ]

  lemma SharedSignaturesHold(k: nat)
    requires k < |SharedEntries|
    ensures |SharedEntries[k].name| == SharedSignatures[k].1 > 0
    ensures SharedEntries[k].name[0] == SharedSignatures[k].0
    ensures |SharedEntries[k].url| >= 32
  {
  }

  lemma SharedDistinct()
    ensures DistinctNames(SharedEntries)
  {
    var es := SharedEntries;
    forall i, j | 0 <= i < j < |es|
      ensures es[i].name != es[j].name
    {
      SharedSignaturesHold(i);
      SharedSignaturesHold(j);
      assert SharedSignatures[i] != SharedSignatures[j];
    }
  }

  /** A table whose every address is at least ten characters longer than its name. */
  lemma {:induction false} EntriesLengthening(es: seq<Entry>)
    requires DistinctNames(es)
    requires forall i :: 0 <= i < |es| ==> |es[i].url| >= |es[i].name| + 10
    ensures Lengthening(Table(es))
  {
    var t := Table(es);
    forall n | n in t
      ensures |t[n]| >= |ShortUrl(n)|
    {
      var i :| 0 <= i < |es| && Names(es)[i] == n;
      assert t[es[i].name] == es[i].url;
    }
  }

  lemma SharedLengthening()
    ensures DistinctNames(SharedEntries)
    ensures Lengthening(Table(SharedEntries))
  {
    SharedDistinct();
    var es := SharedEntries;
    forall i | 0 <= i < |es|
      ensures |es[i].url| >= |es[i].name| + 10
    {
      SharedSignaturesHold(i);
    }
    EntriesLengthening(es);
  }

  // ---------------------------------------------------------------------------
  // Sorted names

  /** Swift's `<` on strings, which for this text is the order of the characters. */
  predicate Less(a: string, b: string)
    decreases |a|
  {
    if a == [] then b != []
    else b != [] && (a[0] < b[0] || (a[0] == b[0] && Less(a[1..], b[1..])))
  }

  lemma {:induction false} LessIrreflexive(a: string)
    ensures !Less(a, a)
    decreases |a|
  {
    if a != [] {
      LessIrreflexive(a[1..]);
    }
  }

  lemma {:induction false} LessTransitive(a: string, b: string, c: string)
    requires Less(a, b) && Less(b, c)
    ensures Less(a, c)
    decreases |a|
  {
    if a != [] && a[0] == b[0] && b[0] == c[0] {
      LessTransitive(a[1..], b[1..], c[1..]);
    }
  }

  lemma {:induction false} LessTotal(a: string, b: string)
    requires a != b
    ensures Less(a, b) || Less(b, a)
    decreases |a|
  {
    if a != [] && b != [] && a[0] == b[0] {
      assert a == [a[0]] + a[1..] && b == [b[0]] + b[1..];
      LessTotal(a[1..], b[1..]);
    }
  }

  predicate StrictlySorted(xs: seq<string>) {
    forall i, j :: 0 <= i < j < |xs| ==> Less(xs[i], xs[j])
  }

  /** Places `x` among the sorted `xs`. */
  function Insert(x: string, xs: seq<string>): (r: seq<string>)
    requires StrictlySorted(xs) && x !in xs
    ensures StrictlySorted(r)
    ensures multiset(r) == multiset(xs) + multiset{x}
  {
    if xs == [] then [x]
    else if Less(x, xs[0]) then
      forall j | 0 <= j < |xs|
        ensures Less(x, xs[j])
      {
        if j > 0 {
          LessTransitive(x, xs[0], xs[j]);
        }
      }
      [x] + xs
    else
      LessTotal(x, xs[0]);
      assert xs == [xs[0]] + xs[1..];
      var rest := Insert(x, xs[1..]);
      forall j | 0 <= j < |rest|
        ensures Less(xs[0], rest[j])
      {
        assert rest[j] in multiset(rest);
      }
      [xs[0]] + rest
  }

  predicate Distinct(xs: seq<string>) {
    forall i, j :: 0 <= i < j < |xs| ==> xs[i] != xs[j]
  }

  /** `sorted()` on distinct names. */
  function Sort(xs: seq<string>): (r: seq<string>)
    requires Distinct(xs)
    ensures StrictlySorted(r)
    ensures multiset(r) == multiset(xs)
  {
    if xs == [] then []
    else
      assert xs == [xs[0]] + xs[1..];
      var rest := Sort(xs[1..]);
      assert xs[0] !in multiset(xs[1..]);
      Insert(xs[0], rest)
  }

  /** `ids`: the table's names in ascending order, each once. */
  function Ids(es: seq<Entry>): (r: seq<string>)
    requires DistinctNames(es)
    ensures StrictlySorted(r)
    ensures |r| == |es|
    ensures forall n :: n in r <==> n in Table(es)
  {
    var names := Names(es);
    var r := Sort(names);
    assert |r| == |multiset(r)| == |multiset(names)| == |names|;
    forall n
      ensures n in r <==> n in names
    {
      assert n in r <==> n in multiset(r);
    }
    r
  }

  // ---------------------------------------------------------------------------
  // Short links

  /** `shortURL(forName:)`. */
  function ShortUrl(name: string): (r: string)
    ensures |r| == |name| + 10
  {
    "/gifs/" + name + ".gif"
  }

  /** `allShortURLs`: one short link per id, in the order of the ids. */
  function AllShortUrls(es: seq<Entry>): (r: seq<string>)
    requires DistinctNames(es)
    ensures |r| == |Ids(es)|
    ensures forall i :: 0 <= i < |r| ==> r[i] == ShortUrl(Ids(es)[i])
  {
    var ids := Ids(es);
    seq(|ids|, i requires 0 <= i < |ids| => ShortUrl(ids[i]))
  }

  // ---------------------------------------------------------------------------
  // The pattern `/gifs/([a-zA-Z0-9]+).gif`, scanned by hand

  predicate IsAlnum(c: char) {
    'a' <= c <= 'z' || 'A' <= c <= 'Z' || '0' <= c <= '9'
  }

  /** The characters an ICU `.` refuses by default. */
  predicate IsLineTerminator(c: char) {
    c == '\n' || c == '\U{000B}' || c == '\U{000C}' || c == '\r'
    || c == '\U{0085}' || c == '\U{2028}' || c == '\U{2029}'
  }

  /** How the character before `gif` is matched: by the pattern as written, whose `.` is
      unescaped and takes any character but a line terminator, or by a literal dot. */
  datatype Dot = AnyChar | LiteralDot

  predicate DotAccepts(dot: Dot, c: char) {
    match dot
    case AnyChar => !IsLineTerminator(c)
    case LiteralDot => c == '.'
  }

  /** The length of the run of letters and digits starting at `i`. */
  function AlnumRun(s: string, i: nat): (k: nat)
    requires i <= |s|
    ensures i + k <= |s|
    ensures forall j :: i <= j < i + k ==> IsAlnum(s[j])
    ensures i + k == |s| || !IsAlnum(s[i + k])
    decreases |s| - i
  {
    if i == |s| || !IsAlnum(s[i]) then 0 else 1 + AlnumRun(s, i + 1)
  }

  /** A name of `n` characters starting at `from` is followed by the dot and `gif`. */
  predicate Completes(s: string, from: nat, n: nat, dot: Dot) {
    && from + n + 4 <= |s|
    && DotAccepts(dot, s[from + n])
    && s[from + n + 1] == 'g' && s[from + n + 2] == 'i' && s[from + n + 3] == 'f'
  }

  /** The literal `/gifs/` starts at `i`. */
  predicate OpensAt(s: string, i: nat) {
    && i + 6 <= |s|
    && s[i] == '/' && s[i + 1] == 'g' && s[i + 2] == 'i' && s[i + 3] == 'f' && s[i + 4] == 's'
    && s[i + 5] == '/'
  }

  /** The greedy `+` backing off: the longest name of at most `k` characters after which
      the rest of the pattern matches, or 0 when none does. */
  function NameLength(s: string, from: nat, k: nat, dot: Dot): (r: nat)
    ensures r <= k
    ensures r > 0 ==> Completes(s, from, r, dot)
    ensures forall n :: r < n <= k ==> !Completes(s, from, n, dot)
    decreases k
  {
    if k == 0 then 0
    else if Completes(s, from, k, dot) then k
    else NameLength(s, from, k - 1, dot)
  }

  /** A match: where its captured name starts and how long it is. The match itself starts
      six characters earlier and ends four characters after the name. */
  datatype Match = Match(nameStart: nat, nameLength: nat) {
    function End(): nat { nameStart + nameLength + 4 }
  }

  /** The match of the pattern that starts at `i`, if any. */
  function MatchAt(s: string, i: nat, dot: Dot): (r: Option<Match>)
    ensures r.Some? ==> r.value.nameStart == i + 6 && r.value.nameLength > 0 && r.value.End() <= |s|
    ensures r.Some? ==> OpensAt(s, i)
    ensures r.Some? ==> forall j :: i + 6 <= j < i + 6 + r.value.nameLength ==> IsAlnum(s[j])
    ensures r.Some? ==> Completes(s, i + 6, r.value.nameLength, dot)
  {
    if OpensAt(s, i) then
      var n := NameLength(s, i + 6, AlnumRun(s, i + 6), dot);
      if n > 0 then Some(Match(i + 6, n)) else None
    else None
  }

  /** `matches(in:range:)`: the non-overlapping matches from `i` on, left to right, each
      search resuming where the previous match ended. */
  function MatchesFrom(s: string, i: nat, dot: Dot): (r: seq<Match>)
    requires i <= |s|
    ensures forall k :: 0 <= k < |r| ==> i + 6 <= r[k].nameStart && r[k].End() <= |s|
    ensures forall k, l :: 0 <= k < l < |r| ==> r[k].End() <= r[l].nameStart - 6
    decreases |s| - i
  {
    if i == |s| then []
    else
      var here := MatchAt(s, i, dot);
      if here.Some? then
        var rest := MatchesFrom(s, here.value.End(), dot);
        var r := [here.value] + rest;
        assert forall k :: 1 <= k < |r| ==> r[k] == rest[k - 1];
        r
      else MatchesFrom(s, i + 1, dot)
  }

  function Matches(s: string, dot: Dot): seq<Match> {
    MatchesFrom(s, 0, dot)
  }

  lemma UnfoldSome(s: string, i: nat, dot: Dot)
    requires i < |s| && MatchAt(s, i, dot).Some?
    ensures MatchesFrom(s, i, dot) == [MatchAt(s, i, dot).value] + MatchesFrom(s, MatchAt(s, i, dot).value.End(), dot)
  {
  }

  lemma UnfoldNone(s: string, i: nat, dot: Dot)
    requires i < |s| && MatchAt(s, i, dot).None?
    ensures MatchesFrom(s, i, dot) == MatchesFrom(s, i + 1, dot)
  {
  }

  // ---------------------------------------------------------------------------
  // The rewrite

  /** One pass of the loop: the captured name is read from the text as it is now, and
      every occurrence of its short link is replaced when the table knows it. */
  function Step(table: map<string, string>, r: string, m: Match): (t: string)
    requires m.nameStart + m.nameLength <= |r|
    requires Lengthening(table)
    ensures |t| >= |r|
  {
    var name := r[m.nameStart..m.nameStart + m.nameLength];
    if name in table then ReplaceAll(r, ShortUrl(name), table[name]) else r
  }

  /** The text after the loop has handled the matches from the last one down to `ms[i]`. */
  function ApplyFrom(table: map<string, string>, s: string, ms: seq<Match>, i: nat): (r: string)
    requires Lengthening(table) && i <= |ms|
    requires forall k :: 0 <= k < |ms| ==> ms[k].End() <= |s|
    ensures |r| >= |s|
    decreases |ms| - i
  {
    if i == |ms| then s
    else Step(table, ApplyFrom(table, s, ms, i + 1), ms[i])
  }

  /** What `replaceShortURLsWithLongURLs(inString:)` returns. */
  function Rewrite(table: map<string, string>, s: string, dot: Dot): string
    requires Lengthening(table)
  {
    ApplyFrom(table, s, Matches(s, dot), 0)
  }

  /** `replaceShortURLsWithLongURLs(inString:)`, with the pattern as written: the matches
      are taken once, then handled from the last to the first, each reading its name from
      the text as the earlier passes left it. */
  method ReplaceShortUrlsWithLongUrls(table: map<string, string>, s: string) returns (result: string)
    requires Lengthening(table)
    ensures result == Rewrite(table, s, AnyChar)
  {
    var ms := Matches(s, AnyChar);
    result := s;
    for i := |ms| downto 0
      invariant result == ApplyFrom(table, s, ms, i)
    {
      var m := ms[i];
      var name := result[m.nameStart..m.nameStart + m.nameLength];
      if name in table {
        result := ReplaceAll(result, ShortUrl(name), table[name]);
      }
    }
  }

  // ---------------------------------------------------------------------------
  // What the pattern finds

  lemma {:induction false} AlnumRunExact(s: string, i: nat, k: nat)
    requires i + k <= |s|
    requires forall j :: i <= j < i + k ==> IsAlnum(s[j])
    requires i + k == |s| || !IsAlnum(s[i + k])
    ensures AlnumRun(s, i) == k
    decreases k
  {
    if k > 0 {
      AlnumRunExact(s, i + 1, k - 1);
    }
  }

  predicate AllAlnum(n: string) {
    forall j :: 0 <= j < |n| ==> IsAlnum(n[j])
  }

  /** The characters of a short link, placed at `|a|` in a text. */
  lemma ShortUrlChars(s: string, a: string, n: string, b: string)
    requires s == a + ShortUrl(n) + b
    ensures |s| == |a| + |n| + 10 + |b|
    ensures OpensAt(s, |a|)
    ensures forall j :: 0 <= j < |n| ==> s[|a| + 6 + j] == n[j]
    ensures s[|a| + 6 + |n|] == '.'
    ensures s[|a| + |n| + 7] == 'g' && s[|a| + |n| + 8] == 'i' && s[|a| + |n| + 9] == 'f'
  {
    assert s == a + ("/gifs/" + n + ".gif") + b;
  }

  /** A short link built from a name of letters and digits is matched by the pattern,
      under either reading of its dot, and the match captures exactly that name. */
  lemma ShortUrlMatches(s: string, a: string, n: string, b: string, dot: Dot)
    requires n != "" && AllAlnum(n)
    requires s == a + ShortUrl(n) + b
    ensures MatchAt(s, |a|, dot) == Some(Match(|a| + 6, |n|))
  {
    ShortUrlChars(s, a, n, b);
    AlnumRunExact(s, |a| + 6, |n|);
    assert Completes(s, |a| + 6, |n|, dot);
  }

  /** With a literal dot, the text of every match is the short link of the name it
      captures. */
  lemma LiteralDotFindsShortUrls(s: string, i: nat, m: Match)
    requires MatchAt(s, i, LiteralDot) == Some(m)
    ensures s[i..m.End()] == ShortUrl(s[m.nameStart..m.nameStart + m.nameLength])
  {
    var name := s[m.nameStart..m.nameStart + m.nameLength];
    var t := s[i..m.End()];
    var u := ShortUrl(name);
    assert u == "/gifs/" + name + ".gif";
    assert |t| == |u|;
    forall j | 0 <= j < |t|
      ensures t[j] == u[j]
    {
      if j >= 6 && j < 6 + |name| {
        assert u[j] == name[j - 6];
      }
    }
  }

  /** As written, the pattern also matches text that is not a short link: a name followed
      by any other character and `gif`. */
  lemma AnyCharMatchesNonShortUrl(s: string, n: string, c: char, t: string)
    requires n != "" && AllAlnum(n)
    requires !IsAlnum(c) && !IsLineTerminator(c) && c != '.'
    requires s == "/gifs/" + n + [c] + "gif" + t
    ensures MatchAt(s, 0, AnyChar) == Some(Match(6, |n|))
    ensures s[0..|n| + 10] != ShortUrl(n)
  {
    assert s == "/gifs/" + n + ([c] + "gif" + t);
    assert forall j :: 0 <= j < |n| ==> s[6 + j] == n[j];
    assert s[6 + |n|] == c;
    assert s[7 + |n|..10 + |n|] == "gif";
    AlnumRunExact(s, 6, |n|);
    assert Completes(s, 6, |n|, AnyChar);
    assert ShortUrl(n)[6 + |n|] == '.';
  }

  // ---------------------------------------------------------------------------
  // What the rewrite does

  /** A text with no match is returned unchanged. */
  lemma NoMatchUnchanged(table: map<string, string>, s: string, dot: Dot)
    requires Lengthening(table) && Matches(s, dot) == []
    ensures Rewrite(table, s, dot) == s
  {
  }

  /** When no captured name is in the table, every pass leaves the text alone. */
  lemma {:induction false} NoKnownNameUnchanged(table: map<string, string>, s: string, dot: Dot)
    requires Lengthening(table)
    requires forall k :: 0 <= k < |Matches(s, dot)| ==>
      s[Matches(s, dot)[k].nameStart..Matches(s, dot)[k].nameStart + Matches(s, dot)[k].nameLength] !in table
    ensures Rewrite(table, s, dot) == s
  {
    var ms := Matches(s, dot);
    var i := |ms|;
    while i > 0
      invariant 0 <= i <= |ms|
      invariant ApplyFrom(table, s, ms, i) == s
    {
      i := i - 1;
    }
  }

  /** A single match of a known short link, occurring nowhere else, is replaced by the
      table's address. */
  lemma SingleShortUrl(table: map<string, string>, s: string, a: string, n: string, b: string, dot: Dot)
    requires Lengthening(table) && n in table
    requires s == a + ShortUrl(n) + b
    requires Matches(s, dot) == [Match(|a| + 6, |n|)]
    requires forall i :: 0 <= i < |s| && i != |a| ==> !OccursAt(s, ShortUrl(n), i)
    ensures Rewrite(table, s, dot) == a + table[n] + b
  {
    ShortUrlChars(s, a, n, b);
    assert s[|a| + 6..|a| + 6 + |n|] == n;
    var ms := Matches(s, dot);
    assert ApplyFrom(table, s, ms, 1) == s;
    assert Rewrite(table, s, dot) == Step(table, s, ms[0]);
    ReplaceAllOnce(a, ShortUrl(n), b, table[n]);
  }

  /** No short link can start inside `p`: each `/` in it is followed, within `p`, by
      something other than `g`. */
  predicate LinkFree(p: string) {
    forall i :: 0 <= i < |p| && p[i] == '/' ==> i + 1 < |p| && p[i + 1] != 'g'
  }

  /** A rewrite never touches a prefix in which no short link can start. */
  lemma {:induction false} KeepsLinkFreePrefix(table: map<string, string>, p: string, x: string, dot: Dot)
    requires Lengthening(table) && LinkFree(p)
    ensures HasPrefix(Rewrite(table, p + x, dot), p)
  {
    var s := p + x;
    var ms := Matches(s, dot);
    var i := |ms|;
    while i > 0
      invariant 0 <= i <= |ms|
      invariant HasPrefix(ApplyFrom(table, s, ms, i), p)
    {
      i := i - 1;
      StepKeepsPrefix(table, ApplyFrom(table, s, ms, i + 1), ms[i], p);
    }
  }

  /** A text in which no short link can start has no match, so it is returned unchanged. */
  lemma LinkFreeUnchanged(table: map<string, string>, s: string, dot: Dot)
    requires Lengthening(table) && LinkFree(s)
    ensures Rewrite(table, s, dot) == s
  {
    assert forall i :: 0 <= i < |s| ==> !OpensAt(s, i);
    NoOpeningSkipped(s, 0, |s|, dot);
  }

  lemma LinkFreeConcat(a: string, b: string)
    requires LinkFree(a) && LinkFree(b)
    ensures LinkFree(a + b)
  {
    forall i | 0 <= i < |a + b| && (a + b)[i] == '/'
      ensures i + 1 < |a + b| && (a + b)[i + 1] != 'g'
    {
      if i < |a| {
        assert a[i] == '/';
      } else {
        assert b[i - |a|] == '/';
      }
    }
  }

  lemma StepKeepsPrefix(table: map<string, string>, r: string, m: Match, p: string)
    requires Lengthening(table) && m.nameStart + m.nameLength <= |r|
    requires LinkFree(p) && HasPrefix(r, p)
    ensures HasPrefix(Step(table, r, m), p)
  {
    var name := r[m.nameStart..m.nameStart + m.nameLength];
    if name in table {
      var pat := ShortUrl(name);
      assert pat[0] == '/' && pat[1] == 'g';
      var y := r[|p|..];
      assert r == p + y;
      forall i | 0 <= i < |p|
        ensures !OccursAt(p + y, pat, i)
      {
        assert (p + y)[i] == p[i];
        if p[i] == '/' {
          assert (p + y)[i + 1] == p[i + 1];
        }
      }
      ReplaceAllSkip(p, y, pat, table[name]);
    }
  }

  // ---------------------------------------------------------------------------
  // The unescaped dot, observed

  /** A stretch without `/gifs/` adds no match. */
  lemma {:induction false} NoOpeningSkipped(s: string, i: nat, j: nat, dot: Dot)
    requires i <= j <= |s|
    requires forall p :: i <= p < j ==> !OpensAt(s, p)
    ensures MatchesFrom(s, i, dot) == MatchesFrom(s, j, dot)
    decreases j - i
  {
    if i < j {
      UnfoldNone(s, i, dot);
      NoOpeningSkipped(s, i + 1, j, dot);
    }
  }

  /** Where the slashes and the dot of `/gifs/<n1>/gifs/<n2>.gif` are. */
  lemma ShadowLayout(s: string, n1: string, n2: string)
    requires AllAlnum(n1) && AllAlnum(n2)
    requires s == "/gifs/" + n1 + ShortUrl(n2)
    ensures |s| == |n1| + |n2| + 16
    ensures forall j :: 0 <= j < |n1| ==> s[6 + j] == n1[j]
    ensures forall j :: 0 <= j < |s| ==> (s[j] == '/' <==> j == 0 || j == 5 || j == 6 + |n1| || j == 11 + |n1|)
    ensures forall j :: 0 <= j < |s| ==> (s[j] == '.' <==> j == 12 + |n1| + |n2|)
    ensures OpensAt(s, 0) && s[7 + |n1|] == 'g' && s[8 + |n1|] == 'i' && s[9 + |n1|] == 'f'
  {
    var a := "/gifs/" + n1;
    ShortUrlChars(s, a, n2, "");
    assert s == a + ShortUrl(n2) + "";
    assert forall j :: 0 <= j < |a| ==> s[j] == a[j];
    assert forall j :: 0 <= j < |n1| ==> a[6 + j] == n1[j];
    forall j | 0 <= j < |s|
      ensures s[j] == '/' <==> j == 0 || j == 5 || j == 6 + |n1| || j == 11 + |n1|
      ensures s[j] == '.' <==> j == 12 + |n1| + |n2|
    {
      if 6 <= j < 6 + |n1| {
        assert s[j] == n1[j - 6];
      } else if 12 + |n1| <= j < 12 + |n1| + |n2| {
        assert s[j] == n2[j - 12 - |n1|];
      }
    }
  }

  /** The pattern as written matches the leading `/gifs/<n1>/gif`, which swallows the
      short link after it. */
  lemma ShadowMatchesAsWritten(s: string, n1: string, n2: string)
    requires n1 != "" && AllAlnum(n1) && n2 != "" && AllAlnum(n2)
    requires s == "/gifs/" + n1 + ShortUrl(n2)
    ensures Matches(s, AnyChar) == [Match(6, |n1|)]
  {
    ShadowLayout(s, n1, n2);
    AlnumRunExact(s, 6, |n1|);
    assert Completes(s, 6, |n1|, AnyChar);
    assert MatchAt(s, 0, AnyChar) == Some(Match(6, |n1|));
    UnfoldSome(s, 0, AnyChar);
    NoOpeningSkipped(s, 10 + |n1|, |s|, AnyChar);
  }

  lemma ShadowNoLeadingMatch(s: string, n1: string, n2: string)
    requires n1 != "" && AllAlnum(n1) && AllAlnum(n2)
    requires s == "/gifs/" + n1 + ShortUrl(n2)
    ensures MatchAt(s, 0, LiteralDot).None?
  {
    ShadowLayout(s, n1, n2);
    AlnumRunExact(s, 6, |n1|);
    forall n | 0 < n <= |n1|
      ensures !Completes(s, 6, n, LiteralDot)
    {
      assert s[6 + n] != '.';
    }
  }

  /** With a literal dot, the leading `/gifs/<n1>/` is no match and the short link is. */
  lemma ShadowMatchesIntended(s: string, n1: string, n2: string)
    requires n1 != "" && AllAlnum(n1) && n1[0] != 'g' && n2 != "" && AllAlnum(n2)
    requires s == "/gifs/" + n1 + ShortUrl(n2)
    ensures Matches(s, LiteralDot) == [Match(12 + |n1|, |n2|)]
  {
    ShadowLayout(s, n1, n2);
    ShadowNoLeadingMatch(s, n1, n2);
    UnfoldNone(s, 0, LiteralDot);
    NoOpeningSkipped(s, 1, 6 + |n1|, LiteralDot);
    ShortUrlMatches(s, "/gifs/" + n1, n2, "", LiteralDot);
    UnfoldSome(s, 6 + |n1|, LiteralDot);
  }

  /** The short link occurs once only: every occurrence has the text's one dot in it. */
  lemma ShadowOnlyOccurrence(s: string, n1: string, n2: string)
    requires AllAlnum(n1) && AllAlnum(n2)
    requires s == "/gifs/" + n1 + ShortUrl(n2)
    ensures forall i :: 0 <= i < |s| && i != 6 + |n1| ==> !OccursAt(s, ShortUrl(n2), i)
  {
    ShadowLayout(s, n1, n2);
    assert ShortUrl(n2)[6 + |n2|] == '.';
    forall i | 0 <= i < |s| && i != 6 + |n1|
      ensures !OccursAt(s, ShortUrl(n2), i)
    {
      if i + |ShortUrl(n2)| <= |s| {
        assert s[i + 6 + |n2|] == s[i..i + |ShortUrl(n2)|][6 + |n2|];
      }
    }
  }

  /** The page text `/gifs/<n1>/gifs/<n2>.gif`, with `n2` a known name and `n1` not: as
      written nothing is replaced; with the dot escaped the known link is. */
  lemma ShadowedShortUrl(table: map<string, string>, n1: string, n2: string)
    requires Lengthening(table)
    requires n1 != "" && AllAlnum(n1) && n1[0] != 'g' && n1 !in table
    requires n2 != "" && AllAlnum(n2) && n2 in table
    ensures Rewrite(table, "/gifs/" + n1 + ShortUrl(n2), AnyChar) == "/gifs/" + n1 + ShortUrl(n2)
    ensures Rewrite(table, "/gifs/" + n1 + ShortUrl(n2), LiteralDot) == "/gifs/" + n1 + table[n2]
  {
    var s := "/gifs/" + n1 + ShortUrl(n2);
    var a := "/gifs/" + n1;
    ShadowMatchesAsWritten(s, n1, n2);
    ShadowLayout(s, n1, n2);
    assert s[6..6 + |n1|] == n1;
    assert ApplyFrom(table, s, Matches(s, AnyChar), 1) == s;
    assert Rewrite(table, s, AnyChar) == Step(table, s, Match(6, |n1|));
    ShadowMatchesIntended(s, n1, n2);
    ShadowOnlyOccurrence(s, n1, n2);
    assert s == a + ShortUrl(n2) + "";
    SingleShortUrl(table, s, a, n2, "", LiteralDot);
  }
}
