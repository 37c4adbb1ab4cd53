/**
 * URLs as the browser core sees them through Foundation's `URL` and `URLComponents`:
 * an abstract record of scheme, host, path, query items and fragment, the parser
 * behind `URLComponents(string:)` / `URL(string:)`, the printer behind
 * `absoluteString`, and the check behind `URLComponents.url`.
 *
 * The parse splits a URI the way section 3 of RFC 3986 does: the scheme up to the
 * first ':' (when what precedes it is a scheme), the fragment after the first '#',
 * the query after the first '?', and the authority after a leading "//" up to the
 * next '/'. The whole authority is kept as the host. A text holding a character
 * that no URI may hold (section 2 of RFC 3986) does not parse.
 */
module Urls {
  import opened Wrappers
  import opened Text

  /** `URLQueryItem`: a name and an optional value. */
  datatype QueryItem = QueryItem(name: string, value: Option<string>)

  datatype Url = Url(
    scheme: Option<string>,
    host: Option<string>,
    path: string,
    query: Option<seq<QueryItem>>,
    fragment: Option<string>)

  predicate IsAlpha(c: char) {
    'a' <= c <= 'z' || 'A' <= c <= 'Z'
  }

  predicate IsDigit(c: char) {
    '0' <= c <= '9'
  }

  predicate IsSchemeChar(c: char) {
    IsAlpha(c) || IsDigit(c) || c == '+' || c == '-' || c == '.'
  }

  /** scheme = ALPHA *( ALPHA / DIGIT / "+" / "-" / "." ), section 3.1 of RFC 3986. */
  predicate IsScheme(s: string) {
    |s| > 0 && IsAlpha(s[0]) && forall i :: 0 <= i < |s| ==> IsSchemeChar(s[i])
  }

  /** Unreserved and reserved characters (section 2 of RFC 3986), and '%'. */
  predicate IsUrlChar(c: char) {
    || IsAlpha(c) || IsDigit(c)
    || c == '-' || c == '.' || c == '_' || c == '~'
    || c == ':' || c == '/' || c == '?' || c == '#' || c == '[' || c == ']' || c == '@'
    || c == '!' || c == '$' || c == '&' || c == '\'' || c == '(' || c == ')'
    || c == '*' || c == '+' || c == ',' || c == ';' || c == '='
    || c == '%'
  }

  predicate AllUrlChars(s: string) {
    forall i :: 0 <= i < |s| ==> IsUrlChar(s[i])
  }

  // ---------------------------------------------------------------------------
  // Parsing

  /** Length of the longest prefix made of scheme characters. */
  function SchemeRun(s: string): (n: nat)
    ensures n <= |s|
    ensures forall i :: 0 <= i < n ==> IsSchemeChar(s[i])
    ensures n < |s| ==> !IsSchemeChar(s[n])
  {
    if s == [] || !IsSchemeChar(s[0]) then 0 else 1 + SchemeRun(s[1..])
  }

  /** Splits off `scheme ":"` when the text starts with one. */
  function SplitScheme(s: string): (Option<string>, string) {
    var n := SchemeRun(s);
    if n < |s| && s[n] == ':' && IsScheme(s[..n]) then (Some(s[..n]), s[n + 1..]) else (None, s)
  }

  /** Splits off `"//" authority` when the text starts with "//". */
  function SplitAuthority(t: string): (Option<string>, string) {
    if HasPrefix(t, "//") then
      var host := SplitAtFirst(t[2..], '/');
      (Some(host.0), if host.1.Some? then "/" + host.1.value else "")
    else
      (None, t)
  }

  /** A query segment: the name before the first '=', the value after it (none without '='). */
  function ParseItem(seg: string): QueryItem {
    var (n, v) := SplitAtFirst(seg, '=');
    QueryItem(n, v)
  }

  /** The items of a query: its '&'-separated segments, empty ones included; an empty query
      has no items. */
  function ParseQuery(q: string): seq<QueryItem> {
    if q == "" then []
    else
      var segs := SplitKeep(q, '&');
      seq(|segs|, i requires 0 <= i < |segs| => ParseItem(segs[i]))
  }

  function QueryItems(query: Option<string>): Option<seq<QueryItem>> {
    if query.Some? then Some(ParseQuery(query.value)) else None
  }

  /** The record the parts of a text make, whatever characters it holds. */
  function Components(s: string): Url {
    var scheme := SplitScheme(s);
    var fragment := SplitAtFirst(scheme.1, '#');
    var query := SplitAtFirst(fragment.0, '?');
    var authority := SplitAuthority(query.0);
    Url(scheme.0, authority.0, authority.1, QueryItems(query.1), fragment.1)
  }

  /** `URLComponents(string:)`, and `URL(string:)`. */
  function Parse(s: string): (r: Option<Url>)
    ensures r.None? <==> !AllUrlChars(s)
    ensures r.Some? ==> r.value == Components(s)
  {
    if !AllUrlChars(s) then None else Some(Components(s))
  }

  // ---------------------------------------------------------------------------
  // Printing

  function ItemString(it: QueryItem): string {
    it.name + (if it.value.Some? then "=" + it.value.value else "")
  }

  function ItemStrings(items: seq<QueryItem>): seq<string> {
    seq(|items|, i requires 0 <= i < |items| => ItemString(items[i]))
  }

  function QueryString(items: seq<QueryItem>): string {
    Join(ItemStrings(items), "&")
  }

  function SchemeText(scheme: Option<string>): string {
    if scheme.Some? then scheme.value + ":" else ""
  }

  function HostText(host: Option<string>): string {
    if host.Some? then "//" + host.value else ""
  }

  function QueryText(query: Option<seq<QueryItem>>): string {
    if query.Some? then "?" + QueryString(query.value) else ""
  }

  function FragmentText(fragment: Option<string>): string {
    if fragment.Some? then "#" + fragment.value else ""
  }

  /** `absoluteString`. */
  function AbsoluteString(u: Url): string {
    SchemeText(u.scheme) + HostText(u.host) + u.path + QueryText(u.query) + FragmentText(u.fragment)
  }

  /** `URLComponents.url`: nil when the path cannot follow the authority, or its absence. */
  function ToUrl(c: Url): (r: Option<Url>)
    ensures r.Some? ==> r.value == c
    ensures r.None? <==> (c.host.Some? && c.path != "" && c.path[0] != '/') || (c.host.None? && HasPrefix(c.path, "//"))
  {
    if c.host.Some? && c.path != "" && c.path[0] != '/' then None
    else if c.host.None? && HasPrefix(c.path, "//") then None
    else Some(c)
  }

  // ---------------------------------------------------------------------------
  // Round trips between text and record

  lemma {:induction false} ItemRoundTrip(it: QueryItem)
    requires '=' !in it.name
    ensures ParseItem(ItemString(it)) == it
  {
    if it.value.Some? {
      SplitAtFirstAt(it.name, '=', it.value.value);
      assert ItemString(it) == it.name + ['='] + it.value.value;
    } else {
      assert ItemString(it) == it.name;
      SplitAtFirstAbsent(it.name, '=');
    }
  }

  lemma {:induction false} QueryStringOfParse(q: string)
    ensures QueryString(ParseQuery(q)) == q
  {
    if q != "" {
      var segs := SplitKeep(q, '&');
      var items := ParseQuery(q);
      forall i | 0 <= i < |segs|
        ensures ItemString(items[i]) == segs[i]
      {
        var (n, v) := SplitAtFirst(segs[i], '=');
      }
      assert ItemStrings(items) == segs;
      JoinSplitKeep(q, '&');
    }
  }

  lemma SplitSchemeRebuild(s: string)
    ensures SchemeText(SplitScheme(s).0) + SplitScheme(s).1 == s
  {
    var n := SchemeRun(s);
    if n < |s| && s[n] == ':' && IsScheme(s[..n]) {
      assert s == s[..n] + ":" + s[n + 1..];
    }
  }

  lemma SplitFragmentRebuild(t: string)
    ensures SplitAtFirst(t, '#').0 + FragmentText(SplitAtFirst(t, '#').1) == t
  {
  }

  lemma SplitQueryRebuild(t: string)
    ensures var (b, q) := SplitAtFirst(t, '?');
      b + QueryText(if q.Some? then Some(ParseQuery(q.value)) else None) == t
  {
    var (b, q) := SplitAtFirst(t, '?');
    if q.Some? {
      QueryStringOfParse(q.value);
    }
  }

  lemma SplitAuthorityRebuild(t: string)
    ensures HostText(SplitAuthority(t).0) + SplitAuthority(t).1 == t
  {
    if HasPrefix(t, "//") {
      var r := SplitAtFirst(t[2..], '/');
      var p := if r.1.Some? then "/" + r.1.value else "";
      assert SplitAuthority(t) == (Some(r.0), p);
      assert t[2..] == r.0 + p by {
        if r.1.Some? {
          assert t[2..] == r.0 + ['/'] + r.1.value;
        }
      }
      var h := r.0;
      assert HostText(Some(h)) == t[..2] + h;
      assert t == t[..2] + (h + p);
      assert (t[..2] + h) + p == t[..2] + (h + p);
    }
  }

  lemma Reassociate(a: string, b: string, c: string, d: string, e: string)
    ensures a + b + c + d + e == a + (((b + c) + d) + e)
  {
  }

  lemma {:induction false} PrintComponents(s: string)
    ensures AbsoluteString(Components(s)) == s
  {
    var sc := SplitScheme(s);
    var fr := SplitAtFirst(sc.1, '#');
    var qu := SplitAtFirst(fr.0, '?');
    var au := SplitAuthority(qu.0);
    var query := QueryItems(qu.1);
    SplitSchemeRebuild(s);
    SplitFragmentRebuild(sc.1);
    SplitQueryRebuild(fr.0);
    SplitAuthorityRebuild(qu.0);
    var a, b, c, d, e := SchemeText(sc.0), HostText(au.0), au.1, QueryText(query), FragmentText(fr.1);
    assert AbsoluteString(Components(s)) == a + b + c + d + e;
    assert b + c == qu.0;
    assert qu.0 + d == fr.0;
    assert fr.0 + e == sc.1;
    assert a + sc.1 == s;
    Reassociate(a, b, c, d, e);
  }

  /** Everything `absoluteString` prints after the scheme. */
  function AfterScheme(u: Url): string {
    HostText(u.host) + u.path + QueryText(u.query) + FragmentText(u.fragment)
  }

  lemma AbsoluteSplit(u: Url)
    ensures AbsoluteString(u) == SchemeText(u.scheme) + AfterScheme(u)
  {
    Reassociate(SchemeText(u.scheme), HostText(u.host), u.path, QueryText(u.query), FragmentText(u.fragment));
  }

  lemma UrlCharsConcat(a: string, b: string)
    ensures AllUrlChars(a + b) <==> AllUrlChars(a) && AllUrlChars(b)
  {
    if AllUrlChars(a + b) {
      forall i | 0 <= i < |a| ensures IsUrlChar(a[i]) {
        assert a[i] == (a + b)[i];
      }
      forall i | 0 <= i < |b| ensures IsUrlChar(b[i]) {
        assert b[i] == (a + b)[|a| + i];
      }
    }
    if AllUrlChars(a) && AllUrlChars(b) {
      forall i | 0 <= i < |a + b| ensures IsUrlChar((a + b)[i]) {
        if i < |a| {
          assert (a + b)[i] == a[i];
        } else {
          assert (a + b)[i] == b[i - |a|];
        }
      }
    }
  }

  /** Replacing one scheme by another keeps a record well formed. */
  lemma WellFormedWithScheme(u: Url, sc: string)
    requires WellFormed(u) && u.scheme.Some? && IsScheme(sc)
    ensures WellFormed(u.(scheme := Some(sc)))
  {
    var t := u.(scheme := Some(sc));
    AbsoluteSplit(u);
    AbsoluteSplit(t);
    assert AfterScheme(t) == AfterScheme(u);
    UrlCharsConcat(SchemeText(u.scheme), AfterScheme(u));
    UrlCharsConcat(SchemeText(t.scheme), AfterScheme(u));
    UrlCharsConcat(sc, ":");
    assert AllUrlChars(sc);
  }

  /** Printing a parsed URL gives back the text it was parsed from. */
  lemma PrintParse(s: string)
    requires Parse(s).Some?
    ensures AbsoluteString(Parse(s).value) == s
  {
    PrintComponents(s);
  }

  predicate ItemWellFormed(it: QueryItem) {
    && '&' !in it.name && '=' !in it.name && '#' !in it.name
    && (it.value.Some? ==> '&' !in it.value.value && '#' !in it.value.value)
  }

  /** Items whose printed query parses back into the same items. */
  predicate QueryWellFormed(items: seq<QueryItem>) {
    && (forall i :: 0 <= i < |items| ==> ItemWellFormed(items[i]))
    && items != [QueryItem("", None)]
  }

  /** A record that `absoluteString` prints in a form that parses back into it. */
  predicate WellFormed(u: Url) {
    AllUrlChars(AbsoluteString(u)) && Shaped(u)
  }

  /** The parts of a record cannot be mistaken for one another once printed. */
  predicate Shaped(u: Url) {
    && (u.scheme.Some? ==> IsScheme(u.scheme.value))
    && (u.host.Some? ==> '/' !in u.host.value && '?' !in u.host.value && '#' !in u.host.value)
    && '?' !in u.path && '#' !in u.path
    && (u.host.Some? ==> u.path == "" || u.path[0] == '/')
    && (u.host.None? ==> !HasPrefix(u.path, "//"))
    && (u.scheme.None? && u.host.None? ==> u.path == "" || u.path[0] == '/')
    && (u.query.Some? ==> QueryWellFormed(u.query.value))
  }

  lemma {:induction false} JoinAvoids(xs: seq<string>, sep: string, c: char)
    requires c !in sep
    requires forall i :: 0 <= i < |xs| ==> c !in xs[i]
    ensures c !in Join(xs, sep)
  {
    if |xs| > 1 {
      JoinAvoids(xs[1..], sep, c);
    }
  }

  lemma {:induction false} SchemeRunAt(a: string, t: string)
    requires forall i :: 0 <= i < |a| ==> IsSchemeChar(a[i])
    requires t == [] || !IsSchemeChar(t[0])
    ensures SchemeRun(a + t) == |a|
  {
    if a != [] {
      assert (a + t)[1..] == a[1..] + t;
      SchemeRunAt(a[1..], t);
    } else {
      assert a + t == t;
    }
  }

  lemma {:induction false} ParseQueryOfString(items: seq<QueryItem>)
    requires QueryWellFormed(items)
    ensures ParseQuery(QueryString(items)) == items
  {
    var strs := ItemStrings(items);
    if |items| == 1 {
      assert QueryString(items) == ItemString(items[0]);
    } else if |items| > 1 {
      assert '&' in QueryString(items) by {
        assert QueryString(items) == strs[0] + "&" + Join(strs[1..], "&");
        assert QueryString(items)[|strs[0]|] == '&';
      }
    }
    if items != [] {
      assert QueryString(items) != "";
      SplitKeepJoin(strs, '&');
      var segs := SplitKeep(QueryString(items), '&');
      assert segs == strs;
      forall i | 0 <= i < |items|
        ensures ParseItem(segs[i]) == items[i]
      {
        ItemRoundTrip(items[i]);
      }
    }
  }

  /** A well-formed record survives printing and parsing unchanged. */
  lemma ParsePrint(u: Url)
    requires WellFormed(u)
    ensures Parse(AbsoluteString(u)) == Some(u)
  {
    ComponentsOfPrint(u);
  }

  lemma SchemeOfPrint(scheme: Option<string>, rest: string)
    requires scheme.Some? ==> IsScheme(scheme.value)
    requires scheme.None? ==> rest == [] || !IsSchemeChar(rest[0])
    ensures SplitScheme(SchemeText(scheme) + rest) == (scheme, rest)
  {
    var s := SchemeText(scheme) + rest;
    if scheme.Some? {
      var sc := scheme.value;
      assert s == sc + (":" + rest);
      SchemeRunAt(sc, ":" + rest);
      assert s[..|sc|] == sc;
      assert s[|sc|] == ':';
      assert s[|sc| + 1..] == rest;
    } else {
      assert s == rest;
      SchemeRunAt([], rest);
      assert s[..0] == [];
    }
  }

  lemma FragmentOfPrint(a: string, fragment: Option<string>)
    requires '#' !in a
    ensures SplitAtFirst(a + FragmentText(fragment), '#') == (a, fragment)
  {
    if fragment.Some? {
      assert a + FragmentText(fragment) == a + ['#'] + fragment.value;
      SplitAtFirstAt(a, '#', fragment.value);
    } else {
      assert a + FragmentText(fragment) == a;
      SplitAtFirstAbsent(a, '#');
    }
  }

  lemma QueryOfPrint(hp: string, query: Option<seq<QueryItem>>)
    requires '?' !in hp
    requires query.Some? ==> QueryWellFormed(query.value)
    ensures SplitAtFirst(hp + QueryText(query), '?').0 == hp
    ensures QueryItems(SplitAtFirst(hp + QueryText(query), '?').1) == query
  {
    if query.Some? {
      assert hp + QueryText(query) == hp + ['?'] + QueryString(query.value);
      SplitAtFirstAt(hp, '?', QueryString(query.value));
      ParseQueryOfString(query.value);
    } else {
      assert hp + QueryText(query) == hp;
      SplitAtFirstAbsent(hp, '?');
    }
  }

  lemma AuthorityOfPrint(host: Option<string>, path: string)
    requires host.Some? ==> '/' !in host.value && (path == "" || path[0] == '/')
    requires host.None? ==> !HasPrefix(path, "//")
    ensures SplitAuthority(HostText(host) + path) == (host, path)
  {
    var hp := HostText(host) + path;
    if host.Some? {
      var h := host.value;
      assert hp == "//" + (h + path);
      assert HasPrefix(hp, "//");
      assert hp[2..] == h + path;
      if path == "" {
        assert h + path == h;
        SplitAtFirstAbsent(h, '/');
      } else {
        assert h + path == h + ['/'] + path[1..];
        SplitAtFirstAt(h, '/', path[1..]);
        assert "/" + path[1..] == path;
      }
    } else {
      assert hp == path;
    }
  }

  lemma HostPathAvoidHash(host: Option<string>, path: string)
    requires host.Some? ==> '#' !in host.value
    requires '#' !in path
    ensures '#' !in HostText(host) + path
  {
  }

  lemma QueryTextAvoidsHash(query: Option<seq<QueryItem>>)
    requires query.Some? ==> QueryWellFormed(query.value)
    ensures '#' !in QueryText(query)
  {
    if query.Some? {
      JoinAvoids(ItemStrings(query.value), "&", '#');
    }
  }

  lemma ComponentsOfPrint(u: Url)
    requires Shaped(u)
    ensures Components(AbsoluteString(u)) == u
  {
    var a, b, c, d, e := SchemeText(u.scheme), HostText(u.host), u.path, QueryText(u.query), FragmentText(u.fragment);
    var hp := b + c;
    var bf := hp + d;
    var rest := bf + e;
    Reassociate(a, b, c, d, e);
    assert AbsoluteString(u) == a + rest;
    assert u.scheme.None? ==> rest == [] || !IsSchemeChar(rest[0]) by {
      if u.scheme.Some? {
      } else if u.host.Some? {
        assert rest[0] == '/';
      } else if u.path != "" {
        assert rest[0] == u.path[0];
      } else if u.query.Some? {
        assert rest[0] == '?';
      } else if u.fragment.Some? {
        assert rest[0] == '#';
      }
    }
    SchemeOfPrint(u.scheme, rest);
    HostPathAvoidHash(u.host, u.path);
    QueryTextAvoidsHash(u.query);
    assert '#' !in bf;
    FragmentOfPrint(bf, u.fragment);
    QueryOfPrint(hp, u.query);
    AuthorityOfPrint(u.host, u.path);
  }

  /** A parsed record always satisfies `URLComponents.url`'s check. */
  lemma ParsedIsUrl(s: string)
    requires Parse(s).Some?
    ensures ToUrl(Parse(s).value) == Parse(s)
  {
  }

  // ---------------------------------------------------------------------------
  // Lower-casing

  function LowerOpt(o: Option<string>): Option<string> {
    if o.Some? then Some(Lower(o.value)) else None
  }

  function LowerItem(it: QueryItem): QueryItem {
    QueryItem(Lower(it.name), LowerOpt(it.value))
  }

  function LowerItems(items: seq<QueryItem>): seq<QueryItem> {
    seq(|items|, i requires 0 <= i < |items| => LowerItem(items[i]))
  }

  /** Every textual part of the record lower-cased. */
  function LowerUrl(u: Url): Url {
    Url(LowerOpt(u.scheme), LowerOpt(u.host), Lower(u.path),
        if u.query.Some? then Some(LowerItems(u.query.value)) else None,
        LowerOpt(u.fragment))
  }

  lemma LowerItemString(it: QueryItem)
    ensures Lower(ItemString(it)) == ItemString(LowerItem(it))
  {
    if it.value.Some? {
      LowerConcat(it.name, "=" + it.value.value);
      LowerConcat("=", it.value.value);
    } else {
      assert ItemString(it) == it.name;
    }
  }

  lemma LowerQueryString(items: seq<QueryItem>)
    ensures Lower(QueryString(items)) == QueryString(LowerItems(items))
  {
    LowerJoin(ItemStrings(items), "&");
    var ys := seq(|items|, i requires 0 <= i < |items| => Lower(ItemStrings(items)[i]));
    forall i | 0 <= i < |items|
      ensures ys[i] == ItemStrings(LowerItems(items))[i]
    {
      LowerItemString(items[i]);
    }
    assert ys == ItemStrings(LowerItems(items));
  }

  lemma LowerPrefixed(p: string, t: string)
    requires Lower(p) == p
    ensures Lower(p + t) == p + Lower(t)
  {
    LowerConcat(p, t);
  }

  lemma LowerParts(u: Url)
    ensures Lower(SchemeText(u.scheme)) == SchemeText(LowerUrl(u).scheme)
    ensures Lower(HostText(u.host)) == HostText(LowerUrl(u).host)
    ensures Lower(QueryText(u.query)) == QueryText(LowerUrl(u).query)
    ensures Lower(FragmentText(u.fragment)) == FragmentText(LowerUrl(u).fragment)
  {
    if u.scheme.Some? {
      LowerConcat(u.scheme.value, ":");
    }
    if u.host.Some? {
      LowerPrefixed("//", u.host.value);
    }
    if u.query.Some? {
      LowerPrefixed("?", QueryString(u.query.value));
      LowerQueryString(u.query.value);
    }
    if u.fragment.Some? {
      LowerPrefixed("#", u.fragment.value);
    }
  }

  /** Lower-casing the printed text is printing the lower-cased record. */
  lemma LowerAbsoluteString(u: Url)
    ensures Lower(AbsoluteString(u)) == AbsoluteString(LowerUrl(u))
  {
    var a, b, c, d, e := SchemeText(u.scheme), HostText(u.host), u.path, QueryText(u.query), FragmentText(u.fragment);
    LowerParts(u);
    LowerConcat(a + b + c + d, e);
    LowerConcat(a + b + c, d);
    LowerConcat(a + b, c);
    LowerConcat(a, b);
  }

  lemma LowerUrlChars(s: string)
    ensures AllUrlChars(Lower(s)) <==> AllUrlChars(s)
  {
    forall i | 0 <= i < |s|
      ensures IsUrlChar(Lower(s)[i]) <==> IsUrlChar(s[i])
    {
    }
  }

  /** Lower-casing keeps a record printable and parsable. */
  lemma LowerKeepsWellFormed(u: Url)
    requires WellFormed(u)
    ensures WellFormed(LowerUrl(u))
  {
    LowerAbsoluteString(u);
    LowerUrlChars(AbsoluteString(u));
    LowerKeepsShaped(u);
  }

  lemma LowerKeepsShaped(u: Url)
    requires Shaped(u)
    ensures Shaped(LowerUrl(u))
  {
    if u.host.Some? {
      LowerKeepsNonLetter(u.host.value, '/');
      LowerKeepsNonLetter(u.host.value, '?');
      LowerKeepsNonLetter(u.host.value, '#');
    }
    LowerKeepsNonLetter(u.path, '?');
    LowerKeepsNonLetter(u.path, '#');
    if u.host.None? && |u.path| >= 2 {
      assert Lower(u.path)[..2] == [LowerChar(u.path[0]), LowerChar(u.path[1])];
      assert u.path[..2] == [u.path[0], u.path[1]];
    }
    if u.query.Some? {
      var items := u.query.value;
      forall i | 0 <= i < |items|
        ensures ItemWellFormed(LowerItems(items)[i])
      {
        var it := items[i];
        LowerKeepsNonLetter(it.name, '&');
        LowerKeepsNonLetter(it.name, '=');
        LowerKeepsNonLetter(it.name, '#');
        if it.value.Some? {
          LowerKeepsNonLetter(it.value.value, '&');
          LowerKeepsNonLetter(it.value.value, '#');
        }
      }
      if |items| == 1 {
        assert items == [items[0]];
        var it := items[0];
        if it.name == "" {
          assert it.value.Some?;
        } else {
          assert |Lower(it.name)| > 0;
        }
        assert LowerItems(items) == [LowerItem(it)];
      }
    }
  }
}
