/**
 * The `URL` extension the browser uses for the address bar, history and search:
 * reading a typed string as a URL, the Google fallback, the deduplication key, the
 * display form without scheme and `www.`, and projections of host and query.
 */
module UrlHelpers {
  import opened Wrappers
  import opened Text
  import opened StringHelpers
  import opened Urls

  // ---------------------------------------------------------------------------
  // Reading typed text as a URL

  /** `stringHasURLScheme`: the text parses and names a non-empty scheme. */
  predicate HasUrlScheme(s: string) {
    Parse(s).Some? && Parse(s).value.scheme.Some? && |Parse(s).value.scheme.value| > 0
  }

  lemma HttpsScheme(s: string)
    ensures SplitScheme("https://" + s) == (Some("https"), "//" + s)
  {
    assert "https://" + s == SchemeText(Some("https")) + ("//" + s);
    SchemeOfPrint(Some("https"), "//" + s);
  }

  /** `withNaturalString`: nil unless the text holds ':' or '.'; the text itself when it names
      a scheme; otherwise the text behind "https://". */
  function WithNaturalString(s: string): (r: Option<Url>)
    ensures ':' !in s && '.' !in s ==> r.None?
    ensures r.None? <==> (':' !in s && '.' !in s) || !AllUrlChars(s)
    ensures r.Some? ==> r.value.scheme.Some?
  {
    UrlCharsConcat("https://", s);
    HttpsScheme(s);
    if !(':' in s || '.' in s) then None
    else if HasUrlScheme(s) then Parse(s)
    else Parse("https://" + s)
  }

  /** The two ways a typed text becomes a URL: as written when it names a scheme, and
      otherwise as an https URL whose printed form is the text behind "https://". */
  lemma NaturalStringCases(s: string)
    requires WithNaturalString(s).Some?
    ensures HasUrlScheme(s) ==> WithNaturalString(s) == Parse(s) && AbsoluteString(WithNaturalString(s).value) == s
    ensures !HasUrlScheme(s) ==>
      && WithNaturalString(s).value.scheme == Some("https")
      && AbsoluteString(WithNaturalString(s).value) == "https://" + s
  {
    if HasUrlScheme(s) {
      PrintParse(s);
    } else {
      HttpsScheme(s);
      PrintParse("https://" + s);
    }
  }

  /** `googleSearch`. */
  function GoogleSearch(q: string): (r: Url)
    ensures AbsoluteString(r) == "https://google.com/search?q=" + q
    ensures QueryParam(r, "q") == Some(q)
  {
    var r := Url(Some("https"), Some("google.com"), "/search", Some([QueryItem("q", Some(q))]), None);
    assert ItemString(QueryItem("q", Some(q))) == "q=" + q;
    assert ItemStrings([QueryItem("q", Some(q))]) == ["q=" + q];
    r
  }

  /** A typed text never reads as its own Google search: the search's text is longer. */
  lemma NaturalIsNotSearch(q: string)
    ensures WithNaturalString(q) != Some(GoogleSearch(q))
  {
    if WithNaturalString(q).Some? {
      NaturalStringCases(q);
      var u := WithNaturalString(q).value;
      assert |AbsoluteString(u)| < |AbsoluteString(GoogleSearch(q))|;
    }
  }

  /** `withSearchQuery`: the typed text as a URL, or a Google search for it. */
  function WithSearchQuery(q: string): (r: Url)
    ensures r == GoogleSearch(q) <==> WithNaturalString(q).None?
    ensures WithNaturalString(q).Some? ==> r == WithNaturalString(q).value
  {
    NaturalIsNotSearch(q);
    WithNaturalString(q).GetOr(GoogleSearch(q))
  }

  // ---------------------------------------------------------------------------
  // The history key

  /** `shouldDropQueryItemForHistoryKey`. */
  predicate ShouldDrop(it: QueryItem) {
    it.value.GetOr("") == "" || HasPrefix(it.name, "utm_")
  }

  /** The items the history key keeps, in their order. */
  function KeptItems(items: seq<QueryItem>): (r: seq<QueryItem>)
    ensures |r| <= |items|
    ensures forall it :: it in r <==> it in items && !ShouldDrop(it)
  {
    if items == [] then []
    else (if ShouldDrop(items[0]) then [] else [items[0]]) + KeptItems(items[1..])
  }

  /** Filtering works item by item, so the kept items keep their relative order. */
  lemma {:induction false} KeptItemsAppend(a: seq<QueryItem>, b: seq<QueryItem>)
    ensures KeptItems(a + b) == KeptItems(a) + KeptItems(b)
  {
    if a != [] {
      assert (a + b)[1..] == a[1..] + b;
      KeptItemsAppend(a[1..], b);
    } else {
      assert a + b == b;
    }
  }

  /** Removes one leading "www" label. */
  function StripWww(parts: seq<string>): seq<string> {
    if |parts| > 0 && parts[0] == "www" then parts[1..] else parts
  }

  /** The components the key prints: http for https, no fragment, the host's non-empty labels
      without one leading "www", and the kept query items. */
  function KeyComponents(c: Url): Url {
    Url(if c.scheme == Some("https") then Some("http") else c.scheme,
        Some(Join(StripWww(SplitOmit(c.host.GetOr(""), '.')), ".")),
        c.path,
        if c.query.Some? then Some(KeptItems(c.query.value)) else None,
        None)
  }

  /** Drops one trailing '/'. */
  function DropTrailingSlash(s: string): (r: string)
    ensures HasSuffix(s, "/") ==> r + "/" == s
    ensures !HasSuffix(s, "/") ==> r == s
  {
    if HasSuffix(s, "/") then s[..|s| - 1] else s
  }

  /** `historyKey`, which `normalizedKey` also returns. */
  function HistoryKey(u: Url): string {
    var abs := AbsoluteString(u);
    var parsed := Parse(Lower(abs));
    if parsed.None? then abs
    else
      var comps := KeyComponents(parsed.value);
      var str := if ToUrl(comps).Some? then AbsoluteString(ToUrl(comps).value) else abs;
      DropTrailingSlash(str)
  }

  /** A URL whose text does not parse is its own key, not lower-cased. */
  lemma HistoryKeyUnparsable(u: Url)
    requires !AllUrlChars(AbsoluteString(u))
    ensures HistoryKey(u) == AbsoluteString(u)
  {
    LowerUrlChars(AbsoluteString(u));
  }

  /** For a well-formed URL with a host, the key is the printed key components of the
      lower-cased URL, less one trailing '/'. */
  lemma KeyOfWellFormed(u: Url)
    requires WellFormed(u) && u.host.Some?
    ensures ToUrl(KeyComponents(LowerUrl(u))).Some?
    ensures HistoryKey(u) == DropTrailingSlash(AbsoluteString(KeyComponents(LowerUrl(u))))
  {
    LowerAbsoluteString(u);
    LowerKeepsWellFormed(u);
    ParsePrint(LowerUrl(u));
    if u.path != "" {
      assert Lower(u.path)[0] == '/';
    }
  }

  /** An https URL and its http twin share their key. */
  lemma TwinsShareKey(u: Url)
    requires WellFormed(u) && u.host.Some? && u.scheme == Some("https")
    ensures HistoryKey(u) == HistoryKey(u.(scheme := Some("http")))
  {
    var t := u.(scheme := Some("http"));
    assert IsScheme("http");
    WellFormedWithScheme(u, "http");
    KeyOfWellFormed(u);
    KeyOfWellFormed(t);
    KeyIgnoresHttps(u);
  }

  lemma KeyIgnoresHttps(u: Url)
    requires u.scheme == Some("https")
    ensures KeyComponents(LowerUrl(u)) == KeyComponents(LowerUrl(u.(scheme := Some("http"))))
  {
    LowerUnchanged("https");
    LowerUnchanged("http");
  }

  lemma ItemsAvoid(items: seq<QueryItem>, c: char)
    requires forall i :: 0 <= i < |items| ==> c !in items[i].name
    requires forall i :: 0 <= i < |items| ==> items[i].value.Some? ==> c !in items[i].value.value
    requires c != '&' && c != '='
    ensures c !in QueryString(items)
  {
    JoinAvoids(ItemStrings(items), "&", c);
  }

  /** The key of a well-formed URL with a host holds no fragment. */
  lemma KeyHasNoFragment(u: Url)
    requires WellFormed(u) && u.host.Some?
    ensures '#' !in HistoryKey(u)
  {
    KeyOfWellFormed(u);
    LowerKeepsWellFormed(u);
    KeyAvoidsHash(LowerUrl(u));
  }

  lemma KeyAvoidsHash(v: Url)
    requires Shaped(v) && v.host.Some?
    ensures '#' !in AbsoluteString(KeyComponents(v))
  {
    var k := KeyComponents(v);
    if v.scheme.Some? {
      assert '#' !in v.scheme.value by {
        assert IsScheme(v.scheme.value);
      }
    }
    HostLabelsAvoid(v.host.value, '#');
    if v.query.Some? {
      KeptItemsAvoidHash(v.query.value);
    }
    AbsoluteSplit(k);
  }

  lemma HostLabelsAvoid(h: string, c: char)
    requires c != '.' && c !in h
    ensures c !in Join(StripWww(SplitOmit(h, '.')), ".")
  {
    var pieces := StripWww(SplitOmit(h, '.'));
    SplitKeepAvoids(h, '.', c);
    assert forall i :: 0 <= i < |pieces| ==> c !in pieces[i];
    JoinAvoids(pieces, ".", c);
  }

  lemma KeptItemsAvoidHash(items: seq<QueryItem>)
    requires QueryWellFormed(items)
    ensures '#' !in QueryString(KeptItems(items))
  {
    var kept := KeptItems(items);
    forall i | 0 <= i < |kept|
      ensures '#' !in kept[i].name && (kept[i].value.Some? ==> '#' !in kept[i].value.value)
    {
      assert kept[i] in items;
      var j :| 0 <= j < |items| && items[j] == kept[i];
      assert ItemWellFormed(items[j]);
    }
    ItemsAvoid(kept, '#');
  }

  /** The labels of "www." + rest and of "www.www." + rest, less one leading "www", for a
      rest holding no '.'. */
  lemma StripOneWww(rest: string, once: string, twice: string)
    requires rest != "" && '.' !in rest
    requires once == "www." + rest && twice == "www." + once
    ensures Join(StripWww(SplitOmit(once, '.')), ".") == rest
    ensures Join(StripWww(SplitOmit(twice, '.')), ".") == once
  {
    assert once == "www" + ['.'] + rest;
    assert twice == "www" + ['.'] + once;
    SplitOmitFirst("www", '.', rest);
    SplitOmitFirst("www", '.', once);
    SplitOmitLast(rest, '.');
    assert SplitOmit(once, '.') == ["www", rest];
    assert SplitOmit(twice, '.') == ["www", "www", rest];
    assert StripWww(["www", "www", rest]) == ["www", rest];
  }

  lemma NoTrailingSlash(p: string, t: string)
    requires t != "" && '/' !in t
    ensures DropTrailingSlash(p + t) == p + t
  {
    assert (p + t)[|p + t| - 1] == t[|t| - 1];
  }

  /** The key of "http://" + h, for a lower-case host h that needs no escaping. */
  lemma PlainHostKey(h: string)
    requires AllUrlChars(h) && NoUpper(h) && '/' !in h && '?' !in h && '#' !in h
    ensures WellFormed(Url(Some("http"), Some(h), "", None, None))
    ensures HistoryKey(Url(Some("http"), Some(h), "", None, None)) ==
      DropTrailingSlash("http://" + Join(StripWww(SplitOmit(h, '.')), "."))
  {
    var u := Url(Some("http"), Some(h), "", None, None);
    PrintHttpHost(h);
    assert AllUrlChars("http://");
    UrlCharsConcat("http://", h);
    assert AllUrlChars(AbsoluteString(u));
    assert IsScheme("http");
    assert Shaped(u);
    assert WellFormed(u);
    LowerUnchanged("http");
    LowerUnchanged(h);
    assert LowerUrl(u) == u;
    KeyOfWellFormed(u);
    var j := Join(StripWww(SplitOmit(h, '.')), ".");
    assert KeyComponents(u) == Url(Some("http"), Some(j), "", None, None);
    PrintHttpHost(j);
  }

  lemma PrintHttpHost(host: string)
    ensures AbsoluteString(Url(Some("http"), Some(host), "", None, None)) == "http://" + host
  {
  }

  /** One "www" label is dropped, not all, so the key is not idempotent: the key of
      "http://www.www." + x is "http://www." + x, which parses back, and whose own key is
      "http://" + x. */
  lemma KeyNotIdempotent(x: string, once: string, twice: string)
    requires x != "" && AllUrlChars(x) && NoUpper(x)
    requires '.' !in x && '/' !in x && '?' !in x && '#' !in x
    requires once == "www." + x && twice == "www." + once
    ensures HistoryKey(Url(Some("http"), Some(twice), "", None, None)) == "http://" + once
    ensures Parse("http://" + once) == Some(Url(Some("http"), Some(once), "", None, None))
    ensures HistoryKey(Url(Some("http"), Some(once), "", None, None)) == "http://" + x
  {
    UrlCharsConcat("www.", x);
    UrlCharsConcat("www.", once);
    NoUpperConcat("www.", x);
    NoUpperConcat("www.", once);
    PlainHostKey(twice);
    PlainHostKey(once);
    StripOneWww(x, once, twice);
    NoTrailingSlash("http://", once);
    NoTrailingSlash("http://", x);
    PrintHttpHost(once);
    ParsePrint(Url(Some("http"), Some(once), "", None, None));
  }

  // ---------------------------------------------------------------------------
  // The display form

  /** The prefixes `stripped` removes, in this order. */
  const DisplayPrefixes: seq<string> := ["https://", "http://", "www."]

  /** The text once the first `n` prefixes have each been removed at most once: always a
      suffix of the text. */
  function DropPrefixes(s: string, n: nat): (r: string)
    requires n <= |DisplayPrefixes|
    ensures |r| <= |s| && r == s[|s| - |r|..]
  {
    if n == 0 then s
    else
      var t := DropPrefixes(s, n - 1);
      var r := ByDroppingPrefix(t, DisplayPrefixes[n - 1]);
      assert |r| <= |t| && r == t[|t| - |r|..];
      r
  }

  /** The address bar's form of a URL: a suffix of its text, less one trailing '/'. */
  function StripDisplay(s: string): (r: string)
    ensures exists k :: 0 <= k <= |s| && (r == s[k..] || (HasSuffix(s[k..], "/") && r + "/" == s[k..]))
  {
    var t := DropPrefixes(s, |DisplayPrefixes|);
    assert t == s[|s| - |t|..];
    DropTrailingSlash(t)
  }

  /** `stripped`. */
  method Stripped(u: Url) returns (str: string)
    ensures str == StripDisplay(AbsoluteString(u))
  {
    str := StripText(AbsoluteString(u));
  }

  /** The loop of `stripped`, over the URL's text. */
  method StripText(abs: string) returns (str: string)
    ensures str == StripDisplay(abs)
  {
    str := abs;
    for i := 0 to |DisplayPrefixes|
      invariant str == DropPrefixes(abs, i)
    {
      var prefix := DisplayPrefixes[i];
      if HasPrefix(str, prefix) {
        str := str[|prefix|..];
      }
    }
    if HasSuffix(str, "/") {
      str := str[..|str| - 1];
    }
  }

  /** "https://www." + r shows as r less a trailing '/'. */
  lemma StripSecureWww(s: string, t: string, r: string)
    requires s == "https://" + t && t == "www." + r
    ensures StripDisplay(s) == DropTrailingSlash(r)
  {
    assert DropPrefixes(s, 1) == t;
    assert !HasPrefix(t, "http://") by {
      if |t| >= 7 {
        assert t[..7][0] != "http://"[0];
      }
    }
    assert DropPrefixes(s, 2) == t;
    assert DropPrefixes(s, 3) == r;
  }

  /** Each prefix goes at most once: "http://http://" + t shows as "http://" + t when t does
      not end in '/'. */
  lemma StripOnceOnly(s: string, t: string)
    requires s == "http://" + t
    requires t != "" && t[|t| - 1] != '/'
    ensures StripDisplay("http://" + s) == s
  {
    var w := "http://" + s;
    assert w[..8][4] != "https://"[4];
    assert DropPrefixes(w, 1) == w;
    assert w[..7] == "http://";
    assert DropPrefixes(w, 2) == s;
    assert s[..4][0] != "www."[0];
    assert DropPrefixes(w, 3) == s;
    assert s[|s| - 1] == t[|t| - 1];
  }

  // ---------------------------------------------------------------------------
  // Host and query projections

  lemma SplitKeepWww(h: string)
    ensures |SplitKeep(h, '.')| > 0 && SplitKeep(h, '.')[0] == "www" <==> h == "www" || HasPrefix(h, "www.")
    ensures HasPrefix(h, "www.") ==> SplitKeep(h, '.') == ["www"] + SplitKeep(h[4..], '.')
  {
    if HasPrefix(h, "www.") {
      assert h == "www" + ['.'] + h[4..];
      SplitAtFirstAt("www", '.', h[4..]);
    } else if h == "www" {
      SplitAtFirstAbsent("www", '.');
    }
  }

  lemma JoinStripWww(h: string)
    ensures var r := Join(StripWww(SplitKeep(h, '.')), ".");
      && (HasPrefix(h, "www.") ==> r == h[4..])
      && (h == "www" ==> r == "")
      && (!HasPrefix(h, "www.") && h != "www" ==> r == h)
  {
    SplitKeepWww(h);
    JoinSplitKeep(h, '.');
    if HasPrefix(h, "www.") {
      JoinSplitKeep(h[4..], '.');
    }
  }

  /** `hostWithoutWWW`: the host, or "", without one leading "www." (and "www" itself becomes ""). */
  function HostWithoutWww(u: Url): (r: string)
    ensures var h := u.host.GetOr("");
      && (HasPrefix(h, "www.") ==> r == h[4..])
      && (h == "www" ==> r == "")
      && (!HasPrefix(h, "www.") && h != "www" ==> r == h)
  {
    var h := u.host.GetOr("");
    JoinStripWww(h);
    Join(StripWww(SplitKeep(h, '.')), ".")
  }

  /** `hasRootHost`: the host less "www." is the given host, or a subdomain of it. */
  function HasRootHost(u: Url, host: string): (r: bool)
    ensures var h := u.host.GetOr("");
      && (HasPrefix(h, "www.") ==> (r <==> h[4..] == host || HasSuffix(h[4..], "." + host)))
      && (h == "www" ==> (r <==> host == ""))
      && (!HasPrefix(h, "www.") && h != "www" ==> (r <==> h == host || HasSuffix(h, "." + host)))
  {
    var hw := HostWithoutWww(u);
    hw == host || HasSuffix(hw, "." + host)
  }

  /** A subdomain of the given host below "www." has it as its root host. */
  lemma SubdomainHasRootHost(u: Url, sub: string, root: string)
    requires u.host == Some("www." + sub + "." + root)
    ensures HasRootHost(u, root)
  {
    var h := u.host.value;
    assert HasPrefix(h, "www.");
    assert h[4..] == sub + ("." + root);
  }

  /** Foundation's `pathComponents`: "/" for a leading slash, then the non-empty segments. */
  function PathComponents(path: string): seq<string> {
    (if path != "" && path[0] == '/' then ["/"] else []) + SplitOmit(path, '/')
  }

  /** `isRootOfDomain`: no path components, which holds exactly when the path is empty. */
  function IsRootOfDomain(u: Url): (r: bool)
    ensures r <==> u.path == ""
  {
    NoComponentsIffEmpty(u.path);
    |PathComponents(u.path)| == 0
  }

  lemma NoComponentsIffEmpty(path: string)
    ensures |PathComponents(path)| == 0 <==> path == ""
  {
    if path != "" && path[0] != '/' {
      var split := SplitAtFirst(path, '/');
      assert split.0 != "";
      assert SplitKeep(path, '/')[0] == split.0;
      assert SplitOmit(path, '/') == [split.0] + NonEmpty(SplitKeep(path, '/')[1..]);
    }
  }

  /** Position of the first item with the given name, or the number of items. */
  function FindName(items: seq<QueryItem>, name: string): (r: nat)
    ensures r <= |items|
    ensures forall j :: 0 <= j < r ==> items[j].name != name
    ensures r < |items| ==> items[r].name == name
  {
    if items == [] then 0
    else if items[0].name == name then 0
    else 1 + FindName(items[1..], name)
  }

  /** `queryParam(name:)`: the value of the first item with exactly that name. */
  function QueryParam(u: Url, name: string): (r: Option<string>)
    ensures r.Some? ==> u.query.Some? && exists i ::
      && 0 <= i < |u.query.value|
      && u.query.value[i].name == name && u.query.value[i].value == r
      && forall j :: 0 <= j < i ==> u.query.value[j].name != name
    ensures (u.query.None? || forall i :: 0 <= i < |u.query.value| ==> u.query.value[i].name != name) ==> r.None?
    ensures u.query.Some? ==> forall i ::
      (0 <= i < |u.query.value| && u.query.value[i].name == name
       && forall j :: 0 <= j < i ==> u.query.value[j].name != name) ==> r == u.query.value[i].value
  {
    if u.query.None? then None
    else
      var i := FindName(u.query.value, name);
      if i < |u.query.value| then u.query.value[i].value else None
  }

  /** Items before the first one with the name do not change the answer, and items after
      it cannot. */
  lemma {:induction false} FindNameAppend(a: seq<QueryItem>, b: seq<QueryItem>, name: string)
    ensures FindName(a + b, name) == if FindName(a, name) < |a| then FindName(a, name) else |a| + FindName(b, name)
  {
    if a != [] {
      assert (a + b)[1..] == a[1..] + b;
      if a[0].name != name {
        FindNameAppend(a[1..], b, name);
      }
    } else {
      assert a + b == b;
    }
  }

  lemma QueryParamAppend(u: Url, extra: seq<QueryItem>, name: string)
    requires u.query.Some?
    ensures var v := u.(query := Some(u.query.value + extra));
      QueryParam(v, name) ==
        if FindName(u.query.value, name) < |u.query.value| then QueryParam(u, name)
        else QueryParam(u.(query := Some(extra)), name)
  {
    FindNameAppend(u.query.value, extra, name);
  }
}
