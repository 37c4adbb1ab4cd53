/** The app's own URL conventions: the addresses of its fake search engine, and the
    rewrite of a form post into an address whose query carries the form's fields. */
module UrlWeb98 {
  import opened Wrappers
  import opened Text
  import opened Urls
  import opened UrlHelpers

  // ---------------------------------------------------------------------------
  // The search engine's addresses

  /** `URL.searchURL`: `http://search.com/find` with the single query item `q=<query>`. */
  function SearchUrl(q: string): (r: Url)
    ensures AbsoluteString(r) == "http://search.com/find?q=" + q
    ensures ToUrl(r) == Some(r)
    ensures r.host == Some("search.com") && QueryParam(r, "q") == Some(q)
  {
    var r := Url(Some("http"), Some("search.com"), "/find", Some([QueryItem("q", Some(q))]), None);
    assert ItemString(QueryItem("q", Some(q))) == "q=" + q;
    assert ItemStrings([QueryItem("q", Some(q))]) == ["q=" + q];
    r
  }

  /** `parsedAsSearchURL`: the `q` value of a `search.com` address, nil otherwise. */
  function ParsedAsSearchUrl(u: Url): (r: Option<string>)
    ensures u.host != Some("search.com") ==> r.None?
    ensures QueryParam(u, "q").None? ==> r.None?
    ensures r.Some? ==> r == QueryParam(u, "q")
    ensures u.host == Some("search.com") ==> r == QueryParam(u, "q")
  {
    if u.host == Some("search.com") then QueryParam(u, "q") else None
  }

  /** Every query the app searches for is read back from its address. */
  lemma SearchRoundTrip(q: string)
    ensures ParsedAsSearchUrl(SearchUrl(q)) == Some(q)
  {
  }

  /** The address of a query is a well-formed record. */
  lemma SearchUrlWellFormed(q: string)
    requires AllUrlChars(q) && '&' !in q && '#' !in q
    ensures WellFormed(SearchUrl(q))
  {
    var u := SearchUrl(q);
    var prefix := "http://search.com/find?q=";
    assert AllUrlChars(prefix);
    UrlCharsConcat(prefix, q);
    assert AllUrlChars(AbsoluteString(u));
    assert QueryWellFormed(u.query.value) by {
      assert u.query.value == [QueryItem("q", Some(q))];
    }
    SearchUrlParts(u);
  }

  lemma SearchUrlParts(u: Url)
    requires u == Url(Some("http"), Some("search.com"), "/find", u.query, None)
    ensures IsScheme(u.scheme.value)
    ensures '/' !in u.host.value && '?' !in u.host.value && '#' !in u.host.value
    ensures '?' !in u.path && '#' !in u.path && u.path[0] == '/'
  {
  }

  /** The same holds through the text: a query made of URL characters, with no `&` or
      `#` in it, survives printing the address and parsing it again. */
  lemma SearchTextRoundTrip(q: string)
    requires AllUrlChars(q) && '&' !in q && '#' !in q
    ensures Parse("http://search.com/find?q=" + q).Some?
    ensures ParsedAsSearchUrl(Parse("http://search.com/find?q=" + q).value) == Some(q)
  {
    SearchUrlWellFormed(q);
    ParsePrint(SearchUrl(q));
  }

  /** A Google search is never mistaken for a query of the app's own engine. */
  lemma GoogleIsNotSearch(q: string)
    ensures ParsedAsSearchUrl(GoogleSearch(q)).None?
  {
  }

  // ---------------------------------------------------------------------------
  // Form posts

  /** An HTTP body: its text when it decodes as UTF-8. */
  datatype Body = Utf8(text: string) | NotUtf8

  /** The parts of a `URLRequest` the rewrite reads. */
  datatype Request = Request(url: Option<Url>, body: Option<Body>)

  /** The marker item appended to every converted post. */
  const MethodPost := QueryItem("method", Some("POST"))

  /** Every `&`-separated segment of the body has at least two `=`-separated pieces:
      otherwise reading the value, the second piece, traps. */
  predicate FieldsSplit(body: string) {
    var segs := SplitOmit(body, '&');
    forall i :: 0 <= i < |segs| ==> |SplitOmit(segs[i], '=')| >= 2
  }

  /** One item per segment, in order: named by the segment's first `=`-separated piece
      and valued by its second. */
  function Fields(segs: seq<string>): (r: seq<QueryItem>)
    requires forall i :: 0 <= i < |segs| ==> |SplitOmit(segs[i], '=')| >= 2
    ensures |r| == |segs|
    ensures forall i :: 0 <= i < |r| ==>
      && r[i].name == SplitOmit(segs[i], '=')[0]
      && r[i].value == Some(SplitOmit(segs[i], '=')[1])
  {
    if segs == [] then []
    else
      var pieces := SplitOmit(segs[0], '=');
      [QueryItem(pieces[0], Some(pieces[1]))] + Fields(segs[1..])
  }

  /** The items a form body contributes. */
  function BodyFields(body: string): (r: seq<QueryItem>)
    requires FieldsSplit(body)
    ensures |r| == |SplitOmit(body, '&')|
    ensures forall i :: 0 <= i < |r| ==>
      && r[i].name != "" && '=' !in r[i].name && '&' !in r[i].name
      && r[i].value.Some? && r[i].value.value != ""
      && '=' !in r[i].value.value && '&' !in r[i].value.value
  {
    var segs := SplitOmit(body, '&');
    var r := Fields(segs);
    forall i | 0 <= i < |r|
      ensures '&' !in r[i].name && '&' !in r[i].value.value
    {
      SplitOmitAvoids(segs[i], '=', '&');
    }
    r
  }

  /** What the rewrite demands of its request: when it goes on to rebuild the address,
      the address's text must parse again (the force unwrap) and every body segment must
      have a value (the `[1]` index). */
  predicate Convertible(req: Request) {
    req.url.Some? && req.body.Some? && req.body.value.Utf8? ==>
      AllUrlChars(AbsoluteString(req.url.value)) && FieldsSplit(req.body.value.text)
  }

  /** `URLRequest.convertPostBodyToQuery`: the request's address with the body's fields
      and `method=POST` appended to its query, or the address alone when there is no
      body text. */
  function ConvertPostBodyToQuery(req: Request): (r: Option<Url>)
    requires Convertible(req)
    ensures r.None? <==> req.url.None?
    ensures !(req.body.Some? && req.body.value.Utf8?) ==> r == req.url
    ensures r.Some? && req.body.Some? && req.body.value.Utf8? ==>
      var comps := Components(AbsoluteString(req.url.value));
      && r.value.(query := None) == comps.(query := None)
      && r.value.query == Some(comps.query.GetOr([]) + BodyFields(req.body.value.text) + [MethodPost])
  {
    match req.url
    case None => None
    case Some(url) =>
      if req.body.Some? && req.body.value.Utf8? then
        var comps := Components(AbsoluteString(url));
        var items := comps.query.GetOr([]) + BodyFields(req.body.value.text) + [MethodPost];
        ToUrl(comps.(query := Some(items)))
      else Some(url)
  }

  /** A well-formed address is parsed back into itself, so its own items come first. */
  lemma ConvertWellFormed(url: Url, text: string)
    requires WellFormed(url) && FieldsSplit(text)
    ensures Convertible(Request(Some(url), Some(Utf8(text))))
    ensures ConvertPostBodyToQuery(Request(Some(url), Some(Utf8(text)))) ==
      Some(url.(query := Some(url.query.GetOr([]) + BodyFields(text) + [MethodPost])))
  {
    ParsePrint(url);
  }

  /** The first item in the query of a list of items, with a given name. */
  function Lookup(items: seq<QueryItem>, name: string): (r: Option<Option<string>>)
    ensures r.None? <==> forall i :: 0 <= i < |items| ==> items[i].name != name
    ensures r.Some? ==> exists i ::
      && 0 <= i < |items|
      && items[i].name == name && items[i].value == r.value
      && forall j :: 0 <= j < i ==> items[j].name != name
  {
    var i := FindName(items, name);
    if i < |items| then Some(items[i].value) else None
  }

  /** After the rewrite, a name is looked up first among the address's own items, then
      among the body's fields, and `method` falls through to the marker. */
  lemma ConvertQueryParam(req: Request, name: string)
    requires Convertible(req)
    requires req.url.Some? && req.body.Some? && req.body.value.Utf8?
    ensures var own := Components(AbsoluteString(req.url.value)).query.GetOr([]);
      var fields := BodyFields(req.body.value.text);
      QueryParam(ConvertPostBodyToQuery(req).value, name) ==
        if Lookup(own, name).Some? then Lookup(own, name).value
        else if Lookup(fields, name).Some? then Lookup(fields, name).value
        else if name == "method" then Some("POST")
        else None
  {
    var own := Components(AbsoluteString(req.url.value)).query.GetOr([]);
    var fields := BodyFields(req.body.value.text);
    var r := ConvertPostBodyToQuery(req).value;
    assert r.query.value == (own + fields) + [MethodPost];
    FindNameAppend(own + fields, [MethodPost], name);
    FindNameAppend(own, fields, name);
    var i := FindName(own, name);
    if i < |own| {
      assert r.query.value[i] == own[i];
    } else {
      var k := FindName(fields, name);
      if k < |fields| {
        assert r.query.value[|own| + k] == fields[k];
      }
    }
  }

  /** With no item named `method` before it, the marker is what `queryParam` finds. */
  lemma ConvertMarksPost(req: Request)
    requires Convertible(req)
    requires req.url.Some? && req.body.Some? && req.body.value.Utf8?
    requires Lookup(Components(AbsoluteString(req.url.value)).query.GetOr([]), "method").None?
    requires Lookup(BodyFields(req.body.value.text), "method").None?
    ensures QueryParam(ConvertPostBodyToQuery(req).value, "method") == Some("POST")
  {
    ConvertQueryParam(req, "method");
  }

  /** A one-field form body becomes one item. */
  lemma OneField(text: string, n: string, v: string)
    requires text == n + "=" + v
    requires n != "" && v != "" && '&' !in n + v && '=' !in n + v
    ensures FieldsSplit(text)
    ensures BodyFields(text) == [QueryItem(n, Some(v))]
  {
    assert text == n + ['='] + v;
    SplitOmitLast(text, '&');
    SplitOmitFirst(n, '=', v);
    SplitOmitLast(v, '=');
  }

  /** But a body field named `method` comes before the marker and shadows it. */
  lemma FieldShadowsMarker(url: Url, text: string, value: string)
    requires WellFormed(url) && url.query.None?
    requires text == "method=" + value && value != "" && '&' !in value && '=' !in value
    ensures Convertible(Request(Some(url), Some(Utf8(text))))
    ensures QueryParam(ConvertPostBodyToQuery(Request(Some(url), Some(Utf8(text)))).value, "method") == Some(value)
  {
    OneField(text, "method", value);
    OnlyFieldFirst(url, text, "method", value);
  }

  lemma OnlyFieldFirst(url: Url, text: string, n: string, v: string)
    requires WellFormed(url) && url.query.None?
    requires FieldsSplit(text) && BodyFields(text) == [QueryItem(n, Some(v))]
    ensures Convertible(Request(Some(url), Some(Utf8(text))))
    ensures QueryParam(ConvertPostBodyToQuery(Request(Some(url), Some(Utf8(text)))).value, n) == Some(v)
  {
    ConvertWellFormed(url, text);
    var items := [QueryItem(n, Some(v)), MethodPost];
    assert url.query.GetOr([]) + BodyFields(text) + [MethodPost] == items;
    var r := url.(query := Some(items));
    assert FindName(items, n) == 0;
    assert QueryParam(r, n) == Some(v);
  }

  /** A two-field form body becomes two items, in order. */
  lemma TwoFields(text: string, n1: string, v1: string, n2: string, v2: string)
    requires text == n1 + "=" + v1 + "&" + n2 + "=" + v2
    requires n1 != "" && v1 != "" && n2 != "" && v2 != ""
    requires '&' !in n1 + v1 + n2 + v2 && '=' !in n1 + v1 + n2 + v2
    ensures FieldsSplit(text)
    ensures BodyFields(text) == [QueryItem(n1, Some(v1)), QueryItem(n2, Some(v2))]
  {
    var s1, s2 := n1 + "=" + v1, n2 + "=" + v2;
    assert text == s1 + ['&'] + s2;
    SplitOmitFirst(s1, '&', s2);
    SplitOmitLast(s2, '&');
    assert SplitOmit(text, '&') == [s1, s2];
    assert s1 == n1 + ['='] + v1;
    SplitOmitFirst(n1, '=', v1);
    SplitOmitLast(v1, '=');
    assert s2 == n2 + ['='] + v2;
    SplitOmitFirst(n2, '=', v2);
    SplitOmitLast(v2, '=');
  }
}
