/** The browser's page generation: reading typed text as an address, and the small state
    machine of `showURL` that serves a page from the cache or streams it from the language
    model, writes every chunk to the cache, and renders a chunk only while its page is
    still the one being generated and loading has not been cancelled. */
module Browsing {
  import opened Wrappers
  import opened Text
  import opened StringHelpers
  import opened Urls
  import opened UrlHelpers
  import opened UrlWeb98
  import Gifs
  import opened Prompting

  // ---------------------------------------------------------------------------
  // Typed text

  /** The address `navigateTo(query:)` goes to: the text read as a URL, or else a search
      for it. */
  function Target(query: string): Url {
    var natural := WithNaturalString(query);
    if natural.Some? then natural.value else SearchUrl(query)
  }

  /** Words without ':' or '.' are searched for, and the search reads them back. */
  lemma PlainWordsSearched(query: string)
    requires ':' !in query && '.' !in query
    ensures Target(query) == SearchUrl(query)
    ensures ParsedAsSearchUrl(Target(query)) == Some(query)
  {
    SearchRoundTrip(query);
  }

  /** Text naming its own scheme is taken as it is. */
  lemma SchemedTextKept(query: string)
    requires HasUrlScheme(query) && (':' in query || '.' in query)
    ensures Target(query) == Parse(query).value
  {
  }

  /** A bare host name is taken behind `https://`. */
  lemma BareHostSecured(query: string)
    requires '.' in query && !HasUrlScheme(query) && AllUrlChars(query)
    ensures Target(query) == Parse("https://" + query).value
    ensures Target(query).scheme == Some("https")
  {
    UrlCharsConcat("https://", query);
    HttpsScheme(query);
  }

  /** The address bar's text for a page: the query of a search, otherwise the display form. */
  function AddressText(u: Url): string {
    var q := ParsedAsSearchUrl(u);
    if q.Some? then q.value else StripDisplay(AbsoluteString(u))
  }

  /** A search typed into the address bar is shown there again once its page loads. */
  lemma TypedWordsShownBack(query: string)
    requires ':' !in query && '.' !in query
    ensures AddressText(Target(query)) == query
  {
    PlainWordsSearched(query);
  }

  /** `BrowserState`: the counter whose change makes the address field give up focus. */
  class BrowserState {
    var unfocusId: int

    constructor()
      ensures unfocusId == 0
    {
      unfocusId := 0;
    }

    /** `navigateTo(query:webContent:)`, with the web view's address as `current`. Returns
        the address it asks the web view to load, if any. */
    method NavigateTo(query: string, current: Option<Url>) returns (load: Option<Url>)
      modifies this
      ensures query == "" ==> load == None && unfocusId == old(unfocusId)
      ensures query != "" ==> unfocusId == old(unfocusId) + 1
      ensures query != "" ==> (load.Some? <==> current != Some(Target(query)))
      ensures load.Some? ==> load.value == Target(query)
    {
      load := None;
      if query == "" {
        return;
      }
      var natural := WithNaturalString(query);
      var parsed := if natural.Some? then natural.value else SearchUrl(query);
      if Some(parsed) != current {
        load := Some(parsed);
      }
      unfocusId := unfocusId + 1;
    }
  }

  // ---------------------------------------------------------------------------
  // A chunk becomes a page

  /** The viewport tag in front of every generated page, before its closing `/>`. */
  const ViewportOpening: string :=
    "<meta name='viewport' content='width=" + "device-width, initial-scale=1' "

  const ViewportMeta: string := ViewportOpening + "/>"

  const HtmlFence: string := "```"

  const HtmlLabel: string := "html"

  lemma ViewportLinkFree()
    ensures Gifs.LinkFree(ViewportMeta)
  {
    assert '/' !in ViewportOpening;
    var m := ViewportMeta;
    assert m[|m| - 2] == '/' && m[|m| - 1] == '>';
    forall i | 0 <= i < |m| && m[i] == '/'
      ensures i + 1 < |m| && m[i + 1] != 'g'
    {
      if i < |ViewportOpening| {
        assert false;
      }
    }
  }

  /** The GIF table can be used for the rewrite. */
  predicate GoodGifs(gifs: seq<Gifs.Entry>) {
    Gifs.DistinctNames(gifs) && Gifs.Lengthening(Gifs.Table(gifs))
  }

  /** The reply trimmed, then without one leading fence, then without one `html` label. */
  function Unfenced(content: string): string {
    ByDroppingPrefix(ByDroppingPrefix(Trim(content), HtmlFence), HtmlLabel)
  }

  /** What the chunk handler makes of the reply so far. */
  function PageHtml(gifs: seq<Gifs.Entry>, content: string): (r: string)
    requires GoodGifs(gifs)
    ensures HasPrefix(r, ViewportMeta)
    ensures |r| >= |ViewportMeta| + |Unfenced(content)|
  {
    ViewportLinkFree();
    Gifs.KeepsLinkFreePrefix(Gifs.Table(gifs), ViewportMeta, Unfenced(content), Gifs.AnyChar);
    Gifs.Rewrite(Gifs.Table(gifs), ViewportMeta + Unfenced(content), Gifs.AnyChar)
  }

  /** The chunk handler's transform, computed by the source's rewrite loop. */
  method TransformChunk(gifs: seq<Gifs.Entry>, content: string) returns (html: string)
    requires GoodGifs(gifs)
    ensures html == PageHtml(gifs, content)
    ensures HasPrefix(html, ViewportMeta)
  {
    var page := ViewportMeta + Unfenced(content);
    html := Gifs.ReplaceShortUrlsWithLongUrls(Gifs.Table(gifs), page);
  }

  /** The white space, the fence and the `html` label around a page are removed. */
  lemma UnfencedFenced(w1: string, body: string, w2: string)
    requires AllWhitespace(w1) && AllWhitespace(w2)
    requires body != [] && !IsWhitespace(body[|body| - 1])
    ensures Unfenced(w1 + HtmlFence + HtmlLabel + body + w2) == body
  {
    var t := HtmlFence + (HtmlLabel + body);
    assert w1 + HtmlFence + HtmlLabel + body + w2 == w1 + t + w2;
    assert t[0] == '`' && t[|t| - 1] == body[|body| - 1];
    TrimFramed(w1, t, w2);
    PrefixDropped(HtmlFence, HtmlLabel + body);
    PrefixDropped(HtmlLabel, body);
  }

  lemma PrefixDropped(p: string, x: string)
    ensures ByDroppingPrefix(p + x, p) == x
  {
    assert (p + x)[..|p|] == p;
  }

  /** A fenced page without short links becomes the viewport tag and the page itself. */
  lemma FencedPagePlain(gifs: seq<Gifs.Entry>, w1: string, body: string, w2: string)
    requires GoodGifs(gifs)
    requires AllWhitespace(w1) && AllWhitespace(w2)
    requires body != [] && !IsWhitespace(body[|body| - 1]) && Gifs.LinkFree(body)
    ensures PageHtml(gifs, w1 + HtmlFence + HtmlLabel + body + w2) == ViewportMeta + body
  {
    UnfencedFenced(w1, body, w2);
    ViewportLinkFree();
    Gifs.LinkFreeConcat(ViewportMeta, body);
    Gifs.LinkFreeUnchanged(Gifs.Table(gifs), ViewportMeta + body, Gifs.AnyChar);
  }

  // ---------------------------------------------------------------------------
  // The page-generation state machine

  /** What `showURL` and its stream handlers read and write: the page being generated,
      whether it is loading, the shared cache, and the pages rendered so far, oldest first. */
  datatype View = View(generating: Option<Url>, loading: bool, cache: map<Url, string>, rendered: seq<string>)

  /** `showURL(u)`, a chunk of the stream for `u` with the page its handler built from the
      reply so far, the end of that stream, and the toolbar's cancel button. */
  datatype Event = Show(url: Url) | Chunk(url: Url, html: string) | End(url: Url) | Cancel

  /** The chunk event for the reply so far: its page is the transformed reply. */
  function ChunkOf(gifs: seq<Gifs.Entry>, u: Url, content: string): (e: Event)
    requires GoodGifs(gifs)
    ensures e.Chunk? && e.url == u && HasPrefix(e.html, ViewportMeta)
  {
    Chunk(u, PageHtml(gifs, content))
  }

  /** Every chunk page begins with the viewport tag, as the chunk handler's pages do. */
  predicate ChunksViewported(es: seq<Event>) {
    forall k :: 0 <= k < |es| && es[k].Chunk? ==> HasPrefix(es[k].html, ViewportMeta)
  }

  /** Every cached and every rendered page begins with the viewport tag. */
  predicate Viewported(v: View) {
    && (forall u :: u in v.cache ==> HasPrefix(v.cache[u], ViewportMeta))
    && (forall i :: 0 <= i < |v.rendered| ==> HasPrefix(v.rendered[i], ViewportMeta))
  }

  /** The state after one event. */
  function Next(v: View, e: Event): View {
    match e
    case Show(u) =>
      if u in v.cache then v.(generating := Some(u), rendered := v.rendered + [v.cache[u]])
      else v.(generating := Some(u), loading := true)
    case Chunk(u, html) =>
      if v.generating == Some(u) && v.loading then
        v.(cache := v.cache[u := html], rendered := v.rendered + [html])
      else v.(cache := v.cache[u := html])
    case End(u) =>
      if v.generating == Some(u) then v.(loading := false) else v
    case Cancel =>
      v.(loading := false)
  }

  /** The state after a sequence of events. */
  function Run(v: View, es: seq<Event>): (r: View)
    decreases |es|
  {
    if es == [] then v else Run(Next(v, es[0]), es[1..])
  }

  /** The stored world prompt, or the built-in world when it is blank. */
  function World(prompt: string): (w: string)
    ensures AllWhitespace(prompt) ==> w == BaseWorld
    ensures !AllWhitespace(prompt) ==> w == prompt
  {
    var stored := NilIfEmptyOrJustWhitespace(prompt);
    if stored.Some? then stored.value else BaseWorld
  }

  /** A streaming completion request: the page it is for, the conversation and the model. */
  datatype Stream = Stream(url: Url, messages: seq<Message>, model: string)

  /** The stream `showURL(u)` starts: none on a cache hit. */
  function StreamFor(gifs: seq<Gifs.Entry>, prompt: string, model: string, v: View, u: Url): (r: Option<Stream>)
    requires GoodGifs(gifs)
    ensures r.None? <==> u in v.cache
  {
    if u in v.cache then None else Some(Stream(u, GenPrompt(gifs, u, World(prompt)), model))
  }

  // ---------------------------------------------------------------------------
  // Properties of single events

  /** Only a chunk writes the cache, and only under its own address; at most one page is
      rendered, after those rendered before. */
  lemma NextFrame(v: View, e: Event)
    ensures forall u :: u in Next(v, e).cache <==> u in v.cache || (e.Chunk? && e.url == u)
    ensures forall u :: u in v.cache && !(e.Chunk? && e.url == u) ==> Next(v, e).cache[u] == v.cache[u]
    ensures var n := |Next(v, e).rendered|;
      |v.rendered| <= n <= |v.rendered| + 1 && Next(v, e).rendered[..|v.rendered|] == v.rendered
  {
    match e
    case Show(u) =>
    case Chunk(u, html) =>
    case End(u) =>
    case Cancel =>
  }

  /** An event whose page, if any, begins with the viewport tag keeps every cached and every
      rendered page beginning with it. */
  lemma NextKeepsViewported(v: View, e: Event)
    requires Viewported(v) && ChunksViewported([e])
    ensures Viewported(Next(v, e))
  {
    match e
    case Show(u) =>
    case Chunk(u, html) =>
      assert [e][0] == e;
    case End(u) =>
    case Cancel =>
  }

  /** A cache hit renders the cached page, leaves loading alone and starts nothing; a miss
      renders nothing, turns loading on and asks for the page at `u` in the stored world. */
  lemma ShowCases(gifs: seq<Gifs.Entry>, prompt: string, model: string, v: View, u: Url)
    requires GoodGifs(gifs)
    ensures Next(v, Show(u)).generating == Some(u)
    ensures u in v.cache ==> Next(v, Show(u)).rendered == v.rendered + [v.cache[u]]
    ensures u in v.cache ==> Next(v, Show(u)).loading == v.loading
    ensures u !in v.cache ==> Next(v, Show(u)).rendered == v.rendered
    ensures u !in v.cache ==> Next(v, Show(u)).loading
    ensures u !in v.cache ==> var s := StreamFor(gifs, prompt, model, v, u).value;
      s.url == u && s.model == model && |s.messages| == 4
      && s.messages[1] == Message(User, World(prompt))
      && s.messages[3] == Message(User, AbsoluteString(u))
  {
  }

  /** A chunk always writes its page to the cache, and is rendered iff its page is still the
      one being generated and loading is on. */
  lemma ChunkRenderedIff(gifs: seq<Gifs.Entry>, v: View, u: Url, content: string)
    requires GoodGifs(gifs)
    ensures Next(v, ChunkOf(gifs, u, content)).cache == v.cache[u := PageHtml(gifs, content)]
    ensures Next(v, ChunkOf(gifs, u, content)).rendered != v.rendered
      <==> v.generating == Some(u) && v.loading
    ensures Next(v, ChunkOf(gifs, u, content)).rendered != v.rendered ==>
      Next(v, ChunkOf(gifs, u, content)).rendered == v.rendered + [PageHtml(gifs, content)]
    ensures Next(v, ChunkOf(gifs, u, content)).generating == v.generating
    ensures Next(v, ChunkOf(gifs, u, content)).loading == v.loading
  {
  }

  /** The end of a stream turns loading off only when its page is still the one being
      generated. */
  lemma EndCases(v: View, u: Url)
    ensures Next(v, End(u)).loading == (v.loading && v.generating != Some(u))
    ensures Next(v, End(u)).rendered == v.rendered && Next(v, End(u)).cache == v.cache
  {
  }

  // ---------------------------------------------------------------------------
  // Properties of runs

  lemma ChunksViewportedTail(es: seq<Event>)
    requires es != [] && ChunksViewported(es)
    ensures ChunksViewported([es[0]]) && ChunksViewported(es[1..])
  {
    assert forall k :: 0 <= k < |es[1..]| ==> es[1..][k] == es[k + 1];
    assert [es[0]][0] == es[0];
  }

  lemma {:induction false} RunKeepsViewported(v: View, es: seq<Event>)
    requires Viewported(v) && ChunksViewported(es)
    ensures Viewported(Run(v, es))
    decreases |es|
  {
    if es != [] {
      ChunksViewportedTail(es);
      NextKeepsViewported(v, es[0]);
      RunKeepsViewported(Next(v, es[0]), es[1..]);
    }
  }

  /** Starting from an empty cache, with chunk pages built by the chunk handler, every page
      ever rendered begins with the viewport tag. */
  lemma EveryRenderedPageHasViewport(v: View, es: seq<Event>, i: nat)
    requires v.cache == map[] && v.rendered == [] && ChunksViewported(es)
    requires i < |Run(v, es).rendered|
    ensures HasPrefix(Run(v, es).rendered[i], ViewportMeta)
  {
    RunKeepsViewported(v, es);
  }

  /** Once cancelled, nothing is rendered until the next `showURL`. */
  lemma {:induction false} CancelSilences(v: View, es: seq<Event>)
    requires !v.loading
    requires forall k :: 0 <= k < |es| ==> !es[k].Show?
    ensures Run(v, es).rendered == v.rendered
    ensures !Run(v, es).loading
    decreases |es|
  {
    if es != [] {
      assert !es[0].Show?;
      assert forall k :: 0 <= k < |es[1..]| ==> es[1..][k] == es[k + 1];
      CancelSilences(Next(v, es[0]), es[1..]);
    }
  }

  lemma CancelThenSilent(v: View, es: seq<Event>)
    requires forall k :: 0 <= k < |es| ==> !es[k].Show?
    ensures Run(v, [Cancel] + es).rendered == v.rendered
  {
    assert ([Cancel] + es)[1..] == es;
    CancelSilences(Next(v, Cancel), es);
  }

  /** Whether an event belongs to the stream for `u`. */
  predicate OfStream(e: Event, u: Url) {
    (e.Chunk? || e.End?) && e.url == u
  }

  /** After `showURL` has moved on to another page, the old page's stream fills the cache
      but renders nothing, and its end leaves loading as it is. */
  lemma {:induction false} StaleStreamSilent(v: View, u: Url, es: seq<Event>)
    requires v.generating != Some(u)
    requires forall k :: 0 <= k < |es| ==> OfStream(es[k], u)
    ensures Run(v, es).rendered == v.rendered
    ensures Run(v, es).loading == v.loading
    ensures Run(v, es).generating == v.generating
    ensures forall w :: w != u && w in v.cache ==> w in Run(v, es).cache && Run(v, es).cache[w] == v.cache[w]
    decreases |es|
  {
    if es != [] {
      assert OfStream(es[0], u);
      assert forall k :: 0 <= k < |es[1..]| ==> es[1..][k] == es[k + 1];
      StaleStreamSilent(Next(v, es[0]), u, es[1..]);
    }
  }

  /** A page shown once is served from the cache when shown again: the page of its last
      chunk is rendered and no stream is started. */
  lemma RevisitServedFromCache(gifs: seq<Gifs.Entry>, prompt: string, model: string, v: View, u: Url, html: string)
    requires GoodGifs(gifs)
    ensures var w := Next(v, Chunk(u, html));
      StreamFor(gifs, prompt, model, w, u) == None
      && Next(w, Show(u)).rendered[|w.rendered|] == html
  {
  }

  /** A cache hit while another page is still streaming leaves loading on, and the end of
      that stream does not turn it off, since the page being generated is now the hit. */
  lemma LoadingOutlivesItsStream(v: View, u: Url, w: Url)
    requires u != w && u !in v.cache && w in v.cache
    ensures Next(Next(Next(v, Show(u)), Show(w)), End(u)).loading
  {
  }

  /** Cancel does not stop the stream itself: once its page is shown again and missed, the
      old stream's chunks render again. */
  lemma CancelledStreamResumes(v: View, u: Url, html: string)
    requires u !in v.cache
    ensures Run(v, [Show(u), Cancel, Show(u), Chunk(u, html)]).rendered == v.rendered + [html]
  {
    var v1 := Next(v, Show(u));
    var v2 := Next(v1, Cancel);
    var v3 := Next(v2, Show(u));
    assert v1 == v.(generating := Some(u), loading := true);
    assert v2.cache == v.cache && v2.rendered == v.rendered;
    assert v3 == v2.(generating := Some(u), loading := true);
    var es := [Show(u), Cancel, Show(u), Chunk(u, html)];
    assert es[1..][1..][1..][1..] == [];
    assert Run(v, es) == Run(v1, es[1..]);
    assert Run(v1, es[1..]) == Run(v2, es[1..][1..]);
    assert Run(v2, es[1..][1..]) == Run(v3, es[1..][1..][1..]);
    assert Run(v3, es[1..][1..][1..]) == Next(v3, Chunk(u, html));
  }

  // ---------------------------------------------------------------------------
  // The browser view

  /** `Browser`: the page-generation state of the view and the shared page cache. The
      GIF table, stored world prompt and model name are fixed for its lifetime. */
  class Browser {
    const gifs: seq<Gifs.Entry>
    const prompt: string
    const model: string
    const cache: Cache
    var generatingForUrl: Option<Url>
    var loading: bool
    var rendered: seq<string>

    predicate Valid()
      reads this
    {
      GoodGifs(gifs)
    }

    function Current(): View
      reads this, cache
    {
      View(generatingForUrl, loading, cache.entries, rendered)
    }

    constructor(gifs: seq<Gifs.Entry>, prompt: string, model: string, cache: Cache)
      requires GoodGifs(gifs)
      ensures Valid()
      ensures this.gifs == gifs && this.prompt == prompt && this.model == model && this.cache == cache
      ensures generatingForUrl == None && !loading && rendered == []
    {
      this.gifs := gifs;
      this.prompt := prompt;
      this.model := model;
      this.cache := cache;
      generatingForUrl := None;
      loading := false;
      rendered := [];
    }

    /** `showURL(_:)`. Returns the stream it starts, if any. */
    method ShowUrl(url: Url) returns (stream: Option<Stream>)
      requires Valid()
      modifies this
      ensures Current() == Next(old(Current()), Show(url))
      ensures stream == StreamFor(gifs, prompt, model, old(Current()), url)
    {
      generatingForUrl := Some(url);
      var cached := cache.Lookup(url);
      if cached.Some? {
        rendered := rendered + [cached.value];
        stream := None;
        return;
      }
      loading := true;
      var world := NilIfEmptyOrJustWhitespace(prompt);
      var w := if world.Some? then world.value else BaseWorld;
      stream := Some(Stream(url, GenPrompt(gifs, url, w), model));
    }

    /** The chunk handler of the stream for `url`: `content` is the reply so far. */
    method OnChunk(url: Url, content: string)
      requires Valid()
      modifies this, cache
      ensures Current() == Next(old(Current()), ChunkOf(gifs, url, content))
    {
      var html := TransformChunk(gifs, content);
      ghost var v := Current();
      ghost var w := v.(cache := v.cache[url := html]);
      assert ChunkOf(gifs, url, content) == Chunk(url, html);
      cache.Store(url, html);
      assert Current() == w;
      if generatingForUrl == Some(url) && loading {
        rendered := rendered + [html];
      }
    }

    /** The end-of-stream handler of the stream for `url`. */
    method OnEnd(url: Url)
      requires Valid()
      modifies this
      ensures Current() == Next(old(Current()), End(url))
    {
      if generatingForUrl == Some(url) {
        loading := false;
      }
    }

    /** The toolbar's cancel button. */
    method CancelLoading()
      requires Valid()
      modifies this
      ensures Current() == Next(old(Current()), Cancel)
    {
      loading := false;
    }
  }
}
