/** The prompts sent to the language model: the fixed-shape conversation that asks for a
    page, the one that asks for suggested links, and the page cache. */
module Prompting {
  import opened Wrappers
  import opened Text
  import opened Urls
  import opened UrlHelpers
  import Gifs

  datatype Role = System | User

  datatype Message = Message(role: Role, content: string)

  /** The chat model every request names. */
  const BaseModel: string := "gpt-3.5-turbo"

  /** The world description a new browser starts with. */
  const BaseWorld: string :=
    "Pretend it is an alternate-reality " +
    "version of 1996 where:\n" +
    "- Websites have fun, colorful retro " +
    "designs, and project a warm and " +
    "optimistic tone.\n" +
    "- Constantly refer to the internet as " +
    "the 'information superhighway,' and use " +
    "words like 'e-meet,' 'portal', and " +
    "'global village.'\n" +
    "- Are friendly, eager and happy to help."

  /** The page request's first instruction is `PageSystemHead`, the GIF list, then
      `PageSystemTail`. */
  const PageSystemHead: string :=
    "You are a clever comedian and rich " +
    "world-builder, acting as an imaginary " +
    "web server from in an alternate reality." +
    "\n" +
    "First, you will be provided with a " +
    "\"world description\" describing the " +
    "imaginary world that the server should " +
    "pretend to inhabit.\n" +
    "Then, when prompted with a URL, you are " +
    "to output a valid HTML page that could " +
    "plausibly represent the requested URL. " +
    "Output the HTML and only the HTML.\n" +
    "\n" +
    "HTML PAGES SHOULD:\n" +
    "- Use simple, concise HTML\n" +
    "- Contain links, tables, headers, hrs, " +
    "divs, form, marquee, bold and i tags.\n" +
    "- ONLY use <img> tags to refer to GIFs " +
    "in this list: "

  const PageSystemTail: string :=
    "\n" +
    "- Forms may be included if relevant. " +
    "All forms should have a descriptive " +
    "`action` parameter that ends in `.php`\n" +
    "- Be short (only a few paragraphs at " +
    "most)\n" +
    "- Specify fun, relevant fonts and " +
    "colors using inline HTML <font> tags " +
    "and style elements. NO <style> tags in " +
    "<head>.\n" +
    "  - Any font available on iOS may be " +
    "used.\n" +
    "- <A> elements should link to websites " +
    "(which do not need to be real) using " +
    "descriptive, vivid text in their " +
    "domains and paths.\n" +
    "- Have colors, fonts and styles which " +
    "help to establish the world described " +
    "in the description.\n" +
    "\n" +
    "First, here is a description of the " +
    "alternate universe that the server " +
    "should pretend it exists within. This " +
    "world description should dictate inform " +
    "the content, tone and visual aesthetic " +
    "of the output HTML.\n" +
    "World description:"

  const PostInstruction: string :=
    "OK, now a URL will be provided. This " +
    "URL is a POST request, meaning that the " +
    "user triggered this request by " +
    "submitting a form. Form inputs are " +
    "provided as query parameters. This " +
    "output page should reflect the server's " +
    "(imagined) response to the user's form " +
    "submission. The responses should " +
    "provide feedback to the user " +
    "immediately, rather than simply " +
    "acknowledging submission. (For example, " +
    "an imaginary college application form " +
    "would immediately provide a decision.) " +
    "Output the resulting HTML (and ONLY " +
    "html, no commentary) for it."

  const PlainInstruction: string :=
    "OK, now a URL will be provided. Output " +
    "the resulting HTML only (no " +
    "commentary). Do not break character."

  const SuggestionsSystemHead: string :=
    "You are a clever comedian and rich " +
    "world-builder, acting as an imaginary " +
    "web server from in an alternate reality." +
    "\n" +
    "First, you will be provided with a " +
    "\"world description\" describing the " +
    "imaginary world that the server should " +
    "pretend to inhabit.\n" +
    "\n" +
    "First, here is a description of the " +
    "alternate universe that the server " +
    "should pretend it exists within.\n" +
    "World description:"

  const SuggestionsSystemTail: string :=
    "Now, please invent and output eight " +
    "\"suggested links\" that might exist, and " +
    "be interesting, WITHIN the described " +
    "world. Output them as a single JSON " +
    "array, within a code block, with each " +
    "on its own line. For example:\n" +
    "```[\n" +
    "\"https://nytimes.com\",\n" +
    "\"https://en.wikipedia.org\",\n" +
    "\"https://youtube.com\",\n" +
    "\"https://twitter.com/new\"\n" +
    "]``\n" +
    "\n" +
    "Your suggested websites should " +
    "highlight a diverse set of sites that " +
    "are uniquely interesting in the world " +
    "that was described. For example, if the " +
    "world description indicated that we " +
    "were in Ancient Rome, we might suggest " +
    "websites relating to the Roman Senate, " +
    "a Roman restaurant, a Roman 'forum' and " +
    "a Yahoo Answers-style website for " +
    "Romans. The suggestions should be " +
    "generated while pretending you're " +
    "inside the universe, and should not " +
    "\"break character.\" For example if the " +
    "world was \"The Harry Potter universe,\" " +
    "suggestions would be for websites " +
    "relevant to the world itself (e.g. " +
    "'ministryofmagic.gov.uk), NOT websites " +
    "from the real world.)\n" +
    "\n" +
    "Suggested websites from within this " +
    "world:"

  /** The short links the model may use, as the first instruction lists them. The GIF
      library, `Gifs.shared` in the app, is passed in as `gifs`. */
  function GifList(gifs: seq<Gifs.Entry>): (r: string)
    requires Gifs.DistinctNames(gifs)
    ensures forall n :: n in Gifs.Ids(gifs) ==>
      exists i: nat :: OccursAt(r, Gifs.ShortUrl(n), i)
  {
    var urls := Gifs.AllShortUrls(gifs);
    var ids := Gifs.Ids(gifs);
    forall n | n in ids
      ensures exists i: nat :: OccursAt(Join(urls, ", "), Gifs.ShortUrl(n), i)
    {
      var k :| 0 <= k < |ids| && ids[k] == n;
      JoinContains(urls, ", ", k);
    }
    Join(urls, ", ")
  }

  /** Whether the address is a converted form post: its first `method` item says `POST`. */
  predicate IsPost(url: Url) {
    QueryParam(url, "method") == Some("POST")
  }

  /** `genPrompt(url:world:)`: the world-building instruction with the GIF list, the
      world, the instruction for a plain page or for a form's response, and the address. */
  function GenPrompt(gifs: seq<Gifs.Entry>, url: Url, world: string): (r: seq<Message>)
    requires Gifs.DistinctNames(gifs)
    ensures |r| == 4
    ensures r[0] == Message(System, PageSystemHead + GifList(gifs) + PageSystemTail)
    ensures r[1] == Message(User, world)
    ensures r[2] == Message(System, PostInstruction) <==> IsPost(url)
    ensures r[2] == Message(System, PlainInstruction) <==> !IsPost(url)
    ensures r[3] == Message(User, AbsoluteString(url))
  {
    InstructionsDiffer();
    [
      Message(System, PageSystemHead + GifList(gifs) + PageSystemTail),
      Message(User, world),
      Message(System, if IsPost(url) then PostInstruction else PlainInstruction),
      Message(User, AbsoluteString(url))
    ]
  }

  /** The two instructions part after their common opening sentence. */
  lemma InstructionsDiffer()
    ensures PostInstruction != PlainInstruction
  {
    assert |PlainInstruction| < 120 < |PostInstruction|;
  }

  /** Every short link of the table is offered in the first instruction. */
  lemma PromptOffersEveryGif(gifs: seq<Gifs.Entry>, url: Url, world: string, n: string)
    requires Gifs.DistinctNames(gifs) && n in Gifs.Ids(gifs)
    ensures exists i: nat :: OccursAt(GenPrompt(gifs, url, world)[0].content, Gifs.ShortUrl(n), i)
  {
    var first := GenPrompt(gifs, url, world)[0];
    ListedBetween(PageSystemHead, PageSystemTail, gifs, first.content, n);
  }

  /** Whatever surrounds the GIF list, its short links occur in the whole text. */
  lemma ListedBetween(head: string, tail: string, gifs: seq<Gifs.Entry>, content: string, n: string)
    requires Gifs.DistinctNames(gifs) && n in Gifs.Ids(gifs)
    requires content == head + GifList(gifs) + tail
    ensures exists i: nat :: OccursAt(content, Gifs.ShortUrl(n), i)
  {
    var list := GifList(gifs);
    var i: nat :| OccursAt(list, Gifs.ShortUrl(n), i);
    OccursInside(head, list, tail, Gifs.ShortUrl(n), i);
  }

  /** `genSearchSuggestionsPrompt(world:)`: the world-building instruction, the world, and
      the request for eight links as a JSON array. */
  function GenSearchSuggestionsPrompt(world: string): (r: seq<Message>)
    ensures |r| == 3
    ensures r[0] == Message(System, SuggestionsSystemHead)
    ensures r[1] == Message(User, world)
    ensures r[2] == Message(System, SuggestionsSystemTail)
  {
    [Message(System, SuggestionsSystemHead), Message(User, world), Message(System, SuggestionsSystemTail)]
  }

  /** `Cache`: generated pages by exact address. */
  class Cache {
    var entries: map<Url, string>

    constructor()
      ensures entries == map[]
    {
      entries := map[];
    }

    function Lookup(u: Url): (r: Option<string>)
      reads this
      ensures r.Some? <==> u in entries
      ensures r.Some? ==> r.value == entries[u]
    {
      if u in entries then Some(entries[u]) else None
    }

    /** `cache[u] = text`: overwrites the entry for `u` and no other. */
    method Store(u: Url, text: string)
      modifies this
      ensures entries == old(entries)[u := text]
      ensures Lookup(u) == Some(text)
      ensures forall v :: v != u ==> Lookup(v) == old(Lookup(v))
    {
      entries := entries[u := text];
    }
  }
}
