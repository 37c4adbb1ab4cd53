/** The search page's suggestion list: reading the language model's reply as a list of
    addresses, and the grey placeholder rows shown while fewer than four are known. */
module SearchSuggestions {
  import opened Wrappers
  import opened Text
  import opened StringHelpers
  import opened Json

  /** The code fence a reply may wrap its array in. */
  const Fence: string := "```"

  /** `dropLast(suffix.count)` when the text ends with `suffix`. */
  function DroppingSuffix(s: string, suffix: string): (r: string)
    ensures HasSuffix(s, suffix) ==> r + suffix == s
    ensures !HasSuffix(s, suffix) ==> r == s
  {
    if HasSuffix(s, suffix) then s[..|s| - |suffix|] else s
  }

  /** The reply trimmed, then without one leading and one trailing fence when present. */
  function FenceStripped(message: string): string {
    DroppingSuffix(ByDroppingPrefix(Trim(message), Fence), Fence)
  }

  /** What one reply becomes: its strings, or None, which leaves the list as it was. */
  function ParseSuggestions(message: string): Option<seq<string>> {
    DecodeStrings(FenceStripped(message))
  }

  /** The parsing closure of `fetchSuggestions(world:)`. Its loop over "append a closing
      bracket" in [false, true] leaves on the first turn whichever way decoding goes, so
      the text is decoded exactly once and the second turn is never taken. */
  method ParseReply(message: string) returns (r: Option<seq<string>>)
    ensures r == ParseSuggestions(message)
  {
    var text := Trim(message);
    if HasPrefix(text, Fence) {
      text := text[|Fence|..];
    }
    if HasSuffix(text, Fence) {
      text := text[..|text| - |Fence|];
    }
    assert text == FenceStripped(message);
    var appendClosingBracket := [false, true];
    var k := 0;
    var left := false;
    r := None;
    while k < |appendClosingBracket| && !left
      invariant 0 <= k <= 1
      invariant left == (k == 1)
      invariant left ==> r == DecodeStrings(text)
      decreases |appendClosingBracket| - k
    {
      var bracket := if appendClosingBracket[k] then "]" else "";
      assert bracket == [];
      var str := text + bracket;
      assert str == text;
      // The `do` branch returns the decoded array and the `catch` branch returns nil:
      // either way the closure returns now.
      r := DecodeStrings(str);
      left := true;
      k := k + 1;
    }
  }

  /** The evidently intended closure: a reply cut off before its closing bracket is
      decoded again with the bracket appended. */
  function ParseSuggestionsRetrying(message: string): (r: Option<seq<string>>)
    ensures ParseSuggestions(message).Some? ==> r == ParseSuggestions(message)
  {
    var text := FenceStripped(message);
    var first := DecodeStrings(text);
    if first.Some? then first else DecodeStrings(text + "]")
  }

  // ---------------------------------------------------------------------------
  // Fences

  lemma FenceAtStart(s: string)
    ensures HasPrefix(s, Fence) <==> |s| >= 3 && s[0] == '`' && s[1] == '`' && s[2] == '`'
  {
    if |s| >= 3 && s[0] == '`' && s[1] == '`' && s[2] == '`' {
      assert s[..3] == Fence;
    }
  }

  lemma FenceAtEnd(s: string)
    ensures HasSuffix(s, Fence) <==> |s| >= 3 && s[|s| - 1] == '`' && s[|s| - 2] == '`' && s[|s| - 3] == '`'
  {
    if |s| >= 3 && s[|s| - 1] == '`' && s[|s| - 2] == '`' && s[|s| - 3] == '`' {
      assert s[|s| - 3..] == Fence;
    }
  }

  /** One fence is removed from each end, whatever lies between and around. */
  lemma FenceStrippedFenced(w1: string, body: string, w2: string)
    requires AllWhitespace(w1) && AllWhitespace(w2)
    ensures FenceStripped(w1 + Fence + body + Fence + w2) == body
  {
    var u := body + Fence;
    var t := Fence + u;
    assert w1 + Fence + body + Fence + w2 == w1 + t + w2;
    assert t[0] == '`' && t[|t| - 1] == '`';
    TrimFramed(w1, t, w2);
    assert t[..3] == Fence && t[3..] == u;
    assert ByDroppingPrefix(t, Fence) == u;
    assert u[|u| - 3..] == Fence && u[..|u| - 3] == body;
  }

  /** Only one fence is removed from each end: a doubled fence keeps one copy. */
  lemma StripsAtMostOneFence(body: string)
    ensures FenceStripped(Fence + Fence + body + Fence + Fence) == Fence + body + Fence
  {
    assert Fence + Fence + body + Fence + Fence == [] + Fence + (Fence + body + Fence) + Fence + [];
    FenceStrippedFenced([], Fence + body + Fence, []);
  }

  /** A reply without fences is only trimmed. */
  lemma FenceStrippedBare(w1: string, body: string, w2: string)
    requires AllWhitespace(w1) && AllWhitespace(w2)
    requires body != [] && !IsWhitespace(body[0]) && !IsWhitespace(body[|body| - 1])
    requires !HasPrefix(body, Fence) && !HasSuffix(body, Fence)
    ensures FenceStripped(w1 + body + w2) == body
  {
    TrimFramed(w1, body, w2);
  }

  // ---------------------------------------------------------------------------
  // Decoding replies

  lemma EncodedEnds(xs: seq<string>)
    ensures EncodeStrings(xs)[0] == '[' && EncodeStrings(xs)[|EncodeStrings(xs)| - 1] == ']'
  {
  }

  /** A well-formed array of strings in any layout, fenced or not, with white space inside
      the fences and around, decodes to its elements in order. */
  lemma FencedArrayDecodes(w1: string, v1: string, xs: seq<string>, pads: seq<(string, string)>,
                           inside: string, v2: string, w2: string)
    requires AllWhitespace(w1) && AllWhitespace(w2)
    requires AllJsonSpace(v1) && AllJsonSpace(v2) && AllJsonSpace(inside)
    requires |pads| == |xs| && PadsAreSpace(pads)
    ensures ParseSuggestions(w1 + Fence + v1 + EncodeStringsSpaced(xs, pads, inside) + v2 + Fence + w2) == Some(xs)
  {
    var a := EncodeStringsSpaced(xs, pads, inside);
    var body := v1 + a + v2;
    assert w1 + Fence + v1 + a + v2 + Fence + w2 == w1 + Fence + body + Fence + w2;
    FenceStrippedFenced(w1, body, w2);
    DecodeSpaced(v1, xs, pads, inside, v2);
  }

  lemma BareArrayDecodes(w1: string, xs: seq<string>, pads: seq<(string, string)>, inside: string, w2: string)
    requires AllWhitespace(w1) && AllWhitespace(w2) && AllJsonSpace(inside)
    requires |pads| == |xs| && PadsAreSpace(pads)
    ensures ParseSuggestions(w1 + EncodeStringsSpaced(xs, pads, inside) + w2) == Some(xs)
  {
    var body := EncodeStringsSpaced(xs, pads, inside);
    assert body[0] == '[' && body[|body| - 1] == ']';
    FenceAtStart(body);
    FenceAtEnd(body);
    FenceStrippedBare(w1, body, w2);
    DecodeSpaced([], xs, pads, inside, []);
    assert [] + body + [] == body;
  }

  /** A reply laid out as the prompt asks, in a code block with one address per line. */
  lemma PromptLayoutReplyDecodes(message: string)
    requires message == "```[\n\"a\",\n\"b\"\n]```"
    ensures ParseSuggestions(message) == Some(["a", "b"])
  {
    var pads := [("\n", ""), ("\n", "\n")];
    assert EscapeText("a") == "a" && EscapeText("b") == "b";
    assert EncodeElementsSpaced(["b"], pads[1..]) == "\n\"b\"\n";
    var a := EncodeStringsSpaced(["a", "b"], pads, "");
    assert a == "[\n\"a\",\n\"b\"\n]";
    assert message == [] + Fence + [] + a + [] + Fence + [];
    FencedArrayDecodes([], [], ["a", "b"], pads, "", [], []);
  }

  /** Text that is not JSON gives None, so the list is left as it was. */
  lemma NotJsonIgnored(message: string)
    requires message == "not json"
    ensures ParseSuggestions(message) == None
  {
    assert message[0] == 'n' && message[|message| - 1] == 'n';
    FenceAtStart(message);
    FenceAtEnd(message);
    FenceStrippedBare([], message, []);
    assert [] + message + [] == message;
    assert FenceStripped(message) == message;
  }

  lemma ElementsEndInQuote(xs: seq<string>)
    requires xs != []
    ensures EncodeElements(xs)[|EncodeElements(xs)| - 1] == '"'
    decreases |xs|
  {
    if |xs| > 1 {
      ElementsEndInQuote(xs[1..]);
    }
  }

  /** A reply cut off before its closing bracket, such as a fence then `["a","b"`, is
      dropped as written, and decoded by the retry that was evidently intended. */
  lemma UnclosedArray(xs: seq<string>, message: string)
    requires xs != [] && message == Fence + "[" + EncodeElements(xs)
    ensures ParseSuggestions(message) == None
    ensures ParseSuggestionsRetrying(message) == Some(xs)
  {
    var u := "[" + EncodeElements(xs);
    ElementsEndInQuote(xs);
    UnclosedStripped(EncodeElements(xs), message, u);
    DecodeUnclosed(xs);
    assert u + "]" == [] + EncodeStrings(xs) + [];
    DecodeEncoded([], xs, []);
  }

  lemma UnclosedStripped(e: string, message: string, u: string)
    requires e != [] && e[|e| - 1] == '"' && u == "[" + e && message == Fence + u
    ensures FenceStripped(message) == u
  {
    UnclosedTrimmed(e, message);
    UnclosedOpening(message, u);
    UnclosedEnd(e, u);
  }

  lemma UnclosedTrimmed(e: string, message: string)
    requires e != [] && e[|e| - 1] == '"' && message == Fence + "[" + e
    ensures Trim(message) == message
  {
    assert message[0] == '`' && message[|message| - 1] == '"';
    TrimFramed([], message, []);
    assert [] + message + [] == message;
  }

  lemma UnclosedOpening(message: string, u: string)
    requires message == Fence + u
    ensures ByDroppingPrefix(message, Fence) == u
  {
    FenceAtStart(message);
    assert message[3..] == u;
  }

  lemma UnclosedEnd(e: string, u: string)
    requires e != [] && e[|e| - 1] == '"' && u == "[" + e
    ensures DroppingSuffix(u, Fence) == u
  {
    assert u[|u| - 1] == '"';
    FenceAtEnd(u);
  }

  lemma UnclosedExample(message: string)
    requires message == "```[\"a\",\"b\""
    ensures ParseSuggestions(message) == None
    ensures ParseSuggestionsRetrying(message) == Some(["a", "b"])
  {
    assert EscapeText("a") == "a" && EscapeText("b") == "b";
    assert EncodeElements(["a", "b"]) == "\"a\",\"b\"";
    UnclosedArray(["a", "b"], message);
  }

  // ---------------------------------------------------------------------------
  // Placeholder rows

  /** The suggestions shown, nil counting as none. */
  function Shown(suggestions: Option<seq<string>>): seq<string> {
    if suggestions.Some? then suggestions.value else []
  }

  /** `"placeholder-\(i)"`. */
  function PlaceholderName(i: nat): string {
    "placeholder-" + NatToDecimal(i)
  }

  lemma PlaceholderNamesDistinct(i: nat, j: nat)
    requires i != j
    ensures PlaceholderName(i) != PlaceholderName(j)
  {
    var p := "placeholder-";
    assert (p + NatToDecimal(i))[|p|..] == NatToDecimal(i);
    assert (p + NatToDecimal(j))[|p|..] == NatToDecimal(j);
    NatToDecimalInjective(i, j);
  }

  /** `placeholderSuggestions`: enough numbered placeholders to fill four rows. */
  method PlaceholderSuggestions(suggestions: Option<seq<string>>) returns (s: seq<string>)
    ensures |s| == if |Shown(suggestions)| >= 4 then 0 else 4 - |Shown(suggestions)|
    ensures |s| + |Shown(suggestions)| >= 4
    ensures forall i :: 0 <= i < |s| ==> s[i] == PlaceholderName(i)
    ensures forall i, j :: 0 <= i < j < |s| ==> s[i] != s[j]
  {
    s := [];
    while |s| + |Shown(suggestions)| < 4
      invariant |Shown(suggestions)| >= 4 ==> s == []
      invariant |Shown(suggestions)| < 4 ==> |s| + |Shown(suggestions)| <= 4
      invariant forall i :: 0 <= i < |s| ==> s[i] == PlaceholderName(i)
      decreases 4 - |s| - |Shown(suggestions)|
    {
      s := s + [PlaceholderName(|s|)];
    }
    forall i, j | 0 <= i < j < |s|
      ensures s[i] != s[j]
    {
      PlaceholderNamesDistinct(i, j);
    }
  }
}
