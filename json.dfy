/** Decoding a JSON text whose value is an array of strings (sections 2, 5 and 7 of
    RFC 8259), as `JSONDecoder().decode([String].self, from:)` does, and the encoder that
    is its reference. */
module Json {
  import opened Wrappers

  // ---------------------------------------------------------------------------
  // Lexical pieces

  /** The four insignificant white-space characters of section 2 of RFC 8259. */
  predicate IsJsonSpace(c: char) {
    c == ' ' || c == '\t' || c == '\n' || c == '\r'
  }

  predicate AllJsonSpace(s: string) {
    forall i :: 0 <= i < |s| ==> IsJsonSpace(s[i])
  }

  function SkipSpace(s: string): (r: string)
    ensures |r| <= |s|
    ensures r == [] || !IsJsonSpace(r[0])
  {
    if s != [] && IsJsonSpace(s[0]) then SkipSpace(s[1..]) else s
  }

  lemma {:induction false} SkipSpaceLeading(w: string, t: string)
    requires AllJsonSpace(w)
    requires t == [] || !IsJsonSpace(t[0])
    ensures SkipSpace(w + t) == t
  {
    if w != [] {
      assert (w + t)[1..] == w[1..] + t;
      SkipSpaceLeading(w[1..], t);
    }
  }

  /** A hexadecimal digit of a `\u` escape, in either case. */
  function HexValue(c: char): (r: Option<nat>)
    ensures r.Some? ==> r.value < 16
  {
    if '0' <= c <= '9' then Some(c as int - '0' as int)
    else if 'a' <= c <= 'f' then Some(c as int - 'a' as int + 10)
    else if 'A' <= c <= 'F' then Some(c as int - 'A' as int + 10)
    else None
  }

  /** The UTF-16 code unit written by four hexadecimal digits. */
  function Hex4(s: string): (r: Option<nat>)
    ensures r.Some? ==> |s| >= 4 && r.value < 0x1_0000
  {
    if |s| < 4 then None
    else
      var a, b, c, d := HexValue(s[0]), HexValue(s[1]), HexValue(s[2]), HexValue(s[3]);
      if a.None? || b.None? || c.None? || d.None? then None
      else Some(a.value * 4096 + b.value * 256 + c.value * 16 + d.value)
  }

  predicate IsHighSurrogate(u: nat) {
    0xD800 <= u <= 0xDBFF
  }

  predicate IsLowSurrogate(u: nat) {
    0xDC00 <= u <= 0xDFFF
  }

  /** The scalar value a surrogate pair stands for: U+10000 through U+10FFFF. */
  function PairScalar(hi: nat, lo: nat): (r: char)
    requires IsHighSurrogate(hi) && IsLowSurrogate(lo)
    ensures 0x1_0000 <= r as int <= 0x10_FFFF
  {
    (0x1_0000 + (hi - 0xD800) * 0x400 + (lo - 0xDC00)) as char
  }

  /** The character an escape stands for, `s` being the text after the backslash, and
      the text after the escape. A lone surrogate, high or low, is an error. */
  function Escape(s: string): (r: Option<(char, string)>)
    ensures r.Some? ==> |r.value.1| < |s|
  {
    if s == [] then None
    else if s[0] == '"' then Some(('"', s[1..]))
    else if s[0] == '\\' then Some(('\\', s[1..]))
    else if s[0] == '/' then Some(('/', s[1..]))
    else if s[0] == 'b' then Some(('\U{0008}', s[1..]))
    else if s[0] == 'f' then Some(('\U{000C}', s[1..]))
    else if s[0] == 'n' then Some(('\n', s[1..]))
    else if s[0] == 'r' then Some(('\r', s[1..]))
    else if s[0] == 't' then Some(('\t', s[1..]))
    else if s[0] != 'u' then None
    else
      var u := Hex4(s[1..]);
      if u.None? || IsLowSurrogate(u.value) then None
      else if !IsHighSurrogate(u.value) then Some((u.value as char, s[5..]))
      else if |s| < 7 || s[5] != '\\' || s[6] != 'u' then None
      else
        var lo := Hex4(s[7..]);
        if lo.None? || !IsLowSurrogate(lo.value) then None
        else Some((PairScalar(u.value, lo.value), s[11..]))
  }

  /** The characters of a string literal, `s` being the text after its opening quote,
      and the text after its closing quote. Control characters must be escaped. */
  function StringBody(s: string): (r: Option<(string, string)>)
    ensures r.Some? ==> |r.value.1| < |s|
    decreases |s|
  {
    if s == [] then None
    else if s[0] == '"' then Some(([], s[1..]))
    else if s[0] == '\\' then
      var e := Escape(s[1..]);
      if e.None? then None
      else
        var rest := StringBody(e.value.1);
        if rest.None? then None else Some(([e.value.0] + rest.value.0, rest.value.1))
    else if s[0] < ' ' then None
    else
      var rest := StringBody(s[1..]);
      if rest.None? then None else Some(([s[0]] + rest.value.0, rest.value.1))
  }

  /** One or more string values separated by commas and closed by `]`, and the text after. */
  function Elements(s: string): (r: Option<(seq<string>, string)>)
    ensures r.Some? ==> |r.value.0| >= 1 && |r.value.1| < |s|
    decreases |s|
  {
    if s == [] || s[0] != '"' then None
    else
      var str := StringBody(s[1..]);
      if str.None? then None
      else
        var t := SkipSpace(str.value.1);
        if t != [] && t[0] == ']' then Some(([str.value.0], t[1..]))
        else if t != [] && t[0] == ',' then
          var more := Elements(SkipSpace(t[1..]));
          if more.None? then None else Some(([str.value.0] + more.value.0, more.value.1))
        else None
  }

  /** `JSONDecoder().decode([String].self, from:)`: the strings of a text that is exactly
      one array of strings, or None for anything else (another value, a trailing comma,
      text after the array). */
  function DecodeStrings(s: string): (r: Option<seq<string>>)
    ensures r.Some? ==> SkipSpace(s) != [] && SkipSpace(s)[0] == '['
  {
    var t := SkipSpace(s);
    if t == [] || t[0] != '[' then None
    else
      var u := SkipSpace(t[1..]);
      var items := if u != [] && u[0] == ']' then Some(([], u[1..])) else Elements(u);
      if items.None? || SkipSpace(items.value.1) != [] then None else Some(items.value.0)
  }

  /** The four hexadecimal digits of a UTF-16 code unit. */
  function Hex4Digits(u: nat): (r: string)
    requires u < 0x1_0000
    ensures |r| == 4
  {
    [HexDigit(u / 4096), HexDigit(u / 256 % 16), HexDigit(u / 16 % 16), HexDigit(u % 16)]
  }

  lemma Hex4OfDigits(u: nat, rest: string)
    requires u < 0x1_0000
    ensures Hex4(Hex4Digits(u) + rest) == Some(u)
  {
    var s := Hex4Digits(u) + rest;
    var a, b, c, d := u / 4096, u / 256 % 16, u / 16 % 16, u % 16;
    assert s[0] == HexDigit(a) && s[1] == HexDigit(b) && s[2] == HexDigit(c) && s[3] == HexDigit(d);
    HexPlaces(u);
  }

  lemma HexPlaces(u: nat)
    requires u < 0x1_0000
    ensures (u / 4096) * 4096 + (u / 256 % 16) * 256 + (u / 16 % 16) * 16 + u % 16 == u
  {
    var q := u / 16;
    assert u == q * 16 + u % 16;
    assert q / 16 == u / 256;
    assert q == (u / 256) * 16 + u / 16 % 16;
    var p := u / 256;
    assert p / 16 == u / 4096;
    assert p == (u / 4096) * 16 + u / 256 % 16;
  }

  /** The UTF-16 surrogate pair of a scalar beyond the Basic Multilingual Plane. */
  function Utf16Pair(c: char): (r: (nat, nat))
    requires c as int >= 0x1_0000
    ensures IsHighSurrogate(r.0) && IsLowSurrogate(r.1)
  {
    (0xD800 + (c as int - 0x1_0000) / 0x400, 0xDC00 + (c as int - 0x1_0000) % 0x400)
  }

  /** A surrogate pair stands for the scalar it was made from. */
  lemma PairScalarOfPair(c: char)
    requires c as int >= 0x1_0000
    ensures PairScalar(Utf16Pair(c).0, Utf16Pair(c).1) == c
  {
    var v := c as int - 0x1_0000;
    assert (v / 0x400) * 0x400 + v % 0x400 == v;
  }

  /** `\uD83D\uDE00`: a pair of escapes decodes to one character. */
  lemma EscapePair(c: char, rest: string)
    requires c as int >= 0x1_0000
    ensures Escape("u" + Hex4Digits(Utf16Pair(c).0) + "\\u" + Hex4Digits(Utf16Pair(c).1) + rest)
      == Some((c, rest))
  {
    var (hi, lo) := Utf16Pair(c);
    var second := Hex4Digits(lo) + rest;
    var s := "u" + Hex4Digits(hi) + "\\u" + Hex4Digits(lo) + rest;
    assert s[1..] == Hex4Digits(hi) + ("\\u" + second);
    Hex4OfDigits(hi, "\\u" + second);
    assert s[5] == '\\' && s[6] == 'u';
    assert s[7..] == second;
    Hex4OfDigits(lo, rest);
    assert s[11..] == rest;
    PairScalarOfPair(c);
  }

  /** A low surrogate on its own is an error. */
  lemma EscapeLoneLow(u: nat, rest: string)
    requires IsLowSurrogate(u)
    ensures Escape("u" + Hex4Digits(u) + rest) == None
  {
    var s := "u" + Hex4Digits(u) + rest;
    assert s[1..] == Hex4Digits(u) + rest;
    Hex4OfDigits(u, rest);
  }

  /** A high surrogate not followed by a `\u` escape is an error. */
  lemma EscapeLoneHigh(u: nat, rest: string)
    requires IsHighSurrogate(u) && (rest == [] || rest[0] != '\\')
    ensures Escape("u" + Hex4Digits(u) + rest) == None
  {
    var s := "u" + Hex4Digits(u) + rest;
    assert s[1..] == Hex4Digits(u) + rest;
    Hex4OfDigits(u, rest);
    assert rest != [] ==> s[5] == rest[0];
  }

  // ---------------------------------------------------------------------------
  // The reference encoder

  function HexDigit(d: nat): (c: char)
    requires d < 16
    ensures HexValue(c) == Some(d)
  {
    if d < 10 then ('0' as int + d) as char else ('a' as int + d - 10) as char
  }

  /** A quote, a backslash and the control characters are escaped; the rest is kept. */
  function EscapeChar(c: char): string {
    if c == '"' then "\\\""
    else if c == '\\' then "\\\\"
    else if c < ' ' then "\\u00" + [HexDigit(c as int / 16), HexDigit(c as int % 16)]
    else [c]
  }

  function EscapeText(x: string): string {
    if x == [] then [] else EscapeChar(x[0]) + EscapeText(x[1..])
  }

  function EncodeString(x: string): string {
    "\"" + EscapeText(x) + "\""
  }

  function EncodeElements(xs: seq<string>): string
    requires xs != []
  {
    EncodeString(xs[0]) + if |xs| == 1 then "" else "," + EncodeElements(xs[1..])
  }

  /** `["a","b"]`: the array of `xs` without white space. */
  function EncodeStrings(xs: seq<string>): string {
    "[" + (if xs == [] then "" else EncodeElements(xs)) + "]"
  }

  /** White space before and after each element of an array. */
  predicate PadsAreSpace(pads: seq<(string, string)>) {
    forall i :: 0 <= i < |pads| ==> AllJsonSpace(pads[i].0) && AllJsonSpace(pads[i].1)
  }

  /** The elements of `xs`, the `i`-th with `pads[i].0` before it and `pads[i].1` after it,
      separated by commas. */
  function EncodeElementsSpaced(xs: seq<string>, pads: seq<(string, string)>): string
    requires xs != [] && |pads| == |xs|
  {
    pads[0].0 + EncodeString(xs[0]) + pads[0].1
      + if |xs| == 1 then "" else "," + EncodeElementsSpaced(xs[1..], pads[1..])
  }

  /** The array of `xs` in any layout: `pads` around the elements, or `inside` between the
      brackets of an empty array. `[\n"a",\n"b"\n]`, one element per line, is one of them. */
  function EncodeStringsSpaced(xs: seq<string>, pads: seq<(string, string)>, inside: string): string
    requires |pads| == |xs|
  {
    "[" + (if xs == [] then inside else EncodeElementsSpaced(xs, pads)) + "]"
  }

  /** No white space around any of `n` elements. */
  function NoPads(n: nat): (r: seq<(string, string)>)
    ensures |r| == n && PadsAreSpace(r)
  {
    if n == 0 then [] else [([], [])] + NoPads(n - 1)
  }

  // ---------------------------------------------------------------------------
  // Round trip

  /** Decoding an escaped character consumes exactly its escape. */
  lemma StringBodyChar(c: char, tail: string)
    ensures StringBody(EscapeChar(c) + tail) ==
      var t := StringBody(tail);
      if t.None? then None else Some(([c] + t.value.0, t.value.1))
  {
    var s := EscapeChar(c) + tail;
    if c == '"' || c == '\\' {
      assert s[0] == '\\' && s[1..] == [c] + tail;
      assert Escape(s[1..]) == Some((c, tail));
    } else if c < ' ' {
      EscapeControl(c, tail, s[1..]);
    } else {
      assert s[0] == c && s[1..] == tail;
    }
  }

  /** A control character's `\u00XX` escape gives the character back. */
  lemma EscapeControl(c: char, tail: string, e: string)
    requires c < ' ' && e == EscapeChar(c)[1..] + tail
    ensures Escape(e) == Some((c, tail))
  {
    var hi, lo := HexDigit(c as int / 16), HexDigit(c as int % 16);
    assert e == ['u', '0', '0', hi, lo] + tail;
    assert e[1..][..4] == ['0', '0', hi, lo];
    assert Hex4(e[1..]) == Some(c as int);
    assert e[5..] == tail;
  }

  lemma {:induction false} StringBodyEscaped(x: string, rest: string)
    ensures StringBody(EscapeText(x) + "\"" + rest) == Some((x, rest))
  {
    if x == [] {
      assert EscapeText(x) + "\"" + rest == "\"" + rest;
      assert ("\"" + rest)[1..] == rest;
    } else {
      var tail := EscapeText(x[1..]) + "\"" + rest;
      assert EscapeText(x) + "\"" + rest == EscapeChar(x[0]) + tail;
      StringBodyEscaped(x[1..], rest);
      StringBodyChar(x[0], tail);
      assert [x[0]] + x[1..] == x;
    }
  }

  /** A first string literal is read up to its closing quote, whatever follows it. */
  lemma FirstString(x: string, after: string, s: string)
    requires s == EncodeString(x) + after
    ensures s != [] && s[0] == '"' && StringBody(s[1..]) == Some((x, after))
  {
    assert s == "\"" + (EscapeText(x) + "\"" + after);
    assert s[1..] == EscapeText(x) + "\"" + after;
    StringBodyEscaped(x, after);
  }

  lemma {:induction false} ElementsEncoded(xs: seq<string>, rest: string)
    requires xs != []
    ensures Elements(EncodeElements(xs) + "]" + rest) == Some((xs, rest))
  {
    if |xs| == 1 {
      LastElementEncoded(xs, rest);
    } else {
      var s := EncodeElements(xs) + "]" + rest;
      var next := EncodeElements(xs[1..]) + "]" + rest;
      var after := "," + next;
      assert s == EncodeString(xs[0]) + after;
      FirstString(xs[0], after, s);
      assert SkipSpace(after) == after;
      assert after[1..] == next;
      assert SkipSpace(next) == next;
      ElementsEncoded(xs[1..], rest);
      assert [xs[0]] + xs[1..] == xs;
    }
  }

  lemma LastElementEncoded(xs: seq<string>, rest: string)
    requires |xs| == 1
    ensures Elements(EncodeElements(xs) + "]" + rest) == Some((xs, rest))
  {
    var s := EncodeElements(xs) + "]" + rest;
    var after := "]" + rest;
    assert s == EncodeString(xs[0]) + after;
    FirstString(xs[0], after, s);
    assert SkipSpace(after) == after;
    assert after[1..] == rest;
    assert xs == [xs[0]];
  }

  /** Decoding inverts encoding, with any white space around the array. */
  lemma DecodeEncoded(w1: string, xs: seq<string>, w2: string)
    requires AllJsonSpace(w1) && AllJsonSpace(w2)
    ensures DecodeStrings(w1 + EncodeStrings(xs) + w2) == Some(xs)
  {
    var inner := if xs == [] then "" else EncodeElements(xs);
    var body := inner + "]" + w2;
    assert w1 + EncodeStrings(xs) + w2 == w1 + ("[" + body);
    DecodeArray(w1, body, xs, w2);
  }

  /** The array's opening bracket is found after the leading white space, and its
      elements are read from what follows. */
  lemma DecodeArray(w1: string, body: string, xs: seq<string>, w2: string)
    requires AllJsonSpace(w1) && AllJsonSpace(w2)
    requires xs == [] ==> body == "]" + w2
    requires xs != [] ==> body == EncodeElements(xs) + "]" + w2
    ensures DecodeStrings(w1 + ("[" + body)) == Some(xs)
  {
    var t := "[" + body;
    SkipSpaceLeading(w1, t);
    assert t[1..] == body;
    SkipSpaceLeading(w2, []);
    assert w2 + [] == w2;
    if xs == [] {
      assert body[0] == ']' && body[1..] == w2;
      assert SkipSpace(body) == body;
    } else {
      ElementsEncoded(xs, w2);
      assert body[0] == '"';
      assert SkipSpace(body) == body;
    }
  }

  /** An element with white space around it: the space before is skipped, the literal is
      read to its quote, and the space after is skipped up to what follows. */
  lemma HeadSpaced(x: string, before: string, after: string, next: string)
    requires AllJsonSpace(before) && AllJsonSpace(after)
    requires next != [] && !IsJsonSpace(next[0])
    ensures var t := SkipSpace(before + EncodeString(x) + after + next);
      t == EncodeString(x) + (after + next) && t[0] == '"'
      && StringBody(t[1..]) == Some((x, after + next)) && SkipSpace(after + next) == next
  {
    var core := EncodeString(x) + (after + next);
    assert before + EncodeString(x) + after + next == before + core;
    assert core[0] == '"';
    SkipSpaceLeading(before, core);
    FirstString(x, after + next, core);
    SkipSpaceLeading(after, next);
  }

  lemma PadsTail(pads: seq<(string, string)>)
    requires pads != [] && PadsAreSpace(pads)
    ensures AllJsonSpace(pads[0].0) && AllJsonSpace(pads[0].1) && PadsAreSpace(pads[1..])
  {
    forall i | 0 <= i < |pads[1..]|
      ensures AllJsonSpace(pads[1..][i].0) && AllJsonSpace(pads[1..][i].1)
    {
      assert pads[1..][i] == pads[i + 1];
    }
  }

  /** One step of `Elements`: a literal, then a closing bracket or a comma. */
  lemma ElementsCons(t: string, x: string, mid: string, next: string)
    requires t != [] && t[0] == '"' && StringBody(t[1..]) == Some((x, mid)) && SkipSpace(mid) == next
    ensures next != [] && next[0] == ']' ==> Elements(t) == Some(([x], next[1..]))
    ensures next != [] && next[0] == ',' ==> (Elements(t) ==
      var more := Elements(SkipSpace(next[1..]));
      if more.None? then None else Some(([x] + more.value.0, more.value.1)))
  {
  }

  /** What follows the first element's white space: the bracket, or a comma and the rest. */
  function LaterSpaced(xs: seq<string>, pads: seq<(string, string)>, rest: string): (next: string)
    requires xs != [] && |pads| == |xs|
    ensures EncodeElementsSpaced(xs, pads) + "]" + rest == pads[0].0 + EncodeString(xs[0]) + pads[0].1 + next
    ensures |xs| == 1 ==> next == "]" + rest
    ensures |xs| > 1 ==> next == "," + (EncodeElementsSpaced(xs[1..], pads[1..]) + "]" + rest)
  {
    if |xs| == 1 then "]" + rest else "," + (EncodeElementsSpaced(xs[1..], pads[1..]) + "]" + rest)
  }

  /** Elements in any layout are read back, white space before the first included. */
  lemma {:induction false} ElementsSpaced(xs: seq<string>, pads: seq<(string, string)>, rest: string)
    requires xs != [] && |pads| == |xs| && PadsAreSpace(pads)
    ensures var t := SkipSpace(EncodeElementsSpaced(xs, pads) + "]" + rest);
      t != [] && t[0] == '"' && Elements(t) == Some((xs, rest))
  {
    var next := LaterSpaced(xs, pads, rest);
    PadsTail(pads);
    HeadSpaced(xs[0], pads[0].0, pads[0].1, next);
    var t := SkipSpace(EncodeElementsSpaced(xs, pads) + "]" + rest);
    ElementsCons(t, xs[0], pads[0].1 + next, next);
    if |xs| == 1 {
      assert next[1..] == rest;
      assert xs == [xs[0]];
    } else {
      assert next[1..] == EncodeElementsSpaced(xs[1..], pads[1..]) + "]" + rest;
      ElementsSpaced(xs[1..], pads[1..], rest);
      assert [xs[0]] + xs[1..] == xs;
    }
  }

  /** The array is read from its opening bracket after white space, once what follows the
      bracket reads as its elements. */
  lemma DecodeFrame(w1: string, body: string, xs: seq<string>, w2: string)
    requires AllJsonSpace(w1) && AllJsonSpace(w2)
    requires SkipSpace(body) != []
    requires xs == [] ==> SkipSpace(body) == "]" + w2
    requires xs != [] ==> SkipSpace(body)[0] == '"' && Elements(SkipSpace(body)) == Some((xs, w2))
    ensures DecodeStrings(w1 + ("[" + body)) == Some(xs)
  {
    var t := "[" + body;
    SkipSpaceLeading(w1, t);
    assert t[1..] == body;
    SkipSpaceLeading(w2, []);
    assert w2 + [] == w2;
    if xs == [] {
      assert ("]" + w2)[1..] == w2;
    }
  }

  /** Decoding inverts encoding in every layout, with any white space around the array. */
  lemma DecodeSpaced(w1: string, xs: seq<string>, pads: seq<(string, string)>, inside: string, w2: string)
    requires AllJsonSpace(w1) && AllJsonSpace(w2) && AllJsonSpace(inside)
    requires |pads| == |xs| && PadsAreSpace(pads)
    ensures DecodeStrings(w1 + EncodeStringsSpaced(xs, pads, inside) + w2) == Some(xs)
  {
    if xs == [] {
      var close := "]" + w2;
      assert w1 + EncodeStringsSpaced(xs, pads, inside) + w2 == w1 + ("[" + (inside + close));
      SkipSpaceLeading(inside, close);
      DecodeFrame(w1, inside + close, xs, w2);
    } else {
      var body := EncodeElementsSpaced(xs, pads) + "]" + w2;
      assert w1 + EncodeStringsSpaced(xs, pads, inside) + w2 == w1 + ("[" + body);
      ElementsSpaced(xs, pads, w2);
      DecodeFrame(w1, body, xs, w2);
    }
  }

  /** The compact encoding is the layout without white space. */
  lemma {:induction false} CompactIsSpaced(xs: seq<string>)
    ensures EncodeStrings(xs) == EncodeStringsSpaced(xs, NoPads(|xs|), "")
  {
    if xs != [] {
      CompactElementsSpaced(xs);
    }
  }

  lemma {:induction false} CompactElementsSpaced(xs: seq<string>)
    requires xs != []
    ensures EncodeElements(xs) == EncodeElementsSpaced(xs, NoPads(|xs|))
  {
    var pads := NoPads(|xs|);
    assert pads[0] == ([], []);
    if |xs| > 1 {
      assert pads[1..] == NoPads(|xs| - 1);
      assert |xs[1..]| == |xs| - 1;
      CompactElementsSpaced(xs[1..]);
    }
  }

  /** The layout the suggestions prompt asks for, one element per line, decodes. */
  lemma OnePerLineDecodes(s: string)
    requires s == "[\n\"a\",\n\"b\"\n]"
    ensures DecodeStrings(s) == Some(["a", "b"])
  {
    var pads := [("\n", ""), ("\n", "\n")];
    assert EscapeText("a") == "a" && EscapeText("b") == "b";
    assert EncodeElementsSpaced(["b"], pads[1..]) == "\n\"b\"\n";
    assert EncodeStringsSpaced(["a", "b"], pads, "") == s;
    assert [] + s + [] == s;
    DecodeSpaced([], ["a", "b"], pads, "", []);
  }

  /** An array whose closing bracket is missing does not decode. */
  lemma {:induction false} ElementsUnclosed(xs: seq<string>)
    requires xs != []
    ensures Elements(EncodeElements(xs)) == None
  {
    var s := EncodeElements(xs);
    if |xs| == 1 {
      assert s == EncodeString(xs[0]) + "";
      FirstString(xs[0], "", s);
    } else {
      var next := EncodeElements(xs[1..]);
      var after := "," + next;
      assert s == EncodeString(xs[0]) + after;
      FirstString(xs[0], after, s);
      assert SkipSpace(after) == after;
      assert after[1..] == next;
      assert SkipSpace(next) == next;
      ElementsUnclosed(xs[1..]);
    }
  }

  lemma DecodeUnclosed(xs: seq<string>)
    requires xs != []
    ensures DecodeStrings("[" + EncodeElements(xs)) == None
  {
    var s := "[" + EncodeElements(xs);
    assert SkipSpace(s) == s;
    assert s[1..] == EncodeElements(xs);
    assert SkipSpace(s[1..]) == s[1..];
    ElementsUnclosed(xs);
  }
}
