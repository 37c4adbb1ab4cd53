/** The `String` extension of the app: prefix dropping and the nil-if-blank helpers. */
module StringHelpers {
  import opened Wrappers
  import opened Text

  /** Removes one copy of `prefix` when the string starts with it. */
  function ByDroppingPrefix(s: string, prefix: string): (r: string)
    ensures HasPrefix(s, prefix) ==> prefix + r == s
    ensures !HasPrefix(s, prefix) ==> r == s
  {
    if HasPrefix(s, prefix) then s[|prefix|..] else s
  }

  /** Only one copy is removed: a doubled fence keeps its second half. */
  lemma DropsOneCopyOnly()
    ensures ByDroppingPrefix("``````x", "```") == "```x"
  {
    assert HasPrefix("``````x", "```");
  }

  function NilIfEmpty(s: string): (r: Option<string>)
    ensures r.None? <==> s == ""
    ensures r.Some? ==> r.value == s
  {
    if s == "" then None else Some(s)
  }

  /** Nil when the string is blank once white space and newlines are trimmed; otherwise
      the string itself, untrimmed. */
  function NilIfEmptyOrJustWhitespace(s: string): (r: Option<string>)
    ensures r.None? <==> AllWhitespace(s)
    ensures r.Some? ==> r.value == s
  {
    TrimEmptyIff(s);
    if Trim(s) == "" then None else Some(s)
  }

  /** Whenever the blank-aware helper keeps a string, the plain one keeps it too. */
  lemma BlankAwareRefinesEmpty(s: string)
    ensures NilIfEmptyOrJustWhitespace(s).Some? ==> NilIfEmptyOrJustWhitespace(s) == NilIfEmpty(s)
  {
  }
}
