/** The escaping applied to feed values before they are placed in card markup:
    `escapeHtml` for element text and `escapeAttr` for the map link's `href`. */
module Html {
  import opened Options
  import opened Text

  /** The characters `escapeHtml` replaces. */
  predicate IsSpecial(c: char) {
    c == '&' || c == '<' || c == '>' || c == '"'
  }

  /** The replacement of one character: its entity when it is special, the character itself
      otherwise. */
  function Entity(c: char): (e: string)
    ensures c == '&' ==> e == "&amp;"
    ensures c == '<' ==> e == "&lt;"
    ensures c == '>' ==> e == "&gt;"
    ensures c == '"' ==> e == "&quot;"
    ensures !IsSpecial(c) ==> e == [c]
  {
    match c
    case '&' => "&amp;"
    case '<' => "&lt;"
    case '>' => "&gt;"
    case '"' => "&quot;"
    case _ => [c]
  }

  /** Every character of s replaced by its Entity. */
  function EscapeText(s: string): (r: string) {
    if s == [] then [] else Entity(s[0]) + EscapeText(s[1..])
  }

  /** `escapeHtml`: `String(s || '')` with `&`, `<`, `>` and `"` replaced by entities; an
      absent value is the empty text. */
  function EscapeHtml(v: Option<string>): (r: string)
    ensures v.None? ==> r == ""
  {
    EscapeText(v.GetOr(""))
  }

  /** Escaping works character by character: the escape of a concatenation is the
      concatenation of the escapes. */
  lemma {:induction false} EscapeTextConcat(a: string, b: string)
    ensures EscapeText(a + b) == EscapeText(a) + EscapeText(b)
  {
    if a != [] {
      assert (a + b)[0] == a[0] && (a + b)[1..] == a[1..] + b;
      EscapeTextConcat(a[1..], b);
    } else {
      assert a + b == b;
    }
  }

  /** Text with no special character passes through unchanged. */
  lemma {:induction false} EscapeTextPlain(s: string)
    requires forall i :: 0 <= i < |s| ==> !IsSpecial(s[i])
    ensures EscapeText(s) == s
  {
    if s != [] {
      EscapeTextPlain(s[1..]);
    }
  }

  /** Escaped text has no raw `<`, `>` or `"`. */
  lemma {:induction false} EscapeTextNoMarkup(s: string)
    ensures '<' !in EscapeText(s) && '>' !in EscapeText(s) && '"' !in EscapeText(s)
  {
    if s != [] {
      EscapeTextNoMarkup(s[1..]);
      assert '<' !in Entity(s[0]) && '>' !in Entity(s[0]) && '"' !in Entity(s[0]);
    }
  }

  /** The decoding of the four entities `escapeHtml` produces. */
  function Unescape(s: string): (r: string) {
    if |s| >= 5 && s[..5] == "&amp;" then "&" + Unescape(s[5..])
    else if |s| >= 4 && s[..4] == "&lt;" then "<" + Unescape(s[4..])
    else if |s| >= 4 && s[..4] == "&gt;" then ">" + Unescape(s[4..])
    else if |s| >= 6 && s[..6] == "&quot;" then "\"" + Unescape(s[6..])
    else if s == [] then []
    else [s[0]] + Unescape(s[1..])
  }

  /** Decoding reads one escaped character back, whatever follows it. */
  lemma UnescapeEntity(c: char, rest: string)
    ensures Unescape(Entity(c) + rest) == [c] + Unescape(rest)
  {
    if c == '&' {
      UnescapePrefix("&amp;", c, rest);
    } else if c == '<' {
      UnescapePrefix("&lt;", c, rest);
    } else if c == '>' {
      UnescapePrefix("&gt;", c, rest);
    } else if c == '"' {
      UnescapePrefix("&quot;", c, rest);
    } else {
      UnescapePlain(c, rest);
    }
  }

  /** A character that is not special is decoded as itself. */
  lemma UnescapePlain(c: char, rest: string)
    requires !IsSpecial(c)
    ensures Unescape([c] + rest) == [c] + Unescape(rest)
  {
    var s := [c] + rest;
    assert s[0] == c && s[1..] == rest;
  }

  /** One entity at the front is decoded to its character. */
  lemma UnescapePrefix(e: string, c: char, rest: string)
    requires e in ["&amp;", "&lt;", "&gt;", "&quot;"] && IsSpecial(c) && e == Entity(c)
    ensures Unescape(e + rest) == [c] + Unescape(rest)
  {
    var s := e + rest;
    assert s[..|e|] == e && s[|e|..] == rest && s[1] == e[1];
  }

  /** Nothing is lost: decoding the escaped text gives the text back. */
  lemma {:induction false} EscapeTextRoundTrip(s: string)
    ensures Unescape(EscapeText(s)) == s
  {
    if s != [] {
      EscapeTextRoundTrip(s[1..]);
      UnescapeEntity(s[0], EscapeText(s[1..]));
      assert s == [s[0]] + s[1..];
    }
  }

  /** `escapeAttr`: `String(s || '')` with every `"` replaced by `&quot;`. */
  function EscapeAttr(v: Option<string>): (r: string)
    ensures v.None? ==> r == ""
  {
    QuoteText(v.GetOr(""))
  }

  /** Every `"` of s replaced by `&quot;`. */
  function QuoteText(s: string): (r: string) {
    if s == [] then []
    else if s[0] == '"' then "&quot;" + QuoteText(s[1..])
    else [s[0]] + QuoteText(s[1..])
  }

  /** The global replace is the same as splitting at every `"` and joining with `&quot;`. */
  lemma {:induction false} QuoteTextIsSplitJoin(s: string)
    ensures QuoteText(s) == Join(Split(s, '"'), "&quot;")
  {
    if s != [] {
      QuoteTextIsSplitJoin(s[1..]);
      var rest := Split(s[1..], '"');
      if s[0] == '"' {
        JoinEmptyFirst(rest, "&quot;");
      } else {
        JoinPrepend(s[0], rest, "&quot;");
      }
    }
  }

  /** Attribute escaping leaves no `"`, and keeps every other character, `&`, `<` and `>`
      included, where it was. */
  lemma {:induction false} QuoteTextShape(s: string)
    ensures '"' !in QuoteText(s)
    ensures '"' !in s ==> QuoteText(s) == s
  {
    if s != [] {
      QuoteTextShape(s[1..]);
    }
  }

  /** The escape of a concatenation is the concatenation of the escapes. */
  lemma {:induction false} QuoteTextConcat(a: string, b: string)
    ensures QuoteText(a + b) == QuoteText(a) + QuoteText(b)
  {
    if a != [] {
      assert (a + b)[0] == a[0] && (a + b)[1..] == a[1..] + b;
      QuoteTextConcat(a[1..], b);
    } else {
      assert a + b == b;
    }
  }
}
