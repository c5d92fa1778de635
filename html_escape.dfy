/** The `escapeHtml` helper of the contact endpoint: each of the five HTML
    metacharacters `& < > " '` is replaced by its entity, every other
    character is kept, in order. `UnescapeHtml` decodes those five entities
    and is the partner that shows nothing is lost. */
module HtmlEscape {
  import opened Text

  /** The characters that may not appear raw in an escaped value: with `&`
      they make up the replacement table. */
  predicate IsMarkup(c: char) {
    c == '<' || c == '>' || c == '"' || c == '\''
  }

  predicate IsSpecial(c: char) {
    c == '&' || IsMarkup(c)
  }

  /** The replacement table entry for one character; characters outside the
      table map to themselves. */
  function EscapeChar(c: char): (r: string)
    ensures |r| >= 1
  {
    match c
    case '&' => "&amp;"
    case '<' => "&lt;"
    case '>' => "&gt;"
    case '"' => "&quot;"
    case '\'' => "&#39;"
    case _ => [c]
  }

  /** The escaped text never holds a raw `<`, `>`, `"` or `'`, and it is
      never shorter than the input. */
  function EscapeHtml(s: string): (r: string)
    ensures |r| >= |s|
    ensures forall i :: 0 <= i < |r| ==> !IsMarkup(r[i])
    decreases |s|
  {
    if s == [] then [] else EscapeChar(s[0]) + EscapeHtml(s[1..])
  }

  /** Decodes the five entities `EscapeHtml` produces; every other character,
      including an `&` that starts none of them, is kept. */
  function UnescapeHtml(s: string): string
    decreases |s|
  {
    if s == [] then []
    else if "&amp;" <= s then "&" + UnescapeHtml(s[5..])
    else if "&lt;" <= s then "<" + UnescapeHtml(s[4..])
    else if "&gt;" <= s then ">" + UnescapeHtml(s[4..])
    else if "&quot;" <= s then "\"" + UnescapeHtml(s[6..])
    else if "&#39;" <= s then "'" + UnescapeHtml(s[5..])
    else [s[0]] + UnescapeHtml(s[1..])
  }

  lemma UnescapeAfterEscapeChar(c: char, t: string)
    ensures UnescapeHtml(EscapeChar(c) + t) == [c] + UnescapeHtml(t)
  {
    var e := EscapeChar(c) + t;
    if c == '&' {
      assert "&amp;" <= e && e[5..] == t;
    } else if c == '<' {
      assert !("&amp;" <= e) by { assert e[1] == 'l'; }
      assert "&lt;" <= e && e[4..] == t;
    } else if c == '>' {
      assert !("&amp;" <= e) by { assert e[1] == 'g'; }
      assert !("&lt;" <= e) by { assert e[1] == 'g'; }
      assert "&gt;" <= e && e[4..] == t;
    } else if c == '"' {
      assert !("&amp;" <= e) && !("&lt;" <= e) && !("&gt;" <= e) by { assert e[1] == 'q'; }
      assert "&quot;" <= e && e[6..] == t;
    } else if c == '\'' {
      assert !("&amp;" <= e) && !("&lt;" <= e) && !("&gt;" <= e) && !("&quot;" <= e) by { assert e[1] == '#'; }
      assert "&#39;" <= e && e[5..] == t;
    } else {
      assert e[0] == c && e[1..] == t;
    }
  }

  /** Escaping is lossless: decoding the entities gives back the input. */
  lemma {:induction false} UnescapeEscape(s: string)
    ensures UnescapeHtml(EscapeHtml(s)) == s
    decreases |s|
  {
    if s != [] {
      UnescapeAfterEscapeChar(s[0], EscapeHtml(s[1..]));
      UnescapeEscape(s[1..]);
      assert [s[0]] + s[1..] == s;
    }
  }

  /** Two different inputs never escape to the same text. */
  lemma EscapeInjective(s: string, t: string)
    requires EscapeHtml(s) == EscapeHtml(t)
    ensures s == t
  {
    UnescapeEscape(s);
    UnescapeEscape(t);
  }

  /** Escaping works character by character, so it distributes over
      concatenation. */
  lemma {:induction false} EscapeAppend(a: string, b: string)
    ensures EscapeHtml(a + b) == EscapeHtml(a) + EscapeHtml(b)
    decreases |a|
  {
    if a == [] {
      assert a + b == b;
    } else {
      assert (a + b)[0] == a[0] && (a + b)[1..] == a[1..] + b;
      EscapeAppend(a[1..], b);
    }
  }

  /** Text without any of the five characters passes through unchanged. */
  lemma {:induction false} EscapePlainText(s: string)
    requires forall i :: 0 <= i < |s| ==> !IsSpecial(s[i])
    ensures EscapeHtml(s) == s
    decreases |s|
  {
    if s != [] {
      EscapePlainText(s[1..]);
      assert [s[0]] + s[1..] == s;
    }
  }

  /** The output grows by the entity length minus one for each escaped
      character. */
  lemma {:induction false} EscapeLength(s: string)
    ensures |EscapeHtml(s)| == |s| + 4 * Count(s, '&') + 3 * Count(s, '<') + 3 * Count(s, '>')
                                   + 5 * Count(s, '"') + 4 * Count(s, '\'')
    decreases |s|
  {
    if s != [] {
      EscapeLength(s[1..]);
    }
  }

  /** Escaping is not idempotent: an `&` is escaped again on a second pass. */
  lemma EscapeNotIdempotent()
    ensures EscapeHtml(EscapeHtml("&")) == "&amp;amp;"
    ensures EscapeHtml(EscapeHtml("&")) != EscapeHtml("&")
  {
    assert EscapeHtml("&") == "&amp;" by {
      assert EscapeHtml("&") == EscapeChar('&') + EscapeHtml([]);
    }
    EscapeAppend("&", "amp;");
    assert "&amp;" == "&" + "amp;";
    EscapePlainText("amp;");
  }

  /** A `<b>` tag turns into inert text. */
  lemma EscapeTagExample()
    ensures EscapeHtml("<b>") == "&lt;b&gt;"
  {
    assert "<b>" == "<" + "b" + ">";
    EscapeAppend("<" + "b", ">");
    EscapeAppend("<", "b");
    assert EscapeHtml("<") == EscapeChar('<') + EscapeHtml([]);
    assert EscapeHtml(">") == EscapeChar('>') + EscapeHtml([]);
    assert EscapeHtml("b") == EscapeChar('b') + EscapeHtml([]);
  }

  /** No `<` or `>` survives escaping, counted. */
  lemma EscapedHasNoAngleBrackets(s: string)
    ensures Count(EscapeHtml(s), '<') == 0 && Count(EscapeHtml(s), '>') == 0
  {
    var r := EscapeHtml(s);
    CountAbsent(r, '<');
    CountAbsent(r, '>');
  }
}
