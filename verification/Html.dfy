/**
 * Python's `html.escape(s, quote)`, the only escaping the listing pages use.
 *
 * The library performs a chain of `str.replace` calls: '&' first, then '<'
 * and '>', and with `quote=True` also '"' and '\''. `Escape` is the same map
 * written one character at a time; `EscapeIsReplaceChain` proves the two
 * agree, and `UnescapeEscape` proves that escaping loses no information.
 */
module Html {
  import opened Strings

  function EscapeChar(c: char, quote: bool): string
  {
    if c == '&' then "&amp;"
    else if c == '<' then "&lt;"
    else if c == '>' then "&gt;"
    else if quote && c == '"' then "&quot;"
    else if quote && c == '\'' then "&#x27;"
    else [c]
  }

  /** `html.escape(s, quote)`: the result never holds a raw angle bracket, nor a raw quote when `quote` is set. */
  function Escape(s: string, quote: bool): (r: string)
    ensures '<' !in r && '>' !in r
    ensures quote ==> '"' !in r && '\'' !in r
    ensures |r| >= |s|
  {
    if s == [] then []
    else
      var e := EscapeChar(s[0], quote);
      assert '<' !in e && '>' !in e && (quote ==> '"' !in e && '\'' !in e) && |e| >= 1;
      e + Escape(s[1..], quote)
  }

  lemma {:induction false} EscapeAppend(a: string, b: string, quote: bool)
    ensures Escape(a + b, quote) == Escape(a, quote) + Escape(b, quote)
    decreases |a|
  {
    if a == [] {
      assert a + b == b;
    } else {
      assert (a + b)[1..] == a[1..] + b;
      EscapeAppend(a[1..], b, quote);
    }
  }

  // ---------------------------------------------------------------------------
  // The library's own formulation: a chain of replacements
  // ---------------------------------------------------------------------------

  /** `s.replace(c, repl)` for a one-character pattern. */
  function Replace(s: string, c: char, repl: string): (r: string)
  {
    if s == [] then [] else (if s[0] == c then repl else [s[0]]) + Replace(s[1..], c, repl)
  }

  lemma {:induction false} ReplaceAppend(a: string, b: string, c: char, repl: string)
    ensures Replace(a + b, c, repl) == Replace(a, c, repl) + Replace(b, c, repl)
    decreases |a|
  {
    if a == [] {
      assert a + b == b;
    } else {
      assert (a + b)[1..] == a[1..] + b;
      ReplaceAppend(a[1..], b, c, repl);
    }
  }

  lemma {:induction false} ReplaceAbsent(s: string, c: char, repl: string)
    requires c !in s
    ensures Replace(s, c, repl) == s
    decreases |s|
  {
    if s != [] {
      ReplaceAbsent(s[1..], c, repl);
    }
  }

  /** The five replacements of `html.escape`, in the library's order. */
  function ReplaceChain(s: string, quote: bool): string
  {
    var s1 := Replace(s, '&', "&amp;");
    var s2 := Replace(s1, '<', "&lt;");
    var s3 := Replace(s2, '>', "&gt;");
    if quote then Replace(Replace(s3, '"', "&quot;"), '\'', "&#x27;") else s3
  }

  lemma ReplaceChainAppend(a: string, b: string, quote: bool)
    ensures ReplaceChain(a + b, quote) == ReplaceChain(a, quote) + ReplaceChain(b, quote)
  {
    ReplaceAppend(a, b, '&', "&amp;");
    var a1, b1 := Replace(a, '&', "&amp;"), Replace(b, '&', "&amp;");
    ReplaceAppend(a1, b1, '<', "&lt;");
    var a2, b2 := Replace(a1, '<', "&lt;"), Replace(b1, '<', "&lt;");
    ReplaceAppend(a2, b2, '>', "&gt;");
    var a3, b3 := Replace(a2, '>', "&gt;"), Replace(b2, '>', "&gt;");
    ReplaceAppend(a3, b3, '"', "&quot;");
    ReplaceAppend(Replace(a3, '"', "&quot;"), Replace(b3, '"', "&quot;"), '\'', "&#x27;");
  }

  lemma ReplaceOne(c: char, x: char, repl: string)
    ensures Replace([c], x, repl) == if c == x then repl else [c]
  {
    assert [c][1..] == [];
  }

  /** A string free of '<', '>', '"' and '\'' is left alone by the later replacements. */
  lemma ReferenceStable(e: string)
    requires '<' !in e && '>' !in e && '"' !in e && '\'' !in e
    ensures Replace(e, '<', "&lt;") == e && Replace(e, '>', "&gt;") == e
    ensures Replace(e, '"', "&quot;") == e && Replace(e, '\'', "&#x27;") == e
  {
    ReplaceAbsent(e, '<', "&lt;");
    ReplaceAbsent(e, '>', "&gt;");
    ReplaceAbsent(e, '"', "&quot;");
    ReplaceAbsent(e, '\'', "&#x27;");
  }

  // One lemma per character class keeps each proof small.

  lemma ChainAmp(quote: bool)
    ensures ReplaceChain("&", quote) == "&amp;"
  {
    ReplaceOne('&', '&', "&amp;");
    ReferenceStable("&amp;");
  }

  lemma ChainLt(quote: bool)
    ensures ReplaceChain("<", quote) == "&lt;"
  {
    ReplaceOne('<', '&', "&amp;");
    ReplaceOne('<', '<', "&lt;");
    ReferenceStable("&lt;");
  }

  lemma ChainGt(quote: bool)
    ensures ReplaceChain(">", quote) == "&gt;"
  {
    ReplaceOne('>', '&', "&amp;");
    ReplaceOne('>', '<', "&lt;");
    ReplaceOne('>', '>', "&gt;");
    ReferenceStable("&gt;");
  }

  lemma ChainQuot(quote: bool)
    ensures ReplaceChain("\"", quote) == if quote then "&quot;" else "\""
  {
    ReplaceOne('"', '&', "&amp;");
    ReplaceOne('"', '<', "&lt;");
    ReplaceOne('"', '>', "&gt;");
    ReplaceOne('"', '"', "&quot;");
    ReferenceStable("&quot;");
  }

  lemma ChainApos(quote: bool)
    ensures ReplaceChain("'", quote) == if quote then "&#x27;" else "'"
  {
    ReplaceOne('\'', '&', "&amp;");
    ReplaceOne('\'', '<', "&lt;");
    ReplaceOne('\'', '>', "&gt;");
    ReplaceOne('\'', '"', "&quot;");
    ReplaceOne('\'', '\'', "&#x27;");
  }

  lemma ChainOther(c: char, quote: bool)
    requires c != '&' && c != '<' && c != '>' && c != '"' && c != '\''
    ensures ReplaceChain([c], quote) == [c]
  {
    ReplaceOne(c, '&', "&amp;");
    ReplaceOne(c, '<', "&lt;");
    ReplaceOne(c, '>', "&gt;");
    ReplaceOne(c, '"', "&quot;");
    ReplaceOne(c, '\'', "&#x27;");
  }

  /** On a single character the replacement chain produces exactly `EscapeChar`. */
  lemma ReplaceChainChar(c: char, quote: bool)
    ensures ReplaceChain([c], quote) == EscapeChar(c, quote)
  {
    if c == '&' {
      ChainAmp(quote);
    } else if c == '<' {
      ChainLt(quote);
    } else if c == '>' {
      ChainGt(quote);
    } else if c == '"' {
      ChainQuot(quote);
    } else if c == '\'' {
      ChainApos(quote);
    } else {
      ChainOther(c, quote);
    }
  }

  /** The per-character escape equals the library's chain of `str.replace` calls. */
  lemma {:induction false} EscapeIsReplaceChain(s: string, quote: bool)
    ensures Escape(s, quote) == ReplaceChain(s, quote)
    decreases |s|
  {
    if s != [] {
      assert s == [s[0]] + s[1..];
      ReplaceChainAppend([s[0]], s[1..], quote);
      ReplaceChainChar(s[0], quote);
      EscapeIsReplaceChain(s[1..], quote);
    }
  }

  // ---------------------------------------------------------------------------
  // Escaping is invertible
  // ---------------------------------------------------------------------------

  /** `html.unescape` restricted to the five references `Escape` produces. */
  function Unescape(s: string): string
    decreases |s|
  {
    if s == [] then []
    else if s[0] != '&' then [s[0]] + Unescape(s[1..])
    else if StartsWith(s, "&amp;") then "&" + Unescape(s[5..])
    else if StartsWith(s, "&lt;") then "<" + Unescape(s[4..])
    else if StartsWith(s, "&gt;") then ">" + Unescape(s[4..])
    else if StartsWith(s, "&quot;") then "\"" + Unescape(s[6..])
    else if StartsWith(s, "&#x27;") then "'" + Unescape(s[6..])
    else [s[0]] + Unescape(s[1..])
  }

  // One lemma per reference keeps each proof small.

  lemma UnescapeAmp(rest: string)
    ensures Unescape("&amp;" + rest) == "&" + Unescape(rest)
  {
    var s := "&amp;" + rest;
    assert s[..5] == "&amp;" && s[5..] == rest;
  }

  lemma UnescapeLt(rest: string)
    ensures Unescape("&lt;" + rest) == "<" + Unescape(rest)
  {
    var s := "&lt;" + rest;
    assert s[1] == 'l';
    assert s[..4] == "&lt;" && s[4..] == rest;
  }

  lemma UnescapeGt(rest: string)
    ensures Unescape("&gt;" + rest) == ">" + Unescape(rest)
  {
    var s := "&gt;" + rest;
    assert s[1] == 'g';
    assert s[..4] == "&gt;" && s[4..] == rest;
  }

  lemma UnescapeQuot(rest: string)
    ensures Unescape("&quot;" + rest) == "\"" + Unescape(rest)
  {
    var s := "&quot;" + rest;
    assert s[1] == 'q';
    assert s[..6] == "&quot;" && s[6..] == rest;
  }

  lemma UnescapeApos(rest: string)
    ensures Unescape("&#x27;" + rest) == "'" + Unescape(rest)
  {
    var s := "&#x27;" + rest;
    assert s[1] == '#';
    assert s[..6] == "&#x27;" && s[6..] == rest;
  }

  lemma UnescapePlain(c: char, rest: string)
    requires c != '&'
    ensures Unescape([c] + rest) == [c] + Unescape(rest)
  {
    var s := [c] + rest;
    assert s[0] == c && s[1..] == rest;
  }

  lemma UnescapeCons(c: char, quote: bool, rest: string)
    ensures Unescape(EscapeChar(c, quote) + rest) == [c] + Unescape(rest)
  {
    if c == '&' {
      UnescapeAmp(rest);
    } else if c == '<' {
      UnescapeLt(rest);
    } else if c == '>' {
      UnescapeGt(rest);
    } else if quote && c == '"' {
      UnescapeQuot(rest);
    } else if quote && c == '\'' {
      UnescapeApos(rest);
    } else {
      UnescapePlain(c, rest);
    }
  }

  /** Unescaping an escaped string gives the original back: no two names render alike. */
  lemma {:induction false} UnescapeEscape(s: string, quote: bool)
    ensures Unescape(Escape(s, quote)) == s
    decreases |s|
  {
    if s != [] {
      UnescapeCons(s[0], quote, Escape(s[1..], quote));
      UnescapeEscape(s[1..], quote);
    }
  }

  /** Escaping is injective. */
  lemma EscapeInjective(a: string, b: string, quote: bool)
    requires Escape(a, quote) == Escape(b, quote)
    ensures a == b
  {
    UnescapeEscape(a, quote);
    UnescapeEscape(b, quote);
  }
}
