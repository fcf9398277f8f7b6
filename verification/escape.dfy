/** The fallback branch of `escapeHtml`: five global replacements applied in
    turn, ampersand first. */
module Escape {

  /** `text.replace(/c/g, rep)`: every occurrence of `c` becomes `rep`. */
  function ReplaceAll(text: string, c: char, rep: string): string {
    if |text| == 0 then []
    else (if text[0] == c then rep else [text[0]]) + ReplaceAll(text[1..], c, rep)
  }

  /** A global replacement removes `c` when the replacement text lacks it,
      and brings in only characters of the input or of the replacement. */
  lemma {:induction false} ReplaceAllChars(text: string, c: char, rep: string)
    ensures c !in rep ==> c !in ReplaceAll(text, c, rep)
    ensures forall d :: d in ReplaceAll(text, c, rep) ==> d in text || d in rep
  {
    if |text| > 0 {
      ReplaceAllChars(text[1..], c, rep);
      var head := if text[0] == c then rep else [text[0]];
      var tail := ReplaceAll(text[1..], c, rep);
      assert ReplaceAll(text, c, rep) == head + tail;
      assert forall d :: d in text[1..] ==> d in text;
      assert text[0] in text;
    }
  }

  /** The chain of replacements exactly as written: `&` first, then `<`,
      `>`, `"` and `'`. */
  function EscapeHtml(text: string): string {
    var amp := ReplaceAll(text, '&', "&amp;");
    var lt := ReplaceAll(amp, '<', "&lt;");
    var gt := ReplaceAll(lt, '>', "&gt;");
    var quot := ReplaceAll(gt, '"', "&quot;");
    ReplaceAll(quot, '\'', "&#039;")
  }

  /** The entity for one character, or the character itself. */
  function EscapeChar(c: char): string {
    match c
    case '&' => "&amp;"
    case '<' => "&lt;"
    case '>' => "&gt;"
    case '"' => "&quot;"
    case '\'' => "&#039;"
    case _ => [c]
  }

  /** The reference: every character escaped on its own, in one pass. */
  function EscapeEach(text: string): string {
    if |text| == 0 then [] else EscapeChar(text[0]) + EscapeEach(text[1..])
  }

  lemma {:induction false} ReplaceAllConcat(a: string, b: string, c: char, rep: string)
    ensures ReplaceAll(a + b, c, rep) == ReplaceAll(a, c, rep) + ReplaceAll(b, c, rep)
  {
    if |a| == 0 {
      assert a + b == b;
    } else {
      assert (a + b)[1..] == a[1..] + b;
      ReplaceAllConcat(a[1..], b, c, rep);
    }
  }

  lemma {:induction false} ReplaceAllAbsent(text: string, c: char, rep: string)
    requires c !in text
    ensures ReplaceAll(text, c, rep) == text
  {
    if |text| > 0 {
      assert text == [text[0]] + text[1..];
      ReplaceAllAbsent(text[1..], c, rep);
    }
  }

  lemma EscapeHtmlConcat(a: string, b: string)
    ensures EscapeHtml(a + b) == EscapeHtml(a) + EscapeHtml(b)
  {
    var amp := ReplaceAll(a, '&', "&amp;");
    var ampB := ReplaceAll(b, '&', "&amp;");
    ReplaceAllConcat(a, b, '&', "&amp;");
    var lt := ReplaceAll(amp, '<', "&lt;");
    var ltB := ReplaceAll(ampB, '<', "&lt;");
    ReplaceAllConcat(amp, ampB, '<', "&lt;");
    var gt := ReplaceAll(lt, '>', "&gt;");
    var gtB := ReplaceAll(ltB, '>', "&gt;");
    ReplaceAllConcat(lt, ltB, '>', "&gt;");
    var quot := ReplaceAll(gt, '"', "&quot;");
    var quotB := ReplaceAll(gtB, '"', "&quot;");
    ReplaceAllConcat(gt, gtB, '"', "&quot;");
    ReplaceAllConcat(quot, quotB, '\'', "&#039;");
  }

  lemma ReplaceAllSingle(c: char, d: char, rep: string)
    ensures ReplaceAll([c], d, rep) == if c == d then rep else [c]
  {
    assert [c][1..] == [];
  }

  /** No entity holds a character that a pass after the ampersand pass
      replaces, except the ampersand itself. */
  lemma EntitiesInert()
    ensures forall d :: d in "&amp;" || d in "&lt;" || d in "&gt;" || d in "&quot;" || d in "&#039;" ==>
      d != '<' && d != '>' && d != '"' && d != '\''
  {
    assert "&amp;" == ['&', 'a', 'm', 'p', ';'];
    assert "&lt;" == ['&', 'l', 't', ';'];
    assert "&gt;" == ['&', 'g', 't', ';'];
    assert "&quot;" == ['&', 'q', 'u', 'o', 't', ';'];
    assert "&#039;" == ['&', '#', '0', '3', '9', ';'];
  }

  /** Once a pass has produced entity `e`, the remaining passes leave it
      alone. */
  lemma PassesKeep(e: string)
    requires '<' !in e && '>' !in e && '"' !in e && '\'' !in e
    ensures ReplaceAll(e, '<', "&lt;") == e
    ensures ReplaceAll(e, '>', "&gt;") == e
    ensures ReplaceAll(e, '"', "&quot;") == e
    ensures ReplaceAll(e, '\'', "&#039;") == e
  {
    ReplaceAllAbsent(e, '<', "&lt;");
    ReplaceAllAbsent(e, '>', "&gt;");
    ReplaceAllAbsent(e, '"', "&quot;");
    ReplaceAllAbsent(e, '\'', "&#039;");
  }

  /** A single character goes through the chain to its own entity: the
      entities introduced along the way contain no character a later pass
      replaces. */
  lemma EscapeHtmlChar(c: char)
    ensures EscapeHtml([c]) == EscapeChar(c)
  {
    EntitiesInert();
    var amp := ReplaceAll([c], '&', "&amp;");
    ReplaceAllSingle(c, '&', "&amp;");
    if c == '&' {
      PassesKeep("&amp;");
    } else {
      var lt := ReplaceAll(amp, '<', "&lt;");
      ReplaceAllSingle(c, '<', "&lt;");
      if c == '<' {
        PassesKeep("&lt;");
      } else {
        var gt := ReplaceAll(lt, '>', "&gt;");
        ReplaceAllSingle(c, '>', "&gt;");
        if c == '>' {
          PassesKeep("&gt;");
        } else {
          var quot := ReplaceAll(gt, '"', "&quot;");
          ReplaceAllSingle(c, '"', "&quot;");
          if c == '"' {
            PassesKeep("&quot;");
          } else {
            ReplaceAllSingle(c, '\'', "&#039;");
          }
        }
      }
    }
  }

  lemma EscapeAmpersand()
    ensures EscapeHtml("&") == "&amp;"
  {
    EscapeHtmlChar('&');
  }

  lemma EscapeLess()
    ensures EscapeHtml("<") == "&lt;"
  {
    EscapeHtmlChar('<');
  }

  lemma EscapeGreater()
    ensures EscapeHtml(">") == "&gt;"
  {
    EscapeHtmlChar('>');
  }

  lemma EscapeQuote()
    ensures EscapeHtml("\"") == "&quot;"
  {
    EscapeHtmlChar('"');
  }

  lemma EscapeApostrophe()
    ensures EscapeHtml("'") == "&#039;"
  {
    EscapeHtmlChar('\'');
  }

  lemma EscapeOrdinary(c: char)
    requires c != '&' && c != '<' && c != '>' && c != '"' && c != '\''
    ensures EscapeHtml([c]) == [c]
  {
    EscapeHtmlChar(c);
  }

  /** The sequential chain equals escaping each character once: because `&`
      goes first, no entity is escaped a second time. */
  lemma {:induction false} EscapeHtmlIsCharwise(text: string)
    ensures EscapeHtml(text) == EscapeEach(text)
  {
    if |text| > 0 {
      assert text == [text[0]] + text[1..];
      EscapeHtmlConcat([text[0]], text[1..]);
      EscapeHtmlChar(text[0]);
      EscapeHtmlIsCharwise(text[1..]);
    }
  }

  /** The escaped text holds no markup-significant character. */
  lemma EscapeHtmlSafe(text: string)
    ensures '<' !in EscapeHtml(text) && '>' !in EscapeHtml(text)
    ensures '"' !in EscapeHtml(text) && '\'' !in EscapeHtml(text)
  {
    var amp := ReplaceAll(text, '&', "&amp;");
    var lt := ReplaceAll(amp, '<', "&lt;");
    var gt := ReplaceAll(lt, '>', "&gt;");
    var quot := ReplaceAll(gt, '"', "&quot;");
    var out := ReplaceAll(quot, '\'', "&#039;");
    EntitiesInert();
    ReplaceAllChars(amp, '<', "&lt;");
    ReplaceAllChars(lt, '>', "&gt;");
    ReplaceAllChars(gt, '"', "&quot;");
    ReplaceAllChars(quot, '\'', "&#039;");
  }

  predicate StartsWith(text: string, prefix: string) {
    |prefix| <= |text| && text[..|prefix|] == prefix
  }

  /** Decodes the five entities the escaper produces; every other character
      is kept. */
  function Unescape(text: string): string
    decreases |text|
  {
    if |text| == 0 then []
    else if StartsWith(text, "&amp;") then "&" + Unescape(text[5..])
    else if StartsWith(text, "&lt;") then "<" + Unescape(text[4..])
    else if StartsWith(text, "&gt;") then ">" + Unescape(text[4..])
    else if StartsWith(text, "&quot;") then "\"" + Unescape(text[6..])
    else if StartsWith(text, "&#039;") then "'" + Unescape(text[6..])
    else [text[0]] + Unescape(text[1..])
  }

  /** Two texts that differ at a position the prefix covers cannot both
      start with it. */
  lemma Mismatch(text: string, prefix: string, k: nat)
    requires k < |prefix| && k < |text| && text[k] != prefix[k]
    ensures !StartsWith(text, prefix)
  {
  }

  /** Escaping loses nothing: decoding the escaped text gives back the
      original. */
  lemma {:induction false} UnescapeEscape(text: string)
    ensures Unescape(EscapeHtml(text)) == text
  {
    EscapeHtmlIsCharwise(text);
    EachRoundTrip(text);
  }

  lemma {:induction false} EachRoundTrip(text: string)
    ensures Unescape(EscapeEach(text)) == text
  {
    if |text| > 0 {
      var c, rest := text[0], text[1..];
      assert EscapeEach(text) == EscapeChar(c) + EscapeEach(rest);
      UnescapeChar(c, EscapeEach(rest));
      EachRoundTrip(rest);
      assert text == [c] + rest;
    }
  }

  /** Decoding an escaped character in front of any text yields the
      character and decodes the rest. */
  lemma UnescapeChar(c: char, rest: string)
    ensures Unescape(EscapeChar(c) + rest) == [c] + Unescape(rest)
  {
    var e := EscapeChar(c) + rest;
    var n := |EscapeChar(c)|;
    assert e[..n] == EscapeChar(c) && e[n..] == rest;
    if c == '&' {
    } else if c == '<' {
      Mismatch(e, "&amp;", 1);
    } else if c == '>' {
      Mismatch(e, "&amp;", 1);
      Mismatch(e, "&lt;", 1);
    } else if c == '"' {
      Mismatch(e, "&amp;", 1);
      Mismatch(e, "&lt;", 1);
      Mismatch(e, "&gt;", 1);
    } else if c == '\'' {
      Mismatch(e, "&amp;", 1);
      Mismatch(e, "&lt;", 1);
      Mismatch(e, "&gt;", 1);
      Mismatch(e, "&quot;", 1);
    } else {
      assert e[0] == c && e[1..] == rest;
      Mismatch(e, "&amp;", 0);
      Mismatch(e, "&lt;", 0);
      Mismatch(e, "&gt;", 0);
      Mismatch(e, "&quot;", 0);
      Mismatch(e, "&#039;", 0);
    }
  }
}
