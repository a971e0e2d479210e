/**
  `jsEscape` of the Dojo text plugin: it turns the text of a resource into the
  body of a single-quoted JavaScript string literal, by a chain of six global
  replacements (quote and backslash first, then form feed, backspace, newline,
  tab and carriage return).

  Its partner is `Unescape`, a decoder of single-quoted string literal bodies
  following the grammar of section 11.8.4 of ECMA-262 (6th edition): an escape
  sequence stands for one character, and an unescaped quote or line terminator
  cannot occur in the body.
 */
module TextPlugin {
  import opened Collections

  const Backspace: char := 8 as char
  const Tab: char := 9 as char
  const LineFeed: char := 10 as char
  const VerticalTab: char := 11 as char
  const FormFeed: char := 12 as char
  const CarriageReturn: char := 13 as char
  const LineSeparator: char := 0x2028 as char
  const ParagraphSeparator: char := 0x2029 as char

  /** `s.replace(/[c]/g, r)`: every occurrence of `c` becomes `r`. */
  function Replace(s: string, c: char, r: string): string
    decreases |s|
  {
    if |s| == 0 then ""
    else (if s[0] == c then r else [s[0]]) + Replace(s[1..], c, r)
  }

  /** `s.replace(/(['\\])/g, '\\$1')`: every quote and backslash gets a backslash in front. */
  function EscapeQuotes(s: string): string
    decreases |s|
  {
    if |s| == 0 then ""
    else (if s[0] == '\'' || s[0] == '\\' then ['\\', s[0]] else [s[0]]) + EscapeQuotes(s[1..])
  }

  /** `jsEscape(content)`, the chain as written. */
  function JsEscape(content: string): string {
    var quoted := EscapeQuotes(content);
    var f := Replace(quoted, FormFeed, "\\f");
    var b := Replace(f, Backspace, "\\b");
    var n := Replace(b, LineFeed, "\\n");
    var t := Replace(n, Tab, "\\t");
    Replace(t, CarriageReturn, "\\r")
  }

  /** The characters `jsEscape` rewrites. */
  predicate Special(c: char) {
    c == '\'' || c == '\\' || c == FormFeed || c == Backspace || c == LineFeed || c == Tab || c == CarriageReturn
  }

  /** What `jsEscape` makes of one character on its own. */
  function EscapeChar(c: char): (r: string)
    ensures Special(c) ==> |r| == 2 && r[0] == '\\'
    ensures !Special(c) ==> r == [c]
  {
    if c == '\'' || c == '\\' then ['\\', c]
    else if c == FormFeed then "\\f"
    else if c == Backspace then "\\b"
    else if c == LineFeed then "\\n"
    else if c == Tab then "\\t"
    else if c == CarriageReturn then "\\r"
    else [c]
  }

  /** The reference definition: each character escaped on its own, in order. */
  function EscapeEach(s: string): string
    decreases |s|
  {
    if |s| == 0 then "" else EscapeChar(s[0]) + EscapeEach(s[1..])
  }

  /** The number of characters of `s` that `jsEscape` rewrites. */
  function CountSpecial(s: string): nat
    decreases |s|
  {
    if |s| == 0 then 0 else (if Special(s[0]) then 1 else 0) + CountSpecial(s[1..])
  }

  lemma {:induction false} ReplaceAppend(a: string, b: string, c: char, r: string)
    ensures Replace(a + b, c, r) == Replace(a, c, r) + Replace(b, c, r)
    decreases |a|
  {
    if |a| > 0 {
      assert (a + b)[1..] == a[1..] + b;
      ReplaceAppend(a[1..], b, c, r);
    } else {
      assert a + b == b;
    }
  }

  lemma {:induction false} EscapeQuotesAppend(a: string, b: string)
    ensures EscapeQuotes(a + b) == EscapeQuotes(a) + EscapeQuotes(b)
    decreases |a|
  {
    if |a| > 0 {
      assert (a + b)[1..] == a[1..] + b;
      EscapeQuotesAppend(a[1..], b);
    } else {
      assert a + b == b;
    }
  }

  /** The chain distributes over concatenation, since every pass works character by character. */
  lemma JsEscapeAppend(a: string, b: string)
    ensures JsEscape(a + b) == JsEscape(a) + JsEscape(b)
  {
    EscapeQuotesAppend(a, b);
    var qa, qb := EscapeQuotes(a), EscapeQuotes(b);
    ReplaceAppend(qa, qb, FormFeed, "\\f");
    var fa, fb := Replace(qa, FormFeed, "\\f"), Replace(qb, FormFeed, "\\f");
    ReplaceAppend(fa, fb, Backspace, "\\b");
    var ba, bb := Replace(fa, Backspace, "\\b"), Replace(fb, Backspace, "\\b");
    ReplaceAppend(ba, bb, LineFeed, "\\n");
    var na, nb := Replace(ba, LineFeed, "\\n"), Replace(bb, LineFeed, "\\n");
    ReplaceAppend(na, nb, Tab, "\\t");
    var ta, tb := Replace(na, Tab, "\\t"), Replace(nb, Tab, "\\t");
    ReplaceAppend(ta, tb, CarriageReturn, "\\r");
  }

  lemma {:induction false} ReplaceAbsent(s: string, c: char, r: string)
    requires c !in s
    ensures Replace(s, c, r) == s
    decreases |s|
  {
    if |s| > 0 {
      ReplaceAbsent(s[1..], c, r);
      assert s == [s[0]] + s[1..];
    }
  }

  lemma ReplaceOne(x: char, r: string)
    ensures Replace([x], x, r) == r
  {
    assert [x][1..] == [];
  }

  lemma EscapeQuotesOne(c: char)
    ensures EscapeQuotes([c]) == if c == '\'' || c == '\\' then ['\\', c] else [c]
  {
    assert [c][1..] == [];
  }

  /** The passes after the quote pass leave a text without control characters alone. */
  lemma ControlPasses(s: string)
    requires forall i :: 0 <= i < |s| ==> !RawControl(s[i])
    ensures Replace(Replace(Replace(Replace(Replace(s, FormFeed, "\\f"), Backspace, "\\b"), LineFeed, "\\n"), Tab, "\\t"), CarriageReturn, "\\r") == s
  {
    ReplaceAbsent(s, FormFeed, "\\f");
    ReplaceAbsent(s, Backspace, "\\b");
    ReplaceAbsent(s, LineFeed, "\\n");
    ReplaceAbsent(s, Tab, "\\t");
    ReplaceAbsent(s, CarriageReturn, "\\r");
  }

  /** On one character the chain gives that character's escape: no later pass touches what an earlier one wrote. */
  lemma JsEscapeChar(c: char)
    ensures JsEscape([c]) == EscapeChar(c)
  {
    EscapeQuotesOne(c);
    if !RawControl(c) {
      ControlPasses(EscapeQuotes([c]));
    } else if c == FormFeed {
      ReplaceOne(c, "\\f");
      ControlPasses("\\f");
    } else if c == Backspace {
      ReplaceAbsent([c], FormFeed, "\\f");
      ReplaceOne(c, "\\b");
      ControlPasses("\\b");
    } else if c == LineFeed {
      ReplaceAbsent([c], FormFeed, "\\f");
      ReplaceAbsent([c], Backspace, "\\b");
      ReplaceOne(c, "\\n");
      ControlPasses("\\n");
    } else if c == Tab {
      ReplaceAbsent([c], FormFeed, "\\f");
      ReplaceAbsent([c], Backspace, "\\b");
      ReplaceAbsent([c], LineFeed, "\\n");
      ReplaceOne(c, "\\t");
      ControlPasses("\\t");
    } else {
      ReplaceAbsent([c], FormFeed, "\\f");
      ReplaceAbsent([c], Backspace, "\\b");
      ReplaceAbsent([c], LineFeed, "\\n");
      ReplaceAbsent([c], Tab, "\\t");
      ReplaceOne(c, "\\r");
      ControlPasses("\\r");
    }
  }

  /** The six passes together escape every character independently. */
  lemma {:induction false} JsEscapeIsPerChar(s: string)
    ensures JsEscape(s) == EscapeEach(s)
    decreases |s|
  {
    if |s| > 0 {
      assert s == [s[0]] + s[1..];
      JsEscapeAppend([s[0]], s[1..]);
      JsEscapeChar(s[0]);
      JsEscapeIsPerChar(s[1..]);
    }
  }

  lemma {:induction false} EscapeEachLength(s: string)
    ensures |EscapeEach(s)| == |s| + CountSpecial(s)
    decreases |s|
  {
    if |s| > 0 {
      EscapeEachLength(s[1..]);
    }
  }

  /** The output is one character longer per rewritten character. */
  lemma JsEscapeLength(s: string)
    ensures |JsEscape(s)| == |s| + CountSpecial(s)
  {
    JsEscapeIsPerChar(s);
    EscapeEachLength(s);
  }

  lemma {:induction false} EscapeEachPlain(s: string)
    requires forall i :: 0 <= i < |s| ==> !Special(s[i])
    ensures EscapeEach(s) == s
    decreases |s|
  {
    if |s| > 0 {
      EscapeEachPlain(s[1..]);
      assert s == [s[0]] + s[1..];
    }
  }

  /** Text with none of the seven rewritten characters comes back unchanged, and only such text does. */
  lemma JsEscapePlain(s: string)
    ensures JsEscape(s) == s <==> forall i :: 0 <= i < |s| ==> !Special(s[i])
  {
    JsEscapeIsPerChar(s);
    if forall i :: 0 <= i < |s| ==> !Special(s[i]) {
      EscapeEachPlain(s);
    } else {
      var i :| 0 <= i < |s| && Special(s[i]);
      JsEscapeLength(s);
      CountSpecialPositive(s, i);
    }
  }

  lemma {:induction false} CountSpecialPositive(s: string, i: nat)
    requires i < |s| && Special(s[i])
    ensures CountSpecial(s) > 0
    decreases |s|
  {
    if i > 0 {
      CountSpecialPositive(s[1..], i - 1);
    }
  }

  /** The control characters a literal body must not hold raw. */
  predicate RawControl(c: char) {
    c == FormFeed || c == Backspace || c == LineFeed || c == Tab || c == CarriageReturn
  }

  lemma {:induction false} EscapeEachNoControl(s: string)
    ensures forall i :: 0 <= i < |EscapeEach(s)| ==> !RawControl(EscapeEach(s)[i])
    decreases |s|
  {
    if |s| > 0 {
      EscapeEachNoControl(s[1..]);
      var e, rest := EscapeChar(s[0]), EscapeEach(s[1..]);
      forall i | 0 <= i < |e + rest| ensures !RawControl((e + rest)[i]) {
        if i >= |e| {
          assert (e + rest)[i] == rest[i - |e|];
        }
      }
    }
  }

  /** No newline, carriage return, tab, form feed or backspace survives raw. */
  lemma JsEscapeNoRawControl(s: string)
    ensures forall i :: 0 <= i < |JsEscape(s)| ==> !RawControl(JsEscape(s)[i])
  {
    JsEscapeIsPerChar(s);
    EscapeEachNoControl(s);
  }

  // ---------------------------------------------------------------------
  // Decoding a single-quoted string literal body (ECMA-262, 6th edition,
  // section 11.8.4).

  /** The four characters ECMA-262 (6th edition) counts as line terminators. */
  predicate LineTerminator(c: char) {
    c == LineFeed || c == CarriageReturn || c == LineSeparator || c == ParagraphSeparator
  }

  /** The character a single-character escape `\c` stands for. */
  function SingleEscape(c: char): Option<char> {
    if c == '\'' || c == '"' || c == '\\' then Some(c)
    else if c == 'b' then Some(Backspace)
    else if c == 'f' then Some(FormFeed)
    else if c == 'n' then Some(LineFeed)
    else if c == 'r' then Some(CarriageReturn)
    else if c == 't' then Some(Tab)
    else if c == 'v' then Some(VerticalTab)
    else None
  }

  function HexValue(c: char): Option<nat> {
    if '0' <= c <= '9' then Some(c as nat - '0' as nat)
    else if 'a' <= c <= 'f' then Some(c as nat - 'a' as nat + 10)
    else if 'A' <= c <= 'F' then Some(c as nat - 'A' as nat + 10)
    else None
  }

  /** The code unit four hex digits name, when it is a character on its own (not half of a surrogate pair). */
  function UnicodeEscape(h: string): Option<char>
    requires |h| == 4
  {
    if HexValue(h[0]).None? || HexValue(h[1]).None? || HexValue(h[2]).None? || HexValue(h[3]).None? then None
    else
      var v := ((HexValue(h[0]).value * 16 + HexValue(h[1]).value) * 16 + HexValue(h[2]).value) * 16 + HexValue(h[3]).value;
      if 0xD800 <= v < 0xE000 then None else Some(v as char)
  }

  function Prepend(c: char, r: Option<string>): Option<string> {
    if r.Some? then Some([c] + r.value) else None
  }

  /**
    The text a literal body stands for, or None when the body uses a form not
    accepted here.  Single-character escapes, `\0` not followed by a digit,
    `\uXXXX` and escapes of any other character that starts no escape form are
    decoded; the legacy octal, `\x` and `\u{...}` forms and line continuations
    are rejected, as the escapers below never write them.
   */
  function Unescape(t: string): Option<string>
    decreases |t|
  {
    if |t| == 0 then Some("")
    else if t[0] == '\\' then
      if |t| == 1 then None
      else if SingleEscape(t[1]).Some? then Prepend(SingleEscape(t[1]).value, Unescape(t[2..]))
      else if t[1] == 'u' then
        if |t| >= 6 && UnicodeEscape(t[2..6]).Some? then Prepend(UnicodeEscape(t[2..6]).value, Unescape(t[6..]))
        else None
      else if t[1] == '0' && (|t| == 2 || !('0' <= t[2] <= '9')) then Prepend(0 as char, Unescape(t[2..]))
      else if '0' <= t[1] <= '9' || t[1] == 'x' || LineTerminator(t[1]) then None
      else Prepend(t[1], Unescape(t[2..]))
    else if t[0] == '\'' || LineTerminator(t[0]) then None
    else Prepend(t[0], Unescape(t[1..]))
  }

  /** Decoding an escaped character followed by anything decodes the character, then the rest. */
  lemma UnescapeEscapeChar(c: char, rest: string)
    requires !LineTerminator(c) || Special(c)
    ensures Unescape(EscapeChar(c) + rest) == Prepend(c, Unescape(rest))
  {
    var t := EscapeChar(c) + rest;
    if Special(c) {
      assert t[0] == '\\' && t[2..] == rest;
    } else {
      assert t[0] == c && t[1..] == rest;
    }
  }

  lemma {:induction false} UnescapeEscapeEach(s: string)
    requires forall i :: 0 <= i < |s| ==> s[i] != LineSeparator && s[i] != ParagraphSeparator
    ensures Unescape(EscapeEach(s)) == Some(s)
    decreases |s|
  {
    if |s| > 0 {
      UnescapeEscapeEach(s[1..]);
      assert EscapeEach(s) == EscapeChar(s[0]) + EscapeEach(s[1..]);
      UnescapeEscapeChar(s[0], EscapeEach(s[1..]));
      assert [s[0]] + s[1..] == s;
    }
  }

  /**
    Reading the output back as a literal body gives the input, for every text
    without a line or paragraph separator.
   */
  lemma JsEscapeRoundTrip(s: string)
    requires forall i :: 0 <= i < |s| ==> s[i] != LineSeparator && s[i] != ParagraphSeparator
    ensures Unescape(JsEscape(s)) == Some(s)
  {
    JsEscapeIsPerChar(s);
    UnescapeEscapeEach(s);
  }

  /**
    A line separator passes through unescaped, and a literal holding it raw is
    not well formed under ECMA-262 (6th edition): the text plugin's output for
    such a resource is not a string literal.
   */
  lemma LineSeparatorBreaksLiteral()
    ensures JsEscape([LineSeparator]) == [LineSeparator]
    ensures Unescape(JsEscape([LineSeparator])) == None
  {
    JsEscapeChar(LineSeparator);
  }

  // ---------------------------------------------------------------------
  // The escaper with the two separators written as `\u` escapes.

  function SafeEscapeChar(c: char): (r: string)
    ensures c != LineSeparator && c != ParagraphSeparator ==> r == EscapeChar(c)
  {
    if c == LineSeparator then "\\u2028"
    else if c == ParagraphSeparator then "\\u2029"
    else EscapeChar(c)
  }

  /** `jsEscape` extended to escape U+2028 and U+2029 as well. */
  function SafeJsEscape(s: string): string
    decreases |s|
  {
    if |s| == 0 then "" else SafeEscapeChar(s[0]) + SafeJsEscape(s[1..])
  }

  lemma {:induction false} SafeEscapeEach(s: string)
    requires forall i :: 0 <= i < |s| ==> s[i] != LineSeparator && s[i] != ParagraphSeparator
    ensures SafeJsEscape(s) == EscapeEach(s)
    decreases |s|
  {
    if |s| > 0 {
      SafeEscapeEach(s[1..]);
    }
  }

  /** Wherever `jsEscape`'s output is a literal body, the extended escaper writes the same text. */
  lemma SafeJsEscapeAgrees(s: string)
    requires forall i :: 0 <= i < |s| ==> s[i] != LineSeparator && s[i] != ParagraphSeparator
    ensures SafeJsEscape(s) == JsEscape(s)
  {
    JsEscapeIsPerChar(s);
    SafeEscapeEach(s);
  }

  /** The four hex digits of the two separators' escapes decode to them. */
  lemma SeparatorEscapes()
    ensures UnicodeEscape("2028") == Some(LineSeparator)
    ensures UnicodeEscape("2029") == Some(ParagraphSeparator)
  {
    assert HexValue('2') == Some(2) && HexValue('0') == Some(0) && HexValue('8') == Some(8) && HexValue('9') == Some(9);
  }

  lemma UnescapeSafeEscapeChar(c: char, rest: string)
    ensures Unescape(SafeEscapeChar(c) + rest) == Prepend(c, Unescape(rest))
  {
    var t := SafeEscapeChar(c) + rest;
    if c == LineSeparator || c == ParagraphSeparator {
      SeparatorEscapes();
      assert t[0] == '\\' && t[1] == 'u' && t[6..] == rest;
      assert t[2..6] == (if c == LineSeparator then "2028" else "2029");
    } else {
      UnescapeEscapeChar(c, rest);
    }
  }

  /** The extended escaper's output decodes back to its input, for every text. */
  lemma {:induction false} SafeJsEscapeRoundTrip(s: string)
    ensures Unescape(SafeJsEscape(s)) == Some(s)
    decreases |s|
  {
    if |s| > 0 {
      SafeJsEscapeRoundTrip(s[1..]);
      UnescapeSafeEscapeChar(s[0], SafeJsEscape(s[1..]));
      assert s == [s[0]] + s[1..];
    }
  }
}
