/** Free-text handling of list names and descriptions: `sanitize` on the way into the
    record store, and the read-side rewrite of stored line breaks into `<br>` tags. */
module Text {

  /** `s.replace(/<br>/g, '\n')`: every `<br>`, leftmost first and without overlap,
      becomes a newline. */
  function ReplaceBr(s: string): (r: string)
    ensures |r| <= |s|
    decreases |s|
  {
    if |s| >= 4 && s[..4] == "<br>" then "\n" + ReplaceBr(s[4..])
    else if s == [] then []
    else [s[0]] + ReplaceBr(s[1..])
  }

  /** `s.replace(/c/g, by)` for a single-character pattern. */
  function ReplaceChar(s: string, c: char, rep: string): string
  {
    if s == [] then []
    else (if s[0] == c then rep else [s[0]]) + ReplaceChar(s[1..], c, rep)
  }

  /** The two escaping passes of `sanitize`, in the source's order. */
  function Escape(s: string): (r: string)
    ensures '<' !in r && '>' !in r
  {
    ReplaceCharRemoves(s, '<', "&lt;");
    ReplaceCharRemoves(ReplaceChar(s, '<', "&lt;"), '>', "&gt;");
    ReplaceCharKeepsAbsent(ReplaceChar(s, '<', "&lt;"), '>', '<', "&gt;");
    ReplaceChar(ReplaceChar(s, '<', "&lt;"), '>', "&gt;")
  }

  /** `sanitize(text)`: an empty (falsy) text gives the empty string; otherwise `<br>`
      becomes a newline and then `<` and `>` are escaped as entities. */
  function Sanitize(text: string): (r: string)
    ensures '<' !in r && '>' !in r
  {
    if text == "" then ""
    else Escape(ReplaceBr(text))
  }

  lemma {:induction false} ReplaceCharRemoves(s: string, c: char, rep: string)
    requires c !in rep
    ensures c !in ReplaceChar(s, c, rep)
  {
    if s != [] {
      ReplaceCharRemoves(s[1..], c, rep);
    }
  }

  lemma {:induction false} ReplaceCharKeepsAbsent(s: string, c: char, d: char, rep: string)
    requires d !in s && d !in rep
    ensures d !in ReplaceChar(s, c, rep)
  {
    if s != [] {
      ReplaceCharKeepsAbsent(s[1..], c, d, rep);
    }
  }

  /** The read path of a stored description: falsy gives `''`, otherwise every newline
      is shown as `<br>`. */
  function Display(stored: string): (shown: string)
    ensures '\n' !in shown
  {
    if stored == "" then ""
    else
      ReplaceCharRemoves(stored, '\n', "<br>");
      ReplaceChar(stored, '\n', "<br>")
  }

  lemma {:induction false} ReplaceCharAbsent(s: string, c: char, rep: string)
    requires c !in s
    ensures ReplaceChar(s, c, rep) == s
  {
    if s != [] {
      ReplaceCharAbsent(s[1..], c, rep);
    }
  }

  lemma {:induction false} ReplaceBrWithoutTag(s: string)
    requires '<' !in s
    ensures ReplaceBr(s) == s
  {
    if s != [] {
      assert s[0] != '<';
      ReplaceBrWithoutTag(s[1..]);
    }
  }

  lemma {:induction false} ReplaceCharAppend(a: string, b: string, c: char, rep: string)
    ensures ReplaceChar(a + b, c, rep) == ReplaceChar(a, c, rep) + ReplaceChar(b, c, rep)
  {
    if a == [] {
      assert a + b == b;
    } else {
      assert (a + b)[0] == a[0] && (a + b)[1..] == a[1..] + b;
      ReplaceCharAppend(a[1..], b, c, rep);
    }
  }

  lemma EscapeAppend(a: string, b: string)
    ensures Escape(a + b) == Escape(a) + Escape(b)
  {
    ReplaceCharAppend(a, b, '<', "&lt;");
    ReplaceCharAppend(ReplaceChar(a, '<', "&lt;"), ReplaceChar(b, '<', "&lt;"), '>', "&gt;");
  }

  /** The empty-text branch of `sanitize` agrees with the general one. */
  lemma SanitizeIsEscapedReplace(text: string)
    ensures Sanitize(text) == Escape(ReplaceBr(text))
  {
  }

  /** The sanitised text holds no angle bracket, and sanitising it again changes nothing:
      a name or description that went through `sanitize` once is stored as it is when
      it is submitted a second time. */
  lemma SanitizeIdempotent(text: string)
    ensures Sanitize(Sanitize(text)) == Sanitize(text)
  {
    var t := Sanitize(text);
    if t != "" {
      ReplaceBrWithoutTag(t);
      ReplaceCharAbsent(t, '<', "&lt;");
      ReplaceCharAbsent(t, '>', "&gt;");
    }
  }

  /** A `<br>` tag is matched wherever it stands: no tag straddles the boundary of the
      inserted one, because no proper suffix of `<br>` is also its prefix. */
  lemma {:induction false} ReplaceBrAroundTag(a: string, b: string)
    ensures ReplaceBr(a + "<br>" + b) == ReplaceBr(a) + "\n" + ReplaceBr(b)
    decreases |a|
  {
    var s := a + "<br>" + b;
    if a == [] {
      TagFirst(a, b);
    } else if |a| >= 4 && a[..4] == "<br>" {
      TagKept(a, b);
      ReplaceBrAroundTag(a[4..], b);
    } else {
      NoTagFirst(a, b);
      ReplaceBrAroundTag(a[1..], b);
    }
  }

  lemma TagFirst(a: string, b: string)
    requires a == []
    ensures ReplaceBr(a + "<br>" + b) == ReplaceBr(a) + "\n" + ReplaceBr(b)
  {
    var s := a + "<br>" + b;
    assert s[..4] == "<br>" && s[4..] == b;
  }

  lemma TagKept(a: string, b: string)
    requires |a| >= 4 && a[..4] == "<br>"
    ensures var s := a + "<br>" + b; |s| >= 4 && s[..4] == "<br>" && s[4..] == a[4..] + "<br>" + b
  {
    var s := a + "<br>" + b;
    assert s[..4] == a[..4];
  }

  lemma NoTagFirst(a: string, b: string)
    requires a != [] && !(|a| >= 4 && a[..4] == "<br>")
    ensures var s := a + "<br>" + b; !(|s| >= 4 && s[..4] == "<br>") && s[0] == a[0] && s[1..] == a[1..] + "<br>" + b
  {
    var s := a + "<br>" + b;
    assert s[0] == a[0];
    if |a| >= 4 {
      assert s[..4] == a[..4];
    } else if |a| == 1 {
      assert s[1] == '<';
    } else if |a| == 2 {
      assert s[2] == '<';
    } else {
      assert s[3] == '<';
    }
    assert s[1..] == a[1..] + "<br>" + b;
  }

  /** Every `<br>` in the input becomes a newline, and the text on either side is
      sanitised as if it stood alone. */
  lemma SanitizeAroundTag(a: string, b: string)
    ensures Sanitize(a + "<br>" + b) == Sanitize(a) + "\n" + Sanitize(b)
  {
    var u, v := ReplaceBr(a), ReplaceBr(b);
    ReplaceBrAroundTag(a, b);
    SanitizeIsEscapedReplace(a + "<br>" + b);
    SanitizeIsEscapedReplace(a);
    SanitizeIsEscapedReplace(b);
    EscapeAppend(u + "\n", v);
    EscapeAppend(u, "\n");
    assert Escape("\n") == "\n";
  }

  lemma {:induction false} ReplaceBrOfDisplay(s: string)
    requires '<' !in s
    ensures ReplaceBr(ReplaceChar(s, '\n', "<br>")) == s
  {
    if s != [] {
      ReplaceBrOfDisplay(s[1..]);
      var rest := ReplaceChar(s[1..], '\n', "<br>");
      if s[0] == '\n' {
        assert ReplaceChar(s, '\n', "<br>") == "<br>" + rest;
        ReplaceBrAroundTag([], rest);
        assert "" + "<br>" + rest == "<br>" + rest;
      } else {
        assert ReplaceChar(s, '\n', "<br>") == [s[0]] + rest;
        assert ([s[0]] + rest)[1..] == rest;
      }
    }
  }

  /** For a stored string without angle brackets (everything `sanitize` stores), showing
      it and sanitising what is shown gives the stored string back. */
  lemma SanitizeDisplayRoundTrip(stored: string)
    requires '<' !in stored && '>' !in stored
    ensures Sanitize(Display(stored)) == stored
  {
    if stored != "" {
      var shown := Display(stored);
      ReplaceBrOfDisplay(stored);
      ReplaceCharAbsent(stored, '<', "&lt;");
      ReplaceCharAbsent(stored, '>', "&gt;");
      assert shown != "" by {
        ReplaceCharAppend([stored[0]], stored[1..], '\n', "<br>");
        assert stored == [stored[0]] + stored[1..];
      }
    }
  }

  /** A description that is read and submitted again unchanged is stored unchanged. */
  lemma DescriptionRewriteStable(text: string)
    ensures Sanitize(Display(Sanitize(text))) == Sanitize(text)
  {
    SanitizeDisplayRoundTrip(Sanitize(text));
  }

  lemma {:induction false} ReplaceBrWithoutR(s: string)
    requires 'r' !in s
    ensures ReplaceBr(s) == s
  {
    if s != [] {
      assert |s| >= 4 ==> s[2] != 'r';
      ReplaceBrWithoutR(s[1..]);
    }
  }

  lemma EscapeWithoutBrackets(s: string)
    requires '<' !in s && '>' !in s
    ensures Escape(s) == s
  {
    ReplaceCharAbsent(s, '<', "&lt;");
    ReplaceCharAbsent(s, '>', "&gt;");
  }

  /** On the read path every stored newline is shown as `<br>`, and the text on either
      side is shown as if it stood alone. */
  lemma DisplayAroundNewline(a: string, b: string)
    ensures Display(a + "\n" + b) == Display(a) + "<br>" + Display(b)
  {
    ReplaceCharAppend(a + "\n", b, '\n', "<br>");
    ReplaceCharAppend(a, "\n", '\n', "<br>");
    assert ReplaceChar("\n", '\n', "<br>") == "<br>";
    assert a + "\n" + b != "";
  }
}

/** Worked examples of the text rules, computed on concrete strings. */
module TextExamples {
  import opened Text

  lemma EscapeSingle()
    ensures Escape("<") == "&lt;" && Escape(">") == "&gt;"
  {
    assert ReplaceChar("<", '<', "&lt;") == "&lt;";
    assert ReplaceChar(">", '<', "&lt;") == ">";
    assert ReplaceChar("&lt;", '>', "&gt;") == "&lt;" by {
      ReplaceCharAbsent("&lt;", '>', "&gt;");
    }
    assert ReplaceChar(">", '>', "&gt;") == "&gt;";
  }

  lemma EscapeBracketed(x: char, y: char)
    requires x != '<' && x != '>' && y != '<' && y != '>'
    ensures Escape([x] + "<" + [y] + ">") == [x] + "&lt;" + [y] + "&gt;"
  {
    EscapeSingle();
    EscapeWithoutBrackets([x]);
    EscapeWithoutBrackets([y]);
    EscapeAppend([x], "<");
    EscapeAppend([x] + "<", [y]);
    EscapeAppend([x] + "<" + [y], ">");
  }

  lemma EscapeOpen(x: char, y: char)
    requires x != '<' && x != '>' && y != '<' && y != '>'
    ensures Escape([x] + "<" + [y]) == [x] + "&lt;" + [y]
  {
    EscapeSingle();
    EscapeWithoutBrackets([x]);
    EscapeWithoutBrackets([y]);
    EscapeAppend([x], "<");
    EscapeAppend([x] + "<", [y]);
  }

  lemma SanitizeLetterAroundTag(x: char, rest: string)
    requires x != 'r' && x != '<' && x != '>'
    requires 'r' !in rest
    ensures Sanitize([x] + "<br>" + rest) == [x] + "\n" + Escape(rest)
  {
    SanitizeAroundTag([x], rest);
    ReplaceBrWithoutR([x]);
    EscapeWithoutBrackets([x]);
    ReplaceBrWithoutR(rest);
    SanitizeIsEscapedReplace(rest);
  }

  /** The worked example: `sanitize("a<br>b<c>")` is `"a\nb&lt;c&gt;"`. */
  lemma SanitizeExample()
    ensures Sanitize("a<br>b<c>") == "a\nb&lt;c&gt;"
  {
    var rest := ['b'] + "<" + ['c'] + ">";
    SanitizeLetterAroundTag('a', rest);
    EscapeBracketed('b', 'c');
    assert ['a'] + "<br>" + rest == "a<br>b<c>";
    assert ['a'] + "\n" + (['b'] + "&lt;" + ['c'] + "&gt;") == "a\nb&lt;c&gt;";
  }

  lemma ReadBackStored()
    ensures Sanitize("x<br>y<z") == "x\ny&lt;z"
  {
    var rest := ['y'] + "<" + ['z'];
    SanitizeLetterAroundTag('x', rest);
    EscapeOpen('y', 'z');
    assert ['x'] + "<br>" + rest == "x<br>y<z";
    assert ['x'] + "\n" + (['y'] + "&lt;" + ['z']) == "x\ny&lt;z";
  }

  lemma ReadBackShown()
    ensures Display("x\ny&lt;z") == "x<br>y&lt;z"
  {
    var escaped := ['y'] + "&lt;" + ['z'];
    assert ['x'] + "\n" + escaped == "x\ny&lt;z";
    DisplayAroundNewline(['x'], escaped);
    ReplaceCharAbsent(['x'], '\n', "<br>");
    ReplaceCharAbsent(escaped, '\n', "<br>");
    assert Display(['x']) == ['x'] && Display(escaped) == escaped;
    assert ['x'] + "<br>" + escaped == "x<br>y&lt;z";
  }

  /** Line breaks survive a write and a read, but escaped brackets are shown as the
      entities, not turned back into brackets. */
  lemma ReadBackExample()
    ensures Display(Sanitize("x<br>y<z")) == "x<br>y&lt;z"
  {
    ReadBackStored();
    ReadBackShown();
  }
}
