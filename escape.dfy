/** How `renderMessage` turns a user's text into the HTML of their message bubble
    (public/static/script.js): `&`, `<` and `>` become entities and each line break becomes a
    `<br>` element. */
module UserHtml {
  /** `s.replace(/c/g, sub)`: every `c` replaced by `sub`, left to right. */
  function Replace(s: string, c: char, sub: string): string
    decreases |s|
  {
    if |s| == 0 then "" else (if s[0] == c then sub else [s[0]]) + Replace(s[1..], c, sub)
  }

  /** `s.replace(/\r?\n/g, '<br>')`: a `\n`, together with a `\r` right before it, becomes `<br>`.
      The regular expression is matched from the left, so `\r\n` is one match. */
  function BreakLines(s: string): string
    decreases |s|
  {
    if |s| == 0 then ""
    else if |s| >= 2 && s[0] == '\r' && s[1] == '\n' then "<br>" + BreakLines(s[2..])
    else if s[0] == '\n' then "<br>" + BreakLines(s[1..])
    else [s[0]] + BreakLines(s[1..])
  }

  /** The replace chain of `renderMessage` for a user message, in its order. */
  function Rendered(text: string): string {
    BreakLines(Replace(Replace(Replace(text, '&', "&amp;"), '<', "&lt;"), '>', "&gt;"))
  }

  /** What one character of the text becomes in the bubble's HTML, ignoring line breaks. */
  function EntityOf(c: char): string {
    if c == '&' then "&amp;" else if c == '<' then "&lt;" else if c == '>' then "&gt;" else [c]
  }

  /** The bubble's HTML written as a single left-to-right pass over the text. */
  function Escape(text: string): string
    decreases |text|
  {
    if |text| == 0 then ""
    else if |text| >= 2 && text[0] == '\r' && text[1] == '\n' then "<br>" + Escape(text[2..])
    else if text[0] == '\n' then "<br>" + Escape(text[1..])
    else EntityOf(text[0]) + Escape(text[1..])
  }

  /** The text the browser shows for that HTML: entities decoded and `<br>` read as a line break. */
  function Unescape(html: string): string
    decreases |html|
  {
    if |html| == 0 then ""
    else if |html| >= 5 && html[..5] == "&amp;" then "&" + Unescape(html[5..])
    else if |html| >= 4 && html[..4] == "&lt;" then "<" + Unescape(html[4..])
    else if |html| >= 4 && html[..4] == "&gt;" then ">" + Unescape(html[4..])
    else if |html| >= 4 && html[..4] == "<br>" then "\n" + Unescape(html[4..])
    else [html[0]] + Unescape(html[1..])
  }

  /** The text with every `\r\n` pair written as a single `\n`. */
  function JoinCrLf(text: string): string
    decreases |text|
  {
    if |text| == 0 then ""
    else if |text| >= 2 && text[0] == '\r' && text[1] == '\n' then "\n" + JoinCrLf(text[2..])
    else [text[0]] + JoinCrLf(text[1..])
  }

  function Count(s: string, c: char): nat
    decreases |s|
  {
    if |s| == 0 then 0 else (if s[0] == c then 1 else 0) + Count(s[1..], c)
  }

  /** Every `<` in `html` opens a `<br>`, and every `>` closes one. */
  predicate OnlyBreakTags(html: string) {
    (forall i :: 0 <= i < |html| && html[i] == '<' ==> i + 4 <= |html| && html[i..i + 4] == "<br>")
    && (forall i :: 0 <= i < |html| && html[i] == '>' ==> 3 <= i && html[i - 3..i + 1] == "<br>")
  }

  /** The entity pass then the line-break pass, each character by itself. */
  function Entities(text: string): string
    decreases |text|
  {
    if |text| == 0 then "" else EntityOf(text[0]) + Entities(text[1..])
  }

  lemma {:induction false} ReplaceAppend(a: string, b: string, c: char, sub: string)
    ensures Replace(a + b, c, sub) == Replace(a, c, sub) + Replace(b, c, sub)
    decreases |a|
  {
    if |a| == 0 {
      assert a + b == b;
    } else {
      assert (a + b)[1..] == a[1..] + b;
      ReplaceAppend(a[1..], b, c, sub);
    }
  }

  lemma {:induction false} ReplaceAbsent(s: string, c: char, sub: string)
    requires c !in s
    ensures Replace(s, c, sub) == s
    decreases |s|
  {
    if |s| > 0 {
      ReplaceAbsent(s[1..], c, sub);
    }
  }

  lemma ReplaceSingle(c: char, target: char, sub: string)
    ensures Replace([c], target, sub) == if c == target then sub else [c]
  {
    assert [c][1..] == "";
  }

  lemma ReplaceChainOne(c: char)
    ensures Replace(Replace(Replace([c], '&', "&amp;"), '<', "&lt;"), '>', "&gt;") == EntityOf(c)
  {
    var r1 := Replace([c], '&', "&amp;");
    ReplaceSingle(c, '&', "&amp;");
    if c == '&' {
      ReplaceAbsent(r1, '<', "&lt;");
      ReplaceAbsent(r1, '>', "&gt;");
    } else {
      ReplaceSingle(c, '<', "&lt;");
      var r2 := Replace(r1, '<', "&lt;");
      if c == '<' {
        ReplaceAbsent(r2, '>', "&gt;");
      } else {
        ReplaceSingle(c, '>', "&gt;");
      }
    }
  }

  /** The three `.replace` calls for entities are one character-wise pass. */
  lemma {:induction false} ReplaceChainIsEntities(text: string)
    ensures Replace(Replace(Replace(text, '&', "&amp;"), '<', "&lt;"), '>', "&gt;") == Entities(text)
    decreases |text|
  {
    if |text| > 0 {
      var c, rest := text[0], text[1..];
      assert text == [c] + rest;
      ReplaceAppend([c], rest, '&', "&amp;");
      var r1a, r1b := Replace([c], '&', "&amp;"), Replace(rest, '&', "&amp;");
      ReplaceAppend(r1a, r1b, '<', "&lt;");
      var r2a, r2b := Replace(r1a, '<', "&lt;"), Replace(r1b, '<', "&lt;");
      ReplaceAppend(r2a, r2b, '>', "&gt;");
      ReplaceChainOne(c);
      ReplaceChainIsEntities(rest);
    }
  }

  /** A piece holding no line-break character passes through `BreakLines` unchanged. */
  lemma {:induction false} BreakLinesPlain(p: string, rest: string)
    requires forall k :: 0 <= k < |p| ==> p[k] != '\r' && p[k] != '\n'
    ensures BreakLines(p + rest) == p + BreakLines(rest)
    decreases |p|
  {
    if |p| == 0 {
      assert p + rest == rest;
    } else {
      assert (p + rest)[1..] == p[1..] + rest;
      BreakLinesPlain(p[1..], rest);
    }
  }

  lemma EntitiesFront(text: string)
    requires |text| > 0
    ensures |Entities(text)| > 0
    ensures Entities(text)[0] == '\n' <==> text[0] == '\n'
    ensures Entities(text)[0] == '\r' <==> text[0] == '\r'
  {
  }

  /** The replace chain of `renderMessage` is the single-pass escape. */
  lemma {:induction false} RenderedIsEscape(text: string)
    ensures Rendered(text) == Escape(text)
    decreases |text|
  {
    ReplaceChainIsEntities(text);
    EntitiesBreakLines(text);
  }

  lemma {:induction false} EntitiesBreakLines(text: string)
    ensures BreakLines(Entities(text)) == Escape(text)
    decreases |text|
  {
    if |text| > 0 {
      var c, rest := text[0], text[1..];
      EntitiesBreakLines(rest);
      if |text| >= 2 && c == '\r' && text[1] == '\n' {
        var e := Entities(text[2..]);
        assert Entities(rest) == "\n" + e;
        assert Entities(text) == "\r\n" + e;
        EntitiesBreakLines(text[2..]);
        assert ("\r\n" + e)[2..] == e;
      } else if c == '\n' {
        assert Entities(text) == "\n" + Entities(rest);
        assert ("\n" + Entities(rest))[1..] == Entities(rest);
      } else if c == '\r' {
        var e := Entities(rest);
        assert Entities(text) == "\r" + e;
        if |rest| > 0 {
          EntitiesFront(rest);
        }
        assert ("\r" + e)[1..] == e;
      } else {
        BreakLinesPlain(EntityOf(c), Entities(rest));
      }
    }
  }

  lemma {:induction false} CountAppend(a: string, b: string, c: char)
    ensures Count(a + b, c) == Count(a, c) + Count(b, c)
    decreases |a|
  {
    if |a| == 0 {
      assert a + b == b;
    } else {
      assert (a + b)[1..] == a[1..] + b;
      CountAppend(a[1..], b, c);
    }
  }

  lemma {:induction false} CountAbsent(s: string, c: char)
    requires c !in s
    ensures Count(s, c) == 0
    decreases |s|
  {
    if |s| > 0 {
      CountAbsent(s[1..], c);
    }
  }

  lemma CountBreakTag()
    ensures Count("<br>", '<') == 1
  {
    var t := "<br>";
    assert t[1..] == "br>" && t[1..][1..] == "r>" && t[1..][1..][1..] == ">";
    CountAbsent("br>", '<');
  }

  /** Each line break of the text, `\n` or `\r\n`, gives exactly one `<br>` in the HTML (and the
      HTML has no other `<`). */
  lemma {:induction false} EscapeCountsBreaks(text: string)
    ensures Count(Escape(text), '<') == Count(text, '\n')
    decreases |text|
  {
    if |text| > 0 {
      var rest := text[1..];
      assert Count(text, '\n') == (if text[0] == '\n' then 1 else 0) + Count(rest, '\n');
      if |text| >= 2 && text[0] == '\r' && text[1] == '\n' {
        EscapeCountsBreaks(text[2..]);
        CountAppend("<br>", Escape(text[2..]), '<');
        CountBreakTag();
        assert rest[1..] == text[2..];
        assert Count(rest, '\n') == 1 + Count(text[2..], '\n');
        assert Escape(text) == "<br>" + Escape(text[2..]);
      } else if text[0] == '\n' {
        EscapeCountsBreaks(rest);
        CountAppend("<br>", Escape(rest), '<');
        CountBreakTag();
        assert Escape(text) == "<br>" + Escape(rest);
      } else {
        EscapeCountsBreaks(rest);
        CountAppend(EntityOf(text[0]), Escape(rest), '<');
        CountAbsent(EntityOf(text[0]), '<');
        assert Escape(text) == EntityOf(text[0]) + Escape(rest);
      }
    }
  }

  lemma OnlyBreakTagsAppend(a: string, b: string)
    requires OnlyBreakTags(a) && OnlyBreakTags(b)
    ensures OnlyBreakTags(a + b)
  {
    var s := a + b;
    forall i | 0 <= i < |s| && s[i] == '<'
      ensures i + 4 <= |s| && s[i..i + 4] == "<br>"
    {
      if i < |a| {
        assert a[i] == '<';
        assert s[i..i + 4] == a[i..i + 4];
      } else {
        assert b[i - |a|] == '<';
        assert s[i..i + 4] == b[i - |a|..i - |a| + 4];
      }
    }
    forall i | 0 <= i < |s| && s[i] == '>'
      ensures 3 <= i && s[i - 3..i + 1] == "<br>"
    {
      if i < |a| {
        assert a[i] == '>';
        assert s[i - 3..i + 1] == a[i - 3..i + 1];
      } else {
        assert b[i - |a|] == '>';
        assert s[i - 3..i + 1] == b[i - |a| - 3..i - |a| + 1];
      }
    }
  }

  lemma BreakTagPiece()
    ensures OnlyBreakTags("<br>")
  {
    var s := "<br>";
    assert s[0..4] == "<br>";
    assert s[0..4] == s[3 - 3..3 + 1];
  }

  lemma EntityPiece(c: char)
    ensures OnlyBreakTags(EntityOf(c))
  {
  }

  /** Since `&` is escaped first, the only markup in a user bubble is `<br>`: every `<` or `>` of
      the HTML belongs to one. */
  lemma {:induction false} EscapeOnlyBreakTags(text: string)
    ensures OnlyBreakTags(Escape(text))
    decreases |text|
  {
    if |text| > 0 {
      if |text| >= 2 && text[0] == '\r' && text[1] == '\n' {
        EscapeOnlyBreakTags(text[2..]);
        BreakTagPiece();
        OnlyBreakTagsAppend("<br>", Escape(text[2..]));
      } else if text[0] == '\n' {
        EscapeOnlyBreakTags(text[1..]);
        BreakTagPiece();
        OnlyBreakTagsAppend("<br>", Escape(text[1..]));
      } else {
        EscapeOnlyBreakTags(text[1..]);
        EntityPiece(text[0]);
        OnlyBreakTagsAppend(EntityOf(text[0]), Escape(text[1..]));
      }
    }
  }

  lemma UnescapeAmp(rest: string)
    ensures Unescape("&amp;" + rest) == "&" + Unescape(rest)
  {
    var e := "&amp;" + rest;
    assert e[..5] == "&amp;" && e[5..] == rest;
  }

  /** `&lt;` and `&gt;` read back as `<` and `>`. */
  lemma UnescapeAngle(c: char, rest: string)
    requires c == '<' || c == '>'
    ensures Unescape(EntityOf(c) + rest) == [c] + Unescape(rest)
  {
    var e := EntityOf(c) + rest;
    assert e[1] == (if c == '<' then 'l' else 'g');
    assert e[..4] == EntityOf(c) && e[4..] == rest;
  }

  lemma UnescapePlain(c: char, rest: string)
    requires c != '&' && c != '<'
    ensures Unescape([c] + rest) == [c] + Unescape(rest)
  {
    var e := [c] + rest;
    assert e[0] == c && e[1..] == rest;
  }

  lemma UnescapeEntity(c: char, rest: string)
    ensures Unescape(EntityOf(c) + rest) == [c] + Unescape(rest)
  {
    if c == '&' {
      UnescapeAmp(rest);
    } else if c == '<' || c == '>' {
      UnescapeAngle(c, rest);
    } else {
      UnescapePlain(c, rest);
    }
  }

  lemma UnescapeBreak(rest: string)
    ensures Unescape("<br>" + rest) == "\n" + Unescape(rest)
  {
    var e := "<br>" + rest;
    assert e[..4] == "<br>" && e[4..] == rest;
  }

  /** What the browser shows for the bubble is the user's text, with `\r\n` shown as one line
      break: escaping loses nothing. */
  lemma {:induction false} UnescapeEscape(text: string)
    ensures Unescape(Escape(text)) == JoinCrLf(text)
    decreases |text|
  {
    if |text| > 0 {
      if |text| >= 2 && text[0] == '\r' && text[1] == '\n' {
        UnescapeEscape(text[2..]);
        UnescapeBreak(Escape(text[2..]));
      } else if text[0] == '\n' {
        UnescapeEscape(text[1..]);
        UnescapeBreak(Escape(text[1..]));
      } else {
        UnescapeEscape(text[1..]);
        UnescapeEntity(text[0], Escape(text[1..]));
      }
    }
  }
}
