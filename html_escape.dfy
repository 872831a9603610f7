/** The fallback `escapeHtml` of the page script: four global replacements,
    `&` first, then `<`, `>` and `"`. */
module HtmlEscape {
  import opened Common

  /** `s.replace(/c/g, rep)` for a single-character pattern. */
  function ReplaceChar(s: string, c: char, rep: string): string
  {
    if s == [] then []
    else (if s[0] == c then rep else [s[0]]) + ReplaceChar(s[1..], c, rep)
  }

  lemma {:induction false} ReplaceAppend(a: string, b: string, c: char, rep: string)
    ensures ReplaceChar(a + b, c, rep) == ReplaceChar(a, c, rep) + ReplaceChar(b, c, rep)
  {
    if a != [] {
      assert (a + b)[0] == a[0] && (a + b)[1..] == a[1..] + b;
      ReplaceAppend(a[1..], b, c, rep);
    } else {
      assert a + b == b;
    }
  }

  /** A replacement whose pattern does not occur changes nothing. */
  lemma {:induction false} ReplaceAbsent(s: string, c: char, rep: string)
    requires forall k :: 0 <= k < |s| ==> s[k] != c
    ensures ReplaceChar(s, c, rep) == s
  {
    if s != [] {
      ReplaceAbsent(s[1..], c, rep);
    }
  }

  /** The fallback escaper: `null`/`undefined` become the empty string. */
  function Escape(s: Option<string>): (r: string)
    ensures s.None? ==> r == ""
  {
    match s
    case None => ""
    case Some(t) =>
      ReplaceChar(ReplaceChar(ReplaceChar(ReplaceChar(t, '&', "&amp;"), '<', "&lt;"), '>', "&gt;"), '"', "&quot;")
  }

  /** The entity each character becomes, taken one character at a time. */
  function EscapeChar(c: char): (r: string)
    ensures |r| >= 1 && (r[0] == '&' <==> c == '&' || c == '<' || c == '>' || c == '"')
    ensures NoMarkup(r)
  {
    if c == '&' then "&amp;"
    else if c == '<' then "&lt;"
    else if c == '>' then "&gt;"
    else if c == '"' then "&quot;"
    else [c]
  }

  /** The reference escaper: every character replaced by its entity. */
  function EscapeEach(s: string): string {
    if s == [] then [] else EscapeChar(s[0]) + EscapeEach(s[1..])
  }

  lemma ReplaceSingleton(x: char, c: char, rep: string)
    ensures ReplaceChar([x], c, rep) == if x == c then rep else [x]
  {
    assert [x][1..] == [];
  }

  /** One character goes through the four passes to its entity. */
  lemma EscapeOne(c: char)
    ensures Escape(Some([c])) == EscapeChar(c)
  {
    ReplaceSingleton(c, '&', "&amp;");
    if c == '&' {
      ReplaceAbsent("&amp;", '<', "&lt;");
      ReplaceAbsent("&amp;", '>', "&gt;");
      ReplaceAbsent("&amp;", '"', "&quot;");
    } else {
      ReplaceSingleton(c, '<', "&lt;");
      if c == '<' {
        ReplaceAbsent("&lt;", '>', "&gt;");
        ReplaceAbsent("&lt;", '"', "&quot;");
      } else {
        ReplaceSingleton(c, '>', "&gt;");
        if c == '>' {
          ReplaceAbsent("&gt;", '"', "&quot;");
        } else {
          ReplaceSingleton(c, '"', "&quot;");
        }
      }
    }
  }

  lemma {:induction false} EscapeSome(a: string, b: string)
    ensures Escape(Some(a + b)) == Escape(Some(a)) + Escape(Some(b))
  {
    var a1, b1 := ReplaceChar(a, '&', "&amp;"), ReplaceChar(b, '&', "&amp;");
    ReplaceAppend(a, b, '&', "&amp;");
    var a2, b2 := ReplaceChar(a1, '<', "&lt;"), ReplaceChar(b1, '<', "&lt;");
    ReplaceAppend(a1, b1, '<', "&lt;");
    var a3, b3 := ReplaceChar(a2, '>', "&gt;"), ReplaceChar(b2, '>', "&gt;");
    ReplaceAppend(a2, b2, '>', "&gt;");
    ReplaceAppend(a3, b3, '"', "&quot;");
  }

  /** Running the four passes in order is the same as escaping each character on
      its own: `&` going first means no entity written later is escaped again. */
  lemma {:induction false} EscapeIsPerChar(s: string)
    ensures Escape(Some(s)) == EscapeEach(s)
  {
    if s != [] {
      assert s == [s[0]] + s[1..];
      EscapeSome([s[0]], s[1..]);
      EscapeOne(s[0]);
      EscapeIsPerChar(s[1..]);
    }
  }

  /** No `<`, `>` or `"`: the text cannot open a tag or close an attribute. */
  predicate NoMarkup(r: string) {
    forall k :: 0 <= k < |r| ==> r[k] != '<' && r[k] != '>' && r[k] != '"'
  }

  /** The output contains no `<`, `>` or `"`. */
  lemma {:induction false} EscapeNoMarkup(s: string)
    ensures NoMarkup(Escape(Some(s)))
  {
    EscapeIsPerChar(s);
    EachNoMarkup(s);
  }

  lemma {:induction false} EachNoMarkup(s: string)
    ensures NoMarkup(EscapeEach(s))
  {
    if s != [] {
      EachNoMarkup(s[1..]);
      var head, tail := EscapeChar(s[0]), EscapeEach(s[1..]);
      assert EscapeEach(s) == head + tail;
      forall k | 0 <= k < |head + tail|
        ensures (head + tail)[k] != '<' && (head + tail)[k] != '>' && (head + tail)[k] != '"'
      {
        if k < |head| {
          assert (head + tail)[k] == head[k];
        } else {
          assert (head + tail)[k] == tail[k - |head|];
        }
      }
    }
  }

  /** Text with none of the four special characters comes back unchanged. */
  lemma EscapeIdentity(s: string)
    requires forall k :: 0 <= k < |s| ==> s[k] != '&' && s[k] != '<' && s[k] != '>' && s[k] != '"'
    ensures Escape(Some(s)) == s
  {
    ReplaceAbsent(s, '&', "&amp;");
    ReplaceAbsent(s, '<', "&lt;");
    ReplaceAbsent(s, '>', "&gt;");
    ReplaceAbsent(s, '"', "&quot;");
  }

  /** What a browser shows for the escaped text: the four entities read back as
      their characters. */
  function Unescape(s: string): string
    decreases |s|
  {
    if s == [] then []
    else if s[0] != '&' then [s[0]] + Unescape(s[1..])
    else if |s| >= 5 && s[..5] == "&amp;" then ['&'] + Unescape(s[5..])
    else if |s| >= 4 && s[..4] == "&lt;" then ['<'] + Unescape(s[4..])
    else if |s| >= 4 && s[..4] == "&gt;" then ['>'] + Unescape(s[4..])
    else if |s| >= 6 && s[..6] == "&quot;" then ['"'] + Unescape(s[6..])
    else [s[0]] + Unescape(s[1..])
  }

  /** Escaping loses nothing: the displayed text is the original text. */
  lemma {:induction false} EscapeRoundTrip(s: string)
    ensures Unescape(Escape(Some(s))) == s
  {
    EscapeIsPerChar(s);
    EachRoundTrip(s);
  }

  lemma {:induction false} EachRoundTrip(s: string)
    ensures Unescape(EscapeEach(s)) == s
  {
    if s != [] {
      var c, rest := s[0], EscapeEach(s[1..]);
      var e := EscapeChar(c) + rest;
      assert EscapeEach(s) == e;
      EachRoundTrip(s[1..]);
      if c == '&' {
        assert e[..5] == "&amp;" && e[5..] == rest;
      } else if c == '<' {
        assert e[..4] == "&lt;" && e[4..] == rest;
        assert e[1] == 'l';
        assert |e| >= 5 ==> e[..5] != "&amp;" by {
          if |e| >= 5 { assert e[..5][1] == 'l'; }
        }
      } else if c == '>' {
        assert e[..4] == "&gt;" && e[4..] == rest;
        assert |e| >= 5 ==> e[..5] != "&amp;" by {
          if |e| >= 5 { assert e[..5][1] == 'g'; }
        }
        assert e[..4] != "&lt;" by { assert e[..4][1] == 'g'; }
      } else if c == '"' {
        assert e[..6] == "&quot;" && e[6..] == rest;
        assert e[..5] != "&amp;" by { assert e[..5][1] == 'q'; }
        assert e[..4] != "&lt;" by { assert e[..4][1] == 'q'; }
        assert e[..4] != "&gt;" by { assert e[..4][1] == 'q'; }
      } else {
        assert e[0] == c && e[1..] == rest;
      }
      assert s == [c] + s[1..];
    }
  }
}
