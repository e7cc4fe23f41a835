/**
 * HTML text handling shared by the search engine, the DOCX reconstructor
 * and the file parser: the five-entity escaping all three use, its
 * inverse, and the `<mark>` markers the highlighters wrap around matched
 * text, together with a left-to-right occurrence count that behaves like
 * the global regular-expression match the highlight property counts with.
 */
module Html {
  import opened JsString

  // ---------------------------------------------------------------------
  // Escaping

  /** The replacement for one character: `& < > " '` become entities,
      everything else stays. */
  /** The entity table `escapeHtml` looks characters up in. */
  const Entities: seq<(char, string)> :=
    [('&', "&amp;"), ('<', "&lt;"), ('>', "&gt;"), ('"', "&quot;"), ('\'', "&#39;")]

  /** The entry for `c` in `table`, or `c` itself when it has none. */
  function Lookup(table: seq<(char, string)>, c: char): string
  {
    if table == [] then [c]
    else if table[0].0 == c then table[0].1
    else Lookup(table[1..], c)
  }

  /** The replacement for one character. */
  function EscapeChar(c: char): string
  {
    Lookup(Entities, c)
  }

  /** `& < > " '` become entities, everything else stays. */
  lemma EscapeCharCases(c: char)
    ensures EscapeChar(c) == if c == '&' then "&amp;"
                             else if c == '<' then "&lt;"
                             else if c == '>' then "&gt;"
                             else if c == '"' then "&quot;"
                             else if c == '\'' then "&#39;"
                             else [c]
  {
    var t1 := Entities[1..];
    var t2 := t1[1..];
    var t3 := t2[1..];
    var t4 := t3[1..];
    assert t4[1..] == [];
    assert Lookup(t4, c) == if c == '\'' then "&#39;" else [c];
    assert Lookup(t3, c) == if c == '"' then "&quot;" else Lookup(t4, c);
    assert Lookup(t2, c) == if c == '>' then "&gt;" else Lookup(t3, c);
    assert Lookup(t1, c) == if c == '<' then "&lt;" else Lookup(t2, c);
  }

  predicate IsSpecial(c: char)
  {
    c == '&' || c == '<' || c == '>' || c == '"' || c == '\''
  }

  /** `escapeHtml`: every special character replaced by its entity. */
  function EscapeHtml(s: string): string
  {
    if s == [] then [] else EscapeChar(s[0]) + EscapeHtml(s[1..])
  }

  /** No raw `<`, `>`, `"` or `'` survives escaping. */
  lemma {:induction false} EscapeHtmlSafe(s: string)
    ensures '<' !in EscapeHtml(s) && '>' !in EscapeHtml(s)
    ensures '"' !in EscapeHtml(s) && '\'' !in EscapeHtml(s)
  {
    if s != [] {
      EscapeHtmlSafe(s[1..]);
      EscapeCharCases(s[0]);
      var e := EscapeChar(s[0]);
      assert '<' !in e && '>' !in e && '"' !in e && '\'' !in e;
    }
  }

  /** Escaping never shortens the text, and leaves text without special
      characters as it is. */
  lemma {:induction false} EscapeHtmlPlain(s: string)
    ensures |EscapeHtml(s)| >= |s|
    ensures (forall i :: 0 <= i < |s| ==> !IsSpecial(s[i])) ==> EscapeHtml(s) == s
  {
    if s != [] {
      EscapeHtmlPlain(s[1..]);
      EscapeCharCases(s[0]);
      if forall i :: 0 <= i < |s| ==> !IsSpecial(s[i]) {
        assert !IsSpecial(s[0]);
        assert forall i :: 0 <= i < |s[1..]| ==> !IsSpecial(s[1..][i]) by {
          forall i | 0 <= i < |s[1..]| ensures !IsSpecial(s[1..][i]) { assert s[1..][i] == s[i + 1]; }
        }
        assert s == [s[0]] + s[1..];
      }
    }
  }

  lemma {:induction false} EscapeAppend(a: string, b: string)
    ensures EscapeHtml(a + b) == EscapeHtml(a) + EscapeHtml(b)
  {
    if a != [] {
      assert (a + b)[0] == a[0];
      assert (a + b)[1..] == a[1..] + b;
      EscapeAppend(a[1..], b);
      assert EscapeHtml(a + b) == EscapeChar(a[0]) + (EscapeHtml(a[1..]) + EscapeHtml(b));
    } else {
      assert a + b == b;
    }
  }

  /** Decodes the five entities EscapeHtml produces, left to right. */
  function Unescape(h: string): string
  {
    if h == [] then []
    else if |h| >= 5 && h[..5] == "&amp;" then "&" + Unescape(h[5..])
    else if |h| >= 4 && h[..4] == "&lt;" then "<" + Unescape(h[4..])
    else if |h| >= 4 && h[..4] == "&gt;" then ">" + Unescape(h[4..])
    else if |h| >= 6 && h[..6] == "&quot;" then "\"" + Unescape(h[6..])
    else if |h| >= 5 && h[..5] == "&#39;" then "'" + Unescape(h[5..])
    else [h[0]] + Unescape(h[1..])
  }

  lemma UnescapeChar(c: char, rest: string)
    ensures Unescape(EscapeChar(c) + rest) == [c] + Unescape(rest)
  {
    EscapeCharCases(c);
    var e := EscapeChar(c);
    var h := e + rest;
    assert h[..|e|] == e;
    assert h[|e|..] == rest;
    if !IsSpecial(c) {
      assert h[0] == c;
      assert h[1..] == rest;
      assert |h| >= 4 ==> h[..4][0] != '&';
      assert |h| >= 5 ==> h[..5][0] != '&';
      assert |h| >= 6 ==> h[..6][0] != '&';
    } else if c != '&' {
      assert h[1] == e[1];
      assert h[..4][1] == e[1];
      assert |h| >= 5 ==> h[..5][1] == e[1];
      assert |h| >= 6 ==> h[..6][1] == e[1];
    }
  }

  /** Escaping loses nothing: decoding the escaped text gives it back. */
  lemma {:induction false} UnescapeEscape(s: string)
    ensures Unescape(EscapeHtml(s)) == s
  {
    if s != [] {
      UnescapeEscape(s[1..]);
      UnescapeChar(s[0], EscapeHtml(s[1..]));
    }
  }

  // ---------------------------------------------------------------------
  // Counting occurrences, left to right and without overlap

  /** The number of matches a global regular expression for the literal `p`
      finds in `s`. */
  function CountOcc(s: string, p: string): nat
    requires p != []
    decreases |s|
  {
    if |s| < |p| then 0
    else if s[..|p|] == p then 1 + CountOcc(s[|p|..], p)
    else CountOcc(s[1..], p)
  }

  /** Text in which the first character of `p` never occurs adds nothing. */
  lemma {:induction false} CountSkip(a: string, r: string, p: string)
    requires p != [] && p[0] !in a
    ensures CountOcc(a + r, p) == CountOcc(r, p)
  {
    if a != [] {
      var h := a + r;
      assert h[0] == a[0] && a[0] in a;
      assert h[1..] == a[1..] + r;
      CountSkip(a[1..], r, p);
      if |h| >= |p| {
        assert h[..|p|][0] != p[0];
      } else {
        CountShort(r, p);
      }
    } else {
      assert a + r == r;
    }
  }

  lemma CountShort(r: string, p: string)
    requires p != [] && |r| < |p|
    ensures CountOcc(r, p) == 0
  {
  }

  /** A leading occurrence of `p` counts once. */
  lemma CountHead(r: string, p: string)
    requires p != []
    ensures CountOcc(p + r, p) == 1 + CountOcc(r, p)
  {
    var h := p + r;
    assert h[..|p|] == p;
    assert h[|p|..] == r;
  }

  /** A chunk that starts like `p` but differs at its second character, and
      holds no further first character of `p`, adds nothing. */
  lemma CountOther(x: string, r: string, p: string)
    requires |x| >= 2 && |p| >= 2 && x[0] == p[0] && x[1] != p[1]
    requires p[0] !in x[1..]
    ensures CountOcc(x + r, p) == CountOcc(r, p)
  {
    var h := x + r;
    assert h[1..] == x[1..] + r;
    CountSkip(x[1..], r, p);
    if |h| >= |p| {
      assert h[..|p|][1] == x[1];
    } else {
      CountShort(r, p);
    }
  }

  /** The entity EscapeHtml writes for a special character. */
  function Entity(c: char): string
    requires IsSpecial(c)
  {
    EscapeChar(c)
  }

  lemma EntityAfterChar(c: char, d: char, r: string)
    requires IsSpecial(d)
    ensures CountOcc(EscapeChar(c) + r, Entity(d)) == (if c == d then 1 else 0) + CountOcc(r, Entity(d))
  {
    EscapeCharCases(c);
    EscapeCharCases(d);
    var e := EscapeChar(c);
    var p := Entity(d);
    if c == d {
      CountHead(r, p);
    } else if IsSpecial(c) {
      CountOther(e, r, p);
    } else {
      CountSkip(e, r, p);
    }
  }

  /** Each entity occurs in the escaped text exactly as often as the
      character it stands for occurs in the original. */
  lemma {:induction false} EscapeCounts(s: string, d: char)
    requires IsSpecial(d)
    ensures CountOcc(EscapeHtml(s), Entity(d)) == CountChar(s, d)
  {
    if s != [] {
      EscapeCounts(s[1..], d);
      EntityAfterChar(s[0], d, EscapeHtml(s[1..]));
      CountCharCons(s, d);
    }
  }

  // ---------------------------------------------------------------------
  // Highlight markers

  const MarkOpen: string := "<mark>"
  const MarkClose: string := "</mark>"

  /** `<mark>${e}</mark>`. */
  function Marked(e: string): string
  {
    MarkOpen + e + MarkClose
  }

  /** Escaped text marked once adds one opening marker. */
  lemma MarkedOpenCount(e: string, r: string)
    requires '<' !in e
    ensures CountOcc(Marked(e) + r, MarkOpen) == 1 + CountOcc(r, MarkOpen)
  {
    assert Marked(e) + r == MarkOpen + (e + (MarkClose + r));
    CountHead(e + (MarkClose + r), MarkOpen);
    CountSkip(e, MarkClose + r, MarkOpen);
    CountOther(MarkClose, r, MarkOpen);
  }

  /** Escaped text marked once adds one closing marker. */
  lemma MarkedCloseCount(e: string, r: string)
    requires '<' !in e
    ensures CountOcc(Marked(e) + r, MarkClose) == 1 + CountOcc(r, MarkClose)
  {
    assert Marked(e) + r == (MarkOpen + e) + (MarkClose + r);
    assert '<' !in (MarkOpen + e)[1..] by {
      assert (MarkOpen + e)[1..] == "mark>" + e;
    }
    CountOther(MarkOpen + e, MarkClose + r, MarkClose);
    CountHead(r, MarkClose);
  }

  /** Escaped text adds no marker of either kind. */
  lemma PlainCounts(e: string, r: string)
    requires '<' !in e
    ensures CountOcc(e + r, MarkOpen) == CountOcc(r, MarkOpen)
    ensures CountOcc(e + r, MarkClose) == CountOcc(r, MarkClose)
  {
    CountSkip(e, r, MarkOpen);
    CountSkip(e, r, MarkClose);
  }

  /** Removes every `<mark>` and `</mark>`, keeping all other text. */
  function StripMarks(h: string): string
  {
    if h == [] then []
    else if |h| >= 6 && h[..6] == MarkOpen then StripMarks(h[6..])
    else if |h| >= 7 && h[..7] == MarkClose then StripMarks(h[7..])
    else [h[0]] + StripMarks(h[1..])
  }

  lemma {:induction false} StripPlain(a: string, r: string)
    requires '<' !in a
    ensures StripMarks(a + r) == a + StripMarks(r)
  {
    if a != [] {
      var h := a + r;
      assert h[0] == a[0] && a[0] in a;
      assert h[1..] == a[1..] + r;
      StripPlain(a[1..], r);
      if |h| >= 6 { assert h[..6][0] != '<'; }
      if |h| >= 7 { assert h[..7][0] != '<'; }
    } else {
      assert a + r == r;
    }
  }

  lemma StripMarked(e: string, r: string)
    requires '<' !in e
    ensures StripMarks(Marked(e) + r) == e + StripMarks(r)
  {
    var h := Marked(e) + r;
    assert h[..6] == MarkOpen;
    assert h[6..] == e + (MarkClose + r);
    StripPlain(e, MarkClose + r);
    var t := MarkClose + r;
    assert t[..6] != MarkOpen by { assert t[1] == '/'; }
    assert t[..7] == MarkClose;
    assert t[7..] == r;
  }
}
