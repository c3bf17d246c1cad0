/** `escapeHtml` of the catalog pages: each of the eight characters
    & < > " ' / ` = becomes a fixed character reference and every other
    character is kept. `Decode` reads the references back, and
    `DecodeEscape` proves the escaping loses nothing. */
module HtmlEscape {
  import opened JsValue

  predicate Special(c: char) {
    c == '&' || c == '<' || c == '>' || c == '"' || c == '\'' || c == '/' || c == '`' || c == '='
  }

  /** The characters that may not appear in escaped text: all the special
      characters except '&', which opens every reference. */
  predicate Dangerous(c: char) {
    Special(c) && c != '&'
  }

  /** The replacement text of one character. */
  function Replacement(c: char): (r: string)
    ensures |r| >= 1
    ensures Special(c) <==> |r| > 1
  {
    match c
    case '&' => "&amp;"
    case '<' => "&lt;"
    case '>' => "&gt;"
    case '"' => "&quot;"
    case '\'' => "&#39;"
    case '/' => "&#x2F;"
    case '`' => "&#96;"
    case '=' => "&#61;"
    case _ => [c]
  }

  /** The global replace over a string. */
  function Escape(s: string): string
    decreases |s|
  {
    if s == [] then [] else Replacement(s[0]) + Escape(s[1..])
  }

  predicate HasSpecial(s: string) {
    exists i :: 0 <= i < |s| && Special(s[i])
  }

  /** `escapeHtml(text)`: '' for a falsy argument; the escaped text of a
      non-empty string; a TypeError for a non-zero number, which has no
      `replace` method. */
  function EscapeHtml(text: Value): (r: Completion<string>)
    ensures !Truthy(text) ==> r == Normal("")
    ensures text.Str? ==> r == Normal(Escape(text.s))
    ensures text.Num? && text.n != 0.0 <==> r == TypeError
  {
    if !Truthy(text) then Normal("")
    else match text
      case Str(s) => Normal(Escape(s))
      case _ => TypeError
  }

  /** Escaping distributes over concatenation. */
  lemma {:induction false} EscapeAppend(a: string, b: string)
    ensures Escape(a + b) == Escape(a) + Escape(b)
    decreases |a|
  {
    if a != [] {
      assert (a + b)[1..] == a[1..] + b;
      EscapeAppend(a[1..], b);
    } else {
      assert a + b == b;
    }
  }

  /** A single character is replaced by its reference when it is special
      and kept otherwise; with `EscapeAppend` this fixes `Escape` on every
      string. */
  lemma EscapeChar(c: char)
    ensures Special(c) ==> Escape([c]) == Replacement(c) && |Escape([c])| > 1
    ensures !Special(c) ==> Escape([c]) == [c]
  {
  }

  lemma ReplacementSafe(c: char)
    ensures forall i :: 0 <= i < |Replacement(c)| ==> !Dangerous(Replacement(c)[i])
  {
  }

  /** Escaped text never contains < > " ' / ` or =. */
  lemma {:induction false} EscapeSafe(s: string)
    ensures forall i :: 0 <= i < |Escape(s)| ==> !Dangerous(Escape(s)[i])
    decreases |s|
  {
    if s != [] {
      EscapeSafe(s[1..]);
      ReplacementSafe(s[0]);
      var head, tail := Replacement(s[0]), Escape(s[1..]);
      assert Escape(s) == head + tail;
      forall i | 0 <= i < |Escape(s)| ensures !Dangerous(Escape(s)[i]) {
        if i >= |head| {
          assert Escape(s)[i] == tail[i - |head|];
        }
      }
    }
  }

  /** Escaping never shortens, and it keeps the length, or equivalently the
      text itself, exactly when there is nothing to escape. */
  lemma {:induction false} EscapeLength(s: string)
    ensures |Escape(s)| >= |s|
    ensures |Escape(s)| == |s| <==> !HasSpecial(s)
    ensures Escape(s) == s <==> !HasSpecial(s)
    decreases |s|
  {
    if s != [] {
      EscapeLength(s[1..]);
      assert HasSpecial(s) <==> Special(s[0]) || HasSpecial(s[1..]) by {
        if HasSpecial(s) && !Special(s[0]) {
          var i :| 0 <= i < |s| && Special(s[i]);
          assert s[1..][i - 1] == s[i];
        }
        if HasSpecial(s[1..]) {
          var i :| 0 <= i < |s[1..]| && Special(s[1..][i]);
          assert s[i + 1] == s[1..][i];
        }
      }
      if Special(s[0]) {
        assert |Escape(s)| > |s|;
      } else {
        assert Escape(s) == [s[0]] + Escape(s[1..]);
        assert s == [s[0]] + s[1..];
      }
    }
  }

  // ---------------------------------------------------------------------
  // Reading escaped text back

  /** The special character whose reference opens `s`, if any. */
  function ReferenceAt(s: string): (r: Option<char>)
    ensures r.Some? ==> Special(r.value) && Replacement(r.value) <= s
  {
    if "&amp;" <= s then Some('&')
    else if "&lt;" <= s then Some('<')
    else if "&gt;" <= s then Some('>')
    else if "&quot;" <= s then Some('"')
    else if "&#39;" <= s then Some('\'')
    else if "&#x2F;" <= s then Some('/')
    else if "&#96;" <= s then Some('`')
    else if "&#61;" <= s then Some('=')
    else None
  }

  /** Replaces each reference by its character, left to right. */
  function Decode(s: string): string
    decreases |s|
  {
    if s == [] then []
    else match ReferenceAt(s)
      case Some(c) => [c] + Decode(s[|Replacement(c)|..])
      case None => [s[0]] + Decode(s[1..])
  }

  lemma ReferenceAtReplacement(c: char, t: string)
    ensures Special(c) ==> ReferenceAt(Replacement(c) + t) == Some(c)
    ensures !Special(c) ==> ReferenceAt([c] + t) == None
  {
    var r := Replacement(c);
    var s := r + t;
    assert s[..|r|] == r;
    assert s[0] == r[0];
    if Special(c) {
      // References differ from each other within their first three characters.
      assert s[1] == r[1] && s[2] == r[2];
    }
  }

  /** Decoding undoes escaping, so escaping is injective: no two texts
      render the same. */
  lemma {:induction false} DecodeEscape(s: string)
    ensures Decode(Escape(s)) == s
    decreases |s|
  {
    if s != [] {
      var c, t := s[0], Escape(s[1..]);
      ReferenceAtReplacement(c, t);
      var e := Replacement(c) + t;
      assert Escape(s) == e;
      if Special(c) {
        assert e[|Replacement(c)|..] == t;
      } else {
        assert e[1..] == t;
      }
      DecodeEscape(s[1..]);
      assert s == [c] + s[1..];
    }
  }
}
