/** HTML escaping of values before they are interpolated into table markup:
    each of the five characters `&`, `<`, `>`, `"` and `'` is replaced by a
    fixed character reference and every other character is kept. `Unescape`
    decodes those five references and is the inverse used to state that the
    escaping loses nothing. */
module Html {

  /** The characters `escapeHtml` replaces. */
  predicate IsSpecial(c: char) {
    c == '&' || c == '<' || c == '>' || c == '"' || c == '\''
  }

  predicate NoSpecials(s: string) {
    forall i :: 0 <= i < |s| ==> !IsSpecial(s[i])
  }

  /** The replacement for one special character. */
  function Entity(c: char): (e: string)
    requires IsSpecial(c)
  {
    if c == '&' then "&amp;"
    else if c == '<' then "&lt;"
    else if c == '>' then "&gt;"
    else if c == '"' then "&quot;"
    else "&#039;"
  }

  /** The text that stands for `c` in escaped output. */
  function EscapeChar(c: char): (e: string)
    ensures |e| >= 1
    ensures |e| == 1 <==> !IsSpecial(c)
    ensures !IsSpecial(c) ==> e == [c]
  {
    if IsSpecial(c) then Entity(c) else [c]
  }

  /** `escapeHtml(text)`: a left-to-right replacement of every special
      character by its entity. */
  function EscapeHtml(text: string): (r: string)
    ensures |r| >= |text|
  {
    if text == [] then []
    else EscapeChar(text[0]) + EscapeHtml(text[1..])
  }

  /** Escaping never shortens its input, and it is the identity exactly on
      the strings without special characters. */
  lemma {:induction false} EscapeHtmlLength(text: string)
    ensures |EscapeHtml(text)| >= |text|
    ensures |EscapeHtml(text)| == |text| <==> NoSpecials(text)
    ensures NoSpecials(text) ==> EscapeHtml(text) == text
  {
    if text != [] {
      EscapeHtmlLength(text[1..]);
      if NoSpecials(text) {
        assert NoSpecials(text[1..]) by {
          forall i | 0 <= i < |text[1..]| ensures !IsSpecial(text[1..][i]) {
            assert text[1..][i] == text[i + 1];
          }
        }
      } else if !IsSpecial(text[0]) {
        assert !NoSpecials(text[1..]) by {
          var i :| 0 <= i < |text| && IsSpecial(text[i]);
          assert text[1..][i - 1] == text[i];
        }
      }
    }
  }

  /** `t` begins with one of the five references `escapeHtml` produces. */
  predicate StartsWithEntity(t: string) {
    "&amp;" <= t || "&lt;" <= t || "&gt;" <= t || "&quot;" <= t || "&#039;" <= t
  }

  /** Markup-safe text: no `<`, `>`, `"` or `'` at all, and every `&` opens
      one of the five references. */
  predicate Safe(r: string) {
    forall i :: 0 <= i < |r| ==>
      r[i] != '<' && r[i] != '>' && r[i] != '"' && r[i] != '\''
      && (r[i] == '&' ==> StartsWithEntity(r[i..]))
  }

  /** The character that the text at the start of `s` stands for, and how
      many characters of `s` stand for it: one of the five references, or
      else the first character itself. */
  function DecodeFirst(s: string): (d: (char, nat))
    requires s != []
    ensures 1 <= d.1 <= |s|
    ensures s[0] != '&' ==> d == (s[0], 1)
  {
    if s[0] != '&' then (s[0], 1)
    else if |s| >= 5 && s[1] == 'a' && s[2] == 'm' && s[3] == 'p' && s[4] == ';' then ('&', 5)
    else if |s| >= 4 && s[1] == 'l' && s[2] == 't' && s[3] == ';' then ('<', 4)
    else if |s| >= 4 && s[1] == 'g' && s[2] == 't' && s[3] == ';' then ('>', 4)
    else if |s| >= 6 && s[1] == 'q' && s[2] == 'u' && s[3] == 'o' && s[4] == 't' && s[5] == ';' then ('"', 6)
    else if |s| >= 6 && s[1] == '#' && s[2] == '0' && s[3] == '3' && s[4] == '9' && s[5] == ';' then ('\'', 6)
    else ('&', 1)
  }

  /** Decodes the five references back to their characters, left to right;
      every other character is kept. */
  function Unescape(s: string): (r: string)
    decreases |s|
  {
    if s == [] then []
    else
      var (c, n) := DecodeFirst(s);
      [c] + Unescape(s[n..])
  }

  /** Text without `&` decodes to itself. */
  lemma {:induction false} UnescapePlain(s: string)
    requires '&' !in s
    ensures Unescape(s) == s
  {
    if s != [] {
      assert s[0] != '&';
      UnescapePlain(s[1..]);
    }
  }

  /** Text without special characters is safe as it stands. */
  lemma SafePlain(s: string)
    requires NoSpecials(s)
    ensures Safe(s)
  {
  }

  lemma SafeEscapeChar(c: char)
    ensures Safe(EscapeChar(c))
  {
    var e := EscapeChar(c);
    if IsSpecial(c) {
      forall i | 0 <= i < |e|
        ensures e[i] != '<' && e[i] != '>' && e[i] != '"' && e[i] != '\''
        ensures e[i] == '&' ==> StartsWithEntity(e[i..])
      {
        if i == 0 {
          assert e[0..] == e;
        } else {
          assert e[i] != '&';
        }
      }
    }
  }

  /** Safety is preserved by concatenation: a reference that starts inside
      the left part lies wholly inside it. */
  lemma SafeAppend(a: string, b: string)
    requires Safe(a) && Safe(b)
    ensures Safe(a + b)
  {
    var r := a + b;
    forall i | 0 <= i < |r|
      ensures r[i] != '<' && r[i] != '>' && r[i] != '"' && r[i] != '\''
      ensures r[i] == '&' ==> StartsWithEntity(r[i..])
    {
      if i < |a| {
        assert r[i] == a[i];
        assert r[i..] == a[i..] + b;
      } else {
        assert r[i] == b[i - |a|];
        assert r[i..] == b[i - |a|..];
      }
    }
  }

  /** The output of `escapeHtml` contains no `<`, `>`, `"` or `'`, and every
      `&` in it begins `&amp;`, `&lt;`, `&gt;`, `&quot;` or `&#039;`. */
  lemma {:induction false} EscapeIsSafe(text: string)
    ensures Safe(EscapeHtml(text))
  {
    if text != [] {
      SafeEscapeChar(text[0]);
      EscapeIsSafe(text[1..]);
      SafeAppend(EscapeChar(text[0]), EscapeHtml(text[1..]));
    }
  }

  /** The escaped form of `c` decodes, in one step, back to `c`. */
  lemma DecodeEscapeChar(c: char, u: string)
    ensures DecodeFirst(EscapeChar(c) + u) == (c, |EscapeChar(c)|)
  {
    var s := EscapeChar(c) + u;
    if c == '<' {
      assert s[1] == 'l';
    } else if c == '>' {
      assert s[1] == 'g';
    } else if c == '"' {
      assert s[1] == 'q';
    } else if c == '\'' {
      assert s[1] == '#';
    }
  }

  lemma UnescapeEscapeChar(c: char, u: string)
    ensures Unescape(EscapeChar(c) + u) == [c] + Unescape(u)
  {
    var e := EscapeChar(c);
    DecodeEscapeChar(c, u);
    assert (e + u)[|e|..] == u;
  }

  /** Escaping a non-empty text, then appending: the first character's
      replacement comes first. */
  lemma EscapeHtmlCons(text: string, tail: string)
    requires text != []
    ensures EscapeHtml(text) + tail == EscapeChar(text[0]) + (EscapeHtml(text[1..]) + tail)
  {
  }

  /** Putting the first character back in front. */
  lemma ConsBack(text: string, u: string)
    requires text != []
    ensures [text[0]] + (text[1..] + u) == text + u
  {
    assert [text[0]] + text[1..] == text;
  }

  /** Decoding undoes escaping, also when more text follows the escaped part. */
  lemma {:induction false} UnescapeEscapeAppend(text: string, tail: string)
    ensures Unescape(EscapeHtml(text) + tail) == text + Unescape(tail)
  {
    if text == [] {
      assert EscapeHtml(text) + tail == tail;
    } else {
      var rest := EscapeHtml(text[1..]) + tail;
      EscapeHtmlCons(text, tail);
      UnescapeEscapeChar(text[0], rest);
      UnescapeEscapeAppend(text[1..], tail);
      ConsBack(text, Unescape(tail));
    }
  }

  /** Decoding the five references in the output of `escapeHtml` returns the
      original text; hence escaping is injective. */
  lemma UnescapeEscape(text: string)
    ensures Unescape(EscapeHtml(text)) == text
  {
    UnescapeEscapeAppend(text, []);
    assert EscapeHtml(text) + [] == EscapeHtml(text);
    assert text + [] == text;
  }
}
