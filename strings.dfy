/** String primitives of the JavaScript runtime that the page script relies on:
    the whitespace class shared by the regular-expression escape `\s` and by
    `String.prototype.trim`, `trim` itself, the UTF-16 `length` of a string,
    and `split` on a one-character separator. Strings are sequences of Unicode
    scalar values; JavaScript strings are sequences of UTF-16 code units, and
    `Utf16Length` accounts for the difference where a length is compared. */
module Strings {

  /** WhiteSpace and LineTerminator code points of ECMAScript: tab, line feed,
      vertical tab, form feed, carriage return, space, no-break space, the
      Unicode space separators, line and paragraph separators and the
      byte-order mark. */
  predicate IsWhitespace(c: char) {
    var n := c as int;
    (0x09 <= n <= 0x0D) || n == 0x20 || n == 0xA0 || n == 0x1680
    || (0x2000 <= n <= 0x200A) || n == 0x2028 || n == 0x2029
    || n == 0x202F || n == 0x205F || n == 0x3000 || n == 0xFEFF
  }

  predicate NoWhitespace(s: string) {
    forall i :: 0 <= i < |s| ==> !IsWhitespace(s[i])
  }

  predicate AllWhitespace(s: string) {
    forall i :: 0 <= i < |s| ==> IsWhitespace(s[i])
  }

  /** Drops the leading whitespace: the result is the suffix of `s` that
      starts at its first non-whitespace character. */
  function TrimStart(s: string): (r: string)
    ensures |r| <= |s| && r == s[|s| - |r|..]
    ensures forall i :: 0 <= i < |s| - |r| ==> IsWhitespace(s[i])
    ensures r != [] ==> !IsWhitespace(r[0])
  {
    if s != [] && IsWhitespace(s[0]) then TrimStart(s[1..]) else s
  }

  /** Drops the trailing whitespace: the result is the prefix of `s` that
      ends at its last non-whitespace character. */
  function TrimEnd(s: string): (r: string)
    ensures |r| <= |s| && r == s[..|r|]
    ensures forall i :: |r| <= i < |s| ==> IsWhitespace(s[i])
    ensures r != [] ==> !IsWhitespace(r[|r| - 1])
  {
    if s != [] && IsWhitespace(s[|s| - 1]) then TrimEnd(s[..|s| - 1]) else s
  }

  /** `String.prototype.trim`: whitespace removed from both ends. The result
      is empty exactly when `s` is all whitespace, and otherwise neither starts
      nor ends with whitespace. */
  function Trim(s: string): (r: string)
    ensures r == [] <==> AllWhitespace(s)
    ensures r != [] ==> !IsWhitespace(r[0]) && !IsWhitespace(r[|r| - 1])
  {
    var t := TrimStart(s);
    var r := TrimEnd(t);
    assert r != [] ==> r[0] == t[0];
    assert AllWhitespace(s) ==> t == [];
    r
  }

  /** Trimming keeps a contiguous piece of `s` and removes only whitespace. */
  lemma TrimIsInfix(s: string) returns (i: nat)
    ensures var r := Trim(s);
      i + |r| <= |s| && r == s[i..i + |r|] && AllWhitespace(s[..i]) && AllWhitespace(s[i + |r|..])
  {
    var t := TrimStart(s);
    var r := TrimEnd(t);
    i := |s| - |t|;
    InfixParts(s, t, r, i);
  }

  /** The cut at `i` of `s` into whitespace, `r` and whitespace, from the
      facts the two halves of `trim` establish. */
  lemma InfixParts(s: string, t: string, r: string, i: nat)
    requires i <= |s| && t == s[i..] && |r| <= |t| && r == t[..|r|]
    requires forall k :: 0 <= k < i ==> IsWhitespace(s[k])
    requires forall k :: |r| <= k < |t| ==> IsWhitespace(t[k])
    ensures i + |r| <= |s| && r == s[i..i + |r|] && AllWhitespace(s[..i]) && AllWhitespace(s[i + |r|..])
  {
    WhitespacePrefix(s, i);
    WhitespaceSuffix(t, |r|);
    assert s[i + |r|..] == t[|r|..];
  }

  lemma WhitespacePrefix(s: string, n: nat)
    requires n <= |s| && forall k :: 0 <= k < n ==> IsWhitespace(s[k])
    ensures AllWhitespace(s[..n])
  {
    var pre := s[..n];
    forall k | 0 <= k < |pre| ensures IsWhitespace(pre[k]) {
      assert pre[k] == s[k];
    }
  }

  lemma WhitespaceSuffix(t: string, n: nat)
    requires n <= |t| && forall k :: n <= k < |t| ==> IsWhitespace(t[k])
    ensures AllWhitespace(t[n..])
  {
    var post := t[n..];
    forall k | 0 <= k < |post| ensures IsWhitespace(post[k]) {
      assert post[k] == t[n + k];
    }
  }

  /** A string without surrounding whitespace is its own trim. */
  lemma TrimOfTrimmed(s: string)
    requires s == [] || (!IsWhitespace(s[0]) && !IsWhitespace(s[|s| - 1]))
    ensures Trim(s) == s
  {
  }

  lemma {:induction false} TrimStartPast(pre: string, t: string)
    requires AllWhitespace(pre)
    requires t == [] || !IsWhitespace(t[0])
    ensures TrimStart(pre + t) == t
  {
    if pre != [] {
      assert (pre + t)[1..] == pre[1..] + t;
      TrimStartPast(pre[1..], t);
    }
  }

  lemma {:induction false} TrimEndPast(t: string, post: string)
    requires AllWhitespace(post)
    requires t == [] || !IsWhitespace(t[|t| - 1])
    ensures TrimEnd(t + post) == t
  {
    if post != [] {
      assert (t + post)[..|t + post| - 1] == t + post[..|post| - 1];
      TrimEndPast(t, post[..|post| - 1]);
    } else {
      assert t + post == t;
    }
  }

  /** Trimming removes exactly the surrounding whitespace: whatever lies
      between whitespace-only ends and itself neither starts nor ends with
      whitespace is the trim. */
  lemma TrimSurrounded(pre: string, t: string, post: string)
    requires AllWhitespace(pre) && AllWhitespace(post)
    requires t != [] && !IsWhitespace(t[0]) && !IsWhitespace(t[|t| - 1])
    ensures Trim(pre + t + post) == t
  {
    assert pre + t + post == pre + (t + post);
    TrimStartPast(pre, t + post);
    TrimEndPast(t, post);
  }

  /** The `length` JavaScript reports: characters outside the Basic
      Multilingual Plane are two UTF-16 code units each. */
  function Utf16Length(s: string): (n: nat)
    ensures |s| <= n <= 2 * |s|
    ensures (forall i :: 0 <= i < |s| ==> s[i] as int < 0x1_0000) ==> n == |s|
    ensures |s| == 1 ==> n == (if s[0] as int < 0x1_0000 then 1 else 2)
  {
    if s == [] then 0
    else (if s[0] as int < 0x1_0000 then 1 else 2) + Utf16Length(s[1..])
  }

  /** The UTF-16 length of a concatenation is the sum of the lengths: the
      count is one or two units per character, independently of the rest. */
  lemma {:induction false} Utf16LengthAppend(a: string, b: string)
    ensures Utf16Length(a + b) == Utf16Length(a) + Utf16Length(b)
  {
    if a == [] {
      assert a + b == b;
    } else {
      assert (a + b)[1..] == a[1..] + b;
      Utf16LengthAppend(a[1..], b);
    }
  }

  /** Number of occurrences of `c` in `s`. */
  function Count(s: string, c: char): (n: nat)
    ensures n <= |s|
    ensures n == 0 <==> c !in s
  {
    if s == [] then 0
    else (if s[0] == c then 1 else 0) + Count(s[1..], c)
  }

  /** Position of the first occurrence of `c` in `s`. */
  function IndexOf(s: string, c: char): (i: nat)
    requires c in s
    ensures i < |s| && s[i] == c && c !in s[..i]
  {
    if s[0] == c then 0
    else
      var i := 1 + IndexOf(s[1..], c);
      assert s[..i] == [s[0]] + s[1..][..i - 1];
      i
  }

  lemma {:induction false} CountAppend(a: string, b: string, c: char)
    ensures Count(a + b, c) == Count(a, c) + Count(b, c)
  {
    if a == [] {
      assert a + b == b;
    } else {
      assert (a + b)[1..] == a[1..] + b;
      CountAppend(a[1..], b, c);
    }
  }

  /** Counting around position `i`: before it, at it and after it. */
  lemma CountAround(s: string, i: nat, c: char)
    requires i < |s|
    ensures Count(s, c) == Count(s[..i], c) + (if s[i] == c then 1 else 0) + Count(s[i + 1..], c)
  {
    assert s == s[..i] + s[i..];
    CountAppend(s[..i], s[i..], c);
    assert s[i..][1..] == s[i + 1..];
  }

  /** `s.split(sep)` for a one-character separator: the maximal runs between
      separators, in order, including empty ones; never an empty list. */
  function Split(s: string, sep: char): (parts: seq<string>)
    ensures |parts| >= 1
    ensures forall k :: 0 <= k < |parts| ==> sep !in parts[k]
  {
    if s == [] then [[]]
    else if s[0] == sep then [[]] + Split(s[1..], sep)
    else
      var rest := Split(s[1..], sep);
      [[s[0]] + rest[0]] + rest[1..]
  }

  /** `parts.join(sep)`. */
  function Join(parts: seq<string>, sep: char): (s: string)
    ensures |parts| == 1 ==> s == parts[0]
  {
    if parts == [] then []
    else if |parts| == 1 then parts[0]
    else parts[0] + [sep] + Join(parts[1..], sep)
  }

  /** Splitting loses nothing: joining the pieces back gives the input. */
  lemma {:induction false} JoinSplit(s: string, sep: char)
    ensures Join(Split(s, sep), sep) == s
  {
    if s == [] {
    } else if s[0] == sep {
      JoinSplit(s[1..], sep);
    } else {
      var rest := Split(s[1..], sep);
      JoinSplit(s[1..], sep);
      if |rest| == 1 {
      } else {
        assert ([[s[0]] + rest[0]] + rest[1..])[1..] == rest[1..];
        assert Join(rest, sep) == rest[0] + [sep] + Join(rest[1..], sep);
      }
    }
  }

  /** A string free of the separator splits into itself alone. */
  lemma {:induction false} SplitPlain(a: string, sep: char)
    requires sep !in a
    ensures Split(a, sep) == [a]
  {
    if a != [] {
      SplitPlain(a[1..], sep);
      assert [a[0]] + a[1..] == a;
    }
  }

  /** Splitting `a`, a separator and `b`, with `a` free of the separator,
      yields `a` followed by the pieces of `b`. */
  lemma {:induction false} SplitAfterPiece(a: string, b: string, sep: char)
    requires sep !in a
    ensures Split(a + [sep] + b, sep) == [a] + Split(b, sep)
  {
    if a == [] {
      assert a + [sep] + b == [sep] + b;
      assert ([sep] + b)[1..] == b;
    } else {
      assert (a + [sep] + b)[1..] == a[1..] + [sep] + b;
      SplitAfterPiece(a[1..], b, sep);
      assert [a[0]] + a[1..] == a;
    }
  }

  /** Joining then splitting is the identity on non-empty lists of
      separator-free pieces. */
  lemma {:induction false} SplitJoin(parts: seq<string>, sep: char)
    requires |parts| >= 1
    requires forall k :: 0 <= k < |parts| ==> sep !in parts[k]
    ensures Split(Join(parts, sep), sep) == parts
  {
    if |parts| == 1 {
      SplitPlain(parts[0], sep);
    } else {
      SplitJoin(parts[1..], sep);
      SplitAfterPiece(parts[0], Join(parts[1..], sep), sep);
      assert [parts[0]] + parts[1..] == parts;
    }
  }
}
