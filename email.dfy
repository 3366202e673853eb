/** The e-mail syntax check of the registration form: the regular expression
    `^[^\s@]+@[^\s@]+\.[^\s@]+$`, without flags. It is a deliberately simple
    shape test (a local part, one `@`, a dotted domain), not the address
    grammar of RFC 5322. */
module Email {
  import opened Strings

  /** A character of the class `[^\s@]`. */
  predicate Plain(c: char) {
    !IsWhitespace(c) && c != '@'
  }

  predicate AllPlain(s: string) {
    forall i :: 0 <= i < |s| ==> Plain(s[i])
  }

  /** The regular expression matches `s` with its `@` at `p` and the `.` it
      uses at `q`: `s[..p]`, `s[p+1..q]` and `s[q+1..]` are each one or more
      characters of `[^\s@]`. */
  predicate MatchesAt(s: string, p: int, q: int) {
    0 < p && p + 1 < q && q + 1 < |s| && s[p] == '@' && s[q] == '.'
    && AllPlain(s[..p]) && AllPlain(s[p + 1..q]) && AllPlain(s[q + 1..])
  }

  /** `/^[^\s@]+@[^\s@]+\.[^\s@]+$/.test(s)`, read directly off the pattern. */
  ghost predicate MatchesEmailRegex(s: string) {
    exists p, q :: MatchesAt(s, p, q)
  }

  /** `d` has a `.` that is neither its first nor its last character. */
  predicate HasInnerDot(d: string) {
    |d| >= 3 && '.' in d[1..|d| - 1]
  }

  /** Where the inner dot of `d` is. */
  lemma InnerDotIndex(d: string) returns (j: nat)
    requires HasInnerDot(d)
    ensures 1 <= j < |d| - 1 && d[j] == '.'
  {
    var inner := d[1..|d| - 1];
    var k :| 0 <= k < |inner| && inner[k] == '.';
    j := k + 1;
  }

  /** `isValidEmail(email)`, computed by scanning: no whitespace, exactly one
      `@`, a non-empty part before it and, after it, a domain with an inner
      dot. */
  function IsValidEmail(email: string): (ok: bool)
    ensures ok <==> (NoWhitespace(email) && Count(email, '@') == 1
                     && exists i :: 0 < i < |email| && email[i] == '@' && HasInnerDot(email[i + 1..]))
  {
    if NoWhitespace(email) && Count(email, '@') == 1 then
      var p := IndexOf(email, '@');
      assert forall i :: 0 < i < |email| && email[i] == '@' ==> i == p by {
        forall i | 0 < i < |email| && email[i] == '@' ensures i == p {
          OnlyAt(email, p, i);
        }
      }
      0 < p && HasInnerDot(email[p + 1..])
    else
      false
  }

  /** With a single `@` in `s`, it occurs at one position only. */
  lemma OnlyAt(s: string, p: nat, i: nat)
    requires Count(s, '@') == 1
    requires p < |s| && i < |s| && s[p] == '@' && s[i] == '@'
    ensures i == p
  {
    if i != p {
      var lo, hi := if i < p then i else p, if i < p then p else i;
      assert s[..hi][lo] == '@';
      CountAround(s, hi, '@');
    }
  }

  /** Cut around its only `@` at `p` and at a later position `q`, a string
      without whitespace falls into runs of `[^\s@]` characters. */
  lemma PartsPlain(s: string, p: nat, q: nat)
    requires NoWhitespace(s) && Count(s, '@') == 1 && p < q < |s| && s[p] == '@'
    ensures AllPlain(s[..p]) && AllPlain(s[p + 1..q]) && AllPlain(s[q + 1..])
  {
    forall k | 0 <= k < |s| && k != p ensures Plain(s[k]) {
      if s[k] == '@' {
        OnlyAt(s, p, k);
      }
    }
    var local, domain, top := s[..p], s[p + 1..q], s[q + 1..];
    forall k | 0 <= k < |local| ensures Plain(local[k]) {
      assert local[k] == s[k];
    }
    forall k | 0 <= k < |domain| ensures Plain(domain[k]) {
      assert domain[k] == s[p + 1 + k];
    }
    forall k | 0 <= k < |top| ensures Plain(top[k]) {
      assert top[k] == s[q + 1 + k];
    }
  }

  /** A string without whitespace whose only `@` is at `p` matches with that
      `@` and a `.` at `q`, when both leave non-empty runs around them. */
  lemma MatchOfParts(s: string, p: nat, q: nat)
    requires NoWhitespace(s) && Count(s, '@') == 1
    requires 0 < p && p + 1 < q && q + 1 < |s| && s[p] == '@' && s[q] == '.'
    ensures MatchesAt(s, p, q)
  {
    PartsPlain(s, p, q);
  }

  /** Every string the scanning check accepts matches the regular expression. */
  lemma ValidMatchesRegex(s: string)
    requires IsValidEmail(s)
    ensures MatchesEmailRegex(s)
  {
    var p :| 0 < p < |s| && s[p] == '@' && HasInnerDot(s[p + 1..]);
    var j := InnerDotIndex(s[p + 1..]);
    assert s[p + 1 + j] == s[p + 1..][j];
    MatchOfParts(s, p, p + 1 + j);
  }

  /** A run of `[^\s@]` characters holds no `@`. */
  lemma PlainHasNoAt(t: string)
    requires AllPlain(t)
    ensures Count(t, '@') == 0
  {
  }

  /** A match has exactly one `@`. */
  lemma MatchHasOneAt(s: string, p: int, q: int)
    requires MatchesAt(s, p, q)
    ensures Count(s, '@') == 1
  {
    PlainHasNoAt(s[..p]);
    var d := s[p + 1..];
    forall k | 0 <= k < |d| ensures d[k] != '@' {
      if p + 1 + k < q {
        assert d[k] == s[p + 1..q][k];
      } else if p + 1 + k > q {
        assert d[k] == s[q + 1..][p + k - q];
      }
    }
    CountAround(s, p, '@');
  }

  /** A match holds no whitespace. */
  lemma MatchHasNoWhitespace(s: string, p: int, q: int)
    requires MatchesAt(s, p, q)
    ensures NoWhitespace(s)
  {
    forall k | 0 <= k < |s| ensures !IsWhitespace(s[k]) {
      if k < p { assert s[k] == s[..p][k]; }
      else if p < k < q { assert s[k] == s[p + 1..q][k - p - 1]; }
      else if q < k { assert s[k] == s[q + 1..][k - q - 1]; }
    }
  }

  /** Every string the regular expression matches passes the scanning check. */
  lemma RegexMatchesValid(s: string)
    requires MatchesEmailRegex(s)
    ensures IsValidEmail(s)
  {
    var p, q :| MatchesAt(s, p, q);
    MatchHasOneAt(s, p, q);
    MatchHasNoWhitespace(s, p, q);
    var d := s[p + 1..];
    assert d[1..|d| - 1][q - p - 2] == '.';
    assert 0 < p < |s| && s[p] == '@' && HasInnerDot(d);
  }

  /** The scanning check and the regular expression accept the same strings. */
  lemma EmailMatchesRegex(s: string)
    ensures IsValidEmail(s) <==> MatchesEmailRegex(s)
  {
    if IsValidEmail(s) {
      ValidMatchesRegex(s);
    }
    if MatchesEmailRegex(s) {
      RegexMatchesValid(s);
    }
  }

  /** The pattern is anchored: a string that starts with whitespace never
      matches. */
  lemma LeadingWhitespaceNeverMatches(s: string)
    requires s != [] && IsWhitespace(s[0])
    ensures !MatchesEmailRegex(s)
  {
    forall p, q ensures !MatchesAt(s, p, q) {
      if 0 < p <= |s| {
        assert !Plain(s[..p][0]);
      }
    }
  }

  /** Rejection by the pattern itself: no split of `s` has the required
      shape, because every candidate `@` is too close to the end or every
      candidate `.` is missing. */
  lemma RegexRejectsExamples(s: string)
    requires s == "a@b" || s == "a.b@" || s == "ab.com"
    ensures !MatchesEmailRegex(s)
  {
    forall p, q ensures !MatchesAt(s, p, q) {
      if 0 < p && p + 1 < q && q + 1 < |s| {
        assert s[p] != '@' || s[q] != '.';
      }
    }
  }

  /** Examples: `a@b.co` is accepted; `a@b` (no dot), `a.b@` (empty
      domain) and `ab.com` (no `@`) are not. */
  lemma EmailExamples()
    ensures MatchesEmailRegex("a@b.co")
    ensures !MatchesEmailRegex("a@b") && !MatchesEmailRegex("a.b@") && !MatchesEmailRegex("ab.com")
  {
    assert MatchesAt("a@b.co", 1, 3) by {
      assert "a@b.co"[..1] == "a" && "a@b.co"[2..3] == "b" && "a@b.co"[4..] == "co";
    }
    RegexRejectsExamples("a@b");
    RegexRejectsExamples("a.b@");
    RegexRejectsExamples("ab.com");
  }
}
