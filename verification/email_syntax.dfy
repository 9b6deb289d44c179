/** The email check of ledgerly/app/api/subscribe/route.ts, the regular
    expression `^[^\s@]+@[^\s@]+\.[^\s@]+$`, as a predicate on characters.
 */
module EmailSyntax {

  /** JavaScript's `\s`: the WhiteSpace and LineTerminator code points. */
  predicate IsWhitespace(c: char) {
    || c == '\t' || c == '\n' || c == '\U{000B}' || c == '\U{000C}' || c == '\r' || c == ' '
    || c == '\U{00A0}' || c == '\U{1680}' || ('\U{2000}' <= c <= '\U{200A}')
    || c == '\U{2028}' || c == '\U{2029}' || c == '\U{202F}' || c == '\U{205F}'
    || c == '\U{3000}' || c == '\U{FEFF}'
  }

  /** The character class `[^\s@]`. */
  predicate IsAtomChar(c: char) {
    c != '@' && !IsWhitespace(c)
  }

  /** Every character is in `[^\s@]`. */
  predicate AllAtom(s: string) {
    forall k | 0 <= k < |s| :: IsAtomChar(s[k])
  }

  /** The index of the first '@' in `s`, or `|s|` when there is none. */
  function FirstAt(s: string): (i: nat)
    ensures i <= |s|
    ensures i < |s| ==> s[i] == '@'
    ensures forall k | 0 <= k < i :: s[k] != '@'
  {
    if s == [] then 0
    else if s[0] == '@' then 0
    else
      var rest := FirstAt(s[1..]);
      assert forall k | 1 <= k < |s| :: s[k] == s[1..][k - 1];
      1 + rest
  }

  /** A '.' that is neither the first nor the last character. */
  predicate HasInnerDot(d: string) {
    exists k | 0 < k < |d| - 1 :: d[k] == '.'
  }

  /** The validator: a non-empty local part free of whitespace and '@', one
      '@', then a domain free of whitespace and '@' holding an inner '.'. */
  predicate IsValidEmail(s: string) {
    var i := FirstAt(s);
    && 0 < i < |s|
    && AllAtom(s[..i])
    && AllAtom(s[i + 1..])
    && HasInnerDot(s[i + 1..])
  }

  /** What the regular expression matches, read off its shape: three
      non-empty runs of `[^\s@]` separated by an '@' and then a '.'. */
  ghost predicate MatchesPattern(s: string) {
    exists i, j | 0 < i && i + 1 < j && j + 1 < |s| ::
      && s[i] == '@' && s[j] == '.'
      && AllAtom(s[..i]) && AllAtom(s[i + 1..j]) && AllAtom(s[j + 1..])
  }

  /** The first '@' is the one whose prefix holds no '@'. */
  lemma FirstAtAfterAtomPrefix(s: string, i: nat)
    requires i < |s| && s[i] == '@' && AllAtom(s[..i])
    ensures FirstAt(s) == i
  {
  }

  lemma ValidEmailIsMatched(s: string)
    requires IsValidEmail(s)
    ensures MatchesPattern(s)
  {
    var i := FirstAt(s);
    var d := s[i + 1..];
    var k :| 0 < k < |d| - 1 && d[k] == '.';
    var j := i + 1 + k;
    var host, tld := d[..k], d[k + 1..];
    assert s[i + 1..j] == host;
    assert s[j + 1..] == tld;
    assert AllAtom(host) by {
      forall m | 0 <= m < |host| ensures IsAtomChar(host[m]) {
        assert host[m] == d[m];
      }
    }
    assert AllAtom(tld) by {
      forall m | 0 <= m < |tld| ensures IsAtomChar(tld[m]) {
        assert tld[m] == d[k + 1 + m];
      }
    }
    assert s[i] == '@' && s[j] == '.';
  }

  lemma MatchedIsValidEmail(s: string)
    requires MatchesPattern(s)
    ensures IsValidEmail(s)
  {
    var i, j :| 0 < i && i + 1 < j && j + 1 < |s|
      && s[i] == '@' && s[j] == '.'
      && AllAtom(s[..i]) && AllAtom(s[i + 1..j]) && AllAtom(s[j + 1..]);
    FirstAtAfterAtomPrefix(s, i);
    var d, host, tld := s[i + 1..], s[i + 1..j], s[j + 1..];
    assert AllAtom(d) by {
      forall m | 0 <= m < |d| ensures IsAtomChar(d[m]) {
        if i + 1 + m < j {
          assert d[m] == host[m];
        } else if i + 1 + m > j {
          assert d[m] == tld[m - (j - i)];
        }
      }
    }
    assert d[j - i - 1] == '.';
  }

  /** The validator accepts exactly the strings the regular expression matches. */
  lemma ValidEmailMatchesPattern(s: string)
    ensures IsValidEmail(s) <==> MatchesPattern(s)
  {
    if IsValidEmail(s) {
      ValidEmailIsMatched(s);
    }
    if MatchesPattern(s) {
      MatchedIsValidEmail(s);
    }
  }

  /** A string without '@' is rejected. */
  lemma RejectsWithoutAt(s: string)
    requires forall k | 0 <= k < |s| :: s[k] != '@'
    ensures !IsValidEmail(s)
  {
  }

  /** A string with no '.' anywhere after an '@' is rejected. */
  lemma RejectsWithoutDomainDot(s: string)
    requires forall i, j | 0 <= i < j < |s| && s[i] == '@' :: s[j] != '.'
    ensures !IsValidEmail(s)
  {
  }

  /** Every `local@host.tld` whose three parts are non-empty runs of
      `[^\s@]` is accepted (the host may itself contain dots). */
  lemma AcceptsDottedAddress(local: string, host: string, tld: string)
    requires |local| > 0 && |host| > 0 && |tld| > 0
    requires AllAtom(local) && AllAtom(host) && AllAtom(tld)
    ensures IsValidEmail(local + "@" + host + "." + tld)
  {
    var s := local + "@" + host + "." + tld;
    var i := |local|;
    var j := |local| + 1 + |host|;
    assert s[..i] == local;
    assert s[i + 1..j] == host;
    assert s[j + 1..] == tld;
    assert s[i] == '@' && s[j] == '.';
    ValidEmailMatchesPattern(s);
  }
}
