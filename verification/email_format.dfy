/** The e-mail address check shared by signup and forgotPassword:
    the JavaScript regular expression  /^[^\s@]+@[^\s@]+\.[^\s@]+$/  with no flags. */
module EmailFormat {

  /** The regular-expression class `\s` of ECMAScript 2015 and later: the WhiteSpace
      code points (TAB, VT, FF, SP, NBSP, ZWNBSP and the Unicode category Zs) and the
      LineTerminator code points (LF, CR, LS, PS). */
  function IsRegexSpace(c: char): (r: bool)
    ensures c == ' ' || c == '\t' || c == '\n' || c == '\r' ==> r
    ensures r ==> c != '@' && c != '.'
    ensures r ==> !('0' <= c <= '9') && !('a' <= c <= 'z') && !('A' <= c <= 'Z')
  {
    var n := c as int;
    || n == 0x09 || n == 0x0A || n == 0x0B || n == 0x0C || n == 0x0D
    || n == 0x20 || n == 0xA0 || n == 0x1680
    || (0x2000 <= n <= 0x200A)
    || n == 0x2028 || n == 0x2029 || n == 0x202F || n == 0x205F
    || n == 0x3000 || n == 0xFEFF
  }

  /** The character class `[^\s@]`. */
  predicate IsAddressChar(c: char) {
    c != '@' && !IsRegexSpace(c)
  }

  /** Every character of `s` is in `[^\s@]`. */
  predicate AllAddressChars(s: string) {
    forall k | 0 <= k < |s| :: IsAddressChar(s[k])
  }

  /** The pattern matches `s` with its '@' at index `a` and the '.' that ends the
      domain at index `d`: `s[..a]`, `s[a+1..d]` and `s[d+1..]` are the three `[^\s@]+` runs. */
  predicate MatchesAt(s: string, a: int, d: int) {
    && 0 < a && a + 1 < d < |s| - 1
    && s[a] == '@' && s[d] == '.'
    && AllAddressChars(s[..a]) && AllAddressChars(s[a + 1..d]) && AllAddressChars(s[d + 1..])
  }

  /** `emailRegex.test(s)`: some choice of the '@' and of the separating '.' matches. */
  function IsEmailFormat(s: string): (r: bool)
    ensures r ==> |s| >= 5
    ensures r ==> s[0] != '@' && !IsRegexSpace(s[0])
    ensures r ==> s[|s| - 1] != '@' && !IsRegexSpace(s[|s| - 1])
  {
    exists a, d | 0 < a < |s| && a + 1 < d < |s| - 1 :: MatchesAt(s, a, d)
  }

  /** Gluing three non-empty `[^\s@]` runs around '@' and '.' always gives a match. */
  lemma PartsMatch(local: string, domain: string, tld: string)
    requires |local| > 0 && |domain| > 0 && |tld| > 0
    requires AllAddressChars(local) && AllAddressChars(domain) && AllAddressChars(tld)
    ensures IsEmailFormat(local + "@" + domain + "." + tld)
  {
    var s := local + "@" + domain + "." + tld;
    var a := |local|;
    var d := |local| + 1 + |domain|;
    assert s[..a] == local;
    assert s[a + 1..d] == domain;
    assert s[d + 1..] == tld;
    assert MatchesAt(s, a, d);
  }

  /** Every match splits back into the three runs, so the pattern is exactly the set
      of strings `local@domain.tld` with `[^\s@]+` parts. */
  lemma SplitEmail(s: string) returns (local: string, domain: string, tld: string)
    requires IsEmailFormat(s)
    ensures s == local + "@" + domain + "." + tld
    ensures |local| > 0 && |domain| > 0 && |tld| > 0
    ensures AllAddressChars(local) && AllAddressChars(domain) && AllAddressChars(tld)
  {
    var a, d :| 0 < a < |s| && a + 1 < d < |s| - 1 && MatchesAt(s, a, d);
    local, domain, tld := s[..a], s[a + 1..d], s[d + 1..];
    assert s == s[..a] + [s[a]] + s[a + 1..d] + [s[d]] + s[d + 1..];
  }

  /** A matching address holds exactly one '@' and no white space. */
  lemma MatchHasSingleAt(s: string, a: int, d: int)
    requires MatchesAt(s, a, d)
    ensures forall k | 0 <= k < |s| && k != a :: IsAddressChar(s[k])
    ensures forall k | 0 <= k < |s| :: s[k] == '@' <==> k == a
  {
    forall k | 0 <= k < |s| && k != a
      ensures IsAddressChar(s[k])
    {
      if k < a {
        assert s[k] == s[..a][k];
      } else if k < d {
        assert s[k] == s[a + 1..d][k - a - 1];
      } else if k > d {
        assert s[k] == s[d + 1..][k - d - 1];
      }
    }
  }

  /** A slice whose characters are all in `[^\s@]`. */
  lemma SliceAddressChars(s: string, lo: int, hi: int)
    requires 0 <= lo <= hi <= |s|
    requires forall k | lo <= k < hi :: IsAddressChar(s[k])
    ensures AllAddressChars(s[lo..hi])
  {
    forall k | 0 <= k < hi - lo
      ensures IsAddressChar(s[lo..hi][k])
    {
      assert s[lo..hi][k] == s[lo + k];
    }
  }

  /** A single left-to-right pass deciding the pattern in linear time: it remembers
      the first '@', the first '.' that can end a non-empty domain, and whether every
      other character so far is in `[^\s@]`. */
  method ScanEmail(s: string) returns (ok: bool)
    ensures ok <==> IsEmailFormat(s)
  {
    var at := -1;
    var dot := -1;
    var clean := true;
    var i := 0;
    while i < |s|
      invariant 0 <= i <= |s|
      invariant -1 <= at < i
      invariant at == -1 ==> forall k | 0 <= k < i :: s[k] != '@'
      invariant at >= 0 ==> s[at] == '@' && forall k | 0 <= k < at :: s[k] != '@'
      invariant clean <==> forall k | 0 <= k < i && k != at :: IsAddressChar(s[k])
      invariant dot != -1 ==> 0 <= at && at + 2 <= dot < i && s[dot] == '.'
      invariant dot == -1 && at >= 0 ==> forall k | at + 2 <= k < i :: s[k] != '.'
      invariant dot != -1 ==> forall k | at + 2 <= k < dot :: s[k] != '.'
    {
      var c := s[i];
      if c == '@' && at == -1 {
        at := i;
      } else {
        if !IsAddressChar(c) {
          clean := false;
        }
        if c == '.' && at >= 0 && dot == -1 && i >= at + 2 {
          dot := i;
        }
      }
      i := i + 1;
    }
    ok := clean && at > 0 && dot != -1 && dot < |s| - 1;
    if ok {
      SliceAddressChars(s, 0, at);
      SliceAddressChars(s, at + 1, dot);
      SliceAddressChars(s, dot + 1, |s|);
      assert s[dot + 1..|s|] == s[dot + 1..];
      assert MatchesAt(s, at, dot);
    }
    if IsEmailFormat(s) {
      var a, d :| 0 < a < |s| && a + 1 < d < |s| - 1 && MatchesAt(s, a, d);
      MatchHasSingleAt(s, a, d);
      assert at == a;
      assert s[d] == '.';
    }
  }
}
