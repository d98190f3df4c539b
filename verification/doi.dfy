/** The DOI pattern `10\.\d{4,}\/[^\s]+` that the link formatter and the
    importer both search URLs for, with the leftmost, greedy match a
    JavaScript regular expression makes. */
module Doi {
  import opened Base
  import opened Strings

  /** Every character is one `[^\s]` matches. */
  predicate NoSpace(s: string) {
    forall i :: 0 <= i < |s| ==> !IsSpace(s[i])
  }

  /** `t` is, as a whole, a match of `\d{4,}\/[^\s]+`, read left to right
      after `digits` digits have been read. */
  predicate Registrant(t: string, digits: nat)
    decreases |t|
  {
    if |t| == 0 then false
    else if IsDigit(t[0]) then Registrant(t[1..], digits + 1)
    else t[0] == '/' && digits >= 4 && |t| > 1 && NoSpace(t[1..])
  }

  /** `d` is, as a whole, a match of the pattern. */
  predicate IsDoi(d: string) {
    |d| >= 3 && d[0] == '1' && d[1] == '0' && d[2] == '.' && Registrant(d[3..], 0)
  }

  /** A registrant part is its digit run, the "/" and a non-empty
      whitespace-free rest. */
  lemma {:induction false} RegistrantParts(t: string, digits: nat)
    requires Registrant(t, digits)
    ensures var k := LeadingDigits(t);
      && k + 1 < |t| && t[k] == '/' && digits + k >= 4 && NoSpace(t[k + 1..])
  {
    if IsDigit(t[0]) {
      RegistrantParts(t[1..], digits + 1);
    }
  }

  lemma {:induction false} PartsRegistrant(t: string, k: nat, digits: nat)
    requires k + 1 < |t| && AllDigits(t[..k]) && t[k] == '/'
    requires digits + k >= 4 && NoSpace(t[k + 1..])
    ensures Registrant(t, digits)
  {
    if k > 0 {
      assert IsDigit(t[..k][0]);
      assert t[1..][..k - 1] == t[..k][1..];
      assert t[1..][k..] == t[k + 1..];
      PartsRegistrant(t[1..], k - 1, digits + 1);
    }
  }

  /** The length of the run of non-whitespace characters `s` starts with. */
  function NonSpaceRun(s: string): (n: nat)
    ensures n <= |s|
    ensures n < |s| ==> IsSpace(s[n])
  {
    if |s| > 0 && !IsSpace(s[0]) then NonSpaceRun(s[1..]) + 1 else 0
  }

  lemma {:induction false} NonSpaceRunNoSpace(s: string)
    ensures NoSpace(s[..NonSpaceRun(s)])
  {
    if |s| > 0 && !IsSpace(s[0]) {
      var k := NonSpaceRun(s[1..]);
      NonSpaceRunNoSpace(s[1..]);
      assert s[..k + 1] == [s[0]] + s[1..][..k];
    }
  }

  lemma {:induction false} NonSpaceRunAtLeast(s: string, m: nat)
    requires m <= |s| && NoSpace(s[..m])
    ensures NonSpaceRun(s) >= m
  {
    if m > 0 {
      assert !IsSpace(s[..m][0]);
      assert s[1..][..m - 1] == s[..m][1..];
      NonSpaceRunAtLeast(s[1..], m - 1);
    }
  }

  /** The length of the match of `\d{4,}\/[^\s]+` at the start of `u`: the
      digit run must end at the "/", and `[^\s]+` takes every non-whitespace
      character after it. */
  function RegistrantLength(u: string): (r: Option<nat>)
    ensures r.Some? ==> r.value <= |u|
  {
    var k := LeadingDigits(u);
    if k < 4 || k == |u| || u[k] != '/' then None
    else
      var m := NonSpaceRun(u[k + 1..]);
      if m == 0 then None else Some(k + 1 + m)
  }

  /** The length of the match of the whole pattern at the start of `t`. */
  function PatternAt(t: string): (r: Option<nat>)
    ensures r.Some? ==> r.value <= |t|
  {
    if |t| < 3 || t[0] != '1' || t[1] != '0' || t[2] != '.' then None
    else
      match RegistrantLength(t[3..])
      case None => None
      case Some(n) => Some(3 + n)
  }

  /** The length of the match that starts at index `i` of `s`, if one does. */
  function MatchAt(s: string, i: nat): (r: Option<nat>)
    requires i <= |s|
    ensures r.Some? ==> i + r.value <= |s|
  {
    PatternAt(s[i..])
  }

  lemma RegistrantLengthSound(u: string)
    requires RegistrantLength(u).Some?
    ensures var n := RegistrantLength(u).value;
      Registrant(u[..n], 0) && (n == |u| || IsSpace(u[n]))
  {
    var k := LeadingDigits(u);
    var m := NonSpaceRun(u[k + 1..]);
    NonSpaceRunNoSpace(u[k + 1..]);
    var d := u[..k + 1 + m];
    assert d[..k] == u[..k];
    assert d[k + 1..] == u[k + 1..][..m];
    PartsRegistrant(d, k, 0);
  }

  lemma RegistrantLengthComplete(u: string, j: nat)
    requires j <= |u| && Registrant(u[..j], 0)
    ensures RegistrantLength(u).Some? && RegistrantLength(u).value >= j
  {
    var d := u[..j];
    RegistrantParts(d, 0);
    var k := LeadingDigits(d);
    assert u[..k] == d[..k];
    LeadingDigitsExact(u, k);
    assert u[k + 1..][..j - k - 1] == d[k + 1..];
    NonSpaceRunAtLeast(u[k + 1..], j - k - 1);
  }

  /** A match at the start of `t` is a DOI that ends at whitespace or at the
      end. */
  lemma PatternAtIsDoi(t: string)
    requires PatternAt(t).Some?
    ensures IsDoi(t[..PatternAt(t).value])
    ensures var e := PatternAt(t).value; e == |t| || IsSpace(t[e])
  {
    var n := RegistrantLength(t[3..]).value;
    RegistrantLengthSound(t[3..]);
    assert t[..3 + n][3..] == t[3..][..n];
  }

  /** Wherever a DOI starts, the matcher finds a match at least as long. */
  lemma DoiIsPattern(t: string, j: nat)
    requires j <= |t| && IsDoi(t[..j])
    ensures PatternAt(t).Some? && PatternAt(t).value >= j
  {
    assert t[..j][3..] == t[3..][..j - 3];
    RegistrantLengthComplete(t[3..], j - 3);
  }

  /** The first index `a` from `i` to `n` at which `f` finds a match, as the
      span `(a, a + length)`. */
  function FirstMatch(f: nat -> Option<nat>, i: nat, n: nat): Option<(nat, nat)>
    requires i <= n
    decreases n - i
  {
    match f(i)
    case Some(len) => Some((i, i + len))
    case None => if i == n then None else FirstMatch(f, i + 1, n)
  }

  lemma {:induction false} FirstMatchNone(f: nat -> Option<nat>, i: nat, n: nat)
    requires i <= n && FirstMatch(f, i, n).None?
    ensures forall a :: i <= a <= n ==> f(a).None?
    decreases n - i
  {
    if i < n {
      FirstMatchNone(f, i + 1, n);
    }
  }

  lemma {:induction false} FirstMatchSome(f: nat -> Option<nat>, i: nat, n: nat, a: nat, b: nat)
    requires i <= n && FirstMatch(f, i, n) == Some((a, b))
    ensures i <= a <= n && f(a) == Some(b - a)
    ensures forall a' :: i <= a' < a ==> f(a').None?
    decreases n - i
  {
    if f(i).None? {
      FirstMatchSome(f, i + 1, n, a, b);
    }
  }

  /** The matcher as a function of the start index. */
  function Matcher(s: string): nat -> Option<nat> {
    (a: nat) => if a <= |s| then MatchAt(s, a) else None
  }

  /** `s.match(/10\.\d{4,}\/[^\s]+/)`, as the span `(start, end)` of the match. */
  function Search(s: string): Option<(nat, nat)> {
    FirstMatch(Matcher(s), 0, |s|)
  }

  /** A match found at `i` is a DOI that ends at whitespace or at the end. */
  lemma MatchAtIsDoi(s: string, i: nat, e: nat)
    requires i <= e <= |s| && MatchAt(s, i) == Some(e - i)
    ensures IsDoi(s[i..e])
    ensures e == |s| || IsSpace(s[e])
  {
    PatternAtIsDoi(s[i..]);
    assert s[i..][..e - i] == s[i..e];
  }

  /** Wherever a DOI starts, the matcher finds a match at least as long. */
  lemma DoiMatches(s: string, i: nat, j: nat)
    requires i <= j <= |s| && IsDoi(s[i..j])
    ensures MatchAt(s, i).Some? && i + MatchAt(s, i).value >= j
  {
    assert s[i..][..j - i] == s[i..j];
    DoiIsPattern(s[i..], j - i);
  }

  /** No DOI starts where the matcher finds none. */
  lemma NoMatchNoDoi(s: string, a: nat)
    requires a <= |s| && MatchAt(s, a).None?
    ensures forall b :: a <= b <= |s| ==> !IsDoi(s[a..b])
  {
    forall b | a <= b <= |s| ensures !IsDoi(s[a..b]) {
      if IsDoi(s[a..b]) {
        DoiMatches(s, a, b);
      }
    }
  }

  /** Where no match starts in a range, no DOI lies in it. */
  lemma NoMatchesNoDoi(s: string, lo: nat, hi: nat)
    requires lo <= hi <= |s|
    requires forall a :: lo <= a < hi ==> Matcher(s)(a).None?
    ensures forall a, b :: lo <= a < hi && a <= b <= |s| ==> !IsDoi(s[a..b])
  {
    forall a, b | lo <= a < hi && a <= b <= |s| ensures !IsDoi(s[a..b]) {
      assert Matcher(s)(a).None?;
      NoMatchNoDoi(s, a);
    }
  }

  /** The search finds nothing only when no substring is a DOI. */
  lemma SearchNone(s: string)
    ensures Search(s).None? <==> forall a, b :: 0 <= a <= b <= |s| ==> !IsDoi(s[a..b])
  {
    if Search(s).None? {
      FirstMatchNone(Matcher(s), 0, |s|);
      NoMatchesNoDoi(s, 0, |s|);
      assert Matcher(s)(|s|).None?;
      NoMatchNoDoi(s, |s|);
    } else {
      SearchSome(s, Search(s).value.0, Search(s).value.1);
    }
  }

  /** The search finds the leftmost DOI and extends it as far as `[^\s]+`
      reaches. */
  lemma SearchSome(s: string, a: nat, b: nat)
    requires Search(s) == Some((a, b))
    ensures a <= b <= |s|
    ensures IsDoi(s[a..b])
    ensures b == |s| || IsSpace(s[b])
    ensures forall a', b' :: 0 <= a' < a && a' <= b' <= |s| ==> !IsDoi(s[a'..b'])
    ensures forall b' :: b < b' <= |s| ==> !IsDoi(s[a..b'])
  {
    SearchStart(s, a, b);
    MatchAtIsDoi(s, a, b);
    MatchIsLongest(s, a, b);
  }

  /** Where the search stops a match starts, and no DOI starts before it. */
  lemma SearchStart(s: string, a: nat, b: nat)
    requires Search(s) == Some((a, b))
    ensures a <= b <= |s| && MatchAt(s, a) == Some(b - a)
    ensures forall a', b' :: 0 <= a' < a && a' <= b' <= |s| ==> !IsDoi(s[a'..b'])
  {
    FirstMatchSome(Matcher(s), 0, |s|, a, b);
    assert Matcher(s)(a) == Some(b - a);
    NoMatchesNoDoi(s, 0, a);
  }

  /** No DOI starting where a match starts is longer than the match. */
  lemma MatchIsLongest(s: string, a: nat, b: nat)
    requires a <= b <= |s| && MatchAt(s, a) == Some(b - a)
    ensures forall b' :: b < b' <= |s| ==> !IsDoi(s[a..b'])
  {
    forall b' | b < b' <= |s| ensures !IsDoi(s[a..b']) {
      if IsDoi(s[a..b']) {
        DoiMatches(s, a, b');
      }
    }
  }

  /** `extractDOI`: the first match in the URL, or `None` for an empty URL
      or when nothing matches. */
  function ExtractDoi(url: string): (r: Option<string>)
    ensures url == "" ==> r.None?
    ensures r.Some? ==> IsDoi(r.value) && NoSpace(r.value) && StartsWith(r.value, "10.")
  {
    if url == "" then None
    else
      match Search(url)
      case None => None
      case Some(span) =>
        SearchSome(url, span.0, span.1);
        DoiNoSpace(url[span.0..span.1]);
        Some(url[span.0..span.1])
  }

  /** A DOI starts with "10." and holds no whitespace. */
  lemma DoiNoSpace(d: string)
    requires IsDoi(d)
    ensures NoSpace(d) && StartsWith(d, "10.")
  {
    var u := d[3..];
    RegistrantParts(u, 0);
    var k := LeadingDigits(u);
    forall j | 0 <= j < |d| ensures !IsSpace(d[j]) {
      if j >= 4 + k {
        assert d[j] == u[k + 1..][j - 4 - k];
      } else if 3 <= j < 3 + k {
        assert d[j] == u[..k][j - 3];
      } else if j < 3 {
        assert d[j] == d[..3][j];
      }
    }
  }

  /** `extractDOI` returns nothing exactly when no part of the URL is a DOI. */
  lemma ExtractDoiNone(url: string)
    ensures ExtractDoi(url).None? <==> forall a, b :: 0 <= a <= b <= |url| ==> !IsDoi(url[a..b])
  {
    SearchNone(url);
    if url == "" {
      forall a, b | 0 <= a <= b <= |url| ensures !IsDoi(url[a..b]) {
        assert |url[a..b]| == 0;
      }
    }
  }
}
