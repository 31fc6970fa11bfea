/**
 * Selection of the database connection string (init_db.py:7-10, app.py:10).
 *
 * The URL comes from the environment variable DATABASE_URL, with a local
 * SQLite file as the default. The initialisation script rewrites the legacy
 * scheme `postgres://` (as some hosting platforms still hand it out) to
 * `postgresql://`, using Python's `str.replace(old, new, 1)`; the web
 * application itself reads the variable without that rewrite.
 */
module DatabaseUrl {
  import opened Wrappers

  const DefaultUrl: string := "sqlite:///terarium_data.db"
  const LegacyScheme: string := "postgres://"
  const CurrentScheme: string := "postgresql://"

  predicate StartsWith(s: string, prefix: string) {
    |prefix| <= |s| && s[..|prefix|] == prefix
  }

  /** `pat` occurs in `s` starting at index `k`. */
  predicate MatchesAt(s: string, pat: string, k: nat) {
    k + |pat| <= |s| && s[k..k + |pat|] == pat
  }

  /** `k` is the leftmost index at which `pat` occurs in `s`. */
  predicate IsFirstMatch(s: string, pat: string, k: nat) {
    MatchesAt(s, pat, k) && forall j: nat :: j < k ==> !MatchesAt(s, pat, j)
  }

  predicate Occurs(s: string, pat: string) {
    exists k: nat :: k <= |s| && MatchesAt(s, pat, k)
  }

  /**
   * Python's `s.replace(pat, rep, 1)`: the leftmost occurrence of `pat`, if
   * any, is replaced by `rep`; an empty `pat` matches at index 0.
   */
  function ReplaceFirst(s: string, pat: string, rep: string): (r: string)
    ensures !Occurs(s, pat) ==> r == s
    ensures forall k: nat :: IsFirstMatch(s, pat, k) ==> r == s[..k] + rep + s[k + |pat|..]
    decreases |s|
  {
    if |s| < |pat| then
      s
    else if s[..|pat|] == pat then
      assert MatchesAt(s, pat, 0);
      rep + s[|pat|..]
    else
      assert !MatchesAt(s, pat, 0);
      var tail := ReplaceFirst(s[1..], pat, rep);
      ReplaceFirstStep(s, pat, rep, tail);
      [s[0]] + tail
  }

  /**
   * When `pat` does not occur at index 0, replacing in `s` is replacing in
   * `s[1..]` with `s[0]` put back in front.
   */
  lemma ReplaceFirstStep(s: string, pat: string, rep: string, tail: string)
    requires |s| > 0 && !MatchesAt(s, pat, 0)
    requires !Occurs(s[1..], pat) ==> tail == s[1..]
    requires forall k: nat :: IsFirstMatch(s[1..], pat, k) ==> tail == s[1..][..k] + rep + s[1..][k + |pat|..]
    ensures !Occurs(s, pat) ==> [s[0]] + tail == s
    ensures forall k: nat :: IsFirstMatch(s, pat, k) ==> [s[0]] + tail == s[..k] + rep + s[k + |pat|..]
  {
    ShiftMatch(s, pat);
    forall k: nat | IsFirstMatch(s, pat, k)
      ensures [s[0]] + tail == s[..k] + rep + s[k + |pat|..]
    {
      assert k > 0;
      forall j: nat | j < k - 1 ensures !MatchesAt(s[1..], pat, j) {
        assert !MatchesAt(s, pat, j + 1);
      }
      assert IsFirstMatch(s[1..], pat, k - 1);
      assert s[..k] == [s[0]] + s[1..][..k - 1];
      assert s[k + |pat|..] == s[1..][k - 1 + |pat|..];
    }
  }

  /** Occurrences in `s` after index 0 are exactly the occurrences in `s[1..]`, shifted by one. */
  lemma ShiftMatch(s: string, pat: string)
    requires |s| > 0
    ensures forall k: nat :: MatchesAt(s, pat, k + 1) <==> MatchesAt(s[1..], pat, k)
  {
    forall k: nat ensures MatchesAt(s, pat, k + 1) <==> MatchesAt(s[1..], pat, k) {
      if k + 1 + |pat| <= |s| {
        var a, b := s[k + 1..k + 1 + |pat|], s[1..][k..k + |pat|];
        forall i | 0 <= i < |a| ensures a[i] == b[i] { }
        assert a == b;
      }
    }
  }

  /**
   * The URL rule of init_db.py:8-9: a URL with the legacy scheme gets the
   * current scheme in front of its unchanged remainder, any other URL is kept
   * as it is, and the result never carries the legacy scheme.
   */
  function Normalize(uri: string): (r: string)
    ensures StartsWith(uri, LegacyScheme) ==> r == CurrentScheme + uri[|LegacyScheme|..]
    ensures !StartsWith(uri, LegacyScheme) ==> r == uri
    ensures !StartsWith(r, LegacyScheme)
  {
    if StartsWith(uri, LegacyScheme) then
      assert IsFirstMatch(uri, LegacyScheme, 0);
      var r := ReplaceFirst(uri, LegacyScheme, CurrentScheme);
      assert r[8] == CurrentScheme[8] != LegacyScheme[8];
      r
    else
      uri
  }

  /** Normalising twice is normalising once. */
  lemma NormalizeIdempotent(uri: string)
    ensures Normalize(Normalize(uri)) == Normalize(uri)
  {
    var once := Normalize(uri);
    assert !StartsWith(once, LegacyScheme);
  }

  /**
   * The URL the initialisation script configures (init_db.py:7-10): the
   * SQLite default when DATABASE_URL is unset, which the rewrite leaves
   * alone, and otherwise the supplied URL normalised; never the legacy scheme.
   */
  function InitDbUrl(env: Option<string>): (r: string)
    ensures env.None? ==> r == DefaultUrl
    ensures env.Some? && StartsWith(env.value, LegacyScheme) ==> r == CurrentScheme + env.value[|LegacyScheme|..]
    ensures env.Some? && !StartsWith(env.value, LegacyScheme) ==> r == env.value
    ensures !StartsWith(r, LegacyScheme)
  {
    assert DefaultUrl[0] != LegacyScheme[0];
    Normalize(env.GetOr(DefaultUrl))
  }

  /**
   * The URL the web application configures (app.py:10): the SQLite default
   * when DATABASE_URL is unset, and otherwise the supplied URL verbatim,
   * legacy scheme included.
   */
  function AppUrl(env: Option<string>): (r: string)
    ensures env.None? ==> r == DefaultUrl
    ensures env.Some? ==> r == env.value
  {
    env.GetOr(DefaultUrl)
  }

  /**
   * The two configured URLs agree exactly when the supplied URL does not use
   * the legacy scheme; with it, only the initialisation script rewrites it.
   */
  lemma AppAndInitDbAgreeUnlessLegacy(env: Option<string>)
    ensures AppUrl(env) == InitDbUrl(env) <==> !StartsWith(env.GetOr(DefaultUrl), LegacyScheme)
  {
    var u := env.GetOr(DefaultUrl);
    var r := Normalize(u);
    assert InitDbUrl(env) == r;
    if StartsWith(u, LegacyScheme) {
      assert r == CurrentScheme + u[|LegacyScheme|..];
      assert u[8] == LegacyScheme[8];
      assert r[8] == CurrentScheme[8];
    }
  }
}
