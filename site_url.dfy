/**
 * `getSiteUrl`: the site's base address, taken from `NEXT_PUBLIC_SITE_URL`,
 * else from `VERCEL_URL` with an `https://` prefix, else the local
 * development address, with any trailing slashes removed.
 *
 * The two environment variables are parameters; `None` is an unset
 * variable and `Some("")` one set to the empty string.
 */
module SiteUrl {
  import opened Text

  const LocalUrl: string := "http://localhost:3000"
  const HttpsPrefix: string := "https://"

  /** Every character is a slash. */
  ghost predicate AllSlashes(s: string) {
    forall i :: 0 <= i < |s| ==> s[i] == '/'
  }

  /**
   * `s.replace(/\/+$/, "")`: `s` without the run of slashes at its end. The
   * result is a prefix of `s`, what was cut off is slashes only, and the
   * result does not end with a slash.
   */
  function StripTrailingSlashes(s: string): (r: string)
    ensures |r| <= |s| && r == s[..|r|]
    ensures AllSlashes(s[|r|..])
    ensures r == [] || r[|r| - 1] != '/'
    decreases |s|
  {
    if |s| > 0 && s[|s| - 1] == '/' then
      var r := StripTrailingSlashes(s[..|s| - 1]);
      assert s[|r|..] == s[..|s| - 1][|r|..] + ['/'];
      r
    else s
  }

  /** The strip is determined by its contract: a text followed by slashes strips to that text. */
  lemma {:induction false} StripTrailingSlashesUnique(t: string, slashes: string)
    requires AllSlashes(slashes) && (t == [] || t[|t| - 1] != '/')
    ensures StripTrailingSlashes(t + slashes) == t
    decreases |slashes|
  {
    if slashes != [] {
      var init := slashes[..|slashes| - 1];
      assert (t + slashes)[..|t + slashes| - 1] == t + init;
      StripTrailingSlashesUnique(t, init);
    } else {
      assert t + slashes == t;
    }
  }

  /** The strip keeps every character up to the last one that is not a slash. */
  lemma StripKeepsNonSlash(s: string, p: nat)
    requires p < |s| && s[p] != '/'
    ensures p < |StripTrailingSlashes(s)|
  {
    var r := StripTrailingSlashes(s);
    forall i | |r| <= i < |s| ensures s[i] == '/' {
      assert s[|r|..][i - |r|] == s[i];
    }
  }

  /** Stripping twice strips nothing more. */
  lemma StripTrailingSlashesIdempotent(s: string)
    ensures StripTrailingSlashes(StripTrailingSlashes(s)) == StripTrailingSlashes(s)
  {
    var r := StripTrailingSlashes(s);
    StripTrailingSlashesUnique(r, []);
    assert r + [] == r;
  }

  /**
   * The configured value: `NEXT_PUBLIC_SITE_URL` when it is set at all,
   * otherwise `https://` and `VERCEL_URL` when that is set and not empty.
   */
  function Configured(nextPublicSiteUrl: Option<string>, vercelUrl: Option<string>): Option<string> {
    if nextPublicSiteUrl.Some? then nextPublicSiteUrl
    else if vercelUrl.Some? && vercelUrl.value != "" then Some(HttpsPrefix + vercelUrl.value)
    else None
  }

  /** `getSiteUrl()` */
  function GetSiteUrl(nextPublicSiteUrl: Option<string>, vercelUrl: Option<string>): (r: string)
    ensures r == [] || r[|r| - 1] != '/'
  {
    var configured := Configured(nextPublicSiteUrl, vercelUrl);
    if configured.None? || configured.value == "" then LocalUrl
    else StripTrailingSlashes(configured.value)
  }

  /** With nothing configured, or with the chosen value empty, the local address is used. */
  lemma SiteUrlDefault(nextPublicSiteUrl: Option<string>, vercelUrl: Option<string>)
    requires nextPublicSiteUrl == Some("")
             || (nextPublicSiteUrl.None? && (vercelUrl.None? || vercelUrl == Some("")))
    ensures GetSiteUrl(nextPublicSiteUrl, vercelUrl) == "http://localhost:3000"
  {
  }

  /**
   * `NEXT_PUBLIC_SITE_URL`, once set, decides the result whatever
   * `VERCEL_URL` holds, even when it is set to the empty string.
   */
  lemma SiteUrlPrefersPublic(url: string, vercelUrl: Option<string>, otherVercelUrl: Option<string>)
    ensures GetSiteUrl(Some(url), vercelUrl) == GetSiteUrl(Some(url), otherVercelUrl)
    ensures url != "" ==> GetSiteUrl(Some(url), vercelUrl) == StripTrailingSlashes(url)
  {
  }

  /**
   * Without `NEXT_PUBLIC_SITE_URL`, a non-empty `VERCEL_URL` is served over
   * https; the prefix survives the strip unless the value is all slashes.
   */
  lemma SiteUrlFromVercel(vercelUrl: string)
    requires vercelUrl != ""
    ensures GetSiteUrl(None, Some(vercelUrl)) == StripTrailingSlashes(HttpsPrefix + vercelUrl)
    ensures !AllSlashes(vercelUrl) ==>
              |GetSiteUrl(None, Some(vercelUrl))| > |HttpsPrefix|
              && GetSiteUrl(None, Some(vercelUrl))[..|HttpsPrefix|] == HttpsPrefix
  {
    var s := HttpsPrefix + vercelUrl;
    var r := StripTrailingSlashes(s);
    if !AllSlashes(vercelUrl) {
      var i :| 0 <= i < |vercelUrl| && vercelUrl[i] != '/';
      var p := |HttpsPrefix| + i;
      assert s[p] == vercelUrl[i];
      StripKeepsNonSlash(s, p);
      assert r[..|HttpsPrefix|] == s[..|HttpsPrefix|];
    }
  }

  /** The result is the configured value with only its trailing slashes removed. */
  lemma SiteUrlStripsOnlySlashes(nextPublicSiteUrl: Option<string>, vercelUrl: Option<string>)
    requires Configured(nextPublicSiteUrl, vercelUrl).Some? && Configured(nextPublicSiteUrl, vercelUrl).value != ""
    ensures var c := Configured(nextPublicSiteUrl, vercelUrl).value;
            var r := GetSiteUrl(nextPublicSiteUrl, vercelUrl);
            c == r + c[|r|..] && AllSlashes(c[|r|..])
    ensures StripTrailingSlashes(GetSiteUrl(nextPublicSiteUrl, vercelUrl)) == GetSiteUrl(nextPublicSiteUrl, vercelUrl)
  {
    var c := Configured(nextPublicSiteUrl, vercelUrl).value;
    var r := StripTrailingSlashes(c);
    assert c == r + c[|r|..];
    StripTrailingSlashesIdempotent(c);
  }
}
