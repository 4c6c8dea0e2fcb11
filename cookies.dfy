/** Replaying the stored session cookies (`load_cookies`): each stored cookie
    is added to the browser session unless it names a domain that does not
    occur in the target URL. */
module Cookies {
  import opened Text

  /** A stored cookie; `domain` is `None` when the record has no "domain" key. */
  datatype Cookie = Cookie(name: string, value: string, domain: Option<string>)

  datatype Option<T> = None | Some(value: T)

  /** What the cookie file holds when the run starts. */
  datatype CookieStore = NoFile | Corrupted | Stored(cookies: seq<Cookie>)

  /** The skip test of the loop: a cookie is added unless it has a domain
      and that domain is not a substring of the URL. */
  predicate Applies(c: Cookie, url: string) {
    c.domain.None? || Contains(url, c.domain.value)
  }

  /** The cookies the loop adds, in the order they are stored. */
  function Applicable(cookies: seq<Cookie>, url: string): (applied: seq<Cookie>)
    ensures |applied| <= |cookies|
    ensures forall k | 0 <= k < |applied| :: Applies(applied[k], url) && applied[k] in cookies
  {
    if cookies == [] then []
    else
      var last := cookies[|cookies| - 1];
      Applicable(cookies[..|cookies| - 1], url) + (if Applies(last, url) then [last] else [])
  }

  /** The loop over the stored cookies: `applied` is the sequence of
      `add_cookie` calls the loop makes, in call order. */
  method ApplyCookies(cookies: seq<Cookie>, url: string) returns (applied: seq<Cookie>)
    ensures applied == Applicable(cookies, url)
  {
    applied := [];
    for i := 0 to |cookies|
      invariant applied == Applicable(cookies[..i], url)
    {
      assert cookies[..i + 1][..i] == cookies[..i];
      var cookie := cookies[i];
      if cookie.domain.Some? && !Contains(url, cookie.domain.value) {
        continue;
      }
      applied := applied + [cookie];
    }
    assert cookies[..|cookies|] == cookies;
  }

  /** `load_cookies` as a whole: `None` when the run stops (no cookie file, a
      file that cannot be unpickled, or a page that fails to load before the
      cookies are added, whose exception nothing catches), otherwise the
      cookies added to the session. */
  method LoadCookies(store: CookieStore, url: string, pageLoads: bool) returns (r: Option<seq<Cookie>>)
    ensures r.Some? <==> store.Stored? && pageLoads
    ensures r.Some? ==> r.value == Applicable(store.cookies, url)
  {
    match store {
      case NoFile => r := None;
      case Corrupted => r := None;
      case Stored(cookies) =>
        if !pageLoads {
          return None;
        }
        var applied := ApplyCookies(cookies, url);
        r := Some(applied);
    }
  }

  /** The filter keeps the stored order: the cookies applied from two
      consecutive stretches of the store are those of the first, then those of the second. */
  lemma {:induction false} ApplicableAppend(a: seq<Cookie>, b: seq<Cookie>, url: string)
    ensures Applicable(a + b, url) == Applicable(a, url) + Applicable(b, url)
    decreases |b|
  {
    if b == [] {
      assert a + b == a;
    } else {
      var b' := b[..|b| - 1];
      assert (a + b)[..|a + b| - 1] == a + b';
      assert (a + b)[|a + b| - 1] == b[|b| - 1];
      ApplicableAppend(a, b', url);
    }
  }

  /** A cookie is applied exactly when it is stored and passes the domain
      test; in particular a cookie without a domain is always applied. */
  lemma {:induction false} ApplicableMember(cookies: seq<Cookie>, url: string, c: Cookie)
    ensures c in Applicable(cookies, url) <==> c in cookies && Applies(c, url)
    ensures c in cookies && c.domain.None? ==> c in Applicable(cookies, url)
  {
    if cookies != [] {
      var init := cookies[..|cookies| - 1];
      ApplicableMember(init, url, c);
      assert cookies == init + [cookies[|cookies| - 1]];
    }
  }

  /** A cookie whose domain is "other.com" is skipped for a URL on "site.com". */
  lemma ForeignDomainSkipped(c: Cookie, url: string)
    requires c.domain == Some("other.com") && url == "https://site.com"
    ensures Applicable([c], url) == []
  {
    assert forall i | 0 <= i <= |url| - 9 :: url[i] != 'o';
    MissingFirstCharacter(url, "other.com");
    assert [c][..0] == [];
  }
}
