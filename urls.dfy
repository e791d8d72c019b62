/**
 * URL logic shared by the three scripts: the Medium-domain test of the popup
 * (and its inline copy in the background script), the Freedium redirect
 * address, and the homepage test of the content script.
 */
module Urls {
  import opened Base
  import opened Strings

  /** The domains the popup recognises, in its configured order. */
  const MediumDomains: seq<string> := ["medium.com", "towardsdatascience.com"]

  /** The redirect service every redirect goes through. */
  const RedirectPrefix: string := "https://freedium.cfd/"

  /** `domains.some(d => url.includes(d))`, scanning the list left to right. */
  predicate SomeContains(url: string, domains: seq<string>)
    decreases |domains|
  {
    |domains| > 0 && (Contains(url, domains[0]) || SomeContains(url, domains[1..]))
  }

  /** `SomeContains` is an existential over the list. */
  lemma {:induction false} SomeContainsIffExists(url: string, domains: seq<string>)
    ensures SomeContains(url, domains) <==> exists k :: 0 <= k < |domains| && Contains(url, domains[k])
    decreases |domains|
  {
    if |domains| > 0 {
      SomeContainsIffExists(url, domains[1..]);
      forall k | 0 <= k < |domains| - 1 ensures domains[1..][k] == domains[k + 1] { }
      if Contains(url, domains[0]) {
      } else if SomeContains(url, domains[1..]) {
        var k :| 0 <= k < |domains[1..]| && Contains(url, domains[1..][k]);
        assert Contains(url, domains[k + 1]);
      } else {
        forall k | 0 <= k < |domains| ensures !Contains(url, domains[k]) {
          if k > 0 {
            assert domains[k] == domains[1..][k - 1];
          }
        }
      }
    }
  }

  /** popup.js `isMediumUrl`: true exactly when the URL mentions one of the two domains. */
  function IsMediumUrl(url: string): (r: bool)
    ensures r <==> Contains(url, "medium.com") || Contains(url, "towardsdatascience.com")
  {
    assert MediumDomains[1..] == ["towardsdatascience.com"];
    assert MediumDomains[1..][1..] == [];
    SomeContains(url, MediumDomains)
  }

  /** popup.js `createFreediumUrl`, and the address the content script builds on a click. */
  function FreediumUrl(url: string): (r: string)
    ensures |r| == |RedirectPrefix| + |url|
    ensures RedirectPrefix <= r
  {
    RedirectPrefix + url
  }

  /** The inverse of `FreediumUrl`: the original address, if `r` is a redirect address. */
  function StripRedirect(r: string): (u: Option<string>)
    ensures u.Some? <==> RedirectPrefix <= r
    ensures u.Some? ==> |u.value| == |r| - |RedirectPrefix|
  {
    if RedirectPrefix <= r then Some(r[|RedirectPrefix|..]) else None
  }

  /** Stripping the prefix from a redirect address recovers the original URL. */
  lemma StripAfterRedirect(url: string)
    ensures StripRedirect(FreediumUrl(url)) == Some(url)
  {
    assert FreediumUrl(url)[|RedirectPrefix|..] == url;
  }

  /** Every address with the prefix is the redirect address of what follows it. */
  lemma RedirectAfterStrip(r: string)
    requires StripRedirect(r).Some?
    ensures FreediumUrl(StripRedirect(r).value) == r
  {
    assert r == r[..|RedirectPrefix|] + r[|RedirectPrefix|..];
  }

  /**
   * A redirect address of a Medium URL still mentions the Medium domain, so the
   * domain tests also accept the Freedium page itself.
   */
  lemma RedirectStaysMedium(url: string)
    requires IsMediumUrl(url)
    ensures IsMediumUrl(FreediumUrl(url))
  {
    if Contains(url, "medium.com") {
      ContainsAfterPrefix(RedirectPrefix, url, "medium.com");
    } else {
      ContainsAfterPrefix(RedirectPrefix, url, "towardsdatascience.com");
    }
  }

  /** content.js: the two Medium home-feed addresses, on which nothing is injected. */
  predicate IsHomepage(url: string) {
    url == "https://medium.com/" || url == "https://www.medium.com/"
  }

  /** A URL in which the Medium domain occurs at some position is a Medium URL. */
  lemma MediumAt(url: string, i: nat)
    requires OccursAt(url, "medium.com", i)
    ensures IsMediumUrl(url)
  {
    ContainsIffOccurs(url, "medium.com");
  }

  /** Both home-feed addresses pass the domain test: the homepage gate is not implied by it. */
  lemma HomepageIsMedium(url: string)
    requires IsHomepage(url)
    ensures IsMediumUrl(url)
  {
    if url == "https://medium.com/" {
      assert url[8..] == "medium.com/";
      MediumAt(url, 8);
    } else {
      assert url[12..] == "medium.com/";
      MediumAt(url, 12);
    }
  }
}
