/** The selection loop of `GoogleIt.get_top_urls`, over the result links' `href` strings
    (the search request and the HTML parsing are outside the model). */
module TopUrls {
  import opened Wrappers
  import opened Text
  import opened DomainKey

  /** A selected search result: its target URL and the domain key it was de-duplicated by. */
  datatype Pick = Pick(url: string, domain: string)

  /** The marker of a redirect link that carries its target after `?q=`. */
  const RedirectMarker := "url?q="
  /** The marker of a cached-copy link. */
  const CacheMarker := "webcache"

  /** Every occurrence of `url?q=` contains one of `?q=`. */
  lemma RedirectMarkerHasQuery(href: string)
    requires Contains(href, RedirectMarker)
    ensures Contains(href, "?q=")
  {
    ContainsIff(href, RedirectMarker);
    var i :| OccursAt(href, RedirectMarker, i);
    assert href[i + 3..i + 6] == href[i..i + 6][3..];
    assert OccursAt(href, "?q=", i + 3);
    ContainsIff(href, "?q=");
  }

  /** `href.split("?q=")[1].split("&sa=U")[0]`. */
  function Target(href: string): string
    requires Contains(href, "?q=")
  {
    Split(Split(href, "?q=")[1], "&sa=U")[0]
  }

  /** The target is the text right after the first `?q=`: it holds neither marker, and
      what follows it in the link is another `?q=`, an `&sa=U`, or nothing. */
  lemma TargetBetweenMarkers(href: string)
    requires Contains(href, "?q=")
    ensures
      var i := Find(href, "?q=").value;
      var url := Target(href);
      var after := href[i + 3..];
      && (forall j :: 0 <= j < i ==> !OccursAt(href, "?q=", j))
      && url <= after
      && !Contains(url, "?q=") && !Contains(url, "&sa=U")
      && (after[|url|..] == [] || "?q=" <= after[|url|..] || "&sa=U" <= after[|url|..])
  {
    var i := Find(href, "?q=").value;
    var after := href[i + 3..];
    assert Split(href, "?q=")[1] == Split(after, "?q=")[0];
    var piece := Split(after, "?q=")[0];
    var url := Split(piece, "&sa=U")[0];
    SplitHead(after, "?q=");
    SplitHead(piece, "&sa=U");
    PrefixFacts(url, piece, after, |url|);
    PrefixLacks(piece, "?q=", |url|);
    if url != piece {
      assert "&sa=U" <= piece[|url|..] <= after[|url|..];
    } else {
      assert after[|url|..] == after[|piece|..];
    }
  }

  /** What the loop body makes of one link: a pick when the link is a non-cached redirect
      whose target has a domain key, nothing otherwise. */
  function Candidate(href: string): (r: Option<Pick>)
    ensures r.Some? ==> Contains(href, RedirectMarker) && !Contains(href, CacheMarker)
    ensures r.Some? ==> GetDomainName(r.value.url) == Some(r.value.domain)
  {
    if Contains(href, RedirectMarker) && !Contains(href, CacheMarker) then
      RedirectMarkerHasQuery(href);
      var url := Target(href);
      match GetDomainName(url)
      case None => None
      case Some(domain) => Some(Pick(url, domain))
    else None
  }

  /** A link yields a pick exactly when it is a non-cached redirect whose target has a
      domain key, and the pick's URL is that target. */
  lemma CandidateIff(href: string)
    ensures Candidate(href).Some? <==>
      Contains(href, RedirectMarker) && !Contains(href, CacheMarker) &&
      Contains(href, "?q=") && GetDomainName(Target(href)).Some?
    ensures Candidate(href).Some? ==>
      Contains(href, "?q=") && Candidate(href).value.url == Target(href) &&
      Some(Candidate(href).value.domain) == GetDomainName(Target(href))
  {
    if Contains(href, RedirectMarker) {
      RedirectMarkerHasQuery(href);
    }
  }

  /** The domain keys of a list of picks, in order. */
  function Domains(picks: seq<Pick>): (r: seq<string>)
    ensures |r| == |picks| && forall k :: 0 <= k < |r| ==> r[k] == picks[k].domain
  {
    seq(|picks|, k requires 0 <= k < |picks| => picks[k].domain)
  }

  /** The picks a scan makes without a count limit when its body turns each link into
      `cand(link)`: each link's candidate, unless its domain was already picked from an
      earlier link. */
  function SelectedBy(hrefs: seq<string>, cand: string -> Option<Pick>): seq<Pick> {
    if hrefs == [] then []
    else
      var prev := SelectedBy(hrefs[..|hrefs| - 1], cand);
      match cand(hrefs[|hrefs| - 1])
      case None => prev
      case Some(p) => if p.domain in Domains(prev) then prev else prev + [p]
  }

  /** The picks of `get_top_urls`' loop without a count limit. */
  function Selected(hrefs: seq<string>): seq<Pick> {
    SelectedBy(hrefs, Candidate)
  }

  /** The result of `get_top_urls(urls_count)`: for a count of at least 1 the loop stops
      right after that many acceptances, so only the first picks are returned;
      a count of 0 or less never stops it. */
  function Top(hrefs: seq<string>, urlsCount: int): (r: seq<Pick>)
    ensures r <= Selected(hrefs)
    ensures urlsCount >= 1 ==> |r| <= urlsCount
    ensures |r| < |Selected(hrefs)| ==> urlsCount >= 1 && |r| == urlsCount
  {
    var all := Selected(hrefs);
    if urlsCount >= 1 && |all| > urlsCount then all[..urlsCount] else all
  }

  /** Link `href` is a candidate whose domain key is `d`. */
  predicate HasDomain(cand: string -> Option<Pick>, href: string, d: string) {
    cand(href).Some? && cand(href).value.domain == d
  }

  /** The index of the first link that is a candidate with domain key `d`, or `|hrefs|`. */
  function FirstSeen(hrefs: seq<string>, cand: string -> Option<Pick>, d: string): (r: nat)
    ensures r <= |hrefs|
    ensures r < |hrefs| ==> HasDomain(cand, hrefs[r], d)
    ensures forall j :: 0 <= j < r ==> !HasDomain(cand, hrefs[j], d)
  {
    if hrefs == [] then 0
    else if HasDomain(cand, hrefs[0], d) then 0
    else 1 + FirstSeen(hrefs[1..], cand, d)
  }

  /** How the first occurrence changes when one link is added at the end. */
  lemma FirstSeenExtend(hrefs: seq<string>, cand: string -> Option<Pick>, d: string)
    requires hrefs != []
    ensures FirstSeen(hrefs, cand, d) ==
        if FirstSeen(hrefs[..|hrefs| - 1], cand, d) < |hrefs| - 1 then FirstSeen(hrefs[..|hrefs| - 1], cand, d)
        else if HasDomain(cand, hrefs[|hrefs| - 1], d) then |hrefs| - 1
        else |hrefs|
  {
    var pre := hrefs[..|hrefs| - 1];
    var f, g := FirstSeen(pre, cand, d), FirstSeen(hrefs, cand, d);
    assert forall j :: 0 <= j < |pre| ==> pre[j] == hrefs[j];
    if f < |pre| {
      assert !(g < f);
      assert !(f < g);
    } else if HasDomain(cand, hrefs[|pre|], d) {
      assert !(g < |pre|);
    }
  }

  /** Every candidate domain of the input is picked. */
  lemma {:induction false} SelectedComplete(hrefs: seq<string>, cand: string -> Option<Pick>)
    ensures forall j :: 0 <= j < |hrefs| && cand(hrefs[j]).Some? ==>
      cand(hrefs[j]).value.domain in Domains(SelectedBy(hrefs, cand))
    decreases |hrefs|
  {
    if hrefs != [] {
      var n := |hrefs|;
      var pre := hrefs[..n - 1];
      SelectedComplete(pre, cand);
      assert forall j :: 0 <= j < n - 1 ==> pre[j] == hrefs[j];
      var prev := SelectedBy(pre, cand);
      match cand(hrefs[n - 1])
      case None =>
      case Some(p) =>
        assert Domains(prev + [p]) == Domains(prev) + [p.domain];
    }
  }

  /** The picked domain keys are pairwise distinct. */
  lemma {:induction false} SelectedDistinct(hrefs: seq<string>, cand: string -> Option<Pick>)
    ensures forall k1, k2 :: 0 <= k1 < k2 < |SelectedBy(hrefs, cand)| ==>
      SelectedBy(hrefs, cand)[k1].domain != SelectedBy(hrefs, cand)[k2].domain
    decreases |hrefs|
  {
    if hrefs != [] {
      var pre := hrefs[..|hrefs| - 1];
      SelectedDistinct(pre, cand);
      var prev := SelectedBy(pre, cand);
      match cand(hrefs[|hrefs| - 1])
      case None =>
        assert SelectedBy(hrefs, cand) == prev;
      case Some(p) =>
        if p.domain in Domains(prev) {
          assert SelectedBy(hrefs, cand) == prev;
        } else {
          var s := prev + [p];
          assert SelectedBy(hrefs, cand) == s;
          forall k | 0 <= k < |prev| ensures s[k].domain != p.domain {
            assert prev[k].domain == Domains(prev)[k];
          }
        }
    }
  }

  /** Each pick is the candidate of the first link with its domain key, and picks come in
      the order in which their domains first occur among the links. */
  lemma {:induction false} SelectedOrigins(hrefs: seq<string>, cand: string -> Option<Pick>)
    ensures forall k :: 0 <= k < |SelectedBy(hrefs, cand)| ==>
      FirstSeen(hrefs, cand, SelectedBy(hrefs, cand)[k].domain) < |hrefs| &&
      cand(hrefs[FirstSeen(hrefs, cand, SelectedBy(hrefs, cand)[k].domain)]) == Some(SelectedBy(hrefs, cand)[k])
    ensures forall k1, k2 :: 0 <= k1 < k2 < |SelectedBy(hrefs, cand)| ==>
      FirstSeen(hrefs, cand, SelectedBy(hrefs, cand)[k1].domain) <
      FirstSeen(hrefs, cand, SelectedBy(hrefs, cand)[k2].domain)
    decreases |hrefs|
  {
    if hrefs != [] {
      var n := |hrefs|;
      var pre := hrefs[..n - 1];
      var prev := SelectedBy(pre, cand);
      SelectedOrigins(pre, cand);
      forall k | 0 <= k < |prev|
        ensures FirstSeen(hrefs, cand, prev[k].domain) == FirstSeen(pre, cand, prev[k].domain) < n - 1
        ensures cand(hrefs[FirstSeen(hrefs, cand, prev[k].domain)]) == Some(prev[k])
      {
        FirstSeenExtend(hrefs, cand, prev[k].domain);
        assert pre[FirstSeen(pre, cand, prev[k].domain)] == hrefs[FirstSeen(pre, cand, prev[k].domain)];
      }
      var c := cand(hrefs[n - 1]);
      if c.Some? && c.value.domain !in Domains(prev) {
        var p := c.value;
        assert SelectedBy(hrefs, cand) == prev + [p];
        SelectedComplete(pre, cand);
        assert forall j :: 0 <= j < n - 1 ==> pre[j] == hrefs[j];
        FirstSeenExtend(hrefs, cand, p.domain);
        assert FirstSeen(hrefs, cand, p.domain) == n - 1;
      } else {
        assert SelectedBy(hrefs, cand) == prev;
      }
    }
  }

  /** Scanning a prefix of the links picks a prefix of what scanning all of them picks. */
  lemma {:induction false} SelectedPrefix(hrefs: seq<string>, cand: string -> Option<Pick>, i: nat)
    requires i <= |hrefs|
    ensures SelectedBy(hrefs[..i], cand) <= SelectedBy(hrefs, cand)
    decreases |hrefs|
  {
    if i == |hrefs| {
      assert hrefs[..i] == hrefs;
    } else {
      var pre := hrefs[..|hrefs| - 1];
      assert pre[..i] == hrefs[..i];
      SelectedPrefix(pre, cand, i);
    }
  }

  /** The two parallel result lists, read as picks. */
  function Zip(urls: seq<string>, domains: seq<string>): (r: seq<Pick>)
    requires |urls| == |domains|
    ensures |r| == |urls| && Domains(r) == domains
    ensures forall k :: 0 <= k < |r| ==> r[k].url == urls[k]
  {
    seq(|urls|, k requires 0 <= k < |urls| => Pick(urls[k], domains[k]))
  }

  /** The two result lists of a scan: every domain is the key of the URL beside it, and
      no domain occurs twice. */
  lemma ResultLists(hrefs: seq<string>, urlsCount: int, urls: seq<string>, domainList: seq<string>)
    requires |urls| == |domainList| && Zip(urls, domainList) == Top(hrefs, urlsCount)
    ensures forall k :: 0 <= k < |urls| ==> GetDomainName(urls[k]) == Some(domainList[k])
    ensures forall k1, k2 :: 0 <= k1 < k2 < |domainList| ==> domainList[k1] != domainList[k2]
  {
    SelectedOrigins(hrefs, Candidate);
    SelectedDistinct(hrefs, Candidate);
    var picks := Zip(urls, domainList);
    forall k | 0 <= k < |urls| ensures GetDomainName(urls[k]) == Some(domainList[k]) {
      assert picks[k] == Selected(hrefs)[k];
      assert domainList[k] == Domains(picks)[k];
    }
    forall k1, k2 | 0 <= k1 < k2 < |domainList| ensures domainList[k1] != domainList[k2] {
      assert domainList[k1] == Domains(picks)[k1] && domainList[k2] == Domains(picks)[k2];
      assert picks[k1] == Selected(hrefs)[k1] && picks[k2] == Selected(hrefs)[k2];
    }
  }

  /** The loop of `get_top_urls` over the links' hrefs: `urls` and `domain_list` grow
      together, a link is taken when it is a non-cached redirect whose target has a new
      domain key, and the loop stops once `c` reaches `urls_count`. */
  method GetTopUrls(hrefs: seq<string>, urlsCount: int) returns (urls: seq<string>, domainList: seq<string>)
    ensures |urls| == |domainList|
    ensures Zip(urls, domainList) == Top(hrefs, urlsCount)
    ensures urlsCount >= 1 ==> |urls| <= urlsCount
    ensures forall k :: 0 <= k < |urls| ==> GetDomainName(urls[k]) == Some(domainList[k])
    ensures forall k1, k2 :: 0 <= k1 < k2 < |domainList| ==> domainList[k1] != domainList[k2]
  {
    var c := 0;
    urls, domainList := [], [];
    var i := 0;
    while i < |hrefs|
      invariant 0 <= i <= |hrefs|
      invariant c == |urls| == |domainList|
      invariant Zip(urls, domainList) == Selected(hrefs[..i])
      invariant urlsCount >= 1 ==> c < urlsCount
    {
      var href := hrefs[i];
      assert hrefs[..i + 1][..i] == hrefs[..i];
      if Contains(href, RedirectMarker) && !Contains(href, CacheMarker) {
        RedirectMarkerHasQuery(href);
        var l := Target(href);
        var domain := GetDomainName(l);
        if domain.Some? {
          if domain.value !in domainList {
            c := c + 1;
            domainList := domainList + [domain.value];
            urls := urls + [l];
          }
          assert Zip(urls, domainList) == Selected(hrefs[..i + 1]);
          if c == urlsCount {
            SelectedPrefix(hrefs, Candidate, i + 1);
            break;
          }
        }
      }
      i := i + 1;
    }
    if i == |hrefs| {
      assert hrefs[..i] == hrefs;
    }
    ResultLists(hrefs, urlsCount, urls, domainList);
  }
}
