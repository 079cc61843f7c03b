/** `GoogleIt.get_domain_name`: the search of `(https?://)?(www\.)?(.+?)\.(.+?)` in a URL,
    returning group 3 as the de-duplication key. The regex engine's behaviour is written out:
    start positions are tried from left to right; at each one the optional scheme and `www.`
    groups are first taken and then given up, in backtracking order; the lazy group 3 grows
    one character at a time; `.` never matches a newline. */
module DomainKey {
  import opened Wrappers

  /** Group 3 can end just before index `i` of `r`: it is `r[..i]` (at least one character,
      no newline), `r[i]` is the literal dot, and one more non-newline character follows. */
  predicate KeyEndsAt(r: string, i: int) {
    1 <= i && i + 1 < |r| && r[i] == '.' && r[i + 1] != '\n' && '\n' !in r[..i]
  }

  /** The lazy `(.+?)\.(.+?)` tail: the smallest key end at or after `i`. */
  function KeyEndFrom(r: string, i: nat): (e: Option<nat>)
    requires 1 <= i <= |r| + 1 && '\n' !in r[..i - 1]
    ensures e.Some? ==> i <= e.value && KeyEndsAt(r, e.value)
    ensures forall j :: i <= j && (e.None? || j < e.value) ==> !KeyEndsAt(r, j)
    decreases |r| - i
  {
    if i + 1 >= |r| then None
    else if r[i - 1] == '\n' then None
    else if r[i] == '.' && r[i + 1] != '\n' then Some(i)
    else
      assert r[..i] == r[..i - 1] + [r[i - 1]];
      KeyEndFrom(r, i + 1)
  }

  /** Group 3 when the rest of the pattern is matched against `r`, if it can be. */
  function KeyOf(r: string): Option<string> {
    match KeyEndFrom(r, 1)
    case Some(i) => Some(r[..i])
    case None => None
  }

  /** The match once the scheme group has consumed `a` characters:
      first with the `www.` group taken, then without it. */
  function MatchAfterScheme(s: string, a: nat): Option<string>
    requires a <= |s|
  {
    var t := s[a..];
    var withWww := if "www." <= t then KeyOf(t[4..]) else None;
    if withWww.Some? then withWww else KeyOf(t)
  }

  /** The match anchored at the start of `s`: first with the scheme group taken
      (`https://` or `http://`, whichever is there), then without it. */
  function MatchAt(s: string): Option<string> {
    var schemeLength := if "https://" <= s then 8 else if "http://" <= s then 7 else 0;
    var withScheme := if schemeLength > 0 then MatchAfterScheme(s, schemeLength) else None;
    if withScheme.Some? then withScheme else MatchAfterScheme(s, 0)
  }

  /** `re.search`: the match at the leftmost start position at or after `p` that has one. */
  function SearchFrom(url: string, p: nat): Option<string>
    requires p <= |url|
    decreases |url| - p
  {
    var m := MatchAt(url[p..]);
    if m.Some? || p == |url| then m else SearchFrom(url, p + 1)
  }

  /** `get_domain_name(url)`. */
  function GetDomainName(url: string): Option<string> {
    SearchFrom(url, 0)
  }

  /** A dot at `j` that the pattern can use: some non-newline character before it
      and a non-newline character after it. */
  predicate KeyDotAt(url: string, j: int) {
    1 <= j && j + 1 < |url| && url[j] == '.' && url[j - 1] != '\n' && url[j + 1] != '\n'
  }

  /** A key found in `r` has the shape the pattern gives it: non-empty, no newline, and no
      dot after its first character (the lazy group stops at the first usable dot). */
  lemma KeyOfShape(r: string)
    ensures KeyOf(r).Some? ==> exists i :: KeyEndsAt(r, i) && KeyOf(r).value == r[..i]
    ensures KeyOf(r).Some? ==>
      (|KeyOf(r).value| >= 1 && '\n' !in KeyOf(r).value &&
       forall m :: 1 <= m < |KeyOf(r).value| ==> KeyOf(r).value[m] != '.')
    ensures KeyOf(r).None? <==> forall i :: !KeyEndsAt(r, i)
  {
    if KeyOf(r).Some? {
      var i := KeyEndFrom(r, 1).value;
      EarlierDots(r, i);
    }
  }

  /** Every dot strictly inside a usable key end could itself end the key. */
  lemma EarlierDots(r: string, i: nat)
    requires KeyEndsAt(r, i)
    ensures forall m :: 1 <= m < i && r[m] == '.' ==> KeyEndsAt(r, m)
  {
    forall m | 1 <= m < i && r[m] == '.' ensures KeyEndsAt(r, m) {
      assert r[..m] == r[..i][..m];
      assert r[m + 1] in r[..i];
    }
  }

  /** Whatever combination of the optional groups succeeds, the anchored match is the key
      of some suffix of `s`. */
  lemma MatchAtIsKeyOfSuffix(s: string)
    ensures MatchAt(s).Some? ==> exists c :: 0 <= c <= |s| && KeyOf(s[c..]) == MatchAt(s)
  {
    if MatchAt(s).Some? {
      var c: nat :| c <= |s| && MatchAfterScheme(s, c) == MatchAt(s);
      var t := s[c..];
      if "www." <= t && KeyOf(t[4..]).Some? {
        assert s[c + 4..] == t[4..];
      } else {
        assert s[c..] == t;
      }
    }
  }

  /** The search result is the key of some suffix of the URL. */
  lemma {:induction false} SearchIsKeyOfSuffix(url: string, p: nat)
    requires p <= |url|
    ensures SearchFrom(url, p).Some? ==>
      exists q :: p <= q <= |url| && KeyOf(url[q..]) == SearchFrom(url, p)
    decreases |url| - p
  {
    var s := url[p..];
    MatchAtIsKeyOfSuffix(s);
    if MatchAt(s).Some? {
      var c :| 0 <= c <= |s| && KeyOf(s[c..]) == MatchAt(s);
      assert s[c..] == url[p + c..];
    } else if p < |url| {
      SearchIsKeyOfSuffix(url, p + 1);
    }
  }

  /** A usable dot at `j` makes every search that starts at or before `j - 1` succeed. */
  lemma {:induction false} DotMakesSearchSucceed(url: string, j: int, p: nat)
    requires KeyDotAt(url, j) && p <= j - 1
    ensures SearchFrom(url, p).Some?
    decreases j - p
  {
    var s := url[p..];
    if p == j - 1 {
      assert s[..1] == [url[j - 1]];
      assert KeyEndsAt(s, 1);
      KeyOfShape(s);
      assert MatchAfterScheme(s, 0).Some?;
    } else if MatchAt(s).None? {
      DotMakesSearchSucceed(url, j, p + 1);
    }
  }

  /** `get_domain_name` returns `None` exactly when the URL has no dot with a non-newline
      character on each side; for a URL without newlines, no dot at an index of at least 1
      that is followed by another character. */
  lemma DomainNameNone(url: string)
    ensures GetDomainName(url).None? <==> forall j :: !KeyDotAt(url, j)
    ensures '\n' !in url ==>
      (GetDomainName(url).None? <==> forall j :: 1 <= j && j + 1 < |url| ==> url[j] != '.')
  {
    if GetDomainName(url).Some? {
      SearchIsKeyOfSuffix(url, 0);
      var q :| 0 <= q <= |url| && KeyOf(url[q..]) == GetDomainName(url);
      var r := url[q..];
      KeyOfShape(r);
      var i :| KeyEndsAt(r, i) && KeyOf(r).value == r[..i];
      assert r[i - 1] in r[..i];
      assert KeyDotAt(url, q + i);
    } else {
      forall j | KeyDotAt(url, j) ensures false {
        DotMakesSearchSucceed(url, j, 0);
      }
    }
    if '\n' !in url {
      forall j | 1 <= j && j + 1 < |url| && url[j] == '.' ensures KeyDotAt(url, j) {
        assert url[j - 1] in url && url[j + 1] in url;
      }
    }
  }

  /** A key, when there is one, is a non-empty piece of the URL without a newline and
      without a dot after its first character: subdomains are not collapsed. */
  lemma DomainNameShape(url: string)
    ensures GetDomainName(url).Some? ==>
      var key := GetDomainName(url).value;
      |key| >= 1 && '\n' !in key &&
      (forall m :: 1 <= m < |key| ==> key[m] != '.') &&
      exists q :: 0 <= q <= |url| && key <= url[q..]
  {
    if GetDomainName(url).Some? {
      SearchIsKeyOfSuffix(url, 0);
      var q :| 0 <= q <= |url| && KeyOf(url[q..]) == GetDomainName(url);
      var r := url[q..];
      KeyOfShape(r);
      var i :| KeyEndsAt(r, i) && KeyOf(r).value == r[..i];
    }
  }

  /** A host written as `name.rest` has `name` as its key, provided the name is
      non-empty, has no newline and no dot after its first character, and `rest` starts
      with a non-newline character. */
  lemma KeyOfLabel(name: string, rest: string)
    requires |name| >= 1 && '\n' !in name
    requires forall m :: 1 <= m < |name| ==> name[m] != '.'
    requires rest != [] && rest[0] != '\n'
    ensures KeyOf(name + "." + rest) == Some(name)
  {
    var h := name + "." + rest;
    assert h[..|name|] == name;
    assert KeyEndsAt(h, |name|);
    assert forall m :: 1 <= m < |name| ==> h[m] == name[m];
  }

  /** The optional scheme and `www.` prefixes do not change the key of a host that
      has one and does not itself start with either prefix. */
  lemma PrefixesIgnored(h: string)
    requires KeyOf(h).Some?
    requires !("http://" <= h) && !("https://" <= h) && !("www." <= h)
    ensures GetDomainName(h) == KeyOf(h)
    ensures GetDomainName("www." + h) == KeyOf(h)
    ensures GetDomainName("http://" + h) == KeyOf(h)
    ensures GetDomainName("https://" + h) == KeyOf(h)
    ensures GetDomainName("http://www." + h) == KeyOf(h)
    ensures GetDomainName("https://www." + h) == KeyOf(h)
  {
    BareHostKey(h);
    HttpHostKey(h);
    HttpsHostKey(h);
  }

  /** A bare host and the same host behind `www.` have the same key. */
  lemma BareHostKey(h: string)
    requires KeyOf(h).Some?
    requires !("http://" <= h) && !("https://" <= h) && !("www." <= h)
    ensures GetDomainName(h) == KeyOf(h)
    ensures GetDomainName("www." + h) == KeyOf(h)
  {
    assert h[0..] == h;
    var w := "www." + h;
    assert w[0..] == w && w[4..] == h;
    assert !("https://" <= w) && !("http://" <= w);
  }

  /** `http://` in front of a host, with or without `www.`, leaves its key unchanged. */
  lemma HttpHostKey(h: string)
    requires KeyOf(h).Some?
    requires !("www." <= h)
    ensures GetDomainName("http://" + h) == KeyOf(h)
    ensures GetDomainName("http://www." + h) == KeyOf(h)
  {
    var u := "http://" + h;
    assert u[0..] == u && u[7..] == h;
    assert !("https://" <= u) by { assert u[4] != "https://"[4]; }
    var w := "www." + h;
    assert w[4..] == h;
    var uw := "http://" + w;
    assert "http://www." + h == uw;
    assert uw[0..] == uw && uw[7..] == w;
    assert !("https://" <= uw) by { assert uw[4] != "https://"[4]; }
  }

  /** `https://` in front of a host, with or without `www.`, leaves its key unchanged. */
  lemma HttpsHostKey(h: string)
    requires KeyOf(h).Some?
    requires !("www." <= h)
    ensures GetDomainName("https://" + h) == KeyOf(h)
    ensures GetDomainName("https://www." + h) == KeyOf(h)
  {
    var us := "https://" + h;
    assert us[0..] == us && us[8..] == h;
    var w := "www." + h;
    assert w[4..] == h;
    var usw := "https://" + w;
    assert "https://www." + h == usw;
    assert usw[0..] == usw && usw[8..] == w;
  }

  /** With a scheme, `www.` and a path, the key is the first host name. */
  lemma ExampleKeyFullUrl(url: string)
    requires url == "https://www.example.com/a"
    ensures GetDomainName(url) == Some("example")
  {
    var host := url[12..];
    assert url == "https://www." + host;
    KeyOfLabel("example", "com/a");
    assert "example" + "." + "com/a" == host;
    assert !("http://" <= host) && !("https://" <= host) && !("www." <= host);
    PrefixesIgnored(host);
  }

  /** Scheme and `www.` variants of one host share the key `example`. */
  lemma ExampleKeyVariants(http: string, www: string, bare: string)
    requires http == "http://example.com" && www == "www.example.com" && bare == "example.com"
    ensures GetDomainName(http) == Some("example")
    ensures GetDomainName(www) == Some("example")
    ensures GetDomainName(bare) == Some("example")
  {
    var h := http[7..];
    var w := www[4..];
    assert http == "http://" + h && www == "www." + w;
    KeyOfLabel("example", "com");
    assert "example" + "." + "com" == bare == h == w;
    assert !("http://" <= bare) && !("https://" <= bare) && !("www." <= bare);
    PrefixesIgnored(bare);
  }

  /** A subdomain is the key (`en`), and a `www.` that leaves no usable dot
      behind it is given up and becomes the key itself. */
  lemma ExampleKeyQuirks(wiki: string, bareWww: string)
    requires wiki == "en.wikipedia.org" && bareWww == "https://www.x"
    ensures GetDomainName(wiki) == Some("en")
    ensures GetDomainName(bareWww) == Some("www")
  {
    KeyOfLabel("en", "wikipedia.org");
    assert "en" + "." + "wikipedia.org" == wiki;
    assert !("http://" <= wiki) && !("https://" <= wiki) && !("www." <= wiki);
    PrefixesIgnored(wiki);
    var afterScheme := bareWww[8..];
    assert bareWww[0..] == bareWww && "https://" <= bareWww;
    assert afterScheme == "www.x" && afterScheme[4..] == "x";
    KeyOfShape("x");
    KeyOfLabel("www", "x");
    assert "www" + "." + "x" == afterScheme;
  }
}
