/**
 * Reference resolution: turning what the user typed (a bare BV id, a video
 * URL or a short link) into a BV id. The HTTP redirect that resolves a short
 * link is the parameter `resolve`: it maps the URL that would be fetched to
 * the final URL after redirects, or to None when the request fails.
 */
module Resolver {
  import opened Optional
  import opened Text

  predicate IsAsciiLetter(c: char) {
    'a' <= c <= 'z' || 'A' <= c <= 'Z'
  }

  /** The regex class [0-9A-Za-z]. */
  predicate IsAlnum(c: char) {
    IsDigit(c) || IsAsciiLetter(c)
  }

  /** The regex class [a-zA-Z0-9+.-]. */
  predicate IsSchemeChar(c: char) {
    IsAlnum(c) || c == '+' || c == '.' || c == '-'
  }

  // ---------------------------------------------------------------------
  // _normalize_url
  // ---------------------------------------------------------------------

  /** s matches ^[a-zA-Z][a-zA-Z0-9+.-]*:// */
  ghost predicate HasSchemeSpec(s: string) {
    exists k :: 1 <= k <= |s| - 3 && OccursAt(s, "://", k)
      && IsAsciiLetter(s[0]) && (forall j :: 1 <= j < k ==> IsSchemeChar(s[j]))
  }

  /** The first index at or after i that does not hold a scheme character. */
  function SchemeEnd(s: string, i: nat): (e: nat)
    requires i <= |s|
    ensures i <= e <= |s| && (e == |s| || !IsSchemeChar(s[e]))
    ensures forall j :: i <= j < e ==> IsSchemeChar(s[j])
    decreases |s| - i
  {
    if i < |s| && IsSchemeChar(s[i]) then SchemeEnd(s, i + 1) else i
  }

  /** The scheme test as the regex engine runs it: the greedy class run ends
      at the first non-scheme character, which must begin "://". */
  function HasScheme(s: string): bool {
    |s| > 0 && IsAsciiLetter(s[0]) && OccursAt(s, "://", SchemeEnd(s, 1))
  }

  /** The greedy run is the only place "://" can follow the scheme, so the
      scan agrees with the pattern on every string. */
  lemma HasSchemeCorrect(s: string)
    ensures HasScheme(s) <==> HasSchemeSpec(s)
  {
    if HasSchemeSpec(s) {
      var k :| 1 <= k <= |s| - 3 && OccursAt(s, "://", k)
        && IsAsciiLetter(s[0]) && (forall j :: 1 <= j < k ==> IsSchemeChar(s[j]));
      var e := SchemeEnd(s, 1);
      assert s[k] == s[k..k + 3][0] == ':';
      assert e == k;
    }
    if HasScheme(s) {
      var e := SchemeEnd(s, 1);
      assert 1 <= e <= |s| - 3 && OccursAt(s, "://", e);
    }
  }

  /** The hosts the normalising regex accepts before a "/":
      b23.tv, acg.tv, bili2233.cn, bili2233.com, bili.tv, bili.com. */
  const SchemelessHosts: seq<string> :=
    ["b23.tv", "acg.tv", "bili2233.cn", "bili2233.com", "bili.tv", "bili.com"]

  /** s begins, ignoring ASCII case, with one of SchemelessHosts and a "/". */
  predicate StartsWithShortHost(s: string) {
    exists h :: h in SchemelessHosts && StartsWith(Lower(s), h + "/")
  }

  /** _normalize_url: the stripped input, given an https:// scheme when it
      has none and begins with a short-link host and a slash. */
  function NormalizeUrl(url: string): (r: string)
    ensures r == Strip(url) || r == "https://" + Strip(url)
    ensures r == "https://" + Strip(url) <==>
              !HasSchemeSpec(Strip(url)) && StartsWithShortHost(Strip(url))
  {
    var s := Strip(url);
    HasSchemeCorrect(s);
    if HasScheme(s) then s
    else if StartsWithShortHost(s) then "https://" + s
    else s
  }

  /** Any string behind "https://" has a scheme. */
  lemma HttpsHasScheme(s: string)
    ensures HasSchemeSpec("https://" + s)
  {
    var r := "https://" + s;
    assert r[..8] == "https://";
    assert OccursAt(r, "://", 5);
    assert forall j :: 1 <= j < 5 ==> IsAsciiLetter(r[j]);
  }

  /** A stripped URL that needs no scheme is its own normal form. */
  lemma NormalizeUrlFixed(s: string)
    requires Strip(s) == s
    requires HasSchemeSpec(s) || !StartsWithShortHost(s)
    ensures NormalizeUrl(s) == s
  {
  }

  /** Prefixing a scheme keeps a non-empty stripped string stripped. */
  lemma HttpsStripped(s: string)
    requires s != [] && IsStripped(s)
    ensures Strip("https://" + s) == "https://" + s
  {
    var r := "https://" + s;
    assert r[0] == 'h' && r[|r| - 1] == s[|s| - 1];
    StripSurrounded([], r, []);
    assert [] + r + [] == r;
  }

  /** Normalising an already normalised URL changes nothing. */
  lemma NormalizeUrlIdempotent(url: string)
    ensures NormalizeUrl(NormalizeUrl(url)) == NormalizeUrl(url)
  {
    var s := Strip(url);
    var r := NormalizeUrl(url);
    StripIdempotent(url);
    if r == s {
      NormalizeUrlFixed(s);
    } else {
      assert StartsWithShortHost(s);
      ShortHostNonEmpty(s);
      HttpsStripped(s);
      HttpsHasScheme(s);
      NormalizeUrlFixed(r);
    }
  }

  lemma ShortHostNonEmpty(s: string)
    requires StartsWithShortHost(s)
    ensures s != []
  {
    var h :| h in SchemelessHosts && StartsWith(Lower(s), h + "/");
    assert |Lower(s)| >= 1;
  }

  // ---------------------------------------------------------------------
  // re.search(r"BV[0-9A-Za-z]+", s)
  // ---------------------------------------------------------------------

  /** A match of BV[0-9A-Za-z]+ can start at index i. */
  predicate BVStartsAt(s: string, i: nat) {
    i + 3 <= |s| && s[i] == 'B' && s[i + 1] == 'V' && IsAlnum(s[i + 2])
  }

  /** The end of the run of [0-9A-Za-z] characters that starts at i. */
  function AlnumEnd(s: string, i: nat): (e: nat)
    requires i <= |s|
    ensures i <= e <= |s| && (e == |s| || !IsAlnum(s[e]))
    ensures forall j :: i <= j < e ==> IsAlnum(s[j])
    decreases |s| - i
  {
    if i < |s| && IsAlnum(s[i]) then AlnumEnd(s, i + 1) else i
  }

  /** The leftmost index at or after i where a match starts. */
  function LeftmostBV(s: string, i: nat): (r: Option<nat>)
    requires i <= |s|
    ensures r.Some? ==> i <= r.value && BVStartsAt(s, r.value)
    ensures forall j :: i <= j < (if r.Some? then r.value else |s|) ==> !BVStartsAt(s, j)
    decreases |s| - i
  {
    if i == |s| then None
    else if BVStartsAt(s, i) then Some(i)
    else LeftmostBV(s, i + 1)
  }

  /** A BV id: "BV" followed by one or more ASCII letters and digits. */
  predicate IsBVId(m: string) {
    |m| >= 3 && m[0] == 'B' && m[1] == 'V' && forall j :: 2 <= j < |m| ==> IsAlnum(m[j])
  }

  /** re.search(r"BV[0-9A-Za-z]+", s).group(0): the leftmost match, extended
      greedily as far as the character class allows; None when s has none. */
  function SearchBV(s: string): (r: Option<string>)
    ensures r.None? <==> forall i :: 0 <= i < |s| ==> !BVStartsAt(s, i)
    ensures r.Some? ==> IsBVId(r.value)
    ensures r.Some? ==> exists i :: 0 <= i < |s| && BVStartsAt(s, i)
                          && (forall j :: 0 <= j < i ==> !BVStartsAt(s, j))
                          && r.value == s[i..AlnumEnd(s, i + 2)]
  {
    match LeftmostBV(s, 0)
    case None => None
    case Some(i) => Some(s[i..AlnumEnd(s, i + 2)])
  }

  /** A whole run of alphanumerics ends at the end of the string. */
  lemma {:induction false} AlnumEndAll(s: string, i: nat)
    requires i <= |s| && forall j :: i <= j < |s| ==> IsAlnum(s[j])
    ensures AlnumEnd(s, i) == |s|
    decreases |s| - i
  {
    if i < |s| {
      AlnumEndAll(s, i + 1);
    }
  }

  /** Behind a prefix without any 'B', the first match is where m begins. */
  lemma {:induction false} LeftmostBVAfter(p: string, m: string, i: nat)
    requires i <= |p| && IsBVId(m)
    requires forall j :: i <= j < |p| ==> p[j] != 'B'
    ensures LeftmostBV(p + m, i) == Some(|p|)
    decreases |p| - i
  {
    var s := p + m;
    assert s[|p|..|p| + 3] == m[..3];
    if i < |p| {
      assert s[i] == p[i];
      LeftmostBVAfter(p, m, i + 1);
    }
  }

  /** An id behind text without a 'B' is found exactly, whatever the text. */
  lemma SearchBVAfter(p: string, m: string)
    requires 'B' !in p && IsBVId(m)
    ensures SearchBV(p + m) == Some(m)
  {
    var s := p + m;
    LeftmostBVAfter(p, m, 0);
    AlnumEndAll(s, |p| + 2);
    assert s[|p|..|s|] == m;
  }

  /** A string that already is a BV id is its own (whole) match. */
  lemma SearchBVOfId(m: string)
    requires IsBVId(m)
    ensures SearchBV(m) == Some(m)
  {
    SearchBVAfter([], m);
    assert [] + m == m;
  }

  // ---------------------------------------------------------------------
  // parse_input_to_bvid
  // ---------------------------------------------------------------------

  /** The hosts whose presence anywhere in the input triggers a redirect lookup. */
  const ShortLinkDomains: seq<string> := ["b23.tv", "acg.tv", "bili2233.cn", "bili2233.com"]

  predicate MentionsShortLink(s: string) {
    exists d :: d in ShortLinkDomains && Contains(s, d)
  }

  /** parse_input_to_bvid: a BV id found in the input itself; otherwise, for
      an input mentioning a short-link host, a BV id found in the URL the
      redirect lands on (the normalised URL when the final URL is empty);
      otherwise, or when the request fails, the stripped input. */
  function ParseInputToBvid(input: string, resolve: string -> Option<string>): (r: string)
    ensures SearchBV(input).Some? ==> r == SearchBV(input).value
    ensures IsBVId(r) || r == Strip(input)
  {
    match SearchBV(input)
    case Some(m) => m
    case None =>
      var candidate := Strip(input);
      if MentionsShortLink(candidate) then
        var url := NormalizeUrl(candidate);
        match resolve(url)
        case None => candidate
        case Some(finalUrl) =>
          match SearchBV(Landing(finalUrl, url))
          case Some(m) => m
          case None => candidate
      else candidate
  }

  /** `resp.url or url`: the URL the redirect lands on, or the requested
      one when the response reports none. */
  function Landing(finalUrl: string, url: string): (r: string)
    ensures r == url <==> finalUrl == "" || finalUrl == url
    ensures r != "" || url == ""
  {
    if finalUrl == "" then url else finalUrl
  }

  /** A BV id in the input is taken as it is: the redirect is never consulted. */
  lemma ParseIgnoresResolverWhenIdPresent(input: string, f: string -> Option<string>, g: string -> Option<string>)
    requires SearchBV(input).Some?
    ensures ParseInputToBvid(input, f) == ParseInputToBvid(input, g) == SearchBV(input).value
  {
  }

  /** Without a BV id in the input, the result is the input with surrounding
      whitespace stripped when no lookup is made, when the lookup fails, or
      when the URL it lands on holds no BV id either. */
  lemma ParseFallsBackToStripped(input: string, resolve: string -> Option<string>)
    requires SearchBV(input).None?
    requires var url := NormalizeUrl(Strip(input));
             !MentionsShortLink(Strip(input)) || resolve(url).None?
             || SearchBV(Landing(resolve(url).value, url)).None?
    ensures ParseInputToBvid(input, resolve) == Strip(input)
  {
  }

  /** Without a BV id in the input, a short link is resolved: a BV id in the
      final URL of the redirect is the result. */
  lemma ParseFollowsRedirect(input: string, resolve: string -> Option<string>, finalUrl: string)
    requires SearchBV(input).None? && MentionsShortLink(Strip(input))
    requires resolve(NormalizeUrl(Strip(input))) == Some(finalUrl)
    requires finalUrl != "" && SearchBV(finalUrl).Some?
    ensures ParseInputToBvid(input, resolve) == SearchBV(finalUrl).value
  {
  }

  /** A canonical video URL yields its id with no network lookup. */
  lemma CanonicalUrlExample(path: string, id: string, resolve: string -> Option<string>)
    requires path == "https://www.bilibili.com/video/" && id == "BV1xx411c7mD"
    ensures ParseInputToBvid(path + id, resolve) == id
  {
    ExVideoPath(path);
    ExId(id);
    SearchBVAfter(path, id);
  }

  lemma ExVideoPath(p: string)
    requires p == "https://www.bilibili.com/video/"
    ensures 'B' !in p
  {
  }

  lemma ExId(m: string)
    requires m == "BV1xx411c7mD"
    ensures IsBVId(m)
  {
  }

  lemma ExStrip()
    ensures Strip("b23.tv/abc") == "b23.tv/abc"
  {
    var s := "b23.tv/abc";
    StripSurrounded([], s, []);
    assert [] + s + [] == s;
  }

  lemma ExNoScheme()
    ensures !HasSchemeSpec("b23.tv/abc")
  {
    var s := "b23.tv/abc";
    assert SchemeEnd(s, 6) == 6;
    assert SchemeEnd(s, 1) == 6;
    HasSchemeCorrect(s);
  }

  lemma ExHost()
    ensures StartsWithShortHost("b23.tv/abc")
  {
    var s := "b23.tv/abc";
    assert Lower(s)[..7] == "b23.tv/";
    assert StartsWith(Lower(s), SchemelessHosts[0] + "/");
  }

  /** A scheme-less URL that begins with a short-link host is fetched over https. */
  lemma ShortLinkGetsHttps(url: string)
    requires !HasSchemeSpec(Strip(url)) && StartsWithShortHost(Strip(url))
    ensures NormalizeUrl(url) == "https://" + Strip(url)
    ensures StartsWith(NormalizeUrl(url), "https://")
  {
  }

  /** For example, b23.tv/abc becomes https://b23.tv/abc. */
  lemma ShortLinkExample(s: string)
    requires s == "b23.tv/abc"
    ensures NormalizeUrl(s) == "https://" + s
  {
    ExStrip();
    ExNoScheme();
    ExHost();
    ShortLinkGetsHttps(s);
  }
}
