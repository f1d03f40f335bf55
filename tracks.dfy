/**
 * Subtitle track enumeration. Each of the three metadata endpoints yields a
 * list of raw track entries whose fields may be missing; the entries are
 * normalised into (language, URL) tracks, and the endpoints are consulted in
 * the fixed order web player, player v2, danmaku view until one of them
 * yields a track. The HTTP calls and JSON decoding are not modelled: each
 * endpoint's entry list is given (a service-level error of the player v2 or
 * danmaku-view endpoint is given as the empty list, which is what the code
 * turns it into).
 */
module Tracks {
  import opened Optional
  import opened Seqs

  /** One entry of an endpoint's `subtitles` array, as far as it is read:
      a missing field and a JSON null are both None. */
  datatype RawEntry = RawEntry(
    url: Option<string>,
    subtitleUrl: Option<string>,
    lan: Option<string>,
    langKey: Option<string>)

  /** A normalised track: {"lan": ..., "url": ...}. */
  datatype Track = Track(lan: string, url: string)

  /** Which URL field is tried first: the web and player v2 endpoints read
      `url` then `subtitle_url`, the danmaku-view endpoint the other way round. */
  datatype UrlOrder = UrlFirst | SubtitleUrlFirst

  /** Python truthiness of an optional string: present and non-empty. */
  predicate Truthy(o: Option<string>) {
    o.Some? && o.value != ""
  }

  /** Python's `a or b` on optional strings. */
  function Or(a: Option<string>, b: Option<string>): (r: Option<string>)
    ensures Truthy(r) <==> Truthy(a) || Truthy(b)
    ensures Truthy(a) ==> r == a
    ensures !Truthy(a) ==> r == b
  {
    if Truthy(a) then a else b
  }

  function PrimaryUrl(it: RawEntry, order: UrlOrder): Option<string> {
    if order == UrlFirst then it.url else it.subtitleUrl
  }

  function FallbackUrl(it: RawEntry, order: UrlOrder): Option<string> {
    if order == UrlFirst then it.subtitleUrl else it.url
  }

  /** The loop body shared by the three endpoint readers: an entry becomes a
      track exactly when one of its URL fields is non-empty; the URL is the
      first non-empty one in the endpoint's order, and the language is `lan`,
      else `lang_key`, else the empty string. */
  function NormalizeEntry(it: RawEntry, order: UrlOrder): (r: Option<Track>)
    ensures r.Some? <==> Truthy(it.url) || Truthy(it.subtitleUrl)
    ensures r.Some? ==> r.value.url != ""
    ensures r.Some? && Truthy(PrimaryUrl(it, order)) ==> r.value.url == PrimaryUrl(it, order).value
    ensures r.Some? && !Truthy(PrimaryUrl(it, order)) ==> r.value.url == FallbackUrl(it, order).value
    ensures r.Some? && Truthy(it.lan) ==> r.value.lan == it.lan.value
    ensures r.Some? && !Truthy(it.lan) && Truthy(it.langKey) ==> r.value.lan == it.langKey.value
    ensures r.Some? && !Truthy(it.lan) && !Truthy(it.langKey) ==> r.value.lan == ""
  {
    var url := Or(PrimaryUrl(it, order), FallbackUrl(it, order));
    var lan := Or(Or(it.lan, it.langKey), Some(""));
    if Truthy(url) then Some(Track(lan.value, url.value)) else None
  }

  /** The track list one endpoint's entries normalise to. */
  function Normalized(items: seq<RawEntry>, order: UrlOrder): seq<Track> {
    FilterMap(items, (it: RawEntry) => NormalizeEntry(it, order))
  }

  /** The normalisation loop of get_subtitle_list_web, _player_v2 and
      _app_dmview_json: append the normalised form of each entry that has a URL. */
  method NormalizeEntries(items: seq<RawEntry>, order: UrlOrder) returns (result: seq<Track>)
    ensures result == Normalized(items, order)
  {
    result := [];
    for i := 0 to |items|
      invariant result == Normalized(items[..i], order)
    {
      assert items[..i + 1][..i] == items[..i];
      var it := items[i];
      var url := Or(PrimaryUrl(it, order), FallbackUrl(it, order));
      var lan := Or(Or(it.lan, it.langKey), Some(""));
      if Truthy(url) {
        result := result + [Track(lan.value, url.value)];
      }
    }
    assert items[..|items|] == items;
  }

  /** A track is listed exactly when some entry normalises to it; so every
      listed track has a URL, and entries without one are dropped. */
  lemma NormalizedMember(items: seq<RawEntry>, order: UrlOrder, t: Track)
    ensures t in Normalized(items, order) <==>
            exists i :: 0 <= i < |items| && NormalizeEntry(items[i], order) == Some(t)
    ensures t in Normalized(items, order) ==> t.url != ""
  {
    FilterMapMember(items, (it: RawEntry) => NormalizeEntry(it, order), t);
  }

  /** Normalisation keeps the endpoint's order: it distributes over concatenation. */
  lemma NormalizedAppend(a: seq<RawEntry>, b: seq<RawEntry>, order: UrlOrder)
    ensures Normalized(a + b, order) == Normalized(a, order) + Normalized(b, order)
  {
    FilterMapAppend(a, b, (it: RawEntry) => NormalizeEntry(it, order));
  }

  /** When every entry has a URL, nothing is dropped and the i-th track comes
      from the i-th entry. */
  lemma NormalizedKeepsAll(items: seq<RawEntry>, order: UrlOrder)
    requires forall i :: 0 <= i < |items| ==> Truthy(items[i].url) || Truthy(items[i].subtitleUrl)
    ensures |Normalized(items, order)| == |items|
    ensures forall i :: 0 <= i < |items| ==> Some(Normalized(items, order)[i]) == NormalizeEntry(items[i], order)
  {
    FilterMapTotal(items, (it: RawEntry) => NormalizeEntry(it, order));
  }

  /** An entry carrying both URL fields is read differently by the danmaku-view
      endpoint than by the two player endpoints. */
  lemma UrlOrderMatters(it: RawEntry)
    requires it == RawEntry(Some("u"), Some("s"), None, Some("zh-CN"))
    ensures NormalizeEntry(it, UrlFirst) == Some(Track("zh-CN", "u"))
    ensures NormalizeEntry(it, SubtitleUrlFirst) == Some(Track("zh-CN", "s"))
  {
  }

  /** The endpoint fallback of fetch_bilibili_subtitle_text: the first of the
      three normalised lists that is non-empty (lists are never merged). */
  function Enumerate(web: seq<RawEntry>, v2: seq<RawEntry>, dmview: seq<RawEntry>): (subs: seq<Track>)
    ensures subs == [] <==>
            Normalized(web, UrlFirst) == [] && Normalized(v2, UrlFirst) == [] &&
            Normalized(dmview, SubtitleUrlFirst) == []
    ensures subs == Normalized(web, UrlFirst) || subs == Normalized(v2, UrlFirst) ||
            subs == Normalized(dmview, SubtitleUrlFirst)
    ensures Normalized(web, UrlFirst) != [] ==> subs == Normalized(web, UrlFirst)
    ensures Normalized(web, UrlFirst) == [] && Normalized(v2, UrlFirst) != [] ==>
            subs == Normalized(v2, UrlFirst)
  {
    var a := Normalized(web, UrlFirst);
    if a != [] then a
    else
      var b := Normalized(v2, UrlFirst);
      if b != [] then b else Normalized(dmview, SubtitleUrlFirst)
  }

  /** Steps 1-3 of fetch_bilibili_subtitle_text: read the web endpoint, and
      fall back to player v2 and then to danmaku view while nothing is found. */
  method EnumerateTracks(web: seq<RawEntry>, v2: seq<RawEntry>, dmview: seq<RawEntry>) returns (subs: seq<Track>)
    ensures subs == Enumerate(web, v2, dmview)
  {
    subs := NormalizeEntries(web, UrlFirst);
    if subs == [] {
      subs := NormalizeEntries(v2, UrlFirst);
    }
    if subs == [] {
      subs := NormalizeEntries(dmview, SubtitleUrlFirst);
    }
  }
}
