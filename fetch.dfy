/**
 * The unified entry point fetch_bilibili_subtitle_text: enumerate the tracks
 * with the endpoint fallback, choose one track by whitelist or by language
 * priority, download its body and flatten it to plain text, and report the
 * outcome as a status code with the text and the chosen language.
 *
 * The id resolution, the metadata lookup and the HTTP calls are not
 * modelled: the entry lists of the three endpoints are given, and the
 * download is a function from a track URL to the body it serves.
 */
module Fetch {
  import opened Optional
  import opened Seqs
  import opened Tracks
  import opened Selection
  import opened Convert

  /** The returned dictionary {code, text, lang}; the human-readable message
      is not modelled. Code 0 is success, 1 no track at all, 2 nothing passes
      the whitelist, 3 nothing matches the priority list. */
  datatype Response = Response(code: int, text: string, lang: string)

  /** The outcome of the selection step: the track to download, or the
      status code that explains why there is none. */
  datatype Choice = Picked(track: Track) | Refused(code: int)

  /** `lang_priority or ["en", "zh", "other"]`: an empty or absent list means
      the default order. */
  function EffectivePriority(priority: seq<string>): (p: seq<string>)
    ensures p != []
    ensures priority != [] ==> p == priority
    ensures priority == [] ==> p == ["en", "zh", "other"]
  {
    if priority != [] then priority else DefaultPriority
  }

  /** The selection rule: a non-empty whitelist overrides the priority list
      entirely; the first track of the chosen list is picked. */
  function Choose(subs: seq<Track>, whitelist: seq<string>, priority: seq<string>): (c: Choice)
    ensures c == Refused(1) <==> subs == []
    ensures c.Refused? ==> 1 <= c.code <= 3
    ensures c.Picked? ==> c.track in subs
    ensures c.Picked? && whitelist != [] ==> WhitelistMatch(c.track.lan, whitelist)
  {
    if subs == [] then Refused(1)
    else if whitelist != [] then
      var selected := WhitelistFilter(subs, whitelist);
      if selected == [] then Refused(2) else Picked(selected[0])
    else
      var selected := PrioritySelection(subs, EffectivePriority(priority)).0;
      if selected == [] then Refused(3)
      else
        PrioritySelectionSingleCategory(subs, EffectivePriority(priority), selected[0]);
        Picked(selected[0])
  }

  /** The response for given endpoint entry lists and payloads: a success
      reports one enumerated track's code and the flattening of the body
      served at its URL. */
  function Respond(web: seq<RawEntry>, v2: seq<RawEntry>, dmview: seq<RawEntry>,
                   whitelist: seq<string>, priority: seq<string>,
                   download: string -> seq<BodyItem>): (r: Response)
    ensures r.code == 0 ==> exists t :: t in Enumerate(web, v2, dmview)
                              && r == Response(0, Plaintext(download(t.url)), t.lan)
  {
    match Choose(Enumerate(web, v2, dmview), whitelist, priority)
    case Refused(code) => Response(code, "", "")
    case Picked(t) => Response(0, Plaintext(download(t.url)), t.lan)
  }

  /** fetch_bilibili_subtitle_text from the track enumeration on. */
  method FetchSubtitleText(web: seq<RawEntry>, v2: seq<RawEntry>, dmview: seq<RawEntry>,
                           whitelist: seq<string>, priority: seq<string>,
                           download: string -> seq<BodyItem>) returns (res: Response)
    ensures res == Respond(web, v2, dmview, whitelist, priority, download)
  {
    var subs := EnumerateTracks(web, v2, dmview);
    if subs == [] {
      return Response(1, "", "");
    }
    var selected: seq<Track> := [];
    if whitelist != [] {
      selected := FilterByWhitelist(subs, whitelist);
      if selected == [] {
        return Response(2, "", "");
      }
    }
    if selected == [] {
      var prio := if priority != [] then priority else DefaultPriority;
      var picked;
      selected, picked := SelectByPriority(subs, prio);
      if selected == [] {
        return Response(3, "", "");
      }
    }
    var pick := selected[0];
    var text := SubtitleJsonToPlaintext(download(pick.url));
    return Response(0, text, pick.lan);
  }

  // ---------------------------------------------------------------------
  // Status codes
  // ---------------------------------------------------------------------

  /** Only the codes 0 to 3 occur, and a failure carries no text and no language. */
  lemma ResponseCodes(web: seq<RawEntry>, v2: seq<RawEntry>, dmview: seq<RawEntry>,
                      whitelist: seq<string>, priority: seq<string>,
                      download: string -> seq<BodyItem>)
    ensures var r := Respond(web, v2, dmview, whitelist, priority, download);
            0 <= r.code <= 3 && (r.code != 0 ==> r.text == "" && r.lang == "")
  {
  }

  /** Code 1 exactly when none of the three endpoints yields a track. */
  lemma NoTrackIff(web: seq<RawEntry>, v2: seq<RawEntry>, dmview: seq<RawEntry>,
                   whitelist: seq<string>, priority: seq<string>,
                   download: string -> seq<BodyItem>)
    ensures Respond(web, v2, dmview, whitelist, priority, download).code == 1 <==>
            Normalized(web, UrlFirst) == [] && Normalized(v2, UrlFirst) == [] &&
            Normalized(dmview, SubtitleUrlFirst) == []
  {
  }

  /** Code 2 exactly when there are tracks and a whitelist, and no track's
      code passes the whitelist. */
  lemma WhitelistRefusalIff(web: seq<RawEntry>, v2: seq<RawEntry>, dmview: seq<RawEntry>,
                            whitelist: seq<string>, priority: seq<string>,
                            download: string -> seq<BodyItem>)
    ensures var subs := Enumerate(web, v2, dmview);
            Respond(web, v2, dmview, whitelist, priority, download).code == 2 <==>
            subs != [] && whitelist != [] &&
            forall i :: 0 <= i < |subs| ==> !WhitelistMatch(subs[i].lan, whitelist)
  {
    var subs := Enumerate(web, v2, dmview);
    FilterEmpty(subs, (t: Track) => WhitelistMatch(t.lan, whitelist));
  }

  /** Code 3 exactly when there are tracks, no whitelist, and a non-empty
      priority list none of whose names is available; with the default order
      code 3 never occurs. */
  lemma PriorityRefusalIff(web: seq<RawEntry>, v2: seq<RawEntry>, dmview: seq<RawEntry>,
                           whitelist: seq<string>, priority: seq<string>,
                           download: string -> seq<BodyItem>)
    ensures var subs := Enumerate(web, v2, dmview);
            Respond(web, v2, dmview, whitelist, priority, download).code == 3 <==>
            subs != [] && whitelist == [] && priority != [] &&
            forall k :: 0 <= k < |priority| ==> !Available(subs, priority[k])
  {
    var subs := Enumerate(web, v2, dmview);
    if subs != [] && whitelist == [] {
      PrioritySelectionFirstAvailable(subs, EffectivePriority(priority));
      if priority == [] {
        DefaultPriorityTotal(subs);
      }
    }
  }

  // ---------------------------------------------------------------------
  // The chosen track
  // ---------------------------------------------------------------------

  /** With a whitelist, success downloads the FIRST enumerated track whose
      code passes it, and reports that track's code. */
  lemma WhitelistPicksFirstMatch(web: seq<RawEntry>, v2: seq<RawEntry>, dmview: seq<RawEntry>,
                                 whitelist: seq<string>, priority: seq<string>,
                                 download: string -> seq<BodyItem>)
    requires whitelist != []
    requires Respond(web, v2, dmview, whitelist, priority, download).code == 0
    ensures var subs := Enumerate(web, v2, dmview);
            var r := Respond(web, v2, dmview, whitelist, priority, download);
            exists i :: 0 <= i < |subs| && WhitelistMatch(subs[i].lan, whitelist)
              && (forall j :: 0 <= j < i ==> !WhitelistMatch(subs[j].lan, whitelist))
              && r == Response(0, Plaintext(download(subs[i].url)), subs[i].lan)
  {
    var subs := Enumerate(web, v2, dmview);
    var i := FilterHead(subs, (t: Track) => WhitelistMatch(t.lan, whitelist));
  }

  /** Without a whitelist, success downloads the FIRST enumerated track of
      the first available category in the priority order (the default order
      when none is given), and reports that track's code. */
  lemma PriorityPicksFirstOfCategory(web: seq<RawEntry>, v2: seq<RawEntry>, dmview: seq<RawEntry>,
                                     whitelist: seq<string>, priority: seq<string>,
                                     download: string -> seq<BodyItem>)
    requires whitelist == []
    requires Respond(web, v2, dmview, whitelist, priority, download).code == 0
    ensures var subs := Enumerate(web, v2, dmview);
            var prio := EffectivePriority(priority);
            var r := Respond(web, v2, dmview, whitelist, priority, download);
            exists k, i :: 0 <= k < |prio| && Available(subs, prio[k])
              && (forall q :: 0 <= q < k ==> !Available(subs, prio[q]))
              && 0 <= i < |subs| && Categorize(subs[i].lan) == CategoryOf(prio[k]).value
              && (forall j :: 0 <= j < i ==> Categorize(subs[j].lan) != CategoryOf(prio[k]).value)
              && r == Response(0, Plaintext(download(subs[i].url)), subs[i].lan)
  {
    var subs := Enumerate(web, v2, dmview);
    var prio := EffectivePriority(priority);
    PrioritySelectionFirstAvailable(subs, prio);
    var k :| 0 <= k < |prio| && Available(subs, prio[k])
          && (forall q :: 0 <= q < k ==> !Available(subs, prio[q]))
          && PrioritySelection(subs, prio).1 == prio[k]
          && PrioritySelection(subs, prio).0 == Bucket(subs, CategoryOf(prio[k]).value);
    var c := CategoryOf(prio[k]).value;
    var i := FilterHead(subs, (t: Track) => Categorize(t.lan) == c);
  }

  /** A non-empty whitelist makes the priority list irrelevant. */
  lemma WhitelistOverridesPriority(web: seq<RawEntry>, v2: seq<RawEntry>, dmview: seq<RawEntry>,
                                   whitelist: seq<string>, p1: seq<string>, p2: seq<string>,
                                   download: string -> seq<BodyItem>)
    requires whitelist != []
    ensures Respond(web, v2, dmview, whitelist, p1, download) ==
            Respond(web, v2, dmview, whitelist, p2, download)
  {
  }

  // ---------------------------------------------------------------------
  // Scenarios
  // ---------------------------------------------------------------------

  /** All three endpoints empty: code 1 with empty text and language. */
  lemma NoSubtitlesScenario(whitelist: seq<string>, priority: seq<string>,
                            download: string -> seq<BodyItem>)
    ensures Respond([], [], [], whitelist, priority, download) == Response(1, "", "")
  {
  }

  /** Whitelist ["en-US"] with an en-US and a zh-CN track from the web
      endpoint: the en-US track is downloaded and flattened. */
  lemma WhitelistScenario(web: seq<RawEntry>, whitelist: seq<string>, priority: seq<string>,
                          download: string -> seq<BodyItem>)
    requires web == [RawEntry(Some("u1"), None, Some("en-US"), None),
                     RawEntry(Some("u2"), None, Some("zh-CN"), None)]
    requires whitelist == ["en-US"]
    ensures Respond(web, [], [], whitelist, priority, download) ==
            Response(0, Plaintext(download("u1")), "en-US")
  {
    var subs := [Track("en-US", "u1"), Track("zh-CN", "u2")];
    NormalizedKeepsAll(web, UrlFirst);
    assert Normalized(web, UrlFirst) == subs;
    WhitelistExamples(subs, whitelist);
  }
}
