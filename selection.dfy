/**
 * Track selection: the language categories, priority selection over the
 * category buckets, and the language-code whitelist that overrides it.
 */
module Selection {
  import opened Optional
  import opened Seqs
  import opened Text
  import opened Tracks

  // ---------------------------------------------------------------------
  // categorize_language
  // ---------------------------------------------------------------------

  datatype Category = En | Zh | Other

  /** The bucket key of a category. */
  function CategoryName(c: Category): string {
    match c
    case En => "en"
    case Zh => "zh"
    case Other => "other"
  }

  /** The category a priority name denotes, if any: only the exact keys
      "en", "zh" and "other" name a bucket. */
  function CategoryOf(name: string): (r: Option<Category>)
    ensures r.Some? <==> name == "en" || name == "zh" || name == "other"
    ensures r.Some? ==> CategoryName(r.value) == name
    ensures forall c :: CategoryName(c) == name ==> r == Some(c)
  {
    if name == "en" then Some(En)
    else if name == "zh" then Some(Zh)
    else if name == "other" then Some(Other)
    else None
  }

  /** A lower-cased code in the English family: ai-en..., en, en-... */
  predicate IsEnCode(l: string) {
    StartsWith(l, "ai-en") || l == "en" || StartsWith(l, "en-")
  }

  /** A lower-cased code in the Chinese family: ai-zh..., zh, zh-... */
  predicate IsZhCode(l: string) {
    StartsWith(l, "ai-zh") || l == "zh" || StartsWith(l, "zh-")
  }

  /** A string that starts with p agrees with p on p's positions. */
  lemma StartsWithAt(l: string, p: string)
    requires StartsWith(l, p)
    ensures forall i :: 0 <= i < |p| ==> l[i] == p[i]
  {
    assert forall i :: 0 <= i < |p| ==> l[..|p|][i] == l[i];
  }

  /** No code is in both families, so the order of the two tests is immaterial. */
  lemma FamiliesDisjoint(l: string)
    ensures !(IsEnCode(l) && IsZhCode(l))
  {
    if StartsWith(l, "ai-en") { StartsWithAt(l, "ai-en"); }
    if StartsWith(l, "en-") { StartsWithAt(l, "en-"); }
    if StartsWith(l, "ai-zh") { StartsWithAt(l, "ai-zh"); }
    if StartsWith(l, "zh-") { StartsWithAt(l, "zh-"); }
    if l == "en" { assert l[0] == 'e'; }
    if l == "zh" { assert l[0] == 'z'; }
  }

  /** categorize_language: every code falls into exactly one category,
      decided on its lower-cased form. */
  function Categorize(lan: string): (c: Category)
    ensures c == En <==> IsEnCode(Lower(lan))
    ensures c == Zh <==> IsZhCode(Lower(lan))
    ensures c == Other <==> !IsEnCode(Lower(lan)) && !IsZhCode(Lower(lan))
  {
    var l := Lower(lan);
    FamiliesDisjoint(l);
    if IsEnCode(l) then En
    else if IsZhCode(l) then Zh
    else Other
  }

  /** Letter case never changes the category. */
  lemma CategorizeIgnoresCase(a: string, b: string)
    requires Lower(a) == Lower(b)
    ensures Categorize(a) == Categorize(b)
  {
  }

  /** "EN-us" and "AI-zh" are recognised; "english" and "zh_CN" are not. */
  lemma CategorizeExamples(a: string, b: string, c: string, d: string)
    requires a == "EN-us" && b == "AI-zh" && c == "english" && d == "zh_CN"
    ensures Categorize(a) == En && Categorize(b) == Zh
    ensures Categorize(c) == Other && Categorize(d) == Other
  {
    assert Lower(a)[..3] == "en-";
    assert Lower(b)[..5] == "ai-zh";
    var lc, ld := Lower(c), Lower(d);
    assert lc[0] == 'e' && lc[2] == 'g' && |lc| == 7;
    if StartsWith(lc, "ai-en") { StartsWithAt(lc, "ai-en"); }
    if StartsWith(lc, "en-") { StartsWithAt(lc, "en-"); }
    assert ld[0] == 'z' && ld[2] == '_' && |ld| == 5;
    if StartsWith(ld, "ai-zh") { StartsWithAt(ld, "ai-zh"); }
    if StartsWith(ld, "zh-") { StartsWithAt(ld, "zh-"); }
    if StartsWith(ld, "ai-en") { StartsWithAt(ld, "ai-en"); }
    if StartsWith(ld, "en-") { StartsWithAt(ld, "en-"); }
  }

  // ---------------------------------------------------------------------
  // select_by_priority
  // ---------------------------------------------------------------------

  /** The tracks of one category, in their original order. */
  function Bucket(subs: seq<Track>, c: Category): seq<Track> {
    Filter(subs, (t: Track) => Categorize(t.lan) == c)
  }

  /** The buckets dictionary select_by_priority builds. */
  function Buckets(subs: seq<Track>): map<string, seq<Track>> {
    map["en" := Bucket(subs, En), "zh" := Bucket(subs, Zh), "other" := Bucket(subs, Other)]
  }

  /** A track is in a bucket exactly when it is a track of that category. */
  lemma BucketMember(subs: seq<Track>, c: Category, t: Track)
    ensures t in Bucket(subs, c) <==> t in subs && Categorize(t.lan) == c
  {
    FilterMember(subs, (t: Track) => Categorize(t.lan) == c, t);
  }

  /** Bucketing keeps the tracks' order: it distributes over concatenation. */
  lemma BucketAppend(a: seq<Track>, b: seq<Track>, c: Category)
    ensures Bucket(a + b, c) == Bucket(a, c) + Bucket(b, c)
  {
    FilterAppend(a, b, (t: Track) => Categorize(t.lan) == c);
  }

  /** The three buckets partition the tracks: together they hold every track
      exactly as often as the input does, so their sizes add up. */
  lemma {:induction false} BucketsPartition(subs: seq<Track>)
    ensures multiset(subs) ==
            multiset(Bucket(subs, En)) + multiset(Bucket(subs, Zh)) + multiset(Bucket(subs, Other))
    ensures |Bucket(subs, En)| + |Bucket(subs, Zh)| + |Bucket(subs, Other)| == |subs|
  {
    if subs != [] {
      var init, t := subs[..|subs| - 1], subs[|subs| - 1];
      BucketsPartition(init);
      assert subs == init + [t];
      BucketsStep(init, t);
    }
    var e, z, o := Bucket(subs, En), Bucket(subs, Zh), Bucket(subs, Other);
    assert |multiset(e) + multiset(z) + multiset(o)| == |e| + |z| + |o|;
  }

  /** One track more adds it, once, to exactly one of the three buckets. */
  lemma BucketsStep(s: seq<Track>, t: Track)
    ensures multiset(Bucket(s + [t], En)) + multiset(Bucket(s + [t], Zh)) + multiset(Bucket(s + [t], Other))
            == multiset(Bucket(s, En)) + multiset(Bucket(s, Zh)) + multiset(Bucket(s, Other)) + multiset{t}
  {
    BucketSnoc(s, t, En);
    BucketSnoc(s, t, Zh);
    BucketSnoc(s, t, Other);
  }

  /** A priority name names a category whose bucket is non-empty. */
  predicate Available(subs: seq<Track>, name: string) {
    CategoryOf(name).Some? && Bucket(subs, CategoryOf(name).value) != []
  }

  /** What select_by_priority returns: the whole bucket of the first priority
      name that is available, with that name; ([], "") when none is. */
  function PrioritySelection(subs: seq<Track>, priority: seq<string>): (seq<Track>, string) {
    if priority == [] then ([], "")
    else if Available(subs, priority[0]) then (Bucket(subs, CategoryOf(priority[0]).value), priority[0])
    else PrioritySelection(subs, priority[1..])
  }

  /** Appending a track extends its own category's bucket by it. */
  lemma BucketSnoc(s: seq<Track>, t: Track, c: Category)
    ensures Bucket(s + [t], c) == if Categorize(t.lan) == c then Bucket(s, c) + [t] else Bucket(s, c)
  {
    assert (s + [t])[..|s|] == s;
  }

  /** Appending a track adds it to the end of its own category's bucket only. */
  lemma BucketsSnoc(s: seq<Track>, t: Track)
    ensures var key := CategoryName(Categorize(t.lan));
            Buckets(s + [t]) == Buckets(s)[key := Buckets(s)[key] + [t]]
  {
    BucketSnoc(s, t, En);
    BucketSnoc(s, t, Zh);
    BucketSnoc(s, t, Other);
  }

  /** Looking a priority name up in the buckets dictionary: present exactly
      for the three category names, and then that category's bucket. */
  lemma BucketsLookup(subs: seq<Track>, name: string)
    ensures name in Buckets(subs) <==> CategoryOf(name).Some?
    ensures name in Buckets(subs) ==> Buckets(subs)[name] == Bucket(subs, CategoryOf(name).value)
  {
  }

  /** select_by_priority: fill the three buckets in one pass over the tracks,
      then return the first non-empty bucket the priority list names. */
  method SelectByPriority(subs: seq<Track>, priority: seq<string>) returns (selected: seq<Track>, picked: string)
    ensures (selected, picked) == PrioritySelection(subs, priority)
  {
    var buckets: map<string, seq<Track>> := map["en" := [], "zh" := [], "other" := []];
    assert buckets == Buckets(subs[..0]);
    for i := 0 to |subs|
      invariant buckets == Buckets(subs[..i])
    {
      var it := subs[i];
      var key := CategoryName(Categorize(it.lan));
      assert subs[..i + 1] == subs[..i] + [it];
      BucketsSnoc(subs[..i], it);
      buckets := buckets[key := buckets[key] + [it]];
    }
    assert subs[..|subs|] == subs;
    for j := 0 to |priority|
      invariant buckets == Buckets(subs)
      invariant PrioritySelection(subs, priority) == PrioritySelection(subs, priority[j..])
    {
      var p := priority[j];
      BucketsLookup(subs, p);
      if p in buckets && buckets[p] != [] {
        return buckets[p], p;
      }
      assert priority[j..][1..] == priority[j + 1..];
    }
    return [], "";
  }

  /** select_by_priority's guarantees. The result is non-empty exactly when
      some priority name is available. Then it is the whole bucket of the
      FIRST available name, paired with that name; otherwise it is ([], ""). */
  lemma {:induction false} PrioritySelectionFirstAvailable(subs: seq<Track>, priority: seq<string>)
    ensures PrioritySelection(subs, priority).0 != [] <==>
            exists k :: 0 <= k < |priority| && Available(subs, priority[k])
    ensures PrioritySelection(subs, priority).0 == [] ==> PrioritySelection(subs, priority).1 == ""
    ensures PrioritySelection(subs, priority).0 != [] ==>
            exists k :: 0 <= k < |priority| && Available(subs, priority[k])
              && (forall q :: 0 <= q < k ==> !Available(subs, priority[q]))
              && PrioritySelection(subs, priority).1 == priority[k]
              && PrioritySelection(subs, priority).0 == Bucket(subs, CategoryOf(priority[k]).value)
  {
    if priority != [] && !Available(subs, priority[0]) {
      var rest := priority[1..];
      PrioritySelectionFirstAvailable(subs, rest);
      assert forall k :: 1 <= k < |priority| ==> priority[k] == rest[k - 1];
      if PrioritySelection(subs, rest).0 != [] {
        var k :| 0 <= k < |rest| && Available(subs, rest[k])
              && (forall q :: 0 <= q < k ==> !Available(subs, rest[q]))
              && PrioritySelection(subs, rest).1 == rest[k]
              && PrioritySelection(subs, rest).0 == Bucket(subs, CategoryOf(rest[k]).value);
        assert priority[k + 1] == rest[k];
      }
    }
  }

  /** Priority selection never mixes categories: every selected track has
      the category that the returned name denotes. */
  lemma PrioritySelectionSingleCategory(subs: seq<Track>, priority: seq<string>, t: Track)
    requires t in PrioritySelection(subs, priority).0
    ensures CategoryOf(PrioritySelection(subs, priority).1).Some?
    ensures t in subs && CategoryName(Categorize(t.lan)) == PrioritySelection(subs, priority).1
  {
    PrioritySelectionFirstAvailable(subs, priority);
    var k :| 0 <= k < |priority| && Available(subs, priority[k])
          && PrioritySelection(subs, priority).1 == priority[k]
          && PrioritySelection(subs, priority).0 == Bucket(subs, CategoryOf(priority[k]).value);
    BucketMember(subs, CategoryOf(priority[k]).value, t);
  }

  /** Names outside {en, zh, other} are skipped: removing one from the
      priority list does not change the selection. */
  lemma {:induction false} UnknownNamesSkipped(subs: seq<Track>, a: seq<string>, name: string, b: seq<string>)
    requires CategoryOf(name).None?
    ensures PrioritySelection(subs, a + [name] + b) == PrioritySelection(subs, a + b)
  {
    if a == [] {
      assert a + [name] + b == [name] + b;
      assert ([name] + b)[1..] == b;
      assert a + b == b;
    } else {
      assert (a + [name] + b)[0] == a[0] && (a + b)[0] == a[0];
      assert (a + [name] + b)[1..] == a[1..] + [name] + b;
      assert (a + b)[1..] == a[1..] + b;
      UnknownNamesSkipped(subs, a[1..], name, b);
    }
  }

  /** The default priority ["en", "zh", "other"] selects something whenever
      there is a track at all. */
  const DefaultPriority: seq<string> := ["en", "zh", "other"]

  lemma DefaultPriorityTotal(subs: seq<Track>)
    requires subs != []
    ensures PrioritySelection(subs, DefaultPriority).0 != []
  {
    BucketsPartition(subs);
    PrioritySelectionFirstAvailable(subs, DefaultPriority);
    if Bucket(subs, En) != [] {
      assert Available(subs, DefaultPriority[0]);
    } else if Bucket(subs, Zh) != [] {
      assert Available(subs, DefaultPriority[1]);
    } else {
      assert Available(subs, DefaultPriority[2]);
    }
  }

  /** With priority zh, en, other and only English tracks, the English bucket is chosen. */
  lemma PriorityFallsThroughExample(subs: seq<Track>, priority: seq<string>)
    requires subs == [Track("en-US", "u1"), Track("ai-en", "u2")]
    requires priority == ["zh", "en", "other"]
    ensures PrioritySelection(subs, priority) == (subs, "en")
  {
    EnUsIsEn(subs[0].lan);
    AiEnIsEn(subs[1].lan);
    FilterAll(subs, (t: Track) => Categorize(t.lan) == En);
    FilterEmpty(subs, (t: Track) => Categorize(t.lan) == Zh);
    assert priority[1..] == ["en", "other"];
  }

  lemma EnUsIsEn(lan: string)
    requires lan == "en-US"
    ensures Categorize(lan) == En
  {
    assert Lower(lan)[..3] == "en-";
  }

  lemma AiEnIsEn(lan: string)
    requires lan == "ai-en"
    ensures Categorize(lan) == En
  {
    assert Lower(lan)[..5] == "ai-en";
  }

  // ---------------------------------------------------------------------
  // The whitelist filter of fetch_bilibili_subtitle_text
  // ---------------------------------------------------------------------

  /** A language code passes the whitelist when it equals an entry, or starts
      with an entry that itself ends in "-". */
  predicate WhitelistMatch(lan: string, whitelist: seq<string>) {
    exists w :: w in whitelist && (lan == w || (StartsWith(lan, w) && EndsWith(w, "-")))
  }

  /** The whitelisted tracks, in their original order. */
  function WhitelistFilter(subs: seq<Track>, whitelist: seq<string>): seq<Track> {
    Filter(subs, (t: Track) => WhitelistMatch(t.lan, whitelist))
  }

  /** The whitelist loop: append each track whose code passes the whitelist. */
  method FilterByWhitelist(subs: seq<Track>, whitelist: seq<string>) returns (selected: seq<Track>)
    ensures selected == WhitelistFilter(subs, whitelist)
  {
    selected := [];
    for i := 0 to |subs|
      invariant selected == WhitelistFilter(subs[..i], whitelist)
    {
      assert subs[..i + 1][..i] == subs[..i];
      var it := subs[i];
      var lan := it.lan;
      if WhitelistMatch(lan, whitelist) {
        selected := selected + [it];
      }
    }
    assert subs[..|subs|] == subs;
  }

  /** Exactly the tracks whose code passes the whitelist are kept. */
  lemma WhitelistFilterMember(subs: seq<Track>, whitelist: seq<string>, t: Track)
    ensures t in WhitelistFilter(subs, whitelist) <==> t in subs && WhitelistMatch(t.lan, whitelist)
  {
    FilterMember(subs, (t: Track) => WhitelistMatch(t.lan, whitelist), t);
  }

  /** Whitelist filtering keeps the tracks' order: it distributes over concatenation. */
  lemma WhitelistFilterAppend(a: seq<Track>, b: seq<Track>, whitelist: seq<string>)
    ensures WhitelistFilter(a + b, whitelist) == WhitelistFilter(a, whitelist) + WhitelistFilter(b, whitelist)
  {
    FilterAppend(a, b, (t: Track) => WhitelistMatch(t.lan, whitelist));
  }

  /** "en-US" keeps only the en-US track; matching is exact and case-sensitive
      unless the entry ends in "-", which makes it a prefix. */
  lemma WhitelistExamples(subs: seq<Track>, wl: seq<string>)
    requires subs == [Track("en-US", "u1"), Track("zh-CN", "u2")]
    requires wl == ["en-US"]
    ensures WhitelistFilter(subs, wl) == [subs[0]]
    ensures !WhitelistMatch("EN-US", wl) && !WhitelistMatch("zh-CN", ["zh"])
    ensures WhitelistMatch("zh-CN", ["zh-"]) && WhitelistMatch("zh-Hans", ["zh-"])
  {
    assert WhitelistMatch(subs[0].lan, wl) by {
      assert wl[0] in wl && wl[0] == subs[0].lan;
    }
    assert !WhitelistMatch(subs[1].lan, wl) by {
      assert subs[1].lan[0] != wl[0][0];
    }
    assert subs[..1][..0] == [];
    assert WhitelistFilter(subs[..1], wl) == [subs[0]];
    assert WhitelistFilter(subs, wl) == WhitelistFilter(subs[..1], wl);
    assert !WhitelistMatch("EN-US", wl) by {
      assert "EN-US"[0] != wl[0][0];
      assert !EndsWith(wl[0], "-");
    }
    assert !WhitelistMatch("zh-CN", ["zh"]) by {
      assert !EndsWith("zh", "-");
    }
    var prefix := "zh-";
    assert prefix in [prefix] && EndsWith(prefix, "-");
    assert WhitelistMatch("zh-CN", [prefix]) by {
      assert "zh-CN"[..3] == prefix;
    }
    assert WhitelistMatch("zh-Hans", [prefix]) by {
      assert "zh-Hans"[..3] == prefix;
    }
  }
}
