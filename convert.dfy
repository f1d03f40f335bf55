/**
 * Converting a downloaded subtitle body (its list of caption entries) into
 * plain text or into SRT. The download and JSON decoding are not modelled.
 */
module Convert {
  import opened Optional
  import opened Seqs
  import opened Text

  /** A caption time: whole seconds, and the millisecond field the code
      derives from the fractional part by rounding. Rounding can give 1000
      (for fractions of 0.9995 and above); that case is kept, not excluded. */
  datatype Time = Time(seconds: nat, millis: nat)

  /** One body entry: `from` and `to` (0 when absent) and `content` (None when
      absent or null). */
  datatype BodyItem = BodyItem(from: Time, to: Time, content: Option<string>)

  /** An entry that survives conversion, with its trimmed text. */
  datatype Cue = Cue(from: Time, to: Time, text: string)

  // ---------------------------------------------------------------------
  // fmt_time
  // ---------------------------------------------------------------------

  /** The layout "H:MM:SS,mmm" of four numeric fields. */
  function TimeFields(hh: string, mm: string, ss: string, ms: string): string {
    hh + ":" + mm + ":" + ss + "," + ms
  }

  /** fmt_time: HH:MM:SS,mmm with hours = S div 3600, minutes = (S div 60)
      mod 60, seconds = S mod 60, each field zero-filled to 2, 2, 2 and 3
      digits at least. */
  function FmtTime(t: Time): (r: string)
    ensures |r| >= 12
    ensures t.seconds < 360000 && t.millis < 1000 ==> |r| == 12
  {
    FieldsLength(t.seconds, t.millis);
    TimeFields(ZeroPad(t.seconds / 3600, 2), ZeroPad((t.seconds / 60) % 60, 2),
               ZeroPad(t.seconds % 60, 2), ZeroPad(t.millis, 3))
  }

  /** The width of the four zero-filled fields of a time: 12 characters at
      least, and exactly 12 below 100 hours with a field below 1000. */
  lemma FieldsLength(seconds: nat, millis: nat)
    ensures var s := TimeFields(ZeroPad(seconds / 3600, 2), ZeroPad((seconds / 60) % 60, 2),
                                ZeroPad(seconds % 60, 2), ZeroPad(millis, 3));
            |s| >= 12 && (seconds < 360000 && millis < 1000 ==> |s| == 12)
  {
    ZeroPadWidth((seconds / 60) % 60, 2);
    ZeroPadWidth(seconds % 60, 2);
    if seconds < 360000 && millis < 1000 {
      ZeroPadWidth(seconds / 3600, 2);
      ZeroPadWidth(millis, 3);
    }
  }

  /** Reads an HH:MM:SS,mmm time back (hours of any width of at least two
      digits, the other fields of exactly two, two and three digits); minutes
      and seconds of 60 or more are not a time. */
  function ParseTime(s: string): Option<Time> {
    if |s| < 12 then None
    else
      var n := |s|;
      var hh, mm, ss, ms := s[..n - 10], s[n - 9..n - 7], s[n - 6..n - 4], s[n - 3..];
      if s[n - 10] == ':' && s[n - 7] == ':' && s[n - 4] == ','
         && AllDigits(hh) && AllDigits(mm) && AllDigits(ss) && AllDigits(ms)
         && DigitsValue(mm) < 60 && DigitsValue(ss) < 60
      then Some(Time(DigitsValue(hh) * 3600 + DigitsValue(mm) * 60 + DigitsValue(ss), DigitsValue(ms)))
      else None
  }

  /** Where the fields of a time layout sit, counted from its end. */
  lemma TimeFieldsLayout(hh: string, mm: string, ss: string, ms: string)
    requires |mm| == 2 && |ss| == 2 && |ms| == 3
    ensures var s := TimeFields(hh, mm, ss, ms); var n := |s|;
            n == |hh| + 10 && s[..n - 10] == hh && s[n - 9..n - 7] == mm
            && s[n - 6..n - 4] == ss && s[n - 3..] == ms
            && s[n - 10] == ':' && s[n - 7] == ':' && s[n - 4] == ','
  {
  }

  /** Hours, minutes and seconds recompose the whole seconds. */
  lemma SplitSeconds(total: nat)
    ensures (total / 3600) * 3600 + ((total / 60) % 60) * 60 + total % 60 == total
  {
    var m := total / 60;
    assert total == m * 60 + total % 60;
    assert m == (m / 60) * 60 + m % 60;
    assert m / 60 == total / 3600;
  }

  /** fmt_time loses nothing: with a millisecond field below 1000 the
      formatted time reads back as the time itself. */
  lemma FmtTimeRoundTrip(t: Time)
    requires t.millis < 1000
    ensures ParseTime(FmtTime(t)) == Some(t)
  {
    FieldsReadBack(t.seconds, t.millis);
  }

  /** The four zero-filled fields of a time read back as that time. */
  lemma FieldsReadBack(seconds: nat, millis: nat)
    requires millis < 1000
    ensures var h, m, sec := seconds / 3600, (seconds / 60) % 60, seconds % 60;
            ParseTime(TimeFields(ZeroPad(h, 2), ZeroPad(m, 2), ZeroPad(sec, 2), ZeroPad(millis, 3)))
              == Some(Time(seconds, millis))
  {
    var h, m, sec := seconds / 3600, (seconds / 60) % 60, seconds % 60;
    var hh, mm, ss, ms := ZeroPad(h, 2), ZeroPad(m, 2), ZeroPad(sec, 2), ZeroPad(millis, 3);
    ZeroPadWidth(m, 2);
    ZeroPadWidth(sec, 2);
    ZeroPadWidth(millis, 3);
    ZeroPadDigits(h, 2);
    ZeroPadDigits(m, 2);
    ZeroPadDigits(sec, 2);
    ZeroPadDigits(millis, 3);
    TimeFieldsLayout(hh, mm, ss, ms);
    SplitSeconds(seconds);
  }

  /** A rounded millisecond field of 1000 is printed with four digits, as the
      format spec {ms:03d} does, and the result no longer reads back as a time. */
  lemma FmtTimeMillisOverflow(t: Time)
    requires t.millis == 1000
    ensures |ZeroPad(t.millis, 3)| == 4
    ensures ParseTime(FmtTime(t)).None?
  {
    DecimalLengthLower(1000, 3);
    DecimalLength(1000, 4);
    ZeroPadDigits(1000, 3);
    var hh, mm, ss, ms := ZeroPad(t.seconds / 3600, 2), ZeroPad((t.seconds / 60) % 60, 2),
                          ZeroPad(t.seconds % 60, 2), ZeroPad(t.millis, 3);
    var s := FmtTime(t);
    assert s == (hh + ":" + mm + ":" + ss + ",") + ms;
    assert s[|s| - 4] == ms[0];
  }

  /** Single-digit fields are zero-filled to two characters. */
  lemma PadOneDigit(n: nat)
    requires n < 10
    ensures ZeroPad(n, 2) == ['0', DigitChar(n)]
  {
    assert DecimalString(n) == [DigitChar(n)];
  }

  /** Three-digit numbers need no padding to three. */
  lemma PadThreeDigits(n: nat)
    requires 100 <= n < 1000
    ensures ZeroPad(n, 3) == [DigitChar(n / 100), DigitChar(n / 10 % 10), DigitChar(n % 10)]
  {
    assert DecimalString(n / 100) == [DigitChar(n / 100)];
    assert DecimalString(n / 10) == [DigitChar(n / 100), DigitChar(n / 10 % 10)];
  }

  /** For example, 3725.250 seconds is 01:02:05,250. */
  lemma FmtTimeExample(t: Time)
    requires t == Time(3725, 250)
    ensures FmtTime(t) == "01:02:05,250"
  {
    assert t.seconds / 3600 == 1 && (t.seconds / 60) % 60 == 2 && t.seconds % 60 == 5;
    PadOneDigit(1);
    PadOneDigit(2);
    PadOneDigit(5);
    PadThreeDigits(250);
    assert FmtTime(t) == TimeFields(['0', '1'], ['0', '2'], ['0', '5'], ['2', '5', '0']);
  }

  // ---------------------------------------------------------------------
  // The entries that survive conversion
  // ---------------------------------------------------------------------

  /** `(item.get("content") or "").strip()` */
  function TrimmedContent(item: BodyItem): string {
    Strip(if item.content.Some? then item.content.value else "")
  }

  /** An entry survives when its trimmed content is non-empty; its cue keeps
      the entry's times and carries text with no blanks around it. */
  function CueOf(item: BodyItem): (r: Option<Cue>)
    ensures r.None? <==> TrimmedContent(item) == ""
    ensures r.Some? ==> r.value.from == item.from && r.value.to == item.to
                        && r.value.text != "" && IsStripped(r.value.text)
  {
    var c := TrimmedContent(item);
    if c == "" then None else Some(Cue(item.from, item.to, c))
  }

  /** The surviving entries, in body order: never more than the entries, and
      every cue's text is non-empty and trimmed. */
  function Kept(body: seq<BodyItem>): (r: seq<Cue>)
    ensures |r| <= |body|
    ensures forall k :: 0 <= k < |r| ==> r[k].text != "" && IsStripped(r[k].text)
  {
    var r := FilterMap(body, CueOf);
    assert forall k :: 0 <= k < |r| ==> r[k].text != "" && IsStripped(r[k].text) by {
      forall k | 0 <= k < |r|
        ensures r[k].text != "" && IsStripped(r[k].text)
      {
        FilterMapMember(body, CueOf, r[k]);
      }
    }
    r
  }

  /** An entry is skipped exactly when its content is absent or whitespace only. */
  lemma CueOfNoneIff(item: BodyItem)
    ensures CueOf(item).None? <==> item.content.None? || AllSpace(item.content.value)
  {
    StripEmptyIff(if item.content.Some? then item.content.value else "");
  }

  /** A surviving entry's cue keeps its times and carries its trimmed,
      non-empty content. */
  lemma CueOfSome(item: BodyItem)
    requires CueOf(item).Some?
    ensures CueOf(item).value == Cue(item.from, item.to, TrimmedContent(item))
    ensures TrimmedContent(item) != "" && IsStripped(TrimmedContent(item))
  {
  }

  /** Every surviving cue comes from a body entry, with that entry's times and
      its content trimmed; the text is non-empty and has no surrounding blanks. */
  lemma KeptMember(body: seq<BodyItem>, c: Cue)
    requires c in Kept(body)
    ensures c.text != "" && IsStripped(c.text)
    ensures exists i :: 0 <= i < |body| && body[i].from == c.from && body[i].to == c.to
                        && TrimmedContent(body[i]) == c.text
  {
    FilterMapMember(body, CueOf, c);
    var i :| 0 <= i < |body| && CueOf(body[i]) == Some(c);
    CueOfSome(body[i]);
  }

  // ---------------------------------------------------------------------
  // json_subtitle_to_srt
  // ---------------------------------------------------------------------

  /** The time line of an SRT block. */
  function TimeRange(c: Cue): string {
    FmtTime(c.from) + " --> " + FmtTime(c.to)
  }

  /** The four lines of one SRT block: index, time range, text, blank. */
  function SrtBlock(c: Cue, index: nat): seq<string> {
    [DecimalString(index), TimeRange(c), c.text, ""]
  }

  /** Consecutive blocks of lines, one rendered per cue, the cues numbered
      from `first` on. */
  function Blocks(cues: seq<Cue>, first: nat, render: (Cue, nat) -> seq<string>): seq<string> {
    if cues == [] then []
    else Blocks(cues[..|cues| - 1], first, render) + render(cues[|cues| - 1], first + |cues| - 1)
  }

  /** Appending a cue appends its block, numbered after the others. */
  lemma BlocksSnoc(cues: seq<Cue>, c: Cue, first: nat, render: (Cue, nat) -> seq<string>)
    ensures Blocks(cues + [c], first, render) == Blocks(cues, first, render) + render(c, first + |cues|)
  {
    assert (cues + [c])[..|cues|] == cues;
  }

  /** With blocks of four lines, lines 4k to 4k+3 are the block of cue k,
      numbered first + k. */
  lemma {:induction false} BlocksLayout(cues: seq<Cue>, first: nat, render: (Cue, nat) -> seq<string>)
    requires forall c, i :: |render(c, i)| == 4
    ensures |Blocks(cues, first, render)| == 4 * |cues|
    ensures forall k :: 0 <= k < |cues| ==>
              Blocks(cues, first, render)[4 * k..4 * k + 4] == render(cues[k], first + k)
  {
    if cues != [] {
      var init := cues[..|cues| - 1];
      BlocksLayout(init, first, render);
      var a, b := Blocks(init, first, render), render(cues[|cues| - 1], first + |init|);
      assert Blocks(cues, first, render) == a + b;
      forall k | 0 <= k < |cues|
        ensures (a + b)[4 * k..4 * k + 4] == render(cues[k], first + k)
      {
        if k < |init| {
          assert init[k] == cues[k];
          assert (a + b)[4 * k..4 * k + 4] == a[4 * k..4 * k + 4];
        } else {
          assert (a + b)[4 * k..4 * k + 4] == b;
        }
      }
    }
  }

  /** The SRT lines of consecutive cues numbered from `first` on. */
  function SrtLines(cues: seq<Cue>, first: nat): seq<string> {
    Blocks(cues, first, SrtBlock)
  }

  /** The layout of the SRT lines: four per cue, and lines 4k to 4k+3 are the
      block of cue k, numbered first + k. */
  lemma SrtLinesLayout(cues: seq<Cue>, first: nat)
    ensures |SrtLines(cues, first)| == 4 * |cues|
    ensures forall k :: 0 <= k < |cues| ==>
              SrtLines(cues, first)[4 * k..4 * k + 4] == SrtBlock(cues[k], first + k)
  {
    BlocksLayout(cues, first, SrtBlock);
  }

  /** The numbering of the SRT output: the index lines read 1, 2, ..., N for
      the N surviving entries, with no gaps, and block k holds the k-th
      surviving entry; blank entries consume no number. */
  lemma SrtNumbering(body: seq<BodyItem>)
    ensures |SrtLines(Kept(body), 1)| == 4 * |Kept(body)|
    ensures forall k :: 0 <= k < |Kept(body)| ==>
              AllDigits(SrtLines(Kept(body), 1)[4 * k])
              && DigitsValue(SrtLines(Kept(body), 1)[4 * k]) == k + 1
              && SrtLines(Kept(body), 1)[4 * k + 2] == Kept(body)[k].text
  {
    SrtIndexLines(Kept(body));
  }

  /** The index and text lines of the blocks of any cue list numbered from 1. */
  lemma SrtIndexLines(cues: seq<Cue>)
    ensures |SrtLines(cues, 1)| == 4 * |cues|
    ensures forall k :: 0 <= k < |cues| ==>
              AllDigits(SrtLines(cues, 1)[4 * k])
              && DigitsValue(SrtLines(cues, 1)[4 * k]) == k + 1
              && SrtLines(cues, 1)[4 * k + 2] == cues[k].text
  {
    assert forall c, i :: |SrtBlock(c, i)| == 4 && SrtBlock(c, i)[0] == DecimalString(i)
                          && SrtBlock(c, i)[2] == c.text;
    IndexedBlocks(cues, SrtBlock);
  }

  /** For blocks of four lines that open with their number and hold the cue's
      text third, numbered from 1: line 4k reads k + 1 and line 4k + 2 is the
      k-th text. */
  lemma IndexedBlocks(cues: seq<Cue>, render: (Cue, nat) -> seq<string>)
    requires forall c, i :: |render(c, i)| == 4 && render(c, i)[0] == DecimalString(i)
                            && render(c, i)[2] == c.text
    ensures |Blocks(cues, 1, render)| == 4 * |cues|
    ensures forall k :: 0 <= k < |cues| ==>
              AllDigits(Blocks(cues, 1, render)[4 * k])
              && DigitsValue(Blocks(cues, 1, render)[4 * k]) == k + 1
              && Blocks(cues, 1, render)[4 * k + 2] == cues[k].text
  {
    var lines := Blocks(cues, 1, render);
    BlocksLayout(cues, 1, render);
    forall k | 0 <= k < |cues|
      ensures AllDigits(lines[4 * k]) && DigitsValue(lines[4 * k]) == k + 1
      ensures lines[4 * k + 2] == cues[k].text
    {
      IndexedBlock(lines, k, render(cues[k], 1 + k));
    }
  }

  /** Block k of a line list that opens with the numeral of k + 1. */
  lemma IndexedBlock(lines: seq<string>, k: nat, block: seq<string>)
    requires 4 * k + 4 <= |lines| && lines[4 * k..4 * k + 4] == block
    requires |block| == 4 && block[0] == DecimalString(k + 1)
    ensures AllDigits(lines[4 * k]) && DigitsValue(lines[4 * k]) == k + 1
    ensures lines[4 * k + 2] == block[2]
  {
    DecimalStringDigits(k + 1);
    assert block[0] == lines[4 * k];
    assert block[2] == lines[4 * k + 2];
  }

  /** The SRT text: the block lines joined by newlines. */
  function Srt(body: seq<BodyItem>): string {
    Join(SrtLines(Kept(body), 1), "\n")
  }

  /** Kept grows by the entry's cue, if it has one. */
  lemma KeptSnoc(body: seq<BodyItem>, i: nat)
    requires i < |body|
    ensures CueOf(body[i]).None? ==> Kept(body[..i + 1]) == Kept(body[..i])
    ensures CueOf(body[i]).Some? ==> Kept(body[..i + 1]) == Kept(body[..i]) + [CueOf(body[i]).value]
  {
    assert body[..i + 1][..i] == body[..i];
  }

  /** json_subtitle_to_srt: walk the body with a running index that advances
      only on entries whose trimmed content is non-empty, emitting four lines
      for each, and join the lines with newlines. */
  method JsonSubtitleToSrt(body: seq<BodyItem>) returns (srt: string)
    ensures srt == Srt(body)
  {
    var lines: seq<string> := [];
    var index := 1;
    for i := 0 to |body|
      invariant index == |Kept(body[..i])| + 1
      invariant lines == SrtLines(Kept(body[..i]), 1)
    {
      KeptSnoc(body, i);
      var item := body[i];
      var start := item.from;
      var end := item.to;
      var content := TrimmedContent(item);
      if content == "" {
        continue;
      }
      BlocksSnoc(Kept(body[..i]), Cue(start, end, content), 1, SrtBlock);
      lines := lines + [DecimalString(index), FmtTime(start) + " --> " + FmtTime(end), content, ""];
      index := index + 1;
    }
    assert body[..|body|] == body;
    srt := Join(lines, "\n");
  }

  // ---------------------------------------------------------------------
  // subtitle_json_to_plaintext
  // ---------------------------------------------------------------------

  /** The trimmed, non-empty contents, in body order. */
  function Parts(body: seq<BodyItem>): seq<string> {
    FilterMap(body, PartOf)
  }

  /** An entry's plain-text line: its trimmed content when that is non-empty. */
  function PartOf(item: BodyItem): Option<string> {
    var c := TrimmedContent(item);
    if c == "" then None else Some(c)
  }

  /** The plain text: the parts joined by newlines. */
  function Plaintext(body: seq<BodyItem>): string {
    Join(Parts(body), "\n")
  }

  /** subtitle_json_to_plaintext: collect each non-empty trimmed content and
      join them with newlines. */
  method SubtitleJsonToPlaintext(body: seq<BodyItem>) returns (text: string)
    ensures text == Plaintext(body)
  {
    var parts: seq<string> := [];
    for i := 0 to |body|
      invariant parts == Parts(body[..i])
    {
      assert body[..i + 1][..i] == body[..i];
      var item := body[i];
      var content := TrimmedContent(item);
      if content != "" {
        parts := parts + [content];
      }
    }
    assert body[..|body|] == body;
    text := Join(parts, "\n");
  }

  /** The plain-text lines are exactly the text lines of the SRT blocks: both
      converters keep the same entries, in the same order, trimmed alike. */
  lemma {:induction false} PartsAreCueTexts(body: seq<BodyItem>)
    ensures |Parts(body)| == |Kept(body)|
    ensures forall k :: 0 <= k < |Parts(body)| ==> Parts(body)[k] == Kept(body)[k].text
  {
    if body != [] {
      var init := body[..|body| - 1];
      var last := body[|body| - 1];
      PartsAreCueTexts(init);
      if TrimmedContent(last) == "" {
        assert Parts(body) == Parts(init);
        assert Kept(body) == Kept(init);
      } else {
        assert Parts(body) == Parts(init) + [TrimmedContent(last)];
        assert Kept(body) == Kept(init) + [Cue(last.from, last.to, TrimmedContent(last))];
      }
    }
  }

  /** The plain text is empty exactly when every entry is blank. */
  lemma PlaintextEmptyIff(body: seq<BodyItem>)
    ensures Plaintext(body) == "" <==>
            forall i :: 0 <= i < |body| ==> body[i].content.None? || AllSpace(body[i].content.value)
  {
    PartsAreCueTexts(body);
    forall k | 0 <= k < |Parts(body)|
      ensures Parts(body)[k] != []
    {
      assert Kept(body)[k] in Kept(body);
      KeptMember(body, Kept(body)[k]);
    }
    JoinEmptyIff(Parts(body), "\n");
    FilterMapEmpty(body, CueOf);
    forall i | 0 <= i < |body|
      ensures CueOf(body[i]).None? <==> body[i].content.None? || AllSpace(body[i].content.value)
    {
      CueOfNoneIff(body[i]);
    }
  }
}
