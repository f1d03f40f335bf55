# BBsubtitle subtitle pipeline, modelled in Dafny

BBsubtitle fetches the subtitles of a Bilibili video. Its core is a
single pipeline in `main.py`:

1. The user's reference (a bare BV id, a video URL or a short link) is resolved to a BV id.
2. Three metadata endpoints are asked in turn for the video's subtitle tracks: the web player, then player v2, then danmaku view.
3. One track is chosen, either by a language whitelist or by a priority list of the language categories `en`, `zh` and `other`.
4. That track's caption body is downloaded and flattened to plain text or converted to SRT.

The unified entry point `fetch_bilibili_subtitle_text` reports the outcome as a status code:

- 0: success.
- 1: no endpoint yields a track.
- 2: a whitelist was given and no track passes it.
- 3: no category in the priority list has a track.

Each result comes with the text and the language of the chosen track.

The model has one module per stage. The network is a set of parameters:

- The short-link redirect is a function from the URL to the final URL (None when the request fails).
- Each endpoint's subtitle entry list is given directly.
- The download is a function from a track URL to the caption body it serves.

Pure logic is written as functions with lemmas. The loops of the original (entry normalisation, bucketing, the whitelist filter, the SRT and plain-text converters) are methods with `for` loops. Each method is proved equal to a specification function, and the properties of the source are proved about those functions.

| file | module | models |
|---|---|---|
| `seqs.dfy` | `Optional`, `Seqs` | the option type; order-preserving filter and filter-map, the shape of every "append the entries that pass" loop |
| `text.dfy` | `Text` | Python's `strip`, `lower`, `startswith`/`endswith`/`in`, `"\n".join`, `str(n)` and `{n:0Wd}` over ASCII |
| `resolver.dfy` | `Resolver` | `_normalize_url`; the `BV[0-9A-Za-z]+` search; `parse_input_to_bvid` |
| `tracks.dfy` | `Tracks` | the three track-normalisation loops; the web → v2 → danmaku-view fallback |
| `selection.dfy` | `Selection` | `categorize_language`; `select_by_priority`; the whitelist filter |
| `convert.dfy` | `Convert` | `fmt_time`; `json_subtitle_to_srt`; `subtitle_json_to_plaintext` |
| `fetch.dfy` | `Fetch` | `fetch_bilibili_subtitle_text` from track enumeration on, with its status codes |

Three details of the code that the model keeps exactly:

- **Whitelist matching.** A whitelist entry matches a language code only by equality, unless the entry itself ends in `-`, in which case it matches as a prefix (`main.py:258`). So `zh` does not admit `zh-CN`, but `zh-` does.
- **Adding a scheme.** `_normalize_url` adds `https://` only to inputs that begin with one of six fixed hosts and a slash (`main.py:18-20`). An input without a scheme that begins with any other text is returned as it is.
- **Two host lists.** The host list in `_normalize_url` also contains `bili.tv` and `bili.com`. These are absent from the four domains whose presence triggers a redirect lookup (`main.py:33`).

## Model

| member | source | states |
|---|---|---|
| Text.Strip | main.py:14 | the result is a contiguous slice of the input with only whitespace removed on either side, and it has no whitespace at either end |
| Text.StripEmptyIff | main.py:188-189 | a string strips to empty exactly when it is all whitespace |
| Text.StripIdempotent | main.py:14 | stripping twice is stripping once |
| Text.Lower | main.py:156 | lower-casing keeps the length, leaves no upper-case letter, keeps every character that is not an upper-case letter, and turns each upper-case letter into the same letter in lower case |
| Text.LowerIdempotent | main.py:156 | lower-casing twice is lower-casing once |
| Text.Join | main.py:196 | joining no parts gives the empty string; otherwise the result starts with the first part and ends with the last |
| Text.JoinSnoc | main.py:196 | one part joins to itself, and each further part follows the join of the parts before it after exactly one separator; with the empty join, these equations determine the result for every list |
| Text.DecimalStringDigits | main.py:191 | `str(index)` is all digits, reads back as the index, and has no leading zero |
| Text.ZeroPadDigits | main.py:181 | a zero-filled field is all digits and reads back as the number |
| Text.ZeroPadWidth | main.py:181 | a number below 10^W is printed in exactly W characters |
| Resolver.HasSchemeCorrect | main.py:15 | the greedy scan agrees with the pattern `^[a-zA-Z][a-zA-Z0-9+.-]*://` on every string, in both directions |
| Resolver.NormalizeUrl | main.py:12-20 | the result is the stripped input, and `https://` is prefixed exactly when the input has no scheme and begins, ignoring case, with one of the six short-link hosts and a slash |
| Resolver.NormalizeUrlIdempotent | main.py:12-20 | normalising a normalised URL changes nothing |
| Resolver.ShortLinkGetsHttps | main.py:18-19 | a short link without a scheme gets the `https://` scheme |
| Resolver.ShortLinkExample | main.py:18-19 | `b23.tv/abc` becomes `https://b23.tv/abc` |
| Resolver.SearchBV | main.py:26-28 | the search finds nothing exactly when no position starts `BV` plus an alphanumeric; otherwise the result is a BV id, namely the leftmost match extended over the whole alphanumeric run |
| Resolver.SearchBVAfter | main.py:26-28 | an id preceded by text that has no `B` is found exactly |
| Resolver.SearchBVOfId | main.py:26-28 | a bare BV id is returned unchanged |
| Resolver.ParseInputToBvid | main.py:23-46 | a BV id in the raw input wins; in every case the result is a BV id or the stripped input |
| Resolver.ParseIgnoresResolverWhenIdPresent | main.py:26-28 | with an id in the input, the redirect is never consulted |
| Resolver.ParseFollowsRedirect | main.py:33-41 | without an id in the input, a short link's final URL supplies the id |
| Resolver.ParseFallsBackToStripped | main.py:30-46 | with no id in the input, the result is the stripped input when no lookup is made, when the lookup fails, or when the URL it lands on (`resp.url or url`) holds no id |
| Resolver.CanonicalUrlExample | main.py:26-28 | a canonical video URL yields its id whatever the redirect would return |
| Tracks.Or | main.py:88-89 | Python's `a or b` on optional strings: the result is truthy exactly when one operand is, and it is the first operand when that one is truthy and the second operand itself otherwise |
| Tracks.NormalizeEntry | main.py:87-91 | an entry becomes a track exactly when one of its URL fields is non-empty; the URL is the first non-empty field in the endpoint's order; the language is `lan`, else `lang_key`, else empty |
| Tracks.NormalizeEntries | main.py:86-92 | the loop returns the normalised tracks of the entries in order; the player-v2 loop (main.py:115-121) is the same, and the danmaku-view loop (main.py:146-152) differs only in reading `subtitle_url` first |
| Tracks.NormalizedMember | main.py:87-91 | a track is listed exactly when some entry normalises to it, and every listed track has a URL |
| Tracks.NormalizedAppend | main.py:87-91 | normalisation keeps the entries' order: it distributes over concatenation |
| Tracks.NormalizedKeepsAll | main.py:87-91 | when every entry has a URL, nothing is dropped and the i-th track comes from the i-th entry |
| Tracks.UrlOrderMatters | main.py:148 | the danmaku-view endpoint prefers `subtitle_url` where the player endpoints prefer `url` |
| Tracks.Enumerate | main.py:247-253 | the track list is empty exactly when all three endpoints yield nothing; it is the web list when that is non-empty, else v2's when that is non-empty, else danmaku view's; lists are never merged |
| Tracks.EnumerateTracks | main.py:247-252 | the fallback code computes that list |
| Selection.CategoryOf | main.py:165-170 | the bucket key for a priority name is present exactly for `en`, `zh` and `other` |
| Selection.Categorize | main.py:155-161 | `en` exactly for the lower-cased codes starting `ai-en` or `en-` or equal to `en`; `zh` exactly for the Chinese family (`ai-zh`, `zh-`, `zh`); `other` exactly for the codes in neither family |
| Selection.FamiliesDisjoint | main.py:157-160 | no code is in both the English and the Chinese family, so the test order does not matter |
| Selection.CategorizeIgnoresCase | main.py:156 | codes with the same lower-case form get the same category |
| Selection.CategorizeExamples | main.py:155-161 | `EN-us` is en, `AI-zh` is zh, `english` and `zh_CN` are other |
| Selection.BucketMember | main.py:165-167 | a track is in a bucket exactly when it is a track of that category |
| Selection.BucketAppend | main.py:165-167 | bucketing keeps the tracks' order |
| Selection.BucketsPartition | main.py:165-167 | the three buckets partition the tracks: as multisets they add up to the input, so every track is in exactly as many bucket places as it occurs in the input, and the sizes add up |
| Selection.BucketsSnoc | main.py:166-167 | one loop step appends the track to its own category's bucket and leaves the others unchanged |
| Selection.SelectByPriority | main.py:164-171 | the method returns the whole bucket of the first priority name that has one, with that name, or `([], "")` |
| Selection.PrioritySelectionFirstAvailable | main.py:168-171 | the selection is non-empty exactly when some priority name is available; it is then the whole bucket of the first available name, paired with that name; otherwise the name is empty |
| Selection.PrioritySelectionSingleCategory | main.py:168-170 | every selected track belongs to the category the returned name denotes: categories are never mixed |
| Selection.UnknownNamesSkipped | main.py:168-170 | a priority name that is not a bucket key is skipped |
| Selection.DefaultPriorityTotal | main.py:263-264 | the default order `en, zh, other` selects something whenever there is any track |
| Selection.PriorityFallsThroughExample | main.py:168-170 | with priority `zh, en, other` and only English tracks, the `en` bucket is chosen |
| Selection.FilterByWhitelist | main.py:255-259 | the loop keeps, in order, the tracks whose code equals a whitelist entry or starts with an entry ending in `-` |
| Selection.WhitelistFilterMember | main.py:256-259 | exactly the tracks whose code passes the whitelist are kept |
| Selection.WhitelistFilterAppend | main.py:256-259 | the filter keeps the tracks' order |
| Selection.WhitelistExamples | main.py:258 | `en-US` keeps only the en-US track; matching is case-sensitive; `zh` is not a prefix but `zh-` is |
| Convert.FmtTime | main.py:176-181 | every formatted time has at least 12 characters, and exactly 12 below 100 hours with a millisecond field below 1000 |
| Convert.SplitSeconds | main.py:178-180 | hours, minutes and seconds recompose the whole seconds |
| Convert.FmtTimeRoundTrip | main.py:176-181 | with a millisecond field below 1000, the formatted time reads back as the same time under a reader that accepts only minute and second fields below 60; with the 12-character width below 100 hours this fixes the split into hours, minutes mod 60 and seconds mod 60 |
| Convert.FmtTimeMillisOverflow | main.py:177-181 | a millisecond field rounded up to 1000 is printed with four digits, and the result no longer reads back |
| Convert.FmtTimeExample | main.py:176-181 | 3725 s 250 ms is printed `01:02:05,250` |
| Convert.CueOf | main.py:186-190 | an entry yields no cue exactly when its trimmed content is empty; otherwise the cue keeps the entry's times and its text is non-empty and stripped |
| Convert.Kept | main.py:185-190 | the kept cues are never more than the entries, and every kept text is non-empty and stripped |
| Convert.CueOfNoneIff | main.py:188-190 | an entry is skipped exactly when its content is missing, null or whitespace only |
| Convert.KeptMember | main.py:185-190 | every emitted cue comes from an entry, with that entry's times and its trimmed content, and the text is non-empty and stripped |
| Convert.SrtLinesLayout | main.py:191-195 | the output has four lines per cue; lines 4k to 4k+3 are the index `first+k`, the time range, the text and a blank line |
| Convert.SrtNumbering | main.py:183-195 | the index lines read 1, 2, ... N with no gaps, and block k holds the k-th kept entry's text; blank entries take no number |
| Convert.JsonSubtitleToSrt | main.py:174-196 | the loop produces the SRT text of the kept entries joined by newlines |
| Convert.SubtitleJsonToPlaintext | main.py:199-206 | the loop produces the trimmed non-empty contents joined by newlines |
| Convert.PartsAreCueTexts | main.py:202-205 | the plain-text lines are exactly the text lines of the SRT blocks, in the same order |
| Convert.PlaintextEmptyIff | main.py:199-206 | the plain text is empty exactly when every entry is blank |
| Fetch.EffectivePriority | main.py:263 | an empty priority list means the default order `en, zh, other`; a non-empty one is used as given |
| Fetch.Choose | main.py:252-267 | refusal with code 1 exactly when there are no tracks; otherwise a refusal has code 2 or 3, and a pick is one of the tracks and, under a whitelist, passes it |
| Fetch.Respond | main.py:252-269 | a success reports the code of one of the enumerated tracks and the plain text of the body served at that track's URL |
| Fetch.FetchSubtitleText | main.py:236-269 | the entry point returns the response of the selection rule over the enumerated tracks |
| Fetch.ResponseCodes | main.py:253-269 | only codes 0 to 3 occur, and a failure carries empty text and language |
| Fetch.NoTrackIff | main.py:247-253 | code 1 exactly when none of the three endpoints yields a track |
| Fetch.WhitelistRefusalIff | main.py:255-261 | code 2 exactly when there are tracks and a whitelist and no track passes it |
| Fetch.PriorityRefusalIff | main.py:262-266 | code 3 exactly when there are tracks, no whitelist and a non-empty priority list none of whose names is available; the default order never gives code 3 |
| Fetch.WhitelistPicksFirstMatch | main.py:255-269 | with a whitelist, success reports the first enumerated track that passes it: its flattened body and its code |
| Fetch.PriorityPicksFirstOfCategory | main.py:262-269 | without a whitelist, success reports the first enumerated track of the first available category in the effective priority |
| Fetch.WhitelistOverridesPriority | main.py:255-262 | a non-empty whitelist makes the priority list irrelevant |
| Fetch.NoSubtitlesScenario | main.py:252-253 | three empty endpoints give code 1 with empty text and language |
| Fetch.WhitelistScenario | main.py:255-269 | whitelist `en-US` over an en-US and a zh-CN track downloads the en-US track |

## Left out

- HTTP is not modelled: the metadata lookup (`get_view_info_by_bvid`, main.py:49-62), the three endpoint requests, the short-link redirect and the subtitle download. Their results are parameters: entry lists, a `resolve` function, a `download` function.
- JSON decoding and the endpoints' service-code checks are not modelled. A player-v2 or danmaku-view endpoint that answers with a non-zero service code is given as the empty list, which is what the code turns it into (main.py:111-112, 143-144).
- Code 99 is not modelled. The code returns it when any exception escapes `fetch_bilibili_subtitle_text`: a transport or HTTP error from any request, including the player-v2 and danmaku-view requests (main.py:109, 141), or an error code from the metadata or web endpoint. The human-readable `msg` strings are not modelled either.
- Convert.JsonSubtitleToSrt: does not raise. The code converts `from` and `to` with `float()` before it tests the content (main.py:186-189), so a null or non-numeric time raises even on a blank entry. In the model a time is always a number, absent times are 0, and blank entries are skipped.
- Convert.FmtTime: does not model negative times, because `Time` holds natural numbers. For a negative time the code prints fields such as `-1:59:59,-500` (main.py:177-181).
- `get_subtitle_list_from_html` is not modelled. It always returns an empty list and is never called.
- `download_subtitle_srt` is not modelled beyond its conversion, which is `Convert.JsonSubtitleToSrt`.
- The CLI (`main`, argparse, `copy_to_clipboard`) and `webapp.py` are not modelled: they are I/O shims around the core.
- Floating-point times are not modelled. A time is whole seconds plus the already-rounded millisecond field. Python's `round` on the float fraction is not modelled, but its one visible consequence, a field of 1000, is kept and covered by `Convert.FmtTimeMillisOverflow`.
- Convert.FmtTimeRoundTrip: requires a millisecond field below 1000, because a rounded field of 1000 prints four digits and does not read back.
- Text processing covers ASCII only: `strip`, `lower` and the case-insensitive host match use ASCII whitespace and ASCII case. Unicode whitespace and Unicode case folding are not modelled.
