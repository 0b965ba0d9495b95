# TrendRadar news digest: a verified model of the parser and its consumers

TrendRadar collects trending titles from many platforms into a plain-text
digest. Two scripts read that digest back:
- `generate_podcast.py` turns it into a podcast script.
- `generate_index_with_podcast.py` turns it into an index page with an audio player.

Both scripts parse the digest with the same line-driven state machine. It
reads the digest line by line:
- A line is stripped first. If it is empty or contains the failed-request
  separator, it is skipped.
- A header line names the current platform. Before that, the titles collected
  for the previous platform are flushed as a group, truncated to the
  per-platform limit.
- A numbered line contributes one title, with its `[URL:` and `[MOBILE:`
  annotations cut off.
- A final flush emits the last platform.

The only difference between the scripts is the limit: `parse_news_content`
keeps five titles per platform, and `parse_and_simplify_news` takes the limit
as a parameter.

The model has these modules:
- `Text`: the Python string operations the parser relies on, each specified
  independently of its computation. These are `strip`, substring search,
  `split` on a character with its inverse `Join`, `split` at the first
  separator, slicing `[:n]` with negative `n`, and decimal rendering.
- `Digest`: line classification, header names and title cleaning. It holds
  the specification of the parser as a fold over the lines without truncation
  (`ScanLines`, `RawGroups`), followed by truncation of every group (`Cap`,
  `Parse`). It also holds the imperative parser `ParseAndSimplifyNews`, which
  truncates at each flush the way the source does and is proved equal to
  `Parse`. The loop body is factored into `ReadLine`, and the loop over the
  split lines into `ParseLines`.
- `DigestFacts`: what the parser promises. Skipped lines change nothing, and
  the classification rules hold. The worked example cleans
  `1. 标题 [URL:http://x][MOBILE:http://y]` to `标题`. Titles are kept in order
  and carry over past unnamed headers. Groups follow headers in order, and
  each header that names a platform opens a group of its own, holding the
  titles of the lines up to the next header after any carried over, even when
  the name repeats; a block without titles opens none. Every
  group is named and cut to `min(count, limit)` titles. The output is `[]`
  when no header names a platform. No title or name contains a newline.
- `PromptBody`: the summary loop of `generate_podcast_script_with_ai`
  (`"\n【name】\n"` followed by `"i. title\n"`), with the string-accumulating
  method `BuildSummary` proved equal to the function `Summary`. The summary
  of a concatenation is the concatenation of the summaries. The summary
  splits back into exactly one line per heading and per title.
- `Podcast`: the five-title parser and the summary of the first five
  platforms from `generate_podcast.py`.
- `IndexPage`: the stats records built from the groups, `total_titles`, and
  the audio file path from `generate_index_with_podcast.py`.

Two details are easy to misread, and the model follows the code in both:
- A line is skipped when it *contains* the failed-request separator, not only
  when it equals it.
- A header with a bar (`|`) takes the stripped second `|`-segment as its name, even
  when that segment is empty.

## Model

| member | source | states |
|---|---|---|
| Digest.ParseAndSimplifyNews | generate_index_with_podcast.py:58-106 | the parser's result equals the specification `Parse(content, limit)`: the untruncated grouping fold, then `items[:limit]` on every group |
| Digest.ParseLines | generate_index_with_podcast.py:63-104 | the loop over the stripped and split lines, including the final flush, yields every group emitted by the fold, each truncated to the limit |
| Digest.ReadLine | generate_index_with_podcast.py:66-97 | one loop iteration moves the current platform, the pending titles and the emitted (truncated) groups exactly as one step of the fold does |
| Digest.ClassifyRules | generate_podcast.py:70-91 | a stripped line is skipped exactly when it is empty or contains the separator; it is a header exactly when it does not start with a digit and has a bar or no `[`; it is an item exactly when it starts with a digit and has `". "` |
| Digest.HeaderName | generate_podcast.py:85-89 | a header without a bar is its own name; the name taken from a header with a bar contains no bar |
| Digest.StripAnnotations | generate_podcast.py:95-98 | when the text after `". "` holds `[URL:` or `[MOBILE:`, the title is the stripped text before the first annotation of either kind (`AnnotationStart`); otherwise it is that text unchanged; in every case it is a piece of the text and holds neither marker |
| Digest.ItemTitle | generate_podcast.py:93-98 | an item's title is a piece of what follows the first `". "` and carries neither annotation marker |
| Digest.ItemTitleCut | generate_podcast.py:93-98 | which piece becomes the title: all of the text after the first `". "` when it holds no annotation, and otherwise the stripped text before the first `[URL:` or `[MOBILE:`, whichever comes first |
| Digest.CutAt | generate_podcast.py:95-98 | one cut, `split(marker)[0].strip()` taken only when the marker occurs: the result is a piece of the text without the marker, and the text unchanged when the marker is absent; `UrlCut` and `AnnotationCut` pin which piece it keeps (the stripped text before the first marker) |
| Digest.AnnotationCut | generate_podcast.py:95-98 | cutting at `[URL:` and then at `[MOBILE:` equals one cut at the first annotation of either kind followed by a strip, even when the mobile annotation comes before the URL one |
| Digest.MobileCutInPrefix | generate_podcast.py:97-98 | when `[MOBILE:` comes before `[URL:`, the second cut still ends where the first `[MOBILE:` starts, although the first cut already stripped the text |
| Digest.Classify | generate_podcast.py:70-91 | the kind of a stripped line: skipped, header, item or other, tested in the source's order; its meaning is stated by `ClassifyRules` |
| Digest.Step | generate_podcast.py:70-100 | one iteration of the loop on the scan state (platform, pending titles, emitted groups); characterised by `StepKeepsItems`, `StepGroups` and `HeaderBlock` |
| Digest.Flush | generate_podcast.py:77-82 | emitting the pending titles as a group when both they and the platform are non-empty; characterised by `FlushNonEmpty` and `HeaderKeepsUnnamedItems` |
| Digest.Lines | generate_podcast.py:63 | the digest stripped and split on newlines; `JoinSplit` and `SplitJoin` state what the split keeps |
| Digest.RawGroups | generate_podcast.py:63-107 | the groups of the fold plus the final flush, before truncation; characterised by `ItemsKeptInOrder`, `RawGroupsNonEmpty` and `GroupsFollowHeaders` |
| Digest.CapGroup | generate_podcast.py:77-81 | a group with `items[:limit]`; `CapAt` and `ParseTruncates` state the length and prefix it keeps |
| Digest.Cap | generate_podcast.py:103-107 | truncation of every group; stated by `CapAt` |
| Digest.Parse | generate_podcast.py:61-109 | the parser's result, the truncated groups; `ParseAndSimplifyNews` is proved to compute it and `ParseTruncates` states its shape |
| DigestFacts.SkippedLineInert | generate_podcast.py:70-72 | a line that is empty after stripping, or that contains the failed-request separator, changes no state |
| DigestFacts.HeaderNameBetweenBars | generate_podcast.py:85-87 | the name of a header with a bar is the stripped text between the first and second bar |
| DigestFacts.ItemTitleExample | generate_index_with_podcast.py:88-95 | the line `1. 标题 [URL:http://x][MOBILE:http://y]` yields the title `标题` |
| DigestFacts.HeaderKeepsUnnamedItems | generate_podcast.py:77-82 | while the current name is empty, a header neither emits nor discards the pending titles, which carry over to the next platform |
| DigestFacts.StepKeepsItems | generate_podcast.py:75-100 | one line adds its own title, if any, to the emitted and pending titles together, and loses none |
| DigestFacts.ScanKeepsItems | generate_podcast.py:69-100 | before truncation, the emitted titles followed by the pending ones are exactly the titles of all item lines, in source order |
| DigestFacts.ScanGroupsNonEmpty | generate_podcast.py:77-81 | every group emitted during the loop has a non-empty name and at least one title |
| DigestFacts.FlushNonEmpty | generate_podcast.py:103-107 | the final flush emits only a named group with titles |
| DigestFacts.RawGroupsNonEmpty | generate_podcast.py:77-107 | every untruncated group has a non-empty name and at least one title |
| DigestFacts.ItemsKeptInOrder | generate_podcast.py:69-107 | the untruncated groups' titles are a prefix of the item titles in source order, and all of them when the last header named a platform |
| DigestFacts.ScanFollowsHeaders | generate_podcast.py:75-89 | the names of the emitted groups, followed by the current name when it is non-empty, occur in order among the header names |
| DigestFacts.GroupsFollowHeaders | generate_podcast.py:65-109 | the groups' names occur in order among the header names, so there are no more groups than headers |
| DigestFacts.ScanWithoutHeaders | generate_podcast.py:91-100 | lines without a header only append their item titles to the pending list; the platform and the emitted groups stay as they were |
| DigestFacts.HeaderBlock | generate_podcast.py:75-100 | after a header that names a platform and a block without headers, the platform is that name, the earlier pending titles have been flushed (or carried over when the previous name was empty), and the pending titles are the carried ones followed by the block's titles |
| DigestFacts.HeaderBlockGroups | generate_podcast.py:75-107 | a digest that ends with such a block yields the groups before the block plus exactly one new group, with that header's name and exactly the block's titles after any carried ones, even when the name repeats an earlier one; a block without titles adds no group |
| DigestFacts.ConsecutiveBlocks | generate_podcast.py:75-107 | two consecutive named blocks, for instance under a repeated header, give two groups in order, each with its own header's name and exactly its own block's titles (the second carries nothing over); a block without titles adds no group |
| DigestFacts.NoNamedHeaderNoGroups | generate_podcast.py:65-109 | with no header that names a platform, the parser returns `[]` |
| DigestFacts.CapAt | generate_index_with_podcast.py:74-79 | truncation keeps one group per group and applies `items[:limit]` to each |
| DigestFacts.ParseTruncates | generate_index_with_podcast.py:74-104 | each returned group is named and holds the first `min(count, limit)` titles of its untruncated group (a prefix, so later titles are dropped, not deferred), and none is empty when the limit is at least one |
| DigestFacts.ParseSingleLine | generate_podcast.py:63-100 | no returned name or title contains a newline |
| DigestFacts.StepSingleLine | generate_podcast.py:63-100 | a step on a line without newlines adds no newline to the state |
| DigestFacts.ScanSingleLineAll | generate_podcast.py:63-100 | folding lines without newlines yields names and titles without newlines |
| Podcast.ParseNewsContent | generate_podcast.py:61-109 | `parse_news_content` is the shared parser at limit five; every group it returns is named and has between one and five titles |
| Podcast.BuildNewsSummary | generate_podcast.py:116-122 | the summary covers `news_data[:5]`; it is a prefix of the summary of all groups, and all of it when there are at most five |
| Podcast.PodcastSummaryLines | generate_podcast.py:116-122 | the podcast summary of a parsed digest splits into one heading line per platform shown and one numbered line per title |
| PromptBody.BuildSummary | generate_index_with_podcast.py:113-119 | the string built by the nested loops is the summary of all groups: `"\n【name】\n"` and then `"i. title\n"` numbered from 1 |
| PromptBody.Summary | generate_index_with_podcast.py:113-119 | the prompt text for a list of groups, block after block; `BuildSummary` is proved to compute it, and `SummaryAppend` and `SummarySplit` characterise it |
| PromptBody.GroupBlock | generate_index_with_podcast.py:117-119 | one platform's heading followed by its numbered titles; stated by `GroupBlockSplit` |
| PromptBody.Heading | generate_index_with_podcast.py:117 | the heading `"\n【name】\n"`; `GroupBlockSplit` states the lines it contributes |
| PromptBody.NumberedLine | generate_index_with_podcast.py:119 | the line `"i. title"` before its newline; `NumberedItemsSplit` states the lines, `DecimalRoundTrip` the number |
| PromptBody.NumberedItems | generate_index_with_podcast.py:118-119 | the titles numbered from 1, one line each; stated by `NumberedItemsSplit` |
| PromptBody.SummaryAppend | generate_index_with_podcast.py:113-119 | the summary of two lists of groups is the concatenation of their summaries |
| PromptBody.NumberedItemsSplit | generate_index_with_podcast.py:118-119 | the numbered items split into one line per title, numbered from 1 |
| PromptBody.GroupBlockSplit | generate_index_with_podcast.py:117-119 | a platform's block splits into an empty line, the heading and the numbered lines |
| PromptBody.SummarySplit | generate_index_with_podcast.py:113-119 | for names and titles without newlines, the summary splits into exactly the headings and numbered lines of the groups in order |
| IndexPage.StatOf | generate_index_with_podcast.py:201 | the keyword is the title's first `min(len, 20)` characters |
| IndexPage.ItemStats | generate_index_with_podcast.py:199-218 | the records of one platform, one per title in order; stated by `ItemStatsAt` |
| IndexPage.StatsOf | generate_index_with_podcast.py:197-218 | the records of all platforms in order; `ConvertToStats` is proved to compute it, and `StatsCount`, `StatsAt` and `StatsTitles` characterise it |
| IndexPage.TotalTitles | generate_index_with_podcast.py:220 | the number of titles of all groups; stated by `StatsCount`, `CapTotal` and `TotalTitlesBound` |
| IndexPage.ConvertToStats | generate_index_with_podcast.py:197-218 | the nested loops build the stats list in group-then-item order, one record per title |
| IndexPage.ItemStatsAt | generate_index_with_podcast.py:199-218 | the records for one platform have position `idx`, ranks `[idx + 1]`, the platform as source name, the title and its first 20 characters as keyword |
| IndexPage.StatsCount | generate_index_with_podcast.py:197-220 | the stats list has one entry per title: its length is `total_titles`, the number of titles in all groups |
| IndexPage.StatsAt | generate_index_with_podcast.py:198-218 | the entry for title `i` of group `g` sits after all titles of earlier groups and is built from that title, its platform and `i` |
| IndexPage.StatsTitles | generate_index_with_podcast.py:197-218 | the records' titles, in order, are all the groups' titles, in order |
| IndexPage.CapTotal | generate_index_with_podcast.py:220 | truncation never increases the title count, and with a non-negative limit the count is at most limit times the number of groups |
| IndexPage.TotalTitlesBound | generate_index_with_podcast.py:220 | `total_titles` of a parsed digest is at most the number of item lines, and at most the limit times the number of groups |
| IndexPage.DefaultLimitGroups | generate_index_with_podcast.py:58-106 | with the default limit of ten, also the value passed at line 264, every listed platform is named and has between one and ten titles, the first ones read for it, and the title total is at most ten per platform |
| IndexPage.AudioPath | generate_index_with_podcast.py:225-226 | the path `output/<date folder>/audio/<file name>`; stated by `AudioPathSegments` |
| IndexPage.AudioPathSegments | generate_index_with_podcast.py:225-226 | the audio path reads `output`, the date folder, `audio`, then the file name's own segments |
| Text.IndexOf | generate_podcast.py:93 | the search finds the first occurrence of a pattern, and finds none only when there is none |
| Text.ContainsIff | generate_podcast.py:71 | Python's `in` on strings holds exactly when the pattern occurs somewhere |
| Text.Contains | generate_podcast.py:71 | Python's `in` on strings, computed by the search; its meaning is stated by `ContainsIff` |
| Text.Before | generate_podcast.py:96 | `split(marker)[0]` is a prefix of the text that holds no marker and, when the marker occurs, ends exactly where it first occurs (it occurs there and at no earlier index); otherwise it is the whole text |
| Text.BeforeFirst | generate_podcast.py:96 | for the first occurrence `i` of the marker, `split(marker)[0]` is `s[..i]` |
| Text.BeforeOverlapping | generate_podcast.py:96 | the cut is at the first occurrence even for a marker that overlaps itself: the part of `"aaa"` before `"aa"` is empty |
| Text.After | generate_podcast.py:93 | `split(". ", 1)[1]` is what follows the first separator, so the line is prefix, separator and rest |
| Text.IsSpace | generate_podcast.py:70 | the characters Python's `str.isspace()` accepts, which `strip()` removes from both ends; `Trim` is stated in terms of it |
| Text.IsDigit | generate_podcast.py:75 | `str.isdigit()` on the first character of a line, restricted to `0`-`9` (see "Left out"); `ClassifyRules` states how it decides header and item lines |
| Text.Trim | generate_podcast.py:70 | `strip()` removes only whitespace from both ends, and no whitespace is left at either end |
| Text.TrimUnique | generate_podcast.py:70 | the contract of `Trim` pins its result: any piece of the text with only whitespace around it and none at either end is what `strip()` returns |
| Text.TrimAfterSpaces | generate_podcast.py:95-98 | whitespace in front of a text does not change what `strip()` leaves, which lets a cut of an already stripped text equal a cut of the original |
| Text.TrimIdempotent | generate_podcast.py:63-70 | stripping twice is stripping once, so the second strip of each line is harmless |
| Text.SliceTo | generate_podcast.py:80 | `items[:n]` is a prefix of length `min(n, len)`, or `max(len + n, 0)` for negative `n` |
| Text.Split | generate_podcast.py:63 | `split` yields at least one part, and no part contains the separator |
| Text.JoinSplit | generate_podcast.py:63 | joining the parts of a split with the separator gives back the string |
| Text.SplitJoin | generate_podcast.py:63 | splitting a join of separator-free parts gives back the parts |
| Text.SplitMany | generate_podcast.py:85-87 | a split has more than one part exactly when the separator occurs, so `parts[1]` exists whenever the line holds a bar |
| Text.SecondPart | generate_podcast.py:86-87 | splitting on the bar, part 1 is the text between the first and second bar |
| Text.DecimalRoundTrip | generate_podcast.py:121 | the item number rendered in decimal reads back as the same number |
| Text.Decimal | generate_podcast.py:121 | the decimal rendering of the item number; `DecimalRoundTrip` states that it reads back as the number |

## Left out

- Network requests to the language-model service, the text-to-speech engines, the filesystem (finding the newest digest, writing the script, the audio and the page), console output and the interactive `main` menus. None of these is part of this model. The digest text arrives as a parameter.
- The clock. `get_beijing_time()` is called three times for each record. The model takes one time string as a parameter, so the three fields always agree. A run that crosses a minute boundary could give different values.
- IndexPage.AudioPath: the date folder from `format_date_folder()` is a parameter.
- The `percentage: 100.0` field of each stats record is a float and is not modelled.
- `prepare_report_data`, `render_html_content` and the HTML audio widget live in `main.py`, which is not part of this model. The stats list and `total_titles` are modelled up to the point where they are handed to it.
- `run_with_podcast.py` only runs the two scripts as subprocesses. `test_audio_integration.py` only inspects files produced by `main.py`. Neither is modelled.
- Text.IsDigit: Python's `str.isdigit` also accepts non-ASCII digits, such as full-width digits and superscripts. The model accepts only `0`-`9`. A line that starts with another Unicode digit is classified as if it started with a non-digit.
- Digest.HeaderName: the source's `parts[0]` branch is unreachable, because a line that contains `|` always splits into at least two parts (Text.SplitMany). It is kept in the definition but never taken.
- Digest.ParseAndSimplifyNews: the loop body and the final flush sit in the helper methods `ReadLine` and `ParseLines`. Python's in-place `append` on lists becomes reassignment of sequence-valued locals, so aliasing of the result list is not modelled.
- Python dictionaries for groups and records are modelled as datatypes with one field per key.
