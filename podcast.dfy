/** generate_podcast.py: the digest parser keeping five titles per platform,
    and the news summary of the narration prompt, which covers only the first
    five platforms. */
module Podcast {
  import opened Text
  import opened Digest
  import opened DigestFacts
  import opened PromptBody

  /** Titles kept per platform by `parse_news_content`. */
  const ItemsPerPlatform: int := 5
  /** Platforms rendered into the prompt. */
  const PlatformsInSummary: int := 5

  /** `parse_news_content`: the shared parser at a limit of five. Every group
      it returns is named and holds between one and five titles. */
  method ParseNewsContent(newsContent: string) returns (newsData: seq<Group>)
    ensures newsData == Parse(newsContent, ItemsPerPlatform)
    ensures forall k :: 0 <= k < |newsData| ==>
      newsData[k].platform != "" && 1 <= |newsData[k].items| <= ItemsPerPlatform
  {
    newsData := ParseAndSimplifyNews(newsContent, ItemsPerPlatform);
    ParseTruncates(newsContent, ItemsPerPlatform);
  }

  /** The summary loop of `generate_podcast_script_with_ai`, over
      `news_data[:5]`: it is the beginning of the summary of all groups, and
      the whole of it when there are at most five. */
  method BuildNewsSummary(newsData: seq<Group>) returns (newsSummary: string)
    ensures newsSummary == Summary(SliceTo(newsData, PlatformsInSummary))
    ensures newsSummary <= Summary(newsData)
    ensures |newsData| <= PlatformsInSummary ==> newsSummary == Summary(newsData)
  {
    var shown := SliceTo(newsData, PlatformsInSummary);
    newsSummary := BuildSummary(shown);
    assert newsData == shown + newsData[|shown|..];
    SummaryAppend(shown, newsData[|shown|..]);
  }

  /** The summary of a parsed digest splits back into one line per heading and
      per numbered title. */
  lemma PodcastSummaryLines(content: string)
    ensures var shown := SliceTo(Parse(content, ItemsPerPlatform), PlatformsInSummary);
      Split(Summary(shown), '\n') == [""] + SummaryLines(shown)
  {
    var groups := Parse(content, ItemsPerPlatform);
    ParseSingleLine(content, ItemsPerPlatform);
    PrefixSingleLine(groups, PlatformsInSummary);
    SummarySplit(SliceTo(groups, PlatformsInSummary));
  }

  lemma PrefixSingleLine(groups: seq<Group>, n: int)
    requires SingleLine(groups)
    ensures SingleLine(SliceTo(groups, n))
  {
    var shown := SliceTo(groups, n);
    assert forall k :: 0 <= k < |shown| ==> shown[k] == groups[k];
  }
}
