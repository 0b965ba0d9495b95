/** generate_index_with_podcast.py beyond the parser: the conversion of the
    parsed groups into the statistics records the page renderer takes, the
    title total, and the path of the audio file the page links to. */
module IndexPage {
  import opened Text
  import opened Digest
  import opened DigestFacts

  /** The default `max_items_per_platform` of `parse_and_simplify_news`,
      which is also the value the page generator passes. */
  const DefaultMaxItemsPerPlatform: int := 10
  /** A record's keyword is this many leading characters of its title. */
  const KeywordLength: int := 20
  const RankThreshold: int := 10

  /** The single title entry of a statistics record. */
  datatype TitleRecord = TitleRecord(
    title: string,
    sourceName: string,
    firstTime: string,
    lastTime: string,
    timeDisplay: string,
    count: int,
    ranks: seq<int>,
    rankThreshold: int,
    url: string,
    mobileUrl: string,
    isNew: bool)

  /** One statistics record: a keyword, its count, its position in the group
      and its titles. */
  datatype Stat = Stat(word: string, count: int, position: int, titles: seq<TitleRecord>)

  /** The record for the title at index `idx` of a group, stamped with the
      clock reading `clock`. */
  function StatOf(platform: string, idx: nat, title: string, clock: string): (s: Stat)
    ensures s.word <= title
    ensures |s.word| == if |title| < KeywordLength then |title| else KeywordLength
  {
    Stat(SliceTo(title, KeywordLength), 1, idx,
      [TitleRecord(title, platform, clock, clock, clock, 1, [idx + 1], RankThreshold, "", "", false)])
  }

  /** The records of one group's titles, in order. */
  function ItemStats(platform: string, items: seq<string>, clock: string): seq<Stat>
  {
    if items == [] then []
    else ItemStats(platform, items[..|items| - 1], clock)
         + [StatOf(platform, |items| - 1, items[|items| - 1], clock)]
  }

  /** The records of all groups, group after group. */
  function StatsOf(groups: seq<Group>, clock: string): seq<Stat>
  {
    if groups == [] then []
    else StatsOf(groups[..|groups| - 1], clock)
         + ItemStats(groups[|groups| - 1].platform, groups[|groups| - 1].items, clock)
  }

  /** The stats loop of `generate_index_html_with_podcast`. */
  method ConvertToStats(newsData: seq<Group>, clock: string) returns (stats: seq<Stat>)
    ensures stats == StatsOf(newsData, clock)
  {
    stats := [];
    for p := 0 to |newsData|
      invariant stats == StatsOf(newsData[..p], clock)
    {
      assert newsData[..p + 1][..p] == newsData[..p];
      var platform := newsData[p].platform;
      var items := newsData[p].items;
      ghost var head := stats;
      for idx := 0 to |items|
        invariant stats == head + ItemStats(platform, items[..idx], clock)
      {
        assert items[..idx + 1][..idx] == items[..idx];
        stats := stats + [StatOf(platform, idx, items[idx], clock)];
      }
      assert items[..|items|] == items;
    }
    assert newsData[..|newsData|] == newsData;
  }

  /** `total_titles`: the number of titles over all groups. */
  function TotalTitles(groups: seq<Group>): nat
  {
    if groups == [] then 0
    else TotalTitles(groups[..|groups| - 1]) + |groups[|groups| - 1].items|
  }

  // ---------------------------------------------------------------------------
  // What the records say
  // ---------------------------------------------------------------------------

  lemma {:induction false} ItemStatsAt(platform: string, items: seq<string>, clock: string)
    ensures |ItemStats(platform, items, clock)| == |items|
    ensures forall i :: 0 <= i < |items| ==>
      ItemStats(platform, items, clock)[i] == StatOf(platform, i, items[i], clock)
  {
    if items != [] {
      var init := items[..|items| - 1];
      ItemStatsAt(platform, init, clock);
      assert forall i :: 0 <= i < |init| ==> init[i] == items[i];
    }
  }

  /** There is one record per title: as many as `total_titles` counts, and as
      many as there are titles in all groups. */
  lemma {:induction false} StatsCount(groups: seq<Group>, clock: string)
    ensures |StatsOf(groups, clock)| == TotalTitles(groups) == |Flatten(groups)|
  {
    if groups != [] {
      var init := groups[..|groups| - 1];
      var g := groups[|groups| - 1];
      StatsCount(init, clock);
      ItemStatsAt(g.platform, g.items, clock);
    }
  }

  /** The record of title `i` of group `gi` sits after the records of the
      earlier groups and carries that title, its group's name, position `i`
      and rank `i + 1`. */
  lemma {:induction false} StatsAt(groups: seq<Group>, clock: string, gi: nat, i: nat)
    requires gi < |groups| && i < |groups[gi].items|
    ensures TotalTitles(groups[..gi]) + i < |StatsOf(groups, clock)|
    ensures StatsOf(groups, clock)[TotalTitles(groups[..gi]) + i]
            == StatOf(groups[gi].platform, i, groups[gi].items[i], clock)
  {
    var init := groups[..|groups| - 1];
    var g := groups[|groups| - 1];
    StatsCount(init, clock);
    ItemStatsAt(g.platform, g.items, clock);
    if gi == |groups| - 1 {
      assert groups[..gi] == init;
    } else {
      assert init[..gi] == groups[..gi];
      StatsAt(init, clock, gi, i);
    }
  }

  /** Read in order, the records' titles are all the titles of all groups. */
  function RecordTitles(stats: seq<Stat>): seq<string>
  {
    if stats == [] then []
    else RecordTitles(stats[..|stats| - 1])
         + (if stats[|stats| - 1].titles == [] then [] else [stats[|stats| - 1].titles[0].title])
  }

  lemma RecordTitlesAppend(xs: seq<Stat>, ys: seq<Stat>)
    ensures RecordTitles(xs + ys) == RecordTitles(xs) + RecordTitles(ys)
    decreases |ys|
  {
    if ys != [] {
      assert (xs + ys)[..|xs + ys| - 1] == xs + ys[..|ys| - 1];
      RecordTitlesAppend(xs, ys[..|ys| - 1]);
    } else {
      assert xs + ys == xs;
    }
  }

  lemma {:induction false} ItemStatsTitles(platform: string, items: seq<string>, clock: string)
    ensures RecordTitles(ItemStats(platform, items, clock)) == items
  {
    if items != [] {
      var init := items[..|items| - 1];
      ItemStatsTitles(platform, init, clock);
      RecordTitlesAppend(ItemStats(platform, init, clock),
        [StatOf(platform, |items| - 1, items[|items| - 1], clock)]);
      assert init + [items[|items| - 1]] == items;
    }
  }

  lemma {:induction false} StatsTitles(groups: seq<Group>, clock: string)
    ensures RecordTitles(StatsOf(groups, clock)) == Flatten(groups)
  {
    if groups != [] {
      var init := groups[..|groups| - 1];
      var g := groups[|groups| - 1];
      StatsTitles(init, clock);
      ItemStatsTitles(g.platform, g.items, clock);
      RecordTitlesAppend(StatsOf(init, clock), ItemStats(g.platform, g.items, clock));
    }
  }

  lemma TotalTitlesSnoc(groups: seq<Group>, g: Group)
    ensures TotalTitles(groups + [g]) == TotalTitles(groups) + |g.items|
  {
    assert (groups + [g])[..|groups|] == groups;
  }

  lemma MulSucc(a: int, n: nat)
    ensures a * (n + 1) == a * n + a
  {
  }

  /** Truncating groups never adds titles, and at a non-negative limit leaves
      at most `limit` per group. */
  lemma {:induction false} CapTotal(groups: seq<Group>, limit: int)
    ensures TotalTitles(Cap(groups, limit)) <= TotalTitles(groups)
    ensures limit >= 0 ==> TotalTitles(Cap(groups, limit)) <= limit * |groups|
  {
    if groups != [] {
      var init := groups[..|groups| - 1];
      var g := groups[|groups| - 1];
      var c := CapGroup(g, limit);
      CapTotal(init, limit);
      assert Cap(groups, limit) == Cap(init, limit) + [c];
      TotalTitlesSnoc(Cap(init, limit), c);
      assert TotalTitles(groups) == TotalTitles(init) + |g.items|;
      assert |c.items| <= |g.items|;
      if limit >= 0 {
        assert |c.items| <= limit;
        MulSucc(limit, |init|);
      }
    }
  }

  /** The page's title total for a parsed digest is at most the number of item
      lines and at most `limit` per platform. */
  lemma TotalTitlesBound(content: string, limit: int)
    ensures TotalTitles(Parse(content, limit)) <= |ItemTitles(Lines(content))|
    ensures limit >= 0 ==> TotalTitles(Parse(content, limit)) <= limit * |Parse(content, limit)|
  {
    var raw := RawGroups(content);
    CapTotal(raw, limit);
    StatsCount(raw, "");
    ItemsKeptInOrder(content);
    CapAt(raw, limit);
  }

  /** With the default limit of ten, every platform the page lists has a name
      and between one and ten titles, the first ones read for it, and the
      page's title total is at most ten per platform. */
  lemma DefaultLimitGroups(content: string)
    ensures |Parse(content, DefaultMaxItemsPerPlatform)| == |RawGroups(content)|
    ensures forall k :: 0 <= k < |Parse(content, DefaultMaxItemsPerPlatform)| ==>
      var g := Parse(content, DefaultMaxItemsPerPlatform)[k];
      && g.platform != ""
      && 1 <= |g.items| <= DefaultMaxItemsPerPlatform
      && g.items <= RawGroups(content)[k].items
    ensures TotalTitles(Parse(content, DefaultMaxItemsPerPlatform))
            <= DefaultMaxItemsPerPlatform * |Parse(content, DefaultMaxItemsPerPlatform)|
  {
    ParseTruncates(content, DefaultMaxItemsPerPlatform);
    TotalTitlesBound(content, DefaultMaxItemsPerPlatform);
  }

  // ---------------------------------------------------------------------------
  // The audio file
  // ---------------------------------------------------------------------------

  /** The audio path relative to index.html, for the date folder
      `dateFolder`. */
  function AudioPath(dateFolder: string, audioFilename: string): string
  {
    "output/" + dateFolder + "/audio/" + audioFilename
  }

  /** Three `/`-free segments and a tail, joined by `/`. */
  lemma PathSegments(a: string, b: string, c: string, tail: string)
    requires '/' !in a && '/' !in b && '/' !in c
    ensures Split(a + "/" + b + "/" + c + "/" + tail, '/') == [a, b, c] + Split(tail, '/')
  {
    var rest := c + ['/'] + tail;
    var mid := b + ['/'] + rest;
    assert a + "/" + b + "/" + c + "/" + tail == a + ['/'] + mid;
    SplitAround(a, '/', mid);
    SplitAround(b, '/', rest);
    SplitAround(c, '/', tail);
    SplitNone(a, '/');
    SplitNone(b, '/');
    SplitNone(c, '/');
  }

  /** Split on `/`, the path is `output`, the date folder, `audio` and the
      segments of the file name: the folder and the name can be read back. */
  lemma AudioPathSegments(dateFolder: string, audioFilename: string)
    requires '/' !in dateFolder
    ensures Split(AudioPath(dateFolder, audioFilename), '/')
            == ["output", dateFolder, "audio"] + Split(audioFilename, '/')
  {
    assert AudioPath(dateFolder, audioFilename) == "output" + "/" + dateFolder + "/" + "audio" + "/" + audioFilename;
    PathSegments("output", dateFolder, "audio", audioFilename);
  }
}
