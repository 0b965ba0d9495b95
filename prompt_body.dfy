/** The news summary that both files paste into the narration prompt: for
    every group a `【name】` heading between newlines, then one numbered line
    per title. generate_podcast.py renders only the first five groups,
    generate_index_with_podcast.py renders all of them. */
module PromptBody {
  import opened Text
  import opened Digest
  import opened DigestFacts

  /** `f"{i}. {item}"`, one numbered title without its newline. */
  function NumberedLine(i: nat, item: string): string
  {
    Decimal(i) + ". " + item
  }

  /** The titles numbered from 1, each followed by a newline. */
  function NumberedItems(items: seq<string>): string
  {
    if items == [] then ""
    else NumberedItems(items[..|items| - 1]) + (NumberedLine(|items|, items[|items| - 1]) + "\n")
  }

  /** `f"\n【{platform}】\n"`. */
  function Heading(platform: string): string
  {
    "\n【" + platform + "】\n"
  }

  /** A group's heading followed by its numbered titles. */
  function GroupBlock(g: Group): string
  {
    Heading(g.platform) + NumberedItems(g.items)
  }

  /** The summary of a list of groups, in order. */
  function Summary(groups: seq<Group>): string
  {
    if groups == [] then ""
    else Summary(groups[..|groups| - 1]) + GroupBlock(groups[|groups| - 1])
  }

  /** The loop that accumulates `news_summary`, over the groups it is given. */
  method BuildSummary(newsData: seq<Group>) returns (newsSummary: string)
    ensures newsSummary == Summary(newsData)
  {
    newsSummary := "";
    for p := 0 to |newsData|
      invariant newsSummary == Summary(newsData[..p])
    {
      var platform := newsData[p].platform;
      var items := newsData[p].items;
      ghost var head := newsSummary;
      newsSummary := newsSummary + Heading(platform);
      for i := 0 to |items|
        invariant newsSummary == head + Heading(platform) + NumberedItems(items[..i])
      {
        NumberedItemsSnoc(head + Heading(platform), items, i);
        newsSummary := newsSummary + (NumberedLine(i + 1, items[i]) + "\n");
      }
      SummarySnoc(head, newsData, p);
    }
    assert newsData[..|newsData|] == newsData;
  }

  lemma NumberedItemsSnoc(prefix: string, items: seq<string>, i: nat)
    requires i < |items|
    ensures prefix + NumberedItems(items[..i + 1])
            == prefix + NumberedItems(items[..i]) + (NumberedLine(i + 1, items[i]) + "\n")
  {
    assert items[..i + 1][..i] == items[..i];
  }

  lemma SummarySnoc(head: string, groups: seq<Group>, p: nat)
    requires p < |groups| && head == Summary(groups[..p])
    ensures head + Heading(groups[p].platform) + NumberedItems(groups[p].items[..|groups[p].items|])
            == Summary(groups[..p + 1])
  {
    assert groups[..p + 1][..p] == groups[..p];
    assert groups[p].items[..|groups[p].items|] == groups[p].items;
  }

  // ---------------------------------------------------------------------------
  // Reading the summary back, line by line
  // ---------------------------------------------------------------------------

  function NumberedLines(items: seq<string>): seq<string>
  {
    if items == [] then []
    else NumberedLines(items[..|items| - 1]) + [NumberedLine(|items|, items[|items| - 1])]
  }

  /** The lines a group occupies: its heading, its numbered titles and the
      blank line that ends it. */
  function GroupLines(g: Group): seq<string>
  {
    ["【" + g.platform + "】"] + NumberedLines(g.items) + [""]
  }

  function SummaryLines(groups: seq<Group>): seq<string>
  {
    if groups == [] then []
    else SummaryLines(groups[..|groups| - 1]) + GroupLines(groups[|groups| - 1])
  }

  lemma DecimalSingleLine(n: nat)
    ensures '\n' !in Decimal(n)
  {
    var d := Decimal(n);
    assert forall k :: 0 <= k < |d| ==> d[k] != '\n';
  }

  /** A line of text and its newline, appended to text whose last line is
      empty, fill that line and start a new empty one. */
  lemma AppendLine(b: string, before: seq<string>, t: string)
    requires Split(b, '\n') == before + [""]
    requires '\n' !in t
    ensures Split(b + t + "\n", '\n') == before + [t] + [""]
  {
    SplitAppendPlain(b, t, '\n');
    var parts := before + [""];
    assert parts[..|parts| - 1] == before;
    assert parts[|parts| - 1] + t == t;
    SplitAppendSep(b + t, '\n');
  }

  /** Numbered titles split into one line per title and a final empty line. */
  lemma {:induction false} NumberedItemsSplit(items: seq<string>)
    requires forall j :: 0 <= j < |items| ==> '\n' !in items[j]
    ensures Split(NumberedItems(items), '\n') == NumberedLines(items) + [""]
  {
    if items != [] {
      var init := items[..|items| - 1];
      var t := NumberedLine(|items|, items[|items| - 1]);
      NumberedItemsSplit(init);
      assert '\n' !in t by {
        DecimalSingleLine(|items|);
      }
      AppendLine(NumberedItems(init), NumberedLines(init), t);
      assert NumberedItems(items) == NumberedItems(init) + t + "\n";
    }
  }

  /** A group's block adds exactly the group's lines to whatever precedes it. */
  lemma GroupBlockSplit(s: string, g: Group)
    requires '\n' !in g.platform
    requires forall j :: 0 <= j < |g.items| ==> '\n' !in g.items[j]
    ensures Split(s + GroupBlock(g), '\n') == Split(s, '\n') + GroupLines(g)
  {
    var heading := "【" + g.platform + "】";
    var numbered := NumberedItems(g.items);
    assert '\n' !in heading;
    assert s + GroupBlock(g) == s + "\n" + (heading + "\n" + numbered);
    SplitAround(s, '\n', heading + "\n" + numbered);
    SplitAround(heading, '\n', numbered);
    SplitNone(heading, '\n');
    NumberedItemsSplit(g.items);
  }

  /** Split on line breaks, a summary is an empty first line followed by each
      group's heading, numbered titles and closing blank line: every name and
      every title can be read back from it, in order. */
  lemma {:induction false} SummarySplit(groups: seq<Group>)
    requires SingleLine(groups)
    ensures Split(Summary(groups), '\n') == [""] + SummaryLines(groups)
  {
    if groups != [] {
      var init := groups[..|groups| - 1];
      var g := groups[|groups| - 1];
      SingleLinePrefix(groups, |groups| - 1);
      SummarySplit(init);
      GroupBlockSplit(Summary(init), g);
      assert SummaryLines(groups) == SummaryLines(init) + GroupLines(g);
    }
  }

  lemma SingleLinePrefix(groups: seq<Group>, n: nat)
    requires SingleLine(groups) && n < |groups|
    ensures SingleLine(groups[..n])
    ensures '\n' !in groups[n].platform
    ensures forall j :: 0 <= j < |groups[n].items| ==> '\n' !in groups[n].items[j]
  {
  }

  /** Rendering distributes over concatenation of group lists. */
  lemma {:induction false} SummaryAppend(xs: seq<Group>, ys: seq<Group>)
    ensures Summary(xs + ys) == Summary(xs) + Summary(ys)
    decreases |ys|
  {
    if ys == [] {
      assert xs + ys == xs;
    } else {
      var init := ys[..|ys| - 1];
      var b := GroupBlock(ys[|ys| - 1]);
      assert Summary(xs + ys) == Summary(xs + init) + b by {
        assert (xs + ys)[..|xs + ys| - 1] == xs + init;
      }
      assert Summary(xs + init) == Summary(xs) + Summary(init) by {
        SummaryAppend(xs, init);
      }
      AppendAssoc(Summary(xs), Summary(init), b);
    }
  }
}
