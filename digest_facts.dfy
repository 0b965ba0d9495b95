/** What the digest parser guarantees: the rules for single lines, the shape of
    every emitted group, that no title is lost or reordered, and that groups
    follow the header lines in order. */
module DigestFacts {
  import opened Text
  import opened Digest

  // ---------------------------------------------------------------------------
  // Views of lines and groups
  // ---------------------------------------------------------------------------

  /** The titles of the item lines, in input order. */
  function ItemTitles(lines: seq<string>): seq<string>
  {
    if lines == [] then []
    else
      var line := Trim(lines[|lines| - 1]);
      ItemTitles(lines[..|lines| - 1]) + (if Classify(line) == Item then [ItemTitle(line)] else [])
  }

  /** The names set by the header lines, in input order. */
  function HeaderNames(lines: seq<string>): seq<string>
  {
    if lines == [] then []
    else
      var line := Trim(lines[|lines| - 1]);
      HeaderNames(lines[..|lines| - 1]) + (if Classify(line) == Header then [HeaderName(line)] else [])
  }

  /** All titles of the groups, group after group. */
  function Flatten(groups: seq<Group>): seq<string>
  {
    if groups == [] then [] else Flatten(groups[..|groups| - 1]) + groups[|groups| - 1].items
  }

  /** The platform names of the groups, in order. */
  function Names(groups: seq<Group>): seq<string>
  {
    if groups == [] then [] else Names(groups[..|groups| - 1]) + [groups[|groups| - 1].platform]
  }

  /** `s` can be obtained from `t` by deleting elements. */
  predicate IsSubsequence<T(==)>(s: seq<T>, t: seq<T>)
    decreases |t|
  {
    if s == [] then true
    else if t == [] then false
    else (s[|s| - 1] == t[|t| - 1] && IsSubsequence(s[..|s| - 1], t[..|t| - 1]))
         || IsSubsequence(s, t[..|t| - 1])
  }

  lemma FlattenSnoc(groups: seq<Group>, g: Group)
    ensures Flatten(groups + [g]) == Flatten(groups) + g.items
    ensures Names(groups + [g]) == Names(groups) + [g.platform]
  {
    assert (groups + [g])[..|groups|] == groups;
  }

  lemma SubsequenceSnoc<T>(s: seq<T>, t: seq<T>, x: T)
    requires IsSubsequence(s, t)
    ensures IsSubsequence(s + [x], t + [x])
    ensures IsSubsequence(s, t + [x])
  {
    assert (s + [x])[..|s|] == s;
    assert (t + [x])[..|t|] == t;
  }

  /** A subsequence is no longer than the sequence and takes its elements from it. */
  lemma {:induction false} SubsequenceElements<T>(s: seq<T>, t: seq<T>)
    requires IsSubsequence(s, t)
    ensures |s| <= |t|
    ensures forall k :: 0 <= k < |s| ==> s[k] in t
    decreases |t|
  {
    if s != [] {
      var t' := t[..|t| - 1];
      if s[|s| - 1] == t[|t| - 1] && IsSubsequence(s[..|s| - 1], t') {
        SubsequenceElements(s[..|s| - 1], t');
        forall k | 0 <= k < |s| ensures s[k] in t {
          if k < |s| - 1 {
            assert s[k] == s[..|s| - 1][k];
            assert s[k] in t';
          }
        }
      } else {
        SubsequenceElements(s, t');
      }
    }
  }

  // ---------------------------------------------------------------------------
  // Single lines
  // ---------------------------------------------------------------------------

  /** A line that is empty after stripping, or that contains the
      failed-request separator, changes nothing. */
  lemma SkippedLineInert(st: Scan, raw: string)
    requires Trim(raw) == [] || Occurs(Trim(raw), FailedMarker)
    ensures Step(st, raw) == st
  {
    ClassifyRules(Trim(raw));
  }

  /** A header with a `|` names the platform after the stripped text between
      the first `|` and the next one (or the end of the line). */
  lemma HeaderNameBetweenBars(line: string)
    requires '|' in line
    ensures Contains(line, "|")
    ensures HeaderName(line) == Trim(Before(After(line, "|"), "|"))
  {
    SecondPart(line, '|');
  }

  /** The first occurrence is where `IndexOf` finds it. */
  lemma FirstOccurrence(s: string, pat: string, i: nat)
    requires OccursAt(s, pat, i)
    requires forall j :: 0 <= j < i ==> !OccursAt(s, pat, j)
    ensures IndexOf(s, pat) == Some(i)
  {
  }

  lemma ExampleSepAt(line: string, text: string)
    requires line == "1. " + text
    ensures OccursAt(line, ItemSep, 1) && !OccursAt(line, ItemSep, 0)
  {
    assert line[..3] == "1. ";
    assert line[1..3] == ". ";
    assert line[0] == '1';
  }

  lemma ExampleMarkerAt(text: string)
    requires text == "标题 [URL:http://x][MOBILE:http://y]"
    ensures OccursAt(text, UrlMarker, 3)
    ensures forall j :: 0 <= j < 3 ==> !OccursAt(text, UrlMarker, j)
  {
    assert text[3] == '[' && text[4] == 'U' && text[5] == 'R' && text[6] == 'L' && text[7] == ':';
    assert text[3..8] == "[URL:";
    assert text[0] != '[' && text[1] != '[' && text[2] != '[';
  }

  lemma ExampleSplit(line: string, text: string)
    requires line == "1. " + text
    ensures Contains(line, ItemSep) && After(line, ItemSep) == text
  {
    assert IndexOf(line, ItemSep) == Some(1) by {
      ExampleSepAt(line, text);
      FirstOccurrence(line, ItemSep, 1);
    }
    assert line[3..] == text;
  }

  lemma ExampleCut(text: string, cut: string)
    requires text == "标题 [URL:http://x][MOBILE:http://y]"
    requires cut == "标题 "
    ensures Contains(text, UrlMarker) && Before(text, UrlMarker) == cut
  {
    ExampleMarkerAt(text);
    FirstOccurrence(text, UrlMarker, 3);
    assert text[..3] == cut;
  }

  lemma ExampleTrim(cut: string, title: string)
    requires cut == "标题 " && title == "标题"
    ensures Trim(cut) == title && !Contains(title, MobileMarker)
  {
    assert cut[0..2] == title;
    assert cut[2..] == " ";
    TrimUnique(cut, title, 0);
    assert !Occurs(title, MobileMarker);
    ContainsIff(title, MobileMarker);
  }

  /** The worked example: both annotations are cut from the title of the item
      line `1. 标题 [URL:http://x][MOBILE:http://y]`. */
  lemma ItemTitleExample()
    ensures Contains("1. " + "标题 [URL:http://x][MOBILE:http://y]", ItemSep)
    ensures ItemTitle("1. " + "标题 [URL:http://x][MOBILE:http://y]") == "标题"
  {
    var text := "标题 [URL:http://x][MOBILE:http://y]";
    var cut, title := "标题 ", "标题";
    ExampleSplit("1. " + text, text);
    ExampleCut(text, cut);
    ExampleTrim(cut, title);
  }

  /** Items seen while no platform is named stay pending across a header. */
  lemma HeaderKeepsUnnamedItems(st: Scan, raw: string)
    requires Classify(Trim(raw)) == Header && st.platform == ""
    ensures Step(st, raw).pending == st.pending
    ensures Step(st, raw).groups == st.groups
  {
  }

  // ---------------------------------------------------------------------------
  // Invariants of the scan
  // ---------------------------------------------------------------------------

  /** One line either leaves the groups alone or emits the pending titles
      under the current name, both non-empty. */
  lemma StepGroups(st: Scan, raw: string)
    ensures || Step(st, raw).groups == st.groups
            || (st.platform != "" && st.pending != []
                && Step(st, raw).groups == st.groups + [Group(st.platform, st.pending)])
  {
  }

  lemma StepShape(st: Scan, raw: string)
    ensures Classify(Trim(raw)) == Header ==> Step(st, raw) == Flush(st).(platform := HeaderName(Trim(raw)))
    ensures Classify(Trim(raw)) != Header ==>
      Step(st, raw).groups == st.groups && Step(st, raw).platform == st.platform
  {
  }

  /** Every emitted group has a non-empty name and at least one title. */
  lemma {:induction false} ScanGroupsNonEmpty(lines: seq<string>)
    ensures forall k :: 0 <= k < |ScanLines(lines).groups| ==>
      ScanLines(lines).groups[k].platform != "" && ScanLines(lines).groups[k].items != []
  {
    if lines != [] {
      var init := lines[..|lines| - 1];
      ScanGroupsNonEmpty(init);
      StepGroups(ScanLines(init), lines[|lines| - 1]);
      NamedAfterStep(ScanLines(init), ScanLines(lines));
    }
  }

  /** A step that keeps the groups, or emits a named non-empty group, keeps
      every group named and non-empty. */
  lemma NamedAfterStep(st: Scan, next: Scan)
    requires forall k :: 0 <= k < |st.groups| ==> st.groups[k].platform != "" && st.groups[k].items != []
    requires || next.groups == st.groups
             || (st.platform != "" && st.pending != []
                 && next.groups == st.groups + [Group(st.platform, st.pending)])
    ensures forall k :: 0 <= k < |next.groups| ==> next.groups[k].platform != "" && next.groups[k].items != []
  {
  }

  /** The emitted titles followed by the pending ones are exactly the item
      titles read so far, in order. */
  lemma {:induction false} ScanKeepsItems(lines: seq<string>)
    ensures Flatten(ScanLines(lines).groups) + ScanLines(lines).pending == ItemTitles(lines)
  {
    if lines != [] {
      var init := lines[..|lines| - 1];
      var raw := lines[|lines| - 1];
      ScanKeepsItems(init);
      StepKeepsItems(ScanLines(init), raw);
      assert ItemTitles(lines) == ItemTitles(init) + NewTitles(raw);
    }
  }

  /** The title a raw line contributes, if it is an item line. */
  function NewTitles(raw: string): seq<string>
  {
    var line := Trim(raw);
    if Classify(line) == Item then [ItemTitle(line)] else []
  }

  lemma StepKeepsItems(st: Scan, raw: string)
    ensures Flatten(Step(st, raw).groups) + Step(st, raw).pending
            == Flatten(st.groups) + st.pending + NewTitles(raw)
  {
    if Classify(Trim(raw)) == Header {
      assert NewTitles(raw) == [];
      StepHeader(st, raw);
      if st.pending != [] && st.platform != "" {
        FlattenSnoc(st.groups, Group(st.platform, st.pending));
      }
    } else {
      StepNoHeader(st, raw);
      AppendAssoc(Flatten(st.groups), st.pending, NewTitles(raw));
    }
  }

  /** Group names are drawn from the header names in order, one header per
      group; the current name, when non-empty, comes from a header that no
      group has used yet. */
  lemma {:induction false} ScanFollowsHeaders(lines: seq<string>)
    ensures IsSubsequence(Names(ScanLines(lines).groups), HeaderNames(lines))
    ensures ScanLines(lines).platform != "" ==>
      IsSubsequence(Names(ScanLines(lines).groups) + [ScanLines(lines).platform], HeaderNames(lines))
  {
    if lines != [] {
      var init := lines[..|lines| - 1];
      ScanFollowsHeaders(init);
      var st := ScanLines(init);
      var line := Trim(lines[|lines| - 1]);
      var names := HeaderNames(init);
      var next := ScanLines(lines);
      assert next == Step(st, lines[|lines| - 1]);
      StepShape(st, lines[|lines| - 1]);
      if Classify(line) == Header {
        var name := HeaderName(line);
        assert HeaderNames(lines) == names + [name];
        assert next.platform == name;
        FlattenSnoc(st.groups, Group(st.platform, st.pending));
        if st.pending != [] && st.platform != "" {
          assert Names(next.groups) == Names(st.groups) + [st.platform];
          SubsequenceSnoc(Names(st.groups) + [st.platform], names, name);
        } else {
          assert next.groups == st.groups;
          SubsequenceSnoc(Names(st.groups), names, name);
        }
      } else {
        assert HeaderNames(lines) == names;
      }
    }
  }

  // ---------------------------------------------------------------------------
  // The parser's output
  // ---------------------------------------------------------------------------

  /** No group is emitted without a name or without titles. */
  lemma RawGroupsNonEmpty(content: string)
    ensures forall k :: 0 <= k < |RawGroups(content)| ==>
      RawGroups(content)[k].platform != "" && RawGroups(content)[k].items != []
  {
    var st := ScanLines(Lines(content));
    ScanGroupsNonEmpty(Lines(content));
    FlushNonEmpty(st);
  }

  lemma FlushNonEmpty(st: Scan)
    requires forall k :: 0 <= k < |st.groups| ==> st.groups[k].platform != "" && st.groups[k].items != []
    ensures forall k :: 0 <= k < |Flush(st).groups| ==>
      Flush(st).groups[k].platform != "" && Flush(st).groups[k].items != []
  {
  }

  /** No title is reordered or duplicated: the emitted titles are a prefix of
      the item titles of the input, and all of them once the last header
      named a platform. Titles read while no platform is named carry over to
      the next named one; only those still unnamed at the end are dropped. */
  lemma ItemsKeptInOrder(content: string)
    ensures Flatten(RawGroups(content)) <= ItemTitles(Lines(content))
    ensures ScanLines(Lines(content)).platform != "" ==>
      Flatten(RawGroups(content)) == ItemTitles(Lines(content))
  {
    var st := ScanLines(Lines(content));
    ScanKeepsItems(Lines(content));
    FlattenSnoc(st.groups, Group(st.platform, st.pending));
  }

  /** The groups' names occur in order among the header names, so there are no
      more groups than headers. That each named header opens a group of its
      own, repeated names included, is `HeaderBlockGroups`. */
  lemma GroupsFollowHeaders(content: string)
    ensures IsSubsequence(Names(RawGroups(content)), HeaderNames(Lines(content)))
    ensures |RawGroups(content)| <= |HeaderNames(Lines(content))|
  {
    var st := ScanLines(Lines(content));
    ScanFollowsHeaders(Lines(content));
    FlattenSnoc(st.groups, Group(st.platform, st.pending));
    SubsequenceElements(Names(RawGroups(content)), HeaderNames(Lines(content)));
    NamesLength(RawGroups(content));
  }

  lemma {:induction false} NamesLength(groups: seq<Group>)
    ensures |Names(groups)| == |groups|
    ensures forall k :: 0 <= k < |groups| ==> Names(groups)[k] == groups[k].platform
  {
    if groups != [] {
      NamesLength(groups[..|groups| - 1]);
    }
  }

  /** Lines without a header only add their titles to the pending ones. */
  lemma {:induction false} ScanWithoutHeaders(pre: seq<string>, body: seq<string>)
    requires forall k :: 0 <= k < |body| ==> Classify(Trim(body[k])) != Header
    ensures ScanLines(pre + body)
            == ScanLines(pre).(pending := ScanLines(pre).pending + ItemTitles(body))
    decreases |body|
  {
    if body == [] {
      assert pre + body == pre;
    } else {
      var init := body[..|body| - 1];
      NoHeadersInit(body, init);
      ScanWithoutHeaders(pre, init);
      ExtendWithoutHeader(pre, body);
    }
  }

  /** The inductive step of `ScanWithoutHeaders`: one more line that is not a
      header appends its title, if any. */
  lemma ExtendWithoutHeader(pre: seq<string>, body: seq<string>)
    requires body != [] && Classify(Trim(body[|body| - 1])) != Header
    requires ScanLines(pre + body[..|body| - 1])
             == ScanLines(pre).(pending := ScanLines(pre).pending + ItemTitles(body[..|body| - 1]))
    ensures ScanLines(pre + body)
            == ScanLines(pre).(pending := ScanLines(pre).pending + ItemTitles(body))
  {
    var init, raw := body[..|body| - 1], body[|body| - 1];
    ScanAppendLast(pre, body);
    StepNoHeader(ScanLines(pre + init), raw);
    ItemTitlesLast(body);
    ChainPending(ScanLines(pre), ScanLines(pre + init), ScanLines(pre + body),
                 ItemTitles(init), NewTitles(raw));
  }

  lemma ItemTitlesLast(lines: seq<string>)
    requires lines != []
    ensures ItemTitles(lines) == ItemTitles(lines[..|lines| - 1]) + NewTitles(lines[|lines| - 1])
  {
  }

  lemma NoHeadersInit(body: seq<string>, init: seq<string>)
    requires body != [] && init == body[..|body| - 1]
    requires forall k :: 0 <= k < |body| ==> Classify(Trim(body[k])) != Header
    ensures forall k :: 0 <= k < |init| ==> Classify(Trim(init[k])) != Header
    ensures Classify(Trim(body[|body| - 1])) != Header
  {
    forall k | 0 <= k < |init| ensures Classify(Trim(init[k])) != Header {
      assert init[k] == body[k];
    }
  }

  /** Two appends to the pending titles are one append. */
  lemma ChainPending(s0: Scan, s1: Scan, s2: Scan, a: seq<string>, b: seq<string>)
    requires s1 == s0.(pending := s0.pending + a)
    requires s2 == s1.(pending := s1.pending + b)
    ensures s2 == s0.(pending := s0.pending + (a + b))
  {
    AppendAssoc(s0.pending, a, b);
  }

  lemma ScanAppendLast(pre: seq<string>, body: seq<string>)
    requires body != []
    ensures ScanLines(pre + body) == Step(ScanLines(pre + body[..|body| - 1]), body[|body| - 1])
  {
    assert (pre + body)[..|pre + body| - 1] == pre + body[..|body| - 1];
  }

  lemma StepNoHeader(st: Scan, raw: string)
    requires Classify(Trim(raw)) != Header
    ensures Step(st, raw) == st.(pending := st.pending + NewTitles(raw))
  {
    if Classify(Trim(raw)) == Item {
      StepItem(st, raw);
    } else {
      StepSkip(st, raw);
    }
  }

  lemma AppendAssoc<T>(a: seq<T>, b: seq<T>, c: seq<T>)
    ensures (a + b) + c == a + (b + c)
  {
  }

  /** A header that names a platform, followed by lines without a header:
      the previous platform's titles are flushed, and the new platform holds
      the titles carried over from an unnamed platform followed by the
      block's own titles. */
  lemma HeaderBlock(pre: seq<string>, h: string, body: seq<string>)
    requires Classify(Trim(h)) == Header && HeaderName(Trim(h)) != ""
    requires forall k :: 0 <= k < |body| ==> Classify(Trim(body[k])) != Header
    ensures var st := ScanLines(pre);
      var carried := if st.platform == "" then st.pending else [];
      ScanLines(pre + [h] + body)
      == Scan(HeaderName(Trim(h)), carried + ItemTitles(body), Flush(st).groups)
  {
    var st := ScanLines(pre);
    assert (pre + [h])[..|pre + [h]| - 1] == pre;
    StepHeader(st, h);
    ScanWithoutHeaders(pre + [h], body);
  }

  /** Each named header opens a group of its own: the groups of a digest that
      ends with such a block are the groups before the block plus one group
      holding exactly the block's titles (after any carried over), even when
      its name repeats an earlier one; a block without titles adds no group. */
  lemma HeaderBlockGroups(pre: seq<string>, h: string, body: seq<string>)
    requires Classify(Trim(h)) == Header && HeaderName(Trim(h)) != ""
    requires forall k :: 0 <= k < |body| ==> Classify(Trim(body[k])) != Header
    ensures var st := ScanLines(pre);
      var items := (if st.platform == "" then st.pending else []) + ItemTitles(body);
      Flush(ScanLines(pre + [h] + body)).groups
      == Flush(st).groups + (if items != [] then [Group(HeaderName(Trim(h)), items)] else [])
  {
    var st := ScanLines(pre);
    var items := (if st.platform == "" then st.pending else []) + ItemTitles(body);
    assert ScanLines(pre + [h] + body) == Scan(HeaderName(Trim(h)), items, Flush(st).groups) by {
      HeaderBlock(pre, h, body);
    }
  }

  /** Two consecutive named blocks, for instance under a repeated header, give
      two groups in order, each holding its own block's titles; the second
      block carries nothing over, since the first header named a platform. */
  lemma ConsecutiveBlocks(pre: seq<string>, h1: string, b1: seq<string>, h2: string, b2: seq<string>)
    requires Classify(Trim(h1)) == Header && HeaderName(Trim(h1)) != ""
    requires Classify(Trim(h2)) == Header && HeaderName(Trim(h2)) != ""
    requires forall k :: 0 <= k < |b1| ==> Classify(Trim(b1[k])) != Header
    requires forall k :: 0 <= k < |b2| ==> Classify(Trim(b2[k])) != Header
    ensures var st := ScanLines(pre);
      var first := (if st.platform == "" then st.pending else []) + ItemTitles(b1);
      Flush(ScanLines(pre + [h1] + b1 + [h2] + b2)).groups
      == Flush(st).groups
         + (if first != [] then [Group(HeaderName(Trim(h1)), first)] else [])
         + (if ItemTitles(b2) != [] then [Group(HeaderName(Trim(h2)), ItemTitles(b2))] else [])
  {
    var st := ScanLines(pre);
    var first := (if st.platform == "" then st.pending else []) + ItemTitles(b1);
    var mid := pre + [h1] + b1;
    HeaderBlock(pre, h1, b1);
    HeaderBlock(mid, h2, b2);
    ChainBlocks(st, ScanLines(mid), ScanLines(mid + [h2] + b2),
                HeaderName(Trim(h1)), HeaderName(Trim(h2)), first, ItemTitles(b2));
  }

  /** The scan states around two named blocks, whatever lines produced them. */
  lemma ChainBlocks(s0: Scan, s1: Scan, s2: Scan, n1: string, n2: string,
                    first: seq<string>, second: seq<string>)
    requires n1 != "" && n2 != ""
    requires s1 == Scan(n1, first, Flush(s0).groups)
    requires s2 == Scan(n2, (if s1.platform == "" then s1.pending else []) + second, Flush(s1).groups)
    ensures Flush(s2).groups
            == Flush(s0).groups
               + (if first != [] then [Group(n1, first)] else [])
               + (if second != [] then [Group(n2, second)] else [])
  {
    assert [] + second == second;
  }

  /** Without a header that names a platform the result is empty. */
  lemma NoNamedHeaderNoGroups(content: string, limit: int)
    requires forall k :: 0 <= k < |HeaderNames(Lines(content))| ==> HeaderNames(Lines(content))[k] == ""
    ensures Parse(content, limit) == []
  {
    var groups := RawGroups(content);
    GroupsFollowHeaders(content);
    RawGroupsNonEmpty(content);
    NamesLength(groups);
    SubsequenceElements(Names(groups), HeaderNames(Lines(content)));
  }

  /** Truncation acts on each group on its own. */
  lemma {:induction false} CapAt(groups: seq<Group>, limit: int)
    ensures |Cap(groups, limit)| == |groups|
    ensures forall k :: 0 <= k < |groups| ==> Cap(groups, limit)[k] == CapGroup(groups[k], limit)
  {
    if groups != [] {
      CapAt(groups[..|groups| - 1], limit);
    }
  }

  /** Each returned group is the corresponding untruncated group cut to its
      first `min(count, limit)` titles, in order; with a limit of at least one
      no group is empty. Titles beyond the limit are gone, not moved. */
  lemma ParseTruncates(content: string, limit: int)
    ensures |Parse(content, limit)| == |RawGroups(content)|
    ensures forall k :: 0 <= k < |Parse(content, limit)| ==>
      var raw := RawGroups(content)[k].items;
      var items := Parse(content, limit)[k].items;
      && Parse(content, limit)[k].platform == RawGroups(content)[k].platform != ""
      && items <= raw
      && (limit >= 0 ==> |items| == if limit < |raw| then limit else |raw|)
      && (limit >= 1 ==> items != [])
  {
    CapAt(RawGroups(content), limit);
    RawGroupsNonEmpty(content);
  }

  // ---------------------------------------------------------------------------
  // No line breaks in the output
  // ---------------------------------------------------------------------------

  /** No name and no title contains a line break. */
  predicate SingleLine(groups: seq<Group>)
  {
    forall k :: 0 <= k < |groups| ==>
      '\n' !in groups[k].platform && forall j :: 0 <= j < |groups[k].items| ==> '\n' !in groups[k].items[j]
  }

  predicate ScanSingleLine(st: Scan)
  {
    && '\n' !in st.platform
    && (forall j :: 0 <= j < |st.pending| ==> '\n' !in st.pending[j])
    && SingleLine(st.groups)
  }

  lemma HeaderNameKeepsAbsent(line: string, c: char)
    requires c !in line
    ensures c !in HeaderName(line)
  {
    if '|' in line {
      var parts := Split(line, '|');
      SplitKeepsAbsent(line, '|', c);
      var segment := if |parts| > 1 then parts[1] else parts[0];
      CharFreeInfix(segment, Trim(segment), c);
    }
  }

  lemma ItemTitleKeepsAbsent(line: string, c: char)
    requires Contains(line, ItemSep) && c !in line
    ensures c !in ItemTitle(line)
  {
    var a := After(line, ItemSep);
    assert OccursAt(line, a, |Before(line, ItemSep)| + |ItemSep|);
    CharFreeInfix(line, a, c);
    CharFreeInfix(a, ItemTitle(line), c);
  }

  lemma TitlesSnocSingleLine(xs: seq<string>, x: string)
    requires forall j :: 0 <= j < |xs| ==> '\n' !in xs[j]
    requires '\n' !in x
    ensures forall j :: 0 <= j < |xs + [x]| ==> '\n' !in (xs + [x])[j]
  {
  }

  lemma GroupsSnocSingleLine(gs: seq<Group>, g: Group)
    requires SingleLine(gs) && SingleLine([g])
    ensures SingleLine(gs + [g])
  {
    assert forall k :: 0 <= k < |gs| ==> (gs + [g])[k] == gs[k];
    assert (gs + [g])[|gs|] == [g][0];
  }

  lemma StepSingleLine(st: Scan, raw: string)
    requires ScanSingleLine(st) && '\n' !in raw
    ensures ScanSingleLine(Step(st, raw))
  {
    var line := Trim(raw);
    var next := Step(st, raw);
    CharFreeInfix(raw, line, '\n');
    StepGroups(st, raw);
    StepShape(st, raw);
    assert SingleLine(next.groups) by {
      if next.groups != st.groups {
        GroupsSnocSingleLine(st.groups, Group(st.platform, st.pending));
      }
    }
    if Classify(line) == Header {
      HeaderNameKeepsAbsent(line, '\n');
      assert next.pending == st.pending || next.pending == [];
    } else if Classify(line) == Item {
      ItemTitleKeepsAbsent(line, '\n');
      assert next.pending == st.pending + [ItemTitle(line)];
      TitlesSnocSingleLine(st.pending, ItemTitle(line));
    } else {
      assert next == st;
    }
  }

  lemma {:induction false} ScanSingleLineAll(lines: seq<string>)
    requires forall k :: 0 <= k < |lines| ==> '\n' !in lines[k]
    ensures ScanSingleLine(ScanLines(lines))
  {
    if lines != [] {
      var init := lines[..|lines| - 1];
      assert forall k :: 0 <= k < |init| ==> init[k] == lines[k];
      ScanSingleLineAll(init);
      StepSingleLine(ScanLines(init), lines[|lines| - 1]);
    }
  }

  /** Every platform name and every title the parser returns lies within one
      line of the input, so none holds a line break. */
  lemma ParseSingleLine(content: string, limit: int)
    ensures SingleLine(Parse(content, limit))
  {
    var lines := Lines(content);
    ScanSingleLineAll(lines);
    FlushSingleLine(ScanLines(lines));
    CapSingleLine(RawGroups(content), limit);
  }

  lemma FlushSingleLine(st: Scan)
    requires ScanSingleLine(st)
    ensures SingleLine(Flush(st).groups)
  {
    if st.pending != [] && st.platform != "" {
      GroupsSnocSingleLine(st.groups, Group(st.platform, st.pending));
    }
  }

  lemma CapSingleLine(groups: seq<Group>, limit: int)
    requires SingleLine(groups)
    ensures SingleLine(Cap(groups, limit))
  {
    CapAt(groups, limit);
    forall k, j | 0 <= k < |groups| && 0 <= j < |Cap(groups, limit)[k].items|
      ensures '\n' !in Cap(groups, limit)[k].items[j]
    {
      var items := Cap(groups, limit)[k].items;
      assert items <= groups[k].items;
      assert items[j] == groups[k].items[j];
    }
  }
}
