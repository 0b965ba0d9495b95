/** The news-digest parser. generate_podcast.py (`parse_news_content`) and
    generate_index_with_podcast.py (`parse_and_simplify_news`) carry the same
    line-driven state machine and differ only in how many titles each platform
    keeps, so it is modelled once here with that limit as a parameter.

    The specification is a fold over the lines that groups titles under
    platform names without truncating (`ScanLines`, `RawGroups`), followed by
    truncation of every group (`Cap`). The method `ParseAndSimplifyNews` does
    what the source does, truncating at each flush, and is proved equal to it:
    titles beyond the limit are dropped, never carried into a later group. */
module Digest {
  import opened Text

  /** One platform and the titles kept for it, in source order. */
  datatype Group = Group(platform: string, items: seq<string>)

  /** How the parser treats a stripped line. */
  datatype LineKind = Blank | Header | Item | Other

  /** Lines containing this separator are skipped like blank lines. */
  const FailedMarker: string := "==== 以下ID请求失败 ===="
  /** Separates an item's number from its title. */
  const ItemSep: string := ". "
  const UrlMarker: string := "[URL:"
  const MobileMarker: string := "[MOBILE:"

  // ---------------------------------------------------------------------------
  // Single lines
  // ---------------------------------------------------------------------------

  /** The kind of an already stripped line: skipped when empty or when it
      contains the failed-request separator; a header when it does not start
      with a digit and has a `|` or no `[`; an item when it starts with a digit
      and has `". "`; anything else is ignored. */
  function Classify(line: string): LineKind
  {
    if line == [] || Contains(line, FailedMarker) then Blank
    else if !IsDigit(line[0]) && ('|' in line || '[' !in line) then Header
    else if IsDigit(line[0]) && Contains(line, ItemSep) then Item
    else Other
  }

  /** The classification rules, with `in` read as "occurs somewhere in". */
  lemma ClassifyRules(line: string)
    ensures Classify(line) == Blank <==> line == [] || Occurs(line, FailedMarker)
    ensures Classify(line) == Header <==> line != [] && !Occurs(line, FailedMarker)
                                          && !IsDigit(line[0]) && ('|' in line || '[' !in line)
    ensures Classify(line) == Item <==> line != [] && !Occurs(line, FailedMarker)
                                        && IsDigit(line[0]) && Occurs(line, ItemSep)
  {
    ContainsIff(line, FailedMarker);
    ContainsIff(line, ItemSep);
  }

  /** The platform name a header line sets: with a `|`, the stripped second
      `|`-separated segment; otherwise the whole (already stripped) line. */
  function HeaderName(line: string): (name: string)
    ensures '|' !in line ==> name == line
    ensures '|' in line ==> '|' !in name
  {
    if '|' in line then
      var parts := Split(line, '|');
      var segment := if |parts| > 1 then parts[1] else parts[0];
      CharFreeInfix(segment, Trim(segment), '|');
      Trim(segment)
    else line
  }

  /** The title of an item after `". "`, with everything from `[URL:` cut off
      and stripped, and then everything from `[MOBILE:` cut off and stripped.
      The result is a piece of the input that holds neither marker, and text
      that holds neither marker is returned unchanged. */
  function StripAnnotations(text: string): (title: string)
    ensures Occurs(text, title)
    ensures !Occurs(title, UrlMarker) && !Occurs(title, MobileMarker)
    ensures !Occurs(text, UrlMarker) && !Occurs(text, MobileMarker) ==> title == text
    ensures Occurs(text, UrlMarker) || Occurs(text, MobileMarker) ==>
      title == Trim(text[..AnnotationStart(text)])
  {
    var t1 := CutAt(text, UrlMarker);
    var t2 := CutAt(t1, MobileMarker);
    InfixAvoids(t1, t2, UrlMarker);
    InfixTransitive(text, t1, t2);
    AnnotationCut(text);
    t2
  }

  /** `if marker in s: s = s.split(marker)[0].strip()`: the stripped text
      before the first occurrence of `marker`, or `s` itself when it does not
      occur. The result is a piece of `s` without the marker. */
  function CutAt(s: string, marker: string): (r: string)
    requires marker != []
    ensures Occurs(s, r) && !Occurs(r, marker)
    ensures !Occurs(s, marker) ==> r == s
  {
    ContainsIff(s, marker);
    if Contains(s, marker) then
      CutOccurs(s, marker);
      InfixAvoids(Before(s, marker), Trim(Before(s, marker)), marker);
      Trim(Before(s, marker))
    else
      assert OccursAt(s, s, 0);
      s
  }

  /** The cleaned title of an item line. */
  function ItemTitle(line: string): (title: string)
    requires Contains(line, ItemSep)
    ensures Occurs(After(line, ItemSep), title)
    ensures !Occurs(title, UrlMarker) && !Occurs(title, MobileMarker)
  {
    StripAnnotations(After(line, ItemSep))
  }

  /** Which part of an item line becomes its title: everything after the
      first `". "`, when it holds no annotation; otherwise the stripped text
      between that separator and the first annotation of either kind. */
  lemma ItemTitleCut(line: string)
    requires Contains(line, ItemSep)
    ensures var text := After(line, ItemSep);
      && (!Occurs(text, UrlMarker) && !Occurs(text, MobileMarker) ==> ItemTitle(line) == text)
      && (Occurs(text, UrlMarker) || Occurs(text, MobileMarker) ==>
            FirstAnnotation(text, AnnotationStart(text))
            && ItemTitle(line) == Trim(text[..AnnotationStart(text)]))
  {
    assert ItemTitle(line) == StripAnnotations(After(line, ItemSep));
    AnnotationCut(After(line, ItemSep));
  }

  // ---------------------------------------------------------------------------
  // Where the annotations are cut
  // ---------------------------------------------------------------------------

  /** `[URL:` or `[MOBILE:` starts at index `p` of `text`. */
  predicate AnnotatedAt(text: string, p: int)
  {
    OccursAt(text, UrlMarker, p) || OccursAt(text, MobileMarker, p)
  }

  /** The first annotation of `text`, of either kind, starts at index `p`. */
  predicate FirstAnnotation(text: string, p: int)
  {
    AnnotatedAt(text, p) && forall j :: 0 <= j < p ==> !AnnotatedAt(text, j)
  }

  /** Where the first annotation of either kind starts: the earlier of the
      first `[URL:` and the first `[MOBILE:`, or the end of the text when
      neither occurs. */
  function AnnotationStart(text: string): (p: nat)
    ensures p <= |text|
  {
    match (IndexOf(text, UrlMarker), IndexOf(text, MobileMarker))
    case (Some(u), Some(m)) => if m < u then m else u
    case (Some(u), None) => u
    case (None, Some(m)) => m
    case (None, None) => |text|
  }

  /** The two cuts of `StripAnnotations` amount to a single cut at the first
      annotation of either kind, followed by a strip. */
  lemma AnnotationCut(text: string)
    ensures Occurs(text, UrlMarker) || Occurs(text, MobileMarker) ==>
      && FirstAnnotation(text, AnnotationStart(text))
      && CutAt(CutAt(text, UrlMarker), MobileMarker) == Trim(text[..AnnotationStart(text)])
  {
    var url, mobile := IndexOf(text, UrlMarker), IndexOf(text, MobileMarker);
    if url.Some? && (mobile.None? || url.value < mobile.value) {
      assert AnnotationStart(text) == url.value;
      CutAtUrl(text, url.value);
    } else if url.Some? {
      assert AnnotationStart(text) == mobile.value;
      CutAtMobileBeforeUrl(text, mobile.value, url.value);
    } else if mobile.Some? {
      assert AnnotationStart(text) == mobile.value;
      CutAtMobile(text, mobile.value);
    } else {
      assert !Occurs(text, UrlMarker) && !Occurs(text, MobileMarker);
    }
  }

  /** The URL annotation comes first: the mobile cut finds nothing more. */
  lemma CutAtUrl(text: string, u: nat)
    requires IndexOf(text, UrlMarker) == Some(u)
    requires forall j :: 0 <= j < u ==> !OccursAt(text, MobileMarker, j)
    ensures FirstAnnotation(text, u)
    ensures CutAt(CutAt(text, UrlMarker), MobileMarker) == Trim(text[..u])
  {
    UrlCut(text, u);
    NoneInPrefix(text, u, MobileMarker);
    CutTrimmedAbsent(text[..u], MobileMarker);
    FirstAnnotationOf(text, u);
  }

  /** Only the mobile annotation occurs. */
  lemma CutAtMobile(text: string, m: nat)
    requires IndexOf(text, UrlMarker).None? && IndexOf(text, MobileMarker) == Some(m)
    ensures FirstAnnotation(text, m)
    ensures CutAt(CutAt(text, UrlMarker), MobileMarker) == Trim(text[..m])
  {
    assert CutAt(text, UrlMarker) == text;
    assert Before(text, MobileMarker) == text[..m];
  }

  /** The mobile annotation comes first: the URL cut keeps it, and the mobile
      cut of the stripped remainder ends where it starts. */
  lemma CutAtMobileBeforeUrl(text: string, m: nat, u: nat)
    requires IndexOf(text, UrlMarker) == Some(u) && IndexOf(text, MobileMarker) == Some(m)
    requires m <= u
    ensures FirstAnnotation(text, m)
    ensures CutAt(CutAt(text, UrlMarker), MobileMarker) == Trim(text[..m])
  {
    UrlCut(text, u);
    MobileCutInPrefix(text, m, u);
    FirstAnnotationOf(text, m);
  }

  /** The URL cut ends at the first `[URL:`. */
  lemma UrlCut(text: string, u: nat)
    requires IndexOf(text, UrlMarker) == Some(u)
    ensures CutAt(text, UrlMarker) == Trim(text[..u])
  {
    assert Before(text, UrlMarker) == text[..u];
  }

  /** Cutting stripped text at a marker that it does not hold changes nothing. */
  lemma CutTrimmedAbsent(s: string, marker: string)
    requires marker != [] && !Occurs(s, marker)
    ensures CutAt(Trim(s), marker) == Trim(s)
  {
    TrimInfix(s);
    InfixAvoids(s, Trim(s), marker);
  }

  /** The first `[MOBILE:` lies before the first `[URL:`: cutting the text
      before the URL at the mobile marker ends where that marker starts. */
  lemma MobileCutInPrefix(text: string, m: nat, u: nat)
    requires IndexOf(text, UrlMarker) == Some(u) && IndexOf(text, MobileMarker) == Some(m)
    requires m <= u
    ensures CutAt(Trim(text[..u]), MobileMarker) == Trim(text[..m])
  {
    MarkersApart(text, m, u);
    FirstInPrefix(text, u, MobileMarker, m);
    TrimCutFirst(text[..u], MobileMarker, m);
    PrefixOfPrefix(text, u, m);
  }

  /** An annotation with none of either kind before it is the first one. */
  lemma FirstAnnotationOf(text: string, p: nat)
    requires AnnotatedAt(text, p)
    requires forall j :: 0 <= j < p ==> !OccursAt(text, UrlMarker, j)
    requires forall j :: 0 <= j < p ==> !OccursAt(text, MobileMarker, j)
    ensures FirstAnnotation(text, p)
  {
  }

  /** A mobile annotation and a later URL annotation cannot overlap: only the
      first character of either marker is a `[`, and they differ in the
      second. */
  lemma MarkersApart(text: string, m: nat, u: nat)
    requires OccursAt(text, MobileMarker, m) && OccursAt(text, UrlMarker, u) && m <= u
    ensures m + |MobileMarker| <= u
  {
    assert text[u] == '[' && text[u + 1] == 'U' by {
      assert text[u..u + |UrlMarker|] == UrlMarker;
    }
    assert text[m + 1] == 'M' by {
      assert text[m..m + |MobileMarker|] == MobileMarker;
    }
    assert forall i :: m + 1 <= i < m + |MobileMarker| ==> text[i] != '[' by {
      forall i | m + 1 <= i < m + |MobileMarker| ensures text[i] != '[' {
        assert text[i] == text[m..m + |MobileMarker|][i - m];
      }
    }
  }

  // ---------------------------------------------------------------------------
  // Helper facts about pieces of strings
  // ---------------------------------------------------------------------------

  lemma CutOccurs(s: string, marker: string)
    requires marker != []
    ensures Occurs(s, Before(s, marker)) && Occurs(s, Trim(Before(s, marker)))
  {
    var b := Before(s, marker);
    assert OccursAt(s, b, 0);
    TrimInfix(b);
    InfixTransitive(s, b, Trim(b));
  }

  lemma InfixTransitive(a: string, b: string, c: string)
    requires Occurs(a, b) && Occurs(b, c)
    ensures Occurs(a, c)
  {
    var i :| OccursAt(a, b, i);
    var j :| OccursAt(b, c, j);
    InfixOccurs(a, b, i, c, j);
  }

  /** A character missing from a string is missing from its strip. */
  lemma CharFreeInfix(s: string, t: string, c: char)
    requires t == Trim(s) || Occurs(s, t)
    ensures c !in s ==> c !in t
  {
    if !Occurs(s, t) {
      TrimInfix(s);
    }
    CharFreeOccurs(s, t, c);
  }

  lemma CharFreeOccurs(s: string, t: string, c: char)
    requires Occurs(s, t)
    ensures c !in s ==> c !in t
  {
    var lo :| OccursAt(s, t, lo);
    if c in t {
      var k :| 0 <= k < |t| && t[k] == c;
      assert s[lo + k] == s[lo..lo + |t|][k];
    }
  }

  // ---------------------------------------------------------------------------
  // The specification: a fold over the lines
  // ---------------------------------------------------------------------------

  /** The parser's state: the current platform name, the titles collected for
      it and not yet emitted, and the groups emitted so far (untruncated). */
  datatype Scan = Scan(platform: string, pending: seq<string>, groups: seq<Group>)

  const Start: Scan := Scan("", [], [])

  /** Emit the pending titles as a group when both the name and the titles
      are non-empty; otherwise keep them for the next platform. */
  function Flush(st: Scan): Scan
  {
    if st.pending != [] && st.platform != "" then
      Scan(st.platform, [], st.groups + [Group(st.platform, st.pending)])
    else st
  }

  /** The effect of one raw line. */
  function Step(st: Scan, raw: string): Scan
  {
    var line := Trim(raw);
    match Classify(line)
    case Blank => st
    case Other => st
    case Header => Flush(st).(platform := HeaderName(line))
    case Item => st.(pending := st.pending + [ItemTitle(line)])
  }

  /** The state after a sequence of raw lines. */
  function ScanLines(lines: seq<string>): Scan
  {
    if lines == [] then Start
    else Step(ScanLines(lines[..|lines| - 1]), lines[|lines| - 1])
  }

  /** `news_content.strip().split("\n")`. */
  function Lines(content: string): seq<string>
  {
    Split(Trim(content), '\n')
  }

  /** The groups of a digest before any truncation. */
  function RawGroups(content: string): seq<Group>
  {
    Flush(ScanLines(Lines(content))).groups
  }

  /** A group truncated as `items[:limit]`. */
  function CapGroup(g: Group, limit: int): Group
  {
    Group(g.platform, SliceTo(g.items, limit))
  }

  function Cap(groups: seq<Group>, limit: int): seq<Group>
  {
    if groups == [] then []
    else Cap(groups[..|groups| - 1], limit) + [CapGroup(groups[|groups| - 1], limit)]
  }

  /** What the parser returns for a digest and a per-platform limit. */
  function Parse(content: string, limit: int): seq<Group>
  {
    Cap(RawGroups(content), limit)
  }

  lemma ScanLinesSnoc(lines: seq<string>, i: nat)
    requires i < |lines|
    ensures ScanLines(lines[..i + 1]) == Step(ScanLines(lines[..i]), lines[i])
  {
    assert lines[..i + 1][..i] == lines[..i];
  }

  lemma StepHeader(st: Scan, raw: string)
    requires Classify(Trim(raw)) == Header
    ensures Step(st, raw) == Flush(st).(platform := HeaderName(Trim(raw)))
  {
  }

  lemma StepItem(st: Scan, raw: string)
    requires Classify(Trim(raw)) == Item
    ensures Step(st, raw) == st.(pending := st.pending + [ItemTitle(Trim(raw))])
  {
  }

  lemma StepSkip(st: Scan, raw: string)
    requires Classify(Trim(raw)) == Blank || Classify(Trim(raw)) == Other
    ensures Step(st, raw) == st
  {
  }

  lemma CapSnoc(groups: seq<Group>, g: Group, limit: int)
    ensures Cap(groups + [g], limit) == Cap(groups, limit) + [CapGroup(g, limit)]
  {
    assert (groups + [g])[..|groups|] == groups;
  }

  // ---------------------------------------------------------------------------
  // The parser as the source runs it
  // ---------------------------------------------------------------------------

  /** `parse_and_simplify_news`: the stripped digest split into lines, then
      one pass over them. It never fails. */
  method ParseAndSimplifyNews(newsContent: string, maxItemsPerPlatform: int)
    returns (newsData: seq<Group>)
    ensures newsData == Parse(newsContent, maxItemsPerPlatform)
  {
    newsData := ParseLines(Lines(newsContent), maxItemsPerPlatform);
  }

  /** The loop of `parse_and_simplify_news` and its final flush: each
      platform's first `maxItemsPerPlatform` titles are emitted when the next
      header, or the end of the input, arrives. */
  method ParseLines(lines: seq<string>, maxItemsPerPlatform: int) returns (newsData: seq<Group>)
    ensures newsData == Cap(Flush(ScanLines(lines)).groups, maxItemsPerPlatform)
  {
    newsData := [];
    var currentPlatform: string := "";
    var currentPlatformNews: seq<string> := [];
    ghost var st := Start;
    for i := 0 to |lines|
      invariant st == ScanLines(lines[..i])
      invariant currentPlatform == st.platform && currentPlatformNews == st.pending
      invariant newsData == Cap(st.groups, maxItemsPerPlatform)
    {
      ScanLinesSnoc(lines, i);
      currentPlatform, currentPlatformNews, newsData :=
        ReadLine(lines[i], currentPlatform, currentPlatformNews, newsData, maxItemsPerPlatform, st);
      st := Step(st, lines[i]);
    }
    assert st == ScanLines(lines) by {
      assert lines[..|lines|] == lines;
    }
    if currentPlatformNews != [] && currentPlatform != "" {
      newsData := newsData + [Group(currentPlatform, SliceTo(currentPlatformNews, maxItemsPerPlatform))];
      CapSnoc(st.groups, Group(st.platform, st.pending), maxItemsPerPlatform);
    }
  }

  /** The body of the parser's loop: the effect of one raw line on the current
      name, the pending titles and the groups emitted so far, which are those
      of the scan `st` with the groups truncated. */
  method ReadLine(raw: string, currentPlatform: string, currentPlatformNews: seq<string>,
                  newsData: seq<Group>, maxItemsPerPlatform: int, ghost st: Scan)
    returns (platform: string, pending: seq<string>, emitted: seq<Group>)
    requires currentPlatform == st.platform && currentPlatformNews == st.pending
    requires newsData == Cap(st.groups, maxItemsPerPlatform)
    ensures platform == Step(st, raw).platform && pending == Step(st, raw).pending
    ensures emitted == Cap(Step(st, raw).groups, maxItemsPerPlatform)
  {
    platform, pending, emitted := currentPlatform, currentPlatformNews, newsData;
    var line := Trim(raw);
    match Classify(line)
    case Header =>
      if pending != [] && platform != "" {
        emitted := emitted + [Group(platform, SliceTo(pending, maxItemsPerPlatform))];
        pending := [];
      }
      platform := HeaderName(line);
      StepHeader(st, raw);
      CapSnoc(st.groups, Group(st.platform, st.pending), maxItemsPerPlatform);
    case Item =>
      pending := pending + [ItemTitle(line)];
      StepItem(st, raw);
    case Blank =>
      StepSkip(st, raw);
    case Other =>
      StepSkip(st, raw);
  }
}
