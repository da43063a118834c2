/** The section-aware parser for paper text: heading recognition over a
    fixed, ordered list of heading patterns, the line-by-line splitting of a
    paper into named sections, and the display labels of section keys. */
module Sections {
  import opened Strings

  // ---------------------------------------------------------------------------
  // Heading patterns
  // ---------------------------------------------------------------------------

  /** The entries of `SECTION_PATTERNS`, in their order. */
  datatype Heading =
    | Abstract | Introduction | RelatedWork | Methodology
    | Experiments | Discussion | Conclusion | References

  const PatternOrder: seq<Heading> :=
    [Abstract, Introduction, RelatedWork, Methodology, Experiments, Discussion, Conclusion, References]

  /** The section key each pattern stores its text under. */
  function Key(h: Heading): string {
    match h
    case Abstract => "abstract"
    case Introduction => "introduction"
    case RelatedWork => "related_work"
    case Methodology => "methodology"
    case Experiments => "experiments"
    case Discussion => "discussion"
    case Conclusion => "conclusion"
    case References => "references"
  }

  /** The word sequences a pattern accepts after its optional number prefix,
      in lower case; words stand for `\s+`-separated letters. */
  function Phrases(h: Heading): seq<seq<string>> {
    match h
    case Abstract => [["abstract"]]
    case Introduction => [["introduction"]]
    case RelatedWork =>
      [["related", "work"], ["literature", "review"], ["background"], ["previous", "work"]]
    case Methodology =>
      [["method"], ["methodology"], ["methods"], ["approach"],
       ["proposed", "method"], ["proposed", "approach"], ["proposed", "framework"], ["proposed", "system"]]
    case Experiments =>
      [["experiment"], ["experiments"], ["experimental"],
       ["experiment", "results"], ["experiments", "results"], ["experimental", "results"],
       ["experiment", "setup"], ["experiments", "setup"], ["experimental", "setup"],
       ["experiment", "evaluation"], ["experiments", "evaluation"], ["experimental", "evaluation"],
       ["evaluation"], ["results"], ["results", "and", "discussion"], ["results", "and", "analysis"]]
    case Discussion => [["discussion"], ["analysis"]]
    case Conclusion =>
      [["conclusion"], ["conclusions"], ["conclusion", "and", "future", "work"],
       ["conclusions", "and", "future", "work"], ["summary"], ["summary", "and", "conclusion"],
       ["summary", "and", "future", "work"], ["future", "work"]]
    case References => [["references"], ["bibliography"]]
  }

  /** `w` is one of `ps`. */
  predicate OneOf(w: seq<string>, ps: seq<seq<string>>) {
    ps != [] && (w == ps[0] || OneOf(w, ps[1..]))
  }

  /** The phrase part of a pattern, `(?:...)\s*` anchored at both ends: no
      leading white space, and the words, compared without regard to ASCII
      case, form one of the accepted phrases. */
  predicate PhraseMatches(u: string, h: Heading) {
    u != [] && !IsSpace(u[0]) && OneOf(Words(Lower(u)), Phrases(h))
  }

  /** The maximal prefix of digits. */
  function LeadingDigits(s: string): (d: string)
    ensures |d| <= |s| && d == s[..|d|] && AllDigits(d)
    ensures |d| == |s| || !IsDigit(s[|d|])
  {
    if s != [] && IsDigit(s[0]) then [s[0]] + LeadingDigits(s[1..]) else []
  }

  /** A whole pattern on one stretch of text: the optional `\d+[.)]\s*`
      prefix (taken exactly when the text starts with a digit, since no
      phrase does), then the phrase. */
  predicate PatternBody(t: string, h: Heading) {
    if t != [] && IsDigit(t[0]) then
      var d := LeadingDigits(t);
      |d| < |t| && (t[|d|] == '.' || t[|d|] == ')') && PhraseMatches(TrimStart(t[|d| + 1..]), h)
    else PhraseMatches(t, h)
  }

  predicate LineStart(s: string, p: nat) { p == 0 || (p <= |s| && IsLineTerminator(s[p - 1])) }
  predicate LineEnd(s: string, q: nat) { q == |s| || (q < |s| && IsLineTerminator(s[q])) }

  /** `pattern.test(s)` for the pattern of `h` with the `i` and `m` flags:
      `^` and `$` match at the ends of `s` and next to line terminators. */
  predicate MatchesPattern(s: string, h: Heading) {
    exists p: nat, q: nat | p <= q <= |s| :: MatchesAt(s, p, q, h)
  }

  /** The pattern of `h` matches `s[p..q]`, a stretch from a line start to a
      line end. */
  predicate MatchesAt(s: string, p: nat, q: nat, h: Heading)
    requires p <= q <= |s|
  {
    LineStart(s, p) && LineEnd(s, q) && PatternBody(s[p..q], h)
  }

  /** On a string with no line terminator inside, a pattern must match the
      whole string. */
  lemma WholeLine(s: string, h: Heading)
    requires forall i :: 0 <= i < |s| ==> !IsLineTerminator(s[i])
    ensures MatchesPattern(s, h) <==> PatternBody(s, h)
  {
    if PatternBody(s, h) {
      assert s[0..|s|] == s;
      assert MatchesAt(s, 0, |s|, h);
    }
    if MatchesPattern(s, h) {
      var p: nat, q: nat :| p <= q <= |s| && MatchesAt(s, p, q, h);
      assert p == 0 && q == |s|;
      assert s[0..|s|] == s;
    }
  }

  /** The first heading in `hs` that `matches` accepts for `s`. */
  function FirstMatch(s: string, hs: seq<Heading>, matches: (string, Heading) -> bool): (r: Option<Heading>)
    ensures r.Some? ==> matches(s, r.value)
    ensures r.None? <==> forall k :: 0 <= k < |hs| ==> !matches(s, hs[k])
    ensures r.Some? ==> exists j :: 0 <= j < |hs| && hs[j] == r.value && forall k :: 0 <= k < j ==> !matches(s, hs[k])
  {
    if hs == [] then None
    else if matches(s, hs[0]) then Some(hs[0])
    else
      var r := FirstMatch(s, hs[1..], matches);
      if r.Some? then
        var j :| 0 <= j < |hs[1..]| && hs[1..][j] == r.value && forall k :: 0 <= k < j ==> !matches(s, hs[1..][k]);
        assert hs[j + 1] == r.value && forall k :: 0 <= k < j + 1 ==> !matches(s, hs[k]);
        r
      else
        assert forall k :: 1 <= k < |hs| ==> hs[k] == hs[1..][k - 1];
        r
  }

  /** When `hs[j]` is accepted and nothing before it is, it is the first
      match. */
  lemma FirstMatchIs(s: string, hs: seq<Heading>, matches: (string, Heading) -> bool, j: nat)
    requires j < |hs| && matches(s, hs[j])
    requires forall k :: 0 <= k < j ==> !matches(s, hs[k])
    ensures FirstMatch(s, hs, matches) == Some(hs[j])
  {
    var r := FirstMatch(s, hs, matches);
    var jr :| 0 <= jr < |hs| && hs[jr] == r.value && forall k :: 0 <= k < jr ==> !matches(s, hs[k]);
    assert jr == j;
  }

  /** The position of a pattern in `SECTION_PATTERNS`. */
  function Rank(h: Heading): (k: nat)
    ensures k < |PatternOrder| && PatternOrder[k] == h
  {
    match h
    case Abstract => 0
    case Introduction => 1
    case RelatedWork => 2
    case Methodology => 3
    case Experiments => 4
    case Discussion => 5
    case Conclusion => 6
    case References => 7
  }

  /** The pattern at position `j` has rank `j`. */
  lemma RankAt(j: nat)
    requires j < |PatternOrder|
    ensures Rank(PatternOrder[j]) == j
  {
    var o := PatternOrder;
    assert o[0] == Abstract && o[1] == Introduction && o[2] == RelatedWork && o[3] == Methodology;
    assert o[4] == Experiments && o[5] == Discussion && o[6] == Conclusion && o[7] == References;
  }

  /** Over the full pattern list, the first match is the accepted heading of
      least rank, and there is none exactly when no heading is accepted. */
  lemma FirstInOrder(s: string, matches: (string, Heading) -> bool)
    ensures FirstMatch(s, PatternOrder, matches).None? <==> forall h :: !matches(s, h)
    ensures FirstMatch(s, PatternOrder, matches).Some? ==>
              forall h :: matches(s, h) ==> Rank(FirstMatch(s, PatternOrder, matches).value) <= Rank(h)
  {
    var r := FirstMatch(s, PatternOrder, matches);
    if r.Some? {
      var j :| 0 <= j < |PatternOrder| && PatternOrder[j] == r.value
               && forall k :: 0 <= k < j ==> !matches(s, PatternOrder[k]);
      RankAt(j);
      forall h | matches(s, h) ensures Rank(r.value) <= Rank(h) {
        assert PatternOrder[Rank(h)] == h;
      }
    } else {
      forall h ensures !matches(s, h) {
        assert PatternOrder[Rank(h)] == h;
      }
    }
  }

  /** The heading a (trimmed) line is, if any: the first pattern in
      `SECTION_PATTERNS` order that it matches. */
  function HeadingKey(trimmed: string): (r: Option<Heading>)
    ensures r.None? <==> forall h :: !MatchesPattern(trimmed, h)
    ensures r.Some? ==> MatchesPattern(trimmed, r.value)
    ensures r.Some? ==> forall h :: MatchesPattern(trimmed, h) ==> Rank(r.value) <= Rank(h)
  {
    FirstInOrder(trimmed, MatchesPattern);
    FirstMatch(trimmed, PatternOrder, MatchesPattern)
  }

  // ---------------------------------------------------------------------------
  // The parser as a value
  // ---------------------------------------------------------------------------

  /** A run of lines collected under one section key. */
  datatype Block = Block(key: string, lines: seq<string>)

  /** What a block stores: its lines joined by newlines, then trimmed. */
  function BlockText(lines: seq<string>): string {
    Trim(Join(lines, "\n"))
  }

  lemma EmptyBlockText()
    ensures BlockText([]) == []
  {
  }

  predicate Stores(b: Block) { BlockText(b.lines) != [] }

  /** "Save previous section": a block whose text is non-empty is stored
      under its key, replacing what was there. */
  function Flush(sections: map<string, string>, key: string, lines: seq<string>): map<string, string> {
    if |lines| > 0 && BlockText(lines) != [] then sections[key := BlockText(lines)] else sections
  }

  /** The heading a line opens, if any; the patterns see the trimmed line. */
  function LineHeading(line: string): Option<Heading> {
    HeadingKey(Trim(line))
  }

  /** The lines cut into blocks, given which lines are headings: a `preamble`
      block first, then a new block for every heading line; every other line
      goes to the block open at that point. */
  function Segment(lines: seq<string>, heading: string -> Option<Heading>): (bs: seq<Block>)
    ensures |bs| >= 1 && bs[0].key == "preamble"
  {
    if lines == [] then [Block("preamble", [])]
    else
      var bs := Segment(lines[..|lines| - 1], heading);
      var line := lines[|lines| - 1];
      match heading(line)
      case Some(h) => bs + [Block(Key(h), [])]
      case None => bs[..|bs| - 1] + [Block(bs[|bs| - 1].key, bs[|bs| - 1].lines + [line])]
  }

  /** The section map after every block has been flushed, in order. */
  function StoreAll(bs: seq<Block>): map<string, string> {
    if bs == [] then map[] else Flush(StoreAll(bs[..|bs| - 1]), bs[|bs| - 1].key, bs[|bs| - 1].lines)
  }

  /** The post-processing: a lone `preamble` becomes `full`, and
      `references` is dropped. */
  function Finish(sections: map<string, string>): map<string, string> {
    var s := if |sections.Keys| <= 1 && "preamble" in sections && sections["preamble"] != []
             then sections["full" := sections["preamble"]] - {"preamble"}
             else sections;
    s - {"references"}
  }

  /** `parseSections(fullText)` as a value. */
  function SectionsOf(text: string): (r: map<string, string>)
    ensures "references" !in r
    ensures text == [] ==> r == map["full" := []]
    ensures text != [] ==> forall k :: k in r ==> r[k] != [] && Trim(r[k]) == r[k]
  {
    if text == [] then map["full" := []]
    else
      var bs := Segment(Split(text, '\n'), LineHeading);
      StoredValues(bs);
      FinishRenames(StoreAll(bs));
      Finish(StoreAll(bs))
  }

  lemma {:induction false} StoredValues(bs: seq<Block>)
    ensures forall k :: k in StoreAll(bs) ==> StoreAll(bs)[k] != [] && Trim(StoreAll(bs)[k]) == StoreAll(bs)[k]
  {
    if bs != [] {
      var init, last := bs[..|bs| - 1], bs[|bs| - 1];
      StoredValues(init);
      TrimIdempotent(Join(last.lines, "\n"));
      var before := StoreAll(init);
      assert StoreAll(bs) == Flush(before, last.key, last.lines);
      forall k | k in StoreAll(bs) ensures StoreAll(bs)[k] != [] && Trim(StoreAll(bs)[k]) == StoreAll(bs)[k] {
        if |last.lines| > 0 && BlockText(last.lines) != [] && k == last.key {
          assert StoreAll(bs)[k] == BlockText(last.lines);
        } else {
          assert k in before && StoreAll(bs)[k] == before[k];
        }
      }
    }
  }

  // ---------------------------------------------------------------------------
  // What the value means
  // ---------------------------------------------------------------------------

  /** The lines that are not headings, in order. */
  function NonHeadingLines(lines: seq<string>, heading: string -> Option<Heading>): seq<string> {
    if lines == [] then []
    else NonHeadingLines(lines[..|lines| - 1], heading) + (if heading(lines[|lines| - 1]).Some? then [] else [lines[|lines| - 1]])
  }

  /** The headings of the heading lines, in order. */
  function HeadingsOf(lines: seq<string>, heading: string -> Option<Heading>): seq<Heading> {
    if lines == [] then []
    else
      var h := heading(lines[|lines| - 1]);
      HeadingsOf(lines[..|lines| - 1], heading) + (if h.Some? then [h.value] else [])
  }

  /** All lines of the blocks, block after block. */
  function AllLines(bs: seq<Block>): seq<string> {
    if bs == [] then [] else AllLines(bs[..|bs| - 1]) + bs[|bs| - 1].lines
  }

  /** The blocks hold exactly the non-heading lines, in their order: no
      heading line is part of any section, and no other line is lost. */
  lemma {:induction false} SegmentKeepsLines(lines: seq<string>, heading: string -> Option<Heading>)
    ensures AllLines(Segment(lines, heading)) == NonHeadingLines(lines, heading)
  {
    if lines != [] {
      var init := lines[..|lines| - 1];
      var line := lines[|lines| - 1];
      var bs := Segment(init, heading);
      SegmentKeepsLines(init, heading);
      var last := bs[|bs| - 1];
      assert bs == bs[..|bs| - 1] + [last];
      if heading(line).Some? {
        var bs' := bs + [Block(Key(heading(line).value), [])];
        assert bs'[..|bs'| - 1] == bs;
      } else {
        var bs' := bs[..|bs| - 1] + [Block(last.key, last.lines + [line])];
        assert bs'[..|bs'| - 1] == bs[..|bs| - 1];
        assert AllLines(bs) == AllLines(bs[..|bs| - 1]) + last.lines;
      }
    }
  }

  /** After the `preamble` block there is one block per heading line, keyed by
      that heading, in order. */
  lemma {:induction false} SegmentKeys(lines: seq<string>, heading: string -> Option<Heading>)
    ensures |Segment(lines, heading)| == |HeadingsOf(lines, heading)| + 1
    ensures forall b :: 1 <= b < |Segment(lines, heading)| ==>
              Segment(lines, heading)[b].key == Key(HeadingsOf(lines, heading)[b - 1])
  {
    if lines != [] {
      var init, line := lines[..|lines| - 1], lines[|lines| - 1];
      SegmentKeys(init, heading);
      var bs, hs := Segment(init, heading), HeadingsOf(init, heading);
      var bs2, hs2 := Segment(lines, heading), HeadingsOf(lines, heading);
      if heading(line).Some? {
        var h := heading(line).value;
        assert bs2 == bs + [Block(Key(h), [])];
        assert hs2 == hs + [h];
        forall b | 1 <= b < |bs2| ensures bs2[b].key == Key(hs2[b - 1]) {
          if b < |bs| {
            assert bs2[b] == bs[b] && hs2[b - 1] == hs[b - 1];
          } else {
            assert bs2[b].key == Key(h) && hs2[b - 1] == h;
          }
        }
      } else {
        assert hs2 == hs;
        assert bs2 == bs[..|bs| - 1] + [Block(bs[|bs| - 1].key, bs[|bs| - 1].lines + [line])];
        forall b | 1 <= b < |bs2| ensures bs2[b].key == Key(hs2[b - 1]) {
          assert bs2[b].key == bs[b].key;
        }
      }
    }
  }

  /** The index of the last block with key `k` whose text is non-empty, or
      -1 when there is none. */
  function LastStoring(bs: seq<Block>, k: string): (r: int)
    ensures -1 <= r < |bs|
    ensures r >= 0 ==> bs[r].key == k && Stores(bs[r])
  {
    if bs == [] then -1
    else if bs[|bs| - 1].key == k && Stores(bs[|bs| - 1]) then |bs| - 1
    else LastStoring(bs[..|bs| - 1], k)
  }

  /** No block after the one `LastStoring` picks stores under `k`. */
  lemma {:induction false} LastStoringIsLast(bs: seq<Block>, k: string, b: int)
    requires LastStoring(bs, k) < b < |bs|
    ensures !(bs[b].key == k && Stores(bs[b]))
  {
    var init := bs[..|bs| - 1];
    if b < |bs| - 1 {
      assert LastStoring(bs, k) == LastStoring(init, k);
      assert init[b] == bs[b];
      LastStoringIsLast(init, k, b);
    }
  }

  /** A key is stored exactly when some block with that key has non-empty
      text, and then it holds the text of the LAST such block. */
  lemma {:induction false} StoreAllLastWins(bs: seq<Block>, k: string)
    ensures k in StoreAll(bs) <==> LastStoring(bs, k) >= 0
    ensures k in StoreAll(bs) ==> StoreAll(bs)[k] == BlockText(bs[LastStoring(bs, k)].lines)
  {
    if bs != [] {
      var init, last := bs[..|bs| - 1], bs[|bs| - 1];
      StoreAllLastWins(init, k);
      if last.key == k && Stores(last) {
        EmptyBlockText();
        assert StoreAll(bs) == StoreAll(init)[k := BlockText(last.lines)];
      } else {
        assert LastStoring(bs, k) == LastStoring(init, k);
        assert k in StoreAll(bs) <==> k in StoreAll(init);
      }
    }
  }

  /** When parsing stored `preamble` alone, the result is `{ full: preamble }`;
      in every other case all stored keys but `references` are kept. */
  lemma FinishRenames(stored: map<string, string>)
    requires forall k :: k in stored ==> stored[k] != []
    ensures stored.Keys == {"preamble"} ==> Finish(stored) == map["full" := stored["preamble"]]
    ensures stored.Keys != {"preamble"} ==> Finish(stored) == stored - {"references"}
  {
    if "preamble" in stored && |stored.Keys| <= 1 {
      var rest := stored.Keys - {"preamble"};
      assert stored.Keys == rest + {"preamble"};
      assert rest == {};
    }
    if stored.Keys == {"preamble"} {
      assert |stored.Keys| == 1;
    }
  }

  // ---------------------------------------------------------------------------
  // The parser
  // ---------------------------------------------------------------------------

  /** The `for (const { key, pattern } of SECTION_PATTERNS)` search: the
      patterns are tried in order and the search stops at the first one
      whose `test` accepts `s`. */
  method FindFirst(s: string, hs: seq<Heading>, matches: (string, Heading) -> bool) returns (r: Option<Heading>)
    ensures r == FirstMatch(s, hs, matches)
  {
    var j := 0;
    while j < |hs|
      invariant 0 <= j <= |hs|
      invariant forall k :: 0 <= k < j ==> !matches(s, hs[k])
    {
      if matches(s, hs[j]) {
        FirstMatchIs(s, hs, matches, j);
        return Some(hs[j]);
      }
      j := j + 1;
    }
    return None;
  }

  /** "Save previous section" / "Save last section": the buffered lines
      are stored under the open key when their trimmed text is non-empty. */
  method SaveSection(sections: map<string, string>, key: string, content: seq<string>)
    returns (saved: map<string, string>)
    ensures saved == Flush(sections, key, content)
  {
    saved := sections;
    if |content| > 0 {
      var text := Trim(Join(content, "\n"));
      if |text| > 0 {
        saved := saved[key := text];
      }
    }
  }

  /** One more line extends the segmentation by one step. */
  lemma SegmentSnoc(lines: seq<string>, i: nat, heading: string -> Option<Heading>)
    requires i < |lines|
    ensures heading(lines[i]).Some? ==>
              Segment(lines[..i + 1], heading) == Segment(lines[..i], heading) + [Block(Key(heading(lines[i]).value), [])]
    ensures heading(lines[i]).None? ==>
              var bs := Segment(lines[..i], heading);
              Segment(lines[..i + 1], heading) == bs[..|bs| - 1] + [Block(bs[|bs| - 1].key, bs[|bs| - 1].lines + [lines[i]])]
  {
    assert lines[..i + 1][..i] == lines[..i];
  }

  /** The loop of `parseSections` over the lines: it keeps the open section
      key and its buffered lines, and flushes the buffer into the map at
      every heading and at the end. */
  method CollectSections(lines: seq<string>) returns (sections: map<string, string>)
    ensures sections == StoreAll(Segment(lines, LineHeading))
  {
    sections := map[];
    var currentSection := "preamble";
    var currentContent: seq<string> := [];
    ghost var done: seq<Block> := [];
    for i := 0 to |lines|
      invariant Segment(lines[..i], LineHeading) == done + [Block(currentSection, currentContent)]
      invariant sections == StoreAll(done)
    {
      var line := lines[i];
      var heading := FindFirst(Trim(line), PatternOrder, MatchesPattern);
      assert heading == LineHeading(line);
      SegmentSnoc(lines, i, LineHeading);
      if heading.Some? {
        sections := SaveSection(sections, currentSection, currentContent);
        assert (done + [Block(currentSection, currentContent)])[..|done|] == done;
        done := done + [Block(currentSection, currentContent)];
        currentSection := Key(heading.value);
        currentContent := [];
      } else {
        currentContent := currentContent + [line];
      }
    }
    assert lines[..|lines|] == lines;
    sections := SaveSection(sections, currentSection, currentContent);
    assert (done + [Block(currentSection, currentContent)])[..|done|] == done;
  }

  /** `parseSections(fullText)`: an empty text is the single empty `full`
      section; otherwise the sections of its newline-separated lines, with a
      lone preamble renamed to `full` and `references` dropped. */
  method ParseSections(fullText: string) returns (sections: map<string, string>)
    ensures sections == SectionsOf(fullText)
  {
    if fullText == [] {
      return map["full" := []];
    }
    var lines := Split(fullText, '\n');
    sections := CollectSections(lines);
    if |sections.Keys| <= 1 && "preamble" in sections && sections["preamble"] != [] {
      sections := sections["full" := sections["preamble"]];
      sections := sections - {"preamble"};
    }
    sections := sections - {"references"};
  }

  // ---------------------------------------------------------------------------
  // Labels
  // ---------------------------------------------------------------------------

  const Labels: map<string, string> := map[
    "preamble" := "Preamble",
    "abstract" := "Abstract",
    "introduction" := "Introduction",
    "related_work" := "Related Work",
    "methodology" := "Methodology",
    "experiments" := "Experiments & Results",
    "discussion" := "Discussion",
    "conclusion" := "Conclusion",
    "full" := "Full Paper"
  ]

  /** `s.replace(/_/g, ' ')` */
  function UnderscoresToSpaces(s: string): (r: string)
    ensures |r| == |s|
    ensures forall i :: 0 <= i < |s| ==> r[i] == if s[i] == '_' then ' ' else s[i]
  {
    if s == [] then [] else [if s[0] == '_' then ' ' else s[0]] + UnderscoresToSpaces(s[1..])
  }

  /** `getSectionLabel(key)`: the fixed label of a known key; otherwise the
      key with its first character upper-cased and every later underscore
      turned into a space. */
  function SectionLabel(key: string): (name: string)
    ensures key in Labels ==> name == Labels[key] && name != []
    ensures key !in Labels ==> |name| == |key|
    ensures key !in Labels && key != [] ==> name[0] == UpperChar(key[0])
    ensures key !in Labels ==> forall i :: 1 <= i < |key| ==> name[i] == if key[i] == '_' then ' ' else key[i]
  {
    if key in Labels then Labels[key]
    else if key == [] then []
    else [UpperChar(key[0])] + UnderscoresToSpaces(key[1..])
  }
}
