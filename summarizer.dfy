/** The summarizer service: the guard and truncation in front of the remote
    summarization model, the extractive fallback used when the model gives no
    usable answer, the three summary levels, and the literature-review
    prompt. */
module Summarizer {
  import opened Strings
  import opened Extractive

  const InsufficientText := "Insufficient text for summarization."
  const NoTextMessage := "No text available for summarization."

  /** The remote model takes at most this many characters. */
  const InputLimit: nat := 4000

  // ---------------------------------------------------------------------------
  // Fallback extractive summarization
  // ---------------------------------------------------------------------------

  /** The fallback score of a sentence, in half-points: its trimmed length
      times 2 among the first three, times 1.5 among the last two, times 1
      elsewhere. */
  function LengthScore(sentence: string, index: nat, count: nat): (r: Scored)
    ensures r.text == Trim(sentence) && r.index == index
    ensures index < 3 ==> r.score == 4 * |r.text|
    ensures 3 <= index && index >= count - 2 ==> r.score == 3 * |r.text|
    ensures 3 <= index < count - 2 ==> r.score == 2 * |r.text|
  {
    var t := Trim(sentence);
    Scored(t, |t| * (if index < 3 then 4 else if index >= count - 2 then 3 else 2), index)
  }

  /** `sentences.map((s, i) => ...)` */
  function LengthScores(sentences: seq<string>): (r: seq<Scored>)
    ensures |r| == |sentences|
    ensures forall i :: 0 <= i < |r| ==> r[i] == LengthScore(sentences[i], i, |sentences|)
    ensures IndicesIncreasing(r)
  {
    seq(|sentences|, i requires 0 <= i < |sentences| => LengthScore(sentences[i], i, |sentences|))
  }

  /** What `fallbackSummarize(text, maxLength)` returns: the longest-scoring
      sentences that fit `maxLength`, in document order, or else the trimmed
      first `maxLength` characters. */
  function FallbackSummary(text: string, maxLength: nat): string {
    if Trim(text) == [] then NoTextMessage
    else
      var summary := Stitched(SortByScore(LengthScores(Sentences(text, false))), maxLength, false);
      if |summary| > 0 then summary else Trim(Prefix(text, maxLength))
  }

  /** For any text with a non-blank character the fallback summary fits
      `maxLength`; a blank text gets the fixed message. */
  lemma FallbackWithin(text: string, maxLength: nat)
    ensures Trim(text) == [] ==> FallbackSummary(text, maxLength) == NoTextMessage
    ensures Trim(text) != [] ==> |FallbackSummary(text, maxLength)| <= maxLength
  {
    if Trim(text) != [] {
      StitchedWithin(SortByScore(LengthScores(Sentences(text, false))), maxLength, false);
    }
  }

  /** The scoring `map` of `fallbackSummarize`. */
  method ScoreByLength(sentences: seq<string>) returns (scored: seq<Scored>)
    ensures scored == LengthScores(sentences)
  {
    scored := [];
    for i := 0 to |sentences|
      invariant scored == LengthScores(sentences)[..i]
    {
      var t := Trim(sentences[i]);
      var weight := if i < 3 then 4 else if i >= |sentences| - 2 then 3 else 2;
      scored := scored + [Scored(t, |t| * weight, i)];
    }
  }

  /** `fallbackSummarize(text, maxLength)` */
  method FallbackSummarize(text: string, maxLength: nat) returns (summary: string)
    ensures summary == FallbackSummary(text, maxLength)
  {
    if Trim(text) == [] {
      return NoTextMessage;
    }
    var sentences := Sentences(text, false);
    var scored := ScoreByLength(sentences);
    var ranked := SortByScore(scored);
    var selected := SelectWithin(ranked, maxLength, false);
    var ordered := SortByIndex(selected);
    assert ordered == Kept(ranked, maxLength, false);
    summary := Trim(Join(Texts(ordered), " "));
    if |summary| == 0 {
      summary := Trim(Prefix(text, maxLength));
    }
  }

  // ---------------------------------------------------------------------------
  // generateSummary
  // ---------------------------------------------------------------------------

  /** What the remote model answered, after any cold-start retries: a summary
      text, or nothing usable (an error, an unexpected payload). */
  datatype Reply = Answer(summary: string) | NoAnswer

  /** The model's answer counts when it is a non-blank summary. */
  predicate Usable(reply: Reply) {
    reply.Answer? && Trim(reply.summary) != []
  }

  /** `generateSummary(text, maxLength, minLength)`, with the model's reply
      given. */
  function GenerateSummary(text: string, maxLength: nat, reply: Reply): (r: string)
    ensures |Trim(text)| < 50 && Trim(text) != [] ==> r == text
    ensures Trim(text) == [] ==> r == InsufficientText
    ensures |Trim(text)| >= 50 && Usable(reply) ==> r == reply.summary
    ensures |Trim(text)| >= 50 && !Usable(reply) ==> r == FallbackSummary(Prefix(text, InputLimit), maxLength)
  {
    if |Trim(text)| < 50 then
      if Trim(text) != [] then text else InsufficientText
    else
      var truncated := Prefix(text, InputLimit);
      if Usable(reply) then reply.summary else FallbackSummary(truncated, maxLength)
  }

  /** Without a usable answer, a long text whose first 4000 characters are
      not all blank is summarized within `maxLength`. */
  lemma GenerateSummaryWithin(text: string, maxLength: nat, reply: Reply)
    requires |Trim(text)| >= 50 && !Usable(reply)
    requires Trim(Prefix(text, InputLimit)) != []
    ensures |GenerateSummary(text, maxLength, reply)| <= maxLength
  {
    FallbackWithin(Prefix(text, InputLimit), maxLength);
  }

  /** A long text whose first 4000 characters are blank falls through the
      guard and then gets the fallback's no-text message. */
  lemma BlankHeadGetsNoTextMessage(text: string, maxLength: nat, reply: Reply)
    requires |Trim(text)| >= 50 && !Usable(reply)
    requires Trim(Prefix(text, InputLimit)) == []
    ensures GenerateSummary(text, maxLength, reply) == NoTextMessage
  {
  }

  // ---------------------------------------------------------------------------
  // Summary levels
  // ---------------------------------------------------------------------------

  datatype Level = Eli5 | Technical | Expert

  /** The names stored with a summary. */
  function LevelName(level: Level): (name: string)
    ensures name in ["eli5", "technical", "expert"]
  {
    match level
    case Eli5 => "eli5"
    case Technical => "technical"
    case Expert => "expert"
  }

  /** The text sent for a level: the ELI5 request is prefixed with a plain
      instruction. */
  function LevelInput(level: Level, text: string): string {
    if level == Eli5 then "Explain simply: " + text else text
  }

  /** The `maxLength` of each level's request. */
  function LevelMaxLength(level: Level): nat {
    match level
    case Eli5 => 150
    case Technical => 300
    case Expert => 500
  }

  /** One entry of the `generateMultiLevelSummaries` result. */
  datatype LevelSummary = LevelSummary(content: string, level: Level, sectionName: string)

  datatype MultiLevel = MultiLevel(eli5: LevelSummary, technical: LevelSummary, expert: LevelSummary)

  /** The model's reply to each of the three requests. */
  datatype Replies = Replies(eli5: Reply, technical: Reply, expert: Reply)

  /** The summary of one level. */
  function SummaryAt(text: string, sectionName: string, level: Level, reply: Reply): LevelSummary {
    LevelSummary(GenerateSummary(LevelInput(level, text), LevelMaxLength(level), reply), level, sectionName)
  }

  /** `generateMultiLevelSummaries(text, sectionName)`, with the three replies
      given: each level is requested with its own input and length, and
      tagged with its level and the section name. */
  function MultiLevelSummaries(text: string, sectionName: string, replies: Replies): (r: MultiLevel)
    ensures r.eli5.level == Eli5 && r.technical.level == Technical && r.expert.level == Expert
    ensures r.eli5.sectionName == r.technical.sectionName == r.expert.sectionName == sectionName
    ensures r.eli5.content == GenerateSummary(LevelInput(Eli5, text), LevelMaxLength(Eli5), replies.eli5)
    ensures r.technical.content == GenerateSummary(LevelInput(Technical, text), LevelMaxLength(Technical), replies.technical)
    ensures r.expert.content == GenerateSummary(LevelInput(Expert, text), LevelMaxLength(Expert), replies.expert)
  {
    MultiLevel(SummaryAt(text, sectionName, Eli5, replies.eli5),
               SummaryAt(text, sectionName, Technical, replies.technical),
               SummaryAt(text, sectionName, Expert, replies.expert))
  }

  /** For an empty text the ELI5 request is itself short enough to be echoed
      back, while the other levels report insufficient text. */
  lemma EmptyTextLevels(sectionName: string, replies: Replies)
    ensures MultiLevelSummaries("", sectionName, replies).eli5.content == "Explain simply: "
    ensures MultiLevelSummaries("", sectionName, replies).technical.content == InsufficientText
    ensures MultiLevelSummaries("", sectionName, replies).expert.content == InsufficientText
  {
    var p := "Explain simply: ";
    assert p + "" == p;
    assert !IsSpace(p[0]);
  }

  // ---------------------------------------------------------------------------
  // Literature review
  // ---------------------------------------------------------------------------

  /** The title and abstract of one paper of a review. */
  datatype PaperText = PaperText(title: string, abstractText: string)

  const ReviewHeader := "Compare and " + "synthesize the " + "following " + "research papers:\n"
  const ReviewSeparator := "\n---\n"

  /** `Title: ${p.title}\nAbstract: ${p.abstract}\n` */
  function PaperBlock(p: PaperText): string {
    "Title: " + p.title + "\nAbstract: " + p.abstractText + "\n"
  }

  function PaperBlocks(papers: seq<PaperText>): (r: seq<string>)
    ensures |r| == |papers|
    ensures forall i :: 0 <= i < |r| ==> r[i] == PaperBlock(papers[i])
  {
    seq(|papers|, i requires 0 <= i < |papers| => PaperBlock(papers[i]))
  }

  /** The text of the review request: the header, then the paper blocks
      separated by `\n---\n`. */
  function ReviewInput(papers: seq<PaperText>): (r: string)
    ensures StartsWith(r, ReviewHeader)
    ensures papers == [] ==> r == ReviewHeader
  {
    ReviewHeader + Join(PaperBlocks(papers), ReviewSeparator)
  }

  /** Every paper's block occurs in the review request. */
  lemma ReviewMentionsEveryPaper(papers: seq<PaperText>, i: nat)
    requires i < |papers|
    ensures Contains(ReviewInput(papers), PaperBlock(papers[i]))
  {
    JoinContains(PaperBlocks(papers), ReviewSeparator, i);
    ContainsInSuffix(ReviewHeader, Join(PaperBlocks(papers), ReviewSeparator), PaperBlock(papers[i]));
  }

  /** The header alone is long enough to pass the length guard, and it
      starts with a non-blank character. */
  lemma ReviewInputLong(papers: seq<PaperText>)
    ensures |Trim(ReviewInput(papers))| >= 50
    ensures !IsSpace(ReviewInput(papers)[0])
  {
    var s := ReviewInput(papers);
    assert s[..|ReviewHeader|] == ReviewHeader;
    assert ReviewHeader[0] == 'C' && ReviewHeader[52] == ':';
    assert s[0] == 'C' && s[52] == ':';
    TrimSpan(s, 0, 52);
  }

  /** `generateLitReview(papers)`, with the model's reply given: the request
      always passes the length guard, so a usable answer is returned as is
      and otherwise the fallback summarizes the first 4000 characters of the
      request within 500. */
  function GenerateLitReview(papers: seq<PaperText>, reply: Reply): (r: string)
    ensures Usable(reply) ==> r == reply.summary
    ensures !Usable(reply) ==> r == FallbackSummary(Prefix(ReviewInput(papers), InputLimit), 500)
    ensures !Usable(reply) ==> |r| <= 500
  {
    var input := ReviewInput(papers);
    ReviewInputLong(papers);
    PrefixNotBlank(input, InputLimit);
    if Usable(reply) then GenerateSummary(input, 500, reply)
    else
      GenerateSummaryWithin(input, 500, reply);
      GenerateSummary(input, 500, reply)
  }
}
