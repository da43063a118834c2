/** The extractive text compressor that shrinks a paper section before it is
    summarized: token estimation, sentence scoring, and `compressText`. */
module Compressor {
  import opened Strings
  import opened Extractive

  /** `estimateTokens(text)`: a quarter of the length, rounded up; no text is
      no tokens. */
  function EstimateTokens(text: string): (r: nat)
    ensures 4 * r >= |text|
    ensures r > 0 ==> 4 * (r - 1) < |text|
    ensures r == 0 <==> text == []
  {
    if text == [] then 0 else (|text| + 3) / 4
  }

  /** The academic terms that earn a sentence a bonus. */
  const ImportantTerms: seq<string> := [
    "result", "finding", "conclude", "demonstrate", "significant",
    "propose", "method", "approach", "contribute", "novel",
    "improve", "outperform", "achieve", "show", "suggest",
    "hypothesis", "experiment", "evaluate", "analysis", "model"
  ]

  /** `ws.filter(w => w.length > 3)`: the words longer than three
      characters, each as often as in `ws`, in their order in `ws` (see
      `LongWordsOfConcat`). */
  function LongWords(ws: seq<string>): (r: seq<string>)
    ensures forall i :: 0 <= i < |r| ==> |r[i]| > 3 && r[i] in ws
    ensures forall i :: 0 <= i < |ws| && |ws[i]| > 3 ==> ws[i] in r
  {
    if ws == [] then []
    else
      var rest := LongWords(ws[1..]);
      assert forall i :: 1 <= i < |ws| ==> ws[i] == ws[1..][i - 1];
      if |ws[0]| > 3 then [ws[0]] + rest else rest
  }

  /** Each long word is kept as often as it occurs, and no other word is. */
  lemma {:induction false} LongWordsCount(ws: seq<string>, w: string)
    ensures multiset(LongWords(ws))[w] == if |w| > 3 then multiset(ws)[w] else 0
  {
    if ws != [] {
      LongWordsCount(ws[1..], w);
      assert ws == [ws[0]] + ws[1..];
    }
  }

  /** Filtering keeps the order: the long words of a concatenation are the
      long words of the first part followed by those of the second. */
  lemma {:induction false} LongWordsOfConcat(a: seq<string>, b: seq<string>)
    ensures LongWords(a + b) == LongWords(a) + LongWords(b)
  {
    if a != [] {
      assert (a + b)[1..] == a[1..] + b;
      LongWordsOfConcat(a[1..], b);
    } else {
      assert a + b == b;
    }
  }

  /** `(prompt || '').toLowerCase().split(/\s+/).filter(w => w.length > 3)`:
      splitting may produce empty pieces at the ends, which the filter drops,
      so only the words of the lower-cased prompt remain. */
  function Keywords(prompt: string): seq<string> {
    LongWords(Words(Lower(prompt)))
  }

  /** How many of `terms` occur in `lower`, counting each entry. */
  function Matches(lower: string, terms: seq<string>): (n: nat)
    ensures n <= |terms|
  {
    if terms == [] then 0
    else Matches(lower, terms[..|terms| - 1]) + (if Contains(lower, terms[|terms| - 1]) then 1 else 0)
  }

  /** Position bonus in half-points: 3, 2, 1 points for the first three
      sentences, 1.5 for the last two. */
  function PositionBonus(index: nat, count: nat): int {
    (if index < 3 then 2 * (3 - index) else 0) + (if index >= count - 2 then 3 else 0)
  }

  /** Length bonus in half-points: 2 points for 10 to 40 words, else 1 point
      for at least 5. */
  function LengthBonus(words: nat): int {
    if 10 <= words <= 40 then 4 else if words >= 5 then 2 else 0
  }

  /** The score of one sentence, in half-points. */
  function SentenceScore(sentence: string, index: nat, count: nat, terms: seq<string>, keywords: seq<string>): (r: Scored)
    ensures r.text == Trim(sentence) && r.index == index
    ensures |Trim(sentence)| < 10 ==> r.score == 0
    ensures |Trim(sentence)| >= 10 ==>
              r.score == PositionBonus(index, count) + LengthBonus(|Words(Trim(sentence))|)
                         + 3 * Matches(Lower(Trim(sentence)), terms)
                         + 4 * Matches(Lower(Trim(sentence)), keywords)
                         - (if |Words(Trim(sentence))| < 5 then 4 else 0)
  {
    var t := Trim(sentence);
    if |t| < 10 then Scored(t, 0, index)
    else
      var words := |Words(t)|;
      var lower := Lower(t);
      Scored(t, PositionBonus(index, count) + LengthBonus(words) + 3 * Matches(lower, terms)
                + 4 * Matches(lower, keywords) - (if words < 5 then 4 else 0), index)
  }

  /** The loop `for (const term of terms) if (lower.includes(term)) score += bonus`. */
  method AddMatches(lower: string, terms: seq<string>, bonus: int, score0: int) returns (score: int)
    ensures score == score0 + bonus * Matches(lower, terms)
  {
    score := score0;
    for k := 0 to |terms|
      invariant score == score0 + bonus * Matches(lower, terms[..k])
    {
      assert terms[..k + 1][..k] == terms[..k];
      if Contains(lower, terms[k]) {
        score := score + bonus;
      }
    }
    assert terms[..|terms|] == terms;
  }

  /** The `scored` callback for one sentence. */
  method ScoreSentence(sentence: string, index: nat, count: nat, terms: seq<string>, keywords: seq<string>) returns (r: Scored)
    ensures r == SentenceScore(sentence, index, count, terms, keywords)
  {
    var trimmed := Trim(sentence);
    if |trimmed| < 10 {
      return Scored(trimmed, 0, index);
    }
    var score := 0;
    if index < 3 {
      score := score + 2 * (3 - index);
    }
    if index >= count - 2 {
      score := score + 3;
    }
    var wordCount := |Words(trimmed)|;
    if wordCount >= 10 && wordCount <= 40 {
      score := score + 4;
    } else if wordCount >= 5 {
      score := score + 2;
    }
    var lower := Lower(trimmed);
    score := AddMatches(lower, terms, 3, score);
    score := AddMatches(lower, keywords, 4, score);
    if wordCount < 5 {
      score := score - 4;
    }
    return Scored(trimmed, score, index);
  }

  /** `sentences.map(...)`: every sentence scored at its position. */
  method ScoreAll(sentences: seq<string>, keywords: seq<string>) returns (scored: seq<Scored>)
    ensures scored == ScoredSentences(sentences, ImportantTerms, keywords)
  {
    ghost var all := ScoredSentences(sentences, ImportantTerms, keywords);
    scored := [];
    for i := 0 to |sentences|
      invariant scored == all[..i]
    {
      var s := ScoreSentence(sentences[i], i, |sentences|, ImportantTerms, keywords);
      assert all[..i + 1] == all[..i] + [all[i]];
      scored := scored + [s];
    }
    assert all[..|sentences|] == all;
  }

  function ScoredSentences(sentences: seq<string>, terms: seq<string>, keywords: seq<string>): (r: seq<Scored>)
    ensures |r| == |sentences|
    ensures forall i :: 0 <= i < |r| ==> r[i] == SentenceScore(sentences[i], i, |sentences|, terms, keywords)
    ensures IndicesIncreasing(r)
  {
    seq(|sentences|, i requires 0 <= i < |sentences| => SentenceScore(sentences[i], i, |sentences|, terms, keywords))
  }

  /** A scored sentence is the score of the sentence at its own index. */
  lemma ScoredMember(sentences: seq<string>, terms: seq<string>, keywords: seq<string>, x: Scored)
    requires x in ScoredSentences(sentences, terms, keywords)
    ensures x.index < |sentences|
    ensures x == SentenceScore(sentences[x.index], x.index, |sentences|, terms, keywords)
  {
    var r := ScoredSentences(sentences, terms, keywords);
    var i :| 0 <= i < |r| && r[i] == x;
  }

  /** The sentences of `context`, scored against `prompt` and ranked best
      first. */
  function Ranked(context: string, prompt: string): seq<Scored> {
    SortByScore(ScoredSentences(Sentences(context, true), ImportantTerms, Keywords(prompt)))
  }

  /** The content `compressText` returns for a context of at least 100
      non-blank characters: the kept sentences joined by spaces, or, when
      that is 50 characters or fewer, the first `maxChars` characters. */
  function CompressedContent(context: string, prompt: string, maxTokens: nat): string {
    var compressed := Stitched(Ranked(context, prompt), 4 * maxTokens, true);
    if |compressed| > 50 then compressed else Prefix(context, 4 * maxTokens)
  }

  /** `Math.round(x * 100) / 100` */
  function RoundHundredths(x: real): real {
    ((x * 100.0 + 0.5).Floor as real) / 100.0
  }

  lemma RoundHundredthsClose(x: real)
    ensures x - 0.005 < RoundHundredths(x) <= x + 0.005
  {
    var f := (x * 100.0 + 0.5).Floor;
    assert f as real <= x * 100.0 + 0.5 < f as real + 1.0;
  }

  /** `compressionRatio`: the token ratio rounded to two decimals, or 1 when
      nothing is left. */
  function CompressionRatio(originalTokens: nat, compressedTokens: nat): (r: real)
    ensures compressedTokens == 0 ==> r == 1.0
    ensures compressedTokens > 0 ==>
              var exact := originalTokens as real / compressedTokens as real;
              exact - 0.005 < r <= exact + 0.005
  {
    if compressedTokens > 0 then
      RoundHundredthsClose(originalTokens as real / compressedTokens as real);
      RoundHundredths(originalTokens as real / compressedTokens as real)
    else 1.0
  }

  /** The result record of `compressText`. */
  datatype Compression = Compression(content: string, originalTokens: nat, compressedTokens: nat, ratio: real)

  /** The compressed text never exceeds `maxTokens * 4` characters. */
  lemma CompressedWithinBudget(context: string, prompt: string, maxTokens: nat)
    ensures |CompressedContent(context, prompt, maxTokens)| <= 4 * maxTokens
  {
    var ranked := Ranked(context, prompt);
    var budget := 4 * maxTokens;
    StitchedWithin(ranked, budget, true);
    var c := Stitched(ranked, budget, true);
    assert |c| <= budget;
    assert |Prefix(context, budget)| <= budget;
    assert CompressedContent(context, prompt, maxTokens) == (if |c| > 50 then c else Prefix(context, budget));
  }

  /** Every kept sentence had a positive score, is one of the sentences of
      the context, trimmed, and so has at least ten characters. */
  lemma KeptAreScoredSentences(context: string, prompt: string, maxTokens: nat)
    ensures forall x :: x in Kept(Ranked(context, prompt), 4 * maxTokens, true) ==>
              x.score > 0 && x.index < |Sentences(context, true)|
              && x.text == Trim(Sentences(context, true)[x.index]) && |x.text| >= 10
  {
    var sentences := Sentences(context, true);
    var scored := ScoredSentences(sentences, ImportantTerms, Keywords(prompt));
    var ranked := Ranked(context, prompt);
    assert ranked == SortByScore(scored);
    var budget := 4 * maxTokens;
    KeptFromRanked(ranked, budget, true);
    forall x | x in Kept(ranked, budget, true)
      ensures x.score > 0 && x.index < |sentences| && x.text == Trim(sentences[x.index]) && |x.text| >= 10
    {
      assert x in multiset(ranked);
      assert x in multiset(scored);
      ScoredMember(sentences, ImportantTerms, Keywords(prompt), x);
    }
  }

  /** What `compressText(context, prompt, maxTokens)` returns: a context
      with fewer than 100 non-blank characters is returned as it is, with a
      ratio of 1; a longer one is cut down to at most `4 * maxTokens`
      characters. */
  function Compressed(context: string, prompt: string, maxTokens: nat): (c: Compression)
    ensures c.originalTokens == EstimateTokens(context)
    ensures c.compressedTokens == EstimateTokens(c.content)
    ensures |Trim(context)| < 100 ==> c.content == context && c.ratio == 1.0
    ensures |Trim(context)| >= 100 ==>
              |c.content| <= 4 * maxTokens && c.compressedTokens <= maxTokens
              && c.ratio == CompressionRatio(c.originalTokens, c.compressedTokens)
  {
    if |Trim(context)| < 100 then Compression(context, EstimateTokens(context), EstimateTokens(context), 1.0)
    else
      var content := CompressedContent(context, prompt, maxTokens);
      CompressedWithinBudget(context, prompt, maxTokens);
      Compression(content, EstimateTokens(context), EstimateTokens(content),
                  CompressionRatio(EstimateTokens(context), EstimateTokens(content)))
  }

  /** `compressText(context, prompt, maxTokens)`. */
  method CompressText(context: string, prompt: string, maxTokens: nat) returns (c: Compression)
    ensures c == Compressed(context, prompt, maxTokens)
    ensures |Trim(context)| < 100 ==>
              c == Compression(context, EstimateTokens(context), EstimateTokens(context), 1.0)
    ensures |Trim(context)| >= 100 ==>
              c.content == CompressedContent(context, prompt, maxTokens)
              && |c.content| <= 4 * maxTokens
              && c.originalTokens == EstimateTokens(context)
              && c.compressedTokens == EstimateTokens(c.content)
              && c.ratio == CompressionRatio(c.originalTokens, c.compressedTokens)
  {
    if |Trim(context)| < 100 {
      return Compression(context, EstimateTokens(context), EstimateTokens(context), 1.0);
    }
    var originalTokens := EstimateTokens(context);
    var maxChars := maxTokens * 4;
    var sentences := Sentences(context, true);
    var promptKeywords := Keywords(prompt);
    var scored := ScoreAll(sentences, promptKeywords);
    var ranked := SortByScore(scored);
    assert ranked == Ranked(context, prompt);
    var selected := SelectWithin(ranked, maxChars, true);
    var ordered := SortByIndex(selected);
    assert ordered == Kept(ranked, maxChars, true);
    var compressed := Trim(Join(Texts(ordered), " "));
    assert compressed == Stitched(ranked, maxChars, true);
    var finalContent := if |compressed| > 50 then compressed else Prefix(context, maxChars);
    assert finalContent == CompressedContent(context, prompt, maxTokens);
    CompressedWithinBudget(context, prompt, maxTokens);
    var compressedTokens := EstimateTokens(finalContent);
    return Compression(finalContent, originalTokens, compressedTokens,
                       CompressionRatio(originalTokens, compressedTokens));
  }
}
