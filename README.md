# Paper summarizer server core, in Dafny

This project models the text-processing core of the paper-summarizer server,
an Express application that stores research papers and generates summaries
of them:

- **ROUGE scoring** (`Rouge`, rouge.dfy): tokenizing, n-grams, clipped
  n-gram overlap, the two-row LCS dynamic programme and harmonic-mean F1.
- **Section parsing** (`Sections`, sections.dfy): the line-by-line parser
  that recognises headings in a fixed pattern order, fills a section map and
  post-processes it; and the section labels.
- **Extractive selection** (`Extractive`, extractive.dfy): splitting text
  into sentences with a global pattern, ranking scored sentences by a stable
  sort, greedy picking within a character budget, and restoring document
  order. The compressor and the fallback summarizer share this machinery.
- **Compression** (`Compressor`, compressor.dfy): token estimation and
  `compressText`.
- **Summarization** (`Summarizer`, summarizer.dfy): the guard and truncation
  in front of the remote model, `fallbackSummarize`, the three summary
  levels and the literature-review request.
- **arXiv identifiers** (`Arxiv`, arxiv.dfy): extracting and validating an
  identifier, and shaping a parsed arXiv entry into paper metadata.
- **Papers routes** (`PapersRoute`, papers_route.dfy): input acceptance, the
  duplicate key, error-to-status mapping and the records built by
  `POST /url` and `POST /upload`.
- **Summaries routes** (`SummariesRoute`, summaries_route.dfy): text
  selection and gates of `POST /generate`, its per-level delete-then-create
  update of the summary collection, and `POST /lit-review`.
- The JavaScript string built-ins the core relies on (`Strings`,
  strings.dfy).

Modelling choices:

- Strings are `seq<char>`. A Dafny `char` is a Unicode scalar value, while
  JavaScript strings count UTF-16 code units (see "## Left out").
  - White space (`\s`, `trim`) is the ECMAScript set of white-space and
    line-terminator characters.
  - Case mapping covers ASCII letters only.
  - The `i` flag is modelled by lower-casing ASCII letters. This is exact
    for the patterns of the core: they hold only ASCII letters, and outside
    Unicode mode the `i` flag never maps a non-ASCII character to an ASCII
    one.
- Each regular expression of the core is written out by hand as a function
  or predicate over that one pattern. There is no general regex engine.
- Sentence scores go up in steps of 0.5, so they are kept as integers in
  half-points (every score doubled). This changes no comparison and no sort
  order.
- ROUGE precision, recall and F1 are exact `real` ratios.
- Everything outside the process becomes a parameter. In the Dafny:
  - the model's reply is `Reply`;
  - the arXiv API is `query: string -> Response`;
  - the PDF download is `pdf`;
  - the paper lookup is `papers`;
  - the stored-paper check is `stored`;
  - the papers a review finds are `found`.
- The summary collection is a `SummaryStore` object. `POST /generate`
  updates it through `DeleteOne` and `Create`.
- Where the source loops or updates state, the model is a method with loop
  invariants, proved equal to a specification function. These are
  `GetNgrams`, `CountNgrams`, `ClippedOverlap`, `FillRow`, `LcsLength`,
  `FindFirst`, `CollectSections`, `ParseSections`, `SelectWithin`,
  `ScoreAll`, `FallbackSummarize`, `CompressText` and `Generate`.

## Model

Source paths are relative to the repository root.

| member | source | states |
|---|---|---|
| Strings.LowerChar | paper-summarizer/server/src/services/rouge.js:13 | lower-casing a character leaves no ASCII capital and keeps whether it is a word character or white space |
| Strings.UpperChar | paper-summarizer/server/src/services/sectionParser.js:98 | upper-casing a character leaves no ASCII lower-case letter |
| Strings.Lower | paper-summarizer/server/src/services/rouge.js:13 | `toLowerCase` keeps the length and maps each character on its own |
| Strings.LowerOfLower | paper-summarizer/server/src/services/rouge.js:13 | a text without ASCII capitals is left unchanged by lower-casing |
| Strings.IndexOf | paper-summarizer/server/src/routes/papers.js:95 | -1 exactly when the substring does not occur; otherwise the first position where it occurs |
| Strings.RemoveFirst | paper-summarizer/server/src/routes/papers.js:95 | `replace` with a string pattern leaves the text unchanged when the pattern is absent; otherwise it cuts out exactly the first occurrence, keeping what precedes and follows it, so the text is shorter by the length of the pattern |
| Strings.Trim | paper-summarizer/server/src/services/sectionParser.js:39 | `trim` gives an infix of the input with no white space at either end; it is empty exactly when the input is all white space |
| Strings.TrimCutsBlanks | paper-summarizer/server/src/services/sectionParser.js:39 | the trimmed text is the infix at some position k, and everything before k and after it is white space |
| Strings.TrimIdempotent | paper-summarizer/server/src/services/sectionParser.js:46 | trimming twice is trimming once |
| Strings.Prefix | paper-summarizer/server/src/services/scaledown.js:103 | `substring(0, n)` is the first `min(n, length)` characters |
| Strings.PrefixNotBlank | paper-summarizer/server/src/services/summarizer.js:22 | the prefix of a text that starts with a non-blank character is not blank |
| Strings.Join | paper-summarizer/server/src/services/scaledown.js:100 | `join` has the length of the parts plus one separator between each two parts |
| Strings.JoinContains | paper-summarizer/server/src/services/summarizer.js:147-149 | every part occurs in the joined text |
| Strings.Split | paper-summarizer/server/src/services/sectionParser.js:33 | `split` on a character gives at least one piece, and no piece holds the separator |
| Strings.SplitJoin | paper-summarizer/server/src/services/sectionParser.js:33 | joining the pieces of `split` by the separator gives back the text |
| Strings.Words | paper-summarizer/server/src/services/rouge.js:13 | `split(/\s+/).filter(Boolean)` gives non-empty pieces without white space |
| Strings.WordsOfJoin | paper-summarizer/server/src/services/rouge.js:13 | splitting the space-join of non-empty words without blanks gives back the words |
| Strings.CollapseSpaces | paper-summarizer/server/src/services/arxiv.js:73 | `replace(/\s+/g, ' ')` leaves only single spaces as white space, never two blanks side by side, is never longer than its input, is empty exactly when the input is, and starts with a space exactly when the input starts blank (else with the same character) |
| Strings.CollapseKeepsWords | paper-summarizer/server/src/services/arxiv.js:73 | collapsing white space keeps the words, in order |
| Strings.CollapseKeepsEnd | paper-summarizer/server/src/services/arxiv.js:73 | the collapsed text ends blank exactly when the input does |
| Strings.WordsAfterSpaces | paper-summarizer/server/src/services/arxiv.js:73 | dropping leading white space keeps the words |
| Strings.CollapseIdempotent | paper-summarizer/server/src/services/arxiv.js:73-75 | a text already collapsed is left as it is |
| Strings.CollapseTwice | paper-summarizer/server/src/services/arxiv.js:73-75 | collapsing twice is collapsing once |
| Rouge.KeepWordAndSpace | paper-summarizer/server/src/services/rouge.js:13 | `replace(/[^\w\s]/g, '')` keeps only word characters and white space, each taken from the input |
| Rouge.KeepAll | paper-summarizer/server/src/services/rouge.js:13 | a text of word characters and white space only is kept whole |
| Rouge.Tokenize | paper-summarizer/server/src/services/rouge.js:12-14 | every token is non-empty, lower case and made of word characters only |
| Rouge.TokenizeJoin | paper-summarizer/server/src/services/rouge.js:12-14 | tokenizing the space-joined tokens gives the same tokens |
| Rouge.TokenizeOfJoin | paper-summarizer/server/src/services/rouge.js:12-14 | tokens joined by single spaces tokenize back to the same tokens |
| Rouge.GetNgrams | paper-summarizer/server/src/services/rouge.js:19-25 | there are `max(0, |tokens| - n + 1)` n-grams, and n-gram i is `tokens[i..i+n]` joined by single spaces |
| Rouge.CountNgrams | paper-summarizer/server/src/services/rouge.js:42-46 | the count dictionary has exactly the n-grams as keys, each with its number of occurrences |
| Rouge.Overlap | paper-summarizer/server/src/services/rouge.js:48-53 | the clipped overlap is at most the number of n-grams on either side |
| Rouge.ClippedOverlap | paper-summarizer/server/src/services/rouge.js:48-53 | the loop's sum of `min(hypCount, refCount)` over the distinct hypothesis n-grams is the size of the multiset intersection |
| Rouge.F1 | paper-summarizer/server/src/services/rouge.js:57 | F1 is 0 when `p + r` is 0, and otherwise lies between `min(p, r)` and `max(p, r)` |
| Rouge.HarmonicBetween | paper-summarizer/server/src/services/rouge.js:57 | `2pr/(p+r)` lies between `min(p, r)` and `max(p, r)` |
| Rouge.F1Symmetric | paper-summarizer/server/src/services/rouge.js:57 | F1 does not depend on the order of precision and recall |
| Rouge.F1InUnit | paper-summarizer/server/src/services/rouge.js:57 | F1 of values in [0, 1] is in [0, 1], and is 1 when both are 1 |
| Rouge.Fraction | paper-summarizer/server/src/services/rouge.js:55-56 | a count divided by a total it does not exceed is in [0, 1], gives back the count when multiplied by the total, and is 1 when the two are equal |
| Rouge.Ratios | paper-summarizer/server/src/services/rouge.js:55-57 | precision, recall and F1 are in [0, 1]; precision times the hypothesis length and recall times the reference length are the common count; a full match scores (1, 1, 1) |
| Rouge.NgramScore | paper-summarizer/server/src/services/rouge.js:30-64 | all three scores are in [0, 1], and all are zero when either side has fewer than n tokens |
| Rouge.ComputeNgramScore | paper-summarizer/server/src/services/rouge.js:30-64 | the method's result is `NgramScore` |
| Rouge.NgramScoreOfSelf | paper-summarizer/server/src/services/rouge.js:30-64 | a text with at least n tokens scores (1, 1, 1) against itself |
| Rouge.NgramScoreSwap | paper-summarizer/server/src/services/rouge.js:30-64 | with dictionary counts, swapping reference and hypothesis swaps precision and recall and keeps F1 (the code as written is not symmetric: `RougeObjects.AsWrittenNotSymmetric`) |
| Rouge.Lcs | paper-summarizer/server/src/services/rouge.js:69-88 | the LCS recurrence is bounded by both lengths |
| Rouge.LcsWitness | paper-summarizer/server/src/services/rouge.js:69-88 | there is a common subsequence whose length is `Lcs` |
| Rouge.LcsUpperBound | paper-summarizer/server/src/services/rouge.js:69-88 | no common subsequence is longer than `Lcs` |
| Rouge.LcsIsLongest | paper-summarizer/server/src/services/rouge.js:69-88 | `Lcs` is the length of a longest common subsequence |
| Rouge.LcsOfSelf | paper-summarizer/server/src/services/rouge.js:69-88 | the LCS of a sequence with itself is its length |
| Rouge.LcsSymmetric | paper-summarizer/server/src/services/rouge.js:69-88 | the LCS length does not depend on the order of its arguments |
| Rouge.LcsStep | paper-summarizer/server/src/services/rouge.js:78-82 | the cell update of the table: one more than the diagonal on equal tokens, else the larger of the upper and left cells |
| Rouge.LcsPrefixMonotone | paper-summarizer/server/src/services/rouge.js:87 | a prefix of the second sequence never has a longer LCS |
| Rouge.LastRowBounded | paper-summarizer/server/src/services/rouge.js:87 | every cell of the last row is at most its last cell, so the row's maximum is the LCS |
| Rouge.FillRow | paper-summarizer/server/src/services/rouge.js:77-83 | filling row i from row i-1 leaves the LCS of the first i tokens with each prefix of the second sequence in each cell |
| Rouge.RowMax | paper-summarizer/server/src/services/rouge.js:87 | the reduce gives a value no cell exceeds, and one that some cell holds (or 0) |
| Rouge.LcsLength | paper-summarizer/server/src/services/rouge.js:69-88 | the two-row programme returns `Lcs`: the length of a common subsequence that no common subsequence exceeds |
| Rouge.RougeLScore | paper-summarizer/server/src/services/rouge.js:93-111 | all three scores are in [0, 1], and all are zero when either token list is empty |
| Rouge.ComputeRougeL | paper-summarizer/server/src/services/rouge.js:93-111 | the method's result is `RougeLScore` |
| Rouge.RougeLOfSelf | paper-summarizer/server/src/services/rouge.js:93-111 | a text with a token scores (1, 1, 1) against itself |
| Rouge.RougeLSwap | paper-summarizer/server/src/services/rouge.js:93-111 | swapping reference and hypothesis swaps precision and recall and keeps F1 |
| Rouge.ComputeRougeScores | paper-summarizer/server/src/services/rouge.js:116-122 | the result is the triple of the unigram score, the bigram score and the LCS score of the same pair, each in [0, 1] |
| RougeObjects.Get | paper-summarizer/server/src/services/rouge.js:43 | a property read gives the own value, else an inherited value exactly for the names `Object.prototype` provides, else `undefined` |
| RougeObjects.Bump | paper-summarizer/server/src/services/rouge.js:43 | `(v \|\| 0) + 1` is 1 on `undefined`, one more on a number, and a string on an inherited function |
| RougeObjects.Put | paper-summarizer/server/src/services/rouge.js:43 | an assignment stores the value, except under `__proto__`, whose setter ignores a primitive |
| RougeObjects.CountIntoCounts | paper-summarizer/server/src/services/rouge.js:42-46 | without inherited names, the count object holds exactly the n-grams, each with its number of occurrences |
| RougeObjects.OwnKeysDistinct | paper-summarizer/server/src/services/rouge.js:49 | without `__proto__`, `Object.keys` lists exactly the distinct n-grams, each once |
| RougeObjects.OverlapOverSum | paper-summarizer/server/src/services/rouge.js:48-53 | over distinct hypothesis keys, the loop adds up the clipped counts, the size of the multiset intersection |
| RougeObjects.ScoreAsWrittenAgrees | paper-summarizer/server/src/services/rouge.js:37-57 | when no n-gram is an inherited name, the object-based score equals the dictionary score `Rouge.Ratios` of the same lists |
| RougeObjects.NgramScoreAsWrittenAgrees | paper-summarizer/server/src/services/rouge.js:30-57 | under the same condition, `computeNgramScore` as written equals `Rouge.NgramScore` |
| RougeObjects.LongNgramsNotInherited | paper-summarizer/server/src/services/rouge.js:19-25 | bigrams and longer hold a space, so no inherited name occurs among them: only ROUGE-1 is affected |
| RougeObjects.ConstructorScoresNaN | paper-summarizer/server/src/services/rouge.js:42-57 | reference `a constructor` against hypothesis `constructor` gives NaN precision and recall and F1 0 as written; the dictionary score is (1, 1/2, 2/3) |
| RougeObjects.ProtoNeverCounted | paper-summarizer/server/src/services/rouge.js:42-57 | `__proto__` against itself scores (0, 0, 0) as written, where a text scores (1, 1, 1) against itself with dictionary counts |
| RougeObjects.AsWrittenNotSymmetric | paper-summarizer/server/src/services/rouge.js:42-57 | as written, `a` against `constructor` gives (NaN, NaN, 0) but `constructor` against `a` gives (0, 0, 0) |
| Sections.LeadingDigits | paper-summarizer/server/src/services/sectionParser.js:8-15 | the `\d+` of a numbered heading is the longest leading run of digits |
| Sections.WholeLine | paper-summarizer/server/src/services/sectionParser.js:43 | on a text without line terminators, a multiline `^…$` pattern matches exactly when the whole text fits the pattern |
| Sections.Rank | paper-summarizer/server/src/services/sectionParser.js:7-16 | every heading has one position in the pattern list |
| Sections.RankAt | paper-summarizer/server/src/services/sectionParser.js:7-16 | the heading at position j has rank j |
| Sections.FirstMatch | paper-summarizer/server/src/services/sectionParser.js:42-55 | the found pattern matches and none before it does; nothing is found exactly when no pattern matches |
| Sections.FirstMatchIs | paper-summarizer/server/src/services/sectionParser.js:42-55 | the first matching pattern is the one found |
| Sections.FirstInOrder | paper-summarizer/server/src/services/sectionParser.js:42-55 | the search in list order finds the matching heading of least rank, and finds none exactly when no heading matches |
| Sections.HeadingKey | paper-summarizer/server/src/services/sectionParser.js:42-55 | a trimmed line is a heading exactly when some pattern matches it, and its key is that of the first such pattern |
| Sections.FindFirst | paper-summarizer/server/src/services/sectionParser.js:42-55 | the loop with `break` returns `FirstMatch` |
| Sections.EmptyBlockText | paper-summarizer/server/src/services/sectionParser.js:45-47 | an empty buffer has empty text, so a flush of it stores nothing |
| Sections.SaveSection | paper-summarizer/server/src/services/sectionParser.js:45-50 | a flush stores the buffer joined by newlines and trimmed under the open key, when that text is not empty |
| Sections.Segment | paper-summarizer/server/src/services/sectionParser.js:35-61 | there is at least one block, and the first is `preamble` |
| Sections.SegmentKeepsLines | paper-summarizer/server/src/services/sectionParser.js:38-61 | the blocks hold exactly the lines that are not headings, in order |
| Sections.SegmentKeys | paper-summarizer/server/src/services/sectionParser.js:51-52 | every heading line opens one block, keyed by its heading, in order |
| Sections.CollectSections | paper-summarizer/server/src/services/sectionParser.js:33-69 | the loop and the last flush store exactly the flushes of the blocks, in order |
| Sections.StoredValues | paper-summarizer/server/src/services/sectionParser.js:45-69 | every stored value is non-empty and trimmed |
| Sections.LastStoring | paper-summarizer/server/src/services/sectionParser.js:48 | the index found is a block with the key and non-blank text, or -1 |
| Sections.LastStoringIsLast | paper-summarizer/server/src/services/sectionParser.js:48 | no later block with the key has non-blank text |
| Sections.StoreAllLastWins | paper-summarizer/server/src/services/sectionParser.js:48 | a key is stored exactly when one of its blocks has non-blank text, and it holds the text of the last such block |
| Sections.FinishRenames | paper-summarizer/server/src/services/sectionParser.js:72-78 | a lone `preamble` becomes `full`; otherwise all keys are kept but `references` |
| Sections.SectionsOf | paper-summarizer/server/src/services/sectionParser.js:28-81 | an empty text gives exactly `{ full: '' }`; no result has `references`; every other value is non-empty and trimmed |
| Sections.ParseSections | paper-summarizer/server/src/services/sectionParser.js:28-81 | the method returns `SectionsOf` |
| Sections.UnderscoresToSpaces | paper-summarizer/server/src/services/sectionParser.js:98 | every underscore becomes a space and the rest is kept |
| Sections.SectionLabel | paper-summarizer/server/src/services/sectionParser.js:86-99 | a known key gets its fixed label; any other key keeps its length, gets its first character upper-cased and underscores after it turned into spaces |
| Extractive.BodyRun | paper-summarizer/server/src/services/scaledown.js:41 | `[^.!?\n]+` is greedy: the run stops at the end or at a terminator |
| Extractive.EndRun | paper-summarizer/server/src/services/scaledown.js:41 | `[.!?\n]+` is greedy: the run stops at the end or at a non-terminator |
| Extractive.MatchEnd | paper-summarizer/server/src/services/scaledown.js:41 | a match ends after the body run and its terminators, and is not empty |
| Extractive.ChunksAreMatches | paper-summarizer/server/src/services/scaledown.js:41 | every match is a run without terminators followed by a run of terminators |
| Extractive.LeftoverHasNoEnd | paper-summarizer/server/src/services/scaledown.js:41 | the text that no match takes holds no terminator |
| Extractive.ChunksCover | paper-summarizer/server/src/services/scaledown.js:41 | the matches and the unterminated tail, in order, give back the text after its leading terminators |
| Extractive.Sentences | paper-summarizer/server/src/services/summarizer.js:118 | `match(…) \|\| [text]`: the whole text when nothing matches, else the matches |
| Extractive.Texts | paper-summarizer/server/src/services/scaledown.js:100 | `map(s => s.text)` keeps length and order |
| Extractive.SortByScore | paper-summarizer/server/src/services/scaledown.js:86 | the sort is a permutation, so the total text length is kept |
| Extractive.SortByScoreRanked | paper-summarizer/server/src/services/scaledown.js:86 | sentences listed in document order come out best score first, ties in document order, as a stable sort gives them |
| Extractive.SortByIndex | paper-summarizer/server/src/services/scaledown.js:99 | the re-sort is a permutation into index order |
| Extractive.GreedyWithin | paper-summarizer/server/src/services/scaledown.js:91-96 | the picked texts, each followed by a space, fit the budget |
| Extractive.GreedyPicks | paper-summarizer/server/src/services/scaledown.js:91-96 | only candidates are picked, and with skipping on every pick has a positive score |
| Extractive.GreedyFrom | paper-summarizer/server/src/services/scaledown.js:91-96 | one step of the walk: skip a non-positive score, stop at the first text that does not fit, else take it |
| Extractive.SelectWithin | paper-summarizer/server/src/services/scaledown.js:88-96 | the loop with `continue` and `break` picks exactly the greedy walk |
| Extractive.JoinedWithin | paper-summarizer/server/src/services/scaledown.js:100 | the picks, in any order, joined by spaces, fit the budget |
| Extractive.StitchedWithin | paper-summarizer/server/src/services/scaledown.js:98-100 | the re-ordered picks, joined and trimmed, fit the budget |
| Extractive.KeptFromRanked | paper-summarizer/server/src/services/scaledown.js:98-100 | the kept sentences are in document order, all were candidates, and with skipping all had positive scores |
| Compressor.EstimateTokens | paper-summarizer/server/src/services/scaledown.js:13-16 | `ceil(length / 4)`, which is 0 exactly for the empty text |
| Compressor.LongWords | paper-summarizer/server/src/services/scaledown.js:44 | the keywords are words of the prompt longer than three characters, and every such word is among them |
| Compressor.LongWordsCount | paper-summarizer/server/src/services/scaledown.js:44 | `filter(w => w.length > 3)` keeps each long word exactly as often as it occurs, and no short word |
| Compressor.LongWordsOfConcat | paper-summarizer/server/src/services/scaledown.js:44 | the filter of two lists one after the other is the two filters one after the other, so order is kept |
| Compressor.Matches | paper-summarizer/server/src/services/scaledown.js:70-77 | at most all the terms are found |
| Compressor.AddMatches | paper-summarizer/server/src/services/scaledown.js:70-77 | the loop adds the bonus once for each term the sentence contains |
| Compressor.SentenceScore | paper-summarizer/server/src/services/scaledown.js:47-83 | a trimmed sentence under 10 characters scores 0; otherwise its score in half-points is the position, length, term and keyword bonuses less the short-sentence penalty |
| Compressor.ScoreSentence | paper-summarizer/server/src/services/scaledown.js:47-83 | the scoring with its `+=` steps returns `SentenceScore` |
| Compressor.ScoredSentences | paper-summarizer/server/src/services/scaledown.js:47-83 | one score per sentence, at its own index, in document order |
| Compressor.ScoreAll | paper-summarizer/server/src/services/scaledown.js:47-83 | the scoring loop returns `ScoredSentences` |
| Compressor.ScoredMember | paper-summarizer/server/src/services/scaledown.js:47-83 | every scored entry is the score of the sentence at its index |
| Compressor.KeptAreScoredSentences | paper-summarizer/server/src/services/scaledown.js:49-96 | every kept sentence had a positive score, is a trimmed sentence of the context, and has at least 10 characters |
| Compressor.CompressedWithinBudget | paper-summarizer/server/src/services/scaledown.js:103 | the long-path content, extracted or truncated, has at most `4 * maxTokens` characters |
| Compressor.RoundHundredthsClose | paper-summarizer/server/src/services/scaledown.js:110 | rounding to two decimals moves a value by at most half a hundredth |
| Compressor.CompressionRatio | paper-summarizer/server/src/services/scaledown.js:110 | the ratio is 1 without compressed tokens, and otherwise within half a hundredth of the exact token ratio |
| Compressor.Compressed | paper-summarizer/server/src/services/scaledown.js:27-112 | a context with fewer than 100 non-blank characters comes back unchanged with ratio 1; a longer one fits `4 * maxTokens` characters and `maxTokens` tokens; the token counts estimate the context and the content |
| Compressor.CompressText | paper-summarizer/server/src/services/scaledown.js:27-112 | the method returns `Compressed`: short path as is, long path with the extracted or truncated content, its token counts and its ratio |
| Summarizer.LengthScore | paper-summarizer/server/src/services/summarizer.js:121-125 | the score is the trimmed length times 2 among the first three, times 1.5 among the last two, times 1 elsewhere (in half-points) |
| Summarizer.LengthScores | paper-summarizer/server/src/services/summarizer.js:121-125 | one score per sentence, at its own index, in document order |
| Summarizer.ScoreByLength | paper-summarizer/server/src/services/summarizer.js:121-125 | the method returns `LengthScores` |
| Summarizer.FallbackSummary | paper-summarizer/server/src/services/summarizer.js:113-141 | the extractive fallback; its behaviour is stated by `Summarizer.FallbackWithin` and `Summarizer.FallbackSummarize` |
| Summarizer.FallbackWithin | paper-summarizer/server/src/services/summarizer.js:113-141 | a blank text gets the no-text message, and any other summary has at most `maxLength` characters |
| Summarizer.FallbackSummarize | paper-summarizer/server/src/services/summarizer.js:113-141 | the method returns the fallback summary: the picks in document order, joined and trimmed, or the trimmed prefix when none fits |
| Summarizer.GenerateSummary | paper-summarizer/server/src/services/summarizer.js:16-60 | a text under 50 non-blank characters is echoed, or answered with the insufficient-text message when blank; a usable reply is returned; otherwise the first 4000 characters are summarized by the fallback |
| Summarizer.GenerateSummaryWithin | paper-summarizer/server/src/services/summarizer.js:22-58 | without a usable reply, a long text whose first 4000 characters are not blank gets a summary within `maxLength` |
| Summarizer.BlankHeadGetsNoTextMessage | paper-summarizer/server/src/services/summarizer.js:16-60 | a long text whose first 4000 characters are blank passes the guard and then gets the fallback's no-text message |
| Summarizer.LevelName | paper-summarizer/server/src/services/summarizer.js:87-106 | every level is named `eli5`, `technical` or `expert` |
| Summarizer.MultiLevelSummaries | paper-summarizer/server/src/services/summarizer.js:70-107 | each level carries its name and the section name, and its content is the summary of its own request: `Explain simply: ` with 150, the text with 300, the text with 500 |
| Summarizer.EmptyTextLevels | paper-summarizer/server/src/services/summarizer.js:73-83 | for an empty text the ELI5 request is echoed back and the other two levels report insufficient text |
| Summarizer.PaperBlocks | paper-summarizer/server/src/services/summarizer.js:147-149 | one `Title: …\nAbstract: …\n` block per paper, in order |
| Summarizer.ReviewInput | paper-summarizer/server/src/services/summarizer.js:147-152 | the request starts with the fixed header, and is the header alone without papers |
| Summarizer.ReviewMentionsEveryPaper | paper-summarizer/server/src/services/summarizer.js:147-152 | every paper's block occurs in the request |
| Summarizer.ReviewInputLong | paper-summarizer/server/src/services/summarizer.js:151-153 | the request always passes the 50-character guard |
| Summarizer.GenerateLitReview | paper-summarizer/server/src/services/summarizer.js:146-157 | a usable reply is the review; otherwise the review is the fallback summary of the request's first 4000 characters, with at most 500 characters |
| Arxiv.DigitDotRun | paper-summarizer/server/src/services/arxiv.js:11 | `[\d.]+` is greedy: it stops at the end or at a character that is neither digit nor dot |
| Arxiv.DigitRun | paper-summarizer/server/src/services/arxiv.js:11 | `\d+` is greedy and covers digits only |
| Arxiv.VersionLen | paper-summarizer/server/src/services/arxiv.js:11 | the optional version, when present, starts with `v` and has at least two characters |
| Arxiv.TrailingDots | paper-summarizer/server/src/services/arxiv.js:11 | the count of trailing characters stops at the end of the text or just after a character that is not a dot |
| Arxiv.CaptureBody | paper-summarizer/server/src/services/arxiv.js:11 | the captured group is a prefix of what follows the path |
| Arxiv.CaptureAt | paper-summarizer/server/src/services/arxiv.js:11-13 | a match starts with a path and captures a non-empty group |
| Arxiv.TrailingDigits | paper-summarizer/server/src/services/arxiv.js:16 | the longest run of digits at the end |
| Arxiv.StripVersion | paper-summarizer/server/src/services/arxiv.js:16 | `replace(/v\d+$/, '')` gives a prefix of the input; when it changes the input, what it removes is a `v` followed by at least one digit up to the end; and whenever the input ends with such a `v` and digits, it removes exactly them |
| Arxiv.StripVersionOf | paper-summarizer/server/src/services/arxiv.js:16 | a new-style identifier with a version loses exactly the version |
| Arxiv.Resolve | paper-summarizer/server/src/services/arxiv.js:10-22 | the cleaned identifier is accepted exactly when it has the new or the old form; otherwise the result is the format error naming it |
| Arxiv.ResolveId | paper-summarizer/server/src/services/arxiv.js:10-22 | the same with the capture as written |
| Arxiv.ResolveIdCorrected | paper-summarizer/server/src/services/arxiv.js:10-22 | the same with the corrected capture |
| Arxiv.BareIdResolves | paper-summarizer/server/src/services/arxiv.js:10-22 | a bare new-style identifier, with or without a version, resolves to itself without the version |
| Arxiv.ExtractId | paper-summarizer/server/src/services/arxiv.js:10-14 | the trimmed input or its first URL capture; its behaviour is stated by `Arxiv.ExtractFromUrl`, `Arxiv.BareIdResolves` and `Arxiv.CaptureBodyOfPdf` |
| Arxiv.ExtractFromUrl | paper-summarizer/server/src/services/arxiv.js:10-14 | in a URL with an arXiv path, the identifier is the group captured after the path |
| Arxiv.AbsUrlResolves | paper-summarizer/server/src/services/arxiv.js:10-22 | `https://arxiv.org/abs/<id>`, with or without a version, resolves to the identifier |
| Arxiv.CaptureBodyOfPdf | paper-summarizer/server/src/services/arxiv.js:11 | after an identifier followed by `.pdf`, the capture as written ends with the dot, and the corrected one is the identifier |
| Arxiv.PdfSuffixRejected | paper-summarizer/server/src/services/arxiv.js:11-22 | `https://arxiv.org/pdf/<id>.pdf` is rejected as written, with the format error naming `<id>.` |
| Arxiv.PdfSuffixResolvesCorrected | paper-summarizer/server/src/services/arxiv.js:11-22 | with the corrected capture the same link resolves to `<id>` |
| Arxiv.Items | paper-summarizer/server/src/services/arxiv.js:60 | `Array.isArray(x) ? x : [x]`: a list is kept and a single element becomes a one-element list |
| Arxiv.AuthorValueOf | paper-summarizer/server/src/services/arxiv.js:61 | `a.name \|\| a`: the name when it is non-empty, else the element itself |
| Arxiv.Authors | paper-summarizer/server/src/services/arxiv.js:58-62 | no authors when the field is missing or is a lone empty element, which is falsy; otherwise one author value per element, in order |
| Arxiv.FindPdfLink | paper-summarizer/server/src/services/arxiv.js:68 | the position found is the first link titled `pdf`; nothing is found exactly when no link is titled `pdf` |
| Arxiv.PdfUrl | paper-summarizer/server/src/services/arxiv.js:64-70 | the paper's PDF address; its behaviour is stated by `Arxiv.PdfUrlChoice` |
| Arxiv.PdfUrlChoice | paper-summarizer/server/src/services/arxiv.js:64-70 | the address is empty without a link field or with a lone empty link, the first `pdf` link's address when there is one, and the built address otherwise |
| Arxiv.DefaultPdfUrlRoundTrip | paper-summarizer/server/src/services/arxiv.js:69 | the address the service builds itself is rejected by the capture as written and resolves to the identifier with the corrected one |
| Arxiv.OrEmpty | paper-summarizer/server/src/services/arxiv.js:42-43 | `x \|\| ''`: the field, or empty when missing |
| Arxiv.FetchArxivPaper | paper-summarizer/server/src/services/arxiv.js:8-82 | an invalid cleaned identifier gives the format error naming it; a failed connection gives the connection error; a feed without an entry gives the not-found error; success comes exactly when the identifier is valid, an entry arrives and none of the not-found markers (title `error`, the invalid-identifier note, the `not found` comment, a title under 3 characters) holds; every error is one of those three; success carries the valid cleaned identifier as `sourceId`, source `arxiv`, the entry's title and summary trimmed and collapsed, its authors, its PDF address, and its publication date and primary category |
| PapersRoute.LooksLikeArxivUrl | paper-summarizer/server/src/routes/papers.js:128 | the unanchored, case-folded URL shape check; its behaviour is stated by `PapersRoute.UrlMatchFound`, `PapersRoute.UrlMatchFromSome` and `PapersRoute.UrlAccepted` |
| PapersRoute.UrlMatchFound | paper-summarizer/server/src/routes/papers.js:128 | the unanchored search finds a match at any later position |
| PapersRoute.UrlMatchFromSome | paper-summarizer/server/src/routes/papers.js:128 | the search succeeds only where there is a match |
| PapersRoute.LooksLikeArxivId | paper-summarizer/server/src/routes/papers.js:127 | the bare-identifier shape check; its behaviour is stated by `PapersRoute.ArxivIdShape` and `PapersRoute.ArxivIdAccepted` |
| PapersRoute.ArxivIdShape | paper-summarizer/server/src/routes/papers.js:127 | an accepted bare identifier is a new-style identifier followed by an optional version |
| PapersRoute.ArxivIdAccepted | paper-summarizer/server/src/routes/papers.js:127 | every new-style identifier with an optional version is accepted |
| PapersRoute.AcceptedIdResolves | paper-summarizer/server/src/routes/papers.js:127-146 | every accepted bare identifier resolves in `fetchArxivPaper` to itself without the version |
| PapersRoute.UrlAccepted | paper-summarizer/server/src/routes/papers.js:128 | `https://arxiv.org/abs/` or `/pdf/` with a new-style identifier is accepted, whatever follows it without a line break or an ASCII capital |
| PapersRoute.LastPathEnd | paper-summarizer/server/src/routes/papers.js:139 | the end found is that of an `arxiv.org/(abs\|pdf)/` with none ending later; nothing is found exactly when there is none |
| PapersRoute.LineLen | paper-summarizer/server/src/routes/papers.js:139 | `.` stops at the first line terminator |
| PapersRoute.StripThroughPath | paper-summarizer/server/src/routes/papers.js:139 | the replacement never lengthens the text |
| PapersRoute.LineLenOfOneLine | paper-summarizer/server/src/routes/papers.js:139 | a text without line terminators is one line, which `.` can cross whole |
| PapersRoute.StripNoPath | paper-summarizer/server/src/routes/papers.js:139 | on any single line holding no `arxiv.org/(abs|pdf)/`, the text is left unchanged |
| PapersRoute.StripLastPath | paper-summarizer/server/src/routes/papers.js:139 | on any single line, everything through the end of the last `arxiv.org/(abs|pdf)/` is removed |
| PapersRoute.StripNothing | paper-summarizer/server/src/routes/papers.js:139 | a single line without the letter `a`, and so without a path, is left unchanged; derived from `StripNoPath` |
| PapersRoute.StripThroughUrl | paper-summarizer/server/src/routes/papers.js:139 | for `https://` plus a path plus a one-line body without the letter `a`, only the body is left; derived from `StripLastPath` |
| PapersRoute.DedupKey | paper-summarizer/server/src/routes/papers.js:139 | the duplicate key as written; its behaviour is stated by `PapersRoute.DedupKeyOfId`, `PapersRoute.DedupKeyOfUrl`, `PapersRoute.KeyMismatchDuplicates` and `PapersRoute.SlashUrlFacts` |
| PapersRoute.DedupKeyOfId | paper-summarizer/server/src/routes/papers.js:139 | the key of a bare identifier is the identifier without its version |
| PapersRoute.DedupKeyOfUrl | paper-summarizer/server/src/routes/papers.js:139 | the key of an `abs` or `pdf` URL of a new-style identifier is the identifier without its version |
| PapersRoute.DedupKeyIsSourceId | paper-summarizer/server/src/routes/papers.js:139-146 | for bare identifiers and abstract-page URLs the key looked up is the identifier the fetch resolves to |
| PapersRoute.LookupKey | paper-summarizer/server/src/routes/papers.js:139 | the corrected key: the identifier the fetch resolves to, or `DedupKey` when it resolves to none |
| PapersRoute.PdfLinkAcceptedThenRejected | paper-summarizer/server/src/routes/papers.js:128-146 | as written, a `pdf` link ending in `.pdf` passes the shape check and is then rejected as an invalid identifier |
| PapersRoute.PdfLinkAcceptedAndResolved | paper-summarizer/server/src/routes/papers.js:128-146 | with the corrected capture the same link passes the shape check and resolves to the identifier |
| PapersRoute.ErrorMessage | paper-summarizer/server/src/routes/papers.js:182 | an empty message is replaced by the default text, any other is kept |
| PapersRoute.ErrorStatus | paper-summarizer/server/src/routes/papers.js:183 | 404 exactly when the message mentions `not found` or `Invalid`, else 500 |
| PapersRoute.InvalidIdStatus | paper-summarizer/server/src/routes/papers.js:183 | the format error of `fetchArxivPaper` is a 404 |
| PapersRoute.NotFoundStatus | paper-summarizer/server/src/routes/papers.js:183 | the not-found error of `fetchArxivPaper` is a 404 |
| PapersRoute.ConnectionStatus | paper-summarizer/server/src/routes/papers.js:183 | the connection error of `fetchArxivPaper` is a 500 |
| PapersRoute.FetchErrorStatus | paper-summarizer/server/src/routes/papers.js:180-184 | every fetch failure is a 404 except a failed connection, which is a 500 |
| PapersRoute.SectionText | paper-summarizer/server/src/routes/papers.js:98 | `sections[key] \|\| ''` |
| PapersRoute.OrElse | paper-summarizer/server/src/routes/papers.js:171 | `a \|\| b` on strings |
| PapersRoute.Gather | paper-summarizer/server/src/routes/papers.js:149-163 | nothing without a PDF address; the text, parsed sections and page count of a downloaded PDF; only the abstract as a section when the download fails |
| PapersRoute.ArxivPaper | paper-summarizer/server/src/routes/papers.js:166-177 | the record takes title, `sourceId` and PDF address from the metadata; the abstract prefers the metadata's, then the parsed one; the sections are the gathered ones, else the abstract alone; tokens estimate the full text, else the abstract |
| PapersRoute.ArxivPaperSections | paper-summarizer/server/src/routes/papers.js:173 | a fetched paper always has a section, and keeps the abstract as its section when the download fails or finds none |
| PapersRoute.AddFetched | paper-summarizer/server/src/routes/papers.js:140-184 | a stored key is reported as existing; otherwise a fetched paper is created, or the fetch error is answered with its status and message |
| PapersRoute.AddAccepted | paper-summarizer/server/src/routes/papers.js:138-185 | the same on the accepted input, with the duplicate check looking up `LookupKey`; a rejection is a 404 or a 500 with a message |
| PapersRoute.AddAcceptedAsWritten | paper-summarizer/server/src/routes/papers.js:139-146 | the same with the duplicate check as written, looking up `DedupKey`; the fetch stays the corrected one, and for the trailing-slash URL both captures agree |
| PapersRoute.AddFromUrl | paper-summarizer/server/src/routes/papers.js:117-186 | a missing or blank input and an input of no accepted shape are 400s; an accepted input goes on to the lookup and the fetch; every rejection has a status and a message |
| PapersRoute.Adding | paper-summarizer/server/src/routes/papers.js:166 | the store after the paper is created holds its key and is otherwise unchanged |
| PapersRoute.ResubmitFindsPaper | paper-summarizer/server/src/routes/papers.js:139-166 | a paper created from an input is stored under the key the same input looks up next time, so a second request is answered "already exists" |
| PapersRoute.KeyMismatchDuplicates | paper-summarizer/server/src/routes/papers.js:139-166 | as written, when the key looked up differs from the identifier the input resolves to, storing the created paper does not stop the same input from creating it again |
| PapersRoute.SlashUrlFacts | paper-summarizer/server/src/routes/papers.js:124-146 | `https://arxiv.org/abs/<id>/` needs no trimming, passes the shape check and resolves to `<id>`; its key as written is `<id>/`, the corrected one `<id>` |
| PapersRoute.SlashUrlMismatch | paper-summarizer/server/src/routes/papers.js:139-146 | for that input the identifier resolved and the key as written differ |
| PapersRoute.SlashUrlStoredTwice | paper-summarizer/server/src/routes/papers.js:139-166 | as written, a paper created from that input is stored as `<id>` and the same input then creates it again |
| PapersRoute.UploadTitle | paper-summarizer/server/src/routes/papers.js:95 | the form title, else the file name with its first `.pdf` removed |
| PapersRoute.UploadTitleOfPdfName | paper-summarizer/server/src/routes/papers.js:95 | without a form title, `name.pdf` is titled `name` when the name holds no `.pdf` of its own |
| PapersRoute.UploadTitleMayBeEmpty | paper-summarizer/server/src/routes/papers.js:95 | a file named `.pdf` without a form title gets the empty title |
| PapersRoute.UploadPaper | paper-summarizer/server/src/routes/papers.js:78-109 | no file is a 400, a failed extraction a 500, a text under 50 non-blank characters a 400; otherwise the record holds the text, its parsed sections, its `abstract` section, the page count and the token estimate |
| PapersRoute.UploadedPaperFacts | paper-summarizer/server/src/routes/papers.js:86-102 | an uploaded paper has at least 13 estimated tokens and no `references` section |
| SummariesRoute.TargetSection | paper-summarizer/server/src/routes/summaries.js:38 | a missing section name means `full` |
| SummariesRoute.FullText | paper-summarizer/server/src/routes/summaries.js:40-51 | the text summarised for `full`; its behaviour is stated by `SummariesRoute.FullTextHasKeySections`, `SummariesRoute.FullTextOfAllKeySections`, `SummariesRoute.FullTextFallback` and `SummariesRoute.FullTextEmpty` |
| SummariesRoute.PartsOf | paper-summarizer/server/src/routes/summaries.js:45 | one part per key, the section or empty |
| SummariesRoute.NonEmpty | paper-summarizer/server/src/routes/summaries.js:46 | `filter(Boolean)` keeps exactly the non-empty parts |
| SummariesRoute.FullTextHasKeySections | paper-summarizer/server/src/routes/summaries.js:40-52 | every non-empty key section is part of the `full` text |
| SummariesRoute.FullTextOfAllKeySections | paper-summarizer/server/src/routes/summaries.js:40-52 | with all five key sections, the `full` text is them in order joined by blank lines |
| SummariesRoute.FullTextFallback | paper-summarizer/server/src/routes/summaries.js:49-52 | without key sections, the full text is used, then the abstract |
| SummariesRoute.FullTextEmpty | paper-summarizer/server/src/routes/summaries.js:40-52 | the `full` text is empty exactly when there is no key section, full text or abstract |
| SummariesRoute.SelectText | paper-summarizer/server/src/routes/summaries.js:37-61 | `full` selects the `full` text; a named section is selected exactly when it is present and non-empty, else the section-not-found error |
| SummariesRoute.DeleteFirst | paper-summarizer/server/src/routes/summaries.js:80 | `deleteOne` removes one record exactly when one has the key |
| SummariesRoute.OnlyDeleteFirst | paper-summarizer/server/src/routes/summaries.js:80 | `deleteOne` removes the first record of its key and keeps every other key's records in order |
| SummariesRoute.SummaryStore.constructor | paper-summarizer/server/src/routes/summaries.js:77-98 | the store starts with the given records |
| SummariesRoute.SummaryStore.DeleteOne | paper-summarizer/server/src/routes/summaries.js:80 | the store loses the first record of the key, if any |
| SummariesRoute.SummaryStore.Create | paper-summarizer/server/src/routes/summaries.js:87-96 | the store gains the record at the end |
| SummariesRoute.ReplacedIsDeletedThenAppended | paper-summarizer/server/src/routes/summaries.js:78-98 | replacing records with distinct keys leaves the old store less one record per key, followed by the new records in order |
| SummariesRoute.OnlyDeleted | paper-summarizer/server/src/routes/summaries.js:78-98 | the deletions take the first record of each new key and leave other keys alone |
| SummariesRoute.ReplacedPerKey | paper-summarizer/server/src/routes/summaries.js:78-98 | each new key loses at most one old record and ends with its new record; other keys are unchanged |
| SummariesRoute.ReplacedKeepsUniqueKeys | paper-summarizer/server/src/routes/summaries.js:78-98 | a store without duplicate keys has none after the replacement |
| SummariesRoute.LevelIndex | paper-summarizer/server/src/routes/summaries.js:78 | each level has a place among the three |
| SummariesRoute.LevelAt | paper-summarizer/server/src/routes/summaries.js:78 | the level at a place has that place |
| SummariesRoute.LevelAtIndex | paper-summarizer/server/src/routes/summaries.js:78 | every level is at its own place |
| SummariesRoute.StoredContentNotBlank | paper-summarizer/server/src/routes/summaries.js:83-85 | the generated content when it is not blank, else the level's placeholder; never blank |
| SummariesRoute.SavedPrefix | paper-summarizer/server/src/routes/summaries.js:78-98 | the first n saved records are those of the first n levels, in order |
| SummariesRoute.SavedRecords | paper-summarizer/server/src/routes/summaries.js:78-98 | three saved records, one per level, in order |
| SummariesRoute.SavedRecordsFacts | paper-summarizer/server/src/routes/summaries.js:78-98 | the saved records have distinct keys, the request's paper and section, non-blank content and the compression's token counts |
| SummariesRoute.SavedRecordKeys | paper-summarizer/server/src/routes/summaries.js:78-98 | the saved records' keys are one per level for the paper and section |
| SummariesRoute.Summarize | paper-summarizer/server/src/routes/summaries.js:67-111 | the success path always answers with summaries |
| SummariesRoute.GenerateResponse | paper-summarizer/server/src/routes/summaries.js:23-116 | no `paperId` is a 400, an unknown paper a 404; success needs a found paper and a selected text, and then is the summarization of that text |
| SummariesRoute.GenerateRefusals | paper-summarizer/server/src/routes/summaries.js:53-65 | for a found paper: a missing section is a 400, a text under 50 characters is a 400, and every other text is summarized |
| SummariesRoute.GeneratedRecords | paper-summarizer/server/src/routes/summaries.js:77-111 | a success answers three records, one per level in order, for the request's paper and section, none blank, with the compression's token counts |
| SummariesRoute.SavedTokens | paper-summarizer/server/src/routes/summaries.js:104-108 | `savedTokens` is the original less the compressed tokens: 0 for a short text and at least all but 1000 otherwise |
| SummariesRoute.StoredContentOfLevel | paper-summarizer/server/src/routes/summaries.js:83-85 | each stored content is the level's generated content, or its placeholder when that is blank |
| SummariesRoute.StoreSummaries | paper-summarizer/server/src/routes/summaries.js:77-98 | the loop saves the three records and leaves the store replaced by them |
| SummariesRoute.SummarizeAndStore | paper-summarizer/server/src/routes/summaries.js:67-98 | compressing, summarizing and storing answers `Summarize` and replaces its records in the store |
| SummariesRoute.Generate | paper-summarizer/server/src/routes/summaries.js:23-116 | the handler answers `GenerateResponse`, replaces the answered records in the store on success, and leaves the store alone on a refusal |
| SummariesRoute.ReplacedByLevels | paper-summarizer/server/src/routes/summaries.js:78-98 | for three records keyed by paper, level and section: each level's key ends with the new record after at most one removal; other keys and unique keys are kept |
| SummariesRoute.StoreEffect | paper-summarizer/server/src/routes/summaries.js:78-98 | the same for the saved records |
| SummariesRoute.GenerateStoreEffect | paper-summarizer/server/src/routes/summaries.js:78-98 | a generation replaces at most one old summary per level of the request's paper and section, and changes nothing else |
| SummariesRoute.Titles | paper-summarizer/server/src/routes/summaries.js:188 | `papers.map(p => p.title)` |
| SummariesRoute.DefaultReviewTitle | paper-summarizer/server/src/routes/summaries.js:188 | the default title starts with `Literature Review: ` and adds at most 100 characters |
| SummariesRoute.DefaultTitleNamesEveryPaper | paper-summarizer/server/src/routes/summaries.js:188 | when the joined titles fit in 100 characters, every title occurs in the default title |
| SummariesRoute.CreateLitReview | paper-summarizer/server/src/routes/summaries.js:171-199 | fewer than two ids, or fewer than two papers found, is a 400; otherwise the review keeps the ids, no themes, the number of papers, the given or default title, and the model's usable reply as content, or else the fallback summary of the first 4000 characters of the review input, with at most 500 characters |

## Left out

- The HuggingFace request, its timeout and the 20-second cold-start retry are not modelled. The model's final answer is a parameter (`Reply`). `minLength` is only passed to the model, so it is dropped too.
- Processing times (`Date.now`, `processingTimeMs`) and `Promise.all` are not modelled: they are timing and concurrency.
- The arXiv HTTP request and XML parsing are not modelled. The parsed response is a parameter.
- The PDF download and text extraction (pdfParser.js) are not part of this model. Their outcome is a parameter.
- MongoDB calls are not modelled. Paper lookups, the stored-paper check and the papers a review finds are parameters. The summary collection is the `SummaryStore` object.
- The catch-all 500 answers for database errors are not modelled. The upload route's 500 for a failed extraction is modelled.
- The GET and DELETE routes are not modelled: they are database queries without logic of their own.
- `GET /rouge/:paperId` is not modelled beyond the ROUGE scoring it calls.
- The multer file filter and size limit, and the `JSON.parse` of the authors field, are not modelled. A paper record carries no author list.
- The server wiring, the Mongoose schemas, the client and the Python compression bridge are not part of this model.
- Rouge.ComputeNgramScore: the rounding of precision, recall and F1 to four decimals is not modelled; the scores are exact ratios.
- Rouge.ComputeRougeL: the same four-decimal rounding is not modelled.
- Compressor.CompressText: the two in-place `sort` calls are modelled as pure stable insertion sorts on sequences (`Extractive.SortByScore`, `Extractive.SortByIndex`), not as updates of an array.
- Summarizer.FallbackSummarize: its two in-place `sort` calls are modelled the same way.
- Compressor.CompressionRatio: the ratio is rounded from the exact quotient, while the source rounds a double. For 201 original and 200 compressed tokens, `(201 / 200) * 100` is `100.49999999999999` in doubles, so the source gives 1 where the model gives 1.01. The model's bound `exact - 0.005 < r` does not hold for such values of the source. The same applies to the `ratio` of `Compressor.CompressText` and `Compressor.Compressed`.
- Sections.SectionLabel: `labels[key]` reads a plain object, so a key such as `constructor` or `toString` would give an inherited function where the model builds a label. The parser never produces such keys: the key of a section is one of its fixed heading keys, `preamble` or `full`. The label is also asked for a stored summary's `sectionName` (summaries.js:155). `POST /generate` stores a summary only for `full` or a section the paper holds, and an inherited name is refused there (see `SummariesRoute.SelectText` below).
- Strings.Lower: `toLowerCase` and `toUpperCase` map ASCII letters only; non-ASCII case mapping is not modelled.
- Arxiv.FetchArxivPaper: `categories` and `published` are copied from the entry as text; missing fields become empty.
- Arxiv.FetchArxivPaper: it uses the corrected identifier capture (see Findings), so a `.pdf` link resolves where the code as written rejects it. `Arxiv.ResolveId` keeps the code as written.
- PapersRoute.AddAccepted: it uses the corrected capture and the corrected duplicate key `LookupKey` (see Findings). A `.pdf` link therefore creates a paper where the code as written answers 404, and an input whose key as written differs from its identifier finds its stored paper. `PapersRoute.AddAcceptedAsWritten` keeps the key as written.
- PapersRoute.AddFromUrl: it goes on to `AddAccepted`, so it carries the same two corrections.
- Rouge.CountNgrams: it counts in a dictionary. The source counts in plain objects, whose reads fall back to `Object.prototype` (see Findings). `RougeObjects` models the objects as written and proves where the two agree (`RougeObjects.NgramScoreAsWrittenAgrees`) and where they differ.
- Rouge.Overlap: it uses the same dictionary counts.
- Rouge.ClippedOverlap: it uses the same dictionary counts.
- Rouge.NgramScore: it uses the same dictionary counts. It is the intended score, and it differs from the code as written only when a unigram is an inherited name such as `constructor`.
- Rouge.ComputeNgramScore: it uses the same dictionary counts.
- Rouge.NgramScoreOfSelf: it holds for dictionary counts. As written, `__proto__` scores 0 against itself (`RougeObjects.ProtoNeverCounted`).
- Rouge.NgramScoreSwap: it holds for dictionary counts. As written it fails (`RougeObjects.AsWrittenNotSymmetric`).
- Rouge.ComputeRougeScores: its ROUGE-1 part uses the dictionary counts. ROUGE-2 is unaffected (`RougeObjects.LongNgramsNotInherited`), and so is ROUGE-L, which compares tokens with `===`.
- RougeObjects.NgramScoreAsWritten: a NaN score is kept as NaN. Its serialisation as `null` in the JSON answer and the four-decimal rounding are not modelled.
- SummariesRoute.SelectText: a section name such as `constructor` or `__proto__` is treated as a missing section. In the source, `paper.sections[targetSection]` may then read an inherited value, which passes the truthiness test. Whether the read sees it depends on how Mongoose returns the Mixed `sections` field, which is not part of this model. If it does:
  - `constructor` reads a function. Its `length` is under 50, so the source answers "Not enough text to summarize" (summaries.js:53-64).
  - `__proto__` reads `Object.prototype`, whose `length` is `undefined`. `undefined < 50` is false, so the gate lets it through, `compressText` throws on it, and the route answers 500.
- PapersRoute.UploadTitle: a file named `.pdf` without a form title gets the empty title (`PapersRoute.UploadTitleMayBeEmpty`). The schema requires a title, so the source's `Paper.create` then fails with a database error. The schema is not part of this model.
- Lengths are counted in Unicode scalar values, while JavaScript counts UTF-16 code units. A character outside the Basic Multilingual Plane counts once here and twice in the source, and a lone surrogate cannot be represented. This affects every length gate and cut of the core:
  - the 50-character gates at summaries.js:63, summarizer.js:17 and papers.js:86;
  - the token estimate and the 100-character short path at scaledown.js:13-16 and 28-35;
  - the `substring` cuts at scaledown.js:103, summarizer.js:22 and summarizer.js:140. A cut in the source can split a surrogate pair, which the model cannot express.

## Findings

| source | as written | input that shows it | evidently intended | confidence | as-written member | corrected member |
|---|---|---|---|---|---|---|
| paper-summarizer/server/src/services/arxiv.js:11 | the capture `[\d.]+` also takes the dot that starts a `.pdf` ending. The identifier becomes `2301.13848.` and fails the format check with "Invalid arXiv ID format", although `POST /url` accepted the link (papers.js:128) | `https://arxiv.org/pdf/2301.13848.pdf` (also the address the service builds itself at arxiv.js:69) | the capture stops before a trailing dot, so the link resolves to `2301.13848` | not executed | Arxiv.PdfSuffixRejected | Arxiv.PdfSuffixResolvesCorrected |
| paper-summarizer/server/src/services/rouge.js:42-53 | the n-gram counts are kept in plain objects `{}`. A read of an n-gram that is not an own key falls back to `Object.prototype`, so `constructor` reads a function, and `(v \|\| 0) + 1` turns it into a string. An assignment to `__proto__` is ignored, so that n-gram is never counted | reference `a constructor`, hypothesis `constructor`, n = 1: precision and recall are NaN and F1 is 0. Also `__proto__` against itself: (0, 0, 0) | counts in a dictionary (`Object.create(null)` or a `Map`): (1, 1/2, 2/3) and (1, 1, 1) | not executed | RougeObjects.ConstructorScoresNaN | Rouge.NgramScoreOfSelf |
| paper-summarizer/server/src/routes/papers.js:139-140 | the duplicate key is the input with everything through `arxiv.org/abs/` or `/pdf/` and a final version removed. It is not the identifier `fetchArxivPaper` resolves to and stores as `sourceId`. Text after the identifier, such as a trailing `/` or `?context=cs`, keeps the two apart | `https://arxiv.org/abs/2301.13848/`: the key looked up is `2301.13848/`, the paper is stored as `2301.13848`, and every later request with the same input fetches and creates it again | look up the identifier the fetch resolves to | not executed | PapersRoute.SlashUrlStoredTwice | PapersRoute.ResubmitFindsPaper |
