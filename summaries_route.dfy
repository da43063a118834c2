/** The rules of the summaries routes: which text `POST /generate`
    summarizes, when it refuses, what it stores for each of the three
    levels, and the record `POST /lit-review` creates.  The paper lookup,
    the model's replies and the papers a review finds are inputs; the
    summary collection is a store whose records the handler replaces one
    level at a time. */
module SummariesRoute {
  import opened Strings
  import Compressor
  import opened Summarizer
  import PapersRoute

  type Paper = PapersRoute.Paper

  // ---------------------------------------------------------------------------
  // Text selection
  // ---------------------------------------------------------------------------

  /** `sectionName || 'full'` */
  function TargetSection(sectionName: string): (t: string)
    ensures t != []
    ensures sectionName != [] ==> t == sectionName
    ensures sectionName == [] ==> t == "full"
  {
    if sectionName == [] then "full" else sectionName
  }

  /** The sections a `full` summary is made from, in this order. */
  const KeyParts: seq<string> := ["abstract", "introduction", "methodology", "experiments", "conclusion"]

  /** `keys.map(k => sections[k] || '')` */
  function PartsOf(sections: map<string, string>, keys: seq<string>): (r: seq<string>)
    ensures |r| == |keys|
    ensures forall i :: 0 <= i < |keys| ==> r[i] == PapersRoute.SectionText(sections, keys[i])
  {
    seq(|keys|, i requires 0 <= i < |keys| => PapersRoute.SectionText(sections, keys[i]))
  }

  /** `.filter(Boolean)` on strings: the non-empty ones, in order. */
  function NonEmpty(parts: seq<string>): (r: seq<string>)
    ensures forall i :: 0 <= i < |r| ==> r[i] != [] && r[i] in parts
    ensures forall i :: 0 <= i < |parts| && parts[i] != [] ==> parts[i] in r
    ensures (forall i :: 0 <= i < |parts| ==> parts[i] != []) ==> r == parts
    ensures (forall i :: 0 <= i < |parts| ==> parts[i] == []) ==> r == []
  {
    if parts == [] then []
    else
      var rest := NonEmpty(parts[1..]);
      assert forall i :: 1 <= i < |parts| ==> parts[i] == parts[1..][i - 1];
      if parts[0] != [] then [parts[0]] + rest else rest
  }

  /** The text of a `full` summary: the non-empty key sections joined by a
      blank line, else the full text, else the abstract. */
  function FullText(paper: Paper): string {
    var joined := Join(NonEmpty(PartsOf(paper.sections, KeyParts)), "\n\n");
    if joined != [] then joined
    else PapersRoute.OrElse(paper.fullText, paper.abstractText)
  }

  /** A join of parts of which the first is non-empty is non-empty. */
  lemma JoinNotEmpty(parts: seq<string>, sep: string)
    requires parts != [] && parts[0] != []
    ensures Join(parts, sep) != []
  {
    assert SumLen(parts) >= |parts[0]|;
  }

  /** Every non-empty key section is part of the `full` text. */
  lemma FullTextHasKeySections(paper: Paper, i: nat)
    requires i < |KeyParts| && PapersRoute.SectionText(paper.sections, KeyParts[i]) != []
    ensures Contains(FullText(paper), PapersRoute.SectionText(paper.sections, KeyParts[i]))
  {
    var parts := PartsOf(paper.sections, KeyParts);
    var kept := NonEmpty(parts);
    assert parts[i] in kept;
    var j :| 0 <= j < |kept| && kept[j] == parts[i];
    JoinNotEmpty(kept, "\n\n");
    JoinContains(kept, "\n\n", j);
  }

  /** When all five key sections are present the `full` text is exactly
      them, in order, each followed by a blank line but the last. */
  lemma FullTextOfAllKeySections(paper: Paper)
    requires forall i :: 0 <= i < |KeyParts| ==> PapersRoute.SectionText(paper.sections, KeyParts[i]) != []
    ensures FullText(paper) == Join(PartsOf(paper.sections, KeyParts), "\n\n")
  {
    var parts := PartsOf(paper.sections, KeyParts);
    assert NonEmpty(parts) == parts;
    JoinNotEmpty(parts, "\n\n");
  }

  /** Without key sections the full text is used, and the abstract only
      when there is no full text either. */
  lemma FullTextFallback(paper: Paper)
    requires forall i :: 0 <= i < |KeyParts| ==> PapersRoute.SectionText(paper.sections, KeyParts[i]) == []
    ensures paper.fullText != [] ==> FullText(paper) == paper.fullText
    ensures paper.fullText == [] ==> FullText(paper) == paper.abstractText
  {
    assert NonEmpty(PartsOf(paper.sections, KeyParts)) == [];
  }

  /** The `full` text is empty exactly when the paper has no key section,
      no full text and no abstract. */
  lemma FullTextEmpty(paper: Paper)
    ensures FullText(paper) == [] <==>
              (forall i :: 0 <= i < |KeyParts| ==> PapersRoute.SectionText(paper.sections, KeyParts[i]) == [])
              && paper.fullText == [] && paper.abstractText == []
  {
    var parts := PartsOf(paper.sections, KeyParts);
    var kept := NonEmpty(parts);
    if kept != [] {
      JoinNotEmpty(kept, "\n\n");
      assert kept[0] in parts;
    } else {
      assert forall i :: 0 <= i < |KeyParts| ==> parts[i] == [];
    }
  }

  /** `Section "${targetSection}" not found in paper` */
  function SectionNotFound(target: string): string {
    "Section \"" + target + "\" not found in paper"
  }

  /** The text to summarize for `target`, or the error for a named section
      that is missing or empty. */
  function SelectText(paper: Paper, target: string): (r: Result<string>)
    ensures target == "full" ==> r == Ok(FullText(paper))
    ensures target != "full" ==> (r.Ok? <==> PapersRoute.SectionText(paper.sections, target) != [])
    ensures target != "full" && r.Ok? ==> r.value == paper.sections[target]
    ensures r.Err? ==> r.message == SectionNotFound(target)
  {
    if target == "full" then Ok(FullText(paper))
    else
      var text := PapersRoute.SectionText(paper.sections, target);
      if text != [] then Ok(text) else Err(SectionNotFound(target))
  }

  // ---------------------------------------------------------------------------
  // Stored summaries
  // ---------------------------------------------------------------------------

  /** One record of the summary collection (the processing time is not
      modelled). */
  datatype SummaryRecord = SummaryRecord(paperId: string, level: Level, sectionName: string, content: string,
                                         originalTokens: nat, compressedTokens: nat, compressionRatio: real)

  /** The filter `{ paperId, level, sectionName }` the handler replaces by. */
  datatype Key = Key(paperId: string, level: Level, sectionName: string)

  function KeyOf(r: SummaryRecord): Key {
    Key(r.paperId, r.level, r.sectionName)
  }

  function Keys(records: seq<SummaryRecord>): (ks: seq<Key>)
    ensures |ks| == |records|
    ensures forall i :: 0 <= i < |records| ==> ks[i] == KeyOf(records[i])
  {
    seq(|records|, i requires 0 <= i < |records| => KeyOf(records[i]))
  }

  /** The records with key `k`, in store order. */
  function Only(s: seq<SummaryRecord>, k: Key): (r: seq<SummaryRecord>)
    ensures forall i :: 0 <= i < |r| ==> KeyOf(r[i]) == k
    ensures |r| <= |s|
  {
    if s == [] then []
    else if KeyOf(s[0]) == k then [s[0]] + Only(s[1..], k)
    else Only(s[1..], k)
  }

  /** `Summary.deleteOne(filter)`: the first record with the key, if any, is
      removed. */
  function DeleteFirst(s: seq<SummaryRecord>, k: Key): (r: seq<SummaryRecord>)
    ensures |r| == (if Only(s, k) == [] then |s| else |s| - 1)
  {
    if s == [] then []
    else if KeyOf(s[0]) == k then s[1..]
    else [s[0]] + DeleteFirst(s[1..], k)
  }

  /** Every key occurs at most once. */
  ghost predicate UniqueKeys(s: seq<SummaryRecord>) {
    forall k :: |Only(s, k)| <= 1
  }

  /** No two records share a key. */
  predicate DistinctKeys(records: seq<SummaryRecord>) {
    forall i, j :: 0 <= i < j < |records| ==> KeyOf(records[i]) != KeyOf(records[j])
  }

  /** `Summary` as the handler uses it: a collection it deletes one record
      from and appends one record to. */
  class SummaryStore {
    var summaries: seq<SummaryRecord>

    constructor (initial: seq<SummaryRecord>)
      ensures summaries == initial
    {
      summaries := initial;
    }

    /** `Summary.deleteOne({ paperId, level, sectionName })` */
    method DeleteOne(k: Key)
      modifies this
      ensures summaries == DeleteFirst(old(summaries), k)
    {
      summaries := DeleteFirst(summaries, k);
    }

    /** `Summary.create(record)` */
    method Create(record: SummaryRecord)
      modifies this
      ensures summaries == old(summaries) + [record]
    {
      summaries := summaries + [record];
    }
  }

  /** The store after a delete-then-create for each of `records` in turn. */
  function Replaced(s: seq<SummaryRecord>, records: seq<SummaryRecord>): seq<SummaryRecord>
    decreases |records|
  {
    if records == [] then s
    else
      var last := records[|records| - 1];
      DeleteFirst(Replaced(s, records[..|records| - 1]), KeyOf(last)) + [last]
  }

  lemma ReplacedStep(s: seq<SummaryRecord>, records: seq<SummaryRecord>, record: SummaryRecord)
    ensures Replaced(s, records + [record]) == DeleteFirst(Replaced(s, records), KeyOf(record)) + [record]
  {
    assert (records + [record])[..|records|] == records;
  }

  /** The old store after only the deletions of `Replaced`. */
  function Deleted(s: seq<SummaryRecord>, records: seq<SummaryRecord>): seq<SummaryRecord>
    decreases |records|
  {
    if records == [] then s
    else DeleteFirst(Deleted(s, records[..|records| - 1]), KeyOf(records[|records| - 1]))
  }

  lemma {:induction false} OnlyConcat(a: seq<SummaryRecord>, b: seq<SummaryRecord>, k: Key)
    ensures Only(a + b, k) == Only(a, k) + Only(b, k)
    decreases |a|
  {
    if a == [] {
      assert a + b == b;
    } else {
      var t := a[1..] + b;
      assert (a + b)[0] == a[0] && (a + b)[1..] == t;
      OnlyConcat(a[1..], b, k);
      if KeyOf(a[0]) == k {
        assert Only(a + b, k) == [a[0]] + Only(t, k);
        assert Only(a, k) == [a[0]] + Only(a[1..], k);
        assert [a[0]] + (Only(a[1..], k) + Only(b, k)) == ([a[0]] + Only(a[1..], k)) + Only(b, k);
      } else {
        assert Only(a + b, k) == Only(t, k);
        assert Only(a, k) == Only(a[1..], k);
      }
    }
  }

  /** Deleting by one key keeps the records of every other key, in order,
      and removes exactly the first record of its own key. */
  lemma {:induction false} OnlyDeleteFirst(s: seq<SummaryRecord>, d: Key, k: Key)
    ensures k != d ==> Only(DeleteFirst(s, d), k) == Only(s, k)
    ensures k == d ==> Only(DeleteFirst(s, d), k) == if Only(s, k) == [] then [] else Only(s, k)[1..]
    decreases |s|
  {
    if s != [] {
      OnlyDeleteFirst(s[1..], d, k);
      if KeyOf(s[0]) != d {
        OnlyConcat([s[0]], DeleteFirst(s[1..], d), k);
      }
    }
  }

  /** Deleting by a key no record of `b` has leaves `b` in place. */
  lemma {:induction false} DeleteFirstBefore(a: seq<SummaryRecord>, b: seq<SummaryRecord>, d: Key)
    requires Only(b, d) == []
    ensures DeleteFirst(a + b, d) == DeleteFirst(a, d) + b
    decreases |a|
  {
    if a == [] {
      assert a + b == b;
      DeleteFirstAbsent(b, d);
    } else {
      var t := a[1..] + b;
      assert (a + b)[0] == a[0] && (a + b)[1..] == t;
      DeleteFirstBefore(a[1..], b, d);
      if KeyOf(a[0]) == d {
        assert DeleteFirst(a + b, d) == t && DeleteFirst(a, d) == a[1..];
      } else {
        assert DeleteFirst(a + b, d) == [a[0]] + DeleteFirst(t, d);
        assert DeleteFirst(a, d) == [a[0]] + DeleteFirst(a[1..], d);
        assert [a[0]] + (DeleteFirst(a[1..], d) + b) == ([a[0]] + DeleteFirst(a[1..], d)) + b;
      }
    }
  }

  lemma {:induction false} DeleteFirstAbsent(s: seq<SummaryRecord>, d: Key)
    requires Only(s, d) == []
    ensures DeleteFirst(s, d) == s
    decreases |s|
  {
    if s != [] {
      DeleteFirstAbsent(s[1..], d);
    }
  }

  /** Records with distinct keys hold each of their keys once and no other. */
  lemma {:induction false} OnlyOfDistinct(records: seq<SummaryRecord>, k: Key)
    requires DistinctKeys(records)
    ensures k !in Keys(records) ==> Only(records, k) == []
    ensures forall i :: 0 <= i < |records| && KeyOf(records[i]) == k ==> Only(records, k) == [records[i]]
    decreases |records|
  {
    if records != [] {
      var rest := records[1..];
      assert DistinctKeys(rest) by {
        forall i, j | 0 <= i < j < |rest| ensures KeyOf(rest[i]) != KeyOf(rest[j]) {
          assert rest[i] == records[i + 1] && rest[j] == records[j + 1];
        }
      }
      OnlyOfDistinct(rest, k);
      if k !in Keys(records) {
        assert forall i :: 0 <= i < |rest| ==> Keys(rest)[i] == Keys(records)[i + 1];
      }
      forall i | 0 <= i < |records| && KeyOf(records[i]) == k ensures Only(records, k) == [records[i]] {
        if i == 0 {
          assert forall j :: 0 <= j < |rest| ==> KeyOf(rest[j]) != k by {
            forall j | 0 <= j < |rest| ensures KeyOf(rest[j]) != k {
              assert rest[j] == records[j + 1];
            }
          }
          assert k !in Keys(rest);
        } else {
          assert records[i] == rest[i - 1];
        }
      }
    }
  }

  /** Dropping the last of records with distinct keys leaves records with
      distinct keys, none of which has the last one's key. */
  lemma DistinctInit(records: seq<SummaryRecord>)
    requires records != [] && DistinctKeys(records)
    ensures DistinctKeys(records[..|records| - 1])
    ensures Only(records[..|records| - 1], KeyOf(records[|records| - 1])) == []
  {
    var n := |records| - 1;
    var init := records[..n];
    assert forall i :: 0 <= i < n ==> init[i] == records[i];
    assert DistinctKeys(init);
    assert forall i :: 0 <= i < |init| ==> Keys(init)[i] != KeyOf(records[n]);
    OnlyOfDistinct(init, KeyOf(records[n]));
  }

  /** With distinct keys, the records replaced one by one end the store in
      their own order, after the old store with one deletion per key. */
  lemma {:induction false} ReplacedIsDeletedThenAppended(s: seq<SummaryRecord>, records: seq<SummaryRecord>)
    requires DistinctKeys(records)
    ensures Replaced(s, records) == Deleted(s, records) + records
    decreases |records|
  {
    if records != [] {
      var n := |records| - 1;
      var init, last := records[..n], records[n];
      DistinctInit(records);
      ReplacedIsDeletedThenAppended(s, init);
      var d := Deleted(s, init);
      assert Replaced(s, records) == DeleteFirst(Replaced(s, init), KeyOf(last)) + [last];
      assert Replaced(s, records) == DeleteFirst(d + init, KeyOf(last)) + [last];
      DeleteFirstBefore(d, init, KeyOf(last));
      assert Deleted(s, records) == DeleteFirst(d, KeyOf(last));
      assert (DeleteFirst(d, KeyOf(last)) + init) + [last] == DeleteFirst(d, KeyOf(last)) + (init + [last]);
      assert init + [last] == records;
    }
  }

  /** With distinct keys, the deletions take the first record of each of
      their keys and leave every other key's records as they were. */
  lemma {:induction false} OnlyDeleted(s: seq<SummaryRecord>, records: seq<SummaryRecord>, k: Key)
    requires DistinctKeys(records)
    ensures k !in Keys(records) ==> Only(Deleted(s, records), k) == Only(s, k)
    ensures k in Keys(records) ==> Only(Deleted(s, records), k) == if Only(s, k) == [] then [] else Only(s, k)[1..]
    decreases |records|
  {
    if records != [] {
      var n := |records| - 1;
      var init, last := records[..n], records[n];
      DistinctInit(records);
      OnlyDeleted(s, init, k);
      OnlyDeleteFirst(Deleted(s, init), KeyOf(last), k);
      KeysOfInit(records, k);
      if k in Keys(init) {
        var i :| 0 <= i < n && Keys(init)[i] == k;
        assert KeyOf(records[i]) != KeyOf(records[n]);
      }
    }
  }

  /** A key is among the keys of some records exactly when it is among
      those of all but the last, or is the last one's. */
  lemma KeysOfInit(records: seq<SummaryRecord>, k: Key)
    requires records != []
    ensures k in Keys(records) <==> k in Keys(records[..|records| - 1]) || k == KeyOf(records[|records| - 1])
  {
    var n := |records| - 1;
    assert Keys(records) == Keys(records[..n]) + [KeyOf(records[n])];
  }

  /** Replacing records with distinct keys: for every key of the new records,
      at most one old record of that key is gone and the new record ends
      the key's records; the records of every other key are as they were. */
  lemma ReplacedPerKey(s: seq<SummaryRecord>, records: seq<SummaryRecord>, k: Key)
    requires DistinctKeys(records)
    ensures k !in Keys(records) ==> Only(Replaced(s, records), k) == Only(s, k)
    ensures forall i :: 0 <= i < |records| && KeyOf(records[i]) == k ==>
              Only(Replaced(s, records), k) == (if Only(s, k) == [] then [] else Only(s, k)[1..]) + [records[i]]
  {
    ReplacedIsDeletedThenAppended(s, records);
    OnlyConcat(Deleted(s, records), records, k);
    OnlyDeleted(s, records, k);
    OnlyOfDistinct(records, k);
    forall i | 0 <= i < |records| && KeyOf(records[i]) == k ensures k in Keys(records) {
      assert Keys(records)[i] == k;
    }
  }

  /** A store without duplicate keys keeps none after the replacement. */
  lemma ReplacedKeepsUniqueKeys(s: seq<SummaryRecord>, records: seq<SummaryRecord>)
    requires DistinctKeys(records) && UniqueKeys(s)
    ensures UniqueKeys(Replaced(s, records))
  {
    forall k ensures |Only(Replaced(s, records), k)| <= 1 {
      ReplacedPerKey(s, records, k);
      if k in Keys(records) {
        var i :| 0 <= i < |records| && Keys(records)[i] == k;
        assert |Only(s, k)| <= 1;
      }
    }
  }

  // ---------------------------------------------------------------------------
  // POST /generate
  // ---------------------------------------------------------------------------

  const PaperIdRequired := "paperId is required"
  const PaperNotFound := "Paper not found"
  const NotEnoughText := "Not enough text to summarize"
  const SummaryPrompt := "Summarize the key findings, methodology, and conclusions"

  /** The default budget of `compressText`. */
  const MaxTokens: nat := 1000

  /** The number of levels. */
  const LevelCount: nat := 3

  /** The position of a level in the order eli5, technical, expert. */
  function LevelIndex(level: Level): (i: nat)
    ensures i < LevelCount
  {
    match level
    case Eli5 => 0
    case Technical => 1
    case Expert => 2
  }

  /** The level at a position of that order: the levels are stored in it. */
  function LevelAt(i: nat): (level: Level)
    requires i < LevelCount
    ensures LevelIndex(level) == i
  {
    if i == 0 then Eli5 else if i == 1 then Technical else Expert
  }

  lemma LevelAtIndex(level: Level)
    ensures LevelAt(LevelIndex(level)) == level
  {
  }

  /** `summaries[level].content` */
  function ContentOf(summaries: MultiLevel, level: Level): string {
    match level
    case Eli5 => summaries.eli5.content
    case Technical => summaries.technical.content
    case Expert => summaries.expert.content
  }

  /** `Summary generation returned empty for ${level} level. Please retry.` */
  function Placeholder(level: Level): string {
    "Summary generation returned empty for " + LevelName(level) + " level. Please retry."
  }

  /** The stored content: the generated content unless it is blank. */
  function StoredContent(content: string, level: Level): string {
    if Trim(content) != [] then content else Placeholder(level)
  }

  /** The stored content is never blank, as the collection requires; it is
      the generated content whenever that is not blank. */
  lemma StoredContentNotBlank(content: string, level: Level)
    ensures Trim(content) != [] ==> StoredContent(content, level) == content
    ensures Trim(content) == [] ==> StoredContent(content, level) == Placeholder(level)
    ensures Trim(StoredContent(content, level)) != []
  {
    if Trim(content) == [] {
      var p := Placeholder(level);
      assert p[0] == 'S';
      TrimSpan(p, 0, 0);
    }
  }

  /** The record stored for one level. */
  function SavedRecord(paperId: string, target: string, c: Compressor.Compression,
                       summaries: MultiLevel, level: Level): SummaryRecord {
    SummaryRecord(paperId, level, target, StoredContent(ContentOf(summaries, level), level),
                  c.originalTokens, c.compressedTokens, c.ratio)
  }

  /** The records stored for the first `n` levels, in order. */
  function SavedPrefix(paperId: string, target: string, c: Compressor.Compression,
                       summaries: MultiLevel, n: nat): (r: seq<SummaryRecord>)
    requires n <= LevelCount
    ensures |r| == n
    ensures forall i :: 0 <= i < n ==> r[i] == SavedRecord(paperId, target, c, summaries, LevelAt(i))
  {
    if n == 0 then []
    else SavedPrefix(paperId, target, c, summaries, n - 1) + [SavedRecord(paperId, target, c, summaries, LevelAt(n - 1))]
  }

  /** The records stored for the three levels, in order. */
  function SavedRecords(paperId: string, target: string, c: Compressor.Compression,
                        summaries: MultiLevel): (r: seq<SummaryRecord>)
    ensures |r| == LevelCount
    ensures forall i :: 0 <= i < LevelCount ==> r[i] == SavedRecord(paperId, target, c, summaries, LevelAt(i))
  {
    SavedPrefix(paperId, target, c, summaries, LevelCount)
  }

  /** The response of `POST /generate`. */
  datatype GenerateOutcome =
    | GenerateRejected(status: nat, error: string)
    | Generated(summaries: seq<SummaryRecord>, compression: Compressor.Compression, savedTokens: int)

  /** What `POST /generate` answers for the request's `paperId` (empty when
      missing) and `sectionName` (empty when missing), with the paper lookup
      and the model's replies given. */
  function GenerateResponse(paperId: string, sectionName: string, papers: string -> Option<Paper>,
                            replies: Replies): (r: GenerateOutcome)
    ensures paperId == [] ==> r == GenerateRejected(400, PaperIdRequired)
    ensures paperId != [] && papers(paperId).None? ==> r == GenerateRejected(404, PaperNotFound)
    ensures r.GenerateRejected? ==> r.status in {400, 404}
    ensures r.Generated? ==>
              paperId != [] && papers(paperId).Some?
              && SelectText(papers(paperId).value, TargetSection(sectionName)).Ok?
              && r == Summarize(paperId, TargetSection(sectionName),
                                SelectText(papers(paperId).value, TargetSection(sectionName)).value, replies)
  {
    if paperId == [] then GenerateRejected(400, PaperIdRequired)
    else match papers(paperId)
      case None => GenerateRejected(404, PaperNotFound)
      case Some(paper) =>
        var target := TargetSection(sectionName);
        var selected := SelectText(paper, target);
        if selected.Err? then GenerateRejected(400, selected.message)
        else if |selected.value| < 50 then GenerateRejected(400, NotEnoughText)
        else Summarize(paperId, target, selected.value, replies)
  }

  /** The success path of `POST /generate` on the selected text. */
  function Summarize(paperId: string, target: string, text: string, replies: Replies): (r: GenerateOutcome)
    ensures r.Generated?
  {
    var c := Compressor.Compressed(text, SummaryPrompt, MaxTokens);
    var summaries := MultiLevelSummaries(c.content, target, replies);
    Generated(SavedRecords(paperId, target, c, summaries), c, c.originalTokens - c.compressedTokens)
  }

  /** `Summarize` from the compression, the summaries and the records it
      is made of. */
  lemma SummarizeFrom(paperId: string, target: string, text: string, replies: Replies,
                      c: Compressor.Compression, summaries: MultiLevel, saved: seq<SummaryRecord>)
    requires c == Compressor.Compressed(text, SummaryPrompt, MaxTokens)
    requires summaries == MultiLevelSummaries(c.content, target, replies)
    requires saved == SavedRecords(paperId, target, c, summaries)
    ensures Summarize(paperId, target, text, replies) == Generated(saved, c, c.originalTokens - c.compressedTokens)
  {
  }

  /** The records of the three levels, in the order eli5, technical,
      expert, all for one paper and section, none blank, with distinct keys
      and the compression's token counts. */
  lemma SavedRecordsFacts(paperId: string, target: string, c: Compressor.Compression, summaries: MultiLevel)
    ensures var r := SavedRecords(paperId, target, c, summaries);
            |r| == LevelCount && DistinctKeys(r)
            && forall i :: 0 <= i < LevelCount ==>
                 r[i].level == LevelAt(i) && r[i].paperId == paperId && r[i].sectionName == target
                 && Trim(r[i].content) != []
                 && r[i].originalTokens == c.originalTokens && r[i].compressedTokens == c.compressedTokens
  {
    var r := SavedRecords(paperId, target, c, summaries);
    forall i | 0 <= i < LevelCount ensures Trim(r[i].content) != [] {
      StoredContentNotBlank(ContentOf(summaries, LevelAt(i)), LevelAt(i));
    }
    SavedRecordKeys(paperId, target, c, summaries);
  }

  /** The keys of the three records: one per level, for one paper and
      section. */
  lemma SavedRecordKeys(paperId: string, target: string, c: Compressor.Compression, summaries: MultiLevel)
    ensures var r := SavedRecords(paperId, target, c, summaries);
            DistinctKeys(r) && forall i :: 0 <= i < LevelCount ==> KeyOf(r[i]) == Key(paperId, LevelAt(i), target)
  {
    var r := SavedRecords(paperId, target, c, summaries);
    forall i, j | 0 <= i < j < |r| ensures KeyOf(r[i]) != KeyOf(r[j]) {
      assert LevelIndex(r[i].level) == i && LevelIndex(r[j].level) == j;
    }
  }

  /** The refusals of a found paper: a named section that is missing or
      empty, then a text shorter than 50 characters, counted before any
      trimming. */
  lemma GenerateRefusals(paperId: string, sectionName: string, papers: string -> Option<Paper>,
                         replies: Replies)
    requires paperId != [] && papers(paperId).Some?
    ensures var r := GenerateResponse(paperId, sectionName, papers, replies);
            var selected := SelectText(papers(paperId).value, TargetSection(sectionName));
            (selected.Err? ==> r == GenerateRejected(400, SectionNotFound(TargetSection(sectionName))))
            && (selected.Ok? && |selected.value| < 50 ==> r == GenerateRejected(400, NotEnoughText))
            && (selected.Ok? && |selected.value| >= 50 <==> r.Generated?)
  {
  }

  /** A generated response holds one record per level, in the order eli5,
      technical, expert, all for the request's paper and section, none
      blank, with distinct keys and the compression's token counts. */
  lemma GeneratedRecords(paperId: string, sectionName: string, papers: string -> Option<Paper>,
                         replies: Replies)
    ensures var r := GenerateResponse(paperId, sectionName, papers, replies);
            r.Generated? ==>
              |r.summaries| == LevelCount && DistinctKeys(r.summaries)
              && (forall i :: 0 <= i < LevelCount ==>
                    r.summaries[i].level == LevelAt(i) && r.summaries[i].paperId == paperId
                    && r.summaries[i].sectionName == TargetSection(sectionName)
                    && Trim(r.summaries[i].content) != []
                    && r.summaries[i].originalTokens == r.compression.originalTokens
                    && r.summaries[i].compressedTokens == r.compression.compressedTokens)
  {
    var r := GenerateResponse(paperId, sectionName, papers, replies);
    if r.Generated? {
      SavedRecordsFacts(paperId, TargetSection(sectionName), r.compression,
                        MultiLevelSummaries(r.compression.content, TargetSection(sectionName), replies));
    }
  }

  /** The saved tokens are the difference of the token counts: nothing for a
      text with fewer than 100 non-blank characters, which is sent as it
      is, and at least all but 1000 of the original tokens otherwise. */
  lemma SavedTokens(paperId: string, sectionName: string, papers: string -> Option<Paper>,
                    replies: Replies)
    ensures var r := GenerateResponse(paperId, sectionName, papers, replies);
            r.Generated? ==>
              var text := SelectText(papers(paperId).value, TargetSection(sectionName)).value;
              r.savedTokens == r.compression.originalTokens - r.compression.compressedTokens
              && r.compression.originalTokens == Compressor.EstimateTokens(text)
              && (|Trim(text)| < 100 ==> r.savedTokens == 0 && r.compression.content == text)
              && (|Trim(text)| >= 100 ==> r.savedTokens >= r.compression.originalTokens - MaxTokens)
  {
  }

  /** A stored generated content is the model's content for its level when
      that is not blank, and the level's placeholder when it is. */
  lemma StoredContentOfLevel(paperId: string, sectionName: string, papers: string -> Option<Paper>,
                             replies: Replies, i: nat)
    requires i < LevelCount
    ensures var r := GenerateResponse(paperId, sectionName, papers, replies);
            r.Generated? ==>
              var generated := ContentOf(MultiLevelSummaries(r.compression.content, TargetSection(sectionName), replies), LevelAt(i));
              (Trim(generated) != [] ==> r.summaries[i].content == generated)
              && (Trim(generated) == [] ==> r.summaries[i].content == Placeholder(LevelAt(i)))
  {
    var r := GenerateResponse(paperId, sectionName, papers, replies);
    if r.Generated? {
      var generated := ContentOf(MultiLevelSummaries(r.compression.content, TargetSection(sectionName), replies), LevelAt(i));
      StoredContentNotBlank(generated, LevelAt(i));
    }
  }

  /** `POST /generate` on the summary store.  The loop deletes, then
      creates, the record of each level in turn. */
  method Generate(store: SummaryStore, paperId: string, sectionName: string,
                  papers: string -> Option<Paper>, replies: Replies) returns (r: GenerateOutcome)
    modifies store
    ensures r == GenerateResponse(paperId, sectionName, papers, replies)
    ensures r.Generated? ==> store.summaries == Replaced(old(store.summaries), r.summaries)
    ensures r.GenerateRejected? ==> store.summaries == old(store.summaries)
  {
    if paperId == [] {
      return GenerateRejected(400, PaperIdRequired);
    }
    var found := papers(paperId);
    if found.None? {
      return GenerateRejected(404, PaperNotFound);
    }
    var paper := found.value;
    var target := TargetSection(sectionName);
    var selected := SelectText(paper, target);
    if selected.Err? {
      return GenerateRejected(400, selected.message);
    }
    var text := selected.value;
    if |text| < 50 {
      return GenerateRejected(400, NotEnoughText);
    }
    assert GenerateResponse(paperId, sectionName, papers, replies) == Summarize(paperId, target, text, replies);
    r := SummarizeAndStore(store, paperId, target, text, replies);
  }

  /** The success path of `POST /generate`: compress the text, ask for the
      three levels and store them. */
  method SummarizeAndStore(store: SummaryStore, paperId: string, target: string, text: string, replies: Replies)
    returns (r: GenerateOutcome)
    modifies store
    ensures r == Summarize(paperId, target, text, replies)
    ensures store.summaries == Replaced(old(store.summaries), r.summaries)
  {
    var compressed := Compressor.CompressText(text, SummaryPrompt, MaxTokens);
    var summaries := MultiLevelSummaries(compressed.content, target, replies);
    var saved := StoreSummaries(store, paperId, target, compressed, summaries);
    r := Generated(saved, compressed, compressed.originalTokens - compressed.compressedTokens);
    assert r.summaries == saved;
    SummarizeFrom(paperId, target, text, replies, compressed, summaries, saved);
  }

  /** The loop of `POST /generate`: for each level in turn, delete the
      stored summary of its key and create the new one. */
  method StoreSummaries(store: SummaryStore, paperId: string, target: string,
                        compressed: Compressor.Compression, summaries: MultiLevel)
    returns (saved: seq<SummaryRecord>)
    modifies store
    ensures saved == SavedRecords(paperId, target, compressed, summaries)
    ensures store.summaries == Replaced(old(store.summaries), saved)
  {
    saved := [];
    for i := 0 to LevelCount
      invariant saved == SavedPrefix(paperId, target, compressed, summaries, i)
      invariant store.summaries == Replaced(old(store.summaries), saved)
    {
      var level := LevelAt(i);
      store.DeleteOne(Key(paperId, level, target));
      var record := SavedRecord(paperId, target, compressed, summaries, level);
      store.Create(record);
      ReplacedStep(old(store.summaries), saved, record);
      saved := saved + [record];
    }
  }

  /** After the loop, each level's key holds the new record behind what was
      left of its old records, one fewer if there were any; every other
      key's records are as they were; and a store without duplicate keys
      still has none. */
  lemma StoreEffect(s: seq<SummaryRecord>, paperId: string, target: string,
                    c: Compressor.Compression, summaries: MultiLevel, k: Key)
    ensures var saved := SavedRecords(paperId, target, c, summaries);
            var after := Replaced(s, saved);
            (k.paperId == paperId && k.sectionName == target ==>
               Only(after, k) == (if Only(s, k) == [] then [] else Only(s, k)[1..]) + [saved[LevelIndex(k.level)]])
            && (k.paperId != paperId || k.sectionName != target ==> Only(after, k) == Only(s, k))
            && (UniqueKeys(s) ==> UniqueKeys(after))
  {
    SavedRecordKeys(paperId, target, c, summaries);
    ReplacedByLevels(s, SavedRecords(paperId, target, c, summaries), paperId, target, k);
  }

  /** `StoreEffect` for any records, one per level, keyed by the paper and
      section. */
  lemma ReplacedByLevels(s: seq<SummaryRecord>, saved: seq<SummaryRecord>, paperId: string, target: string, k: Key)
    requires |saved| == LevelCount && DistinctKeys(saved)
    requires forall i :: 0 <= i < LevelCount ==> KeyOf(saved[i]) == Key(paperId, LevelAt(i), target)
    ensures var after := Replaced(s, saved);
            (k.paperId == paperId && k.sectionName == target ==>
               Only(after, k) == (if Only(s, k) == [] then [] else Only(s, k)[1..]) + [saved[LevelIndex(k.level)]])
            && (k.paperId != paperId || k.sectionName != target ==> Only(after, k) == Only(s, k))
            && (UniqueKeys(s) ==> UniqueKeys(after))
  {
    ReplacedPerKey(s, saved, k);
    if UniqueKeys(s) {
      ReplacedKeepsUniqueKeys(s, saved);
    }
    if k.paperId == paperId && k.sectionName == target {
      var i := LevelIndex(k.level);
      LevelAtIndex(k.level);
      assert KeyOf(saved[i]) == k;
    } else {
      assert forall i :: 0 <= i < LevelCount ==> Keys(saved)[i] != k;
    }
  }

  /** The same for the whole handler: a generation replaces, for the
      request's paper and section, at most one old summary per level by
      the new one, and changes nothing else. */
  lemma GenerateStoreEffect(s: seq<SummaryRecord>, paperId: string, sectionName: string,
                            papers: string -> Option<Paper>, replies: Replies, k: Key)
    requires GenerateResponse(paperId, sectionName, papers, replies).Generated?
    ensures var r := GenerateResponse(paperId, sectionName, papers, replies);
            var after := Replaced(s, r.summaries);
            (k.paperId == paperId && k.sectionName == TargetSection(sectionName) ==>
               Only(after, k) == (if Only(s, k) == [] then [] else Only(s, k)[1..]) + [r.summaries[LevelIndex(k.level)]])
            && (k.paperId != paperId || k.sectionName != TargetSection(sectionName) ==> Only(after, k) == Only(s, k))
            && (UniqueKeys(s) ==> UniqueKeys(after))
  {
    var r := GenerateResponse(paperId, sectionName, papers, replies);
    var target := TargetSection(sectionName);
    assert r.summaries == SavedRecords(paperId, target, r.compression,
                                       MultiLevelSummaries(r.compression.content, target, replies));
    StoreEffect(s, paperId, target, r.compression, MultiLevelSummaries(r.compression.content, target, replies), k);
  }

  // ---------------------------------------------------------------------------
  // POST /lit-review
  // ---------------------------------------------------------------------------

  const TwoIdsRequired := "At least 2 paperIds are required"
  const NotEnoughPapers := "Not enough valid papers found"
  const ReviewTitlePrefix := "Literature Review: "

  /** One record of the literature-review collection. */
  datatype LitReviewRecord = LitReviewRecord(title: string, paperIds: seq<string>, content: string,
                                             themes: seq<string>, totalPapers: nat)

  /** The response of `POST /lit-review`; a created review is answered with
      status 201. */
  datatype ReviewOutcome = ReviewRejected(status: nat, error: string) | ReviewCreated(review: LitReviewRecord)

  function Titles(papers: seq<PaperText>): (r: seq<string>)
    ensures |r| == |papers|
    ensures forall i :: 0 <= i < |papers| ==> r[i] == papers[i].title
  {
    seq(|papers|, i requires 0 <= i < |papers| => papers[i].title)
  }

  /** `Literature Review: ${titles.join(', ').substring(0, 100)}` */
  function DefaultReviewTitle(papers: seq<PaperText>): (t: string)
    ensures StartsWith(t, ReviewTitlePrefix)
    ensures |t| <= |ReviewTitlePrefix| + 100
  {
    ReviewTitlePrefix + Prefix(Join(Titles(papers), ", "), 100)
  }

  /** When the joined titles fit in 100 characters, the default title names
      every paper. */
  lemma DefaultTitleNamesEveryPaper(papers: seq<PaperText>, i: nat)
    requires i < |papers| && |Join(Titles(papers), ", ")| <= 100
    ensures Contains(DefaultReviewTitle(papers), papers[i].title)
  {
    JoinContains(Titles(papers), ", ", i);
    ContainsInSuffix(ReviewTitlePrefix, Join(Titles(papers), ", "), papers[i].title);
  }

  /** `POST /lit-review` with the request's `paperIds` (`None` when missing
      or not an array) and `title` (empty when missing), the papers the
      lookup found and the model's reply given. */
  function CreateLitReview(paperIds: Option<seq<string>>, title: string, found: seq<PaperText>,
                           reply: Reply): (r: ReviewOutcome)
    ensures paperIds.None? || |paperIds.value| < 2 ==> r == ReviewRejected(400, TwoIdsRequired)
    ensures paperIds.Some? && |paperIds.value| >= 2 && |found| < 2 ==> r == ReviewRejected(400, NotEnoughPapers)
    ensures r.ReviewCreated? <==> paperIds.Some? && |paperIds.value| >= 2 && |found| >= 2
    ensures r.ReviewCreated? ==>
              r.review.paperIds == paperIds.value && r.review.themes == [] && r.review.totalPapers == |found|
              && (title != [] ==> r.review.title == title)
              && (title == [] ==> r.review.title == DefaultReviewTitle(found))
              && (Usable(reply) ==> r.review.content == reply.summary)
              && (!Usable(reply) ==> r.review.content == FallbackSummary(Prefix(ReviewInput(found), InputLimit), 500))
              && (!Usable(reply) ==> |r.review.content| <= 500)
  {
    if paperIds.None? || |paperIds.value| < 2 then ReviewRejected(400, TwoIdsRequired)
    else if |found| < 2 then ReviewRejected(400, NotEnoughPapers)
    else
      var t := if title != [] then title else DefaultReviewTitle(found);
      ReviewCreated(LitReviewRecord(t, paperIds.value, GenerateLitReview(found, reply), [], |found|))
  }
}
