/** The extractive machinery shared by the text compressor and the fallback
    summarizer: splitting text into sentences with a global regular
    expression, ranking scored sentences, picking them greedily within a
    character budget, and putting the picked ones back in document order. */
module Extractive {
  import opened Strings

  // ---------------------------------------------------------------------------
  // Sentences
  // ---------------------------------------------------------------------------

  /** The sentence terminators: `.!?` and, in the compressor's pattern
      `/[^.!?\n]+[.!?\n]+/g` (`nl` set), also the newline; the fallback
      summarizer's pattern is `/[^.!?]+[.!?]+/g`. */
  predicate Ends(c: char, nl: bool) { c == '.' || c == '!' || c == '?' || (nl && c == '\n') }

  /** Length of the maximal prefix of characters that `end` rejects. */
  function BodyRun(s: string, nl: bool): (n: nat)
    ensures n <= |s|
    ensures n == |s| || Ends(s[n], nl)
  {
    if s == [] || Ends(s[0], nl) then 0 else 1 + BodyRun(s[1..], nl)
  }

  lemma {:induction false} BodyRunHasNoEnd(s: string, nl: bool)
    ensures forall i :: 0 <= i < BodyRun(s, nl) ==> !Ends(s[i], nl)
  {
    if s != [] && !Ends(s[0], nl) {
      BodyRunHasNoEnd(s[1..], nl);
      assert forall i :: 1 <= i < BodyRun(s, nl) ==> s[i] == s[1..][i - 1];
    }
  }

  /** Length of the maximal prefix of characters that `end` accepts. */
  function EndRun(s: string, nl: bool): (n: nat)
    ensures n <= |s|
    ensures n == |s| || !Ends(s[n], nl)
  {
    if s == [] || !Ends(s[0], nl) then 0 else 1 + EndRun(s[1..], nl)
  }

  lemma {:induction false} EndRunAllEnds(s: string, nl: bool)
    ensures forall i :: 0 <= i < EndRun(s, nl) ==> Ends(s[i], nl)
  {
    if s != [] && Ends(s[0], nl) {
      EndRunAllEnds(s[1..], nl);
      assert forall i :: 1 <= i < EndRun(s, nl) ==> s[i] == s[1..][i - 1];
    }
  }

  /** One match of `[^E]+[E]+`: a non-empty body followed by a non-empty run
      of terminators, nothing else. */
  predicate IsChunk(c: string, nl: bool) {
    |c| >= 2 && !Ends(c[0], nl) && Ends(c[|c| - 1], nl)
    && forall i :: 0 <= i < |c| - 1 ==> Ends(c[i], nl) ==> Ends(c[i + 1], nl)
  }

  /** The successive matches of the global pattern `[^E]+[E]+`: terminators
      where no match can start are skipped, and a final stretch without a
      terminator matches nothing. */
  function Chunks(s: string, nl: bool): seq<string>
    decreases |s|
  {
    if s == [] then []
    else if Ends(s[0], nl) then Chunks(s[1..], nl)
    else if BodyRun(s, nl) == |s| then []
    else [s[..MatchEnd(s, nl)]] + Chunks(s[MatchEnd(s, nl)..], nl)
  }

  /** Where a match starting at the front of `s` ends: after the body and
      all the terminators that follow it. */
  function MatchEnd(s: string, nl: bool): (e: nat)
    ensures BodyRun(s, nl) <= e <= |s|
    ensures s != [] && !Ends(s[0], nl) && BodyRun(s, nl) < |s| ==> 0 < e
  {
    BodyRun(s, nl) + EndRun(s[BodyRun(s, nl)..], nl)
  }

  /** Every match is a body followed by its terminators. */
  lemma {:induction false} ChunksAreMatches(s: string, nl: bool)
    ensures forall i :: 0 <= i < |Chunks(s, nl)| ==> IsChunk(Chunks(s, nl)[i], nl)
    decreases |s|
  {
    if s != [] {
      if Ends(s[0], nl) {
        ChunksAreMatches(s[1..], nl);
      } else {
        var n := BodyRun(s, nl);
        if n < |s| {
          var t := EndRun(s[n..], nl);
          var c := s[..n + t];
          BodyRunHasNoEnd(s, nl);
          EndRunAllEnds(s[n..], nl);
          assert forall i :: n <= i < n + t ==> c[i] == s[n..][i - n];
          assert IsChunk(c, nl);
          ChunksAreMatches(s[MatchEnd(s, nl)..], nl);
        }
      }
    }
  }

  /** What the matches leave over at the end: the unterminated tail. */
  function Leftover(s: string, nl: bool): (r: string)
    decreases |s|
  {
    if s == [] then []
    else if Ends(s[0], nl) then Leftover(s[1..], nl)
    else if BodyRun(s, nl) == |s| then s
    else Leftover(s[MatchEnd(s, nl)..], nl)
  }

  /** The tail holds no terminator. */
  lemma {:induction false} LeftoverHasNoEnd(s: string, nl: bool)
    ensures forall i :: 0 <= i < |Leftover(s, nl)| ==> !Ends(Leftover(s, nl)[i], nl)
    decreases |s|
  {
    if s != [] {
      if Ends(s[0], nl) {
        LeftoverHasNoEnd(s[1..], nl);
      } else {
        var n := BodyRun(s, nl);
        if n == |s| {
          BodyRunHasNoEnd(s, nl);
        } else {
          LeftoverHasNoEnd(s[MatchEnd(s, nl)..], nl);
        }
      }
    }
  }

  function Concat(parts: seq<string>): string {
    if parts == [] then [] else parts[0] + Concat(parts[1..])
  }

  /** The matches cover the text: after the leading terminators, the matches
      in order followed by the unterminated tail give back the text. */
  lemma {:induction false} ChunksCover(s: string, nl: bool)
    ensures Concat(Chunks(s, nl)) + Leftover(s, nl) == s[EndRun(s, nl)..]
    decreases |s|
  {
    if s != [] {
      if Ends(s[0], nl) {
        ChunksCover(s[1..], nl);
        assert s[EndRun(s, nl)..] == s[1..][EndRun(s[1..], nl)..];
      } else if BodyRun(s, nl) < |s| {
        var n := BodyRun(s, nl);
        var e := MatchEnd(s, nl);
        var rest := s[e..];
        ChunksCover(rest, nl);
        assert EndRun(rest, nl) == 0 by {
          if rest != [] {
            assert rest[0] == s[n..][e - n];
          }
        }
        var c, cs := s[..e], Chunks(rest, nl);
        assert ([c] + cs)[1..] == cs;
        assert Concat(Chunks(s, nl)) == c + Concat(cs);
        var k, l := Concat(cs), Leftover(rest, nl);
        assert Leftover(s, nl) == l;
        assert EndRun(s, nl) == 0;
        Reassemble(s, e, k, l);
      } else {
        assert s[0..] == s;
      }
    }
  }

  lemma Reassemble(s: string, e: nat, k: string, l: string)
    requires e <= |s| && k + l == s[e..]
    ensures s[..e] + k + l == s[0..]
  {
    assert s[..e] + k + l == s[..e] + (k + l);
    assert s[..e] + s[e..] == s;
  }

  /** `text.match(pattern) || [text]` */
  function Sentences(s: string, nl: bool): (r: seq<string>)
    ensures |r| >= 1
    ensures Chunks(s, nl) == [] ==> r == [s]
    ensures Chunks(s, nl) != [] ==> forall i :: 0 <= i < |r| ==> IsChunk(r[i], nl)
  {
    ChunksAreMatches(s, nl);
    var c := Chunks(s, nl);
    if c == [] then [s] else c
  }

  // ---------------------------------------------------------------------------
  // Scored sentences and their two orders
  // ---------------------------------------------------------------------------

  /** `{ text, score, index }`; scores are kept in half-points so that the
      bonuses of one and a half stay integral. */
  datatype Scored = Scored(text: string, score: int, index: nat)

  function Texts(xs: seq<Scored>): (r: seq<string>)
    ensures |r| == |xs|
    ensures forall i :: 0 <= i < |xs| ==> r[i] == xs[i].text
  {
    if xs == [] then [] else [xs[0].text] + Texts(xs[1..])
  }

  /** Total length of the texts. */
  function TextLen(xs: seq<Scored>): nat {
    SumLen(Texts(xs))
  }

  lemma TextLenCons(x: Scored, xs: seq<Scored>)
    ensures TextLen([x] + xs) == |x.text| + TextLen(xs)
  {
    assert ([x] + xs)[1..] == xs;
  }

  lemma {:induction false} TextLenSnoc(xs: seq<Scored>, x: Scored)
    ensures TextLen(xs + [x]) == TextLen(xs) + |x.text|
  {
    if xs != [] {
      assert (xs + [x])[1..] == xs[1..] + [x];
      TextLenSnoc(xs[1..], x);
    }
  }

  lemma TextLenInit(xs: seq<Scored>)
    requires xs != []
    ensures TextLen(xs) == TextLen(xs[..|xs| - 1]) + |xs[|xs| - 1].text|
  {
    assert xs == xs[..|xs| - 1] + [xs[|xs| - 1]];
    TextLenSnoc(xs[..|xs| - 1], xs[|xs| - 1]);
  }

  /** `a` comes before `b` in the stable descending-score order. */
  predicate RanksBefore(a: Scored, b: Scored) {
    a.score > b.score || (a.score == b.score && a.index < b.index)
  }

  predicate Ranked(xs: seq<Scored>) {
    forall i :: 0 <= i < |xs| - 1 ==> RanksBefore(xs[i], xs[i + 1])
  }

  predicate IndicesIncreasing(xs: seq<Scored>) {
    forall i, j :: 0 <= i < j < |xs| ==> xs[i].index < xs[j].index
  }

  /** Insertion of `x` after every element scoring at least as much. */
  function InsertByScore(ys: seq<Scored>, x: Scored): (r: seq<Scored>)
    ensures |r| == |ys| + 1
    ensures r[|r| - 1] == x || (ys != [] && r[|r| - 1] == ys[|ys| - 1])
  {
    if ys == [] then [x]
    else if ys[|ys| - 1].score >= x.score then ys + [x]
    else InsertByScore(ys[..|ys| - 1], x) + [ys[|ys| - 1]]
  }

  /** Insertion adds exactly `x`. */
  lemma {:induction false} InsertScoreAdds(ys: seq<Scored>, x: Scored)
    ensures multiset(InsertByScore(ys, x)) == multiset(ys) + multiset{x}
    ensures TextLen(InsertByScore(ys, x)) == TextLen(ys) + |x.text|
  {
    if ys != [] {
      if ys[|ys| - 1].score >= x.score {
        TextLenSnoc(ys, x);
      } else {
        var init, last := ys[..|ys| - 1], ys[|ys| - 1];
        assert ys == init + [last];
        InsertScoreAdds(init, x);
        TextLenSnoc(InsertByScore(init, x), last);
        TextLenInit(ys);
      }
    }
  }

  /** `scored.sort((a, b) => b.score - a.score)`: a stable sort, highest score
      first; it only reorders. */
  function SortByScore(xs: seq<Scored>): (r: seq<Scored>)
    ensures multiset(r) == multiset(xs)
    ensures TextLen(r) == TextLen(xs)
  {
    if xs == [] then []
    else
      TextLenInit(xs);
      assert xs == xs[..|xs| - 1] + [xs[|xs| - 1]];
      InsertScoreAdds(SortByScore(xs[..|xs| - 1]), xs[|xs| - 1]);
      InsertByScore(SortByScore(xs[..|xs| - 1]), xs[|xs| - 1])
  }

  lemma {:induction false} InsertRanked(ys: seq<Scored>, x: Scored)
    requires Ranked(ys)
    requires forall y :: y in ys ==> y.index < x.index
    ensures Ranked(InsertByScore(ys, x))
  {
    if ys == [] {
    } else if ys[|ys| - 1].score >= x.score {
      var r := ys + [x];
      assert RanksBefore(ys[|ys| - 1], x);
      assert forall i :: 0 <= i < |ys| ==> r[i] == ys[i];
    } else {
      var init, last := ys[..|ys| - 1], ys[|ys| - 1];
      assert ys == init + [last];
      assert Ranked(init) by {
        assert forall i :: 0 <= i < |init| ==> init[i] == ys[i];
      }
      InsertRanked(init, x);
      var r0 := InsertByScore(init, x);
      assert RanksBefore(r0[|r0| - 1], last) by {
        if r0[|r0| - 1] != x {
          assert r0[|r0| - 1] == ys[|ys| - 2];
        }
      }
      var r := r0 + [last];
      assert forall i :: 0 <= i < |r0| ==> r[i] == r0[i];
    }
  }

  /** Over sentences listed in document order the sort is the descending-score
      order with ties in document order: the order a stable sort must give. */
  lemma {:induction false} SortByScoreRanked(xs: seq<Scored>)
    requires IndicesIncreasing(xs)
    ensures Ranked(SortByScore(xs))
  {
    if xs != [] {
      var init, x := xs[..|xs| - 1], xs[|xs| - 1];
      SortByScoreRanked(init);
      var ys := SortByScore(init);
      forall y | y in ys ensures y.index < x.index {
        assert y in multiset(ys);
        assert y in init;
      }
      InsertRanked(ys, x);
    }
  }

  predicate IndexSorted(xs: seq<Scored>) {
    forall i :: 0 <= i < |xs| - 1 ==> xs[i].index <= xs[i + 1].index
  }

  function InsertByIndex(ys: seq<Scored>, x: Scored): (r: seq<Scored>)
    ensures |r| == |ys| + 1
    ensures r[|r| - 1] == x || (ys != [] && r[|r| - 1] == ys[|ys| - 1])
  {
    if ys == [] then [x]
    else if ys[|ys| - 1].index <= x.index then ys + [x]
    else InsertByIndex(ys[..|ys| - 1], x) + [ys[|ys| - 1]]
  }

  lemma {:induction false} InsertIndexAdds(ys: seq<Scored>, x: Scored)
    ensures multiset(InsertByIndex(ys, x)) == multiset(ys) + multiset{x}
    ensures TextLen(InsertByIndex(ys, x)) == TextLen(ys) + |x.text|
  {
    if ys != [] {
      if ys[|ys| - 1].index <= x.index {
        TextLenSnoc(ys, x);
      } else {
        var init, last := ys[..|ys| - 1], ys[|ys| - 1];
        assert ys == init + [last];
        InsertIndexAdds(init, x);
        TextLenSnoc(InsertByIndex(init, x), last);
        TextLenInit(ys);
      }
    }
  }

  lemma {:induction false} InsertIndexSorted(ys: seq<Scored>, x: Scored)
    requires IndexSorted(ys)
    ensures IndexSorted(InsertByIndex(ys, x))
  {
    if ys != [] && ys[|ys| - 1].index > x.index {
      var init, last := ys[..|ys| - 1], ys[|ys| - 1];
      InsertIndexSorted(init, x);
      var r0 := InsertByIndex(init, x);
      assert r0[|r0| - 1] == x || r0[|r0| - 1] == init[|init| - 1];
      assert r0[|r0| - 1].index <= last.index;
    }
  }

  /** `selected.sort((a, b) => a.index - b.index)`: back in document order; it
      only reorders. */
  function SortByIndex(xs: seq<Scored>): (r: seq<Scored>)
    ensures multiset(r) == multiset(xs)
    ensures TextLen(r) == TextLen(xs)
    ensures IndexSorted(r)
  {
    if xs == [] then []
    else
      TextLenInit(xs);
      assert xs == xs[..|xs| - 1] + [xs[|xs| - 1]];
      InsertIndexSorted(SortByIndex(xs[..|xs| - 1]), xs[|xs| - 1]);
      InsertIndexAdds(SortByIndex(xs[..|xs| - 1]), xs[|xs| - 1]);
      InsertByIndex(SortByIndex(xs[..|xs| - 1]), xs[|xs| - 1])
  }

  // ---------------------------------------------------------------------------
  // Greedy selection within a budget
  // ---------------------------------------------------------------------------

  /** The selection loop as a value: walking the ranked list, an item is
      skipped when `skipUnscored` is set and its score is not positive; the
      walk stops at the first remaining item that would push the text
      accumulated so far (`used` characters, each pick followed by a space)
      past `budget`; every other item is taken. */
  function Greedy(ranked: seq<Scored>, budget: nat, skipUnscored: bool, used: nat): seq<Scored> {
    if ranked == [] then []
    else
      var s := ranked[0];
      if skipUnscored && s.score <= 0 then Greedy(ranked[1..], budget, skipUnscored, used)
      else if used + |s.text| > budget then []
      else [s] + Greedy(ranked[1..], budget, skipUnscored, used + |s.text| + 1)
  }

  /** The picks, each followed by a space but the last, fit in what is left
      of the budget. */
  lemma {:induction false} GreedyWithin(ranked: seq<Scored>, budget: nat, skipUnscored: bool, used: nat)
    ensures var r := Greedy(ranked, budget, skipUnscored, used);
            r != [] ==> used + TextLen(r) + |r| - 1 <= budget
  {
    if ranked != [] {
      var s := ranked[0];
      if skipUnscored && s.score <= 0 {
        GreedyWithin(ranked[1..], budget, skipUnscored, used);
      } else if used + |s.text| <= budget {
        GreedyWithin(ranked[1..], budget, skipUnscored, used + |s.text| + 1);
        TextLenCons(s, Greedy(ranked[1..], budget, skipUnscored, used + |s.text| + 1));
      }
    }
  }

  /** Only ranked items are picked, each at most as often as it occurs, and
      when unscored items are skipped every pick has a positive score. */
  lemma {:induction false} GreedyPicks(ranked: seq<Scored>, budget: nat, skipUnscored: bool, used: nat)
    ensures multiset(Greedy(ranked, budget, skipUnscored, used)) <= multiset(ranked)
    ensures skipUnscored ==> forall x :: x in Greedy(ranked, budget, skipUnscored, used) ==> x.score > 0
  {
    if ranked != [] {
      var s := ranked[0];
      assert ranked == [s] + ranked[1..];
      if skipUnscored && s.score <= 0 {
        GreedyPicks(ranked[1..], budget, skipUnscored, used);
      } else if used + |s.text| <= budget {
        GreedyPicks(ranked[1..], budget, skipUnscored, used + |s.text| + 1);
      }
    }
  }

  /** One step of the walk, from position `i`. */
  lemma GreedyFrom(ranked: seq<Scored>, i: nat, budget: nat, skipUnscored: bool, used: nat)
    requires i < |ranked|
    ensures skipUnscored && ranked[i].score <= 0 ==>
              Greedy(ranked[i..], budget, skipUnscored, used) == Greedy(ranked[i + 1..], budget, skipUnscored, used)
    ensures !(skipUnscored && ranked[i].score <= 0) && used + |ranked[i].text| > budget ==>
              Greedy(ranked[i..], budget, skipUnscored, used) == []
    ensures !(skipUnscored && ranked[i].score <= 0) && used + |ranked[i].text| <= budget ==>
              Greedy(ranked[i..], budget, skipUnscored, used)
              == [ranked[i]] + Greedy(ranked[i + 1..], budget, skipUnscored, used + |ranked[i].text| + 1)
  {
    assert ranked[i..][0] == ranked[i];
    assert ranked[i..][1..] == ranked[i + 1..];
  }

  /** The `for (const s of scored)` loop that accumulates `result` and
      `selected`. */
  method SelectWithin(ranked: seq<Scored>, budget: nat, skipUnscored: bool) returns (selected: seq<Scored>)
    ensures selected == Greedy(ranked, budget, skipUnscored, 0)
  {
    var result := "";
    selected := [];
    var i := 0;
    while i < |ranked|
      invariant 0 <= i <= |ranked|
      invariant selected + Greedy(ranked[i..], budget, skipUnscored, |result|) == Greedy(ranked, budget, skipUnscored, 0)
      decreases |ranked| - i
    {
      var s := ranked[i];
      GreedyFrom(ranked, i, budget, skipUnscored, |result|);
      if skipUnscored && s.score <= 0 {
        i := i + 1;
        continue;
      }
      if |result| + |s.text| > budget {
        break;
      }
      selected := selected + [s];
      result := result + s.text + " ";
      i := i + 1;
    }
    if i == |ranked| {
      assert ranked[i..] == [];
    }
  }

  /** The picked texts, joined by single spaces in any order, fit the
      budget. */
  lemma JoinedWithin(ranked: seq<Scored>, budget: nat, skipUnscored: bool, ordered: seq<Scored>)
    requires multiset(ordered) == multiset(Greedy(ranked, budget, skipUnscored, 0))
    requires TextLen(ordered) == TextLen(Greedy(ranked, budget, skipUnscored, 0))
    ensures |Join(Texts(ordered), " ")| <= budget
  {
    GreedyWithin(ranked, budget, skipUnscored, 0);
    assert |ordered| == |multiset(ordered)| == |Greedy(ranked, budget, skipUnscored, 0)|;
  }

  /** The picked items, back in document order. */
  function Kept(ranked: seq<Scored>, budget: nat, skipUnscored: bool): seq<Scored> {
    SortByIndex(Greedy(ranked, budget, skipUnscored, 0))
  }

  /** `selected.map(s => s.text).join(' ').trim()` */
  function Stitched(ranked: seq<Scored>, budget: nat, skipUnscored: bool): string {
    Trim(Join(Texts(Kept(ranked, budget, skipUnscored)), " "))
  }

  /** The stitched text fits the budget. */
  lemma StitchedWithin(ranked: seq<Scored>, budget: nat, skipUnscored: bool)
    ensures |Stitched(ranked, budget, skipUnscored)| <= budget
  {
    JoinedWithin(ranked, budget, skipUnscored, Kept(ranked, budget, skipUnscored));
  }

  /** The kept items are in document order, each one of the ranked items,
      and, when unscored items are skipped, positively scored. */
  lemma KeptFromRanked(ranked: seq<Scored>, budget: nat, skipUnscored: bool)
    ensures IndexSorted(Kept(ranked, budget, skipUnscored))
    ensures forall x :: x in Kept(ranked, budget, skipUnscored) ==>
              x in ranked && (skipUnscored ==> x.score > 0)
  {
    GreedyPicks(ranked, budget, skipUnscored, 0);
    forall x | x in Kept(ranked, budget, skipUnscored)
      ensures x in ranked && (skipUnscored ==> x.score > 0)
    {
      assert x in multiset(Kept(ranked, budget, skipUnscored));
      assert x in multiset(Greedy(ranked, budget, skipUnscored, 0));
      assert x in multiset(ranked);
    }
  }
}
