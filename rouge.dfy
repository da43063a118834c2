/** ROUGE-N and ROUGE-L (Lin, 2004): how much of a reference text a generated
    summary (the hypothesis) recovers, as precision, recall and their harmonic
    mean.  Scores are exact ratios; the rounding to four decimals that the
    server applies before sending them is not modelled. */
module Rouge {
  import opened Strings

  datatype Score = Score(precision: real, recall: real, f1: real)

  datatype RougeScores = RougeScores(rouge1: Score, rouge2: Score, rougeL: Score)

  const Zero := Score(0.0, 0.0, 0.0)

  predicate InUnitRange(s: Score) {
    0.0 <= s.precision <= 1.0 && 0.0 <= s.recall <= 1.0 && 0.0 <= s.f1 <= 1.0
  }

  function Min(x: real, y: real): real { if x <= y then x else y }
  function Max(x: real, y: real): real { if x <= y then y else x }
  function MinNat(x: nat, y: nat): nat { if x <= y then x else y }
  function MaxNat(x: nat, y: nat): nat { if x <= y then y else x }

  // ---------------------------------------------------------------------------
  // Tokens
  // ---------------------------------------------------------------------------

  /** A token: lower case, made of `\w` characters only. */
  predicate IsToken(t: string) {
    t != [] && forall j :: 0 <= j < |t| ==> IsWordChar(t[j]) && !IsAsciiUpper(t[j])
  }

  /** `replace(/[^\w\s]/g, '')`: drop every character that is neither a word
      character nor white space. */
  function KeepWordAndSpace(s: string): (r: string)
    ensures |r| <= |s|
    ensures forall i :: 0 <= i < |r| ==> (IsWordChar(r[i]) || IsSpace(r[i])) && r[i] in s
  {
    if s == [] then []
    else (if IsWordChar(s[0]) || IsSpace(s[0]) then [s[0]] else []) + KeepWordAndSpace(s[1..])
  }

  lemma {:induction false} KeepAll(s: string)
    requires forall i :: 0 <= i < |s| ==> IsWordChar(s[i]) || IsSpace(s[i])
    ensures KeepWordAndSpace(s) == s
  {
    if s != [] {
      KeepAll(s[1..]);
    }
  }

  /** `(text || '').toLowerCase().replace(/[^\w\s]/g, '').split(/\s+/).filter(Boolean)`:
      the lower-cased runs of word characters of the text. */
  function Tokenize(text: string): (tokens: seq<string>)
    ensures forall i :: 0 <= i < |tokens| ==> IsToken(tokens[i])
  {
    var cleaned := KeepWordAndSpace(Lower(text));
    var ws := Words(cleaned);
    WordsFrom(cleaned);
    ws
  }

  lemma WordsFrom(cleaned: string)
    requires forall i :: 0 <= i < |cleaned| ==> (IsWordChar(cleaned[i]) || IsSpace(cleaned[i])) && !IsAsciiUpper(cleaned[i])
    ensures forall i :: 0 <= i < |Words(cleaned)| ==> IsToken(Words(cleaned)[i])
  {
    var ws := Words(cleaned);
    forall i, j | 0 <= i < |ws| && 0 <= j < |ws[i]|
      ensures IsWordChar(ws[i][j]) && !IsAsciiUpper(ws[i][j])
    {
      WordCharsFrom(cleaned, i, j);
    }
  }

  /** Every character of a word comes from the string it was cut from. */
  lemma {:induction false} WordCharsFrom(s: string, i: nat, j: nat)
    requires i < |Words(s)| && j < |Words(s)[i]|
    ensures Words(s)[i][j] in s
    decreases |s|
  {
    if IsSpace(s[0]) {
      WordCharsFrom(s[1..], i, j);
    } else {
      var w := LeadingWord(s);
      if i == 0 {
        assert Words(s)[0] == w;
      } else {
        assert Words(s)[i] == Words(s[|w|..])[i - 1];
        WordCharsFrom(s[|w|..], i - 1, j);
      }
    }
  }

  lemma {:induction false} JoinChars(parts: seq<string>, x: char)
    requires x in Join(parts, " ")
    ensures x == ' ' || exists i :: 0 <= i < |parts| && x in parts[i]
  {
    if |parts| > 1 {
      var tail := Join(parts[1..], " ");
      assert Join(parts, " ") == parts[0] + " " + tail;
      if x !in parts[0] && x != ' ' {
        JoinChars(parts[1..], x);
        var i :| 0 <= i < |parts[1..]| && x in parts[1..][i];
        assert x in parts[i + 1];
      }
    }
  }

  /** Tokens written out with single spaces tokenize back to themselves. */
  lemma TokenizeOfJoin(ts: seq<string>)
    requires forall i :: 0 <= i < |ts| ==> IsToken(ts[i])
    ensures Tokenize(Join(ts, " ")) == ts
  {
    var s := Join(ts, " ");
    JoinOfTokensClean(ts, s);
    LowerOfLower(s);
    KeepAll(s);
    forall i | 0 <= i < |ts| ensures ts[i] != [] && NoSpace(ts[i]) {
      TokenNoSpace(ts[i]);
    }
    WordsOfJoin(ts);
  }

  lemma TokenNoSpace(t: string)
    requires IsToken(t)
    ensures t != [] && NoSpace(t)
  {
    forall j | 0 <= j < |t| ensures !IsSpace(t[j]) {
      assert IsWordChar(t[j]);
    }
  }

  /** Tokens joined by spaces hold only lower-case word characters and
      spaces. */
  lemma JoinOfTokensClean(ts: seq<string>, s: string)
    requires forall i :: 0 <= i < |ts| ==> IsToken(ts[i])
    requires s == Join(ts, " ")
    ensures forall k :: 0 <= k < |s| ==> IsWordChar(s[k]) || IsSpace(s[k])
    ensures forall k :: 0 <= k < |s| ==> !IsAsciiUpper(s[k])
  {
    forall k | 0 <= k < |s|
      ensures (IsWordChar(s[k]) || IsSpace(s[k])) && !IsAsciiUpper(s[k])
    {
      JoinChars(ts, s[k]);
      if s[k] != ' ' {
        var i :| 0 <= i < |ts| && s[k] in ts[i];
        var j :| 0 <= j < |ts[i]| && ts[i][j] == s[k];
      }
    }
  }

  /** Tokenizing is stable: the tokens, written out with single spaces,
      tokenize back to themselves. */
  lemma TokenizeJoin(text: string)
    ensures Tokenize(Join(Tokenize(text), " ")) == Tokenize(text)
  {
    TokenizeOfJoin(Tokenize(text));
  }

  // ---------------------------------------------------------------------------
  // N-grams and their overlap
  // ---------------------------------------------------------------------------

  /** How many n-grams a list of `len` tokens has. */
  function NgramCount(len: nat, n: nat): nat {
    if len >= n then len - n + 1 else 0
  }

  /** The n-grams of a token list as a value: the n-gram at i is tokens[i..i+n]
      joined by single spaces. */
  function Ngrams(tokens: seq<string>, n: nat): seq<string> {
    seq(NgramCount(|tokens|, n), i requires 0 <= i < NgramCount(|tokens|, n) => Join(tokens[i..i + n], " "))
  }

  /** `getNgrams`: one n-gram per start position i with i + n <= |tokens|. */
  method GetNgrams(tokens: seq<string>, n: nat) returns (ngrams: seq<string>)
    ensures |ngrams| == if |tokens| >= n then |tokens| - n + 1 else 0
    ensures forall i :: 0 <= i < |ngrams| ==> ngrams[i] == Join(tokens[i..i + n], " ")
    ensures ngrams == Ngrams(tokens, n)
  {
    ngrams := [];
    var i := 0;
    while i <= |tokens| - n
      invariant 0 <= i <= NgramCount(|tokens|, n)
      invariant |ngrams| == i
      invariant forall k :: 0 <= k < i ==> ngrams[k] == Join(tokens[k..k + n], " ")
    {
      ngrams := ngrams + [Join(tokens[i..i + n], " ")];
      i := i + 1;
    }
  }

  /** The count dictionary `refSet` / `hypSet`: each distinct n-gram with
      the number of times it occurs. */
  method CountNgrams(ngrams: seq<string>) returns (counts: map<string, nat>)
    ensures forall g :: g in counts <==> g in ngrams
    ensures forall g :: g in counts ==> counts[g] == multiset(ngrams)[g]
  {
    counts := map[];
    for i := 0 to |ngrams|
      invariant forall g :: g in counts <==> g in ngrams[..i]
      invariant forall g :: g in counts ==> counts[g] == multiset(ngrams[..i])[g]
    {
      var g := ngrams[i];
      counts := counts[g := (if g in counts then counts[g] else 0) + 1];
      assert ngrams[..i + 1] == ngrams[..i] + [g];
    }
    assert ngrams[..|ngrams|] == ngrams;
  }

  /** The clipped overlap of two n-gram lists: every n-gram counted as often
      as it occurs in both, i.e. the sum over distinct n-grams of the smaller
      of its two counts. */
  function Overlap(refNgrams: seq<string>, hypNgrams: seq<string>): (o: nat)
    ensures o <= |refNgrams| && o <= |hypNgrams|
  {
    var h, r := multiset(hypNgrams), multiset(refNgrams);
    IntersectionBounded(h, r);
    IntersectionBounded(r, h);
    assert h * r == r * h;
    |h * r|
  }

  lemma IntersectionBounded(a: multiset<string>, b: multiset<string>)
    ensures |a * b| <= |a|
  {
    var d := a - a * b;
    assert a == a * b + d;
  }

  lemma {:induction false} SingleCard(g: string, n: nat)
    ensures |multiset{}[g := n]| == n
  {
    if n > 0 {
      SingleCard(g, n - 1);
      assert multiset{}[g := n] == multiset{}[g := n - 1] + multiset{g};
    }
  }

  /** Adding the copies of one n-gram to the counted part adds the smaller
      of its two counts to the overlap. */
  lemma IntersectionStep(seen: multiset<string>, r: multiset<string>, g: string, c: nat)
    requires seen[g] == 0
    ensures |seen[g := c] * r| == |seen * r| + MinNat(c, r[g])
  {
    var d := multiset{}[g := MinNat(c, r[g])];
    assert seen[g := c] * r == seen * r + d;
    SingleCard(g, MinNat(c, r[g]));
  }

  // ---------------------------------------------------------------------------
  // Ratios
  // ---------------------------------------------------------------------------

  /** The harmonic mean of precision and recall, 0 when both are 0. */
  function F1(p: real, r: real): (f: real)
    ensures p + r <= 0.0 ==> f == 0.0
    ensures 0.0 <= p && 0.0 <= r && p + r > 0.0 ==> Min(p, r) <= f <= Max(p, r)
  {
    if p + r > 0.0 then
      if 0.0 <= p && 0.0 <= r then HarmonicBetween(p, r); 2.0 * p * r / (p + r)
      else 2.0 * p * r / (p + r)
    else 0.0
  }

  lemma HarmonicBetween(p: real, r: real)
    requires 0.0 <= p && 0.0 <= r && p + r > 0.0
    ensures Min(p, r) <= 2.0 * p * r / (p + r) <= Max(p, r)
  {
    var lo, hi := Min(p, r), Max(p, r);
    assert lo * hi == p * r;
    assert lo * (p + r) <= 2.0 * p * r by {
      assert lo * (p + r) == lo * lo + lo * hi;
      assert lo * lo <= lo * hi by { MulMonotone(lo, lo, hi); }
    }
    assert 2.0 * p * r <= hi * (p + r) by {
      assert hi * (p + r) == lo * hi + hi * hi;
      assert lo * hi <= hi * hi by { MulMonotone(hi, lo, hi); }
    }
    DivBounds(lo, 2.0 * p * r, p + r);
    DivUpper(2.0 * p * r, hi, p + r);
  }

  lemma MulMonotone(x: real, y: real, z: real)
    requires 0.0 <= x && y <= z
    ensures x * y <= x * z
  {
  }

  /** x * d <= y  implies  x <= y / d, for positive d. */
  lemma DivBounds(x: real, y: real, d: real)
    requires d > 0.0 && x * d <= y
    ensures x <= y / d
  {
    assert (y / d) * d == y;
  }

  /** y <= x * d  implies  y / d <= x, for positive d. */
  lemma DivUpper(y: real, x: real, d: real)
    requires d > 0.0 && y <= x * d
    ensures y / d <= x
  {
    assert (y / d) * d == y;
  }

  /** c / d lies in [0, 1] when 0 <= c <= d. */
  lemma RatioInUnit(c: real, d: real)
    requires 0.0 <= c <= d && d > 0.0
    ensures 0.0 <= c / d <= 1.0
    ensures (c / d) * d == c
    ensures c == d ==> c / d == 1.0
  {
    DivUpper(c, 1.0, d);
    DivBounds(0.0, c, d);
    if c == d {
      DivBounds(1.0, c, d);
    }
  }

  lemma F1Symmetric(p: real, r: real)
    ensures F1(p, r) == F1(r, p)
  {
  }

  /** Precision, recall and F1 of `common` shared units out of `hypLen`
      hypothesis units and `refLen` reference units. */
  function Ratios(common: nat, hypLen: nat, refLen: nat): (s: Score)
    requires hypLen > 0 && refLen > 0 && common <= hypLen && common <= refLen
    ensures InUnitRange(s)
    ensures s.precision * hypLen as real == common as real
    ensures s.recall * refLen as real == common as real
    ensures common == hypLen == refLen ==> s == Score(1.0, 1.0, 1.0)
  {
    var p := Fraction(common, hypLen);
    var r := Fraction(common, refLen);
    F1InUnit(p, r);
    Score(p, r, F1(p, r))
  }

  /** `common / total` as a real. */
  function Fraction(common: nat, total: nat): (q: real)
    requires 0 < total && common <= total
    ensures 0.0 <= q <= 1.0
    ensures q * total as real == common as real
    ensures common == total ==> q == 1.0
  {
    RatioInUnit(common as real, total as real);
    common as real / total as real
  }

  lemma F1InUnit(p: real, r: real)
    requires 0.0 <= p <= 1.0 && 0.0 <= r <= 1.0
    ensures 0.0 <= F1(p, r) <= 1.0
    ensures p == 1.0 && r == 1.0 ==> F1(p, r) == 1.0
  {
    if p + r > 0.0 {
      assert Max(p, r) <= 1.0;
    }
  }

  // ---------------------------------------------------------------------------
  // ROUGE-N
  // ---------------------------------------------------------------------------

  /** `computeNgramScore` as a value: zero when either side has no n-gram,
      else the clipped overlap over the hypothesis n-grams (precision) and
      over the reference n-grams (recall). */
  function NgramScore(reference: string, hypothesis: string, n: nat): (s: Score)
    ensures InUnitRange(s)
    ensures |Tokenize(reference)| < n || |Tokenize(hypothesis)| < n ==> s == Zero
  {
    var refNgrams := Ngrams(Tokenize(reference), n);
    var hypNgrams := Ngrams(Tokenize(hypothesis), n);
    if |refNgrams| == 0 || |hypNgrams| == 0 then Zero
    else Ratios(Overlap(refNgrams, hypNgrams), |hypNgrams|, |refNgrams|)
  }

  /** The overlap loop of `computeNgramScore`: for every distinct hypothesis
      n-gram that the reference also has, add the smaller of the two counts.
      The keys are visited in any order. */
  method ClippedOverlap(refCounts: map<string, nat>, hypCounts: map<string, nat>,
                        ghost refNgrams: seq<string>, ghost hypNgrams: seq<string>)
    returns (overlap: nat)
    requires forall g :: g in refCounts <==> g in refNgrams
    requires forall g :: g in refCounts ==> refCounts[g] == multiset(refNgrams)[g]
    requires forall g :: g in hypCounts <==> g in hypNgrams
    requires forall g :: g in hypCounts ==> hypCounts[g] == multiset(hypNgrams)[g]
    ensures overlap == Overlap(refNgrams, hypNgrams)
  {
    ghost var h, r := multiset(hypNgrams), multiset(refNgrams);
    overlap := 0;
    var keys := hypCounts.Keys;
    ghost var seen: multiset<string> := multiset{};
    while keys != {}
      invariant keys <= hypCounts.Keys
      invariant forall g :: seen[g] == if g in hypCounts.Keys - keys then h[g] else 0
      invariant overlap == |seen * r|
      decreases keys
    {
      var g :| g in keys;
      if g in refCounts {
        overlap := overlap + MinNat(hypCounts[g], refCounts[g]);
      } else {
        assert r[g] == 0;
      }
      IntersectionStep(seen, r, g, h[g]);
      seen := seen[g := h[g]];
      keys := keys - {g};
    }
    assert seen == h;
  }

  /** `computeNgramScore(reference, hypothesis, n)` */
  method ComputeNgramScore(reference: string, hypothesis: string, n: nat) returns (s: Score)
    ensures s == NgramScore(reference, hypothesis, n)
  {
    var refNgrams := GetNgrams(Tokenize(reference), n);
    var hypNgrams := GetNgrams(Tokenize(hypothesis), n);
    if |refNgrams| == 0 || |hypNgrams| == 0 {
      return Zero;
    }
    var refCounts := CountNgrams(refNgrams);
    var hypCounts := CountNgrams(hypNgrams);
    var overlap := ClippedOverlap(refCounts, hypCounts, refNgrams, hypNgrams);
    s := Ratios(overlap, |hypNgrams|, |refNgrams|);
  }

  /** A summary identical to the reference recovers all of its n-grams. */
  lemma NgramScoreOfSelf(text: string, n: nat)
    requires |Tokenize(text)| >= n
    ensures NgramScore(text, text, n) == Score(1.0, 1.0, 1.0)
  {
    var g := Ngrams(Tokenize(text), n);
    assert multiset(g) * multiset(g) == multiset(g);
  }

  /** Exchanging reference and hypothesis exchanges precision and recall and
      keeps F1. */
  lemma NgramScoreSwap(reference: string, hypothesis: string, n: nat)
    ensures var s, t := NgramScore(reference, hypothesis, n), NgramScore(hypothesis, reference, n);
            t.precision == s.recall && t.recall == s.precision && t.f1 == s.f1
  {
    var a, b := Ngrams(Tokenize(reference), n), Ngrams(Tokenize(hypothesis), n);
    assert multiset(a) * multiset(b) == multiset(b) * multiset(a);
    assert Overlap(a, b) == Overlap(b, a);
  }

  // ---------------------------------------------------------------------------
  // ROUGE-L
  // ---------------------------------------------------------------------------

  /** `c` can be obtained from `t` by deleting elements: either both end in
      the same element and the rest of `c` is a subsequence of the rest of
      `t`, or `c` is a subsequence of `t` without its last element. */
  predicate IsSubseq(c: seq<string>, t: seq<string>)
    decreases |t|
  {
    if |c| == 0 then true
    else if |t| == 0 then false
    else (c[|c| - 1] == t[|t| - 1] && IsSubseq(c[..|c| - 1], t[..|t| - 1])) || IsSubseq(c, t[..|t| - 1])
  }

  predicate IsCommonSubseq(c: seq<string>, a: seq<string>, b: seq<string>) {
    IsSubseq(c, a) && IsSubseq(c, b)
  }

  /** The length of a longest common subsequence, by the recurrence over
      prefixes that the dynamic programme fills in. */
  function Lcs(a: seq<string>, b: seq<string>): (r: nat)
    ensures r <= |a| && r <= |b|
    decreases |a| + |b|
  {
    if |a| == 0 || |b| == 0 then 0
    else if a[|a| - 1] == b[|b| - 1] then Lcs(a[..|a| - 1], b[..|b| - 1]) + 1
    else MaxNat(Lcs(a[..|a| - 1], b), Lcs(a, b[..|b| - 1]))
  }

  lemma {:induction false} SubseqLength(c: seq<string>, t: seq<string>)
    requires IsSubseq(c, t)
    ensures |c| <= |t|
    decreases |t|
  {
    if |c| > 0 {
      if c[|c| - 1] == t[|t| - 1] && IsSubseq(c[..|c| - 1], t[..|t| - 1]) {
        SubseqLength(c[..|c| - 1], t[..|t| - 1]);
      } else {
        SubseqLength(c, t[..|t| - 1]);
      }
    }
  }

  lemma SubseqExtend(c: seq<string>, t: seq<string>, x: string)
    requires IsSubseq(c, t)
    ensures IsSubseq(c, t + [x])
  {
    assert (t + [x])[..|t|] == t;
  }

  lemma SubseqSnoc(c: seq<string>, t: seq<string>, x: string)
    requires IsSubseq(c, t)
    ensures IsSubseq(c + [x], t + [x])
  {
    assert (t + [x])[..|t|] == t;
    assert (c + [x])[..|c|] == c;
  }

  lemma {:induction false} SubseqOfPrefix(c: seq<string>, t: seq<string>, q: nat)
    requires q <= |t| && IsSubseq(c, t[..q])
    ensures IsSubseq(c, t)
    decreases |t| - q
  {
    if q < |t| {
      assert t[..q + 1] == t[..q] + [t[q]];
      SubseqExtend(c, t[..q], t[q]);
      SubseqOfPrefix(c, t, q + 1);
    } else {
      assert t[..q] == t;
    }
  }

  lemma {:induction false} SubseqRefl(t: seq<string>)
    ensures IsSubseq(t, t)
  {
    if |t| > 0 {
      SubseqRefl(t[..|t| - 1]);
    }
  }

  lemma {:induction false} SubseqDropLastOfC(c: seq<string>, t: seq<string>)
    requires |c| > 0 && IsSubseq(c, t)
    ensures IsSubseq(c[..|c| - 1], t)
    decreases |t|
  {
    var t' := t[..|t| - 1];
    assert t == t' + [t[|t| - 1]];
    if c[|c| - 1] == t[|t| - 1] && IsSubseq(c[..|c| - 1], t') {
      SubseqExtend(c[..|c| - 1], t', t[|t| - 1]);
    } else {
      SubseqDropLastOfC(c, t');
      SubseqExtend(c[..|c| - 1], t', t[|t| - 1]);
    }
  }

  lemma SubseqDropLast(c: seq<string>, t: seq<string>)
    requires |c| > 0 && IsSubseq(c, t)
    ensures IsSubseq(c[..|c| - 1], t[..|t| - 1])
  {
    if !(c[|c| - 1] == t[|t| - 1] && IsSubseq(c[..|c| - 1], t[..|t| - 1])) {
      SubseqDropLastOfC(c, t[..|t| - 1]);
    }
  }

  /** No common subsequence is longer than `Lcs`. */
  lemma {:induction false} LcsUpperBound(a: seq<string>, b: seq<string>, c: seq<string>)
    requires IsCommonSubseq(c, a, b)
    ensures |c| <= Lcs(a, b)
    decreases |a| + |b|
  {
    if |c| > 0 {
      var a', b', c' := a[..|a| - 1], b[..|b| - 1], c[..|c| - 1];
      if a[|a| - 1] == b[|b| - 1] {
        SubseqDropLast(c, a);
        SubseqDropLast(c, b);
        LcsUpperBound(a', b', c');
      } else if IsSubseq(c, a') {
        LcsUpperBound(a', b, c);
      } else {
        LcsUpperBound(a, b', c);
      }
    }
  }

  /** A common subsequence of length `Lcs`, built along the recurrence. */
  function LcsWitness(a: seq<string>, b: seq<string>): (w: seq<string>)
    ensures IsCommonSubseq(w, a, b) && |w| == Lcs(a, b)
    decreases |a| + |b|
  {
    if |a| == 0 || |b| == 0 then []
    else
      var a', b' := a[..|a| - 1], b[..|b| - 1];
      assert a == a' + [a[|a| - 1]] && b == b' + [b[|b| - 1]];
      if a[|a| - 1] == b[|b| - 1] then
        var w := LcsWitness(a', b');
        SubseqSnoc(w, a', a[|a| - 1]);
        SubseqSnoc(w, b', b[|b| - 1]);
        w + [a[|a| - 1]]
      else if Lcs(a', b) >= Lcs(a, b') then
        var w := LcsWitness(a', b);
        SubseqExtend(w, a', a[|a| - 1]);
        w
      else
        var w := LcsWitness(a, b');
        SubseqExtend(w, b', b[|b| - 1]);
        w
  }

  /** `Lcs` is the length of a longest common subsequence. */
  lemma LcsIsLongest(a: seq<string>, b: seq<string>)
    ensures exists c :: IsCommonSubseq(c, a, b) && |c| == Lcs(a, b)
    ensures forall c :: IsCommonSubseq(c, a, b) ==> |c| <= Lcs(a, b)
  {
    var w := LcsWitness(a, b);
    forall c | IsCommonSubseq(c, a, b) ensures |c| <= Lcs(a, b) {
      LcsUpperBound(a, b, c);
    }
  }

  lemma LcsOfSelf(a: seq<string>)
    ensures Lcs(a, a) == |a|
  {
    SubseqRefl(a);
    LcsUpperBound(a, a, a);
  }

  lemma LcsSymmetric(a: seq<string>, b: seq<string>)
    ensures Lcs(a, b) == Lcs(b, a)
  {
    LcsUpperBound(b, a, LcsWitness(a, b));
    LcsUpperBound(a, b, LcsWitness(b, a));
  }

  /** A longer second sequence has at least as long an LCS. */
  lemma LcsPrefixMonotone(a: seq<string>, b: seq<string>, q: nat)
    requires q <= |b|
    ensures Lcs(a, b[..q]) <= Lcs(a, b)
  {
    var w := LcsWitness(a, b[..q]);
    SubseqOfPrefix(w, b, q);
    LcsUpperBound(a, b, w);
  }

  /** No cell of the last row exceeds the full LCS, which is its last cell. */
  lemma LastRowBounded(a: seq<string>, b: seq<string>)
    ensures forall q :: 0 <= q <= |b| ==> Lcs(a, b[..q]) <= Lcs(a, b)
  {
    forall q | 0 <= q <= |b| ensures Lcs(a, b[..q]) <= Lcs(a, b) {
      LcsPrefixMonotone(a, b, q);
    }
  }

  /** The recurrence at cell (i, j) of the table, stated on prefixes. */
  lemma LcsStep(a: seq<string>, b: seq<string>, i: nat, j: nat)
    requires 1 <= i <= |a| && 1 <= j <= |b|
    ensures Lcs(a[..i], b[..j]) ==
      if a[i - 1] == b[j - 1] then Lcs(a[..i - 1], b[..j - 1]) + 1
      else MaxNat(Lcs(a[..i - 1], b[..j]), Lcs(a[..i], b[..j - 1]))
  {
    assert a[..i][..i - 1] == a[..i - 1];
    assert b[..j][..j - 1] == b[..j - 1];
  }

  /** One pass of the outer loop of `lcsLength`: fills row i of the table
      (`curr`, which starts as zeros) from row i - 1 (`prev`). */
  method FillRow(a: seq<string>, b: seq<string>, i: nat, prev: array<nat>, curr: array<nat>)
    requires 1 <= i <= |a|
    requires prev.Length == |b| + 1 && curr.Length == |b| + 1 && prev != curr
    requires forall k :: 0 <= k <= |b| ==> prev[k] == Lcs(a[..i - 1], b[..k])
    requires curr[0] == 0
    modifies curr
    ensures forall k :: 0 <= k <= |b| ==> curr[k] == Lcs(a[..i], b[..k])
  {
    var n := |b|;
    var j := 1;
    while j <= n
      invariant 1 <= j <= n + 1
      invariant forall k :: 0 <= k < j ==> curr[k] == Lcs(a[..i], b[..k])
    {
      LcsStep(a, b, i, j);
      if a[i - 1] == b[j - 1] {
        curr[j] := prev[j - 1] + 1;
      } else {
        curr[j] := MaxNat(prev[j], curr[j - 1]);
      }
      j := j + 1;
    }
  }

  /** `row.reduce((max, v) => Math.max(max, v), 0)` */
  method RowMax(row: array<nat>) returns (r: nat)
    ensures forall k :: 0 <= k < row.Length ==> row[k] <= r
    ensures r == 0 || exists k :: 0 <= k < row.Length && row[k] == r
  {
    r := 0;
    for k := 0 to row.Length
      invariant forall q :: 0 <= q < k ==> row[q] <= r
      invariant r == 0 || exists q :: 0 <= q < k && row[q] == r
    {
      r := MaxNat(r, row[k]);
    }
  }

  /** `lcsLength`: the two-row dynamic programme, `prev` holding row i - 1
      and `curr` row i, then the maximum over the last row. */
  method LcsLength(a: seq<string>, b: seq<string>) returns (r: nat)
    ensures r == Lcs(a, b)
    ensures exists c :: IsCommonSubseq(c, a, b) && |c| == r
    ensures forall c :: IsCommonSubseq(c, a, b) ==> |c| <= r
  {
    var m, n := |a|, |b|;
    var prev := new nat[n + 1](_ => 0);
    var curr := new nat[n + 1](_ => 0);
    var i := 1;
    while i <= m
      invariant 1 <= i <= m + 1
      invariant prev.Length == n + 1 && curr.Length == n + 1 && prev != curr && fresh(curr)
      invariant forall k :: 0 <= k <= n ==> prev[k] == Lcs(a[..i - 1], b[..k])
      invariant curr[0] == 0
    {
      FillRow(a, b, i, prev, curr);
      prev, curr := curr, new nat[n + 1](_ => 0);
      i := i + 1;
    }
    assert a[..m] == a;
    r := RowMax(prev);
    LastRowBounded(a, b);
    assert b[..n] == b;
    LcsIsLongest(a, b);
  }

  /** `computeRougeL` as a value: zero when either side has no token, else the
      LCS over the hypothesis tokens (precision) and over the reference
      tokens (recall). */
  function RougeLScore(reference: string, hypothesis: string): (s: Score)
    ensures InUnitRange(s)
    ensures Tokenize(reference) == [] || Tokenize(hypothesis) == [] ==> s == Zero
  {
    var refTokens := Tokenize(reference);
    var hypTokens := Tokenize(hypothesis);
    if |refTokens| == 0 || |hypTokens| == 0 then Zero
    else Ratios(Lcs(refTokens, hypTokens), |hypTokens|, |refTokens|)
  }

  /** `computeRougeL(reference, hypothesis)` */
  method ComputeRougeL(reference: string, hypothesis: string) returns (s: Score)
    ensures s == RougeLScore(reference, hypothesis)
  {
    var refTokens := Tokenize(reference);
    var hypTokens := Tokenize(hypothesis);
    if |refTokens| == 0 || |hypTokens| == 0 {
      return Zero;
    }
    var lcs := LcsLength(refTokens, hypTokens);
    s := Ratios(lcs, |hypTokens|, |refTokens|);
  }

  lemma RougeLOfSelf(text: string)
    requires Tokenize(text) != []
    ensures RougeLScore(text, text) == Score(1.0, 1.0, 1.0)
  {
    LcsOfSelf(Tokenize(text));
  }

  lemma RougeLSwap(reference: string, hypothesis: string)
    ensures var s, t := RougeLScore(reference, hypothesis), RougeLScore(hypothesis, reference);
            t.precision == s.recall && t.recall == s.precision && t.f1 == s.f1
  {
    LcsSymmetric(Tokenize(reference), Tokenize(hypothesis));
  }

  /** `computeRougeScores`: ROUGE-1, ROUGE-2 and ROUGE-L of the same pair. */
  method ComputeRougeScores(reference: string, hypothesis: string) returns (scores: RougeScores)
    ensures scores == RougeScores(NgramScore(reference, hypothesis, 1),
                                  NgramScore(reference, hypothesis, 2),
                                  RougeLScore(reference, hypothesis))
    ensures InUnitRange(scores.rouge1) && InUnitRange(scores.rouge2) && InUnitRange(scores.rougeL)
  {
    var r1 := ComputeNgramScore(reference, hypothesis, 1);
    var r2 := ComputeNgramScore(reference, hypothesis, 2);
    var rl := ComputeRougeL(reference, hypothesis);
    scores := RougeScores(r1, r2, rl);
  }
}
