/** `computeNgramScore` as the server writes it: the n-gram counts are kept
    in plain JavaScript objects (`{}`), and a read of a missing property of
    such an object falls back to `Object.prototype`.  An n-gram that names an
    inherited property (for lower-case tokens: `constructor` and
    `__proto__`) is miscounted.  `Rouge.NgramScore` is the intended
    dictionary semantics; the two agree whenever no such n-gram occurs. */
module RougeObjects {
  import opened Strings
  import Rouge

  /** The property names every plain object inherits from `Object.prototype`. */
  const PrototypeKeys: set<string> := {
    "constructor", "__proto__", "__defineGetter__", "__defineSetter__",
    "__lookupGetter__", "__lookupSetter__", "hasOwnProperty", "isPrototypeOf",
    "propertyIsEnumerable", "toString", "toLocaleString", "valueOf"
  }

  /** What a property read of a count object yields: nothing, a count, a
      string (a function or an object with `1` appended to its text), or an
      inherited function or object. */
  datatype Value = Undefined | Count(n: nat) | Text | Inherited

  /** A plain object: its own properties. */
  type Object = map<string, Value>

  /** `obj[key]`: the own property, else what `Object.prototype` provides. */
  function Get(obj: Object, key: string): (v: Value)
    ensures key in obj ==> v == obj[key]
    ensures key !in obj ==> (v == Inherited <==> key in PrototypeKeys)
    ensures key !in obj ==> (v == Undefined <==> key !in PrototypeKeys)
  {
    if key in obj then obj[key] else if key in PrototypeKeys then Inherited else Undefined
  }

  /** `(v || 0) + 1`: `undefined` counts as 0, a number goes up by one, and
      anything else is turned into a string that `1` is appended to. */
  function Bump(v: Value): (r: Value)
    ensures v.Undefined? ==> r == Count(1)
    ensures v.Count? ==> r == Count(v.n + 1)
    ensures v.Text? || v.Inherited? ==> r == Text
  {
    match v
    case Undefined => Count(1)
    case Count(n) => Count(n + 1)
    case Text => Text
    case Inherited => Text
  }

  /** `obj[key] = v` for a primitive `v`: the `__proto__` setter ignores a
      primitive, so that key is never stored. */
  function Put(obj: Object, key: string, v: Value): (r: Object)
    ensures key == "__proto__" ==> r == obj
    ensures key != "__proto__" ==> r == obj[key := v]
  {
    if key == "__proto__" then obj else obj[key := v]
  }

  /** `ngrams.forEach(ng => { obj[ng] = (obj[ng] || 0) + 1; })` on `{}`. */
  function CountInto(ngrams: seq<string>): Object
    decreases |ngrams|
  {
    if ngrams == [] then map[]
    else
      var obj := CountInto(ngrams[..|ngrams| - 1]);
      var g := ngrams[|ngrams| - 1];
      Put(obj, g, Bump(Get(obj, g)))
  }

  /** `Object.keys` of the counted object: each stored n-gram once, in the
      order first seen (the order does not affect the sum below). */
  function OwnKeys(ngrams: seq<string>): seq<string>
    decreases |ngrams|
  {
    if ngrams == [] then []
    else
      var ks := OwnKeys(ngrams[..|ngrams| - 1]);
      var g := ngrams[|ngrams| - 1];
      if g == "__proto__" || g in ks then ks else ks + [g]
  }

  /** A JavaScript number: NaN or a real value. */
  datatype Num = NaN | Real(value: real)

  /** `Number(v)` of a property value: only a count is a number. */
  function ToNumber(v: Value): (r: Num)
    ensures r.Real? <==> v.Count?
  {
    if v.Count? then Real(v.n as real) else NaN
  }

  /** Whether `if (v)` takes the branch. */
  predicate Truthy(v: Value) {
    !v.Undefined? && v != Count(0)
  }

  /** `Math.min(a, b)` */
  function MinNum(a: Num, b: Num): (r: Num)
    ensures r.Real? <==> a.Real? && b.Real?
  {
    if a.Real? && b.Real? then Real(Rouge.Min(a.value, b.value)) else NaN
  }

  /** `a + b` */
  function AddNum(a: Num, b: Num): (r: Num)
    ensures r.Real? <==> a.Real? && b.Real?
  {
    if a.Real? && b.Real? then Real(a.value + b.value) else NaN
  }

  /** `a / d` for a positive length `d`. */
  function DivNum(a: Num, d: nat): (r: Num)
    requires d > 0
    ensures r.Real? <==> a.Real?
  {
    if a.Real? then Real(a.value / d as real) else NaN
  }

  /** The overlap loop over `keys`: for each key the reference object holds
      a truthy value for, add the smaller of the two values. */
  function OverlapOver(refObj: Object, hypObj: Object, keys: seq<string>): Num
    decreases |keys|
  {
    if keys == [] then Real(0.0)
    else
      var acc := OverlapOver(refObj, hypObj, keys[..|keys| - 1]);
      var g := keys[|keys| - 1];
      if Truthy(Get(refObj, g)) then AddNum(acc, MinNum(ToNumber(Get(hypObj, g)), ToNumber(Get(refObj, g))))
      else acc
  }

  /** Precision, recall and F1 before rounding. */
  datatype JsScore = JsScore(precision: Num, recall: Num, f1: Num)

  /** `precision + recall > 0 ? 2 * precision * recall / (precision + recall) : 0`,
      where a comparison with NaN is false. */
  function F1Num(p: Num, r: Num): (f: Num)
    ensures f.Real?
    ensures !(p.Real? && r.Real?) ==> f == Real(0.0)
  {
    if p.Real? && r.Real? && p.value + r.value > 0.0 then Real(Rouge.F1(p.value, r.value)) else Real(0.0)
  }

  /** `computeNgramScore` on the two n-gram lists, as written. */
  function ScoreAsWritten(refNgrams: seq<string>, hypNgrams: seq<string>): JsScore {
    if |refNgrams| == 0 || |hypNgrams| == 0 then JsScore(Real(0.0), Real(0.0), Real(0.0))
    else
      var overlap := OverlapOver(CountInto(refNgrams), CountInto(hypNgrams), OwnKeys(hypNgrams));
      var p := DivNum(overlap, |hypNgrams|);
      var r := DivNum(overlap, |refNgrams|);
      JsScore(p, r, F1Num(p, r))
  }

  /** `computeNgramScore(reference, hypothesis, n)` as written. */
  function NgramScoreAsWritten(reference: string, hypothesis: string, n: nat): JsScore {
    ScoreAsWritten(Rouge.Ngrams(Rouge.Tokenize(reference), n), Rouge.Ngrams(Rouge.Tokenize(hypothesis), n))
  }

  /** A score of exact ratios as JavaScript numbers. */
  function Lift(s: Rouge.Score): (r: JsScore)
    ensures r.precision.Real? && r.recall.Real? && r.f1.Real?
  {
    JsScore(Real(s.precision), Real(s.recall), Real(s.f1))
  }

  // ---------------------------------------------------------------------------
  // Where the two agree
  // ---------------------------------------------------------------------------

  predicate NoPrototypeKey(ngrams: seq<string>) {
    forall i :: 0 <= i < |ngrams| ==> ngrams[i] !in PrototypeKeys
  }

  /** Without inherited names, the object holds exactly the n-grams, each
      with the number of times it occurs. */
  lemma {:induction false} CountIntoCounts(ngrams: seq<string>)
    requires NoPrototypeKey(ngrams)
    ensures forall g :: g in CountInto(ngrams) <==> g in ngrams
    ensures forall g :: g in CountInto(ngrams) ==> CountInto(ngrams)[g] == Count(multiset(ngrams)[g])
    decreases |ngrams|
  {
    if ngrams != [] {
      var front := ngrams[..|ngrams| - 1];
      var g := ngrams[|ngrams| - 1];
      CountIntoCounts(front);
      assert ngrams == front + [g];
      assert g != "__proto__";
    }
  }

  /** Without `__proto__`, the own keys are the distinct n-grams. */
  lemma {:induction false} OwnKeysDistinct(ngrams: seq<string>)
    requires NoPrototypeKey(ngrams)
    ensures forall g :: g in OwnKeys(ngrams) <==> g in ngrams
    ensures forall i, j :: 0 <= i < j < |OwnKeys(ngrams)| ==> OwnKeys(ngrams)[i] != OwnKeys(ngrams)[j]
    decreases |ngrams|
  {
    if ngrams != [] {
      var front := ngrams[..|ngrams| - 1];
      OwnKeysDistinct(front);
      assert ngrams == front + [ngrams[|ngrams| - 1]];
      assert ngrams[|ngrams| - 1] != "__proto__";
    }
  }

  /** The multiset holding, for each of `keys`, all its copies in `h`. */
  function Restrict(h: multiset<string>, keys: seq<string>): multiset<string>
    decreases |keys|
  {
    if keys == [] then multiset{} else Restrict(h, keys[..|keys| - 1])[keys[|keys| - 1] := h[keys[|keys| - 1]]]
  }

  lemma {:induction false} RestrictCount(h: multiset<string>, keys: seq<string>, g: string)
    ensures Restrict(h, keys)[g] == if g in keys then h[g] else 0
    decreases |keys|
  {
    if keys != [] {
      RestrictCount(h, keys[..|keys| - 1], g);
      assert keys == keys[..|keys| - 1] + [keys[|keys| - 1]];
    }
  }

  /** Summed over distinct keys, the loop adds up the clipped counts. */
  lemma {:induction false} OverlapOverSum(refNgrams: seq<string>, hypNgrams: seq<string>, keys: seq<string>)
    requires NoPrototypeKey(refNgrams) && NoPrototypeKey(hypNgrams)
    requires forall i, j :: 0 <= i < j < |keys| ==> keys[i] != keys[j]
    requires forall i :: 0 <= i < |keys| ==> keys[i] in hypNgrams
    ensures OverlapOver(CountInto(refNgrams), CountInto(hypNgrams), keys)
            == Real(|Restrict(multiset(hypNgrams), keys) * multiset(refNgrams)| as real)
    decreases |keys|
  {
    if keys != [] {
      var h, r := multiset(hypNgrams), multiset(refNgrams);
      var front := keys[..|keys| - 1];
      var g := keys[|keys| - 1];
      OverlapOverSum(refNgrams, hypNgrams, front);
      CountIntoCounts(refNgrams);
      CountIntoCounts(hypNgrams);
      RestrictCount(h, front, g);
      Rouge.IntersectionStep(Restrict(h, front), r, g, h[g]);
      assert g !in PrototypeKeys;
      assert Get(CountInto(hypNgrams), g) == Count(h[g]);
      if g in refNgrams {
        assert Get(CountInto(refNgrams), g) == Count(r[g]);
      } else {
        assert r[g] == 0;
      }
    }
  }

  /** The keys visited are all of the hypothesis n-grams. */
  lemma RestrictAll(hypNgrams: seq<string>)
    requires NoPrototypeKey(hypNgrams)
    ensures Restrict(multiset(hypNgrams), OwnKeys(hypNgrams)) == multiset(hypNgrams)
  {
    OwnKeysDistinct(hypNgrams);
    forall g ensures Restrict(multiset(hypNgrams), OwnKeys(hypNgrams))[g] == multiset(hypNgrams)[g] {
      RestrictCount(multiset(hypNgrams), OwnKeys(hypNgrams), g);
    }
  }

  /** When no n-gram names an inherited property, the code as written
      computes the dictionary score of `Rouge.NgramScore`. */
  lemma ScoreAsWrittenAgrees(refNgrams: seq<string>, hypNgrams: seq<string>)
    requires NoPrototypeKey(refNgrams) && NoPrototypeKey(hypNgrams)
    requires |refNgrams| > 0 && |hypNgrams| > 0
    ensures ScoreAsWritten(refNgrams, hypNgrams)
            == Lift(Rouge.Ratios(Rouge.Overlap(refNgrams, hypNgrams), |hypNgrams|, |refNgrams|))
  {
    OwnKeysDistinct(hypNgrams);
    OverlapOverSum(refNgrams, hypNgrams, OwnKeys(hypNgrams));
    RestrictAll(hypNgrams);
  }

  lemma NgramScoreAsWrittenAgrees(reference: string, hypothesis: string, n: nat)
    requires NoPrototypeKey(Rouge.Ngrams(Rouge.Tokenize(reference), n))
    requires NoPrototypeKey(Rouge.Ngrams(Rouge.Tokenize(hypothesis), n))
    ensures NgramScoreAsWritten(reference, hypothesis, n) == Lift(Rouge.NgramScore(reference, hypothesis, n))
  {
    var a, b := Rouge.Ngrams(Rouge.Tokenize(reference), n), Rouge.Ngrams(Rouge.Tokenize(hypothesis), n);
    if |a| > 0 && |b| > 0 {
      ScoreAsWrittenAgrees(a, b);
    }
  }

  /** Bigrams and longer n-grams hold a space, which no inherited name does:
      only ROUGE-1 can meet an inherited name. */
  lemma LongNgramsNotInherited(tokens: seq<string>, n: nat)
    requires n >= 2
    ensures NoPrototypeKey(Rouge.Ngrams(tokens, n))
  {
    var g := Rouge.Ngrams(tokens, n);
    PrototypeKeysHaveNoSpace();
    forall i | 0 <= i < |g| ensures g[i] !in PrototypeKeys {
      var parts := tokens[i..i + n];
      assert g[i] == parts[0] + " " + Join(parts[1..], " ");
      assert g[i][|parts[0]|] == ' ';
    }
  }

  lemma PrototypeKeysHaveNoSpace()
    ensures forall k :: k in PrototypeKeys ==> ' ' !in k
  {
  }

  // ---------------------------------------------------------------------------
  // Where they differ
  // ---------------------------------------------------------------------------

  /** Reference "a constructor", hypothesis "constructor": as written, the
      precision and recall are NaN and F1 is 0; the dictionary counts give
      1, 1/2 and 2/3. */
  lemma ConstructorScoresNaN()
    ensures NgramScoreAsWritten("a constructor", "constructor", 1) == JsScore(NaN, NaN, Real(0.0))
    ensures Rouge.NgramScore("a constructor", "constructor", 1) == Rouge.Score(1.0, 0.5, 2.0 / 3.0)
  {
    var ref, hyp := ["a", "constructor"], ["constructor"];
    ExampleTokens();
    ConstructorOverlap();
    assert multiset(hyp) * multiset(ref) == multiset(hyp);
  }

  lemma ConstructorOverlap()
    ensures ScoreAsWritten(["a", "constructor"], ["constructor"]) == JsScore(NaN, NaN, Real(0.0))
  {
    var ref, hyp := ["a", "constructor"], ["constructor"];
    assert "a" !in PrototypeKeys;
    assert CountInto(ref)["constructor"] == Text;
    assert OwnKeys(hyp) == ["constructor"];
  }

  /** The texts of the examples and their tokens. */
  lemma ExampleTokens()
    ensures Rouge.Tokenize("a constructor") == ["a", "constructor"]
    ensures Rouge.Tokenize("constructor") == ["constructor"]
    ensures Rouge.Tokenize("a") == ["a"]
    ensures Rouge.Ngrams(["a", "constructor"], 1) == ["a", "constructor"]
    ensures Rouge.Ngrams(["constructor"], 1) == ["constructor"]
    ensures Rouge.Ngrams(["a"], 1) == ["a"]
  {
    TwoTokens();
    LiteralTokens();
    OneToken("constructor");
    OneToken("a");
  }

  lemma TwoTokens()
    ensures Rouge.Tokenize("a constructor") == ["a", "constructor"]
    ensures Rouge.Ngrams(["a", "constructor"], 1) == ["a", "constructor"]
  {
    LiteralTokens();
    PairTokens("a", "constructor");
    assert "a" + " " + "constructor" == "a constructor";
  }

  lemma PairTokens(a: string, b: string)
    requires Rouge.IsToken(a) && Rouge.IsToken(b)
    ensures Rouge.Tokenize(a + " " + b) == [a, b]
    ensures Rouge.Ngrams([a, b], 1) == [a, b]
  {
    var ts := [a, b];
    assert ts[1..] == [b];
    assert Join(ts, " ") == a + " " + b;
    SingleTokens(ts);
  }

  lemma LiteralTokens()
    ensures Rouge.IsToken("a") && Rouge.IsToken("constructor") && Rouge.IsToken("__proto__")
  {
  }

  lemma OneToken(t: string)
    requires Rouge.IsToken(t)
    ensures Rouge.Tokenize(t) == [t]
    ensures Rouge.Ngrams([t], 1) == [t]
  {
    SingleTokens([t]);
    assert Join([t], " ") == t;
  }

  /** The n-gram `__proto__` is never stored, so a text made of it scores
      0 against itself as written, where the dictionary score is 1. */
  lemma ProtoNeverCounted()
    ensures NgramScoreAsWritten("__proto__", "__proto__", 1) == JsScore(Real(0.0), Real(0.0), Real(0.0))
    ensures Rouge.NgramScore("__proto__", "__proto__", 1) == Rouge.Score(1.0, 1.0, 1.0)
  {
    LiteralTokens();
    OneToken("__proto__");
    assert CountInto(["__proto__"]) == map[];
    assert OwnKeys(["__proto__"]) == [];
    Rouge.NgramScoreOfSelf("__proto__", 1);
  }

  /** As written, exchanging reference and hypothesis does not exchange
      precision and recall: reference "a" and hypothesis "constructor" give
      NaN, the other way round 0. */
  lemma AsWrittenNotSymmetric()
    ensures NgramScoreAsWritten("a", "constructor", 1) == JsScore(NaN, NaN, Real(0.0))
    ensures NgramScoreAsWritten("constructor", "a", 1) == JsScore(Real(0.0), Real(0.0), Real(0.0))
  {
    LiteralTokens();
    OneToken("a");
    OneToken("constructor");
    InheritedRead();
    UnknownRead();
  }

  lemma InheritedRead()
    ensures ScoreAsWritten(["a"], ["constructor"]) == JsScore(NaN, NaN, Real(0.0))
  {
    assert "a" !in PrototypeKeys;
    assert OwnKeys(["constructor"]) == ["constructor"];
  }

  lemma UnknownRead()
    ensures ScoreAsWritten(["constructor"], ["a"]) == JsScore(Real(0.0), Real(0.0), Real(0.0))
  {
    assert "a" !in PrototypeKeys;
    assert OwnKeys(["a"]) == ["a"];
  }

  /** Texts of tokens separated by single spaces tokenize to those tokens,
      and their unigrams are the tokens. */
  lemma SingleTokens(ts: seq<string>)
    requires forall i :: 0 <= i < |ts| ==> Rouge.IsToken(ts[i])
    ensures Rouge.Tokenize(Join(ts, " ")) == ts
    ensures Rouge.Ngrams(ts, 1) == ts
  {
    Rouge.TokenizeOfJoin(ts);
    Unigrams(ts);
  }

  lemma Unigrams(ts: seq<string>)
    ensures Rouge.Ngrams(ts, 1) == ts
  {
    var g := Rouge.Ngrams(ts, 1);
    assert |g| == |ts|;
    forall i | 0 <= i < |ts| ensures g[i] == ts[i] {
      assert ts[i..i + 1] == [ts[i]];
      assert Join([ts[i]], " ") == ts[i];
    }
  }
}
