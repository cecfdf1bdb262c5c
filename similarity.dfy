/**
  * The similarity engine (`SimilarityEngine.compute_similarities`): the empty-input guard, the
  * corpus handed to the vectorizer, the top-k selection over the similarity scores, and the
  * recommendations built from the selected candidates.
  *
  * TF-IDF vectorisation and cosine similarity are not modelled: they are a scorer function from
  * the corpus to one score per candidate (or to the `ValueError` an empty vocabulary raises).
  * `numpy.argsort` is an argsorter function whose only promise is an ascending order, so the order
  * among equal scores is left open.
  */
module Similarity {
  import opened Wrappers
  import opened PyStr

  /** A candidate as the engine receives it: a dictionary from field names to strings. */
  type Candidate = map<string, string>

  /** A recommended heading: the candidate's fields and its similarity to the query. */
  datatype Recommendation = Recommendation(term: string, id: string, url: string, similarityScore: real)

  /** What a call can raise: a missing dictionary key, or the vectorizer's empty-vocabulary `ValueError`. */
  datatype Error = KeyError(key: string) | EmptyVocabulary

  // ---------------------------------------------------------------------------------------
  // The corpus
  // ---------------------------------------------------------------------------------------

  /** `[c["term"] for c in candidates]`: `KeyError` as soon as one candidate has no term. */
  function CandidateTerms(candidates: seq<Candidate>): (r: Result<seq<string>, Error>)
    ensures r.Success? <==> forall k | 0 <= k < |candidates| :: "term" in candidates[k]
    ensures r.Success? ==> |r.value| == |candidates|
    ensures r.Success? ==> forall k | 0 <= k < |candidates| :: r.value[k] == candidates[k]["term"]
    ensures r.Failure? ==> r.error == KeyError("term")
  {
    if candidates == [] then Success([])
    else if "term" !in candidates[0] then Failure(KeyError("term"))
    else match CandidateTerms(candidates[1..])
      case Failure(e) => Failure(e)
      case Success(rest) => Success([candidates[0]["term"]] + rest)
  }

  /** `[" ".join(query_terms)] + candidate_terms`: row 0 is the query, row `k + 1` is candidate `k`. */
  function Corpus(queryTerms: seq<string>, candidates: seq<Candidate>): (r: Result<seq<string>, Error>)
    ensures r.Success? <==> forall k | 0 <= k < |candidates| :: "term" in candidates[k]
    ensures r.Success? ==> |r.value| == |candidates| + 1 && r.value[0] == Join(queryTerms)
    ensures r.Success? ==> forall k | 0 <= k < |candidates| :: r.value[k + 1] == candidates[k]["term"]
    ensures r.Failure? ==> r.error == KeyError("term")
  {
    match CandidateTerms(candidates)
    case Failure(e) => Failure(e)
    case Success(terms) => Success([Join(queryTerms)] + terms)
  }

  // ---------------------------------------------------------------------------------------
  // Scores and their order
  // ---------------------------------------------------------------------------------------

  predicate InUnitInterval(scores: seq<real>) {
    forall k | 0 <= k < |scores| :: 0.0 <= scores[k] <= 1.0
  }

  /**
    * `fit_transform` followed by `cosine_similarity(query_vector, candidate_vectors)[0]`: for a
    * corpus it can fit, one score in [0, 1] per candidate row; `None` is the empty vocabulary.
    */
  ghost predicate IsScorer(cosine: seq<string> -> Option<seq<real>>) {
    forall corpus: seq<string> {:trigger cosine(corpus)} ::
      |corpus| >= 1 && cosine(corpus).Some? ==>
        |cosine(corpus).value| == |corpus| - 1 && InUnitInterval(cosine(corpus).value)
  }

  /** `order` lists every index of `scores` once, in non-decreasing order of score. */
  predicate IsArgsort(order: seq<int>, scores: seq<real>) {
    && |order| == |scores|
    && InRange(order, |scores|)
    && (forall i | 0 <= i < |scores| :: i in order)
    && Distinct(order)
    && Ascending(order, scores)
  }

  /** `numpy.argsort`: some ascending argsort of every score vector; which one among ties is not fixed. */
  ghost predicate IsArgsorter(argsort: seq<real> -> seq<int>) {
    forall scores: seq<real> {:trigger argsort(scores)} :: IsArgsort(argsort(scores), scores)
  }

  predicate InRange(order: seq<int>, n: nat) {
    forall k | 0 <= k < |order| :: 0 <= order[k] < n
  }

  predicate Ascending(order: seq<int>, scores: seq<real>)
    requires InRange(order, |scores|)
  {
    forall a, b | 0 <= a < b < |order| :: scores[order[a]] <= scores[order[b]]
  }

  predicate Distinct(order: seq<int>) {
    forall a, b | 0 <= a < b < |order| :: order[a] != order[b]
  }

  /** Inserts index `i` into `order` before the first index whose score is not below `i`'s. */
  function InsertByScore(order: seq<int>, i: int, scores: seq<real>): (r: seq<int>)
    requires 0 <= i < |scores| && InRange(order, |scores|)
    ensures |r| == |order| + 1
    ensures forall x :: x in r <==> x == i || x in order
    ensures InRange(r, |scores|)
    decreases |order|
  {
    if order == [] then [i]
    else if scores[i] <= scores[order[0]] then [i] + order
    else
      var rest := InsertByScore(order[1..], i, scores);
      assert forall k | 0 <= k < |rest| :: rest[k] in rest;
      [order[0]] + rest
  }

  lemma {:induction false} InsertAscending(order: seq<int>, i: int, scores: seq<real>)
    requires 0 <= i < |scores| && InRange(order, |scores|) && Ascending(order, scores)
    ensures Ascending(InsertByScore(order, i, scores), scores)
    decreases |order|
  {
    if order != [] {
      if scores[i] <= scores[order[0]] {
        assert forall k | 0 < k < |order| :: scores[order[0]] <= scores[order[k]];
      } else {
        var tail := order[1..];
        InsertAscending(tail, i, scores);
        var rest := InsertByScore(tail, i, scores);
        forall x | x in rest ensures scores[order[0]] <= scores[x] {
          if x != i {
            var k :| 0 <= k < |tail| && tail[k] == x;
            assert order[k + 1] == x;
          }
        }
        var r := [order[0]] + rest;
        assert forall k | 0 < k < |r| :: r[k] == rest[k - 1] && rest[k - 1] in rest;
      }
    }
  }

  lemma {:induction false} InsertDistinct(order: seq<int>, i: int, scores: seq<real>)
    requires 0 <= i < |scores| && InRange(order, |scores|) && Distinct(order) && i !in order
    ensures Distinct(InsertByScore(order, i, scores))
    decreases |order|
  {
    if order != [] && scores[i] > scores[order[0]] {
      var tail := order[1..];
      assert forall x | x in tail :: x in order;
      InsertDistinct(tail, i, scores);
      var rest := InsertByScore(tail, i, scores);
      assert forall k | 0 <= k < |tail| :: tail[k] == order[k + 1];
      assert order[0] !in tail && order[0] != i;
      var r := [order[0]] + rest;
      assert forall k | 0 < k < |r| :: r[k] == rest[k - 1] && rest[k - 1] in rest;
    }
  }

  /**
    * An ascending argsort of the first `n` scores, by insertion. Each index goes in front of the
    * equal scores already placed, so among ties the later index comes first.
    */
  function InsertionArgsort(scores: seq<real>, n: nat): (r: seq<int>)
    requires n <= |scores|
    ensures |r| == n && InRange(r, n) && InRange(r, |scores|) && Distinct(r) && Ascending(r, scores)
    ensures forall i | 0 <= i < n :: i in r
  {
    if n == 0 then []
    else
      var order := InsertionArgsort(scores, n - 1);
      assert forall k | 0 <= k < |order| :: order[k] in order;
      var r := InsertByScore(order, n - 1, scores);
      InsertAscending(order, n - 1, scores);
      InsertDistinct(order, n - 1, scores);
      assert forall k | 0 <= k < |r| :: r[k] in r;
      r
  }

  /** An argsorter exists, so `IsArgsorter` asks nothing that `numpy.argsort` cannot give. */
  lemma ArgsorterExists()
    ensures IsArgsorter(scores => InsertionArgsort(scores, |scores|))
  {
  }

  // ---------------------------------------------------------------------------------------
  // Top-k selection
  // ---------------------------------------------------------------------------------------

  /** Where the slice `a[-top_k:]` starts in an array of length `n`. */
  function SliceStart(n: nat, topK: int): (s: nat)
    ensures s <= n
  {
    var start := -topK;
    if start < 0 then (if n + start < 0 then 0 else n + start)
    else if start > n then n else start
  }

  /** `s[::-1]`. */
  function Reverse<T>(s: seq<T>): (r: seq<T>)
    ensures |r| == |s| && forall k | 0 <= k < |s| :: r[k] == s[|s| - 1 - k]
  {
    if s == [] then [] else Reverse(s[1..]) + [s[0]]
  }

  /** `argsort(similarities)[-top_k:][::-1]`. */
  function TopIndices(order: seq<int>, topK: int): seq<int> {
    Reverse(order[SliceStart(|order|, topK)..])
  }

  /**
    * How many of `n` candidates a call returns: `top_k` of them (all when fewer), all of them when
    * `top_k` is zero, and all but the `-top_k` lowest when it is negative.
    */
  function SelectedCount(n: nat, topK: int): nat {
    if topK > 0 then (if topK < n then topK else n)
    else if topK == 0 then n
    else if n + topK > 0 then n + topK else 0
  }

  /**
    * The selected indices: `SelectedCount` of them, distinct, in non-increasing order of score, and
    * no index left out scores higher than any index selected.
    */
  lemma TopIndicesSelect(order: seq<int>, scores: seq<real>, topK: int)
    requires IsArgsort(order, scores)
    ensures var top := TopIndices(order, topK);
      && |top| == SelectedCount(|scores|, topK)
      && (forall k | 0 <= k < |top| :: 0 <= top[k] < |scores|)
      && (forall a, b | 0 <= a < b < |top| :: top[a] != top[b])
      && (forall a, b | 0 <= a < b < |top| :: scores[top[a]] >= scores[top[b]])
      && (forall i, k | 0 <= i < |scores| && i !in top && 0 <= k < |top| :: scores[i] <= scores[top[k]])
  {
    var n := |scores|;
    var st := SliceStart(n, topK);
    var top := TopIndices(order, topK);
    assert forall k | 0 <= k < |top| :: top[k] == order[n - 1 - k];
    assert forall p | st <= p < n :: top[n - 1 - p] == order[p];
    forall i, k | 0 <= i < n && i !in top && 0 <= k < |top| ensures scores[i] <= scores[top[k]] {
      assert i in order;
      var p :| 0 <= p < n && order[p] == i;
      assert p < st;
    }
  }

  // ---------------------------------------------------------------------------------------
  // Results
  // ---------------------------------------------------------------------------------------

  /** The first of `term`, `id`, `url` the candidate lacks, in the order the result dictionary reads them. */
  function MissingField(c: Candidate): (f: Option<string>)
    ensures f == Some("term") <==> "term" !in c
    ensures f == Some("id") <==> "term" in c && "id" !in c
    ensures f == Some("url") <==> "term" in c && "id" in c && "url" !in c
    ensures f.None? <==> "term" in c && "id" in c && "url" in c
  {
    if "term" !in c then Some("term")
    else if "id" !in c then Some("id")
    else if "url" !in c then Some("url")
    else None
  }

  /**
    * The result list for the selected indices, in their order: each candidate's term, id and url
    * with its own score, or the `KeyError` of the first selected candidate missing a field.
    */
  function BuildResults(candidates: seq<Candidate>, scores: seq<real>, top: seq<int>): (r: Result<seq<Recommendation>, Error>)
    requires |scores| == |candidates|
    requires forall k | 0 <= k < |top| :: 0 <= top[k] < |candidates|
    ensures r.Success? <==> forall k | 0 <= k < |top| :: MissingField(candidates[top[k]]).None?
    ensures r.Success? ==> |r.value| == |top| && forall k | 0 <= k < |top| ::
      var c := candidates[top[k]];
      r.value[k] == Recommendation(c["term"], c["id"], c["url"], scores[top[k]])
    ensures r.Failure? ==> r.error.KeyError? && exists k | 0 <= k < |top| ::
      MissingField(candidates[top[k]]) == Some(r.error.key)
      && forall j | 0 <= j < k :: MissingField(candidates[top[j]]).None?
  {
    if top == [] then Success([])
    else
      var c := candidates[top[0]];
      match MissingField(c)
      case Some(f) => Failure(KeyError(f))
      case None =>
        match BuildResults(candidates, scores, top[1..])
        case Failure(e) =>
          FailureShifts(candidates, top, e.key);
          Failure(e)
        case Success(rest) =>
          Success([Recommendation(c["term"], c["id"], c["url"], scores[top[0]])] + rest)
  }

  lemma FailureShifts(candidates: seq<Candidate>, top: seq<int>, key: string)
    requires top != [] && forall k | 0 <= k < |top| :: 0 <= top[k] < |candidates|
    requires MissingField(candidates[top[0]]).None?
    requires exists k | 0 <= k < |top| - 1 ::
      MissingField(candidates[top[1..][k]]) == Some(key)
      && forall j | 0 <= j < k :: MissingField(candidates[top[1..][j]]).None?
    ensures exists k | 0 <= k < |top| ::
      MissingField(candidates[top[k]]) == Some(key)
      && forall j | 0 <= j < k :: MissingField(candidates[top[j]]).None?
  {
    var k :| 0 <= k < |top| - 1 && MissingField(candidates[top[1..][k]]) == Some(key)
      && forall j | 0 <= j < k :: MissingField(candidates[top[1..][j]]).None?;
    assert forall j | 1 <= j < k + 1 :: top[j] == top[1..][j - 1];
  }

  /** What `compute_similarities` returns or raises. */
  function Rank(queryTerms: seq<string>, candidates: seq<Candidate>, topK: int,
                cosine: seq<string> -> Option<seq<real>>, argsort: seq<real> -> seq<int>): (r: Result<seq<Recommendation>, Error>)
    requires IsScorer(cosine) && IsArgsorter(argsort)
    ensures queryTerms == [] || candidates == [] ==> r == Success([])
  {
    if queryTerms == [] || candidates == [] then Success([])
    else match Corpus(queryTerms, candidates)
      case Failure(e) => Failure(e)
      case Success(corpus) =>
        match cosine(corpus)
        case None => Failure(EmptyVocabulary)
        case Some(scores) =>
          var order := argsort(scores);
          BuildResults(candidates, scores, TopIndices(order, topK))
  }

  /**
    * A successful ranking of non-empty inputs returns `SelectedCount` recommendations in
    * non-increasing score order, each scored in [0, 1] and taken from a distinct candidate, which
    * outscores every candidate left out.
    */
  lemma RankSelects(queryTerms: seq<string>, candidates: seq<Candidate>, topK: int,
                    cosine: seq<string> -> Option<seq<real>>, argsort: seq<real> -> seq<int>)
    requires IsScorer(cosine) && IsArgsorter(argsort)
    requires queryTerms != [] && candidates != []
    requires Rank(queryTerms, candidates, topK, cosine, argsort).Success?
    ensures var r := Rank(queryTerms, candidates, topK, cosine, argsort).value;
      && |r| == SelectedCount(|candidates|, topK)
      && (forall a, b | 0 <= a < b < |r| :: r[a].similarityScore >= r[b].similarityScore)
      && (forall k | 0 <= k < |r| :: 0.0 <= r[k].similarityScore <= 1.0)
    ensures var corpus := Corpus(queryTerms, candidates).value;
      var scores := cosine(corpus).value;
      var top := TopIndices(argsort(scores), topK);
      var r := Rank(queryTerms, candidates, topK, cosine, argsort).value;
      && |scores| == |candidates| && |top| == |r|
      && (forall a, b | 0 <= a < b < |top| :: top[a] != top[b])
      && (forall k | 0 <= k < |top| :: 0 <= top[k] < |candidates|
            && r[k] == Recommendation(candidates[top[k]]["term"], candidates[top[k]]["id"],
                                      candidates[top[k]]["url"], scores[top[k]]))
      && (forall i, k | 0 <= i < |candidates| && i !in top && 0 <= k < |top| :: scores[i] <= r[k].similarityScore)
  {
    var corpus := Corpus(queryTerms, candidates).value;
    var scores := cosine(corpus).value;
    var order := argsort(scores);
    TopIndicesSelect(order, scores, topK);
  }

  // ---------------------------------------------------------------------------------------
  // The engine
  // ---------------------------------------------------------------------------------------

  /** The result of a lookup loop: the recommendations built so far in front of what the rest yields. */
  function PrependTo(done: seq<Recommendation>, rest: Result<seq<Recommendation>, Error>): Result<seq<Recommendation>, Error> {
    match rest
    case Success(v) => Success(done + v)
    case Failure(e) => Failure(e)
  }

  lemma PrependNothing(r: Result<seq<Recommendation>, Error>)
    ensures PrependTo([], r) == r
  {
    if r.Success? { assert [] + r.value == r.value; }
  }

  lemma PrependTwice(done: seq<Recommendation>, rec: Recommendation, rest: Result<seq<Recommendation>, Error>)
    ensures PrependTo(done, PrependTo([rec], rest)) == PrependTo(done + [rec], rest)
  {
    if rest.Success? { assert done + ([rec] + rest.value) == (done + [rec]) + rest.value; }
  }

  /** One iteration of the lookup loop, seen from position `k` of the selected indices. */
  lemma BuildStep(candidates: seq<Candidate>, scores: seq<real>, top: seq<int>, k: nat)
    requires |scores| == |candidates| && k < |top|
    requires forall j | 0 <= j < |top| :: 0 <= top[j] < |candidates|
    ensures var c := candidates[top[k]];
      BuildResults(candidates, scores, top[k..]) == match MissingField(c)
        case Some(f) => Failure(KeyError(f))
        case None => PrependTo([Recommendation(c["term"], c["id"], c["url"], scores[top[k]])],
                               BuildResults(candidates, scores, top[k + 1..]))
  {
    assert top[k..][0] == top[k] && top[k..][1..] == top[k + 1..];
  }

  class SimilarityEngine {
    /** The corpus the vectorizer was last fitted on, if any. */
    var fittedOn: Option<seq<string>>

    constructor ()
      ensures fittedOn == None
    {
      fittedOn := None;
    }

    /**
      * Ranks the candidates against the joined query terms; the vectorizer is refitted on the
      * corpus of every call that gets that far.
      */
    method ComputeSimilarities(queryTerms: seq<string>, candidates: seq<Candidate>, topK: int,
                               cosine: seq<string> -> Option<seq<real>>, argsort: seq<real> -> seq<int>)
      returns (results: Result<seq<Recommendation>, Error>)
      requires IsScorer(cosine) && IsArgsorter(argsort)
      modifies this
      ensures results == Rank(queryTerms, candidates, topK, cosine, argsort)
      ensures fittedOn == if queryTerms != [] && candidates != [] && Corpus(queryTerms, candidates).Success?
                          && cosine(Corpus(queryTerms, candidates).value).Some?
                          then Some(Corpus(queryTerms, candidates).value) else old(fittedOn)
    {
      if queryTerms == [] || candidates == [] {
        return Success([]);
      }
      var queryText := Join(queryTerms);
      var candidateTerms := CandidateTerms(candidates);
      if candidateTerms.Failure? {
        return Failure(candidateTerms.error);
      }
      var allTexts := [queryText] + candidateTerms.value;
      var similarities := cosine(allTexts);
      if similarities.None? {
        return Failure(EmptyVocabulary);
      }
      fittedOn := Some(allTexts);
      var scores := similarities.value;
      var topIndices := TopIndices(argsort(scores), topK);
      TopIndicesSelect(argsort(scores), scores, topK);
      ghost var expected := BuildResults(candidates, scores, topIndices);
      assert Corpus(queryTerms, candidates) == Success(allTexts);
      assert expected == Rank(queryTerms, candidates, topK, cosine, argsort);
      var recs: seq<Recommendation> := [];
      assert topIndices[0..] == topIndices;
      PrependNothing(expected);
      var k := 0;
      while k < |topIndices|
        invariant 0 <= k <= |topIndices|
        invariant PrependTo(recs, BuildResults(candidates, scores, topIndices[k..])) == expected
        invariant fittedOn == Some(allTexts)
        invariant expected == Rank(queryTerms, candidates, topK, cosine, argsort)
      {
        var idx := topIndices[k];
        var candidate := candidates[idx];
        BuildStep(candidates, scores, topIndices, k);
        assert "term" in candidate;
        if "id" !in candidate {
          return Failure(KeyError("id"));
        }
        if "url" !in candidate {
          return Failure(KeyError("url"));
        }
        var rec := Recommendation(candidate["term"], candidate["id"], candidate["url"], scores[idx]);
        PrependTwice(recs, rec, BuildResults(candidates, scores, topIndices[k + 1..]));
        recs := recs + [rec];
        k := k + 1;
      }
      assert topIndices[k..] == [];
      assert recs + [] == recs;
      return Success(recs);
    }
  }
}
