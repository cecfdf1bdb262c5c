/**
  * The two components together: the records a search returns, pooled and handed to the engine as
  * dictionaries, always carry the fields the engine looks up.
  */
module Pipeline {
  import opened Wrappers
  import Scraper
  import opened Similarity

  /** The candidate dictionaries of a pool of search records. */
  function Dicts(records: seq<Scraper.Record>): (ds: seq<Candidate>)
    ensures |ds| == |records| && forall k | 0 <= k < |records| :: ds[k] == Scraper.AsDict(records[k])
  {
    seq(|records|, k requires 0 <= k < |records| => Scraper.AsDict(records[k]))
  }

  /**
    * Ranking a pool of search records never raises `KeyError` (only the vectorizer's empty
    * vocabulary can fail), and every recommendation is one of the pooled records.
    */
  lemma RankScrapedPool(queryTerms: seq<string>, records: seq<Scraper.Record>, topK: int,
                        cosine: seq<string> -> Option<seq<real>>, argsort: seq<real> -> seq<int>)
    requires IsScorer(cosine) && IsArgsorter(argsort)
    ensures var result := Rank(queryTerms, Dicts(records), topK, cosine, argsort);
      && (result.Failure? ==> result.error == EmptyVocabulary)
      && (result.Success? ==> forall k | 0 <= k < |result.value| ::
            Scraper.Record(result.value[k].term, result.value[k].id, result.value[k].url) in records)
  {
    var candidates := Dicts(records);
    var result := Rank(queryTerms, candidates, topK, cosine, argsort);
    assert forall k | 0 <= k < |candidates| :: MissingField(candidates[k]).None?;
    if queryTerms != [] && candidates != [] {
      assert Corpus(queryTerms, candidates).Success?;
      var corpus := Corpus(queryTerms, candidates).value;
      if cosine(corpus).Some? {
        var scores := cosine(corpus).value;
        var top := TopIndices(argsort(scores), topK);
        TopIndicesSelect(argsort(scores), scores, topK);
        assert result.Success?;
        RankSelects(queryTerms, candidates, topK, cosine, argsort);
        forall k | 0 <= k < |result.value|
          ensures Scraper.Record(result.value[k].term, result.value[k].id, result.value[k].url) in records
        {
          assert Scraper.Record(result.value[k].term, result.value[k].id, result.value[k].url) == records[top[k]];
        }
      }
    }
  }
}
