/** Sentences decoded with the perceptron of a compressed model, over banks of prepared words and a score cache. */
module PerceptronDecoder {
  import opened Common
  import opened Lattices
  import opened FeatureScratchTable
  import opened TrigramFeatures
  import opened FeatureKeys
  import opened TransitionCache
  import opened PreparedScoring
  import opened CachedScoring
  import opened ActiveTable
  import opened HashDecoder
  import opened DenseDecoder
  import opened Sentences

  /** The total of a choice, spelled out in features of the compressed model. */
  ghost function PerceptronTotal(s: Sentence, model: LossyModel, selected: seq<nat>, n: nat): real
    requires model.Valid()
  {
    if n == 0 then
      FeatureSum(Direct(Perceptron(model), s.FeaturesAt(selected, |selected| - 2), s.FeaturesAt(selected, |selected| - 1), s.end.features))
    else
      PerceptronTotal(s, model, selected, n - 1)
      + FeatureSum(Direct(Perceptron(model), s.FeaturesAt(selected, n - 3), s.FeaturesAt(selected, n - 2), s.FeaturesAt(selected, n - 1)))
  }

  lemma {:induction false} TotalByFeatures(s: Sentence, model: LossyModel, selected: seq<nat>, n: nat)
    requires model.Valid() && s.trigram == Scorer(Perceptron(model))
    ensures PerceptronTotal(s, model, selected, n) ==
            s.ChosenScore(selected, n)
            + s.trigram(s.FeaturesAt(selected, |selected| - 2), s.FeaturesAt(selected, |selected| - 1), s.end.features)
  {
    hide Perceptron, FeatureSum, Direct, Sentence.FeaturesAt;
    if n > 0 {
      TotalByFeatures(s, model, selected, n - 1);
    }
  }

  /** Interned codes name their words, boundary words included. */
  lemma InternedSignaturesName(s: Sentence, m: Meaning)
    requires s.Acceptable() && Flattened(s).Valid() && Interned(s, m)
    ensures SignaturesName(Flattened(s), m.features)
  {
    hide Concat, Starts;
    var l := Flattened(s);
    FlattenedIsValid(s);
    forall i | 0 <= i < |l.words| && l.codes.value[i].signature <= MAX_BANK_SIGNATURE
      ensures m.features(l.codes.value[i].signature) == l.words[i].features
    {
      if i >= 2 {
        var t, j := CandidateOfWord(s, i);
      }
    }
  }

  ghost function BanksFootprint(banks: PreparedWords?): set<object>
    reads banks
  {
    if banks == null then {} else if banks.shared == null then {banks} else {banks, banks.shared}
  }

  /** What a worker carries from sentence to sentence: a cache and banks for one model and one meaning of signatures. */
  ghost predicate Carried(cache: TrigramScoreCache?, banks: PreparedWords?, model: PerceptronModel, m: Meaning)
    reads CacheFootprint(cache), BanksFootprint(banks)
  {
    && (cache != null ==> cache.Valid() && cache.meaning == m)
    && (banks != null ==> banks.Valid() && banks.model == model && banks.features == m.features)
  }

  /** No word has more groups than the identities of its features can tell apart. */
  ghost predicate HasFewGroups(s: Sentence) {
    && FewGroups(s.begin.features) && FewGroups(s.end.features)
    && forall t, j :: 0 <= t < |s.candidates| && 0 <= j < |s.candidates[t]| ==> FewGroups(s.candidates[t][j].features)
  }

  lemma FlattenedIsScored(s: Sentence, model: PerceptronModel)
    requires s.Acceptable() && Flattened(s).Valid() && s.trigram == Scorer(model) && HasFewGroups(s)
    ensures ScoredBy(Flattened(s), model)
  {
    hide Concat, Starts, Scorer;
    var l := Flattened(s);
    FlattenedIsValid(s);
    forall i | 0 <= i < |l.words|
      ensures FewGroups(l.words[i].features)
    {
      if i >= 2 {
        var t, j := CandidateOfWord(s, i);
      }
    }
  }

  /** Everything the decoders need: what the worker carries, and fresh tables for the sentence. */
  lemma PartsAreReady(s: Sentence, cache: TrigramScoreCache?, p: Parts, m: Meaning)
    requires s.Acceptable() && Flattened(s).Valid() && s.trigram == Scorer(p.model) && HasFewGroups(s)
    requires Carried(cache, p.banks, p.model, m) && (cache != null || p.banks != null ==> Interned(s, m))
    requires p.banks != null ==> p.shared == p.banks.shared
    requires p.sentence.Valid(Flattened(s), p.model) && p.scratch.Valid()
    ensures Ready(Flattened(s), Workspace(cache, Some(p)))
  {
    hide Flattened, Interned, Compatible, TrigramScoreCache.Valid, PreparedWords.Valid, PreparedSentence.Valid, FeatureScratch.Valid, HasFewGroups,
      SignaturesName, ScoredBy, Sentence.Acceptable;
    FlattenedIsScored(s, p.model);
    if cache != null || p.banks != null {
      InternedIsCompatible(s, m);
      InternedSignaturesName(s, m);
    }
  }

  /**
   * Disambiguates a sentence with the perceptron, scoring through the cache and the banks: an unacceptable sentence is
   * refused, and for any other no choice has a higher sum of feature weights than the one returned.
   */
  method Disambiguate(s: Sentence, model: LossyModel, cache: TrigramScoreCache?, banks: PreparedWords?, first: ActiveHypotheses,
                      second: ActiveHypotheses, capacity: nat, forceHash: bool, ghost m: Meaning)
    returns (r: Option<seq<nat>>)
    requires model.Valid() && s.trigram == Scorer(Perceptron(model)) && HasFewGroups(s)
    requires s.Acceptable() ==> s.Consistent()
    requires Carried(cache, banks, Perceptron(model), m)
    requires s.Acceptable() && (cache != null || banks != null) ==> Interned(s, m)
    requires first != second && first.Reusable() && second.Reusable()
    modifies first, second, CacheFootprint(cache), BanksFootprint(banks)
    ensures Carried(cache, banks, Perceptron(model), m) && first.Reusable() && second.Reusable()
    ensures r.Some? <==> s.Acceptable()
    ensures r.Some? ==> s.Choice(r.value) && forall other :: s.Choice(other) ==>
              PerceptronTotal(s, model, other, |other|) <= PerceptronTotal(s, model, r.value, |r.value|)
  {
    hide Perceptron, Flattened, Lattice.Consistent, Sentence.Consistent, Lattice.Valid, ActiveHypotheses.Reusable, Sentence.Acceptable, Optimal,
      Sentence.Choice, Sentence.Best, Interned, TrigramScoreCache.Valid, PreparedWords.Valid, HasFewGroups, PerceptronTotal, CacheReady,
      PreparedSentence.Valid, FeatureScratch.Valid, ScoredBy, SignaturesName, Scorer;
    var lattice := Flatten(s);
    if lattice.None? {
      return None;
    }
    FlattenedIsValid(s);
    FlattenedIsConsistent(s);
    var perceptron := Perceptron(model);
    var sentence := new PreparedSentence(lattice.value, perceptron);
    var scratch := new FeatureScratch();
    var parts := Parts(perceptron, banks, if banks == null then null else banks.shared, sentence, scratch);
    PartsAreReady(s, cache, parts, m);
    var selected := Decode(lattice.value, Workspace(cache, Some(parts)), first, second, capacity, forceHash);
    CacheKept(lattice.value, cache);
    OptimalIsBest(s, selected);
    BestByFeatures(s, model, selected);
    return Some(selected);
  }

  lemma BestByFeatures(s: Sentence, model: LossyModel, selected: seq<nat>)
    requires model.Valid() && s.trigram == Scorer(Perceptron(model)) && s.Best(selected)
    ensures s.Choice(selected) && forall other :: s.Choice(other) ==>
              PerceptronTotal(s, model, other, |other|) <= PerceptronTotal(s, model, selected, |selected|)
  {
    hide Perceptron, Scorer, Sentence.ChosenScore, Sentence.FeaturesAt, Sentence.Choice, PerceptronTotal;
    TotalByFeatures(s, model, selected, |selected|);
    forall other | s.Choice(other)
      ensures PerceptronTotal(s, model, other, |other|) <= PerceptronTotal(s, model, selected, |selected|)
    {
      TotalByFeatures(s, model, other, |other|);
      assert s.TotalScore(other) <= s.TotalScore(selected);
    }
  }
}
