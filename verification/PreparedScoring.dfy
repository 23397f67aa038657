/** The perceptron as a scoring function of three words, over shared and private banks of prepared words. */
module PreparedScoring {
  import opened Common
  import opened Lattices
  import opened FeatureScratchTable
  import opened TrigramFeatures
  import opened FeatureKeys

  // ----- the perceptron of a compressed model

  /** Features are weighed and fingerprinted by their text. */
  function Perceptron(model: LossyModel): PerceptronModel
    requires model.Valid()
  {
    PerceptronModel((view: FeatureView) => model.Weight(Utf16Of(Key(view))), (view: FeatureView) => JavaHash(Utf16Of(Key(view))))
  }

  /** The scoring function the decoders are run with. */
  ghost function Scorer(model: PerceptronModel): Trigram {
    (w1: WordFeatures, w2: WordFeatures, w3: WordFeatures) => TrigramScore(model, w1, w2, w3)
  }

  /** Prepares one feature: two streamed hashes and a lookup, without building its text. */
  method PrepareFeature(model: LossyModel, view: FeatureView, identity: nat) returns (f: Feature)
    requires model.Valid()
    ensures f == Perceptron(model).Prepare(view, identity)
  {
    hide Mphf, JavaHash, Utf16Of, Key;
    var initial, java := ViewHashes(view);
    var weight := model.GetVirtual(view, initial, java);
    return Feature(identity, java, weight);
  }

  // ----- banks of prepared words, by signature

  /** Signatures above this one, the boundary words' among them, never enter a bank. */
  const MAX_BANK_SIGNATURE: nat := 2_000_000

  /** Filled entries hold what their signature's word prepares to; `offset` is the signature of the first entry. */
  ghost predicate Faithful(model: PerceptronModel, features: nat -> WordFeatures, entries: seq<Option<PreparedWord>>, offset: nat) {
    forall i :: 0 <= i < |entries| && entries[i].Some? ==> entries[i].value == PrepareWord(model, features(offset + i))
  }

  /** A bank that all workers share, for one model and one meaning of signatures. Every entry is filled at most once. */
  class SharedPreparedWords {
    ghost const model: PerceptronModel
    ghost const features: nat -> WordFeatures
    var entries: seq<Option<PreparedWord>>

    ghost predicate Valid()
      reads this
    {
      Faithful(model, features, entries, 0)
    }

    constructor (slots: nat, ghost model: PerceptronModel, ghost features: nat -> WordFeatures)
      ensures Valid() && this.model == model && this.features == features
      ensures entries == seq(slots, _ => None)
    {
      this.model, this.features := model, features;
      entries := seq(slots, _ => None);
    }

    method Ensure(index: nat, perceptron: PerceptronModel, word: WordFeatures) returns (ok: bool)
      requires Valid() && perceptron == model && features(index) == word
      modifies this
      ensures Valid() && ok == (index < |old(entries)|)
      ensures entries == if ok then old(entries)[index := Some(PrepareWord(model, word))] else old(entries)
    {
      hide PrepareWord;
      if index >= |entries| {
        return false;
      }
      if entries[index].None? {
        entries := entries[index := Some(PrepareWord(perceptron, word))];
      }
      return true;
    }
  }

  datatype Location = Shared(index: nat) | Private(index: nat)

  /** The prepared words one worker sees: the shared bank first, its private entries behind it. */
  class PreparedWords {
    ghost const model: PerceptronModel
    ghost const features: nat -> WordFeatures
    var shared: SharedPreparedWords?
    var entries: seq<Option<PreparedWord>>

    function Slots(): nat
      reads this, shared
    {
      if shared == null then 0 else |shared.entries|
    }

    ghost predicate Valid()
      reads this, shared
    {
      && (shared != null ==> shared.Valid() && shared.model == model && shared.features == features)
      && Faithful(model, features, entries, Slots())
    }

    function At(location: Location): Option<PreparedWord>
      reads this, shared
    {
      match location
      case Shared(index) => if shared != null && index < |shared.entries| then shared.entries[index] else None
      case Private(index) => if index < |entries| then entries[index] else None
    }

    constructor (ghost model: PerceptronModel, ghost features: nat -> WordFeatures)
      ensures Valid() && this.model == model && this.features == features
      ensures shared == null && entries == []
    {
      this.model, this.features := model, features;
      shared, entries := null, [];
    }

    /** Private entries belong to one bank, so they are dropped with it. */
    method SetShared(bank: SharedPreparedWords)
      requires bank.Valid() && bank.model == model && bank.features == features
      modifies this
      ensures Valid() && shared == bank && entries == []
    {
      shared, entries := bank, [];
    }

    /** Forgets the private entries; the bank belongs to all workers and stays. */
    method Clear()
      requires Valid()
      modifies this`entries
      ensures Valid() && entries == seq(|old(entries)|, _ => None)
    {
      entries := seq(|entries|, _ => None);
    }

    /** Prepares the word of a signature unless a bank holds it, and says where it is.
        Whatever was prepared before stays where it was. */
    method EnsurePreparedWord(signature: nat, perceptron: PerceptronModel, word: WordFeatures) returns (location: Option<Location>)
      requires Valid() && perceptron == model && (signature <= MAX_BANK_SIGNATURE ==> features(signature) == word)
      modifies this`entries, shared
      ensures Valid() && shared == old(shared) && Slots() == old(Slots())
      ensures location.None? <==> signature > MAX_BANK_SIGNATURE
      ensures location.Some? ==> At(location.value) == Some(PrepareWord(model, word))
      ensures forall l :: old(At(l)).Some? ==> At(l) == old(At(l))
    {
      hide PrepareWord;
      if signature > MAX_BANK_SIGNATURE {
        return None;
      }
      var index := signature;
      if shared != null {
        if signature < |shared.entries| {
          var _ := shared.Ensure(signature, perceptron, word);
          return Some(Shared(signature));
        }
        index := signature - |shared.entries|;
      }
      if |entries| <= index {
        entries := entries + seq(index + 1 - |entries|, _ => None);
      }
      if entries[index].None? {
        entries := entries[index := Some(PrepareWord(perceptron, word))];
      }
      return Some(Private(index));
    }
  }

  /** The signatures of the lattice that may key a bank name the features of their words. */
  ghost predicate SignaturesName(lattice: Lattice, features: nat -> WordFeatures)
    requires lattice.Valid()
  {
    lattice.codes.Some? ==>
      forall i :: 0 <= i < |lattice.words| && lattice.codes.value[i].signature <= MAX_BANK_SIGNATURE ==>
        features(lattice.codes.value[i].signature) == lattice.words[i].features
  }

  // ----- what one sentence prepares

  /** Prepared pairs between two neighbouring tokens, row by the earlier word. */
  datatype PairLayer = PairLayer(previousBase: nat, currentBase: nat, currentCount: nat, pairs: seq<Option<PreparedPair>>) {
    function Slot(previous: nat, current: nat): int {
      (previous - previousBase) * currentCount + (current - currentBase)
    }
  }

  ghost predicate LayerFits(lattice: Lattice, model: PerceptronModel, t: nat, layer: PairLayer)
    requires lattice.Valid() && t <= lattice.Tokens()
  {
    && layer.previousBase == PreviousStart(lattice, t) && layer.currentBase == CurrentBase(lattice, t)
    && layer.currentBase + layer.currentCount == CurrentEnd(lattice, t)
    && |layer.pairs| == PreviousCount(lattice, t) * layer.currentCount
    && forall p: nat, c: nat :: InPairLayer(lattice, t, p, c) ==> PairFits(lattice, model, layer, p, c)
  }

  ghost predicate PairFits(lattice: Lattice, model: PerceptronModel, layer: PairLayer, p: nat, c: nat) {
    && 0 <= layer.Slot(p, c) < |layer.pairs| && p < |lattice.words| && c < |lattice.words|
    && (layer.pairs[layer.Slot(p, c)].Some? ==>
          layer.pairs[layer.Slot(p, c)].value == PreparePair(model, lattice.words[p].features, lattice.words[c].features))
  }

  lemma NewLayerFits(lattice: Lattice, model: PerceptronModel, t: nat, layer: PairLayer)
    requires lattice.Valid() && t <= lattice.Tokens()
    requires layer.previousBase == PreviousStart(lattice, t) && layer.currentBase == CurrentBase(lattice, t)
    requires layer.currentBase + layer.currentCount == CurrentEnd(lattice, t)
    requires |layer.pairs| == PreviousCount(lattice, t) * layer.currentCount
    requires forall k :: 0 <= k < |layer.pairs| ==> layer.pairs[k].None?
    ensures LayerFits(lattice, model, t, layer)
  {
    hide PreparePair;
    forall p: nat, c: nat | InPairLayer(lattice, t, p, c)
      ensures PairFits(lattice, model, layer, p, c)
    {
      LayerInRange(lattice, t, p, c);
      RowMajorRange(p - layer.previousBase, PreviousCount(lattice, t), c - layer.currentBase, layer.currentCount);
    }
  }

  /** Different pairs of a layer have different slots, so filling one touches no other. */
  lemma FilledLayerFits(lattice: Lattice, model: PerceptronModel, t: nat, layer: PairLayer, p: nat, c: nat)
    requires lattice.Valid() && t <= lattice.Tokens() && LayerFits(lattice, model, t, layer) && InPairLayer(lattice, t, p, c)
    ensures 0 <= layer.Slot(p, c) < |layer.pairs| && p < |lattice.words| && c < |lattice.words|
    ensures var pair := PreparePair(model, lattice.words[p].features, lattice.words[c].features);
            LayerFits(lattice, model, t, layer.(pairs := layer.pairs[layer.Slot(p, c) := Some(pair)]))
  {
    hide PreparePair;
    assert PairFits(lattice, model, layer, p, c);
    var pair := PreparePair(model, lattice.words[p].features, lattice.words[c].features);
    var filled := layer.(pairs := layer.pairs[layer.Slot(p, c) := Some(pair)]);
    forall p': nat, c': nat | InPairLayer(lattice, t, p', c')
      ensures PairFits(lattice, model, filled, p', c')
    {
      assert PairFits(lattice, model, layer, p', c');
      if layer.Slot(p', c') == layer.Slot(p, c) {
        RowMajorInjective(p - layer.previousBase, c - layer.currentBase, p' - layer.previousBase, c' - layer.currentBase,
                          layer.currentCount);
      }
    }
  }

  /** Words and pairs prepared while one sentence is decoded. */
  class PreparedSentence {
    var words: seq<Option<PreparedWord>>
    var layers: seq<PairLayer>

    ghost predicate Valid(lattice: Lattice, model: PerceptronModel)
      reads this
      requires lattice.Valid()
    {
      && |words| == |lattice.words| && |layers| == lattice.Tokens() + 1
      && (forall i :: 0 <= i < |words| && words[i].Some? ==> words[i].value == PrepareWord(model, lattice.words[i].features))
      && (forall t :: 0 <= t < |layers| ==> LayerFits(lattice, model, t, layers[t]))
    }

    constructor (lattice: Lattice, ghost model: PerceptronModel)
      requires lattice.Valid()
      ensures Valid(lattice, model)
    {
      hide PrepareWord, LayerFits;
      words := seq(|lattice.words|, _ => None);
      var built: seq<PairLayer> := [];
      for t := 0 to lattice.Tokens() + 1
        invariant |built| == t && forall u :: 0 <= u < t ==> LayerFits(lattice, model, u, built[u])
      {
        BoundsAscend(lattice, t);
        var count: nat := CurrentEnd(lattice, t) - CurrentBase(lattice, t);
        var layer := PairLayer(PreviousStart(lattice, t), CurrentBase(lattice, t), count, seq(PreviousCount(lattice, t) * count, _ => None));
        NewLayerFits(lattice, model, t, layer);
        built := built + [layer];
      }
      layers := built;
    }

    method EnsureWord(lattice: Lattice, model: PerceptronModel, index: nat)
      requires lattice.Valid() && Valid(lattice, model) && index < |lattice.words|
      modifies this`words
      ensures Valid(lattice, model)
      ensures words == old(words)[index := Some(PrepareWord(model, lattice.words[index].features))]
    {
      hide PrepareWord, LayerFits;
      if words[index].None? {
        words := words[index := Some(PrepareWord(model, lattice.words[index].features))];
      }
    }

    method EnsurePair(lattice: Lattice, model: PerceptronModel, t: nat, previous: nat, current: nat) returns (slot: nat)
      requires lattice.Valid() && Valid(lattice, model) && t <= lattice.Tokens() && InPairLayer(lattice, t, previous, current)
      modifies this`layers
      ensures Valid(lattice, model) && slot < |layers[t].pairs|
      ensures previous < |lattice.words| && current < |lattice.words|
      ensures layers[t].pairs[slot] == Some(PreparePair(model, lattice.words[previous].features, lattice.words[current].features))
    {
      hide PrepareWord, PreparePair;
      var layer := layers[t];
      assert LayerFits(lattice, model, t, layer);
      assert PairFits(lattice, model, layer, previous, current);
      FilledLayerFits(lattice, model, t, layer, previous, current);
      slot := layer.Slot(previous, current);
      if layer.pairs[slot].None? {
        var pair := PreparePair(model, lattice.words[previous].features, lattice.words[current].features);
        layers := layers[t := layer.(pairs := layer.pairs[slot := Some(pair)])];
      }
    }
  }

  lemma BoundsAscend(lattice: Lattice, t: nat)
    requires lattice.Valid() && t <= lattice.Tokens()
    ensures 0 <= PreviousStart(lattice, t) && 0 < PreviousCount(lattice, t) && CurrentBase(lattice, t) < CurrentEnd(lattice, t)
  {
  }

  // ----- scoring

  /** What scoring by prepared parts works on: the banks of the worker with the shared one behind them, the tables
      of the sentence, and the scratch table of the features. */
  datatype Parts = Parts(model: PerceptronModel, banks: PreparedWords?, shared: SharedPreparedWords?, sentence: PreparedSentence,
                         scratch: FeatureScratch)

  ghost function PartsFootprint(p: Parts): set<object> {
    {p.sentence, p.scratch} + (if p.banks == null then {} else {p.banks}) + (if p.shared == null then {} else {p.shared})
  }

  /** The perceptron scores the lattice, and the groups of every word fit the identities reserved for them. */
  ghost predicate ScoredBy(lattice: Lattice, model: PerceptronModel) {
    lattice.trigram == Scorer(model) && forall i :: 0 <= i < |lattice.words| ==> FewGroups(lattice.words[i].features)
  }

  ghost predicate BanksReady(lattice: Lattice, p: Parts)
    reads PartsFootprint(p)
    requires lattice.Valid()
  {
    p.banks != null ==>
      p.banks.shared == p.shared && p.banks.Valid() && p.banks.model == p.model && SignaturesName(lattice, p.banks.features)
  }

  ghost predicate PartsReady(lattice: Lattice, p: Parts)
    reads PartsFootprint(p)
    requires lattice.Valid()
  {
    ScoredBy(lattice, p.model) && p.sentence.Valid(lattice, p.model) && p.scratch.Valid() && BanksReady(lattice, p)
  }

  /** Where the banks hold the three words; nothing unless they can hold all of them. */
  method Prepare(lattice: Lattice, p: Parts, first: nat, second: nat, third: nat)
    returns (prepared: Option<(PreparedWord, PreparedWord, PreparedWord)>)
    requires lattice.Valid() && lattice.codes.Some? && first < |lattice.words| && second < |lattice.words| && third < |lattice.words|
    requires p.banks != null && BanksReady(lattice, p)
    modifies p.banks, p.shared
    ensures BanksReady(lattice, p)
    ensures prepared.Some? ==>
              prepared.value == (PrepareWord(p.model, lattice.words[first].features), PrepareWord(p.model, lattice.words[second].features),
                                 PrepareWord(p.model, lattice.words[third].features))
  {
    hide PrepareWord, PreparedWords.Valid;
    var codes, banks := lattice.codes.value, p.banks;
    var one := banks.EnsurePreparedWord(codes[first].signature, p.model, lattice.words[first].features);
    var two := banks.EnsurePreparedWord(codes[second].signature, p.model, lattice.words[second].features);
    var three := banks.EnsurePreparedWord(codes[third].signature, p.model, lattice.words[third].features);
    if one.None? || two.None? || three.None? {
      return None;
    }
    return Some((banks.At(one.value).value, banks.At(two.value).value, banks.At(three.value).value));
  }

  /** Scores a trigram from prepared parts: words from the banks when these can hold all three, otherwise words of
      this sentence. Whatever was prepared before, by this worker or another, the score is the trigram's. */
  method ScoreUncached(lattice: Lattice, p: Parts, t: nat, first: nat, second: nat, third: nat) returns (score: real)
    requires lattice.Valid() && PartsReady(lattice, p) && t <= lattice.Tokens()
    requires first < |lattice.words| && InPairLayer(lattice, t, second, third)
    modifies PartsFootprint(p)
    ensures PartsReady(lattice, p)
    ensures second < |lattice.words| && third < |lattice.words| && score == lattice.Score(first, second, third)
  {
    hide PrepareWord, PreparePair, TrigramScore, FeatureScratch.Valid, LayerFits, PreparedWords.Valid, SignaturesName, InPairLayer;
    var slot := p.sentence.EnsurePair(lattice, p.model, t, second, third);
    var w1, w2, w3 := lattice.words[first].features, lattice.words[second].features, lattice.words[third].features;
    assert lattice.Score(first, second, third) == TrigramScore(p.model, w1, w2, w3);
    var pair := p.sentence.layers[t].pairs[slot].value;
    if p.banks != null && lattice.codes.Some? {
      var prepared := Prepare(lattice, p, first, second, third);
      if prepared.Some? {
        var (p1, p2, p3) := prepared.value;
        score := ScorePrepared(p.model, w1, w2, w3, p1, p2, p3, pair, p.scratch);
        return;
      }
    }
    p.sentence.EnsureWord(lattice, p.model, first);
    p.sentence.EnsureWord(lattice, p.model, second);
    p.sentence.EnsureWord(lattice, p.model, third);
    var words := p.sentence.words;
    score := ScorePrepared(p.model, w1, w2, w3, words[first].value, words[second].value, words[third].value, pair, p.scratch);
  }
}
