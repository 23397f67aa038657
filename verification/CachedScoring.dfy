/** Scoring one transition of the decoder through the persistent cache and, on a miss, from prepared parts. */
module CachedScoring {
  import opened Common
  import opened Lattices
  import opened TransitionCache
  import opened FeatureScratchTable
  import opened PreparedScoring

  ghost function CacheFootprint(cache: TrigramScoreCache?): set<object> {
    if cache == null then {} else {cache, cache.overflow}
  }

  /** Equal cacheable signatures mean equal features, across every sentence the cache ever sees. */
  ghost predicate Compatible(lattice: Lattice, m: Meaning)
    requires lattice.Valid()
  {
    && lattice.trigram == m.trigram
    && (lattice.codes.Some? ==>
          forall i :: 0 <= i < |lattice.words| && lattice.codes.value[i].cacheSignature <= SIGNATURE_MASK ==>
                        m.features(lattice.codes.value[i].cacheSignature) == lattice.words[i].features)
  }

  /** A cache is only ever used together with scoring codes. */
  ghost predicate CacheReady(lattice: Lattice, cache: TrigramScoreCache?)
    reads CacheFootprint(cache)
    requires lattice.Valid()
  {
    cache != null ==> cache.Valid() && lattice.codes.Some? && Compatible(lattice, cache.meaning)
  }

  /** The pairs named by the rows of a cache; none without a cache. */
  ghost function CacheOwners(cache: TrigramScoreCache?): seq<nat>
    reads CacheFootprint(cache)
  {
    if cache == null then [] else cache.owners
  }

  /** A row carried next to a pair of words is absent or exactly the row of that pair. */
  ghost predicate RowFits(lattice: Lattice, owners: seq<nat>, first: nat, second: nat, row: Option<nat>)
    requires lattice.Valid() && first < |lattice.words| && second < |lattice.words|
  {
    row.Some? ==>
      && lattice.codes.Some?
      && lattice.codes.value[first].cacheSignature <= SIGNATURE_MASK
      && lattice.codes.value[second].cacheSignature <= SIGNATURE_MASK
      && row.value < |owners|
      && owners[row.value] ==
         PackPair(lattice.codes.value[first].cacheSignature, lattice.codes.value[second].cacheSignature)
  }

  function KeyOf(lattice: Lattice, first: nat, second: nat, third: nat): Option<nat>
    requires first < |lattice.words| && second < |lattice.words| && third < |lattice.words|
    requires lattice.codes.Some? ==> |lattice.codes.value| == |lattice.words|
  {
    if lattice.codes.None? then None
    else TrigramKey(lattice.codes.value[first].cacheSignature, lattice.codes.value[second].cacheSignature,
                    lattice.codes.value[third].cacheSignature)
  }

  lemma KeyParts(lattice: Lattice, first: nat, second: nat, third: nat)
    requires lattice.Valid() && first < |lattice.words| && second < |lattice.words| && third < |lattice.words|
    requires KeyOf(lattice, first, second, third).Some?
    ensures var key, codes := KeyOf(lattice, first, second, third).value, lattice.codes.value;
            && key % PAIR == PackPair(codes[first].cacheSignature, codes[second].cacheSignature)
            && (key / SIG) % PAIR == PackPair(codes[second].cacheSignature, codes[third].cacheSignature)
            && key / PAIR == codes[third].cacheSignature
            && (key / PAIR) % SIG == codes[third].cacheSignature
            && key == key % PAIR + (key / PAIR) * PAIR
    ensures var pair := KeyOf(lattice, first, second, third).value % PAIR;
            pair % SIG == lattice.codes.value[first].cacheSignature && pair / SIG == lattice.codes.value[second].cacheSignature
  {
    var codes := lattice.codes.value;
    PackedFields(codes[first].cacheSignature, codes[second].cacheSignature, codes[third].cacheSignature);
  }

  /** For cacheable words, "exact" means the score of these very words. */
  lemma ExactForWords(lattice: Lattice, m: Meaning, owners: seq<nat>, first: nat, second: nat, third: nat, kept: Retained)
    requires lattice.Valid() && first < |lattice.words| && second < |lattice.words| && third < |lattice.words|
    requires KeyOf(lattice, first, second, third).Some? && Compatible(lattice, m)
    ensures var key, codes := KeyOf(lattice, first, second, third).value, lattice.codes.value;
            Exact(m, owners, key % PAIR, key / PAIR, kept) <==>
            kept.score == lattice.Score(first, second, third) &&
            (kept.nextRow.Some? ==>
               kept.nextRow.value < |owners| &&
               owners[kept.nextRow.value] == PackPair(codes[second].cacheSignature, codes[third].cacheSignature))
  {
    KeyParts(lattice, first, second, third);
  }

  /** Finds the row of the first pair and what it retains for the third word. */
  method Recall(lattice: Lattice, first: nat, second: nat, third: nat, current: Option<nat>, cache: TrigramScoreCache)
    returns (row: Option<nat>, hit: Option<Retained>)
    requires lattice.Valid() && first < |lattice.words| && second < |lattice.words| && third < |lattice.words|
    requires CacheReady(lattice, cache) && RowFits(lattice, CacheOwners(cache), first, second, current)
    requires KeyOf(lattice, first, second, third).Some?
    modifies cache
    ensures CacheReady(lattice, cache) && RowFits(lattice, CacheOwners(cache), first, second, row)
    ensures hit.Some? ==> hit.value.score == lattice.Score(first, second, third) &&
                          RowFits(lattice, CacheOwners(cache), second, third, hit.value.nextRow)
    ensures old(CacheOwners(cache)) <= CacheOwners(cache)
  {
    hide TrigramScoreCache.Valid, Compatible, Exact, TrigramScoreCache.Lookup, PackTrigram, PackPair;
    var key := KeyOf(lattice, first, second, third).value;
    KeyParts(lattice, first, second, third);
    row, hit := current, None;
    if row.None? {
      row := cache.EnsureRow(key % PAIR);
    }
    if row.Some? {
      cache.DistinctOwners();
      cache.LookupExact(row.value, key / PAIR);
      hit := cache.Get(row.value, (key / PAIR) % SIG, key);
      if hit.Some? {
        ExactForWords(lattice, cache.meaning, cache.owners, first, second, third, hit.value);
      }
    }
  }

  /** Retains a freshly computed score, and names the row of the last pair when the caller needs it. */
  method Retain(lattice: Lattice, first: nat, second: nat, third: nat, score: real, current: Option<nat>, cache: TrigramScoreCache,
                needNextRow: bool)
    returns (nextRow: Option<nat>)
    requires lattice.Valid() && first < |lattice.words| && second < |lattice.words| && third < |lattice.words|
    requires CacheReady(lattice, cache) && RowFits(lattice, CacheOwners(cache), first, second, current)
    requires KeyOf(lattice, first, second, third).Some? && score == lattice.Score(first, second, third)
    modifies cache, cache.overflow
    ensures CacheReady(lattice, cache) && RowFits(lattice, CacheOwners(cache), second, third, nextRow)
    ensures old(CacheOwners(cache)) <= CacheOwners(cache)
  {
    hide TrigramScoreCache.Valid, Compatible, Exact, TrigramScoreCache.Lookup, PackTrigram, PackPair;
    var key := KeyOf(lattice, first, second, third).value;
    KeyParts(lattice, first, second, third);
    var row := current;
    nextRow := None;
    if row.None? {
      row := cache.EnsureRow(key % PAIR);
    }
    if needNextRow {
      nextRow := cache.EnsureRow((key / SIG) % PAIR);
    }
    if row.Some? {
      cache.DistinctOwners();
      var kept := Retained(score, nextRow);
      ExactForWords(lattice, cache.meaning, cache.owners, first, second, third, kept);
      cache.Insert(row.value, key / PAIR, key, kept);
    }
  }

  // ----- transitions

  /** What a transition is scored with: a score cache, and the parts of the perceptron. Without parts, the scoring
      function of the lattice is called as it is. */
  datatype Workspace = Workspace(cache: TrigramScoreCache?, parts: Option<Parts>)

  ghost function Footprint(w: Workspace): set<object> {
    CacheFootprint(w.cache) + if w.parts.Some? then PartsFootprint(w.parts.value) else {}
  }

  ghost predicate Ready(lattice: Lattice, w: Workspace)
    reads Footprint(w)
    requires lattice.Valid()
  {
    CacheReady(lattice, w.cache) && (w.parts.Some? ==> PartsReady(lattice, w.parts.value))
  }

  ghost function Owners(w: Workspace): seq<nat>
    reads CacheFootprint(w.cache)
  {
    CacheOwners(w.cache)
  }

  /** The score without the cache. */
  method Compute(lattice: Lattice, t: nat, first: nat, second: nat, third: nat, w: Workspace) returns (score: real)
    requires lattice.Valid() && t <= lattice.Tokens() && InPairLayer(lattice, t, second, third)
    requires first < |lattice.words| && second < |lattice.words| && third < |lattice.words| && Ready(lattice, w)
    modifies if w.parts.Some? then PartsFootprint(w.parts.value) else {}
    ensures score == lattice.Score(first, second, third) && Ready(lattice, w)
  {
    hide TrigramScoreCache.Valid, Compatible, InPairLayer, PreparedSentence.Valid, FeatureScratch.Valid, BanksReady, ScoredBy;
    if w.parts.Some? {
      score := ScoreUncached(lattice, w.parts.value, t, first, second, third);
    } else {
      score := lattice.Score(first, second, third);
    }
  }

  /** Scores `third` at position `t`, after `first` and `second`. With or without a cache and prepared parts, warm or
      exhausted, the score is the one of the scoring function, and the row returned for the next step is absent or
      the row of the last pair. */
  method ScoreTransition(lattice: Lattice, t: nat, first: nat, second: nat, third: nat, current: Option<nat>, w: Workspace, needNextRow: bool)
    returns (score: real, nextRow: Option<nat>)
    requires lattice.Valid() && t <= lattice.Tokens() && InPairLayer(lattice, t, second, third)
    requires first < |lattice.words| && second < |lattice.words| && third < |lattice.words|
    requires Ready(lattice, w) && RowFits(lattice, Owners(w), first, second, current)
    modifies Footprint(w)
    ensures score == lattice.Score(first, second, third)
    ensures Ready(lattice, w) && RowFits(lattice, Owners(w), second, third, nextRow)
    ensures old(Owners(w)) <= Owners(w)
  {
    hide TrigramScoreCache.Valid, Compatible, PackPair, InPairLayer, PartsReady;
    var cache := w.cache;
    var cacheable := cache != null && KeyOf(lattice, first, second, third).Some?;
    var row := current;
    if cacheable {
      var hit;
      row, hit := Recall(lattice, first, second, third, current, cache);
      if hit.Some? && (!needNextRow || hit.value.nextRow.Some?) {
        return hit.value.score, hit.value.nextRow;
      }
    }
    score := Compute(lattice, t, first, second, third, w);
    nextRow := None;
    if cacheable {
      nextRow := Retain(lattice, first, second, third, score, row, cache, needNextRow);
    }
  }

  /** The row of the two begin words, from which every sentence starts. */
  method InitialRow(lattice: Lattice, w: Workspace) returns (row: Option<nat>)
    requires lattice.Valid() && Ready(lattice, w)
    modifies Footprint(w)
    ensures Ready(lattice, w) && RowFits(lattice, Owners(w), 0, 0, row)
    ensures old(Owners(w)) <= Owners(w)
  {
    hide TrigramScoreCache.Valid, Compatible, PartsReady;
    var cache := w.cache;
    row := None;
    if cache != null {
      var pair := PairKey(lattice.codes.value[0].cacheSignature, lattice.codes.value[0].cacheSignature);
      if pair.Some? {
        row := cache.EnsureRow(pair.value);
      }
    }
  }
}
