/** Sentences as lists of candidate lists, their flattening, and the promise of the decoder in their terms. */
module Sentences {
  import opened Common
  import opened Lattices
  import opened TransitionCache
  import opened CachedScoring
  import opened ActiveTable
  import opened HashDecoder
  import opened DenseDecoder

  /** One list of candidates for every token, with scoring codes for all of them or for none. */
  datatype Sentence = Sentence(candidates: seq<seq<Word>>, codes: Option<seq<seq<ScoringCode>>>, begin: Word, end: Word, trigram: Trigram) {
    /** What the decoder accepts: no empty list, and codes of the same shape. */
    predicate Acceptable() {
      && candidates != [] && (forall t :: 0 <= t < |candidates| ==> candidates[t] != [])
      && (codes.Some? ==> |codes.value| == |candidates| && forall t :: 0 <= t < |candidates| ==> |codes.value[t]| == |candidates[t]|)
    }

    /** The words of the sentence, the boundary words first, and what each is compared by. */
    ghost predicate Has(w: Word, identity: Identity) {
      || (w == begin && identity == if codes.Some? then ByCode(U32_MAX) else ByName(begin.canonical))
      || (w == end && identity == if codes.Some? then ByCode(U32_MAX - 1) else ByName(end.canonical))
      || exists t, j :: HasCandidate(t, j, w, identity)
    }

    ghost predicate HasCandidate(t: nat, j: nat, w: Word, identity: Identity) {
      && t < |candidates| && j < |candidates[t]| && w == candidates[t][j]
      && (codes.Some? ==> t < |codes.value| && j < |codes.value[t]|)
      && identity == if codes.Some? then ByCode(codes.value[t][j].canonical) else ByName(candidates[t][j].canonical)
    }

    /** Words of equal identity have equal features. */
    ghost predicate Consistent() {
      forall v, w, identity :: Has(v, identity) && Has(w, identity) ==> v.features == w.features
    }

    /** One candidate chosen for every token. */
    ghost predicate Choice(selected: seq<nat>) {
      |selected| == |candidates| && forall t :: 0 <= t < |selected| ==> selected[t] < |candidates[t]|
    }

    /** The features of the chosen word at a position; before the sentence stands the begin word. */
    function FeaturesAt(selected: seq<nat>, k: int): WordFeatures {
      if 0 <= k < |selected| && k < |candidates| && selected[k] < |candidates[k]| then candidates[k][selected[k]].features else begin.features
    }

    ghost function ChosenScore(selected: seq<nat>, n: nat): real {
      if n == 0 then 0.0
      else ChosenScore(selected, n - 1) + trigram(FeaturesAt(selected, n - 3), FeaturesAt(selected, n - 2), FeaturesAt(selected, n - 1))
    }

    /** The score of a choice, stated on the candidate lists alone. */
    ghost function TotalScore(selected: seq<nat>): real {
      ChosenScore(selected, |selected|)
      + trigram(FeaturesAt(selected, |selected| - 2), FeaturesAt(selected, |selected| - 1), end.features)
    }

    ghost predicate Best(selected: seq<nat>) {
      Choice(selected) && forall other :: Choice(other) ==> TotalScore(other) <= TotalScore(selected)
    }
  }

  // ----- flattening

  function Concat<T>(lists: seq<seq<T>>): seq<T> {
    if lists == [] then [] else Concat(lists[..|lists| - 1]) + lists[|lists| - 1]
  }

  function Starts<T>(lists: seq<seq<T>>): (r: seq<nat>)
    ensures |r| == |lists| + 1 && r[|lists|] == 2 + |Concat(lists)|
  {
    if lists == [] then [2] else Starts(lists[..|lists| - 1]) + [2 + |Concat(lists)|]
  }

  /** The lattice of a sentence: begin, end, then all candidates in order. */
  function Flattened(s: Sentence): Lattice {
    Lattice([s.begin, s.end] + Concat(s.candidates),
            if s.codes.Some? then Some([BeginCode(s.begin), EndCode(s.end)] + Concat(s.codes.value)) else None,
            Starts(s.candidates), s.trigram)
  }

  lemma {:induction false} StartsAre<T>(lists: seq<seq<T>>, t: nat)
    requires t <= |lists|
    ensures Starts(lists)[t] == 2 + |Concat(lists[..t])|
    decreases |lists|
  {
    hide Concat;
    if t < |lists| {
      StartsAre(lists[..|lists| - 1], t);
      assert lists[..|lists| - 1][..t] == lists[..t];
    } else {
      assert lists[..t] == lists;
    }
  }

  lemma {:induction false} ConcatAt<T>(lists: seq<seq<T>>, t: nat, j: nat)
    requires t < |lists| && j < |lists[t]|
    ensures |Concat(lists[..t])| + |lists[t]| == |Concat(lists[..t + 1])| <= |Concat(lists)|
    ensures Concat(lists)[|Concat(lists[..t])| + j] == lists[t][j]
    decreases |lists|
  {
    var n := |lists| - 1;
    assert lists[..t + 1][..t] == lists[..t];
    if t < n {
      ConcatAt(lists[..n], t, j);
      assert lists[..n][..t] == lists[..t] && lists[..n][..t + 1] == lists[..t + 1];
    } else {
      assert lists[..t + 1] == lists;
    }
  }

  lemma {:induction false} SameShape<T, U>(a: seq<seq<T>>, b: seq<seq<U>>)
    requires |a| == |b| && forall t :: 0 <= t < |a| ==> |a[t]| == |b[t]|
    ensures |Concat(a)| == |Concat(b)|
  {
    if a != [] {
      SameShape(a[..|a| - 1], b[..|b| - 1]);
    }
  }

  /** Candidate `j` of token `t` is word `starts[t] + j` of the lattice. */
  lemma WordsOfToken(s: Sentence, t: nat, j: nat)
    requires s.Acceptable() && t < |s.candidates| && j < |s.candidates[t]|
    ensures var l := Flattened(s);
            && l.starts[t] + |s.candidates[t]| == l.starts[t + 1] <= |l.words| && l.starts[t] >= 2
            && l.words[l.starts[t] + j] == s.candidates[t][j]
  {
    hide Concat;
    StartsAre(s.candidates, t);
    StartsAre(s.candidates, t + 1);
    ConcatAt(s.candidates, t, j);
  }

  lemma {:induction false} StartsAscend(s: Sentence, i: nat, j: nat)
    requires s.Acceptable() && i < j <= |s.candidates|
    ensures Starts(s.candidates)[i] < Starts(s.candidates)[j]
    decreases j
  {
    hide Concat, Starts;
    WordsOfToken(s, j - 1, 0);
    if i < j - 1 {
      StartsAscend(s, i, j - 1);
    }
  }

  lemma FlattenedIsValid(s: Sentence)
    requires s.Acceptable()
    ensures Flattened(s).Valid() && Flattened(s).Tokens() == |s.candidates|
    ensures Flattened(s).words[0] == s.begin && Flattened(s).words[1] == s.end
  {
    hide Concat;
    forall i, j | 0 <= i < j <= |s.candidates|
      ensures Starts(s.candidates)[i] < Starts(s.candidates)[j]
    {
      StartsAscend(s, i, j);
    }
    StartsAre(s.candidates, 0);
    assert s.candidates[..0] == [];
    assert |Concat<Word>([])| == 0 by { NothingToConcat<Word>(); }
    if s.codes.Some? {
      SameShape(s.candidates, s.codes.value);
    }
  }

  lemma NothingToConcat<T>()
    ensures Concat<T>([]) == [] && Starts<T>([]) == [2]
  {
  }

  lemma NextToken<T>(lists: seq<seq<T>>, t: nat)
    requires t < |lists|
    ensures Concat(lists[..t + 1]) == Concat(lists[..t]) + lists[t]
    ensures Starts(lists[..t + 1]) == Starts(lists[..t]) + [2 + |Concat(lists[..t + 1])|]
  {
    assert lists[..t + 1][..t] == lists[..t];
  }

  /** Builds the lattice token by token; fails exactly when the sentence is not acceptable. */
  method Flatten(s: Sentence) returns (r: Option<Lattice>)
    ensures r.Some? <==> s.Acceptable()
    ensures r.Some? ==> r.value == Flattened(s)
  {
    hide Concat, Starts;
    if s.candidates == [] {
      return None;
    }
    if s.codes.Some? {
      if |s.codes.value| != |s.candidates| {
        return None;
      }
      for t := 0 to |s.candidates|
        invariant forall k :: 0 <= k < t ==> |s.codes.value[k]| == |s.candidates[k]|
      {
        if |s.codes.value[t]| != |s.candidates[t]| {
          return None;
        }
      }
    }
    for t := 0 to |s.candidates|
      invariant forall k :: 0 <= k < t ==> s.candidates[k] != []
    {
      if s.candidates[t] == [] {
        return None;
      }
    }
    var analyses: seq<Word>, flattened: seq<ScoringCode>, starts: seq<nat> := [], [], [2];
    NothingToConcat<Word>();
    NothingToConcat<ScoringCode>();
    for t := 0 to |s.candidates|
      invariant analyses == Concat(s.candidates[..t]) && starts == Starts(s.candidates[..t])
      invariant s.codes.Some? ==> flattened == Concat(s.codes.value[..t])
    {
      NextToken(s.candidates, t);
      analyses := analyses + s.candidates[t];
      if s.codes.Some? {
        NextToken(s.codes.value, t);
        flattened := flattened + s.codes.value[t];
      }
      starts := starts + [|analyses| + 2];
    }
    assert s.candidates[..|s.candidates|] == s.candidates;
    if s.codes.Some? {
      assert s.codes.value[..|s.candidates|] == s.codes.value;
    }
    return Some(Lattice([s.begin, s.end] + analyses,
                        if s.codes.Some? then Some([BeginCode(s.begin), EndCode(s.end)] + flattened) else None, starts, s.trigram));
  }

  // ----- scores

  lemma ChoicesAreSelections(s: Sentence, selected: seq<nat>)
    requires s.Acceptable() && Flattened(s).Valid()
    ensures s.Choice(selected) <==> IsSelection(Flattened(s), selected)
  {
    hide Flattened;
    TokensOf(s);
    var l := Flattened(s);
    forall t | 0 <= t < |s.candidates|
      ensures l.starts[t] + |s.candidates[t]| == l.starts[t + 1]
    {
      WordsOfToken(s, t, 0);
    }
    if s.Choice(selected) {
      forall t | 0 <= t < |selected|
        ensures l.starts[t] + selected[t] < l.starts[t + 1]
      {
        assert selected[t] < |s.candidates[t]|;
      }
    }
    if IsSelection(l, selected) {
      forall t | 0 <= t < |selected|
        ensures selected[t] < |s.candidates[t]|
      {
        assert l.starts[t] + selected[t] < l.starts[t + 1];
      }
    }
  }

  lemma TokensOf(s: Sentence)
    ensures |Flattened(s).starts| == |s.candidates| + 1
  {
  }

  /** The features along a path of the lattice are those of the choice. */
  lemma FeaturesAgree(s: Sentence, selected: seq<nat>, k: int)
    requires s.Acceptable() && Flattened(s).Valid() && IsSelection(Flattened(s), selected) && s.Choice(selected) && k < |selected|
    ensures var path := GlobalPath(Flattened(s), selected);
            At(path, k) < |Flattened(s).words| && Flattened(s).words[At(path, k)].features == s.FeaturesAt(selected, k)
  {
    hide Flattened;
    FlattenedIsValid(s);
    if k >= 0 {
      TokensOf(s);
      WordsOfToken(s, k, selected[k]);
    }
  }

  lemma PathOfSelection(lattice: Lattice, selected: seq<nat>)
    requires lattice.Valid() && IsSelection(lattice, selected)
    ensures lattice.IsPath(GlobalPath(lattice, selected))
  {
  }

  lemma {:induction false} PrefixAgrees(s: Sentence, selected: seq<nat>, n: nat)
    requires s.Acceptable() && Flattened(s).Valid() && IsSelection(Flattened(s), selected) && s.Choice(selected) && n <= |selected|
    ensures var path := GlobalPath(Flattened(s), selected);
            Flattened(s).IsPath(path[..n]) && PrefixScore(Flattened(s), path[..n]) == s.ChosenScore(selected, n)
  {
    hide Flattened, Sentence.FeaturesAt, Lattice.Valid;
    var l := Flattened(s);
    var path := GlobalPath(l, selected);
    PathOfSelection(l, selected);
    TrigramOf(s);
    if n > 0 {
      PrefixAgrees(s, selected, n - 1);
      FeaturesAgree(s, selected, n - 1);
      FeaturesAgree(s, selected, n - 2);
      FeaturesAgree(s, selected, n - 3);
      assert path[..n][..n - 1] == path[..n - 1];
    }
  }

  lemma TrigramOf(s: Sentence)
    ensures Flattened(s).trigram == s.trigram
  {
  }

  /** The score of a selection in the lattice is the score of the choice. */
  lemma ScoresAgree(s: Sentence, selected: seq<nat>)
    requires s.Acceptable() && Flattened(s).Valid() && IsSelection(Flattened(s), selected)
    ensures s.Choice(selected) && SelectionScore(Flattened(s), selected) == s.TotalScore(selected)
  {
    hide Flattened, Sentence.FeaturesAt;
    var l := Flattened(s);
    var path := GlobalPath(l, selected);
    ChoicesAreSelections(s, selected);
    PathOfSelection(l, selected);
    PrefixAgrees(s, selected, |selected|);
    FeaturesAgree(s, selected, |selected| - 1);
    FeaturesAgree(s, selected, |selected| - 2);
    FlattenedIsValid(s);
    TrigramOf(s);
    assert path[..|selected|] == path;
  }

  lemma OptimalIsBest(s: Sentence, selected: seq<nat>)
    requires s.Acceptable() && Flattened(s).Valid() && Optimal(Flattened(s), selected)
    ensures s.Best(selected)
  {
    hide Flattened, SelectionScore, Sentence.TotalScore, Sentence.Acceptable, Lattice.Valid, IsSelection, Sentence.Choice;
    ScoresAgree(s, selected);
    forall other | s.Choice(other)
      ensures s.TotalScore(other) <= s.TotalScore(selected)
    {
      ChoicesAreSelections(s, other);
      ScoresAgree(s, other);
    }
  }

  // ----- scoring codes

  lemma CodesOfToken(s: Sentence, t: nat, j: nat)
    requires s.Acceptable() && s.codes.Some? && t < |s.candidates| && j < |s.candidates[t]|
    ensures var l := Flattened(s);
            l.codes.Some? && l.starts[t] + j < |l.codes.value| && l.codes.value[l.starts[t] + j] == s.codes.value[t][j]
  {
    hide Concat;
    StartsAre(s.candidates, t);
    SameShape(s.candidates[..t], s.codes.value[..t]);
    ConcatAt(s.codes.value, t, j);
  }

  /** Every word behind the two boundary words is a candidate of some token. */
  lemma {:induction false} TokenOfWord(s: Sentence, i: nat, n: nat) returns (t: nat)
    requires s.Acceptable() && n <= |s.candidates| && 2 <= i < Starts(s.candidates)[n]
    ensures t < n && Starts(s.candidates)[t] <= i < Starts(s.candidates)[t + 1]
    decreases n
  {
    hide Concat, Starts;
    if n == 0 {
      StartsAre(s.candidates, 0);
      assert s.candidates[..0] == [];
      NothingToConcat<Word>();
      assert false;
    } else if Starts(s.candidates)[n - 1] <= i {
      t := n - 1;
    } else {
      t := TokenOfWord(s, i, n - 1);
    }
  }

  /** Every word behind the two boundary words is candidate `j` of some token `t`, with its code. */
  lemma CandidateOfWord(s: Sentence, i: nat) returns (t: nat, j: nat)
    requires s.Acceptable() && 2 <= i < |Flattened(s).words|
    ensures t < |s.candidates| && j < |s.candidates[t]| && Flattened(s).words[i] == s.candidates[t][j]
    ensures s.codes.Some? ==> i < |Flattened(s).codes.value| && Flattened(s).codes.value[i] == s.codes.value[t][j]
  {
    hide Concat, Starts;
    t := TokenOfWord(s, i, |s.candidates|);
    j := i - Flattened(s).starts[t];
    WordsOfToken(s, t, 0);
    WordsOfToken(s, t, j);
    if s.codes.Some? {
      CodesOfToken(s, t, j);
    }
  }

  /** Codes as the interner hands them out: a signature below the reserved range stands for one content. The interner may
      number candidates into that range and beyond, where the boundary words' signatures are; such codes are not cacheable. */
  ghost predicate Interned(s: Sentence, m: Meaning)
    requires s.Acceptable()
  {
    && s.codes.Some? && s.trigram == m.trigram
    && m.features(SIGNATURE_MASK) == s.begin.features && m.features(END_SIGNATURE) == s.end.features
    && forall t, j :: 0 <= t < |s.candidates| && 0 <= j < |s.candidates[t]| ==>
         var c := s.codes.value[t][j];
         && c == NewScoringCode(c.signature, c.canonical, c.javaHash)
         && (c.signature < END_SIGNATURE ==> m.features(c.signature) == s.candidates[t][j].features)
  }

  /** Interned codes are what the cache needs: cacheable signatures name their words' features. */
  lemma InternedIsCompatible(s: Sentence, m: Meaning)
    requires s.Acceptable() && Flattened(s).Valid() && Interned(s, m)
    ensures Compatible(Flattened(s), m) && Flattened(s).codes.Some?
  {
    hide Concat, Starts;
    var l := Flattened(s);
    FlattenedIsValid(s);
    forall i | 0 <= i < |l.words| && l.codes.value[i].cacheSignature <= SIGNATURE_MASK
      ensures m.features(l.codes.value[i].cacheSignature) == l.words[i].features
    {
      if i >= 2 {
        var t, j := CandidateOfWord(s, i);
      }
    }
  }

  lemma WordIsOfSentence(s: Sentence, i: nat)
    requires s.Acceptable() && Flattened(s).Valid() && i < |Flattened(s).words|
    ensures s.Has(Flattened(s).words[i], Flattened(s).IdentityOf(i))
  {
    hide Concat, Starts;
    var l := Flattened(s);
    FlattenedIsValid(s);
    if i >= 2 {
      var t, j := CandidateOfWord(s, i);
      assert s.HasCandidate(t, j, l.words[i], l.IdentityOf(i));
    }
  }

  /** A consistent sentence flattens to a consistent lattice. */
  lemma FlattenedIsConsistent(s: Sentence)
    requires s.Acceptable() && Flattened(s).Valid() && s.Consistent()
    ensures Flattened(s).Consistent()
  {
    hide Flattened, Lattice.IdentityOf, Sentence.Has, Sentence.Acceptable;
    var l := Flattened(s);
    forall i, j | 0 <= i < |l.words| && 0 <= j < |l.words| && l.IdentityOf(i) == l.IdentityOf(j)
      ensures l.words[i].features == l.words[j].features
    {
      WordIsOfSentence(s, i);
      WordIsOfSentence(s, j);
    }
  }

  /** Disambiguates a sentence with any scoring function of three words: an unacceptable sentence is refused, any other
      gets a best choice of candidates. */
  method Disambiguate(s: Sentence, cache: TrigramScoreCache?, first: ActiveHypotheses, second: ActiveHypotheses, capacity: nat,
                      forceHash: bool)
    returns (r: Option<seq<nat>>)
    requires s.Acceptable() ==> s.Consistent()
    requires cache != null ==> cache.Valid() && (s.Acceptable() ==> Interned(s, cache.meaning))
    requires first != second && first.Reusable() && second.Reusable()
    modifies first, second, CacheFootprint(cache)
    ensures first.Reusable() && second.Reusable() && (cache != null ==> cache.Valid())
    ensures r.Some? <==> s.Acceptable()
    ensures r.Some? ==> s.Best(r.value)
  {
    hide Flattened, Lattice.Consistent, Sentence.Consistent, Lattice.Valid, CacheReady,
      ActiveHypotheses.Reusable, Sentence.Acceptable, Optimal, Sentence.Best, Interned, TrigramScoreCache.Valid;
    var lattice := Flatten(s);
    if lattice.None? {
      return None;
    }
    FlattenedIsValid(s);
    FlattenedIsConsistent(s);
    CacheIsReady(s, cache);
    var selected := Decode(lattice.value, Workspace(cache, None), first, second, capacity, forceHash);
    CacheKept(lattice.value, cache);
    OptimalIsBest(s, selected);
    return Some(selected);
  }

  lemma CacheKept(lattice: Lattice, cache: TrigramScoreCache?)
    requires lattice.Valid() && CacheReady(lattice, cache)
    ensures cache != null ==> cache.Valid()
  {
  }

  lemma CacheIsReady(s: Sentence, cache: TrigramScoreCache?)
    requires s.Acceptable() && Flattened(s).Valid() && (cache != null ==> cache.Valid() && Interned(s, cache.meaning))
    ensures CacheReady(Flattened(s), cache)
  {
    hide Flattened, Interned, Compatible, TrigramScoreCache.Valid, Sentence.Acceptable;
    if cache != null {
      InternedIsCompatible(s, cache.meaning);
    }
  }
}
