/** Candidate lattices of the ambiguity decoder and the scores of the paths through them. */
module Lattices {
  import opened Common

  /** The perceptron-visible content of one analysis. */
  datatype WordFeatures = WordFeatures(headword: string, igs: seq<string>)

  /** One analysis: its exact identity, its features and its Java hash. */
  datatype Word = Word(canonical: string, features: WordFeatures, javaHash: nat)

  /** Interned identity of an analysis. `cacheSignature` is the part that may key the score cache. */
  datatype ScoringCode = ScoringCode(signature: nat, canonical: nat, javaHash: nat, cacheSignature: nat)

  const SIGNATURE_MASK: nat := 0x1f_ffff
  const END_SIGNATURE: nat := 0x1f_fffe
  const INVALID_CACHE_SIGNATURE: nat := 0x20_0000
  const U32_MAX: nat := 0xffff_ffff

  /** Scoring code of a candidate: signatures from the reserved range up are not cacheable. */
  function NewScoringCode(signature: nat, canonical: nat, javaHash: nat): ScoringCode {
    ScoringCode(signature, canonical, javaHash,
                if signature < END_SIGNATURE then signature else INVALID_CACHE_SIGNATURE)
  }

  function BeginCode(begin: Word): ScoringCode {
    ScoringCode(SIGNATURE_MASK, U32_MAX, begin.javaHash, SIGNATURE_MASK)
  }

  function EndCode(end: Word): ScoringCode {
    ScoringCode(END_SIGNATURE, U32_MAX - 1, end.javaHash, END_SIGNATURE)
  }

  /** What two analyses are compared by when the decoder merges states. */
  datatype Identity = ByName(name: string) | ByCode(code: nat)

  type Trigram = (WordFeatures, WordFeatures, WordFeatures) -> real

  /** A flattened sentence. Index 0 is the begin word, 1 the end word, and the candidates of
      token `t` are the indices `starts[t] <= i < starts[t + 1]`. */
  datatype Lattice = Lattice(words: seq<Word>, codes: Option<seq<ScoringCode>>, starts: seq<nat>, trigram: Trigram) {
    ghost predicate Valid() {
      && |starts| >= 2 && starts[0] == 2 && starts[|starts| - 1] == |words| && |words| > 2
      && (forall i, j :: 0 <= i < j < |starts| ==> starts[i] < starts[j])
      && (codes.Some? ==> |codes.value| == |words|)
    }

    function Tokens(): nat
      requires |starts| >= 1
    {
      |starts| - 1
    }

    predicate InToken(t: nat, i: nat)
      requires t + 1 < |starts|
    {
      starts[t] <= i < starts[t + 1]
    }

    function IdentityOf(i: nat): Identity
      requires i < |words| && (codes.Some? ==> |codes.value| == |words|)
    {
      if codes.Some? then ByCode(codes.value[i].canonical) else ByName(words[i].canonical)
    }

    function HashOf(i: nat): nat
      requires i < |words| && (codes.Some? ==> |codes.value| == |words|)
    {
      if codes.Some? then codes.value[i].javaHash else words[i].javaHash
    }

    /** The score of candidate `third` after `first` and `second`. */
    function Score(first: nat, second: nat, third: nat): real
      requires first < |words| && second < |words| && third < |words|
    {
      trigram(words[first].features, words[second].features, words[third].features)
    }

    /** Equal identities carry equal features. */
    ghost predicate Consistent()
      requires Valid()
    {
      forall i, j :: 0 <= i < |words| && 0 <= j < |words| && IdentityOf(i) == IdentityOf(j) ==>
                       words[i].features == words[j].features
    }

    /** A choice of one candidate for each of the first `|path|` tokens. */
    ghost predicate IsPath(path: seq<nat>)
      requires Valid()
    {
      |path| <= Tokens() && forall t :: 0 <= t < |path| ==> InToken(t, path[t])
    }
  }

  /** The `k`-th word of a path; positions before the sentence hold the begin word. */
  function At(path: seq<nat>, k: int): nat
    requires k < |path|
  {
    if k < 0 then 0 else path[k]
  }

  lemma PathInRange(lattice: Lattice, path: seq<nat>, k: int)
    requires lattice.Valid() && lattice.IsPath(path) && k < |path|
    ensures At(path, k) < |lattice.words|
  {
    if k >= 0 {
      assert lattice.InToken(k, path[k]);
      assert lattice.starts[k + 1] <= lattice.starts[|lattice.starts| - 1];
    }
  }

  /** Sum of the scores of the words of a path, each after its two predecessors. */
  ghost function PrefixScore(lattice: Lattice, path: seq<nat>): real
    requires lattice.Valid() && lattice.IsPath(path)
    decreases |path|
  {
    if path == [] then 0.0
    else
      var last := |path| - 1;
      PathInRange(lattice, path, last);
      PathInRange(lattice, path, last - 1);
      PathInRange(lattice, path, last - 2);
      PrefixScore(lattice, path[..last]) + lattice.Score(At(path, last - 2), At(path, last - 1), path[last])
  }

  /** Total score of a complete path, including the transition into the end word. */
  ghost function PathScore(lattice: Lattice, path: seq<nat>): real
    requires lattice.Valid() && lattice.IsPath(path) && |path| == lattice.Tokens()
  {
    PathInRange(lattice, path, |path| - 1);
    PathInRange(lattice, path, |path| - 2);
    PrefixScore(lattice, path) + lattice.Score(At(path, |path| - 2), At(path, |path| - 1), 1)
  }

  /** A selection names one candidate of every token by its position in the token's list. */
  ghost predicate IsSelection(lattice: Lattice, selected: seq<nat>)
    requires lattice.Valid()
  {
    |selected| == lattice.Tokens() &&
    forall t :: 0 <= t < |selected| ==> lattice.starts[t] + selected[t] < lattice.starts[t + 1]
  }

  function GlobalPath(lattice: Lattice, selected: seq<nat>): (path: seq<nat>)
    requires |selected| < |lattice.starts|
    ensures |path| == |selected|
  {
    seq(|selected|, t requires 0 <= t < |selected| => lattice.starts[t] + selected[t])
  }

  ghost function SelectionScore(lattice: Lattice, selected: seq<nat>): real
    requires lattice.Valid() && IsSelection(lattice, selected)
  {
    PathScore(lattice, GlobalPath(lattice, selected))
  }

  // ----- neighbours

  /** Words that may stand before position `t`: the candidates of the token before it, or the begin word. */
  function PreviousStart(lattice: Lattice, t: nat): int
    requires t < |lattice.starts|
  {
    if t == 0 then 0 else lattice.starts[t - 1]
  }

  function PreviousCount(lattice: Lattice, t: nat): int
    requires t < |lattice.starts|
  {
    if t == 0 then 1 else lattice.starts[t] as int - lattice.starts[t - 1]
  }

  /** A path of length `t` may end in this word. */
  ghost predicate EndsAt(lattice: Lattice, t: nat, word: nat)
    requires t < |lattice.starts|
  {
    PreviousStart(lattice, t) <= word < PreviousStart(lattice, t) + PreviousCount(lattice, t)
  }

  /** First word that may stand at position `t`; behind the sentence stands the end word. */
  function CurrentBase(lattice: Lattice, t: nat): nat
    requires lattice.starts != [] && t <= lattice.Tokens()
  {
    if t == lattice.Tokens() then 1 else lattice.starts[t]
  }

  function CurrentEnd(lattice: Lattice, t: nat): nat
    requires lattice.starts != [] && t <= lattice.Tokens()
  {
    if t == lattice.Tokens() then 2 else lattice.starts[t + 1]
  }

  /** Two words that stand next to each other at position `t`: there, `current` may follow `previous`. */
  ghost predicate InPairLayer(lattice: Lattice, t: nat, previous: nat, current: nat)
    requires lattice.starts != [] && t <= lattice.Tokens()
  {
    EndsAt(lattice, t, previous) && CurrentBase(lattice, t) <= current < CurrentEnd(lattice, t)
  }

  lemma LayerInRange(lattice: Lattice, t: nat, p: nat, c: nat)
    requires lattice.Valid() && t <= lattice.Tokens() && InPairLayer(lattice, t, p, c)
    ensures p < |lattice.words| && c < |lattice.words|
  {
    var last := |lattice.starts| - 1;
    assert t < last ==> lattice.starts[t + 1] <= lattice.starts[last];
    assert t > 0 ==> lattice.starts[t] <= lattice.starts[last];
  }

  lemma PathEnds(lattice: Lattice, path: seq<nat>)
    requires lattice.Valid() && lattice.IsPath(path)
    ensures EndsAt(lattice, |path|, At(path, |path| - 1))
  {
    if path != [] {
      assert lattice.InToken(|path| - 1, path[|path| - 1]);
    }
  }

  /** Every transition along a path, the one into the end word included, lies in the pair layer of its position. */
  lemma TransitionsAreInLayers(lattice: Lattice, path: seq<nat>, t: nat)
    requires lattice.Valid() && lattice.IsPath(path) && t <= |path|
    ensures At(path, t - 2) < |lattice.words|
    ensures t < |path| ==> InPairLayer(lattice, t, At(path, t - 1), path[t])
    ensures t == |path| == lattice.Tokens() ==> InPairLayer(lattice, t, At(path, t - 1), 1)
  {
    PathInRange(lattice, path, t - 2);
    if t > 0 {
      assert lattice.InToken(t - 1, path[t - 1]);
    }
    if t < |path| {
      assert lattice.InToken(t, path[t]);
    }
  }

  // ----- row-major tables

  lemma RowMajorRange(row: int, rows: int, column: int, n: int)
    requires 0 <= row < rows && 0 <= column < n
    ensures 0 <= row * n + column < rows * n
  {
    assert row * n >= 0;
    assert (row + 1) * n <= rows * n;
  }

  lemma RowMajorInjective(row: int, column: int, row': int, column': int, n: int)
    requires 0 <= column < n && 0 <= column' < n && row * n + column == row' * n + column'
    ensures row == row' && column == column'
  {
    var d := row - row';
    assert d * n == column' - column;
    assert d >= 1 ==> d * n >= n;
    assert d <= -1 ==> d * n <= -n;
  }
}
