/** The perceptron features of a trigram, computed directly and from prepared parts. */
module TrigramFeatures {
  import opened Lattices
  import opened FeatureScratchTable

  /** A feature before it is rendered to text; the model hashes and weighs it. */
  datatype FeatureView =
    | F2(lemma1: string, igs2: seq<string>, lemma3: string, igs3: seq<string>)
    | F3(lemma2: string, igs2: seq<string>, lemma3: string, igs3: seq<string>)
    | F4(lemma3: string, igs3: seq<string>)
    | F9(lemma2: string, lemma3: string)
    | F10(lemma3: string)
    | F10b(lemma2: string)
    | F10c(lemma1: string)
    | F15(last1: string, last2: string, ig: string)
    | F17(last2: string, ig: string)
    | F20(index: nat, ig: string)
    | F22(count: nat)

  /** The lookups of the compressed model. */
  datatype PerceptronModel = PerceptronModel(weight: FeatureView -> real, javaHash: FeatureView -> nat) {
    function Prepare(view: FeatureView, identity: nat): Feature {
      Feature(identity, javaHash(view), weight(view))
    }
  }

  const ID_BITS: nat := 0x100_0000

  /** First position of the group at `index`, the identity under which equal groups are counted together. */
  function Representative(igs: seq<string>, index: nat): (r: nat)
    requires index < |igs|
    ensures r <= index && igs[r] == igs[index]
    ensures forall k :: 0 <= k < r ==> igs[k] != igs[index]
  {
    FirstEqual(igs, igs[index], 0, index)
  }

  function FirstEqual(igs: seq<string>, ig: string, from: nat, index: nat): (r: nat)
    requires from <= index < |igs| && igs[index] == ig && forall k :: 0 <= k < from ==> igs[k] != ig
    ensures from <= r <= index && igs[r] == ig && forall k :: 0 <= k < r ==> igs[k] != ig
    decreases index - from
  {
    if igs[from] == ig then from else FirstEqual(igs, ig, from + 1, index)
  }

  function Last(igs: seq<string>): string {
    if igs == [] then "" else igs[|igs| - 1]
  }

  // ----- the features as lists

  function Head(model: PerceptronModel, w1: WordFeatures, w2: WordFeatures, w3: WordFeatures): seq<Feature> {
    [ model.Prepare(F2(w1.headword, w2.igs, w3.headword, w3.igs), 0x200_0000),
      model.Prepare(F3(w2.headword, w2.igs, w3.headword, w3.igs), 0x300_0000),
      model.Prepare(F4(w3.headword, w3.igs), 0x400_0000),
      model.Prepare(F9(w2.headword, w3.headword), 0x900_0000),
      model.Prepare(F10(w3.headword), 0xa00_0000),
      model.Prepare(F10b(w2.headword), 0xb00_0000),
      model.Prepare(F10c(w1.headword), 0xc00_0000) ]
  }

  function Group15(model: PerceptronModel, w1: WordFeatures, w2: WordFeatures, w3: WordFeatures, i: nat): Feature
    requires i < |w3.igs|
  {
    model.Prepare(F15(Last(w1.igs), Last(w2.igs), w3.igs[i]), 0x1500_0000 + Representative(w3.igs, i) % ID_BITS)
  }

  function Group17(model: PerceptronModel, w2: WordFeatures, w3: WordFeatures, i: nat): Feature
    requires i < |w3.igs|
  {
    model.Prepare(F17(Last(w2.igs), w3.igs[i]), 0x1700_0000 + Representative(w3.igs, i) % ID_BITS)
  }

  function Group20(model: PerceptronModel, w3: WordFeatures, i: nat): Feature
    requires i < |w3.igs|
  {
    model.Prepare(F20(i, w3.igs[i]), 0x2000_0000 + i % ID_BITS)
  }

  function Count22(model: PerceptronModel, w3: WordFeatures): Feature {
    model.Prepare(F22(|w3.igs|), 0x2200_0000)
  }

  /** Alternating features 15 and 17 of the first `k` groups. */
  function Interleaved(model: PerceptronModel, w1: WordFeatures, w2: WordFeatures, w3: WordFeatures, k: nat): seq<Feature>
    requires k <= |w3.igs|
  {
    if k == 0 then []
    else Interleaved(model, w1, w2, w3, k - 1) + [Group15(model, w1, w2, w3, k - 1)] + [Group17(model, w2, w3, k - 1)]
  }

  function All15(model: PerceptronModel, w1: WordFeatures, w2: WordFeatures, w3: WordFeatures, k: nat): (s: seq<Feature>)
    requires k <= |w3.igs|
    ensures |s| == k && forall i :: 0 <= i < k ==> s[i] == Group15(model, w1, w2, w3, i)
  {
    seq(k, i requires 0 <= i < k => Group15(model, w1, w2, w3, i))
  }

  function All17(model: PerceptronModel, w2: WordFeatures, w3: WordFeatures, k: nat): (s: seq<Feature>)
    requires k <= |w3.igs|
    ensures |s| == k && forall i :: 0 <= i < k ==> s[i] == Group17(model, w2, w3, i)
  {
    seq(k, i requires 0 <= i < k => Group17(model, w2, w3, i))
  }

  function All20(model: PerceptronModel, w3: WordFeatures, k: nat): (s: seq<Feature>)
    requires k <= |w3.igs|
    ensures |s| == k && forall i :: 0 <= i < k ==> s[i] == Group20(model, w3, i)
  {
    seq(k, i requires 0 <= i < k => Group20(model, w3, i))
  }

  /** The features in the order the direct scorer adds them. */
  function Direct(model: PerceptronModel, w1: WordFeatures, w2: WordFeatures, w3: WordFeatures): seq<Feature> {
    Head(model, w1, w2, w3) + Interleaved(model, w1, w2, w3, |w3.igs|) + All20(model, w3, |w3.igs|) + [Count22(model, w3)]
  }

  /** The features in the order the prepared scorer adds them. */
  function Prepared(model: PerceptronModel, w1: WordFeatures, w2: WordFeatures, w3: WordFeatures): seq<Feature> {
    Head(model, w1, w2, w3) + All15(model, w1, w2, w3, |w3.igs|) + All17(model, w2, w3, |w3.igs|)
    + All20(model, w3, |w3.igs|) + [Count22(model, w3)]
  }

  /** The score of a trigram: the sum of weight times saturating count over its features. */
  ghost function TrigramScore(model: PerceptronModel, w1: WordFeatures, w2: WordFeatures, w3: WordFeatures): real {
    FeatureSum(Direct(model, w1, w2, w3))
  }

  // ----- an identity stands for one feature

  /** Words whose group positions fit the 24 bits an identity reserves for them. */
  predicate FewGroups(w: WordFeatures) {
    |w.igs| <= ID_BITS
  }

  /** The feature an identity stands for. */
  function ViewOf(w1: WordFeatures, w2: WordFeatures, w3: WordFeatures, identity: nat): FeatureView {
    var tag, offset := identity / ID_BITS, identity % ID_BITS;
    var ig := if offset < |w3.igs| then w3.igs[offset] else "";
    match tag
    case 0x2 => F2(w1.headword, w2.igs, w3.headword, w3.igs)
    case 0x3 => F3(w2.headword, w2.igs, w3.headword, w3.igs)
    case 0x4 => F4(w3.headword, w3.igs)
    case 0x9 => F9(w2.headword, w3.headword)
    case 0xa => F10(w3.headword)
    case 0xb => F10b(w2.headword)
    case 0xc => F10c(w1.headword)
    case 0x15 => F15(Last(w1.igs), Last(w2.igs), ig)
    case 0x17 => F17(Last(w2.igs), ig)
    case 0x20 => F20(offset, ig)
    case _ => F22(|w3.igs|)
  }

  ghost predicate Identified(model: PerceptronModel, w1: WordFeatures, w2: WordFeatures, w3: WordFeatures, log: seq<Feature>) {
    forall k :: 0 <= k < |log| ==> log[k] == model.Prepare(ViewOf(w1, w2, w3, log[k].identity), log[k].identity)
  }

  lemma IdentifiedIsCoherent(model: PerceptronModel, w1: WordFeatures, w2: WordFeatures, w3: WordFeatures, log: seq<Feature>)
    requires Identified(model, w1, w2, w3, log)
    ensures Coherent(log)
  {
    hide ViewOf;
  }

  lemma HeadIdentified(model: PerceptronModel, w1: WordFeatures, w2: WordFeatures, w3: WordFeatures)
    ensures Identified(model, w1, w2, w3, Head(model, w1, w2, w3) + [Count22(model, w3)])
  {
  }

  lemma GroupIdentified(model: PerceptronModel, w1: WordFeatures, w2: WordFeatures, w3: WordFeatures, i: nat)
    requires i < |w3.igs| && FewGroups(w3)
    ensures Identified(model, w1, w2, w3, [Group15(model, w1, w2, w3, i), Group17(model, w2, w3, i), Group20(model, w3, i)])
  {
    var r := Representative(w3.igs, i);
    assert (0x1500_0000 + r) / ID_BITS == 0x15 && (0x1500_0000 + r) % ID_BITS == r;
    assert (0x1700_0000 + r) / ID_BITS == 0x17 && (0x1700_0000 + r) % ID_BITS == r;
    assert (0x2000_0000 + i) / ID_BITS == 0x20 && (0x2000_0000 + i) % ID_BITS == i;
  }

  lemma ConcatIdentified(model: PerceptronModel, w1: WordFeatures, w2: WordFeatures, w3: WordFeatures, left: seq<Feature>, right: seq<Feature>)
    requires Identified(model, w1, w2, w3, left) && Identified(model, w1, w2, w3, right)
    ensures Identified(model, w1, w2, w3, left + right)
  {
    hide ViewOf;
  }

  /** The prepared features are coherent: no two different features share an identity. */
  lemma PreparedIdentified(model: PerceptronModel, w1: WordFeatures, w2: WordFeatures, w3: WordFeatures)
    requires FewGroups(w3)
    ensures Identified(model, w1, w2, w3, Prepared(model, w1, w2, w3))
  {
    hide ViewOf, Head, Group15, Group17, Group20;
    var n := |w3.igs|;
    var list := Prepared(model, w1, w2, w3);
    HeadIdentified(model, w1, w2, w3);
    var head, count := Head(model, w1, w2, w3), Count22(model, w3);
    assert forall k :: 0 <= k < |head| ==> head[k] == (head + [count])[k];
    assert (head + [count])[|head|] == count;
    forall i | 0 <= i < n
      ensures Identified(model, w1, w2, w3, [Group15(model, w1, w2, w3, i)])
      ensures Identified(model, w1, w2, w3, [Group17(model, w2, w3, i)])
      ensures Identified(model, w1, w2, w3, [Group20(model, w3, i)])
    {
      GroupIdentified(model, w1, w2, w3, i);
      var three := [Group15(model, w1, w2, w3, i), Group17(model, w2, w3, i), Group20(model, w3, i)];
      assert three[0] == Group15(model, w1, w2, w3, i) && three[1] == Group17(model, w2, w3, i) && three[2] == Group20(model, w3, i);
    }
    EachIdentified(model, w1, w2, w3, All15(model, w1, w2, w3, n));
    EachIdentified(model, w1, w2, w3, All17(model, w2, w3, n));
    EachIdentified(model, w1, w2, w3, All20(model, w3, n));
    ConcatIdentified(model, w1, w2, w3, head, All15(model, w1, w2, w3, n));
    ConcatIdentified(model, w1, w2, w3, head + All15(model, w1, w2, w3, n), All17(model, w2, w3, n));
    ConcatIdentified(model, w1, w2, w3, head + All15(model, w1, w2, w3, n) + All17(model, w2, w3, n), All20(model, w3, n));
    ConcatIdentified(model, w1, w2, w3, head + All15(model, w1, w2, w3, n) + All17(model, w2, w3, n) + All20(model, w3, n), [count]);
  }

  lemma EachIdentified(model: PerceptronModel, w1: WordFeatures, w2: WordFeatures, w3: WordFeatures, list: seq<Feature>)
    requires forall i :: 0 <= i < |list| ==> Identified(model, w1, w2, w3, [list[i]])
    ensures Identified(model, w1, w2, w3, list)
  {
    hide ViewOf;
    forall k | 0 <= k < |list|
      ensures list[k] == model.Prepare(ViewOf(w1, w2, w3, list[k].identity), list[k].identity)
    {
      assert [list[k]][0] == list[k];
    }
  }

  // ----- both orders add the same features

  lemma {:induction false} InterleavedIsPermuted(model: PerceptronModel, w1: WordFeatures, w2: WordFeatures, w3: WordFeatures, k: nat)
    requires k <= |w3.igs|
    ensures multiset(Interleaved(model, w1, w2, w3, k)) == multiset(All15(model, w1, w2, w3, k)) + multiset(All17(model, w2, w3, k))
  {
    hide Group15, Group17, All15, All17;
    if k > 0 {
      InterleavedIsPermuted(model, w1, w2, w3, k - 1);
      TwoMore(Interleaved(model, w1, w2, w3, k - 1), All15(model, w1, w2, w3, k - 1), All17(model, w2, w3, k - 1),
              Group15(model, w1, w2, w3, k - 1), Group17(model, w2, w3, k - 1));
      AllGrow(model, w1, w2, w3, k);
    }
  }

  lemma AllGrow(model: PerceptronModel, w1: WordFeatures, w2: WordFeatures, w3: WordFeatures, k: nat)
    requires 0 < k <= |w3.igs|
    ensures All15(model, w1, w2, w3, k) == All15(model, w1, w2, w3, k - 1) + [Group15(model, w1, w2, w3, k - 1)]
    ensures All17(model, w2, w3, k) == All17(model, w2, w3, k - 1) + [Group17(model, w2, w3, k - 1)]
  {
    hide Group15, Group17;
  }

  lemma TwoMore(mixed: seq<Feature>, left: seq<Feature>, right: seq<Feature>, a: Feature, b: Feature)
    requires multiset(mixed) == multiset(left) + multiset(right)
    ensures multiset(mixed + [a] + [b]) == multiset(left + [a]) + multiset(right + [b])
  {
  }

  /** Scoring from prepared parts gives the direct score, although features are inserted in another order. */
  lemma PreparedRefinesDirect(model: PerceptronModel, w1: WordFeatures, w2: WordFeatures, w3: WordFeatures)
    requires FewGroups(w3)
    ensures Coherent(Prepared(model, w1, w2, w3)) && Coherent(Direct(model, w1, w2, w3))
    ensures FeatureSum(Prepared(model, w1, w2, w3)) == TrigramScore(model, w1, w2, w3)
  {
    hide Group15, Group17, Group20, Head, FeatureSum, Coherent, Identified, Multiplicity, All15, All17, All20, Interleaved, Alike;
    PreparedIdentified(model, w1, w2, w3);
    IdentifiedIsCoherent(model, w1, w2, w3, Prepared(model, w1, w2, w3));
    InterleavedIsPermuted(model, w1, w2, w3, |w3.igs|);
    var n := |w3.igs|;
    Rearranged(Head(model, w1, w2, w3), Interleaved(model, w1, w2, w3, n), All15(model, w1, w2, w3, n), All17(model, w2, w3, n),
               All20(model, w3, n), [Count22(model, w3)]);
    OrderIrrelevant(Prepared(model, w1, w2, w3), Direct(model, w1, w2, w3));
    SameElements(Prepared(model, w1, w2, w3), Direct(model, w1, w2, w3));
    SameSum(Prepared(model, w1, w2, w3), Direct(model, w1, w2, w3));
  }

  lemma SameSum(left: seq<Feature>, right: seq<Feature>)
    requires Alike(left, right)
    ensures FeatureSum(left) == FeatureSum(right)
  {
  }

  lemma Rearranged(head: seq<Feature>, mixed: seq<Feature>, a: seq<Feature>, b: seq<Feature>, c: seq<Feature>, d: seq<Feature>)
    requires multiset(mixed) == multiset(a) + multiset(b)
    ensures multiset(head + a + b + c + d) == multiset(head + mixed + c + d)
  {
  }

  // ----- the two scorers

  lemma PrefixCoherent(whole: seq<Feature>, part: seq<Feature>)
    requires Coherent(whole) && part <= whole
    ensures Coherent(part)
  {
  }

  /** Adds a list of features, one after the other, in front of the rest of a coherent list. */
  method AddAll(scratch: FeatureScratch, list: seq<Feature>, ghost whole: seq<Feature>)
    requires scratch.Valid() && Coherent(whole) && scratch.log + list <= whole
    modifies scratch
    ensures scratch.Valid() && scratch.log == old(scratch.log) + list
  {
    hide Coherent, FeatureScratch.Valid;
    var i := 0;
    while i < |list|
      invariant 0 <= i <= |list|
      invariant scratch.Valid() && scratch.log == old(scratch.log) + list[..i]
    {
      assert scratch.log + [list[i]] == old(scratch.log) + list[..i + 1];
      assert old(scratch.log) + list[..i + 1] <= whole;
      PrefixCoherent(whole, scratch.log + [list[i]]);
      scratch.Add(list[i]);
      i := i + 1;
    }
    assert list[..i] == list;
  }

  /** Renders every feature of the trigram and sums the weights. */
  method ScoreDirect(model: PerceptronModel, w1: WordFeatures, w2: WordFeatures, w3: WordFeatures, scratch: FeatureScratch)
    returns (score: real)
    requires scratch.Valid() && FewGroups(w3)
    modifies scratch
    ensures scratch.Valid() && score == TrigramScore(model, w1, w2, w3)
  {
    hide Coherent, FeatureScratch.Valid, Group15, Group17, Group20, Head, FeatureSum, Representative, PerceptronModel.Prepare;
    PreparedRefinesDirect(model, w1, w2, w3);
    var n := |w3.igs|;
    ghost var whole := Direct(model, w1, w2, w3);
    scratch.Reset();
    AddAll(scratch, Head(model, w1, w2, w3), whole);
    var i := 0;
    while i < n
      invariant 0 <= i <= n && scratch.Valid()
      invariant scratch.log == Head(model, w1, w2, w3) + Interleaved(model, w1, w2, w3, i)
    {
      ghost var before := scratch.log;
      InterleavedPrefix(model, w1, w2, w3, i + 1, n);
      assert before + [Group15(model, w1, w2, w3, i), Group17(model, w2, w3, i)]
             == Head(model, w1, w2, w3) + Interleaved(model, w1, w2, w3, i + 1);
      AddAll(scratch, [Group15(model, w1, w2, w3, i), Group17(model, w2, w3, i)], whole);
      i := i + 1;
    }
    AddAll(scratch, All20(model, w3, n), whole);
    AddAll(scratch, [Count22(model, w3)], whole);
    score := scratch.Score();
  }

  lemma {:induction false} InterleavedPrefix(model: PerceptronModel, w1: WordFeatures, w2: WordFeatures, w3: WordFeatures, k: nat, n: nat)
    requires k <= n <= |w3.igs|
    ensures Interleaved(model, w1, w2, w3, k) <= Interleaved(model, w1, w2, w3, n)
  {
    hide Group15, Group17;
    if k < n {
      InterleavedPrefix(model, w1, w2, w3, k, n - 1);
    }
  }

  /** The features one word contributes, whatever its neighbours. */
  datatype PreparedWord = PreparedWord(f4: Feature, f10: Feature, f10b: Feature, f10c: Feature, f20: seq<Feature>, f22: Feature)

  /** The features a pair of neighbours contributes, whatever precedes it. */
  datatype PreparedPair = PreparedPair(f3: Feature, f9: Feature, f17: seq<Feature>)

  function PrepareWord(model: PerceptronModel, w: WordFeatures): PreparedWord {
    PreparedWord(model.Prepare(F4(w.headword, w.igs), 0x400_0000), model.Prepare(F10(w.headword), 0xa00_0000),
                 model.Prepare(F10b(w.headword), 0xb00_0000), model.Prepare(F10c(w.headword), 0xc00_0000),
                 All20(model, w, |w.igs|), Count22(model, w))
  }

  function PreparePair(model: PerceptronModel, w2: WordFeatures, w3: WordFeatures): PreparedPair {
    PreparedPair(model.Prepare(F3(w2.headword, w2.igs, w3.headword, w3.igs), 0x300_0000),
                 model.Prepare(F9(w2.headword, w3.headword), 0x900_0000), All17(model, w2, w3, |w3.igs|))
  }

  /** Sums the weights from the prepared parts of the three words and the last pair. */
  method ScorePrepared(model: PerceptronModel, w1: WordFeatures, w2: WordFeatures, w3: WordFeatures,
                       p1: PreparedWord, p2: PreparedWord, p3: PreparedWord, pair: PreparedPair, scratch: FeatureScratch)
    returns (score: real)
    requires scratch.Valid() && FewGroups(w3)
    requires p1 == PrepareWord(model, w1) && p2 == PrepareWord(model, w2) && p3 == PrepareWord(model, w3)
    requires pair == PreparePair(model, w2, w3)
    modifies scratch
    ensures scratch.Valid() && score == TrigramScore(model, w1, w2, w3)
  {
    hide Coherent, FeatureScratch.Valid, Group15, Group17, Group20, FeatureSum, Representative, PerceptronModel.Prepare;
    PreparedRefinesDirect(model, w1, w2, w3);
    var n := |w3.igs|;
    ghost var whole := Prepared(model, w1, w2, w3);
    scratch.Reset();
    var head := [model.Prepare(F2(w1.headword, w2.igs, w3.headword, w3.igs), 0x200_0000),
                 pair.f3, p3.f4, pair.f9, p3.f10, p2.f10b, p1.f10c];
    assert head == Head(model, w1, w2, w3);
    AddAll(scratch, head, whole);
    var i := 0;
    while i < n
      invariant 0 <= i <= n && scratch.Valid()
      invariant scratch.log == head + All15(model, w1, w2, w3, i)
    {
      assert All15(model, w1, w2, w3, n)[..i + 1] == All15(model, w1, w2, w3, i) + [Group15(model, w1, w2, w3, i)];
      assert whole[..|head| + i + 1] == scratch.log + [Group15(model, w1, w2, w3, i)];
      AddAll(scratch, [Group15(model, w1, w2, w3, i)], whole);
      assert All15(model, w1, w2, w3, i + 1) == All15(model, w1, w2, w3, i) + [Group15(model, w1, w2, w3, i)];
      i := i + 1;
    }
    AddAll(scratch, pair.f17, whole);
    AddAll(scratch, p3.f20, whole);
    AddAll(scratch, [p3.f22], whole);
    score := scratch.Score();
  }
}
