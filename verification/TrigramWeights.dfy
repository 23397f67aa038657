/** The trigram score as a sum of feature weights, without feature lists or identities. */
module TrigramWeights {
  import opened Lattices
  import opened FeatureScratchTable
  import opened TrigramFeatures

  function LastGroup(w: WordFeatures): string {
    if |w.igs| == 0 then "" else w.igs[|w.igs| - 1]
  }

  /** The features of the words and of the pairs of words. */
  function WordWeights(weight: FeatureView -> real, w1: WordFeatures, w2: WordFeatures, w3: WordFeatures): real {
    weight(F2(w1.headword, w2.igs, w3.headword, w3.igs)) + weight(F3(w2.headword, w2.igs, w3.headword, w3.igs))
    + weight(F4(w3.headword, w3.igs)) + weight(F9(w2.headword, w3.headword)) + weight(F10(w3.headword))
    + weight(F10b(w2.headword)) + weight(F10c(w1.headword)) + weight(F22(|w3.igs|))
  }

  /** The first `k` groups of the last word after the last groups of the two words before it; of equal groups only the
      first 32767 count. */
  function GroupWeights(weight: FeatureView -> real, w1: WordFeatures, w2: WordFeatures, w3: WordFeatures, k: nat): real
    requires k <= |w3.igs|
  {
    if k == 0 then 0.0
    else
      var ig := w3.igs[k - 1];
      GroupWeights(weight, w1, w2, w3, k - 1) +
      if multiset(w3.igs[..k - 1])[ig] < 32767 then weight(F15(LastGroup(w1), LastGroup(w2), ig)) + weight(F17(LastGroup(w2), ig)) else 0.0
  }

  /** The first `k` groups of the last word by their positions. */
  function PositionWeights(weight: FeatureView -> real, w3: WordFeatures, k: nat): real
    requires k <= |w3.igs|
  {
    if k == 0 then 0.0 else PositionWeights(weight, w3, k - 1) + weight(F20(k - 1, w3.igs[k - 1]))
  }

  // ----- multiplicities

  lemma {:induction false} MultiplicityAdds(left: seq<Feature>, right: seq<Feature>, id: nat)
    ensures Multiplicity(left + right, id) == Multiplicity(left, id) + Multiplicity(right, id)
    decreases |right|
  {
    if right == [] {
      assert left + right == left;
    } else {
      var n := |right| - 1;
      MultiplicityAdds(left, right[..n], id);
      assert (left + right)[..|left + right| - 1] == left + right[..n];
    }
  }

  lemma Absent(log: seq<Feature>, id: nat)
    requires forall k :: 0 <= k < |log| ==> log[k].identity != id
    ensures Multiplicity(log, id) == 0
  {
    OccursIffCounted(log, id);
  }

  lemma AppendNew(log: seq<Feature>, f: Feature)
    requires forall k :: 0 <= k < |log| ==> log[k].identity != f.identity
    ensures FeatureSum(log + [f]) == FeatureSum(log) + f.weight
  {
    Absent(log, f.identity);
    Appending(log, f);
  }

  /** The identity of a group feature is its tag and the first position of the group. */
  lemma GroupIdentity(model: PerceptronModel, w1: WordFeatures, w2: WordFeatures, w3: WordFeatures, i: nat)
    requires FewGroups(w3) && i < |w3.igs|
    ensures Group15(model, w1, w2, w3, i).identity == 0x1500_0000 + Representative(w3.igs, i) < 0x1600_0000
    ensures Group17(model, w2, w3, i).identity == 0x1700_0000 + Representative(w3.igs, i) < 0x1800_0000
    ensures Group20(model, w3, i).identity == 0x2000_0000 + i < 0x2100_0000
    ensures Group15(model, w1, w2, w3, i).weight == model.weight(F15(LastGroup(w1), LastGroup(w2), w3.igs[i]))
    ensures Group17(model, w2, w3, i).weight == model.weight(F17(LastGroup(w2), w3.igs[i]))
    ensures Group20(model, w3, i).weight == model.weight(F20(i, w3.igs[i]))
  {
  }

  lemma SameRepresentative(igs: seq<string>, i: nat, j: nat)
    requires i < |igs| && j < |igs|
    ensures Representative(igs, i) == Representative(igs, j) <==> igs[i] == igs[j]
  {
  }

  lemma SameIdentity(model: PerceptronModel, w1: WordFeatures, w2: WordFeatures, w3: WordFeatures, k: nat, i: nat)
    requires FewGroups(w3) && i < |w3.igs| && k < |w3.igs|
    ensures var f, g, r := Group15(model, w1, w2, w3, k).identity, Group17(model, w2, w3, k).identity, Representative(w3.igs, i);
            && (f == 0x1500_0000 + r <==> w3.igs[k] == w3.igs[i]) && f != 0x1700_0000 + r
            && (g == 0x1700_0000 + r <==> w3.igs[k] == w3.igs[i]) && g != 0x1500_0000 + r
  {
    hide Group15, Group17;
    GroupIdentity(model, w1, w2, w3, k);
    GroupIdentity(model, w1, w2, w3, i);
    SameRepresentative(w3.igs, k, i);
  }

  lemma PrefixCount(igs: seq<string>, k: nat, ig: string)
    requires 0 < k <= |igs|
    ensures multiset(igs[..k])[ig] == multiset(igs[..k - 1])[ig] + if igs[k - 1] == ig then 1 else 0
  {
    assert igs[..k] == igs[..k - 1] + [igs[k - 1]];
  }

  lemma CountTwo(log: seq<Feature>, f: Feature, g: Feature, id: nat)
    ensures Multiplicity(log + [f] + [g], id)
            == Multiplicity(log, id) + (if f.identity == id then 1 else 0) + if g.identity == id then 1 else 0
  {
    Appending(log, f);
    Appending(log + [f], g);
  }

  lemma SumTwo(log: seq<Feature>, f: Feature, g: Feature, count: nat)
    requires f.identity != g.identity && Multiplicity(log, f.identity) == count && Multiplicity(log, g.identity) == count
    ensures FeatureSum(log + [f] + [g]) == FeatureSum(log) + if count < 32767 then f.weight + g.weight else 0.0
  {
    Appending(log, f);
    Appending(log + [f], g);
  }

  lemma NothingInterleaved(model: PerceptronModel, w1: WordFeatures, w2: WordFeatures, w3: WordFeatures)
    ensures Interleaved(model, w1, w2, w3, 0) == []
  {
  }

  lemma InterleavedNext(model: PerceptronModel, w1: WordFeatures, w2: WordFeatures, w3: WordFeatures, k: nat)
    requires 0 < k <= |w3.igs|
    ensures Interleaved(model, w1, w2, w3, k)
            == Interleaved(model, w1, w2, w3, k - 1) + [Group15(model, w1, w2, w3, k - 1)] + [Group17(model, w2, w3, k - 1)]
  {
  }

  /** Equal groups are counted together. */
  lemma {:induction false} GroupCount(model: PerceptronModel, w1: WordFeatures, w2: WordFeatures, w3: WordFeatures, k: nat, i: nat)
    requires FewGroups(w3) && k <= |w3.igs| && i < |w3.igs|
    ensures Multiplicity(Interleaved(model, w1, w2, w3, k), 0x1500_0000 + Representative(w3.igs, i)) == multiset(w3.igs[..k])[w3.igs[i]]
    ensures Multiplicity(Interleaved(model, w1, w2, w3, k), 0x1700_0000 + Representative(w3.igs, i)) == multiset(w3.igs[..k])[w3.igs[i]]
    decreases k
  {
    hide *;
    if k == 0 {
      NoGroups(model, w1, w2, w3, 0x1500_0000 + Representative(w3.igs, i), w3.igs[i]);
      NoGroups(model, w1, w2, w3, 0x1700_0000 + Representative(w3.igs, i), w3.igs[i]);
    } else {
      var before, f, g := Interleaved(model, w1, w2, w3, k - 1), Group15(model, w1, w2, w3, k - 1), Group17(model, w2, w3, k - 1);
      InterleavedNext(model, w1, w2, w3, k);
      GroupCount(model, w1, w2, w3, k - 1, i);
      PrefixCount(w3.igs, k, w3.igs[i]);
      SameIdentity(model, w1, w2, w3, k - 1, i);
      CountTwo(before, f, g, 0x1500_0000 + Representative(w3.igs, i));
      CountTwo(before, f, g, 0x1700_0000 + Representative(w3.igs, i));
    }
  }

  lemma NoGroups(model: PerceptronModel, w1: WordFeatures, w2: WordFeatures, w3: WordFeatures, id: nat, ig: string)
    ensures Multiplicity(Interleaved(model, w1, w2, w3, 0), id) == multiset(w3.igs[..0])[ig] == 0
  {
  }

  lemma {:induction false} InterleavedTags(model: PerceptronModel, w1: WordFeatures, w2: WordFeatures, w3: WordFeatures, k: nat)
    requires FewGroups(w3) && k <= |w3.igs|
    ensures forall j :: 0 <= j < |Interleaved(model, w1, w2, w3, k)| ==> 0x1500_0000 <= Interleaved(model, w1, w2, w3, k)[j].identity < 0x1800_0000
  {
    if k > 0 {
      hide Group15, Group17;
      GroupIdentity(model, w1, w2, w3, k - 1);
      InterleavedTags(model, w1, w2, w3, k - 1);
    }
  }

  // ----- sums

  /** The seven features of the words come first and are distinct. */
  lemma HeadSum(model: PerceptronModel, w1: WordFeatures, w2: WordFeatures, w3: WordFeatures)
    ensures FeatureSum(Head(model, w1, w2, w3)) + model.weight(F22(|w3.igs|)) == WordWeights(model.weight, w1, w2, w3)
    ensures forall k :: 0 <= k < |Head(model, w1, w2, w3)| ==> Head(model, w1, w2, w3)[k].identity < 0xd00_0000
  {
    hide FeatureSum;
    var head := Head(model, w1, w2, w3);
    assert FeatureSum(head[..0]) == 0.0 by { EmptySum(); }
    PrefixSum(head, 0);
    PrefixSum(head, 1);
    PrefixSum(head, 2);
    PrefixSum(head, 3);
    PrefixSum(head, 4);
    PrefixSum(head, 5);
    PrefixSum(head, 6);
    assert head[..7] == head;
  }

  lemma EmptySum()
    ensures FeatureSum([]) == 0.0
  {
  }

  lemma PrefixSum(log: seq<Feature>, k: nat)
    requires k < |log| && forall j :: 0 <= j < k ==> log[j].identity != log[k].identity
    ensures FeatureSum(log[..k + 1]) == FeatureSum(log[..k]) + log[k].weight
  {
    assert log[..k + 1] == log[..k] + [log[k]];
    AppendNew(log[..k], log[k]);
  }

  lemma {:induction false} GroupSum(model: PerceptronModel, w1: WordFeatures, w2: WordFeatures, w3: WordFeatures, k: nat)
    requires FewGroups(w3) && k <= |w3.igs|
    ensures FeatureSum(Head(model, w1, w2, w3) + Interleaved(model, w1, w2, w3, k))
            == FeatureSum(Head(model, w1, w2, w3)) + GroupWeights(model.weight, w1, w2, w3, k)
    decreases k
  {
    hide Head, Group15, Group17, Representative, Multiplicity, FeatureSum, Interleaved, LastGroup;
    var head := Head(model, w1, w2, w3);
    if k == 0 {
      assert Interleaved(model, w1, w2, w3, 0) == [] by { NothingInterleaved(model, w1, w2, w3); }
      assert head + [] == head;
    } else {
      var before, f, g := head + Interleaved(model, w1, w2, w3, k - 1), Group15(model, w1, w2, w3, k - 1), Group17(model, w2, w3, k - 1);
      GroupSum(model, w1, w2, w3, k - 1);
      GroupIdentity(model, w1, w2, w3, k - 1);
      GroupCount(model, w1, w2, w3, k - 1, k - 1);
      HeadSum(model, w1, w2, w3);
      Absent(head, f.identity);
      Absent(head, g.identity);
      MultiplicityAdds(head, Interleaved(model, w1, w2, w3, k - 1), f.identity);
      MultiplicityAdds(head, Interleaved(model, w1, w2, w3, k - 1), g.identity);
      SumTwo(before, f, g, multiset(w3.igs[..k - 1])[w3.igs[k - 1]]);
      InterleavedNext(model, w1, w2, w3, k);
      assert head + Interleaved(model, w1, w2, w3, k) == before + [f] + [g];
    }
  }

  lemma {:induction false} PositionSum(model: PerceptronModel, w3: WordFeatures, log: seq<Feature>, k: nat)
    requires FewGroups(w3) && k <= |w3.igs| && forall j :: 0 <= j < |log| ==> log[j].identity < 0x1800_0000
    ensures FeatureSum(log + All20(model, w3, k)) == FeatureSum(log) + PositionWeights(model.weight, w3, k)
    ensures forall j :: 0 <= j < |log + All20(model, w3, k)| ==> (log + All20(model, w3, k))[j].identity < 0x2000_0000 + k
    decreases k
  {
    hide Group20, FeatureSum;
    if k == 0 {
      assert log + All20(model, w3, 0) == log;
    } else {
      PositionSum(model, w3, log, k - 1);
      PositionIdentity(model, w3, k - 1);
      var f := Group20(model, w3, k - 1);
      assert All20(model, w3, k) == All20(model, w3, k - 1) + [f];
      assert log + All20(model, w3, k) == log + All20(model, w3, k - 1) + [f];
      AppendNew(log + All20(model, w3, k - 1), f);
    }
  }

  lemma PositionIdentity(model: PerceptronModel, w3: WordFeatures, i: nat)
    requires FewGroups(w3) && i < |w3.igs|
    ensures Group20(model, w3, i).identity == 0x2000_0000 + i && Group20(model, w3, i).weight == model.weight(F20(i, w3.igs[i]))
  {
  }

  /** The score of a trigram, feature by feature: what each feature is made of, and how often it counts. */
  lemma ScoreIsWeights(model: PerceptronModel, w1: WordFeatures, w2: WordFeatures, w3: WordFeatures)
    requires FewGroups(w3)
    ensures TrigramScore(model, w1, w2, w3)
            == WordWeights(model.weight, w1, w2, w3) + GroupWeights(model.weight, w1, w2, w3, |w3.igs|)
               + PositionWeights(model.weight, w3, |w3.igs|)
  {
    hide Head, Group15, Group17, FeatureSum, All20, Interleaved;
    var n := |w3.igs|;
    HeadSum(model, w1, w2, w3);
    GroupSum(model, w1, w2, w3, n);
    InterleavedTags(model, w1, w2, w3, n);
    var log := Head(model, w1, w2, w3) + Interleaved(model, w1, w2, w3, n);
    PositionSum(model, w3, log, n);
    var count := Count22(model, w3);
    assert count.identity == 0x2200_0000 && count.weight == model.weight(F22(n));
    AppendNew(log + All20(model, w3, n), count);
  }
}
