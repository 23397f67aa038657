/** Analyses of a unit collapsed into output classes that keep the total score mass. */
module ClassCollapse {
  import opened Common
  import opened Lexicographic
  import Sorting

  // ----- log-space addition

  /** A logarithm of a weight; the weight zero has no finite logarithm. */
  datatype LogScore = Log(value: real) | MinusInfinity

  /** The exponential function and its inverse, known by their laws. */
  datatype Exponential = Exponential(exp: real -> real, ln: real -> real) {
    ghost predicate Product(x: real, y: real) {
      exp(x + y) == exp(x) * exp(y)
    }

    ghost predicate Valid() {
      && (forall x :: exp(x) > 0.0)
      && (forall x, y :: Product(x, y))
      && (forall y :: y > 0.0 ==> exp(ln(y)) == y)
    }

    function Weight(s: LogScore): real {
      if s.MinusInfinity? then 0.0 else exp(s.value)
    }

    function LogAddExp(left: LogScore, right: LogScore): LogScore {
      if left.MinusInfinity? then right
      else if right.MinusInfinity? then left
      else
        var maximum := if left.value >= right.value then left.value else right.value;
        Log(maximum + ln(exp(left.value - maximum) + exp(right.value - maximum)))
    }

    /** Adding in log space adds weights, whichever operand is the maximum. */
    lemma LogAddExpAdds(left: LogScore, right: LogScore)
      requires Valid()
      ensures Weight(LogAddExp(left, right)) == Weight(left) + Weight(right)
    {
      if left.Log? && right.Log? {
        var maximum := if left.value >= right.value then left.value else right.value;
        var l, r := exp(left.value - maximum), exp(right.value - maximum);
        assert Product(maximum, ln(l + r)) && Product(maximum, left.value - maximum) && Product(maximum, right.value - maximum);
        assert maximum + (left.value - maximum) == left.value && maximum + (right.value - maximum) == right.value;
        Distribute(exp(maximum), l, r);
      }
    }
  }

  lemma Distribute(a: real, b: real, c: real)
    ensures a * (b + c) == a * b + a * c
  {
  }

  // ----- cuts

  predicate Ascending(cuts: seq<nat>) {
    forall i, j :: 0 <= i < j < |cuts| ==> cuts[i] < cuts[j]
  }

  function InsertCut(cuts: seq<nat>, cut: nat): (r: seq<nat>)
    requires Ascending(cuts)
    ensures Ascending(r) && forall c :: c in r <==> c in cuts || c == cut
  {
    if cuts == [] || cuts[|cuts| - 1] < cut then cuts + [cut]
    else if cuts[|cuts| - 1] == cut then cuts
    else
      var front := InsertCut(cuts[..|cuts| - 1], cut);
      assert cuts == cuts[..|cuts| - 1] + [cuts[|cuts| - 1]];
      assert forall i :: 0 <= i < |front| ==> front[i] in front;
      front + [cuts[|cuts| - 1]]
  }

  /** Sorts and removes duplicates. */
  function SortCuts(cuts: seq<nat>): (r: seq<nat>)
    ensures Ascending(r) && forall c :: c in r <==> c in cuts
  {
    if cuts == [] then []
    else
      assert cuts == cuts[..|cuts| - 1] + [cuts[|cuts| - 1]];
      InsertCut(SortCuts(cuts[..|cuts| - 1]), cuts[|cuts| - 1])
  }

  /** Cuts of a candidate: shifted to the unit, merged with the cuts of a number. */
  function CutsOf(start: nat, relative: seq<nat>, numeric: seq<nat>): seq<nat> {
    var shifted := seq(|relative|, i requires 0 <= i < |relative| => start + relative[i]);
    if numeric == [] then shifted else SortCuts(shifted + numeric)
  }

  // ----- classes

  datatype Score = Finite(value: real) | NonFinite

  datatype Candidate = Candidate(relativeCuts: seq<nat>, unknown: bool, score: Score)

  /** What decides the class of a candidate. */
  datatype Key = Key(cuts: seq<nat>, unknown: bool)

  datatype Class = Class(key: Key, score: LogScore, selected: bool)

  datatype Unit = Unit(start: nat, numericCuts: seq<nat>) {
    function KeyOf(c: Candidate): Key {
      Key(CutsOf(start, c.relativeCuts, numericCuts), c.unknown)
    }
  }

  /** The cuts of a candidate in a unit: its relative cuts from the unit's start, and in a unit with numeric cuts those as
      well, all in ascending order. */
  ghost predicate AreCutsOf(cuts: seq<nat>, u: Unit, c: Candidate) {
    && (forall cut :: cut in cuts <==> cut in u.numericCuts || IsShifted(cut, u.start, c.relativeCuts))
    && if u.numericCuts != [] then Ascending(cuts)
       else |cuts| == |c.relativeCuts| && forall i :: 0 <= i < |cuts| ==> cuts[i] == u.start + c.relativeCuts[i]
  }

  ghost predicate IsShifted(cut: nat, start: nat, relative: seq<nat>) {
    exists i :: 0 <= i < |relative| && cut == start + relative[i]
  }

  /** A class stands for a candidate: it has its cuts and its flag. */
  ghost predicate StandsFor(k: Class, u: Unit, c: Candidate) {
    k.key.unknown == c.unknown && AreCutsOf(k.key.cuts, u, c)
  }

  lemma CutsAreCuts(u: Unit, c: Candidate)
    ensures AreCutsOf(u.KeyOf(c).cuts, u, c)
  {
    var n := |c.relativeCuts|;
    var shifted := seq(n, i requires 0 <= i < n => u.start + c.relativeCuts[i]);
    assert shifted == seq(|c.relativeCuts|, i requires 0 <= i < |c.relativeCuts| => u.start + c.relativeCuts[i]);
    forall cut
      ensures cut in shifted <==> IsShifted(cut, u.start, c.relativeCuts)
    {
      if IsShifted(cut, u.start, c.relativeCuts) {
        var i :| 0 <= i < n && cut == u.start + c.relativeCuts[i];
        assert shifted[i] == cut;
      }
    }
  }

  lemma SomeMember(a: seq<nat>)
    ensures a != [] <==> exists c :: c in a
  {
    if a != [] {
      assert a[0] in a;
    }
  }

  lemma SmallerMembers(a: seq<nat>)
    requires Ascending(a) && a != []
    ensures Ascending(a[..|a| - 1]) && forall c :: c in a[..|a| - 1] <==> c in a && c < a[|a| - 1]
    ensures forall c :: c in a ==> c <= a[|a| - 1]
  {
  }

  /** Ascending lists with the same members are the same list. */
  lemma {:induction false} AscendingUnique(a: seq<nat>, b: seq<nat>)
    requires Ascending(a) && Ascending(b) && forall c :: c in a <==> c in b
    ensures a == b
    decreases |a|
  {
    hide Ascending;
    if a == [] || b == [] {
      SomeMember(a);
      SomeMember(b);
    } else {
      var n, m := |a| - 1, |b| - 1;
      assert a[n] in b && b[m] in a;
      assert a == a[..n] + [a[n]] && b == b[..m] + [b[m]];
      SmallerMembers(a);
      SmallerMembers(b);
      assert a[n] == b[m];
      forall c
        ensures c in a[..n] <==> c in b[..m]
      {
        assert c in a[..|a| - 1] <==> c in a && c < a[n];
        assert c in b[..|b| - 1] <==> c in b && c < b[m];
      }
      AscendingUnique(a[..n], b[..m]);
    }
  }

  /** The class with the key of a candidate is the one that stands for it. */
  lemma KeyStandsFor(k: Class, u: Unit, c: Candidate)
    ensures StandsFor(k, u, c) <==> k.key == u.KeyOf(c)
  {
    hide CutsOf;
    CutsAreCuts(u, c);
    if StandsFor(k, u, c) {
      if u.numericCuts != [] {
        AscendingUnique(k.key.cuts, u.KeyOf(c).cuts);
      } else {
        assert k.key.cuts == u.KeyOf(c).cuts;
      }
    }
  }

  const NON_FINITE := "non-finite score"
  const NOT_ONE_SELECTED := "one selected class is required"

  predicate AllFinite(candidates: seq<Candidate>) {
    forall c :: c in candidates ==> c.score.Finite?
  }

  function CandidateWeight(m: Exponential, c: Candidate): real {
    if c.score.Finite? then m.exp(c.score.value) else 0.0
  }

  function TotalWeight(m: Exponential, candidates: seq<Candidate>): real {
    if candidates == [] then 0.0
    else TotalWeight(m, candidates[..|candidates| - 1]) + CandidateWeight(m, candidates[|candidates| - 1])
  }

  /** The weight of the candidates with a given key. */
  function KeyWeight(m: Exponential, u: Unit, candidates: seq<Candidate>, key: Key): real {
    if candidates == [] then 0.0
    else
      var last := candidates[|candidates| - 1];
      KeyWeight(m, u, candidates[..|candidates| - 1], key) + if u.KeyOf(last) == key then CandidateWeight(m, last) else 0.0
  }

  function ClassesWeight(m: Exponential, classes: seq<Class>): real {
    if classes == [] then 0.0
    else ClassesWeight(m, classes[..|classes| - 1]) + m.Weight(classes[|classes| - 1].score)
  }

  ghost predicate DistinctKeys(classes: seq<Class>) {
    forall i, j :: 0 <= i < j < |classes| ==> classes[i].key != classes[j].key
  }

  ghost predicate HasKey(classes: seq<Class>, key: Key) {
    exists i :: 0 <= i < |classes| && classes[i].key == key
  }

  /** Classes have distinct keys, exactly those of the candidates, and carry their weights and the selection. */
  ghost predicate Partition(m: Exponential, u: Unit, candidates: seq<Candidate>, selected: nat, classes: seq<Class>) {
    && DistinctKeys(classes)
    && (forall c :: c in candidates ==> HasKey(classes, u.KeyOf(c)))
    && (forall i :: 0 <= i < |classes| ==>
          && (exists c :: c in candidates && u.KeyOf(c) == classes[i].key)
          && m.Weight(classes[i].score) == KeyWeight(m, u, candidates, classes[i].key)
          && (classes[i].selected <==> selected < |candidates| && u.KeyOf(candidates[selected]) == classes[i].key))
  }

  /** Every candidate is stood for by one class and every class stands for a candidate; a class is selected exactly when it
      stands for the selected candidate. */
  ghost predicate Classified(u: Unit, candidates: seq<Candidate>, selected: nat, classes: seq<Class>) {
    && (forall c :: c in candidates ==> exists i :: 0 <= i < |classes| && StandsFor(classes[i], u, c))
    && (forall c, i, j :: c in candidates && 0 <= i < j < |classes| ==> !StandsFor(classes[i], u, c) || !StandsFor(classes[j], u, c))
    && (forall i :: 0 <= i < |classes| ==> exists c :: c in candidates && StandsFor(classes[i], u, c))
    && (selected < |candidates| ==> forall i :: 0 <= i < |classes| ==> (classes[i].selected <==> StandsFor(classes[i], u, candidates[selected])))
  }

  lemma PartitionClassifies(m: Exponential, u: Unit, candidates: seq<Candidate>, selected: nat, classes: seq<Class>)
    requires Partition(m, u, candidates, selected, classes)
    ensures Classified(u, candidates, selected, classes)
  {
    hide CutsOf, StandsFor, KeyWeight;
    forall c, i | 0 <= i < |classes|
      ensures StandsFor(classes[i], u, c) <==> classes[i].key == u.KeyOf(c)
    {
      KeyStandsFor(classes[i], u, c);
    }
  }

  /** Position of the class with a key. */
  method Find(classes: seq<Class>, key: Key) returns (at: nat)
    ensures at <= |classes| && (at < |classes| ==> classes[at].key == key)
    ensures at == |classes| <==> !HasKey(classes, key)
  {
    at := 0;
    while at < |classes|
      invariant at <= |classes| && forall i :: 0 <= i < at ==> classes[i].key != key
    {
      if classes[at].key == key {
        return;
      }
      at := at + 1;
    }
  }

  lemma {:induction false} NoCandidateNoWeight(m: Exponential, u: Unit, candidates: seq<Candidate>, key: Key)
    requires forall c :: c in candidates ==> u.KeyOf(c) != key
    ensures KeyWeight(m, u, candidates, key) == 0.0
  {
    hide CutsOf;
    if candidates != [] {
      NoCandidateNoWeight(m, u, candidates[..|candidates| - 1], key);
    }
  }

  lemma KeyWeightNext(m: Exponential, u: Unit, candidates: seq<Candidate>, i: nat)
    requires i < |candidates|
    ensures candidates[..i + 1] == candidates[..i] + [candidates[i]]
    ensures forall key :: KeyWeight(m, u, candidates[..i + 1], key)
              == KeyWeight(m, u, candidates[..i], key) + if u.KeyOf(candidates[i]) == key then CandidateWeight(m, candidates[i]) else 0.0
  {
    hide CutsOf;
    assert candidates[..i + 1][..i] == candidates[..i];
  }

  /** A candidate whose key has a class joins it. */
  lemma JoinClass(m: Exponential, u: Unit, candidates: seq<Candidate>, i: nat, selected: nat, classes: seq<Class>, at: nat)
    requires i < |candidates| && candidates[i].score.Finite? && m.Valid() && at < |classes|
    requires Partition(m, u, candidates[..i], selected, classes) && u.KeyOf(candidates[i]) == classes[at].key
    ensures var before := classes[at];
            var joined := Class(before.key, m.LogAddExp(before.score, Log(candidates[i].score.value)), before.selected || i == selected);
            Partition(m, u, candidates[..i + 1], selected, classes[at := joined])
  {
    hide CutsOf, Exponential.LogAddExp, Exponential.Valid, KeyWeight;
    var c := candidates[i];
    var before := classes[at];
    var joined := Class(before.key, m.LogAddExp(before.score, Log(c.score.value)), before.selected || i == selected);
    var after := classes[at := joined];
    m.LogAddExpAdds(before.score, Log(c.score.value));
    KeyWeightNext(m, u, candidates, i);
    forall k | 0 <= k < |after|
      ensures m.Weight(after[k].score) == KeyWeight(m, u, candidates[..i + 1], after[k].key)
    {
      if k != at {
        assert classes[k].key != classes[at].key;
      }
    }
    KeysKept(u, candidates[..i], c, classes, after);
  }

  lemma KeysKept(u: Unit, candidates: seq<Candidate>, c: Candidate, classes: seq<Class>, after: seq<Class>)
    requires forall d :: d in candidates ==> HasKey(classes, u.KeyOf(d))
    requires |after| >= |classes| && forall k :: 0 <= k < |classes| ==> after[k].key == classes[k].key
    requires HasKey(after, u.KeyOf(c))
    ensures forall d :: d in candidates + [c] ==> HasKey(after, u.KeyOf(d))
  {
    hide CutsOf;
    forall d | d in candidates
      ensures HasKey(after, u.KeyOf(d))
    {
      var k :| 0 <= k < |classes| && classes[k].key == u.KeyOf(d);
      assert after[k].key == u.KeyOf(d);
    }
  }

  /** A candidate with a new key opens a class. */
  lemma OpenClass(m: Exponential, u: Unit, candidates: seq<Candidate>, i: nat, selected: nat, classes: seq<Class>)
    requires i < |candidates| && candidates[i].score.Finite?
    requires Partition(m, u, candidates[..i], selected, classes) && !HasKey(classes, u.KeyOf(candidates[i]))
    ensures Partition(m, u, candidates[..i + 1], selected,
                      classes + [Class(u.KeyOf(candidates[i]), Log(candidates[i].score.value), i == selected)])
  {
    hide CutsOf, Exponential.Valid, KeyWeight;
    var c := candidates[i];
    var after := classes + [Class(u.KeyOf(c), Log(c.score.value), i == selected)];
    KeyWeightNext(m, u, candidates, i);
    NoCandidateNoWeight(m, u, candidates[..i], u.KeyOf(c));
    assert after[|classes|].key == u.KeyOf(c);
    KeysKept(u, candidates[..i], c, classes, after);
  }

  /** Groups candidates by cuts and unknown flag; fails exactly when a score is not finite. */
  method BuildClasses(m: Exponential, u: Unit, candidates: seq<Candidate>, selected: nat) returns (r: Result<seq<Class>, string>)
    requires m.Valid() && selected < |candidates|
    ensures r.Ok? <==> AllFinite(candidates)
    ensures r.Ok? ==> Partition(m, u, candidates, selected, r.value) && Classified(u, candidates, selected, r.value)
    ensures r.Err? ==> r.error == NON_FINITE
  {
    hide CutsOf, Partition, HasKey, Exponential.Valid, Exponential.LogAddExp, Classified;
    var classes: seq<Class> := [];
    var i := 0;
    assert Partition(m, u, candidates[..0], selected, []) by { NothingToPartition(m, u, selected); }
    while i < |candidates|
      invariant 0 <= i <= |candidates|
      invariant forall k :: 0 <= k < i ==> candidates[k].score.Finite?
      invariant Partition(m, u, candidates[..i], selected, classes)
    {
      var c := candidates[i];
      var key := u.KeyOf(c);
      if c.score.NonFinite? {
        return Err(NON_FINITE);
      }
      var at := Find(classes, key);
      if at < |classes| {
        JoinClass(m, u, candidates, i, selected, classes, at);
        var existing := classes[at];
        classes := classes[at := Class(existing.key, m.LogAddExp(existing.score, Log(c.score.value)), existing.selected || i == selected)];
      } else {
        OpenClass(m, u, candidates, i, selected, classes);
        classes := classes + [Class(key, Log(c.score.value), i == selected)];
      }
      i := i + 1;
    }
    assert candidates[..i] == candidates;
    PartitionClassifies(m, u, candidates, selected, classes);
    return Ok(classes);
  }

  lemma NothingToPartition(m: Exponential, u: Unit, selected: nat)
    ensures Partition(m, u, [], selected, [])
  {
  }

  // ----- what a partition means

  function KeysWeight(m: Exponential, u: Unit, candidates: seq<Candidate>, classes: seq<Class>): real {
    if classes == [] then 0.0
    else KeysWeight(m, u, candidates, classes[..|classes| - 1]) + KeyWeight(m, u, candidates, classes[|classes| - 1].key)
  }

  /** One more candidate adds its weight once: to the only class with its key. */
  lemma {:induction false} KeysWeightNext(m: Exponential, u: Unit, candidates: seq<Candidate>, c: Candidate, classes: seq<Class>)
    requires DistinctKeys(classes)
    ensures KeysWeight(m, u, candidates + [c], classes) ==
            KeysWeight(m, u, candidates, classes) + if HasKey(classes, u.KeyOf(c)) then CandidateWeight(m, c) else 0.0
  {
    hide CutsOf;
    if classes != [] {
      var n := |classes| - 1;
      KeysWeightNext(m, u, candidates, c, classes[..n]);
      assert (candidates + [c])[..|candidates|] == candidates;
      if classes[n].key == u.KeyOf(c) {
        assert HasKey(classes, u.KeyOf(c)) && !HasKey(classes[..n], u.KeyOf(c));
      } else {
        SameKeys(classes, u.KeyOf(c));
      }
    }
  }

  lemma SameKeys(classes: seq<Class>, key: Key)
    requires classes != [] && classes[|classes| - 1].key != key
    ensures HasKey(classes, key) <==> HasKey(classes[..|classes| - 1], key)
  {
    if HasKey(classes, key) {
      var i :| 0 <= i < |classes| && classes[i].key == key;
      assert classes[..|classes| - 1][i].key == key;
    }
  }

  lemma {:induction false} NoWeight(m: Exponential, u: Unit, classes: seq<Class>)
    ensures KeysWeight(m, u, [], classes) == 0.0
  {
    if classes != [] {
      NoWeight(m, u, classes[..|classes| - 1]);
    }
  }

  lemma {:induction false} KeysWeightTotal(m: Exponential, u: Unit, candidates: seq<Candidate>, classes: seq<Class>)
    requires DistinctKeys(classes) && forall c :: c in candidates ==> HasKey(classes, u.KeyOf(c))
    ensures KeysWeight(m, u, candidates, classes) == TotalWeight(m, candidates)
    decreases |candidates|
  {
    hide CutsOf, HasKey, DistinctKeys;
    if candidates == [] {
      NoWeight(m, u, classes);
    } else {
      var n := |candidates| - 1;
      KeysWeightTotal(m, u, candidates[..n], classes);
      assert candidates == candidates[..n] + [candidates[n]];
      KeysWeightNext(m, u, candidates[..n], candidates[n], classes);
    }
  }

  lemma {:induction false} ClassesCarryKeys(m: Exponential, u: Unit, candidates: seq<Candidate>, classes: seq<Class>)
    requires forall i :: 0 <= i < |classes| ==> m.Weight(classes[i].score) == KeyWeight(m, u, candidates, classes[i].key)
    ensures ClassesWeight(m, classes) == KeysWeight(m, u, candidates, classes)
    decreases |classes|
  {
    hide CutsOf;
    if classes != [] {
      ClassesCarryKeys(m, u, candidates, classes[..|classes| - 1]);
    }
  }

  /** No score mass is lost or counted twice. */
  lemma MassConserved(m: Exponential, u: Unit, candidates: seq<Candidate>, selected: nat, classes: seq<Class>)
    requires Partition(m, u, candidates, selected, classes)
    ensures ClassesWeight(m, classes) == TotalWeight(m, candidates)
  {
    hide CutsOf;
    ClassesCarryKeys(m, u, candidates, classes);
    KeysWeightTotal(m, u, candidates, classes);
  }

  /** Every candidate is in exactly one class, and exactly one class is selected: the one of the selected candidate. */
  lemma OneClassEach(m: Exponential, u: Unit, candidates: seq<Candidate>, selected: nat, classes: seq<Class>, c: Candidate)
    requires Partition(m, u, candidates, selected, classes) && selected < |candidates| && c in candidates
    ensures exists i :: 0 <= i < |classes| && classes[i].key == u.KeyOf(c) && forall j :: 0 <= j < |classes| && classes[j].key == u.KeyOf(c) ==> j == i
    ensures multiset(Selections(classes))[true] == 1
  {
    hide CutsOf;
    var i :| 0 <= i < |classes| && classes[i].key == u.KeyOf(c);
    var s :| 0 <= s < |classes| && classes[s].key == u.KeyOf(candidates[selected]);
    assert forall k :: 0 <= k < |classes| ==> (classes[k].selected <==> k == s);
    OneTrue(Selections(classes), s);
  }

  function Selections(classes: seq<Class>): seq<bool> {
    seq(|classes|, i requires 0 <= i < |classes| => classes[i].selected)
  }

  lemma OneTrue(flags: seq<bool>, s: nat)
    requires s < |flags| && forall k :: 0 <= k < |flags| ==> (flags[k] <==> k == s)
    ensures multiset(flags)[true] == 1
  {
    assert flags == flags[..s] + [flags[s]] + flags[s + 1..];
    assert true !in flags[..s] && true !in flags[s + 1..];
  }

  // ----- the order of the classes

  /** The selected class first, then by cuts, then known before unknown. */
  predicate Precedes(a: Class, b: Class) {
    if a.selected != b.selected then a.selected
    else if a.key.cuts != b.key.cuts then Before(a.key.cuts, b.key.cuts)
    else !a.key.unknown || b.key.unknown
  }

  predicate Ordered(classes: seq<Class>) {
    forall i :: 0 < i < |classes| ==> Precedes(classes[i - 1], classes[i])
  }

  /** The order in plain terms: a selected class before others, then the earlier cuts, then the known one. */
  ghost predicate InOrder(a: Class, b: Class) {
    || (a.selected && !b.selected)
    || (a.selected == b.selected && Earlier(a.key.cuts, b.key.cuts))
    || (a.selected == b.selected && a.key.cuts == b.key.cuts && (a.key.unknown ==> b.key.unknown))
  }

  lemma PrecedesIsOrder(a: Class, b: Class)
    ensures Precedes(a, b) <==> InOrder(a, b)
  {
    BeforeIsEarlier(a.key.cuts, b.key.cuts);
    BeforeIsIrreflexive(a.key.cuts);
  }

  ghost predicate AllInOrder(classes: seq<Class>) {
    forall i :: 0 < i < |classes| ==> InOrder(classes[i - 1], classes[i])
  }

  lemma OrderedIsInOrder(classes: seq<Class>)
    requires Ordered(classes)
    ensures AllInOrder(classes)
  {
    hide Precedes, InOrder;
    forall i | 0 < i < |classes|
      ensures InOrder(classes[i - 1], classes[i])
    {
      PrecedesIsOrder(classes[i - 1], classes[i]);
    }
  }

  function Sort(classes: seq<Class>): seq<Class> {
    Sorting.Sort(Precedes, classes)
  }

  lemma SortOrders(classes: seq<Class>)
    ensures Ordered(Sort(classes)) && multiset(Sort(classes)) == multiset(classes)
  {
    forall i, j | 0 <= i < |classes| && 0 <= j < |classes|
      ensures Precedes(classes[i], classes[j]) || Precedes(classes[j], classes[i])
    {
      BeforeIsTotal(classes[i].key.cuts, classes[j].key.cuts);
    }
    Sorting.SortOrders(Precedes, classes);
  }

  /** How many classes have a key. */
  function KeyCount(classes: seq<Class>, key: Key): nat {
    if classes == [] then 0
    else KeyCount(classes[..|classes| - 1], key) + if classes[|classes| - 1].key == key then 1 else 0
  }

  lemma {:induction false} KeyCountIsMultiplicity(classes: seq<Class>, key: Key, keyOf: Class -> Key)
    requires forall c :: keyOf(c) == c.key
    ensures KeyCount(classes, key) == multiset(Sorting.Images(keyOf, classes))[key]
  {
    if classes != [] {
      var n := |classes| - 1;
      KeyCountIsMultiplicity(classes[..n], key, keyOf);
      assert Sorting.Images(keyOf, classes) == Sorting.Images(keyOf, classes[..n]) + [classes[n].key];
    }
  }

  lemma SortCounts(classes: seq<Class>, key: Key)
    ensures KeyCount(Sort(classes), key) == KeyCount(classes, key)
  {
    hide Sort;
    var keyOf := (c: Class) => c.key;
    SortOrders(classes);
    Sorting.ImagesPermuted(keyOf, Sort(classes), classes);
    KeyCountIsMultiplicity(classes, key, keyOf);
    KeyCountIsMultiplicity(Sort(classes), key, keyOf);
  }

  lemma {:induction false} KeyCountPositions(classes: seq<Class>, key: Key)
    ensures KeyCount(classes, key) == 0 <==> !HasKey(classes, key)
    ensures KeyCount(classes, key) <= 1 <==> forall i, j :: 0 <= i < j < |classes| ==> classes[i].key != key || classes[j].key != key
  {
    if classes != [] {
      var n := |classes| - 1;
      KeyCountPositions(classes[..n], key);
      if classes[n].key == key {
        if HasKey(classes[..n], key) {
          var i :| 0 <= i < n && classes[..n][i].key == key;
          assert classes[i].key == key;
        } else {
          forall i | 0 <= i < n
            ensures classes[i].key != key
          {
            assert classes[..n][i].key == classes[i].key;
          }
        }
      } else {
        SameKeys(classes, key);
      }
    }
  }

  /** Sorting keeps a partition a partition. */
  lemma SortedPartition(m: Exponential, u: Unit, candidates: seq<Candidate>, selected: nat, classes: seq<Class>)
    requires Partition(m, u, candidates, selected, classes)
    ensures Partition(m, u, candidates, selected, Sort(classes))
  {
    hide CutsOf, KeyCount, HasKey, Sort;
    var sorted := Sort(classes);
    SortOrders(classes);
    forall key
      ensures KeyCount(sorted, key) == KeyCount(classes, key)
      ensures KeyCount(sorted, key) <= 1
      ensures HasKey(sorted, key) <==> HasKey(classes, key)
    {
      SortCounts(classes, key);
      KeyCountPositions(sorted, key);
      KeyCountPositions(classes, key);
    }
    forall i, j | 0 <= i < j < |sorted|
      ensures sorted[i].key != sorted[j].key
    {
      KeyCountPositions(sorted, sorted[i].key);
    }
    forall i | 0 <= i < |sorted|
      ensures sorted[i] in classes
    {
      assert sorted[i] in multiset(classes);
    }
  }

  /** In order, a selected class has only selected classes before it. */
  lemma {:induction false} SelectedFirst(classes: seq<Class>, i: nat)
    requires Ordered(classes) && i < |classes| && classes[i].selected
    ensures classes[0].selected
  {
    if i > 0 {
      assert Precedes(classes[i - 1], classes[i]);
      SelectedFirst(classes, i - 1);
    }
  }

  /**
   * Collapses the candidates of a unit. The check for one selected class never fails; the first class is
   * the selected one and is the class of the selected candidate, and the score mass is that of the candidates.
   */
  method CollapseUnit(m: Exponential, u: Unit, candidates: seq<Candidate>, selected: nat) returns (r: Result<seq<Class>, string>)
    requires m.Valid() && selected < |candidates|
    ensures r.Ok? <==> AllFinite(candidates)
    ensures r.Ok? ==> Partition(m, u, candidates, selected, r.value) && Classified(u, candidates, selected, r.value)
    ensures r.Ok? ==> AllInOrder(r.value)
    ensures r.Ok? ==> ClassesWeight(m, r.value) == TotalWeight(m, candidates)
    ensures r.Ok? ==> r.value != [] && r.value[0].selected && StandsFor(r.value[0], u, candidates[selected])
    ensures r.Err? ==> r.error == NON_FINITE
  {
    hide CutsOf, Ordered, ClassesWeight, TotalWeight, Exponential.Valid, Classified, AllInOrder, StandsFor;
    r := BuildClasses(m, u, candidates, selected);
    if r.Err? {
      return;
    }
    SortedPartition(m, u, candidates, selected, r.value);
    SortOrders(r.value);
    var classes := Sort(r.value);
    OneClassEach(m, u, candidates, selected, classes, candidates[selected]);
    var count := CountSelected(classes);
    if count != 1 {
      return Err(NOT_ONE_SELECTED);
    }
    MassConserved(m, u, candidates, selected, classes);
    var i :| 0 <= i < |classes| && classes[i].key == u.KeyOf(candidates[selected]);
    SelectedFirst(classes, i);
    PartitionClassifies(m, u, candidates, selected, classes);
    OrderedIsInOrder(classes);
    KeyStandsFor(classes[0], u, candidates[selected]);
    return Ok(classes);
  }

  method CountSelected(classes: seq<Class>) returns (count: nat)
    ensures count == multiset(Selections(classes))[true]
  {
    count := 0;
    for i := 0 to |classes|
      invariant count == multiset(Selections(classes[..i]))[true]
    {
      assert Selections(classes[..i + 1]) == Selections(classes[..i]) + [classes[i].selected];
      if classes[i].selected {
        count := count + 1;
      }
    }
    assert classes[..|classes|] == classes;
  }
}
