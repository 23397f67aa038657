/** The reusable hash table that counts the features of one trigram and sums their weights. */
module FeatureScratchTable {
  import opened Common
  import opened MachineWords
  import opened Probing

  /** One occurrence of a feature: its identity within the trigram, its hash and its model weight. */
  datatype Feature = Feature(identity: nat, javaHash: nat, weight: real)

  datatype FeatureEntry = FeatureEntry(feature: Feature, count: nat)

  const MAX_COUNT: nat := 32767

  // ----- what the table computes

  /** How often an identity occurs. */
  ghost function Multiplicity(log: seq<Feature>, identity: nat): nat {
    if log == [] then 0
    else Multiplicity(log[..|log| - 1], identity) + (if log[|log| - 1].identity == identity then 1 else 0)
  }

  function Saturated(n: nat): nat {
    if n < MAX_COUNT then n else MAX_COUNT
  }

  /** Sum of weight times saturating count: an occurrence counts unless its identity is saturated. */
  ghost function FeatureSum(log: seq<Feature>): real {
    if log == [] then 0.0
    else
      var last := log[|log| - 1];
      FeatureSum(log[..|log| - 1]) +
      (if Multiplicity(log[..|log| - 1], last.identity) < MAX_COUNT then last.weight else 0.0)
  }

  /** An identity always stands for the same feature. */
  ghost predicate Coherent(log: seq<Feature>) {
    forall j, k :: 0 <= j < |log| && 0 <= k < |log| && log[j].identity == log[k].identity ==> log[j] == log[k]
  }

  lemma Appending(log: seq<Feature>, f: Feature)
    ensures FeatureSum(log + [f]) == FeatureSum(log) + (if Multiplicity(log, f.identity) < MAX_COUNT then f.weight else 0.0)
    ensures forall id :: Multiplicity(log + [f], id) == Multiplicity(log, id) + (if f.identity == id then 1 else 0)
  {
    assert (log + [f])[..|log + [f]| - 1] == log;
  }

  lemma {:induction false} OccursIffCounted(log: seq<Feature>, id: nat)
    ensures Multiplicity(log, id) > 0 <==> exists k :: 0 <= k < |log| && log[k].identity == id
  {
    if log != [] {
      var n := |log| - 1;
      OccursIffCounted(log[..n], id);
      if k :| 0 <= k < n && log[k].identity == id {
        assert log[..n][k].identity == id;
      }
      if k :| 0 <= k < n && log[..n][k].identity == id {
        assert log[k].identity == id;
      }
    }
  }

  // ----- the sum does not depend on the order of insertion

  /** Two logs with the same sum and the same multiplicities. */
  ghost predicate Alike(left: seq<Feature>, right: seq<Feature>) {
    FeatureSum(left) == FeatureSum(right) && forall id :: Multiplicity(left, id) == Multiplicity(right, id)
  }

  lemma Swapping(log: seq<Feature>, a: Feature, b: Feature)
    requires a.identity == b.identity ==> a == b
    ensures Alike(log + [a] + [b], log + [b] + [a])
  {
    Appending(log, a);
    Appending(log, b);
    Appending(log + [a], b);
    Appending(log + [b], a);
  }

  lemma AppendSame(left: seq<Feature>, right: seq<Feature>, f: Feature)
    requires Alike(left, right)
    ensures Alike(left + [f], right + [f])
  {
    Appending(left, f);
    Appending(right, f);
  }

  /** An occurrence may be moved to the end. */
  lemma {:induction false} MoveToEnd(before: seq<Feature>, f: Feature, after: seq<Feature>)
    requires forall k :: 0 <= k < |after| && after[k].identity == f.identity ==> after[k] == f
    ensures Alike(before + [f] + after, before + after + [f])
    decreases |after|
  {
    if after == [] {
      assert before + [f] + after == before + after + [f];
    } else {
      var n := |after| - 1;
      var g, rest := after[n], after[..n];
      MoveToEnd(before, f, rest);
      MoveStep(before, f, rest, g);
      assert after == rest + [g];
    }
  }

  lemma MoveStep(before: seq<Feature>, f: Feature, rest: seq<Feature>, g: Feature)
    requires Alike(before + [f] + rest, before + rest + [f])
    requires g.identity == f.identity ==> g == f
    ensures Alike(before + [f] + (rest + [g]), before + (rest + [g]) + [f])
  {
    hide FeatureSum, Multiplicity;
    AppendSame(before + [f] + rest, before + rest + [f], g);
    Swapping(before + rest, f, g);
    assert before + [f] + (rest + [g]) == before + [f] + rest + [g];
    assert before + (rest + [g]) + [f] == before + rest + [g] + [f];
  }

  /** Logs that are permutations of each other have the same sum. */
  lemma {:induction false} OrderIrrelevant(left: seq<Feature>, right: seq<Feature>)
    requires Coherent(left) && multiset(left) == multiset(right)
    ensures Alike(left, right)
    decreases |left|
  {
    hide FeatureSum, Multiplicity, Alike;
    if left == [] {
      assert |multiset(right)| == 0;
      EmptyAlike(left, right);
    } else {
      var n := |left| - 1;
      var f := left[n];
      assert left == left[..n] + [f];
      assert f in multiset(right);
      var k :| 0 <= k < |right| && right[k] == f;
      var before, after := right[..k], right[k + 1..];
      assert right == before + [f] + after;
      SameElements(left, right);
      MoveToEnd(before, f, after);
      WithoutOne(left[..n], f, before, after);
      OrderIrrelevant(left[..n], before + after);
      AppendSame(left[..n], before + after, f);
      AlikeChains(left, before + after + [f], right);
    }
  }

  lemma WithoutOne(rest: seq<Feature>, f: Feature, before: seq<Feature>, after: seq<Feature>)
    requires multiset(rest + [f]) == multiset(before + [f] + after)
    ensures multiset(rest) == multiset(before + after)
  {
    assert multiset(rest + [f]) == multiset(rest) + multiset{f};
    assert multiset(before + [f] + after) == multiset(before) + multiset{f} + multiset(after);
    assert multiset(rest) == multiset(rest + [f]) - multiset{f};
  }

  lemma EmptyAlike(left: seq<Feature>, right: seq<Feature>)
    requires left == [] && right == []
    ensures Alike(left, right)
  {
  }

  lemma AlikeChains(a: seq<Feature>, b: seq<Feature>, c: seq<Feature>)
    requires Alike(a, b) && Alike(c, b)
    ensures Alike(a, c)
  {
  }

  lemma SameElements(left: seq<Feature>, right: seq<Feature>)
    requires Coherent(left) && multiset(left) == multiset(right)
    ensures Coherent(right)
  {
    forall j, k | 0 <= j < |right| && 0 <= k < |right| && right[j].identity == right[k].identity
      ensures right[j] == right[k]
    {
      assert right[j] in multiset(right) && right[k] in multiset(right);
      assert right[j] in multiset(left) && right[k] in multiset(left);
      var a :| 0 <= a < |left| && left[a] == right[j];
      var b :| 0 <= b < |left| && left[b] == right[k];
    }
  }

  // ----- the table

  /** Sum of weight times count over the slots. */
  ghost function SlotSum(slots: seq<Option<FeatureEntry>>): real {
    if slots == [] then 0.0
    else SlotSum(slots[..|slots| - 1]) + EntrySum(slots[|slots| - 1])
  }

  function EntrySum(slot: Option<FeatureEntry>): real {
    if slot.Some? then slot.value.feature.weight * slot.value.count as real else 0.0
  }

  lemma {:induction false} SlotSumUpdate(slots: seq<Option<FeatureEntry>>, i: nat, e: Option<FeatureEntry>)
    requires i < |slots|
    ensures SlotSum(slots[i := e]) == SlotSum(slots) - EntrySum(slots[i]) + EntrySum(e)
  {
    hide EntrySum;
    var n := |slots| - 1;
    var after := slots[i := e];
    if i == n {
      assert after[..n] == slots[..n];
    } else {
      assert after[..n] == slots[..n][i := e];
      SlotSumUpdate(slots[..n], i, e);
    }
  }

  lemma {:induction false} SlotSumVacant(slots: seq<Option<FeatureEntry>>)
    requires forall i :: 0 <= i < |slots| ==> slots[i].None?
    ensures SlotSum(slots) == 0.0
  {
    if slots != [] {
      SlotSumVacant(slots[..|slots| - 1]);
    }
  }

  /** No vacant slot separates an entry from its home slot, and an identity is stored once. */
  ghost predicate Placed(slots: seq<Option<FeatureEntry>>)
  {
    && (forall s, t | 0 <= s < |slots| && 0 <= t < |slots| && slots[s].Some? ::
          Visited(HashSlot(slots[s].value.feature.javaHash, |slots| - 1), t, s) ==> slots[t].Some?)
    && (forall s, t | 0 <= s < |slots| && 0 <= t < |slots| && slots[s].Some? && slots[t].Some? ::
          slots[s].value.feature.identity == slots[t].value.feature.identity ==> s == t)
  }

  /** The slots count exactly the features of the log. */
  ghost predicate Counts(slots: seq<Option<FeatureEntry>>, log: seq<Feature>) {
    && (forall s :: 0 <= s < |slots| && slots[s].Some? ==>
          slots[s].value.feature in log && slots[s].value.count == Saturated(Multiplicity(log, slots[s].value.feature.identity)))
    && (forall k :: 0 <= k < |log| ==> Holds(slots, log[k]))
  }

  ghost predicate Holds(slots: seq<Option<FeatureEntry>>, f: Feature) {
    exists s :: 0 <= s < |slots| && slots[s].Some? && slots[s].value.feature == f
  }

  /** Probing for `f` stops at `slot`: everything it passed has another identity. */
  ghost predicate Stops(slots: seq<Option<FeatureEntry>>, f: Feature, slot: nat) {
    && slot < |slots|
    && (slots[slot].Some? ==> slots[slot].value.feature.identity == f.identity)
    && (forall t | 0 <= t < |slots| :: Visited(HashSlot(f.javaHash, |slots| - 1), t, slot) ==>
          slots[t].Some? && slots[t].value.feature.identity != f.identity)
  }

  lemma StopsAtEntry(slots: seq<Option<FeatureEntry>>, f: Feature, slot: nat)
    requires PowerOfTwo(|slots|) && Placed(slots) && Stops(slots, f, slot)
    ensures forall s :: 0 <= s < |slots| && slots[s].Some? && slots[s].value.feature == f ==> s == slot
  {
    HashSlotInRange(f.javaHash, |slots|);
    var home := HashSlot(f.javaHash, |slots| - 1);
    forall s | 0 <= s < |slots| && slots[s].Some? && slots[s].value.feature == f
      ensures s == slot
    {
      assert !Visited(home, s, slot);
      assert Visited(home, slot, s) || s == slot;
    }
  }

  lemma StillPlaced(slots: seq<Option<FeatureEntry>>, f: Feature, slot: nat, count: nat)
    requires PowerOfTwo(|slots|) && Placed(slots) && Stops(slots, f, slot)
    requires slots[slot].Some? ==> slots[slot].value.feature == f
    requires forall s :: 0 <= s < |slots| && slots[s].Some? && slots[s].value.feature.identity == f.identity ==> s == slot
    ensures Placed(slots[slot := Some(FeatureEntry(f, count))])
  {
    hide HashSlot;
  }

  method Find(slots: seq<Option<FeatureEntry>>, f: Feature) returns (slot: nat)
    requires PowerOfTwo(|slots|) && Placed(slots) && Occupied(slots) < |slots|
    ensures Stops(slots, f, slot)
  {
    hide HashSlot, Placed;
    HashSlotInRange(f.javaHash, |slots|);
    ghost var home := HashSlot(f.javaHash, |slots| - 1);
    slot := HashSlot(f.javaHash, |slots| - 1);
    ghost var hole := VacantSlot(slots);
    while slots[slot].Some? && slots[slot].value.feature.identity != f.identity
      invariant slot < |slots|
      invariant forall t | 0 <= t < |slots| :: Visited(home, t, slot) ==>
                  slots[t].Some? && slots[t].value.feature.identity != f.identity
      decreases Distance(slot, hole, |slots|)
    {
      MaskedStep(slot, |slots|);
      slot := BitAnd(slot + 1, |slots| - 1);
    }
  }

  /** What one more occurrence of `f` does to the slots. */
  function Bumped(slot: Option<FeatureEntry>, f: Feature): FeatureEntry {
    if slot.None? then FeatureEntry(f, 1)
    else FeatureEntry(slot.value.feature, if slot.value.count < MAX_COUNT then slot.value.count + 1 else MAX_COUNT)
  }

  lemma OnlySlot(slots: seq<Option<FeatureEntry>>, log: seq<Feature>, f: Feature, slot: nat)
    requires PowerOfTwo(|slots|) && Placed(slots) && Counts(slots, log) && Stops(slots, f, slot) && Coherent(log + [f])
    ensures slots[slot].Some? ==> slots[slot].value.feature == f
    ensures forall s :: 0 <= s < |slots| && slots[s].Some? && slots[s].value.feature.identity == f.identity ==> s == slot
    ensures slots[slot].None? ==> Multiplicity(log, f.identity) == 0
  {
    hide Placed, Multiplicity, Visited;
    SameIdentity(slots, log, f);
    StopsAtEntry(slots, f, slot);
    OccursIffCounted(log, f.identity);
    if k :| 0 <= k < |log| && log[k].identity == f.identity {
      assert (log + [f])[k] == log[k] && (log + [f])[|log|] == f;
      assert Holds(slots, log[k]);
    }
  }

  lemma BumpedSum(slot: Option<FeatureEntry>, f: Feature, m: nat)
    requires if slot.None? then m == 0 else slot.value.feature == f && slot.value.count == Saturated(m)
    ensures EntrySum(Some(Bumped(slot, f))) - EntrySum(slot) == if m < MAX_COUNT then f.weight else 0.0
  {
    if slot.Some? {
      var c, w := slot.value.count, f.weight;
      assert w * (c + 1) as real == w * c as real + w;
    }
  }

  lemma SameIdentity(slots: seq<Option<FeatureEntry>>, log: seq<Feature>, f: Feature)
    requires Counts(slots, log) && Coherent(log + [f])
    ensures forall s :: 0 <= s < |slots| && slots[s].Some? && slots[s].value.feature.identity == f.identity ==> slots[s].value.feature == f
  {
    forall s | 0 <= s < |slots| && slots[s].Some? && slots[s].value.feature.identity == f.identity
      ensures slots[s].value.feature == f
    {
      var k :| 0 <= k < |log| && log[k] == slots[s].value.feature;
      assert (log + [f])[k] == log[k] && (log + [f])[|log|] == f;
    }
  }

  lemma CountsAfter(slots: seq<Option<FeatureEntry>>, log: seq<Feature>, f: Feature, slot: nat)
    requires slot < |slots| && Counts(slots, log) && (slots[slot].Some? ==> slots[slot].value.feature == f)
    requires forall s :: 0 <= s < |slots| && slots[s].Some? && slots[s].value.feature.identity == f.identity ==> s == slot
    requires slots[slot].None? ==> Multiplicity(log, f.identity) == 0
    requires forall id :: Multiplicity(log + [f], id) == Multiplicity(log, id) + (if f.identity == id then 1 else 0)
    ensures Counts(slots[slot := Some(Bumped(slots[slot], f))], log + [f])
  {
    hide Multiplicity;
    var after, longer := slots[slot := Some(Bumped(slots[slot], f))], log + [f];
    assert after[slot].value.feature == f;
    assert longer[|log|] == f;
    forall s | 0 <= s < |after| && after[s].Some?
      ensures after[s].value.feature in longer
    {
      if s != slot {
        assert slots[s].value.feature in log;
      }
    }
    forall k | 0 <= k < |longer|
      ensures Holds(after, longer[k])
    {
      if k < |log| {
        assert Holds(slots, log[k]);
        var s :| 0 <= s < |slots| && slots[s].Some? && slots[s].value.feature == log[k];
        assert after[s].value.feature == log[k];
      }
    }
  }

  class FeatureScratch {
    var slots: seq<Option<FeatureEntry>>
    var activeLen: nat
    var keyCount: nat
    var threshold: nat
    ghost var log: seq<Feature>   // the features added since the last reset

    ghost predicate Valid()
      reads this
    {
      && PowerOfTwo(activeLen) && 32 <= activeLen <= |slots|
      && threshold == LoadLimit(activeLen)
      && keyCount == Occupied(Table()) && keyCount <= threshold < activeLen
      && Coherent(log)
      && Placed(Table()) && Counts(Table(), log)
      && SlotSum(Table()) == FeatureSum(log)
    }

    ghost function Table(): seq<Option<FeatureEntry>>
      reads this
    {
      if activeLen <= |slots| then slots[..activeLen] else []
    }

    constructor ()
      ensures Valid() && log == []
    {
      slots := seq(32, _ => None);
      activeLen, keyCount, threshold := 32, 0, LoadLimit(32);
      log := [];
      new;
      assert slots[..32] == slots;
      VacantTable(slots);
    }

    method Reset()
      requires Valid()
      modifies this
      ensures Valid() && log == []
    {
      var vacant: seq<Option<FeatureEntry>> := seq(activeLen, _ => None);
      slots := vacant + slots[activeLen..];
      keyCount := 0;
      threshold := LoadLimit(activeLen);
      log := [];
      VacantTable(vacant);
      assert slots[..activeLen] == vacant;
    }

    /** Counts one more occurrence of a feature. */
    method Add(f: Feature)
      requires Valid() && Coherent(log + [f])
      modifies this
      ensures Valid() && log == old(log) + [f]
    {
      hide Placed, Counts, Coherent, Stops, FeatureSum, Multiplicity, SlotSum, EntrySum, Bumped;
      if keyCount == threshold {
        Expand();
      }
      ghost var table := Table();
      var slot := Find(slots[..activeLen], f);
      StopInRange(table, f, slot);
      assert table[slot] == slots[slot];
      var bumped := Bumped(slots[slot], f);
      AddStep(table, log, f, slot);
      assert slots[slot := Some(bumped)][..activeLen] == table[slot := Some(bumped)];
      if slots[slot].None? {
        keyCount := keyCount + 1;
      }
      slots := slots[slot := Some(bumped)];
      log := log + [f];
    }

    /** Doubles the active part and places every entry again. */
    method Expand()
      requires Valid() && keyCount == threshold
      modifies this
      ensures Valid() && log == old(log) && keyCount < threshold
    {
      hide Placed, Counts, Coherent, SlotSum, FeatureSum, Occupied;
      var newLen := activeLen * 2;
      var table := Replace(slots[..activeLen], newLen);
      slots := table + (if |slots| < newLen then [] else slots[newLen..]);
      activeLen := newLen;
      threshold := LoadLimit(newLen);
      assert slots[..newLen] == table;
      CountsMoved(old(Table()), table, log);
    }

    /** Sum of weight times count over the table. */
    method Score() returns (score: real)
      requires Valid()
      ensures score == FeatureSum(log)
    {
      hide Placed, Counts, Coherent, FeatureSum;
      score := 0.0;
      var table := slots[..activeLen];
      var i := 0;
      while i < |table|
        invariant 0 <= i <= |table| && score == SlotSum(table[..i])
      {
        assert table[..i + 1][..i] == table[..i];
        score := score + EntrySum(table[i]);
        i := i + 1;
      }
      assert table[..i] == table;
    }
  }

  lemma VacantTable(slots: seq<Option<FeatureEntry>>)
    requires forall i :: 0 <= i < |slots| ==> slots[i].None?
    ensures Occupied(slots) == 0 && Placed(slots) && Counts(slots, []) && SlotSum(slots) == 0.0
  {
    AllVacant(slots);
    SlotSumVacant(slots);
  }

  lemma AddStep(table: seq<Option<FeatureEntry>>, log: seq<Feature>, f: Feature, slot: nat)
    requires PowerOfTwo(|table|) && Placed(table) && Counts(table, log) && Stops(table, f, slot) && Coherent(log + [f])
    requires SlotSum(table) == FeatureSum(log)
    ensures var after := table[slot := Some(Bumped(table[slot], f))];
            && Placed(after) && Counts(after, log + [f]) && SlotSum(after) == FeatureSum(log + [f])
            && Occupied(after) == Occupied(table) + (if table[slot].None? then 1 else 0)
  {
    hide Placed, Multiplicity, Stops, Coherent, FeatureSum, SlotSum, EntrySum, Occupied;
    OnlySlot(table, log, f, slot);
    StopInRange(table, f, slot);
    Appending(log, f);
    CountsAfter(table, log, f, slot);
    BumpedSum(table[slot], f, Multiplicity(log, f.identity));
    SlotSumUpdate(table, slot, Some(Bumped(table[slot], f)));
    StillPlaced(table, f, slot, Bumped(table[slot], f).count);
    if table[slot].None? {
      FillVacant(table, slot, Bumped(table[slot], f));
    } else {
      Refill(table, slot, Bumped(table[slot], f));
    }
  }

  lemma StopInRange(table: seq<Option<FeatureEntry>>, f: Feature, slot: nat)
    requires Stops(table, f, slot)
    ensures slot < |table|
  {
  }

  lemma Refill(table: seq<Option<FeatureEntry>>, slot: nat, e: FeatureEntry)
    requires slot < |table| && table[slot].Some?
    ensures Occupied(table[slot := Some(e)]) == Occupied(table)
  {
  }

  /** `target` holds exactly the entries of `table`. */
  ghost predicate SameEntries(table: seq<Option<FeatureEntry>>, target: seq<Option<FeatureEntry>>) {
    && (forall s :: 0 <= s < |target| && target[s].Some? ==> target[s] in table)
    && (forall s :: 0 <= s < |table| && table[s].Some? ==> table[s] in target)
  }

  lemma CountsMoved(table: seq<Option<FeatureEntry>>, target: seq<Option<FeatureEntry>>, log: seq<Feature>)
    requires Counts(table, log) && SameEntries(table, target)
    ensures Counts(target, log)
  {
    hide Multiplicity;
    forall k | 0 <= k < |log|
      ensures Holds(target, log[k])
    {
      assert Holds(table, log[k]);
      var s :| 0 <= s < |table| && table[s].Some? && table[s].value.feature == log[k];
      assert table[s] in target;
      var t :| 0 <= t < |target| && target[t] == table[s];
    }
  }

  lemma PlacedMore(target: seq<Option<FeatureEntry>>, slot: nat, e: FeatureEntry)
    requires PowerOfTwo(|target|) && Placed(target) && slot < |target| && target[slot].None?
    requires forall t | 0 <= t < |target| :: Visited(HashSlot(e.feature.javaHash, |target| - 1), t, slot) ==> target[t].Some?
    requires forall s :: 0 <= s < |target| && target[s].Some? ==> target[s].value.feature.identity != e.feature.identity
    ensures Placed(target[slot := Some(e)])
  {
    hide HashSlot;
  }

  /** Places the entries of a table, in slot order, into a vacant table of `length` slots. */
  method Replace(table: seq<Option<FeatureEntry>>, length: nat) returns (target: seq<Option<FeatureEntry>>)
    requires Placed(table) && PowerOfTwo(length) && |table| < length
    ensures |target| == length && Placed(target) && SameEntries(table, target)
    ensures Occupied(target) == Occupied(table) && SlotSum(target) == SlotSum(table)
  {
    hide HashSlot, Occupied, SlotSum, EntrySum, Placed, SameEntries;
    target := seq(length, _ => None);
    VacantTable(target);
    NothingMoved(table, target);
    var i := 0;
    while i < |table|
      invariant 0 <= i <= |table| && |target| == length && Placed(target)
      invariant SameEntries(table[..i], target)
      invariant Occupied(target) == Occupied(table[..i]) && SlotSum(target) == SlotSum(table[..i])
    {
      OneMoreEntry(table, i);
      if table[i].Some? {
        var home := HashSlot(table[i].value.feature.javaHash, length - 1);
        HashSlotInRange(table[i].value.feature.javaHash, length);
        OccupiedBound(table, i);
        var slot := FirstVacant(target, home);
        MovedEntry(table, i, target, slot);
        target := target[slot := Some(table[i].value)];
      } else {
        SkippedEntry(table, i, target);
      }
      i := i + 1;
    }
    assert table[..i] == table;
  }

  lemma NothingMoved(table: seq<Option<FeatureEntry>>, target: seq<Option<FeatureEntry>>)
    requires forall i :: 0 <= i < |target| ==> target[i].None?
    ensures SameEntries(table[..0], target) && Occupied(table[..0]) == 0 && SlotSum(table[..0]) == 0.0
  {
  }

  lemma OneMoreEntry(table: seq<Option<FeatureEntry>>, i: nat)
    requires i < |table|
    ensures Occupied(table[..i + 1]) == Occupied(table[..i]) + (if table[i].Some? then 1 else 0)
    ensures SlotSum(table[..i + 1]) == SlotSum(table[..i]) + EntrySum(table[i])
  {
    hide EntrySum;
    assert table[..i + 1] == table[..i] + [table[i]];
    assert table[..i + 1][..i] == table[..i];
  }

  lemma OccupiedBound(table: seq<Option<FeatureEntry>>, i: nat)
    requires i <= |table|
    ensures Occupied(table[..i]) <= i
  {
  }

  lemma SkippedEntry(table: seq<Option<FeatureEntry>>, i: nat, target: seq<Option<FeatureEntry>>)
    requires i < |table| && table[i].None? && SameEntries(table[..i], target)
    ensures SameEntries(table[..i + 1], target)
    ensures EntrySum(table[i]) == 0.0
  {
    assert table[..i + 1] == table[..i] + [table[i]];
  }

  lemma MovedEntry(table: seq<Option<FeatureEntry>>, i: nat, target: seq<Option<FeatureEntry>>, slot: nat)
    requires i < |table| && table[i].Some? && Placed(table) && SameEntries(table[..i], target)
    requires PowerOfTwo(|target|) && Placed(target) && slot < |target| && target[slot].None?
    requires forall t | 0 <= t < |target| :: Visited(HashSlot(table[i].value.feature.javaHash, |target| - 1), t, slot) ==> target[t].Some?
    ensures var after := target[slot := Some(table[i].value)];
            && Placed(after) && SameEntries(table[..i + 1], after)
            && Occupied(after) == Occupied(target) + 1 && SlotSum(after) == SlotSum(target) + EntrySum(table[i])
  {
    hide HashSlot, SlotSum, EntrySum, Visited;
    var e := table[i].value;
    forall s | 0 <= s < |target| && target[s].Some?
      ensures target[s].value.feature.identity != e.feature.identity
    {
      assert target[s] in table[..i];
      var j :| 0 <= j < i && table[..i][j] == target[s];
      assert table[j] == target[s];
    }
    PlacedMore(target, slot, e);
    FillVacant(target, slot, e);
    SlotSumUpdate(target, slot, Some(e));
    VacantSum(target[slot]);
    MovedEntries(table, i, target, slot);
  }

  lemma VacantSum(slot: Option<FeatureEntry>)
    ensures slot.None? ==> EntrySum(slot) == 0.0
  {
  }

  lemma MovedEntries(table: seq<Option<FeatureEntry>>, i: nat, target: seq<Option<FeatureEntry>>, slot: nat)
    requires i < |table| && table[i].Some? && SameEntries(table[..i], target) && slot < |target| && target[slot].None?
    ensures SameEntries(table[..i + 1], target[slot := Some(table[i].value)])
  {
    var after, longer := target[slot := Some(table[i].value)], table[..i + 1];
    assert longer == table[..i] + [table[i]];
    forall s | 0 <= s < |longer| && longer[s].Some?
      ensures longer[s] in after
    {
      if s < i {
        assert table[..i][s] in target;
        var t :| 0 <= t < |target| && target[t] == table[..i][s];
        assert after[t] == longer[s];
      } else {
        assert after[slot] == longer[s];
      }
    }
    forall s | 0 <= s < |after| && after[s].Some?
      ensures after[s] in longer
    {
      if s != slot {
        assert target[s] in table[..i];
        var j :| 0 <= j < i && table[..i][j] == target[s];
        assert longer[j] == after[s];
      } else {
        assert longer[i] == after[s];
      }
    }
  }
}
