/** The hash table of active Viterbi hypotheses. */
module ActiveTable {
  import opened Common
  import opened MachineWords
  import opened Probing
  import opened Lattices

  /** A scored path prefix: its last two words, the hypothesis it extends, and its cache row. */
  datatype Hypothesis = Hypothesis(previous: nat, current: nat, backpointer: Option<nat>, row: Option<nat>, score: real)

  ghost predicate InRange(lattice: Lattice, h: Hypothesis) {
    h.previous < |lattice.words| && h.current < |lattice.words|
  }

  function StateHash(lattice: Lattice, h: Hypothesis): nat
    requires h.previous < |lattice.words| && h.current < |lattice.words|
    requires lattice.codes.Some? ==> |lattice.codes.value| == |lattice.words|
  {
    Combine31(lattice.HashOf(h.previous), lattice.HashOf(h.current))
  }

  /** Hypotheses are merged when both of their words have equal identities. */
  predicate SameState(lattice: Lattice, g: Hypothesis, h: Hypothesis)
    requires g.previous < |lattice.words| && g.current < |lattice.words|
    requires h.previous < |lattice.words| && h.current < |lattice.words|
    requires lattice.codes.Some? ==> |lattice.codes.value| == |lattice.words|
  {
    lattice.IdentityOf(g.previous) == lattice.IdentityOf(h.previous) &&
    lattice.IdentityOf(g.current) == lattice.IdentityOf(h.current)
  }

  /** Every stored index names a hypothesis of the list. */
  ghost predicate Indexes(lattice: Lattice, table: seq<Option<nat>>, hypotheses: seq<Hypothesis>) {
    forall s :: 0 <= s < |table| && table[s].Some? ==>
      table[s].value < |hypotheses| && InRange(lattice, hypotheses[table[s].value])
  }

  /** How often a table stores an index. */
  ghost function Stored(table: seq<Option<nat>>, index: nat): nat {
    multiset(table)[Some(index)]
  }

  /** The indices a table stores. */
  ghost function LiveOf(table: seq<Option<nat>>): set<nat> {
    set s | 0 <= s < |table| && table[s].Some? :: table[s].value
  }

  lemma LiveIsStored(table: seq<Option<nat>>)
    ensures forall v: nat :: v in LiveOf(table) <==> Stored(table, v) > 0
  {
    forall v: nat
      ensures v in LiveOf(table) <==> Stored(table, v) > 0
    {
      if Stored(table, v) > 0 {
        assert Some(v) in table;
      }
      if v in LiveOf(table) {
        assert Some(v) in table;
      }
    }
  }

  /** `best` is stored, nothing stored scores more, and everything in an earlier slot scores less. */
  ghost predicate FirstBest(table: seq<Option<nat>>, hypotheses: seq<Hypothesis>, best: nat)
    requires forall s :: 0 <= s < |table| && table[s].Some? ==> table[s].value < |hypotheses|
  {
    exists s :: 0 <= s < |table| && table[s] == Some(best)
      && (forall t :: 0 <= t < s && table[t].Some? ==> hypotheses[table[t].value].score < hypotheses[best].score)
      && (forall t :: s <= t < |table| && table[t].Some? ==> hypotheses[table[t].value].score <= hypotheses[best].score)
  }

  class ActiveHypotheses {
    var slots: seq<Option<nat>>
    var scratch: seq<Option<nat>>
    var activeLen: nat
    var modulo: nat
    var size: nat
    var expandLimit: nat

    /** The table is always strictly below its fill limit, so every probe meets a vacant slot. */
    ghost predicate Valid()
      reads this
    {
      && PowerOfTwo(activeLen) && 8 <= activeLen <= |slots| == |scratch| && PowerOfTwo(|slots|)
      && modulo == activeLen - 1
      && expandLimit == LoadLimit(activeLen) < activeLen
      && size == Occupied(slots[..activeLen]) < expandLimit
    }

    ghost function Table(): seq<Option<nat>>
      reads this
    {
      if activeLen <= |slots| then slots[..activeLen] else []
    }

    /** A table that was never used, or one left over from an earlier sentence. */
    ghost predicate Reusable()
      reads this
    {
      if activeLen == 0 then
        |slots| == |scratch| && (slots == [] || PowerOfTwo(|slots|)) && forall s :: 0 <= s < |slots| ==> slots[s].None?
      else Valid()
    }

    constructor ()
      ensures Reusable()
    {
      slots, scratch := [], [];
      activeLen, modulo, size, expandLimit := 0, 0, 0, 0;
    }

    /** Adds vacant slots until there are enough for the reserve; a larger table is kept. */
    method EnsureCapacity(reserve: nat)
      requires Reusable()
      modifies this`slots, this`scratch
      ensures Reusable() && PowerOfTwo(|slots|) && |scratch| == |slots|
      ensures |slots| >= 8 && |slots| >= reserve
      ensures |slots| == old(|slots|) || |slots| < 2 * (if reserve < 8 then 8 else reserve)
      ensures old(slots) <= slots && forall s :: old(|slots|) <= s < |slots| ==> slots[s].None?
    {
      var length := NextPowerOfTwo(if reserve < 8 then 8 else reserve, 1);
      if |slots| < length {
        ghost var table := slots[..activeLen];
        slots := slots + seq(length - |slots|, _ => None);
        scratch := scratch + seq(length - |scratch|, _ => None);
        assert slots[..activeLen] == table;
      }
    }

    /** Empties the table and shrinks its active part to eight slots. */
    method Reset()
      requires Reusable() && 8 <= |slots|
      modifies this
      ensures Valid() && size == 0 && |slots| == old(|slots|)
      ensures forall i :: Stored(Table(), i) == 0
    {
      slots := seq(activeLen, _ => None) + slots[activeLen..];
      activeLen := 8;
      modulo := 7;
      size := 0;
      expandLimit := LoadLimit(8);
      AllVacant(slots[..8]);
      assert PowerOfTwo(2) && PowerOfTwo(4) && PowerOfTwo(8);
    }

    /** Doubles the active part. Entries are placed with the mask of the old size. */
    method Expand(lattice: Lattice, hypotheses: seq<Hypothesis>)
      requires lattice.Valid()
      requires PowerOfTwo(activeLen) && 8 <= activeLen <= |slots| == |scratch| && PowerOfTwo(|slots|)
      requires modulo == activeLen - 1 && size == Occupied(slots[..activeLen]) == LoadLimit(activeLen)
      requires Indexes(lattice, Table(), hypotheses)
      modifies this
      ensures Valid() && size == old(size) && activeLen == 2 * old(activeLen)
      ensures forall i: nat :: Stored(Table(), i) == old(Stored(Table(), i))
      ensures forall s :: old(activeLen) <= s < activeLen ==> Table()[s].None?
    {
      hide Occupied, Stored, PowerOfTwo;
      var oldLen := activeLen;
      var expandedLen := oldLen * 2;
      PowerOfTwoDoubles(oldLen);
      if expandedLen > |slots| {
        slots := slots + seq(expandedLen - |slots|, _ => None);
        scratch := scratch + seq(expandedLen - |scratch|, _ => None);
      }
      assert slots[..oldLen] == old(slots[..activeLen]);
      var target := Rehouse(lattice, hypotheses, slots[..oldLen], modulo);
      var vacant: seq<Option<nat>> := seq(expandedLen - oldLen, _ => None);
      Padded(target, vacant);
      slots, scratch := target + vacant + scratch[expandedLen..], slots;
      activeLen := expandedLen;
      modulo := expandedLen - 1;
      expandLimit := LoadLimit(expandedLen);
      assert slots[..expandedLen] == target + vacant;
    }

    /** The slot where the hypothesis `h` belongs: its state's entry, or the vacant slot that ends its probe. */
    method Locate(lattice: Lattice, h: Hypothesis, hypotheses: seq<Hypothesis>) returns (slot: nat)
      requires Valid() && lattice.Valid() && InRange(lattice, h) && Indexes(lattice, Table(), hypotheses)
      ensures slot < activeLen
      ensures slots[slot].Some? ==> SameState(lattice, hypotheses[slots[slot].value], h)
    {
      hide StateHash, HashSlot, SameState;
      HashSlotInRange(StateHash(lattice, h), activeLen);
      slot := HashSlot(StateHash(lattice, h), modulo);
      ghost var table := Table();
      ghost var hole := VacantSlot(table);
      while true
        invariant slot < activeLen && table == Table()
        decreases Distance(slot, hole, activeLen)
      {
        assert table[slot] == slots[slot];
        if slots[slot].None? || SameState(lattice, hypotheses[slots[slot].value], h) {
          return;
        }
        MaskedStep(slot, activeLen);
        slot := BitAnd(slot + 1, modulo);
      }
    }

    /** Stores a new index in a vacant slot, growing the table when it reaches its fill limit. */
    method Insert(lattice: Lattice, slot: nat, index: nat, hypotheses: seq<Hypothesis>)
      requires Valid() && lattice.Valid() && slot < activeLen && slots[slot].None?
      requires Indexes(lattice, Table(), hypotheses)
      requires index < |hypotheses| && InRange(lattice, hypotheses[index])
      modifies this
      ensures Valid() && size == old(size) + 1
      ensures forall i: nat :: Stored(Table(), i) == old(Stored(Table(), i)) + (if i == index then 1 else 0)
    {
      hide InRange;
      FillVacant(slots[..activeLen], slot, index);
      assert slots[slot := Some(index)][..activeLen] == slots[..activeLen][slot := Some(index)];
      slots := slots[slot := Some(index)];
      size := size + 1;
      assert forall i: nat :: Stored(Table(), i) == old(Stored(Table(), i)) + (if i == index then 1 else 0);
      if size == expandLimit {
        Expand(lattice, hypotheses);
      }
    }

    /** Offers a hypothesis. It overwrites the hypothesis of its state if that one scores less, is dropped
        if that one scores at least as much, and is appended and stored when its probe meets no equal state. */
    method AddCandidate(lattice: Lattice, candidate: Hypothesis, hypotheses: seq<Hypothesis>)
      returns (after: seq<Hypothesis>, ghost place: nat)
      requires Valid() && lattice.Valid() && InRange(lattice, candidate) && Indexes(lattice, Table(), hypotheses)
      modifies this
      ensures Valid() && place <= |hypotheses|
      ensures place < |hypotheses| ==>
                && old(Stored(Table(), place)) > 0 && SameState(lattice, hypotheses[place], candidate)
                && after == (if hypotheses[place].score < candidate.score then hypotheses[place := candidate] else hypotheses)
                && forall i: nat :: Stored(Table(), i) == old(Stored(Table(), i))
      ensures place == |hypotheses| ==>
                && after == hypotheses + [candidate]
                && forall i: nat :: Stored(Table(), i) == old(Stored(Table(), i)) + (if i == place then 1 else 0)
    {
      hide SameState;
      var slot := Locate(lattice, candidate, hypotheses);
      assert Table()[slot] == slots[slot];
      if slots[slot].None? {
        place := |hypotheses|;
        after := hypotheses + [candidate];
        assert Indexes(lattice, Table(), after);
        Insert(lattice, slot, |hypotheses|, after);
        return;
      }
      var existing := slots[slot].value;
      place := existing;
      assert Some(existing) in multiset(Table());
      after := if hypotheses[existing].score < candidate.score then hypotheses[existing := candidate] else hypotheses;
    }

    /** Offers an index that is already in the list of hypotheses. */
    method Add(lattice: Lattice, index: nat, hypotheses: seq<Hypothesis>)
      requires Valid() && lattice.Valid() && Indexes(lattice, Table(), hypotheses)
      requires index < |hypotheses| && InRange(lattice, hypotheses[index])
      modifies this
      ensures Valid()
      ensures old(size) == 0 ==> size == 1 && forall i: nat :: Stored(Table(), i) == if i == index then 1 else 0
    {
      if size == 0 {
        NothingStored(Table());
      }
      var slot := Locate(lattice, hypotheses[index], hypotheses);
      assert Table()[slot] == slots[slot];
      if slots[slot].Some? {
        assert Stored(Table(), slots[slot].value) > 0;
        if hypotheses[slots[slot].value].score < hypotheses[index].score {
          Replace(slot, index);
        }
        return;
      }
      Insert(lattice, slot, index, hypotheses);
    }

    method Replace(slot: nat, index: nat)
      requires Valid() && slot < activeLen && slots[slot].Some?
      modifies this`slots
      ensures Valid() && Table() == old(Table())[slot := Some(index)]
    {
      assert slots[slot := Some(index)][..activeLen] == slots[..activeLen][slot := Some(index)];
      slots := slots[slot := Some(index)];
    }

    /** Copies the stored indices, in slot order, to the front of the scratch buffer. */
    method Snapshot() returns (count: nat)
      requires Valid()
      modifies this`scratch
      ensures Valid() && count == size && count <= |scratch|
      ensures forall k :: 0 <= k < count ==> scratch[k].Some?
      ensures forall v: nat :: Stored(scratch[..count], v) == Stored(Table(), v)
    {
      hide Occupied, Stored;
      count := 0;
      var i := 0;
      var table, copy := slots[..activeLen], scratch;
      EmptyPrefix(table);
      EmptyPrefix(copy);
      while i < |table|
        invariant 0 <= i <= |table| <= |copy| == |slots|
        invariant count == Occupied(table[..i]) <= i
        invariant forall k :: 0 <= k < count ==> copy[k].Some?
        invariant forall v: nat :: Stored(copy[..count], v) == Stored(table[..i], v)
      {
        OneMore(table[..i], table[i], table[..i + 1]);
        if table[i].Some? {
          ghost var before := copy[..count];
          copy := copy[count := table[i]];
          OneMore(before, table[i], copy[..count + 1]);
          count := count + 1;
        }
        i := i + 1;
      }
      assert table[..i] == table;
      scratch := copy;
    }

    /** The first stored index, in slot order, of the highest score. */
    method Best(hypotheses: seq<Hypothesis>) returns (best: Option<nat>)
      requires Valid()
      requires forall s :: 0 <= s < |Table()| && Table()[s].Some? ==> Table()[s].value < |hypotheses|
      ensures best.None? ==> forall s :: 0 <= s < |Table()| ==> Table()[s].None?
      ensures best.Some? ==> FirstBest(Table(), hypotheses, best.value)
    {
      best := None;
      ghost var at := 0;
      var table := slots[..activeLen];
      assert table == Table();
      var i := 0;
      while i < |table|
        invariant 0 <= i <= |table|
        invariant best.None? ==> forall s :: 0 <= s < i ==> table[s].None?
        invariant best.Some? ==> 0 <= at < i && table[at] == best
        invariant best.Some? ==> forall t :: 0 <= t < at && table[t].Some? ==> hypotheses[table[t].value].score < hypotheses[best.value].score
        invariant best.Some? ==> forall t :: at <= t < i && table[t].Some? ==> hypotheses[table[t].value].score <= hypotheses[best.value].score
      {
        if table[i].Some? && (best.None? || hypotheses[best.value].score < hypotheses[table[i].value].score) {
          best, at := table[i], i;
        }
        i := i + 1;
      }
    }
  }

  lemma Padded(table: seq<Option<nat>>, vacant: seq<Option<nat>>)
    requires forall i :: 0 <= i < |vacant| ==> vacant[i].None?
    ensures Occupied(table + vacant) == Occupied(table)
    ensures forall v: nat :: Stored(table + vacant, v) == Stored(table, v)
  {
    AllVacant(vacant);
  }

  lemma NoEntries(table: seq<Option<nat>>)
    requires forall i :: 0 <= i < |table| ==> table[i].None?
    ensures Occupied(table) == 0 && forall v: nat :: Stored(table, v) == 0
  {
    AllVacant(table);
  }

  lemma EmptyPrefix(table: seq<Option<nat>>)
    ensures Occupied(table[..0]) == 0
    ensures forall v: nat :: Stored(table[..0], v) == 0
  {
  }

  lemma {:induction false} NothingStored(table: seq<Option<nat>>)
    requires Occupied(table) == 0
    ensures forall i: nat :: Stored(table, i) == 0
  {
    if table != [] {
      var n := |table| - 1;
      OneMore(table[..n], table[n], table);
      NothingStored(table[..n]);
    }
  }

  lemma OneMore(shorter: seq<Option<nat>>, last: Option<nat>, longer: seq<Option<nat>>)
    requires longer == shorter + [last]
    ensures Occupied(longer) == Occupied(shorter) + (if last.Some? then 1 else 0)
    ensures forall v: nat :: Stored(longer, v) == Stored(shorter, v) + (if last.Some? && last.value == v then 1 else 0)
  {
  }

  lemma Filled(table: seq<Option<nat>>, slot: nat, value: nat)
    requires slot < |table| && table[slot].None?
    ensures Occupied(table[slot := Some(value)]) == Occupied(table) + 1
    ensures forall v: nat :: Stored(table[slot := Some(value)], v) == Stored(table, v) + (if v == value then 1 else 0)
  {
    FillVacant(table, slot, value);
  }

  /** Moves every entry of a table, in slot order, to the first vacant slot after its home slot. */
  method Rehouse(lattice: Lattice, hypotheses: seq<Hypothesis>, table: seq<Option<nat>>, modulo: nat)
    returns (target: seq<Option<nat>>)
    requires lattice.Valid() && Indexes(lattice, table, hypotheses)
    requires PowerOfTwo(|table|) && modulo == |table| - 1
    ensures |target| == |table| && Occupied(target) == Occupied(table)
    ensures forall v: nat :: Stored(target, v) == Stored(table, v)
  {
    hide StateHash, HashSlot, Occupied, Stored;
    target := seq(|table|, _ => None);
    NoEntries(target);
    EmptyPrefix(table);
    var i := 0;
    while i < |table|
      invariant 0 <= i <= |table| == |target|
      invariant Occupied(target) == Occupied(table[..i])
      invariant forall v: nat :: Stored(target, v) == Stored(table[..i], v)
    {
      OneMore(table[..i], table[i], table[..i + 1]);
      if table[i].Some? {
        var index := table[i].value;
        HashSlotInRange(StateHash(lattice, hypotheses[index]), |table|);
        var slot := FirstVacant(target, HashSlot(StateHash(lattice, hypotheses[index]), modulo));
        Filled(target, slot, index);
        target := target[slot := Some(index)];
      }
      i := i + 1;
    }
    assert table[..i] == table;
  }
}
