/** The compiled surface table: its file, its hash index, and lookups by surface. */
module SurfaceTable {
  import opened Common
  import opened MachineWords
  import opened Probing
  import opened SurfaceCodec

  // ----- hashing

  const PRIME: nat := 0x100_0000_01b3
  const OFFSET: nat := 0xcbf2_9ce4_8422_2325

  function Seed(length: nat): nat {
    BitXor(OFFSET, length * 0x2_0000 % TWO64 + length / 0x8000_0000_0000 % 0x2_0000)
  }

  function Absorb(bytes: Text, seed: nat): nat {
    if bytes == [] then seed
    else BitXor(Absorb(bytes[..|bytes| - 1], seed), bytes[|bytes| - 1]) * PRIME % TWO64
  }

  function Finish(value: nat): nat {
    var first := BitXor(value, value / 0x4000_0000) * 0xbf58_476d_1ce4_e5b9 % TWO64;
    var second := BitXor(first, first / 0x800_0000) * 0x94d0_49bb_1331_11eb % TWO64;
    BitXor(second, second / 0x8000_0000)
  }

  function SurfaceHash(bytes: Text): nat {
    Finish(Absorb(bytes, Seed(|bytes|)))
  }

  method HashSurface(bytes: Text) returns (value: nat)
    ensures value == SurfaceHash(bytes)
  {
    value := Seed(|bytes|);
    for i := 0 to |bytes|
      invariant value == Absorb(bytes[..i], Seed(|bytes|))
    {
      assert bytes[..i + 1][..i] == bytes[..i];
      value := BitXor(value, bytes[i]) * PRIME % TWO64;
    }
    assert bytes[..|bytes|] == bytes;
    value := Finish(value);
  }

  // ----- the slot index

  function Home(surface: Text, size: nat): nat
    requires size > 0
  {
    BitAnd(SurfaceHash(surface), size - 1)
  }

  lemma HomeInRange(surface: Text, size: nat)
    requires PowerOfTwo(size)
    ensures Home(surface, size) < size
  {
    MaskIsModulo(SurfaceHash(surface), size);
  }

  /** The first `k` surfaces, and nothing else, are stored, each reachable from its home slot. */
  ghost predicate Indexed(surfaces: seq<Text>, k: nat, slots: seq<Option<nat>>) {
    && k <= |surfaces| && PowerOfTwo(|slots|) && Occupied(slots) == k
    && (forall s :: 0 <= s < |slots| && slots[s].Some? ==> slots[s].value < k)
    && (forall i :: 0 <= i < k ==> Some(i) in slots)
    && (forall s, t :: 0 <= s < |slots| && 0 <= t < |slots| && slots[s].Some? && Visited(Home(surfaces[slots[s].value], |slots|), t, s)
          ==> slots[t].Some?)
  }

  /** Walking from the home slot of `surface` has passed only stored, different surfaces. */
  ghost predicate Passed(surfaces: seq<Text>, slots: seq<Option<nat>>, surface: Text, slot: nat) {
    && slot < |slots|
    && forall t :: 0 <= t < |slots| && Visited(Home(surface, |slots|), t, slot) ==>
         slots[t].Some? && slots[t].value < |surfaces| && surfaces[slots[t].value] != surface
  }

  lemma NothingIndexed(surfaces: seq<Text>, size: nat)
    requires PowerOfTwo(size)
    ensures Indexed(surfaces, 0, seq(size, _ => None))
  {
    var slots: seq<Option<nat>> := seq(size, _ => None);
    AllVacant(slots);
  }

  /** A walk that stops at a vacant slot proves the surface absent. */
  lemma AbsentAtVacant(surfaces: seq<Text>, k: nat, slots: seq<Option<nat>>, surface: Text, slot: nat, i: nat)
    requires Indexed(surfaces, k, slots) && Passed(surfaces, slots, surface, slot) && slots[slot].None? && i < k
    ensures surfaces[i] != surface
  {
    hide Home;
    assert Some(i) in slots;
    var s :| 0 <= s < |slots| && slots[s] == Some(i);
    var home := Home(surfaces[i], |slots|);
    HomeInRange(surfaces[i], |slots|);
    assert s != slot && !Visited(home, slot, s);
    assert Visited(home, s, slot);
  }

  lemma StoreAtVacant(surfaces: seq<Text>, k: nat, slots: seq<Option<nat>>, slot: nat)
    requires k < |surfaces| && Indexed(surfaces, k, slots) && Passed(surfaces, slots, surfaces[k], slot) && slots[slot].None?
    ensures Indexed(surfaces, k + 1, slots[slot := Some(k)])
  {
    hide Home;
    var after := slots[slot := Some(k)];
    FillVacant(slots, slot, k);
    forall i | 0 <= i < k + 1
      ensures Some(i) in after
    {
      if i < k {
        assert Some(i) in slots;
        var s :| 0 <= s < |slots| && slots[s] == Some(i);
        assert after[s] == Some(i);
      } else {
        assert after[slot] == Some(k);
      }
    }
  }

  /** Stores entry `k`; fails exactly when an earlier entry has the same surface. */
  method StoreEntry(surfaces: seq<Text>, k: nat, slots: seq<Option<nat>>) returns (r: Option<seq<Option<nat>>>)
    requires k < |surfaces| && Indexed(surfaces, k, slots) && k < |slots|
    ensures r.Some? <==> surfaces[k] !in surfaces[..k]
    ensures r.Some? ==> |r.value| == |slots| && Indexed(surfaces, k + 1, r.value)
  {
    hide Home, SurfaceHash;
    var modulo := |slots| - 1;
    var surface := surfaces[k];
    HomeInRange(surface, |slots|);
    var slot := Home(surface, |slots|);
    ghost var hole := VacantSlot(slots);
    while slots[slot].Some?
      invariant Passed(surfaces, slots, surface, slot)
      decreases Distance(slot, hole, |slots|)
    {
      var existing := slots[slot].value;
      if surfaces[existing] == surface {
        assert surfaces[..k][existing] == surface;
        return None;
      }
      MaskedStep(slot, |slots|);
      slot := BitAnd(slot + 1, modulo);
    }
    StoreAtVacant(surfaces, k, slots, slot);
    forall i | 0 <= i < k
      ensures surfaces[i] != surface
    {
      AbsentAtVacant(surfaces, k, slots, surface, slot, i);
    }
    return Some(slots[slot := Some(k)]);
  }

  predicate DistinctSurfaces(surfaces: seq<Text>) {
    forall i, j :: 0 <= i < j < |surfaces| ==> surfaces[i] != surfaces[j]
  }

  /** Indexes all surfaces in a table at most half full; fails exactly when a surface occurs twice. */
  method BuildIndex(surfaces: seq<Text>) returns (r: Option<seq<Option<nat>>>)
    ensures r.Some? <==> DistinctSurfaces(surfaces)
    ensures r.Some? ==> Indexed(surfaces, |surfaces|, r.value) && |surfaces| < |r.value|
  {
    hide Indexed;
    var wanted := if 2 * |surfaces| < 8 then 8 else 2 * |surfaces|;
    var size := NextPowerOfTwo(wanted, 1);
    var slots: seq<Option<nat>> := seq(size, _ => None);
    NothingIndexed(surfaces, size);
    for k := 0 to |surfaces|
      invariant |slots| == size && Indexed(surfaces, k, slots)
      invariant forall i, j :: 0 <= i < j < k ==> surfaces[i] != surfaces[j]
    {
      var stored := StoreEntry(surfaces, k, slots);
      if stored.None? {
        return None;
      }
      slots := stored.value;
      forall i | 0 <= i < k
        ensures surfaces[i] != surfaces[k]
      {
        assert surfaces[..k][i] == surfaces[i];
      }
    }
    return Some(slots);
  }

  // ----- the table

  datatype RuntimeEntry = RuntimeEntry(start: nat, end: nat, setIndex: nat, hash: nat)

  datatype Table = Table(surfaceBytes: seq<Byte>, entries: seq<RuntimeEntry>, sets: seq<seq<Candidate>>, slots: seq<Option<nat>>) {
    /** The table holds exactly these entries. */
    ghost predicate Holds(es: seq<Entry>) {
      && Stored(surfaceBytes, entries, sets, es)
      && DistinctSurfaces(Surfaces(es)) && Indexed(Surfaces(es), |es|, slots) && |es| < |slots|
    }

    /** The candidates of a surface: those of the entry that has it, and none for any other surface. */
    method Get(surface: Text, ghost es: seq<Entry>) returns (r: Option<seq<Candidate>>)
      requires Holds(es)
      ensures r.Some? <==> surface in Surfaces(es)
      ensures forall e :: e in es && e.surface == surface ==> r == Some(e.candidates)
    {
      hide Home, SurfaceHash, Indexed, DistinctSurfaces, Stored;
      ghost var surfaces := Surfaces(es);
      IndexedSlots(surfaces, |es|, slots);
      var hash := HashSurface(surface);
      var modulo := |slots| - 1;
      var slot := BitAnd(hash, modulo);
      FirstSlot(surfaces, |es|, slots, surface);
      ghost var hole := VacantSlot(slots);
      while slots[slot].Some?
        invariant Passed(surfaces, slots, surface, slot)
        decreases Distance(slot, hole, |slots|)
      {
        var index := slots[slot].value;
        StoredEntry(surfaceBytes, entries, sets, es, index);
        var entry := entries[index];
        if entry.hash == hash && surfaceBytes[entry.start..entry.end] == surface {
          OnlyEntry(es, index);
          return Some(sets[entry.setIndex]);
        }
        MaskedStep(slot, |slots|);
        slot := BitAnd(slot + 1, modulo);
      }
      forall i | 0 <= i < |es|
        ensures es[i].surface != surface
      {
        AbsentAtVacant(surfaces, |es|, slots, surface, slot, i);
      }
      return None;
    }
  }

  function Surfaces(es: seq<Entry>): (r: seq<Text>)
    ensures |r| == |es| && forall i :: 0 <= i < |r| ==> r[i] == es[i].surface
  {
    seq(|es|, i requires 0 <= i < |es| => es[i].surface)
  }

  /** Entry by entry, the flattened columns carry the entries. */
  ghost predicate Stored(surfaceBytes: seq<Byte>, entries: seq<RuntimeEntry>, sets: seq<seq<Candidate>>, es: seq<Entry>) {
    && |entries| == |sets| == |es|
    && forall i :: 0 <= i < |es| ==>
         && entries[i].start <= entries[i].end <= |surfaceBytes| && surfaceBytes[entries[i].start..entries[i].end] == es[i].surface
         && entries[i].setIndex == i && entries[i].hash == SurfaceHash(es[i].surface) && sets[i] == es[i].candidates
  }

  lemma StoredEntry(surfaceBytes: seq<Byte>, entries: seq<RuntimeEntry>, sets: seq<seq<Candidate>>, es: seq<Entry>, i: nat)
    requires Stored(surfaceBytes, entries, sets, es) && i < |es|
    ensures |entries| == |sets| == |es| && entries[i].start <= entries[i].end <= |surfaceBytes|
    ensures surfaceBytes[entries[i].start..entries[i].end] == es[i].surface
    ensures entries[i].setIndex == i && entries[i].hash == SurfaceHash(es[i].surface) && sets[i] == es[i].candidates
  {
    hide SurfaceHash;
  }

  lemma IndexedSlots(surfaces: seq<Text>, k: nat, slots: seq<Option<nat>>)
    requires Indexed(surfaces, k, slots)
    ensures PowerOfTwo(|slots|) && Occupied(slots) == k && forall s :: 0 <= s < |slots| && slots[s].Some? ==> slots[s].value < k
  {
  }

  lemma FirstSlot(surfaces: seq<Text>, k: nat, slots: seq<Option<nat>>, surface: Text)
    requires Indexed(surfaces, k, slots)
    ensures Passed(surfaces, slots, surface, Home(surface, |slots|)) && Home(surface, |slots|) == BitAnd(SurfaceHash(surface), |slots| - 1)
  {
    HomeInRange(surface, |slots|);
  }

  lemma OnlyEntry(es: seq<Entry>, index: nat)
    requires DistinctSurfaces(Surfaces(es)) && index < |es|
    ensures forall e :: e in es && e.surface == es[index].surface ==> e == es[index]
    ensures es[index].surface in Surfaces(es)
  {
    var surfaces := Surfaces(es);
    assert surfaces[index] == es[index].surface;
    forall e | e in es && e.surface == es[index].surface
      ensures e == es[index]
    {
      var i :| 0 <= i < |es| && es[i] == e;
      assert surfaces[i] == surfaces[index];
    }
  }
}
