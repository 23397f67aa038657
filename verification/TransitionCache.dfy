/** The persistent transition cache of the ambiguity decoder: a pair table naming rows, eight
    inline transitions per row, and an overflow table keyed by the full trigram. */
module TransitionCache {
  import opened Common
  import opened MachineWords
  import opened Probing
  import opened Lattices

  const SIG: nat := 0x20_0000                  // 2^21
  const PAIR: nat := 0x400_0000_0000           // 2^42
  const EMPTY_KEY: nat := 0xffff_ffff_ffff_ffff
  const INLINE_TRANSITIONS: nat := 8

  // ----- key packing: the fields occupy disjoint bits, so `|` is `+`, a mask is `%` and a shift is `/`

  function PackPair(first: nat, second: nat): nat {
    first + second * SIG
  }

  function PackTrigram(first: nat, second: nat, third: nat): nat {
    first + second * SIG + third * PAIR
  }

  /** A trigram key exists only when all three signatures fit 21 bits. */
  function TrigramKey(first: nat, second: nat, third: nat): Option<nat> {
    if first > SIGNATURE_MASK || second > SIGNATURE_MASK || third > SIGNATURE_MASK then None
    else Some(PackTrigram(first, second, third))
  }

  function PairKey(first: nat, second: nat): Option<nat> {
    if first > SIGNATURE_MASK || second > SIGNATURE_MASK then None else Some(PackPair(first, second))
  }

  /** Packing loses nothing: both pairs and the third signature are read back by masks and shifts,
      and no key collides with the empty-slot marker. */
  lemma PackedFields(first: nat, second: nat, third: nat)
    requires first < SIG && second < SIG && third < SIG
    ensures var key := PackTrigram(first, second, third);
            && key % PAIR == PackPair(first, second)
            && (key / SIG) % PAIR == PackPair(second, third)
            && key / PAIR == third
            && key < EMPTY_KEY
    ensures PackPair(first, second) % SIG == first && PackPair(first, second) / SIG == second
  {
    var key := PackTrigram(first, second, third);
    assert key == third * PAIR + PackPair(first, second);
    assert key == PackPair(second, third) * SIG + first;
  }

  // ----- rows

  datatype InlineTransition = InlineTransition(third: nat, nextRow: Option<nat>, score: real)

  datatype TransitionRow = TransitionRow(entries: seq<Option<InlineTransition>>, overflow: bool) {
    /** Inline entries are filled from the front and hold each third signature once. */
    ghost predicate Shaped() {
      && |entries| == INLINE_TRANSITIONS
      && (forall i, j :: 0 <= i < j < |entries| && entries[j].Some? ==> entries[i].Some?)
      && (forall i, j :: 0 <= i < j < |entries| && entries[j].Some? ==> entries[i].value.third != entries[j].value.third)
    }

    ghost predicate Holds(e: InlineTransition) {
      exists i :: 0 <= i < |entries| && entries[i] == Some(e)
    }

    ghost predicate Mentions(third: nat) {
      exists i :: 0 <= i < |entries| && entries[i].Some? && entries[i].value.third == third
    }

    ghost predicate Full() {
      forall i :: 0 <= i < |entries| ==> entries[i].Some?
    }

    method Get(third: nat) returns (r: Option<InlineTransition>)
      requires Shaped()
      ensures r.Some? ==> Holds(r.value) && r.value.third == third
      ensures r.None? ==> !Mentions(third)
    {
      var i := 0;
      while i < |entries|
        invariant 0 <= i <= |entries|
        invariant forall j :: 0 <= j < i ==> entries[j].Some? && entries[j].value.third != third
      {
        if entries[i].None? {
          return None;
        }
        if entries[i].value.third == third {
          return entries[i];
        }
        i := i + 1;
      }
      return None;
    }

    /** Overwrites the entry of `e.third`, or takes the first vacant entry, or marks the overflow. */
    method InsertInline(e: InlineTransition) returns (row: TransitionRow, added: bool)
      requires Shaped()
      ensures row.Shaped()
      ensures added == (!Mentions(e.third) && !Full())
      ensures Mentions(e.third) || !Full() ==> row.Holds(e) && row.overflow == overflow
      ensures Full() && !Mentions(e.third) ==> row == this.(overflow := true)
      ensures forall x: InlineTransition :: x.third != e.third ==> row.Holds(x) == Holds(x)
    {
      var i := 0;
      while i < |entries|
        invariant 0 <= i <= |entries|
        invariant forall j :: 0 <= j < i ==> entries[j].Some? && entries[j].value.third != e.third
      {
        if entries[i].None? || entries[i].value.third == e.third {
          row := this.(entries := entries[i := Some(e)]);
          RowUpdated(i, e);
          return row, entries[i].None?;
        }
        i := i + 1;
      }
      return this.(overflow := true), false;
    }

    lemma RowUpdated(i: nat, e: InlineTransition)
      requires Shaped() && i < |entries|
      requires forall j :: 0 <= j < i ==> entries[j].Some? && entries[j].value.third != e.third
      requires entries[i].None? || entries[i].value.third == e.third
      ensures this.(entries := entries[i := Some(e)]).Shaped()
      ensures this.(entries := entries[i := Some(e)]).Holds(e)
      ensures forall x: InlineTransition :: x.third != e.third ==>
                this.(entries := entries[i := Some(e)]).Holds(x) == Holds(x)
      ensures entries[i].None? ==> !Mentions(e.third) && !Full()
      ensures entries[i].Some? ==> Mentions(e.third)
    {
      var row := this.(entries := entries[i := Some(e)]);
      assert row.entries[i] == Some(e);
      forall x: InlineTransition | x.third != e.third
        ensures row.Holds(x) == Holds(x)
      {
        if Holds(x) {
          var k :| 0 <= k < |entries| && entries[k] == Some(x);
          assert row.entries[k] == Some(x);
        }
        if row.Holds(x) {
          var k :| 0 <= k < |entries| && row.entries[k] == Some(x);
          assert entries[k] == Some(x);
        }
      }
    }
  }

  function EmptyRow(): TransitionRow {
    TransitionRow(seq(INLINE_TRANSITIONS, _ => None), false)
  }

  // ----- open addressing by linear probing, shared by the pair table and the overflow table

  datatype Table = Pairs | Overflow

  /** Home slot of a 64-bit key in a table of `2^log` slots: the top bits of a wrapped product. */
  function Home(table: Table, key: nat, log: nat): nat
    requires log <= 64
  {
    match table
    case Pairs => TopBits(key * 0xd6e8_feb8_6659_fd93, log)
    case Overflow => TopBits(key * 0x9e37_79b9_7f4a_7c15, log)
  }

  lemma HomeInRange(table: Table, key: nat, log: nat)
    requires log <= 64
    ensures Home(table, key, log) < Pow2(log)
  {
    TopBitsInRange(key * 0xd6e8_feb8_6659_fd93, log);
    TopBitsInRange(key * 0x9e37_79b9_7f4a_7c15, log);
  }

  /** No vacant slot separates a key from its home slot, and a key is stored once. */
  ghost predicate Reachable(table: Table, keys: seq<Option<nat>>, log: nat)
    requires log <= 64
  {
    && (forall s, t | 0 <= s < |keys| && 0 <= t < |keys| && keys[s].Some? ::
          Visited(Home(table, keys[s].value, log), t, s) ==> keys[t].Some?)
    && (forall s, t | 0 <= s < |keys| && 0 <= t < |keys| && keys[s].Some? :: keys[s] == keys[t] ==> s == t)
  }

  /** Probing for `key` stops at `slot`: every slot it passed holds another key. */
  ghost predicate StopsAt(table: Table, keys: seq<Option<nat>>, log: nat, key: nat, slot: nat)
    requires log <= 64
  {
    && slot < |keys|
    && (keys[slot] == None || keys[slot] == Some(key))
    && (forall t | 0 <= t < |keys| :: Visited(Home(table, key, log), t, slot) ==> keys[t].Some? && keys[t] != Some(key))
  }

  lemma FoundOrAbsent(table: Table, keys: seq<Option<nat>>, log: nat, key: nat, slot: nat)
    requires log <= 64 && |keys| == Pow2(log) && Reachable(table, keys, log) && StopsAt(table, keys, log, key, slot)
    ensures forall s :: 0 <= s < |keys| && keys[s] == Some(key) ==> s == slot
  {
    var home := Home(table, key, log);
    HomeInRange(table, key, log);
    forall s | 0 <= s < |keys| && keys[s] == Some(key)
      ensures s == slot
    {
      assert !Visited(home, s, slot);
      assert Visited(home, slot, s) || s == slot;
    }
  }

  lemma StillReachable(table: Table, keys: seq<Option<nat>>, log: nat, slot: nat, key: nat)
    requires log <= 64 && |keys| == Pow2(log) && Reachable(table, keys, log) && StopsAt(table, keys, log, key, slot)
    ensures Reachable(table, keys[slot := Some(key)], log)
  {
    hide Home, Pow2;
    FoundOrAbsent(table, keys, log, key, slot);
  }

  /** Walks from the home slot of `key` to its slot, or to the vacant slot that shows it is absent. */
  method Probe(table: Table, keys: seq<Option<nat>>, log: nat, key: nat) returns (slot: nat)
    requires 1 <= log < 64 && |keys| == Pow2(log) && Reachable(table, keys, log)
    requires Occupied(keys) < |keys|
    ensures StopsAt(table, keys, log, key, slot)
    ensures keys[slot].Some? <==> Some(key) in keys
  {
    HomeInRange(table, key, log);
    Pow2IsPowerOfTwo(log);
    var modulo := |keys| - 1;
    slot := Home(table, key, log);
    ghost var home := slot;
    ghost var hole := VacantSlot(keys);
    while keys[slot].Some? && keys[slot] != Some(key)
      invariant slot < |keys|
      invariant forall t :: 0 <= t < |keys| && Visited(home, t, slot) ==> keys[t].Some? && keys[t] != Some(key)
      decreases Distance(slot, hole, |keys|)
    {
      MaskedStep(slot, |keys|);
      slot := BitAnd(slot + 1, modulo);
    }
    FoundOrAbsent(table, keys, log, key, slot);
  }

  // ----- overflow table

  datatype Retained = Retained(score: real, nextRow: Option<nat>)

  /** The table holds exactly the pairs of `content`. */
  ghost predicate OverflowHolds(keys: seq<Option<nat>>, kept: seq<Retained>, content: map<nat, Retained>)
    requires |keys| == |kept|
  {
    && (forall s :: 0 <= s < |keys| && keys[s].Some? ==> keys[s].value in content && content[keys[s].value] == kept[s])
    && (forall key :: key in content ==> Some(key) in keys)
  }

  lemma OverflowStored(keys: seq<Option<nat>>, kept: seq<Retained>, log: nat, content: map<nat, Retained>,
                       slot: nat, key: nat, value: Retained)
    requires |keys| == |kept| && OverflowHolds(keys, kept, content)
    requires log <= 64 && |keys| == Pow2(log) && Reachable(Overflow, keys, log) && StopsAt(Overflow, keys, log, key, slot)
    ensures OverflowHolds(keys[slot := Some(key)], kept[slot := value], content[key := value])
    ensures Reachable(Overflow, keys[slot := Some(key)], log)
    ensures Occupied(keys[slot := Some(key)]) == Occupied(keys) + (if keys[slot].None? then 1 else 0)
    ensures keys[slot].None? <==> key !in content
  {
    FoundOrAbsent(Overflow, keys, log, key, slot);
    StillReachable(Overflow, keys, log, slot, key);
    if keys[slot].None? {
      FillVacant(keys, slot, key);
    } else {
      assert keys[slot := Some(key)] == keys;
    }
    OverflowHeld(keys, kept, content, slot, key, value);
  }

  lemma OverflowHeld(keys: seq<Option<nat>>, kept: seq<Retained>, content: map<nat, Retained>, slot: nat, key: nat, value: Retained)
    requires |keys| == |kept| && slot < |keys| && OverflowHolds(keys, kept, content)
    requires keys[slot] == None || keys[slot] == Some(key)
    requires forall s :: 0 <= s < |keys| && keys[s] == Some(key) ==> s == slot
    ensures OverflowHolds(keys[slot := Some(key)], kept[slot := value], content[key := value])
    ensures keys[slot].None? <==> key !in content
  {
    var after := keys[slot := Some(key)];
    forall k | k in content[key := value]
      ensures Some(k) in after
    {
      if k == key {
        assert after[slot] == Some(key);
      } else {
        var s :| 0 <= s < |keys| && keys[s] == Some(k);
        assert after[s] == keys[s];
      }
    }
  }

  class OverflowScoreCache {
    var keys: seq<Option<nat>>
    var kept: seq<Retained>
    var size: nat
    const slotsLog: nat
    const maxEntries: nat
    ghost var content: map<nat, Retained>

    ghost predicate Valid()
      reads this
    {
      && 1 <= slotsLog < 64
      && maxEntries == Pow2(slotsLog) * 4 / 5
      && size <= maxEntries
      && |keys| == |kept|
      && (keys == [] ==> size == 0 && content == map[])
      && (keys != [] ==> |keys| == Pow2(slotsLog) && size == Occupied(keys))
      && OverflowHolds(keys, kept, content)
      && Reachable(Overflow, keys, slotsLog)
    }

    constructor (slotsLog: nat)
      requires 1 <= slotsLog < 64
      ensures Valid() && content == map[] && this.slotsLog == slotsLog
    {
      this.slotsLog := slotsLog;
      maxEntries := Pow2(slotsLog) * 4 / 5;
      keys, kept := [], [];
      size := 0;
      content := map[];
    }

    method Clear()
      requires Valid()
      modifies this
      ensures Valid() && content == map[]
    {
      keys, kept := [], [];
      size := 0;
      content := map[];
    }

    method EnsureAllocated()
      requires Valid()
      modifies this
      ensures Valid() && keys != [] && content == old(content) && size == old(size)
    {
      if keys == [] {
        keys := seq(Pow2(slotsLog), _ => None);
        kept := seq(Pow2(slotsLog), _ => Retained(0.0, None));
        AllVacant(keys);
      }
    }

    method Get(key: nat) returns (r: Option<Retained>)
      requires Valid()
      ensures r == if key in content then Some(content[key]) else None
    {
      if keys == [] {
        return None;
      }
      var slot := Probe(Overflow, keys, slotsLog, key);
      return if keys[slot].Some? then Some(kept[slot]) else None;
    }

    /** Retains a score unless the table is full; `true` when a new entry was added. */
    method Insert(key: nat, score: real, nextRow: Option<nat>) returns (added: bool)
      requires Valid()
      modifies this
      ensures Valid()
      ensures content == if old(size) < maxEntries then old(content)[key := Retained(score, nextRow)] else old(content)
      ensures added == (old(size) < maxEntries && key !in old(content))
    {
      if size >= maxEntries {
        return false;
      }
      EnsureAllocated();
      var slot := Probe(Overflow, keys, slotsLog, key);
      OverflowStored(keys, kept, slotsLog, content, slot, key, Retained(score, nextRow));
      added := keys[slot].None?;
      size := if added then size + 1 else size;
      keys := keys[slot := Some(key)];
      kept := kept[slot := Retained(score, nextRow)];
      content := content[key := Retained(score, nextRow)];
    }
  }

  // ----- what a cached score means

  /** The features every cacheable signature stands for, and the uncached scorer. */
  datatype Meaning = Meaning(features: nat -> WordFeatures, trigram: Trigram)

  /** A retained transition out of the row of `pair` is the uncached score, and its next row, when
      known, is the row of the last pair. */
  ghost predicate Exact(m: Meaning, owners: seq<nat>, pair: nat, third: nat, kept: Retained) {
    && kept.score == m.trigram(m.features(pair % SIG), m.features(pair / SIG), m.features(third))
    && (kept.nextRow.Some? ==>
          kept.nextRow.value < |owners| && owners[kept.nextRow.value] == PackPair(pair / SIG, third))
  }

  ghost predicate RowExact(m: Meaning, owners: seq<nat>, pair: nat, row: TransitionRow) {
    && row.Shaped()
    && forall i :: 0 <= i < |row.entries| && row.entries[i].Some? ==>
         Exact(m, owners, pair, row.entries[i].value.third, Retained(row.entries[i].value.score, row.entries[i].value.nextRow))
  }

  ghost predicate RowsExact(m: Meaning, owners: seq<nat>, rows: seq<TransitionRow>)
    requires |owners| == |rows|
  {
    forall r :: 0 <= r < |rows| ==> RowExact(m, owners, owners[r], rows[r])
  }

  /** Overflow entries are exact and belong to rows that are marked as overflowing. */
  ghost predicate OverflowExact(m: Meaning, owners: seq<nat>, rows: seq<TransitionRow>, content: map<nat, Retained>)
    requires |owners| == |rows|
  {
    && (forall key :: key in content ==> Exact(m, owners, key % PAIR, key / PAIR, content[key]))
    && (forall key, r :: key in content && 0 <= r < |rows| && owners[r] == key % PAIR ==> rows[r].overflow)
  }

  /** The pair table names every row by its pair, and no pair has two rows. */
  ghost predicate Named(pairKeys: seq<Option<nat>>, pairRows: seq<nat>, owners: seq<nat>)
    requires |pairKeys| == |pairRows|
  {
    && (forall s :: 0 <= s < |pairKeys| && pairKeys[s].Some? ==>
                      pairRows[s] < |owners| && owners[pairRows[s]] == pairKeys[s].value)
    && (forall r :: 0 <= r < |owners| ==> Some(owners[r]) in pairKeys)
    && (forall q, r :: 0 <= q < r < |owners| ==> owners[q] != owners[r])
  }

  lemma ExactGrows(m: Meaning, owners: seq<nat>, rows: seq<TransitionRow>, content: map<nat, Retained>, pair: nat)
    requires |owners| == |rows| && RowsExact(m, owners, rows) && OverflowExact(m, owners, rows, content)
    requires pair !in owners && forall key :: key in content ==> key % PAIR in owners
    ensures RowsExact(m, owners + [pair], rows + [EmptyRow()])
    ensures OverflowExact(m, owners + [pair], rows + [EmptyRow()], content)
  {
    forall r | 0 <= r < |rows| + 1
      ensures RowExact(m, owners + [pair], (owners + [pair])[r], (rows + [EmptyRow()])[r])
    {
      if r < |rows| {
        assert RowExact(m, owners, owners[r], rows[r]);
      }
    }
  }

  lemma NamedGrows(pairKeys: seq<Option<nat>>, pairRows: seq<nat>, owners: seq<nat>, slot: nat, pair: nat)
    requires |pairKeys| == |pairRows| && slot < |pairKeys| && pairKeys[slot].None? && Some(pair) !in pairKeys
    requires Named(pairKeys, pairRows, owners)
    ensures Named(pairKeys[slot := Some(pair)], pairRows[slot := |owners|], owners + [pair])
  {
    var keys, now := pairKeys[slot := Some(pair)], owners + [pair];
    forall r | 0 <= r < |now|
      ensures Some(now[r]) in keys
    {
      if r < |owners| {
        var s :| 0 <= s < |pairKeys| && pairKeys[s] == Some(owners[r]);
        assert keys[s] == Some(now[r]);
      } else {
        assert keys[slot] == Some(now[r]);
      }
    }
  }

  // ----- the cache

  class TrigramScoreCache {
    var pairKeys: seq<Option<nat>>
    var pairRows: seq<nat>
    var rows: seq<TransitionRow>
    const overflow: OverflowScoreCache
    const pairLog: nat
    const rowCapacity: nat
    ghost const meaning: Meaning
    ghost var owners: seq<nat>   // owners[r] is the pair whose transitions row r holds

    ghost predicate Valid()
      reads this, overflow
    {
      && 1 <= pairLog < 64 && rowCapacity < Pow2(pairLog)
      && |owners| == |rows| <= rowCapacity
      && |pairKeys| == |pairRows|
      && (pairKeys == [] ==> rows == [])
      && (pairKeys != [] ==> |pairKeys| == Pow2(pairLog) && Occupied(pairKeys) == |rows|)
      && Reachable(Pairs, pairKeys, pairLog)
      && Named(pairKeys, pairRows, owners)
      && overflow.Valid()
      && Sound()
    }

    /** Everything retained is exact. */
    ghost predicate Sound()
      reads this, overflow
      requires |owners| == |rows|
    {
      && RowsExact(meaning, owners, rows)
      && OverflowExact(meaning, owners, rows, overflow.content)
      && (forall key :: key in overflow.content ==> key % PAIR in owners)
      && (forall r :: 0 <= r < |owners| ==> owners[r] < PAIR)
    }

    /** Capacity presets keep the pair table larger than the number of rows it can name. */
    constructor (pairLog: nat, rowCapacity: nat, overflowLog: nat, ghost meaning: Meaning)
      requires 1 <= pairLog < 64 && rowCapacity < Pow2(pairLog) && 1 <= overflowLog < 64
      ensures Valid() && owners == [] && this.meaning == meaning && fresh(overflow)
    {
      this.pairLog, this.rowCapacity, this.meaning := pairLog, rowCapacity, meaning;
      overflow := new OverflowScoreCache(overflowLog);
      pairKeys, pairRows, rows, owners := [], [], [], [];
    }

    method EnsureAllocated()
      requires Valid()
      modifies this
      ensures Valid() && pairKeys != [] && rows == old(rows) && owners == old(owners)
    {
      if pairKeys == [] {
        pairKeys := seq(Pow2(pairLog), _ => None);
        pairRows := seq(Pow2(pairLog), _ => 0);
        AllVacant(pairKeys);
      }
    }

    /** Finds or allocates the row of a pair; fails only when every row is taken by another pair. */
    method EnsureRow(pair: nat) returns (row: Option<nat>)
      requires Valid() && pair < PAIR
      modifies this
      ensures Valid()
      ensures row.Some? ==> row.value < |owners| && owners[row.value] == pair
      ensures row.None? ==> pair !in owners && |rows| == rowCapacity
      ensures if row.None? || pair in old(owners) then rows == old(rows) && owners == old(owners)
              else rows == old(rows) + [EmptyRow()] && owners == old(owners) + [pair]
    {
      hide Reachable, RowsExact, OverflowExact, StopsAt, Pow2, Occupied, OverflowScoreCache.Valid;
      EnsureAllocated();
      var slot := Probe(Pairs, pairKeys, pairLog, pair);
      if pairKeys[slot].Some? {
        return Some(pairRows[slot]);
      }
      if |rows| == rowCapacity {
        return None;
      }
      StillReachable(Pairs, pairKeys, pairLog, slot, pair);
      FillVacant(pairKeys, slot, pair);
      NamedGrows(pairKeys, pairRows, owners, slot, pair);
      ExactGrows(meaning, owners, rows, overflow.content, pair);
      row := Some(|rows|);
      pairKeys := pairKeys[slot := Some(pair)];
      pairRows := pairRows[slot := |rows|];
      rows := rows + [EmptyRow()];
      owners := owners + [pair];
    }

    /** Forgets every retained score. Rows are renumbered from zero afterwards. */
    method Clear()
      requires Valid()
      modifies this, overflow
      ensures Valid() && owners == []
    {
      pairKeys, pairRows, rows, owners := [], [], [], [];
      overflow.Clear();
    }

    /** The transition retained for `third` after the pair of `row`, if any. */
    ghost function Lookup(row: nat, third: nat): Option<Retained>
      reads this, overflow
      requires row < |rows| == |owners|
    {
      RowLookup(rows[row], owners[row], third, overflow.content)
    }

    /** A pair has one row. */
    lemma DistinctOwners()
      requires Valid()
      ensures |owners| == |rows|
      ensures forall q, r :: 0 <= q < r < |owners| ==> owners[q] != owners[r]
    {
    }

    lemma RowOf(row: nat)
      requires |owners| == |rows| && RowsExact(meaning, owners, rows) && row < |rows|
      ensures RowExact(meaning, owners, owners[row], rows[row])
    {
    }

    method Get(row: nat, third: nat, key: nat) returns (r: Option<Retained>)
      requires Valid()
      requires row < |rows| ==> key == owners[row] + third * PAIR
      ensures r == if row < |rows| then Lookup(row, third) else None
    {
      hide Reachable, Named, RowsExact, OverflowExact;
      if row >= |rows| {
        return None;
      }
      assert RowExact(meaning, owners, owners[row], rows[row]) by { RowOf(row); }
      var e := rows[row].Get(third);
      if e.Some? {
        return Some(Retained(e.value.score, e.value.nextRow));
      }
      if rows[row].overflow {
        r := overflow.Get(key);
        return;
      }
      return None;
    }

    /** Whatever a lookup answers is the uncached score, with the row of the last pair. */
    lemma LookupExact(row: nat, third: nat)
      requires Valid() && row < |rows|
      ensures Lookup(row, third).Some? ==> Exact(meaning, owners, owners[row], third, Lookup(row, third).value)
    {
      hide Reachable, Named, Exact;
      RowOf(row);
      KeyFields(owners[row], third);
    }

    /** Retains one exact transition. Only the lookup of this row and third signature may change, and
        it answers with the new transition unless the overflow table is exhausted. */
    method Insert(row: nat, third: nat, key: nat, kept: Retained)
      requires Valid() && row < |rows| && key == owners[row] + third * PAIR
      requires Exact(meaning, owners, owners[row], third, kept)
      modifies this`rows, overflow
      ensures Valid() && |rows| == old(|rows|)
      ensures Lookup(row, third) == Some(kept) ||
              (Lookup(row, third) == old(Lookup(row, third)) && old(overflow.size) >= overflow.maxEntries)
      ensures forall q, t :: 0 <= q < |rows| && (q != row || t != third) ==> Lookup(q, t) == old(Lookup(q, t))
    {
      hide Reachable, Named, RowsExact, OverflowExact, Exact, OverflowScoreCache.Valid, InlineLookup;
      var e := InlineTransition(third, kept.nextRow, kept.score);
      RowOf(row);
      var target, added := rows[row].InsertInline(e);
      var present := target.Get(third);
      if added || present.Some? {
        InlineExact(meaning, owners, owners[row], rows[row], target, e);
        RowReplaced(meaning, owners, rows, row, target, overflow.content);
        InlineLookups(rows[row], target, owners[row], overflow.content, e);
        rows := rows[row := target];
        return;
      }
      SpillInsert(row, third, key, kept);
    }

    /** The row is full: mark it and retain the transition in the overflow table, capacity permitting. */
    method SpillInsert(row: nat, third: nat, key: nat, kept: Retained)
      requires Valid() && row < |rows| && key == owners[row] + third * PAIR
      requires Exact(meaning, owners, owners[row], third, kept) && !rows[row].Mentions(third)
      modifies this`rows, overflow
      ensures Valid() && |rows| == old(|rows|)
      ensures Lookup(row, third) == Some(kept) ||
              (Lookup(row, third) == old(Lookup(row, third)) && old(overflow.size) >= overflow.maxEntries)
      ensures forall q, t :: 0 <= q < |rows| && (q != row || t != third) ==> Lookup(q, t) == old(Lookup(q, t))
    {
      hide Reachable, Named, RowsExact, OverflowExact, Exact, OverflowScoreCache.Valid, RowLookup, Pow2, Occupied, PackPair;
      DistinctOwners();
      MarkedRows(row);
      ghost var before := rows;
      rows := rows[row := rows[row].(overflow := true)];
      var grown := overflow.Insert(key, kept.score, kept.nextRow);
      OverflowLookups(meaning, owners, before, row, third, kept, old(overflow.content), overflow.content);
    }

    lemma MarkedRows(row: nat)
      requires |owners| == |rows| && row < |rows| && RowsExact(meaning, owners, rows)
      ensures RowsExact(meaning, owners, rows[row := rows[row].(overflow := true)])
    {
      RowOf(row);
      InlineExactMarked(meaning, owners, owners[row], rows[row]);
    }
  }

  lemma InlineExactMarked(m: Meaning, owners: seq<nat>, pair: nat, row: TransitionRow)
    requires RowExact(m, owners, pair, row)
    ensures RowExact(m, owners, pair, row.(overflow := true))
  {
  }

  ghost function InlineLookup(entries: seq<Option<InlineTransition>>, third: nat): Option<Retained> {
    if i :| 0 <= i < |entries| && entries[i].Some? && entries[i].value.third == third then
      Some(Retained(entries[i].value.score, entries[i].value.nextRow))
    else None
  }

  /** The transition a row and the overflow table retain for `third`. */
  ghost function RowLookup(row: TransitionRow, pair: nat, third: nat, content: map<nat, Retained>): Option<Retained> {
    var inline := InlineLookup(row.entries, third);
    if inline.Some? then inline
    else if row.overflow && pair + third * PAIR in content then Some(content[pair + third * PAIR])
    else None
  }

  lemma InlineExact(m: Meaning, owners: seq<nat>, pair: nat, row: TransitionRow, after: TransitionRow, e: InlineTransition)
    requires RowExact(m, owners, pair, row) && after.Shaped()
    requires Exact(m, owners, pair, e.third, Retained(e.score, e.nextRow))
    requires after.Holds(e) || after == row.(overflow := true)
    requires forall x: InlineTransition :: x.third != e.third ==> after.Holds(x) == row.Holds(x)
    ensures RowExact(m, owners, pair, after)
  {
    forall i | 0 <= i < |after.entries| && after.entries[i].Some?
      ensures Exact(m, owners, pair, after.entries[i].value.third,
                    Retained(after.entries[i].value.score, after.entries[i].value.nextRow))
    {
      var x := after.entries[i].value;
      assert after.Holds(x);
      if x.third != e.third {
        var k :| 0 <= k < |row.entries| && row.entries[k] == Some(x);
      } else if after.Holds(e) {
        var k :| 0 <= k < |after.entries| && after.entries[k] == Some(e);
        assert k == i;
      }
    }
  }

  lemma RowReplaced(m: Meaning, owners: seq<nat>, rows: seq<TransitionRow>, row: nat, target: TransitionRow, content: map<nat, Retained>)
    requires |owners| == |rows| && row < |rows|
    requires RowsExact(m, owners, rows) && OverflowExact(m, owners, rows, content)
    requires RowExact(m, owners, owners[row], target) && (rows[row].overflow ==> target.overflow)
    ensures RowsExact(m, owners, rows[row := target]) && OverflowExact(m, owners, rows[row := target], content)
  {
  }

  lemma InlineLookups(row: TransitionRow, after: TransitionRow, pair: nat, content: map<nat, Retained>, e: InlineTransition)
    requires row.Shaped() && after.Shaped()
    requires forall x: InlineTransition :: x.third != e.third ==> after.Holds(x) == row.Holds(x)
    ensures after.Holds(e) ==> RowLookup(after, pair, e.third, content) == Some(Retained(e.score, e.nextRow))
    ensures after.overflow == row.overflow ==>
              forall t :: t != e.third ==> RowLookup(after, pair, t, content) == RowLookup(row, pair, t, content)
  {
    if after.Holds(e) {
      var i :| 0 <= i < |after.entries| && after.entries[i] == Some(e);
      assert after.Mentions(e.third);
    }
    forall t: nat | t != e.third && after.overflow == row.overflow
      ensures RowLookup(after, pair, t, content) == RowLookup(row, pair, t, content)
    {
      SameMention(row, after, t);
    }
  }

  lemma SameMention(row: TransitionRow, after: TransitionRow, third: nat)
    requires row.Shaped() && after.Shaped()
    requires forall x: InlineTransition :: x.third == third ==> after.Holds(x) == row.Holds(x)
    ensures after.Mentions(third) == row.Mentions(third)
    ensures forall i, j | 0 <= i < |row.entries| && 0 <= j < |after.entries| && row.entries[i].Some? && after.entries[j].Some? ::
              row.entries[i].value.third == third == after.entries[j].value.third ==> row.entries[i] == after.entries[j]
  {
    if row.Mentions(third) {
      var i :| 0 <= i < |row.entries| && row.entries[i].Some? && row.entries[i].value.third == third;
      assert row.Holds(row.entries[i].value);
    }
    if after.Mentions(third) {
      var j :| 0 <= j < |after.entries| && after.entries[j].Some? && after.entries[j].value.third == third;
      assert after.Holds(after.entries[j].value);
    }
  }

  /** Marking a full row and growing the overflow table changes no lookup but the new one. */
  lemma OverflowLookups(m: Meaning, owners: seq<nat>, rows: seq<TransitionRow>, row: nat, third: nat, kept: Retained,
                        content: map<nat, Retained>, grown: map<nat, Retained>)
    requires |owners| == |rows| && row < |rows| && OverflowExact(m, owners, rows, content)
    requires forall r :: 0 <= r < |owners| ==> owners[r] < PAIR
    requires forall q, r :: 0 <= q < r < |owners| ==> owners[q] != owners[r]
    requires grown == content || grown == content[owners[row] + third * PAIR := kept]
    requires !rows[row].Mentions(third)
    requires Exact(m, owners, owners[row], third, kept)
    ensures OverflowExact(m, owners, rows[row := rows[row].(overflow := true)], grown)
    ensures grown == content ==>
              RowLookup(rows[row].(overflow := true), owners[row], third, grown) == RowLookup(rows[row], owners[row], third, content)
    ensures grown == content[owners[row] + third * PAIR := kept] ==>
              RowLookup(rows[row].(overflow := true), owners[row], third, grown) == Some(kept)
    ensures forall q, t :: 0 <= q < |rows| && (q != row || t != third) ==>
              RowLookup(rows[row := rows[row].(overflow := true)][q], owners[q], t, grown) == RowLookup(rows[q], owners[q], t, content)
  {
    var key := owners[row] + third * PAIR;
    KeyFields(owners[row], third);
    forall q, t: nat | 0 <= q < |rows| && (q != row || t != third)
      ensures RowLookup(rows[row := rows[row].(overflow := true)][q], owners[q], t, grown) == RowLookup(rows[q], owners[q], t, content)
    {
      KeyFields(owners[q], t);
      assert owners[q] + t * PAIR != key;
      if q == row {
        MarkedLookup(m, owners, rows, row, t, content, grown);
      }
    }
  }

  lemma MarkedLookup(m: Meaning, owners: seq<nat>, rows: seq<TransitionRow>, row: nat, t: nat,
                     content: map<nat, Retained>, grown: map<nat, Retained>)
    requires |owners| == |rows| && row < |rows| && OverflowExact(m, owners, rows, content) && owners[row] < PAIR
    requires var key := owners[row] + t * PAIR;
             key in content <==> key in grown && (key in content ==> content[key] == grown[key])
    ensures RowLookup(rows[row].(overflow := true), owners[row], t, grown) == RowLookup(rows[row], owners[row], t, content)
  {
    var marked := rows[row].(overflow := true);
    KeyFields(owners[row], t);
    assert marked.Mentions(t) == rows[row].Mentions(t);
    if owners[row] + t * PAIR in content {
      assert rows[row].overflow;
    }
  }

  lemma KeyFields(pair: nat, third: nat)
    requires pair < PAIR
    ensures (pair + third * PAIR) % PAIR == pair && (pair + third * PAIR) / PAIR == third
  {
  }
}
