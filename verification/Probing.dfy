/** Counting lemmas for tables of optional slots, and multiplicative slot hashing. */
module Probing {
  import opened Common
  import opened MachineWords

  /** Number of filled slots. */
  ghost function Occupied<T>(slots: seq<Option<T>>): (n: nat)
    ensures n <= |slots|
  {
    |slots| - multiset(slots)[None]
  }

  lemma {:induction false} AllVacant<T>(slots: seq<Option<T>>)
    requires forall i :: 0 <= i < |slots| ==> slots[i].None?
    ensures multiset(slots)[None] == |slots|
    ensures forall value :: Some(value) !in multiset(slots)
  {
    if slots != [] {
      var n := |slots| - 1;
      assert slots == slots[..n] + [None];
      AllVacant(slots[..n]);
    }
  }

  /** A table with fewer elements than slots has a vacant slot. */
  lemma VacantSlot<T>(slots: seq<Option<T>>) returns (hole: nat)
    requires Occupied(slots) < |slots|
    ensures hole < |slots| && slots[hole].None?
  {
    assert None in multiset(slots);
    hole :| hole < |slots| && slots[hole] == None;
  }

  /** Filling a vacant slot adds exactly one element. */
  lemma FillVacant<T>(slots: seq<Option<T>>, i: nat, value: T)
    requires i < |slots| && slots[i].None?
    ensures multiset(slots[i := Some(value)]) == multiset(slots) - multiset{None} + multiset{Some(value)}
    ensures Occupied(slots[i := Some(value)]) == Occupied(slots) + 1
  {
    assert None in slots;
  }

  function Pow2(k: nat): (r: nat)
    ensures r > 0
  {
    if k == 0 then 1 else 2 * Pow2(k - 1)
  }

  lemma {:induction false} Pow2IsPowerOfTwo(k: nat)
    ensures PowerOfTwo(Pow2(k))
  {
    if k > 0 {
      Pow2IsPowerOfTwo(k - 1);
    }
  }

  lemma {:induction false} Pow2Sum(a: nat, b: nat)
    ensures Pow2(a + b) == Pow2(a) * Pow2(b)
  {
    if a > 0 {
      Pow2Sum(a - 1, b);
    }
  }

  /** `x >> k`. */
  function ShiftRight(x: nat, k: nat): nat
    decreases k
  {
    if k == 0 then x else ShiftRight(x / 2, k - 1)
  }

  lemma {:induction false} ShiftRightBound(x: nat, k: nat, m: nat)
    requires x < Pow2(k + m)
    ensures ShiftRight(x, k) < Pow2(m)
    decreases k
  {
    if k > 0 {
      ShiftRightBound(x / 2, k - 1, m);
    }
  }

  lemma Pow2Of64()
    ensures Pow2(64) == TWO64
  {
    Pow2Of16();
    Pow2Sum(16, 16);
    Pow2Sum(32, 32);
  }

  lemma Pow2Of16()
    ensures Pow2(16) == 0x1_0000
  {
    assert Pow2(4) == 16;
    assert Pow2(8) == 256;
    assert Pow2(12) == 4096;
  }

  /** The top `log` bits of a 64-bit word name a slot of a table of `2^log` slots. */
  function TopBits(word: nat, log: nat): nat
    requires log <= 64
  {
    ShiftRight(word % TWO64, 64 - log)
  }

  lemma TopBitsInRange(word: nat, log: nat)
    requires log <= 64
    ensures TopBits(word, log) < Pow2(log)
  {
    Pow2Of64();
    assert word % TWO64 < Pow2((64 - log) + log);
    ShiftRightBound(word % TWO64, 64 - log, log);
  }

  /** Walks forward from `start` to the first vacant slot. */
  method FirstVacant<T>(table: seq<Option<T>>, start: nat) returns (slot: nat)
    requires PowerOfTwo(|table|) && start < |table| && Occupied(table) < |table|
    ensures slot < |table| && table[slot].None?
    ensures forall t :: 0 <= t < |table| && Visited(start, t, slot) ==> table[t].Some?
  {
    slot := start;
    ghost var hole := VacantSlot(table);
    while table[slot].Some?
      invariant slot < |table|
      invariant forall t :: 0 <= t < |table| && Visited(start, t, slot) ==> table[t].Some?
      decreases Distance(slot, hole, |table|)
    {
      MaskedStep(slot, |table|);
      slot := BitAnd(slot + 1, |table| - 1);
    }
  }

  /** The smallest power of two that is at least `n` and at least `candidate`. */
  function NextPowerOfTwo(n: nat, candidate: nat): (r: nat)
    requires candidate > 0 && PowerOfTwo(candidate)
    ensures PowerOfTwo(r) && r >= n && r >= candidate && (r == candidate || r < 2 * n)
    decreases n - candidate
  {
    if n <= candidate then candidate else NextPowerOfTwo(n, 2 * candidate)
  }
}
