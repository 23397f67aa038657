/** Machine-word arithmetic on natural numbers, and the circular slot arithmetic
    shared by the open-addressing tables.

    A 32-bit pattern is a natural number below 2^32; a signed Java hash is kept
    as its two's-complement pattern. */
module MachineWords {
  const TWO31: nat := 0x8000_0000
  const TWO32: nat := 0x1_0000_0000
  const TWO64: nat := 0x1_0000_0000_0000_0000

  /** Bitwise AND of two natural numbers. */
  function BitAnd(x: nat, y: nat): nat
    decreases x
  {
    if x == 0 || y == 0 then 0
    else (if x % 2 == 1 && y % 2 == 1 then 1 else 0) + 2 * BitAnd(x / 2, y / 2)
  }

  /** Bitwise exclusive OR of two natural numbers. */
  function BitXor(x: nat, y: nat): nat
    decreases x + y
  {
    if x == 0 && y == 0 then 0
    else (if x % 2 != y % 2 then 1 else 0) + 2 * BitXor(x / 2, y / 2)
  }

  predicate PowerOfTwo(n: nat) {
    n == 1 || (n > 1 && n % 2 == 0 && PowerOfTwo(n / 2))
  }

  lemma PowerOfTwoDoubles(n: nat)
    requires PowerOfTwo(n)
    ensures PowerOfTwo(n * 2)
  {
    assert n > 0;
  }

  lemma ModuloHalves(x: nat, half: nat)
    requires half > 0
    ensures x % (2 * half) == x % 2 + 2 * ((x / 2) % half)
  {
    var q, r := (x / 2) / half, (x / 2) % half;
    assert x / 2 == q * half + r;
    assert x == q * (2 * half) + (2 * r + x % 2);
    ModuloUnique(x, 2 * half, q, 2 * r + x % 2);
  }

  lemma ModuloUnique(x: nat, n: nat, q: nat, r: nat)
    requires r < n && x == q * n + r
    ensures x % n == r && x / n == q
  {
    var d := q - x / n;
    assert n * d == x % n - r by {
      assert x == n * (x / n) + x % n;
    }
    assert d >= 1 ==> n * d >= n;
    assert d <= -1 ==> n * d <= 0 - n;
  }

  /** Masking with `n - 1` is reduction modulo `n` for every power of two `n`. */
  lemma {:induction false} MaskIsModulo(x: nat, n: nat)
    requires PowerOfTwo(n)
    ensures BitAnd(x, n - 1) == x % n
    decreases n
  {
    if n > 1 {
      MaskIsModulo(x / 2, n / 2);
      ModuloHalves(x, n / 2);
      assert (n - 1) / 2 == n / 2 - 1 && (n - 1) % 2 == 1;
    }
  }

  /** The slot after `slot` on a circle of `n` slots. */
  function Next(slot: nat, n: nat): (r: nat)
    requires slot < n
  {
    if slot + 1 == n then 0 else slot + 1
  }

  /** `(slot + 1) & modulo` walks the circle of `modulo + 1` slots. */
  lemma MaskedStep(slot: nat, n: nat)
    requires PowerOfTwo(n) && slot < n
    ensures BitAnd(slot + 1, n - 1) == Next(slot, n)
  {
    MaskIsModulo(slot + 1, n);
    if slot + 1 == n {
      ModuloUnique(n, n, 1, 0);
    } else {
      ModuloUnique(slot + 1, n, 0, slot + 1);
    }
  }

  /** How many steps separate `slot` from `target` going forward on a circle of `n` slots. */
  function Distance(slot: nat, target: nat, n: nat): nat
    requires slot < n && target < n
  {
    if slot <= target then target - slot else target + n - slot
  }

  /** `t` is visited when walking forward from `home` up to, but not including, `stop`. */
  predicate Visited(home: int, t: int, stop: int) {
    if home <= stop then home <= t < stop else home <= t || t < stop
  }

  /** The multiplicative mixing of a signed 32-bit hash: the low 31 bits of
      `h ^ (h >> 16)` where `h` is the wrapped product and the shift keeps the sign. */
  function Rehash(value: nat): (r: nat)
    ensures r < TWO31
  {
    var h := (value * 0x9e37_79b9) % TWO32;
    var shifted := if h >= TWO31 then h / 0x1_0000 + 0xffff_0000 else h / 0x1_0000;
    BitXor(h, shifted) % TWO31
  }

  /** First slot probed for a hash in a table whose mask is `modulo`. */
  function HashSlot(value: nat, modulo: nat): nat {
    BitAnd(Rehash(value), modulo)
  }

  lemma HashSlotInRange(value: nat, n: nat)
    requires PowerOfTwo(n)
    ensures HashSlot(value, n - 1) < n
  {
    MaskIsModulo(Rehash(value), n);
  }

  /** Fill limit of a table: 55 percent of its slots, rounded down. */
  function LoadLimit(capacity: nat): nat {
    capacity * 55 / 100
  }

  /** Java's combination of two element hashes on wrapped 32-bit integers. */
  function Combine31(left: nat, right: nat): nat {
    (left * 31 + right) % TWO32
  }
}
