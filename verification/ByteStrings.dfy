/** Byte strings: little-endian integers and occurrences of one string in another. */
module ByteStrings {
  import opened Common

  const U32_LIMIT: nat := 0x1_0000_0000
  const U64_LIMIT: nat := 0x1_0000_0000_0000_0000

  type U64 = n: nat | n < U64_LIMIT

  ghost predicate IsBytes(p: seq<nat>) {
    forall i :: 0 <= i < |p| ==> p[i] < 256
  }

  // ----- occurrences

  /** `part` occurs in `p` at `at`. */
  ghost predicate Occurs(p: seq<nat>, at: nat, part: seq<nat>) {
    at + |part| <= |p| && p[at..at + |part|] == part
  }

  lemma OccursSplit(p: seq<nat>, at: nat, a: seq<nat>, b: seq<nat>)
    ensures Occurs(p, at, a + b) <==> Occurs(p, at, a) && Occurs(p, at + |a|, b)
  {
    if Occurs(p, at, a + b) {
      assert p[at..at + |a|] == p[at..at + |a + b|][..|a|];
      assert p[at + |a|..at + |a| + |b|] == p[at..at + |a + b|][|a|..];
    }
    if Occurs(p, at, a) && Occurs(p, at + |a|, b) {
      assert p[at..at + |a + b|] == p[at..at + |a|] + p[at + |a|..at + |a| + |b|];
    }
  }

  lemma EmptyOccurs(p: seq<nat>, at: nat)
    requires at <= |p|
    ensures Occurs(p, at, [])
  {
  }

  lemma OccursWithin(p: seq<nat>, at: nat, part: seq<nat>)
    requires Occurs(p, at, part)
    ensures at + |part| <= |p|
  {
  }

  /** Appending an element yields a list exactly when that list ends with it. */
  lemma SameLast<T>(rest: seq<T>, last: T, whole: seq<T>)
    requires whole != []
    ensures rest + [last] == whole <==> rest == whole[..|whole| - 1] && last == whole[|whole| - 1]
  {
    assert whole == whole[..|whole| - 1] + [whole[|whole| - 1]];
    assert (rest + [last])[..|rest|] == rest && (rest + [last])[|rest|] == last;
  }

  // ----- integers

  function Power(width: nat): (r: nat)
    ensures r > 0
  {
    if width == 0 then 1 else 256 * Power(width - 1)
  }

  /** The lowest `width` base-256 digits, lowest first. */
  function LittleEndian(n: nat, width: nat): (r: seq<nat>)
    ensures |r| == width && IsBytes(r)
  {
    if width == 0 then [] else [n % 256] + LittleEndian(n / 256, width - 1)
  }

  function Value(s: seq<nat>): nat {
    if s == [] then 0 else s[0] + 256 * Value(s[1..])
  }

  lemma {:induction false} ValueOfDigits(n: nat, width: nat)
    requires n < Power(width)
    ensures Value(LittleEndian(n, width)) == n
    decreases width
  {
    if width > 0 {
      ValueOfDigits(n / 256, width - 1);
      assert LittleEndian(n, width)[1..] == LittleEndian(n / 256, width - 1);
    }
  }

  lemma {:induction false} DigitsOfValue(s: seq<nat>)
    requires IsBytes(s)
    ensures Value(s) < Power(|s|) && LittleEndian(Value(s), |s|) == s
  {
    if s != [] {
      DigitsOfValue(s[1..]);
      assert Value(s) / 256 == Value(s[1..]) && Value(s) % 256 == s[0];
      assert s == [s[0]] + s[1..];
    }
  }

  function ReadInt(p: seq<nat>, at: nat, width: nat): Option<nat> {
    if at + width <= |p| then Some(Value(p[at..at + width])) else None
  }

  /** An integer is read where, and only where, its digits stand. */
  lemma IntRoundTrip(p: seq<nat>, at: nat, width: nat, n: nat)
    requires IsBytes(p) && n < Power(width)
    ensures Occurs(p, at, LittleEndian(n, width)) <==> ReadInt(p, at, width) == Some(n)
  {
    hide Power, LittleEndian, Value;
    ValueOfDigits(n, width);
    if at + width <= |p| {
      DigitsOfValue(p[at..at + width]);
    }
  }

  lemma ReadBounds(p: seq<nat>, at: nat, width: nat)
    requires IsBytes(p) && ReadInt(p, at, width).Some?
    ensures ReadInt(p, at, width).value < Power(width)
  {
    DigitsOfValue(p[at..at + width]);
  }

  lemma Powers()
    ensures Power(2) == 0x1_0000 && Power(4) == 0x1_0000_0000 && Power(8) == 0x1_0000_0000_0000_0000
  {
    assert Power(4) == 256 * 256 * Power(2);
    assert Power(6) == 256 * 256 * Power(4);
  }

  // ----- 16 and 32 bits

  function Bytes16(n: nat): seq<nat> {
    LittleEndian(n, 2)
  }

  function Bytes32(n: nat): seq<nat> {
    LittleEndian(n, 4)
  }

  function ReadU16(p: seq<nat>, at: nat): Option<nat> {
    ReadInt(p, at, 2)
  }

  function ReadU32(p: seq<nat>, at: nat): Option<nat> {
    ReadInt(p, at, 4)
  }

  lemma U16RoundTrip(p: seq<nat>, at: nat, n: nat)
    requires IsBytes(p) && n < 0x1_0000
    ensures Occurs(p, at, Bytes16(n)) <==> ReadU16(p, at) == Some(n)
  {
    Powers();
    IntRoundTrip(p, at, 2, n);
  }

  lemma U32RoundTrip(p: seq<nat>, at: nat, n: nat)
    requires IsBytes(p) && n < U32_LIMIT
    ensures Occurs(p, at, Bytes32(n)) <==> ReadU32(p, at) == Some(n)
  {
    Powers();
    IntRoundTrip(p, at, 4, n);
  }

  lemma ReadsFit(p: seq<nat>, at: nat)
    requires IsBytes(p)
    ensures ReadU16(p, at).Some? ==> ReadU16(p, at).value < 0x1_0000
    ensures ReadU32(p, at).Some? ==> ReadU32(p, at).value < U32_LIMIT
    ensures ReadU16(p, at).Some? <==> at + 2 <= |p|
    ensures ReadU32(p, at).Some? <==> at + 4 <= |p|
  {
    Powers();
    if at + 2 <= |p| {
      ReadBounds(p, at, 2);
    }
    if at + 4 <= |p| {
      ReadBounds(p, at, 4);
    }
  }

  // ----- lists of 32-bit integers

  function Words(values: seq<nat>): seq<nat> {
    if values == [] then [] else Words(values[..|values| - 1]) + Bytes32(values[|values| - 1])
  }

  function ReadWords(p: seq<nat>, at: nat, count: nat): Option<seq<nat>>
    decreases count
  {
    if count == 0 then Some([])
    else
      var rest, last := ReadWords(p, at, count - 1), ReadU32(p, at + 4 * (count - 1));
      if rest.None? || last.None? then None else Some(rest.value + [last.value])
  }

  lemma {:induction false} WordsLength(values: seq<nat>)
    ensures |Words(values)| == 4 * |values|
  {
    if values != [] {
      WordsLength(values[..|values| - 1]);
    }
  }

  lemma {:induction false} WordsRoundTrip(p: seq<nat>, at: nat, values: seq<nat>)
    requires IsBytes(p) && at <= |p| && forall i :: 0 <= i < |values| ==> values[i] < U32_LIMIT
    ensures Occurs(p, at, Words(values)) <==> ReadWords(p, at, |values|) == Some(values)
  {
    hide Bytes32, Occurs, ReadU32;
    if values == [] {
      assert Occurs(p, at, []) by { EmptyOccurs(p, at); }
    } else {
      var n := |values| - 1;
      WordsRoundTrip(p, at, values[..n]);
      WordsLength(values[..n]);
      OccursSplit(p, at, Words(values[..n]), Bytes32(values[n]));
      U32RoundTrip(p, at + 4 * n, values[n]);
      LastWord(p, at, values);
    }
  }

  lemma LastWord(p: seq<nat>, at: nat, values: seq<nat>)
    requires values != []
    ensures var n := |values| - 1;
            ReadWords(p, at, |values|) == Some(values) <==> ReadWords(p, at, n) == Some(values[..n]) && ReadU32(p, at + 4 * n) == Some(values[n])
  {
    hide ReadU32;
    var n := |values| - 1;
    var rest, last := ReadWords(p, at, n), ReadU32(p, at + 4 * n);
    if rest.Some? && last.Some? {
      SameLast(rest.value, last.value, values);
    }
  }

  lemma {:induction false} WordsBounds(p: seq<nat>, at: nat, count: nat)
    requires IsBytes(p) && ReadWords(p, at, count).Some?
    ensures |ReadWords(p, at, count).value| == count
    ensures forall i :: 0 <= i < count ==> ReadWords(p, at, count).value[i] < U32_LIMIT
  {
    if count > 0 {
      WordsBounds(p, at, count - 1);
      ReadsFit(p, at + 4 * (count - 1));
    }
  }

  lemma {:induction false} WordsAreBytes(values: seq<nat>)
    requires forall i :: 0 <= i < |values| ==> values[i] < U32_LIMIT
    ensures IsBytes(Words(values))
  {
    if values != [] {
      WordsAreBytes(values[..|values| - 1]);
    }
  }

  lemma U16Length(n: nat)
    ensures |Bytes16(n)| == 2
  {
  }

  // ----- digits

  /** The `width` bytes at a position are the base-256 digits of a number, the lowest first. */
  ghost predicate NumberAt(p: seq<nat>, at: nat, width: nat, n: nat) {
    at + width <= |p| && forall k :: 0 <= k < width ==> p[at + k] == n / Power(k) % 256
  }

  lemma DivideTwice(n: nat, d: nat)
    requires d > 0
    ensures n / (256 * d) == n / 256 / d
  {
    var q, r := n / 256 / d, n / 256 % d;
    assert n / 256 == q * d + r;
    assert n == q * (256 * d) + (256 * r + n % 256);
    var e := n / (256 * d) - q;
    assert 256 * d * e == 256 * r + n % 256 - n % (256 * d);
    assert e >= 1 ==> 256 * d * e >= 256 * d;
    assert e <= -1 ==> 256 * d * e <= -(256 * d);
  }

  /** Digit `k` is `n / 256^k` modulo 256. */
  lemma {:induction false} LittleEndianDigit(n: nat, width: nat, k: nat)
    requires k < width
    ensures LittleEndian(n, width)[k] == n / Power(k) % 256
    decreases width
  {
    if k > 0 {
      LittleEndianDigit(n / 256, width - 1, k - 1);
      DivideTwice(n, Power(k - 1));
    }
  }

  /** A number's encoding stands where its digits stand. */
  lemma DigitsStand(p: seq<nat>, at: nat, width: nat, n: nat)
    ensures Occurs(p, at, LittleEndian(n, width)) <==> NumberAt(p, at, width, n)
  {
    hide LittleEndian, Power;
    var digits := LittleEndian(n, width);
    forall k | 0 <= k < width
      ensures digits[k] == n / Power(k) % 256
    {
      LittleEndianDigit(n, width, k);
    }
    if Occurs(p, at, digits) {
      forall k | 0 <= k < width
        ensures p[at + k] == n / Power(k) % 256
      {
        assert p[at + k] == p[at..at + width][k] == digits[k];
      }
    }
    if NumberAt(p, at, width, n) {
      assert p[at..at + width] == digits;
    }
  }
}
