/** Looking features up without building their text: streamed hashes against hashes of the materialised key. */
module FeatureKeys {
  import opened Common
  import opened MachineWords
  import opened Utf8
  import opened TrigramFeatures

  // ----- texts in UTF-8 and UTF-16

  /** A character as a scalar value. */
  function ScalarOf(c: char): (v: nat)
    ensures Scalar(v)
  {
    c as int
  }

  function Utf8Of(s: string): seq<Byte> {
    if s == [] then [] else Utf8Of(s[..|s| - 1]) + EncodeScalar(ScalarOf(s[|s| - 1]))
  }

  /** The UTF-16 code units of a scalar value (section 2.1 of RFC 2781). */
  function UnitsOf(v: nat): seq<nat>
    requires Scalar(v)
  {
    if v < 0x1_0000 then [v] else [0xd800 + (v - 0x1_0000) / 0x400, 0xdc00 + (v - 0x1_0000) % 0x400]
  }

  /** One unit for the basic plane and a surrogate pair for the others, from which the value is read back. */
  lemma UnitsDenote(v: nat)
    requires Scalar(v)
    ensures v < 0x1_0000 <==> |UnitsOf(v)| == 1
    ensures v < 0x1_0000 ==> UnitsOf(v) == [v] && !(0xd800 <= v <= 0xdfff)
    ensures v >= 0x1_0000 ==>
              var u := UnitsOf(v);
              && |u| == 2 && 0xd800 <= u[0] <= 0xdbff && 0xdc00 <= u[1] <= 0xdfff
              && v == (u[0] - 0xd800) * 0x400 + (u[1] - 0xdc00) + 0x1_0000
  {
  }

  function Utf16Of(s: string): seq<nat> {
    if s == [] then [] else Utf16Of(s[..|s| - 1]) + UnitsOf(ScalarOf(s[|s| - 1]))
  }

  lemma {:induction false} Utf16Concat(a: string, b: string)
    ensures Utf16Of(a + b) == Utf16Of(a) + Utf16Of(b)
    decreases |b|
  {
    hide UnitsOf;
    if b == [] {
      assert a + b == a;
    } else {
      var n := |b| - 1;
      assert (a + b)[..|a + b| - 1] == a + b[..n];
      Utf16Concat(a, b[..n]);
    }
  }

  lemma {:induction false} Utf8Concat(a: string, b: string)
    ensures Utf8Of(a + b) == Utf8Of(a) + Utf8Of(b)
    decreases |b|
  {
    hide EncodeScalar;
    if b == [] {
      assert a + b == a;
    } else {
      var n := |b| - 1;
      assert (a + b)[..|a + b| - 1] == a + b[..n];
      Utf8Concat(a, b[..n]);
    }
  }

  lemma OneCharacter(c: char)
    ensures Utf8Of([c]) == EncodeScalar(ScalarOf(c)) && WellFormed(EncodeScalar(ScalarOf(c)))
  {
    assert [c][..0] == [];
    EncodedIsCharacter(ScalarOf(c));
    var e := EncodeScalar(ScalarOf(c));
    assert e[|e|..] == [];
  }

  /** Every string encodes to well-formed UTF-8 ... */
  lemma {:induction false} Utf8IsWellFormed(s: string)
    ensures WellFormed(Utf8Of(s))
  {
    hide EncodeScalar, WellFormed;
    if s == [] {
      EmptyIsWellFormed();
    } else {
      var n := |s| - 1;
      Utf8IsWellFormed(s[..n]);
      OneCharacter(s[n]);
      WellFormedConcat(Utf8Of(s[..n]), EncodeScalar(ScalarOf(s[n])));
    }
  }

  lemma EmptyIsWellFormed()
    ensures WellFormed([])
  {
  }

  /** ... and every well-formed byte string is the encoding of a string. */
  lemma {:induction false} WellFormedIsUtf8(bytes: seq<Byte>) returns (s: string)
    requires WellFormed(bytes)
    ensures Utf8Of(s) == bytes
  {
    hide EncodeScalar, CharLength;
    if bytes == [] {
      return [];
    }
    var n := CharLength(bytes);
    var c := FirstCharacter(bytes);
    var rest := WellFormedIsUtf8(bytes[n..]);
    OneCharacter(c);
    Utf8Concat([c], rest);
    assert bytes == bytes[..n] + bytes[n..];
    return [c] + rest;
  }

  lemma FirstCharacter(bytes: seq<Byte>) returns (c: char)
    requires bytes != [] && CharLength(bytes) > 0
    ensures CharLength(bytes) <= |bytes| && EncodeScalar(ScalarOf(c)) == bytes[..CharLength(bytes)]
  {
    CharLengthFits(bytes);
    if bytes[0] < 0x80 {
      c := bytes[0] as char;
      assert bytes[..1] == [bytes[0]];
    } else {
      hide CharLength, EncodeScalar, DecodeAt;
      assert bytes[0..] == bytes;
      DecodesTheGrammar(bytes, 0);
      DecodedIsEncoded(bytes, 0);
      c := DecodeAt(bytes, 0).value.0 as char;
    }
  }

  // ----- the key of a feature

  /** The decimal numeral. */
  function Numeral(n: nat): (s: string)
    ensures s != []
  {
    if n < 10 then [Digit(n)] else Numeral(n / 10) + [Digit(n % 10)]
  }

  function Digit(d: nat): char
    requires d < 10
  {
    '0' + d as char
  }

  predicate AllDigits(s: string) {
    forall i :: 0 <= i < |s| ==> '0' <= s[i] <= '9'
  }

  function NumeralValue(s: string): nat
    requires AllDigits(s)
  {
    if s == [] then 0 else 10 * NumeralValue(s[..|s| - 1]) + (s[|s| - 1] - '0') as int
  }

  /** A numeral denotes its number, in digits without a leading zero. */
  lemma {:induction false} NumeralDenotes(n: nat)
    ensures AllDigits(Numeral(n))
    ensures NumeralValue(Numeral(n)) == n
    ensures n > 0 ==> Numeral(n)[0] != '0'
  {
    if n >= 10 {
      NumeralDenotes(n / 10);
      var s := Numeral(n);
      assert s[..|s| - 1] == Numeral(n / 10);
    } else {
      assert Numeral(n)[..0] == [];
    }
  }

  function Joined(values: seq<string>): string {
    if values == [] then ""
    else if |values| == 1 then values[0]
    else Joined(values[..|values| - 1]) + "+" + values[|values| - 1]
  }

  /** The text a feature is stored under in the model. */
  function Key(view: FeatureView): string {
    match view
    case F2(lemma1, igs2, lemma3, igs3) => "2:" + lemma1 + Joined(igs2) + lemma3 + "+" + Joined(igs3)
    case F3(lemma2, igs2, lemma3, igs3) => "3:" + lemma2 + "+" + Joined(igs2) + "-" + lemma3 + "+" + Joined(igs3)
    case F4(lemma3, igs3) => "4:" + lemma3 + "+" + Joined(igs3)
    case F9(lemma2, lemma3) => "9:" + lemma2 + "-" + lemma3
    case F10(lemma3) => "10:" + lemma3
    case F10b(lemma2) => "10b:" + lemma2
    case F10c(lemma1) => "10c:" + lemma1
    case F15(last1, last2, ig) => "15:" + last1 + "-" + last2 + "-" + ig
    case F17(last2, ig) => "17:" + last2 + ig
    case F20(index, ig) => "20:" + Numeral(index) + "-" + ig
    case F22(count) => "22:" + Numeral(count)
  }

  /** The number of a feature kind as it leads the key. */
  function Tag(view: FeatureView): (tag: string)
    ensures ':' !in tag
  {
    match view
    case F2(_, _, _, _) => "2"
    case F3(_, _, _, _) => "3"
    case F4(_, _) => "4"
    case F9(_, _) => "9"
    case F10(_) => "10"
    case F10b(_) => "10b"
    case F10c(_) => "10c"
    case F15(_, _, _) => "15"
    case F17(_, _) => "17"
    case F20(_, _) => "20"
    case F22(_) => "22"
  }

  lemma KeyHasTag(view: FeatureView)
    ensures Tag(view) + ":" <= Key(view)
  {
    hide Joined, Numeral;
  }

  lemma FirstColon(a: string, b: string, text: string)
    requires ':' !in a && ':' !in b && a + ":" <= text && b + ":" <= text
    ensures a == b
  {
    var s, t := a + ":", b + ":";
    assert s[|a|] == text[|a|] && t[|b|] == text[|b|];
    assert forall k :: 0 <= k < |a| ==> s[k] == text[k] && s[k] == a[k];
    assert forall k :: 0 <= k < |b| ==> t[k] == text[k] && t[k] == b[k];
  }

  /** Features of different kinds never share a key, whatever texts they carry. */
  lemma KeysTellKindsApart(left: FeatureView, right: FeatureView)
    requires Key(left) == Key(right)
    ensures Tag(left) == Tag(right)
  {
    hide Key;
    KeyHasTag(left);
    KeyHasTag(right);
    FirstColon(Tag(left), Tag(right), Key(left));
  }

  // ----- hashes of code units

  const SEED: nat := 0x811c_9dc5
  const MULTIPLIER: nat := 16_777_619

  function Mphf(units: seq<nat>, seed: nat): nat {
    if units == [] then seed
    else BitXor(Mphf(units[..|units| - 1], seed), units[|units| - 1]) * MULTIPLIER % TWO32
  }

  /** Java's string hash as a 32-bit pattern. */
  function JavaHash(units: seq<nat>): nat {
    if units == [] then 0 else (JavaHash(units[..|units| - 1]) * 31 + units[|units| - 1]) % TWO32
  }

  function SeedOf(seed: nat): nat {
    if seed == 0 then SEED else seed
  }

  function Power31(k: nat): nat {
    if k == 0 then 1 else 31 * Power31(k - 1)
  }

  /** The polynomial in 31 whose coefficients are the units, the first one leading. */
  function Polynomial(units: seq<nat>): nat {
    if units == [] then 0 else units[0] * Power31(|units| - 1) + Polynomial(units[1..])
  }

  lemma {:induction false} PolynomialNext(units: seq<nat>, unit: nat)
    ensures Polynomial(units + [unit]) == Polynomial(units) * 31 + unit
  {
    if units == [] {
      assert (units + [unit])[1..] == [];
    } else {
      var n := |units| - 1;
      assert (units + [unit])[1..] == units[1..] + [unit];
      PolynomialNext(units[1..], unit);
      Distribute(units[0], Power31(n), Polynomial(units[1..]));
    }
  }

  lemma Distribute(x: nat, p: nat, q: nat)
    ensures (x * p + q) * 31 == x * (31 * p) + q * 31
  {
  }

  lemma WrappedStep(x: nat, unit: nat)
    ensures (x % TWO32 * 31 + unit) % TWO32 == (x * 31 + unit) % TWO32
  {
    var q, r := x / TWO32, x % TWO32;
    assert x * 31 + unit == 31 * q * TWO32 + (r * 31 + unit);
    var s, t := (r * 31 + unit) / TWO32, (r * 31 + unit) % TWO32;
    ModuloUnique(x * 31 + unit, TWO32, 31 * q + s, t);
  }

  /** Java's string hash is that polynomial on wrapped 32-bit integers. */
  lemma {:induction false} JavaHashIsPolynomial(units: seq<nat>)
    ensures JavaHash(units) == Polynomial(units) % 0x1_0000_0000
  {
    if units != [] {
      var n := |units| - 1;
      assert units == units[..n] + [units[n]];
      JavaHashIsPolynomial(units[..n]);
      PolynomialNext(units[..n], units[n]);
      WrappedStep(Polynomial(units[..n]), units[n]);
    }
  }

  /** The model's hash can be carried on from any point, and one unit is mixed in by an exclusive or and a wrapped
      multiplication by the 32-bit FNV prime. */
  lemma {:induction false} MphfStreams(left: seq<nat>, right: seq<nat>, seed: nat)
    ensures Mphf(left + right, seed) == Mphf(right, Mphf(left, seed))
    ensures |right| == 1 ==> Mphf(right, seed) == BitXor(seed, right[0]) * 0x100_0193 % 0x1_0000_0000
    decreases |right|
  {
    if right == [] {
      assert left + right == left;
    } else {
      var n := |right| - 1;
      assert (left + right)[..|left + right| - 1] == left + right[..n];
      MphfStreams(left, right[..n], seed);
    }
  }

  /** Folds code units into both hashes as they arrive. */
  class HashSink {
    const seed: nat
    var mphf: nat
    var java: nat
    ghost var units: seq<nat>   // the units consumed so far
    ghost var text: string      // the text they spell, between two texts

    ghost predicate Valid()
      reads this
    {
      mphf == Mphf(units, seed) && java == JavaHash(units)
    }

    ghost predicate Spells()
      reads this
    {
      Valid() && units == Utf16Of(text)
    }

    constructor (seed: nat)
      ensures Spells() && this.seed == seed && text == ""
    {
      this.seed := seed;
      mphf, java, units, text := seed, 0, [], "";
    }

    method Consume(unit: nat)
      requires Valid()
      modifies this
      ensures Valid() && units == old(units) + [unit] && text == old(text)
    {
      assert (units + [unit])[..|units|] == units;
      mphf := BitXor(mphf, unit) * MULTIPLIER % TWO32;
      java := (java * 31 + unit) % TWO32;
      units := units + [unit];
    }
  }

  // ----- decoding UTF-8 into UTF-16

  lemma Utf8Next(s: string, k: nat)
    requires k < |s|
    ensures Utf8Of(s[..k + 1]) == Utf8Of(s[..k]) + EncodeScalar(ScalarOf(s[k]))
    ensures Utf16Of(s[..k + 1]) == Utf16Of(s[..k]) + UnitsOf(ScalarOf(s[k]))
  {
    hide EncodeScalar, UnitsOf;
    assert s[..k + 1][..k] == s[..k];
  }

  lemma {:induction false} Utf8Prefix(s: string, k: nat)
    requires k <= |s|
    ensures Utf8Of(s[..k]) <= Utf8Of(s)
    decreases |s|
  {
    hide EncodeScalar;
    var n := |s| - 1;
    if k <= n {
      Utf8Prefix(s[..n], k);
      assert s[..n][..k] == s[..k];
    } else {
      assert s[..k] == s;
    }
  }

  /** The next character's bytes stand behind the bytes of the characters before it. */
  lemma NextCharacter(s: string, k: nat)
    requires k < |s|
    ensures var at, e := |Utf8Of(s[..k])|, EncodeScalar(ScalarOf(s[k]));
            at + |e| <= |Utf8Of(s)| && Utf8Of(s)[at..at + |e|] == e
  {
    hide EncodeScalar;
    Utf8Next(s, k);
    Utf8Prefix(s, k + 1);
  }

  lemma {:induction false} EndOfText(s: string, k: nat)
    requires k <= |s| && |Utf8Of(s[..k])| == |Utf8Of(s)|
    ensures k == |s|
  {
    hide EncodeScalar;
    if k < |s| {
      Utf8Next(s, k);
      Utf8Prefix(s, k + 1);
    }
  }

  lemma MoreText(s: string, k: nat)
    requires k <= |s| && |Utf8Of(s[..k])| < |Utf8Of(s)|
    ensures k < |s|
  {
    assert s[..|s|] == s;
  }

  /** The first byte tells the length of a character, and its digits give its value back. */
  lemma CharacterDigits(v: nat)
    requires Scalar(v)
    ensures var e := EncodeScalar(v);
            var first: nat := e[0];
            && (v < 0x80 ==> |e| == 1 && first == v)
            && (0x80 <= v < 0x800 ==> |e| == 2 && 0x80 <= first < 0xe0 && v == first % 0x20 * 0x40 + e[1] as nat % 0x40)
            && (0x800 <= v < 0x1_0000 ==>
                  |e| == 3 && 0xe0 <= first < 0xf0 && v == first % 0x10 * 0x1000 + e[1] as nat % 0x40 * 0x40 + e[2] as nat % 0x40)
            && (0x1_0000 <= v ==>
                  |e| == 4 && 0xf0 <= first &&
                  v == first % 0x08 * 0x4_0000 + e[1] as nat % 0x40 * 0x1000 + e[2] as nat % 0x40 * 0x40 + e[3] as nat % 0x40)
  {
    var q, r := v / 0x40, v % 0x40;
    var t := q / 0x40;
    assert v == q * 0x40 + r && q == t * 0x40 + q % 0x40;
    if 0x80 <= v < 0x800 {
      Digits(0xc0, 0x20, q, r);
    } else if 0x800 <= v < 0x1_0000 {
      assert v / 0x1000 == t;
      Digits(0xe0, 0x10, t, q % 0x40);
      Digits(0xe0, 0x10, t, r);
    } else if v >= 0x1_0000 {
      assert v / 0x1000 == t && v / 0x4_0000 == t / 0x40 && t == t / 0x40 * 0x40 + t % 0x40;
      Digits(0xf0, 0x08, t / 0x40, t % 0x40);
      Digits(0xf0, 0x08, t / 0x40, q % 0x40);
      Digits(0xf0, 0x08, t / 0x40, r);
    }
  }

  lemma Digits(lead: nat, size: nat, high: nat, low: nat)
    requires (lead == 0xc0 && size == 0x20) || (lead == 0xe0 && size == 0x10) || (lead == 0xf0 && size == 0x08)
    requires high < size && low < 0x40
    ensures (lead + high) % size == high && (0x80 + low) % 0x40 == low
  {
  }

  /** Walks UTF-8 bytes and hands every UTF-16 code unit to the sink. */
  method ForEachUtf16(value: seq<Byte>, ghost s: string, sink: HashSink)
    requires value == Utf8Of(s) && sink.Valid()
    modifies sink
    ensures sink.Valid() && sink.units == old(sink.units) + Utf16Of(s) && sink.text == old(sink.text)
  {
    hide EncodeScalar, Utf8Of, Utf16Of, UnitsOf, HashSink.Valid;
    var index := 0;
    ghost var k := 0;
    NoText(s);
    while index < |value|
      invariant k <= |s| && index == |Utf8Of(s[..k])| <= |value|
      invariant sink.Valid() && sink.units == old(sink.units) + Utf16Of(s[..k]) && sink.text == old(sink.text)
      decreases |value| - index
    {
      MoreText(s, k);
      ghost var v := ScalarOf(s[k]);
      NextCharacter(s, k);
      Utf8Next(s, k);
      CharacterDigits(v);
      CharacterUnits(v);
      ghost var e := EncodeScalar(v);
      assert forall i :: 0 <= i < |e| ==> value[index + i] == value[index..index + |e|][i] == e[i];
      assert value[index + 0] == e[0];
      var first: nat := value[index];
      if first < 0x80 {
        sink.Consume(first);
        index := index + 1;
      } else if first < 0xe0 {
        var second: nat := value[index + 1];
        sink.Consume(first % 0x20 * 0x40 + second % 0x40);
        index := index + 2;
      } else if first < 0xf0 {
        var second: nat, third: nat := value[index + 1], value[index + 2];
        sink.Consume(first % 0x10 * 0x1000 + second % 0x40 * 0x40 + third % 0x40);
        index := index + 3;
      } else {
        var second: nat, third: nat, fourth: nat := value[index + 1], value[index + 2], value[index + 3];
        var codepoint := first % 0x08 * 0x4_0000 + second % 0x40 * 0x1000 + third % 0x40 * 0x40 + fourth % 0x40;
        var supplementary := codepoint - 0x1_0000;
        sink.Consume(0xd800 + supplementary / 0x400);
        sink.Consume(0xdc00 + supplementary % 0x400);
        index := index + 4;
      }
      k := k + 1;
    }
    EndOfText(s, k);
    assert s[..k] == s;
  }

  lemma NoText(s: string)
    ensures s[..0] == [] && Utf8Of([]) == [] && Utf16Of([]) == []
  {
  }

  lemma CharacterUnits(v: nat)
    requires Scalar(v)
    ensures v < 0x1_0000 ==> UnitsOf(v) == [v]
    ensures v >= 0x1_0000 ==> UnitsOf(v) == [0xd800 + (v - 0x1_0000) / 0x400] + [0xdc00 + (v - 0x1_0000) % 0x400]
  {
  }

  // ----- streaming a feature

  method EmitStr(s: string, sink: HashSink)
    requires sink.Spells()
    modifies sink
    ensures sink.Spells() && sink.text == old(sink.text) + s
  {
    hide Utf8Of, Utf16Of, Mphf, JavaHash;
    ForEachUtf16(Utf8Of(s), s, sink);
    Utf16Concat(sink.text, s);
    sink.text := sink.text + s;
  }

  predicate IsAscii(s: string) {
    forall i :: 0 <= i < |s| ==> s[i] < 128 as char
  }

  /** ASCII goes to the sink byte by byte. */
  method EmitAscii(s: string, sink: HashSink)
    requires sink.Spells() && IsAscii(s)
    modifies sink
    ensures sink.Spells() && sink.text == old(sink.text) + s
  {
    hide HashSink.Spells;
    assert s[..0] == [];
    for i := 0 to |s|
      invariant sink.Spells() && sink.text == old(sink.text) + s[..i]
    {
      assert s[..i + 1] == s[..i] + [s[i]];
      EmitUnit(s[i], sink);
    }
    assert s[..|s|] == s;
  }

  /** One ASCII character is one code unit. */
  method EmitUnit(c: char, sink: HashSink)
    requires sink.Spells() && c < 128 as char
    modifies sink
    ensures sink.Spells() && sink.text == old(sink.text) + [c]
  {
    hide Utf16Of, Mphf, JavaHash;
    OneUnit(c);
    Utf16Concat(sink.text, [c]);
    sink.Consume(ScalarOf(c));
    sink.text := sink.text + [c];
  }

  method EmitJoined(values: seq<string>, sink: HashSink)
    requires sink.Spells()
    modifies sink
    ensures sink.Spells() && sink.text == old(sink.text) + Joined(values)
  {
    hide HashSink.Spells;
    if values == [] {
      return;
    }
    EmitStr(values[0], sink);
    assert values[..1] == [values[0]];
    for i := 1 to |values|
      invariant sink.Spells() && sink.text == old(sink.text) + Joined(values[..i])
    {
      assert values[..i + 1][..i] == values[..i];
      EmitUnit('+', sink);
      EmitStr(values[i], sink);
    }
    assert values[..|values|] == values;
  }

  lemma OneUnit(c: char)
    requires c < 128 as char
    ensures Utf16Of([c]) == [ScalarOf(c)]
  {
    assert [c][..0] == [];
  }

  /** The digits are found from the last to the first and handed over in reverse. */
  method EmitDecimal(n: nat, sink: HashSink)
    requires sink.Spells()
    modifies sink
    ensures sink.Spells() && sink.text == old(sink.text) + Numeral(n)
  {
    hide HashSink.Spells;
    if n == 0 {
      EmitUnit('0', sink);
      return;
    }
    hide Numeral;
    var digits: seq<nat> := [];
    var value := n;
    assert Numeral(n) + Text([]) == Numeral(n);
    while value != 0
      invariant sink.Spells() && sink.text == old(sink.text)
      invariant forall i :: 0 <= i < |digits| ==> digits[i] < 10
      invariant Numeral(n) == (if value == 0 then "" else Numeral(value)) + Text(digits)
      decreases value
    {
      TextNext(digits, value % 10);
      NumeralStep(value, Text(digits));
      digits := digits + [value % 10];
      value := value / 10;
    }
    assert "" + Text(digits) == Text(digits);
    EmitReversed(digits, sink);
  }

  method EmitReversed(digits: seq<nat>, sink: HashSink)
    requires sink.Spells() && forall i :: 0 <= i < |digits| ==> digits[i] < 10
    modifies sink
    ensures sink.Spells() && sink.text == old(sink.text) + Text(digits)
  {
    hide HashSink.Spells;
    var index := |digits|;
    ghost var text := Text(digits);
    while index > 0
      invariant 0 <= index <= |digits| && sink.Spells()
      invariant sink.text == old(sink.text) + text[..|digits| - index]
    {
      ghost var done := |digits| - index;
      assert text[..done + 1] == text[..done] + [text[done]];
      index := index - 1;
      EmitUnit('0' + digits[index] as char, sink);
    }
    assert text[..|digits|] == text;
  }

  lemma NumeralStep(value: nat, tail: string)
    requires value > 0
    ensures Numeral(value) + tail == (if value / 10 == 0 then "" else Numeral(value / 10)) + ([Digit(value % 10)] + tail)
  {
  }

  /** Digits, last first, as text. */
  function Text(digits: seq<nat>): (s: string)
    requires forall i :: 0 <= i < |digits| ==> digits[i] < 10
    ensures |s| == |digits| && forall i :: 0 <= i < |s| ==> s[i] == Digit(digits[|digits| - 1 - i])
  {
    seq(|digits|, i requires 0 <= i < |digits| => Digit(digits[|digits| - 1 - i]))
  }

  lemma TextNext(digits: seq<nat>, d: nat)
    requires d < 10 && forall i :: 0 <= i < |digits| ==> digits[i] < 10
    ensures Text(digits + [d]) == [Digit(d)] + Text(digits)
  {
  }

  /** Streams the text of a feature without building it. */
  method EmitView(view: FeatureView, sink: HashSink)
    requires sink.Spells() && sink.text == ""
    modifies sink
    ensures sink.Spells() && sink.text == Key(view)
  {
    hide HashSink.Spells, Key;
    if view.F2? || view.F3? {
      EmitWordView(view, sink);
    } else if view.F15? || view.F17? {
      EmitGroupView(view, sink);
    } else if view.F20? || view.F22? {
      EmitCountView(view, sink);
    } else {
      EmitPairView(view, sink);
    }
  }

  method EmitWordView(view: FeatureView, sink: HashSink)
    requires sink.Spells() && sink.text == "" && (view.F2? || view.F3?)
    modifies sink
    ensures sink.Spells() && sink.text == Key(view)
  {
    hide HashSink.Spells, Joined, Numeral;
    match view {
      case F2(lemma1, igs2, lemma3, igs3) =>
        EmitAscii("2:", sink);
        EmitStr(lemma1, sink);
        EmitJoined(igs2, sink);
        EmitStr(lemma3, sink);
        EmitUnit('+', sink);
        EmitJoined(igs3, sink);
      case F3(lemma2, igs2, lemma3, igs3) =>
        EmitAscii("3:", sink);
        EmitStr(lemma2, sink);
        EmitUnit('+', sink);
        EmitJoined(igs2, sink);
        EmitUnit('-', sink);
        EmitStr(lemma3, sink);
        EmitUnit('+', sink);
        EmitJoined(igs3, sink);
    }
  }

  method EmitPairView(view: FeatureView, sink: HashSink)
    requires sink.Spells() && sink.text == "" && (view.F4? || view.F9? || view.F10? || view.F10b? || view.F10c?)
    modifies sink
    ensures sink.Spells() && sink.text == Key(view)
  {
    hide HashSink.Spells, Joined, Numeral;
    match view {
      case F4(lemma3, igs3) =>
        EmitAscii("4:", sink);
        EmitStr(lemma3, sink);
        EmitUnit('+', sink);
        EmitJoined(igs3, sink);
      case F9(lemma2, lemma3) =>
        EmitAscii("9:", sink);
        EmitStr(lemma2, sink);
        EmitUnit('-', sink);
        EmitStr(lemma3, sink);
      case F10(lemma3) =>
        EmitAscii("10:", sink);
        EmitStr(lemma3, sink);
      case F10b(lemma2) =>
        EmitAscii("10b:", sink);
        EmitStr(lemma2, sink);
      case F10c(lemma1) =>
        EmitAscii("10c:", sink);
        EmitStr(lemma1, sink);
    }
  }

  method EmitGroupView(view: FeatureView, sink: HashSink)
    requires sink.Spells() && sink.text == "" && (view.F15? || view.F17?)
    modifies sink
    ensures sink.Spells() && sink.text == Key(view)
  {
    hide HashSink.Spells, Joined, Numeral;
    match view {
      case F15(last1, last2, ig) =>
        EmitAscii("15:", sink);
        EmitStr(last1, sink);
        EmitUnit('-', sink);
        EmitStr(last2, sink);
        EmitUnit('-', sink);
        EmitStr(ig, sink);
      case F17(last2, ig) =>
        EmitAscii("17:", sink);
        EmitStr(last2, sink);
        EmitStr(ig, sink);
    }
  }

  method EmitCountView(view: FeatureView, sink: HashSink)
    requires sink.Spells() && sink.text == "" && (view.F20? || view.F22?)
    modifies sink
    ensures sink.Spells() && sink.text == Key(view)
  {
    hide HashSink.Spells, Numeral;
    match view {
      case F20(index, ig) =>
        EmitAscii("20:", sink);
        EmitDecimal(index, sink);
        EmitUnit('-', sink);
        EmitStr(ig, sink);
      case F22(count) =>
        EmitAscii("22:", sink);
        EmitDecimal(count, sink);
    }
  }

  // ----- hashes

  /** The level-zero hash and the fingerprint hash of a feature, without its text. */
  method ViewHashes(view: FeatureView) returns (initial: nat, java: nat)
    ensures initial == Mphf(Utf16Of(Key(view)), SEED) % TWO31 && java == JavaHash(Utf16Of(Key(view)))
  {
    var sink := new HashSink(SEED);
    EmitView(view, sink);
    return sink.mphf % TWO31, sink.java;
  }

  method ViewMphf(view: FeatureView, seed: nat) returns (hash: nat)
    ensures hash == Mphf(Utf16Of(Key(view)), SeedOf(seed)) % TWO31
  {
    var sink := new HashSink(SeedOf(seed));
    EmitView(view, sink);
    return sink.mphf % TWO31;
  }

  method TextHashes(key: string) returns (initial: nat, java: nat)
    ensures initial == Mphf(Utf16Of(key), SEED) % TWO31 && java == JavaHash(Utf16Of(key))
  {
    var sink := new HashSink(SEED);
    EmitStr(key, sink);
    assert "" + key == key;
    return sink.mphf % TWO31, sink.java;
  }

  method TextMphf(key: string, seed: nat) returns (hash: nat)
    ensures hash == Mphf(Utf16Of(key), SeedOf(seed)) % TWO31
  {
    var sink := new HashSink(SeedOf(seed));
    EmitStr(key, sink);
    assert "" + key == key;
    return sink.mphf % TWO31;
  }

  // ----- the compressed model

  datatype HashLevel = HashLevel(keyAmount: nat, bucketAmount: nat, seeds: seq<nat>, failedIndexes: seq<nat>)

  const FINGERPRINT: nat := 0x800_0000   // one more than the mask of the stored fingerprint

  datatype LossyModel = LossyModel(data: seq<nat>, levels: seq<HashLevel>, fromBits: nat -> real) {
    /** No level has an empty dimension, as the model parser checks. */
    predicate Valid() {
      forall k :: 0 <= k < |levels| ==> levels[k].keyAmount > 0 && levels[k].bucketAmount > 0
    }

    /** The weight entry of a text: the first level whose bucket has a seed decides. */
    function IndexOf(units: seq<nat>, from: nat): Option<nat>
      requires Valid() && from <= |levels|
      decreases |levels| - from
    {
      if from == |levels| then None
      else
        var level := levels[from];
        var bucket := Mphf(units, SEED) % TWO31 % level.bucketAmount;
        if bucket >= |level.seeds| then None
        else if level.seeds[bucket] == 0 then IndexOf(units, from + 1)
        else
          var slot := Mphf(units, SeedOf(level.seeds[bucket])) % TWO31 % level.keyAmount;
          if from == 0 then Some(slot)
          else if slot < |levels[from - 1].failedIndexes| then Some(levels[from - 1].failedIndexes[slot])
          else None
    }

    /** The weight of a text; zero when its fingerprint is not the stored one. */
    function Weight(units: seq<nat>): real
      requires Valid()
    {
      var index := IndexOf(units, 0);
      if index.None? || 2 * index.value + 1 >= |data| || data[2 * index.value] != JavaHash(units) % FINGERPRINT then 0.0
      else fromBits(data[2 * index.value + 1])
    }

    /** Level `k` is the first one in which the bucket of a text has a seed, and that level leads to `entry`: level zero
        directly by the seeded hash, a later level through the failed indexes of the level before it. */
    ghost predicate LeadsTo(units: seq<nat>, k: nat, entry: nat)
      requires Valid()
    {
      && k < |levels|
      && (forall j :: 0 <= j < k ==>
            var b := Mphf(units, 0x811c_9dc5) % 0x8000_0000 % levels[j].bucketAmount; b < |levels[j].seeds| && levels[j].seeds[b] == 0)
      && var bucket := Mphf(units, 0x811c_9dc5) % 0x8000_0000 % levels[k].bucketAmount;
         && bucket < |levels[k].seeds| && levels[k].seeds[bucket] != 0
         && var slot := Mphf(units, levels[k].seeds[bucket]) % 0x8000_0000 % levels[k].keyAmount;
            if k == 0 then entry == slot
            else slot < |levels[k - 1].failedIndexes| && entry == levels[k - 1].failedIndexes[slot]
    }

    /** The weight of a text: that of the entry its levels lead to when the entry carries the text's fingerprint, and zero
        for another fingerprint, a missing entry, or levels that lead nowhere. */
    ghost predicate IsWeightOf(units: seq<nat>, weight: real)
      requires Valid()
    {
      && (forall k: nat, entry: nat :: LeadsTo(units, k, entry) ==>
            weight == if 2 * entry + 1 < |data| && data[2 * entry] == JavaHash(units) % 0x800_0000 then fromBits(data[2 * entry + 1]) else 0.0)
      && ((forall k: nat, entry: nat :: !LeadsTo(units, k, entry)) ==> weight == 0.0)
    }

    /** The recursive search ends where the levels lead. */
    lemma {:induction false} SearchFollowsLevels(units: seq<nat>, from: nat, k: nat, entry: nat)
      requires Valid() && from <= k && LeadsTo(units, k, entry)
      ensures IndexOf(units, from) == Some(entry)
      decreases k - from
    {
      if from < k {
        SearchFollowsLevels(units, from + 1, k, entry);
      }
    }

    lemma {:induction false} SearchLeads(units: seq<nat>, from: nat) returns (k: nat)
      requires Valid() && from <= |levels| && IndexOf(units, from).Some?
      requires forall j :: 0 <= j < from ==>
                 var b := Mphf(units, 0x811c_9dc5) % 0x8000_0000 % levels[j].bucketAmount; b < |levels[j].seeds| && levels[j].seeds[b] == 0
      ensures LeadsTo(units, k, IndexOf(units, from).value)
      decreases |levels| - from
    {
      hide Mphf;
      var bucket := Mphf(units, SEED) % TWO31 % levels[from].bucketAmount;
      if levels[from].seeds[bucket] == 0 {
        k := SearchLeads(units, from + 1);
      } else {
        k := from;
      }
    }

    lemma WeightIsWeight(units: seq<nat>)
      requires Valid()
      ensures IsWeightOf(units, Weight(units))
    {
      hide LeadsTo, IndexOf, Mphf, JavaHash;
      forall k: nat, entry: nat | LeadsTo(units, k, entry)
        ensures IndexOf(units, 0) == Some(entry)
      {
        SearchFollowsLevels(units, 0, k, entry);
      }
      if IndexOf(units, 0).Some? {
        var k := SearchLeads(units, 0);
      }
    }

    method Get(key: string) returns (weight: real)
      requires Valid()
      ensures weight == Weight(Utf16Of(key)) && IsWeightOf(Utf16Of(key), weight)
    {
      hide Mphf, JavaHash, Utf16Of, IsWeightOf;
      WeightIsWeight(Utf16Of(key));
      var initial, java := TextHashes(key);
      var index := MphfIndex(key, initial);
      weight := Stored(index, java, Utf16Of(key));
    }

    method MphfIndex(key: string, initial: nat) returns (index: Option<nat>)
      requires Valid() && initial == Mphf(Utf16Of(key), SEED) % TWO31
      ensures index == IndexOf(Utf16Of(key), 0)
    {
      hide Mphf, Utf16Of, SeedOf;
      var k := 0;
      while k < |levels|
        invariant k <= |levels| && IndexOf(Utf16Of(key), 0) == IndexOf(Utf16Of(key), k)
      {
        var level := levels[k];
        var bucket := initial % level.bucketAmount;
        if bucket >= |level.seeds| {
          return None;
        }
        var seed := level.seeds[bucket];
        if seed == 0 {
          k := k + 1;
          continue;
        }
        var hash := TextMphf(key, seed);
        var slot := hash % level.keyAmount;
        if k == 0 {
          return Some(slot);
        }
        return if slot < |levels[k - 1].failedIndexes| then Some(levels[k - 1].failedIndexes[slot]) else None;
      }
      return None;
    }

    method Stored(index: Option<nat>, java: nat, ghost units: seq<nat>) returns (weight: real)
      requires Valid() && index == IndexOf(units, 0) && java == JavaHash(units)
      ensures weight == Weight(units)
    {
      if index.None? {
        return 0.0;
      }
      var at := 2 * index.value;
      if at >= |data| || data[at] != java % FINGERPRINT {
        return 0.0;
      }
      return if at + 1 < |data| then fromBits(data[at + 1]) else 0.0;
    }

    /** Looks a feature up from its parts: the weight of its text, without the text. */
    method GetVirtual(view: FeatureView, initial: nat, java: nat) returns (weight: real)
      requires Valid()
      requires initial == Mphf(Utf16Of(Key(view)), SEED) % TWO31 && java == JavaHash(Utf16Of(Key(view)))
      ensures weight == Weight(Utf16Of(Key(view))) && IsWeightOf(Utf16Of(Key(view)), weight)
    {
      hide Mphf, JavaHash, Utf16Of, SeedOf, Key, IsWeightOf;
      ghost var units := Utf16Of(Key(view));
      WeightIsWeight(units);
      var index: Option<nat> := None;
      var k := 0;
      while k < |levels|
        invariant k <= |levels| && index == None && IndexOf(units, 0) == IndexOf(units, k)
      {
        var level := levels[k];
        var bucket := initial % level.bucketAmount;
        if bucket >= |level.seeds| {
          return 0.0;
        }
        var seed := level.seeds[bucket];
        if seed == 0 {
          k := k + 1;
          continue;
        }
        var hash := ViewMphf(view, seed);
        var slot := hash % level.keyAmount;
        if k == 0 {
          index := Some(slot);
        } else if slot < |levels[k - 1].failedIndexes| {
          index := Some(levels[k - 1].failedIndexes[slot]);
        }
        break;
      }
      weight := Stored(index, java, units);
    }
  }

  /** Both lookups give one weight. */
  method LookUpBoth(model: LossyModel, view: FeatureView) returns (streamed: real, materialised: real)
    requires model.Valid()
    ensures streamed == materialised == model.Weight(Utf16Of(Key(view)))
  {
    hide Mphf, JavaHash, Utf16Of, Key;
    var initial, java := ViewHashes(view);
    streamed := model.GetVirtual(view, initial, java);
    materialised := model.Get(Key(view));
  }
}
