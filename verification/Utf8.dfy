/** Well-formed UTF-8 (section 4 of RFC 3629) and the scanner's decoder. */
module Utf8 {
  import opened Common

  predicate Tail(b: Byte) {
    0x80 <= b <= 0xbf
  }

  /** Length of the UTF-8 character at the start of `s` by the grammar of the RFC; zero when there is none. */
  function CharLength(s: seq<Byte>): nat {
    if s == [] then 0
    else if s[0] <= 0x7f then 1
    else if |s| >= 2 && 0xc2 <= s[0] <= 0xdf && Tail(s[1]) then 2
    else if |s| >= 3 && s[0] == 0xe0 && 0xa0 <= s[1] <= 0xbf && Tail(s[2]) then 3
    else if |s| >= 3 && 0xe1 <= s[0] <= 0xec && Tail(s[1]) && Tail(s[2]) then 3
    else if |s| >= 3 && s[0] == 0xed && 0x80 <= s[1] <= 0x9f && Tail(s[2]) then 3
    else if |s| >= 3 && 0xee <= s[0] <= 0xef && Tail(s[1]) && Tail(s[2]) then 3
    else if |s| >= 4 && s[0] == 0xf0 && 0x90 <= s[1] <= 0xbf && Tail(s[2]) && Tail(s[3]) then 4
    else if |s| >= 4 && 0xf1 <= s[0] <= 0xf3 && Tail(s[1]) && Tail(s[2]) && Tail(s[3]) then 4
    else if |s| >= 4 && s[0] == 0xf4 && 0x80 <= s[1] <= 0x8f && Tail(s[2]) && Tail(s[3]) then 4
    else 0
  }

  predicate WellFormed(s: seq<Byte>) {
    s == [] || (0 < CharLength(s) <= |s| && WellFormed(s[CharLength(s)..]))
  }

  /** A Unicode scalar value. */
  predicate Scalar(v: nat) {
    v <= 0x10_ffff && !(0xd800 <= v <= 0xdfff)
  }

  /** The encoding of a scalar value (section 3 of RFC 3629). */
  function EncodeScalar(v: nat): (s: seq<Byte>)
    requires Scalar(v)
    ensures 1 <= |s| <= 4
  {
    if v < 0x80 then [v]
    else if v < 0x800 then [0xc0 + v / 0x40, 0x80 + v % 0x40]
    else if v < 0x1_0000 then [0xe0 + v / 0x1000, 0x80 + v / 0x40 % 0x40, 0x80 + v % 0x40]
    else [0xf0 + v / 0x4_0000, 0x80 + v / 0x1000 % 0x40, 0x80 + v / 0x40 % 0x40, 0x80 + v % 0x40]
  }

  lemma CharLengthFits(s: seq<Byte>)
    ensures CharLength(s) <= |s| && CharLength(s) <= 4
  {
  }

  /** A character is recognised by its own bytes. */
  lemma CharLengthLocal(a: seq<Byte>, b: seq<Byte>)
    requires CharLength(a) > 0
    ensures CharLength(a + b) == CharLength(a)
  {
  }

  lemma {:induction false} WellFormedConcat(a: seq<Byte>, b: seq<Byte>)
    requires WellFormed(a) && WellFormed(b)
    ensures WellFormed(a + b)
    decreases |a|
  {
    if a == [] {
      assert a + b == b;
    } else {
      hide CharLength;
      var n := CharLength(a);
      CharLengthLocal(a, b);
      CharLengthFits(a + b);
      assert (a + b)[n..] == a[n..] + b;
      WellFormedConcat(a[n..], b);
    }
  }

  lemma {:induction false} WellFormedSuffix(a: seq<Byte>, b: seq<Byte>)
    requires WellFormed(a) && WellFormed(a + b)
    ensures WellFormed(b)
    decreases |a|
  {
    if a == [] {
      assert a + b == b;
    } else {
      hide CharLength;
      var n := CharLength(a);
      CharLengthLocal(a, b);
      assert (a + b)[n..] == a[n..] + b;
      WellFormedSuffix(a[n..], b);
    }
  }

  lemma OneChar(s: seq<Byte>)
    requires CharLength(s) > 0
    ensures WellFormed(s[..CharLength(s)])
  {
    var n := CharLength(s);
    assert CharLength(s[..n]) == n;
    assert s[..n][n..] == [];
  }

  /** The decoder of the scanner for a non-ASCII first byte: value and width. */
  function DecodeAt(raw: seq<Byte>, index: nat): Option<(nat, nat)> {
    if index >= |raw| then None
    else
      var first := raw[index];
      var width := if 0xc2 <= first <= 0xdf then 2 else if 0xe0 <= first <= 0xef then 3 else if 0xf0 <= first <= 0xf4 then 4 else 0;
      if width == 0 || index + 1 >= |raw| then None
      else
        var second := raw[index + 1];
        var lead: nat := if width == 2 then first % 0x20 else if width == 3 then first % 0x10 else first % 0x08;
        if second / 0x40 != 2 then None
        else if (first == 0xe0 && second < 0xa0) || (first == 0xed && second > 0x9f) || (first == 0xf0 && second < 0x90)
                || (first == 0xf4 && second > 0x8f) then None
        else
          var head: nat := lead * 0x40 + second % 0x40;
          var value := DecodeRest(raw, index, 2, width, head);
          if value.Some? && Scalar(value.value) then Some((value.value, width)) else None
  }

  function DecodeRest(raw: seq<Byte>, index: nat, offset: nat, width: nat, value: nat): Option<nat>
    requires offset <= width
    decreases width - offset
  {
    if offset == width then Some(value)
    else if index + offset >= |raw| || raw[index + offset] / 0x40 != 2 then None
    else DecodeRest(raw, index, offset + 1, width, value * 0x40 + raw[index + offset] % 0x40)
  }

  /** The decoder succeeds exactly where the grammar has a character of more than one byte, and reports its length. */
  lemma DecodesTheGrammar(raw: seq<Byte>, index: nat)
    requires index < |raw| && raw[index] >= 0x80
    ensures DecodeAt(raw, index).Some? <==> CharLength(raw[index..]) > 0
    ensures DecodeAt(raw, index).Some? ==> DecodeAt(raw, index).value.1 == CharLength(raw[index..])
  {
    var s := raw[index..];
    if index + 1 < |raw| {
      assert s[1] == raw[index + 1];
    }
    if index + 2 < |raw| {
      assert s[2] == raw[index + 2];
    }
    if index + 3 < |raw| {
      assert s[3] == raw[index + 3];
    }
  }

  lemma TwoDigits(first: nat, b: nat)
    requires 0xc2 <= first <= 0xdf && 0x80 <= b <= 0xbf
    ensures var v := first % 0x20 * 0x40 + b % 0x40;
            Scalar(v) && EncodeScalar(v) == [first, b]
  {
  }

  lemma ThreeDigits(first: nat, b: nat, c: nat)
    requires 0xe0 <= first <= 0xef && 0x80 <= b <= 0xbf && 0x80 <= c <= 0xbf && (first == 0xe0 ==> b >= 0xa0)
    ensures var v := (first % 0x10 * 0x40 + b % 0x40) * 0x40 + c % 0x40;
            Scalar(v) ==> EncodeScalar(v) == [first, b, c]
  {
    var v := (first % 0x10 * 0x40 + b % 0x40) * 0x40 + c % 0x40;
    assert v / 0x40 == first % 0x10 * 0x40 + b % 0x40;
    assert v / 0x1000 == first % 0x10;
  }

  lemma Digit(high: nat, low: nat)
    requires low < 0x40
    ensures (high * 0x40 + low) / 0x40 == high && (high * 0x40 + low) % 0x40 == low
  {
  }

  lemma FourDigits(first: nat, b: nat, c: nat, d: nat)
    requires 0xf0 <= first <= 0xf4 && 0x80 <= b <= 0xbf && 0x80 <= c <= 0xbf && 0x80 <= d <= 0xbf && (first == 0xf0 ==> b >= 0x90)
    ensures var v := ((first % 0x08 * 0x40 + b % 0x40) * 0x40 + c % 0x40) * 0x40 + d % 0x40;
            Scalar(v) ==> EncodeScalar(v) == [first, b, c, d]
  {
    var x, y := first % 0x08, b % 0x40;
    var z := (x * 0x40 + y) * 0x40 + c % 0x40;
    var v := z * 0x40 + d % 0x40;
    Digit(z, d % 0x40);
    Digit(x * 0x40 + y, c % 0x40);
    Digit(x, y);
    assert v / 0x1000 == z / 0x40 && v / 0x4_0000 == z / 0x1000 == (x * 0x40 + y) / 0x40;
  }

  /** The decoded value is the one whose encoding stands there. */
  lemma DecodedIsEncoded(raw: seq<Byte>, index: nat)
    requires DecodeAt(raw, index).Some?
    ensures var (value, width) := DecodeAt(raw, index).value;
            Scalar(value) && |EncodeScalar(value)| == width && index + width <= |raw| && raw[index..index + width] == EncodeScalar(value)
  {
    hide EncodeScalar;
    var (value, width) := DecodeAt(raw, index).value;
    var first, second := raw[index], raw[index + 1];
    if width == 2 {
      TwoDigits(first, second);
      assert raw[index..index + 2] == [first, second];
    } else if width == 3 {
      ThreeDigits(first, second, raw[index + 2]);
      assert raw[index..index + 3] == [first, second, raw[index + 2]];
    } else {
      FourDecoded(raw, index);
      FourDigits(first, second, raw[index + 2], raw[index + 3]);
      assert raw[index..index + 4] == [first, second, raw[index + 2], raw[index + 3]];
    }
  }

  lemma FourDecoded(raw: seq<Byte>, index: nat)
    requires DecodeAt(raw, index).Some? && DecodeAt(raw, index).value.1 == 4
    ensures index + 3 < |raw|
    ensures var first, b, c, d := raw[index] as nat, raw[index + 1] as nat, raw[index + 2] as nat, raw[index + 3] as nat;
            && 0xf0 <= first <= 0xf4 && 0x80 <= b <= 0xbf && 0x80 <= c <= 0xbf && 0x80 <= d <= 0xbf && (first == 0xf0 ==> b >= 0x90)
            && DecodeAt(raw, index).value.0 == ((first % 0x08 * 0x40 + b % 0x40) * 0x40 + c % 0x40) * 0x40 + d % 0x40
  {
    var lead: nat := raw[index] % 0x08;
    var head: nat := lead * 0x40 + raw[index + 1] % 0x40;
    assert DecodeRest(raw, index, 2, 4, head).Some?;
    var middle: nat := head * 0x40 + raw[index + 2] % 0x40;
    assert DecodeRest(raw, index, 3, 4, middle) == Some(middle * 0x40 + raw[index + 3] % 0x40);
  }

  // ----- where characters stand

  /** A character stands at a position. */
  ghost predicate Stands(raw: seq<Byte>, at: nat, v: nat) {
    Scalar(v) && at + |EncodeScalar(v)| <= |raw| && raw[at..at + |EncodeScalar(v)|] == EncodeScalar(v)
  }

  lemma EncodedIsCharacter(v: nat)
    requires Scalar(v)
    ensures CharLength(EncodeScalar(v)) == |EncodeScalar(v)|
  {
    var q := v / 0x40;
    var t := q / 0x40;
    assert q == t * 0x40 + q % 0x40;
    if 0x800 <= v < 0x1_0000 {
      assert v / 0x1000 == t;
    } else if 0x1_0000 <= v {
      assert v / 0x1000 == t && v / 0x4_0000 == t / 0x40 && t == t / 0x40 * 0x40 + t % 0x40;
    }
  }

  /** Different characters have different encodings. */
  lemma EncodeInjective(v: nat, w: nat)
    requires Scalar(v) && Scalar(w) && EncodeScalar(v) == EncodeScalar(w)
    ensures v == w
  {
    var e := EncodeScalar(v);
    Digits(v);
    Digits(w);
    if |e| == 2 {
      assert e[0] == 0xc0 + v / 0x40 == 0xc0 + w / 0x40 && e[1] == 0x80 + v % 0x40 == 0x80 + w % 0x40;
    } else if |e| == 3 {
      assert e[0] == 0xe0 + v / 0x1000 == 0xe0 + w / 0x1000 && e[1] == 0x80 + v / 0x40 % 0x40 == 0x80 + w / 0x40 % 0x40;
      assert e[2] == 0x80 + v % 0x40 == 0x80 + w % 0x40;
    } else if |e| == 4 {
      assert e[0] == 0xf0 + v / 0x4_0000 == 0xf0 + w / 0x4_0000 && e[1] == 0x80 + v / 0x1000 % 0x40 == 0x80 + w / 0x1000 % 0x40;
      assert e[2] == 0x80 + v / 0x40 % 0x40 == 0x80 + w / 0x40 % 0x40 && e[3] == 0x80 + v % 0x40 == 0x80 + w % 0x40;
    } else {
      assert e[0] == v == w;
    }
  }

  lemma Digits(v: nat)
    ensures v == v / 0x40 * 0x40 + v % 0x40
    ensures v / 0x40 == v / 0x1000 * 0x40 + v / 0x40 % 0x40
    ensures v / 0x1000 == v / 0x4_0000 * 0x40 + v / 0x1000 % 0x40
  {
    var q := v / 0x40;
    var t := q / 0x40;
    assert v / 0x1000 == t && v / 0x4_0000 == t / 0x40;
  }

  lemma FirstByte(v: nat)
    requires Scalar(v)
    ensures v < 0x80 ==> EncodeScalar(v) == [v]
    ensures v >= 0x80 ==> EncodeScalar(v)[0] >= 0xc2
  {
  }

  /** A character that stands somewhere is recognised there, and decoded when it is not ASCII. */
  lemma StandingIsDecoded(raw: seq<Byte>, at: nat, v: nat)
    requires Stands(raw, at, v)
    ensures at < |raw| && !Tail(raw[at]) && (raw[at] < 0x80 <==> v < 0x80)
    ensures v < 0x80 ==> raw[at] == v && EncodeScalar(v) == [v]
    ensures v >= 0x80 ==> DecodeAt(raw, at) == Some((v, |EncodeScalar(v)|))
  {
    hide EncodeScalar, CharLength, DecodeAt, Scalar;
    var e := EncodeScalar(v);
    FirstByte(v);
    assert raw[at] == raw[at..at + |e|][0] == e[0];
    if v >= 0x80 {
      EncodedIsCharacter(v);
      assert raw[at..] == e + raw[at + |e|..];
      CharLengthLocal(e, raw[at + |e|..]);
      DecodesTheGrammar(raw, at);
      DecodedIsEncoded(raw, at);
      EncodeInjective(v, DecodeAt(raw, at).value.0);
    }
  }

  lemma DecodedStands(raw: seq<Byte>, at: nat)
    requires DecodeAt(raw, at).Some?
    ensures Stands(raw, at, DecodeAt(raw, at).value.0) && DecodeAt(raw, at).value.0 >= 0x80
    ensures DecodeAt(raw, at).value.1 == |EncodeScalar(DecodeAt(raw, at).value.0)|
  {
    hide EncodeScalar;
    DecodedIsEncoded(raw, at);
    var v := DecodeAt(raw, at).value.0;
    FirstByte(v);
    assert raw[at] == raw[at..at + |EncodeScalar(v)|][0];
  }

  lemma AsciiStands(raw: seq<Byte>, at: nat)
    requires at < |raw| && raw[at] < 0x80
    ensures Stands(raw, at, raw[at]) && EncodeScalar(raw[at]) == [raw[at]]
  {
    assert raw[at..at + 1] == [raw[at]];
  }
}
