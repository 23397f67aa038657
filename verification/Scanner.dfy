/** The lexical scanner: every byte string is cut into contiguous spans of one kind each. */
module Scanner {
  import opened Common
  import opened LexicalText
  import opened Utf8

  // ----- ASCII

  const BANG: nat := 0x21
  const PERCENT: nat := 0x25
  const AMPERSAND: nat := 0x26
  const APOSTROPHE: nat := 0x27
  const STAR: nat := 0x2a
  const PLUS: nat := 0x2b
  const COMMA: nat := 0x2c
  const MINUS: nat := 0x2d
  const DOT: nat := 0x2e
  const SLASH: nat := 0x2f
  const COLON: nat := 0x3a
  const LESS: nat := 0x3c
  const EQUAL: nat := 0x3d
  const GREATER: nat := 0x3e
  const QUESTION: nat := 0x3f
  const CARET: nat := 0x5e
  const UNDERSCORE: nat := 0x5f
  const BAR: nat := 0x7c
  const CR: nat := 0x0d
  const LF: nat := 0x0a

  predicate IsLetter(b: Byte) {
    0x41 <= b <= 0x5a || 0x61 <= b <= 0x7a
  }

  predicate IsDigit(b: Byte) {
    0x30 <= b <= 0x39
  }

  predicate IsBlank(b: Byte) {
    b == 0x20 || b == 0x09 || b == 0x0b || b == 0x0c
  }

  predicate IsOperatorStart(b: Byte) {
    b == EQUAL || b == BANG || b == LESS || b == GREATER || b == STAR || b == SLASH || b == QUESTION || b == MINUS || b == COLON ||
    b == AMPERSAND || b == BAR || b == PLUS || b == PERCENT || b == CARET
  }

  /** Operators of two bytes that a following `=` lengthens. */
  predicate Extensible(a: Byte, b: Byte) {
    ((a == EQUAL || a == BANG) && b == EQUAL) || (a == b && (a == LESS || a == GREATER || a == STAR || a == SLASH || a == QUESTION))
  }

  predicate TwoByteOperator(a: Byte, b: Byte) {
    || (b == EQUAL && (a == LESS || a == GREATER || a == PLUS || a == MINUS || a == STAR || a == SLASH || a == PERCENT || a == AMPERSAND ||
                       a == BAR || a == CARET))
    || (b == GREATER && (a == MINUS || a == EQUAL))
    || (a == b && (a == COLON || a == AMPERSAND || a == BAR || a == PLUS || a == MINUS))
    || (a == SLASH && b == STAR) || (a == STAR && b == SLASH) || (a == QUESTION && b == DOT)
  }

  function OperatorWidth(raw: seq<Byte>, index: nat): Option<nat> {
    if index + 1 >= |raw| then None
    else if Extensible(raw[index], raw[index + 1]) then Some(if index + 2 < |raw| && raw[index + 2] == EQUAL then 3 else 2)
    else if TwoByteOperator(raw[index], raw[index + 1]) then Some(2)
    else None
  }

  predicate IsPunctuation(b: Byte) {
    b == DOT || b == COMMA || b == 0x3b || b == COLON || b == BANG || b == QUESTION || b == APOSTROPHE || b == 0x22 || b == 0x28 || b == 0x29 ||
    b == 0x5b || b == 0x5d || b == 0x7b || b == 0x7d || b == LESS || b == GREATER || b == MINUS || b == SLASH || b == 0x5c || b == 0x60
  }

  function ClassifyAscii(raw: seq<Byte>, index: nat): (Kind, nat)
    requires index < |raw|
  {
    var b := raw[index];
    if b == CR then (LineBreak, if index + 1 < |raw| && raw[index + 1] == LF then 2 else 1)
    else if b == LF then (LineBreak, 1)
    else if IsBlank(b) then (Whitespace, 1)
    else if b < 0x20 || b == 0x7f then (Control, 1)
    else if IsLetter(b) || b == UNDERSCORE then (Word, 1)
    else if IsDigit(b) then (Number, 1)
    else if IsPunctuation(b) then (Punctuation, 1)
    else (Symbol, 1)
  }

  // ----- any character

  predicate IsCombiningMark(v: nat) {
    0x0300 <= v <= 0x036f || 0x1ab0 <= v <= 0x1aff || 0x1dc0 <= v <= 0x1dff || 0x20d0 <= v <= 0x20ff || 0xfe20 <= v <= 0xfe2f
  }

  predicate IsUnicodePunctuation(v: nat) {
    0x2000 <= v <= 0x206f || 0x2e00 <= v <= 0x2e7f || 0x3000 <= v <= 0x303f || 0xfe10 <= v <= 0xfe1f || 0xfe30 <= v <= 0xfe4f ||
    0xff01 <= v <= 0xff0f || 0xff1a <= v <= 0xff20 || 0xff3b <= v <= 0xff40 || 0xff5b <= v <= 0xff65
  }

  function KindOf(u: Unicode, v: nat): Kind {
    if v == 0x0085 || v == 0x2028 || v == 0x2029 then LineBreak
    else if u.isWhitespace(v) then Whitespace
    else if u.isControl(v) then Control
    else if u.isNumeric(v) then Number
    else if u.isAlphabetic(v) || IsCombiningMark(v) then Word
    else if IsUnicodePunctuation(v) then Punctuation
    else Symbol
  }

  /** Kind and width of the piece at a position; a byte that starts no character is opaque. */
  function ClassifyAt(u: Unicode, raw: seq<Byte>, index: nat): (Kind, nat)
    requires index < |raw|
  {
    if raw[index] < 0x80 then
      var operator := if IsOperatorStart(raw[index]) then OperatorWidth(raw, index) else None;
      if operator.Some? then (Symbol, operator.value) else ClassifyAscii(raw, index)
    else
      var decoded := DecodeAt(raw, index);
      if decoded.None? then (Opaque, 1) else (KindOf(u, decoded.value.0), decoded.value.1)
  }

  function ScalarAt(raw: seq<Byte>, index: nat): Option<(nat, nat)> {
    if index < |raw| && raw[index] < 0x80 then Some((raw[index], 1)) else DecodeAt(raw, index)
  }

  // ----- pieces

  lemma AsciiIsWellFormed(raw: seq<Byte>, from: nat, to: nat)
    requires from <= to <= |raw| && to <= from + 3 && forall i :: from <= i < to ==> raw[i] < 0x80
    ensures WellFormed(raw[from..to])
    decreases |raw| - from
  {
    var s := raw[from..to];
    if s != [] {
      assert CharLength(s) == 1 && s[1..] == raw[from + 1..to];
      AsciiIsWellFormed(raw, from + 1, to);
    }
  }

  lemma CharAt(raw: seq<Byte>, index: nat, width: nat)
    requires index < |raw| && CharLength(raw[index..]) == width > 0
    ensures index + width <= |raw| && WellFormed(raw[index..index + width])
  {
    CharLengthFits(raw[index..]);
    OneChar(raw[index..]);
    assert raw[index..][..width] == raw[index..index + width];
  }

  /** Every piece lies in the input; an opaque piece is a byte that starts no character, any other is well-formed. */
  lemma Piece(u: Unicode, raw: seq<Byte>, index: nat)
    requires index < |raw|
    ensures var (kind, width) := ClassifyAt(u, raw, index);
            && 1 <= width && index + width <= |raw|
            && (kind == Opaque <==> CharLength(raw[index..]) == 0) && (kind == Opaque ==> width == 1)
            && (kind != Opaque ==> WellFormed(raw[index..index + width]))
  {
    hide CharLength, WellFormed, DecodeAt;
    var (kind, width) := ClassifyAt(u, raw, index);
    if raw[index] < 0x80 {
      OneByte(raw, index);
      AsciiIsWellFormed(raw, index, index + width);
    } else {
      DecodesTheGrammar(raw, index);
      if DecodeAt(raw, index).Some? {
        CharAt(raw, index, width);
      }
    }
  }

  lemma OneByte(raw: seq<Byte>, index: nat)
    requires index < |raw| && raw[index] < 0x80
    ensures CharLength(raw[index..]) == 1
  {
  }

  lemma ScalarPiece(raw: seq<Byte>, index: nat)
    requires ScalarAt(raw, index).Some?
    ensures var width := ScalarAt(raw, index).value.1;
            1 <= width && index + width <= |raw| && WellFormed(raw[index..index + width])
  {
    hide CharLength, WellFormed, DecodeAt;
    var width := ScalarAt(raw, index).value.1;
    if index < |raw| && raw[index] < 0x80 {
      OneByte(raw, index);
    } else {
      DecodeStarts(raw, index);
      DecodesTheGrammar(raw, index);
    }
    CharAt(raw, index, width);
  }

  lemma DecodeStarts(raw: seq<Byte>, index: nat)
    requires DecodeAt(raw, index).Some?
    ensures index < |raw| && raw[index] >= 0x80
  {
  }

  // ----- how far a span reaches, piece by piece

  datatype Mode = Same(kind: Kind) | Symbols | Words | Numbers

  const JOINER: nat := 0x200d
  const RIGHT_QUOTE: nat := 0x2019

  predicate IsWordConnector(v: nat) {
    v == APOSTROPHE || v == RIGHT_QUOTE || v == MINUS || v == 0x2010 || v == 0x2011
  }

  predicate IsSuffixConnector(v: nat) {
    v == APOSTROPHE || v == RIGHT_QUOTE
  }

  predicate IsNumberSeparator(v: nat) {
    v == DOT || v == COMMA || v == COLON || v == SLASH || v == MINUS || v == 0x066b || v == 0x066c
  }

  predicate KindAt(u: Unicode, raw: seq<Byte>, index: nat, kinds: set<Kind>) {
    index < |raw| && ClassifyAt(u, raw, index).0 in kinds
  }

  /** The next piece of a span, and the mode behind it; none when the span ends here. */
  function Step(u: Unicode, raw: seq<Byte>, index: nat, mode: Mode): Option<(nat, Mode)>
    requires index < |raw|
  {
    var (kind, width) := ClassifyAt(u, raw, index);
    var scalar := ScalarAt(raw, index);
    match mode
    case Same(target) => if kind == target then Some((index + width, mode)) else None
    case Symbols =>
      if kind == Symbol then Some((index + width, mode))
      else if scalar.Some? && scalar.value.0 == JOINER && KindAt(u, raw, index + width, {Symbol}) then
        Some((index + width + ClassifyAt(u, raw, index + width).1, mode))
      else None
    case Words =>
      if kind in {Word, Number} then Some((index + width, mode))
      else if scalar.Some? && IsWordConnector(scalar.value.0) && KindAt(u, raw, index + scalar.value.1, {Word, Number}) then
        Some((index + scalar.value.1, mode))
      else None
    case Numbers =>
      if kind == Number then Some((index + width, mode))
      else if scalar.Some? && IsNumberSeparator(scalar.value.0) && KindAt(u, raw, index + scalar.value.1, {Number}) then
        Some((index + scalar.value.1, mode))
      else if scalar.Some? && IsSuffixConnector(scalar.value.0) && KindAt(u, raw, index + scalar.value.1, {Word}) then
        Some((index + scalar.value.1, Words))
      else None
  }

  /** A step moves forward within the input over well-formed text, except over an opaque byte. */
  lemma StepForward(u: Unicode, raw: seq<Byte>, index: nat, mode: Mode)
    requires index < |raw| && Step(u, raw, index, mode).Some?
    ensures var (next, after) := Step(u, raw, index, mode).value;
            && index < next <= |raw|
            && (mode == Same(Opaque) ==> next == index + 1 && CharLength(raw[index..]) == 0 && after == mode)
            && (mode != Same(Opaque) ==> WellFormed(raw[index..next]) && after != Same(Opaque))
  {
    hide ClassifyAt, ScalarAt, CharLength, WellFormed;
    var (kind, width) := ClassifyAt(u, raw, index);
    Piece(u, raw, index);
    if ScalarAt(raw, index).Some? {
      ScalarPiece(raw, index);
      if mode == Symbols && kind != Symbol {
        Piece(u, raw, index + width);
        ScalarIsNotOpaque(u, raw, index);
        Joined(raw, index, index + width, index + width + ClassifyAt(u, raw, index + width).1);
      }
    }
  }

  lemma ScalarIsNotOpaque(u: Unicode, raw: seq<Byte>, index: nat)
    requires index < |raw| && ScalarAt(raw, index).Some?
    ensures ClassifyAt(u, raw, index).0 != Opaque
  {
    hide DecodeAt;
  }

  lemma Joined(raw: seq<Byte>, from: nat, middle: nat, to: nat)
    requires from <= middle <= to <= |raw| && WellFormed(raw[from..middle]) && WellFormed(raw[middle..to])
    ensures WellFormed(raw[from..to])
  {
    hide WellFormed;
    WellFormedConcat(raw[from..middle], raw[middle..to]);
    assert raw[from..middle] + raw[middle..to] == raw[from..to];
  }

  /** Where a span that has reached `index` ends. */
  function End(u: Unicode, raw: seq<Byte>, index: nat, mode: Mode): (end: nat)
    requires index <= |raw|
    ensures index <= end <= |raw|
    decreases |raw| - index
  {
    if index == |raw| || Step(u, raw, index, mode).None? then index
    else
      StepForward(u, raw, index, mode);
      var (next, after) := Step(u, raw, index, mode).value;
      End(u, raw, next, after)
  }

  lemma {:induction false} EndIsWellFormed(u: Unicode, raw: seq<Byte>, index: nat, mode: Mode)
    requires index <= |raw| && mode != Same(Opaque)
    ensures WellFormed(raw[index..End(u, raw, index, mode)])
    decreases |raw| - index
  {
    hide Step, WellFormed;
    if index == |raw| || Step(u, raw, index, mode).None? {
      assert raw[index..index] == [];
      assert WellFormed([]) by { NothingIsWellFormed(); }
    } else {
      StepForward(u, raw, index, mode);
      var (next, after) := Step(u, raw, index, mode).value;
      EndIsWellFormed(u, raw, next, after);
      Joined(raw, index, next, End(u, raw, next, after));
    }
  }

  lemma NothingIsWellFormed()
    ensures WellFormed([])
  {
  }

  lemma {:induction false} OpaqueHasNoCharacter(u: Unicode, raw: seq<Byte>, index: nat)
    requires index <= |raw|
    ensures forall i :: index <= i < End(u, raw, index, Same(Opaque)) ==> CharLength(raw[i..]) == 0
    decreases |raw| - index
  {
    hide Step, CharLength;
    if index < |raw| && Step(u, raw, index, Same(Opaque)).Some? {
      StepForward(u, raw, index, Same(Opaque));
      OpaqueHasNoCharacter(u, raw, index + 1);
    }
  }

  predicate Continues(mode: Mode, kind: Kind) {
    match mode
    case Same(target) => kind == target
    case Symbols => kind == Symbol
    case Words => kind == Word || kind == Number
    case Numbers => kind == Number
  }

  /** Behind the end of a span stands a piece of another kind. */
  lemma {:induction false} EndStops(u: Unicode, raw: seq<Byte>, index: nat, mode: Mode)
    requires index <= |raw|
    ensures var end := End(u, raw, index, mode); end < |raw| ==> !Continues(mode, ClassifyAt(u, raw, end).0)
    decreases |raw| - index
  {
    hide ClassifyAt, ScalarAt;
    if index < |raw| && Step(u, raw, index, mode).Some? {
      StepForward(u, raw, index, mode);
      var (next, after) := Step(u, raw, index, mode).value;
      EndStops(u, raw, next, after);
    }
  }

  // ----- the loops of the scanner, with their ASCII shortcuts

  method ConsumeSameKind(u: Unicode, raw: seq<Byte>, from: nat, target: Kind) returns (index: nat)
    requires from <= |raw|
    ensures index == End(u, raw, from, if target == Symbol then Symbols else Same(target))
  {
    match target
    case Whitespace => index := ConsumeWhitespaceRun(u, raw, from);
    case LineBreak => index := ConsumeLineBreakRun(u, raw, from);
    case Control => index := ConsumeControlRun(u, raw, from);
    case Punctuation => index := ConsumePunctuationRun(u, raw, from);
    case Symbol => index := ConsumeSymbolRun(u, raw, from);
    case Word | Number | Opaque => index := ConsumeSameKindGeneric(u, raw, from, target);
  }

  method ConsumeSameKindGeneric(u: Unicode, raw: seq<Byte>, from: nat, target: Kind) returns (index: nat)
    requires from <= |raw|
    ensures index == End(u, raw, from, Same(target))
  {
    hide ClassifyAt, ScalarAt;
    index := from;
    while index < |raw|
      invariant index <= |raw| && End(u, raw, index, Same(target)) == End(u, raw, from, Same(target))
    {
      var (kind, width) := ClassifyAt(u, raw, index);
      Piece(u, raw, index);
      if kind != target {
        break;
      }
      index := index + width;
    }
  }

  /** What the ASCII shortcuts of the runs decide is what the classifier decides. */
  lemma AsciiRuns(u: Unicode, raw: seq<Byte>, index: nat)
    requires index < |raw| && raw[index] < 0x80
    ensures var b := raw[index];
            var (kind, width) := ClassifyAt(u, raw, index);
            && (kind == Whitespace <==> IsBlank(b)) && (kind == Whitespace ==> width == 1)
            && (kind == LineBreak <==> b == CR || b == LF)
            && (b == CR ==> width == if index + 1 < |raw| && raw[index + 1] == LF then 2 else 1) && (b == LF ==> width == 1)
            && (kind == Control <==> (b < 0x20 && b != CR && b != LF && !IsBlank(b)) || b == 0x7f) && (kind == Control ==> width == 1)
            && (kind == Punctuation <==> !(IsOperatorStart(b) && OperatorWidth(raw, index).Some?) && IsPunctuation(b))
            && (kind == Punctuation ==> width == 1)
  {
    hide OperatorWidth;
  }

  method ConsumeWhitespaceRun(u: Unicode, raw: seq<Byte>, from: nat) returns (index: nat)
    requires from <= |raw|
    ensures index == End(u, raw, from, Same(Whitespace))
  {
    hide ClassifyAt, ScalarAt;
    index := from;
    while index < |raw|
      invariant index <= |raw| && End(u, raw, index, Same(Whitespace)) == End(u, raw, from, Same(Whitespace))
    {
      var byte := raw[index];
      var width := 1;
      Piece(u, raw, index);
      if byte < 0x80 {
        AsciiRuns(u, raw, index);
      }
      if byte < 0x80 {
        if !IsBlank(byte) {
          break;
        }
      } else {
        var (kind, w) := ClassifyAt(u, raw, index);
        if kind != Whitespace {
          break;
        }
        width := w;
      }
      index := index + width;
    }
  }

  method ConsumeLineBreakRun(u: Unicode, raw: seq<Byte>, from: nat) returns (index: nat)
    requires from <= |raw|
    ensures index == End(u, raw, from, Same(LineBreak))
  {
    hide ClassifyAt, ScalarAt;
    index := from;
    while index < |raw|
      invariant index <= |raw| && End(u, raw, index, Same(LineBreak)) == End(u, raw, from, Same(LineBreak))
    {
      var byte := raw[index];
      var width := 1;
      Piece(u, raw, index);
      if byte < 0x80 {
        AsciiRuns(u, raw, index);
      }
      if byte == CR {
        width := 1 + if index + 1 < |raw| && raw[index + 1] == LF then 1 else 0;
      } else if byte == LF {
        width := 1;
      } else if byte < 0x80 {
        break;
      } else {
        var (kind, w) := ClassifyAt(u, raw, index);
        if kind != LineBreak {
          break;
        }
        width := w;
      }
      index := index + width;
    }
  }

  method ConsumeControlRun(u: Unicode, raw: seq<Byte>, from: nat) returns (index: nat)
    requires from <= |raw|
    ensures index == End(u, raw, from, Same(Control))
  {
    hide ClassifyAt, ScalarAt;
    index := from;
    while index < |raw|
      invariant index <= |raw| && End(u, raw, index, Same(Control)) == End(u, raw, from, Same(Control))
    {
      var byte := raw[index];
      var width := 1;
      Piece(u, raw, index);
      if byte < 0x80 {
        AsciiRuns(u, raw, index);
      }
      if byte < 0x80 {
        if !((byte < 0x20 && byte != CR && byte != LF && !IsBlank(byte)) || byte == 0x7f) {
          break;
        }
      } else {
        var (kind, w) := ClassifyAt(u, raw, index);
        if kind != Control {
          break;
        }
        width := w;
      }
      index := index + width;
    }
  }

  method ConsumePunctuationRun(u: Unicode, raw: seq<Byte>, from: nat) returns (index: nat)
    requires from <= |raw|
    ensures index == End(u, raw, from, Same(Punctuation))
  {
    hide ClassifyAt, ScalarAt;
    index := from;
    while index < |raw|
      invariant index <= |raw| && End(u, raw, index, Same(Punctuation)) == End(u, raw, from, Same(Punctuation))
    {
      var byte := raw[index];
      var width := 1;
      Piece(u, raw, index);
      if byte < 0x80 {
        AsciiRuns(u, raw, index);
      }
      if byte < 0x80 {
        if IsOperatorStart(byte) && OperatorWidth(raw, index).Some? {
          break;
        }
        if !IsPunctuation(byte) {
          break;
        }
      } else {
        var (kind, w) := ClassifyAt(u, raw, index);
        if kind != Punctuation {
          break;
        }
        width := w;
      }
      index := index + width;
    }
  }

  /** Symbols, operators, and symbols joined by a zero-width joiner. */
  method ConsumeSymbolRun(u: Unicode, raw: seq<Byte>, from: nat) returns (index: nat)
    requires from <= |raw|
    ensures index == End(u, raw, from, Symbols)
  {
    hide DecodeAt, ScalarAt, Step;
    index := from;
    while index < |raw|
      invariant index <= |raw| && End(u, raw, index, Symbols) == End(u, raw, from, Symbols)
      decreases |raw| - index
    {
      var width;
      ghost var step := Step(u, raw, index, Symbols);
      SymbolStep(u, raw, index);
      if step.Some? {
        StepForward(u, raw, index, Symbols);
      }
      if raw[index] < 0x80 {
        var operator := if IsOperatorStart(raw[index]) then OperatorWidth(raw, index) else None;
        if operator.Some? {
          width := operator.value;
        } else {
          var (kind, w) := ClassifyAscii(raw, index);
          if kind != Symbol {
            break;
          }
          width := w;
        }
      } else {
        var (kind, w) := ClassifyAt(u, raw, index);
        width := w;
        var scalar := ScalarAt(raw, index);
        if kind != Symbol {
          if scalar.None? || scalar.value.0 != JOINER {
            break;
          }
          var afterJoiner := index + width;
          if afterJoiner >= |raw| {
            break;
          }
          var (nextKind, nextWidth) := ClassifyAt(u, raw, afterJoiner);
          if nextKind != Symbol {
            break;
          }
          width := width + nextWidth;
        }
      }
      index := index + width;
    }
  }

  /** The step of a symbol run; the joiner is never ASCII. */
  lemma SymbolStep(u: Unicode, raw: seq<Byte>, index: nat)
    requires index < |raw|
    ensures var (kind, width) := ClassifyAt(u, raw, index);
            var scalar := ScalarAt(raw, index);
            Step(u, raw, index, Symbols) ==
              if kind == Symbol then Some((index + width, Symbols))
              else if raw[index] >= 0x80 && scalar.Some? && scalar.value.0 == JOINER && index + width < |raw|
                      && ClassifyAt(u, raw, index + width).0 == Symbol
              then Some((index + width + ClassifyAt(u, raw, index + width).1, Symbols))
              else None
  {
    hide ClassifyAt, DecodeAt;
  }

  method ConsumeWord(u: Unicode, raw: seq<Byte>, from: nat) returns (index: nat)
    requires from <= |raw|
    ensures index == End(u, raw, from, Words)
  {
    hide DecodeAt, Step, ClassifyAt, ScalarAt;
    index := from;
    while index < |raw|
      invariant index <= |raw| && End(u, raw, index, Words) == End(u, raw, from, Words)
      decreases |raw| - index
    {
      var byte := raw[index];
      WordStep(u, raw, index);
      if Step(u, raw, index, Words).Some? {
        StepForward(u, raw, index, Words);
      }
      if IsLetter(byte) || IsDigit(byte) || byte == UNDERSCORE {
        index := index + 1;
        continue;
      }
      if byte >= 0x80 {
        var (kind, width) := ClassifyAt(u, raw, index);
        if kind == Word || kind == Number {
          index := index + width;
          continue;
        }
      }
      if byte == APOSTROPHE || byte == MINUS || byte >= 0x80 {
        var scalar := ScalarAt(raw, index);
        if scalar.Some? && IsWordConnector(scalar.value.0) {
          var afterConnector := index + scalar.value.1;
          if afterConnector < |raw| && IsWordOrNumberAt(u, raw, afterConnector) {
            index := afterConnector;
            continue;
          }
        }
      }
      break;
    }
  }

  predicate IsWordOrNumberAt(u: Unicode, raw: seq<Byte>, index: nat)
    requires index < |raw|
  {
    if raw[index] < 0x80 then IsLetter(raw[index]) || IsDigit(raw[index]) || raw[index] == UNDERSCORE
    else ClassifyAt(u, raw, index).0 in {Word, Number}
  }

  predicate IsNumberAt(u: Unicode, raw: seq<Byte>, index: nat)
    requires index < |raw|
  {
    if raw[index] < 0x80 then IsDigit(raw[index]) else ClassifyAt(u, raw, index).0 == Number
  }

  predicate IsWordAt(u: Unicode, raw: seq<Byte>, index: nat)
    requires index < |raw|
  {
    if raw[index] < 0x80 then IsLetter(raw[index]) || raw[index] == UNDERSCORE else ClassifyAt(u, raw, index).0 == Word
  }

  /** The ASCII shortcuts decide what the classifier decides. */
  lemma Shortcuts(u: Unicode, raw: seq<Byte>, index: nat)
    requires index < |raw|
    ensures IsNumberAt(u, raw, index) <==> ClassifyAt(u, raw, index).0 == Number
    ensures IsWordAt(u, raw, index) <==> ClassifyAt(u, raw, index).0 == Word
    ensures IsWordOrNumberAt(u, raw, index) <==> ClassifyAt(u, raw, index).0 in {Word, Number}
    ensures raw[index] < 0x80 && ClassifyAt(u, raw, index).0 in {Word, Number} ==> ClassifyAt(u, raw, index).1 == 1
    ensures raw[index] < 0x80 ==> ScalarAt(raw, index) == Some((raw[index], 1))
  {
    hide DecodeAt;
  }

  lemma WordStep(u: Unicode, raw: seq<Byte>, index: nat)
    requires index < |raw|
    ensures var (kind, width) := ClassifyAt(u, raw, index);
            var scalar := ScalarAt(raw, index);
            Step(u, raw, index, Words) ==
              if IsWordOrNumberAt(u, raw, index) then Some((index + if raw[index] < 0x80 then 1 else width, Words))
              else if scalar.Some? && IsWordConnector(scalar.value.0) && index + scalar.value.1 < |raw|
                      && IsWordOrNumberAt(u, raw, index + scalar.value.1)
              then Some((index + scalar.value.1, Words))
              else None
    ensures raw[index] < 0x80 ==> ScalarAt(raw, index) == Some((raw[index], 1))
  {
    hide ClassifyAt, ScalarAt, IsWordOrNumberAt;
    Shortcuts(u, raw, index);
    var scalar := ScalarAt(raw, index);
    if scalar.Some? && index + scalar.value.1 < |raw| {
      Shortcuts(u, raw, index + scalar.value.1);
    }
  }

  lemma NumberStep(u: Unicode, raw: seq<Byte>, index: nat)
    requires index < |raw|
    ensures var (kind, width) := ClassifyAt(u, raw, index);
            var scalar := ScalarAt(raw, index);
            Step(u, raw, index, Numbers) ==
              if IsNumberAt(u, raw, index) then Some((index + if raw[index] < 0x80 then 1 else width, Numbers))
              else if scalar.Some? && IsNumberSeparator(scalar.value.0) && index + scalar.value.1 < |raw|
                      && IsNumberAt(u, raw, index + scalar.value.1)
              then Some((index + scalar.value.1, Numbers))
              else if scalar.Some? && IsSuffixConnector(scalar.value.0) && index + scalar.value.1 < |raw|
                      && IsWordAt(u, raw, index + scalar.value.1)
              then Some((index + scalar.value.1, Words))
              else None
    ensures raw[index] < 0x80 ==> ScalarAt(raw, index) == Some((raw[index], 1))
  {
    hide ClassifyAt, ScalarAt, IsNumberAt, IsWordAt, IsNumberSeparator, IsSuffixConnector;
    Shortcuts(u, raw, index);
    var scalar := ScalarAt(raw, index);
    if scalar.Some? && index + scalar.value.1 < |raw| {
      Shortcuts(u, raw, index + scalar.value.1);
    }
  }

  /** Digits with inner separators, and a word suffix behind an apostrophe. */
  method ConsumeNumber(u: Unicode, raw: seq<Byte>, from: nat) returns (index: nat)
    requires from <= |raw|
    ensures index == End(u, raw, from, Numbers)
  {
    hide DecodeAt, Step, ClassifyAt, ScalarAt, IsWordAt;
    index := from;
    while index < |raw|
      invariant index <= |raw| && End(u, raw, index, Numbers) == End(u, raw, from, Numbers)
      decreases |raw| - index
    {
      var byte := raw[index];
      NumberStep(u, raw, index);
      if Step(u, raw, index, Numbers).Some? {
        StepForward(u, raw, index, Numbers);
      }
      if IsDigit(byte) {
        index := index + 1;
        continue;
      }
      if byte >= 0x80 {
        var (kind, width) := ClassifyAt(u, raw, index);
        if kind == Number {
          index := index + width;
          continue;
        }
      }
      var scalar := ScalarAt(raw, index);
      if byte == DOT || byte == COMMA || byte == COLON || byte == SLASH || byte == MINUS || byte >= 0x80 {
        if scalar.Some? && IsNumberSeparator(scalar.value.0) {
          var afterSeparator := index + scalar.value.1;
          if afterSeparator < |raw| && IsNumberAt(u, raw, afterSeparator) {
            index := afterSeparator;
            continue;
          }
        }
      }
      if byte == APOSTROPHE || byte >= 0x80 {
        if scalar.Some? && IsSuffixConnector(scalar.value.0) {
          var afterConnector := index + scalar.value.1;
          if afterConnector < |raw| && IsWordAt(u, raw, afterConnector) {
            index := ConsumeWord(u, raw, afterConnector);
            return;
          }
        }
      }
      break;
    }
  }

  // ----- what the pieces are, in terms of characters

  /** The operators are those listed, and the longest one is taken. */
  lemma OperatorIsListed(raw: seq<Byte>, at: nat)
    requires at < |raw|
    ensures OperatorAt(raw, at) <==> OperatorWidth(raw, at).Some?
    ensures OperatorAt(raw, at) ==> IsOperatorStart(raw[at])
    ensures OperatorAt(raw, at) ==>
              var third := IsLengthened(raw[at] as char, raw[at + 1] as char) && at + 2 < |raw| && raw[at + 2] == '=' as nat;
              OperatorWidth(raw, at) == Some(if third then 3 else 2)
  {
  }

  lemma AsciiKindIs(raw: seq<Byte>, at: nat, kind: Kind)
    requires at < |raw| && raw[at] < 0x80
    ensures AsciiKind(raw, at, kind) <==> kind == if OperatorAt(raw, at) then Symbol else ClassifyAscii(raw, at).0
  {
    OperatorIsListed(raw, at);
    hide OperatorWidth;
  }

  lemma ScalarKindIs(u: Unicode, v: nat, kind: Kind)
    ensures ScalarKind(u, v, kind) <==> KindOf(u, v) == kind
  {
  }

  lemma KindIsNotOpaque(u: Unicode, v: nat)
    ensures KindOf(u, v) != Opaque && !ScalarKind(u, v, Opaque)
  {
  }

  /** The classifier finds the kind of what stands at a position. */
  lemma KindIs(u: Unicode, raw: seq<Byte>, at: nat, kind: Kind)
    requires at < |raw|
    ensures IsKind(u, raw, at, kind) <==> ClassifyAt(u, raw, at).0 == kind
  {
    hide OperatorWidth, ClassifyAscii, AsciiKind, OperatorAt, DecodeAt, KindOf, ScalarKind, Stands;
    if raw[at] < 0x80 {
      OperatorIsListed(raw, at);
      AsciiKindIs(raw, at, kind);
    } else {
      var decoded := DecodeAt(raw, at);
      forall v: nat | Stands(raw, at, v)
        ensures decoded.Some? && decoded.value.0 == v
      {
        StandingIsDecoded(raw, at, v);
      }
      if decoded.Some? {
        DecodedStands(raw, at);
        ScalarKindIs(u, decoded.value.0, kind);
        KindIsNotOpaque(u, decoded.value.0);
      }
    }
  }

  lemma KindsAre(u: Unicode, raw: seq<Byte>, at: nat)
    requires at <= |raw|
    ensures forall kind :: IsKind(u, raw, at, kind) <==> at < |raw| && ClassifyAt(u, raw, at).0 == kind
  {
    hide ClassifyAt;
    forall kind
      ensures IsKind(u, raw, at, kind) <==> at < |raw| && ClassifyAt(u, raw, at).0 == kind
    {
      if at < |raw| {
        KindIs(u, raw, at, kind);
      }
    }
  }

  /** The scalar read at a position is the character that stands there. */
  lemma ScalarStands(raw: seq<Byte>, at: nat)
    ensures forall v: nat :: Stands(raw, at, v) ==> ScalarAt(raw, at) == Some((v, |EncodeScalar(v)|))
    ensures ScalarAt(raw, at).Some? ==>
              var (v, width) := ScalarAt(raw, at).value; Stands(raw, at, v) && width == |EncodeScalar(v)|
  {
    hide DecodeAt, Stands, EncodeScalar;
    forall v: nat | Stands(raw, at, v)
      ensures Scalar(v) && ScalarAt(raw, at) == Some((v, |EncodeScalar(v)|))
    {
      StandsWithin(raw, at, v);
      StandingIsDecoded(raw, at, v);
    }
    if at < |raw| && raw[at] < 0x80 {
      AsciiStands(raw, at);
    } else if DecodeAt(raw, at).Some? {
      DecodedStands(raw, at);
    }
  }

  lemma ConnectsIs(u: Unicode, raw: seq<Byte>, at: nat, connectors: set<nat>, kinds: set<Kind>)
    requires at <= |raw|
    ensures Connects(u, raw, at, connectors, kinds) <==>
            var scalar := ScalarAt(raw, at);
            scalar.Some? && scalar.value.0 in connectors && KindAt(u, raw, at + scalar.value.1, kinds)
  {
    hide ClassifyAt, ScalarAt, Stands, IsKind, EncodeScalar;
    ScalarStands(raw, at);
    var scalar := ScalarAt(raw, at);
    if scalar.Some? {
      var (v, width) := scalar.value;
      StandsWithin(raw, at, v);
      KindsAre(u, raw, at + width);
      assert Behind(at, v) == at + width;
    }
  }

  lemma StandsWithin(raw: seq<Byte>, at: nat, v: nat)
    requires Stands(raw, at, v)
    ensures Scalar(v) && at < at + |EncodeScalar(v)| <= |raw|
  {
  }

  /** Only one character stands at a position, and none stands inside another. */
  lemma OnlyCharacter(raw: seq<Byte>, at: nat, v: nat)
    requires Stands(raw, at, v)
    ensures forall p: nat, w: nat :: at <= p < at + |EncodeScalar(v)| && Stands(raw, p, w) ==> p == at && w == v
  {
    hide EncodeScalar, Stands;
    StandsWithin(raw, at, v);
    forall p: nat, w: nat | at <= p < at + |EncodeScalar(v)| && Stands(raw, p, w)
      ensures p == at && w == v
    {
      StandingIsDecoded(raw, p, w);
      StandingIsDecoded(raw, at, v);
      if p != at {
        InsideIsTail(raw, at, v, p);
      }
    }
  }

  lemma InsideIsTail(raw: seq<Byte>, at: nat, v: nat, p: nat)
    requires Stands(raw, at, v) && at < p < at + |EncodeScalar(v)|
    ensures Tail(raw[p])
  {
    assert raw[p] == raw[at..at + |EncodeScalar(v)|][p - at];
    RestIsTail(v, p - at);
  }

  lemma RestIsTail(v: nat, k: nat)
    requires Scalar(v) && 0 < k < |EncodeScalar(v)|
    ensures Tail(EncodeScalar(v)[k])
  {
  }

  /** A piece of a word or a number is one character. */
  lemma OneCharacterPiece(u: Unicode, raw: seq<Byte>, at: nat)
    requires at < |raw| && ClassifyAt(u, raw, at).0 in {Word, Number}
    ensures ScalarAt(raw, at).Some? && ScalarAt(raw, at).value.1 == ClassifyAt(u, raw, at).1
  {
    hide DecodeAt, KindOf, OperatorWidth;
  }

  // ----- what the spans hold, in terms of characters

  lemma EndUnfolds(u: Unicode, raw: seq<Byte>, index: nat, mode: Mode)
    requires index < |raw|
    ensures var step := Step(u, raw, index, mode);
            if step.None? then End(u, raw, index, mode) == index
            else index < step.value.0 <= |raw| && End(u, raw, index, mode) == End(u, raw, step.value.0, step.value.1)
  {
    hide Step;
    if Step(u, raw, index, mode).Some? {
      StepForward(u, raw, index, mode);
    }
  }

  /** A span that can go on does. */
  lemma EndMoves(u: Unicode, raw: seq<Byte>, index: nat, mode: Mode)
    requires index < |raw| && Step(u, raw, index, mode).Some?
    ensures End(u, raw, index, mode) > index
  {
    hide Step;
    StepForward(u, raw, index, mode);
  }

  lemma ContinuingSteps(u: Unicode, raw: seq<Byte>, index: nat, mode: Mode)
    requires index < |raw| && Continues(mode, ClassifyAt(u, raw, index).0)
    ensures Step(u, raw, index, mode) == Some((index + ClassifyAt(u, raw, index).1, mode))
  {
    hide ClassifyAt, ScalarAt;
  }

  /** A step of a word span, in terms of characters. */
  lemma WordsStep(u: Unicode, raw: seq<Byte>, index: nat)
    requires index <= |raw|
    ensures var linked := Connects(u, raw, index, {0x27, 0x2019, 0x2d, 0x2010, 0x2011}, {Word, Number});
            if index < |raw| && Step(u, raw, index, Words).Some? then
              && (IsKind(u, raw, index, Word) || IsKind(u, raw, index, Number) || linked)
              && var scalar := ScalarAt(raw, index);
                 && scalar.Some? && Step(u, raw, index, Words) == Some((index + scalar.value.1, Words))
                 && (IsKind(u, raw, index, Word) || IsKind(u, raw, index, Number) || index + scalar.value.1 < End(u, raw, index, Words))
            else !IsKind(u, raw, index, Word) && !IsKind(u, raw, index, Number) && !linked
  {
    hide ClassifyAt, ScalarAt, IsKind, Connects;
    KindsAre(u, raw, index);
    ConnectsIs(u, raw, index, {0x27, 0x2019, 0x2d, 0x2010, 0x2011}, {Word, Number});
    if index < |raw| {
      if ClassifyAt(u, raw, index).0 in {Word, Number} {
        OneCharacterPiece(u, raw, index);
      } else if Step(u, raw, index, Words).Some? {
        var next := Step(u, raw, index, Words).value.0;
        ContinuingSteps(u, raw, next, Words);
        EndMoves(u, raw, next, Words);
        EndUnfolds(u, raw, index, Words);
      }
    }
  }

  /** A word span holds words and numbers, linked or not, and goes as far as it can. */
  lemma {:induction false} WordsAreStretched(u: Unicode, raw: seq<Byte>, index: nat)
    requires index <= |raw|
    ensures WordStretch(u, raw, index, End(u, raw, index, Words))
    decreases |raw| - index
  {
    hide ScalarAt, IsKind, Connects, Step, End, Stands, EncodeScalar;
    WordsStep(u, raw, index);
    if index < |raw| {
      EndUnfolds(u, raw, index, Words);
      if Step(u, raw, index, Words).Some? {
        var next, end := Step(u, raw, index, Words).value.0, End(u, raw, index, Words);
        WordsAreStretched(u, raw, next);
        ScalarStands(raw, index);
        OnlyCharacter(raw, index, ScalarAt(raw, index).value.0);
        forall p: nat, v: nat | index <= p < end && Stands(raw, p, v)
          ensures Scalar(v) && InWords(u, raw, p, v, end)
        {
          StandsWithin(raw, p, v);
        }
      }
    } else {
      AtTheEnd(u, raw, index, Words);
    }
  }

  lemma AtTheEnd(u: Unicode, raw: seq<Byte>, index: nat, mode: Mode)
    requires index == |raw|
    ensures End(u, raw, index, mode) == index
  {
  }

  /** A step of a number span, in terms of characters. */
  lemma NumbersStep(u: Unicode, raw: seq<Byte>, index: nat)
    requires index <= |raw|
    ensures var separated := Connects(u, raw, index, {0x2e, 0x2c, 0x3a, 0x2f, 0x2d, 0x66b, 0x66c}, {Number});
            var suffixed := Connects(u, raw, index, {0x27, 0x2019}, {Word});
            if index < |raw| && Step(u, raw, index, Numbers).Some? then
              var scalar, next := ScalarAt(raw, index), Step(u, raw, index, Numbers).value.0;
              && scalar.Some? && next == index + scalar.value.1
              && if Step(u, raw, index, Numbers).value.1 == Numbers
                 then IsKind(u, raw, index, Number) || (separated && IsKind(u, raw, next, Number))
                 else && Step(u, raw, index, Numbers).value.1 == Words
                      && !IsKind(u, raw, index, Number) && !separated && suffixed && scalar.value.0 in {0x27, 0x2019}
                      && next < End(u, raw, next, Words)
            else !IsKind(u, raw, index, Number) && !separated && !suffixed
  {
    hide ClassifyAt, ScalarAt, IsKind, Connects;
    KindsAre(u, raw, index);
    ConnectsIs(u, raw, index, {0x2e, 0x2c, 0x3a, 0x2f, 0x2d, 0x66b, 0x66c}, {Number});
    ConnectsIs(u, raw, index, {0x27, 0x2019}, {Word});
    if index < |raw| {
      if ClassifyAt(u, raw, index).0 == Number {
        OneCharacterPiece(u, raw, index);
      } else if Step(u, raw, index, Numbers).Some? {
        var next := Step(u, raw, index, Numbers).value.0;
        StepForward(u, raw, index, Numbers);
        KindsAre(u, raw, next);
        if Step(u, raw, index, Numbers).value.1 == Words {
          ContinuingSteps(u, raw, next, Words);
          EndMoves(u, raw, next, Words);
        }
      }
    }
  }

  /** A numeral grows by one character in front. */
  lemma NumeralGrows(u: Unicode, raw: seq<Byte>, index: nat, v: nat, end: nat)
    requires Stands(raw, index, v) && Behind(index, v) <= end && Numeral(u, raw, Behind(index, v), end)
    requires IsKind(u, raw, index, Number) ||
             (Connects(u, raw, index, {0x2e, 0x2c, 0x3a, 0x2f, 0x2d, 0x66b, 0x66c}, {Number}) && IsKind(u, raw, Behind(index, v), Number))
    ensures Numeral(u, raw, index, end)
  {
    hide Stands, IsKind, Connects, EncodeScalar;
    OnlyCharacter(raw, index, v);
    forall p: nat, w: nat | index <= p < end && Stands(raw, p, w)
      ensures Scalar(w) && InNumeral(u, raw, p, w, end)
    {
      StandsWithin(raw, p, w);
    }
  }

  /** A number span holds a numeral, and a word suffix exactly when an apostrophe and a word follow. */
  lemma {:induction false} NumbersAreStretched(u: Unicode, raw: seq<Byte>, index: nat)
    requires index <= |raw|
    ensures NumberStretch(u, raw, index, End(u, raw, index, Numbers))
    decreases |raw| - index
  {
    hide ScalarAt, IsKind, Connects, Step, End, Stands, EncodeScalar, Numeral, WordStretch;
    NumbersStep(u, raw, index);
    if index == |raw| {
      AtTheEnd(u, raw, index, Numbers);
      EmptyNumeral(u, raw, index);
    } else {
      EndUnfolds(u, raw, index, Numbers);
      if Step(u, raw, index, Numbers).None? {
        EmptyNumeral(u, raw, index);
      } else {
        var (next, mode) := Step(u, raw, index, Numbers).value;
        var to, v := End(u, raw, index, Numbers), ScalarAt(raw, index).value.0;
        ScalarStands(raw, index);
        StandsWithin(raw, index, v);
        assert Behind(index, v) == next;
        if mode == Numbers {
          NumbersAreStretched(u, raw, next);
          var end: nat :| next <= end <= to && Numeral(u, raw, next, end)
            && if Connects(u, raw, end, {0x27, 0x2019}, {Word}) then Suffix(u, raw, end, to) else end == to;
          NumeralGrows(u, raw, index, v, end);
        } else {
          WordsAreStretched(u, raw, next);
          EmptyNumeral(u, raw, index);
          assert Suffix(u, raw, index, to);
        }
      }
    }
  }

  lemma EmptyNumeral(u: Unicode, raw: seq<Byte>, index: nat)
    ensures Numeral(u, raw, index, index) <==>
            !IsKind(u, raw, index, Number) && !Connects(u, raw, index, {0x2e, 0x2c, 0x3a, 0x2f, 0x2d, 0x66b, 0x66c}, {Number})
  {
    hide IsKind, Connects;
  }

  /** A symbol piece is a symbol, or an operator whose first character counts as a symbol and whose others follow it. */
  lemma SymbolPiece(u: Unicode, raw: seq<Byte>, at: nat)
    requires at < |raw| && ClassifyAt(u, raw, at).0 == Symbol
    ensures forall p: nat, v: nat :: at <= p < at + ClassifyAt(u, raw, at).1 && Stands(raw, p, v) ==>
              IsKind(u, raw, p, Symbol) || (at < p && OperatorAt(raw, p - 1))
  {
    hide DecodeAt, KindOf, Stands, EncodeScalar, OperatorWidth, OperatorAt;
    KindIs(u, raw, at, Symbol);
    if raw[at] < 0x80 {
      OperatorIsListed(raw, at);
      if OperatorAt(raw, at) && at + 2 < |raw| && raw[at + 2] == '=' as nat {
        EqualSignIsSymbol(u, raw, at + 2);
      }
    } else {
      DecodedStands(raw, at);
      OnlyCharacter(raw, at, DecodeAt(raw, at).value.0);
    }
  }

  lemma EqualSignIsSymbol(u: Unicode, raw: seq<Byte>, at: nat)
    requires at < |raw| && raw[at] == '=' as nat
    ensures IsKind(u, raw, at, Symbol)
  {
  }

  /** A step of a symbol span, in terms of characters. */
  lemma SymbolsStep(u: Unicode, raw: seq<Byte>, index: nat)
    requires index <= |raw|
    ensures var joined := Connects(u, raw, index, {0x200d}, {Symbol});
            if index < |raw| && Step(u, raw, index, Symbols).Some? then
              && Step(u, raw, index, Symbols).value.1 == Symbols
              && forall p: nat, v: nat :: index <= p < Step(u, raw, index, Symbols).value.0 && Stands(raw, p, v) ==>
                   || IsKind(u, raw, p, Symbol) || (index < p && OperatorAt(raw, p - 1))
                   || (p == index && joined && p + |EncodeScalar(v)| < Step(u, raw, index, Symbols).value.0)
            else !IsKind(u, raw, index, Symbol) && !joined
  {
    hide ClassifyAt, ScalarAt, IsKind, Connects, Stands, EncodeScalar, OperatorAt;
    KindsAre(u, raw, index);
    ConnectsIs(u, raw, index, {0x200d}, {Symbol});
    if index < |raw| && ScalarAt(raw, index).Some? && ScalarAt(raw, index).value.0 == JOINER {
      JoinerPiece(u, raw, index);
    }
    if index < |raw| && Step(u, raw, index, Symbols).Some? {
      if ClassifyAt(u, raw, index).0 == Symbol {
        SymbolPiece(u, raw, index);
      } else {
        var (joiner, width) := ScalarAt(raw, index).value;
        ScalarStands(raw, index);
        OnlyCharacter(raw, index, joiner);
        SymbolPiece(u, raw, index + width);
        Piece(u, raw, index + width);
      }
    }
  }

  /** The joiner is one piece. */
  lemma JoinerPiece(u: Unicode, raw: seq<Byte>, index: nat)
    requires index < |raw| && ScalarAt(raw, index).Some? && ScalarAt(raw, index).value.0 == JOINER
    ensures ClassifyAt(u, raw, index).1 == ScalarAt(raw, index).value.1
  {
    hide DecodeAt, KindOf, OperatorWidth, ClassifyAscii;
  }

  /** A symbol span holds symbols, operators and joined symbols, and goes as far as it can. */
  lemma {:induction false} SymbolsAreStretched(u: Unicode, raw: seq<Byte>, index: nat)
    requires index <= |raw|
    ensures SymbolStretch(u, raw, index, End(u, raw, index, Symbols))
    decreases |raw| - index
  {
    hide ScalarAt, IsKind, Connects, Step, End, Stands, EncodeScalar, OperatorAt;
    SymbolsStep(u, raw, index);
    if index == |raw| {
      AtTheEnd(u, raw, index, Symbols);
    } else {
      EndUnfolds(u, raw, index, Symbols);
      if Step(u, raw, index, Symbols).Some? {
        var next, end := Step(u, raw, index, Symbols).value.0, End(u, raw, index, Symbols);
        SymbolsAreStretched(u, raw, next);
        forall p: nat, v: nat | index <= p < end && Stands(raw, p, v)
          ensures Scalar(v) && InSymbols(u, raw, index, p, v, end)
        {
          StandsWithin(raw, p, v);
        }
      }
    }
  }

  /** A piece of any other kind holds characters of that kind; an opaque byte holds none. */
  lemma PlainPiece(u: Unicode, raw: seq<Byte>, at: nat, kind: Kind)
    requires at < |raw| && ClassifyAt(u, raw, at).0 == kind && kind !in {Word, Number, Symbol}
    ensures forall p: nat, v: nat :: at <= p < at + ClassifyAt(u, raw, at).1 && Stands(raw, p, v) ==> IsKind(u, raw, p, kind) && kind != Opaque
  {
    hide DecodeAt, KindOf, Stands, EncodeScalar, OperatorWidth, OperatorAt;
    KindIs(u, raw, at, kind);
    Piece(u, raw, at);
    if raw[at] >= 0x80 && DecodeAt(raw, at).Some? {
      DecodedStands(raw, at);
      OnlyCharacter(raw, at, DecodeAt(raw, at).value.0);
      KindIsNotOpaque(u, DecodeAt(raw, at).value.0);
    }
  }

  lemma {:induction false} PlainsAreStretched(u: Unicode, raw: seq<Byte>, index: nat, kind: Kind)
    requires index <= |raw| && kind !in {Word, Number, Symbol}
    ensures PlainStretch(u, raw, index, End(u, raw, index, Same(kind)), kind)
    decreases |raw| - index
  {
    hide ClassifyAt, ScalarAt, IsKind, End, Stands, EncodeScalar;
    KindsAre(u, raw, index);
    if index == |raw| {
      AtTheEnd(u, raw, index, Same(kind));
    } else {
      EndUnfolds(u, raw, index, Same(kind));
      if ClassifyAt(u, raw, index).0 == kind {
        PlainPiece(u, raw, index, kind);
        PlainsAreStretched(u, raw, index + ClassifyAt(u, raw, index).1, kind);
      }
    }
  }

  function ModeOf(kind: Kind): Mode {
    if kind == Word then Words else if kind == Number then Numbers else if kind == Symbol then Symbols else Same(kind)
  }

  /** A span of the scan obeys the law of its kind. */
  lemma ScannedObeysLaw(u: Unicode, raw: seq<Byte>, start: nat)
    requires start < |raw|
    ensures var (kind, width) := ClassifyAt(u, raw, start);
            start + width <= |raw| && SpanLaw(u, raw, start, End(u, raw, start + width, ModeOf(kind)), kind)
  {
    hide ClassifyAt, ScalarAt, IsKind, End, WordStretch, NumberStretch, SymbolStretch, PlainStretch;
    var (kind, width) := ClassifyAt(u, raw, start);
    Piece(u, raw, start);
    KindsAre(u, raw, start);
    ContinuingSteps(u, raw, start, ModeOf(kind));
    EndUnfolds(u, raw, start, ModeOf(kind));
    match kind
    case Word => WordsAreStretched(u, raw, start);
    case Number => NumbersAreStretched(u, raw, start);
    case Symbol => SymbolsAreStretched(u, raw, start);
    case _ => PlainsAreStretched(u, raw, start, kind);
  }

  // ----- the scanner

  datatype Span = Span(start: nat, end: nat)

  /** Non-empty spans that follow each other from 0 to `to`. */
  ghost predicate Tiles(spans: seq<Span>, to: nat) {
    && (forall k :: 0 <= k < |spans| ==> Before(spans, k) == spans[k].start < spans[k].end)
    && Before(spans, |spans|) == to
  }

  /** Where span `k` has to start: behind its predecessor. */
  function Before(spans: seq<Span>, k: nat): nat
    requires k <= |spans|
  {
    if k == 0 then 0 else spans[k - 1].end
  }

  /** An opaque span holds bytes at which no character starts; any other span is well-formed text. */
  ghost predicate Faithful(raw: seq<Byte>, span: Span, kind: Kind) {
    && span.start <= span.end <= |raw|
    && (if kind == Opaque then forall i :: span.start <= i < span.end ==> CharLength(raw[i..]) == 0
        else WellFormed(raw[span.start..span.end]))
  }

  /** A span of the scan: its kind is that of its first piece, and it reaches as far as that kind goes. */
  ghost predicate Scanned(u: Unicode, raw: seq<Byte>, span: Span, kind: Kind) {
    && Faithful(raw, span, kind)
    && span.start < |raw| && ClassifyAt(u, raw, span.start).0 == kind
    && var from := span.start + ClassifyAt(u, raw, span.start).1;
       from <= |raw| && span.end == End(u, raw, from, ModeOf(kind))
  }

  /** A span that starts with a piece of a kind and reaches the end of that kind's mode. */
  lemma OneSpan(u: Unicode, raw: seq<Byte>, start: nat)
    requires start < |raw|
    ensures var (kind, width) := ClassifyAt(u, raw, start);
            && start + width <= |raw|
            && var end := End(u, raw, start + width, ModeOf(kind));
               start < end <= |raw| && Scanned(u, raw, Span(start, end), kind) && (end < |raw| ==> ClassifyAt(u, raw, end).0 != kind)
  {
    hide ClassifyAt, Step, CharLength, WellFormed;
    var (kind, width) := ClassifyAt(u, raw, start);
    Piece(u, raw, start);
    var mode := ModeOf(kind);
    var end := End(u, raw, start + width, mode);
    EndStops(u, raw, start + width, mode);
    if kind == Opaque {
      OpaqueHasNoCharacter(u, raw, start + width);
    } else {
      EndIsWellFormed(u, raw, start + width, mode);
      Joined(raw, start, start + width, end);
    }
  }

  lemma TilesNext(spans: seq<Span>, from: nat, to: nat)
    requires Tiles(spans, from) && from < to
    ensures Tiles(spans + [Span(from, to)], to)
  {
    var after := spans + [Span(from, to)];
    forall k | 0 <= k < |after|
      ensures Before(after, k) == after[k].start < after[k].end
    {
      assert Before(after, k) == Before(spans, k);
    }
  }

  /** Scans any byte string to its end; what each span holds is said in terms of characters alone. */
  method ScanCompact(u: Unicode, raw: seq<Byte>) returns (spans: seq<Span>, kinds: seq<Kind>)
    ensures |spans| == |kinds| && Tiles(spans, |raw|)
    ensures forall k :: 0 <= k < |spans| ==> SpanLaw(u, raw, spans[k].start, spans[k].end, kinds[k])
    ensures forall k :: 0 <= k < |spans| ==> Scanned(u, raw, spans[k], kinds[k])
    ensures forall k :: 0 < k < |kinds| ==> kinds[k - 1] != kinds[k]
    ensures WellFormed(raw) <==> Opaque !in kinds
  {
    hide ClassifyAt, Step, CharLength, WellFormed, End, Scanned, Tiles, SpanLaw;
    spans, kinds := [], [];
    var index := 0;
    NothingTiles();
    while index < |raw|
      invariant index <= |raw| && |spans| == |kinds| && Tiles(spans, index)
      invariant forall k :: 0 <= k < |spans| ==> Scanned(u, raw, spans[k], kinds[k])
      invariant forall k :: 0 <= k < |spans| ==> SpanLaw(u, raw, spans[k].start, spans[k].end, kinds[k])
      invariant forall k :: 0 < k < |kinds| ==> kinds[k - 1] != kinds[k]
      invariant kinds != [] && index < |raw| ==> ClassifyAt(u, raw, index).0 != kinds[|kinds| - 1]
      decreases |raw| - index
    {
      var start := index;
      var (kind, width) := ClassifyAt(u, raw, index);
      OneSpan(u, raw, start);
      ScannedObeysLaw(u, raw, start);
      index := index + width;
      if kind == Word {
        index := ConsumeWord(u, raw, index);
      } else if kind == Number {
        index := ConsumeNumber(u, raw, index);
      } else {
        index := ConsumeSameKind(u, raw, index, kind);
      }
      TilesNext(spans, start, index);
      spans := spans + [Span(start, index)];
      kinds := kinds + [kind];
    }
    AllFaithful(u, raw, spans, kinds);
    OpaqueIffMalformed(raw, spans, kinds);
  }

  lemma NothingTiles()
    ensures Tiles([], 0)
  {
  }

  lemma AllFaithful(u: Unicode, raw: seq<Byte>, spans: seq<Span>, kinds: seq<Kind>)
    requires |spans| == |kinds| && forall k :: 0 <= k < |spans| ==> Scanned(u, raw, spans[k], kinds[k])
    ensures forall k :: 0 <= k < |spans| ==> Faithful(raw, spans[k], kinds[k])
  {
    hide Faithful;
  }

  lemma TextSpan(raw: seq<Byte>, span: Span, kind: Kind)
    requires Faithful(raw, span, kind) && kind != Opaque
    ensures span.start <= span.end <= |raw| && WellFormed(raw[span.start..span.end])
  {
  }

  lemma OpaqueSpan(raw: seq<Byte>, span: Span)
    requires Faithful(raw, span, Opaque) && span.start < span.end
    ensures span.start < |raw| && !WellFormed(raw[span.start..])
  {
    hide CharLength;
  }

  lemma SpanBounds(spans: seq<Span>, to: nat, k: nat)
    requires Tiles(spans, to) && k < |spans|
    ensures Before(spans, k) == spans[k].start < spans[k].end == Before(spans, k + 1)
  {
  }

  lemma LongerPrefix(raw: seq<Byte>, start: nat, end: nat)
    requires start <= end <= |raw| && WellFormed(raw[..start]) && WellFormed(raw[start..end])
    ensures WellFormed(raw[..end])
  {
    hide WellFormed;
    assert raw[0..start] == raw[..start] && raw[0..end] == raw[..end];
    Joined(raw, 0, start, end);
  }

  /** Text before the first opaque span is well-formed. */
  lemma {:induction false} WellFormedPrefix(raw: seq<Byte>, spans: seq<Span>, kinds: seq<Kind>, k: nat)
    requires |spans| == |kinds| && Tiles(spans, |raw|) && k <= |spans|
    requires forall i :: 0 <= i < |spans| ==> Faithful(raw, spans[i], kinds[i])
    requires forall i :: 0 <= i < k ==> kinds[i] != Opaque
    ensures Before(spans, k) <= |raw| && WellFormed(raw[..Before(spans, k)])
  {
    hide Faithful, WellFormed, Tiles, CharLength;
    if k == 0 {
      assert raw[..0] == [];
      NothingIsWellFormed();
    } else {
      hide Before;
      var last := k - 1;
      WellFormedPrefix(raw, spans, kinds, last);
      SpanBounds(spans, |raw|, last);
      TextSpan(raw, spans[last], kinds[last]);
      LongerPrefix(raw, spans[last].start, spans[last].end);
    }
  }

  lemma {:induction false} FirstOpaque(kinds: seq<Kind>, k: nat) returns (first: nat)
    requires k < |kinds| && kinds[k] == Opaque
    ensures first <= k && kinds[first] == Opaque && forall i :: 0 <= i < first ==> kinds[i] != Opaque
    decreases k
  {
    if i: nat :| i < k && kinds[i] == Opaque {
      first := FirstOpaque(kinds, i);
    } else {
      first := k;
    }
  }

  /** The scan has an opaque span exactly when the input is not well-formed UTF-8. */
  lemma OpaqueIffMalformed(raw: seq<Byte>, spans: seq<Span>, kinds: seq<Kind>)
    requires |spans| == |kinds| && Tiles(spans, |raw|)
    requires forall i :: 0 <= i < |spans| ==> Faithful(raw, spans[i], kinds[i])
    ensures WellFormed(raw) <==> Opaque !in kinds
  {
    hide Faithful, WellFormed;
    if Opaque in kinds {
      var k :| 0 <= k < |kinds| && kinds[k] == Opaque;
      var first := FirstOpaque(kinds, k);
      WellFormedPrefix(raw, spans, kinds, first);
      var start := spans[first].start;
      assert start == Before(spans, first);
      OpaqueSpan(raw, spans[first]);
      assert raw == raw[..start] + raw[start..];
      if WellFormed(raw) {
        WellFormedSuffix(raw[..start], raw[start..]);
      }
    } else {
      WellFormedPrefix(raw, spans, kinds, |spans|);
      assert raw[..|raw|] == raw;
    }
  }
}
