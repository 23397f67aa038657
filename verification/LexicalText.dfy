/** The kinds of text the scanner tells apart, in terms of characters. */
module LexicalText {
  import opened Common
  import opened Utf8

  datatype Kind = Whitespace | LineBreak | Word | Number | Punctuation | Symbol | Control | Opaque

  /** The Unicode properties the scanner asks for, as given. */
  datatype Unicode = Unicode(isWhitespace: nat -> bool, isControl: nat -> bool, isNumeric: nat -> bool, isAlphabetic: nat -> bool)

  // ----- ASCII

  /** Two characters that form an operator. */
  predicate IsOperator(a: char, b: char) {
    (a, b) in {('=', '='), ('!', '='), ('<', '='), ('>', '='), ('+', '='), ('-', '='), ('*', '='), ('/', '='), ('%', '='), ('&', '='),
               ('|', '='), ('^', '='), ('<', '<'), ('>', '>'), ('*', '*'), ('/', '/'), ('?', '?'), (':', ':'), ('&', '&'), ('|', '|'),
               ('+', '+'), ('-', '-'), ('-', '>'), ('=', '>'), ('/', '*'), ('*', '/'), ('?', '.')}
  }

  /** Operators that a further `=` lengthens. */
  predicate IsLengthened(a: char, b: char) {
    (a, b) in {('=', '='), ('!', '='), ('<', '<'), ('>', '>'), ('*', '*'), ('/', '/'), ('?', '?')}
  }

  predicate OperatorAt(raw: seq<Byte>, at: nat) {
    at + 1 < |raw| && raw[at] < 0x80 && raw[at + 1] < 0x80 && IsOperator(raw[at] as char, raw[at + 1] as char)
  }

  /** The kind of an ASCII byte where it stands. */
  predicate AsciiKind(raw: seq<Byte>, at: nat, kind: Kind)
    requires at < |raw| && raw[at] < 0x80
  {
    var c := raw[at] as char;
    match kind
    case LineBreak => c in {'\n', '\r'}
    case Whitespace => c in {' ', '\t', '\U{b}', '\U{c}'}
    case Control => c == '\U{7f}' || (c < ' ' && c !in {'\n', '\r', '\t', '\U{b}', '\U{c}'})
    case Word => 'A' <= c <= 'Z' || 'a' <= c <= 'z' || c == '_'
    case Number => '0' <= c <= '9'
    case Punctuation =>
      c in {'.', ',', ';', ':', '!', '?', '\'', '"', '(', ')', '[', ']', '{', '}', '<', '>', '-', '/', '\\', '`'} && !OperatorAt(raw, at)
    case Symbol => c in {'#', '$', '%', '&', '*', '+', '=', '@', '^', '|', '~'} || OperatorAt(raw, at)
    case Opaque => false
  }

  // ----- other characters

  /** Characters that are line breaks, white space or controls whatever else they are. */
  predicate SetApart(u: Unicode, v: nat) {
    v in {0x85, 0x2028, 0x2029} || u.isWhitespace(v) || u.isControl(v)
  }

  predicate Between(v: nat, low: nat, high: nat) {
    low <= v <= high
  }

  predicate Combining(v: nat) {
    Between(v, 0x300, 0x36f) || Between(v, 0x1ab0, 0x1aff) || Between(v, 0x1dc0, 0x1dff) || Between(v, 0x20d0, 0x20ff) ||
    Between(v, 0xfe20, 0xfe2f)
  }

  predicate WidePunctuation(v: nat) {
    Between(v, 0x2000, 0x206f) || Between(v, 0x2e00, 0x2e7f) || Between(v, 0x3000, 0x303f) || Between(v, 0xfe10, 0xfe1f) ||
    Between(v, 0xfe30, 0xfe4f) || Between(v, 0xff01, 0xff0f) || Between(v, 0xff1a, 0xff20) || Between(v, 0xff3b, 0xff40) ||
    Between(v, 0xff5b, 0xff65)
  }

  /** The kind of a scalar value beyond ASCII. */
  predicate ScalarKind(u: Unicode, v: nat, kind: Kind) {
    match kind
    case LineBreak => v in {0x85, 0x2028, 0x2029}
    case Whitespace => u.isWhitespace(v) && v !in {0x85, 0x2028, 0x2029}
    case Control => u.isControl(v) && !u.isWhitespace(v) && v !in {0x85, 0x2028, 0x2029}
    case Number => u.isNumeric(v) && !SetApart(u, v)
    case Word => (u.isAlphabetic(v) || Combining(v)) && !u.isNumeric(v) && !SetApart(u, v)
    case Punctuation => WidePunctuation(v) && !u.isAlphabetic(v) && !Combining(v) && !u.isNumeric(v) && !SetApart(u, v)
    case Symbol => !WidePunctuation(v) && !u.isAlphabetic(v) && !Combining(v) && !u.isNumeric(v) && !SetApart(u, v)
    case Opaque => false
  }

  // ----- positions

  /** What stands at a position is of a kind; a byte at which no character begins is opaque. */
  ghost predicate IsKind(u: Unicode, raw: seq<Byte>, at: nat, kind: Kind) {
    && at < |raw|
    && if raw[at] < 0x80 then AsciiKind(raw, at, kind)
       else if kind == Opaque then forall v: nat :: !Stands(raw, at, v)
       else exists v: nat :: Stands(raw, at, v) && ScalarKind(u, v, kind)
  }

  /** The position behind a character. */
  function Behind(at: nat, v: nat): nat
    requires Scalar(v)
  {
    at + |EncodeScalar(v)|
  }

  /** One of the given characters stands at a position and text of one of the given kinds follows it. */
  ghost predicate Connects(u: Unicode, raw: seq<Byte>, at: nat, connectors: set<nat>, kinds: set<Kind>) {
    exists v: nat, kind: Kind :: v in connectors && Stands(raw, at, v) && kind in kinds && IsKind(u, raw, Behind(at, v), kind)
  }

  // ----- spans

  /** A character inside a stretch of words and numbers: apostrophes and hyphens only link. */
  ghost predicate InWords(u: Unicode, raw: seq<Byte>, p: nat, v: nat, to: nat)
    requires Scalar(v)
  {
    || IsKind(u, raw, p, Word) || IsKind(u, raw, p, Number)
    || (Behind(p, v) < to && Connects(u, raw, p, {0x27, 0x2019, 0x2d, 0x2010, 0x2011}, {Word, Number}))
  }

  /** Words and numbers, linked or not, as far as they go. */
  ghost predicate WordStretch(u: Unicode, raw: seq<Byte>, from: nat, to: nat) {
    && (forall p: nat, v: nat :: from <= p < to && Stands(raw, p, v) ==> InWords(u, raw, p, v, to))
    && !IsKind(u, raw, to, Word) && !IsKind(u, raw, to, Number)
    && !Connects(u, raw, to, {0x27, 0x2019, 0x2d, 0x2010, 0x2011}, {Word, Number})
  }

  /** A character inside a numeral: a separator stands between numbers. */
  ghost predicate InNumeral(u: Unicode, raw: seq<Byte>, p: nat, v: nat, to: nat)
    requires Scalar(v)
  {
    || IsKind(u, raw, p, Number)
    || (Behind(p, v) < to && Connects(u, raw, p, {0x2e, 0x2c, 0x3a, 0x2f, 0x2d, 0x66b, 0x66c}, {Number}))
  }

  /** A numeral as far as it goes. */
  ghost predicate Numeral(u: Unicode, raw: seq<Byte>, from: nat, to: nat) {
    && (forall p: nat, v: nat :: from <= p < to && Stands(raw, p, v) ==> InNumeral(u, raw, p, v, to))
    && !IsKind(u, raw, to, Number) && !Connects(u, raw, to, {0x2e, 0x2c, 0x3a, 0x2f, 0x2d, 0x66b, 0x66c}, {Number})
  }

  /** A word behind an apostrophe. */
  ghost predicate Suffix(u: Unicode, raw: seq<Byte>, from: nat, to: nat) {
    exists v: nat :: v in {0x27, 0x2019} && Stands(raw, from, v) && Behind(from, v) < to && WordStretch(u, raw, Behind(from, v), to)
  }

  /** A numeral, and a word suffix exactly when an apostrophe and a word follow it. */
  ghost predicate NumberStretch(u: Unicode, raw: seq<Byte>, from: nat, to: nat) {
    exists end: nat :: from <= end <= to && Numeral(u, raw, from, end)
      && if Connects(u, raw, end, {0x27, 0x2019}, {Word}) then Suffix(u, raw, end, to) else end == to
  }

  /** A character inside a stretch of symbols: a symbol, the second character of an operator, or a joiner before a symbol. */
  ghost predicate InSymbols(u: Unicode, raw: seq<Byte>, from: nat, p: nat, v: nat, to: nat)
    requires Scalar(v)
  {
    || IsKind(u, raw, p, Symbol) || (from < p && OperatorAt(raw, p - 1))
    || (Behind(p, v) < to && Connects(u, raw, p, {0x200d}, {Symbol}))
  }

  /** Symbols and operators as far as they go. */
  ghost predicate SymbolStretch(u: Unicode, raw: seq<Byte>, from: nat, to: nat) {
    && (forall p: nat, v: nat :: from <= p < to && Stands(raw, p, v) ==> InSymbols(u, raw, from, p, v, to))
    && !IsKind(u, raw, to, Symbol) && !Connects(u, raw, to, {0x200d}, {Symbol})
  }

  /** One kind as far as it goes. */
  ghost predicate PlainStretch(u: Unicode, raw: seq<Byte>, from: nat, to: nat, kind: Kind) {
    && (forall p: nat, v: nat :: from <= p < to && Stands(raw, p, v) ==> IsKind(u, raw, p, kind))
    && (kind == Opaque ==> forall p: nat, v: nat :: from <= p < to ==> !Stands(raw, p, v))
    && !IsKind(u, raw, to, kind)
  }

  /** What a span of a kind holds: it begins with that kind and ends where that kind ends. */
  ghost predicate SpanLaw(u: Unicode, raw: seq<Byte>, from: nat, to: nat, kind: Kind) {
    && IsKind(u, raw, from, kind)
    && match kind
       case Word => WordStretch(u, raw, from, to)
       case Number => NumberStretch(u, raw, from, to)
       case Symbol => SymbolStretch(u, raw, from, to)
       case _ => PlainStretch(u, raw, from, to, kind)
  }
}
