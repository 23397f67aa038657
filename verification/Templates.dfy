/** Suffix templates: their tokens, their text, and the 8-byte records they compile to. */
module Templates {
  import opened Common
  import opened ByteStrings
  import opened Utf8

  datatype TokenKind = IVowel | AVowel | DevoiceFirst | LastVoiced | LastNotVoiced | Append | Letter

  datatype TemplateToken = TemplateToken(kind: TokenKind, letter: string, append: bool)

  const RECORD_BYTES: nat := 8
  const NUL := "\0"

  // ----- texts

  function Mark(kind: TokenKind): string {
    match kind
    case IVowel => "I"
    case AVowel => "A"
    case DevoiceFirst => ">"
    case LastVoiced => "~"
    case LastNotVoiced => "!"
    case Append => "+"
    case Letter => ""
  }

  predicate IsVowel(kind: TokenKind) {
    kind == IVowel || kind == AVowel
  }

  /** The text of a token: vowels have no letter and may be appended, all others have one letter and are not. */
  function TokenText(t: TemplateToken): Option<string> {
    if IsVowel(t.kind) then (if t.letter != "" then None else Some((if t.append then "+" else "") + Mark(t.kind)))
    else if t.append || |t.letter| != 1 then None
    else Some(Mark(t.kind) + t.letter)
  }

  function Text(tokens: seq<TemplateToken>): Option<string> {
    if tokens == [] then Some("")
    else
      var n := |tokens| - 1;
      var front, last := Text(tokens[..n]), TokenText(tokens[n]);
      if front.None? || last.None? then None else Some(front.value + last.value)
  }

  /** Spells a template out, as the bundle loader does; fails when a token has a letter or a flag it must not have. */
  method ReconstructTemplate(tokens: seq<TemplateToken>) returns (r: Option<string>)
    ensures r == Text(tokens)
  {
    var output := "";
    for i := 0 to |tokens|
      invariant Text(tokens[..i]) == Some(output)
    {
      var t := tokens[i];
      assert tokens[..i + 1][..i] == tokens[..i];
      if IsVowel(t.kind) {
        if t.letter != "" {
          TextFails(tokens, i);
          return None;
        }
        output := output + ((if t.append then "+" else "") + Mark(t.kind));
      } else {
        if t.append || |t.letter| != 1 {
          TextFails(tokens, i);
          return None;
        }
        output := output + (Mark(t.kind) + t.letter);
      }
    }
    assert tokens[..|tokens|] == tokens;
    return Some(output);
  }

  lemma {:induction false} TextFails(tokens: seq<TemplateToken>, i: nat)
    requires i < |tokens| && TokenText(tokens[i]).None?
    ensures Text(tokens).None?
    decreases |tokens|
  {
    if i < |tokens| - 1 {
      TextFails(tokens[..|tokens| - 1], i);
    }
  }

  // ----- compilation

  function OpcodeOf(kind: TokenKind): (r: nat)
    ensures 1 <= r <= 7 && KindOf(r) == Some(kind)
  {
    match kind
    case IVowel => 1
    case AVowel => 2
    case DevoiceFirst => 3
    case LastVoiced => 4
    case LastNotVoiced => 5
    case Append => 6
    case Letter => 7
  }

  function KindOf(opcode: nat): (r: Option<TokenKind>)
    ensures r.Some? <==> 1 <= opcode <= 7
  {
    if opcode == 1 then Some(IVowel)
    else if opcode == 2 then Some(AVowel)
    else if opcode == 3 then Some(DevoiceFirst)
    else if opcode == 4 then Some(LastVoiced)
    else if opcode == 5 then Some(LastNotVoiced)
    else if opcode == 6 then Some(Append)
    else if opcode == 7 then Some(Letter)
    else None
  }

  /** The letter as a number; zero stands for no letter. */
  function ScalarOfLetter(letter: string): (v: nat)
    requires |letter| <= 1
    ensures Scalar(v)
  {
    if letter == "" then 0 else letter[0] as int
  }

  function TokenBytes(t: TemplateToken): (r: seq<nat>)
    requires |t.letter| <= 1
    ensures |r| == RECORD_BYTES
  {
    [OpcodeOf(t.kind), if t.append then 1 else 0, 0, 0] + Bytes32(ScalarOfLetter(t.letter))
  }

  predicate Compilable(tokens: seq<TemplateToken>) {
    forall i :: 0 <= i < |tokens| ==> |tokens[i].letter| <= 1
  }

  function AllBytes(tokens: seq<TemplateToken>): (r: seq<nat>)
    requires Compilable(tokens)
    ensures |r| == RECORD_BYTES * |tokens|
  {
    if tokens == [] then [] else AllBytes(tokens[..|tokens| - 1]) + TokenBytes(tokens[|tokens| - 1])
  }

  /** Appends the record of a token; fails exactly for more than one letter. */
  method CompileTemplateToken(output: seq<nat>, t: TemplateToken) returns (r: Option<seq<nat>>)
    ensures r.Some? <==> |t.letter| <= 1
    ensures r.Some? ==> r.value == output + TokenBytes(t)
  {
    if |t.letter| > 1 {
      return None;
    }
    var scalar := if t.letter == "" then 0 else t.letter[0] as int;
    return Some(output + [OpcodeOf(t.kind)] + [if t.append then 1 else 0] + [0, 0] + Bytes32(scalar));
  }

  // ----- reading back

  /** The token a record stands for. */
  function ReadToken(p: seq<nat>, at: nat): Option<TemplateToken> {
    if at + RECORD_BYTES > |p| || p[at + 2] != 0 || p[at + 3] != 0 then None
    else
      var kind, scalar := KindOf(p[at]), Value(p[at + 4..at + 8]);
      if kind.None? || p[at + 1] > 1 || !Scalar(scalar) then None
      else
        var t := TemplateToken(kind.value, if scalar == 0 then "" else [scalar as char], p[at + 1] == 1);
        if TokenText(t).Some? then Some(t) else None
  }

  function ReadTokens(p: seq<nat>, at: nat, count: nat): (r: Option<seq<TemplateToken>>)
    ensures r.Some? ==> |r.value| == count
  {
    if count == 0 then Some([])
    else
      var front, last := ReadTokens(p, at, count - 1), ReadToken(p, at + RECORD_BYTES * (count - 1));
      if front.None? || last.None? then None else Some(front.value + [last.value])
  }

  lemma RecordParts(p: seq<nat>, at: nat, t: TemplateToken)
    requires IsBytes(p) && |t.letter| <= 1
    ensures Occurs(p, at, TokenBytes(t)) <==>
            at + RECORD_BYTES <= |p| && p[at] == OpcodeOf(t.kind) && p[at + 1] == (if t.append then 1 else 0)
            && p[at + 2] == 0 && p[at + 3] == 0 && Value(p[at + 4..at + 8]) == ScalarOfLetter(t.letter)
  {
    hide Value, LittleEndian;
    var head, scalar := [OpcodeOf(t.kind), if t.append then 1 else 0, 0, 0], ScalarOfLetter(t.letter);
    OccursSplit(p, at, head, Bytes32(scalar));
    U32RoundTrip(p, at + 4, scalar);
    if at + RECORD_BYTES <= |p| {
      assert p[at..at + 4] == [p[at], p[at + 1], p[at + 2], p[at + 3]];
    }
  }

  /** A token with a text is read where, and only where, its record stands; but a NUL letter is written like no letter. */
  lemma TokenRoundTrip(p: seq<nat>, at: nat, t: TemplateToken)
    requires IsBytes(p) && TokenText(t).Some?
    ensures |t.letter| <= 1
    ensures ReadToken(p, at) == Some(t) <==> Occurs(p, at, TokenBytes(t)) && t.letter != NUL
    ensures Occurs(p, at, TokenBytes(t)) && t.letter == NUL ==> ReadToken(p, at).None?
  {
    hide Value, TokenBytes, Occurs;
    RecordParts(p, at, t);
    if t.letter != "" {
      assert t.letter == [t.letter[0]];
      assert t.letter[0] as int == 0 <==> t.letter == NUL;
    }
  }

  predicate HasNul(tokens: seq<TemplateToken>) {
    exists i :: 0 <= i < |tokens| && tokens[i].letter == NUL
  }

  lemma {:induction false} TextParts(tokens: seq<TemplateToken>)
    requires Text(tokens).Some?
    ensures forall i :: 0 <= i < |tokens| ==> TokenText(tokens[i]).Some?
    ensures Compilable(tokens)
  {
    if tokens != [] {
      TextParts(tokens[..|tokens| - 1]);
    }
  }

  /** A template is read where, and only where, its records stand and no letter of it is NUL. */
  lemma {:induction false} TemplateRoundTrip(p: seq<nat>, at: nat, tokens: seq<TemplateToken>)
    requires IsBytes(p) && Text(tokens).Some? && at <= |p|
    ensures Compilable(tokens)
    ensures ReadTokens(p, at, |tokens|) == Some(tokens) <==> Occurs(p, at, AllBytes(tokens)) && !HasNul(tokens)
    ensures Occurs(p, at, AllBytes(tokens)) && HasNul(tokens) ==> ReadTokens(p, at, |tokens|).None?
  {
    hide TokenBytes, Occurs, ReadToken, TokenText;
    TextParts(tokens);
    if tokens == [] {
      EmptyOccurs(p, at);
    } else {
      var n := |tokens| - 1;
      TemplateRoundTrip(p, at, tokens[..n]);
      TokenRoundTrip(p, at + RECORD_BYTES * n, tokens[n]);
      OccursSplit(p, at, AllBytes(tokens[..n]), TokenBytes(tokens[n]));
      LastToken(p, at, tokens);
      assert HasNul(tokens) <==> HasNul(tokens[..n]) || tokens[n].letter == NUL;
    }
  }

  lemma LastToken(p: seq<nat>, at: nat, tokens: seq<TemplateToken>)
    requires tokens != []
    ensures var n := |tokens| - 1;
            && (ReadTokens(p, at, n + 1) == Some(tokens) <==>
                  ReadTokens(p, at, n) == Some(tokens[..n]) && ReadToken(p, at + RECORD_BYTES * n) == Some(tokens[n]))
            && (ReadTokens(p, at, n + 1).None? <==> ReadTokens(p, at, n).None? || ReadToken(p, at + RECORD_BYTES * n).None?)
  {
    hide ReadToken;
    var n := |tokens| - 1;
    var rest, last := ReadTokens(p, at, n), ReadToken(p, at + RECORD_BYTES * n);
    if rest.Some? && last.Some? {
      SameLast(rest.value, last.value, tokens);
    }
  }

  lemma TokenBytesAreBytes(t: TemplateToken)
    requires |t.letter| <= 1
    ensures IsBytes(TokenBytes(t))
  {
  }

  /** The letter that is lost: a token the bundle loader accepts, whose compiled record the binary loader refuses. */
  lemma NulLetterIsRefused()
    ensures var tokens := [TemplateToken(Letter, NUL, false)];
            Text(tokens) == Some(NUL) && Compilable(tokens) && SectionText(AllBytes(tokens), 0, 1).None?
  {
    var tokens := [TemplateToken(Letter, NUL, false)];
    assert TokenText(tokens[0]) == Some("" + NUL) && "" + NUL == NUL;
    assert tokens[..0] == [];
    assert Text([]) == Some("");
    assert AllBytes(tokens) == TokenBytes(tokens[0]);
    TokenBytesAreBytes(tokens[0]);
    assert tokens[0].letter == NUL;
    assert AllBytes(tokens)[0..|AllBytes(tokens)|] == AllBytes(tokens);
    TemplateRoundTrip(AllBytes(tokens), 0, tokens);
  }

  /** Whatever is read has a text, and is what its text's tokens compile to. */
  lemma {:induction false} ReadIsCompiled(p: seq<nat>, at: nat, count: nat)
    requires IsBytes(p) && at <= |p| && ReadTokens(p, at, count).Some?
    ensures var tokens := ReadTokens(p, at, count).value;
            Text(tokens).Some? && Compilable(tokens) && Occurs(p, at, AllBytes(tokens)) && !HasNul(tokens)
  {
    hide TokenBytes, Occurs, AllBytes;
    var tokens := ReadTokens(p, at, count).value;
    HaveText(p, at, count);
    TemplateRoundTrip(p, at, tokens);
  }

  lemma {:induction false} HaveText(p: seq<nat>, at: nat, count: nat)
    requires ReadTokens(p, at, count).Some?
    ensures Text(ReadTokens(p, at, count).value).Some?
  {
    hide TokenText;
    if count > 0 {
      HaveText(p, at, count - 1);
      var front, last := ReadTokens(p, at, count - 1).value, ReadToken(p, at + RECORD_BYTES * (count - 1)).value;
      assert (front + [last])[..count - 1] == front;
      TokenHasText(p, at + RECORD_BYTES * (count - 1));
    }
  }

  lemma TokenHasText(p: seq<nat>, at: nat)
    requires ReadToken(p, at).Some?
    ensures TokenText(ReadToken(p, at).value).Some?
  {
  }

  /** The records, kind by kind: opcode and flag, the letter's scalar value behind them, and the text they stand for. */
  lemma RecordsAreListed(letter: char, append: bool)
    ensures var scalar := Bytes32(letter as nat);
            && TokenBytes(TemplateToken(IVowel, "", append))[..4] == [1, if append then 1 else 0, 0, 0]
            && TokenText(TemplateToken(IVowel, "", append)) == Some(if append then "+I" else "I")
            && TokenBytes(TemplateToken(AVowel, "", append))[..4] == [2, if append then 1 else 0, 0, 0]
            && TokenText(TemplateToken(AVowel, "", append)) == Some(if append then "+A" else "A")
            && TokenBytes(TemplateToken(DevoiceFirst, [letter], false)) == [3, 0, 0, 0] + scalar
            && TokenText(TemplateToken(DevoiceFirst, [letter], false)) == Some(['>', letter])
            && TokenBytes(TemplateToken(LastVoiced, [letter], false)) == [4, 0, 0, 0] + scalar
            && TokenText(TemplateToken(LastVoiced, [letter], false)) == Some(['~', letter])
            && TokenBytes(TemplateToken(LastNotVoiced, [letter], false)) == [5, 0, 0, 0] + scalar
            && TokenText(TemplateToken(LastNotVoiced, [letter], false)) == Some(['!', letter])
            && TokenBytes(TemplateToken(Append, [letter], false)) == [6, 0, 0, 0] + scalar
            && TokenText(TemplateToken(Append, [letter], false)) == Some(['+', letter])
            && TokenBytes(TemplateToken(Letter, [letter], false)) == [7, 0, 0, 0] + scalar
            && TokenText(TemplateToken(Letter, [letter], false)) == Some([letter])
  {
    hide LittleEndian;
    assert "+" + "I" == "+I" && "+" + "A" == "+A" && "" + "I" == "I" && "" + "A" == "A";
    assert ">" + [letter] == ['>', letter] && "~" + [letter] == ['~', letter] && "!" + [letter] == ['!', letter];
    assert "+" + [letter] == ['+', letter] && "" + [letter] == [letter];
  }

  /** The text of the records from `start` on; nothing when one of them is not a record. */
  function SectionText(section: seq<nat>, start: nat, count: nat): Option<string> {
    var tokens := ReadTokens(section, RECORD_BYTES * start, count);
    if tokens.None? then None else Text(tokens.value)
  }

  /** Spells the text of compiled records out. */
  method ReconstructBinaryTemplate(section: seq<nat>, start: nat, count: nat) returns (r: Option<string>)
    ensures r == SectionText(section, start, count)
  {
    hide Value, TokenText;
    var output := "";
    var i := 0;
    while i < count
      invariant 0 <= i <= count
      invariant ReadTokens(section, RECORD_BYTES * start, i).Some?
      invariant Text(ReadTokens(section, RECORD_BYTES * start, i).value) == Some(output)
    {
      var text := ReconstructRecord(section, RECORD_BYTES * (start + i));
      ghost var at := RECORD_BYTES * start;
      assert RECORD_BYTES * (start + i) == at + RECORD_BYTES * i;
      if text.None? {
        ReadFails(section, at, i, count);
        return None;
      }
      ghost var front, last := ReadTokens(section, at, i).value, ReadToken(section, at + RECORD_BYTES * i).value;
      assert (front + [last])[..i] == front;
      output := output + text.value;
      i := i + 1;
    }
    return Some(output);
  }

  lemma {:induction false} ReadFails(p: seq<nat>, at: nat, i: nat, count: nat)
    requires i < count && ReadToken(p, at + RECORD_BYTES * i).None?
    ensures ReadTokens(p, at, count).None?
    decreases count
  {
    if i < count - 1 {
      ReadFails(p, at, i, count - 1);
    }
  }

  /** The text of one record: its reserved bytes, letter, opcode and flag in turn. */
  method ReconstructRecord(section: seq<nat>, at: nat) returns (text: Option<string>)
    ensures text == if ReadToken(section, at).None? then None else TokenText(ReadToken(section, at).value)
  {
    hide Value;
    if at + RECORD_BYTES > |section| || section[at + 2] != 0 || section[at + 3] != 0 {
      return None;
    }
    var opcode, append, scalar := section[at], section[at + 1], Value(section[at + 4..at + 8]);
    if !Scalar(scalar) {
      return None;
    }
    var letter := if scalar == 0 then "" else [scalar as char];
    if opcode == 1 || opcode == 2 {
      if letter != "" || append > 1 {
        return None;
      }
      return Some((if append == 1 then "+" else "") + if opcode == 1 then "I" else "A");
    }
    if opcode < 1 || opcode > 7 || append != 0 || letter == "" {
      return None;
    }
    var mark := if opcode == 3 then ">" else if opcode == 4 then "~" else if opcode == 5 then "!" else if opcode == 6 then "+" else "";
    return Some(mark + letter);
  }
}
