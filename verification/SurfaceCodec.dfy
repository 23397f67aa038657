/** Entries of the compiled surface table and their binary form. */
module SurfaceCodec {
  import opened Common
  import opened ByteStrings
  import opened Utf8

  type Text = seq<Byte>

  datatype Candidate = Candidate(cuts: seq<nat>, unknown: bool, javaHash: nat, canonical: Text, headword: Text, igs: seq<Text>)

  datatype Entry = Entry(surface: Text, candidates: seq<Candidate>)

  /** Cuts lie strictly inside the surface and increase. */
  predicate ValidCuts(cuts: seq<nat>, length: nat) {
    && (forall i :: 0 <= i < |cuts| ==> 0 < cuts[i] < length)
    && (forall i, j :: 0 <= i < j < |cuts| ==> cuts[i] < cuts[j])
  }

  predicate ValidText(t: Text) {
    |t| < U32_LIMIT && WellFormed(t)
  }

  /** A candidate the table can hold: increasing cuts inside the surface, 32-bit hash and counts, texts in UTF-8. */
  predicate ValidCandidate(c: Candidate, length: nat) {
    && ValidCuts(c.cuts, length) && |c.cuts| < U32_LIMIT && c.javaHash < U32_LIMIT
    && ValidText(c.canonical) && ValidText(c.headword)
    && |c.igs| < U32_LIMIT && forall i :: 0 <= i < |c.igs| ==> ValidText(c.igs[i])
  }

  predicate AllValid(cs: seq<Candidate>, length: nat) {
    forall i :: 0 <= i < |cs| ==> ValidCandidate(cs[i], length)
  }

  predicate ValidEntry(e: Entry) {
    && e.surface != [] && ValidText(e.surface)
    && 0 < |e.candidates| < U32_LIMIT
    && AllValid(e.candidates, |e.surface|)
  }

  // ----- encoding

  function EncodeTexts(texts: seq<Text>): seq<nat> {
    if texts == [] then []
    else EncodeTexts(texts[..|texts| - 1]) + (Bytes32(|texts[|texts| - 1]|) + texts[|texts| - 1])
  }

  /** Counts and flags of a candidate: 24 bytes. */
  function EncodeHead(c: Candidate): seq<nat> {
    Bytes32(|c.cuts|) + ([if c.unknown then 1 else 0, 0, 0, 0] + (Bytes32(c.javaHash) +
      (Bytes32(|c.canonical|) + (Bytes32(|c.headword|) + Bytes32(|c.igs|)))))
  }

  function EncodeBody(c: Candidate): seq<nat> {
    Words(c.cuts) + (c.canonical + (c.headword + EncodeTexts(c.igs)))
  }

  function EncodeCandidate(c: Candidate): seq<nat> {
    EncodeHead(c) + EncodeBody(c)
  }

  function EncodeCandidates(cs: seq<Candidate>): seq<nat> {
    if cs == [] then [] else EncodeCandidates(cs[..|cs| - 1]) + EncodeCandidate(cs[|cs| - 1])
  }

  function EncodeEntry(e: Entry): seq<nat> {
    Bytes32(|e.surface|) + (Bytes32(|e.candidates|) + (e.surface + EncodeCandidates(e.candidates)))
  }

  function EncodeEntries(es: seq<Entry>): seq<nat> {
    if es == [] then [] else EncodeEntries(es[..|es| - 1]) + EncodeEntry(es[|es| - 1])
  }

  // ----- decoding

  function ReadText(p: seq<Byte>, at: nat, length: nat): Option<Text> {
    if at + length <= |p| && WellFormed(p[at..at + length]) then Some(p[at..at + length]) else None
  }

  /** A text behind its length. */
  function ReadPrefixed(p: seq<Byte>, at: nat): Option<Text> {
    var length := ReadU32(p, at);
    if length.None? then None else ReadText(p, at + 4, length.value)
  }

  function ReadTexts(p: seq<Byte>, at: nat, count: nat): Option<seq<Text>>
    decreases count
  {
    if count == 0 then Some([])
    else
      var rest := ReadTexts(p, at, count - 1);
      if rest.None? then None
      else
        var text := ReadPrefixed(p, at + |EncodeTexts(rest.value)|);
        if text.None? then None else Some(rest.value + [text.value])
  }

  datatype Head = Head(cutCount: nat, unknown: bool, javaHash: nat, canonicalLength: nat, headwordLength: nat, igCount: nat)

  function HeadOf(c: Candidate): Head {
    Head(|c.cuts|, c.unknown, c.javaHash, |c.canonical|, |c.headword|, |c.igs|)
  }

  function ReadHead(p: seq<Byte>, at: nat): Option<Head> {
    if at + 24 > |p| || p[at + 4] > 1 || p[at + 5] != 0 || p[at + 6] != 0 || p[at + 7] != 0 then None
    else
      Some(Head(Value(p[at..at + 4]), p[at + 4] == 1, Value(p[at + 8..at + 12]), Value(p[at + 12..at + 16]),
                Value(p[at + 16..at + 20]), Value(p[at + 20..at + 24])))
  }

  function ReadBody(p: seq<Byte>, at: nat, head: Head, length: nat): Option<Candidate> {
    var cuts := ReadWords(p, at, head.cutCount);
    var canonicalAt := at + 4 * head.cutCount;
    var headwordAt := canonicalAt + head.canonicalLength;
    var canonical := ReadText(p, canonicalAt, head.canonicalLength);
    var headword := ReadText(p, headwordAt, head.headwordLength);
    var igs := ReadTexts(p, headwordAt + head.headwordLength, head.igCount);
    if cuts.None? || !ValidCuts(cuts.value, length) || canonical.None? || headword.None? || igs.None? then None
    else Some(Candidate(cuts.value, head.unknown, head.javaHash, canonical.value, headword.value, igs.value))
  }

  function ReadCandidate(p: seq<Byte>, at: nat, length: nat): Option<Candidate> {
    var head := ReadHead(p, at);
    if head.None? then None else ReadBody(p, at + 24, head.value, length)
  }

  // ----- texts

  lemma AllBytes(p: seq<Byte>)
    ensures IsBytes(p)
  {
  }

  lemma TextRoundTrip(p: seq<Byte>, at: nat, t: Text)
    requires WellFormed(t)
    ensures Occurs(p, at, t) <==> ReadText(p, at, |t|) == Some(t)
  {
  }

  lemma {:induction false} TextsRoundTrip(p: seq<Byte>, at: nat, texts: seq<Text>)
    requires at <= |p| && forall i :: 0 <= i < |texts| ==> ValidText(texts[i])
    ensures Occurs(p, at, EncodeTexts(texts)) <==> ReadTexts(p, at, |texts|) == Some(texts)
    decreases |texts|
  {
    hide Occurs, WellFormed, Bytes32, ReadPrefixed, ValidText;
    if texts == [] {
      EmptyOccurs(p, at);
    } else {
      var n := |texts| - 1;
      var last := texts[n];
      TextsRoundTrip(p, at, texts[..n]);
      var next := at + |EncodeTexts(texts[..n])|;
      OccursSplit(p, at, EncodeTexts(texts[..n]), Bytes32(|last|) + last);
      PrefixedText(p, next, last);
      LastText(p, at, texts);
    }
  }

  lemma PrefixedText(p: seq<Byte>, at: nat, t: Text)
    requires ValidText(t)
    ensures Occurs(p, at, Bytes32(|t|) + t) <==> ReadPrefixed(p, at) == Some(t)
  {
    hide Occurs, WellFormed;
    AllBytes(p);
    U32RoundTrip(p, at, |t|);
    OccursSplit(p, at, Bytes32(|t|), t);
    TextRoundTrip(p, at + 4, t);
  }

  lemma LastText(p: seq<Byte>, at: nat, texts: seq<Text>)
    requires texts != []
    ensures var n := |texts| - 1;
            ReadTexts(p, at, |texts|) == Some(texts) <==>
            ReadTexts(p, at, n) == Some(texts[..n]) && ReadPrefixed(p, at + |EncodeTexts(texts[..n])|) == Some(texts[n])
  {
    hide ReadPrefixed, EncodeTexts;
    var n := |texts| - 1;
    var rest := ReadTexts(p, at, n);
    if rest.Some? {
      var text := ReadPrefixed(p, at + |EncodeTexts(rest.value)|);
      if text.Some? {
        SameLast(rest.value, text.value, texts);
      }
    }
  }

  lemma PrefixedRead(p: seq<Byte>, at: nat)
    requires ReadPrefixed(p, at).Some?
    ensures var t := ReadPrefixed(p, at).value;
            ValidText(t) && at + |Bytes32(|t|) + t| <= |p|
  {
    hide WellFormed;
    AllBytes(p);
    ReadsFit(p, at);
  }

  lemma {:induction false} TextsRead(p: seq<Byte>, at: nat, count: nat)
    requires at <= |p| && ReadTexts(p, at, count).Some?
    ensures var texts := ReadTexts(p, at, count).value;
            && |texts| == count && (forall i :: 0 <= i < |texts| ==> ValidText(texts[i]))
            && at + |EncodeTexts(texts)| <= |p|
    decreases count
  {
    hide ValidText, Bytes32, ReadPrefixed;
    if count > 0 {
      TextsRead(p, at, count - 1);
      var rest := ReadTexts(p, at, count - 1).value;
      PrefixedRead(p, at + |EncodeTexts(rest)|);
      assert ReadTexts(p, at, count).value[..count - 1] == rest;
    }
  }

  lemma {:induction false} TextsPrefix(p: seq<Byte>, at: nat, i: nat, count: nat)
    requires i <= count && ReadTexts(p, at, count).Some?
    ensures ReadTexts(p, at, i).Some?
    decreases count
  {
    hide ReadPrefixed, EncodeTexts;
    if i < count {
      TextsPrefix(p, at, i, count - 1);
    }
  }

  // ----- candidates

  lemma FlagBytes(p: seq<Byte>, at: nat, unknown: bool)
    ensures Occurs(p, at, [if unknown then 1 else 0, 0, 0, 0]) <==>
            at + 4 <= |p| && p[at] == (if unknown then 1 else 0) && p[at + 1] == 0 && p[at + 2] == 0 && p[at + 3] == 0
  {
    if at + 4 <= |p| {
      assert p[at..at + 4] == [p[at], p[at + 1], p[at + 2], p[at + 3]];
    }
  }

  lemma HeadRoundTrip(p: seq<Byte>, at: nat, c: Candidate)
    requires |c.cuts| < U32_LIMIT && c.javaHash < U32_LIMIT && |c.canonical| < U32_LIMIT && |c.headword| < U32_LIMIT && |c.igs| < U32_LIMIT
    ensures Occurs(p, at, EncodeHead(c)) <==> ReadHead(p, at) == Some(HeadOf(c))
    ensures |EncodeHead(c)| == 24
  {
    hide Occurs, LittleEndian, Value;
    AllBytes(p);
    var igs := Bytes32(|c.igs|);
    var headword := Bytes32(|c.headword|) + igs;
    var canonical := Bytes32(|c.canonical|) + headword;
    var hash := Bytes32(c.javaHash) + canonical;
    var flags := [if c.unknown then 1 else 0, 0, 0, 0];
    OccursSplit(p, at, Bytes32(|c.cuts|), flags + hash);
    OccursSplit(p, at + 4, flags, hash);
    OccursSplit(p, at + 8, Bytes32(c.javaHash), canonical);
    OccursSplit(p, at + 12, Bytes32(|c.canonical|), headword);
    OccursSplit(p, at + 16, Bytes32(|c.headword|), igs);
    U32RoundTrip(p, at, |c.cuts|);
    FlagBytes(p, at + 4, c.unknown);
    U32RoundTrip(p, at + 8, c.javaHash);
    U32RoundTrip(p, at + 12, |c.canonical|);
    U32RoundTrip(p, at + 16, |c.headword|);
    U32RoundTrip(p, at + 20, |c.igs|);
  }

  lemma BodyRoundTrip(p: seq<Byte>, at: nat, c: Candidate, length: nat)
    requires at <= |p| && ValidCandidate(c, length) && length <= U32_LIMIT
    ensures Occurs(p, at, EncodeBody(c)) <==> ReadBody(p, at, HeadOf(c), length) == Some(c)
  {
    hide Occurs, WellFormed, Words, ReadWords, EncodeTexts, ReadTexts;
    AllBytes(p);
    WordsRoundTrip(p, at, c.cuts);
    WordsLength(c.cuts);
    var canonicalAt := at + 4 * |c.cuts|;
    var headwordAt := canonicalAt + |c.canonical|;
    OccursSplit(p, at, Words(c.cuts), c.canonical + (c.headword + EncodeTexts(c.igs)));
    OccursSplit(p, canonicalAt, c.canonical, c.headword + EncodeTexts(c.igs));
    OccursSplit(p, headwordAt, c.headword, EncodeTexts(c.igs));
    TextRoundTrip(p, canonicalAt, c.canonical);
    TextRoundTrip(p, headwordAt, c.headword);
    var igsAt := headwordAt + |c.headword|;
    if igsAt <= |p| {
      TextsRoundTrip(p, igsAt, c.igs);
    } else {
      TextEnds(p, headwordAt, |c.headword|);
      if Occurs(p, igsAt, EncodeTexts(c.igs)) {
        OccursWithin(p, igsAt, EncodeTexts(c.igs));
      }
    }
  }

  lemma TextEnds(p: seq<Byte>, at: nat, length: nat)
    ensures ReadText(p, at, length).Some? ==> at + length <= |p|
  {
  }

  /** A valid candidate is read where, and only where, its encoding stands. */
  lemma CandidateRoundTrip(p: seq<Byte>, at: nat, c: Candidate, length: nat)
    requires ValidCandidate(c, length) && length <= U32_LIMIT
    ensures Occurs(p, at, EncodeCandidate(c)) <==> ReadCandidate(p, at, length) == Some(c)
    ensures |EncodeCandidate(c)| == 24 + |EncodeBody(c)|
  {
    hide Occurs, EncodeHead, EncodeBody, ReadHead, ReadBody, WellFormed;
    HeadRoundTrip(p, at, c);
    OccursSplit(p, at, EncodeHead(c), EncodeBody(c));
    if ReadHead(p, at).Some? {
      HeadEnds(p, at);
      BodyRoundTrip(p, at + 24, c, length);
      BodyKeepsHead(p, at + 24, ReadHead(p, at).value, length);
    }
  }

  lemma HeadEnds(p: seq<Byte>, at: nat)
    requires ReadHead(p, at).Some?
    ensures at + 24 <= |p|
  {
  }

  lemma BodyKeepsHead(p: seq<Byte>, at: nat, head: Head, length: nat)
    requires at <= |p|
    ensures ReadBody(p, at, head, length).Some? ==> HeadOf(ReadBody(p, at, head, length).value) == head
  {
    hide ReadWords, ReadTexts, WellFormed, ValidCuts;
    AllBytes(p);
    if ReadBody(p, at, head, length).Some? {
      WordsBounds(p, at, head.cutCount);
      TextsRead(p, at + 4 * head.cutCount + head.canonicalLength + head.headwordLength, head.igCount);
    }
  }

  lemma CandidateRead(p: seq<Byte>, at: nat, length: nat)
    requires ReadCandidate(p, at, length).Some? && length <= U32_LIMIT
    ensures var c := ReadCandidate(p, at, length).value;
            ValidCandidate(c, length) && Occurs(p, at, EncodeCandidate(c)) && at + |EncodeCandidate(c)| <= |p|
  {
    hide Occurs, EncodeCandidate, ReadWords, ReadTexts, WellFormed, ValidCuts, Value;
    AllBytes(p);
    HeadEnds(p, at);
    HeadFits(p, at);
    var c := ReadCandidate(p, at, length).value;
    var head := ReadHead(p, at).value;
    BodyKeepsHead(p, at + 24, head, length);
    TextEnds(p, at + 24 + 4 * head.cutCount + head.canonicalLength, head.headwordLength);
    TextsRead(p, at + 24 + 4 * head.cutCount + head.canonicalLength + head.headwordLength, head.igCount);
    CandidateRoundTrip(p, at, c, length);
    OccursWithin(p, at, EncodeCandidate(c));
  }

  lemma HeadFits(p: seq<Byte>, at: nat)
    requires ReadHead(p, at).Some?
    ensures var h := ReadHead(p, at).value;
            && h.cutCount < U32_LIMIT && h.javaHash < U32_LIMIT && h.canonicalLength < U32_LIMIT && h.headwordLength < U32_LIMIT
            && h.igCount < U32_LIMIT
  {
    hide Value;
    AllBytes(p);
    ReadsFit(p, at);
    ReadsFit(p, at + 8);
    ReadsFit(p, at + 12);
    ReadsFit(p, at + 16);
    ReadsFit(p, at + 20);
  }

  function ReadCandidates(p: seq<Byte>, at: nat, count: nat, length: nat): Option<seq<Candidate>>
    decreases count
  {
    if count == 0 then Some([])
    else
      var rest := ReadCandidates(p, at, count - 1, length);
      if rest.None? then None
      else
        var last := ReadCandidate(p, at + |EncodeCandidates(rest.value)|, length);
        if last.None? then None else Some(rest.value + [last.value])
  }

  lemma {:induction false} CandidatesRoundTrip(p: seq<Byte>, at: nat, cs: seq<Candidate>, length: nat)
    requires at <= |p| && length <= U32_LIMIT && AllValid(cs, length)
    ensures Occurs(p, at, EncodeCandidates(cs)) <==> ReadCandidates(p, at, |cs|, length) == Some(cs)
    decreases |cs|
  {
    hide Occurs, EncodeCandidate, ReadCandidate, ValidCandidate;
    if cs == [] {
      EmptyOccurs(p, at);
    } else {
      var n := |cs| - 1;
      CandidatesRoundTrip(p, at, cs[..n], length);
      var next := at + |EncodeCandidates(cs[..n])|;
      OccursSplit(p, at, EncodeCandidates(cs[..n]), EncodeCandidate(cs[n]));
      CandidateRoundTrip(p, next, cs[n], length);
      LastCandidate(p, at, cs, length);
    }
  }

  lemma LastCandidate(p: seq<Byte>, at: nat, cs: seq<Candidate>, length: nat)
    requires cs != []
    ensures var n := |cs| - 1;
            ReadCandidates(p, at, |cs|, length) == Some(cs) <==>
            ReadCandidates(p, at, n, length) == Some(cs[..n]) && ReadCandidate(p, at + |EncodeCandidates(cs[..n])|, length) == Some(cs[n])
  {
    hide ReadCandidate, EncodeCandidates;
    var rest := ReadCandidates(p, at, |cs| - 1, length);
    if rest.Some? {
      var last := ReadCandidate(p, at + |EncodeCandidates(rest.value)|, length);
      if last.Some? {
        SameLast(rest.value, last.value, cs);
      }
    }
  }

  lemma {:induction false} CandidatesRead(p: seq<Byte>, at: nat, count: nat, length: nat)
    requires at <= |p| && length <= U32_LIMIT && ReadCandidates(p, at, count, length).Some?
    ensures var cs := ReadCandidates(p, at, count, length).value;
            && |cs| == count && AllValid(cs, length)
            && at + |EncodeCandidates(cs)| <= |p|
    decreases count
  {
    hide EncodeCandidate, ReadCandidate, ValidCandidate;
    if count > 0 {
      CandidatesRead(p, at, count - 1, length);
      var rest := ReadCandidates(p, at, count - 1, length).value;
      CandidateRead(p, at + |EncodeCandidates(rest)|, length);
      assert ReadCandidates(p, at, count, length).value[..count - 1] == rest;
    }
  }

  lemma {:induction false} CandidatesPrefix(p: seq<Byte>, at: nat, i: nat, count: nat, length: nat)
    requires i <= count && ReadCandidates(p, at, count, length).Some?
    ensures ReadCandidates(p, at, i, length).Some?
    decreases count
  {
    hide ReadCandidate, EncodeCandidates;
    if i < count {
      CandidatesPrefix(p, at, i, count - 1, length);
    }
  }

  // ----- entries

  function ReadEntry(p: seq<Byte>, at: nat): Option<Entry> {
    var surfaceLength, candidateCount := ReadU32(p, at), ReadU32(p, at + 4);
    if surfaceLength.None? || candidateCount.None? || candidateCount.value == 0 then None
    else
      var surface := ReadText(p, at + 8, surfaceLength.value);
      if surface.None? || surface.value == [] then None
      else
        var candidates := ReadCandidates(p, at + 8 + surfaceLength.value, candidateCount.value, surfaceLength.value);
        if candidates.None? then None else Some(Entry(surface.value, candidates.value))
  }

  /** A valid entry is read where, and only where, its encoding stands. */
  lemma EntryRoundTrip(p: seq<Byte>, at: nat, e: Entry)
    requires ValidEntry(e)
    ensures Occurs(p, at, EncodeEntry(e)) <==> ReadEntry(p, at) == Some(e)
    ensures |EncodeEntry(e)| == 8 + |e.surface| + |EncodeCandidates(e.candidates)|
  {
    hide Occurs, WellFormed, EncodeCandidates, ReadCandidates, ReadU32, Bytes32, ValidCandidate;
    AllBytes(p);
    Length32(|e.surface|);
    Length32(|e.candidates|);
    var body := e.surface + EncodeCandidates(e.candidates);
    OccursSplit(p, at, Bytes32(|e.surface|), Bytes32(|e.candidates|) + body);
    OccursSplit(p, at + 4, Bytes32(|e.candidates|), body);
    OccursSplit(p, at + 8, e.surface, EncodeCandidates(e.candidates));
    U32RoundTrip(p, at, |e.surface|);
    U32RoundTrip(p, at + 4, |e.candidates|);
    TextRoundTrip(p, at + 8, e.surface);
    TextEnds(p, at + 8, |e.surface|);
    var start := at + 8 + |e.surface|;
    if start <= |p| {
      CandidatesRoundTrip(p, start, e.candidates, |e.surface|);
    } else if Occurs(p, start, EncodeCandidates(e.candidates)) {
      OccursWithin(p, start, EncodeCandidates(e.candidates));
    }
    if ReadEntry(p, at).Some? {
      EntryKeepsCounts(p, at);
    }
  }

  lemma Length32(n: nat)
    ensures |Bytes32(n)| == 4
  {
  }

  lemma EntryKeepsCounts(p: seq<Byte>, at: nat)
    requires ReadEntry(p, at).Some?
    ensures var e := ReadEntry(p, at).value;
            && ReadU32(p, at) == Some(|e.surface|) && ReadU32(p, at + 4) == Some(|e.candidates|)
            && ReadText(p, at + 8, |e.surface|) == Some(e.surface) && at + 8 + |e.surface| <= |p|
            && ReadCandidates(p, at + 8 + |e.surface|, |e.candidates|, |e.surface|) == Some(e.candidates)
            && e.surface != [] && e.candidates != [] && ValidEntry(e)
  {
    hide WellFormed, ReadCandidates, ValidCandidate;
    AllBytes(p);
    ReadsFit(p, at);
    ReadsFit(p, at + 4);
    CandidatesRead(p, at + 8 + ReadU32(p, at).value, ReadU32(p, at + 4).value, ReadU32(p, at).value);
  }

  lemma EntryRead(p: seq<Byte>, at: nat)
    requires ReadEntry(p, at).Some?
    ensures var e := ReadEntry(p, at).value;
            ValidEntry(e) && Occurs(p, at, EncodeEntry(e)) && at + |EncodeEntry(e)| <= |p|
  {
    hide Occurs, ReadEntry, EncodeEntry, ValidEntry;
    EntryKeepsCounts(p, at);
    EntryRoundTrip(p, at, ReadEntry(p, at).value);
    OccursWithin(p, at, EncodeEntry(ReadEntry(p, at).value));
  }

  /** The first entries of a payload. */
  function ReadEntries(p: seq<Byte>, count: nat): Option<seq<Entry>>
    decreases count
  {
    if count == 0 then Some([])
    else
      var rest := ReadEntries(p, count - 1);
      if rest.None? then None
      else
        var last := ReadEntry(p, |EncodeEntries(rest.value)|);
        if last.None? then None else Some(rest.value + [last.value])
  }

  predicate ValidEntries(es: seq<Entry>) {
    forall i :: 0 <= i < |es| ==> ValidEntry(es[i])
  }

  lemma {:induction false} EntriesRoundTrip(p: seq<Byte>, es: seq<Entry>)
    requires ValidEntries(es)
    ensures Occurs(p, 0, EncodeEntries(es)) <==> ReadEntries(p, |es|) == Some(es)
    decreases |es|
  {
    hide Occurs, EncodeEntry, ReadEntry, ValidEntry;
    if es == [] {
      EmptyOccurs(p, 0);
    } else {
      var n := |es| - 1;
      EntriesRoundTrip(p, es[..n]);
      OccursSplit(p, 0, EncodeEntries(es[..n]), EncodeEntry(es[n]));
      EntryRoundTrip(p, |EncodeEntries(es[..n])|, es[n]);
      LastEntry(p, es);
    }
  }

  lemma LastEntry(p: seq<Byte>, es: seq<Entry>)
    requires es != []
    ensures var n := |es| - 1;
            ReadEntries(p, |es|) == Some(es) <==>
            ReadEntries(p, n) == Some(es[..n]) && ReadEntry(p, |EncodeEntries(es[..n])|) == Some(es[n])
  {
    hide ReadEntry, EncodeEntries;
    var rest := ReadEntries(p, |es| - 1);
    if rest.Some? {
      var last := ReadEntry(p, |EncodeEntries(rest.value)|);
      if last.Some? {
        SameLast(rest.value, last.value, es);
      }
    }
  }

  lemma {:induction false} EntriesRead(p: seq<Byte>, count: nat)
    requires ReadEntries(p, count).Some?
    ensures var es := ReadEntries(p, count).value;
            |es| == count && ValidEntries(es) && |EncodeEntries(es)| <= |p|
    decreases count
  {
    hide EncodeEntry, ReadEntry, ValidEntry;
    if count > 0 {
      EntriesRead(p, count - 1);
      var rest := ReadEntries(p, count - 1).value;
      EntryRead(p, |EncodeEntries(rest)|);
      assert ReadEntries(p, count).value[..count - 1] == rest;
    }
  }

  lemma {:induction false} EntriesPrefix(p: seq<Byte>, i: nat, count: nat)
    requires i <= count && ReadEntries(p, count).Some?
    ensures ReadEntries(p, i).Some?
    decreases count
  {
    hide ReadEntry, EncodeEntries;
    if i < count {
      EntriesPrefix(p, i, count - 1);
    }
  }

  /** A payload of exactly these entries decodes to them, and any payload that decodes to its end is their encoding. */
  lemma PayloadRoundTrip(p: seq<Byte>, es: seq<Entry>)
    requires ValidEntries(es)
    ensures p == EncodeEntries(es) <==> ReadEntries(p, |es|) == Some(es) && |EncodeEntries(es)| == |p|
  {
    hide EncodeEntries, ReadEntries, ValidEntry;
    EntriesRoundTrip(p, es);
    assert p[0..|p|] == p;
  }
}
