/** The payload of the compiled surface table, byte by byte. */
module SurfaceLayout {
  import opened ByteStrings
  import opened SurfaceCodec

  // ----- sizes

  /** The first `i` texts, each behind a 4-byte length. */
  function TextsSize(texts: seq<Text>, i: nat): nat
    requires i <= |texts|
  {
    if i == 0 then 0 else TextsSize(texts, i - 1) + 4 + |texts[i - 1]|
  }

  function CandidateSize(c: Candidate): nat {
    24 + 4 * |c.cuts| + |c.canonical| + |c.headword| + TextsSize(c.igs, |c.igs|)
  }

  function CandidatesSize(cs: seq<Candidate>, i: nat): nat
    requires i <= |cs|
  {
    if i == 0 then 0 else CandidatesSize(cs, i - 1) + CandidateSize(cs[i - 1])
  }

  function EntrySize(e: Entry): nat {
    8 + |e.surface| + CandidatesSize(e.candidates, |e.candidates|)
  }

  function EntriesSize(es: seq<Entry>, i: nat): nat
    requires i <= |es|
  {
    if i == 0 then 0 else EntriesSize(es, i - 1) + EntrySize(es[i - 1])
  }

  // ----- what stands where

  ghost predicate TextAt(p: seq<nat>, at: nat, t: Text) {
    NumberAt(p, at, 4, |t|) && Occurs(p, at + 4, t)
  }

  /** The number of cuts, the unknown flag in four bytes, the hash, the lengths of both texts and the number of groups;
      then the cuts, the texts and the groups. */
  ghost predicate CandidateAt(p: seq<nat>, at: nat, c: Candidate) {
    var body := at + 24 + 4 * |c.cuts|;
    var groups := body + |c.canonical| + |c.headword|;
    && NumberAt(p, at, 4, |c.cuts|) && NumberAt(p, at + 4, 4, if c.unknown then 1 else 0) && NumberAt(p, at + 8, 4, c.javaHash)
    && NumberAt(p, at + 12, 4, |c.canonical|) && NumberAt(p, at + 16, 4, |c.headword|) && NumberAt(p, at + 20, 4, |c.igs|)
    && (forall j :: 0 <= j < |c.cuts| ==> NumberAt(p, at + 24 + 4 * j, 4, c.cuts[j]))
    && Occurs(p, body, c.canonical) && Occurs(p, body + |c.canonical|, c.headword)
    && forall j :: 0 <= j < |c.igs| ==> TextAt(p, groups + TextsSize(c.igs, j), c.igs[j])
  }

  /** The length of the surface, the number of candidates, the surface, and the candidates one after the other. */
  ghost predicate EntryAt(p: seq<nat>, at: nat, e: Entry) {
    && NumberAt(p, at, 4, |e.surface|) && NumberAt(p, at + 4, 4, |e.candidates|) && Occurs(p, at + 8, e.surface)
    && forall j :: 0 <= j < |e.candidates| ==> CandidateAt(p, at + 8 + |e.surface| + CandidatesSize(e.candidates, j), e.candidates[j])
  }

  ghost predicate EntriesAt(p: seq<nat>, at: nat, es: seq<Entry>) {
    forall i :: 0 <= i < |es| ==> EntryAt(p, at + EntriesSize(es, i), es[i])
  }

  // ----- texts and cuts

  lemma {:induction false} TextsSizePrefix(texts: seq<Text>, n: nat, i: nat)
    requires i <= n <= |texts|
    ensures TextsSize(texts[..n], i) == TextsSize(texts, i)
  {
    if i > 0 {
      TextsSizePrefix(texts, n, i - 1);
    }
  }

  lemma EncodeTextsNext(texts: seq<Text>)
    ensures texts == [] ==> EncodeTexts(texts) == [] && TextsSize(texts, 0) == 0
    ensures texts != [] ==>
              var n := |texts| - 1;
              && EncodeTexts(texts) == EncodeTexts(texts[..n]) + (Bytes32(|texts[n]|) + texts[n])
              && TextsSize(texts, n + 1) == TextsSize(texts, n) + 4 + |texts[n]| && |Bytes32(|texts[n]|)| == 4
  {
  }

  lemma TextIsLaid(p: seq<nat>, at: nat, t: Text)
    requires Occurs(p, at, Bytes32(|t|) + t)
    ensures TextAt(p, at, t)
  {
    hide LittleEndian, Occurs, NumberAt;
    OccursSplit(p, at, Bytes32(|t|), t);
    DigitsStand(p, at, 4, |t|);
  }

  lemma {:induction false} TextsAreLaid(p: seq<nat>, at: nat, texts: seq<Text>)
    requires Occurs(p, at, EncodeTexts(texts))
    ensures |EncodeTexts(texts)| == TextsSize(texts, |texts|)
    ensures forall j :: 0 <= j < |texts| ==> TextAt(p, at + TextsSize(texts, j), texts[j])
    decreases |texts|
  {
    hide *;
    EncodeTextsNext(texts);
    if texts != [] {
      var n := |texts| - 1;
      var front := texts[..n];
      OccursSplit(p, at, EncodeTexts(front), Bytes32(|texts[n]|) + texts[n]);
      TextsAreLaid(p, at, front);
      TextIsLaid(p, at + |EncodeTexts(front)|, texts[n]);
      TextsSizePrefix(texts, n, n);
      forall j | 0 <= j < n
        ensures TextAt(p, at + TextsSize(texts, j), texts[j])
      {
        TextsSizePrefix(texts, n, j);
        assert TextAt(p, at + TextsSize(front, j), front[j]);
      }
    }
  }

  lemma WordsNext(values: seq<nat>)
    ensures |Words(values)| == 4 * |values|
    ensures values != [] ==> Words(values) == Words(values[..|values| - 1]) + Bytes32(values[|values| - 1])
  {
    WordsLength(values);
  }

  lemma {:induction false} WordsAreLaid(p: seq<nat>, at: nat, values: seq<nat>)
    requires Occurs(p, at, Words(values))
    ensures forall j :: 0 <= j < |values| ==> NumberAt(p, at + 4 * j, 4, values[j])
    decreases |values|
  {
    hide Occurs, Words, NumberAt, LittleEndian;
    if values != [] {
      var n := |values| - 1;
      var front := values[..n];
      WordsNext(values);
      WordsNext(front);
      OccursSplit(p, at, Words(front), Bytes32(values[n]));
      WordsAreLaid(p, at, front);
      DigitsStand(p, at + 4 * n, 4, values[n]);
      forall j | 0 <= j < n
        ensures NumberAt(p, at + 4 * j, 4, values[j])
      {
        assert NumberAt(p, at + 4 * j, 4, front[j]);
      }
    }
  }

  // ----- candidates

  lemma FlagIsNumber(unknown: bool)
    ensures [if unknown then 1 else 0, 0, 0, 0] == Bytes32(if unknown then 1 else 0)
  {
  }

  lemma HeadIsLaid(p: seq<nat>, at: nat, c: Candidate)
    requires Occurs(p, at, EncodeHead(c))
    ensures |EncodeHead(c)| == 24
    ensures NumberAt(p, at, 4, |c.cuts|) && NumberAt(p, at + 4, 4, if c.unknown then 1 else 0) && NumberAt(p, at + 8, 4, c.javaHash)
    ensures NumberAt(p, at + 12, 4, |c.canonical|) && NumberAt(p, at + 16, 4, |c.headword|) && NumberAt(p, at + 20, 4, |c.igs|)
  {
    hide LittleEndian, Occurs, NumberAt;
    FlagIsNumber(c.unknown);
    var flag: nat := if c.unknown then 1 else 0;
    var counts := Bytes32(|c.canonical|) + (Bytes32(|c.headword|) + Bytes32(|c.igs|));
    OccursSplit(p, at, Bytes32(|c.cuts|), Bytes32(flag) + (Bytes32(c.javaHash) + counts));
    OccursSplit(p, at + 4, Bytes32(flag), Bytes32(c.javaHash) + counts);
    OccursSplit(p, at + 8, Bytes32(c.javaHash), counts);
    OccursSplit(p, at + 12, Bytes32(|c.canonical|), Bytes32(|c.headword|) + Bytes32(|c.igs|));
    OccursSplit(p, at + 16, Bytes32(|c.headword|), Bytes32(|c.igs|));
    DigitsStand(p, at, 4, |c.cuts|);
    DigitsStand(p, at + 4, 4, flag);
    DigitsStand(p, at + 8, 4, c.javaHash);
    DigitsStand(p, at + 12, 4, |c.canonical|);
    DigitsStand(p, at + 16, 4, |c.headword|);
    DigitsStand(p, at + 20, 4, |c.igs|);
  }

  lemma CandidateIsLaid(p: seq<nat>, at: nat, c: Candidate)
    requires Occurs(p, at, EncodeCandidate(c))
    ensures CandidateAt(p, at, c) && |EncodeCandidate(c)| == CandidateSize(c)
  {
    hide Occurs, NumberAt, EncodeHead, Words, EncodeTexts, TextsSize, TextAt;
    OccursSplit(p, at, EncodeHead(c), EncodeBody(c));
    HeadIsLaid(p, at, c);
    var texts := c.headword + EncodeTexts(c.igs);
    WordsNext(c.cuts);
    OccursSplit(p, at + 24, Words(c.cuts), c.canonical + texts);
    var body := at + 24 + 4 * |c.cuts|;
    OccursSplit(p, body, c.canonical, texts);
    OccursSplit(p, body + |c.canonical|, c.headword, EncodeTexts(c.igs));
    WordsAreLaid(p, at + 24, c.cuts);
    TextsAreLaid(p, body + |c.canonical| + |c.headword|, c.igs);
  }

  lemma {:induction false} CandidatesSizePrefix(cs: seq<Candidate>, n: nat, i: nat)
    requires i <= n <= |cs|
    ensures CandidatesSize(cs[..n], i) == CandidatesSize(cs, i)
  {
    hide CandidateSize;
    if i > 0 {
      CandidatesSizePrefix(cs, n, i - 1);
    }
  }

  lemma EncodeCandidatesNext(cs: seq<Candidate>)
    ensures cs == [] ==> EncodeCandidates(cs) == [] && CandidatesSize(cs, 0) == 0
    ensures cs != [] ==>
              var n := |cs| - 1;
              && EncodeCandidates(cs) == EncodeCandidates(cs[..n]) + EncodeCandidate(cs[n])
              && CandidatesSize(cs, n + 1) == CandidatesSize(cs, n) + CandidateSize(cs[n])
  {
    hide EncodeCandidate, CandidateSize;
  }

  lemma {:induction false} CandidatesAreLaid(p: seq<nat>, at: nat, cs: seq<Candidate>)
    requires Occurs(p, at, EncodeCandidates(cs))
    ensures |EncodeCandidates(cs)| == CandidatesSize(cs, |cs|)
    ensures forall j :: 0 <= j < |cs| ==> CandidateAt(p, at + CandidatesSize(cs, j), cs[j])
    decreases |cs|
  {
    hide *;
    EncodeCandidatesNext(cs);
    if cs != [] {
      var n := |cs| - 1;
      var front := cs[..n];
      OccursSplit(p, at, EncodeCandidates(front), EncodeCandidate(cs[n]));
      CandidatesAreLaid(p, at, front);
      CandidateIsLaid(p, at + |EncodeCandidates(front)|, cs[n]);
      CandidatesSizePrefix(cs, n, n);
      forall j | 0 <= j < n
        ensures CandidateAt(p, at + CandidatesSize(cs, j), cs[j])
      {
        CandidatesSizePrefix(cs, n, j);
        assert CandidateAt(p, at + CandidatesSize(front, j), front[j]);
      }
    }
  }

  // ----- entries

  lemma EntryIsLaid(p: seq<nat>, at: nat, e: Entry)
    requires Occurs(p, at, EncodeEntry(e))
    ensures EntryAt(p, at, e) && |EncodeEntry(e)| == EntrySize(e)
  {
    hide Occurs, NumberAt, LittleEndian, EncodeCandidates, CandidatesSize, CandidateAt;
    var body := e.surface + EncodeCandidates(e.candidates);
    OccursSplit(p, at, Bytes32(|e.surface|), Bytes32(|e.candidates|) + body);
    OccursSplit(p, at + 4, Bytes32(|e.candidates|), body);
    OccursSplit(p, at + 8, e.surface, EncodeCandidates(e.candidates));
    DigitsStand(p, at, 4, |e.surface|);
    DigitsStand(p, at + 4, 4, |e.candidates|);
    CandidatesAreLaid(p, at + 8 + |e.surface|, e.candidates);
  }

  lemma {:induction false} EntriesSizePrefix(es: seq<Entry>, n: nat, i: nat)
    requires i <= n <= |es|
    ensures EntriesSize(es[..n], i) == EntriesSize(es, i)
  {
    hide EntrySize;
    if i > 0 {
      EntriesSizePrefix(es, n, i - 1);
    }
  }

  lemma EncodeEntriesNext(es: seq<Entry>)
    ensures es == [] ==> EncodeEntries(es) == [] && EntriesSize(es, 0) == 0
    ensures es != [] ==>
              var n := |es| - 1;
              && EncodeEntries(es) == EncodeEntries(es[..n]) + EncodeEntry(es[n])
              && EntriesSize(es, n + 1) == EntriesSize(es, n) + EntrySize(es[n])
  {
    hide EncodeEntry, EntrySize;
  }

  /** The encoding of entries is laid out as described, and has the described size. */
  lemma {:induction false} EntriesAreLaid(p: seq<nat>, at: nat, es: seq<Entry>)
    requires Occurs(p, at, EncodeEntries(es))
    ensures |EncodeEntries(es)| == EntriesSize(es, |es|)
    ensures EntriesAt(p, at, es)
    decreases |es|
  {
    hide EntryAt, EncodeEntries, EncodeEntry, EntriesSize, EntrySize, Occurs;
    EncodeEntriesNext(es);
    if es != [] {
      var n := |es| - 1;
      var front := es[..n];
      OccursSplit(p, at, EncodeEntries(front), EncodeEntry(es[n]));
      EntriesAreLaid(p, at, front);
      EntryIsLaid(p, at + |EncodeEntries(front)|, es[n]);
      EntriesSizePrefix(es, n, n);
      forall i | 0 <= i < n
        ensures EntryAt(p, at + EntriesSize(es, i), es[i])
      {
        EntriesSizePrefix(es, n, i);
        assert EntryAt(p, at + EntriesSize(front, i), front[i]);
      }
    }
  }
}
