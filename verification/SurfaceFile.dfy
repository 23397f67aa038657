/** Writing and reading the compiled surface table file. */
module SurfaceFile {
  import opened Common
  import opened ByteStrings
  import opened Lexicographic
  import opened Utf8
  import opened SurfaceCodec
  import opened SurfaceLayout
  import opened SurfaceTable
  import Sorting

  const MAGIC: seq<Byte> := [0x4e, 0x45, 0x44, 0x4f, 0x46, 0x55, 0x4c, 0x31]   // NEDOFUL1
  const VERSION: nat := 1
  const IDENTITY_BYTES: nat := 64
  const DIGEST_BYTES: nat := 32
  const HEADER_BYTES: nat := 176

  /** The asset identities baked into the program, and the digest function. */
  datatype Assets = Assets(morphology: seq<Byte>, model: seq<Byte>, digest: seq<Byte> -> seq<Byte>) {
    ghost predicate Valid() {
      |morphology| == IDENTITY_BYTES && |model| == IDENTITY_BYTES && forall p :: |digest(p)| == DIGEST_BYTES
    }
  }

  // ----- sorting by surface

  predicate NotAfter(a: Entry, b: Entry) {
    a.surface == b.surface || Before(a.surface, b.surface)
  }

  predicate Ordered(es: seq<Entry>) {
    forall i :: 0 < i < |es| ==> NotAfter(es[i - 1], es[i])
  }

  function SortBySurface(es: seq<Entry>): seq<Entry> {
    Sorting.Sort(NotAfter, es)
  }

  lemma SortOrders(es: seq<Entry>)
    ensures Ordered(SortBySurface(es)) && multiset(SortBySurface(es)) == multiset(es)
  {
    forall i, j | 0 <= i < |es| && 0 <= j < |es|
      ensures NotAfter(es[i], es[j]) || NotAfter(es[j], es[i])
    {
      BeforeIsTotal(es[i].surface, es[j].surface);
    }
    Sorting.SortOrders(NotAfter, es);
  }

  lemma SortMembers(es: seq<Entry>)
    ensures |SortBySurface(es)| == |es| && forall e :: e in SortBySurface(es) <==> e in es
  {
    hide SortBySurface;
    var sorted := SortBySurface(es);
    SortOrders(es);
    assert |multiset(sorted)| == |sorted| && |multiset(es)| == |es|;
    assert forall e :: e in sorted <==> e in multiset(sorted);
    assert forall e :: e in es <==> e in multiset(es);
  }

  // ----- the file

  function Header(a: Assets, count: nat, payload: seq<Byte>): seq<nat> {
    MAGIC + (Bytes32(VERSION) + (a.morphology + (a.model + (Bytes32(count) + a.digest(payload)))))
  }

  /** The entries in a file, whatever their order; nothing when the file is not exactly a table. */
  function ReadFile(a: Assets, file: seq<Byte>): Option<seq<Entry>> {
    if |file| < HEADER_BYTES || file[..8] != MAGIC || Value(file[8..12]) != VERSION || file[12..76] != a.morphology || file[76..140] != a.model
    then None
    else
      var count, payload := Value(file[140..144]), file[HEADER_BYTES..];
      if file[144..176] != a.digest(payload) then None
      else
        var es := ReadEntries(payload, count);
        if es.None? || |EncodeEntries(es.value)| != |payload| then None else es
  }

  lemma HeaderRead(a: Assets, file: seq<Byte>, count: nat, payload: seq<Byte>)
    requires a.Valid() && count < U32_LIMIT
    ensures |Header(a, count, payload)| == HEADER_BYTES
    ensures Occurs(file, 0, Header(a, count, payload)) <==>
            && |file| >= HEADER_BYTES && file[..8] == MAGIC && Value(file[8..12]) == VERSION && file[12..76] == a.morphology
            && file[76..140] == a.model && Value(file[140..144]) == count && file[144..176] == a.digest(payload)
  {
    hide LittleEndian, Value, Power;
    Powers();
    var tail := Bytes32(count) + a.digest(payload);
    assert |a.digest(payload)| == DIGEST_BYTES;
    OccursSplit(file, 0, MAGIC, Bytes32(VERSION) + (a.morphology + (a.model + tail)));
    OccursSplit(file, 8, Bytes32(VERSION), a.morphology + (a.model + tail));
    OccursSplit(file, 12, a.morphology, a.model + tail);
    OccursSplit(file, 76, a.model, tail);
    OccursSplit(file, 140, Bytes32(count), a.digest(payload));
    IntRoundTrip(file, 8, 4, VERSION);
    IntRoundTrip(file, 140, 4, count);
  }

  /** A file holds valid entries exactly when it is their header and their encoding. */
  lemma FileRoundTrip(a: Assets, file: seq<Byte>, payload: seq<Byte>, es: seq<Entry>)
    requires a.Valid() && ValidEntries(es) && |es| < U32_LIMIT && payload == EncodeEntries(es)
    ensures file == Header(a, |es|, payload) + payload <==> ReadFile(a, file) == Some(es)
  {
    hide Header, EncodeEntries, ReadEntries, ValidEntries, Value;
    HeaderRead(a, file, |es|, payload);
    var header := Header(a, |es|, payload);
    OccursSplit(file, 0, header, payload);
    if |file| >= HEADER_BYTES {
      var rest := file[HEADER_BYTES..];
      PayloadRoundTrip(rest, es);
      if ReadFile(a, file).Some? {
        EntriesRead(rest, Value(file[140..144]));
      }
      assert Occurs(file, HEADER_BYTES, payload) && |file| == HEADER_BYTES + |payload| <==> rest == payload;
    }
    assert file[0..|file|] == file;
    assert file == header + payload <==> Occurs(file, 0, header + payload) && |file| == |header + payload|;
  }

  // ----- writing

  /** A candidate whose texts are well-formed UTF-8 and whose hash fits 32 bits. */
  predicate TypedCandidate(c: Candidate) {
    c.javaHash < U32_LIMIT && WellFormed(c.canonical) && WellFormed(c.headword) && forall i :: 0 <= i < |c.igs| ==> WellFormed(c.igs[i])
  }

  predicate Typed(e: Entry) {
    forall i :: 0 <= i < |e.candidates| ==> TypedCandidate(e.candidates[i])
  }

  method ValidateCuts(cuts: seq<nat>, length: nat) returns (ok: bool)
    ensures ok <==> ValidCuts(cuts, length)
  {
    var previous := 0;
    for i := 0 to |cuts|
      invariant previous == if i == 0 then 0 else cuts[i - 1]
      invariant forall k :: 0 <= k < i ==> 0 < cuts[k] < length && cuts[k] <= previous
      invariant forall j, k :: 0 <= j < k < i ==> cuts[j] < cuts[k]
    {
      if cuts[i] == 0 || cuts[i] >= length || (i > 0 && cuts[i] <= previous) {
        return false;
      }
      previous := cuts[i];
    }
    return true;
  }

  method PushTexts(payload: seq<nat>, texts: seq<Text>) returns (r: Option<seq<nat>>)
    requires forall i :: 0 <= i < |texts| ==> WellFormed(texts[i])
    ensures r.Some? <==> forall i :: 0 <= i < |texts| ==> ValidText(texts[i])
    ensures r.Some? ==> r.value == payload + EncodeTexts(texts)
  {
    hide WellFormed, Bytes32;
    var output := payload;
    for i := 0 to |texts|
      invariant output == payload + EncodeTexts(texts[..i])
      invariant forall k :: 0 <= k < i ==> ValidText(texts[k])
    {
      if |texts[i]| >= U32_LIMIT {
        return None;
      }
      assert texts[..i + 1][..i] == texts[..i];
      output := output + Bytes32(|texts[i]|);
      output := output + texts[i];
      Regroup3(payload + EncodeTexts(texts[..i]), Bytes32(|texts[i]|), texts[i]);
    }
    assert texts[..|texts|] == texts;
    return Some(output);
  }

  method PushWords(payload: seq<nat>, values: seq<nat>) returns (output: seq<nat>)
    ensures output == payload + Words(values)
  {
    hide Bytes32;
    output := payload;
    for i := 0 to |values|
      invariant output == payload + Words(values[..i])
    {
      assert values[..i + 1][..i] == values[..i];
      output := output + Bytes32(values[i]);
    }
    assert values[..|values|] == values;
  }

  lemma Regroup3(a: seq<nat>, b: seq<nat>, c: seq<nat>)
    ensures a + b + c == a + (b + c)
  {
  }

  method PushHead(payload: seq<nat>, c: Candidate) returns (output: seq<nat>)
    ensures output == payload + EncodeHead(c)
  {
    hide Bytes32;
    output := payload + Bytes32(|c.cuts|);
    output := output + [if c.unknown then 1 else 0] + [0, 0, 0];
    output := output + Bytes32(c.javaHash);
    output := output + Bytes32(|c.canonical|);
    output := output + Bytes32(|c.headword|);
    output := output + Bytes32(|c.igs|);
    assert [if c.unknown then 1 else 0] + [0, 0, 0] == [if c.unknown then 1 else 0, 0, 0, 0];
    HeadParts(payload, Bytes32(|c.cuts|), if c.unknown then 1 else 0, Bytes32(c.javaHash), Bytes32(|c.canonical|), Bytes32(|c.headword|),
              Bytes32(|c.igs|));
  }

  lemma HeadParts(p: seq<nat>, a: seq<nat>, flag: nat, b: seq<nat>, c: seq<nat>, d: seq<nat>, e: seq<nat>)
    ensures p + a + [flag] + [0, 0, 0] + b + c + d + e == p + (a + ([flag, 0, 0, 0] + (b + (c + (d + e)))))
  {
    assert [flag] + [0, 0, 0] == [flag, 0, 0, 0];
  }

  /** Appends a candidate; fails exactly when it is not valid for the surface. */
  method PushCandidate(payload: seq<nat>, surface: Text, c: Candidate) returns (r: Option<seq<nat>>)
    requires TypedCandidate(c)
    ensures r.Some? <==> ValidCandidate(c, |surface|)
    ensures r.Some? ==> r.value == payload + EncodeCandidate(c)
  {
    hide WellFormed, EncodeHead, ValidCuts, Words, EncodeTexts;
    var ok := ValidateCuts(c.cuts, |surface|);
    if !ok || |c.cuts| >= U32_LIMIT || |c.canonical| >= U32_LIMIT || |c.headword| >= U32_LIMIT || |c.igs| >= U32_LIMIT {
      return None;
    }
    var headed := PushHead(payload, c);
    var output: seq<nat> := PushWords(headed, c.cuts);
    output := output + c.canonical;
    output := output + c.headword;
    ghost var before := output;
    r := PushTexts(output, c.igs);
    if r.Some? {
      BodyParts(payload, EncodeHead(c), Words(c.cuts), c.canonical, c.headword, EncodeTexts(c.igs));
    }
  }

  lemma BodyParts(p: seq<nat>, h: seq<nat>, a: seq<nat>, b: seq<nat>, c: seq<nat>, d: seq<nat>)
    ensures p + h + a + b + c + d == p + (h + (a + (b + (c + d))))
  {
  }

  /** Appends an entry; fails exactly when it is not valid. */
  method PushEntry(payload: seq<nat>, e: Entry) returns (r: Option<seq<nat>>)
    requires Typed(e)
    ensures r.Some? <==> ValidEntry(e)
    ensures r.Some? ==> r.value == payload + EncodeEntry(e)
  {
    hide WellFormed, Bytes32, EncodeCandidate, ValidCandidate, TypedCandidate;
    if e.surface == [] || !WellFormed(e.surface) || e.candidates == [] || |e.surface| >= U32_LIMIT || |e.candidates| >= U32_LIMIT {
      return None;
    }
    var output := payload + Bytes32(|e.surface|);
    output := output + Bytes32(|e.candidates|);
    output := output + e.surface;
    ghost var head := output;
    for i := 0 to |e.candidates|
      invariant output == head + EncodeCandidates(e.candidates[..i])
      invariant forall k :: 0 <= k < i ==> ValidCandidate(e.candidates[k], |e.surface|)
    {
      var pushed := PushCandidate(output, e.surface, e.candidates[i]);
      if pushed.None? {
        return None;
      }
      assert e.candidates[..i + 1][..i] == e.candidates[..i];
      output := pushed.value;
    }
    assert e.candidates[..|e.candidates|] == e.candidates;
    EntryParts(payload, Bytes32(|e.surface|), Bytes32(|e.candidates|), e.surface, EncodeCandidates(e.candidates));
    return Some(output);
  }

  lemma EntryParts(p: seq<nat>, a: seq<nat>, b: seq<nat>, c: seq<nat>, d: seq<nat>)
    ensures p + a + b + c + d == p + (a + (b + (c + d)))
  {
  }

  /** Entries the writer accepts: valid, few enough, and with distinct surfaces. */
  predicate Encodable(es: seq<Entry>) {
    |es| < U32_LIMIT && ValidEntries(es) && DistinctSurfaces(Surfaces(es))
  }

  /** Writes sorted entries; fails exactly when one is not valid or two neighbours have the same surface. */
  method EncodePayload(ordered: seq<Entry>) returns (r: Option<seq<nat>>)
    requires forall i :: 0 <= i < |ordered| ==> Typed(ordered[i])
    ensures r.Some? <==> ValidEntries(ordered) && forall k :: 0 < k < |ordered| ==> ordered[k - 1].surface != ordered[k].surface
    ensures r.Some? ==> r.value == EncodeEntries(ordered)
  {
    hide ValidEntry, EncodeEntry, Typed;
    var payload: seq<nat> := [];
    for i := 0 to |ordered|
      invariant payload == EncodeEntries(ordered[..i])
      invariant forall k :: 0 <= k < i ==> ValidEntry(ordered[k])
      invariant forall k :: 0 < k < i ==> ordered[k - 1].surface != ordered[k].surface
    {
      if i > 0 && ordered[i - 1].surface == ordered[i].surface {
        return None;
      }
      var pushed := PushEntry(payload, ordered[i]);
      if pushed.None? {
        return None;
      }
      assert ordered[..i + 1][..i] == ordered[..i];
      payload := pushed.value;
    }
    assert ordered[..|ordered|] == ordered;
    return Some(payload);
  }

  /** The file byte by byte: magic, version, both identities, the number of entries, the digest of the payload, the payload. */
  ghost predicate IsLaidOut(a: Assets, file: seq<Byte>, es: seq<Entry>) {
    && |file| == 176 + EntriesSize(es, |es|)
    && file[..8] == [0x4e, 0x45, 0x44, 0x4f, 0x46, 0x55, 0x4c, 0x31] && NumberAt(file, 8, 4, 1)
    && file[12..76] == a.morphology && file[76..140] == a.model
    && NumberAt(file, 140, 4, |es|) && file[144..176] == a.digest(file[176..])
    && EntriesAt(file, 176, es)
  }

  lemma FileIsLaidOut(a: Assets, file: seq<Byte>, payload: seq<Byte>, es: seq<Entry>)
    requires a.Valid() && |es| < U32_LIMIT && payload == EncodeEntries(es) && file == Header(a, |es|, payload) + payload
    ensures IsLaidOut(a, file, es)
  {
    hide LittleEndian, Value, Power, EncodeEntries, EntriesAt, EntriesSize, NumberAt;
    var header := Header(a, |es|, payload);
    HeaderRead(a, file, |es|, payload);
    assert file[0..|file|] == file && file[176..] == payload;
    OccursSplit(file, 0, header, payload);
    var tail := Bytes32(|es|) + a.digest(payload);
    OccursSplit(file, 0, MAGIC, Bytes32(VERSION) + (a.morphology + (a.model + tail)));
    OccursSplit(file, 8, Bytes32(VERSION), a.morphology + (a.model + tail));
    OccursSplit(file, 12, a.morphology, a.model + tail);
    OccursSplit(file, 76, a.model, tail);
    OccursSplit(file, 140, Bytes32(|es|), a.digest(payload));
    DigitsStand(file, 8, 4, 1);
    DigitsStand(file, 140, 4, |es|);
    EntriesAreLaid(file, 176, es);
  }

  /** Every surface is earlier than the next one, byte by byte. */
  ghost predicate BySurface(es: seq<Entry>) {
    forall i :: 0 < i < |es| ==> Earlier(es[i - 1].surface, es[i].surface)
  }

  lemma SortedBySurface(es: seq<Entry>)
    requires Ordered(es) && forall k :: 0 < k < |es| ==> es[k - 1].surface != es[k].surface
    ensures BySurface(es)
  {
    forall i | 0 < i < |es|
      ensures Earlier(es[i - 1].surface, es[i].surface)
    {
      assert NotAfter(es[i - 1], es[i]);
      BeforeIsEarlier(es[i - 1].surface, es[i].surface);
    }
  }

  /** Writes the table, entries sorted by surface; fails exactly when the entries are not encodable. */
  method EncodeTable(a: Assets, entries: seq<Entry>) returns (r: Option<seq<Byte>>)
    requires a.Valid() && forall i :: 0 <= i < |entries| ==> Typed(entries[i])
    ensures r.Some? <==> Encodable(entries)
    ensures r.Some? ==> Encodable(SortBySurface(entries)) && ReadFile(a, r.value) == Some(SortBySurface(entries))
    ensures r.Some? ==> IsLaidOut(a, r.value, SortBySurface(entries)) && BySurface(SortBySurface(entries))
    ensures r.Some? ==> multiset(SortBySurface(entries)) == multiset(entries)
  {
    hide ValidEntries, EncodeEntries, SortBySurface, ReadFile, Typed, Header, DistinctSurfaces, Ordered, BySurface, IsLaidOut;
    if |entries| >= U32_LIMIT {
      return None;
    }
    var ordered := SortBySurface(entries);
    SortOrders(entries);
    SortMembers(entries);
    SortedEncodable(entries);
    AllTyped(entries, ordered);
    var payload := EncodePayload(ordered);
    if payload.None? {
      NeighboursDiffer(ordered);
      return None;
    }
    OrderedDistinct(ordered);
    EncodedIsBytes(ordered);
    var bytes: seq<Byte> := payload.value;
    HeaderIsBytes(a, |entries|, bytes);
    var file: seq<Byte> := Header(a, |entries|, bytes) + bytes;
    FileRoundTrip(a, file, bytes, ordered);
    FileIsLaidOut(a, file, bytes, ordered);
    NeighboursDiffer(ordered);
    SortedBySurface(ordered);
    return Some(file);
  }

  lemma AllTyped(entries: seq<Entry>, ordered: seq<Entry>)
    requires forall i :: 0 <= i < |entries| ==> Typed(entries[i])
    requires forall e :: e in ordered <==> e in entries
    ensures forall i :: 0 <= i < |ordered| ==> Typed(ordered[i])
  {
    hide Typed;
    forall i | 0 <= i < |ordered|
      ensures Typed(ordered[i])
    {
      assert ordered[i] in entries;
    }
  }

  lemma NeighboursDiffer(es: seq<Entry>)
    ensures DistinctSurfaces(Surfaces(es)) ==> forall k :: 0 < k < |es| ==> es[k - 1].surface != es[k].surface
  {
    if DistinctSurfaces(Surfaces(es)) {
      forall k | 0 < k < |es|
        ensures es[k - 1].surface != es[k].surface
      {
        assert Surfaces(es)[k - 1] != Surfaces(es)[k];
      }
    }
  }

  /** Sorting keeps entries encodable, and makes none so. */
  lemma SortedEncodable(es: seq<Entry>)
    ensures Encodable(SortBySurface(es)) <==> Encodable(es)
  {
    hide SortBySurface, ValidEntry;
    SortMembers(es);
    SortOrders(es);
    var sorted := SortBySurface(es);
    assert ValidEntries(es) <==> ValidEntries(sorted) by {
      assert forall e :: e in es ==> e in sorted;
      assert forall e :: e in sorted ==> e in es;
      if ValidEntries(es) {
        forall i | 0 <= i < |sorted|
          ensures ValidEntry(sorted[i])
        {
          assert sorted[i] in es;
        }
      }
      if ValidEntries(sorted) {
        forall i | 0 <= i < |es|
          ensures ValidEntry(es[i])
        {
          assert es[i] in sorted;
        }
      }
    }
    SortSurfaces(es);
    DistinctCounts(Surfaces(es));
    DistinctCounts(Surfaces(sorted));
  }

  lemma SortSurfaces(es: seq<Entry>)
    ensures multiset(Surfaces(SortBySurface(es))) == multiset(Surfaces(es))
  {
    var surface := (e: Entry) => e.surface;
    SortOrders(es);
    Sorting.ImagesPermuted(surface, SortBySurface(es), es);
    assert Surfaces(es) == Sorting.Images(surface, es);
    assert Surfaces(SortBySurface(es)) == Sorting.Images(surface, SortBySurface(es));
  }

  /** Surfaces are distinct exactly when none occurs twice. */
  lemma {:induction false} DistinctCounts(names: seq<Text>)
    ensures DistinctSurfaces(names) <==> forall s: Text :: multiset(names)[s] <= 1
  {
    if names != [] {
      var n := |names| - 1;
      assert names == names[..n] + [names[n]];
      DistinctCounts(names[..n]);
      if DistinctSurfaces(names) {
        assert DistinctSurfaces(names[..n]);
        assert names[n] !in names[..n];
      }
      if forall s: Text :: multiset(names)[s] <= 1 {
        forall s: Text
          ensures multiset(names[..n])[s] <= 1
        {
          assert multiset(names)[s] <= 1;
        }
        assert multiset(names)[names[n]] <= 1;
        assert names[n] !in names[..n];
      }
    }
  }

  /** In order without equal neighbours, all surfaces are distinct. */
  lemma OrderedDistinct(es: seq<Entry>)
    requires Ordered(es) && forall i :: 0 < i < |es| ==> es[i - 1].surface != es[i].surface
    ensures DistinctSurfaces(Surfaces(es))
  {
    hide Before;
    forall i, j | 0 <= i < j < |es|
      ensures es[i].surface != es[j].surface
    {
      Ascends(es, i, j);
      BeforeIsIrreflexive(es[i].surface);
    }
  }

  lemma {:induction false} Ascends(es: seq<Entry>, i: nat, j: nat)
    requires Ordered(es) && forall k :: 0 < k < |es| ==> es[k - 1].surface != es[k].surface
    requires i < j < |es|
    ensures Before(es[i].surface, es[j].surface)
    decreases j
  {
    hide Before;
    assert NotAfter(es[j - 1], es[j]);
    if i < j - 1 {
      Ascends(es, i, j - 1);
      BeforeIsTransitive(es[i].surface, es[j - 1].surface, es[j].surface);
    }
  }

  lemma {:induction false} EncodedIsBytes(es: seq<Entry>)
    requires ValidEntries(es)
    ensures IsBytes(EncodeEntries(es))
  {
    hide ValidEntry, EncodeEntry;
    if es != [] {
      EncodedIsBytes(es[..|es| - 1]);
      EntryIsBytes(es[|es| - 1]);
    }
  }

  lemma EntryIsBytes(e: Entry)
    requires ValidEntry(e)
    ensures IsBytes(EncodeEntry(e))
  {
    hide ValidCandidate, EncodeCandidate;
    CandidatesAreBytes(e.candidates, |e.surface|);
  }

  lemma {:induction false} CandidatesAreBytes(cs: seq<Candidate>, length: nat)
    requires AllValid(cs, length) && length < U32_LIMIT
    ensures IsBytes(EncodeCandidates(cs))
  {
    hide ValidCandidate, EncodeCandidate;
    if cs != [] {
      CandidatesAreBytes(cs[..|cs| - 1], length);
      CandidateIsBytes(cs[|cs| - 1], length);
    }
  }

  lemma CandidateIsBytes(c: Candidate, length: nat)
    requires ValidCandidate(c, length) && length < U32_LIMIT
    ensures IsBytes(EncodeCandidate(c))
  {
    hide WellFormed;
    WordsAreBytes(c.cuts);
    TextsAreBytes(c.igs);
  }

  lemma {:induction false} TextsAreBytes(texts: seq<Text>)
    ensures IsBytes(EncodeTexts(texts))
  {
    if texts != [] {
      TextsAreBytes(texts[..|texts| - 1]);
    }
  }

  lemma HeaderIsBytes(a: Assets, count: nat, payload: seq<Byte>)
    ensures IsBytes(Header(a, count, payload))
  {
  }

  // ----- reading

  method ParseWords(p: seq<Byte>, at: nat, count: nat) returns (r: Option<seq<nat>>)
    ensures r == ReadWords(p, at, count)
  {
    hide ReadU32;
    var values := [];
    for i := 0 to count
      invariant ReadWords(p, at, i) == Some(values)
    {
      var value := ReadU32(p, at + 4 * i);
      AllBytes(p);
      if ReadWords(p, at, count).Some? {
        WordsStay(p, at, i + 1, count);
      }
      if value.None? {
        return None;
      }
      values := values + [value.value];
    }
    return Some(values);
  }

  lemma {:induction false} WordsStay(p: seq<nat>, at: nat, i: nat, count: nat)
    requires i <= count && ReadWords(p, at, count).Some?
    ensures ReadWords(p, at, i).Some?
    decreases count
  {
    hide ReadU32;
    if i < count {
      WordsStay(p, at, i, count - 1);
    }
  }

  method ParseTexts(p: seq<Byte>, at: nat, count: nat) returns (r: Option<seq<Text>>, next: nat)
    ensures r == ReadTexts(p, at, count)
    ensures r.Some? ==> next == at + |EncodeTexts(r.value)|
  {
    hide ReadPrefixed, Bytes32;
    var texts := [];
    next := at;
    for i := 0 to count
      invariant ReadTexts(p, at, i) == Some(texts) && next == at + |EncodeTexts(texts)|
    {
      if ReadTexts(p, at, count).Some? {
        TextsPrefix(p, at, i + 1, count);
      }
      var text := ReadPrefixed(p, next);
      if text.None? {
        return None, next;
      }
      assert (texts + [text.value])[..|texts|] == texts;
      Length32(|text.value|);
      texts := texts + [text.value];
      next := next + 4 + |text.value|;
    }
    return Some(texts), next;
  }

  method ParseCandidate(p: seq<Byte>, at: nat, length: nat) returns (r: Option<Candidate>, next: nat)
    requires length <= U32_LIMIT
    ensures r == ReadCandidate(p, at, length)
    ensures r.Some? ==> next == at + |EncodeCandidate(r.value)|
  {
    hide ReadWords, ReadTexts, Words, EncodeTexts, ValidCuts, WellFormed, EncodeHead, Value;
    next := at;
    var head := ReadHead(p, at);
    if head.None? {
      return None, next;
    }
    HeadFits(p, at);
    HeadEnds(p, at);
    AllBytes(p);
    var h := head.value;
    next := at + 24;
    var cuts := ParseWords(p, next, h.cutCount);
    if cuts.None? {
      return None, next;
    }
    next := next + 4 * h.cutCount;
    var valid := ValidateCuts(cuts.value, length);
    if !valid {
      return None, next;
    }
    var canonical := ReadText(p, next, h.canonicalLength);
    if canonical.None? {
      return None, next;
    }
    next := next + h.canonicalLength;
    var headword := ReadText(p, next, h.headwordLength);
    if headword.None? {
      return None, next;
    }
    next := next + h.headwordLength;
    var igs;
    igs, next := ParseTexts(p, next, h.igCount);
    if igs.None? {
      return None, next;
    }
    var c := Candidate(cuts.value, h.unknown, h.javaHash, canonical.value, headword.value, igs.value);
    CandidateSize(p, at, length);
    return Some(c), next;
  }

  lemma CandidateSize(p: seq<Byte>, at: nat, length: nat)
    requires ReadCandidate(p, at, length).Some? && length <= U32_LIMIT
    ensures var c, h := ReadCandidate(p, at, length).value, ReadHead(p, at).value;
            |EncodeCandidate(c)| == 24 + 4 * h.cutCount + h.canonicalLength + h.headwordLength + |EncodeTexts(c.igs)|
  {
    hide ReadHead, ReadBody, EncodeHead, EncodeTexts, Words, ValidCuts, WellFormed;
    var c, h := ReadCandidate(p, at, length).value, ReadHead(p, at).value;
    CandidateRead(p, at, length);
    HeadRoundTrip(p, at, c);
    HeadEnds(p, at);
    BodyKeepsHead(p, at + 24, h, length);
    WordsLength(c.cuts);
  }

  method ParseCandidates(p: seq<Byte>, at: nat, count: nat, length: nat) returns (r: Option<seq<Candidate>>, next: nat)
    requires length <= U32_LIMIT
    ensures r == ReadCandidates(p, at, count, length)
    ensures r.Some? ==> next == at + |EncodeCandidates(r.value)|
  {
    hide ReadCandidate, EncodeCandidate;
    var candidates := [];
    next := at;
    for i := 0 to count
      invariant ReadCandidates(p, at, i, length) == Some(candidates) && next == at + |EncodeCandidates(candidates)|
    {
      if ReadCandidates(p, at, count, length).Some? {
        CandidatesPrefix(p, at, i + 1, count, length);
      }
      var c, behind := ParseCandidate(p, next, length);
      if c.None? {
        return None, next;
      }
      assert (candidates + [c.value])[..|candidates|] == candidates;
      candidates := candidates + [c.value];
      next := behind;
    }
    return Some(candidates), next;
  }

  method ParseEntry(p: seq<Byte>, at: nat) returns (r: Option<Entry>, next: nat)
    ensures r == ReadEntry(p, at)
    ensures r.Some? ==> next == at + |EncodeEntry(r.value)|
  {
    hide ReadCandidates, EncodeCandidates, WellFormed, ReadU32;
    next := at;
    AllBytes(p);
    ReadsFit(p, at);
    var surfaceLength := ReadU32(p, at);
    var candidateCount := ReadU32(p, at + 4);
    if surfaceLength.None? || candidateCount.None? || candidateCount.value == 0 {
      return None, next;
    }
    var surface := ReadText(p, at + 8, surfaceLength.value);
    if surface.None? || surface.value == [] {
      return None, next;
    }
    var candidates;
    candidates, next := ParseCandidates(p, at + 8 + surfaceLength.value, candidateCount.value, surfaceLength.value);
    if candidates.None? {
      return None, next;
    }
    EntryKeepsCounts(p, at);
    EntryRoundTrip(p, at, ReadEntry(p, at).value);
    return Some(Entry(surface.value, candidates.value)), next;
  }

  /** Reads a file; succeeds exactly when it is a table with distinct surfaces, and then holds its entries. */
  method FromBytes(a: Assets, file: seq<Byte>) returns (r: Option<Table>)
    requires a.Valid()
    ensures r.Some? <==> ReadFile(a, file).Some? && DistinctSurfaces(Surfaces(ReadFile(a, file).value))
    ensures r.Some? ==> r.value.Holds(ReadFile(a, file).value)
  {
    hide ReadEntry, EncodeEntry, DistinctSurfaces, Value, Indexed, Stored;
    if |file| < HEADER_BYTES {
      return None;
    }
    if file[..8] != MAGIC || Value(file[8..12]) != VERSION {
      return None;
    }
    if file[12..76] != a.morphology || file[76..140] != a.model {
      return None;
    }
    var count := Value(file[140..144]);
    var payload := file[HEADER_BYTES..];
    if file[144..176] != a.digest(payload) {
      return None;
    }
    var columns, cursor := ParseEntries(payload, count);
    if columns.None? {
      return None;
    }
    if cursor != |payload| {
      return None;
    }
    var (surfaceBytes, entries, sets) := columns.value;
    ghost var es := ReadEntries(payload, count).value;
    var surfaces := SurfacesOf(surfaceBytes, entries, sets, es);
    var slots := BuildIndex(surfaces);
    if slots.None? {
      return None;
    }
    return Some(Table(surfaceBytes, entries, sets, slots.value));
  }

  lemma StoredGrows(surfaceBytes: Text, entries: seq<RuntimeEntry>, sets: seq<seq<Candidate>>, es: seq<Entry>, e: Entry)
    requires Stored(surfaceBytes, entries, sets, es)
    ensures Stored(surfaceBytes + e.surface,
                   entries + [RuntimeEntry(|surfaceBytes|, |surfaceBytes + e.surface|, |es|, SurfaceHash(e.surface))],
                   sets + [e.candidates], es + [e])
  {
    hide SurfaceHash;
    var longer := surfaceBytes + e.surface;
    forall i | 0 <= i < |es|
      ensures longer[entries[i].start..entries[i].end] == es[i].surface
    {
      assert longer[entries[i].start..entries[i].end] == surfaceBytes[entries[i].start..entries[i].end];
    }
    assert longer[|surfaceBytes|..|longer|] == e.surface;
  }

  /** Reads the entries of a payload into the columns of the table. */
  method ParseEntries(payload: seq<Byte>, count: nat)
    returns (r: Option<(Text, seq<RuntimeEntry>, seq<seq<Candidate>>)>, cursor: nat)
    ensures r.Some? <==> ReadEntries(payload, count).Some?
    ensures r.Some? ==> Stored(r.value.0, r.value.1, r.value.2, ReadEntries(payload, count).value)
    ensures r.Some? ==> cursor == |EncodeEntries(ReadEntries(payload, count).value)|
  {
    hide ReadEntry, EncodeEntry, Stored, SurfaceHash;
    cursor := 0;
    var surfaceBytes: Text, entries: seq<RuntimeEntry>, sets: seq<seq<Candidate>> := [], [], [];
    ghost var es: seq<Entry> := [];
    assert Stored([], [], [], []) by { NothingStored(); }
    for i := 0 to count
      invariant ReadEntries(payload, i) == Some(es) && |es| == |sets| == i
      invariant Stored(surfaceBytes, entries, sets, es) && cursor == |EncodeEntries(es)|
    {
      if ReadEntries(payload, count).Some? {
        EntriesPrefix(payload, i + 1, count);
      }
      var parsed, next := ParseEntry(payload, cursor);
      if parsed.None? {
        return None, cursor;
      }
      var e := parsed.value;
      cursor := next;
      var start := |surfaceBytes|;
      var hash := HashSurface(e.surface);
      StoredGrows(surfaceBytes, entries, sets, es, e);
      surfaceBytes := surfaceBytes + e.surface;
      sets := sets + [e.candidates];
      entries := entries + [RuntimeEntry(start, |surfaceBytes|, i, hash)];
      assert (es + [e])[..|es|] == es;
      es := es + [e];
    }
    return Some((surfaceBytes, entries, sets)), cursor;
  }

  lemma NothingStored()
    ensures Stored([], [], [], [])
  {
  }

  /** The surfaces, cut back out of the flattened bytes. */
  method SurfacesOf(surfaceBytes: Text, entries: seq<RuntimeEntry>, sets: seq<seq<Candidate>>, ghost es: seq<Entry>) returns (surfaces: seq<Text>)
    requires Stored(surfaceBytes, entries, sets, es)
    ensures surfaces == Surfaces(es)
  {
    hide SurfaceHash, Stored;
    surfaces := [];
    StoredSizes(surfaceBytes, entries, sets, es);
    for i := 0 to |entries|
      invariant surfaces == Surfaces(es)[..i]
    {
      StoredEntry(surfaceBytes, entries, sets, es, i);
      surfaces := surfaces + [surfaceBytes[entries[i].start..entries[i].end]];
    }
  }

  lemma StoredSizes(surfaceBytes: Text, entries: seq<RuntimeEntry>, sets: seq<seq<Candidate>>, es: seq<Entry>)
    requires Stored(surfaceBytes, entries, sets, es)
    ensures |entries| == |sets| == |es|
  {
  }

  // ----- what the table is for

  /**
   * Writing encodable entries and reading the file back always succeeds, and then the table answers every
   * surface with the candidates of its entry, in their order, and every other surface with nothing.
   */
  method WriteReadGet(a: Assets, entries: seq<Entry>, surface: Text) returns (r: Option<seq<Candidate>>)
    requires a.Valid() && Encodable(entries) && forall i :: 0 <= i < |entries| ==> Typed(entries[i])
    ensures r.Some? <==> exists e :: e in entries && e.surface == surface
    ensures forall e :: e in entries && e.surface == surface ==> r == Some(e.candidates)
  {
    hide ReadFile, Encodable, SortBySurface, DistinctSurfaces, ValidEntries, Typed, Table.Holds, Assets.Valid;
    var file := EncodeTable(a, entries);
    ghost var sorted := SortBySurface(entries);
    SortMembers(entries);
    EncodableDistinct(sorted);
    var table := FromBytes(a, file.value);
    r := table.value.Get(surface, sorted);
    if r.Some? {
      ghost var i :| 0 <= i < |sorted| && Surfaces(sorted)[i] == surface;
      assert sorted[i] in entries;
    }
    forall e | e in entries && e.surface == surface
      ensures r == Some(e.candidates)
    {
      assert e in sorted;
      var i :| 0 <= i < |sorted| && sorted[i] == e;
      assert Surfaces(sorted)[i] == surface;
    }
  }

  lemma EncodableDistinct(es: seq<Entry>)
    requires Encodable(es)
    ensures DistinctSurfaces(Surfaces(es))
  {
  }

  /** Every accepted file is the one the writer's format prescribes for its entries. */
  lemma AcceptedIsCanonical(a: Assets, file: seq<Byte>)
    requires a.Valid() && ReadFile(a, file).Some?
    ensures var es := ReadFile(a, file).value;
            && ValidEntries(es) && IsBytes(EncodeEntries(es))
            && file == Header(a, |es|, EncodeEntries(es)) + EncodeEntries(es) && IsLaidOut(a, file, es)
  {
    hide Header, EncodeEntries, ReadEntries, ValidEntries, Value, IsLaidOut;
    var es := ReadFile(a, file).value;
    var payload := file[HEADER_BYTES..];
    AllBytes(file);
    Powers();
    DigitsOfValue(file[140..144]);
    EntriesRead(payload, Value(file[140..144]));
    EncodedIsBytes(es);
    FileRoundTrip(a, file, EncodeEntries(es), es);
    FileIsLaidOut(a, file, EncodeEntries(es), es);
  }
}
