/** The lossless document: raw bytes with surface units over them, and its binary format. */
module DocumentCodec {
  import opened Common
  import opened ByteStrings

  datatype FormatError = EmptyUnit | BadMagic | UnsupportedVersion | Truncated | LengthOverflow | ImpossibleCount | TrailingBytes |
    ReversedSpan | CutOutsideSpan | CutsNotStrictlyIncreasing | SpanPastDocument | OverlappingUnits

  datatype SurfaceUnit = SurfaceUnit(start: U64, end: U64, cuts: seq<U64>) {
    /** A non-empty span with strictly increasing cuts inside it. */
    predicate Valid() {
      && start < end
      && (forall i :: 0 <= i < |cuts| ==> start < cuts[i] < end)
      && (forall i, j :: 0 <= i < j < |cuts| ==> cuts[i] < cuts[j])
    }

    /** What the validation lets through: valid units, and spans that end before they start, if they have no cuts. */
    predicate Accepted() {
      Valid() || (start > end && cuts == [])
    }

    method Validate() returns (r: Result<(), FormatError>)
      ensures r.Ok? <==> Accepted()
      ensures r == Err(EmptyUnit) <==> start == end
      ensures r != Err(BadMagic) && r != Err(ReversedSpan)
    {
      if start == end {
        return Err(EmptyUnit);
      }
      var previous := start;
      var i := 0;
      while i < |cuts|
        invariant 0 <= i <= |cuts| && previous == if i == 0 then start else cuts[i - 1]
        invariant forall k :: 0 <= k < i ==> start < cuts[k] < end && cuts[k] <= previous
        invariant forall j, k :: 0 <= j < k < i ==> cuts[j] < cuts[k]
      {
        var cut := cuts[i];
        if cut <= start || cut >= end {
          return Err(CutOutsideSpan);
        }
        if cut <= previous {
          return Err(CutsNotStrictlyIncreasing);
        }
        previous := cut;
        i := i + 1;
      }
      return Ok(());
    }

    /** The spans between neighbouring boundaries. */
    function Pieces(): seq<(nat, nat)> {
      var bounds := [start] + cuts + [end];
      seq(|cuts| + 1, i requires 0 <= i <= |cuts| => (bounds[i], bounds[i + 1]))
    }

    /** The pieces of an accepted unit follow each other from its start to its end; they are non-empty exactly when it is valid. */
    lemma PiecesTile()
      requires Accepted()
      ensures var p := Pieces();
              && |p| == |cuts| + 1 && p[0].0 == start && p[|cuts|].1 == end && (forall i :: 0 < i < |p| ==> p[i].0 == p[i - 1].1)
              && (Valid() <==> forall i :: 0 <= i < |p| ==> p[i].0 < p[i].1)
    {
      var bounds := [start] + cuts + [end];
      if Valid() {
        forall i | 0 <= i <= |cuts|
          ensures bounds[i] < bounds[i + 1]
        {
          if 0 < i < |cuts| {
            assert cuts[i - 1] < cuts[i];
          }
        }
      } else {
        assert Pieces()[0] == (start, end);
      }
    }
  }

  datatype LosslessDocument = LosslessDocument(raw: seq<Byte>, units: seq<SurfaceUnit>) {
    /** Units are valid, lie within the bytes, and do not overlap. */
    predicate Valid() {
      && (forall i :: 0 <= i < |units| ==> units[i].Valid() && units[i].end <= |raw|)
      && (forall i :: 0 < i < |units| ==> units[i - 1].end <= units[i].start)
    }

    /** What the validation lets through. */
    predicate Accepted() {
      && (forall i :: 0 <= i < |units| ==> units[i].Accepted() && units[i].end <= |raw|)
      && (forall i :: 0 < i < |units| ==> units[i - 1].end <= units[i].start)
    }

    /** No span ends before it starts. */
    predicate Forward() {
      forall i :: 0 <= i < |units| ==> units[i].start <= units[i].end
    }

    /** What the counts of the format can hold, and what fits in memory. */
    predicate Representable() {
      |raw| < U64_LIMIT && |units| < U64_LIMIT && forall i :: 0 <= i < |units| ==> |units[i].cuts| < U32_LIMIT
    }

    method Validate() returns (r: Result<(), FormatError>)
      ensures r.Ok? <==> Accepted()
      ensures r != Err(BadMagic) && r != Err(ReversedSpan)
    {
      hide SurfaceUnit.Accepted;
      var previousEnd := 0;
      var i := 0;
      while i < |units|
        invariant 0 <= i <= |units| && previousEnd == if i == 0 then 0 else units[i - 1].end as nat
        invariant forall k :: 0 <= k < i ==> units[k].Accepted() && units[k].end <= |raw|
        invariant forall k :: 0 < k < i ==> units[k - 1].end <= units[k].start
      {
        var unit := units[i];
        var checked := unit.Validate();
        if checked.Err? {
          return checked;
        }
        if unit.end > |raw| {
          return Err(SpanPastDocument);
        }
        if i > 0 && unit.start < previousEnd {
          return Err(OverlappingUnits);
        }
        previousEnd := unit.end;
        i := i + 1;
      }
      return Ok(());
    }
  }

  /** Of the accepted documents, the valid ones are those whose spans all run forward. */
  lemma AcceptedIsValid(d: LosslessDocument)
    ensures d.Valid() <==> d.Accepted() && d.Forward()
  {
  }

  // ----- the format

  const MAGIC: seq<Byte> := [0x4e, 0x45, 0x44, 0x4f, 0x46, 0x4d, 0x54, 0x00]   // NEDOFMT and a zero byte
  const VERSION: nat := 1

  function EncodeCuts(cuts: seq<U64>): seq<nat> {
    if cuts == [] then [] else EncodeCuts(cuts[..|cuts| - 1]) + LittleEndian(cuts[|cuts| - 1], 8)
  }

  function EncodeUnit(u: SurfaceUnit): seq<nat> {
    LittleEndian(u.start, 8) + (LittleEndian(u.end, 8) + (LittleEndian(|u.cuts|, 4) + EncodeCuts(u.cuts)))
  }

  function EncodeUnits(units: seq<SurfaceUnit>): seq<nat> {
    if units == [] then [] else EncodeUnits(units[..|units| - 1]) + EncodeUnit(units[|units| - 1])
  }

  function Header(d: LosslessDocument): seq<nat> {
    MAGIC + (LittleEndian(VERSION, 4) + (LittleEndian(|d.raw|, 8) + LittleEndian(|d.units|, 8)))
  }

  /** The binary form of a document. */
  function Encoding(d: LosslessDocument): seq<nat> {
    Header(d) + (d.raw + EncodeUnits(d.units))
  }

  // ----- the format byte by byte

  /** The size of the first `i` units: 20 bytes and 8 for every cut. */
  function UnitsSize(units: seq<SurfaceUnit>, i: nat): nat
    requires i <= |units|
  {
    if i == 0 then 0 else UnitsSize(units, i - 1) + 20 + 8 * |units[i - 1].cuts|
  }

  /** Start, end and number of cuts of a unit, then its cuts. */
  ghost predicate UnitAt(p: seq<nat>, at: nat, u: SurfaceUnit) {
    && NumberAt(p, at, 8, u.start) && NumberAt(p, at + 8, 8, u.end) && NumberAt(p, at + 16, 4, |u.cuts|)
    && forall j :: 0 <= j < |u.cuts| ==> NumberAt(p, at + 20 + 8 * j, 8, u.cuts[j])
  }

  /** Magic, version, the two lengths, the text, and the units one after the other. */
  ghost predicate IsLaidOut(p: seq<nat>, d: LosslessDocument) {
    var body := 28 + |d.raw|;
    && |p| == body + UnitsSize(d.units, |d.units|)
    && p[..8] == [0x4e, 0x45, 0x44, 0x4f, 0x46, 0x4d, 0x54, 0x00]
    && NumberAt(p, 8, 4, 1) && NumberAt(p, 12, 8, |d.raw|) && NumberAt(p, 20, 8, |d.units|)
    && p[28..body] == d.raw
    && forall i :: 0 <= i < |d.units| ==> UnitAt(p, body + UnitsSize(d.units, i), d.units[i])
  }

  lemma {:induction false} CutsAreLaid(p: seq<nat>, at: nat, cuts: seq<U64>)
    requires Occurs(p, at, EncodeCuts(cuts))
    ensures |EncodeCuts(cuts)| == 8 * |cuts|
    ensures forall j :: 0 <= j < |cuts| ==> NumberAt(p, at + 8 * j, 8, cuts[j])
  {
    hide LittleEndian, Occurs, NumberAt;
    if cuts != [] {
      var n := |cuts| - 1;
      CutsLength(cuts[..n]);
      OccursSplit(p, at, EncodeCuts(cuts[..n]), LittleEndian(cuts[n], 8));
      CutsAreLaid(p, at, cuts[..n]);
      DigitsStand(p, at + 8 * n, 8, cuts[n]);
    }
  }

  lemma UnitIsLaid(p: seq<nat>, at: nat, u: SurfaceUnit)
    requires Occurs(p, at, EncodeUnit(u))
    ensures UnitAt(p, at, u) && |EncodeUnit(u)| == 20 + 8 * |u.cuts|
  {
    hide LittleEndian, Occurs, NumberAt, EncodeCuts;
    var tail := LittleEndian(|u.cuts|, 4) + EncodeCuts(u.cuts);
    OccursSplit(p, at, LittleEndian(u.start, 8), LittleEndian(u.end, 8) + tail);
    OccursSplit(p, at + 8, LittleEndian(u.end, 8), tail);
    OccursSplit(p, at + 16, LittleEndian(|u.cuts|, 4), EncodeCuts(u.cuts));
    DigitsStand(p, at, 8, u.start);
    DigitsStand(p, at + 8, 8, u.end);
    DigitsStand(p, at + 16, 4, |u.cuts|);
    CutsAreLaid(p, at + 20, u.cuts);
  }

  lemma {:induction false} UnitsSizePrefix(units: seq<SurfaceUnit>, n: nat, i: nat)
    requires i <= n <= |units|
    ensures UnitsSize(units[..n], i) == UnitsSize(units, i)
  {
    if i > 0 {
      UnitsSizePrefix(units, n, i - 1);
    }
  }

  lemma EncodeUnitsNext(units: seq<SurfaceUnit>)
    requires units != []
    ensures var n := |units| - 1;
            EncodeUnits(units) == EncodeUnits(units[..n]) + EncodeUnit(units[n])
            && UnitsSize(units, n + 1) == UnitsSize(units, n) + 20 + 8 * |units[n].cuts|
  {
  }

  lemma NoUnits()
    ensures |EncodeUnits([])| == 0 == UnitsSize([], 0)
  {
  }

  lemma {:induction false} UnitsAreLaid(p: seq<nat>, at: nat, units: seq<SurfaceUnit>)
    requires Occurs(p, at, EncodeUnits(units))
    ensures |EncodeUnits(units)| == UnitsSize(units, |units|)
    ensures forall i :: 0 <= i < |units| ==> UnitAt(p, at + UnitsSize(units, i), units[i])
    decreases |units|
  {
    hide *;
    if units == [] {
      NoUnits();
    } else {
      var n := |units| - 1;
      var front := units[..n];
      EncodeUnitsNext(units);
      OccursSplit(p, at, EncodeUnits(front), EncodeUnit(units[n]));
      UnitsAreLaid(p, at, front);
      UnitIsLaid(p, at + |EncodeUnits(front)|, units[n]);
      UnitsSizePrefix(units, n, n);
      forall i | 0 <= i < n
        ensures UnitAt(p, at + UnitsSize(units, i), units[i])
      {
        UnitsSizePrefix(units, n, i);
        assert UnitAt(p, at + UnitsSize(front, i), front[i]);
      }
    }
  }

  lemma EncodingIsLaidOut(d: LosslessDocument)
    ensures IsLaidOut(Encoding(d), d)
  {
    hide LittleEndian, NumberAt, EncodeUnits, UnitAt, UnitsSize;
    var p, units := Encoding(d), EncodeUnits(d.units);
    var lengths := LittleEndian(|d.raw|, 8) + LittleEndian(|d.units|, 8);
    assert p[0..|p|] == p;
    OccursSplit(p, 0, Header(d), d.raw + units);
    OccursSplit(p, 28, d.raw, units);
    OccursSplit(p, 0, MAGIC, LittleEndian(VERSION, 4) + lengths);
    OccursSplit(p, 8, LittleEndian(VERSION, 4), lengths);
    OccursSplit(p, 12, LittleEndian(|d.raw|, 8), LittleEndian(|d.units|, 8));
    DigitsStand(p, 8, 4, 1);
    DigitsStand(p, 12, 8, |d.raw|);
    DigitsStand(p, 20, 8, |d.units|);
    UnitsAreLaid(p, 28 + |d.raw|, d.units);
  }

  method EncodeBinary(d: LosslessDocument) returns (r: Result<seq<nat>, FormatError>)
    requires |d.raw| < U64_LIMIT && |d.units| < U64_LIMIT
    ensures r.Ok? <==> d.Accepted() && d.Representable()
    ensures r.Ok? ==> r.value == Encoding(d) && IsLaidOut(r.value, d)
  {
    hide LittleEndian, EncodeUnit, LosslessDocument.Accepted, Header, IsLaidOut;
    EncodingIsLaidOut(d);
    var checked := d.Validate();
    if checked.Err? {
      return Err(checked.error);
    }
    var output := MAGIC;
    output := output + LittleEndian(VERSION, 4);
    output := output + LittleEndian(|d.raw|, 8);
    output := output + LittleEndian(|d.units|, 8);
    HeaderIs(d);
    output := output + d.raw;
    var i := 0;
    while i < |d.units|
      invariant 0 <= i <= |d.units|
      invariant output == Header(d) + d.raw + EncodeUnits(d.units[..i])
      invariant forall k :: 0 <= k < i ==> |d.units[k].cuts| < U32_LIMIT
    {
      var pushed := PushUnit(output, d.units[i]);
      if pushed.Err? {
        return pushed;
      }
      output := pushed.value;
      assert d.units[..i + 1][..i] == d.units[..i];
      i := i + 1;
    }
    assert d.units[..i] == d.units;
    return Ok(output);
  }

  /** Appends the bytes of one unit. */
  method PushUnit(before: seq<nat>, unit: SurfaceUnit) returns (r: Result<seq<nat>, FormatError>)
    ensures r.Ok? <==> |unit.cuts| < U32_LIMIT
    ensures r.Ok? ==> r.value == before + EncodeUnit(unit)
  {
    hide LittleEndian;
    var output := before + LittleEndian(unit.start, 8);
    output := output + LittleEndian(unit.end, 8);
    if |unit.cuts| >= U32_LIMIT {
      return Err(LengthOverflow);
    }
    output := output + LittleEndian(|unit.cuts|, 4);
    ghost var head := output;
    var j := 0;
    while j < |unit.cuts|
      invariant 0 <= j <= |unit.cuts| && output == head + EncodeCuts(unit.cuts[..j])
    {
      assert unit.cuts[..j + 1][..j] == unit.cuts[..j];
      output := output + LittleEndian(unit.cuts[j], 8);
      j := j + 1;
    }
    assert unit.cuts[..j] == unit.cuts;
    Regroup5(before, LittleEndian(unit.start, 8), LittleEndian(unit.end, 8), LittleEndian(|unit.cuts|, 4), EncodeCuts(unit.cuts));
    return Ok(output);
  }

  lemma HeaderIs(d: LosslessDocument)
    ensures Header(d) == MAGIC + LittleEndian(VERSION, 4) + LittleEndian(|d.raw|, 8) + LittleEndian(|d.units|, 8)
  {
    hide LittleEndian;
  }

  lemma Regroup5(a: seq<nat>, b: seq<nat>, c: seq<nat>, d: seq<nat>, e: seq<nat>)
    ensures a + b + c + d + e == a + (b + (c + (d + e)))
  {
  }

  // ----- reading

  function ReadCuts(p: seq<nat>, at: nat, count: nat): Option<seq<U64>>
    requires IsBytes(p)
    decreases count
  {
    if count == 0 then Some([])
    else
      var rest := ReadCuts(p, at, count - 1);
      var last := U64At(p, at + 8 * (count - 1));
      if rest.None? || last.None? then None else Some(rest.value + [last.value])
  }

  function U64At(p: seq<nat>, at: nat): Option<U64>
    requires IsBytes(p)
  {
    var value := ReadInt(p, at, 8);
    if value.Some? then
      ReadBounds(p, at, 8);
      Powers();
      Some(value.value)
    else None
  }

  /** The unit at a position, when a valid one stands there. */
  function ReadUnit(p: seq<nat>, at: nat): Option<SurfaceUnit>
    requires IsBytes(p)
  {
    var start, end, count := U64At(p, at), U64At(p, at + 8), ReadInt(p, at + 16, 4);
    if start.None? || end.None? || count.None? then None
    else
      var cuts := ReadCuts(p, at + 20, count.value);
      if cuts.None? then None
      else
        var unit := SurfaceUnit(start.value, end.value, cuts.value);
        if unit.Valid() then Some(unit) else None
  }

  lemma {:induction false} CutsRoundTrip(p: seq<nat>, at: nat, cuts: seq<U64>)
    requires IsBytes(p) && at <= |p|
    ensures Occurs(p, at, EncodeCuts(cuts)) <==> ReadCuts(p, at, |cuts|) == Some(cuts)
    ensures |EncodeCuts(cuts)| == 8 * |cuts|
  {
    hide LittleEndian, Occurs, ReadInt, Power;
    if cuts == [] {
      EmptyOccurs(p, at);
    } else {
      var n := |cuts| - 1;
      CutsRoundTrip(p, at, cuts[..n]);
      OccursSplit(p, at, EncodeCuts(cuts[..n]), LittleEndian(cuts[n], 8));
      U64RoundTrip(p, at + 8 * n, cuts[n]);
      LastCut(p, at, cuts);
    }
  }

  lemma U64RoundTrip(p: seq<nat>, at: nat, n: U64)
    requires IsBytes(p)
    ensures Occurs(p, at, LittleEndian(n, 8)) <==> U64At(p, at) == Some(n)
  {
    Powers();
    IntRoundTrip(p, at, 8, n);
  }

  lemma LastCut(p: seq<nat>, at: nat, cuts: seq<U64>)
    requires IsBytes(p) && cuts != []
    ensures var n := |cuts| - 1;
            ReadCuts(p, at, |cuts|) == Some(cuts) <==> ReadCuts(p, at, n) == Some(cuts[..n]) && U64At(p, at + 8 * n) == Some(cuts[n])
  {
    hide U64At;
    var n := |cuts| - 1;
    var rest, last := ReadCuts(p, at, n), U64At(p, at + 8 * n);
    if rest.Some? && last.Some? {
      SameLast(rest.value, last.value, cuts);
    }
  }

  lemma {:induction false} CutsRead(p: seq<nat>, at: nat, count: nat)
    requires IsBytes(p) && ReadCuts(p, at, count).Some?
    ensures |ReadCuts(p, at, count).value| == count && (count > 0 ==> at + 8 * count <= |p|)
  {
    if count > 0 {
      CutsRead(p, at, count - 1);
    }
  }

  /** A valid unit is read where, and only where, its encoding stands. */
  lemma UnitRoundTrip(p: seq<nat>, at: nat, u: SurfaceUnit)
    requires IsBytes(p) && u.Valid() && |u.cuts| < U32_LIMIT
    ensures Occurs(p, at, EncodeUnit(u)) <==> ReadUnit(p, at) == Some(u)
    ensures |EncodeUnit(u)| == 20 + 8 * |u.cuts|
  {
    hide LittleEndian, Occurs, ReadInt, U64At, ReadCuts, EncodeCuts, Power, SurfaceUnit.Valid;
    Powers();
    var tail := LittleEndian(|u.cuts|, 4) + EncodeCuts(u.cuts);
    OccursSplit(p, at, LittleEndian(u.start, 8), LittleEndian(u.end, 8) + tail);
    OccursSplit(p, at + 8, LittleEndian(u.end, 8), tail);
    OccursSplit(p, at + 16, LittleEndian(|u.cuts|, 4), EncodeCuts(u.cuts));
    U64RoundTrip(p, at, u.start);
    U64RoundTrip(p, at + 8, u.end);
    IntRoundTrip(p, at + 16, 4, |u.cuts|);
    CutsLength(u.cuts);
    if ReadInt(p, at + 16, 4).Some? {
      IntEnds(p, at + 16, 4);
      CutsRoundTrip(p, at + 20, u.cuts);
      if ReadCuts(p, at + 20, ReadInt(p, at + 16, 4).value).Some? {
        CutsRead(p, at + 20, ReadInt(p, at + 16, 4).value);
      }
    }
  }

  lemma IntEnds(p: seq<nat>, at: nat, width: nat)
    requires ReadInt(p, at, width).Some?
    ensures at + width <= |p|
  {
  }

  lemma {:induction false} CutsLength(cuts: seq<U64>)
    ensures |EncodeCuts(cuts)| == 8 * |cuts|
  {
    hide LittleEndian;
    if cuts != [] {
      CutsLength(cuts[..|cuts| - 1]);
    }
  }

  lemma UnitRead(p: seq<nat>, at: nat)
    requires IsBytes(p) && ReadUnit(p, at).Some?
    ensures var u := ReadUnit(p, at).value;
            u.Valid() && |u.cuts| < U32_LIMIT && Occurs(p, at, EncodeUnit(u)) && |EncodeUnit(u)| >= 20
  {
    hide ReadCuts, U64At, SurfaceUnit.Valid, Occurs, EncodeUnit;
    Powers();
    var u := ReadUnit(p, at).value;
    ReadBounds(p, at + 16, 4);
    CutsRead(p, at + 20, ReadInt(p, at + 16, 4).value);
    UnitRoundTrip(p, at, u);
  }

  function ReadUnits(p: seq<nat>, at: nat, count: nat): Option<seq<SurfaceUnit>>
    requires IsBytes(p)
    decreases count
  {
    if count == 0 then Some([])
    else
      var rest := ReadUnits(p, at, count - 1);
      if rest.None? then None
      else
        var last := ReadUnit(p, at + |EncodeUnits(rest.value)|);
        if last.None? then None else Some(rest.value + [last.value])
  }

  predicate Fitting(units: seq<SurfaceUnit>) {
    forall i :: 0 <= i < |units| ==> units[i].Valid() && |units[i].cuts| < U32_LIMIT
  }

  lemma {:induction false} UnitsRoundTrip(p: seq<nat>, at: nat, units: seq<SurfaceUnit>)
    requires IsBytes(p) && at <= |p| && Fitting(units)
    ensures Occurs(p, at, EncodeUnits(units)) <==> ReadUnits(p, at, |units|) == Some(units)
    decreases |units|
  {
    hide Occurs, ReadUnit, EncodeUnit, SurfaceUnit.Valid, ReadUnits;
    if units == [] {
      EmptyOccurs(p, at);
      NothingRead(p, at);
    } else {
      var n := |units| - 1;
      UnitsRoundTrip(p, at, units[..n]);
      OccursSplit(p, at, EncodeUnits(units[..n]), EncodeUnit(units[n]));
      UnitRoundTrip(p, at + |EncodeUnits(units[..n])|, units[n]);
      LastUnit(p, at, units);
    }
  }

  lemma NothingRead(p: seq<nat>, at: nat)
    requires IsBytes(p)
    ensures ReadUnits(p, at, 0) == Some([])
  {
  }

  lemma LastUnit(p: seq<nat>, at: nat, units: seq<SurfaceUnit>)
    requires IsBytes(p) && units != []
    ensures var n := |units| - 1;
            ReadUnits(p, at, |units|) == Some(units) <==>
            ReadUnits(p, at, n) == Some(units[..n]) && ReadUnit(p, at + |EncodeUnits(units[..n])|) == Some(units[n])
  {
    hide ReadUnit, EncodeUnits, SurfaceUnit.Valid;
    var n := |units| - 1;
    var rest := ReadUnits(p, at, n);
    if rest.Some? {
      var last := ReadUnit(p, at + |EncodeUnits(rest.value)|);
      if last.Some? {
        SameLast(rest.value, last.value, units);
      }
    }
  }

  /** Units that can be read fit, and each takes at least twenty bytes. */
  lemma {:induction false} UnitsRead(p: seq<nat>, at: nat, count: nat)
    requires IsBytes(p) && at <= |p| && ReadUnits(p, at, count).Some?
    ensures var units := ReadUnits(p, at, count).value;
            && |units| == count && Fitting(units) && Occurs(p, at, EncodeUnits(units))
            && 20 * count <= |EncodeUnits(units)| && at + |EncodeUnits(units)| <= |p|
    decreases count
  {
    hide Occurs, ReadUnit, EncodeUnit, SurfaceUnit.Valid;
    if count == 0 {
      EmptyOccurs(p, at);
    } else {
      UnitsRead(p, at, count - 1);
      var rest := ReadUnits(p, at, count - 1).value;
      var next := at + |EncodeUnits(rest)|;
      UnitRead(p, next);
      var last := ReadUnit(p, next).value;
      assert (rest + [last])[..count - 1] == rest;
      OccursSplit(p, at, EncodeUnits(rest), EncodeUnit(last));
      OccursWithin(p, next, EncodeUnit(last));
    }
  }

  lemma {:induction false} UnitsPrefix(p: seq<nat>, at: nat, i: nat, count: nat)
    requires IsBytes(p) && i <= count && ReadUnits(p, at, count).Some?
    ensures ReadUnits(p, at, i).Some?
    decreases count
  {
    hide ReadUnit, EncodeUnit;
    if i < count {
      UnitsPrefix(p, at, i, count - 1);
    }
  }

  /** The document in a byte string, when the whole string is the encoding of one. */
  function ReadDocument(p: seq<Byte>): Option<LosslessDocument> {
    if |p| < 28 || p[..8] != MAGIC || Value(p[8..12]) != VERSION then None
    else
      var rawLength, unitCount := Value(p[12..20]), Value(p[20..28]);
      if 28 + rawLength > |p| then None
      else
        var units := ReadUnits(p, 28 + rawLength, unitCount);
        if units.None? || 28 + rawLength + |EncodeUnits(units.value)| != |p| then None
        else
          var d := LosslessDocument(p[28..28 + rawLength], units.value);
          if d.Valid() then Some(d) else None
  }

  lemma HeaderRead(p: seq<Byte>, d: LosslessDocument)
    requires |d.raw| < U64_LIMIT && |d.units| < U64_LIMIT
    ensures |Header(d)| == 28
    ensures Occurs(p, 0, Header(d)) <==>
            |p| >= 28 && p[..8] == MAGIC && Value(p[8..12]) == VERSION && Value(p[12..20]) == |d.raw| && Value(p[20..28]) == |d.units|
  {
    hide LittleEndian, Value, Power;
    Powers();
    var version, rawLength, unitCount := LittleEndian(VERSION, 4), LittleEndian(|d.raw|, 8), LittleEndian(|d.units|, 8);
    OccursSplit(p, 0, MAGIC, version + (rawLength + unitCount));
    OccursSplit(p, 8, version, rawLength + unitCount);
    OccursSplit(p, 12, rawLength, unitCount);
    IntRoundTrip(p, 8, 4, VERSION);
    IntRoundTrip(p, 12, 8, |d.raw|);
    IntRoundTrip(p, 20, 8, |d.units|);
  }

  /** A byte string is the encoding of a valid document exactly when that document is read from it. */
  lemma DocumentRoundTrip(p: seq<Byte>, d: LosslessDocument)
    requires d.Valid() && d.Representable()
    ensures p == Encoding(d) <==> ReadDocument(p) == Some(d)
  {
    hide Header, EncodeUnits, ReadUnits, LosslessDocument.Valid, Value, SurfaceUnit.Valid;
    HeaderRead(p, d);
    var body := 28 + |d.raw|;
    OccursSplit(p, 0, Header(d), d.raw + EncodeUnits(d.units));
    OccursSplit(p, 28, d.raw, EncodeUnits(d.units));
    AllFit(d);
    if body <= |p| {
      UnitsRoundTrip(p, body, d.units);
    }
    if ReadDocument(p).Some? {
      UnitsRead(p, 28 + Value(p[12..20]), Value(p[20..28]));
    }
    assert p[..|p|] == p;
    assert p == Encoding(d) <==> Occurs(p, 0, Encoding(d)) && |p| == |Encoding(d)|;
  }

  lemma AllFit(d: LosslessDocument)
    requires d.Valid() && d.Representable()
    ensures Fitting(d.units)
  {
  }

  lemma ReadIsRepresentable(p: seq<Byte>)
    requires ReadDocument(p).Some?
    ensures ReadDocument(p).value.Valid() && ReadDocument(p).value.Representable()
  {
    hide ReadUnits, LosslessDocument.Valid, SurfaceUnit.Valid;
    Powers();
    DigitsOfValue(p[12..20]);
    DigitsOfValue(p[20..28]);
    UnitsRead(p, 28 + Value(p[12..20]), Value(p[20..28]));
  }

  // ----- reversed spans

  /** A span that ends before it starts stands at the position. */
  predicate ReversedAt(p: seq<nat>, at: nat)
    requires IsBytes(p)
  {
    U64At(p, at).Some? && U64At(p, at + 8).Some? && U64At(p, at).value > U64At(p, at + 8).value
  }

  /** Behind some valid units, before `count` are read, stands a reversed span. */
  ghost predicate ReversedAmong(p: seq<nat>, at: nat, count: nat)
    requires IsBytes(p)
  {
    exists i :: 0 <= i < count && ReversedBehind(p, at, i)
  }

  predicate ReversedBehind(p: seq<nat>, at: nat, i: nat)
    requires IsBytes(p)
  {
    ReadUnits(p, at, i).Some? && ReversedAt(p, at + |EncodeUnits(ReadUnits(p, at, i).value)|)
  }

  /** The byte string is a document but for a reversed span, which comes before anything else that is wrong. */
  ghost predicate ReversedIn(p: seq<Byte>) {
    && |p| >= 28 && p[..8] == MAGIC && Value(p[8..12]) == VERSION
    && var body := 28 + Value(p[12..20]);
       body <= |p| && Value(p[20..28]) <= (|p| - body) / 20 && ReversedAmong(p, body, Value(p[20..28]))
  }

  lemma ReversedIsNoUnit(p: seq<nat>, at: nat)
    requires IsBytes(p) && ReversedAt(p, at)
    ensures ReadUnit(p, at).None?
  {
    hide ReadCuts, U64At;
  }

  /** When more units can be read, no reversed span stands among the first. */
  lemma {:induction false} NoneReversed(p: seq<nat>, at: nat, i: nat, count: nat)
    requires IsBytes(p) && i < count && ReadUnits(p, at, count).Some?
    ensures !ReversedBehind(p, at, i)
    decreases count
  {
    hide ReadUnit, EncodeUnits, ReversedAt;
    UnitsPrefix(p, at, i + 1, count);
    if ReversedBehind(p, at, i) {
      ReversedIsNoUnit(p, at + |EncodeUnits(ReadUnits(p, at, i).value)|);
    }
  }

  /** What one unit is encoded to occurs where all units do, behind its predecessors. */
  lemma {:induction false} UnitOccurs(p: seq<nat>, at: nat, units: seq<SurfaceUnit>, i: nat)
    requires i < |units| && Occurs(p, at, EncodeUnits(units))
    ensures Occurs(p, at, EncodeUnits(units[..i])) && Occurs(p, at + |EncodeUnits(units[..i])|, EncodeUnit(units[i]))
    decreases |units|
  {
    hide Occurs, EncodeUnit;
    var n := |units| - 1;
    OccursSplit(p, at, EncodeUnits(units[..n]), EncodeUnit(units[n]));
    if i < n {
      UnitOccurs(p, at, units[..n], i);
      assert units[..n][..i] == units[..i];
    }
  }

  lemma {:induction false} UnitsLength(units: seq<SurfaceUnit>)
    ensures |EncodeUnits(units)| >= 20 * |units|
  {
    hide LittleEndian, EncodeCuts;
    if units != [] {
      UnitsLength(units[..|units| - 1]);
    }
  }

  /** The first reversed unit of an accepted document. */
  lemma {:induction false} FirstReversed(d: LosslessDocument, n: nat) returns (i: nat)
    requires d.Accepted() && n <= |d.units| && exists k :: 0 <= k < n && d.units[k].start > d.units[k].end
    ensures i < n && d.units[i].start > d.units[i].end && forall k :: 0 <= k < i ==> d.units[k].Valid()
  {
    if exists k :: 0 <= k < n - 1 && d.units[k].start > d.units[k].end {
      i := FirstReversed(d, n - 1);
    } else {
      i := n - 1;
    }
  }

  lemma ReversedStands(p: seq<nat>, at: nat, u: SurfaceUnit)
    requires IsBytes(p) && Occurs(p, at, EncodeUnit(u)) && u.start > u.end
    ensures ReversedAt(p, at)
  {
    hide Occurs, U64At, LittleEndian, EncodeCuts;
    var tail := LittleEndian(|u.cuts|, 4) + EncodeCuts(u.cuts);
    OccursSplit(p, at, LittleEndian(u.start, 8), LittleEndian(u.end, 8) + tail);
    OccursSplit(p, at + 8, LittleEndian(u.end, 8), tail);
    U64RoundTrip(p, at, u.start);
    U64RoundTrip(p, at + 8, u.end);
  }

  /** The encoding of an accepted document with a reversed span shows that span to the reader. */
  lemma EncodingIsReversed(p: seq<Byte>, d: LosslessDocument)
    requires d.Accepted() && d.Representable() && !d.Forward() && p == Encoding(d)
    ensures ReversedIn(p)
  {
    hide Header, EncodeUnits, ReadUnits, EncodeUnit, Value, LosslessDocument.Accepted, SurfaceUnit.Valid, ReversedAt;
    var body := 28 + |d.raw|;
    assert p[0..|p|] == p;
    OccursSplit(p, 0, Header(d), d.raw + EncodeUnits(d.units));
    HeaderRead(p, d);
    OccursSplit(p, 28, d.raw, EncodeUnits(d.units));
    UnitsLength(d.units);
    var i := FirstReversed(d, |d.units|);
    UnitOccurs(p, body, d.units, i);
    UnitsRoundTrip(p, body, d.units[..i]);
    ReversedStands(p, body + |EncodeUnits(d.units[..i])|, d.units[i]);
    assert ReversedBehind(p, body, i);
  }

  class BinaryReader {
    const input: seq<Byte>
    var position: nat

    constructor (input: seq<Byte>)
      ensures this.input == input && position == 0
    {
      this.input := input;
      position := 0;
    }

    function Remaining(): nat
      requires position <= |input|
      reads this
    {
      |input| - position
    }

    /** The next bytes; the position moves only on success. */
    method Take(count: nat) returns (r: Result<seq<Byte>, FormatError>)
      requires position <= |input|
      modifies this
      ensures r.Ok? <==> old(position) + count <= |input|
      ensures r.Ok? ==> position == old(position) + count && r.value == input[old(position)..position]
      ensures r.Err? ==> position == old(position) && r.error == Truncated
    {
      var end := position + count;
      if end > |input| {
        return Err(Truncated);
      }
      r := Ok(input[position..end]);
      position := end;
    }

    method ReadU32() returns (r: Result<nat, FormatError>)
      requires position <= |input|
      modifies this
      ensures r.Ok? <==> ReadInt(input, old(position), 4).Some?
      ensures r.Err? ==> r.error == Truncated
      ensures r.Ok? ==> position == old(position) + 4 <= |input| && r.value == ReadInt(input, old(position), 4).value < U32_LIMIT
    {
      var bytes := Take(4);
      if bytes.Err? {
        return Err(bytes.error);
      }
      Powers();
      DigitsOfValue(bytes.value);
      return Ok(Value(bytes.value));
    }

    method ReadU64() returns (r: Result<U64, FormatError>)
      requires position <= |input|
      modifies this
      ensures r.Ok? <==> U64At(input, old(position)).Some?
      ensures r.Err? ==> r.error == Truncated
      ensures r.Ok? ==> position == old(position) + 8 <= |input| && r.value == U64At(input, old(position)).value
    {
      var bytes := Take(8);
      if bytes.Err? {
        return Err(bytes.error);
      }
      Powers();
      DigitsOfValue(bytes.value);
      return Ok(Value(bytes.value));
    }
  }

  /** Reads one unit; succeeds exactly when a valid one stands there. */
  method DecodeUnit(reader: BinaryReader) returns (r: Result<SurfaceUnit, FormatError>)
    requires reader.position <= |reader.input|
    modifies reader
    ensures r.Ok? <==> ReadUnit(reader.input, old(reader.position)).Some?
    ensures r == Err(ReversedSpan) <==> ReversedAt(reader.input, old(reader.position))
    ensures r != Err(BadMagic)
    ensures r.Ok? ==> r.value == ReadUnit(reader.input, old(reader.position)).value
    ensures r.Ok? ==> reader.position == old(reader.position) + |EncodeUnit(r.value)| <= |reader.input|
  {
    hide ReadCuts, U64At, ReadInt, EncodeUnit, SurfaceUnit.Valid;
    ghost var at := reader.position;
    var start := reader.ReadU64();
    if start.Err? {
      return Err(start.error);
    }
    var end := reader.ReadU64();
    if end.Err? {
      return Err(end.error);
    }
    if start.value > end.value {
      Reversed(SurfaceUnit(start.value, end.value, []));
      return Err(ReversedSpan);
    }
    var cutCount := reader.ReadU32();
    if cutCount.Err? {
      return Err(cutCount.error);
    }
    if ReadCuts(reader.input, at + 20, cutCount.value).Some? {
      CutsRead(reader.input, at + 20, cutCount.value);
    }
    if cutCount.value > reader.Remaining() / 8 {
      return Err(ImpossibleCount);
    }
    var cuts := DecodeCuts(reader, cutCount.value);
    if cuts.Err? {
      return Err(cuts.error);
    }
    var unit := SurfaceUnit(start.value, end.value, cuts.value);
    var checked := unit.Validate();
    if checked.Err? {
      return Err(checked.error);
    }
    CutsRead(reader.input, at + 20, cutCount.value);
    UnitRoundTrip(reader.input, at, unit);
    return Ok(unit);
  }

  lemma Reversed(u: SurfaceUnit)
    ensures u.start > u.end ==> forall cuts :: !SurfaceUnit(u.start, u.end, cuts).Valid()
  {
  }

  method DecodeCuts(reader: BinaryReader, count: nat) returns (r: Result<seq<U64>, FormatError>)
    requires reader.position <= |reader.input|
    modifies reader
    ensures r.Ok? <==> ReadCuts(reader.input, old(reader.position), count).Some?
    ensures r.Err? ==> r.error == Truncated
    ensures r.Ok? ==> r.value == ReadCuts(reader.input, old(reader.position), count).value
    ensures r.Ok? ==> reader.position == old(reader.position) + 8 * count <= |reader.input|
  {
    hide U64At;
    ghost var at := reader.position;
    var cuts := [];
    var i := 0;
    while i < count
      invariant 0 <= i <= count && reader.position == at + 8 * i <= |reader.input|
      invariant ReadCuts(reader.input, at, i) == Some(cuts)
    {
      if ReadCuts(reader.input, at, count).Some? {
        CutsPrefix(reader.input, at, i + 1, count);
      }
      var cut := reader.ReadU64();
      if cut.Err? {
        return Err(cut.error);
      }
      cuts := cuts + [cut.value];
      i := i + 1;
    }
    return Ok(cuts);
  }

  lemma {:induction false} CutsPrefix(p: seq<nat>, at: nat, i: nat, count: nat)
    requires IsBytes(p) && i <= count && ReadCuts(p, at, count).Some?
    ensures ReadCuts(p, at, i).Some?
    decreases count
  {
    if i < count {
      CutsPrefix(p, at, i, count - 1);
    }
  }

  method DecodeUnits(reader: BinaryReader, count: nat) returns (r: Result<seq<SurfaceUnit>, FormatError>)
    requires reader.position <= |reader.input|
    modifies reader
    ensures r.Ok? <==> ReadUnits(reader.input, old(reader.position), count).Some?
    ensures r == Err(ReversedSpan) <==> ReversedAmong(reader.input, old(reader.position), count)
    ensures r != Err(BadMagic)
    ensures r.Ok? ==> r.value == ReadUnits(reader.input, old(reader.position), count).value
    ensures r.Ok? ==> reader.position == old(reader.position) + |EncodeUnits(r.value)| <= |reader.input|
  {
    hide ReadUnit, EncodeUnit, ReversedAt;
    ghost var at := reader.position;
    var units := [];
    var i := 0;
    while i < count
      invariant 0 <= i <= count && reader.position == at + |EncodeUnits(units)| <= |reader.input|
      invariant ReadUnits(reader.input, at, i) == Some(units)
    {
      if ReadUnits(reader.input, at, count).Some? {
        UnitsPrefix(reader.input, at, i + 1, count);
      }
      var unit := DecodeUnit(reader);
      if unit.Err? {
        ReversedHere(reader.input, at, i, count);
        return Err(unit.error);
      }
      assert (units + [unit.value])[..|units|] == units;
      units := units + [unit.value];
      i := i + 1;
    }
    NoReversedAmong(reader.input, at, count);
    return Ok(units);
  }

  lemma NoReversedAmong(p: seq<nat>, at: nat, count: nat)
    requires IsBytes(p) && ReadUnits(p, at, count).Some?
    ensures !ReversedAmong(p, at, count)
  {
    hide ReversedBehind;
    forall i | 0 <= i < count
      ensures !ReversedBehind(p, at, i)
    {
      NoneReversed(p, at, i, count);
    }
  }

  /** Where no unit can be read, a reversed span among all units can only stand right there. */
  lemma ReversedHere(p: seq<nat>, at: nat, i: nat, count: nat)
    requires IsBytes(p) && i < count && ReadUnits(p, at, i).Some? && ReadUnits(p, at, i + 1).None?
    ensures ReversedAmong(p, at, count) <==> ReversedBehind(p, at, i)
  {
    hide ReadUnits, ReversedBehind;
    forall j | 0 <= j < count && ReversedBehind(p, at, j)
      ensures j == i
    {
      if j < i {
        NoneReversed(p, at, j, i);
      } else if j > i {
        assert ReadUnits(p, at, j).Some? by { BehindIsRead(p, at, j); }
        UnitsPrefix(p, at, i + 1, j);
      }
    }
  }

  lemma BehindIsRead(p: seq<nat>, at: nat, j: nat)
    requires IsBytes(p) && ReversedBehind(p, at, j)
    ensures ReadUnits(p, at, j).Some?
  {
  }

  /**
   * Decodes a byte string. It is accepted exactly when it is the encoding of a valid document, and then
   * that document comes out: no count guard ever turns a real encoding away.
   */
  method DecodeBinary(input: seq<Byte>) returns (r: Result<LosslessDocument, FormatError>)
    ensures r.Ok? ==> r.value.Valid() && r.value.Representable() && Encoding(r.value) == input
    ensures forall d: LosslessDocument :: d.Valid() && d.Representable() && Encoding(d) == input ==> r == Ok(d)
    ensures r == Err(BadMagic) <==> |input| >= 8 && input[..8] != MAGIC
    ensures r == Err(ReversedSpan) <==> ReversedIn(input)
  {
    hide ReversedIn;
    r := Decode(input);
    if r.Ok? {
      ReadIsRepresentable(input);
      DocumentRoundTrip(input, r.value);
    }
    forall d: LosslessDocument | d.Valid() && d.Representable() && Encoding(d) == input
      ensures r == Ok(d)
    {
      DocumentRoundTrip(input, d);
    }
  }

  method Decode(input: seq<Byte>) returns (r: Result<LosslessDocument, FormatError>)
    ensures r.Ok? <==> ReadDocument(input).Some?
    ensures r.Ok? ==> r.value == ReadDocument(input).value
    ensures r == Err(BadMagic) <==> |input| >= 8 && input[..8] != MAGIC
    ensures r == Err(ReversedSpan) <==> ReversedIn(input)
  {
    hide ReadUnits, EncodeUnits, LosslessDocument.Valid, LosslessDocument.Accepted, SurfaceUnit.Valid, Value, ReversedAmong;
    var reader := new BinaryReader(input);
    var magic := reader.Take(8);
    if magic.Err? {
      return Err(Truncated);
    }
    if magic.value != MAGIC {
      return Err(BadMagic);
    }
    var version := reader.ReadU32();
    if version.Err? {
      return Err(Truncated);
    }
    if version.value != VERSION {
      return Err(UnsupportedVersion);
    }
    var rawLength := reader.ReadU64();
    if rawLength.Err? {
      return Err(Truncated);
    }
    var unitCount := reader.ReadU64();
    if unitCount.Err? {
      return Err(Truncated);
    }
    var raw := reader.Take(rawLength.value);
    if raw.Err? {
      return Err(Truncated);
    }
    ghost var body := reader.position;
    if ReadUnits(input, body, unitCount.value).Some? {
      UnitsRead(input, body, unitCount.value);
    }
    if unitCount.value > reader.Remaining() / 20 {
      return Err(ImpossibleCount);
    }
    var units := DecodeUnits(reader, unitCount.value);
    if units.Err? {
      return Err(units.error);
    }
    NoReversedAmong(input, body, unitCount.value);
    if reader.Remaining() != 0 {
      return Err(TrailingBytes);
    }
    UnitsRead(input, body, unitCount.value);
    var d := LosslessDocument(raw.value, units.value);
    FittingIsForward(d);
    AcceptedIsValid(d);
    var checked := d.Validate();
    if checked.Err? {
      return Err(checked.error);
    }
    return Ok(d);
  }

  lemma FittingIsForward(d: LosslessDocument)
    requires Fitting(d.units)
    ensures d.Forward()
  {
  }

  /**
   * Encodes a document and decodes the bytes. Every accepted document is encoded; it comes back exactly when all
   * its spans run forward, and otherwise the decoder reports the reversed span.
   */
  method RoundTrip(d: LosslessDocument) returns (r: Result<LosslessDocument, FormatError>)
    requires d.Accepted() && d.Representable()
    ensures r == if d.Forward() then Ok(d) else Err(ReversedSpan)
  {
    hide Encoding, LosslessDocument.Valid, LosslessDocument.Accepted, ReversedIn, LosslessDocument.Forward;
    AcceptedIsValid(d);
    var encoded := EncodeBinary(d);
    EncodingIsBytes(d);
    var bytes: seq<Byte> := encoded.value;
    r := DecodeBinary(bytes);
    if !d.Forward() {
      EncodingIsReversed(bytes, d);
    }
  }

  /** The smallest such document: three bytes under a unit from 2 to 1. It is accepted and encoded, and refused when read. */
  lemma ReversedUnitIsLost() returns (d: LosslessDocument)
    ensures d == LosslessDocument([0, 0, 0], [SurfaceUnit(2, 1, [])])
    ensures d.Accepted() && d.Representable() && !d.Valid() && IsBytes(Encoding(d))
    ensures ReadDocument(Encoding(d)).None? && ReversedIn(Encoding(d))
  {
    hide Encoding, ReversedIn;
    d := LosslessDocument([0, 0, 0], [SurfaceUnit(2, 1, [])]);
    assert d.units[0].start > d.units[0].end;
    EncodingIsBytes(d);
    EncodingIsReversed(Encoding(d), d);
    ReversedIsNoDocument(Encoding(d));
  }

  lemma ReversedIsNoDocument(p: seq<Byte>)
    requires ReversedIn(p)
    ensures ReadDocument(p).None?
  {
    hide ReadUnits, ReversedAmong;
    var body, count := 28 + Value(p[12..20]), Value(p[20..28]);
    if ReadUnits(p, body, count).Some? {
      NoReversedAmong(p, body, count);
    }
  }

  lemma EncodingIsBytes(d: LosslessDocument)
    ensures IsBytes(Encoding(d))
  {
    hide EncodeUnits, LittleEndian;
    UnitsAreBytes(d.units);
  }

  lemma {:induction false} UnitsAreBytes(units: seq<SurfaceUnit>)
    ensures IsBytes(EncodeUnits(units))
  {
    hide EncodeCuts, LittleEndian;
    if units != [] {
      UnitsAreBytes(units[..|units| - 1]);
      CutsAreBytes(units[|units| - 1].cuts);
    }
  }

  lemma {:induction false} CutsAreBytes(cuts: seq<U64>)
    ensures IsBytes(EncodeCuts(cuts))
  {
    hide LittleEndian;
    if cuts != [] {
      CutsAreBytes(cuts[..|cuts| - 1]);
    }
  }
}
