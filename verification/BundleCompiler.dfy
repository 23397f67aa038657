/** Compilation of states and edges into tables, and the checks the compiled tables must pass. */
module BundleCompiler {
  import opened Common
  import opened Bytecode
  import opened ByteStrings
  import opened ProgramValidator
  import opened ConditionLanguage
  import opened ConditionMeaning
  import opened CompiledMeaning
  import opened Conditions
  import Vm = ConditionVm
  import opened EdgeLayout
  import opened Templates

  datatype BinaryEdge = BinaryEdge(declaredFrom: nat, target: nat, morpheme: nat, template: nat, templateStart: nat,
                                   templateCount: nat, conditionStart: nat, conditionLength: nat, conditionCount: nat, flags: nat)

  datatype BinaryState = BinaryState(key: nat, zemberekId: nat, morpheme: nat, flags: nat, edgeStart: nat, edgeCount: nat,
                                     aliasStart: nat, aliasCount: nat)

  /** The sections that edges point into. */
  datatype Sections = Sections(conditions: seq<nat>, templates: seq<nat>) {
    predicate Prefixes(longer: Sections) {
      conditions <= longer.conditions && templates <= longer.templates
    }
  }

  function Keys(states: seq<StateRecord>): (r: seq<string>)
    ensures |r| == |states| && forall i :: 0 <= i < |r| ==> r[i] == states[i].key
  {
    seq(|states|, i requires 0 <= i < |states| => states[i].key)
  }

  // ----- grouping by owner

  ghost predicate Grouped(groups: map<string, seq<EdgeRecord>>, edges: seq<EdgeRecord>) {
    && (forall k :: k in groups ==> groups[k] == OwnedBy(edges, k) && groups[k] != [])
    && (forall k :: k !in groups ==> OwnedBy(edges, k) == [])
  }

  lemma OwnedByNext(edges: seq<EdgeRecord>, i: nat, key: string)
    requires i < |edges|
    ensures OwnedBy(edges[..i + 1], key) == OwnedBy(edges[..i], key) + if edges[i].owner == key then [edges[i]] else []
  {
    assert edges[..i + 1][..i] == edges[..i];
  }

  method GroupByOwner(edges: seq<EdgeRecord>) returns (groups: map<string, seq<EdgeRecord>>)
    ensures Grouped(groups, edges)
  {
    hide OwnedBy;
    groups := map[];
    var i := 0;
    assert edges[..0] == [];
    NothingOwned();
    while i < |edges|
      invariant 0 <= i <= |edges|
      invariant Grouped(groups, edges[..i])
    {
      var e := edges[i];
      var group := if e.owner in groups then groups[e.owner] else [];
      forall k
        ensures OwnedBy(edges[..i + 1], k) == OwnedBy(edges[..i], k) + if e.owner == k then [e] else []
      {
        OwnedByNext(edges, i, k);
      }
      groups := groups[e.owner := group + [e]];
      i := i + 1;
    }
    assert edges[..i] == edges;
  }

  lemma NothingOwned()
    ensures forall k :: OwnedBy([], k) == []
  {
  }

  lemma {:induction false} OwnedByMembers(edges: seq<EdgeRecord>, key: string)
    ensures forall e :: e in OwnedBy(edges, key) <==> e in edges && e.owner == key
  {
    if edges != [] {
      var n := |edges| - 1;
      OwnedByMembers(edges[..n], key);
      assert edges == edges[..n] + [edges[n]];
    }
  }

  /** The groups whose states have not been seen yet. */
  ghost predicate Unclaimed(remaining: map<string, seq<EdgeRecord>>, groups: map<string, seq<EdgeRecord>>, seen: seq<string>) {
    forall k :: (k in remaining <==> k in groups && k !in seen) && (k in remaining ==> remaining[k] == groups[k])
  }

  lemma Claim(remaining: map<string, seq<EdgeRecord>>, groups: map<string, seq<EdgeRecord>>, edges: seq<EdgeRecord>, keys: seq<string>, i: nat)
    requires Grouped(groups, edges) && i < |keys| && Distinct(keys) && Unclaimed(remaining, groups, keys[..i])
    ensures (if keys[i] in remaining then remaining[keys[i]] else []) == OwnedBy(edges, keys[i])
    ensures Unclaimed(remaining - {keys[i]}, groups, keys[..i + 1])
  {
    hide OwnedBy;
    assert keys[i] !in keys[..i];
    assert keys[..i + 1] == keys[..i] + [keys[i]];
  }

  /** Nothing remains unclaimed exactly when every owner is a state. */
  lemma NothingRemains(remaining: map<string, seq<EdgeRecord>>, groups: map<string, seq<EdgeRecord>>, edges: seq<EdgeRecord>, keys: seq<string>)
    requires Grouped(groups, edges) && Unclaimed(remaining, groups, keys)
    ensures |remaining| == 0 <==> OwnersKnown(keys, edges)
  {
    hide OwnedBy;
    forall k
      ensures forall e :: e in OwnedBy(edges, k) <==> e in edges && e.owner == k
    {
      OwnedByMembers(edges, k);
    }
    if |remaining| > 0 {
      assert remaining.Keys != {};
      var k :| k in remaining;
      var e := OwnedBy(edges, k)[0];
      assert e in OwnedBy(edges, k);
    }
    forall e | e in edges && |remaining| == 0
      ensures e.owner in keys
    {
      assert e in OwnedBy(edges, e.owner);
    }
  }

  lemma EmptyLayout(keys: seq<string>, edges: seq<EdgeRecord>)
    ensures Layout(keys[..0], edges) == []
  {
  }

  lemma SortedGroup(edges: seq<EdgeRecord>, key: string)
    ensures forall e :: e in SortBySourceOrder(OwnedBy(edges, key)) ==> e in edges
  {
    OwnedByMembers(edges, key);
    SortIsStable(OwnedBy(edges, key), 0);
    forall e | e in SortBySourceOrder(OwnedBy(edges, key))
      ensures e in edges
    {
      assert e in multiset(OwnedBy(edges, key));
    }
  }

  lemma LayoutMembers(keys: seq<string>, edges: seq<EdgeRecord>)
    requires Distinct(keys) && OwnersKnown(keys, edges)
    ensures forall e :: e in edges ==> e in Layout(keys, edges)
  {
    LayoutIsPermutation(keys, edges);
    forall e | e in edges
      ensures e in Layout(keys, edges)
    {
      assert e in multiset(Layout(keys, edges));
    }
  }

  // ----- the compiler

  /** Every name of an edge is known, its condition resolves, its tokens have at most one letter, and its counts fit 16 bits. */
  predicate Compiles(e: EdgeRecord, names: Names) {
    && Compilable(e.tokens) && |e.tokens| < 0x1_0000
    && e.conditionCount < 0x1_0000 && (e.condition.Some? ==> Resolve(e.condition.value, names).Some?)
    && e.declaredFrom in names.states && e.target in names.states && e.morpheme in names.morphemes
    && e.template in names.strings
  }

  function ProgramOf(e: EdgeRecord, names: Names): seq<nat> {
    if e.condition.None? || !Compiles(e, names) then [] else Encode(Resolve(e.condition.value, names).value, names.ToLimits())
  }

  function NullsOf(e: EdgeRecord): nat {
    if e.condition.None? then 0 else NullSentinels(e.condition.value)
  }

  function NullTotal(edges: seq<EdgeRecord>): nat {
    if edges == [] then 0 else NullTotal(edges[..|edges| - 1]) + NullsOf(edges[|edges| - 1])
  }

  function AllPrograms(edges: seq<EdgeRecord>, names: Names): seq<nat> {
    if edges == [] then [] else AllPrograms(edges[..|edges| - 1], names) + ProgramOf(edges[|edges| - 1], names)
  }

  /** The records of the edge's template stand where the compiled edge points. */
  ghost predicate TemplateAt(b: BinaryEdge, e: EdgeRecord, templates: seq<nat>) {
    && Compilable(e.tokens) && b.templateCount == |e.tokens|
    && Occurs(templates, RECORD_BYTES * b.templateStart, AllBytes(e.tokens))
  }

  /** A compiled edge names the states and the morpheme of its record, keeps its count and flag, and points at its
      template and at the program of its condition. */
  ghost predicate Represents(b: BinaryEdge, e: EdgeRecord, sections: Sections, names: Names) {
    && Compiles(e, names) && b.conditionCount == e.conditionCount && b.flags == (if e.ownerMatches then 1 else 0)
    && IndexOf(names.states, e.declaredFrom) == Some(b.declaredFrom)
    && IndexOf(names.states, e.target) == Some(b.target)
    && IndexOf(names.morphemes, e.morpheme) == Some(b.morpheme) && IndexOf(names.strings, e.template) == Some(b.template)
    && TemplateAt(b, e, sections.templates)
    && b.conditionStart + b.conditionLength <= |sections.conditions|
    && sections.conditions[b.conditionStart..b.conditionStart + b.conditionLength] == ProgramOf(e, names)
  }

  /** A compiled edge without condition carries no program and may always be followed; the program of any other edge
      evaluates to the truth of the edge's condition. */
  lemma CompiledEdgeMeans(b: BinaryEdge, e: EdgeRecord, sections: Sections, names: Names, s: Situation)
    requires names.Valid() && s.Valid() && Represents(b, e, sections, names)
    ensures var program := sections.conditions[b.conditionStart..b.conditionStart + b.conditionLength];
            && (program == [] <==> e.condition.None?)
            && (e.condition.Some? ==>
                  Vm.Evaluation(program, s) == if Combines(e.condition.value) then Some(Holds(e.condition.value, s, names)) else None)
  {
    hide Resolve, Encode, Holds, Combines, Vm.Evaluation;
    if e.condition.Some? {
      ProgramComputes(e.condition.value, names);
      NotEmpty(Resolve(e.condition.value, names).value, names.ToLimits());
    }
  }

  lemma RepresentsLonger(b: BinaryEdge, e: EdgeRecord, sections: Sections, longer: Sections, names: Names)
    requires Represents(b, e, sections, names) && sections.Prefixes(longer)
    ensures Represents(b, e, longer, names)
  {
    hide Compiles, IndexOf, ProgramOf, Compilable, AllBytes;
    var start, end := b.conditionStart, b.conditionStart + b.conditionLength;
    assert longer.conditions[start..end] == sections.conditions[start..end];
    OccursLonger(sections.templates, longer.templates, RECORD_BYTES * b.templateStart, AllBytes(e.tokens));
  }

  lemma OccursLonger(p: seq<nat>, longer: seq<nat>, at: nat, part: seq<nat>)
    requires Occurs(p, at, part) && p <= longer
    ensures Occurs(longer, at, part)
  {
    assert longer[at..at + |part|] == p[at..at + |part|];
  }

  ghost predicate AllRepresent(bs: seq<BinaryEdge>, es: seq<EdgeRecord>, sections: Sections, names: Names) {
    |bs| == |es| && forall i :: 0 <= i < |bs| ==> Represents(bs[i], es[i], sections, names)
  }

  lemma SameLength(bs: seq<BinaryEdge>, es: seq<EdgeRecord>, sections: Sections, names: Names)
    requires AllRepresent(bs, es, sections, names)
    ensures |bs| == |es|
  {
  }

  lemma AppendEdge(bs: seq<BinaryEdge>, es: seq<EdgeRecord>, sections: Sections, b: BinaryEdge, e: EdgeRecord, longer: Sections, names: Names)
    requires AllRepresent(bs, es, sections, names) && sections.Prefixes(longer) && Represents(b, e, longer, names)
    ensures AllRepresent(bs + [b], es + [e], longer, names)
    ensures NullTotal(es + [e]) == NullTotal(es) + NullsOf(e)
    ensures AllPrograms(es + [e], names) == AllPrograms(es, names) + ProgramOf(e, names)
  {
    hide Represents, ProgramOf;
    forall i | 0 <= i < |bs|
      ensures Represents(bs[i], es[i], longer, names)
    {
      RepresentsLonger(bs[i], es[i], sections, longer, names);
    }
    assert (es + [e])[..|es|] == es;
  }

  class Compiler {
    const names: Names
    const states: seq<StateRecord>
    const edges: seq<EdgeRecord>
    const conditions: ConditionCompiler
    var binaryEdges: seq<BinaryEdge>
    var stateEdgeRanges: seq<(nat, nat)>
    var aliases: seq<nat>
    var templates: seq<nat>
    ghost var layout: seq<EdgeRecord>   // the records behind the compiled edges

    ghost predicate Valid()
      reads this, conditions
    {
      && conditions.names == names && names.Valid()
      && AllRepresent(binaryEdges, layout, Sections(conditions.output, templates), names)
      && IsBytes(templates) && |templates| % RECORD_BYTES == 0
      && conditions.output == AllPrograms(layout, names) && conditions.nullSentinels == NullTotal(layout)
    }

    constructor (names: Names, states: seq<StateRecord>, edges: seq<EdgeRecord>)
      requires names.Valid()
      ensures Valid() && this.names == names && this.states == states && this.edges == edges
      ensures layout == [] && stateEdgeRanges == [] && aliases == [] && fresh(conditions)
    {
      this.names, this.states, this.edges := names, states, edges;
      conditions := new ConditionCompiler(names);
      binaryEdges, stateEdgeRanges, aliases, templates, layout := [], [], [], [], [];
    }

    /** Compiles the tokens of a template behind the records emitted so far. */
    method CompileTemplate(tokens: seq<TemplateToken>) returns (ok: bool)
      requires IsBytes(templates)
      modifies this`templates
      ensures ok <==> Compilable(tokens)
      ensures ok ==> templates == old(templates) + AllBytes(tokens) && IsBytes(templates)
    {
      hide TokenBytes;
      for i := 0 to |tokens|
        invariant Compilable(tokens[..i]) && templates == old(templates) + AllBytes(tokens[..i]) && IsBytes(templates)
      {
        var r := CompileTemplateToken(templates, tokens[i]);
        if r.None? {
          return false;
        }
        assert tokens[..i + 1][..i] == tokens[..i];
        TokenBytesAreBytes(tokens[i]);
        templates := r.value;
      }
      assert tokens[..|tokens|] == tokens;
      return true;
    }

    /** Compiles an edge: its template, its condition, then the indices of its names. */
    method CompileEdge(e: EdgeRecord) returns (ok: bool)
      requires Valid()
      modifies this`binaryEdges, this`layout, this`templates, conditions
      ensures ok <==> Compiles(e, names)
      ensures ok ==> Valid() && layout == old(layout) + [e]
    {
      hide Names.Valid, AllRepresent, Encode, Resolve, NullTotal, AllPrograms, AllBytes, Compilable, IsBytes, IndexOf;
      ghost var sections := Sections(conditions.output, templates);
      var templateStart := |templates| / RECORD_BYTES;
      ok := CompileTemplate(e.tokens);
      if !ok || |e.tokens| >= 0x1_0000 {
        return false;
      }
      var start := |conditions.output|;
      if e.condition.Some? {
        ok := conditions.Compile(e.condition.value);
        if !ok {
          return false;
        }
      }
      var length := |conditions.output| - start;
      var declaredFrom, target := IndexOf(names.states, e.declaredFrom), IndexOf(names.states, e.target);
      var morpheme, template := IndexOf(names.morphemes, e.morpheme), IndexOf(names.strings, e.template);
      IndexOfKnown(names.states, e.declaredFrom);
      IndexOfKnown(names.states, e.target);
      IndexOfKnown(names.morphemes, e.morpheme);
      IndexOfKnown(names.strings, e.template);
      if declaredFrom.None? || target.None? || morpheme.None? || template.None? || e.conditionCount >= 0x1_0000 {
        return false;
      }
      var b := BinaryEdge(declaredFrom.value, target.value, morpheme.value, template.value, templateStart, |e.tokens|,
                          start, length, e.conditionCount, if e.ownerMatches then 1 else 0);
      assert TemplateAt(b, e, templates);
      AppendEdge(binaryEdges, layout, sections, b, e, Sections(conditions.output, templates), names);
      binaryEdges := binaryEdges + [b];
      layout := layout + [e];
      return true;
    }

    method CompileGroup(group: seq<EdgeRecord>) returns (ok: bool)
      requires Valid()
      modifies this`binaryEdges, this`layout, this`templates, conditions
      ensures ok <==> forall e :: e in group ==> Compiles(e, names)
      ensures ok ==> Valid() && layout == old(layout) + group
    {
      hide Names.Valid, AllRepresent, Compiles, NullTotal, AllPrograms;
      var i := 0;
      while i < |group|
        invariant 0 <= i <= |group| && Valid()
        invariant layout == old(layout) + group[..i]
        invariant forall k :: 0 <= k < i ==> Compiles(group[k], names)
      {
        ok := CompileEdge(group[i]);
        if !ok {
          return false;
        }
        i := i + 1;
      }
      assert group[..i] == group;
      return true;
    }

    /** Emits every state's edges, stably sorted, and records where they went. */
    method CompileEdgesAndStateRanges() returns (ok: bool)
      requires Valid() && layout == [] && stateEdgeRanges == [] && Distinct(Keys(states))
      modifies this`binaryEdges, this`layout, this`templates, this`stateEdgeRanges, conditions
      ensures ok <==> OwnersKnown(Keys(states), edges) && forall e :: e in edges ==> Compiles(e, names)
      ensures ok ==> Valid() && layout == Layout(Keys(states), edges)
      ensures ok ==> |stateEdgeRanges| == |states| && forall k :: 0 <= k < |states| ==> stateEdgeRanges[k] == RangeOf(Keys(states), edges, k)
    {
      hide Names.Valid, AllRepresent, Compiles, NullTotal, AllPrograms, Layout, OwnedBy, SortBySourceOrder, OwnersKnown, Distinct, Grouped, Unclaimed;
      ghost var keys := Keys(states);
      var groups := GroupByOwner(edges);
      var remaining := groups;
      var i := 0;
      EmptyLayout(keys, edges);
      AllUnclaimed(groups, keys);
      while i < |states|
        invariant 0 <= i <= |states| && Valid()
        invariant layout == Layout(keys[..i], edges)
        invariant Unclaimed(remaining, groups, keys[..i])
        invariant |stateEdgeRanges| == i && forall k :: 0 <= k < i ==> stateEdgeRanges[k] == RangeOf(keys, edges, k)
        invariant forall e :: e in layout ==> Compiles(e, names)
      {
        var start := |binaryEdges|;
        SameLength(binaryEdges, layout, Sections(conditions.output, templates), names);
        var key := states[i].key;
        Claim(remaining, groups, edges, keys, i);
        var group := if key in remaining then remaining[key] else [];
        remaining := remaining - {key};
        SortedGroup(edges, key);
        ok := CompileGroup(SortBySourceOrder(group));
        if !ok {
          return false;
        }
        LayoutNext(keys, edges, i);
        SameLength(binaryEdges, layout, Sections(conditions.output, templates), names);
        stateEdgeRanges := stateEdgeRanges + [(start, |binaryEdges| - start)];
        i := i + 1;
      }
      assert keys[..i] == keys;
      NothingRemains(remaining, groups, edges, keys);
      if |remaining| > 0 {
        return false;
      }
      LayoutMembers(keys, edges);
      return true;
    }

    /** Emits the string ids of the aliases of one state. */
    method CompileAliases(fields: seq<string>) returns (ok: bool)
      modifies this`aliases
      ensures ok <==> Known(fields, names.strings)
      ensures ok ==> aliases == old(aliases) + Ids(fields, names)
    {
      hide IndexOf;
      for k := 0 to |fields|
        invariant Known(fields[..k], names.strings) && aliases == old(aliases) + Ids(fields[..k], names)
      {
        var id := IndexOf(names.strings, fields[k]);
        IndexOfKnown(names.strings, fields[k]);
        if id.None? {
          assert fields[k] in fields;
          return false;
        }
        assert fields[..k + 1] == fields[..k] + [fields[k]];
        IdsNext(fields[..k], fields[k], names);
        aliases := aliases + [id.value];
      }
      assert fields[..|fields|] == fields;
      return true;
    }

    /** Emits one record per state, with its edge range and the range of its aliases; fails for an unknown name. */
    method CompileStates() returns (records: Option<seq<BinaryState>>)
      requires |stateEdgeRanges| == |states| && aliases == []
      modifies this`aliases
      ensures records.Some? <==> forall k :: 0 <= k < |states| ==> StateCompiles(states[k], names)
      ensures records.Some? ==> aliases == AliasIds(states, names) && |records.value| == |states|
      ensures records.Some? ==> forall k :: 0 <= k < |states| ==> IsRecordOf(records.value[k], states, k, stateEdgeRanges[k], names)
    {
      hide IndexOf, Known, Ids, HasFlags, FlagsOf;
      var output: seq<BinaryState> := [];
      var i := 0;
      while i < |states|
        invariant 0 <= i <= |states|
        invariant aliases == AliasIds(states[..i], names) && |aliases| == |AllAliases(states[..i])|
        invariant |output| == i && forall k :: 0 <= k < i ==> IsRecordOf(output[k], states, k, stateEdgeRanges[k], names)
        invariant forall k :: 0 <= k < i ==> StateCompiles(states[k], names)
      {
        var record := states[i];
        var start := |aliases|;
        assert states[..i + 1][..i] == states[..i];
        var ok := CompileAliases(record.declaredFields);
        if !ok {
          return None;
        }
        IdsLength(record.declaredFields, names);
        FlagsAreRead(record);
        var (edgeStart, edgeCount) := stateEdgeRanges[i];
        var key, zemberekId := IndexOf(names.strings, record.key), IndexOf(names.strings, record.zemberekId);
        var morpheme := IndexOf(names.morphemes, record.morpheme);
        IndexOfKnown(names.strings, record.key);
        IndexOfKnown(names.strings, record.zemberekId);
        IndexOfKnown(names.morphemes, record.morpheme);
        if key.None? || zemberekId.None? || morpheme.None? {
          return None;
        }
        output := output + [BinaryState(key.value, zemberekId.value, morpheme.value, FlagsOf(record), edgeStart, edgeCount,
                                        start, |record.declaredFields|)];
        i := i + 1;
      }
      assert states[..i] == states;
      return Some(output);
    }
  }

  // ----- string ids

  /** The string ids of known texts. */
  function Ids(texts: seq<string>, names: Names): seq<nat> {
    var ids := IndexAll(names.strings, texts);
    if ids.Some? then ids.value else []
  }

  lemma IdsNext(texts: seq<string>, text: string, names: Names)
    requires Known(texts, names.strings) && text in names.strings
    ensures Known(texts + [text], names.strings)
    ensures IndexOf(names.strings, text).Some?
    ensures Ids(texts + [text], names) == Ids(texts, names) + [IndexOf(names.strings, text).value]
  {
    IndexOfKnown(names.strings, text);
    assert (texts + [text])[..|texts|] == texts;
  }

  lemma IdsLength(texts: seq<string>, names: Names)
    requires Known(texts, names.strings)
    ensures |Ids(texts, names)| == |texts|
  {
  }

  /** All ids are positions of the string table. */
  predicate InTable(ids: seq<nat>, strings: seq<string>) {
    forall k :: 0 <= k < |ids| ==> ids[k] < |strings|
  }

  function Texts(ids: seq<nat>, strings: seq<string>): (r: seq<string>)
    requires InTable(ids, strings)
    ensures |r| == |ids| && forall k :: 0 <= k < |r| ==> r[k] == strings[ids[k]]
  {
    seq(|ids|, k requires 0 <= k < |ids| => strings[ids[k]])
  }

  /** Looking ids up undoes interning. */
  lemma TextsOfIds(texts: seq<string>, names: Names)
    requires Known(texts, names.strings)
    ensures InTable(Ids(texts, names), names.strings) && Texts(Ids(texts, names), names.strings) == texts
  {
    hide IndexOf;
    var ids := Ids(texts, names);
    forall k | 0 <= k < |texts|
      ensures ids[k] < |names.strings| && names.strings[ids[k]] == texts[k]
    {
      IndexOfKnown(names.strings, texts[k]);
    }
  }

  /** Every name of a state is known. */
  predicate StateCompiles(s: StateRecord, names: Names) {
    s.key in names.strings && s.zemberekId in names.strings && Known(s.declaredFields, names.strings) && s.morpheme in names.morphemes
  }

  function AliasIds(states: seq<StateRecord>, names: Names): seq<nat> {
    if states == [] then [] else AliasIds(states[..|states| - 1], names) + Ids(states[|states| - 1].declaredFields, names)
  }

  function FlagsOf(s: StateRecord): nat {
    (if s.terminal then 1 else 0) + (if s.derivative then 2 else 0) + (if s.posRoot then 4 else 0)
  }

  /** The three flags as the runtime reads them: terminal, derivative, part-of-speech root, from the lowest bit on. */
  predicate HasFlags(flags: nat, s: StateRecord) {
    flags < 8 && (flags % 2 == 1 <==> s.terminal) && (flags / 2 % 2 == 1 <==> s.derivative) && (flags / 4 % 2 == 1 <==> s.posRoot)
  }

  lemma FlagsAreRead(s: StateRecord)
    ensures HasFlags(FlagsOf(s), s)
  {
  }

  function AllAliases(states: seq<StateRecord>): seq<string> {
    if states == [] then [] else AllAliases(states[..|states| - 1]) + states[|states| - 1].declaredFields
  }

  ghost predicate IsRecordOf(record: BinaryState, states: seq<StateRecord>, i: nat, edges: (nat, nat), names: Names)
    requires i < |states|
  {
    && IndexOf(names.strings, states[i].key) == Some(record.key) && IndexOf(names.strings, states[i].zemberekId) == Some(record.zemberekId)
    && HasFlags(record.flags, states[i])
    && IndexOf(names.morphemes, states[i].morpheme) == Some(record.morpheme)
    && record.edgeStart == edges.0 && record.edgeCount == edges.1
    && record.aliasStart == |AllAliases(states[..i])| && record.aliasCount == |states[i].declaredFields|
  }

  lemma AllUnclaimed(groups: map<string, seq<EdgeRecord>>, keys: seq<string>)
    ensures Unclaimed(groups, groups, keys[..0])
  {
  }

  // ----- the checks on compiled tables

  function EdgeTotal(records: seq<BinaryState>): nat {
    if records == [] then 0 else EdgeTotal(records[..|records| - 1]) + records[|records| - 1].edgeCount
  }

  function AliasTotal(records: seq<BinaryState>): nat {
    if records == [] then 0 else AliasTotal(records[..|records| - 1]) + records[|records| - 1].aliasCount
  }

  const UNBOUND := "unbound:"

  /** State `i` has known strings, a morpheme and known flags, continues both ranges, its aliases ascend from its key, and
      keys ascend. */
  predicate StateAccepted(records: seq<BinaryState>, i: nat, aliases: seq<nat>, edgeCount: nat, strings: seq<string>, limits: Limits)
    requires i < |records|
  {
    var s := records[i];
    && s.key < |strings| && s.zemberekId < |strings| && s.morpheme < limits.morphemes && s.flags < 8
    && s.edgeStart == EdgeTotal(records[..i]) && s.edgeStart + s.edgeCount <= edgeCount
    && s.aliasStart == AliasTotal(records[..i]) && s.aliasStart + s.aliasCount <= |aliases|
    && AliasesAccepted(aliases[s.aliasStart..s.aliasStart + s.aliasCount], strings[s.key], strings)
    && (i > 0 && records[i - 1].key < |strings| ==> Less(strings[records[i - 1].key], strings[s.key]))
  }

  /** The aliases are known, ascend, and start with the key; without aliases, the key says so. */
  predicate AliasesAccepted(ids: seq<nat>, key: string, strings: seq<string>) {
    && InTable(ids, strings) && Ascending(Texts(ids, strings))
    && if ids != [] then strings[ids[0]] == key else UNBOUND <= key
  }

  method ValidateAliases(ids: seq<nat>, key: string, strings: seq<string>) returns (ok: bool)
    ensures ok <==> AliasesAccepted(ids, key, strings)
  {
    hide Less;
    var previous: Option<string> := None;
    for k := 0 to |ids|
      invariant InTable(ids[..k], strings) && Ascending(Texts(ids[..k], strings))
      invariant previous == if k == 0 then None else Some(strings[ids[..k][k - 1]])
    {
      if ids[k] >= |strings| {
        return false;
      }
      var alias := strings[ids[k]];
      if previous.Some? && !Less(previous.value, alias) {
        assert InTable(ids, strings) ==> !Less(Texts(ids, strings)[k - 1], Texts(ids, strings)[k]);
        return false;
      }
      assert forall j :: 0 <= j < k ==> ids[..k + 1][j] == ids[..k][j];
      assert forall j :: 0 <= j < k ==> Texts(ids[..k + 1], strings)[j] == Texts(ids[..k], strings)[j];
      previous := Some(alias);
    }
    assert ids[..|ids|] == ids;
    return if ids != [] then strings[ids[0]] == key else UNBOUND <= key;
  }

  /** Accepts exactly when every state is and the ranges cover both tables. */
  method ValidateStates(records: seq<BinaryState>, aliases: seq<nat>, edgeCount: nat, strings: seq<string>, limits: Limits)
    returns (ok: bool)
    ensures ok <==> (forall i :: 0 <= i < |records| ==> StateAccepted(records, i, aliases, edgeCount, strings, limits))
                    && EdgeTotal(records) == edgeCount && AliasTotal(records) == |aliases|
  {
    hide AliasesAccepted, Less;
    var previousKey: Option<string> := None;
    var expectedEdgeStart, expectedAliasStart := 0, 0;
    var i := 0;
    while i < |records|
      invariant 0 <= i <= |records|
      invariant expectedEdgeStart == EdgeTotal(records[..i]) && expectedAliasStart == AliasTotal(records[..i])
      invariant i > 0 ==> records[i - 1].key < |strings|
      invariant previousKey == if i == 0 then None else Some(strings[records[i - 1].key])
      invariant forall k :: 0 <= k < i ==> StateAccepted(records, k, aliases, edgeCount, strings, limits)
    {
      var s := records[i];
      ghost var accepted := StateAccepted(records, i, aliases, edgeCount, strings, limits);
      assert records[..i + 1][..i] == records[..i];
      if s.key >= |strings| || s.zemberekId >= |strings| || s.morpheme >= limits.morphemes || s.flags >= 8 {
        return false;
      }
      if s.edgeStart != expectedEdgeStart || s.edgeStart + s.edgeCount > edgeCount {
        return false;
      }
      expectedEdgeStart := s.edgeStart + s.edgeCount;
      if s.aliasStart != expectedAliasStart || s.aliasStart + s.aliasCount > |aliases| {
        return false;
      }
      var key := strings[s.key];
      var aliased := ValidateAliases(aliases[s.aliasStart..s.aliasStart + s.aliasCount], key, strings);
      if !aliased {
        return false;
      }
      expectedAliasStart := s.aliasStart + s.aliasCount;
      if previousKey.Some? && !Less(previousKey.value, key) {
        return false;
      }
      previousKey := Some(key);
      i := i + 1;
    }
    assert records[..i] == records;
    return expectedEdgeStart == edgeCount && expectedAliasStart == |aliases|;
  }

  /** What the bundle loader guarantees about states, and the interner about their names. */
  predicate StatesValidated(states: seq<StateRecord>, names: Names) {
    && Ascending(Keys(states))
    && forall i :: 0 <= i < |states| ==>
         && StateCompiles(states[i], names)
         && Ascending(states[i].declaredFields)
         && (if states[i].declaredFields != [] then states[i].declaredFields[0] == states[i].key else UNBOUND <= states[i].key)
  }

  /** The records compiled from the states and the edge layout. */
  ghost predicate CompiledStates(records: seq<BinaryState>, states: seq<StateRecord>, edges: seq<EdgeRecord>, names: Names) {
    |records| == |states| && forall k :: 0 <= k < |states| ==> IsRecordOf(records[k], states, k, RangeOf(Keys(states), edges, k), names)
  }

  lemma {:induction false} CompiledTotals(records: seq<BinaryState>, states: seq<StateRecord>, edges: seq<EdgeRecord>, names: Names, i: nat)
    requires CompiledStates(records, states, edges, names) && i <= |states|
    ensures EdgeTotal(records[..i]) == |Layout(Keys(states)[..i], edges)|
    ensures AliasTotal(records[..i]) == |AllAliases(states[..i])|
  {
    hide OwnedBy, SortBySourceOrder;
    if i > 0 {
      CompiledTotals(records, states, edges, names, i - 1);
      assert records[..i][..i - 1] == records[..i - 1] && states[..i][..i - 1] == states[..i - 1];
      RangeContents(Keys(states), edges, i - 1);
    }
  }

  lemma {:induction false} AliasRange(states: seq<StateRecord>, names: Names, i: nat)
    requires i < |states| && forall k :: 0 <= k < |states| ==> StateCompiles(states[k], names)
    ensures |AliasIds(states, names)| == |AllAliases(states)|
    ensures var start, count := |AllAliases(states[..i])|, |states[i].declaredFields|;
            && start + count <= |AllAliases(states)|
            && AliasIds(states, names)[start..start + count] == Ids(states[i].declaredFields, names)
    decreases |states|
  {
    hide Ids, Known;
    var n := |states| - 1;
    AliasLengths(states, names);
    AliasLengths(states[..n], names);
    if i < n {
      AliasRange(states[..n], names, i);
      assert states[..n][..i] == states[..i];
    }
  }

  lemma {:induction false} AliasLengths(states: seq<StateRecord>, names: Names)
    requires forall k :: 0 <= k < |states| ==> StateCompiles(states[k], names)
    ensures |AliasIds(states, names)| == |AllAliases(states)|
    ensures states != [] ==> |Ids(states[|states| - 1].declaredFields, names)| == |states[|states| - 1].declaredFields|
  {
    hide Ids, Known;
    if states != [] {
      AliasLengths(states[..|states| - 1], names);
      IdsLength(states[|states| - 1].declaredFields, names);
    }
  }

  lemma CompiledStateAccepted(records: seq<BinaryState>, states: seq<StateRecord>, edges: seq<EdgeRecord>, names: Names, i: nat)
    requires CompiledStates(records, states, edges, names) && StatesValidated(states, names) && i < |states|
    ensures StateAccepted(records, i, AliasIds(states, names), |Layout(Keys(states), edges)|, names.strings, names.ToLimits())
  {
    hide Layout, AllAliases, AliasIds, OwnedBy, SortBySourceOrder, EdgeTotal, AliasTotal, Ascending, Less, Ids, IndexOf, Known;
    CompiledTotals(records, states, edges, names, i);
    RangeContents(Keys(states), edges, i);
    AliasRange(states, names, i);
    IndexOfKnown(names.strings, states[i].key);
    IndexOfKnown(names.strings, states[i].zemberekId);
    IndexOfKnown(names.morphemes, states[i].morpheme);
    TextsOfIds(states[i].declaredFields, names);
    if i > 0 {
      KeysAscend(states, i);
      IndexOfKnown(names.strings, states[i - 1].key);
    }
  }

  lemma KeysAscend(states: seq<StateRecord>, i: nat)
    requires Ascending(Keys(states)) && 0 < i < |states|
    ensures Less(states[i - 1].key, states[i].key)
  {
    assert Less(Keys(states)[i - 1], Keys(states)[i]);
  }

  /** Compiled state tables always pass the range, alias and key checks, and their ranges cover every edge. */
  lemma CompiledStatesAccepted(records: seq<BinaryState>, states: seq<StateRecord>, edges: seq<EdgeRecord>, names: Names)
    requires CompiledStates(records, states, edges, names) && StatesValidated(states, names) && OwnersKnown(Keys(states), edges)
    ensures forall i :: 0 <= i < |records| ==> StateAccepted(records, i, AliasIds(states, names), |edges|, names.strings, names.ToLimits())
    ensures EdgeTotal(records) == |edges| && AliasTotal(records) == |AliasIds(states, names)|
  {
    hide Layout, AllAliases, OwnedBy, EdgeTotal, AliasTotal, StateAccepted, CompiledStates;
    AscendingIsDistinct(Keys(states));
    LayoutIsPermutation(Keys(states), edges);
    SameSize(Layout(Keys(states), edges), edges);
    forall i | 0 <= i < |records|
      ensures StateAccepted(records, i, AliasIds(states, names), |edges|, names.strings, names.ToLimits())
    {
      assert |records| == |states| by { SameCount(records, states, edges, names); }
      CompiledStateAccepted(records, states, edges, names, i);
    }
    SameCount(records, states, edges, names);
    AllCompile(states, names);
    AliasLengths(states, names);
    CompiledTotals(records, states, edges, names, |states|);
    assert records[..|states|] == records && states[..|states|] == states && Keys(states)[..|states|] == Keys(states);
  }

  lemma SameCount(records: seq<BinaryState>, states: seq<StateRecord>, edges: seq<EdgeRecord>, names: Names)
    requires CompiledStates(records, states, edges, names)
    ensures |records| == |states|
  {
  }

  lemma {:induction false} AscendingPairs(values: seq<string>, i: nat, j: nat)
    requires Ascending(values) && i < j < |values|
    ensures Less(values[i], values[j])
    decreases j
  {
    hide Less;
    if i < j - 1 {
      AscendingPairs(values, i, j - 1);
      LessIsTransitive(values[i], values[j - 1], values[j]);
    }
  }

  lemma AscendingIsDistinct(values: seq<string>)
    requires Ascending(values)
    ensures Distinct(values)
  {
    hide Ascending, Less;
    forall i, j | 0 <= i < j < |values|
      ensures values[i] != values[j]
    {
      AscendingPairs(values, i, j);
      LessIsAsymmetric(values[i], values[j]);
    }
  }

  // ----- the checks on compiled edges

  /** What the program validator reports for a program it accepts. */
  function Reported(program: seq<nat>, limits: Limits): Option<ConditionValidation> {
    if program == [] then Some(ConditionValidation(0, 0))
    else
      var trees := Parse(program, 0, [], limits);
      if trees.Some? && |trees.value| == 1 then Some(ConditionValidation(ZemberekCount(trees.value[0]), NullCount(trees.value[0])))
      else None
  }

  /** The program range is inside the section and its program is accepted with the recorded count. */
  predicate ProgramAccepted(b: BinaryEdge, code: seq<nat>, limits: Limits) {
    && b.conditionStart + b.conditionLength <= |code|
    && var report := Reported(code[b.conditionStart..b.conditionStart + b.conditionLength], limits);
       report.Some? && report.value.zemberekCount == b.conditionCount
  }

  /** The records of the template are inside the section and spell the edge's template. */
  predicate TemplateAccepted(b: BinaryEdge, templates: seq<nat>, strings: seq<string>) {
    && b.template < |strings| && b.templateStart + b.templateCount <= |templates| / RECORD_BYTES
    && SectionText(templates, b.templateStart, b.templateCount) == Some(strings[b.template])
  }

  predicate EdgeAccepted(b: BinaryEdge, sections: Sections, strings: seq<string>, limits: Limits) {
    && b.declaredFrom < limits.states && b.target < limits.states && b.morpheme < limits.morphemes && b.flags < 2
    && TemplateAccepted(b, sections.templates, strings) && ProgramAccepted(b, sections.conditions, limits)
  }

  function ReportedNulls(b: BinaryEdge, code: seq<nat>, limits: Limits): nat {
    if ProgramAccepted(b, code, limits)
    then Reported(code[b.conditionStart..b.conditionStart + b.conditionLength], limits).value.nullDictionarySentinels
    else 0
  }

  function AllReportedNulls(edges: seq<BinaryEdge>, code: seq<nat>, limits: Limits): nat {
    if edges == [] then 0
    else AllReportedNulls(edges[..|edges| - 1], code, limits) + ReportedNulls(edges[|edges| - 1], code, limits)
  }

  method ValidateProgram(program: seq<nat>, limits: Limits) returns (r: Option<ConditionValidation>)
    requires IsBytes(program) && Representable(limits)
    ensures r == Reported(program, limits)
  {
    hide Parse, IsBytes, NullCount, ZemberekCount;
    var validator := new ConditionProgramValidator(program, limits);
    r := validator.Validate();
    if program != [] {
      if r.Some? {
        var t :| Parse(program, 0, [], limits) == Some([t]) && r.value == ConditionValidation(ZemberekCount(t), NullCount(t));
      } else if Reported(program, limits).Some? {
        SingleTree(program, limits);
      }
    }
  }

  lemma SingleTree(program: seq<nat>, limits: Limits)
    requires program != [] && Reported(program, limits).Some?
    ensures Accepted(program, limits)
  {
    hide Parse;
    var trees := Parse(program, 0, [], limits).value;
    assert trees == [trees[0]];
  }

  /** Accepts exactly when every edge is and the sentinels add up to the recorded total. */
  method ValidateEdges(edges: seq<BinaryEdge>, sections: Sections, strings: seq<string>, limits: Limits, expectedNulls: nat)
    returns (ok: bool)
    requires IsBytes(sections.conditions) && Representable(limits)
    ensures ok <==> (forall b :: b in edges ==> EdgeAccepted(b, sections, strings, limits))
                    && AllReportedNulls(edges, sections.conditions, limits) == expectedNulls
  {
    hide Reported, SectionText;
    var code := sections.conditions;
    var nulls := 0;
    var i := 0;
    while i < |edges|
      invariant 0 <= i <= |edges|
      invariant forall b :: b in edges[..i] ==> EdgeAccepted(b, sections, strings, limits)
      invariant nulls == AllReportedNulls(edges[..i], code, limits)
    {
      var b := edges[i];
      assert edges[..i + 1] == edges[..i] + [b] && edges[..i + 1][..i] == edges[..i];
      if b.declaredFrom >= limits.states || b.target >= limits.states || b.morpheme >= limits.morphemes || b.flags >= 2
         || b.template >= |strings| || b.templateStart + b.templateCount > |sections.templates| / RECORD_BYTES {
        assert !EdgeAccepted(b, sections, strings, limits);
        return false;
      }
      var reconstructed := ReconstructBinaryTemplate(sections.templates, b.templateStart, b.templateCount);
      if reconstructed != Some(strings[b.template]) || b.conditionStart + b.conditionLength > |code| {
        assert !EdgeAccepted(b, sections, strings, limits);
        return false;
      }
      var report := ValidateProgram(code[b.conditionStart..b.conditionStart + b.conditionLength], limits);
      if report.None? || report.value.zemberekCount != b.conditionCount {
        assert !EdgeAccepted(b, sections, strings, limits);
        return false;
      }
      nulls := nulls + report.value.nullDictionarySentinels;
      i := i + 1;
    }
    assert edges[..i] == edges;
    return nulls == expectedNulls;
  }

  /** What the bundle loader guarantees about edges and the interner about their templates, with every list short enough for its 16-bit count. */
  ghost predicate EdgeValidated(e: EdgeRecord, names: Names) {
    && e.declaredFrom in names.states && e.target in names.states && e.morpheme in names.morphemes
    && e.template in names.strings && Text(e.tokens) == Some(e.template) && |e.tokens| < 0x1_0000
    && e.conditionCount < 0x1_0000
    && (if e.condition.None? then e.conditionCount == 0
        else Validated(e.condition.value, names) && Encodable(e.condition.value, names)
             && e.conditionCount == ZemberekConditionCount(e.condition.value))
  }

  lemma ValidatedCompiles(e: EdgeRecord, names: Names)
    requires names.Valid() && EdgeValidated(e, names)
    ensures Compiles(e, names) && IsBytes(ProgramOf(e, names))
    ensures Reported(ProgramOf(e, names), names.ToLimits()) == Some(ConditionValidation(e.conditionCount, NullsOf(e)))
  {
    hide Resolve, Validated, Encodable, Encode, Parse, ZemberekCount, NullCount, ZemberekConditionCount, NullSentinels;
    TextParts(e.tokens);
    if e.condition.Some? {
      CompiledIsAccepted(e.condition.value, names);
      NotEmpty(Resolve(e.condition.value, names).value, names.ToLimits());
    }
  }

  /** A compiled edge passes the checks exactly when no letter of its template is NUL. */
  lemma CompiledEdgeAccepted(b: BinaryEdge, e: EdgeRecord, sections: Sections, names: Names)
    requires names.Valid() && Represents(b, e, sections, names) && EdgeValidated(e, names) && IsBytes(sections.templates)
    ensures EdgeAccepted(b, sections, names.strings, names.ToLimits()) <==> !HasNul(e.tokens)
    ensures ReportedNulls(b, sections.conditions, names.ToLimits()) == NullsOf(e)
  {
    hide Reported, ProgramOf, NullsOf, Compiles, HasNul, Text, AllBytes, Names.Valid, Validated, Encodable, ReadTokens, IsBytes;
    ValidatedCompiles(e, names);
    IndexOfKnown(names.states, e.declaredFrom);
    IndexOfKnown(names.states, e.target);
    IndexOfKnown(names.morphemes, e.morpheme);
    IndexOfKnown(names.strings, e.template);
    TemplateRoundTrip(sections.templates, RECORD_BYTES * b.templateStart, e.tokens);
  }

  /** Compiled edges pass the checks exactly when no letter of a template is NUL; their sentinels always add up to those of the source. */
  lemma {:induction false} CompiledEdgesAccepted(bs: seq<BinaryEdge>, es: seq<EdgeRecord>, sections: Sections, names: Names)
    requires names.Valid() && AllRepresent(bs, es, sections, names) && IsBytes(sections.templates)
    requires forall e :: e in es ==> EdgeValidated(e, names)
    ensures (forall b :: b in bs ==> EdgeAccepted(b, sections, names.strings, names.ToLimits())) <==> forall e :: e in es ==> !HasNul(e.tokens)
    ensures AllReportedNulls(bs, sections.conditions, names.ToLimits()) == NullTotal(es)
  {
    hide EdgeValidated, Represents, EdgeAccepted, ReportedNulls, Names.Valid, NullsOf, HasNul, IsBytes;
    if bs != [] {
      var n := |bs| - 1;
      CompiledEdgesAccepted(bs[..n], es[..n], sections, names);
      CompiledEdgeAccepted(bs[n], es[n], sections, names);
      assert bs == bs[..n] + [bs[n]] && es == es[..n] + [es[n]];
    }
  }

  lemma {:induction false} ProgramsAreBytes(es: seq<EdgeRecord>, names: Names)
    requires names.Valid() && forall e :: e in es ==> EdgeValidated(e, names)
    ensures IsBytes(AllPrograms(es, names))
  {
    hide EdgeValidated, ProgramOf;
    if es != [] {
      ProgramsAreBytes(es[..|es| - 1], names);
      ValidatedCompiles(es[|es| - 1], names);
    }
  }

  lemma LayoutValidated(keys: seq<string>, edges: seq<EdgeRecord>, names: Names)
    requires Distinct(keys) && OwnersKnown(keys, edges) && forall e :: e in edges ==> EdgeValidated(e, names)
    ensures forall e :: e in Layout(keys, edges) ==> EdgeValidated(e, names) && e in edges
    ensures |Layout(keys, edges)| == |edges|
  {
    hide Distinct, OwnersKnown, EdgeValidated, Layout;
    LayoutIsPermutation(keys, edges);
    SameSize(Layout(keys, edges), edges);
    forall e | e in Layout(keys, edges)
      ensures EdgeValidated(e, names) && e in edges
    {
      assert e in multiset(edges);
    }
  }

  /** Compiles the states and edges of a validated bundle and runs the checks of the loader on the result. They accept it
      exactly when no letter of a template is NUL, which the compiler writes like no letter at all. */
  method CompileAndCheck(names: Names, states: seq<StateRecord>, edges: seq<EdgeRecord>) returns (accepted: bool)
    requires names.Valid() && StatesValidated(states, names) && OwnersKnown(Keys(states), edges)
    requires forall e :: e in edges ==> EdgeValidated(e, names)
    ensures accepted <==> forall e :: e in edges ==> !HasNul(e.tokens)
  {
    hide StatesValidated, OwnersKnown, EdgeValidated, Layout, Compiles, AllRepresent, NullTotal, AllPrograms, EdgeAccepted, StateAccepted,
      AliasIds, EdgeTotal, AliasTotal, AllReportedNulls, StateCompiles, Distinct, IsBytes, OwnedBy, HasNul, IsRecordOf, Names.Valid;
    var compiler := new Compiler(names, states, edges);
    KeysDistinct(states, names);
    forall e | e in edges
      ensures Compiles(e, names)
    {
      ValidatedCompiles(e, names);
    }
    var ok := compiler.CompileEdgesAndStateRanges();
    assert ok;
    LayoutValidated(Keys(states), edges, names);
    LayoutMembers(Keys(states), edges);
    ProgramsAreBytes(compiler.layout, names);
    var sections := Sections(compiler.conditions.output, compiler.templates);
    CompiledEdgesAccepted(compiler.binaryEdges, compiler.layout, sections, names);
    SameLength(compiler.binaryEdges, compiler.layout, sections, names);
    LimitsRepresentable(names);
    var edgesAccepted := ValidateEdges(compiler.binaryEdges, sections, names.strings, names.ToLimits(), compiler.conditions.nullSentinels);
    AllCompile(states, names);
    var records := compiler.CompileStates();
    CompiledStatesAccepted(records.value, states, edges, names);
    var statesAccepted := ValidateStates(records.value, compiler.aliases, |compiler.binaryEdges|, names.strings, names.ToLimits());
    return statesAccepted && edgesAccepted;
  }

  lemma LimitsRepresentable(names: Names)
    requires names.Valid()
    ensures Representable(names.ToLimits())
  {
  }

  lemma AllCompile(states: seq<StateRecord>, names: Names)
    requires StatesValidated(states, names)
    ensures forall k :: 0 <= k < |states| ==> StateCompiles(states[k], names)
  {
  }

  lemma KeysDistinct(states: seq<StateRecord>, names: Names)
    requires StatesValidated(states, names)
    ensures Distinct(Keys(states))
  {
    AscendingIsDistinct(Keys(states));
  }
}
