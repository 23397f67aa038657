/** Validation of condition trees and their compilation to bytecode. */
module Conditions {
  import opened Common
  import opened Bytecode
  import opened ByteStrings
  import opened ConditionLanguage
  import opened ConditionMeaning
  import opened CompiledMeaning
  import opened Lexicographic
  import opened ProgramValidator
  import Probing
  import Vm = ConditionVm

  // ----- validation of the source tree

  predicate NullableDictionarySet(items: seq<Option<string>>, dictionary: seq<string>) {
    forall i :: 0 <= i < |items| ==>
      if items[i].None? then i == |items| - 1
      else items[i].value in dictionary && forall j :: 0 <= j < i && items[j].Some? ==> Less(items[j].value, items[i].value)
  }

  /** The conditions the bundle loader lets through. */
  predicate Validated(c: Condition, names: Names) {
    if c.AllOf? then |c.children| >= 2 && forall k :: k in c.children ==> Validated(k, names)
    else if c.AnyOf? then |c.children| >= 2 && forall k :: k in c.children ==> Validated(k, names)
    else if c.Negation? then Validated(c.child, names)
    else if IsFeature(c) then ValidatedFeature(c, names)
    else if IsState(c) then ValidatedState(c, names)
    else ValidatedMorphemeOrSurface(c, names)
  }

  predicate ValidatedFeature(c: Condition, names: Names)
    requires IsFeature(c)
  {
    match c
    case HasRootAttribute(a) => a in names.roots
    case HasAnyRootAttribute(attributes) => Known(attributes, names.roots)
    case HasPhoneticAttribute(a) => a in names.phonetics
    case DictionaryItemIs(item) => item in names.dictionary
    case RootPrimaryPosIs(pos) => pos in names.primaries
    case SecondaryPosIs(pos) => pos in names.secondaries
    case DictionaryItemIsAny(items) => NullableDictionarySet(items, names.dictionary)
    case DictionaryItemIsNone(items) => NullableDictionarySet(items, names.dictionary)
    case HasAnySuffixSurface => true
    case HasTail => true
    case HasNoTail => true
  }

  predicate ValidatedState(c: Condition, names: Names)
    requires IsState(c)
  {
    match c
    case PreviousStateIs(s) => s in names.states
    case PreviousStateIsNot(s) => s in names.states
    case CurrentStateIs(s) => s in names.states
    case CurrentStateIsNot(s) => s in names.states
    case LastDerivationIs(s) => s in names.states
    case HasDerivation => true
    case LastDerivationIsAny(ss) => SortedKnown(ss, names.states)
    case CurrentGroupContainsAny(ss) => SortedKnown(ss, names.states)
    case PreviousGroupContains(ss) => SortedKnown(ss, names.states)
    case PreviousStateIsAny(ss) => SortedKnown(ss, names.states)
  }

  predicate ValidatedMorphemeOrSurface(c: Condition, names: Names)
    requires IsLeaf(c) && !IsFeature(c) && !IsState(c)
  {
    match c
    case HasTailSequence(ms) => Known(ms, names.morphemes)
    case ContainsMorphemeSequence(ms) => Known(ms, names.morphemes)
    case CurrentMorphemeIs(m) => m in names.morphemes
    case PreviousMorphemeIs(m) => m in names.morphemes
    case RootSurfaceIs(_) => true
    case RootSurfaceIsAny(_) => true
    case PreviousGroupContainsMorpheme(ms) => SortedKnown(ms, names.morphemes)
    case NoSurfaceAfterDerivation => true
    case ContainsMorpheme(ms) => SortedKnown(ms, names.morphemes)
    case PreviousMorphemeIsAny(ms) => SortedKnown(ms, names.morphemes)
    case CurrentMorphemeIsAny(ms) => SortedKnown(ms, names.morphemes)
  }

  predicate SortedKnown(values: seq<string>, names: seq<string>) {
    Ascending(values) && Known(values, names)
  }

  /** Each value is below its successor. */
  predicate Ascending(values: seq<string>) {
    forall i :: 0 < i < |values| ==> Less(values[i - 1], values[i])
  }

  predicate Known(values: seq<string>, names: seq<string>) {
    forall v :: v in values ==> v in names
  }

  lemma LessIsTransitive(a: string, b: string, c: string)
    requires Less(a, b) && Less(b, c)
    ensures Less(a, c)
  {
    BeforeIsTransitive(Scalars(a), Scalars(b), Scalars(c));
  }

  /** Extends an accepted dictionary set by one item. */
  lemma NullableGrows(items: seq<Option<string>>, i: nat, dictionary: seq<string>, previous: Option<string>, sawNull: bool)
    requires i < |items|
    requires Scanned(items[..i], dictionary, previous, sawNull)
    ensures NullableDictionarySet(items, dictionary) ==>
              !sawNull && (items[i].Some? ==> items[i].value in dictionary && (previous.Some? ==> Less(previous.value, items[i].value)))
    ensures !sawNull && items[i].None? ==> Scanned(items[..i + 1], dictionary, previous, true)
    ensures !sawNull && items[i].Some? && items[i].value in dictionary && (previous.Some? ==> Less(previous.value, items[i].value)) ==>
              Scanned(items[..i + 1], dictionary, items[i], false)
  {
    var front := items[..i];
    assert items[..i + 1] == front + [items[i]];
    if previous.Some? {
      var at := if sawNull then i - 2 else i - 1;
      assert front[at] == items[at] == previous;
      forall j | 0 <= j < i && items[j].Some? && items[i].Some? && Less(previous.value, items[i].value)
        ensures Less(items[j].value, items[i].value)
      {
        assert front[j] == items[j];
        if j != at {
          LessIsTransitive(items[j].value, previous.value, items[i].value);
        }
      }
    }
  }

  /** What the scan of a dictionary set has established about the items it has passed. */
  ghost predicate Scanned(items: seq<Option<string>>, dictionary: seq<string>, previous: Option<string>, sawNull: bool) {
    && NullableDictionarySet(items, dictionary)
    && (sawNull <==> items != [] && items[|items| - 1].None?)
    && previous == (if sawNull then (if |items| >= 2 then items[|items| - 2] else None)
                    else if items != [] then items[|items| - 1] else None)
  }

  /** A dictionary set is accepted exactly when it is strictly sorted, known, and has at most one null, at its end. */
  method ValidateNullableDictionarySet(items: seq<Option<string>>, dictionary: seq<string>) returns (ok: bool)
    ensures ok <==> NullableDictionarySet(items, dictionary)
  {
    hide NullableDictionarySet, Scanned;
    var previous: Option<string> := None;
    var sawNull := false;
    var i := 0;
    assert Scanned(items[..0], dictionary, None, false) by { NothingScanned(dictionary); }
    while i < |items|
      invariant 0 <= i <= |items|
      invariant Scanned(items[..i], dictionary, previous, sawNull)
    {
      NullableGrows(items, i, dictionary, previous, sawNull);
      if items[i].Some? {
        if sawNull {
          return false;
        }
        if previous.Some? && !Less(previous.value, items[i].value) {
          return false;
        }
        if items[i].value !in dictionary {
          return false;
        }
        previous := items[i];
      } else {
        if sawNull {
          return false;
        }
        sawNull := true;
      }
      i := i + 1;
    }
    assert items[..i] == items;
    ScannedIsValid(items, dictionary, previous, sawNull);
    return true;
  }

  lemma NothingScanned(dictionary: seq<string>)
    ensures Scanned([], dictionary, None, false)
  {
  }

  lemma ScannedIsValid(items: seq<Option<string>>, dictionary: seq<string>, previous: Option<string>, sawNull: bool)
    requires Scanned(items, dictionary, previous, sawNull)
    ensures NullableDictionarySet(items, dictionary)
  {
  }

  /** Every value is known. */
  method RequireKnown(values: seq<string>, table: seq<string>) returns (ok: bool)
    ensures ok <==> Known(values, table)
  {
    var i := 0;
    while i < |values|
      invariant 0 <= i <= |values|
      invariant forall k :: 0 <= k < i ==> values[k] in table
    {
      if values[i] !in table {
        return false;
      }
      i := i + 1;
    }
    return true;
  }

  method ValidateSortedUnique(values: seq<string>) returns (ok: bool)
    ensures ok <==> Ascending(values)
  {
    var i := 1;
    while i < |values|
      invariant 1 <= i
      invariant forall k :: 0 < k < i && k < |values| ==> Less(values[k - 1], values[k])
    {
      if !Less(values[i - 1], values[i]) {
        return false;
      }
      i := i + 1;
    }
    return true;
  }

  method ValidateSortedKnown(values: seq<string>, table: seq<string>) returns (ok: bool)
    ensures ok <==> SortedKnown(values, table)
  {
    ok := ValidateSortedUnique(values);
    if ok {
      ok := RequireKnown(values, table);
    }
  }

  /** Walks a condition and accepts exactly the validated ones. */
  method Validate(c: Condition, names: Names) returns (ok: bool)
    ensures ok <==> Validated(c, names)
    decreases c
  {
    hide NullableDictionarySet, SortedKnown;
    if c.AllOf? {
      ok := ValidateCombined(c.children, names);
    } else if c.AnyOf? {
      ok := ValidateCombined(c.children, names);
    } else if c.Negation? {
      ok := Validate(c.child, names);
    } else {
      hide ValidatedFeature, ValidatedState, ValidatedMorphemeOrSurface;
      if IsFeature(c) {
        ok := ValidateFeature(c, names);
      } else if IsState(c) {
        ok := ValidateState(c, names);
      } else {
        ok := ValidateMorphemeOrSurface(c, names);
      }
    }
  }

  method ValidateFeature(c: Condition, names: Names) returns (ok: bool)
    requires IsFeature(c)
    ensures ok <==> ValidatedFeature(c, names)
  {
    hide NullableDictionarySet;
    match c
    case HasRootAttribute(a) => ok := a in names.roots;
    case HasAnyRootAttribute(attributes) => ok := RequireKnown(attributes, names.roots);
    case HasPhoneticAttribute(a) => ok := a in names.phonetics;
    case DictionaryItemIs(item) => ok := item in names.dictionary;
    case RootPrimaryPosIs(pos) => ok := pos in names.primaries;
    case SecondaryPosIs(pos) => ok := pos in names.secondaries;
    case DictionaryItemIsAny(items) => ok := ValidateNullableDictionarySet(items, names.dictionary);
    case DictionaryItemIsNone(items) => ok := ValidateNullableDictionarySet(items, names.dictionary);
    case HasAnySuffixSurface => ok := true;
    case HasTail => ok := true;
    case HasNoTail => ok := true;
  }

  method ValidateState(c: Condition, names: Names) returns (ok: bool)
    requires IsState(c)
    ensures ok <==> ValidatedState(c, names)
  {
    hide SortedKnown;
    match c
    case PreviousStateIs(s) => ok := s in names.states;
    case PreviousStateIsNot(s) => ok := s in names.states;
    case CurrentStateIs(s) => ok := s in names.states;
    case CurrentStateIsNot(s) => ok := s in names.states;
    case LastDerivationIs(s) => ok := s in names.states;
    case HasDerivation => ok := true;
    case LastDerivationIsAny(ss) => ok := ValidateSortedKnown(ss, names.states);
    case CurrentGroupContainsAny(ss) => ok := ValidateSortedKnown(ss, names.states);
    case PreviousGroupContains(ss) => ok := ValidateSortedKnown(ss, names.states);
    case PreviousStateIsAny(ss) => ok := ValidateSortedKnown(ss, names.states);
  }

  method ValidateMorphemeOrSurface(c: Condition, names: Names) returns (ok: bool)
    requires IsLeaf(c) && !IsFeature(c) && !IsState(c)
    ensures ok <==> ValidatedMorphemeOrSurface(c, names)
  {
    hide SortedKnown;
    match c
    case HasTailSequence(ms) => ok := RequireKnown(ms, names.morphemes);
    case ContainsMorphemeSequence(ms) => ok := RequireKnown(ms, names.morphemes);
    case CurrentMorphemeIs(m) => ok := m in names.morphemes;
    case PreviousMorphemeIs(m) => ok := m in names.morphemes;
    case RootSurfaceIs(_) => ok := true;
    case RootSurfaceIsAny(_) => ok := true;
    case PreviousGroupContainsMorpheme(ms) => ok := ValidateSortedKnown(ms, names.morphemes);
    case NoSurfaceAfterDerivation => ok := true;
    case ContainsMorpheme(ms) => ok := ValidateSortedKnown(ms, names.morphemes);
    case PreviousMorphemeIsAny(ms) => ok := ValidateSortedKnown(ms, names.morphemes);
    case CurrentMorphemeIsAny(ms) => ok := ValidateSortedKnown(ms, names.morphemes);
  }

  method ValidateCombined(children: seq<Condition>, names: Names) returns (ok: bool)
    ensures ok <==> |children| >= 2 && forall k :: k in children ==> Validated(k, names)
    decreases children
  {
    hide Validated;
    if |children| < 2 {
      return false;
    }
    var i := 0;
    while i < |children|
      invariant 0 <= i <= |children|
      invariant forall k :: 0 <= k < i ==> Validated(children[k], names)
    {
      var valid := Validate(children[i], names);
      if !valid {
        return false;
      }
      i := i + 1;
    }
    return true;
  }

  /** Every list fits a 16-bit count and every surface is in the string table. */
  predicate Encodable(c: Condition, names: Names) {
    if c.AllOf? then |c.children| < 0x1_0000 && forall k :: k in c.children ==> Encodable(k, names)
    else if c.AnyOf? then |c.children| < 0x1_0000 && forall k :: k in c.children ==> Encodable(k, names)
    else if c.Negation? then Encodable(c.child, names)
    else if c.RootSurfaceIs? then c.surface in names.strings
    else if c.RootSurfaceIsAny? then |c.surfaces| < 0x1_0000 && Known(c.surfaces, names.strings)
    else ListSize(c) < 0x1_0000
  }

  /** The length of the list a condition carries; zero when it carries none. */
  function ListSize(c: Condition): nat
    requires IsLeaf(c)
  {
    if c.DictionaryItemIsAny? || c.DictionaryItemIsNone? then |c.items|
    else if c.HasTailSequence? || c.ContainsMorphemeSequence? || c.PreviousGroupContainsMorpheme? || c.ContainsMorpheme? ||
            c.PreviousMorphemeIsAny? || c.CurrentMorphemeIsAny? then |c.morphemes|
    else if c.LastDerivationIsAny? || c.CurrentGroupContainsAny? || c.PreviousGroupContains? || c.PreviousStateIsAny? then |c.states|
    else if c.RootSurfaceIsAny? then |c.surfaces|
    else 0
  }

  /** The count the bundle records for a condition: nested AND and OR are flattened, anything else is one. */
  function ZemberekConditionCount(c: Condition): nat {
    if c.AllOf? || c.AnyOf? then ChildCounts(c.children) else 1
  }

  function ChildCounts(children: seq<Condition>): nat {
    if children == [] then 0
    else
      var last := children[|children| - 1];
      ChildCounts(children[..|children| - 1]) + (if last.AllOf? || last.AnyOf? then ZemberekConditionCount(last) else 1)
  }

  /** Null sentinels in a condition. */
  function NullSentinels(c: Condition): nat {
    if c.AllOf? || c.AnyOf? then ChildNulls(c.children)
    else if c.Negation? then NullSentinels(c.child)
    else if c.DictionaryItemIsAny? || c.DictionaryItemIsNone? then multiset(c.items)[None]
    else 0
  }

  function ChildNulls(children: seq<Condition>): nat {
    if children == [] then 0 else ChildNulls(children[..|children| - 1]) + NullSentinels(children[|children| - 1])
  }

  // ----- validated conditions compile to accepted programs

  lemma OnlySetsHaveNulls(c: Condition)
    requires IsLeaf(c) && !c.DictionaryItemIsAny? && !c.DictionaryItemIsNone?
    ensures NullSentinels(c) == 0
  {
  }

  lemma NullableResolves(items: seq<Option<string>>, names: Names)
    requires names.Valid() && NullableDictionarySet(items, names.dictionary)
    ensures var r := IndexNullable(names.dictionary, items);
            r.Some? && NullableSet(r.value, |names.dictionary|)
    ensures multiset(items)[None] == if items != [] && items[|items| - 1].None? then 1 else 0
  {
    var r := IndexNullable(names.dictionary, items);
    forall i | 0 <= i < |items| && items[i].Some?
      ensures r.value[i] < |names.dictionary|
    {
      IndexOfKnown(names.dictionary, items[i].value);
    }
    forall i, j | 0 <= i < j < |items| && items[j].Some?
      ensures r.value[i] < r.value[j]
    {
      assert items[i].Some?;
      IndexOfMonotone(names.dictionary, items[i].value, items[j].value);
    }
    OneNull(items);
  }

  lemma OneNull(items: seq<Option<string>>)
    requires forall i :: 0 <= i < |items| && items[i].None? ==> i == |items| - 1
    ensures multiset(items)[None] == if items != [] && items[|items| - 1].None? then 1 else 0
  {
    if items != [] {
      var n := |items| - 1;
      assert items == items[..n] + [items[n]];
      assert None !in items[..n];
    }
  }

  /** An operand that fits the layout of its opcode. */
  ghost predicate GoodLeaf(leaf: Option<(nat, seq<nat>)>, limits: Limits, nulls: nat) {
    && leaf.Some?
    && ShapeOf(leaf.value.0, limits).Some? && ValidArgs(ShapeOf(leaf.value.0, limits).value, leaf.value.1)
    && NullCount(Leaf(leaf.value.0, leaf.value.1)) == nulls
  }

  lemma OneIsGood(opcode: nat, table: seq<string>, name: string, limits: Limits)
    requires name in table && !IsNullable(opcode)
    requires ShapeOf(opcode, limits) == Some(Index(|table|)) || (ShapeOf(opcode, limits) == Some(SmallIndex(|table|)) && |table| <= 256)
    ensures GoodLeaf(One(opcode, table, name), limits, 0)
  {
    hide ShapeOf;
    IndexOfKnown(table, name);
  }

  lemma ManyIsGood(opcode: nat, table: seq<string>, values: seq<string>, limits: Limits)
    requires Known(values, table) && |values| < 0x1_0000 && !IsNullable(opcode)
    requires ShapeOf(opcode, limits) == Some(IndexList(|table|))
    ensures GoodLeaf(Many(opcode, table, values), limits, 0)
  {
    hide ShapeOf;
    var r := IndexAll(table, values).value;
    forall i | 0 <= i < |r|
      ensures r[i] < |table|
    {
      IndexOfKnown(table, values[i]);
    }
  }

  lemma NullableIsGood(opcode: nat, items: seq<Option<string>>, names: Names)
    requires names.Valid() && NullableDictionarySet(items, names.dictionary) && |items| < 0x1_0000 && IsNullable(opcode)
    ensures GoodLeaf(Nullable(opcode, names.dictionary, items), names.ToLimits(), multiset(items)[None])
  {
    hide NullableDictionarySet, NullableSet, IndexNullable, IndexOf;
    NullableResolves(items, names);
    var r := IndexNullable(names.dictionary, items).value;
    if items != [] && items[|items| - 1].Some? {
      IndexOfKnown(names.dictionary, items[|items| - 1].value);
    }
  }

  lemma FeatureIsGood(c: Condition, names: Names)
    requires names.Valid() && IsFeature(c) && ValidatedFeature(c, names) && Encodable(c, names)
    ensures GoodLeaf(FeatureOf(c, names), names.ToLimits(), NullSentinels(c))
  {
    hide ShapeOf, Known, Names.Valid, GoodLeaf, One, Roots, Nullable, NullableDictionarySet;
    FeatureShapes(names);
    var limits := names.ToLimits();
    match c
    case HasRootAttribute(a) => OneIsGood(0x10, names.roots, a, limits);
    case HasAnyRootAttribute(attributes) => RootsAreGood(attributes, names);
    case HasPhoneticAttribute(a) => OneIsGood(0x12, names.phonetics, a, limits);
    case DictionaryItemIs(item) => OneIsGood(0x13, names.dictionary, item, limits);
    case RootPrimaryPosIs(pos) => OneIsGood(0x14, names.primaries, pos, limits);
    case SecondaryPosIs(pos) => OneIsGood(0x15, names.secondaries, pos, limits);
    case DictionaryItemIsAny(items) => NullableIsGood(0x16, items, names);
    case DictionaryItemIsNone(items) => NullableIsGood(0x17, items, names);
    case HasAnySuffixSurface => PlainIsGood(0x18, limits);
    case HasTail => PlainIsGood(0x19, limits);
    case HasNoTail => PlainIsGood(0x1a, limits);
  }

  lemma RootsAreGood(attributes: seq<string>, names: Names)
    requires names.Valid() && Known(attributes, names.roots)
    ensures GoodLeaf(Roots(names, attributes), names.ToLimits(), 0)
  {
    hide BitSet, Probing.Pow2;
    var indices := IndexAll(names.roots, attributes).value;
    forall i | i in indices
      ensures i < ROOT_ATTRIBUTES
    {
      var k :| 0 <= k < |indices| && indices[k] == i;
      IndexOfKnown(names.roots, attributes[k]);
    }
    BitSetMembers(indices, ROOT_ATTRIBUTES, 0);
    RootBitsBounded();
  }

  lemma PlainIsGood(opcode: nat, limits: Limits)
    requires ShapeOf(opcode, limits) == Some(Plain)
    ensures GoodLeaf(Some((opcode, [])), limits, 0)
  {
  }

  lemma PathIsGood(c: Condition, names: Names)
    requires names.Valid() && IsLeaf(c) && !IsFeature(c) && !IsState(c) && ValidatedMorphemeOrSurface(c, names) && Encodable(c, names)
    ensures GoodLeaf(MorphemeOrSurfaceOf(c, names), names.ToLimits(), 0)
  {
    hide ShapeOf, Known, Names.Valid, GoodLeaf, One, Many;
    MorphemeShapes(names);
    var limits := names.ToLimits();
    match c
    case HasTailSequence(ms) => ManyIsGood(0x1b, names.morphemes, ms, limits);
    case ContainsMorphemeSequence(ms) => ManyIsGood(0x1c, names.morphemes, ms, limits);
    case CurrentMorphemeIs(m) => OneIsGood(0x1d, names.morphemes, m, limits);
    case PreviousMorphemeIs(m) => OneIsGood(0x1e, names.morphemes, m, limits);
    case RootSurfaceIs(s) => OneIsGood(0x21, names.strings, s, limits);
    case RootSurfaceIsAny(ss) => ManyIsGood(0x22, names.strings, ss, limits);
    case PreviousGroupContainsMorpheme(ms) => ManyIsGood(0x2a, names.morphemes, ms, limits);
    case NoSurfaceAfterDerivation => PlainIsGood(0x2b, limits);
    case ContainsMorpheme(ms) => ManyIsGood(0x2c, names.morphemes, ms, limits);
    case PreviousMorphemeIsAny(ms) => ManyIsGood(0x2d, names.morphemes, ms, limits);
    case CurrentMorphemeIsAny(ms) => ManyIsGood(0x2e, names.morphemes, ms, limits);
  }

  lemma StateIsGood(c: Condition, names: Names)
    requires names.Valid() && IsState(c) && ValidatedState(c, names) && Encodable(c, names)
    ensures GoodLeaf(StateOf(c, names), names.ToLimits(), 0)
  {
    hide ShapeOf, Known, Names.Valid, GoodLeaf, One, Many;
    StateShapes(names);
    var limits := names.ToLimits();
    match c
    case PreviousStateIs(s) => OneIsGood(0x1f, names.states, s, limits);
    case PreviousStateIsNot(s) => OneIsGood(0x20, names.states, s, limits);
    case CurrentStateIs(s) => OneIsGood(0x23, names.states, s, limits);
    case CurrentStateIsNot(s) => OneIsGood(0x24, names.states, s, limits);
    case LastDerivationIs(s) => OneIsGood(0x25, names.states, s, limits);
    case HasDerivation => PlainIsGood(0x26, limits);
    case LastDerivationIsAny(ss) => ManyIsGood(0x27, names.states, ss, limits);
    case CurrentGroupContainsAny(ss) => ManyIsGood(0x28, names.states, ss, limits);
    case PreviousGroupContains(ss) => ManyIsGood(0x29, names.states, ss, limits);
    case PreviousStateIsAny(ss) => ManyIsGood(0x2f, names.states, ss, limits);
  }

  lemma LeafResolves(c: Condition, names: Names)
    requires names.Valid() && IsLeaf(c) && Validated(c, names) && Encodable(c, names)
    ensures Resolve(c, names).Some? && Resolve(c, names).value.Leaf?
    ensures WellFormed(Resolve(c, names).value, names.ToLimits()) && NullCount(Resolve(c, names).value) == NullSentinels(c)
  {
    hide Resolve, ValidatedFeature, ValidatedState, ValidatedMorphemeOrSurface, Encodable, FeatureOf, StateOf, MorphemeOrSurfaceOf, ShapeOf, NullSentinels, NullableSet;
    LeafResolution(c, names);
    if IsFeature(c) {
      FeatureIsGood(c, names);
    } else {
      OnlySetsHaveNulls(c);
      if IsState(c) {
        StateIsGood(c, names);
      } else {
        PathIsGood(c, names);
      }
    }
  }

  /** Validation is what compilation needs: the tree is well-formed and both counts are those of the source. */
  lemma CombinedResolves(c: Condition, names: Names)
    requires (c.AllOf? || c.AnyOf?) && 2 <= |c.children| < 0x1_0000
    requires ResolveAll(c.children, names).Some?
    requires forall t :: t in ResolveAll(c.children, names).value ==> WellFormed(t, names.ToLimits())
    ensures Resolve(c, names).Some? && WellFormed(Resolve(c, names).value, names.ToLimits())
    ensures ZemberekCount(Resolve(c, names).value) == SumCounts(ResolveAll(c.children, names).value)
    ensures NullCount(Resolve(c, names).value) == SumNulls(ResolveAll(c.children, names).value)
  {
    hide ResolveAll;
  }

  lemma {:induction false} ValidatedResolves(c: Condition, names: Names)
    requires names.Valid() && Validated(c, names) && Encodable(c, names)
    ensures Resolve(c, names).Some? && WellFormed(Resolve(c, names).value, names.ToLimits())
    ensures ZemberekCount(Resolve(c, names).value) == ZemberekConditionCount(c)
    ensures NullCount(Resolve(c, names).value) == NullSentinels(c)
    decreases c, 0
  {
    hide ResolveAll;
    if c.AllOf? || c.AnyOf? {
      ValidatedResolveAll(c.children, names);
      CombinedResolves(c, names);
    } else if c.Negation? {
      ValidatedResolves(c.child, names);
    } else {
      hide Resolve, Validated, Encodable, WellFormed, NullSentinels, NullCount;
      LeafResolves(c, names);
    }
  }

  lemma {:induction false} ValidatedResolveAll(cs: seq<Condition>, names: Names)
    requires names.Valid() && forall k :: k in cs ==> Validated(k, names) && Encodable(k, names)
    ensures ResolveAll(cs, names).Some?
    ensures forall t :: t in ResolveAll(cs, names).value ==> WellFormed(t, names.ToLimits())
    ensures SumCounts(ResolveAll(cs, names).value) == ChildCounts(cs)
    ensures SumNulls(ResolveAll(cs, names).value) == ChildNulls(cs)
    decreases cs, 1
  {
    hide Validated, Encodable, WellFormed, LeafOf;
    if cs != [] {
      var n := |cs| - 1;
      ValidatedResolveAll(cs[..n], names);
      ValidatedResolves(cs[n], names);
      var rest, last := ResolveAll(cs[..n], names).value, Resolve(cs[n], names).value;
      assert (rest + [last])[..n] == rest;
    }
  }

  // ----- the compiler

  /** What one call appends: the code of the tree when there is one, and otherwise failure is reported. */
  predicate Emits(ok: bool, before: seq<nat>, after: seq<nat>, tree: Option<Tree>, limits: Limits) {
    ok == tree.Some? && (ok ==> after == before + Encode(tree.value, limits))
  }

  /** What is appended for a condition computes it. */
  lemma EmittedComputes(ok: bool, before: seq<nat>, after: seq<nat>, c: Condition, names: Names)
    requires names.Valid() && Emits(ok, before, after, Resolve(c, names), names.ToLimits())
    ensures ok ==> |before| <= |after| && Computes(after[|before|..], c, names)
  {
    hide Resolve, Encode, Computes;
    if ok {
      ProgramComputes(c, names);
      assert after[|before|..] == Encode(Resolve(c, names).value, names.ToLimits());
    }
  }

  class ConditionCompiler {
    const names: Names
    var output: seq<nat>
    var nullSentinels: nat

    constructor (names: Names)
      ensures this.names == names && output == [] && nullSentinels == 0
    {
      this.names := names;
      output, nullSentinels := [], 0;
    }

    /** Appends the program of a condition, which computes the condition; fails exactly when the condition cannot be resolved. */
    method Compile(c: Condition) returns (ok: bool)
      requires names.Valid()
      modifies this
      ensures Emits(ok, old(output), output, Resolve(c, names), names.ToLimits())
      ensures ok ==> |old(output)| <= |output| && Computes(output[|old(output)|..], c, names)
      ensures ok ==> nullSentinels == old(nullSentinels) + NullSentinels(c)
      decreases c, 1
    {
      hide LeafOf, ToTree, EncodeArgs, ShapeOf, Names.Valid, Computes;
      if c.AllOf? {
        ok := CompileCombined(c.children, 0x01);
      } else if c.AnyOf? {
        ok := CompileCombined(c.children, 0x02);
      } else if c.Negation? {
        ok := Compile(c.child);
        if ok {
          output := output + [0x03];
        }
      } else if IsFeature(c) {
        ok := CompileFeature(c);
      } else if IsState(c) {
        ok := CompileState(c);
      } else {
        ok := CompileMorphemeOrSurface(c);
      }
      EmittedComputes(ok, old(output), output, c, names);
    }

    method CompileCombined(children: seq<Condition>, opcode: nat) returns (ok: bool)
      requires names.Valid() && (opcode == 0x01 || opcode == 0x02)
      modifies this
      ensures ok <==> ResolveAll(children, names).Some? && |children| < 0x1_0000
      ensures ok ==> output == old(output) + Encode(Combined(opcode, ResolveAll(children, names).value), names.ToLimits())
      ensures ok ==> nullSentinels == old(nullSentinels) + ChildNulls(children)
      decreases children, 2
    {
      hide Resolve, Encode, Names.Valid, Computes;
      var i := 0;
      while i < |children|
        invariant 0 <= i <= |children|
        invariant ResolveAll(children[..i], names).Some?
        invariant output == old(output) + EncodeAll(ResolveAll(children[..i], names).value, names.ToLimits())
        invariant nullSentinels == old(nullSentinels) + ChildNulls(children[..i])
      {
        ok := Compile(children[i]);
        if !ok {
          UnresolvedChild(children, i, names);
          return false;
        }
        ResolveNext(children, i, names);
        i := i + 1;
      }
      assert children[..i] == children;
      if |children| >= 0x1_0000 {
        return false;
      }
      output := output + [opcode];
      output := output + Bytes16(|children|);
      CombinedCode(ResolveAll(children, names).value, opcode, names.ToLimits());
      return true;
    }

    method CompileFeature(c: Condition) returns (ok: bool)
      requires names.Valid() && IsFeature(c)
      modifies this
      ensures Emits(ok, old(output), output, Resolve(c, names), names.ToLimits())
      ensures ok ==> nullSentinels == old(nullSentinels) + NullSentinels(c)
    {
      hide ShapeOf, Resolve, Emits, ToTree, One, Roots, Nullable;
      FeatureShapes(names);
      LeafResolution(c, names);
      match c
      case HasRootAttribute(a) => ok := CompileSmall(0x10, names.roots, a);
      case HasAnyRootAttribute(attributes) => ok := CompileBitSet(attributes);
      case HasPhoneticAttribute(a) => ok := CompileSmall(0x12, names.phonetics, a);
      case DictionaryItemIs(item) => ok := CompileSingleReference(0x13, item, names.dictionary);
      case RootPrimaryPosIs(pos) => ok := CompileSmall(0x14, names.primaries, pos);
      case SecondaryPosIs(pos) => ok := CompileSmall(0x15, names.secondaries, pos);
      case DictionaryItemIsAny(items) => ok := CompileNullableSet(0x16, items);
      case DictionaryItemIsNone(items) => ok := CompileNullableSet(0x17, items);
      case HasAnySuffixSurface => ok := CompilePlain(0x18);
      case HasTail => ok := CompilePlain(0x19);
      case HasNoTail => ok := CompilePlain(0x1a);
    }

    method CompileMorphemeOrSurface(c: Condition) returns (ok: bool)
      requires names.Valid() && IsLeaf(c) && !IsFeature(c) && !IsState(c)
      modifies this
      ensures Emits(ok, old(output), output, Resolve(c, names), names.ToLimits())
      ensures ok ==> nullSentinels == old(nullSentinels) + NullSentinels(c)
    {
      hide ShapeOf, NullSentinels, Resolve, Emits, ToTree, One, Many;
      MorphemeShapes(names);
      LeafResolution(c, names);
      OnlySetsHaveNulls(c);
      match c
      case HasTailSequence(ms) => ok := CompileReferenceList(0x1b, ms, names.morphemes);
      case ContainsMorphemeSequence(ms) => ok := CompileReferenceList(0x1c, ms, names.morphemes);
      case CurrentMorphemeIs(m) => ok := CompileSingleReference(0x1d, m, names.morphemes);
      case PreviousMorphemeIs(m) => ok := CompileSingleReference(0x1e, m, names.morphemes);
      case RootSurfaceIs(s) => ok := CompileSingleReference(0x21, s, names.strings);
      case RootSurfaceIsAny(ss) => ok := CompileReferenceList(0x22, ss, names.strings);
      case PreviousGroupContainsMorpheme(ms) => ok := CompileReferenceList(0x2a, ms, names.morphemes);
      case NoSurfaceAfterDerivation => ok := CompilePlain(0x2b);
      case ContainsMorpheme(ms) => ok := CompileReferenceList(0x2c, ms, names.morphemes);
      case PreviousMorphemeIsAny(ms) => ok := CompileReferenceList(0x2d, ms, names.morphemes);
      case CurrentMorphemeIsAny(ms) => ok := CompileReferenceList(0x2e, ms, names.morphemes);
    }

    method CompileState(c: Condition) returns (ok: bool)
      requires names.Valid() && IsState(c)
      modifies this
      ensures Emits(ok, old(output), output, Resolve(c, names), names.ToLimits())
      ensures ok ==> nullSentinels == old(nullSentinels) + NullSentinels(c)
    {
      hide ShapeOf, NullSentinels, Resolve, Emits, ToTree, One, Many;
      StateShapes(names);
      LeafResolution(c, names);
      OnlySetsHaveNulls(c);
      match c
      case PreviousStateIs(s) => ok := CompileSingleReference(0x1f, s, names.states);
      case PreviousStateIsNot(s) => ok := CompileSingleReference(0x20, s, names.states);
      case CurrentStateIs(s) => ok := CompileSingleReference(0x23, s, names.states);
      case CurrentStateIsNot(s) => ok := CompileSingleReference(0x24, s, names.states);
      case LastDerivationIs(s) => ok := CompileSingleReference(0x25, s, names.states);
      case HasDerivation => ok := CompilePlain(0x26);
      case LastDerivationIsAny(ss) => ok := CompileReferenceList(0x27, ss, names.states);
      case CurrentGroupContainsAny(ss) => ok := CompileReferenceList(0x28, ss, names.states);
      case PreviousGroupContains(ss) => ok := CompileReferenceList(0x29, ss, names.states);
      case PreviousStateIsAny(ss) => ok := CompileReferenceList(0x2f, ss, names.states);
    }

    method CompilePlain(opcode: nat) returns (ok: bool)
      requires ShapeOf(opcode, names.ToLimits()) == Some(Plain)
      modifies this`output
      ensures Emits(ok, old(output), output, ToTree(Some((opcode, [])), names.ToLimits()), names.ToLimits())
    {
      output := output + [opcode];
      ok := true;
    }

    method CompileSmall(opcode: nat, table: seq<string>, name: string) returns (ok: bool)
      requires ShapeOf(opcode, names.ToLimits()) == Some(SmallIndex(|table|)) && |table| <= 256
      modifies this`output
      ensures Emits(ok, old(output), output, ToTree(One(opcode, table, name), names.ToLimits()), names.ToLimits())
    {
      hide ShapeOf;
      output := output + [opcode];
      var index := IndexOf(table, name);
      if index.None? {
        return false;
      }
      output := output + [index.value];
      return true;
    }

    method CompileSingleReference(opcode: nat, value: string, table: seq<string>) returns (ok: bool)
      requires ShapeOf(opcode, names.ToLimits()) == Some(Index(|table|))
      modifies this`output
      ensures Emits(ok, old(output), output, ToTree(One(opcode, table, value), names.ToLimits()), names.ToLimits())
    {
      hide ShapeOf, Bytes32;
      output := output + [opcode];
      var index := IndexOf(table, value);
      if index.None? {
        return false;
      }
      output := output + Bytes32(index.value);
      WordsOne(index.value);
      return true;
    }

    /** Sets the bit of every listed root attribute. */
    method CompileBitSet(attributes: seq<string>) returns (ok: bool)
      modifies this`output
      ensures Emits(ok, old(output), output, ToTree(Roots(names, attributes), names.ToLimits()), names.ToLimits())
    {
      hide Bytes32, SetBit, IndexAll, IndexOf, BitSet;
      NothingIndexed(names.roots);
      assert attributes[..0] == [];
      output := output + [0x11];
      var bits := 0;
      var i := 0;
      while i < |attributes|
        invariant 0 <= i <= |attributes|
        invariant output == old(output) + [0x11]
        invariant IndexAll(names.roots, attributes[..i]).Some? && bits == BitSet(IndexAll(names.roots, attributes[..i]).value)
      {
        var index := IndexOf(names.roots, attributes[i]);
        if index.None? {
          IndexOfKnown(names.roots, attributes[i]);
          UnknownName(names.roots, attributes, i);
          return false;
        }
        IndexNext(names.roots, attributes, i);
        bits := SetBit(bits, index.value);
        i := i + 1;
      }
      assert attributes[..i] == attributes;
      output := output + Bytes32(bits);
      WordsOne(bits);
      assert output == old(output) + ([0x11] + Bytes32(bits));
      return true;
    }

    method CompileReferenceList(opcode: nat, values: seq<string>, table: seq<string>) returns (ok: bool)
      requires ShapeOf(opcode, names.ToLimits()) == Some(IndexList(|table|))
      modifies this`output
      ensures Emits(ok, old(output), output, ToTree(Many(opcode, table, values), names.ToLimits()), names.ToLimits())
    {
      hide ShapeOf, Bytes16, Bytes32, IndexAll;
      output := output + [opcode];
      if |values| >= 0x1_0000 {
        return false;
      }
      output := output + Bytes16(|values|);
      ghost var head := output;
      var i := 0;
      assert values[..0] == [];
      NothingIndexed(table);
      while i < |values|
        invariant 0 <= i <= |values|
        invariant IndexAll(table, values[..i]).Some? && output == head + Words(IndexAll(table, values[..i]).value)
      {
        var index := IndexOf(table, values[i]);
        if index.None? {
          IndexOfKnown(table, values[i]);
          UnknownName(table, values, i);
          return false;
        }
        IndexNext(table, values, i);
        output := output + Bytes32(index.value);
        i := i + 1;
      }
      assert values[..i] == values;
      ListCode(old(output), opcode, Bytes16(|values|), Words(IndexAll(table, values).value));
      return true;
    }

    /** A dictionary set: null sentinels are emitted as the reserved index and counted. */
    method CompileNullableSet(opcode: nat, items: seq<Option<string>>) returns (ok: bool)
      requires ShapeOf(opcode, names.ToLimits()) == Some(NullableList(|names.dictionary|))
      modifies this
      ensures Emits(ok, old(output), output, ToTree(Nullable(opcode, names.dictionary, items), names.ToLimits()), names.ToLimits())
      ensures ok ==> nullSentinels == old(nullSentinels) + multiset(items)[None]
    {
      hide ShapeOf, Bytes16, Bytes32, IndexNullable, IndexOf;
      output := output + [opcode];
      if |items| >= 0x1_0000 {
        return false;
      }
      output := output + Bytes16(|items|);
      ok := PushItems(items);
      if ok {
        ListCode(old(output), opcode, Bytes16(|items|), Words(IndexNullable(names.dictionary, items).value));
      }
    }

    method PushItems(items: seq<Option<string>>) returns (ok: bool)
      modifies this
      ensures ok <==> IndexNullable(names.dictionary, items).Some?
      ensures ok ==> output == old(output) + Words(IndexNullable(names.dictionary, items).value)
      ensures ok ==> nullSentinels == old(nullSentinels) + multiset(items)[None]
    {
      hide Bytes32, IndexNullable, IndexOf, Words;
      var i := 0;
      assert items[..0] == [];
      NothingIndexed(names.dictionary);
      while i < |items|
        invariant 0 <= i <= |items|
        invariant IndexNullable(names.dictionary, items[..i]).Some?
        invariant output == old(output) + Words(IndexNullable(names.dictionary, items[..i]).value)
        invariant nullSentinels == old(nullSentinels) + multiset(items[..i])[None]
      {
        NextNull(items, i);
        if items[i].Some? {
          var index := IndexOf(names.dictionary, items[i].value);
          IndexOfKnown(names.dictionary, items[i].value);
          if index.None? {
            UnknownItem(names.dictionary, items, i);
            return false;
          }
          IndexNextItem(names.dictionary, items, i);
          output := output + Bytes32(index.value);
        } else {
          IndexNextItem(names.dictionary, items, i);
          output := output + Bytes32(NONE);
          nullSentinels := nullSentinels + 1;
        }
        i := i + 1;
      }
      assert items[..i] == items;
      return true;
    }
  }

  lemma WordsOne(value: nat)
    ensures Words([value]) == Bytes32(value)
  {
    assert [value][..0] == [];
  }

  lemma NothingIndexed(table: seq<string>)
    ensures IndexAll(table, []) == Some([]) && IndexNullable(table, []) == Some([])
    ensures Words([]) == [] && BitSet([]) == 0
  {
  }

  lemma UnknownName(table: seq<string>, values: seq<string>, i: nat)
    requires i < |values| && values[i] !in table
    ensures IndexAll(table, values).None?
  {
  }

  lemma UnknownItem(table: seq<string>, items: seq<Option<string>>, i: nat)
    requires i < |items| && items[i].Some? && items[i].value !in table
    ensures IndexNullable(table, items).None?
  {
  }

  lemma IndexNext(table: seq<string>, values: seq<string>, i: nat)
    requires i < |values| && IndexAll(table, values[..i]).Some? && IndexOf(table, values[i]).Some?
    ensures IndexAll(table, values[..i + 1]) == Some(IndexAll(table, values[..i]).value + [IndexOf(table, values[i]).value])
    ensures var r, n := IndexAll(table, values[..i]).value, IndexOf(table, values[i]).value;
            Words(r + [n]) == Words(r) + Bytes32(n) && BitSet(r + [n]) == SetBit(BitSet(r), n)
  {
    hide Bytes32, SetBit, IndexOf;
    assert values[..i + 1][..i] == values[..i];
    var r, n := IndexAll(table, values[..i]).value, IndexOf(table, values[i]).value;
    assert (r + [n])[..|r|] == r;
  }

  lemma IndexNextItem(table: seq<string>, items: seq<Option<string>>, i: nat)
    requires i < |items| && IndexNullable(table, items[..i]).Some?
    requires items[i].Some? ==> IndexOf(table, items[i].value).Some?
    ensures var r, n := IndexNullable(table, items[..i]).value, if items[i].Some? then IndexOf(table, items[i].value).value else NONE;
            IndexNullable(table, items[..i + 1]) == Some(r + [n]) && Words(r + [n]) == Words(r) + Bytes32(n)
  {
    hide Bytes32, IndexOf;
    assert items[..i + 1][..i] == items[..i];
    var r, n := IndexNullable(table, items[..i]).value, if items[i].Some? then IndexOf(table, items[i].value).value else NONE;
    assert (r + [n])[..|r|] == r;
  }

  lemma NextNull(items: seq<Option<string>>, i: nat)
    requires i < |items|
    ensures multiset(items[..i + 1])[None] == multiset(items[..i])[None] + if items[i].None? then 1 else 0
  {
    assert items[..i + 1] == items[..i] + [items[i]];
  }

  lemma ListCode(before: seq<nat>, opcode: nat, count: seq<nat>, words: seq<nat>)
    ensures before + [opcode] + count + words == before + ([opcode] + (count + words))
  {
  }

  lemma ResolveNext(children: seq<Condition>, i: nat, names: Names)
    requires i < |children| && ResolveAll(children[..i], names).Some? && Resolve(children[i], names).Some?
    ensures ResolveAll(children[..i + 1], names) == Some(ResolveAll(children[..i], names).value + [Resolve(children[i], names).value])
    ensures var trees, t, limits := ResolveAll(children[..i], names).value, Resolve(children[i], names).value, names.ToLimits();
            EncodeAll(trees + [t], limits) == EncodeAll(trees, limits) + Encode(t, limits)
    ensures ChildNulls(children[..i + 1]) == ChildNulls(children[..i]) + NullSentinels(children[i])
  {
    hide Resolve, Encode, NullSentinels;
    assert children[..i + 1][..i] == children[..i];
    var trees, t := ResolveAll(children[..i], names).value, Resolve(children[i], names).value;
    assert (trees + [t])[..i] == trees;
  }

  lemma {:induction false} UnresolvedChild(children: seq<Condition>, i: nat, names: Names)
    requires i < |children| && Resolve(children[i], names).None?
    ensures ResolveAll(children, names).None?
    decreases |children|
  {
    hide Resolve;
    if i < |children| - 1 {
      UnresolvedChild(children[..|children| - 1], i, names);
    }
  }

  lemma CombinedCode(trees: seq<Tree>, opcode: nat, limits: Limits)
    requires opcode == 0x01 || opcode == 0x02
    ensures Encode(Combined(opcode, trees), limits) == EncodeAll(trees, limits) + [opcode] + Bytes16(|trees|)
  {
  }

  /**
   * A validated condition compiles, and the program validator accepts the compiled program, reads back
   * the very tree it was compiled from and reports the condition's two counts.
   */
  lemma CompiledIsAccepted(c: Condition, names: Names)
    requires names.Valid() && Validated(c, names) && Encodable(c, names)
    ensures Resolve(c, names).Some?
    ensures var tree, limits := Resolve(c, names).value, names.ToLimits();
            && IsBytes(Encode(tree, limits))
            && Parse(Encode(tree, limits), 0, [], limits) == Some([tree])
            && ZemberekCount(tree) == ZemberekConditionCount(c) && NullCount(tree) == NullSentinels(c)
  {
    hide Resolve, Validated, Encodable, Encode, WellFormed, IsBytes;
    ValidatedResolves(c, names);
    EncodeIsBytes(Resolve(c, names).value, names.ToLimits());
    AcceptsEncoding(Resolve(c, names).value, names.ToLimits());
  }

  lemma {:induction false} ValidatedCombines(c: Condition, names: Names)
    requires Validated(c, names)
    ensures Combines(c)
    decreases c
  {
    if c.AllOf? || c.AnyOf? {
      forall k | k in c.children
        ensures Combines(k)
      {
        ValidatedCombines(k, names);
      }
    } else if c.Negation? {
      ValidatedCombines(c.child, names);
    }
  }

  lemma NotEmpty(t: Tree, limits: Limits)
    ensures Encode(t, limits) != []
  {
  }

  /** Compiling into an empty buffer and validating what came out: always accepted, with the counts of the source. */
  method CompileAndValidate(c: Condition, names: Names) returns (program: seq<nat>, r: Option<ConditionValidation>)
    requires names.Valid() && Validated(c, names) && Encodable(c, names)
    ensures r == Some(ConditionValidation(ZemberekConditionCount(c), NullSentinels(c)))
    ensures Resolve(c, names).Some? && program == Encode(Resolve(c, names).value, names.ToLimits())
    ensures forall s: Situation :: s.Valid() ==> Vm.Evaluation(program, s) == Some(Holds(c, s, names))
  {
    hide Resolve, Validated, Encodable, Encode, Parse, IsBytes, NullSentinels, ZemberekConditionCount, NullCount, ZemberekCount;
    CompiledIsAccepted(c, names);
    ProgramComputes(c, names);
    ValidatedCombines(c, names);
    var compiler := new ConditionCompiler(names);
    var ok := compiler.Compile(c);
    program := compiler.output;
    assert program == Encode(Resolve(c, names).value, names.ToLimits());
    NotEmpty(Resolve(c, names).value, names.ToLimits());
    var validator := new ConditionProgramValidator(program, names.ToLimits());
    r := validator.Validate();
  }
}
