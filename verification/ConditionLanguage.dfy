/** Condition trees as the bundle writes them, the tables their names are looked up in, and their index-resolved form. */
module ConditionLanguage {
  import opened Common
  import opened Bits
  import opened Bytecode
  import opened Lexicographic
  import Probing

  datatype Condition =
    | AllOf(children: seq<Condition>)
    | AnyOf(children: seq<Condition>)
    | Negation(child: Condition)
    | HasRootAttribute(attribute: string)
    | HasAnyRootAttribute(attributes: seq<string>)
    | HasPhoneticAttribute(attribute: string)
    | DictionaryItemIs(item: string)
    | RootPrimaryPosIs(pos: string)
    | SecondaryPosIs(pos: string)
    | DictionaryItemIsAny(items: seq<Option<string>>)
    | DictionaryItemIsNone(items: seq<Option<string>>)
    | HasAnySuffixSurface
    | HasTail
    | HasNoTail
    | HasTailSequence(morphemes: seq<string>)
    | ContainsMorphemeSequence(morphemes: seq<string>)
    | CurrentMorphemeIs(morpheme: string)
    | PreviousMorphemeIs(morpheme: string)
    | PreviousStateIs(state: string)
    | PreviousStateIsNot(state: string)
    | RootSurfaceIs(surface: string)
    | RootSurfaceIsAny(surfaces: seq<string>)
    | CurrentStateIs(state: string)
    | CurrentStateIsNot(state: string)
    | LastDerivationIs(state: string)
    | HasDerivation
    | LastDerivationIsAny(states: seq<string>)
    | CurrentGroupContainsAny(states: seq<string>)
    | PreviousGroupContains(states: seq<string>)
    | PreviousGroupContainsMorpheme(morphemes: seq<string>)
    | NoSurfaceAfterDerivation
    | ContainsMorpheme(morphemes: seq<string>)
    | PreviousMorphemeIsAny(morphemes: seq<string>)
    | CurrentMorphemeIsAny(morphemes: seq<string>)
    | PreviousStateIsAny(states: seq<string>)

  // ----- names and indices

  function Scalars(s: string): seq<nat> {
    seq(|s|, i requires 0 <= i < |s| => s[i] as nat)
  }

  /** The order of strings by scalar value, which is the byte-wise order of their UTF-8. */
  predicate Less(a: string, b: string) {
    Before(Scalars(a), Scalars(b))
  }

  lemma LessIsAsymmetric(a: string, b: string)
    requires Less(a, b)
    ensures !Less(b, a) && a != b
  {
    BeforeIsIrreflexive(Scalars(a));
    if Less(b, a) {
      BeforeIsTransitive(Scalars(a), Scalars(b), Scalars(a));
    }
  }

  ghost predicate StrictlySorted(names: seq<string>) {
    forall i, j :: 0 <= i < j < |names| ==> Less(names[i], names[j])
  }

  predicate Distinct(names: seq<string>) {
    forall i, j :: 0 <= i < j < |names| ==> names[i] != names[j]
  }

  /** The tables names are looked up in; no name stands in a table twice, and the dictionary is sorted by identity. */
  datatype Names = Names(roots: seq<string>, phonetics: seq<string>, primaries: seq<string>, secondaries: seq<string>,
                         morphemes: seq<string>, dictionary: seq<string>, states: seq<string>, strings: seq<string>) {
    function ToLimits(): Limits {
      Limits(|morphemes|, |dictionary|, |states|, |strings|)
    }

    ghost predicate Valid() {
      && |roots| == ROOT_ATTRIBUTES && |phonetics| == PHONETIC_ATTRIBUTES
      && |primaries| == PRIMARY_POS && |secondaries| == SECONDARY_POS
      && Representable(ToLimits()) && StrictlySorted(dictionary)
      && Distinct(roots) && Distinct(phonetics) && Distinct(primaries) && Distinct(secondaries)
      && Distinct(morphemes) && Distinct(dictionary) && Distinct(states) && Distinct(strings)
    }
  }

  /** First position of a name. */
  function Position(names: seq<string>, name: string, from: nat): (r: Option<nat>)
    requires from <= |names|
    ensures r.Some? ==> from <= r.value < |names| && names[r.value] == name
    ensures r.None? ==> forall i :: from <= i < |names| ==> names[i] != name
    decreases |names| - from
  {
    if from == |names| then None
    else if names[from] == name then Some(from)
    else Position(names, name, from + 1)
  }

  function IndexOf(names: seq<string>, name: string): Option<nat> {
    Position(names, name, 0)
  }

  lemma IndexOfKnown(names: seq<string>, name: string)
    ensures IndexOf(names, name).Some? <==> name in names
    ensures IndexOf(names, name).Some? ==> IndexOf(names, name).value < |names| && names[IndexOf(names, name).value] == name
  {
  }

  /** In a sorted table, index order is name order. */
  lemma IndexOfMonotone(names: seq<string>, a: string, b: string)
    requires StrictlySorted(names) && a in names && b in names && Less(a, b)
    ensures IndexOf(names, a).value < IndexOf(names, b).value
  {
    var i, j := IndexOf(names, a).value, IndexOf(names, b).value;
    LessIsAsymmetric(a, b);
    assert names[i] == a && names[j] == b;
  }

  /** Resolves a list of names; fails when one is unknown. */
  function IndexAll(names: seq<string>, values: seq<string>): (r: Option<seq<nat>>)
    ensures r.Some? <==> forall v :: v in values ==> v in names
    ensures r.Some? ==> |r.value| == |values| && forall i :: 0 <= i < |values| ==> IndexOf(names, values[i]) == Some(r.value[i])
  {
    if values == [] then Some([])
    else
      var n := |values| - 1;
      var rest, last := IndexAll(names, values[..n]), IndexOf(names, values[n]);
      IndexOfKnown(names, values[n]);
      assert values == values[..n] + [values[n]];
      if rest.None? || last.None? then None else Some(rest.value + [last.value])
  }

  /** Resolves a dictionary set, keeping null sentinels. */
  function IndexNullable(names: seq<string>, values: seq<Option<string>>): (r: Option<seq<nat>>)
    ensures r.Some? <==> forall v :: v in values && v.Some? ==> v.value in names
    ensures r.Some? ==> |r.value| == |values| && forall i :: 0 <= i < |values| ==>
              if values[i].None? then r.value[i] == NONE else IndexOf(names, values[i].value) == Some(r.value[i])
  {
    if values == [] then Some([])
    else
      var n := |values| - 1;
      var rest := IndexNullable(names, values[..n]);
      var last := if values[n].None? then Some(NONE) else IndexOf(names, values[n].value);
      if values[n].Some? then
        IndexOfKnown(names, values[n].value);
        assert values == values[..n] + [values[n]];
        if rest.None? || last.None? then None else Some(rest.value + [last.value])
      else
        assert values == values[..n] + [values[n]];
        if rest.None? then None else Some(rest.value + [NONE])
  }

  /** `bits | 1 << i`. */
  function SetBit(bits: nat, i: nat): nat
    decreases i
  {
    if i == 0 then (if bits % 2 == 1 then bits else bits + 1) else bits % 2 + 2 * SetBit(bits / 2, i - 1)
  }

  lemma {:induction false} SetBitSets(bits: nat, i: nat, j: nat)
    ensures HasBit(SetBit(bits, i), j) <==> j == i || HasBit(bits, j)
    decreases i
  {
    if i > 0 {
      var tail := SetBit(bits / 2, i - 1);
      assert (bits % 2 + 2 * tail) / 2 == tail && (bits % 2 + 2 * tail) % 2 == bits % 2;
      if j > 0 {
        SetBitSets(bits / 2, i - 1, j - 1);
      }
    } else if j > 0 {
      assert SetBit(bits, 0) / 2 == bits / 2;
    }
  }

  lemma {:induction false} SetBitBound(bits: nat, i: nat, n: nat)
    requires i < n && bits < Probing.Pow2(n)
    ensures SetBit(bits, i) < Probing.Pow2(n)
    decreases i
  {
    if i > 0 {
      SetBitBound(bits / 2, i - 1, n - 1);
    }
  }

  function BitSet(indices: seq<nat>): nat {
    if indices == [] then 0 else SetBit(BitSet(indices[..|indices| - 1]), indices[|indices| - 1])
  }

  /** The bits of a set are exactly its indices. */
  lemma {:induction false} BitSetMembers(indices: seq<nat>, n: nat, j: nat)
    requires forall i :: i in indices ==> i < n
    ensures BitSet(indices) < Probing.Pow2(n)
    ensures HasBit(BitSet(indices), j) <==> j in indices
    decreases |indices|
  {
    if indices == [] {
      NoBits(j);
    } else {
      var k := |indices| - 1;
      assert indices == indices[..k] + [indices[k]];
      assert indices[k] in indices && forall i :: i in indices[..k] ==> i in indices;
      BitSetMembers(indices[..k], n, j);
      SetBitSets(BitSet(indices[..k]), indices[k], j);
      SetBitBound(BitSet(indices[..k]), indices[k], n);
    }
  }

  // ----- resolution

  lemma RootBitsBounded()
    ensures Probing.Pow2(ROOT_ATTRIBUTES) == ROOT_BITS
  {
    assert Probing.Pow2(10) == 1024;
    assert Probing.Pow2(20) == 0x10_0000;
  }

  function One(opcode: nat, names: seq<string>, name: string): Option<(nat, seq<nat>)> {
    if IndexOf(names, name).Some? then Some((opcode, [IndexOf(names, name).value])) else None
  }

  function Many(opcode: nat, names: seq<string>, values: seq<string>): Option<(nat, seq<nat>)> {
    if IndexAll(names, values).Some? then Some((opcode, IndexAll(names, values).value)) else None
  }

  function Nullable(opcode: nat, names: seq<string>, values: seq<Option<string>>): Option<(nat, seq<nat>)> {
    if IndexNullable(names, values).Some? then Some((opcode, IndexNullable(names, values).value)) else None
  }

  function Roots(names: Names, attributes: seq<string>): Option<(nat, seq<nat>)> {
    var indices := IndexAll(names.roots, attributes);
    if indices.Some? then Some((0x11, [BitSet(indices.value)])) else None
  }

  predicate IsLeaf(c: Condition) {
    !c.AllOf? && !c.AnyOf? && !c.Negation?
  }

  predicate IsFeature(c: Condition) {
    c.HasRootAttribute? || c.HasAnyRootAttribute? || c.HasPhoneticAttribute? || c.DictionaryItemIs? || c.RootPrimaryPosIs? ||
    c.SecondaryPosIs? || c.DictionaryItemIsAny? || c.DictionaryItemIsNone? || c.HasAnySuffixSurface? || c.HasTail? || c.HasNoTail?
  }

  predicate IsState(c: Condition) {
    c.PreviousStateIs? || c.PreviousStateIsNot? || c.CurrentStateIs? || c.CurrentStateIsNot? || c.LastDerivationIs? || c.HasDerivation? ||
    c.LastDerivationIsAny? || c.CurrentGroupContainsAny? || c.PreviousGroupContains? || c.PreviousStateIsAny?
  }

  /** Opcode and operand of an elementary condition; nothing when a name is unknown. */
  function LeafOf(c: Condition, names: Names): Option<(nat, seq<nat>)>
    requires IsLeaf(c)
  {
    if IsFeature(c) then FeatureOf(c, names) else if IsState(c) then StateOf(c, names) else MorphemeOrSurfaceOf(c, names)
  }

  function FeatureOf(c: Condition, names: Names): Option<(nat, seq<nat>)>
    requires IsFeature(c)
  {
    match c
    case HasRootAttribute(a) => One(0x10, names.roots, a)
    case HasAnyRootAttribute(attributes) => Roots(names, attributes)
    case HasPhoneticAttribute(a) => One(0x12, names.phonetics, a)
    case DictionaryItemIs(item) => One(0x13, names.dictionary, item)
    case RootPrimaryPosIs(pos) => One(0x14, names.primaries, pos)
    case SecondaryPosIs(pos) => One(0x15, names.secondaries, pos)
    case DictionaryItemIsAny(items) => Nullable(0x16, names.dictionary, items)
    case DictionaryItemIsNone(items) => Nullable(0x17, names.dictionary, items)
    case HasAnySuffixSurface => Some((0x18, []))
    case HasTail => Some((0x19, []))
    case HasNoTail => Some((0x1a, []))
  }

  function MorphemeOrSurfaceOf(c: Condition, names: Names): Option<(nat, seq<nat>)>
    requires IsLeaf(c) && !IsFeature(c) && !IsState(c)
  {
    match c
    case HasTailSequence(morphemes) => Many(0x1b, names.morphemes, morphemes)
    case ContainsMorphemeSequence(morphemes) => Many(0x1c, names.morphemes, morphemes)
    case CurrentMorphemeIs(m) => One(0x1d, names.morphemes, m)
    case PreviousMorphemeIs(m) => One(0x1e, names.morphemes, m)
    case RootSurfaceIs(surface) => One(0x21, names.strings, surface)
    case RootSurfaceIsAny(surfaces) => Many(0x22, names.strings, surfaces)
    case PreviousGroupContainsMorpheme(morphemes) => Many(0x2a, names.morphemes, morphemes)
    case NoSurfaceAfterDerivation => Some((0x2b, []))
    case ContainsMorpheme(morphemes) => Many(0x2c, names.morphemes, morphemes)
    case PreviousMorphemeIsAny(morphemes) => Many(0x2d, names.morphemes, morphemes)
    case CurrentMorphemeIsAny(morphemes) => Many(0x2e, names.morphemes, morphemes)
  }

  function StateOf(c: Condition, names: Names): Option<(nat, seq<nat>)>
    requires IsState(c)
  {
    match c
    case PreviousStateIs(s) => One(0x1f, names.states, s)
    case PreviousStateIsNot(s) => One(0x20, names.states, s)
    case CurrentStateIs(s) => One(0x23, names.states, s)
    case CurrentStateIsNot(s) => One(0x24, names.states, s)
    case LastDerivationIs(s) => One(0x25, names.states, s)
    case HasDerivation => Some((0x26, []))
    case LastDerivationIsAny(states) => Many(0x27, names.states, states)
    case CurrentGroupContainsAny(states) => Many(0x28, names.states, states)
    case PreviousGroupContains(states) => Many(0x29, names.states, states)
    case PreviousStateIsAny(states) => Many(0x2f, names.states, states)
  }

  lemma FeatureShapes(names: Names)
    requires names.Valid()
    ensures var limits := names.ToLimits();
            && ShapeOf(0x11, limits) == Some(RootBits)
            && ShapeOf(0x10, limits) == Some(SmallIndex(|names.roots|)) && ShapeOf(0x12, limits) == Some(SmallIndex(|names.phonetics|))
            && ShapeOf(0x13, limits) == Some(Index(|names.dictionary|)) && ShapeOf(0x14, limits) == Some(SmallIndex(|names.primaries|))
            && ShapeOf(0x15, limits) == Some(SmallIndex(|names.secondaries|))
            && ShapeOf(0x16, limits) == Some(NullableList(|names.dictionary|)) && ShapeOf(0x17, limits) == Some(NullableList(|names.dictionary|))
            && ShapeOf(0x18, limits) == Some(Plain) && ShapeOf(0x19, limits) == Some(Plain) && ShapeOf(0x1a, limits) == Some(Plain)
    ensures |names.roots| <= 256 && |names.phonetics| <= 256 && |names.primaries| <= 256 && |names.secondaries| <= 256
  {
  }

  lemma StateShapes(names: Names)
    ensures var limits, single, list := names.ToLimits(), Index(|names.states|), IndexList(|names.states|);
            && ShapeOf(0x1f, limits) == Some(single) && ShapeOf(0x20, limits) == Some(single) && ShapeOf(0x23, limits) == Some(single)
            && ShapeOf(0x24, limits) == Some(single) && ShapeOf(0x25, limits) == Some(single) && ShapeOf(0x26, limits) == Some(Plain)
            && ShapeOf(0x27, limits) == Some(list) && ShapeOf(0x28, limits) == Some(list) && ShapeOf(0x29, limits) == Some(list)
            && ShapeOf(0x2f, limits) == Some(list)
  {
  }

  lemma MorphemeShapes(names: Names)
    ensures var limits, single, list := names.ToLimits(), Index(|names.morphemes|), IndexList(|names.morphemes|);
            && ShapeOf(0x1b, limits) == Some(list) && ShapeOf(0x1c, limits) == Some(list) && ShapeOf(0x1d, limits) == Some(single)
            && ShapeOf(0x1e, limits) == Some(single) && ShapeOf(0x2a, limits) == Some(list) && ShapeOf(0x2b, limits) == Some(Plain)
            && ShapeOf(0x2c, limits) == Some(list) && ShapeOf(0x2d, limits) == Some(list) && ShapeOf(0x2e, limits) == Some(list)
            && ShapeOf(0x21, limits) == Some(Index(|names.strings|)) && ShapeOf(0x22, limits) == Some(IndexList(|names.strings|))
  {
  }

  lemma LeafResolution(c: Condition, names: Names)
    requires IsLeaf(c)
    ensures Resolve(c, names) == ToTree(LeafOf(c, names), names.ToLimits())
  {
    hide LeafOf, ToTree;
  }

  function IsList(opcode: nat, limits: Limits): bool {
    var shape := ShapeOf(opcode, limits);
    shape.Some? && (shape.value.IndexList? || shape.value.NullableList?)
  }

  function ToTree(leaf: Option<(nat, seq<nat>)>, limits: Limits): Option<Tree> {
    if leaf.None? || (IsList(leaf.value.0, limits) && |leaf.value.1| >= 0x1_0000) then None
    else Some(Leaf(leaf.value.0, leaf.value.1))
  }

  /** The index-resolved tree of a condition; nothing when a name is unknown or a count exceeds 16 bits. */
  function Resolve(c: Condition, names: Names): Option<Tree>
    decreases c, 0
  {
    if c.AllOf? || c.AnyOf? then
      var trees := ResolveAll(c.children, names);
      if trees.None? || |c.children| >= 0x1_0000 then None
      else Some(if c.AllOf? then And(trees.value) else Or(trees.value))
    else if c.Negation? then
      var tree := Resolve(c.child, names);
      if tree.None? then None else Some(Not(tree.value))
    else ToTree(LeafOf(c, names), names.ToLimits())
  }

  function ResolveAll(cs: seq<Condition>, names: Names): (r: Option<seq<Tree>>)
    ensures r.Some? ==> |r.value| == |cs|
    decreases cs, 1
  {
    if cs == [] then Some([])
    else
      var n := |cs| - 1;
      var rest, last := ResolveAll(cs[..n], names), Resolve(cs[n], names);
      if rest.None? || last.None? then None else Some(rest.value + [last.value])
  }
}
