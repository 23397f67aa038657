/** A compiled condition evaluates to the truth of the condition it was compiled from. */
module CompiledMeaning {
  import opened Common
  import opened Bits
  import opened Bytecode
  import opened ByteStrings
  import opened ConditionLanguage
  import opened ConditionMeaning
  import opened MachineWords
  import opened Probing
  import opened PathWalks
  import Vm = ConditionVm

  // ----- trees the machine can run

  /** An operand that its layout can carry. */
  ghost predicate FitsArgs(shape: Shape, args: seq<nat>) {
    match shape
    case Plain => args == []
    case SmallIndex(limit) => |args| == 1 && args[0] < limit && args[0] < 256
    case RootBits => |args| == 1 && args[0] < U32_LIMIT
    case Index(_) => |args| == 1 && args[0] < U32_LIMIT
    case IndexList(_) => |args| < 0x1_0000 && forall i :: 0 <= i < |args| ==> args[i] < U32_LIMIT
    case NullableList(_) => |args| < 0x1_0000 && forall i :: 0 <= i < |args| ==> args[i] < U32_LIMIT
  }

  ghost predicate Fits(t: Tree, limits: Limits) {
    match t
    case And(children) => |children| < 0x1_0000 && forall c :: c in children ==> Fits(c, limits)
    case Or(children) => |children| < 0x1_0000 && forall c :: c in children ==> Fits(c, limits)
    case Not(child) => Fits(child, limits)
    case Leaf(opcode, args) => ShapeOf(opcode, limits).Some? && FitsArgs(ShapeOf(opcode, limits).value, args)
  }

  /** Every conjunction and disjunction has at least two members. */
  predicate Proper(t: Tree) {
    match t
    case And(children) => |children| >= 2 && forall c :: c in children ==> Proper(c)
    case Or(children) => |children| >= 2 && forall c :: c in children ==> Proper(c)
    case Not(child) => Proper(child)
    case Leaf(_, _) => true
  }

  ghost predicate Truth(t: Tree, s: Situation)
    requires s.Valid()
  {
    match t
    case And(children) => forall c :: c in children ==> Truth(c, s)
    case Or(children) => exists c :: c in children && Truth(c, s)
    case Not(child) => !Truth(child, s)
    case Leaf(opcode, args) => Vm.OperandOf(opcode).Some? && Vm.Supplied(opcode, args) && Vm.Meets(opcode, args, s)
  }

  ghost function Truths(trees: seq<Tree>, s: Situation): (r: seq<bool>)
    requires s.Valid()
    ensures |r| == |trees|
  {
    if trees == [] then [] else Truths(trees[..|trees| - 1], s) + [Truth(trees[|trees| - 1], s)]
  }

  lemma {:induction false} TruthsAt(trees: seq<Tree>, s: Situation, i: nat)
    requires s.Valid() && i < |trees|
    ensures Truths(trees, s)[i] == Truth(trees[i], s)
  {
    if i < |trees| - 1 {
      TruthsAt(trees[..|trees| - 1], s, i);
    }
  }

  lemma AllOrAny(trees: seq<Tree>, s: Situation)
    requires s.Valid()
    ensures Vm.AllTrue(Truths(trees, s)) <==> forall c :: c in trees ==> Truth(c, s)
    ensures Vm.AnyTrue(Truths(trees, s)) <==> exists c :: c in trees && Truth(c, s)
  {
    hide Truth, Truths;
    var truths := Truths(trees, s);
    forall i | 0 <= i < |trees|
      ensures truths[i] == Truth(trees[i], s) && trees[i] in trees
    {
      TruthsAt(trees, s, i);
    }
    if Vm.AllTrue(truths) {
      forall c | c in trees
        ensures Truth(c, s)
      {
        var i :| 0 <= i < |trees| && trees[i] == c;
        assert truths[i];
      }
    }
    if c :| c in trees && Truth(c, s) {
      var i :| 0 <= i < |trees| && trees[i] == c;
      assert truths[i];
    }
  }

  // ----- leaves run

  function KindOf(shape: Shape): Vm.Operand {
    match shape
    case Plain => Vm.Nothing
    case SmallIndex(_) => Vm.OneByte
    case RootBits => Vm.OneWord
    case Index(_) => Vm.OneWord
    case IndexList(_) => Vm.WordList
    case NullableList(_) => Vm.WordList
  }

  lemma Kinds(opcode: nat, limits: Limits)
    requires ShapeOf(opcode, limits).Some?
    ensures Vm.OperandOf(opcode) == Some(KindOf(ShapeOf(opcode, limits).value))
    ensures opcode !in {0x01, 0x02, 0x03} && opcode < 256
    ensures (opcode == 0x10 || opcode == 0x12) && ShapeOf(opcode, limits).value.SmallIndex? ==> ShapeOf(opcode, limits).value.limit <= 32
    ensures opcode == 0x10 || opcode == 0x12 ==> ShapeOf(opcode, limits).value.SmallIndex?
  {
  }

  lemma OperandIsRead(p: seq<nat>, at: nat, shape: Shape, args: seq<nat>)
    requires IsBytes(p) && at <= |p| && FitsArgs(shape, args) && Occurs(p, at, EncodeArgs(shape, args))
    ensures Vm.ReadOperand(KindOf(shape), p, at) == Some(Vm.Reading(args, at + |EncodeArgs(shape, args)|))
  {
    hide Bytes16, Words, ReadWords, ReadU16, ReadU32, Occurs;
    if shape.SmallIndex? {
      SingleOccurs(p, at, args);
    } else if shape.IndexList? || shape.NullableList? {
      ListRoundTrip(p, at, args);
      WordsLength(args);
      assert |Bytes16(|args|)| == 2 by { U16Length(|args|); }
      OccursSplit(p, at, Bytes16(|args|), Words(args));
      U16RoundTrip(p, at, |args|);
    } else if !shape.Plain? {
      WordsRoundTrip(p, at, args);
      WordsLength(args);
      OneWordRead(p, at);
      assert args == [args[0]];
    }
  }

  lemma SingleOccurs(p: seq<nat>, at: nat, args: seq<nat>)
    requires |args| == 1 && Occurs(p, at, args)
    ensures at < |p| && [p[at]] == args
  {
    assert p[at] == p[at..at + 1][0];
  }

  lemma OneWordRead(p: seq<nat>, at: nat)
    ensures ReadWords(p, at, 1) == if ReadU32(p, at).Some? then Some([ReadU32(p, at).value]) else None
  {
    hide ReadU32;
    var word := ReadU32(p, at + 4 * 0);
    if word.Some? {
      assert [] + [word.value] == [word.value];
    }
  }

  lemma LeafRuns(p: seq<nat>, at: nat, t: Tree, s: Situation, limits: Limits)
    requires IsBytes(p) && s.Valid() && t.Leaf? && Fits(t, limits) && Occurs(p, at, Encode(t, limits))
    ensures at < |p| && p[at] == t.opcode && t.opcode !in {0x01, 0x02, 0x03}
    ensures Vm.LeafAt(p, t.opcode, at + 1, s) == Some(Vm.Answer(Truth(t, s), at + |Encode(t, limits)|))
  {
    hide EncodeArgs, ShapeOf, Vm.ReadOperand, Vm.Meets, Vm.OperandOf, Occurs;
    Kinds(t.opcode, limits);
    var shape := ShapeOf(t.opcode, limits).value;
    OccursSplit(p, at, [t.opcode], EncodeArgs(shape, t.args));
    SingleOccurs(p, at, [t.opcode]);
    OperandIsRead(p, at + 1, shape, t.args);
  }

  // ----- programs run

  lemma CombinedRuns(p: seq<nat>, at: nat, stack: seq<bool>, children: seq<Tree>, opcode: nat, s: Situation)
    requires IsBytes(p) && s.Valid() && (opcode == 0x01 || opcode == 0x02) && |children| < 0x1_0000
    requires Occurs(p, at, [opcode] + Bytes16(|children|))
    ensures at < |p| && Vm.Instruction(p, at, stack + Truths(children, s), s)
            == if |children| < 2 then None else Some(Vm.Machine(at + 3, stack + [Truth(Combined(opcode, children), s)]))
  {
    hide Truths, ReadU16, Bytes16, Occurs;
    OccursSplit(p, at, [opcode], Bytes16(|children|));
    SingleOccurs(p, at, [opcode]);
    U16RoundTrip(p, at + 1, |children|);
    var whole := stack + Truths(children, s);
    assert whole[..|stack|] == stack && whole[|stack|..] == Truths(children, s);
    AllOrAny(children, s);
  }

  lemma NotRuns(p: seq<nat>, at: nat, stack: seq<bool>, child: Tree, s: Situation)
    requires s.Valid() && Occurs(p, at, [0x03])
    ensures at < |p| && Vm.Instruction(p, at, stack + [Truth(child, s)], s) == Some(Vm.Machine(at + 1, stack + [Truth(Not(child), s)]))
  {
    SingleOccurs(p, at, [0x03]);
    var whole := stack + [Truth(child, s)];
    assert whole[|stack| := !Truth(child, s)] == stack + [Truth(Not(child), s)];
  }

  lemma RunStep(p: seq<nat>, at: nat, stack: seq<bool>, s: Situation)
    requires s.Valid() && at < |p|
    ensures var next := Vm.Instruction(p, at, stack, s);
            Vm.Run(p, at, stack, s) == if next.None? then None else Vm.Run(p, next.value.at, next.value.stack, s)
  {
  }

  /** The program of a tree pushes the tree's truth, and fails exactly when some AND or OR has fewer than two children. */
  lemma {:induction false} EncodedRuns(p: seq<nat>, at: nat, stack: seq<bool>, t: Tree, s: Situation, limits: Limits)
    requires IsBytes(p) && s.Valid() && Fits(t, limits) && Occurs(p, at, Encode(t, limits)) && at <= |p|
    ensures Vm.Run(p, at, stack, s) == if Proper(t) then Vm.Run(p, at + |Encode(t, limits)|, stack + [Truth(t, s)], s) else None
    decreases t, 0
  {
    hide Vm.Instruction, Vm.Run, Occurs, Bytes16, Truth, Truths, Situation.Valid;
    match t
    case Leaf(_, _) =>
      LeafRuns(p, at, t, s, limits);
      LeafInstruction(p, at, stack, s);
      RunStep(p, at, stack, s);
    case Not(child) =>
      NegatedProgramRuns(p, at, stack, child, s, limits);
    case And(children) =>
      CombinedProgramRuns(p, at, stack, children, 0x01, s, limits);
    case Or(children) =>
      CombinedProgramRuns(p, at, stack, children, 0x02, s, limits);
  }

  lemma LeafInstruction(p: seq<nat>, at: nat, stack: seq<bool>, s: Situation)
    requires s.Valid() && at < |p| && p[at] !in {0x01, 0x02, 0x03}
    ensures var leaf := Vm.LeafAt(p, p[at], at + 1, s);
            Vm.Instruction(p, at, stack, s) == if leaf.None? then None else Some(Vm.Machine(leaf.value.next, stack + [leaf.value.truth]))
  {
  }

  lemma {:induction false} NegatedProgramRuns(p: seq<nat>, at: nat, stack: seq<bool>, child: Tree, s: Situation, limits: Limits)
    requires IsBytes(p) && s.Valid() && at <= |p| && Fits(child, limits) && Occurs(p, at, Encode(Not(child), limits))
    ensures Vm.Run(p, at, stack, s)
            == if Proper(child) then Vm.Run(p, at + |Encode(child, limits)| + 1, stack + [Truth(Not(child), s)], s) else None
    decreases child, 2
  {
    hide Vm.Instruction, Vm.Run, Occurs, Truth, Situation.Valid, Fits, Proper;
    var after := at + |Encode(child, limits)|;
    OccursSplit(p, at, Encode(child, limits), [0x03]);
    EncodedRuns(p, at, stack, child, s, limits);
    NotRuns(p, after, stack, child, s);
    RunStep(p, after, stack + [Truth(child, s)], s);
  }

  lemma {:induction false} CombinedProgramRuns(p: seq<nat>, at: nat, stack: seq<bool>, children: seq<Tree>, opcode: nat, s: Situation, limits: Limits)
    requires IsBytes(p) && s.Valid() && (opcode == 0x01 || opcode == 0x02) && at <= |p|
    requires Fits(Combined(opcode, children), limits) && Occurs(p, at, Encode(Combined(opcode, children), limits))
    ensures var t := Combined(opcode, children);
            Vm.Run(p, at, stack, s) == if Proper(t) then Vm.Run(p, at + |Encode(t, limits)|, stack + [Truth(t, s)], s) else None
    decreases children, 2
  {
    hide Vm.Instruction, Vm.Run, Occurs, Bytes16, Truth, Truths, Situation.Valid;
    var after := at + |EncodeAll(children, limits)|;
    Joined(EncodeAll(children, limits), opcode, Bytes16(|children|));
    OccursSplit(p, at, EncodeAll(children, limits), [opcode] + Bytes16(|children|));
    AllEncodedRun(p, at, stack, children, s, limits);
    CombinedRuns(p, after, stack, children, opcode, s);
    RunStep(p, after, stack + Truths(children, s), s);
    U16Length(|children|);
  }

  predicate AllProper(trees: seq<Tree>) {
    forall c :: c in trees ==> Proper(c)
  }

  lemma ProperNext(trees: seq<Tree>)
    ensures trees == [] ==> AllProper(trees)
    ensures trees != [] ==> (AllProper(trees) <==> AllProper(trees[..|trees| - 1]) && Proper(trees[|trees| - 1]))
  {
    hide Proper;
    if trees != [] {
      var n := |trees| - 1;
      assert trees == trees[..n] + [trees[n]];
    }
  }

  lemma {:induction false} AllEncodedRun(p: seq<nat>, at: nat, stack: seq<bool>, trees: seq<Tree>, s: Situation, limits: Limits)
    requires IsBytes(p) && s.Valid() && at <= |p| && Occurs(p, at, EncodeAll(trees, limits))
    requires forall c :: c in trees ==> Fits(c, limits)
    ensures Vm.Run(p, at, stack, s)
            == if AllProper(trees) then Vm.Run(p, at + |EncodeAll(trees, limits)|, stack + Truths(trees, s), s) else None
    decreases trees, 1
  {
    hide Vm.Run, Occurs, Truth, Situation.Valid, Fits, AllProper, Encode;
    ProperNext(trees);
    if trees == [] {
      assert stack + Truths(trees, s) == stack;
    } else {
      var n := |trees| - 1;
      var after := at + |EncodeAll(trees[..n], limits)|;
      OccursSplit(p, at, EncodeAll(trees[..n], limits), Encode(trees[n], limits));
      OccursWithin(p, at, EncodeAll(trees[..n], limits));
      AllEncodedRun(p, at, stack, trees[..n], s, limits);
      EncodedRuns(p, after, stack + Truths(trees[..n], s), trees[n], s, limits);
      assert stack + Truths(trees[..n], s) + [Truth(trees[n], s)] == stack + Truths(trees, s);
    }
  }

  lemma {:induction false} FittingIsBytes(t: Tree, limits: Limits)
    requires Fits(t, limits)
    ensures IsBytes(Encode(t, limits))
    decreases t, 0
  {
    match t
    case And(children) => AllFittingAreBytes(children, limits);
    case Or(children) => AllFittingAreBytes(children, limits);
    case Not(child) => FittingIsBytes(child, limits);
    case Leaf(opcode, args) =>
      hide ShapeOf, Words;
      Kinds(opcode, limits);
      if !ShapeOf(opcode, limits).value.SmallIndex? {
        WordsAreBytes(args);
      }
  }

  lemma {:induction false} AllFittingAreBytes(trees: seq<Tree>, limits: Limits)
    requires forall c :: c in trees ==> Fits(c, limits)
    ensures IsBytes(EncodeAll(trees, limits))
    decreases trees, 1
  {
    if trees != [] {
      AllFittingAreBytes(trees[..|trees| - 1], limits);
      FittingIsBytes(trees[|trees| - 1], limits);
    }
  }

  /** A whole program evaluates to the truth of its tree. */
  lemma ProgramEvaluates(t: Tree, s: Situation, limits: Limits)
    requires s.Valid() && Fits(t, limits)
    ensures Vm.Evaluation(Encode(t, limits), s) == if Proper(t) then Some(Truth(t, s)) else None
  {
    hide Truth, Fits, Proper;
    var p := Encode(t, limits);
    FittingIsBytes(t, limits);
    assert p[0..|p|] == p;
    EncodedRuns(p, 0, [], t, s, limits);
    assert [] + [Truth(t, s)] == [Truth(t, s)];
  }

  /** A program the validator accepts never fails in the machine. */
  lemma AcceptedEvaluates(p: seq<nat>, limits: Limits, t: Tree, s: Situation)
    requires IsBytes(p) && Representable(limits) && Parse(p, 0, [], limits) == Some([t]) && s.Valid()
    ensures Vm.Evaluation(p, s) == Some(Truth(t, s))
  {
    hide Truth, Fits, Proper, WellFormed, Parse, Encode;
    AcceptedIsUnique(p, limits, t);
    WellFormedFits(t, limits);
    ProgramEvaluates(t, s, limits);
  }

  lemma {:induction false} WellFormedFits(t: Tree, limits: Limits)
    requires Representable(limits) && WellFormed(t, limits)
    ensures Fits(t, limits) && Proper(t)
    decreases t
  {
    match t
    case And(children) =>
      forall c | c in children
        ensures Fits(c, limits) && Proper(c)
      {
        WellFormedFits(c, limits);
      }
    case Or(children) =>
      forall c | c in children
        ensures Fits(c, limits) && Proper(c)
      {
        WellFormedFits(c, limits);
      }
    case Not(child) => WellFormedFits(child, limits);
    case Leaf(opcode, args) =>
      hide ShapeOf;
      ShapesRepresentable(opcode, limits);
  }

  // ----- names and indices

  /** In a table without repetitions an entry has a name exactly when it is where the name was found. */
  lemma IndexNames(table: seq<string>, name: string, i: nat)
    requires Distinct(table) && IndexOf(table, name).Some?
    ensures Named(table, i, name) <==> i == IndexOf(table, name).value
  {
    IndexOfKnown(table, name);
  }

  lemma IndicesName(table: seq<string>, values: seq<string>)
    requires Distinct(table) && IndexAll(table, values).Some?
    ensures forall i: nat :: NamedIn(table, i, values) <==> i in IndexAll(table, values).value
    ensures forall k, i: nat :: 0 <= k < |values| ==> (Named(table, i, values[k]) <==> i == IndexAll(table, values).value[k])
  {
    hide Distinct;
    var r := IndexAll(table, values).value;
    forall k, i: nat | 0 <= k < |values|
      ensures Named(table, i, values[k]) <==> i == r[k]
    {
      IndexNames(table, values[k], i);
    }
    forall i: nat
      ensures NamedIn(table, i, values) <==> i in r
    {
      if NamedIn(table, i, values) {
        var k :| 0 <= k < |values| && values[k] == table[i];
        assert Named(table, i, values[k]) && r[k] in r;
      }
      if i in r {
        var k :| 0 <= k < |r| && r[k] == i;
        assert Named(table, i, values[k]);
      }
    }
  }

  lemma NullableNames(table: seq<string>, items: seq<Option<string>>, i: nat)
    requires Distinct(table) && |table| <= NONE && IndexNullable(table, items).Some?
    ensures (exists name :: Some(name) in items && Named(table, i, name)) <==> i in IndexNullable(table, items).value && i != NONE
  {
    hide Distinct;
    var r := IndexNullable(table, items).value;
    if name :| Some(name) in items && Named(table, i, name) {
      var k :| 0 <= k < |items| && items[k] == Some(name);
      IndexNames(table, name, i);
      assert r[k] in r;
    }
    if i in r && i != NONE {
      var k :| 0 <= k < |r| && r[k] == i;
      IndexNames(table, items[k].value, i);
      assert items[k] in items;
    }
  }

  lemma OneFits(opcode: nat, table: seq<string>, name: string, limits: Limits)
    requires |table| <= NONE
    requires ShapeOf(opcode, limits) == Some(Index(|table|)) || (ShapeOf(opcode, limits) == Some(SmallIndex(|table|)) && |table| <= 256)
    ensures var t := ToTree(One(opcode, table, name), limits); t.Some? ==> Fits(t.value, limits)
  {
    hide ShapeOf;
    IndexOfKnown(table, name);
  }

  lemma ManyFits(opcode: nat, table: seq<string>, values: seq<string>, limits: Limits)
    requires |table| <= NONE && ShapeOf(opcode, limits) == Some(IndexList(|table|))
    ensures var t := ToTree(Many(opcode, table, values), limits); t.Some? ==> Fits(t.value, limits)
  {
    hide ShapeOf;
    var r := IndexAll(table, values);
    if r.Some? {
      forall i | 0 <= i < |r.value|
        ensures r.value[i] < |table|
      {
        IndexOfKnown(table, values[i]);
      }
    }
  }

  lemma NullableFits(opcode: nat, table: seq<string>, items: seq<Option<string>>, limits: Limits)
    requires |table| <= NONE && ShapeOf(opcode, limits) == Some(NullableList(|table|))
    ensures var t := ToTree(Nullable(opcode, table, items), limits); t.Some? ==> Fits(t.value, limits)
  {
    hide ShapeOf;
    var r := IndexNullable(table, items);
    if r.Some? {
      forall i | 0 <= i < |r.value|
        ensures r.value[i] <= NONE
      {
        if items[i].Some? {
          IndexOfKnown(table, items[i].value);
        }
      }
    }
  }

  lemma RootIndices(names: Names, attributes: seq<string>)
    requires names.Valid() && IndexAll(names.roots, attributes).Some?
    ensures forall i :: i in IndexAll(names.roots, attributes).value ==> i < ROOT_ATTRIBUTES
    ensures BitSet(IndexAll(names.roots, attributes).value) < ROOT_BITS
  {
    hide BitSet, Probing.Pow2;
    var indices := IndexAll(names.roots, attributes).value;
    forall i | i in indices
      ensures i < ROOT_ATTRIBUTES
    {
      var k :| 0 <= k < |indices| && indices[k] == i;
      IndexOfKnown(names.roots, attributes[k]);
    }
    BitSetMembers(indices, ROOT_ATTRIBUTES, 0);
    RootBitsBounded();
  }

  // ----- attributes

  /** Testing the bit of a named attribute. */
  lemma AttributeMeans(table: seq<string>, name: string, bits: nat)
    requires Distinct(table) && IndexOf(table, name).Some?
    ensures BitAnd(bits, Pow2(IndexOf(table, name).value)) != 0 <==> Carries(table, name, bits)
  {
    hide Named, Distinct, BitAnd, Pow2, Digit, IndexOf;
    var at := IndexOf(table, name).value;
    MaskTestsBit(bits, at);
    DigitIsBit(bits, at);
    forall i: nat
      ensures Named(table, i, name) <==> i == at
    {
      IndexNames(table, name, i);
    }
    assert Named(table, at, name);
  }

  lemma DigitIsBit(bits: nat, i: nat)
    ensures HasBit(bits, i) <==> Digit(bits, i)
  {
    BitIsDigit(bits, i);
  }

  lemma RootsDistinct(names: Names)
    requires names.Valid()
    ensures Distinct(names.roots)
  {
  }

  /** Testing against the bits of a set of attributes. */
  lemma AttributesMean(names: Names, attributes: seq<string>, bits: nat)
    requires names.Valid() && IndexAll(names.roots, attributes).Some?
    ensures BitAnd(bits, BitSet(IndexAll(names.roots, attributes).value)) != 0
            <==> CarriesAny(names.roots, attributes, bits)
  {
    hide NamedIn, BitAnd, Pow2, BitSet, HasBit, Digit, Names.Valid, Distinct, IndexAll;
    assert Distinct(names.roots) by { RootsDistinct(names); }
    var indices := IndexAll(names.roots, attributes).value;
    RootIndices(names, attributes);
    IndicesName(names.roots, attributes);
    CommonBit(bits, BitSet(indices));
    forall i: nat
      ensures HasBit(BitSet(indices), i) <==> i in indices
      ensures HasBit(bits, i) <==> Digit(bits, i)
    {
      BitSetMembers(indices, ROOT_ATTRIBUTES, i);
      DigitIsBit(bits, i);
    }
    if BitAnd(bits, BitSet(indices)) != 0 {
      var j :| HasBit(bits, j) && HasBit(BitSet(indices), j);
      assert NamedIn(names.roots, j, attributes) && Digit(bits, j);
    }
    if CarriesAny(names.roots, attributes, bits) {
      var i: nat :| NamedIn(names.roots, i, attributes) && Digit(bits, i);
      SharedBit(bits, BitSet(indices), i);
    }
  }

  // ----- leaves mean what they say

  /** The tree, if there is one, can be carried by the bytecode and is true exactly when `truth` is. */
  ghost predicate Says(tree: Option<Tree>, limits: Limits, s: Situation, truth: bool)
    requires s.Valid()
  {
    tree.Some? ==> Fits(tree.value, limits) && (Truth(tree.value, s) <==> truth)
  }

  lemma NamesUnrepeated(names: Names)
    requires names.Valid()
    ensures Distinct(names.roots) && Distinct(names.phonetics) && Distinct(names.primaries) && Distinct(names.secondaries)
    ensures Distinct(names.morphemes) && Distinct(names.dictionary) && Distinct(names.states) && Distinct(names.strings)
    ensures |names.morphemes| <= NONE && |names.dictionary| <= NONE && |names.states| <= NONE && |names.strings| <= NONE
    ensures |names.roots| <= 256 && |names.phonetics| <= 256 && |names.primaries| <= 256 && |names.secondaries| <= 256
  {
  }

  /** A condition with one name, about entry `i` of its table when there is one. */
  lemma OneSays(opcode: nat, table: seq<string>, name: string, present: bool, i: nat, limits: Limits, s: Situation)
    requires s.Valid() && Distinct(table) && |table| <= NONE
    requires ShapeOf(opcode, limits) == Some(Index(|table|)) || (ShapeOf(opcode, limits) == Some(SmallIndex(|table|)) && |table| <= 256)
    requires forall x: nat :: Truth(Leaf(opcode, [x]), s) <==> present && x == i
    ensures Says(ToTree(One(opcode, table, name), limits), limits, s, present && Named(table, i, name))
  {
    hide ShapeOf, Truth, Fits, Distinct, Named;
    OneFits(opcode, table, name, limits);
    if IndexOf(table, name).Some? {
      IndexNames(table, name, i);
    }
  }

  lemma RootsSay(attributes: seq<string>, names: Names, s: Situation)
    requires names.Valid() && s.Valid()
    ensures Says(ToTree(Roots(names, attributes), names.ToLimits()), names.ToLimits(), s,
                 CarriesAny(names.roots, attributes, s.records[s.path.dictionary].attributes))
  {
    hide ShapeOf, Names.Valid, BitAnd, IndexAll, BitSet, CarriesAny;
    FeatureShapes(names);
    if IndexAll(names.roots, attributes).Some? {
      RootIndices(names, attributes);
      AttributesMean(names, attributes, s.records[s.path.dictionary].attributes);
    }
  }

  /** What the one-operand features test. */
  lemma FeatureTests(s: Situation)
    requires s.Valid()
    ensures forall x: nat :: Truth(Leaf(0x10, [x]), s) <==> BitAnd(s.records[s.path.dictionary].attributes, Pow2(x)) != 0
    ensures forall x: nat :: Truth(Leaf(0x12, [x]), s) <==> BitAnd(s.path.phoneticBits, Pow2(x)) != 0
    ensures forall x: nat :: Truth(Leaf(0x13, [x]), s) <==> x == s.path.dictionary
    ensures forall x: nat :: Truth(Leaf(0x14, [x]), s) <==> x == s.records[s.path.dictionary].primaryPos
    ensures forall x: nat :: Truth(Leaf(0x15, [x]), s) <==> x == s.records[s.path.dictionary].secondaryPos
    ensures Truth(Leaf(0x18, []), s) <==> s.path.containsSuffixSurface
    ensures Truth(Leaf(0x19, []), s) <==> s.hasTail
    ensures Truth(Leaf(0x1a, []), s) <==> !s.hasTail
  {
    hide BitAnd, Pow2;
  }

  lemma AttributeSays(opcode: nat, table: seq<string>, name: string, bits: nat, limits: Limits, s: Situation)
    requires s.Valid() && Distinct(table) && |table| <= 256 && ShapeOf(opcode, limits) == Some(SmallIndex(|table|))
    requires forall x: nat :: Truth(Leaf(opcode, [x]), s) <==> BitAnd(bits, Pow2(x)) != 0
    ensures Says(ToTree(One(opcode, table, name), limits), limits, s, Carries(table, name, bits))
  {
    hide ShapeOf, Truth, Fits, Distinct, Carries, BitAnd, Pow2;
    OneFits(opcode, table, name, limits);
    if IndexOf(table, name).Some? {
      AttributeMeans(table, name, bits);
    }
  }

  lemma PlainSays(opcode: nat, limits: Limits, s: Situation, truth: bool)
    requires s.Valid() && ShapeOf(opcode, limits) == Some(Plain) && (Truth(Leaf(opcode, []), s) <==> truth)
    ensures Says(ToTree(Some((opcode, [])), limits), limits, s, truth)
  {
    hide ShapeOf, Truth;
  }

  lemma FeatureMeans(c: Condition, names: Names, s: Situation)
    requires names.Valid() && s.Valid() && IsFeature(c)
    ensures Says(ToTree(FeatureOf(c, names), names.ToLimits()), names.ToLimits(), s, FeatureHolds(c, s, names))
  {
    hide ShapeOf, Names.Valid, BitAnd, Pow2, Named, NamedIn, Distinct, One, Nullable, Roots, Carries, CarriesAny, Truth, ToTree, Says, Rooted;
    FeatureShapes(names);
    FeatureTests(s);
    NamesUnrepeated(names);
    var limits, item := names.ToLimits(), s.records[s.path.dictionary];
    match c
    case HasRootAttribute(a) => AttributeSays(0x10, names.roots, a, item.attributes, limits, s);
    case HasAnyRootAttribute(attributes) => RootsSay(attributes, names, s);
    case HasPhoneticAttribute(a) => AttributeSays(0x12, names.phonetics, a, s.path.phoneticBits, limits, s);
    case DictionaryItemIs(id) => OneSays(0x13, names.dictionary, id, true, s.path.dictionary, limits, s);
    case RootPrimaryPosIs(pos) => OneSays(0x14, names.primaries, pos, true, item.primaryPos, limits, s);
    case SecondaryPosIs(pos) => OneSays(0x15, names.secondaries, pos, true, item.secondaryPos, limits, s);
    case DictionaryItemIsAny(items) => NullableSays(0x16, items, names, s);
    case DictionaryItemIsNone(items) => NullableSays(0x17, items, names, s);
    case HasAnySuffixSurface => PlainSays(0x18, limits, s, s.path.containsSuffixSurface);
    case HasTail => PlainSays(0x19, limits, s, s.hasTail);
    case HasNoTail => PlainSays(0x1a, limits, s, !s.hasTail);
  }

  lemma NullableSays(opcode: nat, items: seq<Option<string>>, names: Names, s: Situation)
    requires names.Valid() && s.Valid() && (opcode == 0x16 || opcode == 0x17)
    ensures var limits, found := names.ToLimits(), exists id :: Some(id) in items && Named(names.dictionary, s.path.dictionary, id);
            Says(ToTree(Nullable(opcode, names.dictionary, items), limits), limits, s, if opcode == 0x16 then found else !found)
  {
    hide ShapeOf, Names.Valid, Named, Distinct, IndexNullable;
    FeatureShapes(names);
    NamesUnrepeated(names);
    NullableFits(opcode, names.dictionary, items, names.ToLimits());
    if IndexNullable(names.dictionary, items).Some? {
      NullableNames(names.dictionary, items, s.path.dictionary);
    }
  }

  /** A condition with a list of names. */
  lemma ManySays(opcode: nat, table: seq<string>, values: seq<string>, present: bool, i: nat, limits: Limits, s: Situation)
    requires s.Valid() && Distinct(table) && |table| <= NONE && ShapeOf(opcode, limits) == Some(IndexList(|table|))
    requires forall list: seq<nat> :: Truth(Leaf(opcode, list), s) <==> present && i in list
    ensures Says(ToTree(Many(opcode, table, values), limits), limits, s, present && NamedIn(table, i, values))
  {
    hide ShapeOf, Truth, Fits, Distinct, NamedIn;
    ManyFits(opcode, table, values, limits);
    if IndexAll(table, values).Some? {
      IndicesName(table, values);
    }
  }

  /** What the morpheme and surface tests of the last two steps test. */
  lemma MorphemeTests(s: Situation)
    requires s.Valid()
    ensures var h := s.Steps();
            var n := |h|;
            && (forall x: nat :: Truth(Leaf(0x1d, [x]), s) <==> x == h[n - 1].morpheme)
            && (forall x: nat :: Truth(Leaf(0x1e, [x]), s) <==> n >= 2 && x == h[n - 2].morpheme)
            && (forall x: nat :: Truth(Leaf(0x21, [x]), s) <==> x == s.path.stemSurface)
            && (forall list: seq<nat> :: Truth(Leaf(0x22, list), s) <==> s.path.stemSurface in list)
            && (forall list: seq<nat> :: Truth(Leaf(0x2d, list), s) <==> n >= 2 && h[n - 2].morpheme in list)
            && (forall list: seq<nat> :: Truth(Leaf(0x2e, list), s) <==> h[n - 1].morpheme in list)
            && (Truth(Leaf(0x2b, []), s) <==> QuietSinceDerivation(h))
  {
    PreviousStep(s.arena, s.path.node);
    SurfaceFreeIs(s.arena, s.path.node);
  }

  lemma MorphemeOrSurfaceMeans(c: Condition, names: Names, s: Situation)
    requires names.Valid() && s.Valid() && IsLeaf(c) && !IsFeature(c) && !IsState(c)
    ensures Says(ToTree(MorphemeOrSurfaceOf(c, names), names.ToLimits()), names.ToLimits(), s, MorphemeOrSurfaceHolds(c, s, names))
  {
    hide ShapeOf, Names.Valid, Named, NamedIn, Distinct, One, Many, Truth, ToTree, Says, MorphemesAt, QuietSinceDerivation, LastDerivation, InGroup, Rooted, History;
    MorphemeShapes(names);
    MorphemeTests(s);
    NamesUnrepeated(names);
    var limits, h := names.ToLimits(), s.Steps();
    var n := |h|;
    match c
    case HasTailSequence(ms) => TailSays(ms, names, s);
    case ContainsMorphemeSequence(ms) => SequenceSays(ms, names, s);
    case CurrentMorphemeIs(m) => OneSays(0x1d, names.morphemes, m, true, h[n - 1].morpheme, limits, s);
    case PreviousMorphemeIs(m) =>
      OneSays(0x1e, names.morphemes, m, n >= 2, if n >= 2 then h[n - 2].morpheme else 0, limits, s);
    case RootSurfaceIs(surface) => OneSays(0x21, names.strings, surface, true, s.path.stemSurface, limits, s);
    case RootSurfaceIsAny(surfaces) => ManySays(0x22, names.strings, surfaces, true, s.path.stemSurface, limits, s);
    case PreviousGroupContainsMorpheme(ms) => PreviousGroupMorphemesSay(ms, names, s);
    case NoSurfaceAfterDerivation => PlainSays(0x2b, limits, s, QuietSinceDerivation(h));
    case ContainsMorpheme(ms) => HistorySays(ms, names, s);
    case PreviousMorphemeIsAny(ms) =>
      ManySays(0x2d, names.morphemes, ms, n >= 2, if n >= 2 then h[n - 2].morpheme else 0, limits, s);
    case CurrentMorphemeIsAny(ms) => ManySays(0x2e, names.morphemes, ms, true, h[n - 1].morpheme, limits, s);
  }

  /** A window of indices is a window of names. */
  lemma WindowNames(h: seq<PathNode>, k: nat, listed: seq<string>, names: Names)
    requires names.Valid() && IndexAll(names.morphemes, listed).Some?
    ensures Vm.Window(h, k, IndexAll(names.morphemes, listed).value) <==> MorphemesAt(h, k, listed, names)
  {
    hide Names.Valid, Named, NamedIn, Distinct, IndexAll;
    NamesUnrepeated(names);
    IndicesName(names.morphemes, listed);
    var list := IndexAll(names.morphemes, listed).value;
    assert |list| == |listed|;
    if k + |listed| <= |h| {
      forall i | 0 <= i < |listed|
        ensures h[k + i].morpheme == list[i] <==> Named(names.morphemes, h[k + i].morpheme, listed[i])
      {
      }
    }
  }

  lemma TailSays(listed: seq<string>, names: Names, s: Situation)
    requires names.Valid() && s.Valid()
    ensures var limits, h := names.ToLimits(), s.Steps();
            Says(ToTree(Many(0x1b, names.morphemes, listed), limits), limits, s,
                 |listed| <= |h| && MorphemesAt(h, |h| - |listed|, listed, names))
  {
    hide ShapeOf, Names.Valid, Distinct, IndexAll, Vm.Window, MorphemesAt, Vm.TailIs;
    MorphemeShapes(names);
    NamesUnrepeated(names);
    ManyFits(0x1b, names.morphemes, listed, names.ToLimits());
    var h := s.Steps();
    if IndexAll(names.morphemes, listed).Some? {
      var list := IndexAll(names.morphemes, listed).value;
      TailIsWindow(s.arena, Some(s.path.node), list);
      if |listed| <= |h| {
        WindowNames(h, |h| - |listed|, listed, names);
      }
    }
  }

  lemma SequenceSays(listed: seq<string>, names: Names, s: Situation)
    requires names.Valid() && s.Valid()
    ensures var limits, h := names.ToLimits(), s.Steps();
            Says(ToTree(Many(0x1c, names.morphemes, listed), limits), limits, s,
                 listed != [] && exists k: nat :: MorphemesAt(h, k, listed, names))
  {
    hide ShapeOf, Names.Valid, Distinct, IndexAll, Vm.Window, MorphemesAt;
    MorphemeShapes(names);
    NamesUnrepeated(names);
    ManyFits(0x1c, names.morphemes, listed, names.ToLimits());
    var h := s.Steps();
    if IndexAll(names.morphemes, listed).Some? {
      var list := IndexAll(names.morphemes, listed).value;
      forall k: nat
        ensures Vm.Window(h, k, list) <==> MorphemesAt(h, k, listed, names)
        ensures Vm.Window(h, k, list) && list != [] ==> k < |h|
      {
        WindowNames(h, k, listed, names);
        WindowWithin(h, k, list);
      }
    }
  }

  lemma WindowWithin(h: seq<PathNode>, k: nat, list: seq<nat>)
    ensures Vm.Window(h, k, list) ==> k + |list| <= |h|
  {
  }

  lemma MorphemeListTests(s: Situation, list: seq<nat>)
    requires s.Valid()
    ensures var h := s.Steps();
            && (Truth(Leaf(0x2c, list), s) <==> exists i: nat :: i < |h| && h[i].morpheme in list)
            && (Truth(Leaf(0x2a, list), s) <==>
                exists i: nat, d: nat :: LastDerivation(h, d) && InGroup(h, i, d) && h[i].morpheme in list)
  {
    hide LastDerivation, InGroup, Vm.PreviousGroup;
    assert s.Steps() == History(s.arena, s.path.node);
    PreviousGroupMembers(s.arena, s.path.node, list);
  }

  lemma HistorySays(listed: seq<string>, names: Names, s: Situation)
    requires names.Valid() && s.Valid()
    ensures var limits, h := names.ToLimits(), s.Steps();
            Says(ToTree(Many(0x2c, names.morphemes, listed), limits), limits, s,
                 exists i: nat :: i < |h| && NamedIn(names.morphemes, h[i].morpheme, listed))
  {
    hide ShapeOf, Names.Valid, Distinct, NamedIn, Truth, Fits;
    MorphemeShapes(names);
    NamesUnrepeated(names);
    ManyFits(0x2c, names.morphemes, listed, names.ToLimits());
    if IndexAll(names.morphemes, listed).Some? {
      IndicesName(names.morphemes, listed);
      MorphemeListTests(s, IndexAll(names.morphemes, listed).value);
    }
  }

  lemma PreviousGroupMorphemesSay(listed: seq<string>, names: Names, s: Situation)
    requires names.Valid() && s.Valid()
    ensures var limits, h := names.ToLimits(), s.Steps();
            Says(ToTree(Many(0x2a, names.morphemes, listed), limits), limits, s,
                 exists i: nat, d: nat :: LastDerivation(h, d) && InGroup(h, i, d) && NamedIn(names.morphemes, h[i].morpheme, listed))
  {
    hide ShapeOf, Names.Valid, Distinct, NamedIn, LastDerivation, Truth, Fits;
    MorphemeShapes(names);
    NamesUnrepeated(names);
    ManyFits(0x2a, names.morphemes, listed, names.ToLimits());
    if IndexAll(names.morphemes, listed).Some? {
      IndicesName(names.morphemes, listed);
      MorphemeListTests(s, IndexAll(names.morphemes, listed).value);
    }
  }

  /** What the state tests of the last two steps test, and where the last derivation is found. */
  lemma StateTests(s: Situation)
    requires s.Valid()
    ensures var h := s.Steps();
            var n := |h|;
            && (forall x: nat :: Truth(Leaf(0x1f, [x]), s) <==> n >= 2 && x == h[n - 2].state)
            && (forall x: nat :: Truth(Leaf(0x20, [x]), s) <==> !(n >= 2 && x == h[n - 2].state))
            && (forall x: nat :: Truth(Leaf(0x23, [x]), s) <==> x == h[n - 1].state)
            && (forall x: nat :: Truth(Leaf(0x24, [x]), s) <==> x != h[n - 1].state)
            && (forall list: seq<nat> :: Truth(Leaf(0x2f, list), s) <==> n >= 2 && h[n - 2].state in list)
            && (Truth(Leaf(0x26, []), s) <==> exists i: nat :: Derives(h, i))
  {
    PreviousStep(s.arena, s.path.node);
  }

  /** A negated condition with one name. */
  lemma NotOneSays(opcode: nat, table: seq<string>, name: string, present: bool, i: nat, limits: Limits, s: Situation)
    requires s.Valid() && Distinct(table) && |table| <= NONE && ShapeOf(opcode, limits) == Some(Index(|table|))
    requires forall x: nat :: Truth(Leaf(opcode, [x]), s) <==> !(present && x == i)
    ensures Says(ToTree(One(opcode, table, name), limits), limits, s, !(present && Named(table, i, name)))
  {
    hide ShapeOf, Truth, Fits, Distinct, Named;
    OneFits(opcode, table, name, limits);
    if IndexOf(table, name).Some? {
      IndexNames(table, name, i);
    }
  }

  lemma LastDerivationTests(s: Situation)
    requires s.Valid()
    ensures var h := s.Steps();
            && (forall x: nat :: Truth(Leaf(0x25, [x]), s) <==> exists d: nat :: LastDerivation(h, d) && h[d].state == x)
            && (forall list: seq<nat> :: Truth(Leaf(0x27, list), s) <==> exists d: nat :: LastDerivation(h, d) && h[d].state in list)
  {
    hide LastDerivation, Vm.LastDerived;
    var h, m := s.Steps(), Vm.LastDerived(s.arena, s.path.node);
    LastDerivedIs(s.arena, s.path.node);
    LastDerivationsWithin(h);
    if m.Some? {
      forall d: nat | LastDerivation(h, d)
        ensures h[d] == s.arena[m.value]
      {
        OneLastDerivation(h, d, s.arena[m.value].depth - 1);
      }
    }
  }

  lemma LastDerivationSays(name: string, names: Names, s: Situation)
    requires names.Valid() && s.Valid()
    ensures var limits, h := names.ToLimits(), s.Steps();
            Says(ToTree(One(0x25, names.states, name), limits), limits, s,
                 exists d: nat :: LastDerivation(h, d) && Named(names.states, h[d].state, name))
  {
    hide ShapeOf, Names.Valid, Distinct, Named, LastDerivation, Truth, Fits;
    StateShapes(names);
    NamesUnrepeated(names);
    LastDerivationTests(s);
    OneFits(0x25, names.states, name, names.ToLimits());
    if IndexOf(names.states, name).Some? {
      forall i: nat
        ensures Named(names.states, i, name) <==> i == IndexOf(names.states, name).value
      {
        IndexNames(names.states, name, i);
      }
      LastDerivationsWithin(s.Steps());
    }
  }

  lemma LastDerivationAnySays(listed: seq<string>, names: Names, s: Situation)
    requires names.Valid() && s.Valid()
    ensures var limits, h := names.ToLimits(), s.Steps();
            Says(ToTree(Many(0x27, names.states, listed), limits), limits, s,
                 exists d: nat :: LastDerivation(h, d) && NamedIn(names.states, h[d].state, listed))
  {
    hide ShapeOf, Names.Valid, Distinct, NamedIn, LastDerivation, Truth, Fits;
    StateShapes(names);
    NamesUnrepeated(names);
    LastDerivationTests(s);
    ManyFits(0x27, names.states, listed, names.ToLimits());
    if IndexAll(names.states, listed).Some? {
      IndicesName(names.states, listed);
      LastDerivationsWithin(s.Steps());
    }
  }

  lemma GroupTests(s: Situation, list: seq<nat>)
    requires s.Valid()
    ensures var h := s.Steps();
            && (Truth(Leaf(0x28, list), s) <==> exists i: nat :: InGroup(h, i, |h|) && h[i].state in list)
            && (Truth(Leaf(0x29, list), s) <==>
                exists i: nat, d: nat :: LastDerivation(h, d) && InGroup(h, i, d) && h[i].state in list)
  {
    hide LastDerivation, InGroup, Vm.HasState, Vm.PreviousGroup, Vm.Group;
    assert s.Steps() == History(s.arena, s.path.node);
    GroupMembers(s.arena, s.path.node, list);
    PreviousGroupMembers(s.arena, s.path.node, list);
  }

  lemma GroupStatesSay(listed: seq<string>, names: Names, s: Situation)
    requires names.Valid() && s.Valid()
    ensures var limits, h := names.ToLimits(), s.Steps();
            Says(ToTree(Many(0x28, names.states, listed), limits), limits, s,
                 exists i: nat :: InGroup(h, i, |h|) && NamedIn(names.states, h[i].state, listed))
  {
    hide ShapeOf, Names.Valid, Distinct, NamedIn, LastDerivation, Truth, Fits;
    StateShapes(names);
    NamesUnrepeated(names);
    ManyFits(0x28, names.states, listed, names.ToLimits());
    if IndexAll(names.states, listed).Some? {
      IndicesName(names.states, listed);
      GroupTests(s, IndexAll(names.states, listed).value);
    }
  }

  lemma PreviousGroupStatesSay(listed: seq<string>, names: Names, s: Situation)
    requires names.Valid() && s.Valid()
    ensures var limits, h := names.ToLimits(), s.Steps();
            Says(ToTree(Many(0x29, names.states, listed), limits), limits, s,
                 exists i: nat, d: nat :: LastDerivation(h, d) && InGroup(h, i, d) && NamedIn(names.states, h[i].state, listed))
  {
    hide ShapeOf, Names.Valid, Distinct, NamedIn, LastDerivation, Truth, Fits;
    StateShapes(names);
    NamesUnrepeated(names);
    ManyFits(0x29, names.states, listed, names.ToLimits());
    if IndexAll(names.states, listed).Some? {
      IndicesName(names.states, listed);
      GroupTests(s, IndexAll(names.states, listed).value);
    }
  }

  lemma NearStatesSay(name: string, listed: seq<string>, names: Names, s: Situation)
    requires names.Valid() && s.Valid()
    ensures var limits, h, states := names.ToLimits(), s.Steps(), names.states;
            var n := |h|;
            && Says(ToTree(One(0x1f, states, name), limits), limits, s, n >= 2 && Named(states, h[n - 2].state, name))
            && Says(ToTree(One(0x20, states, name), limits), limits, s, !(n >= 2 && Named(states, h[n - 2].state, name)))
            && Says(ToTree(One(0x23, states, name), limits), limits, s, Named(states, h[n - 1].state, name))
            && Says(ToTree(One(0x24, states, name), limits), limits, s, !Named(states, h[n - 1].state, name))
            && Says(ToTree(Many(0x2f, states, listed), limits), limits, s, n >= 2 && NamedIn(states, h[n - 2].state, listed))
            && Says(ToTree(Some((0x26, [])), limits), limits, s, exists i: nat :: Derives(h, i))
  {
    hide ShapeOf, Names.Valid, Named, NamedIn, Distinct, One, Many, Truth, ToTree, Says, Derives, Rooted, History;
    StateShapes(names);
    StateTests(s);
    NamesUnrepeated(names);
    var limits, h := names.ToLimits(), s.Steps();
    var n := |h|;
    var previous := if n >= 2 then h[n - 2].state else 0;
    OneSays(0x1f, names.states, name, n >= 2, previous, limits, s);
    NotOneSays(0x20, names.states, name, n >= 2, previous, limits, s);
    OneSays(0x23, names.states, name, true, h[n - 1].state, limits, s);
    NotOneSays(0x24, names.states, name, true, h[n - 1].state, limits, s);
    ManySays(0x2f, names.states, listed, n >= 2, previous, limits, s);
    PlainSays(0x26, limits, s, exists i: nat :: Derives(h, i));
  }

  lemma StateMeans(c: Condition, names: Names, s: Situation)
    requires names.Valid() && s.Valid() && IsState(c)
    ensures Says(ToTree(StateOf(c, names), names.ToLimits()), names.ToLimits(), s, StateHolds(c, s, names))
  {
    hide Names.Valid, Named, NamedIn, One, Many, ToTree, Says, LastDerivation, InGroup, Derives, Rooted, History;
    match c
    case PreviousStateIs(name) => NearStatesSay(name, [], names, s);
    case PreviousStateIsNot(name) => NearStatesSay(name, [], names, s);
    case CurrentStateIs(name) => NearStatesSay(name, [], names, s);
    case CurrentStateIsNot(name) => NearStatesSay(name, [], names, s);
    case LastDerivationIs(name) => LastDerivationSays(name, names, s);
    case HasDerivation => NearStatesSay("", [], names, s);
    case LastDerivationIsAny(listed) => LastDerivationAnySays(listed, names, s);
    case CurrentGroupContainsAny(listed) => GroupStatesSay(listed, names, s);
    case PreviousGroupContains(listed) => PreviousGroupStatesSay(listed, names, s);
    case PreviousStateIsAny(listed) => NearStatesSay("", listed, names, s);
  }

  // ----- conditions mean what they say

  lemma LeafMeans(c: Condition, names: Names, s: Situation)
    requires names.Valid() && s.Valid() && IsLeaf(c)
    ensures Says(Resolve(c, names), names.ToLimits(), s, Holds(c, s, names))
    ensures Resolve(c, names).Some? ==> Proper(Resolve(c, names).value) && Combines(c)
  {
    hide FeatureOf, StateOf, MorphemeOrSurfaceOf, FeatureHolds, StateHolds, MorphemeOrSurfaceHolds, Says, Names.Valid;
    LeafResolution(c, names);
    if IsFeature(c) {
      FeatureMeans(c, names, s);
    } else if IsState(c) {
      StateMeans(c, names, s);
    } else {
      MorphemeOrSurfaceMeans(c, names, s);
    }
  }

  /** The tree of a condition is true exactly when the condition holds, and runs exactly when no AND or OR is too short. */
  lemma {:induction false} ResolvedMeans(c: Condition, names: Names, s: Situation)
    requires names.Valid() && s.Valid() && Resolve(c, names).Some?
    ensures var t := Resolve(c, names).value;
            Fits(t, names.ToLimits()) && (Truth(t, s) <==> Holds(c, s, names)) && (Proper(t) <==> Combines(c))
    decreases c, 0
  {
    hide Names.Valid, Situation.Valid, LeafOf, ToTree, FeatureHolds, StateHolds, MorphemeOrSurfaceHolds;
    if c.AllOf? || c.AnyOf? {
      AllResolvedMean(c.children, names, s);
    } else if c.Negation? {
      ResolvedMeans(c.child, names, s);
    } else {
      LeafMeans(c, names, s);
    }
  }

  lemma {:induction false} AllResolvedMean(cs: seq<Condition>, names: Names, s: Situation)
    requires names.Valid() && s.Valid() && ResolveAll(cs, names).Some?
    ensures var trees := ResolveAll(cs, names).value;
            && (forall t :: t in trees ==> Fits(t, names.ToLimits()))
            && ((forall t :: t in trees ==> Truth(t, s)) <==> forall k :: k in cs ==> Holds(k, s, names))
            && ((exists t :: t in trees && Truth(t, s)) <==> exists k :: k in cs && Holds(k, s, names))
            && ((forall t :: t in trees ==> Proper(t)) <==> forall k :: k in cs ==> Combines(k))
    decreases cs, 1
  {
    hide Names.Valid, Situation.Valid, Resolve, Fits, Truth, Proper, Holds, Combines;
    if cs != [] {
      var n := |cs| - 1;
      assert cs == cs[..n] + [cs[n]];
      AllResolvedMean(cs[..n], names, s);
      ResolvedMeans(cs[n], names, s);
    }
  }

  /** A program computes a condition: on every path it evaluates to the truth of the condition, unless an AND or OR has
      fewer than two members, which the machine refuses. */
  ghost predicate Computes(program: seq<nat>, c: Condition, names: Names) {
    forall s: Situation :: s.Valid() ==>
      Vm.Evaluation(program, s) == if Combines(c) then Some(Holds(c, s, names)) else None
  }

  /** The program of every condition that resolves computes that condition. */
  lemma ProgramComputes(c: Condition, names: Names)
    requires names.Valid() && Resolve(c, names).Some?
    ensures Computes(Encode(Resolve(c, names).value, names.ToLimits()), c, names)
  {
    hide Names.Valid, Resolve, Fits, Truth, Proper, Holds, Combines, Encode, Vm.Evaluation, Rooted;
    var t, limits := Resolve(c, names).value, names.ToLimits();
    forall s: Situation | s.Valid()
      ensures Vm.Evaluation(Encode(t, limits), s) == if Combines(c) then Some(Holds(c, s, names)) else None
    {
      ResolvedMeans(c, names, s);
      ProgramEvaluates(t, s, limits);
    }
  }
}
