/** Postfix condition bytecode: index-resolved trees, their encoding, and the grammar of accepted programs. */
module Bytecode {
  import opened Common
  import opened ByteStrings

  const NONE: nat := 0xffff_ffff

  // ----- operands

  /** Sizes of the tables that operands index. */
  datatype Limits = Limits(morphemes: nat, dictionary: nat, states: nat, strings: nat)

  ghost predicate Representable(limits: Limits) {
    limits.morphemes <= NONE && limits.dictionary <= NONE && limits.states <= NONE && limits.strings <= NONE
  }

  const ROOT_ATTRIBUTES: nat := 29
  const PHONETIC_ATTRIBUTES: nat := 18
  const PRIMARY_POS: nat := 14
  const SECONDARY_POS: nat := 32
  const ROOT_BITS: nat := 0x2000_0000   // 2^29: one bit per root attribute

  /** How the operand of a leaf opcode is laid out and bounded. */
  datatype Shape = Plain | SmallIndex(limit: nat) | RootBits | Index(limit: nat) | IndexList(limit: nat) | NullableList(limit: nat)

  function ShapeOf(opcode: nat, limits: Limits): Option<Shape> {
    match opcode
    case 0x10 => Some(SmallIndex(ROOT_ATTRIBUTES))
    case 0x11 => Some(RootBits)
    case 0x12 => Some(SmallIndex(PHONETIC_ATTRIBUTES))
    case 0x13 => Some(Index(limits.dictionary))
    case 0x14 => Some(SmallIndex(PRIMARY_POS))
    case 0x15 => Some(SmallIndex(SECONDARY_POS))
    case 0x16 => Some(NullableList(limits.dictionary))
    case 0x17 => Some(NullableList(limits.dictionary))
    case 0x18 => Some(Plain)
    case 0x19 => Some(Plain)
    case 0x1a => Some(Plain)
    case 0x1b => Some(IndexList(limits.morphemes))
    case 0x1c => Some(IndexList(limits.morphemes))
    case 0x1d => Some(Index(limits.morphemes))
    case 0x1e => Some(Index(limits.morphemes))
    case 0x1f => Some(Index(limits.states))
    case 0x20 => Some(Index(limits.states))
    case 0x21 => Some(Index(limits.strings))
    case 0x22 => Some(IndexList(limits.strings))
    case 0x23 => Some(Index(limits.states))
    case 0x24 => Some(Index(limits.states))
    case 0x25 => Some(Index(limits.states))
    case 0x26 => Some(Plain)
    case 0x27 => Some(IndexList(limits.states))
    case 0x28 => Some(IndexList(limits.states))
    case 0x29 => Some(IndexList(limits.states))
    case 0x2a => Some(IndexList(limits.morphemes))
    case 0x2b => Some(Plain)
    case 0x2c => Some(IndexList(limits.morphemes))
    case 0x2d => Some(IndexList(limits.morphemes))
    case 0x2e => Some(IndexList(limits.morphemes))
    case 0x2f => Some(IndexList(limits.states))
    case _ => None
  }

  /** Dictionary sets are strictly increasing, with the null sentinel at most once and last. */
  predicate NullableSet(args: seq<nat>, limit: nat) {
    && (forall i :: 0 <= i < |args| ==> args[i] < limit || (args[i] == NONE && i == |args| - 1))
    && (forall i, j :: 0 <= i < j < |args| && args[j] != NONE ==> args[i] < args[j])
  }

  predicate ValidArgs(shape: Shape, args: seq<nat>) {
    match shape
    case Plain => |args| == 0
    case SmallIndex(limit) => |args| == 1 && args[0] < limit && args[0] < 256
    case RootBits => |args| == 1 && args[0] < ROOT_BITS
    case Index(limit) => |args| == 1 && args[0] < limit
    case IndexList(limit) => |args| < 0x1_0000 && forall i :: 0 <= i < |args| ==> args[i] < limit
    case NullableList(limit) => |args| < 0x1_0000 && NullableSet(args, limit)
  }

  function EncodeArgs(shape: Shape, args: seq<nat>): seq<nat> {
    match shape
    case Plain => []
    case SmallIndex(_) => args
    case RootBits => Words(args)
    case Index(_) => Words(args)
    case IndexList(_) => Bytes16(|args|) + Words(args)
    case NullableList(_) => Bytes16(|args|) + Words(args)
  }

  // ----- trees

  /** A condition with every name resolved to an index. */
  datatype Tree = And(children: seq<Tree>) | Or(children: seq<Tree>) | Not(child: Tree) | Leaf(opcode: nat, args: seq<nat>)

  predicate WellFormed(t: Tree, limits: Limits) {
    match t
    case And(children) => 2 <= |children| < 0x1_0000 && forall c :: c in children ==> WellFormed(c, limits)
    case Or(children) => 2 <= |children| < 0x1_0000 && forall c :: c in children ==> WellFormed(c, limits)
    case Not(child) => WellFormed(child, limits)
    case Leaf(opcode, args) => ShapeOf(opcode, limits).Some? && ValidArgs(ShapeOf(opcode, limits).value, args)
  }

  /** The postfix program of a tree: operands first, then the operator and its child count. */
  function Encode(t: Tree, limits: Limits): seq<nat>
    decreases t, 0
  {
    match t
    case And(children) => EncodeAll(children, limits) + [0x01] + Bytes16(|children|)
    case Or(children) => EncodeAll(children, limits) + [0x02] + Bytes16(|children|)
    case Not(child) => Encode(child, limits) + [0x03]
    case Leaf(opcode, args) =>
      [opcode] + (if ShapeOf(opcode, limits).Some? then EncodeArgs(ShapeOf(opcode, limits).value, args) else [])
  }

  function EncodeAll(trees: seq<Tree>, limits: Limits): seq<nat>
    decreases trees, 1
  {
    if trees == [] then [] else EncodeAll(trees[..|trees| - 1], limits) + Encode(trees[|trees| - 1], limits)
  }

  /** The number of elementary conditions a combined condition counts; a negation counts as one. */
  function ZemberekCount(t: Tree): nat {
    match t
    case And(children) => SumCounts(children)
    case Or(children) => SumCounts(children)
    case Not(_) => 1
    case Leaf(_, _) => 1
  }

  function SumCounts(trees: seq<Tree>): nat {
    if trees == [] then 0 else SumCounts(trees[..|trees| - 1]) + ZemberekCount(trees[|trees| - 1])
  }

  function IsNullable(opcode: nat): bool {
    opcode == 0x16 || opcode == 0x17
  }

  /** Null sentinels in the dictionary sets of a tree. */
  function NullCount(t: Tree): nat {
    match t
    case And(children) => SumNulls(children)
    case Or(children) => SumNulls(children)
    case Not(child) => NullCount(child)
    case Leaf(opcode, args) => if IsNullable(opcode) && args != [] && args[|args| - 1] == NONE then 1 else 0
  }

  function SumNulls(trees: seq<Tree>): nat {
    if trees == [] then 0 else SumNulls(trees[..|trees| - 1]) + NullCount(trees[|trees| - 1])
  }

  // ----- reading operands back

  /** The operand of a shape at a position, without its bounds. */
  function ReadArgs(shape: Shape, p: seq<nat>, at: nat): Option<seq<nat>> {
    match shape
    case Plain => Some([])
    case SmallIndex(_) => if at < |p| then Some([p[at]]) else None
    case RootBits => ReadWords(p, at, 1)
    case Index(_) => ReadWords(p, at, 1)
    case IndexList(_) => if ReadU16(p, at).Some? then ReadWords(p, at + 2, ReadU16(p, at).value) else None
    case NullableList(_) => if ReadU16(p, at).Some? then ReadWords(p, at + 2, ReadU16(p, at).value) else None
  }

  ghost predicate RepresentableShape(shape: Shape) {
    match shape
    case Index(limit) => limit <= NONE
    case IndexList(limit) => limit <= NONE
    case NullableList(limit) => limit <= NONE
    case _ => true
  }

  lemma ArgsAreWords(shape: Shape, args: seq<nat>)
    requires RepresentableShape(shape) && ValidArgs(shape, args) && !shape.SmallIndex?
    ensures forall i :: 0 <= i < |args| ==> args[i] <= NONE
  {
  }

  /** Operands are read back exactly. */
  lemma ArgsRoundTrip(shape: Shape, p: seq<nat>, at: nat, args: seq<nat>)
    requires IsBytes(p) && at <= |p| && RepresentableShape(shape) && ValidArgs(shape, args)
    ensures Occurs(p, at, EncodeArgs(shape, args)) <==> ReadArgs(shape, p, at) == Some(args)
  {
    hide Bytes16, Words, ReadWords, NullableSet;
    if shape.SmallIndex? {
      if Occurs(p, at, args) {
        assert p[at] == p[at..at + 1][0];
      }
      assert args == [args[0]];
    } else {
      ArgsAreWords(shape, args);
      if shape.IndexList? || shape.NullableList? {
        ListRoundTrip(p, at, args);
      } else if shape.Plain? {
        EmptyOccurs(p, at);
      } else {
        WordsRoundTrip(p, at, args);
      }
    }
  }

  lemma ListRoundTrip(p: seq<nat>, at: nat, args: seq<nat>)
    requires IsBytes(p) && at <= |p| && |args| < 0x1_0000 && forall i :: 0 <= i < |args| ==> args[i] <= NONE
    ensures Occurs(p, at, Bytes16(|args|) + Words(args)) <==>
            ReadU16(p, at).Some? && ReadWords(p, at + 2, ReadU16(p, at).value) == Some(args)
  {
    hide Bytes16, Occurs, Words, ReadWords;
    assert |Bytes16(|args|)| == 2 by { U16Length(|args|); }
    OccursSplit(p, at, Bytes16(|args|), Words(args));
    U16RoundTrip(p, at, |args|);
    if ReadU16(p, at).Some? {
      WordsRoundTrip(p, at + 2, args);
      if ReadWords(p, at + 2, ReadU16(p, at).value).Some? {
        WordsBounds(p, at + 2, ReadU16(p, at).value);
      }
    }
  }

  // ----- the grammar of accepted programs

  /** Runs a program from `at` with the trees recognised so far on the stack. */
  function Parse(p: seq<nat>, at: nat, stack: seq<Tree>, limits: Limits): Option<seq<Tree>>
    requires at <= |p|
    decreases |p| - at
  {
    if at == |p| then Some(stack)
    else
      var next := Step(p, at, stack, limits);
      if next.None? then None else Parse(p, next.value.at, next.value.stack, limits)
  }

  datatype Machine = Machine(at: nat, stack: seq<Tree>)

  /** One instruction. */
  function Step(p: seq<nat>, at: nat, stack: seq<Tree>, limits: Limits): (r: Option<Machine>)
    requires at < |p|
    ensures r.Some? ==> at < r.value.at <= |p|
  {
    var opcode := p[at];
    if opcode == 0x01 || opcode == 0x02 then
      var count := ReadU16(p, at + 1);
      if count.None? || count.value < 2 || |stack| < count.value then None
      else
        var split := |stack| - count.value;
        Some(Machine(at + 3, stack[..split] + [if opcode == 0x01 then And(stack[split..]) else Or(stack[split..])]))
    else if opcode == 0x03 then
      if stack == [] then None else Some(Machine(at + 1, stack[..|stack| - 1] + [Not(stack[|stack| - 1])]))
    else
      var shape := ShapeOf(opcode, limits);
      if shape.None? then None
      else
        var args := ReadArgs(shape.value, p, at + 1);
        if args.None? || !ValidArgs(shape.value, args.value) then None
        else if at + 1 + |EncodeArgs(shape.value, args.value)| > |p| then None
        else Some(Machine(at + 1 + |EncodeArgs(shape.value, args.value)|, stack + [Leaf(opcode, args.value)]))
  }

  ghost predicate AllWellFormed(trees: seq<Tree>, limits: Limits) {
    forall i :: 0 <= i < |trees| ==> WellFormed(trees[i], limits)
  }

  lemma {:induction false} EncodeAllSplit(left: seq<Tree>, right: seq<Tree>, limits: Limits)
    ensures EncodeAll(left + right, limits) == EncodeAll(left, limits) + EncodeAll(right, limits)
    decreases |right|
  {
    if right == [] {
      assert left + right == left;
    } else {
      var n := |right| - 1;
      assert (left + right)[..|left + right| - 1] == left + right[..n];
      EncodeAllSplit(left, right[..n], limits);
    }
  }

  lemma EncodeOne(t: Tree, limits: Limits)
    ensures EncodeAll([t], limits) == Encode(t, limits)
  {
    assert [t][..0] == [];
  }

  lemma ShapesRepresentable(opcode: nat, limits: Limits)
    requires Representable(limits) && ShapeOf(opcode, limits).Some?
    ensures RepresentableShape(ShapeOf(opcode, limits).value)
    ensures 0x10 <= opcode <= 0x2f
  {
  }

  // ----- accepted programs are encodings

  lemma LeafStep(p: seq<nat>, at: nat, stack: seq<Tree>, limits: Limits)
    requires IsBytes(p) && Representable(limits) && at < |p| && p[at] !in {0x01, 0x02, 0x03} && Step(p, at, stack, limits).Some?
    ensures var m := Step(p, at, stack, limits).value;
            && m.stack == stack + [m.stack[|stack|]] && WellFormed(m.stack[|stack|], limits)
            && Occurs(p, at, Encode(m.stack[|stack|], limits)) && m.at == at + |Encode(m.stack[|stack|], limits)|
  {
    hide EncodeArgs, ReadArgs, ShapeOf, ValidArgs, Occurs, RepresentableShape;
    ShapesRepresentable(p[at], limits);
    var shape := ShapeOf(p[at], limits).value;
    var args := ReadArgs(shape, p, at + 1).value;
    ArgsRoundTrip(shape, p, at + 1, args);
    OpcodeOccurs(p, at);
    OccursSplit(p, at, [p[at]], EncodeArgs(shape, args));
  }

  lemma OpcodeOccurs(p: seq<nat>, at: nat)
    requires at < |p|
    ensures Occurs(p, at, [p[at]])
  {
  }

  function Combined(opcode: nat, children: seq<Tree>): Tree {
    if opcode == 0x01 then And(children) else Or(children)
  }

  /** Combining the top of the stack appends the operator to the code of the stack. */
  lemma CombineEncodes(stack: seq<Tree>, count: nat, opcode: nat, limits: Limits)
    requires AllWellFormed(stack, limits) && 2 <= count <= |stack| && count < 0x1_0000 && (opcode == 0x01 || opcode == 0x02)
    ensures var split := |stack| - count;
            var after := stack[..split] + [Combined(opcode, stack[split..])];
            && AllWellFormed(after, limits)
            && EncodeAll(after, limits) == EncodeAll(stack, limits) + ([opcode] + Bytes16(count))
  {
    hide Bytes16;
    var split := |stack| - count;
    var top := stack[split..];
    var t := Combined(opcode, top);
    assert stack == stack[..split] + top;
    EncodeAllSplit(stack[..split], top, limits);
    assert forall c :: c in top ==> c in stack;
    assert WellFormed(t, limits);
    EncodeAllSplit(stack[..split], [t], limits);
    EncodeOne(t, limits);
    Joined(EncodeAll(top, limits), opcode, Bytes16(count));
    Regrouped(EncodeAll(stack[..split], limits), EncodeAll(top, limits), [opcode] + Bytes16(count));
  }

  lemma Regrouped(a: seq<nat>, b: seq<nat>, c: seq<nat>)
    ensures a + (b + c) == (a + b) + c
  {
  }

  lemma CombineStep(p: seq<nat>, at: nat, stack: seq<Tree>, limits: Limits)
    requires IsBytes(p) && at < |p| && (p[at] == 0x01 || p[at] == 0x02) && Step(p, at, stack, limits).Some?
    requires AllWellFormed(stack, limits)
    ensures var m := Step(p, at, stack, limits).value;
            && ReadU16(p, at + 1).Some? && AllWellFormed(m.stack, limits)
            && at + 3 == m.at && Occurs(p, at, [p[at]] + Bytes16(ReadU16(p, at + 1).value))
            && EncodeAll(m.stack, limits) == EncodeAll(stack, limits) + ([p[at]] + Bytes16(ReadU16(p, at + 1).value))
  {
    hide Occurs, Bytes16, ReadU16, AllWellFormed, EncodeAll;
    var count := ReadU16(p, at + 1).value;
    ReadsFit(p, at + 1);
    U16RoundTrip(p, at + 1, count);
    OpcodeOccurs(p, at);
    OccursSplit(p, at, [p[at]], Bytes16(count));
    CombineEncodes(stack, count, p[at], limits);
  }

  lemma NotStep(p: seq<nat>, at: nat, stack: seq<Tree>, limits: Limits)
    requires at < |p| && p[at] == 0x03 && Step(p, at, stack, limits).Some? && AllWellFormed(stack, limits)
    ensures var m := Step(p, at, stack, limits).value;
            m.at == at + 1 && AllWellFormed(m.stack, limits) && EncodeAll(m.stack, limits) == EncodeAll(stack, limits) + [0x03]
  {
    hide ShapeOf, ReadArgs, EncodeArgs, ReadU16, EncodeAll;
    var n := |stack| - 1;
    NegateEncodes(stack, limits);
    assert Step(p, at, stack, limits).value.stack == stack[..n] + [Not(stack[n])];
  }

  /** Negating the top of the stack appends the operator to the code of the stack. */
  lemma NegateEncodes(stack: seq<Tree>, limits: Limits)
    requires stack != []
    ensures var n := |stack| - 1;
            EncodeAll(stack[..n] + [Not(stack[n])], limits) == EncodeAll(stack, limits) + [0x03]
  {
    hide EncodeAll, ShapeOf, EncodeArgs;
    var n := |stack| - 1;
    assert stack == stack[..n] + [stack[n]];
    EncodeAllSplit(stack[..n], [stack[n]], limits);
    EncodeOne(stack[n], limits);
    EncodeAllSplit(stack[..n], [Not(stack[n])], limits);
    EncodeOne(Not(stack[n]), limits);
  }

  lemma OneStep(p: seq<nat>, at: nat, stack: seq<Tree>, limits: Limits)
    requires IsBytes(p) && Representable(limits) && at < |p| && Step(p, at, stack, limits).Some?
    requires AllWellFormed(stack, limits) && p[..at] == EncodeAll(stack, limits)
    ensures var m := Step(p, at, stack, limits).value;
            m.at <= |p| && AllWellFormed(m.stack, limits) && p[..m.at] == EncodeAll(m.stack, limits)
  {
    hide Step, AllWellFormed, WellFormed, Occurs, Bytes16, ReadU16, Encode, EncodeAll;
    var m := Step(p, at, stack, limits).value;
    if p[at] == 0x01 || p[at] == 0x02 {
      CombineStep(p, at, stack, limits);
      var code := [p[at]] + Bytes16(ReadU16(p, at + 1).value);
      PrefixGrows(p, at, code);
      assert |code| == 3 by { U16Length(ReadU16(p, at + 1).value); }
    } else if p[at] == 0x03 {
      NotStep(p, at, stack, limits);
      OpcodeOccurs(p, at);
      PrefixGrows(p, at, [p[at]]);
    } else {
      LeafStep(p, at, stack, limits);
      var t := m.stack[|stack|];
      EncodeAllSplit(stack, [t], limits);
      EncodeOne(t, limits);
      PrefixGrows(p, at, Encode(t, limits));
      PushedIsWellFormed(stack, t, limits);
    }
  }

  lemma PushedIsWellFormed(stack: seq<Tree>, t: Tree, limits: Limits)
    requires AllWellFormed(stack, limits) && WellFormed(t, limits)
    ensures AllWellFormed(stack + [t], limits)
  {
    hide WellFormed;
  }

  lemma PrefixGrows(p: seq<nat>, at: nat, part: seq<nat>)
    requires Occurs(p, at, part)
    ensures p[..at + |part|] == p[..at] + part
  {
  }

  /** Every accepted program is the code of the trees it leaves on the stack. */
  lemma {:induction false} ParsedIsEncoded(p: seq<nat>, at: nat, stack: seq<Tree>, limits: Limits)
    requires IsBytes(p) && Representable(limits) && at <= |p| && Parse(p, at, stack, limits).Some?
    requires AllWellFormed(stack, limits) && p[..at] == EncodeAll(stack, limits)
    ensures AllWellFormed(Parse(p, at, stack, limits).value, limits)
    ensures EncodeAll(Parse(p, at, stack, limits).value, limits) == p
    decreases |p| - at
  {
    hide Step, AllWellFormed, EncodeAll;
    if at < |p| {
      OneStep(p, at, stack, limits);
      var m := Step(p, at, stack, limits).value;
      ParsedIsEncoded(p, m.at, m.stack, limits);
    } else {
      assert p[..at] == p;
    }
  }

  // ----- encodings are accepted

  lemma LeafParses(p: seq<nat>, at: nat, stack: seq<Tree>, t: Tree, limits: Limits)
    requires IsBytes(p) && Representable(limits) && t.Leaf? && WellFormed(t, limits) && Occurs(p, at, Encode(t, limits))
    ensures at < |p| && Step(p, at, stack, limits) == Some(Machine(at + |Encode(t, limits)|, stack + [t]))
  {
    hide EncodeArgs, ReadArgs, ShapeOf, ValidArgs, RepresentableShape;
    ShapesRepresentable(t.opcode, limits);
    var shape := ShapeOf(t.opcode, limits).value;
    OccursSplit(p, at, [t.opcode], EncodeArgs(shape, t.args));
    assert p[at] == p[at..at + 1][0] == t.opcode;
    ArgsRoundTrip(shape, p, at + 1, t.args);
  }

  lemma CombinedParses(p: seq<nat>, at: nat, stack: seq<Tree>, children: seq<Tree>, opcode: nat, limits: Limits)
    requires IsBytes(p) && (opcode == 0x01 || opcode == 0x02) && 2 <= |children| < 0x1_0000
    requires Occurs(p, at, [opcode] + Bytes16(|children|))
    ensures at < |p| && Step(p, at, stack + children, limits)
            == Some(Machine(at + 3, stack + [if opcode == 0x01 then And(children) else Or(children)]))
  {
    OccursSplit(p, at, [opcode], Bytes16(|children|));
    assert p[at] == p[at..at + 1][0] == opcode;
    U16RoundTrip(p, at + 1, |children|);
    var whole := stack + children;
    assert whole[..|stack|] == stack && whole[|stack|..] == children;
  }

  lemma Joined(left: seq<nat>, opcode: nat, right: seq<nat>)
    ensures left + [opcode] + right == left + ([opcode] + right)
  {
  }

  /** The code of a well-formed tree pushes exactly that tree. */
  lemma {:induction false} EncodedParses(p: seq<nat>, at: nat, stack: seq<Tree>, t: Tree, limits: Limits)
    requires IsBytes(p) && Representable(limits) && WellFormed(t, limits) && Occurs(p, at, Encode(t, limits)) && at <= |p|
    ensures at + |Encode(t, limits)| <= |p|
    ensures Parse(p, at, stack, limits) == Parse(p, at + |Encode(t, limits)|, stack + [t], limits)
    decreases t, 0
  {
    hide Step, Occurs, Bytes16;
    OccursWithin(p, at, Encode(t, limits));
    match t
    case Leaf(_, _) =>
      LeafParses(p, at, stack, t, limits);
    case Not(child) =>
      NotParses(p, at, stack, child, limits);
      EncodedParses(p, at, stack, child, limits);
    case And(children) =>
      Joined(EncodeAll(children, limits), 0x01, Bytes16(|children|));
      OccursSplit(p, at, EncodeAll(children, limits), [0x01] + Bytes16(|children|));
      AllEncodedParse(p, at, stack, children, limits);
      CombinedParses(p, at + |EncodeAll(children, limits)|, stack, children, 0x01, limits);
      U16Length(|children|);
    case Or(children) =>
      Joined(EncodeAll(children, limits), 0x02, Bytes16(|children|));
      OccursSplit(p, at, EncodeAll(children, limits), [0x02] + Bytes16(|children|));
      AllEncodedParse(p, at, stack, children, limits);
      CombinedParses(p, at + |EncodeAll(children, limits)|, stack, children, 0x02, limits);
      U16Length(|children|);
  }

  lemma NotParses(p: seq<nat>, at: nat, stack: seq<Tree>, child: Tree, limits: Limits)
    requires Occurs(p, at, Encode(child, limits) + [0x03])
    ensures Occurs(p, at, Encode(child, limits))
    ensures at + |Encode(child, limits)| < |p|
    ensures Step(p, at + |Encode(child, limits)|, stack + [child], limits)
            == Some(Machine(at + |Encode(child, limits)| + 1, stack + [Not(child)]))
  {
    OccursSplit(p, at, Encode(child, limits), [0x03]);
    var after := at + |Encode(child, limits)|;
    assert p[after] == p[after..after + 1][0];
    assert (stack + [child])[..|stack|] == stack;
  }

  lemma {:induction false} AllEncodedParse(p: seq<nat>, at: nat, stack: seq<Tree>, trees: seq<Tree>, limits: Limits)
    requires IsBytes(p) && Representable(limits) && at <= |p| && Occurs(p, at, EncodeAll(trees, limits))
    requires forall c :: c in trees ==> WellFormed(c, limits)
    ensures at + |EncodeAll(trees, limits)| <= |p|
    ensures Parse(p, at, stack, limits) == Parse(p, at + |EncodeAll(trees, limits)|, stack + trees, limits)
    decreases trees, 1
  {
    hide Step, Occurs;
    OccursWithin(p, at, EncodeAll(trees, limits));
    if trees == [] {
      assert stack + trees == stack;
    } else {
      var n := |trees| - 1;
      OccursSplit(p, at, EncodeAll(trees[..n], limits), Encode(trees[n], limits));
      AllEncodedParse(p, at, stack, trees[..n], limits);
      EncodedParses(p, at + |EncodeAll(trees[..n], limits)|, stack + trees[..n], trees[n], limits);
      assert stack + trees[..n] + [trees[n]] == stack + trees;
    }
  }

  // ----- programs and trees correspond one to one

  /** The program of a well-formed tree is accepted and leaves exactly that tree. */
  lemma AcceptsEncoding(t: Tree, limits: Limits)
    requires Representable(limits) && WellFormed(t, limits) && IsBytes(Encode(t, limits))
    ensures Parse(Encode(t, limits), 0, [], limits) == Some([t])
  {
    hide Step;
    var p := Encode(t, limits);
    assert p[0..|p|] == p;
    EncodedParses(p, 0, [], t, limits);
    assert [] + [t] == [t];
  }

  /** Every accepted program that leaves one tree is the program of that tree, and of no other tree. */
  lemma AcceptedIsUnique(p: seq<nat>, limits: Limits, t: Tree)
    requires IsBytes(p) && Representable(limits) && Parse(p, 0, [], limits) == Some([t])
    ensures WellFormed(t, limits) && Encode(t, limits) == p
    ensures forall u :: WellFormed(u, limits) && Encode(u, limits) == p ==> u == t
  {
    hide WellFormed, Encode;
    assert p[..0] == [] && EncodeAll([], limits) == [];
    ParsedIsEncoded(p, 0, [], limits);
    EncodeOne(t, limits);
    assert [t][0] == t;
    forall u | WellFormed(u, limits) && Encode(u, limits) == p
      ensures u == t
    {
      AcceptsEncoding(u, limits);
      assert [u][0] == [t][0];
    }
  }

  lemma {:induction false} EncodeIsBytes(t: Tree, limits: Limits)
    requires Representable(limits) && WellFormed(t, limits)
    ensures IsBytes(Encode(t, limits))
    decreases t, 0
  {
    match t
    case And(children) => EncodeAllIsBytes(children, limits);
    case Or(children) => EncodeAllIsBytes(children, limits);
    case Not(child) => EncodeIsBytes(child, limits);
    case Leaf(opcode, args) =>
      LeafIsBytes(opcode, args, limits);
  }

  lemma LeafIsBytes(opcode: nat, args: seq<nat>, limits: Limits)
    requires Representable(limits) && WellFormed(Leaf(opcode, args), limits)
    ensures IsBytes(Encode(Leaf(opcode, args), limits))
  {
    hide ShapeOf, ValidArgs, EncodeArgs;
    ShapesRepresentable(opcode, limits);
    ArgsAreBytes(ShapeOf(opcode, limits).value, args);
  }

  lemma ArgsAreBytes(shape: Shape, args: seq<nat>)
    requires RepresentableShape(shape) && ValidArgs(shape, args)
    ensures IsBytes(EncodeArgs(shape, args))
  {
    hide Words;
    if !shape.SmallIndex? {
      ArgsAreWords(shape, args);
      WordsAreBytes(args);
    }
  }

  lemma {:induction false} EncodeAllIsBytes(trees: seq<Tree>, limits: Limits)
    requires Representable(limits) && forall c :: c in trees ==> WellFormed(c, limits)
    ensures IsBytes(EncodeAll(trees, limits))
    decreases trees, 1
  {
    if trees != [] {
      EncodeAllIsBytes(trees[..|trees| - 1], limits);
      EncodeIsBytes(trees[|trees| - 1], limits);
    }
  }
}
