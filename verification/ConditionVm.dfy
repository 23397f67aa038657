/** The machine that evaluates condition programs on a path of the search. */
module ConditionVm {
  import opened Common
  import opened ByteStrings
  import opened ConditionMeaning
  import opened MachineWords
  import opened Probing
  import Bytecode

  // ----- the stack of truth values

  const INLINE: nat := 32

  ghost predicate AllTrue(values: seq<bool>) {
    forall i :: 0 <= i < |values| ==> values[i]
  }

  ghost predicate AnyTrue(values: seq<bool>) {
    exists i :: 0 <= i < |values| && values[i]
  }

  /** The topmost values replaced by their conjunction or disjunction. */
  ghost function Reduced(values: seq<bool>, count: nat, conjunction: bool): seq<bool>
    requires count <= |values|
  {
    var split := |values| - count;
    values[..split] + [if conjunction then AllTrue(values[split..]) else AnyTrue(values[split..])]
  }

  /** Up to 32 values stand inline; a deeper stack moves to the heap until it is shallow again. */
  class BoolStack {
    const inline: array<bool>
    var len: nat
    var overflow: Option<seq<bool>>

    ghost predicate Valid()
      reads this, inline
    {
      inline.Length == INLINE && len <= INLINE && (overflow.Some? ==> |overflow.value| > INLINE)
    }

    ghost function Contents(): seq<bool>
      requires Valid()
      reads this, inline
    {
      if overflow.Some? then overflow.value else inline[..len]
    }

    constructor ()
      ensures Valid() && Contents() == [] && fresh(inline)
    {
      inline := new bool[INLINE];
      len, overflow := 0, None;
    }

    method Push(value: bool)
      requires Valid()
      modifies this, inline
      ensures Valid() && Contents() == old(Contents()) + [value]
    {
      if overflow.Some? {
        overflow := Some(overflow.value + [value]);
        return;
      }
      if len < INLINE {
        inline[len] := value;
        len := len + 1;
        return;
      }
      overflow := Some(inline[..] + [value]);
    }

    method NegateLast() returns (ok: bool)
      requires Valid()
      modifies this, inline
      ensures Valid() && (ok <==> old(Contents()) != [])
      ensures ok ==> var n := |old(Contents())| - 1; Contents() == old(Contents())[n := !old(Contents())[n]]
    {
      if overflow.Some? {
        var last := |overflow.value| - 1;
        overflow := Some(overflow.value[last := !overflow.value[last]]);
        return true;
      }
      if len == 0 {
        return false;
      }
      inline[len - 1] := !inline[len - 1];
      return true;
    }

    method ReduceLast(count: nat, conjunction: bool) returns (ok: bool)
      requires Valid()
      modifies this, inline
      ensures Valid() && (ok <==> count <= |old(Contents())|)
      ensures ok ==> Contents() == Reduced(old(Contents()), count, conjunction)
    {
      if overflow.Some? {
        var values := overflow.value;
        if count > |values| {
          return false;
        }
        var start := |values| - count;
        var value := Combine(values[start..], conjunction);
        values := values[..start] + [value];
        overflow := Some(values);
        if |values| <= INLINE {
          len := |values|;
          forall i | 0 <= i < |values| {
            inline[i] := values[i];
          }
          overflow := None;
          assert inline[..len] == values;
        }
        return true;
      }
      if count > len {
        return false;
      }
      var start := len - count;
      var value := Combine(inline[start..len], conjunction);
      assert inline[..len][start..] == inline[start..len] && inline[..len][..start] == inline[..start];
      len := start;
      Push(value);
      return true;
    }

    static method Combine(values: seq<bool>, conjunction: bool) returns (value: bool)
      ensures value == if conjunction then AllTrue(values) else AnyTrue(values)
    {
      var i := 0;
      while i < |values| && values[i] == conjunction
        invariant 0 <= i <= |values| && forall k :: 0 <= k < i ==> values[k] == conjunction
      {
        i := i + 1;
      }
      return if i == |values| then conjunction else !conjunction;
    }

    method Single() returns (r: Option<bool>)
      requires Valid()
      ensures r == if |Contents()| == 1 then Some(Contents()[0]) else None
    {
      if overflow.Some? {
        return None;
      }
      return if len == 1 then Some(inline[0]) else None;
    }
  }

  // ----- walks back along the path

  /** The last step that began a derivation. */
  function LastDerived(arena: seq<PathNode>, node: nat): (r: Option<nat>)
    requires Rooted(arena) && node < |arena|
    ensures r.Some? ==> r.value <= node && arena[r.value].parent.Some?
    decreases node
  {
    if arena[node].parent.None? then None
    else if arena[node].derivative then Some(node)
    else LastDerived(arena, arena[node].parent.value)
  }

  /** The steps visited going back up to and including one that begins a derivation, the root left out. */
  function Group(arena: seq<PathNode>, node: nat): seq<PathNode>
    requires Rooted(arena) && node < |arena|
    decreases node
  {
    if arena[node].parent.None? then []
    else if arena[node].derivative then [arena[node]]
    else [arena[node]] + Group(arena, arena[node].parent.value)
  }

  function PreviousGroup(arena: seq<PathNode>, node: nat): seq<PathNode>
    requires Rooted(arena) && node < |arena|
  {
    var d := LastDerived(arena, node);
    if d.None? then [] else Group(arena, arena[d.value].parent.value)
  }

  predicate HasState(steps: seq<PathNode>, list: seq<nat>) {
    exists k :: 0 <= k < |steps| && steps[k].state in list
  }

  predicate HasMorpheme(steps: seq<PathNode>, list: seq<nat>) {
    exists k :: 0 <= k < |steps| && steps[k].morpheme in list
  }

  /** Going back, a derivation comes before any surface. */
  predicate SurfaceFree(arena: seq<PathNode>, node: nat)
    requires Rooted(arena) && node < |arena|
    decreases node
  {
    arena[node].parent.None? || arena[node].derivative
    || (arena[node].surface == "" && SurfaceFree(arena, arena[node].parent.value))
  }

  /** The morphemes going back from a node are those of the list, from its end. */
  predicate TailIs(arena: seq<PathNode>, node: Option<nat>, list: seq<nat>)
    requires Rooted(arena) && (node.Some? ==> node.value < |arena|)
    decreases |list|
  {
    if list == [] then true
    else
      var last := |list| - 1;
      node.Some? && arena[node.value].morpheme == list[last] && TailIs(arena, arena[node.value].parent, list[..last])
  }

  /** The list stands at position `k` of the steps. */
  predicate Window(h: seq<PathNode>, k: nat, list: seq<nat>) {
    k + |list| <= |h| && forall i :: 0 <= i < |list| ==> h[k + i].morpheme == list[i]
  }

  // ----- operands and leaves

  datatype Operand = Nothing | OneByte | OneWord | WordList

  function OperandOf(opcode: nat): Option<Operand> {
    if opcode in {0x18, 0x19, 0x1a, 0x26, 0x2b} then Some(Nothing)
    else if opcode in {0x10, 0x12, 0x14, 0x15} then Some(OneByte)
    else if opcode in {0x11, 0x13, 0x1d, 0x1e, 0x1f, 0x20, 0x21, 0x23, 0x24, 0x25} then Some(OneWord)
    else if 0x16 <= opcode <= 0x2f then Some(WordList)
    else None
  }

  predicate Supplied(opcode: nat, args: seq<nat>) {
    match OperandOf(opcode)
    case Some(OneByte) => |args| == 1
    case Some(OneWord) => |args| == 1
    case _ => true
  }

  /** What the operand is and where the program goes on. */
  datatype Reading = Reading(args: seq<nat>, next: nat)

  function ReadOperand(kind: Operand, p: seq<nat>, at: nat): (r: Option<Reading>)
    ensures r.Some? ==> at <= r.value.next && (kind.OneByte? || kind.OneWord? ==> |r.value.args| == 1)
  {
    match kind
    case Nothing => Some(Reading([], at))
    case OneByte => if at < |p| then Some(Reading([p[at]], at + 1)) else None
    case OneWord => if ReadU32(p, at).Some? then Some(Reading([ReadU32(p, at).value], at + 4)) else None
    case WordList =>
      var count := ReadU16(p, at);
      if count.None? then None
      else
        var words := ReadWords(p, at + 2, count.value);
        if words.None? then None else Some(Reading(words.value, at + 2 + 4 * count.value))
  }

  /** The answer of an elementary condition given its operand. */
  predicate Meets(opcode: nat, args: seq<nat>, s: Situation)
    requires s.Placed() && OperandOf(opcode).Some? && Supplied(opcode, args)
    requires IsFeatureCode(opcode) ==> s.path.dictionary < |s.records|
  {
    if IsFeatureCode(opcode) then MeetsFeature(opcode, args, s)
    else if IsStateCode(opcode) then MeetsState(opcode, args, s)
    else MeetsMorphemeOrSurface(opcode, args, s)
  }

  predicate IsFeatureCode(opcode: nat) {
    0x10 <= opcode <= 0x1a
  }

  predicate IsStateCode(opcode: nat) {
    opcode == 0x1f || opcode == 0x20 || 0x23 <= opcode <= 0x29 || opcode == 0x2f
  }

  predicate MeetsFeature(opcode: nat, args: seq<nat>, s: Situation)
    requires IsFeatureCode(opcode) && Supplied(opcode, args) && s.path.dictionary < |s.records|
  {
    var item := s.records[s.path.dictionary];
    match opcode
    case 0x10 => BitAnd(item.attributes, Pow2(args[0])) != 0
    case 0x11 => BitAnd(item.attributes, args[0]) != 0
    case 0x12 => BitAnd(s.path.phoneticBits, Pow2(args[0])) != 0
    case 0x13 => s.path.dictionary == args[0]
    case 0x14 => item.primaryPos == args[0]
    case 0x15 => item.secondaryPos == args[0]
    case 0x16 => s.path.dictionary in args && s.path.dictionary != Bytecode.NONE
    case 0x17 => !(s.path.dictionary in args && s.path.dictionary != Bytecode.NONE)
    case 0x18 => s.path.containsSuffixSurface
    case 0x19 => s.hasTail
    case 0x1a => !s.hasTail
  }

  predicate MeetsMorphemeOrSurface(opcode: nat, args: seq<nat>, s: Situation)
    requires s.Placed() && OperandOf(opcode).Some? && !IsFeatureCode(opcode) && !IsStateCode(opcode) && Supplied(opcode, args)
  {
    var arena, current := s.arena, s.arena[s.path.node];
    match opcode
    case 0x1b => |args| <= current.depth && TailIs(arena, Some(s.path.node), args)
    case 0x1c => args != [] && exists k: nat :: k < current.depth && Window(History(arena, s.path.node), k, args)
    case 0x1d => current.morpheme == args[0]
    case 0x1e => current.parent.Some? && arena[current.parent.value].morpheme == args[0]
    case 0x21 => s.path.stemSurface == args[0]
    case 0x22 => s.path.stemSurface in args
    case 0x2a => HasMorpheme(PreviousGroup(arena, s.path.node), args)
    case 0x2b => SurfaceFree(arena, s.path.node)
    case 0x2c => HasMorpheme(History(arena, s.path.node), args)
    case 0x2d => current.parent.Some? && arena[current.parent.value].morpheme in args
    case 0x2e => current.morpheme in args
  }

  predicate MeetsState(opcode: nat, args: seq<nat>, s: Situation)
    requires s.Placed() && IsStateCode(opcode) && Supplied(opcode, args)
  {
    var arena, current := s.arena, s.arena[s.path.node];
    match opcode
    case 0x1f => current.parent.Some? && arena[current.parent.value].state == args[0]
    case 0x20 => !(current.parent.Some? && arena[current.parent.value].state == args[0])
    case 0x23 => current.state == args[0]
    case 0x24 => current.state != args[0]
    case 0x25 =>
      var d := LastDerived(arena, s.path.node);
      d.Some? && arena[d.value].state == args[0]
    case 0x26 => s.path.containsDerivation
    case 0x27 =>
      var d := LastDerived(arena, s.path.node);
      d.Some? && arena[d.value].state in args
    case 0x28 => HasState(Group(arena, s.path.node), args)
    case 0x29 => HasState(PreviousGroup(arena, s.path.node), args)
    case 0x2f => current.parent.Some? && arena[current.parent.value].state in args
  }

  datatype Answer = Answer(truth: bool, next: nat)

  /** The elementary condition whose operand stands at `at`: fails for an unknown opcode, a missing operand, a path without
      dictionary record, and a shift beyond 32 bits. */
  function LeafAt(p: seq<nat>, opcode: nat, at: nat, s: Situation): (r: Option<Answer>)
    requires s.Placed()
    ensures r.Some? ==> at <= r.value.next
  {
    var kind := OperandOf(opcode);
    if kind.None? || (IsFeatureCode(opcode) && s.path.dictionary >= |s.records|) then None
    else
      var operand := ReadOperand(kind.value, p, at);
      if operand.None? || ((opcode == 0x10 || opcode == 0x12) && operand.value.args[0] >= 32) then None
      else Some(Answer(Meets(opcode, operand.value.args, s), operand.value.next))
  }

  // ----- runs

  datatype Machine = Machine(at: nat, stack: seq<bool>)

  /** One instruction. */
  ghost function Instruction(p: seq<nat>, at: nat, stack: seq<bool>, s: Situation): (r: Option<Machine>)
    requires s.Placed() && at < |p|
    ensures r.Some? ==> at < r.value.at
  {
    var opcode := p[at];
    if opcode == 0x03 then
      if stack == [] then None else Some(Machine(at + 1, stack[|stack| - 1 := !stack[|stack| - 1]]))
    else if opcode == 0x01 || opcode == 0x02 then
      var count := ReadU16(p, at + 1);
      if count.None? || count.value < 2 || count.value > |stack| then None
      else Some(Machine(at + 3, Reduced(stack, count.value, opcode == 0x01)))
    else
      var leaf := LeafAt(p, opcode, at + 1, s);
      if leaf.None? then None else Some(Machine(leaf.value.next, stack + [leaf.value.truth]))
  }

  /** The stack a program leaves behind. */
  ghost function Run(p: seq<nat>, at: nat, stack: seq<bool>, s: Situation): Option<seq<bool>>
    requires s.Placed()
    decreases |p| - at
  {
    if at >= |p| then Some(stack)
    else
      var next := Instruction(p, at, stack, s);
      if next.None? then None else Run(p, next.value.at, next.value.stack, s)
  }

  /** What a program evaluates to. */
  ghost function Evaluation(p: seq<nat>, s: Situation): Option<bool>
    requires s.Placed()
  {
    var stack := Run(p, 0, [], s);
    if stack.Some? && |stack.value| == 1 then Some(stack.value[0]) else None
  }

  class ConditionVm {
    const situation: Situation
    const program: seq<nat>
    const stack: BoolStack
    var position: nat

    constructor (situation: Situation, program: seq<nat>)
      ensures this.situation == situation && this.program == program && position == 0
      ensures fresh(stack) && fresh(stack.inline) && stack.Valid() && stack.Contents() == []
    {
      this.situation, this.program, position := situation, program, 0;
      stack := new BoolStack();
    }

    /** Runs the program to its end; fails exactly when an instruction fails or not exactly one value is left. */
    method Evaluate() returns (r: Option<bool>)
      requires situation.Placed() && position == 0 && stack.Valid() && stack.Contents() == []
      modifies this, stack, stack.inline
      ensures r == Evaluation(program, situation)
    {
      hide LeafAt, Reduced;
      while position < |program|
        invariant stack.Valid()
        invariant Run(program, position, stack.Contents(), situation) == Run(program, 0, [], situation)
        decreases |program| - position
      {
        ghost var before, at := stack.Contents(), position;
        var opcode := program[position];
        position := position + 1;
        if 0x01 <= opcode <= 0x03 {
          var ok := EvaluateStructural(opcode);
          if !ok {
            return None;
          }
        } else {
          var value := EvaluateLeaf(opcode);
          if value.None? {
            return None;
          }
          stack.Push(value.value);
        }
        assert Instruction(program, at, before, situation) == Some(Machine(position, stack.Contents()));
      }
      r := stack.Single();
    }

    method EvaluateStructural(opcode: nat) returns (ok: bool)
      requires situation.Placed() && stack.Valid()
      requires 0 < position <= |program| && program[position - 1] == opcode && 0x01 <= opcode <= 0x03
      modifies this`position, stack, stack.inline
      ensures stack.Valid()
      ensures var next := Instruction(program, old(position) - 1, old(stack.Contents()), situation);
              if ok then next == Some(Machine(position, stack.Contents())) else next.None?
    {
      hide LeafAt, Reduced;
      if opcode == 0x03 {
        ok := stack.NegateLast();
        return;
      }
      var count := ReadU16(program, position);
      if count.None? {
        return false;
      }
      position := position + 2;
      if count.value < 2 {
        return false;
      }
      ok := stack.ReduceLast(count.value, opcode == 0x01);
    }

    /** What a leaf delivers, and the position behind it. */
    ghost predicate Delivers(r: Option<bool>, opcode: nat, at: nat)
      requires situation.Placed()
      reads this
    {
      var leaf := LeafAt(program, opcode, at, situation);
      if r.Some? then leaf == Some(Answer(r.value, position)) else leaf.None?
    }

    method EvaluateLeaf(opcode: nat) returns (r: Option<bool>)
      requires situation.Placed()
      modifies this`position
      ensures Delivers(r, opcode, old(position))
    {
      hide Meets, ReadOperand;
      if IsFeatureCode(opcode) {
        r := EvaluateFeature(opcode);
      } else if IsStateCode(opcode) {
        r := EvaluateStateOrGroup(opcode);
      } else if 0x1b <= opcode <= 0x1e || 0x21 <= opcode <= 0x22 || 0x2a <= opcode <= 0x2e {
        r := EvaluateMorphemeOrSurface(opcode);
      } else {
        return None;
      }
    }

    method EvaluateFeature(opcode: nat) returns (r: Option<bool>)
      requires situation.Placed() && IsFeatureCode(opcode)
      modifies this`position
      ensures Delivers(r, opcode, old(position))
    {
      hide BitAnd, Pow2, ReadU32, ReadWords, ReadU16;
      var path := situation.path;
      if path.dictionary >= |situation.records| {
        return None;
      }
      var item := situation.records[path.dictionary];
      match opcode
      case 0x10 =>
        var attribute := ReadByte();
        r := if attribute.Some? && attribute.value < 32 then Some(BitAnd(item.attributes, Pow2(attribute.value)) != 0) else None;
      case 0x11 =>
        var attributes := ReadProgramU32();
        r := if attributes.Some? then Some(BitAnd(item.attributes, attributes.value) != 0) else None;
      case 0x12 =>
        var attribute := ReadByte();
        r := if attribute.Some? && attribute.value < 32 then Some(BitAnd(path.phoneticBits, Pow2(attribute.value)) != 0) else None;
      case 0x13 =>
        var id := ReadProgramU32();
        r := if id.Some? then Some(path.dictionary == id.value) else None;
      case 0x14 =>
        var pos := ReadByte();
        r := if pos.Some? then Some(item.primaryPos == pos.value) else None;
      case 0x15 =>
        var pos := ReadByte();
        r := if pos.Some? then Some(item.secondaryPos == pos.value) else None;
      case 0x16 =>
        var list := ReadIndexList();
        r := if list.Some? then Some(path.dictionary in list.value && path.dictionary != Bytecode.NONE) else None;
      case 0x17 =>
        var list := ReadIndexList();
        r := if list.Some? then Some(!(path.dictionary in list.value && path.dictionary != Bytecode.NONE)) else None;
      case 0x18 => r := Some(path.containsSuffixSurface);
      case 0x19 => r := Some(situation.hasTail);
      case 0x1a => r := Some(!situation.hasTail);
    }

    method EvaluateMorphemeOrSurface(opcode: nat) returns (r: Option<bool>)
      requires situation.Placed()
      requires 0x1b <= opcode <= 0x1e || 0x21 <= opcode <= 0x22 || 0x2a <= opcode <= 0x2e
      modifies this`position
      ensures Delivers(r, opcode, old(position))
    {
      hide ReadU32, ReadWords, ReadU16, HasMorpheme, TailIs, Window;
      var arena, current := situation.arena, situation.arena[situation.path.node];
      match opcode
      case 0x1d =>
        var m := ReadProgramU32();
        r := if m.Some? then Some(current.morpheme == m.value) else None;
      case 0x1e =>
        var m := ReadProgramU32();
        r := if m.Some? then Some(current.parent.Some? && arena[current.parent.value].morpheme == m.value) else None;
      case 0x21 =>
        var surface := ReadProgramU32();
        r := if surface.Some? then Some(situation.path.stemSurface == surface.value) else None;
      case 0x2b =>
        var free := NoSurfaceAfterDerivation();
        r := Some(free);
      case _ =>
        var list := ReadIndexList();
        if list.None? {
          return None;
        }
        var value := EvaluateMorphemeList(opcode, list.value);
        r := Some(value);
    }

    method EvaluateMorphemeList(opcode: nat, list: seq<nat>) returns (value: bool)
      requires situation.Placed()
      requires opcode in {0x1b, 0x1c, 0x22, 0x2a, 0x2c, 0x2d, 0x2e}
      ensures value == Meets(opcode, list, situation)
    {
      hide HasMorpheme, TailIs, Window;
      var arena, current := situation.arena, situation.arena[situation.path.node];
      match opcode
      case 0x1b => value := HasTailSequence(list);
      case 0x1c => value := ContainsMorphemeSequence(list);
      case 0x22 => value := situation.path.stemSurface in list;
      case 0x2a => value := PreviousGroupContainsMorpheme(list);
      case 0x2c => value := HistoryContainsMorpheme(list);
      case 0x2d => value := current.parent.Some? && arena[current.parent.value].morpheme in list;
      case 0x2e => value := current.morpheme in list;
    }

    method EvaluateStateOrGroup(opcode: nat) returns (r: Option<bool>)
      requires situation.Placed() && IsStateCode(opcode)
      modifies this`position
      ensures Delivers(r, opcode, old(position))
    {
      hide ReadU32, ReadWords, ReadU16, HasState;
      var arena, current := situation.arena, situation.arena[situation.path.node];
      match opcode
      case 0x26 => r := Some(situation.path.containsDerivation);
      case 0x1f =>
        var state := ReadProgramU32();
        r := if state.Some? then Some(current.parent.Some? && arena[current.parent.value].state == state.value) else None;
      case 0x20 =>
        var state := ReadProgramU32();
        r := if state.Some? then Some(!(current.parent.Some? && arena[current.parent.value].state == state.value)) else None;
      case 0x23 =>
        var state := ReadProgramU32();
        r := if state.Some? then Some(current.state == state.value) else None;
      case 0x24 =>
        var state := ReadProgramU32();
        r := if state.Some? then Some(current.state != state.value) else None;
      case 0x25 =>
        var derived := LastDerivationState();
        var state := ReadProgramU32();
        r := if state.Some? then Some(derived == state) else None;
      case _ =>
        var list := ReadIndexList();
        if list.None? {
          return None;
        }
        var value := EvaluateStateList(opcode, list.value);
        r := Some(value);
    }

    method EvaluateStateList(opcode: nat, list: seq<nat>) returns (value: bool)
      requires situation.Placed() && opcode in {0x27, 0x28, 0x29, 0x2f}
      ensures value == Meets(opcode, list, situation)
    {
      hide HasState;
      var arena, current := situation.arena, situation.arena[situation.path.node];
      match opcode
      case 0x27 =>
        var derived := LastDerivationState();
        value := derived.Some? && derived.value in list;
      case 0x28 => value := GroupContainsState(situation.path.node, list);
      case 0x29 => value := PreviousGroupContainsState(list);
      case 0x2f => value := current.parent.Some? && arena[current.parent.value].state in list;
    }

    // ----- reading

    method ReadByte() returns (r: Option<nat>)
      modifies this`position
      ensures ReadOperand(OneByte, program, old(position)) == if r.Some? then Some(Reading([r.value], position)) else None
    {
      if position >= |program| {
        return None;
      }
      r := Some(program[position]);
      position := position + 1;
    }

    method ReadProgramU32() returns (r: Option<nat>)
      modifies this`position
      ensures ReadOperand(OneWord, program, old(position)) == if r.Some? then Some(Reading([r.value], position)) else None
    {
      r := ReadU32(program, position);
      if r.Some? {
        position := position + 4;
      }
    }

    method ReadIndexList() returns (r: Option<seq<nat>>)
      modifies this`position
      ensures ReadOperand(WordList, program, old(position)) == if r.Some? then Some(Reading(r.value, position)) else None
    {
      hide ReadU16, ReadU32;
      var count := ReadU16(program, position);
      if count.None? {
        return None;
      }
      var start := position + 2;
      var list := [];
      for i := 0 to count.value
        invariant ReadWords(program, start, i) == Some(list)
      {
        var word := ReadU32(program, start + 4 * i);
        if word.None? {
          MissingWord(program, start, i + 1, count.value);
          return None;
        }
        list := list + [word.value];
      }
      position := start + 4 * count.value;
      r := Some(list);
    }

    // ----- walking

    method HasTailSequence(list: seq<nat>) returns (r: bool)
      requires situation.Placed()
      ensures r == (|list| <= situation.arena[situation.path.node].depth && TailIs(situation.arena, Some(situation.path.node), list))
    {
      var arena := situation.arena;
      if arena[situation.path.node].depth < |list| {
        return false;
      }
      var node: Option<nat> := Some(situation.path.node);
      var left := |list|;
      assert list[..left] == list;
      while left > 0
        invariant 0 <= left <= |list| && (node.Some? ==> node.value < |arena|)
        invariant TailIs(arena, Some(situation.path.node), list) == TailIs(arena, node, list[..left])
      {
        left := left - 1;
        assert list[..left + 1][..left] == list[..left];
        if node.None? || arena[node.value].morpheme != list[left] {
          return false;
        }
        node := arena[node.value].parent;
      }
      return true;
    }

    method ContainsMorphemeSequence(list: seq<nat>) returns (r: bool)
      requires situation.Placed()
      ensures r == Meets(0x1c, list, situation)
    {
      var arena, depth := situation.arena, situation.arena[situation.path.node].depth;
      if list == [] || depth < |list| {
        return false;
      }
      var history := HistoryOf(situation.path.node);
      for k := 0 to depth - |list| + 1
        invariant forall w: nat :: w < k ==> !Window(history, w, list)
      {
        var matches := true;
        var offset := 0;
        while offset < |list| && matches
          invariant 0 <= offset <= |list|
          invariant matches ==> forall i :: 0 <= i < offset ==> history[k + i].morpheme == list[i]
          invariant !matches ==> !Window(history, k, list)
        {
          matches := history[k + offset].morpheme == list[offset];
          offset := offset + 1;
        }
        if matches {
          assert Window(history, k, list);
          return true;
        }
      }
      return false;
    }

    method HistoryOf(node: nat) returns (h: seq<PathNode>)
      requires situation.Placed() && node < |situation.arena|
      ensures h == History(situation.arena, node)
    {
      var arena := situation.arena;
      var current: Option<nat> := Some(node);
      h := [];
      while current.Some?
        invariant current.Some? ==> current.value < |arena| && History(arena, current.value) + h == History(arena, node)
        invariant current.None? ==> h == History(arena, node)
        decreases if current.Some? then current.value + 1 else 0
      {
        h := [arena[current.value]] + h;
        current := arena[current.value].parent;
      }
    }

    method LastDerivationState() returns (r: Option<nat>)
      requires situation.Placed()
      ensures var d := LastDerived(situation.arena, situation.path.node);
              r == if d.Some? then Some(situation.arena[d.value].state) else None
    {
      var arena, index: nat := situation.arena, situation.path.node;
      while arena[index].parent.Some?
        invariant index < |arena| && LastDerived(arena, index) == LastDerived(arena, situation.path.node)
        decreases index
      {
        if arena[index].derivative {
          return Some(arena[index].state);
        }
        index := arena[index].parent.value;
      }
      return None;
    }

    method PreviousGroupStart() returns (r: Option<nat>)
      requires situation.Placed()
      ensures var d := LastDerived(situation.arena, situation.path.node);
              r == if d.Some? then situation.arena[d.value].parent else None
    {
      var arena, index: nat := situation.arena, situation.path.node;
      while arena[index].parent.Some?
        invariant index < |arena| && LastDerived(arena, index) == LastDerived(arena, situation.path.node)
        decreases index
      {
        if arena[index].derivative {
          return arena[index].parent;
        }
        index := arena[index].parent.value;
      }
      return None;
    }

    /** Walks one group back from a node, looking for a state. */
    method GroupContainsState(node: nat, list: seq<nat>) returns (r: bool)
      requires situation.Placed() && node < |situation.arena|
      ensures r == HasState(Group(situation.arena, node), list)
    {
      hide HasState;
      var arena, index: nat := situation.arena, node;
      while arena[index].parent.Some?
        invariant index < |arena| && HasState(Group(arena, index), list) == HasState(Group(arena, node), list)
        decreases index
      {
        GroupStep(arena, index, list);
        if arena[index].state in list {
          return true;
        }
        if arena[index].derivative {
          return false;
        }
        index := arena[index].parent.value;
      }
      NothingContained(list);
      return false;
    }

    method GroupContainsMorpheme(node: nat, list: seq<nat>) returns (r: bool)
      requires situation.Placed() && node < |situation.arena|
      ensures r == HasMorpheme(Group(situation.arena, node), list)
    {
      hide HasMorpheme;
      var arena, index: nat := situation.arena, node;
      while arena[index].parent.Some?
        invariant index < |arena| && HasMorpheme(Group(arena, index), list) == HasMorpheme(Group(arena, node), list)
        decreases index
      {
        GroupStep(arena, index, list);
        if arena[index].morpheme in list {
          return true;
        }
        if arena[index].derivative {
          return false;
        }
        index := arena[index].parent.value;
      }
      NothingContained(list);
      return false;
    }

    method PreviousGroupContainsState(list: seq<nat>) returns (r: bool)
      requires situation.Placed()
      ensures r == HasState(PreviousGroup(situation.arena, situation.path.node), list)
    {
      hide HasState;
      NothingContained(list);
      var start := PreviousGroupStart();
      if start.None? {
        return false;
      }
      r := GroupContainsState(start.value, list);
    }

    method PreviousGroupContainsMorpheme(list: seq<nat>) returns (r: bool)
      requires situation.Placed()
      ensures r == HasMorpheme(PreviousGroup(situation.arena, situation.path.node), list)
    {
      hide HasMorpheme;
      NothingContained(list);
      var start := PreviousGroupStart();
      if start.None? {
        return false;
      }
      r := GroupContainsMorpheme(start.value, list);
    }

    method NoSurfaceAfterDerivation() returns (r: bool)
      requires situation.Placed()
      ensures r == SurfaceFree(situation.arena, situation.path.node)
    {
      var arena, index: nat := situation.arena, situation.path.node;
      while arena[index].parent.Some?
        invariant index < |arena| && SurfaceFree(arena, index) == SurfaceFree(arena, situation.path.node)
        decreases index
      {
        if arena[index].derivative {
          return true;
        }
        if arena[index].surface != "" {
          return false;
        }
        index := arena[index].parent.value;
      }
      return true;
    }

    method HistoryContainsMorpheme(list: seq<nat>) returns (r: bool)
      requires situation.Placed()
      ensures r == HasMorpheme(History(situation.arena, situation.path.node), list)
    {
      hide HasMorpheme;
      var arena, index: Option<nat> := situation.arena, Some(situation.path.node);
      while index.Some?
        invariant index.Some? ==> index.value < |arena|
        invariant HasMorpheme(History(arena, situation.path.node), list)
                  == (index.Some? && HasMorpheme(History(arena, index.value), list))
        decreases if index.Some? then index.value + 1 else 0
      {
        HistoryStep(arena, index.value, list);
        if arena[index.value].morpheme in list {
          return true;
        }
        index := arena[index.value].parent;
      }
      return false;
    }
  }

  lemma {:induction false} MissingWord(p: seq<nat>, at: nat, count: nat, more: nat)
    requires ReadWords(p, at, count).None? && count <= more
    ensures ReadWords(p, at, more).None?
    decreases more
  {
    if count < more {
      MissingWord(p, at, count, more - 1);
    }
  }

  lemma GroupStep(arena: seq<PathNode>, node: nat, list: seq<nat>)
    requires Rooted(arena) && node < |arena| && arena[node].parent.Some?
    ensures var rest := if arena[node].derivative then [] else Group(arena, arena[node].parent.value);
            && (HasState(Group(arena, node), list) <==> arena[node].state in list || HasState(rest, list))
            && (HasMorpheme(Group(arena, node), list) <==> arena[node].morpheme in list || HasMorpheme(rest, list))
            && !HasState([], list) && !HasMorpheme([], list)
  {
    var rest := if arena[node].derivative then [] else Group(arena, arena[node].parent.value);
    var group := Group(arena, node);
    assert group == [arena[node]] + rest;
    assert forall k :: 0 <= k < |rest| ==> group[k + 1] == rest[k];
    assert group[0] == arena[node];
    if k :| 0 <= k < |rest| && rest[k].state in list {
      assert group[k + 1].state in list;
    }
    if k :| 0 <= k < |rest| && rest[k].morpheme in list {
      assert group[k + 1].morpheme in list;
    }
  }

  lemma HistoryStep(arena: seq<PathNode>, node: nat, list: seq<nat>)
    requires Rooted(arena) && node < |arena|
    ensures HasMorpheme(History(arena, node), list) <==>
            arena[node].morpheme in list || (arena[node].parent.Some? && HasMorpheme(History(arena, arena[node].parent.value), list))
  {
    var h := History(arena, node);
    assert h[|h| - 1] == arena[node];
    if arena[node].parent.Some? {
      var front := History(arena, arena[node].parent.value);
      assert h == front + [arena[node]];
      if k :| 0 <= k < |front| && front[k].morpheme in list {
        assert h[k].morpheme in list;
      }
    }
  }

  lemma NothingContained(list: seq<nat>)
    ensures !HasState([], list) && !HasMorpheme([], list)
  {
  }

  /** An edge may be taken when it has no condition or its program evaluates to true; a failing program stops the search. */
  method MayFollow(program: seq<nat>, s: Situation) returns (r: Option<bool>)
    requires s.Placed()
    ensures r == if program == [] then Some(true) else Evaluation(program, s)
  {
    if program == [] {
      return Some(true);
    }
    var vm := new ConditionVm(s, program);
    r := vm.Evaluate();
  }
}
