/** The stack machine that checks condition programs before they are used. */
module ProgramValidator {
  import opened Common
  import opened Bytecode
  import opened ByteStrings

  lemma {:induction false} WordsPrefix(p: seq<nat>, at: nat, i: nat, count: nat)
    requires IsBytes(p) && i < count && ReadWords(p, at, count).Some?
    ensures ReadWords(p, at, i).Some? && ReadU32(p, at + 4 * i).Some?
    ensures |ReadWords(p, at, count).value| == count && ReadWords(p, at, count).value[i] == ReadU32(p, at + 4 * i).value
    ensures |ReadWords(p, at, i).value| == i && ReadWords(p, at, count).value[..i] == ReadWords(p, at, i).value
    decreases count
  {
    WordsBounds(p, at, count);
    if i < count - 1 {
      WordsPrefix(p, at, i, count - 1);
    } else {
      WordsBounds(p, at, i);
    }
  }

  /** Checks a list of plain indices; on success `next` is the position behind it. */
  method ValidateIndexList(p: seq<nat>, at: nat, limit: nat) returns (ok: bool, next: nat)
    requires IsBytes(p)
    ensures ok <==> ReadArgs(IndexList(limit), p, at).Some? && ValidArgs(IndexList(limit), ReadArgs(IndexList(limit), p, at).value)
    ensures ok ==> next == at + |EncodeArgs(IndexList(limit), ReadArgs(IndexList(limit), p, at).value)|
  {
    hide ReadWords, ReadU32, Words;
    NoWords(p, at + 2);
    var count := ReadU16(p, at);
    var first := at + 2;
    next := first;
    if count.None? {
      return false, next;
    }
    ReadsFit(p, at);
    var i := 0;
    while i < count.value
      invariant 0 <= i <= count.value && next == first + 4 * i
      invariant ReadWords(p, first, i).Some? && |ReadWords(p, first, i).value| == i
      invariant forall k :: 0 <= k < i ==> ReadWords(p, first, i).value[k] < limit
    {
      var value := ReadU32(p, next);
      if value.None? || value.value >= limit {
        if ReadWords(p, first, count.value).Some? {
          WordsPrefix(p, first, i, count.value);
        }
        return false, next;
      }
      WordsNext(p, first, i);
      i, next := i + 1, next + 4;
    }
    WordsLength(ReadWords(p, first, i).value);
    return true, next;
  }

  lemma NullableStep(args: seq<nat>, value: nat, limit: nat)
    requires NullableSet(args, limit) && NONE !in args && limit <= NONE
    requires value == NONE || (value < limit && (args != [] ==> args[|args| - 1] < value))
    ensures NullableSet(args + [value], limit)
  {
    forall i, j | 0 <= i < j < |args + [value]| && (args + [value])[j] != NONE
      ensures (args + [value])[i] < (args + [value])[j]
    {
      if j == |args| {
        assert args[i] <= args[|args| - 1];
      }
    }
  }

  lemma NullableFails(args: seq<nat>, i: nat, limit: nat)
    requires NullableSet(args, limit) && i < |args| && limit <= NONE
    ensures args[i] == NONE ==> i == |args| - 1
    ensures args[i] != NONE ==> args[i] < limit && (i > 0 ==> args[i - 1] < args[i])
    ensures i > 0 ==> args[i - 1] != NONE
  {
  }

  lemma WordsNext(p: seq<nat>, at: nat, i: nat)
    requires ReadWords(p, at, i).Some? && ReadU32(p, at + 4 * i).Some?
    ensures ReadWords(p, at, i + 1) == Some(ReadWords(p, at, i).value + [ReadU32(p, at + 4 * i).value])
  {
  }

  lemma NoWords(p: seq<nat>, at: nat)
    ensures ReadWords(p, at, 0) == Some([])
  {
  }

  /** Checks a dictionary set and counts its null sentinel. */
  method ValidateNullableList(p: seq<nat>, at: nat, limit: nat) returns (ok: bool, next: nat, nulls: nat)
    requires IsBytes(p) && limit <= NONE
    ensures ok <==> ReadArgs(NullableList(limit), p, at).Some? && ValidArgs(NullableList(limit), ReadArgs(NullableList(limit), p, at).value)
    ensures ok ==> var args := ReadArgs(NullableList(limit), p, at).value;
                   next == at + |EncodeArgs(NullableList(limit), args)| &&
                   nulls == if args != [] && args[|args| - 1] == NONE then 1 else 0
    ensures ok ==> var args := ReadArgs(NullableList(limit), p, at).value;
                   && (forall i :: 0 <= i < |args| ==> args[i] < limit || (args[i] == 0xffff_ffff && i == |args| - 1))
                   && (forall i, j :: 0 <= i < j < |args| && args[j] != 0xffff_ffff ==> args[i] < args[j])
  {
    hide NullableSet, ReadWords, ReadU32, Words;
    NoWords(p, at + 2);
    var count := ReadU16(p, at);
    next, nulls := at + 2, 0;
    if count.None? {
      return false, next, nulls;
    }
    ReadsFit(p, at);
    var previous: Option<nat> := None;
    var i := 0;
    assert NullableSet([], limit) by { EmptySet(limit); }
    while i < count.value
      invariant 0 <= i <= count.value && next == at + 2 + 4 * i
      invariant ReadWords(p, at + 2, i).Some? && |ReadWords(p, at + 2, i).value| == i
      invariant NullableSet(ReadWords(p, at + 2, i).value, limit)
      invariant nulls == if i > 0 && ReadWords(p, at + 2, i).value[i - 1] == NONE then 1 else 0
      invariant nulls == 1 ==> i == count.value
      invariant nulls == 0 ==> NONE !in ReadWords(p, at + 2, i).value && previous == (if i == 0 then None else Some(ReadWords(p, at + 2, i).value[i - 1]))
    {
      var value := ReadU32(p, next);
      ghost var args := ReadWords(p, at + 2, i).value;
      if ReadWords(p, at + 2, count.value).Some? && NullableSet(ReadWords(p, at + 2, count.value).value, limit) {
        WordsPrefix(p, at + 2, i, count.value);
        NullableFails(ReadWords(p, at + 2, count.value).value, i, limit);
        if i > 0 {
          assert args[i - 1] == ReadWords(p, at + 2, count.value).value[i - 1];
        }
      }
      if value.None? {
        return false, next, nulls;
      }
      if value.value == NONE {
        if i + 1 != count.value || nulls != 0 {
          return false, next, nulls;
        }
        nulls := 1;
      } else {
        if value.value >= limit || (previous.Some? && previous.value >= value.value) {
          return false, next, nulls;
        }
        previous := value;
      }
      NullableStep(args, value.value, limit);
      WordsNext(p, at + 2, i);
      i, next := i + 1, next + 4;
    }
    WordsLength(ReadWords(p, at + 2, i).value);
    SetIsSorted(ReadWords(p, at + 2, i).value, limit);
    return true, next, nulls;
  }

  lemma SetIsSorted(args: seq<nat>, limit: nat)
    requires NullableSet(args, limit)
    ensures forall i :: 0 <= i < |args| ==> args[i] < limit || (args[i] == 0xffff_ffff && i == |args| - 1)
    ensures forall i, j :: 0 <= i < j < |args| && args[j] != 0xffff_ffff ==> args[i] < args[j]
  {
  }

  lemma EmptySet(limit: nat)
    ensures NullableSet([], limit)
  {
  }

  datatype ConditionValidation = ConditionValidation(zemberekCount: nat, nullDictionarySentinels: nat)

  /** The stack keeps one count per recognised tree. */
  ghost predicate Counted(stack: seq<nat>, trees: seq<Tree>) {
    |stack| == |trees| && forall i :: 0 <= i < |stack| ==> stack[i] == ZemberekCount(trees[i])
  }

  lemma {:induction false} SumNullsSplit(left: seq<Tree>, right: seq<Tree>)
    ensures SumNulls(left + right) == SumNulls(left) + SumNulls(right)
    decreases |right|
  {
    if right == [] {
      assert left + right == left;
    } else {
      var n := |right| - 1;
      assert (left + right)[..|left + right| - 1] == left + right[..n];
      SumNullsSplit(left, right[..n]);
    }
  }

  lemma SumNullsOne(t: Tree)
    ensures SumNulls([t]) == NullCount(t)
  {
    assert [t][..0] == [];
  }

  /** Replacing trees on top of the stack by one tree with the same null sentinels. */
  lemma SumNullsReplaced(trees: seq<Tree>, split: nat, t: Tree)
    requires split <= |trees| && NullCount(t) == SumNulls(trees[split..])
    ensures SumNulls(trees[..split] + [t]) == SumNulls(trees)
  {
    assert trees == trees[..split] + trees[split..];
    SumNullsSplit(trees[..split], trees[split..]);
    SumNullsSplit(trees[..split], [t]);
    SumNullsOne(t);
  }

  /** Sums the counts on top of the stack. */
  method SumTop(stack: seq<nat>, split: nat, ghost trees: seq<Tree>) returns (total: nat)
    requires split <= |stack| && Counted(stack, trees)
    ensures total == SumCounts(trees[split..])
  {
    total := 0;
    var i := split;
    while i < |stack|
      invariant split <= i <= |stack|
      invariant total == SumCounts(trees[split..i])
    {
      assert trees[split..i + 1][..i - split] == trees[split..i];
      total := total + stack[i];
      i := i + 1;
    }
    assert trees[split..i] == trees[split..];
  }

  lemma NothingToNegate(p: seq<nat>, at: nat, stack: seq<nat>, trees: seq<Tree>, limits: Limits)
    requires at < |p| && p[at] == 0x03 && Counted(stack, trees) && stack == []
    ensures Step(p, at, trees, limits).None?
  {
  }

  lemma NegatedStep(p: seq<nat>, at: nat, stack: seq<nat>, trees: seq<Tree>, limits: Limits)
    requires at < |p| && p[at] == 0x03 && Counted(stack, trees) && stack != []
    ensures |stack| == |trees|
    ensures var after := trees[..|trees| - 1] + [Not(trees[|trees| - 1])];
            && Step(p, at, trees, limits) == Some(Machine(at + 1, after))
            && Counted(stack[..|stack| - 1] + [1], after) && SumNulls(after) == SumNulls(trees)
  {
    var split := |trees| - 1;
    SumNullsOne(trees[split]);
    assert trees[split..] == [trees[split]];
    SumNullsReplaced(trees, split, Not(trees[split]));
  }

  lemma CombinedStep(p: seq<nat>, at: nat, stack: seq<nat>, trees: seq<Tree>, limits: Limits)
    requires at < |p| && (p[at] == 0x01 || p[at] == 0x02) && Counted(stack, trees)
    ensures |stack| == |trees|
    ensures var count := ReadU16(p, at + 1);
            if count.None? || count.value < 2 || |stack| < count.value then Step(p, at, trees, limits).None?
            else var split := |trees| - count.value;
                 at + 3 <= |p| && Step(p, at, trees, limits) == Some(Machine(at + 3, trees[..split] + [Combined(p[at], trees[split..])]))
  {
  }

  lemma CombinedCounts(stack: seq<nat>, trees: seq<Tree>, split: nat, opcode: nat)
    requires Counted(stack, trees) && split <= |trees|
    ensures Counted(stack[..split] + [SumCounts(trees[split..])], trees[..split] + [Combined(opcode, trees[split..])])
    ensures SumNulls(trees[..split] + [Combined(opcode, trees[split..])]) == SumNulls(trees)
  {
    SumNullsReplaced(trees, split, Combined(opcode, trees[split..]));
  }

  lemma OperandStep(p: seq<nat>, at: nat, trees: seq<Tree>, limits: Limits)
    requires at < |p| && p[at] !in {0x01, 0x02, 0x03}
    ensures var shape := ShapeOf(p[at], limits);
            if shape.None? then Step(p, at, trees, limits).None?
            else
              var args := ReadArgs(shape.value, p, at + 1);
              if args.None? || !ValidArgs(shape.value, args.value) || at + 1 + |EncodeArgs(shape.value, args.value)| > |p|
              then Step(p, at, trees, limits).None?
              else Step(p, at, trees, limits)
                   == Some(Machine(at + 1 + |EncodeArgs(shape.value, args.value)|, trees + [Leaf(p[at], args.value)]))
  {
    hide ReadArgs, ShapeOf, ValidArgs, EncodeArgs;
  }

  class ConditionProgramValidator {
    const program: seq<nat>
    const limits: Limits
    var position: nat
    var stack: seq<nat>
    var nullDictionarySentinels: nat
    ghost var trees: seq<Tree>   // the trees recognised so far

    ghost predicate Valid()
      reads this
    {
      && IsBytes(program) && Representable(limits)
      && position <= |program|
      && Counted(stack, trees) && nullDictionarySentinels == SumNulls(trees)
      && Parse(program, 0, [], limits) == Parse(program, position, trees, limits)
    }

    constructor (program: seq<nat>, limits: Limits)
      requires IsBytes(program) && Representable(limits)
      ensures Valid() && this.program == program && this.limits == limits && position == 0 && trees == []
    {
      this.program, this.limits := program, limits;
      position, stack, nullDictionarySentinels, trees := 0, [], 0, [];
    }

    /** AND, OR and NOT: pops the operands and pushes their count. */
    method ValidateStructural(opcode: nat) returns (ok: bool)
      requires Valid() && position < |program| && program[position] == opcode && 0x01 <= opcode <= 0x03
      modifies this
      ensures ok <==> Step(program, old(position), old(trees), limits).Some?
      ensures ok ==> Valid() && Step(program, old(position), old(trees), limits) == Some(Machine(position, trees))
      ensures !ok ==> unchanged(this)
    {
      hide Step, Counted;
      if opcode == 0x03 {
        if |stack| == 0 {
          NothingToNegate(program, position, stack, trees, limits);
          return false;
        }
        NegatedStep(program, position, stack, trees, limits);
        stack := stack[..|stack| - 1] + [1];
        trees := trees[..|trees| - 1] + [Not(trees[|trees| - 1])];
        position := position + 1;
        return true;
      }
      var count := ReadU16(program, position + 1);
      CombinedStep(program, position, stack, trees, limits);
      if count.None? || count.value < 2 || |stack| < count.value {
        return false;
      }
      var split := |stack| - count.value;
      var total := SumTop(stack, split, trees);
      CombinedCounts(stack, trees, split, opcode);
      trees := trees[..split] + [Combined(opcode, trees[split..])];
      stack := stack[..split] + [total];
      position := position + 3;
      return true;
    }

    /** A leaf: checks its operand and pushes one. */
    method ValidateLeaf(opcode: nat) returns (ok: bool)
      requires Valid() && position < |program| && program[position] == opcode && opcode !in {0x01, 0x02, 0x03}
      modifies this
      ensures ok <==> Step(program, old(position), old(trees), limits).Some?
      ensures ok ==> Valid() && Step(program, old(position), old(trees), limits) == Some(Machine(position, trees))
      ensures !ok ==> unchanged(this)
    {
      hide Step, ReadArgs, ShapeOf, ValidArgs, EncodeArgs, NullCount;
      OperandStep(program, position, trees, limits);
      var shape := ShapeOf(opcode, limits);
      if shape.None? {
        return false;
      }
      ShapesRepresentable(opcode, limits);
      var next, nulls;
      ok, next, nulls := ValidateOperand(program, position + 1, opcode, shape.value, limits);
      if !ok {
        return false;
      }
      ghost var leaf := Leaf(opcode, ReadArgs(shape.value, program, position + 1).value);
      SumNullsSplit(trees, [leaf]);
      SumNullsOne(leaf);
      stack := stack + [1];
      nullDictionarySentinels := nullDictionarySentinels + nulls;
      position := next;
      trees := trees + [leaf];
    }

    /** Runs the program. It is accepted exactly when it leaves one tree, and then reports its counts. */
    method Validate() returns (r: Option<ConditionValidation>)
      requires Valid() && position == 0 && trees == []
      modifies this
      ensures program == [] ==> r == Some(ConditionValidation(0, 0))
      ensures program != [] ==> (r.Some? <==> Accepted(program, limits))
      ensures program != [] && r.Some? ==>
                exists t :: Parse(program, 0, [], limits) == Some([t]) && r.value == ConditionValidation(ZemberekCount(t), NullCount(t))
    {
      hide Step, ShapeOf, NullCount, ZemberekCount;
      if program == [] {
        return Some(ConditionValidation(0, 0));
      }
      while position < |program|
        invariant Valid()
        decreases |program| - position
      {
        var opcode := program[position];
        var ok;
        if 0x01 <= opcode <= 0x03 {
          ok := ValidateStructural(opcode);
        } else {
          ok := ValidateLeaf(opcode);
        }
        if !ok {
          return None;
        }
      }
      if |stack| != 1 {
        return None;
      }
      assert trees == [trees[0]];
      SumNullsOne(trees[0]);
      return Some(ConditionValidation(stack[0], nullDictionarySentinels));
    }
  }

  /** Programs that leave exactly one tree on the stack. */
  ghost predicate Accepted(program: seq<nat>, limits: Limits) {
    exists t :: Parse(program, 0, [], limits) == Some([t])
  }

  /** Checks the operand of a leaf opcode. */
  method ValidateOperand(p: seq<nat>, at: nat, opcode: nat, shape: Shape, limits: Limits) returns (ok: bool, next: nat, nulls: nat)
    requires IsBytes(p) && at <= |p| && ShapeOf(opcode, limits) == Some(shape) && RepresentableShape(shape)
    ensures ok <==> ReadArgs(shape, p, at).Some? && ValidArgs(shape, ReadArgs(shape, p, at).value)
                    && at + |EncodeArgs(shape, ReadArgs(shape, p, at).value)| <= |p|
    ensures ok ==> next == at + |EncodeArgs(shape, ReadArgs(shape, p, at).value)|
    ensures ok ==> nulls == NullCount(Leaf(opcode, ReadArgs(shape, p, at).value))
  {
    hide Bytes16, Occurs, NullableSet, Words, ReadWords, ReadU16, ReadU32;
    ok, next, nulls := false, at, 0;
    OperandEnds(shape, p, at);
    NullablesAre(opcode, shape, limits);
    match shape
    case Plain =>
      ok := true;
    case SmallIndex(limit) =>
      if at < |p| && p[at] < limit {
        ok, next := true, at + 1;
      }
    case RootBits =>
      ok, next := ValidateWord(p, at, ROOT_BITS);
      OneWord(p, at);
    case Index(limit) =>
      ok, next := ValidateWord(p, at, limit);
      OneWord(p, at);
    case IndexList(limit) =>
      ok, next := ValidateIndexList(p, at, limit);
    case NullableList(limit) =>
      ok, next, nulls := ValidateNullableList(p, at, limit);
  }

  lemma NullablesAre(opcode: nat, shape: Shape, limits: Limits)
    requires ShapeOf(opcode, limits) == Some(shape)
    ensures IsNullable(opcode) <==> shape.NullableList?
  {
  }

  /** A 32-bit operand below a bound. */
  method ValidateWord(p: seq<nat>, at: nat, limit: nat) returns (ok: bool, next: nat)
    requires IsBytes(p)
    ensures ok <==> ReadU32(p, at).Some? && ReadU32(p, at).value < limit
    ensures next == at + 4
  {
    var value := ReadU32(p, at);
    return value.Some? && value.value < limit, at + 4;
  }

  lemma OneWord(p: seq<nat>, at: nat)
    ensures ReadWords(p, at, 1) == if ReadU32(p, at).Some? then Some([ReadU32(p, at).value]) else None
    ensures ReadU32(p, at).Some? ==> |Words([ReadU32(p, at).value])| == 4
  {
    hide ReadU32;
    assert ReadWords(p, at, 0) == Some([]);
    if ReadU32(p, at).Some? {
      var v := ReadU32(p, at).value;
      assert [] + [v] == [v];
      WordsLength([v]);
    }
  }

  /** An operand that can be read lies within the program. */
  lemma OperandEnds(shape: Shape, p: seq<nat>, at: nat)
    requires IsBytes(p) && at <= |p| && RepresentableShape(shape)
    ensures ReadArgs(shape, p, at).Some? && ValidArgs(shape, ReadArgs(shape, p, at).value) ==>
              at + |EncodeArgs(shape, ReadArgs(shape, p, at).value)| <= |p|
  {
    hide EncodeArgs, ReadArgs, ValidArgs;
    if ReadArgs(shape, p, at).Some? && ValidArgs(shape, ReadArgs(shape, p, at).value) {
      ArgsRoundTrip(shape, p, at, ReadArgs(shape, p, at).value);
    }
  }
}
