/** What a condition says about a path through the suffix graph, in terms of names. */
module ConditionMeaning {
  import opened Common
  import opened ConditionLanguage
  import opened Probing

  // ----- paths of the search

  /** One step of a path; all paths of a search share an arena and point back into it. */
  datatype PathNode = PathNode(parent: Option<nat>, state: nat, morpheme: nat, surface: string, derivative: bool, depth: nat)

  datatype DictionaryItem = DictionaryItem(attributes: nat, primaryPos: nat, secondaryPos: nat)

  datatype SearchPath = SearchPath(node: nat, dictionary: nat, stemSurface: nat, phoneticBits: nat,
                                   containsDerivation: bool, containsSuffixSurface: bool)

  /** Parents come first, and the depth counts the steps back to the root. */
  ghost predicate Rooted(arena: seq<PathNode>) {
    forall i :: 0 <= i < |arena| ==>
      if arena[i].parent.None? then arena[i].depth == 1
      else arena[i].parent.value < i && arena[i].depth == arena[arena[i].parent.value].depth + 1
  }

  /** The steps from the root to a node. */
  function History(arena: seq<PathNode>, node: nat): (h: seq<PathNode>)
    requires Rooted(arena) && node < |arena|
    ensures |h| == arena[node].depth && h != [] && h[|h| - 1] == arena[node]
    ensures arena[node].parent.None? <==> |h| == 1
    decreases node
  {
    if arena[node].parent.None? then [arena[node]] else History(arena, arena[node].parent.value) + [arena[node]]
  }

  /** A step behind the root that begins a derivation. */
  ghost predicate Derives(h: seq<PathNode>, i: nat) {
    0 < i < |h| && h[i].derivative
  }

  ghost predicate Spells(h: seq<PathNode>, i: nat) {
    0 < i < |h| && h[i].surface != ""
  }

  /** What a condition is evaluated on. */
  datatype Situation = Situation(records: seq<DictionaryItem>, arena: seq<PathNode>, path: SearchPath, hasTail: bool) {
    ghost predicate Placed() {
      Rooted(arena) && path.node < |arena|
    }

    ghost function Steps(): seq<PathNode>
      requires Placed()
    {
      History(arena, path.node)
    }

    /** The flags a path carries along say what its steps are. */
    ghost predicate Valid() {
      && Placed() && path.dictionary < |records|
      && (path.containsDerivation <==> exists i: nat :: Derives(Steps(), i))
      && (path.containsSuffixSurface <==> exists i: nat :: Spells(Steps(), i))
    }
  }

  // ----- names

  /** Entry `i` of a table is `name`. */
  ghost predicate Named(table: seq<string>, i: nat, name: string) {
    i < |table| && table[i] == name
  }

  ghost predicate NamedIn(table: seq<string>, i: nat, names: seq<string>) {
    i < |table| && table[i] in names
  }

  /** The binary digit of weight `2^i`. */
  ghost predicate Digit(bits: nat, i: nat) {
    bits / Pow2(i) % 2 == 1
  }

  /** Some entry of the table with the given name has its bit set. */
  ghost predicate Carries(table: seq<string>, name: string, bits: nat) {
    exists i: nat :: Named(table, i, name) && Digit(bits, i)
  }

  ghost predicate CarriesAny(table: seq<string>, names: seq<string>, bits: nat) {
    exists i: nat :: NamedIn(table, i, names) && Digit(bits, i)
  }

  // ----- parts of a path

  /** The morphemes from step `k` on are the listed ones. */
  ghost predicate MorphemesAt(h: seq<PathNode>, k: nat, listed: seq<string>, names: Names) {
    && k + |listed| <= |h|
    && forall i :: 0 <= i < |listed| ==> Named(names.morphemes, h[k + i].morpheme, listed[i])
  }

  /** No derivation begins strictly between two steps. */
  ghost predicate Undivided(h: seq<PathNode>, i: nat, end: nat) {
    forall j :: i < j < end && j < |h| ==> !h[j].derivative
  }

  ghost predicate LastDerivation(h: seq<PathNode>, d: nat) {
    Derives(h, d) && Undivided(h, d, |h|)
  }

  /** Step `i` belongs to the group of steps that ends before `end`; the root belongs to none. */
  ghost predicate InGroup(h: seq<PathNode>, i: nat, end: nat) {
    0 < i < end <= |h| && Undivided(h, i, end)
  }

  /** Every surface is followed by a derivation, at the latest in its own step. */
  ghost predicate QuietSinceDerivation(h: seq<PathNode>) {
    forall i: nat :: Spells(h, i) ==> exists d: nat :: i <= d && Derives(h, d)
  }

  // ----- truth

  /** The truth of a condition. */
  ghost predicate Holds(c: Condition, s: Situation, names: Names)
    requires s.Valid()
  {
    if c.AllOf? then forall k :: k in c.children ==> Holds(k, s, names)
    else if c.AnyOf? then exists k :: k in c.children && Holds(k, s, names)
    else if c.Negation? then !Holds(c.child, s, names)
    else if IsFeature(c) then FeatureHolds(c, s, names)
    else if IsState(c) then StateHolds(c, s, names)
    else MorphemeOrSurfaceHolds(c, s, names)
  }

  ghost predicate FeatureHolds(c: Condition, s: Situation, names: Names)
    requires s.Valid() && IsFeature(c)
  {
    var item := s.records[s.path.dictionary];
    match c
    case HasRootAttribute(a) => Carries(names.roots, a, item.attributes)
    case HasAnyRootAttribute(attributes) => CarriesAny(names.roots, attributes, item.attributes)
    case HasPhoneticAttribute(a) => Carries(names.phonetics, a, s.path.phoneticBits)
    case DictionaryItemIs(id) => Named(names.dictionary, s.path.dictionary, id)
    case RootPrimaryPosIs(pos) => Named(names.primaries, item.primaryPos, pos)
    case SecondaryPosIs(pos) => Named(names.secondaries, item.secondaryPos, pos)
    case DictionaryItemIsAny(items) => exists id :: Some(id) in items && Named(names.dictionary, s.path.dictionary, id)
    case DictionaryItemIsNone(items) => forall id :: Some(id) in items ==> !Named(names.dictionary, s.path.dictionary, id)
    case HasAnySuffixSurface => exists i: nat :: Spells(s.Steps(), i)
    case HasTail => s.hasTail
    case HasNoTail => !s.hasTail
  }

  ghost predicate MorphemeOrSurfaceHolds(c: Condition, s: Situation, names: Names)
    requires s.Valid() && IsLeaf(c) && !IsFeature(c) && !IsState(c)
  {
    var h, ms := s.Steps(), names.morphemes;
    var n := |h|;
    match c
    case HasTailSequence(listed) => |listed| <= n && MorphemesAt(h, n - |listed|, listed, names)
    case ContainsMorphemeSequence(listed) => listed != [] && exists k: nat :: MorphemesAt(h, k, listed, names)
    case CurrentMorphemeIs(m) => Named(ms, h[n - 1].morpheme, m)
    case PreviousMorphemeIs(m) => n >= 2 && Named(ms, h[n - 2].morpheme, m)
    case RootSurfaceIs(surface) => Named(names.strings, s.path.stemSurface, surface)
    case RootSurfaceIsAny(surfaces) => NamedIn(names.strings, s.path.stemSurface, surfaces)
    case PreviousGroupContainsMorpheme(listed) =>
      exists i: nat, d: nat :: LastDerivation(h, d) && InGroup(h, i, d) && NamedIn(ms, h[i].morpheme, listed)
    case NoSurfaceAfterDerivation => QuietSinceDerivation(h)
    case ContainsMorpheme(listed) => exists i: nat :: i < n && NamedIn(ms, h[i].morpheme, listed)
    case PreviousMorphemeIsAny(listed) => n >= 2 && NamedIn(ms, h[n - 2].morpheme, listed)
    case CurrentMorphemeIsAny(listed) => NamedIn(ms, h[n - 1].morpheme, listed)
  }

  ghost predicate StateHolds(c: Condition, s: Situation, names: Names)
    requires s.Valid() && IsState(c)
  {
    var h, states := s.Steps(), names.states;
    var n := |h|;
    match c
    case PreviousStateIs(name) => n >= 2 && Named(states, h[n - 2].state, name)
    case PreviousStateIsNot(name) => n >= 2 ==> !Named(states, h[n - 2].state, name)
    case CurrentStateIs(name) => Named(states, h[n - 1].state, name)
    case CurrentStateIsNot(name) => !Named(states, h[n - 1].state, name)
    case LastDerivationIs(name) => exists d: nat :: LastDerivation(h, d) && Named(states, h[d].state, name)
    case HasDerivation => exists i: nat :: Derives(h, i)
    case LastDerivationIsAny(listed) => exists d: nat :: LastDerivation(h, d) && NamedIn(states, h[d].state, listed)
    case CurrentGroupContainsAny(listed) => exists i: nat :: InGroup(h, i, n) && NamedIn(states, h[i].state, listed)
    case PreviousGroupContains(listed) =>
      exists i: nat, d: nat :: LastDerivation(h, d) && InGroup(h, i, d) && NamedIn(states, h[i].state, listed)
    case PreviousStateIsAny(listed) => n >= 2 && NamedIn(states, h[n - 2].state, listed)
  }

  /** Every conjunction and disjunction has at least two members. */
  predicate Combines(c: Condition) {
    if c.AllOf? then |c.children| >= 2 && forall k :: k in c.children ==> Combines(k)
    else if c.AnyOf? then |c.children| >= 2 && forall k :: k in c.children ==> Combines(k)
    else if c.Negation? then Combines(c.child)
    else true
  }

  // ----- every path of a search can be judged

  /** A path of one step: a stem in its first state. */
  function Start(records: seq<DictionaryItem>, arena: seq<PathNode>, state: nat, morpheme: nat, surface: string, derivative: bool,
                 dictionary: nat, stemSurface: nat, phoneticBits: nat, hasTail: bool): Situation
  {
    Situation(records, arena + [PathNode(None, state, morpheme, surface, derivative, 1)],
              SearchPath(|arena|, dictionary, stemSurface, phoneticBits, false, false), hasTail)
  }

  /** The path one edge further. */
  function Extend(s: Situation, arena: seq<PathNode>, state: nat, morpheme: nat, surface: string, derivative: bool,
                  phoneticBits: nat, hasTail: bool): Situation
    requires s.path.node < |arena|
  {
    Situation(s.records,
              arena + [PathNode(Some(s.path.node), state, morpheme, surface, derivative, arena[s.path.node].depth + 1)],
              SearchPath(|arena|, s.path.dictionary, s.path.stemSurface, phoneticBits,
                         s.path.containsDerivation || derivative, s.path.containsSuffixSurface || surface != ""), hasTail)
  }

  /** A path keeps its steps when other paths are added to the arena. */
  lemma {:induction false} HistoryIsStable(arena: seq<PathNode>, longer: seq<PathNode>, node: nat)
    requires Rooted(arena) && Rooted(longer) && arena <= longer && node < |arena|
    ensures History(longer, node) == History(arena, node)
    decreases node
  {
    assert longer[node] == arena[node];
    if arena[node].parent.Some? {
      HistoryIsStable(arena, longer, arena[node].parent.value);
    }
  }

  lemma StartIsValid(records: seq<DictionaryItem>, arena: seq<PathNode>, state: nat, morpheme: nat, surface: string, derivative: bool,
                     dictionary: nat, stemSurface: nat, phoneticBits: nat, hasTail: bool)
    requires Rooted(arena) && dictionary < |records|
    ensures Start(records, arena, state, morpheme, surface, derivative, dictionary, stemSurface, phoneticBits, hasTail).Valid()
  {
  }

  /** Following an edge appends one step to the path, and the flags stay true; `arena` may hold paths found meanwhile. */
  lemma ExtendIsValid(s: Situation, arena: seq<PathNode>, state: nat, morpheme: nat, surface: string, derivative: bool,
                      phoneticBits: nat, hasTail: bool)
    requires s.Valid() && Rooted(arena) && s.arena <= arena
    ensures var t := Extend(s, arena, state, morpheme, surface, derivative, phoneticBits, hasTail);
            t.Valid() && t.Steps() == s.Steps() + [t.arena[|arena|]]
  {
    var t := Extend(s, arena, state, morpheme, surface, derivative, phoneticBits, hasTail);
    HistoryIsStable(s.arena, arena, s.path.node);
    assert Rooted(t.arena);
    HistoryIsStable(arena, t.arena, s.path.node);
    var h, n := s.Steps(), |s.Steps()|;
    assert t.Steps() == h + [t.arena[|arena|]];
    forall i: nat
      ensures Derives(t.Steps(), i) <==> Derives(h, i) || (i == n && derivative)
      ensures Spells(t.Steps(), i) <==> Spells(h, i) || (i == n && surface != "")
    {
    }
    assert Derives(t.Steps(), n) <==> derivative;
    assert Spells(t.Steps(), n) <==> surface != "";
  }
}
