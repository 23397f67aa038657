/** The Viterbi decoder over one dense slot per pair of candidates, which gives up on any tie. */
module DenseDecoder {
  import opened Common
  import opened Lattices
  import opened TransitionCache
  import opened CachedScoring
  import opened ActiveTable
  import opened Viterbi
  import opened HashDecoder

  const MAX_DENSE_STATES: nat := 4096

  datatype Fallback = DuplicateIdentity | StateSpace | Tie
  datatype DenseOutcome = Selected(selection: seq<nat>) | FallBack(reason: Fallback)

  function CurrentCount(lattice: Lattice, t: nat): int
    requires t + 1 < |lattice.starts|
  {
    lattice.starts[t + 1] as int - lattice.starts[t]
  }

  /** The slot of a pair of candidates: row by the previous word, column by the current one. */
  function SlotOf(lattice: Lattice, t: nat, previous: int, current: int): int
    requires t + 1 < |lattice.starts|
  {
    (previous - PreviousStart(lattice, t)) * CurrentCount(lattice, t) + (current - lattice.starts[t])
  }

  ghost predicate InLayer(lattice: Lattice, t: nat, previous: nat, current: nat)
    requires t + 1 < |lattice.starts|
  {
    EndsAt(lattice, t, previous) && lattice.InToken(t, current)
  }

  lemma SlotInRange(lattice: Lattice, t: nat, previous: nat, current: nat)
    requires t + 1 < |lattice.starts| && InLayer(lattice, t, previous, current)
    ensures 0 <= SlotOf(lattice, t, previous, current) < PreviousCount(lattice, t) * CurrentCount(lattice, t)
  {
    RowMajorRange(previous - PreviousStart(lattice, t), PreviousCount(lattice, t), current - lattice.starts[t], CurrentCount(lattice, t));
  }

  /** Different pairs have different slots. */
  lemma SlotIsInjective(lattice: Lattice, t: nat, p: nat, c: nat, p': nat, c': nat)
    requires t + 1 < |lattice.starts| && InLayer(lattice, t, p, c) && InLayer(lattice, t, p', c')
    requires SlotOf(lattice, t, p, c) == SlotOf(lattice, t, p', c')
    ensures p == p' && c == c'
  {
    RowMajorInjective(p - PreviousStart(lattice, t), c - lattice.starts[t], p' - PreviousStart(lattice, t), c' - lattice.starts[t],
                      CurrentCount(lattice, t));
  }

  // ----- strict domination

  /** `e` ends in the very state of `path`, and either is that path or scores strictly more. */
  ghost predicate Settles(lattice: Lattice, hypotheses: seq<Hypothesis>, e: nat, path: seq<nat>)
    requires lattice.Valid() && WellFounded(hypotheses) && lattice.IsPath(path)
  {
    && e < |hypotheses|
    && hypotheses[e].previous == At(path, |path| - 2) && hypotheses[e].current == At(path, |path| - 1)
    && (PathOf(hypotheses, e) == path || hypotheses[e].score > PrefixScore(lattice, path))
  }

  /** After `t` tokens: the hypotheses from `base` on stand for paths, and settle every path. */
  ghost predicate DenseLayer(lattice: Lattice, hypotheses: seq<Hypothesis>, base: nat, t: nat)
    requires lattice.Valid()
  {
    && WellFounded(hypotheses) && base <= |hypotheses|
    && (forall i :: base <= i < |hypotheses| ==> Represents(lattice, hypotheses, i, t))
    && (forall path :: lattice.IsPath(path) && |path| == t ==> exists e :: base <= e && Settles(lattice, hypotheses, e, path))
  }

  /** The slot of the extension of `i` by `a` holds that extension, or something strictly better. */
  ghost predicate StrictlyCovered(lattice: Lattice, before: seq<Hypothesis>, after: seq<Hypothesis>, base: nat, i: nat, a: nat)
    requires lattice.Valid()
  {
    && i < |before| && InRange(lattice, before[i]) && a < |lattice.words|
    && exists e :: base <= e && Beats(lattice, before, after, e, i, a)
  }

  ghost predicate Beats(lattice: Lattice, before: seq<Hypothesis>, after: seq<Hypothesis>, e: nat, i: nat, a: nat)
    requires lattice.Valid() && i < |before| && InRange(lattice, before[i]) && a < |lattice.words|
  {
    && e < |after| && after[e].previous == before[i].current && after[e].current == a
    && var extended := before[i].score + lattice.Score(before[i].previous, before[i].current, a);
       (after[e].backpointer == Some(i) && after[e].score == extended) || after[e].score > extended
  }

  lemma LongerPathSettled(lattice: Lattice, before: seq<Hypothesis>, after: seq<Hypothesis>, t: nat, path: seq<nat>, a: nat, i: nat, e: nat)
    requires lattice.Valid() && |path| == t < lattice.Tokens() && lattice.IsPath(path) && lattice.InToken(t, a) && a < |lattice.words|
    requires WellFounded(before) && WellFounded(after) && SameLinks(before, after)
    requires Represents(lattice, before, i, t) && Settles(lattice, before, i, path) && InRange(lattice, before[i]) && Beats(lattice, before, after, e, i, a)
    ensures lattice.IsPath(path + [a]) && Settles(lattice, after, e, path + [a])
  {
    hide PrefixScore, SameLinks, WellFounded, Lattice.IsPath;
    PathStep(lattice, path, a);
    if after[e].backpointer == Some(i) {
      LinkedPath(after, e, i);
      PathUnchanged(before, after, i);
    }
    var b := before[i];
    assert b.previous == At(path, t - 2) && b.current == At(path, t - 1);
    assert PrefixScore(lattice, path + [a]) == PrefixScore(lattice, path) + lattice.Score(b.previous, b.current, a);
    assert after[e].previous == At(path + [a], t - 1) && after[e].current == At(path + [a], t);
  }

  lemma LinkedPath(hypotheses: seq<Hypothesis>, e: nat, i: nat)
    requires WellFounded(hypotheses) && e < |hypotheses| && hypotheses[e].backpointer == Some(i)
    ensures i < e && PathOf(hypotheses, e) == PathOf(hypotheses, i) + [hypotheses[e].current]
  {
  }

  // ----- ties

  /** Two different paths that end in the same two words with the same score. */
  ghost predicate TiedPrefixes(lattice: Lattice, left: seq<nat>, right: seq<nat>)
    requires lattice.Valid()
  {
    && lattice.IsPath(left) && lattice.IsPath(right) && left != right && |left| == |right|
    && At(left, |left| - 2) == At(right, |right| - 2) && At(left, |left| - 1) == At(right, |right| - 1)
    && PrefixScore(lattice, left) == PrefixScore(lattice, right)
  }

  /** Two different complete paths with the same total score. */
  ghost predicate TiedTotals(lattice: Lattice, left: seq<nat>, right: seq<nat>)
    requires lattice.Valid()
  {
    && lattice.IsPath(left) && lattice.IsPath(right) && left != right && |left| == |right| == lattice.Tokens()
    && PathScore(lattice, left) == PathScore(lattice, right)
  }

  ghost predicate HasTie(lattice: Lattice)
    requires lattice.Valid()
  {
    exists left, right :: TiedPrefixes(lattice, left, right) || TiedTotals(lattice, left, right)
  }

  /** No two hypotheses from `base` on end in the same pair of words. */
  ghost predicate DistinctStates(hypotheses: seq<Hypothesis>, base: nat) {
    forall i, j :: base <= i < j < |hypotheses| ==>
      hypotheses[i].previous != hypotheses[j].previous || hypotheses[i].current != hypotheses[j].current
  }

  lemma PathsDiffer(lattice: Lattice, hypotheses: seq<Hypothesis>, base: nat, i: nat, j: nat, t: nat)
    requires lattice.Valid() && WellFounded(hypotheses) && DistinctStates(hypotheses, base)
    requires base <= i < |hypotheses| && base <= j < |hypotheses| && i != j
    requires Represents(lattice, hypotheses, i, t) && Represents(lattice, hypotheses, j, t)
    ensures PathOf(hypotheses, i) != PathOf(hypotheses, j)
  {
  }

  /** Equal scores of two extensions by one candidate are a tie of two paths. */
  lemma SlotTie(lattice: Lattice, before: seq<Hypothesis>, base: nat, t: nat, i: nat, j: nat, a: nat)
    requires lattice.Valid() && t < lattice.Tokens() && lattice.InToken(t, a) && a < |lattice.words|
    requires WellFounded(before) && DistinctStates(before, base)
    requires base <= i < |before| && base <= j < |before| && i != j
    requires Represents(lattice, before, i, t) && Represents(lattice, before, j, t)
    requires InRange(lattice, before[i]) && InRange(lattice, before[j]) && before[i].current == before[j].current
    requires before[i].score + lattice.Score(before[i].previous, before[i].current, a)
             == before[j].score + lattice.Score(before[j].previous, before[j].current, a)
    ensures HasTie(lattice)
  {
    hide WellFounded, DistinctStates, PrefixScore, Lattice.IsPath;
    PathsDiffer(lattice, before, base, i, j, t);
    var left, right := PathOf(before, i), PathOf(before, j);
    PathStep(lattice, left, a);
    PathStep(lattice, right, a);
    assert (left + [a])[..t] == left && (right + [a])[..t] == right;
    assert TiedPrefixes(lattice, left + [a], right + [a]);
  }

  /** Equal final scores are a tie of two complete paths. */
  lemma FinalTie(lattice: Lattice, hypotheses: seq<Hypothesis>, base: nat, i: nat, j: nat)
    requires lattice.Valid() && DenseLayer(lattice, hypotheses, base, lattice.Tokens()) && DistinctStates(hypotheses, base)
    requires base <= i < j < |hypotheses| && InRange(lattice, hypotheses[i]) && InRange(lattice, hypotheses[j])
    requires FinalScore(lattice, hypotheses[i]) == FinalScore(lattice, hypotheses[j])
    ensures HasTie(lattice)
  {
    hide WellFounded, DistinctStates, Settles, Represents, PathScore, FinalScore;
    assert Represents(lattice, hypotheses, i, lattice.Tokens()) && Represents(lattice, hypotheses, j, lattice.Tokens());
    PathsDiffer(lattice, hypotheses, base, i, j, lattice.Tokens());
    BestPathScore(lattice, hypotheses, i);
    BestPathScore(lattice, hypotheses, j);
    assert TiedTotals(lattice, PathOf(hypotheses, i), PathOf(hypotheses, j));
  }

  // ----- one layer

  /** The dense slots index exactly the hypotheses from `base` on, each by its own state. */
  ghost predicate Slotted(lattice: Lattice, t: nat, slots: seq<Option<nat>>, hypotheses: seq<Hypothesis>, base: nat)
    requires t + 1 < |lattice.starts|
  {
    && |slots| == PreviousCount(lattice, t) * CurrentCount(lattice, t)
    && (forall e :: base <= e < |hypotheses| ==> InLayer(lattice, t, hypotheses[e].previous, hypotheses[e].current))
    && (forall e :: base <= e < |hypotheses| ==> SlotHolds(lattice, t, slots, hypotheses[e], e))
    && (forall s :: 0 <= s < |slots| && slots[s].Some? ==>
          base <= slots[s].value < |hypotheses| &&
          SlotOf(lattice, t, hypotheses[slots[s].value].previous, hypotheses[slots[s].value].current) == s)
  }

  ghost predicate SlotHolds(lattice: Lattice, t: nat, slots: seq<Option<nat>>, h: Hypothesis, e: nat)
    requires t + 1 < |lattice.starts|
  {
    var slot := SlotOf(lattice, t, h.previous, h.current);
    0 <= slot < |slots| && slots[slot] == Some(e)
  }

  lemma SlottedIsDistinct(lattice: Lattice, t: nat, slots: seq<Option<nat>>, hypotheses: seq<Hypothesis>, base: nat)
    requires t + 1 < |lattice.starts| && Slotted(lattice, t, slots, hypotheses, base)
    ensures DistinctStates(hypotheses, base)
  {
    hide SlotOf, InLayer;
    forall i, j | base <= i < j < |hypotheses|
      ensures hypotheses[i].previous != hypotheses[j].previous || hypotheses[i].current != hypotheses[j].current
    {
      assert SlotHolds(lattice, t, slots, hypotheses[i], i) && SlotHolds(lattice, t, slots, hypotheses[j], j);
    }
  }

  /** So far only candidates before `a`, and `a` after hypotheses before `i`, have been placed. */
  ghost predicate PlacedUpTo(hypotheses: seq<Hypothesis>, base: nat, a: nat, i: nat) {
    forall e :: base <= e < |hypotheses| ==>
      hypotheses[e].current < a
      || (hypotheses[e].current == a && hypotheses[e].backpointer.Some? && hypotheses[e].backpointer.value < i)
  }

  /** The state of a dense layer in progress. */
  ghost predicate Filling(lattice: Lattice, workspace: Workspace, before: seq<Hypothesis>, previousBase: nat,
                          hypotheses: seq<Hypothesis>, slots: seq<Option<nat>>, t: nat)
    reads Footprint(workspace)
    requires lattice.Valid() && t < lattice.Tokens()
  {
    && Ready(lattice, workspace) && AllFit(lattice, Owners(workspace), hypotheses)
    && |before| <= |hypotheses| && hypotheses[..|before|] == before
    && (forall e :: |before| <= e < |hypotheses| ==> ExtendsFrom(lattice, before, previousBase, t, hypotheses[e]))
    && Slotted(lattice, t, slots, hypotheses, |before|)
  }

  /** `h` extends a hypothesis of the previous dense layer. */
  ghost predicate ExtendsFrom(lattice: Lattice, before: seq<Hypothesis>, previousBase: nat, t: nat, h: Hypothesis)
    requires lattice.Valid() && t < lattice.Tokens()
  {
    ExtendsOne(lattice, before, t, h) && previousBase <= h.backpointer.value
  }

  ghost predicate DenseProgress(lattice: Lattice, before: seq<Hypothesis>, hypotheses: seq<Hypothesis>, after: seq<Hypothesis>)
    requires lattice.Valid()
  {
    forall i: nat, b: nat :: StrictlyCovered(lattice, before, hypotheses, |before|, i, b) ==>
                             StrictlyCovered(lattice, before, after, |before|, i, b)
  }

  /** Puts a candidate into its slot; an equal score there is a tie. */
  method Place(lattice: Lattice, t: nat, slots: seq<Option<nat>>, hypotheses: seq<Hypothesis>, candidate: Hypothesis, ghost base: nat)
    returns (tie: bool, slotsAfter: seq<Option<nat>>, after: seq<Hypothesis>, ghost place: nat)
    requires t + 1 < |lattice.starts| && base <= |hypotheses|
    requires Slotted(lattice, t, slots, hypotheses, base) && InLayer(lattice, t, candidate.previous, candidate.current)
    ensures base <= place <= |hypotheses|
    ensures place < |hypotheses| ==> hypotheses[place].previous == candidate.previous && hypotheses[place].current == candidate.current
    ensures tie <==> place < |hypotheses| && hypotheses[place].score == candidate.score
    ensures !tie ==> Slotted(lattice, t, slotsAfter, after, base)
    ensures !tie ==> after == if place == |hypotheses| then hypotheses + [candidate]
                              else if hypotheses[place].score < candidate.score then hypotheses[place := candidate] else hypotheses
  {
    SlotInRange(lattice, t, candidate.previous, candidate.current);
    var slot := SlotOf(lattice, t, candidate.previous, candidate.current);
    tie, slotsAfter, after := false, slots, hypotheses;
    if slots[slot].None? {
      place := |hypotheses|;
      after := hypotheses + [candidate];
      slotsAfter := slots[slot := Some(|hypotheses|)];
      return;
    }
    var existing := slots[slot].value;
    place := existing;
    SlotIsInjective(lattice, t, hypotheses[existing].previous, hypotheses[existing].current, candidate.previous, candidate.current);
    if hypotheses[existing].score == candidate.score {
      tie := true;
    } else if hypotheses[existing].score < candidate.score {
      after := hypotheses[existing := candidate];
    }
  }

  lemma PlaceCovers(lattice: Lattice, before: seq<Hypothesis>, hypotheses: seq<Hypothesis>, after: seq<Hypothesis>,
                    candidate: Hypothesis, place: nat, i: nat, a: nat)
    requires lattice.Valid() && i < |before| <= place <= |hypotheses| && InRange(lattice, before[i]) && a < |lattice.words|
    requires candidate.previous == before[i].current && candidate.current == a && candidate.backpointer == Some(i)
    requires candidate.score == before[i].score + lattice.Score(before[i].previous, before[i].current, a)
    requires place < |hypotheses| ==> hypotheses[place].previous == candidate.previous && hypotheses[place].current == candidate.current
                                      && hypotheses[place].score != candidate.score
    requires after == if place == |hypotheses| then hypotheses + [candidate]
                      else if hypotheses[place].score < candidate.score then hypotheses[place := candidate] else hypotheses
    ensures StrictlyCovered(lattice, before, after, |before|, i, a)
    ensures DenseProgress(lattice, before, hypotheses, after)
  {
    assert Beats(lattice, before, after, place, i, a);
    forall j: nat, b: nat | StrictlyCovered(lattice, before, hypotheses, |before|, j, b)
      ensures StrictlyCovered(lattice, before, after, |before|, j, b)
    {
      var e :| |before| <= e && Beats(lattice, before, hypotheses, e, j, b);
      assert Beats(lattice, before, after, e, j, b);
    }
  }

  /** `list` names the hypotheses from `base` up to `end`, in order. */
  ghost predicate Lists(list: seq<nat>, base: nat, end: nat) {
    base <= end && |list| == end - base && forall k :: 0 <= k < |list| ==> list[k] == base + k
  }

  lemma PreviousInLayer(lattice: Lattice, before: seq<Hypothesis>, base: nat, t: nat, i: nat, a: nat)
    requires lattice.Valid() && t < lattice.Tokens() && lattice.InToken(t, a)
    requires WellFounded(before) && base <= i < |before| && Represents(lattice, before, i, t)
    ensures InRange(lattice, before[i]) && InLayer(lattice, t, before[i].current, a) && a < |lattice.words|
    ensures InPairLayer(lattice, t, before[i].current, a)
  {
    var path := PathOf(before, i);
    PathInRange(lattice, path, t - 1);
    PathInRange(lattice, path, t - 2);
    if t > 0 {
      assert lattice.InToken(t - 1, path[t - 1]);
    }
    assert lattice.starts[t + 1] <= lattice.starts[|lattice.starts| - 1];
  }

  lemma PlaceKeeps(lattice: Lattice, owners: seq<nat>, before: seq<Hypothesis>, previousBase: nat, t: nat,
                   hypotheses: seq<Hypothesis>, after: seq<Hypothesis>, candidate: Hypothesis, place: nat)
    requires lattice.Valid() && t < lattice.Tokens() && AllFit(lattice, owners, hypotheses)
    requires |before| <= |hypotheses| && hypotheses[..|before|] == before && |before| <= place <= |hypotheses|
    requires forall e :: |before| <= e < |hypotheses| ==> ExtendsFrom(lattice, before, previousBase, t, hypotheses[e])
    requires ExtendsFrom(lattice, before, previousBase, t, candidate) && InRange(lattice, candidate)
    requires RowFits(lattice, owners, candidate.previous, candidate.current, candidate.row)
    requires after == if place == |hypotheses| then hypotheses + [candidate]
                      else if hypotheses[place].score < candidate.score then hypotheses[place := candidate] else hypotheses
    ensures AllFit(lattice, owners, after) && |after| >= |hypotheses| && after[..|before|] == before
    ensures forall e :: |before| <= e < |after| ==> ExtendsFrom(lattice, before, previousBase, t, after[e])
  {
    hide ExtendsFrom, RowFits;
    assert after[..|before|] == hypotheses[..|before|];
  }

  /** Extends hypothesis `i` of the previous layer by candidate `a`. */
  method FillOne(lattice: Lattice, workspace: Workspace, t: nat, a: nat, i: nat, slots: seq<Option<nat>>, list: seq<nat>,
                 hypotheses: seq<Hypothesis>, ghost before: seq<Hypothesis>, ghost previousBase: nat)
    returns (tie: bool, slotsAfter: seq<Option<nat>>, listAfter: seq<nat>, after: seq<Hypothesis>)
    requires lattice.Valid() && t < lattice.Tokens() && lattice.InToken(t, a)
    requires Filling(lattice, workspace, before, previousBase, hypotheses, slots, t) && Lists(list, |before|, |hypotheses|)
    requires previousBase <= i < |before| && DenseLayer(lattice, before, previousBase, t) && DistinctStates(before, previousBase)
    requires PlacedUpTo(hypotheses, |before|, a, i)
    modifies Footprint(workspace)
    ensures Ready(lattice, workspace)
    ensures tie ==> HasTie(lattice)
    ensures !tie ==> Filling(lattice, workspace, before, previousBase, after, slotsAfter, t) && Lists(listAfter, |before|, |after|)
    ensures !tie ==> StrictlyCovered(lattice, before, after, |before|, i, a) && DenseProgress(lattice, before, hypotheses, after)
    ensures !tie ==> PlacedUpTo(after, |before|, a, i + 1)
  {
    hide Ready, AllFit, RowFits, Represents, WellFounded, Slotted, StrictlyCovered, DenseProgress, InLayer, ExtendsFrom, Owners,
         Settles, DistinctStates, HasTie;
    PreviousInLayer(lattice, before, previousBase, t, i, a);
    assert hypotheses[i] == hypotheses[..|before|][i];
    FitsAt(lattice, Owners(workspace), hypotheses, i);
    var h := hypotheses[i];
    ghost var owners := Owners(workspace);
    var score, row := ScoreTransition(lattice, t, h.previous, h.current, a, h.row, workspace, true);
    AllFitGrows(lattice, owners, Owners(workspace), hypotheses);
    var candidate := Hypothesis(h.current, a, Some(i), row, h.score + score);
    ghost var place;
    tie, slotsAfter, after, place := Place(lattice, t, slots, hypotheses, candidate, |before|);
    listAfter := list;
    if !tie {
      ExtendsFromIntro(lattice, before, previousBase, t, candidate, i);
      PlaceKeeps(lattice, Owners(workspace), before, previousBase, t, hypotheses, after, candidate, place);
      PlaceCovers(lattice, before, hypotheses, after, candidate, place, i, a);
      if |after| > |hypotheses| {
        listAfter := list + [|hypotheses|];
      }
    } else {
      ExtendedTie(lattice, before, previousBase, t, i, hypotheses, place, candidate);
    }
  }

  lemma ExtendedTie(lattice: Lattice, before: seq<Hypothesis>, base: nat, t: nat, i: nat, hypotheses: seq<Hypothesis>, place: nat,
                    candidate: Hypothesis)
    requires lattice.Valid() && t < lattice.Tokens() && DenseLayer(lattice, before, base, t) && DistinctStates(before, base)
    requires |before| <= place < |hypotheses| && ExtendsFrom(lattice, before, base, t, hypotheses[place])
    requires base <= i < |before| && InRange(lattice, before[i]) && lattice.InToken(t, candidate.current)
    requires PlacedUpTo(hypotheses, |before|, candidate.current, i)
    requires hypotheses[place].previous == candidate.previous == before[i].current && hypotheses[place].current == candidate.current
    requires candidate.current < |lattice.words| && hypotheses[place].score == candidate.score
    requires candidate.score == before[i].score + lattice.Score(before[i].previous, before[i].current, candidate.current)
    ensures HasTie(lattice)
  {
    hide WellFounded, Represents, Settles, DistinctStates, HasTie;
    var j := hypotheses[place].backpointer.value;
    assert Represents(lattice, before, i, t) && Represents(lattice, before, j, t);
    SlotTie(lattice, before, base, t, i, j, candidate.current);
  }

  lemma ExtendsFromIntro(lattice: Lattice, before: seq<Hypothesis>, previousBase: nat, t: nat, h: Hypothesis, i: nat)
    requires lattice.Valid() && t < lattice.Tokens() && previousBase <= i < |before| && h.backpointer == Some(i)
    requires lattice.InToken(t, h.current) && h.current < |lattice.words| && InRange(lattice, before[i])
    requires h.previous == before[i].current
    requires h.score == before[i].score + lattice.Score(before[i].previous, before[i].current, h.current)
    ensures ExtendsFrom(lattice, before, previousBase, t, h)
  {
  }

  lemma DenseProgressChains(lattice: Lattice, before: seq<Hypothesis>, h0: seq<Hypothesis>, h1: seq<Hypothesis>, h2: seq<Hypothesis>)
    requires lattice.Valid() && DenseProgress(lattice, before, h0, h1) && DenseProgress(lattice, before, h1, h2)
    ensures DenseProgress(lattice, before, h0, h2)
  {
    hide StrictlyCovered;
  }

  /** Extends every hypothesis of the previous layer by candidate `a`, stopping at a tie. */
  method FillByCandidate(lattice: Lattice, workspace: Workspace, t: nat, a: nat, order: seq<nat>, slots: seq<Option<nat>>,
                         list: seq<nat>, hypotheses: seq<Hypothesis>, ghost before: seq<Hypothesis>, ghost previousBase: nat)
    returns (tie: bool, slotsAfter: seq<Option<nat>>, listAfter: seq<nat>, after: seq<Hypothesis>)
    requires lattice.Valid() && t < lattice.Tokens() && lattice.InToken(t, a)
    requires Filling(lattice, workspace, before, previousBase, hypotheses, slots, t) && Lists(list, |before|, |hypotheses|)
    requires Lists(order, previousBase, |before|) && DenseLayer(lattice, before, previousBase, t)
    requires DistinctStates(before, previousBase) && PlacedUpTo(hypotheses, |before|, a, 0)
    modifies Footprint(workspace)
    ensures Ready(lattice, workspace)
    ensures tie ==> HasTie(lattice)
    ensures !tie ==> PlacedUpTo(after, |before|, a + 1, 0)
    ensures !tie ==> Filling(lattice, workspace, before, previousBase, after, slotsAfter, t) && Lists(listAfter, |before|, |after|)
    ensures !tie ==> DenseProgress(lattice, before, hypotheses, after)
    ensures !tie ==> forall i :: previousBase <= i < |before| ==> StrictlyCovered(lattice, before, after, |before|, i, a)
  {
    hide Ready, Filling, StrictlyCovered, DenseLayer, DistinctStates, HasTie;
    FillingReady(lattice, workspace, before, previousBase, hypotheses, slots, t);
    tie, slotsAfter, listAfter, after := false, slots, list, hypotheses;
    var offset := 0;
    while offset < |order|
      invariant 0 <= offset <= |order|
      invariant Filling(lattice, workspace, before, previousBase, after, slotsAfter, t) && Lists(listAfter, |before|, |after|)
      invariant Ready(lattice, workspace) && DenseProgress(lattice, before, hypotheses, after)
      invariant PlacedUpTo(after, |before|, a, previousBase + offset)
      invariant forall i :: previousBase <= i < previousBase + offset ==> StrictlyCovered(lattice, before, after, |before|, i, a)
    {
      ghost var h1 := after;
      tie, slotsAfter, listAfter, after :=
        FillOne(lattice, workspace, t, a, order[offset], slotsAfter, listAfter, after, before, previousBase);
      if tie {
        return;
      }
      DenseProgressChains(lattice, before, hypotheses, h1, after);
      offset := offset + 1;
    }
  }

  lemma FillingReady(lattice: Lattice, workspace: Workspace, before: seq<Hypothesis>, previousBase: nat,
                     hypotheses: seq<Hypothesis>, slots: seq<Option<nat>>, t: nat)
    requires lattice.Valid() && t < lattice.Tokens() && Filling(lattice, workspace, before, previousBase, hypotheses, slots, t)
    ensures Ready(lattice, workspace)
  {
  }

  /** Processes one token: either a tie, or the next dense layer and the list of its hypotheses. */
  method FillLayer(lattice: Lattice, workspace: Workspace, t: nat, order: seq<nat>, hypotheses: seq<Hypothesis>, ghost base: nat)
    returns (tie: bool, list: seq<nat>, after: seq<Hypothesis>)
    requires lattice.Valid() && t < lattice.Tokens() && Ready(lattice, workspace) && AllFit(lattice, Owners(workspace), hypotheses)
    requires Lists(order, base, |hypotheses|) && DenseLayer(lattice, hypotheses, base, t) && DistinctStates(hypotheses, base)
    modifies Footprint(workspace)
    ensures Ready(lattice, workspace)
    ensures tie ==> HasTie(lattice)
    ensures !tie ==> AllFit(lattice, Owners(workspace), after) && Lists(list, |hypotheses|, |after|)
    ensures !tie ==> DenseLayer(lattice, after, |hypotheses|, t + 1) && DistinctStates(after, |hypotheses|)
  {
    hide Ready, StrictlyCovered, DenseLayer, AllFit, ExtendsFrom, DistinctStates, HasTie;
    var count := CurrentCount(lattice, t);
    LayerShape(lattice, t);
    var slots: seq<Option<nat>> := seq(PreviousCount(lattice, t) * count, _ => None);
    tie, list, after := false, [], hypotheses;
    var analysis := lattice.starts[t];
    while analysis < lattice.starts[t + 1]
      invariant lattice.starts[t] <= analysis <= lattice.starts[t + 1]
      invariant Filling(lattice, workspace, hypotheses, base, after, slots, t) && Lists(list, |hypotheses|, |after|)
      invariant PlacedUpTo(after, |hypotheses|, analysis, 0)
      invariant forall i: nat, a: nat :: base <= i < |hypotheses| && lattice.starts[t] <= a < analysis ==>
                  StrictlyCovered(lattice, hypotheses, after, |hypotheses|, i, a)
    {
      ghost var h1 := after;
      tie, slots, list, after := FillByCandidate(lattice, workspace, t, analysis, order, slots, list, after, hypotheses, base);
      if tie {
        return;
      }
      StrictCoverageGrows(lattice, hypotheses, base, t, analysis, h1, after);
      analysis := analysis + 1;
    }
    DenseLayerAdvances(lattice, hypotheses, base, after, t);
    SlottedIsDistinct(lattice, t, slots, after, |hypotheses|);
  }

  lemma LayerShape(lattice: Lattice, t: nat)
    requires lattice.Valid() && t < lattice.Tokens()
    ensures PreviousCount(lattice, t) > 0 && CurrentCount(lattice, t) > 0
    ensures PreviousCount(lattice, t) * CurrentCount(lattice, t) > 0
  {
  }

  lemma StrictCoverageGrows(lattice: Lattice, before: seq<Hypothesis>, base: nat, t: nat, analysis: nat,
                            h1: seq<Hypothesis>, h2: seq<Hypothesis>)
    requires lattice.Valid() && t < lattice.Tokens() && DenseProgress(lattice, before, h1, h2)
    requires forall i: nat, a: nat :: base <= i < |before| && lattice.starts[t] <= a < analysis ==>
               StrictlyCovered(lattice, before, h1, |before|, i, a)
    requires forall i: nat :: base <= i < |before| ==> StrictlyCovered(lattice, before, h2, |before|, i, analysis)
    ensures forall i: nat, a: nat :: base <= i < |before| && lattice.starts[t] <= a < analysis + 1 ==>
              StrictlyCovered(lattice, before, h2, |before|, i, a)
  {
    hide StrictlyCovered;
    forall i: nat, a: nat | base <= i < |before| && lattice.starts[t] <= a < analysis + 1
      ensures StrictlyCovered(lattice, before, h2, |before|, i, a)
    {
      if a < analysis {
        assert StrictlyCovered(lattice, before, h1, |before|, i, a);
      }
    }
  }

  lemma LinksKept(lattice: Lattice, before: seq<Hypothesis>, base: nat, after: seq<Hypothesis>, t: nat)
    requires lattice.Valid() && t < lattice.Tokens() && WellFounded(before)
    requires |before| <= |after| && after[..|before|] == before
    requires forall e :: |before| <= e < |after| ==> ExtendsFrom(lattice, before, base, t, after[e])
    ensures WellFounded(after) && SameLinks(before, after)
    ensures forall e :: |before| <= e < |after| ==>
              after[e].backpointer.Some? && base <= after[e].backpointer.value < |before|
  {
    assert forall i :: 0 <= i < |before| ==> after[i] == after[..|before|][i];
    assert forall e :: |before| <= e < |after| ==> ExtendsFrom(lattice, before, base, t, after[e]);
  }

  lemma BackpointsInto(lattice: Lattice, before: seq<Hypothesis>, base: nat, after: seq<Hypothesis>, t: nat, e: nat)
    requires lattice.Valid() && t < lattice.Tokens() && e < |after| && ExtendsFrom(lattice, before, base, t, after[e])
    ensures ExtendsOne(lattice, before, t, after[e]) && base <= after[e].backpointer.value < |before|
  {
  }

  lemma DenseLayerAdvances(lattice: Lattice, before: seq<Hypothesis>, base: nat, after: seq<Hypothesis>, t: nat)
    requires lattice.Valid() && t < lattice.Tokens() && DenseLayer(lattice, before, base, t)
    requires |before| <= |after| && after[..|before|] == before
    requires forall e :: |before| <= e < |after| ==> ExtendsFrom(lattice, before, base, t, after[e])
    requires forall i: nat, a: nat :: base <= i < |before| && lattice.starts[t] <= a < lattice.starts[t + 1] ==>
               StrictlyCovered(lattice, before, after, |before|, i, a)
    ensures DenseLayer(lattice, after, |before|, t + 1)
  {
    hide ExtendsFrom, StrictlyCovered, Settles, Represents, WellFounded, SameLinks;
    LinksKept(lattice, before, base, after, t);
    var next := t + 1;
    forall e | |before| <= e < |after|
      ensures Represents(lattice, after, e, next)
    {
      BackpointsInto(lattice, before, base, after, t, e);
      ExtensionRepresents(lattice, before, after, t, e);
    }
    forall path | lattice.IsPath(path) && |path| == t + 1
      ensures exists e :: |before| <= e && Settles(lattice, after, e, path)
    {
      var shorter, a := path[..t], path[t];
      assert lattice.IsPath(shorter) && lattice.InToken(t, a) && shorter + [a] == path;
      var i :| base <= i && Settles(lattice, before, i, shorter);
      PathSettledNext(lattice, before, base, after, t, shorter, a, i);
    }
  }

  lemma PathSettledNext(lattice: Lattice, before: seq<Hypothesis>, base: nat, after: seq<Hypothesis>, t: nat, path: seq<nat>, a: nat, i: nat)
    requires lattice.Valid() && |path| == t < lattice.Tokens() && lattice.IsPath(path) && lattice.InToken(t, a)
    requires WellFounded(before) && WellFounded(after) && SameLinks(before, after)
    requires base <= i && Settles(lattice, before, i, path)
    requires forall j :: base <= j < |before| ==> Represents(lattice, before, j, t)
    requires forall j: nat, b: nat :: base <= j < |before| && lattice.starts[t] <= b < lattice.starts[t + 1] ==>
               StrictlyCovered(lattice, before, after, |before|, j, b)
    ensures lattice.IsPath(path + [a]) && exists e :: |before| <= e && Settles(lattice, after, e, path + [a])
  {
    hide WellFounded, SameLinks, PrefixScore, Represents, Lattice.IsPath, Beats;
    assert i < |before| && Represents(lattice, before, i, t);
    assert StrictlyCovered(lattice, before, after, |before|, i, a);
    var e :| |before| <= e && Beats(lattice, before, after, e, i, a);
    LongerPathSettled(lattice, before, after, t, path, a, i, e);
  }

  // ----- the end of the sentence

  /** `finished` is `hypotheses` with the end transition added from `base` up to `end`. */
  ghost predicate EndAddedUpTo(lattice: Lattice, hypotheses: seq<Hypothesis>, base: nat, end: nat, finished: seq<Hypothesis>)
    requires lattice.Valid()
  {
    && |finished| == |hypotheses| && base <= end <= |hypotheses|
    && forall i :: 0 <= i < |hypotheses| && InRange(lattice, hypotheses[i]) ==>
         finished[i] == if base <= i < end then hypotheses[i].(score := FinalScore(lattice, hypotheses[i])) else hypotheses[i]
  }

  /** `best` alone has the highest final score from `base` up to `end`. */
  ghost predicate StrictBest(lattice: Lattice, hypotheses: seq<Hypothesis>, base: nat, end: nat, best: nat)
    requires lattice.Valid()
  {
    && base <= best < end <= |hypotheses| && InRange(lattice, hypotheses[best])
    && forall i :: base <= i < end && i != best && InRange(lattice, hypotheses[i]) ==>
         FinalScore(lattice, hypotheses[i]) < FinalScore(lattice, hypotheses[best])
  }

  /** Adds the end transitions and keeps the best hypothesis so far, stopping when a later one equals it. */
  method PickStrictBest(lattice: Lattice, workspace: Workspace, list: seq<nat>, hypotheses: seq<Hypothesis>, ghost base: nat)
    returns (tie: bool, best: Option<nat>, finished: seq<Hypothesis>)
    requires lattice.Valid() && Ready(lattice, workspace) && AllFit(lattice, Owners(workspace), hypotheses)
    requires Lists(list, base, |hypotheses|) && DenseLayer(lattice, hypotheses, base, lattice.Tokens()) && DistinctStates(hypotheses, base)
    modifies Footprint(workspace)
    ensures Ready(lattice, workspace)
    ensures tie ==> HasTie(lattice)
    ensures !tie ==> EndAddedUpTo(lattice, hypotheses, base, |hypotheses|, finished)
    ensures !tie ==> if list == [] then best.None? else best.Some? && StrictBest(lattice, hypotheses, base, |hypotheses|, best.value)
  {
    hide Ready, AllFit, RowFits, Owners, DenseLayer, DistinctStates, HasTie;
    tie, best, finished := false, None, hypotheses;
    var k := 0;
    while k < |list|
      invariant 0 <= k <= |list|
      invariant Ready(lattice, workspace) && AllFit(lattice, Owners(workspace), hypotheses)
      invariant EndAddedUpTo(lattice, hypotheses, base, base + k, finished)
      invariant if k == 0 then best.None? else best.Some? && StrictBest(lattice, hypotheses, base, base + k, best.value)
    {
      var i := list[k];
      FitsAt(lattice, Owners(workspace), hypotheses, i);
      LastEnds(lattice, hypotheses, base, i);
      var h := finished[i];
      ghost var owners := Owners(workspace);
      var score, _ := ScoreTransition(lattice, lattice.Tokens(), h.previous, h.current, 1, h.row, workspace, true);
      AllFitGrows(lattice, owners, Owners(workspace), hypotheses);
      finished := finished[i := h.(score := h.score + score)];
      if best.Some? {
        if finished[best.value].score == finished[i].score {
          FinalTie(lattice, hypotheses, base, best.value, i);
          return true, None, finished;
        }
        if finished[best.value].score < finished[i].score {
          best := Some(i);
        }
      } else {
        best := Some(i);
      }
      k := k + 1;
    }
  }

  lemma LastEnds(lattice: Lattice, hypotheses: seq<Hypothesis>, base: nat, i: nat)
    requires lattice.Valid() && DenseLayer(lattice, hypotheses, base, lattice.Tokens()) && base <= i < |hypotheses|
    ensures InPairLayer(lattice, lattice.Tokens(), hypotheses[i].current, 1)
  {
    hide Represents, Settles, WellFounded;
    RepresentsEnds(lattice, hypotheses, i, lattice.Tokens());
  }

  /** The selection whose score no other selection reaches. */
  ghost predicate UniquelyOptimal(lattice: Lattice, selected: seq<nat>)
    requires lattice.Valid()
  {
    IsSelection(lattice, selected) &&
    forall other :: IsSelection(lattice, other) && other != selected ==>
      SelectionScore(lattice, other) < SelectionScore(lattice, selected)
  }

  lemma SettledPathScore(lattice: Lattice, hypotheses: seq<Hypothesis>, e: nat, path: seq<nat>)
    requires lattice.Valid() && lattice.IsPath(path) && |path| == lattice.Tokens() && e < |hypotheses|
    requires WellFounded(hypotheses) && Represents(lattice, hypotheses, e, lattice.Tokens()) && Settles(lattice, hypotheses, e, path)
    requires InRange(lattice, hypotheses[e])
    ensures PathScore(lattice, path) <= FinalScore(lattice, hypotheses[e])
    ensures PathOf(hypotheses, e) != path ==> PathScore(lattice, path) < FinalScore(lattice, hypotheses[e])
  {
    hide WellFounded, PrefixScore, Lattice.IsPath;
    PathInRange(lattice, path, |path| - 1);
    PathInRange(lattice, path, |path| - 2);
  }

  lemma StrictBestPath(lattice: Lattice, hypotheses: seq<Hypothesis>, base: nat, best: nat)
    requires lattice.Valid() && DenseLayer(lattice, hypotheses, base, lattice.Tokens())
    requires StrictBest(lattice, hypotheses, base, |hypotheses|, best)
    requires forall i :: 0 <= i < |hypotheses| ==> InRange(lattice, hypotheses[i])
    ensures Represents(lattice, hypotheses, best, lattice.Tokens())
    ensures forall path :: lattice.IsPath(path) && |path| == lattice.Tokens() && path != PathOf(hypotheses, best) ==>
              PathScore(lattice, path) < PathScore(lattice, PathOf(hypotheses, best))
  {
    hide WellFounded, PrefixScore, Settles, PathScore, FinalScore, Represents;
    var n := lattice.Tokens();
    assert Represents(lattice, hypotheses, best, n);
    BestPathScore(lattice, hypotheses, best);
    forall path | lattice.IsPath(path) && |path| == n && path != PathOf(hypotheses, best)
      ensures PathScore(lattice, path) < FinalScore(lattice, hypotheses[best])
    {
      var e :| base <= e && Settles(lattice, hypotheses, e, path);
      assert e < |hypotheses| by { SettlesInRange(lattice, hypotheses, e, path); }
      assert Represents(lattice, hypotheses, e, n);
      SettledPathScore(lattice, hypotheses, e, path);
    }
  }

  lemma SettlesInRange(lattice: Lattice, hypotheses: seq<Hypothesis>, e: nat, path: seq<nat>)
    requires lattice.Valid() && WellFounded(hypotheses) && lattice.IsPath(path) && Settles(lattice, hypotheses, e, path)
    ensures e < |hypotheses|
  {
  }

  lemma BestPathScore(lattice: Lattice, hypotheses: seq<Hypothesis>, best: nat)
    requires lattice.Valid() && WellFounded(hypotheses) && Represents(lattice, hypotheses, best, lattice.Tokens())
    requires InRange(lattice, hypotheses[best])
    ensures lattice.IsPath(PathOf(hypotheses, best)) && |PathOf(hypotheses, best)| == lattice.Tokens()
    ensures PathScore(lattice, PathOf(hypotheses, best)) == FinalScore(lattice, hypotheses[best])
  {
    hide WellFounded;
    FinishedPath(lattice, PathOf(hypotheses, best), hypotheses[best]);
  }

  /** A selection that is uniquely optimal is the only optimal one. */
  lemma UniqueOptimum(lattice: Lattice, unique: seq<nat>, optimal: seq<nat>)
    requires lattice.Valid() && UniquelyOptimal(lattice, unique) && Optimal(lattice, optimal)
    ensures unique == optimal
  {
    hide SelectionScore;
    assert SelectionScore(lattice, unique) <= SelectionScore(lattice, optimal);
  }

  lemma DifferentPaths(lattice: Lattice, a: seq<nat>, b: seq<nat>)
    requires |a| == |b| < |lattice.starts|
    ensures a != b ==> GlobalPath(lattice, a) != GlobalPath(lattice, b)
  {
    var pa, pb := GlobalPath(lattice, a), GlobalPath(lattice, b);
    assert forall t :: 0 <= t < |a| ==> pa[t] == lattice.starts[t] + a[t] && pb[t] == lattice.starts[t] + b[t];
  }

  lemma UniqueSelection(lattice: Lattice, selected: seq<nat>)
    requires lattice.Valid() && IsSelection(lattice, selected)
    requires forall path :: lattice.IsPath(path) && |path| == lattice.Tokens() && path != GlobalPath(lattice, selected) ==>
               PathScore(lattice, path) < PathScore(lattice, GlobalPath(lattice, selected))
    ensures UniquelyOptimal(lattice, selected)
  {
    hide PathScore;
    forall other | IsSelection(lattice, other) && other != selected
      ensures SelectionScore(lattice, other) < SelectionScore(lattice, selected)
    {
      assert lattice.IsPath(GlobalPath(lattice, other));
      DifferentPaths(lattice, other, selected);
    }
  }

  // ----- the decoder

  /** Two of the candidates from `start` up to `end` would be merged by the hash table. */
  ghost predicate Repeats(codes: seq<ScoringCode>, start: nat, end: nat) {
    exists left, right :: start <= left < right < end && right < |codes|
      && codes[left].canonical == codes[right].canonical && codes[left].javaHash == codes[right].javaHash
  }

  ghost predicate HasDuplicate(lattice: Lattice)
    requires lattice.Valid() && lattice.codes.Some?
  {
    exists t :: 0 <= t < lattice.Tokens() && Repeats(lattice.codes.value, lattice.starts[t], lattice.starts[t + 1])
  }

  function StateCount(lattice: Lattice, t: nat): int
    requires t + 1 < |lattice.starts|
  {
    PreviousCount(lattice, t) * CurrentCount(lattice, t)
  }

  ghost predicate TooManyStates(lattice: Lattice)
    requires lattice.Valid()
  {
    exists t :: 0 <= t < lattice.Tokens() && StateCount(lattice, t) > 4096
  }

  /** Looks for a reason not to decode densely, token by token. */
  method CheckDense(lattice: Lattice) returns (reason: Option<Fallback>)
    requires lattice.Valid() && lattice.codes.Some?
    ensures reason.None? <==> !HasDuplicate(lattice) && !TooManyStates(lattice)
    ensures reason == Some(StateSpace) ==> TooManyStates(lattice)
    ensures reason == Some(DuplicateIdentity) ==> HasDuplicate(lattice)
    ensures reason != Some(Tie)
  {
    hide Repeats, StateCount;
    var codes := lattice.codes.value;
    var t := 0;
    while t < lattice.Tokens()
      invariant 0 <= t <= lattice.Tokens()
      invariant forall u :: 0 <= u < t ==> StateCount(lattice, u) <= MAX_DENSE_STATES
      invariant forall u :: 0 <= u < t ==> !Repeats(codes, lattice.starts[u], lattice.starts[u + 1])
    {
      if StateCount(lattice, t) > MAX_DENSE_STATES {
        return Some(StateSpace);
      }
      var duplicate := FindDuplicate(codes, lattice.starts[t], lattice.starts[t + 1]);
      if duplicate {
        return Some(DuplicateIdentity);
      }
      t := t + 1;
    }
    return None;
  }

  method FindDuplicate(codes: seq<ScoringCode>, start: nat, end: nat) returns (found: bool)
    requires start <= end <= |codes|
    ensures found <==> Repeats(codes, start, end)
  {
    var left := start;
    while left < end
      invariant start <= left <= end
      invariant forall l, r :: start <= l < left && l < r < end ==>
                  codes[l].canonical != codes[r].canonical || codes[l].javaHash != codes[r].javaHash
    {
      var right := left + 1;
      while right < end
        invariant left < right <= end
        invariant forall r :: left < r < right ==>
                    codes[left].canonical != codes[r].canonical || codes[left].javaHash != codes[r].javaHash
      {
        if codes[left].canonical == codes[right].canonical && codes[left].javaHash == codes[right].javaHash {
          return true;
        }
        right := right + 1;
      }
      left := left + 1;
    }
    return false;
  }

  /** Runs the dense layers over all tokens, stopping at the first tie. */
  method SearchDense(lattice: Lattice, workspace: Workspace)
    returns (tie: bool, list: seq<nat>, hypotheses: seq<Hypothesis>, ghost base: nat)
    requires lattice.Valid() && Ready(lattice, workspace)
    modifies Footprint(workspace)
    ensures Ready(lattice, workspace)
    ensures tie ==> HasTie(lattice)
    ensures !tie ==> AllFit(lattice, Owners(workspace), hypotheses) && Lists(list, base, |hypotheses|)
    ensures !tie ==> DenseLayer(lattice, hypotheses, base, lattice.Tokens()) && DistinctStates(hypotheses, base)
  {
    hide Ready, AllFit, DenseLayer, Owners, HasTie;
    var row := InitialRow(lattice, workspace);
    hypotheses := [Hypothesis(0, 0, None, row, 0.0)];
    tie, list, base := false, [0], 0;
    RootFits(lattice, Owners(workspace), row);
    DenseRoot(lattice, hypotheses[0]);
    var t := 0;
    while t < lattice.Tokens()
      invariant 0 <= t <= lattice.Tokens()
      invariant Ready(lattice, workspace) && AllFit(lattice, Owners(workspace), hypotheses)
      invariant Lists(list, base, |hypotheses|) && DenseLayer(lattice, hypotheses, base, t) && DistinctStates(hypotheses, base)
    {
      ghost var previous := |hypotheses|;
      tie, list, hypotheses := FillLayer(lattice, workspace, t, list, hypotheses, base);
      if tie {
        return;
      }
      base := previous;
      t := t + 1;
    }
  }

  lemma RootFits(lattice: Lattice, owners: seq<nat>, row: Option<nat>)
    requires lattice.Valid() && RowFits(lattice, owners, 0, 0, row)
    ensures AllFit(lattice, owners, [Hypothesis(0, 0, None, row, 0.0)])
  {
  }

  lemma DenseRoot(lattice: Lattice, root: Hypothesis)
    requires lattice.Valid() && root.backpointer.None? && root.previous == root.current == 0 && root.score == 0.0
    ensures DenseLayer(lattice, [root], 0, 0)
  {
    var hypotheses := [root];
    assert PathOf(hypotheses, 0) == [];
    forall path | lattice.IsPath(path) && |path| == 0
      ensures exists e :: 0 <= e && Settles(lattice, hypotheses, e, path)
    {
      assert path == [];
      assert Settles(lattice, hypotheses, 0, path);
    }
  }

  /** Selects only when every merge and the final choice were strict; such a selection is the one optimum.
      Gives up only for too many states, for candidates of one identity, or for two paths that really tie. */
  method DecodeDense(lattice: Lattice, workspace: Workspace) returns (outcome: DenseOutcome)
    requires lattice.Valid() && lattice.codes.Some? && Ready(lattice, workspace)
    modifies Footprint(workspace)
    ensures Ready(lattice, workspace)
    ensures outcome.Selected? ==> UniquelyOptimal(lattice, outcome.selection)
    ensures outcome == FallBack(StateSpace) ==> TooManyStates(lattice)
    ensures outcome == FallBack(DuplicateIdentity) ==> HasDuplicate(lattice)
    ensures outcome == FallBack(Tie) ==> HasTie(lattice)
    ensures HasDuplicate(lattice) || TooManyStates(lattice) ==> outcome.FallBack? && outcome.reason != Tie
  {
    hide Ready, AllFit, DenseLayer, Owners, UniquelyOptimal, HasDuplicate, TooManyStates, HasTie, StrictBest, Lists, DistinctStates;
    var reason := CheckDense(lattice);
    if reason.Some? {
      return FallBack(reason.value);
    }
    var tie, list, hypotheses, base := SearchDense(lattice, workspace);
    if tie {
      return FallBack(Tie);
    }
    AllFitInRange(lattice, Owners(workspace), hypotheses);
    var best, finished;
    tie, best, finished := PickStrictBest(lattice, workspace, list, hypotheses, base);
    if tie {
      return FallBack(Tie);
    }
    var selected := ConcludeDense(lattice, list, hypotheses, base, best, finished);
    return Selected(selected);
  }

  lemma AllFitInRange(lattice: Lattice, owners: seq<nat>, hypotheses: seq<Hypothesis>)
    requires lattice.Valid() && AllFit(lattice, owners, hypotheses)
    ensures forall i :: 0 <= i < |hypotheses| ==> InRange(lattice, hypotheses[i])
  {
  }

  method ConcludeDense(lattice: Lattice, ghost list: seq<nat>, ghost hypotheses: seq<Hypothesis>, ghost base: nat,
                       best: Option<nat>, finished: seq<Hypothesis>)
    returns (selected: seq<nat>)
    requires lattice.Valid() && DenseLayer(lattice, hypotheses, base, lattice.Tokens()) && Lists(list, base, |hypotheses|)
    requires EndAddedUpTo(lattice, hypotheses, base, |hypotheses|, finished)
    requires forall i :: 0 <= i < |hypotheses| ==> InRange(lattice, hypotheses[i])
    requires if list == [] then best.None? else best.Some? && StrictBest(lattice, hypotheses, base, |hypotheses|, best.value)
    ensures UniquelyOptimal(lattice, selected)
  {
    hide DenseLayer, UniquelyOptimal, Represents, PathScore;
    DenseInhabited(lattice, hypotheses, base);
    StrictBestPath(lattice, hypotheses, base, best.value);
    DenseLinks(lattice, hypotheses, base, finished, best.value);
    selected := Reconstruct(lattice, finished, best.value);
    UniqueSelection(lattice, selected);
  }

  lemma DenseInhabited(lattice: Lattice, hypotheses: seq<Hypothesis>, base: nat)
    requires lattice.Valid() && DenseLayer(lattice, hypotheses, base, lattice.Tokens())
    ensures base < |hypotheses|
  {
    hide PrefixScore, WellFounded, Represents;
    var path := lattice.starts[..lattice.Tokens()];
    assert lattice.IsPath(path) && |path| == lattice.Tokens();
    var e :| base <= e && Settles(lattice, hypotheses, e, path);
  }

  lemma DenseLinks(lattice: Lattice, hypotheses: seq<Hypothesis>, base: nat, finished: seq<Hypothesis>, best: nat)
    requires lattice.Valid() && DenseLayer(lattice, hypotheses, base, lattice.Tokens()) && base <= best < |hypotheses|
    requires EndAddedUpTo(lattice, hypotheses, base, |hypotheses|, finished)
    requires forall i :: 0 <= i < |hypotheses| ==> InRange(lattice, hypotheses[i])
    ensures WellFounded(hypotheses) && WellFounded(finished) && |finished| == |hypotheses|
    ensures PathOf(finished, best) == PathOf(hypotheses, best)
    ensures lattice.IsPath(PathOf(hypotheses, best)) && |PathOf(hypotheses, best)| == lattice.Tokens()
  {
    hide Settles;
    PathUnchanged(hypotheses, finished, best);
    assert Represents(lattice, hypotheses, best, lattice.Tokens());
  }

  /** Both decoders on one lattice and one cache: whenever the dense one selects, the hash one selects the same. */
  method DecodeBoth(lattice: Lattice, workspace: Workspace, first: ActiveHypotheses, second: ActiveHypotheses, capacity: nat)
    returns (dense: DenseOutcome, hash: seq<nat>)
    requires lattice.Valid() && lattice.Consistent() && lattice.codes.Some? && Ready(lattice, workspace)
    requires first != second && first.Reusable() && second.Reusable()
    modifies first, second, Footprint(workspace)
    ensures Ready(lattice, workspace) && first.Reusable() && second.Reusable()
    ensures dense.Selected? ==> dense.selection == hash
  {
    hide Ready, Lattice.Consistent, ActiveHypotheses.Reusable, UniquelyOptimal, Optimal;
    dense := DecodeDense(lattice, workspace);
    hash := DecodeHash(lattice, workspace, first, second, capacity);
    if dense.Selected? {
      UniqueOptimum(lattice, dense.selection, hash);
    }
  }

  /** The whole decoder: the dense form when scoring codes are present and it finds a unique optimum,
      otherwise the hash form on the same cache. Either way the selection is optimal. */
  method Decode(lattice: Lattice, workspace: Workspace, first: ActiveHypotheses, second: ActiveHypotheses, capacity: nat, forceHash: bool)
    returns (selected: seq<nat>)
    requires lattice.Valid() && lattice.Consistent() && Ready(lattice, workspace)
    requires first != second && first.Reusable() && second.Reusable()
    modifies first, second, Footprint(workspace)
    ensures Ready(lattice, workspace) && first.Reusable() && second.Reusable()
    ensures Optimal(lattice, selected)
  {
    hide Ready, Lattice.Consistent, ActiveHypotheses.Reusable;
    if lattice.codes.Some? && !forceHash {
      var outcome := DecodeDense(lattice, workspace);
      if outcome.Selected? {
        return outcome.selection;
      }
    }
    selected := DecodeHash(lattice, workspace, first, second, capacity);
  }
}
