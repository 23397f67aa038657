/** The Viterbi decoder over hash tables of merged hypotheses. */
module HashDecoder {
  import opened Common
  import opened Lattices
  import opened TransitionCache
  import opened CachedScoring
  import opened ActiveTable
  import opened Viterbi

  /** Every hypothesis names words of the lattice and carries no row, or the row of its two words. */
  ghost predicate AllFit(lattice: Lattice, owners: seq<nat>, hypotheses: seq<Hypothesis>)
    requires lattice.Valid()
  {
    forall i :: 0 <= i < |hypotheses| ==>
      InRange(lattice, hypotheses[i]) &&
      RowFits(lattice, owners, hypotheses[i].previous, hypotheses[i].current, hypotheses[i].row)
  }

  lemma AllFitGrows(lattice: Lattice, owners: seq<nat>, grown: seq<nat>, hypotheses: seq<Hypothesis>)
    requires lattice.Valid() && owners <= grown && AllFit(lattice, owners, hypotheses)
    ensures AllFit(lattice, grown, hypotheses)
  {
    forall i | 0 <= i < |hypotheses|
      ensures RowFits(lattice, grown, hypotheses[i].previous, hypotheses[i].current, hypotheses[i].row)
    {
      assert RowFits(lattice, owners, hypotheses[i].previous, hypotheses[i].current, hypotheses[i].row);
    }
  }

  /** What offering a candidate does to the hypotheses and to the live indices. */
  ghost predicate Offered(lattice: Lattice, hypotheses: seq<Hypothesis>, live: set<nat>, candidate: Hypothesis, place: nat,
                          after: seq<Hypothesis>, liveAfter: set<nat>)
    requires lattice.Valid()
  {
    InRange(lattice, candidate) &&
    if place < |hypotheses| then
      && place in live && liveAfter == live
      && InRange(lattice, hypotheses[place]) && SameState(lattice, hypotheses[place], candidate)
      && after == (if hypotheses[place].score < candidate.score then hypotheses[place := candidate] else hypotheses)
    else
      place == |hypotheses| && after == hypotheses + [candidate] && liveAfter == live + {place}
  }

  lemma OfferKeepsDomination(lattice: Lattice, hypotheses: seq<Hypothesis>, live: set<nat>, candidate: Hypothesis, place: nat,
                             after: seq<Hypothesis>, liveAfter: set<nat>, previous: nat, current: nat, score: real)
    requires lattice.Valid() && Offered(lattice, hypotheses, live, candidate, place, after, liveAfter)
    requires previous < |lattice.words| && current < |lattice.words|
    requires Dominated(lattice, hypotheses, live, previous, current, score)
    ensures Dominated(lattice, after, liveAfter, previous, current, score)
  {
    var e :| e in live && Dominates(lattice, hypotheses, e, previous, current, score);
    assert Dominates(lattice, after, e, previous, current, score);
  }

  lemma OfferDominatesCandidate(lattice: Lattice, hypotheses: seq<Hypothesis>, live: set<nat>, candidate: Hypothesis, place: nat,
                                after: seq<Hypothesis>, liveAfter: set<nat>)
    requires lattice.Valid() && Offered(lattice, hypotheses, live, candidate, place, after, liveAfter)
    ensures Dominated(lattice, after, liveAfter, candidate.previous, candidate.current, candidate.score)
  {
    assert Dominates(lattice, after, place, candidate.previous, candidate.current, candidate.score);
  }

  lemma OfferKeepsAppended(lattice: Lattice, before: seq<Hypothesis>, alive: set<nat>, hypotheses: seq<Hypothesis>, live: set<nat>, t: nat,
                           candidate: Hypothesis, place: nat, after: seq<Hypothesis>, liveAfter: set<nat>)
    requires lattice.Valid() && t < lattice.Tokens()
    requires Appended(lattice, before, alive, hypotheses, live, t) && Extends(lattice, before, alive, t, candidate)
    requires Offered(lattice, hypotheses, live, candidate, place, after, liveAfter)
    ensures Appended(lattice, before, alive, after, liveAfter, t)
  {
    hide Extends, SameState;
    assert after[..|before|] == before;
  }

  lemma OfferKeepsFit(lattice: Lattice, owners: seq<nat>, hypotheses: seq<Hypothesis>, live: set<nat>,
                      candidate: Hypothesis, place: nat, after: seq<Hypothesis>, liveAfter: set<nat>)
    requires lattice.Valid() && AllFit(lattice, owners, hypotheses)
    requires Offered(lattice, hypotheses, live, candidate, place, after, liveAfter)
    requires RowFits(lattice, owners, candidate.previous, candidate.current, candidate.row)
    ensures AllFit(lattice, owners, after)
  {
    hide RowFits, SameState;
  }

  /** What one transition out of a live hypothesis does: it covers that extension and keeps what was covered. */
  ghost predicate Progress(lattice: Lattice, before: seq<Hypothesis>, hypotheses: seq<Hypothesis>, live: set<nat>,
                           after: seq<Hypothesis>, liveAfter: set<nat>)
    requires lattice.Valid()
  {
    forall i: nat, b: nat :: Covered(lattice, before, hypotheses, live, i, b) ==> Covered(lattice, before, after, liveAfter, i, b)
  }

  lemma OfferProgress(lattice: Lattice, before: seq<Hypothesis>, hypotheses: seq<Hypothesis>, live: set<nat>,
                      candidate: Hypothesis, place: nat, after: seq<Hypothesis>, liveAfter: set<nat>)
    requires lattice.Valid() && Offered(lattice, hypotheses, live, candidate, place, after, liveAfter)
    ensures Progress(lattice, before, hypotheses, live, after, liveAfter)
  {
    hide Offered, Dominated;
    forall i: nat, b: nat | Covered(lattice, before, hypotheses, live, i, b)
      ensures Covered(lattice, before, after, liveAfter, i, b)
    {
      OfferKeepsDomination(lattice, hypotheses, live, candidate, place, after, liveAfter, before[i].current, b,
                           before[i].score + lattice.Score(before[i].previous, before[i].current, b));
    }
  }

  /** Offers one candidate to the next table and reports what changed in terms of live indices. */
  method OfferCandidate(lattice: Lattice, candidate: Hypothesis, next: ActiveHypotheses, hypotheses: seq<Hypothesis>)
    returns (after: seq<Hypothesis>, ghost place: nat)
    requires lattice.Valid() && next.Valid() && InRange(lattice, candidate) && Indexes(lattice, next.Table(), hypotheses)
    requires forall v: nat :: Stored(next.Table(), v) <= 1
    modifies next
    ensures next.Valid() && Indexes(lattice, next.Table(), after)
    ensures forall v: nat :: Stored(next.Table(), v) <= 1
    ensures Offered(lattice, hypotheses, LiveOf(old(next.Table())), candidate, place, after, LiveOf(next.Table()))
  {
    hide Stored, SameState, LiveOf;
    LiveIsStored(next.Table());
    IndexedLive(lattice, next.Table(), hypotheses);
    after, place := next.AddCandidate(lattice, candidate, hypotheses);
    LiveIsStored(next.Table());
    if place == |hypotheses| {
      assert LiveOf(next.Table()) == LiveOf(old(next.Table())) + {place};
    } else {
      assert LiveOf(next.Table()) == LiveOf(old(next.Table()));
    }
    LiveIndexed(lattice, next.Table(), after);
  }

  lemma IndexedLive(lattice: Lattice, table: seq<Option<nat>>, hypotheses: seq<Hypothesis>)
    requires Indexes(lattice, table, hypotheses)
    ensures forall v: nat :: v in LiveOf(table) ==> v < |hypotheses| && InRange(lattice, hypotheses[v])
  {
  }

  lemma LiveIndexed(lattice: Lattice, table: seq<Option<nat>>, hypotheses: seq<Hypothesis>)
    requires forall v: nat :: v in LiveOf(table) ==> v < |hypotheses| && InRange(lattice, hypotheses[v])
    ensures Indexes(lattice, table, hypotheses)
  {
    forall s | 0 <= s < |table| && table[s].Some?
      ensures table[s].value < |hypotheses| && InRange(lattice, hypotheses[table[s].value])
    {
      assert table[s].value in LiveOf(table);
    }
  }

  /** The state of the search while token `t` is processed: `before` and `alive` are the previous layer. */
  ghost predicate Searching(lattice: Lattice, workspace: Workspace, before: seq<Hypothesis>, alive: set<nat>,
                            hypotheses: seq<Hypothesis>, next: ActiveHypotheses, t: nat)
    reads Footprint(workspace), next
    requires lattice.Valid() && t < lattice.Tokens()
  {
    && Ready(lattice, workspace)
    && AllFit(lattice, Owners(workspace), hypotheses)
    && next.Valid() && Indexes(lattice, next.Table(), hypotheses)
    && (forall v: nat :: Stored(next.Table(), v) <= 1)
    && Appended(lattice, before, alive, hypotheses, LiveOf(next.Table()), t)
  }

  lemma PreviousLayer(lattice: Lattice, before: seq<Hypothesis>, alive: set<nat>, hypotheses: seq<Hypothesis>, next: set<nat>,
                      t: nat, index: nat, a: nat)
    requires lattice.Valid() && t < lattice.Tokens() && lattice.InToken(t, a)
    requires Appended(lattice, before, alive, hypotheses, next, t) && index < |before|
    ensures a < |lattice.words| && index < |hypotheses| && hypotheses[index] == before[index]
  {
    assert lattice.starts[t + 1] <= lattice.starts[|lattice.starts| - 1];
    assert hypotheses[index] == hypotheses[..|before|][index];
  }

  /** Extends one live hypothesis by one candidate and offers the result to the next table. */
  method ExtendOne(lattice: Lattice, workspace: Workspace, t: nat, a: nat, index: nat, next: ActiveHypotheses,
                   hypotheses: seq<Hypothesis>, ghost before: seq<Hypothesis>, ghost alive: set<nat>)
    returns (after: seq<Hypothesis>)
    requires lattice.Valid() && t < lattice.Tokens() && lattice.InToken(t, a)
    requires Searching(lattice, workspace, before, alive, hypotheses, next, t)
    requires index in alive && index < |before| && InRange(lattice, before[index]) && EndsAt(lattice, t, before[index].current)
    modifies next, Footprint(workspace)
    ensures Searching(lattice, workspace, before, alive, after, next, t)
    ensures old(Owners(workspace)) <= Owners(workspace)
    ensures Covered(lattice, before, after, LiveOf(next.Table()), index, a)
    ensures Progress(lattice, before, hypotheses, old(LiveOf(next.Table())), after, LiveOf(next.Table()))
  {
    hide Appended, AllFit, Offered, Stored, LiveOf, Progress, Ready, Extends, Dominated, ActiveHypotheses.Valid, RowFits;
    PreviousLayer(lattice, before, alive, hypotheses, LiveOf(next.Table()), t, index, a);
    FitsAt(lattice, Owners(workspace), hypotheses, index);
    var h := hypotheses[index];
    var score, row := ScoreTransition(lattice, t, h.previous, h.current, a, h.row, workspace, true);
    AllFitGrows(lattice, old(Owners(workspace)), Owners(workspace), hypotheses);
    var candidate := Hypothesis(h.current, a, Some(index), row, h.score + score);
    assert Extends(lattice, before, alive, t, candidate) by { CandidateExtends(lattice, before, alive, t, index, candidate); }
    ghost var live := LiveOf(next.Table());
    ghost var place;
    after, place := OfferCandidate(lattice, candidate, next, hypotheses);
    ghost var liveAfter := LiveOf(next.Table());
    OfferKeepsFit(lattice, Owners(workspace), hypotheses, live, candidate, place, after, liveAfter);
    OfferKeepsAppended(lattice, before, alive, hypotheses, live, t, candidate, place, after, liveAfter);
    OfferDominatesCandidate(lattice, hypotheses, live, candidate, place, after, liveAfter);
    OfferProgress(lattice, before, hypotheses, live, candidate, place, after, liveAfter);
  }

  lemma CandidateExtends(lattice: Lattice, before: seq<Hypothesis>, alive: set<nat>, t: nat, index: nat, candidate: Hypothesis)
    requires lattice.Valid() && t < lattice.Tokens() && lattice.InToken(t, candidate.current) && candidate.current < |lattice.words|
    requires index in alive && index < |before| && InRange(lattice, before[index])
    requires candidate.backpointer == Some(index) && candidate.previous == before[index].current
    requires candidate.score == before[index].score + lattice.Score(before[index].previous, before[index].current, candidate.current)
    ensures Extends(lattice, before, alive, t, candidate)
  {
  }

  lemma FitsAt(lattice: Lattice, owners: seq<nat>, hypotheses: seq<Hypothesis>, i: nat)
    requires lattice.Valid() && AllFit(lattice, owners, hypotheses) && i < |hypotheses|
    ensures InRange(lattice, hypotheses[i])
    ensures RowFits(lattice, owners, hypotheses[i].previous, hypotheses[i].current, hypotheses[i].row)
  {
  }

  lemma ProgressChains(lattice: Lattice, before: seq<Hypothesis>, h0: seq<Hypothesis>, l0: set<nat>, h1: seq<Hypothesis>, l1: set<nat>,
                       h2: seq<Hypothesis>, l2: set<nat>)
    requires lattice.Valid() && Progress(lattice, before, h0, l0, h1, l1) && Progress(lattice, before, h1, l1, h2, l2)
    ensures Progress(lattice, before, h0, l0, h2, l2)
  {
    hide Covered;
  }

  /** Extends every live hypothesis by one candidate. */
  method ExtendByCandidate(lattice: Lattice, workspace: Workspace, t: nat, a: nat, order: seq<nat>, next: ActiveHypotheses,
                           hypotheses: seq<Hypothesis>, ghost before: seq<Hypothesis>, ghost alive: set<nat>)
    returns (after: seq<Hypothesis>)
    requires lattice.Valid() && t < lattice.Tokens() && lattice.InToken(t, a)
    requires Searching(lattice, workspace, before, alive, hypotheses, next, t)
    requires forall k :: 0 <= k < |order| ==> order[k] in alive
    requires forall i :: i in alive ==> i < |before| && InRange(lattice, before[i]) && EndsAt(lattice, t, before[i].current)
    modifies next, Footprint(workspace)
    ensures Searching(lattice, workspace, before, alive, after, next, t)
    ensures old(Owners(workspace)) <= Owners(workspace)
    ensures forall k :: 0 <= k < |order| ==> Covered(lattice, before, after, LiveOf(next.Table()), order[k], a)
    ensures Progress(lattice, before, hypotheses, old(LiveOf(next.Table())), after, LiveOf(next.Table()))
  {
    hide Searching, Covered, LiveOf, Owners;
    after := hypotheses;
    assert Progress(lattice, before, hypotheses, LiveOf(next.Table()), after, LiveOf(next.Table()));
    var offset := 0;
    while offset < |order|
      invariant 0 <= offset <= |order|
      invariant Searching(lattice, workspace, before, alive, after, next, t)
      invariant old(Owners(workspace)) <= Owners(workspace)
      invariant forall k :: 0 <= k < offset ==> Covered(lattice, before, after, LiveOf(next.Table()), order[k], a)
      invariant Progress(lattice, before, hypotheses, old(LiveOf(next.Table())), after, LiveOf(next.Table()))
    {
      ghost var h1, l1 := after, LiveOf(next.Table());
      after := ExtendOne(lattice, workspace, t, a, order[offset], next, after, before, alive);
      ProgressChains(lattice, before, hypotheses, old(LiveOf(next.Table())), h1, l1, after, LiveOf(next.Table()));
      offset := offset + 1;
    }
  }

  /** Extends every live hypothesis by every candidate of token `t`. */
  method ExtendLayer(lattice: Lattice, workspace: Workspace, t: nat, order: seq<nat>, next: ActiveHypotheses,
                     hypotheses: seq<Hypothesis>, ghost alive: set<nat>)
    returns (after: seq<Hypothesis>)
    requires lattice.Valid() && t < lattice.Tokens()
    requires Searching(lattice, workspace, hypotheses, alive, hypotheses, next, t)
    requires forall i :: i in alive <==> i in order
    requires forall i :: i in alive ==> i < |hypotheses| && InRange(lattice, hypotheses[i]) && EndsAt(lattice, t, hypotheses[i].current)
    modifies next, Footprint(workspace)
    ensures Searching(lattice, workspace, hypotheses, alive, after, next, t)
    ensures old(Owners(workspace)) <= Owners(workspace)
    ensures forall i, a :: i in alive && lattice.InToken(t, a) ==> Covered(lattice, hypotheses, after, LiveOf(next.Table()), i, a)
  {
    hide Searching, Covered, LiveOf, Owners;
    after := hypotheses;
    var analysis := lattice.starts[t];
    while analysis < lattice.starts[t + 1]
      invariant lattice.starts[t] <= analysis <= lattice.starts[t + 1]
      invariant Searching(lattice, workspace, hypotheses, alive, after, next, t)
      invariant old(Owners(workspace)) <= Owners(workspace)
      invariant forall i: nat, a: nat :: i in alive && lattice.starts[t] <= a < analysis ==>
                  Covered(lattice, hypotheses, after, LiveOf(next.Table()), i, a)
    {
      ghost var h1, l1 := after, LiveOf(next.Table());
      after := ExtendByCandidate(lattice, workspace, t, analysis, order, next, after, hypotheses, alive);
      CoverageGrows(lattice, hypotheses, alive, order, t, analysis, h1, l1, after, LiveOf(next.Table()));
      analysis := analysis + 1;
    }
  }

  lemma CoverageGrows(lattice: Lattice, before: seq<Hypothesis>, alive: set<nat>, order: seq<nat>, t: nat, analysis: nat,
                      h1: seq<Hypothesis>, l1: set<nat>, h2: seq<Hypothesis>, l2: set<nat>)
    requires lattice.Valid() && t < lattice.Tokens() && Progress(lattice, before, h1, l1, h2, l2)
    requires forall i: nat, a: nat :: i in alive && lattice.starts[t] <= a < analysis ==> Covered(lattice, before, h1, l1, i, a)
    requires forall k :: 0 <= k < |order| ==> Covered(lattice, before, h2, l2, order[k], analysis)
    requires forall i :: i in alive ==> i in order
    ensures forall i: nat, a: nat :: i in alive && lattice.starts[t] <= a < analysis + 1 ==> Covered(lattice, before, h2, l2, i, a)
  {
    hide Covered;
    forall i: nat, a: nat | i in alive && lattice.starts[t] <= a < analysis + 1
      ensures Covered(lattice, before, h2, l2, i, a)
    {
      if a < analysis {
        assert Covered(lattice, before, h1, l1, i, a);
      } else {
        var k :| 0 <= k < |order| && order[k] == i;
        assert Covered(lattice, before, h2, l2, order[k], analysis);
      }
    }
  }

  // ----- the whole search

  /** After `t` tokens the hypotheses listed by `current` are a layer. */
  ghost predicate AtLayer(lattice: Lattice, workspace: Workspace, hypotheses: seq<Hypothesis>, current: ActiveHypotheses, t: nat)
    reads Footprint(workspace), current
    requires lattice.Valid()
  {
    && Ready(lattice, workspace)
    && AllFit(lattice, Owners(workspace), hypotheses)
    && current.Valid() && Indexes(lattice, current.Table(), hypotheses)
    && (forall v: nat :: Stored(current.Table(), v) <= 1)
    && Layer(lattice, hypotheses, LiveOf(current.Table()), t)
  }

  method Start(lattice: Lattice, workspace: Workspace, current: ActiveHypotheses) returns (hypotheses: seq<Hypothesis>)
    requires lattice.Valid() && Ready(lattice, workspace) && current.Reusable() && 8 <= |current.slots|
    modifies current, Footprint(workspace)
    ensures AtLayer(lattice, workspace, hypotheses, current, 0)
  {
    hide Layer, Ready, RowFits, ActiveHypotheses.Valid, LiveOf, Stored, Owners;
    var row := InitialRow(lattice, workspace);
    hypotheses := [Hypothesis(0, 0, None, row, 0.0)];
    current.Reset();
    LiveIsStored(current.Table());
    LiveIndexed(lattice, current.Table(), hypotheses);
    current.Add(lattice, 0, hypotheses);
    LiveIsStored(current.Table());
    assert LiveOf(current.Table()) == {0};
    LiveIndexed(lattice, current.Table(), hypotheses);
    RootLayer(lattice, hypotheses[0]);
  }

  lemma OutsideWorkspace(workspace: Workspace, table: ActiveHypotheses)
    ensures table !in Footprint(workspace) && table !in CacheFootprint(workspace.cache)
  {
  }

  /** Empties the next table and lists the hypotheses of the current layer. */
  method BeginLayer(lattice: Lattice, ghost workspace: Workspace, ghost t: nat, current: ActiveHypotheses, next: ActiveHypotheses,
                    ghost hypotheses: seq<Hypothesis>)
    returns (order: seq<nat>)
    requires lattice.Valid() && t < lattice.Tokens() && current != next
    requires AtLayer(lattice, workspace, hypotheses, current, t) && next.Reusable() && 8 <= |next.slots|
    modifies current`scratch, next
    ensures Searching(lattice, workspace, hypotheses, LiveOf(current.Table()), hypotheses, next, t)
    ensures current.Valid() && current.Table() == old(current.Table())
    ensures forall i :: i in LiveOf(current.Table()) <==> i in order
  {
    hide Layer, Ready, AllFit, LiveOf, Stored, Owners, Indexes;
    OutsideWorkspace(workspace, current);
    OutsideWorkspace(workspace, next);
    next.Reset();
    IndexedLive(lattice, current.Table(), hypotheses);
    var count := current.Snapshot();
    order := Listed(current.scratch[..count]);
    LiveIsStored(current.Table());
    LiveIsStored(current.scratch[..count]);
    LiveIsStored(next.Table());
    LiveIndexed(lattice, next.Table(), hypotheses);
  }

  /** Processes one token: `next` becomes the following layer. */
  method Advance(lattice: Lattice, workspace: Workspace, t: nat, current: ActiveHypotheses, next: ActiveHypotheses,
                 hypotheses: seq<Hypothesis>)
    returns (after: seq<Hypothesis>)
    requires lattice.Valid() && lattice.Consistent() && t < lattice.Tokens() && current != next
    requires AtLayer(lattice, workspace, hypotheses, current, t) && next.Reusable() && 8 <= |next.slots|
    modifies current`scratch, next, Footprint(workspace)
    ensures AtLayer(lattice, workspace, after, next, t + 1) && current.Reusable() && 8 <= |current.slots|
  {
    hide Layer, Ready, AllFit, LiveOf, Stored, Owners, Covered, Indexes, EndsAt, Appended;
    ghost var alive := LiveOf(current.Table());
    IndexedLive(lattice, current.Table(), hypotheses);
    LayerEnds(lattice, hypotheses, alive, t);
    var order := BeginLayer(lattice, workspace, t, current, next, hypotheses);
    after := ExtendLayer(lattice, workspace, t, order, next, hypotheses, alive);
    LayerAdvances(lattice, hypotheses, alive, after, LiveOf(next.Table()), t);
  }

  /** The values of a buffer without vacant entries. */
  function Listed(buffer: seq<Option<nat>>): (list: seq<nat>)
    requires forall k :: 0 <= k < |buffer| ==> buffer[k].Some?
    ensures |list| == |buffer| && forall k :: 0 <= k < |buffer| ==> list[k] == buffer[k].value
    ensures forall v :: v in list <==> v in LiveOf(buffer)
  {
    seq(|buffer|, k requires 0 <= k < |buffer| => buffer[k].value)
  }

  /** Runs over all tokens, swapping the two tables after each. */
  method Search(lattice: Lattice, workspace: Workspace, first: ActiveHypotheses, second: ActiveHypotheses)
    returns (hypotheses: seq<Hypothesis>, current: ActiveHypotheses)
    requires lattice.Valid() && lattice.Consistent() && Ready(lattice, workspace)
    requires first != second && first.Reusable() && second.Reusable() && 8 <= |first.slots| && 8 <= |second.slots|
    modifies first, second, Footprint(workspace)
    ensures (current == first || current == second) && first.Reusable() && second.Reusable()
    ensures AtLayer(lattice, workspace, hypotheses, current, lattice.Tokens())
  {
    hide AtLayer, Ready, Lattice.Consistent, ActiveHypotheses.Valid, ActiveHypotheses.Reusable;
    var next := second;
    current := first;
    hypotheses := Start(lattice, workspace, current);
    LeftReusable(lattice, workspace, hypotheses, current, 0);
    var t := 0;
    while t < lattice.Tokens()
      invariant 0 <= t <= lattice.Tokens()
      invariant (current == first && next == second) || (current == second && next == first)
      invariant next.Reusable() && 8 <= |next.slots| && current.Reusable() && 8 <= |current.slots|
      invariant AtLayer(lattice, workspace, hypotheses, current, t)
    {
      hypotheses := Advance(lattice, workspace, t, current, next, hypotheses);
      LeftReusable(lattice, workspace, hypotheses, next, t + 1);
      current, next := next, current;
      t := t + 1;
    }
  }

  lemma LeftReusable(lattice: Lattice, workspace: Workspace, hypotheses: seq<Hypothesis>, current: ActiveHypotheses, t: nat)
    requires lattice.Valid() && AtLayer(lattice, workspace, hypotheses, current, t)
    ensures current.Reusable() && 8 <= |current.slots|
  {
  }

  /** A hypothesis is stored once, so it is not among the slots before its own. */
  lemma StoredOnce(table: seq<Option<nat>>, s: nat)
    requires s < |table| && table[s].Some? && forall v: nat :: Stored(table, v) <= 1
    ensures table[s].value !in LiveOf(table[..s])
    ensures LiveOf(table[..s + 1]) == LiveOf(table[..s]) + {table[s].value}
  {
    var v := table[s].value;
    assert table == table[..s] + [table[s]] + table[s + 1..];
    assert Stored(table, v) == Stored(table[..s], v) + 1 + Stored(table[s + 1..], v);
    LiveIsStored(table[..s]);
    assert table[..s + 1] == table[..s] + [table[s]];
  }

  lemma StoredIsLive(table: seq<Option<nat>>, s: nat)
    requires s < |table| && table[s].Some?
    ensures table[s].value in LiveOf(table)
  {
  }

  lemma VacantSkipped(table: seq<Option<nat>>, s: nat)
    requires s < |table| && table[s].None?
    ensures LiveOf(table[..s + 1]) == LiveOf(table[..s])
  {
    assert table[..s + 1] == table[..s] + [table[s]];
  }

  /** `after` is `hypotheses` with the end transition added to the score of every index of `done`. */
  ghost predicate EndAdded(lattice: Lattice, hypotheses: seq<Hypothesis>, done: set<nat>, after: seq<Hypothesis>)
    requires lattice.Valid()
  {
    |after| == |hypotheses| &&
    forall i :: 0 <= i < |hypotheses| && InRange(lattice, hypotheses[i]) ==>
      after[i] == if i in done then hypotheses[i].(score := FinalScore(lattice, hypotheses[i])) else hypotheses[i]
  }

  /** Adds the transition into the end word to every hypothesis of the table. */
  method AddEndScores(lattice: Lattice, workspace: Workspace, table: seq<Option<nat>>, hypotheses: seq<Hypothesis>)
    returns (after: seq<Hypothesis>)
    requires lattice.Valid() && Ready(lattice, workspace) && AllFit(lattice, Owners(workspace), hypotheses)
    requires Indexes(lattice, table, hypotheses) && forall v: nat :: Stored(table, v) <= 1
    requires forall v :: v in LiveOf(table) ==> v < |hypotheses| && EndsAt(lattice, lattice.Tokens(), hypotheses[v].current)
    modifies Footprint(workspace)
    ensures Ready(lattice, workspace) && EndAdded(lattice, hypotheses, LiveOf(table), after)
  {
    hide Ready, AllFit, RowFits, LiveOf, Stored, Owners, EndsAt;
    after := hypotheses;
    var s := 0;
    assert LiveOf(table[..0]) == {} by { NothingLive(table[..0]); }
    while s < |table|
      invariant 0 <= s <= |table|
      invariant Ready(lattice, workspace) && AllFit(lattice, Owners(workspace), hypotheses)
      invariant EndAdded(lattice, hypotheses, LiveOf(table[..s]), after)
    {
      if table[s].Some? {
        var i := table[s].value;
        StoredOnce(table, s);
        StoredIsLive(table, s);
        FitsAt(lattice, Owners(workspace), hypotheses, i);
        var h := after[i];
        ghost var owners := Owners(workspace);
        var score, _ := ScoreTransition(lattice, lattice.Tokens(), h.previous, h.current, 1, h.row, workspace, true);
        AllFitGrows(lattice, owners, Owners(workspace), hypotheses);
        after := after[i := h.(score := h.score + score)];
      } else {
        VacantSkipped(table, s);
      }
      s := s + 1;
    }
    assert table[..s] == table;
  }

  lemma NothingLive(table: seq<Option<nat>>)
    requires table == []
    ensures LiveOf(table) == {}
  {
  }

  lemma BestIsBest(lattice: Lattice, hypotheses: seq<Hypothesis>, table: seq<Option<nat>>, finished: seq<Hypothesis>, best: nat)
    requires lattice.Valid() && Indexes(lattice, table, hypotheses) && EndAdded(lattice, hypotheses, LiveOf(table), finished)
    requires forall s :: 0 <= s < |table| && table[s].Some? ==> table[s].value < |finished|
    requires FirstBest(table, finished, best)
    ensures BestFinished(lattice, hypotheses, LiveOf(table), best)
  {
    var at :| 0 <= at < |table| && table[at] == Some(best);
    forall i: nat | i in LiveOf(table) && i < |hypotheses| && InRange(lattice, hypotheses[i])
      ensures FinalScore(lattice, hypotheses[i]) <= FinalScore(lattice, hypotheses[best])
    {
      var s :| 0 <= s < |table| && table[s] == Some(i);
    }
  }

  /** A selection is optimal when no other selection of the sentence scores more. */
  ghost predicate Optimal(lattice: Lattice, selected: seq<nat>)
    requires lattice.Valid()
  {
    IsSelection(lattice, selected) &&
    forall other :: IsSelection(lattice, other) ==> SelectionScore(lattice, other) <= SelectionScore(lattice, selected)
  }

  /** Optimality among paths is optimality among selections. */
  lemma OptimalSelection(lattice: Lattice, selected: seq<nat>)
    requires lattice.Valid() && IsSelection(lattice, selected)
    requires forall path :: lattice.IsPath(path) && |path| == lattice.Tokens() ==>
               PathScore(lattice, path) <= PathScore(lattice, GlobalPath(lattice, selected))
    ensures Optimal(lattice, selected)
  {
    hide PathScore;
    forall other | IsSelection(lattice, other)
      ensures SelectionScore(lattice, other) <= SelectionScore(lattice, selected)
    {
      assert lattice.IsPath(GlobalPath(lattice, other));
    }
  }

  /** The hash decoder: for every lattice in which equal identities carry equal features, with or without
      a cache and whatever the cache already holds, the selection has the maximum total score. */
  method DecodeHash(lattice: Lattice, workspace: Workspace, first: ActiveHypotheses, second: ActiveHypotheses, capacity: nat)
    returns (selected: seq<nat>)
    requires lattice.Valid() && lattice.Consistent() && Ready(lattice, workspace)
    requires first != second && first.Reusable() && second.Reusable()
    modifies first, second, Footprint(workspace)
    ensures Ready(lattice, workspace) && first.Reusable() && second.Reusable()
    ensures Optimal(lattice, selected)
  {
    hide AtLayer, Ready, Lattice.Consistent, Optimal, ActiveHypotheses.Reusable;
    first.EnsureCapacity(capacity);
    second.EnsureCapacity(capacity);
    var hypotheses, current := Search(lattice, workspace, first, second);
    selected := Conclude(lattice, workspace, hypotheses, current);
  }

  /** Adds the end transitions to the last layer, picks its best hypothesis and reads its selection. */
  method Conclude(lattice: Lattice, workspace: Workspace, hypotheses: seq<Hypothesis>, current: ActiveHypotheses)
    returns (selected: seq<nat>)
    requires lattice.Valid() && lattice.Consistent() && AtLayer(lattice, workspace, hypotheses, current, lattice.Tokens())
    modifies Footprint(workspace)
    ensures Ready(lattice, workspace) && Optimal(lattice, selected)
  {
    hide AtLayer, Ready, EndAdded, Indexes, Layer, LiveOf, Stored, Lattice.Consistent, AllFit, Optimal, FirstBest, PathScore, PathOf, IsSelection;
    LayerFacts(lattice, workspace, hypotheses, current, lattice.Tokens());
    var table := current.slots[..current.activeLen];
    assert table == current.Table();
    LayerEnds(lattice, hypotheses, LiveOf(table), lattice.Tokens());
    var finished := AddEndScores(lattice, workspace, table, hypotheses);
    TableInRange(lattice, table, hypotheses, finished);
    var best := current.Best(finished);
    ghost var s := TableInhabited(lattice, hypotheses, table);
    assert current.Table()[s].Some?;
    ConcludePath(lattice, hypotheses, table, finished, best.value);
    selected := Reconstruct(lattice, finished, best.value);
    OptimalSelection(lattice, selected);
  }

  lemma ConcludePath(lattice: Lattice, hypotheses: seq<Hypothesis>, table: seq<Option<nat>>, finished: seq<Hypothesis>, best: nat)
    requires lattice.Valid() && lattice.Consistent() && Layer(lattice, hypotheses, LiveOf(table), lattice.Tokens())
    requires Indexes(lattice, table, hypotheses) && EndAdded(lattice, hypotheses, LiveOf(table), finished) && AllInRange(lattice, hypotheses)
    requires forall s :: 0 <= s < |table| && table[s].Some? ==> table[s].value < |finished|
    requires FirstBest(table, finished, best)
    ensures best < |finished| && WellFounded(finished)
    ensures |PathOf(finished, best)| == lattice.Tokens() && lattice.IsPath(PathOf(finished, best))
    ensures forall path :: lattice.IsPath(path) && |path| == lattice.Tokens() ==>
              PathScore(lattice, path) <= PathScore(lattice, PathOf(finished, best))
  {
    hide EndAdded, Indexes, LiveOf, PathScore, Lattice.Consistent, BestFinished, AllInRange, PathDominated;
    BestIsBest(lattice, hypotheses, table, finished, best);
    BestOfLastLayer(lattice, hypotheses, LiveOf(table), best);
    FinishedLinks(lattice, hypotheses, table, finished, best);
  }

  lemma LayerFacts(lattice: Lattice, workspace: Workspace, hypotheses: seq<Hypothesis>, current: ActiveHypotheses, t: nat)
    requires lattice.Valid() && AtLayer(lattice, workspace, hypotheses, current, t)
    ensures Ready(lattice, workspace) && AllFit(lattice, Owners(workspace), hypotheses)
    ensures current.Valid() && Indexes(lattice, current.Table(), hypotheses) && WellFounded(hypotheses)
    ensures forall v: nat :: Stored(current.Table(), v) <= 1
    ensures Layer(lattice, hypotheses, LiveOf(current.Table()), t)
    ensures AllInRange(lattice, hypotheses)
  {
    hide RowFits, Represents, PathDominated;
  }

  lemma TableInhabited(lattice: Lattice, hypotheses: seq<Hypothesis>, table: seq<Option<nat>>) returns (s: nat)
    requires lattice.Valid() && Layer(lattice, hypotheses, LiveOf(table), lattice.Tokens())
    ensures s < |table| && table[s].Some?
  {
    hide Layer;
    LayerIsInhabited(lattice, hypotheses, LiveOf(table), lattice.Tokens());
    var v :| v in LiveOf(table);
    s :| 0 <= s < |table| && table[s] == Some(v);
  }

  lemma TableInRange(lattice: Lattice, table: seq<Option<nat>>, hypotheses: seq<Hypothesis>, finished: seq<Hypothesis>)
    requires lattice.Valid() && Indexes(lattice, table, hypotheses) && EndAdded(lattice, hypotheses, LiveOf(table), finished)
    ensures forall s :: 0 <= s < |table| && table[s].Some? ==> table[s].value < |finished|
  {
  }

  /** Adding end scores leaves backpointers and words alone. */
  lemma FinishedLinks(lattice: Lattice, hypotheses: seq<Hypothesis>, table: seq<Option<nat>>, finished: seq<Hypothesis>, best: nat)
    requires lattice.Valid() && WellFounded(hypotheses) && best < |hypotheses| && AllInRange(lattice, hypotheses)
    requires EndAdded(lattice, hypotheses, LiveOf(table), finished)
    ensures WellFounded(finished) && best < |finished| && PathOf(finished, best) == PathOf(hypotheses, best)
  {
    PathUnchanged(hypotheses, finished, best);
  }

  ghost predicate AllInRange(lattice: Lattice, hypotheses: seq<Hypothesis>) {
    forall i :: 0 <= i < |hypotheses| ==> InRange(lattice, hypotheses[i])
  }
}