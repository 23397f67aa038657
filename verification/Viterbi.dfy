/** Why a beam of merged hypotheses finds the best path: every path is dominated by a stored
    hypothesis of the same state, even when a state is stored more than once. */
module Viterbi {
  import opened Common
  import opened Lattices
  import opened ActiveTable

  /** Every hypothesis extends an earlier one. */
  ghost predicate WellFounded(hypotheses: seq<Hypothesis>) {
    forall i :: 0 <= i < |hypotheses| && hypotheses[i].backpointer.Some? ==> hypotheses[i].backpointer.value < i
  }

  /** The words chosen along the backpointers of a hypothesis. */
  ghost function PathOf(hypotheses: seq<Hypothesis>, i: nat): seq<nat>
    requires WellFounded(hypotheses) && i < |hypotheses|
    decreases i
  {
    if hypotheses[i].backpointer.None? then []
    else PathOf(hypotheses, hypotheses[i].backpointer.value) + [hypotheses[i].current]
  }

  ghost predicate SameLinks(before: seq<Hypothesis>, after: seq<Hypothesis>) {
    |before| <= |after| &&
    forall i :: 0 <= i < |before| ==> after[i].backpointer == before[i].backpointer && after[i].current == before[i].current
  }

  lemma {:induction false} PathUnchanged(before: seq<Hypothesis>, after: seq<Hypothesis>, i: nat)
    requires WellFounded(before) && WellFounded(after) && SameLinks(before, after) && i < |before|
    ensures PathOf(after, i) == PathOf(before, i)
    decreases i
  {
    if before[i].backpointer.Some? {
      PathUnchanged(before, after, before[i].backpointer.value);
    }
  }

  /** The hypothesis stands for a path over the first `t` tokens and carries its score. */
  ghost predicate Represents(lattice: Lattice, hypotheses: seq<Hypothesis>, i: nat, t: nat)
    requires lattice.Valid() && WellFounded(hypotheses)
  {
    && i < |hypotheses|
    && var path := PathOf(hypotheses, i);
       && |path| == t && lattice.IsPath(path)
       && hypotheses[i].previous == At(path, t - 2)
       && hypotheses[i].current == At(path, t - 1)
       && hypotheses[i].score == PrefixScore(lattice, path)
  }

  lemma RepresentsEnds(lattice: Lattice, hypotheses: seq<Hypothesis>, i: nat, t: nat)
    requires lattice.Valid() && WellFounded(hypotheses) && Represents(lattice, hypotheses, i, t) && t <= lattice.Tokens()
    ensures i < |hypotheses| && EndsAt(lattice, t, hypotheses[i].current)
  {
    hide PrefixScore, WellFounded;
    PathEnds(lattice, PathOf(hypotheses, i));
  }

  /** Some live hypothesis of the state (`previous`, `current`) scores at least `score`. */
  ghost predicate Dominated(lattice: Lattice, hypotheses: seq<Hypothesis>, live: set<nat>, previous: nat, current: nat, score: real)
    requires lattice.Valid() && previous < |lattice.words| && current < |lattice.words|
  {
    exists e :: e in live && Dominates(lattice, hypotheses, e, previous, current, score)
  }

  ghost predicate Dominates(lattice: Lattice, hypotheses: seq<Hypothesis>, e: nat, previous: nat, current: nat, score: real)
    requires lattice.Valid() && previous < |lattice.words| && current < |lattice.words|
  {
    && e < |hypotheses| && InRange(lattice, hypotheses[e])
    && lattice.IdentityOf(hypotheses[e].previous) == lattice.IdentityOf(previous)
    && lattice.IdentityOf(hypotheses[e].current) == lattice.IdentityOf(current)
    && hypotheses[e].score >= score
  }

  ghost predicate PathDominated(lattice: Lattice, hypotheses: seq<Hypothesis>, live: set<nat>, path: seq<nat>)
    requires lattice.Valid() && lattice.IsPath(path)
  {
    PathInRange(lattice, path, |path| - 1);
    PathInRange(lattice, path, |path| - 2);
    Dominated(lattice, hypotheses, live, At(path, |path| - 2), At(path, |path| - 1), PrefixScore(lattice, path))
  }

  /** After `t` tokens: live hypotheses stand for paths, and every path is dominated. */
  ghost predicate Layer(lattice: Lattice, hypotheses: seq<Hypothesis>, live: set<nat>, t: nat)
    requires lattice.Valid()
  {
    && WellFounded(hypotheses)
    && (forall i :: i in live ==> Represents(lattice, hypotheses, i, t))
    && (forall path :: lattice.IsPath(path) && |path| == t ==> PathDominated(lattice, hypotheses, live, path))
  }

  /** The live hypotheses of a layer end in words that may stand before the next position. */
  lemma LayerEnds(lattice: Lattice, hypotheses: seq<Hypothesis>, live: set<nat>, t: nat)
    requires lattice.Valid() && Layer(lattice, hypotheses, live, t) && t <= lattice.Tokens()
    ensures forall i :: i in live ==> i < |hypotheses| && EndsAt(lattice, t, hypotheses[i].current)
  {
    hide Represents, PathDominated, WellFounded, EndsAt;
    forall i | i in live
      ensures i < |hypotheses| && EndsAt(lattice, t, hypotheses[i].current)
    {
      RepresentsEnds(lattice, hypotheses, i, t);
    }
  }

  /** `h` extends the hypothesis it points at by a candidate of token `t`. */
  ghost predicate ExtendsOne(lattice: Lattice, before: seq<Hypothesis>, t: nat, h: Hypothesis)
    requires lattice.Valid() && t < lattice.Tokens()
  {
    && h.backpointer.Some? && h.backpointer.value < |before|
    && lattice.InToken(t, h.current) && h.current < |lattice.words|
    && var b := before[h.backpointer.value];
       && InRange(lattice, b)
       && h.previous == b.current
       && h.score == b.score + lattice.Score(b.previous, b.current, h.current)
  }

  /** `h` extends a live hypothesis of the previous layer. */
  ghost predicate Extends(lattice: Lattice, before: seq<Hypothesis>, live: set<nat>, t: nat, h: Hypothesis)
    requires lattice.Valid() && t < lattice.Tokens()
  {
    ExtendsOne(lattice, before, t, h) && h.backpointer.value in live
  }

  /** Everything appended after `before` extends the previous layer, and nothing before it changed. */
  ghost predicate Appended(lattice: Lattice, before: seq<Hypothesis>, live: set<nat>, after: seq<Hypothesis>, next: set<nat>, t: nat)
    requires lattice.Valid() && t < lattice.Tokens()
  {
    && |before| <= |after| && after[..|before|] == before
    && (forall e :: e in next ==> |before| <= e < |after|)
    && (forall i :: |before| <= i < |after| ==> Extends(lattice, before, live, t, after[i]))
  }

  /** The extension of hypothesis `i` by candidate `a` is dominated in the next layer. */
  ghost predicate Covered(lattice: Lattice, before: seq<Hypothesis>, after: seq<Hypothesis>, next: set<nat>, i: nat, a: nat)
    requires lattice.Valid()
  {
    && i < |before| && InRange(lattice, before[i]) && a < |lattice.words|
    && Dominated(lattice, after, next, before[i].current, a,
                 before[i].score + lattice.Score(before[i].previous, before[i].current, a))
  }

  lemma AppendedIsWellFounded(lattice: Lattice, before: seq<Hypothesis>, live: set<nat>, after: seq<Hypothesis>, next: set<nat>, t: nat)
    requires lattice.Valid() && t < lattice.Tokens()
    requires WellFounded(before) && Appended(lattice, before, live, after, next, t)
    ensures WellFounded(after) && SameLinks(before, after)
  {
    assert forall i :: 0 <= i < |before| ==> after[i] == after[..|before|][i];
  }

  /** A path extended by one candidate. */
  lemma PathStep(lattice: Lattice, path: seq<nat>, a: nat)
    requires lattice.Valid() && lattice.IsPath(path) && |path| < lattice.Tokens() && lattice.InToken(|path|, a)
    ensures a < |lattice.words|
    ensures lattice.IsPath(path + [a])
    ensures At(path, |path| - 1) < |lattice.words| && At(path, |path| - 2) < |lattice.words|
    ensures At(path + [a], |path| - 1) == At(path, |path| - 1) && At(path + [a], |path|) == a
    ensures PrefixScore(lattice, path + [a]) ==
            PrefixScore(lattice, path) + lattice.Score(At(path, |path| - 2), At(path, |path| - 1), a)
  {
    var longer := path + [a];
    assert lattice.IsPath(longer);
    PathInRange(lattice, longer, |path|);
    PathInRange(lattice, path, |path| - 1);
    PathInRange(lattice, path, |path| - 2);
    assert longer[..|path|] == path;
  }

  lemma ExtendsLive(lattice: Lattice, before: seq<Hypothesis>, live: set<nat>, t: nat, h: Hypothesis)
    requires lattice.Valid() && t < lattice.Tokens() && Extends(lattice, before, live, t, h)
    ensures ExtendsOne(lattice, before, t, h) && h.backpointer.value in live
  {
  }

  lemma ExtensionRepresents(lattice: Lattice, before: seq<Hypothesis>, after: seq<Hypothesis>, t: nat, e: nat)
    requires lattice.Valid() && t < lattice.Tokens() && e < |after|
    requires WellFounded(before) && WellFounded(after) && SameLinks(before, after)
    requires ExtendsOne(lattice, before, t, after[e]) && Represents(lattice, before, after[e].backpointer.value, t)
    ensures Represents(lattice, after, e, t + 1)
  {
    hide PrefixScore, WellFounded, SameLinks;
    var b := after[e].backpointer.value;
    PathUnchanged(before, after, b);
    PathStep(lattice, PathOf(before, b), after[e].current);
    assert PathOf(after, e) == PathOf(before, b) + [after[e].current];
  }

  /** Equal states have equal futures. */
  lemma EqualStatesScoreEqually(lattice: Lattice, p: nat, c: nat, p': nat, c': nat, a: nat)
    requires lattice.Valid() && lattice.Consistent()
    requires p < |lattice.words| && c < |lattice.words| && p' < |lattice.words| && c' < |lattice.words| && a < |lattice.words|
    requires lattice.IdentityOf(p) == lattice.IdentityOf(p') && lattice.IdentityOf(c) == lattice.IdentityOf(c')
    ensures lattice.Score(p, c, a) == lattice.Score(p', c', a)
  {
  }

  lemma ExtensionDominated(lattice: Lattice, before: seq<Hypothesis>, after: seq<Hypothesis>, next: set<nat>,
                           i: nat, previous: nat, current: nat, score: real, a: nat)
    requires lattice.Valid() && lattice.Consistent() && a < |lattice.words|
    requires previous < |lattice.words| && current < |lattice.words|
    requires Dominates(lattice, before, i, previous, current, score) && Covered(lattice, before, after, next, i, a)
    ensures Dominated(lattice, after, next, current, a, score + lattice.Score(previous, current, a))
  {
    var b := before[i];
    EqualStatesScoreEqually(lattice, b.previous, b.current, previous, current, a);
    var e :| e in next && Dominates(lattice, after, e, b.current, a, b.score + lattice.Score(b.previous, b.current, a));
    assert Dominates(lattice, after, e, current, a, score + lattice.Score(previous, current, a));
  }

  lemma LongerPathDominated(lattice: Lattice, before: seq<Hypothesis>, live: set<nat>, after: seq<Hypothesis>, next: set<nat>,
                            path: seq<nat>, a: nat)
    requires lattice.Valid() && lattice.Consistent() && lattice.IsPath(path)
    requires |path| < lattice.Tokens() && lattice.InToken(|path|, a)
    requires forall i :: i in live ==> Covered(lattice, before, after, next, i, a)
    requires PathDominated(lattice, before, live, path)
    ensures lattice.IsPath(path + [a]) && PathDominated(lattice, after, next, path + [a])
  {
    hide PrefixScore, Dominates, Lattice.IsPath, Covered;
    PathStep(lattice, path, a);
    var t := |path|;
    var i :| i in live && Dominates(lattice, before, i, At(path, t - 2), At(path, t - 1), PrefixScore(lattice, path));
    ExtensionDominated(lattice, before, after, next, i, At(path, t - 2), At(path, t - 1), PrefixScore(lattice, path), a);
  }

  /** One token of the search keeps the layer invariant. */
  lemma LayerAdvances(lattice: Lattice, before: seq<Hypothesis>, live: set<nat>, after: seq<Hypothesis>, next: set<nat>, t: nat)
    requires lattice.Valid() && lattice.Consistent() && t < lattice.Tokens()
    requires Layer(lattice, before, live, t) && Appended(lattice, before, live, after, next, t)
    requires forall i, a :: i in live && lattice.InToken(t, a) ==> Covered(lattice, before, after, next, i, a)
    ensures Layer(lattice, after, next, t + 1)
  {
    hide Extends, Covered, Lattice.Consistent, PathDominated, PrefixScore;
    AppendedIsWellFounded(lattice, before, live, after, next, t);
    forall e | e in next
      ensures Represents(lattice, after, e, t + 1)
    {
      assert Extends(lattice, before, live, t, after[e]);
      ExtendsLive(lattice, before, live, t, after[e]);
      ExtensionRepresents(lattice, before, after, t, e);
    }
    forall path | lattice.IsPath(path) && |path| == t + 1
      ensures PathDominated(lattice, after, next, path)
    {
      assert lattice.IsPath(path[..t]) && lattice.InToken(t, path[t]) && path[..t] + [path[t]] == path;
      LongerPathDominated(lattice, before, live, after, next, path[..t], path[t]);
    }
  }

  /** The root hypothesis alone is the layer before the first token. */
  lemma RootLayer(lattice: Lattice, root: Hypothesis)
    requires lattice.Valid() && root.backpointer.None? && root.previous == root.current == 0 && root.score == 0.0
    ensures Layer(lattice, [root], {0}, 0)
  {
    var hypotheses := [root];
    assert PathOf(hypotheses, 0) == [];
    forall path | lattice.IsPath(path) && |path| == 0
      ensures PathDominated(lattice, hypotheses, {0}, path)
    {
      assert path == [];
      assert lattice.starts[0] < lattice.starts[|lattice.starts| - 1];
      assert Dominates(lattice, hypotheses, 0, 0, 0, PrefixScore(lattice, path));
    }
  }

  /** The score of a hypothesis once its transition into the end word is added. */
  function FinalScore(lattice: Lattice, h: Hypothesis): real
    requires h.previous < |lattice.words| && h.current < |lattice.words| && 1 < |lattice.words|
  {
    h.score + lattice.Score(h.previous, h.current, 1)
  }

  /** `best` is a live hypothesis of the highest final score. */
  ghost predicate BestFinished(lattice: Lattice, hypotheses: seq<Hypothesis>, live: set<nat>, best: nat)
    requires lattice.Valid()
  {
    && best in live && best < |hypotheses| && InRange(lattice, hypotheses[best])
    && forall i: nat :: i in live && i < |hypotheses| && InRange(lattice, hypotheses[i]) ==>
         FinalScore(lattice, hypotheses[i]) <= FinalScore(lattice, hypotheses[best])
  }

  lemma FinishedDominates(lattice: Lattice, hypotheses: seq<Hypothesis>, live: set<nat>, best: nat, path: seq<nat>)
    requires lattice.Valid() && lattice.Consistent() && BestFinished(lattice, hypotheses, live, best)
    requires lattice.IsPath(path) && |path| == lattice.Tokens() && PathDominated(lattice, hypotheses, live, path)
    ensures PathScore(lattice, path) <= FinalScore(lattice, hypotheses[best])
  {
    hide PrefixScore, Lattice.IsPath;
    var n := |path|;
    PathInRange(lattice, path, n - 1);
    PathInRange(lattice, path, n - 2);
    var i :| i in live && Dominates(lattice, hypotheses, i, At(path, n - 2), At(path, n - 1), PrefixScore(lattice, path));
    EqualStatesScoreEqually(lattice, hypotheses[i].previous, hypotheses[i].current, At(path, n - 2), At(path, n - 1), 1);
  }

  /** Choosing a best finished hypothesis of the last layer chooses a best path. */
  lemma BestOfLastLayer(lattice: Lattice, hypotheses: seq<Hypothesis>, live: set<nat>, best: nat)
    requires lattice.Valid() && lattice.Consistent() && Layer(lattice, hypotheses, live, lattice.Tokens())
    requires BestFinished(lattice, hypotheses, live, best)
    ensures Represents(lattice, hypotheses, best, lattice.Tokens())
    ensures PathScore(lattice, PathOf(hypotheses, best)) == FinalScore(lattice, hypotheses[best])
    ensures forall path :: lattice.IsPath(path) && |path| == lattice.Tokens() ==>
              PathScore(lattice, path) <= PathScore(lattice, PathOf(hypotheses, best))
  {
    hide WellFounded, PrefixScore, Lattice.Consistent, BestFinished, PathDominated;
    assert Represents(lattice, hypotheses, best, lattice.Tokens()) by { LiveRepresents(lattice, hypotheses, live, best); }
    FinishedPath(lattice, PathOf(hypotheses, best), hypotheses[best]);
    forall path | lattice.IsPath(path) && |path| == lattice.Tokens()
      ensures PathScore(lattice, path) <= FinalScore(lattice, hypotheses[best])
    {
      assert PathDominated(lattice, hypotheses, live, path);
      FinishedDominates(lattice, hypotheses, live, best, path);
    }
  }

  lemma LiveRepresents(lattice: Lattice, hypotheses: seq<Hypothesis>, live: set<nat>, best: nat)
    requires lattice.Valid() && Layer(lattice, hypotheses, live, lattice.Tokens()) && BestFinished(lattice, hypotheses, live, best)
    ensures Represents(lattice, hypotheses, best, lattice.Tokens())
    ensures InRange(lattice, hypotheses[best])
  {
  }

  lemma FinishedPath(lattice: Lattice, path: seq<nat>, h: Hypothesis)
    requires lattice.Valid() && lattice.IsPath(path) && |path| == lattice.Tokens() && InRange(lattice, h)
    requires h.previous == At(path, |path| - 2) && h.current == At(path, |path| - 1) && h.score == PrefixScore(lattice, path)
    ensures PathScore(lattice, path) == FinalScore(lattice, h)
  {
    hide PrefixScore, Lattice.IsPath;
  }

  /** Choosing the first candidate of every token is a path, so the last layer is never empty. */
  lemma LayerIsInhabited(lattice: Lattice, hypotheses: seq<Hypothesis>, live: set<nat>, t: nat)
    requires lattice.Valid() && t <= lattice.Tokens() && Layer(lattice, hypotheses, live, t)
    ensures live != {}
  {
    hide PrefixScore, WellFounded, Represents, Dominates;
    var path := lattice.starts[..t];
    assert lattice.IsPath(path) && |path| == t;
    assert PathDominated(lattice, hypotheses, live, path);
  }

  /** `reversed` lists the choices of the last tokens of a path, last token first. */
  ghost predicate ReadsBack(lattice: Lattice, path: seq<nat>, reversed: seq<nat>)
    requires lattice.Valid() && |path| == lattice.Tokens()
  {
    |reversed| <= |path| &&
    forall k :: 0 <= k < |reversed| ==> lattice.starts[|path| - 1 - k] + reversed[k] == path[|path| - 1 - k]
  }

  /** Reads the selection of a hypothesis off its backpointers, last token first. */
  method Reconstruct(lattice: Lattice, hypotheses: seq<Hypothesis>, best: nat) returns (selected: seq<nat>)
    requires lattice.Valid() && WellFounded(hypotheses) && best < |hypotheses|
    requires |PathOf(hypotheses, best)| == lattice.Tokens() && lattice.IsPath(PathOf(hypotheses, best))
    ensures IsSelection(lattice, selected)
    ensures GlobalPath(lattice, selected) == PathOf(hypotheses, best)
  {
    hide WellFounded, IsSelection, ReadsBack, Lattice.IsPath;
    ghost var path := PathOf(hypotheses, best);
    var n := lattice.Tokens();
    var reversed: seq<nat> := [];
    var cursor: nat := best;
    assert ReadsBack(lattice, path, reversed) by { NothingRead(lattice, path); }
    while hypotheses[cursor].backpointer.Some?
      invariant cursor < |hypotheses| && |reversed| <= n
      invariant PathOf(hypotheses, cursor) == path[..n - |reversed|]
      invariant ReadsBack(lattice, path, reversed)
      decreases n - |reversed|
    {
      var previous := BackpointerDecreases(hypotheses, cursor);
      var reverseToken := n - 1 - |reversed|;
      assert path[..n - |reversed|][reverseToken] == path[reverseToken];
      assert path[..n - |reversed|][..reverseToken] == path[..reverseToken];
      InPath(lattice, path, reverseToken);
      reversed := ReadOne(lattice, path, reversed, hypotheses[cursor].current);
      cursor := previous;
    }
    assert |reversed| == n;
    selected := seq(n, t requires 0 <= t < n => reversed[n - 1 - t]);
    ReadAll(lattice, path, reversed, selected);
  }

  lemma NothingRead(lattice: Lattice, path: seq<nat>)
    requires lattice.Valid() && |path| == lattice.Tokens()
    ensures ReadsBack(lattice, path, [])
  {
  }

  lemma InPath(lattice: Lattice, path: seq<nat>, t: nat)
    requires lattice.Valid() && lattice.IsPath(path) && t < |path|
    ensures lattice.InToken(t, path[t])
  {
  }

  method ReadOne(lattice: Lattice, ghost path: seq<nat>, reversed: seq<nat>, global: nat) returns (longer: seq<nat>)
    requires lattice.Valid() && |path| == lattice.Tokens() && ReadsBack(lattice, path, reversed) && |reversed| < |path|
    requires global == path[|path| - 1 - |reversed|] && lattice.InToken(|path| - 1 - |reversed|, global)
    ensures |longer| == |reversed| + 1 && ReadsBack(lattice, path, longer)
  {
    longer := reversed + [global - lattice.starts[lattice.Tokens() - 1 - |reversed|]];
  }

  lemma ReadAll(lattice: Lattice, path: seq<nat>, reversed: seq<nat>, selected: seq<nat>)
    requires lattice.Valid() && |path| == lattice.Tokens() && lattice.IsPath(path)
    requires ReadsBack(lattice, path, reversed) && |reversed| == |path| == |selected|
    requires forall t :: 0 <= t < |path| ==> selected[t] == reversed[|path| - 1 - t]
    ensures IsSelection(lattice, selected) && GlobalPath(lattice, selected) == path
  {
    forall t | 0 <= t < |path|
      ensures lattice.starts[t] + selected[t] == path[t] && lattice.InToken(t, path[t])
    {
      var k := |path| - 1 - t;
      assert reversed[k] == selected[t] && lattice.starts[|path| - 1 - k] + reversed[k] == path[|path| - 1 - k];
    }
  }

  method BackpointerDecreases(hypotheses: seq<Hypothesis>, i: nat) returns (previous: nat)
    requires WellFounded(hypotheses) && i < |hypotheses| && hypotheses[i].backpointer.Some?
    ensures previous == hypotheses[i].backpointer.value < i
    ensures PathOf(hypotheses, i) == PathOf(hypotheses, previous) + [hypotheses[i].current]
  {
    previous := hypotheses[i].backpointer.value;
  }
}
