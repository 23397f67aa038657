/** The left-to-right decoder, which chooses each token from its two previous choices only. */
module CausalDecoder {
  import opened Common
  import opened Lattices
  import opened TransitionCache
  import opened CachedScoring

  /** `b` is the first of the candidates from `lo` up to `hi` with the highest score after `p` and `c`. */
  ghost predicate FirstArgmax(lattice: Lattice, p: nat, c: nat, lo: nat, hi: nat, b: nat) {
    && p < |lattice.words| && c < |lattice.words| && lo <= b < hi <= |lattice.words|
    && (forall a :: lo <= a < b ==> lattice.Score(p, c, a) < lattice.Score(p, c, b))
    && (forall a :: b <= a < hi ==> lattice.Score(p, c, a) <= lattice.Score(p, c, b))
  }

  /** The choice at token `t` of a path: the only candidate, or the first best after the two previous choices. */
  ghost predicate CausalAt(lattice: Lattice, path: seq<nat>, t: nat)
    requires lattice.Valid() && lattice.IsPath(path) && t < |path|
  {
    var lo, hi := lattice.starts[t], lattice.starts[t + 1];
    if hi - lo == 1 then path[t] == lo
    else FirstArgmax(lattice, At(path, t - 2), At(path, t - 1), lo, hi, path[t])
  }

  ghost predicate Causal(lattice: Lattice, path: seq<nat>)
    requires lattice.Valid()
  {
    lattice.IsPath(path) && forall t :: 0 <= t < |path| ==> CausalAt(lattice, path, t)
  }

  lemma TokenInRange(lattice: Lattice, t: nat)
    requires lattice.Valid() && t < lattice.Tokens()
    ensures 2 <= lattice.starts[t] < lattice.starts[t + 1] <= |lattice.words|
  {
    assert lattice.starts[0] <= lattice.starts[t] && lattice.starts[t + 1] <= lattice.starts[|lattice.starts| - 1];
  }

  /** Scores the candidates of an ambiguous token and keeps the first best one. */
  method ChooseBest(lattice: Lattice, workspace: Workspace, t: nat, p: nat, c: nat, lo: nat, hi: nat) returns (best: nat)
    requires lattice.Valid() && Ready(lattice, workspace)
    requires t < lattice.Tokens() && lo == lattice.starts[t] && hi == lattice.starts[t + 1]
    requires p < |lattice.words| && c < |lattice.words| && EndsAt(lattice, t, c)
    modifies Footprint(workspace)
    ensures Ready(lattice, workspace) && FirstArgmax(lattice, p, c, lo, hi, best)
  {
    hide Ready, RowFits, EndsAt;
    TokenInRange(lattice, t);
    best := lo;
    var bestScore := None;
    var analysis := lo;
    while analysis < hi
      invariant lo <= analysis <= hi && Ready(lattice, workspace)
      invariant bestScore.None? ==> analysis == lo && best == lo
      invariant bestScore.Some? ==> FirstArgmax(lattice, p, c, lo, analysis, best) && bestScore.value == lattice.Score(p, c, best)
    {
      NoRowFits(lattice, Owners(workspace), p, c);
      var score, _ := ScoreTransition(lattice, t, p, c, analysis, None, workspace, false);
      if bestScore.None? || bestScore.value < score {
        best, bestScore := analysis, Some(score);
      }
      analysis := analysis + 1;
    }
  }

  lemma NoRowFits(lattice: Lattice, owners: seq<nat>, first: nat, second: nat)
    requires lattice.Valid() && first < |lattice.words| && second < |lattice.words|
    ensures RowFits(lattice, owners, first, second, None)
  {
  }

  lemma CausalExtends(lattice: Lattice, path: seq<nat>, a: nat)
    requires lattice.Valid() && Causal(lattice, path) && |path| < lattice.Tokens() && lattice.InToken(|path|, a)
    requires lattice.starts[|path| + 1] - lattice.starts[|path|] == 1 ||
             FirstArgmax(lattice, At(path, |path| - 2), At(path, |path| - 1), lattice.starts[|path|], lattice.starts[|path| + 1], a)
    ensures Causal(lattice, path + [a])
  {
    hide FirstArgmax;
    var longer := path + [a];
    assert lattice.IsPath(longer);
    forall t | 0 <= t < |longer|
      ensures CausalAt(lattice, longer, t)
    {
      assert At(longer, t - 1) == if t == |path| then At(path, |path| - 1) else At(path, t - 1);
      if t < |path| {
        assert CausalAt(lattice, path, t);
      }
    }
  }

  /** Chooses the next token; a single candidate is taken without scoring. */
  method ChooseNext(lattice: Lattice, workspace: Workspace, chosen: seq<nat>) returns (best: nat)
    requires lattice.Valid() && Ready(lattice, workspace) && Causal(lattice, chosen) && |chosen| < lattice.Tokens()
    modifies Footprint(workspace)
    ensures Ready(lattice, workspace) && lattice.InToken(|chosen|, best) && Causal(lattice, chosen + [best])
  {
    hide Ready, FirstArgmax, Causal, Lattice.IsPath;
    var t := |chosen|;
    TokenInRange(lattice, t);
    var lo, hi := lattice.starts[t], lattice.starts[t + 1];
    best := lo;
    if hi - lo != 1 {
      CausalPath(lattice, chosen);
      PathInRange(lattice, chosen, t - 1);
      PathInRange(lattice, chosen, t - 2);
      PathEnds(lattice, chosen);
      best := ChooseBest(lattice, workspace, t, At(chosen, t - 2), At(chosen, t - 1), lo, hi);
      ArgmaxInRange(lattice, At(chosen, t - 2), At(chosen, t - 1), lo, hi, best);
    }
    CausalExtends(lattice, chosen, best);
  }

  lemma CausalPath(lattice: Lattice, path: seq<nat>)
    requires lattice.Valid() && Causal(lattice, path)
    ensures lattice.IsPath(path)
  {
  }

  /** Decodes from left to right. */
  method DecodeCausal(lattice: Lattice, workspace: Workspace) returns (selected: seq<nat>)
    requires lattice.Valid() && Ready(lattice, workspace)
    modifies Footprint(workspace)
    ensures Ready(lattice, workspace)
    ensures IsSelection(lattice, selected) && Causal(lattice, GlobalPath(lattice, selected))
  {
    hide Ready, Causal, Lattice.IsPath, GlobalPath;
    selected := [];
    var chosen: seq<nat> := [];
    assert Causal(lattice, chosen) by { EmptyIsCausal(lattice); }
    var t := 0;
    while t < lattice.Tokens()
      invariant 0 <= t <= lattice.Tokens() && |selected| == |chosen| == t
      invariant Ready(lattice, workspace) && Causal(lattice, chosen)
      invariant forall u :: 0 <= u < t ==> lattice.starts[u] + selected[u] == chosen[u] && lattice.InToken(u, chosen[u])
    {
      var best := ChooseNext(lattice, workspace, chosen);
      selected := selected + [best - lattice.starts[t]];
      chosen := chosen + [best];
      t := t + 1;
    }
    ChosenIsSelection(lattice, selected, chosen);
  }

  lemma ChosenIsSelection(lattice: Lattice, selected: seq<nat>, chosen: seq<nat>)
    requires lattice.Valid() && |selected| == |chosen| == lattice.Tokens()
    requires forall u :: 0 <= u < |chosen| ==> lattice.starts[u] + selected[u] == chosen[u] && lattice.InToken(u, chosen[u])
    ensures IsSelection(lattice, selected) && GlobalPath(lattice, selected) == chosen
  {
    hide Lattice.Valid;
    forall u | 0 <= u < |selected|
      ensures lattice.starts[u] + selected[u] < lattice.starts[u + 1]
    {
      assert lattice.InToken(u, chosen[u]);
    }
    var path := GlobalPath(lattice, selected);
    forall u | 0 <= u < |path|
      ensures path[u] == chosen[u]
    {
      assert lattice.starts[u] + selected[u] == chosen[u];
    }
  }

  lemma EmptyIsCausal(lattice: Lattice)
    requires lattice.Valid()
    ensures Causal(lattice, [])
  {
  }

  lemma ArgmaxInRange(lattice: Lattice, p: nat, c: nat, lo: nat, hi: nat, b: nat)
    requires FirstArgmax(lattice, p, c, lo, hi, b)
    ensures lo <= b < hi
  {
  }

  /** Two sentences with the same scorer, the same begin word and the same first `m` tokens. */
  ghost predicate AgreeUpTo(left: Lattice, right: Lattice, m: nat)
    requires left.Valid() && right.Valid()
  {
    && m <= left.Tokens() && m <= right.Tokens()
    && left.trigram == right.trigram
    && left.words[0].features == right.words[0].features
    && left.starts[..m + 1] == right.starts[..m + 1]
    && forall i :: 2 <= i < left.starts[m] && i < |left.words| && i < |right.words| ==>
         left.words[i].features == right.words[i].features
  }

  lemma ArgmaxUnique(left: Lattice, right: Lattice, p: nat, c: nat, lo: nat, hi: nat, a: nat, b: nat)
    requires FirstArgmax(left, p, c, lo, hi, a) && FirstArgmax(right, p, c, lo, hi, b)
    requires forall i :: lo <= i < hi ==> left.Score(p, c, i) == right.Score(p, c, i)
    ensures a == b
  {
    assert left.Score(p, c, a) == right.Score(p, c, a) && left.Score(p, c, b) == right.Score(p, c, b);
  }

  /** No token after the first `m` can change the first `m` choices. */
  lemma {:induction false} PrefixStability(left: Lattice, right: Lattice, p: seq<nat>, q: seq<nat>, m: nat)
    requires left.Valid() && right.Valid() && AgreeUpTo(left, right, m)
    requires Causal(left, p) && Causal(right, q) && |p| >= m && |q| >= m
    ensures p[..m] == q[..m]
  {
    if m > 0 {
      var t := m - 1;
      AgreeLess(left, right, t);
      PrefixStability(left, right, p, q, t);
      SameChoice(left, right, p, q, t);
      assert p[..m] == p[..t] + [p[t]] && q[..m] == q[..t] + [q[t]];
    }
  }

  lemma AgreeLess(left: Lattice, right: Lattice, t: nat)
    requires left.Valid() && right.Valid() && AgreeUpTo(left, right, t + 1)
    ensures AgreeUpTo(left, right, t)
  {
    assert left.starts[..t + 1] == left.starts[..t + 2][..t + 1];
    assert right.starts[..t + 1] == right.starts[..t + 2][..t + 1];
  }

  lemma SameChoice(left: Lattice, right: Lattice, p: seq<nat>, q: seq<nat>, t: nat)
    requires left.Valid() && right.Valid() && AgreeUpTo(left, right, t + 1) && t < left.Tokens() && t < right.Tokens()
    requires Causal(left, p) && Causal(right, q) && |p| > t && |q| > t && p[..t] == q[..t]
    ensures p[t] == q[t]
  {
    hide FirstArgmax, AgreeUpTo;
    TokenInRange(left, t);
    TokenInRange(right, t);
    SameBounds(left, right, t);
    assert forall k :: 0 <= k < t ==> p[k] == p[..t][k] && q[k] == q[..t][k];
    var lo, hi := left.starts[t], left.starts[t + 1];
    assert CausalAt(left, p, t) && CausalAt(right, q, t);
    if hi - lo != 1 {
      EarlierWord(left, p, t, t - 1);
      EarlierWord(left, p, t, t - 2);
      EarlierWord(right, q, t, t - 1);
      EarlierWord(right, q, t, t - 2);
      SameScores(left, right, At(p, t - 2), At(p, t - 1), t);
      ArgmaxUnique(left, right, At(p, t - 2), At(p, t - 1), lo, hi, p[t], q[t]);
    }
  }

  lemma SameBounds(left: Lattice, right: Lattice, t: nat)
    requires left.Valid() && right.Valid() && AgreeUpTo(left, right, t + 1)
    ensures t + 1 < |left.starts| && t + 1 < |right.starts|
    ensures left.starts[t] == right.starts[t] && left.starts[t + 1] == right.starts[t + 1]
  {
    assert left.starts[t] == left.starts[..t + 2][t] == right.starts[t];
    assert left.starts[t + 1] == left.starts[..t + 2][t + 1] == right.starts[t + 1];
  }

  lemma SameScores(left: Lattice, right: Lattice, previous: nat, current: nat, t: nat)
    requires left.Valid() && right.Valid() && AgreeUpTo(left, right, t + 1) && t < left.Tokens() && t < right.Tokens()
    requires previous == 0 || 2 <= previous < left.starts[t]
    requires current == 0 || 2 <= current < left.starts[t]
    ensures previous < |left.words| && current < |left.words| && previous < |right.words| && current < |right.words|
    ensures forall a :: left.starts[t] <= a < left.starts[t + 1] ==>
              a < |left.words| && a < |right.words| && left.Score(previous, current, a) == right.Score(previous, current, a)
  {
    SameBounds(left, right, t);
    TokenInRange(left, t);
    TokenInRange(right, t);
    SameFeatures(left, right, t, previous);
    SameFeatures(left, right, t, current);
    forall a | left.starts[t] <= a < left.starts[t + 1]
      ensures left.Score(previous, current, a) == right.Score(previous, current, a)
    {
      SameFeatures(left, right, t, a);
    }
  }

  lemma SameFeatures(left: Lattice, right: Lattice, t: nat, i: nat)
    requires left.Valid() && right.Valid() && AgreeUpTo(left, right, t + 1) && t < left.Tokens() && t < right.Tokens()
    requires i == 0 || 2 <= i < left.starts[t + 1]
    ensures i < |left.words| && i < |right.words| && left.words[i].features == right.words[i].features
  {
    SameBounds(left, right, t);
    TokenInRange(left, t);
    TokenInRange(right, t);
  }

  /** The words chosen before token `t` precede its candidates. */
  lemma EarlierWord(lattice: Lattice, path: seq<nat>, t: nat, k: int)
    requires lattice.Valid() && lattice.IsPath(path) && k < t < |path|
    ensures At(path, k) == 0 || 2 <= At(path, k) < lattice.starts[t]
    ensures At(path, k) < |lattice.words|
  {
    if k >= 0 {
      assert lattice.InToken(k, path[k]);
      TokenInRange(lattice, k);
      assert lattice.starts[k + 1] <= lattice.starts[t];
    }
  }
}
