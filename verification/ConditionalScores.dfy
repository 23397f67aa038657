/** Conditional candidate scores along a selected path. */
module ConditionalScores {
  import opened Common
  import opened Lattices

  /** The score of word `t` of a complete path; position `|path|` is the end word. */
  ghost function Term(lattice: Lattice, path: seq<nat>, t: nat): real
    requires lattice.Valid() && lattice.IsPath(path) && |path| == lattice.Tokens() && t <= |path|
  {
    PathInRange(lattice, path, t - 1);
    PathInRange(lattice, path, t - 2);
    if t == |path| then lattice.Score(At(path, t - 2), At(path, t - 1), 1)
    else
      PathInRange(lattice, path, t);
      lattice.Score(At(path, t - 2), At(path, t - 1), path[t])
  }

  lemma {:induction false} PrefixIsPath(lattice: Lattice, path: seq<nat>, k: nat)
    requires lattice.Valid() && lattice.IsPath(path) && k <= |path|
    ensures lattice.IsPath(path[..k])
  {
  }

  lemma PrefixTerm(lattice: Lattice, path: seq<nat>, k: nat)
    requires lattice.Valid() && lattice.IsPath(path) && |path| == lattice.Tokens() && k < |path|
    ensures lattice.IsPath(path[..k]) && lattice.IsPath(path[..k + 1])
    ensures PrefixScore(lattice, path[..k + 1]) == PrefixScore(lattice, path[..k]) + Term(lattice, path, k)
  {
    var longer := path[..k + 1];
    PrefixIsPath(lattice, path, k + 1);
    assert longer[..k] == path[..k];
    assert At(longer, k - 1) == At(path, k - 1) && At(longer, k - 2) == At(path, k - 2);
  }

  /** The factors of the total score that position `i` takes part in, up to and including word `k`. */
  ghost function Touched(lattice: Lattice, path: seq<nat>, i: nat, k: nat): real
    requires lattice.Valid() && lattice.IsPath(path) && |path| == lattice.Tokens() && i < |path| && k <= |path| + 1
  {
    (if i < k then Term(lattice, path, i) else 0.0) +
    (if i + 1 < k then Term(lattice, path, i + 1) else 0.0) +
    (if i + 2 < k then Term(lattice, path, i + 2) else 0.0)
  }

  lemma ReplacedIsPath(lattice: Lattice, path: seq<nat>, i: nat, a: nat)
    requires lattice.Valid() && lattice.IsPath(path) && i < |path| && lattice.InToken(i, a)
    ensures lattice.IsPath(path[i := a])
  {
  }

  /** Words more than two positions away from `i` do not see it. */
  lemma UntouchedTerm(lattice: Lattice, path: seq<nat>, i: nat, a: nat, t: nat)
    requires lattice.Valid() && lattice.IsPath(path) && |path| == lattice.Tokens() && i < |path| && lattice.InToken(i, a)
    requires t <= |path| && (t < i || t > i + 2)
    ensures lattice.IsPath(path[i := a]) && Term(lattice, path[i := a], t) == Term(lattice, path, t)
  {
    var other := path[i := a];
    assert At(other, t - 1) == At(path, t - 1) && At(other, t - 2) == At(path, t - 2);
  }

  lemma {:induction false} PrefixDelta(lattice: Lattice, path: seq<nat>, i: nat, a: nat, k: nat)
    requires lattice.Valid() && lattice.IsPath(path) && |path| == lattice.Tokens() && i < |path| && lattice.InToken(i, a)
    requires k <= |path|
    ensures lattice.IsPath(path[i := a]) && lattice.IsPath(path[..k]) && lattice.IsPath(path[i := a][..k])
    ensures PrefixScore(lattice, path[i := a][..k]) - PrefixScore(lattice, path[..k])
            == Touched(lattice, path[i := a], i, k) - Touched(lattice, path, i, k)
  {
    hide PrefixScore, Term;
    ReplacedIsPath(lattice, path, i, a);
    var other := path[i := a];
    PrefixIsPath(lattice, path, k);
    PrefixIsPath(lattice, other, k);
    if k > 0 {
      PrefixDelta(lattice, path, i, a, k - 1);
      PrefixTerm(lattice, path, k - 1);
      PrefixTerm(lattice, other, k - 1);
      if k - 1 < i || k - 1 > i + 2 {
        UntouchedTerm(lattice, path, i, a, k - 1);
      }
    } else {
      assert other[..0] == path[..0];
    }
  }

  /** The sum the scorer computes for candidate `a` at position `i` while all other positions stay selected. */
  ghost function LocalScore(lattice: Lattice, path: seq<nat>, i: nat, a: nat): real
    requires lattice.Valid() && lattice.IsPath(path) && |path| == lattice.Tokens() && i < |path| && lattice.InToken(i, a)
  {
    ReplacedIsPath(lattice, path, i, a);
    Touched(lattice, path[i := a], i, |path| + 1)
  }

  /** Differences of conditional scores are exactly differences of total path scores, also at the ends. */
  lemma ExactDelta(lattice: Lattice, path: seq<nat>, i: nat, a: nat)
    requires lattice.Valid() && lattice.IsPath(path) && |path| == lattice.Tokens() && i < |path| && lattice.InToken(i, a)
    ensures lattice.IsPath(path[i := a]) && lattice.InToken(i, path[i])
    ensures LocalScore(lattice, path, i, a) - LocalScore(lattice, path, i, path[i])
            == PathScore(lattice, path[i := a]) - PathScore(lattice, path)
  {
    hide PrefixScore, Term;
    ReplacedIsPath(lattice, path, i, a);
    var n, other := |path|, path[i := a];
    assert path[i := path[i]] == path && path[..n] == path && other[..n] == other;
    PrefixDelta(lattice, path, i, a, n);
    PathScoreSplit(lattice, path);
    PathScoreSplit(lattice, other);
    if n > i + 2 {
      UntouchedTerm(lattice, path, i, a, n);
    }
  }

  lemma PathScoreSplit(lattice: Lattice, path: seq<nat>)
    requires lattice.Valid() && lattice.IsPath(path) && |path| == lattice.Tokens()
    ensures PathScore(lattice, path) == PrefixScore(lattice, path) + Term(lattice, path, |path|)
  {
  }

  /** One candidate: the trigrams it closes, continues and opens, with the end word where the sentence ends. */
  method ScoreCandidate(lattice: Lattice, selected: seq<nat>, i: nat, a: nat) returns (score: real)
    requires lattice.Valid() && IsSelection(lattice, selected) && i < |selected| && lattice.InToken(i, a)
    requires lattice.IsPath(GlobalPath(lattice, selected))
    ensures score == LocalScore(lattice, GlobalPath(lattice, selected), i, a)
  {
    var path := GlobalPath(lattice, selected);
    var n := |path|;
    ReplacedIsPath(lattice, path, i, a);
    ghost var other := path[i := a];
    Reaches(lattice, path, i, a);
    var older := if i >= 2 then path[i - 2] else 0;
    var previous := if i >= 1 then path[i - 1] else 0;
    score := lattice.Score(older, previous, a);
    assert Term(lattice, other, i) == score;
    if i + 1 < n {
      score := score + lattice.Score(previous, a, path[i + 1]);
    }
    if i + 2 < n {
      score := score + lattice.Score(a, path[i + 1], path[i + 2]);
    }
    if i + 1 == n {
      score := score + lattice.Score(previous, a, 1);
    } else if i + 2 == n {
      score := score + lattice.Score(a, path[i + 1], 1);
    }
  }

  lemma Reaches(lattice: Lattice, path: seq<nat>, i: nat, a: nat)
    requires lattice.Valid() && lattice.IsPath(path) && i < |path| && lattice.InToken(i, a)
    ensures a < |lattice.words| && forall t :: 0 <= t < |path| ==> path[t] < |lattice.words|
  {
    forall t | 0 <= t < |path|
      ensures path[t] < |lattice.words|
    {
      PathInRange(lattice, path, t);
    }
    ReplacedIsPath(lattice, path, i, a);
    PathInRange(lattice, path[i := a], i);
  }

  /** Scores every candidate of every token; fails exactly when the given choices are not a selection. */
  method ConditionalCandidateScores(lattice: Lattice, selected: seq<nat>) returns (rows: Option<seq<seq<real>>>)
    requires lattice.Valid()
    ensures rows.Some? <==> IsSelection(lattice, selected)
    ensures rows.Some? ==> |rows.value| == |selected|
    ensures rows.Some? ==> forall i :: 0 <= i < |selected| ==> RowOfDeltas(lattice, selected, i, rows.value[i])
  {
    if |selected| != lattice.Tokens() {
      return None;
    }
    var t := 0;
    while t < |selected|
      invariant 0 <= t <= |selected|
      invariant forall u :: 0 <= u < t ==> lattice.starts[u] + selected[u] < lattice.starts[u + 1]
    {
      if lattice.starts[t] + selected[t] >= lattice.starts[t + 1] {
        return None;
      }
      t := t + 1;
    }
    SelectionIsPath(lattice, selected);
    var result: seq<seq<real>> := [];
    while |result| < |selected|
      invariant |result| <= |selected|
      invariant forall i :: 0 <= i < |result| ==> RowOfDeltas(lattice, selected, i, result[i])
    {
      var row := ScoreToken(lattice, selected, |result|);
      result := result + [row];
    }
    return Some(result);
  }

  lemma SelectionIsPath(lattice: Lattice, selected: seq<nat>)
    requires lattice.Valid() && IsSelection(lattice, selected)
    ensures lattice.IsPath(GlobalPath(lattice, selected))
  {
  }

  /** A row holds the local score of every candidate of token `i`, in order. */
  ghost predicate RowOfLocalScores(lattice: Lattice, selected: seq<nat>, i: nat, row: seq<real>)
    requires lattice.Valid() && IsSelection(lattice, selected) && lattice.IsPath(GlobalPath(lattice, selected)) && i < |selected|
  {
    && lattice.starts[i] + |row| == lattice.starts[i + 1]
    && forall c :: 0 <= c < |row| ==> row[c] == LocalScore(lattice, GlobalPath(lattice, selected), i, lattice.starts[i] + c)
  }

  /** Entry minus selected entry is what choosing candidate `c` instead would add to the total score. */
  ghost predicate IsDelta(lattice: Lattice, selected: seq<nat>, i: nat, row: seq<real>, c: nat)
    requires lattice.Valid() && IsSelection(lattice, selected) && i < |selected| && c < |row| && selected[i] < |row|
  {
    && IsSelection(lattice, selected[i := c])
    && row[c] - row[selected[i]] == SelectionScore(lattice, selected[i := c]) - SelectionScore(lattice, selected)
  }

  /** A row has one entry for every candidate of token `i`, and its differences are differences of total scores. */
  ghost predicate RowOfDeltas(lattice: Lattice, selected: seq<nat>, i: nat, row: seq<real>)
    requires lattice.Valid() && IsSelection(lattice, selected) && i < |selected|
  {
    && lattice.starts[i] + |row| == lattice.starts[i + 1] && selected[i] < |row|
    && forall c :: 0 <= c < |row| ==> IsDelta(lattice, selected, i, row, c)
  }

  lemma LocalScoresAreDeltas(lattice: Lattice, selected: seq<nat>, i: nat, row: seq<real>)
    requires lattice.Valid() && IsSelection(lattice, selected) && lattice.IsPath(GlobalPath(lattice, selected)) && i < |selected|
    requires RowOfLocalScores(lattice, selected, i, row)
    ensures RowOfDeltas(lattice, selected, i, row)
  {
    hide LocalScore, PathScore;
    var path := GlobalPath(lattice, selected);
    assert path[i] == lattice.starts[i] + selected[i];
    assert lattice.starts[i] + selected[i] < lattice.starts[i + 1];
    forall c | 0 <= c < |row|
      ensures IsDelta(lattice, selected, i, row, c)
    {
      ExactDelta(lattice, path, i, lattice.starts[i] + c);
      var other := selected[i := c];
      assert IsSelection(lattice, other);
      assert GlobalPath(lattice, other) == path[i := lattice.starts[i] + c];
    }
  }

  method ScoreToken(lattice: Lattice, selected: seq<nat>, i: nat) returns (row: seq<real>)
    requires lattice.Valid() && IsSelection(lattice, selected) && i < |selected| && lattice.IsPath(GlobalPath(lattice, selected))
    ensures RowOfDeltas(lattice, selected, i, row)
  {
    hide LocalScore, SelectionScore;
    row := [];
    while lattice.starts[i] + |row| < lattice.starts[i + 1]
      invariant lattice.starts[i] + |row| <= lattice.starts[i + 1]
      invariant forall c :: 0 <= c < |row| ==> row[c] == LocalScore(lattice, GlobalPath(lattice, selected), i, lattice.starts[i] + c)
    {
      var score := ScoreCandidate(lattice, selected, i, lattice.starts[i] + |row|);
      row := row + [score];
    }
    LocalScoresAreDeltas(lattice, selected, i, row);
  }
}
