/** Walking back through the arena finds what the history of a path says. */
module PathWalks {
  import opened Common
  import opened ConditionLanguage
  import opened ConditionMeaning
  import opened ConditionVm

  lemma PreviousStep(arena: seq<PathNode>, node: nat)
    requires Rooted(arena) && node < |arena|
    ensures var h, parent := History(arena, node), arena[node].parent;
            (parent.Some? <==> |h| >= 2) && (parent.Some? ==> h[|h| - 2] == arena[parent.value])
  {
  }

  /** The group walked through is the group of the last step. */
  lemma {:induction false} GroupIs(arena: seq<PathNode>, node: nat)
    requires Rooted(arena) && node < |arena|
    ensures var g, h := Group(arena, node), History(arena, node);
            && |g| < |h|
            && (forall k, i :: 0 <= k < |g| && i == |h| - 1 - k ==> g[k] == h[i])
            && (forall i: nat :: InGroup(h, i, |h|) <==> |h| - |g| <= i < |h|)
    decreases node
  {
    var g, h := Group(arena, node), History(arena, node);
    if arena[node].parent.Some? {
      var front := History(arena, arena[node].parent.value);
      assert h == front + [arena[node]];
      GroupIs(arena, arena[node].parent.value);
      forall i: nat
        ensures InGroup(h, i, |h|) <==> i == |h| - 1 || (!arena[node].derivative && InGroup(front, i, |front|))
      {
        GroupOfLonger(front, arena[node], i);
      }
    }
  }

  lemma GroupOfLonger(front: seq<PathNode>, last: PathNode, i: nat)
    requires front != []
    ensures var h := front + [last]; InGroup(h, i, |h|) <==> i == |front| || (!last.derivative && InGroup(front, i, |front|))
  {
    var h := front + [last];
    assert h[|front|] == last;
    if InGroup(front, i, |front|) && !last.derivative {
      assert forall j :: i < j < |h| ==> !h[j].derivative;
    }
    if InGroup(h, i, |h|) && i < |front| {
      assert forall j :: i < j < |front| ==> front[j] == h[j];
    }
  }

  lemma GroupMembers(arena: seq<PathNode>, node: nat, list: seq<nat>)
    requires Rooted(arena) && node < |arena|
    ensures var g, h := Group(arena, node), History(arena, node);
            && (HasState(g, list) <==> exists i: nat :: InGroup(h, i, |h|) && h[i].state in list)
            && (HasMorpheme(g, list) <==> exists i: nat :: InGroup(h, i, |h|) && h[i].morpheme in list)
  {
    hide InGroup, HasState, HasMorpheme, Group, Rooted;
    GroupIs(arena, node);
    Mirrored(Group(arena, node), History(arena, node), list);
  }

  lemma Mirrored(g: seq<PathNode>, h: seq<PathNode>, list: seq<nat>)
    requires |g| < |h| && forall k, i :: 0 <= k < |g| && i == |h| - 1 - k ==> g[k] == h[i]
    ensures HasState(g, list) <==> exists i: nat :: |h| - |g| <= i < |h| && h[i].state in list
    ensures HasMorpheme(g, list) <==> exists i: nat :: |h| - |g| <= i < |h| && h[i].morpheme in list
  {
    forall i: nat | |h| - |g| <= i < |h|
      ensures h[i] in g
    {
      assert g[|h| - 1 - i] == h[i];
    }
    forall k | 0 <= k < |g|
      ensures g[k] in h[|h| - |g|..]
    {
      assert h[|h| - |g|..][|g| - 1 - k] == h[|h| - 1 - k] == g[k];
    }
  }

  lemma LastDerivationOfLonger(front: seq<PathNode>, last: PathNode, d: nat)
    requires front != []
    ensures LastDerivation(front + [last], d) <==> if last.derivative then d == |front| else LastDerivation(front, d)
  {
    var h := front + [last];
    assert h[|front|] == last;
    assert forall j :: 0 <= j < |front| ==> h[j] == front[j];
    if LastDerivation(front, d) && !last.derivative {
      assert Undivided(h, d, |h|);
    }
  }

  /** The derivation found is the last one, and the steps before it are the history of its parent. */
  lemma {:induction false} LastDerivedIs(arena: seq<PathNode>, node: nat)
    requires Rooted(arena) && node < |arena|
    ensures LastDerived(arena, node).None? ==>
              forall i :: 0 < i < |History(arena, node)| ==> !History(arena, node)[i].derivative
    ensures var m, h := LastDerived(arena, node), History(arena, node);
            m.Some? ==> var d := arena[m.value].depth - 1;
                        LastDerivation(h, d) && h[d] == arena[m.value] && History(arena, arena[m.value].parent.value) == h[..d]
    decreases node
  {
    hide LastDerivation;
    var h := History(arena, node);
    if arena[node].parent.Some? {
      var front := History(arena, arena[node].parent.value);
      assert h == front + [arena[node]] && h[..|front|] == front;
      LastDerivedIs(arena, arena[node].parent.value);
      forall d: nat
        ensures LastDerivation(h, d) <==> if arena[node].derivative then d == |front| else LastDerivation(front, d)
      {
        LastDerivationOfLonger(front, arena[node], d);
      }
      LastDerivationsWithin(front);
      var m := LastDerived(arena, node);
      if arena[node].derivative {
        assert LastDerivation(h, |front|);
      } else if m.Some? {
        var d := arena[m.value].depth - 1;
        assert front[..d] == h[..d] && h[d] == front[d];
      }
    }
  }

  lemma LastDerivationsWithin(h: seq<PathNode>)
    ensures forall d: nat :: LastDerivation(h, d) ==> 0 < d < |h| && h[d].derivative
  {
  }

  lemma OneLastDerivation(h: seq<PathNode>, d: nat, e: nat)
    requires LastDerivation(h, d) && LastDerivation(h, e)
    ensures d == e
  {
  }

  lemma GroupOfPrefix(h: seq<PathNode>, i: nat, d: nat)
    requires d <= |h|
    ensures InGroup(h, i, d) <==> InGroup(h[..d], i, d)
    ensures i < d ==> h[..d][i] == h[i]
  {
    assert forall j :: 0 <= j < d ==> h[..d][j] == h[j];
  }

  /** The previous group is the one that ends where the last derivation begins. */
  lemma PreviousGroupMembers(arena: seq<PathNode>, node: nat, list: seq<nat>)
    requires Rooted(arena) && node < |arena|
    ensures var g, h := PreviousGroup(arena, node), History(arena, node);
            && (HasState(g, list) <==> exists i: nat, d: nat :: LastDerivation(h, d) && InGroup(h, i, d) && h[i].state in list)
            && (HasMorpheme(g, list) <==> exists i: nat, d: nat :: LastDerivation(h, d) && InGroup(h, i, d) && h[i].morpheme in list)
  {
    hide InGroup, LastDerivation, HasState, HasMorpheme, Group;
    LastDerivedIs(arena, node);
    NothingContained(list);
    var m, h := LastDerived(arena, node), History(arena, node);
    GroupsWithin(h);
    if m.Some? {
      var d := arena[m.value].depth - 1;
      var front := h[..d];
      GroupMembers(arena, arena[m.value].parent.value, list);
      forall i: nat
        ensures InGroup(h, i, d) <==> InGroup(front, i, d)
        ensures i < d ==> front[i] == h[i]
      {
        GroupOfPrefix(h, i, d);
      }
      forall e: nat | LastDerivation(h, e)
        ensures e == d
      {
        OneLastDerivation(h, e, d);
      }
    }
  }

  lemma GroupsWithin(h: seq<PathNode>)
    ensures forall i: nat, end: nat :: InGroup(h, i, end) ==> 0 < i < end <= |h|
    ensures forall d: nat :: LastDerivation(h, d) ==> 0 < d < |h| && h[d].derivative
  {
  }

  lemma {:induction false} SurfaceFreeIs(arena: seq<PathNode>, node: nat)
    requires Rooted(arena) && node < |arena|
    ensures var h := History(arena, node);
            SurfaceFree(arena, node) <==> QuietSinceDerivation(h)
    decreases node
  {
    var h := History(arena, node);
    if arena[node].parent.Some? {
      var front, n := History(arena, arena[node].parent.value), |h| - 1;
      assert h == front + [arena[node]] && h[n] == arena[node];
      assert forall j :: 0 <= j < |front| ==> h[j] == front[j];
      assert arena[node].derivative ==> Derives(h, n);
      assert arena[node].surface != "" ==> Spells(h, n);
      if !arena[node].derivative && arena[node].surface == "" {
        SurfaceFreeIs(arena, arena[node].parent.value);
        assert forall i: nat :: Spells(h, i) <==> Spells(front, i);
        assert forall i: nat :: Derives(h, i) <==> Derives(front, i);
      } else if arena[node].derivative {
        assert forall i: nat :: Spells(h, i) ==> i <= n && Derives(h, n);
      } else {
        assert Spells(h, n) && !SurfaceFree(arena, node);
        assert !exists d: nat :: n <= d && Derives(h, d);
      }
    } else {
      assert forall i: nat :: !Spells(h, i);
    }
  }

  ghost predicate EndsWith(h: seq<PathNode>, list: seq<nat>) {
    |list| <= |h| && Window(h, |h| - |list|, list)
  }

  lemma ShortEnds(h: seq<PathNode>, list: seq<nat>)
    ensures list == [] ==> EndsWith(h, list)
    ensures list != [] && h == [] ==> !EndsWith(h, list)
  {
  }

  /** The steps up to a node; none when there is none. */
  ghost function Back(arena: seq<PathNode>, node: Option<nat>): seq<PathNode>
    requires Rooted(arena) && (node.Some? ==> node.value < |arena|)
  {
    if node.Some? then History(arena, node.value) else []
  }

  lemma ParentBelow(arena: seq<PathNode>, node: nat)
    requires Rooted(arena) && node < |arena|
    ensures var parent := arena[node].parent;
            (parent.Some? ==> parent.value < node) && Back(arena, Some(node)) == Back(arena, parent) + [arena[node]]
  {
  }

  /** The list stands at the end of the history. */
  lemma {:induction false} TailIsWindow(arena: seq<PathNode>, node: Option<nat>, list: seq<nat>)
    requires Rooted(arena) && (node.Some? ==> node.value < |arena|)
    ensures TailIs(arena, node, list) <==> EndsWith(Back(arena, node), list)
    decreases |list|
  {
    hide EndsWith, Rooted, History;
    ShortEnds(Back(arena, node), list);
    if list != [] && node.Some? {
      hide Back;
      ParentBelow(arena, node.value);
      TailIsWindow(arena, arena[node.value].parent, list[..|list| - 1]);
      WindowNext(Back(arena, arena[node.value].parent), arena[node.value], list);
    }
  }

  lemma WindowNext(front: seq<PathNode>, node: PathNode, list: seq<nat>)
    requires list != []
    ensures var last := |list| - 1;
            EndsWith(front + [node], list) <==> EndsWith(front, list[..last]) && node.morpheme == list[last]
  {
    var h, last := front + [node], |list| - 1;
    if |list| <= |h| {
      var k := |h| - |list|;
      assert forall i :: 0 <= i < last ==> h[k + i] == front[k + i] && list[..last][i] == list[i];
      assert h[k + last] == node;
      if Window(h, k, list) {
        assert h[k + last].morpheme == list[last];
        forall i | 0 <= i < last
          ensures front[k + i].morpheme == list[..last][i]
        {
          assert h[k + i].morpheme == list[i];
        }
      }
      if Window(front, k, list[..last]) && node.morpheme == list[last] {
        forall i | 0 <= i < |list|
          ensures h[k + i].morpheme == list[i]
        {
          if i < last {
            assert front[k + i].morpheme == list[..last][i];
          }
        }
      }
    }
  }
}
