/** The order of byte strings and index lists: element by element, a proper prefix first. */
module Lexicographic {

  predicate Before(a: seq<nat>, b: seq<nat>) {
    if b == [] then false
    else if a == [] then true
    else a[0] < b[0] || (a[0] == b[0] && Before(a[1..], b[1..]))
  }

  lemma {:induction false} BeforeIsTotal(a: seq<nat>, b: seq<nat>)
    ensures a == b || Before(a, b) || Before(b, a)
  {
    if a != [] && b != [] && a[0] == b[0] {
      BeforeIsTotal(a[1..], b[1..]);
      assert a == [a[0]] + a[1..] && b == [b[0]] + b[1..];
    }
  }

  lemma {:induction false} BeforeIsTransitive(a: seq<nat>, b: seq<nat>, c: seq<nat>)
    requires Before(a, b) && Before(b, c)
    ensures Before(a, c)
  {
    if a != [] && a[0] == b[0] && b[0] == c[0] {
      BeforeIsTransitive(a[1..], b[1..], c[1..]);
    }
  }

  lemma {:induction false} BeforeIsIrreflexive(a: seq<nat>)
    ensures !Before(a, a)
  {
    if a != [] {
      BeforeIsIrreflexive(a[1..]);
    }
  }

  /** At the first position where two lists differ, the earlier list has the smaller element or has ended. */
  ghost predicate Earlier(a: seq<nat>, b: seq<nat>) {
    exists k: nat :: DiffersAt(a, b, k)
  }

  ghost predicate DiffersAt(a: seq<nat>, b: seq<nat>, k: nat) {
    k <= |a| && k < |b| && a[..k] == b[..k] && (k == |a| || a[k] < b[k])
  }

  /** The recursive comparison decides at the first difference. */
  lemma {:induction false} BeforeIsEarlier(a: seq<nat>, b: seq<nat>)
    ensures Before(a, b) <==> Earlier(a, b)
  {
    if a == [] && b != [] {
      assert DiffersAt(a, b, 0);
    } else if a != [] && b != [] {
      if a[0] == b[0] {
        BeforeIsEarlier(a[1..], b[1..]);
        if k: nat :| DiffersAt(a[1..], b[1..], k) {
          DifferenceShifts(a, b, k);
          assert DiffersAt(a, b, k + 1);
        }
        if k: nat :| DiffersAt(a, b, k) {
          assert k > 0;
          DifferenceShifts(a, b, k - 1);
          assert DiffersAt(a[1..], b[1..], k - 1);
        }
      } else {
        assert a[0] < b[0] ==> DiffersAt(a, b, 0);
        if k: nat :| DiffersAt(a, b, k) {
          assert k > 0 ==> a[..k][0] == b[..k][0];
        }
      }
    }
  }

  lemma DifferenceShifts(a: seq<nat>, b: seq<nat>, k: nat)
    requires a != [] && b != [] && a[0] == b[0]
    ensures DiffersAt(a[1..], b[1..], k) <==> DiffersAt(a, b, k + 1)
  {
    if k < |a| && k + 1 <= |b| {
      assert a[..k + 1] == [a[0]] + a[1..][..k] && b[..k + 1] == [b[0]] + b[1..][..k];
      assert a[..k + 1][1..] == a[1..][..k] && b[..k + 1][1..] == b[1..][..k];
    }
  }
}
