/** The closure-table view of the node store: ancestry derived from the parent links,
    and the facts about walks up the tree that the mutation lemmas are built from. */
module Closure {
  import opened Entity

  /** The node reached after k steps up from `x`: `Some(x)` when k is 0, `None` once
      the walk has stepped past a root. */
  function Up(s: Store, x: int, k: nat): (r: Option<int>)
    ensures k >= 1 && r.Some? ==> x in s && r.value in s
    decreases k
  {
    if k == 0 then Some(x)
    else match Link(s, x)
      case None => None
      case Some(p) => Up(s, p, k - 1)
  }

  /** `a` is a proper ancestor of `d`: some walk of one or more steps up from `d` meets `a`. */
  ghost predicate IsAncestor(s: Store, a: int, d: int)
  {
    exists k: nat :: 1 <= k && Up(s, d, k) == Some(a)
  }

  /** The forest invariant: no node is its own ancestor. */
  ghost predicate Acyclic(s: Store)
  {
    forall x :: !IsAncestor(s, x, x)
  }

  /** `d` lies in the subtree rooted at `n` (n itself included). */
  ghost predicate InSubtree(s: Store, n: int, d: int)
  {
    d == n || IsAncestor(s, n, d)
  }

  /** The row (a, d) of the closure table: `d` is stored and `a` is `d` or one of its ancestors. */
  ghost predicate InClosure(s: Store, a: int, d: int)
  {
    d in s && (a == d || IsAncestor(s, a, d))
  }

  /** The whole closure table of a store. */
  ghost function ClosureTable(s: Store): set<(int, int)>
  {
    set a, d | a in s && d in s && InClosure(s, a, d) :: (a, d)
  }

  lemma AncestorIsStored(s: Store, a: int, d: int)
    requires IsAncestor(s, a, d)
    ensures a in s && d in s
  {
    var k: nat :| 1 <= k && Up(s, d, k) == Some(a);
  }

  /** Walking i steps and then j steps is walking i + j steps. */
  lemma {:induction false} UpAdd(s: Store, x: int, i: nat, j: nat)
    ensures Up(s, x, i + j) == match Up(s, x, i) case None => None case Some(y) => Up(s, y, j)
    decreases i
  {
    if i > 0 {
      match Link(s, x)
      case None =>
      case Some(p) => UpAdd(s, p, i - 1, j);
    }
  }

  lemma UpNoneStays(s: Store, x: int, i: nat, j: nat)
    requires i <= j && Up(s, x, i).None?
    ensures Up(s, x, j).None?
  {
    UpAdd(s, x, i, j - i);
  }

  /** A walk that reaches something after k steps met a stored node at every earlier step. */
  lemma UpPrefixStored(s: Store, x: int, k: nat, i: nat)
    requires 1 <= k && Up(s, x, k).Some? && i < k
    ensures Up(s, x, i).Some? && Up(s, x, i).value in s
  {
    UpAdd(s, x, i, k - i);
    if i == 0 {
      assert x in s;
    }
  }

  /** The set of nodes met in the first k steps of the walk up from `x`. */
  ghost function Visited(s: Store, x: int, k: nat): set<int>
  {
    if k == 0 then {}
    else Visited(s, x, k - 1) + (match Up(s, x, k - 1) case None => {} case Some(y) => {y})
  }

  lemma {:induction false} VisitedCard(s: Store, x: int, k: nat)
    requires forall i :: 0 <= i < k ==> Up(s, x, i).Some? && Up(s, x, i).value in s
    requires forall i, j :: 0 <= i < j < k ==> Up(s, x, i) != Up(s, x, j)
    ensures |Visited(s, x, k)| == k
    ensures Visited(s, x, k) <= s.Keys
    ensures forall y :: y in Visited(s, x, k) ==> exists i :: 0 <= i < k && Up(s, x, i) == Some(y)
  {
    if k > 0 {
      VisitedCard(s, x, k - 1);
      var y := Up(s, x, k - 1).value;
      if y in Visited(s, x, k - 1) {
        assert false;
      }
      assert Visited(s, x, k) == Visited(s, x, k - 1) + {y};
      forall z | z in Visited(s, x, k) ensures exists i :: 0 <= i < k && Up(s, x, i) == Some(z) {
        if z in Visited(s, x, k - 1) {
          var i :| 0 <= i < k - 1 && Up(s, x, i) == Some(z);
          assert 0 <= i < k;
        } else {
          assert Up(s, x, k - 1) == Some(z);
        }
      }
      assert forall z :: z in Visited(s, x, k) ==> exists i :: 0 <= i < k && Up(s, x, i) == Some(z);
    }
  }

  lemma SubsetCard(a: set<int>, b: set<int>)
    requires a <= b
    ensures |a| <= |b|
  {
    assert b == a + (b - a);
    assert a * (b - a) == {};
  }

  /** Pigeonhole: a walk that comes back to its start does so within as many steps as
      there are stored nodes. */
  lemma {:induction false} ReturnWithinStore(s: Store, x: int, k: nat)
    requires 1 <= k && Up(s, x, k) == Some(x)
    ensures exists m :: 1 <= m <= |s| && Up(s, x, m) == Some(x)
    decreases k
  {
    if k > |s| {
      forall i | 0 <= i < k
        ensures Up(s, x, i).Some? && Up(s, x, i).value in s
      {
        UpPrefixStored(s, x, k, i);
      }
      if forall i, j :: 0 <= i < j < k ==> Up(s, x, i) != Up(s, x, j) {
        VisitedCard(s, x, k);
        SubsetCard(Visited(s, x, k), s.Keys);
        assert false;
      }
      var i, j :| 0 <= i < j < k && Up(s, x, i) == Up(s, x, j);
      UpAdd(s, x, j, k - j);
      UpAdd(s, x, i, k - j);
      ReturnWithinStore(s, x, i + (k - j));
    }
  }

  /** If two stores give the same parent to every node met in the first k steps of the
      walk up from `x`, that walk ends in the same place in both. */
  lemma {:induction false} WalkFrame(s: Store, t: Store, x: int, k: nat)
    requires forall i :: 0 <= i < k && Up(s, x, i).Some? ==>
               Link(t, Up(s, x, i).value) == Link(s, Up(s, x, i).value)
    ensures Up(t, x, k) == Up(s, x, k)
    decreases k
  {
    if k > 0 {
      assert Up(s, x, 0) == Some(x);
      match Link(s, x)
      case None =>
      case Some(p) =>
        forall i | 0 <= i < k - 1 && Up(s, p, i).Some?
          ensures Link(t, Up(s, p, i).value) == Link(s, Up(s, p, i).value)
        {
          assert Up(s, x, i + 1) == Up(s, p, i);
        }
        WalkFrame(s, t, p, k - 1);
    }
  }

  /** Every parent link of `t` is a link of `s` or skips exactly one node of `s`:
      what removing nodes and re-homing their children to the grandparent does. */
  ghost predicate Coarsens(t: Store, s: Store)
  {
    forall x :: Link(t, x).Some? ==> Link(t, x) == Up(s, x, 1) || Link(t, x) == Up(s, x, 2)
  }

  lemma {:induction false} CoarsenedWalk(t: Store, s: Store, x: int, k: nat) returns (j: nat)
    requires Coarsens(t, s) && 1 <= k && Up(t, x, k).Some?
    ensures 1 <= j && Up(s, x, j) == Up(t, x, k)
    decreases k
  {
    var y := Link(t, x).value;
    var m: nat := if Link(t, x) == Up(s, x, 1) then 1 else 2;
    if k == 1 {
      j := m;
    } else {
      var j' := CoarsenedWalk(t, s, y, k - 1);
      UpAdd(s, x, m, j');
      j := m + j';
    }
  }

  /** Coarsening never creates ancestry: every ancestor in `t` was one in `s`. */
  lemma CoarsenedAncestor(t: Store, s: Store, a: int, d: int)
    requires Coarsens(t, s) && IsAncestor(t, a, d)
    ensures IsAncestor(s, a, d)
  {
    var k: nat :| 1 <= k && Up(t, d, k) == Some(a);
    var j := CoarsenedWalk(t, s, d, k);
  }

  lemma CoarsenedAcyclic(t: Store, s: Store)
    requires Coarsens(t, s) && Acyclic(s)
    ensures Acyclic(t)
  {
    forall x ensures !IsAncestor(t, x, x) {
      if IsAncestor(t, x, x) {
        CoarsenedAncestor(t, s, x, x);
      }
    }
  }

  /** Ancestry is transitive. */
  lemma AncestorTrans(s: Store, a: int, b: int, c: int)
    requires IsAncestor(s, a, b) && IsAncestor(s, b, c)
    ensures IsAncestor(s, a, c)
  {
    var i: nat :| 1 <= i && Up(s, c, i) == Some(b);
    var j: nat :| 1 <= j && Up(s, b, j) == Some(a);
    UpAdd(s, c, i, j);
  }

  /** In an acyclic store no node is its own parent. */
  lemma NoSelfLink(s: Store, n: int)
    requires Acyclic(s)
    ensures Link(s, n) != Some(n)
  {
    assert !IsAncestor(s, n, n);
    assert Up(s, n, 1) == Link(s, n);
  }

  /** The first time the walk up from `d` meets `n`. */
  lemma {:induction false} FirstHit(s: Store, d: int, n: int, k: nat) returns (j: nat)
    requires Up(s, d, k) == Some(n)
    ensures j <= k && Up(s, d, j) == Some(n)
    ensures forall i :: 0 <= i < j ==> Up(s, d, i) != Some(n)
    decreases k
  {
    if i :| 0 <= i < k && Up(s, d, i) == Some(n) {
      j := FirstHit(s, d, n, i);
    } else {
      j := k;
    }
  }

  /** `t` gives every node other than `n` the parent it had in `s`, except that the children
      of `n` hang from the former parent of `n` (or from nothing when `n` had none): the
      effect of both child re-homing loops of the service. */
  ghost predicate SkipsNode(t: Store, s: Store, n: int)
  {
    forall y :: y != n ==> Link(t, y) == (if Link(s, y) == Some(n) then Link(s, n) else Link(s, y))
  }

  /** Every ancestor other than `n` that a node other than `n` had in `s` is still one in `t`. */
  lemma {:induction false} SkipKeepsAncestor(t: Store, s: Store, n: int, x: int, a: int, k: nat)
    requires Acyclic(s) && SkipsNode(t, s, n)
    requires x != n && a != n && 1 <= k && Up(s, x, k) == Some(a)
    ensures IsAncestor(t, a, x)
    decreases k
  {
    var y := Link(s, x).value;
    assert Link(t, x) == (if y == n then Link(s, n) else Link(s, x));
    if y == n {
      assert k >= 2;
      UpAdd(s, x, 1, k - 1);
      var o := Link(s, n).value;
      NoSelfLink(s, n);
      assert Up(s, n, 1) == Some(o);
      UpAdd(s, n, 1, k - 2);
      if k == 2 {
        assert Up(t, x, 1) == Some(a);
      } else {
        SkipKeepsAncestor(t, s, n, o, a, k - 2);
        var j: nat :| 1 <= j && Up(t, o, j) == Some(a);
        UpAdd(t, x, 1, j);
      }
    } else {
      if k == 1 {
        assert Up(t, x, 1) == Some(a);
      } else {
        SkipKeepsAncestor(t, s, n, y, a, k - 1);
        var j: nat :| 1 <= j && Up(t, y, j) == Some(a);
        UpAdd(t, x, 1, j);
      }
    }
  }

  /** Every ancestor a node other than `n` has in `t` it already had in `s`, and it is not `n`. */
  lemma {:induction false} SkipAddsNoAncestor(t: Store, s: Store, n: int, x: int, a: int, k: nat)
    requires Acyclic(s) && SkipsNode(t, s, n)
    requires x != n && 1 <= k && Up(t, x, k) == Some(a)
    ensures a != n && IsAncestor(s, a, x)
    decreases k
  {
    var y := Link(t, x).value;
    var m: nat;
    if Link(s, x) == Some(n) {
      assert Link(s, n) == Some(y);
      NoSelfLink(s, n);
      UpAdd(s, x, 1, 1);
      m := 2;
    } else {
      m := 1;
    }
    assert y != n && Up(s, x, m) == Some(y);
    if k > 1 {
      SkipAddsNoAncestor(t, s, n, y, a, k - 1);
      var j: nat :| 1 <= j && Up(s, y, j) == Some(a);
      UpAdd(s, x, m, j);
    }
  }

  /** Skipping `n` leaves every other node with exactly its former ancestors minus `n`. */
  lemma SkipAncestors(t: Store, s: Store, n: int, x: int, a: int)
    requires Acyclic(s) && SkipsNode(t, s, n) && x != n
    ensures IsAncestor(t, a, x) <==> IsAncestor(s, a, x) && a != n
  {
    if IsAncestor(t, a, x) {
      var k: nat :| 1 <= k && Up(t, x, k) == Some(a);
      SkipAddsNoAncestor(t, s, n, x, a, k);
    }
    if IsAncestor(s, a, x) && a != n {
      var k: nat :| 1 <= k && Up(s, x, k) == Some(a);
      SkipKeepsAncestor(t, s, n, x, a, k);
    }
  }

  /** A walk up from `x` that has not come back to `x` in its first `steps` steps never
      comes back, once it has reached a root or has taken as many steps as there are
      stored nodes. */
  lemma WalkEndsWithoutReturn(s: Store, x: int, steps: nat, current: int)
    requires Up(s, x, steps) == Some(current)
    requires Link(s, current).None? || steps >= |s|
    requires forall i :: 1 <= i <= steps ==> Up(s, x, i) != Some(x)
    ensures !IsAncestor(s, x, x)
  {
    if IsAncestor(s, x, x) {
      var k: nat :| 1 <= k && Up(s, x, k) == Some(x);
      ReturnWithinStore(s, x, k);
      var m: nat :| 1 <= m <= |s| && Up(s, x, m) == Some(x);
      UpAdd(s, x, steps, 1);
      UpNoneStays(s, x, steps + 1, m);
    }
  }
}
