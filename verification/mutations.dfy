/** The effect of each mutation of the nodes service on the node store, as functions of
    the store before it, with what each does to the derived closure table. */
module Mutations {
  import opened Entity
  import opened Closure

  // ---------------------------------------------------------------------------
  // Create

  /** createNode: the new row joins the store under a fresh id. Its parent is
      the looked-up parent, or none. Nothing in the store names a fresh id as parent. */
  ghost predicate FreshRow(s: Store, id: int, rec: NodeRec)
  {
    && id !in s
    && (forall x :: x in s ==> s[x].parent != Some(id))
    && (rec.parent.Some? ==> rec.parent.value in s)
  }

  /** Inserting a new leaf leaves every existing node with its ancestors. The new node's
      closure rows are its own reflexive row plus a copy of every row of its parent. */
  lemma CreateClosure(s: Store, id: int, rec: NodeRec, a: int, d: int)
    requires FreshRow(s, id, rec)
    ensures d in s ==> (IsAncestor(s[id := rec], a, d) <==> IsAncestor(s, a, d))
    ensures IsAncestor(s[id := rec], a, id) <==> rec.parent.Some? && InClosure(s, a, rec.parent.value)
    ensures InClosure(s[id := rec], a, d) <==>
              InClosure(s, a, d) ||
              (d == id && (a == id || (rec.parent.Some? && InClosure(s, a, rec.parent.value))))
  {
    var t := s[id := rec];
    forall x, k: nat | x in s ensures Up(t, x, k) == Up(s, x, k) {
      forall i | 0 <= i < k && Up(s, x, i).Some?
        ensures Link(t, Up(s, x, i).value) == Link(s, Up(s, x, i).value)
      {
        if i == 0 {
          assert Up(s, x, i).value == x;
        }
      }
      WalkFrame(s, t, x, k);
    }
    if d in s {
      if IsAncestor(t, a, d) {
        var k: nat :| 1 <= k && Up(t, d, k) == Some(a);
      }
      if IsAncestor(s, a, d) {
        var k: nat :| 1 <= k && Up(s, d, k) == Some(a);
        assert Up(t, d, k) == Some(a);
      }
    }
    if rec.parent.Some? {
      var p := rec.parent.value;
      assert Link(t, id) == Some(p);
      if IsAncestor(t, a, id) {
        var k: nat :| 1 <= k && Up(t, id, k) == Some(a);
        assert Up(s, p, k - 1) == Some(a);
        if k > 1 {
          assert IsAncestor(s, a, p);
        }
      }
      if IsAncestor(s, a, p) {
        var k: nat :| 1 <= k && Up(s, p, k) == Some(a);
        assert Up(t, id, k + 1) == Up(t, p, k);
      }
      if a == p {
        assert Up(t, id, 1) == Some(p);
      }
    }
    if rec.parent.None? {
      assert Link(t, id) == None;
    }
  }

  /** Creating a node keeps the forest acyclic. */
  lemma CreateAcyclic(s: Store, id: int, rec: NodeRec)
    requires FreshRow(s, id, rec) && Acyclic(s)
    ensures Acyclic(s[id := rec])
  {
    var t := s[id := rec];
    forall x ensures !IsAncestor(t, x, x) {
      CreateClosure(s, id, rec, x, x);
      if x == id && rec.parent.Some? && IsAncestor(s, id, rec.parent.value) {
        AncestorIsStored(s, id, rec.parent.value);
      }
    }
  }

  /** The closure table after a create: the old table, the new node's reflexive row, and a
      copy of every row of its parent with the new node as descendant. */
  lemma CreateTable(s: Store, id: int, rec: NodeRec)
    requires FreshRow(s, id, rec)
    ensures ClosureTable(s[id := rec]) ==
              ClosureTable(s) + {(id, id)} +
              (set a | a in s && rec.parent.Some? && InClosure(s, a, rec.parent.value) :: (a, id))
  {
    var t := s[id := rec];
    forall a, d ensures (a, d) in ClosureTable(t) <==> InClosure(t, a, d) {
      if InClosure(t, a, d) && a != d {
        AncestorIsStored(t, a, d);
      }
    }
    forall a, d ensures (a, d) in ClosureTable(s) <==> InClosure(s, a, d) {
      if InClosure(s, a, d) && a != d {
        AncestorIsStored(s, a, d);
      }
    }
    forall a, d ensures InClosure(t, a, d) <==>
                          InClosure(s, a, d) ||
                          (d == id && (a == id || (rec.parent.Some? && InClosure(s, a, rec.parent.value))))
    {
      CreateClosure(s, id, rec, a, d);
    }
  }

  // ---------------------------------------------------------------------------
  // Reparent with shift

  /** updateNodeWithShift: only the moved node's parent column changes; its
      children keep pointing at it, so its whole subtree travels with it. */
  function MoveWithShift(s: Store, n: int, p: int): (t: Store)
    requires n in s
    ensures t.Keys == s.Keys
    ensures t[n] == s[n].(parent := Some(p))
    ensures forall x :: x in s && x != n ==> t[x] == s[x]
  {
    s[n := s[n].(parent := Some(p))]
  }

  /** A node outside the moved subtree keeps every step of its walk up, hence its ancestors. */
  lemma MoveWithShiftOutside(s: Store, n: int, p: int, d: int)
    requires n in s && !InSubtree(s, n, d)
    ensures forall k: nat :: Up(MoveWithShift(s, n, p), d, k) == Up(s, d, k)
    ensures forall a :: IsAncestor(MoveWithShift(s, n, p), a, d) <==> IsAncestor(s, a, d)
  {
    var t := MoveWithShift(s, n, p);
    forall k: nat ensures Up(t, d, k) == Up(s, d, k) {
      forall i | 0 <= i < k && Up(s, d, i).Some?
        ensures Link(t, Up(s, d, i).value) == Link(s, Up(s, d, i).value)
      {
        if i >= 1 {
          assert IsAncestor(s, Up(s, d, i).value, d);
        }
      }
      WalkFrame(s, t, d, k);
    }
    forall a ensures IsAncestor(t, a, d) <==> IsAncestor(s, a, d) {
      if IsAncestor(t, a, d) {
        var k: nat :| 1 <= k && Up(t, d, k) == Some(a);
      }
      if IsAncestor(s, a, d) {
        var k: nat :| 1 <= k && Up(s, d, k) == Some(a);
        assert Up(t, d, k) == Some(a);
      }
    }
  }

  /** On an acyclic store, an ancestor of `d` beyond the first meeting with `n` is not in the
      subtree of `n`. */
  lemma WithinFirstHit(s: Store, n: int, d: int, j: nat, k: nat, a: int)
    requires Acyclic(s) && Up(s, d, j) == Some(n) && Up(s, d, k) == Some(a) && InSubtree(s, n, a)
    ensures k <= j
  {
    if j < k {
      UpAdd(s, d, j, k - j);
      assert Up(s, n, k - j) == Some(a);
      assert IsAncestor(s, a, n);
      if a != n {
        AncestorTrans(s, n, a, n);
      }
    }
  }

  /** Moving `n` under `p` with shift, where `p` is outside the subtree of `n`, changes the
      ancestors of every node `d` in that subtree exactly as the closure table maintenance
      describes: `d` keeps its ancestors up to and including `n`, loses those above `n`,
      and gains `p` and the ancestors of `p`. */
  lemma MoveWithShiftSubtree(s: Store, n: int, p: int, d: int, a: int)
    requires Acyclic(s) && n in s && p in s && p != n && !IsAncestor(s, n, p)
    requires InSubtree(s, n, d)
    ensures IsAncestor(MoveWithShift(s, n, p), a, d) <==>
              (IsAncestor(s, a, d) && InSubtree(s, n, a)) || a == p || IsAncestor(s, a, p)
  {
    var t := MoveWithShift(s, n, p);
    MoveWithShiftOutside(s, n, p, p);
    var k0: nat := 0;
    if d != n {
      k0 :| 1 <= k0 && Up(s, d, k0) == Some(n);
    }
    var j := FirstHit(s, d, n, k0);
    forall i: nat | i <= j ensures Up(t, d, i) == Up(s, d, i) {
      WalkFrame(s, t, d, i);
    }
    forall k: nat | j < k ensures Up(t, d, k) == Up(s, p, k - j - 1) {
      UpAdd(t, d, j, k - j);
      assert Link(t, n) == Some(p);
    }
    if IsAncestor(t, a, d) {
      var k: nat :| 1 <= k && Up(t, d, k) == Some(a);
      if k <= j {
        UpAdd(s, d, k, j - k);
        assert IsAncestor(s, a, d);
        if k < j {
          assert Up(s, a, j - k) == Some(n);
          assert IsAncestor(s, n, a);
        }
      } else if k > j + 1 {
        assert Up(s, p, k - j - 1) == Some(a);
        assert IsAncestor(s, a, p);
      } else {
        assert Up(s, p, 0) == Some(a);
      }
    }
    if IsAncestor(s, a, d) && InSubtree(s, n, a) {
      var k: nat :| 1 <= k && Up(s, d, k) == Some(a);
      WithinFirstHit(s, n, d, j, k, a);
      assert Up(t, d, k) == Some(a);
    }
    if a == p {
      assert Up(t, d, j + 1) == Some(a);
    }
    if IsAncestor(s, a, p) {
      var m: nat :| 1 <= m && Up(s, p, m) == Some(a);
      assert Up(t, d, j + 1 + m) == Some(a);
    }
  }

  /** Moving with shift keeps the forest acyclic when the new parent lies outside the
      moved subtree. The service does not check this itself (see MoveUnderDescendant). */
  lemma MoveWithShiftAcyclic(s: Store, n: int, p: int)
    requires Acyclic(s) && n in s && p in s && p != n && !IsAncestor(s, n, p)
    ensures Acyclic(MoveWithShift(s, n, p))
  {
    var t := MoveWithShift(s, n, p);
    forall x ensures !IsAncestor(t, x, x) {
      if InSubtree(s, n, x) {
        MoveWithShiftSubtree(s, n, p, x, x);
        if IsAncestor(s, x, p) {
          if x != n {
            AncestorTrans(s, n, x, p);
          }
        }
      } else {
        MoveWithShiftOutside(s, n, p, x);
      }
    }
  }

  /** A cycle check on the new parent cannot catch a move under one's own descendant: even
      the walk over the stored parents from the descendant never returns to it on an acyclic
      store, yet the move makes `n` its own ancestor. */
  lemma MoveUnderDescendant(s: Store, n: int, d: int)
    requires Acyclic(s) && IsAncestor(s, n, d)
    ensures n in s && d in s && !IsAncestor(s, d, d)
    ensures IsAncestor(MoveWithShift(s, n, d), n, n)
  {
    AncestorIsStored(s, n, d);
    var t := MoveWithShift(s, n, d);
    var k: nat :| 1 <= k && Up(s, d, k) == Some(n);
    var j := FirstHit(s, d, n, k);
    WalkFrame(s, t, d, j);
    assert Link(t, n) == Some(d);
    UpAdd(t, n, 1, j);
    assert Up(t, n, 1 + j) == Some(n);
  }

  // ---------------------------------------------------------------------------
  // Child re-homing, shared by reparent without shift and delete with shift

  /** The loop over the loaded children in updateNodeWithoutShift and deleteNodeWithShift:
      every node whose parent column names `n` now names `orig`. With `orig` = None it is also
      what updateNodeWithoutShift's emptying of the children relation does once saved. */
  function Rehome(s: Store, n: int, orig: Option<int>): (t: Store)
    ensures t.Keys == s.Keys
    ensures forall x :: x in s && s[x].parent == Some(n) ==> t[x] == s[x].(parent := orig)
    ensures forall x :: x in s && s[x].parent != Some(n) ==> t[x] == s[x]
  {
    map x | x in s :: if s[x].parent == Some(n) then s[x].(parent := orig) else s[x]
  }

  // ---------------------------------------------------------------------------
  // Reparent without shift

  /** updateNodeWithoutShift: the children of `n` move to the original parent
      of `n` when it has one; the children relation of `n` is then emptied, which leaves any
      child still pointing at `n` without a parent; finally `n` itself moves under `p`. */
  function MoveWithoutShift(s: Store, n: int, p: int): (t: Store)
    requires n in s
    ensures t.Keys == s.Keys
    ensures t[n] == s[n].(parent := Some(p))
    ensures forall x :: x in s && x != n && s[x].parent == Some(n) && Link(s, n) != Some(n) ==>
              t[x] == s[x].(parent := Link(s, n))
    ensures forall x :: x in s && x != n && s[x].parent != Some(n) ==> t[x] == s[x]
    ensures forall x :: x in t && x != n ==> t[x].parent != Some(n)
  {
    var orig := Link(s, n);
    var rehomed := if orig.Some? then Rehome(s, n, orig) else s;
    var detached := Rehome(rehomed, n, None);
    detached[n := detached[n].(parent := Some(p))]
  }

  lemma MoveWithoutShiftSkips(s: Store, n: int, p: int)
    requires Acyclic(s) && n in s
    ensures SkipsNode(MoveWithoutShift(s, n, p), s, n)
  {
    var t := MoveWithoutShift(s, n, p);
    NoSelfLink(s, n);
    forall y | y != n
      ensures Link(t, y) == (if Link(s, y) == Some(n) then Link(s, n) else Link(s, y))
    {
      if y in s && s[y].parent == Some(n) {
        assert Link(s, y) == Some(n);
      }
    }
  }

  /** After a move without shift every node other than `n` has exactly its former ancestors
      minus `n` (so `n` has no descendants left), and `n` has `p` and the ancestors of `p`. */
  lemma MoveWithoutShiftClosure(s: Store, n: int, p: int, a: int, x: int)
    requires Acyclic(s) && n in s && p in s && p != n
    ensures x != n ==> (IsAncestor(MoveWithoutShift(s, n, p), a, x) <==> IsAncestor(s, a, x) && a != n)
    ensures IsAncestor(MoveWithoutShift(s, n, p), a, n) <==> a == p || (IsAncestor(s, a, p) && a != n)
  {
    var t := MoveWithoutShift(s, n, p);
    MoveWithoutShiftSkips(s, n, p);
    if x != n {
      SkipAncestors(t, s, n, x, a);
    }
    SkipAncestors(t, s, n, p, a);
    assert Link(t, n) == Some(p);
    if IsAncestor(t, a, n) {
      var k: nat :| 1 <= k && Up(t, n, k) == Some(a);
      assert Up(t, p, k - 1) == Some(a);
      if k > 1 {
        assert IsAncestor(t, a, p);
      }
    }
    if a == p {
      assert Up(t, n, 1) == Some(a);
    }
    if IsAncestor(t, a, p) {
      var k: nat :| 1 <= k && Up(t, p, k) == Some(a);
      assert Up(t, n, k + 1) == Some(a);
    }
  }

  /** Moving without shift keeps the forest acyclic for every new parent other than the
      node itself, even one of its former descendants. */
  lemma MoveWithoutShiftAcyclic(s: Store, n: int, p: int)
    requires Acyclic(s) && n in s && p in s && p != n
    ensures Acyclic(MoveWithoutShift(s, n, p))
  {
    forall x ensures !IsAncestor(MoveWithoutShift(s, n, p), x, x) {
      MoveWithoutShiftClosure(s, n, p, x, x);
      if x == n && IsAncestor(s, n, p) {
        MoveWithoutShiftClosure(s, n, p, n, n);
      }
    }
  }

  /** Neither reparent policy stops a node from being made its own parent: even the walk over
      the stored parents from `n` on an acyclic store finds no cycle, and the result has one. */
  lemma MoveUnderSelf(s: Store, n: int)
    requires Acyclic(s) && n in s
    ensures !IsAncestor(s, n, n)
    ensures IsAncestor(MoveWithShift(s, n, n), n, n)
    ensures IsAncestor(MoveWithoutShift(s, n, n), n, n)
  {
    assert Up(MoveWithShift(s, n, n), n, 1) == Some(n);
    assert Up(MoveWithoutShift(s, n, n), n, 1) == Some(n);
  }

  // ---------------------------------------------------------------------------
  // Delete with shift

  /** deleteNodeWithShift: when `n` has a parent its children are re-homed to
      it; then `n` alone is removed. Children of a root keep naming the removed id. */
  function RemoveWithShift(s: Store, n: int): (t: Store)
    requires n in s
    ensures t.Keys == s.Keys - {n}
    ensures forall x :: x in t && s[x].parent == Some(n) && Link(s, n).Some? ==>
              t[x] == s[x].(parent := Link(s, n))
    ensures forall x :: x in t && (s[x].parent != Some(n) || Link(s, n).None?) ==> t[x] == s[x]
  {
    var orig := Link(s, n);
    (if orig.Some? then Rehome(s, n, orig) else s) - {n}
  }

  lemma RemoveWithShiftSkips(s: Store, n: int)
    requires Acyclic(s) && n in s
    ensures SkipsNode(RemoveWithShift(s, n), s, n)
  {
    var t := RemoveWithShift(s, n);
    NoSelfLink(s, n);
    forall y | y != n
      ensures Link(t, y) == (if Link(s, y) == Some(n) then Link(s, n) else Link(s, y))
    {
      if y in s && s[y].parent == Some(n) {
        assert Link(s, y) == Some(n);
      }
    }
  }

  /** Delete with shift removes exactly the closure rows that name `n`: every surviving node
      keeps all its other ancestors, the children of `n` now under the former parent of `n`. */
  lemma RemoveWithShiftClosure(s: Store, n: int, a: int, d: int)
    requires Acyclic(s) && n in s
    ensures InClosure(RemoveWithShift(s, n), a, d) <==> InClosure(s, a, d) && a != n && d != n
  {
    var t := RemoveWithShift(s, n);
    RemoveWithShiftSkips(s, n);
    if d != n {
      SkipAncestors(t, s, n, d, a);
    }
  }

  /** The closure table after delete with shift is the old table without the rows that
      name the removed node. */
  lemma RemoveWithShiftTable(s: Store, n: int)
    requires Acyclic(s) && n in s
    ensures ClosureTable(RemoveWithShift(s, n)) ==
              set r | r in ClosureTable(s) && r.0 != n && r.1 != n
  {
    var t := RemoveWithShift(s, n);
    forall a, d ensures (a, d) in ClosureTable(t) <==> InClosure(t, a, d) {
      if InClosure(t, a, d) && a != d {
        AncestorIsStored(t, a, d);
      }
    }
    forall a, d ensures (a, d) in ClosureTable(s) <==> InClosure(s, a, d) {
      if InClosure(s, a, d) && a != d {
        AncestorIsStored(s, a, d);
      }
    }
    forall a, d ensures InClosure(t, a, d) <==> InClosure(s, a, d) && a != n && d != n {
      RemoveWithShiftClosure(s, n, a, d);
    }
  }

  lemma RemoveWithShiftAcyclic(s: Store, n: int)
    requires Acyclic(s) && n in s
    ensures Acyclic(RemoveWithShift(s, n))
  {
    var t := RemoveWithShift(s, n);
    RemoveWithShiftSkips(s, n);
    forall x ensures !IsAncestor(t, x, x) {
      if x != n {
        SkipAncestors(t, s, n, x, x);
      } else if IsAncestor(t, x, x) {
        AncestorIsStored(t, x, x);
      }
    }
  }

  /** The parent column stays a valid reference after delete with shift exactly when the
      removed node had a parent or had no children; the children of a removed root keep
      naming it. */
  lemma RemoveWithShiftIntegrity(s: Store, n: int)
    requires Acyclic(s) && Closed(s) && n in s
    ensures Closed(RemoveWithShift(s, n)) <==> s[n].parent.Some? || Children(s, n) == {}
  {
    var t := RemoveWithShift(s, n);
    NoSelfLink(s, n);
    if s[n].parent.None? && Children(s, n) != {} {
      var kids := Children(s, n);
      NonEmpty(kids);
      var c :| c in kids;
      assert c in t && t[c].parent == Some(n);
    }
  }

  // ---------------------------------------------------------------------------
  // Delete without shift

  /** deleteNodeWithoutShift: `n` and its direct children are removed and nothing
      else changes; grandchildren are not addressed. */
  function RemoveWithoutShift(s: Store, n: int): (t: Store)
    ensures t.Keys == s.Keys - ({n} + Children(s, n))
    ensures forall x :: x in t ==> t[x] == s[x]
  {
    s - ({n} + Children(s, n))
  }

  /** Nodes outside the subtree of `n` keep all their ancestors. */
  lemma RemoveWithoutShiftOutside(s: Store, n: int, x: int, a: int)
    requires n in s && !InSubtree(s, n, x)
    ensures IsAncestor(RemoveWithoutShift(s, n), a, x) <==> IsAncestor(s, a, x)
  {
    var t := RemoveWithoutShift(s, n);
    forall k: nat ensures Up(t, x, k) == Up(s, x, k) {
      forall i | 0 <= i < k && Up(s, x, i).Some?
        ensures Link(t, Up(s, x, i).value) == Link(s, Up(s, x, i).value)
      {
        var y := Up(s, x, i).value;
        if i >= 1 {
          assert IsAncestor(s, y, x);
        }
        if y in s && s[y].parent == Some(n) {
          assert Up(s, y, 1) == Some(n);
          assert IsAncestor(s, n, y);
          if i >= 1 {
            AncestorTrans(s, n, y, x);
          }
        }
        if y in s && s[y].parent.Some? && s[y].parent.value in Children(s, n) {
          var c := s[y].parent.value;
          assert Up(s, y, 2) == Some(n);
          assert IsAncestor(s, n, y);
          if i >= 1 {
            AncestorTrans(s, n, y, x);
          }
        }
      }
      WalkFrame(s, t, x, k);
    }
    if IsAncestor(t, a, x) {
      var k: nat :| 1 <= k && Up(t, x, k) == Some(a);
    }
    if IsAncestor(s, a, x) {
      var k: nat :| 1 <= k && Up(s, x, k) == Some(a);
      assert Up(t, x, k) == Some(a);
    }
  }

  /** A surviving node inside the subtree of `n` keeps exactly those ancestors that survive
      and lie inside that subtree: its walk up now stops just below the removed children. */
  lemma RemoveWithoutShiftInside(s: Store, n: int, x: int, a: int)
    requires Acyclic(s) && x in RemoveWithoutShift(s, n) && InSubtree(s, n, x)
    ensures IsAncestor(RemoveWithoutShift(s, n), a, x) <==>
              IsAncestor(s, a, x) && a in RemoveWithoutShift(s, n) && InSubtree(s, n, a)
  {
    var t := RemoveWithoutShift(s, n);
    var k: nat :| 1 <= k && Up(s, x, k) == Some(n);
    var j := FirstHit(s, x, n, k);
    // the walk from x meets a child c of n one step before n, and a grandchild g before c
    UpAdd(s, x, j - 1, 1);
    var c := Up(s, x, j - 1).value;
    assert c in Children(s, n);
    UpAdd(s, x, j - 2, 1);
    var g := Up(s, x, j - 2).value;
    assert Link(s, g) == Some(c);
    // every node the walk meets before c survives, with its link intact except at g
    forall i | 0 <= i <= j - 2
      ensures Up(s, x, i).Some? && Up(s, x, i).value in t
    {
      UpPrefixStored(s, x, j, i);
      UpAdd(s, x, i, 1);
    }
    forall i | 0 <= i < j - 2 && Up(s, x, i).Some?
      ensures Link(t, Up(s, x, i).value) == Link(s, Up(s, x, i).value)
    {
      UpAdd(s, x, i, 1);
    }
    forall m: nat | m <= j - 2 ensures Up(t, x, m) == Up(s, x, m) {
      WalkFrame(s, t, x, m);
    }
    assert Link(t, g) == None;
    UpAdd(t, x, j - 2, 1);
    if IsAncestor(t, a, x) {
      var m: nat :| 1 <= m && Up(t, x, m) == Some(a);
      if m <= j - 2 {
        UpAdd(s, x, m, j - m);
        assert Up(s, a, j - m) == Some(n);
      } else {
        UpNoneStays(t, x, j - 1, m);
      }
    }
    if IsAncestor(s, a, x) && a in t && InSubtree(s, n, a) {
      var m: nat :| 1 <= m && Up(s, x, m) == Some(a);
      if m <= j - 2 {
        assert Up(t, x, m) == Some(a);
      } else if m > j {
        UpAdd(s, x, j, m - j);
        assert Up(s, n, m - j) == Some(a);
        AncestorTrans(s, a, n, a);
      }
    }
  }

  /** Removing rows never adds ancestry, so delete without shift keeps the forest acyclic. */
  lemma RemoveWithoutShiftAcyclic(s: Store, n: int)
    requires Acyclic(s)
    ensures Acyclic(RemoveWithoutShift(s, n))
  {
    var t := RemoveWithoutShift(s, n);
    forall x | Link(t, x).Some? ensures Link(t, x) == Up(s, x, 1) || Link(t, x) == Up(s, x, 2) {
      assert Link(t, x) == Link(s, x);
    }
    CoarsenedAcyclic(t, s);
  }

  /** A grandchild of the removed node survives, still naming its removed parent: the
      subtree below the children is not deleted and its root reference dangles. */
  lemma RemoveWithoutShiftOrphans(s: Store, n: int, c: int, g: int)
    requires c in Children(s, n) && g in Children(s, c) && g != n && g !in Children(s, n)
    ensures g in RemoveWithoutShift(s, n) && c !in RemoveWithoutShift(s, n)
    ensures RemoveWithoutShift(s, n)[g].parent == Some(c)
    ensures !Closed(RemoveWithoutShift(s, n))
  {
    assert RemoveWithoutShift(s, n)[g] == s[g];
  }
}
