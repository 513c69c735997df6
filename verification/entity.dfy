/** The `Node` entity of the organization tree and the keyed store that holds it. */
module Entity {

  datatype Option<T> = None | Some(value: T)

  /** One row of the `node` table; its `nodeId` is the key under which it is stored. */
  datatype NodeRec = NodeRec(
    nodeName: string,
    nodeType: string,
    nodeColor: Option<string>,
    parent: Option<int>)

  /** The node table: `nodeId` to row. */
  type Store = map<int, NodeRec>

  /** The parent of `x` as the ORM loads the `parent` relation: the id stored in the
      parent column, provided a row with that id exists; a missing row loads as no parent. */
  function Link(s: Store, x: int): (r: Option<int>)
    ensures r.Some? ==> x in s && r.value in s && s[x].parent == r
    ensures r.None? ==> x !in s || s[x].parent.None? || s[x].parent.value !in s
  {
    if x in s && s[x].parent.Some? && s[x].parent.value in s then s[x].parent else None
  }

  /** The `children` relation of `n`: every row whose parent column names `n`. */
  function Children(s: Store, n: int): (r: set<int>)
    ensures forall c :: c in r <==> c in s && s[c].parent == Some(n)
  {
    set c | c in s && s[c].parent == Some(n)
  }

  /** The two sides of the self-relation agree: for a stored `n`, a row is among the
      `children` of `n` exactly when its loaded `parent` is `n`. */
  lemma ChildrenInverse(s: Store, n: int, x: int)
    requires n in s
    ensures x in Children(s, n) <==> Link(s, x) == Some(n)
  {
  }

  /** Referential integrity of the parent column: no row names a missing parent. */
  ghost predicate Closed(s: Store)
  {
    forall x :: x in s && s[x].parent.Some? ==> s[x].parent.value in s
  }

  /** A non-empty set has a member (stated so that a `:|` choice can use it). */
  lemma NonEmpty(a: set<int>)
    requires a != {}
    ensures exists y :: y in a
  {
    if forall y :: y !in a {
      assert false;
    }
  }
}
