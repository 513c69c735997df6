/** The nodes service: the node table, the colour cursor and the id sequence, and the
    operations that create, move and delete nodes. */
module Nodes {
  import opened Entity
  import opened Closure
  import opened Palette
  import opened Mutations

  /** The exceptions the service raises. */
  datatype Failure =
    | NodeNotFound(nodeId: int)      // NotFoundException for the node
    | ParentNotFound(parentId: int)  // NotFoundException for the new parent
    | CycleOnCreate                  // the plain Error thrown by createNode
    | CycleOnUpdate                  // the BadRequestException thrown on reparenting

  datatype Result<T> = Ok(value: T) | Err(error: Failure)

  datatype Outcome = Pass | Fail(error: Failure)

  /** The node types that receive a colour. */
  predicate IsColored(nodeType: string)
  {
    nodeType == "location" || nodeType == "department"
  }

  /** The parent lookup of createNode: a missing or unknown parent id finds nothing. */
  function FindParent(s: Store, parentId: Option<int>): (parent: Option<int>)
    ensures parent.Some? <==> parentId.Some? && parentId.value in s
    ensures parent.Some? ==> parent == parentId
  {
    if parentId.Some? && parentId.value in s then parentId else None
  }

  /** The object graph findOne returns for the row `x` when no relation is requested: the
      row alone, its `parent` relation not loaded. A walk up from it stops at once. */
  function LoadedAlone(s: Store, x: int): (g: Store)
    requires x in s
    ensures x in g && Link(g, x).None?
    ensures !IsAncestor(g, x, x)
  {
    map[x := s[x].(parent := None)]
  }

  class NodesService {
    /** The node table. */
    var store: Store
    /** The cursor into the colour pool. */
    var colorIndex: nat
    /** The next value of the id sequence. */
    var nextId: int

    /** The cursor stays inside the pool, and the id sequence is ahead of every stored id
        and every id a parent column names. */
    ghost predicate Valid()
      reads this
    {
      && colorIndex < |ColorPool|
      && forall x :: x in store ==>
           x < nextId && (store[x].parent.Some? ==> store[x].parent.value < nextId)
    }

    constructor (initial: Store, next: int)
      requires forall x :: x in initial ==>
                 x < next && (initial[x].parent.Some? ==> initial[x].parent.value < next)
      ensures Valid()
      ensures store == initial && colorIndex == 0 && nextId == next
    {
      store := initial;
      colorIndex := 0;
      nextId := next;
    }

    /** Hands out the colour under the cursor and moves the cursor on, round the pool. */
    method AssignColor() returns (color: string)
      requires Valid()
      modifies this`colorIndex
      ensures Valid()
      ensures color == ColorPool[old(colorIndex)]
      ensures colorIndex == Advance(old(colorIndex))
      ensures [color] == Assigned(old(colorIndex), 1)
    {
      color := ColorPool[colorIndex];
      colorIndex := (colorIndex + 1) % |ColorPool|;
    }

    /** Walks up the loaded object graph from `start` while the current node has a parent
        and reports whether the walk comes back to `start`. The walk is cut off after as
        many steps as the graph has nodes, which loses no answer. */
    method DetectCycle(graph: Store, start: int) returns (cycle: bool)
      ensures cycle <==> IsAncestor(graph, start, start)
    {
      var current := start;
      var steps: nat := 0;
      while Link(graph, current).Some? && steps < |graph|
        invariant Up(graph, start, steps) == Some(current)
        invariant forall i :: 1 <= i <= steps ==> Up(graph, start, i) != Some(start)
        decreases |graph| - steps
      {
        var p := Link(graph, current).value;
        UpAdd(graph, start, steps, 1);
        if p == start {
          return true;
        }
        current := p;
        steps := steps + 1;
      }
      WalkEndsWithoutReturn(graph, start, steps, current);
      return false;
    }

    /** The checks shared by both reparent operations, in their order: the node exists, the
        new parent exists, and the walk up from the new parent, loaded without its relations,
        does not return to it. That walk stops at once, so the third check never fails. */
    method ValidateAndFetchNodes(nodeId: int, parentId: int) returns (r: Outcome)
      ensures nodeId !in store ==> r == Fail(NodeNotFound(nodeId))
      ensures nodeId in store && parentId !in store ==> r == Fail(ParentNotFound(parentId))
      ensures r == Pass <==> nodeId in store && parentId in store
    {
      if nodeId !in store {
        return Fail(NodeNotFound(nodeId));
      }
      if parentId !in store {
        return Fail(ParentNotFound(parentId));
      }
      var cycle := DetectCycle(LoadedAlone(store, parentId), parentId);
      r := if cycle then Fail(CycleOnUpdate) else Pass;
    }

    /** Adds a node under the looked-up parent (none when the id is absent or unknown), with
        a colour from the pool exactly when its type is a coloured one. */
    method CreateNode(nodeName: string, nodeType: string, parentId: Option<int>) returns (r: Result<int>)
      requires Valid()
      modifies this
      ensures Valid()
      ensures r.Ok?
      ensures r.Ok? ==> r.value == old(nextId) && nextId == old(nextId) + 1
      ensures r.Ok? ==> store == old(store)[r.value := NodeRec(
                nodeName, nodeType,
                if IsColored(nodeType) then Some(ColorPool[old(colorIndex)]) else None,
                FindParent(old(store), parentId))]
      ensures r.Ok? ==> colorIndex == if IsColored(nodeType) then Advance(old(colorIndex)) else old(colorIndex)
      ensures r.Ok? ==> FreshRow(old(store), r.value, store[r.value])
      ensures old(Acyclic(store)) ==> Acyclic(store)
    {
      var parent := FindParent(store, parentId);
      var cycle := false;
      if parent.Some? {
        cycle := DetectCycle(LoadedAlone(store, parent.value), parent.value);
      }
      if cycle {
        r := Err(CycleOnCreate);
        return;
      }
      var color: Option<string> := None;
      if IsColored(nodeType) {
        var c := AssignColor();
        color := Some(c);
      }
      var id := nextId;
      var rec := NodeRec(nodeName, nodeType, color, parent);
      assert FreshRow(store, id, rec);
      if Acyclic(store) {
        CreateAcyclic(store, id, rec);
      }
      nextId := nextId + 1;
      store := store[id := rec];
      r := Ok(id);
    }

    /** The child loop of both re-homing operations: every child of `n` is given `orig` as
        parent and saved in turn. */
    method ReassignChildren(n: int, orig: Option<int>)
      requires Valid() && (orig.Some? ==> orig.value in store)
      modifies this`store
      ensures Valid()
      ensures store == Rehome(old(store), n, orig)
    {
      var children := Children(store, n);
      var todo := children;
      while todo != {}
        invariant todo <= children
        invariant store.Keys == old(store).Keys
        invariant forall x :: x in old(store) ==>
                    store[x] == if x in children - todo then old(store)[x].(parent := orig) else old(store)[x]
        decreases |todo|
      {
        NonEmpty(todo);
        var child :| child in todo;
        store := store[child := store[child].(parent := orig)];
        todo := todo - {child};
      }
      ghost var t := Rehome(old(store), n, orig);
      assert forall x :: x in store ==> store[x] == t[x];
      assert store == t;
    }

    /** Moves `nodeId` under `parentId`, taking its subtree with it. */
    method UpdateNodeWithShift(nodeId: int, parentId: int) returns (r: Result<NodeRec>)
      requires Valid()
      modifies this
      ensures Valid() && colorIndex == old(colorIndex) && nextId == old(nextId)
      ensures nodeId !in old(store) ==> r == Err(NodeNotFound(nodeId))
      ensures nodeId in old(store) && parentId !in old(store) ==> r == Err(ParentNotFound(parentId))
      ensures nodeId in old(store) && parentId in old(store) ==> r.Ok?
      ensures r.Err? ==> store == old(store)
      ensures r.Ok? ==> nodeId in old(store) && parentId in old(store) && store == MoveWithShift(old(store), nodeId, parentId)
      ensures r.Ok? ==> r.value == store[nodeId]
      ensures r.Ok? && old(Acyclic(store)) && parentId != nodeId && !old(IsAncestor(store, nodeId, parentId)) ==>
                Acyclic(store)
    {
      var check := ValidateAndFetchNodes(nodeId, parentId);
      if check.Fail? {
        return Err(check.error);
      }
      if Acyclic(store) && parentId != nodeId && !IsAncestor(store, nodeId, parentId) {
        MoveWithShiftAcyclic(store, nodeId, parentId);
      }
      store := MoveWithShift(store, nodeId, parentId);
      r := Ok(store[nodeId]);
    }

    /** Moves `nodeId` alone under `parentId`, first handing its children to its original
        parent (or leaving them without a parent when it had none). */
    method UpdateNodeWithoutShift(nodeId: int, parentId: int) returns (r: Result<NodeRec>)
      requires Valid()
      modifies this
      ensures Valid() && colorIndex == old(colorIndex) && nextId == old(nextId)
      ensures nodeId !in old(store) ==> r == Err(NodeNotFound(nodeId))
      ensures nodeId in old(store) && parentId !in old(store) ==> r == Err(ParentNotFound(parentId))
      ensures nodeId in old(store) && parentId in old(store) ==> r.Ok?
      ensures r.Err? ==> store == old(store)
      ensures r.Ok? ==> nodeId in old(store) && parentId in old(store) && store == MoveWithoutShift(old(store), nodeId, parentId)
      ensures r.Ok? ==> r.value == store[nodeId]
      ensures r.Ok? && old(Acyclic(store)) && parentId != nodeId ==> Acyclic(store)
    {
      var check := ValidateAndFetchNodes(nodeId, parentId);
      if check.Fail? {
        return Err(check.error);
      }
      if Acyclic(store) && parentId != nodeId {
        MoveWithoutShiftAcyclic(store, nodeId, parentId);
      }
      var originalParent := Link(store, nodeId);
      if originalParent.Some? {
        ReassignChildren(nodeId, originalParent);
      }
      // the children relation is emptied and saved, which clears every remaining child link
      store := Rehome(store, nodeId, None);
      store := store[nodeId := store[nodeId].(parent := Some(parentId))];
      r := Ok(store[nodeId]);
    }

    /** Removes `nodeId`, first handing its children to its original parent when it has one. */
    method DeleteNodeWithShift(nodeId: int) returns (r: Outcome)
      requires Valid()
      modifies this
      ensures Valid() && colorIndex == old(colorIndex) && nextId == old(nextId)
      ensures nodeId !in old(store) ==> r == Fail(NodeNotFound(nodeId)) && store == old(store)
      ensures nodeId in old(store) ==> r == Pass && store == RemoveWithShift(old(store), nodeId)
      ensures old(Acyclic(store)) ==> Acyclic(store)
    {
      if nodeId !in store {
        return Fail(NodeNotFound(nodeId));
      }
      if Acyclic(store) {
        RemoveWithShiftAcyclic(store, nodeId);
      }
      var originalParent := Link(store, nodeId);
      if originalParent.Some? {
        ReassignChildren(nodeId, originalParent);
      }
      store := store - {nodeId};
      r := Pass;
    }

    /** Removes `nodeId` together with its direct children in one batch. */
    method DeleteNodeWithoutShift(nodeId: int) returns (r: Outcome)
      requires Valid()
      modifies this
      ensures Valid() && colorIndex == old(colorIndex) && nextId == old(nextId)
      ensures nodeId !in old(store) ==> r == Fail(NodeNotFound(nodeId)) && store == old(store)
      ensures nodeId in old(store) ==> r == Pass && store == RemoveWithoutShift(old(store), nodeId)
      ensures old(Acyclic(store)) ==> Acyclic(store)
    {
      if nodeId !in store {
        return Fail(NodeNotFound(nodeId));
      }
      if Acyclic(store) {
        RemoveWithoutShiftAcyclic(store, nodeId);
      }
      store := store - ({nodeId} + Children(store, nodeId));
      r := Pass;
    }
  }
}
