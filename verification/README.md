# NodesService of organization-tree, modelled in Dafny

organization-tree keeps an organisation chart as a tree of `Node` rows. Each row holds a
name, a type, an optional colour and an optional parent. The ORM maintains a closure table
beside it. The `NodesService` class is the engine that changes the tree:

- a round-robin colour assigner over an eleven-colour palette;
- node creation;
- two reparent policies: *with shift*, where the subtree travels with the node, and
  *without shift*, where the children are first handed to the node's original parent;
- two delete policies: *with shift*, where the children are promoted to the grandparent,
  and *without shift*, where the node and its direct children are removed;
- the upward walk that looks for a cycle.

The model is five modules:

- `Entity` (`entity.dfy`):
  - the node row `NodeRec` and the node table `Store`, a map from `nodeId` to row;
  - `Link`, the parent as the ORM loads the `parent` relation. A parent column that names
    a missing row loads as no parent;
  - `Children`, the `children` relation;
  - `Closed`, the referential integrity of the parent column.
- `Closure` (`closure.dfy`):
  - the closure table as a relation derived from the parent links: `Up` walks k steps
    up, `IsAncestor` is "some walk of one or more steps meets it", and `InClosure` and
    `ClosureTable` add the reflexive rows;
  - `Acyclic`, the forest invariant;
  - the walk lemmas the operations need, including the pigeonhole fact that a walk that
    returns to its start does so within as many steps as there are nodes.
- `Palette` (`palette.dfy`): the colour pool, the cursor step, and the colours handed out
  by k consecutive assignments.
- `Mutations` (`mutations.dfy`): each mutation as a function from the table before it to
  the table after it, with lemmas about what each does to the closure relation, the forest
  invariant and referential integrity.
- `Nodes` (`nodes_service.dfy`): the class `NodesService`.
  - Its fields are the table, the colour cursor `colorIndex` and `nextId`. `nextId`
    stands for the `SERIAL` sequence that generates ids.
  - Its methods follow the source's control flow. That includes the `while` loop of
    `detectCycle` and the `for` loop over `node.children` that both re-homing operations
    run.
  - Each mutating method except `CreateNode` is proved against the `Mutations` function
    for its operation. `CreateNode` states its new table directly, and `FreshRow` links
    it to the create lemmas. Every method that can fail states the error conditions in
    the order the source checks them, and states that a failure changes nothing.

The model follows the code as written. The points below are behaviours of that code that
a caller may not expect:

- **The cycle check can never fire.** `createNode` (src/nodes/nodes.service.ts:46-48)
  and `validateAndFetchNodes` (src/nodes/nodes.service.ts:124-126) load the prospective
  parent without any relation. `detectCycle` therefore finds no `parent` on it and
  returns false at once.
  - `NodesService.DetectCycle` is modelled as the loop over whatever object graph it is
    handed, and is proved exact for every graph.
  - The callers hand it `LoadedAlone`, the row on its own, so `ValidateAndFetchNodes`
    passes whenever both ids exist, and `CreateNode` never fails.
- **The walk looks for its start node, not the node being moved.** Moving a node under
  itself or under one of its own descendants is not rejected.
  - Under both policies, making a node its own parent creates a cycle (`MoveUnderSelf`).
  - Under the shift policy, moving a node under one of its descendants also creates a
    cycle (`MoveUnderDescendant`). `MoveWithShiftAcyclic` therefore takes "the new parent
    is outside the node's subtree" as a hypothesis. The code does not check this.
  - The without-shift policy detaches the children first, so a move under a former
    descendant keeps the forest acyclic (`MoveWithoutShiftAcyclic` assumes only that the
    new parent is another node).
- **An unknown `parentId` on create is not an error.** The new node becomes a root.
- **Delete without shift removes only the node and its direct children.** It does not
  remove the whole subtree, so grandchildren are left naming a removed id
  (`RemoveWithoutShiftOrphans`). These are the writes the service issues. The parent
  key is `NO ACTION` (src/migrations/1730654124824-InitialSchema.ts:11) and the schema
  is not synchronised from the entity (src/data-source.ts:18). So the database refuses
  such a delete, and the call fails with nothing changed.
- **Delete with shift on a root leaves the children naming the removed id.**
  `RemoveWithShiftIntegrity` states exactly when that breaks referential integrity. As
  with the grandchildren above, the database then refuses the delete, and the call
  fails with nothing changed.
- **The two cycle errors differ.** Create throws a plain `Error` (`CycleOnCreate`) and
  reparenting throws a `BadRequestException` (`CycleOnUpdate`).

`updateNodeWithoutShift` (src/nodes/nodes.service.ts:104) empties `node.children` and
saves the node. The model takes this as the ORM clearing the parent column of every row that still names the node. So when the node had
no parent, its children become roots, and afterwards no row names the moved node.

## Model

| member | source | states |
|---|---|---|
| Entity.ChildrenInverse | src/nodes/entities/node.entity.ts:18-23 | `parent` and `children` are inverse relations: a row is among the children of a stored `n` exactly when its loaded parent is `n` |
| Closure.ReturnWithinStore | src/nodes/nodes.service.ts:138-145 | a walk up that returns to its start does so within as many steps as there are stored nodes, so a walk bounded by the node count loses no cycle |
| Closure.WalkEndsWithoutReturn | src/nodes/nodes.service.ts:140-144 | once the walk reaches a root, or has run as many steps as there are nodes without meeting its start, the start is not its own ancestor |
| Palette.Advance | src/nodes/nodes.service.ts:37 | the cursor moves to the next slot, wraps from the last slot back to 0, and stays inside the pool |
| Palette.AssignedInOrder | src/nodes/nodes.service.ts:15-39 | the i-th of k consecutive assignments yields the pool entry i places after the starting cursor, counted round the pool |
| Palette.CursorAfterWraps | src/nodes/nodes.service.ts:35-39 | after k assignments the cursor has moved k places modulo 11 and is still a valid index |
| Palette.AssignedPeriodic | src/nodes/nodes.service.ts:15-39 | assignment i + 11 yields the same colour as assignment i |
| Palette.FirstRound | src/nodes/nodes.service.spec.ts:58-82 | the first colour from a fresh cursor is "#F6AF8E", eleven assignments give the whole pool in order, and the twelfth wraps back to the first |
| Mutations.CreateClosure | src/nodes/nodes.service.ts:54-64 | inserting a fresh row leaves every existing node's ancestors unchanged; the new node's ancestors are exactly its parent's closure, and its closure rows are its reflexive row plus a copy of its parent's rows |
| Mutations.CreateTable | src/nodes/nodes.service.ts:54-64 | the closure table after a create is the old table plus the new node's reflexive row plus a copy of each of its parent's rows with the new node as descendant |
| Mutations.CreateAcyclic | src/nodes/nodes.service.ts:54-64 | creating a node keeps the forest acyclic |
| Mutations.MoveWithShift | src/nodes/nodes.service.ts:73-74 | only the moved node's parent column changes; no row appears or disappears |
| Mutations.MoveWithShiftOutside | src/nodes/nodes.service.ts:73-74 | a node outside the moved subtree keeps exactly its ancestors |
| Mutations.MoveWithShiftSubtree | src/nodes/nodes.service.ts:73-74 | in the moved subtree, a node's new ancestors are its old ancestors inside the subtree plus the new parent and the new parent's ancestors, when the new parent lies outside the subtree |
| Mutations.MoveWithShiftAcyclic | src/nodes/nodes.service.ts:67-75 | moving a node under a parent outside its subtree keeps the forest acyclic |
| Mutations.MoveUnderDescendant | src/nodes/nodes.service.ts:131-133 | on an acyclic table the walk from a descendant finds no cycle, yet moving the node under that descendant makes the node its own ancestor |
| Mutations.Rehome | src/nodes/nodes.service.ts:91-97 | every row naming `n` as parent now names the given parent, and every other row is unchanged |
| Mutations.MoveWithoutShift | src/nodes/nodes.service.ts:86-106 | the moved node's parent becomes the new parent; its former children take its original parent (or none); no other row changes; afterwards no other row names the moved node |
| Mutations.MoveWithoutShiftSkips | src/nodes/nodes.service.ts:86-106 | on an acyclic table every node other than the moved one loads the parent it had, except that a former child loads the moved node's original parent |
| Mutations.MoveWithoutShiftClosure | src/nodes/nodes.service.ts:86-106 | every other node keeps its ancestors minus the moved node; the moved node's ancestors become the new parent and its ancestors other than itself |
| Mutations.MoveWithoutShiftAcyclic | src/nodes/nodes.service.ts:77-112 | moving a single node under any other node keeps the forest acyclic, even under a former descendant |
| Mutations.MoveUnderSelf | src/nodes/nodes.service.ts:114-136 | on an acyclic table the walk from the node finds no cycle, yet under both policies making a node its own parent creates one |
| Mutations.RemoveWithShift | src/nodes/nodes.service.ts:157-175 | the node's row disappears; when it had a parent its children take that parent; every other row is unchanged |
| Mutations.RemoveWithShiftSkips | src/nodes/nodes.service.ts:157-175 | every remaining node loads its old parent, except that a child of the removed node loads the removed node's parent |
| Mutations.RemoveWithShiftClosure | src/nodes/nodes.service.ts:157-175 | the closure afterwards is exactly the old closure without the rows that name the removed node |
| Mutations.RemoveWithShiftTable | src/nodes/nodes.service.ts:157-175 | the closure table after delete with shift is the old table without every row that names the removed node |
| Mutations.RemoveWithShiftAcyclic | src/nodes/nodes.service.ts:147-179 | deleting with shift keeps the forest acyclic |
| Mutations.RemoveWithShiftIntegrity | src/nodes/nodes.service.ts:157-175 | from an intact table the result is intact exactly when the removed node had a parent or had no children |
| Mutations.RemoveWithoutShift | src/nodes/nodes.service.ts:192 | exactly the node and its direct children disappear, and every remaining row is unchanged |
| Mutations.RemoveWithoutShiftOutside | src/nodes/nodes.service.ts:192 | a remaining node outside the removed node's subtree keeps exactly its ancestors |
| Mutations.RemoveWithoutShiftInside | src/nodes/nodes.service.ts:192 | on an acyclic table, a surviving node inside the removed node's subtree keeps exactly those ancestors that survive and lie inside that subtree; it loses everything from the removed children upward |
| Mutations.RemoveWithoutShiftAcyclic | src/nodes/nodes.service.ts:181-194 | deleting without shift keeps the forest acyclic |
| Mutations.RemoveWithoutShiftOrphans | src/nodes/nodes.service.ts:192 | a grandchild survives with a parent column naming a removed row, so the table is no longer intact |
| Nodes.LoadedAlone | src/nodes/nodes.service.ts:124-126 | the row loaded without relations has no loaded parent, so a walk from it finds no cycle |
| Nodes.NodesService.constructor | src/nodes/nodes.service.ts:28-33 | the service starts with the colour cursor at 0 over the given table |
| Nodes.NodesService.AssignColor | src/nodes/nodes.service.ts:35-39 | returns the pool entry under the cursor, which is the one-call case of `Assigned`, advances the cursor round the pool and keeps it valid |
| Nodes.NodesService.DetectCycle | src/nodes/nodes.service.ts:138-145 | reports a cycle exactly when the start node is its own ancestor in the graph walked, so never on an acyclic graph |
| Nodes.NodesService.ValidateAndFetchNodes | src/nodes/nodes.service.ts:114-136 | NotFound for a missing node first, then NotFound for a missing parent, and otherwise passes |
| Nodes.NodesService.CreateNode | src/nodes/nodes.service.ts:41-65 | adds exactly one row under the next id, with the given name and type and the looked-up parent (none if absent or unknown); the row gets a colour and the cursor advances exactly for "location" and "department"; existing rows are unchanged, the new row is a fresh leaf, and the forest stays acyclic |
| Nodes.NodesService.ReassignChildren | src/nodes/nodes.service.ts:91-97 | the loop leaves the table equal to `Rehome` of the table before it |
| Nodes.NodesService.UpdateNodeWithShift | src/nodes/nodes.service.ts:67-75 | the errors in the order checked, each leaving the table unchanged; on success the table is `MoveWithShift` of the old one and stays acyclic when the new parent is outside the subtree |
| Nodes.NodesService.UpdateNodeWithoutShift | src/nodes/nodes.service.ts:77-112 | the errors in the order checked, each leaving the table unchanged; on success the table is `MoveWithoutShift` of the old one and stays acyclic when the new parent is another node |
| Nodes.NodesService.DeleteNodeWithShift | src/nodes/nodes.service.ts:147-179 | NotFound for a missing id with the table unchanged; otherwise the table is `RemoveWithShift` of the old one and stays acyclic |
| Nodes.NodesService.DeleteNodeWithoutShift | src/nodes/nodes.service.ts:181-194 | NotFound for a missing id with the table unchanged; otherwise the table is `RemoveWithoutShift` of the old one and stays acyclic |

## Left out

- `getOrganizationTree` (src/nodes/nodes.service.ts:196-198) is a single call to the ORM's `findTrees`. It has no logic of its own.
- The closure table is not stored. The ORM writes its rows implicitly, so the model derives the relation from the parent links and proves what each mutation does to it.
- Logging, `async`/`await` sequencing and the missing transactions are not modelled. The model treats each operation as one atomic step, so a failure between two child saves is not captured. Concurrent requests racing on `colorIndex` or on the table are not captured either.
- Nodes.NodesService.DetectCycle: when the walk enters a loop that does not pass through its start, the source's loop never ends. The model stops after as many steps as the graph has nodes and reports no cycle. In the running code the graph is a single row, so this case cannot arise there.
- Nodes.FindParent: an absent `parentId` is modelled as finding no parent. The ORM's handling of a lookup whose key is `undefined` is not modelled. If the ORM drops that `where` entry, `findOne` (src/nodes/nodes.service.ts:46-48) returns some existing row, and a create without `parentId` attaches the new node under that row instead of making a root.
- Nodes.NodesService.DeleteNodeWithShift: the database's reaction to a row left naming a removed id is not modelled. The migration declares the foreign key `NO ACTION` (src/migrations/1730654124824-InitialSchema.ts:11) while the entity says `CASCADE`, and the schema is not synchronised from the entity (src/data-source.ts:18). So the database refuses such a delete and the real call fails with nothing changed. The model instead shows the table the service's writes would produce, with the dangling reference, and `RemoveWithShiftIntegrity` states when that happens.
- Nodes.NodesService.DeleteNodeWithoutShift: the same holds for grandchildren (`RemoveWithoutShiftOrphans`).
- Exceptions are modelled as returned `Failure` values. Their messages and HTTP status codes are not modelled.
- The order of the `children` array is not modelled. Children are a set, and the loop visits them in an arbitrary order, which cannot change its result.
- The updating methods return the saved row, not the ORM entity with its loaded relations.
- Ids are unbounded integers. Overflow of the `SERIAL` sequence is not modelled.
- Request validation (src/nodes/dto/create-node.dto.ts), HTTP routing (src/nodes/nodes.controller.ts), module wiring and database bootstrapping are not part of this model.
