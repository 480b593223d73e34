# Verified model of the knowledge substrate's core

A Dafny model of five connected components and the laws they are built on.

* **Concept graph** (`Graph`, `ConceptGraphs`, `Reach`, `Incremental`, `Propagate`, `Projection`): an
  adjacency-indexed typed graph, its three breadth-first walks, the incremental update engine and the projection from
  memory observations.
* **Audit log** (`AuditLogs`, `AuditPersist`): an append-only log with secondary indexes, its query planner, and the
  persist-first protocol that several handles run against one table.
* **Persistent graph** (`GraphPersist`, `GraphMirror`, `GraphPages`, `PersistentGraphs`): the graph mirrored to two
  tables with rollback in memory and a two-row transaction on disk, loaded whole or window by window.
* **Proposal lifecycle and ACL sync** (`Lifecycle`, `AclSync`).
* **Truncated-JSON closer** (`JsonCloser`, `JsonTexts`, `JsonSalvage`): the closer against a grammar of well-bracketed
  texts, and against a grammar of JSON with an automaton that accepts exactly its texts.

Each component has its state as a value with the effect of every operation as a function, a class whose methods change
fields in place and are proved to have exactly that effect, and the laws as lemmas over the values: over every state,
every run or every interleaving. `dafny verify dfyconfig.toml` checks everything.

Modelling choices. Random ids and clock readings are parameters. Encoding, encryption and decoding of a row is the
identity. A statement that may fail takes its success as a parameter; crashes are events. Name-based UUIDs are a
constructor, hence injective and apart from random ones; where rows are ordered by id, the id column is a parameter that
tells distinct ids apart. Iteration orders that the source leaves open (hash maps, ties in `ORDER BY`) are left open. Confidence is a real number.

Where the code and its documentation disagree, the code is modelled. Each difference has an input that shows it and
the exact condition under which the documented property holds:

| property | fails at | holds exactly when |
|---|---|---|
| no double insert of an edge | `Graph.RepeatedEdgeIdBreaksCoherence` | `Graph.AddEdgeCoherentIffFresh` |
| the scope is a strict subset of the affected nodes | `Incremental.ScopeNeedNotBeStrict` | `Incremental.ScopeStrictIff` |
| transitions are real changes | `Propagate.ReportedWithoutMoving` | `Propagate.TransitionsRealIff` |
| sequence numbers are strictly monotonic | `AuditLogs.CounterRepeats` | `AuditLogs.StrictlyMonotonicIff` |
| a deserialised log numbers on correctly | `AuditLogs.WrongCounterTrusted` | `AuditLogs.TrustedCounterIff` |
| a grant leaves one tuple for its pair | `AclSync.GrantLeavesOther` | `AclSync.GrantExactIff` |
| a failed edge insert is undone | `GraphPersist.FailedEdgeLosesEarlier` | `GraphPersist.FailedEdgeUndoneIff` |
| a persisted scope loads | `GraphMirror.CrossScopeRunBlocksLoad` | `GraphMirror.LoadScopeExact` |
| promotion respects the TTL | `Lifecycle.ExpiredProposalPromoted` | `Lifecycle.PromotedInTimeIff` |
| a dropped duplicate leaves no trace | `Projection.DroppedDuplicateLinks` | `Projection.DuplicatesHarmlessIff` |
| the projected graph is coherent | `Projection.RepeatedPointerIncoherent` | `Projection.ProjectCoherentIff` |
| projecting again gives an identical graph | `Projection.SecondProjectionDiffers` | `Projection.ProjectIdenticalIff` |
| a closed text is JSON | `JsonSalvage.ClosedNeedNotBeJson` | `JsonSalvage.CutJsonIff`, `JsonSalvage.ClosedJsonIff` |

The supersedes edge runs from predecessor to successor in the graph and from successor to predecessor in the projection,
as in the code.

## Model

| member | source | states |
|---|---|---|
| Graph.RunCoherent | crates/concept_graph/src/graph.rs:64-268 | every run of mutations whose edge ids are fresh keeps the four maps coherent: no dangling edge, and each adjacency list names without repeats exactly the edges leaving or entering its node |
| Graph.ApplyCoherent | crates/concept_graph/src/graph.rs:64-268 | one mutation: a refused one leaves the graph as it was, a fresh one keeps it coherent |
| Graph.AddEdgeCoherentIffFresh | crates/concept_graph/src/graph.rs:75-92 | the code accepts a repeated edge id; coherence survives exactly when the id was unused (or an endpoint is missing) |
| Graph.RepeatedEdgeIdBreaksCoherence | crates/concept_graph/src/graph.rs:14-18 | the documented "no double-insert" fails: a coherent graph and an accepted edge that make it incoherent |
| Graph.RemoveNodeDropsIncident | crates/concept_graph/src/graph.rs:94-119 | removing a node drops exactly its incident edges, self-loops included, and stays coherent |
| Graph.AddThenRemoveNode | crates/concept_graph/src/graph.rs:64-119 | adding a node and removing it restores the prior graph |
| Graph.AddThenRemoveEdgeIffFresh | crates/concept_graph/src/graph.rs:80-148 | adding an edge and removing it restores the prior graph exactly when its id was unused |
| Graph.AddNodeExact | crates/concept_graph/src/graph.rs:58-73 | refused exactly for an id in use; otherwise one node more, no edge touched, lists left under the id kept |
| Graph.AddEdgeExact | crates/concept_graph/src/graph.rs:75-92 | refused exactly for a missing end, the source looked at first; otherwise one edge, listed last at both its ends |
| Graph.RemovalAnswers | crates/concept_graph/src/graph.rs:94-148 | a removal answers with what was there or that there was nothing; an edge removal touches that edge only |
| Graph.SupersedeExact | crates/concept_graph/src/graph.rs:202-230 | which refusals come in which order; on success the predecessor alone changes, to Superseded by the successor from now on, and one supersedes edge with its scope is new |
| Graph.ContradictExact | crates/concept_graph/src/graph.rs:232-268 | which refusals come in which order; on success the two nodes alone change, Contradicted and pointing at each other, and one contradicts edge each way is new |
| ConceptGraphs.EdgesAtCount | crates/concept_graph/src/graph.rs:160-178 | the incident-edge listing holds each incident edge once, a self-loop twice, and no other edge |
| ConceptGraphs.NeighborsMembers | crates/concept_graph/src/graph.rs:180-200 | neighbours are without repeats and are exactly the targets of the listed edges that pass the relation filter |
| ConceptGraphs.NeighborsInOrder | crates/concept_graph/src/graph.rs:180-200 | neighbours come in the order in which the outgoing list first leads to them |
| ConceptGraphs.EdgesAtInOrder | crates/concept_graph/src/graph.rs:160-178 | on a coherent graph the incident-edge listing follows the outgoing list and then the incoming one |
| ConceptGraphs.StepsAgree | crates/concept_graph/src/graph.rs:14-26 | on a coherent graph the adjacency lists and the edge map describe the same one-relation step relation |
| ConceptGraphs.ConceptGraph.AddNode | crates/concept_graph/src/graph.rs:58-73 | in place: the new state and answer are those of Graph.AddNode |
| ConceptGraphs.ConceptGraph.AddEdge | crates/concept_graph/src/graph.rs:75-92 | in place: the new state and answer are those of Graph.AddEdge |
| ConceptGraphs.ConceptGraph.RemoveNode | crates/concept_graph/src/graph.rs:94-119 | the removal loop, in any iteration order, leaves exactly the state of Graph.RemoveNode, on every graph |
| ConceptGraphs.ConceptGraph.RemoveEdge | crates/concept_graph/src/graph.rs:121-148 | in place: the new state and answer are those of Graph.RemoveEdge |
| ConceptGraphs.ConceptGraph.GetEdges | crates/concept_graph/src/graph.rs:160-178 | the two loops return the outgoing then the incoming listed edges, skipping ids without an edge |
| ConceptGraphs.ConceptGraph.Neighbors | crates/concept_graph/src/graph.rs:180-200 | the loop returns the filtered targets at their first occurrence |
| ConceptGraphs.ConceptGraph.SupersedeNode | crates/concept_graph/src/graph.rs:202-230 | in place: the new state and answer are those of Graph.SupersedeNode |
| ConceptGraphs.ConceptGraph.MarkContradiction | crates/concept_graph/src/graph.rs:232-268 | in place: the new state and answer are those of Graph.MarkContradiction |
| ConceptGraphs.ConceptGraph.TraverseTyped | crates/concept_graph/src/graph.rs:270-298 | terminates and returns exactly the nodes other than the start within the bound (the whole closure without one), each once, in non-decreasing shortest distance |
| Reach.BallIsWalks | crates/concept_graph/src/graph.rs:270-298 | "within d steps" is the same as being the end of a walk of at most d steps |
| Reach.BallIsClosure | crates/concept_graph/src/incremental.rs:206-212 | as many steps as there are vertices reach everything reachable |
| Reach.SearchExact | crates/concept_graph/src/graph.rs:282-297 | a finished queue-driven search has discovered exactly what lies within the bound |
| Reach.SearchNearestFirst | crates/concept_graph/src/graph.rs:282-297 | discovery order is order of shortest distance |
| Incremental.Engine.AffectedBy | crates/concept_graph/src/incremental.rs:233-283 | affected nodes are exactly what lies within the depth bound of the present anchors, where an anchor steps to any incident node and any other node only to its derived_from dependents; affected edges are exactly those listed at affected nodes; the reported depth is the largest shortest distance; an edge event yields only its edge |
| Incremental.EdgesAtIncident | crates/concept_graph/src/incremental.rs:260-279 | on a coherent graph "listed at a node" means incident on it |
| Incremental.SeedsExact | crates/concept_graph/src/incremental.rs:77-90 | the anchors of each kind of event, as far as they are in the graph |
| Incremental.ImpactFromEdges | crates/concept_graph/src/incremental.rs:255-279 | on a coherent graph, read off the edge map: an anchor steps to the other end of any of its edges, any other node to the sources of derived_from edges ending in it |
| Incremental.ProvenanceFromEdges | crates/concept_graph/src/incremental.rs:300-322 | on a coherent graph provenance leads to the sources of derived_from edges ending in the node, inside the affected set for the scope |
| Incremental.IncidentFromEdges | crates/concept_graph/src/incremental.rs:260-279 | on a coherent graph the recorded edges are those that start or end in the affected nodes |
| Incremental.DeepestAttained | crates/concept_graph/src/incremental.rs:255-283 | every affected node is within the reported depth and one of them no nearer |
| Incremental.Engine.RecomputeFor | crates/concept_graph/src/incremental.rs:285-324 | without repeats exactly the nodes reachable from present anchors along reverse derived_from inside the affected set, nearest first, beginning with the present anchors |
| Incremental.ScopeInsideAffected | crates/concept_graph/src/incremental.rs:142-151 | the recompute scope is part of the affected nodes |
| Incremental.ScopeHoldsDependents | crates/concept_graph/src/incremental.rs:93-101 | the scope contains every dependent within d provenance hops |
| Incremental.ScopeIsClosure | crates/concept_graph/src/incremental.rs:206-212 | with a bound of at least the node count the scope is the whole provenance closure |
| Incremental.AffectedIsProvenance | crates/concept_graph/src/incremental.rs:234-283 | for a positive bound d the affected nodes are exactly what lies within d - 1 provenance hops of the present anchors and their direct neighbours |
| Incremental.ScopeStrictIff | crates/concept_graph/src/incremental.rs:142-151 | the documented strict subset holds exactly when the bound d is positive and some direct neighbour of a present anchor is not reached from one by provenance through nodes within d - 1 hops of an anchor or neighbour |
| Incremental.ScopeStrictDeepIff | crates/concept_graph/src/incremental.rs:142-151 | with a bound of at least the node count: strict exactly when some direct neighbour is outside the provenance closure |
| Incremental.ScopeStrictBounds | crates/concept_graph/src/incremental.rs:142-151 | for every positive bound a direct neighbour outside the provenance closure makes it strict; direct neighbours all within the bound make scope and affected nodes equal |
| Incremental.ScopeNeedNotBeStrict | crates/concept_graph/src/incremental.rs:142-151 | on a one-node graph scope and affected nodes are equal at every bound |
| Propagate.PropagateChange | crates/concept_graph/src/incremental.rs:350-397 | walks first, on the old graph; on error the graph is unchanged; otherwise state, transitions and removed edges are those of Propagate.Settle, and the walks' results are reported: affected nodes and edges, the largest shortest distance, and the scope without repeats, nearest first |
| Propagate.SettleRefusal | crates/concept_graph/src/incremental.rs:360-388 | a change is refused exactly for a missing or repeated anchor, and then nothing changes |
| Propagate.SettleFrame | crates/concept_graph/src/incremental.rs:360-388 | on success only anchors differ, every node whose state changed is reported with its new state, and edges differ only by the named additions or removal |
| Propagate.PromotionExact | crates/concept_graph/src/incremental.rs:360-369 | promoting a candidate makes it Canonical from now on and reports just that; promoting any other present node goes through and changes nothing |
| Propagate.ReportsExact | crates/concept_graph/src/incremental.rs:360-388 | what each kind of event reports: the predecessor as Superseded, both nodes as Contradicted, a removed edge exactly when it was there |
| Propagate.SettleCoherent | crates/concept_graph/src/incremental.rs:360-388 | with fresh edge ids a propagation keeps the graph coherent |
| Propagate.TransitionsRealIff | crates/concept_graph/src/incremental.rs:187-189 | "nodes whose state actually changed" is exact unless an anchor already was in the state the event sends it to |
| Propagate.ReportedWithoutMoving | crates/concept_graph/src/incremental.rs:374-380 | superseding a node a second time reports a transition into the state it already has |
| AuditLogs.AuditLog.Query | crates/audit_service/src/log.rs:213-236 | for every combination of filters the planned query returns the same sequence as filtering all entries in order |
| AuditLogs.AuditLog.CandidatePositions | crates/audit_service/src/log.rs:238-289 | no plan exactly when no indexed filter is set; otherwise, in ascending order, exactly the positions that pass the indexed filters, through every branch and early exit |
| AuditLogs.AuditLog.IntersectWith | crates/audit_service/src/log.rs:291-317 | the ascending intersection of the seed, every extra list and the actor's positions |
| AuditLogs.PickIsScan | crates/audit_service/src/log.rs:222-236 | any candidate set that covers the matches gives the full scan's sequence |
| AuditLogs.MatchesMeaning | crates/audit_service/src/log.rs:70-99 | a match is in the scope, has one of the actions, comes from a user or agent with the actor id and lies in the inclusive time bounds, as far as asked |
| AuditLogs.ScanExact | crates/audit_service/src/log.rs:213-221 | the scan holds the matching entries and no others, in log order |
| AuditLogs.IndexExact | crates/audit_service/src/log.rs:393-418 | an index lists, ascending, exactly the positions carrying its key |
| AuditLogs.IndexNext | crates/audit_service/src/log.rs:319-333 | indexing one more entry incrementally equals rebuilding all four indexes from the longer log |
| AuditLogs.AuditLog.Append | crates/audit_service/src/log.rs:154-165 | stamps and appends, and keeps the indexes equal to the rebuilt ones |
| AuditLogs.AppendExact | crates/audit_service/src/log.rs:154-165 | the entry is added last, unchanged but for its number, and the counter goes up by one and sticks at the largest 64-bit number |
| AuditLogs.ReplayExact | crates/audit_service/src/log.rs:167-193 | a replay takes exactly the entry with the next number, as it is |
| AuditLogs.AuditLog.ReplayPersisted | crates/audit_service/src/log.rs:167-193 | accepts exactly the next sequence number, else changes nothing; keeps the indexes equal to the rebuilt ones |
| AuditLogs.AuditLog.RebuildIndexes | crates/audit_service/src/log.rs:335-384 | the rebuild loop gives exactly the indexes of the entries |
| AuditLogs.AuditLog.Get | crates/audit_service/src/log.rs:204-207 | the latest entry with the id, or none exactly when no entry has it |
| AuditLogs.RoundTrip | crates/audit_service/src/log.rs:420-441 | serialise then deserialise gives back every field, the four indexes included |
| AuditLogs.LogRunStamped | crates/audit_service/src/log.rs:154-193 | every run of appends and replays only extends the log and numbers entries by position, capped at the counter limit |
| AuditLogs.StrictlyMonotonicIff | crates/audit_service/src/log.rs:101-103 | sequence numbers are strictly monotonic exactly up to 2^64 entries |
| AuditLogs.CounterRepeats | crates/audit_service/src/log.rs:156-165 | a run of 2^64 + 1 appends from the empty log repeats a sequence number |
| AuditLogs.TrustedCounterIff | crates/audit_service/src/log.rs:424-438 | for every wire, misnumbered entries included: after an append the log is numbered by position exactly when the wire was |
| AuditLogs.WrongCounterTrusted | crates/audit_service/src/log.rs:424-438 | an empty wire whose counter is 5 numbers its first entry 5 |
| AuditPersist.RunSafe | crates/audit_service/src/persist.rs:80-96 | over every interleaving of opens, reloads, closes, appends, failed writes and crashes before or after the row by any number of handles: disk sequences are exactly 0..n-1, every handle holds a prefix of disk, disk only grows, every acknowledged entry survives under its number and in order, and reload succeeds |
| AuditPersist.FreshRunSafe | crates/audit_service/src/persist.rs:80-96 | the same from a fresh database, with no assumption left |
| AuditPersist.StepInv | crates/audit_service/src/persist.rs:186-211 | one event keeps the invariant, and an acknowledged entry is exactly the one added at the end |
| AuditPersist.EventEffects | crates/audit_service/src/persist.rs:130-211 | an open or reload brings the whole tape into one handle, a close or crash ends one, and no other handle changes |
| AuditPersist.AppendAckedIff | crates/audit_service/src/persist.rs:201-211 | an append is acknowledged exactly when nothing fails, the handle is up to date, the id is new and the sequence fits the column |
| AuditPersist.AppendOutcomes | crates/audit_service/src/persist.rs:201-211 | every way an append can end, from any table and log: row, memory and answer for success, overflow, failed or refused write, and crash before or after the row |
| AuditPersist.AckedAppendIsAppend | crates/audit_service/src/persist.rs:206-210 | after an acknowledged append memory is what the plain in-memory append gives, and equals disk |
| AuditPersist.StaleAppendRefused | crates/audit_service/src/persist.rs:188-200 | a handle that was overtaken changes neither table nor memory and gets an error |
| AuditPersist.RefusedAppendChangesNothing | crates/audit_service/src/persist.rs:86-95 | every append answered with an error, for whatever reason and from any state, leaves table and memory as they were |
| AuditPersist.RefusedErased | crates/audit_service/src/persist.rs:93-95 | retrying is safe: a refused append can be struck from any history of any number of handles without changing the state or any acknowledgement |
| AuditPersist.ReloadSucceeds | crates/audit_service/src/persist.rs:226-272 | reload succeeds on such a table and loads all of it in order |
| AuditPersist.ReloadExact | crates/audit_service/src/persist.rs:226-272 | reloading any table: exactly the longest run of intact rows numbered from 0 comes into memory, in order; it succeeds exactly when every row is intact and the sequences are 0, 1, ..., and else tells a tampered row from a gap |
| AuditPersist.TapeUnique | crates/audit_service/src/persist.rs:61-65 | the entry sequence is determined by the table |
| AuditPersist.PersistentAuditLog.Append | crates/audit_service/src/persist.rs:201-211 | persist first, commit second: table, memory and answer are those of AppendEffect |
| AuditPersist.PersistentAuditLog.LoadAll | crates/audit_service/src/persist.rs:226-272 | the reload loop leaves the log and result of LoadedFrom, also when it stops early |
| AuditPersist.Database.SelectInOrder | crates/audit_service/src/persist.rs:230-234 | rows by ascending sequence |
| AuditPersist.Database.Insert | crates/audit_service/src/persist.rs:61-64 | refused exactly on an I/O error or a clash of id or sequence, and keeps both keys unique |
| AuditPersist.OpenLog | crates/audit_service/src/persist.rs:130-181 | a new handle whose memory is the loaded table |
| GraphPersist.SupersedeAtomic | crates/concept_graph/src/persist.rs:275-322 | for every failure point a persistent supersession lands in memory and in both tables, or leaves memory and durable tables as before; the store is untouched on error exactly when it was refused, BEGIN failed or ROLLBACK works |
| GraphPersist.PairAtomic | crates/concept_graph/src/persist.rs:324-369 | the two rows commit together exactly when begin, both writes and commit succeed; otherwise the durable tables are unchanged |
| GraphPersist.FailedNodeUndone | crates/concept_graph/src/persist.rs:229-256 | a failed node insert leaves the store as it was |
| GraphPersist.StoreNodeAnswers | crates/concept_graph/src/persist.rs:243-256 | Ok exactly when the id is new and the write goes through, and then memory and disk hold the node; otherwise which error, and the tables as before |
| GraphPersist.StoreEdgeAnswers | crates/concept_graph/src/persist.rs:265-273 | Ok exactly when both ends are there and the write goes through, and then memory and disk hold the edge; otherwise which error, and the tables as before |
| GraphPersist.SaveNodeAnswers | crates/concept_graph/src/persist.rs:374-381 | Ok exactly when the node is in memory and the write goes through, and then its row is that node; otherwise which error, and the tables as before |
| GraphPersist.SupersedeAnswers | crates/concept_graph/src/persist.rs:286-322 | what a supersession that does not land is told |
| GraphPersist.UpsertNodeExact | crates/concept_graph/src/persist.rs:649-690 | one row is written: scope and payload are the node's, the creation time is the first one written |
| GraphPersist.UpsertEdgeExact | crates/concept_graph/src/persist.rs:692-735 | one row is written: scope, ends and payload are the edge's, the creation time is the first one written |
| GraphPersist.FailedEdgeUndoneIff | crates/concept_graph/src/persist.rs:258-273 | a failed edge insert leaves the store as it was exactly when the edge dangled or its id was unused |
| GraphPersist.FailedEdgeLosesEarlier | crates/concept_graph/src/persist.rs:258-273 | after two nodes and an edge added to the fresh store, a failed write of the same edge id takes the edge out of memory while its row stays |
| GraphMirror.RunSettled | crates/concept_graph/src/persist.rs:92-105 | over every run of the typed mutations and loads with arbitrary write failures, memory stays coherent and every node and edge in memory has an equal row |
| GraphMirror.PerformSettled | crates/concept_graph/src/persist.rs:243-448 | one call keeps memory coherent, mirrored and the connection clean |
| GraphMirror.WritesLand | crates/concept_graph/src/persist.rs:243-381 | in a run every write that goes through shows on disk, both rows of a supersession included |
| GraphMirror.EditThenSave | crates/concept_graph/src/persist.rs:371-381 | a node edited outside the wrapper is mirrored again once saved |
| GraphMirror.LoadScopeExact | crates/concept_graph/src/persist.rs:383-448 | a scope loads exactly when every edge of it has both ends in it; then memory is exactly its rows, coherent, with the right counts; otherwise DanglingEdge, all nodes and some of the edges |
| GraphMirror.CrossScopeEdgeBlocksLoad | crates/concept_graph/src/persist.rs:438-445 | a persisted edge with either end outside its scope makes the scope unloadable |
| GraphMirror.CrossScopeRunBlocksLoad | crates/concept_graph/src/persist.rs:438-445 | from the fresh store, adding two nodes of two scopes and an edge between them is accepted and persisted, and loading the edge's scope then fails with DanglingEdge |
| GraphPages.PageExact | crates/concept_graph/src/persist.rs:471-552 | a window never fails to load: the graph is coherent, holds the windowed nodes and exactly the windowed edges with both ends loaded, and the counts are right |
| GraphPages.OnPageIffLoaded | crates/concept_graph/src/persist.rs:471-552 | being on a page is the same as being loaded by it |
| GraphPages.PagedEdgeIff | crates/concept_graph/src/persist.rs:476-482 | over all pages of one size an edge is loaded by some page exactly when its row and both its ends fall on the same page |
| GraphPages.DiskOrderUnique | crates/concept_graph/src/persist.rs:498-500 | the rows have one order by creation time and id, so successive windows are cut from one listing |
| GraphPages.DiskOrderMeans | crates/concept_graph/src/persist.rs:498-500 | a listing goes by the rows' creation column and then by id |
| GraphPages.DiskAgreesWithMemory | crates/concept_graph/src/persist.rs:554-620 | in a loaded scope the disk query at a node returns the edges that the in-memory listing returns, each once; the two agree as multisets exactly when the node has no self-loop |
| GraphPages.MissedEdgeRecovered | crates/concept_graph/src/persist.rs:476-482 | the disk query at either end finds every edge between nodes of the scope, among them every edge that no page loads |
| PersistentGraphs.Connection.PersistPairInTx | crates/concept_graph/src/persist.rs:328-369 | the statements of the transaction leave the connection state of PersistPair |
| PersistentGraphs.PersistentConceptGraph.AddNode | crates/concept_graph/src/persist.rs:243-256 | insert, mirror, undo on failure: StoreNode |
| PersistentGraphs.PersistentConceptGraph.AddEdge | crates/concept_graph/src/persist.rs:265-273 | insert, mirror, undo on failure: StoreEdge |
| PersistentGraphs.PersistentConceptGraph.SupersedeNode | crates/concept_graph/src/persist.rs:286-322 | snapshot, supersede, write the pair, restore on failure: Supersede |
| PersistentGraphs.PersistentConceptGraph.SaveNode | crates/concept_graph/src/persist.rs:374-381 | flush one node: SaveNode |
| PersistentGraphs.PersistentConceptGraph.LoadScope | crates/concept_graph/src/persist.rs:386-448 | the two loops leave the graph and result of LoadGraph on a listing of the scope's rows in creation order |
| PersistentGraphs.PersistentConceptGraph.LoadScopePaginated | crates/concept_graph/src/persist.rs:483-552 | the two loops leave the graph and result of LoadPage on the window of the listing by creation time and id |
| PersistentGraphs.PersistentConceptGraph.QueryNeighborsFromDisk | crates/concept_graph/src/persist.rs:583-620 | the loop returns the scope's edge rows at the node, each once, by creation time and id |
| PersistentGraphs.OrderByCreation | crates/concept_graph/src/persist.rs:398-401 | every id once, in creation order, ties in any order |
| PersistentGraphs.OrderByCreationThenId | crates/concept_graph/src/persist.rs:498-500 | every id once, by creation time and then id |
| Lifecycle.PromotedIsJustified | crates/agent_contract/src/lifecycle.rs:549-622 | in every run a promoted proposal has exactly one successful review; its policy matched the unexpired proposal's confidence, corroboration and sensitivity at that moment and there was no explicit promotion, or it did not match and exactly one explicit promotion followed |
| Lifecycle.AutoPromotionJustified | crates/agent_contract/src/lifecycle.rs:562-602 | a review promotes exactly a Proposed, unexpired proposal whose confidence, corroboration and sensitivity match its policy at that moment |
| Lifecycle.SubmitExact | crates/agent_contract/src/lifecycle.rs:441-505 | accepted exactly for a well-formed envelope with a new id, whose content the new Proposed record takes field by field |
| Lifecycle.CorroborateExact | crates/agent_contract/src/lifecycle.rs:524-547 | accepted exactly for an open, unexpired proposal, counted once up to the 32-bit limit; an expired one is Rejected with ttl_expired and the answer says so |
| Lifecycle.ReviewExact | crates/agent_contract/src/lifecycle.rs:562-602 | AutoPromoted exactly for a Proposed, unexpired proposal with enough confidence and corroboration, not too sensitive, and not reserved for people; NeedsHumanReview exactly for the others of these; every refusal and its effect |
| Lifecycle.PromoteExact | crates/agent_contract/src/lifecycle.rs:607-622 | accepted exactly from UnderReview, and then only state and time change |
| Lifecycle.RejectExact | crates/agent_contract/src/lifecycle.rs:646-662 | accepted exactly for an open proposal, which is then Rejected with the reason given |
| Lifecycle.HistoryExplains | crates/agent_contract/src/lifecycle.rs:1-20 | in every run each state is explained by the successful reviews and promotions before it |
| Lifecycle.RunSane | crates/agent_contract/src/lifecycle.rs:277-280 | in every run a rejection reason is present exactly when the state is Rejected, and stored values are in range |
| Lifecycle.TerminalForever | crates/agent_contract/src/lifecycle.rs:537-561 | a terminal proposal is the same record after any further calls, resubmission of its id included |
| Lifecycle.ArtifactForever | crates/agent_contract/src/lifecycle.rs:664-716 | a promoted proposal yields the same canonical artifact after any further calls |
| Lifecycle.ArtifactFromSubmission | crates/agent_contract/src/lifecycle.rs:676-716 | the artifact carries kind, scope and payload of the one accepted submission behind it, its sensitivity unless it is a relation, and its evidence if it is an observation |
| Lifecycle.ArtifactIff | crates/agent_contract/src/lifecycle.rs:676-700 | an artifact exists exactly for a promoted proposal |
| Lifecycle.NamespacesSpellKinds | crates/agent_contract/src/lifecycle.rs:731-772 | the id namespace of each kind begins with the letters of its name |
| Lifecycle.ArtifactIdsDistinct | crates/agent_contract/src/lifecycle.rs:668-675 | two artifacts share an id exactly when they come from the same proposal |
| Lifecycle.CanonicalIdInjective | crates/agent_contract/src/lifecycle.rs:731-772 | derived ids agree exactly when kind and proposal id do |
| Lifecycle.ContentFixed | crates/agent_contract/src/lifecycle.rs:774-797 | every stored proposal comes from exactly one accepted submission and keeps its content |
| Lifecycle.CorroborationsCounted | crates/agent_contract/src/lifecycle.rs:507-547 | the corroboration count is the number of accepted corroborations, saturating |
| Lifecycle.DefaultPolicyDenies | crates/agent_contract/src/lifecycle.rs:93-115 | the default policy never promotes anything, in any run |
| Lifecycle.DefaultPolicyExact | crates/agent_contract/src/lifecycle.rs:93-115 | the default policy sets every bar as high as it goes |
| Lifecycle.PromoteIff | crates/agent_contract/src/lifecycle.rs:604-622 | explicit promotion succeeds exactly from UnderReview, whatever the TTL |
| Lifecycle.PromotedInTimeIff | crates/agent_contract/src/lifecycle.rs:604-622 | in every run one call made a promoted proposal Promoted, and the TTL had not run out then exactly when that call was a review or an explicit promotion made before the TTL ran out |
| Lifecycle.ExpiredProposalPromoted | crates/agent_contract/src/lifecycle.rs:607-622 | a run that promotes a proposal whose TTL has elapsed |
| Lifecycle.ProposalStore.Submit | crates/agent_contract/src/lifecycle.rs:441-505 | in place: SubmitTo |
| Lifecycle.ProposalStore.RecordCorroboration | crates/agent_contract/src/lifecycle.rs:524-547 | in place: CorroborateIn |
| Lifecycle.ProposalStore.Review | crates/agent_contract/src/lifecycle.rs:562-602 | in place: ReviewIn |
| Lifecycle.ProposalStore.Promote | crates/agent_contract/src/lifecycle.rs:607-622 | in place: PromoteIn |
| Lifecycle.ProposalStore.Reject | crates/agent_contract/src/lifecycle.rs:646-662 | in place: RejectIn |
| AclSync.LastDeltaWins | crates/connector_framework/src/acl_sync.rs:223-243 | from a store with at most one direct tuple per pair, any delta list leaves each resolved pair exactly as its last delta says, every other tuple as it was, and still at most one per pair |
| AclSync.SyncedExactly | crates/connector_framework/src/acl_sync.rs:223-323 | the same in the mapping's own terms: a direct tuple that a delta names stands exactly when the last such delta grants it, at the relation mapped to its level or else as viewer |
| AclSync.CountsExact | crates/connector_framework/src/acl_sync.rs:245-323 | removals and arrivals are what really left and joined the store; an arrival is an insertion when the pair had no tuple, else an update |
| AclSync.OnlyLastSameStore | crates/connector_framework/src/acl_sync.rs:223-243 | applying only the last delta of each pair gives the same store |
| AclSync.OthersUntouched | crates/connector_framework/src/acl_sync.rs:223-243 | userset tuples and unnamed pairs are untouched, from any store |
| AclSync.SizeConserved | crates/connector_framework/src/acl_sync.rs:185-206 | size after = size before + inserted + updated - removed, from any store |
| AclSync.UnknownReported | crates/connector_framework/src/acl_sync.rs:201-206 | exactly the unresolved documents and users are reported, in order |
| AclSync.GrantExactIff | crates/connector_framework/src/acl_sync.rs:260-267 | a grant leaves exactly its own tuple for the pair, unless that tuple already stood beside another one |
| AclSync.GrantLeavesOther | crates/connector_framework/src/acl_sync.rs:265-267 | from a store with two relations of a pair, granting one of them leaves both |
| AclSync.AclSyncEngine.Sync | crates/connector_framework/src/acl_sync.rs:230-243 | the loop leaves the store and report of ApplyAll |
| AclSync.AclSyncEngine.ApplyGrant | crates/connector_framework/src/acl_sync.rs:245-293 | one grant: store and report of ApplyDelta; no insertion or removal is ever refused |
| AclSync.AclSyncEngine.ApplyRevoke | crates/connector_framework/src/acl_sync.rs:295-323 | one revocation: store and report of ApplyDelta; no removal is ever refused |
| JsonCloser.ClosedIffPrefix | demos/executive-personas/run_personas.py:530-568 | a result is returned exactly for the prefixes of well-bracketed texts |
| JsonCloser.ClosedIsWellBracketed | demos/executive-personas/run_personas.py:530-568 | every result is a well-bracketed text: nested, fully closed, no open string |
| JsonCloser.ClosedKeepsInput | demos/executive-personas/run_personas.py:559-568 | every result keeps the input up to a cut, drops one dangling backslash or trailing blanks, commas and colons, and adds only a quote and closing brackets |
| JsonCloser.ClosedIdempotent | demos/executive-personas/run_personas.py:530-568 | closing a result again changes nothing |
| JsonCloser.CloseTruncatedJson | demos/executive-personas/run_personas.py:530-568 | the three loops compute Closed |
| JsonTexts.AcceptsIff | demos/executive-personas/run_personas.py:571-585 | the stack automaton accepts exactly the JSON texts of the grammar of RFC 8259 |
| JsonTexts.UnsignedIff | demos/executive-personas/run_personas.py:571-585 | the number recogniser accepts exactly int, [frac], [exp] of the standard |
| JsonSalvage.CutJsonIff | demos/executive-personas/run_personas.py:530-568 | for every JSON text and every cut of it a result is returned, and the result is JSON exactly when the cut is not before the first token, not in a key or between a key and its value, not in a `\u` escape, and not in a scalar whose part so far is no scalar |
| JsonSalvage.SalvageableAt | demos/executive-personas/run_personas.py:530-568 | that condition, by where in the grammar the cut stands |
| JsonSalvage.ClosedJsonIff | demos/executive-personas/run_personas.py:530-568 | for every input with a result, the result is JSON exactly when the kept part stands in such a state |
| JsonSalvage.ClosedNeedNotBeJson | demos/executive-personas/run_personas.py:563-568 | a JSON object cut between a key and its value closes to a text that is not JSON |
| Projection.ProjectExact | crates/concept_graph/src/projection.rs:22-29 | for distinct ids: one node per input, exactly one supersedes edge per non-self pointer to a present input, and a coherent graph |
| Projection.ProjectedFields | crates/concept_graph/src/projection.rs:78-145 | for every input, field by field: each id's node is its first occurrence, and the edges are the supersedes edges of the pointers to other inputs, each made from the last input that has it |
| Projection.ProjectOrderFree | crates/concept_graph/src/projection.rs:45-48 | for distinct ids neither input order nor clock matters: same nodes, same edge ids, edges equal up to their creation time |
| Projection.ProjectIdenticalIff | crates/concept_graph/src/projection.rs:45-48 | for every input, repeated ids included, two projections are equal in everything exactly when the clocks agree wherever the last link with its edge id is stamped |
| Projection.SecondProjectionDiffers | crates/concept_graph/src/projection.rs:45-48 | one pointing input and its target, projected at two times, give two different graphs |
| Projection.ProjectCoherentIff | crates/concept_graph/src/projection.rs:102-145 | the projected graph is coherent exactly when no two inputs repeat one resolved pointer |
| Projection.RepeatedPointerIncoherent | crates/concept_graph/src/projection.rs:110-145 | one pointing input given twice with its target projects to an incoherent graph |
| Projection.DuplicatesHarmlessIff | crates/concept_graph/src/projection.rs:117-145 | later occurrences of an id never change a node; the edges equal, up to creation time, those of the first occurrences alone exactly when every pointer that resolves repeats its first occurrence's pointer and the last such one repeats its scope |
| Projection.DroppedDuplicateLinks | crates/concept_graph/src/projection.rs:117-131 | an input dropped as a duplicate still makes an edge, in a coherent graph none of whose nodes has that pointer |
| Projection.OverwrittenScopeHarmless | crates/concept_graph/src/projection.rs:133-143 | a differing scope that a later occurrence overwrites again leaves no trace |
| Projection.ItemsGiveNodes | crates/concept_graph/src/projection.rs:117-131 | one node per id, made from its first occurrence |
| Projection.ProjectMemoryGraph | crates/concept_graph/src/projection.rs:110-145 | the two loops build Project |

## Left out

- Encryption, key derivation, nonces, row decoding failures, schema versions and snapshots: encode then decode is the identity.
- Errors of `SELECT` statements and of opening a database file.
- What Python's parser accepts beyond RFC 8259 (`NaN`, `Infinity`).
- Edits of the in-memory graph that bypass the persistent wrapper, other than one edit followed by a save.
- `permission_service`: the tuple store is a set whose insert and remove report absence or presence; its lookup index is left out.
- The text checks of proposal envelopes are one verdict; agent names, models and recipes are left out.
- Floating point: confidence is real, and the default policy's threshold is some number above 1.
- Builders, string tags, counters of nodes and rows, visualisation, the memory manager, sync, the inference router, bindings, the admin interface and the demo drivers.
- AuditLogs.InsertByLength: the order in which candidate lists are intersected is modelled, but its being by length is not stated, since it affects cost only.
