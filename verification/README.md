# Deadlock detection and resolution core, in Dafny

This project models the logic behind the deadlock demo's web endpoints in
`app.py`. It covers three things:

- the in-memory **process table**, which maps a process name to the resource the
  process holds and the resource it requests;
- the **deadlock detector**, which builds the resource-allocation graph and
  reports whether it has a directed cycle;
- the **resolution policy**, which terminates one process when a deadlock exists.

The table is a value, not a global. `Store(order, table)` pairs the map with the
sequence of its keys in insertion order. A Python dict iterates its keys in that
order, and `min` over the keys keeps the first minimal key it meets. The order
is therefore needed to model the victim tie-break exactly. Overwriting a key
keeps its position.

Files and modules:

- `wrappers.dfy` (`Wrappers`): `Option`, used for request fields that may be absent.
- `graph.dfy` (`Graph`): walks, cycles and `HasCycle` defined declaratively,
  meaning some node reaches itself by one or more edges. It also has the
  executable check `DetectCycle`. That check repeatedly discards nodes with no
  predecessor among the kept nodes (Kahn-style pruning), and is proved equal to
  `HasCycle`. A rank that rises strictly along every edge is proved to certify
  that there is no cycle.
- `process_table.dfy` (`ProcessTable`): add with validation, clear, read-back
  (`Lookup`) and delete. The invariant `Valid` says that the order lists
  exactly the table's keys, each once, and that every stored string is non-empty.
- `deadlock.dfy` (`Deadlock`): the allocation graph, detection, victim selection
  and `Resolve`. It also has `ResolveAll`, the repeated calls a client makes
  until no deadlock is left.
- `scenarios.dfy` (`Scenarios`): the two-process circular wait, worked through
  add, detect and resolve.

Process names and resource names share one node space. A process called `R1`
and a resource called `R1` are the same graph node, exactly as in the source.
Strings are `seq<char>` of Unicode scalar values, so for every string the model
can represent, `|holds|` is Python's `len(holds)`.

Modelling choices taken from the code:

- Ties between equally long held-resource names are broken by dict insertion
  order: `min` keeps the first minimal key (app.py:112). The store therefore
  records that order.
- `del` is only applied to a key that is present (app.py:113). `Delete`
  requires this, because a Python `del` on a missing key would raise.
- Resources are not exclusive: two processes may hold the same resource, since
  add never checks ownership (app.py:83-86). The model keeps this.

## Model

| member | source | states |
|---|---|---|
| `ProcessTable.Add` | app.py:77-87 | The call is rejected exactly when the name, the held resource or the requested resource is absent or empty, and then the table is unchanged. Otherwise it reports the name, and reading that name back yields exactly the given fields. Every other name reads back as before. An existing name keeps its place in the insertion order and a new one is appended. The table invariant is preserved. |
| `ProcessTable.AddThenLookup` | app.py:86-93 | With all three fields given, add succeeds and an immediate read-back of the name returns exactly those two resources. |
| `ProcessTable.Lookup` | app.py:93 | Reading a name back yields its stored entry when the name is present and nothing otherwise: a per-name view of the table the GET returns. |
| `ProcessTable.Clear` | app.py:89-91 | Afterwards the table is empty, every name reads back as absent, and the invariant holds. |
| `ProcessTable.ClearIdempotent` | app.py:90 | Clearing twice equals clearing once, and clearing the empty table leaves it empty. |
| `ProcessTable.Delete` | app.py:113 | The named process is gone and the table has one entry fewer. Every other name reads back as before. The insertion order is the old one with exactly that position cut out. The invariant is preserved. |
| `ProcessTable.AddThenDelete` | app.py:86 | Adding a process under a new name and then deleting it restores the table exactly, insertion order included. |
| `ProcessTable.WithoutAt` | app.py:113 | In a duplicate-free key order, removing a key by value equals cutting its position out, so the survivors keep their relative order. |
| `Graph.Prune` | app.py:34-35 | The pruning result is a subset of the starting nodes in which every node has a predecessor. |
| `Graph.ClosedSurvives` | app.py:34-35 | Pruning keeps every node set in which each node has a predecessor inside the set, so its result is the largest such subset. |
| `Graph.CycleFromClosed` | app.py:34-35 | A non-empty node set in which every node has a predecessor inside it contains a directed cycle. |
| `Graph.PruneSound` | app.py:34-35 | If anything survives pruning of the graph's nodes, the graph has a cycle. |
| `Graph.PruneComplete` | app.py:34-35 | If the graph has a cycle, including a self-loop, something survives pruning. |
| `Graph.DetectCycle` | app.py:34-37 | The executable check returns true exactly when some node reaches itself by one or more edges. |
| `Graph.RankedIsAcyclic` | app.py:34-37 | A node ranking that rises strictly along every edge certifies that there is no cycle. |
| `Graph.CycleInSupergraph` | app.py:34-35 | Adding edges to a graph never removes a cycle. |
| `Graph.NoEdgesNoCycle` | app.py:26-27 | A graph without edges has no cycle. |
| `Deadlock.AllocationGraph` | app.py:29-32 | The edges are exactly, for each process, process to requested resource and held resource to process. Every edge comes from some entry in one of these two ways. |
| `Deadlock.DetectDeadlock` | app.py:25-37 | Detection returns true exactly when the allocation graph has a directed cycle of one or more edges. An empty table is never deadlocked. |
| `Deadlock.SelfLoopDeadlocks` | app.py:31-32 | A process that requests, or holds, a resource with its own name forms a self-loop, and detection reports a deadlock. |
| `Deadlock.SingleProcess` | app.py:29-35 | A one-process table is deadlocked exactly when two of its three names coincide: the process name with either resource, or the held resource with the requested one. |
| `Deadlock.AddNewKeepsDeadlock` | app.py:86 | Adding a process under a new name keeps every existing edge, so a deadlocked table stays deadlocked. |
| `Deadlock.MinByHoldsFrom` | app.py:112 | The left-to-right scan that keeps the best key and replaces it only on a strictly smaller held-name length ends on the first position with minimal length. |
| `Deadlock.VictimIndex` | app.py:112 | On a non-empty table, the chosen position has a held-resource name no longer than any other, and every earlier process's is strictly longer. |
| `Deadlock.FirstMinimalUnique` | app.py:112 | At most one position is first-minimal, so the victim is determined by the table. |
| `Deadlock.Resolve` | app.py:106-119 | The outcome is "nothing to resolve" exactly on an empty table. A process is terminated exactly when the table is deadlocked. When none is, the table is unchanged. When one is, the victim was in the table and its held-resource name is no longer than any other's. It is also the first such process in insertion order. Only the victim is removed, so the size drops by one and every other entry reads back unchanged. |
| `Deadlock.ResolveTerminatesFirstMinimal` | app.py:111-113 | On a deadlocked table, the victim is exactly the process at the first-minimal position. |
| `Deadlock.ResolveRemovesOnlyVictim` | app.py:113 | After a terminating call, the table is the old one minus the victim's entry. |
| `Deadlock.ResolveAll` | app.py:111-113 | Calling resolve until it stops terminating processes ends with a table free of deadlock. That takes at most n terminating calls for n processes, each call removes one entry, and every surviving entry is unchanged. |
| `Scenarios.AddTwoProcesses` | app.py:83-87 | Adding P1 (holds R1, requests R2) and then P2 (holds R2, requests R1) to an empty table gives those two entries in that order. |
| `Scenarios.TwoProcessDeadlocked` | app.py:29-35 | That table is deadlocked through P1, R2, P2, R1. |
| `Scenarios.TwoProcessScenario` | app.py:106-119 | On that table, detection reports a deadlock and resolve terminates P1. Both held names have length two, and P1 came first. Only P2 remains, and detection then reports no deadlock. |

## Left out

- Flask routing, JSON parsing and HTTP status codes (app.py:71-104, 155-156)
  are not modelled. The replies are modelled as outcome values (`AddOutcome`,
  `Outcome`) next to the new table.
- Graph rendering (`generate_rag_image`, app.py:39-68) and the visualize
  endpoint's empty-table error are not modelled. They are plotting-library calls
  with floating-point layout and image encoding.
- The chat bridge to the external language model (app.py:121-153) is not
  modelled. It is a network call whose answer is passed through.
- Start-up configuration (app.py:12-19) is not modelled; it is environment I/O.
- The cycle library's internals and its no-cycle exception branch (app.py:36-37)
  are not modelled. The has-cycle result is modelled directly. Merging duplicate
  edges cannot change whether a cycle exists, and the edge set merges them.
- Request fields are modelled as optional strings. JSON values of other types
  (numbers, booleans, objects) and their Python truthiness are not modelled.
- The unsynchronised global table (app.py:23) and races between requests are
  not modelled. Each operation maps one table value to the next.
- Strings containing unpaired surrogates (which Python's JSON parser accepts
  from escapes such as `"\ud800"`) are not representable as Dafny strings, so
  such process or resource names are outside the model.
