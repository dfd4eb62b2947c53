# Pool summary of a cluster (kui-sample `render`)

This project models the pool summary that the fleet viewer shows for one
cluster, computed by `render` in `main.go`. The function walks the cluster's
node list and groups node names by the value of each node's `pool` label.
Nodes without that label are skipped. It then reports three numbers: total
nodes, total pods and the number of distinct node pools.

The model is one module, `PoolSummary` (`pool_summary.dfy`):

- `Node(name, labels)` and `Pod` stand in for the Kubernetes node and pod
  records. Only a node's name and labels are read. Pods are only counted.
- `GroupPools` is the grouping loop as an imperative method over the node
  sequence. It builds a `map<string, seq<string>>` one node at a time. The
  Dafny map is a value that the loop reassigns on each insert, where the Go
  map is updated in place; the resulting contents are the same.
- `GroupPools` is proved against the specification function `FirstMembers`.
  The three per-node lemmas (`UnlabeledNodeIgnored`, `LaterMemberDropped`,
  `FirstEncounterRecorded`) are the loop's three branches, stated on that
  function.
- `Render` returns the three counts as a `Summary` value.

The grouping is modelled as written. At main.go:60-61 the name is appended
to a local copy of the group, and that copy is never stored back into the
map. So each pool keeps only the name of the first node seen in it. The
behaviour the code evidently meant (every member's name) is a separate,
clearly labelled definition: `AllMembers`, built by `GroupAllMembers`. See
"## Findings". Both groupings have the same key set (`FirstMembersArePrefixes`).
So the pool count that `Render` reports is the same under either one, and
`Render` keeps the faithful `GroupPools`.

Every member of a pool appears to be meant: for nodes a and b in pool x
and an unlabeled node c, `{"x": ["a", "b"]}` would be expected, but the code
yields `{"x": ["a"]}`. The model follows the code.

## Model

| member | source | states |
|---|---|---|
| `PoolSummary.PoolOf` | main.go:59 | The comma-ok lookup of the `pool` label: a pool is present exactly when the node has the label, and it is then the label's value. |
| `PoolSummary.PoolValues` | main.go:57-66 | The reference key set: it holds the pool label value of every labelled node. `FirstIndexFound` gives the converse, that each value is carried by some node. |
| `PoolSummary.FirstIndex` | main.go:58-63 | The index returned is that of a node in pool `p` with no node of `p` before it. `None` means no node is in `p`. |
| `PoolSummary.FirstIndexFound` | main.go:57-66 | A pool has an earliest node exactly when it is one of the pool label values present. |
| `PoolSummary.FirstMembers` | main.go:57-66 | The as-written map's key set is exactly the set of pool label values of the nodes, and every entry has one name. |
| `PoolSummary.FirstMembersAreEarliest` | main.go:57-66 | Each pool's entry is `[name]` of a node of that pool with no earlier node in the same pool. |
| `PoolSummary.PoolValuesSnoc` | main.go:58-66 | Processing one more node adds its pool label value, if it has one, and no other value to the key set. |
| `PoolSummary.FirstIndexSnoc` | main.go:58-66 | One more node never moves a pool's earliest node. It becomes the earliest only for its own pool, and only if that pool was new. |
| `PoolSummary.OldPoolsKept` | main.go:58-66 | One more node keeps every existing key and its entry. |
| `PoolSummary.UnlabeledNodeIgnored` | main.go:59 | A node with no `pool` label leaves the map unchanged, so it is added to no group. |
| `PoolSummary.LaterMemberDropped` | main.go:60-61 | A node whose pool is already a key leaves the map unchanged, because the extended group is discarded. |
| `PoolSummary.FirstEncounterRecorded` | main.go:62-63 | The first node of a new pool adds that pool as a key mapped to the one-element list of the node's name. Nothing else changes. |
| `PoolSummary.GroupPools` | main.go:57-66 | The loop as written builds exactly `FirstMembers(nodes)`. Its keys are the pool values present. The invariant is that after `i` nodes, the map is `FirstMembers` of the first `i` nodes. |
| `PoolSummary.PoolCountBound` | main.go:57-67 | The number of distinct pools never exceeds the number of nodes carrying a `pool` label, which never exceeds the number of nodes. |
| `PoolSummary.SinglePool` | main.go:57-67 | When every node is in pool `p`, there is one pool, and its entry is the first node's name. |
| `PoolSummary.Render` | main.go:56-68 | The reported totals are the lengths of the node and pod sequences, whatever the labels. The pool count is the number of distinct pool label values. It is at most the number of labelled nodes, and so at most the node count. |
| `PoolSummary.Members` | main.go:60-61 | The intended group of pool `p` is no longer than the node list. It contains the name of every node in `p`, and only names of nodes in `p`. |
| `PoolSummary.AllMembers` | main.go:57-66 | The intended grouping has the same key set as the pool label values. |
| `PoolSummary.MembersHead` | main.go:60-63 | A pool's intended group is empty exactly when no node is in the pool. Otherwise it starts with the earliest member's name. |
| `PoolSummary.AllMembersSnoc` | main.go:58-66 | The corrected loop step: an unlabeled node changes nothing, and a labeled node extends its pool's group or starts it. |
| `PoolSummary.UnlabeledMemberIgnored` | main.go:59 | In the corrected grouping, a node without a `pool` label changes no group. |
| `PoolSummary.KnownPoolExtended` | main.go:60-61 | In the corrected grouping, a node of a pool already present is appended to that pool's group, and no other entry changes. |
| `PoolSummary.NewPoolStarted` | main.go:62-63 | In the corrected grouping, the first node of a pool adds that pool with the one-element group of its name, and no other entry changes. |
| `PoolSummary.GroupAllMembers` | main.go:57-66 | The loop with the group written back builds exactly `AllMembers(nodes)`. A name is in pool `p`'s group if and only if some node of pool `p` has that name. |
| `PoolSummary.FirstMembersArePrefixes` | main.go:57-67 | The as-written and intended groupings have the same keys, so the pool count agrees. Each as-written entry is the first element of the intended group. |
| `PoolSummary.DroppedSecondMember` | main.go:60-61 | For nodes a(pool x), b(pool x) and c (no label), the as-written map is `{"x": ["a"]}` and the intended one is `{"x": ["a", "b"]}`. Both have one pool. |

## Findings

| source | as written | input that shows it | evidently intended | confidence | as-written member | corrected member |
|---|---|---|---|---|---|---|
| main.go:60-61 | `nodes = append(nodes, n.Name)` extends a local copy of the group, and the map entry is never updated | nodes a(pool x), b(pool x), c(no label): the map is `{"x": ["a"]}` | `pools[pool] = append(nodes, n.Name)`, giving `{"x": ["a", "b"]}` | high (Go map values are copied on read); not executed | `PoolSummary.DroppedSecondMember` (on `PoolSummary.GroupPools`) | `PoolSummary.GroupAllMembers` |

The finding does not affect the reported numbers. `FirstMembersArePrefixes`
proves that both groupings have the same key set. `Render` therefore keeps
the as-written loop.

## Left out

- PoolValues: its own contract states only that every labelled node's pool value is in the set. The converse, that every value in it is carried by some node, is stated by `FirstIndexFound`, because stating both on the function made the proofs that use it too costly for the solver.
- `main()` (main.go:14-54): terminal UI layout, list items and the event loop. This is UI, not logic.
- The text formatting and `SetText` call at main.go:67: the three counts are returned as a `Summary` value, not as the rendered string.
- Nil `Nodes`/`Pods` pointers: `render` dereferences both, which crashes for a failed cluster entry. `Render` takes the node and pod sequences directly, so this crash path is not modelled.
- `GetClusterState` (data/fetcher.go:24-65): concurrent fan-out over kubeconfig contexts with goroutines, a wait group and a mutex. Concurrency is not modelled.
- `getKubeClient`, `configForContext`, `getConfig` (data/fetcher.go:67-99): thin wrappers over the Kubernetes client libraries, which are not part of this model.
- Kubeconfig loading and progress printing (data/fetcher.go:25-30, 36): I/O.
- Kubernetes `Node`/`Pod` records: reduced to a node's name and labels and to a pod's identity. No other field is read by `render`.
