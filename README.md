# procthing in Dafny

A model of `procthing.rb`, a `pstree`-like tool. It reads the process
table, builds a tree of processes keyed by pid, and prints the tree with
box-drawing glyphs coloured by depth. The model has two parts.

**Tree builder** (`ProcTree#gen_tree`, `#tree_sort`, class `ProcNode`)
- `gen_tree` fills a pid → `ProcNode` hash from the snapshot, then installs
  the synthetic pid-0 "Kernel" node (`kproc`).
- `tree_sort` walks the hash in insertion order and appends each entry to
  its parent's `children`. It skips pid 0, and skips pid 2 unless `-k` is given.

**Renderer** (`#depth_color`, `#gen_pipes`, `#print_node`, `#print_tree`)
- `print_tree` starts at the Kernel node, or at the `-p` pid, and
  `print_node` writes one line per node in pre-order.
- Each line is a prefix of coloured glyphs, then the optional `[pid] `, the
  name, and the optional ` (comm)` and ` [cmdline]`.

## How the model is built
- **Ruby Hash:** `OrderedHash.Hash` holds the keys in insertion order plus
  a `map`. `Store` is `h[k] = v`: a new key goes to the end, an existing
  key keeps its place.
- **`ProcNode`:** a record plus the pids of its children. A pid stands for
  the one node object stored under it, since every table key has exactly
  one node.
- **The loops** of `gen_tree`, `tree_sort` and `gen_pipes` are methods
  (`Builder.GenTree`, `Builder.TreeSort`, `Prefix.GenPipes`); one pass of
  the tree_sort loop is `Builder.SortEntry`. Their loop invariants tie them
  to specification functions:
  - `Builder.Fill` and `Builder.InitialTable` for the filled hash;
  - `Builder.Sorted` for the children lists after `tree_sort`;
  - `Prefix.Pipes` for the prefix.

  The lemmas beside those functions state what the source promises.
- **`print_node`** only computes output, so it is a pair of recursive
  functions (`Renderer.PrintNode`, `Renderer.PrintChildren`) that return the
  lines `puts` would write. A ghost rank map, in which every child ranks
  below its parent, shows the recursion ends.
  - `Traversal.Walk` is an independent pre-order walk that records the
    depth, the "last" flag and the `depth_map` of each visit. The lemmas
    relate the printed lines to that walk, and the walk to the shape of the
    tree.
- **Failures are values.** An entry tree_sort attaches (any pid except 0,
  and except 2 without `-k`) whose `ppid` has no entry makes `tree[ppid]`
  nil, so line 78 raises. The model returns
  `Failure(MissingParent(pid, ppid))` for the first such entry in table
  order. Entries tree_sort skips never read their parent, so a missing
  parent of pid 0, or of pid 2 without `-k`, is harmless
  (`Scenarios.SkippedKthreaddOrphan`). A `-p` pid with no entry aborts before any output; the model
  returns `Failure(NotFound(pid))`.
- **Behaviour of the code worth knowing:**
  - An orphan (an entry tree_sort attaches whose `ppid` has no entry) stops
    the run; it is not attached to the root.
  - An empty snapshot is accepted and prints the Kernel alone
    (`Scenarios.EmptySnapshot`).
  - ` (comm)` and ` [cmdline]` are printed whenever their option is set,
    even when the field is empty (nil interpolates as empty text).
  - The OS name goes into the Kernel record's `comm`. `/proc/cmdline`,
    chomped, goes into its `cmdline` on Linux only.
  - Which processes appear (`ProcThing.RunPrints`): without `-p`, every
    snapshot pid and the Kernel with `-k`; without `-k`, exactly those
    whose ppid chain reaches 0 without meeting pid 2, so pid 2 and all
    its descendants disappear. No pid is printed twice.
  - pid 2 is skipped without `-k` whatever process it is
    (`Scenarios.WorkersWithoutKernelThreads`). With `-p 2`, pid 2's
    subtree is still printed, because its children are attached to it.
  - A duplicate pid keeps the later record, at the position of its first
    appearance. A snapshot record with pid 0 is replaced by the Kernel.

## Model
| member | source | states |
|---|---|---|
| OrderedHash.Hash.Store | procthing.rb:65 | `h[k] = v` keeps the keys distinct and in step with the map |
| Procs.Chomp | procthing.rb:59 | `chomp` removes one line end: the two characters of a trailing `"\r\n"`, else a single trailing `"\n"` or `"\r"`; text that ends in anything else (or is empty) is unchanged, and text that ends in `"\n"` or `"\r"` always changes |
| Procs.ChompRemovesLineEnd | procthing.rb:59 | chomp undoes appending a line end: `"\r\n"` and `"\r"` always, `"\n"` when the line itself does not end in `"\r"` |
| Procs.KernelRecord | procthing.rb:54-61 | `kproc` has pid 0, name "Kernel", comm = the OS name, and an empty command line off Linux |
| Builder.Fill | procthing.rb:64-66 | filling the hash record by record keeps it well formed |
| Builder.InitialTable | procthing.rb:63-67 | the table with `tree[0] = ProcNode.new(kproc)` installed is well formed |
| Builder.FillKeys | procthing.rb:64-66 | the filled hash has one childless entry per distinct pid of the snapshot |
| Builder.FillLatest | procthing.rb:64-66 | for a repeated pid the entry holds the later record |
| Builder.FillOrder | procthing.rb:64-66 | keys are ordered by first appearance in the snapshot |
| Builder.InitialTableIsFill | procthing.rb:67 | installing the kernel node is one more `h[pid] = ...` step, with pid 0 |
| Builder.InitialTableEntries | procthing.rb:63-67 | gen_tree's table before sorting: keys are the snapshot's pids plus 0; entry 0 is the Kernel even if the snapshot had pid 0; a later record wins; first-appearance order; no children yet |
| Builder.Sorted | procthing.rb:72-79 | `tree_sort` keeps the hash's keys, in their order, and the same set of pids (the children it installs are stated by SortedShape) |
| Builder.SortedUpToEntry | procthing.rb:73-78 | one iteration seen from any node p: p keeps its record, and its children grow by key i exactly when key i attaches to p |
| Builder.SortedUpToSkip | procthing.rb:74-75 | a skipped key (0, and 2 without `-k`) leaves the table as it was |
| Builder.SortedUpToAppend | procthing.rb:76-78 | for an attachable key whose parent is present, the iteration appends the node to its parent's children: that list grows by exactly this pid and nothing else changes |
| Builder.SortedUpToStep | procthing.rb:73-79 | one iteration of `each_pair`: key i is appended to its parent's children, or skipped when it is 0, or 2 without `-k` |
| Builder.SortEntry | procthing.rb:73-78 | one pass of the loop on key i raises exactly when that entry is attachable and its parent has no entry, and then names the entry and the missing parent; otherwise it yields the table tree_sort holds once the first i + 1 keys are visited |
| Builder.TreeSort | procthing.rb:72-80 | `tree_sort` succeeds exactly when no attachable entry has a missing parent; it then returns `Sorted(t)`; otherwise it reports the first such entry in table order |
| Builder.GenTree | procthing.rb:63-70 | `gen_tree` gives the same result as TreeSort on the filled table with the kernel installed |
| Builder.AttachedMembers | procthing.rb:73-78 | a pid is attached to a parent exactly when it is a key, is attachable, and its record names that parent |
| Builder.AttachedCount | procthing.rb:73-78 | each such pid is attached once and no other pid is attached |
| Builder.AttachedInOrder | procthing.rb:73-78 | attached pids keep the order of the key sequence |
| Builder.SortedShape | procthing.rb:72-79 | after tree_sort each node's children are exactly the entries attached to it; records and keys are unchanged |
| Builder.SortedAttachesOnce | procthing.rb:74-78 | every entry except 0, and except 2 without `-k`, is in its parent's children exactly once and in no other list; 0 is nobody's child; without `-k` neither is 2 |
| Builder.SortedKeepsTableOrder | procthing.rb:73 | every children list follows the hash's iteration order |
| Builder.ChildrenFollowSnapshot | procthing.rb:63-79 | children appear in the order their pids first appear in the snapshot |
| Builder.SortedChildIsAttached | procthing.rb:77-78 | a child in the sorted table is an attachable entry whose record names that parent |
| Builder.SortedIsRanked | procthing.rb:77-78 | acyclic parent links make the sorted tree ranked, so printing it ends |
| Builder.SortedHasSingleParents | procthing.rb:77-78 | after tree_sort no node is in two children lists, or twice in one |
| Glyphs.Style | procthing.rb:87-98 | colouring a glyph through Pastel keeps the glyph and carries that colour exactly when colour is enabled |
| Glyphs.DepthColor | procthing.rb:50-52 | `depth_color` is always a member of `COLORS` |
| Glyphs.DepthColorCycles | procthing.rb:50-52 | colours repeat every 7 depths: `depth_color(d + 7k) == depth_color(d)` |
| Glyphs.DepthColorsAgree | procthing.rb:20-52 | two depths get the same colour exactly when they are equal modulo 7, since the palette's colours are distinct |
| Prefix.Columns | procthing.rb:84-91 | the column loop yields n pieces; column i is a bar coloured `depth_color(i)` when `depth_map[i + 1]`, else a plain space |
| Prefix.PipesShape | procthing.rb:82-99 | 1 piece at depth 0 and depth + 1 below; the columns as above; the root's `─`/`┌`; a deeper node's `└`/`├` coloured for depth - 1, then `─`/`┬` coloured for its depth |
| Prefix.Column | procthing.rb:84-90 | column i is `│` when `depth_map[i + 1]` and a space otherwise; it is coloured `depth_color(i)` exactly when colour is on and it is a bar |
| Prefix.Junction | procthing.rb:92-98 | the junction is one piece at depth 0 and two below; the last is `─` for a leaf, else `┌` at depth 0 and `┬` below; a deeper node's first is `└` when last, else `├`; all coloured exactly when colour is on |
| Prefix.Pipes | procthing.rb:82-99 | `gen_pipes` returns 1 piece at depth 0 and depth + 1 pieces below |
| Prefix.GenPipes | procthing.rb:82-100 | the loop computes exactly `Pipes(...)` |
| Renderer.Digits | procthing.rb:104 | a non-negative number's decimal text is non-empty, made of digits, `"0"` for zero and without a leading zero otherwise |
| Renderer.Decimal | procthing.rb:104 | a pid's text is `-` followed by the digits of its magnitude exactly when it is negative, and its digits otherwise |
| Renderer.DecimalRoundTrip | procthing.rb:104 | reading a pid's text back, sign included, gives the pid |
| Renderer.DigitsRoundTrip | procthing.rb:104 | reading the printed digits back gives the pid |
| Renderer.Label | procthing.rb:104-107 | the label is `[pid] ` when `-i`, then the name, then ` (comm)` when `-c`, then ` [cmdline]` when `-m`; each part sits at its place and the length is the sum of the parts, so nothing else is printed |
| Renderer.NodeLine | procthing.rb:103-107 | the prefix of a printed line is as long as gen_pipes makes it at that depth: 1 piece at depth 0, depth + 1 below |
| Renderer.PrintNode | procthing.rb:102-111 | `print_node` prints at least one line for the node and one for each child (which lines, in which order, is stated by Traversal.PrintNodeFollowsWalk) |
| Renderer.PrintChildren | procthing.rb:108-110 | the children loop from the i-th child prints at least one line per remaining child |
| Renderer.TopPid | procthing.rb:40-42 | the start pid is the `-p` pid when given, else 0 (the Kernel) |
| Renderer.PrintTree | procthing.rb:39-46 | print_tree fails exactly when `-p` names a missing pid, and then reports that pid; otherwise its first line is the start node's |
| Traversal.WalkShape | procthing.rb:102-110 | a walk starts at its node; later visits are deeper, by at most one level per step; each child gets `depth_map + [!last]`; depth maps are as long as the depth |
| Traversal.WalkChildrenShape | procthing.rb:108-110 | the same for a run of children |
| Traversal.PrintNodeFollowsWalk | procthing.rb:102-111 | print_node's lines are, one for one, the walk's visits rendered with pipes and text |
| Traversal.PrintChildrenFollowsWalk | procthing.rb:108-110 | the same for the children loop; `chld == prc.children.last` picks the final child because children are distinct |
| Traversal.WalkLastSibling | procthing.rb:109 | a visit below the start is `last` exactly when no later visit is its sibling; the start has no sibling |
| Traversal.WalkChildrenLastSibling | procthing.rb:108-110 | the same for a run of children |
| Traversal.WalkAncestorFlags | procthing.rb:109 | `depth_map[e]` of every visit is `!last` of its ancestor at depth e |
| Traversal.WalkChildrenAncestorFlags | procthing.rb:108-110 | the same for a run of children |
| Traversal.AncestorExists | procthing.rb:108-110 | every level between the start and a visit has an ancestor visit |
| Traversal.TreeWalk | procthing.rb:45 | the walk print_tree follows starts at the start node, at depth 0 |
| Traversal.RenderedLines | procthing.rb:39-46 | print_tree prints one line per visit, with that node's text; the start line is the single `─`/`┌` piece |
| Traversal.RenderedJunctions | procthing.rb:97-98 | every line below the start ends in `└` exactly when no sibling follows the node, else `├`, then `─`/`┬` |
| Traversal.RenderedColumns | procthing.rb:84-91 | every column of a line lies under an ancestor of its node and shows `│` exactly when that ancestor still has a sibling to come |
| Traversal.RenderedColumn | procthing.rb:85-89 | one column: its piece comes from the `depth_map` flag that recorded whether the ancestor was last |
| Traversal.WalkVisitsReachable | procthing.rb:102-110 | the walk from a node visits exactly the nodes reachable from it through children links |
| Traversal.WalkChildrenVisitReachable | procthing.rb:108-110 | the children loop visits exactly the nodes reachable from those children |
| Traversal.SiblingSubtreesDisjoint | procthing.rb:108-110 | when each node has one parent, two sibling subtrees share no node |
| Traversal.WalkVisitsOnce | procthing.rb:102-110 | when each node has one parent, the walk visits no node twice |
| Traversal.WalkChildrenVisitOnce | procthing.rb:108-110 | the same for the children loop |
| Traversal.RenderedNodes | procthing.rb:39-46 | on a tree from tree_sort, print_tree prints exactly one line per node reachable from the start |
| Traversal.FirstVisitSibling | procthing.rb:108-109 | the first visit of a child's walk has a later sibling exactly when more children follow, which is when `chld == prc.children.last` is false |
| Traversal.SortedChildIff | procthing.rb:73-78 | after tree_sort, a pid is among `p`'s children exactly when tree_sort attaches it (not 0, not 2 without `-k`) and its ppid is `p` |
| Traversal.ChainFromPath | procthing.rb:73-78 | a path down from the Kernel in the sorted tree, read upwards, follows ppid links through attached entries |
| Traversal.PathFromChain | procthing.rb:73-78 | and such a ppid chain, read downwards, is a path in the sorted tree |
| Traversal.SortedReachable | procthing.rb:72-79 | after tree_sort, a pid hangs below the Kernel exactly when its ppid chain reaches 0 through attached entries; without `-k` that chain may not meet pid 2 |
| Traversal.EveryEntryLinks | procthing.rb:74-78 | with `-k`, no orphan and acyclic parent links, the ppid chain from every entry reaches 0 |
| Traversal.EveryEntryLinked | procthing.rb:74-78 | the same for all entries at once |
| Traversal.SortedReachesAll | procthing.rb:72-79 | with `-k`, no orphan and acyclic parent links, every entry is reachable from the Kernel in the sorted tree |
| Traversal.LinkedEntries | procthing.rb:73-78 | the entries whose chain reaches 0 are entries of the table; with `-k` (no orphan, acyclic) they are all of them; without `-k` pid 2 is never among them |
| Traversal.SortedPrintsLinked | procthing.rb:39-46 | without `-p`, print_tree on the sorted tree prints one line for each entry whose ppid chain reaches 0 through attached entries, and for no other, and none twice: every entry with `-k`; without `-k` neither pid 2 nor anything below it |
| ProcThing.Run | procthing.rb:140 | `ProcTree.new(options).print_tree` reports the first orphan; otherwise it prints the sorted tree, which is ranked and single-parented |
| ProcThing.RunPrints | procthing.rb:140 | without `-p`, a run with no orphan prints each snapshot pid and the Kernel's pid 0 at most once, and only those: with `-k` every one of them; without `-k` exactly those whose ppid chain reaches 0 without meeting pid 2, so never pid 2 or its subtree |
| Scenarios.WorkersTableBuilt | procthing.rb:63-67 | example: init and two workers give keys `[1, 2, 3, 0]`, the kernel record (whatever it holds) under 0 |
| Scenarios.WorkersTreeBuilt | procthing.rb:72-79 | with `-k`, init is under the Kernel and the workers are under init, in snapshot order |
| Scenarios.WorkersLines | procthing.rb:102-111 | with `-n -k`, on any OS and /proc/cmdline, the four printed lines `┌ Kernel`, `└┬ init`, ` ├─ worker`, ` └─ worker2` |
| Scenarios.WorkersWithoutKernelThreads | procthing.rb:75 | without `-k` the ordinary process with pid 2 is not attached |
| Scenarios.KthreaddTreeBuilt | procthing.rb:72-79 | kthreadd is the Kernel's child only with `-k`; its worker is attached to it either way |
| Scenarios.KthreaddLines | procthing.rb:102-111 | without `-k`, only `┌ Kernel` and `└─ init` are printed |
| Scenarios.SkippedKthreaddOrphan | procthing.rb:73-78 | a lone pid 2 whose parent 99 has no entry is skipped without `-k`, so the run has no orphan and the Kernel no children; with `-k` the same entry is an orphan |
| Scenarios.MissingTopPid | procthing.rb:41-43 | `-p 99` with no process 99 fails with NotFound(99) |
| Scenarios.PidAndCommLabel | procthing.rb:104-107 | `-i -c` on `sh` (pid 5, comm bash) gives `[5] sh (bash)` after `└─` |
| Scenarios.EmptySnapshot | procthing.rb:63-70 | an empty snapshot prints the Kernel alone, as `─` |

## Left out
- `Sys::ProcTable.ps` (procthing.rb:33) enumerates the processes of the operating system. The snapshot is a parameter: a sequence of (pid, ppid, name, comm, cmdline) records.
- `Gem::Platform.local.os` and `File.read('/proc/cmdline')` in `kproc` read the environment and a file. Both are parameters of `KernelRecord`.
- Pastel and ANSI escape codes, including the `send(color, ...)` dispatch. A piece carries an abstract colour tag, or none when colour is disabled.
- `puts` and `abort` as I/O. Lines are returned as values; an abort is a `Failure`. The exact message text of `abort` is not modelled.
- OptionParser and `Integer(pid)` parsing (procthing.rb:114-138). The options are a record of booleans plus an optional start pid; an unparseable `-p` value is not modelled.
- Renderer.PrintNode, Renderer.PrintChildren and the Traversal lemmas about walks and renders (Traversal.Walk, Traversal.WalkChildren and everything stated about them): require the whole table to be ranked, not just the nodes reachable from the start. Ruby only overflows its stack on a cycle the walk reaches; a cycle elsewhere (pid 5 under 6 and 6 under 5) is simply never printed. Builder.SortedIsRanked derives the rank from acyclic parent links in the snapshot.
- ProcThing.RunPrints: speaks of runs without `-p`; with `-p`, `Traversal.RenderedNodes` still says the printed pids are those reachable from the `-p` node, each once. Like `ProcThing.Run`, it requires acyclic parent links.
- ProcThing.Run: requires the parent links of every attachable entry to be acyclic, so a snapshot with any parent cycle, even one unreachable from the start, is outside the model. Ruby prints such a snapshot without the cycle (pids 5 and 6 naming each other as parents print the Kernel alone).
- Renderer.PrintTree: requires a ranked table, so tables containing a cycle of children links anywhere are outside the model, although Ruby prints them when the cycle is unreachable from the start. The lemmas about whole renders also require distinct children or single parents, as tree_sort produces; tables built by hand outside GenTree are not covered.
- Ruby object identity is represented by pids. The model does not capture aliasing between ProcNode objects beyond one node per pid.
