# addfs per-node overlay, modelled in Dafny

This project models the `addfs` per-node overlay of `file/addfs/per_node.go`.
The overlay is a read-only view over a directory tree. `ApplyPerNodeFuncs(original, fns...)`
returns a directory that has the same children as `original`, with every child
directory wrapped again. It also has one extra child named `...`, the additions
directory. For every original entry, the additions directory holds a per-entry
directory whose children are the "addition" nodes the per-node functions compute
for that entry. Additions that are directories are wrapped again, so the same
structure repeats at every depth.

Files:

- `fsnode.dfy` (module `FsNode`): the node abstraction the overlay consumes. It
  holds an `Info` record (name, nine permission bits as `bv9`, modification time,
  cache hint), a tree of `Leaf` and `Dir` nodes, lookup by name, and the error
  values.
- `per_node.dfy` (module `AddFs`): the overlay. `View` is a finite description of
  an overlay node: `Original` (an original leaf handed back unchanged; the overlay never hands out an original directory unwrapped, so an `Original` view has no children), `Overlay`
  (perNodeImpl), `AddsDir` (perNodeAdds) and `EntryAdds` (the directory
  newAddsForChild builds). `Child` and `Children` are functions, so what lies
  below a view is computed only when asked for. This matches the laziness of
  the source. The `FuncChildren` closure of newAddsForChild is the imperative
  method `EntryAddsChildren`. Its two loops are the methods `MergeAdds` and
  `WrapAdds`, and each is proved against the specification functions `Collect`
  (fail-fast concatenation) and `Merge` (name-keyed accumulator, last writer wins).
- `per_node_props.dfy` (module `AddFsProps`): lemmas about the overlay.
- `per_node_scenario.dfy` (module `AddFsScenario`): the example tree from the
  PerNodeFunc documentation comment, browsed through the overlay.

Modelling choices:

- A per-node function is a Dafny function value `Node -> Result<seq<Node>, Err>`.
  The `context.Context` argument is left out.
- `EntryAdds.Children` lists the merged additions in a canonical order, by the
  last occurrence of each name (`Dedup`). The method `EntryAddsChildren` iterates
  over the map's keys in an unspecified order, as Go's map iteration does. Both
  are proved to be listings of the same merge (`IsListingOf`): one view per name,
  and that view is the recursion of the node kept for the name.
- The error from a failing function is `FuncError(index, cause)`. It names the
  failing function by its position and carries that function's error unchanged.
  It does not name the entry, because the message built at line 160 names only
  the function.
- The conflict diagnostic logged at line 166 is modelled as a ghost list of names
  (`ConflictLog`), which `EntryAddsChildren` returns as a ghost out-parameter.
- The original's `Child(name)` is modelled as `FsNode.Lookup`, which returns the
  first child with that name or `NotFound(name)`. The fsnode library is not part
  of this model.
- `Child` on a per-entry directory is modelled as a search of the children the
  closure computes. This is assumed to be how `fsnode.NewParent` with
  `FuncChildren` answers a lookup. That code is not part of this model.

## Model

| member | source | states |
|---|---|---|
| `FsNode.Lookup` | file/addfs/per_node.go:101-104 | The original's lookup succeeds exactly when some child has the name. It then returns the first such child. Otherwise it fails with NotFound for that name. |
| `AddFs.ApplyPerNodeFuncs` | file/addfs/per_node.go:86-94 | The wrapper of a directory is a parent and reports the original's metadata. |
| `AddFs.CacheableFor` | file/addfs/per_node.go:96 | A wrapper forwards the original's cache hint. The additions directories carry the hint of the node they were built from. |
| `AddFs.AddsDirInfo` | file/addfs/per_node.go:88-89 | The `...` directory's info is the original's info with only the name replaced by `...`. |
| `AddFs.EntryAddsInfo` | file/addfs/per_node.go:150-154 | A per-entry directory copies the entry's name, modTime and cacheableFor. Its perm has all three execute bits set, keeps every original bit, and changes no bit other than the execute bits. |
| `AddFs.Recurse` | file/addfs/per_node.go:180-186 | The recursion preserves the node's metadata. The result is a parent exactly when the node is a directory. |
| `AddFs.NewAddsForChild` | file/addfs/per_node.go:147-155 | The per-entry directory is a parent whose info is the entry's, adjusted by the metadata rule. |
| `AddFs.Collect` | file/addfs/per_node.go:157-161 | The functions succeed on the entry exactly when every one of them does. A failure names the first failing function, carries that function's own error, and every function before it succeeded. |
| `AddFs.MergeKeys` | file/addfs/per_node.go:156-169 | The accumulator's keys are exactly the names of the additions. |
| `AddFs.MergeKeyed` | file/addfs/per_node.go:163-168 | Every node in the accumulator is stored under its own name. |
| `AddFs.Dedup` | file/addfs/per_node.go:171-174 | The canonical listing keeps every added name and lists each name once. |
| `AddFs.Child` | file/addfs/per_node.go:97-106 | A lookup on any overlay node returns a well-formed node with the requested name. Over an original tree whose lookups fail only with NotFound, it fails only with NotFound for that name, or, on a per-entry directory, with a function's wrapped error. |
| `AddFs.Children` | file/addfs/per_node.go:107-116 | Listing returns only well-formed nodes. Over an original tree whose listings cannot fail, only a per-entry directory can fail to list, and only with a function's wrapped error. |
| `AddFs.CollectPrefixFailure` | file/addfs/per_node.go:157-161 | Once a failure occurs among the first n functions, the remaining functions do not change the result. |
| `AddFs.MergeCons` | file/addfs/per_node.go:162-169 | An addition placed in front changes the accumulator only if no later addition has the same name. |
| `AddFs.LookupDedup` | file/addfs/per_node.go:162-175 | Looking up a name in the canonical listing finds the node the merge kept for it, or fails with NotFound. |
| `AddFs.DedupIsListing` | file/addfs/per_node.go:171-175 | The recursion of the canonical listing is a listing of the merge: one view per name, namely the recursion of the kept node. |
| `AddFs.EntryAddsChildren` | file/addfs/per_node.go:155-176 | The closure fails exactly when `Collect` does, with the same error, and keeps the conflict log as it was at the failing function. On success it returns a listing of the merge of all outputs in any order, and the conflict log of those outputs. |
| `AddFs.MergeAdds` | file/addfs/per_node.go:162-169 | The inner loop turns the accumulator of `seen` into the accumulator of `seen + out`, and extends the conflict log to match. |
| `AddFs.WrapAdds` | file/addfs/per_node.go:171-174 | The second loop returns a listing of the accumulator, in the order the map's keys are visited. |
| `AddFs.MergeSnoc` | file/addfs/per_node.go:163-168 | One more addition stores that node under its name and leaves the rest of the accumulator as it was. |
| `AddFs.ConflictLogSnoc` | file/addfs/per_node.go:164-167 | One more addition extends the conflict log by its name exactly when the accumulator already holds that name. |
| `AddFs.WrappedStep` | file/addfs/per_node.go:171-174 | Wrapping one more key keeps the partial result a listing of the keys visited so far. |
| `AddFs.WrappedDone` | file/addfs/per_node.go:171-175 | Once every key is visited, the result is a listing of the whole accumulator. |
| `AddFsProps.OverlayChildReserved` | file/addfs/per_node.go:97-100 | `Child("...")` of a wrapper is always its additions directory, whatever the original contains (comment at lines 56-57). That directory's info is the original's, renamed `...`. |
| `AddFsProps.OverlayChildDelegates` | file/addfs/per_node.go:101-105 | For any other name, the original's lookup error is returned unchanged. A found child is returned through `Recurse`. |
| `AddFsProps.OverlayChildOfEntry` | file/addfs/per_node.go:101-105 | An entry with a unique name other than `...` comes back unchanged if it is a leaf, and wrapped with the same functions if it is a directory. |
| `AddFsProps.RecurseCases` | file/addfs/per_node.go:180-186 | A leaf passes through unchanged. A directory is wrapped with the same functions. |
| `AddFsProps.OverlayChildrenShape` | file/addfs/per_node.go:107-116 | A wrapper's listing has one more element than the original's. Element 0 is the additions directory, and element i+1 is the recursion of original child i. |
| `AddFsProps.ShadowedEntryStillListed` | file/addfs/per_node.go:108-115 | The listing does not filter out an original `...` entry. It is listed next to the additions directory, but `Child("...")` never returns it (the TODO at line 111). |
| `AddFsProps.AddsDirBehaviour` | file/addfs/per_node.go:132-144 | The additions directory's lookup goes through the original and passes its error on unchanged. A found entry yields that entry's per-entry directory. Its listing maps every original child, files and directories alike, one-to-one and with the same names. |
| `AddFsProps.AddsDirListingNeverFails` | file/addfs/per_node.go:139-144 | Listing the additions directory runs no per-node function, so no per-node function's error can reach it. Over an original tree whose listings cannot fail it never fails, and its lookup fails only with NotFound. |
| `AddFsProps.EntryAddsPermission` | file/addfs/per_node.go:152-153 | A per-entry directory's perm is the entry's perm OR 0111. For an entry with perm 0 it is exactly 0111. |
| `AddFsProps.MergeLastWins` | file/addfs/per_node.go:162-169 | A name is in the merge exactly when some addition carries it. The node kept for it is the last addition with that name. |
| `AddFsProps.MergeConcat` | file/addfs/per_node.go:157-169 | Merging a concatenation is the union of the two merges, with the later part winning on shared names. |
| `AddFsProps.CollectSnoc` | file/addfs/per_node.go:157-169 | Appending a succeeding function appends its output. In the merge, its additions override all earlier ones with the same name (comment at line 85). |
| `AddFsProps.ConflictLaterFuncWins` | file/addfs/per_node.go:156-169 | When two functions both add a name, the name is in the merge, and the per-entry lookup of that name returns the second function's last node with that name, through `Recurse`. |
| `AddFsProps.EntryAddsChild` | file/addfs/per_node.go:155-175 | A per-entry lookup returns the merge's node for the name through `Recurse`, or NotFound. |
| `AddFsProps.EntryAddsListing` | file/addfs/per_node.go:155-175 | A per-entry listing holds exactly one node per distinct added name, the last one added, each through `Recurse`. |
| `AddFsProps.FailFast` | file/addfs/per_node.go:157-161 | If function k is the first to fail on the entry, both the per-entry lookup and the listing fail with k's error wrapped. No partial result is returned, and later functions decide nothing. |
| `AddFsProps.EntryAddsFailsIff` | file/addfs/per_node.go:157-161 | An entry's additions fail to list exactly when some function fails on that entry. |
| `AddFsProps.ConflictLogged` | file/addfs/per_node.go:163-167 | A conflict is logged for a name exactly when at least two additions carry that name. |
| `AddFsProps.ConflictLoggedOnlyRepeats` | file/addfs/per_node.go:163-167 | A name in the conflict log is carried by two different additions. |
| `AddFsProps.ConflictLoggedRepeats` | file/addfs/per_node.go:163-167 | A name carried by two different additions is in the conflict log. |
| `AddFsProps.ChildIsListed` | file/addfs/per_node.go:97-144 | On every kind of overlay node, whatever a lookup returns also appears in the listing. |
| `AddFsProps.ListedIsReachable` | file/addfs/per_node.go:97-144 | On every kind of overlay node, every listed node's name can be looked up successfully. |
| `AddFsProps.ListedIsFound` | file/addfs/per_node.go:97-144 | Where the listed names are unique, looking a listed node up by its name returns that very node. This always holds for a per-entry directory. It holds for `...` when the original's names are distinct, and for a wrapper when they are distinct and none is `...`. |
| `AddFsScenario.BrowseOriginals` | file/addfs/per_node.go:17-38 | For the documented example tree, the original entries stay where they were and leaves get no `...` of their own. |
| `AddFsScenario.BrowseAdditions` | file/addfs/per_node.go:17-38 | For the documented example tree, `parent/.../dir1` and `dir1/.../fileA` exist. `.../fileA` lists fileA's addition, and `.../fileB` is empty. |
| `AddFsScenario.FailureIsolation` | file/addfs/per_node.go:147-161 | A function that fails on fileA makes only fileA's additions fail. Listing `...` and fileB's additions still succeed. |

## Left out

- `context.Context`: cancellation and deadlines are not modelled. A per-node function is a pure function of the node.
- Logging: the `log.Error.Printf` diagnostic at line 166 is kept only as a ghost list of conflicting names. Its message text is left out.
- Error text: the `fmt.Errorf` message at line 160 is left out. Only the wrapping is kept: the failing function's position and its error.
- fsnode internals: `NewConcatIterator`, `MapIterator`, `FuncChildren`, `NewParent`, `CopyFileInfo` and the meaning of cache durations are not modelled. The cache hint is an opaque integer that is copied. `CopyFileInfo` is assumed to copy every field of the info.
- Laziness and iterators: results are computed on demand by the functions `Child` and `Children`. Iterators become sequences. The mapping functions in lines 112-114 and 141-143 never return an error of their own. An error from the original's listing iterator is not modelled either: see the next line.
- Errors of the original tree: a `Node` is a plain value. Listing an original directory cannot fail, and its lookup (`FsNode.Lookup`) fails only with NotFound. In the source, `Child` and `Children` of the original (lines 101, 112, 133 and 141) may return any error, and the overlay passes it on unchanged.
- AddFs.Child: its failure clause (NotFound, or a per-entry function's wrapped error) rests on the original tree's lookups failing only with NotFound. In the source, any error of the original's `Child` is passed on as well.
- AddFs.Children: its failure clause (only a per-entry directory fails) rests on the original tree's listings never failing. In the source, a wrapper's or `...`'s listing also fails when the original's listing does.
- AddFsProps.AddsDirListingNeverFails: "never fails" and "fails only with NotFound" rest on the same abstraction. What holds in the source as well is that listing `...` applies no per-node function (lines 139-144).
- `NewPerNodeFunc` and `perNodeFunc.Apply` (lines 64-67) adapt a Go function to the interface. A Dafny function value is applied directly instead.
- The defensive slice copy at line 87: Dafny sequences are immutable, so it has no effect here.
- Go's interface type assertion is replaced by the `Leaf`/`Dir` variant test.
- Double wrapping is not modelled. A wrapper's original is a node of the plain tree, so wrapping a wrapper cannot be expressed. For the same reason, additions are plain nodes, not overlay nodes.
- Mode bits outside `Perm()` and the real `time` type are not modelled. The modification time is an opaque integer.
- Concurrency is not modelled. The source holds no shared mutable state.
