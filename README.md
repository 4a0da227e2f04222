# okitty in Dafny

A model of the `Okitty` client of `src/okitty.js`: a thin layer over a hosted
Git repository that reads through the Git object graph (refs → commits →
trees → blobs). The remote repository is modelled as a read-only `Store` of
finite maps (`refs`, `commits`, `trees`, `blobs`); a lookup of a key the store
does not hold fails with `NotFound`, standing in for the remote's 404.

What is modelled:

- `GitObjects` (`git_objects.dfy`): the object model (`Entry`, `Tree`, `Blob`,
  `Commit`, the chain element `Obj`), the error cases, the store and its four
  lookups (`getRef`, `getCommit`, `getTree`, `getBlob`).
- `PathSplit` (`path_split.dfy`): splitting a path on `/` with JavaScript's
  `split` semantics, and its inverse `Join`.
- `PathWalk` (`path_walk.dfy`): head resolution (`getHeadCommit`,
  `getHeadTree`) and the specification of `getPathTree`. `Scan` and `Walk`
  follow the two loops of the source step by step. `Resolves` states
  independently what a chain for a path is: each element after the first is
  the object stored under the entry that the corresponding segment names in
  the previous element, and either every segment resolves or only the last
  one names nothing. `PathTreeResolves` proves that `getPathTree` succeeds with
  a chain exactly when the head tree exists, the path's first segment is not
  empty, and the chain starts at the head tree and resolves the path, provided
  entry names are unique within each tree (Git's own rule).
- `Okitty` (`okitty.dfy`): the `Okitty` class. The constructor applies the
  `||` option defaults, `GetPathTree` is the nested loop over segments and
  entries proved equal to `PathWalk.PathTree`, and there is the entry list
  `createTree` sends (default modes).

Behaviours of the code worth knowing, which the model keeps:

- `src/okitty.js:115-116` tests for an empty first segment and then tries to
  drop it, but the call it makes, `slice(1)`, names no function in scope. So a
  path whose first segment is empty (a leading `/`, or the default empty path)
  always fails, with a reference error. The model returns `SliceNotDefined`
  there.
- Only a tree match sets the next tree (`src/okitty.js:127-129`), and a
  segment reached without a current tree throws "invalid path"
  (`src/okitty.js:120-121`). So a segment before the last that names nothing,
  or a blob with segments still to walk, fails; only a missing last segment
  returns the chain built so far.
- The `branch` argument of `getHeadCommit` and `getHeadTree` is redeclared
  by `var { branch } = this`, so it has no effect. The head is always
  `heads/<this.branch>`.

## Model

| member | source | states |
|---|---|---|
| GitObjects.GetRef | src/okitty.js:28-32 | a ref lookup succeeds exactly when the store holds the ref and yields its commit sha; otherwise it fails with NotFound naming the ref |
| GitObjects.GetCommit | src/okitty.js:59-75 | a commit lookup succeeds exactly when the sha is a stored commit and yields that commit's tree sha; otherwise NotFound |
| GitObjects.GetTree | src/okitty.js:166-182 | a tree lookup succeeds exactly when the sha is a stored tree and yields its entries; otherwise NotFound |
| GitObjects.GetBlob | src/okitty.js:146-164 | a blob lookup succeeds exactly when the sha is a stored blob and yields its decoded content; otherwise NotFound |
| PathSplit.Split | src/okitty.js:114 | `path.split("/")` gives at least one segment, no segment contains a separator, and the first segment is empty exactly for the empty path or a leading `/` |
| PathSplit.SplitCount | src/okitty.js:114 | `path.split("/")` gives one more segment than the path has separators |
| PathSplit.JoinSplit | src/okitty.js:114 | joining the segments of a path with `/` gives the path back |
| PathSplit.SplitJoin | src/okitty.js:114 | splitting segments joined with `/` gives the segments back when none contains `/` |
| PathWalk.HeadCommit | src/okitty.js:20-41 | the head commit exists exactly when ref `heads/<branch>` exists and names a stored commit, and it is that commit; otherwise NotFound for the missing ref or commit |
| PathWalk.HeadTree | src/okitty.js:43-57 | the head tree is the stored tree whose sha is the tree sha of the commit that `heads/<branch>` names, and it fails exactly when one of the three lookups does |
| PathWalk.Scan | src/okitty.js:124-138 | one pass over a tree's entries only appends to the chain, and by at most one object per entry |
| PathWalk.Walk | src/okitty.js:118-140 | the walk over the segments only appends to the chain it starts with |
| PathWalk.PathTree | src/okitty.js:104-144 | a failing head lookup is the result; an empty path or a leading `/` fails with SliceNotDefined; a successful chain starts with the head tree |
| PathWalk.Find | src/okitty.js:124-126 | the entry found is in the tree and has the segment's name; none is found exactly when no entry has that name |
| PathWalk.Fetch | src/okitty.js:127-136 | an entry of type "tree" reads the stored tree, of type "blob" the stored blob; any other type, or a missing object, fails |
| PathWalk.ScanUnique | src/okitty.js:124-138 | with unique names, a pass over the entries leaves the chain as is when no entry matches, and otherwise appends the one matched object (a tree also becoming the next tree) or fails as its fetch does |
| PathWalk.WalkResolves | src/okitty.js:118-140 | with unique names, the walk from a tree returns a chain exactly when that chain resolves the segments from that tree |
| PathWalk.PathTreeResolves | src/okitty.js:104-144 | with unique names, getPathTree returns a chain if and only if the head tree exists, the first segment is not empty, the chain starts with the head tree and the chain resolves every segment (or all but a last segment that names nothing) |
| PathWalk.PathTreeLength | src/okitty.js:113-141 | with unique names, a returned chain has segments+1 elements, or exactly segments elements when the last segment names nothing in the chain's last tree |
| PathWalk.PathTreeChain | src/okitty.js:112-132 | with unique names, element i of a returned chain is a tree holding an entry named by segment i, and element i+1 is the tree or blob stored under that entry's sha |
| PathWalk.WalkAlong | src/okitty.js:118-140 | with unique names, walking a path reaches, after the segments a chain follows, the chain built so far with the current tree left by its last element |
| PathWalk.MidPathFails | src/okitty.js:118-139 | with unique names, a segment before the last that names nothing, or a segment that names a blob while segments remain after it, makes getPathTree fail with "invalid path" |
| PathWalk.UnknownTypeFails | src/okitty.js:133-136 | with unique names, a matching entry whose type is neither "tree" nor "blob" makes getPathTree fail with that entry |
| PathWalk.DuplicateNamesLengthenChain | src/okitty.js:124-132 | without unique names the length bound fails: two blob entries with the one-segment path's name give a chain of three elements |
| Okitty.Okitty.constructor | src/okitty.js:7-12 | each of owner, repo, path, indent and branch is the given option when truthy and otherwise "oyamist", "okitty", "test/test.json", 2 and "master"; none of them ends up falsy |
| Okitty.Okitty.GetHeadCommit | src/okitty.js:20-41 | the commit returned is the head commit of the instance's branch, whatever argument is passed |
| Okitty.Okitty.GetHeadTree | src/okitty.js:43-57 | the tree returned is the head tree of the instance's branch, whatever argument is passed |
| Okitty.Okitty.GetPathTree | src/okitty.js:104-144 | the nested loop over segments and entries returns exactly PathWalk.PathTree for the instance's branch, its errors included |
| Okitty.WithDefaultModes | src/okitty.js:195-197 | createTree sends the entries in the same order and number; an entry without a mode gets "040000" when its type is "tree" and "100644" otherwise; an explicit mode, path, type and sha are kept |
| Okitty.WithDefaultModesIdempotent | src/okitty.js:195-197 | defaulting the modes of an already defaulted list changes nothing |
| Okitty.WithDefaultModesKeepsModed | src/okitty.js:195-197 | a list whose entries all have modes is sent unchanged |

## Left out

- The Octokit transport, the auth token and the Promise wrappers (`src/okitty.js:13-17` and every `octokit.git.*` call): network I/O, replaced by lookups in the `Store`.
- Base64 decoding in `getBlob` (`src/okitty.js:160`): a foreign library call; the store holds blobs already decoded. The other fields of the remote's replies (`size`, `url`, `node_id`, author data) are not modelled.
- `createBlob` (`src/okitty.js:77-102`): for text it only forwards the content to the remote and echoes it beside the sha the remote assigns, which is the remote's work. For any other data it rejects: the inner `async function` is called without a receiver in strict-mode class code, so `this` is undefined and reading `this.indent` at line 86 throws a TypeError before anything is serialised.
- `createTree` beyond its request (`src/okitty.js:192-199`): the tree the remote creates and returns is the remote's work; only the entry list sent is modelled.
- `save` (`src/okitty.js:205-219`): an unfinished draft that uses undefined names, with no behaviour to state.
- `src/iconsole.js`: it only injects log and error sinks.
- Initialisation guard, request cache, `readFile`/`writeFile`, a tree rebuilder, commit creation and ref updates: `src/okitty.js` does not implement them (its `save` at lines 205-219 is only a draft).
- Okitty.WithDefaultModes: an entry whose `mode` property is present with the value `undefined` or `null` is sent by `Object.assign` (`src/okitty.js:195-197`) with that value copied over the default; the model's `Option` mode has no such state and gives that entry the default mode.
- Okitty.Okitty.constructor: options are typed (strings, and an integer indent); a non-string option and a `NaN` indent, which JavaScript would also treat by `||`, are not modelled.
- PathWalk.PathTreeResolves, PathWalk.PathTreeLength, PathWalk.PathTreeChain, PathWalk.MidPathFails, PathWalk.UnknownTypeFails: proved only for stores whose trees have unique entry names, as Git requires; with duplicate names the code pushes every match (see DuplicateNamesLengthenChain), and the walk itself is still modelled exactly by PathWalk.PathTree.
- Concurrency: the source awaits each remote call in turn, so the model is sequential.
