/** The `Okitty` client: its configuration, head resolution, the path walk, and
    the entry list it sends to create a tree. The remote repository
    behind the client's API handle is the read-only `Store` of GitObjects. */
module Okitty {
  import opened GitObjects
  import PathSplit
  import PathWalk

  const DefaultOwner := "oyamist"
  const DefaultRepo := "okitty"
  const DefaultPath := "test/test.json"
  const DefaultIndent := 2
  const DefaultBranch := "master"

  /** Constructor options; `None` is an absent property. */
  datatype Options = Options(
    owner: Option<string>,
    repo: Option<string>,
    path: Option<string>,
    indent: Option<int>,
    branch: Option<string>)

  /** JavaScript truthiness of an optional string: present and non-empty. */
  predicate TruthyString(v: Option<string>) {
    v.Some? && v.value != ""
  }

  /** JavaScript truthiness of an optional number: present and non-zero. */
  predicate TruthyInt(v: Option<int>) {
    v.Some? && v.value != 0
  }

  class Okitty {
    var owner: string
    var repo: string
    var path: string
    var indent: int
    var branch: string
    /** The repository reached through the client's (read-only) API handle. */
    const remote: Store

    /** Every option combines with its default by `||`: a falsy option falls back. */
    constructor (opts: Options, remote: Store)
      ensures TruthyString(opts.owner) ==> owner == opts.owner.value
      ensures !TruthyString(opts.owner) ==> owner == DefaultOwner
      ensures TruthyString(opts.repo) ==> repo == opts.repo.value
      ensures !TruthyString(opts.repo) ==> repo == DefaultRepo
      ensures TruthyString(opts.path) ==> path == opts.path.value
      ensures !TruthyString(opts.path) ==> path == DefaultPath
      ensures TruthyInt(opts.indent) ==> indent == opts.indent.value
      ensures !TruthyInt(opts.indent) ==> indent == DefaultIndent
      ensures TruthyString(opts.branch) ==> branch == opts.branch.value
      ensures !TruthyString(opts.branch) ==> branch == DefaultBranch
      ensures owner != "" && repo != "" && path != "" && indent != 0 && branch != ""
      ensures this.remote == remote
    {
      owner := if TruthyString(opts.owner) then opts.owner.value else DefaultOwner;
      repo := if TruthyString(opts.repo) then opts.repo.value else DefaultRepo;
      path := if TruthyString(opts.path) then opts.path.value else DefaultPath;
      indent := if TruthyInt(opts.indent) then opts.indent.value else DefaultIndent;
      branch := if TruthyString(opts.branch) then opts.branch.value else DefaultBranch;
      this.remote := remote;
    }

    /** `getHeadCommit(branch)`: the argument is shadowed by the instance's
        branch, so the commit is always that of `heads/<this.branch>`. */
    method GetHeadCommit(branchArg: string) returns (r: Result<Commit>)
      ensures r == PathWalk.HeadCommit(remote, branch)
    {
      var ref := GetRef(remote, PathWalk.HeadRef(branch));
      if ref.Err? {
        return Err(ref.error);
      }
      r := GetCommit(remote, ref.value);
    }

    /** `getHeadTree(branch)`: the root tree of the head commit; the argument
        is shadowed as in GetHeadCommit. */
    method GetHeadTree(branchArg: string) returns (r: Result<Tree>)
      ensures r == PathWalk.HeadTree(remote, branch)
    {
      var commit := GetHeadCommit(branchArg);
      if commit.Err? {
        return Err(commit.error);
      }
      r := GetTree(remote, commit.value.treeSha);
    }

    /** `getPathTree(path)`: walks the '/'-segments of `path` down from the
        head tree, pushing every matched tree or blob onto the chain. */
    method GetPathTree(path: string) returns (r: Result<seq<Obj>>)
      ensures r == PathWalk.PathTree(remote, branch, path)
    {
      var head := GetHeadTree(branch);
      if head.Err? {
        return Err(head.error);
      }
      var curTree: Option<Tree> := Some(head.value);
      var pathTrees: seq<Obj> := [TreeObj(head.value)];
      var pathParts := PathSplit.Split(path);
      if |pathParts[0]| == 0 {
        return Err(SliceNotDefined);
      }
      ghost var whole := PathWalk.Walk(remote, path, curTree, pathParts, pathTrees);
      var iPart := 0;
      while iPart < |pathParts|
        invariant 0 <= iPart <= |pathParts|
        invariant PathWalk.Walk(remote, path, curTree, pathParts[iPart..], pathTrees) == whole
      {
        var p := pathParts[iPart];
        if curTree.None? {
          return Err(InvalidPath(path));
        }
        var entries := curTree.value.entries;
        ghost var scanned := PathWalk.Scan(remote, entries, p, pathTrees, None);
        var nextTree: Option<Tree> := None;
        var iTree := 0;
        while iTree < |entries|
          invariant 0 <= iTree <= |entries|
          invariant PathWalk.Scan(remote, entries[iTree..], p, pathTrees, nextTree) == scanned
        {
          var t := entries[iTree];
          assert entries[iTree..][0] == t && entries[iTree..][1..] == entries[iTree + 1..];
          if t.path == p {
            if t.kind == "tree" {
              var tree := GetTree(remote, t.sha);
              if tree.Err? {
                return Err(tree.error);
              }
              nextTree := Some(tree.value);
              pathTrees := pathTrees + [TreeObj(tree.value)];
            } else if t.kind == "blob" {
              var blob := GetBlob(remote, t.sha);
              if blob.Err? {
                return Err(blob.error);
              }
              pathTrees := pathTrees + [BlobObj(blob.value)];
            } else {
              return Err(UnknownTree(t));
            }
          }
          iTree := iTree + 1;
        }
        assert pathParts[iPart..][0] == p && pathParts[iPart..][1..] == pathParts[iPart + 1..];
        curTree := nextTree;
        iPart := iPart + 1;
      }
      return Ok(pathTrees);
    }
  }

  // ---------------------------------------------------------------------------
  // createTree: entries are sent with a default mode for their type.

  const TreeMode := "040000"
  const BlobMode := "100644"

  function DefaultMode(kind: string): string {
    if kind == "tree" then TreeMode else BlobMode
  }

  /** `Object.assign({mode: default}, t)`: an entry's own mode wins. */
  function WithDefaultMode(e: Entry): Entry {
    if e.mode.Some? then e else e.(mode := Some(DefaultMode(e.kind)))
  }

  /** The entry list `createTree(tree)` sends: same length and order; an entry
      without a mode gets the directory mode for a tree and the regular-file
      mode otherwise; an explicit mode and every other field are kept. */
  function WithDefaultModes(tree: seq<Entry>): (r: seq<Entry>)
    ensures |r| == |tree|
    ensures forall i :: 0 <= i < |tree| ==>
      r[i].path == tree[i].path && r[i].kind == tree[i].kind && r[i].sha == tree[i].sha
    ensures forall i :: 0 <= i < |tree| && tree[i].mode.Some? ==> r[i].mode == tree[i].mode
    ensures forall i :: 0 <= i < |tree| && tree[i].mode.None? && tree[i].kind == "tree" ==>
      r[i].mode == Some(TreeMode)
    ensures forall i :: 0 <= i < |tree| && tree[i].mode.None? && tree[i].kind != "tree" ==>
      r[i].mode == Some(BlobMode)
  {
    if tree == [] then [] else [WithDefaultMode(tree[0])] + WithDefaultModes(tree[1..])
  }

  /** Sending an already normalised list changes nothing. */
  lemma {:induction false} WithDefaultModesIdempotent(tree: seq<Entry>)
    ensures WithDefaultModes(WithDefaultModes(tree)) == WithDefaultModes(tree)
  {
    if tree != [] {
      WithDefaultModesIdempotent(tree[1..]);
      var r := WithDefaultModes(tree);
      assert r[1..] == WithDefaultModes(tree[1..]);
      assert r == [r[0]] + r[1..];
    }
  }

  /** A list whose entries all carry modes is sent unchanged. */
  lemma {:induction false} WithDefaultModesKeepsModed(tree: seq<Entry>)
    requires forall i :: 0 <= i < |tree| ==> tree[i].mode.Some?
    ensures WithDefaultModes(tree) == tree
  {
    if tree != [] {
      WithDefaultModesKeepsModed(tree[1..]);
      assert tree == [tree[0]] + tree[1..];
    }
  }
}
