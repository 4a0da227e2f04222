/** The Git object model as the client sees it through the remote API,
    with the remote repository replaced by a read-only store of finite maps.
    A lookup of a key the store does not hold fails, as the remote answers 404. */
module GitObjects {

  datatype Option<T> = None | Some(value: T)

  datatype Result<T> = Ok(value: T) | Err(error: Error)

  /** Object names are opaque keys assigned by the remote store. */
  type Sha = string

  /** An entry of a tree object. The source leaves `type` as a free string:
      only "tree" and "blob" are understood by the path walk. */
  datatype Entry = Entry(path: string, kind: string, sha: Sha, mode: Option<string>)

  datatype Tree = Tree(sha: Sha, entries: seq<Entry>)

  /** A blob whose content has already been decoded to text. */
  datatype Blob = Blob(sha: Sha, content: string)

  datatype Commit = Commit(sha: Sha, treeSha: Sha)

  /** An element of the chain that the path walk returns. */
  datatype Obj = TreeObj(tree: Tree) | BlobObj(blob: Blob)

  datatype Error =
    | NotFound(key: string)        // the remote store has no such ref or object
    | InvalidPath(path: string)    // a segment had to be walked through something that is not a tree
    | UnknownTree(entry: Entry)    // a matching entry of a type other than "tree" or "blob"
    | SliceNotDefined              // the leading-empty-segment branch calls an undefined function

  /** The remote repository: refs name commits, commits name their root tree. */
  datatype Store = Store(
    refs: map<string, Sha>,
    commits: map<Sha, Sha>,
    trees: map<Sha, seq<Entry>>,
    blobs: map<Sha, string>)

  function GetRef(s: Store, name: string): (r: Result<Sha>)
    ensures r.Ok? <==> name in s.refs
    ensures r.Ok? ==> r.value == s.refs[name]
    ensures r.Err? ==> r.error == NotFound(name)
  {
    if name in s.refs then Ok(s.refs[name]) else Err(NotFound(name))
  }

  function GetCommit(s: Store, sha: Sha): (r: Result<Commit>)
    ensures r.Ok? <==> sha in s.commits
    ensures r.Ok? ==> r.value.sha == sha && r.value.treeSha == s.commits[sha]
    ensures r.Err? ==> r.error == NotFound(sha)
  {
    if sha in s.commits then Ok(Commit(sha, s.commits[sha])) else Err(NotFound(sha))
  }

  function GetTree(s: Store, sha: Sha): (r: Result<Tree>)
    ensures r.Ok? <==> sha in s.trees
    ensures r.Ok? ==> r.value.sha == sha && r.value.entries == s.trees[sha]
    ensures r.Err? ==> r.error == NotFound(sha)
  {
    if sha in s.trees then Ok(Tree(sha, s.trees[sha])) else Err(NotFound(sha))
  }

  function GetBlob(s: Store, sha: Sha): (r: Result<Blob>)
    ensures r.Ok? <==> sha in s.blobs
    ensures r.Ok? ==> r.value.sha == sha && r.value.content == s.blobs[sha]
    ensures r.Err? ==> r.error == NotFound(sha)
  {
    if sha in s.blobs then Ok(Blob(sha, s.blobs[sha])) else Err(NotFound(sha))
  }

  /** Git forbids two entries of one tree with the same name. */
  ghost predicate UniqueNames(es: seq<Entry>) {
    forall i, j :: 0 <= i < j < |es| ==> es[i].path != es[j].path
  }

  /** Every tree the store holds has unique entry names. */
  ghost predicate WellFormed(s: Store) {
    forall sha :: sha in s.trees ==> UniqueNames(s.trees[sha])
  }
}
