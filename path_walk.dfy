/** Head resolution and the path walk of `Okitty.getPathTree`, as functions over
    the store. `Scan` and `Walk` follow the source's two loops step by step (the
    imperative walk in module Okitty is proved equal to `PathTree`); `Resolves`
    says independently what a chain for a path is, and `PathTreeResolves` proves
    that the two agree whenever entry names are unique within each tree. */
module PathWalk {
  import opened GitObjects
  import PathSplit

  function HeadRef(branch: string): string {
    "heads/" + branch
  }

  /** The commit that ref `heads/<branch>` points to. */
  function HeadCommit(s: Store, branch: string): (r: Result<Commit>)
    ensures r.Ok? <==> HeadRef(branch) in s.refs && s.refs[HeadRef(branch)] in s.commits
    ensures r.Ok? ==> (r.value.sha == s.refs[HeadRef(branch)]
                       && r.value.treeSha == s.commits[r.value.sha])
    ensures r.Err? ==> r.error == NotFound(
      if HeadRef(branch) in s.refs then s.refs[HeadRef(branch)] else HeadRef(branch))
  {
    match GetRef(s, HeadRef(branch))
    case Err(e) => Err(e)
    case Ok(sha) => GetCommit(s, sha)
  }

  /** The root tree of the commit that ref `heads/<branch>` points to. */
  function HeadTree(s: Store, branch: string): (r: Result<Tree>)
    ensures r.Ok? <==> (HeadRef(branch) in s.refs && s.refs[HeadRef(branch)] in s.commits
                        && s.commits[s.refs[HeadRef(branch)]] in s.trees)
    ensures r.Ok? ==> (r.value.sha == s.commits[s.refs[HeadRef(branch)]]
                       && r.value.entries == s.trees[r.value.sha])
    ensures WellFormed(s) && r.Ok? ==> UniqueNames(r.value.entries)
  {
    match HeadCommit(s, branch)
    case Err(e) => Err(e)
    case Ok(c) => GetTree(s, c.treeSha)
  }

  /** One pass of the inner loop: every entry of the current tree named `p`
      is fetched and pushed onto the chain; a tree match also becomes the next
      tree. The first failing fetch or unknown entry type aborts. */
  function Scan(s: Store, es: seq<Entry>, p: string, chain: seq<Obj>, next: Option<Tree>)
    : (r: Result<(seq<Obj>, Option<Tree>)>)
    ensures r.Ok? ==> chain <= r.value.0 && |r.value.0| <= |chain| + |es|
    decreases |es|
  {
    if es == [] then Ok((chain, next))
    else if es[0].path != p then Scan(s, es[1..], p, chain, next)
    else if es[0].kind == "tree" then
      match GetTree(s, es[0].sha)
      case Err(e) => Err(e)
      case Ok(t) => Scan(s, es[1..], p, chain + [TreeObj(t)], Some(t))
    else if es[0].kind == "blob" then
      match GetBlob(s, es[0].sha)
      case Err(e) => Err(e)
      case Ok(b) => Scan(s, es[1..], p, chain + [BlobObj(b)], next)
    else Err(UnknownTree(es[0]))
  }

  /** The outer loop over the remaining segments. A segment reached without a
      current tree (the previous one matched nothing or only a blob) fails. */
  function Walk(s: Store, path: string, cur: Option<Tree>, parts: seq<string>, chain: seq<Obj>)
    : (r: Result<seq<Obj>>)
    ensures r.Ok? ==> chain <= r.value
    decreases |parts|
  {
    if parts == [] then Ok(chain)
    else if cur.None? then Err(InvalidPath(path))
    else
      match Scan(s, cur.value.entries, parts[0], chain, None)
      case Err(e) => Err(e)
      case Ok((chain', next)) => Walk(s, path, next, parts[1..], chain')
  }

  /** `getPathTree(path)`: the head tree, then the walk over the '/'-segments.
      A first segment that is empty fails, because the branch meant to strip it
      calls a function that does not exist. */
  function PathTree(s: Store, branch: string, path: string): (r: Result<seq<Obj>>)
    ensures HeadTree(s, branch).Err? ==> r == Err(HeadTree(s, branch).error)
    ensures HeadTree(s, branch).Ok? && (path == "" || path[0] == PathSplit.Sep) ==> r == Err(SliceNotDefined)
    ensures r.Ok? ==> (HeadTree(s, branch).Ok? && |r.value| >= 1
                       && r.value[0] == TreeObj(HeadTree(s, branch).value))
  {
    match HeadTree(s, branch)
    case Err(e) => Err(e)
    case Ok(root) =>
      var parts := PathSplit.Split(path);
      if |parts[0]| == 0 then Err(SliceNotDefined)
      else Walk(s, path, Some(root), parts, [TreeObj(root)])
  }

  // ---------------------------------------------------------------------------
  // What a chain for a path is, independently of the loops.

  /** The first entry named `p`; with unique names, the only one. */
  function Find(es: seq<Entry>, p: string): (r: Option<Entry>)
    ensures r.Some? ==> r.value in es && r.value.path == p
    ensures r.None? <==> forall e :: e in es ==> e.path != p
  {
    if es == [] then None
    else if es[0].path == p then Some(es[0])
    else Find(es[1..], p)
  }

  /** The object stored under an entry's sha, read as the entry's type says. */
  function Fetch(s: Store, e: Entry): (r: Result<Obj>)
    ensures r.Ok? <==> (e.kind == "tree" && e.sha in s.trees) || (e.kind == "blob" && e.sha in s.blobs)
    ensures r.Ok? && e.kind == "tree" ==> r.value == TreeObj(Tree(e.sha, s.trees[e.sha]))
    ensures r.Ok? && e.kind == "blob" ==> r.value == BlobObj(Blob(e.sha, s.blobs[e.sha]))
  {
    if e.kind == "tree" then
      match GetTree(s, e.sha)
      case Err(x) => Err(x)
      case Ok(t) => Ok(TreeObj(t))
    else if e.kind == "blob" then
      match GetBlob(s, e.sha)
      case Err(x) => Err(x)
      case Ok(b) => Ok(BlobObj(b))
    else Err(UnknownTree(e))
  }

  /** `o'` is what segment `p` names inside the tree `o`. */
  ghost predicate Step(s: Store, o: Obj, p: string, o': Obj) {
    o.TreeObj? && Find(o.tree.entries, p).Some? && Fetch(s, Find(o.tree.entries, p).value) == Ok(o')
  }

  /** Each element after the first is what the corresponding segment names in its predecessor. */
  ghost predicate Follows(s: Store, parts: seq<string>, chain: seq<Obj>) {
    |chain| <= |parts| + 1 &&
    forall i :: 0 <= i < |chain| - 1 ==> Step(s, chain[i], parts[i], chain[i + 1])
  }

  /** A chain for `parts`: every segment resolved, or all but the last, which
      names nothing in the last tree of the chain. */
  ghost predicate Resolves(s: Store, parts: seq<string>, chain: seq<Obj>) {
    1 <= |chain| && Follows(s, parts, chain) &&
    (|chain| <= |parts| ==>
      |chain| == |parts| && chain[|chain| - 1].TreeObj? &&
      Find(chain[|chain| - 1].tree.entries, parts[|chain| - 1]).None?)
  }

  /** The tree a chain element leaves as the current tree. */
  function Current(o: Obj): Option<Tree> {
    if o.TreeObj? then Some(o.tree) else None
  }

  /** With unique names, a scan meets at most one entry. */
  lemma {:induction false} ScanUnique(s: Store, es: seq<Entry>, p: string, chain: seq<Obj>, next: Option<Tree>)
    requires UniqueNames(es)
    ensures Find(es, p).None? ==> Scan(s, es, p, chain, next) == Ok((chain, next))
    ensures Find(es, p).Some? && Fetch(s, Find(es, p).value).Err? ==>
      Scan(s, es, p, chain, next) == Err(Fetch(s, Find(es, p).value).error)
    ensures Find(es, p).Some? && Fetch(s, Find(es, p).value).Ok? ==>
      var o := Fetch(s, Find(es, p).value).value;
      Scan(s, es, p, chain, next) == Ok((chain + [o], if o.TreeObj? then Current(o) else next))
  {
    if es != [] {
      assert UniqueNames(es[1..]) by {
        forall i, j | 0 <= i < j < |es[1..]| ensures es[1..][i].path != es[1..][j].path {
          assert es[1..][i] == es[i + 1] && es[1..][j] == es[j + 1];
        }
      }
      if es[0].path != p {
        ScanUnique(s, es[1..], p, chain, next);
      } else {
        assert Find(es[1..], p).None? by {
          forall e | e in es[1..] ensures e.path != p {
            var j :| 0 <= j < |es[1..]| && es[1..][j] == e;
            assert es[j + 1] == e;
          }
        }
        var o := Fetch(s, es[0]);
        if o.Ok? {
          ScanUnique(s, es[1..], p, chain + [o.value],
            if o.value.TreeObj? then Current(o.value) else next);
        }
      }
    }
  }

  /** A chain of two or more elements resolves `parts` exactly when its first
      step does and the rest resolves the remaining segments. */
  lemma ResolvesCons(s: Store, parts: seq<string>, chain: seq<Obj>)
    requires |parts| >= 1 && |chain| >= 2
    ensures Resolves(s, parts, chain) <==>
      Step(s, chain[0], parts[0], chain[1]) && Resolves(s, parts[1..], chain[1..])
  {
    if Step(s, chain[0], parts[0], chain[1]) && Resolves(s, parts[1..], chain[1..]) {
      forall i | 0 <= i < |chain| - 1 ensures Step(s, chain[i], parts[i], chain[i + 1]) {
        if i > 0 {
          assert chain[1..][i - 1] == chain[i] && chain[1..][i] == chain[i + 1];
          assert parts[1..][i - 1] == parts[i];
        }
      }
    }
    if Resolves(s, parts, chain) {
      forall i | 0 <= i < |chain[1..]| - 1
        ensures Step(s, chain[1..][i], parts[1..][i], chain[1..][i + 1])
      {
        assert Step(s, chain[i + 1], parts[i + 1], chain[i + 2]);
      }
    }
  }

  /** The walk from tree `t` yields exactly the chains that resolve `parts` from `t`. */
  lemma {:induction false} WalkResolves(s: Store, path: string, t: Tree, parts: seq<string>, acc: seq<Obj>, chain: seq<Obj>)
    requires WellFormed(s) && UniqueNames(t.entries)
    requires |chain| >= 1 && chain[0] == TreeObj(t)
    ensures Walk(s, path, Some(t), parts, acc) == Ok(acc + chain[1..]) <==> Resolves(s, parts, chain)
    decreases |parts|
  {
    if parts == [] {
      if |chain| == 1 {
        assert acc + chain[1..] == acc;
        assert Follows(s, parts, chain);
      } else {
        assert |acc + chain[1..]| != |acc|;
      }
    } else {
      var p := parts[0];
      ScanUnique(s, t.entries, p, acc, None);
      assert |chain| >= 2 ==> (Resolves(s, parts, chain) ==> Step(s, chain[0], p, chain[1]));
      var f := Find(t.entries, p);
      if f.None? {
        assert Walk(s, path, Some(t), parts, acc) == Walk(s, path, None, parts[1..], acc);
        assert |acc + chain[1..]| == |acc| <==> |chain| == 1;
        assert parts[1..] == [] <==> |parts| == 1;
        if |chain| == 1 {
          assert acc + chain[1..] == acc;
          assert chain[|chain| - 1] == TreeObj(t);
        }
      } else if Fetch(s, f.value).Err? {
      } else {
        var o := Fetch(s, f.value).value;
        var w := Walk(s, path, Current(o), parts[1..], acc + [o]);
        assert Walk(s, path, Some(t), parts, acc) == w;
        if o.TreeObj? {
          assert UniqueNames(o.tree.entries);
          if |chain| >= 2 && chain[1] == o {
            WalkResolves(s, path, o.tree, parts[1..], acc + [o], chain[1..]);
            assert (acc + [o]) + chain[1..][1..] == acc + chain[1..];
            ResolvesCons(s, parts, chain);
          } else if w.Ok? {
            assert acc + [o] <= w.value;
            assert w.value[|acc|] == o;
            assert w.value != acc + chain[1..] by {
              if |chain| >= 2 { assert (acc + chain[1..])[|acc|] == chain[1]; }
            }
          }
        } else {
          if |chain| >= 3 {
            assert |parts| < 2 || chain[1] != o || !Step(s, chain[1], parts[1], chain[2]);
            assert !Resolves(s, parts, chain);
          }
          assert parts[1..] == [] <==> |parts| == 1;
          assert Current(o) == None;
          assert w == if |parts| == 1 then Ok(acc + [o]) else Err(InvalidPath(path));
          if |chain| == 1 {
            assert !Resolves(s, parts, chain);
            assert acc + chain[1..] == acc;
          }
          if |chain| == 2 {
            assert acc + chain[1..] == acc + [chain[1]];
            assert (acc + [o])[|acc|] == o && (acc + [chain[1]])[|acc|] == chain[1];
            assert Resolves(s, parts, chain) <==> chain[1] == o && |parts| == 1;
          }
          assert |acc + chain[1..]| == |acc| + |chain| - 1;
        }
      }
    }
  }

  /** getPathTree succeeds with `chain` exactly when the head tree exists, the
      path does not start with an empty segment, and `chain` starts at the head
      tree and resolves the path's segments. */
  lemma PathTreeResolves(s: Store, branch: string, path: string, chain: seq<Obj>)
    requires WellFormed(s)
    ensures PathTree(s, branch, path) == Ok(chain) <==>
      HeadTree(s, branch).Ok? && PathSplit.Split(path)[0] != "" &&
      |chain| >= 1 && chain[0] == TreeObj(HeadTree(s, branch).value) &&
      Resolves(s, PathSplit.Split(path), chain)
  {
    var h := HeadTree(s, branch);
    var parts := PathSplit.Split(path);
    if h.Ok? && parts[0] != "" && |chain| >= 1 && chain[0] == TreeObj(h.value) {
      WalkResolves(s, path, h.value, parts, [TreeObj(h.value)], chain);
      assert [TreeObj(h.value)] + chain[1..] == chain;
    }
  }

  /** The chain has one element per resolved segment after the head tree: all
      of them, or all but a last segment that names nothing. */
  lemma PathTreeLength(s: Store, branch: string, path: string, chain: seq<Obj>)
    requires WellFormed(s) && PathTree(s, branch, path) == Ok(chain)
    ensures var parts := PathSplit.Split(path);
      |chain| == |parts| + 1 ||
      (|chain| == |parts| && chain[|chain| - 1].TreeObj? &&
       forall e :: e in chain[|chain| - 1].tree.entries ==> e.path != parts[|parts| - 1])
  {
    PathTreeResolves(s, branch, path, chain);
  }

  /** Element i+1 of the chain is the object stored under the entry that
      segment i names in element i, which is a tree. */
  lemma PathTreeChain(s: Store, branch: string, path: string, chain: seq<Obj>, i: nat)
    requires WellFormed(s) && PathTree(s, branch, path) == Ok(chain)
    requires i < |chain| - 1
    ensures i < |PathSplit.Split(path)| && chain[i].TreeObj?
    ensures exists e :: (e in chain[i].tree.entries && e.path == PathSplit.Split(path)[i] &&
      ((e.kind == "tree" && e.sha in s.trees && chain[i + 1] == TreeObj(Tree(e.sha, s.trees[e.sha]))) ||
       (e.kind == "blob" && e.sha in s.blobs && chain[i + 1] == BlobObj(Blob(e.sha, s.blobs[e.sha])))))
  {
    PathTreeResolves(s, branch, path, chain);
    var parts := PathSplit.Split(path);
    assert Step(s, chain[i], parts[i], chain[i + 1]);
    var e := Find(chain[i].tree.entries, parts[i]).value;
    assert e in chain[i].tree.entries;
  }

  /** Walking along a chain that follows the first segments reaches the state
      the loop is in after those segments. */
  lemma {:induction false} WalkAlong(s: Store, path: string, t: Tree, parts: seq<string>, acc: seq<Obj>, pre: seq<Obj>)
    requires WellFormed(s) && UniqueNames(t.entries)
    requires |pre| >= 1 && pre[0] == TreeObj(t) && Follows(s, parts, pre) && |pre| <= |parts|
    ensures Walk(s, path, Some(t), parts, acc) ==
      Walk(s, path, Current(pre[|pre| - 1]), parts[|pre| - 1..], acc + pre[1..])
    decreases |pre|
  {
    if |pre| == 1 {
      assert acc + pre[1..] == acc;
    } else {
      assert Step(s, pre[0], parts[0], pre[1]);
      ScanUnique(s, t.entries, parts[0], acc, None);
      var o := pre[1];
      assert Walk(s, path, Some(t), parts, acc) == Walk(s, path, Current(o), parts[1..], acc + [o]);
      if |pre| == 2 {
        assert acc + pre[1..] == acc + [o];
      } else {
        assert Step(s, pre[1], parts[1], pre[2]);
        assert UniqueNames(o.tree.entries);
        assert Follows(s, parts[1..], pre[1..]) by {
          forall i | 0 <= i < |pre[1..]| - 1
            ensures Step(s, pre[1..][i], parts[1..][i], pre[1..][i + 1])
          {
            assert Step(s, pre[i + 1], parts[i + 1], pre[i + 2]);
          }
        }
        WalkAlong(s, path, o.tree, parts[1..], acc + [o], pre[1..]);
        assert (acc + [o]) + pre[1..][1..] == acc + pre[1..];
        assert parts[1..][|pre[1..]| - 1..] == parts[|pre| - 1..];
      }
    }
  }

  /** A segment that names a blob while segments remain, or a segment before
      the last that names nothing, fails with "invalid path". */
  lemma MidPathFails(s: Store, branch: string, path: string, pre: seq<Obj>)
    requires WellFormed(s) && HeadTree(s, branch).Ok?
    requires |pre| >= 1 && pre[0] == TreeObj(HeadTree(s, branch).value)
    requires Follows(s, PathSplit.Split(path), pre) && |pre| <= |PathSplit.Split(path)|
    requires pre[|pre| - 1].BlobObj? ||
      (|pre| < |PathSplit.Split(path)| &&
       forall e :: e in pre[|pre| - 1].tree.entries ==> e.path != PathSplit.Split(path)[|pre| - 1])
    ensures PathTree(s, branch, path) == Err(if PathSplit.Split(path)[0] == "" then SliceNotDefined else InvalidPath(path))
  {
    var parts := PathSplit.Split(path);
    var root := HeadTree(s, branch).value;
    if parts[0] != "" {
      var acc := [TreeObj(root)];
      WalkAlong(s, path, root, parts, acc, pre);
      var k := |pre| - 1;
      var last := pre[k];
      var rest := parts[k..];
      assert rest[1..] == parts[k + 1..] && rest[0] == parts[k];
      if last.TreeObj? {
        assert UniqueNames(last.tree.entries) by {
          if k > 0 { assert Step(s, pre[k - 1], parts[k - 1], pre[k]); }
        }
        ScanUnique(s, last.tree.entries, parts[k], acc + pre[1..], None);
      }
    }
  }

  /** A matching entry whose type is neither "tree" nor "blob" fails with that entry. */
  lemma UnknownTypeFails(s: Store, branch: string, path: string, pre: seq<Obj>, e: Entry)
    requires WellFormed(s) && HeadTree(s, branch).Ok? && PathSplit.Split(path)[0] != ""
    requires |pre| >= 1 && pre[0] == TreeObj(HeadTree(s, branch).value)
    requires Follows(s, PathSplit.Split(path), pre) && |pre| <= |PathSplit.Split(path)|
    requires pre[|pre| - 1].TreeObj? && e in pre[|pre| - 1].tree.entries
    requires e.path == PathSplit.Split(path)[|pre| - 1] && e.kind != "tree" && e.kind != "blob"
    ensures PathTree(s, branch, path) == Err(UnknownTree(e))
  {
    var parts := PathSplit.Split(path);
    var root := HeadTree(s, branch).value;
    var acc := [TreeObj(root)];
    WalkAlong(s, path, root, parts, acc, pre);
    var k := |pre| - 1;
    var last := pre[k].tree;
    assert UniqueNames(last.entries) by {
      if k > 0 { assert Step(s, pre[k - 1], parts[k - 1], pre[k]); }
    }
    var f := Find(last.entries, parts[k]);
    assert f.value == e by {
      var i :| 0 <= i < |last.entries| && last.entries[i] == e;
      var j :| 0 <= j < |last.entries| && last.entries[j] == f.value;
    }
    ScanUnique(s, last.entries, parts[k], acc + pre[1..], None);
  }

  /** Without unique names the bound on the chain's length fails: a root tree
      with two blob entries named "a" gives three elements for one segment. */
  lemma DuplicateNamesLengthenChain()
    ensures var e := Entry("a", "blob", "b1", None);
      var s := Store(map["heads/master" := "c1"], map["c1" := "t1"], map["t1" := [e, e]], map["b1" := "x"]);
      var r := PathTree(s, "master", "a");
      r.Ok? && |r.value| == |PathSplit.Split("a")| + 2
  {
    var e := Entry("a", "blob", "b1", None);
    var s := Store(map["heads/master" := "c1"], map["c1" := "t1"], map["t1" := [e, e]], map["b1" := "x"]);
    var root := Tree("t1", [e, e]);
    var b := BlobObj(Blob("b1", "x"));
    assert HeadRef("master") == "heads/master";
    assert HeadTree(s, "master") == Ok(root);
    PathSplit.SplitNoSep("a");
    assert [e, e][1..] == [e];
    assert GetBlob(s, "b1") == Ok(Blob("b1", "x"));
    assert [e][1..] == [];
    assert e.kind != "tree" by { assert e.kind[0] != "tree"[0]; }
    assert e.kind == "blob" && e.path == "a";
    assert [TreeObj(root), b] + [b] == [TreeObj(root), b, b];
    assert [TreeObj(root)] + [b] == [TreeObj(root), b];
    assert Scan(s, [e], "a", [TreeObj(root), b], None) == Ok(([TreeObj(root), b, b], None));
    assert Scan(s, [e, e], "a", [TreeObj(root)], None) == Ok(([TreeObj(root), b, b], None));
    assert Walk(s, "a", Some(root), ["a"], [TreeObj(root)]) == Ok([TreeObj(root), b, b]);
  }
}
