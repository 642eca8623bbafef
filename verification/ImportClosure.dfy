/** The transitive first-party imports of some root files, found with a worklist. */
module ImportClosure {
  import opened Outcomes
  import opened Sequences

  /** A file of the service, by its relative path. */
  datatype File = File(path: string)

  /**
   The service's files, each with the first-party files its imports resolve to.  An import
   that resolves to no file is not listed, so every listed one is itself a file.
   */
  type Tree = map<File, seq<File>>

  ghost predicate Resolved(tree: Tree) {
    forall f, i :: f in tree && 0 <= i < |tree[f]| ==> tree[f][i] in tree
  }

  datatype ClosureError = FileMissing(file: File)

  ghost predicate Closed(tree: Tree, s: set<File>) {
    forall f, i :: f in s && f in tree && 0 <= i < |tree[f]| ==> tree[f][i] in s
  }

  /** A chain of imports from a root. */
  ghost predicate ImportPath(tree: Tree, roots: seq<File>, path: seq<File>) {
    && |path| > 0 && path[0] in roots
    && forall k :: 0 <= k < |path| - 1 ==> path[k] in tree && path[k + 1] in tree[path[k]]
  }

  ghost predicate Reachable(tree: Tree, roots: seq<File>, file: File) {
    exists path :: ImportPath(tree, roots, path) && path[|path| - 1] == file
  }

  /** Everything on the frontier or imported by a seen file is seen or on the frontier. */
  ghost predicate Pending(tree: Tree, seen: set<File>, frontier: seq<File>) {
    forall f, i :: f in seen && f in tree && 0 <= i < |tree[f]| ==> tree[f][i] in seen || tree[f][i] in frontier
  }

  /** The members not yet seen, pushed in import order. */
  method PushMembers(members: seq<File>, seen: set<File>, frontier: seq<File>) returns (pushed: seq<File>)
    ensures frontier <= pushed
    ensures forall f :: f in pushed ==> f in frontier || f in members
    ensures forall i :: 0 <= i < |members| ==> members[i] in seen || members[i] in pushed
  {
    pushed := frontier;
    for i := 0 to |members|
      invariant frontier <= pushed
      invariant forall f :: f in pushed ==> f in frontier || f in members
      invariant forall j :: 0 <= j < i ==> members[j] in seen || members[j] in pushed
    {
      if members[i] !in seen {
        pushed := pushed + [members[i]];
        assert pushed[|pushed| - 1] == members[i];
      }
    }
  }

  /** Where the walk stands. */
  ghost predicate Searching(tree: Tree, roots: seq<File>, seen: set<File>, frontier: seq<File>) {
    && seen <= tree.Keys
    && Pending(tree, seen, frontier)
    && (forall f :: f in roots ==> f in seen || f in frontier)
    && (forall f :: f in frontier ==> f in tree || f in roots)
    && (forall f :: f in seen || f in frontier ==> Reachable(tree, roots, f))
  }

  ghost predicate HoldsRoots(roots: seq<File>, s: set<File>) {
    forall f :: f in roots ==> f in s
  }

  lemma {:induction false} PoppedAgain(tree: Tree, roots: seq<File>, seen: set<File>, below: seq<File>, popped: File)
    requires Searching(tree, roots, seen, below + [popped]) && popped in seen
    ensures Searching(tree, roots, seen, below)
  {
    forall f ensures f in below + [popped] <==> f in below || f == popped {
      InSnoc(below, popped, f);
    }
  }

  lemma {:induction false} PoppedNew(
    tree: Tree, roots: seq<File>, seen: set<File>, below: seq<File>, popped: File, pushed: seq<File>)
    requires Resolved(tree) && Searching(tree, roots, seen, below + [popped]) && popped in tree
    requires below <= pushed
    requires forall f :: f in pushed ==> f in below || f in tree[popped]
    requires forall i :: 0 <= i < |tree[popped]| ==> tree[popped][i] in seen + {popped} || tree[popped][i] in pushed
    ensures Searching(tree, roots, seen + {popped}, pushed)
  {
    forall f ensures f in below + [popped] <==> f in below || f == popped {
      InSnoc(below, popped, f);
    }
    forall f | f in below ensures f in pushed {
      var i :| 0 <= i < |below| && below[i] == f;
      assert pushed[i] == f;
    }
    assert Reachable(tree, roots, popped);
    MembersAreReachable(tree, roots, popped);
  }

  /** With nothing left to visit, what was seen is the least closed set that holds the roots. */
  lemma {:induction false} NothingPending(tree: Tree, roots: seq<File>, seen: set<File>)
    requires Searching(tree, roots, seen, [])
    ensures HoldsRoots(roots, seen) && Closed(tree, seen)
    ensures forall s: set<File> :: HoldsRoots(roots, s) && Closed(tree, s) ==> seen <= s
    ensures forall f :: f in seen <==> Reachable(tree, roots, f)
  {
    forall s: set<File> | HoldsRoots(roots, s) && Closed(tree, s) ensures seen <= s {
      forall f | f in seen ensures f in s {
        ReachableIsInEveryClosed(tree, roots, f, s);
      }
    }
    forall f | Reachable(tree, roots, f) ensures f in seen {
      ReachableIsInEveryClosed(tree, roots, f, seen);
    }
  }

  /**
   Walk the imports from the roots, last found first.  A root that is not a file fails;
   otherwise the result is the least set that holds the roots and is closed under imports,
   which is the set of files some chain of imports reaches.
   */
  method SignalDecisionImportClosure(tree: Tree, roots: seq<File>) returns (r: Result<set<File>, ClosureError>)
    requires Resolved(tree)
    ensures r.Ok? <==> HoldsRoots(roots, tree.Keys)
    ensures r.Err? ==> r.error.file in roots && r.error.file !in tree
    ensures r.Ok? ==> HoldsRoots(roots, r.value) && Closed(tree, r.value)
    ensures r.Ok? ==> forall s: set<File> :: HoldsRoots(roots, s) && Closed(tree, s) ==> r.value <= s
    ensures r.Ok? ==> forall f :: f in r.value <==> Reachable(tree, roots, f)
  {
    var seen: set<File> := {};
    var frontier := roots;
    RootsAreReachable(tree, roots);
    while frontier != []
      invariant Searching(tree, roots, seen, frontier)
      decreases tree.Keys - seen, |frontier|
    {
      var relative := frontier[|frontier| - 1];
      var below := frontier[..|frontier| - 1];
      assert frontier == below + [relative];
      if relative in seen {
        PoppedAgain(tree, roots, seen, below, relative);
        frontier := below;
      } else if relative !in tree {
        return Err(FileMissing(relative));
      } else {
        var pushed := PushMembers(tree[relative], seen + {relative}, below);
        PoppedNew(tree, roots, seen, below, relative, pushed);
        seen, frontier := seen + {relative}, pushed;
      }
    }
    NothingPending(tree, roots, seen);
    return Ok(seen);
  }

  lemma {:induction false} RootsAreReachable(tree: Tree, roots: seq<File>)
    ensures forall f :: f in roots ==> Reachable(tree, roots, f)
  {
    forall f | f in roots ensures Reachable(tree, roots, f) {
      var path := [f];
      assert ImportPath(tree, roots, path) && path[|path| - 1] == f;
    }
  }

  lemma {:induction false} MembersAreReachable(tree: Tree, roots: seq<File>, file: File)
    requires file in tree && Reachable(tree, roots, file)
    ensures forall f :: f in tree[file] ==> Reachable(tree, roots, f)
  {
    var path :| ImportPath(tree, roots, path) && path[|path| - 1] == file;
    forall f | f in tree[file] ensures Reachable(tree, roots, f) {
      var longer := path + [f];
      assert ImportPath(tree, roots, longer) && longer[|longer| - 1] == f;
    }
  }

  /** A file some chain of imports reaches is in every closed set that holds the roots. */
  lemma {:induction false} ReachableIsInEveryClosed(tree: Tree, roots: seq<File>, file: File, s: set<File>)
    requires Reachable(tree, roots, file)
    requires HoldsRoots(roots, s) && Closed(tree, s)
    ensures file in s
  {
    var path :| ImportPath(tree, roots, path) && path[|path| - 1] == file;
    PathStaysInside(tree, roots, path, s, |path| - 1);
  }

  lemma {:induction false} PathStaysInside(tree: Tree, roots: seq<File>, path: seq<File>, s: set<File>, k: nat)
    requires ImportPath(tree, roots, path) && k < |path|
    requires HoldsRoots(roots, s) && Closed(tree, s)
    ensures path[k] in s
  {
    if k > 0 {
      PathStaysInside(tree, roots, path, s, k - 1);
      var imports := tree[path[k - 1]];
      assert path[k] in imports;
      var i :| 0 <= i < |imports| && imports[i] == path[k];
      assert imports[i] in s;
    }
  }
}
