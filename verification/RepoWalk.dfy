/** The bounded search for repositories: an explicit stack, a shared budget and a
    deadline, against the plain recursive walk it stands for. */
module RepoWalk {
  import opened Wrappers
  import opened Paths
  import opened Strings
  import opened Sorting

  datatype DirEntry = DirEntry(name: string, isDir: bool)

  /** A directory: whether a `.git` sits in it, and what listing it yields
      (nothing when it cannot be read). */
  datatype Dir = Dir(hasGit: bool, entries: Option<set<DirEntry>>)

  type Tree = map<string, Dir>

  // ---- Paths below a system directory ----

  function WithSlash(dir: string): string { RStripSlash(dir) + "/" }

  /** `directory in exact or directory.startswith(prefixes)`. */
  predicate IsSystem(system: set<string>, dir: string) {
    dir in system || exists d :: d in system && WithSlash(d) <= dir
  }

  lemma FirstSlash(a: string, s: string)
    requires '/' !in a && (s == "" || s[0] == '/')
    ensures IndexOf(a + s, '/') == |a|
  {
    assert forall k :: 0 <= k < |a| ==> (a + s)[k] == a[k];
    assert s != "" ==> (a + s)[|a|] == '/';
  }

  lemma SameFirstSlash(u: string, v: string)
    requires u <= v && '/' in u
    ensures IndexOf(u, '/') == IndexOf(v, '/')
  {
  }

  /** Where two paths agree up to a slash they agree on the first component. */
  lemma FirstComponent(a: string, s: string, b: string, t: string)
    requires '/' !in a && '/' !in b && t != "" && t[0] == '/' && (s == "" || s[0] == '/')
    requires b + t <= a + s
    ensures a == b && t <= s
  {
    FirstSlash(a, s);
    FirstSlash(b, t);
    SameFirstSlash(b + t, a + s);
    assert a == (a + s)[..|a|] && b == (b + t)[..|b|];
    assert s == (a + s)[|a|..] && t == (b + t)[|b|..];
  }

  lemma {:induction false} BelowMeansPrefix(x: seq<string>, y: seq<string>)
    requires Components(x) && Components(y) && RenderBelow(y) + "/" <= RenderBelow(x) + "/"
    ensures y <= x
  {
    if y != [] {
      assert |RenderBelow(y)| > 1;
      var t, s := RenderBelow(y[1..]) + "/", RenderBelow(x[1..]) + "/";
      assert t[0] == '/' && s[0] == '/';
      assert y[0] + t <= x[0] + s by {
        assert RenderBelow(y) + "/" == "/" + (y[0] + t);
        assert RenderBelow(x) + "/" == "/" + (x[0] + s);
        assert (RenderBelow(y) + "/")[1..] == y[0] + t && (RenderBelow(x) + "/")[1..] == x[0] + s;
      }
      FirstComponent(x[0], s, y[0], t);
      BelowMeansPrefix(x[1..], y[1..]);
      assert y == [y[0]] + y[1..] && x == [x[0]] + x[1..];
    }
  }

  lemma PrefixOf(dir: seq<string>)
    requires Components(dir)
    ensures WithSlash(Render(dir)) == RenderBelow(dir) + "/"
  {
    if dir == [] {
      assert RStripSlash("/") == RStripSlash("");
    } else {
      RenderEnds(dir);
    }
  }

  lemma AncestorPasses(path: seq<string>, dir: seq<string>)
    requires Components(path) && Components(dir) && dir <= path && dir != path
    ensures RenderBelow(dir) + "/" <= RenderBelow(path)
  {
  }

  /** The prefix test on strings is the ancestor test on paths: for a normalized
      path and system directory, it holds exactly for the directory and what
      lies below it. */
  lemma PrefixTestIsAncestry(path: seq<string>, dir: seq<string>)
    requires Components(path) && Components(dir)
    ensures IsSystem({Render(dir)}, Render(path)) <==> dir <= path
  {
    PrefixOf(dir);
    hide WithSlash;
    if dir <= path {
      if dir != path {
        AncestorPasses(path, dir);
      }
    } else {
      assert dir != [];
      RenderEnds(dir);
      if RenderBelow(dir) + "/" <= RenderBelow(path) + "/" {
        BelowMeansPrefix(path, dir);
      }
    }
  }

  /** The same for any set of normalized system directories. */
  lemma SystemIsAncestry(system: set<string>, path: seq<string>)
    requires Components(path) && forall d :: d in system ==> exists dir :: Components(dir) && Render(dir) == d
    ensures IsSystem(system, Render(path)) <==> exists dir :: Components(dir) && Render(dir) in system && dir <= path
  {
    hide WithSlash, Components, Render;
    if IsSystem(system, Render(path)) {
      var d :| d in system && IsSystem({d}, Render(path));
      var dir :| Components(dir) && Render(dir) == d;
      PrefixTestIsAncestry(path, dir);
    }
    if dir :| Components(dir) && Render(dir) in system && dir <= path {
      PrefixTestIsAncestry(path, dir);
    }
  }

  // ---- The walk, as plain recursion ----

  const SKIPPED_NAMES: set<string> := {
    "node_modules", ".venv", "venv", "__pycache__", ".tox", ".git", "Library", ".cache", ".Trash"}

  /** `os.path.join(directory, name)`. */
  function Child(dir: string, name: string): string {
    if dir != "" && dir[|dir| - 1] == '/' then dir + name else dir + "/" + name
  }

  predicate Visited(e: DirEntry) {
    e.isDir && e.name !in SKIPPED_NAMES && !(|e.name| > 0 && e.name[0] == '.')
  }

  /** The subdirectories a walk goes into, in ascending order. */
  ghost function Children(tree: Tree, dir: string): seq<string> {
    if dir in tree && tree[dir].entries.Some?
    then Sorted(set e | e in tree[dir].entries.value && Visited(e) :: Child(dir, e.name))
    else []
  }

  /** A walk goes into the directories that carry none of these names and no
      leading dot, in ascending order of their paths. */
  lemma ChildrenAreExactly(tree: Tree, dir: string, path: string)
    ensures path in Children(tree, dir) <==>
      && dir in tree && tree[dir].entries.Some?
      && exists name :: DirEntry(name, true) in tree[dir].entries.value
           && path == (if dir != "" && dir[|dir| - 1] == '/' then dir + name else dir + "/" + name)
           && (name == "" || name[0] != '.')
           && name != "node_modules" && name != "venv" && name != "__pycache__" && name != "Library"
    ensures Distinct(Children(tree, dir)) && Ascending(Children(tree, dir))
  {
    if dir in tree && tree[dir].entries.Some? {
      forall name | DirEntry(name, true) in tree[dir].entries.value
        ensures Visited(DirEntry(name, true)) == (
          && (name == "" || name[0] != '.')
          && name != "node_modules" && name != "venv" && name != "__pycache__" && name != "Library")
      {
      }
    }
  }

  predicate HasGit(tree: Tree, dir: string) { dir in tree && tree[dir].hasGit }

  datatype World = World(tree: Tree, system: set<string>, depth: int)

  function Below(w: World, level: nat): nat { if w.depth > level then w.depth - level else 0 }

  /** All repositories at and below a directory, parents first. */
  ghost function Preorder(w: World, dir: string, level: nat): seq<string>
    decreases Below(w, level), 0
  {
    if IsSystem(w.system, dir) then []
    else (if HasGit(w.tree, dir) then [dir] else []) +
         (if level >= w.depth then [] else Forest(w, Children(w.tree, dir), level + 1))
  }

  ghost function Forest(w: World, dirs: seq<string>, level: nat): seq<string>
    decreases Below(w, level), 1, |dirs|
  {
    if dirs == [] then [] else Preorder(w, dirs[0], level) + Forest(w, dirs[1..], level)
  }

  // ---- The walk, with a stack ----

  type Stack = seq<(string, nat)>

  /** What is still to be found from a stack, the top first. */
  ghost function Remaining(w: World, stack: Stack): seq<string> {
    if stack == [] then []
    else Preorder(w, stack[|stack| - 1].0, stack[|stack| - 1].1) + Remaining(w, stack[..|stack| - 1])
  }

  /** `stack.extend((child, level) for child in reversed(children))`. */
  function Pushed(children: seq<string>, level: nat): Stack {
    if children == [] then [] else Pushed(children[1..], level) + [(children[0], level)]
  }

  lemma Popping(w: World, stack: Stack, dir: string, level: nat)
    ensures Remaining(w, stack + [(dir, level)]) == Preorder(w, dir, level) + Remaining(w, stack)
  {
  }

  lemma {:induction false} PushingKeepsOrder(w: World, stack: Stack, children: seq<string>, level: nat)
    ensures Remaining(w, stack + Pushed(children, level)) == Forest(w, children, level) + Remaining(w, stack)
  {
    hide Preorder, Remaining;
    if children == [] {
      assert stack + [] == stack;
    } else {
      var rest := Pushed(children[1..], level);
      PushingKeepsOrder(w, stack, children[1..], level);
      Popping(w, stack + rest, children[0], level);
      assert stack + Pushed(children, level) == stack + rest + [(children[0], level)];
    }
  }

  /** Shared by every root of one scan. */
  class WalkBudget {
    var dirs: int

    constructor (dirs: int)
      ensures this.dirs == dirs
    {
      this.dirs := dirs;
    }
  }

  /** Whether the deadline has passed by now: the clock is not modelled. */
  method DeadlinePassed() returns (passed: bool)
  {
    passed := *;
  }

  method ListChildren(tree: Tree, dir: string) returns (children: seq<string>)
    ensures children == Children(tree, dir)
  {
    if dir !in tree || tree[dir].entries.None? {
      return [];
    }
    var paths := set e | e in tree[dir].entries.value && Visited(e) :: Child(dir, e.name);
    children := SortStrings(paths);
    SortedIsUnique(children, Sorted(paths), paths);
  }

  /** The stack-driven walk finds the recursive preorder list, or a prefix of it
      when it stops early; it pops no more directories than the budget allows,
      finds no more repositories than the limit, and always ends. */
  method FindReposReport(w: World, root: string, limit: int, budget: WalkBudget)
    returns (repos: seq<string>, truncated: bool, ghost late: bool)
    modifies budget
    ensures !truncated ==> repos == Preorder(w, root, 0)
    ensures truncated ==> repos <= Preorder(w, root, 0)
    ensures limit >= 0 ==> |repos| <= limit
    ensures budget.dirs <= old(budget.dirs) && (old(budget.dirs) >= 0 ==> budget.dirs >= 0)
    ensures |repos| <= old(budget.dirs) - budget.dirs
    ensures truncated ==> |repos| >= limit || budget.dirs <= 0 || late
  {
    hide Preorder, Forest, Remaining, IsSystem, HasGit, Children, Pushed;
    repos := [];
    late := false;
    var stack: Stack := [(root, 0)];
    truncated := false;
    OneDirectory(w, root);
    while stack != []
      invariant repos + Remaining(w, stack) == Preorder(w, root, 0)
      invariant limit >= 0 ==> |repos| <= limit
      invariant budget.dirs <= old(budget.dirs) && (old(budget.dirs) >= 0 ==> budget.dirs >= 0)
      invariant |repos| <= old(budget.dirs) - budget.dirs
      decreases budget.dirs
    {
      var passed := DeadlinePassed();
      if |repos| >= limit || budget.dirs <= 0 || passed {
        truncated := true;
        late := passed;
        break;
      }
      var (dir, level) := stack[|stack| - 1];
      assert stack == stack[..|stack| - 1] + [(dir, level)];
      ghost var found := repos;
      stack := stack[..|stack| - 1];
      Popping(w, stack, dir, level);
      Visiting(w, dir, level);
      budget.dirs := budget.dirs - 1;
      if IsSystem(w.system, dir) {
        continue;
      }
      ghost var here := if HasGit(w.tree, dir) then [dir] else [];
      if HasGit(w.tree, dir) {
        repos := repos + [dir];
      }
      if level >= w.depth {
        Regroup(found, here, [], Remaining(w, stack));
        continue;
      }
      var children := ListChildren(w.tree, dir);
      PushingKeepsOrder(w, stack, children, level + 1);
      Regroup(found, here, Forest(w, children, level + 1), Remaining(w, stack));
      stack := stack + Pushed(children, level + 1);
    }
  }

  lemma Regroup(found: seq<string>, here: seq<string>, below: seq<string>, rest: seq<string>)
    ensures found + ((here + below) + rest) == (found + here) + (below + rest)
    ensures here + [] == here && [] + rest == rest && found + [] == found
  {
  }

  lemma OneDirectory(w: World, dir: string)
    ensures Remaining(w, [(dir, 0)]) == Preorder(w, dir, 0)
    ensures Remaining(w, []) == []
  {
  }

  lemma Visiting(w: World, dir: string, level: nat)
    ensures Preorder(w, dir, level) ==
      if IsSystem(w.system, dir) then []
      else (if HasGit(w.tree, dir) then [dir] else []) +
           (if level >= w.depth then [] else Forest(w, Children(w.tree, dir), level + 1))
  {
  }

  // ---- What the list contains ----

  /** A way down from a directory: each step enters a visited child, nothing on
      the way is a system directory, and the depth bound is kept. */
  ghost predicate Trail(w: World, level: nat, chain: seq<string>) {
    && chain != []
    && (forall i :: 0 <= i < |chain| ==> !IsSystem(w.system, chain[i]))
    && (forall i :: 0 <= i < |chain| - 1 ==> chain[i + 1] in Children(w.tree, chain[i]))
    && (|chain| > 1 ==> level + |chain| - 1 <= w.depth)
  }

  lemma {:induction false} InForest(w: World, dirs: seq<string>, level: nat, dir: string, r: string)
    requires dir in dirs && r in Preorder(w, dir, level)
    ensures r in Forest(w, dirs, level)
  {
    hide Preorder;
    if dirs[0] != dir {
      InForest(w, dirs[1..], level, dir, r);
    }
  }

  lemma {:induction false} TrailIsListed(w: World, level: nat, chain: seq<string>)
    requires Trail(w, level, chain) && HasGit(w.tree, chain[|chain| - 1])
    ensures chain[|chain| - 1] in Preorder(w, chain[0], level)
    decreases |chain|
  {
    hide IsSystem, HasGit, Children;
    if |chain| > 1 {
      assert chain[0 + 1] in Children(w.tree, chain[0]);
      TrailIsListed(w, level + 1, chain[1..]);
      InForest(w, Children(w.tree, chain[0]), level + 1, chain[1], chain[|chain| - 1]);
    }
  }

  lemma {:induction false} ListedHasTrail(w: World, dirs: seq<string>, level: nat, r: string)
    returns (chain: seq<string>)
    requires r in Forest(w, dirs, level)
    ensures Trail(w, level, chain) && chain[0] in dirs && chain[|chain| - 1] == r && HasGit(w.tree, r)
    decreases Below(w, level), |dirs|
  {
    hide IsSystem, HasGit, Children;
    if r in Preorder(w, dirs[0], level) {
      if r == dirs[0] && HasGit(w.tree, r) {
        chain := [r];
      } else {
        var rest := ListedHasTrail(w, Children(w.tree, dirs[0]), level + 1, r);
        chain := [dirs[0]] + rest;
      }
    } else {
      chain := ListedHasTrail(w, dirs[1..], level, r);
    }
  }

  /** An untruncated walk lists exactly the repositories a trail leads to. */
  lemma WalkFindsExactly(w: World, root: string, r: string)
    ensures r in Preorder(w, root, 0) <==>
      exists chain :: Trail(w, 0, chain) && chain[0] == root && chain[|chain| - 1] == r && HasGit(w.tree, r)
  {
    hide IsSystem, HasGit, Children, Preorder;
    if r in Preorder(w, root, 0) {
      assert Forest(w, [root], 0) == Preorder(w, root, 0) + Forest(w, [root][1..], 0);
      var chain := ListedHasTrail(w, [root], 0, r);
    }
    if chain :| Trail(w, 0, chain) && chain[0] == root && chain[|chain| - 1] == r && HasGit(w.tree, r) {
      TrailIsListed(w, 0, chain);
    }
  }
}
