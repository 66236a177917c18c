// The directory tree that `render_fragment` builds from destination paths.
module WindowsMsiTree {
  import opened SlashPaths
  import opened Sorting
  import opened WindowsMsiWalk

  /** `ResourceDirectory`; the children of a `BTreeMap` are kept in name order. */
  datatype Tree = Tree(children: seq<Child>, files: seq<ResourceFile>)

  datatype Child = Child(name: string, tree: Tree)

  const EMPTY := Tree([], [])

  function Codes(s: string): (r: seq<int>)
    ensures |r| == |s| && forall i :: 0 <= i < |s| ==> r[i] == s[i] as int
  {
    seq(|s|, i requires 0 <= i < |s| => s[i] as int)
  }

  predicate NameLess(a: string, b: string) { a != b && LexLeq(Codes(a), Codes(b)) }

  lemma NameOrder(a: string, b: string, c: string)
    ensures a == b || NameLess(a, b) || NameLess(b, a)
    ensures NameLess(a, b) && NameLess(b, c) ==> NameLess(a, c)
  {
    LexConnected(Codes(a), Codes(b));
    if NameLess(a, b) && NameLess(b, c) {
      LexTransitive(Codes(a), Codes(b), Codes(c));
      if a == c {
        SameCodes(a, b);
      }
    }
  }

  lemma SameCodes(a: string, b: string)
    requires LexLeq(Codes(a), Codes(b)) && LexLeq(Codes(b), Codes(a))
    ensures a == b
  {
    LexAntiSymmetric(Codes(a), Codes(b));
    assert forall i :: 0 <= i < |a| ==> a[i] as int == Codes(b)[i];
  }

  /** Walk down the directories of `path`, creating the missing ones, and append the file to the last. */
  function Put(tree: Tree, path: seq<string>, file: ResourceFile): Tree
    requires path != []
    decreases |path|, 0
  {
    if |path| == 1 then tree.(files := tree.files + [file.(destination := path[0])])
    else tree.(children := PutIn(tree.children, path, file))
  }

  function PutIn(children: seq<Child>, path: seq<string>, file: ResourceFile): seq<Child>
    requires |path| > 1
    decreases |path| - 1, 1, |children|
  {
    if children == [] || NameLess(path[0], children[0].name) then
      [Child(path[0], Put(EMPTY, path[1..], file))] + children
    else if children[0].name == path[0] then
      [Child(path[0], Put(children[0].tree, path[1..], file))] + children[1..]
    else [children[0]] + PutIn(children[1..], path, file)
  }

  function Build(resources: seq<ResourceFile>): Tree {
    if resources == [] then EMPTY
    else
      var n := |resources| - 1;
      Put(Build(resources[..n]), Split(resources[n].destination), resources[n])
  }

  // ----- flattening gives the resources back

  /** A file in the tree: its path from the root, its source and its digest. */
  datatype Located = Located(path: seq<string>, source: string, digest: string)

  ghost function Flatten(tree: Tree, prefix: seq<string>): multiset<Located>
    decreases tree, 1
  {
    FlattenFiles(tree.files, prefix) + FlattenAll(tree.children, prefix)
  }

  ghost function FlattenFiles(files: seq<ResourceFile>, prefix: seq<string>): multiset<Located> {
    if files == [] then multiset{}
    else
      var n := |files| - 1;
      FlattenFiles(files[..n], prefix)
          + multiset{Located(prefix + [files[n].destination], files[n].source, files[n].digest)}
  }

  ghost function FlattenAll(children: seq<Child>, prefix: seq<string>): multiset<Located>
    decreases children, 0
  {
    if children == [] then multiset{}
    else Flatten(children[0].tree, prefix + [children[0].name]) + FlattenAll(children[1..], prefix)
  }

  ghost function Place(path: seq<string>, file: ResourceFile): Located {
    Located(path, file.source, file.digest)
  }

  lemma {:induction false} PutFlatten(tree: Tree, path: seq<string>, file: ResourceFile, prefix: seq<string>)
    requires path != []
    ensures Flatten(Put(tree, path, file), prefix) == Flatten(tree, prefix) + multiset{Place(prefix + path, file)}
    decreases |path|, 0
  {
    if |path| == 1 {
      var named := file.(destination := path[0]);
      assert (tree.files + [named])[..|tree.files|] == tree.files;
      assert prefix + [path[0]] == prefix + path;
    } else {
      PutInFlatten(tree.children, path, file, prefix);
    }
  }

  lemma {:induction false} PutInFlatten(children: seq<Child>, path: seq<string>, file: ResourceFile,
          prefix: seq<string>)
    requires |path| > 1
    ensures FlattenAll(PutIn(children, path, file), prefix)
            == FlattenAll(children, prefix) + multiset{Place(prefix + path, file)}
    decreases |path| - 1, 1, |children|
  {
    var inner := prefix + [path[0]];
    assert inner + path[1..] == prefix + path;
    var after := PutIn(children, path, file);
    if children == [] || NameLess(path[0], children[0].name) {
      PutFlatten(EMPTY, path[1..], file, inner);
      assert after[1..] == children;
    } else if children[0].name == path[0] {
      PutFlatten(children[0].tree, path[1..], file, inner);
      assert after[1..] == children[1..];
    } else {
      PutInFlatten(children[1..], path, file, prefix);
      assert after[1..] == PutIn(children[1..], path, file);
    }
  }

  ghost function Inputs(resources: seq<ResourceFile>): multiset<Located> {
    if resources == [] then multiset{}
    else
      var n := |resources| - 1;
      Inputs(resources[..n]) + multiset{Place(Split(resources[n].destination), resources[n])}
  }

  /** Each resource is in the tree exactly once, at its own path, with its source and digest. */
  lemma {:induction false} BuildFlatten(resources: seq<ResourceFile>)
    ensures Flatten(Build(resources), []) == Inputs(resources)
  {
    if resources != [] {
      var n := |resources| - 1;
      BuildFlatten(resources[..n]);
      var path := Split(resources[n].destination);
      PutFlatten(Build(resources[..n]), path, resources[n], []);
      assert [] + path == path;
    }
  }

  // ----- each directory exists once

  ghost predicate Sorted(children: seq<Child>) {
    forall i, j :: 0 <= i < j < |children| ==> NameLess(children[i].name, children[j].name)
  }

  ghost predicate Ordered(tree: Tree) {
    Sorted(tree.children) && forall child <- tree.children :: Ordered(child.tree)
  }

  lemma {:induction false} PutOrdered(tree: Tree, path: seq<string>, file: ResourceFile)
    requires path != [] && Ordered(tree)
    ensures Ordered(Put(tree, path, file))
    decreases |path|, 0
  {
    if |path| > 1 {
      PutInOrdered(tree.children, path, file);
    }
  }

  lemma {:induction false} PutInOrdered(children: seq<Child>, path: seq<string>, file: ResourceFile)
    requires |path| > 1 && Sorted(children) && forall child <- children :: Ordered(child.tree)
    ensures Sorted(PutIn(children, path, file))
    ensures forall child <- PutIn(children, path, file) :: Ordered(child.tree)
    ensures forall child <- PutIn(children, path, file) ::
              child.name == path[0] || exists c :: c in children && c.name == child.name
    decreases |path| - 1, 1, |children|
  {
    if children == [] || NameLess(path[0], children[0].name) {
      PutOrdered(EMPTY, path[1..], file);
      forall j | 0 <= j < |children| ensures NameLess(path[0], children[j].name) {
        if j > 0 { NameOrder(path[0], children[0].name, children[j].name); }
      }
    } else if children[0].name == path[0] {
      assert children[0] in children;
      PutOrdered(children[0].tree, path[1..], file);
    } else {
      var rest := PutIn(children[1..], path, file);
      assert forall c <- children[1..] :: c in children;
      PutInOrdered(children[1..], path, file);
      NameOrder(path[0], children[0].name, "");
      forall child | child in rest ensures NameLess(children[0].name, child.name) {
        if child.name != path[0] {
          var c :| c in children[1..] && c.name == child.name;
        }
      }
    }
  }

  lemma {:induction false} BuildOrdered(resources: seq<ResourceFile>)
    ensures Ordered(Build(resources))
  {
    if resources != [] {
      var n := |resources| - 1;
      BuildOrdered(resources[..n]);
      PutOrdered(Build(resources[..n]), Split(resources[n].destination), resources[n]);
    }
  }

  /** The paths of all directories in the tree. */
  ghost function Directories(tree: Tree, prefix: seq<string>): multiset<seq<string>>
    decreases tree, 1
  {
    DirectoriesOf(tree.children, prefix)
  }

  ghost function DirectoriesOf(children: seq<Child>, prefix: seq<string>): multiset<seq<string>>
    decreases children, 0
  {
    if children == [] then multiset{}
    else
      var inner := prefix + [children[0].name];
      multiset{inner} + Directories(children[0].tree, inner) + DirectoriesOf(children[1..], prefix)
  }

  /** `d` is `prefix` followed by a proper non-empty prefix of `path`. */
  ghost predicate Ancestor(d: seq<string>, prefix: seq<string>, path: seq<string>) {
    exists k :: 0 < k < |path| && d == prefix + path[..k]
  }

  lemma AncestorStep(d: seq<string>, prefix: seq<string>, path: seq<string>)
    requires |path| > 1
    ensures Ancestor(d, prefix, path) <==> d == prefix + [path[0]] || Ancestor(d, prefix + [path[0]], path[1..])
  {
    var inner := prefix + [path[0]];
    forall k | 0 < k < |path| ensures prefix + path[..k] == inner + path[1..][..k - 1] {
      assert path[..k] == [path[0]] + path[1..][..k - 1];
    }
    if Ancestor(d, prefix, path) {
      var k :| 0 < k < |path| && d == prefix + path[..k];
      if k > 1 {
        assert d == inner + path[1..][..k - 1];
      }
    }
    if Ancestor(d, inner, path[1..]) {
      var k :| 0 < k < |path[1..]| && d == inner + path[1..][..k];
      assert d == prefix + path[..k + 1];
    }
    if d == inner {
      assert d == prefix + path[..1];
    }
  }

  lemma {:induction false} PutDirectories(tree: Tree, path: seq<string>, file: ResourceFile, prefix: seq<string>,
          d: seq<string>)
    requires path != []
    ensures d in Directories(Put(tree, path, file), prefix)
            <==> d in Directories(tree, prefix) || Ancestor(d, prefix, path)
    decreases |path|, 0
  {
    if |path| > 1 {
      PutInDirectories(tree.children, path, file, prefix, d);
    }
  }

  lemma {:induction false} PutInDirectories(children: seq<Child>, path: seq<string>, file: ResourceFile,
          prefix: seq<string>, d: seq<string>)
    requires |path| > 1
    ensures d in DirectoriesOf(PutIn(children, path, file), prefix)
            <==> d in DirectoriesOf(children, prefix) || Ancestor(d, prefix, path)
    decreases |path| - 1, 1, |children|
  {
    var inner := prefix + [path[0]];
    var after := PutIn(children, path, file);
    AncestorStep(d, prefix, path);
    if children == [] || NameLess(path[0], children[0].name) {
      PutDirectories(EMPTY, path[1..], file, inner, d);
      assert after[1..] == children;
    } else if children[0].name == path[0] {
      PutDirectories(children[0].tree, path[1..], file, inner, d);
      assert after[1..] == children[1..];
    } else {
      PutInDirectories(children[1..], path, file, prefix, d);
      assert after[1..] == PutIn(children[1..], path, file);
    }
  }

  /** The proper directory prefixes of the destinations. */
  ghost predicate IsDirectory(d: seq<string>, resources: seq<ResourceFile>) {
    exists i :: 0 <= i < |resources| && Ancestor(d, [], Split(resources[i].destination))
  }

  lemma {:induction false} BuildDirectories(resources: seq<ResourceFile>, d: seq<string>)
    ensures d in Directories(Build(resources), []) <==> IsDirectory(d, resources)
  {
    if resources != [] {
      var n := |resources| - 1;
      BuildDirectories(resources[..n], d);
      PutDirectories(Build(resources[..n]), Split(resources[n].destination), resources[n], [], d);
      if IsDirectory(d, resources[..n]) {
        var i :| 0 <= i < n && Ancestor(d, [], Split(resources[..n][i].destination));
        assert resources[i] == resources[..n][i];
      }
      if IsDirectory(d, resources) && !Ancestor(d, [], Split(resources[n].destination)) {
        var i :| 0 <= i < |resources| && Ancestor(d, [], Split(resources[i].destination));
        assert resources[i] == resources[..n][i];
      }
    }
  }

  ghost predicate NoRepeats<T>(m: multiset<T>) { forall x :: x in m ==> m[x] == 1 }

  /** Every directory below `prefix + [name]` has a path that starts with it. */
  lemma {:induction false} DirectoriesBelow(tree: Tree, prefix: seq<string>, d: seq<string>)
    requires d in Directories(tree, prefix)
    ensures |d| > |prefix| && d[..|prefix|] == prefix
    ensures exists c :: c in tree.children && c.name == d[|prefix|]
    decreases tree, 1
  {
    DirectoriesOfBelow(tree.children, prefix, d);
  }

  lemma {:induction false} DirectoriesOfBelow(children: seq<Child>, prefix: seq<string>, d: seq<string>)
    requires d in DirectoriesOf(children, prefix)
    ensures |d| > |prefix| && d[..|prefix|] == prefix
    ensures exists c :: c in children && c.name == d[|prefix|]
    decreases children, 0
  {
    var inner := prefix + [children[0].name];
    assert children[0] in children;
    if d in Directories(children[0].tree, inner) {
      DirectoriesBelow(children[0].tree, inner, d);
      assert d[..|prefix|] == d[..|inner|][..|prefix|] == prefix;
      assert d[|prefix|] == d[..|inner|][|prefix|];
    } else if d != inner {
      DirectoriesOfBelow(children[1..], prefix, d);
    }
  }

  lemma {:induction false} DirectoriesOnce(tree: Tree, prefix: seq<string>)
    requires Ordered(tree)
    ensures NoRepeats(Directories(tree, prefix))
    decreases tree, 1
  {
    DirectoriesOfOnce(tree.children, prefix);
  }

  lemma {:induction false} DirectoriesOfOnce(children: seq<Child>, prefix: seq<string>)
    requires Sorted(children) && forall child <- children :: Ordered(child.tree)
    ensures NoRepeats(DirectoriesOf(children, prefix))
    decreases children, 0
  {
    if children != [] {
      var first := children[0];
      var inner := prefix + [first.name];
      assert first in children;
      DirectoriesOnce(first.tree, inner);
      DirectoriesOfOnce(children[1..], prefix);
      var below, others := Directories(first.tree, inner), DirectoriesOf(children[1..], prefix);
      forall d | d in below ensures d != inner && d !in others {
        DirectoriesBelow(first.tree, inner, d);
        assert d[|prefix|] == d[..|inner|][|prefix|] == first.name;
        NotAmongOthers(children, prefix, d);
      }
      NotAmongOthers(children, prefix, inner);
    }
  }

  lemma NotAmongOthers(children: seq<Child>, prefix: seq<string>, d: seq<string>)
    requires children != [] && Sorted(children) && |d| > |prefix| && d[|prefix|] == children[0].name
    ensures d !in DirectoriesOf(children[1..], prefix)
  {
    if d in DirectoriesOf(children[1..], prefix) {
      LaterName(children, prefix, d);
    }
  }

  lemma LaterName(children: seq<Child>, prefix: seq<string>, d: seq<string>)
    requires children != [] && Sorted(children) && d in DirectoriesOf(children[1..], prefix)
    ensures |d| > |prefix| && d[|prefix|] != children[0].name
  {
    DirectoriesOfBelow(children[1..], prefix, d);
    var c :| c in children[1..] && c.name == d[|prefix|];
    var j :| 0 <= j < |children[1..]| && children[1..][j] == c;
    assert NameLess(children[0].name, children[j + 1].name);
  }

  /** The tree holds each proper directory prefix of a destination, once, and no other directory. */
  lemma DirectoriesAreThePrefixes(resources: seq<ResourceFile>)
    ensures NoRepeats(Directories(Build(resources), []))
    ensures forall d :: d in Directories(Build(resources), []) <==> IsDirectory(d, resources)
  {
    BuildOrdered(resources);
    DirectoriesOnce(Build(resources), []);
    forall d ensures d in Directories(Build(resources), []) <==> IsDirectory(d, resources) {
      BuildDirectories(resources, d);
    }
  }
}
