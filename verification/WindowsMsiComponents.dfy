// How many components a fragment has, and that each is referred to once.
module WindowsMsiComponents {
  import opened SlashPaths
  import opened WindowsMsiWalk
  import opened WindowsMsiTree
  import opened WindowsMsiRender
  import opened XmlMarkup

  /** What a component stands for: a file, or a directory to be removed. */
  datatype Ref = FileRef(file: Located) | DirectoryRef(path: seq<string>)

  /** A path of usable names. */
  ghost predicate Named(path: seq<string>) { path != [] && forall s <- path :: s != "" && '/' !in s }

  ghost function IdOf(hashing: Hashing, r: Ref): string {
    match r
    case FileRef(file) => FileComponentId(file.digest)
    case DirectoryRef(path) => DirectoryComponentId(hashing.sha256(if path == [] then "" else Join(path)))
  }

  /** The components below a directory, in the order in which they are rendered. */
  ghost function Refs(tree: Tree, prefix: seq<string>): seq<Ref>
    decreases tree, 1
  {
    FileRefs(tree.files, prefix) + ChildRefs(tree.children, prefix)
  }

  ghost function FileRefs(files: seq<ResourceFile>, prefix: seq<string>): seq<Ref> {
    seq(|files|, i requires 0 <= i < |files| =>
        FileRef(Located(prefix + [files[i].destination], files[i].source, files[i].digest)))
  }

  ghost function ChildRefs(children: seq<Child>, prefix: seq<string>): seq<Ref>
    decreases children, 0
  {
    if children == [] then []
    else
      var inner := prefix + [children[0].name];
      [DirectoryRef(inner)] + Refs(children[0].tree, inner) + ChildRefs(children[1..], prefix)
  }

  // ----- each component stands for one file or directory of the tree

  ghost function Times(r: Ref, files: multiset<Located>, directories: multiset<seq<string>>): nat {
    match r
    case FileRef(l) => files[l]
    case DirectoryRef(d) => directories[d]
  }

  lemma {:induction false} FileRefCounts(files: seq<ResourceFile>, prefix: seq<string>, r: Ref)
    ensures multiset(FileRefs(files, prefix))[r] == Times(r, FlattenFiles(files, prefix), multiset{})
  {
    if files != [] {
      var n := |files| - 1;
      FileRefCounts(files[..n], prefix, r);
      var last := FileRef(Located(prefix + [files[n].destination], files[n].source, files[n].digest));
      assert FileRefs(files, prefix) == FileRefs(files[..n], prefix) + [last];
    }
  }

  lemma {:induction false} RefCounts(tree: Tree, prefix: seq<string>, r: Ref)
    ensures multiset(Refs(tree, prefix))[r] == Times(r, Flatten(tree, prefix), Directories(tree, prefix))
    decreases tree, 1
  {
    FileRefCounts(tree.files, prefix, r);
    ChildRefCounts(tree.children, prefix, r);
  }

  lemma {:induction false} ChildRefCounts(children: seq<Child>, prefix: seq<string>, r: Ref)
    ensures multiset(ChildRefs(children, prefix))[r]
            == Times(r, FlattenAll(children, prefix), DirectoriesOf(children, prefix))
    decreases children, 0
  {
    if children != [] {
      var inner := prefix + [children[0].name];
      RefCounts(children[0].tree, inner, r);
      ChildRefCounts(children[1..], prefix, r);
      JoinedCounts(inner, Refs(children[0].tree, inner), ChildRefs(children[1..], prefix), r);
      JoinedTimes(r, inner, Flatten(children[0].tree, inner), FlattenAll(children[1..], prefix),
                  Directories(children[0].tree, inner), DirectoriesOf(children[1..], prefix));
    }
  }

  lemma JoinedCounts(d: seq<string>, a: seq<Ref>, b: seq<Ref>, r: Ref)
    ensures multiset([DirectoryRef(d)] + a + b)[r]
            == (if r == DirectoryRef(d) then 1 else 0) + multiset(a)[r] + multiset(b)[r]
  {
  }

  lemma JoinedTimes(r: Ref, d: seq<string>, files: multiset<Located>, moreFiles: multiset<Located>,
          directories: multiset<seq<string>>, moreDirectories: multiset<seq<string>>)
    ensures Times(r, files + moreFiles, multiset{d} + directories + moreDirectories)
            == (if r == DirectoryRef(d) then 1 else 0) + Times(r, files, directories)
               + Times(r, moreFiles, moreDirectories)
  {
  }

  lemma {:induction false} RefLength(tree: Tree, prefix: seq<string>)
    ensures |Refs(tree, prefix)| == |Flatten(tree, prefix)| + |Directories(tree, prefix)|
    decreases tree, 1
  {
    FlattenFilesLength(tree.files, prefix);
    ChildRefLength(tree.children, prefix);
  }

  lemma {:induction false} FlattenFilesLength(files: seq<ResourceFile>, prefix: seq<string>)
    ensures |FlattenFiles(files, prefix)| == |files|
  {
    if files != [] {
      FlattenFilesLength(files[..|files| - 1], prefix);
    }
  }

  lemma {:induction false} ChildRefLength(children: seq<Child>, prefix: seq<string>)
    ensures |ChildRefs(children, prefix)| == |FlattenAll(children, prefix)| + |DirectoriesOf(children, prefix)|
    decreases children, 0
  {
    if children != [] {
      RefLength(children[0].tree, prefix + [children[0].name]);
      ChildRefLength(children[1..], prefix);
    }
  }

  // ----- the rendered ids are the ids of these references

  /** `destination` is how the path of a directory is written; the root's is empty. */
  ghost predicate Writes(destination: string, path: seq<string>) {
    if path == [] then destination == "" else Named(path) && destination == Join(path)
  }

  lemma {:induction false} JoinMore(path: seq<string>, name: string)
    requires path != []
    ensures Join(path + [name]) == Join(path) + "/" + name
  {
    var more := path + [name];
    if |path| == 1 {
      assert more[1..] == [name];
    } else {
      JoinMore(path[1..], name);
      assert more[1..] == path[1..] + [name];
    }
  }

  lemma NestedWrites(destination: string, path: seq<string>, name: string)
    requires Writes(destination, path) && Named(path + [name])
    ensures Writes(Nested(destination, name), path + [name])
  {
    if path == [] {
      assert path + [name] == [name];
    } else {
      JoinMore(path, name);
      assert path[0] in path;
      assert Join(path) != "";
    }
  }

  /** Position by position, `ids` are the ids of `refs`. */
  ghost predicate Identify(hashing: Hashing, ids: seq<string>, refs: seq<Ref>) {
    |ids| == |refs| && forall i :: 0 <= i < |ids| ==> ids[i] == IdOf(hashing, refs[i])
  }

  lemma IdentifyConcat(hashing: Hashing, a: seq<string>, x: seq<Ref>, b: seq<string>, y: seq<Ref>)
    requires Identify(hashing, a, x) && Identify(hashing, b, y)
    ensures Identify(hashing, a + b, x + y)
  {
    forall i | 0 <= i < |a + b| ensures (a + b)[i] == IdOf(hashing, (x + y)[i]) {
      if i < |a| {
        assert (a + b)[i] == a[i] && (x + y)[i] == x[i];
      } else {
        assert (a + b)[i] == b[i - |a|] && (x + y)[i] == y[i - |a|];
      }
    }
  }

  lemma {:induction false} FilesIdentified(hashing: Hashing, files: seq<ResourceFile>, prefix: seq<string>)
    ensures Identify(hashing, FileComponents(files), FileRefs(files, prefix))
  {
    if files != [] {
      FilesIdentified(hashing, files[1..], prefix);
      var first := FileRef(Located(prefix + [files[0].destination], files[0].source, files[0].digest));
      assert FileRefs(files, prefix) == [first] + FileRefs(files[1..], prefix);
    }
  }

  lemma {:induction false} ComponentsIdentified(hashing: Hashing, tree: Tree, destination: string, prefix: seq<string>)
    requires Writes(destination, prefix) && forall d :: d in Directories(tree, prefix) ==> Named(d)
    ensures Identify(hashing, Components(hashing, tree, destination), Refs(tree, prefix))
    decreases tree, 1
  {
    FilesIdentified(hashing, tree.files, prefix);
    ChildrenIdentified(hashing, tree.children, destination, prefix);
    IdentifyConcat(hashing, FileComponents(tree.files), FileRefs(tree.files, prefix),
                   ChildComponents(hashing, tree.children, destination), ChildRefs(tree.children, prefix));
  }

  lemma {:induction false} ChildrenIdentified(hashing: Hashing, children: seq<Child>, destination: string,
          prefix: seq<string>)
    requires Writes(destination, prefix) && forall d :: d in DirectoriesOf(children, prefix) ==> Named(d)
    ensures Identify(hashing, ChildComponents(hashing, children, destination), ChildRefs(children, prefix))
    decreases children, 0
  {
    if children != [] {
      var child := children[0];
      var inner, path := Nested(destination, child.name), prefix + [child.name];
      assert path in DirectoriesOf(children, prefix);
      NestedWrites(destination, prefix, child.name);
      ComponentsIdentified(hashing, child.tree, inner, path);
      ChildrenIdentified(hashing, children[1..], destination, prefix);
      var own := [DirectoryComponentId(hashing.sha256(inner))];
      IdentifyConcat(hashing, own, [DirectoryRef(path)], Components(hashing, child.tree, inner),
          Refs(child.tree, path));
      IdentifyConcat(hashing, OneChildComponents(hashing, child, destination),
                     [DirectoryRef(path)] + Refs(child.tree, path),
                     ChildComponents(hashing, children[1..], destination), ChildRefs(children[1..], prefix));
    }
  }

  // ----- different references have different ids

  /**
   * The texts that are hashed for one fragment have no two digests with the same
   * first half: no two destinations, and no two directories.
   */
  ghost predicate CollisionFree(hashing: Hashing, resources: seq<ResourceFile>) {
    && (forall i, j :: 0 <= i < j < |resources| ==>
         Short(hashing.sha256(resources[i].destination)) != Short(hashing.sha256(resources[j].destination)))
    && (forall d, e :: IsDirectory(d, resources) && IsDirectory(e, resources) && d != e ==>
         IdOf(hashing, DirectoryRef(d)) != IdOf(hashing, DirectoryRef(e)))
  }

  /** A resource set as `add_file` builds it: valid destinations, each once, with their own digests. */
  ghost predicate ResourcesOf(hashing: Hashing, resources: seq<ResourceFile>) {
    && (forall r <- resources :: ValidDestination(r.destination) && r.digest == hashing.sha256(r.destination))
    && (forall i, j :: 0 <= i < j < |resources| ==> resources[i].destination != resources[j].destination)
  }

  lemma {:induction false} InputOf(resources: seq<ResourceFile>, l: Located)
    requires l in Inputs(resources)
    ensures exists i :: 0 <= i < |resources| && l == Place(Split(resources[i].destination), resources[i])
  {
    var n := |resources| - 1;
    if l != Place(Split(resources[n].destination), resources[n]) {
      InputOf(resources[..n], l);
      var i :| 0 <= i < n && l == Place(Split(resources[..n][i].destination), resources[..n][i]);
      assert resources[..n][i] == resources[i];
    }
  }

  lemma {:induction false} InputsOnce(hashing: Hashing, resources: seq<ResourceFile>)
    requires ResourcesOf(hashing, resources)
    ensures NoRepeats(Inputs(resources)) && |Inputs(resources)| == |resources|
  {
    if resources != [] {
      var n := |resources| - 1;
      var path := Split(resources[n].destination);
      assert forall r <- resources[..n] :: r in resources;
      InputsOnce(hashing, resources[..n]);
      if Place(path, resources[n]) in Inputs(resources[..n]) {
        InputOf(resources[..n], Place(path, resources[n]));
        var i :| 0 <= i < n
            && Place(path, resources[n]) == Place(Split(resources[..n][i].destination), resources[..n][i]);
        JoinSplit(resources[n].destination);
        JoinSplit(resources[i].destination);
        assert false;
      }
    }
  }

  lemma DirectoryIsNamed(hashing: Hashing, resources: seq<ResourceFile>, d: seq<string>)
    requires ResourcesOf(hashing, resources) && IsDirectory(d, resources)
    ensures Named(d)
  {
    var i :| 0 <= i < |resources| && Ancestor(d, [], Split(resources[i].destination));
    var path := Split(resources[i].destination);
    var k :| 0 < k < |path| && d == [] + path[..k];
    assert resources[i] in resources;
    assert d == path[..k] && forall s <- d :: s in path;
  }

  ghost predicate Known(resources: seq<ResourceFile>, r: Ref) {
    match r
    case FileRef(l) => l in Inputs(resources)
    case DirectoryRef(d) => IsDirectory(d, resources)
  }

  lemma IdsDiffer(hashing: Hashing, resources: seq<ResourceFile>, a: Ref, b: Ref)
    requires ResourcesOf(hashing, resources) && CollisionFree(hashing, resources)
    requires Known(resources, a) && Known(resources, b) && IdOf(hashing, a) == IdOf(hashing, b)
    ensures a == b
  {
    if a.FileRef? && b.FileRef? {
      FileIdsDiffer(hashing, resources, a.file, b.file);
    } else if a.FileRef? {
      KindsDiffer(hashing, a, b);
    } else if b.FileRef? {
      KindsDiffer(hashing, b, a);
    }
  }

  lemma FileIdsDiffer(hashing: Hashing, resources: seq<ResourceFile>, a: Located, b: Located)
    requires ResourcesOf(hashing, resources) && CollisionFree(hashing, resources)
    requires Known(resources, FileRef(a)) && Known(resources, FileRef(b))
    requires IdOf(hashing, FileRef(a)) == IdOf(hashing, FileRef(b))
    ensures a == b
  {
    SameTail("AirWikiFileComponent_", Short(a.digest), Short(b.digest));
    InputOf(resources, a);
    InputOf(resources, b);
    var i :| 0 <= i < |resources| && a == Place(Split(resources[i].destination), resources[i]);
    var j :| 0 <= j < |resources| && b == Place(Split(resources[j].destination), resources[j]);
    assert resources[i] in resources && resources[j] in resources;
    assert i == j;
  }

  /** Where two texts collide, two different references have one id. */
  lemma CollisionGivesOneId(hashing: Hashing, resources: seq<ResourceFile>) returns (a: Ref, b: Ref)
    requires ResourcesOf(hashing, resources) && !CollisionFree(hashing, resources)
    ensures Known(resources, a) && Known(resources, b) && a != b && IdOf(hashing, a) == IdOf(hashing, b)
  {
    if i, j :| 0 <= i < j < |resources|
               && Short(hashing.sha256(resources[i].destination)) == Short(hashing.sha256(resources[j].destination)) {
      a := InputRef(hashing, resources, i);
      b := InputRef(hashing, resources, j);
      JoinSplit(resources[i].destination);
      JoinSplit(resources[j].destination);
    } else {
      var d, e :| IsDirectory(d, resources) && IsDirectory(e, resources) && d != e
                  && IdOf(hashing, DirectoryRef(d)) == IdOf(hashing, DirectoryRef(e));
      a, b := DirectoryRef(d), DirectoryRef(e);
    }
  }

  /** The reference of the resource at `i`. */
  lemma InputRef(hashing: Hashing, resources: seq<ResourceFile>, i: nat) returns (r: Ref)
    requires ResourcesOf(hashing, resources) && i < |resources|
    ensures r == FileRef(Place(Split(resources[i].destination), resources[i])) && Known(resources, r)
    ensures r.file.path == Split(resources[i].destination)
    ensures IdOf(hashing, r) == FileComponentId(hashing.sha256(resources[i].destination))
  {
    r := FileRef(Place(Split(resources[i].destination), resources[i]));
    assert resources[i] in resources;
    InputAt(resources, i);
  }

  lemma {:induction false} InputAt(resources: seq<ResourceFile>, i: nat)
    requires i < |resources|
    ensures Place(Split(resources[i].destination), resources[i]) in Inputs(resources)
  {
    var n := |resources| - 1;
    if i < n {
      InputAt(resources[..n], i);
      assert resources[..n][i] == resources[i];
    }
  }

  lemma KindsDiffer(hashing: Hashing, file: Ref, directory: Ref)
    requires file.FileRef? && directory.DirectoryRef?
    ensures IdOf(hashing, file) != IdOf(hashing, directory)
  {
    assert IdOf(hashing, file)[7] == 'F';
    assert IdOf(hashing, directory)[7] == 'D';
  }

  lemma SameTail(front: string, a: string, b: string)
    requires front + a == front + b
    ensures a == b
  {
    assert (front + a)[|front|..] == a && (front + b)[|front|..] == b;
  }

  ghost predicate Distinct<T>(s: seq<T>) { forall i, j :: 0 <= i < j < |s| ==> s[i] != s[j] }

  lemma {:induction false} CountedOnce<T>(s: seq<T>)
    requires forall x :: x in s ==> multiset(s)[x] <= 1
    ensures Distinct(s)
  {
    forall i, j | 0 <= i < j < |s| ensures s[i] != s[j] {
      assert s[i] in s;
      if s[i] == s[j] {
        CountedTwice(s, i, j);
      }
    }
  }

  lemma CountedTwice<T>(s: seq<T>, i: nat, j: nat)
    requires i < j < |s| && s[i] == s[j]
    ensures multiset(s)[s[i]] >= 2
  {
    var x, front, back := s[i], s[..j], s[j..];
    assert s == front + back;
    assert front[i] == x && back[0] == x;
    assert x in multiset(front);
    assert x in multiset(back);
    assert multiset(s) == multiset(front) + multiset(back);
  }

  lemma {:induction false} DistinctSize(s: seq<string>)
    requires Distinct(s)
    ensures |Set(s)| == |s|
  {
    if s != [] {
      var n := |s| - 1;
      DistinctSize(s[..n]);
      assert s[n] !in Set(s[..n]);
      assert Set(s) == Set(s[..n]) + {s[n]};
    }
  }

  lemma RefsKnown(hashing: Hashing, resources: seq<ResourceFile>)
    requires ResourcesOf(hashing, resources)
    ensures forall r <- Refs(Build(resources), []) :: Known(resources, r)
    ensures Distinct(Refs(Build(resources), []))
  {
    var refs := Refs(Build(resources), []);
    BuildFlatten(resources);
    InputsOnce(hashing, resources);
    DirectoriesAreThePrefixes(resources);
    forall r | r in refs
      ensures Known(resources, r) && multiset(refs)[r] <= 1
    {
      assert multiset(refs)[r] > 0;
      RefCounts(Build(resources), [], r);
    }
    CountedOnce(refs);
  }

  lemma DirectoriesAreNamed(hashing: Hashing, resources: seq<ResourceFile>)
    requires ResourcesOf(hashing, resources)
    ensures forall d :: d in Directories(Build(resources), []) ==> Named(d)
  {
    DirectoriesAreThePrefixes(resources);
    forall d | d in Directories(Build(resources), []) ensures Named(d) {
      DirectoryIsNamed(hashing, resources, d);
    }
  }

  /** The rendered ids are the ids of the references, each known one once. */
  lemma RenderedRefs(hashing: Hashing, resources: seq<ResourceFile>)
    requires ResourcesOf(hashing, resources)
    ensures var refs := Refs(Build(resources), []);
            && Identify(hashing, Components(hashing, Build(resources), ""), refs) && Distinct(refs)
            && forall r :: r in refs <==> Known(resources, r)
  {
    RefsKnown(hashing, resources);
    DirectoriesAreNamed(hashing, resources);
    ComponentsIdentified(hashing, Build(resources), "", []);
    forall r | Known(resources, r) ensures r in Refs(Build(resources), []) {
      KnownIsRef(resources, r);
    }
  }

  lemma KnownIsRef(resources: seq<ResourceFile>, r: Ref)
    requires Known(resources, r)
    ensures r in Refs(Build(resources), [])
  {
    DirectoriesAreThePrefixes(resources);
    BuildFlatten(resources);
    RefCounts(Build(resources), [], r);
    assert multiset(Refs(Build(resources), []))[r] > 0;
  }

  /** One component for each resource and for each proper directory prefix of a destination. */
  lemma ComponentCount(hashing: Hashing, resources: seq<ResourceFile>)
    requires ResourcesOf(hashing, resources)
    ensures |Components(hashing, Build(resources), "")| == |resources| + |Directories(Build(resources), [])|
  {
    RenderedRefs(hashing, resources);
    RefLength(Build(resources), []);
    BuildFlatten(resources);
    InputsOnce(hashing, resources);
  }

  /**
   * The component group refers to each rendered component exactly once, exactly when
   * the hashed texts are free of collisions.
   */
  lemma EachComponentOnce(hashing: Hashing, resources: seq<ResourceFile>)
    requires ResourcesOf(hashing, resources)
    ensures var ids := Components(hashing, Build(resources), "");
            && (Distinct(ids) <==> CollisionFree(hashing, resources))
            && (Distinct(ids) ==> |Set(ids)| == |ids|)
  {
    var ids, refs := Components(hashing, Build(resources), ""), Refs(Build(resources), []);
    RenderedRefs(hashing, resources);
    if CollisionFree(hashing, resources) {
      forall i, j | 0 <= i < j < |ids| ensures ids[i] != ids[j] {
        if ids[i] == ids[j] {
          IdsDiffer(hashing, resources, refs[i], refs[j]);
        }
      }
    } else {
      var a, b := CollisionGivesOneId(hashing, resources);
      var i :| 0 <= i < |refs| && refs[i] == a;
      var j :| 0 <= j < |refs| && refs[j] == b;
      assert ids[i] == ids[j] && i != j;
    }
    if Distinct(ids) {
      DistinctSize(ids);
    }
  }

  // ----- one RemoveFolder per directory

  function Count(xml: seq<Markup>, tag: string): nat {
    if xml == [] then 0 else (if xml[0].Empty? && xml[0].tag == tag then 1 else 0) + Count(xml[1..], tag)
  }

  lemma {:induction false} CountConcat(a: seq<Markup>, b: seq<Markup>, tag: string)
    ensures Count(a + b, tag) == Count(a, tag) + Count(b, tag)
  {
    if a == [] {
      assert a + b == b;
    } else {
      CountConcat(a[1..], b, tag);
      assert (a + b)[1..] == a[1..] + b;
    }
  }

  lemma CountSmall(a: seq<Markup>, m: Markup, tag: string)
    ensures Count([m], tag) == if m.Empty? && m.tag == tag then 1 else 0
    ensures Count(a + [m], tag) == Count(a, tag) + Count([m], tag)
  {
    CountConcat(a, [m], tag);
    assert [m][1..] == [];
  }

  lemma CountFile(hashing: Hashing, file: ResourceFile)
    ensures Count(FileMarkup(hashing, file), "RemoveFolder") == 0
  {
    var m := FileMarkup(hashing, file);
    CountSmall([], m[0], "RemoveFolder");
    CountSmall([m[0]], m[1], "RemoveFolder");
    CountSmall([m[0], m[1]], m[2], "RemoveFolder");
    CountSmall([m[0], m[1], m[2]], m[3], "RemoveFolder");
    assert m == [m[0], m[1], m[2]] + [m[3]] && [m[0], m[1], m[2]] == [m[0], m[1]] + [m[2]]
           && [m[0], m[1]] == [m[0]] + [m[1]] && [m[0]] == [] + [m[0]];
  }

  lemma CountHeader(hashing: Hashing, name: string, destination: string)
    ensures Count(DirectoryHeader(hashing, name, destination), "RemoveFolder") == 1
  {
    var m := DirectoryHeader(hashing, name, destination);
    CountSmall([], m[0], "RemoveFolder");
    CountSmall([m[0]], m[1], "RemoveFolder");
    CountSmall([m[0], m[1]], m[2], "RemoveFolder");
    CountSmall([m[0], m[1], m[2]], m[3], "RemoveFolder");
    CountSmall([m[0], m[1], m[2], m[3]], m[4], "RemoveFolder");
    assert m == [m[0], m[1], m[2], m[3]] + [m[4]] && [m[0], m[1], m[2], m[3]] == [m[0], m[1], m[2]] + [m[3]];
    assert [m[0], m[1], m[2]] == [m[0], m[1]] + [m[2]] && [m[0], m[1]] == [m[0]] + [m[1]] && [m[0]] == [] + [m[0]];
  }

  lemma {:induction false} CountFiles(hashing: Hashing, files: seq<ResourceFile>)
    ensures Count(FilesMarkup(hashing, files), "RemoveFolder") == 0
  {
    if files != [] {
      CountFile(hashing, files[0]);
      CountFiles(hashing, files[1..]);
      CountConcat(FileMarkup(hashing, files[0]), FilesMarkup(hashing, files[1..]), "RemoveFolder");
    }
  }

  /** Uninstalling removes each directory of the tree: one `RemoveFolder` for each. */
  lemma {:induction false} OneRemovalPerDirectory(hashing: Hashing, tree: Tree, destination: string,
          prefix: seq<string>)
    ensures Count(Contents(hashing, tree, destination), "RemoveFolder") == |Directories(tree, prefix)|
    decreases tree, 1
  {
    CountFiles(hashing, tree.files);
    OneRemovalPerChild(hashing, tree.children, destination, prefix);
    CountConcat(FilesMarkup(hashing, tree.files), ChildrenMarkup(hashing, tree.children, destination), "RemoveFolder");
  }

  lemma {:induction false} OneRemovalPerChild(hashing: Hashing, children: seq<Child>, destination: string,
          prefix: seq<string>)
    ensures Count(ChildrenMarkup(hashing, children, destination), "RemoveFolder") == |DirectoriesOf(children, prefix)|
    decreases children, 0
  {
    if children != [] {
      var child, inner := children[0], Nested(destination, children[0].name);
      var header, contents := DirectoryHeader(hashing, child.name, inner), Contents(hashing, child.tree, inner);
      CountHeader(hashing, child.name, inner);
      OneRemovalPerDirectory(hashing, child.tree, inner, prefix + [child.name]);
      CountConcat(header, contents, "RemoveFolder");
      CountSmall(header + contents, End("Directory"), "RemoveFolder");
      OneRemovalPerChild(hashing, children[1..], destination, prefix);
      CountConcat(ChildMarkup(hashing, child, destination), ChildrenMarkup(hashing, children[1..], destination),
          "RemoveFolder");
    }
  }
}
