// The resource tree as an XML processor reads it: what survives, and when.
module WindowsMsiRoundTrip {
  import opened SlashPaths
  import opened WindowsMsiWalk
  import opened WindowsMsiTree
  import opened WindowsMsiRender
  import opened WindowsMsiReading
  import opened XmlMarkup

  // ----- what holds of all names and files of a tree

  /** A property of names and one of sources and digests. */
  datatype Property = Property(name: string -> bool, file: (string, string) -> bool)

  predicate FileHas(p: Property, file: ResourceFile) { p.name(file.destination) && p.file(file.source, file.digest) }

  predicate TreeHas(p: Property, tree: Tree)
    decreases tree, 1
  {
    ChildrenHave(p, tree.children) && forall file <- tree.files :: FileHas(p, file)
  }

  predicate ChildrenHave(p: Property, children: seq<Child>)
    decreases children, 0
  {
    children == []
    || (p.name(children[0].name) && TreeHas(p, children[0].tree) && ChildrenHave(p, children[1..]))
  }

  predicate PlaceHas(p: Property, path: seq<string>, file: ResourceFile) {
    (forall segment <- path :: p.name(segment)) && p.file(file.source, file.digest)
  }

  lemma {:induction false} PutHas(p: Property, tree: Tree, path: seq<string>, file: ResourceFile)
    requires path != []
    ensures TreeHas(p, Put(tree, path, file)) <==> TreeHas(p, tree) && PlaceHas(p, path, file)
    decreases |path|, 0
  {
    if |path| == 1 {
      var named := file.(destination := path[0]);
      PathHas(p, path, file);
      FilesMore(p, tree.files, named);
    } else {
      PutInHas(p, tree.children, path, file);
    }
  }

  lemma FilesMore(p: Property, files: seq<ResourceFile>, last: ResourceFile)
    ensures (forall file <- files + [last] :: FileHas(p, file))
            <==> (forall file <- files :: FileHas(p, file)) && FileHas(p, last)
  {
    assert forall file :: file in files + [last] <==> file in files || file == last;
  }

  lemma PathHas(p: Property, path: seq<string>, file: ResourceFile)
    requires path != []
    ensures PlaceHas(p, path, file) <==> p.name(path[0]) && PlaceHas(p, path[1..], file)
  {
    assert path == [path[0]] + path[1..];
  }

  lemma {:induction false} PutInHas(p: Property, children: seq<Child>, path: seq<string>, file: ResourceFile)
    requires |path| > 1
    ensures ChildrenHave(p, PutIn(children, path, file)) <==> ChildrenHave(p, children) && PlaceHas(p, path, file)
    decreases |path| - 1, 1, |children|
  {
    var after := PutIn(children, path, file);
    PathHas(p, path, file);
    if children == [] || NameLess(path[0], children[0].name) {
      PutHas(p, EMPTY, path[1..], file);
      assert after[1..] == children;
    } else if children[0].name == path[0] {
      PutHas(p, children[0].tree, path[1..], file);
      assert after[1..] == children[1..];
    } else {
      PutInHas(p, children[1..], path, file);
      assert after[1..] == PutIn(children[1..], path, file);
    }
  }

  predicate ResourcesHave(p: Property, resources: seq<ResourceFile>) {
    forall r <- resources :: PlaceHas(p, Split(r.destination), r)
  }

  lemma {:induction false} BuildHas(p: Property, resources: seq<ResourceFile>)
    ensures TreeHas(p, Build(resources)) <==> ResourcesHave(p, resources)
  {
    if resources != [] {
      var n := |resources| - 1;
      BuildHas(p, resources[..n]);
      PutHas(p, Build(resources[..n]), Split(resources[n].destination), resources[n]);
      assert resources == resources[..n] + [resources[n]];
      assert forall r :: r in resources <==> r in resources[..n] || r == resources[n];
    }
  }

  lemma {:induction false} SplitAll(p: char -> bool, s: string)
    requires p('/')
    ensures (forall segment <- Split(s) :: All(p, segment)) <==> All(p, s)
  {
    if s != "" {
      var rest := Split(s[1..]);
      SplitAll(p, s[1..]);
      assert s == [s[0]] + s[1..];
      AllOf(p, [s[0]], s[1..]);
      AllOne(p, s[0]);
      if s[0] == '/' {
        OneMoreSegment(p, "", rest);
      } else {
        assert rest == [rest[0]] + rest[1..];
        OneMoreSegment(p, rest[0], rest[1..]);
        OneMoreSegment(p, [s[0]] + rest[0], rest[1..]);
        AllOf(p, [s[0]], rest[0]);
      }
    }
  }

  lemma OneMoreSegment(p: char -> bool, first: string, rest: seq<string>)
    ensures (forall segment <- [first] + rest :: All(p, segment))
            <==> All(p, first) && forall segment <- rest :: All(p, segment)
  {
    assert forall segment :: segment in [first] + rest <==> segment == first || segment in rest;
  }

  // ----- the three properties

  const ALLOWED := Property(s => All(XML_CHAR, s), (source, digest) => All(XML_CHAR, source))

  const WHOLE := Property(s => All(UNBROKEN, s), (source, digest) => All(UNBROKEN, source))

  const DIGESTED := Property(s => true, (source, digest) => All(NameChar, digest))

  /** Digests and name-based UUIDs are printed with digits, letters and hyphens. */
  ghost predicate IsHashing(h: Hashing) {
    (forall s :: All(NameChar, h.sha256(s))) && forall kind, digest :: All(NameChar, h.guid(kind, digest))
  }

  predicate Printable(s: string) { All(XML_CHAR, s) && All(UNBROKEN, s) }

  lemma ResourcesPrintable(resources: seq<ResourceFile>)
    ensures (forall r <- resources :: Printable(r.destination) && Printable(r.source))
            <==> ResourcesHave(ALLOWED, resources) && ResourcesHave(WHOLE, resources)
  {
    forall r | r in resources
      ensures Printable(r.destination) && Printable(r.source)
              <==> PlaceHas(ALLOWED, Split(r.destination), r) && PlaceHas(WHOLE, Split(r.destination), r)
    {
      SplitAll(XML_CHAR, r.destination);
      SplitAll(UNBROKEN, r.destination);
    }
  }

  // ----- what reading makes of the tree

  function BlankedFile(file: ResourceFile): ResourceFile {
    ResourceFile(AsRead(file.source), AsRead(file.destination), file.digest)
  }

  function BlankedFiles(files: seq<ResourceFile>): seq<ResourceFile> {
    if files == [] then [] else [BlankedFile(files[0])] + BlankedFiles(files[1..])
  }

  function Blanked(tree: Tree): Tree
    decreases tree, 1
  {
    Tree(BlankedChildren(tree.children), BlankedFiles(tree.files))
  }

  function BlankedChildren(children: seq<Child>): seq<Child>
    decreases children, 0
  {
    if children == [] then []
    else [Child(AsRead(children[0].name), Blanked(children[0].tree))] + BlankedChildren(children[1..])
  }

  lemma {:induction false} DecodedFilesAre(files: seq<ResourceFile>)
    requires forall file <- files :: All(NameChar, file.digest)
    ensures DecodedFiles(EscapedFiles(files)) == BlankedFiles(files)
  {
    if files != [] {
      assert files[0] in files;
      ValueIsRead(files[0].source);
      ValueIsRead(files[0].destination);
      PlainIsRead(files[0].digest);
      DecodedFilesAre(files[1..]);
      assert EscapedFiles(files)[1..] == EscapedFiles(files[1..]);
    }
  }

  /** Decoding the escaped tree blanks the white space of its names and sources. */
  lemma {:induction false} DecodedIs(tree: Tree)
    requires TreeHas(DIGESTED, tree)
    ensures Decoded(Escaped(tree)) == Blanked(tree)
    decreases tree, 1
  {
    forall file | file in tree.files ensures All(NameChar, file.digest) {
      assert FileHas(DIGESTED, file);
    }
    DecodedFilesAre(tree.files);
    DecodedChildrenAre(tree.children);
  }

  lemma {:induction false} DecodedChildrenAre(children: seq<Child>)
    requires ChildrenHave(DIGESTED, children)
    ensures DecodedChildren(EscapedChildren(children)) == BlankedChildren(children)
    decreases children, 0
  {
    if children != [] {
      ValueIsRead(children[0].name);
      DecodedIs(children[0].tree);
      DecodedChildrenAre(children[1..]);
      assert EscapedChildren(children)[1..] == EscapedChildren(children[1..]);
    }
  }

  lemma {:induction false} WholeFiles(files: seq<ResourceFile>)
    requires forall file <- files :: FileHas(WHOLE, file)
    ensures BlankedFiles(files) == files
  {
    if files != [] {
      assert FileHas(WHOLE, files[0]);
      UnbrokenAsRead(files[0].source);
      UnbrokenAsRead(files[0].destination);
      WholeFiles(files[1..]);
      assert files == [files[0]] + files[1..];
    }
  }

  lemma {:induction false} WholeTree(tree: Tree)
    requires TreeHas(WHOLE, tree)
    ensures Blanked(tree) == tree
    decreases tree, 1
  {
    WholeFiles(tree.files);
    WholeChildren(tree.children);
  }

  lemma {:induction false} WholeChildren(children: seq<Child>)
    requires ChildrenHave(WHOLE, children)
    ensures BlankedChildren(children) == children
    decreases children, 0
  {
    if children != [] {
      UnbrokenAsRead(children[0].name);
      WholeTree(children[0].tree);
      WholeChildren(children[1..]);
      assert children == [children[0]] + children[1..];
    }
  }

  // ----- whatever is read has no line breaks or tabs

  predicate Unbroken(l: Located) { (forall segment <- l.path :: All(UNBROKEN, segment)) && All(UNBROKEN, l.source) }

  predicate UnbrokenPath(path: seq<string>) { forall segment <- path :: All(UNBROKEN, segment) }

  lemma LongerPath(path: seq<string>, name: string)
    requires UnbrokenPath(path)
    ensures UnbrokenPath(path + [AsRead(name)])
  {
    AsReadUnbroken(name);
    assert forall segment :: segment in path + [AsRead(name)] <==> segment in path || segment == AsRead(name);
  }

  lemma {:induction false} BlankedFilesUnbroken(files: seq<ResourceFile>, prefix: seq<string>)
    requires UnbrokenPath(prefix) && forall file <- files :: file == BlankedFile(file)
    ensures forall l :: l in FlattenFiles(files, prefix) ==> Unbroken(l)
  {
    if files != [] {
      var n := |files| - 1;
      var last := files[n];
      assert last in files && forall file <- files[..n] :: file in files;
      BlankedFilesUnbroken(files[..n], prefix);
      LongerPath(prefix, last.destination);
      AsReadUnbroken(last.source);
    }
  }

  lemma {:induction false} BlankedTwice(files: seq<ResourceFile>)
    ensures forall file <- BlankedFiles(files) :: file == BlankedFile(file)
  {
    if files != [] {
      BlankedTwice(files[1..]);
      AsReadUnbroken(files[0].source);
      AsReadUnbroken(files[0].destination);
      UnbrokenAsRead(AsRead(files[0].source));
      UnbrokenAsRead(AsRead(files[0].destination));
    }
  }

  lemma {:induction false} ReadIsUnbroken(tree: Tree, prefix: seq<string>)
    requires UnbrokenPath(prefix)
    ensures forall l :: l in Flatten(Blanked(tree), prefix) ==> Unbroken(l)
    decreases tree, 1
  {
    BlankedTwice(tree.files);
    BlankedFilesUnbroken(BlankedFiles(tree.files), prefix);
    ReadChildrenUnbroken(tree.children, prefix);
  }

  lemma {:induction false} ReadChildrenUnbroken(children: seq<Child>, prefix: seq<string>)
    requires UnbrokenPath(prefix)
    ensures forall l :: l in FlattenAll(BlankedChildren(children), prefix) ==> Unbroken(l)
    decreases children, 0
  {
    if children != [] {
      var blanked := BlankedChildren(children);
      LongerPath(prefix, children[0].name);
      ReadIsUnbroken(children[0].tree, prefix + [AsRead(children[0].name)]);
      ReadChildrenUnbroken(children[1..], prefix);
      assert blanked[0] == Child(AsRead(children[0].name), Blanked(children[0].tree));
      assert blanked[1..] == BlankedChildren(children[1..]);
    }
  }

  lemma {:induction false} InputsHold(resources: seq<ResourceFile>, r: ResourceFile)
    requires r in resources
    ensures Place(Split(r.destination), r) in Inputs(resources)
  {
    var n := |resources| - 1;
    if r in resources[..n] {
      InputsHold(resources[..n], r);
    } else {
      assert resources == resources[..n] + [resources[n]];
    }
  }

  /** The resources are read as given exactly when no name and no source has a tab or a line break in it. */
  lemma ReadAsGiven(resources: seq<ResourceFile>)
    ensures Flatten(Blanked(Build(resources)), []) == Inputs(resources) <==> ResourcesHave(WHOLE, resources)
  {
    var tree := Build(resources);
    BuildFlatten(resources);
    BuildHas(WHOLE, resources);
    if ResourcesHave(WHOLE, resources) {
      WholeTree(tree);
    }
    if Flatten(Blanked(tree), []) == Inputs(resources) {
      ReadIsUnbroken(tree, []);
      forall r | r in resources ensures PlaceHas(WHOLE, Split(r.destination), r) {
        InputsHold(resources, r);
        assert Unbroken(Place(Split(r.destination), r));
      }
    }
  }
}
