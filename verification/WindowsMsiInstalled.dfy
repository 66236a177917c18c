// What the printed fragment installs: every attribute of every file, directory and
// component, and the components that its group refers to.
module WindowsMsiInstalled {
  import opened Wrappers
  import opened SlashPaths
  import opened WindowsMsiWalk
  import opened WindowsMsiTree
  import opened WindowsMsiRender
  import opened WindowsMsiComponents
  import opened WindowsMsiFragment
  import opened WindowsMsiRoundTrip
  import opened WindowsMsiDocument
  import opened XmlEscape
  import opened XmlMarkup

  // ----- a reader of components

  /** A file with its component, or a directory with the component that removes it. */
  datatype Part =
    | FilePart(component: Markup, file: Markup, key: Markup)
    | DirectoryPart(directory: Markup, component: Markup, removal: Markup, key: Markup)

  /** The parts of a document in the order of their tags. */
  function Parts(xml: seq<Markup>): seq<Part>
    decreases |xml|
  {
    if xml == [] then []
    else if Opens(xml, "Directory", 5) then [DirectoryPart(xml[0], xml[1], xml[2], xml[3])] + Parts(xml[5..])
    else if Opens(xml, "Component", 4) then [FilePart(xml[0], xml[1], xml[2])] + Parts(xml[4..])
    else Parts(xml[1..])
  }

  /** The ids that the component group refers to, in order. */
  function Referenced(xml: seq<Markup>): seq<string>
    decreases |xml|
  {
    if xml == [] then []
    else (if xml[0].tag == "ComponentRef" then [Attribute(xml[0], "Id")] else []) + Referenced(xml[1..])
  }

  // ----- what a part must say

  /** The registry value of the current user that stands for a component, as its key path. */
  predicate IsKey(m: Markup, name: string) {
    && m.Empty? && m.tag == "RegistryValue" && Attribute(m, "Name") == name && Attribute(m, "KeyPath") == "yes"
    && Attribute(m, "Root") == "HKCU" && Attribute(m, "Key") == REGISTRY_KEY
    && Attribute(m, "Type") == "integer" && Attribute(m, "Value") == "1"
  }

  predicate IsComponent(m: Markup, id: string, guid: string) {
    && m.Start? && m.tag == "Component" && Attribute(m, "Id") == id && Attribute(m, "Guid") == guid
    && Attribute(m, "Win64") == "yes"
  }

  predicate IsFile(m: Markup, id: string, name: string, source: string) {
    && m.Empty? && m.tag == "File" && Attribute(m, "Id") == id && Unescape(Attribute(m, "Name")) == name
    && Unescape(Attribute(m, "Source")) == source
  }

  predicate IsDirectoryTag(m: Markup, id: string, name: string) {
    m.Start? && m.tag == "Directory" && Attribute(m, "Id") == id && Unescape(Attribute(m, "Name")) == name
  }

  predicate IsRemoval(m: Markup, id: string) {
    m.Empty? && m.tag == "RemoveFolder" && Attribute(m, "Id") == id && Attribute(m, "On") == "uninstall"
  }

  predicate HoldsFile(hashing: Hashing, l: Located, p: Part) {
    && p.FilePart? && l.path != []
    && IsComponent(p.component, FileComponentId(l.digest), hashing.guid("file", l.digest))
    && IsFile(p.file, FileId(l.digest), l.path[|l.path| - 1], l.source)
    && IsKey(p.key, "File_" + l.digest)
  }

  predicate HoldsDirectory(hashing: Hashing, path: seq<string>, p: Part) {
    && p.DirectoryPart? && path != []
    && var digest := hashing.sha256(Join(path));
    && IsDirectoryTag(p.directory, DirectoryId(digest), path[|path| - 1])
    && IsComponent(p.component, DirectoryComponentId(digest), hashing.guid("directory", digest))
    && IsRemoval(p.removal, RemoveFolderId(digest))
    && IsKey(p.key, "Directory_" + digest)
  }

  predicate Holds(hashing: Hashing, r: Ref, p: Part) {
    match r
    case FileRef(l) => HoldsFile(hashing, l, p)
    case DirectoryRef(path) => HoldsDirectory(hashing, path, p)
  }

  /** Position by position, the parts hold the files and directories. */
  ghost predicate HoldAll(hashing: Hashing, refs: seq<Ref>, parts: seq<Part>) {
    |refs| == |parts| && forall i :: 0 <= i < |refs| ==> Holds(hashing, refs[i], parts[i])
  }

  // ----- attributes

  /** The first attribute of a name is the one that is found. */
  lemma {:induction false} LookupAt(attributes: seq<(string, string)>, i: nat)
    requires i < |attributes| && forall j :: 0 <= j < i ==> attributes[j].0 != attributes[i].0
    ensures Lookup(attributes, attributes[i].0) == attributes[i].1
  {
    if i > 0 {
      assert attributes[0].0 != attributes[i].0;
      LookupAt(attributes[1..], i - 1);
    }
  }

  lemma ComponentSays(id: string, guid: string)
    ensures IsComponent(ComponentStart(id, guid), id, guid)
  {
    var a := ComponentStart(id, guid).attributes;
    LookupAt(a, 0);
    LookupAt(a, 1);
    LookupAt(a, 2);
  }

  lemma KeySays(name: string)
    ensures IsKey(KeyPath(name), name)
  {
    var a := KeyPath(name).attributes;
    LookupAt(a, 0);
    LookupAt(a, 1);
    LookupAt(a, 2);
    LookupAt(a, 3);
    LookupAt(a, 4);
    LookupAt(a, 5);
  }

  lemma FileSays(file: ResourceFile)
    ensures IsFile(FileElement(file), FileId(file.digest), file.destination, file.source)
  {
    var a := FileElement(file).attributes;
    LookupAt(a, 0);
    LookupAt(a, 1);
    LookupAt(a, 2);
    UnescapeInvertsEscape(file.destination);
    UnescapeInvertsEscape(file.source);
  }

  lemma DirectorySays(name: string, id: string)
    ensures IsDirectoryTag(Start("Directory", [("Id", id), ("Name", EscapeXmlAttribute(name))]), id, name)
  {
    var a := [("Id", id), ("Name", EscapeXmlAttribute(name))];
    LookupAt(a, 0);
    LookupAt(a, 1);
    UnescapeInvertsEscape(name);
  }

  lemma RemovalSays(id: string)
    ensures IsRemoval(Empty("RemoveFolder", [("Id", id), ("On", "uninstall")]), id)
  {
    var a := [("Id", id), ("On", "uninstall")];
    LookupAt(a, 0);
    LookupAt(a, 1);
  }

  // ----- the parts of the printed contents

  /** In front of `rest`, the tags read as parts that hold the files and directories. */
  ghost predicate ReadsAs(hashing: Hashing, xml: seq<Markup>, rest: seq<Markup>, refs: seq<Ref>, parts: seq<Part>) {
    Parts(xml + rest) == parts + Parts(rest) && HoldAll(hashing, refs, parts)
  }

  lemma HoldMore(hashing: Hashing, a: seq<Ref>, p: seq<Part>, b: seq<Ref>, q: seq<Part>)
    requires HoldAll(hashing, a, p) && HoldAll(hashing, b, q)
    ensures HoldAll(hashing, a + b, p + q)
  {
    forall i | 0 <= i < |a + b| ensures Holds(hashing, (a + b)[i], (p + q)[i]) {
      if i < |a| {
        assert (a + b)[i] == a[i] && (p + q)[i] == p[i];
      } else {
        assert (a + b)[i] == b[i - |a|] && (p + q)[i] == q[i - |a|];
      }
    }
  }

  lemma Append(hashing: Hashing, a: seq<Markup>, b: seq<Markup>, rest: seq<Markup>, x: seq<Ref>, p: seq<Part>,
          y: seq<Ref>, q: seq<Part>)
    requires ReadsAs(hashing, a, b + rest, x, p) && ReadsAs(hashing, b, rest, y, q)
    ensures ReadsAs(hashing, a + b, rest, x + y, p + q)
  {
    assert a + b + rest == a + (b + rest);
    assert p + (q + Parts(rest)) == p + q + Parts(rest);
    HoldMore(hashing, x, p, y, q);
  }

  lemma NothingRead(hashing: Hashing, rest: seq<Markup>)
    ensures ReadsAs(hashing, [], rest, [], [])
  {
    assert [] + rest == rest && [] + Parts(rest) == Parts(rest);
  }

  lemma EndReads(hashing: Hashing, tag: string, rest: seq<Markup>)
    ensures ReadsAs(hashing, [End(tag)], rest, [], [])
  {
    assert ([End(tag)] + rest)[1..] == rest;
    assert [] + Parts(rest) == Parts(rest);
  }

  lemma FileReads(hashing: Hashing, file: ResourceFile, prefix: seq<string>, rest: seq<Markup>) returns (p: Part)
    ensures ReadsAs(hashing, FileMarkup(hashing, file), rest,
                    [FileRef(Located(prefix + [file.destination], file.source, file.digest))], [p])
  {
    var m := FileMarkup(hashing, file);
    p := FilePart(m[0], m[1], m[2]);
    assert (m + rest)[4..] == rest;
    ComponentSays(FileComponentId(file.digest), hashing.guid("file", file.digest));
    FileSays(file);
    KeySays("File_" + file.digest);
  }

  lemma HeaderReads(hashing: Hashing, name: string, destination: string, path: seq<string>, rest: seq<Markup>)
    returns (p: Part)
    requires path != [] && destination == Join(path) && name == path[|path| - 1]
    ensures ReadsAs(hashing, DirectoryHeader(hashing, name, destination), rest, [DirectoryRef(path)], [p])
  {
    var m, digest := DirectoryHeader(hashing, name, destination), hashing.sha256(destination);
    p := DirectoryPart(m[0], m[1], m[2], m[3]);
    assert (m + rest)[5..] == rest;
    DirectorySays(name, DirectoryId(digest));
    ComponentSays(DirectoryComponentId(digest), hashing.guid("directory", digest));
    RemovalSays(RemoveFolderId(digest));
    KeySays("Directory_" + digest);
  }

  lemma {:induction false} FilesRead(hashing: Hashing, files: seq<ResourceFile>, prefix: seq<string>, rest: seq<Markup>)
    returns (parts: seq<Part>)
    ensures ReadsAs(hashing, FilesMarkup(hashing, files), rest, FileRefs(files, prefix), parts)
  {
    if files == [] {
      parts := [];
      NothingRead(hashing, rest);
      assert FileRefs(files, prefix) == [];
    } else {
      var first := [FileRef(Located(prefix + [files[0].destination], files[0].source, files[0].digest))];
      var more := FilesRead(hashing, files[1..], prefix, rest);
      var p := FileReads(hashing, files[0], prefix, FilesMarkup(hashing, files[1..]) + rest);
      Append(hashing, FileMarkup(hashing, files[0]), FilesMarkup(hashing, files[1..]), rest,
             first, [p], FileRefs(files[1..], prefix), more);
      assert FileRefs(files, prefix) == first + FileRefs(files[1..], prefix);
      parts := [p] + more;
    }
  }

  /** The contents of a directory hold its files and directories, in the order of its components. */
  lemma {:induction false} ContentsRead(hashing: Hashing, tree: Tree, destination: string, prefix: seq<string>,
          rest: seq<Markup>)
    returns (parts: seq<Part>)
    requires Writes(destination, prefix) && forall d :: d in Directories(tree, prefix) ==> Named(d)
    ensures ReadsAs(hashing, Contents(hashing, tree, destination), rest, Refs(tree, prefix), parts)
    decreases tree, 1
  {
    var children := ChildrenMarkup(hashing, tree.children, destination);
    var inside := ChildrenRead(hashing, tree.children, destination, prefix, rest);
    var files := FilesRead(hashing, tree.files, prefix, children + rest);
    Append(hashing, FilesMarkup(hashing, tree.files), children, rest, FileRefs(tree.files, prefix), files,
           ChildRefs(tree.children, prefix), inside);
    parts := files + inside;
  }

  lemma {:induction false} ChildrenRead(hashing: Hashing, children: seq<Child>, destination: string,
          prefix: seq<string>, rest: seq<Markup>)
    returns (parts: seq<Part>)
    requires Writes(destination, prefix) && forall d :: d in DirectoriesOf(children, prefix) ==> Named(d)
    ensures ReadsAs(hashing, ChildrenMarkup(hashing, children, destination), rest, ChildRefs(children, prefix), parts)
    decreases children, 0
  {
    if children == [] {
      parts := [];
      NothingRead(hashing, rest);
    } else {
      var child := children[0];
      var inner, path := Nested(destination, child.name), prefix + [child.name];
      assert path in DirectoriesOf(children, prefix);
      NestedWrites(destination, prefix, child.name);
      var others := ChildrenMarkup(hashing, children[1..], destination);
      var later := ChildrenRead(hashing, children[1..], destination, prefix, rest);
      var inside := ContentsRead(hashing, child.tree, inner, path, [End("Directory")] + (others + rest));
      var own := ChildReads(hashing, child, inner, path, Refs(child.tree, path), inside, others + rest);
      Append(hashing, ChildMarkup(hashing, child, destination), others, rest,
             [DirectoryRef(path)] + Refs(child.tree, path), own, ChildRefs(children[1..], prefix), later);
      parts := own + later;
    }
  }

  /** A directory around contents that are read. */
  lemma ChildReads(hashing: Hashing, child: Child, inner: string, path: seq<string>, refs: seq<Ref>, inside: seq<Part>,
          rest: seq<Markup>)
    returns (parts: seq<Part>)
    requires path != [] && inner == Join(path) && child.name == path[|path| - 1]
    requires ReadsAs(hashing, Contents(hashing, child.tree, inner), [End("Directory")] + rest, refs, inside)
    ensures ReadsAs(hashing, DirectoryHeader(hashing, child.name, inner) + Contents(hashing, child.tree, inner)
                             + [End("Directory")], rest, [DirectoryRef(path)] + refs, parts)
  {
    var header, contents := DirectoryHeader(hashing, child.name, inner), Contents(hashing, child.tree, inner);
    var end := [End("Directory")];
    var own := HeaderReads(hashing, child.name, inner, path, contents + (end + rest));
    EndReads(hashing, "Directory", rest);
    Append(hashing, header, contents, end + rest, [DirectoryRef(path)], [own], refs, inside);
    Append(hashing, header + contents, end, rest, [DirectoryRef(path)] + refs, [own] + inside, [], []);
    assert [DirectoryRef(path)] + refs + [] == [DirectoryRef(path)] + refs && [own] + inside + [] == [own] + inside;
    parts := [own] + inside;
  }

  // ----- the references of the group

  predicate IsNoRef(m: Markup) { m.tag != "ComponentRef" }

  lemma {:induction false} ReferencedConcat(a: seq<Markup>, b: seq<Markup>)
    ensures Referenced(a + b) == Referenced(a) + Referenced(b)
  {
    if a == [] {
      assert a + b == b;
    } else {
      assert (a + b)[1..] == a[1..] + b;
      ReferencedConcat(a[1..], b);
    }
  }

  lemma {:induction false} NoneReferenced(xml: seq<Markup>)
    requires forall m <- xml :: IsNoRef(m)
    ensures Referenced(xml) == []
  {
    if xml != [] {
      assert IsNoRef(xml[0]);
      NoneReferenced(xml[1..]);
    }
  }

  lemma {:induction false} RefsReferenced(ids: seq<string>)
    ensures Referenced(ComponentRefs(ids)) == ids
  {
    if ids != [] {
      var n := |ids| - 1;
      RefsReferenced(ids[..n]);
      ReferencedConcat(ComponentRefs(ids[..n]), [ComponentRef(ids[n])]);
      LookupAt([("Id", ids[n])], 0);
      assert Referenced([ComponentRef(ids[n])]) == [ids[n]];
      assert ids == ids[..n] + [ids[n]];
    }
  }

  lemma {:induction false} FilesHaveNoRef(hashing: Hashing, files: seq<ResourceFile>)
    ensures forall m <- FilesMarkup(hashing, files) :: IsNoRef(m)
  {
    if files != [] {
      FilesHaveNoRef(hashing, files[1..]);
    }
  }

  lemma {:induction false} ContentsHaveNoRef(hashing: Hashing, tree: Tree, destination: string)
    ensures forall m <- Contents(hashing, tree, destination) :: IsNoRef(m)
    decreases tree, 1
  {
    FilesHaveNoRef(hashing, tree.files);
    ChildrenHaveNoRef(hashing, tree.children, destination);
  }

  lemma {:induction false} ChildrenHaveNoRef(hashing: Hashing, children: seq<Child>, destination: string)
    ensures forall m <- ChildrenMarkup(hashing, children, destination) :: IsNoRef(m)
    decreases children, 0
  {
    if children != [] {
      var inner := Nested(destination, children[0].name);
      HeaderHasNoRef(hashing, children[0].name, inner);
      ContentsHaveNoRef(hashing, children[0].tree, inner);
      ChildrenHaveNoRef(hashing, children[1..], destination);
    }
  }

  lemma HeaderHasNoRef(hashing: Hashing, name: string, destination: string)
    ensures forall m <- DirectoryHeader(hashing, name, destination) :: IsNoRef(m)
  {
  }

  // ----- the document

  lemma FrameTags()
    ensures (forall m <- HEAD :: IsNoRef(m)) && (forall m <- MIDDLE :: IsNoRef(m)) && forall m <- TAIL :: IsNoRef(m)
  {
  }

  lemma FrameHasNoRef()
    ensures Referenced(HEAD) == [] && Referenced(MIDDLE) == [] && Referenced(TAIL) == []
  {
    FrameTags();
    NoneReferenced(HEAD);
    NoneReferenced(MIDDLE);
    NoneReferenced(TAIL);
  }

  lemma DocumentRefers(hashing: Hashing, tree: Tree, refs: seq<string>)
    ensures Referenced(Document(Contents(hashing, tree, ""), refs)) == refs
  {
    var contents, group := Contents(hashing, tree, ""), ComponentRefs(refs);
    ContentsHaveNoRef(hashing, tree, "");
    NoneReferenced(contents);
    RefsReferenced(refs);
    FrameHasNoRef();
    ReferencedConcat(HEAD, contents);
    ReferencedConcat(HEAD + contents, MIDDLE);
    ReferencedConcat(HEAD + contents + MIDDLE, group);
    ReferencedConcat(HEAD + contents + MIDDLE + group, TAIL);
  }

  predicate IsNoPart(m: Markup) { m.Start? ==> m.tag != "Directory" && m.tag != "Component" }

  lemma {:induction false} NoParts(xml: seq<Markup>, rest: seq<Markup>)
    requires forall m <- xml :: IsNoPart(m)
    ensures Parts(xml + rest) == Parts(rest)
  {
    if xml == [] {
      assert xml + rest == rest;
    } else {
      assert IsNoPart(xml[0]) && (xml + rest)[1..] == xml[1..] + rest;
      NoParts(xml[1..], rest);
    }
  }

  lemma {:induction false} RefsAreNoParts(ids: seq<string>)
    ensures forall m <- ComponentRefs(ids) :: IsNoPart(m)
  {
    if ids != [] {
      RefsAreNoParts(ids[..|ids| - 1]);
    }
  }

  lemma FrameHasNoParts()
    ensures (forall m <- HEAD :: IsNoPart(m)) && (forall m <- MIDDLE :: IsNoPart(m)) && forall m <- TAIL :: IsNoPart(m)
  {
  }

  lemma DocumentParts(hashing: Hashing, tree: Tree, ids: seq<string>)
    requires forall d :: d in Directories(tree, []) ==> Named(d)
    ensures HoldAll(hashing, Refs(tree, []), Parts(Document(Contents(hashing, tree, ""), ids)))
  {
    var contents, group := Contents(hashing, tree, ""), ComponentRefs(ids);
    var rest := MIDDLE + group + TAIL;
    var parts := ContentsRead(hashing, tree, "", [], rest);
    RefsAreNoParts(ids);
    NoPartsBehind(group, rest);
    NoPartsInFront(contents + rest);
    assert Document(contents, ids) == HEAD + (contents + rest);
    assert parts + [] == parts;
  }

  lemma NoPartsInFront(rest: seq<Markup>)
    ensures Parts(HEAD + rest) == Parts(rest)
  {
    FrameHasNoParts();
    NoParts(HEAD, rest);
  }

  lemma NoPartsBehind(group: seq<Markup>, rest: seq<Markup>)
    requires rest == MIDDLE + group + TAIL && forall m <- group :: IsNoPart(m)
    ensures Parts(rest) == []
  {
    FrameHasNoParts();
    assert rest == MIDDLE + (group + (TAIL + []));
    NoParts(TAIL, []);
    NoParts(group, TAIL + []);
    NoParts(MIDDLE, group + (TAIL + []));
  }

  predicate PartHasId(p: Part, id: string) { Attribute(p.component, "Id") == id }

  // ----- from the resources to what the text installs

  /** The tags that are read from the text of a fragment. */
  function TagsOf(text: string): Option<seq<Markup>> {
    if PROLOG <= text then ReadTags(text[|PROLOG|..]) else None
  }

  ghost predicate IsText(hashing: Hashing, resources: seq<ResourceFile>, refs: seq<string>, text: string) {
    && InOrder(refs) && (forall id :: id in refs <==> id in Components(hashing, Build(resources), ""))
    && text == PROLOG + Print(0, Document(Contents(hashing, Build(resources), ""), refs))
  }

  lemma TextIsRead(hashing: Hashing, resources: seq<ResourceFile>, refs: seq<string>, text: string)
    requires ResourcesOf(hashing, resources) && IsHashing(hashing) && IsText(hashing, resources, refs, text)
    ensures TagsOf(text) == Some(Document(Contents(hashing, Build(resources), ""), refs))
  {
    forall r | r in resources ensures PlaceHas(DIGESTED, Split(r.destination), r) { }
    BuildHas(DIGESTED, resources);
    DocumentPrinted(hashing, Build(resources), refs);
    PrintedIsRead(0, Document(Contents(hashing, Build(resources), ""), refs));
    PrologThen(Print(0, Document(Contents(hashing, Build(resources), ""), refs)));
  }

  /** The ids of the parts are those that the fragment collects, in the same order. */
  lemma IdsOfParts(hashing: Hashing, resources: seq<ResourceFile>, parts: seq<Part>)
    requires ResourcesOf(hashing, resources) && HoldAll(hashing, Refs(Build(resources), []), parts)
    ensures var ids := Components(hashing, Build(resources), "");
            |ids| == |parts| && forall i :: 0 <= i < |parts| ==> PartHasId(parts[i], ids[i])
  {
    RenderedRefs(hashing, resources);
    forall i | 0 <= i < |parts| ensures PartHasId(parts[i], Components(hashing, Build(resources), "")[i]) {
      assert Holds(hashing, Refs(Build(resources), [])[i], parts[i]);
    }
  }

  lemma {:induction false} OrderedIsDistinct(ids: seq<string>)
    requires InOrder(ids)
    ensures Distinct(ids)
  {
  }

  /**
   * What the text installs: each file and each directory once, with its own attributes
   * and a component under its own id and GUID; and the group refers to the ids of these
   * components, all of them and no others, each id once.
   */
  lemma TextInstalls(hashing: Hashing, resources: seq<ResourceFile>, refs: seq<string>, text: string)
    returns (installed: seq<Ref>)
    requires ResourcesOf(hashing, resources) && IsHashing(hashing) && IsText(hashing, resources, refs, text)
    ensures TagsOf(text).Some? && HoldAll(hashing, installed, Parts(TagsOf(text).value))
    ensures Distinct(installed) && forall r :: r in installed <==> Known(resources, r)
    ensures Distinct(Referenced(TagsOf(text).value))
    ensures forall id :: id in Referenced(TagsOf(text).value)
                         <==> exists p :: p in Parts(TagsOf(text).value) && PartHasId(p, id)
  {
    installed := Refs(Build(resources), []);
    var xml := Document(Contents(hashing, Build(resources), ""), refs);
    TextIsRead(hashing, resources, refs, text);
    RenderedRefs(hashing, resources);
    DirectoriesAreNamed(hashing, resources);
    DocumentParts(hashing, Build(resources), refs);
    DocumentRefers(hashing, Build(resources), refs);
    OrderedIsDistinct(refs);
    IdsOfParts(hashing, resources, Parts(xml));
    SameIds(Components(hashing, Build(resources), ""), Parts(xml), refs);
  }

  lemma SameIds(ids: seq<string>, parts: seq<Part>, refs: seq<string>)
    requires |ids| == |parts| && forall i :: 0 <= i < |parts| ==> PartHasId(parts[i], ids[i])
    requires forall id :: id in refs <==> id in ids
    ensures forall id :: id in refs <==> exists p :: p in parts && PartHasId(p, id)
  {
    forall id ensures id in ids <==> exists p :: p in parts && PartHasId(p, id) {
      if id in ids {
        var i :| 0 <= i < |ids| && ids[i] == id;
        assert parts[i] in parts && PartHasId(parts[i], id);
      }
      if p :| p in parts && PartHasId(p, id) {
        var i :| 0 <= i < |parts| && parts[i] == p;
        assert PartHasId(parts[i], ids[i]);
      }
    }
  }

  ghost predicate DistinctParts(parts: seq<Part>) {
    forall i, j :: 0 <= i < j < |parts| ==> Attribute(parts[i].component, "Id") != Attribute(parts[j].component, "Id")
  }

  lemma DistinctTogether(ids: seq<string>, parts: seq<Part>)
    requires |ids| == |parts| && forall i :: 0 <= i < |parts| ==> PartHasId(parts[i], ids[i])
    ensures DistinctParts(parts) <==> Distinct(ids)
  {
    forall i, j | 0 <= i < j < |parts|
      ensures Attribute(parts[i].component, "Id") != Attribute(parts[j].component, "Id") <==> ids[i] != ids[j]
    {
      assert PartHasId(parts[i], ids[i]) && PartHasId(parts[j], ids[j]);
    }
  }

  /** The parts have distinct ids exactly when the truncated digests do not collide. */
  lemma EachPartOnce(hashing: Hashing, resources: seq<ResourceFile>, refs: seq<string>, text: string)
    requires ResourcesOf(hashing, resources) && IsHashing(hashing) && IsText(hashing, resources, refs, text)
    ensures TagsOf(text).Some? && (DistinctParts(Parts(TagsOf(text).value)) <==> CollisionFree(hashing, resources))
  {
    var parts := Parts(Document(Contents(hashing, Build(resources), ""), refs));
    TextIsRead(hashing, resources, refs, text);
    DirectoriesAreNamed(hashing, resources);
    DocumentParts(hashing, Build(resources), refs);
    IdsOfParts(hashing, resources, parts);
    EachComponentOnce(hashing, resources);
    DistinctTogether(Components(hashing, Build(resources), ""), parts);
  }
}
