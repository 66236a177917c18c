// `render_fragment` and `render_directory_contents`: the WiX markup of the
// resource tree, and the components it must list.
module WindowsMsiRender {
  import opened Sequences
  import opened Wrappers
  import opened WindowsMsiWalk
  import opened WindowsMsiTree
  import opened XmlEscape
  import opened XmlMarkup

  /** SHA-256 as a hexadecimal string, and the name-based UUID of a kind and a digest. */
  datatype Hashing = Hashing(sha256: string -> string, guid: (string, string) -> string)

  const REGISTRY_KEY := "Software\\io.github.airwiki\\AirWiki\\Components"

  /** `&digest[..32]`; a SHA-256 digest has 64 digits. */
  function Short(digest: string): string {
    if |digest| > 32 then digest[..32] else digest
  }

  function FileComponentId(digest: string): string { "AirWikiFileComponent_" + Short(digest) }
  function DirectoryComponentId(digest: string): string { "AirWikiDirComponent_" + Short(digest) }
  function FileId(digest: string): string { "AirWikiFile_" + Short(digest) }
  function DirectoryId(digest: string): string { "AirWikiDir_" + Short(digest) }
  function RemoveFolderId(digest: string): string { "AirWikiRemoveDir_" + Short(digest) }

  function ComponentStart(id: string, guid: string): Markup {
    Start("Component", [("Id", id), ("Guid", guid), ("Win64", "yes")])
  }

  function KeyPath(name: string): Markup {
    Empty("RegistryValue",
        [("Root", "HKCU"), ("Key", REGISTRY_KEY), ("Name", name), ("Type", "integer"), ("Value", "1"),
        ("KeyPath", "yes")])
  }

  function FileElement(file: ResourceFile): Markup {
    Empty("File",
        [("Id", FileId(file.digest)), ("Name", EscapeXmlAttribute(file.destination)),
        ("Source", EscapeXmlAttribute(file.source))])
  }

  function FileMarkup(hashing: Hashing, file: ResourceFile): seq<Markup> {
    [ ComponentStart(FileComponentId(file.digest), hashing.guid("file", file.digest)),
      FileElement(file),
      KeyPath("File_" + file.digest),
      End("Component") ]
  }

  function DirectoryHeader(hashing: Hashing, name: string, destination: string): seq<Markup> {
    var digest := hashing.sha256(destination);
    [ Start("Directory", [("Id", DirectoryId(digest)), ("Name", EscapeXmlAttribute(name))]),
      ComponentStart(DirectoryComponentId(digest), hashing.guid("directory", digest)),
      Empty("RemoveFolder", [("Id", RemoveFolderId(digest)), ("On", "uninstall")]),
      KeyPath("Directory_" + digest),
      End("Component") ]
  }

  function Nested(destination: string, name: string): string {
    if destination == "" then name else destination + "/" + name
  }

  function Contents(hashing: Hashing, tree: Tree, destination: string): seq<Markup>
    decreases tree, 1
  {
    FilesMarkup(hashing, tree.files) + ChildrenMarkup(hashing, tree.children, destination)
  }

  function FilesMarkup(hashing: Hashing, files: seq<ResourceFile>): seq<Markup> {
    if files == [] then [] else FileMarkup(hashing, files[0]) + FilesMarkup(hashing, files[1..])
  }

  function ChildrenMarkup(hashing: Hashing, children: seq<Child>, destination: string): seq<Markup>
    decreases children, 0
  {
    if children == [] then []
    else ChildMarkup(hashing, children[0], destination) + ChildrenMarkup(hashing, children[1..], destination)
  }

  function ChildMarkup(hashing: Hashing, child: Child, destination: string): seq<Markup>
    decreases child, 2
  {
    var inner := Nested(destination, child.name);
    DirectoryHeader(hashing, child.name, inner) + Contents(hashing, child.tree, inner) + [End("Directory")]
  }

  /** The component ids rendered below a directory, in order. */
  function Components(hashing: Hashing, tree: Tree, destination: string): seq<string>
    decreases tree, 1
  {
    FileComponents(tree.files) + ChildComponents(hashing, tree.children, destination)
  }

  function FileComponents(files: seq<ResourceFile>): seq<string> {
    if files == [] then [] else [FileComponentId(files[0].digest)] + FileComponents(files[1..])
  }

  function ChildComponents(hashing: Hashing, children: seq<Child>, destination: string): seq<string>
    decreases children, 0
  {
    if children == [] then []
    else OneChildComponents(hashing, children[0], destination) + ChildComponents(hashing, children[1..], destination)
  }

  function OneChildComponents(hashing: Hashing, child: Child, destination: string): seq<string>
    decreases child, 2
  {
    var inner := Nested(destination, child.name);
    [DirectoryComponentId(hashing.sha256(inner))] + Components(hashing, child.tree, inner)
  }

  ghost function Set(ids: seq<string>): set<string> { set id | id in ids }

  // ----- the tags are balanced

  /** The open elements after reading the markup, or nothing if an end tag does not match. */
  function Run(open: seq<string>, xml: seq<Markup>): Option<seq<string>>
    decreases |xml|
  {
    if xml == [] then Some(open)
    else match xml[0]
      case Start(tag, _) => Run(open + [tag], xml[1..])
      case Empty(_, _) => Run(open, xml[1..])
      case End(tag) =>
        if open != [] && open[|open| - 1] == tag then Run(open[..|open| - 1], xml[1..]) else None
  }

  lemma {:induction false} RunConcat(open: seq<string>, a: seq<Markup>, b: seq<Markup>)
    ensures Run(open, a + b) == match Run(open, a) case None => None case Some(after) => Run(after, b)
    decreases |a|
  {
    if a == [] {
      assert a + b == b;
    } else {
      assert (a + b)[1..] == a[1..] + b;
      match a[0]
      case Start(tag, _) => RunConcat(open + [tag], a[1..], b);
      case Empty(_, _) => RunConcat(open, a[1..], b);
      case End(tag) =>
        if open != [] && open[|open| - 1] == tag {
          RunConcat(open[..|open| - 1], a[1..], b);
        }
    }
  }

  lemma RunOne(open: seq<string>, m: Markup, rest: seq<Markup>)
    ensures m.Start? ==> Run(open, [m] + rest) == Run(open + [m.tag], rest)
    ensures m.Empty? ==> Run(open, [m] + rest) == Run(open, rest)
    ensures m.End? ==> Run(open + [m.tag], [m] + rest) == Run(open, rest)
  {
    assert ([m] + rest)[1..] == rest;
    if m.End? {
      assert (open + [m.tag])[..|open|] == open;
    }
  }

  lemma RunFile(hashing: Hashing, file: ResourceFile, open: seq<string>)
    ensures Run(open, FileMarkup(hashing, file)) == Some(open)
  {
    var m := FileMarkup(hashing, file);
    RunOne(open, m[0], m[1..]);
    RunOne(open + ["Component"], m[1], m[2..]);
    RunOne(open + ["Component"], m[2], m[3..]);
    RunOne(open, m[3], []);
    assert m == [m[0]] + m[1..] && m[1..] == [m[1]] + m[2..] && m[2..] == [m[2]] + m[3..] && m[3..] == [m[3]] + [];
  }

  lemma RunHeader(hashing: Hashing, name: string, destination: string, open: seq<string>)
    ensures Run(open, DirectoryHeader(hashing, name, destination)) == Some(open + ["Directory"])
  {
    var m := DirectoryHeader(hashing, name, destination);
    var inside := open + ["Directory"];
    RunOne(open, m[0], m[1..]);
    RunOne(inside, m[1], m[2..]);
    RunOne(inside + ["Component"], m[2], m[3..]);
    RunOne(inside + ["Component"], m[3], m[4..]);
    RunOne(inside, m[4], []);
    assert m == [m[0]] + m[1..] && m[1..] == [m[1]] + m[2..] && m[2..] == [m[2]] + m[3..];
    assert m[3..] == [m[3]] + m[4..] && m[4..] == [m[4]] + [];
  }

  lemma {:induction false} RunFiles(hashing: Hashing, files: seq<ResourceFile>, open: seq<string>)
    ensures Run(open, FilesMarkup(hashing, files)) == Some(open)
  {
    if files != [] {
      RunFile(hashing, files[0], open);
      RunFiles(hashing, files[1..], open);
      RunConcat(open, FileMarkup(hashing, files[0]), FilesMarkup(hashing, files[1..]));
    }
  }

  /** Every start tag is closed by its own end tag, in order. */
  lemma {:induction false} ContentsBalanced(hashing: Hashing, tree: Tree, destination: string, open: seq<string>)
    ensures Run(open, Contents(hashing, tree, destination)) == Some(open)
    decreases tree, 1
  {
    RunFiles(hashing, tree.files, open);
    ChildrenBalanced(hashing, tree.children, destination, open);
    RunConcat(open, FilesMarkup(hashing, tree.files), ChildrenMarkup(hashing, tree.children, destination));
  }

  lemma {:induction false} ChildrenBalanced(hashing: Hashing, children: seq<Child>, destination: string,
          open: seq<string>)
    ensures Run(open, ChildrenMarkup(hashing, children, destination)) == Some(open)
    decreases children, 0
  {
    if children != [] {
      var child, inner := children[0], Nested(destination, children[0].name);
      RunHeader(hashing, child.name, inner, open);
      ContentsBalanced(hashing, child.tree, inner, open + ["Directory"]);
      RunWrapped(DirectoryHeader(hashing, child.name, inner), Contents(hashing, child.tree, inner), open);
      ChildrenBalanced(hashing, children[1..], destination, open);
      RunConcat(open, ChildMarkup(hashing, child, destination), ChildrenMarkup(hashing, children[1..], destination));
    }
  }

  lemma RunWrapped(header: seq<Markup>, contents: seq<Markup>, open: seq<string>)
    requires Run(open, header) == Some(open + ["Directory"])
    requires Run(open + ["Directory"], contents) == Some(open + ["Directory"])
    ensures Run(open, header + contents + [End("Directory")]) == Some(open)
  {
    RunConcat(open, header, contents);
    RunConcat(open, header + contents, [End("Directory")]);
    RunOne(open, End("Directory"), []);
    assert [End("Directory")] + [] == [End("Directory")];
  }

  // ----- the markup can be read back

  function Attribute(m: Markup, name: string): string {
    if m.End? then "" else Lookup(m.attributes, name)
  }

  function Lookup(attributes: seq<(string, string)>, name: string): string {
    if attributes == [] then ""
    else if attributes[0].0 == name then attributes[0].1
    else Lookup(attributes[1..], name)
  }

  /** The file described by a `File` element and the registry value behind it. */
  function ReadFile(file: Markup, key: Markup): ResourceFile {
    ResourceFile(Attribute(file, "Source"), Attribute(file, "Name"), AfterPrefix(Attribute(key, "Name"), 5))
  }

  function AfterPrefix(s: string, n: nat): string {
    if |s| >= n then s[n..] else ""
  }

  predicate Opens(xml: seq<Markup>, tag: string, size: nat) {
    |xml| >= size && size > 0 && xml[0].Start? && xml[0].tag == tag
  }

  /** Files, then directories, up to an end tag that is not theirs; names and sources as printed. */
  function Read(xml: seq<Markup>): (r: (Tree, seq<Markup>))
    ensures |r.1| <= |xml|
    decreases |xml|
  {
    if Opens(xml, "Component", 4) then
      var (tree, rest) := Read(xml[4..]);
      (AddFileTo(ReadFile(xml[1], xml[2]), tree), rest)
    else if Opens(xml, "Directory", 5) then
      var (inner, after) := Read(xml[5..]);
      var (tree, rest) := Read(if after == [] then [] else after[1..]);
      (AddChildTo(Child(Attribute(xml[0], "Name"), inner), tree), rest)
    else (EMPTY, xml)
  }

  function AddFileTo(file: ResourceFile, tree: Tree): Tree { Tree(tree.children, [file] + tree.files) }

  function AddChildTo(child: Child, tree: Tree): Tree { Tree([child] + tree.children, tree.files) }

  // ----- the tree as it appears in attribute values, and back

  function EscapedFile(file: ResourceFile): ResourceFile {
    ResourceFile(EscapeXmlAttribute(file.source), EscapeXmlAttribute(file.destination), file.digest)
  }

  function EscapedFiles(files: seq<ResourceFile>): seq<ResourceFile> {
    if files == [] then [] else [EscapedFile(files[0])] + EscapedFiles(files[1..])
  }

  function Escaped(tree: Tree): Tree
    decreases tree, 1
  {
    Tree(EscapedChildren(tree.children), EscapedFiles(tree.files))
  }

  function EscapedChildren(children: seq<Child>): seq<Child>
    decreases children, 0
  {
    if children == [] then []
    else [Child(EscapeXmlAttribute(children[0].name), Escaped(children[0].tree))] + EscapedChildren(children[1..])
  }

  function Unescaped(tree: Tree): Tree
    decreases tree, 1
  {
    Tree(UnescapedChildren(tree.children), UnescapedFiles(tree.files))
  }

  function UnescapedFiles(files: seq<ResourceFile>): seq<ResourceFile> {
    if files == [] then []
    else [ResourceFile(Unescape(files[0].source), Unescape(files[0].destination), files[0].digest)]
         + UnescapedFiles(files[1..])
  }

  function UnescapedChildren(children: seq<Child>): seq<Child>
    decreases children, 0
  {
    if children == [] then []
    else [Child(Unescape(children[0].name), Unescaped(children[0].tree))] + UnescapedChildren(children[1..])
  }

  lemma {:induction false} UnescapeTree(tree: Tree)
    ensures Unescaped(Escaped(tree)) == tree
    decreases tree, 1
  {
    UnescapeFiles(tree.files);
    UnescapeChildren(tree.children);
  }

  lemma {:induction false} UnescapeFiles(files: seq<ResourceFile>)
    ensures UnescapedFiles(EscapedFiles(files)) == files
  {
    if files != [] {
      UnescapeFiles(files[1..]);
      UnescapeInvertsEscape(files[0].source);
      UnescapeInvertsEscape(files[0].destination);
      assert EscapedFiles(files)[1..] == EscapedFiles(files[1..]);
    }
  }

  lemma {:induction false} UnescapeChildren(children: seq<Child>)
    ensures UnescapedChildren(EscapedChildren(children)) == children
    decreases children, 0
  {
    if children != [] {
      UnescapeTree(children[0].tree);
      UnescapeChildren(children[1..]);
      UnescapeInvertsEscape(children[0].name);
      assert EscapedChildren(children)[1..] == EscapedChildren(children[1..]);
    }
  }

  predicate Stops(rest: seq<Markup>) { rest == [] || rest[0].End? }

  lemma LookupNext(first: (string, string), rest: seq<(string, string)>, name: string)
    ensures Lookup([first] + rest, name) == if first.0 == name then first.1 else Lookup(rest, name)
  {
    assert ([first] + rest)[1..] == rest;
  }

  lemma FileAttributes(hashing: Hashing, file: ResourceFile)
    ensures var m := FileMarkup(hashing, file)[1];
            Attribute(m, "Name") == EscapeXmlAttribute(file.destination)
                && Attribute(m, "Source") == EscapeXmlAttribute(file.source)
  {
    var id, name, source :=
        ("Id", FileId(file.digest)), ("Name", EscapeXmlAttribute(file.destination)),
        ("Source", EscapeXmlAttribute(file.source));
    assert [id, name, source] == [id] + ([name] + [source]);
    LookupNext(id, [name] + [source], "Name");
    LookupNext(id, [name] + [source], "Source");
    LookupNext(name, [source], "Name");
    LookupNext(name, [source], "Source");
  }

  lemma KeyPathName(name: string)
    ensures Attribute(KeyPath(name), "Name") == name
  {
    var all := KeyPath(name).attributes;
    assert all == [all[0]] + all[1..] && all[1..] == [all[1]] + all[2..] && all[2..] == [all[2]] + all[3..];
    LookupNext(all[0], all[1..], "Name");
    LookupNext(all[1], all[2..], "Name");
    LookupNext(all[2], all[3..], "Name");
  }

  lemma DirectoryName(hashing: Hashing, name: string, destination: string)
    ensures Attribute(DirectoryHeader(hashing, name, destination)[0], "Name") == EscapeXmlAttribute(name)
  {
    var all := DirectoryHeader(hashing, name, destination)[0].attributes;
    assert all == [all[0]] + [all[1]] && [all[1]] == [all[1]] + [];
    LookupNext(all[0], [all[1]], "Name");
    LookupNext(all[1], [], "Name");
  }

  /** A printed file is read back: its name and source as escaped, its digest from the registry value. */
  lemma ReadFileMarkup(hashing: Hashing, file: ResourceFile)
    ensures ReadFile(FileMarkup(hashing, file)[1], FileMarkup(hashing, file)[2]) == EscapedFile(file)
  {
    FileAttributes(hashing, file);
    KeyPathName("File_" + file.digest);
    assert ("File_" + file.digest)[5..] == file.digest;
  }

  lemma ReadComponent(xml: seq<Markup>, printed: seq<Markup>, rest: seq<Markup>)
    requires xml == printed + rest && |printed| == 4 && Opens(printed, "Component", 4)
    ensures Read(xml) == (AddFileTo(ReadFile(printed[1], printed[2]), Read(rest).0), Read(rest).1)
  {
    assert xml[0] == printed[0] && xml[1] == printed[1] && xml[2] == printed[2];
    assert xml[4..] == rest;
  }

  lemma ReadDirectory(xml: seq<Markup>, header: seq<Markup>, body: seq<Markup>, inner: Tree, after: seq<Markup>)
    requires xml == header + body && |header| == 5 && Opens(header, "Directory", 5)
    requires Read(body) == (inner, [End("Directory")] + after)
    ensures Read(xml) == (AddChildTo(Child(Attribute(header[0], "Name"), inner), Read(after).0), Read(after).1)
  {
    assert xml[0] == header[0];
    assert xml[5..] == body;
    assert ([End("Directory")] + after)[1..] == after;
  }

  lemma {:induction false} ReadFiles(hashing: Hashing, files: seq<ResourceFile>, xml: seq<Markup>)
    requires Read(xml).0.files == []
    ensures Read(FilesMarkup(hashing, files) + xml) == (Tree(Read(xml).0.children, EscapedFiles(files)), Read(xml).1)
  {
    if files == [] {
      assert FilesMarkup(hashing, files) + xml == xml;
    } else {
      var printed, after := FileMarkup(hashing, files[0]), FilesMarkup(hashing, files[1..]) + xml;
      ReadFiles(hashing, files[1..], xml);
      ReadFileMarkup(hashing, files[0]);
      Regroup(printed, FilesMarkup(hashing, files[1..]), xml);
      assert Opens(printed, "Component", 4);
      ReadComponent(printed + after, printed, after);
    }
  }

  lemma {:induction false} ReadContents(hashing: Hashing, tree: Tree, destination: string, rest: seq<Markup>)
    requires Stops(rest)
    ensures Read(Contents(hashing, tree, destination) + rest) == (Escaped(tree), rest)
    decreases tree, 1
  {
    var children := ChildrenMarkup(hashing, tree.children, destination) + rest;
    ReadChildren(hashing, tree.children, destination, rest);
    assert Read(children).0.files == [];
    ReadFiles(hashing, tree.files, children);
    Regroup(FilesMarkup(hashing, tree.files), ChildrenMarkup(hashing, tree.children, destination), rest);
  }

  lemma {:induction false} ReadChildren(hashing: Hashing, children: seq<Child>, destination: string, rest: seq<Markup>)
    requires Stops(rest)
    ensures Read(ChildrenMarkup(hashing, children, destination) + rest) == (Tree(EscapedChildren(children), []), rest)
    decreases children, 0
  {
    if children == [] {
      assert ChildrenMarkup(hashing, children, destination) + rest == rest;
    } else {
      var inner := Nested(destination, children[0].name);
      var after := ChildrenMarkup(hashing, children[1..], destination) + rest;
      var header := DirectoryHeader(hashing, children[0].name, inner);
      var body := Contents(hashing, children[0].tree, inner) + ([End("Directory")] + after);
      ReadContents(hashing, children[0].tree, inner, [End("Directory")] + after);
      ReadChildren(hashing, children[1..], destination, rest);
      DirectoryName(hashing, children[0].name, inner);
      FirstChildMarkup(hashing, children, destination, rest);
      ReadDirectory(header + body, header, body, Escaped(children[0].tree), after);
    }
  }

  lemma FirstChildMarkup(hashing: Hashing, children: seq<Child>, destination: string, rest: seq<Markup>)
    requires children != []
    ensures var inner := Nested(destination, children[0].name);
            ChildrenMarkup(hashing, children, destination) + rest
            == DirectoryHeader(hashing, children[0].name, inner)
               + (Contents(hashing, children[0].tree, inner)
                   + ([End("Directory")] + (ChildrenMarkup(hashing, children[1..], destination) + rest)))
  {
    var inner := Nested(destination, children[0].name);
    FiveParts(DirectoryHeader(hashing, children[0].name, inner), Contents(hashing, children[0].tree, inner),
              [End("Directory")], ChildrenMarkup(hashing, children[1..], destination), rest);
  }

  lemma FiveParts(a: seq<Markup>, b: seq<Markup>, c: seq<Markup>, d: seq<Markup>, e: seq<Markup>)
    ensures a + b + c + d + e == a + (b + (c + (d + e)))
  {
  }

  /** Reading the rendered contents gives the tree back: names, sources and digests. */
  lemma RenderedIsReadBack(hashing: Hashing, tree: Tree, destination: string)
    ensures var (read, rest) := Read(Contents(hashing, tree, destination)); Unescaped(read) == tree && rest == []
  {
    ReadContents(hashing, tree, destination, []);
    assert Contents(hashing, tree, destination) + [] == Contents(hashing, tree, destination);
    UnescapeTree(tree);
  }
}
