// `render_directory_contents`: the text of the resource tree, appended piece by
// piece, and the set of component ids.
module WindowsMsiText {
  import opened Wrappers
  import opened Sequences
  import opened WindowsMsiWalk
  import opened WindowsMsiTree
  import opened WindowsMsiRender
  import opened XmlEscape
  import opened XmlMarkup

  // ----- depth

  /** The indentation follows the open elements. */
  lemma {:induction false} DepthFollows(open: seq<string>, xml: seq<Markup>, indent: nat)
    requires Run(open, xml).Some? && indent >= 2 * |open|
    ensures Depth(indent, xml) == indent + 2 * |Run(open, xml).value| - 2 * |open|
    decreases |xml|
  {
    if xml != [] {
      match xml[0]
      case Start(tag, _) => DepthFollows(open + [tag], xml[1..], indent + 2);
      case Empty(_, _) => DepthFollows(open, xml[1..], indent);
      case End(_) => DepthFollows(open[..|open| - 1], xml[1..], indent - 2);
    }
  }

  lemma PrintBalanced(indent: nat, a: seq<Markup>, b: seq<Markup>)
    requires Run([], a) == Some([])
    ensures Print(indent, a + b) == Print(indent, a) + Print(indent, b)
  {
    DepthFollows([], a, indent);
    PrintConcat(indent, a, b);
  }

  // ----- files

  /** The four lines of a file. */
  function FileText(hashing: Hashing, file: ResourceFile, indent: nat): string {
    var component := ComponentStart(FileComponentId(file.digest), hashing.guid("file", file.digest));
    FourLines(indent, component, FileElement(file), KeyPath("File_" + file.digest))
  }

  /** A component with two empty elements in it. */
  function FourLines(indent: nat, component: Markup, first: Markup, second: Markup): string {
    LineText(indent, component)
    + (LineText(indent + 2, first) + (LineText(indent + 2, second) + LineText(indent, End("Component"))))
  }

  lemma PrintLast(indent: nat, m: Markup)
    ensures Print(indent, [m]) == LineText(if m.End? then Out(indent) else indent, m)
  {
    assert [m] + [] == [m];
    PrintOne(indent, m, []);
    NothingMore(LineText(if m.End? then Out(indent) else indent, m));
  }

  lemma NothingMore(s: string)
    ensures s + "" == s
  {
  }

  lemma PrintFirst(indent: nat, m: Markup, rest: seq<Markup>, xml: seq<Markup>)
    requires xml == [m] + rest && !m.End?
    ensures Print(indent, xml) == LineText(indent, m) + Print(if m.Start? then indent + 2 else indent, rest)
  {
    PrintOne(indent, m, rest);
  }

  lemma PrintTwo(indent: nat, first: Markup, end: Markup, xml: seq<Markup>)
    requires first.Empty? && end.End? && xml == [first, end]
    ensures Print(indent + 2, xml) == LineText(indent + 2, first) + LineText(indent, end)
  {
    PrintFirst(indent + 2, first, [end], xml);
    PrintLast(indent + 2, end);
  }

  lemma PrintThree(indent: nat, first: Markup, second: Markup, end: Markup, xml: seq<Markup>)
    requires first.Empty? && second.Empty? && end.End? && xml == [first, second, end]
    ensures Print(indent + 2, xml)
            == LineText(indent + 2, first) + (LineText(indent + 2, second) + LineText(indent, end))
  {
    PrintFirst(indent + 2, first, [second, end], xml);
    PrintTwo(indent, second, end, [second, end]);
  }

  lemma FourLinesAre(indent: nat, component: Markup, first: Markup, second: Markup, xml: seq<Markup>)
    requires component.Start? && first.Empty? && second.Empty?
    requires xml == [component, first, second, End("Component")]
    ensures Print(indent, xml) == FourLines(indent, component, first, second)
  {
    var inside := [first, second, End("Component")];
    PrintFirst(indent, component, inside, xml);
    PrintThree(indent, first, second, End("Component"), inside);
  }

  lemma FileTextIs(hashing: Hashing, file: ResourceFile, indent: nat)
    ensures Print(indent, FileMarkup(hashing, file)) == FileText(hashing, file, indent)
  {
    var m := FileMarkup(hashing, file);
    FourLinesAre(indent, m[0], m[1], m[2], m);
  }

  ghost predicate FilesRemaining(hashing: Hashing, files: seq<ResourceFile>, indent: nat,
                                 ids: set<string>, xml: string, allIds: set<string>, all: string) {
    && xml + Print(indent, FilesMarkup(hashing, files)) == all
    && ids + Set(FileComponents(files)) == allIds
  }

  lemma FileRendered(hashing: Hashing, files: seq<ResourceFile>, indent: nat,
                     ids: set<string>, xml: string, allIds: set<string>, all: string)
    requires files != [] && FilesRemaining(hashing, files, indent, ids, xml, allIds, all)
    ensures FilesRemaining(hashing, files[1..], indent, ids + {FileComponentId(files[0].digest)},
                           xml + FileText(hashing, files[0], indent), allIds, all)
  {
    FirstFileText(hashing, files, indent);
    Regroup(xml, FileText(hashing, files[0], indent), Print(indent, FilesMarkup(hashing, files[1..])));
    IdsCollected(ids, FileComponentId(files[0].digest), FileComponents(files[1..]));
  }

  lemma FirstFileText(hashing: Hashing, files: seq<ResourceFile>, indent: nat)
    requires files != []
    ensures Print(indent, FilesMarkup(hashing, files))
            == FileText(hashing, files[0], indent) + Print(indent, FilesMarkup(hashing, files[1..]))
  {
    FileTextIs(hashing, files[0], indent);
    RunFile(hashing, files[0], []);
    PrintBalanced(indent, FileMarkup(hashing, files[0]), FilesMarkup(hashing, files[1..]));
  }

  lemma NoFileRemains(hashing: Hashing, indent: nat, ids: set<string>, xml: string, allIds: set<string>, all: string)
    requires FilesRemaining(hashing, [], indent, ids, xml, allIds, all)
    ensures xml == all && ids == allIds
  {
    assert xml + "" == xml;
  }

  method RenderFiles(hashing: Hashing, files: seq<ResourceFile>, indent: nat, ids: set<string>, xml: string)
    returns (ids': set<string>, xml': string)
    ensures xml' == xml + Print(indent, FilesMarkup(hashing, files))
    ensures ids' == ids + Set(FileComponents(files))
  {
    ids', xml' := ids, xml;
    var i := 0;
    ghost var all, allIds := xml + Print(indent, FilesMarkup(hashing, files)), ids + Set(FileComponents(files));
    assert files[0..] == files;
    while i < |files|
      invariant 0 <= i <= |files|
      invariant FilesRemaining(hashing, files[i..], indent, ids', xml', allIds, all)
    {
      assert files[i..][1..] == files[i + 1..];
      FileRendered(hashing, files[i..], indent, ids', xml', allIds, all);
      ids' := ids' + {FileComponentId(files[i].digest)};
      xml' := xml' + FileText(hashing, files[i], indent);
      i := i + 1;
    }
    assert files[i..] == [];
    NoFileRemains(hashing, indent, ids', xml', allIds, all);
  }

  // ----- directories

  /** The five lines in front of the contents of a directory. */
  function HeaderText(hashing: Hashing, name: string, destination: string, indent: nat): string {
    var digest := hashing.sha256(destination);
    LineText(indent, Start("Directory", [("Id", DirectoryId(digest)), ("Name", EscapeXmlAttribute(name))]))
    + FourLines(indent + 2,
                ComponentStart(DirectoryComponentId(digest), hashing.guid("directory", digest)),
                Empty("RemoveFolder", [("Id", RemoveFolderId(digest)), ("On", "uninstall")]),
                KeyPath("Directory_" + digest))
  }

  lemma HeaderTextIs(hashing: Hashing, name: string, destination: string, indent: nat)
    ensures Print(indent, DirectoryHeader(hashing, name, destination))
            == HeaderText(hashing, name, destination, indent)
  {
    var m := DirectoryHeader(hashing, name, destination);
    PrintFirst(indent, m[0], m[1..], m);
    FourLinesAre(indent + 2, m[1], m[2], m[3], m[1..]);
  }

  /** A directory: its header, its contents two further in, and its end tag. */
  lemma ChildTextIs(hashing: Hashing, child: Child, destination: string, indent: nat)
    ensures var inner := Nested(destination, child.name);
            Print(indent, ChildMarkup(hashing, child, destination))
            == HeaderText(hashing, child.name, inner, indent)
               + Print(indent + 2, Contents(hashing, child.tree, inner)) + LineText(indent, End("Directory"))
  {
    var inner := Nested(destination, child.name);
    var header, contents := DirectoryHeader(hashing, child.name, inner), Contents(hashing, child.tree, inner);
    HeaderTextIs(hashing, child.name, inner, indent);
    RunHeader(hashing, child.name, inner, []);
    ContentsBalanced(hashing, child.tree, inner, []);
    PrintWrapped(indent, header, contents);
  }

  lemma PrintWrapped(indent: nat, header: seq<Markup>, contents: seq<Markup>)
    requires Run([], header) == Some([] + ["Directory"]) && Run([], contents) == Some([])
    ensures Print(indent, header + contents + [End("Directory")])
            == Print(indent, header) + Print(indent + 2, contents) + LineText(indent, End("Directory"))
  {
    var end := [End("Directory")];
    DepthFollows([], header, indent);
    DepthFollows([], contents, indent + 2);
    PrintConcat(indent, header, contents + end);
    PrintConcat(indent + 2, contents, end);
    PrintOne(indent + 2, End("Directory"), []);
    assert end + [] == end && LineText(indent, End("Directory")) + "" == LineText(indent, End("Directory"));
    Regroup(header, contents, end);
    Regroup(Print(indent, header), Print(indent + 2, contents), LineText(indent, End("Directory")));
  }

  lemma ChildRuns(hashing: Hashing, child: Child, destination: string)
    ensures Run([], ChildMarkup(hashing, child, destination)) == Some([])
  {
    var inner := Nested(destination, child.name);
    RunHeader(hashing, child.name, inner, []);
    ContentsBalanced(hashing, child.tree, inner, [] + ["Directory"]);
    RunWrapped(DirectoryHeader(hashing, child.name, inner), Contents(hashing, child.tree, inner), []);
  }

  /** What has been rendered, together with the children still to come, is all of it. */
  ghost predicate Remaining(hashing: Hashing, children: seq<Child>, destination: string, indent: nat,
                            ids: set<string>, xml: string, allIds: set<string>, all: string) {
    && xml + Print(indent, ChildrenMarkup(hashing, children, destination)) == all
    && ids + Set(ChildComponents(hashing, children, destination)) == allIds
  }

  lemma ChildRendered(hashing: Hashing, children: seq<Child>, destination: string, indent: nat,
                      ids: set<string>, xml: string, allIds: set<string>, all: string)
    requires children != [] && Remaining(hashing, children, destination, indent, ids, xml, allIds, all)
    ensures Remaining(hashing, children[1..], destination, indent,
                      ids + Set(OneChildComponents(hashing, children[0], destination)),
                      xml + Print(indent, ChildMarkup(hashing, children[0], destination)), allIds, all)
  {
    var first := ChildMarkup(hashing, children[0], destination);
    var rest := ChildrenMarkup(hashing, children[1..], destination);
    ChildRuns(hashing, children[0], destination);
    PrintBalanced(indent, first, rest);
    Regroup(xml, Print(indent, first), Print(indent, rest));
  }

  method RenderContents(hashing: Hashing, tree: Tree, destination: string, indent: nat, ids: set<string>, xml: string)
    returns (ids': set<string>, xml': string)
    ensures xml' == xml + Print(indent, Contents(hashing, tree, destination))
    ensures ids' == ids + Set(Components(hashing, tree, destination))
    decreases tree, 0
  {
    ids', xml' := RenderFiles(hashing, tree.files, indent, ids, xml);
    ghost var all := xml' + Print(indent, ChildrenMarkup(hashing, tree.children, destination));
    ghost var allIds := ids' + Set(ChildComponents(hashing, tree.children, destination));
    assert tree.children[0..] == tree.children;
    var i := 0;
    while i < |tree.children|
      invariant 0 <= i <= |tree.children|
      invariant Remaining(hashing, tree.children[i..], destination, indent, ids', xml', allIds, all)
    {
      assert tree.children[i..][1..] == tree.children[i + 1..];
      ChildRendered(hashing, tree.children[i..], destination, indent, ids', xml', allIds, all);
      ids', xml' := RenderChild(hashing, tree.children[i], destination, indent, ids', xml');
      i := i + 1;
    }
    NothingRemains(hashing, tree.children[i..], destination, indent, ids', xml', allIds, all);
    FilesThenChildren(hashing, tree, destination, indent, ids, xml, allIds, all);
  }

  lemma FilesThenChildren(hashing: Hashing, tree: Tree, destination: string, indent: nat,
                          ids: set<string>, xml: string, allIds: set<string>, all: string)
    requires all == xml + Print(indent, FilesMarkup(hashing, tree.files))
                    + Print(indent, ChildrenMarkup(hashing, tree.children, destination))
    requires allIds == ids + Set(FileComponents(tree.files)) + Set(ChildComponents(hashing, tree.children, destination))
    ensures all == xml + Print(indent, Contents(hashing, tree, destination))
    ensures allIds == ids + Set(Components(hashing, tree, destination))
  {
    var files, children := FilesMarkup(hashing, tree.files), ChildrenMarkup(hashing, tree.children, destination);
    RunFiles(hashing, tree.files, []);
    PrintBalanced(indent, files, children);
    Regroup(xml, Print(indent, files), Print(indent, children));
  }

  lemma NothingRemains(hashing: Hashing, children: seq<Child>, destination: string, indent: nat,
                       ids: set<string>, xml: string, allIds: set<string>, all: string)
    requires children == [] && Remaining(hashing, children, destination, indent, ids, xml, allIds, all)
    ensures xml == all && ids == allIds
  {
    assert xml + "" == xml;
  }

  /** One turn of the loop over the children. */
  method RenderChild(hashing: Hashing, child: Child, destination: string, indent: nat, ids: set<string>, xml: string)
    returns (ids': set<string>, xml': string)
    ensures xml' == xml + Print(indent, ChildMarkup(hashing, child, destination))
    ensures ids' == ids + Set(OneChildComponents(hashing, child, destination))
    decreases child, 1
  {
    var inner := Nested(destination, child.name);
    var header := HeaderText(hashing, child.name, inner, indent);
    ids', xml' :=
        RenderContents(hashing, child.tree, inner, indent + 2, ids + {DirectoryComponentId(hashing.sha256(inner))},
                       xml + header);
    xml' := xml' + LineText(indent, End("Directory"));
    ChildAppended(hashing, child, destination, indent, xml, header,
                  Print(indent + 2, Contents(hashing, child.tree, inner)), LineText(indent, End("Directory")));
    IdsCollected(ids, DirectoryComponentId(hashing.sha256(inner)), Components(hashing, child.tree, inner));
  }

  lemma IdsCollected(ids: set<string>, id: string, inside: seq<string>)
    ensures ids + {id} + Set(inside) == ids + Set([id] + inside)
  {
  }

  lemma ChildAppended(hashing: Hashing, child: Child, destination: string, indent: nat, xml: string, header: string,
          contents: string, end: string)
    requires header == HeaderText(hashing, child.name, Nested(destination, child.name), indent)
    requires contents == Print(indent + 2, Contents(hashing, child.tree, Nested(destination, child.name)))
    requires end == LineText(indent, End("Directory"))
    ensures xml + header + contents + end == xml + Print(indent, ChildMarkup(hashing, child, destination))
  {
    ChildTextIs(hashing, child, destination, indent);
    AppendThree(xml, header, contents, end);
  }

  lemma AppendThree(a: string, b: string, c: string, d: string)
    ensures a + b + c + d == a + (b + c + d)
  {
  }
}
