// The printed document, and what an XML processor reads from it.
module WindowsMsiDocument {
  import opened Wrappers
  import opened SlashPaths
  import opened WindowsMsiWalk
  import opened WindowsMsiTree
  import opened WindowsMsiRender
  import opened WindowsMsiFragment
  import opened WindowsMsiReading
  import opened WindowsMsiRoundTrip
  import opened XmlEscape
  import opened XmlMarkup

  // ----- the printed document

  /** Markup that is printed and read back, and its values. */
  predicate Printed(m: Markup) { IsMarkup(m) && (m.End? || forall a <- m.attributes :: All(XML_CHAR, a.1)) }

  lemma {:induction false} AttributesXml(attributes: seq<(string, string)>)
    requires forall a <- attributes :: All(XML_CHAR, a.0)
    ensures All(XML_CHAR, AttributesText(attributes)) <==> forall a <- attributes :: All(XML_CHAR, a.1)
  {
    if attributes != [] {
      var first := attributes[0];
      assert first in attributes && attributes == [first] + attributes[1..];
      AttributesXml(attributes[1..]);
      AllOf(XML_CHAR, AttributeText(first), AttributesText(attributes[1..]));
      AttributeXml(first);
    }
  }

  lemma AttributeXml(a: (string, string))
    requires All(XML_CHAR, a.0)
    ensures All(XML_CHAR, AttributeText(a)) <==> All(XML_CHAR, a.1)
  {
    AllOf(XML_CHAR, " ", a.0 + ("=\"" + (a.1 + "\"")));
    AllOf(XML_CHAR, a.0, "=\"" + (a.1 + "\""));
    AllOf(XML_CHAR, "=\"", a.1 + "\"");
    AllOf(XML_CHAR, a.1, "\"");
  }

  lemma NameXml(s: string)
    requires All(NameChar, s)
    ensures All(XML_CHAR, s) && IsValue(s)
  {
  }

  lemma Between(a: string, b: string, c: string, d: string)
    requires All(XML_CHAR, a) && All(XML_CHAR, b) && All(XML_CHAR, d)
    ensures All(XML_CHAR, a + (b + (c + d))) <==> All(XML_CHAR, c)
  {
    AllOf(XML_CHAR, a, b + (c + d));
    AllOf(XML_CHAR, b, c + d);
    AllOf(XML_CHAR, c, d);
  }

  lemma TagXml(m: Markup)
    requires IsMarkup(m)
    ensures All(XML_CHAR, TagText(m)) <==> Printed(m)
  {
    NameXml(m.tag);
    if m.End? {
      Between("</", m.tag, ">", "");
      assert ">" + "" == ">";
    } else {
      forall a | a in m.attributes ensures All(XML_CHAR, a.0) { NameXml(a.0); }
      AttributesXml(m.attributes);
      Between("<", m.tag, AttributesText(m.attributes), if m.Start? then ">" else " />");
    }
  }

  lemma {:induction false} SpacesXml(n: nat)
    ensures All(XML_CHAR, Spaces(n))
  {
    if n > 0 {
      SpacesXml(n - 1);
    }
  }

  lemma LineXml(indent: nat, m: Markup)
    requires IsMarkup(m)
    ensures All(XML_CHAR, LineText(indent, m)) <==> Printed(m)
  {
    TagXml(m);
    SpacesXml(indent);
    AllOf(XML_CHAR, Spaces(indent), TagText(m) + "\n");
    AllOf(XML_CHAR, TagText(m), "\n");
  }

  ghost predicate AreMarkup(xml: seq<Markup>) { forall m <- xml :: IsMarkup(m) }

  ghost predicate ArePrinted(xml: seq<Markup>) { forall m <- xml :: Printed(m) }

  /** The printed text is of allowed characters exactly when all values in it are. */
  lemma {:induction false} PrintXml(indent: nat, xml: seq<Markup>)
    requires AreMarkup(xml)
    ensures All(XML_CHAR, Print(indent, xml)) <==> ArePrinted(xml)
    decreases |xml|
  {
    if xml != [] {
      var m, rest := xml[0], xml[1..];
      var at := if m.End? then Out(indent) else indent;
      var after := if m.Start? then indent + 2 else at;
      assert xml == [m] + rest && m in xml;
      PrintOne(indent, m, rest);
      PrintXml(after, rest);
      LineXml(at, m);
      AllOf(XML_CHAR, LineText(at, m), Print(after, rest));
    }
  }

  lemma Joined(a: seq<Markup>, b: seq<Markup>)
    ensures AreMarkup(a + b) <==> AreMarkup(a) && AreMarkup(b)
    ensures ArePrinted(a + b) <==> ArePrinted(a) && ArePrinted(b)
  {
    assert forall m :: m in a + b <==> m in a || m in b;
  }

  // ----- the elements of the document

  lemma EscapedValue(s: string)
    ensures IsValue(EscapeXmlAttribute(s))
    ensures All(XML_CHAR, EscapeXmlAttribute(s)) <==> All(XML_CHAR, s)
  {
    var e := EscapeXmlAttribute(s);
    EscapedIsSafe(s);
    forall i | 0 <= i < |e| ensures e[i] != '"' && e[i] != '<' {
      assert SafeAt(e, i);
    }
    PassesAreOneMap(s);
    EscapedXml(s);
  }

  lemma ShortName(prefix: string, digest: string)
    requires All(NameChar, prefix) && All(NameChar, digest)
    ensures All(NameChar, prefix + Short(digest)) && All(NameChar, prefix + digest)
  {
    AllOf(NameChar, prefix, digest);
    AllOf(NameChar, prefix, Short(digest));
    assert forall c :: c in Short(digest) ==> c in digest;
  }

  /** An attribute whose name and value are letters, digits and the like. */
  predicate PlainAttribute(a: (string, string)) { IsName(a.0) && All(NameChar, a.1) }

  lemma PlainMarkup(m: Markup)
    requires IsName(m.tag) && (m.End? || forall a <- m.attributes :: PlainAttribute(a))
    ensures Printed(m)
  {
    if !m.End? {
      forall a | a in m.attributes ensures IsName(a.0) && IsValue(a.1) && All(XML_CHAR, a.1) {
        assert PlainAttribute(a);
        NameXml(a.1);
      }
    }
  }

  lemma ComponentPrinted(id: string, guid: string)
    requires All(NameChar, id) && All(NameChar, guid)
    ensures Printed(ComponentStart(id, guid)) && Printed(End("Component"))
  {
    PlainMarkup(ComponentStart(id, guid));
    PlainMarkup(End("Component"));
  }

  /** An attribute that may hold other characters than a name. */
  predicate NeatAttribute(a: (string, string)) { IsName(a.0) && IsValue(a.1) && All(XML_CHAR, a.1) }

  lemma KeyIsPrinted(name: string)
    requires All(NameChar, name)
    ensures Printed(KeyPath(name))
  {
    RegistryKeyPrinted();
    KeyAttributes();
    NameXml(name);
    NameXml("RegistryValue");
    SixAttributes("RegistryValue", ("Root", "HKCU"), ("Key", REGISTRY_KEY), ("Name", name), ("Type", "integer"),
                  ("Value", "1"), ("KeyPath", "yes"));
  }

  lemma KeyAttributes()
    ensures NeatAttribute(("Root", "HKCU")) && NeatAttribute(("Type", "integer"))
    ensures NeatAttribute(("Value", "1")) && NeatAttribute(("KeyPath", "yes"))
    ensures IsName("Key") && IsName("Name")
  {
  }

  lemma SixAttributes(tag: string, a: (string, string), b: (string, string), c: (string, string), d: (string, string),
          e: (string, string), f: (string, string))
    requires IsName(tag)
    requires NeatAttribute(a) && NeatAttribute(b) && NeatAttribute(c) && NeatAttribute(d) && NeatAttribute(e)
    requires NeatAttribute(f)
    ensures Printed(Empty(tag, [a, b, c, d, e, f]))
  {
  }

  lemma RegistryKeyPrinted()
    ensures IsValue(REGISTRY_KEY) && All(XML_CHAR, REGISTRY_KEY)
  {
    KeyParts();
    FirstPartNeat();
    SecondPartNeat();
    ThirdPartNeat();
    Neat("io.github.airwiki\\", "AirWiki\\Components");
    Neat("Software\\", "io.github.airwiki\\" + "AirWiki\\Components");
  }

  lemma KeyParts()
    ensures REGISTRY_KEY == "Software\\" + ("io.github.airwiki\\" + "AirWiki\\Components")
  {
  }

  lemma FirstPartNeat()
    ensures IsValue("Software\\") && All(XML_CHAR, "Software\\")
  {
  }

  lemma SecondPartNeat()
    ensures IsValue("io.github.airwiki\\") && All(XML_CHAR, "io.github.airwiki\\")
  {
  }

  lemma ThirdPartNeat()
    ensures IsValue("AirWiki\\Components") && All(XML_CHAR, "AirWiki\\Components")
  {
  }

  lemma Neat(a: string, b: string)
    ensures IsValue(a + b) <==> IsValue(a) && IsValue(b)
    ensures All(XML_CHAR, a + b) <==> All(XML_CHAR, a) && All(XML_CHAR, b)
  {
    AllOf(XML_CHAR, a, b);
  }

  lemma FileElementPrinted(file: ResourceFile)
    requires All(NameChar, file.digest)
    ensures IsMarkup(FileElement(file))
    ensures Printed(FileElement(file)) <==> FileHas(ALLOWED, file)
  {
    EscapedValue(file.destination);
    EscapedValue(file.source);
    ShortName("AirWikiFile_", file.digest);
    NameXml(FileId(file.digest));
    ThreeAttributes(FileId(file.digest), EscapeXmlAttribute(file.destination), EscapeXmlAttribute(file.source));
  }

  lemma ThreeAttributes(id: string, name: string, source: string)
    requires IsValue(id) && IsValue(name) && IsValue(source) && All(XML_CHAR, id)
    ensures var m := Empty("File", [("Id", id), ("Name", name), ("Source", source)]);
            IsMarkup(m) && (Printed(m) <==> All(XML_CHAR, name) && All(XML_CHAR, source))
  {
    var a := [("Id", id), ("Name", name), ("Source", source)];
    assert a[0] in a && a[1] in a && a[2] in a;
  }

  lemma FileIsPrinted(hashing: Hashing, file: ResourceFile)
    requires IsHashing(hashing) && All(NameChar, file.digest)
    ensures AreMarkup(FileMarkup(hashing, file))
    ensures ArePrinted(FileMarkup(hashing, file)) <==> FileHas(ALLOWED, file)
  {
    var component, key := FileMarkup(hashing, file)[0], FileMarkup(hashing, file)[2];
    FileElementPrinted(file);
    FileComponentPrinted(file.digest, hashing.guid("file", file.digest), component);
    FileKeyPrinted(file.digest, key);
    FourPrinted(component, FileElement(file), key, End("Component"));
  }

  lemma FilePrefix()
    ensures All(NameChar, "AirWikiFileComponent_")
  {
  }

  lemma DirectoryPrefix()
    ensures All(NameChar, "AirWikiDirComponent_")
  {
  }

  lemma FileComponentPrinted(digest: string, guid: string, m: Markup)
    requires All(NameChar, digest) && All(NameChar, guid) && m == ComponentStart(FileComponentId(digest), guid)
    ensures Printed(m) && Printed(End("Component"))
  {
    FilePrefix();
    ShortName("AirWikiFileComponent_", digest);
    ComponentPrinted(FileComponentId(digest), guid);
  }

  lemma FileKeyPrinted(digest: string, m: Markup)
    requires All(NameChar, digest) && m == KeyPath("File_" + digest)
    ensures Printed(m)
  {
    ShortName("File_", digest);
    KeyIsPrinted("File_" + digest);
  }

  lemma FourPrinted(a: Markup, b: Markup, c: Markup, d: Markup)
    requires Printed(a) && IsMarkup(b) && Printed(c) && Printed(d)
    ensures AreMarkup([a, b, c, d]) && (ArePrinted([a, b, c, d]) <==> Printed(b))
  {
    assert b in [a, b, c, d];
  }

  lemma HeaderIsPrinted(hashing: Hashing, name: string, destination: string)
    requires IsHashing(hashing)
    ensures AreMarkup(DirectoryHeader(hashing, name, destination))
    ensures ArePrinted(DirectoryHeader(hashing, name, destination)) <==> All(XML_CHAR, name)
  {
    var digest := hashing.sha256(destination);
    DirectoryPrinted(name, digest);
    DirectoryComponentPrinted(digest, hashing.guid("directory", digest));
    RemovalPrinted(digest);
    DirectoryKeyPrinted(digest);
    FivePrinted(Start("Directory", [("Id", DirectoryId(digest)), ("Name", EscapeXmlAttribute(name))]),
                ComponentStart(DirectoryComponentId(digest), hashing.guid("directory", digest)),
                Empty("RemoveFolder", [("Id", RemoveFolderId(digest)), ("On", "uninstall")]),
                KeyPath("Directory_" + digest), End("Component"));
  }

  lemma DirectoryComponentPrinted(digest: string, guid: string)
    requires All(NameChar, digest) && All(NameChar, guid)
    ensures Printed(ComponentStart(DirectoryComponentId(digest), guid)) && Printed(End("Component"))
  {
    DirectoryPrefix();
    ShortName("AirWikiDirComponent_", digest);
    ComponentPrinted(DirectoryComponentId(digest), guid);
  }

  lemma RemovalPrinted(digest: string)
    requires All(NameChar, digest)
    ensures Printed(Empty("RemoveFolder", [("Id", RemoveFolderId(digest)), ("On", "uninstall")]))
  {
    ShortName("AirWikiRemoveDir_", digest);
    TwoAttributes("RemoveFolder", ("Id", RemoveFolderId(digest)), ("On", "uninstall"));
  }

  lemma TwoAttributes(tag: string, a: (string, string), b: (string, string))
    requires IsName(tag) && PlainAttribute(a) && PlainAttribute(b)
    ensures Printed(Empty(tag, [a, b]))
  {
    PlainMarkup(Empty(tag, [a, b]));
  }

  lemma DirectoryKeyPrinted(digest: string)
    requires All(NameChar, digest)
    ensures Printed(KeyPath("Directory_" + digest))
  {
    ShortName("Directory_", digest);
    KeyIsPrinted("Directory_" + digest);
  }

  lemma DirectoryPrinted(name: string, digest: string)
    requires All(NameChar, digest)
    ensures var m := Start("Directory", [("Id", DirectoryId(digest)), ("Name", EscapeXmlAttribute(name))]);
            IsMarkup(m) && (Printed(m) <==> All(XML_CHAR, name))
  {
    EscapedValue(name);
    ShortName("AirWikiDir_", digest);
    NameXml(DirectoryId(digest));
    NamedDirectory(DirectoryId(digest), EscapeXmlAttribute(name));
  }

  lemma NamedDirectory(id: string, name: string)
    requires IsValue(id) && IsValue(name) && All(XML_CHAR, id)
    ensures var m := Start("Directory", [("Id", id), ("Name", name)]);
            IsMarkup(m) && (Printed(m) <==> All(XML_CHAR, name))
  {
    var a := [("Id", id), ("Name", name)];
    assert a[0] in a && a[1] in a;
  }

  lemma FivePrinted(a: Markup, b: Markup, c: Markup, d: Markup, e: Markup)
    requires IsMarkup(a) && Printed(b) && Printed(c) && Printed(d) && Printed(e)
    ensures AreMarkup([a, b, c, d, e]) && (ArePrinted([a, b, c, d, e]) <==> Printed(a))
  {
    assert a in [a, b, c, d, e];
  }

  lemma {:induction false} FilesArePrinted(hashing: Hashing, files: seq<ResourceFile>)
    requires IsHashing(hashing) && forall file <- files :: FileHas(DIGESTED, file)
    ensures AreMarkup(FilesMarkup(hashing, files))
    ensures ArePrinted(FilesMarkup(hashing, files)) <==> forall file <- files :: FileHas(ALLOWED, file)
  {
    if files != [] {
      assert FileHas(DIGESTED, files[0]);
      FileIsPrinted(hashing, files[0]);
      FilesArePrinted(hashing, files[1..]);
      Joined(FileMarkup(hashing, files[0]), FilesMarkup(hashing, files[1..]));
      FirstHas(ALLOWED, files);
    }
  }

  lemma FirstHas(p: Property, files: seq<ResourceFile>)
    requires files != []
    ensures (forall file <- files :: FileHas(p, file))
            <==> FileHas(p, files[0]) && forall file <- files[1..] :: FileHas(p, file)
  {
    assert files == [files[0]] + files[1..];
  }

  /** The contents are printed of allowed characters exactly when all names and sources are. */
  lemma {:induction false} ContentsPrinted(hashing: Hashing, tree: Tree, destination: string)
    requires IsHashing(hashing) && TreeHas(DIGESTED, tree)
    ensures AreMarkup(Contents(hashing, tree, destination))
    ensures ArePrinted(Contents(hashing, tree, destination)) <==> TreeHas(ALLOWED, tree)
    decreases tree, 1
  {
    FilesArePrinted(hashing, tree.files);
    ChildrenPrinted(hashing, tree.children, destination);
    Joined(FilesMarkup(hashing, tree.files), ChildrenMarkup(hashing, tree.children, destination));
  }

  lemma {:induction false} ChildrenPrinted(hashing: Hashing, children: seq<Child>, destination: string)
    requires IsHashing(hashing) && ChildrenHave(DIGESTED, children)
    ensures AreMarkup(ChildrenMarkup(hashing, children, destination))
    ensures ArePrinted(ChildrenMarkup(hashing, children, destination)) <==> ChildrenHave(ALLOWED, children)
    decreases children, 0
  {
    if children != [] {
      var child, inner := children[0], Nested(destination, children[0].name);
      HeaderIsPrinted(hashing, child.name, inner);
      ContentsPrinted(hashing, child.tree, inner);
      ChildrenPrinted(hashing, children[1..], destination);
      EndIsPrinted();
      ThreeJoined(DirectoryHeader(hashing, child.name, inner), Contents(hashing, child.tree, inner),
                  [End("Directory")]);
      Joined(ChildMarkup(hashing, child, destination), ChildrenMarkup(hashing, children[1..], destination));
    }
  }

  lemma EndIsPrinted()
    ensures AreMarkup([End("Directory")]) && ArePrinted([End("Directory")])
  {
    PlainMarkup(End("Directory"));
  }

  lemma ThreeJoined(a: seq<Markup>, b: seq<Markup>, c: seq<Markup>)
    ensures AreMarkup(a + b + c) <==> AreMarkup(a) && AreMarkup(b) && AreMarkup(c)
    ensures ArePrinted(a + b + c) <==> ArePrinted(a) && ArePrinted(b) && ArePrinted(c)
  {
    Joined(a + b, c);
    Joined(a, b);
  }

  lemma {:induction false} FileIdsPlain(files: seq<ResourceFile>)
    requires forall file <- files :: FileHas(DIGESTED, file)
    ensures forall id <- FileComponents(files) :: All(NameChar, id)
  {
    if files != [] {
      assert FileHas(DIGESTED, files[0]);
      ShortName("AirWikiFileComponent_", files[0].digest);
      FileIdsPlain(files[1..]);
    }
  }

  lemma {:induction false} IdsPlain(hashing: Hashing, tree: Tree, destination: string)
    requires IsHashing(hashing) && TreeHas(DIGESTED, tree)
    ensures forall id <- Components(hashing, tree, destination) :: All(NameChar, id)
    decreases tree, 1
  {
    FileIdsPlain(tree.files);
    ChildIdsPlain(hashing, tree.children, destination);
  }

  lemma {:induction false} ChildIdsPlain(hashing: Hashing, children: seq<Child>, destination: string)
    requires IsHashing(hashing) && ChildrenHave(DIGESTED, children)
    ensures forall id <- ChildComponents(hashing, children, destination) :: All(NameChar, id)
    decreases children, 0
  {
    if children != [] {
      var inner := Nested(destination, children[0].name);
      ShortName("AirWikiDirComponent_", hashing.sha256(inner));
      IdsPlain(hashing, children[0].tree, inner);
      ChildIdsPlain(hashing, children[1..], destination);
    }
  }

  lemma {:induction false} RefsPrinted(ids: seq<string>)
    requires forall id <- ids :: All(NameChar, id)
    ensures ArePrinted(ComponentRefs(ids))
  {
    if ids != [] {
      var n := |ids| - 1;
      assert ids[n] in ids && forall id <- ids[..n] :: id in ids;
      RefsPrinted(ids[..n]);
      IdPrinted("ComponentRef", ids[n]);
    }
  }

  lemma FramePrinted()
    ensures ArePrinted(HEAD) && ArePrinted(MIDDLE) && ArePrinted(TAIL)
  {
    NamespacePrinted();
    FragmentPrinted();
    EndsPrinted();
    GroupEndPrinted();
    DirectoryRefPrinted();
    GroupPrinted();
    assert HEAD == [HEAD[0], HEAD[1], HEAD[2]];
    assert MIDDLE == [MIDDLE[0], MIDDLE[1], HEAD[1], MIDDLE[3]];
    assert TAIL == [TAIL[0], MIDDLE[1], TAIL[2]];
  }

  lemma FragmentPrinted()
    ensures Printed(Start("Fragment", [])) && Printed(End("Fragment"))
  {
    PlainMarkup(Start("Fragment", []));
    PlainMarkup(End("Fragment"));
  }

  lemma EndsPrinted()
    ensures Printed(End("DirectoryRef")) && Printed(End("Wix"))
  {
    PlainMarkup(End("DirectoryRef"));
    PlainMarkup(End("Wix"));
  }

  lemma GroupEndPrinted()
    ensures Printed(End("ComponentGroup"))
  {
    PlainMarkup(End("ComponentGroup"));
  }

  lemma DirectoryRefPrinted()
    ensures Printed(HEAD[2])
  {
    IdPrinted("DirectoryRef", "INSTALLDIR");
  }

  lemma GroupPrinted()
    ensures Printed(MIDDLE[3])
  {
    IdPrinted("ComponentGroup", "AirWikiResources");
  }

  lemma IdPrinted(tag: string, id: string)
    requires IsName(tag) && All(NameChar, id)
    ensures Printed(Start(tag, [("Id", id)])) && Printed(Empty(tag, [("Id", id)]))
  {
    PlainMarkup(Start(tag, [("Id", id)]));
    PlainMarkup(Empty(tag, [("Id", id)]));
  }

  lemma NamespacePrinted()
    ensures Printed(HEAD[0])
  {
    NamespaceNeat();
    OneAttribute("xmlns", "http://schemas.microsoft.com/wix/2006/wi");
  }

  lemma OneAttribute(name: string, value: string)
    requires IsName(name) && IsValue(value) && All(XML_CHAR, value)
    ensures Printed(Start("Wix", [(name, value)]))
  {
  }

  lemma NamespaceNeat()
    ensures var s := "http://schemas.microsoft.com/wix/2006/wi"; IsValue(s) && All(XML_CHAR, s)
  {
    NamespaceParts();
    NamespaceFront();
    NamespaceBack();
    Neat("http://schemas.", "microsoft.com/wix/2006/wi");
  }

  lemma NamespaceParts()
    ensures "http://schemas.microsoft.com/wix/2006/wi" == "http://schemas." + "microsoft.com/wix/2006/wi"
  {
  }

  lemma NamespaceFront()
    ensures IsValue("http://schemas.") && All(XML_CHAR, "http://schemas.")
  {
  }

  lemma NamespaceBack()
    ensures IsValue("microsoft.com/wix/2006/wi") && All(XML_CHAR, "microsoft.com/wix/2006/wi")
  {
  }

  lemma PrologXml()
    ensures All(XML_CHAR, PROLOG)
  {
  }

  // ----- from the resources to the document and back

  /** The document is of allowed characters exactly when all names and sources are. */
  lemma DocumentPrinted(hashing: Hashing, tree: Tree, refs: seq<string>)
    requires IsHashing(hashing) && TreeHas(DIGESTED, tree)
    requires forall id :: id in refs <==> id in Components(hashing, tree, "")
    ensures var xml := Document(Contents(hashing, tree, ""), refs);
            AreMarkup(xml) && (ArePrinted(xml) <==> TreeHas(ALLOWED, tree))
  {
    var contents, group := Contents(hashing, tree, ""), ComponentRefs(refs);
    ContentsPrinted(hashing, tree, "");
    IdsPlain(hashing, tree, "");
    RefsPrinted(refs);
    FramePrinted();
    Joined(HEAD, contents);
    Joined(HEAD + contents, MIDDLE);
    Joined(HEAD + contents + MIDDLE, group);
    Joined(HEAD + contents + MIDDLE + group, TAIL);
    PrintedIsMarkup(HEAD);
    PrintedIsMarkup(MIDDLE);
    PrintedIsMarkup(TAIL);
    PrintedIsMarkup(group);
  }

  lemma PrintedIsMarkup(xml: seq<Markup>)
    requires ArePrinted(xml)
    ensures AreMarkup(xml)
  {
  }

  lemma ContentsBehindHead(contents: seq<Markup>, refs: seq<string>, rest: seq<Markup>)
    requires rest == MIDDLE + ComponentRefs(refs) + TAIL
    ensures var xml := Document(contents, refs); |xml| >= 3 && xml[3..] == contents + rest
    ensures Stops(rest)
  {
    assert Document(contents, refs) == HEAD + (contents + rest);
    assert |HEAD| == 3 && rest[0] == MIDDLE[0];
  }

  lemma PrologThen(rest: string)
    ensures PROLOG <= PROLOG + rest && (PROLOG + rest)[|PROLOG|..] == rest
  {
  }

  /** What a processor finds in the printed document. */
  lemma DocumentReads(hashing: Hashing, tree: Tree, refs: seq<string>, text: string)
    requires IsHashing(hashing) && TreeHas(DIGESTED, tree)
    requires forall id :: id in refs <==> id in Components(hashing, tree, "")
    requires text == PROLOG + Print(0, Document(Contents(hashing, tree, ""), refs))
    ensures ReadDocument(text) == if TreeHas(ALLOWED, tree) then Some(Flatten(Blanked(tree), [])) else None
  {
    var contents := Contents(hashing, tree, "");
    var xml, rest := Document(contents, refs), MIDDLE + ComponentRefs(refs) + TAIL;
    DocumentPrinted(hashing, tree, refs);
    PrintXml(0, xml);
    PrologXml();
    AllOf(XML_CHAR, PROLOG, Print(0, xml));
    PrologThen(Print(0, xml));
    PrintedIsRead(0, xml);
    DocumentBalanced(hashing, tree, refs);
    ContentsBehindHead(contents, refs, rest);
    ReadContents(hashing, tree, "", rest);
    DecodedIs(tree);
  }

  /**
   * The resources are read from the printed document as they were given exactly
   * when no name and no source has a character below the space in it, or one of the
   * two others that XML excludes.
   */
  lemma DocumentIsReadBack(hashing: Hashing, resources: seq<ResourceFile>, refs: seq<string>, text: string)
    requires IsHashing(hashing) && forall r <- resources :: All(NameChar, r.digest)
    requires forall id :: id in refs <==> id in Components(hashing, Build(resources), "")
    requires text == PROLOG + Print(0, Document(Contents(hashing, Build(resources), ""), refs))
    ensures ReadDocument(text) == Some(Inputs(resources))
            <==> forall r <- resources :: Printable(r.destination) && Printable(r.source)
  {
    forall r | r in resources ensures PlaceHas(DIGESTED, Split(r.destination), r) { }
    BuildHas(DIGESTED, resources);
    BuildHas(ALLOWED, resources);
    DocumentReads(hashing, Build(resources), refs, text);
    ReadAsGiven(resources);
    ResourcesPrintable(resources);
  }

  /** A file name with a tab in it is read with a space in its place. */
  lemma TabIsLost(hashing: Hashing, file: ResourceFile, refs: seq<string>, text: string)
    requires IsHashing(hashing) && All(NameChar, file.digest) && file.destination == "a\tb"
    requires forall id :: id in refs <==> id in Components(hashing, Build([file]), "")
    requires text == PROLOG + Print(0, Document(Contents(hashing, Build([file]), ""), refs))
    ensures ReadDocument(text) != Some(Inputs([file]))
  {
    DocumentIsReadBack(hashing, [file], refs, text);
    assert file in [file] && file.destination[1] == '\t' && file.destination[1] in file.destination;
  }
}
