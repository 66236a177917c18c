// `render_fragment`: the whole document, from the resources to the component group.
module WindowsMsiFragment {
  import opened Wrappers
  import opened Sequences
  import opened SlashPaths
  import opened WindowsMsiWalk
  import opened WindowsMsiTree
  import opened WindowsMsiRender
  import opened WindowsMsiText
  import opened XmlMarkup

  // ----- the ids in the order of a `BTreeSet`

  predicate InOrder(ids: seq<string>) { forall i, j :: 0 <= i < j < |ids| ==> NameLess(ids[i], ids[j]) }

  function InsertId(id: string, ids: seq<string>): seq<string> {
    if ids == [] || NameLess(id, ids[0]) then [id] + ids
    else if id == ids[0] then ids
    else [ids[0]] + InsertId(id, ids[1..])
  }

  lemma {:induction false} InsertIdKeepsOrder(id: string, ids: seq<string>)
    requires InOrder(ids)
    ensures InOrder(InsertId(id, ids))
    ensures forall other :: other in InsertId(id, ids) <==> other == id || other in ids
  {
    if ids != [] && !NameLess(id, ids[0]) && id != ids[0] {
      var rest := InsertId(id, ids[1..]);
      InsertIdKeepsOrder(id, ids[1..]);
      NameOrder(id, ids[0], id);
      assert ids == [ids[0]] + ids[1..];
      forall j | 0 <= j < |rest| ensures NameLess(ids[0], rest[j]) { assert rest[j] in rest; }
    } else if ids != [] && NameLess(id, ids[0]) {
      forall j | 0 <= j < |ids| ensures NameLess(id, ids[j]) { NameOrder(id, ids[0], ids[j]); }
    }
  }

  lemma EmptyTogether(a: seq<string>, b: seq<string>)
    requires forall id :: id in a <==> id in b
    ensures a == [] <==> b == []
  {
    if a != [] {
      assert a[0] in a;
    }
    if b != [] {
      assert b[0] in b;
    }
  }

  /** The order leaves one way to list a set. */
  lemma {:induction false} OrderIsUnique(a: seq<string>, b: seq<string>)
    requires InOrder(a) && InOrder(b) && forall id :: id in a <==> id in b
    ensures a == b
  {
    EmptyTogether(a, b);
    if a != [] {
      FirstIsLeast(a, b[0]);
      FirstIsLeast(b, a[0]);
      NameOrder(a[0], b[0], a[0]);
      forall id ensures id in a[1..] <==> id in b[1..] {
        RestOf(a, id);
        RestOf(b, id);
      }
      OrderIsUnique(a[1..], b[1..]);
      assert a == [a[0]] + a[1..] && b == [b[0]] + b[1..];
    }
  }

  lemma FirstIsLeast(ids: seq<string>, id: string)
    requires InOrder(ids) && id in ids
    ensures id == ids[0] || NameLess(ids[0], id)
  {
  }

  lemma RestOf(ids: seq<string>, id: string)
    requires InOrder(ids) && ids != []
    ensures id in ids[1..] <==> id in ids && id != ids[0]
  {
    assert ids == [ids[0]] + ids[1..];
  }

  method Listed(ids: set<string>) returns (list: seq<string>)
    ensures InOrder(list) && forall id :: id in list <==> id in ids
  {
    list := [];
    var rest := ids;
    while rest != {}
      invariant rest <= ids && InOrder(list) && forall id :: id in list <==> id in ids - rest
      decreases |rest|
    {
      var id :| id in rest;
      InsertIdKeepsOrder(id, list);
      list := InsertId(id, list);
      rest := rest - {id};
    }
  }

  // ----- the document

  const HEAD: seq<Markup> := [
    Start("Wix", [("xmlns", "http://schemas.microsoft.com/wix/2006/wi")]),
    Start("Fragment", []),
    Start("DirectoryRef", [("Id", "INSTALLDIR")])]

  const MIDDLE: seq<Markup> := [
    End("DirectoryRef"), End("Fragment"), Start("Fragment", []),
    Start("ComponentGroup", [("Id", "AirWikiResources")])]

  const TAIL: seq<Markup> := [End("ComponentGroup"), End("Fragment"), End("Wix")]

  function ComponentRef(id: string): Markup { Empty("ComponentRef", [("Id", id)]) }

  function ComponentRefs(ids: seq<string>): seq<Markup> {
    if ids == [] then [] else ComponentRefs(ids[..|ids| - 1]) + [ComponentRef(ids[|ids| - 1])]
  }

  function Document(contents: seq<Markup>, ids: seq<string>): seq<Markup> {
    HEAD + contents + MIDDLE + ComponentRefs(ids) + TAIL
  }

  const PROLOG := "<?xml version=\"1.0\" encoding=\"UTF-8\"?>\n"

  /** The tree built one destination at a time, its contents, and its components, each referred to once, in order. */
  method RenderFragment(hashing: Hashing, resources: seq<ResourceFile>) returns (xml: string, ghost refs: seq<string>)
    ensures xml == PROLOG + Print(0, Document(Contents(hashing, Build(resources), ""), refs))
    ensures InOrder(refs) && forall id :: id in refs <==> id in Components(hashing, Build(resources), "")
  {
    var root := EMPTY;
    var i := 0;
    while i < |resources|
      invariant 0 <= i <= |resources|
      invariant root == Build(resources[..i])
    {
      assert resources[..i + 1][..i] == resources[..i];
      root := Put(root, Split(resources[i].destination), resources[i]);
      i := i + 1;
    }
    assert resources[..i] == resources;
    var ids;
    ids, xml := RenderContents(hashing, root, "", 6, {}, PROLOG + Print(0, HEAD));
    var listed := Listed(ids);
    refs := listed;
    xml := RenderRefs(xml + Print(6, MIDDLE), listed);
    xml := xml + Print(6, TAIL);
    DocumentText(hashing, root, refs);
  }

  /** The loop over the listed components. */
  method RenderRefs(before: string, refs: seq<string>) returns (xml: string)
    ensures xml == before + Print(6, ComponentRefs(refs))
  {
    xml := before;
    var i := 0;
    assert before + "" == before;
    while i < |refs|
      invariant 0 <= i <= |refs| && xml == before + Print(6, ComponentRefs(refs[..i]))
    {
      assert refs[..i + 1][..i] == refs[..i];
      RefText(refs[..i + 1]);
      Regroup(before, Print(6, ComponentRefs(refs[..i])), LineText(6, ComponentRef(refs[i])));
      xml := xml + LineText(6, ComponentRef(refs[i]));
      i := i + 1;
    }
    assert refs[..i] == refs;
  }

  lemma {:induction false} RunRefs(ids: seq<string>, open: seq<string>)
    ensures Run(open, ComponentRefs(ids)) == Some(open)
  {
    if ids != [] {
      var n := |ids| - 1;
      RunRefs(ids[..n], open);
      RunConcat(open, ComponentRefs(ids[..n]), [ComponentRef(ids[n])]);
      assert [ComponentRef(ids[n])][1..] == [];
    }
  }

  /** Every element of the document is closed, in order. */
  lemma DocumentBalanced(hashing: Hashing, tree: Tree, ids: seq<string>)
    ensures Run([], Document(Contents(hashing, tree, ""), ids)) == Some([])
  {
    var contents, refs := Contents(hashing, tree, ""), ComponentRefs(ids);
    var inDirectory, inGroup := ["Wix", "Fragment", "DirectoryRef"], ["Wix", "Fragment", "ComponentGroup"];
    RunHead();
    ContentsBalanced(hashing, tree, "", inDirectory);
    RunMiddle();
    RunRefs(ids, inGroup);
    RunTail();
    RunConcat([], HEAD, contents);
    RunConcat([], HEAD + contents, MIDDLE);
    RunConcat([], HEAD + contents + MIDDLE, refs);
    RunConcat([], HEAD + contents + MIDDLE + refs, TAIL);
  }

  lemma RunStart(open: seq<string>, tag: string, attributes: seq<(string, string)>, rest: seq<Markup>)
    ensures Run(open, [Start(tag, attributes)] + rest) == Run(open + [tag], rest)
  {
    assert ([Start(tag, attributes)] + rest)[1..] == rest;
  }

  lemma RunEnd(open: seq<string>, tag: string, rest: seq<Markup>)
    ensures Run(open + [tag], [End(tag)] + rest) == Run(open, rest)
  {
    assert ([End(tag)] + rest)[1..] == rest && (open + [tag])[..|open|] == open;
  }

  /** Three elements opened, one in the other. */
  lemma RunThreeStarts(first: Markup, second: Markup, third: Markup)
    requires first.Start? && second.Start? && third.Start?
    ensures Run([], [first, second, third]) == Some([first.tag, second.tag, third.tag])
  {
    RunStart([], first.tag, first.attributes, [second, third]);
    RunStart([first.tag], second.tag, second.attributes, [third]);
    RunStart([first.tag, second.tag], third.tag, third.attributes, []);
    assert [first, second, third] == [first] + [second, third] && [second, third] == [second] + [third];
    assert [] + [first.tag] == [first.tag] && [first.tag] + [second.tag] == [first.tag, second.tag];
    assert [first.tag, second.tag] + [third.tag] == [first.tag, second.tag, third.tag];
    assert [third] + [] == [third];
  }

  lemma RunTwoEnds(open: seq<string>, outer: string, inner: string, rest: seq<Markup>)
    ensures Run(open + [outer] + [inner], [End(inner)] + ([End(outer)] + rest)) == Run(open, rest)
  {
    RunEnd(open + [outer], inner, [End(outer)] + rest);
    RunEnd(open, outer, rest);
  }

  lemma RunHead()
    ensures Run([], HEAD) == Some(["Wix", "Fragment", "DirectoryRef"])
  {
    RunThreeStarts(HEAD[0], HEAD[1], HEAD[2]);
    assert HEAD == [HEAD[0], HEAD[1], HEAD[2]];
  }

  /** Two elements closed and two others opened in their place. */
  lemma RunTurn(first: string, outer: string, inner: string, second: Markup, third: Markup)
    requires second.Start? && third.Start?
    ensures Run([first, outer, inner], [End(inner), End(outer), second, third])
            == Some([first, second.tag, third.tag])
  {
    RunTwoEnds([first], outer, inner, [second, third]);
    RunStart([first], second.tag, second.attributes, [third]);
    RunStart([first, second.tag], third.tag, third.attributes, []);
    assert [first] + [outer] + [inner] == [first, outer, inner] && [third] + [] == [third];
    assert [End(inner)] + ([End(outer)] + [second, third]) == [End(inner), End(outer), second, third];
    assert [second, third] == [second] + [third] && [first] + [second.tag] == [first, second.tag];
    assert [first, second.tag] + [third.tag] == [first, second.tag, third.tag];
  }

  lemma RunMiddle()
    ensures Run(["Wix", "Fragment", "DirectoryRef"], MIDDLE) == Some(["Wix", "Fragment", "ComponentGroup"])
  {
    RunTurn("Wix", "Fragment", "DirectoryRef", MIDDLE[2], MIDDLE[3]);
    assert MIDDLE == [End("DirectoryRef"), End("Fragment"), MIDDLE[2], MIDDLE[3]];
  }

  lemma RunThreeEnds(outer: string, middle: string, inner: string)
    ensures Run([outer, middle, inner], [End(inner), End(middle), End(outer)]) == Some([])
  {
    RunTwoEnds([outer], middle, inner, [End(outer)]);
    RunEnd([], outer, []);
    assert [outer] + [middle] + [inner] == [outer, middle, inner];
    assert [End(inner)] + ([End(middle)] + [End(outer)]) == [End(inner), End(middle), End(outer)];
    assert [] + [outer] == [outer] && [End(outer)] + [] == [End(outer)];
  }

  lemma RunTail()
    ensures Run(["Wix", "Fragment", "ComponentGroup"], TAIL) == Some([])
  {
    RunThreeEnds("Wix", "Fragment", "ComponentGroup");
  }

  // ----- the printed document

  lemma RefText(refs: seq<string>)
    requires refs != []
    ensures var n := |refs| - 1;
            Print(6, ComponentRefs(refs)) == Print(6, ComponentRefs(refs[..n])) + LineText(6, ComponentRef(refs[n]))
  {
    var n := |refs| - 1;
    var last := ComponentRef(refs[n]);
    RunRefs(refs[..n], []);
    PrintBalanced(6, ComponentRefs(refs[..n]), [last]);
    PrintOne(6, last, []);
    assert [last] + [] == [last] && LineText(6, last) + "" == LineText(6, last);
  }

  /** The pieces that are appended make up the printed document. */
  lemma DocumentText(hashing: Hashing, tree: Tree, refs: seq<string>)
    ensures var contents := Contents(hashing, tree, "");
            PROLOG + Print(0, HEAD) + Print(6, contents) + Print(6, MIDDLE) + Print(6, ComponentRefs(refs))
            + Print(6, TAIL)
            == PROLOG + Print(0, Document(contents, refs))
  {
    var contents, group := Contents(hashing, tree, ""), ComponentRefs(refs);
    RunHead();
    DepthFollows([], HEAD, 0);
    ContentsBalanced(hashing, tree, "", []);
    DepthFollows([], contents, 6);
    RunMiddle();
    DepthFollows(["Wix", "Fragment", "DirectoryRef"], MIDDLE, 6);
    RunRefs(refs, []);
    DepthFollows([], group, 6);
    PrintFive(HEAD, contents, MIDDLE, group, TAIL);
    JoinFive(PROLOG, Print(0, HEAD), Print(6, contents), Print(6, MIDDLE), Print(6, group), Print(6, TAIL));
  }

  lemma PrintFive(a: seq<Markup>, b: seq<Markup>, c: seq<Markup>, d: seq<Markup>, e: seq<Markup>)
    requires Depth(0, a) == 6 && Depth(6, b) == 6 && Depth(6, c) == 6 && Depth(6, d) == 6
    ensures Print(0, a + b + c + d + e)
            == Print(0, a) + (Print(6, b) + (Print(6, c) + (Print(6, d) + Print(6, e))))
  {
    assert a + b + c + d + e == a + (b + (c + (d + e)));
    PrintConcat(0, a, b + (c + (d + e)));
    PrintConcat(6, b, c + (d + e));
    PrintConcat(6, c, d + e);
    PrintConcat(6, d, e);
  }

  lemma JoinFive(p: string, a: string, b: string, c: string, d: string, e: string)
    ensures p + a + b + c + d + e == p + (a + (b + (c + (d + e))))
  {
  }

  /** From the resources to the markup and back: the document holds exactly the given triples. */
  lemma DocumentHoldsResources(hashing: Hashing, resources: seq<ResourceFile>)
    ensures var (read, rest) := Read(Contents(hashing, Build(resources), ""));
            rest == [] && Flatten(Unescaped(read), []) == Inputs(resources)
  {
    RenderedIsReadBack(hashing, Build(resources), "");
    BuildFlatten(resources);
  }
}
