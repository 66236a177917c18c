// `resolve_local_link`: a documentation link resolved on a stack of names under the
// repository root.
module DocsLinks {
  import opened Sequences
  import opened Wrappers
  import opened SlashPaths

  datatype Component = Prefix | RootDir | CurDir | ParentDir | Normal(name: string)

  type Path = seq<Component>

  datatype LinkError = NoParentDirectory | OutsideRepository | Escapes | UnsupportedPrefix

  // ----- the components of a Unix path

  function SegmentComponents(segment: string): Path {
    if segment == "" || segment == "." then [] else if segment == ".." then [ParentDir] else [Normal(segment)]
  }

  function SegmentsComponents(segments: seq<string>): Path {
    if segments == [] then [] else SegmentComponents(segments[0]) + SegmentsComponents(segments[1..])
  }

  predicate IsAbsolute(path: string) { path != "" && path[0] == '/' }

  /** `Path::components`: only a leading dot is kept. */
  function Components(path: string): Path {
    var segments := Split(path);
    (if IsAbsolute(path) then [RootDir] else if segments[0] == "." then [CurDir] else []) + SegmentsComponents(segments)
  }

  predicate IsPlainName(name: string) { name != "" && name != "." && name != ".." && '/' !in name }

  // ----- the walk

  function Step(stack: seq<string>, component: Component): Result<seq<string>, LinkError> {
    match component
    case CurDir => Ok(stack)
    case RootDir => Ok(stack)
    case Normal(name) => Ok(stack + [name])
    case ParentDir => if stack == [] then Err(Escapes) else Ok(stack[..|stack| - 1])
    case Prefix => Err(UnsupportedPrefix)
  }

  function Walk(stack: seq<string>, path: Path): Result<seq<string>, LinkError>
    decreases path
  {
    if path == [] then Ok(stack)
    else match Step(stack, path[0]) case Ok(next) => Walk(next, path[1..]) case Err(e) => Err(e)
  }

  function Then(first: Result<seq<string>, LinkError>, path: Path): Result<seq<string>, LinkError> {
    match first case Ok(stack) => Walk(stack, path) case Err(e) => Err(e)
  }

  lemma {:induction false} WalkConcat(stack: seq<string>, a: Path, b: Path)
    ensures Walk(stack, a + b) == Then(Walk(stack, a), b)
    decreases a
  {
    if a == [] {
      assert a + b == b;
    } else {
      assert (a + b)[1..] == a[1..] + b;
      if Step(stack, a[0]).Ok? {
        WalkConcat(Step(stack, a[0]).value, a[1..], b);
      }
    }
  }

  function NormalNames(path: Path): seq<string> {
    if path == [] then []
    else NormalNames(path[..|path| - 1]) + if path[|path| - 1].Normal? then [path[|path| - 1].name] else []
  }

  function Named(names: seq<string>): (path: Path)
    ensures |path| == |names| && forall i :: 0 <= i < |names| ==> path[i] == Normal(names[i])
  {
    seq(|names|, i requires 0 <= i < |names| => Normal(names[i]))
  }

  // ----- the method

  /** `Path::parent`: nothing is above an empty path, a root or a prefix. */
  function Parent(path: Path): Option<Path> {
    if path == [] || path[|path| - 1].RootDir? || path[|path| - 1].Prefix? then None else Some(path[..|path| - 1])
  }

  /** The names of the directory of `source` below `root`. */
  function SourceDirectory(root: Path, source: Path): Result<seq<string>, LinkError> {
    match Parent(source)
    case None => Err(NoParentDirectory)
    case Some(directory) =>
      if root <= directory then Ok(NormalNames(directory[|root|..])) else Err(OutsideRepository)
  }

  /** Where a link written in `directory` leads, as names below the root. */
  function Resolve(directory: seq<string>, absolute: bool, path: Path): Result<seq<string>, LinkError> {
    Walk(if absolute then [] else directory, path)
  }

  method ResolveLocalLink(root: Path, source: Path, absolute: bool, path: Path) returns (r: Result<Path, LinkError>)
    ensures SourceDirectory(root, source).Err? ==> r == Err(SourceDirectory(root, source).error)
    ensures SourceDirectory(root, source).Ok? ==>
              var names := Resolve(SourceDirectory(root, source).value, absolute, path);
              r == if names.Ok? then Ok(root + Named(names.value)) else Err(names.error)
  {
    var parent := Parent(source);
    if parent.None? {
      return Err(NoParentDirectory);
    }
    if !(root <= parent.value) {
      return Err(OutsideRepository);
    }
    var components := [];
    if !absolute {
      components := Names(parent.value[|root|..]);
    }
    ghost var start := components;
    var i := 0;
    while i < |path|
      invariant 0 <= i <= |path|
      invariant Walk(start, path) == Walk(components, path[i..])
    {
      assert path[i..][0] == path[i] && path[i..][1..] == path[i + 1..];
      match path[i] {
        case CurDir =>
        case RootDir =>
        case Normal(name) =>
          components := components + [name];
        case ParentDir =>
          if components == [] {
            return Err(Escapes);
          }
          components := components[..|components| - 1];
        case Prefix =>
          return Err(UnsupportedPrefix);
      }
      i := i + 1;
    }
    r := Ok(root + Named(components));
  }

  /** The loop that keeps the normal components of the source directory. */
  method Names(path: Path) returns (names: seq<string>)
    ensures names == NormalNames(path)
  {
    names := [];
    var i := 0;
    while i < |path|
      invariant 0 <= i <= |path| && names == NormalNames(path[..i])
    {
      assert path[..i + 1][..i] == path[..i];
      match path[i] {
        case Normal(name) => names := names + [name];
        case CurDir => assert names + [] == names;
        case RootDir => assert names + [] == names;
        case ParentDir => assert names + [] == names;
        case Prefix => assert names + [] == names;
      }
      i := i + 1;
    }
    assert path[..i] == path;
  }

  // ----- when a link escapes

  /** Names pushed less names popped. */
  function Depth(path: Path): int {
    if path == [] then 0
    else Depth(path[..|path| - 1])
         + (if path[|path| - 1].Normal? then 1 else if path[|path| - 1].ParentDir? then -1 else 0)
  }

  /** Some prefix of the path pops more names than `available`. */
  ghost predicate Dips(available: int, path: Path) { exists n :: 0 <= n <= |path| && DipsAt(available, path, n) }

  predicate DipsAt(available: int, path: Path, n: nat)
    requires n <= |path|
  {
    available + Depth(path[..n]) < 0
  }

  predicate HasPrefix(path: Path) { exists i :: 0 <= i < |path| && path[i].Prefix? }

  lemma {:induction false} DepthStep(path: Path)
    requires path != []
    ensures Depth(path) == Depth(path[..1]) + Depth(path[1..])
  {
    var n := |path| - 1;
    if n > 0 {
      DepthStep(path[..n]);
      assert path[..n][..1] == path[..1] && path[..n][1..] == path[1..][..n - 1];
    } else {
      assert path[..1] == path && path[1..] == [];
    }
  }

  lemma DipsStep(available: nat, path: Path)
    requires path != [] && available + Depth(path[..1]) >= 0
    ensures Dips(available, path) <==> Dips(available + Depth(path[..1]), path[1..])
  {
    var after := available + Depth(path[..1]);
    forall n | 0 <= n < |path| ensures DipsAt(available, path, n + 1) <==> DipsAt(after, path[1..], n) {
      DepthStep(path[..n + 1]);
      assert path[..n + 1][..1] == path[..1] && path[..n + 1][1..] == path[1..][..n];
    }
    if Dips(available, path) {
      var n :| 0 <= n <= |path| && DipsAt(available, path, n);
      assert n > 0;
      assert DipsAt(available, path, n - 1 + 1);
      assert DipsAt(after, path[1..], n - 1);
    }
    if Dips(after, path[1..]) {
      var n :| 0 <= n <= |path[1..]| && DipsAt(after, path[1..], n);
      assert DipsAt(available, path, n + 1);
    }
  }

  /**
   * Without a path prefix, a link escapes exactly when some prefix of its components
   * pops more names than are available; otherwise its depth is the net number pushed.
   */
  lemma {:induction false} EscapesExactly(stack: seq<string>, path: Path)
    requires !HasPrefix(path)
    ensures Walk(stack, path) == Err(Escapes) <==> Dips(|stack|, path)
    ensures Walk(stack, path).Ok? <==> !Dips(|stack|, path)
    ensures Walk(stack, path).Ok? ==> |Walk(stack, path).value| == |stack| + Depth(path)
    decreases path
  {
    if path == [] {
      assert path[..0] == [];
    } else {
      assert path[..1] == [path[0]] && path[..1][..0] == [];
      assert !path[0].Prefix?;
      assert forall i :: 0 <= i < |path[1..]| ==> path[1..][i] == path[i + 1];
      DepthStep(path);
      if stack == [] && path[0].ParentDir? {
        assert DipsAt(|stack|, path, 1);
      } else {
        EscapesExactly(Step(stack, path[0]).value, path[1..]);
        DipsStep(|stack|, path);
      }
    }
  }

  /** A link with a path prefix never resolves. */
  lemma {:induction false} PrefixNeverResolves(stack: seq<string>, path: Path)
    requires HasPrefix(path)
    ensures Walk(stack, path).Err?
    decreases path
  {
    var i :| 0 <= i < |path| && path[i].Prefix?;
    if i > 0 && Step(stack, path[0]).Ok? {
      assert path[1..][i - 1] == path[i];
      PrefixNeverResolves(Step(stack, path[0]).value, path[1..]);
    }
  }

  /** The names of a resolved link come from the directory or from the link. */
  lemma {:induction false} NamesComeFromLink(stack: seq<string>, path: Path, name: string)
    requires Walk(stack, path).Ok? && name in Walk(stack, path).value
    ensures name in stack || Normal(name) in path
    decreases path
  {
    if path != [] {
      NamesComeFromLink(Step(stack, path[0]).value, path[1..], name);
    }
  }

  // ----- links as text

  lemma {:induction false} SegmentsConcat(a: seq<string>, b: seq<string>)
    ensures SegmentsComponents(a + b) == SegmentsComponents(a) + SegmentsComponents(b)
  {
    if a == [] {
      assert a + b == b;
    } else {
      SegmentsConcat(a[1..], b);
      assert (a + b)[1..] == a[1..] + b;
      Regroup(SegmentComponents(a[0]), SegmentsComponents(a[1..]), SegmentsComponents(b));
    }
  }

  /** The root and a leading dot move nothing. */
  lemma WalkSegments(stack: seq<string>, path: string)
    ensures Walk(stack, Components(path)) == Walk(stack, SegmentsComponents(Split(path)))
  {
    var rest := SegmentsComponents(Split(path));
    if IsAbsolute(path) {
      assert ([RootDir] + rest)[1..] == rest;
    } else if Split(path)[0] == "." {
      assert ([CurDir] + rest)[1..] == rest;
    } else {
      assert [] + rest == rest;
    }
  }

  function ResolveText(directory: seq<string>, target: string): Result<seq<string>, LinkError> {
    Resolve(directory, IsAbsolute(target), Components(target))
  }

  /** Resolving `a/b` is resolving `a`, then a relative `b` from there. */
  lemma LinksCompose(directory: seq<string>, a: string, b: string)
    requires a != "" && !IsAbsolute(b)
    ensures ResolveText(directory, a + "/" + b)
         == match ResolveText(directory, a) case Ok(names) => ResolveText(names, b) case Err(e) => Err(e)
  {
    var start := if IsAbsolute(a) then [] else directory;
    var joined := a + "/" + b;
    assert joined[0] == a[0];
    WalkSegments(start, joined);
    SplitConcat(a, b);
    SegmentsConcat(Split(a), Split(b));
    WalkConcat(start, SegmentsComponents(Split(a)), SegmentsComponents(Split(b)));
    WalkSegments(start, a);
    if ResolveText(directory, a).Ok? {
      WalkSegments(ResolveText(directory, a).value, b);
    }
  }

  /** On Unix every component is a plain name, a dot or a parent; there is no prefix. */
  lemma {:induction false} SegmentsArePlain(segments: seq<string>)
    requires forall segment <- segments :: '/' !in segment
    ensures !HasPrefix(SegmentsComponents(segments))
    ensures forall name :: Normal(name) in SegmentsComponents(segments) ==> IsPlainName(name)
  {
    if segments != [] {
      SegmentsArePlain(segments[1..]);
      var first, rest := SegmentComponents(segments[0]), SegmentsComponents(segments[1..]);
      assert segments[0] in segments;
      var all: Path := first + rest;
      forall i | 0 <= i < |all| ensures !all[i].Prefix? {
        if i >= |first| { assert all[i] == rest[i - |first|]; }
      }
    }
  }

  /**
   * A text link resolves to plain names only, so it stays below the root, and fails
   * only by popping more names than its start has.
   */
  lemma TextLinkStaysInside(directory: seq<string>, target: string)
    requires forall name <- directory :: IsPlainName(name)
    ensures ResolveText(directory, target).Err?
            <==> Dips(if IsAbsolute(target) then 0 else |directory|, SegmentsComponents(Split(target)))
    ensures ResolveText(directory, target).Err? ==> ResolveText(directory, target).error == Escapes
    ensures ResolveText(directory, target).Ok? ==>
              forall name <- ResolveText(directory, target).value :: IsPlainName(name)
  {
    var start := if IsAbsolute(target) then [] else directory;
    var path := SegmentsComponents(Split(target));
    WalkSegments(start, target);
    SegmentsArePlain(Split(target));
    EscapesExactly(start, path);
    if Walk(start, path).Ok? {
      forall name | name in Walk(start, path).value ensures IsPlainName(name) { NamesComeFromLink(start, path, name); }
    }
  }

  lemma {:induction false} PlainNamesWalk(stack: seq<string>, names: seq<string>)
    requires forall name <- names :: IsPlainName(name)
    ensures Walk(stack, SegmentsComponents(names)) == Ok(stack + names)
    decreases names
  {
    if names == [] {
      assert stack + names == stack;
    } else {
      assert names[0] in names;
      PlainNamesWalk(stack + [names[0]], names[1..]);
      var rest := SegmentsComponents(names[1..]);
      assert ([Normal(names[0])] + rest)[1..] == rest;
      assert stack + [names[0]] + names[1..] == stack + names;
    }
  }

  /** A resolved link, written from the root, resolves to itself from anywhere. */
  lemma ResolvedIsCanonical(directory: seq<string>, names: seq<string>)
    requires names != [] && forall name <- names :: IsPlainName(name)
    ensures ResolveText(directory, "/" + Join(names)) == Ok(names)
  {
    var target := "/" + Join(names);
    WalkSegments([], target);
    SplitJoin(names);
    assert target[0] == '/' && target[1..] == Join(names);
    assert Split(target) == [""] + names;
    assert ([""] + names)[1..] == names;
    PlainNamesWalk([], names);
    assert [] + SegmentsComponents(names) == SegmentsComponents(names);
    assert [] + names == names;
  }

  // ----- what a parent removes

  lemma WalkOne(stack: seq<string>, component: Component)
    ensures Walk(stack, [component]) == Step(stack, component)
  {
    assert [component][1..] == [];
    if Step(stack, component).Ok? {
      assert Walk(Step(stack, component).value, []) == Step(stack, component);
    }
  }

  /** A parent removes the name in front of it, wherever the two stand. */
  lemma ParentCancelsName(stack: seq<string>, a: Path, name: string, b: Path)
    requires Walk(stack, a).Ok?
    ensures Walk(stack, a + [Normal(name), ParentDir] + b) == Walk(stack, a + b)
  {
    var reached := Walk(stack, a).value;
    WalkConcat(stack, a + [Normal(name), ParentDir], b);
    WalkConcat(stack, a, [Normal(name), ParentDir]);
    WalkConcat(stack, a, b);
    WalkOne(reached, Normal(name));
    WalkOne(reached + [name], ParentDir);
    assert [Normal(name), ParentDir] == [Normal(name)] + [ParentDir];
    WalkConcat(reached, [Normal(name)], [ParentDir]);
    assert (reached + [name])[..|reached|] == reached;
  }

  /** A dot and a root inside a link move nothing, wherever they stand. */
  lemma DotsMoveNothing(stack: seq<string>, a: Path, dot: Component, b: Path)
    requires dot == CurDir || dot == RootDir
    ensures Walk(stack, a + [dot] + b) == Walk(stack, a + b)
  {
    WalkConcat(stack, a + [dot], b);
    WalkConcat(stack, a, [dot]);
    WalkConcat(stack, a, b);
    if Walk(stack, a).Ok? {
      WalkOne(Walk(stack, a).value, dot);
    }
  }

  function Parents(n: nat): Path { seq(n, _ => ParentDir) }

  lemma {:induction false} ParentsPop(stack: seq<string>, n: nat)
    ensures Walk(stack, Parents(n)) == if n <= |stack| then Ok(stack[..|stack| - n]) else Err(Escapes)
    decreases n
  {
    if n > 0 {
      assert Parents(n)[1..] == Parents(n - 1);
      if stack != [] {
        var front := stack[..|stack| - 1];
        ParentsPop(front, n - 1);
        assert n <= |stack| ==> front[..|front| - (n - 1)] == stack[..|stack| - n];
      }
    } else {
      assert Parents(0) == [] && stack[..|stack|] == stack;
    }
  }

  lemma {:induction false} NamesPush(stack: seq<string>, names: seq<string>)
    ensures Walk(stack, Named(names)) == Ok(stack + names)
    decreases names
  {
    if names == [] {
      assert stack + names == stack;
    } else {
      NamesPush(stack + [names[0]], names[1..]);
      assert Named(names)[1..] == Named(names[1..]);
      assert stack + [names[0]] + names[1..] == stack + names;
    }
  }

  /** Parents remove the last names of the start, and names are added behind what is left. */
  lemma ParentsThenNames(stack: seq<string>, n: nat, names: seq<string>)
    ensures Walk(stack, Parents(n) + Named(names))
            == if n <= |stack| then Ok(stack[..|stack| - n] + names) else Err(Escapes)
  {
    WalkConcat(stack, Parents(n), Named(names));
    ParentsPop(stack, n);
    if n <= |stack| {
      NamesPush(stack[..|stack| - n], names);
    }
  }

  /** The least number of names pushed, less those popped, over all prefixes. */
  function Lowest(path: Path): int {
    if path == [] then 0
    else
      var before := Lowest(path[..|path| - 1]);
      if Depth(path) < before then Depth(path) else before
  }

  /** A walk keeps the names of its start that no prefix pops, unchanged and in front. */
  lemma {:induction false} StartIsKept(stack: seq<string>, path: Path)
    requires Walk(stack, path).Ok?
    ensures var result := Walk(stack, path).value;
            var kept := |stack| + Lowest(path);
            && 0 <= kept <= |stack| && |result| == |stack| + Depth(path) >= kept
            && result[..kept] == stack[..kept]
    decreases |path|
  {
    if path != [] {
      var front, last := path[..|path| - 1], path[|path| - 1];
      assert path == front + [last];
      WalkConcat(stack, front, [last]);
      StartIsKept(stack, front);
      var before := Walk(stack, front).value;
      WalkOne(before, last);
      StepKeeps(stack, before, last, |stack| + Lowest(front));
    }
  }

  lemma StepKeeps(stack: seq<string>, before: seq<string>, last: Component, kept: nat)
    requires Step(before, last).Ok? && kept <= |stack| && kept <= |before| && before[..kept] == stack[..kept]
    ensures var after := Step(before, last).value;
            var now := if |after| < kept then |after| else kept;
            now <= |after| && after[..now] == stack[..now]
  {
    var after := Step(before, last).value;
    var now := if |after| < kept then |after| else kept;
    forall i | 0 <= i < now ensures after[i] == stack[i] {
      assert before[..kept][i] == stack[..kept][i];
    }
  }

  // ----- where a link starts

  /** The directory of a file of the repository, by the names of the file's path. */
  lemma DirectoryOfFile(root: Path, names: seq<string>, file: string)
    ensures SourceDirectory(root, root + Named(names) + [Normal(file)]) == Ok(names)
  {
    var source := root + Named(names) + [Normal(file)];
    assert source[..|source| - 1] == root + Named(names);
    assert (root + Named(names))[|root|..] == Named(names);
    NamesOfNamed(names);
  }

  lemma {:induction false} NamesOfNamed(names: seq<string>)
    ensures NormalNames(Named(names)) == names
  {
    if names != [] {
      var n := |names| - 1;
      NamesOfNamed(names[..n]);
      assert Named(names)[..n] == Named(names[..n]);
      assert names == names[..n] + [names[n]];
    }
  }

  /** A link `../` from a directory leads to its siblings; a link without it, below the directory. */
  lemma SiblingsAndChildren(directory: seq<string>, last: string, names: seq<string>)
    requires names != [] && forall name <- names :: IsPlainName(name)
    ensures ResolveText(directory + [last], "../" + Join(names)) == Ok(directory + names)
    ensures ResolveText(directory, Join(names)) == Ok(directory + names)
  {
    var target := Join(names);
    SplitJoin(names);
    JoinIsRelative(names);
    WalkSegments(directory, target);
    PlainNamesWalk(directory, names);
    ParentLink(directory, last);
    assert ".." + "/" + target == "../" + target;
    LinksCompose(directory + [last], "..", target);
  }

  lemma JoinIsRelative(names: seq<string>)
    requires names != [] && forall name <- names :: IsPlainName(name)
    ensures !IsAbsolute(Join(names))
  {
    assert IsPlainName(names[0]);
    assert Join(names)[0] == names[0][0];
  }

  lemma ParentLink(directory: seq<string>, last: string)
    ensures ResolveText(directory + [last], "..") == Ok(directory)
  {
    SplitPlain("..");
    WalkSegments(directory + [last], "..");
    assert SegmentsComponents([".."]) == [ParentDir] by { assert [".."][1..] == []; }
    WalkOne(directory + [last], ParentDir);
    assert (directory + [last])[..|directory|] == directory;
  }
}
