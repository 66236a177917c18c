// `add_tree` and `add_file`: the resource set of the MSI installer, filled by a
// walk with an explicit stack over directories on disk.
module WindowsMsiWalk {
  import opened Wrappers
  import opened SlashPaths

  /** What `symlink_metadata` says about a path. A directory's entries are listed in file-name order. */
  datatype Node = File | Directory(entries: seq<Entry>) | Symlink | Special

  /** `name` is `None` where the file name is not Unicode. */
  datatype Entry = Entry(name: Option<string>, node: Node)

  datatype ResourceFile = ResourceFile(source: string, destination: string, digest: string)

  datatype WalkError =
    | NotADirectory | NotUnicode | BadSegment | SymbolicLink | NotRegular
    | NotAbsolute | BadDestination | DuplicateDestination

  predicate ValidSegment(segment: string) {
    segment != "" && segment != "." && segment != ".."
  }

  /** `validate_destination`; an absolute path has an empty first segment. */
  predicate ValidDestination(destination: string) {
    '\\' !in destination && forall segment <- Split(destination) :: ValidSegment(segment)
  }

  predicate Absolute(path: string) { path != "" && path[0] == '/' }

  function Below(path: string, name: string): string { path + "/" + name }

  // ----- the recursive traversal

  /** Every regular file under the entries, under its joined destination. */
  function Collect(sha256: string -> string, entries: seq<Entry>, source: string,
          destination: string): seq<ResourceFile>
    decreases entries, 0
  {
    if entries == [] then []
    else CollectEntry(sha256, entries[0], source, destination) + Collect(sha256, entries[1..], source, destination)
  }

  function CollectEntry(sha256: string -> string, entry: Entry, source: string, destination: string): seq<ResourceFile>
    decreases entry, 1
  {
    match entry
    case Entry(Some(name), File) =>
      [ResourceFile(Below(source, name), Below(destination, name), sha256(Below(destination, name)))]
    case Entry(Some(name), Directory(entries)) =>
      Collect(sha256, entries, Below(source, name), Below(destination, name))
    case _ => []
  }

  /** Only regular files and directories with usable names, all the way down. */
  predicate Clean(entries: seq<Entry>)
    decreases entries, 0
  {
    entries == [] || (CleanEntry(entries[0]) && Clean(entries[1..]))
  }

  predicate CleanEntry(entry: Entry)
    decreases entry, 1
  {
    && entry.name.Some? && ValidSegment(entry.name.value)
    && (entry.node.File? || (entry.node.Directory? && Clean(entry.node.entries)))
  }

  lemma {:induction false} CleanLast(entries: seq<Entry>, i: nat)
    requires i < |entries|
    ensures Clean(entries[..i + 1]) <==> Clean(entries[..i]) && CleanEntry(entries[i])
    decreases i
  {
    var upTo, before := entries[..i + 1], entries[..i];
    if i > 0 {
      CleanLast(entries[1..], i - 1);
      assert upTo[1..] == entries[1..][..i] && before[1..] == entries[1..][..i - 1];
    } else {
      assert upTo == [entries[0]] && upTo[1..] == [];
    }
  }

  lemma {:induction false} CollectLast(sha256: string -> string, entries: seq<Entry>, i: nat, source: string,
          destination: string)
    requires i < |entries|
    ensures Collect(sha256, entries[..i + 1], source, destination)
         == Collect(sha256, entries[..i], source, destination) + CollectEntry(sha256, entries[i], source, destination)
    decreases i
  {
    var upTo, before := entries[..i + 1], entries[..i];
    if i > 0 {
      CollectLast(sha256, entries[1..], i - 1, source, destination);
      assert upTo[1..] == entries[1..][..i] && before[1..] == entries[1..][..i - 1];
      assert upTo[0] == before[0] == entries[0] && entries[1..][i - 1] == entries[i];
    } else {
      assert upTo == [entries[0]] && upTo[1..] == [];
    }
  }

  // ----- the walk's stack

  datatype Pending = Pending(entries: seq<Entry>, source: string, destination: string)

  ghost function Remaining(sha256: string -> string, pending: seq<Pending>): multiset<ResourceFile> {
    if pending == [] then multiset{}
    else
      var n := |pending| - 1;
      Remaining(sha256, pending[..n])
        + multiset(Collect(sha256, pending[n].entries, pending[n].source, pending[n].destination))
  }

  ghost predicate AllClean(pending: seq<Pending>) {
    forall p <- pending :: Clean(p.entries)
  }

  /** Entries on and below a level; what the walk still has to visit. */
  ghost function Size(entries: seq<Entry>): nat
    decreases entries, 0
  {
    if entries == [] then 0 else EntrySize(entries[0]) + Size(entries[1..])
  }

  ghost function EntrySize(entry: Entry): nat
    decreases entry, 1
  {
    1 + if entry.node.Directory? then Size(entry.node.entries) else 0
  }

  ghost function Work(pending: seq<Pending>): nat {
    if pending == [] then 0
    else
      var n := |pending| - 1;
      Work(pending[..n]) + 1 + 2 * Size(pending[n].entries)
  }

  lemma {:induction false} SizeLast(entries: seq<Entry>, i: nat)
    requires i < |entries|
    ensures Size(entries[..i + 1]) == Size(entries[..i]) + EntrySize(entries[i])
    decreases i
  {
    var upTo, before := entries[..i + 1], entries[..i];
    if i > 0 {
      SizeLast(entries[1..], i - 1);
      assert upTo[1..] == entries[1..][..i] && before[1..] == entries[1..][..i - 1];
    } else {
      assert upTo == [entries[0]] && upTo[1..] == [];
    }
  }

  // ----- what may be added to a resource set

  predicate Acceptable(file: ResourceFile) {
    Absolute(file.source) && ValidDestination(file.destination)
  }

  /** The files can all be added: acceptable, new, and no two with one destination. */
  ghost predicate Compatible(files: map<string, ResourceFile>, added: multiset<ResourceFile>) {
    && (forall f :: f in added ==> Acceptable(f) && f.destination !in files && added[f] == 1)
    && (forall f, g :: f in added && g in added && f.destination == g.destination ==> f == g)
  }

  /** `after` is `files` with exactly the added files inserted under their destinations. */
  ghost predicate Extends(files: map<string, ResourceFile>, added: multiset<ResourceFile>,
                          after: map<string, ResourceFile>) {
    Compatible(files, added) && Holds(files, added, after)
  }

  ghost predicate Holds(files: map<string, ResourceFile>, added: multiset<ResourceFile>,
                        after: map<string, ResourceFile>) {
    && (forall d :: d in after ==> d in files || (after[d] in added && after[d].destination == d))
    && (forall d :: d in files ==> d in after && after[d] == files[d])
    && (forall f :: f in added ==> f.destination in after && after[f.destination] == f)
  }

  lemma ExtendByOne(files: map<string, ResourceFile>, added: multiset<ResourceFile>, after: map<string, ResourceFile>,
          file: ResourceFile)
    requires Extends(files, added, after) && Acceptable(file) && file.destination !in after
    ensures Extends(files, added + multiset{file}, after[file.destination := file])
  {
    assert file.destination !in files;
    assert forall f :: f in added ==> f.destination != file.destination;
    CompatibleWithOne(files, added, file);
    HoldsOneMore(files, added, after, file, added + multiset{file});
  }

  lemma HoldsOneMore(files: map<string, ResourceFile>, added: multiset<ResourceFile>, after: map<string, ResourceFile>,
                     file: ResourceFile, all: multiset<ResourceFile>)
    requires Holds(files, added, after) && file.destination !in after
    requires forall f :: f in all <==> f in added || f == file
    ensures Holds(files, all, after[file.destination := file])
  {
  }

  lemma CompatibleWithOne(files: map<string, ResourceFile>, added: multiset<ResourceFile>, file: ResourceFile)
    requires Compatible(files, added) && Acceptable(file) && file.destination !in files
    requires forall f :: f in added ==> f.destination != file.destination
    ensures Compatible(files, added + multiset{file})
  {
    assert file !in added;
    assert forall f :: f in added + multiset{file} <==> f in added || f == file;
  }

  /** A file that cannot be added now cannot be part of any compatible whole. */
  lemma CannotExtend(files: map<string, ResourceFile>, added: multiset<ResourceFile>, after: map<string, ResourceFile>,
          file: ResourceFile, whole: multiset<ResourceFile>)
    requires Extends(files, added, after) && added + multiset{file} <= whole
    requires !Acceptable(file) || file.destination in after
    ensures !Compatible(files, whole)
  {
    assert file in whole;
  }

  // ----- a directory tree has no clashes of its own

  /** What a file system guarantees: no slash in a name, and no name twice in one directory. */
  ghost predicate Plain(entries: seq<Entry>)
    decreases entries, 0
  {
    entries == []
        || (PlainEntry(entries[0]) && Plain(entries[1..]) && forall e <- entries[1..] :: e.name != entries[0].name)
  }

  ghost predicate PlainEntry(entry: Entry)
    decreases entry, 1
  {
    && entry.name.Some? && '/' !in entry.name.value && '\\' !in entry.name.value
    && (entry.node.Directory? ==> Plain(entry.node.entries))
  }

  /** `path` lies under `directory`, in or at the entry called `name`. */
  ghost predicate In(path: string, directory: string, name: string) {
    exists rest :: path == Below(directory, rest) && Split(rest)[0] == name
  }

  lemma InOneEntry(path: string, directory: string, a: string, b: string)
    requires In(path, directory, a) && In(path, directory, b)
    ensures a == b
  {
    var x :| path == Below(directory, x) && Split(x)[0] == a;
    var y :| path == Below(directory, y) && Split(y)[0] == b;
    assert path[|directory| + 1..] == x && path[|directory| + 1..] == y;
  }

  ghost predicate DistinctDestinations(files: seq<ResourceFile>) {
    forall i, j :: 0 <= i < j < |files| ==> files[i].destination != files[j].destination
  }

  lemma {:induction false} EntryDestinations(sha256: string -> string, entry: Entry, source: string,
          destination: string)
    requires PlainEntry(entry) && CleanEntry(entry) && Absolute(source) && ValidDestination(destination)
    ensures DistinctDestinations(CollectEntry(sha256, entry, source, destination))
    ensures forall f <- CollectEntry(sha256, entry, source, destination) ::
              Acceptable(f) && In(f.destination, destination, entry.name.value)
    decreases entry, 1
  {
    var name := entry.name.value;
    var inner := Below(destination, name);
    SplitConcat(destination, name);
    SplitPlain(name);
    if entry.node.Directory? {
      Destinations(sha256, entry.node.entries, Below(source, name), inner);
      forall f | f in CollectEntry(sha256, entry, source, destination)
        ensures In(f.destination, destination, name)
      {
        var e :| e in entry.node.entries && e.name.Some? && In(f.destination, inner, e.name.value);
        InNested(f.destination, destination, name, e.name.value);
      }
    } else {
      assert Below(destination, name) == inner && Split(name)[0] == name;
    }
  }

  lemma InNested(path: string, directory: string, name: string, inner: string)
    requires '/' !in name && In(path, Below(directory, name), inner)
    ensures In(path, directory, name)
  {
    var rest :| path == Below(Below(directory, name), rest) && Split(rest)[0] == inner;
    SplitAtSlash(name, rest);
    assert path == Below(directory, name + "/" + rest);
  }

  lemma {:induction false} Destinations(sha256: string -> string, entries: seq<Entry>, source: string,
          destination: string)
    requires Plain(entries) && Clean(entries) && Absolute(source) && ValidDestination(destination)
    ensures DistinctDestinations(Collect(sha256, entries, source, destination))
    ensures forall f <- Collect(sha256, entries, source, destination) ::
              Acceptable(f) && exists e :: e in entries && e.name.Some? && In(f.destination, destination, e.name.value)
    decreases entries, 0
  {
    if entries != [] {
      var first, others :=
          CollectEntry(sha256, entries[0], source, destination), Collect(sha256, entries[1..], source, destination);
      EntryDestinations(sha256, entries[0], source, destination);
      Destinations(sha256, entries[1..], source, destination);
      assert entries[0] in entries && forall e <- entries[1..] :: e in entries;
      forall f, g | f in first && g in others
        ensures f.destination != g.destination
      {
        var e :| e in entries[1..] && e.name.Some? && In(g.destination, destination, e.name.value);
        if f.destination == g.destination {
          InOneEntry(f.destination, destination, entries[0].name.value, e.name.value);
        }
      }
      JoinDistinct(first, others);
    }
  }

  lemma JoinDistinct(a: seq<ResourceFile>, b: seq<ResourceFile>)
    requires DistinctDestinations(a) && DistinctDestinations(b)
    requires forall f, g :: f in a && g in b ==> f.destination != g.destination
    ensures DistinctDestinations(a + b)
  {
    forall i, j | 0 <= i < j < |a + b|
      ensures (a + b)[i].destination != (a + b)[j].destination
    {
      if i < |a| <= j {
        assert (a + b)[i] in a && (a + b)[j] in b;
      }
    }
  }

  lemma {:induction false} DistinctCounts(files: seq<ResourceFile>)
    requires DistinctDestinations(files)
    ensures forall f <- files :: multiset(files)[f] == 1
    ensures forall f, g :: f in files && g in files && f.destination == g.destination ==> f == g
  {
    if files != [] {
      var rest := files[1..];
      assert files == [files[0]] + rest;
      DistinctCounts(rest);
      forall g | g in rest
        ensures g.destination != files[0].destination
      {
        var j :| 0 <= j < |rest| && rest[j] == g;
        assert g == files[j + 1];
      }
    }
  }

  /** For a real directory tree, the only clash left is with destinations that were there before. */
  lemma TreeClashesOnlyWithOthers(sha256: string -> string, root: Pending, files: map<string, ResourceFile>)
    requires Plain(root.entries) && Clean(root.entries) && Absolute(root.source) && ValidDestination(root.destination)
    ensures Succeeds(sha256, root, files)
       <==> forall f :: f in Files(sha256, root) ==> f.destination !in files
  {
    Destinations(sha256, root.entries, root.source, root.destination);
    DistinctCounts(Collect(sha256, root.entries, root.source, root.destination));
  }

  // ----- the invariant of the walk

  /**
   * The directory being listed is `top`, cut to the entries still to be visited.
   * What was added, what is on the stack and what is left of `top` make up the
   * whole traversal, and nothing unclean has been passed.
   */
  ghost predicate Walking(sha256: string -> string, root: Pending, before: map<string, ResourceFile>,
                          files: map<string, ResourceFile>, added: multiset<ResourceFile>, pending: seq<Pending>,
                          top: Pending) {
    && Extends(before, added, files)
    && added + Remaining(sha256, pending) + Files(sha256, top) == Files(sha256, root)
    && (Clean(root.entries) <==> AllClean(pending) && Clean(top.entries))
  }

  ghost function Files(sha256: string -> string, p: Pending): multiset<ResourceFile> {
    multiset(Collect(sha256, p.entries, p.source, p.destination))
  }

  ghost predicate Succeeds(sha256: string -> string, root: Pending, before: map<string, ResourceFile>) {
    Clean(root.entries) && Compatible(before, Files(sha256, root))
  }

  lemma PopClean(pending: seq<Pending>)
    requires pending != []
    ensures var n := |pending| - 1; AllClean(pending) <==> AllClean(pending[..n]) && Clean(pending[n].entries)
  {
    var n := |pending| - 1;
    assert forall p :: p in pending <==> p in pending[..n] || p == pending[n];
  }

  lemma PushPending(sha256: string -> string, pending: seq<Pending>, p: Pending)
    ensures AllClean(pending + [p]) <==> AllClean(pending) && Clean(p.entries)
    ensures Remaining(sha256, pending + [p])
         == Remaining(sha256, pending) + multiset(Collect(sha256, p.entries, p.source, p.destination))
    ensures Work(pending + [p]) == Work(pending) + 1 + 2 * Size(p.entries)
  {
    assert (pending + [p])[..|pending|] == pending;
    PopClean(pending + [p]);
  }

  /** `top` without its last entry, and that entry. */
  ghost function Shorter(top: Pending): Pending
    requires top.entries != []
  {
    top.(entries := top.entries[..|top.entries| - 1])
  }

  lemma LastEntry(sha256: string -> string, top: Pending)
    requires top.entries != []
    ensures var entry := top.entries[|top.entries| - 1];
            && (Clean(top.entries) <==> Clean(Shorter(top).entries) && CleanEntry(entry))
            && Files(sha256, top)
                == Files(sha256, Shorter(top)) + multiset(CollectEntry(sha256, entry, top.source, top.destination))
            && Size(top.entries) == Size(Shorter(top).entries) + EntrySize(entry)
  {
    var i := |top.entries| - 1;
    assert top.entries[..i + 1] == top.entries;
    CleanLast(top.entries, i);
    CollectLast(sha256, top.entries, i, top.source, top.destination);
    SizeLast(top.entries, i);
  }

  lemma StartWalk(sha256: string -> string, root: Pending, files: map<string, ResourceFile>)
    ensures Walking(sha256, root, files, files, multiset{}, [root], Pending([], "", ""))
  {
    assert [root][..0] == [];
    PopClean([root]);
  }

  lemma PopTop(sha256: string -> string, root: Pending, before: map<string, ResourceFile>,
               files: map<string, ResourceFile>, added: multiset<ResourceFile>, pending: seq<Pending>)
    requires pending != [] && Walking(sha256, root, before, files, added, pending, Pending([], "", ""))
    ensures Walking(sha256, root, before, files, added, pending[..|pending| - 1], pending[|pending| - 1])
  {
    PopClean(pending);
  }

  lemma FinishTop(sha256: string -> string, root: Pending, before: map<string, ResourceFile>,
                  files: map<string, ResourceFile>, added: multiset<ResourceFile>, pending: seq<Pending>, top: Pending)
    requires top.entries == [] && Walking(sha256, root, before, files, added, pending, top)
    ensures Walking(sha256, root, before, files, added, pending, Pending([], "", ""))
  {
  }

  lemma EndWalk(sha256: string -> string, root: Pending, before: map<string, ResourceFile>,
                files: map<string, ResourceFile>, added: multiset<ResourceFile>)
    requires Walking(sha256, root, before, files, added, [], Pending([], "", ""))
    ensures Succeeds(sha256, root, before) && Extends(before, Files(sha256, root), files)
  {
    assert added == Files(sha256, root);
  }

  lemma DirtyEntry(sha256: string -> string, root: Pending, before: map<string, ResourceFile>,
                   files: map<string, ResourceFile>, added: multiset<ResourceFile>, pending: seq<Pending>, top: Pending)
    requires top.entries != [] && !CleanEntry(top.entries[|top.entries| - 1])
    requires Walking(sha256, root, before, files, added, pending, top)
    ensures !Succeeds(sha256, root, before)
    ensures !Clean(root.entries)
  {
    LastEntry(sha256, top);
  }

  lemma VisitDirectory(sha256: string -> string, root: Pending, before: map<string, ResourceFile>,
                       files: map<string, ResourceFile>, added: multiset<ResourceFile>, pending: seq<Pending>,
                       top: Pending, p: Pending)
    requires top.entries != [] && Walking(sha256, root, before, files, added, pending, top)
    requires var entry := top.entries[|top.entries| - 1];
             && entry.name.Some? && ValidSegment(entry.name.value) && entry.node == Directory(p.entries)
             && p.source == Below(top.source, entry.name.value)
                 && p.destination == Below(top.destination, entry.name.value)
    ensures Walking(sha256, root, before, files, added, pending + [p], Shorter(top))
    ensures Work(pending + [p]) + 2 * Size(Shorter(top).entries) < Work(pending) + 2 * Size(top.entries)
  {
    LastEntry(sha256, top);
    PushPending(sha256, pending, p);
  }

  lemma VisitFile(sha256: string -> string, root: Pending, before: map<string, ResourceFile>,
                  files: map<string, ResourceFile>, added: multiset<ResourceFile>, pending: seq<Pending>, top: Pending,
                  file: ResourceFile)
    requires top.entries != [] && Walking(sha256, root, before, files, added, pending, top)
    requires var entry := top.entries[|top.entries| - 1];
             && entry.name.Some? && ValidSegment(entry.name.value) && entry.node.File?
             && CollectEntry(sha256, entry, top.source, top.destination) == [file]
    ensures if Acceptable(file) && file.destination !in files
            then Walking(sha256, root, before, files[file.destination := file],
                         added + multiset{file}, pending, Shorter(top))
            else !Succeeds(sha256, root, before)
    ensures Size(Shorter(top).entries) < Size(top.entries)
  {
    LastEntry(sha256, top);
    if Acceptable(file) && file.destination !in files {
      ExtendByOne(before, added, files, file);
    } else {
      CannotExtend(before, added, files, file, Files(sha256, root));
    }
  }

  class ResourceSet {
    var files: map<string, ResourceFile>
    const sha256: string -> string

    constructor (sha256: string -> string)
      ensures files == map[] && this.sha256 == sha256
    {
      files := map[];
      this.sha256 := sha256;
    }

    /**
     * A regular file with an absolute source and a valid destination is entered,
     * and only then is it found to be a duplicate: the entry that was there is
     * replaced all the same. `node` is what `source` is, if it can be inspected.
     */
    method AddFile(node: Option<Node>, source: string, destination: string) returns (r: Result<(), WalkError>)
      modifies this`files
      ensures var file := ResourceFile(source, destination, sha256(destination));
              if node == Some(File) && Acceptable(file)
              then (r.Ok? <==> destination !in old(files)) && files == old(files)[destination := file]
              else r.Err? && files == old(files)
    {
      if node.None? || !node.value.File? {
        return Err(NotRegular);
      }
      if !Absolute(source) {
        return Err(NotAbsolute);
      }
      if !ValidDestination(destination) {
        return Err(BadDestination);
      }
      var isNew := destination !in files;
      files := files[destination := ResourceFile(source, destination, sha256(destination))];
      return if isNew then Ok(()) else Err(DuplicateDestination);
    }

    /** One turn of the inner loop: the last entry still to be visited of the directory `top`. */
    method VisitEntry(entry: Entry, pending: seq<Pending>, top: Pending,
                      ghost root: Pending, ghost before: map<string, ResourceFile>, ghost added: multiset<ResourceFile>)
      returns (r: Result<(), WalkError>, pending': seq<Pending>, ghost added': multiset<ResourceFile>)
      requires top.entries != [] && entry == top.entries[|top.entries| - 1]
      requires Walking(sha256, root, before, files, added, pending, top)
      modifies this`files
      ensures r.Err? ==> !Succeeds(sha256, root, before)
      ensures r.Ok? ==> Walking(sha256, root, before, files, added', pending', Shorter(top))
      ensures r.Ok? ==> Work(pending') + 2 * Size(Shorter(top).entries) < Work(pending) + 2 * Size(top.entries)
    {
      pending', added' := pending, added;
      if !CleanEntry(entry) {
        DirtyEntry(sha256, root, before, files, added, pending, top);
      }
      if entry.name.None? {
        return Err(NotUnicode), pending, added;
      }
      var name := entry.name.value;
      if !ValidSegment(name) {
        return Err(BadSegment), pending, added;
      }
      match entry.node {
        case Symlink =>
          return Err(SymbolicLink), pending, added;
        case Special =>
          return Err(NotRegular), pending, added;
        case Directory(entries) =>
          var below := Pending(entries, Below(top.source, name), Below(top.destination, name));
          VisitDirectory(sha256, root, before, files, added, pending, top, below);
          return Ok(()), pending + [below], added;
        case File =>
          ghost var file := ResourceFile(Below(top.source, name), Below(top.destination, name),
                                         sha256(Below(top.destination, name)));
          VisitFile(sha256, root, before, files, added, pending, top, file);
          r := AddFile(Some(entry.node), Below(top.source, name), Below(top.destination, name));
          added' := added + multiset{file};
      }
    }

    /**
     * Terminates on every finite tree and adds exactly the files of the recursive
     * traversal. It fails exactly when the root is not a directory, something in
     * the tree is not a regular file or directory with a usable name, or a file
     * cannot be added.
     */
    method AddTree(node: Node, source: string, destination: string) returns (r: Result<(), WalkError>)
      modifies this`files
      ensures r.Ok? <==> node.Directory? && Succeeds(sha256, Pending(node.entries, source, destination), old(files))
      ensures r.Ok? ==> Extends(old(files), Files(sha256, Pending(node.entries, source, destination)), files)
    {
      if !node.Directory? {
        return Err(NotADirectory);
      }
      ghost var added, root := multiset{}, Pending(node.entries, source, destination);
      var pending := [Pending(node.entries, source, destination)];
      StartWalk(sha256, root, files);
      while pending != []
        invariant Walking(sha256, root, old(files), files, added, pending, Pending([], "", ""))
        decreases Work(pending)
      {
        PopTop(sha256, root, old(files), files, added, pending);
        var top := pending[|pending| - 1];
        ghost var work := Work(pending);
        pending := pending[..|pending| - 1];
        while top.entries != []
          invariant Walking(sha256, root, old(files), files, added, pending, top)
          invariant Work(pending) + 2 * Size(top.entries) < work
          decreases |top.entries|
        {
          var entry := top.entries[|top.entries| - 1];
          var outcome;
          outcome, pending, added := VisitEntry(entry, pending, top, root, old(files), added);
          if outcome.Err? {
            return outcome;
          }
          top := top.(entries := top.entries[..|top.entries| - 1]);
        }
        FinishTop(sha256, root, old(files), files, added, pending, top);
      }
      EndWalk(sha256, root, old(files), files, added);
      return Ok(());
    }
  }
}
