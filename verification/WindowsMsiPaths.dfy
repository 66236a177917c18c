// What the traversal of a directory tree collects and what it refuses, on the
// trails that lead from one directory into the next.
module WindowsMsiPaths {
  import opened Wrappers
  import opened SlashPaths
  import opened WindowsMsiWalk

  /** Each entry stands in the directory of the one before, the first among `entries`. */
  ghost predicate IsTrail(entries: seq<Entry>, trail: seq<Entry>) {
    && trail != [] && trail[0] in entries
    && forall i :: 0 < i < |trail| ==> IsIn(trail[i], trail[i - 1])
  }

  ghost predicate IsIn(entry: Entry, directory: Entry) {
    directory.node.Directory? && entry in directory.node.entries
  }

  ghost predicate HasNames(trail: seq<Entry>, path: seq<string>) {
    |trail| == |path| && forall i :: 0 <= i < |path| ==> trail[i].name == Some(path[i])
  }

  /** The trail leads to a regular file along the names of the path. */
  ghost predicate LeadsToFile(entries: seq<Entry>, trail: seq<Entry>, path: seq<string>) {
    path != [] && IsTrail(entries, trail) && HasNames(trail, path) && trail[|trail| - 1].node.File?
  }

  function Under(base: string, path: seq<string>): string
    requires path != []
  {
    Below(base, Join(path))
  }

  function FileAt(sha256: string -> string, source: string, destination: string, path: seq<string>): ResourceFile
    requires path != []
  {
    ResourceFile(Under(source, path), Under(destination, path), sha256(Under(destination, path)))
  }

  lemma UnderFirst(base: string, path: seq<string>)
    requires |path| > 1
    ensures Under(base, path) == Under(Below(base, path[0]), path[1..])
  {
    var rest := Join(path[1..]);
    assert base + "/" + (path[0] + "/" + rest) == base + "/" + path[0] + "/" + rest;
  }

  lemma TrailRest(entries: seq<Entry>, trail: seq<Entry>)
    requires |trail| > 1
    ensures IsTrail(entries, trail)
            <==> trail[0] in entries && trail[0].node.Directory? && IsTrail(trail[0].node.entries, trail[1..])
  {
    var rest := trail[1..];
    if IsTrail(entries, trail) {
      assert IsIn(trail[1], trail[0]);
      forall i | 0 < i < |rest| ensures IsIn(rest[i], rest[i - 1]) { assert IsIn(trail[i + 1], trail[i]); }
    }
    if trail[0] in entries && trail[0].node.Directory? && IsTrail(trail[0].node.entries, rest) {
      forall i | 0 < i < |trail| ensures IsIn(trail[i], trail[i - 1]) {
        assert i > 1 ==> IsIn(rest[i - 1], rest[i - 2]);
      }
    }
  }

  lemma RestLeadsToFile(entries: seq<Entry>, trail: seq<Entry>, path: seq<string>)
    requires |trail| == |path| > 1
    ensures LeadsToFile(entries, trail, path)
            <==> && trail[0] in entries && trail[0].name == Some(path[0]) && trail[0].node.Directory?
                 && LeadsToFile(trail[0].node.entries, trail[1..], path[1..])
  {
    TrailRest(entries, trail);
    assert forall i :: 0 < i < |path| ==> trail[1..][i - 1] == trail[i] && path[1..][i - 1] == path[i];
    assert HasNames(trail, path) <==> trail[0].name == Some(path[0]) && HasNames(trail[1..], path[1..]) by {
      if HasNames(trail[1..], path[1..]) && trail[0].name == Some(path[0]) {
        forall i | 0 <= i < |path| ensures trail[i].name == Some(path[i]) {
          assert i > 0 ==> trail[1..][i - 1].name == Some(path[1..][i - 1]);
        }
      }
    }
  }

  // ----- what is collected

  lemma {:induction false} EntryCollected(sha256: string -> string, entries: seq<Entry>, entry: Entry, source: string,
          destination: string, f: ResourceFile)
    requires entry in entries && f in CollectEntry(sha256, entry, source, destination)
    ensures f in Collect(sha256, entries, source, destination)
  {
    if entry != entries[0] {
      EntryCollected(sha256, entries[1..], entry, source, destination, f);
    }
  }

  lemma {:induction false} FileIsCollected(sha256: string -> string, entries: seq<Entry>, source: string,
          destination: string, trail: seq<Entry>, path: seq<string>)
    requires LeadsToFile(entries, trail, path)
    ensures FileAt(sha256, source, destination, path) in Collect(sha256, entries, source, destination)
    decreases |path|
  {
    var entry := trail[0];
    if |path| > 1 {
      RestLeadsToFile(entries, trail, path);
      UnderFirst(source, path);
      UnderFirst(destination, path);
      FileIsCollected(sha256, entry.node.entries, Below(source, path[0]), Below(destination, path[0]), trail[1..],
          path[1..]);
    }
    EntryCollected(sha256, entries, entry, source, destination, FileAt(sha256, source, destination, path));
  }

  lemma {:induction false} CollectedIsFile(sha256: string -> string, entries: seq<Entry>, source: string,
          destination: string, f: ResourceFile)
    returns (trail: seq<Entry>, path: seq<string>)
    requires f in Collect(sha256, entries, source, destination)
    ensures LeadsToFile(entries, trail, path) && f == FileAt(sha256, source, destination, path)
    decreases entries, 0
  {
    if f in CollectEntry(sha256, entries[0], source, destination) {
      trail, path := EntryLeadsToFile(sha256, entries, entries[0], source, destination, f);
    } else {
      trail, path := CollectedIsFile(sha256, entries[1..], source, destination, f);
    }
  }

  lemma {:induction false} EntryLeadsToFile(sha256: string -> string, entries: seq<Entry>, entry: Entry,
          source: string, destination: string, f: ResourceFile)
    returns (trail: seq<Entry>, path: seq<string>)
    requires entry in entries && f in CollectEntry(sha256, entry, source, destination)
    ensures LeadsToFile(entries, trail, path) && f == FileAt(sha256, source, destination, path)
    decreases entry, 1
  {
    var name := entry.name.value;
    if entry.node.File? {
      trail, path := [entry], [name];
    } else {
      trail, path := CollectedIsFile(sha256, entry.node.entries, Below(source, name), Below(destination, name), f);
      Prepended(entries, entry, name, trail, path);
      UnderFirst(source, [name] + path);
      UnderFirst(destination, [name] + path);
      trail, path := [entry] + trail, [name] + path;
    }
  }

  lemma Prepended(entries: seq<Entry>, entry: Entry, name: string, trail: seq<Entry>, path: seq<string>)
    requires entry in entries && entry.name == Some(name) && entry.node.Directory?
    requires LeadsToFile(entry.node.entries, trail, path)
    ensures LeadsToFile(entries, [entry] + trail, [name] + path) && ([name] + path)[1..] == path
  {
    assert ([entry] + trail)[1..] == trail;
    RestLeadsToFile(entries, [entry] + trail, [name] + path);
  }

  /** The files collected are those at the end of a trail, under the names along it. */
  lemma CollectExactly(sha256: string -> string, entries: seq<Entry>, source: string, destination: string,
          f: ResourceFile)
    ensures f in Collect(sha256, entries, source, destination)
            <==> exists trail, path ::
                   LeadsToFile(entries, trail, path) && f == FileAt(sha256, source, destination, path)
  {
    if f in Collect(sha256, entries, source, destination) {
      var trail, path := CollectedIsFile(sha256, entries, source, destination, f);
    }
    if trail, path :| LeadsToFile(entries, trail, path) && f == FileAt(sha256, source, destination, path) {
      FileIsCollected(sha256, entries, source, destination, trail, path);
    }
  }

  // ----- what is refused

  /** A regular file or a directory, with a name that can stand in a destination. */
  ghost predicate IsUsable(entry: Entry) {
    && (entry.node.File? || entry.node.Directory?)
    && entry.name.Some? && entry.name.value != "" && entry.name.value != "." && entry.name.value != ".."
  }

  ghost predicate AllAreClean(entries: seq<Entry>) { forall entry :: entry in entries ==> CleanEntry(entry) }

  lemma {:induction false} CleanMembers(entries: seq<Entry>)
    ensures Clean(entries) <==> AllAreClean(entries)
  {
    if entries != [] {
      CleanMembers(entries[1..]);
      FirstAndRest(entries);
    }
  }

  lemma FirstAndRest(entries: seq<Entry>)
    requires entries != []
    ensures AllAreClean(entries) <==> CleanEntry(entries[0]) && AllAreClean(entries[1..])
  {
    assert entries[0] in entries;
    forall entry ensures entry in entries <==> entry == entries[0] || entry in entries[1..] { }
    if AllAreClean(entries) {
      assert CleanEntry(entries[0]);
    }
  }

  lemma {:induction false} TrailIsUsable(entries: seq<Entry>, trail: seq<Entry>)
    requires Clean(entries) && IsTrail(entries, trail)
    ensures IsUsable(trail[|trail| - 1])
    decreases |trail|
  {
    CleanMembers(entries);
    assert CleanEntry(trail[0]);
    if |trail| > 1 {
      TrailRest(entries, trail);
      TrailIsUsable(trail[0].node.entries, trail[1..]);
    }
  }

  ghost predicate AllUsable(entries: seq<Entry>) {
    forall trail :: IsTrail(entries, trail) ==> IsUsable(trail[|trail| - 1])
  }

  lemma UsableBelow(entries: seq<Entry>, entry: Entry)
    requires AllUsable(entries) && entry in entries
    ensures IsUsable(entry) && (entry.node.Directory? ==> AllUsable(entry.node.entries))
  {
    assert IsTrail(entries, [entry]);
    if entry.node.Directory? {
      forall trail | IsTrail(entry.node.entries, trail) ensures IsUsable(trail[|trail| - 1]) {
        assert ([entry] + trail)[1..] == trail;
        TrailRest(entries, [entry] + trail);
        assert IsTrail(entries, [entry] + trail);
      }
    }
  }

  lemma {:induction false} UsableIsClean(entries: seq<Entry>)
    requires AllUsable(entries)
    ensures Clean(entries)
    decreases entries, 0
  {
    forall entry | entry in entries ensures CleanEntry(entry) { UsableEntryIsClean(entries, entry); }
    CleanMembers(entries);
  }

  lemma {:induction false} UsableEntryIsClean(entries: seq<Entry>, entry: Entry)
    requires AllUsable(entries) && entry in entries
    ensures CleanEntry(entry)
    decreases entry, 1
  {
    UsableBelow(entries, entry);
    if entry.node.Directory? {
      UsableIsClean(entry.node.entries);
    }
  }

  /** A tree is clean exactly when every trail ends at a usable entry. */
  lemma CleanExactly(entries: seq<Entry>)
    ensures Clean(entries) <==> AllUsable(entries)
  {
    if Clean(entries) {
      forall trail | IsTrail(entries, trail) ensures IsUsable(trail[|trail| - 1]) { TrailIsUsable(entries, trail); }
    }
    if AllUsable(entries) {
      UsableIsClean(entries);
    }
  }
}
