# Release and evaluation tooling: a verified model

AirWiki's release tooling decides what is shipped: it scans packaging scripts, collects legal
texts and installer resources, checks an evaluation corpus and scores retrieval runs. Each of
those decisions rests on a small algorithm. This project models these algorithms in Dafny and
proves what the rest of the tooling relies on.

| modules | what they model |
|---|---|
| `LineEndings`, `Utf8`, `PowerShellLexer`, `PowerShellSegments`, `PowerShellViews`, `PowerShellSearch` | the PowerShell source masker, a grammar it is proved against, and the search for executable text |
| `PowerShellOverlap`, `PowerShellOverlapScript`, `PowerShellCompleteness`, `PowerShellFunctions` | when that search finds every executable occurrence, in a script and in one of its functions |
| `Substrings`, `KeySearch` | the search for the updater key in a file read in chunks |
| `DependencyClosure` | which packages a build distributes |
| `Unicode`, `LegalText`, `LegalReport`, `LegalOrigins`, `LegalRecovery`, `LegalTable` | the legal inventory: normalised texts, a report with a package table and fenced blocks, and readers of both |
| `Sorting`, `Icns` | the icon container canonicaliser |
| `SlashPaths`, `WindowsMsiWalk`, `WindowsMsiPaths`, `WindowsMsiTree`, `WindowsMsiRender`, `WindowsMsiText`, `WindowsMsiComponents`, `WindowsMsiFragment` | the resource tree of the Windows installer and the text of its fragment |
| `XmlEscape`, `XmlMarkup`, `WindowsMsiReading`, `WindowsMsiRoundTrip`, `WindowsMsiDocument`, `WindowsMsiInstalled` | what an XML processor reads from that text, and what it installs |
| `SelectorText`, `SelectorTemplates`, `SelectorCorpus`, `SelectorIndex`, `SelectorValidator`, `SelectorCounting`, `SelectorStatistics`, `SelectorAcceptance`, `Utf8Text`, `SelectorRecords`, `SelectorRules`, `SelectorIsolation`, `SelectorVisibility` | the selector corpus validator, what it accepts on the records themselves, and what follows from that |
| `Saturating`, `Doubles`, `RetrievalStages`, `RetrievalCase`, `RetrievalVerdict`, `RetrievalAggregate`, `RetrievalTotals`, `RetrievalRanks`, `RetrievalRuns`, `MaskAudit` | the retrieval evaluation: normalised runs, the audit log, stage attribution, case reports and their aggregation in 64-bit floating point |
| `Base64`, `ByteRanges`, `ProtectedAssets` | the site's asset sizes and ranged responses |
| `DocsLinks` | documentation links below the repository root |
| `Wrappers`, `Sequences` | optional values, results, and what several modules use about lists |

Loops over state are methods with invariants, proved against recursive functions or against
conditions stated without reference to the algorithm. The objects that the original updates in
place (the installer's resource set, the corpus index, the mask audit, a cached asset) are
classes. `dafny verify dfyconfig.toml` checks the whole project.

Nine results say where the code does less than its callers might expect. Each but the last is
proved with the exact condition under which the expectation holds; the last one comes with a
bound on the difference and a class of inputs without any.

- The executable-text search skips occurrences that overlap a refused match. Over all scanned
  sources and their slices it misses none exactly when no position of the scanner and no shift
  of the text along itself hide the marker of the first copy and show that of the second
  (`PowerShellCompleteness.CompleteExactly`): a finite check of the two texts.
- A reader of fenced blocks gets the legal texts back from the licence report exactly when
  nothing in front of a text opens a block: a line of the prose, a line of a table row, or a
  line ending, of any kind, in front of a tilde fence in an origin
  (`LegalRecovery.ReportIsRecoverable`).
- The table row of a package shows its five cells exactly when its link holds no pipe: links are
  printed without escaping it (`LegalTable.RowIsCut`).
- The component group of the installer refers to each component once exactly when the truncated
  digests do not collide (`WindowsMsiComponents.EachComponentOnce`).
- An XML processor finds the installer's resources in the printed fragment exactly when no file
  name and no source path holds a character below the space, U+FFFE or U+FFFF
  (`WindowsMsiDocument.DocumentIsReadBack`): the escaping leaves them alone, and a processor
  reads tabs and line breaks as spaces and refuses the others. Windows has no such file names
  but for the last two characters.
- An icon container of five to seven bytes is accepted: the cut-off length field is read as a
  shorter number (`Icns.CutHeaderAccepted`).
- The size of a base64 asset is right exactly when its text is a whole number of quads without
  blanks (`Base64.SizeIsRightExactly`); the decoder also accepts unpadded text and blanks, and
  then the asset is served with a wrong length (`ProtectedAssets.AlwaysHonestExactly`).
- Byte ranges follow RFC 9110 but for two kinds of range that are answered as unsatisfiable
  (`ByteRanges.FollowsExactly`).
- The mean reciprocal rank depends on the order of the reports, in its last digits
  (`RetrievalRanks.OrderMatters`, `RetrievalRanks.MeansAreNear`), though not where every best
  rank is one, two or four (`RetrievalRanks.ExactRanksIgnoreOrder`). It is infinite exactly when
  some best rank is zero (`RetrievalRanks.MeanInUnit`), which a provenance error always
  accompanies (`RetrievalRuns.ZeroRankIsAnError`). Every other figure is the same in any order
  (`RetrievalAggregate.AggregationIgnoresOrder`).

## Model

| member | source | states |
|---|---|---|
| `PowerShellViews.SourceViews` | xtask/src/main.rs:4280-4399 | On well-formed UTF-8 the scan accepts exactly the scripts of the segment grammar, the masked view is their mask, and it reports a here-string exactly when one opens in code; so of the two checks after the scan neither can fail. Whatever it accepts, the view has the length and the newlines of the normalised source, each byte the source byte or a blank, and is well-formed UTF-8 |
| `PowerShellViews.Scan` | xtask/src/main.rs:4296-4391 | The loop over state, index and output buffer computes the recursive scanner |
| `PowerShellViews.NormalizedKeepsUtf8` | xtask/src/main.rs:4294 | Replacing CR LF and CR by LF keeps UTF-8 well formed |
| `PowerShellViews.SegmentsAlign` | xtask/src/main.rs:4296-4399 | For every script of the grammar the mask, the source and the flags of the bytes scanned as code are aligned byte for byte |
| `PowerShellLexer.LexMasks` | xtask/src/main.rs:4300-4388 | From every scanner state an accepted text and its view have equal length and equal newlines, and each byte is kept or blanked |
| `PowerShellLexer.LexKeepsUtf8` | xtask/src/main.rs:4300-4399 | A scan that starts in any state on well-formed UTF-8 gives well-formed UTF-8, also where a backtick takes the first byte of a longer character |
| `PowerShellLexer.NonAsciiRun` | xtask/src/main.rs:4300-4388 | Bytes above ASCII never start or end a string or comment: a run of them leaves the state alone and is kept or blanked as a whole |
| `PowerShellSegments.AcceptsExactlyTheGrammar` | xtask/src/main.rs:4300-4393 | The five-state scanner accepts a script with a given view exactly when the script is a list of code characters, escapes, strings and comments with that mask |
| `PowerShellSegments.HereStringExactly` | xtask/src/main.rs:4304-4307 | The here-string error is reported exactly when a here-string opens in executable position |
| `PowerShellSegments.ReadingIsUnique` | xtask/src/main.rs:4300-4388 | A script has one reading as segments |
| `PowerShellSegments.LexSegments` | xtask/src/main.rs:4300-4388 | Scanning a list of segments emits their masks and comes back to the code state, whatever follows |
| `PowerShellSearch.FindAccepted` | xtask/src/main.rs:4446-4458 | What the search returns is an occurrence of the exact text at which the masked view shows the marker |
| `PowerShellSearch.AcceptedIsExecutable` | xtask/src/main.rs:4446-4458 | An accepted offset is an occurrence of the exact text, and every non-blank byte of the marker inside it was scanned as code |
| `PowerShellSearch.NeverInsideStringsOrComments` | xtask/src/main.rs:4401-4413 | For a marker with a non-blank byte, an occurrence wholly inside strings and comments is never accepted |
| `PowerShellCompleteness.CompleteExactly` | xtask/src/main.rs:4401-4458 | Over every slice of every scanned source: the search finds an executable occurrence wherever there is one, exactly when no position of the scanner and no shift of the exact text along itself hide the marker of the first copy and show that of the second. Otherwise it already misses one in a whole source |
| `PowerShellCompleteness.FindsTheFirst` | xtask/src/main.rs:4446-4458 | Where the condition holds, the search in any slice of any scanned source returns the first executable occurrence, and nothing only where there is none |
| `PowerShellCompleteness.MissedSource` | xtask/src/main.rs:4446-4458 | For every such position and shift, a whole script that the scanner accepts, with an executable occurrence that the search does not find |
| `PowerShellCompleteness.UnborderedOrBlankIsComplete` | xtask/src/main.rs:4446-4458 | Exact texts that cannot overlap themselves, and blank markers, are never missed |
| `PowerShellCompleteness.OverlapIsMissed` | xtask/src/main.rs:4446-4458 | A small script on which one is missed: `'x'x'x'` searched for `'x'` with marker `x` |
| `PowerShellOverlap.RefusedOverlap` | xtask/src/main.rs:4450-4457 | A search that finds nothing refused an occurrence that overlaps any executable one |
| `PowerShellOverlap.EntryOf` | xtask/src/main.rs:4300-4388 | Every position of an accepted script is reached between two steps in some state or on the second byte of a step, and the rest of the scan depends on that alone |
| `PowerShellOverlap.GlanceAgrees` | xtask/src/main.rs:4300-4388 | What a scan shows of a text is what the text shows on its own, but for a last byte blanked by what follows |
| `PowerShellOverlapScript.ScriptScans` | xtask/src/main.rs:4300-4393 | For every position and text there is an accepted script that leads the scanner there and shows the text as it shows on its own |
| `PowerShellSearch.FunctionRange` | xtask/src/main.rs:4243-4256 | A function range starts at the first occurrence of the keyword with the name and ends at the next function behind it or, where none follows, at the first top-level try; the first error is reported exactly when the name is missing, the second one only where both ends are |
| `PowerShellSearch.FunctionSlicesAlign` | xtask/src/main.rs:4414-4434 | A range found in the masked view cuts both views, so the two offset errors cannot happen; every non-blank byte of its keyword and name was scanned as code, and what is accepted inside the slice is executable in the whole script |
| `PowerShellFunctions.InFunctionExactly` | xtask/src/main.rs:4414-4434 | Once a function of a scanned script has a range there is an answer; where no overlap hides a marker it is true exactly when an executable occurrence lies inside the range, and a marker that the exact text does not hold is never found |
| `PowerShellFunctions.InScriptExactly` | xtask/src/main.rs:4401-4413 | The same for a whole script, and what is returned is the first executable occurrence |
| `Utf8.IsUtf8Exactly` | xtask/src/main.rs:4394 | The check behind `String::from_utf8` accepts exactly the sequences of well-formed characters |
| `LineEndings.TwoPassesAreOne` | xtask/src/main.rs:4294 | The two replacement passes CR LF to LF and CR to LF are one left-to-right rewriting of line endings |
| `LineEndings.EndingsAgree` | xtask/src/main.rs:3069-3073 | The LF, CR LF and CR versions of a CR-free text all normalise to its LF version |
| `LineEndings.NormalizeIdempotent` | xtask/src/main.rs:3069-3073 | Normalising line endings twice is normalising them once |
| `KeySearch.VerifyEmbeddedKey` | xtask/src/main.rs:3280-3302 | However `read` splits the file, the search succeeds exactly when the key is contiguous in the bytes delivered before the end or the first failure, and reports a read failure exactly when there was one |
| `KeySearch.AnyWindow` | xtask/src/main.rs:3293-3296 | The window test is true exactly when the key occurs in the buffer |
| `KeySearch.NewOccurrenceIsNear` | xtask/src/main.rs:3292-3300 | With the last key-length-less-one bytes retained, a key that first appears with a chunk appears in the retained bytes and that chunk |
| `KeySearch.TailOfTail` | xtask/src/main.rs:3299-3300 | Draining keeps exactly the last key-length-less-one bytes of everything read |
| `KeySearch.DeliveredInChunks` | xtask/src/main.rs:3285-3291 | A file read in any non-empty chunks, up to its end or a failure, is delivered whole, and nothing behind that is |
| `DependencyClosure.Closure` | xtask/src/main.rs:2906-2928 | Terminates on every finite graph, cyclic or not; collects exactly the packages reachable over edges with no kinds or some non-dev kind; fails exactly when some reachable package has no node, and names one |
| `DependencyClosure.PushDistributed` | xtask/src/main.rs:2916-2925 | The inner loop queues the targets of the distributed dependencies, in order |
| `DependencyClosure.ClosedHoldsPath` | xtask/src/main.rs:2906-2928 | A set with the root that is closed under distributed edges holds every reachable package |
| `DependencyClosure.Finished` | xtask/src/main.rs:2909-2927 | Once nothing is pending the selected names are exactly the reachable ones |
| `LegalText.NormalizeLegalTextIdempotent` | xtask/src/main.rs:3069-3073 | Normalising twice is normalising once |
| `LegalText.VersionsNormalizeAlike` | xtask/src/main.rs:3069-3073 | The LF, CR LF and CR versions of a text, with or without trailing blanks, have one normal form |
| `LegalText.NormalFormIs` | xtask/src/main.rs:3069-3073 | The normal form is the text with its line endings normalised, without the white space at its end, and one line feed: what is cut off is all white space, and what is left is empty or ends in something else. Indentation stays |
| `LegalText.NormalFormOf` | xtask/src/main.rs:3069-3073 | There is one such way to cut the text, so this is the normal form |
| `LegalText.LongestIsLongest` | xtask/src/main.rs:3177-3184 | A row of n backticks occurs in the content exactly when n is at most the longest run of the split |
| `LegalText.FenceIsFreshAndShortest` | xtask/src/main.rs:3177-3184 | The fence occurs nowhere in the content, and no shorter fence of three or more backticks would do |
| `LegalReport.ReadPrintedBlock` | xtask/src/main.rs:3141-3145 | A reader of fenced code blocks (section 4.5 of CommonMark) reads a printed block back as its content and is outside again behind it |
| `LegalReport.LinesOfNormalized` | xtask/src/main.rs:3069-3073 | The reader takes CR, LF and CR LF for line endings: it reads a text as it reads the text with its line endings normalised |
| `LegalOrigins.OriginIsQuiet` | xtask/src/main.rs:3136-3139 | The line of an origin opens a block exactly when a line ending in it, of any kind, stands in front of a tilde fence; backticks are replaced, line endings and tildes are not |
| `LegalRecovery.ReadPrintedEntry` | xtask/src/main.rs:3133-3146 | The same for a whole entry, heading and origins included, where its origins open no block |
| `LegalRecovery.ReportIsRecoverable` | xtask/src/main.rs:3075-3148 | To a reader of fenced blocks the blocks of the whole report are the legal texts, all of them, in order, exactly when nothing in front of a text opens a block: no line of the prose, no line of a row of the package table, and no line ending of an origin in front of a tilde fence. What the texts hold does not matter |
| `LegalRecovery.InventoryIsRecoverable` | xtask/src/main.rs:3069-3148 | The same for the texts that the inventory prints, the normalised contents of any legal files |
| `LegalRecovery.CarriageReturnOpens` | xtask/src/main.rs:3173-3175 | An origin with a carriage return in front of a tilde fence, which is printed as it is: the text behind it is lost |
| `LegalRecovery.LinkOpens` | xtask/src/main.rs:3150-3167 | A repository URL with a line break in front of backticks, which the table prints as it is, opens a block |
| `LegalRecovery.PlainRow` | xtask/src/main.rs:3150-3175 | A package without carriage returns in its escaped fields, and without line breaks in its link, opens none |
| `LegalTable.RowIsCut` | xtask/src/main.rs:3150-3175 | Cut at its pipes, the table row of a package is its name, version and declared license with line breaks as spaces, its link and its references, exactly when the link holds no pipe: links are printed without escaping it |
| `LegalTable.TextsAreLinked` | xtask/src/main.rs:3112-3121 | Every text of a package is linked to from its row |
| `LegalTable.EntryStartsWithAnchor` | xtask/src/main.rs:3133-3134 | The heading of a text is the anchor that these links name |
| `LegalTable.OriginsAreListed` | xtask/src/main.rs:3136-3138 | Origins without line breaks are listed one a line, in order, with quotes for backticks |
| `LegalRecovery.Account` | xtask/src/main.rs:3133-3146 | Reading the rest of a section in any mode: every block is a text from its own fence or a block that an origin or a text cut in two opened, and the fence of every text that is lost is part of one of the latter |
| `LegalRecovery.NoneSwallowed` | xtask/src/main.rs:3177-3184 | Texts cannot hold each other's fences in a circle, since the fence of a text is longer than every row of backticks in it |
| `Icns.CanonicalIcns` | resources/branding/generate.py:55-67 | The header check, the loop, the sort and the join compute the recursive parse, sort and print |
| `Icns.Chunks` | resources/branding/generate.py:59-66 | The offset loop that appends to the list of chunks reads exactly what the recursive parser reads, errors included |
| `Icns.AcceptsExactlyContainers` | resources/branding/generate.py:57-67 | Accepts exactly the containers: a valid header followed by well-formed entries; the output is the header and the sorted entries of any such reading |
| `Icns.ParseConcat` | resources/branding/generate.py:59-66 | Parsing the concatenation of well-formed entries gives the entries |
| `Icns.ParsedIsConcat` | resources/branding/generate.py:59-66 | What is parsed are well-formed entries whose concatenation is the body |
| `Icns.OutputIsSortedContainer` | resources/branding/generate.py:67 | The output has the length and header of the input and is a container of the same entries, as often, sorted |
| `Icns.EntriesDecide` | resources/branding/generate.py:65 | The order of the output is that of the bytes of the entries: of two different ones the first difference decides |
| `Icns.FourBytes` | resources/branding/generate.py:57-63 | A length field of four bytes is read with the most significant byte first |
| `Icns.CanonicalIdempotent` | resources/branding/generate.py:55-67 | Canonicalising twice is canonicalising once |
| `Icns.PermutedEntriesAgree` | resources/branding/generate.py:55-67 | Containers with one header and permuted entries give identical bytes |
| `Icns.CutHeaderAccepted` | resources/branding/generate.py:57-58 | A file of five to seven bytes is accepted, unchanged, exactly when its cut-off length field reads as its length |
| `Sorting.SortedIsUnique` | resources/branding/generate.py:67 | Under a total order there is one sorted arrangement of given contents |
| `Sorting.LexExactly` | resources/branding/generate.py:65 | Byte strings are ordered by their first difference, and a proper prefix comes first |
| `XmlEscape.PassesAreOneMap` | xtask/src/windows_msi.rs:299-306 | The five replacement passes are one map over the characters |
| `XmlEscape.UnescapeInvertsEscape` | xtask/src/windows_msi.rs:299-306 | Decoding the predefined entities (section 4.6 of XML 1.0) gives every value back |
| `XmlEscape.EscapedIsSafe` | xtask/src/windows_msi.rs:299-306 | The output has no raw angle bracket or quote, and every ampersand starts one of the five predefined entities |
| `SlashPaths.JoinSplit` | xtask/src/windows_msi.rs:169-186 | Joining the segments of a destination gives the destination |
| `SlashPaths.SplitConcat` | xtask/src/windows_msi.rs:99 | A joined destination has the segments of both parts |
| `WindowsMsiWalk.ResourceSet.AddFile` | xtask/src/windows_msi.rs:118-145 | Succeeds exactly when the path is a regular file, the source absolute and the destination valid and new; a duplicate is reported after its entry has been replaced, and any other failure changes nothing |
| `WindowsMsiWalk.ResourceSet.AddTree` | xtask/src/windows_msi.rs:81-116 | The explicit-stack walk terminates on every finite tree, adds exactly the files of the recursive traversal, and succeeds exactly when the root is a directory, everything below is a regular file or directory with a usable name, and no destination clashes |
| `WindowsMsiWalk.TreeClashesOnlyWithOthers` | xtask/src/windows_msi.rs:81-145 | In a real directory tree no two files share a destination, so the only clash left is with files added before |
| `WindowsMsiWalk.Destinations` | xtask/src/windows_msi.rs:93-113 | Every collected file is acceptable and lies under its own entry of the directory |
| `WindowsMsiPaths.CollectExactly` | xtask/src/windows_msi.rs:81-116 | The files that the traversal collects are exactly those at the end of a trail of directories, under source and destination paths made of the names along it |
| `WindowsMsiPaths.CleanExactly` | xtask/src/windows_msi.rs:93-112 | A tree is refused exactly when some trail ends at a name that is not Unicode, empty or made of one or two dots, or at something that is neither a regular file nor a directory |
| `WindowsMsiTree.BuildFlatten` | xtask/src/windows_msi.rs:196-212 | The directory tree holds exactly the given path, source and digest triples, each as often as given |
| `WindowsMsiTree.BuildOrdered` | xtask/src/windows_msi.rs:196-212 | The children of every directory are strictly ordered by name |
| `WindowsMsiTree.DirectoriesAreThePrefixes` | xtask/src/windows_msi.rs:196-212 | The directories are exactly the proper prefixes of the destinations, each once |
| `WindowsMsiFragment.RenderFragment` | xtask/src/windows_msi.rs:196-227 | The text of the fragment: the prolog and the document, one tag a line at the indentation of the elements around it, around the contents of the tree, with a reference to each component id of the tree, once, in the order of the ids |
| `WindowsMsiFragment.OrderIsUnique` | xtask/src/windows_msi.rs:214-224 | The order leaves one way to list the component ids |
| `WindowsMsiFragment.DocumentBalanced` | xtask/src/windows_msi.rs:214-227 | Every element of the document is closed by its own end tag, in order |
| `WindowsMsiFragment.DocumentHoldsResources` | xtask/src/windows_msi.rs:196-270 | From the resources to the tags and back: what is read from the tags of the contents are exactly the given path, source and digest triples |
| `XmlMarkup.PrintedIsRead` | xtask/src/windows_msi.rs:214-270 | Printed tags are read back from the text, names, attributes and nesting, at any indentation, where no value holds a quotation mark or an opening bracket |
| `WindowsMsiDocument.DocumentIsReadBack` | xtask/src/windows_msi.rs:196-306 | An XML processor that normalises line ends and attribute values (sections 2.2, 2.11 and 3.3.3 of XML 1.0) finds exactly the given path, source and digest triples in the text, exactly when no destination and no source holds a character below the space, U+FFFE or U+FFFF |
| `WindowsMsiDocument.TabIsLost` | xtask/src/windows_msi.rs:299-306 | A file name with a tab, which is printed as it is and read as another name |
| `WindowsMsiInstalled.TextInstalls` | xtask/src/windows_msi.rs:196-285 | What is read from the text of the fragment: each file and each directory once, its component with the id and the GUID of its kind and digest, its attributes those of its destination, name and source; and the component group refers to the ids of exactly these components, each id once |
| `WindowsMsiInstalled.EachPartOnce` | xtask/src/windows_msi.rs:214-285 | The components read from the text have distinct ids exactly when the truncated digests do not collide |
| `WindowsMsiRoundTrip.ReadAsGiven` | xtask/src/windows_msi.rs:196-306 | The tree whose names and sources are read with spaces for white space flattens to the given triples exactly when no destination and no source holds a tab or a line break |
| `WindowsMsiText.RenderContents` | xtask/src/windows_msi.rs:229-270 | The recursion that appends to the text, at the indentation it is given, and to the id set, prints and collects exactly one subtree |
| `WindowsMsiText.DepthFollows` | xtask/src/windows_msi.rs:229-270 | The indentation grows by two with every element opened and shrinks by two with every element closed, so that elements inside others are printed two further in |
| `WindowsMsiRender.ContentsBalanced` | xtask/src/windows_msi.rs:229-270 | Every start tag is closed by its own end tag, in order |
| `WindowsMsiRender.RenderedIsReadBack` | xtask/src/windows_msi.rs:229-270 | Reading the markup and unescaping its attributes gives back the tree: names, sources and digests |
| `WindowsMsiComponents.EachComponentOnce` | xtask/src/windows_msi.rs:214-285 | The component group refers to each rendered component exactly once, exactly when no two destinations and no two directories that are hashed share the first half of their digests |
| `WindowsMsiComponents.ComponentCount` | xtask/src/windows_msi.rs:229-270 | One component for each resource and for each proper directory prefix, whatever the digests |
| `WindowsMsiComponents.OneRemovalPerDirectory` | xtask/src/windows_msi.rs:248-267 | One RemoveFolder for each directory |
| `WindowsMsiComponents.IdsDiffer` | xtask/src/windows_msi.rs:279-285 | Without such a collision, different files and directories have different component ids |
| `WindowsMsiComponents.CollisionGivesOneId` | xtask/src/windows_msi.rs:279-285 | With one, two different references have one id |
| `SelectorText.NormalizeForLeakage` | xtask/src/selector_corpus.rs:904-919 | The loop with the pending-space flag computes the lower-cased words joined by single spaces |
| `SelectorText.Collapse` | xtask/src/selector_corpus.rs:906-918 | The same loop over characters that are lower-cased already |
| `SelectorText.WordsOfLowered` | xtask/src/selector_corpus.rs:904-919 | Lower-casing a text lower-cases its words and moves no word break |
| `SelectorText.NormalFormIdempotent` | xtask/src/selector_corpus.rs:904-919 | The normal form of a normal form is itself |
| `SelectorText.NormalFormsAgree` | xtask/src/selector_corpus.rs:904-919 | Two texts have one normal form exactly when their lower-cased word sequences are equal |
| `SelectorText.OnePassIsPairwise` | xtask/src/selector_corpus.rs:744-757 | The one-pass leak map accepts a list of entries exactly when no two entries of different splits have equal normal forms |
| `SelectorTemplates.CanonicalTemplateTokens` | xtask/src/selector_corpus.rs:932-965 | The index loop over the tokens computes the recursive canonical form |
| `SelectorTemplates.NamesInterchange` | xtask/src/selector_corpus.rs:941-951 | Replacing a maximal run of two or more title-case tokens by any other such run keeps the canonical tokens |
| `SelectorTemplates.ValuesInterchange` | xtask/src/selector_corpus.rs:952-958 | Replacing a run of value tokens by any other keeps the canonical tokens |
| `SelectorTemplates.MarkersNeverRepeat` | xtask/src/selector_corpus.rs:979-983 | No marker stands next to itself |
| `SelectorTemplates.CanonPlain` | xtask/src/selector_corpus.rs:932-965 | Tokens that are neither values nor in a run of title-case tokens are kept in lower case, one by one |
| `SelectorTemplates.TokensReadBack` | xtask/src/selector_corpus.rs:933-938 | Tokens joined by spaces are read back |
| `SelectorTemplates.OverlapIsSymmetric` | xtask/src/selector_corpus.rs:989-994 | Overlap is symmetric |
| `SelectorTemplates.OverlapForcesSimilarSize` | xtask/src/selector_corpus.rs:989-994 | Overlapping templates satisfy 13 times the larger at most 20 times the smaller, and share at least 13/20 of their union |
| `SelectorTemplates.OverlapExactly` | xtask/src/selector_corpus.rs:989-994 | Two templates overlap exactly when they share three or more shingles, at least four times as many as the smaller one has alone, and at least thirteen sevenths of what only one of them has |
| `SelectorTemplates.ShinglesExactly` | xtask/src/selector_corpus.rs:985-987 | The shingles are the runs of five tokens that stand next to each other |
| `SelectorTemplates.SameTemplateOverlaps` | xtask/src/selector_corpus.rs:985-994 | Equal templates overlap exactly when they have three or more shingles |
| `SelectorTemplates.RewritingIsReported` | xtask/src/selector_corpus.rs:932-994 | Passages that differ only in names and values, at any number of places, are reported exactly when their template has three or more shingles |
| `SelectorIndex.CorpusIndex.Add` | xtask/src/selector_corpus.rs:614-742 | For any rules on single records, one query pool is taken exactly when it is well made and clashes with no world and no text seen before; the maps and counters then stand for one more pool |
| `SelectorIndex.CorpusIndex.VisitPool` | xtask/src/selector_corpus.rs:657-706 | The loop over a pool accepts exactly pools whose judgments fit and leak nothing, and counts references and roles |
| `SelectorIndex.CorpusIndex.UpdateStats` | xtask/src/selector_corpus.rs:708-742 | The split statistics of one more pool |
| `SelectorStatistics.CountersAre` | xtask/src/selector_corpus.rs:708-742 | Of the queries judged in a split, the statistics count all, those without an answer and those with several, whatever the pools |
| `SelectorStatistics.StatsAreMeant` | xtask/src/selector_corpus.rs:759-844 | The statistics of a split are as required exactly when its queries and judgments are: so many queries, so many of them without an answer, enough with several, so many for each pair of languages; every required tag, both disclosures and a forbidden answer on some judgment of the split |
| `SelectorValidator.ValidateCorpus` | xtask/src/selector_corpus.rs:341-399 | For any rules on single records, those of `SelectorRecords.CorpusRules` among them: accepts exactly the corpora that meet conditions stated on records and pairs of records, and reports their sizes |
| `SelectorAcceptance.AcceptedExactly` | xtask/src/selector_corpus.rs:341-399 | A corpus is accepted exactly when its records are fit, stated without pools, maps or counters, and each split has what is required. Fit: records keep their rules and have distinct ids; every judgment is about a known query and passage, no two about the same pair; a query has six judgments in one world and split, on passages of one language, title and heading, with enough hard negatives, and no text gives ids away; worlds belong to one query; normal forms of queries and passages of different splits differ; every passage is judged once; and in each language both splits have passages, no template of one overlapping one of the other |
| `SelectorValidator.TakeOne` | xtask/src/selector_corpus.rs:360-377 | One more pool keeps the pairwise conditions exactly when the one-pass maps take it |
| `SelectorValidator.OnceBySize` | xtask/src/selector_corpus.rs:379-383 | As many referenced passages as passages, each with count one, means that every passage is referenced exactly once |
| `SelectorValidator.ValidateQueries` | xtask/src/selector_corpus.rs:439-451 | For any rule on one query: accepts exactly queries that obey it and have distinct ids |
| `SelectorValidator.ValidatePassages` | xtask/src/selector_corpus.rs:453-471 | For any rule on one passage: accepts exactly passages that obey it and have distinct ids, and maps the ids to them |
| `SelectorValidator.ValidateJudgments` | xtask/src/selector_corpus.rs:473-507 | For any rule on one judgment: accepts exactly judgments of known records that obey it, with distinct query and passage pairs, and groups them by query in order |
| `SelectorValidator.IsolatedIn` | xtask/src/selector_corpus.rs:401-437 | Both splits have passages of the language and no train and dev template overlap |
| `SelectorCounting.AcceptedSizes` | xtask/src/selector_corpus.rs:341-399 | For any requirements an accepted corpus has as many judgments as passages, six times as many as queries; queries are train and dev counts together; each split has four times its direction count |
| `SelectorCounting.AcceptedPassageOnce` | xtask/src/selector_corpus.rs:379-383 | Each passage of an accepted corpus is judged exactly once, so it belongs to one query and one split |
| `SelectorCounting.AcceptedWorlds` | xtask/src/selector_corpus.rs:630-645 | Two judgments share a world exactly when they share a query, and then they share its split |
| `SelectorCounting.AcceptedRoles` | xtask/src/selector_corpus.rs:724-740 | A query without answers has exactly six hard negatives; any other has one to three answers |
| `SelectorIsolation.QueriesKeptApart` | xtask/src/selector_corpus.rs:341-399 | Accepted queries of different splits differ in their lower-cased words |
| `SelectorIsolation.PassagesKeptApart` | xtask/src/selector_corpus.rs:691-697 | Passages judged in different splits of an accepted corpus differ in the lower-cased words of their model input |
| `SelectorIsolation.TemplatesKeptApart` | xtask/src/selector_corpus.rs:401-437 | No dev passage of an accepted corpus is a train passage of its language with names and values exchanged, unless the template has fewer than three shingles |
| `SelectorRecords.IdentifierExactly` | xtask/src/selector_corpus.rs:846-859 | The check on the bytes of an id accepts exactly ids of 1 to 128 lower-case letters, digits and underscores |
| `SelectorRecords.NotBlankExactly` | xtask/src/selector_corpus.rs:861-874 | A text passes the emptiness check exactly when it holds a character that is not white space |
| `SelectorRecords.ValidateEvidenceSpans` | xtask/src/selector_corpus.rs:587-608 | The loop with the set of spans accepts exactly distinct spans that fit the passage |
| `SelectorRecords.EvidenceIsText` | xtask/src/selector_corpus.rs:587-608 | A span that fits cuts the bytes of a piece of the text that starts and ends between characters and is not all white space |
| `SelectorRules.SpanExactly` | xtask/src/selector_corpus.rs:587-608 | A span fits exactly when it is where the bytes of some characters of the text stand, not all of them white space |
| `SelectorRules.QueryRuleExactly` | xtask/src/selector_corpus.rs:439-451 | A query is lawful exactly when its id is one, and its text has something to read and at most 2048 bytes |
| `SelectorRules.PassageRuleExactly` | xtask/src/selector_corpus.rs:453-471 | A passage is lawful exactly when its id is one, and its title, heading and text have something to read and at most 200, 200 and 1200 characters |
| `SelectorRules.JudgmentRuleExactly` | xtask/src/selector_corpus.rs:509-585 | A judgment is lawful exactly when its world is an id with the prefix of its split, its reason has something to read and at most 500 characters, its tags are distinct and not none, and it has an answer group, evidence or a kind of negative exactly as its role says, the group an id and the evidence distinct readable pieces of the passage |
| `Utf8Text.BoundaryExactly` | xtask/src/selector_corpus.rs:597-600 | The byte-level boundary test finds exactly the positions between two characters |
| `Utf8Text.SliceEncodes` | xtask/src/selector_corpus.rs:601-604 | The slice at two such positions is the text whose encoding the bytes between them are |
| `SelectorRecords.ValidateModelVisibleText` | xtask/src/selector_corpus.rs:876-891 | The two loops accept exactly texts that hold no given id and no marker among their pieces |
| `SelectorRecords.VisibleExactly` | xtask/src/selector_corpus.rs:876-902 | Looking at the pieces of the lower-cased text is looking at its words: no id occurs in any case, and no whole word is a split or candidate marker in any case |
| `SelectorRules.VisibleRulesExactly` | xtask/src/selector_corpus.rs:647-690 | A query must not name itself or its world; the title, the heading and the text of a passage must not name its query, itself or its world; and no word of any of them may be a marker |
| `SelectorRules.FormsAgreeExactly` | xtask/src/selector_corpus.rs:904-930 | Two queries have one normal form exactly when their lower-cased words agree, two passages when those of their title, heading and text, one behind the other, do |
| `SelectorVisibility.AcceptedEvidence` | xtask/src/selector_corpus.rs:509-608 | In an accepted corpus only answers have evidence, and all of it is a readable piece of their passage, cut between characters |
| `SelectorVisibility.WorldTellsSplit` | xtask/src/selector_corpus.rs:509-516 | In an accepted corpus a world belongs to a split exactly when its id starts with the prefix of the split |
| `SelectorVisibility.NothingGivesTheSplitAway` | xtask/src/selector_corpus.rs:647-690 | No text of an accepted corpus that a model sees names its query or its world, and no word of it is a marker, in any case |
| `SelectorVisibility.NoWorldIsNamed` | xtask/src/selector_corpus.rs:509-690 | No world of any query stands at the start of a word in any text that a model sees with any other query |
| `SelectorVisibility.ProductionSizes` | xtask/src/selector_corpus.rs:48-61 | With the production requirements an accepted corpus has 152 queries and 912 passages, each judged once |
| `RetrievalStages.Attribute` | xtask/src/retrieval.rs:1759-1862 | For every case, log and returned list the counters are those of the exact candidate, surviving and emitted facts; each unreturned group is counted at the first stage that lost it; the audit is complete exactly when every expected node made one call |
| `RetrievalStages.FatesPartition` | xtask/src/retrieval.rs:1812-1829 | Every expected group is returned or lost at exactly one of the four stages |
| `RetrievalVerdict.FateIsFirstLoss` | xtask/src/retrieval.rs:1822-1843 | On the log: a group that was not returned was lost at retrieval if none of its facts was a candidate, by the mask if none of these was relevant, outside the first TOP_K if none was emitted, and behind that otherwise |
| `RetrievalVerdict.FateCountExactly` | xtask/src/retrieval.rs:1822-1843 | Each of the four counters counts the groups with that fate |
| `RetrievalStages.LossesAreTheMissing` | xtask/src/retrieval.rs:1812-1862 | The four clamped losses sum, with saturation, to the missing groups |
| `RetrievalStages.CallEmitsAtMostTopK` | xtask/src/retrieval.rs:1774-1782 | A call emits its first TOP_K relevant candidates, or all if it has fewer |
| `RetrievalStages.EffectiveFound` | xtask/src/retrieval.rs:1644-1660 | Effective found is found plus candidate-only, and lies between found and expected |
| `RetrievalCase.ScoreCase` | xtask/src/retrieval.rs:1575-1753 | In every report found and missing make up expected, found and candidate-only make up effective found, and missing is the sum of the four losses; the lists of returned, unexpected, forbidden, support and candidate facts are those of the baseline run; a case passes exactly when each group is answered by exactly one of its facts, nothing unexpected or forbidden was returned, the audit is valid, the repeated and the reversed run are equal to the baseline, and the baseline is a prefix of the expanded run |
| `RetrievalCase.PrefixFindsNoMore` | xtask/src/retrieval.rs:1864-1875 | A run that is a prefix of another returned no fact and found no group that the other did not |
| `RetrievalCase.BestRankIsLeast` | xtask/src/retrieval.rs:1704-1709 | The rank behind the reciprocal rank is that of an expected fact, and the least one; there is none exactly when no expected fact was returned |
| `RetrievalVerdict.PassesExactly` | xtask/src/retrieval.rs:1720-1728 | A case passes exactly when one fact of every expected group was returned and nothing but relevant or allowed facts, none of them forbidden; no provenance error; every audited candidate mapped, one call by every expected node and none by another, and a stable audit; and the repeated and the reversed run equal the first, which the expanded one continues |
| `RetrievalVerdict.DuplicatesExactly` | xtask/src/retrieval.rs:1661-1672 | The duplicates are the groups with two returned members |
| `RetrievalVerdict.HitsInOrder` | xtask/src/retrieval.rs:1592-1605 | The returned facts are listed node by node, in the order of each |
| `RetrievalRuns.NormalizeResponses` | xtask/src/retrieval.rs:1495-1553 | The loops over the responses and their hits keep the known hits with the ranks they came with, and count with saturation the hits that are unknown or wrong about their origin |
| `RetrievalRuns.CleanRun` | xtask/src/retrieval.rs:1495-1573 | In a run without provenance errors no hit was dropped, each belongs to its node, and each rank is its position |
| `RetrievalRuns.FaultsAreCounted` | xtask/src/retrieval.rs:1532-1573 | The errors of a node are the hits that are not what they should say: a known source and heading, and the node, title, revision one, position as rank, collection, concept, chunk and address of that fact, with something to read in the snippet |
| `RetrievalRuns.CleanRunExactly` | xtask/src/retrieval.rs:1495-1573 | A run has no provenance error exactly when no hit of any node is such, and no authorised candidate where these are read |
| `RetrievalRuns.KnownInOrder` | xtask/src/retrieval.rs:1532-1553 | Each hit whose source and heading are known is scored as the fact with these, in order, at the rank it came with |
| `RetrievalRuns.ZeroRankIsAnError` | xtask/src/retrieval.rs:1546-1552 | A best rank of zero, which the normaliser copies through, is a provenance error |
| `RetrievalAggregate.AggregateMetrics` | xtask/src/retrieval.rs:1877-1928 | Every counter is the clamped true total over the reports; the recalls are the rounded quotients of those totals, and the mean reciprocal rank the rounded quotient of the sum that is rounded at each report |
| `RetrievalTotals.GroupsAreSums` | xtask/src/retrieval.rs:1877-1928 | The cases, the expected, found, effectively found and candidate-only groups of the metrics are the clamped sums of these fields of the reports |
| `RetrievalTotals.ViolationsAreSums` | xtask/src/retrieval.rs:1877-1928 | So are the violations: unexpected and forbidden facts, provenance errors, duplicates, and the cases that were unstable or had a faulty audit |
| `RetrievalAggregate.RatiosInUnit` | xtask/src/retrieval.rs:1919-1924 | Recall and effective recall, rounded, lie between zero and one, and recall is the smaller |
| `RetrievalRanks.MeanInUnit` | xtask/src/retrieval.rs:1916-1926 | The mean reciprocal rank is infinite exactly when some best rank is zero, and otherwise lies between zero and one, rounding included |
| `RetrievalRuns.CleanMeanIsFinite` | xtask/src/retrieval.rs:1495-1926 | An evaluation without provenance errors has a finite mean reciprocal rank of at most one |
| `RetrievalRanks.OrderMatters` | xtask/src/retrieval.rs:1916-1926 | Reports answered at ranks 1, 1 and 3 have another mean in the order 3, 1, 1: the last binary digit differs |
| `RetrievalRanks.MeanIsNear` | xtask/src/retrieval.rs:1916-1926 | The rounded mean of k ranked cases is within k + 5 half units in the last place of one of the exact mean |
| `RetrievalRanks.MeansAreNear` | xtask/src/retrieval.rs:1916-1926 | So the means of two orders are both infinite, or differ by at most twice that |
| `RetrievalRanks.ExactRanksIgnoreOrder` | xtask/src/retrieval.rs:1916-1926 | Where every best rank is one, two or four the sum is not rounded, and the mean is the same in any order |
| `Doubles.ShareIsEnough` | xtask/src/retrieval.rs:1977-1987 | Rounding never decides: for counters of 32 bits the rounded quotient reaches the rounded 0.9 exactly when ten times the part is at least nine times the whole |
| `Doubles.DoubleNear` | xtask/src/retrieval.rs:1919-1926 | Rounding to 53 binary digits, ties to even (binary64 of IEEE 754), moves a number by at most half a unit in its last place |
| `Doubles.DoubleMonotone` | xtask/src/retrieval.rs:1919-1926 | Rounding keeps the order of numbers |
| `RetrievalAggregate.AggregateStages` | xtask/src/retrieval.rs:1930-1966 | The same for the stage summary |
| `RetrievalTotals.StagesAreSums` | xtask/src/retrieval.rs:1930-1966 | The expected groups, those at each stage and the four losses of the summary are the clamped sums of these fields of the reports |
| `RetrievalTotals.AuditsAreSums` | xtask/src/retrieval.rs:1930-1966 | So are the unexpected survivors, the hard negatives, the unmapped candidates and the cases with a faulty audit |
| `RetrievalAggregate.AggregationIgnoresOrder` | xtask/src/retrieval.rs:1877-1975 | No counter and none of the four recalls depends on the order of the reports, nor does whether there is a mean reciprocal rank |
| `RetrievalAggregate.SplitsAddUp` | xtask/src/retrieval.rs:1165-1180 | Each total counter is the saturating sum of the regression, calibration and holdout counters |
| `RetrievalTotals.OfSplitExactly` | xtask/src/retrieval.rs:1165-1179 | The reports of a split are those of its cases, each as often as it is given and in the order given |
| `RetrievalAggregate.EvaluationAddsUp` | xtask/src/retrieval.rs:1877-1975 | Over the whole evaluation the expected groups are the found ones and the losses of the four stages, and effective found is found plus candidate-only, saturation included |
| `RetrievalAggregate.SplitPassesExactly` | xtask/src/retrieval.rs:1977-1987 | A split passes exactly when it expects some group, finds at least nine tenths of them, compared without rounding, and each of its reports is clean |
| `RetrievalAggregate.RegressionSplitExactly` | xtask/src/retrieval.rs:1182-1185 | Where every regression case passed, the regression split passes exactly when it expects at least one group |
| `RetrievalAggregate.Evaluate` | xtask/src/retrieval.rs:1165-1185 | The evaluation passes exactly when every regression case passed, no case of any split has a violation and every split found enough |
| `MaskAudit.Audit.Record` | xtask/src/retrieval.rs:291-300 | Appends the call to the log of the trimmed question; no other question changes |
| `MaskAudit.Audit.Take` | xtask/src/retrieval.rs:242-252 | Returns, sorted by node, exactly what was recorded for the trimmed question since it was last taken, and forgets it |
| `MaskAudit.SortedIsOriginThenPeer` | xtask/src/retrieval.rs:249 | The stable sort gives the calls of the origin in the order they were made, then those of the peer |
| `MaskAudit.TakenIgnoresInterleaving` | xtask/src/retrieval.rs:237-302 | The taken log does not depend on how the two nodes interleave nor on other questions |
| `MaskAudit.CompleteExactly` | xtask/src/retrieval.rs:1770-1772 | The completeness test holds exactly when every expected node made one call and no other node any |
| `ByteRanges.MatchExactly` | site/src/index.ts:125-133 | The pattern matches a header in exactly one way |
| `ByteRanges.RangeSelects` | site/src/index.ts:130-159 | A returned range satisfies start <= end < size and selects exactly the positions the header names (section 14.1.2 of RFC 9110) |
| `ByteRanges.SuffixSelects` | site/src/index.ts:138-144 | A suffix of n selects the last n bytes, or all there are |
| `ByteRanges.UnsatisfiableExactly` | site/src/index.ts:136-158 | A single range is unsatisfiable exactly when it names no byte, or its last number is not a safe integer |
| `ByteRanges.FollowsExactly` | site/src/index.ts:125-159 | Against a reading of sections 14.1.1, 14.1.2 and 14.2 of RFC 9110: the parser ignores or refuses the invalid, refuses the unsatisfiable and selects what the rest names, except for two kinds of range that it always answers as unsatisfiable: a suffix of an empty representation, and a satisfiable range whose last number is not a safe integer |
| `ByteRanges.BackwardsIsUnsatisfiable` | site/src/index.ts:148-156 | A last position below the first, which section 14.1.1 of RFC 9110 calls invalid, is answered as unsatisfiable, as section 14.2 permits |
| `ByteRanges.RangeReadsBack` | site/src/index.ts:146-159 | Asking for the positions of a returned range returns the same range |
| `Base64.AtobInvertsEncode` | site/src/index.ts:38-39 | The decoder reads every encoding of section 4 of RFC 4648 back |
| `Base64.SizeIsRightExactly` | site/src/index.ts:47-56 | For every text that the decoder accepts, the computed size is the decoded length exactly when the text is a whole number of quads without blanks |
| `Base64.UnpaddedSizeIsWrong` | site/src/index.ts:47-56 | An unpadded text that the decoder accepts and whose computed size is half a byte off |
| `Base64.BlanksMakeTheSizeWrong` | site/src/index.ts:47-56 | A padded text with blanks behind it that the decoder accepts as one byte and whose computed size is six |
| `ProtectedAssets.BundledSizeExactly` | site/src/index.ts:47-56 | For every data URL that decodes, the computed size is the length of its content exactly when the encoded part is a whole number of quads without blanks |
| `ProtectedAssets.Bundle` | site/src/index.ts:47-74 | An entry of the table of assets fails exactly when its text is not a base64 data URL |
| `ProtectedAssets.EncodedSizeIsLength` | site/src/index.ts:47-56 | For every byte string under every media type, the size computed without decoding is its length, and decoding gives it back |
| `ProtectedAssets.DecodeDataUrl` | site/src/index.ts:32-45 | The copying loop fills a new byte array with the decoded content, and fails exactly on what is not a base64 data URL |
| `ProtectedAssets.ProtectedAsset.AssetBytes` | site/src/index.ts:76-79 | Decodes on first use and hands out the same array ever after; what does not decode fails every time and caches nothing |
| `ProtectedAssets.ProtectedAsset.SecuredAssetResponse` | site/src/index.ts:161-212 | For any computed size: 206, 416 and 200 and the lengths exactly as the range says, for HEAD as for GET; a GET carries the content or the slice, and fails exactly where the content does not decode; a HEAD decodes nothing and cannot fail |
| `ProtectedAssets.PartialBody` | site/src/index.ts:186-204 | With the right size, a partial body holds exactly the positions that the header names, in order |
| `ProtectedAssets.AlwaysHonestExactly` | site/src/index.ts:161-212 | Every body is as long as Content-Length says, for all requests, exactly when the encoded part is a whole number of quads without blanks |
| `DocsLinks.ResolveLocalLink` | xtask/src/docs.rs:277-314 | The push and pop loop computes a fold over the components; the three path errors come first and in order |
| `DocsLinks.WalkConcat` | xtask/src/docs.rs:297-309 | Walking two paths is walking one after the other |
| `DocsLinks.ParentCancelsName` | xtask/src/docs.rs:302-305 | A parent component removes the name in front of it, wherever the two stand in a path |
| `DocsLinks.ParentsThenNames` | xtask/src/docs.rs:297-309 | Parents remove the last names of the start and names are added behind what is left; more parents than names is an error |
| `DocsLinks.StartIsKept` | xtask/src/docs.rs:297-309 | A walk keeps the names of its start that no prefix pops, unchanged and in front; how many these are is the length of the start and the lowest depth of a prefix |
| `DocsLinks.DotsMoveNothing` | xtask/src/docs.rs:299-301 | A dot and a root inside a link move nothing |
| `DocsLinks.DirectoryOfFile` | xtask/src/docs.rs:284-296 | A relative link starts in the directory of the file that holds it, with the root taken off |
| `DocsLinks.SiblingsAndChildren` | xtask/src/docs.rs:277-314 | A text link with two dots in front leads to a sibling of the directory, one without them below it |
| `DocsLinks.LinksCompose` | xtask/src/docs.rs:277-314 | Resolving `a/b` is resolving `a` and then a relative `b` from the result, errors included |
| `DocsLinks.EscapesExactly` | xtask/src/docs.rs:297-309 | Without a path prefix, a link escapes exactly when some prefix of its components pops more names than are available; otherwise its depth is the net number pushed |
| `DocsLinks.PrefixNeverResolves` | xtask/src/docs.rs:307 | A link with a path prefix never resolves |
| `DocsLinks.TextLinkStaysInside` | xtask/src/docs.rs:277-314 | A resolved text link consists of plain names only, so it stays under the root; the only failure is popping too much |
| `DocsLinks.ResolvedIsCanonical` | xtask/src/docs.rs:277-314 | A resolved link written from the root resolves to itself from any directory |

## Left out

- The string-contains policy checks over packaging scripts and workflows: fixed literals in files of their own.
- Search engine, database, embeddings, rerankers, network, zip, YAML and signature code: other crates.
- Command-line dispatch, process launching, workspace directories and the writing of files.
- `packaging/*.py`: digest comparison and temporary files.
- SHA-256, UUIDs and the Unicode tables are parameters. Where a proof needs it, the tables are taken to satisfy `Unicode.Sound`, for single characters and for whole tokens.
- Files and directories are values: a finite tree for the installer walk, a list of read results for the key search. Their order is the order the original sees; a directory's entries are listed in file-name order.
- `KeySearch.VerifyEmbeddedKey`: the checks on the key and on the file before the loop are not modelled; an empty key is refused there, so the model takes a non-empty one.
- `WindowsMsiDocument.DocumentIsReadBack`: the processor reads tags, double-quoted attributes and the five predefined entities, which is all that is printed; digests and UUIDs are taken to be printed with letters, digits and hyphens.
- `WindowsMsiTree.BuildFlatten`: the nested maps of the tree are values here, built by a function; that the original updates them in place is not modelled.
- Windows drive prefixes in installer destinations, and backslash separators in documentation links: paths are split at forward slashes. `DocsLinks.ResolveLocalLink` takes the components as parsed, so prefixes are covered there.
- `LegalRecovery.ReportIsRecoverable`: the reader knows fenced blocks alone; list items, indented code, HTML blocks and other block constructs of CommonMark are not modelled. The prose in front of the table is a parameter, in whole lines. The decoding of legal files that are not UTF-8 is left out.
- `LegalTable.RowIsCut`: the reader of a row cuts it at its pipes and takes a pipe behind a backslash as part of a cell, which is all of tables that is modelled; a backslash of its own in front of an escaped pipe is part of the cell text.
- `SelectorValidator.ValidateCorpus`: which error is reported first is not modelled, nor is the parsing of the JSON lines; of the review state, which has one value, nothing is left to check.
- `RetrievalRanks.ExactRanksIgnoreOrder`: which other lists of ranks give one mean in every order is not characterised; it depends on every rounding of every partial sum.
- `Doubles.DoubleNear`: rounding is modelled for non-negative numbers without bounds on the exponent; overflow and underflow are not, as sums of up to 2^32 reciprocals of 32-bit ranks stay far from both. Infinity comes from a division by zero alone.
- `RetrievalCase.ScoreCase`: the sorted lists of facts in the report are sets here, and the id and the tags of a case, which are copied, are left out.
- `MaskAudit.Audit.Take`: a poisoned lock is not modelled; each operation is one atomic step.
- `ProtectedAssets.ProtectedAsset.SecuredAssetResponse`: header values that carry numbers are numbers here, not their decimal text; sizes are exact numbers, as quarters are in 64-bit floating point.
- `ByteRanges.MatchExactly`: one header value; how several `Range` headers are combined is left to the platform. Digits are read as the number they write: only numbers beyond the safe integers are rounded by the original, and those are not served.
- Security headers, routing and text responses of the site; link scanning and the other documentation checks.
