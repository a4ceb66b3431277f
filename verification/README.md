# Sandbox launcher and detours: a verified model

The repository runs a build action on Windows inside a sandbox. A launcher turns command-line options
into a file-access manifest, a byte array that an injected DLL probes on every file operation; the DLL's
hooks send undeclared writes to a private backing store (the write overlay) and rewrite directory listings
so that undeclared inputs disappear and overlay files appear. This project models the parts where a simple
specification is carried out by something complicated, and proves the two agree.

- **The manifest.** `Scopes` is the specification: a list of scopes gives each path a policy by longest
  prefix. `ManifestBuilder` is the launcher's mutable tree, `ManifestWriter` its byte vector and bucket
  insertion, `ManifestFormat` and `ManifestPayload` the layout, `ManifestReader` the DLL's lookup.
  `ManifestAgreement.EndToEnd` connects both ends; `ManifestCursor` resumes a lookup below a directory, and
  `ManifestParse` reads whole trees back.
- **The write overlay.** `FileLayer` is one ordinary file system. `OverlayEngine` keeps two of them, the
  real disk and the backing store, with the engine's branches as they are. `OverlayView` is the merged view,
  `OverlayRefinement` says exactly which calls behave as calls on that view, `OverlayFrame` what calls and runs
  leave alone, `OverlayOutcomes` tells what calls come to from the view alone, and `OverlayDivergence` shows the calls that
  depart from one layer. `OverlayHooks` is the class whose methods carry the calls out.
- **Directory enumeration.** `DirRecords` are the packed records of section 2.4 of [MS-FSCC].
  `EnumFilter` hides records in place, `EnumRequery` repeats the query until something is visible,
  `EnumCursor` and `EnumSplice` append overlay entries once each, `EnumScan` puts filter, splice and reporting
  together over whole scans, `EnumHooks` is the class that holds the state of a handle, and `Listing` compares
  a whole listing with the merged view.
- **The launcher.** `CommandLine` quotes arguments and parses them back, `OverlayPaths` maps paths to the
  backing store and back, `OutputDirs` derives output directories, `Launcher` adds the scopes and proves
  what may be written. `LaunchPaths` and `LaunchOverlay` put the overlay under the policies of a launch.

Letter case, the hash function, wildcard matching and the contents of a file's metadata are parameters, so
every theorem holds for any of them; names in the overlay's layers stand for themselves up to case.
A policy word is the set of its one bits (`Words.Bits`). `nat` values that the source keeps in 32 bits are
either cut with `Truncate` or bounded by a precondition that says so. The division of the child count by
0.7 is exact in the source's double arithmetic up to rounding, so `BucketCount` is the integer
quotient of ten times the count by seven.

## Findings

Where the code is not what its comments or a naive reading say, the model follows the code and states the
exact condition.

- The DLL's tokenizer keeps leading separators in a fragment, the builder skips them and says the two match
  (src/manifest_builder.cpp:136). `ManifestAgreement.AgreesIffPlain`: a scope is found again exactly when its
  path has no leading separator and no two adjacent ones. A scope on a UNC path is never found.
- For calls in scope the overlay is a one-layer file system except in the cases of
  `OverlayRefinement.Diverges`: TRUNCATE_EXISTING of a visible file without a backing copy, an open that keeps
  the content of a hidden file, a directory made over a visible file, a rename onto a real directory or over a
  visible real file without replacing or by a directory, a delete of a hidden real directory, and a declared
  output in a directory that only the overlay has. `OverlayDivergence` gives a call for each. The last one cannot arise
  from a launch, whose output directories are real (`LaunchOverlay.LaunchHasNoOrphans`).
- Two kinds of calls change a real file in the overlay's cone (`OverlayFrame.RealLayerStep`, an if and only if).
  A read-intent open with a creating or truncating disposition is not redirected
  (`OverlayDivergence.ReadIntentReachesDisk`); CREATE_NEW, OPEN_ALWAYS and CREATE_ALWAYS reach this through
  CreateFileW, TRUNCATE_EXISTING only through the native API. And the move of a directory: a real one is moved
  where it is on the real disk, as docs/design/detours-write-overlay-vfs.md:1268 says, with all the files below
  it (`OverlayDivergence.DirectoryMoveReachesDisk`), and one of the overlay may be moved out of the cone. Without
  those no run changes a real file of the cone (`OverlayFrame.RealLayerImmutable`).
- The filter never moves the head of a record chain, so hidden records before the first visible one stay
  readable from offset 0 (`EnumFilter.FilterFromStart`, `EnumRequery.ScanExact`). `Listing.ListingAgrees` names
  exactly the entries that leak into a whole listing this way.
- Once a directory query has succeeded with access reporting on, as `--trace` turns it on (src/main.cpp:725-726),
  later queries on the same handle skip both the filter and the splice
  (vendor/detours-services/DetouredFunctions.cpp:5411 and 5524). `EnumScan.ReportedLeak` is a scan of two batches
  that reads a hidden entry and not the overlay's; `EnumScan.ReportedExact` and `Listing.ReportedIs` say exactly
  which scans still read what they should.
- The wildcard of a scan is captured from whichever call first gives one, also in mid-scan. A late one leaves a
  listing that fits neither pattern (`EnumCursor.LatePatternMixes`), exactly unless what was emitted before
  matches it or all the rest does (`EnumCursor.LatePattern`).
- A splice into a buffer too small for the next record leaves the exhaustion status in place, so a caller stops
  there; one who goes on with a larger buffer sees the remaining entries (`EnumCursor.SilentEnd`). The comment at
  src/overlay_engine.cpp:1352-1356 speaks of appending to a successful batch; the code only emits after exhaustion.
- Hidden real directories are left out of listings although they can be opened
  (`Listing.ListingAgrees`, `Listing.ListedOpens`).
- A backing root with a trailing separator breaks the reverse path map (`OverlayPaths.ReverseOfBacking`), and
  the drive-letter mirror can collide with a path inside the cone (`OverlayPaths.MirrorCollides`).
- The arguments after the program reach the child unchanged exactly when the program's path holds no quotation
  mark (`CommandLine.RoundTrip`, `CommandLine.QuoteInProgram`).
- A node scope changes the policy of its own path only, exactly when no cone scope gives a bit above the lower
  sixteen: the nodes made on the way to its path mask such bits off (`Scopes.NodeScopesLocalIff`).

## Model

| member | source | states |
|---|---|---|
| Words.U32RoundTrip | src/manifest_builder.cpp:38-50 | a word written low byte first is read back as itself |
| Words.WordOf | src/manifest_builder.h:24-50 | each set of policy bits is read back from its 32-bit word |
| Words.WordOfBits | src/manifest_builder.h:24-50 | and each 32-bit word comes back from its bits: the two determine each other |
| Words.BitIs | src/manifest_builder.h:24-50 | bit k of a policy word is worth 2 to the k |
| Words.LowByteFirst | src/manifest_builder.cpp:38-50 | words and code units are stored low byte first |
| BucketTable.PlaceHolds | src/manifest_builder.cpp:245-257 | inserting a child into a table with a free slot overwrites nothing, and leaves every child reachable from its home slot by the flags |
| BucketTable.FillHolds | src/manifest_builder.cpp:213-257 | with no more children than buckets every insertion finds room, so all children end up reachable |
| BucketTable.FirstStays | src/manifest_builder.cpp:243-257 | no insertion moves a child, so the first one is in the slot its hash starts at |
| BucketTable.FindSlotAgrees | vendor/detours-services/PolicySearch.cpp:115-155 | the flag-guided probe finds the wanted child if it is there, misses exactly if it is not, and never meets a null slot or runs past the table, even a full one |
| BucketTable.ProbeChainStops | src/manifest_builder.cpp:245-254 | a probe stops within the number of buckets because some slot carries no continuation flag |
| ManifestFormat.ChildRange | src/manifest_builder.cpp:245-259 | each child fills exactly the bytes from its offset to the next child's: siblings are disjoint without gaps |
| ManifestFormat.NodeLen | src/manifest_builder.cpp:225-239 | every node is a whole number of words and at least five, so offsets are non-zero with both flag bits clear |
| ManifestPayload.PreludeAligned | src/manifest_builder.cpp:268-337 | whatever the DLL names, report path and overlay roots, the tree starts on a word boundary |
| ManifestPayload.TreeStartAgrees | vendor/detours-services/DetoursHelpers.cpp:262-420 | skipping the blocks by the sizes in them leads the reader to the first byte of the tree |
| ManifestPayload.PreludeReads | vendor/detours-services/DetoursHelpers.cpp:262-376 | the DLL reads back the flags, the report path, each DLL name, the backing root and the source root as they were set, each string up to its first NUL |
| ManifestPayload.PreludeRoundTrip | src/manifest_builder.cpp:268-341 | it reads back everything exactly if and only if no string holds a NUL |
| ManifestWriter.ByteVector.PatchU32 | src/manifest_builder.cpp:45-50 | changes the four bytes of one word and nothing else |
| ManifestWriter.ByteVector.PutFragment | src/manifest_builder.cpp:225-239 | appends the code units, the terminator and padding to a word, or a zero word for the root |
| ManifestWriter.ByteVector.PutPrelude | src/manifest_builder.cpp:271-337 | appends flags, report path, DLL block and both overlay roots in the layout that PreludeReads reads back |
| ManifestWriter.ByteVector.PatchTable | src/manifest_builder.cpp:263-265 | writes a node's bucket words and changes nothing else |
| ManifestWriter.InsertOffset | src/manifest_builder.cpp:246-258 | the loop over 32-bit offsets with flag bits does exactly the abstract slot insertion |
| ManifestBuilder.ManifestBuilder.AddPathFragments | src/manifest_builder.cpp:129-165 | creates exactly the missing nodes along the path, with fresh accumulators, and returns the leaf |
| ManifestBuilder.ManifestBuilder.AddRootScope | src/manifest_builder.cpp:123-127 | adds a cone scope at the root and changes no other node |
| ManifestBuilder.ManifestBuilder.AddScope | src/manifest_builder.cpp:167-179 | adds a cone scope: mask intersected, values united, at the leaf only |
| ManifestBuilder.ManifestBuilder.AddNodeScope | src/manifest_builder.cpp:181-195 | the same for the exact-node accumulators |
| ManifestBuilder.ManifestBuilder.Finalize | src/manifest_builder.cpp:197-203 | gives every node of the subtree the cone and node policy its ancestors call for, and changes nothing else |
| ManifestBuilder.ManifestBuilder.SerializeNode | src/manifest_builder.cpp:205-266 | appends exactly the bytes of the finalized subtree |
| ManifestBuilder.ManifestBuilder.Build | src/manifest_builder.cpp:268-342 | gives the payload of the accumulated tree behind blocks that read back as the options, and keeps the accumulators, so a second build gives the same bytes |
| Scopes.TrieAccumulates | src/manifest_builder.cpp:123-195 | the tree's accumulators are the ANDs and ORs over the scopes at exactly each path |
| Scopes.OrderIrrelevant | src/manifest_builder.cpp:123-195 | only which scopes were added matters, not their order or repetition |
| Scopes.TrieNodeIsEffective | src/manifest_builder.h:126-128 | the finalized tree gives each path its longest-prefix policy: node policy on an exact match, else the nearest ancestor's cone policy |
| Scopes.ReplacingCone | src/manifest_builder.h:45-49 | with replacing masks a cone policy is the union of the values at the deepest scoped prefix |
| Scopes.ConeBit | src/manifest_builder.cpp:197-203 | whatever the masks, a bit of a cone policy was given at some prefix and masked off at none below it |
| Scopes.PolicyBit | src/manifest_builder.h:45-49 | a bit of a path's policy is given by a scope on exactly its node, or inherited and masked off by none of them |
| Scopes.NodeScopeIsLocal | src/manifest_builder.cpp:181-195 | whatever the masks, a node scope changes the policy of its own path only, if no cone scope gives a bit above the lower sixteen |
| Scopes.NodeScopesLocalIff | src/manifest_builder.cpp:181-195 | and if one does, some node scope changes another path: the condition is exact |
| ManifestReader.FindChildAgrees | vendor/detours-services/PolicySearch.cpp:115-155 | on a node's bytes the lookup finds exactly the child with the wanted fragment and stays inside the bytes |
| ManifestReader.FirstChildStored | vendor/detours-services/PolicySearch.cpp:122-131 | the first child's offset is in the bucket that its hash modulo the number of buckets says |
| ManifestReader.FindPolicyAgrees | vendor/detours-services/PolicySearch.cpp:56-108 | the policy read from bytes is the one a walk of the tree finds |
| ManifestTree.WalkAgrees | vendor/detours-services/PolicyResult_common.cpp:37-50 | a walk of the finalized tree ends at the node policy of an exact path, else at the nearest cone policy |
| ManifestParse.ParseNodeRoundTrip | src/manifest_builder.cpp:205-266 | parsing the bytes of a tree gives back exactly that tree: hash, policies, fragment and children |
| ManifestAgreement.EndToEnd | src/manifest_builder.cpp:123-342 | for every list of calls, path and hash function, the policy read from the built bytes is the longest-prefix policy of the scope list |
| ManifestAgreement.BuildManifest | src/manifest_builder.cpp:123-342 | the same for the imperative builder run from construction to `Build`, whose payload also reads back as the options before the tree |
| ManifestAgreement.PlainTokens | vendor/detours-services/PolicySearch.cpp:23-54 | on a plain path the reader's fragments are the builder's |
| ManifestAgreement.AgreesIffPlain | src/manifest_builder.cpp:135-150 | reader and builder agree on a path for every scope list if and only if it has no leading or doubled separator |
| ManifestCursor.Resumes | vendor/detours-services/PolicySearch.cpp:56-108 | searching on from the cursor of a search, truncated or not, ends where a search for the whole path ends |
| ManifestCursor.ExtendTokens | vendor/detours-services/CanonicalizedPath.cpp:89-111 | the components of a path extended by a suffix are those of the path and then those of the suffix, exactly unless the path ends in two separators or is one alone |
| ManifestCursor.ChildPolicyAgrees | vendor/detours-services/PolicyResult.cpp:73-87 | for every list of calls, the policy of a child read from the built bytes through its directory's cursor is the longest-prefix policy of the child's path |
| ManifestCursor.PlainChildPolicy | vendor/detours-services/CanonicalizedPath.cpp:89-111 | on plain paths that is the policy at the builder's own names: the directory's and then those of the suffix, whatever separators it starts with |
| FileLayer.EnsureParentsEffect | src/overlay_engine.cpp:253-267 | making the parents adds every missing directory above the path and no more, or nothing if a file is in the way |
| OverlayHooks.Overlay.EnsureBackingParentDirs | src/overlay_engine.cpp:253-267 | the loop over prefixes is that function on the backing store |
| OverlayHooks.Overlay.ResolveOverlayOpenPath | src/overlay_engine.cpp:387-522 | only a path of the cone is sent to the backing store; making it ready loses nothing there and adds only directories above the path and a copy of the real file whose content the open keeps; what goes to the real disk leaves it alone |
| OverlayHooks.Overlay.ResolveOverlayRenameDest | src/overlay_engine.cpp:693-707 | a destination goes to the backing store if and only if it is in the cone; only directories above it are added |
| OverlayHooks.Overlay.DetouredOpen | vendor/detours-services/DetouredFunctions.cpp:1690-1870 | the open as a caller sees it: from a coherent state and for a call in scope, its outcome and the new view are those of one layer if and only if the engine does not diverge; from any two trees, the real files of the cone stay, save exactly the two ways that reach the real disk |
| OverlayHooks.Overlay.DetouredDelete | vendor/detours-services/DetouredFunctions.cpp:3400-3475 | the same two statements for a delete |
| OverlayHooks.Overlay.DetouredRename | vendor/detours-services/DetouredFunctions.cpp:2818-3030 | the same two statements for a move, directories included in the second |
| OverlayView.ViewMade | src/overlay_engine.cpp:253-267 | making backing directories is `mkdir -p` in the merged view |
| OverlayView.ViewCovered | src/overlay_engine.cpp:440-470 | unless a visible real file is above the path, which the new directories hide |
| OverlayRefinement.StepRefines | src/overlay_engine.cpp:387-707 | from any coherent state a call has the outcome and next view of the one-layer file system if and only if the engine does not diverge; moves of directories that only the overlay has included, with all that is below them |
| OverlayRefinement.RunRefines | src/overlay_engine.cpp:387-707 | a run without divergence refines a run of the one-layer file system, call by call |
| OverlayDivergence.WriteDivergencesExist | src/overlay_engine.cpp:453-481 | for each way in which a write diverges, a call on one small coherent store whose result the one-layer file system does not allow |
| OverlayDivergence.RemovalDivergencesExist | src/overlay_engine.cpp:637-707 | the same for a delete and for each way in which the rename of a file diverges |
| OverlayDivergence.TreeDivergenceExists | src/overlay_engine.cpp:693-707 | and for a rename of an overlay directory over a visible file |
| OverlayDivergence.DirectoryMoveReachesDisk | vendor/detours-services/DetouredFunctions.cpp:2966-3015 | a rename of a real directory in the cone succeeds on the real disk and takes the real file below it along |
| OverlayDivergence.ReadIntentReachesDisk | src/overlay_engine.cpp:488-522 | a read-intent open that always creates empties a hidden real file of the cone and reports that there is none |
| OverlayFrame.RealLayerStep | vendor/detours-services/DetouredFunctions.cpp:2966-3015 | a real file with the override bit changes in a step if and only if the step is a read-intent open that creates or truncates, or the move of a directory that takes it along or sets it down |
| OverlayFrame.DirectoryMoveDenied | vendor/detours-services/DetouredFunctions.cpp:206-332 | the move of a real directory is denied if and only if either end may not be written, something below it may not be removed or made where it goes, or the operating system denies it |
| OverlayFrame.DirectoryMoveGuarded | vendor/detours-services/DetouredFunctions.cpp:206-332 | whatever it makes appear below its destination had the right to be made at that path, a directory by AllowCreateDirectory and a file by AllowWrite, and whatever it takes away the right to be removed |
| OverlayFrame.StepTrees | src/overlay_engine.cpp:387-707 | whatever the call, both layers stay trees: nothing is left without a directory above it |
| OverlayFrame.RealLayerImmutable | src/overlay_engine.cpp:387-707 | no run of write opens, plain reads, deletes and renames changes a real file in the cone, as long as no rename source is a real directory |
| OverlayRefinement.DeleteHides | src/overlay_engine.cpp:637-686 | after a successful delete in the cone the path is gone from the view, hidden real file underneath or not |
| OverlayRefinement.RenameAwayHides | src/overlay_engine.cpp:637-707 | so is the source of a successful rename |
| OverlayRefinement.DeleteOutcomes | src/overlay_engine.cpp:637-686 | a delete in the cone succeeds for exactly the files this action wrote over nothing visible, finds nothing exactly where the view has nothing and at hidden real directories, is denied otherwise, and unless it succeeds changes neither layer |
| OverlayOutcomes.WriteOutcomes | src/overlay_engine.cpp:387-522 | a write in the cone that does not diverge: which outcome it has, what content it starts from and every entry of the next view, told from the view before |
| OverlayOutcomes.ReadsItsWrites | src/overlay_engine.cpp:387-522 | what a process has written it reads back, whatever the input filter says of the path |
| OverlayOutcomes.RenameOutcomes | src/overlay_engine.cpp:637-707 | a rename within the cone that does not diverge: exactly when it succeeds, and that the source with all below it is then where it went and nothing else has changed |
| OverlayOutcomes.DeniedReads | vendor/detours-services/PolicyResult_common.cpp:52-118 | a real file that may not be read is reported as not there under the input filter, else as denied |
| OverlayFrame.NeverResurrected | src/overlay_engine.cpp:637-686 | an absent path stays absent over every run that writes nothing at it or below it and moves no directory to it or above it |
| OverlayRefinement.StatAgrees | src/overlay_engine.cpp:715-728 | metadata and read opens agree on existence always, and on content exactly unless a real directory shadows a backing file |
| OverlayRefinement.LeafNotFound | src/overlay_engine.cpp:488-521 | the redirect for a missing leaf keeps the right kind of not-found, exactly unless a hidden real file lies under the overlay's directory; without the right to probe it the read is denied |
| DirRecords.TryGetDirInfoLayout | src/overlay_engine.cpp:799-811 | in each known class the name length lies after the link and before the name |
| DirRecords.LayoutOfFields | src/overlay_engine.cpp:795-811 | the table of offsets is the natural x64 layout of each class's fields |
| DirRecords.NameTruncated | src/overlay_engine.cpp:887-896 | a record cut off by the end of the buffer gives as much of its name as is left of it |
| DirRecords.KeptChain | src/overlay_engine.cpp:897-917 | relinking makes the kept records the chain from the first of them, names intact |
| DirRecords.RelinkedOnlyLinks | src/overlay_engine.cpp:899-917 | relinking writes nothing but the links of kept records |
| EnumFilter.FilterDirectoryInformation | src/overlay_engine.cpp:850-920 | the in-place loop leaves exactly the relinked buffer and counts the visible records, even where records overlap; an unknown class is left alone |
| EnumFilter.FilterFromFirst | src/overlay_engine.cpp:890-917 | from the first kept record a reader finds exactly the visible names in order; with none kept the buffer is unchanged |
| EnumFilter.FilterFromStart | src/overlay_engine.cpp:890-917 | from offset 0 it finds the hidden names before the first visible one as well |
| EnumFilter.WrappingLinksLoop | src/overlay_engine.cpp:907-912 | with 32-bit wrap-around a link can lead back, so chains must not wrap |
| EnumRequery.Requery | src/overlay_engine.cpp:1005-1016 | one more query advances the scan by one batch whatever the flags, since the restart flag is cleared |
| EnumRequery.ApplyEnumerationFilter | src/overlay_engine.cpp:929-1018 | ends with the first batch that has something visible, filtered, or with the scan's error; drops only batches with nothing visible |
| EnumRequery.QueryFiltered | vendor/detours-services/DetouredFunctions.cpp:5428-5493 | query and filter together give the first batch from the cursor on that has something visible, filtered, and move the cursor past it; else the scan's error |
| EnumRequery.HandedInTurn | src/overlay_engine.cpp:929-968 | call after call those are the buffers of the whole filtered scan |
| EnumRequery.WholeScan | src/overlay_engine.cpp:929-968 | over a whole scan each visible entry is delivered once and in order, and no buffer handed back has nothing visible |
| EnumRequery.HandedNames | src/overlay_engine.cpp:929-968 | the names read from the buffers of a scan are, batch by batch where something is visible, the hidden ones before the first visible one and the visible ones |
| EnumRequery.DeliveredHas | src/overlay_engine.cpp:929-968 | so a name is read if and only if it is listed and visible or leaks at the head of a batch |
| EnumRequery.ScanExact | src/overlay_engine.cpp:929-968 | the caller reads the filtered listing and nothing else if and only if every batch with something visible starts with it |
| EnumRequery.SingleEntriesExact | src/overlay_engine.cpp:944-958 | which single-entry scans always satisfy |
| Ordering.LessIs | src/overlay_engine.cpp:1217-1218 | at the first unit where two names differ the smaller one decides, and a proper prefix is less |
| EnumCursor.SnapshotHas | src/overlay_engine.cpp:1165-1220 | the snapshot has exactly the backing children that the real disk lacks, as often as listed, in case-insensitive order |
| EnumCursor.MatchingHas | src/overlay_engine.cpp:1086-1091 | no pattern, `*` and `*.*` take everything; with any other one the expression decides |
| EnumCursor.TakeConserves | src/overlay_engine.cpp:1452-1507 | one buffer takes a front part of the matching entries, nothing lost or repeated; none exactly if none is left or the first does not fit |
| EnumCursor.EmitOnce | src/overlay_engine.cpp:1280-1518 | over any run of calls of all three kinds, whatever happens to the directory meanwhile, emitted and remaining entries make up the matching snapshot in order, if the pattern has been captured or no call gives one |
| EnumCursor.PatternKept | src/overlay_engine.cpp:1329-1346 | over any run of calls the pattern is the first one given, whichever call gives it, until a query restarts the scan |
| EnumCursor.LatePattern | src/overlay_engine.cpp:1329-1346 | after a pattern that comes late, what is emitted and left is the matching snapshot if and only if what came before it matches, and the whole snapshot if and only if all the rest does |
| EnumCursor.LatePatternMixes | src/overlay_engine.cpp:1329-1346 | three entries and a pattern on the second call give the listing of neither pattern |
| EnumCursor.EmitsAll | src/overlay_engine.cpp:1452-1517 | a run with as many calls that have room for every record as there are entries left emits them all, and then none is left |
| EnumCursor.ScanEmits | src/overlay_engine.cpp:1165-1220 | from a new handle or a restart such a scan emits exactly the part of the snapshot of its first call that matches the pattern of that call |
| EnumCursor.SilentEnd | src/overlay_engine.cpp:1475-1478 | a splice emits nothing if and only if nothing is left or the next record alone is too large; what is left then stays left |
| EnumCursor.MidScanEmits | src/overlay_engine.cpp:1425-1453 | over all statuses: a query in mid-scan emits if and only if the status is 0x80000006 or 0xC000000F, the directory is a real one, something is left and its record fits |
| EnumSplice.FilledFrame | src/overlay_engine.cpp:1247-1274 | in all six layouts the metadata leaves link, name length and name alone |
| EnumSplice.FilledReads | src/overlay_engine.cpp:1247-1274 | times, sizes and attributes fill the fields from the creation time up to the name's length, the id its own field; a names-only record has neither |
| EnumSplice.RecordReads | src/overlay_engine.cpp:1480-1487 | a record's bytes read back as no link, the name's length and the name |
| EnumSplice.OffsetsApart | src/overlay_engine.cpp:1488-1500 | spliced records start at multiples of 8, do not overlap and stay inside the buffer |
| EnumSplice.WrittenReads | src/overlay_engine.cpp:1480-1500 | following the links from the start of the buffer gives exactly the names written, in order, in a well-formed chain |
| EnumHooks.WriteRecord | src/overlay_engine.cpp:1480-1487 | writes one record and changes no other byte |
| EnumHooks.FillOverlayDirRecordMetadata | src/overlay_engine.cpp:1247-1274 | writes the metadata fields of one record and no other byte |
| EnumHooks.HandleOverlay.CaptureOverlayEnumFilter | src/overlay_engine.cpp:1329-1346 | captures the pattern given if none is captured yet; a restart drops the one before |
| EnumHooks.HandleOverlay.EnsureOverlayEnumSnapshot | src/overlay_engine.cpp:1165-1220 | takes the snapshot once per scan and changes nothing afterwards |
| EnumHooks.HandleOverlay.NextOverlayFindDataW | src/overlay_engine.cpp:1280-1322 | gives the next matching entry of the snapshot, or none, and advances past it |
| EnumHooks.HandleOverlay.EmitRecords | src/overlay_engine.cpp:1452-1507 | the loop writes exactly the entries that fit, advances the cursor past them, and the buffer reads back as their names |
| EnumHooks.HandleOverlay.InsertOverlayEntries | src/overlay_engine.cpp:1364-1518 | emits only after exhaustion, rewriting the status if and only if something was written; otherwise buffer and status stay |
| EnumHooks.HandleOverlay.DetouredNtQueryDirectoryFile | vendor/detours-services/DetouredFunctions.cpp:5374-5531 | one intercepted query: the next filtered batch, or after exhaustion the next entries of the snapshot that match the captured pattern; both are skipped once the enumeration was reported |
| EnumHooks.ServesAnswer | vendor/detours-services/DetouredFunctions.cpp:5374-5531 | what the buffer then reads as, and the state, are the answer that the whole scans below are made of |
| EnumScan.ScanConserves | vendor/detours-services/DetouredFunctions.cpp:5374-5531 | over any run of unreported queries, what is read and what is still to be read, real entries and the overlay's, make up what was to be read before |
| EnumScan.WholeScanReads | vendor/detours-services/DetouredFunctions.cpp:5374-5531 | a caller who asks on until a query fails has read the filtered buffers and then the matching snapshot |
| EnumScan.WholeScanExact | vendor/detours-services/DetouredFunctions.cpp:5374-5531 | which is the visible entries and then the matching snapshot if and only if every batch with something visible starts with it |
| EnumScan.ReportedScan | vendor/detours-services/DetouredFunctions.cpp:5404-5524 | with reporting on such a caller has read the first filtered buffer and all real entries after it as they are; or, with nothing visible, one buffer of the overlay's |
| EnumScan.ReportedExact | vendor/detours-services/DetouredFunctions.cpp:5404-5524 | which is what it should be if and only if nothing hidden leads that buffer's batch or comes after it and the overlay adds nothing; or, with nothing visible, one buffer takes all that the overlay adds |
| EnumScan.ReportedUnfiltered | vendor/detours-services/DetouredFunctions.cpp:5404-5524 | the same without the filter: if and only if the overlay adds nothing, or nothing real is there and one buffer takes it all |
| EnumScan.ReportedLeak | vendor/detours-services/DetouredFunctions.cpp:5411-5524 | a scan of two batches reads, with reporting on, the hidden entry and not the overlay's; off, the other way round |
| Listing.ListingAgrees | src/overlay_engine.cpp:753-786 | a whole scan, as a run of the query hook reads it, has a name if and only if the merged view has that child, save exactly the hidden real entries without a backing copy that are directories or outside the cone, and the hidden ones that leak at the head of a batch |
| Listing.ScannedIs | src/overlay_engine.cpp:929-968 | such a scan reads exactly the visible entries followed by the snapshot if and only if no batch with something visible starts hidden |
| Listing.ReportedIs | vendor/detours-services/DetouredFunctions.cpp:5404-5524 | with reporting on it reads exactly that if and only if nothing hidden leads the first batch with something visible or comes after it and the snapshot is empty, or nothing is visible and one buffer takes the snapshot |
| Listing.ListingDistinct | src/overlay_engine.cpp:1195-1213 | no name of such a scan is read twice, leaked ones included |
| Listing.DotsListed | src/overlay_engine.cpp:753-786 | the pseudo-entries are read exactly if the operating system lists them |
| Listing.ListedOpens | src/overlay_engine.cpp:753-786 | a child can be opened to read if and only if it is listed and not an unreadable real file, or it is a hidden directory that the listing misses |
| Listing.RunRooted | src/overlay_engine.cpp:293-324 | over well-behaved runs the backing store holds only the cone and mirrors of real directories, which listings rely on |
| Listing.ReachedListingAgrees | src/overlay_engine.cpp:293-324 | so listings agree with the merged view, as ListingAgrees says, in every state that a well-behaved run reaches from a fresh overlay |
| CommandLine.EscapeArg | src/main.cpp:276-311 | appends the quoted argument to the line |
| CommandLine.BuildChildCommandLine | src/main.cpp:351-365 | joins the quoted arguments, verbatim after cmd.exe |
| CommandLine.IsCmdIff | src/main.cpp:314-324 | a program is taken for cmd.exe if and only if that, in either case, is the name after its last separator |
| CommandLine.CmdVerbatim | src/main.cpp:351-365 | for cmd.exe the line is the quoted program and then each argument as it is after one space, and nothing else |
| CommandLine.RoundTrip | src/main.cpp:276-365 | unless the program is cmd.exe, parsing gives back exactly the arguments after the program if and only if its path holds no quotation mark; program and all if and only if the program's path is plain |
| CommandLine.QuoteInProgram | src/main.cpp:276-311 | a quotation mark in the program's path gives the child an argument it was not sent |
| OverlayPaths.ReverseOfBacking | src/overlay_engine.cpp:60-140 | mapping a cone path to the backing store and back gives it as the source root spells it, if and only if the backing root has no trailing separator |
| OverlayPaths.CanonicalSame | src/overlay_engine.cpp:60-98 | that spelling differs in case only and maps to the same backing path |
| OverlayPaths.RespelledSame | src/overlay_engine.cpp:60-98 | any spelling of the root in other case stays in the cone and maps to the same backing path |
| OverlayPaths.BackingOfReverse | src/overlay_engine.cpp:114-140 | a backing path maps to a cone path that maps forward to it, up to the case of the root |
| OverlayPaths.ReversePrefixes | src/overlay_engine.cpp:114-140 | the reverse map works alike behind either type prefix and behind none, and keeps it |
| OverlayPaths.DistinctStayDistinct | src/overlay_engine.cpp:66-88 | two cone paths share a backing path if and only if their remainders are equal |
| OverlayPaths.SiblingMirrored | src/overlay_engine.cpp:72-97 | a sibling that extends the root's name is not taken for a path below it: it is mirrored, and shares a backing path with its mirror in the cone alone |
| OverlayPaths.MirrorCollides | src/overlay_engine.cpp:90-97 | a mirrored path outside the root shares the backing path of one inside |
| OverlayPaths.MirrorExact | src/overlay_engine.cpp:60-98 | and it shares it with no other path inside |
| OutputDirs.OutputDirsAre | src/main.cpp:809-823 | the output directories are exactly the proper ancestors of writable paths strictly below the working directory, each once, each after its parent |
| OutputDirs.DeriveOutputDirs | src/main.cpp:809-823 | the nested loops with the seen set and the sort compute them |
| OutputDirs.ChainIs | src/main.cpp:101-117 | walking up while strictly below the root meets exactly the ancestors strictly below the root |
| Launcher.LaunchCalls | src/main.cpp:744-851 | the scopes added, in order |
| Launcher.WriteConfinement | src/main.cpp:744-833 | a path may be written if and only if its deepest scoped prefix is a `-w` path, it is an output directory itself, or with the overlay on that prefix is the working directory or the backing store |
| Launcher.ReadConfinement | src/main.cpp:745-833 | a path may be read, and probed where nothing is, if and only if it is an output directory or its deepest scoped prefix is the root, the tool, a `-r` or `-w` path, the backing store or the working directory of a launch that is not hermetic |
| Launcher.LaunchPolicy | src/main.cpp:745-851 | every bit of a path's policy: that of an output directory, or what the options give at its deepest scoped prefix |
| Launcher.LaunchCones | src/main.cpp:745-851 | the scoped prefixes are the root and the paths of the options, blocked ones included |
| Launcher.LaunchScoped | src/main.cpp:745-851 | the manifest has a node for exactly the paths that lead to a path of the options or to an output directory |
| Launcher.OverrideConfinement | src/main.cpp:762-833 | the override bit is on exactly the paths whose deepest scoped prefix is the working directory, save output directories |
| Launcher.ConeReachesUp | src/main.cpp:762-833 | above a path of the overlay's cone only output directories and what is above the working directory are outside it |
| Launcher.LaunchManifest | src/main.cpp:744-853 | the DLL reads back from the payload of a whole launch the flags, the trace path, the backing root and the working directory; and for every path every policy bit exactly as the options say |
| LaunchPaths.ParentListed | src/main.cpp:809-823 | as paths of the policy tree, the parent of a writable path below the working directory is an output directory |
| LaunchPaths.UnderIff | src/main.cpp:101-109 | the launcher's comparison of path texts is the order of the policy tree |
| LaunchPaths.OutputNodesAre | src/main.cpp:809-833 | the output directories are exactly the nodes strictly between the working directory and a writable path |
| LaunchOverlay.LaunchSees | src/main.cpp:745-853 | what the hooks see of a path below the working directory: each right is the bit the options give, and under the input filter a real file is hidden if and only if it may not be read and leads to no path of the options |
| LaunchOverlay.LaunchCoherent | src/main.cpp:744-853 | the policies of a launch over the directories it prepared start the overlay coherent |
| LaunchOverlay.LaunchHasNoOrphans | src/main.cpp:797-851 | a path that a launch lets be written on the real disk never lies in a directory that only the overlay has |
| LaunchOverlay.LaunchKeepsRealFiles | src/main.cpp:762-833 | over the run of a launch no real file of the cone changes, as long as no real directory is renamed |
| LaunchOverlay.LaunchListingAgrees | src/main.cpp:744-853 | and in every state that a well-behaved run of a launch reaches, listings agree with the merged view |

## Left out

- ManifestBuilder.ManifestBuilder.AddPathFragments: nodes are records in one map keyed by their path instead of heap objects owned by their parents, so aliasing of nodes is not modelled; the records are updated in place in the map.
- ManifestBuilder.ManifestBuilder.SerializeNode: payloads of 4 GiB and more, whose offsets would wrap, are excluded by a precondition.
- ManifestAgreement.EndToEnd: starts from canonical paths without NUL characters; `CanonicalizeForTree` and GetFullPathNameW are left out.
- OverlayRefinement.StepRefines: renames of real directories and read-intent opens that create or truncate, which go past the overlay, are outside the refinement (`InScope`), and so are renames of overlay directories whose tree is not all in the cone before and after; RealLayerStep, NothingAppears and StepTrees cover them.
- OverlayRefinement.StepRefines: a write open is checked for the write bit only, not for read access it may request as well; share modes, attributes and access masks are left out.
- OverlayHooks.Overlay.DetouredOpen: the policy's tracking of files a process created is left out, and so are the hooks for hard links, CopyFile, ReplaceFile, deletes by handle, creating and removing directories and reparse points, some of which call the same resolvers.
- OverlayHooks.Overlay.DetouredRename: moves by handle and moves between volumes are left out (a directory cannot be moved to another volume, and the model has one); what a move onto an existing directory gives follows the documentation of MoveFileEx.
- EnumFilter.FilterDirectoryInformation: links shorter than four bytes, with which the loop writes into links it has yet to read, and links that wrap 32 bits, with which it need not end, are excluded.
- EnumFilter.FilterFromFirst: records that overlap are excluded, since relinking one may then change the name of another; the records of [MS-FSCC] do not overlap.
- Listing.ListingDistinct: names are classes up to case, so two spellings of one name count as one.
- Listing.ListingAgrees: neither layer changes during the scan; scans with reporting on are in ReportedIs, and scans by FindNextFile or GetFileInformationByHandleEx only as far as the overlay's entries go (EmitOnce, ScanEmits).
- EnumHooks.HandleOverlay.InsertOverlayEntries: buffers within 8 bytes of 4 GiB and names of 4 GiB are excluded; the test-only names from the environment are left out.
- EnumHooks.HandleOverlay.NextOverlayFindDataW: gives the name only; timestamps, sizes, the short name and truncation at MAX_PATH are left out.
- EnumRequery.ApplyEnumerationFilter: stands for both the plain and the Ex form, the plain one being the case where no restart is asked for; the Win32 error codes derived from the status are left out.
- CommandLine.RoundTrip: the grammar is the documented one of CommandLineToArgvW; its undocumented rule for two adjacent quotation marks inside quotes is left out, as is cmd.exe's own parser.
- FillOverlayDirRecordMetadata's values (times, sizes, file ids) are opaque bytes; only where they go is modelled.
- TrySynthesizeOverlayFindFirstW, the working-directory helpers and the reverse maps to NT form.
- Concurrent writers while a call runs; between calls the directory may change freely.
- Process creation, injection, job objects, network hooks, statistics, response files and option parsing.
