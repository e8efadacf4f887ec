# exitFy core: models of the sanitizer, the source bundle, the loader check and the release protocols

This project models the parts of the repository where a small slip is hard to see by reading,
and proves what they are meant to guarantee. `dafny verify dfyconfig.toml` checks everything.
Nothing of the repository is executed here.

Code that updates state step by step is modelled by classes and methods with loops, each proved
against a specification function or a declarative condition; what the code is for is then proved
about those functions and conditions. Pure code is modelled by functions.

## What is modelled

**Error sanitizer** (`internal/bridge/bridge.go`; `singbox/internal/bridge/bridge.go` holds the same
functions). `JsonScanner` has the index loops of the value scanners and `JsonKeys` the key decoder.
`JsonDocument` has RFC 8259 documents as trees with all their layout, a printer, and a redaction of
the tree. The main theorem is `RedactsDocument`: on the text of any document the byte scanner returns
the text of the redacted tree. From it follow non-interference (`JsonPrivacy`) and, for every byte
string at all, idempotence (`JsonRedactor`). `JsonSpans` says exactly which bytes a value skip may
consume on text that need not be JSON. `JsonCut` is about messages that are cut off before the JSON
pass: a document cut anywhere inside a secret member's value shows nothing of that value. Which decoded
keys are secret is a parameter.

**Source-bundle auditor** (`scripts/audit_singbox_source_bundle.py`). Four streaming recognizers are
proved equal to a condition on the whole input, for every way of cutting it into pieces: Intel HEX,
PDF object headers, the overlap window of the content scan, and the member payload audit that
combines them, UTF-8 decoding in pieces included. The raw tar scan accepts a stream if and only if it
is an archive in the sense of `TarAcceptance`: tiles with good checksums, each of them lawful, totals
within the limits, zeros to the canonical size. Every archive that `TarWriter` can write within the
limits, extended path records included, is accepted with its exact end and counts. The topology pass
with its stack of open directories is proved equal to "no file below".

**Source-bundle builder** (`scripts/build_singbox_source_bundle.py`). Adding a tree succeeds if and
only if the tree is the one the manifest describes (`SourceTree`, `SourceBuild`); the recursive walk
writes its members in order with every parent present, so the auditor's topology check accepts it.
`SourceSerial` goes the whole way from the tree to the raw scan of the written archive: it is accepted
exactly when every member name is allowed, with the build's own counts. The vendor account and the manifest check agree on four totals. `OutputDirectory` is the directory as
a name table and an inode table whose calls may all raise, before or after they took effect; over every
combination of such failures `SourcePublish` states exactly when the publishing run keeps the earlier
archive reachable and when it leaves a name behind.

**Loader hash tables** (`scripts/verify_artifacts.py`). The reader and the lookup for both hash
sections are proved to agree with a dynamic loader that is written out separately, with the loader's
own bit operations, on the mapped words.

**Protocols.** `ProcessCapture`: kill and reap of a process group with an exception possible at every
call. `CoreLifecycle` and `XrayLifecycle`: Start and Stop around a native core that may fail, panic,
or answer nonsense. `ReleaseDrafts` and `WrapperReleases`: reserving revisions and reusing drafts over
whole histories of runs; a run's offset is 1000 plus its run number, as in
`.github/workflows/publish-xray-core-v2.yml`. `WorkflowRetirement`: disabling, deleting and proving, with interruptions.

## What turned out differently from a plain reading

- A secret value's skip may end before trailing white space that is followed by nothing, so "the next
  byte is a comma or a brace" fails there (`JsonSpans.TrailingSpaceIsLeft`). It holds exactly on the
  texts that are not one complete token followed by nothing but white space (`JsonSpans.DelimiterExact`).
- The topology pass does not let a path recorded both as a directory and as a file fill the directory
  above it (`Topology.DoubleKindHidesFile`). `Topology.EmptyDirectoriesExact` states what it does report,
  and `Topology.PlainReadingExact` when that is the plain reading.
- A finished build passes the topology check exactly when its prefix is a single name, or nothing was
  written (`BuilderAudit.BuiltArchiveAccepted`).
- The builder limits the depth of a path below the prefix to 128 parts, the auditor limits the whole
  member path to 128, so a file exactly 128 names deep is built and then refused
  (`BuilderDepth.DeepestTreeFailsDepth`); `BuilderDepth.DepthExact` is the exact condition.
- Both sides limit the bytes of all paths to 16 MiB, but the auditor counts prefix and slash once more
  for every member (`BuilderNames.NamesExact`), so a manifest near the limit is built and then refused
  (`BuilderNames.WideTreeFailsNames`).
- With DT_GNU_HASH symbol offset 0 an empty bucket is walked by the verifier and skipped by a loader:
  for every name there is an accepted section on which they disagree
  (`ElfGnuLookup.ZeroOffsetDisagrees`). They agree exactly when the offset is positive, the name's
  bucket is not empty, the bloom test fails, or the chain from symbol 0 does not carry the name's hash
  bits at its symbol (`ElfGnuLookup.LoaderAgreesExact`).
- Revisions increase as long as nothing visible disappears from the release list. A draft that one
  read shows and a later one hides lets two runs choose one revision; the second run then reuses the
  first run's draft when both build one commit, and is refused otherwise
  (`WrapperReleases.HiddenDraftCollides`).
- The publishing run can lose the earlier archive. When the rename to the output name takes effect and
  an exception arrives before the flag that records it is set, no rollback runs and the clean-up
  removes the rollback name, the archive's last one (`PublishLayout.LosingRun`). Up to publication the
  archive is reachable in every state exactly when that did not happen, or the clean-up failed to
  remove the rollback name, or another rollback name of the archive was there from the start. In the
  same way a staging or rollback name stays behind exactly when the call that made it raised after
  taking effect, or a clean-up call failed (`SourcePublish.WriteSourceArchive`).
- The totals that the raw scan limits can never refuse what the builder wrote for a checked manifest; only
  a member name can (`SourceSerial.BuiltArchiveScans`).
- The limits that the archive walk repeats never refuse a tree that matches a checked manifest
  (`SourceTree.WalkDirectoryExact`), and the prefix can never fail the test for its normal form
  (`SourceBuild.CheckPrefix`).
- When a run fails after replacing an output name that was not a regular file or did not exist, there
  is nothing to roll back to and the new archive stays (`SourcePublish.WriteSourceArchive`).

## Model

| member | source | states |
|---|---|---|
| JsonScanner.JsonStringEnd | internal/bridge/bridge.go:244-254 | the index loop finds the closing quote that the recursive reading of a JSON string finds, or reports that there is none |
| JsonScanner.SkipJsonWhitespace | internal/bridge/bridge.go:256-270 | the loop stops at the first byte that is not JSON white space |
| JsonScanner.JsonObjectValueEnd | internal/bridge/bridge.go:503-517 | a token is trusted only where a member value may end; otherwise everything is consumed |
| JsonScanner.NumberEnd | internal/bridge/bridge.go:454-501 | the number scan ends exactly where the RFC 8259 section 6 number ends, or rejects it |
| JsonScanner.JsonPrimitiveValueEnd | internal/bridge/bridge.go:454-501 | literals and numbers are recognised exactly, anything else is rejected |
| JsonScanner.CompositeEnd | internal/bridge/bridge.go:414-445 | the loop with its closer stack finds the matching bracket that the recursive reading finds, strings skipped |
| JsonScanner.JsonSecretValueEnd | internal/bridge/bridge.go:396-452 | for arbitrary bytes the end lies between start and length and is the one the specification names |
| Unicode.Utf8RoundTrip | internal/bridge/bridge.go:272-329 | a strict UTF-8 reader (RFC 3629 section 3) returns every scalar value from its encoding, whatever follows |
| Unicode.DecodesInPieces | scripts/audit_singbox_source_bundle.py:1149-1169 | strict decoding chunk by chunk, carrying an incomplete character over, is decoding the whole, errors included |
| Unicode.IncompleteExact | scripts/audit_singbox_source_bundle.py:1149-1169 | bytes are carried over exactly when they are no character yet and some continuation makes them one |
| JsonKeys.DecodeHexQuad | internal/bridge/bridge.go:331-351 | four hexadecimal digits of either case and their value, anything else invalid with result 0 |
| JsonKeys.DecodeJsonKey | internal/bridge/bridge.go:272-329 | the decoding loop returns exactly the decoded key, and an empty invalid result otherwise |
| JsonKeys.DecodeKeyExact | internal/bridge/bridge.go:272-329 | a key is accepted if and only if it is a sequence of valid units (plain byte, short escape, unicode escape, surrogate pair), and decodes to what the units mean |
| JsonKeys.DecodesEverySpelling | internal/bridge/bridge.go:272-329 | however each scalar value of a text is spelled (RFC 8259 section 7), the decoder returns the text in UTF-8 |
| JsonKeys.StrayLowSurrogateRejected | internal/bridge/bridge.go:301-325 | after any accepted prefix, an escape of a low surrogate rejects the key |
| JsonKeys.UnpairedHighSurrogateRejected | internal/bridge/bridge.go:301-325 | after any accepted prefix, an escape of a high surrogate without a low one behind it rejects the key |
| JsonRedactor.RedactJsonSecrets | internal/bridge/bridge.go:202-242 | the loop with cursor and builder produces the redacted text |
| JsonRedactor.RedactIdempotent | internal/bridge/bridge.go:202-242 | for every byte string, JSON or not, a second pass changes nothing |
| JsonDocument.ReadsValue | internal/bridge/bridge.go:396-452 | in a document the skip after a secret key consumes exactly the member's value |
| JsonDocument.RedactsValue | internal/bridge/bridge.go:202-242 | inside a document the byte scanner rewrites a value as the tree redaction does and leaves the rest to the scanner |
| JsonDocument.RedactsDocument | internal/bridge/bridge.go:202-242 | for every document in every layout the output is the text of the tree in which each outermost secret member is replaced by the marker |
| JsonPrivacy.SecretsDoNotInterfere | internal/bridge/bridge.go:202-242 | documents that differ only in secret members give equal output |
| JsonPrivacy.RedactedDocumentIsClean | internal/bridge/bridge.go:202-242 | the output is a document without secret members, and a document without secret members is unchanged |
| JsonSpans.SecretValueExact | internal/bridge/bridge.go:396-517 | on arbitrary bytes a skip is accepted if and only if the skipped span is a complete string, a bracket-matched composite or a primitive, followed by space and a comma, a brace or the end |
| JsonSpans.DelimiterExact | internal/bridge/bridge.go:396-517 | a comma or closing brace follows whenever something is left if and only if the text is not one complete token followed by white space alone |
| JsonSpans.TrailingSpaceIsLeft | internal/bridge/bridge.go:503-517 | a three-byte input on which white space is left and no delimiter follows |
| JsonCut.CutValueConsumed | internal/bridge/bridge.go:396-517 | of a valid value that is cut off anywhere, the skip after a secret key leaves nothing |
| JsonCut.CutShowsNothing | internal/bridge/bridge.go:164-242 | a document cut anywhere inside the value of an outermost secret member gives the redacted text in front of the member and the marker, whatever the value and the cut |
| JsonCut.BoundedSanitizeInput | internal/bridge/bridge.go:189-200 | a message within the limit is kept, a longer one is cut at the last byte up to the limit that starts a character; valid UTF-8 stays valid |
| IntelHex.RecordTypeExact | scripts/audit_singbox_source_bundle.py:473-500 | a line is a record of a type if and only if it spells length, address, type, data and a checksum that makes the sum zero |
| IntelHex.StreamBytesConcat | scripts/audit_singbox_source_bundle.py:203-224 | feeding two pieces is feeding their concatenation |
| IntelHex.PreambleDropsBom | scripts/audit_singbox_source_bundle.py:203-224 | the preamble removes one byte order mark at byte zero and nothing else, however it was cut |
| IntelHex.VerdictExact | scripts/audit_singbox_source_bundle.py:192-266 | the streaming verdict is true if and only if the whole input, less one mark, splits into short lines that are ignored or records, with at least two records and the only end-of-file record last |
| IntelHex.IntelHexScanner.Feed | scripts/audit_singbox_source_bundle.py:203-224 | one call advances the scanner by exactly its bytes |
| IntelHex.IntelHexScanner.FeedBody | scripts/audit_singbox_source_bundle.py:226-242 | the piecewise line assembly is the byte-by-byte one |
| IntelHex.IntelHexScanner.Finish | scripts/audit_singbox_source_bundle.py:244-266 | the result is the verdict on everything that was fed |
| PdfObjects.PdfObjectScanner.Feed | scripts/audit_singbox_source_bundle.py:301-373 | one call advances the automaton by exactly its bytes, and nothing once an object was found |
| PdfObjects.ScanBytesConcat | scripts/audit_singbox_source_bundle.py:269-373 | the automaton does not depend on how its input is cut |
| PdfObjects.ScansBlanked | scripts/audit_singbox_source_bundle.py:301-373 | skipping comments inside the automaton is scanning the text with comments blanked |
| PdfObjects.FoundExact | scripts/audit_singbox_source_bundle.py:269-373 | an object is found if and only if the blanked bytes hold boundary, 1 to 10 digits, gap, 1 to 10 digits, gap, obj, boundary (ISO 32000-1 sections 7.2.2, 7.2.3 and 7.3.10) |
| PayloadPatterns.ContainsLocalHostPathBefore | scripts/audit_singbox_source_bundle.py:442-458 | the repeated searches report a home path if and only if one starts in the given range |
| PayloadPatterns.HomePathLocal | scripts/audit_singbox_source_bundle.py:76-109 | whether a home path starts at an offset depends only on one byte before it and a bounded window after it |
| MemberPayload.WordGrows | scripts/audit_singbox_source_bundle.py:1120-1147 | carrying the overlap from chunk to chunk finds exactly the forbidden names of the whole text |
| MemberPayload.HomePathGrows | scripts/audit_singbox_source_bundle.py:1136-1147 | each chunk settles exactly the starts that now have full context on both sides |
| MemberPayload.HomePathEnds | scripts/audit_singbox_source_bundle.py:1136-1163 | the final search settles every start that was still open, so all starts of the payload are covered once |
| MemberPayload.AdvancePdf | scripts/audit_singbox_source_bundle.py:1113-1130 | the object scanner has been fed exactly the bytes behind the leftmost header, without gap or repeat |
| MemberPayload.DeliversChunks | scripts/audit_singbox_source_bundle.py:1103-1112 | a reader of nonempty chunks that stops at the announced size delivers the whole payload |
| MemberPayload.ScanMemberPayload | scripts/audit_singbox_source_bundle.py:1081-1188 | for every chunking, the whole result (size, flags, digested bytes) equals the one of a single look at the whole payload |
| MemberPayload.HasMagic | scripts/audit_singbox_source_bundle.py:1170-1182 | a payload is a packaged artifact by its leading bytes, by a structured PDF, or by an Intel HEX body |
| TarHeader.OctalRoundTrip | scripts/audit_singbox_source_bundle.py:781-789 | a size written in octal is read back |
| TarStream.ReadExactAt | scripts/audit_singbox_source_bundle.py:749-763 | bounded reads return exactly the requested bytes or raise at the end of the stream |
| TarStream.ValidateZeroRange | scripts/audit_singbox_source_bundle.py:766-778 | the chunked check is true if and only if every remaining byte is zero |
| TarStream.ScanRawTarStream | scripts/audit_singbox_source_bundle.py:857-985 | the loop over headers returns the layout or the first reason to refuse, and terminates |
| PaxWriter.PaxExact | scripts/audit_singbox_source_bundle.py:805-839 | an extended header is accepted if and only if it is the record of an allowed path whose length field counts the whole record in digits without a leading zero (IEEE Std 1003.1, pax utility) |
| PaxWriter.RecordAllowed | scripts/audit_singbox_source_bundle.py:805-839 | a record of a path is accepted exactly when the path is, and then fits the size limit; a written record is one |
| TarAcceptance.AcceptedExact | scripts/audit_singbox_source_bundle.py:857-985 | a stream is accepted if and only if checksummed headers and padded payloads tile it, every tile is a supported member with an allowed name or a path record in front of one, the totals over all tiles are within the limits, and zeros fill it to the canonical size |
| TarAcceptance.AcceptedLayout | scripts/audit_singbox_source_bundle.py:857-985 | the layout is the end and the member, file and directory counts of the tiles, whichever tiling is given |
| TarAcceptance.PassesExact | scripts/audit_singbox_source_bundle.py:905-985 | a block passes the header tests of the loop exactly when it is lawful where it stands and the totals with it stay within the limits |
| TarStream.EndMarkersNeverMissing | scripts/audit_singbox_source_bundle.py:886-895 | the refusal for missing end markers cannot be reached on any stream |
| TarWriter.HeaderReads | scripts/audit_singbox_source_bundle.py:781-802 | a written header parses to its size and flag and passes its checksum |
| TarWriter.WrittenArchiveScans | scripts/audit_singbox_source_bundle.py:857-985 | every member list within the limits with allowed names, with or without a written path record in front of each member, scans to its exact end and counts |
| TarWriter.WrittenArchiveExact | scripts/audit_singbox_source_bundle.py:857-985 | a written archive within the limits is accepted if and only if every name in it is allowed |
| SourceSerial.BuiltArchiveScans | scripts/build_singbox_source_bundle.py:2127-2144 | a finished build of a checked manifest, written as a tar file, is accepted by the raw scan if and only if every member name is allowed, and then with as many members, files and directories as the build has |
| SourceSerial.Writable | scripts/build_singbox_source_bundle.py:1411-1430 | every list of members can be written in that way, long or non-ASCII names through an extended header |
| Ordering.SortedExact | scripts/audit_singbox_source_bundle.py:1278-1290 | comparing a sequence with its sorted form tells exactly whether it was sorted |
| Ordering.SortDistinct | scripts/build_singbox_source_bundle.py:1433-1469 | sorting distinct names keeps exactly those names, strictly increasing |
| Topology.EmptyDirectoriesExact | scripts/audit_singbox_source_bundle.py:1303-1331 | the one-pass stack algorithm reports exactly the directories without a pure file below them, each once |
| Topology.PlainReadingExact | scripts/audit_singbox_source_bundle.py:1303-1331 | the report is "no file below" if and only if no directory's only files are also recorded as directories |
| Topology.SingleKindsReadPlainly | scripts/audit_singbox_source_bundle.py:1303-1331 | when no path has two kinds the report is the plain reading |
| Topology.DoubleKindHidesFile | scripts/audit_singbox_source_bundle.py:1303-1331 | a path with two kinds does not fill the directory above it |
| Topology.AcceptedExact | scripts/audit_singbox_source_bundle.py:1278-1331 | no failure if and only if the sequence is sorted, has no root member, has every parent below the root, and every directory holds a pure file |
| TopologyAudit.AuditFailures.Append | scripts/audit_singbox_source_bundle.py:376-395 | the list stops growing at its limit, and the refused message raises |
| TopologyAudit.CloseDirectory | scripts/audit_singbox_source_bundle.py:1303-1312 | closing pops the innermost directory and reports it or fills the one above |
| TopologyAudit.ReportEmptyDirectories | scripts/audit_singbox_source_bundle.py:1303-1331 | the loop with its stack records exactly the reported directories, or as many as fit |
| TopologyAudit.ReportMissingParents | scripts/audit_singbox_source_bundle.py:1290-1298 | one failure per path whose parent is not recorded as a directory, in table order |
| TopologyAudit.ValidateBuilderTopology | scripts/audit_singbox_source_bundle.py:1278-1331 | the whole check records its report, or as much of it as fits before the limit raises |
| SourceArchive.TarBuilder.ArchiveDirectory | scripts/build_singbox_source_bundle.py:1538-1672 | the recursive walk leaves the archive, the seen set and the byte count that the walk function names, or raises its first error |
| SourceArchive.WalkDirectoryWrites | scripts/build_singbox_source_bundle.py:1538-1672 | a finished walk has written one block in path order, each member with its parent in the block, and has seen exactly its files |
| SourceArchive.WalkEntryWrites | scripts/build_singbox_source_bundle.py:1562-1664 | one entry adds its file, or its directory and everything below, in path order under its own name, and sees exactly its files |
| SourceTree.WalkDirectoryExact | scripts/build_singbox_source_bundle.py:1538-1672 | a walk below a directory finishes if and only if everything there is in the checked manifest, with the recorded contents, and no directory is unexpected; no limit of the walk ever refuses such a tree |
| SourceTree.ListingFits | scripts/build_singbox_source_bundle.py:1433-1469 | the listing of a directory that belongs to a checked manifest never exceeds the entry and name limits |
| SourceTree.TreeExact | scripts/build_singbox_source_bundle.py:1675-1728 | the walk from the root finishes with every manifest file seen if and only if the tree holds exactly the files of the manifest and no folder without a file below it |
| SourceTree.DirectoriesImplied | scripts/build_singbox_source_bundle.py:1516-1535 | the directories the manifest check returns are exactly the proper nonempty prefixes of the files |
| SourceBuild.CheckPrefix | scripts/build_singbox_source_bundle.py:1681-1692 | the tests pass if and only if the prefix is the text of a nonempty path of safe names within the length limit; the normal-form test never fails |
| SourceBuild.AddTree | scripts/build_singbox_source_bundle.py:1675-1728 | prefix tests, manifest check, walk and final comparison together succeed if and only if the prefix is safe, the manifest valid within its totals, and the tree the one it describes; the archive then passes the topology check if and only if the prefix is one name or the manifest is empty |
| BuilderAudit.BuiltArchiveAccepted | scripts/build_singbox_source_bundle.py:1675-1728 | a finished build whose seen files are the manifest passes the auditor's topology check if and only if the prefix is one name or nothing was written |
| BuilderAudit.DeepPrefixOrphans | scripts/audit_singbox_source_bundle.py:1290-1298 | below a prefix of several names the first member has no parent in the archive |
| BuilderAudit.TableExact | scripts/audit_singbox_source_bundle.py:1419-1470 | the auditor's tables hold each member path once |
| BuilderAudit.KeyOrderFirst | scripts/audit_singbox_source_bundle.py:1419-1470 | the keys before a key are exactly the paths in front of its first occurrence, so the keys stand in order of first appearance |
| BuilderAudit.KindsExact | scripts/audit_singbox_source_bundle.py:1419-1470 | a path has a kind in the table if and only if a member of that path and kind was recorded |
| BuilderAudit.ParsesJoined | scripts/audit_singbox_source_bundle.py:1388-1390 | the auditor recovers from a member name exactly the parts the builder joined |
| BuilderDepth.DepthExact | scripts/audit_singbox_source_bundle.py:1408-1411 | the auditor's depth limit accepts a finished build if and only if prefix and path together have at most 128 parts for every file |
| BuilderDepth.DeepestTreeFailsDepth | scripts/build_singbox_source_bundle.py:1538-1560 | a file 128 names deep is built and passes the topology check, and still exceeds the auditor's depth limit |
| BuiltMembers.MembersExact | scripts/build_singbox_source_bundle.py:1538-1728 | a finished build has written one member for every file of the manifest and every directory above one, and no others |
| BuilderNames.RetainNames | scripts/audit_singbox_source_bundle.py:1395-1402 | the running sum passes if and only if the bytes of all member names are within the limit |
| BuilderNames.NamesExact | scripts/audit_singbox_source_bundle.py:1395-1402 | the bytes of all member names of a finished build are what the builder counted, and prefix and slash once more for every member |
| BuilderNames.WideTreeFailsNames | scripts/build_singbox_source_bundle.py:1472-1535 | 50,000 files in one directory are built and pass topology and depth, and still exceed the limit on all names |
| SourceBudget.VendorAccount.CheckedKey | scripts/build_singbox_source_bundle.py:2593-2621 | a new key must fit with all its new ancestors; a recorded one costs nothing |
| SourceBudget.VendorAccount.Record | scripts/build_singbox_source_bundle.py:2623-2640 | a file is recorded if and only if all four totals stay within the limits, and the running numbers stay equal to the sums over the manifest and its ancestors |
| SourceBudget.NewAncestors | scripts/build_singbox_source_bundle.py:2600-2608 | the directories a path adds and the bytes their names cost |
| SourceBudget.ValidateArchiveManifest | scripts/build_singbox_source_bundle.py:1472-1535 | accepts if and only if every entry is valid and the four totals are within the limits, in any order of entries; an aggregate error means a total is exceeded |
| SourceBudget.MergedWithinArchive | scripts/build_singbox_source_bundle.py:2914-2944 | with the remaining budgets of the public tree, the merged disjoint manifest never exceeds an aggregate limit |
| ArchiveWriter.DescriptorWriter.Write | scripts/build_singbox_source_bundle.py:1379-1408 | success is the whole payload counted, digested and written; after a write that raised, even one that took effect, the file holds at least what was digested and no more than the payload; a payload over the limit writes nothing |
| ArchiveWriter.DescriptorWriter.WriteAll | scripts/build_singbox_source_bundle.py:2127-2144 | a completed stream of writes leaves the concatenation of its payloads |
| PublishLayout.Held.PreservedExact | scripts/build_singbox_source_bundle.py:2092-2288 | in every name table a run can meet, the earlier archive has its own or a rollback name if and only if the staged file has not taken its name, or a rollback name is left: the run's, an earlier run's, or one this run lost track of |
| PublishLayout.LosingRun | scripts/build_singbox_source_bundle.py:2176-2288 | a run in which the rename raises after taking effect: the clean-up takes the last name from the earlier archive |
| PublishLayout.Held.ReplaceOutput | scripts/build_singbox_source_bundle.py:2176-2182 | the rename turns the staged name into the output name and changes no other name |
| PublishLayout.Held.RollBack | scripts/build_singbox_source_bundle.py:2220-2226 | the rollback rename gives the earlier archive its name back and removes the rollback name |
| SourcePublish.Publication.OpenUniqueStagedOutput | scripts/build_singbox_source_bundle.py:1959-1994 | a fresh private staging file, or nothing left behind unless the creation raised after taking effect or its own clean-up failed |
| SourcePublish.Publication.CreateExistingOutputBackup | scripts/build_singbox_source_bundle.py:2018-2078 | a rollback name exactly for a regular output, checked by identity, or nothing left behind unless the link raised after taking effect or its own clean-up failed |
| SourcePublish.Publication.VerifyDescriptorPayload | scripts/build_singbox_source_bundle.py:1863-1883 | reading back in pieces of any size succeeds only when the file holds exactly the expected bytes |
| SourcePublish.Publication.Rollback | scripts/build_singbox_source_bundle.py:2210-2246 | a rollback whose calls succeed leaves the earlier archive at the output name; a rename that was not recorded is not rolled back |
| SourcePublish.Publication.CleanUp | scripts/build_singbox_source_bundle.py:2247-2288 | afterwards the run holds no name, and one stays in the directory if and only if it was lost track of or a clean-up call failed |
| SourcePublish.Publication.GoneAfterLost | scripts/build_singbox_source_bundle.py:2247-2288 | dropping the rollback name after an unrecorded rename keeps the archive reachable if and only if it has another rollback name |
| SourcePublish.WriteSourceArchive | scripts/build_singbox_source_bundle.py:2092-2288 | with every call free to raise before or after taking effect: up to publication the earlier archive is reachable in every state if and only if no rename to the output raised after taking effect, or its rollback name was not removed, or it had another; a name of the run is left if and only if a creating call raised after taking effect or a clean-up failed; otherwise the names are as before, or have exactly the compressed bytes at the output name; the lock name is not among them |
| BitWords.TwoBitMask | scripts/verify_artifacts.py:457-465 | covering a two-bit mask is having both bits |
| BitWords.MaskIsRemainder | scripts/verify_artifacts.py:317-325 | the power-of-two test makes masking with n - 1 the remainder by n |
| ElfGnuHash.ComputeGnuHash | scripts/verify_artifacts.py:428-432 | masking after every byte computes the untruncated polynomial modulo 2^32 |
| ElfGnuHash.ChainEndExact | scripts/verify_artifacts.py:352-377 | a chain's end is the first odd word at or after its start, within the mapped words and the symbol limit |
| ElfGnuHash.ChainMemo.Terminal | scripts/verify_artifacts.py:350-377 | the memoised walk answers as the plain one, and whatever the outcome no chain word is fetched twice |
| ElfGnuHash.MaximumTerminal | scripts/verify_artifacts.py:379-391 | with one memo for all buckets the loop returns the largest chain end or the first reason to refuse a bucket, no chain word fetched twice |
| ElfGnuHash.GnuHashSymbolCount | scripts/verify_artifacts.py:307-414 | the reader with its shared memo returns the table or the first error of the section, no chain index walked twice |
| ElfGnuHash.AcceptedExact | scripts/verify_artifacts.py:307-414 | a section is accepted if and only if its header is valid, every named chain ends inside the mapped words below the symbol limit, and a symbol is counted |
| ElfGnuHash.SymbolCountExact | scripts/verify_artifacts.py:390-414 | the symbol count is one past the last chain end, or the offset without chains, and the offset is the section's |
| ElfGnuLookup.GnuHashReaches | scripts/verify_artifacts.py:451-476 | the lookup loop answers as the recursive walk, including its escape error |
| ElfGnuLookup.NeverEscapes | scripts/verify_artifacts.py:451-476 | on every accepted table, for every name and target, the escape error cannot happen |
| ElfGnuLookup.BloomAgrees | scripts/verify_artifacts.py:457-465 | the one-mask bloom test is the loader's two-shift test, word and bit chosen by masking |
| ElfGnuLookup.LoaderAgrees | scripts/verify_artifacts.py:451-476 | at a positive offset or with a nonempty bucket: for a name held by one symbol the answer is yes if and only if a loader binds the name to that symbol, and otherwise the loader finds nothing |
| ElfGnuLookup.LoaderAgreesExact | scripts/verify_artifacts.py:451-476 | for a name held by one symbol verifier and loader agree if and only if the offset is positive, the bucket is not empty, the bloom test fails, or the chain from symbol 0 does not reach the symbol with the name's hash bits |
| ElfGnuLookup.LoaderNeverFaults | scripts/verify_artifacts.py:307-414 | no name at all makes a loader read outside an accepted section or its symbol table |
| ElfGnuLookup.ZeroOffsetDisagrees | scripts/verify_artifacts.py:381-386 | at symbol offset zero, for every name an accepted section on which verifier and loader disagree |
| ElfSysvHash.ComputeSysvHash | scripts/verify_artifacts.py:417-425 | the loop computes the generic ABI's hash, a 28-bit value |
| ElfSysvHash.FoldedHashAgrees | scripts/verify_artifacts.py:417-425 | folding at every step and clearing the top nibble once at the end gives the same hash |
| ElfSysvHash.SysvHashSymbolCount | scripts/verify_artifacts.py:281-304 | the section is refused for its cardinalities or an escaping entry, and otherwise gives a table whose every entry is a symbol |
| ElfSysvHash.SysvHashReaches | scripts/verify_artifacts.py:435-448 | yes if and only if the walk reaches the target, no if it ends without it, an error if and only if it loops |
| ElfSysvHash.LoaderAgrees | scripts/verify_artifacts.py:435-448 | for a name held by one symbol the walk reaches it if and only if a loader binds the name, and then to that symbol |
| ProcessGroup.OrderlySnoc | scripts/retire_legacy_workflows.py:70-75 | the order of signals and reaps is kept by a signal before the reap, by a reap after a KILL, and by an observed loss |
| ProcessCapture.Pipe.Read | scripts/retire_legacy_workflows.py:296-312 | what is kept of a stream is all of it, or a prefix once the limit is hit |
| ProcessCapture.Capture.KillGroupAndReap | scripts/retire_legacy_workflows.py:137-171 | KILL is recorded before any reap, never repeated after it, and every outcome keeps the protocol invariant |
| ProcessCapture.Capture.StopProcess | scripts/retire_legacy_workflows.py:173-200 | no signal without a successful ownership probe; an orderly stop is a TERM with the KILL right after it, and success means reaped |
| ProcessCapture.Capture.Drain | scripts/retire_legacy_workflows.py:296-312 | reading keeps at most the limit over both pipes, and overflow is set exactly when more was read |
| ProcessCapture.Capture.Poll | scripts/retire_legacy_workflows.py:248-333 | one turn keeps the invariants; an exit observed at or after the deadline is a timeout |
| ProcessCapture.Capture.CaptureProcess | scripts/retire_legacy_workflows.py:216-362 | with an exception possible at any call: no signal after the reap or after an observed ownership loss; without an outside reaper every signal precedes the reap and an unresolved hard kill means an unreaped leader; a normal return means killed and reaped |
| ClosedErrors.OnlyClosedExact | singbox/internal/bridge/bridge.go:183-204 | an error counts as only-closed if and only if no path through its wraps and joins ends at another error or a dead end |
| CoreLifecycle.Lifecycle.CloseQuietly | singbox/internal/bridge/bridge.go:206-213 | a panic while closing is never a confirmation |
| CoreLifecycle.Lifecycle.Start | singbox/internal/bridge/bridge.go:64-139 | whatever factory and core do, at most one unclosed core exists and it is held; while one is held nothing is constructed; success means running |
| CoreLifecycle.Lifecycle.Stop | singbox/internal/bridge/bridge.go:141-171 | success means no core remains; failure keeps the core and requires another Stop |
| CoreLifecycle.Lifecycle.IsRunning | singbox/internal/bridge/bridge.go:177-181 | running means one unclosed core, held and with no Stop pending |
| CoreLifecycle.Lifecycle.Serve | singbox/internal/bridge/bridge.go:64-171 | over every sequence of calls the invariant holds, and no core was unclosed whenever the factory was called |
| XrayLifecycle.Lifecycle.Start | internal/bridge/bridge.go:57-107 | a runtime that may be live always requires Stop; a start request never reaches a live one |
| XrayLifecycle.Lifecycle.Stop | internal/bridge/bridge.go:110-136 | success means that nothing is live; any other answer keeps Stop required |
| XrayLifecycle.Lifecycle.Serve | internal/bridge/bridge.go:57-136 | over every sequence of calls no start request is sent to a live runtime |
| ReleaseTags.TagReads | scripts/release_draft_state.py:181-191 | reading a written revision tag gives its revision, so different revisions have different tags |
| ReleaseTags.TagWrites | scripts/release_draft_state.py:181-191 | a tag that reads as a revision is the tag of that revision |
| ReleaseDrafts.AssetIds | scripts/release_draft_state.py:86-96 | asset ids are accepted if and only if they are positive and distinct |
| ReleaseDrafts.NextWrapperRevision | scripts/release_draft_state.py:174-228 | succeeds if and only if prefix, offset and every matching release are valid, tags are distinct and the sum is in range; the result is the offset above the largest visible reserved revision |
| ReleaseDrafts.PreparePlan | scripts/release_draft_state.py:64-101 | creates if and only if nothing has the tag, reuses if and only if the only release with the tag is a sound draft of the same commit, refuses otherwise; asset ids come sorted |
| ReleaseDrafts.ExactMatches | scripts/release_draft_state.py:41-58 | exactly the drafts and exactly the public releases with the tag, each list in order, or a refusal for an invalid state |
| UpstreamGuard.EnsureNotDowngrade | scripts/release_draft_state.py:231-263 | allowed if and only if the family is known, the upstream tag is a version, every published tag of the family parses, and none is above the target; each refusal is characterised |
| UpstreamGuard.PublishedReads | scripts/release_draft_state.py:237-258 | every version, with or without a wrapper revision, has a tag that is read as exactly that version and revision |
| WrapperReleases.RevisionsIncrease | scripts/release_draft_state.py:219-228 | larger offsets give larger revisions if and only if the visible maximum has not shrunk, and it has not while nothing visible disappears |
| WrapperReleases.HiddenDraftCollides | scripts/release_draft_state.py:174-228 | a draft shown to run 1 and hidden from run 10 makes both reserve revision 1011; run 10 then reuses run 1's draft for the same commit and is refused for another |
| WrapperReleases.Repository.Build | scripts/release_draft_state.py:174-228 | shown any list, drafts or not, a run's revision is above every visible one; as long as no build has seen a smaller maximum than the one before, it is above every earlier run's |
| WrapperReleases.Repository.HiddenDraftsSuffice | scripts/release_draft_state.py:174-228 | over a history in which builds are shown no draft, and the public releases stay, the visible maximum never shrinks |
| WrapperReleases.Repository.Prepare | scripts/release_draft_state.py:64-101 | over every history a reused draft has the run's commit, and is the run's own as long as no maximum has shrunk; tags and target commits never change |
| WrapperReleases.Repository.Publish | scripts/release_draft_state.py:64-101 | what becomes public carries the commit of the run that created it |
| WorkflowRetirement.TokenApproves | scripts/retire_legacy_workflows.py:653-670 | approving a token approves its branch, its workflows and exactly its runs |
| WorkflowRetirement.DeleteAll | scripts/retire_legacy_workflows.py:847-848 | only approved runs are deleted, after a read that showed both workflows disabled with the same completed runs |
| WorkflowRetirement.DisableAndProve | scripts/retire_legacy_workflows.py:826-845 | both workflows are disabled and a read then shows them disabled with the approved completed runs, or the run stops |
| WorkflowRetirement.WriteReceipt | scripts/retire_legacy_workflows.py:849-856 | a receipt names the approved branch and workflows and is the last event; without faults and foreign changes it is written if and only if no run is left, both workflows are disabled and the identities are unchanged |
| WorkflowRetirement.Retire | scripts/retire_legacy_workflows.py:811-856 | nothing is touched without the exact token or with an active run; every deletion is approved and follows the proof; a receipt means the last read showed no run, disabled workflows and unchanged identities |
| WorkflowRetirement.RetireWithRecovery | README.md:96-98 | without foreign changes, any number of attempts that break off anywhere followed by one that does not ends with the receipt the first would have written |

## Left out

- Regular expressions for proxy links, web addresses and plain-text secrets, and the order in which the sanitizer applies them: only the JSON pass and the cut in front of it are modelled, and not the two replacements between them.
- The list of secret key names and its case folding: one abstract predicate on decoded keys, false of `credential`.
- SHA-256, gzip, zlib and the tarfile writer: digests are identified with the digested bytes; the compressor's output is any sequence of writes.
- The incremental decoder of the payload scan is a function that keeps an incomplete character; which byte it stops at is not modelled, since a stopped decoder is dropped.
- The uniqueness of an extended header's length field: two self-consistent lengths exist for some path sizes, so only self-consistency is stated.
- File descriptors, symbolic links, fingerprints and fsync: in the publishing run they are calls that may fail and change no name.
- SourcePublish.WriteSourceArchive: the lock name beside the output, which the run creates when it is missing and never removes, is left out of the name table; a second exception inside a handler or a clean-up is covered where it hits a directory call, not between two statements.
- Reuse of inode numbers, and other writers in the output directory.
- ProcessCapture.Capture.StopProcess: the grace period is any number of naps, and waitid is one call although it restarts after an interrupt.
- ProcessCapture.Capture.CaptureProcess: the loop is cut off by an exception after an arbitrary number of turns, which covers every finite run; a child that leaves the session is outside the protocol, as the source says.
- ElfGnuLookup.LoaderAgreesExact: address translation through load segments is replaced by the mapped words.
- ElfSysvHash.LoaderAgrees: a loader that loops forever finds nothing, which is how the walk's error is read.
- Symbol type, binding, visibility and section checks of the required exports: field comparisons.
- CoreLifecycle.Lifecycle.Start: a factory panic leaves nothing behind, and a cancel function does not panic inside Start.
- Configuration parsing and trimming: its outcomes are cases of a datatype.
- TopologyAudit.AuditFailures.Append: messages are values, so the escaping of control characters and the cut at 1024 bytes are left out.
- SourceBuild.AddTree: opening and reading files, and the checks that the tree does not change during the walk; a tree is what one walk meets, and a directory never lists a name twice.
- WrapperReleases.Repository.constructor: at the start no draft has a revision above the epoch.
- WrapperReleases.Repository.Build: runs read the list in run-number order; a build job that is repeated later with a different list is a different run.
- Unicode white space in tags: an abstract predicate on characters.
- WorkflowRetirement.Retire: workflow paths on the default branch are checked by the same read and appear only as a way for it to fail; the token is identified with what it digests.
- SourceBudget.VendorAccount.Record: sizes are natural numbers, as measured; the limits on one path's depth are not part of the account.
- Manifest generators and verifiers, candidate handoff, remote release checks, public-tree audit, head-state checks, environment cleaning, shell scripts and command lines: field-by-field comparisons or plumbing.
