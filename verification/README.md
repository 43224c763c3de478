# MacPorts base: verified models of its algorithmic core

Dafny models of eight pieces of C in MacPorts base, with proofs about them.  Code that works in place
is modelled in place: classes with the fields of the C structures, arrays, cursors and loops, each
method proved against a function on values; the theorems are lemmas about those functions and about
whole runs.  `dafny verify dfyconfig.toml` checks everything.

| files | piece |
|---|---|
| `FileMap`, `FileMapDelete`, `FileMapRuns`, `FileMapNodes`, `FileMapStore`, `FileMapFiles`, `FileMapTruncated`, `FileMapList`, `FileMapNames`, `FileMapFormat` | the filemap: a sorted, case-insensitive trie with Set, Get, Delete and List, whole runs of them with closes and opens, its storage format, its reader and writer, what becomes of files that were cut off, which names are the same, and the bytes of its files |
| `SetMode`, `SetModeCompile`, `SetModeLaws`, `SetModeBits` | the chmod mode compiler: parser, command buffer, optimiser in place, interpreter, laws of modes, and what modes do bit by bit |
| `HashBuckets`, `HashChains`, `HashMap` | the chained hash map that resizes: its tables on values, the relinking of its entries in memory, and the ownership of its values |
| `FilemapPublication`, `Sandbox`, `PathNormalizer`, `NormalizerLaws` | trace mode: the compare-and-swap publication, the rule list and the sandbox decision, the path normaliser in place, and laws of what it answers |
| `BlockHash`, `Sha256`, `Sha256File`, `Sha256Laws`, `Rmd160` | the streaming hashers, and what SHA-256 computes bit by bit |
| `VerComp`, `VerOrder`, `VerLaws` | version comparison as an SQL collation, its segments, and which character decides |
| `Base32`, `Base32Laws` | the base32 commands, and the numbers that their texts write |
| `BitForms` | shifts, masks and ors against the quotients, remainders and sums that stand for them |
| `CStrings`, `Numbers`, `Sequences`, `Wrappers` | strings as C sees them; bytes and powers of two; sequences translated group by group; the optional value |

Conventions.  Characters and strings are those of C without their terminator, unless a buffer is
modelled; integers are unbounded except where a width matters, and then the wrap-around is written out
(the bit counts, `8 * len`, the words of SHA-256).  A read behind a buffer is an outcome of its own
(`Overrun` in the loader, `None` in the version comparison, a value field that is not `Readable`), not a
precondition.  The six logical functions and the constants of SHA-256 are a parameter of the proofs;
`Sha256File.Standard` has those of the program.  The block function of RIPEMD-160 and the hash function of the hash map are parameters.
`BITCMD` modes are sets of bit numbers.

## Where the code differs from its promises

The models follow the code.  For each of these points there is an input, and the exact condition under
which the code keeps the promise:

- A leaf that was loaded lacks the terminator in the last byte of its value field unless its value has 255 characters.  Setting it to a value of 255 characters or more makes Get, List and Save read behind the field (`FileMapRuns.LongValueAfterReopening`, exactly when in `FileMap.SetThenGet` and `FileMapRuns.StepReadableExactly`).  What memory holds in that byte is not known; the models take it for no terminator.
- A file whose first node is a leaf opens, and the code then uses the leaf as the directory at the root (`FileMapStore.LeafRootOpens`, exactly when in `FileMapStore.RootIsLeafExactly`).  The models of Set, Get and Delete on nodes ask for a directory.
- Set on a path that ends in a slash fails but can leave an empty directory (`FileMap.TrailingSlashLeavesEmptyDirectory`, exactly when in `FileMap.SetKeepsPrunedExactly`); Get does not see it.
- Delete never looks at the kind of a node: on a directory it removes every key below it (`FileMapDelete.DirectoryIsDeleted`, exactly when in `FileMapDelete.DeleteRemovesOnlyItsKeyExactly`).  Below a leaf it would read the leaf as a directory (`FileMapDelete.LeafIsMet`, exactly when in `FileMapDelete.DeletableExactly`); the models of Delete have that as a precondition.
- The loader's byte counter does not count terminators, so on a file that was cut off or damaged strlen and the cursor can run behind the buffer (`FileMapTruncated.OverrunInput`, exactly when in `FileMapTruncated.FileOverrunsExactly`; on files that were cut off, `FileMapTruncated.CutFile`).
- A numeric mode is compiled without a terminator (`SetModeCompile.NumericModeNeedsATerminator`, `SetModeLaws.NumericModeExactly`).
- A numeric mode that starts with 8 or 9 is accepted and means no bits, because the loop that refuses such digits starts at the second character (`SetModeLaws.EightIsAccepted`, `SetModeLaws.NonOctalAcceptedExactly`).
- In a symbolic mode an X after '-' is compiled to the command X all the same, which adds bits (`SetModeLaws.MinusXAdds`, `SetModeLaws.MinusAddsExactly`).
- A symbolic clause without classes that has a 't' takes the sticky bit for the only one that was chosen, so that its other letters do nothing: "+rt" adds no read permission (`SetModeBits.StickyAlone`, exactly in `SetModeBits.LettersMean`).
- hashMapClear does not reset the size (`HashMap.ClearedMapKeepsSize`, and the last clause of `HashMap.HashMap.Clear`).
- The path normaliser stops at the first empty component, so that what follows it is not checked (`PathNormalizer.DoubleSlashIsAllowed`, `PathNormalizer.SeesAllExactly`), and when ".." has left every component the buffer still shows the last one entered (`PathNormalizer.LeftComponentIsChecked`, `PathNormalizer.NormalizedExactly`).
- A rule whose path ends in a slash, as one from the environment may (base/src/port1.0/porttrace.tcl:198-203), matches no normalized path (`Sandbox.TrailingSlashMatchesNothing`, exactly which match in `Sandbox.MatchesExactly`).
- A thread whose reply is empty leaves the publication loop without a filemap (`FilemapPublication.EmptyReplyReturnsWithoutFilemap`, `FilemapPublication.PublishedExactlyWhenSomeReply`); without one every access is granted (`PathNormalizer.AnswerAfterReplies`).
- RMD160Update computes `8 * len` in 32 bits (`Rmd160.LongPieceIsLost`, `Rmd160.CountExactly`), and its block loop adds in 32 bits too, so that it does not end on the largest lengths (`Rmd160.NeverEnds`, `Rmd160.EndsExactly`).
- vercmp does not bound the loop that skips separators in A by the end of A (`VerComp.ReadsBehind`, `VerComp.StaysInsideExactly`), and takes a run of letters and its prefixes for equal (`VerComp.LettersAreNotCollated`, `VerOrder.EqualExactly`, `VerOrder.CollatesExactly`).

## Model

| member | source | states |
|---|---|---|
| FileMap.CmpZero | base/src/pextlib1.0/filemap.c:715-723 | two names compare equal (strncasecmp over the component, then no character left) exactly when they are equal after case folding |
| FileMap.CmpOpposite | base/src/pextlib1.0/filemap.c:715-723 | the comparison of two names changes its sign when they are exchanged |
| FileMap.CmpChain | base/src/pextlib1.0/filemap.c:715-723 | the comparison is transitive, strictly so when one of its steps is strict |
| FileMapNames.CompareEqual | base/src/pextlib1.0/filemap.c:715-723 | two names compare equal if and only if they have the same length and, character by character, are the same or the upper and lower case of an ASCII letter, 32 apart |
| FileMapNames.CompareDecides | base/src/pextlib1.0/filemap.c:715-723 | the first characters that are not the same decide which name is smaller, by the number of their lower case; a name that goes on where the other ends is larger |
| FileMap.NextPartIs | base/src/pextlib1.0/filemap.c:685-710 | a path is slashes and then nothing, or a component, or a component, a slash and the rest: which of them, and which component |
| FileMap.SearchSound | base/src/pextlib1.0/filemap.c:712-735 | on strictly sorted siblings the early exit is sound: all before the stop are smaller, all behind it are larger, and a hit is the only sibling with that folded name |
| FileMap.GetIsLookup | base/src/pextlib1.0/filemap.c:811-904 | Get on a sorted tree is lookup of the case-folded, slash-collapsed component list; a path without a key finds nothing |
| FileMapNames.KeyExactly | base/src/pextlib1.0/filemap.c:685-710 | a path denotes a key if and only if it is not empty and does not end in a slash |
| FileMapNames.SameKeyExactly | base/src/pextlib1.0/filemap.c:685-723 | two paths denote the same key if and only if their components, as written, are as many and the same text up to case, one by one |
| FileMapNames.CaseDoesNotMatter | base/src/pextlib1.0/filemap.c:811-904 | two paths that differ only in the case of letters find the same field in every sorted tree |
| FileMap.SetKeepsSorted | base/src/pextlib1.0/filemap.c:670-800 | Set keeps siblings strictly sorted under the folded order, everywhere in the tree |
| FileMap.SetBindsExactly | base/src/pextlib1.0/filemap.c:670-800 | a successful Set binds exactly its key, to the value cut to NAME_MAX characters in a field whose last byte is the terminator of a new leaf or what it was in an old one, and leaves the lookup of every other key as it was; a failing Set, on any path, changes no lookup |
| FileMapNames.SetIsFoundBy | base/src/pextlib1.0/filemap.c:670-904 | after a successful Set the value, cut to its field, is found by exactly the paths whose components are the same text up to case; every other path finds what it found before |
| FileMapFormat.FieldTakes | base/src/pextlib1.0/filemap.c:757-796 | the field takes a value of at most 255 characters whole, and the first 255 of a longer one |
| FileMap.SetThenGet | base/src/pextlib1.0/filemap.c:757-796 | Get after a successful Set reads the value cut to its field if and only if the value is shorter than the field, or the key was unbound, or the last byte of its field was a terminator; otherwise it reads behind the field |
| FileMap.SetErrorExactly | base/src/pextlib1.0/filemap.c:670-800 | which error Set returns, by what the tree already holds: ENOTDIR below a bound key, EISDIR at a directory or for a path without a key |
| FileMap.FailedSetChangesNothing | base/src/pextlib1.0/filemap.c:670-800 | a failing Set whose path denotes a key leaves the tree as it was |
| FileMap.SetKeepsPruned | base/src/pextlib1.0/filemap.c:670-800 | a Set whose path denotes a key leaves no empty directory, also when it fails |
| FileMap.KeylessSetExactly | base/src/pextlib1.0/filemap.c:670-800 | a Set without a key changes nothing when its path has no component, runs into a leaf or names a directory that is there; on every other path it leaves an empty directory |
| FileMap.SetKeepsPrunedExactly | base/src/pextlib1.0/filemap.c:670-800 | in a tree without empty directories a Set leaves none if and only if its path denotes a key, has no component, runs into a leaf, or names a directory that is there |
| FileMap.TrailingSlashLeavesEmptyDirectory | base/src/pextlib1.0/filemap.c:737-786 | one that leaves an empty directory: setting "a/" fails and leaves the directory a |
| FileMap.KeysPrefixFree | base/src/pextlib1.0/filemap.c:670-800 | of two bound keys neither is a proper prefix of the other |
| FileMap.DirectoryHasKeys | base/src/pextlib1.0/filemap.c:670-800 | without empty directories, a directory is at a key exactly when some longer key is bound |
| FileMap.EachIsBound | base/src/pextlib1.0/filemap.c:811-904 | all values in a sorted tree are of a kind if and only if all values that keys are bound to are |
| FileMap.SetSucceedsExactly | base/src/pextlib1.0/filemap.c:670-800 | without empty directories, Set succeeds exactly when its key keeps the bound keys prefix-free; otherwise the error says which side was violated |
| FileMapDelete.DeleteKeepsSorted | base/src/pextlib1.0/filemap.c:1008-1116 | Delete keeps the tree sorted |
| FileMapDelete.DeleteKeepsPruned | base/src/pextlib1.0/filemap.c:1008-1116 | Delete leaves no empty directory where there was none |
| FileMapDelete.DeleteUnbindsExactly | base/src/pextlib1.0/filemap.c:1008-1116 | Delete unbinds its key and every key below it, and nothing else |
| FileMapNames.UnsetIsMissedBy | base/src/pextlib1.0/filemap.c:1008-1116 | after an Unset nothing is found by the paths whose components start with its own, up to case; every other path finds what it found before |
| FileMapDelete.DeleteSucceedsExactly | base/src/pextlib1.0/filemap.c:1008-1116 | Delete succeeds exactly when a node, file or directory, is at its key |
| FileMapDelete.DeleteBoundPath | base/src/pextlib1.0/filemap.c:1008-1116 | on a path that Get finds, Delete succeeds and removes exactly that key |
| FileMapDelete.DeleteRemovesOnlyItsKeyExactly | base/src/pextlib1.0/filemap.c:1075-1112 | Delete keeps all other keys if and only if no key properly below its own is bound, which without empty directories is to say that no directory is there |
| FileMapDelete.DeleteFindsExactly | base/src/pextlib1.0/filemap.c:1008-1116 | without empty directories, Delete succeeds exactly when some key at or below its own is bound |
| FileMapRuns.LookupAsLoaded | base/src/pextlib1.0/filemap.c:362-410 | a tree that was saved and loaded binds the same keys to the same texts, in new fields |
| FileMapRuns.ReopenedIs | base/src/pextlib1.0/filemap.c:198-541 | closing and opening goes through the file: what Load makes of what Save wrote |
| FileMapRuns.RunIsFiniteMap | base/src/pextlib1.0/filemap.c:198-1116 | over every run of Set, Unset, and closing and opening again, the tree stays sorted and its bindings are those of a finite map from keys to value fields |
| FileMapRuns.RunGet | base/src/pextlib1.0/filemap.c:811-904 | so after every run Get answers as that finite map, for every path |
| FileMapRuns.RunPruned | base/src/pextlib1.0/filemap.c:670-1116 | runs whose Sets all denote keys leave no empty directory |
| FileMapRuns.RunFits | base/src/pextlib1.0/filemap.c:670-1116 | a run of n commands leaves fields that fit and directories of at most n entries |
| FileMapRuns.ProperExactly | base/src/pextlib1.0/filemap.c:198-1116 | the finite map alone says which commands can be given: no bound key above that of an Unset, and only values that can be read when the filemap is closed |
| FileMapRuns.RunRefinesMap | base/src/pextlib1.0/filemap.c:198-1116 | filemaps refine finite maps: over every run of fewer than 2^32 commands, with any number of closes and opens, each command succeeds or fails as the finite map alone says, and the tree binds what the finite map binds |
| FileMapRuns.StepReadableExactly | base/src/pextlib1.0/filemap.c:757-796 | a command makes a value that cannot be read if and only if it sets one of at least 255 characters for a bound key whose field lacks its last terminator |
| FileMapRuns.ShortValuesAreReadable | base/src/pextlib1.0/filemap.c:757-796 | runs that set shorter values bind only values that can be read |
| FileMapRuns.LongValueAfterReopening | base/src/pextlib1.0/filemap.c:394-400 | an input: the key a with the value v, closed and opened, and set to a value of at least 255 characters, which Get then reads behind |
| FileMapDelete.DeletableExactly | base/src/pextlib1.0/filemap.c:1082-1086 | Delete meets no leaf on its way if and only if no key above that of the path is bound, nor the key itself when the path ends in a slash |
| FileMapDelete.LeafIsMet | base/src/pextlib1.0/filemap.c:1082-1086 | a path on which it does |
| FileMapDelete.DirectoryIsDeleted | base/src/pextlib1.0/filemap.c:1075-1112 | a directory with a bound path in it, and its deletion: the path is no longer found |
| FileMapNodes.Node.NewLeaf | base/src/pextlib1.0/filemap.c:760-770 | a new leaf stands for its name and value |
| FileMapNodes.Node.NewDir | base/src/pextlib1.0/filemap.c:299-308 | a new directory, and the root that Create makes, stands for an empty one |
| FileMapNodes.Node.Find | base/src/pextlib1.0/filemap.c:712-735 | the loop over the siblings stops where the search on values does |
| FileMapNodes.Node.InsertAt | base/src/pextlib1.0/filemap.c:740-774 | reallocation, memmove and store put the child at its place among the others |
| FileMapNodes.Node.RemoveAt | base/src/pextlib1.0/filemap.c:1104-1112 | the memmove of Delete takes exactly that child out |
| FileMapNodes.Node.Set | base/src/pextlib1.0/filemap.c:670-800 | Set in place turns the tree of the nodes into what Set makes of it on values, with the same error |
| FileMapNodes.Node.SetBelow | base/src/pextlib1.0/filemap.c:777-786 | the recursive call changes the child and leaves its siblings as they are |
| FileMapNodes.Node.Delete | base/src/pextlib1.0/filemap.c:1008-1116 | Delete in place does what Delete does on values, with the same error |
| FileMapNodes.Node.DeleteBelow | base/src/pextlib1.0/filemap.c:1082-1102 | the recursive call, and the removal of a child that became empty |
| FileMapNodes.Node.Get | base/src/pextlib1.0/filemap.c:811-904 | Get on the nodes answers as Get on the tree they form |
| FileMapStore.LoadSaved | base/src/pextlib1.0/filemap.c:319-464 | LoadNode on a saved tree followed by any bytes: names and texts come back, in new fields, with the cursor right behind it when the budget covers its bytes without terminators; otherwise the end of the file is reported |
| FileMapStore.CostWithinSize | base/src/pextlib1.0/filemap.c:319-464 | that budget is smaller than the saved form, so it never runs out on saved data |
| FileMapStore.LoadedIsSaved | base/src/pextlib1.0/filemap.c:319-464 | conversely, whatever LoadNode accepts in a buffer of bytes is the saved form of the tree it returns, charged at its cost |
| FileMapStore.Be32RoundTrip | base/src/pextlib1.0/filemap.c:420-424 | the four bytes of a count below 2^32 read back as the count |
| FileMapFormat.CountWritten | base/src/pextlib1.0/filemap.c:593-596 | the four bytes of a count make the count, the first one counting most |
| FileMapFormat.CountRead | base/src/pextlib1.0/filemap.c:420-424 | a count that is read is what its four bytes make, the first one counting most |
| FileMapFormat.LeafBytes | base/src/pextlib1.0/filemap.c:551-583 | a saved leaf: the byte 1, the name, a zero, the value, a zero |
| FileMapFormat.DirectoryBytes | base/src/pextlib1.0/filemap.c:551-617 | a saved directory: the byte 0, the name, a zero, four bytes that make the number of its entries, the first one counting most, and the entries |
| FileMapFormat.FileBytes | base/src/pextlib1.0/filemap.c:134-136 | a saved file: the signature, a zero, the version 0.1.0.0, and the root |
| FileMapFormat.HeaderRefused | base/src/pextlib1.0/filemap.c:228-271 | a file is refused for its signature if and only if it has at least 28 bytes and starts with another; for its version if and only if it is shorter but not empty, or only the version is another |
| FileMapFormat.OneEntryFile | base/src/pextlib1.0/filemap.c:551-617 | the file of a filemap with one key, byte by byte |
| FileMapStore.FileRoundTrip | base/src/pextlib1.0/filemap.c:198-292 | a saved file opens as the tree that was saved, in new fields, also when bytes follow it |
| FileMapStore.OpensExactly | base/src/pextlib1.0/filemap.c:198-292 | a non-empty file opens as a tree if and only if its leaves are as loaded and the file starts with its saved form |
| FileMapStore.SavedFileInjective | base/src/pextlib1.0/filemap.c:473-541 | trees that are saved alike have the same names and texts |
| FileMapStore.RootIsLeafExactly | base/src/pextlib1.0/filemap.c:276-276 | a file that opens has a leaf as its root if and only if its first node is of that kind |
| FileMapStore.LeafRootOpens | base/src/pextlib1.0/filemap.c:276-276 | such files open |
| FileMapTruncated.CutTree | base/src/pextlib1.0/filemap.c:319-464 | on a saved tree cut behind any byte the loader fails: with the end of the file if and only if nothing is left at all, or the cut lies in a count and the bytes left of it and the terminators before it are fewer than four; otherwise by reading behind its buffer |
| FileMapTruncated.CutFile | base/src/pextlib1.0/filemap.c:198-292 | what Load makes of every proper prefix of a saved file |
| FileMapTruncated.OverrunsExactly | base/src/pextlib1.0/filemap.c:319-464 | on every string of bytes: the loader reads behind its buffer if and only if the bytes are cut from a saved tree, whose last field may have any length, at a place where the cut is not noticed |
| FileMapTruncated.FileOverrunsExactly | base/src/pextlib1.0/filemap.c:198-292 | and on every file |
| FileMapTruncated.NoProperPrefixOpens | base/src/pextlib1.0/filemap.c:198-292 | no proper prefix of a saved file opens, but for the empty file |
| FileMapTruncated.OverrunInput | base/src/pextlib1.0/filemap.c:347-361 | a file on which the loader reads behind its buffer |
| FileMapFiles.Output.SaveNode | base/src/pextlib1.0/filemap.c:549-620 | the recursive writes append the saved form of the nodes, if and only if all values can be read; otherwise strlen runs behind a field |
| FileMapFiles.Output.SaveSubnodes | base/src/pextlib1.0/filemap.c:605-615 | the loop over the subnodes appends their saved forms in order, up to a value that cannot be read |
| FileMapFiles.Input.ReadField | base/src/pextlib1.0/filemap.c:348-361 | strlen, the two checks and the copy advance cursor and budget as the format says, or fail with the right error |
| FileMapFiles.Input.LoadNode | base/src/pextlib1.0/filemap.c:319-464 | the recursive reader builds fresh nodes for the tree at the cursor, advances cursor and budget as the format says, or fails with the right error |
| FileMapFiles.Input.ReadSubnodes | base/src/pextlib1.0/filemap.c:441-454 | the loop over the subnodes fills the directory in order and stops at the first failure |
| FileMapFiles.Save | base/src/pextlib1.0/filemap.c:473-541 | header and nodes written one after the other are the saved file, if and only if all values can be read |
| FileMapFiles.Load | base/src/pextlib1.0/filemap.c:198-292 | the checks of size, signature and version and the reader open exactly what the format opens |
| FileMapFiles.Reopen | base/src/pextlib1.0/filemap.c:198-541 | a storable tree of nodes, saved and loaded, comes back in fresh nodes with the same names and texts |
| FileMapList.OutList.ListSubtree | base/src/pextlib1.0/filemap.c:934-994 | the walk appends the paths below a node whose values match, in order, if and only if every comparison ends within its value field |
| FileMapList.ListedIsBound | base/src/pextlib1.0/filemap.c:913-994 | Get on a listed path finds a value equal to the one asked for, ignoring case |
| FileMapNames.ValuesAlike | base/src/pextlib1.0/filemap.c:945-945 | values match if and only if they are the same text up to the case of ASCII letters |
| FileMapList.ListsExactly | base/src/pextlib1.0/filemap.c:913-994 | a key is listed if and only if it is bound to such a value |
| FileMapList.ListsInOrder | base/src/pextlib1.0/filemap.c:913-994 | listed keys are strictly ascending in tree order, so none is listed twice |
| SetMode.GetMode | base/src/pextlib1.0/setmode.c:102-168 | the loop computes the meaning of the list up to its terminator |
| SetMode.RunStopsAtTerminator | base/src/pextlib1.0/setmode.c:161-166 | cells behind a terminator do not matter |
| SetMode.ReadGroup | base/src/pextlib1.0/setmode.c:451-464 | the inner loop reads exactly one maximal group of bit commands and its pending effect |
| SetMode.WriteGroup | base/src/pextlib1.0/setmode.c:465-482 | writes what a group comes down to and no other cell |
| SetMode.CopyCommands | base/src/pextlib1.0/setmode.c:444-449 | moves the other commands down to the write cursor, up to the terminator |
| SetMode.CompressMode | base/src/pextlib1.0/setmode.c:436-484 | in place, the cells up to the terminator become the optimised list and its terminator; the write cursor never passes the read cursor and no cell beyond is written |
| SetMode.CompressPreservesMeaning | base/src/pextlib1.0/setmode.c:436-484 | for every list, old mode and current mode, running the optimised list gives what the original gives |
| SetMode.CompressNormalizes | base/src/pextlib1.0/setmode.c:430-484 | the output has at most one -, + and X in this order between copy commands, with + bits apart from the others |
| SetMode.FixedPointsAreNormalForms | base/src/pextlib1.0/setmode.c:436-484 | the lists that compression leaves as they are, are exactly the normal forms |
| SetMode.CompressIdempotent | base/src/pextlib1.0/setmode.c:436-484 | a second compression changes nothing |
| SetMode.CompressIsComplete | base/src/pextlib1.0/setmode.c:436-484 | two lists of bit commands mean the same on every old mode if and only if they come down to the same effect, up to bits that X decides anyway |
| SetModeCompile.CommandBuffer.Reserve | base/src/pextlib1.0/setmode.c:170-185 | the growing half of ADDCMD keeps the commands and leaves room for two more and the terminator |
| SetModeCompile.CommandBuffer.AddBits | base/src/pextlib1.0/setmode.c:374-387 | the commands of =, +, - and X are appended inside the buffer |
| SetModeCompile.CommandBuffer.AddCopy | base/src/pextlib1.0/setmode.c:389-409 | a copy command is appended inside the buffer with its masks and flags |
| SetModeCompile.ReadWho | base/src/pextlib1.0/setmode.c:248-266 | the loop over class letters |
| SetModeCompile.ReadPerms | base/src/pextlib1.0/setmode.c:275-346 | the loop over permission letters appends the commands of one action |
| SetModeCompile.ReadClauses | base/src/pextlib1.0/setmode.c:247-353 | the loop over clauses appends the commands of the whole string, or refuses it |
| SetModeCompile.CompileCorrect | base/src/pextlib1.0/setmode.c:247-353 | a symbolic string compiles if and only if it has a meaning, and running its commands is that meaning |
| SetModeCompile.CopyRun | base/src/pextlib1.0/setmode.c:118-146 | a copy command with its masks, shifts and flags copies the permissions class by class |
| SetModeCompile.ClausesConcatenate | base/src/pextlib1.0/setmode.c:247-353 | clauses compile to the concatenation of their commands |
| SetModeCompile.SetSymbolicMode | base/src/pextlib1.0/setmode.c:247-365 | the symbolic branch returns the compressed program, terminated inside the array |
| SetModeCompile.MakeMode | base/src/pextlib1.0/setmode.c:189-365 | setmode on every string: the empty string and malformed ones are refused, symbolic ones compiled, numeric ones compiled without terminator |
| SetModeCompile.ChangeMode | base/src/pextlib1.0/xinstall.c:230-238 | setmode followed by getmode computes the meaning of the symbolic string |
| SetModeBits.LettersMean | base/src/pextlib1.0/setmode.c:249-347 | a clause of any classes, an operator and any of the letters r, w, x, X, s and t: for every bit of the result, whether it is set, said with bit numbers (8, 7, 6 for the user, 5, 4, 3 for the group, 2, 1, 0 for others, 11 and 10 for the ids, 9 sticky) |
| SetModeBits.OneLetterMeans | base/src/pextlib1.0/setmode.c:249-347 | u, g or o with r, w or x: the operator + sets exactly one bit, - clears exactly it, = sets it and clears the other bits of the class; u with r is bit 8, o with x is bit 0 |
| SetModeBits.StickyAlone | base/src/pextlib1.0/setmode.c:289-298 | without classes a t makes the other letters count for nothing: + and - only touch the sticky bit |
| SetModeBits.CopyMeans | base/src/pextlib1.0/setmode.c:308-327 | a clause that copies from u, g or o: for every bit of the result, whether it is set, said with bit numbers |
| SetModeBits.CopyAmongLetters | base/src/pextlib1.0/setmode.c:308-327 | letters, a class to copy from and letters again mean one after the other |
| SetModeBits.XBeforeCopy | base/src/pextlib1.0/setmode.c:321-327 | with + an X before a class to copy from adds its bits before the copy, with - and = behind it |
| SetModeBits.OperatorsInTurn | base/src/pextlib1.0/setmode.c:268-352 | a further operator in a clause works on the same classes and on the mode that the ones before it left |
| SetModeBits.AcceptedExactly | base/src/pextlib1.0/setmode.c:247-353 | a symbolic string is accepted if and only if it is well formed: in every clause classes first, then an operator, then operators and letters to the comma |
| SetModeBits.NumericMeans | base/src/pextlib1.0/setmode.c:227-241 | a string of octal digits is accepted if and only if only zeros come before its last four; bit b of the mode is bit b mod 3 of digit b / 3 from the right, and all twelve bits are assigned |
| SetModeBits.UmaskLeaves | base/src/pextlib1.0/setmode.c:212-213 | without classes the bits that may be touched are those the umask does not have |
| SetModeLaws.CommaIsThen | base/src/pextlib1.0/setmode.c:247-353 | p, a comma and q mean q after p |
| SetModeLaws.OnlyPermissionBitsChange | base/src/pextlib1.0/setmode.c:247-353 | a symbolic mode changes no bit but the twelve permission bits |
| SetModeLaws.MinusAddsExactly | base/src/pextlib1.0/setmode.c:303-344 | a clause with - adds no bit if and only if it has no X, or the old mode is not executable, or the mode has the execute bits that the clause selects |
| SetModeLaws.MinusXAdds | base/src/pextlib1.0/setmode.c:303-344 | a-X on an executable mode sets all execute bits |
| SetModeLaws.NumericModeExactly | base/src/pextlib1.0/setmode.c:227-241 | a numeric mode gives its number on every mode, whatever lies behind, if and only if the cell behind its two commands holds no command |
| SetModeLaws.NonOctalAcceptedExactly | base/src/pextlib1.0/setmode.c:227-238 | a numeric string with a character that is not octal is accepted if and only if that is the first one; it then means no bits |
| SetModeLaws.EightIsAccepted | base/src/pextlib1.0/setmode.c:227-238 | such a string: 8 |
| SetModeCompile.NumericModeNeedsATerminator | base/src/pextlib1.0/setmode.c:227-241 | with a command left there it need not: cells for which getmode returns another mode |
| HashBuckets.MaskIsMod | base/src/machista1.0/hashmap.c:86-88 | masking with a power of two less one is the remainder |
| HashBuckets.IndexFor | base/src/machista1.0/hashmap.c:86-88 | the bucket of a hash is hash mod capacity |
| HashMap.HashMap.constructor | base/src/machista1.0/hashmap.c:115-129 | a new map is empty, with 16 buckets |
| HashMap.HashMap.Get | base/src/machista1.0/hashmap.c:205-214 | get answers as the finite map, NULL for a missing key |
| HashMap.HashMap.ContainsKey | base/src/machista1.0/hashmap.c:218-227 | true exactly for the keys of the finite map |
| HashMap.HashMap.Grow | base/src/machista1.0/hashmap.c:176-200 | doubling the capacity keeps contents and owned values, and restores the load factor below the cap |
| HashMap.LoadIs | base/src/machista1.0/hashmap.c:67-67 | a size is above the threshold if and only if it is more than three quarters of the capacity |
| HashBuckets.Resized | base/src/machista1.0/hashmap.c:186-195 | moving every entry of every bucket to the head of its bucket in an empty table of another size keeps what the table finds and owns |
| HashChains.NoRepeat | base/src/machista1.0/hashmap.c:139-143 | a chain that ends visits no entry twice |
| HashChains.Chains.Find | base/src/machista1.0/hashmap.c:139-143 | the walk along next finds the first entry with the hash and the key, and the entry before it |
| HashChains.Chains.LinkHead | base/src/machista1.0/hashmap.c:165-168 | the new entry is the head of its chain, before all others; the other chains stay |
| HashChains.Chains.Unlink | base/src/machista1.0/hashmap.c:231-247 | relinking the entry before it, or the head, takes exactly that entry out of its chain; the other chains stay |
| HashChains.Chains.SetValue | base/src/machista1.0/hashmap.c:105-111 | one entry gets the new value; all links stay |
| HashChains.MoveChain | base/src/machista1.0/hashmap.c:188-194 | the inner loop of the resize relinks the entries of one chain, in order, each to the head of its chain in the new table |
| HashChains.MoveAll | base/src/machista1.0/hashmap.c:186-195 | the outer loop relinks every entry; none is lost, copied or visited twice |
| HashMap.HashMap.Put | base/src/machista1.0/hashmap.c:132-201 | put updates the finite map at the key, hands the old value back or frees it, and keeps every invariant |
| HashMap.HashMap.Remove | base/src/machista1.0/hashmap.c:231-256 | remove takes the key out of the finite map and hands its value back or frees it; for a missing key NULL |
| HashMap.HashMap.Clear | base/src/machista1.0/hashmap.c:272-285 | clear frees every value and empties every chain; size stays, so the map is valid again exactly when it was zero |
| HashMap.ClearedMapKeepsSize | base/src/machista1.0/hashmap.c:272-285 | a cleared map without entries whose size is one |
| HashMap.HashMap.Destroy | base/src/machista1.0/hashmap.c:289-295 | after destroy no value is stored: each non-NULL value put was freed or handed back |
| HashMap.ValuesHaveOneOwner | base/src/machista1.0/hashmap.c:97-111 | when no value was put twice, the values put are the disjoint union of stored, freed and handed back, each once |
| HashMap.Perform | base/src/machista1.0/hashmap.c:132-256 | each operation is that operation on the finite map |
| HashMap.Lifetime | base/src/machista1.0/hashmap.c:115-295 | over every run from create to destroy, across any number of resizes, the answers are those of a finite map and every value put is freed exactly as often as it was put and not taken back |
| FilemapPublication.StepKeepsInv | base/src/darwintracelib1.0/darwintrace.c:285-330 | every step of every thread keeps the invariant: each reply is published, freed once, or held by one thread |
| FilemapPublication.PublishedOnce | base/src/darwintracelib1.0/darwintrace.c:316-322 | once the filemap is set it never changes, in any interleaving |
| FilemapPublication.ReturnedThreadSeesFilemap | base/src/darwintracelib1.0/darwintrace.c:308-322 | a thread that returned without an empty reply finds a filemap |
| FilemapPublication.AtMostTwoIterations | base/src/darwintracelib1.0/darwintrace.c:316-322 | no thread begins a third iteration |
| FilemapPublication.NoLeakNoDoubleFree | base/src/darwintracelib1.0/darwintrace.c:308-322 | when all have returned, every reply is the published one or was freed, exactly once, and nothing else was freed |
| FilemapPublication.PublishedExactlyWhenSomeReply | base/src/darwintracelib1.0/darwintrace.c:308-322 | when all have returned, there is a filemap if and only if some reply was not empty |
| FilemapPublication.FreedOnlyAfterPublication | base/src/darwintracelib1.0/darwintrace.c:316-322 | a reply is freed only because another one was published |
| FilemapPublication.EmptyReplyReturnsWithoutFilemap | base/src/darwintracelib1.0/darwintrace.c:316-322 | with an empty reply a thread can return without a filemap: a run |
| FilemapPublication.WaitFree | base/src/darwintracelib1.0/darwintrace.c:308-322 | a thread that has not returned can always step, and returns after at most six steps of its own, whatever the others do |
| Sandbox.PathBeginsWith | base/src/darwintracelib1.0/darwintrace.c:183-197 | the two cursors decide whether the prefix is empty, "/", the path itself, or the path up to a slash |
| Sandbox.BeginsWithIsPrefix | base/src/darwintracelib1.0/darwintrace.c:178-197 | on every path and every rule: the rule matches if and only if it is empty, or "/", or its list of parts between slashes is a prefix of that of the path |
| Sandbox.MatchesExactly | base/src/darwintracelib1.0/darwintrace.c:178-197 | on a normalized path a rule matches if and only if it is empty or the normalized path of a prefix of the components |
| Sandbox.BeginsWithIsAncestor | base/src/darwintracelib1.0/darwintrace.c:178-197 | on normalized paths this is "is an ancestor or equal", component by component |
| Sandbox.TrailingSlashMatchesNothing | base/src/darwintracelib1.0/darwintrace.c:183-197 | a rule whose path ends in a slash, other than "/", matches no normalized path |
| Sandbox.Iterator.Next | base/src/darwintracelib1.0/darwintrace.c:236-279 | one step of the iterator returns the next rule and moves right behind it; a REDIR command aborts |
| Sandbox.ReadRules | base/src/darwintracelib1.0/darwintrace.c:224-279 | iterating the serialized form yields the rules in order |
| Sandbox.SerializeInjective | base/src/darwintracelib1.0/darwintrace.c:199-279 | two rule lists are serialized alike only if they are equal |
| Sandbox.SandboxCheck | base/src/darwintracelib1.0/darwintrace.c:642-705 | the loop answers, and reports, as the first rule that stops it says; "/" and admitted directories are allowed before |
| Sandbox.AllowedByFirstAncestor | base/src/darwintracelib1.0/darwintrace.c:642-705 | for every list of rules and every path: the path is allowed if and only if the first rule that redirects or is, part by part, for the path or above it grants access; the process is aborted if and only if that rule has another command than allow, ask and deny |
| NormalizerLaws.ReportsExactly | base/src/darwintracelib1.0/darwintrace.c:660-700 | a violation is reported exactly when access is denied, an unknown file exactly when a rule asks and the file belongs to no port, and nothing without DT_REPORT |
| PathNormalizer.PathBuffer.Process | base/src/darwintracelib1.0/darwintrace.c:828-865 | one turn of the loop takes the buffer from the components read so far to one more, within its bounds |
| PathNormalizer.PathBuffer.Normalize | base/src/darwintracelib1.0/darwintrace.c:828-865 | after the loop the buffer holds the resolution of the components, contiguous, each with its descriptor |
| PathNormalizer.PathBuffer.Strip | base/src/darwintracelib1.0/darwintrace.c:867-872 | a resource fork suffix is dropped |
| PathNormalizer.PathBuffer.AddSlashes | base/src/darwintracelib1.0/darwintrace.c:931-938 | terminators between components become slashes |
| PathNormalizer.NormalizePath | base/src/darwintracelib1.0/darwintrace.c:737-938 | what the buffer shows at the end, for every absolute path shorter than MAXPATHLEN |
| PathNormalizer.NormalizedExactly | base/src/darwintracelib1.0/darwintrace.c:836-847 | the buffer shows the lexical resolution if and only if something is left of the path or no component was entered from the root |
| PathNormalizer.ResolutionLaws | base/src/darwintracelib1.0/darwintrace.c:833-847 | "." can be dropped, a component followed by ".." can be dropped, ".." at the root can be dropped |
| PathNormalizer.ResolvedAlready | base/src/darwintracelib1.0/darwintrace.c:848-859 | without "." and ".." a path is its own resolution |
| PathNormalizer.SeesAllExactly | base/src/darwintracelib1.0/darwintrace.c:828-864 | the loop sees all components of an absolute path if and only if no two slashes in a row have a character that is no slash behind them |
| PathNormalizer.TokensExactly | base/src/darwintracelib1.0/darwintrace.c:828-864 | on every absolute path: the loop sees the components before the first empty one, and no other |
| PathNormalizer.DoubleSlashIsAllowed | base/src/darwintracelib1.0/darwintrace.c:828-864 | a path that starts with two slashes is taken for the root and allowed, whatever the rules say |
| PathNormalizer.LeftComponentIsChecked | base/src/darwintracelib1.0/darwintrace.c:836-847 | /a/.. resolves to the root but is checked as /a |
| PathNormalizer.CheckedPathIsResolution | base/src/darwintracelib1.0/darwintrace.c:828-938 | for every absolute path whose components are all seen, what is checked is the lexical resolution of its components if and only if something is left of it or it has nothing but dots |
| PathNormalizer.AnswerForPath | base/src/darwintracelib1.0/darwintrace.c:642-938 | the answer for every absolute path and every list of rules: granted for the root and admitted directories, and otherwise exactly when the first rule that redirects, or that is for an ancestor of what the buffer shows or for it, grants it; aborted exactly when that rule is of no known command |
| NormalizerLaws.StripExactly | base/src/darwintracelib1.0/darwintrace.c:867-872 | the components ..namedfork and rsrc are dropped when they are the last two, and nothing else is |
| NormalizerLaws.PlainIsResolved | base/src/darwintracelib1.0/darwintrace.c:831-865 | components without . and .. are their own resolution |
| NormalizerLaws.DotsCancel | base/src/darwintracelib1.0/darwintrace.c:831-865 | a . can be dropped anywhere, so can a component and the .. behind it, and a .. at the root |
| NormalizerLaws.LastEntered | base/src/darwintracelib1.0/darwintrace.c:831-865 | when every component was left, the one shown is the last that was entered from the root |
| NormalizerLaws.ResolutionIsShown | base/src/darwintracelib1.0/darwintrace.c:827-872 | on a path with single slashes, whose resolution has a component and does not end in the names of a resource fork, the buffer shows the resolution |
| NormalizerLaws.AnswerForResolution | base/src/darwintracelib1.0/darwintrace.c:642-705 | such a path is granted if and only if it is a directory that is admitted, or the first rule that redirects or is for the resolution or an ancestor of it grants it |
| NormalizerLaws.AnswerForPlainPath | base/src/darwintracelib1.0/darwintrace.c:642-705 | a path of components without dots and that suffix is answered as it is written |
| NormalizerLaws.AllowedBelow | base/src/darwintracelib1.0/darwintrace.c:642-705 | below the path of a first rule that allows, everything is granted and nothing reported |
| PathNormalizer.AnswerAfterReplies | base/src/darwintracelib1.0/darwintrace.c:285-731 | when all threads that asked for the filemap have returned, every access is granted if all replies were empty; otherwise the published rules decide |
| PathNormalizer.ShownIsResolution | base/src/darwintracelib1.0/darwintrace.c:828-938 | where no component is hidden and something is left, what the buffer shows is the lexical resolution |
| PathNormalizer.IsInSandbox | base/src/darwintracelib1.0/darwintrace.c:724-938 | without a filemap access is granted; otherwise the normalized path is what the sandbox check is asked about |
| BlockHash.Waits | base/src/pextlib1.0/sha2.c:387-394 | bytes that do not complete a block change no state; they wait behind the others |
| BlockHash.Completes | base/src/pextlib1.0/sha2.c:380-386 | bytes that complete a block fold exactly that block in |
| BlockHash.PaddedInjective | base/src/pextlib1.0/sha2.c:425-453 | padded messages with lengths told apart by the length field are equal only if the messages are |
| BlockHash.PaddedIs | base/src/pextlib1.0/sha2.c:425-448 | the padded message: the message, the byte 0x80, as few zeros as fill whole blocks of 64, and the length field |
| Sha256.HostRoundTrip | base/src/pextlib1.0/sha2.c:207-222 | a word stored in host order in the buffer reads back as itself, on machines of either order |
| Sha256.NextWord | base/src/pextlib1.0/sha2.c:221-222 | the sum as the program orders it is the word of the schedule of FIPS 180-4 |
| Sha256.Context.ReadWord | base/src/pextlib1.0/sha2.c:207-209 | the next word of the block is read before its bytes are overwritten, also when the block is the buffer |
| Sha256.Context.Expand | base/src/pextlib1.0/sha2.c:216-226 | the in-place sum puts word j of the 64-word schedule into slot j mod 16 and keeps the fifteen words before it |
| Sha256.Context.TransformRolled | base/src/pextlib1.0/sha2.c:288-362 | the rolled transform computes the compression function of section 6.2.2 of FIPS 180-4, even when the data is the context buffer |
| Sha256.Context.FirstRound | base/src/pextlib1.0/sha2.c:206-214 | the renamed registers of one macro are the moved registers of one round |
| Sha256.Context.TransformUnrolled | base/src/pextlib1.0/sha2.c:228-284 | the eight-way unrolled transform with renamed registers computes the same function |
| Sha256.Context.constructor | base/src/pextlib1.0/sha2.c:192-200 | a new context stands for the empty message |
| Sha256.Context.Update | base/src/pextlib1.0/sha2.c:366-410 | an update with any number of bytes appends them to the message the context stands for: whole blocks in the state, the bit count modulo 2^64, the rest at the start of the buffer |
| Sha256.Context.Pad | base/src/pextlib1.0/sha2.c:425-448 | the padding before the length field, with the second-to-last transform when it does not fit |
| Sha256.Context.Final | base/src/pextlib1.0/sha2.c:412-472 | the digest is the one-shot hash of the message, padded as in section 5.1.1 of FIPS 180-4; the context is wiped, also when no digest is asked for |
| Sha256.ConvertedIsBigEndian | base/src/pextlib1.0/sha2.c:93-107 | byte reversal and a host store leave the bytes highest first |
| Sha256Laws.ScheduleIs | base/src/pextlib1.0/sha2.c:206-226 | the words of the schedule: the first sixteen are the bytes of the block, highest first; each other one is the sum modulo 2^32 of four earlier ones, two of them through the small sigmas |
| Sha256Laws.RoundsAre | base/src/pextlib1.0/sha2.c:307-348 | after t rounds the registers hold the last four values of the two sequences that section 6.2.2 of FIPS 180-4 defines, as sums modulo 2^32 |
| Sha256Laws.CompressIs | base/src/pextlib1.0/sha2.c:350-358 | a block adds the values after all rounds to the hash value, word by word modulo 2^32 |
| Sha256Laws.DigestIs | base/src/pextlib1.0/sha2.c:452-464 | the digest: the eight words in order, each with its highest byte first |
| Sha256Laws.FieldIs | base/src/pextlib1.0/sha2.c:421-450 | the length field: the bits of the message modulo 2^64, highest byte first |
| Sha256Laws.InitialValue | base/src/pextlib1.0/sha2.c:178-187 | the initial value: the first 32 bits of the fractions of the square roots of the first eight primes |
| Sha256Laws.Constants0 | base/src/pextlib1.0/sha2.c:158-175 | the constants: the first 32 bits of the fractions of the cube roots of the first 64 primes; eight of them here, and in the lemmas up to Constants56 |
| Sha256Laws.Constants8 | base/src/pextlib1.0/sha2.c:158-175 | those of 23 to 53 |
| Sha256Laws.Constants16 | base/src/pextlib1.0/sha2.c:158-175 | those of 59 to 89 |
| Sha256Laws.Constants24 | base/src/pextlib1.0/sha2.c:158-175 | those of 97 to 131 |
| Sha256Laws.Constants32 | base/src/pextlib1.0/sha2.c:158-175 | those of 137 to 173 |
| Sha256Laws.Constants40 | base/src/pextlib1.0/sha2.c:158-175 | those of 179 to 223 |
| Sha256Laws.Constants48 | base/src/pextlib1.0/sha2.c:158-175 | those of 227 to 263 |
| Sha256Laws.Constants56 | base/src/pextlib1.0/sha2.c:158-175 | those of 269 to 311 |
| Sha256File.FileDigest | base/src/pextlib1.0/md_wrappers.h:69-79 | however the reads cut a file, its digest is the hash of the whole, with the functions and constants of the program |
| Rmd160.CountSteps | base/src/pextlib1.0/rmd160.c:108-108 | what an update adds to the count: pieces of 2^29 bytes and more lose bits in 8 * len |
| Rmd160.CountExactly | base/src/pextlib1.0/rmd160.c:108-108 | the count is the length in bits if and only if the lost parts add up to a multiple of 2^64 bits |
| Rmd160.Context.Init | base/src/pextlib1.0/rmd160.c:90-99 | an initialized context stands for the empty message |
| Rmd160.Context.Absorb | base/src/pextlib1.0/rmd160.c:110-125 | block loop and partial block, for every length on which the loop ends |
| Rmd160.Context.Update | base/src/pextlib1.0/rmd160.c:101-126 | an update appends its bytes to the message; the count loses what 8 * len loses |
| Rmd160.Context.Finish | base/src/pextlib1.0/rmd160.c:135-145 | padding and size go through two updates; the message becomes the padded message and no incomplete block is left |
| Rmd160.Context.Final | base/src/pextlib1.0/rmd160.c:128-152 | the digest folds the block function over message, 0x80, zeros and the count, lowest byte first; the context is wiped |
| Rmd160.LongPieceIsLost | base/src/pextlib1.0/rmd160.c:108-108 | a single piece of 2^29 bytes is counted as none |
| Rmd160.EndsExactly | base/src/pextlib1.0/rmd160.c:106-123 | with the cursor and the guard in 32 bits the block loop ends if and only if the length is below 2^32 less the bytes that wait, or less 64 when none waits |
| Rmd160.NeverEnds | base/src/pextlib1.0/rmd160.c:119-122 | with nothing waiting the loop goes on forever on 2^32 - 64 bytes; with one byte waiting it ends |
| Rmd160.FileDigest | base/src/pextlib1.0/md_wrappers.h:69-79 | for every cut of a file the digest is that of the whole with the counted length, and the true hash when the lost parts are a multiple of 2^64 bits |
| Rmd160.BytesAre | base/src/pextlib1.0/rmd160.c:43-47 | the digest: the words in order, each with its lowest byte first |
| Rmd160.LengthIs | base/src/pextlib1.0/rmd160.c:33-41 | the length field has its lowest byte first |
| Rmd160.FieldIsTrueExactly | base/src/pextlib1.0/rmd160.c:108-108 | the length field is the true one if and only if they are; pieces below 2^29 bytes lose nothing |
| Sha256File.ChooseFacts | base/src/pextlib1.0/sha2.c:139-139 | Ch takes its second argument where the first has ones, and the third elsewhere |
| Sha256File.MajorityFacts | base/src/pextlib1.0/sha2.c:140-140 | Maj has a one where at least two of its arguments have |
| Sha256File.RotateBits | base/src/pextlib1.0/sha2.c:134-134 | bit i of a word rotated to the right by n is its bit i + n modulo 32 |
| Sha256File.BigSigma0Bits | base/src/pextlib1.0/sha2.c:143-143 | bit i of Sigma0 is the xor of bits i + 2, i + 13 and i + 22 modulo 32 |
| Sha256File.BigSigma1Bits | base/src/pextlib1.0/sha2.c:144-144 | bit i of Sigma1 is the xor of bits i + 6, i + 11 and i + 25 modulo 32 |
| Sha256File.SmallSigma0Bits | base/src/pextlib1.0/sha2.c:145-145 | bit i of sigma0 is the xor of bits i + 7 and i + 18 modulo 32 and bit i + 3, which is zero from bit 29 on |
| Sha256File.SmallSigma1Bits | base/src/pextlib1.0/sha2.c:146-146 | bit i of sigma1 is the xor of bits i + 17 and i + 19 modulo 32 and bit i + 10, which is zero from bit 22 on |
| Sha256File.OnWords | base/src/pextlib1.0/sha2.c:139-146 | the functions that the digest is computed with are these six, on the bits of the words |
| BitForms.LoadShifts | base/src/pextlib1.0/sha2.c:207-208 | the word that shifts and ors make of four bytes is the sum the model uses; also in the filemap format |
| BitForms.StoreShifts | base/src/pextlib1.0/filemap.c:593-596 | the bytes that shifts and masks make of a count are the digits the model uses |
| BitForms.Reverse32 | base/src/pextlib1.0/sha2.c:95-99 | the macro reverses the four bytes of a word |
| BitForms.Reverse64 | base/src/pextlib1.0/sha2.c:100-107 | the macro reverses the eight bytes of a word |
| BitForms.ReverseIsReversal | base/src/pextlib1.0/sha2.c:95-99 | the macro on a word of any four bytes is the reversal of its bytes, as the model of the digest has it |
| BitForms.Reverse64IsReversal | base/src/pextlib1.0/sha2.c:100-107 | and that on a word of any eight bytes |
| BitForms.WordIsLoaded | base/src/pextlib1.0/sha2.c:207-208 | the shifts and ors that read a word of the block give the word of the model |
| BitForms.CountIsStored | base/src/pextlib1.0/filemap.c:593-596 | the shifts and masks that store a count write the four bytes of the model |
| BitForms.CountIsLoaded | base/src/pextlib1.0/filemap.c:420-424 | the shifts and ors that load a count give the number of the model |
| BitForms.EncoderShifts | base/src/pextlib1.0/base32cmd.c:123-130 | the shifts and masks of the encoder are the quotients and remainders the model uses |
| BitForms.PartialShifts | base/src/pextlib1.0/base32cmd.c:137-202 | and those of the partial groups |
| BitForms.DecoderShifts | base/src/pextlib1.0/base32cmd.c:307-311 | the shifts of the decoder, stored in bytes, are the sums the model uses |
| BitForms.EncoderIsQuintets | base/src/pextlib1.0/base32cmd.c:123-130 | on any five bytes the eight expressions of the encoder are the quintets of the model |
| BitForms.DecoderIsOctets | base/src/pextlib1.0/base32cmd.c:307-311 | on any eight values the five expressions of the decoder are the bytes of the model |
| VerComp.Vercmp | base/src/cregistry/vercomp.c:61-172 | the nested loops compute the comparison segment by segment, or read behind A where it does |
| VerComp.SegmentIsNumeric | base/src/cregistry/vercomp.c:117-152 | digit runs of any length compare as the numbers they denote, leading zeros ignored |
| VerLaws.TextDecides | base/src/cregistry/vercomp.c:146-152 | the first characters that differ decide between two runs; when one run is a prefix of the other nothing does |
| VerComp.VerCmpIsLex | base/src/cregistry/vercomp.c:61-172 | on versions without letters that end in a digit, with any separators, the sign is the lexicographic order of the lists of numbers, a proper prefix being smaller |
| VerComp.ReadsBehind | base/src/cregistry/vercomp.c:80-83 | such a comparison: 1. with 1.0 |
| VerOrder.VerCmpIsSegLex | base/src/cregistry/vercomp.c:61-172 | on versions that end in a letter or a digit the sign is the lexicographic order of their segments, numbers after words |
| VerLaws.FirstSegment | base/src/cregistry/vercomp.c:81-109 | behind characters that are neither ASCII letters nor digits, the first run of one kind is the first segment, and the others follow behind it |
| VerLaws.NumbersAreSegments | base/src/cregistry/vercomp.c:101-109 | the segments of a version of numbers are its numbers |
| VerLaws.WordsDecide | base/src/cregistry/vercomp.c:111-155 | of two words the one with the larger character where they first differ is newer; a word and its prefix compare equal |
| VerLaws.NumbersAreNewer | base/src/cregistry/vercomp.c:98-107 | a version that starts with a digit is newer than one that starts with a letter |
| VerOrder.EqualExactly | base/src/cregistry/vercomp.c:61-172 | two such versions are found equal if and only if their segments match one by one: equal numbers, and of two runs of letters one a prefix of the other |
| VerOrder.Total | base/src/cregistry/vercomp.c:174-189 | any two such versions can be compared, and exchanging them changes the sign |
| VerOrder.CollatesExactly | base/src/cregistry/vercomp.c:174-189 | on the versions whose runs of letters come from a given set, vercmp is transitive, so a collation, if and only if being a prefix one way or the other is transitive on that set |
| VerComp.LettersAreNotCollated | base/src/cregistry/vercomp.c:111-155 | with letters it is not: "ab" and "ac" both equal "a" and differ |
| VerComp.StaysInsideExactly | base/src/cregistry/vercomp.c:80-83 | comparisons with every B stay inside A if and only if A is empty or ends in a letter or a digit |
| Base32.OctetsOfQuintets | base/src/pextlib1.0/base32cmd.c:123-130 | the shifts of the decoder undo those of the encoder on a group |
| Base32.QuintetsOfOctets | base/src/pextlib1.0/base32cmd.c:307-311 | and the other way round |
| Base32.HexRoundTrip | base/src/pextlib1.0/base32cmd.c:336-339 | bytes written in hexadecimal read back as the bytes |
| Base32.FromHexRoundTrip | base/src/pextlib1.0/base32cmd.c:113-115 | hexadecimal digits come back in lower case |
| Base32Laws.SymbolIs | base/src/pextlib1.0/base32cmd.c:84-84 | the symbols are A to Z and 2 to 7, in this order |
| Base32Laws.ValueIs | base/src/pextlib1.0/base32cmd.c:233-255 | a character has a value if and only if it or its upper case is one of them, and the value is its place |
| Base32Laws.HexDigitIs | base/src/pextlib1.0/base32cmd.c:257-257 | the hexadecimal digits that are written |
| Base32Laws.HexIs | base/src/pextlib1.0/base32cmd.c:50-60 | the hexadecimal digits that are read, in either case, and what they stand for |
| Base32.Base32Encode | base/src/pextlib1.0/base32cmd.c:97-212 | the command computes the encoding, or the error for an odd length or a character that is not hexadecimal; no write leaves the output buffer |
| Base32.EncodeBuffer | base/src/pextlib1.0/base32cmd.c:119-206 | the loop over whole groups and the cases for the last one write the encoding |
| Base32.Base32Decode | base/src/pextlib1.0/base32cmd.c:266-346 | the command computes the decoding, or the error for the length, a character, padding inside, or padding of a wrong length |
| Base32.DecodeGroups | base/src/pextlib1.0/base32cmd.c:280-312 | the loops over groups and characters write the bytes of the values read |
| Base32.EncLength | base/src/pextlib1.0/base32cmd.c:119-119 | n bytes take 8 * ceil(n / 5) characters, and the padding says how many bytes the last group lacks |
| Base32Laws.EncodingIsNumber | base/src/pextlib1.0/base32cmd.c:97-212 | for every hexadecimal string: the encoding writes to the base 32, with padding for zeros, the number that the string with zeros up to whole groups writes to the base 16 |
| Base32.DecodeOfEncode | base/src/pextlib1.0/base32cmd.c:64-346 | decoding an encoded hexadecimal string gives its lower-case form |
| Base32.DecodesExactly | base/src/pextlib1.0/base32cmd.c:266-330 | the decoder accepts an input if and only if it is whole groups of symbols followed by 0, 1, 3, 4 or 6 padding characters |
| Base32Laws.DecodingIsNumber | base/src/pextlib1.0/base32cmd.c:266-346 | for every input that is accepted: the decoding is the leading bytes of the number that the input writes to the base 32, as many as have all their bits before the padding |
| Base32.EncodeOfDecode | base/src/pextlib1.0/base32cmd.c:64-346 | encoding what was decoded gives the upper-case input if and only if the spare bits of its last symbol are zero |

## Left out

- Rmd160.Context.Update: asks for a length below the bound of `Rmd160.EndsExactly`, because on others the loop over whole blocks does not end.
- Rmd160.Context.Absorb: asks for the same.
- FileMapNodes.Node.Delete: asks its caller that no leaf lies on the way to the last component, because the code would read such a leaf as a directory.
- PathNormalizer.NormalizePath: asks for an absolute path shorter than MAXPATHLEN (1024), because the code copies longer ones behind its buffer; without symbolic links and `.vol`.
- PathNormalizer.IsInSandbox: for absolute paths, without following symbolic links and without `.vol`.
- VerComp.Vercmp: assumes that a terminator follows each version and that the two lie in different memory, because the code reads the character at the end of B and compares the cursor of A with the end of B.
- Sandbox.SandboxCheck: asks that the filemap is a serialized rule list, because the code trusts its server.
- HashMap.HashMap.Put: asks for keys that are strings and assumes that allocation succeeds.
- The Tcl commands around each piece: argument parsing, object types, result strings.
- Files, sockets, mmap, locking and rename; reads and replies are parameters.  lstat and the dependency check are parameters of the sandbox check.
- Failing allocations.
- free on the entries, keys and tables of the hash map, and the NULL key.
- The hash function of the hash map: the proofs hold for every one.
- The move of a filemap node by realloc: a node keeps its identity, and the array of its subnodes is a sequence that is reassigned.
- FileMapNodes.Node.Set: asks for components of at most NAME_MAX characters (`ShortParts`), because the code copies longer ones behind the key field of a new node.
- FileMap.SetBindsExactly: asks for the same.
- FileMapRuns.RunRefinesMap: asks for the same of every Set, and that every path denotes a key; `FileMapRuns.RunIsFiniteMap` has the other paths.
- Names outside ASCII, whose order depends on the signedness of char.
- Free, which only releases a tree, and the reference counts and dirty flags of filemap objects.
- The `.vol` lookup, the expansion of symbolic links, paths relative to the working directory, and the loops over them in the normaliser.
- The operations on the socket of trace mode and the wrappers of system calls.
- The body of RMD160Transform: RIPEMD-160 is proved for every block function.
- The shifts, masks and ors on bytes and words are written as quotients, remainders and sums, and REVERSE32 and REVERSE64 as reversals of byte sequences; `BitForms` proves the two the same, on words of fixed width and for the functions of the model.
- A known digest of SHA-256 as a literal; `Sha256Laws` and `Sha256File` prove its parts, from the bits of the sigmas to the bytes of the digest.
- The addresses of PADDING and of the caller's data in the hashers: they are assumed not to overlap the context.
- Signal masking and the umask call in setmode: the umask is a parameter.
- hashMapSize and hashMapIsEmpty, sql_version, and the other helpers that return a field or call one function.
- The registry, the Mach-O parser, downloads, and everything else that is input, output or SQL.
