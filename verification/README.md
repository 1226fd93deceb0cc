# SOAFileKLRM: the protection store, the circular log, the toggles and the hex codec

SOAFileKLRM is a kernel module that keeps a registry of protected paths and a persistent,
circular log file. This project models its four stateful parts and proves what they keep, over
all inputs, all runs and all interleavings.

1. **The protection store** (`Paths`, `Trie`, `PathTrie`, `PackedWord`,
   `Tokenizer`, `Names`, `InodeTable`, `InodeStore`, `Rounds`, `RoundFacts`, `Entrances`, `RoundBounds`,
   `LowerFacts`, `Traversal`, `Index`, `RoundTrips`, `SymlinkRounds`, `Departures`, `PathStore`).
   `Trie` is the path trie as a value, with its refinement of a set of explicit paths;
   `PathTrie` is the linked, mutable form with packed counters, proved against it. `Names` ties
   the trie's paths back to the strings that name them. `InodeStore`
   is the two-level hash table, proved against the finite map of `InodeTable`. `Rounds` and
   `RoundFacts` describe one nonce-stamped walk over the dentry graph by its trace; `Entrances`
   says how often a raising round meets what, `RoundBounds` when it ends, and `LowerFacts` when
   a lowering round hangs. `Traversal` holds the two loops that produce such traces, `Index`
   lifts them to whole runs of operations, `RoundTrips` and `SymlinkRounds` say when an add and
   a remove cancel, `Departures` shows the worst departures on small graphs, and `PathStore`
   puts tokeniser, lock, trie and rounds together.
2. **The circular log** (`RingLog`, `LogRuns`, `LogFs`). `RingLog` relates the ring to the
   history of everything written, `LogRuns` does so over whole lives with torn writes, unmounts
   and module reloads, and `LogFs` holds the chunk loops over the device blocks.
3. **The toggles** (`Toggles`): the on/off machines under their reader-writer semaphores, as
   interleaved steps of any number of callers, and the ioctls as runs of that protocol.
4. **The hex codec** (`HexCodec`), for strings of any length.

The value-level modules say what the operations mean; the classes `PathTrie`, `InodeStore`,
`PathStore`, `LogFs` and `Machine` change their state in place as the C code does, and every
method ties its new state to a value-level function of the old one.

## Where the code departs from what it is for

The model follows the code. Each departure has a theorem that says exactly when it shows.

- A new inode is stamped 0 instead of the nonce (`path_store/inode_store.c:53`), so a second
  encounter in the same round counts and expands it once more: it gains min(2, encounters)
  (`RoundFacts.RaisingRound`, `RoundFacts.RaiseExpansions`). Where dentries of one inode lead to
  the same inodes equally often, every new inode gains exactly 1 if and only if every reachable
  new inode has a single entrance: it is that of the root and nothing reachable leads to it, or
  one reachable inode does, once (`Entrances.CountedOnceExactly`). A new file with a symlink to
  it beside it counts 2 (`Departures.SymlinkCountsTwice`).
- So a new file with two hard links is raised by 2 and lowered by 1, and stays counted for good
  (`Departures.TwinsStayCounted`). Without symlinks and from zeroed memory, an add and a remove
  restore every count exactly when every inode shared by two dentries below the root was
  counted before (`RoundTrips.RoundTripOfFiles`). With symlinks as well, exactly when whatever
  the root reaches lies below it and what is new there has a single entrance and zeroed memory
  (`RoundTrips.RoundTripExactly`).
- The node keeps 32 bits of an inode number (`path_store/store_internal.h:20`), so inserting
  refines the finite map exactly for numbers below 2^32 (`InodeStore.InodeStore.InsertInode`).
  A larger number is counted at every encounter and never known, unless its low bits fall into
  the same bucket and are taken for another inode (`InodeStore.ShadowFound`). Those apart, and
  where dentries of one inode lead to the same inodes, a raising round is bounded if and only
  if no cycle of such dentries is reachable from its root (`RoundBounds.EndsExactly`); a
  directory with a symlink back to it is one (`Departures.CircleIsEndless`).
- `refCount++` runs on newly allocated memory (`path_store/inode_store.c:52`). The contents of
  that memory are the parameter `junk`; agreement and round trips hold exactly when it is zero
  (`Index.AddAgreesExactly`, `Index.RaiseThenLower`).
- Re-adding an explicit path that resolves counts its inodes again (`path_store/path_store.c:157-162`):
  `Index.AddAgreesExactly` shows that this is the other way to lose the agreement, and
  `Index.RunCounts` what every count is then: the resolved adds less the resolved removals.
  Protected twice and unprotected once, an inode stays counted
  (`Departures.ReAddStaysCounted`).
- Removing an inode that is not in the table of a known device never returns, because the
  inner loop reuses the cursor of the outer one (`path_store/inode_store.c:105-109`). Where
  directories have one dentry each, a removal hangs if and only if, on a known device, some
  inode at or below the root is not counted, or is counted once and shared by two dentries
  there; from a symlink, if and only if it is itself not counted and its device is known
  (`Traversal.IterateRm`, `PathStore.PathStore.Remove`). Ordinary use gets there: protect a
  directory, create a file in it, remove the protection (`Departures.OrdinaryUseHangs`,
  `Departures.HangsWhereUncovered`). Right after a raising round, and under
  index agreement on a tree, it returns (`Index.RaisedMissesNothing`,
  `PathStore.PathStore.AgreementReturns`).
- The lowering round does not follow symlinks (`path_store/store_iterate.c:237`) although the
  raising round does. Without hard links, from zeroed memory and from a root that is no
  symlink, add and remove are inverse exactly when every symlink below the root resolves to
  something below the root that was counted before
  (`SymlinkRounds.RoundTripWithLinks`). A symlink as the root of a lowering round frees the
  stack entry it has just linked (`path_store/store_iterate.c:205-212`), exactly when it
  resolves and its own removal came back (`Traversal.IterateRm`).
- An unresolved path with an empty inner token leaves a partial chain of nodes behind exactly
  when the part above the empty token was not all there (`Trie.AddStopped`).
- The store lock stays held after an add stopped by an empty token, after every accepted add
  that does not resolve, and at the largest nonce, where the comment at `path_store/path_store.c:164`
  promises an unlock that `refresh_nonces` does not perform (`PathStore.PathStore.Add`,
  `PathStore.PathStore.Remove`). The unlock for a failed allocation is dead: `kmalloc` fails
  with null, which `IS_ERR` does not catch (`path_store/path_store.c:166`).
- An invalid path makes the check return 1, which is FULL_MATCH_LEAF
  (`PathStore.PathStore.Check`).
- A failed block read in the middle of an internal write leaves the offsets unmoved although
  bytes were copied; live bytes survive every payload exactly when nothing was copied, the log
  was empty, or the copied bytes still fit before the first wrap (`RingLog.TornWrite`); over
  a whole life of the log, exactly when commits have passed every torn write, or the log is
  empty, or no torn write has reached the first wrap (`LogRuns.FaithfulExactly`).
- A mount that fails before it has loaded the offsets kills the superblock, which saves whatever
  offsets are in memory (`lib/logfs/logfilefs_src.c:68-71`, 129-130). After a reload of the
  module those are zero, and everything committed before is forgotten: the window is the end
  of everything ever committed exactly when that never happened (`LogRuns.ForgetsExactly`, `LogRuns.ReloadForgets`).
- A failed unmount leaves the file system mounted and `sb_lock` held (`LogFs.LogFs.Unmount`).
- A rejected password returns without the exit (`api/ioctl.c:32-34`, 56-58, 76-78): from then
  on the toggle is ON for good, and a waiting writer can still get in exactly when no call has
  leaked its lock (`Toggles.FrozenOn`, `Toggles.WriterCanEnter`).

## Model

| member | source | states |
|---|---|---|
| Trie.AttachWellFormed | path_store/path_store.c:144-153 | linking a new child keeps sibling names distinct and non-empty, and parent links and child lists in agreement |
| Trie.DetachWellFormed | path_store/path_store.c:247-251 | unlinking a prunable node removes exactly that node and keeps the same agreement |
| Trie.PrefixClosed | path_store/path_store.c:149-153 | every ancestor of a node is a node |
| Trie.ChildlessMeans | path_store/path_store.c:319 | an empty child list means that no explicit path lies strictly below, and in a canonical trie only then |
| Trie.CanonicalForm | path_store/path_store.c:135-158 | every childless non-root node is explicit if and only if the nodes are exactly the root plus all prefixes of explicit paths |
| Trie.GrowStep | path_store/path_store.c:135-155 | linking one missing node at a time leads to the same trie as growing the whole path at once |
| Trie.GrowRefines | path_store/path_store.c:135-155 | growing adds exactly the prefixes above the first empty token, succeeds if and only if there is none, and touches no explicit bit |
| Trie.AddRefines | path_store/path_store.c:135-158 | a path without an empty token is added successfully, the explicit set gains exactly it, the nodes gain its prefixes, and canonical form is kept |
| Trie.AddStopped | path_store/path_store.c:140-143 | an add stopped by an empty token fails, makes nothing explicit, and keeps canonical form if and only if the part above the token was already there |
| Trie.PruneRefines | path_store/path_store.c:237-254 | pruning from the one node that may be childless and not explicit restores canonical form and keeps every explicit path |
| Trie.RemoveRefines | path_store/path_store.c:215-261 | removal succeeds exactly on explicit paths, deletes exactly that path from the set, changes nothing otherwise, and the nodes are again the root plus the prefixes |
| Trie.PruneUndoesGrow | path_store/path_store.c:237-254 | pruning a freshly grown path stops exactly where the growth began, at an explicit, branching or root ancestor |
| Trie.AddThenRemove | path_store/path_store.c:103-282 | adding a path that is not explicit and removing it restores the identical trie, child order included |
| Trie.DeepestIsLongest | path_store/path_store.c:41-56 | the search stops at the longest prefix of the query that is a node |
| Trie.DeepestAt | path_store/path_store.c:44-56 | stopping above the first missing token is stopping at that longest prefix |
| Trie.CheckRefines | path_store/path_store.c:317-343 | the answer of the check satisfies the specification over the set of explicit paths alone, for every canonical trie and query |
| Trie.AnswerIsUnique | include/path_store/path_store.h:6-14 | that specification fixes one answer for each set and query |
| Trie.AnswersMean | include/path_store/path_store.h:6-14 | the answers in plain words: LEAF is an explicit path with nothing explicit below it, the query itself (FULL) or an ancestor (SUB); a query with something explicit below it is FULL DIR; MATCH_ROOT is exactly that nothing but the root is explicit |
| PackedWord.TestBit | path_store/path_store.c:220 | testing the explicit bit of a 64-bit word is the comparison the entries use |
| PackedWord.SetBit | path_store/path_store.c:158 | setting it is the sum they use, and leaves the low 63 bits alone |
| PackedWord.ClearBit | path_store/path_store.c:234 | clearing it is the difference they use |
| PathTrie.PathTrie.constructor | path_store/path_store.c:372-382 | the initial store represents the empty trie and has allocated the root only |
| PathTrie.PathTrie.FindChild | path_store/path_store.c:44-49 | the child walk finds the child of that name exactly when the trie has that node |
| PathTrie.PathTrie.Search | path_store/path_store.c:41-56 | the search descends along the tokens and stops at the first missing one; for "/" the stale token never matches |
| PathTrie.PathTrie.LinkChild | path_store/path_store.c:149-153 | linking at the head of both lists and incrementing the packed counter represents the trie with the child attached |
| PathTrie.PathTrie.InsertStep | path_store/path_store.c:135-155 | one turn of the insert loop gets strictly deeper, allocates one entry and leaves the goal of the insertion unchanged |
| PathTrie.PathTrie.Insert | path_store/path_store.c:135-155 | the insert loop computes the grown trie, ends at the entry of the path, and moves no existing entry |
| PathTrie.PathTrie.MarkExplicit | path_store/path_store.c:157-158 | setting the explicit bit makes exactly this path explicit and leaves every counter intact |
| PathTrie.PathTrie.AddPath | path_store/path_store.c:135-158 | the linked store after an add represents the value-level add |
| PathTrie.PathTrie.FindExplicit | path_store/path_store.c:215-225 | an entry is found exactly when the path is explicit |
| PathTrie.PathTrie.ClearExplicit | path_store/path_store.c:232-236 | clearing the bit makes exactly this path non-explicit and leaves every counter intact |
| PathTrie.PathTrie.UnlinkChild | path_store/path_store.c:248-250 | decrementing the counter and unlinking from both lists represents the trie with the node detached |
| PathTrie.PathTrie.Delete | path_store/path_store.c:232-255 | the linked store after a removal represents the value-level removal, with the surviving entries in place |
| PathTrie.PathTrie.Cleanup | path_store/path_store.c:396-408 | the walk one step behind frees exactly the live entries, each once |
| Tokenizer.TokensRebuild | path_store/path_store.c:83-94 | joining the tokens rebuilds an absolute path up to one trailing slash, and no token holds a slash |
| Tokenizer.JoinInjective | path_store/path_store.c:83-94 | slash-free tokens are the only ones that rebuild a path |
| Tokenizer.AcceptsExactly | path_store/path_store.c:77-101 | accepted are exactly the absolute strings of at most 512 slashes that lexical normalisation of "." and ".." leaves alone |
| Paths.AbovePathOf | path_store/path_store.c:44-56 | a path lies above another exactly when its names, compared whole, are the first names of the other |
| Names.SameName | path_store/path_store.c:83-94 | two absolute strings name the same path exactly when they agree up to one slash at the end |
| Names.NamedAbove | path_store/path_store.c:44-56 | the path of one string lies above that of another exactly when the other goes on where the first ends, at a slash |
| Names.NamedExactly | path_store/path_store.c:140-143 | a string names a path without empty tokens exactly when it has no two slashes in a row |
| Tokenizer.CutSlashes | path_store/path_store.c:83-94 | the first loop overwrites every slash, records the token starts, and gives up exactly beyond 512 slashes |
| Tokenizer.CutTokens | path_store/path_store.c:83-94 | the strings at the recorded starts are the tokens, and the starts strictly increase |
| Tokenizer.HasDots | path_store/path_store.c:95-98 | the second loop finds a "." or ".." token if and only if there is one |
| Tokenizer.ProcessPath | path_store/path_store.c:77-101 | it accepts exactly the absolute paths of at most 512 slashes without "." and ".." tokens, records the tokens at strictly increasing indices, and leaves an empty slot 0 for "/" |
| InodeStore.FindRemoved | path_store/inode_store.c:93-97 | unlinking a node makes its number unknown and changes no other lookup in the bucket |
| InodeStore.Rebucket | path_store/inode_store.c:29-54 | a bucket that answers differently for one inode only makes the lists represent the map changed at that one key |
| InodeStore.NewStore | path_store/inode_store.c:80-88 | a new empty device table adds the device and no entry |
| InodeStore.InodeStore.FindNode | path_store/inode_store.c:29-31 | the bucket walk finds the first node of that number, or none |
| InodeStore.InodeStore.FindStore | path_store/inode_store.c:66-68 | the table walk finds the first table of that device, or none |
| InodeStore.InodeStore.InodeAllocate | path_store/inode_store.c:24-57 | for a number below 2^32 the table refines the map insertion; a larger one is linked truncated in the bucket of the untruncated number, and counted without becoming known |
| InodeStore.InodeStore.AddStray | path_store/inode_store.c:51-54 | a truncated node strays into a bucket without changing any lookup, unless its low bits belong there |
| InodeStore.ShadowFound | path_store/inode_store.c:29-54 | if they do, the new node is what a lookup of the low bits finds, and the number itself is still unknown |
| InodeTable.ShadowsExactly | path_store/inode_store.c:29 | shadowing numbers are exactly those of 2^32 or more whose high half is a multiple of 25 |
| InodeStore.InodeStore.InsertInode | path_store/inode_store.c:59-91 | insertion refines the finite map, device table included, if and only if the number fits 32 bits; otherwise it counts without an entry, or shadows the number of its low bits |
| InodeStore.InodeStore.RmInode | path_store/inode_store.c:99-126 | removal refines the finite map: seen, lowered, freed at zero, missing device, or the miss that never returns |
| InodeStore.InodeStore.CheckInode | path_store/inode_store.c:128-146 | a lookup is true exactly for the keys of the map, and never for a number of 2^32 or more |
| InodeStore.InodeStore.RefreshNonces | path_store/inode_store.c:171-186 | a refresh keeps membership and counts and restarts every stamp and the nonce |
| RoundFacts.RaiseEntries | path_store/inode_store.c:29-56 | the entry of an inode after a raising round depends on the number of its encounters only: none, +1, or min(2, encounters) for a new one |
| RoundFacts.RaiseExpansions | path_store/store_iterate.c:128-137 | a known inode is expanded at most once, a new one at most twice, and a number of 2^32 or more at every encounter |
| RoundFacts.WalkIsMet | path_store/store_iterate.c:49-150 | a finished raising round has encountered whatever a walk from its root leads to, if each dentry on the way agrees with the other dentries of its inode |
| RoundFacts.MetIsWalk | path_store/store_iterate.c:49-150 | and nothing that no walk leads to |
| RoundFacts.RaisingRound | path_store/store_iterate.c:39-150 | on every finite graph, cycles included: only reachable inodes are encountered, and all of them when dentries of one inode agree; the others keep their entry, known ones gain exactly 1, new ones gain min(2, encounters) |
| Entrances.ReachedExpanded | path_store/store_iterate.c:49-150 | where dentries of one inode lead to the same inodes, a finished raising round has met and expanded exactly the inodes reachable from its root |
| Entrances.MetOnceExactly | path_store/store_iterate.c:109-138 | every new reachable inode is met once if and only if every one has a single entrance; hard links are allowed if they lead alike |
| Entrances.CountedOnceExactly | path_store/inode_store.c:46-56 | every new reachable inode gains exactly 1 if and only if every one has a single entrance, a condition on graph and table before the round; for numbers below 2^32, hard links that lead alike allowed |
| Entrances.CountedTwice | path_store/inode_store.c:29-56 | a new inode that two reachable inodes lead to ends at 2 above its junk, stamped with the nonce |
| RoundBounds.NarrowEnds | path_store/store_internal.h:20 | with numbers below 2^32 there is no cycle of larger ones in reach |
| RoundBounds.DoneIsNotEndless | path_store/store_iterate.c:49-150 | where dentries of one inode lead to the same inodes, a raising round with a cycle of inode numbers of 2^32 or more in reach is never finished |
| RoundBounds.RoundBound | path_store/store_iterate.c:49-150 | without such a cycle there is a bound on the expansions of every trace of the round, whatever the stamps and however the other dentries run in cycles |
| RoundBounds.EndsExactly | path_store/store_internal.h:20 | where dentries of one inode lead to the same inodes, the expansions of a raising round are bounded if and only if no such cycle is reachable from its root |
| RoundFacts.MetOnce | path_store/store_iterate.c:220-245 | a round that follows no symlink never looks at a dentry twice |
| RoundFacts.TrackedLinkless | path_store/store_iterate.c:237 | a lowering round expands no symlink below its root |
| RoundFacts.TreeMet | path_store/store_iterate.c:109-138 | such a round looks at exactly the dentries at or below its root, once each |
| RoundFacts.TreeRound | path_store/store_iterate.c:109-138 | and visits exactly their inodes, leaving every other entry alone |
| Traversal.Encounter | path_store/store_iterate.c:126-137 | one encounter locks the inode, counts it, and keeps the lock exactly if it goes on the stack |
| Traversal.Child | path_store/store_iterate.c:109-138 | the walk over the children looks at the positive ones only, in order |
| Traversal.Expand | path_store/store_iterate.c:52-139 | a symlink is expanded into its target, anything else into its positive children |
| Traversal.Pop | path_store/store_iterate.c:141-150 | one turn of the loop gives back the lock of the expanded dentry, so the held locks are those of the stack, and the trace grows by that dentry |
| Traversal.IterateAdd | path_store/store_iterate.c:22-153 | the raising traversal terminates on every finite graph, cycles included, without a reachable cycle of numbers of 2^32 or more; every lock taken is given back once, and its table is that of a complete round; "already seen" exactly if the root is stamped |
| Traversal.UnmetShrinks | path_store/store_iterate.c:251-257 | each expansion of a lowering round uses up dentries not looked at before |
| LowerFacts.LoweredEntries | path_store/inode_store.c:105-124 | the entry of an inode after a lowering round depends on whether it was met: lowered once, freed at zero |
| LowerFacts.LowerEntries | path_store/inode_store.c:105-124 | on a known device an uncounted inode admits no removal that comes back, and one counted once admits one |
| LowerFacts.DoneMissesNothing | path_store/store_iterate.c:220-257 | a completed lowering round had nothing to miss |
| LowerFacts.MissReason | path_store/inode_store.c:105-124 | a removal misses only an inode of a known device that is uncounted, or counted once and shared below the root |
| Traversal.StuckReason | path_store/inode_store.c:105-124 | when the loop over the children is stuck, the table before the round had something to miss below the root |
| Traversal.RmEncounter | path_store/store_iterate.c:233-244 | one encounter of a lowering round: only counted directories with entries stay locked and go on the stack |
| Traversal.IterateRm | path_store/store_iterate.c:155-260 | how the lowering traversal ends, exactly: already seen if the root is stamped; never, where directories have one dentry each, if and only if there is something to miss; with the freed stack entry if and only if the root is a symlink that resolves and neither of these holds; completed otherwise, holding no lock, with the table of a complete round |
| Index.AgreementAnswers | path_store/inode_store.c:128-146 | under agreement an inode is in the table exactly when some explicit path lies at or above it |
| Index.AddAgreesExactly | path_store/path_store.c:157-162 | a raising round keeps the agreement if and only if the path was not explicit before and new nodes start from zeroed memory |
| Index.RemoveAgrees | path_store/path_store.c:217-230 | a lowering round of an explicit path keeps the agreement |
| Index.CountedBelow | path_store/inode_store.c:105-124 | under agreement a removal of an explicit path misses no inode below it |
| Index.RaiseThenLower | path_store/inode_store.c:29-126 | a raising and then a lowering round restore every count and every answer, whatever the table recorded before, if and only if new nodes start from zeroed memory |
| Index.RaisedMissesNothing | path_store/store_iterate.c:220-245 | after a raising round, symlinks and hard-linked files included, the lowering round from the same root has nothing to miss, so it completes; for numbers below 2^32 and directories with one dentry |
| Index.StampDiscipline | path_store/path_store.c:161-163 | over all runs, re-adds and graphs that change between the operations included, no stamp exceeds the nonce |
| Index.NextRoundStarts | path_store/store_iterate.c:40-46 | so every stamp lies below the nonce when a round starts, over whatever graph, and the root's early return is unreachable |
| Index.RunCanonical | path_store/path_store.c:135-255 | over all runs that add no empty token the trie is canonical: its nodes are the root and the prefixes of the explicit paths |
| Index.ExplicitAfter | path_store/path_store.c:103-282 | what each operation does to the set of explicit paths, on any well-formed trie |
| Index.RunAgrees | path_store/path_store.c:157-230 | over all runs on a fixed tree without links, with inode numbers below 2^32, zeroed memory and no resolved path added again, every count is the number of explicit paths at or above the inode and a lookup answers whether there is one |
| Index.AddCounts | path_store/path_store.c:160-162 | every add of a resolved path raises the count of each inode below it by one, whether it was explicit already or not |
| Index.RmCounts | path_store/path_store.c:227-230 | every removal of a resolved explicit path takes one count back from each |
| Index.RunCounts | path_store/path_store.c:157-230 | over all runs on a fixed tree with zeroed memory, re-adds included, a count is the number of resolved adds at or above the inode less that of the resolved removals, and at least the number of explicit paths that cover it |
| RoundTrips.LoweredOnce | path_store/inode_store.c:105-124 | a lowering round lowers exactly the counted inodes at or below its root, each once however many dentries it has |
| RoundTrips.RestoredExactly | path_store/store_iterate.c:22-260 | an add round and a remove round restore every count if and only if every inode the add met lies below the root, and each new one was met once and started from zeroed memory |
| RoundTrips.RoundTripExactly | path_store/store_iterate.c:22-260 | the same from the graph, the table and the memory before the rounds: what the root reaches lies below it, and what is new there has a single entrance and zeroed memory; hard links that lead alike, symlinks and cycles included |
| RoundTrips.RoundTripOfFiles | path_store/inode_store.c:53 | without symlinks and from zeroed memory, every count is restored if and only if the inodes that two dentries below the root share were counted before |
| Departures.HangsWhereUncovered | path_store/inode_store.c:105-109 | when the counts agree with one graph, a removal over another hangs exactly if some inode of a known device below its root was not covered in the first |
| Departures.OrdinaryUseHangs | path_store/inode_store.c:105-109 | some run ends in such a state: protect a directory, create a file in it, remove the protection |
| Departures.ReAddStaysCounted | path_store/path_store.c:157-162 | protect a path twice and unprotect it once: nothing is explicit, and its inode stays counted |
| Departures.SymlinkCountsTwice | path_store/inode_store.c:53 | a new file with a symlink to it is counted twice by every add round over its directory |
| Departures.TwinsStayCounted | path_store/inode_store.c:53 | a new file with two hard links is still counted after an add and a remove |
| Departures.CircleIsEndless | path_store/store_internal.h:20 | a directory with a symlink back to it, both numbered beyond 32 bits, is endless |
| SymlinkRounds.MetCountLinks | path_store/store_iterate.c:72-86 | a dentry is looked at once for each expansion of its parent and of each symlink to it |
| SymlinkRounds.FreshMetOnce | path_store/inode_store.c:46-56 | while symlinks stay inside what is counted, a new inode below the root is met once |
| SymlinkRounds.NotRestored | path_store/store_iterate.c:78-86 | a symlink that leaves the root, or leads to a new inode, raises some count too far |
| SymlinkRounds.RoundTripWithLinks | path_store/store_iterate.c:237 | without hard links, from zeroed memory, below 2^32 and from a root that is no symlink, add then remove restores every count if and only if every symlink below the root resolves to something below the root that was counted before |
| PathStore.PathStore.constructor | path_store/path_store.c:350-386 | the store starts in the initial state of the runs, with its lock free |
| PathStore.PathStore.Tokenise | path_store/path_store.c:125-129 | the searches read the tokens of the path through argIdxs |
| PathStore.PathStore.Add | path_store/path_store.c:103-184 | an add extends the run the store has led by one step, returns 0 exactly for an accepted path without an empty token, and leaves the lock held on exactly the named branches |
| PathStore.PathStore.Cover | path_store/path_store.c:135-162 | the trie half and the raising round of an add are one step of the runs, and keep canonical form if no empty token stops them |
| PathStore.PathStore.Raise | path_store/path_store.c:161-162 | the nonce grows by one and the root's early return is not taken; where directories have one dentry and numbers stay below 2^32, a removal right afterwards has nothing to miss |
| PathStore.PathStore.Withdraw | path_store/path_store.c:215-255 | the part under the lock finds exactly the explicit paths and, when its round completes, extends the run by one step and keeps canonical form |
| PathStore.PathStore.Remove | path_store/path_store.c:186-282 | a removal that returns extends the run by one step, returns 0 exactly for an explicit path, and leaves the lock held only at the largest nonce; it hangs exactly if its round has something to miss, and is undefined exactly from a symlink that resolves and does not hang |
| PathStore.PathStore.AgreementReturns | path_store/path_store.c:227-230 | under index agreement on a tree a removal always returns |
| PathStore.PathStore.Lower | path_store/path_store.c:228-229 | the lowering round is never cut short by a stamp, and how it ends is exact |
| PathStore.PathStore.RefreshStamps | path_store/inode_store.c:171-190 | a refresh is a step of the runs and restores the stamp discipline |
| PathStore.PathStore.Classify | path_store/path_store.c:317-343 | the search and the final case distinction answer as the specification over the explicit set demands |
| PathStore.PathStore.KnowsTheCovered | path_store/inode_store.c:128-146 | for the store itself: on a steady tree without re-adds an inode is in the table exactly when some explicit path lies at or above it |
| PathStore.PathStore.CheckPath | path_store/path_store.c:308-343 | an invalid path answers FULL_MATCH_LEAF, anything else what the specification says; the lock is balanced |
| PathStore.PathStore.Check | path_store/path_store.c:284-344 | MATCH_INODE exactly for a resolved inode in the table, FULL_MATCH_LEAF for an invalid path, anything else what the specification over the explicit paths says, in every state with a free lock; the lock is balanced and the store unchanged |
| RingLog.SlotIsMod | lib/logfs/file.c:175 | slots by repeated subtraction are offsets modulo the file size |
| RingLog.SlotInBlock | lib/logfs/file.c:176-181 | with a whole number of blocks a slot and its offset agree within a block, and the block does not pass the end |
| RingLog.ChunkWritten | lib/logfs/file.c:178-190 | writing one clipped chunk is a splice of the ring |
| RingLog.WriteFaithful | lib/logfs/file.c:171-192 | writing any number of bytes, more than the file holds included, keeps every live offset at its place in the longer history |
| RingLog.TornWrite | lib/logfs/file.c:184-188 | a write that fails after c bytes leaves the live bytes intact for every payload without zero bytes if and only if c is 0, the log was empty or the bytes fit before the first wrap |
| RingLog.CommitConsistent | lib/logfs/file.c:196-201 | moving the offsets keeps start = max(0, end - size) and the ring faithful |
| RingLog.RunConsistent | lib/logfs/file.c:171-201 | after any run of writes of any lengths the window is the last min(end, size) bytes, in figures, and the ring holds byte p of everything written at p modulo the size |
| RingLog.WindowIsHistory | lib/logfs/file.c:54-77 | bytes taken inside the window are true history |
| RingLog.WholeAt | lib/logfs/file.c:99-126 | a write that got to a chunk had read, and copied whole, every chunk before |
| RingLog.ReadLengthExactly | lib/logfs/file.c:50-63 | the three clips give min(length, rest of the log, rest of the block), so the wrap test is subsumed; and what they give for sums that wrap 64 bits |
| LogRuns.WindowAlways | lib/logfs/logfilefs_src.c:73-76 | over every life of the log, torn writes, failed mounts, unmounts, reloads and remounts included, the offsets delimit the last min(end, size) bytes committed since they were last forgotten |
| LogRuns.ForgetsExactly | lib/logfs/logfilefs_src.c:116-139 | that is everything ever committed if and only if no failed mount has saved offsets that were not loaded since the module was |
| LogRuns.ReloadForgets | lib/logfs/logfilefs_src.c:116-139 | it does happen: unmount, reload the module, fail to mount |
| LogRuns.LateFailureKeeps | lib/logfs/logfilefs_src.c:73-83 | a mount that fails after loading the offsets loses nothing |
| LogRuns.MountedCommits | lib/logfs/logfilefs_src.c:106-109 | after a completed mount a write is committed: the history grows by it, and the end with it |
| LogRuns.WindowLength | lib/logfs/file.c:196-201 | mounted, the window is min(end, size) bytes long |
| LogRuns.LiveByte | lib/logfs/file.c:171-201 | in every life a live byte whose slot no pending torn write has reached is what was committed |
| LogRuns.FaithfulExactly | lib/logfs/file.c:184-188 | over every life, whatever the torn payloads were, the ring holds the whole window if and only if commits have passed every torn write, or the log is empty, or no torn write has reached the first wrap |
| LogFs.LogFs.constructor | user/logfilemakefs.c:67-68 | a formatted device holds a whole number of blocks and zero offsets |
| LogFs.LogFs.CopyChunk | lib/logfs/file.c:181-190 | a chunk lands at its slot and nothing else on the device changes |
| LogFs.LogFs.CopyNext | lib/logfs/file.c:171-190 | one turn of the loop extends the written prefix to the end of its block or of the payload, less what the user copy leaves out, and keeps the rest of the device |
| LogFs.LogFs.CopyBlocks | lib/logfs/file.c:99-126 | the loop writes exactly the copied prefix, over any number of laps, and touches neither the superblock nor the inode block; how far it gets is exact, chunk by chunk |
| LogFs.LogFs.InternalWrite | lib/logfs/file.c:146-209 | an internal write commits all of its payload, or is torn at the block that cannot be read; unmounted it does nothing |
| LogFs.LogFs.UserWrite | lib/logfs/file.c:86-144 | a user write commits exactly the copied prefix, and how long that is is exact |
| LogFs.LogFs.Clip | lib/logfs/file.c:50-63 | the clipped length is the specified one and stays inside one block |
| LogFs.LogFs.Read | lib/logfs/file.c:26-83 | a read starts at its offset, or at the oldest byte if it lags behind that, and returns what the ring holds from there, which is exactly the history unless the request wraps 64 bits, advancing by what it returned |
| LogFs.LogFs.Drain | lib/logfs/file.c:42-77 | reads repeated until one is empty terminate and have returned the whole window |
| LogFs.LogFs.FillSuper | lib/logfs/logfilefs_src.c:42-113 | a mount loads the saved offsets; so does one that then lacks memory for its root, without being mounted; every earlier failure leaves everything as it was |
| LogFs.LogFs.Kill | lib/logfs/logfilefs_src.c:116-139 | killing the superblock saves the offsets in memory, mounted or not, or leaves sb_lock held |
| LogFs.LogFs.Mount | lib/logfs/logfilefs_src.c:142-154 | a mount of this device fills the superblock, and kills it at once if that fails; the file system is mounted exactly if it succeeded |
| LogFs.LogFs.Unmount | lib/logfs/logfilefs_src.c:116-139 | an unmount saves the offsets, or leaves the file system mounted and sb_lock held |
| Toggles.InvStep | state_machine/state_machine.c:34-84 | every step of every caller keeps: held read locks equal callers holding one, a writer is alone, whoever is in sees ON |
| Toggles.Safety | state_machine/state_machine.c:34-84 | in every interleaving of any number of callers, while one is between enter and exit the toggle is ON and no writer is in |
| Toggles.RefusedOnlyWhenOff | state_machine/state_machine.c:17-42 | from loading on, no caller is refused unless some caller has turned the toggle off |
| Toggles.FrozenOn | api/ioctl.c:32-34 | after one rejected password, in every continuation, the lock stays taken, no writer gets in and the toggle stays ON |
| Toggles.Finishes | api/ioctl.c:38-43 | any holder that has not leaked its lock can run to its return without help from the others |
| Toggles.WriterCanEnter | state_machine/state_machine.c:62-84 | a waiting writer gets in, in some continuation, if and only if no call has leaked its lock |
| Toggles.Machine.Enter | state_machine/state_machine.c:34-42 | entering holds the lock exactly when the toggle is ON, and is a run of the protocol |
| Toggles.Machine.Exit | state_machine/state_machine.c:44-46 | exiting gives one hold back, as the protocol's last step |
| Toggles.Machine.Set | state_machine/state_machine.c:62-84 | setting takes the lock, assigns and releases, as a run of the protocol |
| Toggles.Machine.PathIoctl | api/ioctl.c:20-103 | the path ioctls are runs of the protocol; the net hold is zero unless the password was rejected |
| Toggles.Machine.SetIoctl | api/ioctl.c:105-139 | the toggle ioctls are runs of the protocol and assign exactly on "on" and "off" after an accepted password |
| HexCodec.ChunkOfDigits | password_setup/password_setup.c:26-39 | the two digits of a byte are lower-case hex and decode to it |
| HexCodec.DigitsOfChunk | password_setup/password_setup.c:59-71 | two lower-case hex characters are the digits of the byte they decode to |
| HexCodec.DigitsOrdered | password_setup/password_setup.c:29-39 | the sixteen digits are in order |
| HexCodec.ValuesInOrder | password_setup/password_setup.c:59-71 | each lower-case hex character is the digit of its value |
| HexCodec.DecodeEncode | password_setup/password_setup.c:25-74 | decoding undoes encoding for every byte string |
| HexCodec.EncodeDecode | password_setup/password_setup.c:25-74 | encoding undoes decoding if and only if the text is lower-case hex |
| HexCodec.DecodePair | password_setup/password_setup.c:57-71 | the two branches and the two ors make the byte of the two characters |
| HexCodec.SetupPassword | password_setup/password_setup.c:45-77 | the in-place loop decodes a text of the right length and leaves the buffer alone otherwise |
| HexCodec.EncodeInto | password_setup/password_setup.c:25-41 | the loop of both encoders writes the hex string and nothing beyond it |
| HexCodec.PrintDecompressed | password_setup/password_setup.c:20-43 | the printed string is the hex string |
| HexCodec.Decompress | logger/logger.c:37-62 | the logger's string is the same with one newline |
| HexCodec.RoundTrip | password_setup/password_setup.c:20-77 | what is printed for a decoded text is that text if and only if it was lower-case hex, and the two encoders agree up to the newline |

## Left out

- PathStore.PathStore.Add: assumes that a name fits the 1024 bytes of `dir_name`, that allocations succeed, that fewer than 2^63 - 512 entries are live, that a resolved path comes with its own canonical name, and that no cycle of inode numbers of 2^32 or more is in reach, from where it would not return (`RoundBounds.EndsExactly`); path resolution itself is a kernel service, given as a partial map from paths to dentries.
- PathStore.PathStore.Remove: the miss that never returns and the use of a freed stack entry end the operation (`Hangs`, `Undefined`); what the machine does after them is not modelled.
- PathStore.PathStore.Tokenise: `argIdxs` is shared and filled before the lock is taken; store operations are modelled one after the other, not interleaved.
- PathStore.PathStore.RefreshStamps: when the deferred worker runs is not modelled; it is an operation of its own, and no operation starts at the largest nonce before it.
- PathTrie.PathTrie.MarkExplicit: the packed word is an integer below 2^64 whose top bit is added and subtracted under a test; `PackedWord` equates that with the bit operations on 64-bit words.
- InodeStore.InodeStore.InodeAllocate: `refCount` does not wrap at 64 bits; the per-device tables and buckets are sequences of values that are reassigned, so pointer identity of the nodes is not captured.
- InodeStore.InodeStore.InsertInode: worlds of the rounds leave out shadowing numbers, those of 2^32 or more whose low 32 bits fall into the same bucket as the whole number (the high half a multiple of 25): for them one insertion is stated exactly, but what a round over several of them does depends on the order of its encounters.
- RoundBounds.EndsExactly: where two dentries of one inode lead to different inodes, which of them a round expands, and so whether it ends, depends on which it meets first; the bound of `RoundBounds.RoundBound` holds there too.
- RoundTrips.RoundTripExactly: directories have one dentry each, and inode numbers stay below 2^32; hard-linked symlinks that resolve differently are covered by `RoundTrips.RestoredExactly` only, from what the round met.
- InodeStore.InodeStore.RmInode: the walk that never returns is an outcome of its own; that it reads bucket heads as device tables is not modelled.
- RoundFacts.RaisingRound: which inodes are reached when two dentries of one inode lead to different places depends on which is met first; then only what is encountered is bounded by what is reachable, and `RoundFacts.WalkIsMet` gives what is reached through agreeing dentries.
- Traversal.IterateAdd: the graph does not change under a round (it may between operations), d_subdirs names are distinct, and the stack entry and path buffer allocations succeed; dentry reference counts are not modelled, and neither are mounts: d_subdirs ends at a mount point, so an explicit path above one counts nothing inside it, and the graph of a round is one such tree with its symlinks.
- Traversal.IterateRm: where two dentries of one directory exist the ends of a lowering round are not characterised; Linux allows hard links to files only.
- LogFs.LogFs.Mount: an unreadable superblock, a change of `file_size` between mounts, and a second device are not modelled; the mount of a second one fails with -EBUSY, and killing its superblock saves these offsets there and clears `mounted`. That a failed mount kills the superblock is how `mount_bdev` works.
- LogFs.LogFs.Read: offsets and sizes stay below 2^63, and the file size is the positive multiple of 4096 that mkfs sets; `log_file_mutex` makes reads and writes atomic. Requests whose offset plus length wraps 64 bits are covered for generality; the VFS caps the count before it calls the read.
- Toggles.Safety: fairness of the semaphores is not modelled, so nothing is said about which waiting caller comes first.
- Toggles.Machine.PathIoctl: password checking is an accept or reject parameter, and the store operation is its return value.
- `cleanup_inode_store`: the same walk one step behind as `cleanup_path_store`, nested.
- Path resolution, dentry references and `oracles/`: kernel services.
- SHA-512 and the comparison of hashes in `check_password`: an opaque library.
- `wrappers/`, `lib/scth/`: syscall hooking.
- `api/api.c`: character-device dispatch.
- `do_log_work` and `log_append`: deferred work and text formatting.
- `lib/logfs/dir.c`, lookup and the rest of the superblock setup: file-system boilerplate.
- User tools, scripts and build files, but for the block-multiple size and the zero offsets of mkfs.
