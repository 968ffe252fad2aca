# StripeSQL: a verified model of its storage engine, commit protocol, scans and expression compiler

StripeSQL keeps each table in a file of nodes and slotted pages that form a B+ tree, commits changes through a
redo log, and compiles SQL expressions to bytes for a stack machine. This project models those four parts in Dafny
and proves what they are for.

**The tree** (`BPlus`, over `TreeView` … `TreeShrink`, `PageSearch`, `PageSplit`, `LeafPages`, `TableContents`). The
class `BPlus.Table` has the fields the source's functions read and write through `readNode`, `markNode`, `markPage`
and `markDelete`, and one method for each of those functions, with the same branches. Its ghost fields say what each
reachable node covers (`spans`), what bounds each page's records lie in (`filed`), which records the table holds
(`contents`), and every node stored and root set so far (`trace`). Separators and `maxKey` fields only bound the keys below them: a separator lies between the largest key
its child was told of and the end of what the child covers, and that is what stays true when deletions leave them
stale and a record past the end of a leaf lowers one again. `Valid()` is the invariant; `TreeMeaning` restates it in
terms of child pointers alone and runs whole sequences of operations against a finite map. The order M is any number
from 4 up, and half of M is M / 2 rounded down.

**Pages and files** (`Records`, `PageLayout`, `SlottedPages`, `Buffers`, `NodeCodec`, `PageCodec`, `Stripes`,
`Probing`, `HashTables`, `Pending`, `NodeStore`, `CacheRuns`, `TreeOverCache`). The slotted page's arrays refine a sorted sequence of records; nodes, pages and
log entries are read back as they were written; addresses given out never overlap; the two open-addressed tables
refine finite maps; a failed statement is undone exactly; and reading through the node cache is reading the pending
version or the file. The cache may only ever hold the root and its children, whatever is pending and whatever is rolled
back, and that rests on the tree: no method of `BPlus.Table` stores a node further down while the root stays the same.
`TreeOverCache` puts the two together.

**Commit and recovery** (`Words`, `LogCodec`, `Redo`, `Commits`, `CommitMeaning`, `CommittedObjects`, `CrashSafety`,
`CommitProgress`). A step machine whose state is what
the disk holds, how much of the log has reached it, what the process is doing and every commit so far. While a commit is
applied or redone, its operations are made one by one in what the process sees, and any part of any of those already made
can reach the disk at any time, in any order, until a sync makes the disk what the process sees; a crash can happen at any
step, of recovery too. `CommitMeaning` says what a commit leaves in the files in terms of what was pending alone, and
`CommitProgress` that a commit nothing disturbs succeeds, and that everything that is meant to be able to go wrong can.

**Scans** (`ScanOrder`, `Scan`, `Statements`). A scanner over `BPlus.Table`, which deletes and changes rows of the table
it is walking.

**Expressions** (`Expressions`, `ExpressionLaws`, `Bytecode`, `CompilerCorrect`, `Generator`, `Jumps`). A direct
evaluator and the laws its operators obey, the stack machine, the bytes of an expression, the generator that emits and
back-patches them, and the proof that running the bytes is evaluating the expression.

`dafny verify dfyconfig.toml` checks everything.

## What the proofs show about the code

- Some of it can't be reached: the branch of `splitUpdateParent` for a full parent (`src/storage_engine/bplus.c:309-320`),
  the step of `addPage` that raises the root's `maxKey`, `storePage`'s exit when no cut is possible, and the third
  attempt and the result 2 of `insertRecord`, given keys of the table's own type.
- The repository's README says every log entry is safe to repeat. That isn't so of every log: replaying a write to a file
  the log goes on to remove can find the file gone. `Redo.SafeToRepeat` says exactly which logs are safe, and
  `Commits.CommitsCanBeRedone` that those of commits that don't write a table they also drop are among them.
- The repository's README says a rollback needs nothing undone in the node cache. The code empties the cache when a
  rolled-back statement had changed the root, and the model follows the code.
- `checkCommitted` needs no help from the checksum to reject a log that was cut short, or one of which any bytes are still
  zero as long as the commit tag isn't whole.
- SQL's three-valued logic is followed only in part: NOT of a null is true, and a null on the left of AND gives false.
  `ExpressionLaws.TruthTables` has the whole tables.
- Deleting a key that isn't there answers yes where the key is above everything filed in the leaf it leads to, and no
  where a page is filed for it. `BPlus.Table.DeleteRecord` says which, exactly.

## Model

| member | source | states |
|---|---|---|
| TreeMeaning.Run | src/storage_engine/bplus.c:1043-1188 | from a new table, any run of inserts, updates, deletes, searches and reads leaves the table sound, holding what a finite map would, and answers as the map would; a deletion of a key that isn't there is answered yes exactly where no page is filed for the key |
| TreeMeaning.Perform | src/storage_engine/bplus.c:1043-1188 | one operation keeps the table sound, does to its contents what it does to a finite map, and answers as the map does, but that deleting a key that isn't there succeeds exactly where no page is filed for it |
| TreeMeaning.NodeReached | src/storage_engine/bplus.c:502-843 | every node child pointers lead to is stored and not marked for deletion, has its real parent as parent, strictly ascending keys, the right number of them, and from M/2 to M children unless it is the root |
| TreeMeaning.SameDepth | src/storage_engine/bplus.c:750-809 | all leaves are equally deep |
| TreeMeaning.LeavesLinked | src/storage_engine/bplus.c:349-426 | a leaf's next and previous are leaves that link back to it |
| TreeMeaning.ChainOrdered | src/storage_engine/bplus.c:349-426 | every row of a leaf is below every row of the leaf its next link leads to, and a leaf without a next is above all others |
| TreeMeaning.PageReached | src/storage_engine/bplus.c:1158-1188 | every page in a leaf is stored, not marked for deletion, fits, and is only empty if the table is |
| TreeMeaning.Separates | src/storage_engine/bplus.c:856-887 | rows under a child are above the separator before it and at most the one after it, even where separators are stale |
| BPlus.Table.NewTree | src/storage_engine/bplus.c:120-145 | a new tree is sound and empty |
| BPlus.Table.MarkNode | src/storage_engine/tableIO.c:1101-1111 | stores a node, which its callers must not move down from the top two levels |
| BPlus.Table.ChangeRoot | src/storage_engine/bplus.c:64-67 | another root, which starts the top two levels again |
| NodeStore.TopsStay | src/storage_engine/bplus.c:60-67 | while the root stays the same, a node that was the root or its child remains that, over any run of stores a table makes |
| BPlus.Table.InsertRecord | src/storage_engine/bplus.c:1043-1106 | 1 exactly if the key is there, 3 exactly if the record can't fit a page, otherwise 0 with exactly that binding added, within two rounds; nothing stored changes on 1 or 3 |
| BPlus.Table.InsertRound | src/storage_engine/bplus.c:1046-1104 | one attempt either settles the insert or files a new first page the second attempt will fit |
| BPlus.Table.InsertSplitting | src/storage_engine/bplus.c:1073-1103 | a page without room is cut in two that both fit and are filed, the record in one of them or still to be inserted after it |
| BPlus.Table.SearchRecord | src/storage_engine/bplus.c:1112-1120 | true exactly for keys in the table |
| BPlus.Table.ReadRecord | src/storage_engine/bplus.c:1127-1132 | the record stored under the key, or none |
| BPlus.Table.UpdateRecord | src/storage_engine/bplus.c:1140-1156 | succeeds exactly if the key is there with as many entries and the result fits a page; then exactly that record changes |
| BPlus.Table.DeleteRecord | src/storage_engine/bplus.c:1168-1188 | exactly that key goes; true exactly if the key was there or no page is filed for it; says what is left of its page, and which leaf to carry on from, and whether pages were removed |
| BPlus.Table.DeletePage | src/storage_engine/bplus.c:819-843 | takes a page out of the tree, keeping it sound; the leaf returned covers what the old one did |
| BPlus.Table.BalanceLeaf | src/storage_engine/bplus.c:750-809 | a leaf at the minimum borrows from the next sibling if that can spare a page, otherwise from the previous if that can, and otherwise merges, into the previous if there is one; the emptied leaf is marked for deletion, and what takes over covers what it did |
| BPlus.Table.BalanceInner | src/storage_engine/bplus.c:750-809 | an inner node that lost a child borrows or merges by the same order of choices, or a root with one child gives way to it, and nothing below it changes place |
| BPlus.Table.CollapseRoot | src/storage_engine/bplus.c:781-790 | a root with one child gives way to it |
| BPlus.Table.MergeLeaf | src/storage_engine/bplus.c:502-614 | a leaf and its sibling become one, and the emptied one leaves the tree |
| BPlus.Table.MergeInner | src/storage_engine/bplus.c:502-614 | an inner node and its sibling become one through the separator between them, cascading upwards |
| BPlus.Table.DropSource | src/storage_engine/bplus.c:560-605 | the emptied node is marked for deletion and taken out of its parent, and its ancestors are told |
| BPlus.Table.BorrowNext | src/storage_engine/bplus.c:630-654 | the next leaf's first page moves over; the tree stays sound and the leaf has enough |
| BPlus.Table.BorrowPrev | src/storage_engine/bplus.c:659-685 | the previous leaf's last page moves over |
| BPlus.Table.BorrowNextThroughParent | src/storage_engine/bplus.c:691-717 | the next inner node's first child moves over through the separator, and is told its new parent |
| BPlus.Table.BorrowPrevThroughParent | src/storage_engine/bplus.c:719-748 | the previous inner node's last child moves over through the separator |
| BPlus.Table.GetNextInternal | src/storage_engine/bplus.c:248-256 | the child after a node in its parent |
| BPlus.Table.GetPrevInternal | src/storage_engine/bplus.c:261-269 | the child before it |
| BPlus.Table.InsertPageIntoChildren | src/storage_engine/bplus.c:280-302 | a leaf with room files the page in key order, ancestors are told of a larger key |
| BPlus.Table.SplitUpdateParent | src/storage_engine/bplus.c:308-343 | the new half is put beside the old in a parent that is never full |
| BPlus.Table.SplitNode | src/storage_engine/bplus.c:349-426 | a full node becomes two halves covering what it did, linked and with their children told |
| BPlus.Table.NewRoot | src/storage_engine/bplus.c:72-87 | a full root becomes the only child of a new root |
| BPlus.Table.BalanceTreeAdd | src/storage_engine/bplus.c:431-448 | splits a full node whatever has to split above it first, and re-reads it |
| BPlus.Table.AddPage | src/storage_engine/bplus.c:451-470 | files a page in a leaf, splitting it if it is full |
| BPlus.Table.PropagateMaxKeyUp | src/storage_engine/bplus.c:479-496 | equals the recursive function that updates the separator or goes on up |
| BPlus.Table.FindLeaf | src/storage_engine/bplus.c:856-870 | the walk down ends at the leaf for the key |
| BPlus.Table.FindPageInLeaf | src/storage_engine/bplus.c:878-887 | binary search for the first page filed under the key or more |
| BPlus.Table.FindPage | src/storage_engine/bplus.c:894-909 | the only page that can hold the key and its leaf, or 0 and the key isn't in the table |
| PageSearch.FindsPage | src/storage_engine/bplus.c:856-887 | a search ends at the page whose bounds cover the key, if one does |
| PageSearch.PagesApart | src/storage_engine/bplus.c:856-887 | two pages never cover the same key |
| PageSearch.Widen | src/storage_engine/bplus.c:1047-1072 | whatever stale bounds a search meets, the leaf it ends at may take in the key |
| BPlus.Table.AddPageAfter | src/storage_engine/bplus.c:958-972 | a cut page is refiled under its new bound and the new one after it |
| BPlus.Table.ChooseCut | src/storage_engine/bplus.c:998-1013 | there is always a cut that leaves a page that fits below and something above; the most even legal one if there is one, and otherwise after as many records as fit |
| BPlus.Table.StorePage | src/storage_engine/bplus.c:983-1032 | stores an over-full page, in as many pages as it takes, exactly if each record fits alone; otherwise nothing changes; split exactly if it was over-full |
| PageSplit.ChooseSplit | src/storage_engine/bplus.c:924-950 | the most even of all legal splits, and none exactly if there is none |
| PageSplit.FirstAlwaysSplits | src/storage_engine/bplus.c:924-950 | a record that sorts first can always be split off |
| PageSplit.LastAlwaysSplits | src/storage_engine/bplus.c:924-950 | so can one that sorts last |
| PageSplit.LegalCuts | src/storage_engine/bplus.c:1078-1095 | a legal split conserves every record and puts the new one in its place |
| TableContents.KeyLookup | src/storage_engine/bplus.c:894-909 | the page a search leads to is the only one that can hold the key |
| TreeInner.SplitInnerKeeps | src/storage_engine/bplus.c:349-426 | splitting an inner node keeps the structure |
| TreeLeaves.SplitLeafKeeps | src/storage_engine/bplus.c:349-426 | splitting a leaf keeps the structure and the leaf chain |
| TreeInner.MergeInnersKeeps | src/storage_engine/bplus.c:502-614 | merging inner nodes keeps the structure |
| TreeLeaves.MergeLeavesKeeps | src/storage_engine/bplus.c:502-614 | merging leaves keeps the structure and the leaf chain |
| TreeInner.ShareInnersKeeps | src/storage_engine/bplus.c:691-748 | moving children between sibling inner nodes keeps the structure |
| TreeLeaves.ShareLeavesKeeps | src/storage_engine/bplus.c:630-685 | moving pages between sibling leaves keeps the structure |
| TreeSplit.PropagateKeeps | src/storage_engine/bplus.c:479-496 | telling the ancestors of a larger key restores the structure |
| TreeGrowth.TellAfterwards | src/storage_engine/bplus.c:308-343 | telling the ancestors before the halves are stored comes to the same as after |
| TreeView.UniqueCover | src/storage_engine/bplus.c:856-870 | at any height one node covers a key |
| SlottedPages.SlottedPage.SearchSlotArray | src/storage_engine/page.c:69-78 | binary search finds the key's position |
| SlottedPages.SlottedPage.SPSearch | src/storage_engine/page.c:304-310 | the slot of the key's record, if the page holds it |
| SlottedPages.SlottedPage.SPRead | src/storage_engine/page.c:285-298 | its entries |
| SlottedPages.SlottedPage.SPInsert | src/storage_engine/page.c:186-217 | succeeds exactly if there is room, and then the page holds the record in its place and all others |
| SlottedPages.SlottedPage.SPDelete | src/storage_engine/page.c:223-258 | exactly that record goes; entries are compacted and slots rebased |
| SlottedPages.SlottedPage.SPUpdate | src/storage_engine/page.c:265-279 | succeeds exactly if the record is there with as many entries; its first entries are replaced, its others and all other records stay |
| SlottedPages.SlottedPage.SPSplit | src/storage_engine/page.c:325-371 | the records before the index stay and the others are all in the upper page |
| SlottedPages.SlottedPage.UsedIs | src/storage_engine/page.c:39-63 | the bytes counted by the header are those of the records |
| SlottedPages.SlottedPage.Grow | src/storage_engine/page.c:192-203 | growing the arrays keeps what is in them and makes room |
| PageLayout.Removed | src/storage_engine/page.c:223-258 | compaction and rebasing leave every other record as it was |
| PageLayout.Inserted | src/storage_engine/page.c:204-214 | appending entries and shifting slots inserts exactly one record |
| PageLayout.Replaced | src/storage_engine/page.c:270-277 | replacing an entry changes one record, whose size follows |
| PageLayout.TotalSize | src/storage_engine/page.c:39-56 | the slots' ranges make up the entry array: sizes add up |
| PageLayout.RoomUsed | src/storage_engine/page.c:46-48 | the size formula is the sum over records |
| NodeCodec.NodeRoundTrip | src/storage_engine/tableIO.c:717-755 | decoding a written node gives the node |
| NodeCodec.NodeReadsExactly | src/storage_engine/tableIO.c:707-755 | bytes are read as a node exactly if they start with that node's bytes, its marker first |
| NodeCodec.NodeWrittenAgain | src/storage_engine/tableIO.c:707-755 | a node that has been read, written again, is the same header, children and keys, and is read again |
| NodeCodec.NodeFits | src/storage_engine/tableIO.h:46-50 | every node with at most M children fits the node size |
| NodeCodec.SerializeNode | src/storage_engine/tableIO.c:850-878 | fills the buffer with exactly the node's bytes |
| NodeCodec.ReadNode | src/storage_engine/tableIO.c:707-751 | reads the node some bytes are of, or refuses them |
| PageCodec.PageRoundTrip | src/storage_engine/tableIO.c:594-684 | decoding a written page gives the page, for every page that fits |
| PageCodec.PageReadsExactly | src/storage_engine/tableIO.c:609-684 | bytes are read as a page exactly if they are that page's header, slots and entries, within the limits, its marker first |
| PageCodec.PageWrittenAgain | src/storage_engine/tableIO.c:609-684 | a page that has been read fits where it was read from; written again its header and slots are the same bytes, and it is read again |
| PageCodec.NeverMeet | src/storage_engine/tableIO.c:768-812 | slots growing forwards never meet entries growing backwards in a page that fits: the gap is the room left |
| PageCodec.SerializePage | src/storage_engine/tableIO.c:768-812 | fills the buffer with exactly the page's bytes, entries from the end |
| PageCodec.ReadPage | src/storage_engine/tableIO.c:610-683 | reads the page some bytes are of, or refuses them |
| Stripes.AllocPage | src/storage_engine/tableIO.c:1439-1446 | gives out the first page that wasn't, and nothing else |
| Stripes.AllocNode | src/storage_engine/tableIO.c:1448-1455 | gives out the first node that wasn't, and nothing else |
| Stripes.AllocRun | src/storage_engine/tableIO.c:1391-1455 | over any interleaving all ranges given out are past the header and disjoint, for every layout |
| Stripes.SlotsApart | src/storage_engine/tableIO.c:1391-1423 | different places never overlap, by the stripe arithmetic |
| Stripes.SlotsTile | src/storage_engine/tableIO.c:1388-1423 | past the header every byte of the file is in exactly one place for a page or a node: no gaps |
| Stripes.NewCursorValid | src/storage_engine/tableIO.c:458-484 | a new table has given nothing out |
| HashTables.AddrTable.FindAddrTable | src/storage_engine/tableIO.c:369-373 | the value of a key, for every hash function |
| HashTables.AddrTable.AdjustAddrCapacity | src/storage_engine/tableIO.c:341-353 | rehashing into a larger table keeps the map |
| HashTables.AddrTable.InsertAddrTable | src/storage_engine/tableIO.c:378-388 | adds or replaces one binding, growing so that an empty slot always remains |
| HashTables.AddrTable.RemoveAddrTable | src/storage_engine/tableIO.c:396-415 | removes one binding; shifting back keeps all others reachable from home |
| HashTables.NodeCache.NodeCacheGet | src/storage_engine/cache.c:100-110 | the cached node |
| HashTables.NodeCache.NodeCacheOffer | src/storage_engine/cache.c:119-131 | keeps a node exactly if it is the root or its child and is there already or there is room |
| HashTables.NodeCache.NodeCacheUpdate | src/storage_engine/cache.c:139-145 | replaces exactly a cached node |
| HashTables.NodeCache.NodeCacheRemove | src/storage_engine/cache.c:151-157 | drops exactly that node |
| HashTables.NodeCache.EmptySlot | src/storage_engine/cache.c:50-65 | closing the gap keeps every other node reachable |
| HashTables.NodeCache.NodeCacheClear | src/storage_engine/cache.c:163-169 | drops everything |
| HashTables.FindEntry | src/storage_engine/tableIO.c:327-335 | a probe stops, at the key or at the first empty slot |
| Probing.StopsAt | src/storage_engine/tableIO.c:327-335 | where a probe stops tells whether the key is there, across the wrap-around |
| Probing.Put | src/storage_engine/tableIO.c:378-388 | filling that slot keeps every key reachable |
| Probing.Move | src/storage_engine/cache.c:53-63 | moving an entry into the hole keeps every key reachable but across the new hole |
| Probing.Skip | src/storage_engine/tableIO.c:406-408 | an entry whose home is past the hole doesn't need it |
| Probing.Closed | src/storage_engine/cache.c:56-64 | at an empty slot the hole can be left |
| Pending.PendingTable.BeginStatement | src/storage_engine/tableIO.c:1017-1026 | tracking starts with everything as it is |
| Pending.PendingTable.MarkPage | src/storage_engine/tableIO.c:1084-1098 | marks a page and goes on remembering what the statement began with |
| Pending.PendingTable.MarkNode | src/storage_engine/tableIO.c:1101-1111 | marks a node likewise; the cache goes on holding nothing but the top of the tree if the node isn't moved down from there |
| Pending.PendingTable.MarkDelete | src/storage_engine/tableIO.c:1114-1118 | marks an object for deletion likewise |
| Pending.PendingTable.AllocPage | src/storage_engine/tableIO.c:1439-1446 | an address not in use, likewise |
| Pending.PendingTable.AllocNode | src/storage_engine/tableIO.c:1448-1455 | an address not in use, likewise |
| Pending.PendingTable.SetRoot | src/storage_engine/bplus.c:64-67 | another root, likewise, and a cache that starts again |
| Pending.PendingTable.RollbackStatement | src/storage_engine/tableIO.c:1039-1077 | the three pending tables and all five header fields are what they were when the statement began, whatever it and earlier ones marked, and what is cached is the top of that tree again |
| Pending.Restore | src/storage_engine/tableIO.c:1042-1063 | putting back the versions set aside, in any order, gives the map there was |
| Pending.PendingTable.ReadNode | src/storage_engine/tableIO.c:690-756 | the pending version, otherwise the file's, whatever the cache holds; a node read from the file goes in the cache exactly if it is the root or its child and there is room |
| Pending.PendingTable.ApplyTable | src/storage_engine/tableIO.c:1180-1233 | nothing is left pending, the file is what it was with everything pending written and what was marked for deletion gone, reads give what they gave but for that, and the cache is the top of the tree as the file has it |
| CacheRuns.Run | src/storage_engine/cache.c:100-169 | over any run of reads, changes, rollbacks and commits that moves no node down from the top, every read gives what it would without the cache, and the cache is the top of the tree as the file has it |
| TreeOverCache.TreePermitted | src/storage_engine/bplus.c:60-67 | whatever statements store as the tree stores it, with rollbacks and commits between, is such a run |
| TreeOverCache.Run | src/storage_engine/tableIO.c:690-756 | whatever a `BPlus.Table` has stored reads back through the cache as the table has it, for every node not marked for deletion, and the cache is the top of its tree |
| LogCodec.RoundTrip | src/storage_engine/wal.c:169-200 | parsing a serialized entry gives the entry, whatever the checksum |
| LogCodec.ParsesExactly | src/storage_engine/wal.c:186-200 | bytes are parsed as an entry exactly if they are that entry's fields with the checksum of all of them |
| LogCodec.AcceptsWhole | src/storage_engine/wal.c:324-340 | a whole log is accepted, with its number of entries and transaction |
| LogCodec.AcceptsExactly | src/storage_engine/wal.c:324-340 | a log of fewer than 2^32 entries is accepted exactly if it is that many entries long with their marker, checksum and all, at its end |
| LogCodec.AcceptsSealed | src/storage_engine/wal.c:324-340 | the same of every log, whose marker counts modulo 2^32 |
| LogCodec.RejectsDamaged | src/storage_engine/wal.c:324-340 | a committed log whose marker's checksum isn't what was written is rejected, whatever the checksum is |
| LogCodec.RejectsPrefix | src/storage_engine/wal.c:324-340 | every proper prefix of it, byte by byte, is rejected, whatever the checksum |
| LogCodec.RejectsTorn | src/storage_engine/wal.c:324-340 | so is any log of which each byte is right or still zero, wherever it ends, unless the commit tag is whole |
| LogCodec.MagicIsNoTag | src/storage_engine/wal.h:27-29 | no entry starts with the commit tag |
| Redo.RedoConverges | src/storage_engine/wal.c:278-297 | replaying a well-formed log from files any parts of its operations have reached, in any order, gives what replaying it from the start gives |
| Redo.SafeToRepeat | src/storage_engine/wal.c:248-297 | a log can be replayed from wherever a crash leaves the files if and only if it touches every file it removes before writing to it |
| Redo.RemovedTooSoon | src/storage_engine/wal.c:248-271 | a log that writes to a file and then removes it can't |
| Commits.LogFileChange | src/storage_engine/tableIO.c:1239-1247 | logs a file change a page at a time |
| Commits.CommitMatchesLog | src/storage_engine/tableIO.c:1144-1261 | what applyTable and applyFileChange do is what replaying the log would |
| CommitMeaning.CommitSaves | src/storage_engine/tableIO.c:1144-1261 | after a commit, or its log redone, every table's file has every pending page, node and header at its address, the mark on everything deleted, and otherwise what was there or zeros; rewritten files hold just their bytes, dropped ones are gone, and no other file has changed |
| CommitMeaning.SlotsSeparate | src/storage_engine/tableIO.c:1391-1456 | what allocation gives out lies apart, as that needs |
| CommittedObjects.PageCommitted | src/storage_engine/tableIO.c:1197-1205 | a pending page is read from the file as it was, once its table is saved |
| CommittedObjects.NodeCommitted | src/storage_engine/tableIO.c:1206-1215 | so is a node |
| CommittedObjects.DeletedByCommit | src/storage_engine/tableIO.c:1120-1125 | what a commit deletes is refused, as a page and as a node, when it is read |
| CommittedObjects.DeletedUnreadable | src/storage_engine/tableIO.c:609-709 | the delete marker makes any bytes unreadable |
| CommittedObjects.NeverBoth | src/storage_engine/tableIO.c:609-709 | no bytes are both a page and a node |
| Commits.CommitLandsAsLogged | src/storage_engine/tableIO.c:1239-1261 | whatever parts of a commit's writes reach the disk, whole-file writes among them, are parts of the operations it logged |
| Commits.CommitsCanBeRedone | src/storage_engine/tableIO.c:1278-1332 | the log of a commit that drops no file it writes can be made and redone |
| CrashSafety.VerifyLog | src/storage_engine/wal.c:278-288 | the loop reads all entries of the transaction, or refuses the log |
| CrashSafety.ReadsExactly | src/storage_engine/wal.c:278-284 | entries are read exactly if every one of them is what that entry is written as, and of the transaction |
| CrashSafety.ReadsBack | src/storage_engine/wal.c:235-297 | from a committed log exactly the entries that were logged are read |
| CrashSafety.StepSound | src/storage_engine/tableIO.c:1278-1332 | every step of a commit, a crash or recovery keeps the invariant |
| CrashSafety.AllOrNothing | src/storage_engine/wal.c:348-375 | over every run with any crashes, once recovery is done the files are what the kept commits made of them, in order, and the log is empty |
| CrashSafety.FatesStay | src/storage_engine/wal.c:303-340 | what a commit returned is never reversed: no later step undoes one that returned true or replays a stale log |
| CrashSafety.OnePerCrash | src/storage_engine/tableIO.c:1278-1332 | besides those a crash keeps at most the one commit it cut short |
| CrashSafety.RecoveryFinishes | src/storage_engine/wal.c:348-375 | however recovery goes while no crash disturbs it, the steps it takes itself are bounded beforehand, and it has either completed with the outcome's files or can go on |
| CrashSafety.RecoveryAdvances | src/storage_engine/wal.c:348-375 | every step of recovery's own brings its end nearer, and what reaches the disk meanwhile never puts it off |
| CrashSafety.NeverStuck | src/storage_engine/wal.c:348-375 | until it is done recovery always has a next step |
| CrashSafety.CommitBegins | src/storage_engine/tableIO.c:1278-1310 | what a transaction logs is a commit the machine can begin |
| CommitProgress.CanBegin | src/storage_engine/tableIO.c:1278-1297 | a commit that can be logged and made can begin whenever the database is up |
| CommitProgress.CommitSucceeds | src/storage_engine/tableIO.c:1278-1332 | with no failure and no crash a commit takes a bounded number of steps of its own, can always go on until it returns, returns true, and then the files are exactly what its operations make of them |
| CommitProgress.TransactionCommits | src/storage_engine/tableIO.c:1278-1332 | and what a transaction had pending is then all in the files, as `CommitMeaning` says, with nothing else changed |
| CommitProgress.CommitAdvances | src/storage_engine/wal.c:221-230 | every step of its own brings that nearer, and what reaches the disk meanwhile never puts it off |
| CommitProgress.CommitNeverStuck | src/storage_engine/wal.c:221-230 | until it has returned there is a next step: send, flush, the marker once the entries are on the disk, and so on |
| CommitProgress.MayFail | src/storage_engine/tableIO.c:1278-1332 | a crash can come at any step and a failure at any step of writing the log, and any length of it that was sent can have reached the disk |
| CommitProgress.AnyPartLands | src/storage_engine/tableIO.c:1180-1261 | any bytes at all of any write made so far can be on the disk without the rest |
| CommitProgress.DamagedEntryStops | src/storage_engine/wal.c:278-284 | a committed log with a damaged entry isn't redone: nothing is written and the log stays |
| Scan.Scanner.Advance | src/SQL_interpreter/vm.c:468-502 | moves to the row with the least key above the last visited, or there is none |
| Scan.Scanner.Rewind | src/SQL_interpreter/vm.c:871-878 | the next row is the least key of the table again |
| Scan.Scanner.LoadFirstValidPage | src/SQL_interpreter/vm.c:263-281 | the first row from here on, over empty pages and leaf after leaf |
| Scan.Scanner.SeekScanner | src/SQL_interpreter/vm.c:526-541 | stands on the key's row wherever it now is, exactly if there is one |
| Scan.Scanner.DeleteRow | src/SQL_interpreter/vm.c:1012-1043 | exactly the row goes, never fails, and the scanner is between its neighbours whatever borrowed or merged |
| Scan.Scanner.UpdateCol | src/SQL_interpreter/vm.c:987-1011 | exactly the row's column changes, if the row still fits a page, and the scanner stays on it wherever a split put it |
| ScanOrder.FirstOfPage | src/SQL_interpreter/vm.c:263-281 | the first row of the first page that has any is the next in key order |
| ScanOrder.LeafPassed | src/SQL_interpreter/vm.c:274-280 | following the leaf chain misses nothing, and its end is the end of the table |
| ScanOrder.Resumed | src/SQL_interpreter/vm.c:1025-1038 | resuming before the first page past the deleted key skips nothing and repeats nothing |
| Statements.DeleteWhere | src/SQL_interpreter/generator.c:654-710 | visits every row once in ascending order and deletes exactly those that match |
| Statements.UpdateWhere | src/SQL_interpreter/generator.c:583-653 | visits every row once in ascending order and changes exactly those that match, or fails exactly if one outgrows a page, with exactly the matching rows before that one changed |
| Statements.SelectWhere | src/SQL_interpreter/generator.c:433-540 | gives exactly the rows that match, in ascending order |
| Statements.Selected | src/SQL_interpreter/generator.c:433-540 | what it gives are exactly the rows of the table that match, each once, in order |
| Expressions.LikeMeaning | src/SQL_interpreter/vm.c:677-688 | LIKE holds exactly if the string can be cut into pieces that fit the pattern's characters |
| ExpressionLaws.LessByAdding | src/SQL_interpreter/vm.c:562-579 | an integer or float is less than another exactly if adding something positive to it gives the other |
| ExpressionLaws.LessOfOthers | src/SQL_interpreter/vm.c:562-579 | only false is less than true, nothing is less than null, unsigned numbers are ordered by counting up |
| ExpressionLaws.Trichotomy | src/SQL_interpreter/vm.c:546-579 | of two values of one ordered type exactly one is less, or they are equal |
| ExpressionLaws.Transitive | src/SQL_interpreter/vm.c:562-579 | less than is transitive |
| ExpressionLaws.OtherComparisons | src/SQL_interpreter/vm.c:766-798 | the other comparisons are less than, or equals, with operands swapped, the answer negated, or both |
| ExpressionLaws.ComparingFails | src/SQL_interpreter/vm.c:562-598 | comparing by order is an error exactly if the values aren't of one type that has an order |
| ExpressionLaws.Equality | src/SQL_interpreter/vm.c:546-560 | equality is of type and value and never fails |
| ExpressionLaws.Likeness | src/SQL_interpreter/vm.c:799-808 | LIKE of strings is being cut to fit the pattern, and null for a null |
| ExpressionLaws.BetweenIsBoth | src/SQL_interpreter/generator.c:276-301 | BETWEEN evaluates as both comparisons joined by AND, failures and all |
| ExpressionLaws.InIsAny | src/SQL_interpreter/generator.c:302-341 | IN evaluates as equalities joined by OR, and NOT IN as that negated |
| ExpressionLaws.NullTest | src/SQL_interpreter/vm.c:809-816 | IS NULL and IS NOT NULL tell null from everything else |
| ExpressionLaws.TruthTables | src/SQL_interpreter/vm.c:817-841 | AND, OR and NOT over true, false and null, where NOT of null is true |
| ExpressionLaws.DeMorgan | src/SQL_interpreter/vm.c:817-841 | negation turns AND into OR and OR into AND, with nulls as well |
| ExpressionLaws.ShortCircuits | src/SQL_interpreter/generator.c:175-213 | a left operand that decides keeps the right from mattering, even if it would fail |
| ExpressionLaws.Integers | src/SQL_interpreter/vm.c:695-742 | integers are added as integers, subtracting undoes adding, and multiplying is adding as often |
| ExpressionLaws.Quotients | src/SQL_interpreter/vm.c:743-753 | dividing undoes multiplying, and multiplying undoes dividing up to a remainder with the dividend's sign |
| ExpressionLaws.Floats | src/SQL_interpreter/vm.c:695-753 | with a float operand the result is a float, and dividing and subtracting undo multiplying and adding |
| ExpressionLaws.ArithmeticFails | src/SQL_interpreter/vm.c:743-753 | arithmetic is an error exactly when it divides by zero |
| ExpressionLaws.Negation | src/SQL_interpreter/vm.c:754-765 | a number and its negation add up to zero; negating anything else is an error |
| ExpressionLaws.FirstFailure | src/SQL_interpreter/vm.c:690-841 | an expression fails as the first operand it needs does |
| CompilerCorrect.Runs | src/SQL_interpreter/vm.c:690-841 | running an expression's bytes, anywhere and on any stack, pushes what it evaluates to and stops at their end, or fails exactly if evaluation does |
| CompilerCorrect.Compiled | src/SQL_interpreter/vm.c:690-841 | an expression compiled on its own, if its code, its constants and the row are within the limits, ends with nothing but its value on the stack, or fails as evaluating it does |
| Jumps.CodeLands | src/SQL_interpreter/generator.c:134-160 | every jump in an expression's bytes lands on an instruction or at their end |
| Generator.Chunk.MunchExpr | src/SQL_interpreter/generator.c:166-418 | appends exactly the expression's bytes and constants |
| Generator.Chunk.MunchCircuit | src/SQL_interpreter/generator.c:175-213 | AND and OR: both jumps are patched to where they must land |
| Generator.Chunk.MunchBetween | src/SQL_interpreter/generator.c:276-301 | BETWEEN likewise |
| Generator.Chunk.MunchIn | src/SQL_interpreter/generator.c:302-341 | IN and NOT IN likewise |
| Generator.Chunk.MunchTests | src/SQL_interpreter/generator.c:319-332 | the loop over a list never remembers more jumps than it has room for |
| Generator.Chunk.EmitJump | src/SQL_interpreter/generator.c:134-139 | a jump with a placeholder, and where that is |
| Generator.Chunk.PatchJump | src/SQL_interpreter/generator.c:145-149 | that jump reaches the end of the code, and no other byte changes |

## Left out

- Statements.UpdateWhere: the rollback of a statement that failed isn't part of it; `Pending` models that apart.
- Generator.Chunk.MunchExpr: lists in IN have at most 65 values, since the source writes past its 64 remembered jumps for longer ones; code of 32 KB or more and pools of more than 256 constants are outside `CompilerCorrect.Runs`.
- Node arrays are sequences of the entries in use; what lies past them isn't modelled. Nodes and pages are copied in and out of the store, as readNode and markNode do.
- The pending tables of `Pending` are maps; that the hash tables behave as maps is `HashTables`. Hash functions are arbitrary, and the caches' bit masks are remainders.
- The tree reads maps of its nodes and pages. `TreeOverCache.Run` shows that nodes read through the cache are those; reads and writes of the file that fail aren't modelled.
- Keys are big-endian numbers of at most 24 bytes, in order; keys of the wrong type, which the tree refuses, aren't modelled, nor is the conversion of values to keys.
- Sizes are unbounded: the wrap-around of 32-bit counts of data past 4 GB isn't modelled, nor is that of 64-bit addresses.
- The inner nodes' own sibling links, which the source keeps but never follows, are kept but nothing is shown about them. The root a collapse replaces isn't marked for deletion, as in the source.
- Memory ownership: malloc, free, aliases of page data and scratch strings. A split's cleared slots past the end of a page aren't cleared.
- Files: stdio, fsync variants, locks and directories are steps of a machine in which the log reaches the disk from the front; in its runs the log that a crash leaves is a prefix; of other torn logs only those with the whole commit tag rest on the checksum, which is any function here (`LogCodec.RejectsTorn`). Transaction numbers are given.
- A commit with an entry too large for the log aborts before the machine begins it.
- The machine's values are unbounded integers and exact reals, so neither 64-bit wrap-around nor rounding is modelled. Its stack is unbounded. Operands of types it doesn't check for lead to the same undefined outcome in the evaluator and the machine.
- Conditions and assignments of statements are total functions of the row; that they are compiled expressions, whose failure stops the statement, is `CompilerCorrect`.
- The primary-key shortcut for WHERE clauses, function calls, the lexer, the parser, result printing, the schema, the table cache, CREATE and DROP statements, ORDER BY, LIMIT and column lists.
- writeNextPage, writeNextNode, moving of nodes and pages, and garbage collection, which the database doesn't use.
