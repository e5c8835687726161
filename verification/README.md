# MidoriDB, modelled and proved in Dafny

MidoriDB is a small in-memory SQL engine written in C. This project models its storage structures and the parts of its
query pipeline that carry the most state, and proves what they keep, what they compute and where they stop being right.

Code that changes things in place is modelled by classes and methods that change fields, arrays and linked nodes; each
such method is proved against a specification function, and what that function means is proved by lemmas. Where the C
code does less than it seems meant to do, the model does what the code does, a lemma shows an input on which it goes
wrong and, where the cause is a condition on the input, a theorem says exactly when it does not.

| part | files | main results |
|---|---|---|
| B-tree | `BTreeSpec`, `BTreeSlots`, `BTree`, `BTreeLeft`, `BTreeRuns`, `BTreeBorrow`, `BTreeRepeats` | insert and remove keep every B-tree rule for every minimum degree, height included, and change the in-order entries by exactly one; what they leave in every key slot, in use or not, and with it the answers of any run of calls; every call agrees with a finite map exactly when its search meets no key left behind in a slot out of use, or one that says the same; after a removal from a clean tree, exactly when the removed key is still found; with repeated keys, the exact condition for removal to take out one entry and keep the others |
| row store | `RowStore`, `VacuumSpec`, `ColumnSpec`, `NullBits`, `Table`, `TableRuns` | over every run of insert, delete, update, add/remove column and vacuum the pages stay filled front to back, each string buffer has exactly one owner, and the columns and rows are the ones the source describes; they read as meant, step after step, exactly when the NULL bits are where a change of columns needs them; vacuum leaves the least number of pages |
| page bytes | `Words`, `PageBytes` | the two overlapping moves of column removal never overwrite a row that is still to be read |
| INSERT expressions | `InsertSpec`, `InsertTree` | building and flattening are inverse; folding the built tree is evaluating the postfix queue; exact conditions for the mathematical value, with and without division |
| row layout | `Bits`, `RowCodec` | a row written from a column list in any order reads back column by column |
| SELECT | `Condition`, `JoinOrder`, `SelectSpec`, `Sieve`, `Select`, `GroupSpec`, `GroupBy` | the nested loops materialise exactly the merges of the pairs that satisfy ON, in order; WHERE keeps exactly the satisfying rows; exact conditions for a comparison to be judged rightly, and for the columns of the SELECT list to read their own NULL bits; GROUP BY leaves the rows in the lowest slot of each key, over any number of pages, with the exact conditions for one row that counts its group and for the counts to add up |
| FROM rewriting | `FromRewrite` | comma lists become a right-deep chain of joins that means the cross product |
| hash table | `LinkedList`, `HashSpec`, `HashTable`, `StringKeys` | any run of calls answers as a finite map; removing while iterating meets every entry once; the exact condition for keys with bytes after their terminator to hash alike |
| DELETE conditions | `DeleteCond`, `DeleteMeaning`, `DeleteExec` | an accepted condition goes wrong on a row exactly when it compares a column with itself; the type check crashes exactly when it reaches a list without a field; literals on the left and NOT IN mean what they say under exact conditions; the scan deletes exactly the satisfying rows |

`Wrappers` and `Ints` hold what the modules share: a value that may be missing, the 32-bit integers and the 64-bit word. `Folding` holds the one
device the proofs share: a fact behind `Look` or `Enter` stays out of sight until it is needed.

Conventions. Allocation succeeds. A page is a sequence of slots except in `PageBytes`, where it is 4096 bytes. `heap` in
`TableStore.Table` maps the addresses of outstanding string buffers to their contents; `Free` demands that what it is given is
outstanding, so that a verified method frees nothing twice. Hash functions, date parsing and the keys of the B-tree
(compared as unsigned integers by the source, as integers here) are parameters. Names are compared as whole strings.

## Model

| member | source | states |
|---|---|---|
| BTree.BTreeHead.constructor | src/datastructure/btree.c:27-42 | a new tree is valid, empty and has no key left behind |
| BTree.BTreeHead.Insert | src/datastructure/btree.c:291-320 | the tree stays valid and its value, all key slots included, is the specification's insertion |
| BTree.BTreeHead.InsertSplittingRoot | src/datastructure/btree.c:308-312 | insertion on a full root: a root one level higher, still valid |
| BTree.BTreeHead.Remove | src/datastructure/btree.c:601-629 | the tree stays valid and its value, all key slots included, is the specification's removal |
| BTree.BTreeHead.Shrink | src/datastructure/btree.c:613-626 | a root without keys gives way to its only child, or to nothing when it is a leaf |
| BTree.BTreeHead.Lookup | src/datastructure/btree.c:85-97 | on any tree: what the specification finds, unless the search meets a key left behind in a slot out of use first, and then what that slot holds |
| BTree.BTreeHead.Update | src/datastructure/btree.c:99-120 | on any tree: what the search stops at takes the new value, in use or not, and nothing else changes in any slot; true exactly when it stops at something |
| BTree.NodeSearch | src/datastructure/btree.c:70-83 | descending from a node finds what the specification finds, or the key left behind that the probe of slot key_count meets first |
| BTree.NodeUpdate | src/datastructure/btree.c:99-120 | the entry that the search stops at, in use or not, takes the value |
| BTree.FindKey | src/datastructure/btree.c:549-555 | the first key that is not below the one sought |
| BTree.NodeInsert | src/datastructure/btree.c:250-289 | insertion below a node: the node stays well formed, owns only its old and new nodes, and has the value the specification gives, slot by slot |
| BTree.InsertLeaf | src/datastructure/btree.c:256-266 | the shift loop puts the entry after every key not above it, over the first slot out of use |
| BTree.InsertSplitting | src/datastructure/btree.c:273-286 | a full child is split first and the entry goes to the half on its side |
| BTree.NodeSplitChild | src/datastructure/btree.c:183-228 | the child becomes two halves around its middle key, in place |
| BTree.Halve | src/datastructure/btree.c:188-222 | the slots move between the full node and the new one, vacated slots zeroed and the last one as it was |
| BTree.NodeSplitRoot | src/datastructure/btree.c:230-248 | the new root has one key and two children and is balanced one level higher |
| BTree.RemoveFromLeaf | src/datastructure/btree.c:322-333 | the key goes; the slot behind the keys then holds it exactly when it was the last one, and is null otherwise; all slots behind as they were |
| BTree.Predecessor | src/datastructure/btree.c:335-344 | the rightmost entry of a subtree |
| BTree.Successor | src/datastructure/btree.c:346-356 | the leftmost entry of a subtree |
| BTree.NodeCopy | src/datastructure/btree.c:149-181 | a deep copy shares no object with the original and has the same value, slots out of use included |
| BTree.NodeMerge | src/datastructure/btree.c:358-407 | two neighbours and the key between them become one node, in place; that key stays in its slot as well when it was the last, otherwise the vacated slot is null |
| BTree.NodeBorrowPrev | src/datastructure/btree.c:451-487 | one entry rotates through the parent from the left neighbour, which keeps it in its slot; the other slots of all three nodes are as they were or moved |
| BTree.NodeBorrowNext | src/datastructure/btree.c:489-524 | one entry rotates through the parent from the right neighbour, whose vacated slot is null; the other slots of all three nodes are as they were or moved |
| BTree.NodeFill | src/datastructure/btree.c:527-547 | the same choice among borrowing left, borrowing right and merging |
| BTree.NodeRemoveInner | src/datastructure/btree.c:410-449 | a key of an inner node is replaced by its predecessor or successor, or its neighbours are merged |
| BTree.NodeRemove | src/datastructure/btree.c:557-599 | removal below a node: well formed, with the value the specification gives, slot by slot |
| BTree.BTreeHead.LookupAfterRemove | src/datastructure/btree.c:601-629 | a key just removed from a leaf root is still found exactly when it was the last of two or more |
| BTree.BTreeHead.UpdateAfterMerge | src/datastructure/btree.c:358-407 | after a removal that merged the last two children of the root, its last key is found in the slot it has left, and an update of it answers true and leaves the entries as they were |
| BTreeSpec.InsertNonFullFlat | src/datastructure/btree.c:250-289 | insertion puts the entry at one position of the in-order sequence and keeps it sorted |
| BTreeSpec.SplitFlat | src/datastructure/btree.c:183-228 | splitting a child leaves the in-order sequence alone |
| BTreeSpec.SplitBalanced | src/datastructure/btree.c:183-228 | splitting a child keeps node sizes and leaf depth |
| BTreeSpec.InsertCorrect | src/datastructure/btree.c:291-320 | the result is a valid root, one level higher exactly when the old root was full, with exactly one entry more |
| BTreeSpec.InsertTreeCorrect | src/datastructure/btree.c:291-320 | the same for whole trees, the empty one included |
| BTreeSpec.BorrowPrevFlat | src/datastructure/btree.c:451-487 | borrowing from the left leaves the in-order sequence alone |
| BTreeSpec.BorrowNextFlat | src/datastructure/btree.c:489-524 | borrowing from the right leaves the in-order sequence alone |
| BTreeSpec.MergeFlat | src/datastructure/btree.c:358-407 | merging leaves the in-order sequence alone |
| BTreeSpec.MergeBalanced | src/datastructure/btree.c:358-407 | merging two minimal children keeps the shape |
| BTreeSpec.FillFlat | src/datastructure/btree.c:527-547 | filling leaves the in-order sequence alone |
| BTreeSpec.FillRoom | src/datastructure/btree.c:527-547 | after filling, the child that removal goes on with has a key to spare and the parent lost at most one |
| BTreeSpec.FillBrackets | src/datastructure/btree.c:579-595 | after filling, that child is still the only one that may hold the key |
| BTreeSpec.Remove | src/datastructure/btree.c:557-599 | every case of removal ends on a smaller height and keeps node sizes and leaf depth |
| BTreeSpec.RemoveFlat | src/datastructure/btree.c:557-599 | the in-order sequence loses exactly one entry of the key, or nothing when it is not there |
| BTreeSpec.RemoveTreeCorrect | src/datastructure/btree.c:601-629 | the same for whole trees: still valid, root shrink included |
| BTreeSpec.RemoveAfterInsert | src/datastructure/btree.c:291-629 | removing a key that was just inserted gives the old entries back |
| BTreeSpec.SearchFlat | src/datastructure/btree.c:70-83 | search finds an entry of the key exactly when the in-order sequence has one |
| BTreeSpec.UpdateFlat | src/datastructure/btree.c:99-120 | update replaces the value of one entry of the key and nothing else |
| BTreeSpec.LookupAgrees | src/datastructure/btree.c:85-97 | where the search meets no key left behind, lookup in a tree that represents a map is lookup in the map |
| BTreeSpec.InsertAgrees | src/datastructure/btree.c:291-320 | inserting a new key adds it to the represented map |
| BTreeSpec.RemoveAgrees | src/datastructure/btree.c:601-629 | removal takes the key out of the represented map |
| BTreeSpec.UpdateAgrees | src/datastructure/btree.c:99-120 | where the search meets no key left behind, update changes the represented map at the key |
| BTreeSlots.WriteTreeMeans | src/datastructure/btree.c:99-120 | an update is one of the entries in use if its search meets no key left behind; otherwise it leaves all of them as they were |
| BTreeSlots.InsertTreeClean | src/datastructure/btree.c:291-320 | insertion into a tree in which nothing was left behind leaves nothing behind |
| BTreeSlots.RemovedKeyPlace | src/datastructure/btree.c:322-333 | the key removed from a leaf is gone from the slots in use |
| BTreeSlots.LastStays | src/datastructure/btree.c:358-407 | where a removal merges the last two children of a node, a search for its last key stops at the slot that the key has left |
| BTreeLeft.RemoveTreeTidy | src/datastructure/btree.c:322-629 | one removal from a clean tree of different keys leaves, in every node, at most the slot right behind the keys filled, and never with a key that the node still has |
| BTreeLeft.RemovedLingers | src/datastructure/btree.c:557-629 | a key just removed from such a tree is still found if and only if it was the last of its leaf, or of an inner node whose last two children are merged around it, on the way that the removal takes |
| BTreeLeft.RemovedOthers | src/datastructure/btree.c:557-629 | what a search for another key meets is an entry that was in use |
| BTreeRuns.Perform | src/datastructure/btree.c:70-629 | one call, on any tree that represents a map: it does and answers what the map does if and only if its search meets no key left behind, or one that says what the map says, or the map already has the new value |
| BTreeRuns.Run | src/datastructure/btree.c:70-629 | any run of calls with new keys answers as the map does while no search meets a key left behind, and none does if the run reads before it removes |
| BTreeRuns.RunAny | src/datastructure/btree.c:70-629 | any run of calls whatever, repeated keys and searches that meet leftovers included, does and answers slot by slot what the specification says |
| BTreeRuns.OnlyGiven | src/datastructure/btree.c:70-629 | whatever such a run leaves behind where, a lookup never answers anything but a value that was once given for its key |
| BTreeRuns.RemoveThenLookup | src/datastructure/btree.c:70-629 | after a removal from a clean tree a lookup is right for every other key, and for the removed one if and only if it does not linger |
| BTreeBorrow.RemovedKeyNotFound | src/datastructure/btree.c:489-524 | a run in which the right leaf lends: after five insertions, two removals and one more insertion the removed key is not found, for the lender's slot was cleared; one call earlier it still is |
| BTreeBorrow.LentKeyFound | src/datastructure/btree.c:451-487 | a run in which the left leaf lends: the lent key, removed from the parent two calls later, is still found in the lender's slot |
| BTreeRuns.UpdateMisses | src/datastructure/btree.c:70-120 | after a removal that merged the last two children of the root, an update of the root's last key answers true and is lost |
| BTreeRuns.MissedInput | src/datastructure/btree.c:358-407 | a concrete tree with that: removing 5 merges around 4, which is still in the tree |
| BTreeRepeats.RemoveTreeExactly | src/datastructure/btree.c:601-629 | on trees whose entries differ, removal takes out one entry and keeps all others if and only if one condition on the tree holds; on all trees it does so if the condition holds |
| BTreeRepeats.RemoveExactly | src/datastructure/btree.c:557-599 | the same below any node |
| BTreeRepeats.LeafExactly | src/datastructure/btree.c:322-333 | at a leaf there is no condition |
| BTreeRepeats.BelowExactly | src/datastructure/btree.c:573-596 | going down to a child, filled or not, adds none: the whole loses one entry exactly when that child does |
| BTreeRepeats.MergeExactly | src/datastructure/btree.c:441-446 | nor does merging the children around the key |
| BTreeRepeats.PredecessorExactly | src/datastructure/btree.c:420-424 | where the predecessor comes up: exactly when its key is there once in the child it comes from |
| BTreeRepeats.SuccessorExactly | src/datastructure/btree.c:431-435 | where the successor comes up: exactly when removing its key from its child takes out the first entry of the child |
| BTreeRepeats.LastTaken | src/datastructure/btree.c:557-599 | removing the key of the last entry takes out the last entry exactly when the key is there once |
| BTreeRepeats.FirstTaken | src/datastructure/btree.c:557-599 | removing the key of the first entry takes out the first entry exactly when no node on the way to it holds the key, unless its first two children are merged |
| BTreeRepeats.DistinctTaken | src/datastructure/btree.c:601-629 | without repeated keys the condition holds of every key |
| BTreeRepeats.RepeatedKeysLoseAnEntry | src/datastructure/btree.c:410-449 | a concrete tree with repeated keys on which removal loses another entry than the replaced one, and of which the condition fails |
| RowStore.PageTest | src/primitive/row.c:38-50 | the page test in bytes says that the page has reached its capacity of (4096-1)/len rows |
| RowStore.CapacitySlots | src/primitive/row.c:38-50 | a page has at most one slot that insertion never fills |
| RowStore.MovedLive | src/primitive/vacuum.c:71-81 | moving a live row down past dead ones keeps the live rows in order |
| TableStore.Table.constructor | src/primitive/table.c:51-84 | a new table is valid and holds nothing |
| TableStore.Table.DatablockInit | src/primitive/table.c:126-134 | every slot from an offset on becomes blank, the ones before stay |
| TableStore.Table.FreeRowContent | src/primitive/row.c:170-188 | exactly the buffers the row points to are freed, each once |
| TableStore.Table.MakeCells | src/primitive/row.c:66-93 | every string gets a buffer of its own and every value is stored as given; a NULL string as an empty one |
| TableStore.Table.InsertRow | src/primitive/row.c:26-97 | a row of the right length is added at the end of the scan, in a slot that was blank; any other length is refused without change |
| TableStore.Table.DeleteRow | src/primitive/row.c:126-139 | exactly the row at that offset leaves the scan; its buffers stay |
| TableStore.Table.UpdateRow | src/primitive/row.c:141-168 | exactly that row is replaced; strings are copied into the buffers it has |
| TableStore.Table.PlaceRow | src/primitive/vacuum.c:55-82 | one live row met by the compaction: it waits for the next page, stays, or moves down |
| TableStore.Table.VacuumPage | src/primitive/vacuum.c:51-85 | the inner loop, lagging source offset included, keeps live rows and their order |
| TableStore.Table.FillPages | src/primitive/vacuum.c:34-103 | the outer loops end with full pages before the last destination and nothing live after it |
| TableStore.Table.ClearTail | src/primitive/vacuum.c:108-112 | what follows the last row is freed and blanked |
| TableStore.Table.DropPages | src/primitive/vacuum.c:114-132 | the pages behind it are freed with what their rows own |
| TableStore.Table.Vacuum | src/primitive/vacuum.c:12-135 | same live rows in the same order saying the same, no deleted row left, every page but the last full, as few pages as the rows need |
| VacuumSpec.FullMeansAhead | src/primitive/vacuum.c:59-63 | within one page the destination never fills up before the source is done |
| VacuumSpec.MoveDown | src/primitive/vacuum.c:71-81 | a move keeps what the two cursors keep |
| VacuumSpec.PageFull | src/primitive/vacuum.c:59-103 | when a page is full another row is waiting for the next one |
| VacuumSpec.CompactShaped | src/primitive/vacuum.c:105-132 | compact pages are filled front to back, hold nothing deleted, and the row count is exact |
| VacuumSpec.CompactLeast | src/primitive/vacuum.c:105-132 | no smaller number of pages would hold the rows |
| TableStore.Table.RelayPage | src/primitive/column.c:61-82 | the rows of one old page, deleted ones too, are copied widened behind the ones before |
| TableStore.Table.DatablockAddColumn | src/primitive/column.c:35-107 | all rows are re-laid in order, owning the same buffers |
| TableStore.Table.AddColumn | src/primitive/column.c:109-144 | refused for a bad precision, too many columns or a known name; otherwise every row gains what zero bytes mean in the new column: 0, false or a null pointer; its NULL bits stay as they are |
| ColumnSpec.ZerosMean | src/primitive/column.c:75-81 | the cell and the value of a new column are what the zero bytes of the slot mean for its type |
| TableStore.Table.RemCell | src/primitive/column.c:183-193 | the column's buffer is freed and the row closes up |
| TableStore.Table.DatablockRemColumn | src/primitive/column.c:146-211 | page by page the rows lose the column and keep their order |
| TableStore.Table.RemColumn | src/primitive/column.c:213-243 | the first column of that name goes from the table and its value from every row, and the values behind it move up; the NULL bits stay where they are, and so do the pages; an unknown name changes nothing |
| ColumnSpec.NarrowWide | src/primitive/column.c:35-243 | adding a column and removing it gives the rows back |
| NullBits.RemovedExactly | src/primitive/column.c:146-243 | the columns left in a row read the values and NULLs they read before if and only if its NULL bits from the removed column on are all alike |
| NullBits.RemovedInput | src/primitive/column.c:183-197 | (NULL, v) without its first column reads NULL, and (v, NULL) without it reads the value under the NULL |
| NullBits.AddedExactly | src/primitive/column.c:75-144 | a new column reads NULL in a row that was there before if and only if its bit happens to be set |
| NullBits.AllRemovedExactly | src/primitive/column.c:213-243 | the first of these for all rows of a table |
| NullBits.AllAddedExactly | src/primitive/column.c:109-144 | the last for all rows of a table |
| NullBits.PickedExactly | src/engine/executor_select.c:1369-1434 | a row from which any columns have been removed reads in the others what it read before if and only if each has come to a place with the NULL bit of the one it came from |
| NullBits.FirstColumnsRight | src/engine/executor_select.c:1369-1434 | so a SELECT list of the first columns always reads rightly |
| TableStore.Table.Scan | src/engine/executor_select.c:1290-1330 | a scan that stops at the first empty slot of each page visits exactly the live rows, in order |
| TableStore.Table.Destroy | src/primitive/table.c:86-124 | no buffer is left over |
| TableStore.AppendSound | src/primitive/row.c:57-97 | the invariant over insertion: capacity, offsets, ownership |
| TableStore.ReplaceSound | src/primitive/row.c:141-168 | the invariant over update: with one owner per buffer no other row changes |
| TableStore.MovedOwned | src/primitive/vacuum.c:71-81 | after a move every live row still owns its buffers |
| TableStore.RemovingStep | src/primitive/column.c:146-211 | one page more has lost the column; nothing else changed |
| TableRuns.StepExactly | src/primitive/row.c:26-168 | what an operation makes of columns and rows reads as it is meant to, NULLs included, if and only if the NULL bits are right: set for an added column, all alike from a removed one on |
| TableRuns.RunExactly | src/primitive/row.c:26-168 | a run reads as meant after every step if and only if they are right at every step |
| TableRuns.Perform | src/primitive/row.c:26-168 | every operation keeps the table valid and does to columns and rows what the source says; they then read what is meant if and only if the NULL bits are right |
| TableRuns.PerformAll | src/primitive/row.c:26-168 | so does any run of operations, and the end reads what is meant if the NULL bits are right at every step |
| TableRuns.Lifetime | src/primitive/table.c:51-124 | from creation over any run to destruction no buffer is left over |
| TableRuns.RunsStayRectangular | src/primitive/column.c:109-243 | through any run every row has a value for every column |
| TableRuns.AddThenRemove | src/primitive/column.c:109-243 | after any run from creation, adding a column and removing the column of that name changes nothing if and only if the table had no such column |
| PageBytes.RemoveFromRow | src/primitive/column.c:183-197 | both moves of one row: nothing before its new place and nothing after it changes |
| PageBytes.PackStep | src/primitive/column.c:175-198 | the packed front grows by one row while the rest is still as it was |
| PageBytes.PackedChunk | src/primitive/column.c:175-198 | row i of the packed bytes is row i without the column |
| PageBytes.PackRows | src/primitive/column.c:175-198 | every row is read before anything is written over it, and the freed pointers are the ones the rows held |
| PageBytes.MarkEmpty | src/primitive/column.c:200-206 | all slots after the last row are flagged empty and zero |
| PageBytes.RemoveColumn | src/primitive/column.c:146-211 | on a page of bytes: same rows, same flags, every byte outside the column |
| PageBytes.WidenSlot | src/primitive/column.c:75-81 | a widened row is the old bytes and zeros |
| PageBytes.CutWidened | src/primitive/column.c:75-197 | removing the bytes that were added gives the row back |
| Bits.SetBit | src/lib/bit.c:11-17 | setting a bit leaves the other seven |
| Bits.ClearedBit | src/lib/bit.c:19-25 | clearing a bit leaves the other seven |
| Bits.ToggledBit | src/lib/bit.c:27-33 | toggling a bit leaves the other seven |
| Bits.BitTest | src/lib/bit.c:3-9 | the bit of the bitmap |
| Bits.BitSet | src/lib/bit.c:11-17 | that bit and no other of the buffer changes |
| Bits.BitClear | src/lib/bit.c:19-25 | that bit and no other of the buffer changes |
| Bits.BitToggle | src/lib/bit.c:27-33 | that bit and no other of the buffer changes |
| RowCodec.ColumnsApart | src/engine/executor_insert.c:92-98 | no column's bytes overlap another's |
| RowCodec.WriteValue | src/engine/executor_insert.c:90-134 | one value reaches its column and its NULL bit, the other columns stay |
| RowCodec.BuildRow | src/engine/executor_insert.c:60-143 | every column holds what the list gives it, NULL when it gives nothing |
| RowCodec.BuildColumnOrder | src/engine/executor_insert.c:146-192 | each listed name gets its column, no list means all columns in order |
| RowCodec.ReadField | src/engine/executor_delete.c:202-244 | the walk of the evaluator reads the NULL bit and the bytes of that very column |
| RowCodec.ReadsBack | src/engine/executor_insert.c:102-127 | the bytes written for a value mean that value |
| RowCodec.RowRoundTrip | src/engine/executor_insert.c:60-192 | a row written from a list in any order reads back column by column, NULL exactly when omitted or given NULL |
| RowCodec.InsertValues | src/engine/executor_insert.c:194-249 | one VALUES list adds one row that says what the list says |
| InsertSpec.BuildFlatten | src/parser/ast_insert.c:195-462 | building the tokens of a tree puts that tree on the stack |
| InsertSpec.FlattenBuild | src/parser/ast_insert.c:195-462 | what the builder has on its stack flattens to the tokens it has read |
| InsertSpec.OneTree | src/parser/ast_insert.c:387-462 | a queue whose counts come out at one node is the flattening of exactly one tree |
| InsertSpec.RootExactly | src/parser/ast_insert.c:387-462 | the builder delivers a tree exactly when the counts before STMT come out at one node |
| InsertSpec.Truncates | src/engine/optimiser_insert.c:60-95 | division and remainder truncate toward zero, as section 6.5.5 of ISO/IEC 9899:2011 has it |
| InsertSpec.CalcExactly | src/engine/optimiser_insert.c:60-95 | one operator on integers and NULLs gives the sum, difference, product, quotient or remainder, or the NULL or abort it should, if and only if the result fits 32 bits |
| InsertSpec.CalcLaws | src/engine/optimiser_insert.c:60-95 | through every overflow + is commutative and counts up from 0, - undoes it, and * repeats it |
| InsertSpec.FoldIsEval | src/engine/optimiser_insert.c:97-160 | folding a tree gives what working its tokens gives, traps included |
| InsertSpec.BuildThenFold | src/engine/optimiser_insert.c:97-160 | building a queue and folding the tree is working the queue |
| InsertSpec.WrapsAway | src/engine/optimiser_insert.c:60-95 | while results fit 32 bits, storing them in an int changes nothing |
| InsertSpec.FoldIsExact | src/engine/optimiser_insert.c:60-160 | while no intermediate result leaves 32 bits the folded value is what the tokens give on unbounded integers, with the integers' own operators; with division this is enough but not necessary, see the next row |
| InsertSpec.FoldExactly | src/engine/optimiser_insert.c:60-160 | where both sides of every / and % are in range, the folded value is the one worked out with the integers' own operators, NULLs and traps included, if and only if that is in range, whatever overflowed on the way; in range is what fits 32 bits, negated as often as the tree says |
| InsertSpec.WideDividend | src/engine/optimiser_insert.c:60-160 | a dividend that does not fit makes it wrong although the value fits: (4 * 2^30) / 4 folds to 0 |
| InsertSpec.RingDivides | src/engine/optimiser_insert.c:60-160 | without division there is no such condition, and what a tree is worth is its value |
| InsertSpec.NoOverflow64 | src/engine/optimiser_insert.c:60-95 | no 64-bit operation of the folder overflows |
| InsertSpec.OperandRange | src/engine/optimiser_insert.c:10-95 | operands of the folder stay within 32 bits and one |
| InsertSpec.RingFold | src/engine/optimiser_insert.c:60-160 | without division the folded value is right modulo 2^32 whatever overflowed on the way |
| InsertSpec.RingExactly | src/engine/optimiser_insert.c:60-160 | so it is the mathematical value if and only if that value fits 32 bits |
| InsertTree.PopList | src/parser/ast_insert.c:284-333 | popping and adding at the front keeps source order |
| InsertTree.BuildNode | src/parser/ast_insert.c:21-385 | one token: the node on the stack stands for the specification's tree and shares nothing with the rest |
| InsertTree.BuildTree | src/parser/ast_insert.c:387-462 | the linked tree stands for the specification's result, and the final check aborts exactly when that is not a single tree |
| InsertTree.NegateInto | src/engine/optimiser_insert.c:10-20 | the negated operand overwrites the mark |
| InsertTree.CalcInto | src/engine/optimiser_insert.c:60-95 | left operand, operator, right operand, though the children are stored the other way round |
| InsertTree.Resolve | src/engine/optimiser_insert.c:97-160 | the expression becomes a leaf with the folded value, or aborts exactly when folding does |
| InsertTree.OptimiseValues | src/engine/optimiser_insert.c:162-200 | every value of a VALUES list is folded in place |
| InsertTree.OptimiseStmt | src/engine/optimiser_insert.c:162-212 | so are all lists of a statement, the column list left alone |
| Condition.EvalRowCond | src/engine/executor_select.c:1027-1074 | the loops over the children compute the specification's verdict |
| Condition.OrderLaws | src/engine/executor_select.c:440-528 | the six operators belong to one order: < is irreflexive, transitive, total and steps from each integer to the next, and the others are its converse, their opposites, equality and its opposite |
| Condition.OnlyOrder | src/engine/executor_select.c:440-528 | a relation with these laws is the order of the integers and no other |
| Condition.HoldsInOrder | src/engine/executor_select.c:440-528 | a column against a column or an integer holds in the integers' own order, and never with a NULL; on 32-bit integers the evaluator says so |
| Condition.EvalMeans | src/engine/executor_select.c:865-1074 | while the integers compared fit 32 bits and no NULL literal is taken for 0, the evaluator says what comparisons, IS NULL, AND, OR and XOR mean |
| Condition.NarrowExactly | src/engine/executor_select.c:462-482 | an integer compares rightly with all 32-bit integers if and only if it fits 32 bits |
| Condition.LiteralExactly | src/engine/executor_select.c:767-814 | so a column against a literal is judged rightly on all rows of 32-bit integers if and only if the literal fits 32 bits |
| Condition.NullLiteralExactly | src/engine/executor_select.c:652-668 | a literal against a NULL literal is judged rightly if and only if the operator does not hold between it and 0 |
| Condition.NullLiteralTrue | src/engine/executor_select.c:652-668 | 1 <> NULL and 0 = NULL are true of every row |
| Condition.CmpExactly | src/engine/executor_select.c:865-1025 | any comparison is judged rightly for every operator if and only if it is not an integer literal against a NULL literal and narrowing keeps the order of the two integers |
| Condition.WideValuesDiffer | src/engine/executor_select.c:462-482 | beyond 32 bits it need not: 2^32 and 0 compare equal |
| JoinOrder.OuterExactly | src/engine/executor_select.c:1076-1149 | nested loops keep exactly the pairs to be kept, each once, in lexicographic order |
| SelectSpec.QualifiedApart | src/engine/executor_select.c:356-360 | table names without dots make qualified column names unambiguous |
| SelectSpec.CopyArrives | src/engine/executor_select.c:340-400 | each source column reaches its qualified column with its value and NULL bit |
| SelectSpec.MergeCarries | src/engine/executor_select.c:402-431 | a merged row carries both rows, and 1 in every count column |
| SelectSpec.MergedStored | src/engine/executor_select.c:402-431 | inserting a merged row stores it as it is |
| SelectSpec.JoinExactly | src/engine/executor_select.c:1076-1149 | the joined rows are the merges of exactly the pairs that satisfy ON, each once, in order |
| SelectSpec.MatchedMeans | src/engine/executor_select.c:1076-1149 | within those bounds a pair satisfies ON exactly when the merged row satisfies what ON means |
| Select.CpyCols | src/engine/executor_select.c:340-400 | the loop over the source columns with its search for the target |
| Select.MergeRows | src/engine/executor_select.c:402-431 | the NULL bits set first, then both copies, then the counts |
| Select.JoinTables | src/engine/executor_select.c:1076-1149 | the four loops over pages and slots append exactly the joined rows |
| Select.WhereClause | src/engine/executor_select.c:1435-1463 | exactly the rows that satisfy the condition stay, in order; within those bounds, the rows of which it holds |
| Select.SelectClause | src/engine/executor_select.c:1369-1434 | the columns that the list does not name go, the last one first, and the others keep their order; every row reads in them what it read before if and only if each comes to a place with its own NULL bit |
| Select.SelectJoin | src/engine/executor_select.c:1655-1744 | join, filter, SELECT list and compaction in a row leave exactly the listed columns of the satisfying joined rows, within those bounds of the ones of which WHERE holds, and nothing deleted |
| Sieve.Settle | src/engine/executor_select.c:1435-1463 | marking one row by its offset changes the scan at one position |
| GroupSpec.GroupsAddUp | src/engine/executor_select.c:1526-1588 | if every group ends as one row that counts it, every row is counted in exactly one group |
| GroupSpec.ZeroIsEqual | src/engine/executor_select.c:1465-1499 | the comparison is zero exactly on equal keys, NULLs being equal |
| GroupSpec.KeysAreValues | src/engine/executor_select.c:1465-1499 | on 32-bit values equal keys are equal values |
| GroupSpec.WideKeysMeet | src/engine/executor_select.c:1465-1499 | beyond them rows that differ by 2^32 fall into one group |
| GroupBy.GroupPages | src/engine/executor_select.c:1542-1582 | the four nested loops over pages and slots bring every row to its final stage |
| GroupSpec.Survivors | src/engine/executor_select.c:1501-1588 | what survives of a key are its rows in the lowest slot, whatever the page, each counting itself and what it took in |
| GroupSpec.CountsExactly | src/engine/executor_select.c:1554-1580 | a surviving row counts its whole group, and is all that is left of it, if and only if every other row of the key stands in a greater slot and no row before it has taken one of them in |
| GroupSpec.KeptExactly | src/engine/executor_select.c:1554-1580 | the counts of what survives sum up to the number of rows if and only if no row that has taken another in is taken in itself |
| GroupSpec.SameSlotStays | src/engine/executor_select.c:1554-1580 | rows of one key in the same slot of different pages survive together |
| GroupSpec.CountLost | src/engine/executor_select.c:1554-1580 | three rows of one key of which the last stands lowest: one survives and counts two |
| GroupBy.OnePageRight | src/engine/executor_select.c:1554-1580 | in a table of one page every group ends as one row that counts it, and no count is lost |
| GroupBy.CountsAddUp | src/engine/executor_select.c:1501-1588 | the counts add up to the number of rows a reader saw if and only if no row that has taken another in is taken in itself |
| GroupBy.GroupByClause | src/engine/executor_select.c:1526-1588 | over any number of pages the grouping leaves a valid table at that final stage |
| FromRewrite.WrapOnJoin | src/engine/optimiser_select.c:314-464 | a join with ON 1 = 1 takes the place of the left entry and both become its children |
| FromRewrite.AlwaysHolds | src/engine/optimiser_select.c:314-393 | the synthetic ON condition holds of every row |
| FromRewrite.DoReplaceEntries | src/engine/optimiser_select.c:466-503 | the safe loop builds the chain while it takes entries out of the list |
| FromRewrite.ReplaceEntriesFrom | src/engine/optimiser_select.c:505-527 | n entries end as one chain of n-1 joins over the same entries in order; one entry is left alone |
| FromRewrite.ChainShape | src/engine/optimiser_select.c:466-503 | the nodes make up the right-deep tree |
| FromRewrite.ProductAssoc | src/engine/optimiser_select.c:466-503 | the product of row lists is associative |
| FromRewrite.ProductAt | src/engine/optimiser_select.c:466-503 | and every tuple of the first list is followed by every one of the second, the second running faster |
| FromRewrite.RewriteMeans | src/engine/optimiser_select.c:466-503 | the right-deep chain means the cross product of the entries |
| LinkedList.ListHeadInit | src/datastructure/linkedlist.c:3-7 | an empty ring |
| LinkedList.ListAdd | src/datastructure/linkedlist.c:9-15 | the ring with the node at that place, every other link in order |
| LinkedList.ListDel | src/datastructure/linkedlist.c:17-23 | the ring without the node, whose links are cleared |
| LinkedList.ListLength | src/datastructure/linkedlist.c:25-34 | the number of nodes |
| LinkedList.ListIsEmpty | include/datastructure/linkedlist.h:44-52 | true exactly of the empty ring |
| LinkedList.Drain | src/datastructure/linkedlist.c:17-23 | safe iteration around deletion meets every node once, in order, and empties the ring |
| HashTables.HashTable.constructor | src/datastructure/hashtable.c:39-63 | an empty map |
| HashTables.HashTable.Get | src/datastructure/hashtable.c:190-212 | lookup in the map |
| HashTables.HashTable.Put | src/datastructure/hashtable.c:131-188 | a new key is added, a known one refused; capacity 16 * 2^k and 2 * count < capacity hold again |
| HashTables.HashTable.Remove | src/datastructure/hashtable.c:214-240 | the key's entry is taken out of the map and handed over |
| HashTables.HashTable.MoveBucket | src/datastructure/hashtable.c:112-122 | relinking the entries of one bucket loses none |
| HashTables.HashTable.Resize | src/datastructure/hashtable.c:84-129 | rehashing keeps the map and every entry in its bucket |
| HashTables.HashTable.ForEachRemoving | src/datastructure/hashtable.c:242-259 | a callback that removes its entry is called once per entry and leaves nothing |
| HashTables.HashTable.Free | src/datastructure/hashtable.c:65-82 | with no entry counted the assertions that the rings are empty hold |
| HashTables.HashTable.RunCalls | src/datastructure/hashtable.c:131-240 | any run of put, get and remove answers as a finite map |
| HashSpec.PutShape | src/datastructure/hashtable.c:131-188 | adding keeps every entry in bucket hash % capacity and keys apart |
| HashSpec.RemoveLooks | src/datastructure/hashtable.c:214-240 | removing a key hides that key and no other |
| HashSpec.MoveStep | src/datastructure/hashtable.c:112-122 | moving one entry to the new buckets keeps what both together answer |
| StringKeys.ComputeStrHash | src/datastructure/hashtable.c:269-281 | the loop with shifts and wrap-around computes the 64-bit hash |
| StringKeys.StringsLawful | src/datastructure/hashtable.c:261-281 | on keys that end with their terminator the hash respects the comparison |
| StringKeys.TrailingBytesBreak | src/datastructure/hashtable.c:261-281 | bytes after the terminator can break it, with the hashes of two such keys |
| StringKeys.TrailingExactly | src/datastructure/hashtable.c:261-281 | the exact condition: keys that compare equal, one string with any bytes after it, hash alike if and only if those bytes, weighed with powers of 33 after the hash of the string, agree modulo 2^64 |
| StringKeys.TrailingByte | src/datastructure/hashtable.c:261-281 | with one byte after each, exactly when it is the same byte |
| StringKeys.NewStringTable | src/parser/semantic_delete.c:444-477 | an empty table with these functions; they are lawful |
| DeleteCond.AcceptedIsSound | src/parser/semantic_delete.c:57-442 | an accepted condition reaches an abort, a bad index or the wrong union member exactly when it compares a column with itself, and then it is the index |
| DeleteCond.FieldsSound | src/engine/executor_delete.c:125-200 | two different columns of comparable types are compared safely; the same column twice never is |
| DeleteCond.ValueSound | src/engine/executor_delete.c:202-244 | a column and a literal the checker lets through are compared by the member the tag names |
| DeleteExec.CrashesExactly | src/parser/semantic_delete.c:374-442 | the type check of a whole condition crashes if and only if it reaches a list without a field before anything it turns down, and accepts if and only if every part is fine |
| DeleteExec.VerdictFits | src/parser/semantic_delete.c:374-442 | with a field in every IN the type check never crashes and says what the rules say |
| DeleteExec.BareListCrashes | src/parser/semantic_delete.c:374-420 | the list alone: any list of values without a field crashes the check |
| DeleteExec.CheckNode | src/parser/semantic_delete.c:422-442 | the recursive check with its hash table lookups computes that verdict |
| DeleteExec.CheckValueTypes | src/parser/semantic_delete.c:444-477 | so does the check that fills the table, asks it, empties it entry by entry and frees it |
| DeleteExec.FindFields | src/engine/executor_delete.c:130-149 | the indices found are those of columns of these names, and -1 where there is none or the second name is the first again |
| DeleteExec.EvalDeleteRow | src/engine/executor_delete.c:361-410 | the recursion over the condition computes the specification's verdict, faults included |
| DeleteExec.InsertedMatches | src/engine/executor_delete.c:202-244 | what INSERT stores for a literal is what DELETE reads back as equal to that literal |
| DeleteMeaning.EvalMeans | src/engine/executor_delete.c:246-410 | an accepted condition says of a row what it means, where no order is turned round, NOT IN lists one value and integers fit 32 bits |
| DeleteMeaning.StandsEqual | src/engine/executor_delete.c:35-123 | of values of one type, = is equality and <> is not |
| DeleteMeaning.StandsInOrder | src/engine/executor_delete.c:35-123 | integers, times and doubles stand in the order of the integers and the reals, strings and booleans in none |
| DeleteMeaning.EqualMeans | src/engine/executor_delete.c:202-244 | a column = or <> a literal: meant, and said, of a row exactly when the column is not NULL and its value is, or is not, the literal |
| DeleteMeaning.ValueExactly | src/parser/semantic_delete.c:222-271 | a column and a literal pass the checks exactly when no row makes their comparison go wrong and strings are not put in an order; NULL only for = and <> |
| DeleteMeaning.FieldsExactly | src/parser/semantic_delete.c:194-220 | two columns pass exactly when they have one type and strings are not put in an order |
| DeleteMeaning.TurnedRound | src/engine/executor_delete.c:289-291 | a literal on the left of a column is evaluated as the mirrored comparison |
| DeleteMeaning.TurnedExactly | src/engine/executor_delete.c:289-291 | which is right on all rows if and only if the operator is = or <>, or the literal NULL, or the column TINYINT |
| DeleteMeaning.NotInExactly | src/engine/executor_delete.c:324-359 | NOT IN is right on all rows if and only if it lists one value, be it NULL, in one or more copies |
| DeleteMeaning.WrongRows | src/engine/executor_delete.c:289-359 | with 1 in the column, 5 < f and f NOT IN (1, 2) are both true |
| DeleteExec.ScanDelete | src/engine/executor_delete.c:412-441 | exactly the rows that satisfy an accepted condition go, the others stay in order, and the count is right; within the bounds above, the rows of which the condition holds |

## Left out

- BTreeRuns.Run: agreement with a map is stated for runs up to the first search that meets a key left behind; what a run does and answers after that is given slot by slot by `BTreeRuns.RunAny`.
- B-tree keys and values are integers; btree_cmp_str, btree_destroy and btree_traverse are not part of this model.
- Null-pointer arguments: the types exclude them, and with them the early returns that test for them.
- Allocation failure and the paths that undo half of an operation.
- TableStore.Table.Vacuum: demands a table with at least one page, because the source dereferences the last page it has not found (src/primitive/vacuum.c:108-112).
- Select.SelectJoin: demands that some pair satisfies ON, because otherwise there is no page and the compaction at the end dereferences none, and that the list names a column that is not a count, because otherwise the source collapses the rows.
- TableStore.Table.AddColumn: demands that a row with the new column is shorter than a page; the source does not check it and would write past the page.
- TableStore.Table.UpdateRow: demands that the row's strings have buffers; ADD COLUMN leaves null pointers, which the source copies to.
- Pages are slots, not bytes, in `TableStore`; the bytes are treated in `PageBytes` and `RowCodec`, and the two views are joined row by row, not by one refinement theorem.
- Names longer than the name buffers, the validity rules of names, and locking.
- DOUBLE: arithmetic on doubles (calcd) in folding, DOUBLE columns in `DeleteExec.ScanDelete`, in grouping and in SELECT conditions.
- SELECT conditions other than on INTEGER columns, and IN in SELECT.
- Joins of three or more tables as executed: the loop over a materialised table deletes on the first mismatch (src/engine/executor_select.c:1203-1217).
- GroupBy.GroupByClause: one INTEGER column; with several the source collapses by each in turn (src/engine/executor_select.c:1537-1540), which is not grouping by all of them. The count-only collapse is left out as well.
- GroupSpec.IncCountCols: changes the count columns only; the source also copies each string onto itself through table_update_row.
- The list operations around a folded value: `InsertTree` keeps children in sequences; the ring itself is treated in `LinkedList`.
- The resolution of names, aliases and * before execution, and the result cursor.
- The checker and the evaluator of UPDATE, twins of those of DELETE.
- DeleteMeaning.EvalMeans: its bounds are exact part by part (`DeleteMeaning.TurnedExactly`, `DeleteMeaning.NotInExactly`, `Condition.NarrowExactly`); a gate may hide that a part is wrong, so for whole conditions they are enough but not necessary.
- HashTables.HashTable.ForEachRemoving: buckets are sequences, so the iteration runs over a copy of each; that the safe loop survives the removal of its own entry is proved of the ring itself in `LinkedList.Drain`, which the table does not use.
- Condition.EvalMeans: the same of SELECT conditions; `Condition.CmpExactly` is the exact condition for one comparison.
- StringKeys.StringsLawful: keys with bytes after their terminator are outside; `StringKeys.TrailingExactly` says when they would still be lawful.
- The parser, regular expressions, dates as text (a parameter), error messages, input and output.
