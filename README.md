# Bruinbase B+-tree index, modelled in Dafny

This project models the B+-tree index of Bruinbase, a small relational
store. It covers three groups of code:

- The two node kinds in `BTreeNode.cc`. Leaf nodes hold sorted
  (key, record id) entries and a next-leaf pointer. Non-leaf nodes hold
  separator keys and child page ids. Both live in one 1024-byte page.
- The index in `BTreeIndex.cc`, over a page file:
  - open and close, which keep the root page id and the tree height in
    page 0;
  - insert, which grows the tree by a new root when the root leaf splits;
  - locate;
  - readForward, which walks the leaf chain.
- The load-file line parser `SqlEngine::parseLoadLine`, which reads
  `key, value` lines.

There are five modules, one file each:

- `Bruinbase` (`bruinbase.dfy`): return codes, record ids and the page file.
  - A page is 256 four-byte words.
  - The page file is a sequence of pages, and its end page id is the
    length of that sequence.
  - `PageFile` is a class whose `Read` copies a page into a node's buffer
    and whose `Write` replaces or appends a page.
- `NodeLayout` (`node_layout.dfy`): the word layout of both node kinds, and
  the logical view of a page (`LeafEntries`, `NodeKeys`, `NodeChildren`).
  - Every node operation is a function from the old page to the new one
    (`LeafInsertPage`, `LeafSplitPages`, `NonLeafInsertPage`,
    `NonLeafSplitPages`, `InitRootPage`).
  - Lemmas say what each operation does to the entries, keys and children.
- `BTreeNode` (`btree_node.dfy`): the classes `BTLeafNode` and
  `BTNonLeafNode`.
  - Each holds its page as an `array<int>` buffer that the methods update
    in place.
  - The methods use the source's loops and block moves, and are proved to
    have exactly the effect of the `NodeLayout` functions.
- `BTreeIndex` (`btree_index.dfy`): the index state, and a specification
  function for each index operation.
  - The specification functions are `OpenSpec`, `CloseSpec`, `LocateSpec`,
    `ReadForwardSpec`, `InsertHelperSpec` and `InsertSpec`.
  - Lemmas about these functions cover open/close round trips, what locate
    finds, and insert-then-locate in a tree before and after a root split.
  - The class `BTreeIndex` implements the operations over a `PageFile` and
    node objects, and each of its methods is proved equal to its
    specification function.
- `LoadLine` (`load_line.dfy`): `parseLoadLine`.
  - The library calls it relies on are specified functions: `atoi`, which
    is `Atoi`; `strchr`, which is `FindChar`; `string::find`, which is
    `Find`; and `string::erase`, which is `TakeUntil`.
  - The parser is a method, proved equal to `ParseLoadLineSpec`.
  - Lemmas state the value rules and the return code, and prove that a
    formatted line parses back to its key and value.

Constants:

- `MAXIMUM_KEY_COUNT` is defined in a header that is not part of this
  model. It is 70 (`MAX_KEYS`), the capacity the leaf test in
  `bruinbase/unittest_2c.cc:40-68` relies on: 70 inserts fit in one leaf,
  and the 71st splits it.
- The count is word 255 and a leaf's next-leaf pointer is word 254.
- Leaf entry i is words 3i to 3i+2.
- In a non-leaf node, child i is word 2i and key i is word 2i+1.

`getRootPid` and `getTreeHeight` are the functions
`BTreeIndex.BTreeIndex.GetRootPid` and `GetTreeHeight`, which return the
fields. `getNextNodePtr` is `BTreeNode.BTLeafNode.GetNextNodePtr`, which
reads the second-to-last word of the page. Their effects are also stated
through the members that use them.

In the following places the code does something other than what its own
comments or function names promise. The model follows the code, and each
item names the member that proves the behaviour.

- `readEntry` (`bruinbase/BTreeNode.cc:211`) refuses only eid > count, so
  eid = count reads the slot just past the last entry. See
  `BTreeNode.BTLeafNode.ReadEntry`.
- Every leaf insert moves the whole tail of the page up by one entry
  (`bruinbase/BTreeNode.cc:85-98`). Old word 251 lands in word 254, the
  next-leaf pointer. See `NodeLayout.LeafInsertOutcome`.
- A leaf split gives the sibling the leaf's next-leaf word after that
  shift (`bruinbase/BTreeNode.cc:155`). That word is old word 251, not the
  leaf's next pointer. See `NodeLayout.LeafSplitOutcome` and
  `NodeLayout.LeafSplitMoved`.
- A key already present in a full leaf makes the split return -1. The
  leaf step still appends an empty sibling and reports it as retPid
  (`bruinbase/BTreeIndex.cc:277-285`), although the comment at
  `bruinbase/BTreeIndex.cc:259-260` says retPid changes only when the entry
  goes in and the leaf splits. In a one-leaf tree, insert then returns -1
  and grows the tree over that empty leaf, with an uninitialised separator
  (`bruinbase/BTreeIndex.cc:134-141`). See `BTreeIndex.InsertIntoFullLeaf`
  and `BTreeIndex.LeafLevelDuplicateGrows`, and the finding below.
- Above the leaf level, insertHelper returns 0 whatever the leaf step
  returned (`bruinbase/BTreeIndex.cc:293-313`). So in a tree of height 2
  or more a duplicate key gives 0, against the "error code" promise at
  `bruinbase/BTreeIndex.cc:125`. See `BTreeIndex.InsertTallTree` and
  `BTreeIndex.InsertIntoRoomyLeafAnyHeight`.
- The step that passes a child's split up to its parent is commented out
  (`bruinbase/BTreeIndex.cc:300-310`). A full leaf below a non-leaf root
  splits into a sibling at the end of the file that no parent points to.
  See `BTreeIndex.InsertIntoFullLeafTallTree`.
- The non-leaf split gives the sibling m/2 keys
  (`bruinbase/BTreeNode.cc:388-401`), one too many when the key count m
  after the insert is even. See `NodeLayout.NonLeafSplitGainsKey` and the
  finding below.

## Model

| member | source | states |
|---|---|---|
| BTreeNode.BTLeafNode.GetKeyCount | bruinbase/BTreeNode.cc:46-51 | on a node page, the count word is the number of entries |
| BTreeNode.BTLeafNode.SetKeyCount | bruinbase/BTreeNode.cc:56-58 | only the count word changes; the next-leaf pointer stays |
| BTreeNode.BTLeafNode.Read | bruinbase/BTreeNode.cc:26-29 | an existing page is copied into the buffer with OK; otherwise the buffer stays and the page file's error code is returned |
| BTreeNode.BTLeafNode.Write | bruinbase/BTreeNode.cc:37-40 | the buffer replaces or appends page `pid`; a negative pid is refused |
| BTreeNode.BTLeafNode.ReadEntry | bruinbase/BTreeNode.cc:208-218 | no entry exactly when eid > count; below the count it is the eid-th entry; at the count, the slot just past the last entry is read |
| BTreeNode.BTLeafNode.Locate | bruinbase/BTreeNode.cc:171-199 | the linear scan stops at the first key not below the search key (or at the count); the code is OK exactly when that key equals the search key, and NoSuchRecord otherwise |
| NodeLayout.LeafLocateSorted | bruinbase/BTreeNode.cc:160-199 | on increasing keys: found iff the key is in the leaf; the index holds the key when found; keys before the index are smaller; when not found, keys from the index on are larger |
| NodeLayout.LeafLocateAt | bruinbase/BTreeNode.cc:179-196 | a key at position e, with smaller keys before it, is found at e |
| BTreeNode.BTLeafNode.Insert | bruinbase/BTreeNode.cc:66-103 | the method has exactly the effect of `LeafInsertPage` on the buffer |
| NodeLayout.LeafInsertOutcome | bruinbase/BTreeNode.cc:66-103 | NodeFull iff count = 70; DuplicateKey (-2) iff the key is present in a non-full node; on refusal the page is unchanged; on OK the count grows by one, the entries are the old ones with the new entry inserted at locate's index, and the next-leaf word is overwritten by old word 251 |
| NodeLayout.LeafInsertKeepsOrder | bruinbase/BTreeNode.cc:66-103 | insert keeps the leaf's keys strictly increasing, and refuses a duplicate exactly when the key is present and the node is not full |
| BTreeNode.BTLeafNode.InsertAndSplit | bruinbase/BTreeNode.cc:115-158 | the node, the sibling and siblingKey are exactly what `LeafSplitPages` gives |
| BTreeNode.BTLeafNode.MoveUpperSlots | bruinbase/BTreeNode.cc:146-155 | the sibling gets the s entries from slot `keep` on, count s and this node's next-leaf word; this node's count becomes `keep`; no other word changes |
| NodeLayout.LeafSplitOutcome | bruinbase/BTreeNode.cc:115-158 | a key already present gives -1 and leaves both pages and siblingKey unchanged; otherwise, with ext the n+1 entries after the insert, the node keeps ext[..ceil((n+1)/2)], the sibling holds the rest, the counts add to n+1 and differ by at most one, the sibling's next-leaf word is old word 251 (the word the shift moved into slot 254), not the leaf's next pointer, and siblingKey is the sibling's first key |
| NodeLayout.LeafSplitKept | bruinbase/BTreeNode.cc:139-152 | an accepted split leaves the node with the first `keep` extended entries |
| NodeLayout.LeafSplitMoved | bruinbase/BTreeNode.cc:142-155 | an accepted split gives the sibling the extended entries from `keep` on, the shifted next-leaf word, and its first key as siblingKey |
| NodeLayout.LeafSplitHalves | bruinbase/BTreeNode.cc:127-155 | the two halves of an accepted split together, for keep = ceil((n+1)/2) |
| NodeLayout.LeafSplitKeepsOrder | bruinbase/BTreeNode.cc:115-158 | when the keys increase, both halves of an accepted split increase, every key left is below siblingKey, and every key moved is at least siblingKey |
| BTreeNode.BTLeafNode.SetNextNodePtr | bruinbase/BTreeNode.cc:224-240 | only word 254 changes, and getNextNodePtr reads it back; the count stays |
| BTreeNode.BTNonLeafNode.GetKeyCount | bruinbase/BTreeNode.cc:292-298 | on a node page, the count word is the number of keys |
| BTreeNode.BTNonLeafNode.SetKeyCount | bruinbase/BTreeNode.cc:303-305 | only the count word changes |
| BTreeNode.BTNonLeafNode.Read | bruinbase/BTreeNode.cc:269-273 | an existing page is copied into the buffer; otherwise the buffer stays; the code is always 0 |
| BTreeNode.BTNonLeafNode.Write | bruinbase/BTreeNode.cc:282-286 | the buffer replaces or appends page `pid`; the code is always 0 |
| BTreeNode.BTNonLeafNode.SeparatorIndex | bruinbase/BTreeNode.cc:324-330 | the scan stops at the first separator above the key, or at the count |
| BTreeNode.BTNonLeafNode.Insert | bruinbase/BTreeNode.cc:314-349 | the method has exactly the effect of `NonLeafInsertPage` |
| BTreeNode.BTNonLeafNode.PlaceSeparator | bruinbase/BTreeNode.cc:324-346 | the (key, pid) pair is shifted in before the first separator above the key, and the count grows by one |
| BTreeNode.BTNonLeafNode.ShiftPair | bruinbase/BTreeNode.cc:333-346 | the words from key slot idx on move two words up, the pair fills the gap, and the count becomes n |
| NodeLayout.NonLeafInsertOutcome | bruinbase/BTreeNode.cc:314-349 | NodeFull iff count = 70, with the page unchanged; otherwise OK, one more key, keys = old keys with `key` inserted at the routing index, children = old children with `pid` inserted just after it |
| NodeLayout.NonLeafInsertKeepsOrder | bruinbase/BTreeNode.cc:314-349 | insert keeps non-decreasing separators non-decreasing |
| BTreeNode.BTNonLeafNode.InsertAndSplit | bruinbase/BTreeNode.cc:361-407 | the node, the sibling and midKey are exactly what `NonLeafSplitPages` gives (the code's m/2 arithmetic), and the code is 0 |
| BTreeNode.BTNonLeafNode.MoveUpperPairs | bruinbase/BTreeNode.cc:397-401 | the sibling gets the 2s+1 words after key c, then count s; this node's count becomes c |
| NodeLayout.NonLeafSplitLeft | bruinbase/BTreeNode.cc:388-404 | with m = n+1 keys after the insert and c = floor(m/2), the node keeps the first c keys and c+1 children, and midKey is key c |
| NodeLayout.NonLeafSplitRightOdd | bruinbase/BTreeNode.cc:388-401 | when m = 2c+1, the sibling holds exactly the keys and children after the middle key |
| NodeLayout.NonLeafSplitRightEven | bruinbase/BTreeNode.cc:388-401 | when m = 2c, the sibling holds the keys after the middle key followed by stale word 2n+1 as a key, and the children followed by stale word 2n+2 |
| NodeLayout.NonLeafSplitGainsKey | bruinbase/BTreeNode.cc:388-401 | when m is even, the two nodes and the middle key hold m+1 keys, one more than exist |
| NodeLayout.NonLeafSplitIntendedConserves | bruinbase/BTreeNode.cc:388-404 | the intended split (sibling gets m-c-1 keys) keeps exactly the m keys in order, kept ones + [midKey] + moved ones, and the m+1 children |
| NodeLayout.NonLeafSplitFullAgrees | bruinbase/BTreeNode.cc:361-407 | on a full node (70 keys, m = 71), the code's split and the intended split are equal |
| BTreeNode.BTNonLeafNode.LocateChildPtr | bruinbase/BTreeNode.cc:416-438 | the code is 0, and the child is child i, where i is the index of the first separator above the key (or the count) |
| NodeLayout.ChildPtrRouting | bruinbase/BTreeNode.cc:416-438 | every separator before the routing index is at most the key; the one at it is above; with non-decreasing separators, all from it on are above |
| BTreeNode.BTNonLeafNode.InitializeRoot | bruinbase/BTreeNode.cc:447-462 | the page becomes `InitRootPage(pid1, key, pid2)` |
| NodeLayout.InitRootOutcome | bruinbase/BTreeNode.cc:447-462 | the new root has keys [key], children [pid1, pid2], zeros elsewhere, first page pid1, and routes keys below `key` to pid1 and the rest to pid2 |
| BTreeNode.BTNonLeafNode.GetFirstPage | bruinbase/BTreeNode.cc:464-468 | NoSuchRecord on a node with no keys; otherwise OK and child 0 |
| BTreeIndex.BTreeIndex.constructor | bruinbase/BTreeIndex.cc:20-24 | root page id -1, height -1, over an empty page file |
| BTreeIndex.BTreeIndex.LoadMetadata | bruinbase/BTreeIndex.cc:53-56 | the root comes from word 0 of page 0 and the height from word 1 |
| BTreeIndex.BTreeIndex.Open | bruinbase/BTreeIndex.cc:33-97 | the new state and code are exactly `OpenSpec`, and page file invariants are kept |
| BTreeIndex.OpenModes | bruinbase/BTreeIndex.cc:33-97 | any mode other than 'r' and 'w' gives InvalidFileMode and changes nothing; a failed page file open and an empty file in 'r' mode give FileOpenFailed; OK iff the mode is valid, the file opens, and it is non-empty or the mode is 'w' |
| BTreeIndex.OpenCreatesTree | bruinbase/BTreeIndex.cc:71-81 | opening an empty file for writing creates page 0 = [1, 1, 0...] and an empty leaf at page 1, with root 1 and height 1 |
| BTreeIndex.BTreeIndex.Close | bruinbase/BTreeIndex.cc:103-119 | the new state and code are exactly `CloseSpec` |
| BTreeIndex.CloseThenOpen | bruinbase/BTreeIndex.cc:103-119 | after a successful close, root is -1 and height 0, and a later open of the file restores the saved root and height in either mode |
| BTreeIndex.BTreeIndex.DescendOne | bruinbase/BTreeIndex.cc:198-203 | one level of the descent: the buffer is what the read leaves, and the child is the routing child of that page |
| BTreeIndex.BTreeIndex.DescendLevels | bruinbase/BTreeIndex.cc:190-209 | after height-1 levels (none if the height is at most 1), the page reached is the one `Descend` gives |
| BTreeIndex.BTreeIndex.Locate | bruinbase/BTreeIndex.cc:187-221 | the code and cursor are exactly `LocateSpec`: InvalidPid with the cursor untouched when the leaf page does not exist; otherwise the leaf's locate code and the cursor (leaf, index) |
| BTreeIndex.LocateInLeaf | bruinbase/BTreeIndex.cc:187-221 | in a one-leaf tree with increasing keys, OK iff the key is in the leaf, with the cursor at it; otherwise NoSuchRecord, with the cursor just past the smaller keys |
| BTreeIndex.LocateTwoLevels | bruinbase/BTreeIndex.cc:193-220 | in a two-level tree with a one-key root, locate searches the left child for keys below the separator and the right child otherwise |
| BTreeIndex.BTreeIndex.ReadForward | bruinbase/BTreeIndex.cc:231-252 | the code, the new cursor and the key and rid read are exactly `ReadForwardSpec` |
| BTreeIndex.ReadForwardSteps | bruinbase/BTreeIndex.cc:231-252 | InvalidCursor iff the page does not exist, with the cursor kept; inside the leaf, OK, the entry at the cursor, and the next entry; at or past the end, entry 0 of the next leaf, with EndOfTree iff that pointer is 0 |
| BTreeIndex.LocateThenReadForward | bruinbase/BTreeIndex.cc:187-252 | reading forward from a successful locate's cursor returns the searched key and moves to the next entry |
| BTreeIndex.BTreeIndex.Insert | bruinbase/BTreeIndex.cc:127-144 | the new state and code are exactly `InsertSpec` |
| BTreeIndex.InsertSpecOf | bruinbase/BTreeIndex.cc:134-143 | an unfolding of insert's two branches, in terms of insertHelper's result h: a new root page goes at the end of the file, above the old root and the reported sibling, and the height grows by one, exactly when h reports a page other than the root; otherwise only the pages change. The statements about insert are `InsertIntoFullLeaf`, `InsertTallTree` and the lemmas below |
| BTreeIndex.BTreeIndex.GrowRoot | bruinbase/BTreeIndex.cc:136-141 | the root becomes the old end of the file, the height grows by one, and the initialised root page is written there |
| BTreeIndex.BTreeIndex.InsertHelper | bruinbase/BTreeIndex.cc:261-314 | the code, the pages and the two out-parameters are exactly `InsertHelperSpec` |
| BTreeIndex.BTreeIndex.InsertIntoLeaf | bruinbase/BTreeIndex.cc:273-292 | the leaf branch is exactly `LeafLevelSpec`: the sibling is written at the end even when the split is refused, and its page id becomes the leaf's next pointer before the split's code is checked |
| BTreeIndex.InsertHelperKeepsWellFormed | bruinbase/BTreeIndex.cc:261-314 | every page that insertHelper writes has a valid count, so the page file stays well formed |
| BTreeIndex.InsertTallTree | bruinbase/BTreeIndex.cc:293-313 | with height at least 2, insert always returns OK and keeps the root, the height and the mode |
| BTreeIndex.InsertIntoRoomyLeaf | bruinbase/BTreeIndex.cc:273-292 | in a one-leaf tree with room, a present key gives DuplicateKey with nothing changed; otherwise OK, only the root page changes, and it gains the entry at locate's index |
| BTreeIndex.InsertIntoFullLeaf | bruinbase/BTreeIndex.cc:127-144 | in a one-leaf tree with a full leaf, the height becomes 2, the sibling is at the old end E and the new root at E+1; an accepted split leaves the lower half, with the next pointer E, and the upper half in the sibling, and the root separates them by the sibling's first key; a refused split returns -1 with the uninitialised separator |
| BTreeIndex.InsertThenLocate | bruinbase/BTreeIndex.cc:127-221 | in a one-leaf tree with room, locate after insert finds the key at the index locate gave before |
| BTreeIndex.SplitLeaves | bruinbase/BTreeIndex.cc:127-144 | after a root-leaf split the extended keys increase, the left leaf holds the first 36, the right one the rest, and the root's separator is key 36 |
| BTreeIndex.LocateInSplitTree | bruinbase/BTreeIndex.cc:187-221 | in a two-level tree whose leaves split increasing keys at `keep`, key e is found in the left leaf at e, or in the right leaf at e-keep |
| BTreeIndex.InsertSplitThenLocate | bruinbase/BTreeIndex.cc:127-221 | after an insert that splits the full root leaf, the tree has height 2 and locate finds the new key, in the old leaf or in the new one |
| BTreeIndex.InsertHelperReachesLeaf | bruinbase/BTreeIndex.cc:261-314 | above the leaf level, insertHelper returns OK, keeps the caller's retPid and siblingKey, and leaves the pages that the leaf step leaves on the leaf reached by following the routing child from fresh reads, whatever that step returned |
| BTreeIndex.DescendFirst | bruinbase/BTreeIndex.cc:198-203 | locate's descent through an existing page reads it into the buffer and goes on from its routing child |
| BTreeIndex.DescendAgrees | bruinbase/BTreeIndex.cc:190-209 | on a route whose pages exist, locate's descent, which reuses one buffer, reaches the same leaf as insertHelper's descent, which reads into fresh nodes |
| BTreeIndex.RouteKept | bruinbase/BTreeIndex.cc:288 | writing the leaf back keeps every route that avoids it, and the leaf such a route reaches |
| BTreeIndex.LeafLevelRoomy | bruinbase/BTreeIndex.cc:273-292 | on an existing leaf with room, a present key gives DuplicateKey with pages and out-parameters unchanged; otherwise OK, out-parameters kept, and only that leaf is rewritten, with the entry inserted at locate's index |
| BTreeIndex.LeafLevelFull | bruinbase/BTreeIndex.cc:273-292 | on an existing full leaf, the sibling is appended at the old end E and reported as retPid, and no page but the leaf changes; a present key gives -1 with the leaf unchanged and an empty sibling; otherwise OK, the lower half stays in the leaf, which points to E, the upper half is in the sibling, whose next word is old word 251, and siblingKey is its first key |
| BTreeIndex.InsertTallTreeAtLeaf | bruinbase/BTreeIndex.cc:127-144 | with height 2 or more, insert returns OK, keeps the root and the height, and its pages are what the leaf step leaves on the leaf the descent reaches |
| BTreeIndex.InsertIntoRoomyLeafAnyHeight | bruinbase/BTreeIndex.cc:261-314 | at any height, when the reached leaf exists and has room: a new key goes into that leaf at locate's index and nothing else changes; a present key changes nothing and gives DuplicateKey in a one-leaf tree, OK in a taller one |
| BTreeIndex.InsertIntoFullLeafTallTree | bruinbase/BTreeIndex.cc:273-311 | with height 2 or more and a full reached leaf: OK, root and height kept, one page appended holding the upper half (empty for a present key), no other page but the leaf changed, and the leaf keeps the lower half and points to the new page, or is unchanged for a present key |
| BTreeIndex.InsertThenLocateAnyHeight | bruinbase/BTreeIndex.cc:127-221 | at any height, when the reached leaf has room and the route's pages exist and avoid it, locate after insert finds the key in that leaf at the index locate gave before |
| BTreeIndex.LeafLevelDuplicateGrows | bruinbase/BTreeIndex.cc:277-287 | as written, a present key in a full leaf gives -1, yet the page file grows by an empty sibling that is reported as retPid |
| BTreeIndex.LeafLevelIntendedOutcome | bruinbase/BTreeIndex.cc:259-260 | the intended leaf step gives DuplicateKey exactly when the key is present; every code other than OK leaves pages, retPid and siblingKey unchanged; for a new key it is the step as written |
| BTreeIndex.BTreeIndex.GetRootPid | bruinbase/BTreeIndex.cc:371-373 | the root page id field |
| BTreeIndex.BTreeIndex.GetTreeHeight | bruinbase/BTreeIndex.cc:375-377 | the tree height field |
| BTreeNode.BTLeafNode.GetNextNodePtr | bruinbase/BTreeNode.cc:224-229 | the next-leaf pointer is the second-to-last word of the page |
| LoadLine.SkipBlankRun | bruinbase/SqlEngine.cc:340-342 | the walk stops at the first character that is not a space or tab |
| LoadLine.RunEndIs | bruinbase/SqlEngine.cc:340-352 | a run ends at r iff every character before r is in the run and the one at r is not |
| LoadLine.FindCharIs | bruinbase/SqlEngine.cc:347-349 | strchr finds k iff k holds `c` and no earlier character of the C string is `c` or NUL |
| LoadLine.FindCharNone | bruinbase/SqlEngine.cc:347-349 | strchr finds nothing iff `c` is not in the C string |
| LoadLine.FindIs | bruinbase/SqlEngine.cc:369 | string::find returns k iff k holds `c` and no earlier character is `c` |
| LoadLine.FindNone | bruinbase/SqlEngine.cc:369 | string::find returns npos iff `c` does not occur |
| LoadLine.TakeUntilIs | bruinbase/SqlEngine.cc:369-370 | erase at the first `c` leaves exactly the prefix before it |
| LoadLine.DecimalOfShowNat | bruinbase/SqlEngine.cc:345 | the digits of n read back as n |
| LoadLine.AtoiOfShowInt | bruinbase/SqlEngine.cc:345 | atoi of a formatted integer, followed by a comma, is that integer, including negative ones |
| LoadLine.ParseLoadLine | bruinbase/SqlEngine.cc:334-373 | the code, key and value are exactly `ParseLoadLineSpec` |
| LoadLine.ParseResultCode | bruinbase/SqlEngine.cc:347-349 | OK iff the line up to its first NUL has a comma; without one the code is RC_INVALID_FILE_FORMAT and the value is unchanged |
| LoadLine.LeadingBlanksIgnored | bruinbase/SqlEngine.cc:340-345 | leading spaces and tabs change neither the code, the key nor the value |
| LoadLine.EmptyValue | bruinbase/SqlEngine.cc:351-358 | nothing but blanks after the comma gives OK and an empty value |
| LoadLine.QuotedValue | bruinbase/SqlEngine.cc:360-370 | a value opened by ' or " is the text up to the same quote, or to the end |
| LoadLine.UnquotedValue | bruinbase/SqlEngine.cc:363-370 | an unquoted value is the text up to the first newline, or to the end |
| LoadLine.FormattedKey | bruinbase/SqlEngine.cc:340-345 | the key of `k,"v"` is k |
| LoadLine.FormattedValue | bruinbase/SqlEngine.cc:347-370 | the value of `k,"v"` is v, when v holds no double quote and no NUL |
| LoadLine.FormatThenParse | bruinbase/SqlEngine.cc:334-373 | parsing `k,"v"` gives (OK, k, v): the round trip |

## Left out

- File I/O: the page file's open and close outcomes and its contents on open are parameters (`canOpen`, `canClose`, `file`). `PageFile.cc` is not part of this model. Reading a page outside the file fails, and writing at or past the end appends the page, with zeroed pages filling any gap.
- The `DEBUG` printf calls, `printNode`, `debugPrintout`, and every other part of `SqlEngine` are not modelled.
- Words the source leaves uninitialised are modelled as zeros. These are the metadata page beyond words 0 and 1 in open and close, and a new node's buffer.
- BTreeIndex.BTreeIndex.Insert: `siblingKey` in `insert` is uninitialised; the parameter `uninitKey` stands for its value.
- BTreeIndex.BTreeIndex.InsertHelper: the uninitialised `childSiblingKey` passed down the tree is modelled as 0, which affects nothing, because the parent drops the child's results.
- BTreeIndex.BTreeIndex.Insert: requires height at least 1. With a smaller height (an index that was never opened), `insertHelper` never reaches the leaf level and recurses without end.
- BTreeIndex.BTreeIndex.Open: requires every page of the file to be a node page, with a count between 0 and 70, as every page this index writes is.
- BTreeIndex.BTreeIndex.ReadForward: requires a non-negative entry number. A negative one reads outside the buffer in the source.
- Record ids and keys are unbounded integers. 32-bit overflow is not modelled, and for `LoadLine.Atoi`, atoi's overflow is not either (it is undefined in C).
- The numeric values of the RC_* codes come from a header that is not part of this model. The codes are distinct constructors.
- Split propagation into parent nodes and a root growing above a non-leaf root are not modelled: the source does not implement them.
- BTreeIndex.InsertThenLocateAnyHeight: requires the non-leaf pages on the way down to exist and to differ from the leaf reached, as in every tree this index builds. Otherwise locate's single reused buffer and insertHelper's fresh nodes can reach different leaves. The any-height insert lemmas also require that leaf to exist. `InsertSpec` itself covers a missing page, which reads as an empty node.
- Node objects are fresh at each call, as in the source. Aliasing between a node and its sibling is excluded by a precondition, as the source's "must be empty" sibling argument implies.

## Findings

| source | as written | input that shows it | evidently intended | confidence | as-written member | corrected member |
|---|---|---|---|---|---|---|
| bruinbase/BTreeNode.cc:388-401 | the sibling gets m/2 keys, where m is the key count after the insert | a node with 1 key that takes a second one (m = 2): it keeps 1 key, moves key 1 up, and the sibling gets 1 key, which is a stale word past the last key | the sibling gets the m - m/2 - 1 keys after the middle one | not executed; high, but only a non-full node shows it, and the index never splits one | NodeLayout.NonLeafSplitGainsKey | NodeLayout.NonLeafSplitIntendedConserves |
| bruinbase/BTreeIndex.cc:273-287 | a key already present in a full leaf gives the split's -1, yet the leaf step appends an empty sibling and reports it as retPid, so insert grows the tree over an empty leaf under an uninitialised separator | a one-leaf tree whose leaf holds 70 keys, and an insert of one of them | the duplicate is refused with -2 and nothing changes, as the comment at lines 259-260 says | not executed; high | BTreeIndex.LeafLevelDuplicateGrows | BTreeIndex.LeafLevelIntendedOutcome |

`NodeLayout.NonLeafSplitRightEven` gives the sibling's contents for even m.
`NodeLayout.NonLeafSplitPages` is the as-written split.
`NodeLayout.NonLeafSplitIntended` is the corrected one.
`NodeLayout.NonLeafSplitFullAgrees` proves that the two are equal on a full node. A full node (m = 71) is the only input the split is meant for, so `BTNonLeafNode.InsertAndSplit` keeps the code's arithmetic and meets the intended split there.

`BTreeIndex.LeafLevelIntended` is the corrected leaf step: it refuses a
present key with DuplicateKey before trying to split. The class
`BTreeIndex` keeps the leaf step as written, because it models the code.
