/**
 * The two node kinds of the B+-tree. Each keeps one page of 256 words in a
 * buffer and edits it in place; every operation is proved to have the effect
 * on the page that NodeLayout describes, so what NodeLayout proves about that
 * effect holds of the nodes.
 */
module BTreeNode {
  import opened Bruinbase
  import opened NodeLayout

  /** A memcpy of `words` into `dst` at word `at`. */
  method CopyWords(dst: array<int>, at: nat, words: seq<int>)
    requires at + |words| <= dst.Length
    modifies dst
    ensures dst[..] == Overwrite(old(dst[..]), at, words)
  {
    forall j | 0 <= j < |words| {
      dst[at + j] := words[j];
    }
    assert dst[..] == Overwrite(old(dst[..]), at, words);
  }

  /**
   * The tail shift of both inserts: the words from `at` to the end minus
   * |words| go through a temporary copy, `words` are written at `at`, and the
   * copy goes back right after them.
   */
  method ShiftIn(buf: array<int>, at: nat, words: seq<int>)
    requires buf.Length == PAGE_WORDS && at + |words| <= PAGE_WORDS
    modifies buf
    ensures buf[..] == ShiftInsert(old(buf[..]), at, words)
  {
    var p := buf[..];
    var tail := buf[at .. PAGE_WORDS - |words|];
    CopyWords(buf, at, words);
    CopyWords(buf, at + |words|, tail);
    assert buf[..] == ShiftInsert(p, at, words);
  }

  class BTLeafNode {
    const buffer: array<int>

    predicate Valid()
      reads this
    {
      buffer.Length == PAGE_WORDS
    }

    function Page(): seq<int>
      reads this, buffer
    {
      buffer[..]
    }

    /** The buffer of a new node is zeroed, so it holds no entries. */
    constructor()
      ensures Valid() && Page() == ZeroPage()
      ensures fresh(buffer)
    {
      buffer := new int[PAGE_WORDS](_ => 0);
      new;
      assert buffer[..] == ZeroPage();
    }

    function GetKeyCount(): (n: int)
      requires Valid()
      reads this, buffer
      ensures NodePage(Page()) ==> n == Count(Page())
    {
      buffer[COUNT_WORD]
    }

    method SetKeyCount(n: int)
      requires Valid()
      modifies buffer
      ensures Page() == old(Page())[COUNT_WORD := n]
      ensures GetKeyCount() == n && GetNextNodePtr() == old(GetNextNodePtr())
    {
      buffer[COUNT_WORD] := n;
    }

    /** BTLeafNode::read: the node takes page `pid` when it exists; otherwise it keeps its words and the code says why. */
    method Read(pid: int, pf: PageFile) returns (rc: RC)
      requires Valid() && pf.Valid()
      modifies buffer
      ensures rc == (if Readable(pf.pages, pid) then OK else InvalidPid)
      ensures Page() == (if Readable(pf.pages, pid) then pf.pages[pid] else old(Page()))
    {
      rc := pf.Read(pid, buffer);
    }

    /** BTLeafNode::write: the node's words become page `pid`. */
    method Write(pid: int, pf: PageFile) returns (rc: RC)
      requires Valid() && pf.Valid()
      modifies pf
      ensures pf.Valid() && pf.pages == WriteStore(old(pf.pages), pid, Page())
      ensures rc == WriteCode(pid)
    {
      rc := pf.Write(pid, buffer);
    }

    /**
     * BTLeafNode::readEntry: any slot up to and including the one just past
     * the last entry can be read; a slot before the count holds entry `eid`.
     */
    function ReadEntry(eid: nat): (r: Option<LeafEntry>)
      requires Valid() && NodePage(Page())
      reads this, buffer
      ensures r.None? <==> eid > Count(Page())
      ensures eid < Count(Page()) ==> r == Some(LeafEntries(Page())[eid])
      ensures eid == Count(Page()) ==> r == Some(EntryAt(Page(), eid))
    {
      if eid > buffer[COUNT_WORD] then None
      else Some(LeafEntry(buffer[3 * eid], RecordId(buffer[3 * eid + 1], buffer[3 * eid + 2])))
    }

    /**
     * BTLeafNode::locate: a linear scan that stops at the first key not below
     * `searchKey` (FirstAtLeast says what that index is); the code is OK
     * exactly when that key is `searchKey`.
     */
    method Locate(searchKey: int) returns (rc: RC, eid: nat)
      requires Valid() && NodePage(Page())
      ensures (rc == OK, eid) == LeafLocate(Page(), searchKey)
      ensures rc == OK || rc == NoSuchRecord
    {
      var keyCount := GetKeyCount();
      ghost var ks := LeafKeys(Page());
      var slot := -1;
      rc := NoSuchRecord;
      var i := 0;
      while i < keyCount
        invariant 0 <= i <= keyCount
        invariant slot == -1 && rc == NoSuchRecord
        invariant FirstAtLeast(ks, searchKey, i) == FirstAtLeast(ks, searchKey, 0)
        decreases keyCount - i
      {
        var curKey := ReadEntry(i).value.key;
        assert curKey == ks[i];
        if curKey == searchKey {
          slot := i;
          rc := OK;
          break;
        } else if curKey > searchKey {
          slot := i;
          break;
        }
        i := i + 1;
      }
      if slot == -1 {
        eid := keyCount;
      } else {
        eid := slot;
      }
    }

    /**
     * BTLeafNode::insert: refuses a full node, then a key already present,
     * and otherwise shifts the entries from the insertion point up one slot,
     * writes the new entry there and raises the count.
     */
    method Insert(key: int, rid: RecordId) returns (rc: RC)
      requires Valid() && NodePage(Page())
      modifies buffer
      ensures (rc, Page()) == LeafInsertPage(old(Page()), key, rid)
      ensures NodePage(Page())
    {
      var keyCount := GetKeyCount();
      if keyCount == MAX_KEYS {
        return NodeFull;
      }
      var found, eid := Locate(key);
      if found == OK {
        return DuplicateKey;
      }
      ShiftIn(buffer, 3 * eid, [key, rid.pid, rid.sid]);
      SetKeyCount(keyCount + 1);
      LeafInsertOutcome(old(Page()), key, rid);
      return OK;
    }

    /**
     * BTLeafNode::insertAndSplit: refuses a key already present; otherwise
     * inserts without a capacity check, keeps ceil(m / 2) of the m entries,
     * copies the rest to the front of `sibling`, and gives the sibling this
     * node's next-sibling word. `siblingKey0` is what the caller's variable
     * held; it comes back unchanged when the split is refused.
     */
    method InsertAndSplit(key: int, rid: RecordId, sibling: BTLeafNode, siblingKey0: int)
      returns (rc: RC, siblingKey: int)
      requires Valid() && NodePage(Page()) && sibling.Valid() && sibling.buffer != buffer
      modifies buffer, sibling.buffer
      ensures (rc, Page(), sibling.Page(), siblingKey)
              == LeafSplitPages(old(Page()), old(sibling.Page()), key, rid, siblingKey0)
    {
      ghost var p := Page();
      ghost var sib := sibling.Page();
      var keyCount := GetKeyCount();
      var found, eid := Locate(key);
      if found == OK {
        return DuplicateInSplit, siblingKey0;
      }
      ShiftIn(buffer, 3 * eid, [key, rid.pid, rid.sid]);
      // the count is set to its value before the post-increment
      SetKeyCount(keyCount);
      ghost var q := Page();
      assert q == ShiftInsert(p, 3 * eid, [key, rid.pid, rid.sid])[COUNT_WORD := Count(p)];
      keyCount := keyCount + 1;
      var newKeyCount := keyCount / 2;
      if keyCount % 2 != 0 {
        newKeyCount := newKeyCount + 1;
      }
      assert newKeyCount == SplitKeep(keyCount);
      var siblingKeyCount := keyCount - newKeyCount;
      MoveUpperSlots(sibling, newKeyCount, siblingKeyCount);
      siblingKey := sibling.buffer[0];
      LeafSplitPagesAccepted(p, sib, key, rid, siblingKey0, q, newKeyCount, siblingKeyCount);
      rc := OK;
    }

    /**
     * The second half of insertAndSplit: the `s` slots from slot `keep` go to
     * the front of `sibling`, both counts are set, and the sibling takes this
     * node's next-sibling word.
     */
    method MoveUpperSlots(sibling: BTLeafNode, keep: nat, s: nat)
      requires Valid() && sibling.Valid() && sibling.buffer != buffer
      requires 3 * (keep + s) <= NEXT_WORD
      modifies buffer, sibling.buffer
      ensures Page() == old(Page())[COUNT_WORD := keep]
      ensures sibling.Page() == LeafSiblingPage(old(sibling.Page()), old(Page()), keep, s)
    {
      ghost var q := Page();
      ghost var sib := sibling.Page();
      var words := buffer[3 * keep .. 3 * keep + 3 * s];
      CopyWords(sibling.buffer, 0, words);
      ghost var copied := sibling.Page();
      assert copied == Overwrite(sib, 0, q[3 * keep .. 3 * keep + 3 * s]);
      sibling.SetKeyCount(s);
      assert sibling.Page() == copied[COUNT_WORD := s];
      SetKeyCount(keep);
      var next := GetNextNodePtr();
      assert next == q[NEXT_WORD];
      ghost var counted := sibling.Page();
      var _ := sibling.SetNextNodePtr(next);
      assert sibling.Page() == counted[NEXT_WORD := next];
    }

    /** The next-sibling pointer is the second-to-last word of the page. */
    function GetNextNodePtr(): (pid: int)
      requires Valid()
      reads this, buffer
      ensures pid == Page()[PAGE_WORDS - 2]
    {
      buffer[NEXT_WORD]
    }

    /** Sets the next-sibling word; the key count and every other word stay. */
    method SetNextNodePtr(pid: int) returns (rc: RC)
      requires Valid()
      modifies buffer
      ensures Page() == old(Page())[NEXT_WORD := pid]
      ensures GetNextNodePtr() == pid && GetKeyCount() == old(GetKeyCount())
      ensures rc == OK
    {
      buffer[NEXT_WORD] := pid;
      return OK;
    }
  }

  class BTNonLeafNode {
    const buffer: array<int>

    predicate Valid()
      reads this
    {
      buffer.Length == PAGE_WORDS
    }

    function Page(): seq<int>
      reads this, buffer
    {
      buffer[..]
    }

    /** The buffer of a new node is zeroed, so it holds no keys. */
    constructor()
      ensures Valid() && Page() == ZeroPage()
      ensures fresh(buffer)
    {
      buffer := new int[PAGE_WORDS](_ => 0);
      new;
      assert buffer[..] == ZeroPage();
    }

    function GetKeyCount(): (n: int)
      requires Valid()
      reads this, buffer
      ensures NodePage(Page()) ==> n == Count(Page())
    {
      buffer[COUNT_WORD]
    }

    method SetKeyCount(n: int)
      requires Valid()
      modifies buffer
      ensures Page() == old(Page())[COUNT_WORD := n]
      ensures GetKeyCount() == n
    {
      buffer[COUNT_WORD] := n;
    }

    /** BTNonLeafNode::read: the node takes page `pid` when it exists; a failed read is not reported. */
    method Read(pid: int, pf: PageFile) returns (rc: RC)
      requires Valid() && pf.Valid()
      modifies buffer
      ensures rc == OK
      ensures Page() == (if Readable(pf.pages, pid) then pf.pages[pid] else old(Page()))
    {
      var _ := pf.Read(pid, buffer);
      return OK;
    }

    /** BTNonLeafNode::write: the node's words become page `pid`; a failed write is not reported. */
    method Write(pid: int, pf: PageFile) returns (rc: RC)
      requires Valid() && pf.Valid()
      modifies pf
      ensures pf.Valid() && pf.pages == WriteStore(old(pf.pages), pid, Page())
      ensures rc == OK
    {
      var _ := pf.Write(pid, buffer);
      return OK;
    }

    /** The scan shared by both inserts: the index of the first separator above `key`, or the key count. */
    method SeparatorIndex(key: int) returns (idx: nat)
      requires Valid() && NodePage(Page())
      ensures idx == ChildIndex(Page(), key) && idx <= Count(Page())
    {
      var keyCount := GetKeyCount();
      ghost var ks := NodeKeys(Page());
      idx := 0;
      while idx < keyCount
        invariant 0 <= idx <= keyCount
        invariant FirstAbove(ks, key, idx) == FirstAbove(ks, key, 0)
        decreases keyCount - idx
      {
        var curKey := buffer[2 * idx + 1];
        assert curKey == ks[idx];
        if curKey > key {
          break;
        }
        idx := idx + 1;
      }
    }

    /**
     * BTNonLeafNode::insert: refuses a full node; otherwise `key` goes before
     * the first separator above it, `pid` becomes the child right after it,
     * and the count grows by one.
     */
    method Insert(key: int, pid: int) returns (rc: RC)
      requires Valid() && NodePage(Page())
      modifies buffer
      ensures (rc, Page()) == NonLeafInsertPage(old(Page()), key, pid)
      ensures NodePage(Page())
    {
      var keyCount := GetKeyCount();
      if keyCount == MAX_KEYS {
        return NodeFull;
      }
      PlaceSeparator(key, pid);
      return OK;
    }

    /**
     * The part both inserts share: `key` and `pid` go in before the first
     * separator above `key` and the count grows by one, whether or not the
     * node had room.
     */
    method PlaceSeparator(key: int, pid: int)
      requires Valid() && NodePage(Page())
      modifies buffer
      ensures Page() == ShiftInsert(old(Page()), 2 * ChildIndex(old(Page()), key) + 1, [key, pid])
                        [COUNT_WORD := Count(old(Page())) + 1]
    {
      var keyCount := GetKeyCount();
      var idx := SeparatorIndex(key);
      ShiftPair(idx, key, pid, keyCount + 1);
    }

    /** The moves of BTNonLeafNode::insert: the pair goes in at key slot `idx` and the count becomes `n`. */
    method ShiftPair(idx: nat, key: int, pid: int, n: int)
      requires Valid() && 2 * idx + 3 <= PAGE_WORDS
      modifies buffer
      ensures Page() == ShiftInsert(old(Page()), 2 * idx + 1, [key, pid])[COUNT_WORD := n]
    {
      ShiftIn(buffer, 2 * idx + 1, [key, pid]);
      SetKeyCount(n);
    }

    /**
     * BTNonLeafNode::insertAndSplit: inserts without a capacity check, so the
     * node has m keys; keeps floor(m / 2) of them, moves the floor(m / 2) keys
     * after the middle one with their children to `sibling`, and reports the
     * middle key.
     */
    method InsertAndSplit(key: int, pid: int, sibling: BTNonLeafNode) returns (rc: RC, midKey: int)
      requires Valid() && NodePage(Page()) && sibling.Valid() && sibling.buffer != buffer
      modifies buffer, sibling.buffer
      ensures (Page(), sibling.Page(), midKey) == NonLeafSplitPages(old(Page()), old(sibling.Page()), key, pid)
      ensures rc == OK
    {
      ghost var p := Page();
      ghost var sib := sibling.Page();
      PlaceSeparator(key, pid);
      ghost var q := Page();
      var currentKeyCount := GetKeyCount();
      var siblingKeyCount := currentKeyCount / 2;
      currentKeyCount := currentKeyCount / 2;
      NonLeafSplitPagesIs(p, sib, key, pid, q, currentKeyCount);
      MoveUpperPairs(sibling, currentKeyCount, siblingKeyCount);
      midKey := buffer[2 * (currentKeyCount + 1) - 1];
      rc := OK;
    }

    /**
     * The second half of BTNonLeafNode::insertAndSplit: the words of the `s`
     * pairs after key `c` go to the front of `sibling`, and the two counts
     * become `c` and `s`.
     */
    method MoveUpperPairs(sibling: BTNonLeafNode, c: nat, s: nat)
      requires Valid() && sibling.Valid() && sibling.buffer != buffer
      requires 2 * (c + 1) + 2 * s + 1 <= COUNT_WORD
      modifies buffer, sibling.buffer
      ensures Page() == old(Page())[COUNT_WORD := c]
      ensures sibling.Page() == NonLeafSiblingPage(old(sibling.Page()), old(Page()), c, s)
    {
      ghost var q := Page();
      ghost var sib := sibling.Page();
      var words := buffer[2 * (c + 1) .. 2 * (c + 1) + 2 * s + 1];
      CopyWords(sibling.buffer, 0, words);
      ghost var copied := sibling.Page();
      assert copied == Overwrite(sib, 0, q[2 * (c + 1) .. 2 * (c + 1) + 2 * s + 1]);
      SetKeyCount(c);
      sibling.SetKeyCount(s);
      assert sibling.Page() == copied[COUNT_WORD := s];
    }

    /**
     * BTNonLeafNode::locateChildPtr: the child right before the first
     * separator above `searchKey`, or the last child when there is none.
     */
    method LocateChildPtr(searchKey: int) returns (rc: RC, pid: int)
      requires Valid() && NodePage(Page())
      ensures rc == OK && pid == ChildPtr(Page(), searchKey)
      ensures pid == NodeChildren(Page())[ChildIndex(Page(), searchKey)]
    {
      var keyCount := GetKeyCount();
      ghost var ks := NodeKeys(Page());
      ChildPtrRouting(Page(), searchKey);
      var i := 0;
      while i < keyCount
        invariant 0 <= i <= keyCount
        invariant FirstAbove(ks, searchKey, i) == FirstAbove(ks, searchKey, 0)
        decreases keyCount - i
      {
        var curKey := buffer[2 * i + 1];
        assert curKey == ks[i];
        if curKey > searchKey {
          pid := buffer[2 * i];
          return OK, pid;
        }
        i := i + 1;
      }
      pid := buffer[2 * i];
      return OK, pid;
    }

    /** BTNonLeafNode::initializeRoot: a zeroed page holding child `pid1`, separator `key` and child `pid2`. */
    method InitializeRoot(pid1: int, key: int, pid2: int) returns (rc: RC)
      requires Valid()
      modifies buffer
      ensures Page() == InitRootPage(pid1, key, pid2)
      ensures rc == OK
    {
      forall j | 0 <= j < PAGE_WORDS {
        buffer[j] := 0;
      }
      buffer[0] := pid1;
      buffer[1] := key;
      buffer[2] := pid2;
      SetKeyCount(1);
      assert buffer[..] == InitRootPage(pid1, key, pid2);
      return OK;
    }

    /**
     * BTNonLeafNode::getFirstPage: the first child, or NoSuchRecord on a node
     * without keys (then `pid` keeps the caller's `pid0`).
     */
    method GetFirstPage(pid0: int) returns (rc: RC, pid: int)
      requires Valid() && NodePage(Page())
      ensures rc == OK || rc == NoSuchRecord
      ensures FirstPage(Page()) == (if rc == OK then Some(pid) else None)
      ensures rc == NoSuchRecord ==> pid == pid0
    {
      if GetKeyCount() == 0 {
        return NoSuchRecord, pid0;
      }
      return OK, buffer[0];
    }
  }
}
