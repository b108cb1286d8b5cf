/**
 * The B+-tree index: a root page id and a tree height over a page file whose
 * page 0 holds the two as metadata. The operations are stated as functions of
 * the index state; the class implements them on the page file and the nodes
 * and is proved to have exactly those effects.
 */
module BTreeIndex {
  import opened Bruinbase
  import opened NodeLayout
  import opened BTreeNode

  /** A position in the leaf level: leaf page and entry number. */
  datatype IndexCursor = IndexCursor(pid: int, eid: int)

  /** What the index holds: the page file, the two metadata fields and the open mode. */
  datatype IndexState = IndexState(pages: Store, rootPid: int, treeHeight: int, mode: char)

  /** The metadata page: root page id in word 0, tree height in word 1. */
  function MetaPage(rootPid: int, treeHeight: int): (p: seq<int>)
    ensures NodePage(p) && p[0] == rootPid && p[1] == treeHeight
  {
    ZeroPage()[0 := rootPid][1 := treeHeight]
  }

  /** The words a node read leaves in a buffer: the page when it exists, the old words otherwise. */
  function ReadInto(pages: Store, pid: int, buf: seq<int>): (r: seq<int>)
    requires WellFormedStore(pages) && NodePage(buf)
    ensures NodePage(r)
  {
    if Readable(pages, pid) then pages[pid] else buf
  }

  // ---------------------------------------------------------------------
  // open and close

  /**
   * BTreeIndex::open with `file` as what the file holds and `canOpen` as
   * whether the page file could open it.
   */
  function OpenSpec(s: IndexState, file: Store, canOpen: bool, mode: char): (RC, IndexState)
    requires WellFormedStore(file)
  {
    if mode == 'r' then
      if !canOpen then (FileOpenFailed, s.(mode := mode))
      else if |file| == 0 then (FileOpenFailed, s.(pages := file, mode := mode))
      else (OK, IndexState(file, file[0][0], file[0][1], mode))
    else if mode == 'w' then
      if !canOpen then (FileOpenFailed, s.(mode := mode))
      else if |file| == 0 then (OK, IndexState(WriteStore(WriteStore(file, 0, MetaPage(1, 1)), 1, ZeroPage()), 1, 1, mode))
      else (OK, IndexState(file, file[0][0], file[0][1], mode))
    else (InvalidFileMode, s)
  }

  /** BTreeIndex::close with `canClose` as whether the page file closes. */
  function CloseSpec(s: IndexState, canClose: bool): (RC, IndexState)
  {
    var pages := WriteStore(s.pages, 0, MetaPage(s.rootPid, s.treeHeight));
    if !canClose then (FileCloseFailed, s.(pages := pages))
    else (OK, s.(pages := pages, rootPid := -1, treeHeight := 0))
  }

  /**
   * open refuses any mode but 'r' and 'w' and changes nothing then; in read
   * mode a file without pages cannot be opened.
   */
  lemma OpenModes(s: IndexState, file: Store, canOpen: bool, mode: char)
    requires WellFormedStore(file)
    ensures mode != 'r' && mode != 'w' ==> OpenSpec(s, file, canOpen, mode) == (InvalidFileMode, s)
    ensures mode == 'r' && |file| == 0 ==> OpenSpec(s, file, canOpen, mode).0 == FileOpenFailed
    ensures (mode == 'r' || mode == 'w') && !canOpen ==> OpenSpec(s, file, canOpen, mode).0 == FileOpenFailed
    ensures OpenSpec(s, file, canOpen, mode).0 == OK <==> (mode == 'r' || mode == 'w') && canOpen && (mode == 'w' || |file| > 0)
  {
  }

  /**
   * Opening an empty file for writing creates the metadata page [1, 1] at
   * page 0 and an empty leaf at page 1, and the index is then a one-leaf tree
   * rooted at page 1.
   */
  lemma OpenCreatesTree(s: IndexState)
    ensures var r := OpenSpec(s, [], true, 'w');
      && r.0 == OK
      && r.1.pages == [MetaPage(1, 1), ZeroPage()]
      && r.1.rootPid == 1 && r.1.treeHeight == 1
      && WellFormedStore(r.1.pages)
      && LeafEntries(r.1.pages[r.1.rootPid]) == []
  {
    var r := OpenSpec(s, [], true, 'w');
    assert r.1.pages == [MetaPage(1, 1), ZeroPage()];
    ZeroPageIsEmpty();
  }

  /**
   * close saves the root and the height in page 0, so a later open of the
   * file it leaves, in either mode, restores both.
   */
  lemma CloseThenOpen(s: IndexState, t: IndexState, mode: char)
    requires WellFormedStore(s.pages) && (mode == 'r' || mode == 'w')
    ensures var c := CloseSpec(s, true);
      && c.0 == OK && c.1.rootPid == -1 && c.1.treeHeight == 0
      && WellFormedStore(c.1.pages)
      && OpenSpec(t, c.1.pages, true, mode) == (OK, IndexState(c.1.pages, s.rootPid, s.treeHeight, mode))
  {
    WriteKeepsWellFormed(s.pages, 0, MetaPage(s.rootPid, s.treeHeight));
  }

  // ---------------------------------------------------------------------
  // locate

  /**
   * The first `steps` descents of locate from page `pid` with the reused
   * non-leaf buffer `buf`: the page reached and the buffer left behind.
   */
  function Descend(pages: Store, buf: seq<int>, pid: int, steps: nat, key: int): (r: (int, seq<int>))
    requires WellFormedStore(pages) && NodePage(buf)
    ensures NodePage(r.1)
  {
    if steps == 0 then (pid, buf)
    else
      var prev := Descend(pages, buf, pid, steps - 1, key);
      var node := ReadInto(pages, prev.0, prev.1);
      (ChildPtr(node, key), node)
  }

  /** One more descent reads the page reached into the buffer and follows its child for `key`. */
  lemma DescendNext(pages: Store, pid0: int, steps: nat, key: int, pid: int, buf: seq<int>, node: seq<int>)
    requires WellFormedStore(pages) && NodePage(buf)
    requires (pid, buf) == Descend(pages, ZeroPage(), pid0, steps, key)
    requires node == ReadInto(pages, pid, buf)
    ensures (ChildPtr(node, key), node) == Descend(pages, ZeroPage(), pid0, steps + 1, key)
  {
  }

  /** How many non-leaf levels locate goes through: treeHeight - 1, or none. */
  function InnerLevels(treeHeight: int): nat
  {
    if treeHeight > 1 then treeHeight - 1 else 0
  }

  /**
   * BTreeIndex::locate: descend to a leaf, then search it. A leaf page that
   * does not exist is reported with the cursor untouched (`cursor0` is the
   * caller's cursor).
   */
  function LocateSpec(pages: Store, rootPid: int, treeHeight: int, searchKey: int, cursor0: IndexCursor)
    : (RC, IndexCursor)
    requires WellFormedStore(pages)
  {
    var pid := Descend(pages, ZeroPage(), rootPid, InnerLevels(treeHeight), searchKey).0;
    if !Readable(pages, pid) then (InvalidPid, cursor0)
    else
      var loc := LeafLocate(pages[pid], searchKey);
      (if loc.0 then OK else NoSuchRecord, IndexCursor(pid, loc.1))
  }

  /**
   * In a one-leaf tree whose keys increase, locate finds the key exactly when
   * the leaf holds it, at its index; otherwise the cursor is at the first
   * larger key, or past the end.
   */
  lemma LocateInLeaf(pages: Store, rootPid: int, searchKey: int, cursor0: IndexCursor)
    requires WellFormedStore(pages) && Readable(pages, rootPid)
    requires StrictlyIncreasing(LeafKeys(pages[rootPid]))
    ensures var r := LocateSpec(pages, rootPid, 1, searchKey, cursor0);
            var ks := LeafKeys(pages[rootPid]);
      && r.1.pid == rootPid && 0 <= r.1.eid <= |ks|
      && (r.0 == OK <==> searchKey in ks)
      && (r.0 == OK ==> ks[r.1.eid] == searchKey)
      && (r.0 != OK ==> r.0 == NoSuchRecord && forall j :: 0 <= j < |ks| ==> (j < r.1.eid <==> ks[j] < searchKey))
  {
    LeafLocateSorted(pages[rootPid], searchKey);
  }

  /**
   * In a two-level tree whose root routes below its one separator `k` to
   * `left` and the rest to `right`, locate searches the leaf the key belongs
   * to.
   */
  lemma LocateTwoLevels(pages: Store, rootPid: int, searchKey: int, cursor0: IndexCursor)
    requires WellFormedStore(pages) && Readable(pages, rootPid)
    requires Count(pages[rootPid]) == 1
    ensures var root := pages[rootPid];
            var leaf := if searchKey < root[1] then root[0] else root[2];
      LocateSpec(pages, rootPid, 2, searchKey, cursor0)
      == if !Readable(pages, leaf) then (InvalidPid, cursor0)
         else (if LeafLocate(pages[leaf], searchKey).0 then OK else NoSuchRecord,
               IndexCursor(leaf, LeafLocate(pages[leaf], searchKey).1))
  {
    var root := pages[rootPid];
    ZeroPageIsEmpty();
    ChildPtrRouting(root, searchKey);
    assert NodeKeys(root) == [root[1]];
    assert Descend(pages, ZeroPage(), rootPid, 1, searchKey).0 == ChildPtr(root, searchKey);
  }

  // ---------------------------------------------------------------------
  // readForward

  /**
   * BTreeIndex::readForward: the entry at the cursor (slot `eid` may be the
   * one just past the last entry; beyond that `key0` and `rid0`, the caller's
   * variables, stay) and the cursor moved on by one entry, to the next leaf
   * when the slot is the last one or beyond.
   */
  function ReadForwardSpec(pages: Store, cursor: IndexCursor, key0: int, rid0: RecordId)
    : (RC, IndexCursor, int, RecordId)
    requires WellFormedStore(pages) && cursor.eid >= 0
  {
    if !Readable(pages, cursor.pid) then (InvalidCursor, cursor, key0, rid0)
    else
      var p := pages[cursor.pid];
      var e := if cursor.eid <= Count(p) then EntryAt(p, cursor.eid) else LeafEntry(key0, rid0);
      if cursor.eid < Count(p) then (OK, cursor.(eid := cursor.eid + 1), e.key, e.rid)
      else
        var next := p[NEXT_WORD];
        (if next == 0 then EndOfTree else OK, IndexCursor(next, 0), e.key, e.rid)
  }

  /**
   * A cursor on a page that does not exist is invalid and stays; one on an
   * entry of a leaf reads that entry and moves to the next entry; one at or
   * past the end of a leaf moves to entry 0 of the next leaf, and the end of
   * the tree is reported exactly when the next-leaf word is 0.
   */
  lemma ReadForwardSteps(pages: Store, cursor: IndexCursor, key0: int, rid0: RecordId)
    requires WellFormedStore(pages) && cursor.eid >= 0
    ensures var r := ReadForwardSpec(pages, cursor, key0, rid0);
      && (r.0 == InvalidCursor <==> !Readable(pages, cursor.pid))
      && (!Readable(pages, cursor.pid) ==> r.1 == cursor)
      && (Readable(pages, cursor.pid) && cursor.eid < Count(pages[cursor.pid]) ==>
            && r.0 == OK && r.1 == IndexCursor(cursor.pid, cursor.eid + 1)
            && LeafEntry(r.2, r.3) == LeafEntries(pages[cursor.pid])[cursor.eid])
      && (Readable(pages, cursor.pid) && cursor.eid >= Count(pages[cursor.pid]) ==>
            && r.1 == IndexCursor(pages[cursor.pid][NEXT_WORD], 0)
            && (r.0 == EndOfTree <==> r.1.pid == 0)
            && (r.0 == EndOfTree || r.0 == OK))
  {
  }

  /**
   * Reading forward from the cursor of a successful locate yields the key
   * that was searched for and the next entry's position.
   */
  lemma LocateThenReadForward(pages: Store, rootPid: int, treeHeight: int, searchKey: int,
                              cursor0: IndexCursor, key0: int, rid0: RecordId)
    requires WellFormedStore(pages)
    requires LocateSpec(pages, rootPid, treeHeight, searchKey, cursor0).0 == OK
    ensures var c := LocateSpec(pages, rootPid, treeHeight, searchKey, cursor0).1;
            var r := ReadForwardSpec(pages, c, key0, rid0);
      c.eid >= 0 && r.0 == OK && r.1 == c.(eid := c.eid + 1) && r.2 == searchKey
  {
    var pid := Descend(pages, ZeroPage(), rootPid, InnerLevels(treeHeight), searchKey).0;
    var loc := LeafLocate(pages[pid], searchKey);
    assert LeafKeys(pages[pid])[loc.1] == searchKey;
  }

  // ---------------------------------------------------------------------
  // insert

  /**
   * BTreeIndex::insertHelper at level `level` of a tree of height
   * `treeHeight`, on page `pid`: the code, the page file afterwards, and the
   * out-parameters `retPid` and `siblingKey` (the caller's `retPid0` and
   * `siblingKey0` where they are not assigned).
   *
   * At the leaf level a fresh leaf reads the page (a failed read leaves it
   * empty) and takes the entry; when it is full it splits instead, the
   * sibling goes to the end of the file, its page id is reported and becomes
   * the leaf's next-leaf word, and only then is a refused split's code
   * returned. An accepted entry is followed by writing the leaf back. Above
   * the leaf level a fresh non-leaf reads the page, the descent continues
   * into the child for the key, and the child's results are dropped: a split
   * below is not propagated and the code is always OK.
   */
  function InsertHelperSpec(pages: Store, treeHeight: int, key: int, rid: RecordId, level: int, pid: int,
                            retPid0: int, siblingKey0: int): (RC, Store, int, int)
    requires WellFormedStore(pages) && 1 <= level <= treeHeight
    decreases treeHeight - level
  {
    if level == treeHeight then LeafLevelSpec(pages, key, rid, pid, retPid0, siblingKey0)
    else
      var node := ReadInto(pages, pid, ZeroPage());
      var child := ChildPtr(node, key);
      var below := InsertHelperSpec(pages, treeHeight, key, rid, level + 1, child, child, 0);
      (OK, below.1, retPid0, siblingKey0)
  }

  /** The leaf level of insertHelper. */
  function LeafLevelSpec(pages: Store, key: int, rid: RecordId, pid: int, retPid0: int, siblingKey0: int)
    : (RC, Store, int, int)
    requires WellFormedStore(pages)
  {
    var leaf := ReadInto(pages, pid, ZeroPage());
    var ins := LeafInsertPage(leaf, key, rid);
    if ins.0 == NodeFull then
      var split := LeafSplitPages(leaf, ZeroPage(), key, rid, siblingKey0);
      var retPid := |pages|;
      var pages' := WriteStore(pages, retPid, split.2);
      if split.0 != OK then (split.0, pages', retPid, split.3)
      else (WriteCode(pid), WriteStore(pages', pid, split.1[NEXT_WORD := retPid]), retPid, split.3)
    else if ins.0 != OK then (ins.0, pages, retPid0, siblingKey0)
    else (WriteCode(pid), WriteStore(pages, pid, ins.1), retPid0, siblingKey0)
  }

  /** Every page insertHelper writes is a node page, so the page file stays well formed. */
  lemma {:induction false} InsertHelperKeepsWellFormed(pages: Store, treeHeight: int, key: int, rid: RecordId,
                                                       level: int, pid: int, retPid0: int, siblingKey0: int)
    requires WellFormedStore(pages) && 1 <= level <= treeHeight
    ensures WellFormedStore(InsertHelperSpec(pages, treeHeight, key, rid, level, pid, retPid0, siblingKey0).1)
    decreases treeHeight - level
  {
    if level == treeHeight {
      LeafLevelKeepsWellFormed(pages, key, rid, pid, retPid0, siblingKey0);
    } else {
      ZeroPageIsEmpty();
      var node := ReadInto(pages, pid, ZeroPage());
      var child := ChildPtr(node, key);
      InsertHelperKeepsWellFormed(pages, treeHeight, key, rid, level + 1, child, child, 0);
    }
  }

  lemma LeafLevelKeepsWellFormed(pages: Store, key: int, rid: RecordId, pid: int, retPid0: int, siblingKey0: int)
    requires WellFormedStore(pages)
    ensures WellFormedStore(LeafLevelSpec(pages, key, rid, pid, retPid0, siblingKey0).1)
  {
    ZeroPageIsEmpty();
    var leaf := ReadInto(pages, pid, ZeroPage());
    var ins := LeafInsertPage(leaf, key, rid);
    LeafInsertOutcome(leaf, key, rid);
    if ins.0 == NodeFull {
      var split := LeafSplitPages(leaf, ZeroPage(), key, rid, siblingKey0);
      LeafSplitOutcome(leaf, ZeroPage(), key, rid, siblingKey0);
      WriteKeepsWellFormed(pages, |pages|, split.2);
      var pages' := WriteStore(pages, |pages|, split.2);
      WriteKeepsWellFormed(pages', pid, split.1[NEXT_WORD := |pages|]);
    } else {
      WriteKeepsWellFormed(pages, pid, ins.1);
    }
  }

  /**
   * BTreeIndex::insert. `uninitKey` stands for the value of the uninitialised
   * `siblingKey` variable, which becomes the root's separator when the split
   * below was refused. When insertHelper reported a page other than the
   * root, a new root holding the old root, the sibling key and that page is
   * written at the end of the file and the tree is one level higher.
   */
  function InsertSpec(s: IndexState, key: int, rid: RecordId, uninitKey: int): (r: (RC, IndexState))
    requires WellFormedStore(s.pages) && s.treeHeight >= 1
    ensures WellFormedStore(r.1.pages)
  {
    var h := InsertHelperSpec(s.pages, s.treeHeight, key, rid, 1, s.rootPid, s.rootPid, uninitKey);
    InsertHelperKeepsWellFormed(s.pages, s.treeHeight, key, rid, 1, s.rootPid, s.rootPid, uninitKey);
    if h.2 != s.rootPid then
      var newRoot := |h.1|;
      InitRootOutcome(s.rootPid, h.3, h.2, key);
      WriteKeepsWellFormed(h.1, newRoot, InitRootPage(s.rootPid, h.3, h.2));
      (h.0, s.(pages := WriteStore(h.1, newRoot, InitRootPage(s.rootPid, h.3, h.2)), rootPid := newRoot,
               treeHeight := s.treeHeight + 1))
    else (h.0, s.(pages := h.1))
  }

  /** InsertSpec in terms of the outcome `h` of insertHelper at the root. */
  lemma InsertSpecOf(s: IndexState, key: int, rid: RecordId, uninitKey: int, h: (RC, Store, int, int))
    requires WellFormedStore(s.pages) && s.treeHeight >= 1
    requires h == InsertHelperSpec(s.pages, s.treeHeight, key, rid, 1, s.rootPid, s.rootPid, uninitKey)
    ensures h.2 != s.rootPid ==>
              InsertSpec(s, key, rid, uninitKey)
              == (h.0, s.(pages := WriteStore(h.1, |h.1|, InitRootPage(s.rootPid, h.3, h.2)), rootPid := |h.1|,
                          treeHeight := s.treeHeight + 1))
    ensures h.2 == s.rootPid ==> InsertSpec(s, key, rid, uninitKey) == (h.0, s.(pages := h.1))
  {
  }

  /** Above the leaf level insert always reports OK and never changes the root or the height. */
  lemma InsertTallTree(s: IndexState, key: int, rid: RecordId, uninitKey: int)
    requires WellFormedStore(s.pages) && s.treeHeight >= 2
    ensures var r := InsertSpec(s, key, rid, uninitKey);
      r.0 == OK && r.1.rootPid == s.rootPid && r.1.treeHeight == s.treeHeight && r.1.mode == s.mode
  {
  }

  /**
   * In a one-leaf tree whose leaf has room, insert adds the entry where
   * locate places it, or refuses a key already present with nothing changed;
   * the root and the height stay.
   */
  lemma InsertIntoRoomyLeaf(s: IndexState, key: int, rid: RecordId, uninitKey: int)
    requires WellFormedStore(s.pages) && s.treeHeight == 1 && Readable(s.pages, s.rootPid)
    requires Count(s.pages[s.rootPid]) < MAX_KEYS
    ensures var r := InsertSpec(s, key, rid, uninitKey);
            var leaf := s.pages[s.rootPid];
      && r.1.rootPid == s.rootPid && r.1.treeHeight == 1
      && (LeafLocate(leaf, key).0 ==> r == (DuplicateKey, s))
      && (!LeafLocate(leaf, key).0 ==>
            && r.0 == OK
            && r.1.pages == s.pages[s.rootPid := r.1.pages[s.rootPid]]
            && LeafEntries(r.1.pages[s.rootPid])
               == InsertAt(LeafEntries(leaf), LeafLocate(leaf, key).1, LeafEntry(key, rid)))
  {
    LeafInsertOutcome(s.pages[s.rootPid], key, rid);
  }

  /**
   * In a one-leaf tree whose leaf is full, insert splits the leaf and grows
   * the tree: the sibling is written at the old end of the file E, the new
   * root at E + 1 with the old root, the sibling key and E, and the height
   * becomes 2. On an accepted split the old leaf keeps the lower half and
   * points to the sibling, which holds the upper half and whose first key
   * is the separator; on a refused split (the key is present) the code is
   * the split's and the separator is the uninitialised value.
   */
  lemma InsertIntoFullLeaf(s: IndexState, key: int, rid: RecordId, uninitKey: int)
    requires WellFormedStore(s.pages) && s.treeHeight == 1 && Readable(s.pages, s.rootPid)
    requires Count(s.pages[s.rootPid]) == MAX_KEYS
    ensures var r := InsertSpec(s, key, rid, uninitKey);
            var leaf := s.pages[s.rootPid];
            var e := |s.pages|;
            var ext := InsertAt(LeafEntries(leaf), LeafLocate(leaf, key).1, LeafEntry(key, rid));
            var keep := (MAX_KEYS + 2) / 2;
      && r.1.rootPid == e + 1 && r.1.treeHeight == 2 && |r.1.pages| == e + 2
      && LeafEntries(r.1.pages[e]) == (if LeafLocate(leaf, key).0 then [] else ext[keep..])
      && (LeafLocate(leaf, key).0 ==>
            && r.0 == DuplicateInSplit
            && r.1.pages[s.rootPid] == leaf
            && r.1.pages[e + 1] == InitRootPage(s.rootPid, uninitKey, e))
      && (!LeafLocate(leaf, key).0 ==>
            && r.0 == OK
            && LeafEntries(r.1.pages[s.rootPid]) == ext[..keep]
            && r.1.pages[s.rootPid][NEXT_WORD] == e
            && r.1.pages[e][NEXT_WORD] == leaf[NEXT_WORD - 3]
            && r.1.pages[e + 1] == InitRootPage(s.rootPid, ext[keep].key, e))
  {
    var leaf := s.pages[s.rootPid];
    var e := |s.pages|;
    ZeroPageIsEmpty();
    LeafInsertOutcome(leaf, key, rid);
    LeafSplitOutcome(leaf, ZeroPage(), key, rid, uninitKey);
    var split := LeafSplitPages(leaf, ZeroPage(), key, rid, uninitKey);
    if !LeafLocate(leaf, key).0 {
      var moved := split.1[NEXT_WORD := e];
      assert LeafEntries(moved) == LeafEntries(split.1) by {
        assert forall i :: 0 <= i < Count(moved) ==> EntryAt(moved, i) == EntryAt(split.1, i);
      }
    }
  }

  /**
   * Insert then locate, in a one-leaf tree whose leaf has room: whether the
   * key was added or already there, locate finds it, in the root leaf, at the
   * position locate reported before the insert.
   */
  lemma InsertThenLocate(s: IndexState, key: int, rid: RecordId, uninitKey: int, cursor0: IndexCursor)
    requires WellFormedStore(s.pages) && s.treeHeight == 1 && Readable(s.pages, s.rootPid)
    requires Count(s.pages[s.rootPid]) < MAX_KEYS
    ensures var r := InsertSpec(s, key, rid, uninitKey);
      LocateSpec(r.1.pages, r.1.rootPid, r.1.treeHeight, key, cursor0)
      == (OK, IndexCursor(s.rootPid, LeafLocate(s.pages[s.rootPid], key).1))
  {
    var leaf := s.pages[s.rootPid];
    var r := InsertSpec(s, key, rid, uninitKey);
    InsertIntoRoomyLeaf(s, key, rid, uninitKey);
    if !LeafLocate(leaf, key).0 {
      var e := LeafLocate(leaf, key).1;
      var p := r.1.pages[s.rootPid];
      KeysOfInsert(LeafEntries(leaf), e, LeafEntry(key, rid));
      assert LeafKeys(p) == InsertAt(LeafKeys(leaf), e, key);
      LeafLocateAt(p, key, e);
    }
  }

  /**
   * A two-level tree: the root page separates a left and a right leaf that
   * together hold the increasing keys `ks`, split at `keep`; the separator
   * is the first key of the right leaf.
   */
  predicate SplitTree(pages: Store, rootPid: int, left: int, right: int, ks: seq<int>, keep: nat)
  {
    && WellFormedStore(pages) && Readable(pages, rootPid) && Readable(pages, left) && Readable(pages, right)
    && 0 < keep < |ks| && StrictlyIncreasing(ks)
    && pages[rootPid] == InitRootPage(left, ks[keep], right)
    && LeafKeys(pages[left]) == ks[..keep] && LeafKeys(pages[right]) == ks[keep..]
  }

  /**
   * The one-leaf tree after a split of its full leaf by a new key: left and
   * right leaves, separator, and where the new key sits.
   */
  lemma SplitLeaves(s: IndexState, key: int, rid: RecordId, uninitKey: int)
    requires WellFormedStore(s.pages) && s.treeHeight == 1 && Readable(s.pages, s.rootPid)
    requires Count(s.pages[s.rootPid]) == MAX_KEYS && StrictlyIncreasing(LeafKeys(s.pages[s.rootPid]))
    requires !LeafLocate(s.pages[s.rootPid], key).0
    ensures var r := InsertSpec(s, key, rid, uninitKey);
            var leaf := s.pages[s.rootPid];
            var e := LeafLocate(leaf, key).1;
            var ks := InsertAt(LeafKeys(leaf), e, key);
            var keep := (MAX_KEYS + 2) / 2;
            var E := |s.pages|;
      && r.1.rootPid == E + 1 && r.1.treeHeight == 2 && |r.1.pages| == E + 2
      && |ks| == MAX_KEYS + 1 && ks[e] == key
      && SplitTree(r.1.pages, r.1.rootPid, s.rootPid, E, ks, keep)
  {
    var leaf := s.pages[s.rootPid];
    var e := LeafLocate(leaf, key).1;
    var ext := InsertAt(LeafEntries(leaf), e, LeafEntry(key, rid));
    var keep := (MAX_KEYS + 2) / 2;
    var r := InsertSpec(s, key, rid, uninitKey);
    InsertIntoFullLeaf(s, key, rid, uninitKey);
    LeafLocateSorted(leaf, key);
    KeysOfInsert(LeafEntries(leaf), e, LeafEntry(key, rid));
    InsertKeepsIncreasing(LeafKeys(leaf), e, key);
    KeysOfSlices(ext, keep);
  }

  /**
   * Locate in a two-level tree whose root separates a left and a right leaf
   * that together hold the increasing keys `ks`, split at `keep`: key `e` is
   * found in the leaf that holds it.
   */
  lemma LocateInSplitTree(pages: Store, rootPid: int, height: int, left: int, right: int, ks: seq<int>, keep: nat,
                          e: nat, key: int, cursor0: IndexCursor)
    requires SplitTree(pages, rootPid, left, right, ks, keep)
    requires e < |ks| && ks[e] == key && height == 2
    ensures LocateSpec(pages, rootPid, height, key, cursor0)
      == (OK, if e < keep then IndexCursor(left, e) else IndexCursor(right, e - keep))
  {
    InitRootOutcome(left, ks[keep], right, key);
    LocateTwoLevels(pages, rootPid, key, cursor0);
    if e < keep {
      assert key < ks[keep];
      LeafLocateAt(pages[left], key, e);
    } else {
      assert ks[keep] <= key;
      assert LeafKeys(pages[right])[e - keep] == key;
      LeafLocateAt(pages[right], key, e - keep);
    }
  }

  /**
   * Insert then locate, in a one-leaf tree whose full leaf does not hold the
   * key: the tree is now two levels high and locate finds the key, in the
   * left leaf (the old root page) at its position when that is among the
   * lower half, and otherwise in the new right leaf at the end of the old
   * file, shifted by the size of the lower half.
   */
  lemma InsertSplitThenLocate(s: IndexState, key: int, rid: RecordId, uninitKey: int, cursor0: IndexCursor)
    requires WellFormedStore(s.pages) && s.treeHeight == 1 && Readable(s.pages, s.rootPid)
    requires Count(s.pages[s.rootPid]) == MAX_KEYS && StrictlyIncreasing(LeafKeys(s.pages[s.rootPid]))
    requires !LeafLocate(s.pages[s.rootPid], key).0
    ensures var r := InsertSpec(s, key, rid, uninitKey);
            var e := LeafLocate(s.pages[s.rootPid], key).1;
            var keep := (MAX_KEYS + 2) / 2;
      && r.1.treeHeight == 2
      && LocateSpec(r.1.pages, r.1.rootPid, r.1.treeHeight, key, cursor0)
         == (OK, if e < keep then IndexCursor(s.rootPid, e) else IndexCursor(|s.pages|, e - keep))
  {
    var leaf := s.pages[s.rootPid];
    var e := LeafLocate(leaf, key).1;
    var ks := InsertAt(LeafKeys(leaf), e, key);
    var keep := (MAX_KEYS + 2) / 2;
    var E := |s.pages|;
    var t := InsertSpec(s, key, rid, uninitKey).1;
    assert SplitTree(t.pages, t.rootPid, s.rootPid, E, ks, keep) && ks[e] == key && t.treeHeight == 2 by {
      SplitLeaves(s, key, rid, uninitKey);
    }
    LocateInSplitTree(t.pages, t.rootPid, t.treeHeight, s.rootPid, E, ks, keep, e, key, cursor0);
  }

  // ---------------------------------------------------------------------
  // insert at any height

  /**
   * The page insertHelper reaches from page `pid` after `steps` non-leaf
   * levels: each level reads its page into a fresh node (a missing page
   * reads as an empty one) and follows the child for `key`.
   */
  function HelperLeaf(pages: Store, pid: int, steps: nat, key: int): int
    requires WellFormedStore(pages)
    decreases steps
  {
    if steps == 0 then pid
    else HelperLeaf(pages, ChildPtr(ReadInto(pages, pid, ZeroPage()), key), steps - 1, key)
  }

  /** The `steps` non-leaf pages on the way down from `pid` for `key` all exist, and none of them is page `q`. */
  predicate RouteAvoids(pages: Store, pid: int, steps: nat, key: int, q: int)
    requires WellFormedStore(pages)
    decreases steps
  {
    steps == 0 || (Readable(pages, pid) && pid != q && RouteAvoids(pages, ChildPtr(pages[pid], key), steps - 1, key, q))
  }

  /**
   * Above the leaf level, insertHelper does its work in the leaf HelperLeaf
   * reaches: the code is OK, the out-parameters keep the caller's values,
   * and the pages are those the leaf step leaves on that leaf (called with
   * the leaf as retPid and 0 as siblingKey).
   */
  lemma {:induction false} InsertHelperReachesLeaf(pages: Store, treeHeight: int, key: int, rid: RecordId,
                                                   level: int, pid: int, retPid0: int, siblingKey0: int, leaf: int)
    requires WellFormedStore(pages) && 1 <= level < treeHeight
    requires leaf == HelperLeaf(pages, pid, treeHeight - level, key)
    ensures InsertHelperSpec(pages, treeHeight, key, rid, level, pid, retPid0, siblingKey0)
            == (OK, LeafLevelSpec(pages, key, rid, leaf, leaf, 0).1, retPid0, siblingKey0)
    decreases treeHeight - level
  {
    ZeroPageIsEmpty();
    var child := ChildPtr(ReadInto(pages, pid, ZeroPage()), key);
    assert leaf == HelperLeaf(pages, child, treeHeight - level - 1, key);
    var below := InsertHelperSpec(pages, treeHeight, key, rid, level + 1, child, child, 0);
    assert InsertHelperSpec(pages, treeHeight, key, rid, level, pid, retPid0, siblingKey0)
           == (OK, below.1, retPid0, siblingKey0);
    if level + 1 < treeHeight {
      InsertHelperReachesLeaf(pages, treeHeight, key, rid, level + 1, child, child, 0, leaf);
    }
    assert below.1 == LeafLevelSpec(pages, key, rid, leaf, leaf, 0).1;
  }

  /** Locate's descent takes its first step at `pid` when that page exists. */
  lemma {:induction false} DescendFirst(pages: Store, buf: seq<int>, pid: int, steps: nat, key: int)
    requires WellFormedStore(pages) && NodePage(buf) && Readable(pages, pid) && steps >= 1
    ensures Descend(pages, buf, pid, steps, key) == Descend(pages, pages[pid], ChildPtr(pages[pid], key), steps - 1, key)
    decreases steps
  {
    if steps > 1 {
      DescendFirst(pages, buf, pid, steps - 1, key);
    }
  }

  /**
   * On a route whose pages exist, locate's descent, which reuses one buffer,
   * reaches the page insertHelper's descent, which reads into fresh nodes,
   * reaches.
   */
  lemma {:induction false} DescendAgrees(pages: Store, buf: seq<int>, pid: int, steps: nat, key: int, q: int)
    requires WellFormedStore(pages) && NodePage(buf) && RouteAvoids(pages, pid, steps, key, q)
    ensures Descend(pages, buf, pid, steps, key).0 == HelperLeaf(pages, pid, steps, key)
    decreases steps
  {
    if steps > 0 {
      DescendFirst(pages, buf, pid, steps, key);
      DescendAgrees(pages, pages[pid], ChildPtr(pages[pid], key), steps - 1, key, q);
    }
  }

  /** Rewriting page `q` keeps a route that avoids it, and the leaf it reaches. */
  lemma {:induction false} RouteKept(pages: Store, pid: int, steps: nat, key: int, q: int, page: seq<int>)
    requires WellFormedStore(pages) && 0 <= q < |pages| && NodePage(page)
    requires RouteAvoids(pages, pid, steps, key, q)
    ensures WellFormedStore(pages[q := page])
    ensures RouteAvoids(pages[q := page], pid, steps, key, q)
    ensures HelperLeaf(pages[q := page], pid, steps, key) == HelperLeaf(pages, pid, steps, key)
    decreases steps
  {
    if steps > 0 {
      RouteKept(pages, ChildPtr(pages[pid], key), steps - 1, key, q, page);
    }
  }

  /**
   * insertHelper's leaf step on an existing leaf with room: a key already
   * there is refused with nothing changed; otherwise the entry goes in where
   * locate places it, only that page is rewritten, and no sibling is
   * reported.
   */
  lemma LeafLevelRoomy(pages: Store, key: int, rid: RecordId, pid: int, retPid0: int, siblingKey0: int)
    requires WellFormedStore(pages) && Readable(pages, pid) && Count(pages[pid]) < MAX_KEYS
    ensures var r := LeafLevelSpec(pages, key, rid, pid, retPid0, siblingKey0);
            var leaf := pages[pid];
      && (LeafLocate(leaf, key).0 ==> r == (DuplicateKey, pages, retPid0, siblingKey0))
      && (!LeafLocate(leaf, key).0 ==>
            && r.0 == OK && r.2 == retPid0 && r.3 == siblingKey0
            && r.1 == pages[pid := LeafInsertPage(leaf, key, rid).1]
            && LeafEntries(r.1[pid]) == InsertAt(LeafEntries(leaf), LeafLocate(leaf, key).1, LeafEntry(key, rid)))
  {
    LeafInsertOutcome(pages[pid], key, rid);
  }

  /**
   * insertHelper's leaf step on an existing full leaf: the sibling is written
   * at the old end of the file E and reported as retPid, and no other page
   * but the leaf changes. An accepted split leaves the lower half in the
   * leaf, now pointing to E, and the upper half in the sibling, whose first
   * key is reported; a present key gives the split's -1 with the leaf
   * unchanged, yet the empty sibling is still written and reported.
   */
  lemma LeafLevelFull(pages: Store, key: int, rid: RecordId, pid: int, retPid0: int, siblingKey0: int)
    requires WellFormedStore(pages) && Readable(pages, pid) && Count(pages[pid]) == MAX_KEYS
    ensures var r := LeafLevelSpec(pages, key, rid, pid, retPid0, siblingKey0);
            var leaf := pages[pid];
            var e := |pages|;
            var ext := InsertAt(LeafEntries(leaf), LeafLocate(leaf, key).1, LeafEntry(key, rid));
            var keep := (MAX_KEYS + 2) / 2;
      && WellFormedStore(r.1) && r.2 == e && |r.1| == e + 1
      && (forall q :: 0 <= q < e && q != pid ==> r.1[q] == pages[q])
      && LeafEntries(r.1[e]) == (if LeafLocate(leaf, key).0 then [] else ext[keep..])
      && (LeafLocate(leaf, key).0 ==> r.0 == DuplicateInSplit && r.1[pid] == leaf && r.3 == siblingKey0)
      && (!LeafLocate(leaf, key).0 ==>
            && r.0 == OK
            && LeafEntries(r.1[pid]) == ext[..keep]
            && r.1[pid][NEXT_WORD] == e
            && r.1[e][NEXT_WORD] == leaf[NEXT_WORD - 3]
            && r.3 == ext[keep].key)
  {
    var leaf := pages[pid];
    LeafLevelKeepsWellFormed(pages, key, rid, pid, retPid0, siblingKey0);
    ZeroPageIsEmpty();
    LeafInsertOutcome(leaf, key, rid);
    LeafSplitOutcome(leaf, ZeroPage(), key, rid, siblingKey0);
    var split := LeafSplitPages(leaf, ZeroPage(), key, rid, siblingKey0);
    if !LeafLocate(leaf, key).0 {
      var moved := split.1[NEXT_WORD := |pages|];
      assert LeafEntries(moved) == LeafEntries(split.1) by {
        assert forall i :: 0 <= i < Count(moved) ==> EntryAt(moved, i) == EntryAt(split.1, i);
      }
    }
  }

  /**
   * In a tree of height 2 or more, insert reports OK, keeps the root and the
   * height, and leaves the pages of the leaf step on the leaf `p`
   * insertHelper reaches.
   */
  lemma InsertTallTreeAtLeaf(s: IndexState, key: int, rid: RecordId, uninitKey: int, p: int)
    requires WellFormedStore(s.pages) && s.treeHeight >= 2
    requires p == HelperLeaf(s.pages, s.rootPid, s.treeHeight - 1, key)
    ensures InsertSpec(s, key, rid, uninitKey) == (OK, s.(pages := LeafLevelSpec(s.pages, key, rid, p, p, 0).1))
  {
    var h := InsertHelperSpec(s.pages, s.treeHeight, key, rid, 1, s.rootPid, s.rootPid, uninitKey);
    var pages := LeafLevelSpec(s.pages, key, rid, p, p, 0).1;
    InsertHelperReachesLeaf(s.pages, s.treeHeight, key, rid, 1, s.rootPid, s.rootPid, uninitKey, p);
    InsertSpecOf(s, key, rid, uninitKey, h);
  }

  /**
   * Insert into a tree of any height, when the leaf `p` insertHelper reaches
   * exists and has room: a new key goes into that leaf where locate places
   * it and nothing else changes; a key already there changes nothing, and is
   * reported as DuplicateKey only when that leaf is the root, as OK when the
   * tree is taller.
   */
  lemma InsertIntoRoomyLeafAnyHeight(s: IndexState, key: int, rid: RecordId, uninitKey: int, p: int)
    requires WellFormedStore(s.pages) && s.treeHeight >= 1
    requires p == HelperLeaf(s.pages, s.rootPid, s.treeHeight - 1, key)
    requires Readable(s.pages, p) && Count(s.pages[p]) < MAX_KEYS
    ensures var r := InsertSpec(s, key, rid, uninitKey);
      && (LeafLocate(s.pages[p], key).0 ==> r == (if s.treeHeight == 1 then DuplicateKey else OK, s))
      && (!LeafLocate(s.pages[p], key).0 ==> r == (OK, s.(pages := s.pages[p := LeafInsertPage(s.pages[p], key, rid).1])))
  {
    if s.treeHeight == 1 {
      var h := LeafLevelSpec(s.pages, key, rid, p, s.rootPid, uninitKey);
      LeafLevelRoomy(s.pages, key, rid, p, s.rootPid, uninitKey);
      InsertSpecOf(s, key, rid, uninitKey, h);
    } else {
      InsertTallTreeAtLeaf(s, key, rid, uninitKey, p);
      LeafLevelRoomy(s.pages, key, rid, p, p, 0);
    }
  }

  /**
   * Insert into a full leaf `p` of a tree of height 2 or more: the leaf
   * splits and the sibling is appended at the old end of the file E, but
   * the split is not passed up, so no parent points to E; the code is OK even
   * for a key already present, and the root and the height stay.
   */
  lemma InsertIntoFullLeafTallTree(s: IndexState, key: int, rid: RecordId, uninitKey: int, p: int)
    requires WellFormedStore(s.pages) && s.treeHeight >= 2
    requires p == HelperLeaf(s.pages, s.rootPid, s.treeHeight - 1, key)
    requires Readable(s.pages, p) && Count(s.pages[p]) == MAX_KEYS
    ensures var leaf := s.pages[p];
            var r := InsertSpec(s, key, rid, uninitKey);
            var e := |s.pages|;
            var ext := InsertAt(LeafEntries(leaf), LeafLocate(leaf, key).1, LeafEntry(key, rid));
            var keep := (MAX_KEYS + 2) / 2;
      && r.0 == OK && r.1.rootPid == s.rootPid && r.1.treeHeight == s.treeHeight
      && |r.1.pages| == e + 1
      && (forall q :: 0 <= q < e && q != p ==> r.1.pages[q] == s.pages[q])
      && LeafEntries(r.1.pages[e]) == (if LeafLocate(leaf, key).0 then [] else ext[keep..])
      && (LeafLocate(leaf, key).0 ==> r.1.pages[p] == leaf)
      && (!LeafLocate(leaf, key).0 ==> LeafEntries(r.1.pages[p]) == ext[..keep] && r.1.pages[p][NEXT_WORD] == e)
  {
    InsertTallTreeAtLeaf(s, key, rid, uninitKey, p);
    LeafLevelFull(s.pages, key, rid, p, p, 0);
  }

  /**
   * Insert then locate, at any height: when the leaf `p` insertHelper
   * reaches has room and the pages on the way down exist and are not that
   * leaf, locate afterwards finds the key in that leaf, at the position
   * locate reports for it before the insert.
   */
  lemma InsertThenLocateAnyHeight(s: IndexState, key: int, rid: RecordId, uninitKey: int, cursor0: IndexCursor, p: int)
    requires WellFormedStore(s.pages) && s.treeHeight >= 1
    requires p == HelperLeaf(s.pages, s.rootPid, s.treeHeight - 1, key)
    requires Readable(s.pages, p) && Count(s.pages[p]) < MAX_KEYS
    requires RouteAvoids(s.pages, s.rootPid, s.treeHeight - 1, key, p)
    ensures var r := InsertSpec(s, key, rid, uninitKey);
      LocateSpec(r.1.pages, r.1.rootPid, r.1.treeHeight, key, cursor0)
      == (OK, IndexCursor(p, LeafLocate(s.pages[p], key).1))
  {
    var steps := s.treeHeight - 1;
    var leaf := s.pages[p];
    ZeroPageIsEmpty();
    InsertIntoRoomyLeafAnyHeight(s, key, rid, uninitKey, p);
    LeafInsertOutcome(leaf, key, rid);
    assert InnerLevels(s.treeHeight) == steps;
    if LeafLocate(leaf, key).0 {
      DescendAgrees(s.pages, ZeroPage(), s.rootPid, steps, key, p);
    } else {
      var page := LeafInsertPage(leaf, key, rid).1;
      var pages := s.pages[p := page];
      RouteKept(s.pages, s.rootPid, steps, key, p, page);
      DescendAgrees(pages, ZeroPage(), s.rootPid, steps, key, p);
      var e := LeafLocate(leaf, key).1;
      KeysOfInsert(LeafEntries(leaf), e, LeafEntry(key, rid));
      assert LeafKeys(page) == InsertAt(LeafKeys(leaf), e, key);
      LeafLocateAt(page, key, e);
    }
  }

  /**
   * The leaf step as insertHelper's own comment describes it (retPid and
   * siblingKey change exactly when the leaf takes the entry and splits): a
   * key already in the leaf is refused with DuplicateKey before any split,
   * and nothing changes.
   */
  function LeafLevelIntended(pages: Store, key: int, rid: RecordId, pid: int, retPid0: int, siblingKey0: int)
    : (RC, Store, int, int)
    requires WellFormedStore(pages)
  {
    if LeafLocate(ReadInto(pages, pid, ZeroPage()), key).0 then (DuplicateKey, pages, retPid0, siblingKey0)
    else LeafLevelSpec(pages, key, rid, pid, retPid0, siblingKey0)
  }

  /**
   * As written, a key already in a full leaf is not refused before the
   * split: the code is -1, yet an empty sibling is appended to the file and
   * reported as retPid, so insert then grows the tree over it.
   */
  lemma LeafLevelDuplicateGrows(pages: Store, key: int, rid: RecordId, pid: int, retPid0: int, siblingKey0: int)
    requires WellFormedStore(pages) && Readable(pages, pid) && Count(pages[pid]) == MAX_KEYS
    requires LeafLocate(pages[pid], key).0
    ensures var r := LeafLevelSpec(pages, key, rid, pid, retPid0, siblingKey0);
      && r.0 == DuplicateInSplit && r.1 != pages && |r.1| == |pages| + 1
      && r.2 == |pages| && LeafEntries(r.1[|pages|]) == []
  {
    LeafLevelFull(pages, key, rid, pid, retPid0, siblingKey0);
  }

  /**
   * The intended leaf step refuses exactly the keys already present, with
   * DuplicateKey; any code other than OK leaves the pages and both
   * out-parameters as they were; and for a key not present it is the leaf
   * step as written.
   */
  lemma LeafLevelIntendedOutcome(pages: Store, key: int, rid: RecordId, pid: int, retPid0: int, siblingKey0: int)
    requires WellFormedStore(pages)
    ensures var r := LeafLevelIntended(pages, key, rid, pid, retPid0, siblingKey0);
      && (r.0 == DuplicateKey <==> LeafLocate(ReadInto(pages, pid, ZeroPage()), key).0)
      && (r.0 != OK ==> r.1 == pages && r.2 == retPid0 && r.3 == siblingKey0)
      && (!LeafLocate(ReadInto(pages, pid, ZeroPage()), key).0 ==>
            r == LeafLevelSpec(pages, key, rid, pid, retPid0, siblingKey0))
  {
    ZeroPageIsEmpty();
    var leaf := ReadInto(pages, pid, ZeroPage());
    LeafInsertOutcome(leaf, key, rid);
    if !LeafLocate(leaf, key).0 && Count(leaf) == MAX_KEYS {
      LeafSplitOutcome(leaf, ZeroPage(), key, rid, siblingKey0);
      assert Readable(pages, pid);
    }
  }

  // ---------------------------------------------------------------------
  // The index

  class BTreeIndex {
    var rootPid: int
    var treeHeight: int
    var mode: char
    const pf: PageFile

    /** Every page of the index file is a node page (the metadata page included). */
    predicate Valid()
      reads this, pf
    {
      pf.Valid() && WellFormedStore(pf.pages)
    }

    function State(): IndexState
      reads this, pf
    {
      IndexState(pf.pages, rootPid, treeHeight, mode)
    }

    /** BTreeIndex::BTreeIndex: no root and no height yet, over a page file with no pages. */
    constructor()
      ensures Valid() && fresh(pf)
      ensures rootPid == -1 && treeHeight == -1 && pf.pages == []
    {
      rootPid := -1;
      treeHeight := -1;
      pf := new PageFile();
    }

    function GetRootPid(): int
      reads this
    {
      rootPid
    }

    function GetTreeHeight(): int
      reads this
    {
      treeHeight
    }

    /** Reads the metadata page into the root page id and the tree height. */
    method LoadMetadata()
      requires Valid() && |pf.pages| > 0
      modifies this
      ensures rootPid == pf.pages[0][0] && treeHeight == pf.pages[0][1] && mode == old(mode)
    {
      var buffer := new int[PAGE_WORDS];
      var _ := pf.Read(0, buffer);
      rootPid := buffer[0];
      treeHeight := buffer[1];
    }

    /** BTreeIndex::open: `file` is what the file holds and `canOpen` whether it opens. */
    method Open(file: Store, canOpen: bool, m: char) returns (rc: RC)
      requires Valid() && WellFormedStore(file)
      modifies this, pf
      ensures Valid()
      ensures (rc, State()) == OpenSpec(old(State()), file, canOpen, m)
    {
      if m == 'r' {
        mode := m;
        var r := pf.Open(file, canOpen);
        if r != OK {
          return FileOpenFailed;
        }
        if pf.EndPid() == 0 {
          return FileOpenFailed;
        }
        LoadMetadata();
        rc := OK;
      } else if m == 'w' {
        mode := m;
        var r := pf.Open(file, canOpen);
        if r != OK {
          return FileOpenFailed;
        }
        if pf.EndPid() == 0 {
          var buffer := new int[PAGE_WORDS](_ => 0);
          buffer[0] := 1;
          buffer[1] := 1;
          assert buffer[..] == MetaPage(1, 1);
          var _ := pf.Write(0, buffer);
          treeHeight := 1;
          rootPid := 1;
          forall j | 0 <= j < PAGE_WORDS {
            buffer[j] := 0;
          }
          assert buffer[..] == ZeroPage();
          var _ := pf.Write(1, buffer);
          ZeroPageIsEmpty();
          WriteKeepsWellFormed(WriteStore([], 0, MetaPage(1, 1)), 1, ZeroPage());
        } else {
          LoadMetadata();
        }
        rc := OK;
      } else {
        rc := InvalidFileMode;
      }
    }

    /** BTreeIndex::close: `canClose` is whether the page file closes. */
    method Close(canClose: bool) returns (rc: RC)
      requires Valid()
      modifies this, pf
      ensures Valid()
      ensures (rc, State()) == CloseSpec(old(State()), canClose)
    {
      var buffer := new int[PAGE_WORDS](_ => 0);
      buffer[0] := rootPid;
      buffer[1] := treeHeight;
      assert buffer[..] == MetaPage(rootPid, treeHeight);
      WriteKeepsWellFormed(pf.pages, 0, buffer[..]);
      var _ := pf.Write(0, buffer);
      var r := pf.Close(canClose);
      if r != OK {
        return FileCloseFailed;
      }
      rootPid := -1;
      treeHeight := 0;
      rc := OK;
    }

    /**
     * BTreeIndex::insert. `uninitKey` stands for the value the uninitialised
     * `siblingKey` holds. The height must be at least 1: below that the
     * recursion of insertHelper never reaches the leaf level.
     */
    method Insert(key: int, rid: RecordId, uninitKey: int) returns (rc: RC)
      requires Valid() && treeHeight >= 1
      modifies this, pf
      ensures Valid()
      ensures (rc, State()) == InsertSpec(old(State()), key, rid, uninitKey)
    {
      ghost var s := State();
      var node := new BTNonLeafNode();
      var oldRoot := GetRootPid();
      var siblingPid := oldRoot;
      var siblingKey := uninitKey;
      rc, siblingPid, siblingKey := InsertHelper(key, rid, 1, oldRoot, siblingPid, siblingKey);
      InsertSpecOf(s, key, rid, uninitKey, (rc, pf.pages, siblingPid, siblingKey));
      if siblingPid != oldRoot {
        GrowRoot(node, oldRoot, siblingKey, siblingPid);
      }
    }

    /** The new-root branch of BTreeIndex::insert: a root over the old root and its new sibling, at the end of the file. */
    method GrowRoot(node: BTNonLeafNode, oldRoot: int, siblingKey: int, siblingPid: int)
      requires pf.Valid() && node.Valid()
      modifies this, pf, node.buffer
      ensures pf.Valid() && mode == old(mode)
      ensures rootPid == |old(pf.pages)| && treeHeight == old(treeHeight) + 1
      ensures pf.pages == WriteStore(old(pf.pages), |old(pf.pages)|, InitRootPage(oldRoot, siblingKey, siblingPid))
    {
      rootPid := pf.EndPid();
      treeHeight := treeHeight + 1;
      var _ := node.InitializeRoot(oldRoot, siblingKey, siblingPid);
      var _ := node.Write(rootPid, pf);
    }

    /**
     * BTreeIndex::insertHelper on page `pid` at level `treeLevel`;
     * `retPid0` and `siblingKey0` are what the caller's variables held.
     */
    method InsertHelper(key: int, rid: RecordId, treeLevel: int, pid: int, retPid0: int, siblingKey0: int)
      returns (rc: RC, retPid: int, siblingKey: int)
      requires Valid() && 1 <= treeLevel <= treeHeight
      modifies pf
      ensures Valid()
      ensures (rc, pf.pages, retPid, siblingKey)
              == InsertHelperSpec(old(pf.pages), treeHeight, key, rid, treeLevel, pid, retPid0, siblingKey0)
      decreases treeHeight - treeLevel
    {
      if treeLevel == GetTreeHeight() {
        rc, retPid, siblingKey := InsertIntoLeaf(key, rid, pid, retPid0, siblingKey0);
      } else {
        ZeroPageIsEmpty();
        var nonLeafNode := new BTNonLeafNode();
        var _ := nonLeafNode.Read(pid, pf);
        var _, childPid := nonLeafNode.LocateChildPtr(key);
        var childSiblingPid := childPid;
        var _, _, _ := InsertHelper(key, rid, treeLevel + 1, childPid, childSiblingPid, 0);
        retPid, siblingKey := retPid0, siblingKey0;
        rc := OK;
      }
    }

    /** The leaf level of insertHelper: the leaf branch of BTreeIndex::insertHelper. */
    method InsertIntoLeaf(key: int, rid: RecordId, pid: int, retPid0: int, siblingKey0: int)
      returns (rc: RC, retPid: int, siblingKey: int)
      requires Valid()
      modifies pf
      ensures Valid()
      ensures (rc, pf.pages, retPid, siblingKey) == LeafLevelSpec(old(pf.pages), key, rid, pid, retPid0, siblingKey0)
    {
      ghost var pages := pf.pages;
      LeafLevelKeepsWellFormed(pages, key, rid, pid, retPid0, siblingKey0);
      ZeroPageIsEmpty();
      var leafNode := new BTLeafNode();
      var siblingLeaf := new BTLeafNode();
      retPid, siblingKey := retPid0, siblingKey0;
      var _ := leafNode.Read(pid, pf);
      rc := leafNode.Insert(key, rid);
      if rc == NodeFull {
        rc, siblingKey := leafNode.InsertAndSplit(key, rid, siblingLeaf, siblingKey);
        retPid := pf.EndPid();
        var _ := leafNode.SetNextNodePtr(retPid);
        var _ := siblingLeaf.Write(retPid, pf);
      }
      if rc != OK {
        return;
      }
      rc := leafNode.Write(pid, pf);
      if rc != OK {
        return;
      }
      rc := OK;
    }

    /** One level of the descent of BTreeIndex::locate: read page `pid` into `node` and pick the child for `searchKey`. */
    method DescendOne(node: BTNonLeafNode, pid: int, searchKey: int) returns (child: int)
      requires Valid() && node.Valid() && NodePage(node.Page())
      modifies node.buffer
      ensures node.Page() == ReadInto(pf.pages, pid, old(node.Page()))
      ensures child == ChildPtr(node.Page(), searchKey)
    {
      var _ := node.Read(pid, pf);
      var _, c := node.LocateChildPtr(searchKey);
      child := c;
    }

    /** The descent of BTreeIndex::locate through the non-leaf levels, reusing one node buffer. */
    method DescendLevels(searchKey: int) returns (pid: int)
      requires Valid()
      ensures pid == Descend(pf.pages, ZeroPage(), rootPid, InnerLevels(treeHeight), searchKey).0
    {
      ghost var pages := pf.pages;
      ghost var levels := InnerLevels(treeHeight);
      ZeroPageIsEmpty();
      var nonLeafNode := new BTNonLeafNode();
      var height := GetTreeHeight();
      var currentLevel := 1;
      pid := GetRootPid();
      ghost var steps: nat := 0;
      while currentLevel < height
        invariant steps == currentLevel - 1 <= levels
        invariant currentLevel < height ==> steps < levels
        invariant nonLeafNode.Valid() && pf.pages == pages
        invariant (pid, nonLeafNode.Page()) == Descend(pages, ZeroPage(), rootPid, steps, searchKey)
        decreases height - currentLevel
      {
        ghost var buf := nonLeafNode.Page();
        DescendNext(pages, rootPid, steps, searchKey, pid, buf, ReadInto(pages, pid, buf));
        pid := DescendOne(nonLeafNode, pid, searchKey);
        currentLevel := currentLevel + 1;
        steps := steps + 1;
      }
      assert steps == levels;
    }

    /** BTreeIndex::locate; `cursor0` is the caller's cursor, which stays when the leaf cannot be read. */
    method Locate(searchKey: int, cursor0: IndexCursor) returns (rc: RC, cursor: IndexCursor)
      requires Valid()
      ensures (rc, cursor) == LocateSpec(pf.pages, rootPid, treeHeight, searchKey, cursor0)
    {
      var pid := DescendLevels(searchKey);
      ZeroPageIsEmpty();
      var leafNode := new BTLeafNode();
      var r := leafNode.Read(pid, pf);
      if r != OK {
        return r, cursor0;
      }
      var found, eid := leafNode.Locate(searchKey);
      cursor := IndexCursor(pid, eid);
      rc := found;
    }

    /**
     * BTreeIndex::readForward; `key0` and `rid0` are the caller's variables,
     * which stay when the slot cannot be read. A negative entry number would
     * read outside the page and is excluded.
     */
    method ReadForward(cursor: IndexCursor, key0: int, rid0: RecordId)
      returns (rc: RC, next: IndexCursor, key: int, rid: RecordId)
      requires Valid() && cursor.eid >= 0
      ensures (rc, next, key, rid) == ReadForwardSpec(pf.pages, cursor, key0, rid0)
    {
      var node := new BTLeafNode();
      var r := node.Read(cursor.pid, pf);
      if r != OK {
        return InvalidCursor, cursor, key0, rid0;
      }
      key, rid := key0, rid0;
      var entry := node.ReadEntry(cursor.eid);
      if entry.Some? {
        key, rid := entry.value.key, entry.value.rid;
      }
      next := cursor;
      if cursor.eid < node.GetKeyCount() {
        next := next.(eid := cursor.eid + 1);
      } else {
        next := IndexCursor(node.GetNextNodePtr(), 0);
        if next.pid == 0 {
          return EndOfTree, next, key, rid;
        }
      }
      rc := OK;
    }
  }
}
