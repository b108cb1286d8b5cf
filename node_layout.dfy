/**
 * Word layout of the two kinds of B+-tree node page, the logical view of each,
 * and the effect of every node operation on a page, stated as functions from
 * the old page to the new one. The classes in module BTreeNode are proved to
 * have exactly these effects; the lemmas here say what the effects mean for
 * the entries, keys and children of the nodes.
 *
 * Leaf page: entry i is (key, rid.pid, rid.sid) at words 3i, 3i+1, 3i+2; word
 * 254 is the next-sibling page id and word 255 the key count.
 * Non-leaf page: child 0 at word 0, key i at word 2i+1 and child i+1 at word
 * 2i+2; word 255 is the key count.
 */
module NodeLayout {
  import opened Bruinbase

  /** MAXIMUM_KEY_COUNT, for both node kinds. 3 * 70 <= 254. */
  const MAX_KEYS: nat := 70
  const COUNT_WORD: nat := 255
  const NEXT_WORD: nat := 254

  /** A page whose key-count word is in range, as every page this index writes is. */
  predicate NodePage(p: seq<int>)
  {
    |p| == PAGE_WORDS && 0 <= p[COUNT_WORD] <= MAX_KEYS
  }

  predicate WellFormedStore(s: Store)
  {
    forall pid :: 0 <= pid < |s| ==> NodePage(s[pid])
  }

  function Count(p: seq<int>): nat
    requires NodePage(p)
  {
    p[COUNT_WORD]
  }

  lemma WriteKeepsWellFormed(s: Store, pid: int, page: seq<int>)
    requires WellFormedStore(s) && NodePage(page)
    ensures WellFormedStore(WriteStore(s, pid, page))
  {
    var s' := WriteStore(s, pid, page);
    forall q | 0 <= q < |s'| ensures NodePage(s'[q]) {
      if q != pid && q >= |s| {
        assert s'[q] == ZeroPage();
      }
    }
  }

  // ---------------------------------------------------------------------
  // Word moves shared by the node operations

  /**
   * The tail shift of an insert: the words from `at` move up by |words|
   * (the last |words| words of the page fall off) and `words` fill the gap.
   */
  function ShiftInsert(p: seq<int>, at: nat, words: seq<int>): (q: seq<int>)
    requires at + |words| <= |p|
    ensures |q| == |p|
    ensures forall j :: 0 <= j < at ==> q[j] == p[j]
    ensures forall j :: at <= j < at + |words| ==> q[j] == words[j - at]
    ensures forall j :: at + |words| <= j < |p| ==> q[j] == p[j - |words|]
  {
    p[..at] + words + p[at .. |p| - |words|]
  }

  /** A block copy of `words` into `p` at word `at`. */
  function Overwrite(p: seq<int>, at: nat, words: seq<int>): (q: seq<int>)
    requires at + |words| <= |p|
    ensures |q| == |p|
    ensures forall j :: 0 <= j < |p| && !(at <= j < at + |words|) ==> q[j] == p[j]
    ensures forall j :: at <= j < at + |words| ==> q[j] == words[j - at]
  {
    p[..at] + words + p[at + |words| ..]
  }

  function InsertAt<T>(s: seq<T>, i: nat, x: T): (r: seq<T>)
    requires i <= |s|
    ensures |r| == |s| + 1
  {
    s[..i] + [x] + s[i..]
  }

  // ---------------------------------------------------------------------
  // Key sequences

  predicate StrictlyIncreasing(ks: seq<int>)
  {
    forall i, j :: 0 <= i < j < |ks| ==> ks[i] < ks[j]
  }

  predicate NonDecreasing(ks: seq<int>)
  {
    forall i, j :: 0 <= i < j < |ks| ==> ks[i] <= ks[j]
  }

  /** Where the leaf scan stops: the first key from `i` on that is not below `key`. */
  function FirstAtLeast(ks: seq<int>, key: int, i: nat): (r: nat)
    requires i <= |ks|
    ensures i <= r <= |ks|
    ensures forall j :: i <= j < r ==> ks[j] < key
    ensures r < |ks| ==> ks[r] >= key
    decreases |ks| - i
  {
    if i == |ks| then i
    else if ks[i] >= key then i
    else FirstAtLeast(ks, key, i + 1)
  }

  /** The scan from `i` stops at `e` when the keys from `i` up to `e` are below `key` and key `e` is not. */
  lemma {:induction false} FirstAtLeastAt(ks: seq<int>, key: int, i: nat, e: nat)
    requires i <= e < |ks| && ks[e] >= key
    requires forall j :: i <= j < e ==> ks[j] < key
    ensures FirstAtLeast(ks, key, i) == e
    decreases e - i
  {
    if i < e {
      FirstAtLeastAt(ks, key, i + 1, e);
    }
  }

  /** Where the non-leaf scan stops: the first key from `i` on that is above `key`. */
  function FirstAbove(ks: seq<int>, key: int, i: nat): (r: nat)
    requires i <= |ks|
    ensures i <= r <= |ks|
    ensures forall j :: i <= j < r ==> ks[j] <= key
    ensures r < |ks| ==> ks[r] > key
    decreases |ks| - i
  {
    if i == |ks| then i
    else if ks[i] > key then i
    else FirstAbove(ks, key, i + 1)
  }

  /** Inserting `key` where every key before is smaller and every key after larger keeps the keys increasing. */
  lemma InsertKeepsIncreasing(ks: seq<int>, i: nat, key: int)
    requires i <= |ks| && StrictlyIncreasing(ks)
    requires forall j :: 0 <= j < i ==> ks[j] < key
    requires forall j :: i <= j < |ks| ==> ks[j] > key
    ensures StrictlyIncreasing(InsertAt(ks, i, key))
  {
    var r := InsertAt(ks, i, key);
    forall a, b | 0 <= a < b < |r| ensures r[a] < r[b] {
      if b < i {
        assert r[a] == ks[a] && r[b] == ks[b];
      } else if b == i {
        assert r[a] == ks[a] && r[b] == key;
      } else if a < i {
        assert r[a] == ks[a] && r[b] == ks[b - 1];
      } else if a == i {
        assert r[a] == key && r[b] == ks[b - 1];
      } else {
        assert r[a] == ks[a - 1] && r[b] == ks[b - 1];
      }
    }
  }

  /** The same for non-decreasing keys (non-leaf separators). */
  lemma InsertKeepsNonDecreasing(ks: seq<int>, i: nat, key: int)
    requires i <= |ks| && NonDecreasing(ks)
    requires forall j :: 0 <= j < i ==> ks[j] <= key
    requires forall j :: i <= j < |ks| ==> ks[j] > key
    ensures NonDecreasing(InsertAt(ks, i, key))
  {
    var r := InsertAt(ks, i, key);
    forall a, b | 0 <= a < b < |r| ensures r[a] <= r[b] {
      if b < i {
        assert r[a] == ks[a] && r[b] == ks[b];
      } else if b == i {
        assert r[a] == ks[a] && r[b] == key;
      } else if a < i {
        assert r[a] == ks[a] && r[b] == ks[b - 1];
      } else if a == i {
        assert r[a] == key && r[b] == ks[b - 1];
      } else {
        assert r[a] == ks[a - 1] && r[b] == ks[b - 1];
      }
    }
  }

  // ---------------------------------------------------------------------
  // Leaf nodes

  datatype LeafEntry = LeafEntry(key: int, rid: RecordId)

  /** The three words of slot `i`, whether or not the slot is in use. */
  function EntryAt(p: seq<int>, i: nat): LeafEntry
    requires |p| == PAGE_WORDS && 3 * i + 2 < PAGE_WORDS
  {
    LeafEntry(p[3 * i], RecordId(p[3 * i + 1], p[3 * i + 2]))
  }

  function LeafEntries(p: seq<int>): (es: seq<LeafEntry>)
    requires NodePage(p)
    ensures |es| == Count(p)
    ensures forall i :: 0 <= i < |es| ==> es[i] == EntryAt(p, i)
  {
    seq(Count(p), i requires 0 <= i < Count(p) => EntryAt(p, i))
  }

  function Keys(es: seq<LeafEntry>): (ks: seq<int>)
    ensures |ks| == |es|
    ensures forall i :: 0 <= i < |es| ==> ks[i] == es[i].key
  {
    seq(|es|, i requires 0 <= i < |es| => es[i].key)
  }

  function LeafKeys(p: seq<int>): seq<int>
    requires NodePage(p)
  {
    Keys(LeafEntries(p))
  }

  lemma KeysOfInsert(es: seq<LeafEntry>, i: nat, e: LeafEntry)
    requires i <= |es|
    ensures Keys(InsertAt(es, i, e)) == InsertAt(Keys(es), i, e.key)
  {
  }

  lemma KeysOfSlices(es: seq<LeafEntry>, k: nat)
    requires k <= |es|
    ensures Keys(es[..k]) == Keys(es)[..k] && Keys(es[k..]) == Keys(es)[k..]
  {
  }

  /** BTLeafNode::locate: (key found, eid) where eid is where the scan stopped. */
  function LeafLocate(p: seq<int>, key: int): (bool, nat)
    requires NodePage(p)
  {
    var ks := LeafKeys(p);
    var e := FirstAtLeast(ks, key, 0);
    (e < |ks| && ks[e] == key, e)
  }

  /** Locate finds a key at `e` when every key before `e` is smaller. */
  lemma LeafLocateAt(p: seq<int>, key: int, e: nat)
    requires NodePage(p) && e < Count(p) && LeafKeys(p)[e] == key
    requires forall j :: 0 <= j < e ==> LeafKeys(p)[j] < key
    ensures LeafLocate(p, key) == (true, e)
  {
    FirstAtLeastAt(LeafKeys(p), key, 0, e);
  }

  /**
   * On a leaf whose keys increase, locate reports a match exactly when the key
   * is present, and eid is then its index; otherwise eid is the number of keys
   * below the search key, which is the first index whose key exceeds it.
   */
  lemma LeafLocateSorted(p: seq<int>, key: int)
    requires NodePage(p) && StrictlyIncreasing(LeafKeys(p))
    ensures LeafLocate(p, key).0 <==> key in LeafKeys(p)
    ensures LeafLocate(p, key).1 <= Count(p)
    ensures LeafLocate(p, key).0 ==> LeafKeys(p)[LeafLocate(p, key).1] == key
    ensures forall j :: 0 <= j < LeafLocate(p, key).1 ==> LeafKeys(p)[j] < key
    ensures !LeafLocate(p, key).0 ==>
              forall j :: LeafLocate(p, key).1 <= j < Count(p) ==> LeafKeys(p)[j] > key
  {
    var ks := LeafKeys(p);
    var e := FirstAtLeast(ks, key, 0);
    if key in ks {
      var j :| 0 <= j < |ks| && ks[j] == key;
      assert e <= j;
    }
    if e < |ks| && ks[e] != key {
      forall j | e <= j < |ks| ensures ks[j] > key {
        if j > e {
          assert ks[e] < ks[j];
        }
      }
    }
  }

  /** After the leaf shift at slot e, slot i of the page holds entry i of the extended entry sequence. */
  lemma LeafShiftSlots(p: seq<int>, e: nat, key: int, rid: RecordId)
    requires NodePage(p) && e <= Count(p)
    ensures forall i :: 0 <= i <= Count(p) ==>
              EntryAt(ShiftInsert(p, 3 * e, [key, rid.pid, rid.sid]), i)
              == InsertAt(LeafEntries(p), e, LeafEntry(key, rid))[i]
  {
    var q := ShiftInsert(p, 3 * e, [key, rid.pid, rid.sid]);
    var ext := InsertAt(LeafEntries(p), e, LeafEntry(key, rid));
    forall i | 0 <= i <= Count(p) ensures EntryAt(q, i) == ext[i] {
      if i < e {
        assert ext[i] == LeafEntries(p)[i] == EntryAt(p, i);
        assert q[3 * i] == p[3 * i] && q[3 * i + 1] == p[3 * i + 1] && q[3 * i + 2] == p[3 * i + 2];
      } else if i == e {
        assert ext[i] == LeafEntry(key, rid);
        assert q[3 * i] == key && q[3 * i + 1] == rid.pid && q[3 * i + 2] == rid.sid;
      } else {
        assert ext[i] == LeafEntries(p)[i - 1] == EntryAt(p, i - 1);
        assert q[3 * i] == p[3 * (i - 1)] && q[3 * i + 1] == p[3 * (i - 1) + 1] && q[3 * i + 2] == p[3 * (i - 1) + 2];
      }
    }
  }

  /** A page's entries are determined by its count and its slots. */
  lemma LeafEntriesFromSlots(r: seq<int>, es: seq<LeafEntry>)
    requires NodePage(r) && |es| == Count(r)
    requires forall i :: 0 <= i < |es| ==> EntryAt(r, i) == es[i]
    ensures LeafEntries(r) == es
  {
  }

  /** BTLeafNode::insert on a page: the code and the new page. */
  function LeafInsertPage(p: seq<int>, key: int, rid: RecordId): (RC, seq<int>)
    requires NodePage(p)
  {
    var n := Count(p);
    if n == MAX_KEYS then (NodeFull, p)
    else
      var loc := LeafLocate(p, key);
      if loc.0 then (DuplicateKey, p)
      else (OK, ShiftInsert(p, 3 * loc.1, [key, rid.pid, rid.sid])[COUNT_WORD := n + 1])
  }

  /**
   * A full leaf refuses the insert, a present key is refused next, and both
   * leave the page as it was. Otherwise the new entry sits at the index locate
   * found, the earlier entries stay, the later ones move up one slot and the
   * count grows by one. The shift also moves word 251 into the next-sibling
   * word 254.
   */
  lemma LeafInsertOutcome(p: seq<int>, key: int, rid: RecordId)
    requires NodePage(p)
    ensures NodePage(LeafInsertPage(p, key, rid).1)
    ensures LeafInsertPage(p, key, rid).0 in {OK, NodeFull, DuplicateKey}
    ensures LeafInsertPage(p, key, rid).0 == NodeFull <==> Count(p) == MAX_KEYS
    ensures LeafInsertPage(p, key, rid).0 == DuplicateKey <==>
              Count(p) < MAX_KEYS && LeafLocate(p, key).0
    ensures LeafInsertPage(p, key, rid).0 != OK ==> LeafInsertPage(p, key, rid).1 == p
    ensures LeafInsertPage(p, key, rid).0 == OK ==>
              && Count(LeafInsertPage(p, key, rid).1) == Count(p) + 1
              && LeafEntries(LeafInsertPage(p, key, rid).1)
                 == InsertAt(LeafEntries(p), LeafLocate(p, key).1, LeafEntry(key, rid))
              && LeafInsertPage(p, key, rid).1[NEXT_WORD] == p[NEXT_WORD - 3]
  {
    var n := Count(p);
    if n < MAX_KEYS && !LeafLocate(p, key).0 {
      var e := LeafLocate(p, key).1;
      var shifted := ShiftInsert(p, 3 * e, [key, rid.pid, rid.sid]);
      var q := shifted[COUNT_WORD := n + 1];
      assert LeafInsertPage(p, key, rid).1 == q;
      LeafShiftSlots(p, e, key, rid);
      var ext := InsertAt(LeafEntries(p), e, LeafEntry(key, rid));
      forall i | 0 <= i < n + 1 ensures EntryAt(q, i) == ext[i] {
        assert EntryAt(q, i) == EntryAt(shifted, i);
      }
      LeafEntriesFromSlots(q, ext);
    }
  }

  /** An accepted insert keeps a leaf's keys strictly increasing. */
  lemma LeafInsertKeepsOrder(p: seq<int>, key: int, rid: RecordId)
    requires NodePage(p) && StrictlyIncreasing(LeafKeys(p))
    ensures NodePage(LeafInsertPage(p, key, rid).1)
    ensures StrictlyIncreasing(LeafKeys(LeafInsertPage(p, key, rid).1))
    ensures LeafInsertPage(p, key, rid).0 == DuplicateKey <==>
              Count(p) < MAX_KEYS && key in LeafKeys(p)
  {
    LeafInsertOutcome(p, key, rid);
    LeafLocateSorted(p, key);
    if LeafInsertPage(p, key, rid).0 == OK {
      var e := LeafLocate(p, key).1;
      KeysOfInsert(LeafEntries(p), e, LeafEntry(key, rid));
      InsertKeepsIncreasing(LeafKeys(p), e, key);
    }
  }

  /** Entries kept by the splitting node: ceil(m / 2) of m. */
  function SplitKeep(m: nat): nat
  {
    if m % 2 != 0 then m / 2 + 1 else m / 2
  }

  /** ceil(m / 2) is the `keep` with m == 2 keep or m == 2 keep - 1. */
  lemma SplitKeepHalf(m: nat, keep: nat)
    requires m == 2 * keep || m + 1 == 2 * keep
    ensures SplitKeep(m) == keep
  {
  }

  /** The sibling page of a leaf split: `s` slots copied from slot `keep` of `q`, then the count and next-sibling words. */
  function LeafSiblingPage(sib: seq<int>, q: seq<int>, keep: nat, s: nat): seq<int>
    requires |sib| == PAGE_WORDS && |q| == PAGE_WORDS && 3 * (keep + s) <= NEXT_WORD
  {
    Overwrite(sib, 0, q[3 * keep .. 3 * keep + 3 * s])[COUNT_WORD := s][NEXT_WORD := q[NEXT_WORD]]
  }

  /**
   * BTLeafNode::insertAndSplit on this page `p` and sibling page `sib`: the
   * code, the new pages of both nodes and the sibling key (the caller's
   * `siblingKey0` where it is not assigned).
   */
  function LeafSplitPages(p: seq<int>, sib: seq<int>, key: int, rid: RecordId, siblingKey0: int)
    : (RC, seq<int>, seq<int>, int)
    requires NodePage(p) && |sib| == PAGE_WORDS
  {
    var n := Count(p);
    var loc := LeafLocate(p, key);
    if loc.0 then (DuplicateInSplit, p, sib, siblingKey0)
    else
      var q := ShiftInsert(p, 3 * loc.1, [key, rid.pid, rid.sid])[COUNT_WORD := n];
      var keep := SplitKeep(n + 1);
      var sib' := LeafSiblingPage(sib, q, keep, n + 1 - keep);
      (OK, q[COUNT_WORD := keep], sib', sib'[0])
  }

  /** LeafSplitPages of an accepted split, in terms of the page `q` after the shift. */
  lemma LeafSplitPagesAccepted(p: seq<int>, sib: seq<int>, key: int, rid: RecordId, siblingKey0: int,
                               q: seq<int>, keep: nat, s: nat)
    requires NodePage(p) && |sib| == PAGE_WORDS && !LeafLocate(p, key).0
    requires q == ShiftInsert(p, 3 * LeafLocate(p, key).1, [key, rid.pid, rid.sid])[COUNT_WORD := Count(p)]
    requires keep == SplitKeep(Count(p) + 1) && s == Count(p) + 1 - keep
    ensures 3 * (keep + s) <= NEXT_WORD
    ensures LeafSplitPages(p, sib, key, rid, siblingKey0)
            == (OK, q[COUNT_WORD := keep], LeafSiblingPage(sib, q, keep, s), LeafSiblingPage(sib, q, keep, s)[0])
  {
  }

  /** The slots of the sibling page are the slots of `q` from `keep` on. */
  lemma LeafSiblingSlots(sib: seq<int>, q: seq<int>, keep: nat, s: nat)
    requires |sib| == PAGE_WORDS && |q| == PAGE_WORDS && 3 * (keep + s) <= NEXT_WORD && s <= MAX_KEYS
    ensures NodePage(LeafSiblingPage(sib, q, keep, s)) && Count(LeafSiblingPage(sib, q, keep, s)) == s
    ensures forall i :: 0 <= i < s ==> EntryAt(LeafSiblingPage(sib, q, keep, s), i) == EntryAt(q, keep + i)
    ensures LeafSiblingPage(sib, q, keep, s)[NEXT_WORD] == q[NEXT_WORD]
    ensures s > 0 ==> LeafSiblingPage(sib, q, keep, s)[0] == q[3 * keep]
  {
    var r := LeafSiblingPage(sib, q, keep, s);
    var w := q[3 * keep .. 3 * keep + 3 * s];
    forall i | 0 <= i < s ensures EntryAt(r, i) == EntryAt(q, keep + i) {
      assert r[3 * i] == w[3 * i] == q[3 * (keep + i)];
      assert r[3 * i + 1] == w[3 * i + 1] == q[3 * (keep + i) + 1];
      assert r[3 * i + 2] == w[3 * i + 2] == q[3 * (keep + i) + 2];
    }
  }

  /** The page after the leaf shift, with the count word set back to n, holds the n + 1 extended entries. */
  lemma LeafShiftedEntries(p: seq<int>, e: nat, key: int, rid: RecordId)
    requires NodePage(p) && e <= Count(p)
    ensures var q := ShiftInsert(p, 3 * e, [key, rid.pid, rid.sid])[COUNT_WORD := Count(p)];
            var ext := InsertAt(LeafEntries(p), e, LeafEntry(key, rid));
      && |q| == PAGE_WORDS && |ext| == Count(p) + 1
      && (forall i :: 0 <= i <= Count(p) ==> EntryAt(q, i) == ext[i])
      && q[NEXT_WORD] == p[NEXT_WORD - 3]
  {
    var shifted := ShiftInsert(p, 3 * e, [key, rid.pid, rid.sid]);
    var q := shifted[COUNT_WORD := Count(p)];
    LeafShiftSlots(p, e, key, rid);
    forall i | 0 <= i <= Count(p) ensures EntryAt(q, i) == EntryAt(shifted, i) {
    }
  }

  /** The node that splits keeps the first `keep` extended entries. */
  lemma LeafSplitLeftHalf(q: seq<int>, ext: seq<LeafEntry>, keep: nat)
    requires |q| == PAGE_WORDS && keep <= MAX_KEYS && keep <= |ext| <= MAX_KEYS + 1
    requires forall i :: 0 <= i < |ext| ==> EntryAt(q, i) == ext[i]
    ensures NodePage(q[COUNT_WORD := keep]) && LeafEntries(q[COUNT_WORD := keep]) == ext[..keep]
  {
    var r := q[COUNT_WORD := keep];
    forall i | 0 <= i < keep ensures EntryAt(r, i) == ext[..keep][i] {
      assert EntryAt(r, i) == EntryAt(q, i);
    }
    LeafEntriesFromSlots(r, ext[..keep]);
  }

  /** The sibling gets the extended entries from `keep` on, and the next-sibling word of `q`. */
  lemma LeafSplitRightHalf(sib: seq<int>, q: seq<int>, ext: seq<LeafEntry>, keep: nat, s: nat)
    requires |sib| == PAGE_WORDS && |q| == PAGE_WORDS && keep + s == |ext| <= MAX_KEYS + 1 && 0 < keep
    requires 3 * |ext| <= NEXT_WORD
    requires forall i :: 0 <= i < |ext| ==> EntryAt(q, i) == ext[i]
    ensures var r := LeafSiblingPage(sib, q, keep, s);
      && NodePage(r) && LeafEntries(r) == ext[keep..]
      && r[NEXT_WORD] == q[NEXT_WORD]
      && (0 < s ==> r[0] == ext[keep].key)
  {
    var r := LeafSiblingPage(sib, q, keep, s);
    LeafSiblingSlots(sib, q, keep, s);
    forall i | 0 <= i < s ensures EntryAt(r, i) == ext[keep..][i] {
      assert EntryAt(q, keep + i) == ext[keep + i];
    }
    LeafEntriesFromSlots(r, ext[keep..]);
    if 0 < s {
      assert r[0] == q[3 * keep] == EntryAt(q, keep).key;
    }
  }

  /** An accepted split: this node keeps the first `keep` extended entries, with `keep` = ceil((n + 1) / 2). */
  lemma LeafSplitKept(p: seq<int>, sib: seq<int>, key: int, rid: RecordId, siblingKey0: int, keep: nat)
    requires NodePage(p) && |sib| == PAGE_WORDS && !LeafLocate(p, key).0
    requires Count(p) + 1 == 2 * keep || Count(p) + 2 == 2 * keep
    ensures var r := LeafSplitPages(p, sib, key, rid, siblingKey0);
            var ext := InsertAt(LeafEntries(p), LeafLocate(p, key).1, LeafEntry(key, rid));
      && r.0 == OK && NodePage(r.1)
      && LeafEntries(r.1) == ext[..keep]
  {
    var n := Count(p);
    var e := LeafLocate(p, key).1;
    var ext := InsertAt(LeafEntries(p), e, LeafEntry(key, rid));
    var q := ShiftInsert(p, 3 * e, [key, rid.pid, rid.sid])[COUNT_WORD := n];
    SplitKeepHalf(n + 1, keep);
    LeafShiftedEntries(p, e, key, rid);
    LeafSplitPagesAccepted(p, sib, key, rid, siblingKey0, q, keep, n + 1 - keep);
    LeafSplitLeftHalf(q, ext, keep);
  }

  /** An accepted split: the sibling gets the rest of the extended entries and this node's old word 251. */
  lemma LeafSplitMoved(p: seq<int>, sib: seq<int>, key: int, rid: RecordId, siblingKey0: int, keep: nat)
    requires NodePage(p) && |sib| == PAGE_WORDS && !LeafLocate(p, key).0
    requires Count(p) + 1 == 2 * keep || Count(p) + 2 == 2 * keep
    ensures var r := LeafSplitPages(p, sib, key, rid, siblingKey0);
            var ext := InsertAt(LeafEntries(p), LeafLocate(p, key).1, LeafEntry(key, rid));
      && NodePage(r.2)
      && LeafEntries(r.2) == ext[keep..]
      && r.2[NEXT_WORD] == p[NEXT_WORD - 3]
      && (Count(p) > 0 ==> r.3 == ext[keep].key)
  {
    var n := Count(p);
    var e := LeafLocate(p, key).1;
    var ext := InsertAt(LeafEntries(p), e, LeafEntry(key, rid));
    var q := ShiftInsert(p, 3 * e, [key, rid.pid, rid.sid])[COUNT_WORD := n];
    SplitKeepHalf(n + 1, keep);
    LeafShiftedEntries(p, e, key, rid);
    var s := n + 1 - keep;
    LeafSplitPagesAccepted(p, sib, key, rid, siblingKey0, q, keep, s);
    LeafSplitRightHalf(sib, q, ext, keep, s);
  }

  /** The part of LeafSplitOutcome about an accepted split. */
  lemma LeafSplitHalves(p: seq<int>, sib: seq<int>, key: int, rid: RecordId, siblingKey0: int, keep: nat)
    requires NodePage(p) && |sib| == PAGE_WORDS && !LeafLocate(p, key).0
    requires Count(p) + 1 == 2 * keep || Count(p) + 2 == 2 * keep
    ensures var r := LeafSplitPages(p, sib, key, rid, siblingKey0);
            var ext := InsertAt(LeafEntries(p), LeafLocate(p, key).1, LeafEntry(key, rid));
      && r.0 == OK && NodePage(r.1) && NodePage(r.2)
      && LeafEntries(r.1) == ext[..keep]
      && LeafEntries(r.2) == ext[keep..]
      && r.2[NEXT_WORD] == p[NEXT_WORD - 3]
      && (Count(p) > 0 ==> r.3 == ext[keep].key)
  {
    LeafSplitKept(p, sib, key, rid, siblingKey0, keep);
    LeafSplitMoved(p, sib, key, rid, siblingKey0, keep);
  }

  /**
   * A present key is refused with nothing changed. Otherwise, with the new
   * entry placed in the n + 1 entries as insert would place it, this node keeps
   * the lowest ceil((n + 1) / 2) of them and the sibling the rest; the sibling
   * key is the sibling's first key, and the sibling's next-sibling word is this
   * node's next-sibling word after the shift, i.e. the old word 251.
   */
  lemma LeafSplitOutcome(p: seq<int>, sib: seq<int>, key: int, rid: RecordId, siblingKey0: int)
    requires NodePage(p) && NodePage(sib)
    ensures var r := LeafSplitPages(p, sib, key, rid, siblingKey0);
      && NodePage(r.1) && NodePage(r.2)
      && (r.0 == OK || r.0 == DuplicateInSplit)
      && (r.0 == DuplicateInSplit <==> LeafLocate(p, key).0)
      && (r.0 != OK ==> r.1 == p && r.2 == sib && r.3 == siblingKey0)
    ensures var r := LeafSplitPages(p, sib, key, rid, siblingKey0);
            var ext := InsertAt(LeafEntries(p), LeafLocate(p, key).1, LeafEntry(key, rid));
            var keep := (Count(p) + 2) / 2;
      r.0 == OK ==>
        && Count(r.1) + Count(r.2) == Count(p) + 1
        && 0 <= Count(r.1) - Count(r.2) <= 1
        && LeafEntries(r.1) == ext[..keep]
        && LeafEntries(r.2) == ext[keep..]
        && r.2[NEXT_WORD] == p[NEXT_WORD - 3]
        && (Count(p) > 0 ==> r.3 == ext[keep].key)
  {
    if !LeafLocate(p, key).0 {
      LeafSplitHalves(p, sib, key, rid, siblingKey0, (Count(p) + 2) / 2);
    }
  }

  /** Cutting increasing keys at `keep` gives two increasing halves separated by key `keep`. */
  lemma IncreasingHalves(ks: seq<int>, keep: nat)
    requires StrictlyIncreasing(ks) && keep < |ks|
    ensures StrictlyIncreasing(ks[..keep]) && StrictlyIncreasing(ks[keep..])
    ensures forall k :: k in ks[..keep] ==> k < ks[keep]
    ensures forall k :: k in ks[keep..] ==> ks[keep] <= k
  {
    forall k | k in ks[..keep] ensures k < ks[keep] {
      var j :| 0 <= j < keep && ks[..keep][j] == k;
      assert ks[j] == k;
    }
    forall k | k in ks[keep..] ensures ks[keep] <= k {
      var j :| 0 <= j < |ks| - keep && ks[keep..][j] == k;
      assert ks[keep + j] == k;
    }
  }

  /**
   * On a leaf whose keys increase, both halves of an accepted split are
   * increasing, every key left in this node is below the sibling key, and the
   * sibling key is the smallest key of the sibling.
   */
  lemma LeafSplitKeepsOrder(p: seq<int>, sib: seq<int>, key: int, rid: RecordId, siblingKey0: int)
    requires NodePage(p) && NodePage(sib) && StrictlyIncreasing(LeafKeys(p)) && Count(p) > 0
    ensures var r := LeafSplitPages(p, sib, key, rid, siblingKey0);
      r.0 == OK ==>
        && NodePage(r.1) && NodePage(r.2)
        && StrictlyIncreasing(LeafKeys(r.1))
        && StrictlyIncreasing(LeafKeys(r.2))
        && (forall k :: k in LeafKeys(r.1) ==> k < r.3)
        && (forall k :: k in LeafKeys(r.2) ==> r.3 <= k)
  {
    if !LeafLocate(p, key).0 {
      var r := LeafSplitPages(p, sib, key, rid, siblingKey0);
      var keep := (Count(p) + 2) / 2;
      LeafSplitHalves(p, sib, key, rid, siblingKey0, keep);
      LeafLocateSorted(p, key);
      var e := LeafLocate(p, key).1;
      var ext := InsertAt(LeafEntries(p), e, LeafEntry(key, rid));
      KeysOfInsert(LeafEntries(p), e, LeafEntry(key, rid));
      InsertKeepsIncreasing(LeafKeys(p), e, key);
      var ks := Keys(ext);
      KeysOfSlices(ext, keep);
      IncreasingHalves(ks, keep);
    }
  }

  // ---------------------------------------------------------------------
  // Non-leaf nodes

  function NodeKeys(p: seq<int>): (ks: seq<int>)
    requires NodePage(p)
    ensures |ks| == Count(p)
    ensures forall i :: 0 <= i < |ks| ==> ks[i] == p[2 * i + 1]
  {
    seq(Count(p), i requires 0 <= i < Count(p) => p[2 * i + 1])
  }

  function NodeChildren(p: seq<int>): (cs: seq<int>)
    requires NodePage(p)
    ensures |cs| == Count(p) + 1
    ensures forall i :: 0 <= i < |cs| ==> cs[i] == p[2 * i]
  {
    seq(Count(p) + 1, i requires 0 <= i <= Count(p) => p[2 * i])
  }

  /** Index of the child locateChildPtr follows: the first key above `key`, else the last child. */
  function ChildIndex(p: seq<int>, key: int): nat
    requires NodePage(p)
  {
    FirstAbove(NodeKeys(p), key, 0)
  }

  /** BTNonLeafNode::locateChildPtr on a page. */
  function ChildPtr(p: seq<int>, key: int): int
    requires NodePage(p)
  {
    p[2 * ChildIndex(p, key)]
  }

  /**
   * Routing: the child followed is child i where key i is the first separator
   * above the search key (child n when none is); with non-decreasing
   * separators, every separator before it is at most the search key and every
   * one from it on is above.
   */
  lemma ChildPtrRouting(p: seq<int>, key: int)
    requires NodePage(p)
    ensures ChildIndex(p, key) <= Count(p)
    ensures ChildPtr(p, key) == NodeChildren(p)[ChildIndex(p, key)]
    ensures forall j :: 0 <= j < ChildIndex(p, key) ==> NodeKeys(p)[j] <= key
    ensures ChildIndex(p, key) < Count(p) ==> NodeKeys(p)[ChildIndex(p, key)] > key
    ensures NonDecreasing(NodeKeys(p)) ==>
              forall j :: ChildIndex(p, key) <= j < Count(p) ==> NodeKeys(p)[j] > key
  {
    var ks := NodeKeys(p);
    var c := ChildIndex(p, key);
    if NonDecreasing(ks) {
      forall j | c <= j < |ks| ensures ks[j] > key {
        assert ks[c] <= ks[j];
      }
    }
  }

  /**
   * After the non-leaf shift at key slot i, word 2j + 1 holds key j and word
   * 2j holds child j of the extended node; the two words just past it hold the
   * old words 2n + 1 and 2n + 2.
   */
  lemma NonLeafShiftWords(p: seq<int>, i: nat, key: int, pid: int)
    requires NodePage(p) && i <= Count(p)
    ensures var q := ShiftInsert(p, 2 * i + 1, [key, pid]);
            var ks := InsertAt(NodeKeys(p), i, key);
            var cs := InsertAt(NodeChildren(p), i + 1, pid);
      && (forall j :: 0 <= j < |ks| ==> q[2 * j + 1] == ks[j])
      && (forall j :: 0 <= j < |cs| ==> q[2 * j] == cs[j])
      && q[2 * Count(p) + 3] == p[2 * Count(p) + 1]
      && q[2 * Count(p) + 4] == p[2 * Count(p) + 2]
  {
    var q := ShiftInsert(p, 2 * i + 1, [key, pid]);
    var ks := InsertAt(NodeKeys(p), i, key);
    var cs := InsertAt(NodeChildren(p), i + 1, pid);
    forall j | 0 <= j < |ks| ensures q[2 * j + 1] == ks[j] {
      if j < i {
        assert ks[j] == NodeKeys(p)[j];
      } else if j > i {
        assert ks[j] == NodeKeys(p)[j - 1];
        assert q[2 * j + 1] == p[2 * (j - 1) + 1];
      }
    }
    forall j | 0 <= j < |cs| ensures q[2 * j] == cs[j] {
      if j < i + 1 {
        assert cs[j] == NodeChildren(p)[j];
      } else if j > i + 1 {
        assert cs[j] == NodeChildren(p)[j - 1];
        assert q[2 * j] == p[2 * (j - 1)];
      }
    }
  }

  /** The same words once the count word says n + 1. */
  lemma NonLeafInsertedWords(p: seq<int>, i: nat, key: int, pid: int)
    requires NodePage(p) && i <= Count(p)
    ensures var q := ShiftInsert(p, 2 * i + 1, [key, pid])[COUNT_WORD := Count(p) + 1];
            var ks := InsertAt(NodeKeys(p), i, key);
            var cs := InsertAt(NodeChildren(p), i + 1, pid);
      && |q| == PAGE_WORDS && q[COUNT_WORD] == Count(p) + 1
      && (forall j :: 0 <= j < |ks| ==> q[2 * j + 1] == ks[j])
      && (forall j :: 0 <= j < |cs| ==> q[2 * j] == cs[j])
      && q[2 * Count(p) + 3] == p[2 * Count(p) + 1]
      && q[2 * Count(p) + 4] == p[2 * Count(p) + 2]
  {
    var shifted := ShiftInsert(p, 2 * i + 1, [key, pid]);
    var q := shifted[COUNT_WORD := Count(p) + 1];
    NonLeafShiftWords(p, i, key, pid);
    assert forall j :: 0 <= j < COUNT_WORD ==> q[j] == shifted[j];
  }

  /** BTNonLeafNode::insert on a page. */
  function NonLeafInsertPage(p: seq<int>, key: int, pid: int): (RC, seq<int>)
    requires NodePage(p)
  {
    var n := Count(p);
    if n == MAX_KEYS then (NodeFull, p)
    else (OK, ShiftInsert(p, 2 * ChildIndex(p, key) + 1, [key, pid])[COUNT_WORD := n + 1])
  }

  /**
   * A full node refuses the insert unchanged. Otherwise `key` goes before the
   * first separator above it, `pid` becomes the child just right of it, the
   * pairs before stay and the count grows by one.
   */
  lemma NonLeafInsertOutcome(p: seq<int>, key: int, pid: int)
    requires NodePage(p)
    ensures NodePage(NonLeafInsertPage(p, key, pid).1)
    ensures NonLeafInsertPage(p, key, pid).0 == NodeFull <==> Count(p) == MAX_KEYS
    ensures NonLeafInsertPage(p, key, pid).0 != NodeFull ==> NonLeafInsertPage(p, key, pid).0 == OK
    ensures NonLeafInsertPage(p, key, pid).0 == NodeFull ==> NonLeafInsertPage(p, key, pid).1 == p
    ensures var q := NonLeafInsertPage(p, key, pid).1;
            var i := ChildIndex(p, key);
      NonLeafInsertPage(p, key, pid).0 == OK ==>
        && Count(q) == Count(p) + 1
        && NodeKeys(q) == InsertAt(NodeKeys(p), i, key)
        && NodeChildren(q) == InsertAt(NodeChildren(p), i + 1, pid)
  {
    var n := Count(p);
    if n < MAX_KEYS {
      var i := ChildIndex(p, key);
      ChildPtrRouting(p, key);
      var q := ShiftInsert(p, 2 * i + 1, [key, pid])[COUNT_WORD := n + 1];
      assert NonLeafInsertPage(p, key, pid).1 == q;
      NonLeafInsertedWords(p, i, key, pid);
      var ks := InsertAt(NodeKeys(p), i, key);
      var cs := InsertAt(NodeChildren(p), i + 1, pid);
      assert NodeKeys(q) == ks;
      assert NodeChildren(q) == cs;
    }
  }

  /** An accepted non-leaf insert keeps the separators non-decreasing. */
  lemma NonLeafInsertKeepsOrder(p: seq<int>, key: int, pid: int)
    requires NodePage(p) && NonDecreasing(NodeKeys(p))
    ensures NodePage(NonLeafInsertPage(p, key, pid).1)
    ensures NonDecreasing(NodeKeys(NonLeafInsertPage(p, key, pid).1))
  {
    NonLeafInsertOutcome(p, key, pid);
    ChildPtrRouting(p, key);
    if Count(p) < MAX_KEYS {
      InsertKeepsNonDecreasing(NodeKeys(p), ChildIndex(p, key), key);
    }
  }

  /** The sibling page of a non-leaf split: 2s + 1 words copied from word 2(c + 1) of `q`, then the count. */
  function NonLeafSiblingPage(sib: seq<int>, q: seq<int>, c: nat, s: nat): seq<int>
    requires |sib| == PAGE_WORDS && |q| == PAGE_WORDS && 2 * (c + 1) + 2 * s + 1 <= COUNT_WORD
  {
    Overwrite(sib, 0, q[2 * (c + 1) .. 2 * (c + 1) + 2 * s + 1])[COUNT_WORD := s]
  }

  /**
   * BTNonLeafNode::insertAndSplit on this page `p` and sibling page `sib`:
   * the new pages of both nodes and the middle key.
   */
  function NonLeafSplitPages(p: seq<int>, sib: seq<int>, key: int, pid: int): (seq<int>, seq<int>, int)
    requires NodePage(p) && |sib| == PAGE_WORDS
  {
    var n := Count(p);
    var q := ShiftInsert(p, 2 * ChildIndex(p, key) + 1, [key, pid])[COUNT_WORD := n + 1];
    var m := n + 1;
    var c := m / 2;
    var s := m / 2;
    (q[COUNT_WORD := c], NonLeafSiblingPage(sib, q, c, s), q[2 * (c + 1) - 1])
  }

  /** NonLeafSplitPages in terms of the page `q` after the shift and the half count `c`. */
  lemma NonLeafSplitPagesIs(p: seq<int>, sib: seq<int>, key: int, pid: int, q: seq<int>, c: nat)
    requires NodePage(p) && |sib| == PAGE_WORDS
    requires q == ShiftInsert(p, 2 * ChildIndex(p, key) + 1, [key, pid])[COUNT_WORD := Count(p) + 1]
    requires c == (Count(p) + 1) / 2
    ensures 2 * (c + 1) + 2 * c + 1 <= COUNT_WORD
    ensures NonLeafSplitPages(p, sib, key, pid) == (q[COUNT_WORD := c], NonLeafSiblingPage(sib, q, c, c), q[2 * (c + 1) - 1])
  {
  }

  /** Key j and child j of the sibling page are words 2(c + 1 + j) + 1 and 2(c + 1 + j) of `q`. */
  lemma NonLeafSiblingWords(sib: seq<int>, q: seq<int>, c: nat, s: nat)
    requires |sib| == PAGE_WORDS && |q| == PAGE_WORDS && 2 * (c + 1) + 2 * s + 1 <= COUNT_WORD
    requires s <= MAX_KEYS
    ensures NodePage(NonLeafSiblingPage(sib, q, c, s)) && Count(NonLeafSiblingPage(sib, q, c, s)) == s
    ensures forall j :: 0 <= j < s ==> NodeKeys(NonLeafSiblingPage(sib, q, c, s))[j] == q[2 * (c + 1 + j) + 1]
    ensures forall j :: 0 <= j <= s ==> NodeChildren(NonLeafSiblingPage(sib, q, c, s))[j] == q[2 * (c + 1 + j)]
  {
    var r := NonLeafSiblingPage(sib, q, c, s);
    var w := q[2 * (c + 1) .. 2 * (c + 1) + 2 * s + 1];
    forall j | 0 <= j < s ensures NodeKeys(r)[j] == q[2 * (c + 1 + j) + 1] {
      assert r[2 * j + 1] == w[2 * j + 1];
    }
    forall j | 0 <= j <= s ensures NodeChildren(r)[j] == q[2 * (c + 1 + j)] {
      assert r[2 * j] == w[2 * j];
    }
  }

  /**
   * Words laid out as keys `ks` and children `cs`, with the count set to `m`
   * and then cut to `c`, hold their first `c` keys and `c + 1` children.
   */
  lemma PrefixWords(w: seq<int>, ks: seq<int>, cs: seq<int>, c: nat)
    requires |w| == PAGE_WORDS && c <= MAX_KEYS && c < |ks| <= MAX_KEYS + 1 && |cs| == |ks| + 1
    requires forall j :: 0 <= j < |ks| ==> w[2 * j + 1] == ks[j]
    requires forall j :: 0 <= j < |cs| ==> w[2 * j] == cs[j]
    ensures var r := w[COUNT_WORD := c];
      && NodePage(r) && Count(r) == c
      && NodeKeys(r) == ks[..c]
      && NodeChildren(r) == cs[..c + 1]
  {
    var r := w[COUNT_WORD := c];
    forall j | 0 <= j < c ensures NodeKeys(r)[j] == ks[..c][j] {
      assert r[2 * j + 1] == w[2 * j + 1];
    }
    forall j | 0 <= j < c + 1 ensures NodeChildren(r)[j] == cs[..c + 1][j] {
      assert r[2 * j] == w[2 * j];
    }
  }

  /**
   * The node that splits keeps the first c = floor(m / 2) of the m = n + 1
   * keys with their children; the middle key is the next one.
   */
  lemma NonLeafSplitLeft(p: seq<int>, sib: seq<int>, key: int, pid: int, c: nat)
    requires NodePage(p) && |sib| == PAGE_WORDS
    requires 2 * c <= Count(p) + 1 <= 2 * c + 1
    ensures var r := NonLeafSplitPages(p, sib, key, pid);
            var ks := InsertAt(NodeKeys(p), ChildIndex(p, key), key);
            var cs := InsertAt(NodeChildren(p), ChildIndex(p, key) + 1, pid);
      && NodePage(r.0) && Count(r.0) == c
      && NodeKeys(r.0) == ks[..c]
      && NodeChildren(r.0) == cs[..c + 1]
      && r.2 == ks[c]
  {
    var n := Count(p);
    var i := ChildIndex(p, key);
    var q := ShiftInsert(p, 2 * i + 1, [key, pid])[COUNT_WORD := n + 1];
    var ks := InsertAt(NodeKeys(p), i, key);
    var cs := InsertAt(NodeChildren(p), i + 1, pid);
    NonLeafInsertedWords(p, i, key, pid);
    PrefixWords(q, ks, cs, c);
    NonLeafSplitPagesIs(p, sib, key, pid, q, c);
  }

  /**
   * Words laid out as keys `ks` and children `cs`, from which the sibling
   * takes the `c` keys after key c and the children around them: with
   * m = |ks| = 2c + 1 that is all the keys after the middle one.
   */
  lemma SuffixWordsOdd(sib: seq<int>, w: seq<int>, ks: seq<int>, cs: seq<int>, c: nat)
    requires |sib| == PAGE_WORDS && |w| == PAGE_WORDS
    requires |ks| == 2 * c + 1 <= MAX_KEYS + 1 && |cs| == |ks| + 1
    requires forall j :: 0 <= j < |ks| ==> w[2 * j + 1] == ks[j]
    requires forall j :: 0 <= j < |cs| ==> w[2 * j] == cs[j]
    ensures 2 * (c + 1) + 2 * c + 1 <= COUNT_WORD
    ensures var r := NonLeafSiblingPage(sib, w, c, c);
      && NodePage(r) && Count(r) == c
      && NodeKeys(r) == ks[c + 1..] && NodeChildren(r) == cs[c + 1..]
  {
    NonLeafSiblingWords(sib, w, c, c);
    var r := NonLeafSiblingPage(sib, w, c, c);
    var sk := NodeKeys(r);
    var sc := NodeChildren(r);
    forall j | 0 <= j < c ensures sk[j] == ks[c + 1..][j] {
      assert sk[j] == w[2 * (c + 1 + j) + 1];
    }
    forall j | 0 <= j <= c ensures sc[j] == cs[c + 1..][j] {
      assert sc[j] == w[2 * (c + 1 + j)];
    }
  }

  /**
   * The same with m = |ks| = 2c: the sibling's last key and last child are the
   * words `extraK` and `extraC` just past the laid-out ones.
   */
  lemma SuffixWordsEven(sib: seq<int>, w: seq<int>, ks: seq<int>, cs: seq<int>, c: nat, extraK: int, extraC: int)
    requires |sib| == PAGE_WORDS && |w| == PAGE_WORDS
    requires |ks| == 2 * c && 1 <= |ks| <= MAX_KEYS + 1 && |cs| == |ks| + 1
    requires forall j :: 0 <= j < |ks| ==> w[2 * j + 1] == ks[j]
    requires forall j :: 0 <= j < |cs| ==> w[2 * j] == cs[j]
    requires w[2 * |ks| + 1] == extraK && w[2 * |ks| + 2] == extraC
    ensures 2 * (c + 1) + 2 * c + 1 <= COUNT_WORD
    ensures var r := NonLeafSiblingPage(sib, w, c, c);
      && NodePage(r) && Count(r) == c
      && NodeKeys(r) == ks[c + 1..] + [extraK] && NodeChildren(r) == cs[c + 1..] + [extraC]
  {
    NonLeafSiblingWords(sib, w, c, c);
    var r := NonLeafSiblingPage(sib, w, c, c);
    var sk := NodeKeys(r);
    var sc := NodeChildren(r);
    var wantK := ks[c + 1..] + [extraK];
    forall j | 0 <= j < c ensures sk[j] == wantK[j] {
      assert sk[j] == w[2 * (c + 1 + j) + 1];
    }
    assert sk == wantK;
    var wantC := cs[c + 1..] + [extraC];
    forall j | 0 <= j <= c ensures sc[j] == wantC[j] {
      assert sc[j] == w[2 * (c + 1 + j)];
    }
    assert sc == wantC;
  }

  /** The sibling when the node holds m = n + 1 = 2c + 1 keys after the insert: all keys after the middle one. */
  lemma NonLeafSplitRightOdd(p: seq<int>, sib: seq<int>, key: int, pid: int, c: nat)
    requires NodePage(p) && |sib| == PAGE_WORDS && Count(p) == 2 * c
    ensures var r := NonLeafSplitPages(p, sib, key, pid).1;
            var ks := InsertAt(NodeKeys(p), ChildIndex(p, key), key);
            var cs := InsertAt(NodeChildren(p), ChildIndex(p, key) + 1, pid);
      NodePage(r) && Count(r) == c && NodeKeys(r) == ks[c + 1..] && NodeChildren(r) == cs[c + 1..]
  {
    var i := ChildIndex(p, key);
    var q := ShiftInsert(p, 2 * i + 1, [key, pid])[COUNT_WORD := Count(p) + 1];
    NonLeafInsertedWords(p, i, key, pid);
    NonLeafSplitPagesIs(p, sib, key, pid, q, c);
    SuffixWordsOdd(sib, q, InsertAt(NodeKeys(p), i, key), InsertAt(NodeChildren(p), i + 1, pid), c);
  }

  /**
   * The sibling when the node holds m = n + 1 = 2c keys after the insert: the
   * keys after the middle one, then old word 2n + 1 as a key and old word
   * 2n + 2 as a child.
   */
  lemma NonLeafSplitRightEven(p: seq<int>, sib: seq<int>, key: int, pid: int, c: nat)
    requires NodePage(p) && |sib| == PAGE_WORDS && Count(p) + 1 == 2 * c
    ensures var r := NonLeafSplitPages(p, sib, key, pid).1;
            var n := Count(p);
            var ks := InsertAt(NodeKeys(p), ChildIndex(p, key), key);
            var cs := InsertAt(NodeChildren(p), ChildIndex(p, key) + 1, pid);
      && NodePage(r) && Count(r) == c
      && NodeKeys(r) == ks[c + 1..] + [p[2 * n + 1]] && NodeChildren(r) == cs[c + 1..] + [p[2 * n + 2]]
  {
    var n := Count(p);
    var i := ChildIndex(p, key);
    var q := ShiftInsert(p, 2 * i + 1, [key, pid])[COUNT_WORD := n + 1];
    NonLeafInsertedWords(p, i, key, pid);
    NonLeafSplitPagesIs(p, sib, key, pid, q, c);
    SuffixWordsEven(sib, q, InsertAt(NodeKeys(p), i, key), InsertAt(NodeChildren(p), i + 1, pid), c, p[2 * n + 1], p[2 * n + 2]);
  }

  /**
   * With m = n + 1 = 2c keys after the insert the split reports c keys on
   * each side besides the middle one: m + 1 keys in all, one more than there
   * are (the sibling's last key is a stale word, as NonLeafSplitRightEven
   * shows).
   */
  lemma NonLeafSplitGainsKey(p: seq<int>, sib: seq<int>, key: int, pid: int, c: nat)
    requires NodePage(p) && |sib| == PAGE_WORDS && Count(p) + 1 == 2 * c
    ensures var r := NonLeafSplitPages(p, sib, key, pid);
      NodePage(r.0) && NodePage(r.1) && Count(r.0) + 1 + Count(r.1) == Count(p) + 2
  {
    NonLeafSplitLeft(p, sib, key, pid, c);
    NonLeafSplitRightEven(p, sib, key, pid, c);
  }

  /**
   * The split BTNonLeafNode::insertAndSplit evidently intends: of the m keys
   * after the insert, the first c = floor(m / 2) stay, key c moves up, and
   * the m - c - 1 keys after it go to the sibling with their children.
   */
  function NonLeafSplitIntended(p: seq<int>, sib: seq<int>, key: int, pid: int): (seq<int>, seq<int>, int)
    requires NodePage(p) && |sib| == PAGE_WORDS
  {
    var n := Count(p);
    var q := ShiftInsert(p, 2 * ChildIndex(p, key) + 1, [key, pid])[COUNT_WORD := n + 1];
    var m := n + 1;
    var c := m / 2;
    (q[COUNT_WORD := c], NonLeafSiblingPage(sib, q, c, m - c - 1), q[2 * (c + 1) - 1])
  }

  /** NonLeafSplitIntended in terms of the page `q` after the shift and the half count `c`. */
  lemma NonLeafSplitIntendedIs(p: seq<int>, sib: seq<int>, key: int, pid: int, q: seq<int>, c: nat, s: nat)
    requires NodePage(p) && |sib| == PAGE_WORDS
    requires q == ShiftInsert(p, 2 * ChildIndex(p, key) + 1, [key, pid])[COUNT_WORD := Count(p) + 1]
    requires 2 * c <= Count(p) + 1 <= 2 * c + 1 && c + s == Count(p)
    ensures 2 * (c + 1) + 2 * s + 1 <= COUNT_WORD
    ensures NonLeafSplitIntended(p, sib, key, pid)
            == (q[COUNT_WORD := c], NonLeafSiblingPage(sib, q, c, s), q[2 * (c + 1) - 1])
  {
    assert (Count(p) + 1) / 2 == c;
  }

  /**
   * Words laid out as keys `ks` and children `cs`, from which the sibling
   * takes the `s` keys after key c and the children around them, which is
   * all of them when |ks| = c + 1 + s.
   */
  lemma SuffixWords(sib: seq<int>, w: seq<int>, ks: seq<int>, cs: seq<int>, c: nat, s: nat)
    requires |sib| == PAGE_WORDS && |w| == PAGE_WORDS
    requires |ks| == c + 1 + s <= MAX_KEYS + 1 && |cs| == |ks| + 1
    requires forall j :: 0 <= j < |ks| ==> w[2 * j + 1] == ks[j]
    requires forall j :: 0 <= j < |cs| ==> w[2 * j] == cs[j]
    ensures 2 * (c + 1) + 2 * s + 1 <= COUNT_WORD
    ensures var r := NonLeafSiblingPage(sib, w, c, s);
      && NodePage(r) && Count(r) == s
      && NodeKeys(r) == ks[c + 1..] && NodeChildren(r) == cs[c + 1..]
  {
    NonLeafSiblingWords(sib, w, c, s);
    var r := NonLeafSiblingPage(sib, w, c, s);
    var sk := NodeKeys(r);
    var sc := NodeChildren(r);
    forall j | 0 <= j < s ensures sk[j] == ks[c + 1..][j] {
      assert sk[j] == w[2 * (c + 1 + j) + 1];
    }
    forall j | 0 <= j <= s ensures sc[j] == cs[c + 1..][j] {
      assert sc[j] == w[2 * (c + 1 + j)];
    }
  }

  /** The intended split keeps the first c keys with their children, and key c moves up. */
  lemma NonLeafIntendedLeft(p: seq<int>, sib: seq<int>, key: int, pid: int, c: nat)
    requires NodePage(p) && |sib| == PAGE_WORDS
    requires 2 * c <= Count(p) + 1 <= 2 * c + 1
    ensures var r := NonLeafSplitIntended(p, sib, key, pid);
            var ks := InsertAt(NodeKeys(p), ChildIndex(p, key), key);
            var cs := InsertAt(NodeChildren(p), ChildIndex(p, key) + 1, pid);
      && NodePage(r.0) && NodeKeys(r.0) == ks[..c] && NodeChildren(r.0) == cs[..c + 1]
      && c < |ks| && r.2 == ks[c]
  {
    var n := Count(p);
    var i := ChildIndex(p, key);
    var q := ShiftInsert(p, 2 * i + 1, [key, pid])[COUNT_WORD := n + 1];
    NonLeafInsertedWords(p, i, key, pid);
    NonLeafSplitIntendedIs(p, sib, key, pid, q, c, n - c);
    PrefixWords(q, InsertAt(NodeKeys(p), i, key), InsertAt(NodeChildren(p), i + 1, pid), c);
  }

  /** The intended sibling holds every key after key c, with the children around them. */
  lemma NonLeafIntendedRight(p: seq<int>, sib: seq<int>, key: int, pid: int, c: nat, s: nat)
    requires NodePage(p) && |sib| == PAGE_WORDS
    requires 2 * c <= Count(p) + 1 <= 2 * c + 1 && c + s == Count(p)
    ensures var r := NonLeafSplitIntended(p, sib, key, pid);
            var ks := InsertAt(NodeKeys(p), ChildIndex(p, key), key);
            var cs := InsertAt(NodeChildren(p), ChildIndex(p, key) + 1, pid);
      && NodePage(r.1) && c < |ks| && NodeKeys(r.1) == ks[c + 1..] && NodeChildren(r.1) == cs[c + 1..]
  {
    var n := Count(p);
    var i := ChildIndex(p, key);
    var q := ShiftInsert(p, 2 * i + 1, [key, pid])[COUNT_WORD := n + 1];
    NonLeafInsertedWords(p, i, key, pid);
    NonLeafSplitIntendedIs(p, sib, key, pid, q, c, s);
    SuffixWords(sib, q, InsertAt(NodeKeys(p), i, key), InsertAt(NodeChildren(p), i + 1, pid), c, s);
  }

  /** A sequence is its first c elements, element c and the rest. */
  lemma SplitAround<T>(xs: seq<T>, c: nat)
    requires c < |xs|
    ensures xs[..c] + [xs[c]] + xs[c + 1..] == xs && xs[..c + 1] + xs[c + 1..] == xs
  {
    assert xs[..c] + [xs[c]] == xs[..c + 1];
  }

  /**
   * The intended split loses and invents nothing: the kept keys, the middle
   * key and the sibling's keys are the m keys after the insert, in order, and
   * the two nodes' children are its m + 1 children.
   */
  lemma NonLeafSplitIntendedConserves(p: seq<int>, sib: seq<int>, key: int, pid: int, c: nat)
    requires NodePage(p) && |sib| == PAGE_WORDS
    requires 2 * c <= Count(p) + 1 <= 2 * c + 1
    ensures var r := NonLeafSplitIntended(p, sib, key, pid);
            var ks := InsertAt(NodeKeys(p), ChildIndex(p, key), key);
            var cs := InsertAt(NodeChildren(p), ChildIndex(p, key) + 1, pid);
      && NodePage(r.0) && NodePage(r.1)
      && NodeKeys(r.0) + [r.2] + NodeKeys(r.1) == ks
      && NodeChildren(r.0) + NodeChildren(r.1) == cs
  {
    NonLeafIntendedLeft(p, sib, key, pid, c);
    NonLeafIntendedRight(p, sib, key, pid, c, Count(p) - c);
    SplitAround(InsertAt(NodeKeys(p), ChildIndex(p, key), key), c);
    SplitAround(InsertAt(NodeChildren(p), ChildIndex(p, key) + 1, pid), c);
  }

  /**
   * On a full node, the only one the split is meant for, the code and the
   * intended split agree: m = 71 keys leave 35 on each side.
   */
  lemma NonLeafSplitFullAgrees(p: seq<int>, sib: seq<int>, key: int, pid: int)
    requires NodePage(p) && |sib| == PAGE_WORDS && Count(p) == MAX_KEYS
    ensures NonLeafSplitPages(p, sib, key, pid) == NonLeafSplitIntended(p, sib, key, pid)
  {
  }

  /** BTNonLeafNode::initializeRoot: a zeroed page holding [pid1, key, pid2] with count 1. */
  function InitRootPage(pid1: int, key: int, pid2: int): seq<int>
  {
    ZeroPage()[0 := pid1][1 := key][2 := pid2][COUNT_WORD := 1]
  }

  /** BTNonLeafNode::getFirstPage: child 0, or nothing on a node without keys. */
  function FirstPage(p: seq<int>): Option<int>
    requires NodePage(p)
  {
    if Count(p) == 0 then None else Some(p[0])
  }

  /**
   * A fresh root holds exactly one separator between its two children, every
   * other word is zero, its first page is `pid1`, and it routes keys below the
   * separator to `pid1` and all others to `pid2`.
   */
  lemma InitRootOutcome(pid1: int, key: int, pid2: int, searchKey: int)
    ensures NodePage(InitRootPage(pid1, key, pid2))
    ensures NodeKeys(InitRootPage(pid1, key, pid2)) == [key]
    ensures NodeChildren(InitRootPage(pid1, key, pid2)) == [pid1, pid2]
    ensures forall j :: 3 <= j < COUNT_WORD ==> InitRootPage(pid1, key, pid2)[j] == 0
    ensures FirstPage(InitRootPage(pid1, key, pid2)) == Some(pid1)
    ensures ChildPtr(InitRootPage(pid1, key, pid2), searchKey) == if searchKey < key then pid1 else pid2
  {
    var p := InitRootPage(pid1, key, pid2);
    assert NodeKeys(p) == [key];
    assert NodeChildren(p) == [pid1, pid2];
  }

  /** A zeroed page is an empty node: no keys, so no first page. */
  lemma ZeroPageIsEmpty()
    ensures NodePage(ZeroPage()) && Count(ZeroPage()) == 0
    ensures LeafEntries(ZeroPage()) == [] && FirstPage(ZeroPage()) == None
  {
  }
}
