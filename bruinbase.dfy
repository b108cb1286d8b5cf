/**
 * Shared vocabulary of the index layer: return codes, record ids and the
 * page file the index lives in.
 *
 * A page is 1024 bytes of 4-byte ints, so it is modelled as 256 words. The
 * page file is a sequence of pages; its end page id (PageFile::endPid) is the
 * length of that sequence.
 */
module Bruinbase {

  datatype Option<+T> = None | Some(value: T)

  /**
   * Return codes. OK is 0. The named codes stand for the RC_* constants of the
   * system header (their numeric values are not part of this model; all that
   * matters is that they differ from each other and from 0). The two literal
   * codes that BTreeNode.cc returns for a duplicate key, -2 from the leaf
   * insert and -1 from the leaf split, get constructors of their own.
   */
  datatype RC =
    | OK
    | NodeFull           // RC_NODE_FULL
    | NoSuchRecord       // RC_NO_SUCH_RECORD
    | InvalidCursor      // RC_INVALID_CURSOR
    | EndOfTree          // RC_END_OF_TREE
    | FileOpenFailed     // RC_FILE_OPEN_FAILED
    | FileCloseFailed    // RC_FILE_CLOSE_FAILED
    | InvalidFileMode    // RC_INVALID_FILE_MODE
    | InvalidFileFormat  // RC_INVALID_FILE_FORMAT
    | InvalidPid         // what PageFile returns for a page id outside the file
    | DuplicateKey       // the literal -2 of the leaf insert
    | DuplicateInSplit   // the literal -1 of the leaf insert-and-split

  /** Locator of a tuple in the record file: page and slot. */
  datatype RecordId = RecordId(pid: int, sid: int)

  /** PageFile::PAGE_SIZE is 1024 bytes, that is 256 four-byte words. */
  const PAGE_WORDS: nat := 256

  /** Contents of a page file: page `pid` is `store[pid]`. */
  type Store = seq<seq<int>>

  function ZeroPage(): (p: seq<int>)
    ensures |p| == PAGE_WORDS
    ensures forall i :: 0 <= i < |p| ==> p[i] == 0
  {
    seq(PAGE_WORDS, _ => 0)
  }

  /** PageFile::endPid: one past the last page of the file. */
  function EndPid(s: Store): nat
  {
    |s|
  }

  /** PageFile::read succeeds exactly for the pages that exist. */
  predicate Readable(s: Store, pid: int)
  {
    0 <= pid < |s|
  }

  /**
   * PageFile::write: a negative page id is refused, an existing page is
   * replaced, and a write at or past the end appends the page (a gap between
   * the old end and `pid` reads as zeroed pages).
   */
  function WriteStore(s: Store, pid: int, page: seq<int>): (s': Store)
    ensures pid < 0 ==> s' == s
    ensures 0 <= pid ==> |s'| == (if pid < |s| then |s| else pid + 1)
    ensures 0 <= pid ==> s'[pid] == page
    ensures forall q :: 0 <= q < |s| && q != pid ==> s'[q] == s[q]
    ensures forall q :: |s| <= q < |s'| && q != pid ==> s'[q] == ZeroPage()
  {
    if pid < 0 then s
    else if pid < |s| then s[pid := page]
    else s + seq(pid - |s|, _ => ZeroPage()) + [page]
  }

  /** The code PageFile::write returns. */
  function WriteCode(pid: int): RC
  {
    if pid < 0 then InvalidPid else OK
  }

  /** Every page of a page file is a full page. */
  predicate FullPages(s: Store)
  {
    forall pid :: 0 <= pid < |s| ==> |s[pid]| == PAGE_WORDS
  }

  /**
   * The page file an index lives in. Opening, closing and the file system
   * behind it are outside this model; what the index relies on is that a
   * read copies an existing page into a buffer and that a write replaces or
   * appends one.
   */
  class PageFile {
    var pages: Store

    constructor()
      ensures pages == []
    {
      pages := [];
    }

    predicate Valid()
      reads this
    {
      FullPages(pages)
    }

    function EndPid(): (e: nat)
      reads this
      ensures e == |pages|
    {
      |pages|
    }

    /**
     * PageFile::open: whether the file could be opened is a parameter; when it
     * could, `file` is what the file holds.
     */
    method Open(file: Store, canOpen: bool) returns (rc: RC)
      requires FullPages(file)
      modifies this
      ensures Valid() == (canOpen || old(Valid()))
      ensures pages == (if canOpen then file else old(pages))
      ensures rc == (if canOpen then OK else FileOpenFailed)
    {
      if !canOpen {
        return FileOpenFailed;
      }
      pages := file;
      return OK;
    }

    /** PageFile::close: whether it succeeds is a parameter; the pages stay as they are. */
    method Close(canClose: bool) returns (rc: RC)
      ensures rc == (if canClose then OK else FileCloseFailed)
    {
      rc := if canClose then OK else FileCloseFailed;
    }

    /** PageFile::read: copy page `pid` into `buf`, or report a page id outside the file and leave `buf` alone. */
    method Read(pid: int, buf: array<int>) returns (rc: RC)
      requires Valid() && buf.Length == PAGE_WORDS
      modifies buf
      ensures rc == (if Readable(pages, pid) then OK else InvalidPid)
      ensures buf[..] == (if Readable(pages, pid) then pages[pid] else old(buf[..]))
    {
      if !Readable(pages, pid) {
        return InvalidPid;
      }
      var page := pages[pid];
      forall j | 0 <= j < PAGE_WORDS {
        buf[j] := page[j];
      }
      assert buf[..] == page;
      return OK;
    }

    /** PageFile::write: store the words of `buf` as page `pid`. */
    method Write(pid: int, buf: array<int>) returns (rc: RC)
      requires Valid() && buf.Length == PAGE_WORDS
      modifies this
      ensures Valid()
      ensures pages == WriteStore(old(pages), pid, buf[..])
      ensures rc == WriteCode(pid)
    {
      pages := WriteStore(pages, pid, buf[..]);
      rc := WriteCode(pid);
    }
  }
}
