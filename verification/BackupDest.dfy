/** The result codes of the backup, and its destination: b-tree, pager and file seen as one byte image. */
module BackupDest {
  import opened CBasics
  import opened BackupPages

  const BUSY: int := 5
  const LOCKED: int := 6
  const READONLY: int := 8
  const IOERR: int := 10
  const NOTFOUND: int := 12
  const DONE: int := 101
  const IOERR_NOMEM: int := 3082

  /** isFatalError */
  predicate IsFatal(rc: int) {
    rc != OK && rc != BUSY && rc != LOCKED
  }

  /** The outcome of a page, file or commit operation: success or an error that ends the backup. */
  predicate IoCode(rc: int) {
    rc == OK || (IsFatal(rc) && rc != DONE)
  }

  /** The file system and the lock manager, which may let any operation fail, with a count of the failures. */
  class Os {
    ghost var failures: nat

    constructor ()
    {
      failures := 0;
    }

    /** Nothing failed since then. */
    twostate predicate Well()
      reads this
    {
      failures == old(failures)
    }

    /** Failures are only ever added; `ok` tells whether there were none. */
    twostate predicate Tells(ok: bool)
      reads this
    {
      failures >= old(failures) && (ok <==> failures == old(failures))
    }

    method IoResult() returns (rc: int)
      modifies this
      ensures IoCode(rc) && Tells(rc == OK)
    {
      rc := *;
      if rc == BUSY || rc == LOCKED || rc == DONE { rc := OK; }
      if rc != OK { failures := failures + 1; }
    }

    /** The outcome of starting a transaction, which may also find the database busy or locked. */
    method LockResult() returns (rc: int)
      modifies this
      ensures rc != DONE && Tells(rc == OK)
    {
      rc := *;
      if rc == DONE { rc := OK; }
      if rc != OK { failures := failures + 1; }
    }
  }

  function Put4(v: nat): (s: seq<Byte>)
    requires v < U32
    ensures |s| == 4
  {
    [v / 0x100_0000, v / 0x1_0000 % 256, v / 256 % 256, v % 256]
  }

  /** The big-endian schema version field of a file image. */
  function Cookie(c: Bytes): (v: nat)
    ensures v < U32
  {
    Get(c, 40) * 0x100_0000 + Get(c, 41) * 0x1_0000 + Get(c, 42) * 256 + Get(c, 43)
  }

  lemma Put4Value(v: nat)
    requires v < U32
    ensures var s: seq<int> := Put4(v); s[0] * 0x100_0000 + s[1] * 0x1_0000 + s[2] * 256 + s[3] == v
  {
    var a, b := v / 256, v / 0x1_0000;
    assert v == a * 256 + v % 256 && a == b * 256 + a % 256;
    assert b == v / 0x100_0000 * 256 + b % 256;
  }

  lemma CookieOfPut(c: Bytes, v: nat)
    requires v < U32
    ensures Cookie(Overwrite(c, 40, Put4(v))) == v
  {
    Put4Value(v);
    hide Put4, Overwrite;
  }

  lemma CookieIsHeader(c: Bytes, v: nat, isWal: bool)
    requires v < U32
    ensures HeaderOnly(c, Overwrite(c, 40, Put4(v)), isWal)
  {
  }

  /** The destination of a backup, with its rollback journal. */
  class Dest {
    const pgsz: nat
    const isMemdb: bool
    const isWal: bool
    var bytes: Bytes
    var size: nat
    var inTrans: bool
    var journal: Bytes      // the image to go back to while a transaction is open
    var journalSize: nat

    constructor (pgsz: nat, isMemdb: bool, isWal: bool, bytes: Bytes, size: nat)
      ensures this.pgsz == pgsz && this.isMemdb == isMemdb && this.isWal == isWal
      ensures this.bytes == bytes && this.size == size && !inTrans
    {
      this.pgsz, this.isMemdb, this.isWal := pgsz, isMemdb, isWal;
      this.bytes, this.size, inTrans := bytes, size, false;
      journal, journalSize := bytes, size;
    }

    /** The bytes and the size that a rollback leads to. */
    ghost function Restored(): (Bytes, nat)
      reads this
    {
      if inTrans then (journal, journalSize) else (bytes, size)
    }

    /** sqlite3BtreeBeginTrans(p, 2) */
    method BeginTrans(os: Os) returns (rc: int)
      modifies this`inTrans, this`journal, this`journalSize, os
      ensures rc != DONE && os.Tells(rc == OK)
      ensures old(inTrans) ==> rc == OK && inTrans && journal == old(journal) && journalSize == old(journalSize)
      ensures !old(inTrans) ==> inTrans == (rc == OK) && (rc == OK ==> journal == bytes && journalSize == size)
    {
      if inTrans { return OK; }
      rc := os.LockResult();
      if rc == OK {
        inTrans, journal, journalSize := true, bytes, size;
      }
    }

    /** sqlite3PagerGet and sqlite3PagerWrite on a page, then memcpy into it. */
    method WritePage(pg: nat, off: nat, data: seq<Byte>, os: Os) returns (rc: int)
      requires pg > 0 && off + |data| <= pgsz && inTrans
      modifies this`bytes, this`size, os
      ensures IoCode(rc) && os.Tells(rc == OK)
      ensures rc == OK ==> bytes == Overwrite(old(bytes), Offset(pg, pgsz) + off, data)
      ensures rc != OK ==> bytes == old(bytes)
    {
      rc := os.IoResult();
      if rc == OK {
        bytes := Overwrite(bytes, Offset(pg, pgsz) + off, data);
        if size < pg * pgsz { size := pg * pgsz; }
      }
    }

    /** sqlite3PagerTruncateImage */
    method TruncateImage(nPage: nat)
      requires inTrans
      modifies this`bytes, this`size
      ensures bytes == Truncate(old(bytes), nPage * pgsz)
      ensures size == nPage * pgsz
    {
      bytes := Truncate(bytes, nPage * pgsz);
      size := nPage * pgsz;
    }

    /** sqlite3OsWrite */
    method WriteFile(off: nat, data: seq<Byte>, os: Os) returns (rc: int)
      modifies this`bytes, this`size, os
      ensures IoCode(rc) && os.Tells(rc == OK)
      ensures rc == OK ==> bytes == Overwrite(old(bytes), off, data)
      ensures rc == OK ==> size == if off + |data| > old(size) then off + |data| else old(size)
    {
      rc := os.IoResult();
      if rc == OK {
        bytes := Overwrite(bytes, off, data);
        if off + |data| > size { size := off + |data|; }
      }
    }

    /** backupTruncateFile */
    method TruncateFile(iSize: nat, os: Os) returns (rc: int)
      modifies this`bytes, this`size, os
      ensures IoCode(rc) && os.Tells(rc == OK)
      ensures rc == OK ==> size == if old(size) > iSize then iSize else old(size)
      ensures rc == OK ==> bytes == if old(size) > iSize then Truncate(old(bytes), iSize) else old(bytes)
    {
      rc := os.IoResult();
      if rc == OK && size > iSize {
        rc := os.IoResult();
        if rc == OK {
          bytes, size := Truncate(bytes, iSize), iSize;
        }
      }
    }

    /** sqlite3BtreeCommitPhaseTwo: the journal is given up. */
    method CommitPhaseTwo(os: Os) returns (rc: int)
      modifies this`inTrans, os
      ensures IoCode(rc) && os.Tells(rc == OK) && (rc == OK ==> !inTrans) && (rc != OK ==> inTrans == old(inTrans))
    {
      rc := os.IoResult();
      if rc == OK { inTrans := false; }
    }

    /** sqlite3BtreeRollback */
    method Rollback()
      modifies this
      ensures !inTrans
      ensures bytes == (if old(inTrans) then old(journal) else old(bytes))
      ensures size == (if old(inTrans) then old(journalSize) else old(size))
    {
      if inTrans {
        bytes, size := journal, journalSize;
      }
      inTrans := false;
    }
  }
}
