/** src/backup.c: the online backup. */
module Backup {
  import opened CBasics
  import opened BackupPages
  import opened BackupDest

  /** sqlite3_backup */
  class Backup {
    const src: Source
    const dest: Dest
    const hasDestDb: bool        // pDestDb != 0: made by sqlite3_backup_init
    var iDestSchema: nat
    var bDestLocked: bool
    var iNext: nat
    var rc: int
    var nRemaining: nat
    var nPagecount: nat
    var isAttached: bool
    ghost var done: (Bytes, nat)        // bytes and pages of the source when the backup reached DONE
    ghost const start: Bytes            // the destination when the backup was made
    ghost const before: (Bytes, nat)    // bytes and size that a rollback of the destination leads to

    constructor (src: Source, dest: Dest, hasDestDb: bool)
      ensures this.src == src && this.dest == dest && this.hasDestDb == hasDestDb
      ensures iNext == 1 && rc == OK && !bDestLocked && !isAttached
      ensures start == dest.bytes && before == dest.Restored()
    {
      this.src, this.dest, this.hasDestDb := src, dest, hasDestDb;
      iDestSchema, bDestLocked, iNext, rc, nRemaining, nPagecount, isAttached := 0, false, 1, OK, 0, 0, false;
      start, before, done := dest.bytes, dest.Restored(), (map[], 0);
    }

    /** With result code `code`, the destination can be brought back until the backup is done; then it is the copy of
        the source as it was. */
    ghost predicate Undoable(code: int)
      reads this`bDestLocked, this`iDestSchema, this`done, dest
    {
      if code == DONE then !dest.inTrans && IsCopyOf(done)
      else
        && before == dest.Restored()
        && (if bDestLocked then dest.inTrans && iDestSchema == Cookie(start) else dest.bytes == start)
    }

    /** A running backup that has copied something is locked, attached and up to date with this source image. */
    ghost predicate UpToDate(code: int, bytes: Bytes, nPage: nat, changed: bool)
      reads this`bDestLocked, this`iNext, this`isAttached, dest
    {
      && iNext > 0
      && (!IsFatal(code) && iNext > 1 ==> bDestLocked && isAttached)
      && (!IsFatal(code) && !changed ==> Synced(bytes, nPage, src.pgsz, dest.bytes, dest.pgsz, iNext))
    }

    ghost predicate OwnAs(code: int)
      reads this`bDestLocked, this`iDestSchema, this`iNext, this`isAttached, this`done
      reads src`bytes, src`nPage, src`changed, dest
    {
      PageSize(dest.pgsz) && Undoable(code) && UpToDate(code, src.bytes, src.nPage, src.changed)
    }

    ghost predicate Own()
      reads this, src`bytes, src`nPage, src`changed, dest
    {
      OwnAs(rc)
    }

    /** Inside a step, both transactions are open and the pages below iNext are copied. */
    ghost predicate Copying()
      reads this`bDestLocked, this`iDestSchema, this`iNext, src`bytes, src`nPage, dest
    {
      && PageSize(src.pgsz) && PageSize(dest.pgsz) && iNext > 0
      && bDestLocked && dest.inTrans && iDestSchema == Cookie(start)
      && Synced(src.bytes, src.nPage, src.pgsz, dest.bytes, dest.pgsz, iNext)
    }

    /** The destination is a finished copy of a source with these bytes and pages, of its size, and nothing of the old
        destination is left. */
    ghost predicate IsCopyOf(image: (Bytes, nat))
      reads dest
    {
      var (bytes, nPage) := image;
      && Complete(bytes, nPage, src.pgsz, dest.bytes, dest.isWal)
      && EndsBy(dest.bytes, nPage * src.pgsz) && FileSize(dest.size, nPage * src.pgsz, src.pgsz)
      && (nPage > 0 ==> Cookie(dest.bytes) == (Cookie(start) + 1) % U32)
      && (nPage > 0 && dest.isWal ==> Get(dest.bytes, 18) == 2 && Get(dest.bytes, 19) == 2)
    }

    /** The destination is a finished copy of the source as it is now, and this is on record. */
    ghost predicate Delivered()
      reads this`done, src`bytes, src`nPage, dest
    {
      done == (src.bytes, src.nPage) && IsCopyOf(done)
    }

    /** An in-memory destination cannot take pages of another size. */
    predicate Unfit() {
      src.pgsz != dest.pgsz && dest.isMemdb
    }

    /** A step of nPage pages that starts at page `first` comes by page p. */
    predicate Passes(p: nat, first: nat, nPage: int)
      reads src`nPage
    {
      first <= p <= src.nPage && (nPage < 0 || p < first + nPage)
    }

    /** It has a page to copy. */
    ghost predicate Copies(first: nat, nPage: int)
      requires PageSize(src.pgsz)
      reads src`nPage
    {
      exists p :: Passes(p, first, nPage) && p != PendingPage(src.pgsz)
    }

    lemma CopiesFirst(nPage: int)
      requires PageSize(src.pgsz)
      ensures Copies(1, nPage) <==> src.nPage > 0 && nPage != 0
    {
      if src.nPage > 0 && nPage != 0 { assert Passes(1, 1, nPage); }
    }

    /** backupOnePage: on success the destination holds the page outside its own pending page, and nothing
        else changed; after an error nothing outside the page changed. */
    method BackupOnePage(iSrcPg: nat, zSrcData: seq<Byte>) returns (rc: int)
      requires PageSize(src.pgsz) && PageSize(dest.pgsz) && dest.inTrans
      requires bDestLocked && !IsFatal(this.rc) && 0 < iSrcPg != PendingPage(src.pgsz) && |zSrcData| == src.pgsz
      modifies dest`bytes, dest`size, src.os
      ensures IoCode(rc) && src.os.Tells(rc == OK || Unfit())
      ensures rc == OK ==> PageCopied(old(dest.bytes), dest.bytes, iSrcPg, src.pgsz, dest.pgsz, zSrcData)
      ensures rc != OK ==> PageTouched(old(dest.bytes), dest.bytes, iSrcPg, src.pgsz)
      ensures src.pgsz != dest.pgsz && dest.isMemdb ==> rc == READONLY && dest.bytes == old(dest.bytes)
    {
      var nSrcPgsz, nDestPgsz := src.pgsz, dest.pgsz;
      var nCopy := if nSrcPgsz < nDestPgsz then nSrcPgsz else nDestPgsz;
      var iEnd := iSrcPg * nSrcPgsz;
      rc := OK;
      if nSrcPgsz != nDestPgsz && dest.isMemdb {
        rc := READONLY;
      }
      ghost var was, base := dest.bytes, Offset(iSrcPg, nSrcPgsz);
      NextPage(iSrcPg, nSrcPgsz);
      PartNothing(was, iSrcPg, nSrcPgsz, nDestPgsz, zSrcData);
      assert nSrcPgsz > 0 && nDestPgsz > 0;
      hide PageSize, PendingPage, PartCopied, PageTouched, PageCopied;
      var iOff: nat := iEnd - nSrcPgsz;
      ghost var j: nat, upto: nat := 0, iOff;
      while rc == OK && iOff < iEnd
        invariant IoCode(rc) && PageSize(nSrcPgsz) && PageSize(nDestPgsz)
        invariant upto == if iOff < iEnd then iOff else iEnd
        invariant rc == OK && iOff < iEnd ==> iOff == base + j * nDestPgsz && (nSrcPgsz < nDestPgsz ==> j == 0)
        invariant rc == OK ==> PartCopied(was, dest.bytes, base, upto, nDestPgsz, zSrcData)
        invariant rc != OK ==> PageTouched(was, dest.bytes, iSrcPg, nSrcPgsz)
        invariant nSrcPgsz != nDestPgsz && dest.isMemdb ==> rc == READONLY && dest.bytes == was
        invariant src.os.Tells(rc == OK || Unfit())
        decreases iEnd + nDestPgsz - iOff
      {
        ChunkAt(iSrcPg, iOff, j, nSrcPgsz, nDestPgsz, nCopy);
        rc := CopyChunk(iSrcPg, iOff, nCopy, zSrcData, was);
        iOff := iOff + nDestPgsz;
        j := j + 1;
        upto := if iOff < iEnd then iOff else iEnd;
      }
      if rc == OK {
        PartTouched(was, dest.bytes, iSrcPg, upto, nSrcPgsz, nDestPgsz, zSrcData);
      }
    }

    /** The loop body of backupOnePage. */
    method CopyChunk(iSrcPg: nat, iOff: nat, nCopy: nat, zSrcData: seq<Byte>, ghost was: Bytes) returns (rc: int)
      requires PageSize(src.pgsz) && PageSize(dest.pgsz) && dest.inTrans && iSrcPg > 0 && |zSrcData| == src.pgsz
      requires ChunkFits(Offset(iSrcPg, src.pgsz), iOff, nCopy, src.pgsz, dest.pgsz)
      requires PartCopied(was, dest.bytes, Offset(iSrcPg, src.pgsz), iOff, dest.pgsz, zSrcData)
      modifies dest`bytes, dest`size, src.os
      ensures IoCode(rc) && src.os.Tells(rc == OK)
      ensures rc == OK ==> PartCopied(was, dest.bytes, Offset(iSrcPg, src.pgsz), iOff + nCopy, dest.pgsz, zSrcData)
      ensures rc != OK ==> PageTouched(was, dest.bytes, iSrcPg, src.pgsz)
    {
      hide PageSize, PendingPage, PartCopied, PageTouched, ChunkFits, Offset, Overwrite, IsFatal;
      ChunkPlace(Offset(iSrcPg, src.pgsz), iOff, nCopy, src.pgsz, dest.pgsz);
      PartTouched(was, dest.bytes, iSrcPg, iOff, src.pgsz, dest.pgsz, zSrcData);
      var iDest, k: nat, to: nat := iOff / dest.pgsz + 1, iOff % src.pgsz, iOff % dest.pgsz;
      ChunkWritten(was, dest.bytes, Offset(iSrcPg, src.pgsz), iOff, nCopy, src.pgsz, dest.pgsz, zSrcData, iDest, k, to);
      if iDest == PendingPage(dest.pgsz) { return OK; }
      rc := dest.WritePage(iDest, to, zSrcData[k..k + nCopy], src.os);
    }

    /** One turn of the copy loop: page iNext is copied, or skipped if it is the source's pending page. */
    method CopyNext() returns (rc: int)
      requires Copying() && !IsFatal(this.rc)
      modifies this`iNext, dest`bytes, dest`size, src.os
      ensures IoCode(rc) && iNext == old(iNext) + 1
      ensures rc == OK ==> Copying()
      ensures src.os.failures >= old(src.os.failures)
      ensures rc == OK <==> src.os.Well() && !(Unfit() && old(iNext) != PendingPage(src.pgsz))
      ensures src.os.Well() && rc != OK ==> rc == READONLY
    {
      rc := OK;
      ghost var was, i := dest.bytes, iNext;
      if iNext != PendingPage(src.pgsz) {
        rc := src.os.IoResult();
        if rc == OK {
          rc := BackupOnePage(iNext, Slice(src.bytes, Offset(iNext, src.pgsz), src.pgsz));
        }
        if rc == OK {
          SyncedAdvance(src.bytes, src.nPage, src.pgsz, was, dest.bytes, dest.pgsz, i);
        }
      } else {
        SyncedSkip(src.bytes, src.nPage, src.pgsz, was, dest.pgsz, i);
      }
      hide *;
      iNext := iNext + 1;
    }

    /** The copy loop: at most nPage pages, or all of them if nPage is negative. */
    method CopyPages(nPage: int, nSrcPage: nat) returns (rc: int)
      requires Copying() && !IsFatal(this.rc) && nSrcPage == src.nPage
      modifies this`iNext, dest`bytes, dest`size, src.os
      ensures IoCode(rc) && iNext >= old(iNext)
      ensures rc == OK ==> Copying()
      ensures src.os.failures >= old(src.os.failures)
      ensures rc == OK <==> src.os.Well() && !(Unfit() && Copies(old(iNext), nPage))
      ensures src.os.Well() && rc != OK ==> rc == READONLY
      ensures rc == OK && iNext <= nSrcPage ==> nPage >= 0 && iNext == old(iNext) + nPage
      ensures rc == OK && iNext > nSrcPage ==> nPage < 0 || old(iNext) + nPage > nSrcPage
    {
      hide Synced, PageSize;
      rc := OK;
      var ii := 0;
      while (nPage < 0 || ii < nPage) && iNext <= nSrcPage && rc == OK
        invariant IoCode(rc) && (rc == OK ==> Copying())
        invariant iNext == old(iNext) + ii && ii >= 0 && (nPage >= 0 ==> ii <= nPage)
        invariant src.os.failures >= old(src.os.failures) && (rc == OK ==> src.os.Well())
        invariant rc == OK && Unfit() ==>
          forall p: nat :: Passes(p, old(iNext), nPage) && p < iNext ==> p == PendingPage(src.pgsz)
        invariant src.os.Well() && rc != OK ==> rc == READONLY && Unfit() && Copies(old(iNext), nPage)
        decreases nSrcPage + 1 - iNext
      {
        assert Passes(iNext, old(iNext), nPage);
        rc := CopyNext();
        ii := ii + 1;
      }
    }

    /** The schema version, and the format versions in WAL mode, are written into the destination's header. */
    method WriteHeader() returns (rc: int)
      requires PageSize(dest.pgsz) && dest.inTrans
      modifies dest`bytes, dest`size, src.os
      ensures IoCode(rc) && src.os.Tells(rc == OK)
      ensures rc == OK ==> HeaderOnly(old(dest.bytes), dest.bytes, dest.isWal)
      ensures rc == OK ==> Cookie(dest.bytes) == (iDestSchema + 1) % U32
      ensures rc == OK && dest.isWal ==> Get(dest.bytes, 18) == 2 && Get(dest.bytes, 19) == 2
    {
      var schema := (iDestSchema + 1) % U32;
      CookieOfPut(dest.bytes, schema);
      CookieIsHeader(dest.bytes, schema, dest.isWal);
      assert 44 <= dest.pgsz && Offset(1, dest.pgsz) == 0;
      hide PageSize, Put4, Cookie, Overwrite, HeaderField;
      rc := dest.WritePage(1, 40, Put4(schema), src.os);
      if rc == OK && dest.isWal {
        rc := SetVersion();
      }
    }

    /** sqlite3BtreeSetVersion(p, 2) */
    method SetVersion() returns (rc: int)
      requires PageSize(dest.pgsz) && dest.inTrans
      modifies dest`bytes, dest`size, src.os
      ensures IoCode(rc) && src.os.Tells(rc == OK)
      ensures rc == OK ==> HeaderOnly(old(dest.bytes), dest.bytes, true)
      ensures rc == OK ==> Cookie(dest.bytes) == Cookie(old(dest.bytes))
      ensures rc == OK ==> Get(dest.bytes, 18) == 2 && Get(dest.bytes, 19) == 2
    {
      rc := dest.WritePage(1, 18, [2, 2], src.os);
    }

    /** The pages that the copy loop left out, because they lie in the destination's pending page, are written
        straight into the file. */
    method WriteExtra(nSrcPage: nat) returns (rc: int)
      requires PageSize(src.pgsz) && PageSize(dest.pgsz) && src.pgsz < dest.pgsz && nSrcPage == src.nPage
      modifies dest`bytes, dest`size, src.os
      ensures IoCode(rc) && src.os.Tells(rc == OK)
      ensures rc == OK ==> dest.size == ExtraSize(old(dest.size), src.pgsz, dest.pgsz, nSrcPage)
      ensures rc == OK ==>
        ExtraWritten(src.bytes, old(dest.bytes), dest.bytes, ExtraEnd(src.pgsz, dest.pgsz, nSrcPage), src.pgsz)
    {
      rc := OK;
      var iEnd := ExtraEnd(src.pgsz, dest.pgsz, nSrcPage);
      var iOff := PENDING_BYTE + src.pgsz;
      ghost var k: nat := PendingPage(src.pgsz);
      PendingPageBytes(0, src.pgsz);
      ExtraNothing(src.bytes, dest.bytes, iOff, src.pgsz);
      if iEnd < iOff { ExtraNothing(src.bytes, dest.bytes, iEnd, src.pgsz); }
      assert src.pgsz > 0 && iOff == k * src.pgsz;
      hide PageSize, PendingPage, ExtraWritten, ExtraEnd;
      while rc == OK && iOff < iEnd
        invariant IoCode(rc) && src.os.Tells(rc == OK) && iOff == k * src.pgsz && iOff >= PENDING_BYTE + src.pgsz
        invariant iOff <= iEnd || iOff == PENDING_BYTE + src.pgsz
        invariant rc == OK ==>
          dest.size == if PENDING_BYTE + src.pgsz < iOff && old(dest.size) < iOff then iOff else old(dest.size)
        invariant rc == OK ==> ExtraWritten(src.bytes, old(dest.bytes), dest.bytes, iOff, src.pgsz)
        invariant rc == OK && iEnd < iOff ==> ExtraWritten(src.bytes, old(dest.bytes), dest.bytes, iEnd, src.pgsz)
        decreases iEnd - iOff
      {
        ExtraStep(k, nSrcPage, src.pgsz, dest.pgsz);
        rc := WriteExtraPage(iOff, k, old(dest.bytes));
        iOff := iOff + src.pgsz;
        k := k + 1;
      }
    }

    /** The loop body of the extra-page loop. */
    method WriteExtraPage(iOff: nat, ghost k: nat, ghost was: Bytes) returns (rc: int)
      requires src.pgsz > 0 && iOff == k * src.pgsz && iOff / src.pgsz == k && iOff >= PENDING_BYTE + src.pgsz
      requires ExtraWritten(src.bytes, was, dest.bytes, iOff, src.pgsz)
      modifies dest`bytes, dest`size, src.os
      ensures IoCode(rc) && src.os.Tells(rc == OK)
      ensures rc == OK ==> ExtraWritten(src.bytes, was, dest.bytes, iOff + src.pgsz, src.pgsz)
      ensures rc == OK ==> dest.size == if iOff + src.pgsz > old(dest.size) then iOff + src.pgsz else old(dest.size)
    {
      ExtraGrows(src.bytes, was, dest.bytes, iOff, src.pgsz);
      ghost var page := Slice(src.bytes, iOff, src.pgsz);
      assert |page| == src.pgsz && Offset(iOff / src.pgsz + 1, src.pgsz) == iOff;
      hide ExtraWritten, Overwrite, Slice, Offset;
      var iSrcPg := iOff / src.pgsz + 1;
      rc := src.os.IoResult();
      if rc == OK {
        rc := dest.WriteFile(iOff, Slice(src.bytes, Offset(iSrcPg, src.pgsz), src.pgsz), src.os);
      }
    }

    /** The file is cut to size and completed, up to the sync before the commit. */
    method CompleteFile(nSrcPage: nat, ghost copied: Bytes) returns (rc: int)
      requires PageSize(src.pgsz) && PageSize(dest.pgsz) && dest.inTrans && iNext > nSrcPage == src.nPage
      requires Synced(src.bytes, src.nPage, src.pgsz, copied, dest.pgsz, iNext)
      requires HeaderOnly(copied, dest.bytes, dest.isWal)
      modifies dest`bytes, dest`size, src.os
      ensures IoCode(rc) && src.os.Tells(rc == OK)
      ensures rc == OK ==> Finished(src.bytes, src.nPage, src.pgsz, old(dest.bytes), dest.bytes, dest.isWal)
      ensures rc == OK ==> FileSize(dest.size, src.nPage * src.pgsz, src.pgsz)
    {
      ghost var head := dest.bytes;
      hide Synced, HeaderOnly, ExtraWritten, Finished, Truncate, IsFatal;
      var nDestTruncate := DestPages(nSrcPage, src.pgsz, dest.pgsz);
      dest.TruncateImage(nDestTruncate);
      if src.pgsz < dest.pgsz {
        var iSize := src.pgsz * nSrcPage;
        DestPagesEnough(nSrcPage, src.pgsz, dest.pgsz);
        assert nDestTruncate * dest.pgsz >= iSize
          || (nDestTruncate == PendingPage(dest.pgsz) - 1 && PENDING_BYTE <= iSize <= PENDING_BYTE + dest.pgsz);
        hide PageSize, PendingPage, DestPages;
        rc := CompleteSmaller(nSrcPage, iSize, head, copied);
      } else {
        FinishedLarger(src.bytes, nSrcPage, src.pgsz, dest.pgsz, iNext, copied, head, dest.isWal);
        DestPagesEnough(nSrcPage, src.pgsz, dest.pgsz);
        rc := src.os.IoResult();       // sqlite3PagerCommitPhaseOne
      }
    }

    /** The pages of the source are smaller: the extra pages are written, and the file is cut inside a page. */
    method CompleteSmaller(nSrcPage: nat, iSize: nat, ghost head: Bytes, ghost copied: Bytes) returns (rc: int)
      requires PageSize(src.pgsz) && PageSize(dest.pgsz) && src.pgsz < dest.pgsz
      requires iNext > nSrcPage == src.nPage && iSize == nSrcPage * src.pgsz
      requires Synced(src.bytes, src.nPage, src.pgsz, copied, dest.pgsz, iNext) && HeaderOnly(copied, head, dest.isWal)
      requires dest.bytes == Truncate(head, DestPages(nSrcPage, src.pgsz, dest.pgsz) * dest.pgsz)
      requires dest.size == DestPages(nSrcPage, src.pgsz, dest.pgsz) * dest.pgsz
      modifies dest`bytes, dest`size, src.os
      ensures IoCode(rc) && src.os.Tells(rc == OK)
      ensures rc == OK ==> Finished(src.bytes, src.nPage, src.pgsz, head, dest.bytes, dest.isWal)
      ensures rc == OK ==> FileSize(dest.size, iSize, src.pgsz)
    {
      SizeSmaller(nSrcPage, src.pgsz, dest.pgsz);
      hide PageSize, Synced, HeaderOnly, ExtraWritten, ExtraSize, ExtraEnd, Finished, Truncate, DestPages, IsFatal,
        FileSize;
      rc := src.os.IoResult();       // sqlite3PagerCommitPhaseOne
      if rc == OK { rc := WriteExtra(nSrcPage); }
      if rc == OK {
        FinishedSmaller(src.bytes, nSrcPage, src.pgsz, dest.pgsz, iNext, copied, head, dest.bytes, dest.size,
          dest.isWal);
        rc := dest.TruncateFile(iSize, src.os);
      }
      if rc == OK { rc := src.os.IoResult(); }       // sqlite3PagerSync
    }

    /** All pages are copied: the header is rewritten, the file completed and the transaction committed. */
    method CommitCopy(nSrcPage: nat) returns (rc: int)
      requires Copying() && iNext > nSrcPage == src.nPage
      modifies this`done, dest`bytes, dest`size, dest`inTrans, src.os
      ensures (rc == DONE || (IoCode(rc) && rc != OK)) && src.os.Tells(rc == DONE)
      ensures rc == DONE ==> !dest.inTrans && Delivered()
      ensures rc != DONE ==> dest.inTrans
    {
      hide PageSize, Synced, HeaderOnly;
      ghost var copied := dest.bytes;
      rc := WriteHeader();
      if rc == OK {
        rc := CompleteFile(nSrcPage, copied);
        if rc == OK {
          rc := dest.CommitPhaseTwo(src.os);
          if rc == OK {
            rc := DONE;
            done := (src.bytes, src.nPage);
          }
        }
      }
    }

    /** attachBackupObject */
    method Attach()
      requires src.ListOk() && this in src.live && hasDestDb && !isAttached
      modifies this`isAttached, src`list
      ensures src.ListOk()
      ensures isAttached && src.list == [this] + old(src.list)
    {
      src.list := [this] + src.list;
      isAttached := true;
    }

    /** The destination is locked, if it is not locked already. */
    method LockDest() returns (rc: int)
      requires !bDestLocked && Undoable(OK)
      modifies this`bDestLocked, this`iDestSchema, dest`inTrans, dest`journal, dest`journalSize, src.os
      ensures rc != DONE && src.os.Tells(rc == OK) && bDestLocked == (rc == OK) && Undoable(OK)
    {
      rc := dest.BeginTrans(src.os);
      if rc == OK {
        bDestLocked := true;
        iDestSchema := Cookie(dest.bytes);
      }
    }

    /** What a step has achieved when it is about to return `res`; `first` is the first page it had to copy. */
    ghost predicate Outcome(res: int, first: nat, nPage: int)
      reads this`bDestLocked, this`iDestSchema, this`iNext, this`isAttached, this`nPagecount, this`nRemaining
      reads this`done, src`bytes, src`nPage, dest
    {
      && (res == OK ==>
            && Copying() && isAttached && nPage >= 0 && iNext == first + nPage <= src.nPage)
      && (res == OK || res == DONE ==>
            && nPagecount == src.nPage
            && (iNext <= src.nPage + 1 ==> nRemaining + iNext == nPagecount + 1))
      && (res == DONE ==> !dest.inTrans && Delivered() && (nPage < 0 || first + nPage > src.nPage))
      && (res != DONE ==> bDestLocked && dest.inTrans && iDestSchema == Cookie(start))
    }

    /** The part of a step that runs with both transactions open. */
    method CopyAndCommit(nPage: int) returns (res: int)
      requires Copying() && !IsFatal(rc) && src.nPage < 0x8000_0000 && (hasDestDb || nPage >= 0x7FFF_FFFF)
      requires src.ListOk() && this in src.live && before == (dest.journal, dest.journalSize)
      modifies this`iNext, this`nPagecount, this`nRemaining, this`isAttached, this`done, src`list
      modifies dest`bytes, dest`size, dest`inTrans, src.os
      ensures src.os.failures >= old(src.os.failures)
      ensures res == OK || res == DONE <==> src.os.Well() && !(Unfit() && Copies(old(iNext), nPage))
      ensures src.os.Well() && res != OK && res != DONE ==> res == READONLY
      ensures Outcome(res, old(iNext), nPage) && res != BUSY && res != LOCKED && (!src.changed ==> OwnAs(res))
      ensures src.ListOk()
    {
      hide PageSize, Synced;
      var nSrcPage := src.nPage;
      res := CopyPages(nPage, nSrcPage);
      if res == OK {
        nPagecount := nSrcPage;
        nRemaining := (nSrcPage + 1 - iNext) % U32;
        if iNext > nSrcPage {
          res := DONE;
        } else if !isAttached {
          Attach();
        }
      }
      if res == DONE {
        res := CommitCopy(nSrcPage);
      }
    }

    /** The opening of a step: the destination is locked and the source is read-locked, unless it is being written. */
    method Open() returns (res: int, bCloseTrans: bool)
      requires src.Valid() && this in src.live && !IsFatal(rc)
      modifies this`bDestLocked, this`iDestSchema, dest`inTrans, dest`journal, dest`journalSize
      modifies src`reading, src`changed, src.live`iNext, src.os
      ensures src.os.failures >= old(src.os.failures)
      ensures res == OK <==> src.os.Well() && !(hasDestDb && src.writer) && !(dest.isWal && src.pgsz != dest.pgsz)
      ensures src.os.Well() && res != OK ==> res == if hasDestDb && src.writer then BUSY else READONLY
      ensures src.Valid() && res != DONE && (src.changed ==> old(src.changed))
      ensures src.reading == (old(src.reading) || (bCloseTrans && src.reading))
      ensures bCloseTrans ==> !old(src.reading)
      ensures hasDestDb && src.writer ==> res == BUSY
      ensures dest.isWal && src.pgsz != dest.pgsz ==> res != OK
      ensures res == OK ==> Copying() && !src.changed && iNext == if old(src.changed) then 1 else old(iNext)
      ensures res == BUSY || res == LOCKED ==> iNext == old(iNext)
      ensures res != OK ==> OwnAs(res)
      ensures res == OK ==> before == (dest.journal, dest.journalSize)
    {
      hide PageSize, Synced, Cookie;
      bCloseTrans := false;
      res := if hasDestDb && src.writer then BUSY else OK;
      if res == OK && !bDestLocked { res := LockDest(); }
      if res == OK && !src.reading {
        res := src.BeginRead();
        bCloseTrans := true;
      }
      if res == OK && dest.isWal && src.pgsz != dest.pgsz { res := READONLY; }
    }

    /** The end of a step: the read transaction it opened is closed and the result stored. */
    method Close(res: int, bCloseTrans: bool) returns (r: int)
      requires src.ValidBut(this) && this in src.live && OwnAs(res)
      modifies this`rc, src`reading
      ensures src.Valid() && r == rc && src.reading == (old(src.reading) && !bCloseTrans)
      ensures r == if res == IOERR_NOMEM then NOMEM else res
    {
      if bCloseTrans { src.EndRead(); }
      r := res;
      if r == IOERR_NOMEM { r := NOMEM; }
      rc := r;
    }

    /** Nothing but a failure can keep a step from succeeding: the source is not being written, and the destination can
        take its pages. */
    ghost predicate Possible(changed: bool, iNext: nat, nPage: int)
      requires PageSize(src.pgsz)
      reads src`writer, src`nPage
    {
      && !(hasDestDb && src.writer)
      && !(dest.isWal && src.pgsz != dest.pgsz)
      && !(Unfit() && Copies(if changed then 1 else iNext, nPage))
    }

    lemma PossibleFrom(iNext: nat, nPage: int)
      requires PageSize(src.pgsz) && iNext > 0
      ensures !(hasDestDb && src.writer) && src.Fits(dest) ==> forall changed :: Possible(changed, iNext, nPage)
      ensures iNext == 1 && nPage != 0 ==>
        forall changed :: Possible(changed, 1, nPage) <==> !(hasDestDb && src.writer) && src.Fits(dest)
    {
      CopiesFirst(nPage);
    }

    /** sqlite3_backup_step: what is copied, and exactly when it succeeds. */
    method Step(nPage: int) returns (res: int)
      requires src.Valid() && this in src.live && (hasDestDb || nPage >= 0x7FFF_FFFF)
      modifies this, dest, src`reading, src`changed, src`list, src.live`iNext, src.os
      ensures src.os.failures >= old(src.os.failures)
      ensures !IsFatal(old(rc)) ==>
        (res == OK || res == DONE <==> src.os.Well() && Possible(old(src.changed), old(iNext), nPage))
      ensures !IsFatal(old(rc)) && src.os.Well() && res != OK && res != DONE ==>
        res == if hasDestDb && src.writer then BUSY else READONLY
      ensures src.Valid() && src.reading == old(src.reading) && res == rc && (src.changed ==> old(src.changed))
      ensures IsFatal(old(rc)) ==>
        && rc == old(rc) && iNext == old(iNext) && done == old(done)
        && dest.bytes == old(dest.bytes) && dest.size == old(dest.size)
      ensures !IsFatal(old(rc)) && hasDestDb && src.writer ==> res == BUSY
      ensures !IsFatal(old(rc)) && dest.isWal && src.pgsz != dest.pgsz ==> res != OK && res != DONE
      ensures !IsFatal(old(rc)) && (res == OK || res == DONE) ==>
        Outcome(res, if old(src.changed) then 1 else old(iNext), nPage)
      ensures !IsFatal(old(rc)) && (res == BUSY || res == LOCKED) ==>
        iNext == old(iNext) && dest.bytes == old(dest.bytes) && dest.size == old(dest.size)
    {
      hide PageSize, Cookie, Outcome, OwnAs, Copying;
      res := rc;
      if !IsFatal(res) {
        var bCloseTrans;
        res, bCloseTrans := Open();
        if res == OK { res := CopyAndCommit(nPage); }
        res := Close(res, bCloseTrans);
      }
    }

    /** The result, the recorded source image and the destination are as they were. */
    twostate predicate Kept()
      reads this, dest
    {
      rc == old(rc) && done == old(done) && dest.bytes == old(dest.bytes) && dest.size == old(dest.size)
    }

    /** After a page write without a failure. */
    twostate predicate Told(iPage: nat)
      reads this
    {
      rc == if iPage < iNext && Unfit() then READONLY else old(rc)
    }

    /** The loop body of sqlite3BackupUpdate: page iPage of the source, which had the contents `was`, was written. */
    method PageWritten(iPage: nat, aData: seq<Byte>, ghost was: Bytes, ghost nWas: nat)
      requires PageSize(src.pgsz) && PageSize(dest.pgsz) && |aData| == src.pgsz
        && Grows(nWas, iPage, src.pgsz, src.nPage)
      requires src.bytes == Overwrite(was, Offset(iPage, src.pgsz), aData)
      requires Undoable(rc) && UpToDate(rc, was, nWas, false)
      modifies this`rc, dest`bytes, dest`size, src.os
      ensures Undoable(rc) && UpToDate(rc, src.bytes, src.nPage, false)
      ensures src.os.failures >= old(src.os.failures)
      ensures !IsFatal(old(rc)) ==> (rc == old(rc) <==> src.os.Well() && !(iPage < iNext && Unfit()))
      ensures !IsFatal(old(rc)) && src.os.Well() ==> rc == old(rc) || rc == READONLY
      ensures IsFatal(old(rc)) ==> rc == old(rc) && dest.bytes == old(dest.bytes) && dest.size == old(dest.size)
    {
      ghost var copied := dest.bytes;
      if !IsFatal(rc) {
        if iPage < iNext {
          var r := BackupOnePage(iPage, aData);
          assert r != BUSY && r != LOCKED;
          if r != OK {
            rc := r;
          } else {
            SyncedUpdate(was, nWas, src.pgsz, copied, dest.pgsz, iNext, iPage, aData, src.nPage, dest.bytes);
          }
        } else {
          SyncedIgnore(was, nWas, src.pgsz, copied, dest.pgsz, iNext, iPage, aData, src.nPage);
        }
      }
      hide *;
    }

    /** A backup that is not in the pager's list has copied nothing that a write could change. */
    lemma Unlisted(iPage: nat, aData: seq<Byte>, was: Bytes, nWas: nat)
      requires PageSize(src.pgsz) && |aData| == src.pgsz && Grows(nWas, iPage, src.pgsz, src.nPage)
      requires src.bytes == Overwrite(was, Offset(iPage, src.pgsz), aData)
      requires !isAttached && UpToDate(rc, was, nWas, false)
      ensures UpToDate(rc, src.bytes, src.nPage, false) && (!IsFatal(rc) ==> iPage >= iNext)
    {
    }

    /** The backup is unlinked from the pager's list. */
    method Detach()
      requires src.ListOk() && isAttached && this in src.live
      modifies src`list
      ensures src.Lists(src.live - {this})
    {
      var i := 0;
      while src.list[i] != this
        invariant 0 <= i < |src.list| && this in src.list[i..]
        decreases |src.list| - i
      {
        i := i + 1;
      }
      Unlinked(src.list, i);
      src.list := src.list[..i] + src.list[i + 1..];
    }

    /** The backup no longer counts as live. */
    method Unregister()
      requires src.Valid() && this in src.live
      modifies src`list, src`nBackup, src`live
      ensures src.Valid() && src.live == old(src.live) - {this} && forall b | b in src.live :: b.dest != dest
      ensures src.nBackup == old(src.nBackup) - (if hasDestDb then 1 else 0)
    {
      hide PageSize, Own;
      InitDrops(src.live, this);
      if hasDestDb { src.nBackup := src.nBackup - 1; }
      if isAttached { Detach(); }
      assert src.Lists(src.live - {this});
      hide Source.Lists, MadeByInit;
      src.live := src.live - {this};
    }

    /** sqlite3_backup_finish: a backup that is not done leaves its destination as it was. */
    method Finish() returns (r: int)
      requires src.Valid() && this in src.live
      modifies dest, src`list, src`nBackup, src`live
      ensures src.Valid() && src.live == old(src.live) - {this}
      ensures src.nBackup == old(src.nBackup) - (if hasDestDb then 1 else 0)
      ensures !dest.inTrans && (dest.bytes, dest.size) == if rc == DONE then (old(dest.bytes), old(dest.size))
        else before
      ensures rc == DONE ==> IsCopyOf(done)
      ensures r == if rc == DONE then OK else rc
    {
      assert if rc == DONE then !dest.inTrans else before == dest.Restored();
      hide Source.Valid;
      Unregister();
      dest.Rollback();
      r := if rc == DONE then OK else rc;
    }
  }

  /** The backups made by sqlite3_backup_init, not by sqlite3BtreeCopyFile. */
  ghost function MadeByInit(backups: set<Backup>): set<Backup> {
    set b | b in backups && b.hasDestDb
  }

  lemma InitAdds(backups: set<Backup>, p: Backup)
    requires p !in backups
    ensures |MadeByInit(backups + {p})| == |MadeByInit(backups)| + if p.hasDestDb then 1 else 0
  {
    assert MadeByInit(backups + {p}) == MadeByInit(backups) + if p.hasDestDb then {p} else {};
  }

  lemma InitDrops(backups: set<Backup>, p: Backup)
    requires p in backups
    ensures |MadeByInit(backups - {p})| == |MadeByInit(backups)| - if p.hasDestDb then 1 else 0
  {
    InitAdds(backups - {p}, p);
    assert backups - {p} + {p} == backups;
  }

  /** Where a chunk is read from and written to. */
  lemma ChunkPlace(base: nat, iOff: nat, n: nat, szSrc: nat, szDest: nat)
    requires PageSize(szSrc) && PageSize(szDest) && ChunkFits(base, iOff, n, szSrc, szDest)
    ensures szSrc > 0 && szDest > 0 && iOff >= base
    ensures iOff % szSrc == iOff - base && iOff - base + n <= szSrc
    ensures var off: nat := iOff % szDest; off + n <= szDest && Offset(iOff / szDest + 1, szDest) + off == iOff
  {
  }

  lemma ChunkWritten(was: Bytes, now: Bytes, base: nat, iOff: nat, n: nat, szSrc: nat, szDest: nat, data: seq<Byte>,
                     iDest: nat, k: nat, to: nat)
    requires PageSize(szSrc) && PageSize(szDest) && |data| == szSrc && ChunkFits(base, iOff, n, szSrc, szDest)
    requires PartCopied(was, now, base, iOff, szDest, data)
    requires iDest == iOff / szDest + 1 && k == iOff - base && k + n <= szSrc && Offset(iDest, szDest) + to == iOff
    ensures if iDest == PendingPage(szDest) then PartCopied(was, now, base, iOff + n, szDest, data)
            else PartCopied(was, Overwrite(now, Offset(iDest, szDest) + to, data[k..k + n]), base, iOff + n, szDest,
              data)
  {
    hide *;
    PartGrows(was, now, base, iOff, n, szSrc, szDest, data);
  }

  /** Removing the only occurrence of an element from the list. */
  lemma Unlinked(list: seq<Backup>, i: nat)
    requires i < |list| && forall j, k | 0 <= j < k < |list| :: list[j] != list[k]
    ensures var rest := list[..i] + list[i + 1..];
      && (forall j, k | 0 <= j < k < |rest| :: rest[j] != rest[k])
      && (forall b :: b in rest <==> b in list && b != list[i])
  {
  }

  lemma ChunkAt(iSrcPg: nat, iOff: nat, j: nat, szSrc: nat, szDest: nat, nCopy: nat)
    requires PageSize(szSrc) && PageSize(szDest) && iSrcPg > 0
    requires nCopy == if szSrc < szDest then szSrc else szDest
    requires iOff == Offset(iSrcPg, szSrc) + j * szDest && iOff < Offset(iSrcPg, szSrc) + szSrc
    requires szSrc < szDest ==> j == 0
    ensures ChunkFits(Offset(iSrcPg, szSrc), iOff, nCopy, szSrc, szDest)
    ensures var base, next := Offset(iSrcPg, szSrc), iOff + szDest;
      && (next < base + szSrc ==> next == base + (j + 1) * szDest && szDest <= szSrc)
      && iOff + nCopy == if next < base + szSrc then next else base + szSrc
  {
    hide PageSize, PendingPage, ChunkFits;
    var q: nat := iSrcPg - 1;
    assert Offset(iSrcPg, szSrc) == q * szSrc;
    if szSrc < szDest {
      SmallChunk(q, szSrc, szDest);
    } else {
      FullChunk(q, j, szSrc, szDest);
    }
  }

  /** The pager and b-tree of the source database, with the backups that read it. */
  class Source {
    const pgsz: nat
    const os: Os
    var bytes: Bytes
    var nPage: nat
    var writer: bool             // BtShared.inTransaction == TRANS_WRITE
    var reading: bool            // the source Btree is in a read transaction
    var changed: bool            // another process wrote the file since the last read
    var list: seq<Backup>        // the pager's list of attached backups
    var nBackup: int
    ghost var live: set<Backup>  // every backup that was made and not finished

    constructor (pgsz: nat, bytes: Bytes, nPage: nat, os: Os)
      requires PageSize(pgsz) && nPage < 0x8000_0000
      ensures Valid() && live == {} && this.pgsz == pgsz && this.bytes == bytes && this.nPage == nPage
    {
      this.pgsz, this.bytes, this.nPage, this.os := pgsz, bytes, nPage, os;
      writer, reading, changed, list, nBackup, live := false, false, false, [], 0, {};
    }

    /** Every live backup reads this source, and no two write to the same destination. */
    ghost predicate Members()
      reads this`live
    {
      && (forall b | b in live :: b.src == this)
      && (forall a, b | a in live && b in live && a != b :: a.dest != b.dest)
    }

    /** The pager's list holds the attached ones of these backups, each once; all were made by sqlite3_backup_init. */
    ghost predicate Lists(backups: set<Backup>)
      reads this`list, backups`isAttached
    {
      && (forall b | b in list :: b in backups && b.isAttached && b.hasDestDb)
      && (forall b | b in backups && b.isAttached :: b in list)
      && (forall i, j | 0 <= i < j < |list| :: list[i] != list[j])
    }

    ghost predicate ListOk()
      reads this`live, this`list, live`isAttached
    {
      Lists(live)
    }

    /** nBackup counts the live backups made by sqlite3_backup_init. */
    ghost predicate Counted()
      reads this`live, this`nBackup
    {
      nBackup == |MadeByInit(live)|
    }

    /** Everything but the state of p itself is in order. */
    ghost predicate ValidBut(p: Backup)
      reads this, live, set b | b in live :: b.dest
    {
      && PageSize(pgsz) && nPage < 0x8000_0000
      && (writer || reading ==> !changed)
      && Members() && ListOk() && Counted()
      && forall b | b in live && b != p :: b.Own()
    }

    ghost predicate Valid()
      reads this, live, set b | b in live :: b.dest
    {
      && PageSize(pgsz) && nPage < 0x8000_0000
      && (writer || reading ==> !changed)
      && Members() && ListOk() && Counted()
      && forall b | b in live :: b.Own()
    }

    /** sqlite3BackupRestart */
    method Restart()
      requires Members() && ListOk()
      modifies live`iNext
      ensures forall b | b in live :: b.iNext == if b.isAttached then 1 else old(b.iNext)
    {
      var i := 0;
      while i < |list|
        invariant 0 <= i <= |list|
        invariant forall b | b in live :: b.iNext == if b in list[..i] then 1 else old(b.iNext)
      {
        list[i].iNext := 1;
        i := i + 1;
      }
    }

    /** A read transaction is opened; a change by another process is noticed here and restarts the backups. */
    method BeginRead() returns (rc: int)
      requires Valid() && !reading
      modifies this`reading, this`changed, live`iNext, os
      ensures Valid() && rc != DONE && os.Tells(rc == OK)
      ensures rc == OK ==> reading && !changed
      ensures rc == OK ==> forall b | b in live && !IsFatal(b.rc) :: b.iNext == if old(changed) then 1 else old(b.iNext)
      ensures rc != OK ==> !reading && changed == old(changed) && forall b | b in live :: b.iNext == old(b.iNext)
    {
      hide PageSize, Synced, Backup.Undoable;
      rc := os.LockResult();
      if rc == OK {
        if changed {
          Restart();
          forall b | b in live ensures b.UpToDate(b.rc, bytes, nPage, false) {
            SyncedNothing(bytes, nPage, pgsz, b.dest.bytes, b.dest.pgsz);
          }
        }
        reading, changed := true, false;
      }
    }

    /** The read transaction is closed. */
    method EndRead()
      modifies this`reading
      ensures !reading
    {
      reading := false;
    }

    /** Failures apart, a page write ends exactly those running backups that have copied the page into an in-memory
        destination with another page size. */
    twostate predicate EndedOnly(iPage: nat)
      reads this`live, os, live
    {
      && os.failures >= old(os.failures)
      && (os.Well() ==> forall b | b in live && b in old(live) && !IsFatal(old(b.rc)) :: b.Told(iPage))
    }

    /** sqlite3BackupUpdate */
    method BackupUpdate(iPage: nat, aData: seq<Byte>, ghost was: Bytes, ghost nWas: nat)
      requires PageSize(pgsz) && Members() && ListOk()
      requires |aData| == pgsz && Grows(nWas, iPage, pgsz, nPage) && bytes == Overwrite(was, Offset(iPage, pgsz), aData)
      requires forall b | b in live :: PageSize(b.dest.pgsz) && b.Undoable(b.rc) && b.UpToDate(b.rc, was, nWas, false)
      modifies live`rc, os, set b | b in live :: b.dest
      ensures EndedOnly(iPage)
      ensures forall b | b in live :: b.Undoable(b.rc) && b.UpToDate(b.rc, bytes, nPage, false)
      ensures forall b | b in live && IsFatal(old(b.rc)) :: b.Kept()
    {
      hide PageSize, Grows, Backup.Undoable, Backup.UpToDate;
      var i := 0;
      while i < |list|
        invariant 0 <= i <= |list|
        invariant forall b | b in live :: b.Undoable(b.rc)
        invariant forall b | b in list[..i] :: b.UpToDate(b.rc, bytes, nPage, false)
        invariant forall b | b in live && b !in list[..i] :: b.UpToDate(b.rc, was, nWas, false)
        invariant forall b | b in live && IsFatal(old(b.rc)) :: b.Kept()
        invariant os.failures >= old(os.failures)
        invariant os.Well() ==> forall b | b in list[..i] && !IsFatal(old(b.rc)) :: b.Told(iPage)
        invariant forall b | b in live && b !in list[..i] :: b.rc == old(b.rc)
      {
        list[i].PageWritten(iPage, aData, was, nWas);
        i := i + 1;
      }
      forall b | b in live && b !in list
        ensures b.UpToDate(b.rc, bytes, nPage, false) && (!IsFatal(b.rc) ==> iPage >= b.iNext)
      {
        b.Unlisted(iPage, aData, was, nWas);
      }
    }

    /** A page of the source is written, inside a write transaction. */
    method WritePage(iPage: nat, aData: seq<Byte>)
      requires Valid() && writer && |aData| == pgsz && iPage < 0x8000_0000
      requires Grows(nPage, iPage, pgsz, if iPage > nPage then iPage else nPage)
      modifies this`bytes, this`nPage, live`rc, os, set b | b in live :: b.dest
      ensures EndedOnly(iPage)
      ensures Valid() && bytes == Overwrite(old(bytes), Offset(iPage, pgsz), aData)
      ensures nPage == if iPage > old(nPage) then iPage else old(nPage)
      ensures FatalKept()
    {
      assert iPage > 0;
      hide PageSize, Grows, Overwrite, Backup.Undoable, Backup.UpToDate, Backup.Told;
      ghost var was, nWas := bytes, nPage;
      bytes := Overwrite(bytes, Offset(iPage, pgsz), aData);
      if iPage > nPage { nPage := iPage; }
      BackupUpdate(iPage, aData, was, nWas);
    }

    /** Finished and failed backups, and their destinations, stay as they are. */
    twostate predicate FatalKept()
      reads this`live, live, set b | b in live :: b.dest
    {
      forall b | b in live && b in old(live) && IsFatal(old(b.rc)) :: b.Kept()
    }

    /** The source is cut, inside a write transaction. */
    method Shrink(n: nat)
      requires Valid() && writer && n <= nPage
      modifies this`nPage
      ensures Valid() && nPage == n
    {
      hide PageSize, Synced, Backup.Undoable;
      forall b | b in live && !IsFatal(b.rc) ensures Synced(bytes, n, pgsz, b.dest.bytes, b.dest.pgsz, b.iNext) {
        SyncedShrinks(bytes, nPage, pgsz, b.dest.bytes, b.dest.pgsz, b.iNext, n);
      }
      nPage := n;
    }

    method BeginWrite() returns (rc: int)
      requires Valid() && !writer
      modifies this`reading, this`changed, this`writer, live`iNext, os
      ensures os.Tells(rc == OK)
      ensures Valid() && writer == (rc == OK) && reading == old(reading)
    {
      hide PageSize, Backup.Own;
      var bCloseTrans := !reading;
      rc := OK;
      if bCloseTrans { rc := BeginRead(); }
      if rc == OK {
        rc := os.LockResult();
        if rc == OK { writer := true; }
      }
      if bCloseTrans { EndRead(); }
    }

    method EndWrite()
      requires Valid()
      modifies this`writer
      ensures Valid() && !writer
    {
      hide PageSize, Backup.Own;
      writer := false;
    }

    /** Another process writes the file while this one holds no lock. */
    method ExternalChange(bytes: Bytes, nPage: nat)
      requires Valid() && !writer && !reading && nPage < 0x8000_0000
      modifies this`bytes, this`nPage, this`changed
      ensures Valid() && this.bytes == bytes && this.nPage == nPage && changed
    {
      hide PageSize, Synced, Backup.Undoable;
      this.bytes, this.nPage, changed := bytes, nPage, true;
    }

    /** A new backup counts as live. */
    method Register(p: Backup)
      requires Valid() && p !in live && p.Own() && p.src == this && p.hasDestDb && !p.isAttached
      requires forall b | b in live :: b.dest != p.dest
      modifies this`nBackup, this`live
      ensures Valid() && live == old(live) + {p} && nBackup == old(nBackup) + 1
    {
      hide PageSize, Backup.Own;
      InitAdds(live, p);
      hide MadeByInit;
      live := live + {p};
      nBackup := nBackup + 1;
    }

    /** sqlite3_backup_init */
    method BackupInit(dest: Dest, sameDb: bool) returns (p: Backup?)
      requires Valid() && PageSize(dest.pgsz) && forall b | b in live :: b.dest != dest
      modifies this`nBackup, this`live, os
      ensures Valid() && os.failures >= old(os.failures) && (p != null <==> !sameDb && os.Well())
      ensures p == null ==> live == old(live) && nBackup == old(nBackup)
      ensures p != null ==>
        && fresh(p) && live == old(live) + {p} && nBackup == old(nBackup) + 1
        && p.dest == dest && p.hasDestDb && p.iNext == 1 && p.rc == OK
        && p.start == dest.bytes && p.before == dest.Restored()
    {
      hide PageSize, Synced;
      p := null;
      if !sameDb {
        var rc := os.LockResult();       // memory, the two databases and the page size
        if rc == OK {
          p := new Backup(this, dest, true);
          SyncedNothing(bytes, nPage, pgsz, dest.bytes, dest.pgsz);
          assert p.Own();
          Register(p);
        }
      }
    }

    /** The destination can take all pages of the source. */
    predicate Fits(dest: Dest)
      reads this`nPage
    {
      pgsz == dest.pgsz || (!dest.isWal && (!dest.isMemdb || nPage == 0))
    }

    /** The backup object of sqlite3BtreeCopyFile, which does not count as a backup of the source. */
    method MakeOnStack(pTo: Dest) returns (b: Backup)
      requires Valid() && PageSize(pTo.pgsz) && pTo.inTrans && forall b | b in live :: b.dest != pTo
      modifies this`live
      ensures Valid() && fresh(b) && live == old(live) + {b} && b.src == this && b.dest == pTo && !b.hasDestDb
      ensures b.iNext == 1 && b.rc == OK && b.before == (pTo.journal, pTo.journalSize)
      ensures nPage < 0x8000_0000 && PageSize(pgsz)
    {
      hide Synced, PageSize;
      b := new Backup(this, pTo, false);
      SyncedNothing(bytes, nPage, pgsz, pTo.bytes, pTo.pgsz);
      assert b.Own();
      InitAdds(live, b);
      live := live + {b};
    }

    /** A backup object on the stack, its one step, which never ends in OK, and its end. */
    method CopyWhole(pTo: Dest) returns (rc: int)
      requires Valid() && PageSize(pTo.pgsz) && pTo.inTrans && forall b | b in live :: b.dest != pTo
      modifies this`reading, this`changed, this`list, this`nBackup, this`live, pTo, live`iNext, os
      ensures Valid() && live == old(live) && nBackup == old(nBackup) && !pTo.inTrans
      ensures os.failures >= old(os.failures) && (rc == OK <==> os.Well() && Fits(pTo))
      ensures rc != OK ==> pTo.bytes == old(pTo.journal) && pTo.size == old(pTo.journalSize)
      ensures rc == OK ==>
        && Complete(bytes, nPage, pgsz, pTo.bytes, pTo.isWal)
        && EndsBy(pTo.bytes, nPage * pgsz) && FileSize(pTo.size, nPage * pgsz, pgsz)
    {
      hide Valid, Synced, Complete, EndsBy, Cookie, PageSize, FileSize, Fits, Backup.Possible, Backup.Copying;
      var b := MakeOnStack(pTo);
      b.PossibleFrom(1, 0x7FFF_FFFF);
      rc := b.Step(0x7FFF_FFFF);
      assert b.rc != OK;
      rc := b.Finish();
    }

    /** sqlite3BtreeCopyFile; if the destination has a file (hasFile), `fcntl` is what its file control answers. The
        transaction stays open exactly if the file control fails. */
    method CopyFile(pTo: Dest, hasFile: bool, fcntl: int) returns (rc: int)
      requires Valid() && PageSize(pTo.pgsz) && pTo.inTrans && forall b | b in live :: b.dest != pTo
      modifies this`reading, this`changed, this`list, this`nBackup, this`live, pTo, live`iNext, os
      ensures Valid() && live == old(live) && nBackup == old(nBackup)
      ensures pTo.inTrans <==> Refused(hasFile, fcntl)
      ensures os.failures >= old(os.failures)
      ensures rc == OK <==> os.Well() && !Refused(hasFile, fcntl) && Fits(pTo)
      ensures Refused(hasFile, fcntl) ==>
        rc == fcntl != OK && pTo.bytes == old(pTo.bytes) && pTo.journal == old(pTo.journal)
      ensures !Refused(hasFile, fcntl) && rc != OK ==> pTo.bytes == old(pTo.journal) && pTo.size == old(pTo.journalSize)
      ensures rc == OK ==>
        && Complete(bytes, nPage, pgsz, pTo.bytes, pTo.isWal)
        && EndsBy(pTo.bytes, nPage * pgsz) && FileSize(pTo.size, nPage * pgsz, pgsz)
    {
      hide Valid, Complete, EndsBy, PageSize, FileSize, Fits;
      rc := OK;
      if hasFile {
        rc := fcntl;       // SQLITE_FCNTL_OVERWRITE
        if rc == NOTFOUND { rc := OK; }
      }
      if rc == OK { rc := CopyWhole(pTo); }
    }

    /** The failing input: a file control that answers with an I/O error. The copy fails, but the transaction on the
        destination is not rolled back: it is still open, with everything written in it so far. */
    method CopyFileLeavesOpen(pTo: Dest) returns (rc: int)
      requires Valid() && PageSize(pTo.pgsz) && pTo.inTrans && forall b | b in live :: b.dest != pTo
      modifies this`reading, this`changed, this`list, this`nBackup, this`live, pTo, live`iNext, os
      ensures rc == IOERR && pTo.inTrans && pTo.bytes == old(pTo.bytes)
    {
      hide Valid;
      rc := CopyFile(pTo, true, IOERR);
    }

    /** Up to `calls` steps of k pages, retried after BUSY and LOCKED, until the result is final; `steps` counts those
        that returned OK or DONE. With no change from outside, the copy of a source of n pages is done with exactly
        the max(1, ceil(n/k))-th successful step. */
    method StepToEnd(p: Backup, k: nat, calls: nat) returns (res: int, steps: nat)
      requires Valid() && p in live && p.hasDestDb && p.rc == OK && p.iNext == 1 && !changed && k > 0
      modifies p, p.dest, this`reading, this`changed, this`list, live`iNext, os
      ensures Valid() && res == p.rc && os.failures >= old(os.failures)
      ensures os.Well() && !writer && Fits(p.dest) && calls >= 1 && calls * k >= nPage ==> res == DONE
      ensures res == DONE ==>
        p.Delivered() && steps >= 1 && steps * k >= nPage && ((steps - 1) * k < nPage || steps == 1)
      ensures !IsFatal(res) ==> p.iNext == 1 + steps * k && (steps * k < nPage || steps == 0)
    {
      assert p.src == this;
      hide Valid, Synced, Complete, EndsBy, Cookie;
      res, steps := OK, 0;
      var made := 0;
      while made < calls && !IsFatal(res)
        invariant Valid() && p in live && res == p.rc && !changed && made <= calls && os.failures >= old(os.failures)
        invariant os.Well() && !writer && Fits(p.dest) ==> res == DONE || (res == OK && steps == made)
        invariant res == DONE ==>
          p.Delivered() && steps >= 1 && steps * k >= nPage && ((steps - 1) * k < nPage || steps == 1)
        invariant !IsFatal(res) ==> p.iNext == 1 + steps * k && (steps * k < nPage || steps == 0)
      {
        p.PossibleFrom(p.iNext, k);
        res := p.Step(k);
        made := made + 1;
        if res == OK || res == DONE {
          steps := steps + 1;
          assert steps * k == (steps - 1) * k + k;
        }
      }
    }

    /** These are all live backups, each once, and all were made by sqlite3_backup_init. */
    ghost predicate Peers(peers: seq<Backup>)
      reads this`live
    {
      && (forall b | b in peers :: b in live && b.hasDestDb)
      && (forall b | b in live :: b in peers)
      && (forall i, j | 0 <= i < j < |peers| :: peers[i] != peers[j])
    }

    /** One event in the life of the source; what is not possible at the moment is passed over. */
    method Turn(e: Event, peers: seq<Backup>) returns (now: seq<Backup>)
      requires Valid() && Peers(peers)
      modifies this, live, os, (set b | b in live :: b.dest), e.Target()
      ensures Valid() && Peers(now) && FatalKept()
      ensures forall b | b in live :: b in old(live) || (fresh(b) && b.dest in e.Target())
    {
      hide PageSize, Backup.Own, Backup.Outcome, Backup.Possible;
      now := peers;
      match e
      case Init(dest, sameDb) => now := InitTurn(dest, sameDb, peers);
      case Finish(i) =>
        if i < |peers| { now := FinishTurn(i, peers); }
      case Step(i, n) =>
        if i < |peers| { var _ := peers[i].Step(n); }
      case _ => SourceTurn(e);
    }

    method InitTurn(dest: Dest, sameDb: bool, peers: seq<Backup>) returns (now: seq<Backup>)
      requires Valid() && Peers(peers)
      modifies this`nBackup, this`live, os
      ensures Valid() && Peers(now) && FatalKept()
      ensures forall b | b in live :: b in old(live) || (fresh(b) && b.dest == dest)
    {
      now := peers;
      hide Valid;
      if PageSize(dest.pgsz) && forall b | b in peers :: b.dest != dest {
        var p := BackupInit(dest, sameDb);
        if p != null { now := now + [p]; }
      }
    }

    method FinishTurn(i: nat, peers: seq<Backup>) returns (now: seq<Backup>)
      requires Valid() && Peers(peers) && i < |peers|
      modifies peers[i].dest, this`list, this`nBackup, this`live
      ensures Valid() && Peers(now) && FatalKept() && live <= old(live)
    {
      assert peers[i].src == this && forall b | b in live && b != peers[i] :: b.dest != peers[i].dest;
      hide Valid;
      var _ := peers[i].Finish();
      Unlinked(peers, i);
      now := peers[..i] + peers[i + 1..];
    }

    /** An event that concerns the source alone. */
    method SourceTurn(e: Event)
      requires Valid()
      modifies this, live, os, set b | b in live :: b.dest
      ensures Valid() && live == old(live) && FatalKept()
    {
      match e
      case BeginRead =>
        if !reading { var _ := BeginRead(); }
      case EndRead =>
        EndRead();
      case BeginWrite =>
        if !writer { var _ := BeginWrite(); }
      case EndWrite =>
        EndWrite();
      case Write(iPage, aData) =>
        var grown := if iPage > nPage then iPage else nPage;
        if writer && |aData| == pgsz && iPage < 0x8000_0000 && Grows(nPage, iPage, pgsz, grown) {
          WritePage(iPage, aData);
        }
      case Shrink(n) =>
        if writer && n <= nPage { Shrink(n); }
      case External(bytes, n) =>
        if !writer && !reading && n < 0x8000_0000 { ExternalChange(bytes, n); }
      case _ =>
    }

    /** Any run: backups are made, stepped and finished in any order, between writes, cuts, transactions and changes
        from outside. */
    method Drive(events: seq<Event>, peers: seq<Backup>) returns (now: seq<Backup>)
      requires Valid() && Peers(peers)
      modifies this, live, os, (set b | b in live :: b.dest), Targets(events)
      ensures Valid() && Peers(now) && FatalKept()
      ensures forall b | b in live && b.rc == DONE :: b.IsCopyOf(b.done)
    {
      now := peers;
      ghost var dests := (set b | b in live :: b.dest) + Targets(events);
      for i := 0 to |events|
        invariant Valid() && Peers(now) && FatalKept()
        invariant forall b | b in live :: (b in old(live) || fresh(b)) && b.dest in dests
      {
        TargetIn(events, i);
        now := Turn(events[i], now);
      }
    }
  }

  datatype Event =
    | Init(dest: Dest, sameDb: bool)
    | Finish(i: nat)
    | Step(k: nat, count: int)
    | BeginRead | EndRead | BeginWrite | EndWrite
    | Write(iPage: nat, aData: seq<Byte>)
    | Shrink(n: nat)
    | External(bytes: Bytes, nPage: nat)
  {
    /** The destination that the event brings in. */
    ghost function Target(): set<Dest> {
      if Init? then {dest} else {}
    }
  }

  ghost function Targets(events: seq<Event>): set<Dest> {
    set i | 0 <= i < |events| && events[i].Init? :: events[i].dest
  }

  lemma TargetIn(events: seq<Event>, i: nat)
    requires i < |events|
    ensures events[i].Target() <= Targets(events)
  {
  }

  /** The file control of the destination refuses the overwriting. */
  predicate Refused(hasFile: bool, fcntl: int) {
    hasFile && fcntl != OK && fcntl != NOTFOUND
  }
}
