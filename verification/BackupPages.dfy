/** Database files as bytes, page geometry, and what it means for a copy to be up to date. */
module BackupPages {
  import opened Division

  const PENDING_BYTE: nat := 0x4000_0000

  type Byte = b: nat | b < 256

  /** A file image; offsets that were never written read as zero. */
  type Bytes = map<nat, Byte>

  function Get(c: Bytes, o: nat): Byte {
    if o in c then c[o] else 0
  }

  function ByteAt(data: seq<Byte>, off: nat, o: nat): Byte
    requires off <= o < off + |data|
  {
    data[o - off]
  }

  function Overwrite(c: Bytes, off: nat, data: seq<Byte>): (r: Bytes)
    ensures forall o: nat :: Get(r, o) == if off <= o < off + |data| then data[o - off] else Get(c, o)
  {
    c + map o: nat | off <= o < off + |data| :: ByteAt(data, off, o)
  }

  function Truncate(c: Bytes, size: nat): (r: Bytes)
    ensures forall o: nat :: Get(r, o) == if o < size then Get(c, o) else 0
  {
    map o | o in c && o < size :: c[o]
  }

  /** The bytes [off, off+n) of an image. */
  function Slice(c: Bytes, off: nat, n: nat): (s: seq<Byte>)
    ensures |s| == n && forall k :: 0 <= k < n ==> s[k] == Get(c, off + k)
  {
    seq<Byte>(n, k requires 0 <= k < n => Get(c, off + k))
  }

  predicate PageSize(sz: nat) {
    sz == 512 || sz == 1024 || sz == 2048 || sz == 4096 || sz == 8192 || sz == 16384 || sz == 32768 || sz == 65536
  }

  /** PENDING_BYTE_PAGE */
  function PendingPage(sz: nat): nat
    requires PageSize(sz)
  {
    PENDING_BYTE / sz + 1
  }

  /** Offset o lies in the pending-byte page of a file with pages of sz bytes. */
  predicate InPending(o: nat, sz: nat) {
    PENDING_BYTE <= o < PENDING_BYTE + sz
  }

  lemma PendingPageBytes(o: nat, sz: nat)
    requires PageSize(sz)
    ensures o / sz + 1 == PendingPage(sz) <==> InPending(o, sz)
    ensures (PendingPage(sz) - 1) * sz == PENDING_BYTE
  {
  }

  lemma PageOfOffset(q: nat, k: nat, sz: nat)
    requires PageSize(sz) && k < sz
    ensures (q * sz + k) / sz == q && (q * sz + k) % sz == k
  {
  }

  /** The quotient of two page sizes. */
  lemma Ratio(a: nat, b: nat) returns (r: nat)
    requires PageSize(a) && PageSize(b) && a <= b
    ensures r == b / a && r >= 1 && b == r * a && (a < b ==> r >= 2)
    ensures PENDING_BYTE % b == 0
  {
    r := b / a;
  }

  // ---------- One source page

  /** Where page q of size sz starts. */
  function Offset(q: nat, sz: nat): (o: nat)
    requires q > 0
  {
    (q - 1) * sz
  }

  /** The image after source page iSrcPg, whose bytes are `data`, was copied into it. */
  ghost predicate PageCopied(was: Bytes, now: Bytes, iSrcPg: nat, szSrc: nat, szDest: nat, data: seq<Byte>)
    requires iSrcPg > 0 && |data| == szSrc
  {
    var base := Offset(iSrcPg, szSrc);
    forall o: nat :: Get(now, o) ==
      if base <= o < base + szSrc && !InPending(o, szDest) then data[o - base] else Get(was, o)
  }

  /** A copy that failed half-way changed nothing outside the page. */
  ghost predicate PageTouched(was: Bytes, now: Bytes, iSrcPg: nat, szSrc: nat)
    requires iSrcPg > 0
  {
    var base := Offset(iSrcPg, szSrc);
    forall o: nat :: !(base <= o < base + szSrc) ==> Get(now, o) == Get(was, o)
  }

  /** Page q of size sz is page i of group m when r pages make a group. */
  lemma GroupPages(q: nat, r: nat, sz: nat)
    requires r > 0 && sz > 0
    ensures var m, i := q / r, q % r;
      q * sz == m * (r * sz) + i * sz && i * sz + sz <= r * sz
  {
    var m, i := q / r, q % r;
    assert q == m * r + i;
    assert (m * r) * sz == m * (r * sz);
    MulMonotone(i + 1, r, sz);
  }

  /** A source page no larger than a destination page lies within one destination page. */
  lemma SmallPageFits(q: nat, szSrc: nat, szDest: nat)
    requires PageSize(szSrc) && PageSize(szDest) && szSrc <= szDest
    ensures var off := q * szSrc;
      off % szDest + szSrc <= szDest && (off / szDest) * szDest + off % szDest == off
    ensures forall o: nat :: q * szSrc <= o < q * szSrc + szSrc ==>
      (InPending(o, szDest) <==> q * szSrc / szDest + 1 == PendingPage(szDest))
  {
    assert szSrc > 0;
    hide PageSize, PendingPage, InPending;
    var r := Ratio(szSrc, szDest);
    GroupPages(q, r, szSrc);
    WithinGroup(q * szSrc, q / r, (q % r) * szSrc, szSrc, szDest);
  }

  lemma WithinGroup(off: nat, m: nat, k: nat, n: nat, sz: nat)
    requires PageSize(sz) && off == m * sz + k && n > 0 && k + n <= sz
    ensures off % sz + n <= sz && (off / sz) * sz + off % sz == off
    ensures forall o: nat :: off <= o < off + n ==> (InPending(o, sz) <==> off / sz + 1 == PendingPage(sz))
  {
    PageOfOffset(m, k, sz);
    hide PageSize, PendingPage;
    forall o: nat | off <= o < off + n ensures InPending(o, sz) <==> m + 1 == PendingPage(sz) {
      InOnePage(m, sz, o);
    }
  }

  /** All bytes of one page are in the pending page, or none is. */
  lemma InOnePage(m: nat, sz: nat, o: nat)
    requires PageSize(sz) && m * sz <= o < m * sz + sz
    ensures InPending(o, sz) <==> m + 1 == PendingPage(sz)
  {
  }

  /** One turn of the copy loop moves n bytes at iOff into one destination page. */
  ghost predicate ChunkFits(base: nat, iOff: nat, n: nat, szSrc: nat, szDest: nat)
    requires PageSize(szSrc) && PageSize(szDest)
  {
    && base <= iOff && iOff + n <= base + szSrc
    && iOff % szSrc == iOff - base
    && iOff % szDest + n <= szDest && (iOff / szDest) * szDest + iOff % szDest == iOff
    && forall o: nat :: iOff <= o < iOff + n ==> (InPending(o, szDest) <==> iOff / szDest + 1 == PendingPage(szDest))
  }

  lemma SmallChunk(q: nat, szSrc: nat, szDest: nat)
    requires PageSize(szSrc) && PageSize(szDest) && szSrc < szDest
    ensures ChunkFits(q * szSrc, q * szSrc, szSrc, szSrc, szDest)
  {
    SmallPageFits(q, szSrc, szDest);
    PageOfOffset(q, 0, szSrc);
  }

  lemma FullChunk(q: nat, j: nat, szSrc: nat, szDest: nat)
    requires PageSize(szSrc) && PageSize(szDest) && szSrc >= szDest && j * szDest < szSrc
    ensures ChunkFits(q * szSrc, q * szSrc + j * szDest, szDest, szSrc, szDest)
    ensures j * szDest + szDest == (j + 1) * szDest <= szSrc
  {
    assert szDest > 0 && szSrc > 0;
    hide PageSize, PendingPage;
    var r := Ratio(szDest, szSrc);
    if j >= r { MulMonotone(r, j, szDest); }
    MulMonotone(j + 1, r, szDest);
    NextPage(j + 1, szDest);
    MulAssoc(q, r, szDest);
    MulAdd(q * r, j, szDest);
    PageOfOffset(q, j * szDest, szSrc);
    WithinGroup(q * szSrc + j * szDest, q * r + j, 0, szDest, szDest);
  }

  lemma MulAdd(a: nat, b: nat, c: nat)
    ensures (a + b) * c == a * c + b * c
  {
  }

  /** The bytes [base, upto) of the page are copied, outside the destination's pending page. */
  ghost predicate PartCopied(was: Bytes, now: Bytes, base: nat, upto: nat, szDest: nat, data: seq<Byte>) {
    && base <= upto <= base + |data|
    && forall o: nat :: Get(now, o) == if base <= o < upto && !InPending(o, szDest) then data[o - base] else Get(was, o)
  }

  lemma PartGrows(was: Bytes, now: Bytes, base: nat, iOff: nat, n: nat, szSrc: nat, szDest: nat, data: seq<Byte>)
    requires PageSize(szSrc) && PageSize(szDest) && |data| == szSrc && ChunkFits(base, iOff, n, szSrc, szDest)
    requires PartCopied(was, now, base, iOff, szDest, data)
    ensures var k := iOff - base;
      if iOff / szDest + 1 == PendingPage(szDest) then PartCopied(was, now, base, iOff + n, szDest, data)
      else PartCopied(was, Overwrite(now, iOff, data[k..k+n]), base, iOff + n, szDest, data)
  {
  }

  lemma PartNothing(was: Bytes, iSrcPg: nat, szSrc: nat, szDest: nat, data: seq<Byte>)
    requires iSrcPg > 0
    ensures PartCopied(was, was, Offset(iSrcPg, szSrc), Offset(iSrcPg, szSrc), szDest, data)
    ensures PageTouched(was, was, iSrcPg, szSrc)
  {
  }

  lemma PartTouched(was: Bytes, now: Bytes, iSrcPg: nat, upto: nat, szSrc: nat, szDest: nat, data: seq<Byte>)
    requires iSrcPg > 0 && |data| == szSrc && PartCopied(was, now, Offset(iSrcPg, szSrc), upto, szDest, data)
    ensures PageTouched(was, now, iSrcPg, szSrc)
    ensures upto == Offset(iSrcPg, szSrc) + szSrc ==> PageCopied(was, now, iSrcPg, szSrc, szDest, data)
  {
  }

  // ---------- The copy so far

  /** Every existing source page below iNext, other than the source's pending page, equals the destination at
      the same offsets, outside the destination's pending page. */
  ghost predicate Synced(src: Bytes, nPage: nat, szSrc: nat, dest: Bytes, szDest: nat, iNext: nat)
    requires iNext > 0
  {
    forall o: nat :: o < nPage * szSrc && o < Offset(iNext, szSrc) && !InPending(o, szSrc) && !InPending(o, szDest) ==>
      Get(dest, o) == Get(src, o)
  }

  lemma SyncedNothing(src: Bytes, nPage: nat, szSrc: nat, dest: Bytes, szDest: nat)
    ensures Synced(src, nPage, szSrc, dest, szDest, 1)
  {
  }

  lemma NextPage(iNext: nat, sz: nat)
    requires iNext > 0
    ensures Offset(iNext + 1, sz) == iNext * sz == Offset(iNext, sz) + sz
  {
  }

  /** Copying page iNext extends the copy. */
  lemma SyncedAdvance(src: Bytes, nPage: nat, szSrc: nat, dest: Bytes, now: Bytes, szDest: nat, iNext: nat)
    requires iNext > 0 && Synced(src, nPage, szSrc, dest, szDest, iNext)
    requires PageCopied(dest, now, iNext, szSrc, szDest, Slice(src, Offset(iNext, szSrc), szSrc))
    ensures Synced(src, nPage, szSrc, now, szDest, iNext + 1)
  {
  }

  /** Skipping the source's pending page extends it, too. */
  lemma SyncedSkip(src: Bytes, nPage: nat, szSrc: nat, dest: Bytes, szDest: nat, iNext: nat)
    requires iNext > 0 && PageSize(szSrc) && iNext == PendingPage(szSrc)
      && Synced(src, nPage, szSrc, dest, szDest, iNext)
    ensures Synced(src, nPage, szSrc, dest, szDest, iNext + 1)
  {
  }

  /** The sizes a source page write can lead to: the file grows by at most the written page, and over the pending
      page. */
  predicate Grows(nPage: nat, q: nat, szSrc: nat, now: nat)
    requires PageSize(szSrc)
  {
    && 0 < q != PendingPage(szSrc)
    && (q <= nPage + 1 || (q == nPage + 2 && nPage + 1 == PendingPage(szSrc)))
    && now == if q > nPage then q else nPage
  }

  /** A write to a copied page that is passed on to the destination keeps the copy up to date. */
  lemma SyncedUpdate(src: Bytes, nPage: nat, szSrc: nat, dest: Bytes, szDest: nat, iNext: nat,
                     q: nat, data: seq<Byte>, nPage': nat, now: Bytes)
    requires iNext > 0 && PageSize(szSrc) && Synced(src, nPage, szSrc, dest, szDest, iNext)
      && Grows(nPage, q, szSrc, nPage')
    requires |data| == szSrc && q < iNext && PageCopied(dest, now, q, szSrc, szDest, data)
    ensures Synced(Overwrite(src, Offset(q, szSrc), data), nPage', szSrc, now, szDest, iNext)
  {
    GrownOffsets(nPage, q, szSrc, nPage');
    hide PageSize, PendingPage, Grows;
  }

  /** A write to a page that was not copied yet needs no update. */
  lemma SyncedIgnore(src: Bytes, nPage: nat, szSrc: nat, dest: Bytes, szDest: nat, iNext: nat,
                     q: nat, data: seq<Byte>, nPage': nat)
    requires iNext > 0 && PageSize(szSrc) && Synced(src, nPage, szSrc, dest, szDest, iNext)
      && Grows(nPage, q, szSrc, nPage')
    requires |data| == szSrc && iNext <= q
    ensures Synced(Overwrite(src, Offset(q, szSrc), data), nPage', szSrc, dest, szDest, iNext)
  {
    GrownOffsets(nPage, q, szSrc, nPage');
    MulMonotone(iNext - 1, q - 1, szSrc);
    hide PageSize, PendingPage, Grows;
  }

  /** Every offset of the grown file was there before, belongs to the written page or to the pending page. */
  lemma GrownOffsets(nPage: nat, q: nat, szSrc: nat, nPage': nat)
    requires PageSize(szSrc) && Grows(nPage, q, szSrc, nPage')
    ensures forall o: nat :: o < nPage' * szSrc ==>
      o < nPage * szSrc || Offset(q, szSrc) <= o < Offset(q, szSrc) + szSrc || InPending(o, szSrc)
  {
  }

  lemma SyncedShrinks(src: Bytes, nPage: nat, szSrc: nat, dest: Bytes, szDest: nat, iNext: nat, nPage': nat)
    requires iNext > 0 && Synced(src, nPage, szSrc, dest, szDest, iNext) && nPage' <= nPage
    ensures Synced(src, nPage', szSrc, dest, szDest, iNext)
  {
  }

  // ---------- The finished copy

  /** Header bytes that the last step writes itself: the schema version, and the format versions in WAL mode. */
  predicate HeaderField(o: nat, isWal: bool) {
    40 <= o < 44 || (isWal && 18 <= o < 20)
  }

  /** The destination is the source at every offset of the source, except its pending page and those fields. */
  ghost predicate Complete(src: Bytes, nPage: nat, szSrc: nat, dest: Bytes, isWal: bool) {
    forall o: nat :: o < nPage * szSrc && !InPending(o, szSrc) && !HeaderField(o, isWal) ==> Get(dest, o) == Get(src, o)
  }

  /** The final size in destination pages, before a possible cut of the file itself. */
  function DestPages(nSrcPage: nat, szSrc: nat, szDest: nat): nat
    requires PageSize(szSrc) && PageSize(szDest)
  {
    if szSrc < szDest then
      var n := (nSrcPage + szDest / szSrc - 1) / (szDest / szSrc);
      if n == PendingPage(szDest) then n - 1 else n
    else
      nSrcPage * (szSrc / szDest)
  }

  /** The assertion in the step: enough pages, or exactly those before the pending page. */
  lemma DestPagesEnough(nSrcPage: nat, szSrc: nat, szDest: nat)
    requires PageSize(szSrc) && PageSize(szDest)
    ensures var n, iSize := DestPages(nSrcPage, szSrc, szDest), nSrcPage * szSrc;
      && (szSrc < szDest ==>
            n * szDest >= iSize || (n == PendingPage(szDest) - 1 && PENDING_BYTE <= iSize <= PENDING_BYTE + szDest))
      && (szSrc >= szDest ==> n * szDest == iSize)
  {
    if szSrc < szDest {
      EnoughWhenSmaller(nSrcPage, szSrc, szDest);
    } else {
      var r := Ratio(szDest, szSrc);
      MulAssoc(nSrcPage, r, szDest);
    }
  }

  /** Rounding up to whole destination pages covers the source, and not a page more. */
  lemma RoundUp(nSrcPage: nat, r: nat, szSrc: nat)
    requires r > 0
    ensures var n := (nSrcPage + r - 1) / r;
      && n * (r * szSrc) >= nSrcPage * szSrc
      && (n > 0 ==> Offset(n, r * szSrc) <= nSrcPage * szSrc)
  {
    var n := (nSrcPage + r - 1) / r;
    CeilBounds(nSrcPage, r);
    MulMonotone(nSrcPage, n * r, szSrc);
    MulAssoc(n, r, szSrc);
    if n > 0 {
      MulMonotone((n - 1) * r, nSrcPage, szSrc);
      MulAssoc(n - 1, r, szSrc);
    }
  }

  lemma EnoughWhenSmaller(nSrcPage: nat, szSrc: nat, szDest: nat)
    requires PageSize(szSrc) && PageSize(szDest) && szSrc < szDest
    ensures var n, iSize := DestPages(nSrcPage, szSrc, szDest), nSrcPage * szSrc;
      n * szDest >= iSize || (n == PendingPage(szDest) - 1 && PENDING_BYTE <= iSize <= PENDING_BYTE + szDest)
  {
    PendingPageBytes(0, szDest);
    var r := Ratio(szSrc, szDest);
    RoundUp(nSrcPage, r, szSrc);
    hide PageSize, PendingPage;
    NextPage((nSrcPage + r - 1) / r + 1, szDest);
    if (nSrcPage + r - 1) / r > 0 { NextPage((nSrcPage + r - 1) / r, szDest); }
  }

  /** Only the header fields changed. */
  ghost predicate HeaderOnly(was: Bytes, now: Bytes, isWal: bool) {
    forall o: nat :: !HeaderField(o, isWal) ==> Get(now, o) == Get(was, o)
  }

  /** The bytes after the source's pending page, up to the end of the destination's, were written from the source. */
  ghost predicate ExtraWritten(src: Bytes, was: Bytes, now: Bytes, upto: nat, szSrc: nat) {
    forall o: nat :: Get(now, o) == if PENDING_BYTE + szSrc <= o < upto then Get(src, o) else Get(was, o)
  }

  /** Larger or equal source pages: cutting the image to the source size completes the copy. */
  lemma FinishLarger(src: Bytes, nPage: nat, szSrc: nat, szDest: nat, iNext: nat, copied: Bytes, head: Bytes,
                     isWal: bool)
    requires PageSize(szSrc) && PageSize(szDest) && szSrc >= szDest && iNext > nPage
    requires Synced(src, nPage, szSrc, copied, szDest, iNext) && HeaderOnly(copied, head, isWal)
    ensures Complete(src, nPage, szSrc, Truncate(head, DestPages(nPage, szSrc, szDest) * szDest), isWal)
  {
    DestPagesEnough(nPage, szSrc, szDest);
    MulMonotone(nPage, iNext - 1, szSrc);
    hide PageSize, DestPages;
  }

  function ExtraEnd(szSrc: nat, szDest: nat, nPage: nat): nat {
    if PENDING_BYTE + szDest < nPage * szSrc then PENDING_BYTE + szDest else nPage * szSrc
  }

  /** Smaller source pages: cutting the image, writing the extra pages and cutting the file completes the copy. */
  lemma FinishSmaller(src: Bytes, nPage: nat, szSrc: nat, szDest: nat, iNext: nat, copied: Bytes, head: Bytes,
                      extra: Bytes, isWal: bool)
    requires PageSize(szSrc) && PageSize(szDest) && szSrc < szDest && iNext > nPage
    requires Synced(src, nPage, szSrc, copied, szDest, iNext) && HeaderOnly(copied, head, isWal)
    requires ExtraWritten(src, Truncate(head, DestPages(nPage, szSrc, szDest) * szDest), extra,
                          ExtraEnd(szSrc, szDest, nPage), szSrc)
    ensures Complete(src, nPage, szSrc, extra, isWal)
  {
    EnoughWhenSmaller(nPage, szSrc, szDest);
    PendingPageBytes(0, szDest);
    MulMonotone(nPage, iNext - 1, szSrc);
    hide PageSize, DestPages, PendingPage;
  }

  lemma CompleteCut(src: Bytes, nPage: nat, szSrc: nat, image: Bytes, isWal: bool)
    requires Complete(src, nPage, szSrc, image, isWal)
    ensures Complete(src, nPage, szSrc, Truncate(image, nPage * szSrc), isWal)
  {
  }

  /** Nothing is stored at or after the given size. */
  ghost predicate EndsBy(image: Bytes, size: nat) {
    forall o: nat :: size <= o ==> Get(image, o) == 0
  }

  /** The file ends where a source of iSize bytes does; only if that ends with its pending page, which is never
      copied, the file may be shorter. */
  predicate FileSize(size: nat, iSize: nat, szSrc: nat) {
    size <= iSize && (size == iSize || iSize == PENDING_BYTE + szSrc)
  }

  /** The size of the file after the extra pages were written into one of `was` bytes. */
  function ExtraSize(was: nat, szSrc: nat, szDest: nat, nPage: nat): nat {
    var iEnd := ExtraEnd(szSrc, szDest, nPage);
    if PENDING_BYTE + szSrc < iEnd && was < iEnd then iEnd else was
  }

  /** Cutting the file to the source's size leaves it with exactly that size. */
  lemma SizeSmaller(nPage: nat, szSrc: nat, szDest: nat)
    requires PageSize(szSrc) && PageSize(szDest) && szSrc < szDest
    ensures var size := ExtraSize(DestPages(nPage, szSrc, szDest) * szDest, szSrc, szDest, nPage);
      FileSize(if size > nPage * szSrc then nPage * szSrc else size, nPage * szSrc, szSrc)
  {
    EnoughWhenSmaller(nPage, szSrc, szDest);
    PendingPageBytes(0, szDest);
    PendingPageBytes(0, szSrc);
    var m: nat := PendingPage(szSrc);
    if m < nPage { MulMonotone(m + 1, nPage, szSrc); } else { MulMonotone(nPage, m, szSrc); }
    if nPage < m { MulMonotone(nPage, m - 1, szSrc); }
    NextPage(m, szSrc);
    hide PageSize, PendingPage, DestPages;
  }

  /** A copy of at least one page keeps the whole header. */
  lemma HeaderKept(nPage: nat, szSrc: nat, szDest: nat)
    requires PageSize(szSrc) && PageSize(szDest) && nPage > 0
    ensures DestPages(nPage, szSrc, szDest) * szDest >= 512 && nPage * szSrc >= 512
  {
    DestPagesEnough(nPage, szSrc, szDest);
    PendingPageBytes(0, szDest);
    MulMonotone(1, nPage, szSrc);
  }

  /** A finished file: a complete copy that ends with the source, under the header written by the step. */
  ghost predicate Finished(src: Bytes, nPage: nat, szSrc: nat, head: Bytes, image: Bytes, isWal: bool) {
    && Complete(src, nPage, szSrc, image, isWal)
    && EndsBy(image, nPage * szSrc)
    && (nPage > 0 ==> forall o: nat :: o < 512 ==> Get(image, o) == Get(head, o))
  }

  lemma FinishedLarger(src: Bytes, nPage: nat, szSrc: nat, szDest: nat, iNext: nat, copied: Bytes, head: Bytes,
                       isWal: bool)
    requires PageSize(szSrc) && PageSize(szDest) && szSrc >= szDest && iNext > nPage
    requires Synced(src, nPage, szSrc, copied, szDest, iNext) && HeaderOnly(copied, head, isWal)
    ensures Finished(src, nPage, szSrc, head, Truncate(head, DestPages(nPage, szSrc, szDest) * szDest), isWal)
  {
    FinishLarger(src, nPage, szSrc, szDest, iNext, copied, head, isWal);
    DestPagesEnough(nPage, szSrc, szDest);
    if nPage > 0 { HeaderKept(nPage, szSrc, szDest); }
    hide PageSize, DestPages, PendingPage, Complete;
  }

  lemma FinishedSmaller(src: Bytes, nPage: nat, szSrc: nat, szDest: nat, iNext: nat, copied: Bytes, head: Bytes,
                        extra: Bytes, size: nat, isWal: bool)
    requires PageSize(szSrc) && PageSize(szDest) && szSrc < szDest && iNext > nPage
    requires Synced(src, nPage, szSrc, copied, szDest, iNext) && HeaderOnly(copied, head, isWal)
    requires ExtraWritten(src, Truncate(head, DestPages(nPage, szSrc, szDest) * szDest), extra,
                          ExtraEnd(szSrc, szDest, nPage), szSrc)
    requires size >= DestPages(nPage, szSrc, szDest) * szDest
    ensures var final := if size > nPage * szSrc then Truncate(extra, nPage * szSrc) else extra;
      Finished(src, nPage, szSrc, head, final, isWal)
  {
    FinishSmaller(src, nPage, szSrc, szDest, iNext, copied, head, extra, isWal);
    CompleteCut(src, nPage, szSrc, extra, isWal);
    if nPage > 0 { HeaderKept(nPage, szSrc, szDest); }
    hide PageSize, DestPages, PendingPage, Complete;
  }

  /** The extra-page loop meets the end exactly: offsets and the end are multiples of the source page size. */
  lemma ExtraStep(k: nat, nPage: nat, szSrc: nat, szDest: nat)
    requires PageSize(szSrc) && PageSize(szDest) && szSrc < szDest && k * szSrc < ExtraEnd(szSrc, szDest, nPage)
    ensures (k + 1) * szSrc <= ExtraEnd(szSrc, szDest, nPage)
    ensures k * szSrc / szSrc == k
  {
    MulDiv(k, szSrc);
    var r := Ratio(szSrc, szDest);
    PendingPageBytes(0, szSrc);
    var p: nat := PendingPage(szSrc) - 1;
    hide PageSize, PendingPage;
    MulAdd(p, r, szSrc);
    MulCancel(k, nPage, szSrc);
    MulCancel(k, p + r, szSrc);
    MulMonotone(k + 1, nPage, szSrc);
    MulMonotone(k + 1, p + r, szSrc);
  }

  lemma ExtraNothing(src: Bytes, was: Bytes, upto: nat, szSrc: nat)
    requires upto <= PENDING_BYTE + szSrc
    ensures ExtraWritten(src, was, was, upto, szSrc)
  {
  }

  lemma ExtraGrows(src: Bytes, was: Bytes, now: Bytes, iOff: nat, szSrc: nat)
    requires iOff >= PENDING_BYTE + szSrc && ExtraWritten(src, was, now, iOff, szSrc)
    ensures ExtraWritten(src, was, Overwrite(now, iOff, Slice(src, iOff, szSrc)), iOff + szSrc, szSrc)
  {
  }
}
