/** The OSAL NV engine of OSAL_Nv.c: the page directory (`pgOff`, `pgLost`, `pgRes`), the hot
    item cache and every routine that changes them or the NV pages, as one object over the
    RAM image `mem` of the NV area. */
module OsalNv {
  import opened FlashUtil
  import opened NvFormat
  import opened NvPages
  import opened NvUpdate
  import opened NvScan
  import opened NvWalks

  /** The status codes of the osal_nv_* API. */
  datatype Status = Success | ItemUninit | OperFailed | BadItemLen

  /** eNvHdrEnum: which header flag setItem clears. */
  datatype HdrStat = Xfer | Zero

  /** A page cursor that can stand in `pgOff`: past the page header, inside the page, on a
      word boundary. */
  predicate OffOk(off: nat)
  {
    PG_HDR_SIZE <= off <= PAGE_SIZE && off % WORD_SIZE == 0
  }

  /** Every page cursor is a valid one. */
  ghost predicate DirOk(off: seq<u16>)
  {
    |off| == PAGES_USED && forall p :: 0 <= p < PAGES_USED ==> OffOk(off[p])
  }

  /** Valid cursors stay valid when one of them is set to a valid value. */
  lemma DirOkSet(off: seq<u16>, pg: nat, x: u16)
    requires DirOk(off) && pg < PAGES_USED && OffOk(x)
    ensures DirOk(off[pg := x])
  {
  }

  /** Valid cursors stay valid when only two of them change, to valid values. */
  lemma DirOkFrame(o0: seq<u16>, o1: seq<u16>, a: nat, b: nat)
    requires DirOk(o0) && |o1| == PAGES_USED && a < PAGES_USED && b < PAGES_USED
    requires OffOk(o1[a]) && OffOk(o1[b])
    requires forall p :: 0 <= p < PAGES_USED && p != a && p != b ==> o1[p] == o0[p]
    ensures DirOk(o1)
  {
  }

  /** A cursor moved past a whole item that fits stays a valid cursor. */
  lemma AdvanceOk(off: nat, len: nat)
    requires OffOk(off) && off + ItemSize(len) <= PAGE_SIZE
    ensures OffOk(off + ItemSize(len))
  {
    ItemSizeLayout(len);
  }

  /** Every page other than `pg` is the same in `m1` and `m2`. */
  ghost predicate OnlyPage(m1: seq<byte>, m2: seq<byte>, pg: nat)
    requires |m1| == NV_SIZE && |m2| == NV_SIZE
  {
    forall q :: 0 <= q < PAGES_USED && q != pg ==> PageImage(m2, q) == PageImage(m1, q)
  }

  lemma OnlyPageTrans(m0: seq<byte>, m1: seq<byte>, m2: seq<byte>, pg: nat)
    requires |m0| == NV_SIZE && |m1| == NV_SIZE && |m2| == NV_SIZE
    requires OnlyPage(m0, m1, pg) && OnlyPage(m1, m2, pg)
    ensures OnlyPage(m0, m2, pg)
  {
    forall q | 0 <= q < PAGES_USED && q != pg
      ensures PageImage(m2, q) == PageImage(m0, q)
    {
      assert PageImage(m2, q) == PageImage(m1, q);
    }
  }

  /** A store inside page `pg` touches no other page. */
  lemma StoreOnPage(m: seq<byte>, pg: nat, at: nat, d: seq<byte>)
    requires pg < PAGES_USED && |m| == NV_SIZE
    requires PageBase(pg) <= at && at + |d| <= PageBase(pg) + PAGE_SIZE
    ensures OnlyPage(m, Overwrite(m, at, d), pg)
  {
    forall q | 0 <= q < PAGES_USED && q != pg
      ensures PageImage(Overwrite(m, at, d), q) == PageImage(m, q)
    {
      OverwriteOtherPage(m, pg, at, d, q);
    }
  }

  /** How writeItem moves the cursor and lost count of its page, with sizes kept in uint16
      as there (the cursor never passes the page end, so only the lost count can wrap): a
      header read back as written moves the cursor past the item; a garbled one moves it
      by the size read back, clamped to the rest of the page, and counts exactly those
      bytes as lost. Either way the cursor stays a valid one and never moves back. */
  function ItemAdvance(off: u16, lost: u16, readOk: bool, readLen: u16): (r: (u16, u16))
    requires OffOk(off) && (readOk ==> off + ItemSize(readLen) <= PAGE_SIZE)
    ensures OffOk(r.0) && off <= r.0
    ensures readOk ==> r.0 == off + ItemSize(readLen) && r.1 == lost
    ensures !readOk ==> r.1 == (lost + (r.0 - off)) % 0x10000
    ensures !readOk ==> r.0 == PAGE_SIZE || r.0 - off == ItemSize16(readLen)
  {
    ItemSizeLayout(readLen);
    ItemSize16Truncates(readLen);
    var sz := ItemSize16(readLen);
    if readOk then (off + sz, lost)
    else if sz <= PAGE_SIZE - off then (off + sz, (lost + sz) % 0x10000)
    else (PAGE_SIZE, (lost + (PAGE_SIZE - off)) % 0x10000)
  }

  /** The header fields that writeItem, setItem and the checksum store leave alone. */
  ghost predicate SameFields(m1: seq<byte>, m2: seq<byte>, pg: nat, o: nat, fs: set<nat>)
    requires |m1| == NV_SIZE && |m2| == NV_SIZE && pg < PAGES_USED && o + HDR_SIZE <= PAGE_SIZE
  {
    (HDR_ID in fs ==> Field(m2, pg, o, HDR_ID) == Field(m1, pg, o, HDR_ID))
    && (HDR_LEN in fs ==> Field(m2, pg, o, HDR_LEN) == Field(m1, pg, o, HDR_LEN))
    && (HDR_CHK in fs ==> Field(m2, pg, o, HDR_CHK) == Field(m1, pg, o, HDR_CHK))
    && (HDR_STAT in fs ==> Field(m2, pg, o, HDR_STAT) == Field(m1, pg, o, HDR_STAT))
    && (HDR_LIVE in fs ==> Field(m2, pg, o, HDR_LIVE) == Field(m1, pg, o, HDR_LIVE))
  }

  /** The first word of writeItem: id and length in place, nothing else of the item
      changed, no other page touched. */
  lemma HeaderStore(m: seq<byte>, pg: nat, o: nat, id: u16, len: u16)
    requires |m| == NV_SIZE && pg < PAGES_USED && o + ItemSize(len) <= PAGE_SIZE
    ensures var m' := Overwrite(m, PageBase(pg) + o, LE16(id) + LE16(len));
      Field(m', pg, o, HDR_ID) == id && Field(m', pg, o, HDR_LEN) == len
      && SameFields(m, m', pg, o, {HDR_CHK, HDR_STAT, HDR_LIVE})
      && ItemData(m', pg, o, len) == ItemData(m, pg, o, len) && OnlyPage(m, m', pg)
  {
    var a := PageBase(pg) + o;
    var d := LE16(id) + LE16(len);
    StoreOnPage(m, pg, a, d);
    U16AtStoreLE(m, a, id, LE16(len));
    U16AtStore(m, a, d, a + HDR_LEN);
    U16AtStore(m, a, d, a + HDR_CHK);
    U16AtStore(m, a, d, a + HDR_STAT);
    U16AtStore(m, a, d, a + HDR_LIVE);
    OverwriteElsewhere(m, a, d, a + HDR_SIZE, a + HDR_SIZE + DataSize(len));
  }

  /** writeBuf of the item data at the data offset: the image is in place, the header
      untouched. */
  lemma DataStore(m: seq<byte>, pg: nat, o: nat, len: u16, b: seq<byte>)
    requires |m| == NV_SIZE && pg < PAGES_USED && o + ItemSize(len) <= PAGE_SIZE
    requires o % WORD_SIZE == 0 && len <= |b|
    ensures o + HDR_SIZE + len + PadTo(o + HDR_SIZE + len) <= PAGE_SIZE
    ensures var m' := Overwrite(m, PageBase(pg) + o + HDR_SIZE, b[..len] + Fill(PadTo(o + HDR_SIZE + len)));
      ItemData(m', pg, o, len) == DataImage(len, Some(b))
      && SameFields(m, m', pg, o, {HDR_ID, HDR_LEN, HDR_CHK, HDR_STAT, HDR_LIVE})
      && OnlyPage(m, m', pg) && Within(m, m', pg, o, o + ItemSize(len))
  {
    var at := PageBase(pg) + o + HDR_SIZE;
    ItemSizeLayout(len);
    PadToAligned(o + HDR_SIZE, len);
    var d := b[..len] + Fill(PadTo(o + HDR_SIZE + len));
    var m' := Overwrite(m, at, d);
    StoreWithinSpan(m, pg, o + HDR_SIZE, d, o, o + ItemSize(len));
    OverwriteRead(m, at, d);
    assert ItemData(m', pg, o, len) == m'[at..at + |d|];
    StoreOnPage(m, pg, at, d);
    StoreAfterHeader(m, pg, o, at, d);
  }

  /** The checksum word of an item header: the checksum in place, the other fields and the
      data untouched. */
  lemma ChkStore(m: seq<byte>, pg: nat, o: nat, len: u16, chk: u16)
    requires |m| == NV_SIZE && pg < PAGES_USED && o + ItemSize(len) <= PAGE_SIZE
    ensures var m' := Overwrite(m, PageBase(pg) + o + HDR_CHK, FieldWord(chk));
      Field(m', pg, o, HDR_CHK) == chk
      && SameFields(m, m', pg, o, {HDR_ID, HDR_LEN, HDR_STAT, HDR_LIVE})
      && ItemData(m', pg, o, len) == ItemData(m, pg, o, len) && OnlyPage(m, m', pg)
  {
    var a := PageBase(pg) + o + HDR_CHK;
    StoreOnPage(m, pg, a, FieldWord(chk));
    U16AtStoreLE(m, a, chk, LE16(ERASED_ID));
    U16AtStore(m, a, FieldWord(chk), a - HDR_CHK + HDR_ID);
    U16AtStore(m, a, FieldWord(chk), a - HDR_CHK + HDR_LEN);
    U16AtStore(m, a, FieldWord(chk), a - HDR_CHK + HDR_STAT);
    U16AtStore(m, a, FieldWord(chk), a - HDR_CHK + HDR_LIVE);
    OverwriteElsewhere(m, a, FieldWord(chk), a - HDR_CHK + HDR_SIZE, a - HDR_CHK + HDR_SIZE + DataSize(len));
  }

  /** The word writeItem stores first: the id and length of the new header. */
  method PutHeader(mem: array<byte>, pg: nat, o: nat, id: u16, len: u16)
    requires mem.Length == NV_SIZE && pg < PAGES_USED && o + ItemSize(len) <= PAGE_SIZE
    modifies mem
    ensures mem[..] == Overwrite(old(mem[..]), PageBase(pg) + o, LE16(id) + LE16(len))
    ensures Field(mem[..], pg, o, HDR_ID) == id && Field(mem[..], pg, o, HDR_LEN) == len
    ensures SameFields(old(mem[..]), mem[..], pg, o, {HDR_CHK, HDR_STAT, HDR_LIVE})
    ensures ItemData(mem[..], pg, o, len) == ItemData(old(mem[..]), pg, o, len)
    ensures OnlyPage(old(mem[..]), mem[..], pg) && Within(old(mem[..]), mem[..], pg, o, o + ItemSize(len))
  {
    PageBaseBound(pg);
    HeaderStore(mem[..], pg, o, id, len);
    StoreWithinSpan(mem[..], pg, o, LE16(id) + LE16(len), o, o + ItemSize(len));
    FlashWrite(mem, PageBase(pg) + o + HDR_ID, HDR_ITEM, LE16(id) + LE16(len));
    assert (LE16(id) + LE16(len))[..HDR_ITEM] == LE16(id) + LE16(len);
  }

  /** writeBuf of an item's data right after its header. */
  method PutData(mem: array<byte>, pg: nat, o: nat, len: u16, b: seq<byte>)
    requires mem.Length == NV_SIZE && pg < PAGES_USED && o + ItemSize(len) <= PAGE_SIZE
    requires o % WORD_SIZE == 0 && len <= |b|
    modifies mem
    ensures ItemData(mem[..], pg, o, len) == DataImage(len, Some(b))
    ensures SameFields(old(mem[..]), mem[..], pg, o, {HDR_ID, HDR_LEN, HDR_CHK, HDR_STAT, HDR_LIVE})
    ensures OnlyPage(old(mem[..]), mem[..], pg) && Within(old(mem[..]), mem[..], pg, o, o + ItemSize(len))
  {
    DataStore(mem[..], pg, o, len, b);
    WriteBuf(mem, pg, o + HDR_SIZE, len, b);
  }

  /** The checksum word of an item header, from the static two-word buffer whose second
      half stays erased. */
  method PutChk(mem: array<byte>, pg: nat, o: nat, len: u16, chk: u16)
    requires mem.Length == NV_SIZE && pg < PAGES_USED && o + ItemSize(len) <= PAGE_SIZE
    modifies mem
    ensures Field(mem[..], pg, o, HDR_CHK) == chk
    ensures SameFields(old(mem[..]), mem[..], pg, o, {HDR_ID, HDR_LEN, HDR_STAT, HDR_LIVE})
    ensures ItemData(mem[..], pg, o, len) == ItemData(old(mem[..]), pg, o, len)
    ensures OnlyPage(old(mem[..]), mem[..], pg) && Within(old(mem[..]), mem[..], pg, o, o + ItemSize(len))
  {
    PageBaseBound(pg);
    ChkStore(mem[..], pg, o, len, chk);
    StoreWithinSpan(mem[..], pg, o + HDR_CHK, FieldWord(chk), o, o + ItemSize(len));
    FlashWrite(mem, PageBase(pg) + o + HDR_CHK, HDR_ITEM, FieldWord(chk));
    assert FieldWord(chk)[..HDR_ITEM] == FieldWord(chk);
  }

  /** The flag part of writeItem once the header's id and length are in place at
      (pg, hdrOff): the data (when there is a buffer), the checksum computed from the
      buffer compared with the one re-read from flash, and on agreement the checksum word,
      re-read once more; `ok` says whether the checksum is in place. */
  method PutItemData(mem: array<byte>, pg: nat, hdrOff: nat, len: u16, buf: Option<seq<byte>>)
    returns (ok: bool)
    requires mem.Length == NV_SIZE && pg < PAGES_USED && OffOk(hdrOff) && hdrOff + ItemSize(len) <= PAGE_SIZE
    requires buf.Some? ==> len <= |buf.value|
    modifies mem
    ensures OnlyPage(old(mem[..]), mem[..], pg) && Within(old(mem[..]), mem[..], pg, hdrOff, hdrOff + ItemSize(len))
    ensures SameFields(old(mem[..]), mem[..], pg, hdrOff, {HDR_ID, HDR_LEN, HDR_STAT, HDR_LIVE})
    ensures buf.Some? ==> ok && ItemData(mem[..], pg, hdrOff, len) == DataImage(len, buf)
    ensures buf.None? ==> ItemData(mem[..], pg, hdrOff, len) == ItemData(old(mem[..]), pg, hdrOff, len)
    ensures buf.None? ==> (ok <==> ChkB(len, None) == Chk16(ItemData(old(mem[..]), pg, hdrOff, len)))
    ensures ok ==> Field(mem[..], pg, hdrOff, HDR_CHK) == Chk16(ItemData(mem[..], pg, hdrOff, len))
  {
    ghost var m0 := mem[..];
    var chk := CalcChkB(len, buf);
    var datOff := hdrOff + HDR_SIZE;
    ChkBIsImageChk(len, buf);
    if buf.Some? {
      PutData(mem, pg, hdrOff, len, buf.value);
    }
    ghost var m1 := mem[..];
    var chkF := CalcChkF(mem, pg, datOff, len);
    assert chkF == Chk16(ItemData(m1, pg, hdrOff, len));
    ok := false;
    if chk == chkF {
      PutChk(mem, pg, hdrOff, len, chk);
      OnlyPageTrans(m0, m1, mem[..], pg);
      WithinTrans(m0, m1, mem[..], pg, hdrOff, hdrOff + ItemSize(len));
      var h2 := ReadHdr(mem, pg, hdrOff);
      HdrAtFields(mem[..], pg, hdrOff);
      ok := chk == h2.chk;
    }
  }

  /** What writeItem leaves in flash for an item (id, len) whose header is at (pg, o), from
      `m0` to `m1`: only that page changed; the id and length in the header, its stat and
      live flags as they were; without `flag` the checksum word and the data as they were; with it
      the data image of the buffer, or (with no buffer) the data as it was, and `ok` exactly
      when the checksum the buffer promises is the one re-read, in which case the header
      holds the checksum of the data. */
  ghost predicate ItemWritten(m0: seq<byte>, m1: seq<byte>, pg: nat, o: nat, id: u16, len: u16,
                              buf: Option<seq<byte>>, flag: bool, ok: bool)
    requires |m0| == NV_SIZE && |m1| == NV_SIZE && pg < PAGES_USED && o + ItemSize(len) <= PAGE_SIZE
    requires buf.Some? ==> len <= |buf.value|
  {
    PageBaseBound(pg);
    OnlyPage(m0, m1, pg)
    && Field(m1, pg, o, HDR_ID) == id && Field(m1, pg, o, HDR_LEN) == len
    && SameFields(m0, m1, pg, o, {HDR_STAT, HDR_LIVE})
    && (!flag ==> (ok && SameFields(m0, m1, pg, o, {HDR_CHK})
                   && ItemData(m1, pg, o, len) == ItemData(m0, pg, o, len)))
    && (flag && buf.Some? ==> ok && ItemData(m1, pg, o, len) == DataImage(len, buf))
    && (flag && buf.None? ==>
          ItemData(m1, pg, o, len) == ItemData(m0, pg, o, len)
          && (ok <==> ChkB(len, None) == Chk16(ItemData(m0, pg, o, len))))
    && (flag && ok ==> Field(m1, pg, o, HDR_CHK) == Chk16(ItemData(m1, pg, o, len)))
  }

  /** The flash part of writeItem: the id and length word at `o`, read back; with `flag`
      and a good read-back, the data and checksum. The header of the RAM image always
      reads back as written. */
  method PutItem(mem: array<byte>, pg: nat, o: nat, id: u16, len: u16, buf: Option<seq<byte>>, flag: bool)
    returns (ok: bool, readOk: bool, readLen: u16)
    requires mem.Length == NV_SIZE && pg < PAGES_USED && OffOk(o) && o + ItemSize(len) <= PAGE_SIZE
    requires buf.Some? ==> len <= |buf.value|
    modifies mem
    ensures readOk && readLen == len
    ensures ItemWritten(old(mem[..]), mem[..], pg, o, id, len, buf, flag, ok)
    ensures Within(old(mem[..]), mem[..], pg, o, o + ItemSize(len))
  {
    ghost var m0 := mem[..];
    PutHeader(mem, pg, o, id, len);
    ghost var m1 := mem[..];
    var h := ReadHdr(mem, pg, o);
    HdrAtFields(m1, pg, o);
    readOk := h.id == id && h.len == len;
    readLen := h.len;
    ok := false;
    if readOk {
      if flag {
        ok := PutItemData(mem, pg, o, len, buf);
        OnlyPageTrans(m0, m1, mem[..], pg);
        WithinTrans(m0, m1, mem[..], pg, o, o + ItemSize(len));
        assert ItemData(m1, pg, o, len) == ItemData(m0, pg, o, len);
      } else {
        ok := true;
      }
    }
  }

  /** What setItem leaves in flash for the header at (pg, o), from `m0` to `m1`: one word
      write clearing the stat flag (Xfer) or the live flag (Zero), its padding half put back
      as read; nothing on other pages; and, for a header that is not erased, every erased
      page still erased. */
  ghost predicate FlagCleared(m0: seq<byte>, m1: seq<byte>, pg: nat, o: nat, stat: HdrStat)
    requires |m0| == NV_SIZE && |m1| == NV_SIZE && pg < PAGES_USED && o + HDR_SIZE <= PAGE_SIZE
  {
    PageBaseBound(pg);
    var a := PageBase(pg) + o;
    var h := HdrAt(m0, pg, o);
    (match stat
     case Xfer =>
       m1 == Overwrite(m0, a + HDR_STAT, LE16(ACTIVE) + LE16(h.pad2))
       && Field(m1, pg, o, HDR_STAT) == ACTIVE
     case Zero =>
       m1 == Overwrite(m0, a + HDR_LIVE, LE16(ZEROED_ID) + LE16(h.pad3))
       && Field(m1, pg, o, HDR_LIVE) == ZEROED_ID)
    && OnlyPage(m0, m1, pg)
    && (Field(m0, pg, o, HDR_ID) != ERASED_ID ==> KeepsErased(m0, m1))
  }

  /** markPage of a page's active flag: the page is marked in use, its items stay as they
      were and no other page changes. */
  method ActivatePage(mem: array<byte>, pg: nat)
    requires mem.Length == NV_SIZE && pg < PAGES_USED
    modifies mem
    ensures PgHdrAt(mem[..], pg).active == ZEROED_ID && OnlyPage(old(mem[..]), mem[..], pg)
    ensures PageImage(mem[..], pg)[PG_HDR_SIZE..] == PageImage(old(mem[..]), pg)[PG_HDR_SIZE..]
  {
    ghost var m0 := mem[..];
    MarkPage(mem, pg, PG_ACTIVE);
    MarkActiveFrame(m0, pg);
    StoreOnPage(m0, pg, PageBase(pg) + PG_ACTIVE, FieldWord(ZEROED_ID));
  }

  /** The flash part of setItem: the header at (pg, o) is read and one of its flags
      cleared. */
  method ClearFlag(mem: array<byte>, pg: nat, o: nat, stat: HdrStat) returns (h: Hdr)
    requires mem.Length == NV_SIZE && pg < PAGES_USED && o + HDR_SIZE <= PAGE_SIZE
    modifies mem
    ensures h == HdrAt(old(mem[..]), pg, o)
    ensures FlagCleared(old(mem[..]), mem[..], pg, o, stat)
  {
    PageBaseBound(pg);
    ghost var m0 := mem[..];
    h := ReadHdr(mem, pg, o);
    var addr := PageBase(pg) + o;
    var d: seq<byte>;
    var at: nat;
    if stat == Xfer {
      d, at := LE16(ACTIVE) + LE16(h.pad2), addr + HDR_STAT;
    } else {
      d, at := LE16(ZEROED_ID) + LE16(h.pad3), addr + HDR_LIVE;
    }
    FlashWrite(mem, at, HDR_ITEM, d);
    assert d[..HDR_ITEM] == d;
    U16AtStoreLE(m0, at, if stat == Xfer then ACTIVE else ZEROED_ID, d[2..]);
    assert d == LE16(if stat == Xfer then ACTIVE else ZEROED_ID) + d[2..];
    StoreOnPage(m0, pg, at, d);
    if Field(m0, pg, o, HDR_ID) != ERASED_ID {
      ErasedPageHdr(m0, pg, o);
      OverwriteKeepsErased(m0, pg, at, d);
    }
  }

  /** Every page other than `a` and `b` is the same in `m1` and `m2`. */
  ghost predicate OnlyPages(m1: seq<byte>, m2: seq<byte>, a: nat, b: nat)
    requires |m1| == NV_SIZE && |m2| == NV_SIZE
  {
    forall q :: 0 <= q < PAGES_USED && q != a && q != b ==> PageImage(m2, q) == PageImage(m1, q)
  }

  lemma OnlyPagesTrans(m0: seq<byte>, m1: seq<byte>, m2: seq<byte>, a: nat, b: nat)
    requires |m0| == NV_SIZE && |m1| == NV_SIZE && |m2| == NV_SIZE
    requires OnlyPages(m0, m1, a, b) && OnlyPages(m1, m2, a, b)
    ensures OnlyPages(m0, m2, a, b)
  {
    forall q | 0 <= q < PAGES_USED && q != a && q != b
      ensures PageImage(m2, q) == PageImage(m0, q)
    {
      assert PageImage(m2, q) == PageImage(m1, q);
    }
  }

  /** An item's data is part of its page's image. */
  lemma ItemDataInPage(m: seq<byte>, pg: nat, o: nat, len: nat)
    requires |m| == NV_SIZE && pg < PAGES_USED && o + ItemSize(len) <= PAGE_SIZE
    ensures ItemData(m, pg, o, len) == PageImage(m, pg)[o + HDR_SIZE..o + HDR_SIZE + DataSize(len)]
  {
    PageBaseBound(pg);
    var b := PageBase(pg);
    SliceOfSlice(m, b, b + PAGE_SIZE, o + HDR_SIZE, o + HDR_SIZE + DataSize(len),
                 b + o + HDR_SIZE, b + o + HDR_SIZE + DataSize(len));
  }

  /** A change confined to page `pg` leaves the items of every other page as they were. */
  lemma OtherPageData(m0: seq<byte>, m1: seq<byte>, pg: nat, q: nat, o: nat, len: nat)
    requires |m0| == NV_SIZE && |m1| == NV_SIZE && pg < PAGES_USED && q < PAGES_USED && q != pg
    requires OnlyPage(m0, m1, pg) && o + ItemSize(len) <= PAGE_SIZE
    ensures ItemData(m1, q, o, len) == ItemData(m0, q, o, len)
  {
    ItemDataInPage(m0, q, o, len);
    ItemDataInPage(m1, q, o, len);
  }

  /** A store that starts after the header at (pg, o) leaves every field of that header
      as it was. */
  lemma StoreAfterHeader(m: seq<byte>, pg: nat, o: nat, at: nat, d: seq<byte>)
    requires |m| == NV_SIZE && pg < PAGES_USED && o + HDR_SIZE <= PAGE_SIZE
    requires PageBase(pg) + o + HDR_SIZE <= at && at + |d| <= |m|
    ensures SameFields(m, Overwrite(m, at, d), pg, o, {HDR_ID, HDR_LEN, HDR_CHK, HDR_STAT, HDR_LIVE})
  {
    PageBaseBound(pg);
    var a := PageBase(pg) + o;
    U16AtStore(m, at, d, a + HDR_ID);
    U16AtStore(m, at, d, a + HDR_LEN);
    U16AtStore(m, at, d, a + HDR_CHK);
    U16AtStore(m, at, d, a + HDR_STAT);
    U16AtStore(m, at, d, a + HDR_LIVE);
  }

  /** The data copy of compactPage: the word-rounded data of the item at (srcPg, so) lands
      as the data of a header at the word-aligned (dstPg, o), whose header fields are left
      alone. The data starts `sOff` and `dOff` into the two pages and is `n` bytes long. */
  lemma CopyStore(m: seq<byte>, m': seq<byte>, srcPg: nat, so: nat, dstPg: nat, o: nat, len: u16,
                  sOff: nat, dOff: nat, n: nat)
    requires |m| == NV_SIZE && srcPg < PAGES_USED && dstPg < PAGES_USED && srcPg != dstPg
    requires so + ItemSize(len) <= PAGE_SIZE && o + ItemSize(len) <= PAGE_SIZE && o % WORD_SIZE == 0
    requires sOff == so + HDR_SIZE && dOff == o + HDR_SIZE && n == DataSize(len)
    requires PageBase(srcPg) + sOff + n <= |m| && PageBase(dstPg) + dOff + n + PadTo(dOff + n) <= |m|
    requires m' == Overwrite(m, PageBase(dstPg) + dOff, m[PageBase(srcPg) + sOff..PageBase(srcPg) + sOff + n] + Fill(PadTo(dOff + n)))
    ensures ItemData(m', dstPg, o, len) == ItemData(m, srcPg, so, len)
      && SameFields(m, m', dstPg, o, {HDR_ID, HDR_LEN, HDR_CHK, HDR_STAT, HDR_LIVE})
      && OnlyPage(m, m', dstPg) && Within(m, m', dstPg, o, o + ItemSize(len))
  {
    PageBaseBound(dstPg);
    PageBaseBound(srcPg);
    var b := PageBase(dstPg) + dOff;
    var d := m[PageBase(srcPg) + sOff..PageBase(srcPg) + sOff + n] + Fill(PadTo(dOff + n));
    assert PadTo(dOff + n) == 0;
    assert d == ItemData(m, srcPg, so, len);
    OverwriteRead(m, b, d);
    assert ItemData(m', dstPg, o, len) == m'[b..b + |d|];
    StoreOnPage(m, dstPg, b, d);
    StoreAfterHeader(m, dstPg, o, b, d);
    StoreWithinSpan(m, dstPg, dOff, d, o, o + ItemSize(len));
  }

  /** xferBuf of a whole item's data, as compactPage calls it. */
  method CopyData(mem: array<byte>, srcPg: nat, so: nat, dstPg: nat, o: nat, len: u16)
    requires mem.Length == NV_SIZE && srcPg < PAGES_USED && dstPg < PAGES_USED && srcPg != dstPg
    requires so + ItemSize(len) <= PAGE_SIZE && o + ItemSize(len) <= PAGE_SIZE && o % WORD_SIZE == 0
    modifies mem
    ensures ItemData(mem[..], dstPg, o, len) == ItemData(old(mem[..]), srcPg, so, len)
    ensures SameFields(old(mem[..]), mem[..], dstPg, o, {HDR_ID, HDR_LEN, HDR_CHK, HDR_STAT, HDR_LIVE})
    ensures OnlyPage(old(mem[..]), mem[..], dstPg) && Within(old(mem[..]), mem[..], dstPg, o, o + ItemSize(len))
  {
    ghost var m0 := mem[..];
    PageBaseBound(srcPg);
    PageBaseBound(dstPg);
    var sOff, dOff, n := so + HDR_SIZE, o + HDR_SIZE, DataSize(len);
    assert PadTo(dOff + n) == 0;
    XferBuf(mem, srcPg, sOff, dstPg, dOff, n);
    CopyStore(m0, mem[..], srcPg, so, dstPg, o, len, sOff, dOff, n);
  }

  /** What the copy step of compactPage leaves for the item header `h` of (srcPg, so),
      copied to a header at (dstPg, d) whose id and length were already in place: same id,
      length and data, and with `ok` the checksum of the source header. */
  ghost predicate ItemCopied(m0: seq<byte>, m1: seq<byte>, srcPg: nat, so: nat, dstPg: nat, d: nat,
                             h: Hdr, ok: bool)
    requires |m0| == NV_SIZE && |m1| == NV_SIZE && srcPg < PAGES_USED && dstPg < PAGES_USED
    requires so + ItemSize(h.len) <= PAGE_SIZE && d + ItemSize(h.len) <= PAGE_SIZE
  {
    Field(m1, dstPg, d, HDR_ID) == h.id && Field(m1, dstPg, d, HDR_LEN) == h.len
    && ItemData(m1, dstPg, d, h.len) == ItemData(m0, srcPg, so, h.len)
    && (ok ==> Field(m1, dstPg, d, HDR_CHK) == h.chk)
  }

  /** The flash part of compactPage's copy once the new header's id and length are in
      place: the data, its checksum computed on the copy and stored, and read back. */
  method CopyFlash(mem: array<byte>, srcPg: nat, so: nat, dstPg: nat, d: nat, h: Hdr) returns (ok: bool, hid: u16)
    requires mem.Length == NV_SIZE && srcPg < PAGES_USED && dstPg < PAGES_USED && srcPg != dstPg
    requires so + ItemSize(h.len) <= PAGE_SIZE && d + ItemSize(h.len) <= PAGE_SIZE && d % WORD_SIZE == 0
    requires Field(mem[..], dstPg, d, HDR_ID) == h.id && Field(mem[..], dstPg, d, HDR_LEN) == h.len
    modifies mem
    ensures ItemCopied(old(mem[..]), mem[..], srcPg, so, dstPg, d, h, ok)
    ensures OnlyPage(old(mem[..]), mem[..], dstPg) && hid == h.id
    ensures Within(old(mem[..]), mem[..], dstPg, d, d + ItemSize(h.len))
  {
    ghost var m0 := mem[..];
    CopyData(mem, srcPg, so, dstPg, d, h.len);
    ghost var m1 := mem[..];
    var chk := CalcChkF(mem, dstPg, d + HDR_SIZE, h.len);
    PutChk(mem, dstPg, d, h.len, chk);
    OnlyPageTrans(m0, m1, mem[..], dstPg);
    WithinTrans(m0, m1, mem[..], dstPg, d, d + ItemSize(h.len));
    var h2 := ReadHdr(mem, dstPg, d);
    HdrAtFields(mem[..], dstPg, d);
    ok := h.chk == h2.chk;
    hid := h2.id;
  }

  /** compactPage marks an item that is still current (its status word erased) as being
      transferred before copying it; the mark touches only the item's header. */
  method MarkMoving(mem: array<byte>, srcPg: nat, so: nat, h: Hdr)
    requires mem.Length == NV_SIZE && srcPg < PAGES_USED
    requires PG_HDR_SIZE <= so && so + ItemSize(h.len) <= PAGE_SIZE
    requires h == HdrAt(mem[..], srcPg, so)
    modifies mem
    ensures Within(old(mem[..]), mem[..], srcPg, so, so + HDR_SIZE)
    ensures OnlyPage(old(mem[..]), mem[..], srcPg)
    ensures ItemData(mem[..], srcPg, so, h.len) == ItemData(old(mem[..]), srcPg, so, h.len)
    ensures h.stat != ERASED_ID ==> mem[..] == old(mem[..])
  {
    ghost var m0 := mem[..];
    if h.stat == ERASED_ID {
      var h0 := ClearFlag(mem, srcPg, so, Xfer);
      PageBaseBound(srcPg);
      OverwriteElsewhere(m0, PageBase(srcPg) + so + HDR_STAT, LE16(ACTIVE) + LE16(h.pad2),
        PageBase(srcPg) + so + HDR_SIZE, PageBase(srcPg) + so + HDR_SIZE + DataSize(h.len));
      StoreWithinSpan(m0, srcPg, so + HDR_STAT, LE16(ACTIVE) + LE16(h.pad2), so, so + HDR_SIZE);
    } else {
      WithinNothing(m0, srcPg, so, so + HDR_SIZE);
    }
  }

  /** The flash part of compactPage's copy of the item whose header `h` is at (srcPg, so)
      to a new header at the reserve page's cursor (dstPg, d): a current item is first
      marked as being transferred (setItem with Xfer), then the new header's id and length
      go in (writeItem without flag) and the data and checksum follow (`CopyFlash`). */
  method TransferItem(mem: array<byte>, srcPg: nat, so: nat, dstPg: nat, d: nat, h: Hdr)
    returns (ok: bool, readOk: bool, readLen: u16, hid: u16)
    requires mem.Length == NV_SIZE && srcPg < PAGES_USED && dstPg < PAGES_USED && srcPg != dstPg
    requires PG_HDR_SIZE <= so && so + ItemSize(h.len) <= PAGE_SIZE
    requires OffOk(d) && d + ItemSize(h.len) <= PAGE_SIZE
    requires h == HdrAt(mem[..], srcPg, so)
    modifies mem
    ensures readOk && readLen == h.len && hid == h.id
    ensures OnlyPages(old(mem[..]), mem[..], srcPg, dstPg)
    ensures WithinTwo(old(mem[..]), mem[..], srcPg, so, so + HDR_SIZE, dstPg, d, d + ItemSize(h.len))
    ensures ItemCopied(old(mem[..]), mem[..], srcPg, so, dstPg, d, h, ok)
  {
    ghost var m0 := mem[..];
    MarkMoving(mem, srcPg, so, h);
    ghost var m1 := mem[..];
    assert OnlyPages(m0, m1, srcPg, dstPg);
    var wok;
    wok, readOk, readLen := PutItem(mem, dstPg, d, h.id, h.len, None, false);
    ghost var m2 := mem[..];
    OtherPageData(m1, m2, dstPg, srcPg, so, h.len);
    ok, hid := CopyFlash(mem, srcPg, so, dstPg, d, h);
    OnlyPageTrans(m1, m2, mem[..], dstPg);
    WithinTrans(m1, m2, mem[..], dstPg, d, d + ItemSize(h.len));
    WithinThenWithin(m0, m1, mem[..], srcPg, so, so + HDR_SIZE, dstPg, d, d + ItemSize(h.len));
    OnlyPagesTrans(m0, m1, mem[..], srcPg, dstPg);
  }

  /** What compactPage does with the header at `off` on the page being compacted when the
      reserve page's cursor is at `dstOff`. */
  datatype Visit =
    | EndOfPage        // an erased header, or an item that fits neither page: the walk stops
    | Pass(next: nat)  // a zeroed, skipped or corrupt item: stepped over
    | Move(next: nat)  // a live item with a good checksum: copied to the reserve page

  function CompactVisit(m: seq<byte>, pg: nat, off: nat, dstOff: nat, skipId: u16): (v: Visit)
    requires |m| == NV_SIZE && pg < PAGES_USED && off + HDR_SIZE <= PAGE_SIZE
    ensures v.EndOfPage? <==> (HdrAt(m, pg, off).id == ERASED_ID
                              || off + ItemSize(HdrAt(m, pg, off).len) > PAGE_SIZE
                              || dstOff + ItemSize(HdrAt(m, pg, off).len) > PAGE_SIZE)
    ensures !v.EndOfPage? ==> v.next == off + ItemSize(HdrAt(m, pg, off).len)
    ensures v.Move? <==> (!v.EndOfPage? && HdrAt(m, pg, off).live != ZEROED_ID
                         && HdrAt(m, pg, off).id != skipId
                         && HdrAt(m, pg, off).chk == Chk16(ItemData(m, pg, off, HdrAt(m, pg, off).len)))
  {
    var h := HdrAt(m, pg, off);
    var sz := DataSize(h.len);
    if h.id == ERASED_ID || sz > PAGE_SIZE - HDR_SIZE - off || sz > PAGE_SIZE - HDR_SIZE - dstOff then
      EndOfPage
    else if h.live != ZEROED_ID && h.id != skipId && h.chk == Chk16(ItemData(m, pg, off, h.len)) then
      Move(off + HDR_SIZE + sz)
    else
      Pass(off + HDR_SIZE + sz)
  }

  /** compactPage's tests as written, with the data size kept in a uint16. A length of
      0xFFFD or more then rounds to 0 and passes both fit tests. The checksum of such an
      item would be read past the page; the model reads no byte outside a page and takes
      that test as failed. */
  function CompactVisitAsWritten(m: seq<byte>, pg: nat, off: nat, dstOff: nat, skipId: u16): (v: Visit)
    requires |m| == NV_SIZE && pg < PAGES_USED && off + HDR_SIZE <= PAGE_SIZE
    ensures !v.EndOfPage? ==> off + HDR_SIZE <= v.next
  {
    var h := HdrAt(m, pg, off);
    var sz := DataSize(h.len) % 0x10000;
    if h.id == ERASED_ID || sz > PAGE_SIZE - HDR_SIZE - off || sz > PAGE_SIZE - HDR_SIZE - dstOff then
      EndOfPage
    else if h.live != ZEROED_ID && h.id != skipId && off + ItemSize(h.len) <= PAGE_SIZE
            && h.chk == Chk16(ItemData(m, pg, off, h.len)) then
      Move(off + HDR_SIZE + sz)
    else
      Pass(off + HDR_SIZE + sz)
  }

  /** A zeroed header whose length reads 0xFFFD or more, as a torn write leaves it: the
      loop as written steps over the header alone and reads the item's data as the next
      header; the intended loop stops, the item running past the page. */
  lemma TruncatedLengthIsNotEnd(m: seq<byte>, pg: nat, off: nat, dstOff: nat, skipId: u16)
    requires |m| == NV_SIZE && pg < PAGES_USED && off + HDR_SIZE <= PAGE_SIZE && dstOff + HDR_SIZE <= PAGE_SIZE
    requires HdrAt(m, pg, off).id != ERASED_ID && HdrAt(m, pg, off).live == ZEROED_ID
    requires HdrAt(m, pg, off).len >= 0xFFFD
    ensures CompactVisitAsWritten(m, pg, off, dstOff, skipId) == Pass(off + HDR_SIZE)
    ensures CompactVisit(m, pg, off, dstOff, skipId) == EndOfPage
  {
    assert DataSize(HdrAt(m, pg, off).len) == 0x10000;
  }

  /** The tests at the head of compactPage's loop: read the header, check it fits both pages,
      and for a live item other than `skipId` compute the checksum of its data. */
  method VisitItem(mem: array<byte>, pg: nat, off: nat, dstOff: nat, skipId: u16) returns (v: Visit, h: Hdr)
    requires mem.Length == NV_SIZE && pg < PAGES_USED && off + HDR_SIZE <= PAGE_SIZE
    ensures v == CompactVisit(mem[..], pg, off, dstOff, skipId) && h == HdrAt(mem[..], pg, off)
  {
    h := ReadHdr(mem, pg, off);
    var sz := DataSize(h.len);
    if h.id == ERASED_ID || sz > PAGE_SIZE - HDR_SIZE - off || sz > PAGE_SIZE - HDR_SIZE - dstOff {
      return EndOfPage, h;
    }
    v := Pass(off + HDR_SIZE + sz);
    if h.live != ZEROED_ID && h.id != skipId {
      var chkF := CalcChkF(mem, pg, off + HDR_SIZE, h.len);
      if h.chk == chkF {
        v := Move(off + HDR_SIZE + sz);
      }
    }
  }

  // ---------------------------------------------------------------- what compactPage copies

  /** A copied item stays in place while the bytes of its new home do. */
  lemma CopiedFrame(m0: seq<byte>, m: seq<byte>, m': seq<byte>, srcPg: nat, so: nat, dstPg: nat, d: nat,
                    h: Hdr, ok: bool)
    requires |m0| == NV_SIZE && |m| == NV_SIZE && |m'| == NV_SIZE && srcPg < PAGES_USED && dstPg < PAGES_USED
    requires so + ItemSize(h.len) <= PAGE_SIZE && d + ItemSize(h.len) <= PAGE_SIZE
    requires ItemCopied(m0, m, srcPg, so, dstPg, d, h, ok) && SameSpan(m, m', dstPg, d, d + ItemSize(h.len))
    ensures ItemCopied(m0, m', srcPg, so, dstPg, d, h, ok)
  {
    SpanHdr(m, m', dstPg, d, d + ItemSize(h.len), d);
    SpanData(m, m', dstPg, d, d + ItemSize(h.len), d, h.len);
  }

  /** A copy made from `m1` is a copy of `m0` when the source item reads the same in both. */
  lemma CopiedSource(m0: seq<byte>, m1: seq<byte>, m: seq<byte>, srcPg: nat, so: nat, dstPg: nat, d: nat, ok: bool)
    requires |m0| == NV_SIZE && |m1| == NV_SIZE && |m| == NV_SIZE && srcPg < PAGES_USED && dstPg < PAGES_USED
    requires so + HDR_SIZE <= PAGE_SIZE && SameSpan(m0, m1, srcPg, so, PAGE_SIZE)
    requires so + ItemSize(HdrAt(m1, srcPg, so).len) <= PAGE_SIZE && d + ItemSize(HdrAt(m1, srcPg, so).len) <= PAGE_SIZE
    requires ItemCopied(m1, m, srcPg, so, dstPg, d, HdrAt(m1, srcPg, so), ok)
    ensures HdrAt(m0, srcPg, so) == HdrAt(m1, srcPg, so)
    ensures ItemCopied(m0, m, srcPg, so, dstPg, d, HdrAt(m0, srcPg, so), ok)
  {
    SpanHdr(m0, m1, srcPg, so, PAGE_SIZE, so);
    SpanData(m0, m1, srcPg, so, PAGE_SIZE, so, HdrAt(m0, srcPg, so).len);
  }

  /** compactPage decides the same at a header whose bytes and those after it are the same. */
  lemma VisitSpan(m0: seq<byte>, m1: seq<byte>, pg: nat, off: nat, dstOff: nat, skipId: u16)
    requires |m0| == NV_SIZE && |m1| == NV_SIZE && pg < PAGES_USED && off + HDR_SIZE <= PAGE_SIZE
    requires SameSpan(m0, m1, pg, off, PAGE_SIZE)
    ensures CompactVisit(m1, pg, off, dstOff, skipId) == CompactVisit(m0, pg, off, dstOff, skipId)
    ensures CursorPast(m1, pg, off, dstOff) == CursorPast(m0, pg, off, dstOff)
  {
    SpanHdr(m0, m1, pg, off, PAGE_SIZE, off);
    var h := HdrAt(m0, pg, off);
    if off + ItemSize(h.len) <= PAGE_SIZE {
      SpanData(m0, m1, pg, off, PAGE_SIZE, off, h.len);
    }
  }

  /** compactPage's walk of page `pg`, as `m0` reads it, from the header at `a` with the
      reserve cursor at `da` to the header at `b` with the cursor at `db`: the walk goes on
      while a header fits before the page end, and every item it moves is found in `m`
      with its id, length, data and checksum at the reserve page's cursor, the items one
      after the other in the order of the walk. */
  ghost predicate CompactRun(m0: seq<byte>, m: seq<byte>, pg: nat, dstPg: nat, skipId: u16,
                             a: nat, da: nat, b: nat, db: nat)
    requires |m0| == NV_SIZE && |m| == NV_SIZE && pg < PAGES_USED && dstPg < PAGES_USED
    decreases PAGE_SIZE - a
  {
    if a == b then da == db
    else
      a < b && a + HDR_SIZE < PAGE_SIZE
      && match CompactVisit(m0, pg, a, da, skipId)
         case EndOfPage => false
         case Pass(n) => CompactRun(m0, m, pg, dstPg, skipId, n, da, b, db)
         case Move(n) =>
           ItemCopied(m0, m, pg, a, dstPg, da, HdrAt(m0, pg, a), true)
           && CompactRun(m0, m, pg, dstPg, skipId, n, CursorPast(m0, pg, a, da), b, db)
  }

  /** The whole of compactPage's walk from the header at `a`, with the cursor at `da`, done
      without a failed copy: as `CompactRun`, up to where no header fits or the walk stops,
      with the reserve cursor then at `db`. */
  ghost predicate Compacted(m0: seq<byte>, m: seq<byte>, pg: nat, dstPg: nat, skipId: u16,
                            a: nat, da: nat, db: nat)
    requires |m0| == NV_SIZE && |m| == NV_SIZE && pg < PAGES_USED && dstPg < PAGES_USED
    decreases PAGE_SIZE - a
  {
    if PAGE_SIZE <= a + HDR_SIZE then da == db
    else match CompactVisit(m0, pg, a, da, skipId)
      case EndOfPage => da == db
      case Pass(n) => Compacted(m0, m, pg, dstPg, skipId, n, da, db)
      case Move(n) =>
        ItemCopied(m0, m, pg, a, dstPg, da, HdrAt(m0, pg, a), true)
        && Compacted(m0, m, pg, dstPg, skipId, n, CursorPast(m0, pg, a, da), db)
  }

  /** The walk and the reserve cursor only move forward. */
  lemma {:induction false} RunBounds(m0: seq<byte>, m: seq<byte>, pg: nat, dstPg: nat, skipId: u16,
                                     a: nat, da: nat, b: nat, db: nat)
    requires |m0| == NV_SIZE && |m| == NV_SIZE && pg < PAGES_USED && dstPg < PAGES_USED
    requires CompactRun(m0, m, pg, dstPg, skipId, a, da, b, db)
    ensures a <= b && da <= db
    decreases PAGE_SIZE - a
  {
    if a != b {
      match CompactVisit(m0, pg, a, da, skipId)
      case Pass(n) => RunBounds(m0, m, pg, dstPg, skipId, n, da, b, db);
      case Move(n) => RunBounds(m0, m, pg, dstPg, skipId, n, CursorPast(m0, pg, a, da), b, db);
    }
  }

  lemma {:induction false} CompactedBounds(m0: seq<byte>, m: seq<byte>, pg: nat, dstPg: nat, skipId: u16,
                                           a: nat, da: nat, db: nat)
    requires |m0| == NV_SIZE && |m| == NV_SIZE && pg < PAGES_USED && dstPg < PAGES_USED
    requires Compacted(m0, m, pg, dstPg, skipId, a, da, db)
    ensures da <= db
    decreases PAGE_SIZE - a
  {
    if a + HDR_SIZE < PAGE_SIZE {
      match CompactVisit(m0, pg, a, da, skipId)
      case EndOfPage =>
      case Pass(n) => CompactedBounds(m0, m, pg, dstPg, skipId, n, da, db);
      case Move(n) => CompactedBounds(m0, m, pg, dstPg, skipId, n, CursorPast(m0, pg, a, da), db);
    }
  }

  /** The moved items stay in place while the reserve page's bytes between the two cursors
      do. */
  lemma {:induction false} RunFrame(m0: seq<byte>, m: seq<byte>, m': seq<byte>, pg: nat, dstPg: nat, skipId: u16,
                                    a: nat, da: nat, b: nat, db: nat)
    requires |m0| == NV_SIZE && |m| == NV_SIZE && |m'| == NV_SIZE && pg < PAGES_USED && dstPg < PAGES_USED
    requires db <= PAGE_SIZE && SameSpan(m, m', dstPg, da, db)
    requires CompactRun(m0, m, pg, dstPg, skipId, a, da, b, db)
    ensures CompactRun(m0, m', pg, dstPg, skipId, a, da, b, db)
    decreases PAGE_SIZE - a
  {
    if a != b {
      match CompactVisit(m0, pg, a, da, skipId)
      case Pass(n) => RunFrame(m0, m, m', pg, dstPg, skipId, n, da, b, db);
      case Move(n) =>
        var h := HdrAt(m0, pg, a);
        var e := CursorPast(m0, pg, a, da);
        RunBounds(m0, m, pg, dstPg, skipId, n, e, b, db);
        CopiedFrame(m0, m, m', pg, a, dstPg, da, h, true);
        RunFrame(m0, m, m', pg, dstPg, skipId, n, e, b, db);
    }
  }

  lemma {:induction false} CompactedFrame(m0: seq<byte>, m: seq<byte>, m': seq<byte>, pg: nat, dstPg: nat,
                                          skipId: u16, a: nat, da: nat, db: nat)
    requires |m0| == NV_SIZE && |m| == NV_SIZE && |m'| == NV_SIZE && pg < PAGES_USED && dstPg < PAGES_USED
    requires db <= PAGE_SIZE && SameSpan(m, m', dstPg, da, db)
    requires Compacted(m0, m, pg, dstPg, skipId, a, da, db)
    ensures Compacted(m0, m', pg, dstPg, skipId, a, da, db)
    decreases PAGE_SIZE - a
  {
    if a + HDR_SIZE < PAGE_SIZE {
      match CompactVisit(m0, pg, a, da, skipId)
      case EndOfPage =>
      case Pass(n) => CompactedFrame(m0, m, m', pg, dstPg, skipId, n, da, db);
      case Move(n) =>
        var h := HdrAt(m0, pg, a);
        var e := CursorPast(m0, pg, a, da);
        CompactedBounds(m0, m, pg, dstPg, skipId, n, e, db);
        CopiedFrame(m0, m, m', pg, a, dstPg, da, h, true);
        CompactedFrame(m0, m, m', pg, dstPg, skipId, n, e, db);
    }
  }

  /** One more header of the walk: stepped over, or moved to the cursor. */
  lemma {:induction false} RunExtend(m0: seq<byte>, m: seq<byte>, pg: nat, dstPg: nat, skipId: u16,
                                     a: nat, da: nat, b: nat, db: nat)
    requires |m0| == NV_SIZE && |m| == NV_SIZE && pg < PAGES_USED && dstPg < PAGES_USED
    requires CompactRun(m0, m, pg, dstPg, skipId, a, da, b, db) && b + HDR_SIZE < PAGE_SIZE
    requires !CompactVisit(m0, pg, b, db, skipId).EndOfPage?
    requires CompactVisit(m0, pg, b, db, skipId).Move? ==>
      ItemCopied(m0, m, pg, b, dstPg, db, HdrAt(m0, pg, b), true)
    ensures var v := CompactVisit(m0, pg, b, db, skipId);
      CompactRun(m0, m, pg, dstPg, skipId, a, da, v.next,
                 if v.Move? then db + ItemSize(HdrAt(m0, pg, b).len) else db)
    decreases PAGE_SIZE - a
  {
    var v := CompactVisit(m0, pg, b, db, skipId);
    var db' := if v.Move? then db + ItemSize(HdrAt(m0, pg, b).len) else db;
    if a == b {
      assert CompactRun(m0, m, pg, dstPg, skipId, v.next, db', v.next, db');
    } else {
      RunBounds(m0, m, pg, dstPg, skipId, a, da, b, db);
      match CompactVisit(m0, pg, a, da, skipId)
      case Pass(n) => RunExtend(m0, m, pg, dstPg, skipId, n, da, b, db);
      case Move(n) => RunExtend(m0, m, pg, dstPg, skipId, n, CursorPast(m0, pg, a, da), b, db);
    }
  }

  /** A walk that reached a header where it stops is the whole walk. */
  lemma {:induction false} RunClose(m0: seq<byte>, m: seq<byte>, pg: nat, dstPg: nat, skipId: u16,
                                    a: nat, da: nat, b: nat, db: nat)
    requires |m0| == NV_SIZE && |m| == NV_SIZE && pg < PAGES_USED && dstPg < PAGES_USED
    requires CompactRun(m0, m, pg, dstPg, skipId, a, da, b, db)
    requires PAGE_SIZE <= b + HDR_SIZE || CompactVisit(m0, pg, b, db, skipId).EndOfPage?
    ensures Compacted(m0, m, pg, dstPg, skipId, a, da, db)
    decreases PAGE_SIZE - a
  {
    if a != b {
      match CompactVisit(m0, pg, a, da, skipId)
      case Pass(n) => RunClose(m0, m, pg, dstPg, skipId, n, da, b, db);
      case Move(n) => RunClose(m0, m, pg, dstPg, skipId, n, CursorPast(m0, pg, a, da), b, db);
    }
  }

  /** The walk reads the page being compacted from `a` on only. */
  lemma {:induction false} CompactedSource(m0: seq<byte>, m1: seq<byte>, m: seq<byte>, pg: nat, dstPg: nat,
                                           skipId: u16, a: nat, da: nat, db: nat)
    requires |m0| == NV_SIZE && |m1| == NV_SIZE && |m| == NV_SIZE && pg < PAGES_USED && dstPg < PAGES_USED
    requires SameSpan(m0, m1, pg, a, PAGE_SIZE)
    requires Compacted(m1, m, pg, dstPg, skipId, a, da, db)
    ensures Compacted(m0, m, pg, dstPg, skipId, a, da, db)
    decreases PAGE_SIZE - a
  {
    if a + HDR_SIZE < PAGE_SIZE {
      VisitSpan(m0, m1, pg, a, da, skipId);
      match CompactVisit(m0, pg, a, da, skipId)
      case EndOfPage =>
      case Pass(n) => CompactedSource(m0, m1, m, pg, dstPg, skipId, n, da, db);
      case Move(n) =>
        CopiedSource(m0, m1, m, pg, a, dstPg, da, true);
        CompactedSource(m0, m1, m, pg, dstPg, skipId, n, CursorPast(m0, pg, a, da), db);
    }
  }

  /** Where the reserve cursor stands once the item with its header at `a` on page `pg`
      has been copied to `da`. */
  function CursorPast(m0: seq<byte>, pg: nat, a: nat, da: nat): nat
    requires |m0| == NV_SIZE && pg < PAGES_USED && a + HDR_SIZE <= PAGE_SIZE
  {
    da + ItemSize(HdrAt(m0, pg, a).len)
  }

  /** The items compactPage's walk of page `pg` moves, from the header at `a` with the
      reserve cursor at `da`: for each one, in the order of the walk, its header offset on
      `pg` and on the reserve page. Each is a live item, other than `skipId`, with a good
      checksum, and each lands on the reserve page right after the one before it. */
  function Moves(m0: seq<byte>, pg: nat, skipId: u16, a: nat, da: nat): (r: seq<(nat, nat)>)
    requires |m0| == NV_SIZE && pg < PAGES_USED
    ensures forall i :: 0 <= i < |r| ==> a <= r[i].0 && da <= r[i].1 && r[i].0 + HDR_SIZE < PAGE_SIZE
    ensures forall i, j :: 0 <= i < j < |r| ==> r[i].0 < r[j].0 && r[i].1 < r[j].1
    ensures |r| > 0 ==> r[0].1 == da
    decreases PAGE_SIZE - a
  {
    if PAGE_SIZE <= a + HDR_SIZE then []
    else match CompactVisit(m0, pg, a, da, skipId)
      case EndOfPage => []
      case Pass(n) => Moves(m0, pg, skipId, n, da)
      case Move(n) => [(a, da)] + Moves(m0, pg, skipId, n, CursorPast(m0, pg, a, da))
  }

  /** One step of the walk: the moves from a header stepped over are the moves after it;
      those from an item moved start with it. */
  lemma MovesStep(m0: seq<byte>, pg: nat, skipId: u16, a: nat, da: nat)
    requires |m0| == NV_SIZE && pg < PAGES_USED && a + HDR_SIZE < PAGE_SIZE
    ensures var v := CompactVisit(m0, pg, a, da, skipId);
      && (v.Pass? ==> Moves(m0, pg, skipId, a, da) == Moves(m0, pg, skipId, v.next, da))
      && (v.Move? ==> Moves(m0, pg, skipId, a, da)
                      == [(a, da)] + Moves(m0, pg, skipId, v.next, CursorPast(m0, pg, a, da)))
  {
  }

  /** The item with its header at `so` on page `pg` of `m0` is found at `d` on page
      `dstPg` of `m` with the same id, length and data, and a checksum that matches the
      data there. */
  ghost predicate CopyIntact(m0: seq<byte>, m: seq<byte>, pg: nat, so: nat, dstPg: nat, d: nat)
    requires |m0| == NV_SIZE && |m| == NV_SIZE && pg < PAGES_USED && dstPg < PAGES_USED
    requires so + HDR_SIZE <= PAGE_SIZE
  {
    var h := HdrAt(m0, pg, so);
    && so + ItemSize(h.len) <= PAGE_SIZE && d + ItemSize(h.len) <= PAGE_SIZE
    && Field(m, dstPg, d, HDR_ID) == h.id && Field(m, dstPg, d, HDR_LEN) == h.len
    && ItemData(m, dstPg, d, h.len) == ItemData(m0, pg, so, h.len)
    && Field(m, dstPg, d, HDR_CHK) == Chk16(ItemData(m, dstPg, d, h.len))
  }

  /** An item compactPage moves and copies with its checksum read back is intact. */
  lemma MovedIntact(m0: seq<byte>, m: seq<byte>, pg: nat, so: nat, dstPg: nat, d: nat, skipId: u16)
    requires |m0| == NV_SIZE && |m| == NV_SIZE && pg < PAGES_USED && dstPg < PAGES_USED
    requires so + HDR_SIZE <= PAGE_SIZE && CompactVisit(m0, pg, so, d, skipId).Move?
    requires ItemCopied(m0, m, pg, so, dstPg, d, HdrAt(m0, pg, so), true)
    ensures CopyIntact(m0, m, pg, so, dstPg, d)
  {
  }

  /** A compaction that went through left every item its walk moves intact on the reserve
      page `dstPg`. */
  lemma {:induction false} CompactedMoves(m0: seq<byte>, m: seq<byte>, pg: nat, dstPg: nat, skipId: u16,
                                          a: nat, da: nat, db: nat)
    requires |m0| == NV_SIZE && |m| == NV_SIZE && pg < PAGES_USED && dstPg < PAGES_USED
    requires Compacted(m0, m, pg, dstPg, skipId, a, da, db)
    ensures var r := Moves(m0, pg, skipId, a, da);
      forall i :: 0 <= i < |r| ==> CopyIntact(m0, m, pg, r[i].0, dstPg, r[i].1)
    decreases PAGE_SIZE - a
  {
    if a + HDR_SIZE < PAGE_SIZE {
      var v := CompactVisit(m0, pg, a, da, skipId);
      if v.Pass? {
        MovesStep(m0, pg, skipId, a, da);
        CompactedMoves(m0, m, pg, dstPg, skipId, v.next, da, db);
      } else if v.Move? {
        CompactedMoves(m0, m, pg, dstPg, skipId, v.next, CursorPast(m0, pg, a, da), db);
        MovedIntact(m0, m, pg, a, dstPg, da, skipId);
        MovesMove(m0, pg, skipId, a, da, v.next);
        var r := Moves(m0, pg, skipId, a, da);
        assert forall i :: 1 <= i < |r| ==> r[i] == r[1..][i - 1];
      }
    }
  }

  /** Every item the walk moves is live, is not `skipId` and has a good checksum. */
  lemma {:induction false} MovesLive(m0: seq<byte>, pg: nat, skipId: u16, a: nat, da: nat)
    requires |m0| == NV_SIZE && pg < PAGES_USED
    ensures var r := Moves(m0, pg, skipId, a, da);
      forall i :: 0 <= i < |r| ==> CompactVisit(m0, pg, r[i].0, r[i].1, skipId).Move?
    decreases PAGE_SIZE - a
  {
    if a + HDR_SIZE < PAGE_SIZE {
      var v := CompactVisit(m0, pg, a, da, skipId);
      if v.Pass? {
        MovesStep(m0, pg, skipId, a, da);
        MovesLive(m0, pg, skipId, v.next, da);
      } else if v.Move? {
        MovesLive(m0, pg, skipId, v.next, CursorPast(m0, pg, a, da));
        MovesMove(m0, pg, skipId, a, da, v.next);
        var r := Moves(m0, pg, skipId, a, da);
        assert forall i :: 1 <= i < |r| ==> r[i] == r[1..][i - 1];
      }
    }
  }

  /** The moves `r` are packed on the reserve page from `da` on: the first item lands at
      `da` and each next one right after the one before it. */
  ghost predicate PackedFrom(m0: seq<byte>, pg: nat, r: seq<(nat, nat)>, da: nat)
    requires |m0| == NV_SIZE && pg < PAGES_USED
    decreases |r|
  {
    |r| == 0
    || (&& r[0].0 + HDR_SIZE < PAGE_SIZE && r[0].1 == da
        && PackedFrom(m0, pg, r[1..], CursorPast(m0, pg, r[0].0, da)))
  }

  /** Where the reserve cursor stands after the moves `r`: right after the last item moved,
      or at `da` when there is none. */
  ghost function MovesEnd(m0: seq<byte>, pg: nat, r: seq<(nat, nat)>, da: nat): nat
    requires |m0| == NV_SIZE && pg < PAGES_USED
    decreases |r|
  {
    if |r| == 0 || PAGE_SIZE < r[0].0 + HDR_SIZE then da
    else MovesEnd(m0, pg, r[1..], CursorPast(m0, pg, r[0].0, r[0].1))
  }

  /** The item with its header at `a` moved to `da` ahead of moves packed from right after
      it: all of them are packed from `da`, and end where the later ones end. */
  lemma ConsPacked(m0: seq<byte>, pg: nat, a: nat, da: nat, t: seq<(nat, nat)>, e: nat, r: seq<(nat, nat)>)
    requires |m0| == NV_SIZE && pg < PAGES_USED && a + HDR_SIZE < PAGE_SIZE
    requires e == CursorPast(m0, pg, a, da)
    requires PackedFrom(m0, pg, t, e) && |r| > 0 && r[0] == (a, da) && r[1..] == t
    ensures PackedFrom(m0, pg, r, da)
  {
  }

  /** The items the walk moves are packed on the reserve page from the cursor it starts at. */
  lemma {:induction false} MovesPacked(m0: seq<byte>, pg: nat, skipId: u16, a: nat, da: nat)
    requires |m0| == NV_SIZE && pg < PAGES_USED
    ensures PackedFrom(m0, pg, Moves(m0, pg, skipId, a, da), da)
    decreases PAGE_SIZE - a
  {
    if a + HDR_SIZE < PAGE_SIZE {
      var v := CompactVisit(m0, pg, a, da, skipId);
      if v.Pass? {
        MovesStep(m0, pg, skipId, a, da);
        MovesPacked(m0, pg, skipId, v.next, da);
      } else if v.Move? {
        var e := CursorPast(m0, pg, a, da);
        MovesPacked(m0, pg, skipId, v.next, e);
        MovesMove(m0, pg, skipId, a, da, v.next);
        ConsPacked(m0, pg, a, da, Moves(m0, pg, skipId, v.next, e), e, Moves(m0, pg, skipId, a, da));
      } else {
        assert Moves(m0, pg, skipId, a, da) == [];
      }
    } else {
      assert Moves(m0, pg, skipId, a, da) == [];
    }
  }

  /** The moves of a walk that moves the item at `a` start with it and go on with the
      moves from the next header. */
  lemma MovesMove(m0: seq<byte>, pg: nat, skipId: u16, a: nat, da: nat, n: nat)
    requires |m0| == NV_SIZE && pg < PAGES_USED && a + HDR_SIZE < PAGE_SIZE
    requires CompactVisit(m0, pg, a, da, skipId) == Move(n)
    ensures var r := Moves(m0, pg, skipId, a, da);
      |r| > 0 && r[0] == (a, da) && r[1..] == Moves(m0, pg, skipId, n, CursorPast(m0, pg, a, da))
  {
  }

  /** Where the walk from header `a`, with the reserve cursor at `da`, leaves that cursor. */
  ghost function WalkEnd(m0: seq<byte>, pg: nat, skipId: u16, a: nat, da: nat): nat
    requires |m0| == NV_SIZE && pg < PAGES_USED
    decreases PAGE_SIZE - a
  {
    if PAGE_SIZE <= a + HDR_SIZE then da
    else match CompactVisit(m0, pg, a, da, skipId)
      case EndOfPage => da
      case Pass(n) => WalkEnd(m0, pg, skipId, n, da)
      case Move(n) => WalkEnd(m0, pg, skipId, n, CursorPast(m0, pg, a, da))
  }

  /** The walk that moves the item at `a` leaves the cursor where the walk from the next
      header, with the cursor past that item, does; and so do its moves, when the moves
      from the next header end where that walk does. */
  lemma WalkEndMove(m0: seq<byte>, pg: nat, skipId: u16, a: nat, da: nat, n: nat)
    requires |m0| == NV_SIZE && pg < PAGES_USED && a + HDR_SIZE < PAGE_SIZE
    requires CompactVisit(m0, pg, a, da, skipId) == Move(n)
    requires var e := CursorPast(m0, pg, a, da);
      WalkEnd(m0, pg, skipId, n, e) == MovesEnd(m0, pg, Moves(m0, pg, skipId, n, e), e)
    ensures WalkEnd(m0, pg, skipId, a, da) == MovesEnd(m0, pg, Moves(m0, pg, skipId, a, da), da)
  {
    MovesMove(m0, pg, skipId, a, da, n);
    var r := Moves(m0, pg, skipId, a, da);
    assert MovesEnd(m0, pg, r, da) == MovesEnd(m0, pg, r[1..], CursorPast(m0, pg, a, da));
  }

  /** A compaction that went through leaves the reserve cursor where the walk does. */
  lemma {:induction false} CompactedCursor(m0: seq<byte>, m: seq<byte>, pg: nat, dstPg: nat, skipId: u16,
                                           a: nat, da: nat, db: nat)
    requires |m0| == NV_SIZE && |m| == NV_SIZE && pg < PAGES_USED && dstPg < PAGES_USED
    requires Compacted(m0, m, pg, dstPg, skipId, a, da, db)
    ensures db == WalkEnd(m0, pg, skipId, a, da)
    decreases PAGE_SIZE - a
  {
    if a + HDR_SIZE < PAGE_SIZE {
      match CompactVisit(m0, pg, a, da, skipId)
      case EndOfPage =>
      case Pass(n) => CompactedCursor(m0, m, pg, dstPg, skipId, n, da, db);
      case Move(n) => CompactedCursor(m0, m, pg, dstPg, skipId, n, CursorPast(m0, pg, a, da), db);
    }
  }

  /** The walk leaves the reserve cursor right after the last item it moves, or where it
      was when it moves none. */
  lemma {:induction false} WalkEndMoves(m0: seq<byte>, pg: nat, skipId: u16, a: nat, da: nat)
    requires |m0| == NV_SIZE && pg < PAGES_USED
    ensures WalkEnd(m0, pg, skipId, a, da) == MovesEnd(m0, pg, Moves(m0, pg, skipId, a, da), da)
    decreases PAGE_SIZE - a
  {
    if a + HDR_SIZE < PAGE_SIZE {
      var v := CompactVisit(m0, pg, a, da, skipId);
      if v.Pass? {
        MovesStep(m0, pg, skipId, a, da);
        WalkEndMoves(m0, pg, skipId, v.next, da);
      } else if v.Move? {
        WalkEndMoves(m0, pg, skipId, v.next, CursorPast(m0, pg, a, da));
        WalkEndMove(m0, pg, skipId, a, da, v.next);
      } else {
        assert Moves(m0, pg, skipId, a, da) == [];
      }
    } else {
      assert Moves(m0, pg, skipId, a, da) == [];
    }
  }

  /** A compaction that went through leaves the reserve cursor right after the last item
      its walk moves, or where it was when the walk moves none. */
  lemma CompactedEnd(m0: seq<byte>, m: seq<byte>, pg: nat, dstPg: nat, skipId: u16, a: nat, da: nat, db: nat)
    requires |m0| == NV_SIZE && |m| == NV_SIZE && pg < PAGES_USED && dstPg < PAGES_USED
    requires Compacted(m0, m, pg, dstPg, skipId, a, da, db)
    ensures PackedFrom(m0, pg, Moves(m0, pg, skipId, a, da), da)
    ensures db == MovesEnd(m0, pg, Moves(m0, pg, skipId, a, da), da)
  {
    CompactedCursor(m0, m, pg, dstPg, skipId, a, da, db);
    WalkEndMoves(m0, pg, skipId, a, da);
    MovesPacked(m0, pg, skipId, a, da);
  }

  /** One header of compactPage's loop, from `m1` to `m2`, added to the walk made so far:
      the page being compacted is still as in `m0` past the header, and the reserve page
      still as in `m0` before the compaction's first cursor `da`. */
  lemma RunStep(m0: seq<byte>, m1: seq<byte>, m2: seq<byte>, srcPg: nat, dstPg: nat, skipId: u16,
                srcOff: nat, da: nat, db: nat, db': nat)
    requires |m0| == NV_SIZE && |m1| == NV_SIZE && |m2| == NV_SIZE && srcPg < PAGES_USED && dstPg < PAGES_USED
    requires srcOff + HDR_SIZE < PAGE_SIZE && da <= db <= PAGE_SIZE
    requires SameSpan(m0, m1, srcPg, srcOff, PAGE_SIZE) && SameSpan(m0, m1, dstPg, 0, da)
    requires CompactRun(m0, m1, srcPg, dstPg, skipId, PG_HDR_SIZE, da, srcOff, db)
    requires SameSpan(m1, m2, dstPg, 0, db) && SameSpan(m1, m2, srcPg, srcOff + HDR_SIZE, PAGE_SIZE)
    requires var v := CompactVisit(m1, srcPg, srcOff, db, skipId);
      !v.EndOfPage? && (v.Pass? ==> db' == db)
      && (v.Move? ==>
            db' == db + ItemSize(HdrAt(m1, srcPg, srcOff).len)
            && ItemCopied(m1, m2, srcPg, srcOff, dstPg, db, HdrAt(m1, srcPg, srcOff), true))
    ensures CompactVisit(m1, srcPg, srcOff, db, skipId) == CompactVisit(m0, srcPg, srcOff, db, skipId)
    ensures var v := CompactVisit(m0, srcPg, srcOff, db, skipId);
      !v.EndOfPage? && srcOff < v.next
      && SameSpan(m0, m2, srcPg, v.next, PAGE_SIZE) && SameSpan(m0, m2, dstPg, 0, da)
      && CompactRun(m0, m2, srcPg, dstPg, skipId, PG_HDR_SIZE, da, v.next, db')
  {
    VisitSpan(m0, m1, srcPg, srcOff, db, skipId);
    var v := CompactVisit(m0, srcPg, srcOff, db, skipId);
    SpanSub(m1, m2, dstPg, 0, db, da, db);
    RunFrame(m0, m1, m2, srcPg, dstPg, skipId, PG_HDR_SIZE, da, srcOff, db);
    if v.Move? {
      CopiedSource(m0, m1, m2, srcPg, srcOff, dstPg, db, true);
    }
    SpanHdr(m0, m1, srcPg, srcOff, PAGE_SIZE, srcOff);
    assert db' == if v.Move? then db + ItemSize(HdrAt(m0, srcPg, srcOff).len) else db;
    RunExtend(m0, m2, srcPg, dstPg, skipId, PG_HDR_SIZE, da, srcOff, db);
    SpanTrans(m0, m1, m2, srcPg, srcOff, PAGE_SIZE, srcOff + HDR_SIZE, PAGE_SIZE, v.next, PAGE_SIZE);
    SpanTrans(m0, m1, m2, dstPg, 0, da, 0, db, 0, da);
  }

  /** Equal pages past their page headers agree on every span there. */
  lemma SliceSpan(m: seq<byte>, m': seq<byte>, pg: nat, lo: nat, hi: nat)
    requires |m| == NV_SIZE && |m'| == NV_SIZE && pg < PAGES_USED && PG_HDR_SIZE <= lo && hi <= PAGE_SIZE
    requires PageImage(m', pg)[PG_HDR_SIZE..] == PageImage(m, pg)[PG_HDR_SIZE..]
    ensures SameSpan(m, m', pg, lo, hi)
  {
    forall k | lo <= k < hi
      ensures PageImage(m', pg)[k] == PageImage(m, pg)[k]
    {
      assert PageImage(m', pg)[k] == PageImage(m', pg)[PG_HDR_SIZE..][k - PG_HDR_SIZE];
      assert PageImage(m, pg)[k] == PageImage(m, pg)[PG_HDR_SIZE..][k - PG_HDR_SIZE];
    }
  }

  /** The loop of initPage in lookup mode (an id is given): walks the headers of page `pg`
      from the first one and stops at a live copy of the item, at an erased id, at a
      length that runs past the page (losing the rest of it) or where no header fits. The
      data size is taken in full, not truncated to uint16. */
  method WalkPage(mem: array<byte>, pg: nat, id: u16) returns (r: Scan)
    requires mem.Length == NV_SIZE && pg < PAGES_USED && id != ITEM_NULL
    ensures r == Walk(mem[..], pg, id, PG_HDR_SIZE, 0)
  {
    ghost var m := mem[..];
    var offset: nat := PG_HDR_SIZE;
    var lost: nat := 0;
    while offset < PAGE_SIZE - HDR_SIZE
      invariant offset <= PAGE_SIZE
      invariant Walk(m, pg, id, offset, lost) == Walk(m, pg, id, PG_HDR_SIZE, 0)
      decreases PAGE_SIZE - offset
    {
      ghost var st := WalkStep(m, pg, id, offset, lost);
      var h := ReadHdr(mem, pg, offset);
      HdrAtFields(m, pg, offset);
      if h.id == ERASED_ID {
        assert st == Stop(Ended(offset, lost));
        return Ended(offset, lost);
      }
      var sz := DataSize(h.len);
      if sz > PAGE_SIZE - HDR_SIZE - offset {
        assert st == Stop(Ended(PAGE_SIZE, lost + (PAGE_SIZE - offset)));
        return Ended(PAGE_SIZE, lost + (PAGE_SIZE - offset));
      }
      if h.live != ZEROED_ID && Matches(id, h.id, h.stat) {
        assert Hit(m, pg, id, offset);
        return Found(offset + HDR_SIZE);
      }
      assert !Hit(m, pg, id, offset);
      if h.live == ZEROED_ID {
        lost := lost + HDR_SIZE + sz;
      }
      offset := offset + HDR_SIZE + sz;
      assert st == Next(offset, lost);
    }
    r := Ended(offset, lost);
  }
  /** The loop of findItem: initPage in lookup mode on every page in order, from cursors
      `so` and lost counts `sl`, stopping at the first page holding a live copy of `id`;
      each page walked to its end without one has its cursor and lost count set from
      that walk. */
  method LookupAll(mem: array<byte>, id: u16, so: seq<u16>, sl: seq<u16>)
    returns (off: u16, findPg: nat, o: seq<u16>, l: seq<u16>)
    requires mem.Length == NV_SIZE && id != ITEM_NULL && |so| == PAGES_USED && |sl| == PAGES_USED
    ensures match FindOn(mem[..], id, 0)
      case Some(loc) => findPg == loc.0 && off as nat == loc.1 && off != 0
      case None => off == 0
    ensures o == Remeasured(mem[..], so, Reach(mem[..], id), false)
    ensures l == Remeasured(mem[..], sl, Reach(mem[..], id), true)
  {
    ghost var m := mem[..];
    o, l := so, sl;
    var pg := 0;
    while pg < PAGES_USED
      invariant pg <= PAGES_USED
      invariant FindOn(m, id, 0) == FindOn(m, id, pg)
      invariant o == Remeasured(m, so, pg, false) && l == Remeasured(m, sl, pg, true)
    {
      var r := WalkPage(mem, pg, id);
      if r.Found? {
        FindOnHit(m, id, pg, r.dataOff);
        off, findPg := r.dataOff as u16, pg;
        return;
      }
      FindOnMiss(m, id, pg);
      RemeasuredStep(m, so, pg, false);
      RemeasuredStep(m, sl, pg, true);
      o, l := o[pg := r.off as u16], l[pg := r.lost as u16];
      pg := pg + 1;
    }
    off, findPg := 0, PAGE_NULL;
  }


  /** The page cursors (or lost counts, with `lost`) after the pages before `n` have been
      walked to their end in `m`: their measure there, the rest as in `s0`. */
  function Remeasured(m: seq<byte>, s0: seq<u16>, n: nat, lost: bool): (r: seq<u16>)
    requires |m| == NV_SIZE && |s0| == PAGES_USED && n <= PAGES_USED
    ensures |r| == PAGES_USED
    ensures forall p :: 0 <= p < PAGES_USED ==>
      r[p] == if p >= n then s0[p] else if lost then Extent(m, p).lost else Extent(m, p).off
  {
    seq(PAGES_USED, p requires 0 <= p < PAGES_USED =>
      if p >= n then s0[p] else if lost then Extent(m, p).lost as u16 else Extent(m, p).off as u16)
  }

  /** Walking page `n` next extends the remeasured prefix by one page. */
  lemma RemeasuredStep(m: seq<byte>, s0: seq<u16>, n: nat, lost: bool)
    requires |m| == NV_SIZE && |s0| == PAGES_USED && n < PAGES_USED
    ensures Remeasured(m, s0, n + 1, lost) == Remeasured(m, s0, n, lost)[n :=
      if lost then Extent(m, n).lost as u16 else Extent(m, n).off as u16]
  {
  }

  /** Remeasuring pages already remeasured changes nothing. */
  lemma RemeasuredAgain(m: seq<byte>, s0: seq<u16>, n: nat, k: nat, lost: bool)
    requires |m| == NV_SIZE && |s0| == PAGES_USED && k <= n <= PAGES_USED
    ensures Remeasured(m, Remeasured(m, s0, n, lost), k, lost) == Remeasured(m, s0, n, lost)
  {
  }

  /** A lookup that reaches page `pg` and finds the item there has found the first page
      holding it. */
  lemma FindOnHit(m: seq<byte>, id: u16, pg: nat, d: nat)
    requires |m| == NV_SIZE && id != ITEM_NULL && pg < PAGES_USED
    requires FindOn(m, id, 0) == FindOn(m, id, pg) && Walk(m, pg, id, PG_HDR_SIZE, 0) == Found(d)
    ensures FindOn(m, id, 0) == Some((pg, d)) && Reach(m, id) == pg
  {
  }

  /** A lookup that walks page `pg` to its end goes on with the next page. */
  lemma FindOnMiss(m: seq<byte>, id: u16, pg: nat)
    requires |m| == NV_SIZE && id != ITEM_NULL && pg < PAGES_USED
    requires FindOn(m, id, 0) == FindOn(m, id, pg) && Walk(m, pg, id, PG_HDR_SIZE, 0).Ended?
    ensures FindOn(m, id, 0) == FindOn(m, id, pg + 1)
    ensures Walk(m, pg, id, PG_HDR_SIZE, 0) == Extent(m, pg)
  {
    WalkEndedIsExtent(m, pg, id, PG_HDR_SIZE, 0);
  }

  /** Page `p` is erased and its cursor and lost count are those of an empty page. */
  ghost predicate Blank(m: seq<byte>, off: seq<u16>, lost: seq<u16>, p: nat)
    requires |m| == NV_SIZE && |off| == PAGES_USED && |lost| == PAGES_USED && p < PAGES_USED
  {
    PageErased(m, p) && off[p] == PG_HDR_SIZE && lost[p] == 0
  }

  /** From flash `m0` with cursors `o0` and lost counts `l0` to `m1`, `o1`, `l1`: erased
      pages stay erased, valid cursors stay valid and blank pages stay blank. */
  ghost predicate DirKept(m0: seq<byte>, o0: seq<u16>, l0: seq<u16>, m1: seq<byte>, o1: seq<u16>, l1: seq<u16>)
    requires |m0| == NV_SIZE && |o0| == PAGES_USED && |l0| == PAGES_USED
    requires |m1| == NV_SIZE && |o1| == PAGES_USED && |l1| == PAGES_USED
  {
    KeepsErased(m0, m1)
    && (forall p :: 0 <= p < PAGES_USED && OffOk(o0[p]) ==> OffOk(o1[p]))
    && (forall p :: 0 <= p < PAGES_USED && Blank(m0, o0, l0, p) ==> Blank(m1, o1, l1, p))
  }

  /** setItem's accounting: zeroing an item adds its uint16 size to its page's lost
      count; clearing the stat flag loses nothing. */
  ghost predicate LostCounted(m0: seq<byte>, l0: seq<u16>, l1: seq<u16>, pg: nat, o: nat, stat: HdrStat)
    requires |m0| == NV_SIZE && |l0| == PAGES_USED && pg < PAGES_USED && o + HDR_SIZE <= PAGE_SIZE
  {
    match stat
    case Xfer => l1 == l0
    case Zero => l1 == l0[pg := ((l0[pg] as int + ItemSize16(HdrAt(m0, pg, o).len) as int) % 0x10000) as u16]
  }

  /** Clearing a flag of a header that is not erased keeps the directory: its page was not
      erased, so no blank page changes, and no other page's lost count moves. */
  lemma FlagClearedKept(m0: seq<byte>, m1: seq<byte>, o: seq<u16>, l0: seq<u16>, l1: seq<u16>,
                        pg: nat, off: nat, stat: HdrStat)
    requires |m0| == NV_SIZE && |m1| == NV_SIZE && |o| == PAGES_USED && |l0| == PAGES_USED
    requires |l1| == PAGES_USED && pg < PAGES_USED && off + HDR_SIZE <= PAGE_SIZE
    requires FlagCleared(m0, m1, pg, off, stat)
    requires forall p :: 0 <= p < PAGES_USED && p != pg ==> l1[p] == l0[p]
    ensures Field(m0, pg, off, HDR_ID) != ERASED_ID ==> DirKept(m0, o, l0, m1, o, l1)
  {
    if Field(m0, pg, off, HDR_ID) != ERASED_ID {
      ErasedPageHdr(m0, pg, off);
      forall p | 0 <= p < PAGES_USED && Blank(m0, o, l0, p)
        ensures Blank(m1, o, l1, p)
      {
        assert p != pg;
      }
    }
  }

  /** From `m0` to `m1` no page header changed: every page keeps its active and xfer flags. */
  ghost predicate PgHdrsKept(m0: seq<byte>, m1: seq<byte>)
    requires |m0| == NV_SIZE && |m1| == NV_SIZE
  {
    forall p :: 0 <= p < PAGES_USED ==> PgHdrAt(m1, p) == PgHdrAt(m0, p)
  }

  /** A page whose header bytes are kept keeps its page header. */
  lemma SpanPgHdr(m0: seq<byte>, m1: seq<byte>, p: nat)
    requires |m0| == NV_SIZE && |m1| == NV_SIZE && p < PAGES_USED
    requires SameSpan(m0, m1, p, 0, PG_HDR_SIZE)
    ensures PgHdrAt(m1, p) == PgHdrAt(m0, p)
  {
    PageBaseBound(p);
    assert m1[PageBase(p)..PageBase(p) + PG_HDR_SIZE] == PageImage(m1, p)[..PG_HDR_SIZE];
    assert m0[PageBase(p)..PageBase(p) + PG_HDR_SIZE] == PageImage(m0, p)[..PG_HDR_SIZE];
  }

  /** A page whose bytes up to `hi`, past its header, are kept keeps its page header. */
  lemma PrefixPgHdr(m0: seq<byte>, m1: seq<byte>, p: nat, hi: nat)
    requires |m0| == NV_SIZE && |m1| == NV_SIZE && p < PAGES_USED && PG_HDR_SIZE <= hi <= PAGE_SIZE
    requires SameSpan(m0, m1, p, 0, hi)
    ensures PgHdrAt(m1, p) == PgHdrAt(m0, p)
  {
    SpanPgHdr(m0, m1, p);
  }

  /** A change confined to the items of one page keeps every page header. */
  lemma WithinPgHdrs(m0: seq<byte>, m1: seq<byte>, pg: nat, lo: nat, hi: nat)
    requires |m0| == NV_SIZE && |m1| == NV_SIZE && pg < PAGES_USED && PG_HDR_SIZE <= lo <= hi <= PAGE_SIZE
    requires Within(m0, m1, pg, lo, hi)
    ensures PgHdrsKept(m0, m1)
  {
    forall p | 0 <= p < PAGES_USED
      ensures PgHdrAt(m1, p) == PgHdrAt(m0, p)
    {
      if p == pg {
        SpanPgHdr(m0, m1, p);
      } else {
        PgHdrOfImage(m0, m1, p);
      }
    }
  }

  /** Page headers kept keep the one reserve page. */
  lemma HdrsKeptReserve(m0: seq<byte>, m1: seq<byte>, res: nat)
    requires |m0| == NV_SIZE && |m1| == NV_SIZE && PgHdrsKept(m0, m1) && OneReserve(m0, res)
    ensures OneReserve(m1, res)
  {
    forall p | 0 <= p < PAGES_USED && p != res
      ensures PgHdrAt(m1, p).active != ERASED_ID
    {
      assert PgHdrAt(m1, p) == PgHdrAt(m0, p);
    }
  }

  /** Erasing page `pg`, when there was no reserve page or `pg` was it, leaves `pg` the one
      reserve page. */
  lemma ReserveErased(m0: seq<byte>, m1: seq<byte>, res: nat, pg: nat)
    requires |m0| == NV_SIZE && |m1| == NV_SIZE && pg < PAGES_USED && (res == pg || res == PAGE_NULL)
    requires OneReserve(m0, res) && OnlyPage(m0, m1, pg)
    ensures OneReserve(m1, pg)
  {
    forall p | 0 <= p < PAGES_USED && p != pg
      ensures PgHdrAt(m1, p).active != ERASED_ID
    {
      PgHdrOfImage(m0, m1, p);
    }
  }

  /** A compaction of `src` onto the reserve page `res0` keeps one reserve page: either the
      source keeps its header and `res0` stays the reserve, or `res0` is marked in use and
      the source becomes the reserve. */
  lemma ReserveMoved(m0: seq<byte>, m1: seq<byte>, src: nat, res0: nat, res1: nat)
    requires |m0| == NV_SIZE && |m1| == NV_SIZE && src < PAGES_USED && res0 < PAGES_USED && src != res0
    requires OneReserve(m0, res0) && OnlyPages(m0, m1, src, res0)
    requires res1 == res0 ==> PgHdrAt(m1, src) == PgHdrAt(m0, src)
    requires res1 == src ==> PgHdrAt(m1, res0).active == ZEROED_ID
    requires res1 == src || res1 == res0
    ensures OneReserve(m1, res1)
  {
    forall p | 0 <= p < PAGES_USED && p != res1
      ensures PgHdrAt(m1, p).active != ERASED_ID
    {
      if p != src && p != res0 {
        PgHdrOfImage(m0, m1, p);
      }
    }
  }

  /** Clearing a flag of an item header keeps every page header. */
  lemma FlagClearedHdrs(m0: seq<byte>, m1: seq<byte>, pg: nat, o: nat, stat: HdrStat)
    requires |m0| == NV_SIZE && |m1| == NV_SIZE && pg < PAGES_USED && PG_HDR_SIZE <= o && o + HDR_SIZE <= PAGE_SIZE
    requires FlagCleared(m0, m1, pg, o, stat)
    ensures PgHdrsKept(m0, m1)
  {
    PageBaseBound(pg);
    var h := HdrAt(m0, pg, o);
    match stat
    case Xfer =>
      StoreWithin(m0, pg, o + HDR_STAT, LE16(ACTIVE) + LE16(h.pad2));
      WithinPgHdrs(m0, m1, pg, o + HDR_STAT, o + HDR_STAT + 4);
    case Zero =>
      StoreWithin(m0, pg, o + HDR_LIVE, LE16(ZEROED_ID) + LE16(h.pad3));
      WithinPgHdrs(m0, m1, pg, o + HDR_LIVE, o + HDR_LIVE + 4);
  }

  /** The recovery step over a header with an id that fits in the page, in terms of the
      header read: a zeroed or corrupt item is stepped over and lost, a good transferred
      one stops a walk without `findDups`, and any other is stepped over. */
  lemma RecoveryStep(m: seq<byte>, pg: nat, o: nat, lost: nat, h: Hdr, findDups: bool)
    requires |m| == NV_SIZE && pg < PAGES_USED && PG_HDR_SIZE <= o && o + HDR_SIZE < PAGE_SIZE
    requires h == HdrAt(m, pg, o) && h.id != ERASED_ID && o + ItemSize(h.len) <= PAGE_SIZE
    ensures var n := ItemSize(h.len);
      InitWalkStep(m, pg, o, lost, findDups)
      == if h.live == ZEROED_ID || h.chk != Chk16(ItemData(m, pg, o, h.len)) then Next(o + n, lost + n)
         else if !findDups && h.stat != ERASED_ID then Stop(Found(o + HDR_SIZE))
         else Next(o + n, lost)
  {
    PageBaseBound(pg);
    HdrAtFields(m, pg, o);
  }

  /** Zeroing a header changes nothing but that header, and both walks then step over the
      item counting it as lost. */
  lemma ZeroedStep(m0: seq<byte>, m1: seq<byte>, pg: nat, o: nat, lost: nat)
    requires |m0| == NV_SIZE && |m1| == NV_SIZE && pg < PAGES_USED && o + HDR_SIZE < PAGE_SIZE
    requires FlagCleared(m0, m1, pg, o, Zero) && Field(m0, pg, o, HDR_ID) != ERASED_ID
    requires o + ItemSize(Field(m0, pg, o, HDR_LEN)) <= PAGE_SIZE
    ensures Within(m0, m1, pg, o, o + HDR_SIZE)
    ensures var n := ItemSize(Field(m0, pg, o, HDR_LEN));
      StepOf(m1, pg, Lookup(ITEM_NULL), o, lost) == Next(o + n, lost + n)
      && StepOf(m1, pg, Recovery, o, lost) == Next(o + n, lost + n)
  {
    PageBaseBound(pg);
    var a := PageBase(pg) + o;
    var d := LE16(ZEROED_ID) + LE16(HdrAt(m0, pg, o).pad3);
    StoreWithin(m0, pg, o + HDR_LIVE, d);
    assert Within(m0, m1, pg, o, o + HDR_SIZE);
    U16AtStore(m0, a + HDR_LIVE, d, a + HDR_ID);
    U16AtStore(m0, a + HDR_LIVE, d, a + HDR_LEN);
    SpanData(m0, m1, pg, o + HDR_SIZE, PAGE_SIZE, o, Field(m0, pg, o, HDR_LEN));
  }

  lemma DirKeptTrans(m0: seq<byte>, o0: seq<u16>, l0: seq<u16>, m1: seq<byte>, o1: seq<u16>, l1: seq<u16>,
                     m2: seq<byte>, o2: seq<u16>, l2: seq<u16>)
    requires |m0| == NV_SIZE && |o0| == PAGES_USED && |l0| == PAGES_USED
    requires |m1| == NV_SIZE && |o1| == PAGES_USED && |l1| == PAGES_USED
    requires |m2| == NV_SIZE && |o2| == PAGES_USED && |l2| == PAGES_USED
    requires DirKept(m0, o0, l0, m1, o1, l1) && DirKept(m1, o1, l1, m2, o2, l2)
    ensures DirKept(m0, o0, l0, m2, o2, l2)
  {
  }

  /** Setting one page's cursor to a valid one, and to the start of an empty page when the
      page was erased at the start, keeps the directory. */
  lemma DirKeptSet(m0: seq<byte>, o0: seq<u16>, l0: seq<u16>, m: seq<byte>, o: seq<u16>, l: seq<u16>,
                   pg: nat, off: u16, lost: u16)
    requires |m0| == NV_SIZE && |o0| == PAGES_USED && |l0| == PAGES_USED
    requires |m| == NV_SIZE && |o| == PAGES_USED && |l| == PAGES_USED && pg < PAGES_USED
    requires DirKept(m0, o0, l0, m, o, l) && OffOk(off)
    requires PageErased(m0, pg) ==> off == PG_HDR_SIZE && lost == 0
    ensures DirKept(m0, o0, l0, m, o[pg := off], l[pg := lost])
  {
  }

  /** Remeasuring pages keeps the directory: a measured cursor is a valid one, and an
      erased page measures as an empty one. */
  lemma RemeasuredKeeps(m: seq<byte>, o0: seq<u16>, l0: seq<u16>, n: nat)
    requires |m| == NV_SIZE && |o0| == PAGES_USED && |l0| == PAGES_USED && n <= PAGES_USED
    ensures DirKept(m, o0, l0, m, Remeasured(m, o0, n, false), Remeasured(m, l0, n, true))
  {
    forall p | 0 <= p < n && PageErased(m, p)
      ensures Extent(m, p) == Ended(PG_HDR_SIZE, 0)
    {
      ErasedPageEmpty(m, p, ITEM_NULL);
    }
  }

  /** An item (id, len) in place with its header at (pg, o): the id and length, and when
      written with `flag` a checksum that matches the data and, from a buffer, the buffer's
      data image. */
  ghost predicate Landed(m: seq<byte>, pg: nat, o: nat, id: u16, len: u16, buf: Option<seq<byte>>, flag: bool)
    requires |m| == NV_SIZE && pg < PAGES_USED && o + ItemSize(len) <= PAGE_SIZE
    requires buf.Some? ==> len <= |buf.value|
  {
    PageBaseBound(pg);
    Field(m, pg, o, HDR_ID) == id && Field(m, pg, o, HDR_LEN) == len
    && (flag ==> Field(m, pg, o, HDR_CHK) == Chk16(ItemData(m, pg, o, len)))
    && (flag && buf.Some? ==> ItemData(m, pg, o, len) == DataImage(len, buf))
  }

  /** The item initItem reports on page `rtrn`, if any, ends at that page's cursor. */
  ghost predicate LandedAt(m: seq<byte>, off: seq<u16>, rtrn: nat, id: u16, len: u16, buf: Option<seq<byte>>, flag: bool)
    requires |m| == NV_SIZE && DirOk(off) && (buf.Some? ==> len <= |buf.value|)
  {
    rtrn < PAGES_USED ==> (PG_HDR_SIZE + ItemSize(len) <= off[rtrn]
      && Landed(m, rtrn, off[rtrn] - ItemSize(len), id, len, buf, flag))
  }

  /** A successful writeItem at (pg, o) that moved the cursor to `off[pg]` leaves the item
      in place before the cursor. */
  lemma WrittenLandedAt(m0: seq<byte>, m1: seq<byte>, off: seq<u16>, pg: nat, o: nat, id: u16, len: u16,
                        buf: Option<seq<byte>>, flag: bool, ok: bool)
    requires |m0| == NV_SIZE && |m1| == NV_SIZE && DirOk(off) && pg < PAGES_USED
    requires PG_HDR_SIZE <= o && off[pg] == o + ItemSize(len)
    requires buf.Some? ==> len <= |buf.value|
    requires ItemWritten(m0, m1, pg, o, id, len, buf, flag, ok) && ok
    ensures LandedAt(m1, off, pg, id, len, buf, flag)
  {
  }

  /** An item stays in place while the page's bytes past its page header do. */
  lemma LandedFrame(m1: seq<byte>, m2: seq<byte>, pg: nat, o: nat, id: u16, len: u16,
                    buf: Option<seq<byte>>, flag: bool)
    requires |m1| == NV_SIZE && |m2| == NV_SIZE && pg < PAGES_USED
    requires PG_HDR_SIZE <= o && o + ItemSize(len) <= PAGE_SIZE
    requires buf.Some? ==> len <= |buf.value|
    requires PageImage(m1, pg)[PG_HDR_SIZE..] == PageImage(m2, pg)[PG_HDR_SIZE..]
    requires Landed(m1, pg, o, id, len, buf, flag)
    ensures Landed(m2, pg, o, id, len, buf, flag)
  {
    PageBaseBound(pg);
    ItemSizeLayout(len);
    var b := PageBase(pg);
    forall k | b + o <= k < b + o + ItemSize(len)
      ensures m1[k] == m2[k]
    {
      assert m1[k] == PageImage(m1, pg)[PG_HDR_SIZE..][k - b - PG_HDR_SIZE];
      assert m2[k] == PageImage(m2, pg)[PG_HDR_SIZE..][k - b - PG_HDR_SIZE];
    }
    assert ItemData(m1, pg, o, len) == ItemData(m2, pg, o, len);
  }

  /** The item before the cursor of page `r` stays in place while the page's bytes past its
      page header and its cursor do. */
  lemma LandedAtFrame(m1: seq<byte>, m2: seq<byte>, o1: seq<u16>, o2: seq<u16>, r: nat, id: u16, len: u16,
                      buf: Option<seq<byte>>, flag: bool)
    requires |m1| == NV_SIZE && |m2| == NV_SIZE && DirOk(o1) && DirOk(o2)
    requires buf.Some? ==> len <= |buf.value|
    requires r < PAGES_USED ==> o2[r] == o1[r] && PageImage(m1, r)[PG_HDR_SIZE..] == PageImage(m2, r)[PG_HDR_SIZE..]
    requires LandedAt(m1, o1, r, id, len, buf, flag)
    ensures LandedAt(m2, o2, r, id, len, buf, flag)
  {
    if r < PAGES_USED {
      LandedFrame(m1, m2, r, o1[r] - ItemSize(len), id, len, buf, flag);
    }
  }

  // ---------------------------------------------------------------- initItem's page search

  /** The page initItem looks at first: the one after the reserve page, or page 0 after the
      last page or when there is no reserve page. */
  function WearStart(pgRes: nat): (s: nat)
    ensures s < PAGES_USED
  {
    if pgRes + 1 < PAGES_USED then pgRes + 1 else 0
  }

  /** The `k`-th page initItem looks at: from the start page on, wrapping round, so that
      wear is spread over the pages. */
  function WearPage(pgRes: nat, k: nat): (p: nat)
    requires k < PAGES_USED
    ensures p < PAGES_USED
  {
    if WearStart(pgRes) + k < PAGES_USED then WearStart(pgRes) + k else WearStart(pgRes) + k - PAGES_USED
  }

  /** How far into initItem's order page `p` comes: each page comes exactly once. */
  function WearRank(pgRes: nat, p: nat): (k: nat)
    requires p < PAGES_USED
    ensures k < PAGES_USED && WearPage(pgRes, k) == p
    ensures forall j :: 0 <= j < PAGES_USED && WearPage(pgRes, j) == p ==> j == k
  {
    if WearStart(pgRes) <= p then p - WearStart(pgRes) else p + PAGES_USED - WearStart(pgRes)
  }

  /** initItem's fit test: an item of `sz` bytes fits on a page when it fits in the page's
      free space together with its lost space, which a compaction would reclaim. */
  predicate RoomFor(pgOff: seq<u16>, pgLost: seq<u16>, p: nat, sz: nat)
    requires |pgOff| == PAGES_USED && |pgLost| == PAGES_USED && p < PAGES_USED
  {
    sz <= PAGE_SIZE - pgOff[p] + pgLost[p]
  }

  /** A page initItem may pick: not the reserve page, and with room. */
  predicate Candidate(pgOff: seq<u16>, pgLost: seq<u16>, pgRes: nat, p: nat, sz: nat)
    requires |pgOff| == PAGES_USED && |pgLost| == PAGES_USED && p < PAGES_USED
  {
    p != pgRes && RoomFor(pgOff, pgLost, p, sz)
  }

  /** The first candidate page from the `k`-th on, in initItem's order. */
  function FirstFit(pgOff: seq<u16>, pgLost: seq<u16>, pgRes: nat, sz: nat, k: nat): (r: Option<nat>)
    requires |pgOff| == PAGES_USED && |pgLost| == PAGES_USED && k <= PAGES_USED
    ensures r.Some? ==> r.value < PAGES_USED
    decreases PAGES_USED - k
  {
    if k == PAGES_USED then None
    else if Candidate(pgOff, pgLost, pgRes, WearPage(pgRes, k), sz) then Some(WearPage(pgRes, k))
    else FirstFit(pgOff, pgLost, pgRes, sz, k + 1)
  }

  /** The page found is a candidate, and every page before it in the order, from the `k`-th
      on, is not. */
  lemma {:induction false} FirstFitSound(pgOff: seq<u16>, pgLost: seq<u16>, pgRes: nat, sz: nat, k: nat)
    requires |pgOff| == PAGES_USED && |pgLost| == PAGES_USED && k <= PAGES_USED
    requires FirstFit(pgOff, pgLost, pgRes, sz, k).Some?
    ensures var p := FirstFit(pgOff, pgLost, pgRes, sz, k).value;
      p < PAGES_USED && Candidate(pgOff, pgLost, pgRes, p, sz) && k <= WearRank(pgRes, p)
      && forall j :: k <= j < WearRank(pgRes, p) ==> !Candidate(pgOff, pgLost, pgRes, WearPage(pgRes, j), sz)
    decreases PAGES_USED - k
  {
    if !Candidate(pgOff, pgLost, pgRes, WearPage(pgRes, k), sz) {
      FirstFitSound(pgOff, pgLost, pgRes, sz, k + 1);
    }
  }

  /** No page found from the `k`-th on: none of those pages is a candidate. */
  lemma {:induction false} FirstFitNone(pgOff: seq<u16>, pgLost: seq<u16>, pgRes: nat, sz: nat, k: nat)
    requires |pgOff| == PAGES_USED && |pgLost| == PAGES_USED && k <= PAGES_USED
    requires FirstFit(pgOff, pgLost, pgRes, sz, k).None?
    ensures forall j :: k <= j < PAGES_USED ==> !Candidate(pgOff, pgLost, pgRes, WearPage(pgRes, j), sz)
    decreases PAGES_USED - k
  {
    if k < PAGES_USED {
      FirstFitNone(pgOff, pgLost, pgRes, sz, k + 1);
    }
  }

  /** The search finds nothing exactly when no page is a candidate. */
  lemma FirstFitNoneExactly(pgOff: seq<u16>, pgLost: seq<u16>, pgRes: nat, sz: nat)
    requires |pgOff| == PAGES_USED && |pgLost| == PAGES_USED
    ensures FirstFit(pgOff, pgLost, pgRes, sz, 0).None? <==>
      forall p :: 0 <= p < PAGES_USED ==> !Candidate(pgOff, pgLost, pgRes, p, sz)
  {
    if FirstFit(pgOff, pgLost, pgRes, sz, 0).None? {
      FirstFitNone(pgOff, pgLost, pgRes, sz, 0);
      forall p | 0 <= p < PAGES_USED
        ensures !Candidate(pgOff, pgLost, pgRes, p, sz)
      {
        assert WearPage(pgRes, WearRank(pgRes, p)) == p;
      }
    } else {
      FirstFitSound(pgOff, pgLost, pgRes, sz, 0);
    }
  }

  /** What initItem leaves, from flash `m0`, cursors `o0`, lost counts `l0` and reserve
      page `res0` to `m1`, `o1`, `l1`, `res1`, for an item (id, len): with no page where the
      item fits in free plus lost space, nothing changes and both results are PAGE_NULL. On
      the first such page, when the item fits in its free space, only that page's bytes
      from its cursor to past the item change, its cursor moves past the item and the result
      is that page or PAGE_NULL. Otherwise the page was compacted onto the reserve page:
      only those two pages and their directory entries change, and the result is the old
      reserve page or PAGE_NULL. Either the compaction failed: there is no result and no
      page handed back, the reserve page stays the erased reserve and the chosen page stays
      marked as in transfer. Or it went through: the old reserve page holds the items the
      walk moved from its old cursor on, and the item, if it went there, right after them;
      with `flag` the old reserve page is marked in use and the chosen page is the new,
      erased reserve page, and without it the chosen page is handed back for cleanup. */
  ghost predicate InitItemDone(m0: seq<byte>, o0: seq<u16>, l0: seq<u16>, res0: nat,
                               m1: seq<byte>, o1: seq<u16>, l1: seq<u16>, res1: nat,
                               flag: bool, id: u16, len: u16, rtrn: nat, comPg: nat)
    requires |m0| == NV_SIZE && |m1| == NV_SIZE && res0 < PAGES_USED
    requires |o0| == PAGES_USED && |l0| == PAGES_USED && |o1| == PAGES_USED && |l1| == PAGES_USED
  {
    var f := FirstFit(o0, l0, res0, ItemSize(len), 0);
    && (f.None? ==> rtrn == PAGE_NULL && comPg == PAGE_NULL && m1 == m0 && o1 == o0 && l1 == l0 && res1 == res0)
    && (f.Some? && o0[f.value] + ItemSize(len) <= PAGE_SIZE ==>
          (rtrn == f.value || rtrn == PAGE_NULL) && comPg == PAGE_NULL && res1 == res0
          && o1 == o0[f.value := o0[f.value] + ItemSize(len)] && l1 == l0
          && Within(m0, m1, f.value, o0[f.value], o0[f.value] + ItemSize(len)))
    && (f.Some? && o0[f.value] + ItemSize(len) > PAGE_SIZE ==>
          (rtrn == PAGE_NULL || rtrn == res0) && (comPg == PAGE_NULL || comPg == f.value)
          && OnlyPages(m0, m1, f.value, res0)
          && (forall p :: 0 <= p < PAGES_USED && p != f.value && p != res0 ==> o1[p] == o0[p] && l1[p] == l0[p])
          && ((rtrn == PAGE_NULL && comPg == PAGE_NULL && res1 == res0 && Blank(m1, o1, l1, res0)
               && PgHdrAt(m1, f.value).xfer == ZEROED_ID)
              || ((exists e: nat :: Compacted(m0, m1, f.value, res0, id, PG_HDR_SIZE, o0[res0], e)
                                 && (rtrn != PAGE_NULL ==> o1[res0] == e + ItemSize(len)))
                  && (flag ==> comPg == PAGE_NULL && res1 == f.value && Blank(m1, o1, l1, f.value)
                               && PgHdrAt(m1, res0).active == ZEROED_ID)
                  && (!flag ==> comPg == f.value && res1 == res0))))
  }

  lemma InitItemNone(m: seq<byte>, o: seq<u16>, l: seq<u16>, res: nat, flag: bool, id: u16, len: u16)
    requires |m| == NV_SIZE && res < PAGES_USED && |o| == PAGES_USED && |l| == PAGES_USED
    requires FirstFit(o, l, res, ItemSize(len), 0).None?
    ensures InitItemDone(m, o, l, res, m, o, l, res, flag, id, len, PAGE_NULL, PAGE_NULL)
  {
  }

  lemma InitItemDirect(m0: seq<byte>, o0: seq<u16>, l0: seq<u16>, res: nat, m1: seq<byte>, pg: nat,
                       flag: bool, id: u16, len: u16, rtrn: nat)
    requires |m0| == NV_SIZE && |m1| == NV_SIZE && res < PAGES_USED && |o0| == PAGES_USED && |l0| == PAGES_USED
    requires FirstFit(o0, l0, res, ItemSize(len), 0) == Some(pg) && o0[pg] + ItemSize(len) <= PAGE_SIZE
    requires rtrn == pg || rtrn == PAGE_NULL
    requires Within(m0, m1, pg, o0[pg], o0[pg] + ItemSize(len))
    ensures InitItemDone(m0, o0, l0, res, m1, o0[pg := o0[pg] + ItemSize(len)], l0, res, flag, id, len, rtrn, PAGE_NULL)
  {
  }

  lemma InitItemCompacted(m0: seq<byte>, o0: seq<u16>, l0: seq<u16>, res0: nat,
                          m1: seq<byte>, o1: seq<u16>, l1: seq<u16>, res1: nat, pg: nat,
                          flag: bool, id: u16, len: u16, rtrn: nat, comPg: nat, ok: bool, end: nat)
    requires |m0| == NV_SIZE && |m1| == NV_SIZE && res0 < PAGES_USED
    requires |o0| == PAGES_USED && |l0| == PAGES_USED && |o1| == PAGES_USED && |l1| == PAGES_USED
    requires FirstFit(o0, l0, res0, ItemSize(len), 0) == Some(pg) && o0[pg] + ItemSize(len) > PAGE_SIZE
    requires (rtrn == PAGE_NULL || rtrn == res0) && (comPg == PAGE_NULL || comPg == pg)
    requires OnlyPages(m0, m1, pg, res0)
    requires forall p :: 0 <= p < PAGES_USED && p != pg && p != res0 ==> o1[p] == o0[p] && l1[p] == l0[p]
    requires !ok ==> (rtrn == PAGE_NULL && comPg == PAGE_NULL && res1 == res0 && Blank(m1, o1, l1, res0)
      && PgHdrAt(m1, pg).xfer == ZEROED_ID)
    requires ok && flag ==> (comPg == PAGE_NULL && res1 == pg && Blank(m1, o1, l1, pg)
      && PgHdrAt(m1, res0).active == ZEROED_ID)
    requires ok && !flag ==> comPg == pg && res1 == res0
    requires ok ==> Compacted(m0, m1, pg, res0, id, PG_HDR_SIZE, o0[res0], end)
    requires rtrn != PAGE_NULL ==> o1[res0] == end + ItemSize(len)
    ensures InitItemDone(m0, o0, l0, res0, m1, o1, l1, res1, flag, id, len, rtrn, comPg)
  {
  }

  /** The do-while loop of initItem over the pages, counting down `cnt`: the first page in
      wear order, other than the reserve page, where an item of `sz` bytes fits. */
  method FindRoom(pgOff: seq<u16>, pgLost: seq<u16>, pgRes: nat, sz: nat) returns (pg: nat, found: bool)
    requires |pgOff| == PAGES_USED && |pgLost| == PAGES_USED && pgRes <= PAGE_NULL
    ensures found <==> FirstFit(pgOff, pgLost, pgRes, sz, 0).Some?
    ensures found ==> FirstFit(pgOff, pgLost, pgRes, sz, 0) == Some(pg)
  {
    var cnt: nat := PAGES_USED;
    pg := pgRes + 1;
    while true
      invariant 0 < cnt <= PAGES_USED && pg <= PAGES_USED + 1
      invariant (if pg >= PAGES_USED then 0 else pg) == WearPage(pgRes, PAGES_USED - cnt)
      invariant FirstFit(pgOff, pgLost, pgRes, sz, 0) == FirstFit(pgOff, pgLost, pgRes, sz, PAGES_USED - cnt)
      decreases cnt
    {
      if pg >= PAGES_USED {
        pg := 0;
      }
      if pg != pgRes && sz <= PAGE_SIZE - pgOff[pg] + pgLost[pg] {
        break;
      }
      pg := pg + 1;
      if cnt == 1 {
        cnt := 0;
        break;
      }
      cnt := cnt - 1;
    }
    found := cnt != 0;
  }

  // ---------------------------------------------------------------- the API's bookkeeping

  /** A directory kept from a ready one is ready again, with the same reserve page. */
  lemma ReadyKept(m0: seq<byte>, o0: seq<u16>, l0: seq<u16>, m1: seq<byte>, o1: seq<u16>, l1: seq<u16>, res: nat)
    requires |m0| == NV_SIZE && |o0| == PAGES_USED && |l0| == PAGES_USED
    requires |m1| == NV_SIZE && |o1| == PAGES_USED && |l1| == PAGES_USED && res < PAGES_USED
    requires DirOk(o0) && Blank(m0, o0, l0, res) && DirKept(m0, o0, l0, m1, o1, l1)
    ensures DirOk(o1) && Blank(m1, o1, l1, res)
  {
  }

  /** findItem never points into the reserve page: an erased page holds no item. */
  lemma FindNotBlank(m: seq<byte>, o: seq<u16>, l: seq<u16>, res: nat, id: u16)
    requires |m| == NV_SIZE && |o| == PAGES_USED && |l| == PAGES_USED && res < PAGES_USED
    requires id != ITEM_NULL && Blank(m, o, l, res)
    ensures Find(m, id).Some? ==> Find(m, id).value.0 != res
  {
    ErasedPageEmpty(m, res, id);
    ErasedPageEmpty(m, res, SourceOf(id));
  }

  /** A blank page stays blank while only two other pages change and its counters stay. */
  lemma BlankElsewhere(m0: seq<byte>, o0: seq<u16>, l0: seq<u16>, m1: seq<byte>, o1: seq<u16>,
                       l1: seq<u16>, a: nat, b: nat, res: nat)
    requires |m0| == NV_SIZE && |o0| == PAGES_USED && |l0| == PAGES_USED
    requires |m1| == NV_SIZE && |o1| == PAGES_USED && |l1| == PAGES_USED && res < PAGES_USED
    requires res != a && res != b && OnlyPages(m0, m1, a, b)
    requires Blank(m0, o0, l0, res) && o1[res] == o0[res] && l1[res] == l0[res]
    ensures Blank(m1, o1, l1, res)
  {
  }

  /** A change to page `a` followed by one to page `b` touches only those two pages. */
  lemma OnlyPagesOfTwo(m0: seq<byte>, m1: seq<byte>, m2: seq<byte>, a: nat, b: nat)
    requires |m0| == NV_SIZE && |m1| == NV_SIZE && |m2| == NV_SIZE
    requires OnlyPage(m0, m1, a) && OnlyPage(m1, m2, b)
    ensures OnlyPages(m0, m2, a, b)
  {
  }

  /** Marking page `a` active and then changing page `b` alone leaves `a` marked active
      with its items as they were, and touches no page but those two. */
  lemma ActivateThenErase(m0: seq<byte>, m1: seq<byte>, m2: seq<byte>, a: nat, b: nat)
    requires |m0| == NV_SIZE && |m1| == NV_SIZE && |m2| == NV_SIZE && a < PAGES_USED && a != b
    requires OnlyPage(m0, m1, a) && OnlyPage(m1, m2, b)
    requires PgHdrAt(m1, a).active == ZEROED_ID
    requires PageImage(m1, a)[PG_HDR_SIZE..] == PageImage(m0, a)[PG_HDR_SIZE..]
    ensures PgHdrAt(m2, a).active == ZEROED_ID && OnlyPages(m0, m2, a, b)
    ensures PageImage(m2, a)[PG_HDR_SIZE..] == PageImage(m0, a)[PG_HDR_SIZE..]
  {
    assert PageImage(m2, a) == PageImage(m1, a);
    PgHdrOfImage(m2, m1, a);
  }

  /** Clearing the stat flag of the header just before the data offset `d` leaves the
      data from `d` on as it was. */
  lemma XferKeepsData(m0: seq<byte>, m1: seq<byte>, pg: nat, d: nat, n: nat)
    requires |m0| == NV_SIZE && |m1| == NV_SIZE && pg < PAGES_USED
    requires HDR_SIZE <= d && d + n <= PAGE_SIZE
    requires FlagCleared(m0, m1, pg, d - HDR_SIZE, Xfer)
    ensures m1[PageBase(pg) + d..PageBase(pg) + d + n] == m0[PageBase(pg) + d..PageBase(pg) + d + n]
  {
    PageBaseBound(pg);
    var h := HdrAt(m0, pg, d - HDR_SIZE);
    OverwriteElsewhere(m0, PageBase(pg) + (d - HDR_SIZE) + HDR_STAT, LE16(ACTIVE) + LE16(h.pad2),
                       PageBase(pg) + d, PageBase(pg) + d + n);
  }

  /** The data of the item whose data starts at `d`. */
  lemma ItemDataAt(m: seq<byte>, pg: nat, d: nat, len: nat)
    requires |m| == NV_SIZE && pg < PAGES_USED && HDR_SIZE <= d && d + DataSize(len) <= PAGE_SIZE
    ensures ItemData(m, pg, d - HDR_SIZE, len) == m[PageBase(pg) + d..PageBase(pg) + d + DataSize(len)]
  {
  }

  /** The item of `len` bytes whose data starts at `d` is as writeItem leaves it: its
      padding is erased and `chk` is the checksum of its data and padding. */
  ghost predicate Intact(m: seq<byte>, pg: nat, d: nat, len: nat, chk: u16)
    requires |m| == NV_SIZE && pg < PAGES_USED && d + DataSize(len) <= PAGE_SIZE
  {
    PageBaseBound(pg);
    m[PageBase(pg) + d..PageBase(pg) + d + DataSize(len)] == m[PageBase(pg) + d..PageBase(pg) + d + len] + Fill(PadTo(len))
    && chk == Chk16(m[PageBase(pg) + d..PageBase(pg) + d + DataSize(len)])
  }

  /** The checksum osal_nv_write predicts for an intact item of `hlen` bytes at `a`, from
      the bytes it replaces at `x` and the new ones, is the checksum of the patched copy. */
  lemma {:induction false} IntactPatched(m0: seq<byte>, a: nat, e: nat, f: nat, x: nat, y: nat, hlen: nat, ndx: nat,
                                          b: seq<byte>, chk0: u16, chk: u16)
    requires e == a + hlen && e <= f <= |m0| && x == a + ndx && y == x + |b| && ndx + |b| <= hlen
    requires m0[a..f] == m0[a..e] + Fill(PadTo(hlen)) && chk0 == Chk16(m0[a..f])
    requires chk == (chk0 - Sum(m0[x..y]) + Sum(b)) % 0x10000
    ensures Chk16(Patched(m0[a..e], ndx, b) + Fill(PadTo(hlen))) == chk
  {
    var s := m0[a..e];
    assert |s| == hlen;
    SliceOfSlice(m0, a, e, ndx, ndx + |b|, x, y);
    assert s + Fill(PadTo(|s|)) == m0[a..f];
    assert chk0 == Chk16(s + Fill(PadTo(|s|)));
    PredictedChecksum(s, ndx, b, m0[x..y], chk0, chk);
  }

  // ---------------------------------------------------------------- the hot item cache

  /** The cache entry of a hot id holds a place for it: a page and a data offset that a
      header can precede. Entries start out as page 0, offset 0 and are first filled when
      writeItem, compactPage or osal_nv_write place the item. */
  predicate CacheHit(hotPg: seq<nat>, hotOff: seq<u16>, id: u16)
    requires |hotPg| == MAX_HOT && |hotOff| == MAX_HOT
  {
    var i := HotItem(id);
    i < MAX_HOT && hotPg[i] < PAGES_USED && PG_HDR_SIZE + HDR_SIZE <= hotOff[i] <= PAGE_SIZE
  }

  /** Where osal_nv_item_len and osal_nv_read look for item `id`: the cache entry of a hot
      id when it is filled, and otherwise findItem's answer. */
  function Where(hotPg: seq<nat>, hotOff: seq<u16>, m: seq<byte>, id: u16): (r: Option<(nat, nat)>)
    requires |hotPg| == MAX_HOT && |hotOff| == MAX_HOT && |m| == NV_SIZE && id != ITEM_NULL
    ensures r.Some? ==> r.value.0 < PAGES_USED && PG_HDR_SIZE + HDR_SIZE <= r.value.1 <= PAGE_SIZE
    ensures !CacheHit(hotPg, hotOff, id) ==> r == Find(m, id)
  {
    FindSound(m, id);
    if CacheHit(hotPg, hotOff, id) then Some((hotPg[HotItem(id)], hotOff[HotItem(id)] as nat))
    else Find(m, id)
  }

  /** The length osal_nv_item_len reports: the length field of the header before the place
      `Where` gives, or 0. */
  function StoredLen(hotPg: seq<nat>, hotOff: seq<u16>, m: seq<byte>, id: u16): u16
    requires |hotPg| == MAX_HOT && |hotOff| == MAX_HOT && |m| == NV_SIZE && id != ITEM_NULL
  {
    PageBaseBound(if Where(hotPg, hotOff, m, id).Some? then Where(hotPg, hotOff, m, id).value.0 else 0);
    match Where(hotPg, hotOff, m, id)
    case Some(loc) => Field(m, loc.0, loc.1 - HDR_SIZE, HDR_LEN)
    case None => 0
  }

  /** The address of the header osal_nv_item_len reads for a hot id, as written: the cached
      page and offset taken as they are, the offset less HDR_SIZE truncated to the uint16
      parameter of readHdr. */
  function HotHdrAddr(pg: nat, off: u16): (a: int)
    ensures off >= HDR_SIZE ==> a == PageBase(pg) + off - HDR_SIZE
    ensures off < HDR_SIZE ==> a == PageBase(pg) + off + 0x10000 - HDR_SIZE
  {
    PageBase(pg) + (off as int - HDR_SIZE) % 0x10000
  }

  /** As written, osal_nv_item_len on a hot id whose cache entry was never filled (the
      state osal_nv_init leaves) reads a header at offset 0xFFF0 of page 0, far past the
      NV_SIZE bytes of the NV area. */
  lemma UnfilledCacheReadsOutside()
    ensures HotHdrAddr(0, 0) == 0xFFF0 && HotHdrAddr(0, 0) + HDR_SIZE > NV_SIZE
  {
  }

  /** The first byte osal_nv_read copies for a hot id, as written: the cached page and
      offset taken as they are, plus the index into the item. */
  function HotReadAddr(pg: nat, off: u16, ndx: u16): nat
  {
    PageBase(pg) + off as nat + ndx as nat
  }

  /** As written, osal_nv_read on a hot id whose cache entry was never filled copies from
      byte `ndx` of page 0, so a read from the start of the item returns page 0's own page
      header, where the item's data was meant. */
  lemma UnfilledCacheReadsPageHeader(ndx: u16)
    ensures HotReadAddr(0, 0, ndx) == ndx as nat
    ensures ndx < PG_HDR_SIZE ==> HotReadAddr(0, 0, ndx) < PageBase(0) + PG_HDR_SIZE
  {
  }

  /** With the guard of `CacheHit`, the header read for a hot id lies inside its page,
      after the page header. */
  lemma CacheHitInside(hotPg: seq<nat>, hotOff: seq<u16>, id: u16)
    requires |hotPg| == MAX_HOT && |hotOff| == MAX_HOT && CacheHit(hotPg, hotOff, id)
    ensures var pg, off := hotPg[HotItem(id)], hotOff[HotItem(id)];
      PageBase(pg) + PG_HDR_SIZE <= HotHdrAddr(pg, off)
      && HotHdrAddr(pg, off) + HDR_SIZE <= PageBase(pg) + PAGE_SIZE
      && PageBase(pg) + PAGE_SIZE <= NV_SIZE
  {
    PageBaseBound(hotPg[HotItem(id)]);
  }

  // ---------------------------------------------------------------- what the API calls leave

  /** osal_nv_item_init for an id that is not hot, from flash `m0` to `m1` with cursors
      `off`: an item already there is left alone (Success); otherwise the item was created,
      with its checksum and any initial data, on page `at` (ItemUninit), or could not be
      (OperFailed). */
  ghost predicate ItemInitDone(m0: seq<byte>, m1: seq<byte>, off: seq<u16>, id: u16, len: u16,
                               buf: Option<seq<byte>>, st: Status, at: nat)
    requires |m0| == NV_SIZE && |m1| == NV_SIZE && DirOk(off) && id != ITEM_NULL
    requires buf.Some? ==> len <= |buf.value|
  {
    match Find(m0, id)
    case Some(_) => st == Success && m1 == m0
    case None =>
      (st == ItemUninit || st == OperFailed) && (st == ItemUninit <==> at < PAGES_USED)
      && LandedAt(m1, off, at, id, len, buf, true)
  }

  /** osal_nv_write of `len` > 0 bytes of `buf` at `ndx` into item `id`, from flash `m0` to
      `m1`: a missing item gives ItemUninit and a range past the item's length OperFailed;
      bytes that already hold the buffer give Success; in all three cases flash is left as
      it was. A write that changes bytes ends in Success or OperFailed. */
  ghost predicate WriteChecked(m0: seq<byte>, m1: seq<byte>, id: u16, ndx: u16, len: u16, buf: seq<byte>, st: Status)
    requires |m0| == NV_SIZE && |m1| == NV_SIZE && id != ITEM_NULL && len <= |buf|
  {
    match Find(m0, id)
    case None => st == ItemUninit && m1 == m0
    case Some(loc) =>
      loc.0 < PAGES_USED && HDR_SIZE <= loc.1 <= PAGE_SIZE && WrittenAt(m0, m1, loc.0, loc.1, ndx, len, buf, st)
  }

  /** The copy of an item whose data started at `off` on `pg` is no longer live: its live
      flag is zeroed, or its whole page has been erased. */
  predicate Retired(m: seq<byte>, pg: nat, off: nat)
    requires |m| == NV_SIZE && pg < PAGES_USED && HDR_SIZE <= off <= PAGE_SIZE
  {
    PageErased(m, pg) || Field(m, pg, off - HDR_SIZE, HDR_LIVE) == ZEROED_ID
  }

  /** The outcomes of osal_nv_write on the item whose data starts at `off` on `pg`. */
  ghost predicate WrittenAt(m0: seq<byte>, m1: seq<byte>, pg: nat, off: nat, ndx: u16, len: u16, buf: seq<byte>,
                            st: Status)
    requires |m0| == NV_SIZE && |m1| == NV_SIZE && len <= |buf| && pg < PAGES_USED && HDR_SIZE <= off <= PAGE_SIZE
  {
    PageBaseBound(pg);
    var hl := Field(m0, pg, off - HDR_SIZE, HDR_LEN);
    if hl < ndx + len then st == OperFailed && m1 == m0
    else if off + ndx + len <= PAGE_SIZE && m0[PageBase(pg) + off + ndx..PageBase(pg) + off + ndx + len] == buf[..len] then
      st == Success && m1 == m0
    else (st == Success || st == OperFailed) && (st == Success ==> Retired(m1, pg, off))
  }

  /** Where findItem's item lies, as the page and offset bounds used by its readers. */
  lemma FoundBounds(m: seq<byte>, id: u16, pg: nat, off: nat)
    requires |m| == NV_SIZE && id != ITEM_NULL && Find(m, id) == Some((pg, off))
    ensures pg < PAGES_USED && PG_HDR_SIZE + HDR_SIZE <= off
    ensures off + DataSize(Field(m, pg, off - HDR_SIZE, HDR_LEN)) <= PAGE_SIZE
  {
    FindSound(m, id);
  }

  /** The four outcomes of osal_nv_write, one lemma each. */
  lemma WriteMissing(m0: seq<byte>, id: u16, ndx: u16, len: u16, buf: seq<byte>)
    requires |m0| == NV_SIZE && id != ITEM_NULL && len <= |buf| && Find(m0, id).None?
    ensures WriteChecked(m0, m0, id, ndx, len, buf, ItemUninit)
  {
  }

  lemma WriteShort(m0: seq<byte>, id: u16, ndx: u16, len: u16, buf: seq<byte>, pg: nat, off: nat)
    requires |m0| == NV_SIZE && id != ITEM_NULL && len <= |buf| && Find(m0, id) == Some((pg, off))
    requires HDR_SIZE <= off && pg < PAGES_USED && Field(m0, pg, off - HDR_SIZE, HDR_LEN) < ndx + len
    ensures WriteChecked(m0, m0, id, ndx, len, buf, OperFailed)
  {
  }

  lemma WriteSame(m0: seq<byte>, id: u16, ndx: u16, len: u16, buf: seq<byte>, pg: nat, off: nat)
    requires |m0| == NV_SIZE && id != ITEM_NULL && len <= |buf| && Find(m0, id) == Some((pg, off))
    requires HDR_SIZE <= off && pg < PAGES_USED && off + ndx + len <= PAGE_SIZE
    requires Field(m0, pg, off - HDR_SIZE, HDR_LEN) >= ndx + len
    requires m0[PageBase(pg) + off + ndx..PageBase(pg) + off + ndx + len] == buf[..len]
    ensures WriteChecked(m0, m0, id, ndx, len, buf, Success)
  {
  }

  lemma WriteChanged(m0: seq<byte>, m1: seq<byte>, id: u16, ndx: u16, len: u16, buf: seq<byte>, pg: nat, off: nat,
                     st: Status)
    requires |m0| == NV_SIZE && |m1| == NV_SIZE && id != ITEM_NULL && len <= |buf| && Find(m0, id) == Some((pg, off))
    requires HDR_SIZE <= off && pg < PAGES_USED && off + ndx + len <= PAGE_SIZE
    requires Field(m0, pg, off - HDR_SIZE, HDR_LEN) >= ndx + len
    requires m0[PageBase(pg) + off + ndx..PageBase(pg) + off + ndx + len] != buf[..len]
    requires st == Success || st == OperFailed
    requires st == Success ==> |m1| == NV_SIZE && Retired(m1, pg, off)
    ensures WriteChecked(m0, m1, id, ndx, len, buf, st)
  {
  }

  /** osal_nv_delete of item `id` with length `len`, from flash `m0` to `m1` with the hot
      cache `hotPg`, `hotOff`: a missing item gives ItemUninit and a length other than the
      one osal_nv_item_len reports gives BadItemLen, both leaving flash as it was;
      otherwise the item found is zeroed, and the result is Success exactly when no copy of
      the item is found afterwards. */
  ghost predicate Deleted(m0: seq<byte>, m1: seq<byte>, hotPg: seq<nat>, hotOff: seq<u16>, id: u16, len: u16, st: Status)
    requires |m0| == NV_SIZE && |m1| == NV_SIZE && id != ITEM_NULL && |hotPg| == MAX_HOT && |hotOff| == MAX_HOT
  {
    match Find(m0, id)
    case None => st == ItemUninit && m1 == m0
    case Some(loc) =>
      if StoredLen(hotPg, hotOff, m0, id) != len then st == BadItemLen && m1 == m0
      else ZeroedAt(m0, m1, id, loc.0, loc.1, st)
  }

  /** The item whose data starts at `off` on `pg` has been zeroed, and the status says
      whether a copy of item `id` is still found. */
  ghost predicate ZeroedAt(m0: seq<byte>, m1: seq<byte>, id: u16, pg: nat, off: nat, st: Status)
    requires |m0| == NV_SIZE && |m1| == NV_SIZE && id != ITEM_NULL
  {
    pg < PAGES_USED && HDR_SIZE <= off <= PAGE_SIZE && FlagCleared(m0, m1, pg, off - HDR_SIZE, Zero)
    && (st == Success || st == OperFailed) && (st == Success <==> Find(m1, id).None?)
  }

  /** The three outcomes of osal_nv_delete, one lemma each. */
  lemma DeleteMissing(m0: seq<byte>, hotPg: seq<nat>, hotOff: seq<u16>, id: u16, len: u16)
    requires |m0| == NV_SIZE && id != ITEM_NULL && |hotPg| == MAX_HOT && |hotOff| == MAX_HOT
    requires Find(m0, id).None?
    ensures Deleted(m0, m0, hotPg, hotOff, id, len, ItemUninit)
  {
  }

  lemma DeleteBadLen(m0: seq<byte>, hotPg: seq<nat>, hotOff: seq<u16>, id: u16, len: u16)
    requires |m0| == NV_SIZE && id != ITEM_NULL && |hotPg| == MAX_HOT && |hotOff| == MAX_HOT
    requires Find(m0, id).Some? && StoredLen(hotPg, hotOff, m0, id) != len
    ensures Deleted(m0, m0, hotPg, hotOff, id, len, BadItemLen)
  {
  }

  lemma DeleteZeroed(m0: seq<byte>, m1: seq<byte>, hotPg: seq<nat>, hotOff: seq<u16>, id: u16, len: u16,
                     pg: nat, off: nat, st: Status)
    requires |m0| == NV_SIZE && |m1| == NV_SIZE && id != ITEM_NULL && |hotPg| == MAX_HOT && |hotOff| == MAX_HOT
    requires Find(m0, id) == Some((pg, off)) && StoredLen(hotPg, hotOff, m0, id) == len
    requires pg < PAGES_USED && HDR_SIZE <= off <= PAGE_SIZE && FlagCleared(m0, m1, pg, off - HDR_SIZE, Zero)
    requires st == if Find(m1, id).Some? then OperFailed else Success
    ensures Deleted(m0, m1, hotPg, hotOff, id, len, st)
  {
  }

  // ---------------------------------------------------------------- osal_nv_write's new copy

  /** From `m0` to `m1`, the data of the new item of `hlen` bytes at `dstOff` on `dstPg` is
      the old item's data at `srcOff` on `srcPg` with `b` from byte `ndx` on, and erased
      padding, whenever the two data areas are apart. */
  ghost predicate CopyPatched(m0: seq<byte>, m1: seq<byte>, srcPg: nat, srcOff: nat, dstPg: nat, dstOff: nat,
                              hlen: nat, ndx: nat, b: seq<byte>)
    requires |m0| == NV_SIZE && |m1| == NV_SIZE && srcPg < PAGES_USED && dstPg < PAGES_USED
    requires srcOff + hlen <= PAGE_SIZE && HDR_SIZE <= dstOff && dstOff + DataSize(hlen) <= PAGE_SIZE
    requires ndx + |b| <= hlen
  {
    PageBaseBound(srcPg);
    Clear(PageBase(srcPg) + srcOff, hlen, PageBase(dstPg) + dstOff, DataSize(hlen)) ==>
      ItemData(m1, dstPg, dstOff - HDR_SIZE, hlen)
        == Patched(m0[PageBase(srcPg) + srcOff..PageBase(srcPg) + srcOff + hlen], ndx, b) + Fill(PadTo(hlen))
  }

  /** The header before the data at `dstOff` holds the checksum of the data. */
  ghost predicate ChkInPlace(m: seq<byte>, pg: nat, dstOff: nat, hlen: nat)
    requires |m| == NV_SIZE && pg < PAGES_USED && HDR_SIZE <= dstOff && dstOff + DataSize(hlen) <= PAGE_SIZE
  {
    PageBaseBound(pg);
    Field(m, pg, dstOff - HDR_SIZE, HDR_CHK) == Chk16(ItemData(m, pg, dstOff - HDR_SIZE, hlen))
  }

  /** The new copy at `dstOff` on `dstPg` went through: it lies in its page, holds the old
      data patched with `b` (`CopyPatched`), its header holds the checksum of its data, and
      that checksum is the predicted `chk`. */
  ghost predicate PatchedCopy(m0: seq<byte>, m1: seq<byte>, srcPg: nat, srcOff: nat, dstPg: nat, dstOff: nat,
                              hlen: nat, ndx: nat, b: seq<byte>, chk: u16)
    requires |m0| == NV_SIZE && |m1| == NV_SIZE && srcPg < PAGES_USED && dstPg < PAGES_USED
    requires srcOff + hlen <= PAGE_SIZE && ndx + |b| <= hlen
  {
    && HDR_SIZE <= dstOff && dstOff + DataSize(hlen) <= PAGE_SIZE
    && CopyPatched(m0, m1, srcPg, srcOff, dstPg, dstOff, hlen, ndx, b)
    && ChkInPlace(m1, dstPg, dstOff, hlen)
    && Chk16(ItemData(m1, dstPg, dstOff - HDR_SIZE, hlen)) == chk
  }

  /** `chk` is the checksum osal_nv_write's compare loop predicts from an intact old item
      of `hlen` bytes at `srcOff` with checksum `chk0`, for `b` written from byte `ndx`. */
  ghost predicate Predicted(m0: seq<byte>, srcPg: nat, srcOff: nat, hlen: nat, ndx: nat, b: seq<byte>, chk0: u16, chk: u16)
    requires |m0| == NV_SIZE && srcPg < PAGES_USED && srcOff + DataSize(hlen) <= PAGE_SIZE && ndx + |b| <= hlen
  {
    PageBaseBound(srcPg);
    Intact(m0, srcPg, srcOff, hlen, chk0)
    && chk == (chk0 - Sum(m0[PageBase(srcPg) + srcOff + ndx..PageBase(srcPg) + srcOff + ndx + |b|]) + Sum(b)) % 0x10000
  }

  /** The copy stays patched from `m0` when the old data is the same in `m1`. */
  lemma CopyPatchedFrom(m0: seq<byte>, m1: seq<byte>, m2: seq<byte>, srcPg: nat, srcOff: nat, dstPg: nat,
                        dstOff: nat, hlen: nat, ndx: nat, b: seq<byte>)
    requires |m0| == NV_SIZE && |m1| == NV_SIZE && |m2| == NV_SIZE && srcPg < PAGES_USED && dstPg < PAGES_USED
    requires srcOff + hlen <= PAGE_SIZE && HDR_SIZE <= dstOff && dstOff + DataSize(hlen) <= PAGE_SIZE
    requires ndx + |b| <= hlen
    requires m1[PageBase(srcPg) + srcOff..PageBase(srcPg) + srcOff + hlen] == m0[PageBase(srcPg) + srcOff..PageBase(srcPg) + srcOff + hlen]
    requires CopyPatched(m1, m2, srcPg, srcOff, dstPg, dstOff, hlen, ndx, b)
    ensures CopyPatched(m0, m2, srcPg, srcOff, dstPg, dstOff, hlen, ndx, b)
  {
  }

  /** A predicted checksum is the checksum of the patched copy. */
  lemma PredictedPatched(m0: seq<byte>, srcPg: nat, srcOff: nat, hlen: nat, ndx: nat, b: seq<byte>, chk0: u16, chk: u16)
    requires |m0| == NV_SIZE && srcPg < PAGES_USED && srcOff + DataSize(hlen) <= PAGE_SIZE && ndx + |b| <= hlen
    requires Predicted(m0, srcPg, srcOff, hlen, ndx, b, chk0, chk)
    ensures Chk16(Patched(m0[PageBase(srcPg) + srcOff..PageBase(srcPg) + srcOff + hlen], ndx, b) + Fill(PadTo(hlen))) == chk
  {
    PageBaseBound(srcPg);
    IntactPatched(m0, PageBase(srcPg) + srcOff, PageBase(srcPg) + srcOff + hlen,
                  PageBase(srcPg) + srcOff + DataSize(hlen), PageBase(srcPg) + srcOff + ndx,
                  PageBase(srcPg) + srcOff + ndx + |b|, hlen, ndx, b, chk0, chk);
  }

  /** The flash part of osal_nv_write's copy branch: the new data built from the old copy
      and the buffer, its checksum computed from flash and written into the new header,
      and that header read back as `h2`. */
  method PatchFlash(mem: array<byte>, srcPg: nat, srcOff: nat, dstPg: nat, dstOff: nat, ndx: u16, len: u16,
                    hlen: u16, buf: seq<byte>) returns (h2: Hdr)
    requires mem.Length == NV_SIZE && srcPg < PAGES_USED && dstPg < PAGES_USED
    requires srcOff + hlen <= PAGE_SIZE
    requires HDR_SIZE <= dstOff && dstOff % WORD_SIZE == 0 && dstOff + DataSize(hlen) <= PAGE_SIZE
    requires ndx + len <= hlen && len <= |buf|
    modifies mem
    ensures OnlyPage(old(mem[..]), mem[..], dstPg)
    ensures CopyPatched(old(mem[..]), mem[..], srcPg, srcOff, dstPg, dstOff, hlen, ndx, buf[..len])
    ensures ChkInPlace(mem[..], dstPg, dstOff, hlen)
    ensures h2.chk == Chk16(ItemData(mem[..], dstPg, dstOff - HDR_SIZE, hlen))
    ensures h2.id == Field(mem[..], dstPg, dstOff - HDR_SIZE, HDR_ID)
  {
    ghost var m0 := mem[..];
    PageBaseBound(dstPg);
    PatchItem(mem, srcPg, srcOff, dstPg, dstOff, ndx, len, hlen, buf);
    ghost var m1 := mem[..];
    StoreOnPage(m0, dstPg, PageBase(dstPg) + dstOff, m1[PageBase(dstPg) + dstOff..PageBase(dstPg) + dstOff + DataSize(hlen)]);
    var chkF := CalcChkF(mem, dstPg, dstOff, hlen);
    ItemDataAt(m1, dstPg, dstOff, hlen);
    PutChk(mem, dstPg, dstOff - HDR_SIZE, hlen, chkF);
    OnlyPageTrans(m0, m1, mem[..], dstPg);
    h2 := ReadHdr(mem, dstPg, dstOff - HDR_SIZE);
    HdrAtFields(mem[..], dstPg, dstOff - HDR_SIZE);
  }

  /** With the data areas apart, a copy patched from an item whose checksum was predicted
      carries the predicted checksum. */
  lemma CheckPasses(m0: seq<byte>, m1: seq<byte>, srcPg: nat, srcOff: nat, dstPg: nat, dstOff: nat,
                    hlen: nat, ndx: nat, b: seq<byte>, chk0: u16, chk: u16)
    requires |m0| == NV_SIZE && |m1| == NV_SIZE && srcPg < PAGES_USED && dstPg < PAGES_USED
    requires srcOff + DataSize(hlen) <= PAGE_SIZE && HDR_SIZE <= dstOff && dstOff + DataSize(hlen) <= PAGE_SIZE
    requires ndx + |b| <= hlen
    requires CopyPatched(m0, m1, srcPg, srcOff, dstPg, dstOff, hlen, ndx, b)
    requires Clear(PageBase(srcPg) + srcOff, hlen, PageBase(dstPg) + dstOff, DataSize(hlen))
    requires Predicted(m0, srcPg, srcOff, hlen, ndx, b, chk0, chk)
    ensures Chk16(ItemData(m1, dstPg, dstOff - HDR_SIZE, hlen)) == chk
  {
    PredictedPatched(m0, srcPg, srcOff, hlen, ndx, b, chk0, chk);
  }

  class NvStore {
    /** nvDataBuf: the NV pages, one after the other. */
    const mem: array<byte>
    /** Offset of the first erased byte of each page. */
    var pgOff: seq<u16>
    /** Bytes of each page held by zeroed items. */
    var pgLost: seq<u16>
    /** The reserve page, the target of the next compaction (PAGE_NULL while unknown). */
    var pgRes: nat
    /** Page and data offset of each hot item. */
    var hotPg: seq<nat>
    var hotOff: seq<u16>

    ghost predicate Valid()
      reads this
    {
      mem.Length == NV_SIZE && |pgOff| == PAGES_USED && |pgLost| == PAGES_USED
      && |hotPg| == MAX_HOT && |hotOff| == MAX_HOT && pgRes <= PAGE_NULL
    }

    /** Every page cursor is a valid one. */
    ghost predicate Directory()
      reads this
    {
      Valid() && DirOk(pgOff)
    }

    /** The state the engine keeps between API calls: a valid directory and one erased
        reserve page whose cursor is at its start. */
    ghost predicate Ready()
      reads this, mem
    {
      Directory() && pgRes < PAGES_USED && Blank(mem[..], pgOff, pgLost, pgRes)
    }

    /** The engine before osal_nv_init: the module's zero-initialised variables over the
        flash contents found at power-up. */
    constructor (image: seq<byte>)
      requires |image| == NV_SIZE
      ensures Valid() && mem[..] == image && fresh(mem)
      ensures pgOff == [0, 0, 0, 0] && pgLost == [0, 0, 0, 0] && pgRes == 0
      ensures hotPg == [0, 0, 0] && hotOff == [0, 0, 0]
    {
      mem := new byte[NV_SIZE](i requires 0 <= i < NV_SIZE => image[i]);
      pgOff := [0, 0, 0, 0];
      pgLost := [0, 0, 0, 0];
      pgRes := 0;
      hotPg := [0, 0, 0];
      hotOff := [0, 0, 0];
      new;
      assert mem[..] == image;
    }

    /** erasePage: the page is erased and its cursor and lost count start over. */
    method ErasePage(pg: nat)
      requires Valid() && pg < PAGES_USED
      modifies this, mem
      ensures Valid()
      ensures mem[..] == Overwrite(old(mem[..]), PageBase(pg), Fill(PAGE_SIZE))
      ensures PageErased(mem[..], pg) && OnlyPage(old(mem[..]), mem[..], pg)
      ensures pgOff == old(pgOff)[pg := PG_HDR_SIZE] && pgLost == old(pgLost)[pg := 0]
      ensures pgRes == old(pgRes) && hotPg == old(hotPg) && hotOff == old(hotOff)
    {
      assert PageBase(pg) / HAL_FLASH_PAGE_SIZE == pg;
      FlashErasePage(mem, PageBase(pg));
      EraseGivesErased(old(mem[..]), pg);
      StoreOnPage(old(mem[..]), pg, PageBase(pg), Fill(PAGE_SIZE));
      pgOff := pgOff[pg := PG_HDR_SIZE];
      pgLost := pgLost[pg := 0];
    }

    /** hotItemUpdate: a hot item's cache entry follows it to its new place. */
    method HotItemUpdate(pg: nat, off: u16, id: u16)
      requires Valid()
      modifies this
      ensures Valid()
      ensures HotItem(id) < MAX_HOT ==>
        hotPg == old(hotPg)[HotItem(id) := pg] && hotOff == old(hotOff)[HotItem(id) := off]
      ensures HotItem(id) == MAX_HOT ==> hotPg == old(hotPg) && hotOff == old(hotOff)
      ensures pgOff == old(pgOff) && pgLost == old(pgLost) && pgRes == old(pgRes)
    {
      var hotIdx := LookupHot(id);
      if hotIdx < MAX_HOT {
        hotPg := hotPg[hotIdx := pg];
        hotOff := hotOff[hotIdx := off];
      }
    }

    /** setItem: clears the stat flag (Xfer) or the live flag (Zero) of the item whose data
        is at (pg, offset). Zeroing counts the item's size as lost on its page, in uint16. */
    method SetItem(pg: nat, offset: nat, stat: HdrStat)
      requires Valid() && pg < PAGES_USED && HDR_SIZE <= offset <= PAGE_SIZE
      modifies this, mem
      ensures Valid()
      ensures FlagCleared(old(mem[..]), mem[..], pg, offset - HDR_SIZE, stat)
      ensures LostCounted(old(mem[..]), old(pgLost), pgLost, pg, offset - HDR_SIZE, stat)
      ensures Field(old(mem[..]), pg, offset - HDR_SIZE, HDR_ID) != ERASED_ID ==>
        DirKept(old(mem[..]), old(pgOff), old(pgLost), mem[..], pgOff, pgLost)
      ensures pgOff == old(pgOff) && pgRes == old(pgRes) && hotPg == old(hotPg) && hotOff == old(hotOff)
    {
      ghost var m0, l0 := mem[..], pgLost;
      var h := ClearFlag(mem, pg, offset - HDR_SIZE, stat);
      ghost var m1 := mem[..];
      if stat == Zero {
        var sz := ItemSize16(h.len);
        pgLost := pgLost[pg := ((pgLost[pg] as int) + (sz as int)) % 0x10000];
      }
      FlagClearedKept(m0, m1, pgOff, l0, pgLost, pg, offset - HDR_SIZE, stat);
      assert mem[..] == m1;
    }

    /** The loop of findItem: a lookup of `id` on every page in order, stopping at the
        first page holding a live copy of the item. */
    method LookupPages(id: u16) returns (off: u16, findPg: nat)
      requires Valid() && id != ITEM_NULL
      modifies this
      ensures Valid()
      ensures match FindOn(mem[..], id, 0)
        case Some(loc) => findPg == loc.0 && off == loc.1 && off != 0
        case None => off == 0
      ensures pgOff == Remeasured(mem[..], old(pgOff), Reach(mem[..], id), false)
      ensures pgLost == Remeasured(mem[..], old(pgLost), Reach(mem[..], id), true)
      ensures pgRes == old(pgRes) && hotPg == old(hotPg) && hotOff == old(hotOff)
    {
      off, findPg, pgOff, pgLost := LookupAll(mem, id, pgOff, pgLost);
    }

    /** findItem: the page and data offset of item `id`, from a lookup in page order for a
        live current copy and, when the id has its MSB clear and none is found, a second
        one (a recursive call) for a live transferred copy. Every page walked to its end on
        the way, which are those before the first page holding the item found by the first
        pass, or all pages, has its cursor and lost count set from its measure. */
    method FindItem(id: u16) returns (off: u16, findPg: nat)
      requires Valid() && id != ITEM_NULL
      modifies this
      ensures Valid()
      ensures match Find(mem[..], id)
        case Some(loc) => findPg == loc.0 && off == loc.1 && off != 0
        case None => findPg == PAGE_NULL && off == 0
      ensures pgOff == Remeasured(mem[..], old(pgOff), Reach(mem[..], id), false)
      ensures pgLost == Remeasured(mem[..], old(pgLost), Reach(mem[..], id), true)
      ensures pgRes == old(pgRes) && hotPg == old(hotPg) && hotOff == old(hotOff)
      ensures DirKept(mem[..], old(pgOff), old(pgLost), mem[..], pgOff, pgLost)
      decreases if id < SOURCE_ID then 1 else 0
    {
      ghost var m := mem[..];
      off, findPg := LookupPages(id);
      if off == 0 {
        if id < SOURCE_ID {
          RemeasuredAgain(m, old(pgOff), PAGES_USED, Reach(m, SourceOf(id)), false);
          RemeasuredAgain(m, old(pgLost), PAGES_USED, Reach(m, SourceOf(id)), true);
          off, findPg := FindItem(SourceOf(id));
        } else {
          findPg := PAGE_NULL;
        }
      }
      RemeasuredKeeps(m, old(pgOff), old(pgLost), Reach(m, id));
    }

    /** The checksum branch of initPage's recovery walk for the live item whose header
        `h` lies just before `offset`: a bad checksum zeroes the item (`zeroed`); a good one
        with `findDups`, on a current item, zeroes its live transferred copy if there is
        one; a good one without `findDups`, on a transferred item, asks the walk to stop
        (`early`). */
    method CheckItem(pg: nat, offset: nat, h: Hdr, findDups: bool) returns (early: bool, zeroed: bool)
      requires Valid() && pg < PAGES_USED && PG_HDR_SIZE + HDR_SIZE <= offset
      requires offset + DataSize(h.len) <= PAGE_SIZE
      requires h == HdrAt(mem[..], pg, offset - HDR_SIZE) && h.id != ERASED_ID
      requires h.id == Field(mem[..], pg, offset - HDR_SIZE, HDR_ID)
      modifies this, mem
      ensures Valid()
      ensures zeroed <==> h.chk != Chk16(ItemData(old(mem[..]), pg, offset - HDR_SIZE, h.len))
      ensures zeroed ==> FlagCleared(old(mem[..]), mem[..], pg, offset - HDR_SIZE, Zero)
      ensures early <==> !zeroed && !findDups && h.stat != ERASED_ID
      ensures !zeroed && !findDups ==> mem[..] == old(mem[..]) && pgLost == old(pgLost)
      ensures DirKept(old(mem[..]), old(pgOff), old(pgLost), mem[..], pgOff, pgLost)
      ensures !findDups ==> (OnlyPage(old(mem[..]), mem[..], pg) && pgOff == old(pgOff)
        && forall p :: 0 <= p < PAGES_USED && p != pg ==> pgLost[p] == old(pgLost[p]))
      ensures pgRes == old(pgRes) && hotPg == old(hotPg) && hotOff == old(hotOff)
      ensures PgHdrsKept(old(mem[..]), mem[..])
    {
      ghost var m0, o0, l0 := mem[..], pgOff, pgLost;
      early, zeroed := false, false;
      var chkF := CalcChkF(mem, pg, offset, h.len);
      if h.chk == chkF {
        if findDups {
          if h.stat == ERASED_ID {
            var off, findPg := ZeroSource(h.id);
          }
        } else if h.stat != ERASED_ID {
          early := true;
        }
      } else {
        SetItem(pg, offset, Zero);
        FlagClearedHdrs(m0, mem[..], pg, offset - HDR_SIZE, Zero);
        zeroed := true;
      }
    }

    /** The duplicate search of initPage's recovery walk, for a current item `id`: findItem
        looks for the item's transferred copy, which is zeroed when found. */
    method ZeroSource(id: u16) returns (off: u16, findPg: nat)
      requires Valid()
      modifies this, mem
      ensures Valid()
      ensures match Find(old(mem[..]), SourceOf(id))
        case Some(loc) => findPg == loc.0 && off == loc.1 && off != 0
        case None => off == 0
      ensures off == 0 ==> mem[..] == old(mem[..])
      ensures off != 0 ==>
        findPg < PAGES_USED && HDR_SIZE <= off <= PAGE_SIZE
        && FlagCleared(old(mem[..]), mem[..], findPg, off - HDR_SIZE, Zero)
      ensures DirKept(old(mem[..]), old(pgOff), old(pgLost), mem[..], pgOff, pgLost)
      ensures pgRes == old(pgRes) && hotPg == old(hotPg) && hotOff == old(hotOff)
      ensures PgHdrsKept(old(mem[..]), mem[..])
    {
      ghost var m0, o0, l0 := mem[..], pgOff, pgLost;
      off, findPg := FindItem(SourceOf(id));
      RemeasuredKeeps(m0, o0, l0, Reach(m0, SourceOf(id)));
      assert DirKept(m0, o0, l0, m0, pgOff, pgLost);
      if off != 0 {
        ghost var o1, l1 := pgOff, pgLost;
        FindLive(m0, SourceOf(id), findPg, off);
        SetItem(findPg, off, Zero);
        FlagClearedHdrs(m0, mem[..], findPg, off - HDR_SIZE, Zero);
        DirKeptTrans(m0, o0, l0, m0, o1, l1, mem[..], pgOff, pgLost);
      }
    }

    /** The part of initPage's recovery step past the header checks: a zeroed item is
        counted as lost; a live one goes to `CheckItem`, which zeroes it, and then it is
        counted as lost, when its checksum is bad, or stops the walk (`early`). */
    method StepOver(pg: nat, offset: nat, lost: nat, h: Hdr, findDups: bool) returns (lost': nat, early: bool)
      requires Valid() && pg < PAGES_USED && PG_HDR_SIZE <= offset && offset + HDR_SIZE < PAGE_SIZE
      requires h == HdrAt(mem[..], pg, offset) && h.id != ERASED_ID && offset + ItemSize(h.len) <= PAGE_SIZE
      requires h.id == Field(mem[..], pg, offset, HDR_ID) && h.len == Field(mem[..], pg, offset, HDR_LEN)
      requires h.live == Field(mem[..], pg, offset, HDR_LIVE)
      modifies this, mem
      ensures Valid()
      ensures early ==> !findDups
      ensures lost <= lost' <= lost + ItemSize(h.len)
      ensures var s := InitWalkStep(old(mem[..]), pg, offset, lost, findDups);
        (early ==> s == Stop(Found(offset + HDR_SIZE)) && mem[..] == old(mem[..]))
        && (!early ==> s == Next(offset + ItemSize(h.len), lost'))
      ensures DirKept(old(mem[..]), old(pgOff), old(pgLost), mem[..], pgOff, pgLost)
      ensures !findDups ==> (OnlyPage(old(mem[..]), mem[..], pg) && pgOff == old(pgOff)
        && forall p :: 0 <= p < PAGES_USED && p != pg ==> pgLost[p] == old(pgLost[p]))
      ensures !findDups ==> Within(old(mem[..]), mem[..], pg, offset, offset + HDR_SIZE)
      ensures !findDups && !early ==>
        StepOf(mem[..], pg, Lookup(ITEM_NULL), offset, lost) == InitWalkStep(old(mem[..]), pg, offset, lost, false)
        && StepOf(mem[..], pg, Recovery, offset, lost) == InitWalkStep(old(mem[..]), pg, offset, lost, false)
      ensures pgRes == old(pgRes) && hotPg == old(hotPg) && hotOff == old(hotOff)
      ensures PgHdrsKept(old(mem[..]), mem[..])
    {
      ghost var m0 := mem[..];
      RecoveryStep(m0, pg, offset, lost, h, findDups);
      var sz := DataSize(h.len);
      lost', early := lost, false;
      if h.live != ZEROED_ID {
        var zeroed;
        early, zeroed := CheckItem(pg, offset + HDR_SIZE, h, findDups);
        if zeroed {
          lost' := lost + HDR_SIZE + sz;
          if !findDups {
            ZeroedStep(m0, mem[..], pg, offset, lost);
          }
        } else if !findDups && !early {
          MeasureIsRecovery(m0, pg, offset, lost);
        }
      } else {
        lost' := lost + HDR_SIZE + sz;
        MeasureIsRecovery(m0, pg, offset, lost);
      }
    }

    /** One header of initPage's recovery walk at `offset`, with `lost` bytes counted so
        far: an erased id ends the walk here (`done`); a length running past the page ends
        it at the page end with the rest of the page lost; otherwise the walk steps over
        the item, which counts as lost when it was zeroed before or is zeroed now by
        `CheckItem`, unless `CheckItem` stops the walk (`early`). */
    method InitStep(pg: nat, offset: nat, lost: nat, findDups: bool)
      returns (next: nat, lost': nat, done: bool, early: bool)
      requires Valid() && pg < PAGES_USED && PG_HDR_SIZE <= offset < PAGE_SIZE - HDR_SIZE
      requires offset % WORD_SIZE == 0
      modifies this, mem
      ensures Valid()
      ensures offset <= next <= PAGE_SIZE && next % WORD_SIZE == 0 && lost <= lost'
      ensures lost' - lost <= next - offset && (!done ==> offset < next)
      ensures early ==> !findDups
      ensures PageErased(old(mem[..]), pg) ==> (done && !early && next == offset && lost' == lost
        && mem[..] == old(mem[..]) && pgOff == old(pgOff) && pgLost == old(pgLost))
      ensures DirKept(old(mem[..]), old(pgOff), old(pgLost), mem[..], pgOff, pgLost)
      ensures !findDups ==> (OnlyPage(old(mem[..]), mem[..], pg) && pgOff == old(pgOff)
        && forall p :: 0 <= p < PAGES_USED && p != pg ==> pgLost[p] == old(pgLost[p]))
      ensures PgHdrsKept(old(mem[..]), mem[..])
      ensures pgRes == old(pgRes) && hotPg == old(hotPg) && hotOff == old(hotOff)
      ensures var s := InitWalkStep(old(mem[..]), pg, offset, lost, findDups);
        (early ==> s == Stop(Found(offset + HDR_SIZE)) && mem[..] == old(mem[..]))
        && (!early && done ==> s == Stop(Ended(next, lost')))
        && (!early && !done ==> s == Next(next, lost'))
      ensures !findDups ==> Within(old(mem[..]), mem[..], pg, offset, offset + HDR_SIZE)
      ensures !findDups && !early ==>
        StepOf(mem[..], pg, Lookup(ITEM_NULL), offset, lost) == InitWalkStep(old(mem[..]), pg, offset, lost, false)
        && StepOf(mem[..], pg, Recovery, offset, lost) == InitWalkStep(old(mem[..]), pg, offset, lost, false)
    {
      ghost var m0 := mem[..];
      next, lost', done, early := offset, lost, true, false;
      ErasedPageHdr(mem[..], pg, offset);
      var h := ReadHdr(mem, pg, offset);
      HdrAtFields(mem[..], pg, offset);
      if h.id == ERASED_ID {
        return;
      }
      var sz := DataSize(h.len);
      if sz > PAGE_SIZE - HDR_SIZE - offset {
        next, lost' := PAGE_SIZE, lost + (PAGE_SIZE - offset);
        return;
      }
      done := false;
      lost', early := StepOver(pg, offset, lost, h, findDups);
      NextAligned(offset, h.len);
      next := offset + HDR_SIZE + sz;
    }

    /** initPage in recovery mode (no id): walks page `pg` header by header (`InitStep`).
        A walk that ends sets the page's cursor and lost count; one stopped early returns
        the erased id and leaves the cursors alone, so that the caller restarts with
        `findDups`. Without `findDups` the walk is `InitWalk` of the flash found: it ends
        exactly when no transferred item stops it, and then the page is settled, its
        cursor and lost count those of the measuring walk of the new flash, on which every
        corrupt item is now zeroed; a walk stopped early leaves the page pending. */
    method InitPage(pg: nat, findDups: bool) returns (r: u16)
      requires Valid() && pg < PAGES_USED
      modifies this, mem
      ensures Valid()
      ensures r == ITEM_NULL || (r == ERASED_ID && !findDups)
      ensures r == ITEM_NULL ==> OffOk(pgOff[pg]) && pgLost[pg] <= pgOff[pg] - PG_HDR_SIZE
      ensures PageErased(old(mem[..]), pg) ==> (r == ITEM_NULL && mem[..] == old(mem[..])
        && pgOff == old(pgOff)[pg := PG_HDR_SIZE] && pgLost == old(pgLost)[pg := 0])
      ensures r == ERASED_ID ==> pgOff == old(pgOff)
      ensures DirKept(old(mem[..]), old(pgOff), old(pgLost), mem[..], pgOff, pgLost)
      ensures !findDups ==> (OnlyPage(old(mem[..]), mem[..], pg)
        && forall p :: 0 <= p < PAGES_USED && p != pg ==> pgOff[p] == old(pgOff[p]) && pgLost[p] == old(pgLost[p]))
      ensures !findDups ==> (r == ERASED_ID <==> InitWalk(old(mem[..]), pg, PG_HDR_SIZE, 0).Found?)
      ensures !findDups && r == ITEM_NULL ==>
        InitWalk(old(mem[..]), pg, PG_HDR_SIZE, 0) == Ended(pgOff[pg], pgLost[pg]) && Settled(mem[..], pgOff, pgLost, pg)
      ensures !findDups && r == ERASED_ID ==> Pending(mem[..], pg)
      ensures pgRes == old(pgRes) && hotPg == old(hotPg) && hotOff == old(hotOff)
      ensures PgHdrsKept(old(mem[..]), mem[..])
    {
      ghost var m0, o0, l0 := mem[..], pgOff, pgLost;
      var offset, lost, early := RecoveryWalk(pg, findDups);
      if early {
        return ERASED_ID;
      }
      DirKeptSet(m0, o0, l0, mem[..], pgOff, pgLost, pg, offset, lost);
      pgOff := pgOff[pg := offset];
      pgLost := pgLost[pg := lost];
      r := ITEM_NULL;
    }

    /** The loop of initPage: steps header by header (`InitStep`) until the walk ends
        (`offset` and `lost` are then where and with how much lost it ended) or stops
        `early` at a transferred item. Without `findDups` it follows `InitWalk` of the
        flash found, and a walk that ends leaves the page measured by its new flash. */
    method RecoveryWalk(pg: nat, findDups: bool) returns (offset: nat, lost: nat, early: bool)
      requires Valid() && pg < PAGES_USED
      modifies this, mem
      ensures Valid() && PG_HDR_SIZE <= offset <= PAGE_SIZE && offset % WORD_SIZE == 0
      ensures lost <= offset - PG_HDR_SIZE && (early ==> !findDups)
      ensures PageErased(old(mem[..]), pg) ==> (!early && offset == PG_HDR_SIZE && mem[..] == old(mem[..])
        && pgOff == old(pgOff) && pgLost == old(pgLost))
      ensures DirKept(old(mem[..]), old(pgOff), old(pgLost), mem[..], pgOff, pgLost)
      ensures !findDups ==> (OnlyPage(old(mem[..]), mem[..], pg) && pgOff == old(pgOff)
        && forall p :: 0 <= p < PAGES_USED && p != pg ==> pgLost[p] == old(pgLost[p]))
      ensures early ==> InitWalk(old(mem[..]), pg, PG_HDR_SIZE, 0).Found? && Pending(mem[..], pg)
      ensures !findDups && !early ==>
        InitWalk(old(mem[..]), pg, PG_HDR_SIZE, 0) == Ended(offset, lost)
        && Extent(mem[..], pg) == Ended(offset, lost) && InitWalk(mem[..], pg, PG_HDR_SIZE, 0) == Ended(offset, lost)
      ensures pgRes == old(pgRes) && hotPg == old(hotPg) && hotOff == old(hotOff)
      ensures PgHdrsKept(old(mem[..]), mem[..])
    {
      ghost var m0, o0, l0 := mem[..], pgOff, pgLost;
      offset, lost, early := PG_HDR_SIZE, 0, false;
      ghost var fin := false;
      WalkedStart(m0, pg);
      while offset < PAGE_SIZE - HDR_SIZE
        invariant Valid() && PG_HDR_SIZE <= offset <= PAGE_SIZE && offset % WORD_SIZE == 0
        invariant lost <= offset - PG_HDR_SIZE && !fin
        invariant PageErased(m0, pg) ==> (offset == PG_HDR_SIZE && mem[..] == m0 && pgOff == o0 && pgLost == l0)
        invariant DirKept(m0, o0, l0, mem[..], pgOff, pgLost)
        invariant !findDups ==> (OnlyPage(m0, mem[..], pg) && pgOff == o0
          && forall p :: 0 <= p < PAGES_USED && p != pg ==> pgLost[p] == l0[p])
        invariant !findDups ==> WalkedTo(m0, mem[..], pg, offset, lost)
        invariant PgHdrsKept(m0, mem[..])
        invariant pgRes == old(pgRes) && hotPg == old(hotPg) && hotOff == old(hotOff)
        decreases PAGE_SIZE - offset
      {
        ghost var m1, o1, l1 := mem[..], pgOff, pgLost;
        var next, lost', done, stop := InitStep(pg, offset, lost, findDups);
        DirKeptTrans(m0, o0, l0, m1, o1, l1, mem[..], pgOff, pgLost);
        if !findDups {
          OnlyPageTrans(m0, m1, mem[..], pg);
        }
        if stop {
          if !findDups {
            WalkedFound(m0, mem[..], pg, offset, lost);
          }
          early := true;
          return;
        }
        if !findDups {
          if done {
            WalkedEnd(m0, m1, mem[..], pg, offset, lost, Ended(next, lost'));
          } else {
            WalkedNext(m0, m1, mem[..], pg, offset, lost, next, lost');
          }
        }
        offset, lost := next, lost';
        if done {
          fin := true;
          break;
        }
      }
      if !fin && !findDups {
        WalkedTail(m0, mem[..], pg, offset, lost);
      }
    }

    /** writeItem: appends an item header for (id, len) at the page's cursor and moves the
        cursor past the item. With `flag` the data (the buffer, or erased bytes when there is
        none) is put in place, and when its checksum re-read from flash agrees with the one
        computed from the buffer the checksum is stored in the header and the hot cache
        follows the item; `ok` says whether that happened. Without `flag` only the id and
        length are written and the caller fills in the rest. The header of the RAM model
        always reads back as written, so the cursor moves by the item size. */
    method WriteItem(pg: nat, id: u16, len: u16, buf: Option<seq<byte>>, flag: bool) returns (ok: bool)
      requires Valid() && pg < PAGES_USED && OffOk(pgOff[pg]) && pgOff[pg] + ItemSize(len) <= PAGE_SIZE
      requires buf.Some? ==> len <= |buf.value|
      modifies this, mem
      ensures Valid()
      ensures pgOff == old(pgOff)[pg := old(pgOff[pg]) + ItemSize(len)]
      ensures pgLost == old(pgLost) && pgRes == old(pgRes)
      ensures ItemWritten(old(mem[..]), mem[..], pg, old(pgOff[pg]), id, len, buf, flag, ok)
      ensures Within(old(mem[..]), mem[..], pg, old(pgOff[pg]), old(pgOff[pg]) + ItemSize(len))
      ensures flag && ok && HotItem(id) < MAX_HOT ==>
        hotPg == old(hotPg)[HotItem(id) := pg] && hotOff == old(hotOff)[HotItem(id) := old(pgOff[pg]) + HDR_SIZE]
      ensures !(flag && ok) || HotItem(id) == MAX_HOT ==> hotPg == old(hotPg) && hotOff == old(hotOff)
    {
      var hdrOff := pgOff[pg];
      var readOk, readLen;
      ok, readOk, readLen := PutItem(mem, pg, hdrOff, id, len, buf, flag);
      ghost var m1 := mem[..];
      if flag && ok {
        HotItemUpdate(pg, hdrOff + HDR_SIZE, id);
      }
      var adv := ItemAdvance(hdrOff, pgLost[pg], readOk, readLen);
      assert adv == (hdrOff + ItemSize(len), pgLost[pg]);
      pgOff := pgOff[pg := adv.0];
      pgLost := pgLost[pg := adv.1];
      assert mem[..] == m1;
    }

    /** The copy step of compactPage for the live item with a good checksum whose header
        `h` lies just before `dataOff` on `srcPg`: a current item is first marked as being
        transferred; then a header for it goes to the reserve page's cursor, its data is
        copied after it and the checksum of the copy is stored and read back. `ok` says the
        read-back checksum is the one of the source header, in which case the hot cache
        follows the item. What lands on the reserve page is `ItemCopied`. */
    method CopyItem(srcPg: nat, dataOff: nat, h: Hdr) returns (ok: bool)
      requires Valid() && srcPg < PAGES_USED && pgRes < PAGES_USED && srcPg != pgRes
      requires PG_HDR_SIZE + HDR_SIZE <= dataOff && dataOff + DataSize(h.len) <= PAGE_SIZE
      requires OffOk(pgOff[pgRes]) && pgOff[pgRes] + ItemSize(h.len) <= PAGE_SIZE
      requires h == HdrAt(mem[..], srcPg, dataOff - HDR_SIZE)
      modifies this, mem
      ensures Valid() && pgRes == old(pgRes)
      ensures pgOff[pgRes] == old(pgOff[pgRes]) + ItemSize(h.len) && pgLost == old(pgLost)
      ensures OffOk(pgOff[pgRes])
      ensures forall p :: 0 <= p < PAGES_USED && p != pgRes ==> pgOff[p] == old(pgOff[p])
      ensures OnlyPages(old(mem[..]), mem[..], srcPg, pgRes)
      ensures WithinTwo(old(mem[..]), mem[..], srcPg, dataOff - HDR_SIZE, dataOff,
                        pgRes, old(pgOff[pgRes]), old(pgOff[pgRes]) + ItemSize(h.len))
      ensures ItemCopied(old(mem[..]), mem[..], srcPg, dataOff - HDR_SIZE, pgRes, old(pgOff[pgRes]), h, ok)
    {
      var dstOff := pgOff[pgRes];
      AdvanceOk(dstOff, h.len);
      ghost var m0 := mem[..];
      var readOk, readLen, hid;
      ok, readOk, readLen, hid := TransferItem(mem, srcPg, dataOff - HDR_SIZE, pgRes, dstOff, h);
      ghost var m1 := mem[..];
      assert ItemCopied(m0, m1, srcPg, dataOff - HDR_SIZE, pgRes, dstOff, h, ok);
      var adv := ItemAdvance(dstOff, pgLost[pgRes], readOk, readLen);
      pgOff := pgOff[pgRes := adv.0];
      pgLost := pgLost[pgRes := adv.1];
      if ok {
        HotItemUpdate(pgRes, dstOff + HDR_SIZE, hid);
      }
      assert mem[..] == m1;
    }

    /** One header of compactPage's walk of `srcPg` at `srcOff`: an erased id, or a length
        that runs past either the source page or the room left on the reserve page, ends
        the walk (`stop`); a live item other than `skipId` with a good checksum is copied,
        and a failed copy ends the walk with `fail`; otherwise the walk steps over the
        item. */
    method CompactStep(srcPg: nat, srcOff: nat, skipId: u16) returns (next: nat, stop: bool, fail: bool)
      requires Valid() && srcPg < PAGES_USED && pgRes < PAGES_USED && srcPg != pgRes
      requires PG_HDR_SIZE <= srcOff < PAGE_SIZE - HDR_SIZE && OffOk(pgOff[pgRes])
      modifies this, mem
      ensures Valid() && pgRes == old(pgRes) && OffOk(pgOff[pgRes]) && pgLost == old(pgLost)
      ensures forall p :: 0 <= p < PAGES_USED && p != pgRes ==> pgOff[p] == old(pgOff[p])
      ensures OnlyPages(old(mem[..]), mem[..], srcPg, pgRes)
      ensures !stop ==> srcOff < next <= PAGE_SIZE
      ensures fail ==> stop
      ensures var v := CompactVisit(old(mem[..]), srcPg, srcOff, old(pgOff[pgRes]), skipId);
        && (v.EndOfPage? ==> stop && !fail && mem[..] == old(mem[..]) && pgOff == old(pgOff))
        && (v.Pass? ==> !stop && mem[..] == old(mem[..]) && pgOff == old(pgOff))
        && (!fail && !v.EndOfPage? ==> !stop && next == v.next)
        && (fail ==> v.Move?)
      ensures var v := CompactVisit(old(mem[..]), srcPg, srcOff, old(pgOff[pgRes]), skipId);
        var h := HdrAt(old(mem[..]), srcPg, srcOff);
        v.Move? && !fail ==>
          pgOff[pgRes] == old(pgOff[pgRes]) + ItemSize(h.len)
          && ItemCopied(old(mem[..]), mem[..], srcPg, srcOff, pgRes, old(pgOff[pgRes]), h, true)
      ensures SameSpan(old(mem[..]), mem[..], pgRes, 0, old(pgOff[pgRes]))
        && SameSpan(old(mem[..]), mem[..], srcPg, srcOff + HDR_SIZE, PAGE_SIZE)
      ensures SameSpan(old(mem[..]), mem[..], srcPg, 0, srcOff)
    {
      next, stop, fail := srcOff, true, false;
      var dstOff := pgOff[pgRes];
      var v, h := VisitItem(mem, srcPg, srcOff, dstOff, skipId);
      if v.EndOfPage? {
        return;
      }
      stop, next := false, v.next;
      if v.Move? {
        var ok := CopyItem(srcPg, srcOff + HDR_SIZE, h);
        if !ok {
          fail, stop := true, true;
        }
      }
    }

    /** `CompactStep` on the walk made so far from the image `m0` and the reserve cursor
        `da`: the walk reaches the next header, or, when it stops without a failed copy,
        is the whole walk. */
    method CompactNext(srcPg: nat, srcOff: nat, skipId: u16, ghost m0: seq<byte>, ghost da: nat)
      returns (next: nat, stop: bool, fail: bool)
      requires Valid() && srcPg < PAGES_USED && pgRes < PAGES_USED && srcPg != pgRes
      requires PG_HDR_SIZE <= srcOff < PAGE_SIZE - HDR_SIZE && OffOk(pgOff[pgRes])
      requires |m0| == NV_SIZE && da <= pgOff[pgRes]
      requires SameSpan(m0, mem[..], srcPg, srcOff, PAGE_SIZE) && SameSpan(m0, mem[..], pgRes, 0, da)
      requires CompactRun(m0, mem[..], srcPg, pgRes, skipId, PG_HDR_SIZE, da, srcOff, pgOff[pgRes])
      modifies this, mem
      ensures Valid() && pgRes == old(pgRes) && OffOk(pgOff[pgRes]) && pgLost == old(pgLost)
      ensures forall p :: 0 <= p < PAGES_USED && p != pgRes ==> pgOff[p] == old(pgOff[p])
      ensures OnlyPages(old(mem[..]), mem[..], srcPg, pgRes)
      ensures fail ==> stop
      ensures SameSpan(m0, mem[..], pgRes, 0, da)
      ensures !stop ==>
        srcOff < next <= PAGE_SIZE && da <= pgOff[pgRes] && SameSpan(m0, mem[..], srcPg, next, PAGE_SIZE)
        && CompactRun(m0, mem[..], srcPg, pgRes, skipId, PG_HDR_SIZE, da, next, pgOff[pgRes])
      ensures stop && !fail ==> Compacted(m0, mem[..], srcPg, pgRes, skipId, PG_HDR_SIZE, da, pgOff[pgRes])
      ensures PgHdrAt(mem[..], srcPg) == PgHdrAt(old(mem[..]), srcPg)
    {
      ghost var m1, db := mem[..], pgOff[pgRes];
      ghost var v := CompactVisit(m1, srcPg, srcOff, db, skipId);
      next, stop, fail := CompactStep(srcPg, srcOff, skipId);
      PrefixPgHdr(m1, mem[..], srcPg, srcOff);
      SpanTrans(m0, m1, mem[..], pgRes, 0, da, 0, db, 0, da);
      if !fail {
        if stop {
          assert v.EndOfPage? && mem[..] == m1 && pgOff[pgRes] == db;
          VisitSpan(m0, m1, srcPg, srcOff, db, skipId);
          RunClose(m0, m1, srcPg, pgRes, skipId, PG_HDR_SIZE, da, srcOff, db);
        } else {
          assert next == v.next;
          RunStep(m0, m1, mem[..], srcPg, pgRes, skipId, srcOff, da, db, pgOff[pgRes]);
        }
      }
    }

    /** COMPACT_PAGE_CLEANUP: the reserve page, now holding the compacted items, is marked
        active, the compacted page is erased and becomes the reserve page. */
    method CompactCleanup(pg: nat)
      requires Valid() && pg < PAGES_USED && pgRes < PAGES_USED && pg != pgRes
      modifies this, mem
      ensures Valid() && pgRes == pg && Blank(mem[..], pgOff, pgLost, pg)
      ensures PgHdrAt(mem[..], old(pgRes)).active == ZEROED_ID
      ensures pgOff == old(pgOff)[pg := PG_HDR_SIZE] && pgLost == old(pgLost)[pg := 0]
      ensures OnlyPages(old(mem[..]), mem[..], pg, old(pgRes))
      ensures PageImage(mem[..], old(pgRes))[PG_HDR_SIZE..] == PageImage(old(mem[..]), old(pgRes))[PG_HDR_SIZE..]
      ensures hotPg == old(hotPg) && hotOff == old(hotOff)
    {
      var res := pgRes;
      ghost var m0 := mem[..];
      ActivatePage(mem, res);
      ghost var m1 := mem[..];
      pgRes := pg;
      ErasePage(pg);
      ActivateThenErase(m0, m1, mem[..], res, pg);
    }

    /** The loop of compactPage: the items of `srcPg` are visited in order and each one to
        keep is copied to the reserve page, until the page ends or a copy fails. Only the
        reserve page's cursor changes. */
    method CompactItems(srcPg: nat, skipId: u16) returns (ok: bool)
      requires Valid() && srcPg < PAGES_USED && pgRes < PAGES_USED && srcPg != pgRes
      requires OffOk(pgOff[pgRes])
      modifies this, mem
      ensures Valid() && pgRes == old(pgRes) && OffOk(pgOff[pgRes]) && pgLost == old(pgLost)
      ensures forall p :: 0 <= p < PAGES_USED && p != pgRes ==> pgOff[p] == old(pgOff[p])
      ensures OnlyPages(old(mem[..]), mem[..], srcPg, pgRes)
      ensures SameSpan(old(mem[..]), mem[..], pgRes, 0, old(pgOff[pgRes]))
      ensures ok ==> Compacted(old(mem[..]), mem[..], srcPg, pgRes, skipId, PG_HDR_SIZE, old(pgOff[pgRes]), pgOff[pgRes])
      ensures PgHdrAt(mem[..], srcPg) == PgHdrAt(old(mem[..]), srcPg)
    {
      ghost var m0, o0, l0 := mem[..], pgOff, pgLost;
      ghost var da := pgOff[pgRes];
      var srcOff: nat := PG_HDR_SIZE;
      ok := true;
      ghost var fin := false;
      while srcOff < PAGE_SIZE - HDR_SIZE
        invariant Valid() && pgRes == old(pgRes) && PG_HDR_SIZE <= srcOff <= PAGE_SIZE
        invariant OffOk(pgOff[pgRes]) && pgLost == l0 && ok && !fin && da <= pgOff[pgRes]
        invariant forall p :: 0 <= p < PAGES_USED && p != pgRes ==> pgOff[p] == o0[p]
        invariant OnlyPages(m0, mem[..], srcPg, pgRes)
        invariant SameSpan(m0, mem[..], srcPg, srcOff, PAGE_SIZE) && SameSpan(m0, mem[..], pgRes, 0, da)
        invariant CompactRun(m0, mem[..], srcPg, pgRes, skipId, PG_HDR_SIZE, da, srcOff, pgOff[pgRes])
        invariant PgHdrAt(mem[..], srcPg) == PgHdrAt(m0, srcPg)
        decreases PAGE_SIZE - srcOff
      {
        ghost var m1 := mem[..];
        var next, stop, fail := CompactNext(srcPg, srcOff, skipId, m0, da);
        OnlyPagesTrans(m0, m1, mem[..], srcPg, pgRes);
        if fail {
          ok, fin := false, true;
          break;
        }
        if stop {
          fin := true;
          break;
        }
        srcOff := next;
      }
      if !fin {
        RunClose(m0, mem[..], srcPg, pgRes, skipId, PG_HDR_SIZE, da, srcOff, pgOff[pgRes]);
      }
    }

    /** compactPage: copies every live item of `srcPg` with a good checksum, except
        `skipId`, to the reserve page. When a copy fails the reserve page is erased again
        and stays the reserve. Otherwise, when no item was skipped, the compaction is
        finished at once: the reserve page becomes active and the erased source page the
        new reserve; with an item skipped the caller finishes it. Only the two pages
        change. */
    method CompactPage(srcPg: nat, skipId: u16) returns (ok: bool)
      requires Valid() && srcPg < PAGES_USED && pgRes < PAGES_USED && srcPg != pgRes
      requires OffOk(pgOff[pgRes])
      modifies this, mem
      ensures Valid() && pgRes < PAGES_USED
      ensures OnlyPages(old(mem[..]), mem[..], srcPg, old(pgRes))
      ensures forall p :: 0 <= p < PAGES_USED && p != srcPg && p != old(pgRes) ==>
        pgOff[p] == old(pgOff[p]) && pgLost[p] == old(pgLost[p])
      ensures OffOk(pgOff[old(pgRes)]) && (OffOk(old(pgOff[srcPg])) ==> OffOk(pgOff[srcPg]))
      ensures !ok ==> pgRes == old(pgRes) && Blank(mem[..], pgOff, pgLost, pgRes)
      ensures ok && skipId == ITEM_NULL ==> (pgRes == srcPg && Blank(mem[..], pgOff, pgLost, srcPg)
        && PgHdrAt(mem[..], old(pgRes)).active == ZEROED_ID)
      ensures ok && skipId != ITEM_NULL ==> pgRes == old(pgRes) && pgOff[srcPg] == old(pgOff[srcPg])
      ensures ok ==> Compacted(old(mem[..]), mem[..], srcPg, old(pgRes), skipId, PG_HDR_SIZE,
                               old(pgOff)[old(pgRes)], pgOff[old(pgRes)])
      ensures !ok || skipId != ITEM_NULL ==> PgHdrAt(mem[..], srcPg) == PgHdrAt(old(mem[..]), srcPg)
      ensures OneReserve(old(mem[..]), old(pgRes)) ==> OneReserve(mem[..], pgRes)
    {
      ghost var m0, res, da := mem[..], pgRes, pgOff[pgRes];
      ok := CompactItems(srcPg, skipId);
      ghost var m2, db := mem[..], pgOff[pgRes];
      if !ok {
        ErasePage(pgRes);
        OnlyPagesTrans(m0, m2, mem[..], srcPg, pgRes);
        PgHdrOfImage(m2, mem[..], srcPg);
      } else if skipId == ITEM_NULL {
        CompactCleanup(srcPg);
        OnlyPagesTrans(m0, m2, mem[..], srcPg, old(pgRes));
        CompactedBounds(m0, m2, srcPg, res, skipId, PG_HDR_SIZE, da, db);
        SliceSpan(m2, mem[..], res, da, db);
        CompactedFrame(m0, m2, mem[..], srcPg, res, skipId, PG_HDR_SIZE, da, db);
      }
      if OneReserve(m0, res) {
        ReserveMoved(m0, mem[..], srcPg, res, pgRes);
      }
    }

    /** The compaction branch of initItem for the page `pg` it chose, on which the item
        fits only once the lost space is reclaimed: the page is marked as in transfer and
        compacted onto the reserve page, leaving out any old copy of `id`; the item is then
        written last on what was the reserve page. With `flag` (osal_nv_item_init) the
        compacted page is cleaned up at once; without it (osal_nv_write) it is handed back in
        `comPg` for the caller to clean up. A failed compaction leaves the erased reserve
        page and no item. The item is written only when it fits after the compaction. */
    method CompactFor(pg: nat, flag: bool, id: u16, len: u16, buf: Option<seq<byte>>)
      returns (rtrn: nat, comPg: nat, ghost ok: bool, ghost end: nat)
      requires Directory() && pgRes < PAGES_USED && pg < PAGES_USED && pg != pgRes && id != ITEM_NULL
      requires buf.Some? ==> len <= |buf.value|
      modifies this, mem
      ensures Directory() && pgRes < PAGES_USED && (rtrn == PAGE_NULL || rtrn == old(pgRes))
      ensures flag ==> comPg == PAGE_NULL
      ensures comPg == PAGE_NULL ==> Blank(mem[..], pgOff, pgLost, pgRes)
      ensures comPg != PAGE_NULL ==> comPg == pg && pgRes == old(pgRes)
      ensures comPg == PAGE_NULL && rtrn < PAGES_USED ==> rtrn != pgRes
      ensures !flag ==> pgRes == old(pgRes)
      ensures LandedAt(mem[..], pgOff, rtrn, id, len, buf, flag)
      ensures OnlyPages(old(mem[..]), mem[..], pg, old(pgRes))
      ensures forall p :: 0 <= p < PAGES_USED && p != pg && p != old(pgRes) ==>
        pgOff[p] == old(pgOff)[p] && pgLost[p] == old(pgLost)[p]
      ensures !ok ==> (rtrn == PAGE_NULL && comPg == PAGE_NULL && pgRes == old(pgRes)
        && PgHdrAt(mem[..], pg).xfer == ZEROED_ID)
      ensures ok && flag ==> pgRes == pg && PgHdrAt(mem[..], old(pgRes)).active == ZEROED_ID
      ensures ok && !flag ==> comPg == pg
      ensures ok ==> Compacted(old(mem[..]), mem[..], pg, old(pgRes), id, PG_HDR_SIZE, old(pgOff)[old(pgRes)], end)
      ensures rtrn != PAGE_NULL ==> pgOff[rtrn] == end + ItemSize(len)
    {
      ghost var m0, res, da := mem[..], pgRes, pgOff[pgRes];
      MarkXfer(pg);
      ghost var m1, o0 := mem[..], pgOff;
      var done := CompactPage(pg, id);
      ghost var m2 := mem[..];
      end := pgOff[res];
      DirOkFrame(o0, pgOff, pg, old(pgRes));
      OnlyPagesTrans(m0, m1, m2, pg, res);
      rtrn, comPg, ok := PAGE_NULL, PAGE_NULL, done;
      if done {
        rtrn, comPg := FinishFor(pg, flag, id, len, buf);
        OnlyPagesTrans(m0, m2, mem[..], pg, res);
        CompactedBounds(m1, m2, pg, res, id, PG_HDR_SIZE, da, end);
        SpanSub(m2, mem[..], res, PG_HDR_SIZE, end, da, end);
        CompactedFrame(m1, m2, mem[..], pg, res, id, PG_HDR_SIZE, da, end);
        CompactedSource(m0, m1, mem[..], pg, res, id, PG_HDR_SIZE, da, end);
      }
    }

    /** initItem after a successful compaction of `pg`: the item is written to the reserve
        page, then the compacted page is cleaned up (with `flag`) or handed back. */
    method FinishFor(pg: nat, flag: bool, id: u16, len: u16, buf: Option<seq<byte>>) returns (rtrn: nat, comPg: nat)
      requires Directory() && pgRes < PAGES_USED && pg < PAGES_USED && pg != pgRes
      requires buf.Some? ==> len <= |buf.value|
      modifies this, mem
      ensures Directory() && pgRes < PAGES_USED && (rtrn == PAGE_NULL || rtrn == old(pgRes))
      ensures flag ==> (comPg == PAGE_NULL && pgRes == pg && Blank(mem[..], pgOff, pgLost, pgRes)
        && PgHdrAt(mem[..], old(pgRes)).active == ZEROED_ID)
      ensures !flag ==> comPg == pg && pgRes == old(pgRes)
      ensures LandedAt(mem[..], pgOff, rtrn, id, len, buf, flag)
      ensures OnlyPages(old(mem[..]), mem[..], pg, old(pgRes))
      ensures SameSpan(old(mem[..]), mem[..], old(pgRes), PG_HDR_SIZE, old(pgOff)[old(pgRes)])
      ensures forall p :: 0 <= p < PAGES_USED && p != pg && p != old(pgRes) ==>
        pgOff[p] == old(pgOff)[p] && pgLost[p] == old(pgLost)[p]
      ensures rtrn != PAGE_NULL ==> pgOff[rtrn] == old(pgOff)[rtrn] + ItemSize(len)
    {
      ghost var m0, res := mem[..], pgRes;
      rtrn := WriteCompacted(id, len, buf, flag);
      ghost var m1 := mem[..];
      comPg := PAGE_NULL;
      if !flag {
        comPg := pg;
        SpanSub(m0, mem[..], res, 0, old(pgOff)[res], PG_HDR_SIZE, old(pgOff)[res]);
      } else {
        CleanupFor(pg, id, len, buf, flag, rtrn);
        SpanTrans(m0, m1, mem[..], res, 0, old(pgOff)[res], PG_HDR_SIZE, PAGE_SIZE, PG_HDR_SIZE, old(pgOff)[res]);
        OnlyPagesTrans(m0, m1, mem[..], pg, res);
      }
    }

    /** markPage(pg, OSAL_NV_PG_XFER): the page header records that the page is being
        compacted; no other page and none of the directory changes. */
    method MarkXfer(pg: nat)
      requires Valid() && pg < PAGES_USED
      modifies mem
      ensures PgHdrAt(mem[..], pg).xfer == ZEROED_ID && OnlyPage(old(mem[..]), mem[..], pg)
      ensures Within(old(mem[..]), mem[..], pg, 0, PG_HDR_SIZE)
    {
      PageBaseBound(pg);
      StoreOnPage(mem[..], pg, PageBase(pg) + PG_XFER, FieldWord(ZEROED_ID));
      StoreWithinSpan(mem[..], pg, PG_XFER, FieldWord(ZEROED_ID), 0, PG_HDR_SIZE);
      MarkPage(mem, pg, PG_XFER);
    }

    /** The clean-up of osal_nv_item_init's compaction: the compacted page `pg` becomes the
        erased reserve page, and the item written to the old reserve page stays there. */
    method CleanupFor(pg: nat, id: u16, len: u16, buf: Option<seq<byte>>, flag: bool, rtrn: nat)
      requires Directory() && pgRes < PAGES_USED && pg < PAGES_USED && pg != pgRes
      requires buf.Some? ==> len <= |buf.value|
      requires (rtrn == PAGE_NULL || rtrn == pgRes) && LandedAt(mem[..], pgOff, rtrn, id, len, buf, flag)
      modifies this, mem
      ensures Directory() && pgRes == pg && Blank(mem[..], pgOff, pgLost, pgRes)
      ensures PgHdrAt(mem[..], old(pgRes)).active == ZEROED_ID
      ensures LandedAt(mem[..], pgOff, rtrn, id, len, buf, flag)
      ensures OnlyPages(old(mem[..]), mem[..], pg, old(pgRes))
      ensures SameSpan(old(mem[..]), mem[..], old(pgRes), PG_HDR_SIZE, PAGE_SIZE)
      ensures pgOff == old(pgOff)[pg := PG_HDR_SIZE] && pgLost == old(pgLost)[pg := 0]
    {
      ghost var o2, m2, r2 := pgOff, mem[..], pgRes;
      CompactCleanup(pg);
      DirOkSet(o2, pg, PG_HDR_SIZE);
      LandedAtFrame(m2, mem[..], o2, pgOff, rtrn, id, len, buf, flag);
      SliceSpan(m2, mem[..], r2, PG_HDR_SIZE, PAGE_SIZE);
    }

    /** The write of initItem's compaction branch, once a page has been compacted onto the
        reserve page: the item goes after the compacted items when it fits there. */
    method WriteCompacted(id: u16, len: u16, buf: Option<seq<byte>>, flag: bool) returns (rtrn: nat)
      requires Directory() && pgRes < PAGES_USED
      requires buf.Some? ==> len <= |buf.value|
      modifies this, mem
      ensures Directory() && (rtrn == PAGE_NULL || rtrn == pgRes) && pgRes == old(pgRes)
      ensures LandedAt(mem[..], pgOff, rtrn, id, len, buf, flag)
      ensures OnlyPage(old(mem[..]), mem[..], pgRes) && SameSpan(old(mem[..]), mem[..], pgRes, 0, old(pgOff[pgRes]))
      ensures forall p :: 0 <= p < PAGES_USED && p != pgRes ==> pgOff[p] == old(pgOff[p])
      ensures pgLost == old(pgLost)
      ensures rtrn != PAGE_NULL ==> pgOff[pgRes] == old(pgOff[pgRes]) + ItemSize(len)
    {
      rtrn := PAGE_NULL;
      var hdrOff := pgOff[pgRes];
      if hdrOff + ItemSize(len) <= PAGE_SIZE {
        ghost var o1 := pgOff;
        ghost var m1 := mem[..];
        var wok := WriteItem(pgRes, id, len, buf, flag);
        assert Within(m1, mem[..], pgRes, hdrOff, hdrOff + ItemSize(len));
        AdvanceOk(hdrOff, len);
        DirOkSet(o1, pgRes, hdrOff + ItemSize(len));
        if wok {
          rtrn := pgRes;
          WrittenLandedAt(m1, mem[..], pgOff, pgRes, hdrOff, id, len, buf, flag, wok);
        }
      }
    }

    /** The direct branch of initItem: the item fits in the free space of the page `pg`
        it chose and is written there; `rtrn` is that page when writeItem succeeded. */
    method WriteFor(pg: nat, flag: bool, id: u16, len: u16, buf: Option<seq<byte>>) returns (rtrn: nat)
      requires Ready() && pg < PAGES_USED && pg != pgRes && pgOff[pg] + ItemSize(len) <= PAGE_SIZE
      requires buf.Some? ==> len <= |buf.value|
      modifies this, mem
      ensures Ready() && (rtrn == pg || rtrn == PAGE_NULL) && pgRes == old(pgRes)
      ensures pgOff == old(pgOff)[pg := old(pgOff[pg]) + ItemSize(len)] && pgLost == old(pgLost)
      ensures LandedAt(mem[..], pgOff, rtrn, id, len, buf, flag)
      ensures Within(old(mem[..]), mem[..], pg, old(pgOff[pg]), old(pgOff[pg]) + ItemSize(len))
    {
      ghost var m0 := mem[..];
      var hdrOff := pgOff[pg];
      var ok := WriteItem(pg, id, len, buf, flag);
      AdvanceOk(hdrOff, len);
      rtrn := PAGE_NULL;
      if ok {
        rtrn := pg;
        WrittenLandedAt(m0, mem[..], pgOff, pg, hdrOff, id, len, buf, flag, ok);
      }
    }

    /** initItem: picks the first page after the reserve page, in wear order, on which the
        item fits in free plus lost space; writes it there when it fits in the free space
        (`WriteFor`), and otherwise compacts that page first (`CompactFor`). `rtrn` is the
        page the item went to, or PAGE_NULL when no page has room or the write failed. */
    method InitItem(flag: bool, id: u16, len: u16, buf: Option<seq<byte>>) returns (rtrn: nat, comPg: nat)
      requires Ready() && id != ITEM_NULL
      requires buf.Some? ==> len <= |buf.value|
      modifies this, mem
      ensures Directory() && pgRes < PAGES_USED && rtrn <= PAGE_NULL
      ensures flag ==> comPg == PAGE_NULL
      ensures comPg == PAGE_NULL ==> Ready()
      ensures comPg != PAGE_NULL ==> comPg < PAGES_USED && comPg != pgRes && pgRes == old(pgRes)
      ensures comPg == PAGE_NULL && rtrn < PAGES_USED ==> rtrn != pgRes
      ensures comPg != PAGE_NULL ==> rtrn == PAGE_NULL || rtrn == pgRes
      ensures !flag ==> pgRes == old(pgRes)
      ensures InitItemDone(old(mem[..]), old(pgOff), old(pgLost), old(pgRes), mem[..], pgOff, pgLost, pgRes,
                           flag, id, len, rtrn, comPg)
      ensures LandedAt(mem[..], pgOff, rtrn, id, len, buf, flag)
      ensures rtrn < PAGES_USED ==> PG_HDR_SIZE + ItemSize(len) <= pgOff[rtrn]
    {
      ghost var m0, o0, l0, r0 := mem[..], pgOff, pgLost, pgRes;
      rtrn, comPg := PAGE_NULL, PAGE_NULL;
      var sz := ItemSize(len);
      var pg, found := FindRoom(pgOff, pgLost, pgRes, sz);
      if found {
        FirstFitSound(pgOff, pgLost, pgRes, sz, 0);
        if sz > PAGE_SIZE - pgOff[pg] {
          ghost var ok, end;
          rtrn, comPg, ok, end := CompactFor(pg, flag, id, len, buf);
          InitItemCompacted(m0, o0, l0, r0, mem[..], pgOff, pgLost, pgRes, pg, flag, id, len, rtrn, comPg, ok, end);
        } else {
          rtrn := WriteFor(pg, flag, id, len, buf);
          InitItemDirect(m0, o0, l0, r0, mem[..], pg, flag, id, len, rtrn);
        }
      } else {
        InitItemNone(m0, o0, l0, r0, flag, id, len);
      }
    }

    // -------------------------------------------------------------- the osal_nv_* API

    /** The lookup of osal_nv_item_len and osal_nv_read: a hot id's filled cache entry,
        otherwise findItem. `off` is 0 when the item is not found. */
    method Locate(id: u16) returns (off: u16, pg: nat)
      requires Valid() && id != ITEM_NULL
      modifies this
      ensures Valid() && pgRes == old(pgRes) && hotPg == old(hotPg) && hotOff == old(hotOff)
      ensures DirKept(mem[..], old(pgOff), old(pgLost), mem[..], pgOff, pgLost)
      ensures match Where(hotPg, hotOff, mem[..], id)
        case Some(loc) => pg == loc.0 && off == loc.1
        case None => off == 0
    {
      var hotIdx := LookupHot(id);
      if hotIdx < MAX_HOT && hotPg[hotIdx] < PAGES_USED && PG_HDR_SIZE + HDR_SIZE <= hotOff[hotIdx] <= PAGE_SIZE {
        pg, off := hotPg[hotIdx], hotOff[hotIdx];
      } else {
        off, pg := FindItem(id);
      }
    }

    /** osal_nv_item_len: the length in the header of the item found, or 0. */
    method OsalNvItemLen(id: u16) returns (len: u16)
      requires Valid() && id != ITEM_NULL
      modifies this
      ensures Valid() && pgRes == old(pgRes) && hotPg == old(hotPg) && hotOff == old(hotOff)
      ensures DirKept(mem[..], old(pgOff), old(pgLost), mem[..], pgOff, pgLost)
      ensures len == StoredLen(hotPg, hotOff, mem[..], id)
    {
      var off, pg := Locate(id);
      if off == 0 {
        return 0;
      }
      PageBaseBound(pg);
      var h := ReadHdr(mem, pg, off - HDR_SIZE);
      HdrAtFields(mem[..], pg, off - HDR_SIZE);
      len := h.len;
    }

    /** osal_nv_read: `len` bytes of item `id` from byte `ndx` of its data, when the item
        is found and the bytes lie inside the NV area. */
    method OsalNvRead(id: u16, ndx: u16, len: u16) returns (st: Status, data: seq<byte>)
      requires Valid() && id != ITEM_NULL
      modifies this
      ensures Valid() && pgRes == old(pgRes) && hotPg == old(hotPg) && hotOff == old(hotOff)
      ensures DirKept(mem[..], old(pgOff), old(pgLost), mem[..], pgOff, pgLost)
      ensures match Where(hotPg, hotOff, mem[..], id)
        case None => st == OperFailed
        case Some(loc) =>
          (st == Success <==> PageBase(loc.0) + loc.1 + ndx + len <= NV_SIZE)
          && (st == OperFailed <==> PageBase(loc.0) + loc.1 + ndx + len > NV_SIZE)
          && (st == Success ==> data == mem[PageBase(loc.0) + loc.1 + ndx..PageBase(loc.0) + loc.1 + ndx + len])
    {
      data := [];
      var off, pg := Locate(id);
      if off == 0 {
        return OperFailed, data;
      }
      var addr := PageBase(pg) + off + ndx;
      if addr + len > NV_SIZE {
        return OperFailed, data;
      }
      data := CopyOut(mem, addr, len);
      st := Success;
    }

    /** osal_nv_item_init: a hot id is refused; an item already there only has its cache
        entry refreshed; otherwise the item is created with initItem. The ghost `at` is the
        page the new item went to, and PAGE_NULL both when the item was already there
        (Success) and when it could not be created (OperFailed). The ghost `o1` and `l1`
        are the cursors and lost counts after the lookup remeasured the pages it walked;
        initItem's placement is stated from them. */
    method OsalNvItemInit(id: u16, len: u16, buf: Option<seq<byte>>)
      returns (st: Status, ghost at: nat, ghost o1: seq<u16>, ghost l1: seq<u16>)
      requires Ready() && id != ITEM_NULL && (buf.Some? ==> len <= |buf.value|)
      modifies this, mem
      ensures Ready()
      ensures HotItem(id) < MAX_HOT ==>
        st == OperFailed && mem[..] == old(mem[..]) && pgOff == old(pgOff) && pgLost == old(pgLost) && pgRes == old(pgRes)
        && hotPg == old(hotPg) && hotOff == old(hotOff)
      ensures HotItem(id) == MAX_HOT ==> ItemInitDone(old(mem[..]), mem[..], pgOff, id, len, buf, st, at)
      ensures |o1| == PAGES_USED && |l1| == PAGES_USED
      ensures HotItem(id) == MAX_HOT && Find(old(mem[..]), id).None? ==>
        o1 == Remeasured(old(mem[..]), old(pgOff), Reach(old(mem[..]), id), false)
        && l1 == Remeasured(old(mem[..]), old(pgLost), Reach(old(mem[..]), id), true)
        && InitItemDone(old(mem[..]), o1, l1, old(pgRes), mem[..], pgOff, pgLost, pgRes, true, id, len, at, PAGE_NULL)
    {
      at, o1, l1 := PAGE_NULL, pgOff, pgLost;
      var hotIdx := LookupHot(id);
      if hotIdx < MAX_HOT {
        return OperFailed, at, o1, l1;
      }
      ghost var m0, o0, l0 := mem[..], pgOff, pgLost;
      var offset, findPg := FindItem(id);
      ReadyKept(m0, o0, l0, mem[..], pgOff, pgLost, pgRes);
      o1, l1 := pgOff, pgLost;
      if offset != 0 {
        HotItemUpdate(findPg, offset, id);
        return Success, at, o1, l1;
      }
      var rtrn, comPg := InitItem(true, id, len, buf);
      at := rtrn;
      st := if rtrn != PAGE_NULL then ItemUninit else OperFailed;
    }

    /** osal_nv_delete: the item found is zeroed when `len` is its length, and looked up
        again to confirm it is gone. */
    method OsalNvDelete(id: u16, len: u16) returns (st: Status)
      requires Ready() && id != ITEM_NULL
      modifies this, mem
      ensures Ready() && pgRes == old(pgRes) && hotPg == old(hotPg) && hotOff == old(hotOff)
      ensures Deleted(old(mem[..]), mem[..], hotPg, hotOff, id, len, st)
    {
      ghost var m0 := mem[..];
      var o, l := pgOff, pgLost;
      var offset, findPg := FindItem(id);
      ReadyKept(m0, o, l, mem[..], pgOff, pgLost, pgRes);
      if offset == 0 {
        DeleteMissing(m0, hotPg, hotOff, id, len);
        return ItemUninit;
      }
      o, l := pgOff, pgLost;
      var length := OsalNvItemLen(id);
      ReadyKept(m0, o, l, mem[..], pgOff, pgLost, pgRes);
      if length != len {
        DeleteBadLen(m0, hotPg, hotOff, id, len);
        return BadItemLen;
      }
      FindLive(m0, id, findPg, offset);
      st := DeleteFound(id, findPg, offset);
      DeleteZeroed(m0, mem[..], hotPg, hotOff, id, len, findPg, offset, st);
    }

    /** The end of osal_nv_delete once the item was found with its data at `offset` on
        `findPg`: the item is zeroed and looked up again, which fails when a copy is still
        found. */
    method DeleteFound(id: u16, findPg: nat, offset: nat) returns (st: Status)
      requires Ready() && id != ITEM_NULL && Find(mem[..], id) == Some((findPg, offset))
      requires findPg < PAGES_USED && HDR_SIZE <= offset <= PAGE_SIZE
      requires Field(mem[..], findPg, offset - HDR_SIZE, HDR_ID) != ERASED_ID
      modifies this, mem
      ensures Ready() && pgRes == old(pgRes) && hotPg == old(hotPg) && hotOff == old(hotOff)
      ensures FlagCleared(old(mem[..]), mem[..], findPg, offset - HDR_SIZE, Zero)
      ensures st == if Find(mem[..], id).Some? then OperFailed else Success
    {
      ghost var m0 := mem[..];
      var o, l := pgOff, pgLost;
      SetItem(findPg, offset, Zero);
      ReadyKept(m0, o, l, mem[..], pgOff, pgLost, pgRes);
      ghost var m1 := mem[..];
      o, l := pgOff, pgLost;
      var off, pg := FindItem(id);
      ReadyKept(m1, o, l, mem[..], pgOff, pgLost, pgRes);
      st := if off != 0 then OperFailed else Success;
    }

    /** The copy branch of osal_nv_write, once initItem has reserved a new item of `h.len`
        bytes whose data starts at `dstOff` on `dstPg`: the old copy, whose data starts at
        `srcOff` on `srcPg`, is first marked as in transfer (unless it already is); the new
        data, the old one with `buf` from byte `ndx` on, gets its checksum written into the
        new header; when the checksum read back equals the predicted `chk` the cache entry
        of the header's id follows the new copy. Only the two pages change. */
    method PatchNew(srcPg: nat, srcOff: nat, dstPg: nat, dstOff: nat, ndx: u16, len: u16, h: Hdr,
                    buf: seq<byte>, chk: u16) returns (ok: bool)
      requires Valid() && srcPg < PAGES_USED && dstPg < PAGES_USED
      requires HDR_SIZE <= srcOff && srcOff + DataSize(h.len) <= PAGE_SIZE
      requires HDR_SIZE <= dstOff && dstOff % WORD_SIZE == 0 && dstOff + DataSize(h.len) <= PAGE_SIZE
      requires ndx + len <= h.len && len <= |buf|
      modifies this, mem
      ensures Valid() && pgOff == old(pgOff) && pgLost == old(pgLost) && pgRes == old(pgRes)
      ensures OnlyPages(old(mem[..]), mem[..], srcPg, dstPg)
      ensures CopyPatched(old(mem[..]), mem[..], srcPg, srcOff, dstPg, dstOff, h.len, ndx, buf[..len])
      ensures ChkInPlace(mem[..], dstPg, dstOff, h.len)
      ensures ok <==> Chk16(ItemData(mem[..], dstPg, dstOff - HDR_SIZE, h.len)) == chk
      ensures (Clear(PageBase(srcPg) + srcOff, h.len, PageBase(dstPg) + dstOff, DataSize(h.len))
               && Predicted(old(mem[..]), srcPg, srcOff, h.len, ndx, buf[..len], h.chk, chk)) ==> ok
      ensures ok && HotItem(Field(mem[..], dstPg, dstOff - HDR_SIZE, HDR_ID)) < MAX_HOT ==>
        hotPg == old(hotPg)[HotItem(Field(mem[..], dstPg, dstOff - HDR_SIZE, HDR_ID)) := dstPg]
        && hotOff == old(hotOff)[HotItem(Field(mem[..], dstPg, dstOff - HDR_SIZE, HDR_ID)) := dstOff as u16]
      ensures !ok || HotItem(Field(mem[..], dstPg, dstOff - HDR_SIZE, HDR_ID)) == MAX_HOT ==>
        hotPg == old(hotPg) && hotOff == old(hotOff)
    {
      ghost var m0 := mem[..];
      MarkSource(srcPg, srcOff, h);
      ghost var m1 := mem[..];
      var h2 := PatchFlash(mem, srcPg, srcOff, dstPg, dstOff, ndx, len, h.len, buf);
      CopyPatchedFrom(m0, m1, mem[..], srcPg, srcOff, dstPg, dstOff, h.len, ndx, buf[..len]);
      OnlyPagesOfTwo(m0, m1, mem[..], srcPg, dstPg);
      if Clear(PageBase(srcPg) + srcOff, h.len, PageBase(dstPg) + dstOff, DataSize(h.len))
        && Predicted(m0, srcPg, srcOff, h.len, ndx, buf[..len], h.chk, chk)
      {
        CheckPasses(m0, mem[..], srcPg, srcOff, dstPg, dstOff, h.len, ndx, buf[..len], h.chk, chk);
      }
      ok := chk == h2.chk;
      ghost var m2 := mem[..];
      if ok {
        HotItemUpdate(dstPg, dstOff as u16, h2.id);
      }
      assert mem[..] == m2;
    }

    /** The first step of osal_nv_write's copy branch: an old copy whose stat flag is still
        erased is marked as in transfer, which leaves its data and every other page as they
        were. */
    method MarkSource(srcPg: nat, srcOff: nat, h: Hdr)
      requires Valid() && srcPg < PAGES_USED && HDR_SIZE <= srcOff && srcOff + DataSize(h.len) <= PAGE_SIZE
      modifies this, mem
      ensures Valid() && pgOff == old(pgOff) && pgLost == old(pgLost) && pgRes == old(pgRes)
      ensures hotPg == old(hotPg) && hotOff == old(hotOff)
      ensures OnlyPage(old(mem[..]), mem[..], srcPg)
      ensures mem[PageBase(srcPg) + srcOff..PageBase(srcPg) + srcOff + h.len]
        == old(mem[PageBase(srcPg) + srcOff..PageBase(srcPg) + srcOff + h.len])
      ensures h.stat != ERASED_ID ==> mem[..] == old(mem[..])
      ensures h.stat == ERASED_ID ==> FlagCleared(old(mem[..]), mem[..], srcPg, srcOff - HDR_SIZE, Xfer)
    {
      PageBaseBound(srcPg);
      if h.stat == ERASED_ID {
        ghost var m0 := mem[..];
        SetItem(srcPg, srcOff, Xfer);
        XferKeepsData(m0, mem[..], srcPg, srcOff, h.len);
      }
    }

    /** The branch of osal_nv_write for a buffer that differs from the item's bytes: a new
        copy of the item (`h` is its old header, its data at `origOff` on `srcPg`) is
        reserved with initItem and filled from the old one and the buffer (`CopyFor`);
        then the page initItem compacted, if any, is cleaned up and the old copy zeroed
        (`Settle`). */
    method Rewrite(id: u16, ndx: u16, len: u16, buf: seq<byte>, srcPg: nat, origOff: nat, h: Hdr, chk: u16)
      returns (st: Status)
      requires Ready() && id != ITEM_NULL && srcPg < PAGES_USED && srcPg != pgRes
      requires PG_HDR_SIZE + HDR_SIZE <= origOff && origOff + DataSize(h.len) <= PAGE_SIZE
      requires ndx + len <= h.len && len <= |buf|
      modifies this, mem
      ensures Ready() && (st == Success || st == OperFailed)
      ensures st == Success ==> Retired(mem[..], srcPg, origOff)
    {
      var failed, comPg;
      ghost var mid, dstPg, dstOff;
      failed, comPg, mid, dstPg, dstOff := CopyFor(id, ndx, len, buf, srcPg, origOff, h, chk);
      Settle(srcPg, origOff, comPg, failed);
      st := if failed then OperFailed else Success;
    }

    /** The first half of osal_nv_write's copy branch: initItem without `flag` reserves the
        new copy, which PatchNew fills; `failed` when there was no room or the checksum read
        back is not the predicted one. The reserve page stays, blank unless a page was
        compacted onto it (`comPg`). */
    method CopyFor(id: u16, ndx: u16, len: u16, buf: seq<byte>, srcPg: nat, origOff: nat, h: Hdr, chk: u16)
      returns (failed: bool, comPg: nat, ghost mid: seq<byte>, ghost dstPg: nat, ghost dstOff: nat)
      requires Ready() && id != ITEM_NULL && srcPg < PAGES_USED && srcPg != pgRes
      requires PG_HDR_SIZE + HDR_SIZE <= origOff && origOff + DataSize(h.len) <= PAGE_SIZE
      requires ndx + len <= h.len && len <= |buf|
      modifies this, mem
      ensures Directory() && pgRes == old(pgRes)
      ensures comPg == PAGE_NULL ==> Ready()
      ensures comPg != PAGE_NULL ==> comPg < PAGES_USED && comPg != pgRes
      ensures |mid| == NV_SIZE
      ensures !failed ==>
        dstPg < PAGES_USED && PatchedCopy(mid, mem[..], srcPg, origOff, dstPg, dstOff, h.len, ndx, buf[..len], chk)
    {
      var pg;
      pg, comPg := InitItem(false, id, h.len, None);
      mid, dstPg, dstOff := mem[..], pg, 0;
      failed := true;
      if pg != PAGE_NULL {
        failed, dstOff := PatchLanded(pg, comPg, srcPg, origOff, ndx, len, h, buf, chk);
      }
    }

    /** The patch of osal_nv_write's copy branch once initItem has made room for the new
        copy on page `pg`: the data goes right before the cursor, patched with the buffer,
        and `failed` says its checksum is not the predicted `chk`. A reserve page that was
        blank stays blank. */
    method PatchLanded(pg: nat, comPg: nat, srcPg: nat, origOff: nat, ndx: u16, len: u16, h: Hdr,
                       buf: seq<byte>, chk: u16) returns (failed: bool, ghost dstOff: nat)
      requires Directory() && pgRes < PAGES_USED && pg < PAGES_USED && srcPg < PAGES_USED && srcPg != pgRes
      requires PG_HDR_SIZE + ItemSize(h.len) <= pgOff[pg]
      requires comPg == PAGE_NULL ==> Ready() && pg != pgRes
      requires PG_HDR_SIZE + HDR_SIZE <= origOff && origOff + DataSize(h.len) <= PAGE_SIZE
      requires ndx + len <= h.len && len <= |buf|
      modifies this, mem
      ensures Directory() && pgRes == old(pgRes) && pgOff == old(pgOff) && pgLost == old(pgLost)
      ensures comPg == PAGE_NULL ==> Ready()
      ensures !failed ==> PatchedCopy(old(mem[..]), mem[..], srcPg, origOff, pg, dstOff, h.len, ndx, buf[..len], chk)
    {
      var tmp := DataSize(h.len);
      AlignedDiff(pgOff[pg], tmp);
      var off := pgOff[pg] - tmp;
      dstOff := off;
      ghost var m1, o1, l1 := mem[..], pgOff, pgLost;
      var ok := PatchNew(srcPg, origOff, pg, off, ndx, len, h, buf, chk);
      if comPg == PAGE_NULL {
        BlankElsewhere(m1, o1, l1, mem[..], pgOff, pgLost, srcPg, pg, pgRes);
      }
      failed := !ok;
    }

    /** The second half of osal_nv_write's copy branch: a page compacted for the new copy
        is cleaned up, or, when the new copy was to come from it and failed, the compaction
        is given up by erasing the reserve page again; then the old copy is zeroed unless
        the copy failed or its page was the compacted one. */
    method Settle(srcPg: nat, origOff: nat, comPg: nat, failed: bool)
      requires Directory() && pgRes < PAGES_USED && srcPg < PAGES_USED && srcPg != pgRes
      requires PG_HDR_SIZE + HDR_SIZE <= origOff <= PAGE_SIZE
      requires comPg == PAGE_NULL ==> Blank(mem[..], pgOff, pgLost, pgRes)
      requires comPg != PAGE_NULL ==> comPg < PAGES_USED && comPg != pgRes
      modifies this, mem
      ensures Ready()
      ensures comPg == PAGE_NULL || (srcPg == comPg && failed) ==> pgRes == old(pgRes)
      ensures comPg != PAGE_NULL && !(srcPg == comPg && failed) ==> pgRes == comPg
      ensures !failed ==> Retired(mem[..], srcPg, origOff)
    {
      if comPg != PAGE_NULL {
        ghost var o2 := pgOff;
        if srcPg == comPg && failed {
          ErasePage(pgRes);
          DirOkSet(o2, pgRes, PG_HDR_SIZE);
        } else {
          CompactCleanup(comPg);
          DirOkSet(o2, comPg, PG_HDR_SIZE);
        }
      }
      if srcPg != comPg && !failed {
        ghost var m3, o3, l3 := mem[..], pgOff, pgLost;
        SetItem(srcPg, origOff, Zero);
        BlankElsewhere(m3, o3, l3, mem[..], pgOff, pgLost, srcPg, srcPg, pgRes);
      }
    }

    /** osal_nv_write once the item has been found at `srcOff` on `srcPg`: the range check,
        the comparison with the buffer and, when they differ, the rewrite. */
    method WriteFound(id: u16, ndx: u16, len: u16, buf: seq<byte>, srcPg: nat, srcOff: nat) returns (st: Status)
      requires Ready() && id != ITEM_NULL && len <= |buf| && Find(mem[..], id) == Some((srcPg, srcOff))
      requires srcPg < PAGES_USED && srcPg != pgRes && PG_HDR_SIZE + HDR_SIZE <= srcOff
      requires srcOff + DataSize(Field(mem[..], srcPg, srcOff - HDR_SIZE, HDR_LEN)) <= PAGE_SIZE
      modifies this, mem
      ensures Ready() && WriteChecked(old(mem[..]), mem[..], id, ndx, len, buf, st)
    {
      ghost var m0 := mem[..];
      PageBaseBound(srcPg);
      var h := ReadHdr(mem, srcPg, srcOff - HDR_SIZE);
      HdrAtFields(m0, srcPg, srcOff - HDR_SIZE);
      if h.len < ndx + len {
        WriteShort(m0, id, ndx, len, buf, srcPg, srcOff);
        return OperFailed;
      }
      var diff, chk := CompareBuf(mem, PageBase(srcPg) + srcOff + ndx, len, buf, h.chk);
      if diff != 0 {
        st := WriteDiffers(id, ndx, len, buf, srcPg, srcOff, h, chk);
      } else {
        st := Success;
        WriteSame(m0, id, ndx, len, buf, srcPg, srcOff);
      }
    }

    /** osal_nv_write on bytes that differ from the buffer: the item is rewritten. */
    method WriteDiffers(id: u16, ndx: u16, len: u16, buf: seq<byte>, srcPg: nat, srcOff: nat, h: Hdr, chk: u16)
      returns (st: Status)
      requires Ready() && id != ITEM_NULL && len <= |buf| && Find(mem[..], id) == Some((srcPg, srcOff))
      requires srcPg < PAGES_USED && srcPg != pgRes && PG_HDR_SIZE + HDR_SIZE <= srcOff
      requires srcOff + DataSize(h.len) <= PAGE_SIZE && ndx + len <= h.len
      requires h.len == Field(mem[..], srcPg, srcOff - HDR_SIZE, HDR_LEN)
      requires mem[PageBase(srcPg) + srcOff + ndx..PageBase(srcPg) + srcOff + ndx + len] != buf[..len]
      modifies this, mem
      ensures Ready() && WriteChecked(old(mem[..]), mem[..], id, ndx, len, buf, st)
    {
      ghost var m0 := mem[..];
      st := Rewrite(id, ndx, len, buf, srcPg, srcOff, h, chk);
      WriteChanged(m0, mem[..], id, ndx, len, buf, srcPg, srcOff, st);
    }

    /** osal_nv_write: nothing to do for `len` 0; otherwise the item must exist and be long
        enough, and only a buffer that differs from the item's bytes is written, as a new
        copy of the whole item (`Rewrite`). The engine stays ready. */
    method OsalNvWrite(id: u16, ndx: u16, len: u16, buf: seq<byte>) returns (st: Status)
      requires Ready() && id != ITEM_NULL && len <= |buf|
      modifies this, mem
      ensures Ready()
      ensures len == 0 ==>
        st == Success && mem[..] == old(mem[..]) && pgOff == old(pgOff) && pgLost == old(pgLost)
        && pgRes == old(pgRes) && hotPg == old(hotPg) && hotOff == old(hotOff)
      ensures len != 0 ==> WriteChecked(old(mem[..]), mem[..], id, ndx, len, buf, st)
    {
      if len == 0 {
        return Success;
      }
      ghost var m0, o0, l0 := mem[..], pgOff, pgLost;
      var srcOff, srcPg := FindItem(id);
      assert mem[..] == m0;
      ReadyKept(m0, o0, l0, mem[..], pgOff, pgLost, pgRes);
      if srcOff == 0 {
        WriteMissing(m0, id, ndx, len, buf);
        return ItemUninit;
      }
      FoundBounds(m0, id, srcPg, srcOff);
      FindNotBlank(m0, pgOff, pgLost, pgRes, id);
      st := WriteFound(id, ndx, len, buf, srcPg, srcOff);
    }

    /** The recovery step of initNV after the scan found the reserve page `pgRes` and the
        source `oldPg` of an interrupted compaction: a compaction cut short before its
        target was put in use is redone onto the erased reserve page; one cut short after
        that finishes by erasing its source, which becomes the reserve page; with no
        compaction to recover the reserve page is erased again, in case its erasure was
        cut short. */
    method Recover(oldPg: nat)
      requires Valid() && (oldPg == PAGE_NULL || (oldPg < PAGES_USED && oldPg != pgRes))
      requires OneReserve(mem[..], pgRes)
      modifies this, mem
      ensures Valid() && (pgRes < PAGES_USED ==> Blank(mem[..], pgOff, pgLost, pgRes))
      ensures OneReserve(mem[..], pgRes)
      ensures oldPg == PAGE_NULL ==> pgRes == old(pgRes)
      ensures oldPg != PAGE_NULL && old(pgRes) == PAGE_NULL ==> pgRes == oldPg
      ensures oldPg != PAGE_NULL && old(pgRes) != PAGE_NULL ==> pgRes == oldPg || pgRes == old(pgRes)
    {
      ghost var m0 := mem[..];
      if oldPg != PAGE_NULL {
        if pgRes != PAGE_NULL {
          ErasePage(pgRes);
          ReserveErased(m0, mem[..], pgRes, pgRes);
          var _ := CompactPage(oldPg, ITEM_NULL);
        } else {
          ErasePage(oldPg);
          ReserveErased(m0, mem[..], pgRes, oldPg);
          pgRes := oldPg;
        }
      } else if pgRes != PAGE_NULL {
        ErasePage(pgRes);
        ReserveErased(m0, mem[..], pgRes, pgRes);
      }
    }

    /** The walking loops of initNV: every page is walked by initPage, and an item that
        was transferred but not yet zeroed restarts the walk from the first page looking
        for duplicates; after such a restart a last pass (`RecountPages`) counts the lost
        bytes again. Every cursor ends valid and the reserve page stays blank; every page
        ends settled by its last recovery walk, or pending at a transferred item that walk
        met (only after a restart), and with no restart every page is settled. Only item
        headers change: every page header stays as it was. */
    method InitPasses() returns (ghost restarted: bool)
      requires Valid() && (pgRes < PAGES_USED ==> Blank(mem[..], pgOff, pgLost, pgRes))
      modifies this, mem
      ensures Directory() && pgRes == old(pgRes) && (pgRes < PAGES_USED ==> Blank(mem[..], pgOff, pgLost, pgRes))
      ensures PgHdrsKept(old(mem[..]), mem[..])
      ensures forall p :: 0 <= p < PAGES_USED ==> Settled(mem[..], pgOff, pgLost, p) || Pending(mem[..], p)
      ensures !restarted ==> forall p :: 0 <= p < PAGES_USED ==> Settled(mem[..], pgOff, pgLost, p)
      ensures hotPg == old(hotPg) && hotOff == old(hotOff)
    {
      var findDups := false;
      var pg := 0;
      while pg < PAGES_USED
        invariant Valid() && pg <= PAGES_USED && pgRes == old(pgRes)
        invariant pgRes < PAGES_USED ==> Blank(mem[..], pgOff, pgLost, pgRes)
        invariant forall p :: 0 <= p < pg ==> OffOk(pgOff[p])
        invariant !findDups ==> forall p :: 0 <= p < pg ==> Settled(mem[..], pgOff, pgLost, p)
        invariant PgHdrsKept(old(mem[..]), mem[..])
        invariant hotPg == old(hotPg) && hotOff == old(hotOff)
        decreases if findDups then 0 else 1, PAGES_USED - pg
      {
        ghost var m1, o1, l1 := mem[..], pgOff, pgLost;
        var r := InitPage(pg, findDups);
        if r != ITEM_NULL {
          findDups := true;
          pg := 0;
        } else {
          if !findDups {
            forall p | 0 <= p < pg
              ensures Settled(mem[..], pgOff, pgLost, p)
            {
              WalkedPageKept(m1, mem[..], o1, l1, pgOff, pgLost, p);
            }
          }
          pg := pg + 1;
        }
      }
      restarted := findDups;
      if findDups {
        RecountPages();
      }
    }

    /** initNV's last pass after a restart: every page is walked again by initPage without
        looking for duplicates, to count the lost bytes again. Each page ends settled, or
        pending at a transferred item its walk met; no page header changes. */
    method RecountPages()
      requires Directory() && (pgRes < PAGES_USED ==> Blank(mem[..], pgOff, pgLost, pgRes))
      modifies this, mem
      ensures Directory() && pgRes == old(pgRes) && (pgRes < PAGES_USED ==> Blank(mem[..], pgOff, pgLost, pgRes))
      ensures forall p :: 0 <= p < PAGES_USED ==> Settled(mem[..], pgOff, pgLost, p) || Pending(mem[..], p)
      ensures PgHdrsKept(old(mem[..]), mem[..])
      ensures hotPg == old(hotPg) && hotOff == old(hotOff)
    {
      var pg := 0;
      while pg < PAGES_USED
        invariant Directory() && pg <= PAGES_USED && pgRes == old(pgRes)
        invariant pgRes < PAGES_USED ==> Blank(mem[..], pgOff, pgLost, pgRes)
        invariant forall p :: 0 <= p < pg ==> Settled(mem[..], pgOff, pgLost, p) || Pending(mem[..], p)
        invariant PgHdrsKept(old(mem[..]), mem[..])
        invariant hotPg == old(hotPg) && hotOff == old(hotOff)
      {
        ghost var m1, o1, l1 := mem[..], pgOff, pgLost;
        var _ := InitPage(pg, false);
        forall p | 0 <= p < pg
          ensures Settled(mem[..], pgOff, pgLost, p) || Pending(mem[..], p)
        {
          WalkedPageKept(m1, mem[..], o1, l1, pgOff, pgLost, p);
        }
        pg := pg + 1;
      }
    }

    /** initNV, the whole of osal_nv_init: on the simulator (`sim`) the flash is first
        erased. The scan of the page headers finds the reserve page (`first`) and the
        source of an interrupted compaction (`oldPg`); the compaction is recovered, every
        page is walked, and when there is still no reserve page the page whose items are
        all lost, or else the first one losing most (by the lost counts `lost` of the
        walk), is erased to be the reserve page. The engine is then ready. */
    method InitNV(sim: bool) returns (ghost first: nat, ghost oldPg: nat, ghost lost: seq<u16>)
      requires Valid()
      modifies this, mem
      ensures Ready()
      ensures var m := if sim then Fill(NV_SIZE) else old(mem[..]);
        first == FirstErased(m, PAGES_USED) && oldPg == LastXfer(m, PAGES_USED)
      ensures oldPg == PAGE_NULL && first != PAGE_NULL ==> pgRes == first
      ensures oldPg != PAGE_NULL && first == PAGE_NULL ==> pgRes == oldPg
      ensures oldPg != PAGE_NULL && first != PAGE_NULL ==> pgRes == oldPg || pgRes == first
      ensures oldPg == PAGE_NULL && first == PAGE_NULL ==>
        |lost| == PAGES_USED && pgLost == lost[pgRes := 0] && IsMostLost(lost, pgRes)
      ensures OneReserve(mem[..], pgRes)
      ensures forall p :: 0 <= p < PAGES_USED ==> Settled(mem[..], pgOff, pgLost, p) || Pending(mem[..], p)
      ensures forall p :: 0 <= p < PAGES_USED && !Pending(mem[..], p) ==>
        pgOff[p] == Extent(mem[..], p).off && pgLost[p] <= pgOff[p] - PG_HDR_SIZE
    {
      if sim {
        InitFlash(mem);
      }
      ghost var m0 := mem[..];
      pgRes := PAGE_NULL;
      var x;
      pgRes, x := ScanPages(mem);
      ScanDistinct(m0);
      first, oldPg := pgRes, x;
      Recover(x);
      ghost var m1 := mem[..];
      var _ := InitPasses();
      HdrsKeptReserve(m1, mem[..], pgRes);
      lost := pgLost;
      PickReserve();
    }

    /** The end of initNV: with no reserve page found, the first page whose items are all
        lost, else the first page losing the most, is erased and becomes the reserve. */
    method PickReserve()
      requires Directory() && (pgRes < PAGES_USED ==> Blank(mem[..], pgOff, pgLost, pgRes))
      requires forall p :: 0 <= p < PAGES_USED ==> Settled(mem[..], pgOff, pgLost, p) || Pending(mem[..], p)
      requires OneReserve(mem[..], pgRes)
      modifies this, mem
      ensures Ready() && OneReserve(mem[..], pgRes)
      ensures forall p :: 0 <= p < PAGES_USED ==> Settled(mem[..], pgOff, pgLost, p) || Pending(mem[..], p)
      ensures old(pgRes) != PAGE_NULL ==> pgRes == old(pgRes)
      ensures old(pgRes) == PAGE_NULL ==>
        pgLost == old(pgLost)[pgRes := 0] && IsMostLost(old(pgLost), pgRes)
    {
      if pgRes == PAGE_NULL {
        var mostLost := MostLost(pgLost);
        pgRes := mostLost;
        ghost var m0, o, l := mem[..], pgOff, pgLost;
        ErasePage(pgRes);
        ReserveErased(m0, mem[..], PAGE_NULL, pgRes);
        DirOkSet(o, pgRes, PG_HDR_SIZE as u16);
        ErasedWalks(mem[..], pgRes);
        forall p | 0 <= p < PAGES_USED && p != pgRes
          ensures Settled(mem[..], pgOff, pgLost, p) || Pending(mem[..], p)
        {
          WalkedPageKept(m0, mem[..], o, l, pgOff, pgLost, p);
        }
      }
    }
  }
}
