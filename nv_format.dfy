/** On-flash format of the OSAL NV engine (OSAL_Nv.c): constants, the item size macros,
    the little-endian item and page headers, the data checksum, and the lookup walk over a
    page's item chain. Everything here is a pure function of a memory image `m` of the whole
    NV area (`|m| == NV_SIZE`), addressed as (page, offset). */
module NvFormat {
  import opened FlashUtil

  type u16 = x: int | 0 <= x < 0x10000

  datatype Option<T> = None | Some(value: T)

  // One OSAL page per physical flash page (OSAL_NV_PHY_PER_PG is 1).
  const PAGES_USED: nat := HAL_NV_PAGE_CNT
  const PAGE_SIZE: nat := HAL_FLASH_PAGE_SIZE
  const WORD_SIZE: nat := 4

  const ACTIVE: u16 := 0x00
  const ERASED_ID: u16 := 0xFFFF
  const ZEROED_ID: u16 := 0x0000
  /** The MSB of an item id asks for the old (transferred) copy of the item. */
  const SOURCE_ID: u16 := 0x8000
  const PAGE_NULL: nat := PAGES_USED
  const ITEM_NULL: u16 := 0

  // Item header: eight little-endian uint16 fields, 16 bytes.
  const HDR_ID: nat := 0
  const HDR_LEN: nat := 2
  const HDR_CHK: nat := 4
  const HDR_STAT: nat := 8
  const HDR_LIVE: nat := 12
  const HDR_SIZE: nat := 16
  // Page header: active and xfer flags, 8 bytes.
  const PG_ACTIVE: nat := 0
  const PG_XFER: nat := 4
  const PG_HDR_SIZE: nat := 8
  /** Every header field is written as one 4-byte word: the field and its padding. */
  const HDR_ITEM: nat := 4

  const MAX_HOT: nat := 3
  /** The hot item ids; only their distinctness matters to the engine. */
  const HOT_IDS: seq<u16> := [0x0082, 0x003A, 0x003B]

  /** OSAL_NV_DATA_SIZE: the data length rounded up to whole flash words. */
  function DataSize(len: nat): (r: nat)
    ensures r % WORD_SIZE == 0
    ensures len <= r < len + WORD_SIZE
  {
    ((len + WORD_SIZE - 1) / WORD_SIZE) * WORD_SIZE
  }

  /** OSAL_NV_ITEM_SIZE: header plus rounded data. */
  function ItemSize(len: nat): nat
  {
    DataSize(len) + HDR_SIZE
  }

  /** Erased bytes needed after `n` bytes to reach the next word boundary. */
  function PadTo(n: nat): (r: nat)
    ensures r < WORD_SIZE && (n + r) % WORD_SIZE == 0
  {
    (WORD_SIZE - n % WORD_SIZE) % WORD_SIZE
  }

  /** The item size is the header plus the data padded to a word: a whole number of words,
      exactly HDR_SIZE more than the rounded data. */
  lemma ItemSizeLayout(len: nat)
    ensures DataSize(len) == len + PadTo(len)
    ensures ItemSize(len) == HDR_SIZE + len + PadTo(len)
    ensures ItemSize(len) % WORD_SIZE == 0
  {
  }

  /** The size macros as they are evaluated into a uint16 variable in initItem, initPage
      and writeItem. */
  function ItemSize16(len: u16): u16
  {
    ItemSize(len) % 0x10000
  }

  /** The truncated size equals the true one up to 0xFFEC; beyond that it is at most one
      header, so a 64 KB item passes the "fits on this page" test of initItem. */
  lemma ItemSize16Truncates(len: u16)
    ensures len <= 0xFFEC ==> ItemSize16(len) == ItemSize(len)
    ensures len > 0xFFEC ==> ItemSize16(len) <= HDR_SIZE && ItemSize(len) > PAGE_SIZE
    ensures ItemSize16(len) % WORD_SIZE == 0
  {
  }

  /** The fit test of initItem as written, with the truncated size. */
  function FitsAsWritten(len: u16, pgOff: nat, pgLost: nat): bool
  {
    ItemSize16(len) <= PAGE_SIZE - pgOff + pgLost
  }

  /** The fit test with the true size. */
  function Fits(len: nat, pgOff: nat, pgLost: nat): bool
  {
    ItemSize(len) <= PAGE_SIZE - pgOff + pgLost
  }

  /** On an empty page the truncated test accepts an item of 0xFFFF bytes, which needs more
      than a whole page; the true test rejects it. */
  lemma FitsAsWrittenAcceptsOversize()
    ensures FitsAsWritten(0xFFFF, PG_HDR_SIZE, 0)
    ensures !Fits(0xFFFF, PG_HDR_SIZE, 0)
    ensures ItemSize(0xFFFF) > PAGE_SIZE
  {
    ItemSize16Truncates(0xFFFF);
  }

  /** Whatever a page holds, an item accepted by the true test fits in a page. */
  lemma FitsBounded(len: nat, pgOff: nat, pgLost: nat)
    requires pgLost <= pgOff - PG_HDR_SIZE && PG_HDR_SIZE <= pgOff
    requires Fits(len, pgOff, pgLost)
    ensures ItemSize(len) <= PAGE_SIZE - PG_HDR_SIZE
  {
  }

  // ---------------------------------------------------------------- uint16 codec

  function U16At(m: seq<byte>, a: nat): u16
    requires a + 2 <= |m|
  {
    (m[a] as int) + 256 * (m[a + 1] as int)
  }

  /** The two bytes of `v` in the order x86 stores them. */
  function LE16(v: u16): (r: seq<byte>)
    ensures |r| == 2
  {
    [v % 256, v / 256]
  }

  lemma LE16RoundTrip(v: u16, s: seq<byte>, a: nat)
    requires a + 2 <= |s| && s[a..a + 2] == LE16(v)
    ensures U16At(s, a) == v
  {
    assert s[a] == s[a..a + 2][0] && s[a + 1] == s[a..a + 2][1];
  }

  /** A uint16 read after a store: the stored bytes where the store covers it, the old
      value where it misses it. */
  lemma U16AtStore(m: seq<byte>, at: nat, d: seq<byte>, a: nat)
    requires at + |d| <= |m| && a + 2 <= |m|
    ensures a + 2 <= at || at + |d| <= a ==> U16At(Overwrite(m, at, d), a) == U16At(m, a)
    ensures at <= a && a + 2 <= at + |d| ==>
      U16At(Overwrite(m, at, d), a) == (d[a - at] as int) + 256 * (d[a - at + 1] as int)
  {
    OverwriteBytes(m, at, d);
  }

  /** A uint16 stored little-endian at the start of a run reads back as itself. */
  lemma U16AtStoreLE(m: seq<byte>, at: nat, v: u16, d: seq<byte>)
    requires at + 2 + |d| <= |m|
    ensures U16At(Overwrite(m, at, LE16(v) + d), at) == v
  {
    U16AtStore(m, at, LE16(v) + d, at);
  }

  /** A uint16 reads as 0xFFFF exactly when both its bytes are erased. */
  lemma U16Erased(m: seq<byte>, a: nat)
    requires a + 2 <= |m|
    ensures U16At(m, a) == ERASED_ID <==> m[a] == FLASH_ERASED && m[a + 1] == FLASH_ERASED
  {
  }

  /** Erased bytes needed to pad a run that starts on a word boundary. */
  lemma PadToAligned(a: nat, n: nat)
    requires a % WORD_SIZE == 0
    ensures PadTo(a + n) == PadTo(n)
  {
  }

  /** The header after an item at a word-aligned offset is word aligned too. */
  lemma NextAligned(offset: nat, len: nat)
    requires offset % WORD_SIZE == 0
    ensures (offset + HDR_SIZE + DataSize(len)) % WORD_SIZE == 0
  {
    var k, j := DataSize(len) / WORD_SIZE, offset / WORD_SIZE;
    assert DataSize(len) == WORD_SIZE * k && offset == WORD_SIZE * j;
    assert offset + HDR_SIZE + DataSize(len) == WORD_SIZE * (j + k + HDR_SIZE / WORD_SIZE);
  }

  /** The distance back from a word-aligned offset by a whole number of words is aligned. */
  lemma AlignedDiff(a: nat, b: nat)
    requires a % WORD_SIZE == 0 && b % WORD_SIZE == 0 && b <= a
    ensures (a - b) % WORD_SIZE == 0
  {
    var j, k := a / WORD_SIZE, b / WORD_SIZE;
    assert a == WORD_SIZE * j && b == WORD_SIZE * k;
    assert a - b == WORD_SIZE * (j - k);
  }

  /** A header field written as one word: the value and the 0xFFFF of the second half of
      the static `hdrData` buffer. */
  function FieldWord(v: u16): (r: seq<byte>)
    ensures |r| == HDR_ITEM
  {
    LE16(v) + LE16(ERASED_ID)
  }

  // ---------------------------------------------------------------- headers

  datatype Hdr = Hdr(id: u16, len: u16, chk: u16, pad1: u16, stat: u16, pad2: u16, live: u16, pad3: u16)

  function DecodeHdr(b: seq<byte>): Hdr
    requires |b| == HDR_SIZE
  {
    Hdr(U16At(b, 0), U16At(b, 2), U16At(b, 4), U16At(b, 6),
        U16At(b, 8), U16At(b, 10), U16At(b, 12), U16At(b, 14))
  }

  function EncodeHdr(h: Hdr): (r: seq<byte>)
    ensures |r| == HDR_SIZE
  {
    LE16(h.id) + LE16(h.len) + LE16(h.chk) + LE16(h.pad1)
      + LE16(h.stat) + LE16(h.pad2) + LE16(h.live) + LE16(h.pad3)
  }

  lemma DecodeEncodeHdr(h: Hdr)
    ensures DecodeHdr(EncodeHdr(h)) == h
  {
  }

  /** Re-encoding the uint16 read at `a` gives back the two bytes it was read from. */
  lemma LE16OfU16At(b: seq<byte>, a: nat)
    requires a + 2 <= |b|
    ensures LE16(U16At(b, a)) == b[a..a + 2]
  {
  }

  lemma EncodeDecodeHdr(b: seq<byte>)
    requires |b| == HDR_SIZE
    ensures EncodeHdr(DecodeHdr(b)) == b
  {
    LE16OfU16At(b, 0); LE16OfU16At(b, 2); LE16OfU16At(b, 4); LE16OfU16At(b, 6);
    LE16OfU16At(b, 8); LE16OfU16At(b, 10); LE16OfU16At(b, 12); LE16OfU16At(b, 14);
    assert b == b[0..2] + b[2..4] + b[4..6] + b[6..8] + b[8..10] + b[10..12] + b[12..14] + b[14..16];
  }

  function HdrAt(m: seq<byte>, pg: nat, off: nat): Hdr
    requires PageBase(pg) + off + HDR_SIZE <= |m|
  {
    DecodeHdr(m[PageBase(pg) + off..PageBase(pg) + off + HDR_SIZE])
  }

  datatype PgHdr = PgHdr(active: u16, pad1: u16, xfer: u16, pad2: u16)

  function DecodePgHdr(b: seq<byte>): PgHdr
    requires |b| == PG_HDR_SIZE
  {
    PgHdr(U16At(b, 0), U16At(b, 2), U16At(b, 4), U16At(b, 6))
  }

  function PgHdrAt(m: seq<byte>, pg: nat): PgHdr
    requires PageBase(pg) + PG_HDR_SIZE <= |m|
  {
    DecodePgHdr(m[PageBase(pg)..PageBase(pg) + PG_HDR_SIZE])
  }

  /** The flags of a decoded page header are the uint16s read in place. */
  lemma PgHdrAtFields(m: seq<byte>, pg: nat)
    requires PageBase(pg) + PG_HDR_SIZE <= |m|
    ensures PgHdrAt(m, pg).active == U16At(m, PageBase(pg) + PG_ACTIVE)
    ensures PgHdrAt(m, pg).xfer == U16At(m, PageBase(pg) + PG_XFER)
  {
    var a := PageBase(pg);
    var b := m[a..a + PG_HDR_SIZE];
    assert b[0] == m[a] && b[1] == m[a + 1] && b[4] == m[a + 4] && b[5] == m[a + 5];
  }

  /** Clearing one page header flag with a word write: that flag reads as zero, the other
      keeps its value. */
  lemma PgHdrStore(m: seq<byte>, pg: nat, ofs: nat)
    requires PageBase(pg) + PG_HDR_SIZE <= |m| && (ofs == PG_ACTIVE || ofs == PG_XFER)
    ensures var r := Overwrite(m, PageBase(pg) + ofs, FieldWord(ZEROED_ID));
      (ofs == PG_ACTIVE ==> PgHdrAt(r, pg).active == ZEROED_ID && PgHdrAt(r, pg).xfer == PgHdrAt(m, pg).xfer)
      && (ofs == PG_XFER ==> PgHdrAt(r, pg).xfer == ZEROED_ID && PgHdrAt(r, pg).active == PgHdrAt(m, pg).active)
  {
    var a := PageBase(pg);
    var r := Overwrite(m, a + ofs, FieldWord(ZEROED_ID));
    PgHdrAtFields(m, pg);
    PgHdrAtFields(r, pg);
    U16AtStore(m, a + ofs, FieldWord(ZEROED_ID), a + PG_ACTIVE);
    U16AtStore(m, a + ofs, FieldWord(ZEROED_ID), a + PG_XFER);
  }

  // ---------------------------------------------------------------- checksum

  function Sum(s: seq<byte>): nat
  {
    if |s| == 0 then 0 else Sum(s[..|s| - 1]) + s[|s| - 1]
  }

  /** The item checksum: the byte sum kept in a uint16. */
  function Chk16(s: seq<byte>): u16
  {
    Sum(s) % 0x10000
  }

  lemma {:induction false} SumAppend(a: seq<byte>, b: seq<byte>)
    ensures Sum(a + b) == Sum(a) + Sum(b)
    decreases |b|
  {
    if |b| == 0 {
      assert a + b == a;
    } else {
      assert (a + b)[..|a + b| - 1] == a + b[..|b| - 1];
      SumAppend(a, b[..|b| - 1]);
    }
  }

  lemma {:induction false} SumFill(n: nat)
    ensures Sum(Fill(n)) == n * FLASH_ERASED
  {
    if n > 0 {
      assert Fill(n)[..n - 1] == Fill(n - 1);
      SumFill(n - 1);
    }
  }

  /** The data an item occupies on flash: its bytes (or erased bytes when no buffer is
      given) followed by erased bytes up to the word boundary. */
  function DataImage(len: nat, buf: Option<seq<byte>>): (r: seq<byte>)
    requires buf.Some? ==> len <= |buf.value|
    ensures |r| == DataSize(len)
  {
    ItemSizeLayout(len);
    (if buf.Some? then buf.value[..len] else Fill(len)) + Fill(PadTo(len))
  }

  /** The checksum calcChkB promises: the byte sum of the buffer (or len erased bytes for a
      NULL buffer) plus one erased byte per padding byte, modulo 2^16. */
  function ChkB(len: nat, buf: Option<seq<byte>>): u16
    requires buf.Some? ==> len <= |buf.value|
  {
    ((if buf.Some? then Sum(buf.value[..len]) else len * FLASH_ERASED)
      + PadTo(len) * FLASH_ERASED) % 0x10000
  }

  /** The data bytes, word-rounded, of an item of `len` bytes whose header is at (pg, off). */
  function ItemData(m: seq<byte>, pg: nat, off: nat, len: nat): (r: seq<byte>)
    requires |m| == NV_SIZE && pg < PAGES_USED && off + ItemSize(len) <= PAGE_SIZE
    ensures |r| == DataSize(len)
  {
    m[PageBase(pg) + off + HDR_SIZE..PageBase(pg) + off + HDR_SIZE + DataSize(len)]
  }

  /** The checksum of the buffer is the checksum of the image writeBuf leaves on flash. */
  lemma ChkBIsImageChk(len: nat, buf: Option<seq<byte>>)
    requires buf.Some? ==> len <= |buf.value|
    ensures ChkB(len, buf) == Chk16(DataImage(len, buf))
  {
    ItemSizeLayout(len);
    var head := if buf.Some? then buf.value[..len] else Fill(len);
    SumAppend(head, Fill(PadTo(len)));
    SumFill(PadTo(len));
    if buf.None? {
      SumFill(len);
    }
  }

  /** The sum of `s` after byte `k` is replaced by `v`: the checksum delta osal_nv_write
      accumulates is exact. */
  lemma {:induction false} SumUpdate(s: seq<byte>, k: nat, v: byte)
    requires k < |s|
    ensures Sum(s[k := v]) + s[k] == Sum(s) + v
  {
    var t := s[k := v];
    assert s == s[..k] + [s[k]] + s[k + 1..];
    assert t == s[..k] + [v] + s[k + 1..];
    SumAppend(s[..k] + [s[k]], s[k + 1..]);
    SumAppend(s[..k], [s[k]]);
    SumAppend(s[..k] + [v], s[k + 1..]);
    SumAppend(s[..k], [v]);
    assert Sum([v]) == v by { assert [v][..0] == []; }
    assert Sum([s[k]]) == s[k] by { assert [s[k]][..0] == []; }
  }

  // ---------------------------------------------------------------- lookup walk

  /** A uint16 header field at header offset `off` of page `pg`. */
  function Field(m: seq<byte>, pg: nat, off: nat, f: nat): u16
    requires PageBase(pg) + off + f + 2 <= |m|
  {
    U16At(m, PageBase(pg) + off + f)
  }

  /** The fields of a decoded header are the fields read in place. */
  lemma HdrAtFields(m: seq<byte>, pg: nat, off: nat)
    requires PageBase(pg) + off + HDR_SIZE <= |m|
    ensures var h := HdrAt(m, pg, off);
      h.id == Field(m, pg, off, HDR_ID) && h.len == Field(m, pg, off, HDR_LEN)
      && h.chk == Field(m, pg, off, HDR_CHK) && h.stat == Field(m, pg, off, HDR_STAT)
      && h.live == Field(m, pg, off, HDR_LIVE)
  {
    var a := PageBase(pg) + off;
    var b := m[a..a + HDR_SIZE];
    assert b[0] == m[a] && b[1] == m[a + 1] && b[2] == m[a + 2] && b[3] == m[a + 3];
    assert b[4] == m[a + 4] && b[5] == m[a + 5];
    assert b[8] == m[a + 8] && b[9] == m[a + 9] && b[12] == m[a + 12] && b[13] == m[a + 13];
  }

  /** initPage's lookup rule: the id without its MSB names the item; a clear MSB asks for a
      header whose stat is still erased, a set MSB for one whose stat was cleared by a
      transfer. */
  predicate Matches(id: u16, hdrId: u16, stat: u16)
  {
    id % SOURCE_ID == hdrId
    && (if id < SOURCE_ID then stat == ERASED_ID else stat != ERASED_ID)
  }

  /** `id | OSAL_NV_SOURCE_ID` */
  function SourceOf(id: u16): (r: u16)
    ensures r >= SOURCE_ID && r % SOURCE_ID == id % SOURCE_ID
  {
    if id < SOURCE_ID then id + SOURCE_ID else id
  }

  /** The outcome of walking a page: the data offset of the item found, or the offset of
      the first erased space and the bytes lost on the way. */
  datatype Scan = Found(dataOff: nat) | Ended(off: nat, lost: nat)

  /** The header at (pg, o) is a live copy of item `id` in the sense of `Matches`, with
      its data inside the page. */
  predicate Hit(m: seq<byte>, pg: nat, id: u16, o: nat)
    requires |m| == NV_SIZE && pg < PAGES_USED && o + HDR_SIZE <= PAGE_SIZE
  {
    id != ITEM_NULL
    && Field(m, pg, o, HDR_ID) != ERASED_ID && Field(m, pg, o, HDR_LIVE) != ZEROED_ID
    && Matches(id, Field(m, pg, o, HDR_ID), Field(m, pg, o, HDR_STAT))
    && o + HDR_SIZE + DataSize(Field(m, pg, o, HDR_LEN)) <= PAGE_SIZE
  }

  /** One header of the lookup walk: the walk stops with a result, or moves on to the
      next header with the bytes lost so far. */
  datatype Step = Stop(result: Scan) | Next(off: nat, lost: nat)

  /** One iteration of initPage's lookup loop at header offset `offset`: past the last
      place a header fits, or at an erased id, the walk ends here; a length running past
      the page ends it at the page end with the rest of the page lost; a live header for
      the id is found; otherwise the walk steps over the item, counting it as lost when it
      was zeroed. */
  function WalkStep(m: seq<byte>, pg: nat, id: u16, offset: nat, lost: nat): (s: Step)
    requires |m| == NV_SIZE && pg < PAGES_USED && offset <= PAGE_SIZE
    ensures s.Next? ==> offset < s.off <= PAGE_SIZE && s.lost - lost <= s.off - offset
    ensures s.Next? ==> offset + HDR_SIZE < PAGE_SIZE && s.off == offset + ItemSize(Field(m, pg, offset, HDR_LEN))
    ensures s.Next? && offset % WORD_SIZE == 0 ==> s.off % WORD_SIZE == 0
    ensures s.Stop? && s.result.Ended? ==>
      offset <= s.result.off <= PAGE_SIZE && s.result.lost - lost <= s.result.off - offset
      && (offset % WORD_SIZE == 0 ==> s.result.off % WORD_SIZE == 0)
    ensures s.Stop? && s.result.Found? ==>
      s.result.dataOff == offset + HDR_SIZE && offset + HDR_SIZE <= PAGE_SIZE && Hit(m, pg, id, offset)
  {
    if offset >= PAGE_SIZE - HDR_SIZE then Stop(Ended(offset, lost))
    else
      var sz := DataSize(Field(m, pg, offset, HDR_LEN));
      if Field(m, pg, offset, HDR_ID) == ERASED_ID then Stop(Ended(offset, lost))
      else if sz > PAGE_SIZE - HDR_SIZE - offset then Stop(Ended(PAGE_SIZE, lost + (PAGE_SIZE - offset)))
      else if Hit(m, pg, id, offset) then Stop(Found(offset + HDR_SIZE))
      else Next(offset + HDR_SIZE + sz,
                if Field(m, pg, offset, HDR_LIVE) == ZEROED_ID then lost + HDR_SIZE + sz else lost)
  }

  /** One iteration of initPage's walk as written: the rounded length is kept in a uint16,
      so a length of 0xFFFD or more rounds to 0x10000 and is stored as 0. */
  function WalkStepAsWritten(m: seq<byte>, pg: nat, id: u16, offset: nat, lost: nat): (s: Step)
    requires |m| == NV_SIZE && pg < PAGES_USED && offset <= PAGE_SIZE
    ensures s.Next? ==> offset < s.off
  {
    if offset >= PAGE_SIZE - HDR_SIZE then Stop(Ended(offset, lost))
    else
      var sz := DataSize(Field(m, pg, offset, HDR_LEN)) % 0x10000;
      if Field(m, pg, offset, HDR_ID) == ERASED_ID then Stop(Ended(offset, lost))
      else if sz > PAGE_SIZE - HDR_SIZE - offset then Stop(Ended(PAGE_SIZE, lost + (PAGE_SIZE - offset)))
      else if Hit(m, pg, id, offset) then Stop(Found(offset + HDR_SIZE))
      else Next(offset + HDR_SIZE + sz,
                if Field(m, pg, offset, HDR_LIVE) == ZEROED_ID then lost + HDR_SIZE + sz else lost)
  }

  /** A header whose length field reads 0xFFFD or more can only come from a broken write.
      The walk as written steps over it as an item with no data and goes on to read the
      next 16 bytes as a header; the intended walk gives the rest of the page up as lost. */
  lemma TruncatedLengthIsNotOverrun(m: seq<byte>, pg: nat, offset: nat, lost: nat)
    requires |m| == NV_SIZE && pg < PAGES_USED && offset < PAGE_SIZE - HDR_SIZE
    requires Field(m, pg, offset, HDR_ID) != ERASED_ID && Field(m, pg, offset, HDR_LEN) >= 0xFFFD
    ensures WalkStepAsWritten(m, pg, ITEM_NULL, offset, lost) == Next(offset + HDR_SIZE,
      if Field(m, pg, offset, HDR_LIVE) == ZEROED_ID then lost + HDR_SIZE else lost)
    ensures WalkStep(m, pg, ITEM_NULL, offset, lost) == Stop(Ended(PAGE_SIZE, lost + (PAGE_SIZE - offset)))
  {
    assert DataSize(Field(m, pg, offset, HDR_LEN)) == 0x10000;
  }

  /** initPage in lookup mode, from header offset `offset` with `lost` bytes counted so far.
      With `id == ITEM_NULL` nothing matches and the walk just measures the page. */
  function Walk(m: seq<byte>, pg: nat, id: u16, offset: nat, lost: nat): (r: Scan)
    requires |m| == NV_SIZE && pg < PAGES_USED && offset <= PAGE_SIZE
    ensures r.Ended? ==> offset <= r.off <= PAGE_SIZE && r.lost - lost <= r.off - offset
    ensures r.Found? ==> id != ITEM_NULL && offset + HDR_SIZE <= r.dataOff <= PAGE_SIZE
    ensures id == ITEM_NULL ==> r.Ended?
    decreases PAGE_SIZE - offset
  {
    match WalkStep(m, pg, id, offset, lost)
    case Stop(r) => r
    case Next(o, l) => Walk(m, pg, id, o, l)
  }

  /** A walk begun on a word boundary ends on one: item sizes are whole words. */
  lemma {:induction false} WalkAligned(m: seq<byte>, pg: nat, id: u16, offset: nat, lost: nat)
    requires |m| == NV_SIZE && pg < PAGES_USED && offset <= PAGE_SIZE && offset % WORD_SIZE == 0
    ensures var r := Walk(m, pg, id, offset, lost); r.Ended? ==> r.off % WORD_SIZE == 0
    decreases PAGE_SIZE - offset
  {
    match WalkStep(m, pg, id, offset, lost)
    case Stop(_) =>
    case Next(o, l) => WalkAligned(m, pg, id, o, l);
  }

  /** A found data offset belongs to a live, matching header whose data lies inside the
      page. */
  lemma {:induction false} WalkFound(m: seq<byte>, pg: nat, id: u16, offset: nat, lost: nat)
    requires |m| == NV_SIZE && pg < PAGES_USED && offset <= PAGE_SIZE
    requires Walk(m, pg, id, offset, lost).Found?
    ensures Hit(m, pg, id, Walk(m, pg, id, offset, lost).dataOff - HDR_SIZE)
    decreases PAGE_SIZE - offset
  {
    match WalkStep(m, pg, id, offset, lost)
    case Stop(_) =>
    case Next(o, l) => WalkFound(m, pg, id, o, l);
  }

  /** A step of a lookup either finds the item or goes exactly where the plain measuring
      walk goes. */
  lemma StepIgnoresId(m: seq<byte>, pg: nat, id: u16, offset: nat, lost: nat)
    requires |m| == NV_SIZE && pg < PAGES_USED && offset <= PAGE_SIZE
    ensures var s := WalkStep(m, pg, id, offset, lost);
      (s.Stop? && s.result.Found?) || s == WalkStep(m, pg, ITEM_NULL, offset, lost)
  {
  }

  /** Where the walk ends does not depend on the id looked for: an unsuccessful lookup
      measures the page exactly as the plain walk does. */
  lemma {:induction false} WalkEndedIsExtent(m: seq<byte>, pg: nat, id: u16, offset: nat, lost: nat)
    requires |m| == NV_SIZE && pg < PAGES_USED && offset <= PAGE_SIZE
    requires Walk(m, pg, id, offset, lost).Ended?
    ensures Walk(m, pg, id, offset, lost) == Walk(m, pg, ITEM_NULL, offset, lost)
    decreases PAGE_SIZE - offset
  {
    StepIgnoresId(m, pg, id, offset, lost);
    match WalkStep(m, pg, id, offset, lost)
    case Stop(_) =>
    case Next(o, l) => WalkEndedIsExtent(m, pg, id, o, l);
  }

  /** The measure of page `pg`: where its first erased space is and how many bytes its
      zeroed items and any broken tail hold. */
  function Extent(m: seq<byte>, pg: nat): (r: Scan)
    requires |m| == NV_SIZE && pg < PAGES_USED
    ensures r.Ended? && PG_HDR_SIZE <= r.off <= PAGE_SIZE && r.off % WORD_SIZE == 0
    ensures r.lost <= r.off - PG_HDR_SIZE
  {
    WalkAligned(m, pg, ITEM_NULL, PG_HDR_SIZE, 0);
    Walk(m, pg, ITEM_NULL, PG_HDR_SIZE, 0)
  }

  /** Lookup on the pages from `pg` on, in page order. */
  function FindOn(m: seq<byte>, id: u16, pg: nat): (r: Option<(nat, nat)>)
    requires |m| == NV_SIZE && id != ITEM_NULL
    ensures r.Some? ==> (pg <= r.value.0 < PAGES_USED
      && Walk(m, r.value.0, id, PG_HDR_SIZE, 0) == Found(r.value.1))
    ensures r.None? ==> forall p :: pg <= p < PAGES_USED ==> Walk(m, p, id, PG_HDR_SIZE, 0).Ended?
    decreases PAGES_USED - pg
  {
    if pg >= PAGES_USED then None
    else match Walk(m, pg, id, PG_HDR_SIZE, 0)
      case Found(d) => Some((pg, d))
      case Ended(_, _) => FindOn(m, id, pg + 1)
  }

  /** findItem: the first page, in order, holding a live current copy of the item; failing
      that, the first holding a live transferred (old) copy. */
  function Find(m: seq<byte>, id: u16): Option<(nat, nat)>
    requires |m| == NV_SIZE && id != ITEM_NULL
  {
    match FindOn(m, id, 0)
    case Some(loc) => Some(loc)
    case None => if id < SOURCE_ID then FindOn(m, SourceOf(id), 0) else None
  }

  /** Pages a findItem call walks to their end (and so re-measures): those before the page
      where the item is found on the first pass, or all of them. */
  function Reach(m: seq<byte>, id: u16): (r: nat)
    requires |m| == NV_SIZE && id != ITEM_NULL
    ensures r <= PAGES_USED
  {
    match FindOn(m, id, 0)
    case Some(loc) => loc.0
    case None => PAGES_USED
  }

  /** The header a lookup pass returns is a live copy of `q` with its data inside the page. */
  lemma FoundIsHit(m: seq<byte>, q: u16, pg: nat, d: nat)
    requires |m| == NV_SIZE && q != ITEM_NULL && FindOn(m, q, 0) == Some((pg, d))
    ensures pg < PAGES_USED && PG_HDR_SIZE + HDR_SIZE <= d <= PAGE_SIZE && Hit(m, pg, q, d - HDR_SIZE)
  {
    WalkFound(m, pg, q, PG_HDR_SIZE, 0);
  }

  /** What findItem returns is a live header for the id, current or transferred, with its
      data inside the page; when it returns nothing, no page has either kind of copy. */
  lemma FindSound(m: seq<byte>, id: u16)
    requires |m| == NV_SIZE && id != ITEM_NULL
    ensures match Find(m, id)
      case Some(loc) =>
        loc.0 < PAGES_USED && PG_HDR_SIZE + HDR_SIZE <= loc.1 <= PAGE_SIZE
        && var o := loc.1 - HDR_SIZE;
        Field(m, loc.0, o, HDR_ID) == id % SOURCE_ID && Field(m, loc.0, o, HDR_ID) != ERASED_ID
        && Field(m, loc.0, o, HDR_LIVE) != ZEROED_ID
        && loc.1 + DataSize(Field(m, loc.0, o, HDR_LEN)) <= PAGE_SIZE
        && (Field(m, loc.0, o, HDR_STAT) == ERASED_ID || id >= SOURCE_ID || FindOn(m, id, 0).None?)
      case None =>
        forall p :: 0 <= p < PAGES_USED ==> (Walk(m, p, id, PG_HDR_SIZE, 0).Ended?
          && (id < SOURCE_ID ==> Walk(m, p, SourceOf(id), PG_HDR_SIZE, 0).Ended?))
  {
    match Find(m, id) {
      case Some(loc) =>
        var (pg, d) := loc;
        if FindOn(m, id, 0).Some? {
          FoundIsHit(m, id, pg, d);
        } else {
          FoundIsHit(m, SourceOf(id), pg, d);
        }
      case None =>
    }
  }

  /** The header findItem's result points back to is in the page and not erased. */
  lemma FindLive(m: seq<byte>, id: u16, pg: nat, dataOff: nat)
    requires |m| == NV_SIZE && id != ITEM_NULL && Find(m, id) == Some((pg, dataOff))
    ensures pg < PAGES_USED && PG_HDR_SIZE + HDR_SIZE <= dataOff <= PAGE_SIZE
    ensures Field(m, pg, dataOff - HDR_SIZE, HDR_ID) != ERASED_ID
  {
    if FindOn(m, id, 0).Some? {
      FoundIsHit(m, id, pg, dataOff);
    } else {
      FoundIsHit(m, SourceOf(id), pg, dataOff);
    }
  }

  // ---------------------------------------------------------------- pages

  function PageImage(m: seq<byte>, pg: nat): seq<byte>
    requires pg < PAGES_USED && |m| == NV_SIZE
  {
    m[PageBase(pg)..PageBase(pg) + PAGE_SIZE]
  }

  predicate PageErased(m: seq<byte>, pg: nat)
    requires pg < PAGES_USED && |m| == NV_SIZE
  {
    PageImage(m, pg) == Fill(PAGE_SIZE)
  }

  /** Erasure of pages survives from `m1` to `m2`. */
  predicate KeepsErased(m1: seq<byte>, m2: seq<byte>)
    requires |m1| == NV_SIZE && |m2| == NV_SIZE
  {
    forall p :: 0 <= p < PAGES_USED && PageErased(m1, p) ==> PageErased(m2, p)
  }

  /** Erasing page `pg` leaves it erased. */
  lemma EraseGivesErased(m: seq<byte>, pg: nat)
    requires pg < PAGES_USED && |m| == NV_SIZE
    ensures PageErased(Overwrite(m, PageBase(pg), Fill(PAGE_SIZE)), pg)
  {
    var r := Overwrite(m, PageBase(pg), Fill(PAGE_SIZE));
    OverwriteBytes(m, PageBase(pg), Fill(PAGE_SIZE));
    assert PageImage(r, pg) == Fill(PAGE_SIZE) by {
      forall k | 0 <= k < PAGE_SIZE ensures PageImage(r, pg)[k] == Fill(PAGE_SIZE)[k] {
        assert PageImage(r, pg)[k] == r[PageBase(pg) + k];
      }
    }
  }

  /** A store confined to page `pg` leaves every other page as it was. */
  lemma OverwriteOtherPage(m: seq<byte>, pg: nat, at: nat, d: seq<byte>, q: nat)
    requires pg < PAGES_USED && q < PAGES_USED && q != pg && |m| == NV_SIZE
    requires PageBase(pg) <= at && at + |d| <= PageBase(pg) + PAGE_SIZE
    ensures PageImage(Overwrite(m, at, d), q) == PageImage(m, q)
  {
    var r := Overwrite(m, at, d);
    OverwriteBytes(m, at, d);
    if q < pg {
      assert PageBase(q) + PAGE_SIZE <= PageBase(pg);
    } else {
      assert PageBase(pg) + PAGE_SIZE <= PageBase(q);
    }
    forall k | 0 <= k < PAGE_SIZE ensures PageImage(r, q)[k] == PageImage(m, q)[k] {
      assert PageImage(r, q)[k] == r[PageBase(q) + k];
    }
  }

  /** A header read from an erased page has the erased id. */
  lemma ErasedPageHdr(m: seq<byte>, pg: nat, off: nat)
    requires pg < PAGES_USED && |m| == NV_SIZE && off + HDR_SIZE <= PAGE_SIZE
    ensures PageErased(m, pg) ==> Field(m, pg, off, HDR_ID) == ERASED_ID
  {
    var a := PageBase(pg) + off;
    if PageErased(m, pg) {
      assert m[a] == PageImage(m, pg)[off] && m[a + 1] == PageImage(m, pg)[off + 1];
    }
  }

  /** A store confined to a page that was not erased keeps erased pages erased. */
  lemma OverwriteKeepsErased(m: seq<byte>, pg: nat, at: nat, d: seq<byte>)
    requires pg < PAGES_USED && |m| == NV_SIZE && !PageErased(m, pg)
    requires PageBase(pg) <= at && at + |d| <= PageBase(pg) + PAGE_SIZE
    ensures KeepsErased(m, Overwrite(m, at, d))
  {
    forall q | 0 <= q < PAGES_USED && PageErased(m, q)
      ensures PageErased(Overwrite(m, at, d), q)
    {
      OverwriteOtherPage(m, pg, at, d, q);
    }
  }

  /** An erased page holds no items: the walk ends at once, with nothing lost. */
  lemma ErasedPageEmpty(m: seq<byte>, pg: nat, id: u16)
    requires pg < PAGES_USED && |m| == NV_SIZE && PageErased(m, pg)
    ensures Walk(m, pg, id, PG_HDR_SIZE, 0) == Ended(PG_HDR_SIZE, 0)
  {
    ErasedPageHdr(m, pg, PG_HDR_SIZE);
  }

  /** A hot-item index: the position of `id` in HOT_IDS, or MAX_HOT when it is not hot. */
  function HotItem(id: u16): (r: nat)
    ensures r <= MAX_HOT
    ensures r < MAX_HOT ==> HOT_IDS[r] == id && forall j :: 0 <= j < r ==> HOT_IDS[j] != id
    ensures r == MAX_HOT <==> id !in HOT_IDS
  {
    if HOT_IDS[0] == id then 0
    else if HOT_IDS[1] == id then 1
    else if HOT_IDS[2] == id then 2
    else MAX_HOT
  }
}
