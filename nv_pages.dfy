/** The routines of OSAL_Nv.c that work on the flash pages alone: reading headers,
    checksumming, marking page headers and writing item data. `mem` is the NV area. */
module NvPages {
  import opened FlashUtil
  import opened NvFormat

  /** readHdr: copies the 16 header bytes at (pg, offset) and views them as a header. */
  method ReadHdr(mem: array<byte>, pg: nat, offset: nat) returns (h: Hdr)
    requires mem.Length == NV_SIZE && pg < PAGES_USED && offset + HDR_SIZE <= PAGE_SIZE
    ensures h == HdrAt(mem[..], pg, offset)
  {
    var start := PageBase(pg) + offset;
    var addr := start;
    var buf: seq<byte> := [];
    var len := HDR_SIZE;
    while len > 0
      invariant 0 <= len <= HDR_SIZE && addr == start + HDR_SIZE - len
      invariant buf == mem[start..addr]
    {
      buf := buf + [mem[addr]];
      addr := addr + 1;
      len := len - 1;
    }
    h := DecodeHdr(buf);
  }

  /** readPgHdr: copies the 8 page header bytes of `pg`. */
  method ReadPgHdr(mem: array<byte>, pg: nat) returns (h: PgHdr)
    requires mem.Length == NV_SIZE && pg < PAGES_USED
    ensures h == PgHdrAt(mem[..], pg)
  {
    var start := PageBase(pg);
    var addr := start;
    var buf: seq<byte> := [];
    var len := PG_HDR_SIZE;
    while len > 0
      invariant 0 <= len <= PG_HDR_SIZE && addr == start + PG_HDR_SIZE - len
      invariant buf == mem[start..addr]
    {
      buf := buf + [mem[addr]];
      addr := addr + 1;
      len := len - 1;
    }
    h := DecodePgHdr(buf);
  }

  /** One step of a byte-sum loop. */
  lemma SumStep(s: seq<byte>, i: nat)
    requires i < |s|
    ensures Sum(s[..i + 1]) == Sum(s[..i]) + s[i]
  {
    assert s[..i + 1][..i] == s[..i];
  }

  /** Adding to a uint16 accumulator: reducing before the addition changes nothing. */
  lemma ModAdd(a: int, b: int)
    ensures (a % 0x10000 + b) % 0x10000 == (a + b) % 0x10000
  {
    var q := a / 0x10000;
    assert a == q * 0x10000 + a % 0x10000;
    assert a + b == (a % 0x10000 + b) + q * 0x10000;
  }

  /** calcChkB: the checksum of `len` bytes of `buf`, or of `len` erased bytes when there
      is no buffer, plus the erased padding calcChkF will read. */
  method CalcChkB(len: u16, buf: Option<seq<byte>>) returns (chk: u16)
    requires buf.Some? ==> len <= |buf.value|
    ensures chk == ChkB(len, buf)
  {
    var fill := len % WORD_SIZE;
    if buf.None? {
      chk := (len * FLASH_ERASED) % 0x10000;
    } else {
      var b := buf.value;
      chk := 0;
      var i := 0;
      while i < len
        invariant 0 <= i <= len
        invariant chk == Sum(b[..i]) % 0x10000
      {
        SumStep(b, i);
        ModAdd(Sum(b[..i]), b[i]);
        chk := (chk + b[i]) % 0x10000;
        i := i + 1;
      }
    }
    ghost var base := if buf.Some? then Sum(buf.value[..len]) else len * FLASH_ERASED;
    assert chk == base % 0x10000;
    if fill != 0 {
      assert WORD_SIZE - fill == PadTo(len);
      ModAdd(base, (WORD_SIZE - fill) * FLASH_ERASED);
      chk := (chk + (WORD_SIZE - fill) * FLASH_ERASED) % 0x10000;
    } else {
      assert PadTo(len) == 0;
    }
  }

  /** calcChkF: the checksum of the word-rounded data of an item, read from flash. The
      requires keeps that data inside the page; it does not cover lengths of 0xFFFD and
      above, whose uint16 DATA_SIZE wraps to 0 so that calcChkF sums nothing. Only the
      as-written walk of the Findings (`WalkStepAsWritten`) would call it with those. */
  method CalcChkF(mem: array<byte>, pg: nat, offset: nat, len: u16) returns (chk: u16)
    requires mem.Length == NV_SIZE && pg < PAGES_USED && offset + DataSize(len) <= PAGE_SIZE
    ensures chk == Chk16(mem[PageBase(pg) + offset..PageBase(pg) + offset + DataSize(len)])
  {
    var start := PageBase(pg) + offset;
    var n := DataSize(len);
    ghost var region := mem[start..start + n];
    chk := 0;
    var i := 0;
    while i < n
      invariant 0 <= i <= n
      invariant chk == Sum(region[..i]) % 0x10000
    {
      SumStep(region, i);
      ModAdd(Sum(region[..i]), region[i]);
      chk := (chk + mem[start + i]) % 0x10000;
      i := i + 1;
    }
    assert region[..n] == region;
  }

  /** hotItem: the loop over the hot ids, stopping at the first entry equal to `id`. */
  method LookupHot(id: u16) returns (hotIdx: nat)
    ensures hotIdx == HotItem(id)
  {
    hotIdx := 0;
    while hotIdx < MAX_HOT && HOT_IDS[hotIdx] != id
      invariant hotIdx <= MAX_HOT
      invariant forall j :: 0 <= j < hotIdx ==> HOT_IDS[j] != id
    {
      hotIdx := hotIdx + 1;
    }
  }

  /** markPage: clears the page header flag at `ofs` (active or xfer) with one word
      write, leaving the other flag as it was. */
  method MarkPage(mem: array<byte>, pg: nat, ofs: nat)
    requires mem.Length == NV_SIZE && pg < PAGES_USED && (ofs == PG_ACTIVE || ofs == PG_XFER)
    modifies mem
    ensures mem[..] == Overwrite(old(mem[..]), PageBase(pg) + ofs, FieldWord(ZEROED_ID))
    ensures ofs == PG_ACTIVE ==> (PgHdrAt(mem[..], pg).active == ZEROED_ID
      && PgHdrAt(mem[..], pg).xfer == PgHdrAt(old(mem[..]), pg).xfer)
    ensures ofs == PG_XFER ==> (PgHdrAt(mem[..], pg).xfer == ZEROED_ID
      && PgHdrAt(mem[..], pg).active == PgHdrAt(old(mem[..]), pg).active)
  {
    PageBaseBound(pg);
    ghost var m0 := mem[..];
    var a := PageBase(pg) + ofs;
    FlashWrite(mem, a, HDR_ITEM, FieldWord(ZEROED_ID));
    assert FieldWord(ZEROED_ID)[..HDR_ITEM] == FieldWord(ZEROED_ID);
    PgHdrStore(m0, pg, ofs);
  }

  /** How the partial words of writeBuf and xferBuf are assembled: the `head` bytes already
      on flash, then as many of `src` as still fit in the word, then erased bytes. */
  method BuildWord(head: seq<byte>, src: seq<byte>) returns (tmp: seq<byte>, used: nat)
    requires |head| < WORD_SIZE
    ensures used <= |src| && |head| + used <= WORD_SIZE
    ensures used == |src| || |head| + used == WORD_SIZE
    ensures tmp == head + src[..used] + Fill(WORD_SIZE - |head| - used)
  {
    tmp := [];
    var idx := 0;
    while idx < |head|
      invariant 0 <= idx <= |head| && tmp == head[..idx]
    {
      tmp := tmp + [head[idx]];
      idx := idx + 1;
    }
    used := 0;
    while idx < WORD_SIZE && used < |src|
      invariant |head| <= idx <= WORD_SIZE && idx == |head| + used && used <= |src|
      invariant tmp == head + src[..used]
    {
      tmp := tmp + [src[used]];
      assert src[..used + 1] == src[..used] + [src[used]];
      used := used + 1;
      idx := idx + 1;
    }
    ghost var body := tmp;
    while idx < WORD_SIZE
      invariant |head| + used <= idx <= WORD_SIZE
      invariant tmp == body + Fill(idx - |head| - used)
    {
      tmp := tmp + [FLASH_ERASED];
      assert Fill(idx + 1 - |head| - used) == Fill(idx - |head| - used) + [FLASH_ERASED];
      idx := idx + 1;
    }
  }

  /** A length is its whole words and its remainder, and the padding after it is what the
      remainder leaves of a word. */
  lemma WordParts(k: nat)
    ensures (k / WORD_SIZE) * WORD_SIZE + k % WORD_SIZE == k
    ensures k % WORD_SIZE == 0 ==> PadTo(k) == 0
    ensures k % WORD_SIZE != 0 ==> PadTo(k) == WORD_SIZE - k % WORD_SIZE
  {
  }

  /** The aligned part of writeBuf and xferBuf: whole words of `d` from the word address
      `a`, then its last bytes padded with erased bytes to one more word. */
  method PutWords(mem: array<byte>, a: nat, d: seq<byte>)
    requires mem.Length == NV_SIZE && a % WORD_SIZE == 0 && a + |d| + PadTo(|d|) <= NV_SIZE
    modifies mem
    ensures mem[..] == Overwrite(old(mem[..]), a, d + Fill(PadTo(|d|)))
  {
    ghost var m0 := mem[..];
    var rem := |d| % WORD_SIZE;
    var n := (|d| / WORD_SIZE) * WORD_SIZE;
    WordParts(|d|);
    FlashWrite(mem, a, n, d);
    if rem != 0 {
      var tmp, used := BuildWord([], d[n..]);
      assert tmp == d[n..] + Fill(PadTo(|d|));
      FlashWrite(mem, a + n, WORD_SIZE, tmp);
      assert tmp[..WORD_SIZE] == tmp;
      OverwriteAppend(m0, a, d[..n], tmp);
      assert d[..n] + tmp == d + Fill(PadTo(|d|));
    } else {
      assert d[..n] == d + Fill(PadTo(|d|));
    }
  }

  /** Padding arithmetic of a run that starts `rem` bytes into a word: a run that ends in
      the first word is padded to that word's end; one that fills the first word is padded
      as its remainder is. */
  lemma PadAfterHead(dstOff: nat, n: nat, used: nat)
    requires 0 < dstOff % WORD_SIZE && used <= n && dstOff % WORD_SIZE + used <= WORD_SIZE
    requires used == n || dstOff % WORD_SIZE + used == WORD_SIZE
    ensures used == n ==> WORD_SIZE - dstOff % WORD_SIZE - used == PadTo(dstOff + n)
    ensures used < n ==> PadTo(n - used) == PadTo(dstOff + n)
    ensures (dstOff + used) % WORD_SIZE == 0 || used == n
  {
  }

  /** The unaligned first word of writeBuf and xferBuf: the `rem` bytes before the run are
      read back, as much of `data` as fits follows, erased bytes fill the word. */
  method StoreHead(mem: array<byte>, w: nat, rem: nat, data: seq<byte>) returns (used: nat)
    requires mem.Length == NV_SIZE && w % WORD_SIZE == 0 && w + WORD_SIZE <= NV_SIZE
    requires 0 < rem < WORD_SIZE
    ensures used <= |data| && rem + used <= WORD_SIZE
    ensures used == |data| || rem + used == WORD_SIZE
    modifies mem
    ensures mem[..] == Overwrite(old(mem[..]), w + rem, data[..used] + Fill(WORD_SIZE - rem - used))
  {
    ghost var m0 := mem[..];
    var tmp;
    tmp, used := BuildWord(mem[w..w + rem], data);
    ghost var part := data[..used] + Fill(WORD_SIZE - rem - used);
    assert tmp == m0[w..w + rem] + part + m0[w + WORD_SIZE..w + WORD_SIZE];
    FlashWrite(mem, w, WORD_SIZE, tmp);
    assert tmp[..WORD_SIZE] == tmp;
    OverwriteWithOwn(m0, w, w + rem, part, w + WORD_SIZE);
  }

  /** A run stored as its first `used` bytes and then the rest with its padding is the
      run with its padding stored at once. */
  lemma HeadThenRest(m0: seq<byte>, m1: seq<byte>, m2: seq<byte>, a: nat, data: seq<byte>,
                     used: nat, tail: seq<byte>)
    requires used <= |data| && a + |data| + |tail| <= |m0|
    requires m1 == Overwrite(m0, a, data[..used])
    requires m2 == Overwrite(m1, a + used, data[used..] + tail)
    ensures m2 == Overwrite(m0, a, data + tail)
  {
    OverwriteAppend(m0, a, data[..used], data[used..] + tail);
    assert data[..used] + (data[used..] + tail) == data + tail;
  }

  /** The run of StoreRun when `at` is not word aligned: the head word first, then the
      aligned words of what is left. */
  method StoreUnaligned(mem: array<byte>, at: nat, data: seq<byte>, tail: seq<byte>)
    requires mem.Length == NV_SIZE && 0 < at % WORD_SIZE
    requires tail == Fill(PadTo(at + |data|))
    requires at + |data| + |tail| <= NV_SIZE
    modifies mem
    ensures mem[..] == Overwrite(old(mem[..]), at, data + tail)
  {
    ghost var m0 := mem[..];
    var rem := at % WORD_SIZE;
    var w := at - rem;
    var used := StoreHead(mem, w, rem, data);
    PadAfterHead(at, |data|, used);
    if used < |data| {
      assert data[..used] + Fill(WORD_SIZE - rem - used) == data[..used];
      ghost var m1 := mem[..];
      var rest := data[used..];
      PutWords(mem, at + used, rest);
      HeadThenRest(m0, m1, mem[..], at, data, used, tail);
    } else {
      assert data[..used] + Fill(WORD_SIZE - rem - used) == data + tail;
    }
  }

  /** Page bases are word aligned, so an offset in a page is aligned as its address is. */
  lemma PageBaseAligned(pg: nat, off: nat)
    ensures (PageBase(pg) + off) % WORD_SIZE == off % WORD_SIZE
    ensures PadTo(PageBase(pg) + off) == PadTo(off)
  {
    assert PageBase(pg) == WORD_SIZE * (pg * (HAL_FLASH_PAGE_SIZE / WORD_SIZE));
  }

  /** The data bytes `data` stored at (pg, dstOff) from its word on: the bytes of the word
      before `dstOff` are read back and kept, the run is padded with erased bytes to the next
      word boundary, and nothing else changes. */
  method StoreRun(mem: array<byte>, pg: nat, dstOff: nat, data: seq<byte>)
    requires mem.Length == NV_SIZE && pg < PAGES_USED
    requires dstOff + |data| + PadTo(dstOff + |data|) <= PAGE_SIZE
    modifies mem
    ensures mem[..] == Overwrite(old(mem[..]), PageBase(pg) + dstOff, data + Fill(PadTo(dstOff + |data|)))
  {
    PageBaseBound(pg);
    var at := PageBase(pg) + dstOff;
    PageBaseAligned(pg, dstOff);
    PageBaseAligned(pg, dstOff + |data|);
    var tail := Fill(PadTo(dstOff + |data|));
    assert at + |data| + |tail| <= NV_SIZE;
    if dstOff % WORD_SIZE != 0 {
      StoreUnaligned(mem, at, data, tail);
    } else {
      PadToAligned(dstOff, |data|);
      assert PadTo(|data|) == PadTo(dstOff + |data|);
      PutWords(mem, at, data);
    }
  }

  /** writeBuf: stores `len` bytes of `buf` at (dstPg, dstOff), padded with erased bytes to
      the next word boundary. */
  method WriteBuf(mem: array<byte>, dstPg: nat, dstOff: nat, len: u16, buf: seq<byte>)
    requires mem.Length == NV_SIZE && dstPg < PAGES_USED && len <= |buf|
    requires dstOff + len + PadTo(dstOff + len) <= PAGE_SIZE
    modifies mem
    ensures mem[..] == Overwrite(old(mem[..]), PageBase(dstPg) + dstOff, buf[..len] + Fill(PadTo(dstOff + len)))
  {
    StoreRun(mem, dstPg, dstOff, buf[..len]);
  }

  /** xferBuf: copies `len` bytes of flash from (srcPg, srcOff) to (dstPg, dstOff) with the
      same word handling as writeBuf. The source run is taken as it stands when the copy
      starts; when it lies clear of the destination that is the source as it was. */
  method XferBuf(mem: array<byte>, srcPg: nat, srcOff: nat, dstPg: nat, dstOff: nat, len: u16)
    requires mem.Length == NV_SIZE && srcPg < PAGES_USED && dstPg < PAGES_USED
    requires srcOff + len <= PAGE_SIZE
    requires dstOff + len + PadTo(dstOff + len) <= PAGE_SIZE
    modifies mem
    ensures mem[..] == Overwrite(old(mem[..]), PageBase(dstPg) + dstOff,
      old(mem[..])[PageBase(srcPg) + srcOff..PageBase(srcPg) + srcOff + len] + Fill(PadTo(dstOff + len)))
  {
    var s := PageBase(srcPg) + srcOff;
    var data := mem[s..s + len];
    StoreRun(mem, dstPg, dstOff, data);
  }
}
