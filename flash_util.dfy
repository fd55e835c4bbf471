/** Model of the flash helper of the OSAL NV engine (OSAL_Flashutil.c), in the form of its
    simulator build: the NV pages are a RAM array `nvDataBuf`, written four bytes at a time.
    The array is contiguous in the source (`uint8_t nvDataBuf[PAGE_CNT][PAGE_SIZE]`), so it is
    modelled as one byte array addressed from the start of the NV area. */
module FlashUtil {

  type byte = x: int | 0 <= x < 0x100

  /** Geometry of the NV area: the HAL configuration values of the build. */
  const HAL_FLASH_PAGE_SIZE: nat := 2048
  const HAL_NV_PAGE_CNT: nat := 4
  const NV_SIZE: nat := HAL_NV_PAGE_CNT * HAL_FLASH_PAGE_SIZE

  /** The value of an erased flash byte. */
  const FLASH_ERASED: byte := 0xFF

  /** Address, relative to the start of the NV area, of the first byte of page `pg`. */
  function PageBase(pg: nat): nat
  {
    pg * 2048
  }

  /** A run inside a run is a run of the whole. */
  lemma SliceOfSlice(s: seq<byte>, a: nat, e: nat, i: nat, j: nat, x: nat, y: nat)
    requires a <= e <= |s| && i <= j <= e - a && x == a + i && y == a + j
    ensures s[a..e][i..j] == s[x..y]
  {
    assert forall k :: 0 <= k < j - i ==> s[a..e][i..j][k] == s[x..y][k];
  }

  /** Each page of the NV area lies inside it. */
  lemma PageBaseBound(pg: nat)
    requires pg < HAL_NV_PAGE_CNT
    ensures PageBase(pg) + HAL_FLASH_PAGE_SIZE <= NV_SIZE
  {
  }

  /** A run of `n` erased bytes. */
  function Fill(n: nat): (r: seq<byte>)
    ensures |r| == n
    ensures forall k :: 0 <= k < n ==> r[k] == FLASH_ERASED
  {
    seq(n, _ => FLASH_ERASED)
  }

  /** Memory `s` after the bytes `d` have been stored from address `at` on: every byte in
      the range holds the corresponding byte of `d`, every other byte is untouched. */
  function Overwrite(s: seq<byte>, at: nat, d: seq<byte>): (r: seq<byte>)
    requires at + |d| <= |s|
    ensures |r| == |s|
  {
    s[..at] + d + s[at + |d|..]
  }

  /** Byte by byte, the stored memory holds `d` in the range and `s` elsewhere. */
  lemma OverwriteBytes(s: seq<byte>, at: nat, d: seq<byte>)
    requires at + |d| <= |s|
    ensures forall k :: 0 <= k < |s| ==>
      Overwrite(s, at, d)[k] == (if at <= k < at + |d| then d[k - at] else s[k])
  {
  }

  /** One byte of the stored memory: the byte of `d` in the range, the old byte elsewhere. */
  lemma OverwriteAt(s: seq<byte>, at: nat, d: seq<byte>, k: nat)
    requires at + |d| <= |s| && k < |s|
    ensures Overwrite(s, at, d)[k] == if at <= k < at + |d| then d[k - at] else s[k]
  {
    OverwriteBytes(s, at, d);
  }

  /** Reading back the range just stored gives the stored bytes. */
  lemma OverwriteRead(s: seq<byte>, at: nat, d: seq<byte>)
    requires at + |d| <= |s|
    ensures Overwrite(s, at, d)[at..at + |d|] == d
  {
    OverwriteBytes(s, at, d);
  }

  /** How flashWrite cuts a write of `len` bytes at `addr` into an unaligned head, whole
      middle words and an unaligned tail. */
  datatype WriteSplit = WriteSplit(startBytes: nat, middleBytes: nat, endBytes: nat)

  function SplitWrite(addr: nat, len: nat): (r: WriteSplit)
    ensures r.startBytes + r.middleBytes + r.endBytes == len
    ensures r.middleBytes % 4 == 0 && r.endBytes < 4
    ensures r.startBytes <= 4 - addr % 4
    // the head ends on a word boundary unless it is the whole write
    ensures r.startBytes < len ==> (addr + r.startBytes) % 4 == 0
    // an aligned write has no head: whole words, then one tail word
    ensures addr % 4 == 0 ==> r.startBytes == 0 && r.middleBytes == len - len % 4 && r.endBytes == len % 4
  {
    var start: nat :=
      if addr % 4 != 0 then
        (if addr / 4 == (addr + len) / 4 then len else 4 - addr % 4)
      else 0;
    var rest := len - start;
    if rest > 0 then WriteSplit(start, rest - rest % 4, rest % 4) else WriteSplit(start, 0, 0)
  }

  /** flash_write_word: one aligned 4-byte store into the RAM array. */
  method FlashWriteWord(mem: array<byte>, wordAddr: nat, data: seq<byte>)
    requires wordAddr % 4 == 0 && wordAddr + 4 <= mem.Length && |data| == 4
    modifies mem
    ensures mem[..] == Overwrite(old(mem[..]), wordAddr, data)
  {
    OverwriteBytes(mem[..], wordAddr, data);
    mem[wordAddr] := data[0];
    mem[wordAddr + 1] := data[1];
    mem[wordAddr + 2] := data[2];
    mem[wordAddr + 3] := data[3];
  }

  /** Storing `d` and then `e` right after it is storing `d + e`. */
  lemma OverwriteAppend(s: seq<byte>, a: nat, d: seq<byte>, e: seq<byte>)
    requires a + |d| + |e| <= |s|
    ensures Overwrite(Overwrite(s, a, d), a + |d|, e) == Overwrite(s, a, d + e)
  {
    var l := Overwrite(Overwrite(s, a, d), a + |d|, e);
    var r := Overwrite(s, a, d + e);
    OverwriteBytes(s, a, d);
    OverwriteBytes(Overwrite(s, a, d), a + |d|, e);
    OverwriteBytes(s, a, d + e);
    assert forall k | 0 <= k < |s| :: l[k] == r[k];
  }

  /** Storing `e` at `b`, `k` bytes into the run `d` just stored at `a` and reaching at least
      to its end, leaves the first `k` bytes of `d` followed by `e`. */
  lemma OverwriteCover(s: seq<byte>, a: nat, d: seq<byte>, k: nat, b: nat, e: seq<byte>)
    requires b == a + k && k <= |d| && a + |d| <= b + |e| && b + |e| <= |s|
    ensures Overwrite(Overwrite(s, a, d), b, e) == Overwrite(s, a, d[..k] + e)
  {
    var l := Overwrite(Overwrite(s, a, d), b, e);
    var r := Overwrite(s, a, d[..k] + e);
    forall i | 0 <= i < |s| ensures l[i] == r[i] {
      OverwriteAt(s, a, d, i);
      OverwriteAt(Overwrite(s, a, d), b, e, i);
      OverwriteAt(s, a, d[..k] + e, i);
    }
  }

  /** Reading back the range just stored, up to `e`, gives the stored bytes. */
  lemma OverwriteReadTo(s: seq<byte>, at: nat, d: seq<byte>, e: nat)
    requires e == at + |d| && e <= |s|
    ensures Overwrite(s, at, d)[at..e] == d
  {
    OverwriteRead(s, at, d);
  }

  /** Writing back a word whose bytes outside `d` were read from memory is storing `d` alone. */
  lemma OverwriteWithOwn(s: seq<byte>, w: nat, a: nat, d: seq<byte>, b: nat)
    requires w <= a && a + |d| <= b <= |s|
    ensures Overwrite(s, w, s[w..a] + d + s[a + |d|..b]) == Overwrite(s, a, d)
  {
    var t := s[w..a] + d + s[a + |d|..b];
    var l := Overwrite(s, w, t);
    var r := Overwrite(s, a, d);
    OverwriteBytes(s, w, t);
    OverwriteBytes(s, a, d);
    assert forall k | 0 <= k < |s| :: l[k] == r[k] by {
      forall k | 0 <= k < |s| ensures l[k] == r[k] {
        if w <= k < b {
          assert l[k] == t[k - w];
        }
      }
    }
  }

  /** Storing `d` at `at` leaves a run of memory outside the stored range as it was. */
  lemma OverwriteElsewhere(s: seq<byte>, at: nat, d: seq<byte>, x: nat, y: nat)
    requires at + |d| <= |s| && x <= y <= |s|
    requires y <= at || at + |d| <= x
    ensures Overwrite(s, at, d)[x..y] == s[x..y]
  {
    var r := Overwrite(s, at, d);
    OverwriteBytes(s, at, d);
    assert forall k | x <= k < y :: r[x..y][k - x] == r[k];
  }

  /** The read-modify-write step flashWrite applies to a partial word: the word at
      `wordAddr` is read, bytes `d` are patched in from byte `off` of the word on, and the
      word is written back, so its other bytes keep their values. */
  method PatchWord(mem: array<byte>, wordAddr: nat, off: nat, d: seq<byte>)
    requires wordAddr % 4 == 0 && wordAddr + 4 <= mem.Length && off + |d| <= 4
    modifies mem
    ensures mem[..] == Overwrite(old(mem[..]), wordAddr + off, d)
  {
    ghost var m0 := mem[..];
    var temp := mem[wordAddr..wordAddr + 4];
    var i := 0;
    while i < |d|
      invariant 0 <= i <= |d|
      invariant |temp| == 4
      invariant forall t :: 0 <= t < 4 ==>
        temp[t] == (if off <= t < off + i then d[t - off] else m0[wordAddr + t])
    {
      temp := temp[i + off := d[i]];
      i := i + 1;
    }
    assert temp == m0[wordAddr..wordAddr + off] + d + m0[wordAddr + off + |d|..wordAddr + 4];
    OverwriteWithOwn(m0, wordAddr, wordAddr + off, d, wordAddr + 4);
    FlashWriteWord(mem, wordAddr, temp);
  }

  /** The whole-word phase of flashWrite: `d` is stored a word at a time from the aligned
      address `wordAddr`. */
  method WriteWords(mem: array<byte>, wordAddr: nat, d: seq<byte>)
    requires wordAddr % 4 == 0 && |d| % 4 == 0 && wordAddr + |d| <= mem.Length
    modifies mem
    ensures mem[..] == Overwrite(old(mem[..]), wordAddr, d)
  {
    ghost var m0 := mem[..];
    var i := 0;
    while i < |d|
      invariant 0 <= i <= |d| && i % 4 == 0
      invariant mem[..] == Overwrite(m0, wordAddr, d[..i])
    {
      var temp := d[i..i + 4];
      StoreInPieces(m0, wordAddr, d, i, i + 4);
      FlashWriteWord(mem, wordAddr + i, temp);
      i := i + 4;
    }
    assert d[..i] == d;
  }

  /** `n` rounded down to whole words is a whole number of words, less than a word below `n`. */
  lemma WordFloor(n: nat)
    ensures (n - n % 4) % 4 == 0 && n - n % 4 <= n < n - n % 4 + 4
  {
    assert n - n % 4 == 4 * (n / 4);
  }

  /** An aligned address below an aligned end leaves room for a whole word. */
  lemma WordRoom(a: nat, n: nat)
    requires a % 4 == 0 && n % 4 == 0 && a < n
    ensures a + 4 <= n
  {
    assert a == 4 * (a / 4) && n == 4 * (n / 4);
  }

  /** The middle and tail phases of flashWrite, from an aligned address on: whole words,
      then the last partial word by read-modify-write. */
  method WriteAligned(mem: array<byte>, wordAddr: nat, d: seq<byte>)
    requires wordAddr % 4 == 0 && wordAddr + |d| <= mem.Length && mem.Length % 4 == 0
    modifies mem
    ensures mem[..] == Overwrite(old(mem[..]), wordAddr, d)
  {
    ghost var m0 := mem[..];
    var e := |d| - |d| % 4;
    WordFloor(|d|);
    WriteWords(mem, wordAddr, d[..e]);
    if e < |d| {
      ghost var m1 := mem[..];
      WordRoom(wordAddr + e, mem.Length);
      PatchWord(mem, wordAddr + e, 0, d[e..]);
      StoreInPieces(m0, wordAddr, d, e, |d|);
      assert d[e..] == d[e..|d|] && d[..|d|] == d;
    } else {
      assert d[..e] == d;
    }
  }

  /** flashWrite: stores `buf[..len]` at `addr`. The partial words at either end are read,
      patched and written back, so the bytes of those words outside the range keep their
      values; a write of zero bytes changes nothing. */
  method FlashWrite(mem: array<byte>, addr: nat, len: nat, buf: seq<byte>)
    requires len <= |buf| && addr + len <= mem.Length && mem.Length % 4 == 0
    modifies mem
    ensures mem[..] == Overwrite(old(mem[..]), addr, buf[..len])
  {
    ghost var m0 := mem[..];
    if len > 0 {
      var sp := SplitWrite(addr, len);
      var s := sp.startBytes;
      if s > 0 {
        var w, o := addr - addr % 4, addr % 4;
        WordFloor(addr);
        WordRoom(w, mem.Length);
        PatchWord(mem, w, o, buf[..s]);
        assert w + o == addr;
      }
      if s < len {
        WriteAligned(mem, addr + s, buf[s..len]);
        StoreInPieces(m0, addr, buf, s, len);
      }
    }
  }

  /** Storing the first `a` bytes of `buf` and then the next `b - a` is storing the first `b`. */
  lemma StoreInPieces(s: seq<byte>, at: nat, buf: seq<byte>, a: nat, b: nat)
    requires a <= b <= |buf| && at + b <= |s|
    ensures Overwrite(Overwrite(s, at, buf[..a]), at + a, buf[a..b]) == Overwrite(s, at, buf[..b])
  {
    OverwriteAppend(s, at, buf[..a], buf[a..b]);
    assert buf[..a] + buf[a..b] == buf[..b];
  }

  /** flashErasePage: every byte of the page holding `addr` becomes erased; the other pages
      are untouched. */
  method FlashErasePage(mem: array<byte>, addr: nat)
    requires mem.Length == NV_SIZE && addr < NV_SIZE
    modifies mem
    ensures mem[..] == Overwrite(old(mem[..]), PageBase(addr / HAL_FLASH_PAGE_SIZE), Fill(HAL_FLASH_PAGE_SIZE))
  {
    var base := PageBase(addr / HAL_FLASH_PAGE_SIZE);
    var cnt := HAL_FLASH_PAGE_SIZE;
    var p := base;
    while cnt > 0
      invariant 0 <= cnt <= HAL_FLASH_PAGE_SIZE
      invariant p == base + (HAL_FLASH_PAGE_SIZE - cnt)
      invariant forall k :: 0 <= k < mem.Length ==>
        mem[k] == (if base <= k < p then FLASH_ERASED else old(mem[k]))
    {
      mem[p] := FLASH_ERASED;
      p := p + 1;
      cnt := cnt - 1;
    }
    OverwriteBytes(old(mem[..]), base, Fill(HAL_FLASH_PAGE_SIZE));
    assert forall k :: 0 <= k < mem.Length ==>
      mem[..][k] == Overwrite(old(mem[..]), base, Fill(HAL_FLASH_PAGE_SIZE))[k];
  }

  /** initFlash (simulator build): every byte of every NV page becomes erased. */
  method InitFlash(mem: array<byte>)
    requires mem.Length == NV_SIZE
    modifies mem
    ensures mem[..] == Fill(NV_SIZE)
  {
    var pg := 0;
    while pg < HAL_NV_PAGE_CNT
      invariant 0 <= pg <= HAL_NV_PAGE_CNT
      invariant forall k :: 0 <= k < PageBase(pg) ==> mem[k] == FLASH_ERASED
    {
      var offset := 0;
      while offset < HAL_FLASH_PAGE_SIZE
        invariant 0 <= offset <= HAL_FLASH_PAGE_SIZE
        invariant forall k :: 0 <= k < PageBase(pg) + offset ==> mem[k] == FLASH_ERASED
      {
        mem[PageBase(pg) + offset] := FLASH_ERASED;
        offset := offset + 1;
      }
      pg := pg + 1;
    }
    assert forall k :: 0 <= k < NV_SIZE ==> mem[..][k] == Fill(NV_SIZE)[k];
  }
}
