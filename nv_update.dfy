/** The byte-level steps of osal_nv_write and osal_nv_read (OSAL_Nv.c): the compare loop
    that counts the bytes a write changes and predicts the new checksum, the three runs
    that build the new copy of an item from the old one and the buffer, and the read loop. */
module NvUpdate {
  import opened FlashUtil
  import opened NvFormat
  import opened NvPages

  /** The old data `s` with the bytes from `ndx` on replaced by `b`. */
  function Patched(s: seq<byte>, ndx: nat, b: seq<byte>): (r: seq<byte>)
    requires ndx + |b| <= |s|
    ensures |r| == |s|
  {
    s[..ndx] + b + s[ndx + |b|..]
  }

  /** One byte of the patched data: a byte of `b` in the patched range, the old byte
      elsewhere. */
  lemma {:induction false} PatchedAt(s: seq<byte>, ndx: nat, b: seq<byte>, i: nat)
    requires ndx + |b| <= |s| && i < |s|
    ensures Patched(s, ndx, b)[i] == if ndx <= i < ndx + |b| then b[i - ndx] else s[i]
  {
  }

  /** The byte sum of the patched data: the old sum less the replaced bytes plus the new. */
  lemma {:induction false} SumPatched(s: seq<byte>, ndx: nat, b: seq<byte>)
    requires ndx + |b| <= |s|
    ensures Sum(Patched(s, ndx, b)) == Sum(s) - Sum(s[ndx..ndx + |b|]) + Sum(b)
  {
    var head, mid, tail := s[..ndx], s[ndx..ndx + |b|], s[ndx + |b|..];
    assert s == head + mid + tail;
    assert Patched(s, ndx, b) == head + b + tail;
    SumAppend(head + mid, tail);
    SumAppend(head, mid);
    SumAppend(head + b, tail);
    SumAppend(head, b);
  }

  /** Taking `y` out of and putting `z` into a value kept in a uint16 is the same as doing
      it to the whole value and keeping the result in a uint16. */
  lemma {:induction false} ModShift(c: int, x: int, y: int, z: int)
    requires c == x % 0x10000
    ensures (c - y + z) % 0x10000 == (x - y + z) % 0x10000
  {
    ModAdd(x, z - y);
    assert c - y + z == x % 0x10000 + (z - y);
  }

  /** A checksum follows its byte sum: when the sum `sp` is `ss` less `sm` plus `sb`, the
      uint16 checksum `cp` of `sp` is the uint16 checksum `cs` of `ss` less `sm` plus `sb`,
      in uint16. */
  lemma {:induction false} ChkShift(cp: int, cs: int, sp: int, ss: int, sm: int, sb: int)
    requires cp == sp % 0x10000 && cs == ss % 0x10000 && sp == ss - sm + sb
    ensures cp == (cs - sm + sb) % 0x10000
  {
    ModShift(cs, ss, sm, sb);
  }

  /** A checksum follows its byte sum: when the sum of `p` is that of `s` less that of
      `mid` plus that of `b`, so is its uint16 checksum. */
  lemma {:induction false} SumShift(p: seq<byte>, s: seq<byte>, mid: seq<byte>, b: seq<byte>)
    requires Sum(p) == Sum(s) - Sum(mid) + Sum(b)
    ensures Chk16(p) == (Chk16(s) - Sum(mid) + Sum(b)) % 0x10000
  {
    var sp, ss, sm, sb := Sum(p), Sum(s), Sum(mid), Sum(b);
    ChkShift(Chk16(p), Chk16(s), sp, ss, sm, sb);
  }

  /** The checksum of the patched data is the old checksum less the replaced bytes plus
      the new ones, in uint16. */
  lemma {:induction false} PatchChecksum(s: seq<byte>, ndx: nat, b: seq<byte>, mid: seq<byte>, p: seq<byte>)
    requires ndx + |b| <= |s| && mid == s[ndx..ndx + |b|] && p == Patched(s, ndx, b)
    ensures Chk16(p) == (Chk16(s) - Sum(mid) + Sum(b)) % 0x10000
  {
    SumPatched(s, ndx, b);
    SumShift(p, s, mid, b);
  }

  /** The checksum the compare loop predicts is the checksum of the new copy: when the old
      data `s` with its erased padding has checksum `chk0`, the patched data with the same
      padding has the checksum `chk0` less the replaced bytes plus the new ones. */
  lemma {:induction false} PredictedChecksum(s: seq<byte>, ndx: nat, b: seq<byte>, mid: seq<byte>, chk0: u16, chk: u16)
    requires ndx + |b| <= |s| && mid == s[ndx..ndx + |b|]
    requires chk0 == Chk16(s + Fill(PadTo(|s|)))
    requires chk == (chk0 - Sum(mid) + Sum(b)) % 0x10000
    ensures Chk16(Patched(s, ndx, b) + Fill(PadTo(|s|))) == chk
  {
    var t := s + Fill(PadTo(|s|));
    assert Patched(t, ndx, b) == Patched(s, ndx, b) + Fill(PadTo(|s|)) by {
      assert t[..ndx] == s[..ndx];
      assert t[ndx + |b|..] == s[ndx + |b|..] + Fill(PadTo(|s|));
    }
    assert t[ndx..ndx + |b|] == mid;
    PatchChecksum(t, ndx, b, mid, Patched(t, ndx, b));
  }

  /** One step of the compare loop in uint16: taking `x` out of the kept value and then
      putting `y` in, each kept in a uint16, keeps `t - x + y` in a uint16. */
  lemma {:induction false} ChkStep(chk: int, t: int, x: int, y: int, t': int)
    requires chk == t % 0x10000 && t' == t - x + y
    ensures ((chk - x) % 0x10000 + y) % 0x10000 == t' % 0x10000
  {
    ModAdd(t, -x);
    ModAdd(t - x, y);
  }

  /** The sum of a run grows by its next byte. */
  lemma {:induction false} SumStepAt(s: seq<byte>, a: nat, i: nat)
    requires a + i < |s|
    ensures Sum(s[a..a + i + 1]) == Sum(s[a..a + i]) + s[a + i]
  {
    assert s[a..a + i + 1] == s[a..a + i] + [s[a + i]];
    SumAppend(s[a..a + i], [s[a + i]]);
  }

  /** One byte of the compare loop: with `diff` and `chk` right for the first `i` bytes at
      `a`, counting byte `i` when it differs and patching the checksum for it makes them
      right for the first `j == i + 1`. */
  lemma CompareStep(s: seq<byte>, a: nat, i: nat, j: nat, buf: seq<byte>, chk0: int, diff: nat, chk: int)
    requires j == i + 1 && a + j <= |s| && j <= |buf|
    requires diff == 0 <==> s[a..a + i] == buf[..i]
    requires chk == (chk0 - Sum(s[a..a + i]) + Sum(buf[..i])) % 0x10000
    ensures s[a + i] != buf[i] ==>
      s[a..a + j] != buf[..j]
      && ((chk - s[a + i]) % 0x10000 + buf[i]) % 0x10000 == (chk0 - Sum(s[a..a + j]) + Sum(buf[..j])) % 0x10000
    ensures s[a + i] == buf[i] ==>
      (diff == 0 <==> s[a..a + j] == buf[..j])
      && chk == (chk0 - Sum(s[a..a + j]) + Sum(buf[..j])) % 0x10000
  {
    var t := chk0 - Sum(s[a..a + i]) + Sum(buf[..i]);
    SumStepAt(s, a, i);
    SumStepAt(buf, 0, i);
    assert buf[..j] == buf[0..0 + i + 1] && buf[..i] == buf[0..0 + i];
    var t' := chk0 - Sum(s[a..a + j]) + Sum(buf[..j]);
    assert t' == t - s[a + i] + buf[i];
    if s[a + i] != buf[i] {
      ChkStep(chk, t, s[a + i] as int, buf[i] as int, t');
      assert s[a..a + j][i] != buf[..j][i];
    } else {
      assert s[a..a + j] == s[a..a + i] + [s[a + i]] && buf[..j] == buf[..i] + [buf[i]];
    }
  }

  /** The compare loop of osal_nv_write over the `len` bytes at `a`: `diff` counts the bytes
      that differ from the buffer, and `chk` is the header checksum `chk0` with each
      differing old byte taken out and the new one put in, in uint16. */
  method CompareBuf(mem: array<byte>, a: nat, len: u16, buf: seq<byte>, chk0: u16)
    returns (diff: u16, chk: u16)
    requires a + len <= mem.Length && len <= |buf|
    ensures diff == 0 <==> mem[a..a + len] == buf[..len]
    ensures chk == (chk0 - Sum(mem[a..a + len]) + Sum(buf[..len])) % 0x10000
  {
    ghost var s := mem[..];
    diff, chk := 0, chk0;
    var i: nat := 0;
    while i < len
      invariant i <= len && diff <= i
      invariant diff == 0 <==> s[a..a + i] == buf[..i]
      invariant chk == (chk0 - Sum(s[a..a + i]) + Sum(buf[..i])) % 0x10000
    {
      var j := i + 1;
      CompareStep(s, a, i, j, buf, chk0, diff, chk);
      if mem[a + i] != buf[i] {
        diff := diff + 1;
        var c1 := (chk - mem[a + i]) % 0x10000;
        chk := (c1 + buf[i]) % 0x10000;
      }
      i := j;
    }
    assert mem[a..a + len] == s[a..a + len];
  }

  /** Runs [x, x + n) and [y, y + k) have no byte in common. */
  predicate Clear(x: nat, n: nat, y: nat, k: nat)
  {
    x + n <= y || y + k <= x
  }

  lemma {:induction false} DataSizeMono(x: nat, y: nat)
    requires x <= y
    ensures DataSize(x) <= DataSize(y)
  {
  }

  /** Three stores, the second `k1` bytes into the first and the third `k2` bytes into the
      second, each reaching at least to the end of the one before, leave one run from `a`:
      the first parts of the first two and all of the third. */
  lemma {:induction false} CoverTwice(m0: seq<byte>, m1: seq<byte>, m2: seq<byte>, m3: seq<byte>, a: nat,
                                      x1: seq<byte>, k1: nat, b2: nat, e2: seq<byte>, k2: nat, b3: nat, e3: seq<byte>)
    requires b2 == a + k1 && k1 <= |x1| && a + |x1| <= b2 + |e2|
    requires b3 == b2 + k2 && k2 <= |e2| && b2 + |e2| <= b3 + |e3| && b3 + |e3| <= |m0|
    requires m1 == Overwrite(m0, a, x1) && m2 == Overwrite(m1, b2, e2) && m3 == Overwrite(m2, b3, e3)
    ensures m2 == Overwrite(m0, a, x1[..k1] + e2)
    ensures m3 == Overwrite(m0, a, x1[..k1] + e2[..k2] + e3)
  {
    OverwriteCover(m0, a, x1, k1, b2, e2);
    var x2 := x1[..k1] + e2;
    OverwriteCover(m0, a, x2, k1 + k2, b3, e3);
    assert x2[..k1 + k2] == x1[..k1] + e2[..k2];
  }

  /** The old bytes before the patched range, the new bytes and the old bytes after it, from
      `s2` to `e`, are the patched data. */
  lemma {:induction false} PatchedSplit(w: seq<byte>, s: nat, ndx: nat, hlen: nat, b: seq<byte>,
                                        head: seq<byte>, tail: seq<byte>, s2: nat, f: nat, e: nat)
    requires e == s + hlen && f == e && e <= |w| && ndx + |b| <= hlen && s2 == s + ndx + |b|
    requires head == w[s..s + ndx] && tail == w[s2..f]
    ensures head + b + tail == Patched(w[s..e], ndx, b)
  {
    var prior := w[s..e];
    assert prior[..ndx] == head;
    assert prior[ndx + |b|..] == tail;
  }

  /** Concatenation is associative. */
  lemma {:induction false} AppendAssoc(x: seq<byte>, y: seq<byte>, z: seq<byte>)
    ensures x + (y + z) == x + y + z
  {
  }

  /** The padding after a run at page offset `e`, that is `d + n` with `d` word-aligned, is
      the padding after `n` bytes. */
  lemma {:induction false} PadAt(d: nat, e: nat, n: nat)
    requires d % WORD_SIZE == 0 && e == d + n
    ensures PadTo(e) == PadTo(n) && n + PadTo(e) == DataSize(n)
  {
    PadToAligned(d, n);
    ItemSizeLayout(n);
  }

  /** The three runs of osal_nv_write, at the page offsets `dstOff`, `d0` and `d1`, with
      their paddings: each reaches at least as far as the one before, and the last ends
      where the new item's word-rounded data ends. */
  lemma {:induction false} RunBounds(dstOff: nat, d0: nat, d1: nat, ndx: nat, len: nat, rest: nat, hlen: nat)
    requires dstOff % WORD_SIZE == 0 && dstOff + DataSize(hlen) <= PAGE_SIZE && ndx + len + rest == hlen
    requires d0 == dstOff + ndx && d1 == d0 + len
    ensures dstOff + ndx + PadTo(dstOff + ndx) <= PAGE_SIZE
    ensures d0 + len + PadTo(d0 + len) <= PAGE_SIZE
    ensures d1 + rest + PadTo(d1 + rest) <= PAGE_SIZE
    ensures ndx + PadTo(dstOff + ndx) <= ndx + len + PadTo(d0 + len) <= hlen + PadTo(d1 + rest)
    ensures hlen + PadTo(d1 + rest) == DataSize(hlen) && PadTo(d1 + rest) == PadTo(hlen)
  {
    DataSizeMono(ndx, ndx + len);
    DataSizeMono(ndx + len, hlen);
    PadAt(dstOff, dstOff + ndx, ndx);
    PadAt(dstOff, d0 + len, ndx + len);
    PadAt(dstOff, d1 + rest, hlen);
  }

  /** Three stores from `a`: `head` and its padding `p1`, then `b` and `p2` right after
      `head`, then `tail` and `p3` right after `b`, each reaching at least as far as the one
      before, leave `head`, `b`, `tail` and `p3` in a row from `a`. */
  lemma {:induction false} ThreeStores(m0: seq<byte>, m1: seq<byte>, m2: seq<byte>, m3: seq<byte>, a: nat,
                                       head: seq<byte>, p1: seq<byte>, b: seq<byte>, p2: seq<byte>,
                                       tail: seq<byte>, p3: seq<byte>, b2: nat, b3: nat, n: nat)
    requires b2 == a + |head| && b3 == b2 + |b|
    requires |p1| <= |b| + |p2| && |p2| <= |tail| + |p3| && n == |head| + |b| + |tail| + |p3| && a + n <= |m0|
    requires m1 == Overwrite(m0, a, head + p1) && m2 == Overwrite(m1, b2, b + p2) && m3 == Overwrite(m2, b3, tail + p3)
    ensures m2 == Overwrite(m0, a, head + (b + p2))
    ensures m3 == Overwrite(m0, a, head + b + tail + p3)
    ensures m3[a..a + n] == head + b + tail + p3
  {
    CoverTwice(m0, m1, m2, m3, a, head + p1, |head|, b2, b + p2, |b|, b3, tail + p3);
    assert (head + p1)[..|head|] == head;
    assert (b + p2)[..|b|] == b;
    assert head + (b + p2)[..|b|] + (tail + p3) == head + b + tail + p3;
    OverwriteReadTo(m0, a, head + b + tail + p3, a + n);
  }

  /** The three stores of `PatchStores` at absolute addresses: the `ndx` bytes from `sa` and
      padding `p1` at `a`, then `b` and padding `p2`, then the old bytes from `s2` to `s3`,
      the rest of the `hlen` from `sa`, and padding `p3`. */
  lemma {:induction false} PatchRuns(m0: seq<byte>, m1: seq<byte>, m2: seq<byte>, m3: seq<byte>,
                                     sa: nat, a: nat, ndx: nat, hlen: nat, n: nat, b: seq<byte>,
                                     p1: seq<byte>, p2: seq<byte>, p3: seq<byte>,
                                     sn: nat, b2: nat, b3: nat, s2: nat, s3: nat, e: nat, an: nat)
    requires sn == sa + ndx && an == a + n && e == sa + hlen && s2 == sa + ndx + |b| && s3 == e && e <= |m0| && ndx + |b| <= hlen
    requires b2 == a + ndx && b3 == b2 + |b|
    requires |p1| <= |b| + |p2| && |p2| <= hlen - ndx - |b| + |p3| && n == hlen + |p3| && a + n <= |m0|
    requires m1 == Overwrite(m0, a, m0[sa..sn] + p1)
    requires m2 == Overwrite(m1, b2, b + p2)
    requires m3 == Overwrite(m2, b3, m2[s2..s3] + p3)
    ensures m3 == Overwrite(m0, a, m3[a..an])
    ensures Clear(sa, hlen, a, n) ==> m3[a..an] == Patched(m0[sa..e], ndx, b) + p3
  {
    var head := m0[sa..sn];
    var tail := m2[s2..s3];
    ThreeStores(m0, m1, m2, m3, a, head, p1, b, p2, tail, p3, b2, b3, n);
    if Clear(sa, hlen, a, n) {
      OverwriteElsewhere(m0, a, head + (b + p2), s2, s3);
      PatchedSplit(m0, sa, ndx, hlen, b, head, tail, s2, s3, e);
    }
  }

  /** The stores of xferBuf, writeBuf and xferBuf that osal_nv_write makes, one state after
      the other, as their contracts put them: the `ndx` old bytes, the bytes `b` at page
      offset `d0`, the `rest` of the old bytes from `s1` on at `d1`. Only the new item's
      word-rounded data at `dstOff` of `dstPg` changes, and with the old data clear of it
      that is the old data patched with `b`, then erased bytes. */
  lemma {:induction false} PatchStores(m0: seq<byte>, m1: seq<byte>, m2: seq<byte>, m3: seq<byte>,
                                       srcPg: nat, srcOff: nat, dstPg: nat, dstOff: nat, ndx: nat,
                                       len: nat, hlen: nat, b: seq<byte>, d0: nat, d1: nat, s1: nat, rest: nat)
    requires |m0| == NV_SIZE && srcPg < PAGES_USED && dstPg < PAGES_USED && |b| == len
    requires srcOff + hlen <= PAGE_SIZE && dstOff + DataSize(hlen) <= PAGE_SIZE
    requires rest == hlen - ndx - len && ndx + len <= hlen
    requires d0 == dstOff + ndx && d1 == d0 + len && s1 == srcOff + ndx + len
    requires ndx + PadTo(dstOff + ndx) <= ndx + len + PadTo(d0 + len) <= hlen + PadTo(d1 + rest)
    requires hlen + PadTo(d1 + rest) == DataSize(hlen) && PadTo(d1 + rest) == PadTo(hlen)
    requires m1 == Overwrite(m0, PageBase(dstPg) + dstOff,
      m0[PageBase(srcPg) + srcOff..PageBase(srcPg) + srcOff + ndx] + Fill(PadTo(dstOff + ndx)))
    requires m2 == Overwrite(m1, PageBase(dstPg) + d0, b + Fill(PadTo(d0 + len)))
    requires m3 == Overwrite(m2, PageBase(dstPg) + d1,
      m2[PageBase(srcPg) + s1..PageBase(srcPg) + s1 + rest] + Fill(PadTo(d1 + rest)))
    ensures m3 == Overwrite(m0, PageBase(dstPg) + dstOff,
      m3[PageBase(dstPg) + dstOff..PageBase(dstPg) + dstOff + DataSize(hlen)])
    ensures Clear(PageBase(srcPg) + srcOff, hlen, PageBase(dstPg) + dstOff, DataSize(hlen)) ==>
      m3[PageBase(dstPg) + dstOff..PageBase(dstPg) + dstOff + DataSize(hlen)]
        == Patched(m0[PageBase(srcPg) + srcOff..PageBase(srcPg) + srcOff + hlen], ndx, b)
           + Fill(PadTo(hlen))
  {
    PageBaseBound(srcPg);
    PageBaseBound(dstPg);
    var sa, a, n := PageBase(srcPg) + srcOff, PageBase(dstPg) + dstOff, DataSize(hlen);
    var b2, b3, s2 := PageBase(dstPg) + d0, PageBase(dstPg) + d1, PageBase(srcPg) + s1;
    var sn, e, an := sa + ndx, sa + hlen, a + n;
    assert s2 + rest == e;
    var p1, p2, p3 := Fill(PadTo(dstOff + ndx)), Fill(PadTo(d0 + len)), Fill(PadTo(hlen));
    assert m1 == Overwrite(m0, a, m0[sa..sn] + p1);
    assert m2 == Overwrite(m1, b2, b + p2);
    assert m3 == Overwrite(m2, b3, m2[s2..e] + p3);
    PatchRuns(m0, m1, m2, m3, sa, a, ndx, hlen, n, b, p1, p2, p3, sn, b2, b3, s2, e, e, an);
  }

  /** The copy of osal_nv_write into the new item's data at page offset `dstOff` of `dstPg`:
      `ndx` old bytes from `srcOff` on `srcPg` (xferBuf), the `len` bytes of the buffer
      (writeBuf), then the rest of the `hlen` old bytes (xferBuf). Only the new item's
      word-rounded data changes; when the old data lies clear of it, it ends up as the old
      data patched with the buffer, then erased bytes. */
  method PatchItem(mem: array<byte>, srcPg: nat, srcOff: nat, dstPg: nat, dstOff: nat,
                   ndx: u16, len: u16, hlen: u16, buf: seq<byte>)
    requires mem.Length == NV_SIZE && srcPg < PAGES_USED && dstPg < PAGES_USED
    requires srcOff + hlen <= PAGE_SIZE && dstOff % WORD_SIZE == 0 && dstOff + DataSize(hlen) <= PAGE_SIZE
    requires ndx + len <= hlen && len <= |buf|
    modifies mem
    ensures mem[..] == Overwrite(old(mem[..]), PageBase(dstPg) + dstOff,
      mem[PageBase(dstPg) + dstOff..PageBase(dstPg) + dstOff + DataSize(hlen)])
    ensures Clear(PageBase(srcPg) + srcOff, hlen, PageBase(dstPg) + dstOff, DataSize(hlen)) ==>
      mem[PageBase(dstPg) + dstOff..PageBase(dstPg) + dstOff + DataSize(hlen)]
        == Patched(old(mem[..])[PageBase(srcPg) + srcOff..PageBase(srcPg) + srcOff + hlen], ndx, buf[..len])
           + Fill(PadTo(hlen))
  {
    PageBaseBound(srcPg);
    PageBaseBound(dstPg);
    var rest := hlen - ndx - len;
    var d0 := dstOff + ndx;
    var s1, d1 := srcOff + ndx + len, d0 + len;
    RunBounds(dstOff, d0, d1, ndx, len, rest, hlen);
    ghost var m0 := mem[..];
    XferBuf(mem, srcPg, srcOff, dstPg, dstOff, ndx);
    ghost var m1 := mem[..];
    WriteBuf(mem, dstPg, d0, len, buf);
    ghost var m2 := mem[..];
    XferBuf(mem, srcPg, s1, dstPg, d1, rest);
    PatchStores(m0, m1, m2, mem[..], srcPg, srcOff, dstPg, dstOff, ndx, len, hlen, buf[..len], d0, d1, s1, rest);
  }

  /** The copy loop of osal_nv_read: the `len` bytes from `a` on. */
  method CopyOut(mem: array<byte>, a: nat, len: u16) returns (data: seq<byte>)
    requires a + len <= mem.Length
    ensures data == mem[a..a + len]
  {
    data := [];
    var i: nat := 0;
    while i < len
      invariant i <= len && data == mem[a..a + i]
    {
      data := data + [mem[a + i]];
      i := i + 1;
    }
  }
}
