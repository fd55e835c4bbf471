/** The walks along a page's item chain, seen from the bytes they read: which part of a page
    a walk depends on, how far along the chain it gets (`Reaches`), initPage's recovery walk,
    and what the lookup walk sees after a new item was appended at the end of a chain. */
module NvWalks {
  import opened FlashUtil
  import opened NvFormat

  // ---------------------------------------------------------------- spans of a page

  /** Bytes `lo` up to `hi` of page `pg` are the same in `m0` and `m1`. */
  ghost predicate SameSpan(m0: seq<byte>, m1: seq<byte>, pg: nat, lo: nat, hi: nat)
    requires |m0| == NV_SIZE && |m1| == NV_SIZE && pg < PAGES_USED && hi <= PAGE_SIZE
  {
    forall k :: lo <= k < hi ==> PageImage(m1, pg)[k] == PageImage(m0, pg)[k]
  }

  /** From `m0` to `m1` nothing changed but bytes `lo` up to `hi` of page `pg`. */
  ghost predicate Within(m0: seq<byte>, m1: seq<byte>, pg: nat, lo: nat, hi: nat)
    requires |m0| == NV_SIZE && |m1| == NV_SIZE && pg < PAGES_USED && lo <= hi <= PAGE_SIZE
  {
    (forall q :: 0 <= q < PAGES_USED && q != pg ==> PageImage(m1, q) == PageImage(m0, q))
    && SameSpan(m0, m1, pg, 0, lo) && SameSpan(m0, m1, pg, hi, PAGE_SIZE)
  }

  /** Memory left as it was changed nothing outside any span. */
  lemma WithinNothing(m: seq<byte>, pg: nat, lo: nat, hi: nat)
    requires |m| == NV_SIZE && pg < PAGES_USED && lo <= hi <= PAGE_SIZE
    ensures Within(m, m, pg, lo, hi)
  {
  }

  /** A store of `d` at offset `a` of page `pg` changes only those bytes. */
  lemma StoreWithin(m: seq<byte>, pg: nat, a: nat, d: seq<byte>)
    requires |m| == NV_SIZE && pg < PAGES_USED && a + |d| <= PAGE_SIZE
    ensures Within(m, Overwrite(m, PageBase(pg) + a, d), pg, a, a + |d|)
  {
    PageBaseBound(pg);
    var m' := Overwrite(m, PageBase(pg) + a, d);
    forall q | 0 <= q < PAGES_USED && q != pg
      ensures PageImage(m', q) == PageImage(m, q)
    {
      OverwriteOtherPage(m, pg, PageBase(pg) + a, d, q);
    }
    OverwriteBytes(m, PageBase(pg) + a, d);
  }

  /** Two spans kept one after the other keep their common part. */
  lemma SpanTrans(m0: seq<byte>, m1: seq<byte>, m2: seq<byte>, pg: nat, a0: nat, b0: nat, a1: nat, b1: nat,
                  lo: nat, hi: nat)
    requires |m0| == NV_SIZE && |m1| == NV_SIZE && |m2| == NV_SIZE && pg < PAGES_USED && b0 <= PAGE_SIZE && b1 <= PAGE_SIZE
    requires SameSpan(m0, m1, pg, a0, b0) && SameSpan(m1, m2, pg, a1, b1)
    requires a0 <= lo && a1 <= lo && hi <= b0 && hi <= b1
    ensures SameSpan(m0, m2, pg, lo, hi)
  {
    forall k | lo <= k < hi
      ensures PageImage(m2, pg)[k] == PageImage(m0, pg)[k]
    {
      assert PageImage(m1, pg)[k] == PageImage(m0, pg)[k];
    }
  }

  /** A span kept keeps every span inside it. */
  lemma SpanSub(m0: seq<byte>, m1: seq<byte>, pg: nat, a: nat, b: nat, lo: nat, hi: nat)
    requires |m0| == NV_SIZE && |m1| == NV_SIZE && pg < PAGES_USED && b <= PAGE_SIZE
    requires SameSpan(m0, m1, pg, a, b) && a <= lo && hi <= b
    ensures SameSpan(m0, m1, pg, lo, hi)
  {
  }

  /** Two changes confined to a span make one. */
  lemma WithinTrans(m0: seq<byte>, m1: seq<byte>, m2: seq<byte>, pg: nat, lo: nat, hi: nat)
    requires |m0| == NV_SIZE && |m1| == NV_SIZE && |m2| == NV_SIZE && pg < PAGES_USED && lo <= hi <= PAGE_SIZE
    requires Within(m0, m1, pg, lo, hi) && Within(m1, m2, pg, lo, hi)
    ensures Within(m0, m2, pg, lo, hi)
  {
    forall q | 0 <= q < PAGES_USED && q != pg
      ensures PageImage(m2, q) == PageImage(m0, q)
    {
      assert PageImage(m2, q) == PageImage(m1, q);
    }
  }

  /** A change confined to a span is confined to any span around it. */
  lemma WithinWiden(m0: seq<byte>, m1: seq<byte>, pg: nat, lo: nat, hi: nat, lo': nat, hi': nat)
    requires |m0| == NV_SIZE && |m1| == NV_SIZE && pg < PAGES_USED && lo' <= lo <= hi <= hi' <= PAGE_SIZE
    requires Within(m0, m1, pg, lo, hi)
    ensures Within(m0, m1, pg, lo', hi')
  {
  }

  /** A store of `d` at offset `a` of page `pg` changes only the span `lo` to `hi` around it. */
  lemma StoreWithinSpan(m: seq<byte>, pg: nat, a: nat, d: seq<byte>, lo: nat, hi: nat)
    requires |m| == NV_SIZE && pg < PAGES_USED && lo <= a && a + |d| <= hi <= PAGE_SIZE
    ensures Within(m, Overwrite(m, PageBase(pg) + a, d), pg, lo, hi)
  {
    StoreWithin(m, pg, a, d);
    WithinWiden(m, Overwrite(m, PageBase(pg) + a, d), pg, a, a + |d|, lo, hi);
  }

  /** From `m0` to `m1` nothing changed but bytes `alo` up to `ahi` of page `a` and bytes
      `blo` up to `bhi` of page `b`. */
  ghost predicate WithinTwo(m0: seq<byte>, m1: seq<byte>, a: nat, alo: nat, ahi: nat, b: nat, blo: nat, bhi: nat)
    requires |m0| == NV_SIZE && |m1| == NV_SIZE && a < PAGES_USED && b < PAGES_USED
    requires alo <= ahi <= PAGE_SIZE && blo <= bhi <= PAGE_SIZE
  {
    (forall q :: 0 <= q < PAGES_USED && q != a && q != b ==> PageImage(m1, q) == PageImage(m0, q))
    && SameSpan(m0, m1, a, 0, alo) && SameSpan(m0, m1, a, ahi, PAGE_SIZE)
    && SameSpan(m0, m1, b, 0, blo) && SameSpan(m0, m1, b, bhi, PAGE_SIZE)
  }

  /** A change to a span of one page followed by a change to a span of another. */
  lemma WithinThenWithin(m0: seq<byte>, m1: seq<byte>, m2: seq<byte>, a: nat, alo: nat, ahi: nat,
                         b: nat, blo: nat, bhi: nat)
    requires |m0| == NV_SIZE && |m1| == NV_SIZE && |m2| == NV_SIZE && a < PAGES_USED && b < PAGES_USED && a != b
    requires alo <= ahi <= PAGE_SIZE && blo <= bhi <= PAGE_SIZE
    requires Within(m0, m1, a, alo, ahi) && Within(m1, m2, b, blo, bhi)
    ensures WithinTwo(m0, m2, a, alo, ahi, b, blo, bhi)
  {
    forall q | 0 <= q < PAGES_USED && q != a && q != b
      ensures PageImage(m2, q) == PageImage(m0, q)
    {
      assert PageImage(m2, q) == PageImage(m1, q);
    }
    assert PageImage(m2, a) == PageImage(m1, a);
    assert PageImage(m1, b) == PageImage(m0, b);
  }

  /** A header inside the span reads the same in both images. */
  lemma SpanHdr(m0: seq<byte>, m1: seq<byte>, pg: nat, lo: nat, hi: nat, o: nat)
    requires |m0| == NV_SIZE && |m1| == NV_SIZE && pg < PAGES_USED && hi <= PAGE_SIZE
    requires SameSpan(m0, m1, pg, lo, hi) && lo <= o && o + HDR_SIZE <= hi
    ensures HdrAt(m1, pg, o) == HdrAt(m0, pg, o)
    ensures Field(m1, pg, o, HDR_ID) == Field(m0, pg, o, HDR_ID)
    ensures Field(m1, pg, o, HDR_LEN) == Field(m0, pg, o, HDR_LEN)
    ensures Field(m1, pg, o, HDR_CHK) == Field(m0, pg, o, HDR_CHK)
    ensures Field(m1, pg, o, HDR_STAT) == Field(m0, pg, o, HDR_STAT)
    ensures Field(m1, pg, o, HDR_LIVE) == Field(m0, pg, o, HDR_LIVE)
  {
    PageBaseBound(pg);
    var a := PageBase(pg) + o;
    var s0, s1 := m0[a..a + HDR_SIZE], m1[a..a + HDR_SIZE];
    forall k | 0 <= k < HDR_SIZE
      ensures s1[k] == s0[k]
    {
      assert PageImage(m1, pg)[o + k] == PageImage(m0, pg)[o + k];
    }
    assert s1 == s0;
    HdrAtFields(m0, pg, o);
    HdrAtFields(m1, pg, o);
  }

  /** The data of an item inside the span reads the same in both images. */
  lemma SpanData(m0: seq<byte>, m1: seq<byte>, pg: nat, lo: nat, hi: nat, o: nat, len: nat)
    requires |m0| == NV_SIZE && |m1| == NV_SIZE && pg < PAGES_USED && hi <= PAGE_SIZE
    requires SameSpan(m0, m1, pg, lo, hi) && lo <= o + HDR_SIZE && o + ItemSize(len) <= hi
    ensures ItemData(m1, pg, o, len) == ItemData(m0, pg, o, len)
  {
    PageBaseBound(pg);
    var a := PageBase(pg) + o + HDR_SIZE;
    var s0, s1 := m0[a..a + DataSize(len)], m1[a..a + DataSize(len)];
    forall k | 0 <= k < DataSize(len)
      ensures s1[k] == s0[k]
    {
      assert PageImage(m1, pg)[o + HDR_SIZE + k] == PageImage(m0, pg)[o + HDR_SIZE + k];
    }
    assert s1 == s0;
  }

  /** Page `pg` holds erased bytes from `o` to its end. */
  ghost predicate ErasedFrom(m: seq<byte>, pg: nat, o: nat)
    requires |m| == NV_SIZE && pg < PAGES_USED
  {
    forall k :: o <= k < PAGE_SIZE ==> PageImage(m, pg)[k] == FLASH_ERASED
  }

  /** A header in erased bytes has the erased id. */
  lemma ErasedFromId(m: seq<byte>, pg: nat, o: nat, x: nat)
    requires |m| == NV_SIZE && pg < PAGES_USED && ErasedFrom(m, pg, o) && o <= x && x + HDR_SIZE <= PAGE_SIZE
    ensures Field(m, pg, x, HDR_ID) == ERASED_ID && Field(m, pg, x, HDR_LIVE) == ERASED_ID
    ensures Field(m, pg, x, HDR_STAT) == ERASED_ID
  {
    PageBaseBound(pg);
    var a := PageBase(pg) + x;
    assert m[a] == PageImage(m, pg)[x] && m[a + 1] == PageImage(m, pg)[x + 1];
    assert m[a + 8] == PageImage(m, pg)[x + 8] && m[a + 9] == PageImage(m, pg)[x + 9];
    assert m[a + 12] == PageImage(m, pg)[x + 12] && m[a + 13] == PageImage(m, pg)[x + 13];
    U16Erased(m, a);
    U16Erased(m, a + HDR_STAT);
    U16Erased(m, a + HDR_LIVE);
  }

  // ---------------------------------------------------------------- the recovery walk

  /** One iteration of initPage's loop in recovery mode (no id) at header offset `offset`
      with `lost` bytes counted so far. Past the last place a header fits, or at an erased
      id, the walk ends here; a length running past the page ends it at the page end with
      the rest of the page lost. An item zeroed before, or live with a bad checksum (which
      the walk zeroes), is stepped over and counted as lost. A live item with a good
      checksum is stepped over, except that without `findDups` a transferred one (stat
      flag cleared) stops the walk, so that initNV can restart it looking for duplicates. */
  function InitWalkStep(m: seq<byte>, pg: nat, offset: nat, lost: nat, findDups: bool): (s: Step)
    requires |m| == NV_SIZE && pg < PAGES_USED && offset <= PAGE_SIZE
    ensures s.Next? ==> offset < s.off <= PAGE_SIZE && s.lost - lost <= s.off - offset
    ensures s.Next? ==> offset + HDR_SIZE < PAGE_SIZE && s.off == offset + ItemSize(Field(m, pg, offset, HDR_LEN))
    ensures s.Next? && offset % WORD_SIZE == 0 ==> s.off % WORD_SIZE == 0
    ensures s.Stop? && s.result.Ended? ==>
      offset <= s.result.off <= PAGE_SIZE && s.result.lost - lost <= s.result.off - offset
      && (offset % WORD_SIZE == 0 ==> s.result.off % WORD_SIZE == 0)
    ensures s.Stop? && s.result.Found? ==>
      !findDups && s.result.dataOff == offset + HDR_SIZE && offset + HDR_SIZE < PAGE_SIZE
  {
    if offset >= PAGE_SIZE - HDR_SIZE then Stop(Ended(offset, lost))
    else
      var len := Field(m, pg, offset, HDR_LEN);
      var sz := DataSize(len);
      if Field(m, pg, offset, HDR_ID) == ERASED_ID then Stop(Ended(offset, lost))
      else if sz > PAGE_SIZE - HDR_SIZE - offset then Stop(Ended(PAGE_SIZE, lost + (PAGE_SIZE - offset)))
      else if Field(m, pg, offset, HDR_LIVE) == ZEROED_ID
              || Field(m, pg, offset, HDR_CHK) != Chk16(ItemData(m, pg, offset, len)) then
        Next(offset + HDR_SIZE + sz, lost + HDR_SIZE + sz)
      else if !findDups && Field(m, pg, offset, HDR_STAT) != ERASED_ID then Stop(Found(offset + HDR_SIZE))
      else Next(offset + HDR_SIZE + sz, lost)
  }

  /** initPage's recovery walk without `findDups`, from `offset` with `lost` bytes counted:
      where the page's first erased space is and how many bytes its zeroed and corrupt items
      and any broken tail hold, or, as `Found`, the data of a transferred item that stops
      the walk. */
  function InitWalk(m: seq<byte>, pg: nat, offset: nat, lost: nat): (r: Scan)
    requires |m| == NV_SIZE && pg < PAGES_USED && offset <= PAGE_SIZE
    ensures r.Ended? ==> offset <= r.off <= PAGE_SIZE && r.lost - lost <= r.off - offset
    ensures r.Ended? && offset % WORD_SIZE == 0 ==> r.off % WORD_SIZE == 0
    ensures r.Found? ==> offset + HDR_SIZE <= r.dataOff <= PAGE_SIZE
    decreases PAGE_SIZE - offset
  {
    match InitWalkStep(m, pg, offset, lost, false)
    case Stop(r) => r
    case Next(o, l) => InitWalk(m, pg, o, l)
  }

  /** A page whose recovery walk ends carries the walk's cursor and lost count, and that
      walk has nothing left to zero: it agrees with the measuring walk. */
  ghost predicate Settled(m: seq<byte>, off: seq<u16>, lost: seq<u16>, p: nat)
    requires |m| == NV_SIZE && |off| == PAGES_USED && |lost| == PAGES_USED && p < PAGES_USED
  {
    Extent(m, p) == Ended(off[p], lost[p]) && InitWalk(m, p, PG_HDR_SIZE, 0) == Extent(m, p)
  }

  /** The recovery walk of page `p` stops at a live transferred item with a good checksum. */
  ghost predicate Pending(m: seq<byte>, p: nat)
    requires |m| == NV_SIZE && p < PAGES_USED
  {
    InitWalk(m, p, PG_HDR_SIZE, 0).Found?
  }

  // ---------------------------------------------------------------- chains

  /** The two walks along a page's item chain: findItem's lookup of an id (ITEM_NULL only
      measures the page) and initPage's recovery walk. */
  datatype Mode = Lookup(id: u16) | Recovery

  function StepOf(m: seq<byte>, pg: nat, mode: Mode, offset: nat, lost: nat): (s: Step)
    requires |m| == NV_SIZE && pg < PAGES_USED && offset <= PAGE_SIZE
    ensures s.Next? ==> offset < s.off <= PAGE_SIZE && s.lost - lost <= s.off - offset
    ensures s.Next? ==> offset + HDR_SIZE < PAGE_SIZE && s.off == offset + ItemSize(Field(m, pg, offset, HDR_LEN))
  {
    match mode
    case Lookup(id) => WalkStep(m, pg, id, offset, lost)
    case Recovery => InitWalkStep(m, pg, offset, lost, false)
  }

  function WalkOf(m: seq<byte>, pg: nat, mode: Mode, offset: nat, lost: nat): Scan
    requires |m| == NV_SIZE && pg < PAGES_USED && offset <= PAGE_SIZE
  {
    match mode
    case Lookup(id) => Walk(m, pg, id, offset, lost)
    case Recovery => InitWalk(m, pg, offset, lost)
  }

  /** A walk is its first step followed by the walk from where that step leads. */
  lemma WalkOfStep(m: seq<byte>, pg: nat, mode: Mode, offset: nat, lost: nat)
    requires |m| == NV_SIZE && pg < PAGES_USED && offset <= PAGE_SIZE
    ensures WalkOf(m, pg, mode, offset, lost) ==
      match StepOf(m, pg, mode, offset, lost)
      case Stop(r) => r
      case Next(o, l) => WalkOf(m, pg, mode, o, l)
  {
  }

  /** Walking page `pg` from header offset `a` with `la` bytes lost steps, one item at a
      time, to header offset `b` with `lb` bytes lost. */
  ghost predicate Reaches(m: seq<byte>, pg: nat, mode: Mode, a: nat, la: nat, b: nat, lb: nat)
    requires |m| == NV_SIZE && pg < PAGES_USED && a <= PAGE_SIZE
    decreases PAGE_SIZE - a
  {
    (a == b && la == lb)
    || (a < b && match StepOf(m, pg, mode, a, la)
                 case Stop(_) => false
                 case Next(o, l) => Reaches(m, pg, mode, o, l, b, lb))
  }

  /** A walk that reaches `b` gives the result of the walk from `b`. */
  lemma {:induction false} ReachesWalk(m: seq<byte>, pg: nat, mode: Mode, a: nat, la: nat, b: nat, lb: nat)
    requires |m| == NV_SIZE && pg < PAGES_USED && a <= PAGE_SIZE
    requires Reaches(m, pg, mode, a, la, b, lb)
    ensures a <= b <= PAGE_SIZE && lb - la <= b - a
    ensures WalkOf(m, pg, mode, a, la) == WalkOf(m, pg, mode, b, lb)
    decreases PAGE_SIZE - a
  {
    if !(a == b && la == lb) {
      match StepOf(m, pg, mode, a, la)
      case Next(o, l) =>
        ReachesWalk(m, pg, mode, o, l, b, lb);
        WalkOfStep(m, pg, mode, a, la);
    }
  }

  /** One more step of the walk extends what it reaches. */
  lemma {:induction false} ReachesExtend(m: seq<byte>, pg: nat, mode: Mode, a: nat, la: nat, b: nat, lb: nat)
    requires |m| == NV_SIZE && pg < PAGES_USED && a <= PAGE_SIZE && b <= PAGE_SIZE
    requires Reaches(m, pg, mode, a, la, b, lb) && StepOf(m, pg, mode, b, lb).Next?
    ensures Reaches(m, pg, mode, a, la, StepOf(m, pg, mode, b, lb).off, StepOf(m, pg, mode, b, lb).lost)
    decreases PAGE_SIZE - a
  {
    var s := StepOf(m, pg, mode, b, lb);
    if a == b && la == lb {
      assert Reaches(m, pg, mode, s.off, s.lost, s.off, s.lost);
    } else {
      match StepOf(m, pg, mode, a, la)
      case Next(o, l) => ReachesExtend(m, pg, mode, o, l, b, lb);
    }
  }

  /** A step reads only the header at `offset` and the item's data: in two images that
      agree on those bytes it is the same. */
  lemma StepSpan(m0: seq<byte>, m1: seq<byte>, pg: nat, mode: Mode, a: nat, la: nat, hi: nat)
    requires |m0| == NV_SIZE && |m1| == NV_SIZE && pg < PAGES_USED && a <= hi <= PAGE_SIZE
    requires SameSpan(m0, m1, pg, a, hi)
    requires hi == PAGE_SIZE || a >= PAGE_SIZE - HDR_SIZE || a + ItemSize(Field(m0, pg, a, HDR_LEN)) <= hi
    ensures StepOf(m1, pg, mode, a, la) == StepOf(m0, pg, mode, a, la)
  {
    if a < PAGE_SIZE - HDR_SIZE {
      var len := Field(m0, pg, a, HDR_LEN);
      if hi < PAGE_SIZE {
        assert a + HDR_SIZE <= hi;
      }
      SpanHdr(m0, m1, pg, a, hi, a);
      if a + ItemSize(len) <= PAGE_SIZE {
        SpanData(m0, m1, pg, a, hi, a, len);
      }
    }
  }

  /** What a walk reaches in one image it reaches in another that agrees on the stretch. */
  lemma {:induction false} ReachesFrame(m0: seq<byte>, m1: seq<byte>, pg: nat, mode: Mode,
                                        a: nat, la: nat, b: nat, lb: nat)
    requires |m0| == NV_SIZE && |m1| == NV_SIZE && pg < PAGES_USED && a <= b <= PAGE_SIZE
    requires Reaches(m0, pg, mode, a, la, b, lb) && SameSpan(m0, m1, pg, a, b)
    ensures Reaches(m1, pg, mode, a, la, b, lb)
    decreases PAGE_SIZE - a
  {
    if !(a == b && la == lb) {
      match StepOf(m0, pg, mode, a, la)
      case Next(o, l) =>
        ReachesWalk(m0, pg, mode, o, l, b, lb);
        StepSpan(m0, m1, pg, mode, a, la, b);
        ReachesFrame(m0, m1, pg, mode, o, l, b, lb);
    }
  }

  /** A walk depends only on the page from where it starts. */
  lemma {:induction false} WalkSpan(m0: seq<byte>, m1: seq<byte>, pg: nat, mode: Mode, a: nat, la: nat)
    requires |m0| == NV_SIZE && |m1| == NV_SIZE && pg < PAGES_USED && a <= PAGE_SIZE
    requires SameSpan(m0, m1, pg, a, PAGE_SIZE)
    ensures WalkOf(m1, pg, mode, a, la) == WalkOf(m0, pg, mode, a, la)
    decreases PAGE_SIZE - a
  {
    StepSpan(m0, m1, pg, mode, a, la, PAGE_SIZE);
    WalkOfStep(m0, pg, mode, a, la);
    WalkOfStep(m1, pg, mode, a, la);
    match StepOf(m0, pg, mode, a, la)
    case Stop(_) =>
    case Next(o, l) => WalkSpan(m0, m1, pg, mode, o, l);
  }

  /** A page that is the same in two images has the same walks in both. */
  lemma PageWalks(m0: seq<byte>, m1: seq<byte>, pg: nat)
    requires |m0| == NV_SIZE && |m1| == NV_SIZE && pg < PAGES_USED && PageImage(m1, pg) == PageImage(m0, pg)
    ensures Extent(m1, pg) == Extent(m0, pg)
    ensures InitWalk(m1, pg, PG_HDR_SIZE, 0) == InitWalk(m0, pg, PG_HDR_SIZE, 0)
    ensures forall id :: Walk(m1, pg, id, PG_HDR_SIZE, 0) == Walk(m0, pg, id, PG_HDR_SIZE, 0)
  {
    WalkSpan(m0, m1, pg, Lookup(ITEM_NULL), PG_HDR_SIZE, 0);
    WalkSpan(m0, m1, pg, Recovery, PG_HDR_SIZE, 0);
    forall id
      ensures Walk(m1, pg, id, PG_HDR_SIZE, 0) == Walk(m0, pg, id, PG_HDR_SIZE, 0)
    {
      WalkSpan(m0, m1, pg, Lookup(id), PG_HDR_SIZE, 0);
    }
  }

  /** A page that did not change, with the same cursor and lost count, stays settled or
      pending. */
  lemma WalkedPageKept(m0: seq<byte>, m1: seq<byte>, o0: seq<u16>, l0: seq<u16>, o1: seq<u16>, l1: seq<u16>, p: nat)
    requires |m0| == NV_SIZE && |m1| == NV_SIZE && p < PAGES_USED
    requires |o0| == PAGES_USED && |l0| == PAGES_USED && |o1| == PAGES_USED && |l1| == PAGES_USED
    requires PageImage(m1, p) == PageImage(m0, p) && o1[p] == o0[p] && l1[p] == l0[p]
    ensures Settled(m0, o0, l0, p) ==> Settled(m1, o1, l1, p)
    ensures Pending(m0, p) ==> Pending(m1, p)
  {
    WalkSpan(m0, m1, p, Lookup(ITEM_NULL), PG_HDR_SIZE, 0);
    WalkSpan(m0, m1, p, Recovery, PG_HDR_SIZE, 0);
  }

  /** An erased page: both walks end at once, with nothing lost. */
  lemma ErasedWalks(m: seq<byte>, pg: nat)
    requires |m| == NV_SIZE && pg < PAGES_USED && PageErased(m, pg)
    ensures Extent(m, pg) == Ended(PG_HDR_SIZE, 0) && InitWalk(m, pg, PG_HDR_SIZE, 0) == Ended(PG_HDR_SIZE, 0)
  {
    ErasedPageHdr(m, pg, PG_HDR_SIZE);
  }

  /** An ended walk that stops short of the page end reaches the header where it stops. */
  lemma {:induction false} WalkReachesEnd(m: seq<byte>, pg: nat, mode: Mode, a: nat, la: nat)
    requires |m| == NV_SIZE && pg < PAGES_USED && a <= PAGE_SIZE
    requires WalkOf(m, pg, mode, a, la).Ended? && WalkOf(m, pg, mode, a, la).off < PAGE_SIZE
    ensures Reaches(m, pg, mode, a, la, WalkOf(m, pg, mode, a, la).off, WalkOf(m, pg, mode, a, la).lost)
    ensures StepOf(m, pg, mode, WalkOf(m, pg, mode, a, la).off, WalkOf(m, pg, mode, a, la).lost)
      == Stop(WalkOf(m, pg, mode, a, la))
    decreases PAGE_SIZE - a
  {
    WalkOfStep(m, pg, mode, a, la);
    match StepOf(m, pg, mode, a, la)
    case Stop(r) =>
    case Next(o, l) =>
      WalkReachesEnd(m, pg, mode, o, l);
      ReachesWalk(m, pg, mode, o, l, WalkOf(m, pg, mode, o, l).off, WalkOf(m, pg, mode, o, l).lost);
  }

  /** Where the recovery walk neither meets a live item with a bad checksum nor stops at
      a transferred one, it takes the measuring walk's step. */
  lemma MeasureIsRecovery(m: seq<byte>, pg: nat, o: nat, lost: nat)
    requires |m| == NV_SIZE && pg < PAGES_USED && o <= PAGE_SIZE
    requires InitWalkStep(m, pg, o, lost, false) != Stop(Found(o + HDR_SIZE))
    requires o + HDR_SIZE < PAGE_SIZE && Field(m, pg, o, HDR_ID) != ERASED_ID
             && o + ItemSize(Field(m, pg, o, HDR_LEN)) <= PAGE_SIZE && Field(m, pg, o, HDR_LIVE) != ZEROED_ID
             ==> Field(m, pg, o, HDR_CHK) == Chk16(ItemData(m, pg, o, Field(m, pg, o, HDR_LEN)))
    ensures StepOf(m, pg, Lookup(ITEM_NULL), o, lost) == StepOf(m, pg, Recovery, o, lost)
  {
  }

  /** The walks from the page header both reach `o` and both stop there with `e`: that is
      their result. */
  lemma WalksEnd(m: seq<byte>, pg: nat, o: nat, l: nat, e: Scan)
    requires |m| == NV_SIZE && pg < PAGES_USED && o <= PAGE_SIZE
    requires Reaches(m, pg, Lookup(ITEM_NULL), PG_HDR_SIZE, 0, o, l) && Reaches(m, pg, Recovery, PG_HDR_SIZE, 0, o, l)
    requires StepOf(m, pg, Lookup(ITEM_NULL), o, l) == Stop(e) && StepOf(m, pg, Recovery, o, l) == Stop(e)
    ensures Extent(m, pg) == e && InitWalk(m, pg, PG_HDR_SIZE, 0) == e
  {
    ReachesWalk(m, pg, Lookup(ITEM_NULL), PG_HDR_SIZE, 0, o, l);
    ReachesWalk(m, pg, Recovery, PG_HDR_SIZE, 0, o, l);
    WalkOfStep(m, pg, Lookup(ITEM_NULL), o, l);
    WalkOfStep(m, pg, Recovery, o, l);
  }

  /** A change to the header at `o` keeps what both walks reach up to `o`, and when both
      then step on together they reach where that step leads. */
  lemma WalksStep(m0: seq<byte>, m1: seq<byte>, pg: nat, o: nat, l: nat, n: nat, nl: nat)
    requires |m0| == NV_SIZE && |m1| == NV_SIZE && pg < PAGES_USED && PG_HDR_SIZE <= o && o + HDR_SIZE <= PAGE_SIZE
    requires Reaches(m0, pg, Lookup(ITEM_NULL), PG_HDR_SIZE, 0, o, l) && Reaches(m0, pg, Recovery, PG_HDR_SIZE, 0, o, l)
    requires Within(m0, m1, pg, o, o + HDR_SIZE)
    requires StepOf(m1, pg, Lookup(ITEM_NULL), o, l) == Next(n, nl) && StepOf(m1, pg, Recovery, o, l) == Next(n, nl)
    ensures Reaches(m1, pg, Lookup(ITEM_NULL), PG_HDR_SIZE, 0, n, nl) && Reaches(m1, pg, Recovery, PG_HDR_SIZE, 0, n, nl)
  {
    assert SameSpan(m0, m1, pg, PG_HDR_SIZE, o);
    ReachesFrame(m0, m1, pg, Lookup(ITEM_NULL), PG_HDR_SIZE, 0, o, l);
    ReachesFrame(m0, m1, pg, Recovery, PG_HDR_SIZE, 0, o, l);
    ReachesExtend(m1, pg, Lookup(ITEM_NULL), PG_HDR_SIZE, 0, o, l);
    ReachesExtend(m1, pg, Recovery, PG_HDR_SIZE, 0, o, l);
  }

  /** Bytes from `o` on that were unchanged, and are not touched by a change to the header
      at `o`, stay unchanged past that header. */
  lemma SpanAfter(m0: seq<byte>, m1: seq<byte>, m2: seq<byte>, pg: nat, o: nat, n: nat)
    requires |m0| == NV_SIZE && |m1| == NV_SIZE && |m2| == NV_SIZE && pg < PAGES_USED
    requires o + HDR_SIZE <= n <= PAGE_SIZE
    requires SameSpan(m0, m1, pg, o, PAGE_SIZE) && Within(m1, m2, pg, o, o + HDR_SIZE)
    ensures SameSpan(m0, m2, pg, n, PAGE_SIZE)
  {
  }

  /** initPage's recovery walk of page `pg` of the flash `m0` found, carried out on the
      flash `m` up to header `o` with `l` bytes lost: the bytes from `o` on are still
      those found, the walk of `m0` goes on from there, and on `m`, where the corrupt
      items behind are zeroed, both walks reach `o` with `l` lost. */
  ghost predicate WalkedTo(m0: seq<byte>, m: seq<byte>, pg: nat, o: nat, l: nat)
    requires |m0| == NV_SIZE && |m| == NV_SIZE && pg < PAGES_USED && o <= PAGE_SIZE
  {
    SameSpan(m0, m, pg, o, PAGE_SIZE)
    && InitWalk(m0, pg, PG_HDR_SIZE, 0) == InitWalk(m0, pg, o, l)
    && Reaches(m, pg, Lookup(ITEM_NULL), PG_HDR_SIZE, 0, o, l)
    && Reaches(m, pg, Recovery, PG_HDR_SIZE, 0, o, l)
  }

  lemma WalkedStart(m0: seq<byte>, pg: nat)
    requires |m0| == NV_SIZE && pg < PAGES_USED
    ensures WalkedTo(m0, m0, pg, PG_HDR_SIZE, 0)
  {
  }

  /** A step over one item, which changes at most its header, carries the walk on. */
  lemma WalkedNext(m0: seq<byte>, m1: seq<byte>, m2: seq<byte>, pg: nat, o: nat, l: nat, n: nat, nl: nat)
    requires |m0| == NV_SIZE && |m1| == NV_SIZE && |m2| == NV_SIZE && pg < PAGES_USED
    requires PG_HDR_SIZE <= o && o + HDR_SIZE < PAGE_SIZE && WalkedTo(m0, m1, pg, o, l)
    requires Within(m1, m2, pg, o, o + HDR_SIZE) && InitWalkStep(m1, pg, o, l, false) == Next(n, nl)
    requires StepOf(m2, pg, Lookup(ITEM_NULL), o, l) == Next(n, nl) && StepOf(m2, pg, Recovery, o, l) == Next(n, nl)
    ensures WalkedTo(m0, m2, pg, n, nl)
  {
    StepSpan(m0, m1, pg, Recovery, o, l, PAGE_SIZE);
    WalkOfStep(m0, pg, Recovery, o, l);
    WalksStep(m1, m2, pg, o, l, n, nl);
    SpanAfter(m0, m1, m2, pg, o, n);
  }

  /** A step that ends the walk gives the page's measure, before and after the walk. */
  lemma WalkedEnd(m0: seq<byte>, m1: seq<byte>, m2: seq<byte>, pg: nat, o: nat, l: nat, e: Scan)
    requires |m0| == NV_SIZE && |m1| == NV_SIZE && |m2| == NV_SIZE && pg < PAGES_USED
    requires PG_HDR_SIZE <= o && o + HDR_SIZE < PAGE_SIZE && WalkedTo(m0, m1, pg, o, l)
    requires Within(m1, m2, pg, o, o + HDR_SIZE) && InitWalkStep(m1, pg, o, l, false) == Stop(e)
    requires StepOf(m2, pg, Lookup(ITEM_NULL), o, l) == Stop(e) && StepOf(m2, pg, Recovery, o, l) == Stop(e)
    ensures InitWalk(m0, pg, PG_HDR_SIZE, 0) == e && Extent(m2, pg) == e && InitWalk(m2, pg, PG_HDR_SIZE, 0) == e
  {
    StepSpan(m0, m1, pg, Recovery, o, l, PAGE_SIZE);
    WalkOfStep(m0, pg, Recovery, o, l);
    assert SameSpan(m1, m2, pg, PG_HDR_SIZE, o);
    ReachesFrame(m1, m2, pg, Lookup(ITEM_NULL), PG_HDR_SIZE, 0, o, l);
    ReachesFrame(m1, m2, pg, Recovery, PG_HDR_SIZE, 0, o, l);
    WalksEnd(m2, pg, o, l, e);
  }

  /** A walk that reached the last place a header fits ends there. */
  lemma WalkedTail(m0: seq<byte>, m: seq<byte>, pg: nat, o: nat, l: nat)
    requires |m0| == NV_SIZE && |m| == NV_SIZE && pg < PAGES_USED
    requires PAGE_SIZE - HDR_SIZE <= o <= PAGE_SIZE && WalkedTo(m0, m, pg, o, l)
    ensures InitWalk(m0, pg, PG_HDR_SIZE, 0) == Ended(o, l)
    ensures Extent(m, pg) == Ended(o, l) && InitWalk(m, pg, PG_HDR_SIZE, 0) == Ended(o, l)
  {
    WalksEnd(m, pg, o, l, Ended(o, l));
  }

  /** A walk that stops at a transferred item stops there on both images. */
  lemma WalkedFound(m0: seq<byte>, m: seq<byte>, pg: nat, o: nat, l: nat)
    requires |m0| == NV_SIZE && |m| == NV_SIZE && pg < PAGES_USED
    requires o + HDR_SIZE < PAGE_SIZE && WalkedTo(m0, m, pg, o, l)
    requires InitWalkStep(m, pg, o, l, false) == Stop(Found(o + HDR_SIZE))
    ensures InitWalk(m0, pg, PG_HDR_SIZE, 0) == Found(o + HDR_SIZE)
    ensures InitWalk(m, pg, PG_HDR_SIZE, 0) == Found(o + HDR_SIZE)
  {
    StepSpan(m, m0, pg, Recovery, o, l, PAGE_SIZE);
    WalkOfStep(m0, pg, Recovery, o, l);
    ReachesWalk(m, pg, Recovery, PG_HDR_SIZE, 0, o, l);
    WalkOfStep(m, pg, Recovery, o, l);
  }

  // ---------------------------------------------------------------- appending an item

  /** From `m0` to `m1` a new item `id` of `len` bytes was appended at header offset `o` of
      page `pg`, where the page's chain ends and erased flash begins: the new header has
      its id and length, its stat and live flags are still erased, and nothing outside the
      item changed. */
  ghost predicate Appended(m0: seq<byte>, m1: seq<byte>, pg: nat, o: nat, id: u16, len: nat)
    requires |m0| == NV_SIZE && |m1| == NV_SIZE && pg < PAGES_USED
  {
    o + ItemSize(len) <= PAGE_SIZE && o + HDR_SIZE < PAGE_SIZE
    && Extent(m0, pg).off == o && ErasedFrom(m0, pg, o)
    && Within(m0, m1, pg, o, o + ItemSize(len))
    && Field(m1, pg, o, HDR_ID) == id && Field(m1, pg, o, HDR_LEN) == len
    && Field(m1, pg, o, HDR_STAT) == ERASED_ID && Field(m1, pg, o, HDR_LIVE) == ERASED_ID
  }

  /** After an append, the lookup of any other id along the page's chain, from a header
      the chain reaches, finds what it found before, and finds nothing where it found
      nothing: the new header is not a copy of that id and erased flash follows it. */
  lemma {:induction false} AppendedWalk(m0: seq<byte>, m1: seq<byte>, pg: nat, o: nat, id: u16, len: nat,
                                        id2: u16, a: nat, la: nat, l: nat)
    requires |m0| == NV_SIZE && |m1| == NV_SIZE && pg < PAGES_USED && a <= PAGE_SIZE
    requires Appended(m0, m1, pg, o, id, len) && id < SOURCE_ID && id2 != ITEM_NULL && id2 != id
    requires Reaches(m0, pg, Lookup(ITEM_NULL), a, la, o, l)
    ensures Walk(m1, pg, id2, a, la).Found? == Walk(m0, pg, id2, a, la).Found?
    ensures Walk(m0, pg, id2, a, la).Found? ==> Walk(m1, pg, id2, a, la) == Walk(m0, pg, id2, a, la)
    decreases PAGE_SIZE - a
  {
    if a == o && la == l {
      ErasedFromId(m0, pg, o, o);
      assert WalkStep(m0, pg, id2, o, l) == Stop(Ended(o, l));
      var n := o + ItemSize(len);
      assert !Hit(m1, pg, id2, o);
      assert WalkStep(m1, pg, id2, o, l) == Next(n, l);
      if n < PAGE_SIZE - HDR_SIZE {
        SpanHdr(m0, m1, pg, n, PAGE_SIZE, n);
        ErasedFromId(m0, pg, o, n);
      }
      assert WalkStep(m1, pg, id2, n, l).Stop? && WalkStep(m1, pg, id2, n, l).result.Ended?;
    } else {
      match WalkStep(m0, pg, ITEM_NULL, a, la)
      case Next(nx, ln) =>
        ReachesWalk(m0, pg, Lookup(ITEM_NULL), nx, ln, o, l);
        StepSpan(m0, m1, pg, Lookup(id2), a, la, o);
        StepIgnoresId(m0, pg, id2, a, la);
        if WalkStep(m0, pg, id2, a, la).Next? {
          AppendedWalk(m0, m1, pg, o, id, len, id2, nx, ln, l);
        }
    }
  }

  /** A page other than the one appended to walks as before. */
  lemma AppendedOtherPage(m0: seq<byte>, m1: seq<byte>, pg: nat, o: nat, id: u16, len: nat, k: nat, q: u16)
    requires |m0| == NV_SIZE && |m1| == NV_SIZE && pg < PAGES_USED && k < PAGES_USED && k != pg
    requires Appended(m0, m1, pg, o, id, len)
    ensures Walk(m1, k, q, PG_HDR_SIZE, 0) == Walk(m0, k, q, PG_HDR_SIZE, 0)
  {
    assert PageImage(m1, k) == PageImage(m0, k);
    WalkSpan(m0, m1, k, Lookup(q), PG_HDR_SIZE, 0);
  }

  /** The page appended to, walked for another id from its first header. */
  lemma AppendedPage(m0: seq<byte>, m1: seq<byte>, pg: nat, o: nat, id: u16, len: nat, q: u16)
    requires |m0| == NV_SIZE && |m1| == NV_SIZE && pg < PAGES_USED
    requires Appended(m0, m1, pg, o, id, len) && id < SOURCE_ID && q != ITEM_NULL && q != id
    ensures Walk(m1, pg, q, PG_HDR_SIZE, 0).Found? == Walk(m0, pg, q, PG_HDR_SIZE, 0).Found?
    ensures Walk(m0, pg, q, PG_HDR_SIZE, 0).Found? ==> Walk(m1, pg, q, PG_HDR_SIZE, 0) == Walk(m0, pg, q, PG_HDR_SIZE, 0)
  {
    WalkReachesEnd(m0, pg, Lookup(ITEM_NULL), PG_HDR_SIZE, 0);
    AppendedWalk(m0, m1, pg, o, id, len, q, PG_HDR_SIZE, 0, Extent(m0, pg).lost);
  }

  /** After an append, the lookup of any other id on the pages from `k` on gives what it
      gave before. */
  lemma AppendedFindOn(m0: seq<byte>, m1: seq<byte>, pg: nat, o: nat, id: u16, len: nat, q: u16, k: nat)
    requires |m0| == NV_SIZE && |m1| == NV_SIZE && pg < PAGES_USED
    requires Appended(m0, m1, pg, o, id, len) && id < SOURCE_ID && q != ITEM_NULL && q != id
    ensures FindOn(m1, q, k) == FindOn(m0, q, k)
  {
    var s0, s1 := PageLookups(m0, q), PageLookups(m1, q);
    forall p | k <= p < PAGES_USED
      ensures s1[p].Found? == s0[p].Found? && (s0[p].Found? ==> s1[p] == s0[p])
    {
      if p == pg {
        AppendedPage(m0, m1, pg, o, id, len, q);
      } else {
        AppendedOtherPage(m0, m1, pg, o, id, len, p, q);
      }
    }
    FindOnLookups(m0, q, k);
    FindOnLookups(m1, q, k);
    FirstFoundSame(s0, s1, k);
  }

  /** findItem's pass over per-page lookup results `s`, from page `k` on. */
  function FirstFound(s: seq<Scan>, k: nat): Option<(nat, nat)>
    decreases |s| - k
  {
    if k >= |s| then None
    else match s[k]
      case Found(d) => Some((k, d))
      case Ended(_, _) => FirstFound(s, k + 1)
  }

  /** The lookup of `q` on every page, in page order. */
  function PageLookups(m: seq<byte>, q: u16): (s: seq<Scan>)
    requires |m| == NV_SIZE
    ensures |s| == PAGES_USED
  {
    seq(PAGES_USED, p requires 0 <= p < PAGES_USED => Walk(m, p, q, PG_HDR_SIZE, 0))
  }

  /** The findItem pass from page `k` is the first hit among the pages' lookups. */
  lemma {:induction false} FindOnLookups(m: seq<byte>, q: u16, k: nat)
    requires |m| == NV_SIZE && q != ITEM_NULL
    ensures FindOn(m, q, k) == FirstFound(PageLookups(m, q), k)
    decreases PAGES_USED - k
  {
    if k < PAGES_USED {
      FindOnLookups(m, q, k + 1);
      assert PageLookups(m, q)[k] == Walk(m, k, q, PG_HDR_SIZE, 0);
    }
  }

  /** Lookup results that agree, page by page from `k` on, on whether the item is found
      and then where, give the same pass. */
  lemma {:induction false} FirstFoundSame(s0: seq<Scan>, s1: seq<Scan>, k: nat)
    requires |s0| == |s1|
    requires forall p :: k <= p < |s0| ==> s1[p].Found? == s0[p].Found? && (s0[p].Found? ==> s1[p] == s0[p])
    ensures FirstFound(s1, k) == FirstFound(s0, k)
    decreases |s0| - k
  {
    if k < |s0| {
      FirstFoundSame(s0, s1, k + 1);
    }
  }

  /** A page whose lookup ends without finding the item hands the lookup to the next page. */
  lemma FindOnSkip(m: seq<byte>, q: u16, k: nat, r: Option<(nat, nat)>)
    requires |m| == NV_SIZE && q != ITEM_NULL && k < PAGES_USED
    requires Walk(m, k, q, PG_HDR_SIZE, 0).Ended? && FindOn(m, q, k + 1) == r
    ensures FindOn(m, q, k) == r
  {
  }

  /** A page whose lookup finds the item is where the lookup stops. */
  lemma FindOnHere(m: seq<byte>, q: u16, k: nat)
    requires |m| == NV_SIZE && q != ITEM_NULL && k < PAGES_USED
    requires Walk(m, k, q, PG_HDR_SIZE, 0).Found?
    ensures FindOn(m, q, k) == Some((k, Walk(m, k, q, PG_HDR_SIZE, 0).dataOff))
  {
  }

  /** The lookups of `q` on pages `k` up to, not including, `pg` all end without finding it. */
  ghost predicate EndedFrom(m: seq<byte>, q: u16, k: nat, pg: nat)
    requires |m| == NV_SIZE && pg <= PAGES_USED
    decreases pg - k
  {
    k < pg ==> Walk(m, k, q, PG_HDR_SIZE, 0).Ended? && EndedFrom(m, q, k + 1, pg)
  }

  /** A lookup from page `k` that passes over every page before `pg` stops at `pg` when
      the item is there. */
  lemma {:induction false} FindOnReaches(m: seq<byte>, q: u16, k: nat, pg: nat)
    requires |m| == NV_SIZE && q != ITEM_NULL && k <= pg < PAGES_USED
    requires EndedFrom(m, q, k, pg) && Walk(m, pg, q, PG_HDR_SIZE, 0).Found?
    ensures FindOn(m, q, k) == Some((pg, Walk(m, pg, q, PG_HDR_SIZE, 0).dataOff))
    decreases pg - k
  {
    if k < pg {
      FindOnReaches(m, q, k + 1, pg);
      FindOnSkip(m, q, k, Some((pg, Walk(m, pg, q, PG_HDR_SIZE, 0).dataOff)));
    } else {
      FindOnHere(m, q, pg);
    }
  }

  /** Appending item `id` leaves findItem's answer for every other id as it was. */
  lemma AppendedKeepsOthers(m0: seq<byte>, m1: seq<byte>, pg: nat, o: nat, id: u16, len: nat, id2: u16)
    requires |m0| == NV_SIZE && |m1| == NV_SIZE && pg < PAGES_USED
    requires Appended(m0, m1, pg, o, id, len) && id < SOURCE_ID && id2 != ITEM_NULL && id2 != id
    ensures Find(m1, id2) == Find(m0, id2)
  {
    AppendedFindOn(m0, m1, pg, o, id, len, id2, 0);
    if id2 < SOURCE_ID {
      AppendedFindOn(m0, m1, pg, o, id, len, SourceOf(id2), 0);
    }
  }

  /** The pages before `pg` hold no copy of `id` after the append either, so the lookup
      from page `k` on finds the new item. */
  lemma AppendedFoundOn(m0: seq<byte>, m1: seq<byte>, pg: nat, o: nat, id: u16, len: nat, k: nat)
    requires |m0| == NV_SIZE && |m1| == NV_SIZE && pg < PAGES_USED && k <= pg
    requires Appended(m0, m1, pg, o, id, len) && id != ITEM_NULL && id < SOURCE_ID
    requires FindOn(m0, id, 0).None?
    ensures FindOn(m1, id, k) == Some((pg, o + HDR_SIZE))
  {
    AppendedHit(m0, m1, pg, o, id, len);
    AppendedEndedFrom(m0, m1, pg, o, id, len, k);
    FindOnReaches(m1, id, k, pg);
  }

  /** The pages before the one appended to still do not hold the item. */
  lemma {:induction false} AppendedEndedFrom(m0: seq<byte>, m1: seq<byte>, pg: nat, o: nat, id: u16, len: nat, k: nat)
    requires |m0| == NV_SIZE && |m1| == NV_SIZE && pg < PAGES_USED && k <= pg
    requires Appended(m0, m1, pg, o, id, len) && id != ITEM_NULL
    requires FindOn(m0, id, 0).None?
    ensures EndedFrom(m1, id, k, pg)
    decreases pg - k
  {
    if k < pg {
      AppendedEndedFrom(m0, m1, pg, o, id, len, k + 1);
      AppendedOtherPage(m0, m1, pg, o, id, len, k, id);
    }
  }

  /** A lookup that ends short of the page end reaches the header where the page's
      measure ends. */
  lemma LookupReachesEnd(m: seq<byte>, pg: nat, id: u16)
    requires |m| == NV_SIZE && pg < PAGES_USED
    requires Walk(m, pg, id, PG_HDR_SIZE, 0).Ended? && Extent(m, pg).off < PAGE_SIZE
    ensures Reaches(m, pg, Lookup(id), PG_HDR_SIZE, 0, Extent(m, pg).off, Extent(m, pg).lost)
  {
    WalkEndedIsExtent(m, pg, id, PG_HDR_SIZE, 0);
    WalkReachesEnd(m, pg, Lookup(id), PG_HDR_SIZE, 0);
  }

  /** A lookup that, on the old image, reaches a header before which nothing changed
      finds `id` there when the new image holds a live current copy of it. */
  lemma LookupStopsAt(m0: seq<byte>, m1: seq<byte>, pg: nat, id: u16, o: nat, l: nat)
    requires |m0| == NV_SIZE && |m1| == NV_SIZE && pg < PAGES_USED && o + HDR_SIZE < PAGE_SIZE
    requires Reaches(m0, pg, Lookup(id), PG_HDR_SIZE, 0, o, l) && SameSpan(m0, m1, pg, PG_HDR_SIZE, o)
    requires Hit(m1, pg, id, o)
    ensures Walk(m1, pg, id, PG_HDR_SIZE, 0) == Found(o + HDR_SIZE)
  {
    ReachesFrame(m0, m1, pg, Lookup(id), PG_HDR_SIZE, 0, o, l);
    ReachesWalk(m1, pg, Lookup(id), PG_HDR_SIZE, 0, o, l);
    assert WalkStep(m1, pg, id, o, l) == Stop(Found(o + HDR_SIZE));
  }

  /** The appended header is a live current copy of its id, and the bytes before it are
      unchanged. */
  lemma AppendedHeader(m0: seq<byte>, m1: seq<byte>, pg: nat, o: nat, id: u16, len: nat)
    requires |m0| == NV_SIZE && |m1| == NV_SIZE && pg < PAGES_USED
    requires Appended(m0, m1, pg, o, id, len) && id != ITEM_NULL && id < SOURCE_ID
    ensures Hit(m1, pg, id, o) && SameSpan(m0, m1, pg, PG_HDR_SIZE, o)
  {
  }

  /** On the page appended to, the lookup of the new item reaches its header and stops
      there. */
  lemma AppendedHit(m0: seq<byte>, m1: seq<byte>, pg: nat, o: nat, id: u16, len: nat)
    requires |m0| == NV_SIZE && |m1| == NV_SIZE && pg < PAGES_USED
    requires Appended(m0, m1, pg, o, id, len) && id != ITEM_NULL && id < SOURCE_ID
    requires Walk(m0, pg, id, PG_HDR_SIZE, 0).Ended?
    ensures Walk(m1, pg, id, PG_HDR_SIZE, 0) == Found(o + HDR_SIZE)
  {
    LookupReachesEnd(m0, pg, id);
    AppendedHeader(m0, m1, pg, o, id, len);
    LookupStopsAt(m0, m1, pg, id, o, Extent(m0, pg).lost);
  }

  /** The round trip of osal_nv_item_init: an item that findItem did not find, once
      appended to a page, is what findItem finds, with its data right after the new
      header. */
  lemma AppendedFound(m0: seq<byte>, m1: seq<byte>, pg: nat, o: nat, id: u16, len: nat)
    requires |m0| == NV_SIZE && |m1| == NV_SIZE && pg < PAGES_USED
    requires Appended(m0, m1, pg, o, id, len) && id != ITEM_NULL && id < SOURCE_ID
    requires Find(m0, id).None?
    ensures Find(m1, id) == Some((pg, o + HDR_SIZE))
  {
    AppendedFoundOn(m0, m1, pg, o, id, len, 0);
  }
}
