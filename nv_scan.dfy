/** The parts of initNV in OSAL_Nv.c that look only at the page headers or the lost counts:
    the scan that finds the reserve page and an interrupted compaction, and the choice of a
    reserve page when none was found. */
module NvScan {
  import opened FlashUtil
  import opened NvFormat
  import opened NvPages

  /** A page that is in use (its active flag cleared) and whose transfer flag is cleared
      too: the source of a compaction that was interrupted. */
  predicate InXfer(m: seq<byte>, p: nat)
    requires |m| == NV_SIZE && p < PAGES_USED
  {
    PageBaseBound(p);
    PgHdrAt(m, p).active != ERASED_ID && PgHdrAt(m, p).xfer != ERASED_ID
  }

  /** The first of the pages before `n` whose active flag is still erased: the reserve
      page, or PAGE_NULL when there is none. */
  function FirstErased(m: seq<byte>, n: nat): (r: nat)
    requires |m| == NV_SIZE && n <= PAGES_USED
    ensures r == PAGE_NULL || (r < n && PgHdrAt(m, r).active == ERASED_ID)
    ensures forall q :: 0 <= q < n && q < r ==> PgHdrAt(m, q).active != ERASED_ID
    decreases n
  {
    if n == 0 then PAGE_NULL
    else
      var r := FirstErased(m, n - 1);
      PageBaseBound(n - 1);
      if r == PAGE_NULL && PgHdrAt(m, n - 1).active == ERASED_ID then n - 1 else r
  }

  /** The last of the pages before `n` that is the source of an interrupted compaction,
      or PAGE_NULL when there is none. */
  function LastXfer(m: seq<byte>, n: nat): (r: nat)
    requires |m| == NV_SIZE && n <= PAGES_USED
    ensures r == PAGE_NULL || (r < n && InXfer(m, r))
    ensures forall q :: 0 <= q < n && (r == PAGE_NULL || r < q) ==> !InXfer(m, q)
    decreases n
  {
    if n == 0 then PAGE_NULL
    else if InXfer(m, n - 1) then n - 1
    else LastXfer(m, n - 1)
  }

  /** The reserve page and the interrupted compaction's source are never the same page. */
  lemma ScanDistinct(m: seq<byte>)
    requires |m| == NV_SIZE
    ensures FirstErased(m, PAGES_USED) == PAGE_NULL || LastXfer(m, PAGES_USED) != FirstErased(m, PAGES_USED)
  {
  }

  /** Page `p` from `m0` to `m1` after the scan that kept `res` as the reserve page: its
      items are untouched, its transfer flag too, and its active flag is cleared when it
      was erased on a page other than `res`. */
  ghost predicate Marked(m0: seq<byte>, m1: seq<byte>, p: nat, res: nat)
    requires |m0| == NV_SIZE && |m1| == NV_SIZE && p < PAGES_USED
  {
    PageImage(m1, p)[PG_HDR_SIZE..] == PageImage(m0, p)[PG_HDR_SIZE..]
    && PgHdrAt(m1, p).xfer == PgHdrAt(m0, p).xfer
    && PgHdrAt(m1, p).active ==
         if p != res && PgHdrAt(m0, p).active == ERASED_ID then ZEROED_ID else PgHdrAt(m0, p).active
  }

  /** A page's header is read from its image. */
  lemma PgHdrOfImage(m1: seq<byte>, m2: seq<byte>, p: nat)
    requires |m1| == NV_SIZE && |m2| == NV_SIZE && p < PAGES_USED
    requires PageImage(m1, p) == PageImage(m2, p)
    ensures PgHdrAt(m1, p) == PgHdrAt(m2, p)
  {
    PageBaseBound(p);
    assert m1[PageBase(p)..PageBase(p) + PG_HDR_SIZE] == PageImage(m1, p)[..PG_HDR_SIZE];
    assert m2[PageBase(p)..PageBase(p) + PG_HDR_SIZE] == PageImage(m2, p)[..PG_HDR_SIZE];
  }

  /** markPage of the active flag of `pg` leaves the items of `pg` and every other page
      as they were. */
  lemma MarkActiveFrame(m: seq<byte>, pg: nat)
    requires |m| == NV_SIZE && pg < PAGES_USED
    ensures var r := Overwrite(m, PageBase(pg) + PG_ACTIVE, FieldWord(ZEROED_ID));
      PageImage(r, pg)[PG_HDR_SIZE..] == PageImage(m, pg)[PG_HDR_SIZE..]
      && forall q :: 0 <= q < PAGES_USED && q != pg ==> PageImage(r, q) == PageImage(m, q)
  {
    PageBaseBound(pg);
    var a := PageBase(pg) + PG_ACTIVE;
    var r := Overwrite(m, a, FieldWord(ZEROED_ID));
    OverwriteElsewhere(m, a, FieldWord(ZEROED_ID), PageBase(pg) + PG_HDR_SIZE, PageBase(pg) + PAGE_SIZE);
    assert PageImage(r, pg)[PG_HDR_SIZE..] == r[PageBase(pg) + PG_HDR_SIZE..PageBase(pg) + PAGE_SIZE];
    assert PageImage(m, pg)[PG_HDR_SIZE..] == m[PageBase(pg) + PG_HDR_SIZE..PageBase(pg) + PAGE_SIZE];
    forall q | 0 <= q < PAGES_USED && q != pg
      ensures PageImage(r, q) == PageImage(m, q)
    {
      OverwriteOtherPage(m, pg, a, FieldWord(ZEROED_ID), q);
    }
  }

  /** The scan outcome so far survives a step on page `pg` that leaves the pages before it
      alone, when the reserve page stays or every page before `pg` is in use. */
  lemma MarkedKept(m0: seq<byte>, m1: seq<byte>, m2: seq<byte>, pg: nat, res: nat, res': nat)
    requires |m0| == NV_SIZE && |m1| == NV_SIZE && |m2| == NV_SIZE && pg < PAGES_USED
    requires forall p :: 0 <= p < pg ==> Marked(m0, m1, p, res)
    requires forall p :: 0 <= p < PAGES_USED && p != pg ==> PageImage(m2, p) == PageImage(m1, p)
    requires res' == res || forall p :: 0 <= p < pg ==> PgHdrAt(m0, p).active != ERASED_ID
    requires PageImage(m1, pg) == PageImage(m0, pg) && Marked(m1, m2, pg, res')
    ensures forall p :: 0 <= p < pg + 1 ==> Marked(m0, m2, p, res')
  {
    PgHdrOfImage(m1, m0, pg);
    forall p | 0 <= p < pg
      ensures Marked(m0, m2, p, res')
    {
      PgHdrOfImage(m2, m1, p);
      assert Marked(m0, m1, p, res);
      assert PageImage(m2, p)[PG_HDR_SIZE..] == PageImage(m1, p)[PG_HDR_SIZE..];
    }
  }

  /** The scan outcome over one more page, read from an image `m1` in which that page is
      still as in `m0`. */
  lemma ScanOneMore(m0: seq<byte>, m1: seq<byte>, pg: nat)
    requires |m0| == NV_SIZE && |m1| == NV_SIZE && pg < PAGES_USED && PageImage(m1, pg) == PageImage(m0, pg)
    ensures FirstErased(m0, pg + 1) ==
      if FirstErased(m0, pg) == PAGE_NULL && PgHdrAt(m1, pg).active == ERASED_ID then pg else FirstErased(m0, pg)
    ensures LastXfer(m0, pg + 1) == if InXfer(m1, pg) then pg else LastXfer(m0, pg)
  {
    PgHdrOfImage(m1, m0, pg);
  }

  /** One page of initNV's first loop, with the reserve page `res` and the compaction
      source `oldPg` found so far. */
  method ScanHeader(mem: array<byte>, pg: nat, res: nat, oldPg: nat) returns (res': nat, oldPg': nat)
    requires mem.Length == NV_SIZE && pg < PAGES_USED && (res == PAGE_NULL || res < pg)
    modifies mem
    ensures res' == if res == PAGE_NULL && PgHdrAt(old(mem[..]), pg).active == ERASED_ID then pg else res
    ensures oldPg' == if InXfer(old(mem[..]), pg) then pg else oldPg
    ensures Marked(old(mem[..]), mem[..], pg, res')
    ensures forall q :: 0 <= q < PAGES_USED && q != pg ==> PageImage(mem[..], q) == PageImage(old(mem[..]), q)
  {
    ghost var m0 := mem[..];
    res', oldPg' := res, oldPg;
    var h := ReadPgHdr(mem, pg);
    if h.active == ERASED_ID {
      if res == PAGE_NULL {
        res' := pg;
      } else {
        MarkPage(mem, pg, PG_ACTIVE);
        MarkActiveFrame(m0, pg);
      }
    } else if h.xfer != ERASED_ID {
      oldPg' := pg;
    }
  }

  /** Every page but `res` is in use: its active flag is cleared. With `res` the erased
      reserve page, that page is the only one not in use. */
  ghost predicate OneReserve(m: seq<byte>, res: nat)
    requires |m| == NV_SIZE
  {
    forall p :: 0 <= p < PAGES_USED && p != res ==> PgHdrAt(m, p).active != ERASED_ID
  }
  /** With `res` an erased page, one reserve means exactly: a page's active flag is erased
      if and only if the page is `res`. */
  lemma OneReserveExactly(m: seq<byte>, res: nat)
    requires |m| == NV_SIZE && res < PAGES_USED && PageErased(m, res) && OneReserve(m, res)
    ensures forall p :: 0 <= p < PAGES_USED ==> (PgHdrAt(m, p).active == ERASED_ID <==> p == res)
  {
    PageBaseBound(res);
    PgHdrAtFields(m, res);
    assert m[PageBase(res)] == PageImage(m, res)[0] && m[PageBase(res) + 1] == PageImage(m, res)[1];
    U16Erased(m, PageBase(res) + PG_ACTIVE);
  }


  /** The first loop of initNV: every page header is read; the first page whose active flag
      is erased becomes the reserve page `res`, any later one is marked active, and the
      last page in use with its transfer flag cleared is the interrupted compaction's
      source `oldPg`. */
  method ScanPages(mem: array<byte>) returns (res: nat, oldPg: nat)
    requires mem.Length == NV_SIZE
    modifies mem
    ensures res == FirstErased(old(mem[..]), PAGES_USED) && oldPg == LastXfer(old(mem[..]), PAGES_USED)
    ensures forall p :: 0 <= p < PAGES_USED ==> Marked(old(mem[..]), mem[..], p, res)
    ensures OneReserve(mem[..], res)
  {
    ghost var m0 := mem[..];
    res, oldPg := PAGE_NULL, PAGE_NULL;
    var pg := 0;
    while pg < PAGES_USED
      invariant pg <= PAGES_USED && mem.Length == NV_SIZE
      invariant res == FirstErased(m0, pg) && oldPg == LastXfer(m0, pg)
      invariant forall p :: 0 <= p < pg ==> Marked(m0, mem[..], p, res)
      invariant forall p :: pg <= p < PAGES_USED ==> PageImage(mem[..], p) == PageImage(m0, p)
    {
      ghost var m1 := mem[..];
      ScanOneMore(m0, m1, pg);
      var res', oldPg' := ScanHeader(mem, pg, res, oldPg);
      assert res' == res || forall p :: 0 <= p < pg ==> PgHdrAt(m0, p).active != ERASED_ID;
      MarkedKept(m0, m1, mem[..], pg, res, res');
      res, oldPg := res', oldPg';
      pg := pg + 1;
    }
    forall p | 0 <= p < PAGES_USED && p != res
      ensures PgHdrAt(mem[..], p).active != ERASED_ID
    {
      assert Marked(m0, mem[..], p, res);
    }
  }

  /** The lost count of a page that holds nothing but transferred items. */
  const ALL_LOST: nat := PAGE_SIZE - PG_HDR_SIZE

  /** Page `r` is the one initNV's last loop picks from the lost counts `l`: the first
      page whose every item is lost when there is one, else the first page losing the
      most. */
  ghost predicate IsMostLost(l: seq<u16>, r: nat)
    requires |l| == PAGES_USED
  {
    r < PAGES_USED
    && (forall q :: 0 <= q < r ==> l[q] != ALL_LOST)
    && (l[r] == ALL_LOST || forall q :: 0 <= q < PAGES_USED ==> l[q] != ALL_LOST)
    && (l[r] != ALL_LOST ==>
          (forall q :: 0 <= q < PAGES_USED ==> l[q] <= l[r]) && forall q :: 0 <= q < r ==> l[q] < l[r])
  }

  /** The lost counts determine that page: ties go to the earlier page. */
  lemma IsMostLostUnique(l: seq<u16>, a: nat, b: nat)
    requires |l| == PAGES_USED && IsMostLost(l, a) && IsMostLost(l, b)
    ensures a == b
  {
  }

  /** The last loop of initNV, run when no page was found erased: the first page whose
      every item is lost (the compacted page whose erasure a reset interrupted), else the
      first page losing the most. */
  method MostLost(pgLost: seq<u16>) returns (mostLost: nat)
    requires |pgLost| == PAGES_USED
    ensures IsMostLost(pgLost, mostLost)
  {
    mostLost := 0;
    var idx := 0;
    while idx < PAGES_USED
      invariant idx <= PAGES_USED && mostLost < PAGES_USED && mostLost <= idx
      invariant forall q :: 0 <= q < idx ==> pgLost[q] != ALL_LOST && pgLost[q] <= pgLost[mostLost]
      invariant forall q :: 0 <= q < mostLost ==> pgLost[q] < pgLost[mostLost]
    {
      if pgLost[idx] == ALL_LOST {
        mostLost := idx;
        return;
      } else if pgLost[idx] > pgLost[mostLost] {
        mostLost := idx;
      }
      idx := idx + 1;
    }
  }
}
