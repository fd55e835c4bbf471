# OSAL NV storage engine, modelled in Dafny

The OSAL NV engine keeps small numbered items in flash. Each item has a 16-bit id and up to 64 KB of data. The flash is treated as an append-only log spread over a few erase pages.

How items are stored:

- Each page starts with an 8-byte page header holding two flag words.
  - `active`: cleared when the page is put in use.
  - `xfer`: cleared while the page is being compacted.
- After the page header come the items. Each item is a 16-byte header followed by its data, padded with erased bytes to a whole 4-byte word.
- The item header holds the id, the length, a 16-bit byte-sum checksum of the padded data, and two flag words.
  - `stat`: cleared when the item is being transferred to a new copy.
  - `live`: cleared when the item is deleted or replaced.
- A rewrite never changes data in place. It appends a new copy of the whole item and then zeroes the old one.
- One page is always kept erased as the *reserve page*. When a page fills up with zeroed items, its live items are compacted onto the reserve page. That page is then put in use, and the compacted page is erased and becomes the new reserve.
- The order of these flag updates lets `osal_nv_init` recover from a reset at any point. It finishes or redoes an interrupted compaction, and it removes duplicates left by an interrupted write.
- Three *hot* ids have their place cached in RAM.

## What is modelled

- **The flash layer** (`OSAL_Flashutil.c`), in its simulator build.
  - The NV pages are one RAM array, written four bytes at a time: `flashWrite` reads, patches and writes back the partial words at either end.
  - Erasing sets a page to `0xFF`.
- **The engine** (`OSAL_Nv.c`). The state is the class `OsalNv.NvStore`:
  - the flash array `mem`;
  - the page cursors `pgOff`, the lost-byte counts `pgLost` and the reserve page `pgRes`;
  - the hot cache `hotPg` / `hotOff`.
- **Where each routine lives:**
  - The routines that change the model's state are methods of the class. Pure helpers that work on the flash array are module-level methods.
  - What the code promises is stated against pure specification functions over a flash image `seq<byte>`:
    - `Walk`: initPage's lookup walk;
    - `Find`: findItem;
    - `FirstFit`: initItem's page choice;
    - `Extent`: a page's cursor and lost count;
    - `Patched`: osal_nv_write's new data.
- **Modules:**
  - `FlashUtil`;
  - `NvFormat`: constants, codecs, the checksum and the lookup specification;
  - `NvPages`: readHdr, readPgHdr, calcChkB/F, markPage, writeBuf and xferBuf;
  - `NvUpdate`: osal_nv_write's compare loop and three-part copy;
  - `NvScan`: initNV's header scan and its choice of a reserve page;
  - `NvWalks`: the walks along a page's item chain as they read the flash: initPage's recovery walk (`InitWalk`), which parts of a page a walk depends on, and what findItem finds after an item is appended;
  - `OsalNv`: the class and the API.
- **Build constants:**
  - `HAL_FLASH_PAGE_SIZE = 2048`, `HAL_NV_PAGE_CNT = 4`, `HAL_FLASH_WORD_SIZE = 4`, `OSAL_NV_PHY_PER_PG = 1`. So `OSAL_NV_PAGES_USED = 4 = OSAL_NV_PAGE_NULL`.
  - The hot ids are 0x0082, 0x003A and 0x003B. Only the fact that they are distinct matters.
- **Flash as a parameter.** The flash contents found at power-up are the constructor's argument. Every proof holds for any initial image, torn writes included.
- **`initNV(sim)`.** The `sim` flag stands for the `_WIN32` build, in which `initFlash` erases everything first.
- **API ids.** The API takes any id other than `OSAL_NV_ITEM_NULL` (0).

## Model

| member | source | states |
|---|---|---|
| FlashUtil.SplitWrite | Middlewares/OSAL/Source/Src/OSAL_Flashutil.c:147-178 | the head, middle and tail byte counts add up to the length. The middle is whole words and the tail is under a word. The head never passes its word and, unless it is the whole write, ends on a word boundary. An aligned write has no head |
| FlashUtil.FlashWriteWord | Middlewares/OSAL/Source/Src/OSAL_Flashutil.c:51-58 | an aligned word store changes exactly those four bytes |
| FlashUtil.PatchWord | Middlewares/OSAL/Source/Src/OSAL_Flashutil.c:183-196 | the read-modify-write of a partial word stores just the patched bytes; the other bytes of the word keep their values |
| FlashUtil.WriteWords | Middlewares/OSAL/Source/Src/OSAL_Flashutil.c:198-211 | the middle loop stores the whole-word run exactly, from the aligned address on |
| FlashUtil.WriteAligned | Middlewares/OSAL/Source/Src/OSAL_Flashutil.c:198-226 | the middle words and then the patched end word together store the run exactly |
| FlashUtil.FlashWrite | Middlewares/OSAL/Source/Src/OSAL_Flashutil.c:133-230 | afterwards, flash is the old flash with `buf[..len]` at `addr` and every other byte as it was, whatever the alignment; a zero length changes nothing |
| FlashUtil.StoreInPieces | Middlewares/OSAL/Source/Src/OSAL_Flashutil.c:183-226 | storing a head and then the rest right after it is storing the whole run |
| FlashUtil.FlashErasePage | Middlewares/OSAL/Source/Src/OSAL_Flashutil.c:98-117 | every byte of the page holding `addr` becomes 0xFF; every other page is untouched |
| FlashUtil.InitFlash | Middlewares/OSAL/Source/Src/OSAL_Flashutil.c:69-86 | every byte of the NV area becomes 0xFF |
| NvFormat.DataSize | Middlewares/OSAL/Source/Src/OSAL_Nv.c:75-76 | the rounded length is a whole number of words, at least the length and less than a word above it |
| NvFormat.ItemSizeLayout | Middlewares/OSAL/Source/Src/OSAL_Nv.c:78-79 | the item size is the header, the data and the padding; it is a whole number of words |
| NvFormat.ItemSize16Truncates | Middlewares/OSAL/Source/Src/OSAL_Nv.c:649 | the item size kept in a `uint16_t` is the true size up to a length of 0xFFEC. Above that it is at most one header, while the true size exceeds a page |
| NvFormat.FitsAsWrittenAcceptsOversize | Middlewares/OSAL/Source/Src/OSAL_Nv.c:649-661 | on an empty page, initItem's fit test as written accepts an item of 0xFFFF bytes; the test with the true size rejects it |
| NvFormat.FitsBounded | Middlewares/OSAL/Source/Src/OSAL_Nv.c:661 | whatever a page holds, an item that passes the fit test with the true size fits in a page after the page header |
| NvFormat.LE16RoundTrip | Middlewares/OSAL/Source/Src/OSAL_Nv.c:101-112 | two bytes stored little-endian read back as the uint16 they encode |
| NvFormat.U16Erased | Middlewares/OSAL/Source/Src/OSAL_Nv.c:47-48 | a field reads OSAL_NV_ERASED_ID exactly when both its bytes are erased |
| NvFormat.DecodeEncodeHdr | Middlewares/OSAL/Source/Src/OSAL_Nv.c:101-119 | decoding an encoded item header gives back the header |
| NvFormat.EncodeDecodeHdr | Middlewares/OSAL/Source/Src/OSAL_Nv.c:101-119 | encoding the header decoded from 16 bytes gives back those bytes |
| NvFormat.HdrAtFields | Middlewares/OSAL/Source/Src/OSAL_Nv.c:113-119 | the fields of a header read with readHdr are the uint16s at the member offsets |
| NvFormat.PgHdrAtFields | Middlewares/OSAL/Source/Src/OSAL_Nv.c:121-132 | the flags of a page header are the uint16s at offsets 0 and 4 |
| NvFormat.PgHdrStore | Middlewares/OSAL/Source/Src/OSAL_Nv.c:329-335 | clearing one page flag with its word makes that flag read as zero and leaves the other as it was |
| NvFormat.ChkBIsImageChk | Middlewares/OSAL/Source/Src/OSAL_Nv.c:764-789 | the checksum calcChkB computes from a buffer is the checksum of the padded data image writeBuf leaves on flash |
| NvFormat.SumUpdate | Middlewares/OSAL/Source/Src/OSAL_Nv.c:1249-1251 | replacing one byte changes the byte sum by exactly the new byte less the old one |
| NvFormat.SourceOf | Middlewares/OSAL/Source/Src/OSAL_Nv.c:415 | `id \| OSAL_NV_SOURCE_ID` has the MSB set and the same low 15 bits |
| NvFormat.WalkStep | Middlewares/OSAL/Source/Src/OSAL_Nv.c:358-442 | one header of initPage's walk. Moving on goes strictly forward, stays word aligned and counts no more lost bytes than it passed. Ending stays inside the page under the same bounds. A find is the header right at the offset, and it is live, matches the id and has its data inside the page (`Hit`) |
| NvFormat.WalkStepAsWritten | Middlewares/OSAL/Source/Src/OSAL_Nv.c:369-377 | the same step with the rounded length kept in a `uint16_t` as written; it still always moves forward |
| NvFormat.TruncatedLengthIsNotOverrun | Middlewares/OSAL/Source/Src/OSAL_Nv.c:369-377 | for a header whose length is 0xFFFD or more, the walk as written steps over one header only, while the intended walk gives up the rest of the page as lost |
| NvFormat.Walk | Middlewares/OSAL/Source/Src/OSAL_Nv.c:352-448 | the walk ends inside the page with no more bytes lost than it covered. What it finds lies at least one header past the start. With `ITEM_NULL` it only measures the page |
| NvFormat.WalkAligned | Middlewares/OSAL/Source/Src/OSAL_Nv.c:369-440 | a walk begun on a word boundary ends on one |
| NvFormat.WalkFound | Middlewares/OSAL/Source/Src/OSAL_Nv.c:381-399 | a data offset the walk returns belongs to a live header in the page whose id and stat match the id asked for |
| NvFormat.StepIgnoresId | Middlewares/OSAL/Source/Src/OSAL_Nv.c:381-403 | a lookup step either finds the item or goes exactly where the measuring step goes |
| NvFormat.WalkEndedIsExtent | Middlewares/OSAL/Source/Src/OSAL_Nv.c:352-448 | an unsuccessful lookup measures the page exactly as the plain walk does |
| NvFormat.Extent | Middlewares/OSAL/Source/Src/OSAL_Nv.c:444-445 | a page's cursor is past the page header, inside the page and word aligned, and its lost count is at most the bytes before the cursor |
| NvFormat.FindOn | Middlewares/OSAL/Source/Src/OSAL_Nv.c:608-615 | the first page, in order, whose walk finds the id, with the offset found; when none is found, every such page's walk ended |
| NvFormat.Reach | Middlewares/OSAL/Source/Src/OSAL_Nv.c:608-621 | the number of pages findItem walks to their end is at most the page count |
| NvFormat.FoundIsHit | Middlewares/OSAL/Source/Src/OSAL_Nv.c:392-398 | a lookup pass returns a live matching header with its data inside the page |
| NvFormat.FindSound | Middlewares/OSAL/Source/Src/OSAL_Nv.c:603-627 | a findItem result is a live header of the id, current or (when none is current) transferred, with its data inside the page; a miss means no page holds either kind of copy |
| NvFormat.FindLive | Middlewares/OSAL/Source/Src/OSAL_Nv.c:603-627 | the header before findItem's offset lies in the page and is not erased |
| NvFormat.EraseGivesErased | Middlewares/OSAL/Source/Src/OSAL_Nv.c:459-471 | an erased page reads as erased |
| NvFormat.ErasedPageEmpty | Middlewares/OSAL/Source/Src/OSAL_Nv.c:362-366 | an erased page holds no item: its walk ends at the page header with nothing lost |
| NvFormat.HotItem | Middlewares/OSAL/Source/Src/OSAL_Nv.c:64-69 | the index of the first matching hot id, or OSAL_NV_MAX_HOT exactly when the id is not hot |
| NvPages.LookupHot | Middlewares/OSAL/Source/Src/OSAL_Nv.c:1077-1090 | hotItem's loop returns the `HotItem` index |
| NvPages.ReadHdr | Middlewares/OSAL/Source/Src/OSAL_Nv.c:829-838 | the header returned is the one decoded from the 16 bytes at (pg, offset) |
| NvPages.ReadPgHdr | Middlewares/OSAL/Source/Src/OSAL_Nv.c:851-860 | the page header returned is the one decoded from the page's first 8 bytes |
| NvPages.CalcChkB | Middlewares/OSAL/Source/Src/OSAL_Nv.c:764-789 | the sum, mod 2^16, of the buffer (or of `len` erased bytes) plus one erased byte per padding byte |
| NvPages.CalcChkF | Middlewares/OSAL/Source/Src/OSAL_Nv.c:802-816 | the checksum of the word-rounded data read from flash |
| NvPages.MarkPage | Middlewares/OSAL/Source/Src/OSAL_Nv.c:329-335 | one word write clears the chosen page flag; the other flag is unchanged |
| NvPages.BuildWord | Middlewares/OSAL/Source/Src/OSAL_Nv.c:885-899 | the word is the bytes already there, then as much of the source as fits, then erased bytes; it uses all of the source or fills the word |
| NvPages.PutWords | Middlewares/OSAL/Source/Src/OSAL_Nv.c:905-925 | the aligned part stores the run followed by erased padding to the next word |
| NvPages.StoreHead | Middlewares/OSAL/Source/Src/OSAL_Nv.c:879-903 | the unaligned first word keeps the bytes before the run, takes what fits of it and pads the rest |
| NvPages.StoreUnaligned | Middlewares/OSAL/Source/Src/OSAL_Nv.c:879-925 | an unaligned run is stored with its erased padding, as if in one piece |
| NvPages.StoreRun | Middlewares/OSAL/Source/Src/OSAL_Nv.c:874-926 | the run is stored at (pg, off), padded with erased bytes to the next word; nothing else changes |
| NvPages.WriteBuf | Middlewares/OSAL/Source/Src/OSAL_Nv.c:874-926 | flash becomes the old flash with `buf[..len]` and its erased padding at (dstPg, dstOff) |
| NvPages.XferBuf | Middlewares/OSAL/Source/Src/OSAL_Nv.c:935-991 | flash becomes the old flash with the old source bytes and their erased padding at (dstPg, dstOff) |
| NvUpdate.PatchedAt | Middlewares/OSAL/Source/Src/OSAL_Nv.c:1277-1285 | each byte of the new data is from the buffer inside the written range and from the old data outside it |
| NvUpdate.SumPatched | Middlewares/OSAL/Source/Src/OSAL_Nv.c:1249-1251 | the byte sum of the patched data is the old sum less the replaced bytes plus the new ones |
| NvUpdate.PatchChecksum | Middlewares/OSAL/Source/Src/OSAL_Nv.c:1249-1251 | the same holds for the uint16 checksum, mod 2^16 |
| NvUpdate.PredictedChecksum | Middlewares/OSAL/Source/Src/OSAL_Nv.c:1244-1295 | the checksum the compare loop predicts from the old header equals the checksum of the new padded copy |
| NvUpdate.CompareStep | Middlewares/OSAL/Source/Src/OSAL_Nv.c:1244-1255 | one byte of the compare loop keeps the count of differing bytes and the predicted checksum right |
| NvUpdate.CompareBuf | Middlewares/OSAL/Source/Src/OSAL_Nv.c:1240-1255 | no byte differs exactly when the item's bytes equal the buffer, and the checksum is the old one less the replaced bytes plus the new, mod 2^16 |
| NvUpdate.PatchStores | Middlewares/OSAL/Source/Src/OSAL_Nv.c:1277-1285 | the three copies change only the new item's data. When the old data lies clear of it, the result is the old data patched with the buffer, then erased padding |
| NvUpdate.PatchItem | Middlewares/OSAL/Source/Src/OSAL_Nv.c:1277-1285 | xferBuf, writeBuf and xferBuf change only the new item's word-rounded data. When the old data lies clear of it, that data becomes the patched old data with its padding |
| NvUpdate.CopyOut | Middlewares/OSAL/Source/Src/OSAL_Nv.c:1369-1373 | osal_nv_read's copy loop returns exactly the `len` bytes at the address |
| NvScan.FirstErased | Middlewares/OSAL/Source/Src/OSAL_Nv.c:217-226 | the reserve page found is the first page whose active flag is erased, or PAGE_NULL when there is none |
| NvScan.LastXfer | Middlewares/OSAL/Source/Src/OSAL_Nv.c:234-237 | the compaction source found is the last in-use page with a cleared xfer flag, or PAGE_NULL |
| NvScan.ScanDistinct | Middlewares/OSAL/Source/Src/OSAL_Nv.c:217-238 | the reserve page and the compaction source are never the same page |
| NvScan.MarkActiveFrame | Middlewares/OSAL/Source/Src/OSAL_Nv.c:228-231 | marking a page active leaves its items and every other page as they were |
| NvScan.ScanHeader | Middlewares/OSAL/Source/Src/OSAL_Nv.c:219-237 | one page of the scan. The first erased page becomes the reserve, a later erased page is marked active, and an in-use page with xfer cleared becomes the source. Items and other pages are untouched |
| NvScan.ScanPages | Middlewares/OSAL/Source/Src/OSAL_Nv.c:215-238 | the scan returns `FirstErased` and `LastXfer` of the flash it started from. Every erased page but the reserve ends marked active, and nothing else changes. Afterwards every page but the reserve is in use (`OneReserve`) |
| NvScan.OneReserveExactly | Middlewares/OSAL/Source/Src/OSAL_Nv.c:215-238 | with the reserve page erased, a page's active flag is erased if and only if it is the reserve page |
| NvScan.MostLost | Middlewares/OSAL/Source/Src/OSAL_Nv.c:293-310 | the loop's choice (`IsMostLost`): the first page whose lost count is the whole page past its header. Failing that, the first page with the largest lost count: no page loses more and no earlier page loses as much |
| NvScan.IsMostLostUnique | Middlewares/OSAL/Source/Src/OSAL_Nv.c:293-310 | `IsMostLost` pins the choice down: two pages that both satisfy it are the same page |
| NvWalks.InitWalkStep | Middlewares/OSAL/Source/Src/OSAL_Nv.c:358-442 | one header of initPage's recovery walk. A step that goes on moves forward by the item's full size, stays on word boundaries and loses no more than it passes. A step that ends stays inside the page under the same bounds. A stop at a transferred item happens only without `findDups`, at the data right after the header |
| NvWalks.InitWalk | Middlewares/OSAL/Source/Src/OSAL_Nv.c:352-448 | the recovery walk from a header ends inside the page, word aligned, with no more lost than it covered, or stops at the data of a transferred item |
| NvWalks.WalkOfStep | Middlewares/OSAL/Source/Src/OSAL_Nv.c:358-442 | a walk is its first step followed by the walk from where that step leads |
| NvWalks.ReachesWalk | Middlewares/OSAL/Source/Src/OSAL_Nv.c:358-442 | a walk that reaches a header gives the result of the walk from there, having moved forward and lost no more than it passed |
| NvWalks.ReachesFrame | Middlewares/OSAL/Source/Src/OSAL_Nv.c:358-442 | what a walk reaches in one image it reaches in another that agrees on that stretch of the page |
| NvWalks.StepSpan | Middlewares/OSAL/Source/Src/OSAL_Nv.c:358-442 | a step reads only the header and the item's data |
| NvWalks.WalkSpan | Middlewares/OSAL/Source/Src/OSAL_Nv.c:352-448 | a walk depends only on the page from where it starts |
| NvWalks.PageWalks | Middlewares/OSAL/Source/Src/OSAL_Nv.c:352-448 | a page that is the same in two images has the same measure, recovery walk and lookups in both |
| NvWalks.WalkedPageKept | Middlewares/OSAL/Source/Src/OSAL_Nv.c:352-448 | a page that did not change, with the same cursor and lost count, stays settled or pending |
| NvWalks.ErasedWalks | Middlewares/OSAL/Source/Src/OSAL_Nv.c:362-366 | on an erased page both walks end at the page header with nothing lost |
| NvWalks.MeasureIsRecovery | Middlewares/OSAL/Source/Src/OSAL_Nv.c:381-440 | where the recovery walk neither meets a corrupt item nor stops at a transferred one, it takes the measuring walk's step |
| NvWalks.WalksEnd | Middlewares/OSAL/Source/Src/OSAL_Nv.c:352-448 | when both walks reach a header and stop there with the same result, that is the page's measure and its recovery walk |
| NvWalks.WalksStep | Middlewares/OSAL/Source/Src/OSAL_Nv.c:381-440 | a change to one header keeps what both walks reach up to it, and a step they then take together carries them on |
| NvWalks.WalkedStart | Middlewares/OSAL/Source/Src/OSAL_Nv.c:352-354 | the recovery walk starts at the first header with nothing lost |
| NvWalks.WalkedNext | Middlewares/OSAL/Source/Src/OSAL_Nv.c:379-440 | a step over one item that changed at most its header carries the recovery walk of the flash found on |
| NvWalks.WalkedEnd | Middlewares/OSAL/Source/Src/OSAL_Nv.c:362-377 | a step that ends the walk gives the page's measure, on the flash found and on the flash left |
| NvWalks.WalkedTail | Middlewares/OSAL/Source/Src/OSAL_Nv.c:442-445 | a walk that reached the last place a header fits ends there |
| NvWalks.WalkedFound | Middlewares/OSAL/Source/Src/OSAL_Nv.c:424-427 | a walk that stops at a transferred item stops there on the flash found and on the flash left |
| NvWalks.AppendedWalk | Middlewares/OSAL/Source/Src/OSAL_Nv.c:381-399 | after an item was appended at the end of a page's chain, the lookup of any other id from a header the chain reaches finds what it found before |
| NvWalks.AppendedOtherPage | Middlewares/OSAL/Source/Src/OSAL_Nv.c:603-627 | a page other than the one appended to walks as before |
| NvWalks.AppendedPage | Middlewares/OSAL/Source/Src/OSAL_Nv.c:381-399 | on the page appended to, the lookup of another id finds what it found before |
| NvWalks.AppendedFindOn | Middlewares/OSAL/Source/Src/OSAL_Nv.c:608-615 | after an append, findItem's pass over the pages from any page on gives what it gave before for every other id |
| NvWalks.FindOnLookups | Middlewares/OSAL/Source/Src/OSAL_Nv.c:608-615 | findItem's pass over the pages from page `k` on gives the first page, from `k` on, whose own walk finds the id |
| NvWalks.FirstFoundSame | Middlewares/OSAL/Source/Src/OSAL_Nv.c:608-615 | two page-by-page outcomes that agree on which pages find the id, and on what those pages find, give findItem the same answer |
| NvWalks.FindOnReaches | Middlewares/OSAL/Source/Src/OSAL_Nv.c:608-615 | when every page from `k` up to `pg` walks to its end without finding the id and page `pg` finds it, findItem from `k` on returns page `pg` and the offset found there |
| NvWalks.AppendedEndedFrom | Middlewares/OSAL/Source/Src/OSAL_Nv.c:608-615 | after an append of an id that no page held, every page before the appended one still walks to its end without finding it |
| NvWalks.AppendedKeepsOthers | Middlewares/OSAL/Source/Src/OSAL_Nv.c:603-627 | appending an item leaves findItem's answer for every other id as it was |
| NvWalks.AppendedFoundOn | Middlewares/OSAL/Source/Src/OSAL_Nv.c:608-615 | when findItem did not find the id before, its pass from any page up to the one appended to finds the new item |
| NvWalks.LookupReachesEnd | Middlewares/OSAL/Source/Src/OSAL_Nv.c:358-442 | a lookup that ends short of the page end reaches the header where the page's measure ends |
| NvWalks.LookupStopsAt | Middlewares/OSAL/Source/Src/OSAL_Nv.c:392-398 | a lookup that reaches a header before which nothing changed finds the id there when the header is now a live current copy of it |
| NvWalks.AppendedHeader | Middlewares/OSAL/Source/Src/OSAL_Nv.c:1012-1016 | the appended header is a live current copy of its id, and the bytes before it are unchanged |
| NvWalks.AppendedHit | Middlewares/OSAL/Source/Src/OSAL_Nv.c:392-398 | on the page appended to, the lookup of the new item stops at its header |
| NvWalks.AppendedFound | Middlewares/OSAL/Source/Src/OSAL_Nv.c:1147-1171 | the round trip of osal_nv_item_init for an item appended at the end of a page's chain: an id findItem did not find is then found there, with its data right after the new header |
| OsalNv.ItemAdvance | Middlewares/OSAL/Source/Src/OSAL_Nv.c:1050-1063 | a header that reads back as written moves the cursor past the item. A garbled one moves it by the size read, clamped to the page end, and counts exactly that as lost. The cursor stays valid and never moves back |
| OsalNv.HeaderStore | Middlewares/OSAL/Source/Src/OSAL_Nv.c:1012-1016 | the first word puts the id and length in place and changes nothing else of the item or of other pages |
| OsalNv.ChkStore | Middlewares/OSAL/Source/Src/OSAL_Nv.c:1033-1035 | the checksum word puts the checksum in place and leaves the other fields and the data alone |
| OsalNv.PutItemData | Middlewares/OSAL/Source/Src/OSAL_Nv.c:1021-1043 | with a buffer, its data image is written and the checksum of that image is stored. Without one, the data is left as it is, and the checksum is stored only when the erased-data checksum equals the data on flash. Only the checksum field and the data change |
| OsalNv.PutItem | Middlewares/OSAL/Source/Src/OSAL_Nv.c:1012-1048 | the flash part of writeItem leaves the item as `ItemWritten` describes |
| OsalNv.ActivatePage | Middlewares/OSAL/Source/Src/OSAL_Nv.c:88 | the reserve page's active flag is cleared, and its items and every other page are as they were |
| OsalNv.ClearFlag | Middlewares/OSAL/Source/Src/OSAL_Nv.c:733-749 | setItem's flash part: the header is read, then its stat or live flag is cleared by one word write |
| OsalNv.CopyData | Middlewares/OSAL/Source/Src/OSAL_Nv.c:546 | the copied item's data equals the source item's data; the new header and other pages are untouched |
| OsalNv.CopyFlash | Middlewares/OSAL/Source/Src/OSAL_Nv.c:545-555 | the copy has the source's id, length and data, and its checksum is computed on the copy. When `ok`, the stored checksum is the source header's |
| OsalNv.TransferItem | Middlewares/OSAL/Source/Src/OSAL_Nv.c:536-553 | the compaction copy of one item changes only the two pages. The new header gets the source's id, length and data, and (when `ok`) its checksum (`ItemCopied`) |
| OsalNv.MarkMoving | Middlewares/OSAL/Source/Src/OSAL_Nv.c:536-539 | marking a current item as being transferred touches only its header and leaves its data as it was; an item already marked is left alone |
| OsalNv.CompactVisit | Middlewares/OSAL/Source/Src/OSAL_Nv.c:510-531 | compactPage's loop ends at an erased id, or at an item whose full size runs past the page or past the reserve page's room. Otherwise it moves one item on, copying exactly the live items other than the skipped id whose checksum is good. The size is taken in full, not truncated to uint16 as line 519 does; the as-written loop is `CompactVisitAsWritten` (see Findings) |
| OsalNv.CompactVisitAsWritten | Middlewares/OSAL/Source/Src/OSAL_Nv.c:518-531 | the same tests with the data size kept in a uint16: an item that goes on is stepped over by at least its header |
| OsalNv.TruncatedLengthIsNotEnd | Middlewares/OSAL/Source/Src/OSAL_Nv.c:518-525 | for a zeroed header whose length reads 0xFFFD or more, the loop as written steps over the header alone, where the intended loop stops |
| OsalNv.VisitItem | Middlewares/OSAL/Source/Src/OSAL_Nv.c:508-531 | the tests at the head of compactPage's loop give `CompactVisit`, with the full data size (see Findings for the uint16 `sz` of line 519) |
| OsalNv.VisitSpan | Middlewares/OSAL/Source/Src/OSAL_Nv.c:508-531 | compactPage's decision at a header depends only on the bytes from that header to the page end |
| OsalNv.RunBounds | Middlewares/OSAL/Source/Src/OSAL_Nv.c:505-570 | the walk of the page and the reserve cursor only move forward |
| OsalNv.CompactedBounds | Middlewares/OSAL/Source/Src/OSAL_Nv.c:505-570 | a finished walk never moves the reserve cursor back |
| OsalNv.RunFrame | Middlewares/OSAL/Source/Src/OSAL_Nv.c:505-570 | the items a partial walk moved stay as they are while the reserve page between the two cursors is kept |
| OsalNv.CompactedFrame | Middlewares/OSAL/Source/Src/OSAL_Nv.c:505-570 | the same for a finished walk: later changes outside the compacted items keep them |
| OsalNv.RunExtend | Middlewares/OSAL/Source/Src/OSAL_Nv.c:505-570 | one more header stepped over, or moved to the cursor, extends the walk |
| OsalNv.RunClose | Middlewares/OSAL/Source/Src/OSAL_Nv.c:512-525 | a walk that reached a header where the loop breaks is the whole walk |
| OsalNv.CompactedSource | Middlewares/OSAL/Source/Src/OSAL_Nv.c:505-570 | the walk reads the page being compacted only from its starting header on |
| OsalNv.RunStep | Middlewares/OSAL/Source/Src/OSAL_Nv.c:505-570 | one pass of the loop, with the source page past the header and the reserve page before the cursor kept, extends the walk to the next header |
| OsalNv.Moves | Middlewares/OSAL/Source/Src/OSAL_Nv.c:505-570 | the items the walk moves, as (source header, reserve header) pairs: in page order, landing at increasing offsets, the first at the starting cursor, each header inside the page |
| OsalNv.MovedIntact | Middlewares/OSAL/Source/Src/OSAL_Nv.c:527-560 | an item the loop moves, with the checksum read back equal, is found on the reserve page with its id, length and data, and a checksum that matches that data |
| OsalNv.CompactedMoves | Middlewares/OSAL/Source/Src/OSAL_Nv.c:505-574 | after a compaction that went through, every item the walk moves is intact on the reserve page at its place |
| OsalNv.MovesLive | Middlewares/OSAL/Source/Src/OSAL_Nv.c:527-531 | every item moved is live, is not the skipped id and has a good checksum |
| OsalNv.MovesPacked | Middlewares/OSAL/Source/Src/OSAL_Nv.c:540-566 | the items the compaction walk moves are packed on the reserve page from the cursor the walk starts at: each lands right after the one before it |
| OsalNv.WalkEndMoves | Middlewares/OSAL/Source/Src/OSAL_Nv.c:540-566 | the reserve cursor the compaction walk leaves is the one right after the last item it moves, or the one it started at when it moves none |
| OsalNv.CompactedCursor | Middlewares/OSAL/Source/Src/OSAL_Nv.c:505-574 | after a compaction that went through, the reserve cursor is where the compaction walk leaves it |
| OsalNv.CompactedEnd | Middlewares/OSAL/Source/Src/OSAL_Nv.c:505-574 | after a compaction that went through, the moved items are packed on the reserve page from its old cursor, and the cursor stands right after the last moved item, or where it started when nothing moved |
| OsalNv.WalkPage | Middlewares/OSAL/Source/Src/OSAL_Nv.c:352-448 | initPage's lookup loop returns `Walk` of the page |
| OsalNv.LookupAll | Middlewares/OSAL/Source/Src/OSAL_Nv.c:608-615 | findItem's loop returns `FindOn`. Each page walked to its end has its cursor and lost count set from its measure (`Remeasured`) |
| OsalNv.Remeasured | Middlewares/OSAL/Source/Src/OSAL_Nv.c:444-445 | the pages before `n` carry their measure and the rest keep their old value |
| OsalNv.RemeasuredAgain | Middlewares/OSAL/Source/Src/OSAL_Nv.c:444-445 | measuring pages that were already measured changes nothing |
| OsalNv.FindOnMiss | Middlewares/OSAL/Source/Src/OSAL_Nv.c:608-615 | a page walked to its end without the item leaves the lookup to the next page, and its walk is its measure |
| OsalNv.FlagClearedKept | Middlewares/OSAL/Source/Src/OSAL_Nv.c:728-752 | clearing a flag of a header that is not erased keeps every erased page erased and every valid cursor valid |
| OsalNv.FlagClearedHdrs | Middlewares/OSAL/Source/Src/OSAL_Nv.c:728-752 | clearing the stat or live flag of an item header changes no page header |
| OsalNv.RemeasuredKeeps | Middlewares/OSAL/Source/Src/OSAL_Nv.c:444-445 | setting the walked pages to their measure keeps the directory: valid cursors stay valid and blank pages stay blank |
| OsalNv.WearPage | Middlewares/OSAL/Source/Src/OSAL_Nv.c:652-667 | the `k`-th page initItem looks at is a page number |
| OsalNv.WearRank | Middlewares/OSAL/Source/Src/OSAL_Nv.c:652-668 | every page comes exactly once in initItem's order |
| OsalNv.FirstFit | Middlewares/OSAL/Source/Src/OSAL_Nv.c:654-668 | the page initItem's search stops at is a page number, when there is one |
| OsalNv.FirstFitSound | Middlewares/OSAL/Source/Src/OSAL_Nv.c:654-668 | the page found is not the reserve page, has room in free plus lost space, and no page before it in the order does |
| OsalNv.FirstFitNoneExactly | Middlewares/OSAL/Source/Src/OSAL_Nv.c:654-670 | the search finds nothing exactly when no page other than the reserve has room |
| OsalNv.FindRoom | Middlewares/OSAL/Source/Src/OSAL_Nv.c:649-670 | initItem's do-while loop finds a page exactly when `FirstFit` does, and it is that page |
| OsalNv.FindNotBlank | Middlewares/OSAL/Source/Src/OSAL_Nv.c:603-627 | findItem never returns the erased reserve page |
| OsalNv.ActivateThenErase | Middlewares/OSAL/Source/Src/OSAL_Nv.c:82-92 | after the cleanup's two steps, the old reserve page is active with its items intact, and only the two pages changed |
| OsalNv.XferKeepsData | Middlewares/OSAL/Source/Src/OSAL_Nv.c:1272-1277 | marking the old copy as in transfer leaves its data as it was |
| OsalNv.IntactPatched | Middlewares/OSAL/Source/Src/OSAL_Nv.c:1244-1295 | for an old item left intact by writeItem, the checksum osal_nv_write predicts is the checksum of the patched copy |
| OsalNv.Where | Middlewares/OSAL/Source/Src/OSAL_Nv.c:1189-1199 | the place osal_nv_item_len and osal_nv_read read from lies in a page past its header. For an id without a filled cache entry it is findItem's answer |
| OsalNv.HotHdrAddr | Middlewares/OSAL/Source/Src/OSAL_Nv.c:1189-1199 | the header address read for a hot id as written, with `offset - OSAL_NV_HDR_SIZE` wrapping in uint16 |
| OsalNv.UnfilledCacheReadsOutside | Middlewares/OSAL/Source/Src/OSAL_Nv.c:1189-1199 | with the cache entry osal_nv_init leaves, the header is read at 0xFFF0, past the whole NV area |
| OsalNv.UnfilledCacheReadsPageHeader | Middlewares/OSAL/Source/Src/OSAL_Nv.c:1359-1375 | with the cache entry osal_nv_init leaves, osal_nv_read copies from byte `ndx` of page 0, so a read from the start of the item returns page 0's page header |
| OsalNv.CacheHitInside | Middlewares/OSAL/Source/Src/OSAL_Nv.c:1189-1199 | with a filled entry, the header read lies in its page after the page header |
| OsalNv.FoundBounds | Middlewares/OSAL/Source/Src/OSAL_Nv.c:1228-1238 | findItem's item and its data lie inside the page |
| OsalNv.WriteMissing | Middlewares/OSAL/Source/Src/OSAL_Nv.c:1228-1232 | a missing item gives NV_ITEM_UNINIT and leaves flash as it was |
| OsalNv.WriteShort | Middlewares/OSAL/Source/Src/OSAL_Nv.c:1234-1238 | a range past the item's length gives NV_OPER_FAILED and leaves flash as it was |
| OsalNv.WriteSame | Middlewares/OSAL/Source/Src/OSAL_Nv.c:1240-1257 | bytes that already hold the buffer give success and leave flash as it was |
| OsalNv.WriteChanged | Middlewares/OSAL/Source/Src/OSAL_Nv.c:1257-1330 | a write that changes bytes ends in success, with the old copy retired, or in NV_OPER_FAILED |
| OsalNv.DeleteMissing | Middlewares/OSAL/Source/Src/OSAL_Nv.c:1398-1403 | deleting a missing item gives NV_ITEM_UNINIT and leaves flash as it was |
| OsalNv.DeleteBadLen | Middlewares/OSAL/Source/Src/OSAL_Nv.c:1405-1410 | a length other than the stored one gives NV_BAD_ITEM_LEN and leaves flash as it was |
| OsalNv.DeleteZeroed | Middlewares/OSAL/Source/Src/OSAL_Nv.c:1412-1426 | a matching delete zeroes the item found. It succeeds exactly when no copy is found afterwards |
| OsalNv.PredictedPatched | Middlewares/OSAL/Source/Src/OSAL_Nv.c:1244-1295 | a predicted checksum is the checksum of the patched copy |
| OsalNv.PatchFlash | Middlewares/OSAL/Source/Src/OSAL_Nv.c:1277-1293 | only the new item's page changes. When the old and new data areas are apart, the new data is the old data patched with the buffer. The new header holds the checksum of the new data, and the header read back carries it |
| OsalNv.CheckPasses | Middlewares/OSAL/Source/Src/OSAL_Nv.c:1287-1298 | when the data areas are apart and the old item is intact, the read-back checksum equals the predicted one |
| OsalNv.NvStore.ErasePage | Middlewares/OSAL/Source/Src/OSAL_Nv.c:459-471 | the page is erased, nothing else changes in flash, and its cursor and lost count start over |
| OsalNv.NvStore.HotItemUpdate | Middlewares/OSAL/Source/Src/OSAL_Nv.c:1103-1114 | a hot id's cache entry takes the new place; other ids change nothing |
| OsalNv.NvStore.SetItem | Middlewares/OSAL/Source/Src/OSAL_Nv.c:728-752 | the stat or live flag is cleared. Zeroing adds the item's uint16 size to its page's lost count. For a header that is not erased the directory is kept |
| OsalNv.NvStore.LookupPages | Middlewares/OSAL/Source/Src/OSAL_Nv.c:608-615 | the first pass of findItem returns `FindOn`, and the pages walked are remeasured |
| OsalNv.NvStore.FindItem | Middlewares/OSAL/Source/Src/OSAL_Nv.c:603-627 | the page and offset are `Find`, or PAGE_NULL and 0. Only the pages walked to their end get new cursors and lost counts, and the directory stays valid |
| OsalNv.NvStore.CheckItem | Middlewares/OSAL/Source/Src/OSAL_Nv.c:402-434 | the item is zeroed exactly when its checksum is bad. The walk stops early exactly when a good transferred item is met while not looking for duplicates. No page header changes |
| OsalNv.NvStore.ZeroSource | Middlewares/OSAL/Source/Src/OSAL_Nv.c:408-421 | the transferred copy of the item, if findItem finds one, is zeroed, and flash is unchanged otherwise. No page header changes |
| OsalNv.ZeroedStep | Middlewares/OSAL/Source/Src/OSAL_Nv.c:381-439 | zeroing a header changes only that header, and then both the recovery walk and the measuring walk step over the item counting it as lost |
| OsalNv.NvStore.StepOver | Middlewares/OSAL/Source/Src/OSAL_Nv.c:381-440 | past the header checks, the step is `InitWalkStep` of the flash found: a zeroed or corrupt item is counted as lost (a corrupt one being zeroed), and a transferred one stops the walk without `findDups`. No page header changes |
| OsalNv.NvStore.InitStep | Middlewares/OSAL/Source/Src/OSAL_Nv.c:358-442 | one header of the recovery walk is `InitWalkStep` of the flash found: an erased id ends the walk there, a length past the page ends it at the page end with the rest of the page lost, a zeroed or corrupt item is stepped over and counted as lost, and a transferred item stops it without `findDups`. Only the header can change, and afterwards both walks take that step. An erased page ends at once. No page header changes |
| OsalNv.NvStore.InitPage | Middlewares/OSAL/Source/Src/OSAL_Nv.c:352-448 | without `findDups` the walk stops early exactly when `InitWalk` of the flash found meets a transferred item, leaving the page pending. Otherwise the page's cursor and lost count are the end of that walk, and the page is settled: on the new flash, where every corrupt item is zeroed, the recovery walk and the measuring walk (`Extent`) give the same cursor and lost count. Only that page changes, and no page header changes |
| OsalNv.RecoveryStep | Middlewares/OSAL/Source/Src/OSAL_Nv.c:360-440 | one header of the recovery walk: an item that is zeroed or whose checksum fails is stepped over and counted as lost; without `findDups` a good item that is being transferred stops the walk; any other good item is stepped over |
| OsalNv.NvStore.RecoveryWalk | Middlewares/OSAL/Source/Src/OSAL_Nv.c:354-442 | the loop of initPage: an early stop happens only without `findDups`, when `InitWalk` of the old flash meets a transferred item, and leaves the page pending. An erased page is left as it was. Without `findDups` only page `pg` changes, and the walk's end is where `InitWalk` of the old and the new flash ends and where the measuring walk ends. No page header changes |
| OsalNv.NvStore.WriteItem | Middlewares/OSAL/Source/Src/OSAL_Nv.c:1006-1066 | the header and data are as `ItemWritten` describes, only the item's bytes change, and the cursor of the page moves past the item. The hot cache follows a successful write with `flag` and stays as it was in every other case |
| OsalNv.NvStore.CopyItem | Middlewares/OSAL/Source/Src/OSAL_Nv.c:536-563 | only the source item's header and the item's span at the reserve cursor change, and only that cursor moves, by the item size. The new item has the source's id, length and data, and (when `ok`) its checksum (`ItemCopied`) |
| OsalNv.NvStore.CompactStep | Middlewares/OSAL/Source/Src/OSAL_Nv.c:505-573 | one step follows `CompactVisit`: it stops at the end without touching flash, steps over an item without touching flash, or copies it. A copy that went through is `ItemCopied` at the old cursor, which moves by the item size; a failed copy stops the walk. The reserve page before the cursor is kept, and so is the source page everywhere but the header visited |
| OsalNv.NvStore.CompactNext | Middlewares/OSAL/Source/Src/OSAL_Nv.c:505-570 | one pass of the loop added to the walk made so far (`CompactRun`): the walk reaches the next header, or, when it stops without a failed copy, it is the whole walk (`Compacted`). The reserve page before the first cursor is kept, and so is the source page's page header |
| OsalNv.NvStore.CompactCleanup | Middlewares/OSAL/Source/Src/OSAL_Nv.c:82-92 | the old reserve page is active with its items intact, and the compacted page is erased and becomes the blank reserve |
| OsalNv.NvStore.CompactItems | Middlewares/OSAL/Source/Src/OSAL_Nv.c:505-574 | when no copy failed, the reserve page holds, from its old cursor on, exactly the items the walk of the old source page moves (`Compacted`; see `CompactedMoves`, `MovesPacked` and `CompactedEnd`). Only the two pages and the reserve cursor change, the reserve page before its old cursor is kept, and the source page keeps its page header |
| OsalNv.NvStore.CompactPage | Middlewares/OSAL/Source/Src/OSAL_Nv.c:500-587 | a successful compaction leaves on the old reserve page, from its old cursor, exactly the items the walk moves (`Compacted`). A failed one leaves the reserve page erased and still the reserve, and the source page keeps its page header. A full one leaves the source page as the blank reserve and the target active. One with a skipped id keeps the source page header and leaves the cleanup to the caller. Only the two pages change, and one reserve page stays one reserve page (`OneReserve`) |
| OsalNv.ReserveMoved | Middlewares/OSAL/Source/Src/OSAL_Nv.c:500-587 | a compaction keeps one reserve page: either the source keeps its header and the reserve stays, or the old reserve is marked in use and the source becomes the reserve |
| OsalNv.NvStore.MarkXfer | Middlewares/OSAL/Source/Src/OSAL_Nv.c:676 | the page's xfer flag is cleared; only the page header changes |
| OsalNv.NvStore.CompactFor | Middlewares/OSAL/Source/Src/OSAL_Nv.c:673-702 | the page is marked in transfer and compacted. A failed compaction gives no result and no page handed back; the reserve page stays, erased, and the page stays marked in transfer. When the compaction went through, the old reserve page holds the compacted items (`Compacted`) and then the item, which lands only there, at the end of them. Then with `flag` the old reserve page is marked in use and the compacted page becomes the blank reserve; without it the reserve page stays and the compacted page is handed back. Only the two pages change, and the other pages' cursors and lost counts stay |
| OsalNv.NvStore.FinishFor | Middlewares/OSAL/Source/Src/OSAL_Nv.c:681-701 | after a compaction the item goes to the reserve page right after the compacted items, which stay. With `flag` the old reserve page is then marked in use and the compacted page is the blank reserve; without it the compacted page is handed back. Only the two pages change |
| OsalNv.NvStore.CleanupFor | Middlewares/OSAL/Source/Src/OSAL_Nv.c:695-701 | the old reserve page is marked in use and keeps its items, the new item staying in place; the compacted page becomes the blank reserve |
| OsalNv.NvStore.WriteCompacted | Middlewares/OSAL/Source/Src/OSAL_Nv.c:683-686 | the item is written after the compacted items, which stay, and reported only when it landed there. Only the reserve page and its cursor change |
| OsalNv.NvStore.WriteFor | Middlewares/OSAL/Source/Src/OSAL_Nv.c:704-710 | the direct branch moves the chosen page's cursor past the item and reports the page only when the item landed there. Only the item's bytes change |
| OsalNv.NvStore.InitItem | Middlewares/OSAL/Source/Src/OSAL_Nv.c:647-714 | initItem picks `FirstFit`'s page and does what `InitItemDone` says. With no page, nothing changes. When the item fits in the page's free space, only its bytes change and only that cursor moves. Otherwise only the chosen page and the reserve page change. A failed compaction leaves no result, the reserve page erased and the chosen page marked in transfer. A successful one leaves the compacted items and then the item on the old reserve page; with `flag` that page is in use and the chosen page is the new reserve, and without it the chosen page is handed back. The other pages' cursors stay, and the item lands where `rtrn` says |
| OsalNv.NvStore.Locate | Middlewares/OSAL/Source/Src/OSAL_Nv.c:1189-1199 | the lookup returns `Where` |
| OsalNv.NvStore.OsalNvItemLen | Middlewares/OSAL/Source/Src/OSAL_Nv.c:1182-1201 | the length of the item found, or 0 |
| OsalNv.NvStore.OsalNvRead | Middlewares/OSAL/Source/Src/OSAL_Nv.c:1352-1376 | a missing item gives NV_OPER_FAILED. Otherwise it returns exactly the `len` bytes from `ndx` of the item's data, while those lie in the NV area |
| OsalNv.NvStore.OsalNvItemInit | Middlewares/OSAL/Source/Src/OSAL_Nv.c:1147-1171 | a hot id gives NV_OPER_FAILED and changes nothing. An existing item gives success and leaves flash as it was. Otherwise the item is created (NV_ITEM_UNINIT) or not (NV_OPER_FAILED) as `ItemInitDone` says, and the flash, cursors and lost counts change as `InitItemDone` says from the state after the lookup |
| OsalNv.NvStore.OsalNvDelete | Middlewares/OSAL/Source/Src/OSAL_Nv.c:1392-1427 | the outcomes of `Deleted`, and the engine stays ready |
| OsalNv.NvStore.DeleteFound | Middlewares/OSAL/Source/Src/OSAL_Nv.c:1412-1426 | the item's live flag is cleared, and the status is success exactly when no copy is found afterwards |
| OsalNv.NvStore.PatchNew | Middlewares/OSAL/Source/Src/OSAL_Nv.c:1264-1302 | when the areas are apart, the new copy holds the patched data. Its header holds the checksum of its data. `ok` holds exactly when that checksum is the predicted one, and it does hold for an intact old item. On success the hot cache follows |
| OsalNv.NvStore.MarkSource | Middlewares/OSAL/Source/Src/OSAL_Nv.c:1272-1275 | an old copy with an erased stat gets it cleared; its data and every other page stay |
| OsalNv.NvStore.Rewrite | Middlewares/OSAL/Source/Src/OSAL_Nv.c:1257-1330 | the rewrite ends ready, in success (with the old copy retired) or NV_OPER_FAILED |
| OsalNv.NvStore.CopyFor | Middlewares/OSAL/Source/Src/OSAL_Nv.c:1259-1307 | the reserve page stays, blank unless a page was handed back. When the copy went through, the new copy holds the old data patched with the buffer (`CopyPatched`), its header holds the checksum of its data, and that checksum is the predicted one |
| OsalNv.NvStore.PatchLanded | Middlewares/OSAL/Source/Src/OSAL_Nv.c:1264-1307 | once initItem has made room, the patched data goes right before the page's cursor; when the predicted checksum agrees, the new copy holds the old data patched with the buffer and its header holds that checksum (`PatchedCopy`); cursors and lost counts stay, and with no page handed back the store stays ready (`Ready`) |
| OsalNv.NvStore.Settle | Middlewares/OSAL/Source/Src/OSAL_Nv.c:1309-1330 | the compaction is cleaned up or, when the new copy came from the compacted page and failed, abandoned. The old copy is zeroed unless the copy failed |
| OsalNv.NvStore.WriteFound | Middlewares/OSAL/Source/Src/OSAL_Nv.c:1234-1330 | the outcomes of `WriteChecked` once the item is found |
| OsalNv.NvStore.WriteDiffers | Middlewares/OSAL/Source/Src/OSAL_Nv.c:1257-1330 | a buffer that differs ends in success with the old copy retired, or in NV_OPER_FAILED |
| OsalNv.NvStore.OsalNvWrite | Middlewares/OSAL/Source/Src/OSAL_Nv.c:1217-1335 | a zero length changes nothing and succeeds. Otherwise the outcome is as `WriteChecked` says: a missing item, a range past the item and an unchanged buffer leave flash as it was. The engine stays ready |
| OsalNv.NvStore.Recover | Middlewares/OSAL/Source/Src/OSAL_Nv.c:240-263 | with no interrupted compaction the reserve page stays. With one, the reserve page becomes its source when no reserve was found, and otherwise stays or becomes the source. Any reserve page ends blank, and every other page stays in use (`OneReserve`) |
| OsalNv.ReserveErased | Middlewares/OSAL/Source/Src/OSAL_Nv.c:240-263 | erasing the reserve page, or a page when there was none, leaves that page the one reserve |
| OsalNv.NvStore.InitPasses | Middlewares/OSAL/Source/Src/OSAL_Nv.c:271-289 | after the walking loops every cursor is valid and the reserve page stays blank. Every page is settled by its last recovery walk, or (only after a restart) pending at a transferred item. With no restart every page is settled. No page header changes |
| OsalNv.NvStore.RecountPages | Middlewares/OSAL/Source/Src/OSAL_Nv.c:282-289 | after the final pass every cursor is valid, the reserve page stays blank, every page is settled or pending at a transferred item, and no page header changes |
| OsalNv.HdrsKeptReserve | Middlewares/OSAL/Source/Src/OSAL_Nv.c:271-289 | walks that keep every page header keep the one reserve page |
| OsalNv.NvStore.PickReserve | Middlewares/OSAL/Source/Src/OSAL_Nv.c:291-314 | with no reserve page, the page the loop picks (`IsMostLost` of the lost counts) is erased and becomes the reserve, and the other pages' lost counts stay. The engine is then ready, and every page but the reserve stays in use (`OneReserve`) |
| OsalNv.NvStore.InitNV | Middlewares/OSAL/Source/Src/OSAL_Nv.c:204-317 | the engine is ready. The reserve page is the scan's erased page, the interrupted compaction's source, or (with neither) exactly the page the loop picks from the walk's lost counts (`IsMostLost`), as the cases of the source say. Every page but the reserve is in use (`OneReserve`), so the reserve is the only page whose active flag is erased (`OneReserveExactly`). Every page that is not pending has the cursor and lost count of its measure (`Extent`), with the lost count before the cursor |

## Left out

- Interrupts, critical sections and concurrent callers: the engine is modelled single-threaded, and `HAL_ENTER_CRITICAL_SECTION` has no counterpart.
- A reset in the middle of an operation is not an event of the model.
  - Recovery is modelled by letting the constructor take any flash image and proving what `osal_nv_init` does from it.
  - That a reset at each point leaves an image from which recovery reaches the intended state is not proved.
- The target flash driver (`stm32_flash_write`, `stm32_flash_erase`) is not part of this model. Only the `_WIN32` RAM-array build is modelled, in which a word store simply overwrites; the program-only-clears-bits rule of real flash is not modelled.
- `OSAL_NV_PHY_PER_PG` is fixed at 1, so erasePage's loop over physical pages runs once. The HAL constants are fixed at the values given above.
- The hot ids `ZCD_NV_NWKKEY` and the two key-info ids come from headers that are not part of this model. Their Z-Stack values are used; only their distinctness matters.
- `OSAL_NV_PAGE_TO_PTR`, `HAL_NV_PAGE_BEG` and `NV_FLASH_BASE`: addresses are modelled relative to the start of the NV area.
- The static `hdrData` buffer is modelled as the word `[v, 0xFFFF]` each time it is written (`FieldWord`), which is how it is always used.
- The `uint8_t` wrap-around that initNV uses to restart its walk at page 0 (`pg = 255; continue`) is modelled as a restart of the loop.
- `osal_nv_init`'s unused parameter is left out.
- OsalNv.NvStore.OsalNvRead: a read running past the end of the NV area returns NV_OPER_FAILED. The C code reads whatever memory follows the NV area and returns success.
- NvPages.XferBuf: the source bytes are taken as they stand when the copy starts. The C code reads them byte by byte while writing, so the two differ only when source and destination overlap, which no caller does.
- OsalNv.NvStore.WriteCompacted: the item is written after a compaction only when it fits on the compacted page.
  - This is only a guard: the C code writes it unconditionally.
  - It relies on the lost counts being exact, which a reset or a garbled header can break. The model does not prove that invariant.
- OsalNv.NvStore.CopyItem, OsalNv.NvStore.CompactStep, OsalNv.NvStore.CompactItems and OsalNv.NvStore.CompactPage call hotItemUpdate for each copied item, but their contracts do not state the hot cache's new value.
- OsalNv.NvStore.WriteFound: states only the outcome (`WriteChecked`) and that the old copy is retired. For a write that changes bytes, the new copy's contents are stated by `PatchNew` and `PatchFlash`, not by WriteFound's contract.
- OsalNv.NvStore.Rewrite, OsalNv.NvStore.WriteDiffers and OsalNv.NvStore.OsalNvWrite: for a write that changes bytes, the new copy's contents are stated by `PatchNew` and `PatchFlash`. The API contract states only the outcome and that the old copy is retired.
- OsalNv.NvStore.Ready: the invariant between API calls is a valid directory and a blank reserve page. InitNV also establishes that every page but the reserve is in use (`OneReserve`) and that each page that is not pending has a lost count of at most its cursor minus 8. OsalNv.NvStore.OsalNvItemInit, OsalNv.NvStore.OsalNvWrite and OsalNv.NvStore.OsalNvDelete neither require nor ensure these two facts, so they are not shown to hold after the first mutating call.
- OsalNv.NvStore.InitPasses: the duplicate-zeroing restart is proved to keep the directory valid. That no two live copies of an item remain afterwards is not stated.
- OsalNv.NvStore.OsalNvItemLen, OsalNv.NvStore.OsalNvRead and OsalNv.NvStore.Locate apply the guard of `CacheHit` to the hot cache (see Findings). A hot id with an entry that was never filled falls back to findItem. So for such an id OsalNvRead returns the data of the item findItem finds, where the C code copies bytes of page 0 from `ndx` and returns success.
- Garbled read-back of a header just written (writeItem's else-branch) is modelled in `ItemAdvance`. In the RAM array a header always reads back as written, so `PutItem` reports that.
- OsalNv.NvStore.OsalNvItemInit: the round trip is proved for one page, not for the engine. NvWalks.AppendedFound shows that an item appended at the end of a page's chain is then found by findItem. NvWalks.AppendedKeepsOthers shows that every other id is found as before. The engine state carries no invariant tying each page's cursor to the end of its chain, so the method's contract says where the item landed (`ItemInitDone`, `InitItemDone`) but not that a later read returns it.
- OsalNv.NvStore.CopyFor: the patched copy is stated against the flash after initItem made room for it (the ghost `mid`), not against the flash before the call. When initItem compacted a page first, what happened to the other items is stated by `InitItemDone` inside `InitItem` and is not repeated in CopyFor's contract.
- OsalNv.NvStore.InitNV: a page whose recovery walk still stops at a transferred item (`Pending`, possible only after the duplicate pass) is stated only to have a valid cursor. Its tie to `Extent` and the bound `pgLost <= pgOff - 8` are stated for the other pages.
- OsalNv.NvStore.InitPasses: as for InitNV, a pending page's cursor and lost count are only stated to be valid.

## Findings

| source | as written | input that shows it | evidently intended | confidence | as-written member | corrected member |
|---|---|---|---|---|---|---|
| Middlewares/OSAL/Source/Src/OSAL_Nv.c:649-661 | initItem keeps `OSAL_NV_ITEM_SIZE(len)` in a `uint16_t`, so for `len` > 0xFFEC the size wraps to at most 16 and the fit test passes | `osal_nv_item_init(id, 0xFFFF, buf)` on an empty page: the size 0x10010 becomes 0x10, which "fits" | the fit test compares the true size, so such an item is refused | not executed | NvFormat.FitsAsWrittenAcceptsOversize | NvFormat.FitsBounded |
| Middlewares/OSAL/Source/Src/OSAL_Nv.c:1189-1199 | osal_nv_item_len and osal_nv_read take the hot cache entry of a hot id even when it was never filled. osal_nv_item_len then reads the header at `offset - OSAL_NV_HDR_SIZE`. osal_nv_read reads no header: it copies `len` bytes starting at byte `ndx` of page 0, which for `ndx` < 8 is page 0's page header, and returns success (`OsalNv.UnfilledCacheReadsPageHeader`) | `osal_nv_item_len(0x0082)` right after `osal_nv_init` with no write of that item: `hotOff` is 0, so the header is read at offset 0xFFF0 of page 0, outside the NV area | use the cache entry only when it holds a place, otherwise findItem | not executed | OsalNv.UnfilledCacheReadsOutside | OsalNv.CacheHitInside |
| Middlewares/OSAL/Source/Src/OSAL_Nv.c:369-377 | initPage keeps `OSAL_NV_DATA_SIZE(hdr.len)` in a `uint16_t`, so a length of 0xFFFD or more rounds to 0 and passes the overrun test | a header torn so that its length reads 0xFFFF: the walk steps over 16 bytes and reads the item's data as the next header | the overrun test sees the true size and gives up the rest of the page as lost | not executed | NvFormat.TruncatedLengthIsNotOverrun | NvFormat.WalkStep |
| Middlewares/OSAL/Source/Src/OSAL_Nv.c:518-525 | compactPage keeps `OSAL_NV_DATA_SIZE(hdr.len)` in a `uint16_t`, so a length of 0xFFFD or more rounds to 0 and passes both fit tests | a zeroed header torn so that its length reads 0xFFFF: compaction steps over 16 bytes and reads the item's data as the next header | the fit tests see the true size and the walk of the page stops there | not executed | OsalNv.TruncatedLengthIsNotEnd | OsalNv.CompactVisit |
