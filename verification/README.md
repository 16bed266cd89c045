# A verified model of the SPIFFS file system and the Forth compiler

This project models two parts of the repository and proves what they are for.

**SPIFFS** (`arch/esp8266/spiffs`) is a log-structured file system on NOR flash. The model keeps its
parts: lookup tables per block, page headers with inverted flag bits, a two-level index per file, an
allocator with a roving free cursor, a garbage collector that is a state machine, descriptors with
cached index positions, a write-back cache page per descriptor, a page cache, and the page check.
`Store.Spiffs` is the file system as a mutable class; its ghost fields are the directory (the one live
page of every object, kind and span), the files as byte sequences, and a log of the flash after every
single write. The invariant has two layers: `PhysOk` (flash, directory, table shape, cursor and
counters agree) and `LogicOk` (directory, files, index and descriptors agree). Every operation keeps
both, its effect on the files is stated on plain byte sequences, and the log gives what a power failure
between two writes leaves.

**Forth** (`forthright.f`, `arch/esp8266/user/esp8266.S`): the immediate words compile structured control
flow into branch cells with patched offsets, and the machine runs them. The compiling words are modelled
as they patch memory; running their cells is proved to have the structured meaning, in both directions.
Number printing and parsing undo each other.

| file | part |
|---|---|
| `Options` | optional values |
| `Layout`, `Numbering` | index arithmetic; page numbers, lookup tables, stored ids |
| `Catalog`, `Files` | flash contents, directory, files, index; the invariants |
| `Store` | search, allocate, move, delete, erase; the class `Spiffs` |
| `Tally` | conservation of entries, free quota |
| `Gc`, `Candidates`, `Collect` | cleaning a block, the candidate table, the decision to collect |
| `Content`, `Steps` | page images, visibility between writes; what one step does to all layers |
| `Objects`, `Appending`, `Holes`, `Access`, `Removal` | modify, append, append behind a hole, create, read, write, truncate, remove |
| `Session`, `Mount`, `FreshIds` | open, close, whole runs; mounting; new object ids |
| `WriteBack`, `Streams` | cached writes; whole sequences of operations on a descriptor |
| `Cache`, `PageCheck` | page cache, page consistency check |
| `Threaded`, `Control`, `Compiled`, `Decompiled`, `Compiler` | threaded code, structured meaning, both directions, compiling words |
| `Loops` | what counted loops mean |
| `Numbers` | u., uwidth, .r and _NUMBER |

## What the proofs say about the code

- A write behind the start of a file whose size is undefined is not brought back to the end. At the offset
  of a page that the header refers to it succeeds, and leaves a size with a hole and no first page: no valid
  file system (`Session.LeavesHole`, `Holes.AppendPast`). At other offsets it fails without effect. A write
  that succeeds leaves a valid file system exactly if the size is known or the offset is 0
  (`Session.PerformWrite`); the size is undefined for other descriptors once a file has been emptied, and a
  position can be behind the end after a refused flush (`WriteBack.PastTheEnd`).
- Reading, seeking and closing ignore that cached data could not be written back, and drop it. A write that
  was accepted is then lost without an error (`WriteBack.LostOnClose`, `WriteBack.LostOnSeek`). Writing and
  flushing report it, but drop the data as well, and a big write can report a failure with all of its data
  stored. What was accepted is preserved exactly if what did not reach the flash was there already
  (`Spared` in `WriteBack.Stream.Write`, `Read`, `Seek`, `Flush` and `Close`); a caller can rely on it when
  there is enough space for it before the call (`Backed`), and on losing it when the space check is bound to
  refuse it (`Doomed`).
- A big write with something cached is done twice. That changes nothing unless its offset is behind the end,
  where both are brought back (`WriteBack.TwiceIsTwice`).
- An append to an empty file whose first page cannot be allocated stores a size of 0 in its header, where
  an empty file has none. That needs fewer than two free blocks after a space check that has passed, so a
  partly filled block left behind by a remount (`Holes.Append`).
- The page check objects to page numbers greater than the page count, not to the page count itself, which
  is no page either. Where the page count is a multiple of the pages per scan no window holds that number,
  and a reference to it goes unseen (`PageCheck.MissedEntry`, `PageCheck.EndsAtWindow`); apart from that the
  check is exact (`PageCheck.CheckPages`). Where its last window reaches the number of an erased entry, 0xffff,
  its 16-bit offset wraps around, and it never ends (`PageCheck.NeverEnds`).
- Seeking to the end of a file that fills its last index page fails with NOT_FOUND, unless the cursor is
  there already (`WriteBack.Stream.Seek`); `WriteBack.EdgeSizes` says which files these are.
- The cache stays coherent only under writes that clear bits of what is stored (`Cache.PageCache.PhysWr`).
- `+loop` also ends when the distance from the limit overflows (`Threaded.PlusLoopOverflow`).
- `_NUMBER` reports 0 unparsed characters for the empty string and for a lone minus sign, which its
  comments call errors (`Numbers.Number`).
- The branch of the mount scan that is to start a clean system at erase count 0 is never taken; the count
  is 1 (`Mount.NextEraseCount`). The branch for wrapped counters is not taken either: erasing wraps them at
  0x8000, mounting looks for more than 0x7fff between them (`Mount.MissedWrap`).
- A block erased before the erase counter's last wrap looks 32767 erases older than it is, which keeps the
  order of ages but not their weight against pages (`Collect.AgeRank`).
- A new version of a page is finalised last (`Objects.WriteVersion`, `Store.Spiffs.PageMove`). A new page of an
  append is not: its header is written as final before its data, so that `Store.Spiffs.AllocateData` promises
  this only for headers that are not final yet.
- When no lookup entry is free, the search for one returns NOT_FOUND, not FULL as its last lines intend
  (`Store.Spiffs.FindFree`).
- After a remount the free cursor stands on the first page, and a block that is partly filled can be left
  behind (`Mount.RemountSettled`). Nothing is lost by it; but fewer pages can then be counted on than the
  free quota says, only as many as there are blocks to spare (`Objects.Allowance`).
- The checks of pages that an index refers to, and the branch of cleaning that scraps a page deleted in
  its header only, never fire between operations: the invariant excludes what they look for.

## How the model relates to the code

- A page is addressed by its block and lookup entry; `Numbering` proves that this is one-to-one with
  page numbers. The lookup pages of a block are read as one run of entries. Page number 0 as "no page"
  in a descriptor is `None`, as is an erased index entry or size.
- A page's payload is bytes, or an index with name, size and entries; a write covers a page or fields of
  it at once. Copies in chunks of 64 bytes are one write. HAL calls do not fail. Counters and sizes are
  unbounded except where a bound is stated.
- `busy` in the invariant is the file an operation is at work on, whose header may have an old size.
- Validation of references is kept as run-time checks that return an error, and so is reading a page whose
  payload is not of the kind expected.
- The medium has at least three blocks of at least two entries each, with room for a header in a page
  (`Geometry.Ok`). Runs are on pages of less than 4096 bytes (`Paged`), for which the bitmap of
  ids holds no id with an index bit.
- An operation tells by `whole` or `sound` whether a valid file system is left. It is not, only if cleaning
  failed for want of a free entry, an index page could not be stored, an append left an index page without
  entries, a size of 0 in the header, or a hole, or the header is stored without having been loaded.
- An undefined size, 0xffffffff in the code, is greater than every offset. Sizes and positions are unbounded,
  but for a seek, whose result is a signed 32-bit number.
- Names are unbounded strings; object types and file attributes are not kept. The offset field of
  descriptors, which nothing reads, is left out, as are read and write permission flags.
- `Session.Run` performs any list of operations; it stands for the callers of the API.
- Bitmaps are arrays of booleans. The write-back cache is modelled for one writing descriptor;
  whether a cache page can be had is a parameter.
- Primitive Forth words other than those of control flow are arbitrary partial functions on the two
  stacks.

## Model

| member | source | states |
|---|---|---|
| `Session.Run` | arch/esp8266/spiffs/spiffs_hydrogen.c:155-328 | Over any sequence of create, open, read, write, empty, remove, close, collect and remount, whatever each of them returns: one that succeeds does to files and descriptors, and returns, exactly what it means on plain byte sequences, one that fails changes nothing or, of a write, leaves a beginning of the data in the file; the invariant (tables, index, descriptors, counters, ids, names) holds after each; the run ends early only with a failure that leaves no whole file system, or with a write behind the start of an empty file, a write of no bytes inside a file, or the emptying of an empty file |
| `Session.NewFileSystem` | arch/esp8266/spiffs/spiffs_hydrogen.c:28-126 | A formatted and mounted chip, whatever was on it, is a sound file system without files: every run can begin here |
| `Mount.Remount` | arch/esp8266/spiffs/spiffs_hydrogen.c:54-126 | From any valid state, mounting again keeps every file and closes every descriptor; erase counts go on from those on the flash; that only the cursor's block is partly filled holds afterwards iff that block was the first one or not partly filled |
| `Mount.MountBlank` | arch/esp8266/spiffs/spiffs_hydrogen.c:54-126 | A blank flash is a valid file system without files, with every block counted free and the next erase count 1 |
| `Mount.Format` | arch/esp8266/spiffs/spiffs_hydrogen.c:28-52 | After formatting every entry is free, every page erased and every erase counter 0, whatever the chip held; the next one is 1 |
| `Session.Perform` | arch/esp8266/spiffs/spiffs_hydrogen.c:155-328 | One operation of a run, from any reachable state, after a remount too: refinement of its meaning, or of a harmless failure; one that succeeds leaves the system sound iff it is no write behind the start of a file of undefined size, nor one of the two operations of which nothing is said (`Breaks`), as can be seen before the call; it succeeds whenever the state before the call shows enough space, free descriptors, or a new name (`Enough`), and opening and closing exactly then; what allocations can be counted on afterwards is bounded (`SpareAfter`) |
| `Session.PerformCreat` | arch/esp8266/spiffs/spiffs_hydrogen.c:155-169 | Creating a file gives it the least id from 1 on that no file has, and fails for a name that a file has already, so that no two files ever share a name |
| `Session.PerformWrite` | arch/esp8266/spiffs/spiffs_hydrogen.c:308-328 | A write in terms of files and handles: the data, or after a failure a beginning of it, at the position or at the end; success when the space suffices; a write of some bytes that succeeds leaves a valid system iff the size is known or the offset 0; at other offsets than a page's in the header it then fails, without effect if the space check passes; one of no bytes outside the file does nothing |
| `Session.LeavesHole` | arch/esp8266/spiffs/spiffs_nucleus.c:909-1157 | Six operations that all succeed: a file of a page is written, emptied through another descriptor, and written again behind its start; what is left has a size of a page and a byte, no first page, and is no valid file system whatever files are taken |
| `Session.PerformRead` | arch/esp8266/spiffs/spiffs_hydrogen.c:261-306 | Reading through a handle returns the bytes asked for, up to the end of the file, and changes nothing |
| `Session.PerformDelete` | arch/esp8266/spiffs/spiffs_hydrogen.c:528-554 | The file is gone and its handles are closed, or nothing has changed; success when the pages for the header's new sizes can be allocated |
| `Mount.FlashDeterminesFiles` | arch/esp8266/spiffs/spiffs_nucleus.c:868-906 | Two states with the same flash contents have the same files: names, sizes and every byte are a function of the flash alone |
| `Mount.EveryEntry` | arch/esp8266/spiffs/spiffs_nucleus.c:1444-1758 | A span is below a file's size iff following the index yields a page, and that page is live, finalised, carries the file's id and the span, and holds the file's bytes followed by erased ones |
| `Mount.NoOrphan` | arch/esp8266/spiffs/spiffs_nucleus.c:543-693 | No live data page is unreferenced: the index entry of its own object and span leads to it |
| `Mount.LiveIds` | arch/esp8266/spiffs/spiffs_nucleus.c:696-748 | An id has a file iff some live lookup entry carries it, with or without index bit, and then exactly one live header page |
| `Gc.GcClean` | arch/esp8266/spiffs/spiffs_gc.c:372-567 | For any block, filled in whatever way and wherever the free cursor is: cleaning terminates; success leaves no live entry in the block, the cursor outside it, and every file, index entry and descriptor as they were; with twice the data pages plus the index pages of the block free elsewhere it always succeeds, and it fails with NOT_FOUND only; at every flash write on the way, even of a failing run, each data page stays visible |
| `Gc.CleanBlock` | arch/esp8266/spiffs/spiffs_gc.c:394-567 | The states of the cleaning machine, with the scan index advancing until no data page, then no index page is left |
| `Gc.MoveGroup` | arch/esp8266/spiffs/spiffs_gc.c:424-464 | All pages of one index page's group leave the block, and the index page in memory refers to their new places |
| `Gc.StoreIndex` | arch/esp8266/spiffs/spiffs_gc.c:536-554 | The index page with the new references gets a new place, the old one is deleted, descriptors follow |
| `Gc.MoveIndex` | arch/esp8266/spiffs/spiffs_gc.c:465-500 | An index page leaves the block with its contents, and descriptors follow |
| `Gc.MoveIndexPages` | arch/esp8266/spiffs/spiffs_gc.c:465-507 | After the data pages the index pages go, and no live entry is left in the block |
| `Gc.FindData` | arch/esp8266/spiffs/spiffs_gc.c:402-423 | The first data page from an entry on, or none |
| `Gc.RoomStep` | arch/esp8266/spiffs/spiffs_gc.c:372-567 | Moving a page out of the block costs one free entry elsewhere and pays with a page less to move, and one that lands in the block again costs nothing, so that the room stays sufficient |
| `Gc.ThriftStep` | arch/esp8266/spiffs/spiffs_gc.c:372-567 | What a move does to the deleted pages elsewhere and the live data pages of the block: cleaning gives back at least the deleted pages of the block less its live data pages |
| `Gc.MoveLands` | arch/esp8266/spiffs/spiffs_gc.c:424-464 | A page that is moved into the block being cleaned lands behind the used entries of it, as a live page that the scan has yet to meet |
| `Collect.GcCheck` | arch/esp8266/spiffs/spiffs_gc.c:107-194 | From any valid state. Files, their pages and descriptors survive, and a FULL leaves everything whole. Where the space check passes or is refused at once it changes nothing. In every other case blocks are collected: each is the best candidate at its time, age ignored iff the quota is not positive, its entries are blank afterwards and its erase counter stepped, and the quota has grown by its deleted pages less at most its live data pages; another one is collected iff two free blocks or fewer are left or the bytes do not fit, five have not been, and the last one was not in vain with no quota to begin with; then OK iff the bytes fit the quota, or, with nothing deleted any more, iff a page more than needed is free. NOT_FOUND means that there was too little room to clean the last one. Known before the call: with room for the best candidate and enough deleted pages in it one collection is enough |
| `Collect.GcRuns` | arch/esp8266/spiffs/spiffs_gc.c:127-194 | The loop of collections, with its abort and its limit of five |
| `Collect.CollectBest` | arch/esp8266/spiffs/spiffs_gc.c:136-171 | There is no candidate iff no page is deleted; otherwise the best one is cleaned and erased |
| `Collect.GainsMet` | arch/esp8266/spiffs/spiffs_gc.c:111-176 | After collecting a block that gains enough, three blocks are free and the bytes fit, so that no other one is wanted |
| `Collect.Profit` | arch/esp8266/spiffs/spiffs_gc.c:152-176 | Erasing a cleaned block adds to the quota its deleted pages, less the pages deleted elsewhere by cleaning it, which are no more than its live data pages |
| `Collect.PagesNeeded` | arch/esp8266/spiffs/spiffs_gc.c:121 | The rounded quotient is the least number of pages that hold the bytes |
| `Collect.CleanAndErase` | arch/esp8266/spiffs/spiffs_gc.c:152-171 | Clean any block, take its entries out of the statistics, erase: nothing of any file is lost, the counters are true again, the block is blank, its erase counter stepped, live pages are as many as before, and the quota is accounted for; it succeeds with enough room elsewhere |
| `Collect.FindCandidate` | arch/esp8266/spiffs/spiffs_gc.c:234-341 | The table, as large as the work buffer or the number of blocks allows, holds the best of exactly the blocks that have a deleted page, in order of score, ties by block number, and the count is the number of such blocks |
| `Collect.TopIsBest` | arch/esp8266/spiffs/spiffs_gc.c:136-151 | The head of the table comes before every other block that has a deleted page |
| `Collect.PagesRank` | arch/esp8266/spiffs/spiffs_gc.c:308-313 | What the order means for blocks of the same age, or when age does not matter: more deleted and fewer live pages come first; one more deleted page outweighs four more live ones and not six; otherwise the lower number is first |
| `Collect.AgeRank` | arch/esp8266/spiffs/spiffs_gc.c:301-313 | With erases since then counted by stepping the wrapping counter: of otherwise equal blocks the one erased longer ago comes first, and one more erase outweighs nine deleted pages; exactly, an erase weighs fifty live or ten deleted pages, and the counter's last wrap counts for 32767 erases |
| `Collect.CountWraps` | arch/esp8266/spiffs/spiffs_nucleus.c:241-258 | Stepping the erase counter counts erases up to its wrap at 0x8000 |
| `Collect.EligibleIff` | arch/esp8266/spiffs/spiffs_gc.c:291-330 | A block is a candidate iff it has a deleted page, with the score of its own counts and age |
| `Collect.ScanBlock` | arch/esp8266/spiffs/spiffs_gc.c:262-290 | Stopping at the first free entry still counts all deleted and live entries of the block |
| `Collect.ErasePageStats` | arch/esp8266/spiffs/spiffs_gc.c:197-231 | Exactly the live and deleted entries of the block leave the statistics |
| `Collect.ScoreFits` | arch/esp8266/spiffs/spiffs_gc.c:291-313 | A score of 16-bit counts and ages fits a signed 32-bit number |
| `Candidates.InsertTop` | arch/esp8266/spiffs/spiffs_gc.c:310-333 | Inserting a block into the table of the best keeps it the table of the best, sorted, ties by block number |
| `Candidates.InsertInto` | arch/esp8266/spiffs/spiffs_gc.c:310-333 | The in-place shifting of the two arrays does that insertion |
| `Candidates.ShiftDown` | arch/esp8266/spiffs/spiffs_gc.c:319-328 | Shifting from the end keeps what is before the place and moves the rest by one |
| `Tally.Conservation` | arch/esp8266/spiffs/spiffs_nucleus.c:263-383 | Allocated and deleted counters are the true numbers of live and deleted entries, and with the free entries they make block count times entries per block |
| `Tally.QuotaRoom` | arch/esp8266/spiffs/spiffs_gc.c:111-131 | While only the cursor's block is partly filled, a free quota that is not overdrawn means two free blocks, so that the next page allocation succeeds, and every further block's worth of quota one more |
| `Tally.SettledSum` | arch/esp8266/spiffs/spiffs_nucleus.c:387-418 | Used entries as a count of full blocks and at most one partly filled one |
| `Objects.Modify` | arch/esp8266/spiffs/spiffs_nucleus.c:1165-1377 | A range of a file is replaced; between any two flash writes each data page is visible in its old or its new version, even if the operation fails; it succeeds if, before the call, the space check passes and the pages and index pages touched are within the allowance plus one, and then leaves an allowance smaller by no more than that; a refused space check changes nothing; any other failure that could still store its index page leaves a valid file with the data written so far |
| `Objects.ModifyPages` | arch/esp8266/spiffs/spiffs_nucleus.c:1188-1343 | The loop over data pages, and the allocations it needs at most |
| `Objects.ModifyChunk` | arch/esp8266/spiffs/spiffs_nucleus.c:1188-1343 | One round of it |
| `Objects.SwitchIndex` | arch/esp8266/spiffs/spiffs_nucleus.c:1192-1253 | The index page that was modified is stored in a new place and the next one loaded |
| `Objects.ReplacePage` | arch/esp8266/spiffs/spiffs_nucleus.c:1255-1337 | One data page is replaced by a new version, lookup-visible before the old one is deleted, and the index page in memory refers to it |
| `Objects.SwapPage` | arch/esp8266/spiffs/spiffs_nucleus.c:1255-1337 | The new version of a page is complete and in the lookup tables before the old one is deleted, and the index page in memory then refers to it; at every write the flash holds the old or the new directory |
| `Objects.WriteVersion` | arch/esp8266/spiffs/spiffs_nucleus.c:1267-1321 | The new version is complete and finalised before the old page is touched, full page or partial copy alike; at no write is it finalised with any other contents |
| `Objects.FillCopy` | arch/esp8266/spiffs/spiffs_nucleus.c:1286-1312 | Copying what stays and writing what changes gives the whole new payload |
| `Objects.LoadIndexPage` | arch/esp8266/spiffs/spiffs_nucleus.c:1222-1248 | The index page at hand is the live one of its span, found by the descriptor's cursor or by search, and the cursor agrees |
| `Objects.ChecksIff` | arch/esp8266/spiffs/spiffs_nucleus.h:289-304 | The checks of referenced pages pass exactly for the live page of an object's index, or data, of that span |
| `Objects.ChecksStrict` | arch/esp8266/spiffs/spiffs_nucleus.h:289-304 | They pass no page that is unused, deleted or not finalised, on any flash, and none as both |
| `Objects.PutIndex` | arch/esp8266/spiffs/spiffs_nucleus.c:1349-1374 | An index page moves with its contents, and every descriptor of the file knows the new place and size |
| `Objects.RelocateIndex` | arch/esp8266/spiffs/spiffs_nucleus.c:755-806 | An index page gets a new place with the contents and size given, the old one is deleted, and each descriptor gets the event |
| `Steps.PageWritten` | arch/esp8266/spiffs/spiffs_nucleus.c:1255-1337 | Replacing, extending or adding a data page keeps files, two-level index and descriptors in agreement |
| `Steps.IndexPut` | arch/esp8266/spiffs/spiffs_nucleus.c:755-806 | Storing an index page keeps them in agreement |
| `Steps.IndexAdded` | arch/esp8266/spiffs/spiffs_nucleus.c:1007-1022 | A new empty index page keeps them in agreement |
| `Steps.End` | arch/esp8266/spiffs/spiffs_nucleus.c:1104-1157 | With the right size in header and descriptors, and no empty index page, the file is whole again |
| `Content.WrittenTwice` | arch/esp8266/spiffs/spiffs_hydrogen.c:308-328 | Writing over the rest of a file and then past its end is writing once |
| `Content.CopyAround` | arch/esp8266/spiffs/spiffs_nucleus.c:1286-1312 | Three programming steps on an erased page give the spliced payload, because erased bytes take any value |
| `Content.OwnImage` | arch/esp8266/spiffs/spiffs_nucleus.c:1255-1321 | The page image after a write inside the page is the old image spliced |
| `Content.OtherImages` | arch/esp8266/spiffs/spiffs_nucleus.c:1255-1321 | Writing inside one page changes no other page's image |
| `Content.PartlyWritten` | arch/esp8266/spiffs/spiffs_nucleus.c:1188-1343 | A file of which some pages have been written is, page by page, old or new |
| `Content.ImagesKept` | arch/esp8266/spiffs/spiffs_nucleus.c:602-693 | A step that keeps the old or the new directory on the flash keeps every data page visible |
| `Content.CollectedImages` | arch/esp8266/spiffs/spiffs_gc.c:372-567 | Collection keeps every data page visible |
| `Holes.Append` | arch/esp8266/spiffs/spiffs_nucleus.c:909-1157 | Data is added at the end of a file wherever beyond it the caller points; every data page stays visible throughout; success, known before the call, when the space check passes and pages and twice the index pages touched are within the allowance plus one, with a bound on the allowance left; a refused space check changes nothing; after a failure the file is whole with what has reached it, or reported as not whole. With an undefined size and a positive offset: at a page's offset in the header it leaves no valid file system, and if it succeeds the header has the size with the hole and no first entry; at any other it fails, without effect. A header gets size 0 iff the file was empty and the first allocation fails, which it cannot while only the cursor's block is partly filled |
| `Holes.AppendPast` | arch/esp8266/spiffs/spiffs_nucleus.c:941-1157 | Appending behind a hole: all rounds, over index pages too; no other file's page is touched, and none is invisible at any write; no valid file system is left, even by a failure; it succeeds within the allowance |
| `Holes.AppendNowhere` | arch/esp8266/spiffs/spiffs_nucleus.c:996-1063 | At other offsets the data page, or the index page, that is looked for is not there, and nothing is changed |
| `Holes.NotMendable` | arch/esp8266/spiffs/spiffs_nucleus.c:1044-1071 | A header without first entry, where a size, a data page or a descriptor says that the file is not empty, belongs to no valid file system, with whatever files |
| `Holes.DigRounds` | arch/esp8266/spiffs/spiffs_nucleus.c:941-1102 | The rounds behind a hole, and the allocations they need at most |
| `Holes.StoreDug` | arch/esp8266/spiffs/spiffs_nucleus.c:948-994 | Index page, with its new entries, and size are stored; the header still lacks its first entry |
| `Appending.AppendNow` | arch/esp8266/spiffs/spiffs_nucleus.c:941-1157 | The rounds and what follows them, after the space check: success as long as the allowance covers the pages; after a failure the file is whole with what has reached it, or reported as not whole; the header gets size 0 iff the file was empty and its first page cannot be allocated |
| `Appending.AppendPages` | arch/esp8266/spiffs/spiffs_nucleus.c:941-1102 | The loop, and the allocations it needs at most |
| `Appending.AppendChunk` | arch/esp8266/spiffs/spiffs_nucleus.c:941-1102 | One round of it |
| `Appending.SwitchAppend` | arch/esp8266/spiffs/spiffs_nucleus.c:945-1047 | The previous index page and the size are stored, the next index page is loaded if the file has it and created if not |
| `Appending.FinishIndex` | arch/esp8266/spiffs/spiffs_nucleus.c:948-994 | An index page that only gained entries is written in place, the header of a file that was not empty is moved, and every descriptor learns the size |
| `Appending.FinishAppend` | arch/esp8266/spiffs/spiffs_nucleus.c:1104-1157 | The last index page and the size are stored, and if no index page is empty the file is whole again |
| `Appending.StoreInPlace` | arch/esp8266/spiffs/spiffs_nucleus.c:953-964 | An in-place write of an index page is allowed because it only turns erased fields into written ones |
| `Appending.WriteTail` | arch/esp8266/spiffs/spiffs_nucleus.c:1049-1081 | Data goes to the erased tail of the last page, or to a new page, and gives the image of the longer file |
| `Appending.AppendPiece` | arch/esp8266/spiffs/spiffs_nucleus.c:1049-1102 | The file grows within one page, and the index page in memory refers to it |
| `Appending.CreateIndexPage` | arch/esp8266/spiffs/spiffs_nucleus.c:1007-1022 | The next index page exists, is empty, and is found by descriptors whose cursor waits for it; the cursor of the one used is on it |
| `Appending.AllocateKey` | arch/esp8266/spiffs/spiffs_nucleus.c:543-598 | Allocating the page of a new key adds this key to the directory and changes nothing else |
| `Appending.TailImage` | arch/esp8266/spiffs/spiffs_nucleus.c:1061-1081 | Bytes after the end of a file are still erased, so appending in place clears bits only and yields the new image |
| `Appending.WhichIndex` | arch/esp8266/spiffs/spiffs_nucleus.c:996-1041 | The test on the file's last span finds out exactly whether the index page exists |
| `Access.HydroWrite` | arch/esp8266/spiffs/spiffs_hydrogen.c:308-328 | The file becomes prefix, data and what remains behind it, whatever header and index pages are crossed; other files are as before, and visible on the flash at every write on the way, even if the operation fails; it succeeds if, before the call, there is enough space for both of its parts (`Suffices`), and leaves an allowance less by no more than `WriteCost`; it fails without any effect if the first space check refuses, and any failure that leaves the system whole leaves a beginning of the data written; behind the start of a file of undefined size it leaves a hole, or fails without effect |
| `Access.SecondPart` | arch/esp8266/spiffs/spiffs_hydrogen.c:308-328 | What the first part of a write leaves suffices for the space check and the pages of the second, by what was known before the call |
| `Access.Read` | arch/esp8266/spiffs/spiffs_nucleus.c:1677-1758 | Reading any range inside the size returns exactly that slice of the file and succeeds; reading an empty file fails; in whatever state an operation that failed has left the flash, reading terminates and writes nothing |
| `Access.ReadRound` | arch/esp8266/spiffs/spiffs_nucleus.c:1693-1755 | One page of it, through the index page of its span, in a valid file system or in any other state |
| `Access.Create` | arch/esp8266/spiffs/spiffs_nucleus.c:696-748 | A new empty file appears and nothing else changes; it succeeds when the space check passes and two blocks are free; FULL leaves everything as it was |
| `Access.CreatedLogic` | arch/esp8266/spiffs/spiffs_nucleus.c:696-748 | A header page with erased index and size is a valid empty file, and concerns no open descriptor |
| `Removal.Remove` | arch/esp8266/spiffs/spiffs_nucleus.c:1444-1675 | The file is gone with all its pages, its descriptors are closed, every other file and descriptor is as before; success, known before the call, when the header's new sizes, one for each index page, are within the allowance plus one, and without any free page for a file with one index page; a refused space check changes nothing |
| `Removal.TruncateToZero` | arch/esp8266/spiffs/spiffs_nucleus.c:1444-1675 | The file is empty with an undefined size in its header, and its descriptors stay open: the one used knows that there are 0 bytes, the others get the undefined size; success, known before the call, when a new header for each index page is within the allowance; a refused space check changes nothing |
| `Removal.CutAll` | arch/esp8266/spiffs/spiffs_nucleus.c:1476-1620 | From the end, every data page, and every index page but the header once it is empty |
| `Removal.CutRound` | arch/esp8266/spiffs/spiffs_nucleus.c:1476-1566 | One round: the index page of the span is made the one at hand, its last data page deleted |
| `Removal.DropIndex` | arch/esp8266/spiffs/spiffs_nucleus.c:1480-1500 | An index page without entries is deleted, descriptors forget it, the header gets the size |
| `Removal.DropHeader` | arch/esp8266/spiffs/spiffs_nucleus.c:1622-1636 | Deleting the last page of an object removes the file and closes its descriptors |
| `Removal.ResetHeader` | arch/esp8266/spiffs/spiffs_nucleus.c:1637-1644 | The header of a file cut to nothing is stored with erased index and size |
| `Removal.MarkRemoving` | arch/esp8266/spiffs/spiffs_nucleus.c:1464-1473 | The mark of a removal is one cleared bit, and nothing is lost by it |
| `Removal.PageCut` | arch/esp8266/spiffs/spiffs_nucleus.c:1523-1566 | Deleting the last data page and its entry keeps files, index and descriptors in agreement for the shorter file |
| `Removal.CutRemainder` | arch/esp8266/spiffs/spiffs_nucleus.c:1556-1562 | The arithmetic on the size steps from page start to page start |
| `Session.OpenFile` | arch/esp8266/spiffs/spiffs_hydrogen.c:171-229 | A descriptor is opened on a file of that name iff there is one and a descriptor is unused |
| `Session.FindByName` | arch/esp8266/spiffs/spiffs_nucleus.c:1379-1440 | The search by name fails iff no file has the name |
| `Session.FindClosed` | arch/esp8266/spiffs/spiffs_nucleus.c:1936-1948 | The first descriptor not in use |
| `FreshIds.FindFreeId` | arch/esp8266/spiffs/spiffs_nucleus.c:1837-1874 | The id returned is the least that no live entry carries; FULL iff every id of the bitmap is taken; a name that a file has already is reported iff there is such a file |
| `FreshIds.MarkIds` | arch/esp8266/spiffs/spiffs_nucleus.c:1767-1799 | The bitmap holds exactly the ids of live entries |
| `FreshIds.NamesAndIds` | arch/esp8266/spiffs/spiffs_nucleus.c:1767-1799 | Live entries and headers say exactly which ids and names the files have |
| `FreshIds.NameStrict` | arch/esp8266/spiffs/spiffs_nucleus.c:1379-1406 | On any flash the search by name finds only headers that are finalised, not deleted, and not marked for removal |
| `Mount.ObjLuScan` | arch/esp8266/spiffs/spiffs_nucleus.c:291-383 | Counting at mount re-establishes the tables' invariant with true counters, and the next erase counter is the one that `NextEraseCount` finds |
| `Mount.ScanCounts` | arch/esp8266/spiffs/spiffs_nucleus.c:263-288 | Visiting every entry once counts free blocks, live and deleted pages |
| `Mount.NextEraseCount` | arch/esp8266/spiffs/spiffs_nucleus.c:303-352 | The next erase counter is one above the greatest in use, or above the least once they have wrapped, and 1 for a blank flash; it is a 16-bit number that is not 0 |
| `Mount.MissedWrap` | arch/esp8266/spiffs/spiffs_nucleus.c:303-352 | But counters as erasing gives them out, up to 0x7fff, are never seen to have wrapped: the next one is above all of them |
| `Mount.RemountSettled` | arch/esp8266/spiffs/spiffs_hydrogen.c:54-126 | That only the cursor's block is partly filled survives a remount iff that block was the first one or not partly filled |
| `Mount.SameDirectory` | arch/esp8266/spiffs/spiffs_nucleus.c:438-499 | The flash determines the one live page of every id, kind and span |
| `Store.Visit` | arch/esp8266/spiffs/spiffs_nucleus.c:120-221 | The wrapping search returns the first entry in visiting order that is accepted, and reports none iff no entry is |
| `Store.Spiffs.FindIdAndSpan` | arch/esp8266/spiffs/spiffs_nucleus.c:438-499 | The search succeeds iff the object has the span and its header is not marked for removal, and finds its one live page wherever it starts |
| `Store.Spiffs.FindFree` | arch/esp8266/spiffs/spiffs_nucleus.c:387-418 | The entry found is the first free one of its block, no free entry precedes the cursor, free_blocks stays true; while cleaning, it fails iff no entry is free, with NOT_FOUND; otherwise with FULL, iff fewer than two blocks are free even after a block of deleted pages only has been erased |
| `Store.Spiffs.AllocateData` | arch/esp8266/spiffs/spiffs_nucleus.c:543-598 | A page is occupied, written and finalised as asked, while the flash keeps every live page at every write; it is finalised last, with all of its contents, unless the header given is final already |
| `Store.ProgramClears` | arch/esp8266/spiffs/spiffs_nucleus.c:571-590 | A write to flash sets no bit and clears those that are clear in what is written |
| `Store.Spiffs.PageMove` | arch/esp8266/spiffs/spiffs_nucleus.c:602-663 | The page of a key moves, or takes new contents; between any two writes the flash holds the old or the new directory, and the new page is never finalised with other contents |
| `Store.Spiffs.PageDelete` | arch/esp8266/spiffs/spiffs_nucleus.c:666-693 | The page leaves the directory with the write of its lookup entry |
| `Store.Spiffs.RewritePage` | arch/esp8266/spiffs/spiffs_nucleus.c:953-964 | A bit-clearing write in place changes the contents of one key |
| `Store.Spiffs.UpdateIndexHdr` | arch/esp8266/spiffs/spiffs_nucleus.c:755-806 | The header is stored in a new place with the size given, and every descriptor of the object knows both |
| `Store.Spiffs.Notify` | arch/esp8266/spiffs/spiffs_nucleus.c:808-847 | The effect of an index event on every descriptor |
| `Store.Spiffs.GcQuick` | arch/esp8266/spiffs/spiffs_gc.c:30-104 | A block is erased iff one holds only deleted pages; tables, counters and live pages are kept |
| `Store.Spiffs.EraseBlock` | arch/esp8266/spiffs/spiffs_nucleus.c:223-260 | Erasing a block without live pages loses nothing, counts it free, and steps the 16-bit erase counter with its two wrap-arounds |
| `Store.PickIsFirst` | arch/esp8266/spiffs/spiffs_nucleus.c:387-418 | From a good cursor the search meets the first free entry of a block |
| `Store.TakeSettled` | arch/esp8266/spiffs/spiffs_nucleus.c:387-418 | Taking entries in cursor order fills one block after the other |
| `Store.WipeCursor` | arch/esp8266/spiffs/spiffs_gc.c:30-104 | Erasing a block keeps the free cursor good iff the cursor is not inside it, or at its first or last entry |
| `Store.HitKey` | arch/esp8266/spiffs/spiffs_nucleus.c:438-460 | The tests on lookup entry and header accept exactly the live page of the key |
| `Store.HitStrict` | arch/esp8266/spiffs/spiffs_nucleus.c:438-460 | It accepts no page that is unused, deleted or not finalised, on any flash, and minds the mark of a removal in headers only |
| `Store.Superseded` | arch/esp8266/spiffs/spiffs_nucleus.c:602-693 | The written copy takes the place of the page it replaces |
| `Catalog.LiveCount` | arch/esp8266/spiffs/spiffs_nucleus.c:263-288 | Live lookup entries are as many as directory keys |
| `Files.EntryMoved` | arch/esp8266/spiffs/spiffs_nucleus.c:1326-1337 | Noting one page's new place in the index page at hand is all that the index needs |
| `Files.IndexStored` | arch/esp8266/spiffs/spiffs_nucleus.c:755-806 | The index page in memory becomes the stored one without any reference changing |
| `Files.FdsMoved` | arch/esp8266/spiffs/spiffs_nucleus.c:808-847 | After an index event every descriptor knows the header page and the index page of its cursor |
| `WriteBack.Stream.Write` | arch/esp8266/spiffs/spiffs_hydrogen.c:330-447 | A write, in every outcome. If it succeeds the descriptor sees the data at the position, or at its end when appending, joined to the cached range where they fit; if what is cached could not be written back, a beginning of that is on the flash and the rest gone, which changes what the descriptor saw iff the rest was not there already; otherwise a beginning of the data, or of its repetition, is there. Known before the call: a write that fits the cache page, or a new one, succeeds without touching the flash; one past the cache succeeds if the space suffices; one behind the start of a file of undefined size leaves a hole or fails without effect |
| `WriteBack.Stream.SmallWrite` | arch/esp8266/spiffs/spiffs_hydrogen.c:370-420 | A small write is cached next to what is cached, or after that has been written back, or goes past the cache; each failure with what it leaves |
| `WriteBack.Stream.BigWrite` | arch/esp8266/spiffs/spiffs_hydrogen.c:421-446 | A big write comes after what is cached and is then repeated; each failure with what it leaves, also a failed repetition with all data stored |
| `WriteBack.Stream.Read` | arch/esp8266/spiffs/spiffs_hydrogen.c:261-306 | Reading reports no failed write-back. It returns the bytes from the position on of what is then on the flash, and END_OF_OBJECT past its end; this is what the descriptor saw iff the cached data not written back were on the flash already, always if the space for it sufficed before the call, and the old bytes if the space check was bound to refuse it |
| `WriteBack.Stream.Seek` | arch/esp8266/spiffs/spiffs_hydrogen.c:449-492 | A seek that succeeds sets the position to the offset from the start, from the old position, or from the end, where that is a signed 32-bit number; past the end it fails with END_OF_OBJECT, before the end it succeeds; it reports no failed write-back, and preserves what the descriptor saw under the same condition as a read; inside a file that is not empty it succeeds iff the position is not past the end, nor at the end of a file that fills its last index page while the cursor is elsewhere; a position before the start is taken without sign, and succeeds iff the cursor is on the index page of the span so computed, or that page exists |
| `WriteBack.SoughtLands` | arch/esp8266/spiffs/spiffs_hydrogen.c:464-489 | The 32-bit arithmetic of the code leads where the plain sum says, if that is a signed 32-bit number |
| `WriteBack.SignedOnly` | arch/esp8266/spiffs/spiffs_hydrogen.c:464-472 | The sum is taken modulo 2^32, as the signed number |
| `WriteBack.Stream.FlushCache` | arch/esp8266/spiffs/spiffs_hydrogen.c:619-647 | Writing back puts a beginning of the cached data on the flash and drops the rest with the cache page; all of it iff it succeeds or the rest was there already; success and refusal are known before the call |
| `WriteBack.Stream.Flush` | arch/esp8266/spiffs/spiffs_hydrogen.c:649-661 | After a flush that succeeds the flash holds what the descriptor sees; after one that fails a beginning of it, and the rest is dropped |
| `WriteBack.Stream.Close` | arch/esp8266/spiffs/spiffs_hydrogen.c:663-681 | The descriptor is closed in any case; the file then holds what the descriptor saw iff the cached data not written back were there already, always if there was enough space before the call, and nothing of it if the space check was bound to refuse |
| `WriteBack.LostIff` | arch/esp8266/spiffs/spiffs_hydrogen.c:619-647 | A cached range of which only a beginning is written back, and the rest dropped, leaves what the descriptor saw iff the rest was on the flash already |
| `WriteBack.LostOnClose` | arch/esp8266/spiffs/spiffs_hydrogen.c:663-681 | On three blocks with two entries each: a byte written to a new file is accepted, and the file is empty after closing |
| `WriteBack.LostOnSeek` | arch/esp8266/spiffs/spiffs_hydrogen.c:261-306 | On three blocks with five entries each: all of a file is overwritten with success, then sought and read with success, and the old bytes come back |
| `WriteBack.PastTheEnd` | arch/esp8266/spiffs/spiffs_hydrogen.c:619-661 | On three blocks with two entries each: after a refused flush the file is empty and the position behind its end |
| `WriteBack.OverlayStored` | arch/esp8266/spiffs/spiffs_hydrogen.c:372-413 | Storing into or right behind the cached range is writing to the file as seen through it |
| `WriteBack.TwiceIsOnce` | arch/esp8266/spiffs/spiffs_hydrogen.c:422-440 | A write repeated at the same place, or a beginning of it, changes nothing |
| `WriteBack.TwiceIsTwice` | arch/esp8266/spiffs/spiffs_hydrogen.c:422-440 | But far behind the end the repeated write is brought back to the end twice, and the data are there twice |
| `WriteBack.Scene.PlainPut` | arch/esp8266/spiffs/spiffs_hydrogen.c:365-446 | With position and cached range inside the file a write is one to a plain array |
| `Streams.Run` | arch/esp8266/spiffs/spiffs_hydrogen.c:261-681 | Over any sequence of write, read, seek and flush through one descriptor, each does what `Step` says on flash bytes, cached range and position, also when it or a write-back fails; other files stay; while position and cached range are inside the file, only a loss that is reported ends the run |
| `Streams.PlainRun` | arch/esp8266/spiffs/spiffs_hydrogen.c:261-681 | A run in which nothing is lost and only positions from the start on, of less than 2^31, are sought is a run on a plain byte array with a position: same bytes read, same positions, same contents; a seek adds its offset to 0, position or length |
| `Streams.PlainStep` | arch/esp8266/spiffs/spiffs_hydrogen.c:261-681 | One step of it, and it stays inside the file |
| `Streams.RunAndClose` | arch/esp8266/spiffs/spiffs_hydrogen.c:261-681 | From an open descriptor to its closing: the file ends up with the bytes that the descriptor saw if they could be written back, else with a beginning of the cached ones |
| `WriteBack.SeekIndex` | arch/esp8266/spiffs/spiffs_hydrogen.c:477-487 | At the end of a file the index page of the position is missing iff the file fills its last index page |
| `WriteBack.EdgeSizes` | arch/esp8266/spiffs/spiffs_hydrogen.c:477-487 | The files that fill their last index page, at whose end seeking fails, are exactly those that end where an index page other than the header would begin |
| `WriteBack.EdgeAt` | arch/esp8266/spiffs/spiffs_hydrogen.c:477-487 | For every index page after the header there is such a file |
| `Cache.PageCache.PhysRd` | arch/esp8266/spiffs/spiffs_cache.c:120-163 | With at least one cache page not holding data to be written, a read returns exactly the flash bytes, and reads the flash iff the page is not cached; unless it is a lookup of the second layer the page is cached afterwards, as the one accessed last; at most one copy is given up for it, if every cache page is in use, the one accessed first; cached pages stay equal to the flash, and pages to be written are not given up |
| `Cache.PageCache.PhysWr` | arch/esp8266/spiffs/spiffs_cache.c:166-205 | The flash is the old one AND the new bytes; the cache stays coherent iff the page is not cached, is deleted, or the write clears bits only; a copy that is updated is the one accessed last, that of a page deleted is gone, and other copies stay |
| `Cache.PageCache.EraseBlock` | arch/esp8266/spiffs/spiffs_gc.c:7-25 | Erasing a block and dropping its pages leaves a coherent cache, though the erase counter is written past it |
| `Cache.PageCache.RemoveOldest` | arch/esp8266/spiffs/spiffs_cache.c:59-86 | Only copies are evicted, one accessed longest ago, and none only if a page is unused or every copy was accessed just now |
| `Cache.PageCache.Allocate` | arch/esp8266/spiffs/spiffs_cache.c:89-107 | A cache page is found iff one is not in use |
| `Cache.PageCache.AllocateByFd` | arch/esp8266/spiffs/spiffs_cache.c:233-247 | A page for cached writes never displaces another one's data, and none is returned iff every page is in use and no copy can be evicted |
| `Cache.PageCache.PageGetByFd` | arch/esp8266/spiffs/spiffs_cache.c:210-229 | The page with an object's cached data, iff there is one |
| `Cache.PageCache.FdRelease` | arch/esp8266/spiffs/spiffs_cache.c:250-263 | Releasing a page for cached writes frees this one only, and leaves a coherent cache |
| `Cache.CopyStays` | arch/esp8266/spiffs/spiffs_cache.c:166-205 | Patching a copy while the flash takes old AND new keeps them equal iff the write clears bits only |
| `PageCheck.CheckPages` | arch/esp8266/spiffs/spiffs_check.c:493-827 | For arbitrary page numbers in index pages: if the windows end below the 16-bit number of an erased entry, the scan terminates, and passes without reaching a repair iff every reference is to the data page it is about, so not to a lookup page or past the medium, no page is referenced twice, and every used page that is no index page is referenced; except that a reference equal to the page count is not seen iff the page count is a multiple of the pages per scan |
| `PageCheck.FourBits` | arch/esp8266/spiffs/spiffs_check.c:494-495 | The four-bit maps of the pages of a window fill the work buffer exactly |
| `PageCheck.ValidIsConsistent` | arch/esp8266/spiffs/spiffs_check.c:483-492 | Every file system between operations passes, with its index entries as page numbers |
| `PageCheck.BadReferences` | arch/esp8266/spiffs/spiffs_check.c:569-600 | A reference to a lookup page, or past the end of the medium, makes a flash inconsistent, so that the check does not pass it |
| `PageCheck.MissedEntry` | arch/esp8266/spiffs/spiffs_check.c:569-570 | An erased index entry of a consistent flash is overwritten with the page count: the flash is inconsistent, and the check passes it where the windows end at that number |
| `PageCheck.EndsAtWindow` | arch/esp8266/spiffs/spiffs_check.c:493-503 | With 6144 pages of 512 bytes they do |
| `PageCheck.NeverEnds` | arch/esp8266/spiffs/spiffs_check.c:496-503 | Otherwise, where windows divide the 16-bit numbers, the offset of the next window is below the page count for ever |
| `PageCheck.EndlessSize` | arch/esp8266/spiffs/spiffs_check.c:496-503 | With more than 65024 pages of 256 bytes that is so |
| `PageCheck.Window.CheckMap` | arch/esp8266/spiffs/spiffs_check.c:692-820 | Every page has bits 000, 011 or 101 when the scan of a window passes |
| `PageCheck.Window.ScanPages` | arch/esp8266/spiffs/spiffs_check.c:507-690 | A window is scanned without repair iff no reference is greater than the page count, and those into the window fit, not being to lookup pages, and are to different pages |
| `PageCheck.Window.CheckRef` | arch/esp8266/spiffs/spiffs_check.c:564-684 | One reference, to any page number |
| `Layout.Geometry.SplitOffset` | arch/esp8266/spiffs/spiffs_nucleus.h:180-184 | Division and remainder by the data size are span and offset inside the page |
| `Layout.Geometry.PagesBounds` | arch/esp8266/spiffs/spiffs_nucleus.h:180-184 | Spans below the page count are those that start before the end |
| `Layout.Geometry.SlotUnique` | arch/esp8266/spiffs/spiffs_nucleus.h:205-223 | Every data span has one place in the two-level index, and every place one span |
| `Layout.Geometry.SpanFormula` | arch/esp8266/spiffs/spiffs_nucleus.h:205-223 | The recursive index arithmetic of the model is that of the macros |
| `Layout.Geometry.BaseFormula` | arch/esp8266/spiffs/spiffs_check.c:551-561 | The recursive first span of an index page is the product of the page check |
| `Numbering.Config.NumberOfEntry` | arch/esp8266/spiffs/spiffs_nucleus.h:151-179 | Every lookup entry has its own page number, which is no lookup page's |
| `Numbering.Config.EntryOfNumber` | arch/esp8266/spiffs/spiffs_nucleus.h:151-179 | Every page that is no lookup page has its lookup entry |
| `Numbering.Config.CountApart` | arch/esp8266/spiffs/spiffs_nucleus.h:185-199 | For power-of-two sizes no lookup entry reaches the erase counter |
| `Numbering.Config.LookupPagesFit` | arch/esp8266/spiffs/spiffs_nucleus.h:157-159 | Lookup pages are as many as the ids of a block's pages need, to within a page's worth of them |
| `Numbering.CountMeetsEntry` | arch/esp8266/spiffs/spiffs_nucleus.h:185-199 | For other sizes one can |
| `Numbering.EncodeDecode` | arch/esp8266/spiffs/spiffs_nucleus.h:127-132 | Stored lookup entries are told apart for all ids but 0x7fff, whose index entries look free |
| `Decompiled.Correct` | forthright.f:22-30 | For arbitrarily nested structured programs, running the compiled cells leaves them iff the program has a meaning, at the end of the cells and with data and return stack of the meaning |
| `Loops.CountedLoop` | arch/esp8266/user/esp8266.S:2506-2521 | The meaning of do .. loop: for an index below the limit the body is run limit - index times, with index, index + 1, .., limit - 1 on top of the return stack, and index and limit are gone afterwards; otherwise it goes around the 32-bit numbers |
| `Loops.CountedPlusLoop` | arch/esp8266/user/esp8266.S:2506-2538 | The meaning of do .. +loop: each step is consumed, keeps the limit and makes the index the 32-bit sum, up to the first one that ends the loop, after which index and limit are gone |
| `Loops.OnePlusTurn` | arch/esp8266/user/esp8266.S:2523-2538 | One step of +loop, stated on index, limit and step |
| `Loops.OneTurn` | arch/esp8266/user/esp8266.S:2510-2521 | One step of loop |
| `Decompiled.Backward` | forthright.f:22-30 | A run that has left the cells did so first at their end, with the stacks of the meaning |
| `Compiled.Forward` | forthright.f:22-30 | A program with a meaning runs to the end of its cells with the stacks of the meaning |
| `Decompiled.OneMeaning` | forthright.f:22-30 | A program has at most one result |
| `Decompiled.BackwardAgain` | forthright.f:27-27 | begin ... again is never left |
| `Compiled.ForwardArms` | forthright.f:290-310 | case: the first arm whose test equals the selector |
| `Compiled.OfSteps` | forthright.f:294-299 | over = 0branch: into the body iff test and selector are equal |
| `Compiled.ForwardTurns` | forthright.f:384-414 | do ... loop and +loop: turn by turn |
| `Decompiled.JustCompiled` | arch/esp8266/user/esp8266.S:2090-2100 | What has just been compiled at HERE is in place to run |
| `Compiler.Dictionary.Compile` | forthright.f:22-30 | The compiling words, with their addresses on the stack and cells patched later, produce the cells of the program and leave the stack as it was |
| `Compiler.Dictionary.CompileArms` | forthright.f:290-310 | Every branch that ENDOF left open leads behind ENDCASE |
| `Compiler.Dictionary.CompileElse` | forthright.f:24-24 | The open branch leads behind the new one, which is open |
| `Compiler.Dictionary.CompileRepeat` | forthright.f:29-29 | Back to BEGIN, and WHILE leads behind |
| `Compiler.Dictionary.CompileEndCase` | forthright.f:303-310 | Every open address down to the 0 of CASE is resolved to the same place |
| `Compiler.Dictionary.CompileLoop` | forthright.f:396-414 | The loop branches back to the cell after (do) |
| `Threaded.PlusLoopBoundary` | arch/esp8266/user/esp8266.S:2523-2538 | +loop ends exactly when the step crosses the boundary between limit-1 and limit (section 6.1.0140 of ANS Forth X3.215-1994), iff distance to the limit and step add up without overflow |
| `Threaded.PlusLoopOverflow` | arch/esp8266/user/esp8266.S:2523-2538 | A step on which +loop ends without crossing the boundary |
| `Threaded.LoopBoundary` | arch/esp8266/user/esp8266.S:2510-2521 | loop ends exactly when the index crosses the boundary, and agrees with a step of 1 except from the index farthest above the limit |
| `Threaded.SignsDiffer` | arch/esp8266/user/esp8266.S:2523-2538 | The exclusive or is negative iff the signs differ |
| `Numbers.PrintAndParse` | forthright.f:60-117 | For bases 2 to 36 and numbers of less than 2^31 in size, printing with .r in width 0 and parsing gives the number back with nothing left |
| `Numbers.Console.DotR` | forthright.f:99-117 | .r prints spaces, sign and digits |
| `Numbers.FieldWidth` | forthright.f:99-117 | .r prints as many characters as asked for, or as sign and digits need if that is more |
| `Numbers.FieldBlank` | forthright.f:99-117 | Sign and digits are at the right of the field, and all before them is blank |
| `Numbers.Console.UWidth` | forthright.f:88-95 | uwidth is the number of digits that u. prints |
| `Numbers.Console.UDot` | forthright.f:60-73 | u. prints the digits |
| `Numbers.ValueOfDigits` | forthright.f:60-73 | The digits have the value printed |
| `Numbers.Number` | arch/esp8266/user/esp8266.S:1664-1718 | _NUMBER returns the 32-bit value of an optional minus sign and digits; all characters after the sign and before those left unparsed look like a digit below the base, and the first one left does not; the count of unparsed characters is 0 iff the string is such a number, or is empty or a minus sign alone |
| `Numbers.DigitIff` | arch/esp8266/user/esp8266.S:1688-1700 | A character is taken as a digit iff it is what that digit, below the base, is printed as |
| `Numbers.RoundTrip` | arch/esp8266/user/esp8266.S:1664-1718 | What .r prints parses to the number printed |

## Left out

- HAL, SDK, task, shell and wifi code, debug output, check callbacks, statistics of garbage collection.
- Truncation to a size other than 0, which no caller uses.
- Emptying a file that is empty, and writing no bytes inside a file: both store the work buffer as the header without having loaded it. What follows depends on what the buffer holds; runs end there, and nothing is said of it. Writes of no bytes through the write-back cache.
- What is left when cleaning fails, an index page cannot be stored, an append leaves a hole, or a failed one leaves an index page without entries or a size of 0 in the header: only that every data page is still visible on the flash, and that reading ends without writing, is stated; what further operations do to such a file system is not.
- Quick collection with more than 0 free pages, which can erase the block under the free cursor.
- Repair branches of the page check, its lookup and orphan passes.
- Compaction in the search for object ids; rename, stat, directory listing and info.
- Several descriptors sharing one write-back page; how evenly blocks wear over a run.
- A cursor on a missing index page, page number 0 in the code, makes an append behind the start of an empty file read the first lookup page as that index page; the model takes its check to fail.
- The 32-bit wrap-around of the cache's access stamps.
- LEAVE and UNLOOP, ?do, EXECUTE, catch and throw, CMOVE, :noname: their assembly differs from their description.
- Text interpreter, dictionary headers, strings, web server and GPIO libraries.
- Collect.GcCheck: does not state that collecting succeeds whenever deleted pages would suffice, since the code gives up after five runs.
- Numbers.Console.UDot: is stated for numbers that are not negative as signed ones, because the division it calls is signed.
