/** Operations on files: create, modify, append, read, truncate and remove
    (the object functions of spiffs_nucleus.c). */
module Objects {
  import opened Options
  import opened Layout
  import opened Catalog
  import opened Files
  import opened Store
  import opened Tally
  import opened Gc
  import opened Collect
  import opened Content
  import opened Steps

  /** The state inside an operation: as between operations, but the work buffer holds index page
      `wk`, and file `busy` is being changed. */
  ghost predicate Mid(fs: Spiffs, wk: Option<Key>, busy: Option<nat>)
    reads fs
  {
    Inside(fs, wk, busy, None)
  }

  /** As `Mid`, with the header of object `r` marked for removal. */
  ghost predicate Inside(fs: Spiffs, wk: Option<Key>, busy: Option<nat>, r: Option<nat>)
    reads fs
  {
    fs.Phys() && LogicOk(fs.g, fs.Now(), wk, busy) && fs.dir.removing == r && !fs.cleaning
  }

  /** Page allocations in a row that cannot fail: as many as the free quota covers if at most the free
      cursor's block is partly filled (`tidy`), and otherwise no more than there are free blocks to spare. */
  function Allowance(g: Geometry, n: Counts, tidy: bool): int {
    if tidy || FreeQuota(g, n) <= n.freeBlocks - 2 then FreeQuota(g, n) else n.freeBlocks - 2
  }

  ghost predicate Credit(g: Geometry, v: Vals, n: int) {
    Allowance(g, v.n, Settled(g, v.d.fill, v.c, None)) >= n
  }

  lemma CreditRoom(g: Geometry, v: Vals, n: int)
    requires g.Ok() && PhysOk(g, v.f, v.d, v.c, v.n, None) && Credit(g, v, n) && n >= 0
    ensures v.n.freeBlocks >= 2
  {
    if Settled(g, v.d.fill, v.c, None) {
      QuotaRoom(g, v.f, v.d, v.c, v.n, 0);
    }
  }

  // ----- checks of references -----

  /** The check of a data page that an index entry refers to. */
  function DataCheck(f: Flash, e: Option<Pix>, span: nat): Status {
    if e.None? || e.value !in f.page then BadReference
    else
      var h := f.page[e.value].hdr;
      if !h.flags.used && h.flags.delet && !h.flags.final && h.flags.index && h.span == span then Ok else BadReference
  }

  /** The check of an index page. */
  function IndexCheck(f: Flash, p: Pix, span: nat): Status {
    if p !in f.page then BadReference
    else
      var h := f.page[p].hdr;
      if !h.flags.used && h.flags.delet && !h.flags.final && !h.flags.index && h.span == span then Ok else BadReference
  }

  /** Whatever is on the flash, the checks pass no page that is unused, deleted or not finalised, and none passes both. */
  lemma ChecksStrict(f: Flash, p: Pix, span: nat)
    ensures p in f.page && (f.page[p].hdr.flags.used || !f.page[p].hdr.flags.delet || f.page[p].hdr.flags.final) ==>
              !DataCheck(f, Some(p), span).Ok? && !IndexCheck(f, p, span).Ok?
    ensures !(DataCheck(f, Some(p), span).Ok? && IndexCheck(f, p, span).Ok?)
  {
  }

  /** The checks pass exactly for the live page of an object's data, or index, of that span. */
  lemma ChecksIff(g: Geometry, f: Flash, d: Dir, c: Pix, n: Counts, p: Pix, span: nat)
    requires PhysOk(g, f, d, c, n, None)
    ensures DataCheck(f, Some(p), span).Ok? <==> exists id: nat :: var k := Key(id, false, span); k in d.cat && d.cat[k] == p
    ensures IndexCheck(f, p, span).Ok? <==> exists id: nat :: var k := Key(id, true, span); k in d.cat && d.cat[k] == p
  {
    hide ShapeOk, CursorOk, CountsOk;
    if p in f.lu && f.lu[p].Live? {
      var k := KeyAt(f, p);
      assert k in d.cat && d.cat[k] == p && k == Key(k.id, k.ix, k.span);
    }
    forall id: nat, ix | Key(id, ix, span) in d.cat && d.cat[Key(id, ix, span)] == p
      ensures p in f.lu && p in f.page && f.lu[p] == Live(id, ix) && f.page[p].hdr == HeaderOf(Key(id, ix, span), d.removing)
    {
      LiveIn(g, f, d, c, n, None, Key(id, ix, span));
    }
  }

  // ----- modify -----

  lemma ProgramNothing(x: seq<Byte>, off: nat)
    requires off <= |x|
    ensures Program(x, off, []) == x
  {
  }

  lemma FullPage(x: seq<Byte>, chunk: seq<Byte>)
    requires |x| == |chunk|
    ensures Program(Erased(|chunk|), 0, chunk) == x[..0] + chunk + x[|chunk|..]
  {
    ProgramErased(Erased(|chunk|), 0, chunk);
  }

  /** Copies what stays of page `orig` to page `p`, and writes `chunk`. */
  method FillCopy(fs: Spiffs, p: Pix, orig: Pix, po: nat, chunk: seq<Byte>, ghost log0: seq<Flash>, ghost d0: Dir)
    requires fs.Writing(p) && orig != p && p in fs.flash.page && orig in fs.flash.page
    requires fs.flash.page[p].body == Data(Erased(fs.g.dataSize)) && fs.flash.page[orig].body.Data?
    requires |fs.flash.page[orig].body.bytes| == fs.g.dataSize && po + |chunk| <= fs.g.dataSize
    requires fs.dir == d0.(fill := fs.dir.fill) && Extends(log0, fs.log) && Survives(fs.log, |log0|, d0, d0)
    modifies fs`flash, fs`log
    ensures fs.Writing(p) && Extends(log0, fs.log) && Survives(fs.log, |log0|, d0, d0)
    ensures p in old(fs.flash).page && orig in old(fs.flash).page && old(fs.flash).page[orig].body.Data?
    ensures po + |chunk| <= |old(fs.flash).page[orig].body.bytes|
    ensures var x := old(fs.flash).page[orig].body.bytes;
            fs.flash == old(fs.flash).(page := old(fs.flash).page[p :=
              Page(old(fs.flash).page[p].hdr, Data(x[..po] + chunk + x[po + |chunk|..]))])
    ensures |old(fs.log)| <= |fs.log| && fs.log[..|old(fs.log)|] == old(fs.log)
    ensures forall i | |old(fs.log)| <= i < |fs.log| :: p in fs.log[i].page && fs.log[i].page[p].hdr == old(fs.flash).page[p].hdr
  {
    hide PhysOk, Extends, Survives, Erased, Program;
    var n := fs.g.dataSize;
    var x := fs.flash.page[orig].body.bytes;
    var hdr := fs.flash.page[p].hdr;
    CopyAround(x, n, po, chunk);
    ProgramNothing(Erased(n), 0);
    var a := Program(Erased(n), 0, x[..po]);
    ProgramNothing(a, n);
    // copy unmodified data, before and after modification
    if po > 0 {
      fs.WritePage(p, Page(hdr, Data(a)), log0, d0);
    }
    if po + |chunk| < n {
      fs.WritePage(p, Page(hdr, Data(Program(a, po + |chunk|, x[po + |chunk|..]))), log0, d0);
    }
    assert fs.flash.page[p] == Page(hdr, Data(Program(a, po + |chunk|, x[po + |chunk|..])));
    fs.WritePage(p, Page(hdr, Data(Program(Program(a, po + |chunk|, x[po + |chunk|..]), po, chunk))), log0, d0);
  }

  /** The index entry in the work buffer for a data page of a file, and the page. */
  lemma DataEntry(g: Geometry, v: Vals, busy: Option<nat>, k: Key)
    requires g.Ok() && PhysOk(g, v.f, v.d, v.c, v.n, None) && LogicOk(g, v, Some(IxKey(g, k)), busy)
    requires !k.ix && k.id in v.files && k.span < g.Pages(|v.files[k.id].bytes|)
    ensures k in v.d.cat && k in v.d.store && v.d.store[k] == Data(PageImage(g, v.files[k.id].bytes, k.span))
    ensures v.work.Index? && g.IxSlot(k.span) < |v.work.ix| && v.work.ix[g.IxSlot(k.span)] == Some(v.d.cat[k])
    ensures v.d.cat[k] in v.f.page && v.f.page[v.d.cat[k]] == Page(HeaderOf(k, v.d.removing), v.d.store[k])
    ensures v.d.cat[k] in v.f.lu && v.f.lu[v.d.cat[k]] == Live(k.id, false)
  {
    assert Key(k.id, false, k.span) in v.d.store;
    EntryOf(g, v.d.cat, k, v.work);
  }

  ghost predicate SameBodies(store: map<Key, Body>, store': map<Key, Body>) {
    forall k | k in store && k.ix :: k in store' && store'[k] == store[k]
  }

  /** One data page has been replaced, extended or added. */
  lemma PutOk(g: Geometry, v: Vals, v': Vals, busy: Option<nat>, k: Key, po: nat, chunk: seq<Byte>, p: Pix,
              log0: seq<Flash>, log1: seq<Flash>, log2: seq<Flash>, files0: map<nat, File>, files1: map<nat, File>)
    requires g.Ok() && !k.ix && LogicOk(g, v, Some(IxKey(g, k)), busy) && k.id in v.files
    requires chunk != [] && po + |chunk| <= g.dataSize && g.Start(k.span) + po <= |v.files[k.id].bytes|
    requires busy == Some(k.id) || g.Start(k.span) + po + |chunk| <= |v.files[k.id].bytes|
    requires v'.files == SetBytes(v.files, k.id, Written(v.files[k.id].bytes, g.Start(k.span) + po, chunk))
    requires v'.d == With(v.d, k, p, Data(PageImage(g, Written(v.files[k.id].bytes, g.Start(k.span) + po, chunk), k.span))).(fill := v'.d.fill)
    requires v'.fds == v.fds
    requires v.work.Index? && g.IxSlot(k.span) < |v.work.ix| ==> v'.work == SetEntry(v.work, g.IxSlot(k.span), Some(p))
    requires LogImages(g, log0, log1, files0, files1) && Extends(log1, log2) && Survives(log2, |log1|, v.d, v'.d)
    requires OldOrNew(g, files0, v.files, files1) && OldOrNew(g, files0, v'.files, files1)
    ensures v.work.Index? && g.IxSlot(k.span) < |v.work.ix|
    ensures LogicOk(g, v', Some(IxKey(g, k)), busy)
    ensures LogImages(g, log0, log2, files0, files1)
    ensures SameIndexPages(v.d.cat, v'.d.cat) && SameBodies(v.d.store, v'.d.store)
  {
    hide FilesOk, IndexOk, FdsOk, OldOrNew, LogImages, Survives, Extends, Written, SetBytes;
    PageWritten(g, v, v', busy, k, po, chunk, p);
    ImagesKept(g, log0, log1, log2, v.d, v.files, busy, v'.d, v'.files, busy, files0, files1);
  }

  /** Copying has been done before the page is finalised. */
  lemma CopiedFirst(log0: seq<Flash>, log1: seq<Flash>, log2: seq<Flash>, f: Flash, p: Pix, body: Body)
    requires FinalLast(log1, |log0|, p, None) && |log1| <= |log2| && log2[..|log1|] == log1 && p in f.page && f.page[p].body == body
    requires forall i | |log1| <= i < |log2| :: p in log2[i].page && log2[i].page[p].hdr.flags.final
    ensures FinalLast(log2 + [f], |log0|, p, Some(body))
  {
    assert forall i | |log0| <= i < |log1| :: (log2 + [f])[i] == log1[i];
  }

  /** Writes a new page that is to replace data page `span` of file `id`, whose payload is `x`. */
  method WriteVersion(fs: Spiffs, id: nat, span: nat, po: nat, chunk: seq<Byte>, orig: Option<Pix>, ghost x: seq<Byte>)
    returns (res: Status, p: Pix)
    requires fs.Phys() && fs.dir.removing == None
    requires Key(id, false, span) in fs.dir.cat && orig == Some(fs.dir.cat[Key(id, false, span)])
    requires Key(id, false, span) in fs.dir.store && fs.dir.store[Key(id, false, span)] == Data(x)
    requires chunk != [] && |x| == fs.g.dataSize && po + |chunk| <= fs.g.dataSize
    modifies fs`flash, fs`freeBlocks, fs`pAllocated, fs`pDeleted, fs`eraseCount, fs`maxErase, fs`dir, fs`log, fs`freeCursor
    ensures fs.dir == old(fs.dir).(fill := fs.dir.fill)
    ensures if res.Ok? then fs.Writing(p) && Replaces(fs.flash, fs.dir, p, Key(id, false, span), Data(x[..po] + chunk + x[po + |chunk|..]))
            else fs.Phys()
    ensures res.Ok? ==> FinalLast(fs.log, |old(fs.log)|, p, Some(Data(x[..po] + chunk + x[po + |chunk|..])))
    ensures Extends(old(fs.log), fs.log) && Survives(fs.log, |old(fs.log)|, old(fs.dir), old(fs.dir))
    ensures old(fs.freeBlocks) >= 2 ==> res.Ok?
    ensures fs.pAllocated == old(fs.pAllocated) + (if res.Ok? then 1 else 0) && fs.pDeleted <= old(fs.pDeleted)
    ensures fs.freeBlocks >= old(fs.freeBlocks) - 1
    ensures old(Settled(fs.g, fs.dir.fill, fs.freeCursor, None)) ==> Settled(fs.g, fs.dir.fill, fs.freeCursor, None)
  {
    hide PhysOk, Extends, Survives, Settled, Program, Erased, Holds, FinalLast;
    ghost var k := Key(id, false, span);
    LiveIn(fs.g, fs.flash, fs.dir, fs.freeCursor, fs.N(), None, k);
    var hdr := Header(Live(id, false), span, ALL_SET);
    p := Pix(0, 0);
    if po == 0 && |chunk| == fs.g.dataSize {
      // a full page
      FullPage(x, chunk);
      res, p := fs.AllocateData(hdr, chunk, true);
    } else {
      // write to an existing page: allocate a new one and copy unmodified data
      res := DataCheck(fs.flash, orig, span);
      if !res.Ok? {
        return;
      }
      res, p := fs.AllocateData(hdr, [], false);
      if !res.Ok? {
        return;
      }
      ghost var log1 := fs.log;
      NotExtra(fs.g, fs.flash, fs.dir, fs.freeCursor, fs.N(), p, k);
      FillCopy(fs, p, orig.value, po, chunk, old(fs.log), old(fs.dir));
      var pg := fs.flash.page[p];
      ghost var log2 := fs.log;
      fs.WritePage(p, pg.(hdr := pg.hdr.(flags := pg.hdr.flags.(final := false))), old(fs.log), old(fs.dir));
      CopiedFirst(old(fs.log), log1, log2, fs.flash, p, pg.body);
    }
  }

  /** Deletes data page `span` of file `id`, which page `p` has been written to replace, and notes `p`
      in the index page in memory. */
  method InstallPage(fs: Spiffs, id: nat, span: nat, p: Pix, ghost bytes: seq<Byte>)
    requires fs.g.Ok() && fs.Writing(p) && fs.work.Index? && fs.g.IxSlot(span) < |fs.work.ix| && id in fs.files
    requires Key(id, false, span) in fs.dir.cat && Key(id, false, span) in fs.dir.store
    requires fs.work.ix[fs.g.IxSlot(span)] == Some(fs.dir.cat[Key(id, false, span)])
    requires Replaces(fs.flash, fs.dir, p, Key(id, false, span), Data(PageImage(fs.g, bytes, span)))
    modifies fs`flash, fs`pAllocated, fs`pDeleted, fs`dir, fs`log, fs`work, fs`files
    ensures fs.Phys() && id in old(fs.files) && fs.files == SetBytes(old(fs.files), id, bytes)
    ensures fs.dir == With(old(fs.dir), Key(id, false, span), p, Data(PageImage(fs.g, bytes, span)))
    ensures old(fs.work).Index? && fs.g.IxSlot(span) < |old(fs.work).ix| && fs.work == SetEntry(old(fs.work), fs.g.IxSlot(span), Some(p))
    ensures Extends(old(fs.log), fs.log) && Survives(fs.log, |old(fs.log)|, fs.dir, fs.dir)
    ensures fs.pAllocated == old(fs.pAllocated) - 1 && fs.pDeleted == old(fs.pDeleted) + 1
  {
    hide PhysOk, Extends, Survives, Replaces, PageImage, SetBytes;
    fs.PageDelete(fs.work.ix[fs.g.IxSlot(span)].value, Key(id, false, span), Some(p), Data(PageImage(fs.g, bytes, span)));
    fs.work := SetEntry(fs.work, fs.g.IxSlot(span), Some(p));
    fs.files := SetBytes(fs.files, id, bytes);
  }

  /** Writes a new version of data page `span` of file `id`, and puts it in the place of the old one. */
  method SwapPage(fs: Spiffs, id: nat, span: nat, po: nat, chunk: seq<Byte>, ghost bytes: seq<Byte>)
    returns (res: Status, p: Pix)
    requires fs.g.Ok() && Mid(fs, Some(Key(id, true, fs.g.IxSpan(span))), None) && id in fs.files && span < fs.g.Pages(|fs.files[id].bytes|)
    requires chunk != [] && po + |chunk| <= fs.g.dataSize && fs.g.Start(span) + po <= |fs.files[id].bytes|
    requires bytes == Written(fs.files[id].bytes, fs.g.Start(span) + po, chunk)
    modifies fs`flash, fs`freeBlocks, fs`pAllocated, fs`pDeleted, fs`eraseCount, fs`maxErase, fs`dir, fs`log, fs`freeCursor, fs`work, fs`files
    ensures fs.Phys() && Extends(old(fs.log), fs.log)
    ensures res.Ok? ==> id in old(fs.files) && fs.files == SetBytes(old(fs.files), id, bytes)
                        && fs.dir == With(old(fs.dir), Key(id, false, span), p, Data(PageImage(fs.g, bytes, span))).(fill := fs.dir.fill)
                        && old(fs.work).Index? && fs.g.IxSlot(span) < |old(fs.work).ix|
                        && fs.work == SetEntry(old(fs.work), fs.g.IxSlot(span), Some(p))
    ensures !res.Ok? ==> fs.files == old(fs.files) && fs.work == old(fs.work) && fs.dir == old(fs.dir).(fill := fs.dir.fill)
    ensures Survives(fs.log, |old(fs.log)|, old(fs.dir), if res.Ok? then fs.dir else old(fs.dir))
    ensures old(fs.freeBlocks) >= 2 ==> res.Ok?
    ensures fs.pAllocated + fs.pDeleted <= old(fs.pAllocated + fs.pDeleted) + 1 && fs.freeBlocks >= old(fs.freeBlocks) - 1
    ensures old(Settled(fs.g, fs.dir.fill, fs.freeCursor, None)) ==> Settled(fs.g, fs.dir.fill, fs.freeCursor, None)
  {
    hide PhysOk, LogicOk, Extends, Survives, Settled, PageImage, SetBytes, Written, Replaces;
    ghost var v := fs.Now();
    DataEntry(fs.g, v, None, Key(id, false, span));
    OwnImage(fs.g, fs.files[id].bytes, span, po, chunk);
    res, p := WriteVersion(fs, id, span, po, chunk, fs.work.ix[fs.g.IxSlot(span)], PageImage(fs.g, fs.files[id].bytes, span));
    if !res.Ok? {
      return;
    }
    ghost var log1 := fs.log;
    InstallPage(fs, id, span, p, bytes);
    LogJoins(old(fs.log), log1, fs.log, v.d, fs.dir);
  }

  /** Writes `chunk` into data page `span` of file `id` by writing a new page and deleting the old one. */
  method ReplacePage(fs: Spiffs, id: nat, span: nat, po: nat, chunk: seq<Byte>,
                     ghost log0: seq<Flash>, ghost files0: map<nat, File>, ghost files1: map<nat, File>)
    returns (res: Status)
    requires fs.g.Ok() && Mid(fs, Some(Key(id, true, fs.g.IxSpan(span))), None) && id in fs.files
    requires chunk != [] && po + |chunk| <= fs.g.dataSize && fs.g.Start(span) + po + |chunk| <= |fs.files[id].bytes|
    requires LogImages(fs.g, log0, fs.log, files0, files1) && OldOrNew(fs.g, files0, fs.files, files1)
    requires OldOrNew(fs.g, files0, SetBytes(fs.files, id, Written(fs.files[id].bytes, fs.g.Start(span) + po, chunk)), files1)
    modifies fs`flash, fs`freeBlocks, fs`pAllocated, fs`pDeleted, fs`eraseCount, fs`maxErase, fs`dir, fs`log, fs`freeCursor, fs`work, fs`files
    ensures Mid(fs, Some(Key(id, true, fs.g.IxSpan(span))), None) && LogImages(fs.g, log0, fs.log, files0, files1)
    ensures !res.Ok? ==> fs.files == old(fs.files)
    ensures res.Ok? ==> id in old(fs.files) && fs.g.Start(span) + po <= |old(fs.files)[id].bytes|
                        && fs.files == SetBytes(old(fs.files), id, Written(old(fs.files)[id].bytes, fs.g.Start(span) + po, chunk))
    ensures SameIndexPages(old(fs.dir.cat), fs.dir.cat) && SameBodies(old(fs.dir.store), fs.dir.store)
    ensures old(fs.work).Index? && SameMeta(fs.work, old(fs.work))
    ensures old(Credit(fs.g, fs.Now(), 0)) ==> res.Ok?
    ensures fs.pAllocated + fs.pDeleted <= old(fs.pAllocated + fs.pDeleted) + 1
    ensures fs.freeBlocks >= old(fs.freeBlocks) - 1
    ensures old(Settled(fs.g, fs.dir.fill, fs.freeCursor, None)) ==> Settled(fs.g, fs.dir.fill, fs.freeCursor, None)
  {
    hide PhysOk, LogicOk, Extends, Survives, LogImages, OldOrNew, Settled, PageImage, SetBytes, Written, SameIndexPages, SameBodies, Credit;
    ghost var g, v, k := fs.g, fs.Now(), Key(id, false, span);
    fs.g.PagesBounds(|fs.files[id].bytes|, span);
    if Credit(g, v, 0) {
      CreditRoom(g, v, 0);
    }
    var p;
    res, p := SwapPage(fs, id, span, po, chunk, Written(fs.files[id].bytes, fs.g.Start(span) + po, chunk));
    if res.Ok? {
      PutOk(g, v, fs.Now(), None, k, po, chunk, p, log0, old(fs.log), fs.log, files0, files1);
    } else {
      WorkBuffer(g, v, Key(id, true, g.IxSpan(span)), None);
      StepBack(g, v, fs.Now(), Some(Key(id, true, g.IxSpan(span))), None, log0, old(fs.log), fs.log, files0, files1);
    }
  }

  lemma WorkBuffer(g: Geometry, v: Vals, wk: Key, busy: Option<nat>)
    requires g.Ok() && LogicOk(g, v, Some(wk), busy)
    ensures v.work.Index?
  {
  }

  lemma NotExtra(g: Geometry, f: Flash, d: Dir, c: Pix, n: Counts, p: Pix, k: Key)
    requires PhysOk(g, f, d, c, n, Some(p)) && k in d.cat && k in d.store
    ensures d.cat[k] != p && d.cat[k] in f.page && f.page[d.cat[k]] == Page(HeaderOf(k, d.removing), d.store[k])
  {
  }

  /** A failed allocation changes nothing but the free space. */
  lemma StepBack(g: Geometry, v: Vals, v': Vals, wk: Option<Key>, busy: Option<nat>,
                 log0: seq<Flash>, log1: seq<Flash>, log2: seq<Flash>, files0: map<nat, File>, files1: map<nat, File>)
    requires g.Ok() && LogicOk(g, v, wk, busy)
    requires v'.d == v.d.(fill := v'.d.fill) && v'.work == v.work && v'.fds == v.fds && v'.files == v.files
    requires LogImages(g, log0, log1, files0, files1) && Extends(log1, log2) && Survives(log2, |log1|, v.d, v.d)
    requires OldOrNew(g, files0, v.files, files1)
    ensures LogicOk(g, v', wk, busy)
    ensures LogImages(g, log0, log2, files0, files1)
    ensures SameIndexPages(v.d.cat, v'.d.cat) && SameBodies(v.d.store, v'.d.store)
  {
    hide FilesOk, FdsOk, OldOrNew, LogImages, Survives, Extends;
    ImagesKept(g, log0, log1, log2, v.d, v.files, busy, v.d, v.files, busy, files0, files1);
  }

  // ----- index pages -----

  lemma FdFacts(g: Geometry, v: Vals, wk: Option<Key>, busy: Option<nat>, h: nat)
    requires g.Ok() && LogicOk(g, v, wk, busy) && h < |v.fds| && v.fds[h].open
    ensures v.fds[h].id in v.files && Key(v.fds[h].id, true, 0) in v.d.cat && Key(v.fds[h].id, true, 0) in v.d.store
    ensures v.fds[h].hdrPix == v.d.cat[Key(v.fds[h].id, true, 0)]
    ensures v.fds[h].curPix == Lookup(v.d.cat, Key(v.fds[h].id, true, v.fds[h].curSpan))
    ensures v.d.store.Keys == v.d.cat.Keys
    ensures busy != Some(v.fds[h].id) ==> SizeAgrees(v.fds[h].size, v.files[v.fds[h].id].bytes)
  {
    assert FdOk(v.fds[h], v.d.cat, v.files, busy);
  }

  /** A descriptor's cursor is put on an index page that is loaded into the work buffer. */
  lemma LoadedOk(g: Geometry, v: Vals, v': Vals, busy: Option<nat>, h: nat, k: Key)
    requires g.Ok() && LogicOk(g, v, None, busy) && k.ix && k in v.d.cat && k in v.d.store
    requires h < |v.fds| && v.fds[h].open && v.fds[h].id == k.id
    requires v' == v.(work := v.d.store[k], fds := v.fds[h := v.fds[h].(curPix := Some(v.d.cat[k]), curSpan := k.span)])
    ensures LogicOk(g, v', Some(k), busy) && v'.work.Index? && SameFds(v.fds, v'.fds)
  {
    hide FilesOk;
    WorkBody(g, v, None, busy, k);
    IndexLoaded(g, v.d, k, v.work);
    forall i | 0 <= i < |v'.fds|
      ensures FdOk(v'.fds[i], v'.d.cat, v'.files, busy)
    {
      assert FdOk(v.fds[i], v.d.cat, v.files, busy);
    }
  }

  lemma WorkBody(g: Geometry, v: Vals, wk: Option<Key>, busy: Option<nat>, k: Key)
    requires g.Ok() && LogicOk(g, v, wk, busy) && k.ix && k in v.d.store
    ensures k.id in v.files && BodyOk(g, k, v.d.store[k], v.files[k.id], busy == Some(k.id))
  {
  }

  /** Loads index page `s` of an open file into the work buffer, from where the descriptor knows it
      to be (for pages other than the header only if `trust` says so) or by searching. */
  method LoadIndexPage(fs: Spiffs, h: nat, s: nat, trust: bool, ghost busy: Option<nat>, ghost r: Option<nat>) returns (res: Status, pix: Pix)
    requires Inside(fs, None, busy, r) && h < |fs.fds| && fs.fds[h].open && Key(fs.fds[h].id, true, s) in fs.dir.cat
    modifies fs`cursor, fs`work, fs`fds
    ensures res.Ok? && SameFds(old(fs.fds), fs.fds) && h < |fs.fds| && fs.fds[h].size == old(fs.fds)[h].size
    ensures Inside(fs, Some(Key(fs.fds[h].id, true, s)), busy, r)
    ensures Key(fs.fds[h].id, true, s) in fs.dir.store && fs.work == fs.dir.store[Key(fs.fds[h].id, true, s)] && fs.work.Index?
    ensures pix == fs.dir.cat[Key(fs.fds[h].id, true, s)]
  {
    hide PhysOk, LogicOk;
    ghost var g, v := fs.g, fs.Now();
    var fd := fs.fds[h];
    FdFacts(g, v, None, busy, h);
    if s == 0 {
      pix := fd.hdrPix;
      res := Ok;
    } else if trust && fd.curSpan == s {
      pix := fd.curPix.GetOr(Pix(0, 0));
      res := Ok;
    } else {
      res, pix := fs.FindIdAndSpan(fd.id, true, s);
    }
    LoadedBody(g, fs.flash, fs.dir, fs.freeCursor, fs.N(), Key(fd.id, true, s));
    fs.work := fs.flash.page[pix].body;
    fs.fds := fs.fds[h := fd.(curPix := Some(pix), curSpan := s)];
    LoadedOk(g, v, fs.Now(), busy, h, Key(fd.id, true, s));
  }

  /** An index page has been stored. */
  lemma StoredOk(g: Geometry, v: Vals, v': Vals, wk: Option<Key>, busy: Option<nat>, k: Key, p: Pix, body: Body, size: SizeArg,
                 log0: seq<Flash>, log1: seq<Flash>, log2: seq<Flash>, files0: map<nat, File>, files1: map<nat, File>)
    requires g.Ok() && LogicOk(g, v, wk, busy) && k.ix && k in v.d.cat && body.Index?
    requires if wk.None? then k in v.d.store && v.d.store[k].Index? ==> body.ix == v.d.store[k].ix
             else wk == Some(k) && v.work.Index? && body.ix == v.work.ix
    requires v'.d == With(v.d, k, p, body).(fill := v'.d.fill) && v'.files == v.files
    requires k.id in v.files ==> BodyOk(g, k, body, v.files[k.id], busy == Some(k.id))
    requires |v'.fds| == |v.fds| && forall i | 0 <= i < |v.fds| :: v'.fds[i] == Notified(v.fds[i], Update, k.id, k.span, p, size)
    requires k.span == 0 && size.SizeIs? && busy != Some(k.id) && k.id in v.files ==> SizeAgrees(size.size, v.files[k.id].bytes)
    requires LogImages(g, log0, log1, files0, files1) && Extends(log1, log2) && Survives(log2, |log1|, v.d, v'.d)
    requires OldOrNew(g, files0, v.files, files1)
    ensures LogicOk(g, v', None, busy) && SameFds(v.fds, v'.fds)
    ensures LogImages(g, log0, log2, files0, files1)
    ensures k.span == 0 && size.SizeIs? ==> forall i | 0 <= i < |v'.fds| && v'.fds[i].open && v'.fds[i].id == k.id :: v'.fds[i].size == size.size
  {
    hide FilesOk, IndexOk, FdsOk, OldOrNew, LogImages, Survives, Extends, BodyOk;
    IndexPut(g, v, v', wk, busy, k, p, body, size);
    ImagesKept(g, log0, log1, log2, v.d, v.files, busy, v'.d, v'.files, busy, files0, files1);
  }

  /** Moves an index page, with the contents `body`, and tells the descriptors. */
  method RelocateIndex(fs: Spiffs, id: nat, s: nat, pix: Pix, load: bool, size: SizeArg, ghost body: Body) returns (res: Status, dst: Pix)
    requires fs.Phys() && Key(id, true, s) in fs.dir.cat && fs.dir.cat[Key(id, true, s)] == pix && Key(id, true, s) in fs.dir.store
    requires (if load then fs.dir.store[Key(id, true, s)] else fs.work).Index? && (s != 0 ==> size.Keep? && !load)
    requires body == Resized(if load then fs.dir.store[Key(id, true, s)] else fs.work, size)
    modifies fs`flash, fs`freeBlocks, fs`pAllocated, fs`pDeleted, fs`eraseCount, fs`maxErase, fs`dir, fs`log, fs`freeCursor, fs`work, fs`fds
    ensures fs.Phys() && Extends(old(fs.log), fs.log) && fs.work == body
    ensures fs.dir == (if res.Ok? then With(old(fs.dir), Key(id, true, s), dst, body) else old(fs.dir)).(fill := fs.dir.fill)
    ensures Survives(fs.log, |old(fs.log)|, old(fs.dir), if res.Ok? then fs.dir else old(fs.dir))
    ensures res.Ok? ==> |fs.fds| == |old(fs.fds)| && forall i | 0 <= i < |fs.fds| ::
              fs.fds[i] == Notified(old(fs.fds)[i], Update, id, s, dst, if s == 0 then SizeIs(body.size) else Keep)
    ensures !res.Ok? ==> fs.fds == old(fs.fds)
    ensures old(fs.freeBlocks) >= 2 ==> res.Ok?
    ensures fs.pAllocated + fs.pDeleted <= old(fs.pAllocated + fs.pDeleted) + 1 && fs.freeBlocks >= old(fs.freeBlocks) - 1
    ensures old(Settled(fs.g, fs.dir.fill, fs.freeCursor, None)) ==> Settled(fs.g, fs.dir.fill, fs.freeCursor, None)
  {
    hide PhysOk, Extends, Survives, Settled, Notified;
    if s == 0 {
      res, dst := fs.UpdateIndexHdr(id, pix, load, size);
    } else {
      ghost var k := Key(id, true, s);
      LiveIn(fs.g, fs.flash, fs.dir, fs.freeCursor, fs.N(), None, k);
      res := IndexCheck(fs.flash, pix, s);
      dst := pix;
      if res.Ok? {
        res, dst := fs.PageMove(pix, Some(fs.work), k);
        if res.Ok? {
          fs.Notify(Update, id, s, dst, Keep);
        }
      }
    }
  }

  /** Stores an index page on a new page and tells the descriptors. The header goes through
      `UpdateIndexHdr`, which may load it first and set its size. */
  method PutIndex(fs: Spiffs, id: nat, s: nat, pix: Pix, load: bool, size: SizeArg, ghost wk: Option<Key>, ghost busy: Option<nat>, ghost r: Option<nat>,
                  ghost log0: seq<Flash>, ghost files0: map<nat, File>, ghost files1: map<nat, File>)
    returns (res: Status, dst: Pix)
    requires Inside(fs, wk, busy, r) && id in fs.files && Key(id, true, s) in fs.dir.cat && fs.dir.cat[Key(id, true, s)] == pix
    requires if load then wk == None && s == 0 else wk == Some(Key(id, true, s)) && fs.work.Index?
    requires Key(id, true, s) in fs.dir.store && fs.dir.store[Key(id, true, s)].Index? && (s != 0 ==> size.Keep?)
    requires BodyOk(fs.g, Key(id, true, s), Resized(if load then fs.dir.store[Key(id, true, s)] else fs.work, size), fs.files[id], busy == Some(id))
    requires LogImages(fs.g, log0, fs.log, files0, files1) && OldOrNew(fs.g, files0, fs.files, files1)
    modifies fs`flash, fs`freeBlocks, fs`pAllocated, fs`pDeleted, fs`eraseCount, fs`maxErase, fs`dir, fs`log, fs`freeCursor, fs`work, fs`fds
    ensures fs.Phys() && LogImages(fs.g, log0, fs.log, files0, files1) && SameFds(old(fs.fds), fs.fds)
    ensures res.Ok? ==> Inside(fs, None, busy, r) && fs.dir.cat == old(fs.dir.cat)[Key(id, true, s) := dst]
    ensures res.Ok? ==> Key(id, true, s) in old(fs.dir.store)
                        && (if load then old(fs.dir.store)[Key(id, true, s)] else old(fs.work)).Index?
                        && fs.dir.store == old(fs.dir.store)[Key(id, true, s) :=
                             Resized(if load then old(fs.dir.store)[Key(id, true, s)] else old(fs.work), size)]
    ensures res.Ok? && s == 0 && Key(id, true, 0) in fs.dir.store && fs.dir.store[Key(id, true, 0)].Index? ==>
              forall i | 0 <= i < |fs.fds| && fs.fds[i].open && fs.fds[i].id == id :: fs.fds[i].size == fs.dir.store[Key(id, true, 0)].size
    ensures old(Credit(fs.g, fs.Now(), 0)) ==> res.Ok?
    ensures fs.pAllocated + fs.pDeleted <= old(fs.pAllocated + fs.pDeleted) + 1
    ensures fs.freeBlocks >= old(fs.freeBlocks) - 1
    ensures old(Settled(fs.g, fs.dir.fill, fs.freeCursor, None)) ==> Settled(fs.g, fs.dir.fill, fs.freeCursor, None)
  {
    hide PhysOk, LogicOk, Extends, Survives, LogImages, OldOrNew, Settled, Credit, Notified, BodyOk;
    ghost var g, v, k := fs.g, fs.Now(), Key(id, true, s);
    if Credit(g, v, 0) {
      CreditRoom(g, v, 0);
    }
    EqualFds(v.fds);
    ghost var body := Resized(if load then fs.dir.store[k] else fs.work, size);
    res, dst := RelocateIndex(fs, id, s, pix, load, size, body);
    if !res.Ok? {
      FailedImages(g, v, wk, busy, log0, old(fs.log), fs.log, files0, files1);
      return;
    }
    if busy != Some(id) {
      SizeKnown(g, k, body, fs.files[id]);
    }
    StoredOk(g, v, fs.Now(), wk, busy, k, dst, body, if s == 0 then SizeIs(body.size) else Keep, log0, old(fs.log), fs.log, files0, files1);
  }

  lemma SizeKnown(g: Geometry, k: Key, body: Body, file: File)
    requires BodyOk(g, k, body, file, false) && k.ix
    ensures k.span == 0 ==> SizeAgrees(body.size, file.bytes)
  {
  }

  lemma FailedImages(g: Geometry, v: Vals, wk: Option<Key>, busy: Option<nat>,
                     log0: seq<Flash>, log1: seq<Flash>, log2: seq<Flash>, files0: map<nat, File>, files1: map<nat, File>)
    requires g.Ok() && LogicOk(g, v, wk, busy)
    requires LogImages(g, log0, log1, files0, files1) && Extends(log1, log2) && Survives(log2, |log1|, v.d, v.d)
    requires OldOrNew(g, files0, v.files, files1)
    ensures LogImages(g, log0, log2, files0, files1)
  {
    hide FilesOk, FdsOk, OldOrNew, LogImages, Survives, Extends;
    ImagesKept(g, log0, log1, log2, v.d, v.files, busy, v.d, v.files, busy, files0, files1);
  }

  /** Index page `s` of the open file `id` is in the work buffer, where its newest version is. */
  ghost predicate Holding(fs: Spiffs, h: nat, id: nat, s: nat, pix: Pix, busy: Option<nat>)
    reads fs
  {
    && Mid(fs, Some(Key(id, true, s)), busy)
    && h < |fs.fds| && fs.fds[h].open && fs.fds[h].id == id && id in fs.files
    && Key(id, true, s) in fs.dir.cat && fs.dir.cat[Key(id, true, s)] == pix
    && Key(id, true, s) in fs.dir.store && SameMeta(fs.work, fs.dir.store[Key(id, true, s)])
  }

  lemma WorkStorable(g: Geometry, v: Vals, busy: Option<nat>, k: Key)
    requires g.Ok() && LogicOk(g, v, Some(k), busy) && k.ix && k in v.d.store && SameMeta(v.work, v.d.store[k])
    ensures k.id in v.files && BodyOk(g, k, v.work, v.files[k.id], busy == Some(k.id))
  {
  }

  /** Stores the index page that was modified, unless this is the first one, and loads the next. */
  method SwitchIndex(fs: Spiffs, h: nat, id: nat, prev: Option<nat>, s: nat, pix0: Pix,
                     ghost log0: seq<Flash>, ghost files0: map<nat, File>, ghost files1: map<nat, File>)
    returns (res: Status, pix: Pix)
    requires if prev.Some? then Holding(fs, h, id, prev.value, pix0, None)
             else Mid(fs, None, None) && h < |fs.fds| && fs.fds[h].open && fs.fds[h].id == id
    requires Key(id, true, s) in fs.dir.cat
    requires LogImages(fs.g, log0, fs.log, files0, files1) && OldOrNew(fs.g, files0, fs.files, files1)
    modifies fs`flash, fs`freeBlocks, fs`pAllocated, fs`pDeleted, fs`eraseCount, fs`maxErase, fs`dir, fs`log, fs`freeCursor,
             fs`work, fs`fds, fs`cursor
    ensures fs.Phys() && LogImages(fs.g, log0, fs.log, files0, files1) && SameFds(old(fs.fds), fs.fds)
    ensures res.Ok? ==> Holding(fs, h, id, s, pix, None)
    ensures old(Credit(fs.g, fs.Now(), 0)) || prev.None? ==> res.Ok?
    ensures fs.pAllocated + fs.pDeleted <= old(fs.pAllocated + fs.pDeleted) + if prev.Some? then 1 else 0
    ensures fs.freeBlocks >= old(fs.freeBlocks) - (if prev.Some? then 1 else 0)
    ensures old(Settled(fs.g, fs.dir.fill, fs.freeCursor, None)) ==> Settled(fs.g, fs.dir.fill, fs.freeCursor, None)
  {
    hide PhysOk, LogicOk, LogImages, OldOrNew, Settled, FreeQuota, BodyOk;
    if prev.Some? {
      WorkStorable(fs.g, fs.Now(), None, Key(id, true, prev.value));
      FdFacts(fs.g, fs.Now(), Some(Key(id, true, prev.value)), None, h);
      var dst;
      res, dst := PutIndex(fs, id, prev.value, if prev.value == 0 then fs.fds[h].hdrPix else pix0, false, Keep,
                           Some(Key(id, true, prev.value)), None, None, log0, files0, files1);
      if !res.Ok? {
        pix := pix0;
        return;
      }
    }
    res, pix := LoadIndexPage(fs, h, s, true, None, None);
    FdFacts(fs.g, fs.Now(), Some(Key(id, true, s)), None, h);
  }

  ghost function Partly(files: map<nat, File>, id: nat, offset: nat, data: seq<Byte>, w: nat): map<nat, File>
    requires id in files && offset <= |files[id].bytes| && w <= |data|
  {
    SetBytes(files, id, Written(files[id].bytes, offset, data[..w]))
  }

  /** The next piece of `data` that goes into one data page, span `span` from `po` on. */
  lemma NextChunk(g: Geometry, files: map<nat, File>, id: nat, offset: nat, data: seq<Byte>, w: nat, span: nat, po: nat, n: nat)
    requires g.Ok() && id in files && offset <= |files[id].bytes| && w < |data|
    requires g.Start(span) + po == offset + w && po < g.dataSize && (w == 0 || po == 0)
    requires n == if |data| - w < g.dataSize - po then |data| - w else g.dataSize - po
    ensures id in Partly(files, id, offset, data, w) && id in Partly(files, id, offset, data, w + n)
    ensures var bytes := Partly(files, id, offset, data, w)[id].bytes;
            && g.Start(span) + po <= |bytes|
            && SetBytes(Partly(files, id, offset, data, w), id, Written(bytes, g.Start(span) + po, data[w..w + n])) == Partly(files, id, offset, data, w + n)
            && Written(bytes, g.Start(span) + po, data[w..w + n]) == Written(files[id].bytes, offset, data[..w + n])
            && |bytes| == (if offset + w < |files[id].bytes| then |files[id].bytes| else offset + w)
    ensures w + n < |data| ==> g.Start(span + 1) == offset + w + n && span + 1 < g.Pages(offset + |data|)
    ensures span < g.Pages(offset + |data|)
    ensures OldOrNew(g, files, Partly(files, id, offset, data, w), Partly(files, id, offset, data, |data|))
    ensures OldOrNew(g, files, Partly(files, id, offset, data, w + n), Partly(files, id, offset, data, |data|))
  {
    assert data[..w] + data[w..w + n] == data[..w + n];
    WrittenTwice(files[id].bytes, offset, data[..w], data[w..w + n]);
    assert data[..|data|] == data;
    g.PagesBounds(offset + |data|, span);
    g.PagesBounds(offset + |data|, span + 1);
    PartlyWritten(g, files, id, offset, data, w, span);
    PartlyWritten(g, files, id, offset, data, w + n, span + 1);
  }

  lemma IndexExists(g: Geometry, v: Vals, wk: Option<Key>, busy: Option<nat>, id: nat, span: nat)
    requires g.Ok() && LogicOk(g, v, wk, busy) && id in v.files && span < g.Pages(|v.files[id].bytes|)
    ensures Key(id, true, g.IxSpan(span)) in v.d.cat
  {
    g.SlotBounds(span);
    assert HasIx(g, |v.files[id].bytes|, g.IxSpan(span), false);
  }

  /** Page allocations that modifying still needs: data pages from `span` on, and the index pages. */
  function Left(g: Geometry, end: nat, span: nat, begun: bool): int
    requires g.Ok() && 1 <= end && (begun ==> span >= 1)
  {
    end - span + g.IxSpan(end - 1) - g.IxSpan(if begun then span - 1 else span) + 1
  }

  /** One round of modifying: makes the right index page the one at hand, and rewrites data page `span`. */
  method ModifyChunk(fs: Spiffs, h: nat, id: nat, offset: nat, data: seq<Byte>, written: nat, span: nat, po: nat, prev: Option<nat>,
                     pix0: Pix, ghost log0: seq<Flash>, ghost files0: map<nat, File>, ghost m: int)
    returns (res: Status, n: nat, pix: Pix, fatal: bool)
    requires if prev.Some? then Holding(fs, h, id, prev.value, pix0, None)
             else Mid(fs, None, None) && h < |fs.fds| && fs.fds[h].open && fs.fds[h].id == id
    requires fs.g.Ok() && id in files0 && offset + |data| <= |files0[id].bytes| && written < |data|
    requires fs.g.Start(span) + po == offset + written && po < fs.g.dataSize && (written == 0 || po == 0)
    requires fs.files == Partly(files0, id, offset, data, written)
    requires LogImages(fs.g, log0, fs.log, files0, Partly(files0, id, offset, data, |data|))
    modifies fs`flash, fs`freeBlocks, fs`pAllocated, fs`pDeleted, fs`eraseCount, fs`maxErase, fs`dir, fs`log, fs`freeCursor,
             fs`work, fs`fds, fs`cursor, fs`files
    ensures fs.Phys() && LogImages(fs.g, log0, fs.log, files0, Partly(files0, id, offset, data, |data|)) && SameFds(old(fs.fds), fs.fds)
    ensures n == if |data| - written < fs.g.dataSize - po then |data| - written else fs.g.dataSize - po
    ensures written + n < |data| ==> fs.g.Start(span + 1) == offset + written + n && span + 1 < fs.g.Pages(offset + |data|)
    ensures fatal ==> !res.Ok?
    ensures !fatal ==> Holding(fs, h, id, fs.g.IxSpan(span), pix, None)
                       && fs.files == Partly(files0, id, offset, data, if res.Ok? then written + n else written)
                       && OldOrNew(fs.g, files0, fs.files, Partly(files0, id, offset, data, |data|))
    ensures var cost := if prev.None? || prev == Some(fs.g.IxSpan(span)) then 1 else 2;
            old(Credit(fs.g, fs.Now(), m)) && m >= cost - 1 ==> res.Ok? && Credit(fs.g, fs.Now(), m - cost)
    ensures !fatal && old(Settled(fs.g, fs.dir.fill, fs.freeCursor, None)) ==> Settled(fs.g, fs.dir.fill, fs.freeCursor, None)
  {
    hide PhysOk, LogicOk, LogImages, OldOrNew, Settled, Partly, SameFds, SetBytes, Written, FilesOk, SameIndexPages, SameBodies, Credit;
    ghost var g, v1 := fs.g, fs.Now();
    ghost var cost := if prev.None? || prev == Some(fs.g.IxSpan(span)) then 1 else 2;
    ghost var ample := Credit(g, v1, m) && m >= cost - 1;
    fatal := false;
    n := if |data| - written < fs.g.dataSize - po then |data| - written else fs.g.dataSize - po;
    NextChunk(g, files0, id, offset, data, written, span, po, n);
    g.PagesBounds(|fs.files[id].bytes|, span);
    IndexExists(g, v1, if prev.Some? then Some(Key(id, true, prev.value)) else None, None, id, span);
    EqualFds(fs.fds);
    var s := fs.g.IxSpan(span);
    pix := pix0;
    if prev != Some(s) {
      if ample && prev.Some? {
        CreditAtLeast(g, v1, m, 0);
      }
      res, pix := SwitchIndex(fs, h, id, prev, s, pix0, log0, files0, Partly(files0, id, offset, data, |data|));
      if !res.Ok? {
        fatal := true;
        return;
      }
    }
    ghost var v2 := fs.Now();
    if ample {
      CreditLeft(g, v1, v2, m, cost - 1);
      CreditAtLeast(g, v2, m - (cost - 1), 0);
    }
    res := ReplacePage(fs, id, span, po, data[written..written + n], log0, files0, Partly(files0, id, offset, data, |data|));
    StillHolding(v2, fs.Now(), Key(id, true, s));
    if ample {
      CreditLeft(g, v2, fs.Now(), m - (cost - 1), 1);
    }
  }

  /** The rounds of modifying. `written` bytes have reached the file; unless the failure is `fatal`, index
      page `s` is at hand and not stored yet. */
  method ModifyPages(fs: Spiffs, h: nat, id: nat, offset: nat, data: seq<Byte>, ghost log0: seq<Flash>, ghost files0: map<nat, File>,
                     ghost need: int, ghost m: int)
    returns (res: Status, written: nat, s: nat, pix: Pix, fatal: bool)
    requires Mid(fs, None, None) && h < |fs.fds| && fs.fds[h].open && fs.fds[h].id == id
    requires fs.g.Ok() && id in files0 && data != [] && offset + |data| <= |files0[id].bytes|
    requires need == Left(fs.g, fs.g.Pages(offset + |data|), fs.g.PageOf(offset), false)
    requires fs.files == Partly(files0, id, offset, data, 0)
    requires LogImages(fs.g, log0, fs.log, files0, Partly(files0, id, offset, data, |data|))
    modifies fs`flash, fs`freeBlocks, fs`pAllocated, fs`pDeleted, fs`eraseCount, fs`maxErase, fs`dir, fs`log, fs`freeCursor,
             fs`work, fs`fds, fs`cursor, fs`files
    ensures fs.Phys() && LogImages(fs.g, log0, fs.log, files0, Partly(files0, id, offset, data, |data|)) && SameFds(old(fs.fds), fs.fds)
    ensures fatal ==> !res.Ok?
    ensures !fatal ==> Holding(fs, h, id, s, pix, None) && written <= |data|
                       && fs.files == Partly(files0, id, offset, data, written)
                       && OldOrNew(fs.g, files0, fs.files, Partly(files0, id, offset, data, |data|))
    ensures res.Ok? ==> written == |data|
    ensures !fatal && old(Settled(fs.g, fs.dir.fill, fs.freeCursor, None)) ==> Settled(fs.g, fs.dir.fill, fs.freeCursor, None)
    ensures old(Credit(fs.g, fs.Now(), m)) && m >= need - 1 ==> res.Ok? && Credit(fs.g, fs.Now(), m - need + 1)
  {
    hide PhysOk, LogicOk, LogImages, OldOrNew, Settled, FreeQuota, Partly, SameFds, Credit, Left;
    ghost var g, fds0, end := fs.g, fs.fds, fs.g.Pages(offset + |data|);
    ghost var ample := Credit(g, fs.Now(), m) && m >= need - 1;
    g.SplitOffset(offset);
    StartSpan(g, offset, |data|);
    EqualFds(fs.fds);
    res, fatal, written := Ok, false, 0;
    var span: nat, po: nat := offset / fs.g.dataSize, offset % fs.g.dataSize;
    var prev: Option<nat> := None;
    s, pix := 0, fs.fds[h].hdrPix;
    while written < |data|
      invariant written <= |data| && span <= end && res.Ok? && !fatal
      invariant fs.files == Partly(files0, id, offset, data, written)
      invariant LogImages(g, log0, fs.log, files0, Partly(files0, id, offset, data, |data|))
      invariant if prev.Some? then prev == Some(s) && Holding(fs, h, id, s, pix, None)
                                   && OldOrNew(g, files0, fs.files, Partly(files0, id, offset, data, |data|))
                else Mid(fs, None, None) && h < |fs.fds| && fs.fds[h].open && fs.fds[h].id == id
      invariant SameFds(fds0, fs.fds)
      invariant if prev.None? then written == 0 else written > 0 && span >= 1 && s == g.IxSpan(span - 1)
      invariant written < |data| ==> g.Start(span) + po == offset + written && po < g.dataSize && (written == 0 || po == 0) && span < end
      invariant old(Settled(fs.g, fs.dir.fill, fs.freeCursor, None)) ==> Settled(g, fs.dir.fill, fs.freeCursor, None)
      invariant ample ==> Credit(g, fs.Now(), m - need + Left(g, end, span, prev.Some?))
      decreases |data| - written
    {
      ghost var fds := fs.fds;
      LeftSteps(g, end, span, prev.Some?);
      var n;
      s := fs.g.IxSpan(span);
      res, n, pix, fatal := ModifyChunk(fs, h, id, offset, data, written, span, po, prev, pix, log0, files0,
                                        m - need + Left(g, end, span, prev.Some?));
      SameFdsChain(fds0, fds, fs.fds);
      if fatal {
        return;
      }
      if !res.Ok? {
        return;
      }
      prev := Some(s);
      po := 0;
      span := span + 1;
      written := written + n;
    }
    LeftOne(g, end, span);
    if ample {
      CreditAtLeast(g, fs.Now(), m - need + Left(g, end, span, true), m - need + 1);
    }
  }

  lemma CreditLeft(g: Geometry, v: Vals, v': Vals, n: int, spent: int)
    requires Credit(g, v, n) && v'.n.live + v'.n.dead <= v.n.live + v.n.dead + spent && v'.n.freeBlocks >= v.n.freeBlocks - spent
    requires Settled(g, v.d.fill, v.c, None) ==> Settled(g, v'.d.fill, v'.c, None)
    ensures Credit(g, v', n - spent)
  {
  }

  lemma CreditAtLeast(g: Geometry, v: Vals, n: int, m: int)
    requires Credit(g, v, n) && m <= n
    ensures Credit(g, v, m)
  {
  }

  /** Page allocations that overwriting `len` bytes from `offset` on takes at most. */
  function ModifyCost(g: Geometry, offset: nat, len: nat): (r: int)
    requires g.Ok() && len > 0
    ensures r >= 2
  {
    StartSpan(g, offset, len);
    Left(g, g.Pages(offset + len), g.PageOf(offset), false)
  }

  /** Overwrites part of a file. `w` bytes of `data` reach the file, which is `whole` unless cleaning
      failed or an index page could not be stored; `quota` is the free quota after garbage collection. */
  method Modify(fs: Spiffs, h: nat, offset: nat, data: seq<Byte>) returns (res: Status, whole: bool, ghost w: nat, ghost quota: int)
    requires fs.Valid() && h < |fs.fds| && fs.fds[h].open && fs.fds[h].id in fs.files
    requires data != [] && offset + |data| <= |fs.files[fs.fds[h].id].bytes|
    modifies fs
    ensures w <= |data| && old(fs.fds[h].id in fs.files) && offset + |data| <= |old(fs.files[fs.fds[h].id].bytes)|
    ensures fs.Phys() && SameFds(old(fs.fds), fs.fds)
    ensures LogImages(fs.g, old(fs.log), fs.log, old(fs.files), Partly(old(fs.files), old(fs.fds[h].id), offset, data, |data|))
    ensures whole ==> fs.Valid() && fs.files == Partly(old(fs.files), old(fs.fds[h].id), offset, data, w)
    ensures res.Ok? ==> whole && w == |data|
    ensures whole && old(Settled(fs.g, fs.dir.fill, fs.freeCursor, None)) ==> Settled(fs.g, fs.dir.fill, fs.freeCursor, None)
    ensures old(Settled(fs.g, fs.dir.fill, fs.freeCursor, None)) && ModifyCost(fs.g, offset, |data|) <= quota + 1 ==>
              res.Ok? && FreeQuota(fs.g, fs.N()) >= quota - ModifyCost(fs.g, offset, |data|)
    ensures var room := Allowance(fs.g, old(fs.N()), old(Settled(fs.g, fs.dir.fill, fs.freeCursor, None)));
            Passes(fs.g, old(fs.N()), |data| + fs.g.dataSize) && ModifyCost(fs.g, offset, |data|) <= room + 1 ==>
              && res.Ok?
              && Allowance(fs.g, fs.N(), Settled(fs.g, fs.dir.fill, fs.freeCursor, None)) >= room - ModifyCost(fs.g, offset, |data|)
    ensures quota >= 0 ==> |data| + fs.g.dataSize <= quota * fs.g.dataSize
    ensures Passes(fs.g, old(fs.N()), |data| + fs.g.dataSize) ==> quota == FreeQuota(fs.g, old(fs.N()))
    ensures Refused(fs.g, old(fs.N()), |data| + fs.g.dataSize) ==> res == Full && whole && w == 0 && fs.Now() == old(fs.Now())
    ensures Undecided(fs.g, old(fs.N()), |data| + fs.g.dataSize) ==> Tried(fs.g, old(fs.flash.lu), old(fs.Wear()), old(fs.log), fs.log)
    ensures forall b: nat | old(Pays(fs, |data| + fs.g.dataSize, b)) :: quota >= old(Prospect(fs, b))
  {
    hide PhysOk, LogicOk, LogSafe, LogImages, OldOrNew, Settled, Partly, BodyOk, SameFds, FreeQuota, Left, Passes, Refused, Tried, Pays, Prospect, Course;
    ghost var g, files0, log0, id0, wear0 := fs.g, fs.files, fs.log, fs.fds[h].id, fs.Wear();
    ghost var files1 := Partly(files0, id0, offset, data, |data|);
    ghost var v0 := fs.Now();
    ghost var need := Left(g, g.Pages(offset + |data|), g.PageOf(offset), false);
    w, quota := 0, -1;
    StartSpan(g, offset, |data|);
    WorkedNothing(g, files0, id0, offset, data, files1);
    ghost var turns;
    res, turns := GcCheck(fs, |data| + fs.g.dataSize);
    Collected(g, v0, log0, fs.log, files1);
    whole := res != NotFound;
    if !res.Ok? {
      return;
    }
    quota := FreeQuota(g, fs.N());
    ghost var log1 := fs.log;
    LogBegins(g, log1, files0, files1);
    SameFdsAt(v0.fds, fs.fds, h);
    ghost var v1 := fs.Now();
    CreditNow(g, v1);
    ghost var m := Allowance(g, v1.n, Settled(g, v1.d.fill, v1.c, None));
    var id := fs.fds[h].id;
    var written, s, pix, fatal;
    res, written, s, pix, fatal := ModifyPages(fs, h, id, offset, data, log1, files0, need, m);
    LaterImages(g, v0.f.lu, wear0, log0, log1, fs.log, files0, files1);
    whole := false;
    ghost var v2 := fs.Now();
    SameFdsChain(v0.fds, v1.fds, v2.fds);
    if fatal {
      return;
    }
    w := written;
    WorkStorable(g, fs.Now(), None, Key(id, true, s));
    FdFacts(g, fs.Now(), Some(Key(id, true, s)), None, h);
    if Credit(g, v2, m - need + 1) && m - need + 1 >= 0 {
      CreditAtLeast(g, v2, m - need + 1, 0);
    }
    var res2, dst := PutIndex(fs, id, s, if s == 0 then fs.fds[h].hdrPix else pix, false, Keep,
                              Some(Key(id, true, s)), None, None, log1, files0, files1);
    LaterImages(g, v0.f.lu, wear0, log0, log1, fs.log, files0, files1);
    SameFdsChain(v0.fds, v2.fds, fs.fds);
    if !res2.Ok? {
      res := res2;
      return;
    }
    whole := true;
    if Credit(g, v2, m - need + 1) {
      CreditLeft(g, v2, fs.Now(), m - need + 1, 1);
    }
  }

  lemma CreditNow(g: Geometry, v: Vals)
    ensures Credit(g, v, Allowance(g, v.n, Settled(g, v.d.fill, v.c, None)))
    ensures Settled(g, v.d.fill, v.c, None) ==> Allowance(g, v.n, Settled(g, v.d.fill, v.c, None)) == FreeQuota(g, v.n)
  {
  }

  lemma CreditMeans(g: Geometry, v: Vals, n: int)
    ensures Credit(g, v, n) ==> Allowance(g, v.n, Settled(g, v.d.fill, v.c, None)) >= n
  {
  }

  lemma LeftSteps(g: Geometry, end: nat, span: nat, begun: bool)
    requires g.Ok() && span < end && (begun ==> span >= 1)
    ensures Left(g, end, span, begun) >= 2
    ensures !begun ==> Left(g, end, span + 1, true) == Left(g, end, span, begun) - 1
    ensures begun && g.IxSpan(span) == g.IxSpan(span - 1) ==> Left(g, end, span + 1, true) == Left(g, end, span, begun) - 1
    ensures begun && g.IxSpan(span) != g.IxSpan(span - 1) ==> Left(g, end, span + 1, true) == Left(g, end, span, begun) - 2 && Left(g, end, span, begun) >= 3
  {
    g.IxSpanMonotone(span, end - 1);
    if begun {
      g.IxSpanStep(span - 1);
    }
  }

  lemma LeftOne(g: Geometry, end: nat, span: nat)
    requires g.Ok() && 1 <= span <= end
    ensures Left(g, end, span, true) >= 1
  {
    g.IxSpanMonotone(span - 1, end - 1);
  }

  lemma StillHolding(v: Vals, v': Vals, k: Key)
    requires SameIndexPages(v.d.cat, v'.d.cat) && SameBodies(v.d.store, v'.d.store) && k.ix && k in v.d.cat && k in v.d.store
    requires v.work.Index? && SameMeta(v'.work, v.work) && SameMeta(v.work, v.d.store[k])
    ensures k in v'.d.cat && v'.d.cat[k] == v.d.cat[k] && k in v'.d.store && SameMeta(v'.work, v'.d.store[k])
  {
  }

  lemma StartSpan(g: Geometry, offset: nat, len: nat)
    requires g.Ok() && len > 0
    ensures g.PageOf(offset) < g.Pages(offset + len)
    ensures Left(g, g.Pages(offset + len), g.PageOf(offset), false) >= 2
  {
    g.PageOfBounds(offset);
    g.PagesBounds(offset + len, g.PageOf(offset));
    g.IxSpanMonotone(g.PageOf(offset), g.Pages(offset + len) - 1);
  }

  lemma LogBegins(g: Geometry, log: seq<Flash>, files0: map<nat, File>, files1: map<nat, File>)
    requires g.Ok()
    ensures LogImages(g, log, log, files0, files1)
  {
  }

  /** What is written after the space check does not undo what the log shows of it. */
  lemma LaterImages(g: Geometry, l: map<Pix, Entry>, wear: (seq<nat>, nat), log0: seq<Flash>, log1: seq<Flash>, log2: seq<Flash>,
                    files0: map<nat, File>, files1: map<nat, File>)
    requires g.Ok() && LogImages(g, log0, log1, files0, files1) && LogImages(g, log1, log2, files0, files1)
    ensures LogImages(g, log0, log2, files0, files1)
    ensures Tried(g, l, wear, log0, log1) ==> Tried(g, l, wear, log0, log2)
  {
    hide ImagesOk, Tried;
    forall i | |log0| <= i < |log2|
      ensures ImagesOk(g, log2[i], files0, files1)
    {
      assert i < |log1| ==> log2[i] == log1[i];
    }
    if Tried(g, l, wear, log0, log1) {
      TriedLonger(g, l, wear, log0, log1, log2);
    }
  }

  lemma Collected(g: Geometry, v: Vals, log0: seq<Flash>, log: seq<Flash>, files1: map<nat, File>)
    requires g.Ok() && LogicOk(g, v, None, None) && LogSafe(log0, log, v.d.store)
    ensures LogImages(g, log0, log, v.files, files1)
  {
    CollectedImages(g, log0, log, v.d.store, None, v.files, files1);
  }

  lemma SameFdsAt(a: seq<Fd>, b: seq<Fd>, h: nat)
    requires SameFds(a, b) && h < |a|
    ensures |b| == |a| && b[h].open == a[h].open && b[h].id == a[h].id
  {
  }

  lemma WorkedNothing(g: Geometry, files: map<nat, File>, id: nat, offset: nat, data: seq<Byte>, files1: map<nat, File>)
    requires g.Ok() && id in files && offset <= |files[id].bytes|
    ensures Partly(files, id, offset, data, 0) == files && OldOrNew(g, files, files, files1)
  {
    assert Written(files[id].bytes, offset, data[..0]) == files[id].bytes;
  }
}
