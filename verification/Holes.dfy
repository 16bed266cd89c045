/** Appending in all cases (spiffs_object_append). An offset past the end is brought back to the size of the
    file, but not where that size is undefined: there the code leaves a hole. */
module Holes {
  import opened Options
  import opened Layout
  import opened Catalog
  import opened Files
  import opened Store
  import opened Tally
  import opened Gc
  import opened Collect
  import opened Content
  import opened Steps
  import opened Objects
  import opened Appending

  // ----- broken files -----

  /** The file system would be valid with some files. */
  ghost predicate Mendable(g: Geometry, v: Vals)
    requires g.Ok()
  {
    exists files: map<nat, File> :: LogicOk(g, v.(files := files), None, None)
  }

  /** The stored header of file `id`, at `pix`, has no entry for the first data page. */
  ghost predicate Headless(d: Dir, id: nat, pix: Pix) {
    var k := Key(id, true, 0);
    k in d.cat && d.cat[k] == pix && k in d.store && d.store[k].Index? && d.store[k].ix != [] && d.store[k].ix[0] == None
  }

  /** Something says that the file is not empty: the size in the header, a data page, or a descriptor. */
  ghost predicate Grew(v: Vals, id: nat, h: nat) {
    || (Key(id, true, 0) in v.d.store && v.d.store[Key(id, true, 0)].Index? && v.d.store[Key(id, true, 0)].size.GetOr(0) > 0)
    || (exists k :: k in v.d.store && k.id == id && !k.ix)
    || (h < |v.fds| && v.fds[h].open && v.fds[h].id == id && v.fds[h].size.GetOr(0) > 0)
  }

  /** A file without a first page is empty. */
  lemma HeadlessIsEmpty(g: Geometry, v: Vals, id: nat, h: nat, pix: Pix)
    requires g.Ok() && LogicOk(g, v, None, None) && Headless(v.d, id, pix)
    ensures !Grew(v, id, h)
  {
    var k := Key(id, true, 0);
    assert IxFits(g, v.d.cat, k, v.d.store[k]);
    assert BodyOk(g, k, v.d.store[k], v.files[id], false);
    assert Lookup(v.d.cat, Key(id, false, g.Base(0) + 0)) == None;
    assert v.files[id].bytes == [];
    if h < |v.fds| && v.fds[h].open && v.fds[h].id == id {
      assert FdOk(v.fds[h], v.d.cat, v.files, None);
    }
  }

  /** A file that is not empty and has no first page is no file. */
  lemma NotMendable(g: Geometry, v: Vals, id: nat, h: nat, pix: Pix)
    requires g.Ok() && Headless(v.d, id, pix) && Grew(v, id, h)
    ensures !Mendable(g, v)
  {
    forall files: map<nat, File>
      ensures !LogicOk(g, v.(files := files), None, None)
    {
      if LogicOk(g, v.(files := files), None, None) {
        HeadlessIsEmpty(g, v.(files := files), id, h, pix);
      }
    }
  }

  // ----- the other files -----

  /** The pages of other objects are the same. */
  ghost predicate Others(a: Dir, b: Dir, id: nat) {
    && a.removing == b.removing
    && forall k: Key | k.id != id ::
         (k in a.cat <==> k in b.cat) && (k in a.cat ==> a.cat[k] == b.cat[k]) &&
         (k in a.store <==> k in b.store) && (k in a.store ==> a.store[k] == b.store[k])
  }

  /** Since `log0`, with directory `d0`, only file `id`, which was empty, has been worked on. */
  ghost predicate Aside(g: Geometry, id: nat, d0: Dir, log0: seq<Flash>, files0: map<nat, File>, files1: map<nat, File>, d: Dir, log: seq<Flash>)
    requires g.Ok()
  {
    Others(d0, d, id) && LogImages(g, log0, log, files0, files1)
  }

  /** What the other files were. */
  ghost predicate Before(g: Geometry, id: nat, d0: Dir, files0: map<nat, File>)
    requires g.Ok()
  {
    d0.store.Keys == d0.cat.Keys && FilesOk(g, d0.store, files0, None) && id in files0 && files0[id].bytes == []
  }

  lemma OthersShown(g: Geometry, f: Flash, id: nat, d0: Dir, d: Dir, files0: map<nat, File>, files1: map<nat, File>)
    requires g.Ok() && Before(g, id, d0, files0) && Others(d0, d, id) && Holds(f, d)
    ensures ImagesOk(g, f, files0, files1)
  {
    forall i, k: nat | HasSpan(g, files0, i, k)
      ensures Shown(f, Key(i, false, k), ImageOf(g, files0, i, k))
    {
      var j := Key(i, false, k);
      assert i != id && j in d0.store && d0.store[j] == ImageOf(g, files0, i, k);
      assert j in d.cat && j in d.store;
      assert f.lu[d.cat[j]] == Live(i, false) && f.page[d.cat[j]] == Page(HeaderOf(j, None), d.store[j]);
    }
  }

  /** A step on the pages of file `id`. */
  lemma AsideStep(g: Geometry, id: nat, d0: Dir, log0: seq<Flash>, files0: map<nat, File>, files1: map<nat, File>,
                  d1: Dir, log1: seq<Flash>, d2: Dir, log2: seq<Flash>)
    requires g.Ok() && Before(g, id, d0, files0) && Aside(g, id, d0, log0, files0, files1, d1, log1)
    requires Others(d1, d2, id) && Extends(log1, log2) && Survives(log2, |log1|, d1, d2)
    ensures Aside(g, id, d0, log0, files0, files1, d2, log2)
  {
    OthersChain(d0, d1, d2, id);
    hide Before, Others, Holds, ImagesOk;
    forall i | |log0| <= i < |log2|
      ensures ImagesOk(g, log2[i], files0, files1)
    {
      if i < |log1| {
        assert log2[i] == log1[i];
      } else if Holds(log2[i], d1) {
        OthersShown(g, log2[i], id, d0, d1, files0, files1);
      } else {
        OthersShown(g, log2[i], id, d0, d2, files0, files1);
      }
    }
  }

  /** A step that has failed. */
  lemma AsideFailed(g: Geometry, id: nat, d0: Dir, log0: seq<Flash>, files0: map<nat, File>, files1: map<nat, File>,
                    d1: Dir, log1: seq<Flash>, d2: Dir, log2: seq<Flash>)
    requires g.Ok() && Before(g, id, d0, files0) && Aside(g, id, d0, log0, files0, files1, d1, log1)
    requires d2 == d1.(fill := d2.fill) && Extends(log1, log2) && Survives(log2, |log1|, d1, d1)
    ensures Aside(g, id, d0, log0, files0, files1, d2, log2)
  {
    hide Before, Survives, Extends, LogImages;
    AsideStep(g, id, d0, log0, files0, files1, d1, log1, d1, log2);
  }

  lemma OthersChain(a: Dir, b: Dir, c: Dir, id: nat)
    requires Others(a, b, id) && Others(b, c, id)
    ensures Others(a, c, id)
  {
  }

  lemma OthersWith(d: Dir, k: Key, p: Pix, body: Body, fill: seq<nat>)
    ensures Others(d, With(d, k, p, body).(fill := fill), k.id) && Others(d, d.(fill := fill), k.id)
  {
  }

  // ----- appending behind a hole -----

  /** File `id` of descriptor `h` has lost its beginning: no page of it comes after data span `span` or
      index span `s`. */
  ghost predicate Holed(g: Geometry, v: Vals, h: nat, id: nat, s: nat, span: nat)
  {
    && h < |v.fds| && v.fds[h].open && v.fds[h].id == id && Headless(v.d, id, v.fds[h].hdrPix)
    && v.d.removing == None && v.d.store.Keys == v.d.cat.Keys
    && forall k | k in v.d.cat && k.id == id :: if k.ix then k.span <= s else k.span < span
  }

  /** Its index page `s`, at `pix`, is in the work buffer. */
  ghost predicate Dug(g: Geometry, v: Vals, h: nat, id: nat, s: nat, pix: Pix, span: nat)
  {
    && Holed(g, v, h, id, s, span)
    && Key(id, true, s) in v.d.cat && v.d.cat[Key(id, true, s)] == pix
    && v.work.Index? && |v.work.ix| == g.IxLen(s)
    && if s == 0 then v.work.ix != [] && v.work.ix[0] == None
       else v.d.store[Key(id, true, s)] == BlankIndex(g, s) && v.work.name == "" && v.work.size == None
  }

  lemma DugPage(g: Geometry, v: Vals, v': Vals, h: nat, id: nat, pix: Pix, span: nat, p: Pix, body: Body, size: Option<nat>)
    requires g.Ok() && span >= 1 && Dug(g, v, h, id, g.IxSpan(span), pix, span)
    requires v'.d == With(v.d, Key(id, false, span), p, body).(fill := v'.d.fill) && v'.fds == v.fds
    requires g.IxSlot(span) < g.IxLen(g.IxSpan(span)) ==> v'.work == Noted(v.work, g.IxSpan(span), g.IxSlot(span), p, size)
    ensures g.IxSlot(span) < g.IxLen(g.IxSpan(span))
    ensures Dug(g, v', h, id, g.IxSpan(span), pix, span + 1)
    ensures Others(v.d, v'.d, id) && Key(id, false, span) in v'.d.store
  {
    g.SlotBounds(span);
    assert v'.d.store.Keys == v.d.store.Keys + {Key(id, false, span)};
  }

  lemma DugFailed(g: Geometry, v: Vals, v': Vals, h: nat, id: nat, s: nat, pix: Pix, span: nat)
    requires Dug(g, v, h, id, s, pix, span) && v'.d == v.d.(fill := v'.d.fill) && v'.work == v.work && v'.fds == v.fds
    ensures Dug(g, v', h, id, s, pix, span) && Others(v.d, v'.d, id)
  {
  }

  lemma DugFresh(g: Geometry, v: Vals, h: nat, id: nat, s: nat, pix: Pix, span: nat)
    requires g.Ok() && Dug(g, v, h, id, s, pix, span)
    ensures Key(id, false, span) !in v.d.cat && v.d.removing == None && v.work.Index? && |v.work.ix| == g.IxLen(s)
  {
  }

  /** Writes the next data page, and notes it in the index page at hand. */
  method DigPage(fs: Spiffs, h: nat, id: nat, span: nat, chunk: seq<Byte>, pix: Pix, total: nat,
                 ghost d0: Dir, ghost log0: seq<Flash>, ghost files0: map<nat, File>, ghost files1: map<nat, File>)
    returns (res: Status)
    requires fs.Phys() && !fs.cleaning && span >= 1 && Dug(fs.g, fs.Now(), h, id, fs.g.IxSpan(span), pix, span)
    requires chunk != [] && |chunk| <= fs.g.dataSize
    requires Before(fs.g, id, d0, files0) && Aside(fs.g, id, d0, log0, files0, files1, fs.dir, fs.log)
    modifies fs`flash, fs`freeBlocks, fs`pAllocated, fs`pDeleted, fs`eraseCount, fs`maxErase, fs`dir, fs`log, fs`freeCursor, fs`work
    ensures fs.Phys() && Aside(fs.g, id, d0, log0, files0, files1, fs.dir, fs.log)
    ensures Dug(fs.g, fs.Now(), h, id, fs.g.IxSpan(span), pix, if res.Ok? then span + 1 else span)
    ensures res.Ok? ==> Key(id, false, span) in fs.dir.store
    ensures forall k | k in old(fs.dir.store) :: k in fs.dir.store
    ensures old(Credit(fs.g, fs.Now(), 0)) ==> res.Ok?
    ensures fs.pAllocated + fs.pDeleted <= old(fs.pAllocated + fs.pDeleted) + 1
    ensures fs.freeBlocks >= old(fs.freeBlocks) - 1
    ensures old(Settled(fs.g, fs.dir.fill, fs.freeCursor, None)) ==> Settled(fs.g, fs.dir.fill, fs.freeCursor, None)
  {
    hide PhysOk, Aside, Before, Others, Survives, Extends, Settled, Credit, NewPage, Dug;
    ghost var g, v, log1 := fs.g, fs.Now(), fs.log;
    if Credit(g, v, 0) {
      CreditRoom(g, v, 0);
    }
    DugFresh(g, v, h, id, g.IxSpan(span), pix, span);
    var hdr := Header(Live(id, false), span, Flags(true, false, true, true, true));
    ghost var body := NewPage(g, hdr, chunk, true).body;
    NewHeader(g, id, span, chunk);
    var p;
    res, p := AllocateKey(fs, Key(id, false, span), hdr, chunk, body);
    if res.Ok? {
      g.SlotBounds(span);
      fs.work := Noted(fs.work, fs.g.IxSpan(span), fs.g.IxSlot(span), p, Some(total));
      DugPage(g, v, fs.Now(), h, id, pix, span, p, body, Some(total));
      AsideStep(g, id, d0, log0, files0, files1, v.d, log1, fs.dir, fs.log);
    } else {
      DugFailed(g, v, fs.Now(), h, id, g.IxSpan(span), pix, span);
      AsideFailed(g, id, d0, log0, files0, files1, v.d, log1, fs.dir, fs.log);
    }
  }

  lemma NewHeader(g: Geometry, id: nat, span: nat, chunk: seq<Byte>)
    requires |chunk| <= g.dataSize
    ensures NewPage(g, Header(Live(id, false), span, Flags(true, false, true, true, true)), chunk, true).hdr == HeaderOf(Key(id, false, span), None)
  {
  }

  /** The index page at hand has been written in place. */
  lemma DugStored(g: Geometry, v: Vals, v': Vals, h: nat, id: nat, s: nat, pix: Pix, span: nat)
    requires g.Ok() && s != 0 && Dug(g, v, h, id, s, pix, span)
    requires v'.d == v.d.(store := v.d.store[Key(id, true, s) := v.work])
    requires |v'.fds| == |v.fds| && forall i | 0 <= i < |v.fds| :: v'.fds[i] == Notified(v.fds[i], Update, id, s, pix, Keep)
    ensures Holed(g, v', h, id, s, span) && Others(v.d, v'.d, id) && SameFds(v.fds, v'.fds)
    ensures Programmable(v.d.store[Key(id, true, s)], v.work)
  {
  }

  /** The header has got a new place and a size. */
  lemma HeadMoved(g: Geometry, v: Vals, v': Vals, h: nat, id: nat, s: nat, span: nat, dst: Pix, body: Body, size: SizeArg)
    requires Holed(g, v, h, id, s, span) && body.Index? && body.ix != [] && body.ix[0] == None
    requires v'.d == With(v.d, Key(id, true, 0), dst, body).(fill := v'.d.fill)
    requires |v'.fds| == |v.fds| && forall i | 0 <= i < |v.fds| :: v'.fds[i] == Notified(v.fds[i], Update, id, 0, dst, size)
    ensures Holed(g, v', h, id, s, span) && Others(v.d, v'.d, id) && SameFds(v.fds, v'.fds)
    ensures v'.d.store.Keys == v.d.store.Keys && v'.d.store[Key(id, true, 0)] == body
  {
  }

  lemma HeadStays(g: Geometry, v: Vals, v': Vals, h: nat, id: nat, s: nat, span: nat)
    requires Holed(g, v, h, id, s, span) && v'.d == v.d.(fill := v'.d.fill) && v'.fds == v.fds
    ensures Holed(g, v', h, id, s, span)
  {
  }

  /** The header of a file with a hole gets a size, and if it is at hand its new entries. */
  method StoreHead(fs: Spiffs, h: nat, id: nat, load: bool, total: nat, ghost s: nat, ghost span: nat,
                   ghost d0: Dir, ghost log0: seq<Flash>, ghost files0: map<nat, File>, ghost files1: map<nat, File>)
    returns (res: Status)
    requires fs.Phys() && !fs.cleaning && Holed(fs.g, fs.Now(), h, id, s, span)
    requires !load ==> fs.work.Index? && fs.work.ix != [] && fs.work.ix[0] == None
    requires Before(fs.g, id, d0, files0) && Aside(fs.g, id, d0, log0, files0, files1, fs.dir, fs.log)
    modifies fs`flash, fs`freeBlocks, fs`pAllocated, fs`pDeleted, fs`eraseCount, fs`maxErase, fs`dir, fs`log, fs`freeCursor, fs`work, fs`fds
    ensures fs.Phys() && Aside(fs.g, id, d0, log0, files0, files1, fs.dir, fs.log) && SameFds(old(fs.fds), fs.fds)
    ensures Holed(fs.g, fs.Now(), h, id, s, span) && fs.dir.store.Keys == old(fs.dir.store).Keys
    ensures res.Ok? ==> Key(id, true, 0) in fs.dir.store && fs.dir.store[Key(id, true, 0)].Index? && fs.dir.store[Key(id, true, 0)].size == Some(total)
    ensures res.Ok? && !load ==> old(fs.work).Index? && fs.dir.store[Key(id, true, 0)].ix == old(fs.work).ix
    ensures forall k | k in old(fs.dir.store) && k != Key(id, true, 0) :: k in fs.dir.store && fs.dir.store[k] == old(fs.dir.store)[k]
    ensures !res.Ok? ==> fs.fds == old(fs.fds)
    ensures old(Credit(fs.g, fs.Now(), 0)) ==> res.Ok?
    ensures fs.pAllocated + fs.pDeleted <= old(fs.pAllocated + fs.pDeleted) + 1
    ensures fs.freeBlocks >= old(fs.freeBlocks) - 1
    ensures old(Settled(fs.g, fs.dir.fill, fs.freeCursor, None)) ==> Settled(fs.g, fs.dir.fill, fs.freeCursor, None)
  {
    hide PhysOk, Aside, Before, Others, Survives, Extends, Settled, Credit, Notified, SameFds;
    ghost var g, v, log1 := fs.g, fs.Now(), fs.log;
    if Credit(g, v, 0) {
      CreditRoom(g, v, 0);
    }
    EqualFds(v.fds);
    ghost var body := Resized(if load then fs.dir.store[Key(id, true, 0)] else fs.work, SizeIs(Some(total)));
    var dst;
    res, dst := RelocateIndex(fs, id, 0, fs.fds[h].hdrPix, load, SizeIs(Some(total)), body);
    if res.Ok? {
      HeadMoved(g, v, fs.Now(), h, id, s, span, dst, body, SizeIs(body.size));
      AsideStep(g, id, d0, log0, files0, files1, v.d, log1, fs.dir, fs.log);
    } else {
      HeadStays(g, v, fs.Now(), h, id, s, span);
      AsideFailed(g, id, d0, log0, files0, files1, v.d, log1, fs.dir, fs.log);
    }
  }

  /** Writes index page `s`, which is at hand and is not the header, in place. */
  method StoreEntries(fs: Spiffs, h: nat, id: nat, s: nat, pix: Pix, ghost span: nat,
                      ghost d0: Dir, ghost log0: seq<Flash>, ghost files0: map<nat, File>, ghost files1: map<nat, File>)
    requires fs.Phys() && s != 0 && Dug(fs.g, fs.Now(), h, id, s, pix, span)
    requires Before(fs.g, id, d0, files0) && Aside(fs.g, id, d0, log0, files0, files1, fs.dir, fs.log)
    modifies fs`flash, fs`dir, fs`log, fs`fds
    ensures fs.Phys() && Aside(fs.g, id, d0, log0, files0, files1, fs.dir, fs.log) && SameFds(old(fs.fds), fs.fds)
    ensures Holed(fs.g, fs.Now(), h, id, s, span) && fs.dir.store.Keys == old(fs.dir.store).Keys && fs.dir.fill == old(fs.dir.fill)
    ensures h < |old(fs.fds)| && fs.fds[h].size == old(fs.fds)[h].size
    ensures Key(id, true, s) in fs.dir.store && fs.dir.store[Key(id, true, s)] == fs.work
  {
    hide PhysOk, Aside, Before, Others, Survives, Extends, Notified, SameFds, Programmable, Holds, Dug;
    ghost var g, v, log1, k := fs.g, fs.Now(), fs.log, Key(id, true, s);
    DugFacts(g, v, h, id, s, pix, span);
    DugProgrammable(g, v, h, id, s, pix, span);
    LiveIn(g, v.f, v.d, v.c, v.n, None, k);
    assert IndexCheck(fs.flash, pix, s).Ok?;
    fs.RewritePage(pix, fs.work, k);
    ghost var f := fs.flash;
    fs.Notify(Update, id, s, pix, Keep);
    DugStored(g, v, fs.Now(), h, id, s, pix, span);
    SizeKept(v.fds, fs.fds, h, id, s, pix);
    OneWrite(log1, f, v.d, fs.dir);
    AsideStep(g, id, d0, log0, files0, files1, v.d, log1, fs.dir, fs.log);
  }

  /** Stores the index page at hand, and the size `total` in the header. */
  method StoreDug(fs: Spiffs, h: nat, id: nat, s: nat, pix: Pix, total: nat, ghost span: nat,
                  ghost d0: Dir, ghost log0: seq<Flash>, ghost files0: map<nat, File>, ghost files1: map<nat, File>)
    returns (res: Status)
    requires fs.Phys() && !fs.cleaning && Dug(fs.g, fs.Now(), h, id, s, pix, span)
    requires Before(fs.g, id, d0, files0) && Aside(fs.g, id, d0, log0, files0, files1, fs.dir, fs.log)
    modifies fs`flash, fs`freeBlocks, fs`pAllocated, fs`pDeleted, fs`eraseCount, fs`maxErase, fs`dir, fs`log, fs`freeCursor, fs`work, fs`fds
    ensures fs.Phys() && Aside(fs.g, id, d0, log0, files0, files1, fs.dir, fs.log) && SameFds(old(fs.fds), fs.fds)
    ensures Holed(fs.g, fs.Now(), h, id, s, span) && fs.dir.store.Keys == old(fs.dir.store).Keys
    ensures res.Ok? ==> Key(id, true, 0) in fs.dir.store && fs.dir.store[Key(id, true, 0)].Index? && fs.dir.store[Key(id, true, 0)].size == Some(total)
    ensures h < |old(fs.fds)| && (!res.Ok? ==> fs.fds[h].size == old(fs.fds)[h].size)
    ensures res.Ok? ==> Key(id, true, s) in fs.dir.store && fs.dir.store[Key(id, true, s)].Index? && old(fs.work).Index?
                        && fs.dir.store[Key(id, true, s)].ix == old(fs.work).ix
    ensures old(Credit(fs.g, fs.Now(), 0)) ==> res.Ok?
    ensures fs.pAllocated + fs.pDeleted <= old(fs.pAllocated + fs.pDeleted) + 1
    ensures fs.freeBlocks >= old(fs.freeBlocks) - 1
    ensures old(Settled(fs.g, fs.dir.fill, fs.freeCursor, None)) ==> Settled(fs.g, fs.dir.fill, fs.freeCursor, None)
  {
    hide PhysOk, Aside, Before, Others, Survives, Extends, Settled, FreeQuota, Notified, SameFds, Programmable, Holds, Dug;
    ghost var g, v := fs.g, fs.Now();
    DugFacts(g, v, h, id, s, pix, span);
    EqualFds(v.fds);
    if s != 0 {
      StoreEntries(fs, h, id, s, pix, span, d0, log0, files0, files1);
    }
    ghost var fds := fs.fds;
    res := StoreHead(fs, h, id, s != 0, total, s, span, d0, log0, files0, files1);
    SameFdsChain(v.fds, fds, fs.fds);
  }

  lemma DugFacts(g: Geometry, v: Vals, h: nat, id: nat, s: nat, pix: Pix, span: nat)
    requires Dug(g, v, h, id, s, pix, span)
    ensures Holed(g, v, h, id, s, span) && h < |v.fds| && v.work.Index? && Key(id, true, s) in v.d.cat && v.d.cat[Key(id, true, s)] == pix
    ensures Key(id, true, s) in v.d.store && v.d.removing == None && (s == 0 ==> v.work.ix != [] && v.work.ix[0] == None)
    ensures Headless(v.d, id, v.fds[h].hdrPix)
  {
  }

  lemma DugProgrammable(g: Geometry, v: Vals, h: nat, id: nat, s: nat, pix: Pix, span: nat)
    requires s != 0 && Dug(g, v, h, id, s, pix, span)
    ensures Key(id, true, s) in v.d.store && Programmable(v.d.store[Key(id, true, s)], v.work)
  {
  }

  lemma SizeKept(a: seq<Fd>, b: seq<Fd>, h: nat, id: nat, s: nat, pix: Pix)
    requires s != 0 && h < |a| == |b| && b[h] == Notified(a[h], Update, id, s, pix, Keep)
    ensures b[h].size == a[h].size
  {
  }

  /** Creates index page `s`, the next one. */
  method NextDug(fs: Spiffs, h: nat, id: nat, s: nat, ghost span: nat,
                 ghost d0: Dir, ghost log0: seq<Flash>, ghost files0: map<nat, File>, ghost files1: map<nat, File>)
    returns (res: Status, pix: Pix)
    requires fs.Phys() && !fs.cleaning && s >= 1 && Holed(fs.g, fs.Now(), h, id, s - 1, span)
    requires Before(fs.g, id, d0, files0) && Aside(fs.g, id, d0, log0, files0, files1, fs.dir, fs.log)
    modifies fs`flash, fs`freeBlocks, fs`pAllocated, fs`pDeleted, fs`eraseCount, fs`maxErase, fs`dir, fs`log, fs`freeCursor, fs`work, fs`fds
    ensures fs.Phys() && Aside(fs.g, id, d0, log0, files0, files1, fs.dir, fs.log) && SameFds(old(fs.fds), fs.fds)
    ensures res.Ok? ==> Dug(fs.g, fs.Now(), h, id, s, pix, span)
    ensures !res.Ok? ==> Holed(fs.g, fs.Now(), h, id, s - 1, span)
    ensures forall k | k in old(fs.dir.store) :: k in fs.dir.store
    ensures old(Credit(fs.g, fs.Now(), 0)) ==> res.Ok?
    ensures fs.pAllocated + fs.pDeleted <= old(fs.pAllocated + fs.pDeleted) + 1
    ensures fs.freeBlocks >= old(fs.freeBlocks) - 1
    ensures old(Settled(fs.g, fs.dir.fill, fs.freeCursor, None)) ==> Settled(fs.g, fs.dir.fill, fs.freeCursor, None)
  {
    hide PhysOk, Aside, Before, Others, Survives, Extends, Settled, Credit, Notified, SameFds, NewPage, HeaderOf, BlankIndex;
    ghost var g, v, log1, k := fs.g, fs.Now(), fs.log, Key(id, true, s);
    if Credit(g, v, 0) {
      CreditRoom(g, v, 0);
    }
    EqualFds(v.fds);
    FreshIndex(g, id, s);
    res, pix := AllocateKey(fs, k, Header(Live(id, true), s, Flags(true, false, false, true, true)), [], BlankIndex(fs.g, s));
    if !res.Ok? {
      HeadStays(g, v, fs.Now(), h, id, s - 1, span);
      AsideFailed(g, id, d0, log0, files0, files1, v.d, log1, fs.dir, fs.log);
      return;
    }
    fs.work := BlankIndex(fs.g, s);
    fs.Notify(New, id, s, pix, Keep);
    ghost var fds := fs.fds;
    DugNext(g, v, fs.Now(), h, id, s, pix, span);
    fs.fds := fs.fds[h := fs.fds[h].(curPix := Some(pix), curSpan := s)];
    CursorSet(g, fs.Now().(fds := fds), h, id, s, pix, span, pix, s, fds[h].size);
    SameFdsChain(v.fds, fds, fs.fds);
    AsideStep(g, id, d0, log0, files0, files1, v.d, log1, fs.dir, fs.log);
  }

  lemma DugNext(g: Geometry, v: Vals, v': Vals, h: nat, id: nat, s: nat, pix: Pix, span: nat)
    requires g.Ok() && s >= 1 && Holed(g, v, h, id, s - 1, span)
    requires v'.work == BlankIndex(g, s) && v'.d == With(v.d, Key(id, true, s), pix, BlankIndex(g, s)).(fill := v'.d.fill)
    requires |v'.fds| == |v.fds| && forall i | 0 <= i < |v.fds| :: v'.fds[i] == Notified(v.fds[i], New, id, s, pix, Keep)
    ensures Dug(g, v', h, id, s, pix, span) && Others(v.d, v'.d, id) && SameFds(v.fds, v'.fds)
  {
  }

  lemma CursorSet(g: Geometry, v: Vals, h: nat, id: nat, s: nat, pix: Pix, span: nat, curPix: Pix, curSpan: nat, size: Option<nat>)
    requires Dug(g, v, h, id, s, pix, span)
    ensures h < |v.fds|
    ensures var fds := v.fds[h := v.fds[h].(curPix := Some(curPix), curSpan := curSpan, size := size)];
            Dug(g, v.(fds := fds), h, id, s, pix, span) && SameFds(v.fds, fds)
  {
  }

  /** Data spans and index spans of the next round. */
  lemma NextSpan(g: Geometry, offset: nat, len: nat, written: nat, span: nat, n: nat)
    requires g.Ok() && g.Start(span) == offset + written && written < len
    requires n == if len - written < g.dataSize then len - written else g.dataSize
    ensures written + n < len ==> g.Start(span + 1) == offset + written + n && span + 1 < g.Pages(offset + len)
    ensures span < g.Pages(offset + len)
  {
    g.PagesBounds(offset + len, span);
    g.PagesBounds(offset + len, span + 1);
  }

  /** Makes the index page for data span `span` the one at hand, storing the one before it. */
  method SwitchDug(fs: Spiffs, h: nat, id: nat, total: nat, span: nat, pix0: Pix,
                   ghost d0: Dir, ghost log0: seq<Flash>, ghost files0: map<nat, File>, ghost files1: map<nat, File>)
    returns (res: Status, pix: Pix)
    requires fs.g.Ok() && fs.Phys() && !fs.cleaning && span >= 1 && fs.g.IxSpan(span) != fs.g.IxSpan(span - 1)
    requires Dug(fs.g, fs.Now(), h, id, fs.g.IxSpan(span - 1), pix0, span)
    requires Before(fs.g, id, d0, files0) && Aside(fs.g, id, d0, log0, files0, files1, fs.dir, fs.log)
    modifies fs`flash, fs`freeBlocks, fs`pAllocated, fs`pDeleted, fs`eraseCount, fs`maxErase, fs`dir, fs`log, fs`freeCursor, fs`work, fs`fds
    ensures fs.Phys() && Aside(fs.g, id, d0, log0, files0, files1, fs.dir, fs.log) && SameFds(old(fs.fds), fs.fds)
    ensures res.Ok? ==> Dug(fs.g, fs.Now(), h, id, fs.g.IxSpan(span), pix, span)
    ensures !res.Ok? ==> h < |fs.fds| && Headless(fs.dir, id, fs.fds[h].hdrPix)
    ensures forall k | k in old(fs.dir.store) :: k in fs.dir.store
    ensures old(Credit(fs.g, fs.Now(), 1)) ==> res.Ok?
    ensures fs.pAllocated + fs.pDeleted <= old(fs.pAllocated + fs.pDeleted) + 2
    ensures fs.freeBlocks >= old(fs.freeBlocks) - 2
    ensures old(Settled(fs.g, fs.dir.fill, fs.freeCursor, None)) ==> Settled(fs.g, fs.dir.fill, fs.freeCursor, None)
  {
    hide PhysOk, Aside, Before, Settled, Credit, SameFds, Dug;
    ghost var g, v, s := fs.g, fs.Now(), fs.g.IxSpan(span);
    g.IxSpanStep(span - 1);
    if Credit(g, v, 1) {
      CreditAtLeast(g, v, 1, 0);
    }
    pix := pix0;
    res := StoreDug(fs, h, id, fs.g.IxSpan(span - 1), pix0, total, span, d0, log0, files0, files1);
    if !res.Ok? {
      return;
    }
    if Credit(g, v, 1) {
      CreditLeft(g, v, fs.Now(), 1, 1);
    }
    ghost var fds := fs.fds;
    SizeSet(g, fs.Now(), h, id, s - 1, span, Some(total));
    fs.fds := fs.fds[h := fs.fds[h].(size := Some(total))];
    ghost var fds1 := fs.fds;
    SameFdsChain(v.fds, fds, fds1);
    if Credit(g, v, 1) {
      CreditLeft(g, fs.Now().(fds := fds), fs.Now(), 0, 0);
    }
    res, pix := NextDug(fs, h, id, fs.g.IxSpan(span), span, d0, log0, files0, files1);
    SameFdsChain(v.fds, fds1, fs.fds);
  }

  lemma SizeSet(g: Geometry, v: Vals, h: nat, id: nat, s: nat, span: nat, size: Option<nat>)
    requires Holed(g, v, h, id, s, span)
    ensures var fds := v.fds[h := v.fds[h].(size := size)];
            Holed(g, v.(fds := fds), h, id, s, span) && SameFds(v.fds, fds)
  {
  }

  /** One round of appending behind a hole. */
  method DigRound(fs: Spiffs, h: nat, id: nat, offset: nat, data: seq<Byte>, written: nat, span: nat, pix0: Pix,
                  ghost d0: Dir, ghost log0: seq<Flash>, ghost files0: map<nat, File>, ghost files1: map<nat, File>, ghost m: int)
    returns (res: Status, n: nat, pix: Pix, fatal: bool)
    requires fs.g.Ok() && fs.Phys() && !fs.cleaning && span >= 1 && written < |data| && fs.g.Start(span) == offset + written
    requires Dug(fs.g, fs.Now(), h, id, if written > 0 then fs.g.IxSpan(span - 1) else fs.g.IxSpan(span), pix0, span)
    requires Before(fs.g, id, d0, files0) && Aside(fs.g, id, d0, log0, files0, files1, fs.dir, fs.log)
    modifies fs`flash, fs`freeBlocks, fs`pAllocated, fs`pDeleted, fs`eraseCount, fs`maxErase, fs`dir, fs`log, fs`freeCursor, fs`work, fs`fds
    ensures fs.Phys() && Aside(fs.g, id, d0, log0, files0, files1, fs.dir, fs.log) && SameFds(old(fs.fds), fs.fds)
    ensures n == if |data| - written < fs.g.dataSize then |data| - written else fs.g.dataSize
    ensures fatal ==> !res.Ok? && written > 0 && h < |fs.fds| && Headless(fs.dir, id, fs.fds[h].hdrPix)
    ensures !fatal ==> Dug(fs.g, fs.Now(), h, id, fs.g.IxSpan(span), pix, if res.Ok? then span + 1 else span)
    ensures res.Ok? ==> Key(id, false, span) in fs.dir.store
    ensures forall k | k in old(fs.dir.store) :: k in fs.dir.store
    ensures var cost := Cost(fs.g, span, 0, if written > 0 then Some(fs.g.IxSpan(span - 1)) else None);
            old(Credit(fs.g, fs.Now(), m)) && m >= cost - 1 ==> res.Ok? && Credit(fs.g, fs.Now(), m - cost)
  {
    hide PhysOk, Aside, Before, Settled, Credit, SameFds, Dug, Headless, Geometry.IxSpan, Geometry.Start;
    ghost var g, v := fs.g, fs.Now();
    ghost var cost := Cost(g, span, 0, if written > 0 then Some(g.IxSpan(span - 1)) else None);
    ghost var ample := Credit(g, v, m) && m >= cost - 1;
    fatal, pix := false, pix0;
    EqualFds(fs.fds);
    n := if |data| - written < fs.g.dataSize then |data| - written else fs.g.dataSize;
    ghost var spent := 0;
    if written > 0 && fs.g.IxSpan(span) != fs.g.IxSpan(span - 1) {
      if ample {
        CreditAtLeast(g, v, m, 1);
      }
      res, pix := SwitchDug(fs, h, id, offset + written, span, pix0, d0, log0, files0, files1);
      if !res.Ok? {
        fatal := true;
        return;
      }
      spent := 2;
    }
    ghost var v1 := fs.Now();
    if ample {
      CreditLeft(g, v, v1, m, spent);
      CreditAtLeast(g, v1, m - spent, 0);
    }
    res := DigPage(fs, h, id, span, data[written..written + n], pix, offset + written, d0, log0, files0, files1);
    if ample {
      CreditLeft(g, v1, fs.Now(), m - spent, 1);
      CreditAtLeast(g, fs.Now(), m - spent - 1, m - cost);
    }
  }

  /** The rounds of appending behind a hole. The data reach the flash; unless the failure is `fatal`,
      index page `s` is at hand and not stored yet. */
  method DigRounds(fs: Spiffs, h: nat, id: nat, offset: nat, data: seq<Byte>, span0: nat,
                   ghost d0: Dir, ghost log0: seq<Flash>, ghost files0: map<nat, File>, ghost files1: map<nat, File>, ghost m: int)
    returns (res: Status, written: nat, s: nat, pix: Pix, fatal: bool, ghost end: nat)
    requires fs.g.Ok() && fs.Phys() && !fs.cleaning && span0 >= 1 && fs.g.Start(span0) == offset && fs.g.IxSpan(span0) == 0 && data != []
    requires span0 < fs.g.Pages(offset + |data|)
    requires h < |fs.fds| && Dug(fs.g, fs.Now(), h, id, 0, fs.fds[h].hdrPix, span0)
    requires Before(fs.g, id, d0, files0) && Aside(fs.g, id, d0, log0, files0, files1, fs.dir, fs.log)
    modifies fs`flash, fs`freeBlocks, fs`pAllocated, fs`pDeleted, fs`eraseCount, fs`maxErase, fs`dir, fs`log, fs`freeCursor, fs`work, fs`fds
    ensures fs.Phys() && Aside(fs.g, id, d0, log0, files0, files1, fs.dir, fs.log) && SameFds(old(fs.fds), fs.fds)
    ensures written <= |data| && (res.Ok? ==> written == |data|)
    ensures fatal ==> !res.Ok? && Key(id, false, span0) in fs.dir.store && h < |fs.fds| && Headless(fs.dir, id, fs.fds[h].hdrPix)
    ensures !fatal ==> Dug(fs.g, fs.Now(), h, id, s, pix, end)
    ensures var need := Needed(fs.g, fs.g.Pages(offset + |data|), span0, 0, false);
            old(Credit(fs.g, fs.Now(), m)) && m >= need - 1 ==> res.Ok? && Credit(fs.g, fs.Now(), m - need + 1)
  {
    hide PhysOk, Aside, Before, Settled, Credit, SameFds, Dug, Headless, Needed, Cost, Geometry.IxSpan, Geometry.Start, Geometry.Pages;
    ghost var g, fds0, last := fs.g, fs.fds, fs.g.Pages(offset + |data|);
    ghost var need := Needed(g, last, span0, 0, false);
    ghost var ample := Credit(g, fs.Now(), m) && m >= need - 1;
    EqualFds(fs.fds);
    var span := span0;
    res, written, fatal, s, pix, end := Ok, 0, false, 0, fs.fds[h].hdrPix, span0;
    while written < |data|
      invariant written <= |data| && span0 <= span <= last && res.Ok? && !fatal && end == span
      invariant fs.Phys() && Aside(g, id, d0, log0, files0, files1, fs.dir, fs.log) && SameFds(fds0, fs.fds)
      invariant Dug(g, fs.Now(), h, id, s, pix, span)
      invariant if written == 0 then span == span0 && s == 0 else span > span0 && s == g.IxSpan(span - 1) && Key(id, false, span0) in fs.dir.store
      invariant written < |data| ==> g.Start(span) == offset + written && span < last
      invariant ample ==> Credit(g, fs.Now(), m - need + Needed(g, last, span, 0, written > 0))
      decreases |data| - written
    {
      ghost var fds, prev := fs.fds, if written > 0 then Some(g.IxSpan(span - 1)) else None;
      NeededSteps(g, last, span, 0, prev);
      var n;
      s := fs.g.IxSpan(span);
      ghost var have := m - need + Needed(g, last, span, 0, written > 0);
      if ample {
        NeededCovers(g, last, span, prev);
      }
      NextSpan(g, offset, |data|, written, span, if |data| - written < g.dataSize then |data| - written else g.dataSize);
      res, n, pix, fatal := DigRound(fs, h, id, offset, data, written, span, pix, d0, log0, files0, files1, have);
      SameFdsChain(fds0, fds, fs.fds);
      if fatal || !res.Ok? {
        return;
      }
      span := span + 1;
      end := span;
      written := written + n;
    }
    if ample {
      NeededOne(g, last, span, 0);
      CreditAtLeast(g, fs.Now(), m - need + Needed(g, last, span, 0, true), m - need + 1);
    }
  }

  lemma NeededCovers(g: Geometry, end: nat, span: nat, prev: Option<nat>)
    requires g.Ok() && span < end && (prev.Some? ==> span >= 1 && prev.value == g.IxSpan(span - 1))
    ensures Needed(g, end, span, 0, prev.Some?) >= Cost(g, span, 0, prev)
  {
    NeededSteps(g, end, span, 0, prev);
  }

  /** An empty file is a file with a hole as soon as it grows behind its beginning. */
  lemma HoleBegins(g: Geometry, v: Vals, h: nat, id: nat, span: nat)
    requires g.Ok() && LogicOk(g, v, None, None) && v.d.removing == None && span >= 1
    requires h < |v.fds| && v.fds[h].open && v.fds[h].id == id && id in v.files && v.files[id].bytes == []
    requires Key(id, true, 0) in v.d.store ==> v.work == v.d.store[Key(id, true, 0)]
    ensures Dug(g, v, h, id, 0, v.fds[h].hdrPix, span) && Before(g, id, v.d, v.files)
  {
    var k := Key(id, true, 0);
    assert FdOk(v.fds[h], v.d.cat, v.files, None);
    assert BodyOk(g, k, v.d.store[k], v.files[id], false);
    assert IxFits(g, v.d.cat, k, v.d.store[k]);
    assert Key(id, false, g.Base(0) + 0) !in v.d.store;
  }

  lemma WorkLoaded(g: Geometry, v: Vals, work: Body)
    requires g.Ok() && LogicOk(g, v, None, None)
    ensures LogicOk(g, v.(work := work), None, None)
  {
    WorkFree(g, v.d, v.work, work);
  }

  /** Offsets for which a file of undefined size gets a hole: those of pages that the header refers to. */
  predicate Aligned(g: Geometry, offset: nat)
    requires g.Ok()
  {
    offset % g.dataSize == 0 && g.IxSpan(g.PageOf(offset)) == 0
  }

  /** What the write of `len` bytes at `offset` leaves in the header of a file of undefined size: the size
      counts the hole, and the first entry is erased. */
  ghost predicate HoleLeft(d: Dir, id: nat, size: nat) {
    var k := Key(id, true, 0);
    k in d.store && d.store[k].Index? && d.store[k].size == Some(size) && d.store[k].ix != [] && d.store[k].ix[0] == None
  }

  /** Appends to an empty file from the page at `offset` on, as if the pages before it were there. */
  method AppendPast(fs: Spiffs, h: nat, id: nat, offset: nat, data: seq<Byte>, ghost log0: seq<Flash>, ghost m: int)
    returns (res: Status)
    requires fs.Valid() && h < |fs.fds| && fs.fds[h].open && fs.fds[h].id == id && id in fs.files && fs.files[id].bytes == []
    requires data != [] && offset > 0 && Aligned(fs.g, offset)
    requires LogImages(fs.g, log0, fs.log, fs.files, Partly(fs.files, id, 0, data, |data|))
    modifies fs
    ensures fs.Phys() && SameFds(old(fs.fds), fs.fds) && fs.files == old(fs.files) && id in fs.files && fs.files[id].bytes == []
    ensures LogImages(fs.g, log0, fs.log, fs.files, Partly(fs.files, id, 0, data, |data|))
    ensures !Mendable(fs.g, fs.Now())
    ensures res.Ok? ==> HoleLeft(fs.dir, id, offset + |data|)
    ensures old(Credit(fs.g, fs.Now(), m)) && m >= AppendCost(fs.g, offset, |data|) - 1 ==> res.Ok?
  {
    hide PhysOk, LogicOk, LogImages, Settled, Credit, SameFds, Mendable, Dug, Before, Holed, Headless, Needed, Geometry.IxSpan, Geometry.PageOf;
    ghost var g, d0, files0, fds0 := fs.g, fs.dir, fs.files, fs.fds;
    ghost var files1 := Partly(files0, id, 0, data, |data|);
    ghost var ample := Credit(g, fs.Now(), m) && m >= AppendCost(g, offset, |data|) - 1;
    var span0 := offset / fs.g.dataSize;
    FirstSpan(g, offset, |data|, span0);
    FdFacts(g, fs.Now(), None, None, h);
    LoadedBody(g, fs.flash, fs.dir, fs.freeCursor, fs.N(), Key(id, true, 0));
    WorkLoaded(g, fs.Now(), fs.flash.page[fs.fds[h].hdrPix].body);
    ghost var v0 := fs.Now();
    fs.work := fs.flash.page[fs.fds[h].hdrPix].body;
    if ample {
      CreditLeft(g, v0, fs.Now(), m, 0);
    }
    HoleBegins(g, fs.Now(), h, id, span0);
    AsideNow(g, id, d0, log0, files0, files1, fs.log);
    res := PastFrom(fs, h, id, offset, data, span0, d0, log0, files0, files1, m);
    AsideImages(g, id, d0, log0, files0, files1, fs.dir, fs.log);
  }

  /** The rounds of appending behind a hole, and what is done after them. */
  method PastFrom(fs: Spiffs, h: nat, id: nat, offset: nat, data: seq<Byte>, span0: nat,
                  ghost d0: Dir, ghost log0: seq<Flash>, ghost files0: map<nat, File>, ghost files1: map<nat, File>, ghost m: int)
    returns (res: Status)
    requires fs.g.Ok() && fs.Phys() && !fs.cleaning && span0 >= 1 && fs.g.Start(span0) == offset && fs.g.IxSpan(span0) == 0 && data != []
    requires offset > 0 && span0 < fs.g.Pages(offset + |data|)
    requires h < |fs.fds| && Dug(fs.g, fs.Now(), h, id, 0, fs.fds[h].hdrPix, span0)
    requires Before(fs.g, id, d0, files0) && Aside(fs.g, id, d0, log0, files0, files1, fs.dir, fs.log)
    modifies fs`flash, fs`freeBlocks, fs`pAllocated, fs`pDeleted, fs`eraseCount, fs`maxErase, fs`dir, fs`log, fs`freeCursor, fs`work, fs`fds
    ensures fs.Phys() && Aside(fs.g, id, d0, log0, files0, files1, fs.dir, fs.log) && SameFds(old(fs.fds), fs.fds)
    ensures !Mendable(fs.g, fs.Now())
    ensures res.Ok? ==> HoleLeft(fs.dir, id, offset + |data|)
    ensures var need := Needed(fs.g, fs.g.Pages(offset + |data|), span0, 0, false);
            old(Credit(fs.g, fs.Now(), m)) && m >= need - 1 ==> res.Ok?
  {
    hide PhysOk, LogicOk, Aside, Settled, Credit, SameFds, Mendable, Dug, Before, Holed, Headless, Needed, Grew,
         Geometry.IxSpan, Geometry.Start, Geometry.Pages;
    ghost var g, fds0, end := fs.g, fs.fds, span0;
    ghost var need := Needed(g, g.Pages(offset + |data|), span0, 0, false);
    ghost var ample := Credit(g, fs.Now(), m) && m >= need - 1;
    var written, s, pix, fatal;
    res, written, s, pix, fatal, end := DigRounds(fs, h, id, offset, data, span0, d0, log0, files0, files1, m);
    if fatal {
      GrewPage(fs.Now(), id, h, Key(id, false, span0));
      NotMendable(g, fs.Now(), id, h, fs.fds[h].hdrPix);
      return;
    }
    if ample {
      CreditAtLeast(g, fs.Now(), m - need + 1, 0);
    }
    ghost var fds1 := fs.fds;
    var res2 := FinishPast(fs, h, id, s, pix, offset + written, end, d0, log0, files0, files1);
    SameFdsChain(fds0, fds1, fs.fds);
    if !res2.Ok? {
      res := res2;
    }
  }

  /** Stores what is at hand; `total` is the size with the hole. */
  method FinishPast(fs: Spiffs, h: nat, id: nat, s: nat, pix: Pix, total: nat, ghost end: nat,
                    ghost d0: Dir, ghost log0: seq<Flash>, ghost files0: map<nat, File>, ghost files1: map<nat, File>)
    returns (res: Status)
    requires fs.g.Ok() && fs.Phys() && !fs.cleaning && Dug(fs.g, fs.Now(), h, id, s, pix, end) && total > 0
    requires Before(fs.g, id, d0, files0) && Aside(fs.g, id, d0, log0, files0, files1, fs.dir, fs.log)
    modifies fs`flash, fs`freeBlocks, fs`pAllocated, fs`pDeleted, fs`eraseCount, fs`maxErase, fs`dir, fs`log, fs`freeCursor, fs`work, fs`fds
    ensures fs.Phys() && Aside(fs.g, id, d0, log0, files0, files1, fs.dir, fs.log) && SameFds(old(fs.fds), fs.fds)
    ensures !Mendable(fs.g, fs.Now()) && (res.Ok? ==> HoleLeft(fs.dir, id, total))
    ensures old(Credit(fs.g, fs.Now(), 0)) ==> res.Ok?
  {
    hide PhysOk, LogicOk, Aside, Settled, Credit, SameFds, Mendable, Dug, Before, Holed, Headless;
    ghost var g, v := fs.g, fs.Now();
    DugFacts(g, v, h, id, s, pix, end);
    CursorSet(g, v, h, id, s, pix, end, pix, s, Some(total));
    fs.fds := fs.fds[h := fs.fds[h].(size := Some(total), curPix := Some(pix), curSpan := s)];
    ghost var fds1 := fs.fds;
    if Credit(g, v, 0) {
      CreditLeft(g, v, fs.Now(), 0, 0);
    }
    res := StoreDug(fs, h, id, s, pix, total, end, d0, log0, files0, files1);
    SameFdsChain(v.fds, fds1, fs.fds);
    HoledFacts(g, fs.Now(), h, id, s, end);
    NotMendable(g, fs.Now(), id, h, fs.fds[h].hdrPix);
  }

  lemma AsideImages(g: Geometry, id: nat, d0: Dir, log0: seq<Flash>, files0: map<nat, File>, files1: map<nat, File>, d: Dir, log: seq<Flash>)
    requires g.Ok() && Aside(g, id, d0, log0, files0, files1, d, log)
    ensures LogImages(g, log0, log, files0, files1)
  {
  }

  lemma FirstSpan(g: Geometry, offset: nat, len: nat, span: nat)
    requires g.Ok() && offset > 0 && Aligned(g, offset) && span == offset / g.dataSize && len > 0
    ensures span >= 1 && g.Start(span) == offset && g.IxSpan(span) == 0 && span < g.Pages(offset + len)
    ensures AppendCost(g, offset, len) == Needed(g, g.Pages(offset + len), span, 0, false)
  {
    g.SplitOffset(offset);
    StartNeeded(g, offset, len);
  }

  lemma AsideNow(g: Geometry, id: nat, d0: Dir, log0: seq<Flash>, files0: map<nat, File>, files1: map<nat, File>, log: seq<Flash>)
    requires g.Ok() && LogImages(g, log0, log, files0, files1)
    ensures Aside(g, id, d0, log0, files0, files1, d0, log)
  {
  }

  lemma GrewPage(v: Vals, id: nat, h: nat, k: Key)
    requires k in v.d.store && k.id == id && !k.ix
    ensures Grew(v, id, h)
  {
  }

  lemma HoledFacts(g: Geometry, v: Vals, h: nat, id: nat, s: nat, span: nat)
    requires Holed(g, v, h, id, s, span)
    ensures h < |v.fds| && v.fds[h].open && v.fds[h].id == id && Headless(v.d, id, v.fds[h].hdrPix)
    ensures Key(id, true, 0) in v.d.store && v.d.store[Key(id, true, 0)].Index? && v.d.store[Key(id, true, 0)].ix != [] && v.d.store[Key(id, true, 0)].ix[0] == None
  {
  }

  /** Looks for the index page or the data page that holds `offset`, past the start of an empty file: neither
      is there, and nothing is done. */
  method AppendNowhere(fs: Spiffs, h: nat, offset: nat) returns (res: Status)
    requires fs.Valid() && h < |fs.fds| && fs.fds[h].open && fs.fds[h].id in fs.files && fs.files[fs.fds[h].id].bytes == []
    requires offset > 0 && !Aligned(fs.g, offset)
    modifies fs`work, fs`cursor
    ensures fs.Valid() && fs.Now() == old(fs.Now()).(work := fs.work)
    ensures res == if fs.g.IxSpan(fs.g.PageOf(offset)) == 0 || h >= |fs.fds| || fs.fds[h].curSpan == fs.g.IxSpan(fs.g.PageOf(offset))
                   then BadReference else NotFound
  {
    hide PhysOk, LogicOk;
    ghost var g, v := fs.g, fs.Now();
    g.SplitOffset(offset);
    var fd := fs.fds[h];
    var span: nat := offset / fs.g.dataSize;
    var s := fs.g.IxSpan(span);
    FdFacts(g, v, None, None, h);
    if s == 0 {
      LoadedBody(g, fs.flash, fs.dir, fs.freeCursor, fs.N(), Key(fd.id, true, 0));
      WorkLoaded(g, v, fs.flash.page[fd.hdrPix].body);
      NoEntry(g, v, fd.id, span);
      fs.work := fs.flash.page[fd.hdrPix].body;
      res := DataCheck(fs.flash, fs.work.ix[fs.g.IxSlot(span)], span);
    } else {
      NoPages(g, v, fd.id, s);
      if fd.curSpan == s {
        // the cursor says page number 0
        res := if fd.curPix.None? then BadReference else Ok;
      } else {
        var pix;
        res, pix := fs.FindIdAndSpan(fd.id, true, s);
      }
    }
  }

  lemma NoEntry(g: Geometry, v: Vals, id: nat, span: nat)
    requires g.Ok() && LogicOk(g, v, None, None) && id in v.files && v.files[id].bytes == [] && g.IxSpan(span) == 0
    ensures Key(id, true, 0) in v.d.store && v.d.store[Key(id, true, 0)].Index?
    ensures g.IxSlot(span) < |v.d.store[Key(id, true, 0)].ix| && v.d.store[Key(id, true, 0)].ix[g.IxSlot(span)] == None
  {
    var k := Key(id, true, 0);
    assert HasIx(g, 0, 0, false) && k in v.d.store;
    assert IxFits(g, v.d.cat, k, v.d.store[k]);
    EntryOf(g, v.d.cat, Key(id, false, span), v.d.store[k]);
    assert Key(id, false, span) !in v.d.store;
  }

  lemma NoPages(g: Geometry, v: Vals, id: nat, s: nat)
    requires g.Ok() && LogicOk(g, v, None, None) && id in v.files && v.files[id].bytes == [] && s > 0
    ensures Key(id, true, s) !in v.d.cat
  {
    assert Key(id, true, s) in v.d.store <==> Key(id, true, s) in v.d.cat;
    g.BaseMonotone(0, s);
  }

  /** After a space check that has passed the first page can be allocated, if at most the free cursor's block
      is partly filled. */
  lemma FirstFits(g: Geometry, v: Vals, len: nat)
    requires g.Ok() && len > 0 && len + g.dataSize <= FreeQuota(g, v.n) * g.dataSize
    ensures Settled(g, v.d.fill, v.c, None) ==> Credit(g, v, 1)
  {
    if FreeQuota(g, v.n) <= 1 {
      MulMonotone(FreeQuota(g, v.n), 1, g.dataSize);
    }
  }

  /** Space for `len` bytes from `offset` on: the space check passes, and the pages can be allocated. */
  predicate Reaches(g: Geometry, n: Counts, tidy: bool, offset: nat, len: nat)
    requires g.Ok() && len > 0
  {
    Passes(g, n, len + g.dataSize) && AppendCost(g, offset, len) <= Allowance(g, n, tidy) + 1
  }

  /** The size of an empty file is not known to the descriptor, and `offset` is behind its start. */
  predicate Hollow(fd: Fd, offset: nat) {
    fd.size.None? && offset > 0
  }

  /** Adds `data` at the end of a file, wherever beyond the end `offset0` is. `w` bytes of it reach the
      file, which is `whole` unless cleaning failed, an index page could not be stored or is left without
      entries, or the file was and stays empty (`zero`). If the size is undefined and `offset0` is positive,
      nothing is brought back: either that fails without effect, or it leaves a hole. */
  method Append(fs: Spiffs, h: nat, offset0: nat, data: seq<Byte>)
    returns (res: Status, whole: bool, ghost w: nat, ghost quota: int, ghost zero: bool)
    requires fs.Valid() && h < |fs.fds| && fs.fds[h].open && fs.fds[h].id in fs.files
    requires data != [] && offset0 >= |fs.files[fs.fds[h].id].bytes|
    modifies fs
    ensures w <= |data| && old(fs.fds[h].id in fs.files)
    ensures fs.Phys() && SameFds(old(fs.fds), fs.fds)
    ensures LogImages(fs.g, old(fs.log), fs.log, old(fs.files),
                      Partly(old(fs.files), old(fs.fds[h].id), |old(fs.files[fs.fds[h].id].bytes)|, data, |data|))
    ensures whole ==> fs.Valid() && fs.files == Partly(old(fs.files), old(fs.fds[h].id), |old(fs.files[fs.fds[h].id].bytes)|, data, w)
    ensures whole && old(Settled(fs.g, fs.dir.fill, fs.freeCursor, None)) ==> Settled(fs.g, fs.dir.fill, fs.freeCursor, None)
    ensures res.Ok? && !old(Hollow(fs.fds[h], offset0)) ==> whole && w == |data|
    ensures var n := |old(fs.files[fs.fds[h].id].bytes)|;
            old(Settled(fs.g, fs.dir.fill, fs.freeCursor, None) && !Hollow(fs.fds[h], offset0)) && AppendCost(fs.g, n, |data|) <= quota + 1 ==> res.Ok?
    ensures var n := |old(fs.files[fs.fds[h].id].bytes)|;
            var room := Allowance(fs.g, old(fs.N()), old(Settled(fs.g, fs.dir.fill, fs.freeCursor, None)));
            Reaches(fs.g, old(fs.N()), old(Settled(fs.g, fs.dir.fill, fs.freeCursor, None)), n, |data|) && !old(Hollow(fs.fds[h], offset0)) ==>
              && res.Ok?
              && Allowance(fs.g, fs.N(), Settled(fs.g, fs.dir.fill, fs.freeCursor, None)) >= room - AppendCost(fs.g, n, |data|)
    ensures zero ==> !whole && old(fs.files[fs.fds[h].id].bytes) == [] && SaysZero(fs.dir, old(fs.fds[h].id))
                     && !old(Settled(fs.g, fs.dir.fill, fs.freeCursor, None))
    ensures Passes(fs.g, old(fs.N()), |data| + fs.g.dataSize) && !old(Hollow(fs.fds[h], offset0)) ==>
              (zero <==> old(fs.files[fs.fds[h].id].bytes == [] && Starved(fs.g, fs.flash, fs.freeBlocks)))
    ensures quota >= 0 ==> |data| + fs.g.dataSize <= quota * fs.g.dataSize
    ensures Passes(fs.g, old(fs.N()), |data| + fs.g.dataSize) ==> quota == FreeQuota(fs.g, old(fs.N())) >= 0
    ensures Refused(fs.g, old(fs.N()), |data| + fs.g.dataSize) ==> res == Full && whole && w == 0 && fs.Now() == old(fs.Now())
    ensures Undecided(fs.g, old(fs.N()), |data| + fs.g.dataSize) ==> Tried(fs.g, old(fs.flash.lu), old(fs.Wear()), old(fs.log), fs.log)
    ensures forall b: nat | old(Pays(fs, |data| + fs.g.dataSize, b)) :: quota >= old(Prospect(fs, b))
    ensures old(Hollow(fs.fds[h], offset0)) ==> w == 0 && (whole ==> !res.Ok?)
    ensures old(Hollow(fs.fds[h], offset0)) && Aligned(fs.g, offset0) ==>
              && (quota >= 0 ==> !Mendable(fs.g, fs.Now()))
              && (res.Ok? ==> quota >= 0 && HoleLeft(fs.dir, old(fs.fds[h].id), offset0 + |data|))
    ensures old(Hollow(fs.fds[h], offset0)) && !Aligned(fs.g, offset0) ==> !res.Ok? && (quota >= 0 ==> whole)
    ensures old(Hollow(fs.fds[h], offset0)) && !Aligned(fs.g, offset0) && Passes(fs.g, old(fs.N()), |data| + fs.g.dataSize) ==>
              whole && fs.Now() == old(fs.Now()).(work := fs.work)
    ensures old(Hollow(fs.fds[h], offset0)) && Aligned(fs.g, offset0) ==>
              Reaches(fs.g, old(fs.N()), old(Settled(fs.g, fs.dir.fill, fs.freeCursor, None)), offset0, |data|) ==> res.Ok?
  {
    hide PhysOk, LogicOk, LogSafe, LogImages, Settled, Partly, SameFds, FreeQuota, FilesOk, Credit, AppendCost, Passes, Refused, SaysZero, HoleLeft, Mendable, Starved,
         Tried, Pays, Prospect, Course;
    ghost var g, files0, log0, v0, wear0 := fs.g, fs.files, fs.log, fs.Now(), fs.Wear();
    var id := fs.fds[h].id;
    FdFacts(g, v0, None, None, h);
    var offset := if fs.fds[h].size.Some? && offset0 > fs.fds[h].size.value then fs.fds[h].size.value else offset0;
    var hollow := fs.fds[h].size.None? && offset0 > 0;
    ghost var n := |files0[id].bytes|;
    w, quota, zero := 0, -1, false;
    StartNeeded(g, n, |data|);
    StartNeeded(g, offset0, |data|);
    WorkedNothing(g, files0, id, n, data, files0);
    ghost var turns;
    res, turns := GcCheck(fs, |data| + fs.g.dataSize);
    Collected(g, v0, log0, fs.log, Partly(files0, id, n, data, |data|));
    whole := res != NotFound;
    if !res.Ok? {
      return;
    }
    QuotaSign(fs.g.dataSize, FreeQuota(g, fs.N()));
    quota := FreeQuota(g, fs.N());
    ghost var v1 := fs.Now();
    CreditNow(g, v1);
    ghost var m := Allowance(g, v1.n, Settled(g, v1.d.fill, v1.c, None));
    SameFdsAt(v0.fds, fs.fds, h);
    ghost var log1, files1 := fs.log, Partly(files0, id, n, data, |data|);
    LogBegins(g, log1, files0, files1);
    if !hollow {
      FirstFits(g, v1, |data|);
      res, whole, w, zero := AppendNow(fs, h, id, offset, data, log1, files0, m);
      CreditMeans(g, fs.Now(), m - AppendCost(g, n, |data|));
    } else if offset % fs.g.dataSize == 0 && fs.g.IxSpan(fs.g.PageOf(offset)) == 0 {
      res := AppendPast(fs, h, id, offset, data, log1, m);
      whole := false;
    } else {
      res := AppendNowhere(fs, h, offset);
    }
    LaterImages(g, v0.f.lu, wear0, log0, log1, fs.log, files0, files1);
    SameFdsChain(v0.fds, v1.fds, fs.fds);
  }
}
