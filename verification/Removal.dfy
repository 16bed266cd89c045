/** Emptying and removing files (spiffs_object_truncate to size 0): data pages are deleted from the
    end, each index page after the last of its data pages, and the header last. */
module Removal {
  import opened Options
  import opened Layout
  import opened Catalog
  import opened Files
  import opened Store
  import opened Tally
  import opened Gc
  import opened Collect
  import opened Content
  import opened Steps
  import opened Objects
  import opened Appending

  // ----- marking a removal -----

  function WithMark(pg: Page): Page {
    pg.(hdr := pg.hdr.(flags := pg.hdr.flags.(ixdele := false)))
  }

  lemma MarkedCatalog(g: Geometry, f: Flash, d: Dir, id: nat)
    requires CatalogOk(g, f, d, None) && d.removing == None && Key(id, true, 0) in d.cat
    ensures d.cat[Key(id, true, 0)] in f.page
    ensures CatalogOk(g, f.(page := f.page[d.cat[Key(id, true, 0)] := WithMark(f.page[d.cat[Key(id, true, 0)]])]), d.(removing := Some(id)), None)
  {
    var p := d.cat[Key(id, true, 0)];
    var f' := f.(page := f.page[p := WithMark(f.page[p])]);
    forall q | q in f'.lu && f'.lu[q].Live?
      ensures KeyAt(f', q) in d.cat && d.cat[KeyAt(f', q)] == q
    {
      assert KeyAt(f', q) == KeyAt(f, q);
    }
  }

  lemma CatalogHolds(g: Geometry, f: Flash, d: Dir)
    requires CatalogOk(g, f, d, None)
    ensures Holds(f, d)
  {
  }

  /** The header of object `id` gets the mark of a removal. */
  lemma Marked(g: Geometry, f: Flash, d: Dir, c: Pix, n: Counts, id: nat)
    requires PhysOk(g, f, d, c, n, None) && d.removing == None && Key(id, true, 0) in d.cat
    ensures d.cat[Key(id, true, 0)] in f.page
    ensures var f', d' := f.(page := f.page[d.cat[Key(id, true, 0)] := WithMark(f.page[d.cat[Key(id, true, 0)]])]), d.(removing := Some(id));
            PhysOk(g, f', d', c, n, None) && Holds(f', d')
  {
    hide CatalogOk, ShapeOk, CursorOk, CountsOk, Holds;
    MarkedCatalog(g, f, d, id);
    CatalogHolds(g, f.(page := f.page[d.cat[Key(id, true, 0)] := WithMark(f.page[d.cat[Key(id, true, 0)]])]), d.(removing := Some(id)));
  }

  lemma Unmarked(g: Geometry, f: Flash, d: Dir, c: Pix, n: Counts, id: nat)
    requires PhysOk(g, f, d, c, n, None) && (d.removing == None || d.removing == Some(id)) && Key(id, true, 0) !in d.cat
    ensures PhysOk(g, f, d.(removing := None), c, n, None)
  {
  }

  /** Marks an object as being removed, in the flags of its index header. */
  method MarkRemoving(fs: Spiffs, id: nat, pix: Pix)
    requires fs.Phys() && fs.dir.removing == None
    requires Key(id, true, 0) in fs.dir.cat && fs.dir.cat[Key(id, true, 0)] == pix && Key(id, true, 0) in fs.dir.store
    modifies fs`flash, fs`dir, fs`log
    ensures fs.Phys() && fs.dir == old(fs.dir).(removing := Some(id))
    ensures Extends(old(fs.log), fs.log) && Survives(fs.log, |old(fs.log)|, old(fs.dir), fs.dir)
  {
    hide PhysOk, Holds;
    Marked(fs.g, fs.flash, fs.dir, fs.freeCursor, fs.N(), id);
    fs.flash := fs.flash.(page := fs.flash.page[pix := WithMark(fs.flash.page[pix])]);
    fs.dir := fs.dir.(removing := Some(id));
    OneWrite(fs.log, fs.flash, old(fs.dir), fs.dir);
    fs.log := fs.log + [fs.flash];
  }

  // ----- steps -----

  lemma CutImage(g: Geometry, bytes: seq<Byte>, span: nat, j: nat)
    requires g.Ok() && g.Start(span) <= |bytes| && j < span
    ensures PageImage(g, bytes[..g.Start(span)], j) == PageImage(g, bytes, j)
  {
    g.StartMonotone(j, span);
  }

  lemma CutPages(g: Geometry, bytes: seq<Byte>, span: nat)
    requires g.Ok() && g.Start(span) <= |bytes| && span < g.Pages(|bytes|)
    ensures g.Pages(g.Start(span)) == span
  {
    g.PagesBounds(g.Start(span), span);
    if span > 0 {
      g.PagesBounds(g.Start(span), span - 1);
    }
    if g.Pages(g.Start(span)) > span {
      g.PagesBounds(g.Start(span), span);
    }
  }

  /** The last data page of a file is deleted. */
  lemma FilesCut(g: Geometry, store: map<Key, Body>, files: map<nat, File>, id: nat, span: nat)
    requires g.Ok() && FilesOk(g, store, files, Some(id)) && id in files
    requires g.Pages(|files[id].bytes|) == span + 1 && g.Start(span) < |files[id].bytes|
    requires OnlyLast(g, store, files, id, g.IxSpan(span))
    ensures FilesOk(g, store - {Key(id, false, span)}, SetBytes(files, id, files[id].bytes[..g.Start(span)]), Some(id))
    ensures OnlyLast(g, store - {Key(id, false, span)}, SetBytes(files, id, files[id].bytes[..g.Start(span)]), id, g.IxSpan(span))
  {
    var bytes := files[id].bytes;
    var store', files' := store - {Key(id, false, span)}, SetBytes(files, id, bytes[..g.Start(span)]);
    CutPages(g, bytes, span);
    g.SlotBounds(span);
    forall j | j in store'
      ensures j.id in files' && BodyOk(g, j, store'[j], files'[j.id], Some(id) == Some(j.id))
      ensures if j.ix then HasIx(g, |files'[j.id].bytes|, j.span, Some(id) == Some(j.id)) else j.span < g.Pages(|files'[j.id].bytes|)
    {
      assert j in store;
      assert BodyOk(g, j, store[j], files[j.id], Some(id) == Some(j.id));
      if j.id == id {
        assert j == Key(id, j.ix, j.span);
        if !j.ix {
          CutImage(g, bytes, span, j.span);
        }
      }
    }
    forall t: nat | Key(id, true, t) in store' && t != g.IxSpan(span)
      ensures HasIx(g, |files'[id].bytes|, t, false)
    {
      assert Key(id, true, t) in store && HasIx(g, |bytes|, t, false);
      if g.Base(t) == span {
        g.SlotUnique(t, 0, span);
      }
    }
  }

  lemma PageCut(g: Geometry, v: Vals, v': Vals, id: nat, span: nat)
    requires g.Ok() && LogicOk(g, v, Some(Key(id, true, g.IxSpan(span))), Some(id)) && id in v.files
    requires g.Pages(|v.files[id].bytes|) == span + 1 && g.Start(span) < |v.files[id].bytes|
    requires OnlyLast(g, v.d.store, v.files, id, g.IxSpan(span))
    requires v'.d == Without(v.d, Key(id, false, span)).(fill := v'.d.fill)
    requires v'.files == SetBytes(v.files, id, v.files[id].bytes[..g.Start(span)]) && v'.fds == v.fds
    requires v.work.Index? && g.IxSlot(span) < |v.work.ix| ==> v'.work == SetEntry(v.work, g.IxSlot(span), None)
    ensures LogicOk(g, v', Some(Key(id, true, g.IxSpan(span))), Some(id))
    ensures OnlyLast(g, v'.d.store, v'.files, id, g.IxSpan(span))
    ensures v.work.Index? && g.IxSlot(span) < |v.work.ix|
  {
    hide FilesOk, IndexOk, FdsOk, OnlyLast;
    var k := Key(id, false, span);
    WorkSlot(g, v.d, k, v.work);
    FilesCut(g, v.d.store, v.files, id, span);
    EntryMoved(g, v.d, k, v.work, v'.d, None);
    FdsKept(v.fds, v.d.cat, v.files, Some(id), v'.d.cat);
    FdsGrown(v.fds, v'.d.cat, v.files, Some(id), id, v.files[id].bytes[..g.Start(span)]);
  }

  /** An index page that has lost its last entry is deleted, and the descriptors are told. */
  lemma IndexCut(g: Geometry, v: Vals, v': Vals, k: Key, p: Pix)
    requires g.Ok() && LogicOk(g, v, Some(k), Some(k.id)) && k.ix && k.span != 0 && k.id in v.files
    requires g.Base(k.span) == g.Pages(|v.files[k.id].bytes|) && OnlyLast(g, v.d.store, v.files, k.id, k.span)
    requires v'.d == Without(v.d, k).(fill := v'.d.fill) && v'.files == v.files
    requires |v'.fds| == |v.fds| && forall i | 0 <= i < |v.fds| :: v'.fds[i] == Notified(v.fds[i], Delete, k.id, k.span, p, Keep)
    ensures LogicOk(g, v', None, Some(k.id)) && Tight(g, v'.d.store, v'.files, k.id) && SameFds(v.fds, v'.fds)
  {
    IndexCutFds(v.fds, v.d.cat, v.files, v'.fds, k, p, v'.d.cat);
    IndexCutFiles(g, v.d.store, v.files, k);
    hide FilesOk, FdsOk;
    FitsWithout(g, v.d, v'.d, Some(k), v.work, k, v'.work);
  }

  lemma IndexCutFiles(g: Geometry, store: map<Key, Body>, files: map<nat, File>, k: Key)
    requires g.Ok() && FilesOk(g, store, files, Some(k.id)) && k.ix && k.span != 0 && k.id in files
    requires g.Base(k.span) == g.Pages(|files[k.id].bytes|)
    ensures FilesOk(g, store - {k}, files, Some(k.id))
  {
  }

  lemma IndexCutFds(fds: seq<Fd>, cat: map<Key, Pix>, files: map<nat, File>, fds': seq<Fd>, k: Key, p: Pix, cat': map<Key, Pix>)
    requires FdsOk(fds, cat, files, Some(k.id)) && k.ix && k.span != 0 && cat' == cat - {k}
    requires |fds'| == |fds| && forall i | 0 <= i < |fds| :: fds'[i] == Notified(fds[i], Delete, k.id, k.span, p, Keep)
    ensures FdsOk(fds', cat', files, Some(k.id)) && SameFds(fds, fds')
  {
    forall i | 0 <= i < |fds|
      ensures FdOk(fds'[i], cat', files, Some(k.id))
    {
      assert FdOk(fds[i], cat, files, Some(k.id));
    }
  }

  lemma FitsWithout(g: Geometry, d: Dir, d': Dir, wk: Option<Key>, work: Body, k: Key, work': Body)
    requires IndexOk(g, d, wk, work) && k.ix && (wk.Some? ==> wk == Some(k))
    requires d'.cat == d.cat - {k} && d'.store == d.store - {k}
    ensures IndexOk(g, d', None, work')
  {
    forall i | i in d'.cat && i in d'.store && i.ix
      ensures IxFits(g, d'.cat, i, d'.store[i])
    {
      assert i in d.cat && i in d.store && i != k;
      assert IxFits(g, d.cat, i, d.store[i]);
      forall j | 0 <= j < |d'.store[i].ix|
        ensures d'.store[i].ix[j] == Lookup(d'.cat, Key(i.id, false, g.Base(i.span) + j))
      {
        assert Key(i.id, false, g.Base(i.span) + j) in d'.cat <==> Key(i.id, false, g.Base(i.span) + j) in d.cat;
      }
    }
  }

  // ----- the end of a removal -----

  lemma OnlyHeader(g: Geometry, store: map<Key, Body>, files: map<nat, File>, id: nat)
    requires g.Ok() && FilesOk(g, store, files, Some(id)) && id in files && files[id].bytes == []
    ensures forall k | k in store && k.id == id :: k == Key(id, true, 0)
  {
    forall k | k in store && k.id == id
      ensures k == Key(id, true, 0)
    {
      if k.ix && k.span != 0 {
        g.BaseMonotone(0, k.span);
      }
    }
  }

  /** The header, all that was left of an object, is gone: the file is gone, its descriptors closed. */
  lemma Removed(g: Geometry, v: Vals, v': Vals, wk: Option<Key>, id: nat, p: Pix)
    requires g.Ok() && LogicOk(g, v, wk, Some(id)) && id in v.files && v.files[id].bytes == []
    requires wk.Some? ==> wk == Some(Key(id, true, 0))
    requires v'.d == Without(v.d, Key(id, true, 0)).(fill := v'.d.fill, removing := v'.d.removing) && v'.files == v.files - {id}
    requires |v'.fds| == |v.fds| && forall i | 0 <= i < |v.fds| :: v'.fds[i] == Notified(v.fds[i], Delete, id, 0, p, Keep)
    ensures LogicOk(g, v', None, None)
    ensures forall i | 0 <= i < |v.fds| ::
              v'.fds[i].open == (v.fds[i].open && v.fds[i].id != id) && (v'.fds[i].open ==> v'.fds[i].id == v.fds[i].id)
  {
    OnlyHeader(g, v.d.store, v.files, id);
    RemovedFiles(g, v.d.store, v.files, id);
    RemovedFds(v.fds, v.d.cat, v.files, v'.fds, id, p, v'.d.cat);
    hide FilesOk, FdsOk;
    FitsWithout(g, v.d, v'.d, wk, v.work, Key(id, true, 0), v'.work);
  }

  lemma RemovedFiles(g: Geometry, store: map<Key, Body>, files: map<nat, File>, id: nat)
    requires g.Ok() && FilesOk(g, store, files, Some(id)) && forall k | k in store && k.id == id :: k == Key(id, true, 0)
    ensures FilesOk(g, store - {Key(id, true, 0)}, files - {id}, None)
  {
    var store', files' := store - {Key(id, true, 0)}, files - {id};
    forall k | k in store'
      ensures k.id in files' && BodyOk(g, k, store'[k], files'[k.id], false)
      ensures if k.ix then HasIx(g, |files'[k.id].bytes|, k.span, false) else k.span < g.Pages(|files'[k.id].bytes|)
    {
      assert k in store && k.id != id;
    }
  }

  lemma RemovedFds(fds: seq<Fd>, cat: map<Key, Pix>, files: map<nat, File>, fds': seq<Fd>, id: nat, p: Pix, cat': map<Key, Pix>)
    requires FdsOk(fds, cat, files, Some(id)) && cat' == cat - {Key(id, true, 0)}
    requires |fds'| == |fds| && forall i | 0 <= i < |fds| :: fds'[i] == Notified(fds[i], Delete, id, 0, p, Keep)
    ensures FdsOk(fds', cat', files - {id}, None)
    ensures forall i | 0 <= i < |fds| ::
              fds'[i].open == (fds[i].open && fds[i].id != id) && (fds'[i].open ==> fds'[i].id == fds[i].id)
  {
    forall i | 0 <= i < |fds|
      ensures FdOk(fds'[i], cat', files - {id}, None)
    {
      assert FdOk(fds[i], cat, files, Some(id));
    }
  }

  // ----- the rounds -----

  /** Index page `s` of file `id`, which is being cut, is in the work buffer. */
  ghost predicate Cutting(fs: Spiffs, h: nat, id: nat, s: nat, pix: Pix, r: Option<nat>)
    reads fs
  {
    && Inside(fs, Some(Key(id, true, s)), Some(id), r)
    && h < |fs.fds| && fs.fds[h].open && fs.fds[h].id == id && id in fs.files
    && Key(id, true, s) in fs.dir.cat && fs.dir.cat[Key(id, true, s)] == pix
    && Key(id, true, s) in fs.dir.store && SameMeta(fs.work, fs.dir.store[Key(id, true, s)])
    && OnlyLast(fs.g, fs.dir.store, fs.files, id, s)
  }

  ghost predicate Cuttable(fs: Spiffs, h: nat, id: nat, r: Option<nat>)
    reads fs
  {
    && Inside(fs, None, Some(id), r) && h < |fs.fds| && fs.fds[h].open && fs.fds[h].id == id && id in fs.files
    && Tight(fs.g, fs.dir.store, fs.files, id)
  }

  ghost function CutTo(files: map<nat, File>, id: nat, n: nat): map<nat, File>
    requires id in files && n <= |files[id].bytes|
  {
    SetBytes(files, id, files[id].bytes[..n])
  }

  /** A file of which nothing is to stay puts no constraint on what is visible. */
  lemma CutOldOrNew(g: Geometry, files0: map<nat, File>, id: nat, n: nat, files1: map<nat, File>)
    requires g.Ok() && id in files0 && n <= |files0[id].bytes| && (id in files1 ==> files1[id].bytes == [])
    ensures OldOrNew(g, files0, CutTo(files0, id, n), files1)
  {
    var files := CutTo(files0, id, n);
    forall i, k: nat | HasSpan(g, files0, i, k) && HasSpan(g, files1, i, k)
      ensures HasSpan(g, files, i, k) && ImageOf(g, files, i, k) == ImageOf(g, files0, i, k)
    {
      assert i != id && files[i] == files0[i];
    }
  }

  /** Deletes index page `prev`, which has no entry left. */
  method DeleteIndex(fs: Spiffs, h: nat, id: nat, prev: nat, pix: Pix, ghost r: Option<nat>,
                     ghost log0: seq<Flash>, ghost files0: map<nat, File>, ghost files1: map<nat, File>)
    returns (res: Status)
    requires Cutting(fs, h, id, prev, pix, r) && prev != 0 && fs.g.Base(prev) == fs.g.Pages(|fs.files[id].bytes|)
    requires LogImages(fs.g, log0, fs.log, files0, files1) && OldOrNew(fs.g, files0, fs.files, files1)
    modifies fs`flash, fs`pAllocated, fs`pDeleted, fs`dir, fs`log, fs`fds
    ensures LogImages(fs.g, log0, fs.log, files0, files1) && SameFds(old(fs.fds), fs.fds)
    ensures res.Ok? && Cuttable(fs, h, id, r)
    ensures fs.pAllocated + fs.pDeleted == old(fs.pAllocated + fs.pDeleted) && fs.dir.fill == old(fs.dir.fill)
  {
    hide PhysOk, LogicOk, LogImages, OldOrNew, Tight, OnlyLast, SameFds, Survives, Extends, Notified, Holds;
    ghost var g, v, k := fs.g, fs.Now(), Key(id, true, prev);
    LiveIn(g, v.f, v.d, v.c, v.n, None, k);
    res := IndexCheck(fs.flash, pix, prev);
    if !res.Ok? {
      return;
    }
    fs.PageDelete(pix, k, None, fs.work);
    fs.Notify(Delete, id, prev, pix, Keep);
    IndexCut(g, v, fs.Now(), k, pix);
    CutKeepsImages(g, v, fs.Now(), log0, old(fs.log), fs.log, Some(k), None, id, files0, files1);
    SameFdsAt(v.fds, fs.fds, h);
  }

  /** Deletes index page `prev`, which has no entry left, and notes the size in the header. */
  method DropIndex(fs: Spiffs, h: nat, id: nat, prev: nat, pix: Pix, cur: nat, ghost r: Option<nat>,
                   ghost log0: seq<Flash>, ghost files0: map<nat, File>, ghost files1: map<nat, File>)
    returns (res: Status)
    requires Cutting(fs, h, id, prev, pix, r) && prev != 0 && fs.g.Base(prev) == fs.g.Pages(|fs.files[id].bytes|)
    requires LogImages(fs.g, log0, fs.log, files0, files1) && OldOrNew(fs.g, files0, fs.files, files1)
    modifies fs`flash, fs`freeBlocks, fs`pAllocated, fs`pDeleted, fs`eraseCount, fs`maxErase, fs`dir, fs`log, fs`freeCursor, fs`work, fs`fds
    ensures fs.Phys() && LogImages(fs.g, log0, fs.log, files0, files1) && SameFds(old(fs.fds), fs.fds)
    ensures res.Ok? ==> Cuttable(fs, h, id, r) && h < |fs.fds| && fs.fds[h].size == Some(cur)
    ensures old(Credit(fs.g, fs.Now(), 0)) ==> res.Ok?
    ensures fs.pAllocated + fs.pDeleted <= old(fs.pAllocated + fs.pDeleted) + 1
    ensures fs.freeBlocks >= old(fs.freeBlocks) - 1
    ensures old(Settled(fs.g, fs.dir.fill, fs.freeCursor, None)) ==> Settled(fs.g, fs.dir.fill, fs.freeCursor, None)
  {
    hide PhysOk, LogicOk, LogImages, OldOrNew, Settled, FreeQuota, Tight, OnlyLast, SameFds, BodyOk;
    ghost var g, v := fs.g, fs.Now();
    res := DeleteIndex(fs, h, id, prev, pix, r, log0, files0, files1);
    FdFacts(g, fs.Now(), None, Some(id), h);
    HeaderBody(g, fs.Now(), None, Some(id), fs.files[id], Key(id, true, 0));
    ghost var v1 := fs.Now();
    if Credit(g, v, 0) {
      CreditLeft(g, v, v1, 0, 0);
    }
    var dst;
    res, dst := PutIndex(fs, id, 0, fs.fds[h].hdrPix, true, SizeIs(Some(cur)), None, Some(id), r, log0, files0, files1);
    SameFdsChain(v.fds, v1.fds, fs.fds);
    if !res.Ok? {
      return;
    }
    TightKeys(g, v1.d.store, fs.dir.store, fs.files, id);
    SameFdsAt(v.fds, fs.fds, h);
    SizeNoted(g, fs.Now(), None, h, Some(cur));
    fs.fds := fs.fds[h := fs.fds[h].(size := Some(cur))];
  }

  lemma CutKeepsImages(g: Geometry, v: Vals, v': Vals, log0: seq<Flash>, log1: seq<Flash>, log2: seq<Flash>,
                       wk: Option<Key>, wk': Option<Key>, id: nat, files0: map<nat, File>, files1: map<nat, File>)
    requires g.Ok() && LogicOk(g, v, wk, Some(id)) && LogicOk(g, v', wk', Some(id))
    requires LogImages(g, log0, log1, files0, files1) && Extends(log1, log2) && Survives(log2, |log1|, v'.d, v'.d)
    requires OldOrNew(g, files0, v'.files, files1)
    ensures LogImages(g, log0, log2, files0, files1)
  {
    hide FilesOk, LogImages, Extends, Survives, OldOrNew;
    ImagesKept(g, log0, log1, log2, v'.d, v'.files, Some(id), v'.d, v'.files, Some(id), files0, files1);
  }

  /** Deletes the last data page of a file and its entry in the index page at hand. */
  method DeleteData(fs: Spiffs, h: nat, id: nat, span: nat, pix: Pix, ghost r: Option<nat>,
                  ghost log0: seq<Flash>, ghost files0: map<nat, File>, ghost files1: map<nat, File>)
    returns (res: Status)
    requires fs.g.Ok() && Cutting(fs, h, id, fs.g.IxSpan(span), pix, r)
    requires fs.g.Pages(|fs.files[id].bytes|) == span + 1 && fs.g.Start(span) < |fs.files[id].bytes|
    requires LogImages(fs.g, log0, fs.log, files0, files1) && OldOrNew(fs.g, files0, CutTo(fs.files, id, fs.g.Start(span)), files1)
    modifies fs`flash, fs`pAllocated, fs`pDeleted, fs`dir, fs`log, fs`work, fs`files
    ensures LogImages(fs.g, log0, fs.log, files0, files1)
    ensures res.Ok? && Cutting(fs, h, id, fs.g.IxSpan(span), pix, r)
    ensures id in old(fs.files) && fs.g.Start(span) <= |old(fs.files)[id].bytes|
    ensures fs.files == CutTo(old(fs.files), id, fs.g.Start(span))
    ensures fs.pAllocated + fs.pDeleted == old(fs.pAllocated + fs.pDeleted)
    ensures fs.dir.fill == old(fs.dir.fill)
  {
    hide PhysOk, LogicOk, LogImages, OldOrNew, OnlyLast, SameFds, Survives, Extends, Holds, SetBytes;
    ghost var g, v, k := fs.g, fs.Now(), Key(id, false, span);
    DataEntry(g, v, Some(id), k);
    var e := fs.work.ix[fs.g.IxSlot(span)];
    fs.work := SetEntry(fs.work, fs.g.IxSlot(span), None);
    res := DataCheck(fs.flash, e, span);
    if res.Ok? {
      fs.PageDelete(e.value, k, None, fs.work);
    }
    fs.files := SetBytes(fs.files, id, fs.files[id].bytes[..fs.g.Start(span)]);
    PageCut(g, v, fs.Now(), id, span);
    FilesSet(v.files, id, v.files[id].bytes[..g.Start(span)]);
    CutKeepsImages(g, v, fs.Now(), log0, old(fs.log), fs.log, Some(Key(id, true, g.IxSpan(span))), Some(Key(id, true, g.IxSpan(span))),
                   id, files0, files1);
  }

  /** Deletes the last data page of a file, which index page `s` at hand refers to. */
  method DropData(fs: Spiffs, h: nat, id: nat, span: nat, pix: Pix, ghost r: Option<nat>,
                  ghost log0: seq<Flash>, ghost files0: map<nat, File>, ghost files1: map<nat, File>)
    returns (res: Status)
    requires fs.g.Ok() && Cutting(fs, h, id, fs.g.IxSpan(span), pix, r)
    requires fs.g.Pages(|fs.files[id].bytes|) == span + 1 && fs.g.Start(span) < |fs.files[id].bytes|
    requires LogImages(fs.g, log0, fs.log, files0, files1) && OldOrNew(fs.g, files0, CutTo(fs.files, id, fs.g.Start(span)), files1)
    modifies fs`flash, fs`pAllocated, fs`pDeleted, fs`dir, fs`log, fs`work, fs`fds, fs`files
    ensures LogImages(fs.g, log0, fs.log, files0, files1) && SameFds(old(fs.fds), fs.fds)
    ensures res.Ok? && Cutting(fs, h, id, fs.g.IxSpan(span), pix, r) && h < |fs.fds| && fs.fds[h].size == Some(fs.g.Start(span))
    ensures id in old(fs.files) && fs.g.Start(span) <= |old(fs.files)[id].bytes|
    ensures fs.files == CutTo(old(fs.files), id, fs.g.Start(span))
    ensures fs.pAllocated + fs.pDeleted == old(fs.pAllocated + fs.pDeleted)
    ensures fs.dir.fill == old(fs.dir.fill)
  {
    hide PhysOk, LogicOk, LogImages, OldOrNew, OnlyLast, SameFds, CutTo;
    EqualFds(fs.fds);
    res := DeleteData(fs, h, id, span, pix, r, log0, files0, files1);
    SizeNoted(fs.g, fs.Now(), Some(Key(id, true, fs.g.IxSpan(span))), h, Some(fs.g.Start(span)));
    fs.fds := fs.fds[h := fs.fds[h].(size := Some(fs.g.Start(span)))];
  }

  /** One round of cutting: makes the right index page the one at hand, and deletes data page `span`. */
  method CutRound(fs: Spiffs, h: nat, id: nat, span: nat, cur: nat, prev: Option<nat>, pix0: Pix, ghost r: Option<nat>,
                  ghost log0: seq<Flash>, ghost files0: map<nat, File>, ghost files1: map<nat, File>)
    returns (res: Status, pix: Pix)
    requires fs.g.Ok() && id in fs.files && fs.g.Pages(|fs.files[id].bytes|) == span + 1 && fs.g.Start(span) < |fs.files[id].bytes|
    requires cur == |fs.files[id].bytes|
    requires if prev.Some? then Cutting(fs, h, id, prev.value, pix0, r) && (prev.value == fs.g.IxSpan(span) || prev.value == fs.g.IxSpan(span + 1))
             else Cuttable(fs, h, id, r)
    requires LogImages(fs.g, log0, fs.log, files0, files1) && OldOrNew(fs.g, files0, fs.files, files1)
    requires OldOrNew(fs.g, files0, CutTo(fs.files, id, fs.g.Start(span)), files1)
    modifies fs`flash, fs`freeBlocks, fs`pAllocated, fs`pDeleted, fs`eraseCount, fs`maxErase, fs`dir, fs`log, fs`freeCursor,
             fs`cursor, fs`work, fs`fds, fs`files
    ensures fs.Phys() && LogImages(fs.g, log0, fs.log, files0, files1) && SameFds(old(fs.fds), fs.fds)
    ensures res.Ok? ==> Cutting(fs, h, id, fs.g.IxSpan(span), pix, r)
    ensures id in old(fs.files) && fs.g.Start(span) <= |old(fs.files)[id].bytes|
    ensures res.Ok? ==> fs.files == CutTo(old(fs.files), id, fs.g.Start(span))
    ensures prev.None? || prev.value == fs.g.IxSpan(span) ==> res.Ok?
    ensures old(Credit(fs.g, fs.Now(), 0)) ==> res.Ok?
    ensures fs.pAllocated + fs.pDeleted <= old(fs.pAllocated + fs.pDeleted) + if prev.None? || prev.value == fs.g.IxSpan(span) then 0 else 1
    ensures fs.freeBlocks >= old(fs.freeBlocks) - (if prev.None? || prev.value == fs.g.IxSpan(span) then 0 else 1)
    ensures old(Settled(fs.g, fs.dir.fill, fs.freeCursor, None)) ==> Settled(fs.g, fs.dir.fill, fs.freeCursor, None)
  {
    hide PhysOk, LogicOk, LogImages, OldOrNew, Tight, OnlyLast, SameFds, Settled, FreeQuota, SetBytes;
    ghost var g, fds0 := fs.g, fs.fds;
    EqualFds(fds0);
    pix := pix0;
    var s := fs.g.IxSpan(span);
    if prev != Some(s) {
      if prev.Some? {
        g.IxSpanStep(span);
        res := DropIndex(fs, h, id, prev.value, pix, cur, r, log0, files0, files1);
        if !res.Ok? {
          return;
        }
      }
      IndexExists(g, fs.Now(), None, Some(id), id, span);
      ghost var fds1 := fs.fds;
      TightOnly(g, fs.dir.store, fs.files, id, s);
      res, pix := LoadIndexPage(fs, h, s, false, Some(id), r);
      SameFdsChain(fds0, fds1, fs.fds);
      SameFdsAt(fds1, fs.fds, h);
    }
    ghost var fds2 := fs.fds;
    res := DropData(fs, h, id, span, pix, r, log0, files0, files1);
    SameFdsChain(fds0, fds2, fs.fds);
  }

  lemma CutTwice(files: map<nat, File>, id: nat, n: nat, m: nat)
    requires id in files && m <= n <= |files[id].bytes|
    ensures id in CutTo(files, id, n) && |CutTo(files, id, n)[id].bytes| == n && CutTo(CutTo(files, id, n), id, m) == CutTo(files, id, m)
  {
    assert files[id].bytes[..n][..m] == files[id].bytes[..m];
  }

  lemma CutNothing(files: map<nat, File>, id: nat)
    requires id in files
    ensures CutTo(files, id, |files[id].bytes|) == files
  {
    assert files[id].bytes[..|files[id].bytes|] == files[id].bytes;
  }

  /** Position after a round: span `span` was the last and starts at `cur`. */
  lemma CutPosition(g: Geometry, size: nat, span: nat)
    requires g.Ok() && size > 0 && g.Pages(size) == span + 1
    ensures g.Start(span) < size && g.Pages(g.Start(span)) == span
    ensures g.Start(span) == 0 <==> span == 0
  {
    g.PageOfBounds(size - 1);
    if span > 0 {
      g.StartMonotone(0, span);
      g.PageOfUnique(g.Start(span) - 1, span - 1);
    }
  }

  /** The size that the code computes after a round. */
  lemma CutRemainder(g: Geometry, cur: nat, span: nat)
    requires g.Ok() && cur > 0 && g.Pages(cur) == span + 1
    ensures g.Start(span) == if cur % g.dataSize == 0 then cur - g.dataSize else cur - cur % g.dataSize
  {
    g.PageOfBounds(cur - 1);
    g.SplitOffset(cur);
    if cur == g.Start(span) + g.dataSize {
      g.PageOfUnique(cur, span + 1);
    } else {
      g.PageOfUnique(cur, span);
    }
  }

  /** One round, on the size: the page of span `span`, the last, goes, with `m` allocations paid for. */
  method CutStep(fs: Spiffs, h: nat, id: nat, cur0: nat, span: nat, prev: Option<nat>, pix0: Pix, ghost r: Option<nat>,
                 ghost log0: seq<Flash>, ghost files0: map<nat, File>, ghost files1: map<nat, File>, ghost m: int)
    returns (res: Status, pix: Pix, cur: nat)
    requires fs.g.Ok() && id in files0 && 0 < cur0 <= |files0[id].bytes| && fs.files == CutTo(files0, id, cur0) && fs.g.Pages(cur0) == span + 1
    requires id in files1 ==> files1[id].bytes == []
    requires if prev.Some? then Cutting(fs, h, id, prev.value, pix0, r) && (prev.value == fs.g.IxSpan(span) || prev.value == fs.g.IxSpan(span + 1))
             else Cuttable(fs, h, id, r)
    requires LogImages(fs.g, log0, fs.log, files0, files1)
    modifies fs`flash, fs`freeBlocks, fs`pAllocated, fs`pDeleted, fs`eraseCount, fs`maxErase, fs`dir, fs`log, fs`freeCursor,
             fs`cursor, fs`work, fs`fds, fs`files
    ensures fs.Phys() && LogImages(fs.g, log0, fs.log, files0, files1) && SameFds(old(fs.fds), fs.fds)
    ensures cur == fs.g.Start(span) <= cur0 && fs.g.Pages(cur) == span && (cur == 0 <==> span == 0)
    ensures res.Ok? ==> Cutting(fs, h, id, fs.g.IxSpan(span), pix, r) && fs.files == CutTo(files0, id, cur)
    ensures prev.None? || prev.value == fs.g.IxSpan(span) ==> res.Ok?
    ensures var cost := if prev.None? || prev.value == fs.g.IxSpan(span) then 0 else 1;
            old(Credit(fs.g, fs.Now(), m)) && m >= cost - 1 ==> res.Ok? && Credit(fs.g, fs.Now(), m - cost)
    ensures old(Settled(fs.g, fs.dir.fill, fs.freeCursor, None)) ==> Settled(fs.g, fs.dir.fill, fs.freeCursor, None)
  {
    hide PhysOk, LogicOk, LogImages, OldOrNew, SameFds, Settled, FreeQuota, SetBytes, Cutting, Cuttable, CutTo;
    ghost var g, v, cost := fs.g, fs.Now(), if prev.None? || prev.value == fs.g.IxSpan(span) then 0 else 1;
    CutPosition(g, cur0, span);
    CutRemainder(g, cur0, span);
    CutTwice(files0, id, cur0, g.Start(span));
    CutOldOrNew(g, files0, id, cur0, files1);
    CutOldOrNew(g, files0, id, g.Start(span), files1);
    if Credit(g, v, m) && cost == 1 && m >= 0 {
      CreditAtLeast(g, v, m, 0);
    }
    res, pix := CutRound(fs, h, id, span, cur0, prev, pix0, r, log0, files0, files1);
    if Credit(g, v, m) {
      CreditLeft(g, v, fs.Now(), m, cost);
    }
    cur := if cur0 % fs.g.dataSize == 0 then cur0 - fs.g.dataSize else cur0 - cur0 % fs.g.dataSize;
  }

  /** The rounds of cutting a file to nothing. */
  method CutAll(fs: Spiffs, h: nat, id: nat, size: nat, ghost r: Option<nat>,
                ghost log0: seq<Flash>, ghost files0: map<nat, File>, ghost files1: map<nat, File>, ghost m: int)
    returns (res: Status, pix: Pix)
    requires fs.g.Ok() && id in files0 && fs.files == files0 && size == |files0[id].bytes| && size > 0
    requires Cuttable(fs, h, id, r) && (id in files1 ==> files1[id].bytes == [])
    requires LogImages(fs.g, log0, fs.log, files0, files1)
    modifies fs`flash, fs`freeBlocks, fs`pAllocated, fs`pDeleted, fs`eraseCount, fs`maxErase, fs`dir, fs`log, fs`freeCursor,
             fs`cursor, fs`work, fs`fds, fs`files
    ensures fs.Phys() && LogImages(fs.g, log0, fs.log, files0, files1) && SameFds(old(fs.fds), fs.fds)
    ensures res.Ok? ==> Cutting(fs, h, id, 0, pix, r) && fs.files == CutTo(files0, id, 0)
    ensures old(Credit(fs.g, fs.Now(), m)) && m >= fs.g.IxSpan(fs.g.PageOf(size - 1)) - 1 ==>
              res.Ok? && Credit(fs.g, fs.Now(), m - fs.g.IxSpan(fs.g.PageOf(size - 1)))
    ensures fs.g.IxSpan(fs.g.PageOf(size - 1)) == 0 ==> res.Ok?
    ensures old(Settled(fs.g, fs.dir.fill, fs.freeCursor, None)) ==> Settled(fs.g, fs.dir.fill, fs.freeCursor, None)
  {
    hide PhysOk, LogicOk, LogImages, OldOrNew, SameFds, Settled, FreeQuota, SetBytes, Cutting, Credit, CutTo;
    ghost var g, fds0, last := fs.g, fs.fds, fs.g.PageOf(size - 1);
    ghost var ample := Credit(g, fs.Now(), m) && m >= g.IxSpan(last) - 1;
    EqualFds(fds0);
    CutNothing(files0, id);
    g.SplitOffset(size - 1);
    res, pix := Ok, fs.fds[h].hdrPix;
    var cur: nat := size;
    var span: nat := (size - 1) / fs.g.dataSize;
    var prev: Option<nat> := None;
    while cur > 0
      invariant cur <= size && fs.files == CutTo(files0, id, cur) && res.Ok?
      invariant fs.Phys() && LogImages(g, log0, fs.log, files0, files1) && SameFds(fds0, fs.fds)
      invariant cur > 0 ==> g.Pages(cur) == span + 1 && span <= last
      invariant if prev.Some? then Cutting(fs, h, id, prev.value, pix, r) else cur == size && span == last && Cuttable(fs, h, id, r)
      invariant prev.Some? ==> prev.value == if cur == 0 then 0 else g.IxSpan(span + 1)
      invariant prev.Some? ==> prev.value <= g.IxSpan(last)
      invariant old(Settled(fs.g, fs.dir.fill, fs.freeCursor, None)) ==> Settled(g, fs.dir.fill, fs.freeCursor, None)
      invariant ample ==> Credit(g, fs.Now(), m - g.IxSpan(last) + if prev.None? then g.IxSpan(last) else prev.value)
    {
      ghost var fds, before := fs.fds, if prev.None? then g.IxSpan(last) else prev.value;
      g.IxSpanMonotone(span, last);
      g.IxSpanStep(span);
      res, pix, cur := CutStep(fs, h, id, cur, span, prev, pix, r, log0, files0, files1, m - g.IxSpan(last) + before);
      SameFdsChain(fds0, fds, fs.fds);
      if !res.Ok? {
        return;
      }
      prev := Some(fs.g.IxSpan(span));
      if span > 0 {
        span := span - 1;
      }
    }
  }

  // ----- removing and emptying -----

  /** Descriptors of `id` are closed, the others stay with their files. */
  ghost predicate Closed(a: seq<Fd>, b: seq<Fd>, id: nat) {
    |b| == |a| && forall i | 0 <= i < |a| :: b[i].open == (a[i].open && a[i].id != id) && (b[i].open ==> b[i].id == a[i].id)
  }

  lemma SameThenClosed(a: seq<Fd>, b: seq<Fd>, c: seq<Fd>, id: nat)
    requires SameFds(a, b) && Closed(b, c, id)
    ensures Closed(a, c, id)
  {
  }

  /** The file is the busy one from now on, with the mark of a removal if asked. */
  lemma BeginCut(g: Geometry, v: Vals, v': Vals, id: nat, log0: seq<Flash>, log1: seq<Flash>, log2: seq<Flash>,
                 files0: map<nat, File>, files1: map<nat, File>)
    requires g.Ok() && LogicOk(g, v, None, None) && v' == v.(f := v'.f, d := v.d.(removing := v'.d.removing))
    requires LogImages(g, log0, log1, files0, files1) && Extends(log1, log2) && Survives(log2, |log1|, v.d, v'.d)
    requires OldOrNew(g, files0, v.files, files1)
    ensures LogicOk(g, v', None, Some(id)) && Tight(g, v'.d.store, v'.files, id) && LogImages(g, log0, log2, files0, files1)
  {
    Begin(g, v, id);
    hide FilesOk, LogImages, Extends, Survives, OldOrNew, FdsOk, Tight;
    ImagesKept(g, log0, log1, log2, v.d, v.files, None, v'.d, v'.files, Some(id), files0, files1);
  }

  /** Deletes the header page of a file that has nothing else. */
  method DropHeader(fs: Spiffs, id: nat, pix: Pix, ghost wk: Option<Key>,
                    ghost log0: seq<Flash>, ghost files0: map<nat, File>, ghost files1: map<nat, File>)
    returns (res: Status)
    requires Inside(fs, wk, Some(id), Some(id)) && id in fs.files && fs.files[id].bytes == [] && (wk.Some? ==> wk == Some(Key(id, true, 0)))
    requires Key(id, true, 0) in fs.dir.cat && fs.dir.cat[Key(id, true, 0)] == pix && Key(id, true, 0) in fs.dir.store
    requires LogImages(fs.g, log0, fs.log, files0, files1) && OldOrNew(fs.g, files0, fs.files - {id}, files1)
    modifies fs`flash, fs`pAllocated, fs`pDeleted, fs`dir, fs`log, fs`fds, fs`files
    ensures res.Ok? && fs.Valid() && fs.files == old(fs.files) - {id} && LogImages(fs.g, log0, fs.log, files0, files1)
    ensures Closed(old(fs.fds), fs.fds, id) && fs.dir.fill == old(fs.dir.fill)
  {
    hide PhysOk, LogicOk, LogImages, OldOrNew, Survives, Extends, Notified, Holds;
    ghost var g, v, k := fs.g, fs.Now(), Key(id, true, 0);
    LiveIn(g, v.f, v.d, v.c, v.n, None, k);
    res := IndexCheck(fs.flash, pix, 0);
    if !res.Ok? {
      return;
    }
    fs.PageDelete(pix, k, None, fs.work);
    fs.Notify(Delete, id, 0, pix, Keep);
    ghost var d1 := fs.dir;
    Unmarked(g, fs.flash, fs.dir, fs.freeCursor, fs.N(), id);
    fs.dir := fs.dir.(removing := None);
    fs.files := fs.files - {id};
    Removed(g, v, fs.Now(), wk, id, pix);
    RemovedImages(g, fs.Now(), d1, log0, old(fs.log), fs.log, files0, files1);
  }

  lemma RemovedImages(g: Geometry, v: Vals, d1: Dir, log0: seq<Flash>, log1: seq<Flash>, log2: seq<Flash>,
                      files0: map<nat, File>, files1: map<nat, File>)
    requires g.Ok() && LogicOk(g, v, None, None) && d1 == v.d.(removing := d1.removing)
    requires LogImages(g, log0, log1, files0, files1) && Extends(log1, log2) && Survives(log2, |log1|, d1, d1)
    requires OldOrNew(g, files0, v.files, files1)
    ensures LogImages(g, log0, log2, files0, files1)
  {
    hide FilesOk, LogImages, Extends, Survives, OldOrNew;
    ImagesKept(g, log0, log1, log2, d1, v.files, None, d1, v.files, None, files0, files1);
  }

  /** Span of the index page that holds the last entry of a file of `size` bytes. */
  function LastIndex(g: Geometry, size: nat): nat
    requires g.Ok()
  {
    g.IxSpan(g.PageOf(if size == 0 then 0 else size - 1))
  }

  /** Removes a file: its pages are deleted, its descriptors closed. A failure leaves the file `whole` if
      it is that of the space check. */
  method Remove(fs: Spiffs, h: nat) returns (res: Status, whole: bool, ghost quota: int)
    requires fs.Valid() && h < |fs.fds| && fs.fds[h].open && fs.fds[h].id in fs.files
    modifies fs
    ensures fs.Phys() && old(fs.fds[h].id in fs.files)
    ensures LogImages(fs.g, old(fs.log), fs.log, old(fs.files), old(fs.files) - {old(fs.fds[h].id)})
    ensures res.Ok? ==> whole && fs.files == old(fs.files) - {old(fs.fds[h].id)} && Closed(old(fs.fds), fs.fds, old(fs.fds[h].id))
    ensures !res.Ok? ==> SameFds(old(fs.fds), fs.fds) && (whole ==> fs.files == old(fs.files))
    ensures whole ==> fs.Valid()
    ensures whole && old(Settled(fs.g, fs.dir.fill, fs.freeCursor, None)) ==> Settled(fs.g, fs.dir.fill, fs.freeCursor, None)
    ensures var last := LastIndex(fs.g, |old(fs.files[fs.fds[h].id].bytes)|);
            quota >= 0 && last <= quota + 1 && (last == 0 || old(Settled(fs.g, fs.dir.fill, fs.freeCursor, None))) ==> res.Ok?
    ensures var last := LastIndex(fs.g, |old(fs.files[fs.fds[h].id].bytes)|);
            var room := Allowance(fs.g, old(fs.N()), old(Settled(fs.g, fs.dir.fill, fs.freeCursor, None)));
            Passes(fs.g, old(fs.N()), 0) && (last == 0 || last <= room + 1) ==> res.Ok?
    ensures Passes(fs.g, old(fs.N()), 0) ==> quota == FreeQuota(fs.g, old(fs.N())) >= 0
    ensures Refused(fs.g, old(fs.N()), 0) ==> res == Full && whole && fs.Now() == old(fs.Now())
    ensures Undecided(fs.g, old(fs.N()), 0) ==> Tried(fs.g, old(fs.flash.lu), old(fs.Wear()), old(fs.log), fs.log)
    ensures forall b: nat | old(Pays(fs, 0, b)) :: quota >= old(Prospect(fs, b))
  {
    hide PhysOk, LogicOk, LogSafe, LogImages, OldOrNew, Settled, SameFds, SetBytes, FilesOk, Tight, Cutting, Survives, Extends, CutTo, Closed;
    ghost var g, files0, log0, v0, wear0 := fs.g, fs.files, fs.log, fs.Now(), fs.Wear();
    var id := fs.fds[h].id;
    ghost var files1 := files0 - {id};
    quota := -1;
    ghost var turns;
    res, turns := GcCheck(fs, 0);
    Collected(g, v0, log0, fs.log, files1);
    whole := res != NotFound;
    if !res.Ok? {
      return;
    }
    QuotaSign(g.dataSize, FreeQuota(g, fs.N()));
    quota := FreeQuota(g, fs.N());
    ghost var v1 := fs.Now();
    CreditNow(g, v1);
    SameFdsAt(v0.fds, fs.fds, h);
    ghost var log1 := fs.log;
    LogBegins(g, log1, files0, files1);
    res := RemoveNow(fs, h, id, Allowance(g, v1.n, Settled(g, v1.d.fill, v1.c, None)), log1, files0);
    LaterImages(g, v0.f.lu, wear0, log0, log1, fs.log, files0, files1);
    whole := res.Ok?;
    if res.Ok? {
      SameThenClosed(v0.fds, v1.fds, fs.fds, id);
    } else {
      SameFdsChain(v0.fds, v1.fds, fs.fds);
    }
  }

  /** What removing a file does after the space check. */
  method RemoveNow(fs: Spiffs, h: nat, id: nat, ghost m: int, ghost log0: seq<Flash>, ghost files0: map<nat, File>)
    returns (res: Status)
    requires fs.Valid() && h < |fs.fds| && fs.fds[h].open && fs.fds[h].id == id && id in fs.files && fs.files == files0
    requires LogImages(fs.g, log0, fs.log, files0, files0 - {id})
    modifies fs
    ensures fs.Phys() && LogImages(fs.g, log0, fs.log, files0, files0 - {id})
    ensures res.Ok? ==> fs.Valid() && fs.files == files0 - {id} && Closed(old(fs.fds), fs.fds, id)
    ensures !res.Ok? ==> SameFds(old(fs.fds), fs.fds)
    ensures res.Ok? && old(Settled(fs.g, fs.dir.fill, fs.freeCursor, None)) ==> Settled(fs.g, fs.dir.fill, fs.freeCursor, None)
    ensures var last := LastIndex(fs.g, |files0[id].bytes|);
            last == 0 || (old(Credit(fs.g, fs.Now(), m)) && m >= last - 1) ==> res.Ok?
  {
    hide PhysOk, LogicOk, LogImages, OldOrNew, Settled, SameFds, FreeQuota, SetBytes, FilesOk, Tight, Cutting, Survives, Extends, CutTo, Closed;
    ghost var g, files1, v1, log1 := fs.g, files0 - {id}, fs.Now(), fs.log;
    FdFacts(g, fs.Now(), None, None, h);
    CutNothing(files0, id);
    CutOldOrNew(g, files0, id, |files0[id].bytes|, files1);
    var pix := fs.fds[h].hdrPix;
    var size := fs.fds[h].size.GetOr(0);
    assert size == |files0[id].bytes|;
    // mark that the object is to be removed
    MarkRemoving(fs, id, pix);
    BeginCut(g, v1, fs.Now(), id, log0, log1, fs.log, files0, files1);
    ghost var wk: Option<Key> := None;
    EqualFds(v1.fds);
    CutTwice(files0, id, 0, 0);
    if size > 0 {
      res, pix := CutAll(fs, h, id, size, Some(id), log0, files0, files1, m);
      if !res.Ok? {
        return;
      }
      CuttingFacts(fs, h, id, 0, pix, Some(id));
      wk := Some(Key(id, true, 0));
    }
    GoneOldOrNew(g, files0, fs.files, id);
    ghost var fds2 := fs.fds;
    res := DropHeader(fs, id, pix, wk, log0, files0, files1);
    SameThenClosed(v1.fds, fds2, fs.fds, id);
  }

  lemma CuttingFacts(fs: Spiffs, h: nat, id: nat, s: nat, pix: Pix, r: Option<nat>)
    requires Cutting(fs, h, id, s, pix, r)
    ensures Inside(fs, Some(Key(id, true, s)), Some(id), r) && id in fs.files && h < |fs.fds| && fs.fds[h].open && fs.fds[h].id == id
    ensures Key(id, true, s) in fs.dir.cat && fs.dir.cat[Key(id, true, s)] == pix && Key(id, true, s) in fs.dir.store
    ensures SameMeta(fs.work, fs.dir.store[Key(id, true, s)]) && OnlyLast(fs.g, fs.dir.store, fs.files, id, s)
  {
  }

  lemma GoneOldOrNew(g: Geometry, files0: map<nat, File>, files: map<nat, File>, id: nat)
    requires g.Ok() && id in files0 && files == CutTo(files0, id, 0)
    ensures files - {id} == files0 - {id} && OldOrNew(g, files0, files - {id}, files0 - {id})
  {
    forall i, k: nat | HasSpan(g, files0, i, k) && HasSpan(g, files0 - {id}, i, k)
      ensures HasSpan(g, files - {id}, i, k) && ImageOf(g, files - {id}, i, k) == ImageOf(g, files0, i, k)
    {
      assert i != id && files[i] == files0[i];
    }
  }

  // ----- emptying -----

  lemma BlankFits(g: Geometry, v: Vals, v': Vals, id: nat)
    requires g.Ok() && LogicOk(g, v, Some(Key(id, true, 0)), Some(id)) && id in v.files && v.files[id].bytes == []
    requires v.work.Index? ==> v' == v.(work := v.work.(ix := seq(g.hdrLen, _ => None)))
    requires Key(id, true, 0) in v.d.store && SameMeta(v.work, v.d.store[Key(id, true, 0)])
    ensures v' == v && LogicOk(g, v', Some(Key(id, true, 0)), Some(id))
    ensures BodyOk(g, Key(id, true, 0), v.work.(size := None), v.files[id], true)
  {
    assert IxFits(g, v.d.cat, Key(id, true, 0), v.work);
    assert forall k | k in v.d.store && k.id == id && !k.ix :: false;
    assert v.work.ix == seq(g.hdrLen, _ => None);
    assert BodyOk(g, Key(id, true, 0), v.d.store[Key(id, true, 0)], v.files[id], true);
  }

  lemma LastIsTight(g: Geometry, store: map<Key, Body>, files: map<nat, File>, id: nat)
    requires g.Ok() && OnlyLast(g, store, files, id, 0)
    ensures Tight(g, store, files, id)
  {
  }

  /** After file `id` has been emptied through descriptor `h`, that knows that there are 0 bytes; the other
      descriptors have got the undefined size of the header. */
  ghost predicate SizesReset(fds: seq<Fd>, id: nat, h: nat) {
    forall i | 0 <= i < |fds| && fds[i].open && fds[i].id == id :: fds[i].size == if i == h then Some(0) else None
  }

  /** Empties a file that is not empty. A failure leaves the file `whole` if it is that of the space check. */
  method TruncateToZero(fs: Spiffs, h: nat) returns (res: Status, whole: bool, ghost quota: int)
    requires fs.Valid() && h < |fs.fds| && fs.fds[h].open && fs.fds[h].id in fs.files && fs.files[fs.fds[h].id].bytes != []
    modifies fs
    ensures fs.Phys() && SameFds(old(fs.fds), fs.fds) && old(fs.fds[h].id in fs.files)
    ensures LogImages(fs.g, old(fs.log), fs.log, old(fs.files), SetBytes(old(fs.files), old(fs.fds[h].id), []))
    ensures whole ==> fs.Valid() && fs.files == if res.Ok? then SetBytes(old(fs.files), old(fs.fds[h].id), []) else old(fs.files)
    ensures res.Ok? ==> whole && SizesReset(fs.fds, old(fs.fds[h].id), h)
    ensures whole && old(Settled(fs.g, fs.dir.fill, fs.freeCursor, None)) ==> Settled(fs.g, fs.dir.fill, fs.freeCursor, None)
    ensures quota >= 0 && LastIndex(fs.g, |old(fs.files[fs.fds[h].id].bytes)|) <= quota && old(Settled(fs.g, fs.dir.fill, fs.freeCursor, None)) ==>
              res.Ok?
    ensures var room := Allowance(fs.g, old(fs.N()), old(Settled(fs.g, fs.dir.fill, fs.freeCursor, None)));
            var last := LastIndex(fs.g, |old(fs.files[fs.fds[h].id].bytes)|);
            Passes(fs.g, old(fs.N()), fs.g.dataSize) && last <= room ==>
              res.Ok? && Allowance(fs.g, fs.N(), Settled(fs.g, fs.dir.fill, fs.freeCursor, None)) >= room - last - 1
    ensures Passes(fs.g, old(fs.N()), fs.g.dataSize) ==> quota == FreeQuota(fs.g, old(fs.N())) >= 1
    ensures Refused(fs.g, old(fs.N()), fs.g.dataSize) ==> res == Full && whole && fs.Now() == old(fs.Now())
    ensures Undecided(fs.g, old(fs.N()), fs.g.dataSize) ==> Tried(fs.g, old(fs.flash.lu), old(fs.Wear()), old(fs.log), fs.log)
    ensures forall b: nat | old(Pays(fs, fs.g.dataSize, b)) :: quota >= old(Prospect(fs, b))
  {
    hide PhysOk, LogicOk, LogSafe, LogImages, OldOrNew, Settled, SameFds, SetBytes, FilesOk;
    ghost var g, files0, log0, v0, wear0 := fs.g, fs.files, fs.log, fs.Now(), fs.Wear();
    var id := fs.fds[h].id;
    quota := -1;
    ghost var turns;
    res, turns := GcCheck(fs, fs.g.dataSize);
    Collected(g, v0, log0, fs.log, SetBytes(files0, id, []));
    whole := res != NotFound;
    if !res.Ok? {
      return;
    }
    QuotaSign(fs.g.dataSize, FreeQuota(g, fs.N()));
    quota := FreeQuota(g, fs.N());
    ghost var v1 := fs.Now();
    CreditNow(g, v1);
    SameFdsAt(v0.fds, fs.fds, h);
    ghost var m := Allowance(g, v1.n, Settled(g, v1.d.fill, v1.c, None));
    ghost var log1, files1 := fs.log, SetBytes(files0, id, []);
    LogBegins(g, log1, files0, files1);
    res := TruncateNow(fs, h, id, m, log1, files0);
    LaterImages(g, v0.f.lu, wear0, log0, log1, fs.log, files0, files1);
    CreditMeans(g, fs.Now(), m - LastIndex(g, |files0[id].bytes|) - 1);
    whole := res.Ok?;
    SameFdsChain(v0.fds, v1.fds, fs.fds);
  }

  /** What emptying a file does after the space check. */
  method TruncateNow(fs: Spiffs, h: nat, id: nat, ghost m: int, ghost log0: seq<Flash>, ghost files0: map<nat, File>)
    returns (res: Status)
    requires fs.Valid() && h < |fs.fds| && fs.fds[h].open && fs.fds[h].id == id && id in fs.files && fs.files == files0 && files0[id].bytes != []
    requires LogImages(fs.g, log0, fs.log, files0, SetBytes(files0, id, []))
    modifies fs
    ensures fs.Phys() && SameFds(old(fs.fds), fs.fds) && LogImages(fs.g, log0, fs.log, files0, SetBytes(files0, id, []))
    ensures res.Ok? ==> fs.Valid() && fs.files == SetBytes(files0, id, []) && SizesReset(fs.fds, id, h)
    ensures res.Ok? && old(Settled(fs.g, fs.dir.fill, fs.freeCursor, None)) ==> Settled(fs.g, fs.dir.fill, fs.freeCursor, None)
    ensures var last := LastIndex(fs.g, |files0[id].bytes|);
            old(Credit(fs.g, fs.Now(), m)) && m >= last ==> res.Ok? && Credit(fs.g, fs.Now(), m - last - 1)
  {
    hide PhysOk, LogicOk, LogImages, OldOrNew, Settled, SameFds, FreeQuota, SetBytes, FilesOk, Tight, Cutting, CutTo;
    ghost var g, files1, v1 := fs.g, SetBytes(files0, id, []), fs.Now();
    FilesSet(files0, id, []);
    FdFacts(g, v1, None, None, h);
    Begin(g, v1, id);
    var size := fs.fds[h].size.GetOr(0);
    assert size == |files0[id].bytes|;
    var pix;
    res, pix := CutAll(fs, h, id, size, None, log0, files0, files1, m);
    if res.Ok? {
      ghost var v2, last := fs.Now(), LastIndex(g, size);
      if Credit(g, v2, m - last) && m >= last {
        CreditAtLeast(g, v2, m - last, 0);
      }
      res := ResetHeader(fs, h, id, pix, log0, files0, files1);
      SameFdsChain(v1.fds, v2.fds, fs.fds);
      if Credit(g, v2, m - last) {
        CreditLeft(g, v2, fs.Now(), m - last, 1);
      }
    }
  }

  /** Stores the header of a file that has been cut to nothing, with an undefined size. */
  method ResetHeader(fs: Spiffs, h: nat, id: nat, pix: Pix,
                     ghost log0: seq<Flash>, ghost files0: map<nat, File>, ghost files1: map<nat, File>)
    returns (res: Status)
    requires Cutting(fs, h, id, 0, pix, None) && id in files0 && fs.files == CutTo(files0, id, 0)
    requires files1 == SetBytes(files0, id, []) && LogImages(fs.g, log0, fs.log, files0, files1)
    modifies fs`flash, fs`freeBlocks, fs`pAllocated, fs`pDeleted, fs`eraseCount, fs`maxErase, fs`dir, fs`log, fs`freeCursor, fs`work, fs`fds
    ensures fs.Phys() && LogImages(fs.g, log0, fs.log, files0, files1) && SameFds(old(fs.fds), fs.fds)
    ensures res.Ok? ==> fs.Valid() && fs.files == files1 && SizesReset(fs.fds, id, h)
    ensures old(Credit(fs.g, fs.Now(), 0)) ==> res.Ok?
    ensures fs.pAllocated + fs.pDeleted <= old(fs.pAllocated + fs.pDeleted) + 1
    ensures fs.freeBlocks >= old(fs.freeBlocks) - 1
    ensures old(Settled(fs.g, fs.dir.fill, fs.freeCursor, None)) ==> Settled(fs.g, fs.dir.fill, fs.freeCursor, None)
  {
    hide PhysOk, LogicOk, LogImages, OldOrNew, Settled, SameFds, FreeQuota, SetBytes, Tight, Cutting, CutTo, BodyOk, OnlyLast;
    ghost var g, v, k := fs.g, fs.Now(), Key(id, true, 0);
    CuttingFacts(fs, h, id, 0, pix, None);
    CutTwice(files0, id, 0, 0);
    CutIsEmpty(files0, id);
    FilesSet(files0, id, []);
    CutOldOrNew(g, files0, id, 0, files1);
    fs.work := fs.work.(ix := seq(fs.g.hdrLen, _ => None));
    BlankFits(g, v, fs.Now(), id);
    var dst;
    res, dst := PutIndex(fs, id, 0, pix, false, SizeIs(None), Some(k), Some(id), None, log0, files0, files1);
    if !res.Ok? {
      return;
    }
    ghost var fds := fs.fds;
    LastIsTight(g, v.d.store, fs.files, id);
    TightKeys(g, v.d.store, fs.dir.store, fs.files, id);
    SameFdsAt(v.fds, fs.fds, h);
    SizeNoted(g, fs.Now(), None, h, Some(0));
    fs.fds := fs.fds[h := fs.fds[h].(size := Some(0))];
    End(g, fs.Now(), id);
  }

  lemma CutIsEmpty(files: map<nat, File>, id: nat)
    requires id in files
    ensures CutTo(files, id, 0) == SetBytes(files, id, [])
  {
  }
}
