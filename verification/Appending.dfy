/** Appending to a file (spiffs_object_append): index pages are written in place as long as they
    only gain entries, and the header gets a new size whenever an index page is stored. */
module Appending {
  import opened Options
  import opened Layout
  import opened Catalog
  import opened Files
  import opened Store
  import opened Tally
  import opened Gc
  import opened Collect
  import opened Content
  import opened Steps
  import opened Objects

  /** Index page `s` of file `id`, which is being appended to from `offset` on, is in the work buffer.
      Unless it is the header of a file that was not empty, it can be written in place. */
  ghost predicate Growing(fs: Spiffs, h: nat, id: nat, s: nat, pix: Pix, offset: nat)
    reads fs
  {
    && Mid(fs, Some(Key(id, true, s)), Some(id))
    && h < |fs.fds| && fs.fds[h].open && fs.fds[h].id == id && id in fs.files
    && Key(id, true, s) in fs.dir.cat && fs.dir.cat[Key(id, true, s)] == pix
    && Key(id, true, s) in fs.dir.store
    && Grown(fs.g, Key(id, true, s), fs.dir.store[Key(id, true, s)], fs.work, fs.files[id], offset)
  }

  ghost predicate Grown(g: Geometry, k: Key, stored: Body, work: Body, file: File, offset: nat) {
    && BodyOk(g, k, work, file, true)
    && (k.span != 0 || offset == 0 ==> Programmable(stored, work))
    && (k.span == 0 && offset == 0 ==> stored.Index? && stored.size == None)
  }

  // ----- storing index pages -----

  /** Telling the descriptors what they know already. */
  lemma NothingNew(fds: seq<Fd>, cat: map<Key, Pix>, files: map<nat, File>, busy: Option<nat>, k: Key)
    requires FdsOk(fds, cat, files, busy) && k.ix && k in cat
    ensures forall i | 0 <= i < |fds| :: Notified(fds[i], Update, k.id, k.span, cat[k], Keep) == fds[i]
  {
    forall i | 0 <= i < |fds|
      ensures Notified(fds[i], Update, k.id, k.span, cat[k], Keep) == fds[i]
    {
      assert FdOk(fds[i], cat, files, busy);
    }
  }

  lemma InPlace(d: Dir, k: Key, body: Body)
    requires k in d.cat
    ensures d.(store := d.store[k := body]) == With(d, k, d.cat[k], body).(fill := d.fill)
  {
    assert d.cat[k := d.cat[k]] == d.cat;
  }

  lemma OneWrite(log: seq<Flash>, f: Flash, d0: Dir, d1: Dir)
    requires Holds(f, d1)
    ensures Extends(log, log + [f]) && Survives(log + [f], |log|, d0, d1)
  {
  }

  /** Writes the index page in the work buffer in place, and tells the descriptors if asked. */
  method StoreInPlace(fs: Spiffs, id: nat, s: nat, pix: Pix, notify: bool,
                      ghost log0: seq<Flash>, ghost files0: map<nat, File>, ghost files1: map<nat, File>)
    returns (res: Status)
    requires Mid(fs, Some(Key(id, true, s)), Some(id)) && id in fs.files && fs.work.Index?
    requires Key(id, true, s) in fs.dir.cat && fs.dir.cat[Key(id, true, s)] == pix && Key(id, true, s) in fs.dir.store
    requires Programmable(fs.dir.store[Key(id, true, s)], fs.work) && BodyOk(fs.g, Key(id, true, s), fs.work, fs.files[id], true)
    requires LogImages(fs.g, log0, fs.log, files0, files1) && OldOrNew(fs.g, files0, fs.files, files1)
    modifies fs`flash, fs`dir, fs`log, fs`fds
    ensures res.Ok? && LogImages(fs.g, log0, fs.log, files0, files1) && SameFds(old(fs.fds), fs.fds)
    ensures Mid(fs, None, Some(id))
    ensures fs.dir == old(fs.dir).(store := old(fs.dir.store)[Key(id, true, s) := fs.work])
    ensures notify && s == 0 ==> forall i | 0 <= i < |fs.fds| && fs.fds[i].open && fs.fds[i].id == id :: fs.fds[i].size == fs.work.size
  {
    hide PhysOk, LogicOk, Extends, Survives, LogImages, OldOrNew, Notified, BodyOk, Programmable, FdsOk, Holds;
    ghost var g, v, k := fs.g, fs.Now(), Key(id, true, s);
    LiveIn(g, v.f, v.d, v.c, v.n, None, k);
    res := IndexCheck(fs.flash, pix, s);
    if !res.Ok? {
      return;
    }
    fs.RewritePage(pix, fs.work, k);
    if notify {
      fs.Notify(Update, id, s, pix, if s == 0 then SizeIs(fs.work.size) else Keep);
    } else {
      FdsOf(g, v, Some(k), Some(id));
      NothingNew(v.fds, v.d.cat, v.files, Some(id), k);
    }
    InPlace(v.d, k, fs.work);
    OneWrite(old(fs.log), fs.flash, v.d, fs.dir);
    StoredOk(g, v, fs.Now(), Some(k), Some(id), k, pix, fs.work, if notify && s == 0 then SizeIs(fs.work.size) else Keep,
             log0, old(fs.log), fs.log, files0, files1);
  }

  lemma FdsOf(g: Geometry, v: Vals, wk: Option<Key>, busy: Option<nat>)
    requires g.Ok() && LogicOk(g, v, wk, busy)
    ensures FdsOk(v.fds, v.d.cat, v.files, busy)
  {
  }

  /** Stores index page `s`, which is at hand, and the size `total` in the header. */
  method FinishIndex(fs: Spiffs, h: nat, id: nat, s: nat, pix: Pix, offset: nat, total: nat, notify: bool,
                     ghost log0: seq<Flash>, ghost files0: map<nat, File>, ghost files1: map<nat, File>)
    returns (res: Status)
    requires Growing(fs, h, id, s, pix, offset) && (total > 0 || (s == 0 && offset == 0))
    requires LogImages(fs.g, log0, fs.log, files0, files1) && OldOrNew(fs.g, files0, fs.files, files1)
    modifies fs`flash, fs`freeBlocks, fs`pAllocated, fs`pDeleted, fs`eraseCount, fs`maxErase, fs`dir, fs`log, fs`freeCursor, fs`work, fs`fds
    ensures fs.Phys() && LogImages(fs.g, log0, fs.log, files0, files1) && SameFds(old(fs.fds), fs.fds)
    ensures res.Ok? ==> Mid(fs, None, Some(id)) && fs.dir.store.Keys == old(fs.dir.store.Keys)
    ensures res.Ok? ==> Key(id, true, 0) in fs.dir.store && fs.dir.store[Key(id, true, 0)].Index?
                        && fs.dir.store[Key(id, true, 0)].size == Some(total)
    ensures res.Ok? && (notify || s != 0 || offset != 0) ==>
              forall i | 0 <= i < |fs.fds| && fs.fds[i].open && fs.fds[i].id == id :: fs.fds[i].size == Some(total)
    ensures old(Credit(fs.g, fs.Now(), 0)) || (s == 0 && offset == 0) ==> res.Ok?
    ensures fs.pAllocated + fs.pDeleted <= old(fs.pAllocated + fs.pDeleted) + 1
    ensures fs.freeBlocks >= old(fs.freeBlocks) - 1
    ensures old(Settled(fs.g, fs.dir.fill, fs.freeCursor, None)) ==> Settled(fs.g, fs.dir.fill, fs.freeCursor, None)
  {
    hide PhysOk, LogicOk, LogImages, OldOrNew, Settled, Allowance, BodyOk, Programmable, SameFds;
    ghost var k, hk, fds := Key(id, true, s), Key(id, true, 0), fs.fds;
    FdFacts(fs.g, fs.Now(), Some(k), Some(id), h);
    HeaderBody(fs.g, fs.Now(), Some(k), Some(id), fs.files[id], hk);
    WorkSize(fs.g, k, fs.dir.store[k], fs.work, fs.files[id], offset, total);
    if s != 0 {
      // store the index page, then the size in the header
      res := StoreInPlace(fs, id, s, pix, true, log0, files0, files1);
      SameFdsAt(fds, fs.fds, h);
      FdFacts(fs.g, fs.Now(), None, Some(id), h);
      ghost var fds1 := fs.fds;
      var dst;
      res, dst := PutIndex(fs, id, 0, fs.fds[h].hdrPix, true, SizeIs(Some(total)), None, Some(id), None, log0, files0, files1);
      SameFdsChain(fds, fds1, fs.fds);
    } else if offset == 0 {
      // the file was empty: the header can be written in place
      fs.work := fs.work.(size := Some(total));
      ResizedWork(fs.g, old(fs.Now()), fs.Now(), k);
      res := StoreInPlace(fs, id, s, pix, notify, log0, files0, files1);
    } else {
      var dst;
      res, dst := PutIndex(fs, id, 0, fs.fds[h].hdrPix, false, SizeIs(Some(total)), Some(k), Some(id), None, log0, files0, files1);
    }
  }

  lemma HeaderBody(g: Geometry, v: Vals, wk: Option<Key>, busy: Option<nat>, file: File, k: Key)
    requires g.Ok() && LogicOk(g, v, wk, busy) && k.ix && k in v.d.store && busy == Some(k.id)
    requires k.id in v.files ==> file == v.files[k.id]
    ensures v.d.store[k].Index? && BodyOk(g, k, v.d.store[k], file, true)
    ensures forall n: nat | k.span == 0 :: BodyOk(g, k, v.d.store[k].(size := Some(n)), file, true)
  {
  }

  lemma WorkSize(g: Geometry, k: Key, stored: Body, work: Body, file: File, offset: nat, total: nat)
    requires Grown(g, k, stored, work, file, offset) && k.ix
    ensures work.Index?
    ensures k.span == 0 ==> BodyOk(g, k, work.(size := Some(total)), file, true)
    ensures k.span == 0 && offset == 0 ==> Programmable(stored, work.(size := Some(total)))
  {
  }

  lemma ResizedWork(g: Geometry, v: Vals, v': Vals, k: Key)
    requires g.Ok() && LogicOk(g, v, Some(k), Some(k.id)) && v.work.Index? && v' == v.(work := v'.work)
    requires v'.work.Index? && v'.work.ix == v.work.ix
    ensures LogicOk(g, v', Some(k), Some(k.id))
  {
    assert IxFits(g, v.d.cat, k, v.work);
    FitsSame(g, v.d, k, v.work, v'.work);
  }

  // ----- new pages -----

  /** A page that was written without a place becomes the page of a new key. */
  lemma Placed(g: Geometry, f: Flash, d: Dir, c: Pix, n: Counts, p: Pix, k: Key, body: Body, log0: seq<Flash>, log: seq<Flash>, d0: Dir)
    requires PhysOk(g, f, d, c, n, Some(p)) && k !in d.cat && Replaces(f, d, p, k, body)
    requires d == d0.(fill := d.fill) && Survives(log, |log0|, d0, d0)
    ensures PhysOk(g, f, With(d, k, p, body), c, n, None)
    ensures Survives(log, |log0|, d0, With(d, k, p, body))
  {
    hide PhysOk, Holds;
    Adopted(g, f, d, c, n, p, k, body);
  }

  /** Allocates and writes the page of a new key. */
  method AllocateKey(fs: Spiffs, ghost k: Key, hdr: Header, bytes: seq<Byte>, ghost body: Body) returns (res: Status, p: Pix)
    requires fs.Phys() && k !in fs.dir.cat && hdr.obj == Live(k.id, k.ix) && |bytes| <= fs.g.dataSize && (bytes == [] || hdr.flags.index)
    requires NewPage(fs.g, hdr, bytes, true) == Page(HeaderOf(k, fs.dir.removing), body)
    modifies fs`flash, fs`freeBlocks, fs`pAllocated, fs`pDeleted, fs`eraseCount, fs`maxErase, fs`dir, fs`log, fs`freeCursor
    ensures fs.Phys()
    ensures fs.dir == (if res.Ok? then With(old(fs.dir), k, p, body) else old(fs.dir)).(fill := fs.dir.fill)
    ensures Extends(old(fs.log), fs.log) && Survives(fs.log, |old(fs.log)|, old(fs.dir), if res.Ok? then fs.dir else old(fs.dir))
    ensures old(fs.freeBlocks) >= 2 ==> res.Ok?
    ensures fs.pAllocated == old(fs.pAllocated) + (if res.Ok? then 1 else 0) && fs.pDeleted <= old(fs.pDeleted)
    ensures fs.freeBlocks >= old(fs.freeBlocks) - 1
    ensures !fs.cleaning ==> (res.Ok? <==> !old(Starved(fs.g, fs.flash, fs.freeBlocks)))
    ensures old(Settled(fs.g, fs.dir.fill, fs.freeCursor, None)) ==> Settled(fs.g, fs.dir.fill, fs.freeCursor, None)
  {
    hide PhysOk, Settled, Survives, Extends, NewPage, HeaderOf, Starved;
    res, p := fs.AllocateData(hdr, bytes, true);
    if res.Ok? {
      Placed(fs.g, fs.flash, fs.dir, fs.freeCursor, fs.N(), p, k, body, old(fs.log), fs.log, old(fs.dir));
      fs.dir := With(fs.dir, k, p, body);
    }
  }

  function BlankIndex(g: Geometry, s: nat): Body {
    Index("", None, seq(g.IxLen(s), _ => None))
  }

  /** Creates the next index page of a file. */
  method CreateIndexPage(fs: Spiffs, h: nat, id: nat, s: nat, ghost offset: nat,
                         ghost log0: seq<Flash>, ghost files0: map<nat, File>, ghost files1: map<nat, File>)
    returns (res: Status, pix: Pix)
    requires Mid(fs, None, Some(id)) && h < |fs.fds| && fs.fds[h].open && fs.fds[h].id == id && id in fs.files
    requires s != 0 && fs.g.Base(s) == fs.g.Pages(|fs.files[id].bytes|) && Tight(fs.g, fs.dir.store, fs.files, id)
    requires LogImages(fs.g, log0, fs.log, files0, files1) && OldOrNew(fs.g, files0, fs.files, files1)
    modifies fs`flash, fs`freeBlocks, fs`pAllocated, fs`pDeleted, fs`eraseCount, fs`maxErase, fs`dir, fs`log, fs`freeCursor, fs`work, fs`fds
    ensures fs.Phys() && LogImages(fs.g, log0, fs.log, files0, files1) && SameFds(old(fs.fds), fs.fds)
    ensures res.Ok? ==> Growing(fs, h, id, s, pix, offset) && OnlyLast(fs.g, fs.dir.store, fs.files, id, s)
    ensures res.Ok? ==> h < |fs.fds| && fs.fds[h].curSpan == s && fs.fds[h].curPix == Some(pix)
    ensures old(Credit(fs.g, fs.Now(), 0)) ==> res.Ok?
    ensures fs.pAllocated + fs.pDeleted <= old(fs.pAllocated + fs.pDeleted) + 1
    ensures fs.freeBlocks >= old(fs.freeBlocks) - 1
    ensures old(Settled(fs.g, fs.dir.fill, fs.freeCursor, None)) ==> Settled(fs.g, fs.dir.fill, fs.freeCursor, None)
  {
    hide PhysOk, LogicOk, LogImages, OldOrNew, Settled, FreeQuota, BodyOk, Survives, Extends, Notified, Holds, Tight, OnlyLast, Grown, SameFds, NewPage, HeaderOf, BlankIndex;
    ghost var g, v, k := fs.g, fs.Now(), Key(id, true, s);
    FdFacts(g, v, None, Some(id), h);
    NoIndexYet(g, v, id, s);
    if Credit(g, v, 0) {
      CreditRoom(g, v, 0);
    }
    EqualFds(fs.fds);
    FreshIndex(g, id, s);
    res, pix := AllocateKey(fs, k, Header(Live(id, true), s, Flags(true, false, false, true, true)), [],
                            BlankIndex(fs.g, s));
    if !res.Ok? {
      FailedImages(g, v, None, Some(id), log0, old(fs.log), fs.log, files0, files1);
      return;
    }
    fs.work := BlankIndex(fs.g, s);
    fs.Notify(New, id, s, pix, Keep);
    CreatedOk(g, v, fs.Now(), k, pix, offset, log0, old(fs.log), fs.log, files0, files1);
    SameFdsAt(v.fds, fs.fds, h);
    CursorPut(g, fs.Now(), h, k);
    fs.fds := fs.fds[h := fs.fds[h].(curPix := Some(pix), curSpan := s)];
  }

  lemma FreshIndex(g: Geometry, id: nat, s: nat)
    requires s != 0
    ensures NewPage(g, Header(Live(id, true), s, Flags(true, false, false, true, true)), [], true)
         == Page(HeaderOf(Key(id, true, s), None), BlankIndex(g, s))
  {
  }

  /** Only index page `s`, the last, may have no entry yet. */
  ghost predicate OnlyLast(g: Geometry, store: map<Key, Body>, files: map<nat, File>, id: nat, s: nat)
    requires g.Ok()
  {
    forall t: nat {:trigger Key(id, true, t)} | Key(id, true, t) in store && id in files && t != s :: HasIx(g, |files[id].bytes|, t, false)
  }

  lemma NoIndexYet(g: Geometry, v: Vals, id: nat, s: nat)
    requires g.Ok() && LogicOk(g, v, None, Some(id)) && id in v.files && Tight(g, v.d.store, v.files, id)
    requires s != 0 && g.Base(s) == g.Pages(|v.files[id].bytes|)
    ensures Key(id, true, s) !in v.d.cat
  {
  }

  lemma CreatedOk(g: Geometry, v: Vals, v': Vals, k: Key, p: Pix, offset: nat,
                  log0: seq<Flash>, log1: seq<Flash>, log2: seq<Flash>, files0: map<nat, File>, files1: map<nat, File>)
    requires g.Ok() && LogicOk(g, v, None, Some(k.id)) && k.ix && k.span != 0 && k.id in v.files
    requires g.Base(k.span) == g.Pages(|v.files[k.id].bytes|) && k !in v.d.cat && Tight(g, v.d.store, v.files, k.id)
    requires v'.work == BlankIndex(g, k.span) && v'.files == v.files
    requires v'.d == With(v.d, k, p, v'.work).(fill := v'.d.fill)
    requires |v'.fds| == |v.fds| && forall i | 0 <= i < |v.fds| :: v'.fds[i] == Notified(v.fds[i], New, k.id, k.span, p, Keep)
    requires LogImages(g, log0, log1, files0, files1) && Extends(log1, log2) && Survives(log2, |log1|, v.d, v'.d)
    requires OldOrNew(g, files0, v.files, files1)
    ensures LogicOk(g, v', Some(k), Some(k.id)) && SameFds(v.fds, v'.fds)
    ensures OnlyLast(g, v'.d.store, v'.files, k.id, k.span)
    ensures LogImages(g, log0, log2, files0, files1)
    ensures Grown(g, k, v'.work, v'.work, v.files[k.id], offset)
  {
    hide FilesOk, IndexOk, FdsOk, OldOrNew, LogImages, Survives, Extends;
    IndexAdded(g, v, v', k, p);
    ImagesKept(g, log0, log1, log2, v.d, v.files, Some(k.id), v'.d, v'.files, Some(k.id), files0, files1);
  }

  /** The cursor of a descriptor is put on an index page. */
  lemma CursorPut(g: Geometry, v: Vals, h: nat, k: Key)
    requires g.Ok() && LogicOk(g, v, Some(k), Some(k.id)) && k.ix && k in v.d.cat
    requires h < |v.fds| && v.fds[h].open && v.fds[h].id == k.id
    ensures var fds := v.fds[h := v.fds[h].(curPix := Some(v.d.cat[k]), curSpan := k.span)];
            LogicOk(g, v.(fds := fds), Some(k), Some(k.id)) && (forall a | SameFds(a, v.fds) :: SameFds(a, fds))
  {
    var fds := v.fds[h := v.fds[h].(curPix := Some(v.d.cat[k]), curSpan := k.span)];
    forall i | 0 <= i < |fds|
      ensures FdOk(fds[i], v.d.cat, v.files, Some(k.id))
    {
      assert FdOk(v.fds[i], v.d.cat, v.files, Some(k.id));
    }
  }

  // ----- data -----

  lemma FreshImage(g: Geometry, bytes: seq<Byte>, span: nat, chunk: seq<Byte>)
    requires g.Ok() && g.Start(span) == |bytes| && |chunk| <= g.dataSize && chunk != []
    ensures Data(Program(Erased(g.dataSize), 0, chunk)) == Data(PageImage(g, Written(bytes, g.Start(span), chunk), span))
    ensures NewPage(g, Header(Live(0, false), span, Flags(true, false, true, true, true)), chunk, true).body
         == Data(PageImage(g, Written(bytes, g.Start(span), chunk), span))
  {
    ProgramErased(Erased(g.dataSize), 0, chunk);
    OwnImage(g, bytes, span, 0, chunk);
    assert PageImage(g, bytes, span) == Erased(g.dataSize);
  }

  lemma FreshData(g: Geometry, bytes: seq<Byte>, id: nat, span: nat, chunk: seq<Byte>)
    requires g.Ok() && g.Start(span) == |bytes| && |chunk| <= g.dataSize && chunk != []
    ensures NewPage(g, Header(Live(id, false), span, Flags(true, false, true, true, true)), chunk, true)
         == Page(HeaderOf(Key(id, false, span), None), Data(PageImage(g, Written(bytes, g.Start(span), chunk), span)))
  {
    FreshImage(g, bytes, span, chunk);
  }

  lemma AndTwice(a: Byte, b: Byte)
    ensures a & (a & b) == a & b
  {
  }

  /** Appending to the erased tail of the last page only clears bits. */
  lemma TailImage(g: Geometry, bytes: seq<Byte>, span: nat, po: nat, chunk: seq<Byte>)
    requires g.Ok() && g.Start(span) + po == |bytes| && po + |chunk| <= g.dataSize
    ensures var x := PageImage(g, bytes, span);
            Program(x, po, chunk) == PageImage(g, Written(bytes, g.Start(span) + po, chunk), span) &&
            Programmable(Data(x), Data(Program(x, po, chunk)))
  {
    var x := PageImage(g, bytes, span);
    ProgramErased(x, po, chunk);
    OwnImage(g, bytes, span, po, chunk);
    forall i | 0 <= i < |x|
      ensures x[i] & Program(x, po, chunk)[i] == Program(x, po, chunk)[i]
    {
      if po <= i < po + |chunk| {
        AndTwice(x[i], chunk[i - po]);
      }
    }
  }

  /** The page and the index entry of the span where a file ends. */
  lemma TailEntry(g: Geometry, v: Vals, id: nat, span: nat, po: nat)
    requires g.Ok() && PhysOk(g, v.f, v.d, v.c, v.n, None) && id in v.files
    requires LogicOk(g, v, Some(Key(id, true, g.IxSpan(span))), Some(id))
    requires g.Start(span) + po == |v.files[id].bytes| && po < g.dataSize
    ensures v.work.Index? && g.IxSlot(span) < |v.work.ix|
    ensures Key(id, false, span) in v.d.cat <==> po > 0
    ensures v.work.ix[g.IxSlot(span)] == Lookup(v.d.cat, Key(id, false, span))
    ensures po > 0 ==> span < g.Pages(|v.files[id].bytes|)
  {
    g.PagesBounds(|v.files[id].bytes|, span);
    EntryOf(g, v.d.cat, Key(id, false, span), v.work);
    assert Key(id, false, span) in v.d.store <==> po > 0;
  }

  /** Writes `chunk` at the end of a file, into its last page or a new one. */
  method WriteTail(fs: Spiffs, id: nat, span: nat, po: nat, chunk: seq<Byte>) returns (res: Status, p: Pix)
    requires fs.g.Ok() && Mid(fs, Some(Key(id, true, fs.g.IxSpan(span))), Some(id)) && id in fs.files
    requires chunk != [] && po + |chunk| <= fs.g.dataSize && fs.g.Start(span) + po == |fs.files[id].bytes|
    modifies fs`flash, fs`freeBlocks, fs`pAllocated, fs`pDeleted, fs`eraseCount, fs`maxErase, fs`dir, fs`log, fs`freeCursor
    ensures fs.Phys() && id in old(fs.files)
    ensures fs.g.Start(span) + po <= |old(fs.files)[id].bytes|
    ensures fs.dir == (if res.Ok? then With(old(fs.dir), Key(id, false, span), p,
                                            Data(PageImage(fs.g, Written(old(fs.files)[id].bytes, fs.g.Start(span) + po, chunk), span)))
                       else old(fs.dir)).(fill := fs.dir.fill)
    ensures Extends(old(fs.log), fs.log) && Survives(fs.log, |old(fs.log)|, old(fs.dir), if res.Ok? then fs.dir else old(fs.dir))
    ensures res.Ok? ==> Lookup(old(fs.dir.cat), Key(id, false, span)) == None || Lookup(old(fs.dir.cat), Key(id, false, span)) == Some(p)
    ensures old(fs.freeBlocks) >= 2 || po > 0 ==> res.Ok?
    ensures po == 0 ==> (res.Ok? <==> !old(Starved(fs.g, fs.flash, fs.freeBlocks)))
    ensures fs.pAllocated + fs.pDeleted <= old(fs.pAllocated + fs.pDeleted) + if po > 0 then 0 else 1
    ensures fs.freeBlocks >= old(fs.freeBlocks) - (if po > 0 then 0 else 1)
    ensures old(Settled(fs.g, fs.dir.fill, fs.freeCursor, None)) ==> Settled(fs.g, fs.dir.fill, fs.freeCursor, None)
  {
    hide PhysOk, LogicOk, Settled, Survives, Extends, NewPage, Program, Erased, Holds, PageImage, Programmable, Written, Starved;
    ghost var k := Key(id, false, span);
    TailEntry(fs.g, fs.Now(), id, span, po);
    if po == 0 {
      // at the beginning of a page, write a new page
      FreshData(fs.g, fs.files[id].bytes, id, span, chunk);
      res, p := AllocateKey(fs, k, Header(Live(id, false), span, Flags(true, false, true, true, true)), chunk,
                            Data(PageImage(fs.g, Written(fs.files[id].bytes, fs.g.Start(span) + po, chunk), span)));
    } else {
      // fill out free data in the existing page
      DataEntry(fs.g, fs.Now(), Some(id), k);
      TailImage(fs.g, fs.files[id].bytes, span, po, chunk);
      var e := fs.work.ix[fs.g.IxSlot(span)];
      p := e.GetOr(Pix(0, 0));
      res := DataCheck(fs.flash, e, span);
      if !res.Ok? {
        return;
      }
      fs.RewritePage(p, Data(Program(fs.flash.page[p].body.bytes, po, chunk)), k);
      OneWrite(old(fs.log), fs.flash, old(fs.dir), fs.dir);
      InPlace(old(fs.dir), k, fs.dir.store[k]);
    }
  }

  /** The work buffer, told of page `p` and, if it is the header, of a size on the way, can still be
      written in place where it could before; and no index page is empty. */
  lemma PieceOk(g: Geometry, k: Key, stored: Body, work: Body, file: File, offset: nat, e: Option<Pix>, p: Pix, slot: nat,
                bytes: seq<Byte>, size: Option<nat>)
    requires Grown(g, k, stored, work, file, offset) && k.ix && work.Index? && slot < |work.ix|
    requires e == work.ix[slot] && (e == None || e == Some(p))
    ensures var work' := SetEntry(work, slot, Some(p));
            Grown(g, k, stored, if k.span == 0 then work'.(size := size) else work', file.(bytes := bytes), offset)
  {
  }

  lemma NoneEmpty(g: Geometry, store: map<Key, Body>, store': map<Key, Body>, files: map<nat, File>, id: nat, span: nat,
                  bytes: seq<Byte>)
    requires g.Ok() && id in files && OnlyLast(g, store, files, id, g.IxSpan(span))
    requires store'.Keys == store.Keys + {Key(id, false, span)}
    requires span < g.Pages(|bytes|) && g.Pages(|files[id].bytes|) <= g.Pages(|bytes|)
    ensures Tight(g, store', SetBytes(files, id, bytes), id)
  {
    g.SlotBounds(span);
  }

  /** Appends `chunk` to a file within one data page, and notes the page in the index page at hand. */
  method AppendPiece(fs: Spiffs, h: nat, id: nat, span: nat, po: nat, chunk: seq<Byte>, pix: Pix, offset: nat, written: nat,
                     ghost log0: seq<Flash>, ghost files0: map<nat, File>, ghost files1: map<nat, File>)
    returns (res: Status)
    requires fs.g.Ok() && Growing(fs, h, id, fs.g.IxSpan(span), pix, offset) && OnlyLast(fs.g, fs.dir.store, fs.files, id, fs.g.IxSpan(span))
    requires chunk != [] && po + |chunk| <= fs.g.dataSize && fs.g.Start(span) + po == |fs.files[id].bytes|
    requires LogImages(fs.g, log0, fs.log, files0, files1) && OldOrNew(fs.g, files0, fs.files, files1)
    requires OldOrNew(fs.g, files0, SetBytes(fs.files, id, Written(fs.files[id].bytes, fs.g.Start(span) + po, chunk)), files1)
    modifies fs`flash, fs`freeBlocks, fs`pAllocated, fs`pDeleted, fs`eraseCount, fs`maxErase, fs`dir, fs`log, fs`freeCursor, fs`work, fs`files
    ensures Growing(fs, h, id, fs.g.IxSpan(span), pix, offset) && LogImages(fs.g, log0, fs.log, files0, files1)
    ensures id in old(fs.files) && fs.g.Start(span) + po <= |old(fs.files)[id].bytes|
    ensures fs.files == if res.Ok? then SetBytes(old(fs.files), id, Written(old(fs.files)[id].bytes, fs.g.Start(span) + po, chunk))
                        else old(fs.files)
    ensures if res.Ok? then Tight(fs.g, fs.dir.store, fs.files, id) else fs.dir.store == old(fs.dir.store)
    ensures old(Credit(fs.g, fs.Now(), 0)) || po > 0 ==> res.Ok?
    ensures po == 0 ==> (res.Ok? <==> !old(Starved(fs.g, fs.flash, fs.freeBlocks)))
    ensures fs.pAllocated + fs.pDeleted <= old(fs.pAllocated + fs.pDeleted) + if po > 0 then 0 else 1
    ensures fs.freeBlocks >= old(fs.freeBlocks) - (if po > 0 then 0 else 1)
    ensures old(Settled(fs.g, fs.dir.fill, fs.freeCursor, None)) ==> Settled(fs.g, fs.dir.fill, fs.freeCursor, None)
  {
    hide PhysOk, LogicOk, Extends, Survives, LogImages, OldOrNew, Settled, PageImage, SetBytes, Written, FreeQuota, Grown, Tight, OnlyLast, Starved;
    var s := fs.g.IxSpan(span);
    ghost var g, v, k := fs.g, fs.Now(), Key(id, false, span);
    ghost var bytes0 := fs.files[id].bytes;
    ghost var bytes := Written(bytes0, g.Start(span) + po, chunk);
    if Credit(g, v, 0) {
      CreditRoom(g, v, 0);
    }
    TailEntry(g, v, id, span, po);
    PagesWritten(g, bytes0, span, po, chunk);
    var p;
    res, p := WriteTail(fs, id, span, po, chunk);
    if !res.Ok? {
      StepBack(g, v, fs.Now(), Some(Key(id, true, s)), Some(id), log0, old(fs.log), fs.log, files0, files1);
      return;
    }
    fs.work := Noted(fs.work, s, fs.g.IxSlot(span), p, Some(offset + written));
    fs.files := SetBytes(fs.files, id, bytes);
    PieceDone(g, v, fs.Now(), id, span, po, chunk, p, offset, Some(offset + written), log0, old(fs.log), fs.log, files0, files1);
  }

  /** The index page at hand, told of a data page; a header is also given the size before the write. */
  function Noted(work: Body, s: nat, slot: nat, p: Pix, size: Option<nat>): Body
    requires work.Index? && slot < |work.ix|
  {
    var work' := SetEntry(work, slot, Some(p));
    if s == 0 then work'.(size := size) else work'
  }

  lemma PieceDone(g: Geometry, v: Vals, v': Vals, id: nat, span: nat, po: nat, chunk: seq<Byte>, p: Pix, offset: nat, size: Option<nat>,
                  log0: seq<Flash>, log1: seq<Flash>, log2: seq<Flash>, files0: map<nat, File>, files1: map<nat, File>)
    requires g.Ok() && PhysOk(g, v.f, v.d, v.c, v.n, None) && id in v.files
    requires LogicOk(g, v, Some(Key(id, true, g.IxSpan(span))), Some(id))
    requires chunk != [] && po + |chunk| <= g.dataSize && g.Start(span) + po == |v.files[id].bytes|
    requires v'.files == SetBytes(v.files, id, Written(v.files[id].bytes, g.Start(span) + po, chunk))
    requires v'.d == With(v.d, Key(id, false, span), p, Data(PageImage(g, Written(v.files[id].bytes, g.Start(span) + po, chunk), span))).(fill := v'.d.fill)
    requires v'.fds == v.fds
    requires v.work.Index? && g.IxSlot(span) < |v.work.ix| ==> v'.work == Noted(v.work, g.IxSpan(span), g.IxSlot(span), p, size)
    requires Lookup(v.d.cat, Key(id, false, span)) == None || Lookup(v.d.cat, Key(id, false, span)) == Some(p)
    requires Key(id, true, g.IxSpan(span)) in v.d.store
    requires Grown(g, Key(id, true, g.IxSpan(span)), v.d.store[Key(id, true, g.IxSpan(span))], v.work, v.files[id], offset)
    requires OnlyLast(g, v.d.store, v.files, id, g.IxSpan(span))
    requires LogImages(g, log0, log1, files0, files1) && Extends(log1, log2) && Survives(log2, |log1|, v.d, v'.d)
    requires OldOrNew(g, files0, v.files, files1) && OldOrNew(g, files0, v'.files, files1)
    ensures LogicOk(g, v', Some(Key(id, true, g.IxSpan(span))), Some(id)) && LogImages(g, log0, log2, files0, files1)
    ensures id in v'.files
    ensures Grown(g, Key(id, true, g.IxSpan(span)), v.d.store[Key(id, true, g.IxSpan(span))], v'.work, v'.files[id], offset)
    ensures Tight(g, v'.d.store, v'.files, id) && SameIndexPages(v.d.cat, v'.d.cat) && SameBodies(v.d.store, v'.d.store)
  {
    hide PhysOk, LogicOk, Extends, Survives, LogImages, OldOrNew, PageImage, SetBytes, Written, Grown, Tight, OnlyLast, SameIndexPages, SameBodies;
    var k, ik := Key(id, false, span), Key(id, true, g.IxSpan(span));
    var bytes := Written(v.files[id].bytes, g.Start(span) + po, chunk);
    TailEntry(g, v, id, span, po);
    PagesWritten(g, v.files[id].bytes, span, po, chunk);
    var v1 := v'.(work := SetEntry(v.work, g.IxSlot(span), Some(p)));
    PutOk(g, v, v1, Some(id), k, po, chunk, p, log0, log1, log2, files0, files1);
    ResizedWork(g, v1, v', ik);
    PieceOk(g, ik, v.d.store[ik], v.work, v.files[id], offset, v.work.ix[g.IxSlot(span)], p, g.IxSlot(span), bytes, size);
    FilesSet(v.files, id, bytes);
    SameKeys(g, v, Some(ik), Some(id));
    NoneEmpty(g, v.d.store, v'.d.store, v.files, id, span, bytes);
  }

  lemma FilesSet(files: map<nat, File>, id: nat, bytes: seq<Byte>)
    requires id in files
    ensures id in SetBytes(files, id, bytes) && SetBytes(files, id, bytes)[id] == files[id].(bytes := bytes)
  {
  }

  lemma SameKeys(g: Geometry, v: Vals, wk: Option<Key>, busy: Option<nat>)
    requires g.Ok() && LogicOk(g, v, wk, busy)
    ensures v.d.store.Keys == v.d.cat.Keys
  {
  }

  // ----- the loop -----

  lemma SizeNoted(g: Geometry, v: Vals, wk: Option<Key>, h: nat, size: Option<nat>)
    requires g.Ok() && h < |v.fds| && LogicOk(g, v, wk, Some(v.fds[h].id))
    ensures LogicOk(g, v.(fds := v.fds[h := v.fds[h].(size := size)]), wk, Some(v.fds[h].id))
    ensures forall a | SameFds(a, v.fds) :: SameFds(a, v.fds[h := v.fds[h].(size := size)])
  {
    var fds := v.fds[h := v.fds[h].(size := size)];
    forall i | 0 <= i < |fds|
      ensures FdOk(fds[i], v.d.cat, v.files, Some(v.fds[h].id))
    {
      assert FdOk(v.fds[i], v.d.cat, v.files, Some(v.fds[h].id));
    }
  }

  /** Which index page the end of a file, span `span`, needs, and whether the file has it. */
  lemma WhichIndex(g: Geometry, v: Vals, id: nat, span: nat, po: nat)
    requires g.Ok() && LogicOk(g, v, None, Some(id)) && id in v.files && Tight(g, v.d.store, v.files, id)
    requires g.Start(span) + po == |v.files[id].bytes| && po < g.dataSize
    ensures Key(id, true, 0) in v.d.cat
    ensures g.IxSpan(span) != 0 ==> v.files[id].bytes != []
    ensures v.files[id].bytes != [] ==> g.PageOf(|v.files[id].bytes| - 1) == g.Pages(|v.files[id].bytes|) - 1
    ensures v.files[id].bytes != [] && g.IxSpan(span) <= g.IxSpan(g.PageOf(|v.files[id].bytes| - 1)) ==> Key(id, true, g.IxSpan(span)) in v.d.cat
    ensures g.IxSpan(span) != 0 && g.IxSpan(span) != g.IxSpan(g.PageOf(|v.files[id].bytes| - 1)) ==>
              po == 0 && g.Base(g.IxSpan(span)) == g.Pages(|v.files[id].bytes|)
  {
    var bytes := v.files[id].bytes;
    HeaderExists(g, v, id);
    if bytes != [] {
      IndexExists(g, v, None, Some(id), id, g.PageOf(|bytes| - 1));
      LastSpan(g, |bytes|, span, po);
    }
  }

  lemma HeaderExists(g: Geometry, v: Vals, id: nat)
    requires g.Ok() && LogicOk(g, v, None, Some(id)) && id in v.files
    ensures Key(id, true, 0) in v.d.cat
  {
    assert HasIx(g, |v.files[id].bytes|, 0, false);
  }

  lemma LastSpan(g: Geometry, size: nat, span: nat, po: nat)
    requires g.Ok() && size > 0 && g.Start(span) + po == size && po < g.dataSize
    ensures if po > 0 then span == g.PageOf(size - 1) else span == g.PageOf(size - 1) + 1
    ensures g.IxSpan(g.PageOf(size - 1)) <= g.IxSpan(span)
    ensures g.IxSpan(span) != g.IxSpan(g.PageOf(size - 1)) ==> po == 0 && g.Base(g.IxSpan(span)) == g.Pages(size)
  {
    if po > 0 {
      g.PageOfUnique(size - 1, span);
    } else {
      g.PageOfUnique(size - 1, span - 1);
      g.IxSpanStep(span - 1);
    }
  }

  /** Between two rounds of appending: index page `prev` is at hand, or none yet. */
  ghost predicate Between(fs: Spiffs, h: nat, id: nat, prev: Option<nat>, pix: Pix, offset: nat, written: nat)
    reads fs
  {
    && fs.g.Ok() && id in fs.files && |fs.files[id].bytes| == offset + written
    && Tight(fs.g, fs.dir.store, fs.files, id)
    && if prev.Some? then Growing(fs, h, id, prev.value, pix, offset) && written > 0
       else && Mid(fs, None, Some(id)) && h < |fs.fds| && fs.fds[h].open && fs.fds[h].id == id && written == 0
            && SizeAgrees(fs.fds[h].size, fs.files[id].bytes)
            && (offset == 0 && Key(id, true, 0) in fs.dir.store && fs.dir.store[Key(id, true, 0)].Index? ==>
                  fs.dir.store[Key(id, true, 0)].size == None)
  }

  lemma LoadedGrown(g: Geometry, k: Key, stored: Body, file: File, offset: nat)
    requires BodyOk(g, k, stored, file, true) && k.ix
    requires k.span == 0 && offset == 0 && stored.Index? ==> stored.size == None
    ensures Grown(g, k, stored, stored, file, offset)
  {
  }

  lemma TightOnly(g: Geometry, store: map<Key, Body>, files: map<nat, File>, id: nat, s: nat)
    requires g.Ok() && Tight(g, store, files, id)
    ensures OnlyLast(g, store, files, id, s)
  {
  }

  lemma TightKeys(g: Geometry, store: map<Key, Body>, store': map<Key, Body>, files: map<nat, File>, id: nat)
    requires g.Ok() && Tight(g, store, files, id) && store'.Keys == store.Keys
    ensures Tight(g, store', files, id)
  {
  }

  /** Stores the index page at hand with the size so far. */
  method StorePrevious(fs: Spiffs, h: nat, id: nat, prev: nat, pix: Pix, offset: nat, written: nat,
                       ghost log0: seq<Flash>, ghost files0: map<nat, File>, ghost files1: map<nat, File>)
    returns (res: Status)
    requires Between(fs, h, id, Some(prev), pix, offset, written)
    requires LogImages(fs.g, log0, fs.log, files0, files1) && OldOrNew(fs.g, files0, fs.files, files1)
    modifies fs`flash, fs`freeBlocks, fs`pAllocated, fs`pDeleted, fs`eraseCount, fs`maxErase, fs`dir, fs`log, fs`freeCursor, fs`work, fs`fds
    ensures fs.Phys() && LogImages(fs.g, log0, fs.log, files0, files1) && SameFds(old(fs.fds), fs.fds)
    ensures res.Ok? ==> Mid(fs, None, Some(id)) && Tight(fs.g, fs.dir.store, fs.files, id)
    ensures res.Ok? ==> h < |fs.fds| && fs.fds[h].size == Some(offset + written)
    ensures old(Credit(fs.g, fs.Now(), 0)) ==> res.Ok?
    ensures fs.pAllocated + fs.pDeleted <= old(fs.pAllocated + fs.pDeleted) + 1
    ensures fs.freeBlocks >= old(fs.freeBlocks) - 1
    ensures old(Settled(fs.g, fs.dir.fill, fs.freeCursor, None)) ==> Settled(fs.g, fs.dir.fill, fs.freeCursor, None)
  {
    hide PhysOk, LogicOk, LogImages, OldOrNew, Settled, FreeQuota, Tight, Grown, SameFds;
    ghost var fds := fs.fds;
    res := FinishIndex(fs, h, id, prev, pix, offset, offset + written, false, log0, files0, files1);
    if !res.Ok? {
      return;
    }
    TightKeys(fs.g, old(fs.dir.store), fs.dir.store, fs.files, id);
    SameFdsAt(fds, fs.fds, h);
    SizeNoted(fs.g, fs.Now(), None, h, Some(offset + written));
    fs.fds := fs.fds[h := fs.fds[h].(size := Some(offset + written))];
  }

  /** Loads index page `s`, to which entries will be added. */
  method LoadGrowing(fs: Spiffs, h: nat, id: nat, s: nat, ghost offset: nat) returns (res: Status, pix: Pix)
    requires Mid(fs, None, Some(id)) && h < |fs.fds| && fs.fds[h].open && fs.fds[h].id == id && id in fs.files
    requires Key(id, true, s) in fs.dir.cat && Tight(fs.g, fs.dir.store, fs.files, id)
    requires s == 0 && offset == 0 && Key(id, true, 0) in fs.dir.store && fs.dir.store[Key(id, true, 0)].Index? ==>
               fs.dir.store[Key(id, true, 0)].size == None
    modifies fs`cursor, fs`work, fs`fds
    ensures res.Ok? && SameFds(old(fs.fds), fs.fds) && Tight(fs.g, fs.dir.store, fs.files, id)
    ensures Growing(fs, h, id, s, pix, offset) && OnlyLast(fs.g, fs.dir.store, fs.files, id, s)
  {
    hide PhysOk, LogicOk, Tight, OnlyLast, Grown, SameFds, BodyOk;
    ghost var v, k := fs.Now(), Key(id, true, s);
    SameKeys(fs.g, v, None, Some(id));
    HeaderBody(fs.g, v, None, Some(id), fs.files[id], k);
    LoadedGrown(fs.g, k, fs.dir.store[k], fs.files[id], offset);
    TightOnly(fs.g, fs.dir.store, fs.files, id, s);
    res, pix := LoadIndexPage(fs, h, s, true, Some(id), None);
    SameFdsAt(v.fds, fs.fds, h);
  }

  /** Makes index page `s`, which the end of the file needs, the one at hand: stores the previous one,
      then loads the page, or creates it (`made`) with no entry yet. */
  method SwitchAppend(fs: Spiffs, h: nat, id: nat, prev: Option<nat>, s: nat, pix0: Pix, offset: nat, written: nat, ghost span: nat, ghost po: nat,
                      ghost log0: seq<Flash>, ghost files0: map<nat, File>, ghost files1: map<nat, File>)
    returns (res: Status, pix: Pix, made: bool)
    requires Between(fs, h, id, prev, pix0, offset, written) && s == fs.g.IxSpan(span) && po < fs.g.dataSize
    requires fs.g.Start(span) + po == offset + written
    requires prev.Some? ==> po == 0 && span >= 1 && prev.value == fs.g.IxSpan(span - 1) && prev.value != s
    requires LogImages(fs.g, log0, fs.log, files0, files1) && OldOrNew(fs.g, files0, fs.files, files1)
    modifies fs`flash, fs`freeBlocks, fs`pAllocated, fs`pDeleted, fs`eraseCount, fs`maxErase, fs`dir, fs`log, fs`freeCursor,
             fs`work, fs`fds, fs`cursor
    ensures fs.Phys() && LogImages(fs.g, log0, fs.log, files0, files1) && SameFds(old(fs.fds), fs.fds)
    ensures res.Ok? ==> Growing(fs, h, id, s, pix, offset) && OnlyLast(fs.g, fs.dir.store, fs.files, id, s)
    ensures res.Ok? && !made ==> Tight(fs.g, fs.dir.store, fs.files, id)
    ensures prev.None? && s == 0 ==> res.Ok? && fs.flash == old(fs.flash) && fs.freeBlocks == old(fs.freeBlocks)
    ensures old(Credit(fs.g, fs.Now(), if prev.Some? then 1 else if po > 0 then -1 else 0)) ==> res.Ok?
    ensures fs.pAllocated + fs.pDeleted <= old(fs.pAllocated + fs.pDeleted) + if prev.Some? then 2 else if po > 0 then 0 else 1
    ensures fs.freeBlocks >= old(fs.freeBlocks) - (if prev.Some? then 2 else if po > 0 then 0 else 1)
    ensures old(Settled(fs.g, fs.dir.fill, fs.freeCursor, None)) ==> Settled(fs.g, fs.dir.fill, fs.freeCursor, None)
  {
    hide PhysOk, LogicOk, LogImages, OldOrNew, Settled, FreeQuota, Tight, OnlyLast, Grown, SameFds, BodyOk;
    ghost var g, v, fds := fs.g, fs.Now(), fs.fds;
    EqualFds(fs.fds);
    pix, made := pix0, false;
    if prev.Some? {
      if Credit(g, v, 1) {
        CreditAtLeast(g, v, 1, 0);
      }
      res := StorePrevious(fs, h, id, prev.value, pix0, offset, written, log0, files0, files1);
      if !res.Ok? {
        return;
      }
      if Credit(g, v, 1) {
        CreditLeft(g, v, fs.Now(), 1, 1);
      }
    }
    SameFdsAt(fds, fs.fds, h);
    WhichIndex(g, fs.Now(), id, span, po);
    SpanAfter(g, offset + written, span, po, prev);
    ghost var fds1 := fs.fds;
    // the span of the index page that holds the last entry
    var size := fs.fds[h].size.GetOr(0xffff_ffff);
    if s == 0 || (written == 0 && s <= fs.g.IxSpan((size - 1) / fs.g.dataSize)) {
      res, pix := LoadGrowing(fs, h, id, s, offset);
    } else {
      res, pix := CreateIndexPage(fs, h, id, s, offset, log0, files0, files1);
      made := true;
    }
    SameFdsChain(fds, fds1, fs.fds);
  }

  lemma SpanAfter(g: Geometry, size: nat, span: nat, po: nat, prev: Option<nat>)
    requires g.Ok() && g.Start(span) + po == size && po < g.dataSize
    requires prev.Some? ==> po == 0 && span >= 1 && prev.value == g.IxSpan(span - 1)
    ensures size > 0 ==> (size - 1) / g.dataSize == g.PageOf(size - 1)
    ensures prev.Some? ==> size > 0 && g.PageOf(size - 1) == span - 1
  {
    if size > 0 {
      g.SplitOffset(size - 1);
      LastSpan(g, size, span, po);
    }
  }

  /** Page allocations that appending still needs from span `span` on: data pages, and for every index
      page its creation and a new header. */
  function Needed(g: Geometry, end: nat, span: nat, po: nat, begun: bool): int
    requires g.Ok() && 1 <= end && (begun ==> span >= 1)
  {
    end - span + 2 * (g.IxSpan(end - 1) - g.IxSpan(if begun then span - 1 else span)) + if begun then 1 else if po > 0 then 0 else 2
  }

  /** Allocations of one round. */
  function Cost(g: Geometry, span: nat, po: nat, prev: Option<nat>): int
    requires g.Ok()
  {
    if prev.None? then (if po > 0 then 0 else 2) else if prev == Some(g.IxSpan(span)) then 1 else 3
  }

  lemma NeededSteps(g: Geometry, end: nat, span: nat, po: nat, prev: Option<nat>)
    requires g.Ok() && span < end && (prev.Some? ==> span >= 1 && prev.value == g.IxSpan(span - 1))
    ensures Needed(g, end, span + 1, 0, true) == Needed(g, end, span, po, prev.Some?) - Cost(g, span, po, prev)
    ensures Needed(g, end, span + 1, 0, true) >= 1
    ensures prev.None? ==> Cost(g, span, po, prev) <= 2
  {
    g.IxSpanMonotone(span, end - 1);
    if prev.Some? {
      g.IxSpanStep(span - 1);
    }
  }

  /** One round of appending. Where the data cannot be written, the index page at hand has entries
      unless it has just been `made`. */
  method AppendChunk(fs: Spiffs, h: nat, id: nat, offset: nat, data: seq<Byte>, written: nat, span: nat, po: nat, prev: Option<nat>,
                     pix0: Pix, ghost log0: seq<Flash>, ghost files0: map<nat, File>, ghost m: int)
    returns (res: Status, n: nat, pix: Pix, fatal: bool, made: bool)
    requires Between(fs, h, id, prev, pix0, offset, written)
    requires id in files0 && offset == |files0[id].bytes| && written < |data|
    requires fs.g.Start(span) + po == offset + written && po < fs.g.dataSize && (prev.Some? ==> po == 0)
    requires prev.Some? ==> span >= 1 && prev.value == fs.g.IxSpan(span - 1)
    requires fs.files == Partly(files0, id, offset, data, written)
    requires LogImages(fs.g, log0, fs.log, files0, Partly(files0, id, offset, data, |data|))
    modifies fs`flash, fs`freeBlocks, fs`pAllocated, fs`pDeleted, fs`eraseCount, fs`maxErase, fs`dir, fs`log, fs`freeCursor,
             fs`work, fs`fds, fs`cursor, fs`files
    ensures fs.Phys() && LogImages(fs.g, log0, fs.log, files0, Partly(files0, id, offset, data, |data|)) && SameFds(old(fs.fds), fs.fds)
    ensures n == if |data| - written < fs.g.dataSize - po then |data| - written else fs.g.dataSize - po
    ensures written + n < |data| ==> fs.g.Start(span + 1) == offset + written + n && span + 1 < fs.g.Pages(offset + |data|)
    ensures fatal ==> !res.Ok?
    ensures !fatal && !made ==> Tight(fs.g, fs.dir.store, fs.files, id)
    ensures !fatal ==> Growing(fs, h, id, fs.g.IxSpan(span), pix, offset)
                       && fs.files == Partly(files0, id, offset, data, if res.Ok? then written + n else written)
                       && OldOrNew(fs.g, files0, fs.files, Partly(files0, id, offset, data, |data|))
    ensures res.Ok? ==> Between(fs, h, id, Some(fs.g.IxSpan(span)), pix, offset, written + n)
    ensures old(Credit(fs.g, fs.Now(), m)) && m >= Cost(fs.g, span, po, prev) - 1 ==>
              res.Ok? && Credit(fs.g, fs.Now(), m - Cost(fs.g, span, po, prev))
    ensures prev.None? && fs.g.IxSpan(span) == 0 && po == 0 ==> !fatal && (res.Ok? <==> !old(Starved(fs.g, fs.flash, fs.freeBlocks)))
    ensures !fatal && old(Settled(fs.g, fs.dir.fill, fs.freeCursor, None)) ==> Settled(fs.g, fs.dir.fill, fs.freeCursor, None)
  {
    hide PhysOk, LogicOk, LogImages, OldOrNew, Settled, Partly, SameFds, SetBytes, Written, FilesOk, Tight, OnlyLast, Grown, FreeQuota, Credit,
         Starved, Geometry.Pages, Geometry.PageOf, Geometry.IxSpan, Geometry.Start;
    ghost var g, v := fs.g, fs.Now();
    ghost var files1 := Partly(files0, id, offset, data, |data|);
    ghost var ample := Credit(g, v, m) && m >= Cost(g, span, po, prev) - 1;
    fatal, made := false, false;
    n := if |data| - written < fs.g.dataSize - po then |data| - written else fs.g.dataSize - po;
    NextChunk(g, files0, id, offset, data, written, span, po, n);
    EqualFds(fs.fds);
    var s := fs.g.IxSpan(span);
    pix := pix0;
    if prev != Some(s) {
      if ample {
        CreditAtLeast(g, v, m, if prev.Some? then 1 else if po > 0 then -1 else 0);
      }
      res, pix, made := SwitchAppend(fs, h, id, prev, s, pix0, offset, written, span, po, log0, files0, files1);
      if !res.Ok? {
        fatal := true;
        return;
      }
      if ample {
        CreditLeft(g, v, fs.Now(), m, if prev.Some? then 2 else if po > 0 then 0 else 1);
      }
    } else {
      TightOnly(g, fs.dir.store, fs.files, id, s);
    }
    ghost var v1, m1 := fs.Now(), m - Cost(g, span, po, prev) + if po > 0 then 0 else 1;
    if ample && po == 0 {
      CreditAtLeast(g, v1, m1, 0);
    }
    res := AppendPiece(fs, h, id, span, po, data[written..written + n], pix, offset, written, log0, files0, files1);
    NextChunkSize(g, files0, id, offset, data, written + n);
    if ample {
      CreditLeft(g, v1, fs.Now(), m1, if po > 0 then 0 else 1);
    }
  }

  lemma NextChunkSize(g: Geometry, files0: map<nat, File>, id: nat, offset: nat, data: seq<Byte>, w: nat)
    requires id in files0 && offset == |files0[id].bytes| && w <= |data|
    ensures id in Partly(files0, id, offset, data, w) && |Partly(files0, id, offset, data, w)[id].bytes| == offset + w
  {
  }

  lemma ZeroSpan(g: Geometry, span: nat, po: nat)
    requires g.Ok()
    ensures g.Start(span) + po == 0 ==> g.IxSpan(span) == 0
  {
    if span > 0 {
      g.StartMonotone(0, span);
    }
  }

  lemma BetweenFacts(fs: Spiffs, h: nat, id: nat, prev: Option<nat>, pix: Pix, offset: nat, written: nat)
    requires Between(fs, h, id, prev, pix, offset, written)
    ensures fs.Phys() && fs.g.Ok() && h < |fs.fds| && id in fs.files && |fs.files[id].bytes| == offset + written
    ensures Tight(fs.g, fs.dir.store, fs.files, id)
    ensures prev.Some? ==> Growing(fs, h, id, prev.value, pix, offset)
  {
  }

  lemma BetweenAny(fs: Spiffs, h: nat, id: nat, pix: Pix, q: Pix, offset: nat)
    requires Between(fs, h, id, None, pix, offset, 0)
    ensures Between(fs, h, id, None, q, offset, 0)
  {
  }

  lemma NeededOne(g: Geometry, end: nat, span: nat, po: nat)
    requires g.Ok() && 1 <= span <= end
    ensures Needed(g, end, span, po, true) >= 1
  {
    g.IxSpanMonotone(span - 1, end - 1);
  }

  /** The rounds of appending. */
  method AppendPages(fs: Spiffs, h: nat, id: nat, offset: nat, data: seq<Byte>, ghost log0: seq<Flash>, ghost files0: map<nat, File>,
                     ghost need: int, ghost m: int)
    returns (res: Status, written: nat, s: nat, pix: Pix, fatal: bool, made: bool)
    requires id in files0 && offset == |files0[id].bytes| && data != []
    requires Between(fs, h, id, None, Pix(0, 0), offset, 0) && fs.files == Partly(files0, id, offset, data, 0)
    requires need == Needed(fs.g, fs.g.Pages(offset + |data|), fs.g.PageOf(offset), offset % fs.g.dataSize, false)
    requires LogImages(fs.g, log0, fs.log, files0, Partly(files0, id, offset, data, |data|))
    modifies fs`flash, fs`freeBlocks, fs`pAllocated, fs`pDeleted, fs`eraseCount, fs`maxErase, fs`dir, fs`log, fs`freeCursor,
             fs`work, fs`fds, fs`cursor, fs`files
    ensures fs.Phys() && LogImages(fs.g, log0, fs.log, files0, Partly(files0, id, offset, data, |data|)) && SameFds(old(fs.fds), fs.fds)
    ensures fatal ==> !res.Ok?
    ensures !fatal ==> Growing(fs, h, id, s, pix, offset) && written <= |data| && fs.files == Partly(files0, id, offset, data, written)
                       && OldOrNew(fs.g, files0, fs.files, Partly(files0, id, offset, data, |data|))
    ensures !fatal ==> offset + written > 0 || s == 0
    ensures !fatal && !made ==> Tight(fs.g, fs.dir.store, fs.files, id)
    ensures res.Ok? ==> written == |data| && !made
    ensures !fatal && old(Settled(fs.g, fs.dir.fill, fs.freeCursor, None)) ==> Settled(fs.g, fs.dir.fill, fs.freeCursor, None)
    ensures old(Credit(fs.g, fs.Now(), m)) && m >= need - 1 ==> res.Ok? && Credit(fs.g, fs.Now(), m - need + 1)
    ensures old(Credit(fs.g, fs.Now(), 1)) ==> fatal || written > 0
    ensures offset == 0 ==> (!fatal && written == 0 <==> old(Starved(fs.g, fs.flash, fs.freeBlocks)))
  {
    hide PhysOk, LogicOk, LogImages, OldOrNew, Settled, Partly, SameFds, SetBytes, FilesOk, Tight, Growing, FreeQuota, Credit, Needed, Cost, Between, Starved,
         Geometry.Pages, Geometry.PageOf, Geometry.IxSpan, Geometry.Start;
    BetweenFacts(fs, h, id, None, Pix(0, 0), offset, 0);
    ghost var g, fds0, end := fs.g, fs.fds, fs.g.Pages(offset + |data|);
    ghost var ample, lucky := Credit(g, fs.Now(), m) && m >= need - 1, Credit(g, fs.Now(), 1);
    g.SplitOffset(offset);
    StartSpan(g, offset, |data|);
    WorkedNothing(g, files0, id, offset, data, files0);
    EqualFds(fs.fds);
    res, fatal, made, written := Ok, false, false, 0;
    var span: nat, po: nat := offset / fs.g.dataSize, offset % fs.g.dataSize;
    var prev: Option<nat> := None;
    s, pix := 0, fs.fds[h].hdrPix;
    BetweenAny(fs, h, id, Pix(0, 0), pix, offset);
    while written < |data|
      invariant written <= |data| && span <= end && res.Ok? && !fatal
      invariant Between(fs, h, id, prev, pix, offset, written) && fs.files == Partly(files0, id, offset, data, written)
      invariant prev.Some? ==> prev == Some(s) && OldOrNew(g, files0, fs.files, Partly(files0, id, offset, data, |data|))
      invariant LogImages(g, log0, fs.log, files0, Partly(files0, id, offset, data, |data|))
      invariant SameFds(fds0, fs.fds)
      invariant if prev.None? then written == 0 else written > 0 && span >= 1 && s == g.IxSpan(span - 1)
      invariant written < |data| ==> g.Start(span) + po == offset + written && po < g.dataSize && (prev.Some? ==> po == 0) && span < end
      invariant old(Settled(fs.g, fs.dir.fill, fs.freeCursor, None)) ==> Settled(g, fs.dir.fill, fs.freeCursor, None)
      invariant ample ==> Credit(g, fs.Now(), m - need + Needed(g, end, span, po, prev.Some?))
      invariant lucky && prev.None? ==> Credit(g, fs.Now(), 1)
      invariant prev.None? ==> span == g.PageOf(offset) && po == offset % g.dataSize
                               && fs.flash == old(fs.flash) && fs.freeBlocks == old(fs.freeBlocks)
      invariant prev.Some? && offset == 0 ==> !old(Starved(fs.g, fs.flash, fs.freeBlocks))
      decreases |data| - written
    {
      ZeroSpan(g, span, po);
      ghost var fds := fs.fds;
      NeededSteps(g, end, span, po, prev);
      var n;
      s := fs.g.IxSpan(span);
      BetweenFacts(fs, h, id, prev, pix, offset, written);
      res, n, pix, fatal, made := AppendChunk(fs, h, id, offset, data, written, span, po, prev, pix, log0, files0,
                                              if ample then m - need + Needed(g, end, span, po, prev.Some?) else 1);
      SameFdsChain(fds0, fds, fs.fds);
      if fatal || !res.Ok? {
        return;
      }
      prev := Some(s);
      po := 0;
      span := span + 1;
      written := written + n;
    }
    made := false;
    BetweenFacts(fs, h, id, prev, pix, offset, written);
    if ample {
      NeededOne(g, end, span, po);
      CreditAtLeast(g, fs.Now(), m - need + Needed(g, end, span, po, true), m - need + 1);
    }
  }

  method NoteSize(fs: Spiffs, h: nat, id: nat, s: nat, pix: Pix, offset: nat, size: nat)
    requires Growing(fs, h, id, s, pix, offset)
    modifies fs`fds
    ensures Growing(fs, h, id, s, pix, offset) && SameFds(old(fs.fds), fs.fds) && h < |fs.fds| && fs.fds[h].size == Some(size)
    ensures forall n :: old(Credit(fs.g, fs.Now(), n)) ==> Credit(fs.g, fs.Now(), n)
  {
    hide PhysOk, LogicOk, Grown, SameFds;
    EqualFds(fs.fds);
    SizeNoted(fs.g, fs.Now(), Some(Key(id, true, s)), h, Some(size));
    fs.fds := fs.fds[h := fs.fds[h].(size := Some(size))];
  }

  lemma EmptyHeader(g: Geometry, v: Vals, id: nat)
    requires g.Ok() && LogicOk(g, v, None, None) && id in v.files
    ensures v.files[id].bytes == [] && Key(id, true, 0) in v.d.store && v.d.store[Key(id, true, 0)].Index? ==>
              v.d.store[Key(id, true, 0)].size == None
  {
  }

  /** Page allocations that appending `len` bytes to a file of `size` bytes takes at most. */
  function AppendCost(g: Geometry, size: nat, len: nat): int
    requires g.Ok() && len > 0
  {
    StartSpan(g, size, len);
    Needed(g, g.Pages(size + len), g.PageOf(size), size % g.dataSize, false)
  }

  /** The header of file `id` says that it has no byte, where an empty file's says nothing. */
  ghost predicate SaysZero(d: Dir, id: nat) {
    Key(id, true, 0) in d.store && d.store[Key(id, true, 0)].Index? && d.store[Key(id, true, 0)].size == Some(0)
  }

  /** The rounds of appending, and what is done after them. `w` bytes of `data` reach the file, which is
      `whole` unless an index page could not be stored or is left without entries, or the file was and
      stays empty: then its header gets a size of `zero`. */
  method AppendNow(fs: Spiffs, h: nat, id: nat, offset: nat, data: seq<Byte>, ghost log0: seq<Flash>, ghost files0: map<nat, File>, ghost m: int)
    returns (res: Status, whole: bool, ghost w: nat, ghost zero: bool)
    requires fs.Valid() && h < |fs.fds| && fs.fds[h].open && fs.fds[h].id == id && id in fs.files && fs.files == files0
    requires data != [] && offset == |files0[id].bytes|
    requires LogImages(fs.g, log0, fs.log, files0, Partly(files0, id, offset, data, |data|))
    modifies fs
    ensures fs.Phys() && SameFds(old(fs.fds), fs.fds) && w <= |data|
    ensures LogImages(fs.g, log0, fs.log, files0, Partly(files0, id, offset, data, |data|))
    ensures whole ==> fs.Valid() && fs.files == Partly(files0, id, offset, data, w)
    ensures res.Ok? ==> whole && w == |data|
    ensures whole && old(Settled(fs.g, fs.dir.fill, fs.freeCursor, None)) ==> Settled(fs.g, fs.dir.fill, fs.freeCursor, None)
    ensures old(Credit(fs.g, fs.Now(), m)) && m >= AppendCost(fs.g, offset, |data|) - 1 ==>
              res.Ok? && Credit(fs.g, fs.Now(), m - AppendCost(fs.g, offset, |data|))
    ensures zero <==> offset == 0 && old(Starved(fs.g, fs.flash, fs.freeBlocks))
    ensures zero ==> !whole && SaysZero(fs.dir, id) && !old(Credit(fs.g, fs.Now(), 1))
  {
    hide PhysOk, LogicOk, LogImages, OldOrNew, Settled, Partly, SameFds, SetBytes, FilesOk, Tight, Growing, Needed, Credit, AppendCost, SaysZero, Starved,
         Geometry.Pages, Geometry.PageOf, Geometry.IxSpan;
    ghost var g, fds0, cost := fs.g, fs.fds, AppendCost(fs.g, offset, |data|);
    StartNeeded(g, offset, |data|);
    WorkedNothing(g, files0, id, offset, data, Partly(files0, id, offset, data, |data|));
    FdFacts(g, fs.Now(), None, None, h);
    EmptyHeader(g, fs.Now(), id);
    Begin(g, fs.Now(), id);
    w, whole, zero := 0, false, false;
    var written, s, pix, fatal, made;
    res, written, s, pix, fatal, made := AppendPages(fs, h, id, offset, data, log0, files0, cost, m);
    if fatal {
      return;
    }
    w := written;
    ghost var fds1 := fs.fds;
    NoteSize(fs, h, id, s, pix, offset, offset + written);
    ghost var v2 := fs.Now();
    if Credit(g, v2, m - cost + 1) && m - cost + 1 >= 0 {
      CreditAtLeast(g, v2, m - cost + 1, 0);
    }
    NextChunkSize(g, files0, id, offset, data, written);
    var res2 := FinishAppend(fs, h, id, s, pix, offset, offset + written, log0, files0, Partly(files0, id, offset, data, |data|));
    SameFdsChain(fds0, fds1, v2.fds);
    SameFdsChain(fds0, v2.fds, fs.fds);
    whole := res2.Ok? && !made && offset + written > 0;
    zero := res2.Ok? && offset + written == 0;
    if Credit(g, v2, m - cost + 1) {
      CreditLeft(g, v2, fs.Now(), m - cost + 1, 1);
    }
    if !res2.Ok? {
      res := res2;
    }
  }

  /** Stores the index page at hand and the new size; if every index page has entries, the file is whole again. */
  method FinishAppend(fs: Spiffs, h: nat, id: nat, s: nat, pix: Pix, offset: nat, total: nat,
                      ghost log0: seq<Flash>, ghost files0: map<nat, File>, ghost files1: map<nat, File>)
    returns (res: Status)
    requires Growing(fs, h, id, s, pix, offset) && (total > 0 || (s == 0 && offset == 0))
    requires LogImages(fs.g, log0, fs.log, files0, files1) && OldOrNew(fs.g, files0, fs.files, files1)
    modifies fs`flash, fs`freeBlocks, fs`pAllocated, fs`pDeleted, fs`eraseCount, fs`maxErase, fs`dir, fs`log, fs`freeCursor, fs`work, fs`fds
    ensures fs.Phys() && fs.files == old(fs.files) && LogImages(fs.g, log0, fs.log, files0, files1) && SameFds(old(fs.fds), fs.fds)
    ensures res.Ok? && total > 0 && id in fs.files && total == |fs.files[id].bytes| && old(Tight(fs.g, fs.dir.store, fs.files, id)) ==> fs.Valid()
    ensures res.Ok? && total == 0 ==> SaysZero(fs.dir, id)
    ensures old(Credit(fs.g, fs.Now(), 0)) || (s == 0 && offset == 0) ==> res.Ok?
    ensures fs.pAllocated + fs.pDeleted <= old(fs.pAllocated + fs.pDeleted) + 1
    ensures fs.freeBlocks >= old(fs.freeBlocks) - 1
    ensures old(Settled(fs.g, fs.dir.fill, fs.freeCursor, None)) ==> Settled(fs.g, fs.dir.fill, fs.freeCursor, None)
  {
    hide PhysOk, LogicOk, LogImages, OldOrNew, Settled, SameFds, FreeQuota, Tight, Growing;
    GrowingFacts(fs, h, id, s, pix, offset);
    ghost var store := fs.dir.store;
    res := FinishIndex(fs, h, id, s, pix, offset, total, true, log0, files0, files1);
    if res.Ok? && total > 0 && total == |fs.files[id].bytes| && Tight(fs.g, store, fs.files, id) {
      TightKeys(fs.g, store, fs.dir.store, fs.files, id);
      End(fs.g, fs.Now(), id);
    }
  }

  lemma GrowingFacts(fs: Spiffs, h: nat, id: nat, s: nat, pix: Pix, offset: nat)
    requires Growing(fs, h, id, s, pix, offset)
    ensures fs.g.Ok() && id in fs.files
  {
  }

  lemma StartNeeded(g: Geometry, offset: nat, len: nat)
    requires g.Ok() && len > 0
    ensures g.PageOf(offset) < g.Pages(offset + len)
    ensures 1 <= AppendCost(g, offset, len) == Needed(g, g.Pages(offset + len), g.PageOf(offset), offset % g.dataSize, false)
  {
    StartSpan(g, offset, len);
    g.IxSpanMonotone(g.PageOf(offset), g.Pages(offset + len) - 1);
  }
}
