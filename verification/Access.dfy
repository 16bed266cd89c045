/** Creating files, reading them, and writing over and past their end (spiffs_object_create,
    spiffs_object_read and spiffs_hydro_write). */
module Access {
  import opened Options
  import opened Layout
  import opened Catalog
  import opened Files
  import opened Store
  import opened Tally
  import opened Gc
  import opened Collect
  import opened Content
  import opened Steps
  import opened Objects
  import opened Appending
  import opened Holes

  // ----- create -----

  function EmptyIndex(g: Geometry, name: string): Body {
    Index(name, None, seq(g.hdrLen, _ => None))
  }

  /** A new object: its header page is there, and nothing else. */
  lemma CreatedLogic(g: Geometry, v: Vals, v': Vals, id: nat, name: string, p: Pix)
    requires g.Ok() && LogicOk(g, v, None, None) && id !in v.files
    requires v'.d == With(v.d, Key(id, true, 0), p, EmptyIndex(g, name)).(fill := v'.d.fill)
    requires v'.files == v.files[id := File(name, [])]
    requires |v'.fds| == |v.fds| && forall i | 0 <= i < |v.fds| :: v'.fds[i] == Notified(v.fds[i], New, id, 0, p, SizeIs(None))
    ensures LogicOk(g, v', None, None) && v'.fds == v.fds
  {
    hide FilesOk, FdsOk, IndexOk;
    var k := Key(id, true, 0);
    NoKeys(g, v.d.store, v.files, id);
    CreatedFiles(g, v.d.store, v.files, id, name);
    CreatedFds(v.fds, v.d.cat, v.files, v'.fds, id, p, v'.files);
    CreatedFits(g, v.d, v'.d, v.work, k, EmptyIndex(g, name), v'.work);
  }

  lemma NoKeys(g: Geometry, store: map<Key, Body>, files: map<nat, File>, id: nat)
    requires g.Ok() && FilesOk(g, store, files, None) && id !in files
    ensures forall j | j in store :: j.id != id
  {
  }

  lemma CreatedFiles(g: Geometry, store: map<Key, Body>, files: map<nat, File>, id: nat, name: string)
    requires g.Ok() && FilesOk(g, store, files, None) && id !in files
    ensures FilesOk(g, store[Key(id, true, 0) := EmptyIndex(g, name)], files[id := File(name, [])], None)
  {
  }

  lemma CreatedFds(fds: seq<Fd>, cat: map<Key, Pix>, files: map<nat, File>, fds': seq<Fd>, id: nat, p: Pix, files': map<nat, File>)
    requires FdsOk(fds, cat, files, None) && id !in files && files'.Keys == files.Keys + {id}
    requires forall i | i in files :: files'[i] == files[i]
    requires |fds'| == |fds| && forall i | 0 <= i < |fds| :: fds'[i] == Notified(fds[i], New, id, 0, p, SizeIs(None))
    ensures fds' == fds && FdsOk(fds', cat[Key(id, true, 0) := p], files', None)
  {
    forall i | 0 <= i < |fds|
      ensures fds'[i] == fds[i] && FdOk(fds[i], cat[Key(id, true, 0) := p], files', None)
    {
      assert FdOk(fds[i], cat, files, None);
    }
  }

  lemma CreatedFits(g: Geometry, d: Dir, d': Dir, work: Body, k: Key, body: Body, work': Body)
    requires g.Ok() && IndexOk(g, d, None, work) && k.ix && k.span == 0 && d.store.Keys == d.cat.Keys
    requires body.Index? && body.ix == seq(g.hdrLen, _ => None)
    requires d'.cat.Keys == d.cat.Keys + {k} && d'.store == d.store[k := body]
    requires forall j | j in d.cat :: d'.cat[j] == d.cat[j] && j.id != k.id
    ensures IndexOk(g, d', None, work')
  {
    forall i | i in d'.cat && i in d'.store && i.ix
      ensures IxFits(g, d'.cat, i, d'.store[i])
    {
      SameLookups(d.cat, d'.cat, k, i.id);
      if i != k {
        assert IxFits(g, d.cat, i, d.store[i]);
      }
    }
  }

  /** Finds a free page and makes it the header page of a new object. */
  method PlaceHeader(fs: Spiffs, id: nat, name: string) returns (res: Status, pix: Pix)
    requires fs.Valid() && id !in fs.files
    modifies fs`flash, fs`freeBlocks, fs`pAllocated, fs`pDeleted, fs`eraseCount, fs`maxErase, fs`dir, fs`log, fs`freeCursor
    ensures fs.Phys()
    ensures fs.dir == (if res.Ok? then With(old(fs.dir), Key(id, true, 0), pix, EmptyIndex(fs.g, name)) else old(fs.dir)).(fill := fs.dir.fill)
    ensures Extends(old(fs.log), fs.log) && Survives(fs.log, |old(fs.log)|, old(fs.dir), if res.Ok? then fs.dir else old(fs.dir))
    ensures old(fs.freeBlocks) >= 2 ==> res.Ok?
    ensures fs.freeBlocks >= old(fs.freeBlocks) - 1
    ensures res.Ok? || res == Full
    ensures fs.pAllocated == old(fs.pAllocated) + (if res.Ok? then 1 else 0) && fs.pDeleted <= old(fs.pDeleted)
    ensures old(Settled(fs.g, fs.dir.fill, fs.freeCursor, None)) ==> Settled(fs.g, fs.dir.fill, fs.freeCursor, None)
  {
    hide PhysOk, LogicOk, Settled, Survives, Extends, PickedOk, Holds;
    ghost var k, d0 := Key(id, true, 0), fs.dir;
    NoPage(fs.g, fs.Now(), id);
    res, pix := fs.FindFree();
    if !res.Ok? {
      return;
    }
    // occupy the page in the lookup table, and write an empty index page
    var body := EmptyIndex(fs.g, name);
    fs.OccupyPage(pix, Page(Header(Live(id, true), 0, LiveFlags(true, false)), body), old(fs.log), d0);
    Placed(fs.g, fs.flash, fs.dir, fs.freeCursor, fs.N(), pix, k, body, old(fs.log), fs.log, d0);
    fs.dir := With(fs.dir, k, pix, body);
  }

  /** Creates an empty file; `id` is an object id that no file has. */
  method Create(fs: Spiffs, id: nat, name: string) returns (res: Status, pix: Pix, ghost quota: int)
    requires fs.Valid() && id !in fs.files
    modifies fs
    ensures fs.Phys() && SameFds(old(fs.fds), fs.fds)
    ensures LogImages(fs.g, old(fs.log), fs.log, old(fs.files), old(fs.files))
    ensures res.Ok? || res == Full || res == NotFound
    ensures res != NotFound ==> fs.Valid() && fs.files == if res.Ok? then old(fs.files)[id := File(name, [])] else old(fs.files)
    ensures res.Ok? ==> Key(id, true, 0) in fs.dir.cat && fs.dir.cat[Key(id, true, 0)] == pix
    ensures res != NotFound && old(Settled(fs.g, fs.dir.fill, fs.freeCursor, None)) ==> Settled(fs.g, fs.dir.fill, fs.freeCursor, None)
    ensures quota >= 0 && old(Settled(fs.g, fs.dir.fill, fs.freeCursor, None)) ==> res.Ok?
    ensures res.Ok? ==> FreeQuota(fs.g, fs.N()) >= quota - 1
    ensures Passes(fs.g, old(fs.N()), fs.g.dataSize) ==>
              && quota == FreeQuota(fs.g, old(fs.N())) && (old(fs.freeBlocks) >= 2 ==> res.Ok?)
              && fs.pAllocated == old(fs.pAllocated) + (if res.Ok? then 1 else 0) && fs.pDeleted <= old(fs.pDeleted)
              && fs.freeBlocks >= old(fs.freeBlocks) - 1
    ensures Refused(fs.g, old(fs.N()), fs.g.dataSize) ==> res == Full && fs.Now() == old(fs.Now())
    ensures Undecided(fs.g, old(fs.N()), fs.g.dataSize) ==> Tried(fs.g, old(fs.flash.lu), old(fs.Wear()), old(fs.log), fs.log)
    ensures forall b: nat | old(Pays(fs, fs.g.dataSize, b)) :: quota >= old(Prospect(fs, b))
  {
    hide PhysOk, LogicOk, LogSafe, LogImages, Settled, SameFds, DataPages, Tried, Pays, Prospect, Course, Refused, Passes;
    ghost var g, v0, wear0 := fs.g, fs.Now(), fs.Wear();
    pix, quota := Pix(0, 0), -1;
    ghost var turns;
    res, turns := GcCheck(fs, fs.g.dataSize);
    Collected(g, v0, old(fs.log), fs.log, v0.files);
    if !res.Ok? {
      return;
    }
    QuotaSign(fs.g.dataSize, FreeQuota(g, fs.N()));
    quota := FreeQuota(g, fs.N());
    ghost var v, log1 := fs.Now(), fs.log;
    if Credit(g, v, 0) {
      CreditRoom(g, v, 0);
    }
    res, pix := CreateNow(fs, id, name);
    LaterImages(g, v0.f.lu, wear0, old(fs.log), log1, fs.log, v0.files, v0.files);
    SameFdsChain(v0.fds, v.fds, fs.fds);
  }

  /** What creating a file does after the space check. */
  method CreateNow(fs: Spiffs, id: nat, name: string) returns (res: Status, pix: Pix)
    requires fs.Valid() && id !in fs.files
    modifies fs
    ensures fs.Valid() && SameFds(old(fs.fds), fs.fds) && (res.Ok? || res == Full)
    ensures LogImages(fs.g, old(fs.log), fs.log, old(fs.files), old(fs.files))
    ensures fs.files == if res.Ok? then old(fs.files)[id := File(name, [])] else old(fs.files)
    ensures res.Ok? ==> Key(id, true, 0) in fs.dir.cat && fs.dir.cat[Key(id, true, 0)] == pix
    ensures old(fs.freeBlocks) >= 2 ==> res.Ok?
    ensures fs.freeBlocks >= old(fs.freeBlocks) - 1
    ensures fs.pAllocated == old(fs.pAllocated) + (if res.Ok? then 1 else 0) && fs.pDeleted <= old(fs.pDeleted)
    ensures old(Settled(fs.g, fs.dir.fill, fs.freeCursor, None)) ==> Settled(fs.g, fs.dir.fill, fs.freeCursor, None)
  {
    hide PhysOk, LogicOk, LogImages, OldOrNew, Settled, SameFds, Survives, Extends, Notified, EmptyIndex;
    ghost var g, v := fs.g, fs.Now();
    EqualFds(v.fds);
    LogBegins(g, fs.log, v.files, v.files);
    OldStays(g, v.files, v.files, v.files);
    res, pix := PlaceHeader(fs, id, name);
    if !res.Ok? {
      FailedImages(g, v, None, None, old(fs.log), old(fs.log), fs.log, v.files, v.files);
      StillLogical(g, v, fs.Now());
      return;
    }
    fs.Notify(New, id, 0, pix, SizeIs(None));
    fs.files := fs.files[id := File(name, [])];
    CreatedLogic(g, v, fs.Now(), id, name, pix);
    CreatedImages(g, v, fs.Now(), old(fs.log), old(fs.log), fs.log, v.files);
  }

  lemma StillLogical(g: Geometry, v: Vals, v': Vals)
    requires g.Ok() && LogicOk(g, v, None, None) && v'.d == v.d.(fill := v'.d.fill)
    requires v'.work == v.work && v'.fds == v.fds && v'.files == v.files
    ensures LogicOk(g, v', None, None)
  {
  }

  lemma OldStays(g: Geometry, files0: map<nat, File>, files: map<nat, File>, files1: map<nat, File>)
    requires g.Ok() && forall id | id in files0 :: id in files && files[id] == files0[id]
    ensures OldOrNew(g, files0, files, files1)
  {
    forall id, k: nat | HasSpan(g, files0, id, k) && HasSpan(g, files1, id, k)
      ensures HasSpan(g, files, id, k) && ImageOf(g, files, id, k) == ImageOf(g, files0, id, k)
    {
      assert files[id] == files0[id];
    }
  }

  lemma NoPage(g: Geometry, v: Vals, id: nat)
    requires g.Ok() && LogicOk(g, v, None, None) && id !in v.files
    ensures Key(id, true, 0) !in v.d.cat
  {
  }

  lemma CreatedImages(g: Geometry, v: Vals, v': Vals, log0: seq<Flash>, log1: seq<Flash>, log2: seq<Flash>, files0: map<nat, File>)
    requires g.Ok() && LogicOk(g, v, None, None) && LogicOk(g, v', None, None) && v.files == files0
    requires forall id | id in files0 :: id in v'.files && v'.files[id] == files0[id]
    requires LogImages(g, log0, log1, files0, files0) && Extends(log1, log2) && Survives(log2, |log1|, v.d, v'.d)
    ensures LogImages(g, log0, log2, files0, files0)
  {
    hide FilesOk, LogImages, Extends, Survives, OldOrNew;
    OldStays(g, files0, v.files, files0);
    OldStays(g, files0, v'.files, files0);
    ImagesKept(g, log0, log1, log2, v.d, v.files, None, v'.d, v'.files, None, files0, files0);
  }

  // ----- read -----

  lemma SliceOfImage(g: Geometry, bytes: seq<Byte>, span: nat, po: nat, n: nat)
    requires g.Ok() && po + n <= g.dataSize && g.Start(span) + po + n <= |bytes|
    ensures PageImage(g, bytes, span)[po..po + n] == bytes[g.Start(span) + po..g.Start(span) + po + n]
  {
  }

  lemma WorkIsCopy(g: Geometry, v: Vals, k: Key)
    requires g.Ok() && k.ix && k in v.d.cat && k in v.d.store && v.work == v.d.store[k]
    ensures LogicOk(g, v, Some(k), None) ==> LogicOk(g, v, None, None)
    ensures LogicOk(g, v, None, None) ==> LogicOk(g, v, Some(k), None)
  {
  }

  /** Place of byte `cur` in its data page. */
  function InPage(g: Geometry, cur: nat): (po: nat)
    requires g.dataSize >= 1
    ensures po < g.dataSize
  {
    cur % g.dataSize
  }

  /** Bytes from `cur` to `end` that are in the data page of `cur`. */
  function Piece(g: Geometry, cur: nat, end: nat): (n: nat)
    requires g.dataSize >= 1 && cur < end
    ensures 0 < n <= end - cur && InPage(g, cur) + n <= g.dataSize
  {
    if end - cur < g.dataSize - InPage(g, cur) then end - cur else g.dataSize - InPage(g, cur)
  }

  /** The next piece that one data page holds. */
  lemma NextPiece(g: Geometry, cur: nat, end: nat, span: nat)
    requires g.Ok() && cur < end && span == g.PageOf(cur)
    ensures g.Start(span) + InPage(g, cur) == cur
    ensures cur + Piece(g, cur, end) < end ==> span + 1 == g.PageOf(cur + Piece(g, cur, end))
    ensures span < g.Pages(end)
  {
    g.SplitOffset(cur);
    g.PagesBounds(end, span);
    if cur + Piece(g, cur, end) < end {
      g.PageOfUnique(cur + Piece(g, cur, end), span + 1);
    }
  }

  /** The index page in the work buffer is the stored one of this span. */
  ghost predicate Copied(fs: Spiffs, id: nat, s: nat)
    reads fs
  {
    Key(id, true, s) in fs.dir.cat && Key(id, true, s) in fs.dir.store && fs.work == fs.dir.store[Key(id, true, s)]
  }

  /** Descriptor `h` is open on file `id` of a valid file system. */
  ghost predicate Reading(fs: Spiffs, h: nat, id: nat)
    reads fs
  {
    fs.Valid() && h < |fs.fds| && fs.fds[h].open && fs.fds[h].id == id && id in fs.files
  }

  /** Bytes `from` to `from + n` of a file are its, at most up to its end. */
  ghost predicate Covers(fs: Spiffs, id: nat, from: nat, n: nat)
    reads fs
  {
    id in fs.files && from + n <= |fs.files[id].bytes|
  }

  /** Reads the data page of span `span`, through the index page in the work buffer, from `po` on. If the
      file is `good`, that gives its bytes; if it is `empty`, nothing. */
  method ReadPiece(fs: Spiffs, h: nat, ghost id: nat, span: nat, po: nat, n: nat, ghost good: bool, ghost empty: bool) returns (res: Status, out: seq<Byte>)
    requires fs.Phys() && h < |fs.fds| && n > 0 && po + n <= fs.g.dataSize
    requires good || empty ==> Reading(fs, h, id) && Copied(fs, id, fs.g.IxSpan(span))
    requires good ==> Covers(fs, id, fs.g.Start(span) + po, n)
    requires empty ==> fs.files[id].bytes == []
    ensures res.Ok? ==> 0 < |out| <= n
    ensures good ==> res.Ok? && Covers(fs, id, fs.g.Start(span) + po, n) && out == fs.files[id].bytes[fs.g.Start(span) + po..fs.g.Start(span) + po + n]
    ensures empty ==> !res.Ok?
  {
    hide PhysOk, LogicOk, PageImage;
    if good {
      GoodPiece(fs, h, id, span, po, n);
    }
    if empty {
      NoPiece(fs, h, id, span);
    }
    out := [];
    if !fs.work.Index? || fs.g.IxSlot(span) >= |fs.work.ix| {
      res := BadReference;
      return;
    }
    var e := fs.work.ix[fs.g.IxSlot(span)];
    var size := fs.fds[h].size.GetOr(0xffff_ffff);
    var len := if n < size then n else size;
    if len <= 0 {
      res := EndOfObject;
      return;
    }
    res := DataCheck(fs.flash, e, span);
    if !res.Ok? {
      return;
    }
    var body := fs.flash.page[e.value].body;
    if !body.Data? || po + len > |body.bytes| {
      res := BadReference;
      return;
    }
    out := body.bytes[po..po + len];
  }

  lemma GoodPiece(fs: Spiffs, h: nat, id: nat, span: nat, po: nat, n: nat)
    requires Reading(fs, h, id) && Copied(fs, id, fs.g.IxSpan(span)) && n > 0 && po + n <= fs.g.dataSize
    requires Covers(fs, id, fs.g.Start(span) + po, n)
    ensures fs.work.Index? && fs.g.IxSlot(span) < |fs.work.ix| && fs.fds[h].size == Some(|fs.files[id].bytes|)
    ensures var e := fs.work.ix[fs.g.IxSlot(span)];
            && DataCheck(fs.flash, e, span).Ok? && fs.flash.page[e.value].body.Data? && |fs.flash.page[e.value].body.bytes| == fs.g.dataSize
            && fs.flash.page[e.value].body.bytes[po..po + n] == fs.files[id].bytes[fs.g.Start(span) + po..fs.g.Start(span) + po + n]
  {
    hide PhysOk, LogicOk, PageImage;
    var bytes := fs.files[id].bytes;
    WorkIsCopy(fs.g, fs.Now(), Key(id, true, fs.g.IxSpan(span)));
    fs.g.PagesBounds(|bytes|, span);
    DataEntry(fs.g, fs.Now(), None, Key(id, false, span));
    FdFacts(fs.g, fs.Now(), None, None, h);
    SliceOfImage(fs.g, bytes, span, po, n);
  }

  /** An empty file has no index entry. */
  lemma NoPiece(fs: Spiffs, h: nat, id: nat, span: nat)
    requires Reading(fs, h, id) && Copied(fs, id, fs.g.IxSpan(span)) && fs.files[id].bytes == []
    ensures fs.work.Index? && fs.g.IxSlot(span) < |fs.work.ix| ==> fs.work.ix[fs.g.IxSlot(span)].None?
  {
    var k := Key(id, true, fs.g.IxSpan(span));
    assert IxFits(fs.g, fs.dir.cat, k, fs.work);
    EntryOf(fs.g, fs.dir.cat, Key(id, false, span), fs.work);
    assert Key(id, false, span) !in fs.dir.store;
  }

  /** Loads index page `s` for reading: the header from where the descriptor knows it to be, another
      page by searching. */
  method LoadForRead(fs: Spiffs, h: nat, s: nat, ghost id: nat, ghost good: bool) returns (res: Status)
    requires fs.Phys() && h < |fs.fds| && (good ==> Reading(fs, h, id))
    modifies fs`work, fs`cursor, fs`fds
    ensures fs.Phys() && SameFds(old(fs.fds), fs.fds)
    ensures good ==> Reading(fs, h, id) && (res.Ok? <==> Key(id, true, s) in fs.dir.cat) && (res.Ok? ==> Copied(fs, id, s))
  {
    hide PhysOk, LogicOk;
    ghost var v := fs.Now();
    var fd := fs.fds[h];
    var pix;
    if good {
      FdFacts(fs.g, v, None, None, h);
    }
    if s == 0 {
      pix := fd.hdrPix;
    } else {
      res, pix := fs.FindIdAndSpan(fd.id, true, s);
      if !res.Ok? {
        return;
      }
    }
    if good {
      LoadedBody(fs.g, fs.flash, fs.dir, fs.freeCursor, fs.N(), Key(id, true, s));
    }
    res := IndexCheck(fs.flash, pix, s);
    if !res.Ok? {
      return;
    }
    fs.work := fs.flash.page[pix].body;
    fs.fds := fs.fds[h := fd.(curPix := Some(pix), curSpan := s)];
    if good {
      LoadedOk(fs.g, v, fs.Now(), None, h, Key(id, true, s));
      WorkIsCopy(fs.g, fs.Now(), Key(id, true, s));
    }
  }

  /** One round of reading: loads the index page of span `span` unless it is at hand, and reads. */
  method ReadRound(fs: Spiffs, h: nat, ghost id: nat, prev: Option<nat>, span: nat, po: nat, n: nat,
                   ghost sound: bool, ghost good: bool, ghost empty: bool)
    returns (res: Status, out: seq<Byte>)
    requires fs.Phys() && h < |fs.fds| && n > 0 && po + n <= fs.g.dataSize && (good || empty ==> sound)
    requires sound ==> Reading(fs, h, id) && (prev.Some? ==> Copied(fs, id, prev.value))
    requires good ==> Covers(fs, id, fs.g.Start(span) + po, n)
    requires empty ==> fs.files[id].bytes == []
    modifies fs`work, fs`cursor, fs`fds
    ensures fs.Phys() && SameFds(old(fs.fds), fs.fds) && (res.Ok? ==> 0 < |out| <= n)
    ensures sound ==> Reading(fs, h, id) && (res.Ok? ==> Copied(fs, id, fs.g.IxSpan(span)))
    ensures good ==> res.Ok? && Covers(fs, id, fs.g.Start(span) + po, n)
                     && out == fs.files[id].bytes[fs.g.Start(span) + po..fs.g.Start(span) + po + n]
    ensures empty ==> !res.Ok?
  {
    hide PhysOk, LogicOk, SameFds, Copied;
    ghost var fds := fs.fds;
    EqualFds(fds);
    out := [];
    if good {
      fs.g.PagesBounds(|fs.files[id].bytes|, span);
      IndexExists(fs.g, fs.Now(), None, None, id, span);
    }
    var s := fs.g.IxSpan(span);
    if prev != Some(s) {
      res := LoadForRead(fs, h, s, id, sound);
      if !res.Ok? {
        return;
      }
      SameFdsAt(fds, fs.fds, h);
    }
    res, out := ReadPiece(fs, h, id, span, po, n, good, empty);
  }

  lemma Extended(bytes: seq<Byte>, offset: nat, m: nat, n: nat)
    requires offset + m + n <= |bytes|
    ensures bytes[offset..offset + m] + bytes[offset + m..offset + m + n] == bytes[offset..offset + (m + n)]
  {
  }

  /** Reads `len` bytes of a file from `offset` on. Whatever state an operation that failed has left,
      reading changes nothing on the flash. */
  method Read(fs: Spiffs, h: nat, offset: nat, len: nat) returns (res: Status, out: seq<Byte>)
    requires fs.Phys() && h < |fs.fds|
    modifies fs`work, fs`cursor, fs`fds
    ensures fs.Phys() && SameFds(old(fs.fds), fs.fds) && |out| <= len
    ensures old(Reading(fs, h, fs.fds[h].id)) ==> Reading(fs, h, old(fs.fds[h].id))
    ensures old(Reading(fs, h, fs.fds[h].id) && Covers(fs, fs.fds[h].id, offset, len)) ==>
              && res.Ok? && old(fs.fds[h].id in fs.files) && offset + len <= |old(fs.files[fs.fds[h].id].bytes)|
              && out == old(fs.files[fs.fds[h].id].bytes)[offset..offset + len]
    ensures len > 0 && old(Reading(fs, h, fs.fds[h].id) && fs.files[fs.fds[h].id].bytes == []) ==> !res.Ok?
  {
    hide PhysOk, LogicOk, SameFds, Copied, InPage, Piece, Geometry.Start, Geometry.PageOf, Geometry.Pages;
    ghost var id, g, fds0 := fs.fds[h].id, fs.g, fs.fds;
    ghost var sound, good := Reading(fs, h, id), Reading(fs, h, id) && Covers(fs, id, offset, len);
    ghost var empty := sound && fs.files[id].bytes == [] && len > 0;
    ghost var bytes := if sound then fs.files[id].bytes else [];
    EqualFds(fs.fds);
    res, out := Ok, [];
    g.SplitOffset(offset);
    var span: nat := offset / fs.g.dataSize;
    var prev: Option<nat> := None;
    while |out| < len
      invariant |out| <= len && res.Ok? && fs.Phys() && SameFds(fds0, fs.fds) && h < |fs.fds|
      invariant sound ==> Reading(fs, h, id)
      invariant good ==> Covers(fs, id, offset, len) && out == bytes[offset..offset + |out|]
      invariant good && |out| < len ==> span == g.PageOf(offset + |out|)
      invariant sound ==> prev.Some? ==> Copied(fs, id, prev.value)
      invariant empty ==> prev.None? && out == []
      decreases len - |out|
    {
      ghost var fds := fs.fds;
      var cur := offset + |out|;
      var n := Piece(fs.g, cur, offset + len);
      if good {
        NextPiece(g, cur, offset + len, span);
      }
      SameFdsAt(fds0, fds, h);
      var piece;
      res, piece := ReadRound(fs, h, id, prev, span, InPage(fs.g, cur), n, sound, good, empty);
      SameFdsChain(fds0, fds, fs.fds);
      SameFdsAt(fds, fs.fds, h);
      if !res.Ok? {
        return;
      }
      if good {
        Extended(bytes, offset, |out|, n);
      }
      out := out + piece;
      prev := Some(fs.g.IxSpan(span));
      span := span + 1;
    }
  }

  /** A read of `len` bytes at position `from` of a file with bytes `all`. */
  ghost predicate Reads(all: seq<Byte>, from: nat, len: nat, res: Status, out: seq<Byte>) {
    if from < |all| then
      res.Ok? && out == all[from..if from + len <= |all| then from + len else |all|]
    else
      out == [] && (all != [] ==> res == EndOfObject) && (len > 0 ==> !res.Ok?)
  }

  /** Reads `len` bytes at `pos`, fewer at the end of the file (SPIFFS_read without its cache). */
  method ReadAt(fs: Spiffs, h: nat, pos: nat, len: nat) returns (res: Status, out: seq<Byte>)
    requires fs.Phys() && h < |fs.fds|
    modifies fs`work, fs`cursor, fs`fds
    ensures fs.Phys() && SameFds(old(fs.fds), fs.fds)
    ensures old(Reading(fs, h, fs.fds[h].id)) ==>
              && Reading(fs, h, old(fs.fds[h].id)) && old(fs.fds[h].id in fs.files)
              && Reads(old(fs.files[fs.fds[h].id].bytes), pos, len, res, out)
  {
    hide PhysOk, LogicOk, SameFds;
    EqualFds(fs.fds);
    if Reading(fs, h, fs.fds[h].id) {
      FdFacts(fs.g, fs.Now(), None, None, h);
    }
    var size := fs.fds[h].size.GetOr(0xffff_ffff);
    out := [];
    var n := len;
    if pos + len >= size {
      // reading beyond file size
      if size - pos <= 0 {
        res := EndOfObject;
        return;
      }
      n := size - pos;
    }
    res, out := Read(fs, h, pos, n);
    if !res.Ok? {
      out := [];
    }
  }

  // ----- write -----

  /** Bytes of a write of `len` bytes at `offset` that overwrite a file of `size` bytes. */
  function Over(size: nat, offset: nat, len: nat): (n: nat)
    ensures n <= len && (n > 0 ==> offset + n <= size) && (n < len && offset <= size ==> offset + n == size)
  {
    if offset >= size then 0 else if size - offset < len then size - offset else len
  }

  /** Space for writing `len` bytes at `offset` into a file of `size` bytes: the space check of either part
      passes, and the pages that it takes can be allocated. */
  predicate Suffices(g: Geometry, n: Counts, tidy: bool, size: nat, offset: nat, len: nat)
    requires g.Ok()
  {
    var over := Over(size, offset, len);
    var spent := if over > 0 then ModifyCost(g, offset, over) else 0;
    var left := Allowance(g, n, tidy) - spent;
    && (over > 0 ==> Passes(g, n, over + g.dataSize) && left >= -1)
    && (over < len ==>
          && AppendCost(g, size, len - over) <= left + 1
          && if over == 0 then Passes(g, n, len + g.dataSize)
             else 2 * g.entries <= left && len - over + g.dataSize < left * g.dataSize)
  }

  /** Page allocations that a write takes at most. */
  function WriteCost(g: Geometry, size: nat, offset: nat, len: nat): int
    requires g.Ok() && len > 0
  {
    var over := Over(size, offset, len);
    (if over > 0 then ModifyCost(g, offset, over) else 0) + (if over < len then AppendCost(g, size, len - over) else 0)
  }

  /** The space check of the first part of a write finds that there is no room at all. */
  predicate NoRoom(g: Geometry, n: Counts, size: nat, offset: nat, len: nat)
    requires g.Ok()
  {
    var over := Over(size, offset, len);
    Refused(g, n, (if over > 0 then over else len) + g.dataSize)
  }

  lemma SecondPart(g: Geometry, v: Vals, n0: Counts, tidy: bool, size: nat, offset: nat, len: nat)
    requires g.Ok() && PhysOk(g, v.f, v.d, v.c, v.n, None)
    requires Suffices(g, n0, tidy, size, offset, len) && 0 < Over(size, offset, len) < len
    requires Allowance(g, v.n, Settled(g, v.d.fill, v.c, None)) >= Allowance(g, n0, tidy) - ModifyCost(g, offset, Over(size, offset, len))
    ensures Passes(g, v.n, len - Over(size, offset, len) + g.dataSize)
    ensures AppendCost(g, size, len - Over(size, offset, len)) <= Allowance(g, v.n, Settled(g, v.d.fill, v.c, None)) + 1
  {
    hide ModifyCost, AppendCost;
    var left := Allowance(g, n0, tidy) - ModifyCost(g, offset, Over(size, offset, len));
    SparedBlocks(g, v, left);
    MulMonotone(left, FreeQuota(g, v.n), g.dataSize);
  }

  lemma SparedBlocks(g: Geometry, v: Vals, left: int)
    requires g.Ok() && PhysOk(g, v.f, v.d, v.c, v.n, None)
    requires Allowance(g, v.n, Settled(g, v.d.fill, v.c, None)) >= left >= 2 * g.entries
    ensures v.n.freeBlocks >= 4 && FreeQuota(g, v.n) >= left
  {
    if Settled(g, v.d.fill, v.c, None) {
      QuotaRoom(g, v.f, v.d, v.c, v.n, 2);
    }
  }

  /** Writes `data` at `offset`: over what is there, then past the end. `w` bytes reach the file, which is
      `whole` unless cleaning failed or an index page could not be stored or is left without entries, or
      the size is undefined and a hole is left. */
  method HydroWrite(fs: Spiffs, h: nat, offset: nat, data: seq<Byte>) returns (res: Status, whole: bool, ghost w: nat)
    requires fs.Valid() && h < |fs.fds| && fs.fds[h].open && fs.fds[h].id in fs.files && data != []
    modifies fs
    ensures old(fs.fds[h].id in fs.files) && w <= |data|
    ensures fs.Phys() && SameFds(old(fs.fds), fs.fds)
    ensures whole ==> fs.Valid()
    ensures whole && old(Settled(fs.g, fs.dir.fill, fs.freeCursor, None)) ==> Settled(fs.g, fs.dir.fill, fs.freeCursor, None)
    ensures var bytes := old(fs.files[fs.fds[h].id].bytes);
            var at := if offset < |bytes| then offset else |bytes|;
            whole ==> fs.files == SetBytes(old(fs.files), old(fs.fds[h].id), Written(bytes, at, data[..w]))
    ensures res.Ok? && !old(Hollow(fs.fds[h], offset)) ==> whole && w == |data|
    ensures var tidy, size := old(Settled(fs.g, fs.dir.fill, fs.freeCursor, None)), |old(fs.files[fs.fds[h].id].bytes)|;
            Suffices(fs.g, old(fs.N()), tidy, size, offset, |data|) && !old(Hollow(fs.fds[h], offset)) ==>
              && res.Ok?
              && Allowance(fs.g, fs.N(), Settled(fs.g, fs.dir.fill, fs.freeCursor, None))
                 >= Allowance(fs.g, old(fs.N()), tidy) - WriteCost(fs.g, size, offset, |data|)
    ensures NoRoom(fs.g, old(fs.N()), |old(fs.files[fs.fds[h].id].bytes)|, offset, |data|) ==>
              res == Full && whole && w == 0 && fs.Now() == old(fs.Now())
    ensures LogImages(fs.g, old(fs.log), fs.log, old(fs.files) - {old(fs.fds[h].id)}, old(fs.files) - {old(fs.fds[h].id)})
    ensures old(Hollow(fs.fds[h], offset)) ==> w == 0 && (whole ==> !res.Ok?)
    ensures old(Hollow(fs.fds[h], offset)) && Aligned(fs.g, offset) ==>
              && (res.Ok? || Passes(fs.g, old(fs.N()), |data| + fs.g.dataSize) ==> !Mendable(fs.g, fs.Now()))
              && (res.Ok? ==> HoleLeft(fs.dir, old(fs.fds[h].id), offset + |data|))
              && (Reaches(fs.g, old(fs.N()), old(Settled(fs.g, fs.dir.fill, fs.freeCursor, None)), offset, |data|) ==> res.Ok?)
    ensures old(Hollow(fs.fds[h], offset)) && !Aligned(fs.g, offset) ==>
              !res.Ok? && (Passes(fs.g, old(fs.N()), |data| + fs.g.dataSize) ==> whole && fs.Now() == old(fs.Now()).(work := fs.work))
  {
    hide PhysOk, LogicOk, SameFds, Settled, LogImages, Allowance, ModifyCost, AppendCost, Passes, Refused, SetBytes, Written, Mendable, HoleLeft, Aligned, Reaches;
    var id := fs.fds[h].id;
    ghost var g, v0, log0, rest := fs.g, fs.Now(), fs.log, fs.files - {id};
    ghost var size, tidy := |fs.files[id].bytes|, Settled(g, v0.d.fill, v0.c, None);
    NoWrites(g, log0, rest);
    FdFacts(g, v0, None, None, h);
    EqualFds(fs.fds);
    var n := if fs.fds[h].size.Some? then Over(fs.fds[h].size.value, offset, |data|) else 0;
    assert n == Over(size, offset, |data|);
    res, whole, w := Ok, true, 0;
    if n > 0 {
      res, whole, w := WriteOver(fs, h, offset, data, n);
      if !res.Ok? {
        return;
      }
    }
    if n < |data| {
      SameFdsAt(v0.fds, fs.fds, h);
      if n > 0 && Suffices(g, v0.n, tidy, size, offset, |data|) {
        SecondPart(g, fs.Now(), v0.n, tidy, size, offset, |data|);
      }
      ghost var fds1, log1 := fs.fds, fs.log;
      res, whole, w := WritePast(fs, h, offset, data, n, v0.files);
      SameFdsChain(v0.fds, fds1, fs.fds);
      ChainImages(g, log0, log1, fs.log, rest);
      w := n + w;
    }
  }

  /** Writes the first `n` bytes of `data` over what is there; `w` of them reach the file. */
  method WriteOver(fs: Spiffs, h: nat, offset: nat, data: seq<Byte>, n: nat) returns (res: Status, whole: bool, ghost w: nat)
    requires fs.Valid() && h < |fs.fds| && fs.fds[h].open && fs.fds[h].id in fs.files
    requires 0 < n <= |data| && offset + n <= |fs.files[fs.fds[h].id].bytes|
    modifies fs
    ensures old(fs.fds[h].id in fs.files) && w <= n && offset + n <= |old(fs.files[fs.fds[h].id].bytes)|
    ensures fs.Phys() && SameFds(old(fs.fds), fs.fds)
    ensures whole ==> fs.Valid() && old(fs.fds[h].id) in fs.files
                      && fs.files == SetBytes(old(fs.files), old(fs.fds[h].id), Written(old(fs.files[fs.fds[h].id].bytes), offset, data[..w]))
    ensures whole && old(Settled(fs.g, fs.dir.fill, fs.freeCursor, None)) ==> Settled(fs.g, fs.dir.fill, fs.freeCursor, None)
    ensures res.Ok? ==> whole && w == n
    ensures var room := Allowance(fs.g, old(fs.N()), old(Settled(fs.g, fs.dir.fill, fs.freeCursor, None)));
            Passes(fs.g, old(fs.N()), n + fs.g.dataSize) && ModifyCost(fs.g, offset, n) <= room + 1 ==>
              && res.Ok?
              && Allowance(fs.g, fs.N(), Settled(fs.g, fs.dir.fill, fs.freeCursor, None)) >= room - ModifyCost(fs.g, offset, n)
    ensures Refused(fs.g, old(fs.N()), n + fs.g.dataSize) ==> res == Full && whole && w == 0 && fs.Now() == old(fs.Now())
    ensures LogImages(fs.g, old(fs.log), fs.log, old(fs.files) - {old(fs.fds[h].id)}, old(fs.files) - {old(fs.fds[h].id)})
  {
    hide PhysOk, LogicOk, SameFds, Settled, LogImages, Allowance, ModifyCost, Passes, Refused, SetBytes, Written;
    ghost var files0, id, quota := fs.files, fs.fds[h].id, 0;
    res, whole, w, quota := Modify(fs, h, offset, data[..n]);
    OverPart(files0, id, offset, data, n, w);
    OverPart(files0, id, offset, data, n, n);
    RestImages(fs.g, old(fs.log), fs.log, files0, Partly(files0, id, offset, data[..n], n), files0 - {id});
  }

  /** Writes what is left of `data` past the end, after `n` bytes have been written over the end of the
      files `files0`; `w` of what is left reach the file. */
  method WritePast(fs: Spiffs, h: nat, offset: nat, data: seq<Byte>, n: nat, ghost files0: map<nat, File>)
    returns (res: Status, whole: bool, ghost w: nat)
    requires fs.Valid() && h < |fs.fds| && fs.fds[h].open && fs.fds[h].id in fs.files && fs.fds[h].id in files0
    requires n < |data| && n == Over(|files0[fs.fds[h].id].bytes|, offset, |data|)
    requires fs.files == if n == 0 then files0 else SetBytes(files0, fs.fds[h].id, Written(files0[fs.fds[h].id].bytes, offset, data[..n]))
    modifies fs
    ensures old(fs.fds[h].id in files0) && w <= |data| - n
    ensures fs.Phys() && SameFds(old(fs.fds), fs.fds)
    ensures var bytes := files0[old(fs.fds[h].id)].bytes;
            var at := if offset < |bytes| then offset else |bytes|;
            whole ==> fs.Valid() && fs.files == SetBytes(files0, old(fs.fds[h].id), Written(bytes, at, data[..n + w]))
    ensures whole && old(Settled(fs.g, fs.dir.fill, fs.freeCursor, None)) ==> Settled(fs.g, fs.dir.fill, fs.freeCursor, None)
    ensures res.Ok? && !old(Hollow(fs.fds[h], offset + n)) ==> whole && w == |data| - n
    ensures var room := Allowance(fs.g, old(fs.N()), old(Settled(fs.g, fs.dir.fill, fs.freeCursor, None)));
            var cost := AppendCost(fs.g, |files0[old(fs.fds[h].id)].bytes|, |data| - n);
            Passes(fs.g, old(fs.N()), |data| - n + fs.g.dataSize) && cost <= room + 1 && !old(Hollow(fs.fds[h], offset + n)) ==>
              res.Ok? && Allowance(fs.g, fs.N(), Settled(fs.g, fs.dir.fill, fs.freeCursor, None)) >= room - cost
    ensures Refused(fs.g, old(fs.N()), |data| - n + fs.g.dataSize) ==> res == Full && whole && w == 0 && fs.Now() == old(fs.Now())
    ensures LogImages(fs.g, old(fs.log), fs.log, files0 - {old(fs.fds[h].id)}, files0 - {old(fs.fds[h].id)})
    ensures old(Hollow(fs.fds[h], offset + n)) ==> n == 0 && w == 0 && (whole ==> !res.Ok?)
    ensures old(Hollow(fs.fds[h], offset + n)) && Aligned(fs.g, offset) ==>
              && (res.Ok? || Passes(fs.g, old(fs.N()), |data| + fs.g.dataSize) ==> !Mendable(fs.g, fs.Now()))
              && (res.Ok? ==> HoleLeft(fs.dir, old(fs.fds[h].id), offset + |data|))
              && (Reaches(fs.g, old(fs.N()), old(Settled(fs.g, fs.dir.fill, fs.freeCursor, None)), offset, |data|) ==> res.Ok?)
    ensures old(Hollow(fs.fds[h], offset + n)) && !Aligned(fs.g, offset) ==>
              !res.Ok? && (Passes(fs.g, old(fs.N()), |data| + fs.g.dataSize) ==> whole && fs.Now() == old(fs.Now()).(work := fs.work))
  {
    hide PhysOk, LogicOk, SameFds, Settled, LogImages, Allowance, AppendCost, Passes, Refused, SetBytes, Written, Mendable, HoleLeft, Aligned;
    ghost var files1, id, quota, zero := fs.files, fs.fds[h].id, 0, false;
    FdFacts(fs.g, fs.Now(), None, None, h);
    PastPart(files0, id, offset, data, n, 0);
    res, whole, w, quota, zero := Append(fs, h, offset + n, data[n..]);
    PastPart(files0, id, offset, data, n, w);
    PastPart(files0, id, offset, data, n, |data| - n);
    RestImages(fs.g, old(fs.log), fs.log, files1, Partly(files1, id, |files1[id].bytes|, data[n..], |data| - n), files0 - {id});
  }

  lemma NoWrites(g: Geometry, log: seq<Flash>, files: map<nat, File>)
    requires g.Ok()
    ensures LogImages(g, log, log, files, files)
  {
  }

  /** The first part of a write, of `n` bytes, of which `w` are written. */
  lemma OverPart(files: map<nat, File>, id: nat, offset: nat, data: seq<Byte>, n: nat, w: nat)
    requires id in files && w <= n <= |data| && offset + n <= |files[id].bytes|
    ensures Partly(files, id, offset, data[..n], w) == SetBytes(files, id, Written(files[id].bytes, offset, data[..w]))
    ensures id in Partly(files, id, offset, data[..n], w) && |Partly(files, id, offset, data[..n], w)[id].bytes| == |files[id].bytes|
    ensures Partly(files, id, offset, data[..n], w) - {id} == files - {id}
  {
    assert data[..n][..w] == data[..w];
  }

  /** The second part, of which `w` bytes are written, on top of the first, if there is one. */
  lemma PastPart(files: map<nat, File>, id: nat, offset: nat, data: seq<Byte>, n: nat, w: nat)
    requires id in files && n <= |data| && w <= |data| - n && n == Over(|files[id].bytes|, offset, |data|) && n < |data|
    ensures var bytes := files[id].bytes;
            var at := if offset < |bytes| then offset else |bytes|;
            var half := if n > 0 then SetBytes(files, id, Written(bytes, at, data[..n])) else files;
            && id in half && |half[id].bytes| == |bytes| && at + n == |bytes|
            && half - {id} == files - {id} && Partly(half, id, |bytes|, data[n..], w) - {id} == files - {id}
            && Partly(half, id, |bytes|, data[n..], w) == SetBytes(files, id, Written(bytes, at, data[..n + w]))
  {
    var bytes := files[id].bytes;
    var at := if offset < |bytes| then offset else |bytes|;
    assert data[n..][..w] == data[n..n + w];
    assert data[..n] + data[n..n + w] == data[..n + w];
    WrittenTwice(bytes, at, data[..n], data[n..n + w]);
    if n == 0 {
      assert Written(bytes, at, []) == bytes;
    }
  }
}
