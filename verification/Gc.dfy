/** Emptying a block (gc_clean of spiffs_gc.c): every live page of the block is moved to a free
    page, and the index of each file follows. */
module Gc {
  import opened Options
  import opened Layout
  import opened Catalog
  import opened Files
  import opened Store

  datatype State = FindObjData | MoveObjData | MoveObjIx | Finished

  ghost function LiveInBlock(l: map<Pix, Entry>, b: nat, ix: bool): set<Pix> {
    set p | p in l && p.bix == b && l[p].Live? && l[p].ix == ix
  }

  ghost function FreeElsewhere(l: map<Pix, Entry>, b: nat): set<Pix> {
    set p | p in l && p.bix != b && l[p].Free?
  }

  /** Free pages in other blocks: two for every data page and one for every index page that is
      left in block `b`, and `extra` more. */
  ghost predicate Room(l: map<Pix, Entry>, b: nat, extra: nat) {
    |FreeElsewhere(l, b)| >= 2 * |LiveInBlock(l, b, false)| + |LiveInBlock(l, b, true)| + extra
  }

  /** Entries of block `b` that were used stay as they are or get deleted. */
  ghost predicate OnlyDeleted(f0: Flash, f1: Flash, b: nat) {
    forall q | q in f0.lu && q.bix == b && !f0.lu[q].Free? ::
      q in f1.lu && (f1.lu[q].Deleted? || (f1.lu[q] == f0.lu[q] && SameHeader(f0, f1, q)))
  }

  ghost predicate SameHeader(f0: Flash, f1: Flash, q: Pix) {
    q in f0.page && q in f1.page && f0.page[q].hdr == f1.page[q].hdr
  }

  /** A data page of object `id` that index page `s` refers to. */
  ghost predicate InGroup(f: Flash, g: Geometry, p: Pix, id: nat, s: nat)
    requires g.Ok()
  {
    p in f.lu && p in f.page && f.lu[p] == Live(id, false) && g.IxSpan(f.page[p].hdr.span) == s
  }

  ghost predicate SameIndexPages(cat: map<Key, Pix>, cat': map<Key, Pix>) {
    forall k | k in cat && k.ix :: k in cat' && cat'[k] == cat[k]
  }

  ghost predicate SameMeta(a: Body, b: Body) {
    a.Index? && b.Index? && a.name == b.name && a.size == b.size
  }

  lemma RoomMeansFree(l: map<Pix, Entry>, b: nat, extra: nat)
    requires Room(l, b, extra)
    requires extra >= 1 || exists p :: p in l && p.bix == b && l[p].Live?
    ensures exists q :: q in l && l[q].Free?
  {
    if extra == 0 {
      var p :| p in l && p.bix == b && l[p].Live?;
      assert p in LiveInBlock(l, b, l[p].ix);
    }
    assert FreeElsewhere(l, b) != {};
    var q :| q in FreeElsewhere(l, b);
    assert q in l && l[q].Free?;
  }

  /** The tables after the page at `src` has been moved to `dst`. */
  function Relocated(l: map<Pix, Entry>, src: Pix, dst: Pix): map<Pix, Entry>
    requires src in l
  {
    l[dst := l[src]][src := Deleted]
  }

  lemma FreeStep(l: map<Pix, Entry>, b: nat, src: Pix, dst: Pix)
    requires src in l && dst in l && l[src].Live? && l[dst].Free?
    ensures |FreeElsewhere(Relocated(l, src, dst), b)| == |FreeElsewhere(l, b)| - if dst.bix == b then 0 else 1
  {
    if dst.bix == b {
      assert FreeElsewhere(Relocated(l, src, dst), b) == FreeElsewhere(l, b);
    } else {
      assert FreeElsewhere(Relocated(l, src, dst), b) == FreeElsewhere(l, b) - {dst};
    }
  }

  lemma PlaceStep(l: map<Pix, Entry>, b: nat, ix: bool, dst: Pix, e: Entry)
    requires dst in l && l[dst].Free? && e.Live?
    ensures |LiveInBlock(l[dst := e], b, ix)| == |LiveInBlock(l, b, ix)| + if dst.bix == b && e.ix == ix then 1 else 0
  {
    if dst.bix == b && e.ix == ix {
      assert LiveInBlock(l[dst := e], b, ix) == LiveInBlock(l, b, ix) + {dst};
    } else {
      assert LiveInBlock(l[dst := e], b, ix) == LiveInBlock(l, b, ix);
    }
  }

  lemma LeaveStep(l: map<Pix, Entry>, b: nat, ix: bool, src: Pix)
    requires src in l && l[src].Live?
    ensures |LiveInBlock(l[src := Deleted], b, ix)| == |LiveInBlock(l, b, ix)| - if src.bix == b && l[src].ix == ix then 1 else 0
  {
    if src.bix == b && l[src].ix == ix {
      assert LiveInBlock(l[src := Deleted], b, ix) == LiveInBlock(l, b, ix) - {src};
    } else {
      assert LiveInBlock(l[src := Deleted], b, ix) == LiveInBlock(l, b, ix);
    }
  }

  /** What a move does to the room: a page that leaves block `b` costs one free entry elsewhere and is
      one page less to move; one that lands in the block again costs nothing. */
  lemma RoomStep(l: map<Pix, Entry>, b: nat, src: Pix, dst: Pix, extra: nat)
    requires src in l && dst in l && l[src].Live? && l[dst].Free? && Room(l, b, extra)
    requires src.bix == b || (extra >= 1 && l[src].ix)
    ensures Room(Relocated(l, src, dst), b, RoomAfter(b, src, l[src].ix, dst, extra))
  {
    hide FreeElsewhere, LiveInBlock;
    FreeStep(l, b, src, dst);
    PlaceStep(l, b, true, dst, l[src]);
    PlaceStep(l, b, false, dst, l[src]);
    LeaveStep(l[dst := l[src]], b, true, src);
    LeaveStep(l[dst := l[src]], b, false, src);
  }

  function RoomAfter(b: nat, src: Pix, ix: bool, dst: Pix, extra: nat): nat
    requires src.bix == b || extra >= 1
  {
    if src.bix != b then extra - 1 else if dst.bix == b || ix then extra else extra + 1
  }

  ghost function DeadElsewhere(l: map<Pix, Entry>, b: nat): set<Pix> {
    set p | p in l && p.bix != b && l[p].Deleted?
  }

  /** From tables `l0` to `l1` no deleted page of another block than `b` has gone, and there are at least
      `spare` more data pages that have left block `b` than index pages deleted in other blocks. */
  ghost predicate Thrift(l0: map<Pix, Entry>, l1: map<Pix, Entry>, b: nat, spare: int) {
    && |DeadElsewhere(l0, b)| <= |DeadElsewhere(l1, b)|
    && |DeadElsewhere(l1, b)| + |LiveInBlock(l1, b, false)| + spare <= |DeadElsewhere(l0, b)| + |LiveInBlock(l0, b, false)|
  }

  lemma DeadStep(l: map<Pix, Entry>, b: nat, src: Pix, dst: Pix)
    requires src in l && dst in l && l[src].Live? && l[dst].Free?
    ensures |DeadElsewhere(Relocated(l, src, dst), b)| == |DeadElsewhere(l, b)| + if src.bix == b then 0 else 1
  {
    if src.bix == b {
      assert DeadElsewhere(Relocated(l, src, dst), b) == DeadElsewhere(l, b);
    } else {
      assert DeadElsewhere(Relocated(l, src, dst), b) == DeadElsewhere(l, b) + {src};
    }
  }

  /** What a move does to the deleted pages: a data page that leaves block `b` is one less to move;
      an index page moved in another block leaves a deleted one there. */
  lemma ThriftStep(l0: map<Pix, Entry>, l: map<Pix, Entry>, b: nat, src: Pix, dst: Pix, spare: int)
    requires src in l && dst in l && l[src].Live? && l[dst].Free? && Thrift(l0, l, b, spare)
    requires src.bix == b || l[src].ix
    ensures Thrift(l0, Relocated(l, src, dst), b, SpareAfterMove(b, src, l[src].ix, dst, spare))
  {
    hide DeadElsewhere, LiveInBlock;
    DeadStep(l, b, src, dst);
    PlaceStep(l, b, false, dst, l[src]);
    LeaveStep(l[dst := l[src]], b, false, src);
  }

  function SpareAfterMove(b: nat, src: Pix, ix: bool, dst: Pix, spare: int): int {
    if src.bix != b then spare - 1 else if dst.bix == b || ix then spare else spare + 1
  }

  lemma ThriftMoved(g: Geometry, l0: map<Pix, Entry>, v: Vals, v': Vals, b: nat, src: Pix, dst: Pix, spare: int)
    requires Thrift(l0, v.f.lu, b, spare) && Moved(g, v.f, v.d, v.c, v'.f, v'.d, v'.c, src, dst) && v.f.lu[src].Live?
    requires src.bix == b || v.f.lu[src].ix
    ensures Thrift(l0, v'.f.lu, b, SpareAfterMove(b, src, v.f.lu[src].ix, dst, spare))
  {
    FirstIsFree(g, v.f.lu, v.c, dst);
    ThriftStep(l0, v.f.lu, b, src, dst, spare);
  }

  lemma ThriftSame(l: map<Pix, Entry>, b: nat)
    ensures Thrift(l, l, b, 0)
  {
  }

  lemma ThriftChain(l0: map<Pix, Entry>, l1: map<Pix, Entry>, l2: map<Pix, Entry>, b: nat, s: int, t: int, u: int)
    requires Thrift(l0, l1, b, s) && Thrift(l1, l2, b, t) && u <= s + t
    ensures Thrift(l0, l2, b, u)
  {
  }

  // ----- what a power failure leaves -----

  /** Every data page of `store0` is on the flash, in the lookup table and finalised. */
  ghost predicate DataVisible(f: Flash, store0: map<Key, Body>) {
    forall k | k in store0 && !k.ix :: exists p ::
      p in f.lu && p in f.page && f.lu[p] == Live(k.id, false) && f.page[p] == Page(HeaderOf(k, None), store0[k])
  }

  ghost predicate SameData(d: Dir, store0: map<Key, Body>) {
    && d.removing == None
    && forall k | k in store0 && !k.ix :: k in d.cat && k in d.store && d.store[k] == store0[k]
  }

  ghost predicate LogSafe(log0: seq<Flash>, log: seq<Flash>, store0: map<Key, Body>) {
    Extends(log0, log) && forall i | |log0| <= i < |log| :: DataVisible(log[i], store0)
  }

  lemma HoldsVisible(f: Flash, d: Dir, store0: map<Key, Body>)
    requires Holds(f, d) && SameData(d, store0)
    ensures DataVisible(f, store0)
  {
    forall k | k in store0 && !k.ix
      ensures exists p :: p in f.lu && p in f.page && f.lu[p] == Live(k.id, false) && f.page[p] == Page(HeaderOf(k, None), store0[k])
    {
      assert f.lu[d.cat[k]] == Live(k.id, false);
    }
  }

  lemma LogStaysSafe(log0: seq<Flash>, log1: seq<Flash>, log2: seq<Flash>, d1: Dir, d2: Dir, store0: map<Key, Body>)
    requires LogSafe(log0, log1, store0) && Extends(log1, log2) && Survives(log2, |log1|, d1, d2)
    requires SameData(d1, store0) && SameData(d2, store0)
    ensures LogSafe(log0, log2, store0)
  {
    forall i | |log0| <= i < |log2|
      ensures DataVisible(log2[i], store0)
    {
      if i < |log1| {
        assert log2[i] == log1[i];
      } else if Holds(log2[i], d1) {
        HoldsVisible(log2[i], d1, store0);
      } else {
        HoldsVisible(log2[i], d2, store0);
      }
    }
  }

  // ----- moving single pages -----

  /** The invariant of cleaning block `b`, with index page `wk` in the work buffer. */
  ghost predicate CleanOk(g: Geometry, v: Vals, b: nat, wk: Option<Key>)
    requires g.Ok()
  {
    && PhysOk(g, v.f, v.d, v.c, v.n, None) && LogicOk(g, v, wk, None) && v.d.removing == None
    && b < g.blocks && Landing(v.f, v.c, b)
    && (wk.Some? ==> wk.value in v.d.store && SameMeta(v.work, v.d.store[wk.value]))
  }

  /** If the free cursor has got into block `b`, the page there is live. */
  ghost predicate Landing(f: Flash, c: Pix, b: nat) {
    c.bix == b ==> c in f.lu && f.lu[c].Live?
  }

  /** Effect of one move on block `b`. */
  ghost predicate BlockStep(f: Flash, f': Flash, b: nat, fill: nat, src: Pix) {
    && OnlyDeleted(f, f', b)
    && src in f.lu && src in f'.lu && f'.lu[src] == Deleted
    && (forall q | q in f'.lu && q.bix == b && f'.lu[q].Live? ::
          (q.entry >= fill && f'.lu[q] == f.lu[src]) || (q in f.lu && f'.lu[q] == f.lu[q] && SameHeader(f, f', q)))
  }

  /** A page that is moved lands at the end of the used entries of its new block; if that is block `b`
      again, it is a live page there, which the scan has yet to meet. */
  lemma MoveLands(g: Geometry, f: Flash, d: Dir, c: Pix, n: Counts, f': Flash, d': Dir, c': Pix,
                  b: nat, src: Pix, dst: Pix)
    requires g.Ok() && PhysOk(g, f, d, c, n, None) && Moved(g, f, d, c, f', d', c', src, dst)
    requires b < g.blocks && f.lu[src].Live?
    ensures Landing(f', c', b) && b < |d.fill| == |d'.fill| && d'.fill[b] >= d.fill[b]
    ensures dst.entry == d.fill[dst.bix]
  {
    PickIsFirst(g, f, d, c, n, dst);
  }

  lemma MoveBlock(g: Geometry, f: Flash, d: Dir, f': Flash, d': Dir, b: nat, src: Pix, dst: Pix, k: Key, fill: nat)
    requires CatalogOk(g, f, d, None) && CatalogOk(g, f', d', None)
    requires dst in f.lu && src in f.lu && f.lu[dst].Free? && f.lu[src].Live?
    requires f'.lu == f.lu[dst := f.lu[src]][src := Deleted]
    requires k in d.cat && d.cat[k] == src && d'.cat == d.cat[k := dst] && d'.removing == d.removing
    ensures BlockStep(f, f', b, if dst.bix == b then dst.entry else fill, src)
  {
    forall q | q in f'.lu && q != dst && f'.lu[q].Live?
      ensures SameHeader(f, f', q)
    {
      var j := KeyAt(f, q);
      assert j in d.cat && d.cat[j] == q;
      assert d'.cat[j] == q;
    }
  }

  /** The logical side of moving a data page and noting its place in the index page at hand. */
  lemma DataMoved(g: Geometry, v: Vals, v': Vals, k: Key, dst: Pix)
    requires g.Ok() && !k.ix && k in v.d.cat && LogicOk(g, v, Some(IxKey(g, k)), None)
    requires v'.d == With(v.d, k, dst, v.d.store[k]).(fill := v'.d.fill) && v'.fds == v.fds && v'.files == v.files
    requires v.work.Index? && g.IxSlot(k.span) < |v.work.ix| ==> v'.work == SetEntry(v.work, g.IxSlot(k.span), Some(dst))
    ensures v.work.Index? && g.IxSlot(k.span) < |v.work.ix|
    ensures v'.d.store == v.d.store && LogicOk(g, v', Some(IxKey(g, k)), None)
  {
    assert v'.d.store == v.d.store;
    EntryMoved(g, v.d, k, v.work, v'.d, Some(dst));
    FdsKept(v.fds, v.d.cat, v.files, None, v'.d.cat);
  }

  /** Everything about one data page moved: the invariant stays, and block `b` loses the page. */
  lemma DataMoveOk(g: Geometry, v: Vals, v': Vals, b: nat, src: Pix, dst: Pix, k: Key, store0: map<Key, Body>)
    requires g.Ok() && !k.ix && CleanOk(g, v, b, Some(IxKey(g, k))) && PhysOk(g, v'.f, v'.d, v'.c, v'.n, None)
    requires k in v.d.cat && v.d.cat[k] == src && SameData(v.d, store0)
    requires Moved(g, v.f, v.d, v.c, v'.f, v'.d, v'.c, src, dst)
    requires v'.d == With(v.d, k, dst, v.d.store[k]).(fill := v'.d.fill) && v'.fds == v.fds && v'.files == v.files
    requires v.work.Index? && g.IxSlot(k.span) < |v.work.ix| ==> v'.work == SetEntry(v.work, g.IxSlot(k.span), Some(dst))
    ensures v.work.Index? && g.IxSlot(k.span) < |v.work.ix|
    ensures CleanOk(g, v', b, Some(IxKey(g, k))) && SameData(v'.d, store0)
    ensures b < |v.d.fill| <= |v'.d.fill| && v'.d.fill[b] >= v.d.fill[b] && (dst.bix == b ==> dst.entry >= v.d.fill[b])
    ensures BlockStep(v.f, v'.f, b, v.d.fill[b], src)
  {
    hide ShapeOk, CursorOk, CountsOk, FilesOk, IndexOk, FdsOk, Landing, BlockStep, FirstFree, SameData;
    LiveIn(g, v.f, v.d, v.c, v.n, None, k);
    DataMoved(g, v, v', k, dst);
    SameDataMoved(v.d, v'.d, store0);
    MoveLands(g, v.f, v.d, v.c, v.n, v'.f, v'.d, v'.c, b, src, dst);
    FirstIsFree(g, v.f.lu, v.c, dst);
    MoveBlock(g, v.f, v.d, v'.f, v'.d, b, src, dst, k, v.d.fill[b]);
  }

  lemma SameDataMoved(d: Dir, d': Dir, store0: map<Key, Body>)
    requires SameData(d, store0) && d'.removing == d.removing && d.cat.Keys <= d'.cat.Keys
    requires forall k | k in d.store && !k.ix :: k in d'.store && d'.store[k] == d.store[k]
    ensures SameData(d', store0)
  {
  }

  lemma FirstIsFree(g: Geometry, l: map<Pix, Entry>, c: Pix, dst: Pix)
    requires FirstFree(g, l, c, dst)
    ensures dst in l && l[dst].Free?
  {
  }

  /** A move does to the room what it does to the tables. */
  lemma RoomMoved(g: Geometry, v: Vals, v': Vals, b: nat, src: Pix, dst: Pix, extra: nat)
    requires Room(v.f.lu, b, extra) && Moved(g, v.f, v.d, v.c, v'.f, v'.d, v'.c, src, dst) && v.f.lu[src].Live?
    requires src.bix == b || (extra >= 1 && v.f.lu[src].ix)
    ensures Room(v'.f.lu, b, RoomAfter(b, src, v.f.lu[src].ix, dst, extra))
  {
    FirstIsFree(g, v.f.lu, v.c, dst);
    RoomStep(v.f.lu, b, src, dst, extra);
  }

  lemma MovedSettled(g: Geometry, v: Vals, v': Vals, b: nat, src: Pix, dst: Pix)
    requires g.Ok() && PhysOk(g, v.f, v.d, v.c, v.n, None) && Moved(g, v.f, v.d, v.c, v'.f, v'.d, v'.c, src, dst)
    requires Settled(g, v.d.fill, v.c, Some(b))
    ensures Settled(g, v'.d.fill, v'.c, Some(b))
  {
    TakeSettled(g, v.f, v.d, v.c, v.n, dst, Some(b));
  }

  /** The page that a data page has been moved to, and the index pages, which stay. */
  lemma DataLanded(g: Geometry, v: Vals, v': Vals, k: Key, dst: Pix)
    requires PhysOk(g, v'.f, v'.d, v'.c, v'.n, None) && !k.ix && k in v.d.store
    requires v'.d == With(v.d, k, dst, v.d.store[k]).(fill := v'.d.fill)
    ensures dst in v'.f.lu && dst in v'.f.page && v'.f.lu[dst] == Live(k.id, false) && v'.f.page[dst].hdr.span == k.span
    ensures SameIndexPages(v.d.cat, v'.d.cat)
  {
    LiveIn(g, v'.f, v'.d, v'.c, v'.n, None, k);
  }

  lemma CleanFacts(g: Geometry, v: Vals, b: nat, wk: Option<Key>)
    requires g.Ok() && CleanOk(g, v, b, wk)
    ensures PhysOk(g, v.f, v.d, v.c, v.n, None) && v.d.removing == None && v.d.store.Keys == v.d.cat.Keys
    ensures wk.Some? ==> v.work.Index?
  {
  }

  /** Moves the live data page of key `k` and notes its new place in the work buffer. */
  method MoveData(fs: Spiffs, b: nat, src: Pix, ghost k: Key, ghost log0: seq<Flash>, ghost store0: map<Key, Body>,
                  ghost room: bool, ghost extra: nat)
    returns (res: Status, dst: Pix)
    requires fs.Sized() && fs.cleaning && !k.ix && CleanOk(fs.g, fs.Now(), b, Some(IxKey(fs.g, k)))
    requires k in fs.dir.cat && fs.dir.cat[k] == src && src.bix == b
    requires LogSafe(log0, fs.log, store0) && SameData(fs.dir, store0)
    requires room ==> Room(fs.flash.lu, b, extra)
    modifies fs`flash, fs`freeBlocks, fs`pAllocated, fs`pDeleted, fs`eraseCount, fs`maxErase, fs`dir, fs`log, fs`freeCursor, fs`work
    ensures fs.Phys() && LogSafe(log0, fs.log, store0) && (res.Ok? || res == NotFound)
    ensures res.Ok? ==> CleanOk(fs.g, fs.Now(), b, Some(IxKey(fs.g, k))) && SameData(fs.dir, store0)
    ensures res.Ok? ==> SameIndexPages(old(fs.dir.cat), fs.dir.cat)
    ensures res.Ok? ==> b < |old(fs.dir.fill)| <= |fs.dir.fill| && fs.dir.fill[b] >= old(fs.dir.fill)[b]
    ensures res.Ok? ==> BlockStep(old(fs.flash), fs.flash, b, old(fs.dir.fill)[b], src)
    ensures res.Ok? ==> dst in fs.flash.lu && dst in fs.flash.page && fs.flash.lu[dst] == Live(k.id, false) && fs.flash.page[dst].hdr.span == k.span
    ensures res.Ok? && dst.bix == b ==> b < |old(fs.dir.fill)| && dst.entry >= old(fs.dir.fill)[b]
    ensures room ==> res.Ok? && Room(fs.flash.lu, b, if dst.bix == b then extra else extra + 1)
    ensures res.Ok? ==> Thrift(old(fs.flash.lu), fs.flash.lu, b, if dst.bix == b then 0 else 1)
    ensures fs.Wear() == old(fs.Wear()) && fs.pAllocated == old(fs.pAllocated)
    ensures res.Ok? && old(Settled(fs.g, fs.dir.fill, fs.freeCursor, Some(b))) ==> Settled(fs.g, fs.dir.fill, fs.freeCursor, Some(b))
  {
    hide PhysOk, CleanOk, Settled, Room, Thrift, BlockStep, LogSafe, SameData, Survives, Extends, Moved, SameIndexPages, HeaderOf;
    ghost var g, v := fs.g, fs.Now();
    CleanFacts(g, v, b, Some(IxKey(g, k)));
    HeaderSpan(k, v.d.removing);
    LiveIn(g, v.f, v.d, v.c, v.n, None, k);
    var span := fs.flash.page[src].hdr.span;
    res, dst := fs.PageMove(src, None, k);
    if !res.Ok? {
      LogStaysSafe(log0, old(fs.log), fs.log, v.d, v.d, store0);
      if room {
        RoomMeansFree(v.f.lu, b, extra);
      }
      return;
    }
    SlotInWork(g, v, b, k);
    fs.work := SetEntry(fs.work, fs.g.IxSlot(span), Some(dst));
    DataMoveOk(g, v, fs.Now(), b, src, dst, k, store0);
    DataLanded(g, v, fs.Now(), k, dst);
    LogStaysSafe(log0, old(fs.log), fs.log, v.d, fs.dir, store0);
    if room {
      RoomMoved(g, v, fs.Now(), b, src, dst, extra);
    }
    ThriftSame(v.f.lu, b);
    ThriftMoved(g, v.f.lu, v, fs.Now(), b, src, dst, 0);
    if Settled(g, v.d.fill, v.c, Some(b)) {
      MovedSettled(g, v, fs.Now(), b, src, dst);
    }
  }

  lemma SlotInWork(g: Geometry, v: Vals, b: nat, k: Key)
    requires g.Ok() && !k.ix && CleanOk(g, v, b, Some(IxKey(g, k)))
    ensures v.work.Index? && g.IxSlot(k.span) < |v.work.ix|
  {
    g.SlotBounds(k.span);
  }

  // ----- moving the data pages of one index page -----

  lemma PageKey(g: Geometry, v: Vals, b: nat, wk: Option<Key>, p: Pix)
    requires g.Ok() && CleanOk(g, v, b, wk) && p in v.f.lu && v.f.lu[p].Live?
    ensures p in v.f.page && g.In(p)
    ensures var k := KeyAt(v.f, p); k in v.d.cat && v.d.cat[k] == p
    ensures p.bix < |v.d.fill| && p.entry < v.d.fill[p.bix]
  {
  }

  lemma BlockEntries(g: Geometry, v: Vals, b: nat, wk: Option<Key>)
    requires g.Ok() && CleanOk(g, v, b, wk)
    ensures b < g.blocks && Total(g, v.f.lu)
  {
  }

  lemma GroupIs(f: Flash, g: Geometry, p: Pix, id: nat, s: nat)
    requires g.Ok() && p in f.lu
    ensures InGroup(f, g, p, id, s) <==> f.lu[p] == Live(id, false) && p in f.page && g.IxSpan(f.page[p].hdr.span) == s
  {
  }

  lemma InGroupIn(f: Flash, g: Geometry, p: Pix, id: nat, s: nat)
    requires g.Ok() && Total(g, f.lu) && InGroup(f, g, p, id, s)
    ensures g.In(p)
  {
  }

  lemma StillClear(g: Geometry, f: Flash, f': Flash, b: nat, src: Pix, fill: nat, id: nat, s: nat)
    requires g.Ok() && BlockStep(f, f', b, fill, src) && src.bix == b && src.entry < fill
    requires forall q | q in f.lu && q.bix == b && q.entry < src.entry :: !InGroup(f, g, q, id, s)
    ensures forall q | q in f'.lu && q.bix == b && q.entry <= src.entry :: !InGroup(f', g, q, id, s)
  {
    forall q | q in f'.lu && q.bix == b && q.entry <= src.entry
      ensures !InGroup(f', g, q, id, s)
    {
      if f'.lu[q].Live? && q != src {
        assert q in f.lu && f'.lu[q] == f.lu[q] && SameHeader(f, f', q);
      }
    }
  }

  lemma DeletedMore(f0: Flash, f1: Flash, f2: Flash, b: nat, fill: nat, src: Pix)
    requires OnlyDeleted(f0, f1, b) && BlockStep(f1, f2, b, fill, src)
    ensures OnlyDeleted(f0, f2, b)
  {
  }

  /** One page of a group has been moved; `out` is whether one has left the block before. */
  lemma GroupStep(g: Geometry, f0: Flash, f: Flash, f': Flash, b: nat, fill: nat, src: Pix, dst: Pix, id: nat, s: nat, out: bool)
    requires g.Ok() && BlockStep(f, f', b, fill, src) && src.bix == b && src.entry < fill
    requires forall q | q in f.lu && q.bix == b && q.entry < src.entry :: !InGroup(f, g, q, id, s)
    requires OnlyDeleted(f0, f, b) && Thrift(f0.lu, f.lu, b, if out then 1 else 0) && Thrift(f.lu, f'.lu, b, if dst.bix == b then 0 else 1)
    ensures forall q | q in f'.lu && q.bix == b && q.entry <= src.entry :: !InGroup(f', g, q, id, s)
    ensures OnlyDeleted(f0, f', b) && Thrift(f0.lu, f'.lu, b, if out || dst.bix != b then 1 else 0)
    ensures dst in f'.lu && f'.lu[dst] == Live(id, false) && dst in f'.page && g.IxSpan(f'.page[dst].hdr.span) == s ==> InGroup(f', g, dst, id, s)
  {
    StillClear(g, f, f', b, src, fill, id, s);
    DeletedMore(f0, f, f', b, fill, src);
    ThriftChain(f0.lu, f.lu, f'.lu, b, if out then 1 else 0, if dst.bix == b then 0 else 1, if out || dst.bix != b then 1 else 0);
  }

  /** Moves every data page of object `id` in block `b` that index page `s`, which is in the work
      buffer, refers to (the MOVE_OBJ_DATA state). */
  method MoveGroup(fs: Spiffs, b: nat, id: nat, s: nat, ghost start: Pix, ghost log0: seq<Flash>, ghost store0: map<Key, Body>,
                   ghost room: bool)
    returns (res: Status)
    requires fs.Sized() && fs.cleaning && CleanOk(fs.g, fs.Now(), b, Some(Key(id, true, s)))
    requires start.bix == b && InGroup(fs.flash, fs.g, start, id, s)
    requires LogSafe(log0, fs.log, store0) && SameData(fs.dir, store0)
    requires room ==> Room(fs.flash.lu, b, 0)
    modifies fs`flash, fs`freeBlocks, fs`pAllocated, fs`pDeleted, fs`eraseCount, fs`maxErase, fs`dir, fs`log, fs`freeCursor, fs`work
    ensures fs.Phys() && LogSafe(log0, fs.log, store0) && (res.Ok? || res == NotFound)
    ensures res.Ok? ==> CleanOk(fs.g, fs.Now(), b, Some(Key(id, true, s))) && SameData(fs.dir, store0)
    ensures res.Ok? ==> SameIndexPages(old(fs.dir.cat), fs.dir.cat)
    ensures res.Ok? ==> b < |old(fs.dir.fill)| <= |fs.dir.fill| && fs.dir.fill[b] >= old(fs.dir.fill)[b]
    ensures res.Ok? ==> OnlyDeleted(old(fs.flash), fs.flash, b)
    ensures res.Ok? ==> forall q | q in fs.flash.lu && q.bix == b :: !InGroup(fs.flash, fs.g, q, id, s)
    ensures room ==> res.Ok? && Room(fs.flash.lu, b, 1)
    ensures res.Ok? ==> Thrift(old(fs.flash.lu), fs.flash.lu, b, 1)
    ensures fs.Wear() == old(fs.Wear()) && fs.pAllocated == old(fs.pAllocated)
    ensures res.Ok? && old(Settled(fs.g, fs.dir.fill, fs.freeCursor, Some(b))) ==> Settled(fs.g, fs.dir.fill, fs.freeCursor, Some(b))
  {
    hide PhysOk, CleanOk, Settled, Room, Thrift, BlockStep, LogSafe, SameData, OnlyDeleted, Survives, Extends, LogicOk, InGroup;
    ghost var g, f0 := fs.g, fs.flash;
    ThriftSame(f0.lu, b);
    ghost var wk := Key(id, true, s);
    // whether a page of the group has left the block, and one that has not
    ghost var out, ahead := false, start;
    res := Ok;
    BlockEntries(g, fs.Now(), b, Some(wk));
    ghost var fill0 := fs.dir.fill;
    FillBound(g, fs.Now(), b, Some(wk));
    var e := 0;
    while e < fs.g.entries
      invariant e <= g.entries && res.Ok?
      invariant fs.Sized() && fs.cleaning && CleanOk(g, fs.Now(), b, Some(wk))
      invariant LogSafe(log0, fs.log, store0) && SameData(fs.dir, store0)
      invariant b < |fill0| <= |fs.dir.fill| && fs.dir.fill[b] >= fill0[b]
      invariant OnlyDeleted(f0, fs.flash, b) && SameIndexPages(old(fs.dir.cat), fs.dir.cat)
      invariant forall q | q in fs.flash.lu && q.bix == b && q.entry < e :: !InGroup(fs.flash, g, q, id, s)
      invariant room ==> Room(fs.flash.lu, b, if out then 1 else 0)
      invariant Thrift(f0.lu, fs.flash.lu, b, if out then 1 else 0)
      invariant fs.Wear() == old(fs.Wear()) && fs.pAllocated == old(fs.pAllocated)
      invariant !out ==> ahead.bix == b && e <= ahead.entry && InGroup(fs.flash, g, ahead, id, s)
      invariant old(Settled(fs.g, fs.dir.fill, fs.freeCursor, Some(b))) ==> Settled(g, fs.dir.fill, fs.freeCursor, Some(b))
    {
      BlockEntries(g, fs.Now(), b, Some(wk));
      var p := Pix(b, e);
      GroupIs(fs.flash, g, p, id, s);
      if fs.flash.lu[p] == Live(id, false) {
        PageKey(g, fs.Now(), b, Some(wk), p);
        if fs.g.IxSpan(fs.flash.page[p].hdr.span) == s {
          ghost var k := KeyAt(fs.flash, p);
          ghost var f, fill := fs.flash, fs.dir.fill[b];
          var dst;
          res, dst := MoveData(fs, b, p, k, log0, store0, room, if out then 1 else 0);
          if !res.Ok? {
            return;
          }
          GroupStep(g, f0, f, fs.flash, b, fill, p, dst, id, s, out);
          if room && dst.bix != b {
            RoomLess(fs.flash.lu, b, if out then 2 else 1, 1);
          }
          out, ahead := out || dst.bix != b, dst;
        }
      }
      assert forall q | q in fs.flash.lu && q.bix == b && q.entry == e :: q == p;
      e := e + 1;
    }
    BlockEntries(g, fs.Now(), b, Some(wk));
    CleanFacts(g, fs.Now(), b, Some(wk));
    if !out {
      InGroupIn(fs.flash, g, ahead, id, s);
    }
  }

  lemma ThriftLess(l0: map<Pix, Entry>, l: map<Pix, Entry>, b: nat, more: int, less: int)
    requires Thrift(l0, l, b, more) && less <= more
    ensures Thrift(l0, l, b, less)
  {
  }

  lemma RoomLess(l: map<Pix, Entry>, b: nat, more: nat, less: nat)
    requires Room(l, b, more) && less <= more
    ensures Room(l, b, less)
  {
  }

  lemma FillBound(g: Geometry, v: Vals, b: nat, wk: Option<Key>)
    requires g.Ok() && CleanOk(g, v, b, wk)
    ensures b < |v.d.fill| && OnlyDeleted(v.f, v.f, b)
  {
  }

  // ----- moving index pages -----

  /** An index page, or its newer version in the work buffer, gets a new place, and the
      descriptors are told. */
  lemma IndexMoved(g: Geometry, v: Vals, v': Vals, wk: Option<Key>, k: Key, dst: Pix, body: Body, size: SizeArg)
    requires g.Ok() && LogicOk(g, v, wk, None) && k.ix && k in v.d.cat
    requires if wk.None? then body == v.d.store[k] else wk == Some(k) && body == v.work && SameMeta(body, v.d.store[k])
    requires v'.d == With(v.d, k, dst, body).(fill := v'.d.fill) && v'.files == v.files
    requires |v'.fds| == |v.fds| && forall i | 0 <= i < |v.fds| :: v'.fds[i] == Notified(v.fds[i], Update, k.id, k.span, dst, size)
    requires size.Keep? || (k.span == 0 && body.Index? && size == SizeIs(body.size))
    ensures LogicOk(g, v', None, None)
  {
    assert BodyOk(g, k, v.d.store[k], v.files[k.id], false);
    FdsMoved(v.fds, v.d.cat, v.files, None, v'.fds, k, Update, dst, size, None);
    if wk.None? {
      assert v'.d.store == v.d.store;
      IndexKept(g, v.d, None, v.work, v'.d);
      WorkFree(g, v'.d, v.work, v'.work);
    } else {
      assert IxFits(g, v.d.cat, k, v.work);
      IndexStored(g, v.d, k, v.work, v'.d);
      WorkFree(g, v'.d, v.work, v'.work);
      BodyPut(g, v.d.store, v.files, None, k, body);
    }
  }

  /** Moves one index page while cleaning: the invariant stays and the room shrinks with the block. */
  lemma IndexMoveOk(g: Geometry, v: Vals, v': Vals, b: nat, wk: Option<Key>, k: Key, src: Pix, dst: Pix, body: Body, size: SizeArg,
                    store0: map<Key, Body>)
    requires g.Ok() && CleanOk(g, v, b, wk) && PhysOk(g, v'.f, v'.d, v'.c, v'.n, None)
    requires k.ix && k in v.d.cat && v.d.cat[k] == src && SameData(v.d, store0)
    requires if wk.None? then body == v.d.store[k] else wk == Some(k) && body == v.work
    requires v'.d == With(v.d, k, dst, body).(fill := v'.d.fill) && v'.files == v.files
    requires |v'.fds| == |v.fds| && forall i | 0 <= i < |v.fds| :: v'.fds[i] == Notified(v.fds[i], Update, k.id, k.span, dst, size)
    requires size.Keep? || (k.span == 0 && body.Index? && size == SizeIs(body.size))
    requires Moved(g, v.f, v.d, v.c, v'.f, v'.d, v'.c, src, dst)
    ensures CleanOk(g, v', b, None) && SameData(v'.d, store0)
    ensures b < |v.d.fill| <= |v'.d.fill| && v'.d.fill[b] >= v.d.fill[b]
    ensures BlockStep(v.f, v'.f, b, v.d.fill[b], src)
  {
    hide ShapeOk, CursorOk, CountsOk, LogicOk, Landing, BlockStep, FirstFree, SameData;
    LiveIn(g, v.f, v.d, v.c, v.n, None, k);
    IndexMoved(g, v, v', wk, k, dst, body, size);
    SameDataMoved(v.d, v'.d, store0);
    MoveLands(g, v.f, v.d, v.c, v.n, v'.f, v'.d, v'.c, b, src, dst);
    FirstIsFree(g, v.f.lu, v.c, dst);
    MoveBlock(g, v.f, v.d, v'.f, v'.d, b, src, dst, k, v.d.fill[b]);
  }

  /** Stores the index page in the work buffer on a new page (end of the MOVE_OBJ_DATA state). */
  method StoreIndex(fs: Spiffs, b: nat, id: nat, s: nat, pix: Pix, ghost log0: seq<Flash>, ghost store0: map<Key, Body>, ghost room: bool)
    returns (res: Status)
    requires fs.Sized() && fs.cleaning && CleanOk(fs.g, fs.Now(), b, Some(Key(id, true, s)))
    requires Key(id, true, s) in fs.dir.cat && fs.dir.cat[Key(id, true, s)] == pix
    requires LogSafe(log0, fs.log, store0) && SameData(fs.dir, store0)
    requires room ==> Room(fs.flash.lu, b, 1)
    modifies fs`flash, fs`freeBlocks, fs`pAllocated, fs`pDeleted, fs`eraseCount, fs`maxErase, fs`dir, fs`log, fs`freeCursor, fs`work, fs`fds
    ensures fs.Phys() && LogSafe(log0, fs.log, store0) && (res.Ok? || res == NotFound)
    ensures res.Ok? ==> CleanOk(fs.g, fs.Now(), b, None) && SameData(fs.dir, store0)
    ensures res.Ok? ==> b < |old(fs.dir.fill)| <= |fs.dir.fill| && fs.dir.fill[b] >= old(fs.dir.fill)[b]
    ensures SameFds(old(fs.fds), fs.fds)
    ensures res.Ok? ==> BlockStep(old(fs.flash), fs.flash, b, old(fs.dir.fill)[b], pix)
    ensures room ==> res.Ok? && Room(fs.flash.lu, b, 0)
    ensures res.Ok? ==> Thrift(old(fs.flash.lu), fs.flash.lu, b, -1)
    ensures fs.Wear() == old(fs.Wear()) && fs.pAllocated == old(fs.pAllocated)
    ensures res.Ok? && old(Settled(fs.g, fs.dir.fill, fs.freeCursor, Some(b))) ==> Settled(fs.g, fs.dir.fill, fs.freeCursor, Some(b))
  {
    hide PhysOk, CleanOk, Settled, Room, Thrift, BlockStep, LogSafe, SameData, Survives, Extends, Moved, LogicOk, Notified, SameFds;
    ghost var g, v, k := fs.g, fs.Now(), Key(id, true, s);
    CleanFacts(g, v, b, Some(k));
    LiveIn(g, v.f, v.d, v.c, v.n, None, k);
    var dst;
    if s == 0 {
      res, dst := fs.UpdateIndexHdr(id, pix, false, Keep);
    } else {
      res, dst := fs.PageMove(pix, Some(fs.work), k);
      if res.Ok? {
        fs.Notify(Update, id, s, dst, Keep);
      }
    }
    if !res.Ok? {
      EqualFds(v.fds);
      LogStaysSafe(log0, old(fs.log), fs.log, v.d, v.d, store0);
      if room {
        RoomMeansFree(v.f.lu, b, 1);
      }
      return;
    }
    UpdatedFds(v.fds, fs.fds, id, s, dst, if s == 0 then SizeIs(v.work.size) else Keep);
    IndexMoveOk(g, v, fs.Now(), b, Some(k), k, pix, dst, v.work, if s == 0 then SizeIs(v.work.size) else Keep, store0);
    LogStaysSafe(log0, old(fs.log), fs.log, v.d, fs.dir, store0);
    if room {
      RoomMoved(g, v, fs.Now(), b, pix, dst, 1);
      RoomLess(fs.flash.lu, b, if pix.bix != b then 0 else 1, 0);
    }
    ThriftSame(v.f.lu, b);
    ThriftMoved(g, v.f.lu, v, fs.Now(), b, pix, dst, 0);
    ThriftLess(v.f.lu, fs.flash.lu, b, if pix.bix != b then -1 else 0, -1);
    if Settled(g, v.d.fill, v.c, Some(b)) {
      MovedSettled(g, v, fs.Now(), b, pix, dst);
    }
  }

  /** Moves the live index page of key `k` out of its place (the MOVE_OBJ_IX state). */
  method MoveIndex(fs: Spiffs, b: nat, src: Pix, ghost k: Key, ghost log0: seq<Flash>, ghost store0: map<Key, Body>, ghost room: bool)
    returns (res: Status)
    requires fs.Sized() && fs.cleaning && k.ix && CleanOk(fs.g, fs.Now(), b, None)
    requires k in fs.dir.cat && fs.dir.cat[k] == src && src.bix == b
    requires LogSafe(log0, fs.log, store0) && SameData(fs.dir, store0)
    requires room ==> Room(fs.flash.lu, b, 0)
    modifies fs`flash, fs`freeBlocks, fs`pAllocated, fs`pDeleted, fs`eraseCount, fs`maxErase, fs`dir, fs`log, fs`freeCursor, fs`fds
    ensures fs.Phys() && LogSafe(log0, fs.log, store0) && (res.Ok? || res == NotFound)
    ensures res.Ok? ==> CleanOk(fs.g, fs.Now(), b, None) && SameData(fs.dir, store0)
    ensures res.Ok? ==> b < |old(fs.dir.fill)| <= |fs.dir.fill| && fs.dir.fill[b] >= old(fs.dir.fill)[b]
    ensures SameFds(old(fs.fds), fs.fds)
    ensures res.Ok? ==> BlockStep(old(fs.flash), fs.flash, b, old(fs.dir.fill)[b], src)
    ensures res.Ok? ==> src in old(fs.flash.lu) && old(fs.flash.lu)[src] == Live(k.id, true)
    ensures room ==> res.Ok? && Room(fs.flash.lu, b, 0)
    ensures res.Ok? ==> Thrift(old(fs.flash.lu), fs.flash.lu, b, 0)
    ensures fs.Wear() == old(fs.Wear()) && fs.pAllocated == old(fs.pAllocated)
    ensures res.Ok? && old(Settled(fs.g, fs.dir.fill, fs.freeCursor, Some(b))) ==> Settled(fs.g, fs.dir.fill, fs.freeCursor, Some(b))
  {
    hide PhysOk, CleanOk, Settled, Room, Thrift, BlockStep, LogSafe, SameData, Survives, Extends, Moved, LogicOk, Notified, SameFds;
    ghost var g, v := fs.g, fs.Now();
    CleanFacts(g, v, b, None);
    LiveIn(g, v.f, v.d, v.c, v.n, None, k);
    var id, span := fs.flash.lu[src].id, fs.flash.page[src].hdr.span;
    var dst;
    res, dst := fs.PageMove(src, None, k);
    if !res.Ok? {
      EqualFds(v.fds);
      LogStaysSafe(log0, old(fs.log), fs.log, v.d, v.d, store0);
      if room {
        RoomMeansFree(v.f.lu, b, 0);
      }
      return;
    }
    fs.Notify(Update, id, span, dst, Keep);
    UpdatedFds(v.fds, fs.fds, id, span, dst, Keep);
    IndexMoveOk(g, v, fs.Now(), b, None, k, src, dst, v.d.store[k], Keep, store0);
    LogStaysSafe(log0, old(fs.log), fs.log, v.d, fs.dir, store0);
    if room {
      RoomMoved(g, v, fs.Now(), b, src, dst, 0);
    }
    ThriftSame(v.f.lu, b);
    ThriftMoved(g, v.f.lu, v, fs.Now(), b, src, dst, 0);
    if Settled(g, v.d.fill, v.c, Some(b)) {
      MovedSettled(g, v, fs.Now(), b, src, dst);
    }
  }

  // ----- the state machine -----

  /** No live data page among the first `n` entries of block `b`. */
  ghost predicate NoData(f: Flash, b: nat, n: nat) {
    forall q | q in f.lu && q.bix == b && q.entry < n && f.lu[q].Live? :: f.lu[q].ix
  }

  /** Scans block `b` from `from` for a data page (the FIND_OBJ_DATA state). */
  method FindData(fs: Spiffs, b: nat, from: nat) returns (e: nat)
    requires fs.g.Ok() && Total(fs.g, fs.flash.lu) && b < fs.g.blocks && from <= fs.g.entries
    requires NoData(fs.flash, b, from)
    ensures from <= e <= fs.g.entries && NoData(fs.flash, b, e) && Total(fs.g, fs.flash.lu)
    ensures e < fs.g.entries ==> Pix(b, e) in fs.flash.lu && fs.flash.lu[Pix(b, e)].Live? && !fs.flash.lu[Pix(b, e)].ix
  {
    var l := fs.flash.lu;
    e := from;
    while e < fs.g.entries
      invariant from <= e <= fs.g.entries && NoData(fs.flash, b, e)
    {
      if l[Pix(b, e)].Live? && !l[Pix(b, e)].ix {
        return;
      }
      assert forall q | q in l && q.bix == b && q.entry == e :: q == Pix(b, e);
      e := e + 1;
    }
  }

  /** Moves the index pages that are left in block `b` (the MOVE_OBJ_IX state). */
  method MoveIndexPages(fs: Spiffs, b: nat, ghost log0: seq<Flash>, ghost store0: map<Key, Body>, ghost room: bool)
    returns (res: Status)
    requires fs.Sized() && fs.cleaning && CleanOk(fs.g, fs.Now(), b, None)
    requires NoData(fs.flash, b, fs.g.entries)
    requires LogSafe(log0, fs.log, store0) && SameData(fs.dir, store0)
    requires room ==> Room(fs.flash.lu, b, 0)
    modifies fs`flash, fs`freeBlocks, fs`pAllocated, fs`pDeleted, fs`eraseCount, fs`maxErase, fs`dir, fs`log, fs`freeCursor, fs`fds
    ensures fs.Phys() && LogSafe(log0, fs.log, store0) && (res.Ok? || res == NotFound)
    ensures res.Ok? ==> CleanOk(fs.g, fs.Now(), b, None) && SameData(fs.dir, store0)
    ensures res.Ok? ==> b < |old(fs.dir.fill)| <= |fs.dir.fill| && fs.dir.fill[b] >= old(fs.dir.fill)[b]
    ensures SameFds(old(fs.fds), fs.fds)
    ensures res.Ok? ==> NoLive(fs.flash.lu, b)
    ensures room ==> res.Ok?
    ensures res.Ok? ==> Thrift(old(fs.flash.lu), fs.flash.lu, b, 0)
    ensures fs.Wear() == old(fs.Wear()) && fs.pAllocated == old(fs.pAllocated)
    ensures res.Ok? && old(Settled(fs.g, fs.dir.fill, fs.freeCursor, Some(b))) ==> Settled(fs.g, fs.dir.fill, fs.freeCursor, Some(b))
  {
    hide PhysOk, CleanOk, Settled, Room, Thrift, BlockStep, LogSafe, SameData, OnlyDeleted, Survives, Extends, LogicOk, SameFds;
    EqualFds(fs.fds);
    ghost var g, l0 := fs.g, fs.flash.lu;
    ThriftSame(l0, b);
    ghost var fill0 := fs.dir.fill;
    res := Ok;
    FillBound(g, fs.Now(), b, None);
    var e := 0;
    while e < fs.g.entries
      invariant e <= g.entries && res.Ok?
      invariant fs.Sized() && fs.cleaning && CleanOk(g, fs.Now(), b, None)
      invariant LogSafe(log0, fs.log, store0) && SameData(fs.dir, store0)
      invariant b < |fill0| <= |fs.dir.fill| && fs.dir.fill[b] >= fill0[b]
      invariant SameFds(old(fs.fds), fs.fds)
      invariant NoData(fs.flash, b, g.entries)
      invariant forall q | q in fs.flash.lu && q.bix == b && q.entry < e :: !fs.flash.lu[q].Live?
      invariant room ==> Room(fs.flash.lu, b, 0)
      invariant Thrift(l0, fs.flash.lu, b, 0)
      invariant fs.Wear() == old(fs.Wear()) && fs.pAllocated == old(fs.pAllocated)
      invariant old(Settled(fs.g, fs.dir.fill, fs.freeCursor, Some(b))) ==> Settled(g, fs.dir.fill, fs.freeCursor, Some(b))
    {
      BlockEntries(g, fs.Now(), b, None);
      var p := Pix(b, e);
      if fs.flash.lu[p].Live? && fs.flash.lu[p].ix {
        PageKey(g, fs.Now(), b, None, p);
        ghost var k := KeyAt(fs.flash, p);
        ghost var f, fill, fds := fs.flash, fs.dir.fill[b], fs.fds;
        res := MoveIndex(fs, b, p, k, log0, store0, room);
        SameFdsChain(old(fs.fds), fds, fs.fds);
        if !res.Ok? {
          return;
        }
        StillEmpty(f, fs.flash, b, p, fill, g.entries);
        ThriftChain(l0, f.lu, fs.flash.lu, b, 0, 0, 0);
      }
      assert forall q | q in fs.flash.lu && q.bix == b && q.entry == e :: q == p;
      e := e + 1;
    }
    BlockEntries(g, fs.Now(), b, None);
    CleanFacts(g, fs.Now(), b, None);
  }

  lemma StillEmpty(f: Flash, f': Flash, b: nat, src: Pix, fill: nat, n: nat)
    requires BlockStep(f, f', b, fill, src) && src.bix == b && src.entry < fill && f.lu[src].Live? && f.lu[src].ix
    requires NoData(f, b, n)
    requires forall q | q in f.lu && q.bix == b && q.entry < src.entry :: !f.lu[q].Live?
    ensures NoData(f', b, n)
    ensures forall q | q in f'.lu && q.bix == b && q.entry <= src.entry :: !f'.lu[q].Live?
  {
  }

  /** Used entries without data pages stay so, and the page found is gone after its group moved. */
  lemma DataGone(g: Geometry, f0: Flash, f1: Flash, b: nat, e: nat, id: nat, s: nat)
    requires g.Ok() && OnlyDeleted(f0, f1, b) && NoData(f0, b, e)
    requires forall q | q in f0.lu && q.bix == b && q.entry <= e :: !f0.lu[q].Free?
    requires Total(g, f0.lu) && Total(g, f1.lu) && Pix(b, e) in f0.lu && InGroup(f0, g, Pix(b, e), id, s)
    requires forall q | q in f1.lu && q.bix == b :: !InGroup(f1, g, q, id, s)
    ensures NoData(f1, b, e + 1)
  {
    forall q | q in f1.lu && q.bix == b && q.entry < e + 1 && f1.lu[q].Live?
      ensures f1.lu[q].ix
    {
      assert q in f0.lu && f1.lu[q] == f0.lu[q] && SameHeader(f0, f1, q);
      assert InGroup(f0, g, q, id, s) <==> InGroup(f1, g, q, id, s);
      assert q != Pix(b, e);
    }
  }

  lemma NoDataKept(f0: Flash, f1: Flash, b: nat, n: nat, fill: nat, src: Pix)
    requires BlockStep(f0, f1, b, fill, src) && NoData(f0, b, n) && n <= fill
    ensures NoData(f1, b, n)
  {
  }

  lemma UsedBelow(g: Geometry, v: Vals, b: nat, wk: Option<Key>, p: Pix)
    requires g.Ok() && CleanOk(g, v, b, wk) && p in v.f.lu && v.f.lu[p].Live? && p.bix == b
    ensures b < |v.d.fill| && p.entry < v.d.fill[b]
    ensures forall q | q in v.f.lu && q.bix == b && q.entry <= p.entry :: !v.f.lu[q].Free?
  {
  }

  /** The index page of a data page exists. */
  lemma HasIndex(g: Geometry, v: Vals, b: nat, k: Key)
    requires g.Ok() && CleanOk(g, v, b, None) && !k.ix && k in v.d.cat
    ensures IxKey(g, k) in v.d.cat && IxKey(g, k) in v.d.store
  {
    assert k in v.d.store;
    var n := g.Pages(|v.files[k.id].bytes|);
    g.SlotBounds(k.span);
    assert HasIx(g, |v.files[k.id].bytes|, g.IxSpan(k.span), false);
  }

  lemma Loaded(g: Geometry, v: Vals, b: nat, wk: Key, work: Body)
    requires g.Ok() && CleanOk(g, v, b, None) && wk.ix && wk in v.d.cat && wk in v.d.store && work == v.d.store[wk]
    ensures CleanOk(g, v.(work := work), b, Some(wk))
  {
    IndexLoaded(g, v.d, wk, v.work);
    assert BodyOk(g, wk, v.d.store[wk], v.files[wk.id], false);
  }

  /** Before cleaning block `b`, the free cursor leaves it. */
  lemma CursorLeaves(g: Geometry, v: Vals, b: nat)
    requires g.Ok() && b < g.blocks && PhysOk(g, v.f, v.d, v.c, v.n, None) && LogicOk(g, v, None, None) && v.d.removing == None
    ensures var c := if v.c.bix == b then Pix((b + 1) % g.blocks, 0) else v.c;
            && CleanOk(g, v.(c := c), b, None)
            && (Settled(g, v.d.fill, v.c, None) ==> Settled(g, v.d.fill, c, Some(b)))
  {
    hide CatalogOk, ShapeOk, CountsOk, FilesOk, IndexOk, FdsOk;
    NextBlock(g, b);
  }

  lemma NextBlock(g: Geometry, b: nat)
    requires b < g.blocks
    ensures (b + 1) % g.blocks == g.Next(b)
  {
    if b + 1 < g.blocks {
      SmallRemainder(b + 1, g.blocks);
    }
  }

  lemma SmallRemainder(a: nat, n: nat)
    requires a < n
    ensures a % n == a
  {
  }

  lemma CleanEnds(g: Geometry, v: Vals, b: nat)
    requires g.Ok() && CleanOk(g, v, b, None) && NoLive(v.f.lu, b)
    ensures v.c.bix != b && b < |v.d.fill|
  {
  }

  /** Loads the index page that refers to the data page at entry `e` of block `b`. */
  method LoadIndex(fs: Spiffs, b: nat, e: nat) returns (res: Status, id: nat, s: nat, objix: Pix)
    requires fs.Sized() && CleanOk(fs.g, fs.Now(), b, None)
    requires Pix(b, e) in fs.flash.lu && fs.flash.lu[Pix(b, e)].Live? && !fs.flash.lu[Pix(b, e)].ix
    modifies fs`cursor, fs`work
    ensures res.Ok? && fs.Sized() && CleanOk(fs.g, fs.Now(), b, Some(Key(id, true, s)))
    ensures InGroup(fs.flash, fs.g, Pix(b, e), id, s)
    ensures Key(id, true, s) in fs.dir.cat && fs.dir.cat[Key(id, true, s)] == objix
  {
    hide PhysOk, CleanOk, LogicOk;
    ghost var g := fs.g;
    PageKey(g, fs.Now(), b, None, Pix(b, e));
    HasIndex(g, fs.Now(), b, KeyAt(fs.flash, Pix(b, e)));
    CleanFacts(g, fs.Now(), b, None);
    id := fs.flash.lu[Pix(b, e)].id;
    s := fs.g.IxSpan(fs.flash.page[Pix(b, e)].hdr.span);
    res, objix := fs.FindIdAndSpan(id, true, s);
    LoadedBody(g, fs.flash, fs.dir, fs.freeCursor, fs.N(), Key(id, true, s));
    Loaded(g, fs.Now(), b, Key(id, true, s), fs.dir.store[Key(id, true, s)]);
    fs.work := fs.flash.page[objix].body;
  }

  /** Moves a group of data pages, the first of which is at entry `stored - 1`, and stores their index page. */
  method MoveGroupAndIndex(fs: Spiffs, b: nat, id: nat, s: nat, objix: Pix, stored: nat,
                           ghost log0: seq<Flash>, ghost store0: map<Key, Body>, ghost room: bool)
    returns (res: Status)
    requires fs.Sized() && fs.cleaning && CleanOk(fs.g, fs.Now(), b, Some(Key(id, true, s)))
    requires stored >= 1 && NoData(fs.flash, b, stored - 1) && InGroup(fs.flash, fs.g, Pix(b, stored - 1), id, s)
    requires Key(id, true, s) in fs.dir.cat && fs.dir.cat[Key(id, true, s)] == objix
    requires LogSafe(log0, fs.log, store0) && SameData(fs.dir, store0)
    requires room ==> Room(fs.flash.lu, b, 0)
    modifies fs`flash, fs`freeBlocks, fs`pAllocated, fs`pDeleted, fs`eraseCount, fs`maxErase, fs`dir, fs`log, fs`freeCursor, fs`work, fs`fds
    ensures fs.Phys() && LogSafe(log0, fs.log, store0) && (res.Ok? || res == NotFound)
    ensures res.Ok? ==> CleanOk(fs.g, fs.Now(), b, None) && SameData(fs.dir, store0) && NoData(fs.flash, b, stored)
    ensures res.Ok? ==> b < |old(fs.dir.fill)| <= |fs.dir.fill| && fs.dir.fill[b] >= old(fs.dir.fill)[b]
    ensures SameFds(old(fs.fds), fs.fds)
    ensures room ==> res.Ok? && Room(fs.flash.lu, b, 0)
    ensures res.Ok? ==> Thrift(old(fs.flash.lu), fs.flash.lu, b, 0)
    ensures fs.Wear() == old(fs.Wear()) && fs.pAllocated == old(fs.pAllocated)
    ensures res.Ok? && old(Settled(fs.g, fs.dir.fill, fs.freeCursor, Some(b))) ==> Settled(fs.g, fs.dir.fill, fs.freeCursor, Some(b))
  {
    hide PhysOk, CleanOk, Settled, Room, Thrift, BlockStep, LogSafe, SameData, OnlyDeleted, LogicOk, NoData, SameFds;
    EqualFds(fs.fds);
    ghost var g, f0, wk, found := fs.g, fs.flash, Key(id, true, s), Pix(b, stored - 1);
    BlockEntries(g, fs.Now(), b, Some(wk));
    UsedBelow(g, fs.Now(), b, Some(wk), found);
    res := MoveGroup(fs, b, id, s, found, log0, store0, room);
    if !res.Ok? {
      return;
    }
    BlockEntries(g, fs.Now(), b, Some(wk));
    DataGone(g, f0, fs.flash, b, stored - 1, id, s);
    ghost var f1, fill1 := fs.flash, fs.dir.fill[b];
    res := StoreIndex(fs, b, id, s, objix, log0, store0, room);
    if res.Ok? {
      NoDataKept(f1, fs.flash, b, stored, fill1, objix);
      ThriftChain(f0.lu, f1.lu, fs.flash.lu, b, 1, -1, 0);
    }
  }

  /** The states of cleaning block `b`, from the search for data pages to the end. */
  method CleanBlock(fs: Spiffs, b: nat, ghost log0: seq<Flash>, ghost store0: map<Key, Body>, ghost room: bool) returns (res: Status)
    requires fs.Sized() && fs.cleaning && CleanOk(fs.g, fs.Now(), b, None)
    requires LogSafe(log0, fs.log, store0) && SameData(fs.dir, store0)
    requires room ==> Room(fs.flash.lu, b, 0)
    modifies fs`flash, fs`freeBlocks, fs`pAllocated, fs`pDeleted, fs`eraseCount, fs`maxErase, fs`dir, fs`log, fs`freeCursor,
             fs`cursor, fs`work, fs`fds
    ensures fs.Phys() && LogSafe(log0, fs.log, store0) && (res.Ok? || res == NotFound) && SameFds(old(fs.fds), fs.fds)
    ensures res.Ok? ==> CleanOk(fs.g, fs.Now(), b, None) && SameData(fs.dir, store0) && NoLive(fs.flash.lu, b)
    ensures res.Ok? ==> b < |old(fs.dir.fill)| <= |fs.dir.fill| && fs.dir.fill[b] >= old(fs.dir.fill)[b]
    ensures room ==> res.Ok?
    ensures res.Ok? ==> Thrift(old(fs.flash.lu), fs.flash.lu, b, 0)
    ensures fs.Wear() == old(fs.Wear()) && fs.pAllocated == old(fs.pAllocated)
    ensures res.Ok? && old(Settled(fs.g, fs.dir.fill, fs.freeCursor, Some(b))) ==> Settled(fs.g, fs.dir.fill, fs.freeCursor, Some(b))
  {
    hide PhysOk, CleanOk, Settled, Room, Thrift, LogSafe, SameData, LogicOk, NoData, NoLive, InGroup, Total, OnlyDeleted, SameFds;
    ghost var g, fill0, l0 := fs.g, fs.dir.fill, fs.flash.lu;
    ThriftSame(l0, b);
    EqualFds(fs.fds);
    FillBound(g, fs.Now(), b, None);
    NoDataYet(fs.flash, b);
    res := Ok;
    var state, entry, stored := FindObjData, 0, 0;
    var id, s, objix := 0, 0, Pix(0, 0);
    while state != Finished
      invariant res.Ok? && fs.Sized() && fs.cleaning
      invariant CleanOk(g, fs.Now(), b, if state.MoveObjData? then Some(Key(id, true, s)) else None)
      invariant LogSafe(log0, fs.log, store0) && SameData(fs.dir, store0)
      invariant b < |fill0| <= |fs.dir.fill| && fs.dir.fill[b] >= fill0[b]
      invariant SameFds(old(fs.fds), fs.fds)
      invariant room && !state.Finished? ==> Room(fs.flash.lu, b, 0)
      invariant Thrift(l0, fs.flash.lu, b, 0)
      invariant fs.Wear() == old(fs.Wear()) && fs.pAllocated == old(fs.pAllocated)
      invariant old(Settled(fs.g, fs.dir.fill, fs.freeCursor, Some(b))) ==> Settled(g, fs.dir.fill, fs.freeCursor, Some(b))
      invariant state.FindObjData? ==> entry <= g.entries && NoData(fs.flash, b, entry)
      invariant state.MoveObjData? ==> 1 <= stored <= g.entries && NoData(fs.flash, b, stored - 1)
      invariant state.MoveObjData? ==> InGroup(fs.flash, g, Pix(b, stored - 1), id, s)
      invariant state.MoveObjData? ==> Key(id, true, s) in fs.dir.cat && fs.dir.cat[Key(id, true, s)] == objix
      invariant state.MoveObjIx? ==> NoData(fs.flash, b, g.entries)
      invariant state.Finished? ==> NoLive(fs.flash.lu, b)
      decreases if state.MoveObjIx? || state.Finished? then 0 else g.entries + 1 - (if state.FindObjData? then entry else stored),
                if state.Finished? then 0 else if state.MoveObjData? then 2 else 1
    {
      ghost var fds, l := fs.fds, fs.flash.lu;
      BlockEntries(g, fs.Now(), b, if state.MoveObjData? then Some(Key(id, true, s)) else None);
      match state {
        case FindObjData =>
          var e := FindData(fs, b, entry);
          if e < fs.g.entries {
            stored := e + 1;
            state := MoveObjData;
            res, id, s, objix := LoadIndex(fs, b, e);
          } else {
            state := MoveObjIx;
          }
        case MoveObjData =>
          res := MoveGroupAndIndex(fs, b, id, s, objix, stored, log0, store0, room);
          SameFdsChain(old(fs.fds), fds, fs.fds);
          if !res.Ok? {
            return;
          }
          ThriftChain(l0, l, fs.flash.lu, b, 0, 0, 0);
          state := FindObjData;
          entry := stored;
        case MoveObjIx =>
          res := MoveIndexPages(fs, b, log0, store0, room);
          SameFdsChain(old(fs.fds), fds, fs.fds);
          if !res.Ok? {
            return;
          }
          ThriftChain(l0, l, fs.flash.lu, b, 0, 0, 0);
          state := Finished;
        case Finished =>
      }
    }
    CleanFacts(g, fs.Now(), b, None);
  }

  /** Empties block `b` by moving all its live pages to other blocks. */
  method GcClean(fs: Spiffs, b: nat) returns (res: Status)
    requires fs.Phys() && LogicOk(fs.g, fs.Now(), None, None) && fs.dir.removing == None && fs.cleaning
    requires b < fs.g.blocks
    modifies fs`flash, fs`freeBlocks, fs`pAllocated, fs`pDeleted, fs`eraseCount, fs`maxErase, fs`dir, fs`log, fs`freeCursor,
             fs`cursor, fs`work, fs`fds
    ensures fs.Phys() && LogSafe(old(fs.log), fs.log, old(fs.dir.store)) && (res.Ok? || res == NotFound)
    ensures res.Ok? ==> LogicOk(fs.g, fs.Now(), None, None) && SameData(fs.dir, old(fs.dir.store))
    ensures res.Ok? ==> NoLive(fs.flash.lu, b) && fs.freeCursor.bix != b
    ensures res.Ok? ==> b < |old(fs.dir.fill)| <= |fs.dir.fill| && fs.dir.fill[b] >= old(fs.dir.fill)[b]
    ensures SameFds(old(fs.fds), fs.fds)
    ensures old(Room(fs.flash.lu, b, 0)) ==> res.Ok?
    ensures res.Ok? ==> Thrift(old(fs.flash.lu), fs.flash.lu, b, 0)
    ensures fs.Wear() == old(fs.Wear()) && fs.pAllocated == old(fs.pAllocated)
    ensures res.Ok? && old(Settled(fs.g, fs.dir.fill, fs.freeCursor, None)) ==> Settled(fs.g, fs.dir.fill, fs.freeCursor, Some(b))
  {
    hide PhysOk, CleanOk, Settled, Room, Thrift, LogSafe, SameData, LogicOk, NoLive, SameFds;
    ghost var g := fs.g;
    StartsSafe(fs.log, fs.dir, g, fs.flash, fs.freeCursor, fs.N());
    CursorLeaves(g, fs.Now(), b);
    if fs.freeCursor.bix == b {
      // no free page of the block to be cleaned may be used
      fs.freeCursor := Pix((b + 1) % fs.g.blocks, 0);
    }
    res := CleanBlock(fs, b, fs.log, fs.dir.store, Room(fs.flash.lu, b, 0));
    if res.Ok? {
      CleanFacts(g, fs.Now(), b, None);
      CleanLogic(g, fs.Now(), b);
      CleanEnds(g, fs.Now(), b);
    }
  }

  lemma EqualFds(a: seq<Fd>)
    ensures SameFds(a, a)
  {
  }

  lemma CleanLogic(g: Geometry, v: Vals, b: nat)
    requires g.Ok() && CleanOk(g, v, b, None)
    ensures LogicOk(g, v, None, None)
  {
  }

  lemma NoDataYet(f: Flash, b: nat)
    ensures NoData(f, b, 0)
  {
  }

  lemma StartsSafe(log: seq<Flash>, d: Dir, g: Geometry, f: Flash, c: Pix, n: Counts)
    requires PhysOk(g, f, d, c, n, None) && d.removing == None
    ensures LogSafe(log, log, d.store) && SameData(d, d.store)
  {
  }
}
