/** Mounting: counting what the lookup tables hold (spiffs_obj_lu_scan), and what of the state
    before a power-off is known again. */
module Mount {
  import opened Options
  import opened Layout
  import opened Catalog
  import opened Files
  import opened Store
  import opened Tally

  /** Pages that a scan has passed before entry `e` of block `b`. */
  ghost function Seen(l: map<Pix, Entry>, b: nat, e: nat): set<Pix> {
    set p | p in l && (p.bix < b || (p.bix == b && p.entry < e))
  }

  lemma SeenStep(l: map<Pix, Entry>, b: nat, e: nat)
    requires Pix(b, e) in l
    ensures |Seen(l, b, e + 1) * LivePages(l)| == |Seen(l, b, e) * LivePages(l)| + if l[Pix(b, e)].Live? then 1 else 0
    ensures |Seen(l, b, e + 1) * DeletedPages(l)| == |Seen(l, b, e) * DeletedPages(l)| + if l[Pix(b, e)].Deleted? then 1 else 0
  {
    var p := Pix(b, e);
    assert Seen(l, b, e + 1) == Seen(l, b, e) + {p};
    Intersect(Seen(l, b, e), LivePages(l), p);
    Intersect(Seen(l, b, e), DeletedPages(l), p);
  }

  lemma Intersect(seen: set<Pix>, kind: set<Pix>, p: Pix)
    requires p !in seen
    ensures |(seen + {p}) * kind| == |seen * kind| + if p in kind then 1 else 0
  {
    assert (seen + {p}) * kind == seen * kind + if p in kind then {p} else {};
  }

  lemma SeenBlock(g: Geometry, l: map<Pix, Entry>, b: nat)
    requires Total(g, l)
    ensures Seen(l, b, g.entries) == Seen(l, b + 1, 0)
    ensures b == g.blocks ==> Seen(l, b, 0) * LivePages(l) == LivePages(l) && Seen(l, b, 0) * DeletedPages(l) == DeletedPages(l)
    ensures Seen(l, 0, 0) * LivePages(l) == {} && Seen(l, 0, 0) * DeletedPages(l) == {}
  {
    forall p | p in l
      ensures g.In(p)
    {
    }
  }

  lemma HeadStep(g: Geometry, l: map<Pix, Entry>, fill: seq<nat>, b: nat)
    requires g.Ok() && ShapeOk(g, l, fill) && Total(g, l) && b < g.blocks
    ensures Pix(b, 0) in l
    ensures |FreeBelow(fill, b + 1)| == |FreeBelow(fill, b)| + if l[Pix(b, 0)].Free? then 1 else 0
  {
    assert FreeBelow(fill, b + 1) == FreeBelow(fill, b) + if fill[b] == 0 then {b} else {};
  }

  /** Counts free blocks, live and deleted pages: every lookup entry once. */
  method ScanCounts(g: Geometry, l: map<Pix, Entry>, ghost fill: seq<nat>) returns (n: Counts)
    requires g.Ok() && Total(g, l) && ShapeOk(g, l, fill)
    ensures CountsOk(l, fill, n)
  {
    hide LivePages, DeletedPages, Seen, ShapeOk, FreeBelow;
    assert |fill| == g.blocks by { FillLength(g, l, fill); }
    SeenBlock(g, l, 0);
    NoneBelow(fill);
    n := Counts(0, 0, 0);
    var b := 0;
    while b < g.blocks
      invariant b <= g.blocks
      invariant n == Counts(|FreeBelow(fill, b)|, |Seen(l, b, 0) * LivePages(l)|, |Seen(l, b, 0) * DeletedPages(l)|)
    {
      HeadStep(g, l, fill, b);
      var e := 0;
      while e < g.entries
        invariant e <= g.entries
        invariant n.freeBlocks == |FreeBelow(fill, if e == 0 then b else b + 1)|
        invariant n.live == |Seen(l, b, e) * LivePages(l)| && n.dead == |Seen(l, b, e) * DeletedPages(l)|
      {
        var p := Pix(b, e);
        assert g.In(p);
        SeenStep(l, b, e);
        if l[p].Free? {
          if e == 0 {
            n := n.(freeBlocks := n.freeBlocks + 1);
          }
        } else if l[p].Deleted? {
          n := n.(dead := n.dead + 1);
        } else {
          n := n.(live := n.live + 1);
        }
        e := e + 1;
      }
      SeenBlock(g, l, b);
      b := b + 1;
    }
    SeenBlock(g, l, b);
    assert FreeBelow(fill, |fill|) == FreeBlocks(fill) by { AllBelow(fill); }
  }

  lemma FillLength(g: Geometry, l: map<Pix, Entry>, fill: seq<nat>)
    requires ShapeOk(g, l, fill)
    ensures |fill| == g.blocks
  {
  }

  lemma NoneBelow(fill: seq<nat>)
    ensures FreeBelow(fill, 0) == {}
  {
  }

  lemma AllBelow(fill: seq<nat>)
    ensures FreeBelow(fill, |fill|) == FreeBlocks(fill)
  {
  }

  /** `lo` and `hi` are the least and the greatest of the first `n` erase counters that have been written. */
  ghost predicate Extremes(counts: seq<nat>, n: nat, lo: nat, hi: nat)
    requires n <= |counts|
  {
    && lo != 0xffff && hi != 0xffff && lo in counts[..n] && hi in counts[..n]
    && forall i | 0 <= i < n && counts[i] != 0xffff :: lo <= counts[i] <= hi
  }

  /** `next` is one above the greatest counter that has been written, or above the least if they are more than
      half of the 16-bit numbers apart; 1 if none has been written. */
  ghost predicate Continues(counts: seq<nat>, next: int) {
    if forall i | 0 <= i < |counts| :: counts[i] == 0xffff then next == 1
    else exists lo: nat, hi: nat :: Extremes(counts, |counts|, lo, hi) && next == (if hi - lo > 0x7fff then lo else hi) + 1
  }

  /** Erasing gives out counters up to 0x7fff and then 0 again; mounting does not see that they have wrapped, and
      goes on above all of them. */
  lemma MissedWrap(counts: seq<nat>, next: int)
    requires Continues(counts, next) && forall i | 0 <= i < |counts| :: counts[i] <= 0x7fff || counts[i] == 0xffff
    requires exists i :: 0 <= i < |counts| && counts[i] != 0xffff
    ensures next - 1 in counts && forall i | 0 <= i < |counts| && counts[i] != 0xffff :: counts[i] < next
  {
    assert counts[..|counts|] == counts;
  }

  /** The erase counter to give out next: above every counter in use, unless they have wrapped. */
  method NextEraseCount(counts: seq<nat>) returns (next: int, ghost lo: nat, ghost hi: nat)
    requires forall i | 0 <= i < |counts| :: counts[i] <= 0xffff
    ensures 1 <= next <= 0xffff && ((forall i | 0 <= i < |counts| :: counts[i] == 0xffff) ==> next == 1)
    ensures (exists i :: 0 <= i < |counts| && counts[i] != 0xffff) ==>
              Extremes(counts, |counts|, lo, hi) && next == (if hi - lo > 0x7fff then lo else hi) + 1
    ensures Continues(counts, next)
  {
    var least: nat, most: nat := 0xffff, 0;
    var i := 0;
    while i < |counts|
      invariant i <= |counts|
      invariant if forall j | 0 <= j < i :: counts[j] == 0xffff then least == 0xffff && most == 0
                else Extremes(counts, i, least, most)
    {
      assert counts[..i + 1] == counts[..i] + [counts[i]];
      if counts[i] != 0xffff {
        least := if counts[i] < least then counts[i] else least;
        most := if counts[i] > most then counts[i] else most;
      }
      i := i + 1;
    }
    assert counts[..|counts|] == counts;
    lo, hi := least, most;
    if least == 0 && most == 0xffff {
      next := 0;
    } else if most as int - least as int > 0x7fff {
      next := least + 1;
    } else {
      next := most + 1;
    }
  }

  /** Scans the flash at mount; the cursors start at the first page. */
  method ObjLuScan(fs: Spiffs)
    requires fs.g.Ok() && CatalogOk(fs.g, fs.flash, fs.dir, None) && ShapeOk(fs.g, fs.flash.lu, fs.dir.fill)
    requires |fs.eraseCount| == fs.g.blocks && forall b | 0 <= b < fs.g.blocks :: fs.eraseCount[b] <= 0xffff
    modifies fs`maxErase, fs`freeBlocks, fs`pAllocated, fs`pDeleted, fs`freeCursor, fs`cursor
    ensures fs.Phys() && fs.freeCursor == Pix(0, 0) && Continues(fs.eraseCount, fs.maxErase)
  {
    hide CatalogOk, ShapeOk, CountsOk, Continues;
    fs.freeCursor := Pix(0, 0);
    fs.cursor := Pix(0, 0);
    assert |fs.dir.fill| == fs.g.blocks by { FillLength(fs.g, fs.flash.lu, fs.dir.fill); }
    var next;
    ghost var lo, hi;
    next, lo, hi := NextEraseCount(fs.eraseCount);
    fs.maxErase := next;
    assert Total(fs.g, fs.flash.lu) by { CatalogTotal(fs.g, fs.flash, fs.dir); }
    var n := ScanCounts(fs.g, fs.flash.lu, fs.dir.fill);
    fs.freeBlocks, fs.pAllocated, fs.pDeleted := n.freeBlocks, n.live, n.dead;
  }

  lemma CatalogTotal(g: Geometry, f: Flash, d: Dir)
    requires CatalogOk(g, f, d, None)
    ensures Total(g, f.lu)
  {
  }

  /** After mounting, the free cursor stands at the first page. That only the cursor's block may be
      partly filled survives exactly if that block was the first, or not partly filled. */
  lemma RemountSettled(g: Geometry, fill: seq<nat>, c: Pix)
    requires g.Ok() && Settled(g, fill, c, None) && c.bix < |fill|
    ensures Settled(g, fill, Pix(0, 0), None) <==> c.bix == 0 || fill[c.bix] == 0 || fill[c.bix] == g.entries
  {
  }

  // ----- format and mount -----

  /** Erases every block of a chip, whatever it holds (SPIFFS_format). */
  method Format(fs: Spiffs)
    requires fs.g.Ok() && Total(fs.g, fs.flash.lu) && fs.flash.page.Keys == fs.flash.lu.Keys && |fs.eraseCount| == fs.g.blocks
    modifies fs`flash, fs`eraseCount, fs`maxErase, fs`log
    ensures IsBlank(fs.g, fs.flash) && fs.eraseCount == seq(fs.g.blocks, _ => 0) && fs.maxErase == 1
  {
    var b := 0;
    while b < fs.g.blocks
      invariant b <= fs.g.blocks && Total(fs.g, fs.flash.lu) && fs.flash.page.Keys == fs.flash.lu.Keys && |fs.eraseCount| == fs.g.blocks
      invariant forall p | p in fs.flash.lu && p.bix < b :: fs.flash.lu[p] == Free && fs.flash.page[p] == ERASED_PAGE
      invariant forall i | 0 <= i < b :: fs.eraseCount[i] == 0
      invariant b > 0 ==> fs.maxErase == 1
    {
      fs.maxErase := 0;
      fs.flash := WipedFlash(fs.flash, b);
      fs.log := fs.log + [fs.flash];
      fs.eraseCount := fs.eraseCount[b := fs.maxErase];
      fs.maxErase := fs.maxErase + 1;
      b := b + 1;
    }
  }

  ghost predicate IsBlank(g: Geometry, f: Flash) {
    Total(g, f.lu) && f.page.Keys == f.lu.Keys && forall p | p in f.lu :: f.lu[p] == Free && f.page[p] == ERASED_PAGE
  }

  /** A blank flash holds an empty directory, no file, and tables with nothing used. */
  lemma BlankIsEmpty(g: Geometry, f: Flash, d: Dir, work: Body, fds: seq<Fd>)
    requires g.Ok() && IsBlank(g, f) && d == Dir(map[], map[], None, seq(g.blocks, _ => 0)) && forall i | 0 <= i < |fds| :: !fds[i].open
    ensures CatalogOk(g, f, d, None) && ShapeOk(g, f.lu, d.fill)
    ensures forall c, n :: LogicOk(g, Vals(f, d, c, n, work, fds, map[]), None, None)
    ensures Settled(g, d.fill, Pix(0, 0), None)
  {
  }

  /** Mounts a formatted flash: a valid file system without files. */
  method MountBlank(fs: Spiffs)
    requires fs.g.Ok() && IsBlank(fs.g, fs.flash) && fs.eraseCount == seq(fs.g.blocks, _ => 0) && !fs.cleaning
    requires forall i | 0 <= i < |fs.fds| :: !fs.fds[i].open
    modifies fs
    ensures fs.Valid() && fs.files == map[] && Settled(fs.g, fs.dir.fill, fs.freeCursor, None)
    ensures fs.fds == old(fs.fds) && fs.freeBlocks == fs.g.blocks && fs.pAllocated == fs.pDeleted == 0
    ensures fs.maxErase == 1 && fs.eraseCount == old(fs.eraseCount)
  {
    hide CatalogOk, ShapeOk, LogicOk, Settled, Continues;
    fs.dir := Dir(map[], map[], None, seq(fs.g.blocks, _ => 0));
    fs.files := map[];
    BlankIsEmpty(fs.g, fs.flash, fs.dir, fs.work, fs.fds);
    ObjLuScan(fs);
    AfterFormat(fs.eraseCount, fs.maxErase);
    BlankCounts(fs.g, fs.flash, fs.dir, fs.freeCursor, fs.N());
  }

  lemma AfterFormat(counts: seq<nat>, next: int)
    requires Continues(counts, next) && |counts| >= 1 && forall i | 0 <= i < |counts| :: counts[i] == 0
    ensures next == 1
  {
    assert counts[0] == 0;
  }

  lemma BlankCounts(g: Geometry, f: Flash, d: Dir, c: Pix, n: Counts)
    requires IsBlank(g, f) && PhysOk(g, f, d, c, n, None) && d.fill == seq(g.blocks, _ => 0)
    ensures n == Counts(g.blocks, 0, 0)
  {
    assert LivePages(f.lu) == {} && DeletedPages(f.lu) == {};
    AllFree(d.fill, |d.fill|);
    AllBelow(d.fill);
  }

  lemma {:induction false} AllFree(fill: seq<nat>, n: nat)
    requires n <= |fill| && forall b | 0 <= b < |fill| :: fill[b] == 0
    ensures |FreeBelow(fill, n)| == n
  {
    if n > 0 {
      AllFree(fill, n - 1);
      assert FreeBelow(fill, n) == FreeBelow(fill, n - 1) + {n - 1};
    } else {
      NoneBelow(fill);
    }
  }

  /** Mounts the flash of a file system again: the files are those there were, no descriptor is open, and
      that at most the cursor's block is partly filled holds again exactly as `RemountSettled` says. */
  method Remount(fs: Spiffs)
    requires fs.Valid()
    modifies fs
    ensures fs.Valid() && fs.flash == old(fs.flash) && fs.files == old(fs.files) && |fs.fds| == |old(fs.fds)|
    ensures forall i | 0 <= i < |fs.fds| :: !fs.fds[i].open
    ensures fs.eraseCount == old(fs.eraseCount) && Continues(fs.eraseCount, fs.maxErase)
    ensures old(Settled(fs.g, fs.dir.fill, fs.freeCursor, None)) && old(fs.freeCursor.bix < |fs.dir.fill|) ==>
              (Settled(fs.g, fs.dir.fill, fs.freeCursor, None) <==>
               old(fs.freeCursor.bix == 0 || fs.dir.fill[fs.freeCursor.bix] == 0 || fs.dir.fill[fs.freeCursor.bix] == fs.g.entries))
  {
    hide CatalogOk, ShapeOk, LogicOk, Settled, Continues;
    ghost var v := fs.Now();
    fs.fds := seq(|fs.fds|, _ => CLOSED);
    ObjLuScan(fs);
    AllClosed(fs.g, v, fs.Now());
    if Settled(fs.g, v.d.fill, v.c, None) && v.c.bix < |v.d.fill| {
      RemountSettled(fs.g, v.d.fill, v.c);
    }
  }

  lemma AllClosed(g: Geometry, v: Vals, v': Vals)
    requires g.Ok() && LogicOk(g, v, None, None) && v' == v.(c := v'.c, n := v'.n, fds := v'.fds)
    requires forall i | 0 <= i < |v'.fds| :: !v'.fds[i].open
    ensures LogicOk(g, v', None, None)
  {
  }

  // ----- what the flash determines -----

  /** The flash determines the directory of live pages. */
  lemma SameDirectory(g: Geometry, f: Flash, d1: Dir, d2: Dir)
    requires CatalogOk(g, f, d1, None) && CatalogOk(g, f, d2, None)
    ensures d1.cat == d2.cat && d1.store == d2.store
  {
    assert Within(g, f, d1, d2) by { Included(g, f, d1, d2); }
    assert Within(g, f, d2, d1) by { Included(g, f, d2, d1); }
    assert d1.cat.Keys == d2.cat.Keys;
    assert d1.store.Keys == d2.store.Keys;
  }

  ghost predicate Within(g: Geometry, f: Flash, d1: Dir, d2: Dir) {
    forall k | k in d1.cat :: k in d2.cat && d2.cat[k] == d1.cat[k] && k in d1.store && k in d2.store && d2.store[k] == d1.store[k]
  }

  lemma Included(g: Geometry, f: Flash, d1: Dir, d2: Dir)
    requires CatalogOk(g, f, d1, None) && CatalogOk(g, f, d2, None)
    ensures Within(g, f, d1, d2)
  {
    forall k | k in d1.cat
      ensures k in d2.cat && d2.cat[k] == d1.cat[k]
    {
      assert KeyAt(f, d1.cat[k]) == k;
    }
  }

  /** The pages of a directory determine the files: names, sizes and every byte. */
  lemma SameFiles(g: Geometry, store: map<Key, Body>, files1: map<nat, File>, files2: map<nat, File>)
    requires g.Ok() && FilesOk(g, store, files1, None) && FilesOk(g, store, files2, None)
    ensures files1 == files2
  {
    forall id
      ensures id in files1 <==> id in files2
      ensures id in files1 ==> files1[id] == files2[id]
    {
      SameFile(g, store, files1, files2, id);
      SameFile(g, store, files2, files1, id);
    }
  }

  lemma SameFile(g: Geometry, store: map<Key, Body>, files1: map<nat, File>, files2: map<nat, File>, id: nat)
    requires g.Ok() && FilesOk(g, store, files1, None) && FilesOk(g, store, files2, None)
    ensures id in files1 ==> id in files2 && files1[id] == files2[id]
  {
    if id in files1 {
      assert HasIx(g, |files1[id].bytes|, 0, false);
      var k := Key(id, true, 0);
      assert k in store && BodyOk(g, k, store[k], files1[id], false) && BodyOk(g, k, store[k], files2[id], false);
      var a, b := files1[id].bytes, files2[id].bytes;
      assert |a| == |b|;
      forall i | 0 <= i < |a|
        ensures a[i] == b[i]
      {
        var s := g.PageOf(i);
        g.PageOfBounds(i);
        g.PagesBounds(|a|, s);
        assert store[Key(id, false, s)] == Data(PageImage(g, a, s)) == Data(PageImage(g, b, s));
        assert PageImage(g, a, s)[i - g.Start(s)] == a[i] && PageImage(g, b, s)[i - g.Start(s)] == b[i];
      }
    }
  }

  /** The files of a file system between operations are a function of its flash contents alone. */
  lemma FlashDeterminesFiles(g: Geometry, v1: Vals, v2: Vals)
    requires g.Ok() && v1.f == v2.f
    requires PhysOk(g, v1.f, v1.d, v1.c, v1.n, None) && LogicOk(g, v1, None, None)
    requires PhysOk(g, v2.f, v2.d, v2.c, v2.n, None) && LogicOk(g, v2, None, None)
    ensures v1.files == v2.files && v1.d.cat == v2.d.cat
  {
    SameDirectory(g, v1.f, v1.d, v2.d);
    SameFiles(g, v1.d.store, v1.files, v2.files);
  }

  ghost predicate IsHeader(f: Flash, id: nat, p: Pix) {
    p in f.lu && f.lu[p] == Live(id, true) && p in f.page && f.page[p].hdr.span == 0
  }

  /** An id without a file has no live lookup entry, with or without the index bit; and a file has
      exactly one live header page. */
  lemma LiveIds(g: Geometry, v: Vals, id: nat)
    requires g.Ok() && PhysOk(g, v.f, v.d, v.c, v.n, None) && LogicOk(g, v, None, None)
    ensures id in v.files <==> exists p, ix :: p in v.f.lu && v.f.lu[p] == Live(id, ix)
    ensures id in v.files ==> exists p :: IsHeader(v.f, id, p) && forall q | IsHeader(v.f, id, q) :: q == p
  {
    if id in v.files {
      assert HasIx(g, |v.files[id].bytes|, 0, false);
      var k := Key(id, true, 0);
      var p := v.d.cat[k];
      assert v.f.lu[p] == Live(id, true);
      assert IsHeader(v.f, id, p);
      forall q | IsHeader(v.f, id, q)
        ensures q == p
      {
        assert KeyAt(v.f, q) == k;
      }
    }
    forall p, ix | p in v.f.lu && v.f.lu[p] == Live(id, ix)
      ensures id in v.files
    {
      assert KeyAt(v.f, p) in v.d.store;
    }
  }

  /** Following the index as the code does: the index page of span `k`, its entry, the page there. */
  ghost function Follow(g: Geometry, v: Vals, id: nat, k: nat): Option<Pix>
    requires g.ixLen >= 1
  {
    var ik := Key(id, true, g.IxSpan(k));
    if ik in v.d.cat && v.d.cat[ik] in v.f.page && v.f.page[v.d.cat[ik]].body.Index? && g.IxSlot(k) < |v.f.page[v.d.cat[ik]].body.ix|
    then v.f.page[v.d.cat[ik]].body.ix[g.IxSlot(k)] else None
  }

  /** Every span below a file's size has an index entry, which refers to a live, finalised data page of
      this object and span that holds the bytes; spans from the size on have no page and no entry. */
  lemma EveryEntry(g: Geometry, v: Vals, id: nat, k: nat)
    requires g.Ok() && PhysOk(g, v.f, v.d, v.c, v.n, None) && LogicOk(g, v, None, None) && id in v.files
    ensures k < g.Pages(|v.files[id].bytes|) <==> Follow(g, v, id, k).Some?
    ensures Follow(g, v, id, k).Some? ==>
              var p := Follow(g, v, id, k).value;
              && p in v.f.lu && v.f.lu[p] == Live(id, false) && p in v.f.page
              && v.f.page[p] == Page(Header(Live(id, false), k, LiveFlags(false, false)), Data(PageImage(g, v.files[id].bytes, k)))
  {
    var ik, dk := Key(id, true, g.IxSpan(k)), Key(id, false, k);
    g.SlotBounds(k);
    if k < g.Pages(|v.files[id].bytes|) {
      assert HasIx(g, |v.files[id].bytes|, g.IxSpan(k), false);
      assert ik in v.d.store && dk in v.d.store;
    }
    assert dk in v.d.store ==> k < g.Pages(|v.files[id].bytes|);
    if ik in v.d.cat {
      assert IxFits(g, v.d.cat, ik, v.d.store[ik]);
      EntryOf(g, v.d.cat, dk, v.d.store[ik]);
      assert v.f.page[v.d.cat[ik]].body == v.d.store[ik];
    }
  }

  /** No live data page is unreferenced: the entry of its own object and span refers to it. */
  lemma NoOrphan(g: Geometry, v: Vals, p: Pix)
    requires g.Ok() && PhysOk(g, v.f, v.d, v.c, v.n, None) && LogicOk(g, v, None, None)
    requires p in v.f.lu && v.f.lu[p].Live? && !v.f.lu[p].ix
    ensures p in v.f.page && v.f.lu[p].id in v.files && Follow(g, v, v.f.lu[p].id, v.f.page[p].hdr.span) == Some(p)
  {
    var k := KeyAt(v.f, p);
    assert k in v.d.store && v.d.cat[k] == p;
    EveryEntry(g, v, k.id, k.span);
    var ik := Key(k.id, true, g.IxSpan(k.span));
    assert HasIx(g, |v.files[k.id].bytes|, g.IxSpan(k.span), false) by { g.SlotBounds(k.span); }
    assert ik in v.d.store && IxFits(g, v.d.cat, ik, v.d.store[ik]);
    EntryOf(g, v.d.cat, k, v.d.store[ik]);
    assert v.f.page[v.d.cat[ik]].body == v.d.store[ik];
  }
}
