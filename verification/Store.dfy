/** The page store of the flash file system: finding, occupying, moving and deleting pages,
    and erasing blocks that hold nothing but deleted pages
    (spiffs_nucleus.c, and gc_quick and erase_block of spiffs_gc.c). */
module Store {
  import opened Options
  import opened Layout
  import opened Catalog
  import opened Files

  datatype Status = Ok | Full | NotFound | NoDeletedBlocks | EndOfObject | BadReference | ConflictingName

  ghost function InBlock(l: map<Pix, Entry>, b: nat, n: nat, e: Entry): set<Pix> {
    set p | p in l && p.bix == b && p.entry < n && l[p] == e
  }

  /** Lookup tables after block `b` has been erased. */
  function Wiped(l: map<Pix, Entry>, b: nat): map<Pix, Entry> {
    map p | p in l :: if p.bix == b then Free else l[p]
  }

  ghost predicate NoLive(l: map<Pix, Entry>, b: nat) {
    forall p | p in l && p.bix == b :: !l[p].Live?
  }

  ghost predicate AllDeleted(l: map<Pix, Entry>, b: nat) {
    forall p | p in l && p.bix == b :: l[p].Deleted?
  }

  /** `p` is the first free entry that a search from `start` meets. */
  ghost predicate FirstFree(g: Geometry, l: map<Pix, Entry>, start: Pix, p: Pix) {
    && p in l && l[p].Free?
    && forall q | q in l && g.Earlier(start, q, p) :: !l[q].Free?
  }

  /** The flash still holds the live page of every key, with its body. */
  ghost predicate Holds(f: Flash, d: Dir) {
    forall k | k in d.cat && k in d.store ::
      && d.cat[k] in f.lu && f.lu[d.cat[k]] == Live(k.id, k.ix)
      && d.cat[k] in f.page && f.page[d.cat[k]] == Page(HeaderOf(k, d.removing), d.store[k])
  }

  /** Whatever write is the last one before a power failure, the flash holds `d0` or `d1`. */
  ghost predicate Survives(log: seq<Flash>, from: nat, d0: Dir, d1: Dir) {
    forall i | from <= i < |log| :: Holds(log[i], d0) || Holds(log[i], d1)
  }

  ghost predicate Extends(log0: seq<Flash>, log1: seq<Flash>) {
    |log0| <= |log1| && log1[..|log0|] == log0
  }

  /** In everything written from entry `from` on, page `p` is finalised only with payload `body`, if any. */
  ghost predicate FinalLast(log: seq<Flash>, from: nat, p: Pix, body: Option<Body>) {
    forall i | from <= i < |log| && p in log[i].page && !log[i].page[p].hdr.flags.final :: body == Some(log[i].page[p].body)
  }

  // ----- searching -----

  /** The lookup visitor: the first entry, in visiting order from `start`, that `hit` accepts. */
  method Visit(g: Geometry, start: Pix, hit: Pix -> bool) returns (r: Option<Pix>)
    requires g.Ok() && g.In(start)
    ensures r.Some? ==> g.In(r.value) && hit(r.value)
    ensures r.Some? ==> forall q | g.In(q) && g.Earlier(start, q, r.value) :: !hit(q)
    ensures r.None? ==> forall q | g.In(q) :: !hit(q)
  {
    var block: nat, entry: nat := start.bix, start.entry;
    if entry >= g.entries - 1 {
      entry := 0;
      block := block + 1;
      if block >= g.blocks {
        block := 0;
      }
    }
    ghost var first := g.Begin(start);
    assert first == Pix(block, entry);
    ghost var laps := 0;
    var count: int := g.blocks * g.entries;
    while count > 0
      invariant 0 <= laps <= g.blocks + 1
      invariant block < g.blocks
      invariant if laps < g.blocks then g.Dist(first.bix, block) == laps
                else laps == g.blocks ==> block == first.bix
      invariant entry == if laps == 0 then first.entry else 0
      invariant count == g.blocks * g.entries - (if laps == 0 then 0 else laps * g.entries - first.entry)
      invariant laps == g.blocks + 1 ==> count <= 0
      invariant forall q | g.In(q) && g.Lap(start, q) < laps :: !hit(q)
      decreases count
    {
      assert laps <= g.blocks;
      ghost var from := entry;
      ghost var before := count;
      while entry < g.entries
        invariant from <= entry <= g.entries
        invariant count == before - (entry - from)
        invariant forall e | from <= e < entry :: !hit(Pix(block, e))
      {
        if hit(Pix(block, entry)) {
          r := Some(Pix(block, entry));
          assert g.Lap(start, r.value) <= laps;
          forall q | g.In(q) && g.Earlier(start, q, r.value)
            ensures !hit(q)
          {
            if g.Lap(start, q) == laps {
              assert q == Pix(block, q.entry);
            }
          }
          return;
        }
        count := count - 1;
        entry := entry + 1;
      }
      LapProduct(g, laps);
      forall q | g.In(q) && g.Lap(start, q) == laps
        ensures !hit(q)
      {
        assert q == Pix(block, q.entry);
      }
      entry := 0;
      block := block + 1;
      if block >= g.blocks {
        block := 0;
      }
      laps := laps + 1;
    }
    if laps <= g.blocks {
      LapsNeeded(g, laps);
    }
    r := None;
  }

  lemma LapProduct(g: Geometry, laps: nat)
    requires laps <= g.blocks
    ensures (laps + 1) * g.entries == laps * g.entries + g.entries
    ensures laps == g.blocks ==> (laps + 1) * g.entries - g.entries >= g.blocks * g.entries
  {
  }

  lemma LapsNeeded(g: Geometry, laps: nat)
    requires laps <= g.blocks
    ensures laps * g.entries <= g.blocks * g.entries
    ensures laps < g.blocks ==> laps * g.entries + g.entries <= g.blocks * g.entries
  {
    MulMonotone(laps, g.blocks, g.entries);
    if laps < g.blocks {
      MulMonotone(laps + 1, g.blocks, g.entries);
    }
  }

  // ----- lookup tables and directory together -----

  /** The counters of the file system: free_blocks, stats_p_allocated, stats_p_deleted. */
  datatype Counts = Counts(freeBlocks: int, live: int, dead: int)

  ghost predicate CountsOk(l: map<Pix, Entry>, fill: seq<nat>, n: Counts) {
    n == Counts(|FreeBlocks(fill)|, |LivePages(l)|, |DeletedPages(l)|)
  }

  /** The physical invariant: the flash holds the directory, the tables have their shape, and
      cursor and counters agree with them. */
  ghost predicate PhysOk(g: Geometry, f: Flash, d: Dir, c: Pix, n: Counts, extra: Option<Pix>) {
    && CatalogOk(g, f, d, extra)
    && ShapeOk(g, f.lu, d.fill)
    && CursorOk(g, d.fill, c)
    && CountsOk(f.lu, d.fill, n)
  }

  /** Free entry `p` has been picked but not written yet; `n` counts its block as taken. */
  ghost predicate PickedOk(g: Geometry, f: Flash, d: Dir, p: Pix, n: Counts) {
    && CatalogOk(g, f, d, None)
    && ShapeOk(g, f.lu, d.fill)
    && p in f.lu && f.lu[p].Free? && p.bix < |d.fill| && p.entry == d.fill[p.bix]
    && n.freeBlocks == |FreeBlocks(d.fill)| - (if p.entry == 0 then 1 else 0)
    && n.live == |LivePages(f.lu)| && n.dead == |DeletedPages(f.lu)|
  }

  /** The tables once free entry `p`, the first of its block, has been taken. */
  ghost function Taken(d: Dir, p: Pix): Dir
    requires p.bix < |d.fill|
  {
    d.(fill := d.fill[p.bix := p.entry + 1])
  }

  /** A search from a good cursor finds the first free entry of a block. */
  lemma PickIsFirst(g: Geometry, f: Flash, d: Dir, c: Pix, n: Counts, p: Pix)
    requires g.Ok() && PhysOk(g, f, d, c, n, None) && FirstFree(g, f.lu, c, p)
    ensures PickedOk(g, f, d, p, n.(freeBlocks := n.freeBlocks - if p.entry == 0 then 1 else 0))
  {
    assert p in f.lu;
    var q := Pix(p.bix, d.fill[p.bix]);
    assert q.entry < p.entry ==> q in f.lu;
    assert !g.Earlier(c, q, p);
  }

  lemma Occupied(g: Geometry, f: Flash, d: Dir, p: Pix, n: Counts, e: Entry, pg: Page)
    requires g.Ok() && PickedOk(g, f, d, p, n) && e.Live?
    ensures PhysOk(g, Put(f, p, e, pg), Taken(d, p), p, n.(live := n.live + 1), Some(p))
  {
    hide CatalogOk;
    Occupy(g, f, d, p, e, pg, Taken(d, p).fill);
    TakeShape(g, f.lu, d.fill, p, e);
    TakeCounts(f.lu, d.fill, p, e);
  }

  /** Writes to a page that is no key's live page lose nothing. */
  lemma OtherPage(g: Geometry, f: Flash, d: Dir, extra: Option<Pix>, p: Pix, e: Entry, pg: Page)
    requires CatalogOk(g, f, d, extra)
    requires p in f.lu && (f.lu[p].Free? || extra == Some(p))
    ensures Holds(f, d)
    ensures Holds(f.(lu := f.lu[p := e]), d) && Holds(f.(page := f.page[p := pg]), d) && Holds(Put(f, p, e, pg), d)
  {
  }

  lemma TakeShape(g: Geometry, l: map<Pix, Entry>, fill: seq<nat>, p: Pix, e: Entry)
    requires ShapeOk(g, l, fill) && p in l && !e.Free? && p.entry == fill[p.bix]
    ensures ShapeOk(g, l[p := e], fill[p.bix := p.entry + 1])
  {
  }

  lemma TakeCounts(l: map<Pix, Entry>, fill: seq<nat>, p: Pix, e: Entry)
    requires e.Live? && p in l && l[p].Free? && p.bix < |fill| && p.entry == fill[p.bix]
    ensures |FreeBlocks(fill[p.bix := p.entry + 1])| == |FreeBlocks(fill)| - if p.entry == 0 then 1 else 0
    ensures |LivePages(l[p := e])| == |LivePages(l)| + 1
    ensures DeletedPages(l[p := e]) == DeletedPages(l)
  {
    assert FreeBlocks(fill[p.bix := p.entry + 1]) == FreeBlocks(fill) - {p.bix};
    assert LivePages(l[p := e]) == LivePages(l) + {p};
  }

  /** The page being written changes on the flash. */
  lemma Scribbled(g: Geometry, f: Flash, d: Dir, c: Pix, n: Counts, p: Pix, pg: Page)
    requires PhysOk(g, f, d, c, n, Some(p))
    ensures PhysOk(g, f.(page := f.page[p := pg]), d, c, n, Some(p))
  {
    hide CatalogOk, ShapeOk, CursorOk, CountsOk;
    ScribbledCatalog(g, f, d, p, pg);
  }

  lemma ScribbledCatalog(g: Geometry, f: Flash, d: Dir, p: Pix, pg: Page)
    requires CatalogOk(g, f, d, Some(p))
    ensures CatalogOk(g, f.(page := f.page[p := pg]), d, Some(p))
  {
    hide HeaderOf;
    var f' := f.(page := f.page[p := pg]);
    forall q | q in f.lu && f.lu[q].Live? && q != p
      ensures KeyAt(f', q) == KeyAt(f, q)
    {
    }
  }

  lemma Adopted(g: Geometry, f: Flash, d: Dir, c: Pix, n: Counts, p: Pix, k: Key, body: Body)
    requires PhysOk(g, f, d, c, n, Some(p)) && k !in d.cat
    requires f.lu[p] == Live(k.id, k.ix) && f.page[p] == Page(HeaderOf(k, d.removing), body)
    ensures PhysOk(g, f, d.(cat := d.cat[k := p], store := d.store[k := body]), c, n, None)
  {
    Adopt(g, f, d, p, k, body);
  }

  /** The page that was written takes the place of the live page of key `k`, which is deleted:
      first its lookup entry, then its header flags. */
  lemma Superseded(g: Geometry, f: Flash, d: Dir, c: Pix, n: Counts, p: Pix, k: Key, body: Body, pg: Page)
    requires PhysOk(g, f, d, c, n, Some(p)) && k in d.cat
    requires f.lu[p] == Live(k.id, k.ix) && f.page[p] == Page(HeaderOf(k, d.removing), body)
    requires !pg.hdr.flags.delet
    ensures var d' := d.(cat := d.cat[k := p], store := d.store[k := body]);
            PhysOk(g, Put(f, d.cat[k], Deleted, pg), d', c, n.(live := n.live - 1, dead := n.dead + 1), None)
  {
    Supersede(g, f, d, p, k, body, pg);
    Discard(g, f.lu, d.fill, d.cat[k]);
  }

  lemma ReplacementHolds(g: Geometry, f: Flash, d: Dir, p: Pix, k: Key, body: Body, pg: Page)
    requires CatalogOk(g, f, d, Some(p)) && k in d.cat
    requires f.lu[p] == Live(k.id, k.ix) && f.page[p] == Page(HeaderOf(k, d.removing), body)
    ensures var d' := d.(cat := d.cat[k := p], store := d.store[k := body]);
            && Holds(f, d')
            && Holds(f.(lu := f.lu[d.cat[k] := Deleted]), d') && Holds(Put(f, d.cat[k], Deleted, pg), d')
  {
  }

  lemma Dropped(g: Geometry, f: Flash, d: Dir, c: Pix, n: Counts, k: Key, pg: Page)
    requires PhysOk(g, f, d, c, n, None) && k in d.cat
    requires !pg.hdr.flags.delet
    ensures var d' := d.(cat := d.cat - {k}, store := d.store - {k});
            && PhysOk(g, Put(f, d.cat[k], Deleted, pg), d', c, n.(live := n.live - 1, dead := n.dead + 1), None)
            && Holds(f.(lu := f.lu[d.cat[k] := Deleted]), d') && Holds(Put(f, d.cat[k], Deleted, pg), d')
  {
    Drop(g, f, d, k, pg);
    Discard(g, f.lu, d.fill, d.cat[k]);
  }

  lemma Rewritten(g: Geometry, f: Flash, d: Dir, c: Pix, n: Counts, k: Key, body: Body)
    requires PhysOk(g, f, d, c, n, None) && k in d.cat
    ensures PhysOk(g, f.(page := f.page[d.cat[k] := Page(HeaderOf(k, d.removing), body)]),
                   d.(store := d.store[k := body]), c, n, None)
  {
    Rewrite(g, f, d, k, body);
  }

  lemma Discard(g: Geometry, l: map<Pix, Entry>, fill: seq<nat>, p: Pix)
    requires ShapeOk(g, l, fill) && p in l && l[p].Live?
    ensures ShapeOk(g, l[p := Deleted], fill)
    ensures |LivePages(l[p := Deleted])| == |LivePages(l)| - 1
    ensures |DeletedPages(l[p := Deleted])| == |DeletedPages(l)| + 1
  {
    DiscardCounts(l, p);
  }

  lemma DiscardCounts(l: map<Pix, Entry>, p: Pix)
    requires p in l && l[p].Live?
    ensures |LivePages(l[p := Deleted])| == |LivePages(l)| - 1
    ensures |DeletedPages(l[p := Deleted])| == |DeletedPages(l)| + 1
  {
    assert LivePages(l[p := Deleted]) == LivePages(l) - {p};
    assert DeletedPages(l[p := Deleted]) == DeletedPages(l) + {p};
  }

  /** Taking the first free entry leaves at most the cursor's block partly filled. */
  lemma TakeSettled(g: Geometry, f: Flash, d: Dir, c: Pix, n: Counts, p: Pix, but: Option<nat>)
    requires g.Ok() && PhysOk(g, f, d, c, n, None) && FirstFree(g, f.lu, c, p)
    requires Settled(g, d.fill, c, but)
    ensures p.bix < |d.fill| && Settled(g, Taken(d, p).fill, p, but)
  {
    assert p in f.lu;
    if c.bix != p.bix && but != Some(c.bix) && c.entry + 1 < g.entries {
      var last := Pix(c.bix, g.entries - 1);
      assert last in f.lu;
      assert g.Earlier(c, last, p);
    }
  }

  /** Block `b`, which has no live entry left, is erased. */
  lemma Erasing(g: Geometry, f: Flash, d: Dir, n: Counts, b: nat, dele: int)
    requires g.Ok() && CatalogOk(g, f, d, None) && ShapeOk(g, f.lu, d.fill) && CountsOk(f.lu, d.fill, n.(dead := n.dead + dele))
    requires b < g.blocks && NoLive(f.lu, b) && d.fill[b] != 0 && dele == |InBlock(f.lu, b, g.entries, Deleted)|
    ensures var f', d' := WipedFlash(f, b), d.(fill := d.fill[b := 0]);
            && CatalogOk(g, f', d', None) && ShapeOk(g, f'.lu, d'.fill)
            && CountsOk(f'.lu, d'.fill, n.(freeBlocks := n.freeBlocks + 1))
            && Holds(f', d)
  {
    WipeCatalog(g, f, d, b, d.fill[b := 0]);
    WipeShape(g, f.lu, d.fill, b);
    WipeCounts(g, f.lu, d.fill, b);
  }

  lemma WipeShape(g: Geometry, l: map<Pix, Entry>, fill: seq<nat>, b: nat)
    requires b < g.blocks && ShapeOk(g, l, fill)
    ensures ShapeOk(g, Wiped(l, b), fill[b := 0])
  {
  }

  lemma WipeCounts(g: Geometry, l: map<Pix, Entry>, fill: seq<nat>, b: nat)
    requires b < |fill| && fill[b] != 0 && NoLive(l, b) && Total(g, l)
    ensures |FreeBlocks(fill[b := 0])| == |FreeBlocks(fill)| + 1
    ensures LivePages(Wiped(l, b)) == LivePages(l)
    ensures |DeletedPages(Wiped(l, b))| == |DeletedPages(l)| - |InBlock(l, b, g.entries, Deleted)|
  {
    assert FreeBlocks(fill[b := 0]) == FreeBlocks(fill) + {b};
    WipeLive(l, b);
    WipeDeleted(g, l, b);
  }

  lemma WipeLive(l: map<Pix, Entry>, b: nat)
    requires NoLive(l, b)
    ensures LivePages(Wiped(l, b)) == LivePages(l)
  {
    forall p | p in l
      ensures p in LivePages(Wiped(l, b)) <==> p in LivePages(l)
    {
    }
  }

  lemma WipeDeleted(g: Geometry, l: map<Pix, Entry>, b: nat)
    requires Total(g, l)
    ensures |DeletedPages(Wiped(l, b))| == |DeletedPages(l)| - |InBlock(l, b, g.entries, Deleted)|
  {
    var all, gone := DeletedPages(l), InBlock(l, b, g.entries, Deleted);
    forall p | p in l
      ensures p in DeletedPages(Wiped(l, b)) <==> p in all && p !in gone
      ensures p in gone ==> p in all
    {
      assert p in l <==> g.In(p);
    }
    assert DeletedPages(Wiped(l, b)) == all - gone;
    assert gone <= all;
  }

  lemma WipeCatalog(g: Geometry, f: Flash, d: Dir, b: nat, fill: seq<nat>)
    requires CatalogOk(g, f, d, None) && NoLive(f.lu, b)
    ensures CatalogOk(g, WipedFlash(f, b), d.(fill := fill), None)
    ensures Holds(WipedFlash(f, b), d)
  {
    var f' := WipedFlash(f, b);
    forall q | q in f'.lu && f'.lu[q].Live?
      ensures KeyAt(f', q) in d.cat && d.cat[KeyAt(f', q)] == q
    {
      assert KeyAt(f', q) == KeyAt(f, q);
    }
  }

  lemma PhysTotal(g: Geometry, f: Flash, d: Dir, c: Pix, n: Counts, extra: Option<Pix>)
    requires PhysOk(g, f, d, c, n, extra)
    ensures Total(g, f.lu) && g.In(c)
  {
  }

  lemma DeletedIsFull(g: Geometry, f: Flash, d: Dir, b: nat)
    requires g.Ok() && CatalogOk(g, f, d, None) && ShapeOk(g, f.lu, d.fill) && b < g.blocks && AllDeleted(f.lu, b)
    ensures NoLive(f.lu, b) && b < |d.fill| && d.fill[b] == g.entries
  {
    assert Pix(b, g.entries - 1) in f.lu;
  }

  lemma NoneFree(g: Geometry, f: Flash, d: Dir, c: Pix, n: Counts)
    requires g.Ok() && PhysOk(g, f, d, c, n, None)
    requires forall q | q in f.lu :: !f.lu[q].Free?
    ensures n.freeBlocks == 0
  {
    forall b | 0 <= b < |d.fill|
      ensures d.fill[b] != 0
    {
      assert Pix(b, 0) in f.lu;
    }
    assert FreeBlocks(d.fill) == {};
  }

  /** Erasing a block keeps the free cursor good exactly when the cursor is not inside it. */
  lemma WipeCursor(g: Geometry, fill: seq<nat>, c: Pix, b: nat)
    requires g.Ok() && b < g.blocks && CursorOk(g, fill, c)
    ensures CursorOk(g, fill[b := 0], c) <==> c.bix != b || c.entry == 0 || c.entry == g.entries - 1
  {
  }

  function WipedFlash(f: Flash, b: nat): Flash {
    Flash(Wiped(f.lu, b), map p | p in f.page :: if p.bix == b then ERASED_PAGE else f.page[p])
  }

  // ----- payload bytes -----

  function Erased(n: nat): seq<Byte> {
    seq(n, _ => ERASED)
  }

  /** NOR flash: a write can only clear bits. */
  function Program(old_bytes: seq<Byte>, offset: nat, bytes: seq<Byte>): (r: seq<Byte>)
    requires offset + |bytes| <= |old_bytes|
    ensures |r| == |old_bytes|
  {
    seq(|old_bytes|, i requires 0 <= i < |old_bytes| =>
      if offset <= i < offset + |bytes| then old_bytes[i] & bytes[i - offset] else old_bytes[i])
  }

  /** A write sets no bit, and clears exactly those that are clear in what is written. */
  lemma ProgramClears(old_bytes: seq<Byte>, offset: nat, bytes: seq<Byte>, i: nat)
    requires offset + |bytes| <= |old_bytes| && i < |old_bytes|
    ensures var r := Program(old_bytes, offset, bytes)[i];
            && r & old_bytes[i] == r
            && (if offset <= i < offset + |bytes| then r & bytes[i - offset] == r && old_bytes[i] & bytes[i - offset] & r == old_bytes[i] & bytes[i - offset]
                else r == old_bytes[i])
            && (old_bytes[i] == ERASED && offset <= i < offset + |bytes| ==> r == bytes[i - offset])
  {
  }

  /** Payload of a page that has just got its header. */
  function FreshBody(g: Geometry, hdr: Header): Body {
    if hdr.flags.index then Data(Erased(g.dataSize)) else Index("", None, seq(g.IxLen(hdr.span), _ => None))
  }

  function NewPage(g: Geometry, hdr: Header, bytes: seq<Byte>, finalize: bool): Page
    requires |bytes| <= g.dataSize
  {
    var flags := hdr.flags.(used := false);
    Page(hdr.(flags := if finalize then flags.(final := false) else flags),
         if bytes == [] then FreshBody(g, hdr) else Data(Program(Erased(g.dataSize), 0, bytes)))
  }

  lemma NewPageIs(g: Geometry, hdr: Header, bytes: seq<Byte>, finalize: bool)
    requires |bytes| <= g.dataSize
    ensures var h := hdr.(flags := hdr.flags.(used := false));
            FreshBody(g, hdr) == FreshBody(g, h) &&
            NewPage(g, hdr, bytes, finalize) ==
            Page(if finalize && h.flags.final then h.(flags := h.flags.(final := false)) else h,
                 if bytes == [] then FreshBody(g, hdr) else Data(Program(Erased(g.dataSize), 0, bytes)))
  {
  }

  /** A page whose header says that it is deleted. */
  function Scrapped(pg: Page): Page {
    pg.(hdr := pg.hdr.(flags := pg.hdr.flags.(delet := false, used := false)))
  }

  /** A write of `b` over `a` only clears bits: index fields change from erased to written. */
  ghost predicate Programmable(a: Body, b: Body) {
    || (&& a.Data? && b.Data? && |a.bytes| == |b.bytes|
        && forall i | 0 <= i < |a.bytes| :: a.bytes[i] & b.bytes[i] == b.bytes[i])
    || (&& a.Index? && b.Index? && a.name == b.name
        && (a.size == None || a.size == b.size)
        && |a.ix| == |b.ix| && forall j | 0 <= j < |a.ix| :: a.ix[j] == None || a.ix[j] == b.ix[j])
  }

  /** The tests of the find_id_and_span visitor, on lookup entry and page header. */
  predicate HitAt(f: Flash, p: Pix, id: nat, ix: bool, span: nat) {
    && p in f.lu && f.lu[p] == Live(id, ix) && p in f.page
    && var hdr := f.page[p].hdr;
       && hdr.obj == Live(id, ix) && hdr.span == span
       && !hdr.flags.final && hdr.flags.delet && !hdr.flags.used
       && !(ix && !hdr.flags.ixdele && span == 0)
  }

  /** The visitor accepts exactly the live page of the key, unless it is marked for removal. */
  lemma HitKey(g: Geometry, f: Flash, d: Dir, c: Pix, n: Counts, p: Pix, k: Key)
    requires PhysOk(g, f, d, c, n, None)
    ensures HitAt(f, p, k.id, k.ix, k.span) <==>
            k in d.cat && d.cat[k] == p && !(k.ix && k.span == 0 && d.removing == Some(k.id))
    ensures k in d.cat ==> g.In(d.cat[k])
  {
    if HitAt(f, p, k.id, k.ix, k.span) {
      assert KeyAt(f, p) == k;
    }
  }

  /** Whatever is on the flash, the visitor accepts no page that is unused, deleted or not finalised, and minds the
      mark of a removal in index headers only. */
  lemma HitStrict(f: Flash, p: Pix, id: nat, ix: bool, span: nat, mark: bool)
    requires p in f.page
    ensures f.page[p].hdr.flags.used || !f.page[p].hdr.flags.delet || f.page[p].hdr.flags.final ==> !HitAt(f, p, id, ix, span)
    ensures !ix || span != 0 ==>
              var hdr := f.page[p].hdr;
              HitAt(f.(page := f.page[p := f.page[p].(hdr := hdr.(flags := hdr.flags.(ixdele := mark)))]), p, id, ix, span)
              == HitAt(f, p, id, ix, span)
    ensures ix && span == 0 && HitAt(f, p, id, ix, span) ==> f.page[p].hdr.flags.ixdele
  {
  }

  function Resized(body: Body, size: SizeArg): Body
    requires body.Index?
  {
    if size.SizeIs? then body.(size := size.size) else body
  }

  lemma LoadedBody(g: Geometry, f: Flash, d: Dir, c: Pix, n: Counts, k: Key)
    requires PhysOk(g, f, d, c, n, None) && k in d.cat && k in d.store
    ensures d.cat[k] in f.page && f.page[d.cat[k]] == Page(HeaderOf(k, d.removing), d.store[k])
  {
  }

  /** What moving a page does to tables and cursor while no block can be erased. */
  ghost predicate Moved(g: Geometry, f: Flash, d: Dir, c: Pix, f': Flash, d': Dir, c': Pix, src: Pix, dst: Pix) {
    && FirstFree(g, f.lu, c, dst) && c' == dst
    && src in f.lu && dst.bix < |d.fill|
    && d'.fill == Taken(d, dst).fill
    && f'.lu == f.lu[dst := f.lu[src]][src := Deleted]
  }

  // ----- directory updates -----

  ghost function With(d: Dir, k: Key, p: Pix, body: Body): Dir {
    d.(cat := d.cat[k := p], store := d.store[k := body])
  }

  ghost function Without(d: Dir, k: Key): Dir {
    d.(cat := d.cat - {k}, store := d.store - {k})
  }

  ghost predicate Replaces(f: Flash, d: Dir, p: Pix, k: Key, body: Body) {
    && p in f.lu && p in f.page
    && f.lu[p] == Live(k.id, k.ix) && f.page[p] == Page(HeaderOf(k, d.removing), body)
  }

  // ----- the write log -----

  lemma LogStarts(log: seq<Flash>, d: Dir)
    ensures Extends(log, log) && Survives(log, |log|, d, d)
  {
  }

  lemma LogGrows(log0: seq<Flash>, log: seq<Flash>, f: Flash, d0: Dir, d1: Dir)
    requires Extends(log0, log) && Survives(log, |log0|, d0, d1)
    requires Holds(f, d0) || Holds(f, d1)
    ensures Extends(log0, log + [f]) && Survives(log + [f], |log0|, d0, d1)
  {
  }

  lemma LogJoins(log0: seq<Flash>, log1: seq<Flash>, log2: seq<Flash>, d0: Dir, d1: Dir)
    requires Extends(log0, log1) && Survives(log1, |log0|, d0, d0)
    requires Extends(log1, log2) && Survives(log2, |log1|, d1, d1)
    ensures Extends(log0, log2) && Survives(log2, |log0|, d0, d1)
  {
    forall i | |log0| <= i < |log2|
      ensures Holds(log2[i], d0) || Holds(log2[i], d1)
    {
      assert i < |log1| ==> log2[i] == log1[i];
    }
  }

  lemma PickedHolds(g: Geometry, f: Flash, d: Dir, p: Pix, n: Counts, e: Entry, pg: Page, d0: Dir)
    requires PickedOk(g, f, d, p, n) && d == d0.(fill := d.fill)
    ensures Holds(f.(lu := f.lu[p := e]), d0) && Holds(f.(page := f.page[p := pg]), d0) && Holds(Put(f, p, e, pg), d0)
  {
    OtherPage(g, f, d, None, p, e, pg);
  }

  lemma PickedErased(g: Geometry, f: Flash, d: Dir, p: Pix, n: Counts)
    requires PickedOk(g, f, d, p, n)
    ensures p in f.page && f.page[p] == ERASED_PAGE
  {
  }

  /** A page that has just been picked has not been finalised. */
  lemma NotFinal(log0: seq<Flash>, log: seq<Flash>, f: Flash, p: Pix, body: Option<Body>)
    requires (log == log0 || log == log0 + [f]) && p in f.page && f.page[p] == ERASED_PAGE
    ensures FinalLast(log, |log0|, p, body)
  {
  }

  lemma ExtendsBy(log0: seq<Flash>, more: seq<Flash>)
    ensures Extends(log0, log0 + more)
  {
  }

  lemma FinalFrom(log0: seq<Flash>, log1: seq<Flash>, log2: seq<Flash>, f: Flash, p: Pix, body: Option<Body>)
    requires (log1 == log0 || log1 == log0 + [f]) && p in f.page && f.page[p] == ERASED_PAGE
    requires Extends(log1, log2) && FinalLast(log2, |log1|, p, body)
    ensures FinalLast(log2, |log0|, p, body)
  {
    assert |log1| > |log0| ==> log2[|log0|] == f;
  }

  lemma OneMoreEntry(log: seq<Flash>, from: nat, f: Flash, p: Pix, body: Option<Body>)
    ensures FinalLast(log, from, p, body) && (p in f.page && !f.page[p].hdr.flags.final ==> Some(f.page[p].body) == body) ==>
              FinalLast(log + [f], from, p, body)
  {
  }

  lemma MoreEntries(log: seq<Flash>, from: nat, f1: Flash, f2: Flash, p: Pix, body: Option<Body>)
    ensures FinalLast(log, from, p, body) && (p in f1.page && !f1.page[p].hdr.flags.final ==> Some(f1.page[p].body) == body)
            && (p in f2.page && !f2.page[p].hdr.flags.final ==> Some(f2.page[p].body) == body) ==>
              FinalLast(log + [f1, f2], from, p, body)
  {
  }

  lemma PickedLive(g: Geometry, f: Flash, d: Dir, p: Pix, n: Counts, k: Key)
    requires PickedOk(g, f, d, p, n) && k in d.cat && k in d.store
    ensures d.cat[k] in f.lu && d.cat[k] in f.page && f.lu[d.cat[k]] == Live(k.id, k.ix)
    ensures f.page[d.cat[k]] == Page(HeaderOf(k, d.removing), d.store[k]) && p in f.page && d.cat[k] != p
  {
  }

  lemma LiveIn(g: Geometry, f: Flash, d: Dir, c: Pix, n: Counts, extra: Option<Pix>, k: Key)
    requires PhysOk(g, f, d, c, n, extra) && k in d.cat && k in d.store
    ensures d.cat[k] in f.lu && d.cat[k] in f.page && f.lu[d.cat[k]] == Live(k.id, k.ix)
    ensures f.page[d.cat[k]] == Page(HeaderOf(k, d.removing), d.store[k])
    ensures Holds(f, d)
  {
  }

  lemma Rescribe(g: Geometry, f: Flash, d: Dir, c: Pix, n: Counts, p: Pix, pg: Page, d0: Dir)
    requires PhysOk(g, f, d, c, n, Some(p)) && d == d0.(fill := d.fill)
    ensures PhysOk(g, f.(page := f.page[p := pg]), d, c, n, Some(p))
    ensures Holds(f.(page := f.page[p := pg]), d0)
  {
    Scribbled(g, f, d, c, n, p, pg);
    OtherPage(g, f, d, Some(p), p, f.lu[p], pg);
  }

  // ----- the file system -----

  /** The state of a file system as a value: flash, directory, free cursor, counters, work buffer,
      descriptors and files. */
  datatype Vals = Vals(f: Flash, d: Dir, c: Pix, n: Counts, work: Body, fds: seq<Fd>, files: map<nat, File>)

  /** The logical invariant: files, index and open descriptors agree with the directory. The work
      buffer is the newest version of index page `wk`, and object `busy` is being changed. */
  ghost predicate LogicOk(g: Geometry, v: Vals, wk: Option<Key>, busy: Option<nat>)
    requires g.Ok()
  {
    && v.d.store.Keys == v.d.cat.Keys
    && FilesOk(g, v.d.store, v.files, busy)
    && IndexOk(g, v.d, wk, v.work)
    && FdsOk(v.fds, v.d.cat, v.files, busy)
  }

  /** Erase counters fit the 16 bits of an object id, also the one to be given out next. */
  predicate Narrow(counts: seq<nat>, next: nat) {
    next <= 0xffff && forall i | 0 <= i < |counts| :: counts[i] <= 0xffff
  }

  /** The next page allocation fails: fewer than two blocks are free, even after a block of deleted pages
      only has been erased. */
  ghost predicate Starved(g: Geometry, f: Flash, freeBlocks: int) {
    freeBlocks + (if exists b: nat :: b < g.blocks && AllDeleted(f.lu, b) then 1 else 0) < 2
  }

  const CLOSED := Fd(false, 0, None, Pix(0, 0), None, 0)

  class Spiffs {
    const g: Geometry
    var flash: Flash
    var eraseCount: seq<nat>       // erase counter stored in each block
    var maxErase: nat
    var freeCursor: Pix
    var cursor: Pix
    var freeBlocks: int
    var pAllocated: int
    var pDeleted: int
    var cleaning: bool
    var work: Body                 // the primary work buffer
    var fds: seq<Fd>

    ghost var dir: Dir
    ghost var files: map<nat, File>
    ghost var log: seq<Flash>      // the flash after every write and erase

    /** The state in memory before mounting, over a flash chip. */
    constructor (geometry: Geometry, chip: Flash, counts: seq<nat>, descriptors: nat)
      ensures g == geometry && flash == chip && eraseCount == counts && fds == seq(descriptors, _ => CLOSED) && !cleaning
      ensures files == map[] && log == []
      ensures maxErase == 0 && freeCursor == cursor == Pix(0, 0) && freeBlocks == pAllocated == pDeleted == 0
    {
      g, flash, eraseCount := geometry, chip, counts;
      maxErase, freeCursor, cursor := 0, Pix(0, 0), Pix(0, 0);
      freeBlocks, pAllocated, pDeleted := 0, 0, 0;
      cleaning, work, fds := false, Blank, seq(descriptors, _ => CLOSED);
      dir, files, log := Dir(map[], map[], None, []), map[], [];
    }

    ghost function N(): Counts
      reads this
    {
      Counts(freeBlocks, pAllocated, pDeleted)
    }

    ghost function Now(): Vals
      reads this
    {
      Vals(flash, dir, freeCursor, N(), work, fds, files)
    }

    /** The erase counters of the blocks, and the one to be given out next. */
    ghost function Wear(): (seq<nat>, nat)
      reads this
    {
      (eraseCount, maxErase)
    }

    ghost predicate Sized()
      reads this
    {
      g.Ok() && g.In(cursor) && |eraseCount| == g.blocks && Narrow(eraseCount, maxErase)
    }

    ghost predicate Phys()
      reads this
    {
      Sized() && PhysOk(g, flash, dir, freeCursor, N(), None)
    }

    /** As `Phys`, while page `p` is occupied but is not the live page of its key yet. */
    ghost predicate Writing(p: Pix)
      reads this
    {
      Sized() && PhysOk(g, flash, dir, freeCursor, N(), Some(p))
    }

    /** Erases block `b`, whose deleted pages have been taken off the counter already. */
    method EraseBlock(b: nat, ghost dele: int)
      requires Sized() && b < g.blocks && b < |dir.fill| && NoLive(flash.lu, b)
      requires CatalogOk(g, flash, dir, None) && ShapeOk(g, flash.lu, dir.fill) && dir.fill[b] != 0
      requires CountsOk(flash.lu, dir.fill, N().(dead := pDeleted + dele))
      requires dele == |InBlock(flash.lu, b, g.entries, Deleted)|
      modifies `flash, `freeBlocks, `eraseCount, `maxErase, `dir, `log
      ensures Sized()
      ensures flash == WipedFlash(old(flash), b)
      ensures dir == old(dir).(fill := old(dir.fill)[b := 0])
      ensures freeBlocks == old(freeBlocks) + 1
      ensures eraseCount == old(eraseCount)[b := old(maxErase)]
      ensures maxErase == if old(maxErase) == 0x7fff || old(maxErase) == 0xffff then 0 else old(maxErase) + 1
      ensures CatalogOk(g, flash, dir, None) && ShapeOk(g, flash.lu, dir.fill)
      ensures CountsOk(flash.lu, dir.fill, N())
      ensures log == old(log) + [flash] && Holds(flash, old(dir))
    {
      hide CatalogOk, ShapeOk, CountsOk, NoLive, InBlock, Holds, WipedFlash;
      Erasing(g, flash, dir, N(), b, dele);
      flash := WipedFlash(flash, b);
      dir := dir.(fill := dir.fill[b := 0]);
      log := log + [flash];
      freeBlocks := freeBlocks + 1;
      eraseCount := eraseCount[b := maxErase];
      maxErase := (maxErase + 1) % 0x1_0000;
      if maxErase == 0x8000 {
        maxErase := 0;
      }
    }

    /** Counts the deleted entries at the head of block `b`'s lookup table. */
    method CountDeletedRun(b: nat) returns (dele: nat)
      requires g.Ok() && Total(g, flash.lu) && b < g.blocks
      ensures dele == g.entries <==> AllDeleted(flash.lu, b)
      ensures dele == g.entries ==> |InBlock(flash.lu, b, g.entries, Deleted)| == g.entries
    {
      var l := flash.lu;
      dele := 0;
      while dele < g.entries
        invariant dele <= g.entries
        invariant forall d: nat | d < dele :: l[Pix(b, d)].Deleted?
        invariant |InBlock(l, b, dele, Deleted)| == dele
      {
        if !l[Pix(b, dele)].Deleted? {
          return;
        }
        assert InBlock(l, b, dele + 1, Deleted) == InBlock(l, b, dele, Deleted) + {Pix(b, dele)};
        dele := dele + 1;
      }
      forall p | p in l && p.bix == b
        ensures l[p].Deleted?
      {
        assert p == Pix(b, p.entry);
      }
    }

    /** The first block that holds nothing but deleted pages, or the number of blocks. */
    method FindDeletedBlock() returns (b: nat)
      requires g.Ok() && Total(g, flash.lu)
      ensures b <= g.blocks && (forall c: nat | c < b :: !AllDeleted(flash.lu, c))
      ensures b < g.blocks ==> AllDeleted(flash.lu, b) && |InBlock(flash.lu, b, g.entries, Deleted)| == g.entries
    {
      b := 0;
      while b < g.blocks
        invariant b <= g.blocks
        invariant forall c: nat | c < b :: !AllDeleted(flash.lu, c)
      {
        var dele := CountDeletedRun(b);
        if dele == g.entries {
          return;
        }
        b := b + 1;
      }
    }

    /** Erases the first block that holds nothing but deleted pages (gc_quick with 0 free pages). */
    method GcQuick() returns (res: Status)
      requires Phys()
      modifies `flash, `freeBlocks, `pDeleted, `eraseCount, `maxErase, `dir, `log
      ensures Phys() && (res.Ok? || res == NoDeletedBlocks)
      ensures res.Ok? <==> exists b: nat :: b < g.blocks && AllDeleted(old(flash.lu), b)
      ensures res.Ok? ==> exists b: nat :: b < g.blocks && AllDeleted(old(flash.lu), b) && flash == WipedFlash(old(flash), b)
      ensures freeBlocks == old(freeBlocks) + (if res.Ok? then 1 else 0) && pDeleted <= old(pDeleted)
      ensures res.Ok? ==> log == old(log) + [flash]
      ensures !res.Ok? ==> flash == old(flash) && log == old(log)
      ensures dir == old(dir).(fill := dir.fill)
      ensures old(Settled(g, dir.fill, freeCursor, None)) ==> Settled(g, dir.fill, freeCursor, None)
      ensures Extends(old(log), log) && Survives(log, |old(log)|, old(dir), old(dir))
    {
      hide CatalogOk, ShapeOk, NoLive, InBlock, AllDeleted, Holds, WipedFlash;
      PhysTotal(g, flash, dir, freeCursor, N(), None);
      var b := FindDeletedBlock();
      if b < g.blocks {
        DeletedIsFull(g, flash, dir, b);
        WipeCursor(g, dir.fill, freeCursor, b);
        pDeleted := pDeleted - g.entries;
        EraseBlock(b, g.entries);
        res := Ok;
      } else {
        res := NoDeletedBlocks;
      }
    }

    /** Finds a free lookup entry and moves the free cursor there. */
    method FindFree() returns (res: Status, p: Pix)
      requires Phys()
      modifies `flash, `freeBlocks, `pDeleted, `eraseCount, `maxErase, `dir, `log, `freeCursor
      ensures Sized() && dir == old(dir).(fill := dir.fill)
      ensures res.Ok? ==> freeCursor == p && PickedOk(g, flash, dir, p, N())
      ensures !res.Ok? ==> Phys()
      ensures Extends(old(log), log) && Survives(log, |old(log)|, old(dir), old(dir))
      ensures freeBlocks >= old(freeBlocks) - 1
      ensures old(freeBlocks) >= 2 ==> res.Ok?
      ensures pDeleted <= old(pDeleted)
      ensures old(cleaning || freeBlocks >= 2) ==> flash == old(flash) && dir == old(dir) && log == old(log) && Wear() == old(Wear())
      ensures log == old(log) || log == old(log) + [flash]
      ensures old(cleaning) && res.Ok? ==> FirstFree(g, flash.lu, old(freeCursor), p)
      ensures old(cleaning) && !res.Ok? ==> freeCursor == old(freeCursor) && forall q | q in flash.lu :: !flash.lu[q].Free?
      ensures !old(cleaning) && res.Ok? ==> freeBlocks >= 1
      ensures res.Ok? || res == if old(cleaning) then NotFound else Full
      ensures !old(cleaning) ==> (res == Full <==> old(Starved(g, flash, freeBlocks)))
      ensures old(Settled(g, dir.fill, freeCursor, None)) ==>
        if res.Ok? then Settled(g, Taken(dir, p).fill, p, None) else Settled(g, dir.fill, freeCursor, None)
    {
      hide CatalogOk, ShapeOk, Holds, Settled, AllDeleted;
      p := freeCursor;
      if !cleaning && freeBlocks < 2 {
        var quick := GcQuick();
        if freeBlocks < 2 {
          res := Full;
          return;
        }
      }
      var l := flash.lu;
      PhysTotal(g, flash, dir, freeCursor, N(), None);
      var found := Visit(g, freeCursor, q => q in l && l[q].Free?);
      if found.None? {
        NoneFree(g, flash, dir, freeCursor, N());
        res := NotFound;
        return;
      }
      p := found.value;
      assert FirstFree(g, l, freeCursor, p);
      PickIsFirst(g, flash, dir, freeCursor, N(), p);
      if Settled(g, dir.fill, freeCursor, None) {
        TakeSettled(g, flash, dir, freeCursor, N(), p, None);
      }
      freeCursor := p;
      if p.entry == 0 {
        freeBlocks := freeBlocks - 1;
      }
      res := Ok;
    }

    /** Writes the lookup entry of the page that `FindFree` picked, then the page from its header on. */
    method OccupyPage(p: Pix, pg: Page, ghost log0: seq<Flash>, ghost d0: Dir)
      requires Sized() && freeCursor == p && PickedOk(g, flash, dir, p, N()) && pg.hdr.obj.Live?
      requires dir == d0.(fill := dir.fill) && Extends(log0, log) && Survives(log, |log0|, d0, d0)
      modifies `flash, `pAllocated, `dir, `log
      ensures Writing(p) && p.bix < |old(dir).fill| && dir == Taken(old(dir), p)
      ensures flash == Put(old(flash), p, pg.hdr.obj, pg)
      ensures log == old(log) + [old(flash).(lu := old(flash).lu[p := pg.hdr.obj]), flash]
      ensures pAllocated == old(pAllocated) + 1
      ensures Extends(log0, log) && Survives(log, |log0|, d0, d0)
    {
      hide CatalogOk, ShapeOk, CursorOk, Holds, Extends, Survives;
      PickedHolds(g, flash, dir, p, N(), pg.hdr.obj, pg, d0);
      Occupied(g, flash, dir, p, N(), pg.hdr.obj, pg);
      flash := flash.(lu := flash.lu[p := pg.hdr.obj]);
      LogGrows(log0, log, flash, d0, d0);
      log := log + [flash];
      pAllocated := pAllocated + 1;
      flash := flash.(page := flash.page[p := pg]);
      LogGrows(log0, log, flash, d0, d0);
      log := log + [flash];
      dir := Taken(dir, p);
    }

    /** Writes to the page that is being written. */
    method WritePage(p: Pix, pg: Page, ghost log0: seq<Flash>, ghost d0: Dir)
      requires Writing(p)
      requires dir == d0.(fill := dir.fill) && Extends(log0, log) && Survives(log, |log0|, d0, d0)
      modifies `flash, `log
      ensures Writing(p) && flash == old(flash).(page := old(flash).page[p := pg]) && log == old(log) + [flash]
      ensures Extends(log0, log) && Survives(log, |log0|, d0, d0)
    {
      hide PhysOk, Holds, Extends, Survives;
      Rescribe(g, flash, dir, freeCursor, N(), p, pg, d0);
      flash := flash.(page := flash.page[p := pg]);
      LogGrows(log0, log, flash, d0, d0);
      log := log + [flash];
    }

    /** Writes the page that `FindFree` picked: lookup entry, header, then payload, and the finalising flag if asked. */
    method WriteNew(p: Pix, hdr: Header, bytes: seq<Byte>, finalize: bool, ghost log0: seq<Flash>, ghost d0: Dir)
      requires Sized() && freeCursor == p && PickedOk(g, flash, dir, p, N()) && p in flash.page && flash.page[p] == ERASED_PAGE
      requires hdr.obj.Live? && |bytes| <= g.dataSize && (bytes == [] || hdr.flags.index)
      requires dir == d0.(fill := dir.fill) && Extends(log0, log) && Survives(log, |log0|, d0, d0)
      modifies `flash, `pAllocated, `dir, `log
      ensures Writing(p) && p.bix < |old(dir).fill| && dir == Taken(old(dir), p) && pAllocated == old(pAllocated) + 1
      ensures p in flash.lu && p in flash.page && flash.lu[p] == hdr.obj && flash.page[p] == NewPage(g, hdr, bytes, finalize)
      ensures hdr.flags.final ==> FinalLast(log, |old(log)|, p, if finalize then Some(flash.page[p].body) else None)
      ensures Extends(old(log), log) && Extends(log0, log) && Survives(log, |log0|, d0, d0)
    {
      hide PhysOk, PickedOk, Extends, Survives, NewPage, FreshBody, FinalLast, Program;
      ghost var f0, log1, body := flash, log, if finalize then Some(NewPage(g, hdr, bytes, finalize).body) else None;
      NewPageIs(g, hdr, bytes, finalize);
      NotFinal(log, log, flash, p, body);
      // occupy the page in the lookup table and write its header
      var h := hdr.(flags := hdr.flags.(used := false));
      OccupyPage(p, Page(h, FreshBody(g, h)), log0, d0);
      ghost var log2 := log;
      MoreEntries(log1, |log1|, f0.(lu := f0.lu[p := h.obj]), flash, p, body);
      // write the page data
      if bytes != [] {
        WritePage(p, Page(h, Data(Program(Erased(g.dataSize), 0, bytes))), log0, d0);
        OneMoreEntry(log2, |log1|, flash, p, body);
      }
      // finalise the header if necessary
      if finalize && h.flags.final {
        h := h.(flags := h.flags.(final := false));
        log2 := log;
        WritePage(p, flash.page[p].(hdr := h), log0, d0);
        OneMoreEntry(log2, |log1|, flash, p, body);
      }
      ExtendsBy(log1, log[|log1|..]);
      assert log == log1 + log[|log1|..];
    }

    /** Occupies a free page, as `WriteNew` does. */
    method AllocateData(hdr: Header, bytes: seq<Byte>, finalize: bool) returns (res: Status, p: Pix)
      requires Phys() && hdr.obj.Live? && |bytes| <= g.dataSize && (bytes == [] || hdr.flags.index)
      modifies `flash, `freeBlocks, `pAllocated, `pDeleted, `eraseCount, `maxErase, `dir, `log, `freeCursor
      ensures dir == old(dir).(fill := dir.fill)
      ensures res.Ok? ==> Writing(p) && p in flash.lu && p in flash.page
      ensures res.Ok? ==> flash.lu[p] == hdr.obj && flash.page[p] == NewPage(g, hdr, bytes, finalize)
      ensures res.Ok? && hdr.flags.final ==> FinalLast(log, |old(log)|, p, if finalize then Some(flash.page[p].body) else None)
      ensures !res.Ok? ==> Phys()
      ensures Extends(old(log), log) && Survives(log, |old(log)|, old(dir), old(dir))
      ensures freeBlocks >= old(freeBlocks) - 1
      ensures old(freeBlocks) >= 2 ==> res.Ok?
      ensures pAllocated == old(pAllocated) + (if res.Ok? then 1 else 0) && pDeleted <= old(pDeleted)
      ensures !cleaning ==> (res.Ok? <==> !old(Starved(g, flash, freeBlocks)))
      ensures old(Settled(g, dir.fill, freeCursor, None)) ==> Settled(g, dir.fill, freeCursor, None)
    {
      hide PhysOk, PickedOk, Settled, Extends, Survives, NewPage, Starved, FinalLast, FirstFree;
      res, p := FindFree();
      if !res.Ok? {
        return;
      }
      ghost var f0, log1, body := flash, log, if finalize then Some(NewPage(g, hdr, bytes, finalize).body) else None;
      PickedErased(g, flash, dir, p, N());
      WriteNew(p, hdr, bytes, finalize, old(log), old(dir));
      if hdr.flags.final {
        FinalFrom(old(log), log1, log, f0, p, body);
      }
    }

    /** Deletes the live page of key `k`, lookup entry first; `heir`, when given, has been written
        to take its place. */
    method PageDelete(pix: Pix, ghost k: Key, ghost heir: Option<Pix>, ghost body: Body)
      requires k in dir.cat && dir.cat[k] == pix && k in dir.store
      requires if heir.None? then Phys() else Writing(heir.value) && Replaces(flash, dir, heir.value, k, body)
      modifies `flash, `pAllocated, `pDeleted, `dir, `log
      ensures Phys()
      ensures pix in old(flash).page && flash == Put(old(flash), pix, Deleted, Scrapped(old(flash).page[pix]))
      ensures dir == if heir.None? then Without(old(dir), k) else With(old(dir), k, heir.value, body)
      ensures pAllocated == old(pAllocated) - 1 && pDeleted == old(pDeleted) + 1
      ensures log == old(log) + [old(flash).(lu := old(flash).lu[pix := Deleted]), flash]
      ensures Extends(old(log), log) && Survives(log, |old(log)|, dir, dir)
    {
      hide CatalogOk, ShapeOk, CursorOk, Holds, CountsOk, Extends, Survives;
      LiveIn(g, flash, dir, freeCursor, N(), heir, k);
      var hdr := flash.page[pix].hdr;
      var pg := flash.page[pix].(hdr := hdr.(flags := hdr.flags.(delet := false, used := false)));
      if heir.None? {
        Dropped(g, flash, dir, freeCursor, N(), k, pg);
      } else {
        Superseded(g, flash, dir, freeCursor, N(), heir.value, k, body, pg);
        ReplacementHolds(g, flash, dir, heir.value, k, body, pg);
      }
      dir := if heir.None? then Without(dir, k) else With(dir, k, heir.value, body);
      LogStarts(log, dir);
      // mark the lookup entry deleted
      flash := flash.(lu := flash.lu[pix := Deleted]);
      LogGrows(old(log), log, flash, dir, dir);
      log := log + [flash];
      pDeleted := pDeleted + 1;
      pAllocated := pAllocated - 1;
      // mark the page deleted
      flash := flash.(page := flash.page[pix := pg]);
      LogGrows(old(log), log, flash, dir, dir);
      log := log + [flash];
    }

    /** Writes a copy of the live page of key `k`, or a new version of it, to the page that `FindFree`
        picked: first the page, not finalised yet if it is new, then its lookup entry. */
    method PlaceCopy(src: Pix, dst: Pix, data: Option<Body>, ghost k: Key, ghost log0: seq<Flash>, ghost d0: Dir)
      requires Sized() && freeCursor == dst && PickedOk(g, flash, dir, dst, N())
      requires k in dir.cat && dir.cat[k] == src && k in dir.store
      requires dir == d0.(fill := dir.fill) && Extends(log0, log) && Survives(log, |log0|, d0, d0)
      modifies `flash, `pAllocated, `dir, `log
      ensures Writing(dst) && dst.bix < |old(dir).fill| && dir == Taken(old(dir), dst)
      ensures k in old(dir).store && Replaces(flash, dir, dst, k, data.GetOr(old(dir).store[k]))
      ensures src in old(flash).lu && flash.lu == old(flash).lu[dst := old(flash).lu[src]] && flash.page.Keys == old(flash).page.Keys + {dst}
      ensures forall q | q in old(flash).page && q != dst :: flash.page[q] == old(flash).page[q]
      ensures Extends(log0, log) && Survives(log, |log0|, d0, d0)
      ensures FinalLast(log, |old(log)|, dst, Some(data.GetOr(old(dir).store[k]))) && Extends(old(log), log)
      ensures data.Some? ==> forall i | |old(log)| <= i < |log| - 1 && dst in log[i].page :: log[i].page[dst].hdr.flags.final
      ensures pAllocated == old(pAllocated) + 1
    {
      hide CatalogOk, ShapeOk, CursorOk, Holds, Settled, CountsOk, Extends, Survives, FirstFree, HeaderOf, FinalLast;
      PickedLive(g, flash, dir, dst, N(), k);
      ghost var log1, body := log, Some(data.GetOr(dir.store[k]));
      PickedErased(g, flash, dir, dst, N());
      NotFinal(log, log, flash, dst, body);
      var e := flash.lu[src];
      var pg := flash.page[src];
      // a copy, or a new version, not finalised yet
      var first := if data.Some? then Page(pg.hdr.(flags := pg.hdr.flags.(final := true)), data.value) else pg;
      PickedHolds(g, flash, dir, dst, N(), e, first, d0);
      Occupied(g, flash, dir, dst, N(), e, first);
      flash := flash.(page := flash.page[dst := first]);
      LogGrows(log0, log, flash, d0, d0);
      log := log + [flash];
      // mark the entry in the destination lookup table
      ghost var f1 := flash;
      flash := flash.(lu := flash.lu[dst := e]);
      LogGrows(log0, log, flash, d0, d0);
      log := log + [flash];
      assert log == log1 + [f1, flash];
      MoreEntries(log1, |log1|, f1, flash, dst, body);
      pAllocated := pAllocated + 1;
      dir := Taken(dir, dst);
      if data.Some? {
        // mark finalised
        ghost var log2 := log;
        WritePage(dst, Page(pg.hdr, data.value), log0, d0);
        OneMoreEntry(log2, |log1|, flash, dst, body);
      }
      ExtendsBy(log1, log[|log1|..]);
      assert log == log1 + log[|log1|..];
    }

    /** Moves the live page of key `k` to a free page, with a new body if one is given. */
    method PageMove(src: Pix, data: Option<Body>, ghost k: Key) returns (res: Status, dst: Pix)
      requires Phys() && k in dir.cat && dir.cat[k] == src && k in dir.store
      modifies `flash, `freeBlocks, `pAllocated, `pDeleted, `eraseCount, `maxErase, `dir, `log, `freeCursor
      ensures Phys()
      ensures res.Ok? ==> dir == With(old(dir), k, dst, data.GetOr(old(dir).store[k])).(fill := dir.fill)
      ensures !res.Ok? ==> dir == old(dir).(fill := dir.fill)
      ensures Extends(old(log), log)
      ensures res.Ok? ==> Survives(log, |old(log)|, old(dir), dir)
      ensures res.Ok? ==> FinalLast(log, |old(log)|, dst, Some(data.GetOr(old(dir).store[k])))
      ensures !res.Ok? ==> Survives(log, |old(log)|, old(dir), old(dir))
      ensures freeBlocks >= old(freeBlocks) - 1
      ensures old(freeBlocks) >= 2 ==> res.Ok?
      ensures pAllocated == old(pAllocated) && pDeleted <= old(pDeleted) + 1
      ensures old(cleaning) && res.Ok? ==> Moved(g, old(flash), old(dir), old(freeCursor), flash, dir, freeCursor, src, dst)
      ensures old(cleaning) ==> Wear() == old(Wear())
      ensures old(cleaning) && !res.Ok? ==> res == NotFound && forall q | q in old(flash).lu :: !old(flash).lu[q].Free?
      ensures old(Settled(g, dir.fill, freeCursor, None)) ==> Settled(g, dir.fill, freeCursor, None)
    {
      hide CatalogOk, ShapeOk, CursorOk, Holds, Settled, CountsOk, Extends, Survives, FirstFree, HeaderOf, FinalLast, PickedOk;
      res, dst := FindFree();
      if !res.Ok? {
        return;
      }
      ghost var d0, body, f0, log2 := old(dir), data.GetOr(old(dir).store[k]), flash, log;
      PickedErased(g, flash, dir, dst, N());
      PickedLive(g, flash, dir, dst, N(), k);
      PlaceCopy(src, dst, data, k, old(log), d0);
      ghost var log1, f1 := log, flash;
      FinalFrom(old(log), log2, log1, f0, dst, Some(body));
      PageDelete(src, k, Some(dst), data.GetOr(d0.store[k]));
      MoreEntries(log1, |old(log)|, f1.(lu := f1.lu[src := Deleted]), flash, dst, Some(body));
      LogJoins(old(log), log1, log, d0, dir);
    }

    /** Writes the live page of key `k` in place; its body may only lose bits. */
    method RewritePage(pix: Pix, body: Body, ghost k: Key)
      requires Phys() && k in dir.cat && dir.cat[k] == pix && k in dir.store && Programmable(dir.store[k], body)
      modifies `flash, `dir, `log
      ensures Phys() && dir == old(dir).(store := old(dir).store[k := body])
      ensures flash.lu == old(flash).lu
      ensures log == old(log) + [flash] && Holds(flash, dir)
    {
      hide CatalogOk, ShapeOk, CursorOk, Holds, CountsOk;
      LiveIn(g, flash, dir, freeCursor, N(), None, k);
      Rewritten(g, flash, dir, freeCursor, N(), k, body);
      flash := flash.(page := flash.page[pix := flash.page[pix].(body := body)]);
      dir := dir.(store := dir.store[k := body]);
      log := log + [flash];
      LiveIn(g, flash, dir, freeCursor, N(), None, k);
    }

    /** Searches the lookup tables for the live page of an object and span, from the search cursor. */
    method FindIdAndSpan(id: nat, ix: bool, span: nat) returns (res: Status, pix: Pix)
      requires Phys()
      modifies `cursor
      ensures Phys()
      ensures res.Ok? <==> Key(id, ix, span) in dir.cat && !(ix && span == 0 && dir.removing == Some(id))
      ensures res.Ok? ==> pix == dir.cat[Key(id, ix, span)]
      ensures !res.Ok? ==> res == NotFound
      ensures cursor == if res.Ok? then pix else old(cursor)
    {
      hide CatalogOk, ShapeOk, CursorOk, CountsOk, HitAt;
      var f := flash;
      PhysTotal(g, f, dir, freeCursor, N(), None);
      forall p {
        HitKey(g, f, dir, freeCursor, N(), p, Key(id, ix, span));
      }
      var found := Visit(g, cursor, p => HitAt(f, p, id, ix, span));
      if found.Some? {
        pix := found.value;
        cursor := pix;
        res := Ok;
      } else {
        pix := Pix(0, 0);
        res := NotFound;
      }
    }

    /** Tells every open descriptor of an object about its index page (cb_object_event). */
    method Notify(ev: Event, id: nat, span: nat, pix: Pix, size: SizeArg)
      modifies `fds
      ensures |fds| == |old(fds)|
      ensures forall i | 0 <= i < |fds| :: fds[i] == Notified(old(fds)[i], ev, id, span, pix, size)
    {
      var i := 0;
      while i < |fds|
        invariant i <= |fds| == |old(fds)|
        invariant forall j | 0 <= j < i :: fds[j] == Notified(old(fds)[j], ev, id, span, pix, size)
        invariant forall j | i <= j < |fds| :: fds[j] == old(fds)[j]
      {
        var fd := fds[i];
        if fd.open && fd.id == id {
          if span == 0 {
            if ev.Delete? {
              fd := fd.(open := false, id := 0);
            } else {
              fd := fd.(hdrPix := pix);
              if size.SizeIs? {
                fd := fd.(size := size.size);
              }
            }
          }
          if fd.curSpan == span {
            fd := fd.(curPix := if ev.Delete? then None else Some(pix));
          }
          fds := fds[i := fd];
        }
        i := i + 1;
      }
    }

    /** Stores the index header in the work buffer (loading it first if asked) on a new page, with a
        new size if one is given, and tells the open descriptors. */
    method UpdateIndexHdr(id: nat, pix: Pix, load: bool, size: SizeArg) returns (res: Status, dst: Pix)
      requires Phys() && Key(id, true, 0) in dir.cat && dir.cat[Key(id, true, 0)] == pix && Key(id, true, 0) in dir.store
      requires (if load then dir.store[Key(id, true, 0)] else work).Index?
      modifies `flash, `freeBlocks, `pAllocated, `pDeleted, `eraseCount, `maxErase, `dir, `log, `freeCursor, `work, `fds
      ensures Phys()
      ensures work == Resized(if load then old(dir).store[Key(id, true, 0)] else old(work), size)
      ensures res.Ok? ==> dir == With(old(dir), Key(id, true, 0), dst, work).(fill := dir.fill)
      ensures !res.Ok? ==> dir == old(dir).(fill := dir.fill) && fds == old(fds)
      ensures res.Ok? ==> |fds| == |old(fds)| && forall i | 0 <= i < |fds| :: fds[i] == Notified(old(fds)[i], Update, id, 0, dst, SizeIs(work.size))
      ensures Extends(old(log), log)
      ensures res.Ok? ==> Survives(log, |old(log)|, old(dir), dir)
      ensures !res.Ok? ==> Survives(log, |old(log)|, old(dir), old(dir))
      ensures freeBlocks >= old(freeBlocks) - 1
      ensures old(freeBlocks) >= 2 ==> res.Ok?
      ensures pAllocated == old(pAllocated) && pDeleted <= old(pDeleted) + 1
      ensures old(cleaning) && res.Ok? ==> Moved(g, old(flash), old(dir), old(freeCursor), flash, dir, freeCursor, pix, dst)
      ensures old(cleaning) ==> Wear() == old(Wear())
      ensures old(cleaning) && !res.Ok? ==> res == NotFound && forall q | q in old(flash).lu :: !old(flash).lu[q].Free?
      ensures old(Settled(g, dir.fill, freeCursor, None)) ==> Settled(g, dir.fill, freeCursor, None)
    {
      hide PhysOk, Settled, Extends, Survives, FirstFree, Notified, Holds;
      if load {
        LoadedBody(g, flash, dir, freeCursor, N(), Key(id, true, 0));
        work := flash.page[pix].body;
      }
      if size.SizeIs? {
        work := work.(size := size.size);
      }
      res, dst := PageMove(pix, Some(work), Key(id, true, 0));
      if res.Ok? {
        Notify(Update, id, 0, dst, SizeIs(work.size));
      }
    }

    /** The invariant between operations. */
    ghost predicate Valid()
      reads this
    {
      Phys() && LogicOk(g, Now(), None, None) && dir.removing == None && !cleaning
    }
  }
}
