/** Deciding on garbage collection (gc_check of spiffs_gc.c): while too little is free, the best
    candidate block is cleaned and erased. */
module Collect {
  import opened Options
  import opened Layout
  import opened Catalog
  import opened Files
  import opened Store
  import opened Gc
  import opened Candidates
  import opened Tally

  const GC_MAX_RUNS := 5
  const W_DELET := 5
  const W_USED := -1
  const W_ERASE_AGE := 50

  ghost function LiveEntries(l: map<Pix, Entry>, b: nat, n: nat): set<Pix> {
    set p | p in l && p.bix == b && p.entry < n && l[p].Live?
  }

  /** Erases done since block with counter `count` was erased, as the wrapping counter tells it. */
  function EraseAge(maxErase: nat, count: nat): int {
    if maxErase > count then maxErase - count else 0xffff - (count - maxErase)
  }

  function Score(dele: int, used: int, age: int, crammed: bool): int {
    dele * W_DELET + used * W_USED + age * (if crammed then 0 else W_ERASE_AGE)
  }

  /** The score fits the code's signed 32-bit type, for counters of 16 bits. */
  lemma ScoreFits(dele: int, used: int, maxErase: nat, count: nat, crammed: bool)
    requires 0 <= dele <= 0xffff && 0 <= used <= 0xffff && maxErase <= 0xffff && count <= 0xffff
    ensures -0x8000_0000 <= Score(dele, used, EraseAge(maxErase, count), crammed) < 0x8000_0000
  {
  }

  ghost function CandOf(g: Geometry, l: map<Pix, Entry>, counts: seq<nat>, maxErase: nat, crammed: bool, b: nat): Cand
    requires b < |counts|
  {
    Cand(b, Score(|InBlock(l, b, g.entries, Deleted)|, |LiveEntries(l, b, g.entries)|, EraseAge(maxErase, counts[b]), crammed))
  }

  /** The blocks below `n` that have a deleted page, with their scores. */
  ghost function Eligible(g: Geometry, l: map<Pix, Entry>, counts: seq<nat>, maxErase: nat, crammed: bool, n: nat): seq<Cand>
    requires n <= |counts|
  {
    if n == 0 then []
    else
      var rest := Eligible(g, l, counts, maxErase, crammed, n - 1);
      if InBlock(l, n - 1, g.entries, Deleted) == {} then rest
      else rest + [CandOf(g, l, counts, maxErase, crammed, n - 1)]
  }

  /** The eligible blocks are exactly those with a deleted page, each with its own score. */
  lemma {:induction false} EligibleIff(g: Geometry, l: map<Pix, Entry>, counts: seq<nat>, maxErase: nat, crammed: bool, n: nat, c: Cand)
    requires n <= |counts|
    ensures c in Eligible(g, l, counts, maxErase, crammed, n) <==>
            c.bix < n && InBlock(l, c.bix, g.entries, Deleted) != {} && c == CandOf(g, l, counts, maxErase, crammed, c.bix)
  {
    if n > 0 {
      EligibleIff(g, l, counts, maxErase, crammed, n - 1, c);
    }
  }

  // ----- what the order of the candidates means -----

  /** If block `b` is in the table, block `a` is, and comes before it. */
  ghost predicate Ahead(t: seq<Cand>, a: nat, b: nat) {
    forall j | 0 <= j < |t| && t[j].bix == b :: exists i :: 0 <= i < j && t[i].bix == a
  }

  /** The table of the candidates among all blocks, at these tables and erase counters. */
  ghost predicate Ranking(g: Geometry, l: map<Pix, Entry>, counts: seq<nat>, maxErase: nat, crammed: bool, t: seq<Cand>) {
    |counts| == g.blocks && exists max: nat :: max >= 1 && TopTable(t, Eligible(g, l, counts, maxErase, crammed, g.blocks), max)
  }

  ghost function Deads(g: Geometry, l: map<Pix, Entry>, b: nat): nat {
    |InBlock(l, b, g.entries, Deleted)|
  }

  ghost function Lives(g: Geometry, l: map<Pix, Entry>, b: nat): nat {
    |LiveEntries(l, b, g.entries)|
  }

  /** Blocks `a` and `b` both have a deleted page. */
  ghost predicate Rivals(g: Geometry, l: map<Pix, Entry>, a: nat, b: nat) {
    a < g.blocks && b < g.blocks && a != b && Deads(g, l, a) > 0 && Deads(g, l, b) > 0
  }

  lemma RankedBefore(g: Geometry, l: map<Pix, Entry>, counts: seq<nat>, maxErase: nat, crammed: bool, t: seq<Cand>, a: nat, b: nat)
    requires Ranking(g, l, counts, maxErase, crammed, t) && Rivals(g, l, a, b)
    requires Before(CandOf(g, l, counts, maxErase, crammed, a), CandOf(g, l, counts, maxErase, crammed, b))
    ensures Ahead(t, a, b)
  {
    hide InBlock, LiveEntries, Score, Eligible;
    var all, x := Eligible(g, l, counts, maxErase, crammed, g.blocks), CandOf(g, l, counts, maxErase, crammed, a);
    var max: nat :| max >= 1 && TopTable(t, all, max);
    EligibleIff(g, l, counts, maxErase, crammed, g.blocks, x);
    forall j | 0 <= j < |t| && t[j].bix == b
      ensures exists i :: 0 <= i < j && t[i].bix == a
    {
      assert t[j] in t;
      EligibleIff(g, l, counts, maxErase, crammed, g.blocks, t[j]);
      assert x in t || Before(t[j], x);
      var i :| 0 <= i < |t| && t[i] == x;
      assert forall k | j < k < |t| :: Before(t[j], t[k]);
    }
  }

  /** Pages against pages, for blocks of the same age or when age does not matter: more deleted and fewer live
      pages come first; a deleted page more outweighs four live ones more, but not six. */
  lemma PagesRank(g: Geometry, l: map<Pix, Entry>, counts: seq<nat>, maxErase: nat, crammed: bool, t: seq<Cand>, a: nat, b: nat)
    requires Ranking(g, l, counts, maxErase, crammed, t) && Rivals(g, l, a, b) && (crammed || counts[a] == counts[b])
    ensures Deads(g, l, a) >= Deads(g, l, b) && Lives(g, l, a) < Lives(g, l, b) ==> Ahead(t, a, b)
    ensures Deads(g, l, a) > Deads(g, l, b) && Lives(g, l, a) <= Lives(g, l, b) + 4 * (Deads(g, l, a) - Deads(g, l, b)) ==> Ahead(t, a, b)
    ensures Deads(g, l, a) <= Deads(g, l, b) + 1 && Lives(g, l, a) >= Lives(g, l, b) + 6 ==> Ahead(t, b, a)
    ensures Deads(g, l, a) == Deads(g, l, b) && Lives(g, l, a) == Lives(g, l, b) && a < b ==> Ahead(t, a, b)
  {
    hide InBlock, LiveEntries, TopTable;
    if Before(CandOf(g, l, counts, maxErase, crammed, a), CandOf(g, l, counts, maxErase, crammed, b)) {
      RankedBefore(g, l, counts, maxErase, crammed, t, a, b);
    } else {
      RankedBefore(g, l, counts, maxErase, crammed, t, b, a);
    }
  }

  /** The next erase counter; it starts again at 0 before it gets the index bit. */
  function NextCount(c: nat): nat {
    if c == 0x7fff || c == 0xffff then 0 else c + 1
  }

  /** The next erase counter after `k` more erases. */
  function CountAfter(c: nat, k: nat): nat {
    if k == 0 then c else NextCount(CountAfter(c, k - 1))
  }

  lemma {:induction false} CountWraps(c: nat, k: nat)
    requires c <= 0x7fff && k <= 0x8000
    ensures CountAfter(c, k) == if c + k <= 0x7fff then c + k else c + k - 0x8000
  {
    if k > 0 {
      CountWraps(c, k - 1);
    }
  }

  /** Age against pages, unless the file system is crammed: where `ka` and `kb` erases have been done since the
      blocks were erased, one more erase outweighs nine deleted pages, across the wrap of the counter too. A block
      erased before the last wrap counts for 0x7fff erases more. */
  lemma AgeRank(g: Geometry, l: map<Pix, Entry>, counts: seq<nat>, maxErase: nat, t: seq<Cand>, a: nat, b: nat, ka: nat, kb: nat)
    requires Ranking(g, l, counts, maxErase, false, t) && Rivals(g, l, a, b)
    requires counts[a] <= 0x7fff && counts[b] <= 0x7fff && 1 <= kb < ka <= 0x8000
    requires maxErase == CountAfter(counts[a], ka) == CountAfter(counts[b], kb)
    ensures Deads(g, l, a) == Deads(g, l, b) && Lives(g, l, a) == Lives(g, l, b) ==> Ahead(t, a, b)
    ensures Deads(g, l, b) <= Deads(g, l, a) + 9 && Lives(g, l, a) <= Lives(g, l, b) ==> Ahead(t, a, b)
    ensures var pages := 5 * (Deads(g, l, b) - Deads(g, l, a)) + Lives(g, l, a) - Lives(g, l, b);
            var erases := 50 * (ka - kb + if counts[a] >= maxErase && counts[b] < maxErase then 0x7fff else 0);
            (pages < erases ==> Ahead(t, a, b)) && (pages > erases ==> Ahead(t, b, a))
  {
    hide InBlock, LiveEntries, TopTable;
    CountWraps(counts[a], ka);
    CountWraps(counts[b], kb);
    if Before(CandOf(g, l, counts, maxErase, false, a), CandOf(g, l, counts, maxErase, false, b)) {
      RankedBefore(g, l, counts, maxErase, false, t, a, b);
    } else {
      RankedBefore(g, l, counts, maxErase, false, t, b, a);
    }
  }

  // ----- which block is collected -----

  /** Block `b` has a deleted page, and comes before every other block that has one. */
  ghost predicate Best(g: Geometry, l: map<Pix, Entry>, counts: seq<nat>, maxErase: nat, crammed: bool, b: nat) {
    && |counts| == g.blocks && b < g.blocks && InBlock(l, b, g.entries, Deleted) != {}
    && forall c: nat | c < g.blocks && c != b && InBlock(l, c, g.entries, Deleted) != {} ::
         Before(CandOf(g, l, counts, maxErase, crammed, b), CandOf(g, l, counts, maxErase, crammed, c))
  }

  lemma BestOne(g: Geometry, l: map<Pix, Entry>, counts: seq<nat>, maxErase: nat, crammed: bool, b: nat, c: nat)
    requires Best(g, l, counts, maxErase, crammed, b) && Best(g, l, counts, maxErase, crammed, c)
    ensures b == c
  {
    hide InBlock, LiveEntries, Score;
    var x, y := CandOf(g, l, counts, maxErase, crammed, b), CandOf(g, l, counts, maxErase, crammed, c);
    assert b == c || Before(x, y);
  }

  /** The block at the head of the candidate table is the best one. */
  lemma TopIsBest(g: Geometry, l: map<Pix, Entry>, counts: seq<nat>, maxErase: nat, crammed: bool, t: seq<Cand>, max: nat)
    requires |counts| == g.blocks && max >= 1
    requires TopTable(t, Eligible(g, l, counts, maxErase, crammed, g.blocks), max)
    requires Eligible(g, l, counts, maxErase, crammed, g.blocks) != []
    ensures t != [] && Best(g, l, counts, maxErase, crammed, t[0].bix)
  {
    hide InBlock, LiveEntries, Score, Eligible;
    assert t[0] in t;
    EligibleIff(g, l, counts, maxErase, crammed, g.blocks, t[0]);
    forall c: nat | c < g.blocks && c != t[0].bix && InBlock(l, c, g.entries, Deleted) != {}
      ensures Before(t[0], CandOf(g, l, counts, maxErase, crammed, c))
    {
      EligibleIff(g, l, counts, maxErase, crammed, g.blocks, CandOf(g, l, counts, maxErase, crammed, c));
    }
  }

  lemma EmptyRun(l: map<Pix, Entry>, b: nat)
    ensures InBlock(l, b, 0, Deleted) == {} && LiveEntries(l, b, 0) == {}
  {
  }

  lemma OneMore(l: map<Pix, Entry>, b: nat, e: nat)
    requires Pix(b, e) in l
    ensures |InBlock(l, b, e + 1, Deleted)| == |InBlock(l, b, e, Deleted)| + if l[Pix(b, e)].Deleted? then 1 else 0
    ensures |LiveEntries(l, b, e + 1)| == |LiveEntries(l, b, e)| + if l[Pix(b, e)].Live? then 1 else 0
  {
    hide InBlock, LiveEntries;
    OneMoreDeleted(l, b, e);
    OneMoreLive(l, b, e);
  }

  lemma OneMoreDeleted(l: map<Pix, Entry>, b: nat, e: nat)
    requires Pix(b, e) in l
    ensures |InBlock(l, b, e + 1, Deleted)| == |InBlock(l, b, e, Deleted)| + if l[Pix(b, e)].Deleted? then 1 else 0
  {
    var p := Pix(b, e);
    if l[p].Deleted? {
      assert InBlock(l, b, e + 1, Deleted) == InBlock(l, b, e, Deleted) + {p};
    } else {
      assert InBlock(l, b, e + 1, Deleted) == InBlock(l, b, e, Deleted);
    }
  }

  lemma OneMoreLive(l: map<Pix, Entry>, b: nat, e: nat)
    requires Pix(b, e) in l
    ensures |LiveEntries(l, b, e + 1)| == |LiveEntries(l, b, e)| + if l[Pix(b, e)].Live? then 1 else 0
  {
    var p := Pix(b, e);
    if l[p].Live? {
      assert LiveEntries(l, b, e + 1) == LiveEntries(l, b, e) + {p};
    } else {
      assert LiveEntries(l, b, e + 1) == LiveEntries(l, b, e);
    }
  }

  /** Counts the deleted and live entries of block `b` up to the first free one. */
  method ScanBlock(fs: Spiffs, b: nat) returns (dele: nat, used: nat)
    requires fs.Phys() && b < fs.g.blocks
    ensures dele == |InBlock(fs.flash.lu, b, fs.g.entries, Deleted)|
    ensures used == |LiveEntries(fs.flash.lu, b, fs.g.entries)|
  {
    var l := fs.flash.lu;
    PhysTotal(fs.g, fs.flash, fs.dir, fs.freeCursor, fs.N(), None);
    ShapeOf(fs.g, fs.flash, fs.dir, fs.freeCursor, fs.N());
    hide PhysOk;
    ghost var fill := fs.dir.fill;
    dele, used := 0, 0;
    var e := 0;
    while e < fs.g.entries
      invariant e <= fs.g.entries && e <= fill[b]
      invariant dele == |InBlock(l, b, e, Deleted)| && used == |LiveEntries(l, b, e)|
    {
      var p := Pix(b, e);
      OneMore(l, b, e);
      if l[p].Free? {
        // all following entries are free also
        assert InBlock(l, b, fs.g.entries, Deleted) == InBlock(l, b, e, Deleted);
        assert LiveEntries(l, b, fs.g.entries) == LiveEntries(l, b, e);
        return;
      } else if l[p].Deleted? {
        dele := dele + 1;
      } else {
        used := used + 1;
      }
      e := e + 1;
    }
  }

  lemma ShapeOf(g: Geometry, f: Flash, d: Dir, c: Pix, n: Counts)
    requires PhysOk(g, f, d, c, n, None)
    ensures ShapeOk(g, f.lu, d.fill)
  {
  }

  /** Fills the candidate table with the best of the blocks that have a deleted page. */
  method FindCandidate(fs: Spiffs, crammed: bool) returns (count: nat, blocks: array<int>, scores: array<int>, ghost t: seq<Cand>)
    requires fs.Phys()
    ensures fresh(blocks) && fresh(scores)
    ensures 1 <= blocks.Length <= fs.g.blocks && (blocks.Length < fs.g.blocks ==> 6 * blocks.Length <= fs.g.dataSize - 3 < 6 * blocks.Length + 6)
    ensures Stored(blocks, scores, t)
    ensures |fs.eraseCount| == fs.g.blocks
    ensures TopTable(t, Eligible(fs.g, fs.flash.lu, fs.eraseCount, fs.maxErase, crammed, fs.g.blocks), blocks.Length)
    ensures count == |Eligible(fs.g, fs.flash.lu, fs.eraseCount, fs.maxErase, crammed, fs.g.blocks)|
  {
    hide PhysOk, CandOf, TopTable, InBlock, LiveEntries;
    var pageSize := fs.g.dataSize + 5;
    var max := if fs.g.blocks < (pageSize - 8) / 6 then fs.g.blocks else (pageSize - 8) / 6;
    blocks := new int[max](_ => -1);
    scores := new int[max](_ => -1);
    t := [];
    count := 0;
    ghost var l, counts, m := fs.flash.lu, fs.eraseCount, fs.maxErase;
    EmptyTable(blocks.Length);
    var b := 0;
    while b < fs.g.blocks
      invariant b <= fs.g.blocks && fs.Phys() && fresh(blocks) && fresh(scores) && blocks != scores && blocks.Length == max
      invariant fs.flash.lu == l && fs.eraseCount == counts && fs.maxErase == m
      invariant Stored(blocks, scores, t)
      invariant TopTable(t, Eligible(fs.g, l, counts, m, crammed, b), blocks.Length)
      invariant count == |Eligible(fs.g, l, counts, m, crammed, b)|
    {
      var dele, used := ScanBlock(fs, b);
      ghost var all := Eligible(fs.g, l, counts, m, crammed, b);
      if dele > 0 {
        var age := EraseAge(fs.maxErase, fs.eraseCount[b]);
        var c := Cand(b, Score(dele, used, age, crammed));
        forall a | a in all
          ensures a.bix < c.bix
        {
          EligibleIff(fs.g, l, counts, m, crammed, b, a);
        }
        CandIs(fs.g, l, counts, m, crammed, b, c);
        InsertTop(t, all, blocks.Length, c);
        InsertInto(blocks, scores, t, c);
        t := Insert(t, c, blocks.Length);
        count := count + 1;
      }
      b := b + 1;
    }
  }

  lemma EmptyTable(max: nat)
    ensures TopTable([], [], max)
  {
  }

  lemma CandIs(g: Geometry, l: map<Pix, Entry>, counts: seq<nat>, maxErase: nat, crammed: bool, b: nat, c: Cand)
    requires b < |counts| && InBlock(l, b, g.entries, Deleted) != {}
    requires c == Cand(b, Score(|InBlock(l, b, g.entries, Deleted)|, |LiveEntries(l, b, g.entries)|, EraseAge(maxErase, counts[b]), crammed))
    ensures Eligible(g, l, counts, maxErase, crammed, b + 1) == Eligible(g, l, counts, maxErase, crammed, b) + [c]
  {
  }

  /** Collection is not needed for `len` bytes. */
  predicate Idle(g: Geometry, n: Counts, len: nat) {
    n.freeBlocks > 3 && len < FreeQuota(g, n) * g.dataSize
  }

  /** Data pages that `len` bytes fill. */
  function DataPages(g: Geometry, len: nat): nat
    requires g.dataSize >= 1
  {
    (len + g.dataSize - 1) / g.dataSize
  }

  /** The space check for `len` bytes passes without collecting anything: there is enough room, or
      nothing to collect and still a page more than needed. */
  predicate Passes(g: Geometry, n: Counts, len: nat)
    requires g.dataSize >= 1
  {
    Idle(g, n, len) || (n.dead == 0 && DataPages(g, len) < FreeQuota(g, n))
  }

  /** The space check for `len` bytes fails without collecting anything: not even collecting every
      deleted page could make room, or there is none. */
  predicate Refused(g: Geometry, n: Counts, len: nat)
    requires g.dataSize >= 1
  {
    && !Idle(g, n, len)
    && (DataPages(g, len) > FreeQuota(g, n) + n.dead || (n.dead == 0 && DataPages(g, len) >= FreeQuota(g, n)))
  }

  /** That many pages hold `len` bytes, and no fewer. */
  lemma PagesNeeded(g: Geometry, len: nat)
    requires g.dataSize >= 1
    ensures DataPages(g, len) == (len + g.dataSize - 1) / g.dataSize
    ensures len <= DataPages(g, len) * g.dataSize && (len > 0 ==> (DataPages(g, len) - 1) * g.dataSize < len)
  {
  }

  lemma PagesCover(g: Geometry, len: nat, quota: int)
    requires g.dataSize >= 1 && DataPages(g, len) < quota
    ensures len <= quota * g.dataSize
  {
    var q := DataPages(g, len);
    assert len <= q * g.dataSize;
    MulMonotone(q, quota, g.dataSize);
  }

  /** A quota with room for no byte is not negative, one with room for a page is positive. */
  lemma QuotaSign(dataSize: nat, quota: int)
    requires dataSize >= 1 && 0 <= quota * dataSize
    ensures quota >= 0 && (dataSize <= quota * dataSize ==> quota >= 1)
  {
    if quota < 0 {
      MulMonotone(quota, -1, dataSize);
    }
  }

  /** The best block has used entries. */
  lemma BestUsed(fs: Spiffs, crammed: bool, b: nat)
    requires fs.Phys() && Best(fs.g, fs.flash.lu, fs.eraseCount, fs.maxErase, crammed, b)
    ensures b < fs.g.blocks && b < |fs.dir.fill| && fs.dir.fill[b] != 0
  {
    var p :| p in InBlock(fs.flash.lu, b, fs.g.entries, Deleted);
    assert p in fs.flash.lu && !fs.flash.lu[p].Free?;
  }

  /** There is a candidate exactly if some page is deleted. */
  lemma SomeCandidate(g: Geometry, l: map<Pix, Entry>, counts: seq<nat>, maxErase: nat, crammed: bool)
    requires Total(g, l) && g.blocks <= |counts|
    ensures Eligible(g, l, counts, maxErase, crammed, g.blocks) == [] <==> |DeletedPages(l)| == 0
  {
    hide LiveEntries, Score, Eligible;
    var all := Eligible(g, l, counts, maxErase, crammed, g.blocks);
    if all != [] {
      EligibleIff(g, l, counts, maxErase, crammed, g.blocks, all[0]);
      assert InBlock(l, all[0].bix, g.entries, Deleted) <= DeletedPages(l);
    }
    if |DeletedPages(l)| != 0 {
      var p :| p in DeletedPages(l);
      assert g.In(p) && p in InBlock(l, p.bix, g.entries, Deleted);
      EligibleIff(g, l, counts, maxErase, crammed, g.blocks, CandOf(g, l, counts, maxErase, crammed, p.bix));
    }
  }

  /** Counts the entries of a block about to be erased out of the statistics. */
  method ErasePageStats(fs: Spiffs, b: nat) returns (allo: nat, dele: nat)
    requires fs.Phys() && b < fs.g.blocks
    modifies fs`pAllocated, fs`pDeleted
    ensures dele == |InBlock(fs.flash.lu, b, fs.g.entries, Deleted)| && allo == |LiveEntries(fs.flash.lu, b, fs.g.entries)|
    ensures fs.pDeleted == old(fs.pDeleted) - dele && fs.pAllocated == old(fs.pAllocated) - allo
  {
    hide PhysOk, InBlock, LiveEntries;
    PhysTotal(fs.g, fs.flash, fs.dir, fs.freeCursor, fs.N(), None);
    allo, dele := CountEntries(fs.g, fs.flash.lu, b);
    fs.pAllocated := fs.pAllocated - allo;
    fs.pDeleted := fs.pDeleted - dele;
  }

  method CountEntries(g: Geometry, l: map<Pix, Entry>, b: nat) returns (allo: nat, dele: nat)
    requires Total(g, l) && b < g.blocks
    ensures dele == |InBlock(l, b, g.entries, Deleted)| && allo == |LiveEntries(l, b, g.entries)|
  {
    hide InBlock, LiveEntries;
    EmptyRun(l, b);
    allo, dele := 0, 0;
    var e := 0;
    while e < g.entries
      invariant e <= g.entries
      invariant dele == |InBlock(l, b, e, Deleted)| && allo == |LiveEntries(l, b, e)|
    {
      var p := Pix(b, e);
      OneMore(l, b, e);
      if l[p].Free? {
      } else if l[p].Deleted? {
        dele := dele + 1;
      } else {
        allo := allo + 1;
      }
      e := e + 1;
    }
  }

  lemma WipeReady(g: Geometry, f: Flash, d: Dir, c: Pix, n: Counts, b: nat, allo: int, dele: int)
    requires g.Ok() && PhysOk(g, f, d, c, n, None) && NoLive(f.lu, b) && b < g.blocks
    requires dele == |InBlock(f.lu, b, g.entries, Deleted)| && allo == |LiveEntries(f.lu, b, g.entries)|
    ensures allo == 0 && CatalogOk(g, f, d, None) && ShapeOk(g, f.lu, d.fill)
    ensures CountsOk(f.lu, d.fill, n)
  {
    assert LiveEntries(f.lu, b, g.entries) == {};
  }

  lemma WipeDone(g: Geometry, v: Vals, v': Vals, b: nat)
    requires g.Ok() && PhysOk(g, v.f, v.d, v.c, v.n, None) && LogicOk(g, v, None, None)
    requires b < g.blocks && v.c.bix != b && v' == v.(f := v'.f, d := v'.d, n := v'.n)
    requires b < |v.d.fill| && v'.d == v.d.(fill := v.d.fill[b := 0])
    requires CatalogOk(g, v'.f, v'.d, None) && ShapeOk(g, v'.f.lu, v'.d.fill) && CountsOk(v'.f.lu, v'.d.fill, v'.n)
    ensures PhysOk(g, v'.f, v'.d, v'.c, v'.n, None) && LogicOk(g, v', None, None)
    ensures Settled(g, v.d.fill, v.c, Some(b)) ==> Settled(g, v'.d.fill, v'.c, None)
  {
    hide CatalogOk, ShapeOk, CountsOk, FilesOk, IxFits, FdsOk, CursorOk;
    WipeCursor(g, v.d.fill, v.c, b);
  }

  // ----- what collecting a block brings -----

  ghost predicate BlankBlock(l: map<Pix, Entry>, b: nat) {
    forall p | p in l && p.bix == b :: l[p].Free?
  }

  ghost function BlankBlocks(g: Geometry, l: map<Pix, Entry>): set<nat> {
    set b: nat | b < g.blocks && BlankBlock(l, b)
  }

  /** What the counters have to be, counted from the lookup tables. */
  ghost function Census(g: Geometry, l: map<Pix, Entry>): Counts {
    Counts(|BlankBlocks(g, l)|, |LivePages(l)|, |DeletedPages(l)|)
  }

  lemma CensusIs(g: Geometry, f: Flash, d: Dir, c: Pix, n: Counts)
    requires g.Ok() && PhysOk(g, f, d, c, n, None)
    ensures n == Census(g, f.lu)
  {
    hide CatalogOk, CursorOk;
    PhysTotal(g, f, d, c, n, None);
    forall b: nat | b < g.blocks
      ensures BlankBlock(f.lu, b) <==> d.fill[b] == 0
    {
      assert Pix(b, 0) in f.lu && (f.lu[Pix(b, 0)].Free? <==> 0 >= d.fill[b]);
    }
    assert BlankBlocks(g, f.lu) == FreeBlocks(d.fill);
  }

  /** Lookup tables and erase counters before a block is collected, and that block. */
  datatype Turn = Turn(lu: map<Pix, Entry>, counts: seq<nat>, maxErase: nat, block: nat)

  ghost function QuotaAt(g: Geometry, l: map<Pix, Entry>): int {
    FreeQuota(g, Census(g, l))
  }

  /** Pages gained at least by collecting block `b`: those that are deleted in it, less those whose move
      may leave an index page deleted elsewhere. */
  ghost function Gain(g: Geometry, l: map<Pix, Entry>, b: nat): int {
    |InBlock(l, b, g.entries, Deleted)| - |LiveInBlock(l, b, false)|
  }

  /** The block of turn `t` has been collected, leaving tables `l`. */
  ghost predicate Reclaimed(g: Geometry, t: Turn, l: map<Pix, Entry>, counts: seq<nat>, maxErase: nat) {
    && t.block < |t.counts| && counts == t.counts[t.block := t.maxErase] && maxErase == NextCount(t.maxErase)
    && BlankBlock(l, t.block) && |LivePages(l)| == |LivePages(t.lu)|
    && QuotaAt(g, t.lu) + Gain(g, t.lu, t.block) <= QuotaAt(g, l)
    && QuotaAt(g, l) <= QuotaAt(g, t.lu) + |InBlock(t.lu, t.block, g.entries, Deleted)|
  }

  lemma DeadSplit(g: Geometry, l: map<Pix, Entry>, b: nat)
    requires Total(g, l)
    ensures |DeletedPages(l)| == |DeadElsewhere(l, b)| + |InBlock(l, b, g.entries, Deleted)|
  {
    forall p | p in l
      ensures p in DeletedPages(l) <==> p in DeadElsewhere(l, b) + InBlock(l, b, g.entries, Deleted)
    {
      assert p in l <==> g.In(p);
    }
    assert DeletedPages(l) == DeadElsewhere(l, b) + InBlock(l, b, g.entries, Deleted);
  }

  lemma DeadWiped(l: map<Pix, Entry>, b: nat)
    ensures DeletedPages(Wiped(l, b)) == DeadElsewhere(l, b) && BlankBlock(Wiped(l, b), b)
  {
  }

  /** Emptied block `b` is erased: what its deleted pages were worth. */
  lemma Profit(g: Geometry, l0: map<Pix, Entry>, l1: map<Pix, Entry>, b: nat)
    requires Total(g, l0) && Thrift(l0, l1, b, 0) && |LivePages(Wiped(l1, b))| == |LivePages(l0)|
    ensures QuotaAt(g, l0) + Gain(g, l0, b) <= QuotaAt(g, Wiped(l1, b)) <= QuotaAt(g, l0) + |InBlock(l0, b, g.entries, Deleted)|
  {
    hide InBlock, BlankBlocks;
    DeadSplit(g, l0, b);
    DeadWiped(l1, b);
  }

  /** Cleans and erases block `b`. */
  method CleanAndErase(fs: Spiffs, b: nat, ghost log0: seq<Flash>, ghost store0: map<Key, Body>) returns (res: Status)
    requires fs.Valid() && b < fs.g.blocks && b < |fs.dir.fill| && fs.dir.fill[b] != 0
    requires LogSafe(log0, fs.log, store0) && SameData(fs.dir, store0)
    modifies fs
    ensures fs.Phys() && fs.files == old(fs.files) && !fs.cleaning && LogSafe(log0, fs.log, store0)
    ensures res.Ok? || res == NotFound
    ensures res.Ok? ==> fs.Valid() && SameData(fs.dir, store0)
    ensures res.Ok? && old(Settled(fs.g, fs.dir.fill, fs.freeCursor, None)) ==> Settled(fs.g, fs.dir.fill, fs.freeCursor, None)
    ensures SameFds(old(fs.fds), fs.fds)
    ensures old(Room(fs.flash.lu, b, 0)) ==> res.Ok?
    ensures res.Ok? ==> Reclaimed(fs.g, Turn(old(fs.flash.lu), old(fs.eraseCount), old(fs.maxErase), b), fs.flash.lu, fs.eraseCount, fs.maxErase)
    ensures Extends(old(fs.log), fs.log)
    ensures res.Ok? ==> |old(fs.log)| < |fs.log| && fs.log[|fs.log| - 1] == fs.flash
  {
    hide PhysOk, LogicOk, Settled, Room, LogSafe, SameData, NoLive, CatalogOk, ShapeOk, CountsOk, InBlock, LiveEntries, WipedFlash, Holds, SameFds,
         Thrift, Extends, QuotaAt, Gain, BlankBlock;
    ghost var g, log1, store1, d1, l0 := fs.g, fs.log, fs.dir.store, fs.dir, fs.flash.lu;
    PhysTotal(g, fs.flash, fs.dir, fs.freeCursor, fs.N(), None);
    TrueCounts(g, fs.flash, fs.dir, fs.freeCursor, fs.N());
    fs.cleaning := true;
    res := GcClean(fs, b);
    fs.cleaning := false;
    SafeChain(log0, log1, fs.log, store0, d1);
    if !res.Ok? {
      return;
    }
    SameDataChain(d1, fs.dir, store0);
    ghost var v := fs.Now();
    var allo, dele := ErasePageStats(fs, b);
    WipeReady(g, v.f, v.d, v.c, v.n, b, allo, dele);
    ghost var log2 := fs.log;
    fs.EraseBlock(b, dele);
    WipeDone(g, v, fs.Now(), b);
    LogOne(log0, log2, fs.flash, v.d, store0);
    LongerLog(log1, log2, fs.flash);
    FillChanged(v.d, fs.dir, store0);
    TrueCounts(g, fs.flash, fs.dir, fs.freeCursor, fs.N());
    WipedTables(v.f, fs.flash, b);
    Profit(g, l0, v.f.lu, b);
  }

  lemma WipedTables(f: Flash, f': Flash, b: nat)
    requires f' == WipedFlash(f, b)
    ensures f'.lu == Wiped(f.lu, b) && BlankBlock(f'.lu, b)
  {
  }

  lemma LongerLog(log1: seq<Flash>, log2: seq<Flash>, f: Flash)
    requires Extends(log1, log2)
    ensures Extends(log1, log2 + [f]) && |log1| < |log2 + [f]|
  {
  }

  lemma SafeChain(log0: seq<Flash>, log1: seq<Flash>, log2: seq<Flash>, store0: map<Key, Body>, d1: Dir)
    requires LogSafe(log0, log1, store0) && LogSafe(log1, log2, d1.store) && SameData(d1, store0)
    ensures LogSafe(log0, log2, store0) && Extends(log1, log2)
  {
    forall i | |log0| <= i < |log2|
      ensures DataVisible(log2[i], store0)
    {
      if i < |log1| {
        assert log2[i] == log1[i];
      } else {
        assert DataVisible(log2[i], d1.store);
        assert forall k | k in store0 && !k.ix :: d1.store[k] == store0[k];
      }
    }
  }

  lemma SameDataChain(d1: Dir, d2: Dir, store0: map<Key, Body>)
    requires SameData(d1, store0) && SameData(d2, d1.store)
    ensures SameData(d2, store0)
  {
  }

  lemma FillChanged(d: Dir, d': Dir, store0: map<Key, Body>)
    requires SameData(d, store0) && d' == d.(fill := d'.fill)
    ensures SameData(d', store0)
  {
  }

  lemma LogOne(log0: seq<Flash>, log1: seq<Flash>, f: Flash, d: Dir, store0: map<Key, Body>)
    requires LogSafe(log0, log1, store0) && Holds(f, d) && SameData(d, store0)
    ensures LogSafe(log0, log1 + [f], store0)
  {
    HoldsVisible(f, d, store0);
  }

  // ----- making room -----

  /** Of the two blocks kept in reserve one is used, or `len` bytes do not fit. */
  ghost predicate Wanting(g: Geometry, l: map<Pix, Entry>, len: nat) {
    |BlankBlocks(g, l)| <= 2 || len > QuotaAt(g, l) * g.dataSize
  }

  /** Nothing was gained, with no quota to begin with. */
  ghost predicate InVain(g: Geometry, l: map<Pix, Entry>, l': map<Pix, Entry>) {
    QuotaAt(g, l) <= 0 && QuotaAt(g, l) == QuotaAt(g, l')
  }

  /** Blocks collected one after the other: each is the best one at its time, where age does not matter
      iff there is no quota; there is another one only if it is wanted and the last one was not in vain. */
  ghost predicate Course(g: Geometry, turns: seq<Turn>, len: nat) {
    && (forall i | 0 <= i < |turns| ::
          Best(g, turns[i].lu, turns[i].counts, turns[i].maxErase, QuotaAt(g, turns[i].lu) <= 0, turns[i].block))
    && (forall i | 1 <= i < |turns| ::
          && Reclaimed(g, turns[i - 1], turns[i].lu, turns[i].counts, turns[i].maxErase)
          && Wanting(g, turns[i].lu, len) && !InVain(g, turns[i - 1].lu, turns[i].lu))
  }

  /** After these turns, which have left tables `l`, no further block is looked for. */
  ghost predicate Ended(g: Geometry, turns: seq<Turn>, l: map<Pix, Entry>, len: nat)
    requires turns != []
  {
    |turns| == 5 || !Wanting(g, l, len) || InVain(g, turns[|turns| - 1].lu, l)
  }

  ghost predicate OnLog(log0: seq<Flash>, log: seq<Flash>, l: map<Pix, Entry>) {
    exists i :: |log0| <= i < |log| && log[i].lu == l
  }

  ghost predicate BlankIn(log0: seq<Flash>, log: seq<Flash>, b: nat) {
    exists i :: |log0| <= i < |log| && BlankBlock(log[i].lu, b)
  }

  /** Block `b` is the best one; it has been erased between `log0` and `log`, or there is too little room to clean it. */
  ghost predicate TriedBlock(g: Geometry, l: map<Pix, Entry>, wear: (seq<nat>, nat), log0: seq<Flash>, log: seq<Flash>, b: nat) {
    Best(g, l, wear.0, wear.1, QuotaAt(g, l) <= 0, b) && (!Room(l, b, 0) || BlankIn(log0, log, b))
  }

  ghost predicate Tried(g: Geometry, l: map<Pix, Entry>, wear: (seq<nat>, nat), log0: seq<Flash>, log: seq<Flash>) {
    exists b: nat :: TriedBlock(g, l, wear, log0, log, b)
  }

  /** As can be seen before: block `b` is the best one, there is room to clean it, and it has enough deleted
      pages to leave room for `len` bytes and three blocks free. */
  ghost predicate Gains(g: Geometry, l: map<Pix, Entry>, counts: seq<nat>, maxErase: nat, tidy: bool, len: nat, b: nat) {
    && tidy && Best(g, l, counts, maxErase, QuotaAt(g, l) <= 0, b) && Room(l, b, 0)
    && QuotaAt(g, l) + Gain(g, l, b) >= g.entries && len <= (QuotaAt(g, l) + Gain(g, l, b)) * g.dataSize
  }

  /** One turn more is taken, as long as there have not been enough. */
  lemma TurnTaken(g: Geometry, turns: seq<Turn>, turn: Turn, len: nat, log0: seq<Flash>, log1: seq<Flash>, log2: seq<Flash>)
    requires Course(g, turns, len) && Best(g, turn.lu, turn.counts, turn.maxErase, QuotaAt(g, turn.lu) <= 0, turn.block)
    requires Extends(log0, log1) && Extends(log1, log2) && forall i | 1 <= i < |turns| :: OnLog(log0, log1, turns[i].lu)
    requires turns != [] ==> Reclaimed(g, turns[|turns| - 1], turn.lu, turn.counts, turn.maxErase) && OnLog(log0, log1, turn.lu)
    requires turns != [] ==> !Ended(g, turns, turn.lu, len)
    ensures Course(g, turns + [turn], len)
    ensures forall i | 1 <= i < |turns + [turn]| :: OnLog(log0, log2, (turns + [turn])[i].lu)
  {
    hide Best, Reclaimed, Wanting, InVain;
    var turns' := turns + [turn];
    forall i | 1 <= i < |turns'|
      ensures Reclaimed(g, turns'[i - 1], turns'[i].lu, turns'[i].counts, turns'[i].maxErase)
      ensures Wanting(g, turns'[i].lu, len) && !InVain(g, turns'[i - 1].lu, turns'[i].lu)
    {
      if i < |turns| {
        assert turns'[i] == turns[i];
      }
    }
    forall i | 1 <= i < |turns'|
      ensures OnLog(log0, log2, turns'[i].lu)
    {
      OnLogLonger(log0, log1, log2, turns'[i].lu);
    }
  }

  lemma OnLogLonger(log0: seq<Flash>, log1: seq<Flash>, log2: seq<Flash>, l: map<Pix, Entry>)
    requires OnLog(log0, log1, l) && Extends(log1, log2)
    ensures OnLog(log0, log2, l)
  {
    var i :| |log0| <= i < |log1| && log1[i].lu == l;
    assert log2[i] == log1[i];
  }

  lemma TriedLonger(g: Geometry, l: map<Pix, Entry>, wear: (seq<nat>, nat), log0: seq<Flash>, log1: seq<Flash>, log2: seq<Flash>)
    requires Tried(g, l, wear, log0, log1) && Extends(log1, log2)
    ensures Tried(g, l, wear, log0, log2)
  {
    hide Best, BlankBlock, Room, QuotaAt;
    var b: nat :| TriedBlock(g, l, wear, log0, log1, b);
    if Room(l, b, 0) {
      var i :| |log0| <= i < |log1| && BlankBlock(log1[i].lu, b);
      assert log2[i] == log1[i];
    }
    assert TriedBlock(g, l, wear, log0, log2, b);
  }

  /** The first turn: the best block is blank in the log, or there was too little room. */
  lemma TriedNow(g: Geometry, turn: Turn, log0: seq<Flash>, log: seq<Flash>, f: Flash, counts: seq<nat>, maxErase: nat)
    requires Best(g, turn.lu, turn.counts, turn.maxErase, QuotaAt(g, turn.lu) <= 0, turn.block)
    requires !Room(turn.lu, turn.block, 0) ||
             (Reclaimed(g, turn, f.lu, counts, maxErase) && |log0| < |log| && log[|log| - 1] == f)
    ensures Tried(g, turn.lu, (turn.counts, turn.maxErase), log0, log)
  {
    hide Best, BlankBlock, Room, QuotaAt, Gain;
    if Room(turn.lu, turn.block, 0) {
      assert BlankBlock(log[|log| - 1].lu, turn.block);
    }
    assert TriedBlock(g, turn.lu, (turn.counts, turn.maxErase), log0, log, turn.block);
  }

  /** After the first turn a block that gains enough has been collected, and no more is wanted. */
  lemma GainsMet(fs: Spiffs, turn: Turn, tidy: bool, len: nat, b: nat)
    requires fs.Phys() && Gains(fs.g, turn.lu, turn.counts, turn.maxErase, tidy, len, b)
    requires tidy ==> Settled(fs.g, fs.dir.fill, fs.freeCursor, None)
    requires Best(fs.g, turn.lu, turn.counts, turn.maxErase, QuotaAt(fs.g, turn.lu) <= 0, turn.block)
    requires Reclaimed(fs.g, turn, fs.flash.lu, fs.eraseCount, fs.maxErase)
    ensures !Wanting(fs.g, fs.flash.lu, len)
    ensures QuotaAt(fs.g, fs.flash.lu) >= QuotaAt(fs.g, turn.lu) + Gain(fs.g, turn.lu, b)
  {
    hide PhysOk, Best, Room, Settled, BlankBlocks, BlankBlock, LivePages, DeletedPages, InBlock, LiveInBlock, Gain;
    BestOne(fs.g, turn.lu, turn.counts, turn.maxErase, QuotaAt(fs.g, turn.lu) <= 0, turn.block, b);
    CensusIs(fs.g, fs.flash, fs.dir, fs.freeCursor, fs.N());
    QuotaRoom(fs.g, fs.flash, fs.dir, fs.freeCursor, fs.N(), 1);
    MulMonotone(QuotaAt(fs.g, turn.lu) + Gain(fs.g, turn.lu, b), QuotaAt(fs.g, fs.flash.lu), fs.g.dataSize);
  }

  /** The space check for `len` bytes depends on what can be collected. */
  predicate Undecided(g: Geometry, n: Counts, len: nat)
    requires g.dataSize >= 1
  {
    !Passes(g, n, len) && !Refused(g, n, len)
  }

  /** Before a space check: blocks are going to be collected, and collecting block `b` is enough. */
  ghost predicate Pays(fs: Spiffs, len: nat, b: nat)
    requires fs.g.dataSize >= 1
    reads fs
  {
    && Undecided(fs.g, fs.N(), len)
    && Gains(fs.g, fs.flash.lu, fs.eraseCount, fs.maxErase, Settled(fs.g, fs.dir.fill, fs.freeCursor, None), len, b)
  }

  /** The quota that there is at least after block `b` has been collected. */
  ghost function Prospect(fs: Spiffs, b: nat): int
    reads fs
  {
    FreeQuota(fs.g, fs.N()) + Gain(fs.g, fs.flash.lu, b)
  }

  /** Collects the best candidate, if there is one. */
  method CollectBest(fs: Spiffs, crammed: bool, ghost log0: seq<Flash>, ghost store0: map<Key, Body>)
    returns (count: nat, res: Status, ghost turn: Turn)
    requires fs.Valid() && crammed == (FreeQuota(fs.g, fs.N()) <= 0)
    requires LogSafe(log0, fs.log, store0) && SameData(fs.dir, store0)
    modifies fs
    ensures fs.Phys() && fs.files == old(fs.files) && !fs.cleaning && LogSafe(log0, fs.log, store0)
    ensures res.Ok? || res == NotFound
    ensures res.Ok? ==> fs.Valid() && SameData(fs.dir, store0)
    ensures res.Ok? && old(Settled(fs.g, fs.dir.fill, fs.freeCursor, None)) ==> Settled(fs.g, fs.dir.fill, fs.freeCursor, None)
    ensures SameFds(old(fs.fds), fs.fds) && Extends(old(fs.log), fs.log)
    ensures count == 0 <==> old(fs.pDeleted) == 0
    ensures count == 0 ==> res.Ok? && fs.Now() == old(fs.Now()) && fs.log == old(fs.log) && fs.Wear() == old(fs.Wear())
    ensures count > 0 ==> turn == Turn(old(fs.flash.lu), old(fs.eraseCount), old(fs.maxErase), turn.block)
    ensures count > 0 ==> Best(fs.g, turn.lu, turn.counts, turn.maxErase, QuotaAt(fs.g, turn.lu) <= 0, turn.block)
    ensures count > 0 && res.Ok? ==> Reclaimed(fs.g, turn, fs.flash.lu, fs.eraseCount, fs.maxErase)
    ensures count > 0 && res.Ok? ==> |old(fs.log)| < |fs.log| && fs.log[|fs.log| - 1] == fs.flash
    ensures res == NotFound ==> count > 0 && !Room(turn.lu, turn.block, 0)
  {
    hide PhysOk, LogicOk, Settled, LogSafe, SameData, InBlock, Eligible, SameFds, Best, Reclaimed, Room, Extends, TopTable, DeletedPages, CandOf;
    ghost var g := fs.g;
    EqualFds(fs.fds);
    PhysTotal(g, fs.flash, fs.dir, fs.freeCursor, fs.N(), None);
    TrueCounts(g, fs.flash, fs.dir, fs.freeCursor, fs.N());
    CensusIs(g, fs.flash, fs.dir, fs.freeCursor, fs.N());
    LogStarts(fs.log, fs.dir);
    ghost var t;
    var blocks, scores;
    turn := Turn(fs.flash.lu, fs.eraseCount, fs.maxErase, 0);
    SomeCandidate(g, fs.flash.lu, fs.eraseCount, fs.maxErase, crammed);
    res := Ok;
    count, blocks, scores, t := FindCandidate(fs, crammed);
    if count == 0 {
      return;
    }
    TopIsBest(g, fs.flash.lu, fs.eraseCount, fs.maxErase, crammed, t, blocks.Length);
    var cand := blocks[0];
    turn := turn.(block := cand);
    BestUsed(fs, crammed, cand);
    res := CleanAndErase(fs, cand, log0, store0);
  }

  /** The turns taken since `log0`, from the first one on, whose tables and counters are those of `first`;
      the last one has left tables `l` and the erase counters. */
  ghost predicate Records(g: Geometry, first: Turn, turns: seq<Turn>, len: nat, log0: seq<Flash>, log: seq<Flash>,
                          l: map<Pix, Entry>, counts: seq<nat>, maxErase: nat)
  {
    && turns != [] && turns[0] == first.(block := turns[0].block)
    && Reclaimed(g, turns[|turns| - 1], l, counts, maxErase)
    && Attempts(g, first, turns, len, log0, log) && OnLog(log0, log, l)
  }

  /** As `Records`, whatever has become of the last turn. */
  ghost predicate Attempts(g: Geometry, first: Turn, turns: seq<Turn>, len: nat, log0: seq<Flash>, log: seq<Flash>) {
    && turns != [] && turns[0] == first.(block := turns[0].block) && Course(g, turns, len)
    && (forall i | 1 <= i < |turns| :: OnLog(log0, log, turns[i].lu))
    && Tried(g, first.lu, (first.counts, first.maxErase), log0, log)
  }

  /** After the turns a block that gains enough has been collected, and no more is wanted. */
  ghost predicate Fulfilled(g: Geometry, first: Turn, turns: seq<Turn>, tidy: bool, len: nat, l: map<Pix, Entry>) {
    forall b: nat | Gains(g, first.lu, first.counts, first.maxErase, tidy, len, b) ::
      |turns| == 1 && !Wanting(g, l, len) && QuotaAt(g, l) >= QuotaAt(g, first.lu) + Gain(g, first.lu, b)
  }

  ghost predicate NoGain(g: Geometry, first: Turn, tidy: bool, len: nat) {
    forall b: nat :: !Gains(g, first.lu, first.counts, first.maxErase, tidy, len, b)
  }

  lemma FirstTurn(fs: Spiffs, first: Turn, turn: Turn, tidy: bool, len: nat, log0: seq<Flash>)
    requires turn == first.(block := turn.block)
    requires Best(fs.g, turn.lu, turn.counts, turn.maxErase, QuotaAt(fs.g, turn.lu) <= 0, turn.block)
    requires tidy ==> Settled(fs.g, fs.dir.fill, fs.freeCursor, None)
    requires fs.Phys() && Reclaimed(fs.g, turn, fs.flash.lu, fs.eraseCount, fs.maxErase)
    requires |log0| < |fs.log| && fs.log[|fs.log| - 1] == fs.flash
    ensures Records(fs.g, first, [turn], len, log0, fs.log, fs.flash.lu, fs.eraseCount, fs.maxErase)
    ensures Fulfilled(fs.g, first, [turn], tidy, len, fs.flash.lu)
  {
    hide PhysOk, Best, Reclaimed, Settled, QuotaAt, Gains, Gain, Wanting, Tried, InVain;
    TriedNow(fs.g, turn, log0, fs.log, fs.flash, fs.eraseCount, fs.maxErase);
    forall b: nat | Gains(fs.g, first.lu, first.counts, first.maxErase, tidy, len, b)
      ensures !Wanting(fs.g, fs.flash.lu, len) && QuotaAt(fs.g, fs.flash.lu) >= QuotaAt(fs.g, first.lu) + Gain(fs.g, first.lu, b)
    {
      GainsMet(fs, turn, tidy, len, b);
    }
  }

  lemma NextTurn(g: Geometry, first: Turn, turns: seq<Turn>, turn: Turn, len: nat, log0: seq<Flash>, log1: seq<Flash>, log2: seq<Flash>)
    requires Records(g, first, turns, len, log0, log1, turn.lu, turn.counts, turn.maxErase) && !Ended(g, turns, turn.lu, len)
    requires Best(g, turn.lu, turn.counts, turn.maxErase, QuotaAt(g, turn.lu) <= 0, turn.block)
    requires Extends(log0, log1) && Extends(log1, log2)
    ensures Attempts(g, first, turns + [turn], len, log0, log2)
  {
    hide Best, Reclaimed, Wanting, InVain, Tried, OnLog, Course, Extends;
    TurnTaken(g, turns, turn, len, log0, log1, log2);
    TriedLonger(g, first.lu, (first.counts, first.maxErase), log0, log1, log2);
  }

  lemma NextErased(fs: Spiffs, first: Turn, turns: seq<Turn>, turn: Turn, len: nat, log0: seq<Flash>, tidy: bool, l: map<Pix, Entry>)
    requires turns != [] && Fulfilled(fs.g, first, turns, tidy, len, turn.lu) && !Ended(fs.g, turns, turn.lu, len)
    requires Attempts(fs.g, first, turns + [turn], len, log0, fs.log) && Reclaimed(fs.g, turn, fs.flash.lu, fs.eraseCount, fs.maxErase)
    requires |log0| < |fs.log| && fs.log[|fs.log| - 1] == fs.flash
    ensures Records(fs.g, first, turns + [turn], len, log0, fs.log, fs.flash.lu, fs.eraseCount, fs.maxErase)
    ensures Fulfilled(fs.g, first, turns + [turn], tidy, len, l)
  {
    hide Best, Reclaimed, Wanting, InVain, Tried, Course, Gains, Gain, QuotaAt;
  }

  /** Collects the best candidate, if there is one, as the next of the turns recorded. */
  method TakeTurn(fs: Spiffs, crammed: bool, ghost first: Turn, ghost before: seq<Turn>, ghost tidy: bool, ghost len: nat,
                  ghost log0: seq<Flash>, ghost store0: map<Key, Body>)
    returns (count: nat, res: Status, ghost turns: seq<Turn>)
    requires fs.Valid() && crammed == (FreeQuota(fs.g, fs.N()) <= 0)
    requires LogSafe(log0, fs.log, store0) && SameData(fs.dir, store0)
    requires tidy ==> Settled(fs.g, fs.dir.fill, fs.freeCursor, None)
    requires before == [] ==> first == Turn(fs.flash.lu, fs.eraseCount, fs.maxErase, 0)
    requires before != [] ==> Records(fs.g, first, before, len, log0, fs.log, fs.flash.lu, fs.eraseCount, fs.maxErase)
    requires before != [] ==> Fulfilled(fs.g, first, before, tidy, len, fs.flash.lu) && !Ended(fs.g, before, fs.flash.lu, len)
    modifies fs
    ensures fs.Phys() && fs.files == old(fs.files) && !fs.cleaning && LogSafe(log0, fs.log, store0)
    ensures res.Ok? || res == NotFound
    ensures res.Ok? ==> fs.Valid() && SameData(fs.dir, store0) && (tidy ==> Settled(fs.g, fs.dir.fill, fs.freeCursor, None))
    ensures SameFds(old(fs.fds), fs.fds)
    ensures count == 0 <==> old(fs.pDeleted) == 0
    ensures count == 0 ==> res.Ok? && turns == before && fs.Now() == old(fs.Now()) && fs.log == old(fs.log) && fs.Wear() == old(fs.Wear())
    ensures count > 0 ==> |turns| == |before| + 1 && Attempts(fs.g, first, turns, len, log0, fs.log)
    ensures count > 0 ==> turns[|before|].lu == old(fs.flash.lu)
    ensures count > 0 && res.Ok? ==> Records(fs.g, first, turns, len, log0, fs.log, fs.flash.lu, fs.eraseCount, fs.maxErase)
    ensures count > 0 && res.Ok? ==> Fulfilled(fs.g, first, turns, tidy, len, fs.flash.lu)
    ensures res == NotFound ==> count > 0 && !Room(turns[|before|].lu, turns[|before|].block, 0)
    ensures res == NotFound ==> NoGain(fs.g, first, tidy, len)
  {
    hide PhysOk, LogicOk, Settled, LogSafe, SameData, SameFds, Best, Reclaimed, Room, Extends, QuotaAt, Wanting, InVain, Records, Attempts, Fulfilled, FreeQuota, NoGain;
    ghost var log1 := fs.log;
    SafeExtends(log0, log1, store0);
    ghost var turn: Turn;
    count, res, turn := CollectBest(fs, crammed, log0, store0);
    turns := before;
    if count == 0 {
      return;
    }
    SafeExtends(log0, fs.log, store0);
    Longer(log0, log1, fs.log);
    turns := before + [turn];
    if before == [] {
      assert turns == [turn];
      if res.Ok? {
        FirstTurn(fs, first, turn, tidy, len, log0);
        RecordsMean(fs.g, first, turns, len, log0, fs.log, fs.flash.lu, fs.eraseCount, fs.maxErase);
      } else {
        FailedTurn(fs.g, first, turn, tidy, len, log0, fs.log);
      }
    } else {
      NextTurn(fs.g, first, before, turn, len, log0, log1, fs.log);
      NothingGained(fs.g, first, before, tidy, len, turn.lu);
      if res.Ok? {
        NextErased(fs, first, before, turn, len, log0, tidy, fs.flash.lu);
      }
    }
  }

  lemma Longer(log0: seq<Flash>, log1: seq<Flash>, log2: seq<Flash>)
    requires Extends(log0, log1)
    ensures |log1| < |log2| ==> |log0| < |log2|
  {
  }

  /** Collects blocks until there is room for `len` bytes, or nothing more can be done. */
  method GcRuns(fs: Spiffs, len: nat, needed: nat) returns (res: Status, ghost turns: seq<Turn>)
    requires fs.Valid() && needed == DataPages(fs.g, len)
    modifies fs
    ensures fs.Phys() && fs.files == old(fs.files) && !fs.cleaning && LogSafe(old(fs.log), fs.log, old(fs.dir.store))
    ensures res.Ok? || res == Full || res == NotFound
    ensures res != NotFound ==> fs.Valid() && SameData(fs.dir, old(fs.dir.store))
    ensures res != NotFound && old(Settled(fs.g, fs.dir.fill, fs.freeCursor, None)) ==> Settled(fs.g, fs.dir.fill, fs.freeCursor, None)
    ensures SameFds(old(fs.fds), fs.fds)
    ensures turns == [] <==> old(fs.pDeleted) == 0
    ensures turns == [] ==> fs.Now() == old(fs.Now()) && fs.log == old(fs.log) && fs.Wear() == old(fs.Wear())
    ensures turns == [] ==> res == if needed < FreeQuota(fs.g, fs.N()) then Ok else Full
    ensures turns != [] ==> Attempts(fs.g, Turn(old(fs.flash.lu), old(fs.eraseCount), old(fs.maxErase), 0), turns, len, old(fs.log), fs.log)
    ensures |turns| <= GC_MAX_RUNS
    ensures turns != [] && res != NotFound ==> Reclaimed(fs.g, turns[|turns| - 1], fs.flash.lu, fs.eraseCount, fs.maxErase)
    ensures res == NotFound ==> turns != [] && !Room(turns[|turns| - 1].lu, turns[|turns| - 1].block, 0)
    ensures turns != [] && res != NotFound ==>
              if Ended(fs.g, turns, fs.flash.lu, len) then res == if len <= FreeQuota(fs.g, fs.N()) * fs.g.dataSize then Ok else Full
              else fs.pDeleted == 0 && res == if needed < FreeQuota(fs.g, fs.N()) then Ok else Full
    ensures res == NotFound ==>
              NoGain(fs.g, Turn(old(fs.flash.lu), old(fs.eraseCount), old(fs.maxErase), 0), old(Settled(fs.g, fs.dir.fill, fs.freeCursor, None)), len)
    ensures turns != [] && res != NotFound ==>
              Fulfilled(fs.g, Turn(old(fs.flash.lu), old(fs.eraseCount), old(fs.maxErase), 0), turns,
                        old(Settled(fs.g, fs.dir.fill, fs.freeCursor, None)), len, fs.flash.lu)
  {
    hide PhysOk, LogicOk, Settled, LogSafe, SameData, SameFds, DataPages, Best, Reclaimed, Room, BlankBlocks, Records, Attempts, Fulfilled, NoGain;
    EqualFds(fs.fds);
    ghost var g, log0, store0, tidy := fs.g, fs.log, fs.dir.store, Settled(fs.g, fs.dir.fill, fs.freeCursor, None);
    ghost var first := Turn(fs.flash.lu, fs.eraseCount, fs.maxErase, 0);
    StartsSafe(fs.log, fs.dir, g, fs.flash, fs.freeCursor, fs.N());
    turns := [];
    var free := fs.g.entries * (fs.g.blocks - 2) - fs.pAllocated - fs.pDeleted;
    var tries := 0;
    var again := true;
    while again
      invariant 0 <= tries <= GC_MAX_RUNS && (again ==> tries < GC_MAX_RUNS && |turns| == tries) && |turns| <= GC_MAX_RUNS
      invariant fs.Valid() && fs.files == old(fs.files) && LogSafe(log0, fs.log, store0) && SameData(fs.dir, store0)
      invariant tidy ==> Settled(g, fs.dir.fill, fs.freeCursor, None)
      invariant SameFds(old(fs.fds), fs.fds)
      invariant free == FreeQuota(g, fs.N())
      invariant turns == [] ==> again && fs.Now() == old(fs.Now()) && fs.log == old(fs.log) && fs.Wear() == old(fs.Wear())
      invariant turns != [] ==> old(fs.pDeleted) != 0 && (again <==> !Ended(g, turns, fs.flash.lu, len))
      invariant turns != [] ==> Records(g, first, turns, len, log0, fs.log, fs.flash.lu, fs.eraseCount, fs.maxErase)
      invariant turns != [] ==> Fulfilled(g, first, turns, tidy, len, fs.flash.lu)
      decreases GC_MAX_RUNS - tries, again
    {
      var prev := free;
      ghost var fds := fs.fds;
      CensusIs(g, fs.flash, fs.dir, fs.freeCursor, fs.N());
      // if the file system is crammed, block age is ignored
      var count;
      count, res, turns := TakeTurn(fs, free <= 0, first, turns, tidy, len, log0, store0);
      SameFdsChain(old(fs.fds), fds, fs.fds);
      if count == 0 {
        RecordsMean(g, first, turns, len, log0, fs.log, fs.flash.lu, fs.eraseCount, fs.maxErase);
        res := if needed < free then Ok else Full;
        return;
      }
      if !res.Ok? {
        return;
      }
      CensusIs(g, fs.flash, fs.dir, fs.freeCursor, fs.N());
      free := fs.g.entries * (fs.g.blocks - 2) - fs.pAllocated - fs.pDeleted;
      if prev <= 0 && prev == free {
        // abort early to reduce wear, at least tried once
        again := false;
      } else {
        tries := tries + 1;
        again := tries < GC_MAX_RUNS && (fs.freeBlocks <= 2 || len > free * fs.g.dataSize);
      }
    }
    RecordsMean(g, first, turns, len, log0, fs.log, fs.flash.lu, fs.eraseCount, fs.maxErase);
    CensusIs(g, fs.flash, fs.dir, fs.freeCursor, fs.N());
    res := if len > free * fs.g.dataSize then Full else Ok;
  }

  lemma SafeExtends(log0: seq<Flash>, log: seq<Flash>, store0: map<Key, Body>)
    requires LogSafe(log0, log, store0)
    ensures Extends(log0, log)
  {
  }

  lemma FailedTurn(g: Geometry, first: Turn, turn: Turn, tidy: bool, len: nat, log0: seq<Flash>, log: seq<Flash>)
    requires turn == first.(block := turn.block) && !Room(turn.lu, turn.block, 0)
    requires Best(g, turn.lu, turn.counts, turn.maxErase, QuotaAt(g, turn.lu) <= 0, turn.block)
    ensures Attempts(g, first, [turn], len, log0, log) && NoGain(g, first, tidy, len)
  {
    hide Best, Reclaimed, Wanting, InVain, Tried, Room, QuotaAt, Gain;
    TriedNow(g, turn, log0, log, Flash(map[], map[]), [], 0);
    forall b: nat
      ensures !Gains(g, first.lu, first.counts, first.maxErase, tidy, len, b)
    {
      if Best(g, turn.lu, turn.counts, turn.maxErase, QuotaAt(g, turn.lu) <= 0, b) {
        BestOne(g, turn.lu, turn.counts, turn.maxErase, QuotaAt(g, turn.lu) <= 0, turn.block, b);
      }
    }
  }

  lemma NothingGained(g: Geometry, first: Turn, turns: seq<Turn>, tidy: bool, len: nat, l: map<Pix, Entry>)
    requires turns != [] && Fulfilled(g, first, turns, tidy, len, l) && !Ended(g, turns, l, len)
    ensures NoGain(g, first, tidy, len)
  {
    hide Wanting, Gains;
  }

  lemma RecordsMean(g: Geometry, first: Turn, turns: seq<Turn>, len: nat, log0: seq<Flash>, log: seq<Flash>,
                    l: map<Pix, Entry>, counts: seq<nat>, maxErase: nat)
    ensures Records(g, first, turns, len, log0, log, l, counts, maxErase) ==>
              turns != [] && Attempts(g, first, turns, len, log0, log) && Reclaimed(g, turns[|turns| - 1], l, counts, maxErase)
  {
  }

  /** Makes room for `len` bytes, collecting blocks if need be; `turns` are those that it tried. FULL leaves
      everything in order; NOT_FOUND means that there was too little room to clean the last of them. */
  method GcCheck(fs: Spiffs, len: nat) returns (res: Status, ghost turns: seq<Turn>)
    requires fs.Valid()
    modifies fs
    ensures fs.Phys() && fs.files == old(fs.files) && !fs.cleaning && LogSafe(old(fs.log), fs.log, old(fs.dir.store))
    ensures res.Ok? || res == Full || res == NotFound
    ensures res != NotFound ==> fs.Valid() && SameData(fs.dir, old(fs.dir.store))
    ensures res != NotFound && old(Settled(fs.g, fs.dir.fill, fs.freeCursor, None)) ==> Settled(fs.g, fs.dir.fill, fs.freeCursor, None)
    ensures SameFds(old(fs.fds), fs.fds)
    // without collecting anything
    ensures Passes(fs.g, old(fs.N()), len) ==> res.Ok?
    ensures Refused(fs.g, old(fs.N()), len) ==> res == Full
    ensures turns != [] <==> Undecided(fs.g, old(fs.N()), len)
    ensures turns == [] ==> fs.Now() == old(fs.Now()) && fs.log == old(fs.log) && fs.Wear() == old(fs.Wear())
    // with collecting
    ensures Course(fs.g, turns, len) && |turns| <= GC_MAX_RUNS
    ensures turns != [] ==> turns[0] == Turn(old(fs.flash.lu), old(fs.eraseCount), old(fs.maxErase), turns[0].block)
    ensures forall i | 1 <= i < |turns| :: OnLog(old(fs.log), fs.log, turns[i].lu)
    ensures turns != [] && res != NotFound ==> Reclaimed(fs.g, turns[|turns| - 1], fs.flash.lu, fs.eraseCount, fs.maxErase)
    ensures res == NotFound ==> turns != [] && !Room(turns[|turns| - 1].lu, turns[|turns| - 1].block, 0)
    ensures turns != [] ==> Tried(fs.g, old(fs.flash.lu), old(fs.Wear()), old(fs.log), fs.log)
    // the result
    ensures res.Ok? ==> len <= FreeQuota(fs.g, fs.N()) * fs.g.dataSize
    ensures turns != [] && res != NotFound ==>
              if Ended(fs.g, turns, fs.flash.lu, len) then res.Ok? <==> len <= FreeQuota(fs.g, fs.N()) * fs.g.dataSize
              else fs.pDeleted == 0 && (res.Ok? <==> DataPages(fs.g, len) < FreeQuota(fs.g, fs.N()))
    ensures forall b: nat | old(Pays(fs, len, b)) :: res.Ok? && |turns| == 1 && FreeQuota(fs.g, fs.N()) >= old(Prospect(fs, b))
  {
    hide PhysOk, LogicOk, Settled, LogSafe, SameData, InBlock, Eligible, SameFds, DataPages, Best, Reclaimed, Room, Extends, BlankBlocks,
         Gain, Gains, Course, OnLog, Tried;
    EqualFds(fs.fds);
    ghost var g, n0 := fs.g, fs.N();
    StartsSafe(fs.log, fs.dir, g, fs.flash, fs.freeCursor, fs.N());
    turns := [];
    NoTurns(g, len);
    PagesNeeded(g, len);
    var free := fs.g.entries * (fs.g.blocks - 2) - fs.pAllocated - fs.pDeleted;
    if fs.freeBlocks > 3 && len < free * fs.g.dataSize {
      res := Ok;
      return;
    }
    var needed := (len + fs.g.dataSize - 1) / fs.g.dataSize;
    if needed > free + fs.pDeleted {
      res := Full;
      return;
    }
    ghost var tidy, l := Settled(g, fs.dir.fill, fs.freeCursor, None), fs.flash.lu;
    CensusIs(g, fs.flash, fs.dir, fs.freeCursor, fs.N());
    res, turns := GcRuns(fs, len, needed);
    CensusIs(g, fs.flash, fs.dir, fs.freeCursor, fs.N());
    forall b: nat | turns != [] && Gains(g, l, old(fs.eraseCount), old(fs.maxErase), tidy, len, b)
      ensures res.Ok? && |turns| == 1 && FreeQuota(g, fs.N()) >= FreeQuota(g, n0) + Gain(g, l, b)
    {
    }
    if res.Ok? && needed < FreeQuota(g, fs.N()) {
      PagesCover(g, len, FreeQuota(g, fs.N()));
    }
  }

  lemma NoTurns(g: Geometry, len: nat)
    ensures Course(g, [], len)
  {
  }

  lemma TrueCounts(g: Geometry, f: Flash, d: Dir, c: Pix, n: Counts)
    requires PhysOk(g, f, d, c, n, None)
    ensures n.dead == |DeletedPages(f.lu)| && n.live == |LivePages(f.lu)|
  {
  }
}
