/** Counting pages: conservation of lookup entries, and what room the free quota leaves. */
module Tally {
  import opened Options
  import opened Layout
  import opened Catalog
  import opened Files
  import opened Store

  ghost function Sum(fill: seq<nat>, n: nat): nat
    requires n <= |fill|
  {
    if n == 0 then 0 else Sum(fill, n - 1) + fill[n - 1]
  }

  /** The first `fill[b]` entries of every block `b` below `n`. */
  ghost function Cells(fill: seq<nat>, n: nat): set<Pix>
    requires n <= |fill|
  {
    set b: nat, e: nat | b < n && e < fill[b] :: Pix(b, e)
  }

  ghost function Column(b: nat, n: nat): set<Pix> {
    set e: nat | e < n :: Pix(b, e)
  }

  lemma {:induction false} ColumnSize(b: nat, n: nat)
    ensures |Column(b, n)| == n
  {
    if n > 0 {
      ColumnSize(b, n - 1);
      assert Column(b, n) == Column(b, n - 1) + {Pix(b, n - 1)};
    }
  }

  lemma {:induction false} CellsSize(fill: seq<nat>, n: nat)
    requires n <= |fill|
    ensures |Cells(fill, n)| == Sum(fill, n)
  {
    if n > 0 {
      CellsSize(fill, n - 1);
      ColumnSize(n - 1, fill[n - 1]);
      assert Cells(fill, n) == Cells(fill, n - 1) + Column(n - 1, fill[n - 1]);
    } else {
      assert Cells(fill, n) == {};
    }
  }

  lemma {:induction false} FullSum(entries: nat, fill: seq<nat>, n: nat)
    requires n <= |fill| && forall b | 0 <= b < n :: fill[b] == entries
    ensures Sum(fill, n) == n * entries
  {
    if n > 0 {
      FullSum(entries, fill, n - 1);
      assert n * entries == (n - 1) * entries + entries;
    }
  }

  ghost function FreePages(l: map<Pix, Entry>): set<Pix> {
    set p | p in l && l[p].Free?
  }

  /** The counters are the true numbers of live and deleted entries, and with the free ones they
      make up every lookup entry of the file system. */
  lemma Conservation(g: Geometry, f: Flash, d: Dir, c: Pix, n: Counts)
    requires PhysOk(g, f, d, c, n, None)
    ensures n.live == |LivePages(f.lu)| && n.dead == |DeletedPages(f.lu)|
    ensures n.live + n.dead + |FreePages(f.lu)| == g.blocks * g.entries
    ensures |d.fill| == g.blocks && n.live + n.dead == Sum(d.fill, |d.fill|)
  {
    hide CatalogOk, Sum;
    PhysTotal(g, f, d, c, n, None);
    AllCells(g, f.lu);
    CellsSize(d.fill, |d.fill|);
    UsedCells(g, f.lu, d.fill);
  }

  lemma UsedCell(g: Geometry, l: map<Pix, Entry>, fill: seq<nat>, p: Pix)
    requires Total(g, l) && ShapeOk(g, l, fill)
    ensures p in Cells(fill, |fill|) <==> p in l && !l[p].Free?
  {
    if p in l {
      assert p.entry < fill[p.bix] <==> !l[p].Free?;
      assert p == Pix(p.bix, p.entry);
    } else {
      assert !g.In(p);
    }
  }

  lemma UsedCells(g: Geometry, l: map<Pix, Entry>, fill: seq<nat>)
    requires Total(g, l) && ShapeOk(g, l, fill)
    ensures |LivePages(l)| + |DeletedPages(l)| == |Cells(fill, |fill|)|
  {
    hide ShapeOk, Total, Cells;
    forall p
      ensures p in Cells(fill, |fill|) <==> p in l && !l[p].Free?
    {
      UsedCell(g, l, fill, p);
    }
    Kinds(l);
    assert LivePages(l) + DeletedPages(l) == Cells(fill, |fill|);
  }

  lemma Kinds(l: map<Pix, Entry>)
    ensures forall p :: p in LivePages(l) + DeletedPages(l) <==> p in l && !l[p].Free?
    ensures |LivePages(l) + DeletedPages(l)| == |LivePages(l)| + |DeletedPages(l)|
    ensures |LivePages(l) + DeletedPages(l) + FreePages(l)| == |LivePages(l)| + |DeletedPages(l)| + |FreePages(l)|
  {
  }

  lemma AllCells(g: Geometry, l: map<Pix, Entry>)
    requires Total(g, l)
    ensures |LivePages(l)| + |DeletedPages(l)| + |FreePages(l)| == g.blocks * g.entries
  {
    var all := seq(g.blocks, _ => g.entries);
    CellsSize(all, |all|);
    FullSum(g.entries, all, |all|);
    Kinds(l);
    Everything(g, l, all);
  }

  lemma Everything(g: Geometry, l: map<Pix, Entry>, all: seq<nat>)
    requires Total(g, l) && all == seq(g.blocks, _ => g.entries)
    ensures LivePages(l) + DeletedPages(l) + FreePages(l) == Cells(all, |all|)
  {
    forall p
      ensures p in l <==> p in Cells(all, |all|)
    {
      assert p in l <==> g.In(p);
      assert p == Pix(p.bix, p.entry);
    }
  }

  ghost function FreeBelow(fill: seq<nat>, n: nat): set<nat>
    requires n <= |fill|
  {
    set b: nat | b < n && fill[b] == 0
  }

  /** With only the cursor's block partly filled, the used entries tell the free blocks. */
  lemma {:induction false} SettledSum(g: Geometry, fill: seq<nat>, c: Pix, n: nat)
    requires g.Ok() && Settled(g, fill, c, None) && n <= |fill| && c.bix < |fill| && fill[c.bix] <= g.entries
    ensures var part := c.bix < n && 0 < fill[c.bix];
            Sum(fill, n) >= (n - |FreeBelow(fill, n)| - (if part then 1 else 0)) * g.entries + if part then 1 else 0
  {
    if n == 0 {
      assert FreeBelow(fill, n) == {};
    } else {
      SettledSum(g, fill, c, n - 1);
      if fill[n - 1] == 0 {
        assert FreeBelow(fill, n) == FreeBelow(fill, n - 1) + {n - 1};
      } else {
        assert FreeBelow(fill, n) == FreeBelow(fill, n - 1);
        if n - 1 != c.bix {
          var part := c.bix < n && 0 < fill[c.bix];
          var m := n - 1 - |FreeBelow(fill, n - 1)| - if part then 1 else 0;
          assert (m + 1) * g.entries == m * g.entries + g.entries;
        }
      }
    }
  }

  /** Usable pages that are neither allocated nor deleted: two blocks are kept in reserve. */
  function FreeQuota(g: Geometry, n: Counts): int {
    g.entries * (g.blocks - 2) - n.live - n.dead
  }

  /** As long as the quota is not overdrawn, two blocks are free: the next page allocation succeeds.
      Every further block's worth of quota is one free block more. */
  lemma QuotaRoom(g: Geometry, f: Flash, d: Dir, c: Pix, n: Counts, m: nat)
    requires g.Ok() && PhysOk(g, f, d, c, n, None) && Settled(g, d.fill, c, None)
    requires FreeQuota(g, n) >= m * g.entries
    ensures n.freeBlocks >= m + 2
  {
    Conservation(g, f, d, c, n);
    hide CatalogOk;
    SettledSum(g, d.fill, c, |d.fill|);
    assert FreeBelow(d.fill, |d.fill|) == FreeBlocks(d.fill);
    Reserve(g.entries, g.blocks, m);
    Overdrawn(g.blocks, g.entries, n.freeBlocks, if 0 < d.fill[c.bix] then 1 else 0, n.live + n.dead, m);
  }

  lemma Reserve(entries: int, blocks: int, m: int)
    ensures entries * (blocks - 2) - m * entries == (blocks - 2 - m) * entries
  {
  }

  lemma Overdrawn(blocks: int, entries: nat, free: int, part: int, used: int, m: nat)
    requires entries >= 1 && 0 <= part <= 1
    requires (blocks - free - part) * entries + part <= used <= (blocks - 2 - m) * entries
    ensures free >= m + 2
  {
    assert (blocks - 1 - m) * entries == (blocks - 2 - m) * entries + entries;
    if free < m + 2 {
      MulMonotone(blocks - 1 - m - part, blocks - free - part, entries);
    }
  }
}
