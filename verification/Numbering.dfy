/** Page numbers and lookup tables on the flash: how the (block, entry) addresses of the model relate to
    the page numbers of the code, and that lookup entries and erase counters do not meet
    (the layout macros of spiffs_nucleus.h). */
module Numbering {
  import opened Layout

  const SIZEOF_ID := 2

  /** Page size, pages per block, and blocks. */
  datatype Config = Config(pageSize: nat, perBlock: nat, blocks: nat) {
    /** Number of lookup pages at the start of each block. */
    function LookupPages(): nat
      requires pageSize > 0
    {
      if perBlock * SIZEOF_ID / pageSize > 1 then perBlock * SIZEOF_ID / pageSize else 1
    }

    function MaxPages(): nat {
      blocks * perBlock
    }

    predicate Ok() {
      pageSize > 0 && perBlock > 0 && LookupPages() < perBlock
    }

    function Entries(): nat
      requires Ok()
    {
      perBlock - LookupPages()
    }

    predicate IsLookup(pix: nat)
      requires Ok()
    {
      pix % perBlock < LookupPages()
    }

    /** Number of the page of a lookup entry. */
    function Number(p: Pix): nat
      requires Ok()
    {
      p.bix * perBlock + LookupPages() + p.entry
    }

    /** Lookup entry of a page. */
    function EntryOf(pix: nat): Pix
      requires Ok() && !IsLookup(pix)
    {
      Pix(pix / perBlock, pix % perBlock - LookupPages())
    }

    /** Lookup entries and pages that are not lookup pages correspond one to one. */
    lemma NumberOfEntry(p: Pix)
      requires Ok() && p.entry < Entries()
      ensures !IsLookup(Number(p)) && EntryOf(Number(p)) == p
      ensures Number(p) < MaxPages() <==> p.bix < blocks
    {
      QuotientUnique(Number(p), perBlock, p.bix);
      if p.bix < blocks {
        MulMonotone(p.bix + 1, blocks, perBlock);
        assert (p.bix + 1) * perBlock == p.bix * perBlock + perBlock;
      } else {
        MulMonotone(blocks, p.bix, perBlock);
      }
    }

    lemma EntryOfNumber(pix: nat)
      requires Ok() && !IsLookup(pix)
      ensures EntryOf(pix).entry < Entries() && Number(EntryOf(pix)) == pix
      ensures pix < MaxPages() <==> EntryOf(pix).bix < blocks
    {
      assert pix == (pix / perBlock) * perBlock + pix % perBlock;
      NumberOfEntry(EntryOf(pix));
    }

    /** Position, in ids from the start of the block, of the erase counter. */
    function CountSlot(): int
      requires Ok()
    {
      LookupPages() * pageSize / SIZEOF_ID - 1
    }

    /** The lookup pages hold the ids of a block's pages, up to a page's worth of them, and no fewer would do. */
    lemma LookupPagesFit()
      requires pageSize > 0 && perBlock > 0
      ensures LookupPages() >= 1 && (LookupPages() - 1) * pageSize < perBlock * SIZEOF_ID < (LookupPages() + 1) * pageSize
    {
      var n := perBlock * SIZEOF_ID;
      assert n == n / pageSize * pageSize + n % pageSize;
      assert (n / pageSize + 1) * pageSize == n / pageSize * pageSize + pageSize;
      assert (n / pageSize - 1) * pageSize == n / pageSize * pageSize - pageSize;
    }

    /** For sizes that are powers of two, every lookup entry lies before the erase counter. */
    lemma CountApart(x: nat, y: nat)
      requires Ok() && pageSize == Pow2(x) && perBlock == Pow2(y) && x >= 1
      ensures Entries() <= CountSlot()
    {
      var l := LookupPages();
      Halves(x);
      if perBlock * 2 <= pageSize {
        SmallQuotient(perBlock * 2, pageSize);
        assert l == 1;
      } else {
        if y + 1 < x {
          Pow2Grows(y + 1, x);
        }
        Pow2Product(y + 1 - x, x);
        QuotientUnique(perBlock * 2, pageSize, Pow2(y + 1 - x));
        assert l == Pow2(y + 1 - x);
        assert l * pageSize == perBlock * 2;
      }
    }
  }

  lemma SmallQuotient(a: nat, b: nat)
    requires b > 0 && a <= b
    ensures a / b <= 1
  {
    if a < b {
      QuotientUnique(a, b, 0);
    }
  }

  function Pow2(n: nat): nat {
    if n == 0 then 1 else 2 * Pow2(n - 1)
  }

  lemma Halves(x: nat)
    requires x >= 1
    ensures Pow2(x) / 2 * 2 == Pow2(x)
  {
  }

  lemma {:induction false} Pow2Grows(a: nat, b: nat)
    requires a <= b
    ensures 1 <= Pow2(a) <= Pow2(b)
  {
    if a < b {
      Pow2Grows(a, b - 1);
    } else if a > 0 {
      Pow2Grows(a - 1, a - 1);
    }
  }

  lemma {:induction false} Pow2Product(a: nat, b: nat)
    ensures Pow2(a + b) == Pow2(a) * Pow2(b)
  {
    if a > 0 {
      Pow2Product(a - 1, b);
      assert Pow2(a + b) == 2 * (Pow2(a - 1) * Pow2(b));
    }
  }

  /** With other sizes the last entry of a lookup table can be the erase counter itself: 130 pages of 256
      bytes in a block have one lookup page, of 128 ids, for 129 entries. */
  lemma CountMeetsEntry()
    ensures var c := Config(256, 130, 4); c.Ok() && c.Entries() > c.CountSlot()
  {
  }

  // ----- object ids -----

  const IX_FLAG := 0x8000

  /** What the 16 bits of a lookup entry say: all ones if free, all zeroes if deleted. */
  datatype Id = Unused | Erased | Object(id: nat, ix: bool)

  function Encode(e: Id): nat {
    match e
    case Unused => 0xffff
    case Erased => 0
    case Object(id, ix) => id + if ix then IX_FLAG else 0
  }

  function Decode(v: nat): Id {
    if v == 0xffff then Unused else if v == 0 then Erased else Object(v % IX_FLAG, v >= IX_FLAG)
  }

  /** Ids from 1 to 0x7ffe can be told apart from free and deleted entries, with and without index bit;
      0x7fff cannot, its index entries look free. */
  lemma EncodeDecode(e: Id)
    requires e.Object? ==> 1 <= e.id <= 0x7fff
    ensures Encode(e) <= 0xffff
    ensures Decode(Encode(e)) == e <==> e != Object(0x7fff, true)
  {
  }
}
