/** Layout arithmetic of the flash file system: pages, blocks, lookup entries and
    the two-level index of a file (spiffs_nucleus.h).

    The file system proper addresses a page by its block and its entry in that
    block's lookup table; `Config` relates this to the page numbers of the code. */
module Layout {

  /** A page that can hold data or index: lookup entry `entry` of block `bix`. */
  datatype Pix = Pix(bix: nat, entry: nat)

  /** What the layout macros leave for the file system to work with. */
  datatype Geometry = Geometry(
    blocks: nat,      // number of logical blocks
    entries: nat,     // lookup entries (data or index pages) per block
    dataSize: nat,    // payload bytes of a data page
    hdrLen: nat,      // index entries of an object index header page
    ixLen: nat        // index entries of an object index page
  ) {
    /** At least three blocks of two entries, and pages that can hold an index header with an
        entry: 5 bytes of page header and 41 more. */
    predicate Ok() {
      blocks >= 3 && entries >= 2 && dataSize >= 41 && hdrLen >= 1 && ixLen >= 1
    }

    predicate In(p: Pix) {
      p.bix < blocks && p.entry < entries
    }

    function Next(b: nat): nat {
      if b + 1 >= blocks then 0 else b + 1
    }

    /** Steps from block `from` to block `to`, going upwards and wrapping. */
    function Dist(from: nat, to: nat): int {
      if to >= from then to - from else to + blocks - from
    }

    /** Where a search that starts at `start` looks first. */
    function Begin(start: Pix): Pix {
      if start.entry + 1 >= entries then Pix(Next(start.bix), 0) else start
    }

    /** Position of a page in the visiting order of a search from `start`. */
    function Lap(start: Pix, p: Pix): int {
      var b := Begin(start);
      if p.bix == b.bix && p.entry < b.entry then blocks else Dist(b.bix, p.bix)
    }

    predicate Earlier(start: Pix, q: Pix, p: Pix) {
      Lap(start, q) < Lap(start, p) || (Lap(start, q) == Lap(start, p) && q.entry < p.entry)
    }

    /** First byte of data span `k`. */
    function Start(k: nat): nat {
      if k == 0 then 0 else Start(k - 1) + dataSize
    }

    /** Data span that holds byte `offset`. */
    function PageOf(offset: nat): nat
      requires dataSize >= 1
    {
      if offset < dataSize then 0 else 1 + PageOf(offset - dataSize)
    }

    /** Number of data pages of a file of `size` bytes. */
    function Pages(size: nat): nat
      requires dataSize >= 1
    {
      if size == 0 then 0 else 1 + PageOf(size - 1)
    }

    /** Index entries held by the index page of span `s`. */
    function IxLen(s: nat): nat {
      if s == 0 then hdrLen else ixLen
    }

    /** First data span indexed by the index page of span `s`. */
    function Base(s: nat): nat {
      if s == 0 then 0 else Base(s - 1) + IxLen(s - 1)
    }

    /** Span of the index page that refers to data span `k`. */
    function IxSpan(k: nat): nat
      requires ixLen >= 1
    {
      if k < hdrLen then 0 else if k < hdrLen + ixLen then 1 else 1 + IxSpan(k - ixLen)
    }

    /** Entry of data span `k` in the index page that refers to it. */
    function IxSlot(k: nat): nat
      requires ixLen >= 1
    {
      if k < hdrLen then k else if k < hdrLen + ixLen then k - hdrLen else IxSlot(k - ixLen)
    }

    lemma {:induction false} StartIsProduct(k: nat)
      ensures Start(k) == k * dataSize
    {
      if k > 0 { StartIsProduct(k - 1); }
    }

    lemma {:induction false} StartMonotone(j: nat, k: nat)
      requires j <= k
      ensures Start(j) <= Start(k)
      ensures j < k ==> Start(j) + dataSize <= Start(k)
    {
      if j < k { StartMonotone(j, k - 1); }
    }

    lemma {:induction false} PageOfBounds(offset: nat)
      requires dataSize >= 1
      ensures Start(PageOf(offset)) <= offset < Start(PageOf(offset)) + dataSize
    {
      if offset >= dataSize {
        PageOfBounds(offset - dataSize);
        StartShift(PageOf(offset - dataSize));
      }
    }

    lemma {:induction false} StartShift(k: nat)
      ensures Start(k + 1) == Start(k) + dataSize
    {
    }

    lemma {:induction false} PageOfUnique(offset: nat, k: nat)
      requires dataSize >= 1
      requires Start(k) <= offset < Start(k) + dataSize
      ensures PageOf(offset) == k
    {
      PageOfBounds(offset);
      if PageOf(offset) < k {
        StartMonotone(PageOf(offset), k);
      } else if k < PageOf(offset) {
        StartMonotone(k, PageOf(offset));
      }
    }

    /** The macros' division and remainder give the data span and the offset inside it. */
    lemma {:induction false} SplitOffset(offset: nat)
      requires dataSize >= 1
      ensures offset / dataSize == PageOf(offset)
      ensures Start(PageOf(offset)) + offset % dataSize == offset
    {
      PageOfBounds(offset);
      StartIsProduct(PageOf(offset));
      QuotientUnique(offset, dataSize, PageOf(offset));
    }

    /** Span `k` holds bytes of a file of `size` bytes exactly when it starts before its end. */
    lemma {:induction false} PagesBounds(size: nat, k: nat)
      requires dataSize >= 1
      ensures k < Pages(size) <==> Start(k) < size
    {
      if size > 0 {
        PageOfBounds(size - 1);
        if k <= PageOf(size - 1) {
          StartMonotone(k, PageOf(size - 1));
        } else {
          StartMonotone(PageOf(size - 1), k);
        }
      }
    }

    lemma {:induction false} BaseMonotone(s: nat, t: nat)
      requires s <= t
      ensures Base(s) <= Base(t)
      ensures s < t ==> Base(s) + IxLen(s) <= Base(t)
    {
      if s < t { BaseMonotone(s, t - 1); }
    }

    lemma {:induction false} BaseShift(s: nat)
      requires s >= 1
      ensures Base(s + 1) == Base(s) + ixLen
    {
    }

    /** The recursive first span agrees with the product of the macros. */
    lemma {:induction false} BaseFormula(s: nat)
      ensures Base(s) == if s == 0 then 0 else hdrLen + ixLen * (s - 1)
    {
      if s >= 2 {
        BaseFormula(s - 1);
        assert ixLen * (s - 1) == ixLen * (s - 2) + ixLen;
      } else if s == 1 {
        assert Base(1) == Base(0) + IxLen(0);
      }
    }

    lemma {:induction false} SlotBounds(k: nat)
      requires ixLen >= 1
      ensures IxSlot(k) < IxLen(IxSpan(k))
      ensures Base(IxSpan(k)) + IxSlot(k) == k
    {
      if k < hdrLen {
      } else if k < hdrLen + ixLen {
        assert Base(1) == Base(0) + IxLen(0);
      } else {
        SlotBounds(k - ixLen);
        assert IxSpan(k - ixLen) >= 1;
        BaseShift(IxSpan(k - ixLen));
      }
    }

    /** Every data span has one place in the two-level index, and every place one span. */
    lemma {:induction false} SlotUnique(s: nat, j: nat, k: nat)
      requires ixLen >= 1
      requires j < IxLen(s)
      ensures Base(s) + j == k <==> s == IxSpan(k) && j == IxSlot(k)
    {
      SlotBounds(k);
      if Base(s) + j == k {
        if s < IxSpan(k) {
          BaseMonotone(s, IxSpan(k));
        } else if IxSpan(k) < s {
          BaseMonotone(IxSpan(k), s);
        }
      }
    }

    lemma IxSpanStep(k: nat)
      requires ixLen >= 1 && hdrLen >= 1
      ensures IxSpan(k) <= IxSpan(k + 1) <= IxSpan(k) + 1
      ensures IxSpan(k) == IxSpan(k + 1) ==> IxSlot(k + 1) == IxSlot(k) + 1
      ensures IxSpan(k) < IxSpan(k + 1) ==> Base(IxSpan(k + 1)) == k + 1
    {
      SlotBounds(k);
      SlotBounds(k + 1);
      var s, t := IxSpan(k), IxSpan(k + 1);
      if t < s {
        BaseMonotone(t, s);
      } else if s + 1 < t {
        BaseMonotone(s, s + 1);
        BaseMonotone(s + 1, t);
      }
      if s + 1 == t {
        assert Base(t) == Base(s) + IxLen(s);
      }
    }

    lemma {:induction false} IxSpanMonotone(j: nat, k: nat)
      requires ixLen >= 1 && hdrLen >= 1 && j <= k
      ensures IxSpan(j) <= IxSpan(k)
    {
      if j < k {
        IxSpanMonotone(j, k - 1);
        IxSpanStep(k - 1);
      }
    }

    /** The recursive span and slot agree with the quotient and remainder of the macros. */
    lemma {:induction false} SpanFormula(k: nat)
      requires ixLen >= 1
      ensures IxSpan(k) == if k < hdrLen then 0 else 1 + (k - hdrLen) / ixLen
      ensures IxSlot(k) == if k < hdrLen then k else (k - hdrLen) % ixLen
    {
      if k >= hdrLen + ixLen {
        SpanFormula(k - ixLen);
        QuotientStep(k - hdrLen, ixLen);
      } else if k >= hdrLen {
        QuotientUnique(k - hdrLen, ixLen, 0);
      }
    }
  }

  lemma QuotientUnique(n: nat, d: nat, q: nat)
    requires d >= 1
    requires q * d <= n < q * d + d
    ensures n / d == q
    ensures n % d == n - q * d
  {
    var r := n / d;
    assert r * d <= n < r * d + d;
    if r < q {
      MulMonotone(r + 1, q, d);
    } else if q < r {
      MulMonotone(q + 1, r, d);
    }
  }

  lemma MulMonotone(a: int, b: int, d: nat)
    requires a <= b
    ensures a * d <= b * d
  {
  }

  lemma QuotientStep(n: nat, d: nat)
    requires d >= 1 && n >= d
    ensures n / d == 1 + (n - d) / d
    ensures n % d == (n - d) % d
  {
    var q := (n - d) / d;
    assert q * d <= n - d < q * d + d;
    assert (q + 1) * d == q * d + d;
    QuotientUnique(n, d, q + 1);
  }
}
