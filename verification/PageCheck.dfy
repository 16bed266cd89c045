/** The page consistency check of spiffs_check.c, without its repairs: which flash contents it passes. */
module PageCheck {
  import opened Options
  import opened Layout
  import opened Numbering
  import opened Catalog
  import opened Files
  import opened Store
  import opened Mount

  /** A page as the check reads it: its header, and its payload as page numbers, where an erased entry is
      `None`. */
  datatype RawPage = RawPage(hdr: Header, refs: seq<Option<nat>>)

  type Raw = map<Pix, RawPage>

  predicate UsedAt(f: Raw, p: Pix) {
    p in f && f[p].hdr.flags.delet && !f[p].hdr.flags.used
  }

  /** A live index page, not of an object that is being removed. */
  predicate IndexAt(f: Raw, p: Pix) {
    UsedAt(f, p) && f[p].hdr.flags.ixdele && !f[p].hdr.flags.index
  }

  /** The pages are those of the medium, and the payload of an index page has room for its entries. What the
      entries say is arbitrary. */
  ghost predicate Typed(g: Geometry, f: Raw) {
    && (forall p: Pix {:trigger p in f} :: p in f <==> g.In(p))
    && forall p {:trigger IndexAt(f, p)} | IndexAt(f, p) :: |f[p].refs| == g.IxLen(f[p].hdr.span)
  }

  /** Entry `i` of index page `p` is page number `n`. */
  predicate Refers(f: Raw, p: Pix, i: nat, n: nat) {
    IndexAt(f, p) && i < |f[p].refs| && f[p].refs[i] == Some(n)
  }

  /** The object id of a page without its index bit; that of a free entry looks like id 0x7fff then. */
  function OwnId(obj: Entry): Entry {
    match obj
    case Free => Live(0x7fff, false)
    case Deleted => Deleted
    case Live(id, ix) => Live(id, false)
  }

  /** The header of page `r` is that of the data page which entry `i` of index page `p` is about. */
  predicate HeaderFits(g: Geometry, f: Raw, p: Pix, i: nat, r: Pix) {
    && p in f && r in f
    && var h := f[r].hdr;
       h.obj == OwnId(f[p].hdr.obj) && h.span == g.Base(f[p].hdr.span) + i && h.flags.delet && h.flags.index && !h.flags.used
  }

  /** Number `n` is that of a page which entry `i` of index page `p` may refer to. */
  predicate Fits(c: Config, g: Geometry, f: Raw, p: Pix, i: nat, n: nat)
    requires c.Ok()
  {
    n < c.MaxPages() && !c.IsLookup(n) && HeaderFits(g, f, p, i, c.EntryOf(n))
  }

  // ----- consistency -----

  ghost predicate Referenced(f: Raw, n: nat) {
    exists p, i: nat :: Refers(f, p, i, n)
  }

  /** Every reference, other than to page number `but`, fits; no page is referenced twice; and every used
      page that is no index page is referenced. */
  ghost predicate Consistent(c: Config, g: Geometry, f: Raw, but: Option<nat>)
    requires c.Ok()
  {
    && (forall p, i: nat, n: nat {:trigger Refers(f, p, i, n)} | Refers(f, p, i, n) && but != Some(n) :: Fits(c, g, f, p, i, n))
    && (forall p, i: nat, q, j: nat, n: nat {:trigger Refers(f, p, i, n), Refers(f, q, j, n)}
          | Refers(f, p, i, n) && Refers(f, q, j, n) && but != Some(n) :: p == q && i == j)
    && forall p | UsedAt(f, p) && !IndexAt(f, p) :: Referenced(f, c.Number(p))
  }

  /** A reference to a lookup page, or past the end of the medium, is an inconsistency. */
  lemma BadReferences(c: Config, g: Geometry, f: Raw, but: Option<nat>, p: Pix, i: nat, n: nat)
    requires c.Ok() && Refers(f, p, i, n) && (c.IsLookup(n) || n >= c.MaxPages()) && but != Some(n)
    ensures !Consistent(c, g, f, but)
  {
  }

  // ----- a file system between operations is consistent -----

  /** The flash as the check reads it. */
  ghost function RawOf(c: Config, f: Flash): Raw
    requires c.Ok()
  {
    map p | p in f.page :: RawPage(f.page[p].hdr, Numbers(c, f.page[p].body))
  }

  function Numbers(c: Config, body: Body): (r: seq<Option<nat>>)
    requires c.Ok()
  {
    if body.Index? then
      seq(|body.ix|, i requires 0 <= i < |body.ix| => if body.ix[i].None? then None else Some(c.Number(body.ix[i].value)))
    else []
  }

  lemma ValidIsConsistent(c: Config, g: Geometry, v: Vals)
    requires g.Ok() && c.Ok() && c.blocks == g.blocks && c.Entries() == g.entries
    requires PhysOk(g, v.f, v.d, v.c, v.n, None) && LogicOk(g, v, None, None) && v.d.removing == None
    ensures Typed(g, RawOf(c, v.f)) && Consistent(c, g, RawOf(c, v.f), None)
  {
    var f := RawOf(c, v.f);
    ValidIsTyped(c, g, v);
    hide PhysOk, LogicOk, RawOf, Fits, IndexAt;
    forall p, i: nat, n: nat | Refers(f, p, i, n)
      ensures Fits(c, g, f, p, i, n)
    {
      ReferenceFits(c, g, v, p, i, n);
    }
    forall p, i: nat, q, j: nat, n: nat | Refers(f, p, i, n) && Refers(f, q, j, n)
      ensures p == q && i == j
    {
      ReferenceOnce(c, g, v, p, i, q, j, n);
    }
    forall p | UsedAt(f, p) && !IndexAt(f, p)
      ensures Referenced(f, c.Number(p))
    {
      DataReferenced(c, g, v, p);
    }
  }

  lemma ValidIsTyped(c: Config, g: Geometry, v: Vals)
    requires g.Ok() && c.Ok() && PhysOk(g, v.f, v.d, v.c, v.n, None) && LogicOk(g, v, None, None) && v.d.removing == None
    ensures Typed(g, RawOf(c, v.f))
  {
    var f := RawOf(c, v.f);
    forall p | IndexAt(f, p)
      ensures |f[p].refs| == g.IxLen(f[p].hdr.span)
    {
      UsedIsLive(c, g, v, p);
      var k := KeyAt(v.f, p);
      assert IxFits(g, v.d.cat, k, v.d.store[k]);
    }
  }

  /** A used page is the live page of a key. */
  lemma UsedIsLive(c: Config, g: Geometry, v: Vals, p: Pix)
    requires g.Ok() && c.Ok() && PhysOk(g, v.f, v.d, v.c, v.n, None) && LogicOk(g, v, None, None) && v.d.removing == None
    requires UsedAt(RawOf(c, v.f), p)
    ensures p in v.f.page && p in v.f.lu && v.f.lu[p].Live?
    ensures var k := KeyAt(v.f, p);
            && k in v.d.cat && k in v.d.store && v.d.cat[k] == p && v.f.page[p] == Page(HeaderOf(k, None), v.d.store[k])
            && (IndexAt(RawOf(c, v.f), p) <==> k.ix)
  {
  }

  /** Index entry `i` of the live page of `k` is about the live data page `j` of its object and span. */
  lemma ReferenceIs(c: Config, g: Geometry, v: Vals, p: Pix, i: nat, n: nat) returns (k: Key, j: Key)
    requires g.Ok() && c.Ok() && PhysOk(g, v.f, v.d, v.c, v.n, None) && LogicOk(g, v, None, None) && v.d.removing == None
    requires Refers(RawOf(c, v.f), p, i, n)
    ensures k.ix && k in v.d.cat && v.d.cat[k] == p && p in v.f.page && v.f.page[p].hdr == HeaderOf(k, None) && i < g.IxLen(k.span)
    ensures j == Key(k.id, false, g.Base(k.span) + i) && j in v.d.cat && v.d.cat[j] in v.f.page && g.In(v.d.cat[j])
    ensures v.f.page[v.d.cat[j]].hdr == HeaderOf(j, None) && n == c.Number(v.d.cat[j])
  {
    UsedIsLive(c, g, v, p);
    k := KeyAt(v.f, p);
    j := Key(k.id, false, g.Base(k.span) + i);
    hide PhysOk, LogicOk;
    EntryAbout(g, v, k, i);
    LiveIn(g, v.f, v.d, v.c, v.n, None, j);
    PageIn(g, v, j);
  }

  lemma EntryAbout(g: Geometry, v: Vals, k: Key, i: nat)
    requires g.Ok() && LogicOk(g, v, None, None) && k.ix && k in v.d.cat && k in v.d.store
    ensures v.d.store[k].Index? && |v.d.store[k].ix| == g.IxLen(k.span)
    ensures i < g.IxLen(k.span) ==> v.d.store[k].ix[i] == Lookup(v.d.cat, Key(k.id, false, g.Base(k.span) + i))
    ensures v.d.store.Keys == v.d.cat.Keys
  {
    assert IxFits(g, v.d.cat, k, v.d.store[k]);
  }

  lemma PageIn(g: Geometry, v: Vals, k: Key)
    requires PhysOk(g, v.f, v.d, v.c, v.n, None) && k in v.d.cat
    ensures g.In(v.d.cat[k])
  {
  }

  lemma ReferenceFits(c: Config, g: Geometry, v: Vals, p: Pix, i: nat, n: nat)
    requires g.Ok() && c.Ok() && c.blocks == g.blocks && c.Entries() == g.entries
    requires PhysOk(g, v.f, v.d, v.c, v.n, None) && LogicOk(g, v, None, None) && v.d.removing == None
    requires Refers(RawOf(c, v.f), p, i, n)
    ensures Fits(c, g, RawOf(c, v.f), p, i, n)
  {
    hide PhysOk, LogicOk;
    var k, j := ReferenceIs(c, g, v, p, i, n);
    c.NumberOfEntry(v.d.cat[j]);
  }

  lemma ReferenceOnce(c: Config, g: Geometry, v: Vals, p: Pix, i: nat, q: Pix, j: nat, n: nat)
    requires g.Ok() && c.Ok() && c.blocks == g.blocks && c.Entries() == g.entries
    requires PhysOk(g, v.f, v.d, v.c, v.n, None) && LogicOk(g, v, None, None) && v.d.removing == None
    requires Refers(RawOf(c, v.f), p, i, n) && Refers(RawOf(c, v.f), q, j, n)
    ensures p == q && i == j
  {
    hide PhysOk, LogicOk, RawOf, Refers;
    var a, ka := ReferenceIs(c, g, v, p, i, n);
    var b, kb := ReferenceIs(c, g, v, q, j, n);
    SameNumber(c, v.d.cat[ka], v.d.cat[kb]);
    g.SlotUnique(a.span, i, ka.span);
    g.SlotUnique(b.span, j, ka.span);
  }

  lemma SameNumber(c: Config, p: Pix, q: Pix)
    requires c.Ok() && p.entry < c.Entries() && q.entry < c.Entries() && c.Number(p) == c.Number(q)
    ensures p == q
  {
    c.NumberOfEntry(p);
    c.NumberOfEntry(q);
  }

  lemma DataReferenced(c: Config, g: Geometry, v: Vals, p: Pix)
    requires g.Ok() && c.Ok() && PhysOk(g, v.f, v.d, v.c, v.n, None) && LogicOk(g, v, None, None) && v.d.removing == None
    requires UsedAt(RawOf(c, v.f), p) && !IndexAt(RawOf(c, v.f), p)
    ensures Referenced(RawOf(c, v.f), c.Number(p))
  {
    UsedIsLive(c, g, v, p);
    var k := KeyAt(v.f, p);
    NoOrphan(g, v, p);
    var ik := Key(k.id, true, g.IxSpan(k.span));
    var q := v.d.cat[ik];
    assert v.f.page[q] == Page(HeaderOf(ik, None), v.d.store[ik]);
    assert Refers(RawOf(c, v.f), q, g.IxSlot(k.span), c.Number(p));
  }

  // ----- the scan -----

  /** Position of an index entry in the order of the scan: pages of a block after each other, then entries. */
  predicate Before(p: Pix, i: nat, b: nat, e: nat, k: nat) {
    p.bix < b || (p.bix == b && (p.entry < e || (p.entry == e && i < k)))
  }

  /** The four-bit map of the pages in a window: used, referenced, index. */
  class Window {
    const c: Config
    const off: nat                 // first page number
    const used: array<bool>
    const refd: array<bool>
    const index: array<bool>

    constructor (c0: Config, off0: nat, n: nat)
      requires c0.Ok()
      ensures c == c0 && off == off0 && used.Length == n && fresh(used) && fresh(refd) && fresh(index) && Sized()
      ensures forall k | 0 <= k < n :: !used[k] && !refd[k] && !index[k]
    {
      c, off := c0, off0;
      used := new bool[n](_ => false);
      refd := new bool[n](_ => false);
      index := new bool[n](_ => false);
    }

    predicate Sized() {
      c.Ok() && refd.Length == used.Length == index.Length && used != refd && used != index && refd != index
    }

    predicate Within(n: nat) {
      off <= n < off + used.Length
    }

    /** An index entry before this position refers to page number `off + x`. */
    ghost predicate Seen(f: Raw, b: nat, e: nat, k: nat, x: nat) {
      exists p, i: nat :: Refers(f, p, i, off + x) && Before(p, i, b, e, k)
    }

    /** What has been seen of the index entries up to a position: no number is past the page count; those in
        the window fit and are different. */
    ghost predicate RefsOk(g: Geometry, f: Raw, b: nat, e: nat, k: nat)
      requires c.Ok()
    {
      && (forall p, i: nat, n: nat {:trigger Refers(f, p, i, n)} | Refers(f, p, i, n) && Before(p, i, b, e, k) ::
            n <= c.MaxPages() && (Within(n) ==> Fits(c, g, f, p, i, n)))
      && (forall p, i: nat, q, j: nat, n: nat {:trigger Refers(f, p, i, n), Refers(f, q, j, n)}
            | Refers(f, p, i, n) && Refers(f, q, j, n) && Before(p, i, b, e, k) && Before(q, j, b, e, k) && Within(n) :: p == q && i == j)
    }

    ghost predicate MarksOk(f: Raw, b: nat, e: nat, k: nat)
      reads refd
    {
      forall x: nat | x < refd.Length :: refd[x] <==> Seen(f, b, e, k, x)
    }

    /** The used and index bits of the pages seen so far. */
    ghost predicate FlagsOk(f: Raw, b: nat, e: nat)
      reads used, index
      requires Sized()
    {
      && (forall p: Pix {:trigger p in f} | p in f && Within(c.Number(p)) ::
            var x := c.Number(p) - off;
            if Before(p, 0, b, e, 0) then used[x] == UsedAt(f, p) && index[x] == IndexAt(f, p) else !used[x] && !index[x])
      && forall x: nat | x < used.Length && (used[x] || index[x]) :: IsPage(f, x)
    }

    ghost predicate IsPage(f: Raw, x: nat)
      requires c.Ok()
    {
      exists p: Pix :: p in f && c.Number(p) == off + x
    }

    /** No repair is called for by a reference. */
    ghost predicate RefsFine(g: Geometry, f: Raw)
      requires c.Ok()
    {
      && (forall p, i: nat, n: nat {:trigger Refers(f, p, i, n)} | Refers(f, p, i, n) ::
            n <= c.MaxPages() && (Within(n) ==> Fits(c, g, f, p, i, n)))
      && (forall p, i: nat, q, j: nat, n: nat {:trigger Refers(f, p, i, n), Refers(f, q, j, n)}
            | Refers(f, p, i, n) && Refers(f, q, j, n) && Within(n) :: p == q && i == j)
    }

    ghost predicate Matches(g: Geometry, f: Raw) {
      g.Ok() && c.Ok() && c.blocks == g.blocks && c.Entries() == g.entries && Typed(g, f)
    }

    /** Takes one index entry into account; false if it needs a repair. */
    method CheckRef(g: Geometry, f: Raw, b: nat, e: nat, k: nat) returns (ok: bool)
      requires Sized() && Matches(g, f) && RefsOk(g, f, b, e, k) && MarksOk(f, b, e, k)
      requires IndexAt(f, Pix(b, e)) && k < |f[Pix(b, e)].refs|
      modifies refd
      ensures ok ==> RefsOk(g, f, b, e, k + 1) && MarksOk(f, b, e, k + 1)
      ensures !ok ==> !RefsFine(g, f)
    {
      hide RefsOk, MarksOk, RefsFine, Seen, Fits, Typed, Refers, Config.IsLookup, Config.MaxPages, Config.EntryOf;
      var p := Pix(b, e);
      var entry := f[p].refs[k];
      EntryIs(f, p, k);
      if entry.None? {
        NoRef(g, f, b, e, k);
        SkippedRef(f, b, e, k);
        return true;
      }
      var n := entry.value;
      if n > c.MaxPages() || (Within(n) && c.IsLookup(n)) {
        // bad reference
        BadRef(g, f, p, k, n);
        return false;
      }
      if !Within(n) {
        OutsideRef(g, f, b, e, k, n);
        SkippedRef(f, b, e, k);
        return true;
      }
      // the header of the page referred to
      InsideRef(g, f, n);
      var h, own := f[c.EntryOf(n)].hdr, f[p].hdr;
      var id := if own.obj.Free? then Live(0x7fff, false) else if own.obj.Live? then Live(own.obj.id, false) else own.obj;
      var base := if own.span == 0 then 0 else g.hdrLen + g.ixLen * (own.span - 1);
      g.BaseFormula(own.span);
      var fits := h.obj == id && h.span == base + k && h.flags.delet && h.flags.index && !h.flags.used;
      assert fits <==> Fits(c, g, f, p, k, n) by { FitsIs(g, f, p, k, n); }
      if !fits {
        UnfitRef(g, f, p, k, n);
        return false;
      }
      MarkIs(f, b, e, k, n - off);
      if refd[n - off] {
        // multiple references
        SecondRef(g, f, b, e, k, n);
        return false;
      }
      FirstRef(g, f, b, e, k, n);
      Mark(f, b, e, k, n - off);
      ok := true;
    }

    method Mark(f: Raw, b: nat, e: nat, k: nat, x: nat)
      requires x < refd.Length && MarksOk(f, b, e, k)
      requires forall y: nat :: Seen(f, b, e, k + 1, y) <==> Seen(f, b, e, k, y) || y == x
      modifies refd
      ensures MarksOk(f, b, e, k + 1)
    {
      hide Seen;
      refd[x] := true;
    }

    lemma MarkIs(f: Raw, b: nat, e: nat, k: nat, x: nat)
      requires MarksOk(f, b, e, k) && x < refd.Length
      ensures refd[x] <==> Seen(f, b, e, k, x)
    {
    }

    /** A number that is not past the page count, and no lookup page's, is that of a page of the medium. */
    lemma InsideRef(g: Geometry, f: Raw, n: nat)
      requires Sized() && Matches(g, f) && n <= c.MaxPages() && !c.IsLookup(n)
      ensures n < c.MaxPages() && c.EntryOf(n) in f
    {
      c.EntryOfNumber(n);
      EndIsLookup(c);
    }

    lemma FitsIs(g: Geometry, f: Raw, p: Pix, k: nat, n: nat)
      requires c.Ok() && n < c.MaxPages() && !c.IsLookup(n) && p in f && c.EntryOf(n) in f
      ensures Fits(c, g, f, p, k, n) <==> (var h, own := f[c.EntryOf(n)].hdr, f[p].hdr;
        h.obj == OwnId(own.obj) && h.span == g.Base(own.span) + k && h.flags.delet && h.flags.index && !h.flags.used)
    {
    }

    lemma EntryIs(f: Raw, p: Pix, k: nat)
      requires IndexAt(f, p) && k < |f[p].refs|
      ensures f[p].refs[k].None? ==> forall n: nat :: !Refers(f, p, k, n)
      ensures f[p].refs[k].Some? ==> Refers(f, p, k, f[p].refs[k].value)
    {
    }

    /** Nothing new has been seen between two positions. */
    lemma SamePlace(g: Geometry, f: Raw, b: nat, e: nat, k: nat, b': nat, e': nat, k': nat)
      requires c.Ok() && RefsOk(g, f, b, e, k)
      requires forall p, i: nat, n: nat {:trigger Refers(f, p, i, n)} | Refers(f, p, i, n) :: Before(p, i, b', e', k') <==> Before(p, i, b, e, k)
      ensures RefsOk(g, f, b', e', k')
      ensures forall x: nat :: Seen(f, b', e', k', x) <==> Seen(f, b, e, k, x)
    {
      hide Fits, Before, Refers;
      forall x: nat
        ensures Seen(f, b', e', k', x) <==> Seen(f, b, e, k, x)
      {
        if Seen(f, b', e', k', x) {
          var p, i: nat :| Refers(f, p, i, off + x) && Before(p, i, b', e', k');
          assert Before(p, i, b, e, k);
        }
        if Seen(f, b, e, k, x) {
          var p, i: nat :| Refers(f, p, i, off + x) && Before(p, i, b, e, k);
          assert Before(p, i, b', e', k');
        }
      }
    }

    lemma NoRef(g: Geometry, f: Raw, b: nat, e: nat, k: nat)
      requires c.Ok() && RefsOk(g, f, b, e, k) && (forall n: nat :: !Refers(f, Pix(b, e), k, n))
      ensures RefsOk(g, f, b, e, k + 1)
      ensures forall x: nat :: Seen(f, b, e, k + 1, x) <==> Seen(f, b, e, k, x)
    {
      hide RefsOk, Seen, Refers;
      forall p, i: nat, n: nat | Refers(f, p, i, n)
        ensures Before(p, i, b, e, k + 1) <==> Before(p, i, b, e, k)
      {
        assert p == Pix(p.bix, p.entry);
      }
      SamePlace(g, f, b, e, k, b, e, k + 1);
    }

    lemma SkippedRef(f: Raw, b: nat, e: nat, k: nat)
      requires MarksOk(f, b, e, k) && forall x: nat | x < refd.Length :: Seen(f, b, e, k + 1, x) <==> Seen(f, b, e, k, x)
      ensures MarksOk(f, b, e, k + 1)
    {
    }

    lemma BadRef(g: Geometry, f: Raw, p: Pix, k: nat, n: nat)
      requires c.Ok() && Refers(f, p, k, n) && (n > c.MaxPages() || (Within(n) && c.IsLookup(n)))
      ensures !RefsFine(g, f)
    {
    }

    lemma UnfitRef(g: Geometry, f: Raw, p: Pix, k: nat, n: nat)
      requires c.Ok() && Refers(f, p, k, n) && Within(n) && !Fits(c, g, f, p, k, n)
      ensures !RefsFine(g, f)
    {
    }

    lemma OutsideRef(g: Geometry, f: Raw, b: nat, e: nat, k: nat, n: nat)
      requires Sized() && RefsOk(g, f, b, e, k) && Refers(f, Pix(b, e), k, n) && n <= c.MaxPages() && !Within(n)
      ensures RefsOk(g, f, b, e, k + 1)
      ensures forall x: nat | x < refd.Length :: Seen(f, b, e, k + 1, x) <==> Seen(f, b, e, k, x)
    {
      hide Fits;
      forall p, i: nat, m: nat | Refers(f, p, i, m)
        ensures Before(p, i, b, e, k + 1) <==> Before(p, i, b, e, k) || (p == Pix(b, e) && i == k && m == n)
      {
        assert p == Pix(p.bix, p.entry);
      }
      hide Before, Refers;
      forall x: nat | x < refd.Length
        ensures Seen(f, b, e, k + 1, x) <==> Seen(f, b, e, k, x)
      {
        if Seen(f, b, e, k, x) {
          var p, i: nat :| Refers(f, p, i, off + x) && Before(p, i, b, e, k);
          assert Before(p, i, b, e, k + 1);
        }
      }
    }

    lemma SecondRef(g: Geometry, f: Raw, b: nat, e: nat, k: nat, n: nat)
      requires c.Ok() && Refers(f, Pix(b, e), k, n) && Within(n) && Seen(f, b, e, k, n - off)
      ensures !RefsFine(g, f)
    {
      hide Fits;
      var q, j: nat :| Refers(f, q, j, off + (n - off)) && Before(q, j, b, e, k);
      assert !Before(Pix(b, e), k, b, e, k);
    }

    lemma FirstRef(g: Geometry, f: Raw, b: nat, e: nat, k: nat, n: nat)
      requires Sized() && RefsOk(g, f, b, e, k) && Refers(f, Pix(b, e), k, n) && Within(n) && n <= c.MaxPages()
      requires Fits(c, g, f, Pix(b, e), k, n) && !Seen(f, b, e, k, n - off)
      ensures RefsOk(g, f, b, e, k + 1)
      ensures forall y: nat :: Seen(f, b, e, k + 1, y) <==> Seen(f, b, e, k, y) || y == n - off
    {
      hide Fits;
      forall p, i: nat, m: nat | Refers(f, p, i, m) && Before(p, i, b, e, k + 1)
        ensures Before(p, i, b, e, k) || (p == Pix(b, e) && i == k && m == n)
      {
        assert p == Pix(p.bix, p.entry);
      }
      assert off + (n - off) == n;
      assert Before(Pix(b, e), k, b, e, k + 1);
      forall y: nat | Seen(f, b, e, k, y)
        ensures Seen(f, b, e, k + 1, y)
      {
        var p, i: nat :| Refers(f, p, i, off + y) && Before(p, i, b, e, k);
        assert Before(p, i, b, e, k + 1);
      }
    }

    /** Takes one page into account: its bits, and its entries if it is an index page. */
    method CheckPage(g: Geometry, f: Raw, b: nat, e: nat) returns (ok: bool)
      requires Sized() && Matches(g, f) && RefsOk(g, f, b, e, 0) && MarksOk(f, b, e, 0) && FlagsOk(f, b, e)
      requires b < g.blocks && e < g.entries
      modifies used, refd, index
      ensures ok ==> RefsOk(g, f, b, e + 1, 0) && MarksOk(f, b, e + 1, 0) && FlagsOk(f, b, e + 1)
      ensures !ok ==> !RefsFine(g, f)
    {
      hide RefsOk, MarksOk, RefsFine, Seen, Typed, FlagsOk;
      var p := Pix(b, e);
      assert p in f by { PageThere(g, f, p); }
      SetFlags(g, f, b, e);
      ok := true;
      var flags := f[p].hdr.flags;
      if flags.delet && flags.ixdele && !flags.index && !flags.used {
        // found non-deleted index
        var k := 0;
        while k < |f[p].refs|
          invariant k <= |f[p].refs|
          invariant RefsOk(g, f, b, e, k) && MarksOk(f, b, e, k) && FlagsOk(f, b, e + 1)
        {
          FlagsApart(f, b, e + 1);
          ok := CheckRef(g, f, b, e, k);
          if !ok {
            return;
          }
          k := k + 1;
        }
        PageDone(g, f, b, e, k);
      } else {
        PageDone(g, f, b, e, 0);
      }
    }

    /** The bits of one page. */
    method SetFlags(g: Geometry, f: Raw, b: nat, e: nat)
      requires Sized() && Matches(g, f) && FlagsOk(f, b, e) && b < g.blocks && e < g.entries && Pix(b, e) in f
      modifies used, index
      ensures FlagsOk(f, b, e + 1)
    {
      hide UsedAt, IndexAt, Config.Number, Before;
      var p := Pix(b, e);
      if Within(c.Number(p)) {
        var x := c.Number(p) - off;
        forall q | q in f && Within(c.Number(q)) && c.Number(q) - off == x
          ensures q == p
        {
          SameNumber(c, p, q);
        }
        var flags := f[p].hdr.flags;
        FlagsMean(f, p);
        if flags.delet && !flags.used {
          used[x] := true;
        }
        if flags.delet && flags.ixdele && !flags.index && !flags.used {
          index[x] := true;
        }
      }
      OnePage(b, e);
    }

    lemma FlagsMean(f: Raw, p: Pix)
      requires p in f
      ensures var flags := f[p].hdr.flags;
              && (UsedAt(f, p) <==> flags.delet && !flags.used)
              && (IndexAt(f, p) <==> flags.delet && flags.ixdele && !flags.index && !flags.used)
    {
    }

    lemma OnePage(b: nat, e: nat)
      ensures forall q: Pix :: Before(q, 0, b, e + 1, 0) <==> Before(q, 0, b, e, 0) || q == Pix(b, e)
    {
      forall q: Pix
        ensures Before(q, 0, b, e + 1, 0) <==> Before(q, 0, b, e, 0) || q == Pix(b, e)
      {
        assert q == Pix(q.bix, q.entry);
      }
    }

    /** The bits do not depend on the marks of references. */
    lemma FlagsApart(f: Raw, b: nat, e: nat)
      requires Sized() && FlagsOk(f, b, e)
      ensures used != refd && index != refd
    {
    }

    lemma PageThere(g: Geometry, f: Raw, p: Pix)
      requires Typed(g, f) && g.In(p)
      ensures p in f
    {
    }

    /** All entries of a page are behind. */
    lemma PageDone(g: Geometry, f: Raw, b: nat, e: nat, n: nat)
      requires c.Ok() && RefsOk(g, f, b, e, n) && MarksOk(f, b, e, n)
      requires forall i: nat, m: nat | i >= n :: !Refers(f, Pix(b, e), i, m)
      ensures RefsOk(g, f, b, e + 1, 0) && MarksOk(f, b, e + 1, 0)
    {
      hide RefsOk, Seen, Refers;
      forall p, i: nat, m: nat | Refers(f, p, i, m)
        ensures Before(p, i, b, e + 1, 0) <==> Before(p, i, b, e, n)
      {
        if p.bix == b && p.entry == e {
          assert p == Pix(b, e);
        }
      }
      SamePlace(g, f, b, e, n, b, e + 1, 0);
    }

    /** Scans every page of every block. */
    method ScanPages(g: Geometry, f: Raw) returns (ok: bool)
      requires Sized() && Matches(g, f)
      requires forall x | 0 <= x < used.Length :: !used[x] && !refd[x] && !index[x]
      modifies used, refd, index
      ensures ok <==> RefsFine(g, f)
      ensures ok ==> MarksOk(f, g.blocks, 0, 0) && FlagsOk(f, g.blocks, 0)
    {
      Nothing(g, f);
      hide RefsOk, MarksOk, RefsFine, Seen, Typed, FlagsOk;
      var b := 0;
      while b < g.blocks
        invariant b <= g.blocks && RefsOk(g, f, b, 0, 0) && MarksOk(f, b, 0, 0) && FlagsOk(f, b, 0)
      {
        var e := 0;
        while e < g.entries
          invariant e <= g.entries && RefsOk(g, f, b, e, 0) && MarksOk(f, b, e, 0) && FlagsOk(f, b, e)
        {
          ok := CheckPage(g, f, b, e);
          if !ok {
            return;
          }
          e := e + 1;
        }
        BlockDone(g, f, b);
        b := b + 1;
      }
      AllDone(g, f);
      ok := true;
    }

    lemma Nothing(g: Geometry, f: Raw)
      requires Sized() && Matches(g, f) && forall x | 0 <= x < used.Length :: !used[x] && !refd[x] && !index[x]
      ensures RefsOk(g, f, 0, 0, 0) && MarksOk(f, 0, 0, 0) && FlagsOk(f, 0, 0)
    {
    }

    lemma BlockDone(g: Geometry, f: Raw, b: nat)
      requires Sized() && Matches(g, f) && RefsOk(g, f, b, g.entries, 0) && MarksOk(f, b, g.entries, 0) && FlagsOk(f, b, g.entries)
      ensures RefsOk(g, f, b + 1, 0, 0) && MarksOk(f, b + 1, 0, 0) && FlagsOk(f, b + 1, 0)
    {
      hide RefsOk, Seen;
      forall p: Pix, i: nat | p in f
        ensures Before(p, i, b + 1, 0, 0) <==> Before(p, i, b, g.entries, 0)
      {
      }
      hide Before;
      SamePlace(g, f, b, g.entries, 0, b + 1, 0, 0);
    }

    lemma AllDone(g: Geometry, f: Raw)
      requires Sized() && Matches(g, f) && RefsOk(g, f, g.blocks, 0, 0)
      ensures RefsFine(g, f)
    {
      hide Fits;
      forall p: Pix, i: nat | p in f
        ensures Before(p, i, g.blocks, 0, 0)
      {
      }
    }

    // ----- the map -----

    /** Used pages in the window that are no index pages are referenced. */
    ghost predicate UsedFine(f: Raw)
      requires c.Ok()
    {
      forall p | UsedAt(f, p) && !IndexAt(f, p) && Within(c.Number(p)) :: Referenced(f, c.Number(p))
    }

    /** The three bits of a page, when all pages have been scanned. */
    lemma BitsOf(g: Geometry, f: Raw, p: Pix)
      requires Sized() && Matches(g, f) && MarksOk(f, g.blocks, 0, 0) && FlagsOk(f, g.blocks, 0)
      requires p in f && Within(c.Number(p))
      ensures var x := c.Number(p) - off; used[x] == UsedAt(f, p) && index[x] == IndexAt(f, p) && refd[x] == Referenced(f, c.Number(p))
    {
      hide Config.Number;
      var x: nat := c.Number(p) - off;
      assert g.In(p);
      assert off + x == c.Number(p);
      if Referenced(f, c.Number(p)) {
        var q, j: nat :| Refers(f, q, j, c.Number(p));
        assert q in f && Before(q, j, g.blocks, 0, 0);
        assert Seen(f, g.blocks, 0, 0, x);
      }
    }

    /** A mark is on a page, if no reference calls for a repair. */
    lemma MarkedPage(g: Geometry, f: Raw, x: nat)
      requires Sized() && Matches(g, f) && MarksOk(f, g.blocks, 0, 0) && RefsFine(g, f) && x < refd.Length && refd[x]
      ensures IsPage(f, x)
    {
      var q, j: nat :| Refers(f, q, j, off + x) && Before(q, j, g.blocks, 0, 0);
      assert Fits(c, g, f, q, j, off + x);
      c.EntryOfNumber(off + x);
      assert c.EntryOf(off + x) in f;
    }

    /** Bits of a consistent file system: 000 free, 011 used and referenced, 101 used index page. */
    ghost predicate Legal(x: int)
      reads used, refd, index
      requires Sized() && 0 <= x < used.Length
    {
      (!used[x] && !refd[x] && !index[x]) || (used[x] && refd[x] && !index[x]) || (used[x] && !refd[x] && index[x])
    }

    lemma MapLegal(g: Geometry, f: Raw, x: nat)
      requires Sized() && Matches(g, f) && MarksOk(f, g.blocks, 0, 0) && FlagsOk(f, g.blocks, 0)
      requires RefsFine(g, f) && x < used.Length && !(used[x] && !refd[x] && !index[x])
      ensures Legal(x)
    {
      if used[x] || refd[x] || index[x] {
        if refd[x] {
          MarkedPage(g, f, x);
        }
        var p: Pix :| p in f && c.Number(p) == off + x;
        BitsOf(g, f, p);
        if refd[x] {
          var q, j: nat :| Refers(f, q, j, c.Number(p));
          assert Fits(c, g, f, q, j, c.Number(p));
          c.NumberOfEntry(p);
        }
      }
    }

    lemma Orphan(g: Geometry, f: Raw, x: nat)
      requires Sized() && Matches(g, f) && MarksOk(f, g.blocks, 0, 0) && FlagsOk(f, g.blocks, 0)
      requires x < used.Length && used[x] && !refd[x] && !index[x]
      ensures !UsedFine(f)
    {
      var p: Pix :| p in f && c.Number(p) == off + x;
      BitsOf(g, f, p);
    }

    lemma NoOrphans(g: Geometry, f: Raw)
      requires Sized() && Matches(g, f) && MarksOk(f, g.blocks, 0, 0) && FlagsOk(f, g.blocks, 0)
      requires forall x | 0 <= x < used.Length :: !(used[x] && !refd[x] && !index[x])
      ensures UsedFine(f)
    {
      forall p | UsedAt(f, p) && !IndexAt(f, p) && Within(c.Number(p))
        ensures Referenced(f, c.Number(p))
      {
        BitsOf(g, f, p);
      }
    }

    /** Looks for pages that are used, unreferenced and no index page: bits 001. */
    method CheckMap(g: Geometry, f: Raw) returns (ok: bool)
      requires Sized() && Matches(g, f) && MarksOk(f, g.blocks, 0, 0) && FlagsOk(f, g.blocks, 0) && RefsFine(g, f)
      ensures ok <==> UsedFine(f)
      ensures ok ==> forall x | 0 <= x < used.Length :: Legal(x)
    {
      hide MarksOk, RefsFine, FlagsOk, UsedFine, Typed, Legal;
      var x := 0;
      while x < used.Length
        invariant x <= used.Length && forall y | 0 <= y < x :: !(used[y] && !refd[y] && !index[y]) && Legal(y)
      {
        if used[x] && !refd[x] && !index[x] {
          Orphan(g, f, x);
          return false;
        }
        MapLegal(g, f, x);
        x := x + 1;
      }
      NoOrphans(g, f);
      ok := true;
    }
  }

  // ----- all windows -----

  /** Pages whose four bits fit the work buffer. */
  function PagesPerScan(c: Config): (r: nat)
    ensures c.pageSize > 0 ==> r > 0
  {
    c.pageSize * 8 / 4
  }

  /** The four-bit maps of so many pages fill the work buffer, of `pageSize` bytes, exactly. */
  lemma FourBits(c: Config, n: nat)
    ensures n * 4 == c.pageSize * 8 <==> n == PagesPerScan(c)
    ensures n == c.pageSize * 8 / 4 ==> n == PagesPerScan(c)
  {
    assert PagesPerScan(c) == 2 * c.pageSize;
  }

  /** Page numbers have 16 bits, and 0xffff is an erased entry: every window ends before that. */
  predicate Numbered(c: Config)
    requires c.Ok()
  {
    c.MaxPages() + PagesPerScan(c) <= 0x1_0000
  }

  /** A 16-bit number. */
  function Wrapped(n: nat): (r: nat)
    ensures n < 0x1_0000 ==> r == n
  {
    n % 0x1_0000
  }

  /** Where windows divide the 16-bit numbers and one of them reaches the last, the offset of the next one
      wraps around before it is past the pages: the scan never ends. */
  lemma NeverEnds(c: Config, k: nat)
    requires c.Ok() && !Numbered(c) && 0x1_0000 % PagesPerScan(c) == 0
    ensures Wrapped(k * PagesPerScan(c)) < c.MaxPages()
  {
    var d := PagesPerScan(c);
    var m, q := 0x1_0000 / d, (k * d) / 0x1_0000;
    assert m * d == 0x1_0000;
    Distribute(k, q, m, d);
    var j := k - q * m;
    assert (k * d) % 0x1_0000 == j * d;
    if j >= m {
      MulMonotone(m, j, d);
    }
    MulMonotone(j, m - 1, d);
    NextWindow(m - 1, d);
  }

  lemma Distribute(k: int, q: int, m: int, d: int)
    ensures (k - q * m) * d == k * d - q * (m * d)
  {
  }

  /** That is so for more than 65024 pages of 256 bytes, for example. */
  lemma EndlessSize(perBlock: nat, blocks: nat)
    requires var c := Config(256, perBlock, blocks); c.Ok() && c.MaxPages() > 65024
    ensures var c := Config(256, perBlock, blocks); !Numbered(c) && 0x1_0000 % PagesPerScan(c) == 0
  {
  }

  /** The page number, one past the last page, that the check does not object to: it is not greater than the
      page count, and no window reaches it if the windows end exactly there. */
  function Unseen(c: Config): Option<nat>
    requires c.Ok()
  {
    if c.MaxPages() % PagesPerScan(c) == 0 then Some(c.MaxPages()) else None
  }

  /** The check of all pages, window after window, of as many pages as the map can hold. It passes, and
      leaves a legal map each time, if and only if the flash is consistent, up to entries equal to the page
      count where the windows end exactly there; it writes nothing. */
  method CheckPages(c: Config, g: Geometry, f: Raw) returns (clean: bool)
    requires g.Ok() && c.Ok() && c.blocks == g.blocks && c.Entries() == g.entries && Typed(g, f) && Numbered(c)
    ensures clean <==> Consistent(c, g, f, Unseen(c))
  {
    hide Typed, Consistent, Unseen, Config.MaxPages, PagesPerScan, Wrapped;
    var perScan := c.pageSize * 8 / 4;
    FourBits(c, perScan);
    var off := 0;
    ghost var k := 0;
    while off < c.MaxPages()
      invariant off == k * perScan && (k > 0 ==> off - perScan < c.MaxPages())
      invariant FineBelow(c, g, f, off)
      decreases c.MaxPages() - off
    {
      var w := new Window(c, off, perScan);
      clean := w.ScanPages(g, f);
      if clean {
        clean := w.CheckMap(g, f);
      }
      if !clean {
        if Consistent(c, g, f, Unseen(c)) {
          if Unseen(c).Some? {
            EndOutside(c, k);
          }
          ConsistentIsFine(w, g, f);
        }
        return;
      }
      OneMoreWindow(w, g, f);
      NextWindow(k, perScan);
      off := Wrapped(off + perScan);
      k := k + 1;
    }
    AllFine(c, g, f, off, k);
    clean := true;
  }

  lemma NextWindow(k: nat, perScan: nat)
    ensures (k + 1) * perScan == k * perScan + perScan
  {
  }

  /** Nothing is wrong with the pages below number `n`. */
  ghost predicate FineBelow(c: Config, g: Geometry, f: Raw, n: nat)
    requires c.Ok()
  {
    && (forall p, i: nat, m: nat {:trigger Refers(f, p, i, m)} | Refers(f, p, i, m) && m < n :: Fits(c, g, f, p, i, m))
    && (forall p, i: nat, q, j: nat, m: nat {:trigger Refers(f, p, i, m), Refers(f, q, j, m)}
          | Refers(f, p, i, m) && Refers(f, q, j, m) && m < n :: p == q && i == j)
    && (forall p | UsedAt(f, p) && !IndexAt(f, p) && c.Number(p) < n :: Referenced(f, c.Number(p)))
    && (n > 0 ==> forall p, i: nat, m: nat {:trigger Refers(f, p, i, m)} | Refers(f, p, i, m) :: m <= c.MaxPages())
  }

  lemma OneMoreWindow(w: Window, g: Geometry, f: Raw)
    requires w.Sized() && w.Matches(g, f) && FineBelow(w.c, g, f, w.off) && w.RefsFine(g, f) && w.UsedFine(f)
    ensures FineBelow(w.c, g, f, w.off + w.used.Length)
  {
    hide Fits, Config.Number;
  }

  lemma ConsistentIsFine(w: Window, g: Geometry, f: Raw)
    requires w.Sized() && w.Matches(g, f) && Consistent(w.c, g, f, Unseen(w.c))
    requires Unseen(w.c).Some? ==> !w.Within(w.c.MaxPages())
    ensures w.RefsFine(g, f) && w.UsedFine(f)
  {
    forall p, i: nat, n: nat | Refers(f, p, i, n)
      ensures n <= w.c.MaxPages()
    {
      assert Unseen(w.c) != Some(n) ==> Fits(w.c, g, f, p, i, n);
    }
  }

  /** Where the windows end at the page count, no window holds that number. */
  lemma EndOutside(c: Config, k: nat)
    requires c.Ok() && Unseen(c).Some? && k * PagesPerScan(c) < c.MaxPages()
    ensures k * PagesPerScan(c) + PagesPerScan(c) <= c.MaxPages()
  {
    var d, q := PagesPerScan(c), c.MaxPages() / PagesPerScan(c);
    assert c.MaxPages() == q * d;
    if q <= k {
      MulMonotone(q, k, d);
    }
    MulMonotone(k + 1, q, d);
    NextWindow(k, d);
  }

  lemma AllFine(c: Config, g: Geometry, f: Raw, n: nat, k: nat)
    requires g.Ok() && c.Ok() && c.blocks == g.blocks && c.Entries() == g.entries && Typed(g, f) && FineBelow(c, g, f, n)
    requires n >= c.MaxPages() && n == k * PagesPerScan(c) && (k > 0 ==> n - PagesPerScan(c) < c.MaxPages())
    ensures Consistent(c, g, f, Unseen(c))
  {
    hide Fits, Config.MaxPages, Config.Number;
    Blocks(c);
    if n == c.MaxPages() {
      EndsThere(k, PagesPerScan(c));
    }
    forall p: Pix | g.In(p)
      ensures c.Number(p) < n
    {
      c.NumberOfEntry(p);
    }
  }

  lemma EndsThere(k: nat, d: nat)
    requires d > 0
    ensures (k * d) % d == 0
  {
    QuotientUnique(k * d, d, k);
  }

  lemma Blocks(c: Config)
    requires c.Ok() && c.blocks >= 1
    ensures c.MaxPages() > 0
  {
    MulMonotone(1, c.blocks, c.perBlock);
  }

  /** The page count is the number of a lookup page, if of any. */
  lemma EndIsLookup(c: Config)
    requires c.Ok()
    ensures c.IsLookup(c.MaxPages())
  {
    EndsThere(c.blocks, c.perBlock);
  }

  // ----- the entry that is missed -----

  function Overwritten(f: Raw, p: Pix, i: nat, n: nat): Raw
    requires p in f && i < |f[p].refs|
  {
    f[p := f[p].(refs := f[p].refs[i := Some(n)])]
  }

  lemma OverwrittenRefs(g: Geometry, f: Raw, p: Pix, i: nat, n: nat)
    requires Typed(g, f) && IndexAt(f, p) && i < |f[p].refs| && f[p].refs[i] == None
    ensures var f' := Overwritten(f, p, i, n);
            && Typed(g, f') && (forall q :: UsedAt(f', q) == UsedAt(f, q) && IndexAt(f', q) == IndexAt(f, q))
            && (forall q :: q in f <==> q in f') && (forall q | q in f :: f'[q].hdr == f[q].hdr)
            && forall q, j: nat, m: nat :: Refers(f', q, j, m) <==> Refers(f, q, j, m) || (q == p && j == i && m == n)
  {
    var f' := Overwritten(f, p, i, n);
    forall q
      ensures UsedAt(f', q) == UsedAt(f, q) && IndexAt(f', q) == IndexAt(f, q)
    {
    }
  }

  /** In a consistent flash an erased index entry is overwritten with the page count, a reference outside the
      medium. The flash is inconsistent then, but the check passes it where the windows end at that number. */
  lemma MissedEntry(c: Config, g: Geometry, f: Raw, p: Pix, i: nat)
    requires g.Ok() && c.Ok() && c.blocks == g.blocks && c.Entries() == g.entries && Typed(g, f) && Consistent(c, g, f, None)
    requires IndexAt(f, p) && i < |f[p].refs| && f[p].refs[i] == None
    ensures var f' := Overwritten(f, p, i, c.MaxPages());
            Typed(g, f') && !Consistent(c, g, f', None) && Consistent(c, g, f', Some(c.MaxPages()))
  {
    var n := c.MaxPages();
    var f' := Overwritten(f, p, i, n);
    OverwrittenRefs(g, f, p, i, n);
    hide Overwritten, Refers, UsedAt, IndexAt, Typed, Config.MaxPages, Config.IsLookup, Config.EntryOf, Config.Number;
    assert Refers(f', p, i, n);
    forall q, j: nat, m: nat | Refers(f', q, j, m) && m != n
      ensures Fits(c, g, f', q, j, m)
    {
      assert Fits(c, g, f, q, j, m);
    }
    forall q, j: nat, r, l: nat, m: nat | Refers(f', q, j, m) && Refers(f', r, l, m) && m != n
      ensures q == r && j == l
    {
      assert Refers(f, q, j, m) && Refers(f, r, l, m);
    }
    forall q | UsedAt(f', q) && !IndexAt(f', q)
      ensures Referenced(f', c.Number(q))
    {
      assert UsedAt(f, q) && !IndexAt(f, q);
      var r, j: nat :| Refers(f, r, j, c.Number(q));
      assert Refers(f', r, j, c.Number(q));
    }
  }

  /** That is so for 6144 pages of 512 bytes, for example. */
  lemma EndsAtWindow()
    ensures var c := Config(512, 128, 48); c.Ok() && c.MaxPages() == 6144 && Unseen(c) == Some(6144)
  {
  }
}
