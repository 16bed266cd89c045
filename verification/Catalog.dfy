/** What the flash holds, and the invariants that tie it to files.

    The physical layer (`CatalogOk`) relates lookup entries and page headers to two maps:
    `cat`, the one live page of every (object, kind, span), and `store`, its body.
    The logical layer relates `store` to the files: `FilesOk` says which pages exist and
    which bytes they hold, `IndexOk` that every index entry refers to the right page. */
module Catalog {
  import opened Options
  import opened Layout

  type Byte = bv8

  const ERASED: Byte := 0xff

  /** A lookup entry: all ones, all zeroes, or an object id with its index bit. */
  datatype Entry = Free | Deleted | Live(id: nat, ix: bool)

  /** Page header flag bits as stored: a bit is true until a write clears it. */
  datatype Flags = Flags(used: bool, final: bool, index: bool, delet: bool, ixdele: bool)

  datatype Header = Header(obj: Entry, span: nat, flags: Flags)

  /** Page payload. An erased index entry or size is `None`. */
  datatype Body =
    | Blank
    | Data(bytes: seq<Byte>)
    | Index(name: string, size: Option<nat>, ix: seq<Option<Pix>>)

  datatype Page = Page(hdr: Header, body: Body)

  /** Object, index or data, and span: what identifies a live page. */
  datatype Key = Key(id: nat, ix: bool, span: nat)

  datatype File = File(name: string, bytes: seq<Byte>)

  const ALL_SET := Flags(true, true, true, true, true)
  const ERASED_PAGE := Page(Header(Free, 0xffff, ALL_SET), Blank)

  /** Flags of a live, written and finalised page. */
  function LiveFlags(ix: bool, removing: bool): Flags {
    Flags(false, false, !ix, true, !removing)
  }

  function HeaderOf(k: Key, removing: Option<nat>): Header {
    Header(Live(k.id, k.ix), k.span, LiveFlags(k.ix, k.ix && k.span == 0 && removing == Some(k.id)))
  }

  /** What the lookup entry and the page header say that page `p` is. */
  function KeyAt(f: Flash, p: Pix): Key
    requires p in f.lu && p in f.page && f.lu[p].Live?
  {
    Key(f.lu[p].id, f.lu[p].ix, f.page[p].hdr.span)
  }

  /** The contents of the flash. */
  datatype Flash = Flash(lu: map<Pix, Entry>, page: map<Pix, Page>)

  /** What the flash stands for: the one live page of every key and its body, an object whose
      index header carries the mark of a removal, and the used entries of each block. */
  datatype Dir = Dir(cat: map<Key, Pix>, store: map<Key, Body>, removing: Option<nat>, fill: seq<nat>)

  ghost predicate Total(g: Geometry, lu: map<Pix, Entry>) {
    forall p: Pix {:trigger p in lu} {:trigger g.In(p)} :: p in lu <==> g.In(p)
  }

  /** Physical layer: flash and directory agree. `extra` is a page that is being written and has
      no place in the directory yet. */
  ghost predicate CatalogOk(g: Geometry, f: Flash, d: Dir, extra: Option<Pix>)
  {
    && Total(g, f.lu)
    && f.page.Keys == f.lu.Keys
    && d.store.Keys == d.cat.Keys
    && (forall k {:trigger d.cat[k]} | k in d.cat ::
          && d.cat[k] in f.lu && f.lu[d.cat[k]] == Live(k.id, k.ix) && extra != Some(d.cat[k])
          && f.page[d.cat[k]] == Page(HeaderOf(k, d.removing), d.store[k]))
    && (forall p {:trigger KeyAt(f, p)} | p in f.lu && f.lu[p].Live? && extra != Some(p) ::
          KeyAt(f, p) in d.cat && d.cat[KeyAt(f, p)] == p)
    && (forall p {:trigger f.page[p]} | p in f.lu ::
          (f.lu[p].Free? ==> f.page[p] == ERASED_PAGE) && (f.lu[p].Deleted? ==> !f.page[p].hdr.flags.delet))
    && (extra.Some? ==> extra.value in f.lu && f.lu[extra.value].Live?)
  }

  /** Every lookup table is a run of `fill` used entries followed by a run of free ones. */
  ghost predicate ShapeOk(g: Geometry, lu: map<Pix, Entry>, fill: seq<nat>)
  {
    && |fill| == g.blocks
    && (forall b | 0 <= b < g.blocks :: fill[b] <= g.entries)
    && (forall p {:trigger lu[p]} | p in lu :: g.In(p) && (lu[p].Free? <==> p.entry >= fill[p.bix]))
  }

  /** No free entry precedes the free cursor in its block when the next search starts. */
  ghost predicate CursorOk(g: Geometry, fill: seq<nat>, c: Pix)
  {
    && g.In(c) && |fill| == g.blocks
    && (c.entry == 0 || c.entry + 1 == fill[c.bix] || (c.entry + 1 == g.entries && fill[c.bix] == 0))
  }

  /** Blocks other than the free cursor's (and `but`) have no free entry or only free ones. */
  ghost predicate Settled(g: Geometry, fill: seq<nat>, c: Pix, but: Option<nat>)
  {
    forall b | 0 <= b < |fill| && b != c.bix && but != Some(b) :: fill[b] == 0 || fill[b] == g.entries
  }

  ghost function FreeBlocks(fill: seq<nat>): set<nat> {
    set b: nat | b < |fill| && fill[b] == 0
  }

  ghost function DeletedPages(lu: map<Pix, Entry>): set<Pix> {
    set p | p in lu && lu[p].Deleted?
  }

  ghost function LivePages(lu: map<Pix, Entry>): set<Pix> {
    set p | p in lu && lu[p].Live?
  }

  // ----- physical layer: effect of single steps -----

  function Put(f: Flash, p: Pix, e: Entry, pg: Page): Flash {
    Flash(f.lu[p := e], f.page[p := pg])
  }

  /** A free page is occupied. */
  lemma Occupy(g: Geometry, f: Flash, d: Dir, p: Pix, e: Entry, pg: Page, fill: seq<nat>)
    requires CatalogOk(g, f, d, None)
    requires p in f.lu && f.lu[p].Free? && e.Live?
    ensures CatalogOk(g, Put(f, p, e, pg), d.(fill := fill), Some(p))
  {
    var f2 := Put(f, p, e, pg);
    var d2 := d;
    forall q | q in f2.lu && f2.lu[q].Live? && q != p
      ensures KeyAt(f2, q) in d2.cat && d2.cat[KeyAt(f2, q)] == q
    {
      assert KeyAt(f2, q) == KeyAt(f, q);
    }
  }

  /** The page being written gets its place as the page of a new key. */
  lemma Adopt(g: Geometry, f: Flash, d: Dir, p: Pix, k: Key, body: Body)
    requires CatalogOk(g, f, d, Some(p))
    requires k !in d.cat
    requires f.lu[p] == Live(k.id, k.ix) && f.page[p] == Page(HeaderOf(k, d.removing), body)
    ensures CatalogOk(g, f, d.(cat := d.cat[k := p], store := d.store[k := body]), None)
  {
  }

  /** The page being written takes the place of the live page of its key, which is deleted. */
  lemma Supersede(g: Geometry, f: Flash, d: Dir, p: Pix, k: Key, body: Body, pg: Page)
    requires CatalogOk(g, f, d, Some(p))
    requires k in d.cat
    requires f.lu[p] == Live(k.id, k.ix) && f.page[p] == Page(HeaderOf(k, d.removing), body)
    requires !pg.hdr.flags.delet
    ensures CatalogOk(g, Put(f, d.cat[k], Deleted, pg), d.(cat := d.cat[k := p], store := d.store[k := body]), None)
  {
    var f2 := Put(f, d.cat[k], Deleted, pg);
    var d2 := d.(cat := d.cat[k := p], store := d.store[k := body]);
    forall q | q in f2.lu && f2.lu[q].Live?
      ensures KeyAt(f2, q) in d2.cat && d2.cat[KeyAt(f2, q)] == q
    {
      assert KeyAt(f2, q) == KeyAt(f, q);
    }
  }

  /** The live page of a key is deleted. */
  lemma Drop(g: Geometry, f: Flash, d: Dir, k: Key, pg: Page)
    requires CatalogOk(g, f, d, None)
    requires k in d.cat
    requires !pg.hdr.flags.delet
    ensures CatalogOk(g, Put(f, d.cat[k], Deleted, pg), d.(cat := d.cat - {k}, store := d.store - {k}), None)
  {
    var f2 := Put(f, d.cat[k], Deleted, pg);
    var d2 := d.(cat := d.cat - {k}, store := d.store - {k});
    forall q | q in f2.lu && f2.lu[q].Live?
      ensures KeyAt(f2, q) in d2.cat && d2.cat[KeyAt(f2, q)] == q
    {
      assert KeyAt(f2, q) == KeyAt(f, q);
    }
  }

  /** The live page of a key is written in place. */
  lemma Rewrite(g: Geometry, f: Flash, d: Dir, k: Key, body: Body)
    requires CatalogOk(g, f, d, None)
    requires k in d.cat
    ensures CatalogOk(g, f.(page := f.page[d.cat[k] := Page(HeaderOf(k, d.removing), body)]),
                      d.(store := d.store[k := body]), None)
  {
    hide HeaderOf;
    var f2 := f.(page := f.page[d.cat[k] := Page(HeaderOf(k, d.removing), body)]);
    Apart(g, f, d, k);
    HeaderSpan(k, d.removing);
    forall q | q in f.lu && f.lu[q].Live?
      ensures KeyAt(f2, q) == KeyAt(f, q)
    {
    }
  }

  lemma HeaderSpan(k: Key, removing: Option<nat>)
    ensures HeaderOf(k, removing).span == k.span && HeaderOf(k, removing).obj == Live(k.id, k.ix) && HeaderOf(k, removing).flags.delet
  {
  }

  /** Different keys have different pages. */
  lemma Apart(g: Geometry, f: Flash, d: Dir, k: Key)
    requires CatalogOk(g, f, d, None) && k in d.cat
    ensures forall j | j in d.cat && j != k :: d.cat[j] != d.cat[k]
  {
    forall j | j in d.cat && j != k
      ensures d.cat[j] != d.cat[k]
    {
      assert KeyAt(f, d.cat[j]) == j && KeyAt(f, d.cat[k]) == k;
    }
  }

  /** Live lookup entries are as many as keys. */
  lemma LiveCount(g: Geometry, f: Flash, d: Dir)
    requires CatalogOk(g, f, d, None)
    ensures |LivePages(f.lu)| == |d.cat|
  {
    forall p | p in LivePages(f.lu)
      ensures exists k :: k in d.cat && d.cat[k] == p
    {
      assert KeyAt(f, p) in d.cat;
    }
    InjectiveCount(d.cat, LivePages(f.lu));
  }

  lemma {:induction false} InjectiveCount(cat: map<Key, Pix>, pages: set<Pix>)
    requires forall j, k | j in cat && k in cat && cat[j] == cat[k] :: j == k
    requires forall k | k in cat :: cat[k] in pages
    requires forall p | p in pages :: exists k :: k in cat && cat[k] == p
    ensures |pages| == |cat|
  {
    if cat == map[] {
      assert pages == {};
    } else {
      var k :| k in cat;
      forall p | p in pages - {cat[k]}
        ensures exists j :: j in cat - {k} && (cat - {k})[j] == p
      {
        var j :| j in cat && cat[j] == p;
        assert j in cat - {k};
      }
      InjectiveCount(cat - {k}, pages - {cat[k]});
      assert |(cat - {k}).Keys| == |cat.Keys - {k}| by { assert (cat - {k}).Keys == cat.Keys - {k}; }
    }
  }
}
