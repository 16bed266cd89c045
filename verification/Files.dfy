/** The logical layer: which pages a set of files has, which bytes they hold, and what the
    index of each file refers to. */
module Files {
  import opened Options
  import opened Layout
  import opened Catalog

  /** The payload of data span `k` of a file: its bytes, and erased bytes past the end. */
  function PageImage(g: Geometry, bytes: seq<Byte>, k: nat): (r: seq<Byte>)
    ensures |r| == g.dataSize
  {
    seq(g.dataSize, i requires 0 <= i < g.dataSize =>
      if g.Start(k) + i < |bytes| then bytes[g.Start(k) + i] else ERASED)
  }

  /** The size field of an index header; an empty file has never had its size written. */
  function SizeOf(bytes: seq<Byte>): Option<nat> {
    if bytes == [] then None else Some(|bytes|)
  }

  /** Whether a file of `size` bytes has the index page of span `s`. A `busy` file, which is being
      appended to or cut, may have one more than its bytes need. */
  predicate HasIx(g: Geometry, size: nat, s: nat, busy: bool)
    requires g.Ok()
  {
    s == 0 || g.Base(s) < g.Pages(size) || (busy && g.Base(s) == g.Pages(size))
  }

  ghost predicate BodyOk(g: Geometry, k: Key, body: Body, file: File, busy: bool) {
    if k.ix then
      && body.Index? && |body.ix| == g.IxLen(k.span)
      && body.name == (if k.span == 0 then file.name else "")
      && (k.span == 0 ==> busy || body.size == SizeOf(file.bytes))
      && (k.span != 0 ==> body.size == None)
    else
      body == Data(PageImage(g, file.bytes, k.span))
  }

  /** The pages of the directory are those of the files, and hold their bytes. The index header
      of the `busy` file may have an old size. */
  ghost predicate FilesOk(g: Geometry, store: map<Key, Body>, files: map<nat, File>, busy: Option<nat>)
    requires g.Ok()
  {
    && (forall k {:trigger store[k]} | k in store :: k.id in files && BodyOk(g, k, store[k], files[k.id], busy == Some(k.id)))
    && (forall k | k in store ::
          if k.ix then HasIx(g, |files[k.id].bytes|, k.span, busy == Some(k.id))
          else k.span < g.Pages(|files[k.id].bytes|))
    && (forall id, s: nat {:trigger Key(id, true, s)} | id in files && HasIx(g, |files[id].bytes|, s, false) :: Key(id, true, s) in store)
    && (forall id, s: nat {:trigger Key(id, false, s)} | id in files && s < g.Pages(|files[id].bytes|) :: Key(id, false, s) in store)
  }

  function Lookup(cat: map<Key, Pix>, k: Key): Option<Pix> {
    if k in cat then Some(cat[k]) else None
  }

  /** Index page `k` refers to the live data pages of its spans and has no other entry. */
  ghost predicate IxFits(g: Geometry, cat: map<Key, Pix>, k: Key, body: Body) {
    && body.Index? && |body.ix| == g.IxLen(k.span)
    && forall j | 0 <= j < |body.ix| :: body.ix[j] == Lookup(cat, Key(k.id, false, g.Base(k.span) + j))
  }

  /** Every index page fits; for key `wk` the work buffer `work` is its newest version. */
  ghost predicate IndexOk(g: Geometry, d: Dir, wk: Option<Key>, work: Body) {
    && (wk.Some? ==> wk.value.ix && wk.value in d.cat && IxFits(g, d.cat, wk.value, work))
    && forall k {:trigger d.store[k]} | k in d.cat && k in d.store && k.ix && wk != Some(k) :: IxFits(g, d.cat, k, d.store[k])
  }

  function IxKey(g: Geometry, k: Key): Key
    requires g.Ok()
  {
    Key(k.id, true, g.IxSpan(k.span))
  }

  function SetEntry(body: Body, j: nat, e: Option<Pix>): Body
    requires body.Index? && j < |body.ix|
  {
    body.(ix := body.ix[j := e])
  }

  // ----- index steps -----

  /** The index entry that the code reads for a data page is the page's place. */
  lemma EntryOf(g: Geometry, cat: map<Key, Pix>, k: Key, body: Body)
    requires g.Ok() && !k.ix && IxFits(g, cat, IxKey(g, k), body)
    ensures g.IxSlot(k.span) < |body.ix| && body.ix[g.IxSlot(k.span)] == Lookup(cat, k)
  {
    g.SlotBounds(k.span);
    assert Key(k.id, false, g.Base(g.IxSpan(k.span)) + g.IxSlot(k.span)) == k;
  }

  /** A data page gets a new place (or none), and the index in the work buffer is told. */
  lemma EntryMoved(g: Geometry, d: Dir, k: Key, work: Body, d': Dir, e: Option<Pix>)
    requires g.Ok() && !k.ix && IndexOk(g, d, Some(IxKey(g, k)), work)
    requires d'.cat.Keys - {k} == d.cat.Keys - {k} && Lookup(d'.cat, k) == e
    requires forall j | j in d.cat && j != k :: j in d'.cat && d'.cat[j] == d.cat[j]
    requires forall j | j in d.store && j.ix :: j in d'.store && d'.store[j] == d.store[j]
    requires d.store.Keys == d.cat.Keys
    ensures g.IxSlot(k.span) < |work.ix|
    ensures IndexOk(g, d', Some(IxKey(g, k)), SetEntry(work, g.IxSlot(k.span), e))
  {
    g.SlotBounds(k.span);
    var wk := IxKey(g, k);
    assert wk in d.cat && wk != k;
    assert wk in d.cat.Keys - {k};
    var work' := SetEntry(work, g.IxSlot(k.span), e);
    forall j | 0 <= j < |work'.ix|
      ensures work'.ix[j] == Lookup(d'.cat, Key(wk.id, false, g.Base(wk.span) + j))
    {
      OtherEntry(g, d.cat, d'.cat, k, wk, j);
    }
    forall i | i in d'.cat && i in d'.store && i.ix && i != wk
      ensures IxFits(g, d'.cat, i, d'.store[i])
    {
      assert i in d'.cat.Keys - {k};
      assert i in d.cat && i in d.store && IxFits(g, d.cat, i, d.store[i]);
      forall j | 0 <= j < |d'.store[i].ix|
        ensures d'.store[i].ix[j] == Lookup(d'.cat, Key(i.id, false, g.Base(i.span) + j))
      {
        OtherEntry(g, d.cat, d'.cat, k, i, j);
      }
    }
  }

  lemma OtherEntry(g: Geometry, cat: map<Key, Pix>, cat': map<Key, Pix>, k: Key, i: Key, j: nat)
    requires g.Ok() && !k.ix && j < g.IxLen(i.span)
    requires cat'.Keys - {k} == cat.Keys - {k}
    requires forall m | m in cat && m != k :: m in cat' && cat'[m] == cat[m]
    ensures var m := Key(i.id, false, g.Base(i.span) + j);
            if m == k then i.id == k.id && i.span == g.IxSpan(k.span) && j == g.IxSlot(k.span)
            else (i.id != k.id || i.span != g.IxSpan(k.span) || j != g.IxSlot(k.span)) && Lookup(cat', m) == Lookup(cat, m)
  {
    g.SlotUnique(i.span, j, k.span);
    var m := Key(i.id, false, g.Base(i.span) + j);
    if m != k {
      assert m in cat'.Keys - {k} <==> m in cat.Keys - {k};
    }
  }

  /** The work buffer is stored as the new version of its index page. */
  lemma IndexStored(g: Geometry, d: Dir, wk: Key, work: Body, d': Dir)
    requires IndexOk(g, d, Some(wk), work) && d.store.Keys == d.cat.Keys
    requires d'.cat.Keys == d.cat.Keys && d'.store == d.store[wk := work]
    requires forall k | k in d.cat && !k.ix :: d'.cat[k] == d.cat[k]
    ensures IndexOk(g, d', None, work)
  {
    forall k | k in d'.cat && k.ix
      ensures IxFits(g, d'.cat, k, d'.store[k])
    {
      var body := d'.store[k];
      assert k != wk ==> IxFits(g, d.cat, k, d.store[k]);
      forall j | 0 <= j < |body.ix|
        ensures body.ix[j] == Lookup(d'.cat, Key(k.id, false, g.Base(k.span) + j))
      {
      }
    }
  }

  /** An index page is loaded into the work buffer. */
  lemma IndexLoaded(g: Geometry, d: Dir, wk: Key, b: Body)
    requires IndexOk(g, d, None, b) && wk.ix && wk in d.cat && wk in d.store
    ensures IndexOk(g, d, Some(wk), d.store[wk])
  {
  }

  /** Pages that are not index pages of `d` change place or body only. */
  lemma IndexKept(g: Geometry, d: Dir, wk: Option<Key>, work: Body, d': Dir)
    requires IndexOk(g, d, wk, work)
    requires d'.cat.Keys == d.cat.Keys
    requires forall k | k in d.cat && !k.ix :: d'.cat[k] == d.cat[k]
    requires forall k | k in d'.store && k.ix :: k in d.store && d'.store[k].Index? && d.store[k].Index? && d'.store[k].ix == d.store[k].ix
    ensures IndexOk(g, d', wk, work)
  {
    forall k | k in d'.cat && k in d'.store && k.ix && wk != Some(k)
      ensures IxFits(g, d'.cat, k, d'.store[k])
    {
      assert IxFits(g, d.cat, k, d.store[k]);
      var body := d'.store[k];
      forall j | 0 <= j < |body.ix|
        ensures body.ix[j] == Lookup(d'.cat, Key(k.id, false, g.Base(k.span) + j))
      {
      }
    }
    if wk.Some? {
      forall j | 0 <= j < |work.ix|
        ensures work.ix[j] == Lookup(d'.cat, Key(wk.value.id, false, g.Base(wk.value.span) + j))
      {
      }
    }
  }

  /** What is in the work buffer does not matter as long as it is no index page. */
  lemma WorkFree(g: Geometry, d: Dir, a: Body, b: Body)
    requires IndexOk(g, d, None, a)
    ensures IndexOk(g, d, None, b)
  {
  }

  /** A page of the directory gets a body that fits its file. */
  lemma BodyPut(g: Geometry, store: map<Key, Body>, files: map<nat, File>, busy: Option<nat>, k: Key, body: Body)
    requires g.Ok() && FilesOk(g, store, files, busy) && k in store && BodyOk(g, k, body, files[k.id], busy == Some(k.id))
    ensures FilesOk(g, store[k := body], files, busy)
  {
  }

  // ----- open files -----

  /** An open file. A cursor of `None` is the page number 0 of the code. */
  datatype Fd = Fd(open: bool, id: nat, size: Option<nat>, hdrPix: Pix, curPix: Option<Pix>, curSpan: nat)

  datatype Event = Update | New | Delete

  /** The size argument of an index event: none, or what the size field now says. */
  datatype SizeArg = Keep | SizeIs(size: Option<nat>)

  predicate SizeAgrees(size: Option<nat>, bytes: seq<Byte>) {
    size == SizeOf(bytes) || (bytes == [] && size == Some(0))
  }

  /** An open file knows where its index header is, and where the index page of its cursor is. */
  ghost predicate FdOk(fd: Fd, cat: map<Key, Pix>, files: map<nat, File>, busy: Option<nat>) {
    fd.open ==>
      && fd.id in files && Key(fd.id, true, 0) in cat && fd.hdrPix == cat[Key(fd.id, true, 0)]
      && fd.curPix == Lookup(cat, Key(fd.id, true, fd.curSpan))
      && (busy != Some(fd.id) ==> SizeAgrees(fd.size, files[fd.id].bytes))
  }

  ghost predicate FdsOk(fds: seq<Fd>, cat: map<Key, Pix>, files: map<nat, File>, busy: Option<nat>) {
    forall i | 0 <= i < |fds| :: FdOk(fds[i], cat, files, busy)
  }

  /** What an index event does to one descriptor. */
  function Notified(fd: Fd, ev: Event, id: nat, span: nat, pix: Pix, size: SizeArg): Fd {
    if !fd.open || fd.id != id then fd
    else
      var fd1 :=
        if span != 0 then fd
        else if ev.Delete? then fd.(open := false, id := 0)
        else fd.(hdrPix := pix, size := if size.Keep? then fd.size else size.size);
      if fd1.curSpan != span then fd1
      else fd1.(curPix := if ev.Delete? then None else Some(pix))
  }

  /** Descriptors of the same files as before. */
  ghost predicate SameFds(a: seq<Fd>, b: seq<Fd>) {
    |a| == |b| && forall i | 0 <= i < |a| :: b[i].open == a[i].open && b[i].id == a[i].id
  }

  lemma SameFdsChain(a: seq<Fd>, b: seq<Fd>, c: seq<Fd>)
    requires SameFds(a, b) && SameFds(b, c)
    ensures SameFds(a, c)
  {
  }

  lemma UpdatedFds(a: seq<Fd>, b: seq<Fd>, id: nat, span: nat, pix: Pix, size: SizeArg)
    requires |a| == |b| && forall i | 0 <= i < |a| :: b[i] == Notified(a[i], Update, id, span, pix, size)
    ensures SameFds(a, b)
  {
  }

  /** After an index page has moved and the descriptors have been told, they agree again. */
  lemma FdsMoved(fds: seq<Fd>, cat: map<Key, Pix>, files: map<nat, File>, busy: Option<nat>, fds': seq<Fd>,
                 k: Key, ev: Event, pix: Pix, size: SizeArg, busy': Option<nat>)
    requires FdsOk(fds, cat, files, busy) && k.ix && k.id in files && !ev.Delete?
    requires |fds'| == |fds| && forall i | 0 <= i < |fds| :: fds'[i] == Notified(fds[i], ev, k.id, k.span, pix, size)
    requires k.span == 0 ==> k in cat
    requires busy' == busy || (busy' == None && busy == Some(k.id) && k.span == 0 && size.SizeIs?)
    requires busy' != Some(k.id) && k.span == 0 && size.SizeIs? ==> SizeAgrees(size.size, files[k.id].bytes)
    ensures FdsOk(fds', cat[k := pix], files, busy')
  {
    forall i | 0 <= i < |fds'|
      ensures FdOk(fds'[i], cat[k := pix], files, busy')
    {
      assert FdOk(fds[i], cat, files, busy);
    }
  }

  /** Descriptors do not depend on data pages. */
  lemma FdsKept(fds: seq<Fd>, cat: map<Key, Pix>, files: map<nat, File>, busy: Option<nat>, cat': map<Key, Pix>)
    requires FdsOk(fds, cat, files, busy)
    requires forall k: Key | k.ix :: Lookup(cat', k) == Lookup(cat, k)
    ensures FdsOk(fds, cat', files, busy)
  {
    forall i | 0 <= i < |fds|
      ensures FdOk(fds[i], cat', files, busy)
    {
      assert FdOk(fds[i], cat, files, busy);
      assert Lookup(cat', Key(fds[i].id, true, 0)) == Lookup(cat, Key(fds[i].id, true, 0));
    }
  }
}
