/** How the steps of file operations change files, index and open descriptors together. */
module Steps {
  import opened Options
  import opened Layout
  import opened Catalog
  import opened Files
  import opened Store
  import opened Content

  ghost function BytesOf(files: map<nat, File>, id: nat): (r: seq<Byte>) {
    if id in files then files[id].bytes else []
  }

  ghost function SetBytes(files: map<nat, File>, id: nat, bytes: seq<Byte>): map<nat, File>
    requires id in files
  {
    files[id := files[id].(bytes := bytes)]
  }

  // ----- data pages -----

  /** Data page `k` gets a new payload, the image of the changed file; the file may grow into the page. */
  lemma FilesWritten(g: Geometry, store: map<Key, Body>, files: map<nat, File>, busy: Option<nat>, k: Key, po: nat, chunk: seq<Byte>)
    requires g.Ok() && FilesOk(g, store, files, busy) && !k.ix && k.id in files
    requires chunk != [] && po + |chunk| <= g.dataSize && g.Start(k.span) + po <= |files[k.id].bytes|
    requires IxKey(g, k) in store
    requires busy == Some(k.id) || g.Start(k.span) + po + |chunk| <= |files[k.id].bytes|
    ensures var bytes := Written(files[k.id].bytes, g.Start(k.span) + po, chunk);
            FilesOk(g, store[k := Data(PageImage(g, bytes, k.span))], SetBytes(files, k.id, bytes), busy)
  {
    hide Written, PageImage;
    var bytes0 := files[k.id].bytes;
    var bytes := Written(bytes0, g.Start(k.span) + po, chunk);
    PagesWritten(g, bytes0, k.span, po, chunk);
    var body := Data(PageImage(g, bytes, k.span));
    forall j | j in store && j != k
      ensures j.id in files
      ensures j.id == k.id ==> BodyOk(g, j, store[j], files[j.id].(bytes := bytes), busy == Some(j.id))
      ensures j.id == k.id ==> if j.ix then HasIx(g, |bytes|, j.span, busy == Some(j.id)) else j.span < g.Pages(|bytes|)
    {
      StillFits(g, j, store[j], files[j.id], busy == Some(j.id), k, po, chunk);
    }
    Regrouped(g, store, files, busy, k, bytes, body);
  }

  /** The pages of the other files are as they were; those of the written file fit its new bytes. */
  lemma Regrouped(g: Geometry, store: map<Key, Body>, files: map<nat, File>, busy: Option<nat>, k: Key, bytes: seq<Byte>, body: Body)
    requires g.Ok() && FilesOk(g, store, files, busy) && !k.ix && k.id in files && IxKey(g, k) in store
    requires body == Data(PageImage(g, bytes, k.span)) && k.span < g.Pages(|bytes|)
    requires g.Pages(|bytes|) <= (if k.span < g.Pages(|files[k.id].bytes|) then g.Pages(|files[k.id].bytes|) else k.span + 1)
    requires k.span <= g.Pages(|files[k.id].bytes|)
    requires forall j | j in store && j != k && j.id == k.id :: BodyOk(g, j, store[j], files[j.id].(bytes := bytes), busy == Some(j.id))
    requires forall j | j in store && j != k && j.id == k.id ::
               if j.ix then HasIx(g, |bytes|, j.span, busy == Some(j.id)) else j.span < g.Pages(|bytes|)
    ensures FilesOk(g, store[k := body], SetBytes(files, k.id, bytes), busy)
  {
    hide PageImage;
    var store', files' := store[k := body], SetBytes(files, k.id, bytes);
    forall j | j in store'
      ensures j.id in files' && BodyOk(g, j, store'[j], files'[j.id], busy == Some(j.id))
      ensures if j.ix then HasIx(g, |files'[j.id].bytes|, j.span, busy == Some(j.id)) else j.span < g.Pages(|files'[j.id].bytes|)
    {
      if j != k {
        assert j in store;
      }
    }
    forall id, s: nat | id in files' && HasIx(g, |files'[id].bytes|, s, false)
      ensures Key(id, true, s) in store'
    {
      if id == k.id && !HasIx(g, |files[id].bytes|, s, false) {
        g.SlotBounds(k.span);
        g.SlotUnique(s, 0, k.span);
      }
    }
  }

  lemma StillFits(g: Geometry, j: Key, body: Body, file: File, busy: bool, k: Key, po: nat, chunk: seq<Byte>)
    requires g.Ok() && j != k && !k.ix && BodyOk(g, j, body, file, busy)
    requires if j.ix then HasIx(g, |file.bytes|, j.span, busy) else j.span < g.Pages(|file.bytes|)
    requires j.id == k.id ==> chunk != [] && po + |chunk| <= g.dataSize && g.Start(k.span) + po <= |file.bytes|
    requires j.id == k.id ==> busy || g.Start(k.span) + po + |chunk| <= |file.bytes|
    ensures j.id == k.id ==>
              && BodyOk(g, j, body, file.(bytes := Written(file.bytes, g.Start(k.span) + po, chunk)), busy)
              && (j.ix ==> HasIx(g, |Written(file.bytes, g.Start(k.span) + po, chunk)|, j.span, busy))
              && (!j.ix ==> j.span < g.Pages(|Written(file.bytes, g.Start(k.span) + po, chunk)|))
  {
    if j.id == k.id {
      PagesWritten(g, file.bytes, k.span, po, chunk);
      if !j.ix {
        OtherImages(g, file.bytes, k.span, po, chunk, j.span);
      }
    }
  }

  /** Data page `k` is written (replaced, extended, or new), the index in the work buffer is told. */
  lemma PageWritten(g: Geometry, v: Vals, v': Vals, busy: Option<nat>, k: Key, po: nat, chunk: seq<Byte>, p: Pix)
    requires g.Ok() && !k.ix && LogicOk(g, v, Some(IxKey(g, k)), busy) && k.id in v.files
    requires chunk != [] && po + |chunk| <= g.dataSize && g.Start(k.span) + po <= |v.files[k.id].bytes|
    requires busy == Some(k.id) || g.Start(k.span) + po + |chunk| <= |v.files[k.id].bytes|
    requires var bytes := Written(v.files[k.id].bytes, g.Start(k.span) + po, chunk);
             v'.files == SetBytes(v.files, k.id, bytes) &&
             v'.d == With(v.d, k, p, Data(PageImage(g, bytes, k.span))).(fill := v'.d.fill)
    requires v'.fds == v.fds
    requires v.work.Index? && g.IxSlot(k.span) < |v.work.ix| ==> v'.work == SetEntry(v.work, g.IxSlot(k.span), Some(p))
    ensures v.work.Index? && g.IxSlot(k.span) < |v.work.ix|
    ensures LogicOk(g, v', Some(IxKey(g, k)), busy)
  {
    hide FilesOk, IndexOk, FdsOk;
    WorkSlot(g, v.d, k, v.work);
    EntryMoved(g, v.d, k, v.work, v'.d, Some(p));
    assert IxKey(g, k) in v.d.store by { WorkKey(g, v.d, IxKey(g, k), v.work); }
    FilesWritten(g, v.d.store, v.files, busy, k, po, chunk);
    FdsKept(v.fds, v.d.cat, v.files, busy, v'.d.cat);
    FdsGrown(v.fds, v'.d.cat, v.files, busy, k.id, Written(v.files[k.id].bytes, g.Start(k.span) + po, chunk));
  }

  lemma WorkSlot(g: Geometry, d: Dir, k: Key, work: Body)
    requires g.Ok() && IndexOk(g, d, Some(IxKey(g, k)), work)
    ensures work.Index? && g.IxSlot(k.span) < |work.ix|
  {
    assert IxFits(g, d.cat, IxKey(g, k), work);
    g.SlotBounds(k.span);
  }

  lemma WorkKey(g: Geometry, d: Dir, wk: Key, work: Body)
    requires IndexOk(g, d, Some(wk), work)
    ensures wk in d.cat
  {
  }

  /** Descriptors only know sizes, and not even the size of the busy file. */
  lemma FdsGrown(fds: seq<Fd>, cat: map<Key, Pix>, files: map<nat, File>, busy: Option<nat>, id: nat, bytes: seq<Byte>)
    requires FdsOk(fds, cat, files, busy) && id in files
    requires busy == Some(id) || |bytes| == |files[id].bytes|
    ensures FdsOk(fds, cat, SetBytes(files, id, bytes), busy)
  {
    forall i | 0 <= i < |fds|
      ensures FdOk(fds[i], cat, SetBytes(files, id, bytes), busy)
    {
      assert FdOk(fds[i], cat, files, busy);
    }
  }

  // ----- index pages -----

  /** An index page is stored: the work buffer (or the stored page, if there is none) gets a place. */
  lemma IndexPut(g: Geometry, v: Vals, v': Vals, wk: Option<Key>, busy: Option<nat>, k: Key, p: Pix, body: Body, size: SizeArg)
    requires g.Ok() && LogicOk(g, v, wk, busy) && k.ix && k in v.d.cat && body.Index?
    requires if wk.None? then k in v.d.store && v.d.store[k].Index? ==> body.ix == v.d.store[k].ix
             else wk == Some(k) && v.work.Index? && body.ix == v.work.ix
    requires v'.d == With(v.d, k, p, body).(fill := v'.d.fill) && v'.files == v.files
    requires k.id in v.files ==> BodyOk(g, k, body, v.files[k.id], busy == Some(k.id))
    requires |v'.fds| == |v.fds| && forall i | 0 <= i < |v.fds| :: v'.fds[i] == Notified(v.fds[i], Update, k.id, k.span, p, size)
    requires k.span == 0 && size.SizeIs? && busy != Some(k.id) && k.id in v.files ==> SizeAgrees(size.size, v.files[k.id].bytes)
    ensures LogicOk(g, v', None, busy)
  {
    assert BodyOk(g, k, v.d.store[k], v.files[k.id], busy == Some(k.id));
    FdsMoved(v.fds, v.d.cat, v.files, busy, v'.fds, k, Update, p, size, busy);
    var d1 := v.d.(store := v.d.store[k := body]);
    if wk.None? {
      IndexKept(g, v.d, None, v.work, v'.d);
      WorkFree(g, v'.d, v.work, v'.work);
    } else {
      FitsSame(g, v.d, k, v.work, body);
      IndexStored(g, v.d, k, body, v'.d);
      WorkFree(g, v'.d, body, v'.work);
    }
    BodyPut(g, v.d.store, v.files, busy, k, body);
  }

  lemma FitsSame(g: Geometry, d: Dir, k: Key, work: Body, body: Body)
    requires IndexOk(g, d, Some(k), work) && body.Index? && work.Index? && body.ix == work.ix
    ensures IndexOk(g, d, Some(k), body)
  {
    assert IxFits(g, d.cat, k, work);
  }

  /** A file that is being appended to gets a new, empty index page. */
  lemma IndexAdded(g: Geometry, v: Vals, v': Vals, k: Key, p: Pix)
    requires g.Ok() && LogicOk(g, v, None, Some(k.id)) && k.ix && k.span != 0 && k.id in v.files
    requires g.Base(k.span) == g.Pages(|v.files[k.id].bytes|) && k !in v.d.cat
    requires v'.work == Index("", None, seq(g.IxLen(k.span), _ => None)) && v'.files == v.files
    requires v'.d == With(v.d, k, p, v'.work).(fill := v'.d.fill)
    requires |v'.fds| == |v.fds| && forall i | 0 <= i < |v.fds| :: v'.fds[i] == Notified(v.fds[i], New, k.id, k.span, p, Keep)
    ensures LogicOk(g, v', Some(k), Some(k.id))
  {
    FdsMoved(v.fds, v.d.cat, v.files, Some(k.id), v'.fds, k, New, p, Keep, Some(k.id));
    BodyAdded(g, v.d.store, v.files, k, v'.work);
    assert forall j: Key | j.id == k.id && !j.ix && j.span >= g.Base(k.span) :: j !in v.d.store;
    hide FilesOk, FdsOk;
    FitsAdded(g, v.d, v'.d, v.work, k, v'.work);
  }

  lemma BodyAdded(g: Geometry, store: map<Key, Body>, files: map<nat, File>, k: Key, body: Body)
    requires g.Ok() && FilesOk(g, store, files, Some(k.id)) && k.ix && k.span != 0 && k.id in files
    requires g.Base(k.span) == g.Pages(|files[k.id].bytes|) && BodyOk(g, k, body, files[k.id], true)
    ensures FilesOk(g, store[k := body], files, Some(k.id))
  {
  }

  lemma FitsAdded(g: Geometry, d: Dir, d': Dir, work: Body, k: Key, body: Body)
    requires g.Ok() && IndexOk(g, d, None, work) && k.ix && k !in d.cat && d.store.Keys == d.cat.Keys
    requires body == Index("", None, seq(g.IxLen(k.span), _ => None))
    requires d'.cat.Keys == d.cat.Keys + {k} && d'.store == d.store[k := body]
    requires forall j | j in d.cat :: d'.cat[j] == d.cat[j]
    requires forall j: Key | j.id == k.id && !j.ix && j.span >= g.Base(k.span) :: j !in d.cat
    ensures IndexOk(g, d', Some(k), body)
  {
    forall i | i in d'.cat && i in d'.store && i.ix && i != k
      ensures IxFits(g, d'.cat, i, d'.store[i])
    {
      assert IxFits(g, d.cat, i, d.store[i]);
      SameLookups(d.cat, d'.cat, k, i.id);
    }
    SameLookups(d.cat, d'.cat, k, k.id);
  }

  lemma SameLookups(cat: map<Key, Pix>, cat': map<Key, Pix>, k: Key, id: nat)
    requires k.ix && cat'.Keys == cat.Keys + {k} && forall j | j in cat :: cat'[j] == cat[j]
    ensures forall s: nat :: Lookup(cat', Key(id, false, s)) == Lookup(cat, Key(id, false, s))
  {
  }

  // ----- busy files -----

  /** Every index page of object `id` holds an entry. */
  ghost predicate Tight(g: Geometry, store: map<Key, Body>, files: map<nat, File>, id: nat)
    requires g.Ok()
  {
    forall s: nat {:trigger Key(id, true, s)} | Key(id, true, s) in store && id in files :: HasIx(g, |files[id].bytes|, s, false)
  }

  lemma Begin(g: Geometry, v: Vals, id: nat)
    requires g.Ok() && LogicOk(g, v, None, None)
    ensures LogicOk(g, v, None, Some(id)) && Tight(g, v.d.store, v.files, id)
  {
    forall k | k in v.d.store
      ensures BodyOk(g, k, v.d.store[k], v.files[k.id], Some(id) == Some(k.id))
    {
      assert BodyOk(g, k, v.d.store[k], v.files[k.id], false);
    }
    forall i | 0 <= i < |v.fds|
      ensures FdOk(v.fds[i], v.d.cat, v.files, Some(id))
    {
      assert FdOk(v.fds[i], v.d.cat, v.files, None);
    }
  }

  /** The header of the busy file has got the right size: the file is whole again. */
  lemma End(g: Geometry, v: Vals, id: nat)
    requires g.Ok() && LogicOk(g, v, None, Some(id)) && Tight(g, v.d.store, v.files, id)
    requires id in v.files && Key(id, true, 0) in v.d.store && v.d.store[Key(id, true, 0)].Index?
    requires v.d.store[Key(id, true, 0)].size == SizeOf(v.files[id].bytes)
    requires forall i | 0 <= i < |v.fds| && v.fds[i].open && v.fds[i].id == id :: SizeAgrees(v.fds[i].size, v.files[id].bytes)
    ensures LogicOk(g, v, None, None)
  {
    forall k | k in v.d.store
      ensures BodyOk(g, k, v.d.store[k], v.files[k.id], false)
    {
      assert BodyOk(g, k, v.d.store[k], v.files[k.id], Some(id) == Some(k.id));
    }
    forall i | 0 <= i < |v.fds|
      ensures FdOk(v.fds[i], v.d.cat, v.files, None)
    {
      assert FdOk(v.fds[i], v.d.cat, v.files, Some(id));
    }
  }
}
