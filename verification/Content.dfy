/** What writing does to the bytes of a file, page by page, and what of a file stays visible on
    the flash between two writes. */
module Content {
  import opened Options
  import opened Layout
  import opened Catalog
  import opened Files
  import opened Store
  import opened Gc

  /** A file after `data` has been written at `offset`: what was before, `data`, and what remains. */
  function Written(bytes: seq<Byte>, offset: nat, data: seq<Byte>): (r: seq<Byte>)
    requires offset <= |bytes|
    ensures |r| == if offset + |data| < |bytes| then |bytes| else offset + |data|
    ensures forall i | 0 <= i < |r| :: r[i] == if offset <= i < offset + |data| then data[i - offset] else bytes[i]
  {
    bytes[..offset] + data + if offset + |data| < |bytes| then bytes[offset + |data|..] else []
  }

  /** Writing in two parts. */
  lemma WrittenTwice(bytes: seq<Byte>, offset: nat, a: seq<Byte>, b: seq<Byte>)
    requires offset <= |bytes|
    ensures Written(Written(bytes, offset, a), offset + |a|, b) == Written(bytes, offset, a + b)
  {
  }

  /** Writing `chunk` inside span `k` changes the image of that span only. */
  lemma OtherImages(g: Geometry, bytes: seq<Byte>, k: nat, po: nat, chunk: seq<Byte>, j: nat)
    requires g.Ok() && po + |chunk| <= g.dataSize && g.Start(k) + po <= |bytes| && j != k
    ensures PageImage(g, Written(bytes, g.Start(k) + po, chunk), j) == PageImage(g, bytes, j)
  {
    if j < k {
      g.StartMonotone(j, k);
    } else {
      g.StartMonotone(k, j);
    }
  }

  lemma ImageIs(g: Geometry, bytes: seq<Byte>, k: nat)
    ensures forall i | 0 <= i < g.dataSize ::
              PageImage(g, bytes, k)[i] == if g.Start(k) + i < |bytes| then bytes[g.Start(k) + i] else ERASED
  {
  }

  /** The image of span `k` after writing `chunk` into it. */
  lemma OwnImage(g: Geometry, bytes: seq<Byte>, k: nat, po: nat, chunk: seq<Byte>)
    requires g.Ok() && po + |chunk| <= g.dataSize && g.Start(k) + po <= |bytes|
    ensures PageImage(g, Written(bytes, g.Start(k) + po, chunk), k)
         == PageImage(g, bytes, k)[..po] + chunk + PageImage(g, bytes, k)[po + |chunk|..]
  {
    var s := g.Start(k);
    var w := Written(bytes, s + po, chunk);
    var a, x := PageImage(g, w, k), PageImage(g, bytes, k);
    hide *;
    ImageIs(g, w, k);
    ImageIs(g, bytes, k);
    assert forall i | 0 <= i < g.dataSize :: a[i] == if po <= i < po + |chunk| then chunk[i - po] else x[i];
    assert a == x[..po] + chunk + x[po + |chunk|..];
  }

  lemma PagesWritten(g: Geometry, bytes: seq<Byte>, k: nat, po: nat, chunk: seq<Byte>)
    requires g.Ok() && chunk != [] && po + |chunk| <= g.dataSize && g.Start(k) + po <= |bytes|
    ensures var n := g.Pages(|bytes|);
            k <= n && g.Pages(|Written(bytes, g.Start(k) + po, chunk)|) == (if k < n then n else k + 1)
  {
    var n, r := g.Pages(|bytes|), Written(bytes, g.Start(k) + po, chunk);
    g.PagesBounds(|bytes|, k);
    if k > n {
      g.PagesBounds(|bytes|, n);
      g.StartMonotone(n, k);
    }
    var m := if k < n then n else k + 1;
    g.PagesBounds(|r|, m);
    g.PagesBounds(|r|, m - 1);
    g.PagesBounds(|bytes|, m - 1);
    g.PagesBounds(|bytes|, m);
    g.StartMonotone(k + 1, m);
    g.PagesBounds(|r|, g.Pages(|r|));
    g.PagesBounds(|r|, m);
  }

  // ----- programming payloads -----

  lemma AndErased(b: Byte)
    ensures ERASED & b == b && b & ERASED == b
  {
  }

  /** Writing where the payload is erased stores the bytes written. */
  lemma ProgramErased(x: seq<Byte>, off: nat, b: seq<Byte>)
    requires off + |b| <= |x| && forall i | off <= i < off + |b| :: x[i] == ERASED
    ensures Program(x, off, b) == x[..off] + b + x[off + |b|..]
  {
    forall i | off <= i < off + |b|
      ensures Program(x, off, b)[i] == b[i - off]
    {
      AndErased(b[i - off]);
    }
  }

  /** Copying what stays, then writing what changes, gives the whole new payload. */
  lemma CopyAround(x: seq<Byte>, n: nat, po: nat, chunk: seq<Byte>)
    requires |x| == n && po + |chunk| <= n
    ensures var a := Program(Erased(n), 0, x[..po]);
            var b := Program(a, po + |chunk|, x[po + |chunk|..]);
            Program(b, po, chunk) == x[..po] + chunk + x[po + |chunk|..]
  {
    ProgramErased(Erased(n), 0, x[..po]);
    var a := Program(Erased(n), 0, x[..po]);
    assert a == x[..po] + Erased(n)[po..];
    ProgramErased(a, po + |chunk|, x[po + |chunk|..]);
    var b := Program(a, po + |chunk|, x[po + |chunk|..]);
    ProgramErased(b, po, chunk);
    assert b[..po] == x[..po];
    assert b[po + |chunk|..] == x[po + |chunk|..];
  }

  // ----- what a power failure leaves -----

  /** Some live, finalised page of the flash is data page `k` with this payload. */
  ghost predicate Shown(f: Flash, k: Key, body: Body) {
    exists p :: p in f.lu && p in f.page && f.lu[p] == Live(k.id, k.ix) && f.page[p] == Page(HeaderOf(k, None), body)
  }

  ghost predicate HasSpan(g: Geometry, files: map<nat, File>, id: nat, k: nat)
    requires g.Ok()
  {
    id in files && k < g.Pages(|files[id].bytes|)
  }

  ghost function ImageOf(g: Geometry, files: map<nat, File>, id: nat, k: nat): Body
    requires g.Ok() && id in files
  {
    Data(PageImage(g, files[id].bytes, k))
  }

  /** Every data page that the files have before and after is visible, in one version or the other. */
  ghost predicate ImagesOk(g: Geometry, f: Flash, files0: map<nat, File>, files1: map<nat, File>)
    requires g.Ok()
  {
    forall id, k: nat {:trigger Key(id, false, k)} | HasSpan(g, files0, id, k) && HasSpan(g, files1, id, k) ::
      Shown(f, Key(id, false, k), ImageOf(g, files0, id, k)) || Shown(f, Key(id, false, k), ImageOf(g, files1, id, k))
  }

  /** Every flash written since `log0` shows each data page, in the old version or the new. */
  ghost predicate LogImages(g: Geometry, log0: seq<Flash>, log: seq<Flash>, files0: map<nat, File>, files1: map<nat, File>)
    requires g.Ok()
  {
    Extends(log0, log) && forall i | |log0| <= i < |log| :: ImagesOk(g, log[i], files0, files1)
  }

  /** Page by page, `files` is still `files0` or already `files1`. */
  ghost predicate OldOrNew(g: Geometry, files0: map<nat, File>, files: map<nat, File>, files1: map<nat, File>)
    requires g.Ok()
  {
    forall id, k: nat {:trigger Key(id, false, k)} | HasSpan(g, files0, id, k) && HasSpan(g, files1, id, k) ::
      && HasSpan(g, files, id, k)
      && (ImageOf(g, files, id, k) == ImageOf(g, files0, id, k) || ImageOf(g, files, id, k) == ImageOf(g, files1, id, k))
  }

  lemma HoldsImages(g: Geometry, f: Flash, d: Dir, files: map<nat, File>, busy: Option<nat>, files0: map<nat, File>, files1: map<nat, File>)
    requires g.Ok() && Holds(f, d) && d.store.Keys == d.cat.Keys && FilesOk(g, d.store, files, busy)
    requires OldOrNew(g, files0, files, files1)
    ensures ImagesOk(g, f, files0, files1)
  {
    forall id, k: nat | HasSpan(g, files0, id, k) && HasSpan(g, files1, id, k)
      ensures Shown(f, Key(id, false, k), ImageOf(g, files0, id, k)) || Shown(f, Key(id, false, k), ImageOf(g, files1, id, k))
    {
      var j := Key(id, false, k);
      assert j in d.store && d.store[j] == ImageOf(g, files, id, k);
      assert f.lu[d.cat[j]] == Live(id, false) && f.page[d.cat[j]] == Page(HeaderOf(j, None), d.store[j]);
    }
  }

  /** A step from one good directory to another keeps every page visible. */
  lemma ImagesKept(g: Geometry, log0: seq<Flash>, log1: seq<Flash>, log2: seq<Flash>, d1: Dir, fs1: map<nat, File>, b1: Option<nat>,
                   d2: Dir, fs2: map<nat, File>, b2: Option<nat>, files0: map<nat, File>, files1: map<nat, File>)
    requires g.Ok() && LogImages(g, log0, log1, files0, files1) && Extends(log1, log2) && Survives(log2, |log1|, d1, d2)
    requires d1.store.Keys == d1.cat.Keys && FilesOk(g, d1.store, fs1, b1) && OldOrNew(g, files0, fs1, files1)
    requires d2.store.Keys == d2.cat.Keys && FilesOk(g, d2.store, fs2, b2) && OldOrNew(g, files0, fs2, files1)
    ensures LogImages(g, log0, log2, files0, files1)
  {
    hide FilesOk, OldOrNew, Holds, ImagesOk;
    forall i | |log0| <= i < |log2|
      ensures ImagesOk(g, log2[i], files0, files1)
    {
      if i < |log1| {
        assert log2[i] == log1[i];
      } else if Holds(log2[i], d1) {
        HoldsImages(g, log2[i], d1, fs1, b1, files0, files1);
      } else {
        HoldsImages(g, log2[i], d2, fs2, b2, files0, files1);
      }
    }
  }

  /** Garbage collection keeps every page visible. */
  lemma CollectedImages(g: Geometry, log0: seq<Flash>, log: seq<Flash>, store: map<Key, Body>, busy: Option<nat>,
                        files0: map<nat, File>, files1: map<nat, File>)
    requires g.Ok() && LogSafe(log0, log, store) && FilesOk(g, store, files0, busy)
    ensures LogImages(g, log0, log, files0, files1)
  {
    hide FilesOk;
    forall i | |log0| <= i < |log|
      ensures ImagesOk(g, log[i], files0, files1)
    {
      VisibleImages(g, log[i], store, busy, files0, files1);
    }
  }

  lemma VisibleImages(g: Geometry, f: Flash, store: map<Key, Body>, busy: Option<nat>, files0: map<nat, File>, files1: map<nat, File>)
    requires g.Ok() && DataVisible(f, store) && FilesOk(g, store, files0, busy)
    ensures ImagesOk(g, f, files0, files1)
  {
    forall id, k: nat | HasSpan(g, files0, id, k) && HasSpan(g, files1, id, k)
      ensures Shown(f, Key(id, false, k), ImageOf(g, files0, id, k))
    {
      var j := Key(id, false, k);
      assert j in store && store[j] == ImageOf(g, files0, id, k);
    }
  }

  /** A file of which the first `w` bytes of `data` have been written is old or new in every page,
      if `w` is at the end of a page or of `data`. */
  lemma PartlyWritten(g: Geometry, files0: map<nat, File>, id: nat, offset: nat, data: seq<Byte>, w: nat, m: nat)
    requires g.Ok() && id in files0 && offset <= |files0[id].bytes| && w <= |data|
    requires w == 0 || w == |data| || offset + w == g.Start(m)
    ensures var file := files0[id];
            OldOrNew(g, files0, files0[id := file.(bytes := Written(file.bytes, offset, data[..w]))],
                     files0[id := file.(bytes := Written(file.bytes, offset, data))])
  {
    var file := files0[id];
    var mid, end := Written(file.bytes, offset, data[..w]), Written(file.bytes, offset, data);
    var files, files1 := files0[id := file.(bytes := mid)], files0[id := file.(bytes := end)];
    forall i, k: nat | HasSpan(g, files0, i, k) && HasSpan(g, files1, i, k)
      ensures HasSpan(g, files, i, k)
      ensures ImageOf(g, files, i, k) == ImageOf(g, files0, i, k) || ImageOf(g, files, i, k) == ImageOf(g, files1, i, k)
    {
      if i == id {
        HalfImage(g, file.bytes, offset, data, w, m, k);
      }
    }
  }

  lemma HalfImage(g: Geometry, bytes: seq<Byte>, offset: nat, data: seq<Byte>, w: nat, m: nat, k: nat)
    requires g.Ok() && offset <= |bytes| && w <= |data| && k < g.Pages(|bytes|)
    requires w == 0 || w == |data| || offset + w == g.Start(m)
    ensures var mid := Written(bytes, offset, data[..w]);
            k < g.Pages(|mid|) &&
            (PageImage(g, mid, k) == PageImage(g, bytes, k) || PageImage(g, mid, k) == PageImage(g, Written(bytes, offset, data), k))
  {
    var mid, end := Written(bytes, offset, data[..w]), Written(bytes, offset, data);
    g.PagesBounds(|bytes|, k);
    g.PagesBounds(|mid|, k);
    if w == 0 {
      assert mid == bytes;
    } else if w == |data| {
      assert mid == end;
    } else if k < m {
      g.StartMonotone(k, m);
      assert PageImage(g, mid, k) == PageImage(g, end, k);
    } else {
      g.StartMonotone(m, k);
      assert PageImage(g, mid, k) == PageImage(g, bytes, k);
    }
  }

  /** Files that are the same before and after are simply visible. */
  lemma RestImages(g: Geometry, log0: seq<Flash>, log: seq<Flash>, files0: map<nat, File>, files1: map<nat, File>, rest: map<nat, File>)
    requires g.Ok() && LogImages(g, log0, log, files0, files1)
    requires forall id | id in rest :: id in files0 && id in files1 && files0[id] == rest[id] && files1[id] == rest[id]
    ensures LogImages(g, log0, log, rest, rest)
  {
    forall i | |log0| <= i < |log|
      ensures ImagesOk(g, log[i], rest, rest)
    {
      RestShown(g, log[i], files0, files1, rest);
    }
  }

  lemma RestShown(g: Geometry, f: Flash, files0: map<nat, File>, files1: map<nat, File>, rest: map<nat, File>)
    requires g.Ok() && ImagesOk(g, f, files0, files1)
    requires forall id | id in rest :: id in files0 && id in files1 && files0[id] == rest[id] && files1[id] == rest[id]
    ensures ImagesOk(g, f, rest, rest)
  {
    hide Shown;
    forall id, k: nat | HasSpan(g, rest, id, k)
      ensures Shown(f, Key(id, false, k), ImageOf(g, rest, id, k))
    {
      assert HasSpan(g, files0, id, k) && HasSpan(g, files1, id, k);
      assert ImageOf(g, files0, id, k) == ImageOf(g, rest, id, k) == ImageOf(g, files1, id, k);
    }
  }

  lemma ChainImages(g: Geometry, log0: seq<Flash>, log1: seq<Flash>, log2: seq<Flash>, files: map<nat, File>)
    requires g.Ok() && LogImages(g, log0, log1, files, files) && LogImages(g, log1, log2, files, files)
    ensures LogImages(g, log0, log2, files, files)
  {
    forall i | |log0| <= i < |log2|
      ensures ImagesOk(g, log2[i], files, files)
    {
      assert i < |log1| ==> log2[i] == log1[i];
    }
  }
}
