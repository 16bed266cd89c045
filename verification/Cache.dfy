/** The page cache between the file system and the flash (spiffs_cache.c, and the dropping of cached
    pages in spiffs_gc_erase_block). Reads fill it, writes pass through it. */
module Cache {
  import opened Options

  type Byte = bv8

  /** Header of a cache page: a copy of flash page `pix`, or (`wr`) data of object `obj` to be written. */
  datatype Header = Header(wr: bool, wrthru: bool, dirty: bool, lastAccess: nat, pix: nat, obj: nat, offset: nat, size: nat)

  /** Kinds of write. */
  datatype Op = Update | Delete | DeleteLookup | WriteThru

  /** NOR flash: what writing `src` at `off` makes of a page. */
  function Burnt(page: seq<Byte>, off: nat, src: seq<Byte>): (r: seq<Byte>)
    requires off + |src| <= |page|
    ensures |r| == |page|
  {
    seq(|page|, i requires 0 <= i < |page| => if off <= i < off + |src| then page[i] & src[i - off] else page[i])
  }

  function Patched(page: seq<Byte>, off: nat, src: seq<Byte>): (r: seq<Byte>)
    requires off + |src| <= |page|
    ensures |r| == |page|
  {
    page[..off] + src + page[off + |src|..]
  }

  /** Writing `src` only clears bits of what is stored. */
  ghost predicate Clears(page: seq<Byte>, off: nat, src: seq<Byte>)
    requires off + |src| <= |page|
  {
    forall i | 0 <= i < |src| :: page[off + i] & src[i] == src[i]
  }

  /** A copy of the page that takes the new bytes as they are stays a copy exactly if the write clears bits only. */
  lemma CopyStays(page: seq<Byte>, off: nat, src: seq<Byte>)
    requires off + |src| <= |page|
    ensures Patched(page, off, src) == Burnt(page, off, src) <==> Clears(page, off, src)
  {
    var a, b := Patched(page, off, src), Burnt(page, off, src);
    forall i | 0 <= i < |src|
      ensures a[off + i] == src[i] && b[off + i] == page[off + i] & src[i]
    {
    }
    if Clears(page, off, src) {
      forall i | 0 <= i < |page|
        ensures a[i] == b[i]
      {
        if off <= i < off + |src| {
          assert a[off + (i - off)] == b[off + (i - off)];
        }
      }
    }
  }

  ghost predicate IsRead(used: seq<bool>, hdr: seq<Header>, i: int)
    requires |used| == |hdr|
  {
    0 <= i < |used| && used[i] && !hdr[i].wr
  }

  /** No page is cached twice. */
  ghost predicate Distinct(used: seq<bool>, hdr: seq<Header>)
    requires |used| == |hdr|
  {
    forall i, j | IsRead(used, hdr, i) && IsRead(used, hdr, j) && hdr[i].pix == hdr[j].pix :: i == j
  }

  /** Cached pages, but for those in `but`, equal the flash. */
  ghost predicate Copies(flash: seq<seq<Byte>>, used: seq<bool>, hdr: seq<Header>, mem: seq<seq<Byte>>, but: set<nat>)
    requires |used| == |hdr| == |mem|
  {
    forall i | IsRead(used, hdr, i) ::
      && hdr[i].pix < |flash| && hdr[i].wrthru && !hdr[i].dirty
      && (hdr[i].pix !in but ==> mem[i] == flash[hdr[i].pix])
  }

  class PageCache {
    const pageSize: nat
    var flash: seq<seq<Byte>>      // pages
    var lastAccess: nat
    var halReads: nat              // reads of the flash so far
    var used: array<bool>          // cpage_use_map
    var hdr: array<Header>
    var mem: array<seq<Byte>>

    ghost predicate Sized()
      reads this, mem
    {
      && used.Length == hdr.Length == mem.Length
      && (forall p | 0 <= p < |flash| :: |flash[p]| == pageSize) && (forall i | 0 <= i < mem.Length :: |mem[i]| == pageSize)
    }

    /** Coherence, but for pages in `but`. */
    ghost predicate CoherentBut(but: set<nat>)
      reads this, used, hdr, mem
    {
      Sized() && Distinct(used[..], hdr[..]) && Copies(flash, used[..], hdr[..], mem[..], but)
        && forall i | 0 <= i < hdr.Length && used[i] :: hdr[i].lastAccess <= lastAccess
    }

    ghost predicate Coherent()
      reads this, used, hdr, mem
    {
      CoherentBut({})
    }

    /** Some cache page holds no data to be written. */
    ghost predicate HasReadPage()
      reads this, used, hdr
    {
      used.Length == hdr.Length && exists i :: 0 <= i < used.Length && !(used[i] && hdr[i].wr)
    }

    ghost predicate Cached(pix: nat)
      reads this, used, hdr
    {
      used.Length == hdr.Length && exists i :: IsRead(used[..], hdr[..], i) && hdr[i].pix == pix
    }

    /** Page `pix` is cached, and has been accessed after all other pages. */
    ghost predicate Newest(pix: nat)
      reads this, used, hdr
    {
      && used.Length == hdr.Length
      && exists i ::
           && IsRead(used[..], hdr[..], i) && hdr[i].pix == pix && hdr[i].lastAccess == lastAccess
           && forall j | 0 <= j < hdr.Length && j != i && used[j] :: hdr[j].lastAccess < lastAccess
    }

    /** The cache page that is a copy of page `pix`. */
    method PageGet(pix: nat) returns (r: Option<nat>)
      requires Sized()
      modifies hdr
      ensures Sized()
      ensures r.Some? ==> r.value < hdr.Length && used[r.value] && !hdr[r.value].wr && hdr[r.value].pix == pix
                          && forall i | 0 <= i < hdr.Length && i != r.value :: hdr[i] == old(hdr[i])
      ensures r.Some? ==> hdr[r.value] == old(hdr[r.value]).(lastAccess := lastAccess)
      ensures r.None? ==> (forall i | 0 <= i < hdr.Length :: hdr[i] == old(hdr[i])) && forall i | IsRead(used[..], hdr[..], i) :: hdr[i].pix != pix
    {
      var i := 0;
      while i < hdr.Length
        invariant i <= hdr.Length
        invariant forall j | 0 <= j < i :: !(used[j] && !hdr[j].wr && hdr[j].pix == pix)
      {
        if used[i] && !hdr[i].wr && hdr[i].pix == pix {
          hdr[i] := hdr[i].(lastAccess := lastAccess);
          r := Some(i);
          return;
        }
        i := i + 1;
      }
      r := None;
    }

    /** Frees a cache page; one that is dirty would be written back. */
    method PageFree(ix: nat, writeBack: bool)
      requires Sized() && ix < hdr.Length && (used[ix] && hdr[ix].dirty ==> hdr[ix].pix < |flash|)
      modifies `flash, used, hdr
      ensures !used[ix] && old(|mem[ix]| == pageSize)
      ensures old(used[ix]) ==> hdr[ix] == old(hdr[ix]).(wr := false, wrthru := false, dirty := false)
      ensures flash == if old(used[ix] && writeBack && !hdr[ix].wr && hdr[ix].dirty)
                       then old(flash)[old(hdr[ix].pix) := Burnt(old(flash[hdr[ix].pix]), 0, mem[ix])] else old(flash)
      ensures forall i | 0 <= i < hdr.Length && i != ix :: used[i] == old(used[i]) && hdr[i] == old(hdr[i])
    {
      if used[ix] {
        if writeBack && !hdr[ix].wr && hdr[ix].dirty {
          flash := flash[hdr[ix].pix := Burnt(flash[hdr[ix].pix], 0, mem[ix])];
        }
        hdr[ix] := hdr[ix].(wr := false, wrthru := false, dirty := false);
        used[ix] := false;
      }
    }

    /** If every cache page is in use, frees the copy that was not accessed for longest; pages to be
        written are not touched. */
    method RemoveOldest() returns (ghost freed: Option<nat>)
      requires Coherent()
      modifies `flash, used, hdr
      ensures flash == old(flash) && Coherent()
      ensures freed.Some? ==> freed.value < hdr.Length && !used[freed.value] && old(used[freed.value] && !hdr[freed.value].wr)
      ensures freed.Some? ==> (forall i | 0 <= i < used.Length :: old(used[i])) && old(hdr[freed.value].lastAccess) != lastAccess
      ensures forall i | 0 <= i < hdr.Length && freed != Some(i) :: used[i] == old(used[i]) && hdr[i] == old(hdr[i])
      ensures freed.None? ==> (exists i :: 0 <= i < used.Length && !used[i])
                              || forall i | 0 <= i < used.Length && !hdr[i].wr :: hdr[i].lastAccess == lastAccess
      ensures freed.Some? ==> forall i | 0 <= i < used.Length && !old(hdr[i].wr) :: old(hdr[i].lastAccess) >= old(hdr[freed.value].lastAccess)
    {
      freed := None;
      var i := 0;
      while i < used.Length && used[i]
        invariant i <= used.Length && forall j | 0 <= j < i :: used[j]
      {
        i := i + 1;
      }
      if i < used.Length {
        // at least one free page
        return;
      }
      var cand: Option<nat> := None;
      var oldest := 0;
      i := 0;
      while i < hdr.Length
        invariant i <= hdr.Length && oldest >= 0
        invariant cand.None? ==> oldest == 0
        invariant cand.Some? ==> cand.value < i && !hdr[cand.value].wr && 0 < oldest == lastAccess - hdr[cand.value].lastAccess
        invariant forall j | 0 <= j < i && !hdr[j].wr :: lastAccess - hdr[j].lastAccess <= oldest
      {
        if lastAccess - hdr[i].lastAccess > oldest && !hdr[i].wr {
          oldest := lastAccess - hdr[i].lastAccess;
          cand := Some(i);
        }
        i := i + 1;
      }
      if cand.Some? {
        assert IsRead(used[..], hdr[..], cand.value);
        PageFree(cand.value, true);
        freed := cand;
      }
    }

    /** Takes the first cache page that is not in use. */
    method Allocate() returns (r: Option<nat>)
      requires Sized()
      modifies used, hdr
      ensures r.None? <==> forall i | 0 <= i < used.Length :: old(used[i])
      ensures r.Some? ==> r.value < hdr.Length && !old(used[r.value]) && used[r.value]
                          && hdr[r.value] == old(hdr[r.value]).(lastAccess := lastAccess)
      ensures forall i | 0 <= i < hdr.Length && r != Some(i) :: used[i] == old(used[i]) && hdr[i] == old(hdr[i])
    {
      var i := 0;
      while i < used.Length
        invariant i <= used.Length && forall j | 0 <= j < i :: used[j]
      {
        if !used[i] {
          used[i] := true;
          hdr[i] := hdr[i].(lastAccess := lastAccess);
          r := Some(i);
          return;
        }
        i := i + 1;
      }
      r := None;
    }

    method HalRead(pix: nat, off: nat, len: nat) returns (out: seq<Byte>)
      requires pix < |flash| && off + len <= |flash[pix]|
      modifies `halReads
      ensures out == flash[pix][off..off + len] && halReads == old(halReads) + 1
    {
      out := flash[pix][off..off + len];
      halReads := halReads + 1;
    }

    /** Reads from a page of the flash, through the cache; lookups by page header (`lu2`) are not cached. The
        flash is read iff the page is not cached. Afterwards it is, as the one accessed last; at most one other
        copy has been given up for it, if every cache page was in use, and that is the one accessed first. */
    method PhysRd(lu2: bool, pix: nat, off: nat, len: nat) returns (out: seq<Byte>)
      requires Coherent() && HasReadPage() && pix < |flash| && off + len <= pageSize
      modifies `lastAccess, `halReads, `flash, used, hdr, mem
      ensures Coherent() && HasReadPage()
      ensures WritesKept(old(used[..]), old(hdr[..]), old(mem[..]), used[..], hdr[..], mem[..])
      ensures CopiesKept(old(used[..]), old(hdr[..]), old(mem[..]), used[..], hdr[..], mem[..], pix, true)
      ensures halReads == old(halReads) + (if old(Cached(pix)) then 0 else 1) && lastAccess == old(lastAccess) + 1
      ensures !lu2 || old(Cached(pix)) ==> Newest(pix)
      ensures flash == old(flash) && pix < |flash| && off + len <= |flash[pix]| && out == flash[pix][off..off + len]
    {
      hide Distinct, Copies, WritesKept;
      ghost var u, h, m := used[..], hdr[..], mem[..];
      var cp := PageGet(pix);
      lastAccess := lastAccess + 1;
      if cp.Some? {
        hdr[cp.value] := hdr[cp.value].(lastAccess := lastAccess);
        Touched(flash, u, h, m, cp.value, lastAccess);
        assert hdr[..] == h[cp.value := h[cp.value].(lastAccess := lastAccess)];
        assert IsRead(used[..], hdr[..], cp.value) && IsRead(u, h, cp.value);
        NoneGiven(u, h, m, cp.value, hdr[cp.value]);
        out := mem[cp.value][off..off + len];
      } else if lu2 {
        assert hdr[..] == h;
        NoneTouched(u, h, m);
        out := HalRead(pix, off, len);
      } else {
        assert hdr[..] == h;
        var ix := Fetch(pix);
        out := mem[ix][off..off + len];
      }
    }

    /** Makes a copy of page `pix`, which is not cached, in a free cache page, or one freed for it. */
    method Fetch(pix: nat) returns (ix: nat)
      requires Coherent() && HasReadPage() && pix < |flash|
      requires forall i | IsRead(used[..], hdr[..], i) :: hdr[i].pix != pix
      requires forall i | 0 <= i < hdr.Length && used[i] :: hdr[i].lastAccess < lastAccess
      modifies `flash, `halReads, used, hdr, mem
      ensures Coherent() && flash == old(flash) && ix < hdr.Length && !hdr[ix].wr && mem[ix] == flash[pix]
      ensures WritesKept(old(used[..]), old(hdr[..]), old(mem[..]), used[..], hdr[..], mem[..])
      ensures CopiesKept(old(used[..]), old(hdr[..]), old(mem[..]), used[..], hdr[..], mem[..], pix, true)
      ensures halReads == old(halReads) + 1 && Newest(pix)
    {
      hide Distinct, Copies, WritesKept, CopiesKept;
      ghost var u, h, m := used[..], hdr[..], mem[..];
      ghost var freed;
      freed := MakeRoom();
      ghost var u1, h1 := used[..], hdr[..];
      ix := TakeFree();
      hdr[ix] := hdr[ix].(wr := false, wrthru := true, dirty := false, pix := pix);
      mem[ix] := HalRead(pix, 0, pageSize);
      assert flash[pix][0..pageSize] == flash[pix];
      assert IsRead(used[..], hdr[..], ix);
      OneGiven(u, h, m, used[..], hdr[..], mem[..], freed, ix, pix);
      assert used[..] == u1[ix := true] && mem[..] == m[ix := flash[pix]] && hdr[..] == h1[ix := hdr[ix]];
      Filled(flash, u, h, u1, h1, m, freed, ix, hdr[ix], pix);
    }

    /** Frees a copy if every cache page is in use; one that is not to be written has an access before now. */
    method MakeRoom() returns (ghost freed: Option<nat>)
      requires Coherent() && HasReadPage()
      requires forall i | 0 <= i < hdr.Length && used[i] :: hdr[i].lastAccess < lastAccess
      modifies `flash, used, hdr
      ensures flash == old(flash) && Coherent() && exists i :: 0 <= i < used.Length && !used[i]
      ensures freed.Some? ==> freed.value < hdr.Length && !used[freed.value] && !old(hdr[freed.value].wr)
      ensures freed.Some? ==> Oldest(old(used[..]), old(hdr[..]), freed.value)
      ensures forall i | 0 <= i < hdr.Length && freed != Some(i) :: used[i] == old(used[i]) && hdr[i] == old(hdr[i])
    {
      hide Distinct, Copies;
      ghost var u, h := used[..], hdr[..];
      freed := RemoveOldest();
      SomeFree(u, h, used[..], hdr[..], freed, lastAccess);
    }

    method TakeFree() returns (ix: nat)
      requires Sized() && exists i :: 0 <= i < used.Length && !used[i]
      modifies used, hdr
      ensures ix < hdr.Length && !old(used[ix]) && used[ix] && hdr[ix] == old(hdr[ix]).(lastAccess := lastAccess)
      ensures forall i | 0 <= i < hdr.Length && i != ix :: used[i] == old(used[i]) && hdr[i] == old(hdr[i])
    {
      var cp := Allocate();
      ix := cp.value;
    }

    /** Writes to a page of the flash, and to its copy. */
    method PhysWr(op: Op, pix: nat, off: nat, src: seq<Byte>, ghost but: set<nat>) returns (ghost cached: bool)
      requires CoherentBut(but) && pix < |flash| && off + |src| <= pageSize
      modifies `flash, `lastAccess, used, hdr, mem
      ensures pix < |old(flash)| && off + |src| <= |old(flash)[pix]|
      ensures flash == old(flash)[pix := Burnt(old(flash)[pix], off, src)]
      ensures CoherentBut(but + {pix}) && WritesKept(old(used[..]), old(hdr[..]), old(mem[..]), used[..], hdr[..], mem[..])
      ensures cached <==> exists i :: IsRead(old(used[..]), old(hdr[..]), i) && old(hdr[..])[i].pix == pix
      ensures CopiesKept(old(used[..]), old(hdr[..]), old(mem[..]), used[..], hdr[..], mem[..], pix, false)
      ensures cached && (op.Update? || op.DeleteLookup?) ==> Newest(pix) && lastAccess == old(lastAccess) + 1
      ensures op.Delete? ==> !Cached(pix)
      ensures pix !in but && (!cached || op.Delete?) ==> CoherentBut(but)
      ensures pix !in but && cached && (op.Update? || op.DeleteLookup?) ==>
                (CoherentBut(but) <==> Clears(old(flash)[pix], off, src))
      ensures pix !in but && cached && op.WriteThru? ==> (CoherentBut(but) <==> Burnt(old(flash)[pix], off, src) == old(flash)[pix])
    {
      hide Distinct, Copies, WritesKept, Clears, Burnt, CopiesKept;
      ghost var u, h, m, f := used[..], hdr[..], mem[..], flash;
      var cp := PageGet(pix);
      cached := cp.Some?;
      if cp.None? {
        assert hdr[..] == h;
        NoneTouched(u, h, m);
        NotCached(f, u, h, m, pix, Burnt(f[pix], off, src), but);
        AllKept(u, h, m, pix);
        HalWrite(pix, off, src);
      } else {
        assert hdr[..] == h[cp.value := h[cp.value].(lastAccess := lastAccess)];
        assert IsRead(u, h, cp.value);
        if op.Delete? {
          GiveUp(cp.value, pix, off, src, but, h);
        } else if op.WriteThru? {
          PassBy(cp.value, pix, off, src, but, h);
        } else {
          UpdateCopy(cp.value, pix, off, src, but, h);
        }
      }
    }

    /** A write to a page whose copy is given up. */
    method GiveUp(ix: nat, pix: nat, off: nat, src: seq<Byte>, ghost but: set<nat>, ghost h: seq<Header>)
      requires Sized() && |h| == hdr.Length && Distinct(used[..], h) && Copies(flash, used[..], h, mem[..], but)
      requires IsRead(used[..], h, ix) && h[ix].pix == pix < |flash| && off + |src| <= pageSize
      requires hdr[..] == h[ix := h[ix].(lastAccess := lastAccess)] && forall i | 0 <= i < hdr.Length && used[i] :: hdr[i].lastAccess <= lastAccess
      modifies `flash, used, hdr
      ensures pix < |old(flash)| && off + |src| <= |old(flash)[pix]| && flash == old(flash)[pix := Burnt(old(flash)[pix], off, src)]
      ensures CoherentBut(but) && CoherentBut(but + {pix}) && !Cached(pix)
      ensures WritesKept(old(used[..]), h, mem[..], used[..], hdr[..], mem[..])
      ensures CopiesKept(old(used[..]), h, mem[..], used[..], hdr[..], mem[..], pix, false)
    {
      hide Distinct, Copies, WritesKept, Burnt, CopiesKept;
      ghost var u, m, f := used[..], mem[..], flash;
      assert !hdr[ix].wr && used[ix];
      CopyIs(f, u, h, m, ix, but);
      NotDirty(f, u, h, m, ix, but);
      PageFree(ix, false);
      assert used[..] == u[ix := false] && hdr[..] == h[ix := hdr[ix]];
      Freed(f, u, h, m, ix, hdr[ix], Burnt(f[pix], off, src), but);
      OneTouched(u, h, m, used[..], hdr[..], mem[..], ix);
      Gone(u, h, used[..], hdr[..], ix);
      HalWrite(pix, off, src);
    }

    /** A write past a copy. */
    method PassBy(ix: nat, pix: nat, off: nat, src: seq<Byte>, ghost but: set<nat>, ghost h: seq<Header>)
      requires Sized() && |h| == hdr.Length && Distinct(used[..], h) && Copies(flash, used[..], h, mem[..], but)
      requires IsRead(used[..], h, ix) && h[ix].pix == pix < |flash| && off + |src| <= pageSize
      requires hdr[..] == h[ix := h[ix].(lastAccess := lastAccess)] && forall i | 0 <= i < hdr.Length && used[i] :: hdr[i].lastAccess <= lastAccess
      modifies `flash
      ensures pix < |old(flash)| && off + |src| <= |old(flash)[pix]| && flash == old(flash)[pix := Burnt(old(flash)[pix], off, src)]
      ensures CoherentBut(but + {pix}) && WritesKept(used[..], h, mem[..], used[..], hdr[..], mem[..])
      ensures pix !in but ==> (CoherentBut(but) <==> Burnt(old(flash)[pix], off, src) == old(flash)[pix])
      ensures CopiesKept(used[..], h, mem[..], used[..], hdr[..], mem[..], pix, false)
    {
      hide Distinct, Copies, WritesKept, Burnt, CopiesKept;
      OneTouched(used[..], h, mem[..], used[..], hdr[..], mem[..], ix);
      ghost var u, m, f := used[..], mem[..], flash;
      Updated(f, u, h, m, ix, lastAccess, f[pix], Burnt(f[pix], off, src), but);
      if pix !in but {
        CopyIs(f, u, h, m, ix, but);
        assert m[ix := f[pix]] == m;
      } else {
        Stale(f, u, h, m, ix, lastAccess, Burnt(f[pix], off, src), but);
      }
      HalWrite(pix, off, src);
    }

    /** A write to a copy and to its page. */
    method UpdateCopy(ix: nat, pix: nat, off: nat, src: seq<Byte>, ghost but: set<nat>, ghost h: seq<Header>)
      requires Sized() && |h| == hdr.Length && Distinct(used[..], h) && Copies(flash, used[..], h, mem[..], but)
      requires IsRead(used[..], h, ix) && h[ix].pix == pix < |flash| && off + |src| <= pageSize
      requires hdr[..] == h[ix := h[ix].(lastAccess := lastAccess)] && forall i | 0 <= i < hdr.Length && used[i] :: hdr[i].lastAccess <= lastAccess
      modifies `flash, `lastAccess, hdr, mem
      ensures pix < |old(flash)| && off + |src| <= |old(flash)[pix]| && flash == old(flash)[pix := Burnt(old(flash)[pix], off, src)]
      ensures CoherentBut(but + {pix}) && WritesKept(used[..], h, old(mem[..]), used[..], hdr[..], mem[..])
      ensures pix !in but ==> (CoherentBut(but) <==> Clears(old(flash)[pix], off, src))
      ensures CopiesKept(used[..], h, old(mem[..]), used[..], hdr[..], mem[..], pix, false)
      ensures Newest(pix) && lastAccess == old(lastAccess) + 1
    {
      hide Distinct, Copies, WritesKept, Clears, Burnt, CopiesKept;
      ghost var u, m, f := used[..], mem[..], flash;
      CopyStays(flash[pix], off, src);
      assert used[ix] && !h[ix].wr;
      mem[ix] := Patched(mem[ix], off, src);
      lastAccess := lastAccess + 1;
      hdr[ix] := hdr[ix].(lastAccess := lastAccess);
      assert mem[..] == m[ix := mem[ix]] && hdr[..] == h[ix := h[ix].(lastAccess := lastAccess)];
      assert IsRead(used[..], hdr[..], ix);
      OneTouched(u, h, m, used[..], hdr[..], mem[..], ix);
      if pix !in but {
        CopyIs(f, u, h, m, ix, but);
      }
      Updated(f, u, h, m, ix, lastAccess, mem[ix], Burnt(f[pix], off, src), but);
      HalWrite(pix, off, src);
    }

    method HalWrite(pix: nat, off: nat, src: seq<Byte>)
      requires pix < |flash| && off + |src| <= |flash[pix]|
      modifies `flash
      ensures flash == old(flash)[pix := Burnt(old(flash)[pix], off, src)]
    {
      flash := flash[pix := Burnt(flash[pix], off, src)];
    }

    /** Drops the copy of page `pix`, if there is one. */
    method DropPage(pix: nat, ghost but: set<nat>)
      requires CoherentBut(but)
      modifies `flash, used, hdr
      ensures CoherentBut(but - {pix}) && flash == old(flash)
      ensures WritesKept(old(used[..]), old(hdr[..]), mem[..], used[..], hdr[..], mem[..])
    {
      hide Distinct, Copies, WritesKept;
      ghost var u, h, m := used[..], hdr[..], mem[..];
      var cp := PageGet(pix);
      if cp.Some? {
        assert IsRead(u, h, cp.value);
        assert hdr[..] == h[cp.value := h[cp.value].(lastAccess := lastAccess)];
        NotDirty(flash, u, h, m, cp.value, but);
        PageFree(cp.value, false);
        assert used[..] == u[cp.value := false] && hdr[..] == h[cp.value := hdr[cp.value]];
        Dropped(flash, u, h, m, cp.value, hdr[cp.value], but);
      } else {
        assert hdr[..] == h;
        NoneTouched(u, h, m);
        Absent(flash, u, h, m, pix, but);
      }
    }

    /** Erases the `n` pages of a block from page `first` on, writes the erase counter past the cache,
        and drops what is cached of the block (spiffs_gc_erase_block). */
    method EraseBlock(first: nat, n: nat, countPix: nat, countOff: nat, count: seq<Byte>)
      requires Coherent() && first + n <= |flash| && first <= countPix < first + n && countOff + |count| <= pageSize
      modifies `flash, `lastAccess, used, hdr, mem
      ensures Coherent() && |flash| == |old(flash)|
      ensures WritesKept(old(used[..]), old(hdr[..]), old(mem[..]), used[..], hdr[..], mem[..])
      ensures forall p | 0 <= p < |flash| && !(first <= p < first + n) :: flash[p] == old(flash)[p]
      ensures forall p | first <= p < first + n && p != countPix :: flash[p] == seq(pageSize, _ => 0xff)
      ensures countOff + |count| <= |seq(pageSize, _ => 0xff as Byte)| && flash[countPix] == Patched(seq(pageSize, _ => 0xff), countOff, count)
    {
      hide Distinct, Copies, WritesKept, Patched;
      ghost var u, h, m := used[..], hdr[..], mem[..];
      ghost var but := Range(first, n);
      InRange(first, n);
      BlockGone(flash, u, h, m, but);
      HalErase(first, n);
      NoneTouched(u, h, m);
      ghost var erased := flash;
      ghost var cached := PhysWr(WriteThru, countPix, countOff, count, but);
      BlankTakes(pageSize, countOff, count);
      assert but + {countPix} == but;
      ghost var u1, h1, m1 := used[..], hdr[..], mem[..];
      DropBlock(first, n);
      KeptTwice(u, h, m, u1, h1, m1, used[..], hdr[..], mem[..]);
    }

    method HalErase(first: nat, n: nat)
      requires first + n <= |flash|
      modifies `flash
      ensures |flash| == |old(flash)|
      ensures forall p | 0 <= p < |flash| :: flash[p] == if first <= p < first + n then seq(pageSize, _ => 0xff) else old(flash)[p]
    {
      var pages, blank := flash, seq(pageSize, _ => 0xff as Byte);
      flash := seq(|pages|, p requires 0 <= p < |pages| => if first <= p < first + n then blank else pages[p]);
    }

    /** Drops every page of a block. */
    method DropBlock(first: nat, n: nat)
      requires CoherentBut(Range(first, n))
      modifies `flash, used, hdr
      ensures Coherent() && flash == old(flash)
      ensures WritesKept(old(used[..]), old(hdr[..]), mem[..], used[..], hdr[..], mem[..])
    {
      hide Distinct, Copies, WritesKept;
      ghost var u, h, m := used[..], hdr[..], mem[..];
      NoneTouched(u, h, m);
      var i := 0;
      while i < n
        invariant i <= n && CoherentBut(Range(first + i, n - i)) && flash == old(flash)
        invariant WritesKept(u, h, m, used[..], hdr[..], mem[..])
      {
        ghost var u1, h1 := used[..], hdr[..];
        DropPage(first + i, Range(first + i, n - i));
        KeptTwice(u, h, m, u1, h1, m, used[..], hdr[..], mem[..]);
        InRange(first + i + 1, n - i - 1);
        assert Range(first + i, n - i) - {first + i} == Range(first + i + 1, n - i - 1);
        i := i + 1;
      }
    }

    /** The cache page with data to be written for object `obj`. */
    method PageGetByFd(obj: nat) returns (r: Option<nat>)
      requires used.Length == hdr.Length
      ensures r.Some? ==> r.value < hdr.Length && used[r.value] && hdr[r.value].wr && hdr[r.value].obj == obj
      ensures r.None? ==> forall i | 0 <= i < hdr.Length && used[i] && hdr[i].wr :: hdr[i].obj != obj
    {
      var i := 0;
      while i < hdr.Length
        invariant i <= hdr.Length && forall j | 0 <= j < i && used[j] && hdr[j].wr :: hdr[j].obj != obj
      {
        if used[i] && hdr[i].wr && hdr[i].obj == obj {
          r := Some(i);
          return;
        }
        i := i + 1;
      }
      r := None;
    }

    /** Takes a cache page for data of object `obj` to be written, freeing a copy if need be; none of
        the pages with data to be written is given up. */
    method AllocateByFd(obj: nat, offset: nat) returns (r: Option<nat>)
      requires Coherent()
      modifies `flash, used, hdr
      ensures Coherent() && flash == old(flash)
      ensures WritesKept(old(used[..]), old(hdr[..]), mem[..], used[..], hdr[..], mem[..])
      ensures r.Some? ==> r.value < hdr.Length && used[r.value] && hdr[r.value].wr && hdr[r.value].obj == obj
                          && hdr[r.value].offset == offset && hdr[r.value].size == 0 && !old(used[r.value] && hdr[r.value].wr)
                          && !hdr[r.value].wrthru && !hdr[r.value].dirty && hdr[r.value].lastAccess == lastAccess
      ensures r.None? <==> (forall i | 0 <= i < used.Length :: old(used[i]))
                           && forall i | 0 <= i < hdr.Length && !old(hdr[i].wr) :: old(hdr[i].lastAccess) == lastAccess
    {
      hide Distinct, Copies, WritesKept;
      ghost var u, h, m := used[..], hdr[..], mem[..];
      ghost var freed := RemoveOldest();
      ghost var u1, h1 := used[..], hdr[..];
      r := Allocate();
      if r.Some? {
        hdr[r.value] := hdr[r.value].(wr := true, wrthru := false, dirty := false, obj := obj, offset := offset, size := 0);
        assert used[..] == u1[r.value := true] && hdr[..] == h1[r.value := hdr[r.value]];
        Taken(flash, u, h, u1, h1, m, freed, r.value, hdr[r.value]);
      } else {
        assert used[..] == u1 && hdr[..] == h1;
        Evicted(u, h, u1, h1, m, freed);
      }
    }

    /** Releases a cache page whose data has been written. */
    method FdRelease(ix: nat)
      requires Coherent() && ix < hdr.Length && used[ix] && hdr[ix].wr && (hdr[ix].dirty ==> hdr[ix].pix < |flash|)
      modifies `flash, used, hdr
      ensures Coherent() && flash == old(flash) && !used[ix] && hdr[ix] == old(hdr[ix]).(wr := false, wrthru := false, dirty := false, obj := 0)
      ensures forall i | 0 <= i < hdr.Length && i != ix :: used[i] == old(used[i]) && hdr[i] == old(hdr[i])
    {
      hide Distinct, Copies;
      ghost var u, h, m := used[..], hdr[..], mem[..];
      PageFree(ix, false);
      hdr[ix] := hdr[ix].(obj := 0);
      assert used[..] == u[ix := false] && hdr[..] == h[ix := hdr[ix]];
      Unused(flash, u, h, m, ix, hdr[ix]);
    }
  }

  /** Every cache page is in use, and copy `i` was accessed before all other copies. */
  ghost predicate Oldest(u: seq<bool>, h: seq<Header>, i: nat)
    requires |u| == |h|
  {
    i < |u| && (forall j | 0 <= j < |u| :: u[j]) && forall j | IsRead(u, h, j) :: h[i].lastAccess <= h[j].lastAccess
  }

  /** Copies of other pages than `pix` are as they were, but for cache page `given`. */
  ghost predicate KeptBut(u: seq<bool>, h: seq<Header>, m: seq<seq<Byte>>, u': seq<bool>, h': seq<Header>, m': seq<seq<Byte>>,
                          pix: nat, given: Option<nat>)
    requires |u| == |h| == |m| == |u'| == |h'| == |m'|
  {
    forall i | IsRead(u, h, i) && h[i].pix != pix && given != Some(i) :: u'[i] && h'[i] == h[i] && m'[i] == m[i]
  }

  /** Copies of other pages than `pix` are as they were, but for the oldest if one may be given up (`one`). */
  ghost predicate CopiesKept(u: seq<bool>, h: seq<Header>, m: seq<seq<Byte>>, u': seq<bool>, h': seq<Header>, m': seq<seq<Byte>>,
                             pix: nat, one: bool)
  {
    && |u| == |h| == |m| == |u'| == |h'| == |m'|
    && exists given: Option<nat> :: KeptBut(u, h, m, u', h', m', pix, given) && (given.Some? ==> one && Oldest(u, h, given.value))
  }

  lemma NoneGiven(u: seq<bool>, h: seq<Header>, m: seq<seq<Byte>>, ix: nat, x: Header)
    requires |u| == |h| == |m| && ix < |u|
    ensures CopiesKept(u, h, m, u, h[ix := x], m, h[ix].pix, true)
  {
    assert KeptBut(u, h, m, u, h[ix := x], m, h[ix].pix, None);
  }

  lemma AllKept(u: seq<bool>, h: seq<Header>, m: seq<seq<Byte>>, pix: nat)
    requires |u| == |h| == |m|
    ensures CopiesKept(u, h, m, u, h, m, pix, false)
  {
    assert KeptBut(u, h, m, u, h, m, pix, None);
  }

  lemma OneTouched(u: seq<bool>, h: seq<Header>, m: seq<seq<Byte>>, u': seq<bool>, h': seq<Header>, m': seq<seq<Byte>>, ix: nat)
    requires |u| == |h| == |m| == |u'| == |h'| == |m'| && ix < |u|
    requires forall i | 0 <= i < |u| && i != ix :: u'[i] == u[i] && h'[i] == h[i] && m'[i] == m[i]
    ensures CopiesKept(u, h, m, u', h', m', h[ix].pix, false)
  {
    assert KeptBut(u, h, m, u', h', m', h[ix].pix, None);
  }

  lemma OneGiven(u: seq<bool>, h: seq<Header>, m: seq<seq<Byte>>, u': seq<bool>, h': seq<Header>, m': seq<seq<Byte>>,
                 freed: Option<nat>, ix: nat, pix: nat)
    requires |u| == |h| == |m| == |u'| == |h'| == |m'| && ix < |u|
    requires freed.Some? ==> Oldest(u, h, freed.value)
    requires freed == Some(ix) || !u[ix]
    requires forall i | 0 <= i < |u| && i != ix && freed != Some(i) :: u'[i] == u[i] && h'[i] == h[i] && m'[i] == m[i]
    ensures CopiesKept(u, h, m, u', h', m', pix, true)
  {
    assert KeptBut(u, h, m, u', h', m', pix, freed);
  }

  /** Pages with data to be written are as they were. */
  ghost predicate WritesKept(u: seq<bool>, h: seq<Header>, m: seq<seq<Byte>>, u': seq<bool>, h': seq<Header>, m': seq<seq<Byte>>) {
    && |u| == |h| == |m| == |u'| == |h'| == |m'|
    && forall i | 0 <= i < |u| && u[i] && h[i].wr :: u'[i] && h'[i] == h[i] && m'[i] == m[i]
  }

  lemma NoneTouched(u: seq<bool>, h: seq<Header>, m: seq<seq<Byte>>)
    requires |u| == |h| == |m|
    ensures WritesKept(u, h, m, u, h, m)
  {
  }

  lemma Touched(flash: seq<seq<Byte>>, u: seq<bool>, h: seq<Header>, m: seq<seq<Byte>>, ix: nat, access: nat)
    requires |u| == |h| == |m| && IsRead(u, h, ix) && Distinct(u, h) && Copies(flash, u, h, m, {})
    ensures var h' := h[ix := h[ix].(lastAccess := access)];
            Distinct(u, h') && Copies(flash, u, h', m, {}) && WritesKept(u, h, m, u, h', m) && h[ix].pix < |flash| && m[ix] == flash[h[ix].pix]
  {
    var h' := h[ix := h[ix].(lastAccess := access)];
    assert forall i :: IsRead(u, h', i) <==> IsRead(u, h, i);
  }

  lemma SomeFree(u: seq<bool>, h: seq<Header>, u1: seq<bool>, h1: seq<Header>, freed: Option<nat>, access: nat)
    requires |u| == |h| == |u1| == |h1| && exists i :: 0 <= i < |u| && !(u[i] && h[i].wr)
    requires forall i | 0 <= i < |h| && u[i] :: h[i].lastAccess < access
    requires freed.Some? ==> freed.value < |u1| && !u1[freed.value]
    requires freed.None? ==> u1 == u && h1 == h
                             && ((exists i :: 0 <= i < |u| && !u[i]) || forall i | 0 <= i < |u| && !h[i].wr :: h[i].lastAccess == access)
    ensures exists i :: 0 <= i < |u1| && !u1[i]
  {
  }

  lemma Filled(flash: seq<seq<Byte>>, u: seq<bool>, h: seq<Header>, u1: seq<bool>, h1: seq<Header>, m: seq<seq<Byte>>,
               freed: Option<nat>, ix: nat, x: Header, pix: nat)
    requires |u| == |h| == |m| == |u1| == |h1| && ix < |u| && pix < |flash|
    requires Distinct(u1, h1) && Copies(flash, u1, h1, m, {}) && !u1[ix]
    requires forall i | IsRead(u, h, i) :: h[i].pix != pix
    requires freed.Some? ==> freed.value < |u| && !h[freed.value].wr && !u1[freed.value]
    requires forall i | 0 <= i < |u| && freed != Some(i) :: u1[i] == u[i] && h1[i] == h[i]
    requires !x.wr && x.wrthru && !x.dirty && x.pix == pix
    ensures Distinct(u1[ix := true], h1[ix := x]) && Copies(flash, u1[ix := true], h1[ix := x], m[ix := flash[pix]], {})
    ensures WritesKept(u, h, m, u1[ix := true], h1[ix := x], m[ix := flash[pix]])
  {
    var u2, h2 := u1[ix := true], h1[ix := x];
    assert forall i | i != ix :: IsRead(u2, h2, i) <==> IsRead(u1, h1, i);
    assert forall i | IsRead(u1, h1, i) :: IsRead(u, h, i);
  }

  lemma CopyIs(flash: seq<seq<Byte>>, u: seq<bool>, h: seq<Header>, m: seq<seq<Byte>>, ix: nat, but: set<nat>)
    requires |u| == |h| == |m| && IsRead(u, h, ix) && Copies(flash, u, h, m, but)
    ensures h[ix].pix < |flash| && (h[ix].pix !in but ==> m[ix] == flash[h[ix].pix])
  {
  }

  lemma NotCached(flash: seq<seq<Byte>>, u: seq<bool>, h: seq<Header>, m: seq<seq<Byte>>, pix: nat, page: seq<Byte>, but: set<nat>)
    requires |u| == |h| == |m| && Copies(flash, u, h, m, but) && pix < |flash|
    requires forall i | IsRead(u, h, i) :: h[i].pix != pix
    ensures Copies(flash[pix := page], u, h, m, but) && Copies(flash[pix := page], u, h, m, but + {pix})
  {
  }

  lemma Gone(u: seq<bool>, h: seq<Header>, u': seq<bool>, h': seq<Header>, ix: nat)
    requires |u| == |h| == |u'| == |h'| && Distinct(u, h) && IsRead(u, h, ix) && !u'[ix]
    requires forall i | 0 <= i < |u| && i != ix :: u'[i] == u[i] && h'[i] == h[i]
    ensures forall i | IsRead(u', h', i) :: h'[i].pix != h[ix].pix
  {
    forall i | IsRead(u', h', i)
      ensures h'[i].pix != h[ix].pix
    {
      assert i != ix && IsRead(u, h, i);
    }
  }

  lemma Freed(flash: seq<seq<Byte>>, u: seq<bool>, h: seq<Header>, m: seq<seq<Byte>>, ix: nat, x: Header, page: seq<Byte>, but: set<nat>)
    requires |u| == |h| == |m| && Distinct(u, h) && Copies(flash, u, h, m, but) && IsRead(u, h, ix)
    ensures h[ix].pix < |flash|
    ensures var u', h', f' := u[ix := false], h[ix := x], flash[h[ix].pix := page];
            Distinct(u', h') && Copies(f', u', h', m, but) && Copies(f', u', h', m, but + {h[ix].pix}) && WritesKept(u, h, m, u', h', m)
  {
    var u', h' := u[ix := false], h[ix := x];
    assert forall i :: IsRead(u', h', i) <==> IsRead(u, h, i) && i != ix;
  }

  /** A copy takes a payload, and its page another: coherence stays exactly if they are the same. */
  lemma Updated(flash: seq<seq<Byte>>, u: seq<bool>, h: seq<Header>, m: seq<seq<Byte>>, ix: nat, access: nat,
                copy: seq<Byte>, page: seq<Byte>, but: set<nat>)
    requires |u| == |h| == |m| && Distinct(u, h) && Copies(flash, u, h, m, but) && IsRead(u, h, ix)
    ensures h[ix].pix < |flash|
    ensures var h', f', m' := h[ix := h[ix].(lastAccess := access)], flash[h[ix].pix := page], m[ix := copy];
            && Distinct(u, h') && Copies(f', u, h', m', but + {h[ix].pix}) && WritesKept(u, h, m, u, h', m')
            && (h[ix].pix !in but ==> (Copies(f', u, h', m', but) <==> copy == page))
  {
    var h', f', m' := h[ix := h[ix].(lastAccess := access)], flash[h[ix].pix := page], m[ix := copy];
    assert forall i :: IsRead(u, h', i) <==> IsRead(u, h, i);
  }

  lemma Stale(flash: seq<seq<Byte>>, u: seq<bool>, h: seq<Header>, m: seq<seq<Byte>>, ix: nat, access: nat, page: seq<Byte>, but: set<nat>)
    requires |u| == |h| == |m| && Distinct(u, h) && Copies(flash, u, h, m, but) && IsRead(u, h, ix) && h[ix].pix in but
    ensures h[ix].pix < |flash|
    ensures var h', f' := h[ix := h[ix].(lastAccess := access)], flash[h[ix].pix := page];
            Distinct(u, h') && Copies(f', u, h', m, but + {h[ix].pix}) && WritesKept(u, h, m, u, h', m)
  {
    var h', f' := h[ix := h[ix].(lastAccess := access)], flash[h[ix].pix := page];
    assert forall i :: IsRead(u, h', i) <==> IsRead(u, h, i);
  }

  ghost function Range(a: nat, n: nat): set<nat>
    decreases n
  {
    if n == 0 then {} else {a} + Range(a + 1, n - 1)
  }

  lemma {:induction false} InRange(a: nat, n: nat)
    ensures forall p: nat :: p in Range(a, n) <==> a <= p < a + n
    decreases n
  {
    if n > 0 {
      InRange(a + 1, n - 1);
    }
  }

  lemma NotDirty(flash: seq<seq<Byte>>, u: seq<bool>, h: seq<Header>, m: seq<seq<Byte>>, ix: nat, but: set<nat>)
    requires |u| == |h| == |m| && IsRead(u, h, ix) && Copies(flash, u, h, m, but)
    ensures !h[ix].dirty
  {
  }

  lemma Dropped(flash: seq<seq<Byte>>, u: seq<bool>, h: seq<Header>, m: seq<seq<Byte>>, ix: nat, x: Header, but: set<nat>)
    requires |u| == |h| == |m| && Distinct(u, h) && Copies(flash, u, h, m, but) && IsRead(u, h, ix)
    ensures Distinct(u[ix := false], h[ix := x]) && Copies(flash, u[ix := false], h[ix := x], m, but - {h[ix].pix})
    ensures WritesKept(u, h, m, u[ix := false], h[ix := x], m)
  {
    var u', h' := u[ix := false], h[ix := x];
    assert forall i :: IsRead(u', h', i) <==> IsRead(u, h, i) && i != ix;
  }

  lemma Absent(flash: seq<seq<Byte>>, u: seq<bool>, h: seq<Header>, m: seq<seq<Byte>>, pix: nat, but: set<nat>)
    requires |u| == |h| == |m| && Copies(flash, u, h, m, but) && forall i | IsRead(u, h, i) :: h[i].pix != pix
    ensures Copies(flash, u, h, m, but - {pix})
  {
  }

  lemma BlockGone(flash: seq<seq<Byte>>, u: seq<bool>, h: seq<Header>, m: seq<seq<Byte>>, but: set<nat>)
    requires |u| == |h| == |m| && Copies(flash, u, h, m, {})
    ensures forall f | |f| == |flash| && (forall p | 0 <= p < |f| && p !in but :: f[p] == flash[p]) :: Copies(f, u, h, m, but)
  {
  }

  lemma BlankTakes(n: nat, off: nat, src: seq<Byte>)
    requires off + |src| <= n
    ensures |seq(n, _ => 0xff as Byte)| == n && Burnt(seq(n, _ => 0xff), off, src) == Patched(seq(n, _ => 0xff), off, src)
  {
    var page := seq(n, _ => 0xff as Byte);
    assert Clears(page, off, src) by {
      forall i | 0 <= i < |src|
        ensures page[off + i] & src[i] == src[i]
      {
        AndOnes(src[i]);
      }
    }
    CopyStays(page, off, src);
  }

  lemma AndOnes(b: Byte)
    ensures 0xff & b == b
  {
  }

  lemma KeptTwice(u: seq<bool>, h: seq<Header>, m: seq<seq<Byte>>, u1: seq<bool>, h1: seq<Header>, m1: seq<seq<Byte>>,
                  u2: seq<bool>, h2: seq<Header>, m2: seq<seq<Byte>>)
    requires WritesKept(u, h, m, u1, h1, m1) && WritesKept(u1, h1, m1, u2, h2, m2)
    ensures WritesKept(u, h, m, u2, h2, m2)
  {
  }

  lemma Taken(flash: seq<seq<Byte>>, u: seq<bool>, h: seq<Header>, u1: seq<bool>, h1: seq<Header>, m: seq<seq<Byte>>,
              freed: Option<nat>, ix: nat, x: Header)
    requires |u| == |h| == |m| == |u1| == |h1| && ix < |u| && x.wr
    requires Distinct(u1, h1) && Copies(flash, u1, h1, m, {}) && !u1[ix]
    requires freed.Some? ==> freed.value < |u| && !h[freed.value].wr && !u1[freed.value]
    requires forall i | 0 <= i < |u| && freed != Some(i) :: u1[i] == u[i] && h1[i] == h[i]
    ensures Distinct(u1[ix := true], h1[ix := x]) && Copies(flash, u1[ix := true], h1[ix := x], m, {})
    ensures WritesKept(u, h, m, u1[ix := true], h1[ix := x], m) && !(u[ix] && h[ix].wr)
  {
    var u2, h2 := u1[ix := true], h1[ix := x];
    assert forall i :: IsRead(u2, h2, i) <==> IsRead(u1, h1, i);
  }

  lemma Evicted(u: seq<bool>, h: seq<Header>, u1: seq<bool>, h1: seq<Header>, m: seq<seq<Byte>>, freed: Option<nat>)
    requires |u| == |h| == |m| == |u1| == |h1|
    requires freed.Some? ==> freed.value < |u| && !h[freed.value].wr
    requires forall i | 0 <= i < |u| && freed != Some(i) :: u1[i] == u[i] && h1[i] == h[i]
    ensures WritesKept(u, h, m, u1, h1, m)
  {
  }

  lemma Unused(flash: seq<seq<Byte>>, u: seq<bool>, h: seq<Header>, m: seq<seq<Byte>>, ix: nat, x: Header)
    requires |u| == |h| == |m| && ix < |u| && u[ix] && h[ix].wr && Distinct(u, h) && Copies(flash, u, h, m, {})
    ensures Distinct(u[ix := false], h[ix := x]) && Copies(flash, u[ix := false], h[ix := x], m, {})
  {
    var u', h' := u[ix := false], h[ix := x];
    assert forall i :: IsRead(u', h', i) <==> IsRead(u, h, i);
  }
}
