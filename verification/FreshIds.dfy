/** Finding an object id for a new file (spiffs_obj_lu_find_free_obj_id), where all ids fit the
    bitmap in the work buffer. */
module FreshIds {
  import opened Options
  import opened Layout
  import opened Catalog
  import opened Files
  import opened Store
  import opened Mount

  /** The test of the visitor that looks for the header of a file by name. */
  predicate NameAt(f: Flash, p: Pix, name: string) {
    && p in f.lu && f.lu[p].Live? && f.lu[p].ix && p in f.page
    && var pg := f.page[p];
       pg.hdr.span == 0 && pg.hdr.flags.delet && pg.hdr.flags.ixdele && !pg.hdr.flags.final && pg.body.Index? && pg.body.name == name
  }

  /** Whatever is on the flash, no header that is deleted, not finalised, or marked for removal is found. */
  lemma NameStrict(f: Flash, p: Pix, name: string)
    ensures NameAt(f, p, name) ==>
              && p in f.lu && f.lu[p].Live? && f.lu[p].ix && p in f.page && f.page[p].hdr.span == 0
              && f.page[p].hdr.flags.delet && f.page[p].hdr.flags.ixdele && !f.page[p].hdr.flags.final
  {
  }

  /** The visitor accepts exactly the headers of the files of that name. */
  lemma NameHit(g: Geometry, v: Vals, p: Pix, name: string)
    requires g.Ok() && PhysOk(g, v.f, v.d, v.c, v.n, None) && LogicOk(g, v, None, None) && v.d.removing == None
    ensures NameAt(v.f, p, name) <==>
            exists id :: id in v.files && v.files[id].name == name && Key(id, true, 0) in v.d.cat && v.d.cat[Key(id, true, 0)] == p
    ensures forall id | id in v.files :: Key(id, true, 0) in v.d.cat && g.In(v.d.cat[Key(id, true, 0)])
  {
    forall id | id in v.files
      ensures Key(id, true, 0) in v.d.cat && g.In(v.d.cat[Key(id, true, 0)])
    {
      assert HasIx(g, |v.files[id].bytes|, 0, false);
    }
    if NameAt(v.f, p, name) {
      var k := KeyAt(v.f, p);
      assert k in v.d.store && BodyOk(g, k, v.d.store[k], v.files[k.id], false);
    }
    forall id | id in v.files && v.files[id].name == name && v.d.cat[Key(id, true, 0)] == p
      ensures NameAt(v.f, p, name)
    {
      var k := Key(id, true, 0);
      assert v.f.page[v.d.cat[k]] == Page(HeaderOf(k, v.d.removing), v.d.store[k]);
      assert BodyOk(g, k, v.d.store[k], v.files[id], false);
    }
  }

  /** Some page of `pages` is a live page of object `id`. */
  ghost predicate HasId(l: map<Pix, Entry>, pages: set<Pix>, id: nat) {
    exists p :: p in pages && p in l && l[p].Live? && l[p].id == id
  }

  lemma OneSeen(l: map<Pix, Entry>, b: nat, e: nat)
    requires Pix(b, e) in l
    ensures Seen(l, b, e + 1) == Seen(l, b, e) + {Pix(b, e)}
  {
  }

  lemma HasIdStep(l: map<Pix, Entry>, pages: set<Pix>, p: Pix, id: nat)
    requires p in l
    ensures HasId(l, pages + {p}, id) <==> HasId(l, pages, id) || (l[p].Live? && l[p].id == id)
  {
    if l[p].Live? && l[p].id == id {
      assert p in pages + {p};
    }
    if HasId(l, pages, id) {
      var q :| q in pages && q in l && l[q].Live? && l[q].id == id;
      assert q in pages + {p};
    }
  }

  /** What a visited entry does to the bitmap: bit `k` stands for id `k + 1`. */
  method MarkId(bits: array<bool>, l: map<Pix, Entry>, ghost pages: set<Pix>, p: Pix)
    requires p in l && forall k | 0 <= k < bits.Length :: bits[k] <==> HasId(l, pages, k + 1)
    modifies bits
    ensures forall k | 0 <= k < bits.Length :: bits[k] <==> HasId(l, pages + {p}, k + 1)
  {
    forall id: nat
      ensures HasId(l, pages + {p}, id) <==> HasId(l, pages, id) || (l[p].Live? && l[p].id == id)
    {
      HasIdStep(l, pages, p, id);
    }
    if l[p].Live? {
      var k := l[p].id - 1;
      if 0 <= k < bits.Length {
        bits[k] := true;
      }
    }
  }

  /** Visits every lookup entry: marks the ids in use, until a file is found that has the name already. */
  method MarkIds(fs: Spiffs, bits: array<bool>, name: Option<string>) returns (conflict: bool)
    requires fs.Valid() && forall k | 0 <= k < bits.Length :: !bits[k]
    modifies bits
    ensures conflict <==> name.Some? && exists p :: NameAt(fs.flash, p, name.value)
    ensures !conflict ==> forall k | 0 <= k < bits.Length :: bits[k] <==> HasId(fs.flash.lu, fs.flash.lu.Keys, k + 1)
  {
    var f := fs.flash;
    PhysTotal(fs.g, f, fs.dir, fs.freeCursor, fs.N(), None);
    conflict := MarkAll(fs.g, f, bits, name);
    forall p | name.Some? && NameAt(f, p, name.value)
      ensures p in f.lu
    {
    }
  }

  method MarkAll(g: Geometry, f: Flash, bits: array<bool>, name: Option<string>) returns (conflict: bool)
    requires Total(g, f.lu) && forall k | 0 <= k < bits.Length :: !bits[k]
    modifies bits
    ensures conflict <==> name.Some? && exists p :: p in f.lu && NameAt(f, p, name.value)
    ensures !conflict ==> forall k | 0 <= k < bits.Length :: bits[k] <==> HasId(f.lu, f.lu.Keys, k + 1)
  {
    hide HasId, Seen, NameAt;
    var l := f.lu;
    NoneSeen(l);
    var b := 0;
    while b < g.blocks
      invariant b <= g.blocks
      invariant forall k | 0 <= k < bits.Length :: bits[k] <==> HasId(l, Seen(l, b, 0), k + 1)
      invariant name.Some? ==> forall p | p in Seen(l, b, 0) :: !NameAt(f, p, name.value)
    {
      var e := 0;
      while e < g.entries
        invariant e <= g.entries
        invariant forall k | 0 <= k < bits.Length :: bits[k] <==> HasId(l, Seen(l, b, e), k + 1)
        invariant name.Some? ==> forall p | p in Seen(l, b, e) :: !NameAt(f, p, name.value)
      {
        var p := Pix(b, e);
        assert g.In(p);
        OneSeen(l, b, e);
        if name.Some? && NameAt(f, p, name.value) {
          conflict := true;
          return;
        }
        MarkId(bits, l, Seen(l, b, e), p);
        e := e + 1;
      }
      SeenRow(g, l, b);
      b := b + 1;
    }
    AllSeen(g, l);
    conflict := false;
  }

  lemma NoneSeen(l: map<Pix, Entry>)
    ensures Seen(l, 0, 0) == {} && forall id: nat :: !HasId(l, {}, id)
  {
  }

  lemma SeenRow(g: Geometry, l: map<Pix, Entry>, b: nat)
    requires Total(g, l)
    ensures Seen(l, b, g.entries) == Seen(l, b + 1, 0)
  {
    forall p | p in l
      ensures g.In(p)
    {
    }
  }

  lemma AllSeen(g: Geometry, l: map<Pix, Entry>)
    requires Total(g, l)
    ensures Seen(l, g.blocks, 0) == l.Keys
  {
    forall p | p in l
      ensures g.In(p)
    {
    }
  }

  /** Finds the least id that is free and fits the bitmap of a work buffer of `pageSize` bytes. */
  method FindFreeId(fs: Spiffs, pageSize: nat, name: Option<string>) returns (res: Status, id: nat)
    requires fs.Valid() && 8 * pageSize < 0x8000
    ensures res == ConflictingName <==> name.Some? && exists i :: i in fs.files && fs.files[i].name == name.value
    ensures res.Ok? ==> 1 <= id <= 8 * pageSize && id !in fs.files && forall i: nat | 1 <= i < id :: i in fs.files
    ensures res == Full <==> res != ConflictingName && forall i: nat | 1 <= i <= 8 * pageSize :: i in fs.files
    ensures res.Ok? || res == Full || res == ConflictingName
  {
    hide PhysOk, LogicOk, HasId, NameAt;
    ghost var v := fs.Now();
    id := 0;
    var bits := new bool[8 * pageSize](_ => false);
    var conflict := MarkIds(fs, bits, name);
    NamesAndIds(fs.g, v, name);
    if conflict {
      res := ConflictingName;
      return;
    }
    var i := 0;
    while i < pageSize
      invariant i <= pageSize && forall k | 0 <= k < 8 * i :: bits[k]
    {
      var j := 0;
      while j < 8
        invariant j <= 8 && forall k | 0 <= k < 8 * i + j :: bits[k]
      {
        if !bits[8 * i + j] {
          id := 8 * i + j + 1;
          res := Ok;
          forall m: nat | 1 <= m < id
            ensures m in fs.files
          {
            assert bits[m - 1];
          }
          assert HasId(fs.flash.lu, fs.flash.lu.Keys, 8 * i + j + 1) <==> id in fs.files;
          return;
        }
        j := j + 1;
      }
      i := i + 1;
    }
    forall m: nat | 1 <= m <= 8 * pageSize
      ensures m in fs.files
    {
      assert bits[m - 1];
    }
    res := Full;
  }

  lemma NamesAndIds(g: Geometry, v: Vals, name: Option<string>)
    requires g.Ok() && PhysOk(g, v.f, v.d, v.c, v.n, None) && LogicOk(g, v, None, None) && v.d.removing == None
    ensures name.Some? ==> ((exists p :: NameAt(v.f, p, name.value)) <==> exists i :: i in v.files && v.files[i].name == name.value)
    ensures forall id: nat :: HasId(v.f.lu, v.f.lu.Keys, id) <==> id in v.files
  {
    if name.Some? {
      forall p {
        NameHit(g, v, p, name.value);
      }
      if i :| i in v.files && v.files[i].name == name.value {
        NameHit(g, v, v.d.cat[Key(i, true, 0)], name.value);
      }
    }
    forall id: nat
      ensures HasId(v.f.lu, v.f.lu.Keys, id) <==> id in v.files
    {
      LiveIds(g, v, id);
      if HasId(v.f.lu, v.f.lu.Keys, id) {
        var p :| p in v.f.lu && v.f.lu[p].Live? && v.f.lu[p].id == id;
        assert v.f.lu[p] == Live(id, v.f.lu[p].ix);
      }
    }
  }
}
