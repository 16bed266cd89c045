/** Opening and closing files, and whole runs of operations on a file system. */
module Session {
  import opened Options
  import opened Layout
  import opened Catalog
  import opened Files
  import opened Store
  import opened Gc
  import opened Collect
  import opened Content
  import opened Steps
  import opened Objects
  import opened Access
  import opened Removal
  import opened Mount
  import opened FreshIds
  import opened Tally
  import opened Appending
  import opened Holes

  // ----- open and close -----

  /** Finds the index header of a file by name. */
  method FindByName(fs: Spiffs, name: string) returns (res: Status, pix: Pix, ghost id: nat)
    requires fs.Valid()
    modifies fs`cursor
    ensures fs.Valid() && (res.Ok? || res == NotFound)
    ensures res.Ok? <==> exists i :: i in fs.files && fs.files[i].name == name
    ensures res.Ok? ==> id in fs.files && fs.files[id].name == name && Key(id, true, 0) in fs.dir.cat && fs.dir.cat[Key(id, true, 0)] == pix
    ensures fs.cursor == if res.Ok? then pix else old(fs.cursor)
  {
    hide PhysOk, LogicOk, NameAt;
    var f := fs.flash;
    ghost var v := fs.Now();
    id := 0;
    PhysTotal(fs.g, f, fs.dir, fs.freeCursor, fs.N(), None);
    forall p {
      NameHit(fs.g, v, p, name);
    }
    var found := Visit(fs.g, fs.cursor, p => NameAt(f, p, name));
    if found.Some? {
      pix := found.value;
      NameHit(fs.g, v, pix, name);
      id :| id in fs.files && fs.files[id].name == name && Key(id, true, 0) in fs.dir.cat && fs.dir.cat[Key(id, true, 0)] == pix;
      fs.cursor := pix;
      res := Ok;
    } else {
      pix := Pix(0, 0);
      res := NotFound;
      forall i | i in fs.files
        ensures fs.files[i].name != name
      {
        NameHit(fs.g, v, fs.dir.cat[Key(i, true, 0)], name);
      }
    }
  }

  /** The first descriptor that is not in use, or the number of descriptors. */
  method FindClosed(fds: seq<Fd>) returns (h: nat)
    ensures h <= |fds| && (forall i | 0 <= i < h :: fds[i].open) && (h < |fds| ==> !fds[h].open)
  {
    h := 0;
    while h < |fds| && fds[h].open
      invariant h <= |fds| && forall i | 0 <= i < h :: fds[i].open
    {
      h := h + 1;
    }
  }

  /** A descriptor is opened on the header page of an object. */
  lemma Opened(g: Geometry, v: Vals, h: nat, id: nat)
    requires g.Ok() && PhysOk(g, v.f, v.d, v.c, v.n, None) && LogicOk(g, v, None, None) && h < |v.fds| && id in v.files
    requires Key(id, true, 0) in v.d.cat
    ensures var p := v.d.cat[Key(id, true, 0)];
            && p in v.f.lu && v.f.lu[p] == Live(id, true) && p in v.f.page && v.f.page[p].body.Index?
            && LogicOk(g, v.(fds := v.fds[h := Fd(true, id, v.f.page[p].body.size, p, Some(p), 0)]), None, None)
  {
    var k := Key(id, true, 0);
    var p := v.d.cat[k];
    assert BodyOk(g, k, v.d.store[k], v.files[id], false);
    var fds := v.fds[h := Fd(true, id, v.f.page[p].body.size, p, Some(p), 0)];
    forall i | 0 <= i < |fds|
      ensures FdOk(fds[i], v.d.cat, v.files, None)
    {
      assert FdOk(v.fds[i], v.d.cat, v.files, None);
    }
  }

  /** Opens a file by name (spiffs_object_open_by_page on what the search finds). */
  method OpenFile(fs: Spiffs, name: string) returns (res: Status, h: nat)
    requires fs.Valid()
    modifies fs`cursor, fs`fds
    ensures fs.Valid()
    ensures res.Ok? <==> (exists i :: 0 <= i < |old(fs.fds)| && !old(fs.fds)[i].open) && exists i :: i in fs.files && fs.files[i].name == name
    ensures res.Ok? ==> h < |old(fs.fds)| == |fs.fds| && !old(fs.fds)[h].open && fs.fds == old(fs.fds)[h := fs.fds[h]]
                        && fs.fds[h].open && fs.fds[h].id in fs.files && fs.files[fs.fds[h].id].name == name
    ensures !res.Ok? ==> fs.fds == old(fs.fds)
  {
    hide PhysOk, LogicOk;
    h := FindClosed(fs.fds);
    if h == |fs.fds| {
      res := Full;
      return;
    }
    var pix;
    ghost var id;
    res, pix, id := FindByName(fs, name);
    if res.Ok? {
      Opened(fs.g, fs.Now(), h, id);
      fs.fds := fs.fds[h := Fd(true, fs.flash.lu[pix].id, fs.flash.page[pix].body.size, pix, Some(pix), 0)];
    }
  }

  lemma ClosedOne(g: Geometry, v: Vals, h: nat)
    requires g.Ok() && LogicOk(g, v, None, None) && h < |v.fds|
    ensures LogicOk(g, v.(fds := v.fds[h := v.fds[h].(open := false)]), None, None)
  {
    var fds := v.fds[h := v.fds[h].(open := false)];
    forall i | 0 <= i < |fds|
      ensures FdOk(fds[i], v.d.cat, v.files, None)
    {
      assert FdOk(v.fds[i], v.d.cat, v.files, None);
    }
  }

  // ----- runs -----

  /** What a user of the file system sees: files, and which file each descriptor is open on. */
  datatype View = View(files: map<nat, File>, handles: seq<Option<nat>>)

  datatype Op =
    | Creat(name: string)
    | Open(name: string)
    | Write(h: nat, offset: nat, data: seq<Byte>)
    | Read(h: nat, offset: nat, len: nat)
    | Empty(h: nat)
    | Delete(h: nat)
    | Close(h: nat)
    | Collect(len: nat)
    | Remount

  /** What an operation returns, and the bytes if it is a read. */
  datatype Answer = Answer(res: Status, out: seq<Byte>)

  ghost function Handles(fds: seq<Fd>): seq<Option<nat>> {
    seq(|fds|, i requires 0 <= i < |fds| => if fds[i].open then Some(fds[i].id) else None)
  }

  ghost function ViewOf(fs: Spiffs): View
    reads fs
  {
    View(fs.files, Handles(fs.fds))
  }

  ghost predicate Refers(v: View, h: nat) {
    h < |v.handles| && v.handles[h].Some? && v.handles[h].value in v.files
  }

  ghost predicate HasName(files: map<nat, File>, name: string) {
    exists id :: id in files && files[id].name == name
  }

  /** The least id from 1 on that no file has. */
  ghost predicate Fresh(files: map<nat, File>, id: nat) {
    id >= 1 && id !in files && forall i: nat | 1 <= i < id :: i in files
  }

  /** The files after `data` has been written at `offset` of file `id`, or at its end if that comes first. */
  ghost function WrittenTo(files: map<nat, File>, id: nat, offset: nat, data: seq<Byte>): map<nat, File>
    requires id in files
  {
    var bytes := files[id].bytes;
    SetBytes(files, id, Written(bytes, if offset < |bytes| then offset else |bytes|, data))
  }

  /** The meaning of an operation that succeeds, on files as byte sequences. */
  ghost predicate Does(op: Op, out: seq<Byte>, a: View, b: View) {
    match op
    case Creat(name) => !HasName(a.files, name) && exists id :: Fresh(a.files, id) && b == a.(files := a.files[id := File(name, [])])
    case Open(name) => exists h, id :: 0 <= h < |a.handles| && a.handles[h].None? && id in a.files && a.files[id].name == name
                                       && b == a.(handles := a.handles[h := Some(id)])
    case Write(h, offset, data) => Refers(a, h) && b == a.(files := WrittenTo(a.files, a.handles[h].value, offset, data))
    case Read(h, offset, len) => Refers(a, h) && b == a && Reads(a.files[a.handles[h].value].bytes, offset, len, Ok, out)
    case Empty(h) => Refers(a, h) && b == a.(files := SetBytes(a.files, a.handles[h].value, []))
    case Delete(h) =>
      && Refers(a, h)
      && var id := a.handles[h].value;
         b == View(a.files - {id}, Without(a.handles, id))
    case Close(h) => h < |a.handles| && a.handles[h].Some? && b == a.(handles := a.handles[h := None])
    case Collect(len) => b == a
    case Remount => b == View(a.files, seq(|a.handles|, _ => None))
  }

  /** What an operation that fails leaves, if the file system is sound: nothing has changed, except that
      of a write a beginning may have reached the file. */
  ghost predicate FallsShort(op: Op, a: View, b: View) {
    b == a ||
    (op.Write? && Refers(a, op.h) &&
     exists w: nat :: w <= |op.data| && b == a.(files := WrittenTo(a.files, a.handles[op.h].value, op.offset, op.data[..w])))
  }

  ghost predicate Outcome(op: Op, res: Status, out: seq<Byte>, a: View, b: View) {
    if res.Ok? then Does(op, out, a, b) else FallsShort(op, a, b)
  }

  lemma SameHandles(a: seq<Fd>, b: seq<Fd>)
    requires SameFds(a, b)
    ensures Handles(a) == Handles(b)
  {
  }

  lemma ClosedHandles(a: seq<Fd>, b: seq<Fd>, id: nat)
    requires Removal.Closed(a, b, id)
    ensures Handles(b) == Without(Handles(a), id)
  {
    assert |Handles(b)| == |Without(Handles(a), id)|;
  }

  ghost function Without(handles: seq<Option<nat>>, id: nat): seq<Option<nat>> {
    seq(|handles|, i requires 0 <= i < |handles| => if handles[i] == Some(id) then None else handles[i])
  }

  /** No two files have the same name, and no file has the id of a deleted lookup entry. */
  ghost predicate Named(files: map<nat, File>) {
    0 !in files && forall i, j | i in files && j in files && files[i].name == files[j].name :: i == j
  }

  /** Pages are small enough for the bitmap of ids to hold no id with an index bit. */
  predicate Paged(g: Geometry) {
    8 * (g.dataSize + 5) < 0x8000
  }

  /** The invariant of whole runs. */
  ghost predicate Sound(fs: Spiffs)
    reads fs
  {
    fs.Valid() && Named(fs.files) && Paged(fs.g)
  }

  /** At most the free cursor's block is partly filled. */
  ghost predicate Tidy(fs: Spiffs)
    reads fs
  {
    Settled(fs.g, fs.dir.fill, fs.freeCursor, None)
  }

  /** A formatted and mounted file system: here every run can begin. */
  method NewFileSystem(geometry: Geometry, chip: Flash, counts: seq<nat>, descriptors: nat) returns (fs: Spiffs)
    requires geometry.Ok() && Paged(geometry) && Total(geometry, chip.lu) && chip.page.Keys == chip.lu.Keys && |counts| == geometry.blocks
    ensures fresh(fs) && fs.g == geometry && Sound(fs) && Tidy(fs) && fs.files == map[]
    ensures |fs.fds| == descriptors && forall i | 0 <= i < descriptors :: !fs.fds[i].open
    ensures fs.N() == Counts(geometry.blocks, 0, 0)
  {
    hide Settled, LogicOk, PhysOk, IsBlank;
    fs := new Spiffs(geometry, chip, counts, descriptors);
    Format(fs);
    MountBlank(fs);
  }

  /** What a caller can look at before an operation to know that it will succeed. */
  ghost predicate Enough(fs: Spiffs, op: Op)
    reads fs
  {
    && fs.g.Ok()
    && match op
       case Creat(name) =>
         && !HasName(fs.files, name) && (exists i: nat :: 1 <= i <= 8 * (fs.g.dataSize + 5) && i !in fs.files)
         && Passes(fs.g, fs.N(), fs.g.dataSize) && fs.freeBlocks >= 2
       case Open(name) => (exists i :: 0 <= i < |fs.fds| && !fs.fds[i].open) && HasName(fs.files, name)
       case Write(h, offset, data) =>
         && IsOpen(fs, h) && data != [] && !Hollow(fs.fds[h], offset)
         && Suffices(fs.g, fs.N(), Tidy(fs), |fs.files[fs.fds[h].id].bytes|, offset, |data|)
       case Read(h, offset, len) => IsOpen(fs, h) && offset < |fs.files[fs.fds[h].id].bytes|
       case Empty(h) =>
         && IsOpen(fs, h) && fs.files[fs.fds[h].id].bytes != []
         && Passes(fs.g, fs.N(), fs.g.dataSize) && LastIndex(fs.g, |fs.files[fs.fds[h].id].bytes|) <= Allowance(fs.g, fs.N(), Tidy(fs))
       case Delete(h) =>
         && IsOpen(fs, h) && Passes(fs.g, fs.N(), 0)
         && var last := LastIndex(fs.g, |fs.files[fs.fds[h].id].bytes|);
            last == 0 || last <= Allowance(fs.g, fs.N(), Tidy(fs)) + 1
       case Close(h) => IsOpen(fs, h)
       case Collect(len) => Passes(fs.g, fs.N(), len)
       case Remount => true
  }

  ghost predicate IsOpen(fs: Spiffs, h: nat)
    reads fs
  {
    h < |fs.fds| && fs.fds[h].open && fs.fds[h].id in fs.files
  }

  /** Operations that end a run even if they succeed: a write behind the start of a file whose size is
      undefined, which leaves a hole; and those that store the header without having loaded it, a write of no
      bytes inside a file and the emptying of an empty file, of which nothing is said. */
  ghost predicate Breaks(fs: Spiffs, op: Op)
    reads fs
  {
    match op
    case Write(h, offset, data) =>
      IsOpen(fs, h) && if data != [] then Hollow(fs.fds[h], offset) else offset < |fs.files[fs.fds[h].id].bytes|
    case Empty(h) => IsOpen(fs, h) && fs.files[fs.fds[h].id].bytes == []
    case _ => false
  }

  /** What a user can see of that. */
  ghost predicate MayBreak(op: Op, a: View) {
    match op
    case Write(h, offset, data) =>
      Refers(a, h) && var bytes := a.files[a.handles[h].value].bytes; if data != [] then bytes == [] && offset > 0 else offset < |bytes|
    case Empty(h) => Refers(a, h) && a.files[a.handles[h].value].bytes == []
    case _ => false
  }

  ghost function FileOf(fs: Spiffs, h: nat): nat
    reads fs
  {
    if h < |fs.fds| then fs.fds[h].id else 0
  }

  /** A write that leaves a hole, and has enough space for it. */
  ghost predicate Digs(fs: Spiffs, op: Op)
    reads fs
  {
    && fs.g.Ok() && op.Write? && op.data != [] && IsOpen(fs, op.h) && Hollow(fs.fds[op.h], op.offset) && Aligned(fs.g, op.offset)
    && Reaches(fs.g, fs.N(), Tidy(fs), op.offset, |op.data|)
  }

  /** Page allocations in a row that cannot fail. */
  ghost function Spare(fs: Spiffs): int
    reads fs
  {
    Allowance(fs.g, fs.N(), Tidy(fs))
  }

  /** How many of them an operation uses up at most, if it is none that deletes pages of a file or mounts. */
  ghost function Price(fs: Spiffs, op: Op): int
    requires fs.g.Ok() && Enough(fs, op)
    reads fs
  {
    match op
    case Creat(name) => 1
    case Write(h, offset, data) => WriteCost(fs.g, |fs.files[fs.fds[h].id].bytes|, offset, |data|)
    case Empty(h) => LastIndex(fs.g, |fs.files[fs.fds[h].id].bytes|) + 1
    case _ => 0
  }

  /** What is left of the allocations that cannot fail, at least. */
  ghost function SpareAfter(fs: Spiffs, op: Op): int
    reads fs
  {
    Spare(fs) - if fs.g.Ok() && Enough(fs, op) then Price(fs, op) else 0
  }

  lemma NamedMore(files: map<nat, File>, id: nat, name: string)
    requires Named(files) && id >= 1 && !HasName(files, name)
    ensures Named(files[id := File(name, [])])
  {
  }

  lemma NamedSet(files: map<nat, File>, id: nat, bytes: seq<Byte>)
    requires Named(files) && id in files
    ensures Named(SetBytes(files, id, bytes))
  {
    var files' := SetBytes(files, id, bytes);
    forall i, j | i in files' && j in files' && files'[i].name == files'[j].name
      ensures i == j
    {
      assert i in files && j in files && files[i].name == files[j].name;
    }
  }

  lemma NamedLess(files: map<nat, File>, id: nat)
    requires Named(files)
    ensures Named(files - {id})
  {
  }

  /** SPIFFS_creat: an id is looked for that no file has, and the name must be new. */
  method PerformCreat(fs: Spiffs, name: string) returns (res: Status, sound: bool)
    requires Sound(fs)
    modifies fs
    ensures res.Ok? ==> sound
    ensures sound ==> Sound(fs) && Outcome(Creat(name), res, [], old(ViewOf(fs)), ViewOf(fs)) && (old(Tidy(fs)) ==> Tidy(fs))
    ensures res != NotFound ==> sound
    ensures old(Enough(fs, Creat(name))) ==> res.Ok? && Spare(fs) >= old(Spare(fs)) - 1
  {
    hide PhysOk, LogicOk, Settled, LogImages, SameFds, Passes, Refused;
    ghost var a, fds, files := ViewOf(fs), fs.fds, fs.files;
    var id;
    res, id := FindFreeId(fs, fs.g.dataSize + 5, Some(name));
    sound := true;
    if res.Ok? {
      var pix;
      ghost var quota;
      res, pix, quota := Create(fs, id, name);
      SameHandles(fds, fs.fds);
      sound := res != NotFound;
      if res.Ok? {
        NamedMore(files, id, name);
        assert Fresh(a.files, id) && ViewOf(fs) == a.(files := a.files[id := File(name, [])]);
      }
    }
  }

  /** A write past the write-back cache. One of no bytes does nothing unless it is inside the file. */
  method PerformWrite(fs: Spiffs, h: nat, offset: nat, data: seq<Byte>) returns (res: Status, sound: bool)
    requires Sound(fs)
    modifies fs
    ensures res.Ok? ==> (sound <==> !old(Breaks(fs, Write(h, offset, data))))
    ensures sound ==> Sound(fs) && Outcome(Write(h, offset, data), res, [], old(ViewOf(fs)), ViewOf(fs)) && (old(Tidy(fs)) ==> Tidy(fs))
    ensures old(Enough(fs, Write(h, offset, data))) ==> res.Ok? && Spare(fs) >= old(SpareAfter(fs, Write(h, offset, data)))
    ensures old(Digs(fs, Write(h, offset, data))) ==> res.Ok?
    ensures !old(IsOpen(fs, h)) ==> sound && res == BadReference
    ensures data == [] && old(IsOpen(fs, h)) ==> (sound <==> !old(Breaks(fs, Write(h, offset, data)))) && (sound ==> res.Ok?)
    ensures data != [] && old(Breaks(fs, Write(h, offset, data))) ==>
              && fs.Phys()
              && (res.Ok? ==> Aligned(fs.g, offset) && !Mendable(fs.g, fs.Now()) && HoleLeft(fs.dir, old(FileOf(fs, h)), offset + |data|))
              && (!Aligned(fs.g, offset) && Passes(fs.g, old(fs.N()), |data| + fs.g.dataSize) ==> sound && fs.Now() == old(fs.Now()).(work := fs.work))
  {
    hide PhysOk, LogicOk, Settled, LogImages, SameFds, Suffices, NoRoom, SetBytes, Written, Aligned, Reaches, Mendable, HoleLeft, WriteCost, Allowance, Passes;
    ghost var a, fds := ViewOf(fs), fs.fds;
    res, sound := BadReference, true;
    if h < |fs.fds| && fs.fds[h].open {
      FdFacts(fs.g, fs.Now(), None, None, h);
      if data == [] {
        // inside the file, what is in the work buffer is stored as its header; the model stops here
        sound := !(fs.fds[h].size.Some? && offset < fs.fds[h].size.value);
        res := if sound then Ok else BadReference;
        WroteNothing(a.files, fds[h].id, offset);
      } else {
        ghost var w;
        res, sound, w := HydroWrite(fs, h, offset, data);
        SameHandles(fds, fs.fds);
        if sound {
          assert data[..|data|] == data;
          var bytes := a.files[fds[h].id].bytes;
          NamedSet(a.files, fds[h].id, Written(bytes, if offset < |bytes| then offset else |bytes|, data[..w]));
          assert ViewOf(fs) == a.(files := WrittenTo(a.files, a.handles[h].value, offset, data[..w]));
        }
      }
    }
  }

  lemma WroteNothing(files: map<nat, File>, id: nat, offset: nat)
    requires id in files
    ensures WrittenTo(files, id, offset, []) == files
  {
    var bytes := files[id].bytes;
    assert Written(bytes, if offset < |bytes| then offset else |bytes|, []) == bytes;
  }

  method PerformRead(fs: Spiffs, h: nat, offset: nat, len: nat) returns (res: Status, out: seq<Byte>)
    requires Sound(fs)
    modifies fs
    ensures Sound(fs) && Outcome(Op.Read(h, offset, len), res, out, old(ViewOf(fs)), ViewOf(fs)) && (old(Tidy(fs)) ==> Tidy(fs))
    ensures old(Enough(fs, Op.Read(h, offset, len))) ==> res.Ok? && Spare(fs) >= old(Spare(fs))
  {
    hide PhysOk, LogicOk, Settled, SameFds;
    ghost var fds := fs.fds;
    res, out := BadReference, [];
    if h < |fs.fds| && fs.fds[h].open {
      FdFacts(fs.g, fs.Now(), None, None, h);
      res, out := ReadAt(fs, h, offset, len);
      SameHandles(fds, fs.fds);
    }
  }

  /** Empties a file through an open descriptor. */
  method PerformEmpty(fs: Spiffs, h: nat) returns (res: Status, sound: bool)
    requires Sound(fs)
    modifies fs
    ensures res.Ok? ==> (sound <==> !old(Breaks(fs, Empty(h))))
    ensures sound ==> Sound(fs) && Outcome(Empty(h), res, [], old(ViewOf(fs)), ViewOf(fs)) && (old(Tidy(fs)) ==> Tidy(fs))
    ensures old(Enough(fs, Empty(h))) ==> res.Ok? && Spare(fs) >= old(SpareAfter(fs, Empty(h)))
    ensures !old(IsOpen(fs, h)) ==> sound && res == BadReference
    ensures old(Breaks(fs, Empty(h))) ==> !sound
    ensures res.Ok? ==> Removal.SizesReset(fs.fds, old(FileOf(fs, h)), h)
  {
    hide PhysOk, LogicOk, Settled, LogImages, SameFds, Passes, Refused, Allowance, LastIndex, SetBytes;
    ghost var a, fds := ViewOf(fs), fs.fds;
    res, sound := BadReference, true;
    if h < |fs.fds| && fs.fds[h].open {
      FdFacts(fs.g, fs.Now(), None, None, h);
      if fs.fds[h].size.GetOr(0) > 0 {
        ghost var quota;
        res, sound, quota := TruncateToZero(fs, h);
        SameHandles(fds, fs.fds);
        NamedSet(a.files, fds[h].id, []);
      } else {
        // what is in the work buffer is stored as the header of the file; the model stops here
        sound := false;
      }
    }
  }

  method PerformDelete(fs: Spiffs, h: nat) returns (res: Status, sound: bool)
    requires Sound(fs)
    modifies fs
    ensures res.Ok? ==> sound
    ensures sound ==> Sound(fs) && Outcome(Op.Delete(h), res, [], old(ViewOf(fs)), ViewOf(fs)) && (old(Tidy(fs)) ==> Tidy(fs))
    ensures old(Enough(fs, Op.Delete(h))) ==> res.Ok?
    ensures !old(IsOpen(fs, h)) ==> sound && res == BadReference
  {
    hide PhysOk, LogicOk, Settled, LogImages, SameFds, Passes, Refused, FreeQuota, Allowance, LastIndex, Removal.Closed;
    ghost var a, fds := ViewOf(fs), fs.fds;
    res, sound := BadReference, true;
    if h < |fs.fds| && fs.fds[h].open {
      FdFacts(fs.g, fs.Now(), None, None, h);
      ghost var quota;
      res, sound, quota := Remove(fs, h);
      NamedLess(a.files, fds[h].id);
      if res.Ok? {
        ClosedHandles(fds, fs.fds, fds[h].id);
      } else {
        SameHandles(fds, fs.fds);
      }
    }
  }

  method PerformCollect(fs: Spiffs, len: nat) returns (res: Status, sound: bool)
    requires Sound(fs)
    modifies fs
    ensures res.Ok? ==> sound
    ensures sound ==> Sound(fs) && Outcome(Collect(len), res, [], old(ViewOf(fs)), ViewOf(fs)) && (old(Tidy(fs)) ==> Tidy(fs))
    ensures old(Enough(fs, Collect(len))) ==> res.Ok? && Spare(fs) >= old(Spare(fs))
  {
    hide PhysOk, LogicOk, Settled, LogSafe, SameFds, Passes, Refused, Allowance;
    ghost var fds := fs.fds;
    ghost var turns;
    res, turns := GcCheck(fs, len);
    sound := res != NotFound;
    SameHandles(fds, fs.fds);
  }

  /** Opening and closing change descriptors only. */
  method PerformOpen(fs: Spiffs, name: string) returns (res: Status)
    requires Sound(fs)
    modifies fs
    ensures Sound(fs) && Outcome(Open(name), res, [], old(ViewOf(fs)), ViewOf(fs)) && (old(Tidy(fs)) ==> Tidy(fs))
    ensures res.Ok? <==> old(Enough(fs, Open(name)))
    ensures Spare(fs) >= old(Spare(fs))
  {
    hide PhysOk, LogicOk, Settled;
    ghost var a, fds := ViewOf(fs), fs.fds;
    var h;
    res, h := OpenFile(fs, name);
    if res.Ok? {
      ghost var id := fs.fds[h].id;
      assert Handles(fs.fds) == Handles(fds)[h := Some(id)];
      assert a.handles[h].None? && a.files[id].name == name && ViewOf(fs) == a.(handles := a.handles[h := Some(id)]);
    }
  }

  method PerformClose(fs: Spiffs, h: nat) returns (res: Status)
    requires Sound(fs)
    modifies fs
    ensures Sound(fs) && Outcome(Close(h), res, [], old(ViewOf(fs)), ViewOf(fs)) && (old(Tidy(fs)) ==> Tidy(fs))
    ensures res.Ok? <==> old(Enough(fs, Close(h)))
    ensures Spare(fs) >= old(Spare(fs))
  {
    hide PhysOk, LogicOk, Settled;
    ghost var fds := fs.fds;
    res := BadReference;
    if h < |fs.fds| && fs.fds[h].open {
      FdFacts(fs.g, fs.Now(), None, None, h);
      ClosedOne(fs.g, fs.Now(), h);
      fs.fds := fs.fds[h := fs.fds[h].(open := false)];
      assert Handles(fs.fds) == Handles(fds)[h := None];
      res := Ok;
    }
  }

  /** Performs one operation. One that fails leaves the file system sound, and then falls short of its
      meaning as `FallsShort` says; or it does not, and the run is over. One that succeeds leaves it sound if
      and only if it is none that `Breaks` names. */
  method Perform(fs: Spiffs, op: Op) returns (res: Status, out: seq<Byte>, sound: bool)
    requires Sound(fs)
    modifies fs
    ensures res.Ok? ==> (sound <==> !old(Breaks(fs, op)))
    ensures op.Open? || op.Close? || op.Read? || op.Remount? ==> sound
    ensures sound ==> Sound(fs) && Outcome(op, res, out, old(ViewOf(fs)), ViewOf(fs))
    ensures sound && old(Tidy(fs)) && !op.Remount? ==> Tidy(fs)
    ensures old(Enough(fs, op)) ==> res.Ok? && (op.Delete? || op.Remount? || Spare(fs) >= old(SpareAfter(fs, op)))
    ensures op.Open? || op.Close? ==> (res.Ok? <==> old(Enough(fs, op)))
    ensures op.Empty? && res.Ok? ==> Removal.SizesReset(fs.fds, old(FileOf(fs, op.h)), op.h)
    ensures old(Digs(fs, op)) ==> res.Ok?
    ensures op.Write? && op.data != [] && res.Ok? && old(Breaks(fs, op)) ==>
              fs.g.Ok() && !Mendable(fs.g, fs.Now()) && HoleLeft(fs.dir, old(FileOf(fs, op.h)), op.offset + |op.data|)
  {
    hide Sound, Outcome, Tidy, IsOpen, Suffices, Mendable, HoleLeft, Reaches, Aligned, WriteCost, Allowance, LastIndex, HasName;
    out := [];
    match op {
      case Creat(name) => res, sound := PerformCreat(fs, name);
      case Open(name) => res := PerformOpen(fs, name); sound := true;
      case Write(h, offset, data) => res, sound := PerformWrite(fs, h, offset, data);
      case Read(h, offset, len) => res, out := PerformRead(fs, h, offset, len); sound := true;
      case Empty(h) => res, sound := PerformEmpty(fs, h);
      case Delete(h) => res, sound := PerformDelete(fs, h);
      case Close(h) => res := PerformClose(fs, h); sound := true;
      case Collect(len) => res, sound := PerformCollect(fs, len);
      case Remount => PerformRemount(fs); res, sound := Ok, true;
    }
  }

  method PerformRemount(fs: Spiffs)
    requires Sound(fs)
    modifies fs
    ensures Sound(fs) && Outcome(Op.Remount, Ok, [], old(ViewOf(fs)), ViewOf(fs))
  {
    hide PhysOk, LogicOk, Settled;
    Mount.Remount(fs);
    assert Handles(fs.fds) == seq(|old(fs.fds)|, _ => None);
  }

  lemma Visible(fs: Spiffs, op: Op)
    requires Sound(fs) && Breaks(fs, op)
    ensures MayBreak(op, ViewOf(fs))
  {
    hide PhysOk, LogicOk;
    FdFacts(fs.g, fs.Now(), None, None, op.h);
  }

  /** Every run refines the run on plain byte sequences: each operation that succeeds does to the files, and
      returns, what it means, each that fails falls short of it, and the invariant holds after each. The run
      ends early only with a failure that leaves no valid file system, or one of the operations that `Breaks`
      names. */
  method Run(fs: Spiffs, ops: seq<Op>) returns (answers: seq<Answer>, sound: bool, ghost trace: seq<View>)
    requires Sound(fs)
    modifies fs
    ensures |answers| <= |ops| && |trace| == |answers| + (if sound then 1 else 0)
    ensures sound ==> |answers| == |ops| && Sound(fs) && trace[|ops|] == ViewOf(fs)
    ensures !sound ==> answers != [] && var n := |answers| - 1; !answers[n].res.Ok? || MayBreak(ops[n], trace[n])
    ensures trace != [] && trace[0] == old(ViewOf(fs))
    ensures forall i | 0 <= i < |trace| - 1 :: Outcome(ops[i], answers[i].res, answers[i].out, trace[i], trace[i + 1])
  {
    hide Sound, Outcome, Breaks, MayBreak, Enough, Digs;
    answers, sound, trace := [], true, [ViewOf(fs)];
    while sound && |answers| < |ops|
      invariant |answers| <= |ops| && |trace| == |answers| + if sound then 1 else 0
      invariant trace != [] && trace[0] == old(ViewOf(fs)) && (sound ==> Sound(fs) && trace[|answers|] == ViewOf(fs))
      invariant !sound ==> answers != [] && (!answers[|answers| - 1].res.Ok? || MayBreak(ops[|answers| - 1], trace[|answers| - 1]))
      invariant forall i | 0 <= i < |trace| - 1 :: Outcome(ops[i], answers[i].res, answers[i].out, trace[i], trace[i + 1])
      decreases sound, |ops| - |answers|
    {
      var res, out;
      if Breaks(fs, ops[|answers|]) {
        Visible(fs, ops[|answers|]);
      }
      res, out, sound := Perform(fs, ops[|answers|]);
      answers := answers + [Answer(res, out)];
      if sound {
        trace := trace + [ViewOf(fs)];
      }
    }
  }

  // ----- a run that leaves a hole -----

  lemma Roomy(fs: Spiffs, len: nat)
    requires Sound(fs) && Tidy(fs) && Spare(fs) >= 2 * fs.g.entries && fs.g.entries >= 2 && len <= 2 * fs.g.dataSize
    ensures Passes(fs.g, fs.N(), len) && fs.freeBlocks >= 2 && FreeQuota(fs.g, fs.N()) == Spare(fs)
  {
    hide LogicOk;
    QuotaRoom(fs.g, fs.flash, fs.dir, fs.freeCursor, fs.N(), 2);
    MulMonotone(3, Spare(fs), fs.g.dataSize);
  }

  /** Pages that a page of data takes, and the byte behind it. */
  lemma PageCosts(g: Geometry, n: Counts, tidy: bool)
    requires g.Ok() && g.hdrLen >= 2
    ensures AppendCost(g, 0, g.dataSize) == 3 && WriteCost(g, 0, 0, g.dataSize) == 3
    ensures Aligned(g, g.dataSize) && AppendCost(g, g.dataSize, 1) == 3
    ensures Suffices(g, n, tidy, 0, 0, g.dataSize) <==> Passes(g, n, 2 * g.dataSize) && 3 <= Allowance(g, n, tidy) + 1
    ensures LastIndex(g, g.dataSize) == 0
  {
    g.PageOfUnique(g.dataSize, 1);
    g.PageOfUnique(g.dataSize - 1, 0);
    QuotientUnique(0, g.dataSize, 0);
    QuotientUnique(g.dataSize, g.dataSize, 1);
    StartNeeded(g, 0, g.dataSize);
    StartNeeded(g, g.dataSize, 1);
    assert g.Pages(g.dataSize) == 1 && g.Pages(g.dataSize + 1) == 2 && g.PageOf(0) == 0;
    assert g.IxSpan(0) == 0 && g.IxSpan(1) == 0;
  }

  lemma FirstCreated(out: seq<Byte>, name: string, a: View, b: View)
    requires Outcome(Creat(name), Ok, out, a, b) && a.files == map[]
    ensures b == View(map[1 := File(name, [])], a.handles)
  {
    assert 1 !in a.files;
  }

  lemma FirstOpened(out: seq<Byte>, name: string, a: View, b: View, bytes: seq<Byte>)
    requires Outcome(Open(name), Ok, out, a, b) && a.files == map[1 := File(name, bytes)]
    ensures b.files == a.files && exists h :: 0 <= h < |a.handles| && a.handles[h].None? && b.handles == a.handles[h := Some(1)]
  {
  }

  lemma FirstWritten(out: seq<Byte>, h: nat, page: seq<Byte>, a: View, b: View, name: string)
    requires Outcome(Write(h, 0, page), Ok, out, a, b) && a.files == map[1 := File(name, [])] && h < |a.handles| && a.handles[h] == Some(1)
    ensures b == View(map[1 := File(name, page)], a.handles)
  {
    assert Written([], 0, page) == page;
    assert WrittenTo(a.files, 1, 0, page) == map[1 := File(name, page)];
  }

  lemma FirstEmptied(out: seq<Byte>, h: nat, a: View, b: View, name: string, bytes: seq<Byte>)
    requires Outcome(Empty(h), Ok, out, a, b) && a.files == map[1 := File(name, bytes)] && h < |a.handles| && a.handles[h] == Some(1)
    ensures b == View(map[1 := File(name, [])], a.handles)
  {
    assert SetBytes(a.files, 1, []) == map[1 := File(name, [])];
  }

  /** What the view says about descriptors. */
  lemma HandleIs(fs: Spiffs, h: nat)
    requires Sound(fs) && h < |fs.fds|
    ensures |Handles(fs.fds)| == |fs.fds| && (Handles(fs.fds)[h] == None <==> !fs.fds[h].open)
    ensures fs.fds[h].open ==> Handles(fs.fds)[h] == Some(fs.fds[h].id) && IsOpen(fs, h)
  {
    hide PhysOk, LogicOk;
    if fs.fds[h].open {
      FdFacts(fs.g, fs.Now(), None, None, h);
    }
  }

  /** A new file system with one empty file, which is open. */
  method OneHandle(g: Geometry, chip: Flash, counts: seq<nat>) returns (fs: Spiffs, h: nat)
    requires g.Ok() && Paged(g) && g.blocks >= 5 && g.entries >= 5
    requires Total(g, chip.lu) && chip.page.Keys == chip.lu.Keys && |counts| == g.blocks
    ensures fresh(fs) && fs.g == g && Sound(fs) && Tidy(fs) && |fs.fds| == 2 && h < 2
    ensures ViewOf(fs) == View(map[1 := File("log", [])], [None, None][h := Some(1)])
    ensures Spare(fs) >= 2 * g.entries + 4
  {
    hide PhysOk, LogicOk, Settled, Passes, Allowance, Outcome, Sound, Tidy, Spare;
    fs := NewFileSystem(g, chip, counts, 2);
    StartingQuota(fs);
    Roomy(fs, g.dataSize);
    ghost var a := ViewOf(fs);
    CanCreate(fs, "log");
    var res, out, sound := Perform(fs, Creat("log"));
    FirstCreated(out, "log", a, ViewOf(fs));
    ghost var b := ViewOf(fs);
    assert b.handles == [None, None] && |Handles(fs.fds)| == |fs.fds| && Handles(fs.fds)[0] == None;
    CanOpen(fs, "log", []);
    res, out, sound := Perform(fs, Open("log"));
    FirstOpened(out, "log", b, ViewOf(fs), []);
    HandleIs(fs, 0);
    h := if fs.fds[0].open then 0 else 1;
  }

  lemma CanCreate(fs: Spiffs, name: string)
    requires fs.g.Ok() && fs.files == map[] && Passes(fs.g, fs.N(), fs.g.dataSize) && fs.freeBlocks >= 2
    ensures Enough(fs, Creat(name)) && Price(fs, Creat(name)) == 1
  {
    assert 1 <= 1 <= 8 * (fs.g.dataSize + 5) && 1 !in fs.files;
  }

  lemma CanOpen(fs: Spiffs, name: string, bytes: seq<Byte>)
    requires Sound(fs) && fs.files == map[1 := File(name, bytes)] && exists h :: 0 <= h < |fs.fds| && Handles(fs.fds)[h] == None
    ensures Enough(fs, Open(name)) && Price(fs, Open(name)) == 0
  {
    assert 1 in fs.files && fs.files[1].name == name;
  }

  /** A new file system with one file of a page, which two descriptors are open on. */
  method TwoHandles(g: Geometry, chip: Flash, counts: seq<nat>, page: seq<Byte>) returns (fs: Spiffs, h1: nat, h2: nat)
    requires g.Ok() && Paged(g) && g.blocks >= 5 && g.entries >= 5 && g.hdrLen >= 2 && |page| == g.dataSize
    requires Total(g, chip.lu) && chip.page.Keys == chip.lu.Keys && |counts| == g.blocks
    ensures fresh(fs) && fs.g == g && Sound(fs) && Tidy(fs) && h1 < 2 && h2 < 2 && h1 != h2
    ensures ViewOf(fs) == View(map[1 := File("log", page)], [Some(1), Some(1)])
    ensures Spare(fs) >= 2 * g.entries + 1
  {
    hide PhysOk, LogicOk, Settled, Passes, Suffices, WriteCost, Allowance, Outcome, Sound, Tidy, Spare, Enough, Price;
    var h;
    fs, h := OneHandle(g, chip, counts);
    h1, h2 := h, 1 - h;
    ghost var a := ViewOf(fs);
    HandleIs(fs, h1);
    CanWrite(fs, h1, page);
    var res, out, sound := Perform(fs, Write(h1, 0, page));
    FirstWritten(out, h1, page, a, ViewOf(fs), "log");
    ghost var b := ViewOf(fs);
    assert Handles(fs.fds)[h2] == None;
    CanOpen(fs, "log", page);
    res, out, sound := Perform(fs, Open("log"));
    FirstOpened(out, "log", b, ViewOf(fs), page);
    assert ViewOf(fs).handles == [Some(1), Some(1)];
  }

  lemma CanWrite(fs: Spiffs, h: nat, page: seq<Byte>)
    requires Sound(fs) && Tidy(fs) && Spare(fs) >= 2 * fs.g.entries && fs.g.entries >= 5 && fs.g.hdrLen >= 2 && |page| == fs.g.dataSize
    requires h < |fs.fds| && IsOpen(fs, h) && fs.files[fs.fds[h].id].bytes == []
    ensures Enough(fs, Write(h, 0, page)) && Price(fs, Write(h, 0, page)) == 3 && !Breaks(fs, Write(h, 0, page))
  {
    hide PhysOk, LogicOk, Suffices, WriteCost;
    Roomy(fs, 2 * fs.g.dataSize);
    PageCosts(fs.g, fs.N(), true);
  }

  lemma CanEmpty(fs: Spiffs, h: nat)
    requires Sound(fs) && Tidy(fs) && Spare(fs) >= 2 * fs.g.entries && fs.g.entries >= 5 && fs.g.hdrLen >= 2
    requires h < |fs.fds| && IsOpen(fs, h) && |fs.files[fs.fds[h].id].bytes| == fs.g.dataSize
    ensures Enough(fs, Empty(h)) && Price(fs, Empty(h)) == 1 && !Breaks(fs, Empty(h))
  {
    hide PhysOk, LogicOk, LastIndex;
    Roomy(fs, fs.g.dataSize);
    PageCosts(fs.g, fs.N(), true);
  }

  lemma CanDig(fs: Spiffs, h: nat, b: Byte)
    requires Sound(fs) && Tidy(fs) && Spare(fs) >= 2 * fs.g.entries && fs.g.entries >= 5 && fs.g.hdrLen >= 2
    requires h < |fs.fds| && IsOpen(fs, h) && fs.fds[h].size == None
    ensures Digs(fs, Write(h, fs.g.dataSize, [b])) && Breaks(fs, Write(h, fs.g.dataSize, [b]))
  {
    hide PhysOk, LogicOk, Aligned;
    Roomy(fs, 1 + fs.g.dataSize);
    PageCosts(fs.g, fs.N(), true);
  }

  /** A file of a page is written through one descriptor, emptied through another, and written again through
      the first one, whose position is behind the page. All six operations succeed, and what they leave is a
      file with a size of a page and a byte, and no first page: no valid file system. */
  method LeavesHole(g: Geometry, chip: Flash, counts: seq<nat>, page: seq<Byte>, b: Byte)
    returns (fs: Spiffs, emptied: Status, written: Status, sound: bool)
    requires g.Ok() && Paged(g) && g.blocks >= 5 && g.entries >= 5 && g.hdrLen >= 2 && |page| == g.dataSize
    requires Total(g, chip.lu) && chip.page.Keys == chip.lu.Keys && |counts| == g.blocks
    ensures emptied.Ok? && written.Ok? && !sound
    ensures fs.g == g && !Mendable(g, fs.Now()) && HoleLeft(fs.dir, 1, g.dataSize + 1)
  {
    hide PhysOk, LogicOk, Settled, Passes, Suffices, WriteCost, Allowance, Outcome, Sound, Tidy, Spare, Enough, Price, Mendable, HoleLeft, Digs, Breaks;
    var h1, h2, out;
    fs, h1, h2 := TwoHandles(g, chip, counts, page);
    ghost var a := ViewOf(fs);
    assert |Handles(fs.fds)| == |fs.fds|;
    HandleIs(fs, h2);
    CanEmpty(fs, h2);
    emptied, out, sound := Perform(fs, Empty(h2));
    FirstEmptied(out, h2, a, ViewOf(fs), "log", page);
    HandleIs(fs, h1);
    CanDig(fs, h1, b);
    written, out, sound := Perform(fs, Write(h1, g.dataSize, [b]));
  }

  lemma StartingQuota(fs: Spiffs)
    requires fs.N() == Counts(fs.g.blocks, 0, 0) && Tidy(fs) && fs.g.blocks >= 5 && fs.g.entries >= 5
    ensures Spare(fs) >= 3 * fs.g.entries >= 2 * fs.g.entries + 5
  {
    MulMonotone(3, fs.g.blocks - 2, fs.g.entries);
  }
}
