/** Reading and writing through a descriptor with its write-back cache page (SPIFFS_write, SPIFFS_read,
    SPIFFS_lseek, SPIFFS_fflush and SPIFFS_close): a plain byte array with a position. */
module WriteBack {
  import opened Options
  import opened Layout
  import opened Catalog
  import opened Files
  import opened Store
  import opened Content
  import opened Steps
  import opened Objects
  import opened Appending
  import opened Holes
  import opened Collect
  import opened Gc
  import opened Access
  import opened Session
  import opened Tally

  /** A cache page with data to be written: `size` bytes of `mem` belong at `offset`. */
  datatype WritePage = WritePage(offset: nat, mem: seq<Byte>, size: nat)

  /** An offset past the end is brought back to it. */
  function Within(offset: nat, size: nat): (r: nat)
    ensures r <= offset && r <= size && (r == offset || r == size)
  {
    if offset < size then offset else size
  }

  /** File bytes with the cached ones on top. */
  function Overlay(bytes: seq<Byte>, cp: Option<WritePage>): (r: seq<Byte>)
    requires cp.Some? ==> cp.value.size <= |cp.value.mem|
  {
    if cp.None? then bytes else Written(bytes, Within(cp.value.offset, |bytes|), cp.value.mem[..cp.value.size])
  }

  /** How far the cached range is brought back when it is written. */
  function Shift(bytes: seq<Byte>, cp: WritePage): nat {
    cp.offset - Within(cp.offset, |bytes|)
  }

  /** Storing into a cache page. */
  function Stored(cp: WritePage, at: nat, data: seq<Byte>): WritePage
    requires cp.offset <= at && at - cp.offset + |data| <= |cp.mem|
  {
    var o := at - cp.offset;
    cp.(mem := cp.mem[..o] + data + cp.mem[o + |data|..], size := if cp.size < o + |data| then o + |data| else cp.size)
  }

  /** A write into the cache page, or right after it, is a write to the file as seen through it. */
  lemma OverlayStored(bytes: seq<Byte>, cp: WritePage, at: nat, data: seq<Byte>)
    requires cp.size <= |cp.mem|
    requires cp.offset <= at <= cp.offset + cp.size && at - cp.offset + |data| <= |cp.mem|
    ensures at - Shift(bytes, cp) <= |Overlay(bytes, Some(cp))|
    ensures Overlay(bytes, Some(Stored(cp, at, data))) == Written(Overlay(bytes, Some(cp)), at - Shift(bytes, cp), data)
  {
    var a, b := Overlay(bytes, Some(Stored(cp, at, data))), Written(Overlay(bytes, Some(cp)), at - Shift(bytes, cp), data);
    assert |a| == |b|;
    forall i | 0 <= i < |a|
      ensures a[i] == b[i]
    {
    }
  }

  /** The big write that is done twice after a cached one has been written back changes nothing more, as
      far as the second one gets. */
  lemma TwiceIsOnce(bytes: seq<Byte>, at: nat, data: seq<Byte>, w: nat)
    requires at <= |bytes| && w <= |data|
    ensures Written(Written(bytes, at, data), at, data[..w]) == Written(bytes, at, data)
  {
  }

  /** But if its offset is so far past the end that it is brought back both times, the data are there twice. */
  lemma TwiceIsTwice(bytes: seq<Byte>, offset: nat, data: seq<Byte>)
    requires offset >= |bytes| + |data|
    ensures var once := Written(bytes, Within(offset, |bytes|), data);
            Written(once, Within(offset, |once|), data) == bytes + data + data
  {
  }

  /** Files other than `id` are as before. */
  ghost predicate OthersSame(a: map<nat, File>, b: map<nat, File>, id: nat) {
    forall i | i in a && i != id :: i in b && b[i] == a[i]
  }

  lemma OthersSameChain(a: map<nat, File>, b: map<nat, File>, c: map<nat, File>, id: nat)
    requires OthersSame(a, b, id) && OthersSame(b, c, id)
    ensures OthersSame(a, c, id)
  {
  }

  /** The cached data from byte `w` on are in the file already. */
  ghost predicate OnFlash(bytes: seq<Byte>, cp: WritePage, w: nat)
    requires cp.size <= |cp.mem|
  {
    SameFrom(bytes, cp.mem, Within(cp.offset, |bytes|), w, cp.size)
  }

  ghost predicate SameFrom(bytes: seq<Byte>, mem: seq<Byte>, base: nat, w: nat, n: nat)
    requires n <= |mem|
  {
    forall i | w <= i < n :: base + i < |bytes| && bytes[base + i] == mem[i]
  }

  /** `r` is `bytes` with the first `n` bytes of `mem` on top, from `base` on. */
  ghost predicate OnTop(r: seq<Byte>, bytes: seq<Byte>, mem: seq<Byte>, base: nat, n: nat)
    requires base <= |bytes| && n <= |mem|
  {
    && |r| == (if base + n < |bytes| then |bytes| else base + n)
    && forall j | 0 <= j < |r| :: r[j] == if base <= j < base + n then mem[j - base] else bytes[j]
  }

  lemma OverlayIs(bytes: seq<Byte>, cp: WritePage)
    requires cp.size <= |cp.mem|
    ensures OnTop(Overlay(bytes, Some(cp)), bytes, cp.mem, Within(cp.offset, |bytes|), cp.size)
  {
    var r, data, base := Overlay(bytes, Some(cp)), cp.mem[..cp.size], Within(cp.offset, |bytes|);
    assert forall j | 0 <= j < |r| :: r[j] == if base <= j < base + |data| then data[j - base] else bytes[j];
  }

  lemma DroppedSame(a: seq<Byte>, b: seq<Byte>, bytes: seq<Byte>, mem: seq<Byte>, base: nat, w: nat, n: nat)
    requires base <= |bytes| && w <= n <= |mem| && OnTop(a, bytes, mem, base, w) && OnTop(b, bytes, mem, base, n)
    requires SameFrom(bytes, mem, base, w, n)
    ensures a == b
  {
    if w < n {
      var last := mem[n - 1];
      assert base + (n - 1) < |bytes|;
    }
    forall j | 0 <= j < |b|
      ensures a[j] == b[j]
    {
      if base + w <= j < base + n {
        var i := j - base;
        assert b[j] == mem[i] && bytes[base + i] == mem[i];
      }
    }
  }

  lemma SameDropped(b: seq<Byte>, bytes: seq<Byte>, mem: seq<Byte>, base: nat, w: nat, n: nat)
    requires base <= |bytes| && w <= n <= |mem| && OnTop(b, bytes, mem, base, w) && OnTop(b, bytes, mem, base, n)
    ensures SameFrom(bytes, mem, base, w, n)
  {
    forall i | w <= i < n
      ensures base + i < |bytes| && bytes[base + i] == mem[i]
    {
      assert base + i < |b| && b[base + i] == bytes[base + i];
    }
  }

  /** What remains of a cached range when `w` bytes of it have been written back and the rest is dropped
      is what the descriptor saw if and only if the rest was on the flash already. */
  lemma LostIff(bytes: seq<Byte>, cp: WritePage, w: nat)
    requires w <= cp.size <= |cp.mem|
    ensures Overlay(bytes, Some(cp.(size := w))) == Overlay(bytes, Some(cp)) <==> OnFlash(bytes, cp, w)
  {
    hide Overlay, OnTop, Within, SameFrom;
    var a, b, base := Overlay(bytes, Some(cp.(size := w))), Overlay(bytes, Some(cp)), Within(cp.offset, |bytes|);
    OverlayIs(bytes, cp);
    OverlayIs(bytes, cp.(size := w));
    if SameFrom(bytes, cp.mem, base, w, cp.size) {
      DroppedSame(a, b, bytes, cp.mem, base, w, cp.size);
    }
    if a == b {
      SameDropped(b, bytes, cp.mem, base, w, cp.size);
    }
  }

  // ----- the descriptor as a byte array with a position -----

  /** What a descriptor has: the bytes on the flash, the cached ones, and the position. */
  datatype Scene = Scene(bytes: seq<Byte>, cp: Option<WritePage>, pos: nat) {
    ghost predicate Ok() {
      cp.Some? ==> cp.value.size <= |cp.value.mem|
    }

    /** The bytes of the file as the descriptor sees them. */
    function All(): seq<Byte>
      requires Ok()
    {
      Overlay(bytes, cp)
    }

    /** Whether a write of `len` bytes at `offset` goes to the cache page at hand. */
    predicate Joins(offset: nat, len: nat, limit: nat) {
      cp.Some? && cp.value.offset <= offset <= cp.value.offset + cp.value.size && offset + len <= cp.value.offset + limit
    }

    /** Where that write begins in what the descriptor sees. */
    function Lands(offset: nat, len: nat, limit: nat): (r: nat)
      requires Ok()
      ensures r <= |All()|
    {
      if Joins(offset, len, limit) then offset - Shift(bytes, cp.value) else Within(offset, |All()|)
    }

    /** The same of a write that may be too big for the cache, or go past it. */
    function Starts(offset: nat, len: nat, limit: nat, direct: bool): (r: nat)
      requires Ok()
      ensures r <= |All()|
    {
      if direct || len >= limit then Within(offset, |All()|) else Lands(offset, len, limit)
    }

    /** Where a descriptor opened for appending writes. */
    function End(): nat {
      if cp.Some? && cp.value.offset + cp.value.size > |bytes| then cp.value.offset + cp.value.size else |bytes|
    }

    /** What the descriptor sees after a write at `offset` that has succeeded. A big one with something
        cached is done twice. */
    function AfterPut(offset: nat, data: seq<Byte>, limit: nat, direct: bool): seq<Byte>
      requires Ok()
    {
      var once := Written(All(), Starts(offset, |data|, limit, direct), data);
      if cp.Some? && |data| >= limit then Written(once, Within(offset, |once|), data) else once
    }

    /** What the descriptor sees if only `w` bytes of the write, or of its repetition, have been written. */
    function PartPut(offset: nat, data: seq<Byte>, limit: nat, direct: bool, again: bool, w: nat): seq<Byte>
      requires Ok() && w <= |data|
    {
      var at := Starts(offset, |data|, limit, direct);
      var once := Written(All(), at, data);
      if again then Written(once, Within(offset, |once|), data[..w]) else Written(All(), at, data[..w])
    }

    /** `r` is on the flash after the cached data, or a beginning of them, have been written back. */
    ghost predicate LeavesBehind(r: seq<Byte>)
      requires Ok()
    {
      if cp.None? then r == bytes
      else exists w: nat :: w <= cp.value.size && r == Overlay(bytes, Some(cp.value.(size := w)))
    }

    /** Position and cached range are inside the file. */
    ghost predicate Plain()
      requires Ok()
    {
      pos <= |All()| && (cp.Some? ==> cp.value.offset <= |bytes|)
    }

    lemma PlainStarts(offset: nat, len: nat, limit: nat, direct: bool)
      requires Ok() && Plain() && offset <= |All()|
      ensures Starts(offset, len, limit, direct) == offset
    {
      hide Overlay;
    }

    /** Then a write inside the file is a write to a plain array. */
    lemma PlainPut(offset: nat, data: seq<Byte>, limit: nat, direct: bool)
      requires Ok() && Plain() && offset <= |All()|
      ensures AfterPut(offset, data, limit, direct) == Written(All(), offset, data)
    {
      PlainStarts(offset, |data|, limit, direct);
      TwiceIsOnce(All(), offset, data, |data|);
      assert data[..|data|] == data;
      hide Overlay, Starts, All;
      assert |Written(All(), offset, data)| >= offset;
    }

    /** Also one at its end. */
    lemma PlainEnd(data: seq<Byte>)
      requires Ok() && Plain()
      ensures End() == |All()| && Written(All(), End(), data) == All() + data
    {
    }
  }

  datatype Whence = FromStart | FromHere | FromEnd

  /** The signed 32-bit number with the same bits. */
  function Signed(n: int): (r: int)
    ensures -0x8000_0000 <= r < 0x8000_0000
    ensures -0x8000_0000 <= n < 0x8000_0000 ==> r == n
  {
    (n + 0x8000_0000) % 0x1_0000_0000 - 0x8000_0000
  }

  /** It differs by a multiple of two to the 32, and is the only one in its range that does. */
  lemma SignedOnly(n: int, r: int, k: int)
    requires -0x8000_0000 <= r < 0x8000_0000
    ensures n == r + k * 0x1_0000_0000 ==> r == Signed(n)
    ensures n == Signed(n) + (n + 0x8000_0000) / 0x1_0000_0000 * 0x1_0000_0000
  {
  }

  lemma SoughtLands(from: nat, offs: int, whence: Whence, size: nat, res: Status, to: nat)
    requires Sought(Target(from, offs, whence, size), size, res, to) && (!res.Ok? ==> to == from)
    ensures SeekLands(from, offs, whence, size, res, to)
  {
    hide Signed;
  }

  /** The position that a seek from position `pos` of a file of `size` bytes asks for, in 32 bits. */
  function Target(pos: nat, offs: int, whence: Whence, size: nat): int {
    match whence
    case FromStart => Signed(offs)
    case FromHere => Signed(pos + offs)
    case FromEnd => Signed(size + offs)
  }

  /** Where a seek leads, if the position asked for is a signed 32-bit number: from the start, from the position,
      or from the end; past the end it fails, before the end it succeeds, and a failure leaves the position. */
  predicate SeekLands(from: nat, offs: int, whence: Whence, size: nat, res: Status, to: nat) {
    var goal := match whence case FromStart => offs case FromHere => from + offs case FromEnd => size + offs;
    -0x8000_0000 <= goal < 0x8000_0000 ==>
      && (if !res.Ok? then to == from else if goal >= 0 then to == goal else to == 0x1_0000_0000 + goal)
      && (goal > size ==> res == EndOfObject)
      && (0 <= goal < size ==> res.Ok?)
      && (res == EndOfObject ==> goal > size || (goal == 0 && size == 0))
  }

  /** The index span that is looked for when the position asked for is negative: that of the data span of the
      number without sign, in 16 bits. */
  function WrappedSpan(g: Geometry, t: int): nat
    requires g.Ok()
  {
    g.IxSpan((t % 0x1_0000_0000) / g.dataSize % 0x1_0000)
  }

  /** What seeking position `t` in a file of `size` bytes may come to. */
  predicate Sought(t: int, size: nat, res: Status, to: nat) {
    && (res.Ok? ==> to == if t >= 0 then t else t % 0x1_0000_0000)
    && (res.Ok? || res == NotFound || res == EndOfObject)
    && (t > size ==> res == EndOfObject)
    && (0 <= t < size ==> res.Ok?)
    && (res == EndOfObject ==> t > size || (t == 0 && size == 0))
  }

  /** An open descriptor used for reading and writing. Where its cached data cannot be written back, the
      operations report that as `saved`; `whole` tells if the file system is valid all the same, and then
      `w` bytes of the cached data have reached the file. */
  class Stream {
    const fs: Spiffs
    const h: nat
    const append: bool
    const direct: bool
    var pos: nat                    // fdoffset
    var cp: Option<WritePage>       // cache_page

    constructor (fs0: Spiffs, h0: nat, append0: bool, direct0: bool)
      requires fs0.Valid() && h0 < |fs0.fds| && fs0.fds[h0].open
      ensures fs == fs0 && h == h0 && append == append0 && direct == direct0 && pos == 0 && cp == None
      ensures Valid() && Content() == Bytes()
    {
      fs, h, append, direct, pos, cp := fs0, h0, append0, direct0, 0, None;
      new;
      FdFacts(fs.g, fs.Now(), None, None, h);
    }

    /** The descriptor is open on a file. */
    ghost predicate Valid()
      reads this, fs
    {
      && fs.Valid() && h < |fs.fds| && fs.fds[h].open && fs.fds[h].id in fs.files
      && (cp.Some? ==> 0 < cp.value.size <= |cp.value.mem| == Limit() && !direct)
    }

    /** Bytes of a cache page. */
    function Limit(): nat {
      fs.g.dataSize + 5
    }

    /** The bytes of the file on the flash. */
    ghost function Bytes(): seq<Byte>
      reads this, fs
      requires h < |fs.fds|
    {
      BytesOf(fs.files, fs.fds[h].id)
    }

    ghost function Now(): Scene
      reads this, fs
      requires h < |fs.fds|
    {
      Scene(Bytes(), cp, pos)
    }

    /** The bytes of the file as the descriptor sees them. */
    ghost function Content(): seq<Byte>
      reads this, fs
      requires h < |fs.fds| && (cp.Some? ==> cp.value.size <= |cp.value.mem|)
    {
      Overlay(Bytes(), cp)
    }

    /** What is left if `w` bytes of the cached data reach the file and the others are dropped. */
    ghost function Kept(w: nat): seq<Byte>
      reads this, fs
      requires h < |fs.fds| && (cp.Some? ==> w <= cp.value.size <= |cp.value.mem|)
    {
      if cp.None? then Bytes() else Overlay(Bytes(), Some(cp.value.(size := w)))
    }

    /** The cached data from byte `w` on are on the flash already. */
    ghost predicate Spared(w: nat)
      reads this, fs
      requires h < |fs.fds| && (cp.Some? ==> cp.value.size <= |cp.value.mem|)
    {
      cp.Some? ==> OnFlash(Bytes(), cp.value, w)
    }

    /** What is cached lies behind the start of a file whose size is undefined: writing it back fails, or
        leaves a hole. */
    predicate Astray()
      reads this, fs
    {
      cp.Some? && h < |fs.fds| && Hollow(fs.fds[h], cp.value.offset)
    }

    /** Nothing is cached, or there is enough space to write it back. */
    ghost predicate Backed()
      reads this, fs
      requires Valid()
    {
      cp.Some? ==> !Astray() && Suffices(fs.g, fs.N(), Tidy(fs), |Bytes()|, cp.value.offset, cp.value.size)
    }

    /** Something is cached, and the space check will refuse to write it back. */
    ghost predicate Doomed()
      reads this, fs
      requires Valid()
    {
      cp.Some? && NoRoom(fs.g, fs.N(), |Bytes()|, cp.value.offset, cp.value.size)
    }

    /** Writes past the cache. */
    method Through(offset: nat, data: seq<Byte>) returns (res: Status, whole: bool, ghost w: nat)
      requires fs.Valid() && h < |fs.fds| && fs.fds[h].open && fs.fds[h].id in fs.files && data != []
      modifies fs
      ensures fs.Phys() && SameFds(old(fs.fds), fs.fds) && w <= |data|
      ensures whole ==> fs.Valid() && h < |fs.fds| && fs.fds[h].open && fs.fds[h].id in fs.files
                        && old(h < |fs.fds|) && fs.fds[h].id == old(fs.fds[h].id)
      ensures old(h < |fs.fds|)
      ensures whole ==> Bytes() == Written(old(Bytes()), Within(offset, |old(Bytes())|), data[..w])
                        && OthersSame(old(fs.files), fs.files, fs.fds[h].id)
      ensures res.Ok? && !old(Hollow(fs.fds[h], offset)) ==> whole && w == |data|
      ensures Suffices(fs.g, old(fs.N()), old(Tidy(fs)), |old(Bytes())|, offset, |data|) && !old(Hollow(fs.fds[h], offset)) ==> res.Ok?
      ensures NoRoom(fs.g, old(fs.N()), |old(Bytes())|, offset, |data|) ==> res == Full && whole && w == 0 && fs.Now() == old(fs.Now())
      ensures old(Hollow(fs.fds[h], offset)) ==> w == 0 && (res.Ok? ==> !whole && !Mendable(fs.g, fs.Now()))
      ensures old(Hollow(fs.fds[h], offset)) && !Aligned(fs.g, offset) ==>
                !res.Ok? && (Passes(fs.g, old(fs.N()), |data| + fs.g.dataSize) ==> whole)
    {
      hide PhysOk, LogicOk, Settled, SameFds, Written, Suffices, NoRoom, Mendable, Aligned, HoleLeft, Reaches, Passes;
      ghost var fds, files := fs.fds, fs.files;
      res, whole, w := HydroWrite(fs, h, offset, data);
      SameFdsAt(fds, fs.fds, h);
      if whole {
        FilesSet(files, fs.fds[h].id, Written(files[fs.fds[h].id].bytes, Within(offset, |files[fs.fds[h].id].bytes|), data[..w]));
      }
    }

    /** Writes back the cache page, if there is one, and releases it in any case. */
    method FlushCache() returns (res: Status, whole: bool, ghost w: nat)
      requires Valid()
      modifies this`cp, fs
      ensures cp == None && fs.Phys() && SameFds(old(fs.fds), fs.fds) && old(Valid() && (cp.Some? ==> w <= cp.value.size))
      ensures whole ==> Valid() && Content() == old(Kept(w)) && fs.fds[h].id == old(fs.fds[h].id)
                        && OthersSame(old(fs.files), fs.files, fs.fds[h].id)
      ensures whole ==> (Content() == old(Content()) <==> old(Spared(w)))
      ensures res.Ok? && !old(Astray()) ==> whole && Content() == old(Content())
      ensures old(cp.None?) ==> res.Ok? && fs.Now() == old(fs.Now())
      ensures old(Backed()) ==> res.Ok?
      ensures old(Doomed()) ==> res == Full && whole && w == 0 && fs.Now() == old(fs.Now()) && Content() == old(Bytes())
      ensures old(Astray()) ==> w == 0 && (res.Ok? ==> !whole && !Mendable(fs.g, fs.Now()))
      ensures old(Astray() && !Aligned(fs.g, cp.value.offset) && Passes(fs.g, fs.N(), cp.value.size + fs.g.dataSize)) ==> !res.Ok? && whole
    {
      hide PhysOk, LogicOk, Settled, SameFds, Suffices, NoRoom, Mendable, Aligned, Passes, Overlay, Written, OnFlash, OthersSame, Hollow;
      EqualFds(fs.fds);
      EqualOthers(fs.files, fs.fds[h].id);
      res, whole, w := Ok, true, 0;
      if !direct && cp.Some? {
        var page := cp.value;
        ghost var bytes := Bytes();
        res, whole, w := Through(page.offset, page.mem[..page.size]);
        LostIff(bytes, page, w);
        KeptIs(bytes, page, w);
        cp := None;
      }
      if whole {
        OverlayNone(Bytes());
      }
    }

    /** Where a write begins: at the position, or at the end of a file opened for appending. */
    ghost function Begin(): nat
      reads this, fs
      requires h < |fs.fds|
    {
      if append then Now().End() else pos
    }

    /** A write of `len` bytes goes past the cache at once. */
    predicate Past(len: nat, room: bool)
      reads this
    {
      cp.None? && (direct || len >= Limit() || !room)
    }

    /** A small write goes to the cache page at hand, or to a new one. */
    ghost predicate Caches(len: nat, room: bool)
      reads this, fs
      requires h < |fs.fds|
    {
      !direct && len < Limit() && if cp.None? then room else Now().Joins(Begin(), len, Limit())
    }

    /** Writes `data` at the position, or at the end of the file if it was opened for appending;
        `room` tells if a cache page can be had. If what is cached must be written back first, `flushed` tells
        if that has succeeded: if not, `w` bytes of it have reached the file, and otherwise `w` bytes of
        `data`, or, if the write is done `again`, of its repetition. */
    method Write(data: seq<Byte>, room: bool)
      returns (res: Status, whole: bool, ghost flushed: bool, ghost again: bool, ghost w: nat)
      requires Valid() && data != []
      modifies this`pos, this`cp, fs
      ensures fs.Phys() && old(Valid()) && w <= old(if cp.Some? && !flushed then cp.value.size else |data|)
      ensures pos == old(pos) + if res.Ok? then |data| else 0
      ensures whole ==> Valid() && fs.fds[h].id == old(fs.fds[h].id) && OthersSame(old(fs.files), fs.files, fs.fds[h].id)
      ensures whole && res.Ok? ==> Content() == old(Now().AfterPut(Begin(), data, Limit(), direct))
      ensures !res.Ok? ==> cp == None
      ensures whole && !flushed ==> !res.Ok? && old(cp.Some?) && Content() == old(Kept(w)) && (Content() == old(Content()) <==> old(Spared(w)))
      ensures whole && flushed && !res.Ok? ==> Content() == old(Now().PartPut(Begin(), data, Limit(), direct, again, w))
      ensures old(Backed()) ==> flushed
      ensures whole && res.Ok? && cp.Some? ==>
                if old(Now().Joins(Begin(), |data|, Limit())) then old(cp.Some?) && cp.value.offset == old(cp.value.offset) && Bytes() == old(Bytes())
                else cp.value.offset == old(Begin()) && Bytes() == old(Content())
      ensures old(Caches(|data|, room)) ==> res.Ok? && whole && fs.Now() == old(fs.Now()) && cp.Some?
      ensures old(cp.None?) && cp.Some? ==> cp.value.offset == old(Begin()) && cp.value.size == |data|
      ensures old(Past(|data|, room) && Suffices(fs.g, fs.N(), Tidy(fs), |Content()|, Begin(), |data|) && !Hollow(fs.fds[h], Begin())) ==> res.Ok? && whole
      ensures res.Ok? && old(!Astray() && !(Past(|data|, room) && Hollow(fs.fds[h], Begin()))) ==> whole
      ensures old(Past(|data|, room) && Hollow(fs.fds[h], Begin())) ==>
                (res.Ok? ==> !whole && !Mendable(fs.g, fs.Now())) && (whole ==> w == 0 && Content() == old(Content()))
    {
      hide PhysOk, LogicOk, Written, Suffices, Settled, Overlay, Mendable;
      var offset := pos;
      if append {
        offset := EndOfFile();
      }
      if !direct && |data| < Limit() {
        res, whole, flushed, w := SmallWrite(offset, data, room);
        again := false;
      } else {
        res, whole, flushed, again, w := BigWrite(offset, data);
      }
      if res.Ok? {
        pos := pos + |data|;
      }
    }

    /** Writes back what is cached if a small write cannot join it. */
    method MakeRoom(offset: nat, len: nat) returns (res: Status, whole: bool, ghost w: nat)
      requires Valid() && len < Limit()
      modifies this`cp, fs
      ensures fs.Phys() && old(Valid() && (cp.Some? ==> w <= cp.value.size))
      ensures whole ==> Valid() && fs.fds[h].id == old(fs.fds[h].id) && OthersSame(old(fs.files), fs.files, fs.fds[h].id)
      ensures if old(cp.None? || Now().Joins(offset, len, Limit())) then res.Ok? && whole && fs.Now() == old(fs.Now()) && cp == old(cp) else cp == None
      ensures whole && res.Ok? ==> Content() == old(Content())
      ensures whole && res.Ok? && old(cp.Some?) && cp.None? ==> fs.fds[h].size.Some?
      ensures whole && !res.Ok? ==> Content() == old(Kept(w)) && (Content() == old(Content()) <==> old(Spared(w)))
      ensures old(Backed()) ==> res.Ok?
      ensures res.Ok? && old(!Astray()) ==> whole
      ensures res.Ok? && !whole ==> w == 0
    {
      hide PhysOk, LogicOk, Written, Suffices, NoRoom, OnFlash, Settled, SameFds, OthersSame, Mendable, Aligned, Passes, Overlay;
      res, whole, w := Ok, true, 0;
      EqualOthers(fs.files, fs.fds[h].id);
      if cp.Some? && (offset < cp.value.offset || offset > cp.value.offset + cp.value.size
                      || offset + len > cp.value.offset + Limit()) {
        ghost var fds, all, page, astray := fs.fds, Content(), cp.value, Astray();
        SomeCachedAt(Bytes(), page);
        res, whole, w := FlushCache();
        SameFdsAt(fds, fs.fds, h);
        if whole && res.Ok? {
          assert !astray;
          KnownSize();
        }
      }
    }

    /** Stores a small write in the cache page, if there is or can be one, or writes it past the cache. */
    method StoreSmall(offset: nat, data: seq<Byte>, room: bool) returns (res: Status, whole: bool, ghost w: nat)
      requires Valid() && data != [] && !direct && |data| < Limit() && (cp.Some? ==> Now().Joins(offset, |data|, Limit()))
      modifies this`cp, fs
      ensures fs.Phys() && old(Valid()) && w <= |data|
      ensures whole ==> Valid() && fs.fds[h].id == old(fs.fds[h].id) && OthersSame(old(fs.files), fs.files, fs.fds[h].id)
      ensures whole && res.Ok? ==> Content() == Written(old(Content()), old(Now().Lands(offset, |data|, Limit())), data)
      ensures !res.Ok? ==> cp == None && old(cp.None?)
      ensures whole && !res.Ok? ==> Content() == Written(old(Content()), Within(offset, |old(Content())|), data[..w])
      ensures cp.Some? <==> old(cp.Some?) || room
      ensures cp.Some? ==> res.Ok? && whole && fs.Now() == old(fs.Now())
      ensures old(cp.Some?) ==> cp.Some? && cp.value.offset == old(cp.value.offset)
      ensures old(cp.None?) && cp.Some? ==> cp.value.offset == offset && cp.value.size == |data|
      ensures old(cp.None? && Suffices(fs.g, fs.N(), Tidy(fs), |Content()|, offset, |data|) && !Hollow(fs.fds[h], offset)) ==> res.Ok? && whole
      ensures res.Ok? && old(!(cp.None? && !room && Hollow(fs.fds[h], offset))) ==> whole
      ensures old(cp.None? && Hollow(fs.fds[h], offset)) && !room ==>
                (res.Ok? ==> !whole && !Mendable(fs.g, fs.Now())) && (whole ==> w == 0 && Content() == old(Content()))
    {
      hide PhysOk, LogicOk, Written, Suffices, NoRoom, OnFlash, Settled, SameFds, OthersSame, Mendable, Aligned, Passes, Overlay, Hollow;
      ghost var all := Content();
      whole, w := true, 0;
      OverlayNone(Bytes());
      EqualOthers(fs.files, fs.fds[h].id);
      if cp.None? && room {
        cp := Some(WritePage(offset, seq(Limit(), _ => ERASED), 0));
        OverlayNothing(Bytes(), cp.value);
      }
      if cp.Some? {
        StoreInPage(offset, data);
        res := Ok;
      } else {
        assert data[..|data|] == data;
        WrittenNothing(all, offset);
        res, whole, w := Through(offset, data);
        if whole {
          OverlayNone(Bytes());
        }
      }
    }

    /** Tries to cache a small write; then nothing is written to the flash. */
    method SmallWrite(offset: nat, data: seq<Byte>, room: bool) returns (res: Status, whole: bool, ghost flushed: bool, ghost w: nat)
      requires Valid() && data != [] && !direct && |data| < Limit()
      modifies this`cp, fs
      ensures fs.Phys() && old(Valid()) && w <= old(if cp.Some? && !flushed then cp.value.size else |data|)
      ensures whole ==> Valid() && fs.fds[h].id == old(fs.fds[h].id) && OthersSame(old(fs.files), fs.files, fs.fds[h].id)
      ensures whole && res.Ok? ==> Content() == Written(old(Content()), old(Now().Lands(offset, |data|, Limit())), data)
      ensures !res.Ok? ==> cp == None
      ensures whole && !flushed ==> !res.Ok? && old(cp.Some?) && Content() == old(Kept(w)) && (Content() == old(Content()) <==> old(Spared(w)))
      ensures whole && flushed && !res.Ok? ==> Content() == Written(old(Content()), old(Now().Lands(offset, |data|, Limit())), data[..w])
      ensures old(Backed()) ==> flushed
      ensures whole && res.Ok? && cp.Some? ==>
                if old(Now().Joins(offset, |data|, Limit())) then old(cp.Some?) && cp.value.offset == old(cp.value.offset) && Bytes() == old(Bytes())
                else cp.value.offset == offset && Bytes() == old(Content())
      ensures old(if cp.None? then room else Now().Joins(offset, |data|, Limit())) ==> res.Ok? && whole && fs.Now() == old(fs.Now()) && cp.Some?
      ensures old(cp.None?) && cp.Some? ==> cp.value.offset == offset && cp.value.size == |data|
      ensures old(cp.None? && Suffices(fs.g, fs.N(), Tidy(fs), |Content()|, offset, |data|) && !Hollow(fs.fds[h], offset)) ==> res.Ok? && whole
      ensures res.Ok? && old(!Astray() && !(cp.None? && !room && Hollow(fs.fds[h], offset))) ==> whole
      ensures old(cp.None? && Hollow(fs.fds[h], offset)) && !room ==>
                (res.Ok? ==> !whole && !Mendable(fs.g, fs.Now())) && (whole ==> w == 0 && Content() == old(Content()))
    {
      hide PhysOk, LogicOk, Written, Suffices, NoRoom, OnFlash, Settled, SameFds, OthersSame, Mendable, Aligned, Passes, Overlay;
      ghost var files0 := fs.files;
      OverlayNone(Bytes());
      res, whole, w := MakeRoom(offset, |data|);
      flushed := res.Ok?;
      if !res.Ok? || !whole {
        return;
      }
      ghost var files1 := fs.files;
      OverlayNone(Bytes());
      res, whole, w := StoreSmall(offset, data, room);
      if whole {
        OthersSameChain(files0, files1, fs.files, fs.fds[h].id);
      }
    }

    /** Stores `data` in the cache page, inside or right behind what is cached there. */
    method StoreInPage(offset: nat, data: seq<Byte>)
      requires fs.Valid() && h < |fs.fds| && fs.fds[h].open && fs.fds[h].id in fs.files && !direct && data != []
      requires cp.Some? && cp.value.size <= |cp.value.mem| == Limit()
      requires cp.value.offset <= offset <= cp.value.offset + cp.value.size && offset - cp.value.offset + |data| <= |cp.value.mem|
      modifies this`cp
      ensures Valid() && cp.Some? && old(h < |fs.fds| && cp.Some? && cp.value.size <= |cp.value.mem| && cp.value.offset <= offset)
      ensures offset - old(Shift(Bytes(), cp.value)) <= |old(Content())|
      ensures Content() == Written(old(Content()), offset - old(Shift(Bytes(), cp.value)), data)
      ensures cp.value.offset == old(cp.value.offset) && (old(cp.value.size) == 0 ==> cp.value.size == |data|)
    {
      hide PhysOk, LogicOk, Written;
      OverlayStored(Bytes(), cp.value, offset, data);
      cp := Some(Stored(cp.value, offset, data));
    }

    /** The first of the two big writes that follow cached data. */
    method FlushThen(offset: nat, data: seq<Byte>) returns (res: Status, whole: bool, ghost flushed: bool, ghost w: nat)
      requires Valid() && data != [] && cp.Some? && |data| >= Limit()
      modifies this`cp, fs
      ensures fs.Phys() && old(Valid()) && w <= old(if !flushed then cp.value.size else |data|)
      ensures cp == None
      ensures whole ==> Valid() && fs.fds[h].id == old(fs.fds[h].id) && OthersSame(old(fs.files), fs.files, fs.fds[h].id)
      ensures whole && res.Ok? ==> flushed && Content() == Written(old(Content()), Within(offset, |old(Content())|), data) && Bytes() != []
      ensures whole && !flushed ==> !res.Ok? && Content() == old(Kept(w)) && (Content() == old(Content()) <==> old(Spared(w)))
      ensures whole && flushed && !res.Ok? ==> Content() == Written(old(Content()), Within(offset, |old(Content())|), data[..w])
      ensures old(Backed()) ==> flushed
      ensures res.Ok? && old(!Astray()) ==> whole
    {
      hide PhysOk, LogicOk, Settled, Suffices, NoRoom, OnFlash, SameFds, OthersSame, Mendable, Aligned, Passes, Overlay;
      ghost var files0, fds, all := fs.files, fs.fds, Content();
      assert data[..|data|] == data;
      SomeCachedAt(Bytes(), cp.value);
      res, whole, w := FlushCache();
      SameFdsAt(fds, fs.fds, h);
      flushed := res.Ok?;
      if !res.Ok? || !whole {
        return;
      }
      ghost var files1 := fs.files;
      OverlayNone(Bytes());
      if Content() == all {
        KnownSize();
      }
      res, whole, w := Through(offset, data);
      if whole {
        OverlayNone(Bytes());
        OthersSameChain(files0, files1, fs.files, fs.fds[h].id);
      }
    }

    /** The size of a file that is not empty is known. */
    lemma KnownSize()
      requires Valid() && cp == None && Content() != []
      ensures fs.fds[h].size.Some?
    {
      hide PhysOk, LogicOk;
      FdFacts(fs.g, fs.Now(), None, None, h);
    }

    /** Writes past the cache, after what is cached; then twice. */
    method BigWrite(offset: nat, data: seq<Byte>) returns (res: Status, whole: bool, ghost flushed: bool, ghost again: bool, ghost w: nat)
      requires Valid() && data != [] && (direct || |data| >= Limit())
      modifies this`cp, fs
      ensures fs.Phys() && old(Valid()) && w <= old(if cp.Some? && !flushed then cp.value.size else |data|)
      ensures cp == None
      ensures whole ==> Valid() && fs.fds[h].id == old(fs.fds[h].id) && OthersSame(old(fs.files), fs.files, fs.fds[h].id)
      ensures whole && res.Ok? ==> Content() == old(Now().AfterPut(offset, data, Limit(), direct))
      ensures whole && !flushed ==> !res.Ok? && old(cp.Some?) && Content() == old(Kept(w)) && (Content() == old(Content()) <==> old(Spared(w)))
      ensures whole && flushed && !res.Ok? ==> Content() == old(Now().PartPut(offset, data, Limit(), direct, again, w))
      ensures old(Backed()) ==> flushed
      ensures old(cp.None? && Suffices(fs.g, fs.N(), Tidy(fs), |Content()|, offset, |data|) && !Hollow(fs.fds[h], offset)) ==> res.Ok? && whole
      ensures res.Ok? && old(!Astray() && !(cp.None? && Hollow(fs.fds[h], offset))) ==> whole
      ensures old(cp.None? && Hollow(fs.fds[h], offset)) ==>
                (res.Ok? ==> !whole && !Mendable(fs.g, fs.Now())) && (whole ==> w == 0 && Content() == old(Content()))
    {
      hide PhysOk, LogicOk, Written, Settled, Suffices, NoRoom, OnFlash, SameFds, OthersSame, Mendable, Aligned, Passes, Overlay;
      flushed, again, w := true, false, 0;
      assert data[..|data|] == data;
      ghost var files0, all := fs.files, Content();
      EqualOthers(files0, fs.fds[h].id);
      OverlayNone(Bytes());
      WrittenNothing(all, offset);
      if !direct && cp.Some? {
        // write back cache first
        res, whole, flushed, w := FlushThen(offset, data);
        if !res.Ok? || !whole {
          return;
        }
        again := true;
        OverlayNone(Bytes());
        KnownSize();
      }
      ghost var files1 := fs.files;
      res, whole, w := Through(offset, data);
      if whole {
        OverlayNone(Bytes());
        OthersSameChain(files0, files1, fs.files, fs.fds[h].id);
      }
    }

    /** Where a file opened for appending is written to. */
    method EndOfFile() returns (offset: nat)
      requires Valid()
      ensures offset == Now().End()
    {
      hide PhysOk, LogicOk;
      FdFacts(fs.g, fs.Now(), None, None, h);
      offset := fs.fds[h].size.GetOr(0);
      if cp.Some? && cp.value.offset + cp.value.size > offset {
        offset := cp.value.offset + cp.value.size;
      }
    }

    /** Reads `len` bytes from the position on, fewer at the end of the file. That cached data could not be
        written back does not stop the code: it reads on, what is left on the flash. */
    method Read(len: nat) returns (res: Status, out: seq<Byte>, saved: Status, whole: bool, ghost w: nat)
      requires Valid()
      modifies this`pos, this`cp, fs
      ensures cp == None && fs.Phys() && SameFds(old(fs.fds), fs.fds) && old(Valid() && (cp.Some? ==> w <= cp.value.size))
      ensures pos == old(pos) + |out|
      ensures whole ==> Valid() && Content() == old(Kept(w)) && Reads(Content(), old(pos), len, res, out)
                        && fs.fds[h].id == old(fs.fds[h].id) && OthersSame(old(fs.files), fs.files, fs.fds[h].id)
      ensures whole ==> (Content() == old(Content()) <==> old(Spared(w)))
      ensures saved.Ok? && !old(Astray()) ==> whole && Content() == old(Content())
      ensures old(Backed()) ==> saved.Ok?
      ensures old(Doomed()) ==> saved == Full && whole && w == 0 && Content() == old(Bytes())
      ensures old(Astray()) ==> w == 0 && (saved.Ok? ==> !whole)
    {
      hide PhysOk, LogicOk, Settled, SameFds, Suffices, NoRoom, OthersSame, OnFlash, Reads, Written, Mendable, Aligned, Passes, Hollow;
      ghost var fds0 := fs.fds;
      saved, whole, w := FlushCache();
      SameFdsAt(fds0, fs.fds, h);
      ghost var fds1 := fs.fds;
      res, out := ReadAt(fs, h, pos, len);
      SameFdsChain(fds0, fds1, fs.fds);
      SameFdsAt(fds1, fs.fds, h);
      pos := pos + |out|;
    }

    /** Puts the descriptor's cursor on index page `s`. */
    method SeekIndexPage(s: nat, ghost whole: bool) returns (res: Status)
      requires fs.Phys() && h < |fs.fds| && cp == None && (whole ==> Valid())
      modifies fs`cursor, fs`fds
      ensures fs.Phys() && SameFds(old(fs.fds), fs.fds) && (res.Ok? || res == NotFound)
      ensures h < |fs.fds| && (res.Ok? ==> fs.fds[h].curSpan == s)
      ensures whole ==> Valid() && Bytes() == old(Bytes()) && h < |old(fs.fds)|
      ensures whole ==> (res.Ok? <==> old(fs.fds)[h].curSpan == s || Key(fs.fds[h].id, true, s) in fs.dir.cat)
    {
      hide PhysOk, LogicOk, Overlay;
      EqualFds(fs.fds);
      var fd := fs.fds[h];
      res := Ok;
      if fd.curSpan != s {
        var pix;
        res, pix := fs.FindIdAndSpan(fd.id, true, s);
        if res.Ok? {
          if whole {
            CursorMoved(fs.g, fs.Now(), h, Key(fd.id, true, s));
          }
          fs.fds := fs.fds[h := fd.(curSpan := s, curPix := Some(pix))];
        }
      }
    }

    /** Sets the position. Where the data span at the new position needs an index page that the file
        has not got, at the very end of a file that fills its last index page, the search for it fails,
        unless the cursor is on that span already. A position before the start is a big one without sign. */
    method Seek(offs: int, whence: Whence) returns (res: Status, saved: Status, whole: bool, ghost w: nat)
      requires Valid()
      modifies this`pos, this`cp, fs
      ensures cp == None && fs.Phys() && SameFds(old(fs.fds), fs.fds) && old(Valid() && (cp.Some? ==> w <= cp.value.size))
      ensures whole ==> Valid() && Content() == old(Kept(w))
                        && fs.fds[h].id == old(fs.fds[h].id) && OthersSame(old(fs.files), fs.files, fs.fds[h].id)
      ensures whole ==> (Content() == old(Content()) <==> old(Spared(w)))
      ensures saved.Ok? && !old(Astray()) ==> whole && Content() == old(Content())
      ensures old(Backed()) ==> saved.Ok?
      ensures old(Doomed()) ==> saved == Full && whole && w == 0 && Content() == old(Bytes())
      ensures old(Astray()) ==> w == 0 && (saved.Ok? ==> !whole)
      ensures !res.Ok? ==> pos == old(pos)
      ensures whole ==> SeekLands(old(pos), offs, whence, |Content()|, res, pos)
      ensures whole ==> Sought(Target(old(pos), offs, whence, |Content()|), |Content()|, res, pos)
      ensures whole && res == NotFound ==>
                var t := Target(old(pos), offs, whence, |Content()|);
                t < 0 || (t == |Content()| && AtIndexEdge(fs.g, t))
      ensures whole && Target(old(pos), offs, whence, |Content()|) < 0 ==>
                var s := WrappedSpan(fs.g, Target(old(pos), offs, whence, |Content()|));
                fs.fds[h].curSpan == s || (res == NotFound && Key(fs.fds[h].id, true, s) !in fs.dir.cat)
      ensures old(cp.None? && Valid() && Content() != []) ==>
                var t := Target(old(pos), offs, whence, old(|Content()|));
                t >= 0 ==> (res.Ok? <==> t <= |old(Content())|
                                         && !(t == |old(Content())| && fs.g.Ok() && AtIndexEdge(fs.g, t)
                                              && h < |old(fs.fds)| && old(fs.fds)[h].curSpan != fs.g.IxSpan(fs.g.PageOf(t))))
    {
      hide PhysOk, LogicOk, Settled, SameFds, Suffices, NoRoom, OthersSame, AtIndexEdge, OnFlash, Written, Mendable, Aligned, Passes, Hollow, Overlay;
      ghost var fds0, id := fs.fds, fs.fds[h].id;
      OverlayNone(Bytes());
      saved, whole, w := FlushCache();
      SameFdsAt(fds0, fs.fds, h);
      if whole {
        OverlayNone(Bytes());
      }
      ghost var fds1 := fs.fds;
      res := SeekFrom(offs, whence, whole);
      SameFdsChain(fds0, fds1, fs.fds);
      SameFdsAt(fds0, fs.fds, h);
      if whole {
        OverlayNone(Bytes());
      }
    }

    /** Sets the position, with nothing cached. */
    method SeekFrom(offs: int, whence: Whence, ghost whole: bool) returns (res: Status)
      requires fs.Phys() && h < |fs.fds| && cp == None && (whole ==> Valid())
      modifies this`pos, fs`cursor, fs`fds
      ensures fs.Phys() && SameFds(old(fs.fds), fs.fds) && h < |fs.fds| && h < |old(fs.fds)|
      ensures !res.Ok? ==> pos == old(pos)
      ensures whole ==> Valid() && Bytes() == old(Bytes()) && SeekLands(old(pos), offs, whence, |Bytes()|, res, pos)
      ensures whole ==> Sought(Target(old(pos), offs, whence, |Bytes()|), |Bytes()|, res, pos)
      ensures whole && res == NotFound ==>
                var t := Target(old(pos), offs, whence, |Bytes()|);
                t < 0 || (t == |Bytes()| && AtIndexEdge(fs.g, t))
      ensures whole && Target(old(pos), offs, whence, |Bytes()|) < 0 ==>
                var s := WrappedSpan(fs.g, Target(old(pos), offs, whence, |Bytes()|));
                fs.fds[h].curSpan == s || (res == NotFound && Key(fs.fds[h].id, true, s) !in fs.dir.cat)
      ensures whole && Bytes() != [] ==>
                var t := Target(old(pos), offs, whence, |Bytes()|);
                t >= 0 ==> (res.Ok? <==> t <= |Bytes()| && !(t == |Bytes()| && AtIndexEdge(fs.g, t)
                                                             && old(fs.fds)[h].curSpan != fs.g.IxSpan(fs.g.PageOf(t))))
    {
      hide PhysOk, LogicOk, AtIndexEdge, SameFds, Signed, SeekLands;
      ghost var fds0, pos0 := fs.fds, pos;
      EqualFds(fds0);
      var size := fs.fds[h].size;
      if whole {
        FdFacts(fs.g, fs.Now(), None, None, h);
      }
      var t := Signed(offs);
      match whence {
        case FromStart =>
        case FromHere => t := Signed(pos + offs);
        case FromEnd => t := Signed((if size.None? then 0 else size.value) + offs);
      }
      // an undefined size is -1 as a signed number
      if t > if size.None? then -1 else size.value {
        res := EndOfObject;
        if whole {
          SoughtLands(pos0, offs, whence, |Bytes()|, res, pos);
        }
        return;
      }
      var s;
      if t >= 0 {
        fs.g.SplitOffset(t);
        s := fs.g.IxSpan(t / fs.g.dataSize);
        if whole {
          SeekIndex(fs.g, fs.Now(), fs.fds[h].id, t);
        }
      } else {
        s := fs.g.IxSpan((t % 0x1_0000_0000) / fs.g.dataSize % 0x1_0000);
      }
      res := SeekIndexPage(s, whole);
      SameFdsAt(fds0, fs.fds, h);
      if res.Ok? {
        pos := if t >= 0 then t else t % 0x1_0000_0000;
      }
      if whole {
        SoughtLands(pos0, offs, whence, |Bytes()|, res, pos);
      }
    }

    /** Writes back what is cached. */
    method Flush() returns (res: Status, whole: bool, ghost w: nat)
      requires Valid()
      modifies this`cp, fs
      ensures cp == None && fs.Phys() && old(Valid() && (cp.Some? ==> w <= cp.value.size))
      ensures whole ==> Valid() && Content() == Bytes() == old(Kept(w))
                        && fs.fds[h].id == old(fs.fds[h].id) && OthersSame(old(fs.files), fs.files, fs.fds[h].id)
      ensures whole ==> (Content() == old(Content()) <==> old(Spared(w)))
      ensures res.Ok? && !old(Astray()) ==> whole && Content() == old(Content())
      ensures old(Backed()) ==> res.Ok?
      ensures old(Doomed()) ==> res == Full && whole && w == 0 && Bytes() == old(Bytes())
      ensures old(Astray()) ==> w == 0 && (res.Ok? ==> !whole && !Mendable(fs.g, fs.Now()))
      ensures old(Astray() && !Aligned(fs.g, cp.value.offset) && Passes(fs.g, fs.N(), cp.value.size + fs.g.dataSize)) ==> !res.Ok? && whole
    {
      res, whole, w := FlushCache();
    }

    /** Writes back what is cached, and closes the descriptor, whether that worked or not. */
    method Close() returns (saved: Status, whole: bool, ghost w: nat)
      requires Valid()
      modifies this`cp, fs
      ensures cp == None && fs.Phys() && h < |fs.fds| && !fs.fds[h].open && old(Valid() && (cp.Some? ==> w <= cp.value.size))
      ensures whole ==> fs.Valid() && old(fs.fds[h].id) in fs.files && fs.files[old(fs.fds[h].id)].bytes == old(Kept(w))
                        && OthersSame(old(fs.files), fs.files, old(fs.fds[h].id))
      ensures whole ==> (fs.files[old(fs.fds[h].id)].bytes == old(Content()) <==> old(Spared(w)))
      ensures saved.Ok? && !old(Astray()) ==> whole && fs.files[old(fs.fds[h].id)].bytes == old(Content())
      ensures old(Backed()) ==> saved.Ok?
      ensures old(Doomed()) ==> saved == Full && whole && w == 0 && fs.files[old(fs.fds[h].id)].bytes == old(Bytes())
      ensures old(Astray()) ==> w == 0 && (saved.Ok? ==> !whole)
    {
      hide PhysOk, LogicOk, Settled, SameFds, Suffices, NoRoom, OthersSame, OnFlash, Written, Mendable, Aligned, Passes, Hollow;
      ghost var fds0 := fs.fds;
      saved, whole, w := FlushCache();
      SameFdsAt(fds0, fs.fds, h);
      if whole {
        ClosedOne(fs.g, fs.Now(), h);
      }
      fs.fds := fs.fds[h := fs.fds[h].(open := false)];
    }
  }

  lemma OverlayNone(bytes: seq<Byte>)
    ensures Overlay(bytes, None) == bytes
  {
  }

  lemma SomeCachedAt(bytes: seq<Byte>, cp: WritePage)
    requires 0 < cp.size <= |cp.mem|
    ensures Overlay(bytes, Some(cp)) != []
  {
  }

  lemma KeptIs(bytes: seq<Byte>, cp: WritePage, w: nat)
    requires w <= cp.size <= |cp.mem|
    ensures Overlay(bytes, Some(cp.(size := w))) == Written(bytes, Within(cp.offset, |bytes|), cp.mem[..cp.size][..w])
    ensures w == cp.size ==> cp.(size := w) == cp
  {
    assert cp.mem[..cp.size][..w] == cp.mem[..w];
  }

  lemma WrittenNothing(bytes: seq<Byte>, offset: nat)
    ensures Written(bytes, Within(offset, |bytes|), []) == bytes
  {
  }

  lemma EqualOthers(files: map<nat, File>, id: nat)
    ensures OthersSame(files, files, id)
  {
  }

  lemma OverlayNothing(bytes: seq<Byte>, cp: WritePage)
    requires cp.size == 0
    ensures Overlay(bytes, Some(cp)) == bytes
  {
  }

  /** A file of `size` bytes fills its last index page. */
  predicate AtIndexEdge(g: Geometry, size: nat)
    requires g.Ok()
  {
    g.Base(g.IxSpan(g.PageOf(size))) == g.Pages(size)
  }

  /** The files that fill their last index page are those that end where an index page other than the
      header begins, so there is one for each such page. */
  lemma EdgeSizes(g: Geometry, size: nat)
    requires g.Ok() && size > 0
    ensures AtIndexEdge(g, size) <==> exists s: nat :: s >= 1 && size == g.Start(g.Base(s))
  {
    g.PageOfBounds(size);
    g.PagesBounds(size, g.Pages(size));
    if AtIndexEdge(g, size) {
      var s := g.IxSpan(g.PageOf(size));
      g.SlotBounds(g.PageOf(size));
      g.StartMonotone(g.Base(s), g.PageOf(size));
      g.PagesBounds(size, 0);
      assert s >= 1 && size == g.Start(g.Base(s));
    }
    if s: nat :| s >= 1 && size == g.Start(g.Base(s)) {
      EdgeAt(g, s);
    }
  }

  /** A file that ends where index page `s` begins. */
  lemma EdgeAt(g: Geometry, s: nat)
    requires g.Ok() && s >= 1
    ensures g.Start(g.Base(s)) > 0 && AtIndexEdge(g, g.Start(g.Base(s)))
  {
    var k := g.Base(s);
    g.BaseMonotone(0, s);
    g.StartMonotone(0, k);
    g.PageOfUnique(g.Start(k), k);
    g.SlotUnique(s, 0, k);
    g.PageOfUnique(g.Start(k) - 1, k - 1);
  }

  /** The index page for a position inside a file exists; at the end of the file it may not. */
  lemma SeekIndex(g: Geometry, v: Vals, id: nat, offs: nat)
    requires g.Ok() && LogicOk(g, v, None, None) && id in v.files && offs <= |v.files[id].bytes|
    ensures Key(id, true, g.IxSpan(g.PageOf(offs))) in v.d.cat <==>
            !(offs > 0 && offs == |v.files[id].bytes| && AtIndexEdge(g, offs))
  {
    var n := |v.files[id].bytes|;
    g.SplitOffset(offs);
    var span := g.PageOf(offs);
    var s := g.IxSpan(span);
    g.SlotBounds(span);
    g.PagesBounds(n, span);
    assert Key(id, true, s) in v.d.cat <==> HasIx(g, n, s, false) by {
      assert Key(id, true, s) in v.d.store <==> Key(id, true, s) in v.d.cat;
    }
    if offs == n && n > 0 {
      LastSpan(g, n, span, n % g.dataSize);
    }
  }

  lemma CursorMoved(g: Geometry, v: Vals, h: nat, k: Key)
    requires g.Ok() && LogicOk(g, v, None, None) && h < |v.fds| && v.fds[h].open && v.fds[h].id == k.id && k.ix && k in v.d.cat
    ensures LogicOk(g, v.(fds := v.fds[h := v.fds[h].(curSpan := k.span, curPix := Some(v.d.cat[k]))]), None, None)
  {
    var fds := v.fds[h := v.fds[h].(curSpan := k.span, curPix := Some(v.d.cat[k]))];
    forall i | 0 <= i < |fds|
      ensures FdOk(fds[i], v.d.cat, v.files, None)
    {
      assert FdOk(v.fds[i], v.d.cat, v.files, None);
    }
  }

  // ----- data that is lost -----

  /** On a file system of three blocks with two entries each, a first file takes the only page that may
      be used: a byte written to it is accepted, and lost when the descriptor is closed. */
  method LostOnClose(g: Geometry, chip: Flash, counts: seq<nat>, b: Byte) returns (s: Stream, id: nat, written: Status, saved: Status)
    requires g.Ok() && Paged(g) && g.blocks == 3 && g.entries == 2
    requires Total(g, chip.lu) && chip.page.Keys == chip.lu.Keys && |counts| == g.blocks
    ensures written.Ok? && saved == Full
    ensures s.fs.Valid() && s.h < |s.fs.fds| && !s.fs.fds[s.h].open && id in s.fs.files && s.fs.files[id].bytes == []
  {
    hide PhysOk, LogicOk, Settled, LogImages, SameFds, DataPages, Passes, Refused, Suffices, NoRoom;
    OnePage(g);
    var fs, h := FirstFile(g, chip, counts);
    id := fs.fds[h].id;
    s := new Stream(fs, h, false, false);
    var whole;
    ghost var flushed, again, w;
    written, whole, flushed, again, w := s.Write([b], true);
    assert NoRoom(g, Counts(fs.freeBlocks, 1, 0), 0, 0, 1);
    saved, whole, w := s.Close();
  }

  /** There, flushing the byte reports the loss; the position stays behind the end of the empty file. */
  method PastTheEnd(g: Geometry, chip: Flash, counts: seq<nat>, b: Byte) returns (s: Stream, written: Status, flushed: Status)
    requires g.Ok() && Paged(g) && g.blocks == 3 && g.entries == 2
    requires Total(g, chip.lu) && chip.page.Keys == chip.lu.Keys && |counts| == g.blocks
    ensures written.Ok? && flushed == Full
    ensures s.Valid() && s.Content() == [] && s.pos == 1 && !s.Now().Plain()
  {
    hide PhysOk, LogicOk, Settled, LogImages, SameFds, DataPages, Passes, Refused, Suffices, NoRoom;
    OnePage(g);
    var fs, h := FirstFile(g, chip, counts);
    s := new Stream(fs, h, false, false);
    var whole;
    ghost var done, again, w;
    written, whole, done, again, w := s.Write([b], true);
    assert NoRoom(g, Counts(fs.freeBlocks, 1, 0), 0, 0, 1);
    flushed, whole, w := s.Flush();
  }

  /** A new file system with one empty file, which is open. */
  method FirstFile(g: Geometry, chip: Flash, counts: seq<nat>) returns (fs: Spiffs, h: nat)
    requires g.Ok() && Paged(g) && Total(g, chip.lu) && chip.page.Keys == chip.lu.Keys && |counts| == g.blocks
    requires Passes(g, Counts(g.blocks, 0, 0), g.dataSize)
    ensures fresh(fs) && fs.g == g && fs.Valid() && Tidy(fs) && fs.pAllocated == 1 && fs.pDeleted == 0
    ensures h < |fs.fds| && fs.fds[h].open && fs.fds[h].id == 1 && fs.files == map[1 := File("log", [])]
  {
    hide PhysOk, LogicOk, Settled, LogImages, SameFds, Passes, Refused;
    fs := NewFileSystem(g, chip, counts, 1);
    var res, pix;
    ghost var fds, quota := fs.fds, 0;
    res, pix, quota := Create(fs, 1, "log");
    SameFdsAt(fds, fs.fds, 0);
    TrueCounts(g, fs.flash, fs.dir, fs.freeCursor, fs.N());
    assert fs.files[1].name == "log";
    res, h := OpenFile(fs, "log");
  }

  lemma OnePage(g: Geometry)
    requires g.Ok() && g.blocks == 3 && g.entries == 2
    ensures Passes(g, Counts(3, 0, 0), g.dataSize)
    ensures forall free :: NoRoom(g, Counts(free, 1, 0), 0, 0, 1)
  {
    QuotientUnique(2 * g.dataSize - 1, g.dataSize, 1);
    QuotientUnique(2 * g.dataSize, g.dataSize, 2);
  }

  /** On a file system of three blocks with five entries each: all of a file of a page and a byte is
      overwritten, and read again from the start. Writing, seeking and reading report success; what is
      read are the old bytes. */
  method LostOnSeek(g: Geometry, chip: Flash, counts: seq<nat>, a: Byte, b: Byte)
    returns (s: Stream, written: Status, sought: Status, read: Status, out: seq<Byte>)
    requires g.Ok() && Paged(g) && g.blocks == 3 && g.entries == 5 && g.hdrLen >= 2
    requires Total(g, chip.lu) && chip.page.Keys == chip.lu.Keys && |counts| == g.blocks
    ensures written.Ok? && sought.Ok? && read.Ok? && out == seq(g.dataSize + 1, _ => a)
  {
    hide PhysOk, LogicOk, Settled, LogImages, SameFds, DataPages, Passes, Refused, Suffices, NoRoom, Mendable, Aligned, OthersSame, OnFlash, Written,
         Scene.AfterPut, Scene.PartPut;
    var fs, h := FilledFile(g, chip, counts, seq(g.dataSize + 1, _ => a));
    s := new Stream(fs, h, false, false);
    var whole, saved;
    ghost var flushed, again, w;
    written, whole, flushed, again, w := s.Write(seq(g.dataSize + 1, _ => b), true);
    NoSecond(g, fs.N());
    sought, saved, whole, w := s.Seek(0, FromStart);
    read, out := ReadAll(s, g.dataSize + 1);
  }

  /** Reads the `n` bytes of a file from its start. */
  method ReadAll(s: Stream, n: nat) returns (res: Status, out: seq<Byte>)
    requires s.Valid() && s.cp == None && s.pos == 0 && n == |s.Content()| > 0
    modifies s`pos, s`cp, s.fs
    ensures res.Ok? && old(s.Valid()) && out == old(s.Content())
  {
    hide PhysOk, LogicOk, Settled, SameFds, Suffices, NoRoom, Mendable, Aligned, OthersSame, OnFlash, Written;
    ghost var all, w := s.Content(), 0;
    assert all[0..|all|] == all;
    var saved, whole;
    res, out, saved, whole, w := s.Read(n);
  }

  /** A file of a page and a byte that leaves no room for a second version of it. */
  method FilledFile(g: Geometry, chip: Flash, counts: seq<nat>, data: seq<Byte>) returns (fs: Spiffs, h: nat)
    requires g.Ok() && Paged(g) && g.blocks == 3 && g.entries == 5 && g.hdrLen >= 2 && |data| == g.dataSize + 1
    requires Total(g, chip.lu) && chip.page.Keys == chip.lu.Keys && |counts| == g.blocks
    ensures fresh(fs) && fs.g == g && fs.Valid() && fs.pAllocated >= 3 && fs.pDeleted >= 0
    ensures h < |fs.fds| && fs.fds[h].open && fs.fds[h].id == 1 && 1 in fs.files && fs.files[1].bytes == data
  {
    hide PhysOk, LogicOk, Settled, LogImages, SameFds, Passes, Suffices, NoRoom;
    TwoPages(g, 0);
    fs, h := FirstFile(g, chip, counts);
    TwoPages(g, fs.freeBlocks);
    FdFacts(g, fs.Now(), None, None, h);
    assert data[..|data|] == data;
    var res, whole;
    ghost var fds, w := fs.fds, 0;
    res, whole, w := HydroWrite(fs, h, 0, data);
    SameFdsAt(fds, fs.fds, h);
    ThreeLive(g, fs.Now(), 1);
  }

  lemma TwoPages(g: Geometry, free: int)
    requires g.Ok() && g.blocks == 3 && g.entries == 5 && g.hdrLen >= 2
    ensures Passes(g, Counts(3, 0, 0), g.dataSize)
    ensures Suffices(g, Counts(free, 1, 0), true, 0, 0, g.dataSize + 1)
  {
    QuotientUnique(2 * g.dataSize - 1, g.dataSize, 1);
    QuotientUnique(3 * g.dataSize, g.dataSize, 3);
    g.PageOfUnique(g.dataSize, 1);
    QuotientUnique(0, g.dataSize, 0);
    StartNeeded(g, 0, g.dataSize + 1);
    assert g.Pages(g.dataSize + 1) == 2 && g.PageOf(0) == 0 && g.IxSpan(1) == 0;
  }

  lemma NoSecond(g: Geometry, n: Counts)
    requires g.Ok() && g.blocks == 3 && g.entries == 5 && n.live >= 3 && n.dead >= 0
    ensures NoRoom(g, n, g.dataSize + 1, 0, g.dataSize + 1)
  {
    QuotientUnique(3 * g.dataSize, g.dataSize, 3);
    MulMonotone(FreeQuota(g, n), 2, g.dataSize);
  }

  lemma ThreeLive(g: Geometry, v: Vals, id: nat)
    requires g.Ok() && PhysOk(g, v.f, v.d, v.c, v.n, None) && LogicOk(g, v, None, None)
    requires id in v.files && |v.files[id].bytes| == g.dataSize + 1
    ensures v.n.live >= 3 && v.n.dead >= 0
  {
    hide CatalogOk, ShapeOk, CursorOk, LogicOk;
    LiveCount(g, v.f, v.d);
    ThreeKeys(g, v, id);
    Fewer({Key(id, true, 0), Key(id, false, 0), Key(id, false, 1)}, v.d.cat.Keys);
    assert |v.d.cat.Keys| == |v.d.cat|;
  }

  lemma ThreeKeys(g: Geometry, v: Vals, id: nat)
    requires g.Ok() && LogicOk(g, v, None, None) && id in v.files && |v.files[id].bytes| == g.dataSize + 1
    ensures {Key(id, true, 0), Key(id, false, 0), Key(id, false, 1)} <= v.d.cat.Keys
  {
    hide IndexOk, FdsOk, BodyOk;
    g.PageOfUnique(g.dataSize, 1);
    assert HasIx(g, g.dataSize + 1, 0, false) && 1 < g.Pages(g.dataSize + 1);
    assert Key(id, true, 0) in v.d.store && Key(id, false, 0) in v.d.store && Key(id, false, 1) in v.d.store;
  }

  lemma Fewer<T>(a: set<T>, b: set<T>)
    requires a <= b
    ensures |a| <= |b|
  {
    assert b == a + (b - a);
  }
}
