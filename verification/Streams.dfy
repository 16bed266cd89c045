/** Whole sequences of operations through one descriptor with its write-back cache page. */
module Streams {
  import opened Options
  import opened Layout
  import opened Catalog
  import opened Files
  import opened Store
  import opened Content
  import opened Objects
  import opened Access
  import opened Steps
  import opened Holes
  import opened WriteBack

  datatype StreamOp =
    | Put(data: seq<Byte>, room: bool)
    | Get(len: nat)
    | Go(offs: int, whence: Whence)
    | Sync

  /** What an operation returns, and whether what was cached could be written back, which reading and
      seeking do not tell. */
  datatype Reply = Reply(res: Status, out: seq<Byte>, saved: Status)

  /** What a write does, also if it fails. */
  ghost predicate Puts(data: seq<Byte>, res: Status, a: Scene, b: Scene, from: nat, direct: bool, limit: nat)
    requires a.Ok() && b.Ok()
  {
    if res.Ok? then
      && b.All() == a.AfterPut(from, data, limit, direct) && b.pos == a.pos + |data|
      && (b.cp.Some? ==>
            if a.Joins(from, |data|, limit) then a.cp.Some? && b.cp.value.offset == a.cp.value.offset && b.bytes == a.bytes
            else b.cp.value.offset == from && b.bytes == a.All())
    else
      b.cp == None && b.pos == a.pos && (a.LeavesBehind(b.bytes) || Partial(data, a, b, from, direct, limit))
  }

  /** A beginning of the write, or of its repetition, is on the flash. */
  ghost predicate Partial(data: seq<Byte>, a: Scene, b: Scene, from: nat, direct: bool, limit: nat)
    requires a.Ok()
  {
    exists again, w: nat :: w <= |data| && b.bytes == a.PartPut(from, data, limit, direct, again, w)
  }

  /** The cache page has been released: all, or a beginning, of it is on the flash. */
  ghost predicate Released(saved: Status, a: Scene, b: Scene)
    requires a.Ok()
  {
    b.cp == None && a.LeavesBehind(b.bytes) && (saved.Ok? ==> b.bytes == a.All())
  }

  /** What an operation on a descriptor does, also if it fails. */
  ghost predicate Step(op: StreamOp, r: Reply, a: Scene, b: Scene, append: bool, direct: bool, limit: nat) {
    && a.Ok() && b.Ok()
    && match op
       case Put(data, room) => Puts(data, r.res, a, b, if append then a.End() else a.pos, direct, limit)
       case Get(len) =>
         Released(r.saved, a, b) && Reads(b.bytes, a.pos, len, r.res, r.out) && b.pos == a.pos + |r.out|
       case Go(offs, whence) =>
         && Released(r.saved, a, b) && SeekLands(a.pos, offs, whence, |b.bytes|, r.res, b.pos)
         && Sought(Target(a.pos, offs, whence, |b.bytes|), |b.bytes|, r.res, b.pos) && (!r.res.Ok? ==> b.pos == a.pos)
       case Sync => Released(r.res, a, b) && b.pos == a.pos
  }

  lemma LeftBehind(a: Scene, w: nat)
    requires a.Ok() && (a.cp.Some? ==> w <= a.cp.value.size)
    ensures a.LeavesBehind(if a.cp.None? then a.bytes else Overlay(a.bytes, Some(a.cp.value.(size := w))))
  {
  }

  /** Nothing was lost, and a write or a flush has succeeded. */
  predicate Fine(op: StreamOp, r: Reply) {
    r.saved.Ok? && (op.Put? || op.Sync? ==> r.res.Ok?)
  }

  /** Where the position and the cached range are inside the file, no hole can arise. */
  lemma PlainIsSafe(s: Stream)
    requires s.Valid() && s.Now().Plain()
    ensures !s.Astray() && (s.cp.None? ==> !Hollow(s.fs.fds[s.h], s.Begin()))
  {
    hide PhysOk, LogicOk;
    FdFacts(s.fs.g, s.fs.Now(), None, None, s.h);
  }

  method DoPut(s: Stream, data: seq<Byte>, room: bool) returns (res: Status, whole: bool)
    requires s.Valid() && data != []
    modifies s`pos, s`cp, s.fs
    ensures s.fs.Phys() && old(s.Valid())
    ensures whole ==> s.Valid() && Puts(data, res, old(s.Now()), s.Now(), old(s.Begin()), s.direct, s.Limit())
    ensures whole ==> s.fs.fds[s.h].id == old(s.fs.fds[s.h].id) && OthersSame(old(s.fs.files), s.fs.files, s.fs.fds[s.h].id)
    ensures old(s.Now().Plain()) && res.Ok? ==> whole
  {
    hide PhysOk, LogicOk, Overlay, Written, OnFlash, OthersSame, Partial, Suffices, Settled, Mendable, Hollow;
    ghost var a, from := s.Now(), s.Begin();
    if a.Plain() {
      PlainIsSafe(s);
    }
    ghost var flushed, again, w;
    res, whole, flushed, again, w := s.Write(data, room);
    if whole && !res.Ok? {
      OverlayNone(s.Bytes());
      if !flushed {
        LeftBehind(a, w);
      } else {
        Partly(data, a, s.Now(), from, s.direct, s.Limit(), again, w);
      }
    }
  }

  lemma Partly(data: seq<Byte>, a: Scene, b: Scene, from: nat, direct: bool, limit: nat, again: bool, w: nat)
    requires a.Ok() && w <= |data| && b.bytes == a.PartPut(from, data, limit, direct, again, w)
    ensures Partial(data, a, b, from, direct, limit)
  {
  }

  /** Performs one operation; `whole` tells if a valid file system is left. */
  method Do(s: Stream, op: StreamOp) returns (r: Reply, whole: bool)
    requires s.Valid() && (op.Put? ==> op.data != [])
    modifies s`pos, s`cp, s.fs
    ensures s.fs.Phys() && old(s.Valid())
    ensures whole ==> s.Valid() && Step(op, r, old(s.Now()), s.Now(), s.append, s.direct, s.Limit())
    ensures whole ==> s.fs.fds[s.h].id == old(s.fs.fds[s.h].id) && OthersSame(old(s.fs.files), s.fs.files, s.fs.fds[s.h].id)
    ensures old(s.Now().Plain()) && Fine(op, r) ==> whole
  {
    hide PhysOk, LogicOk, Overlay, Written, OnFlash, OthersSame, Sought, SeekLands, Target, Reads, Puts, Suffices, Settled, Mendable, Hollow, SameFds;
    ghost var a := s.Now();
    if a.Plain() {
      PlainIsSafe(s);
    }
    match op {
      case Put(data, room) =>
        var res;
        res, whole := DoPut(s, data, room);
        r := Reply(res, [], Ok);
      case Get(len) =>
        var res, out, saved;
        ghost var w;
        res, out, saved, whole, w := s.Read(len);
        r := Reply(res, out, saved);
        LeftBehind(a, w);
      case Go(offs, whence) =>
        var res, saved;
        ghost var w;
        res, saved, whole, w := s.Seek(offs, whence);
        r := Reply(res, [], saved);
        LeftBehind(a, w);
      case Sync =>
        var res;
        ghost var w;
        res, whole, w := s.Flush();
        r := Reply(res, [], res);
        LeftBehind(a, w);
    }
    if whole {
      OverlayNone(s.Bytes());
    }
  }

  /** Performs operations one after the other, as long as they leave a valid file system. Each does what
      `Step` says, and other files stay as they are. */
  method Run(s: Stream, ops: seq<StreamOp>) returns (replies: seq<Reply>, whole: bool, ghost trace: seq<Scene>)
    requires s.Valid() && forall i | 0 <= i < |ops| && ops[i].Put? :: ops[i].data != []
    modifies s`pos, s`cp, s.fs
    ensures s.fs.Phys() && old(s.Valid()) && |replies| <= |ops| && |trace| == |replies| + (if whole then 1 else 0)
    ensures whole ==> s.Valid() && |replies| == |ops| && trace[|ops|] == s.Now()
    ensures whole ==> s.fs.fds[s.h].id == old(s.fs.fds[s.h].id) && OthersSame(old(s.fs.files), s.fs.files, s.fs.fds[s.h].id)
    ensures trace != [] && trace[0] == old(s.Now())
    ensures forall i | 0 <= i < |trace| - 1 :: Step(ops[i], replies[i], trace[i], trace[i + 1], s.append, s.direct, s.Limit())
    ensures forall i | 0 <= i < |trace| :: trace[i].Ok()
    ensures !whole ==> replies != [] && var n := |replies| - 1; !(trace[n].Plain() && Fine(ops[n], replies[n]))
  {
    hide PhysOk, LogicOk, Step, OthersSame, Scene.Plain, Fine;
    replies, whole, trace := [], true, [s.Now()];
    ghost var id, files0 := s.fs.fds[s.h].id, s.fs.files;
    EqualOthers(files0, id);
    while whole && |replies| < |ops|
      invariant s.fs.Phys() && |replies| <= |ops| && |trace| == |replies| + if whole then 1 else 0
      invariant trace != [] && trace[0] == old(s.Now()) && forall i | 0 <= i < |trace| :: trace[i].Ok()
      invariant whole ==> s.Valid() && trace[|replies|] == s.Now() && s.fs.fds[s.h].id == id && OthersSame(files0, s.fs.files, id)
      invariant !whole ==> replies != [] && !(trace[|replies| - 1].Plain() && Fine(ops[|replies| - 1], replies[|replies| - 1]))
      invariant forall i | 0 <= i < |trace| - 1 :: Step(ops[i], replies[i], trace[i], trace[i + 1], s.append, s.direct, s.Limit())
      decreases whole, |ops| - |replies|
    {
      ghost var files := s.fs.files;
      var r;
      r, whole := Do(s, ops[|replies|]);
      replies := replies + [r];
      if whole {
        OthersSameChain(files0, files, s.fs.files, id);
        trace := trace + [s.Now()];
      }
    }
  }

  // ----- as long as nothing is lost -----

  /** An operation on a plain byte array `all` with a position `from` inside it. */
  ghost predicate PlainDoes(op: StreamOp, r: Reply, all: seq<Byte>, from: nat, all': seq<Byte>, to: nat, append: bool)
    requires from <= |all|
  {
    match op
    case Put(data, room) => r.res.Ok? && all' == (if append then all + data else Written(all, from, data)) && to == from + |data|
    case Get(len) => all' == all && Reads(all, from, len, r.res, r.out) && to == from + |r.out|
    case Go(offs, whence) => all' == all && SeekLands(from, offs, whence, |all|, r.res, to)
    case Sync => r.res.Ok? && all' == all && to == from
  }

  /** The position asked for is not before the start, and a signed 32-bit number. */
  predicate Ahead(op: StreamOp, a: Scene)
    requires a.Ok()
  {
    match op
    case Go(offs, whence) =>
      0 <= offs + (match whence case FromStart => 0 case FromHere => a.pos case FromEnd => |a.All()|) < 0x8000_0000
    case _ => true
  }

  lemma PlainStep(op: StreamOp, r: Reply, a: Scene, b: Scene, append: bool, direct: bool, limit: nat)
    requires Step(op, r, a, b, append, direct, limit) && a.Plain() && Fine(op, r) && Ahead(op, a)
    ensures b.Plain() && PlainDoes(op, r, a.All(), a.pos, b.All(), b.pos, append)
  {
    hide Written, Overlay, Sought, Target;
    OverlayNone(b.bytes);
    match op {
      case Put(data, room) =>
        a.PlainEnd(data);
        a.PlainPut(if append then a.End() else a.pos, data, limit, direct);
        PutStaysPlain(data, r.res, a, b, if append then a.End() else a.pos, direct, limit);
      case Get(len) =>
      case Go(offs, whence) =>
        LandsInside(a.pos, offs, whence, |b.bytes|, r.res, b.pos);
      case Sync =>
    }
  }

  lemma LandsInside(from: nat, offs: int, whence: Whence, size: nat, res: Status, to: nat)
    requires SeekLands(from, offs, whence, size, res, to)
    requires 0 <= offs + (match whence case FromStart => 0 case FromHere => from case FromEnd => size) < 0x8000_0000
    ensures res.Ok? ==> to <= size
  {
  }

  lemma PutStaysPlain(data: seq<Byte>, res: Status, a: Scene, b: Scene, from: nat, direct: bool, limit: nat)
    requires a.Ok() && b.Ok() && Puts(data, res, a, b, from, direct, limit) && res.Ok? && a.Plain() && a.pos <= from <= |a.All()|
    requires b.All() == Written(a.All(), from, data)
    ensures b.Plain()
  {
  }

  /** A run that starts inside the file, loses nothing and seeks no position before the start is a run on a
      plain byte array with a position. */
  lemma {:induction false} PlainRun(ops: seq<StreamOp>, replies: seq<Reply>, trace: seq<Scene>, append: bool, direct: bool, limit: nat, n: nat)
    requires |trace| <= |replies| + 1 && |replies| <= |ops| && n < |trace|
    requires forall i | 0 <= i < |trace| :: trace[i].Ok()
    requires forall i | 0 <= i < |trace| - 1 :: Step(ops[i], replies[i], trace[i], trace[i + 1], append, direct, limit)
    requires forall i | 0 <= i < |trace| - 1 :: Fine(ops[i], replies[i]) && Ahead(ops[i], trace[i])
    requires trace[0].Plain()
    ensures trace[n].Plain()
    ensures forall i | 0 <= i < n ::
              && trace[i].Plain()
              && PlainDoes(ops[i], replies[i], trace[i].All(), trace[i].pos, trace[i + 1].All(), trace[i + 1].pos, append)
  {
    hide Step, Fine, Ahead, PlainDoes, Scene.Plain, Overlay;
    if n > 0 {
      PlainRun(ops, replies, trace, append, direct, limit, n - 1);
      PlainStep(ops[n - 1], replies[n - 1], trace[n - 1], trace[n], append, direct, limit);
    }
  }

  lemma NewIsPlain(bytes: seq<Byte>)
    ensures Scene(bytes, None, 0).Plain()
  {
  }

  /** Uses an open descriptor from its start, and closes it. If nothing is lost, the file ends up with the
      bytes of the plain array. */
  method RunAndClose(fs: Spiffs, h: nat, append: bool, direct: bool, ops: seq<StreamOp>)
    returns (replies: seq<Reply>, saved: Status, whole: bool, ghost trace: seq<Scene>)
    requires fs.Valid() && h < |fs.fds| && fs.fds[h].open && forall i | 0 <= i < |ops| && ops[i].Put? :: ops[i].data != []
    modifies fs
    ensures fs.Phys() && old(h < |fs.fds|) && |replies| <= |ops| && trace != [] && |trace| <= |replies| + 1
    ensures trace[0] == Scene(old(BytesOf(fs.files, fs.fds[h].id)), None, 0) && trace[0].Plain()
    ensures forall i | 0 <= i < |trace| - 1 :: Step(ops[i], replies[i], trace[i], trace[i + 1], append, direct, fs.g.dataSize + 5)
    ensures forall i | 0 <= i < |trace| :: trace[i].Ok()
    ensures whole ==> fs.Valid() && h < |fs.fds| && !fs.fds[h].open && |replies| == |ops| && |trace| == |ops| + 1
                      && old(fs.fds[h].id) in fs.files && OthersSame(old(fs.files), fs.files, old(fs.fds[h].id))
    ensures whole ==> var bytes := fs.files[old(fs.fds[h].id)].bytes; trace[|ops|].LeavesBehind(bytes) && (saved.Ok? ==> bytes == trace[|ops|].All())
    ensures var n := |trace| - 1;
            !whole ==> !trace[n].Plain() || (if n < |replies| then !Fine(ops[n], replies[n]) else !saved.Ok?)
  {
    hide PhysOk, LogicOk, Step, OthersSame, Fine, Written, OnFlash, Suffices, Settled, Mendable, Hollow, Overlay, SameFds,
         Scene.LeavesBehind, Scene.Plain;
    ghost var id, files0 := fs.fds[h].id, fs.files;
    NewIsPlain(BytesOf(files0, id));
    var s := new Stream(fs, h, append, direct);
    saved := Ok;
    replies, whole, trace := Run(s, ops);
    if whole {
      ghost var a, files := s.Now(), fs.files;
      if a.Plain() {
        PlainIsSafe(s);
      }
      ghost var w;
      saved, whole, w := s.Close();
      LeftBehind(a, w);
      if whole {
        OthersSameChain(files0, files, fs.files, id);
      }
    }
  }
}
