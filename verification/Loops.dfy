/** What counted loops mean: how often the body is run, and with which index. */
module Loops {
  import opened Options
  import opened Threaded
  import opened Control
  import opened Decompiled

  /** The turns of do .. loop: up to the limit, and around the 32-bit numbers if the index is not below it. */
  function TurnsTo(index: int, limit: int): int {
    if index < limit then limit - index else limit - index + 0x1_0000_0000
  }

  /** `x`, which is less than once around the 32-bit numbers away from them, brought back among them. */
  function Circle(x: int): int {
    if x < MIN32 then x + 0x1_0000_0000 else if x > MAX32 then x - 0x1_0000_0000 else x
  }

  /** Run `k` of the body takes data stack `dss[k]` to `dss[k + 1]`, and leaves the return stack, which has the
      index of the turn on top and the limit below it. */
  ghost predicate BodyRuns(f: Prims, b: Prog, index: int, limit: int, rs: seq<int>, dss: seq<seq<int>>, fuel: nat) {
    forall k | 0 <= k < |dss| - 1 ::
      Meaning(f, b, State(dss[k], [Circle(index + k), limit] + rs), fuel) == Some(State(dss[k + 1], [Circle(index + k), limit] + rs))
  }

  /** One (loop): the limit is kept and the index is one more, or both are gone. */
  lemma OneTurn(ds: seq<int>, index: int, limit: int, rs: seq<int>)
    requires MIN32 <= index <= MAX32
    ensures NextTurn(State(ds, [index, limit] + rs)) ==
            if Circle(index + 1) == limit then Exit(State(ds, rs)) else Again(State(ds, [Circle(index + 1), limit] + rs))
  {
    hide Wrap;
    var s := State(ds, [index, limit] + rs);
    assert s.rs[2..] == rs && [Circle(index + 1)] + s.rs[1..] == [Circle(index + 1), limit] + rs;
    WrapIdentity(index + 1);
  }

  lemma {:induction false} LoopTurns(f: Prims, b: Prog, index: int, limit: int, rs: seq<int>, dss: seq<seq<int>>, fuel: nat, k: nat)
    requires MIN32 <= index <= MAX32 && MIN32 <= limit <= MAX32
    requires |dss| == TurnsTo(index, limit) + 1 && k < |dss| - 1 && BodyRuns(f, b, index, limit, rs, dss, fuel)
    ensures Turns(f, b, false, State(dss[k], [Circle(index + k), limit] + rs), fuel + |dss| - k) == Some(State(dss[|dss| - 1], rs))
    decreases |dss| - k
  {
    hide NextTurn;
    var s := State(dss[k], [Circle(index + k), limit] + rs);
    assert Meaning(f, b, s, fuel) == Some(State(dss[k + 1], [Circle(index + k), limit] + rs));
    MoreFuel(f, b, s, fuel, fuel + |dss| - k);
    OneTurn(dss[k + 1], Circle(index + k), limit, rs);
    assert Circle(Circle(index + k) + 1) == Circle(index + k + 1);
    if k + 2 < |dss| {
      LoopTurns(f, b, index, limit, rs, dss, fuel, k + 1);
    }
  }

  /** `limit index do b loop`, for an index below the limit, runs `b` limit - index times, with the top of the
      return stack index, index + 1, .., limit - 1, and takes all four cells off the stacks. For other indexes it
      goes around the 32-bit numbers to the limit. */
  lemma CountedLoop(f: Prims, b: Prog, index: int, limit: int, rs: seq<int>, dss: seq<seq<int>>, fuel: nat)
    requires MIN32 <= index <= MAX32 && MIN32 <= limit <= MAX32
    requires |dss| == TurnsTo(index, limit) + 1 && BodyRuns(f, b, index, limit, rs, dss, fuel)
    ensures Means(f, DoLoop(b), State([index, limit] + dss[0], rs), State(dss[|dss| - 1], rs))
  {
    hide BodyRuns;
    var s := State([index, limit] + dss[0], rs);
    LoopTurns(f, b, index, limit, rs, dss, fuel, 0);
    assert s.ds[2..] == dss[0] && s.ds[..2] + rs == [index, limit] + rs;
    assert Meaning(f, DoLoop(b), s, fuel + |dss|) == Some(State(dss[|dss| - 1], rs));
  }

  /** The step from `index` by `n` ends a +loop: it crosses the boundary at the limit, or distance and step
      overflow; not if both. */
  predicate Ends(index: int, limit: int, n: int) {
    var d := Circle(index - limit);
    Crosses(d, n) <==> MIN32 <= d + n <= MAX32
  }

  /** Turn `k` of a +loop: the body takes data stack `dss[k]` to `dss[k + 1]` with step `steps[k]` on top, and leaves
      the return stack. Only the last step ends the loop; the others make the next index. */
  ghost predicate BodySteps(f: Prims, b: Prog, idx: seq<int>, steps: seq<int>, limit: int, rs: seq<int>, dss: seq<seq<int>>, fuel: nat)
    requires |idx| == |steps| && |dss| == |steps| + 1
  {
    forall k | 0 <= k < |steps| ::
      && MIN32 <= idx[k] <= MAX32 && MIN32 <= steps[k] <= MAX32
      && Meaning(f, b, State(dss[k], [idx[k], limit] + rs), fuel) == Some(State([steps[k]] + dss[k + 1], [idx[k], limit] + rs))
      && (Ends(idx[k], limit, steps[k]) <==> k == |steps| - 1)
      && (k + 1 < |steps| ==> idx[k + 1] == Circle(idx[k] + steps[k]))
  }

  /** One (+loop): the step is consumed, and then the limit is kept and the index is the 32-bit index + n, or both
      are gone. */
  lemma OnePlusTurn(ds: seq<int>, index: int, limit: int, n: int, rs: seq<int>)
    requires MIN32 <= index <= MAX32 && MIN32 <= limit <= MAX32 && MIN32 <= n <= MAX32
    ensures PlusTurn(State([n] + ds, [index, limit] + rs)) ==
            if Ends(index, limit, n) then Exit(State(ds, rs)) else Again(State(ds, [Circle(index + n), limit] + rs))
  {
    hide Wrap;
    var s, d := State([n] + ds, [index, limit] + rs), Circle(index - limit);
    assert s.ds[1..] == ds && s.rs[2..] == rs && [Circle(index + n)] + s.rs[1..] == [Circle(index + n), limit] + rs;
    WrapIdentity(index - limit);
    WrapIdentity(n + d);
    WrapIdentity(Circle(n + d) + limit);
    PlusLoopBoundary(s);
  }

  lemma {:induction false} PlusTurns(f: Prims, b: Prog, idx: seq<int>, steps: seq<int>, limit: int, rs: seq<int>, dss: seq<seq<int>>, fuel: nat, k: nat)
    requires MIN32 <= limit <= MAX32 && |idx| == |steps| && |dss| == |steps| + 1 && k < |steps|
    requires BodySteps(f, b, idx, steps, limit, rs, dss, fuel)
    ensures Turns(f, b, true, State(dss[k], [idx[k], limit] + rs), fuel + |steps| - k) == Some(State(dss[|steps|], rs))
    decreases |steps| - k
  {
    hide Wrap, PlusTurn, Ends, Circle;
    var s := State(dss[k], [idx[k], limit] + rs);
    assert Meaning(f, b, s, fuel) == Some(State([steps[k]] + dss[k + 1], [idx[k], limit] + rs));
    MoreFuel(f, b, s, fuel, fuel + |steps| - k);
    OnePlusTurn(dss[k + 1], idx[k], limit, steps[k], rs);
    if k + 1 < |steps| {
      PlusTurns(f, b, idx, steps, limit, rs, dss, fuel, k + 1);
    }
  }

  /** `limit index do b n +loop` runs the body with the indexes that the steps make, up to the step that ends the
      loop, and takes index, limit and every step off the stacks. */
  lemma CountedPlusLoop(f: Prims, b: Prog, idx: seq<int>, steps: seq<int>, limit: int, rs: seq<int>, dss: seq<seq<int>>, fuel: nat)
    requires MIN32 <= limit <= MAX32 && |idx| == |steps| > 0 && |dss| == |steps| + 1
    requires BodySteps(f, b, idx, steps, limit, rs, dss, fuel)
    ensures Means(f, DoPlusLoop(b), State([idx[0], limit] + dss[0], rs), State(dss[|steps|], rs))
  {
    hide BodySteps;
    var s := State([idx[0], limit] + dss[0], rs);
    PlusTurns(f, b, idx, steps, limit, rs, dss, fuel, 0);
    assert s.ds[2..] == dss[0] && s.ds[..2] + rs == [idx[0], limit] + rs;
    assert Meaning(f, DoPlusLoop(b), s, fuel + |steps|) == Some(State(dss[|steps|], rs));
  }
}
