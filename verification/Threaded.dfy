/** Threaded code and the machine that runs it: the primitives of esp8266.S that structured control
    flow compiles to. Cells are four bytes; the instruction pointer is a byte address. */
module Threaded {
  import opened Options

  const MIN32: int := -0x8000_0000
  const MAX32: int := 0x7fff_ffff

  /** 32-bit two's complement. */
  function Wrap(x: int): (r: int)
    ensures MIN32 <= r <= MAX32
  {
    (x + 0x8000_0000) % 0x1_0000_0000 - 0x8000_0000
  }

  /** Execution tokens. `Prim` stands for every word that only works on the two stacks. */
  datatype Token = Branch | ZBranch | Lit | Drop | Over | Equ | PDo | PLoop | PPlusLoop | Prim(op: nat)

  datatype Cell = Xt(token: Token) | Num(value: int)

  /** Data stack and return stack, tops first. */
  datatype State = State(ds: seq<int>, rs: seq<int>)

  /** The machine between two words: a14, and the stacks that a15 and a13 point to. */
  datatype Machine = Machine(ip: int, s: State)

  /** Dictionary memory from address `org` on, and what the other primitives do; they may fail. */
  datatype Env = Env(mem: seq<Cell>, org: int, prim: (nat, State) -> Option<State>)

  function At(e: Env, ip: int): Option<Cell> {
    if ip >= e.org && (ip - e.org) % 4 == 0 && (ip - e.org) / 4 < |e.mem| then Some(e.mem[(ip - e.org) / 4]) else None
  }

  /** The instruction pointer after a branch whose offset cell is at `ip`. */
  function Jump(e: Env, ip: int): Option<int> {
    match At(e, ip)
    case Some(Num(o)) => Some(ip + o)
    case _ => None
  }

  function Push(s: State, x: int): State {
    s.(ds := [x] + s.ds)
  }

  function Pop(s: State): State
    requires s.ds != []
  {
    s.(ds := s.ds[1..])
  }

  // ----- loops -----

  /** (do): index and limit go to the return stack. */
  function EnterLoop(s: State): Option<State> {
    if |s.ds| < 2 then None else Some(State(s.ds[2..], s.ds[..2] + s.rs))
  }

  /** (loop) and (+loop) with step `n`: the next index, or the end of the loop. */
  datatype Turn = Stuck | Again(s: State) | Exit(s: State)

  function NextTurn(s: State): Turn {
    if |s.rs| < 2 then Stuck
    else
      var i := Wrap(s.rs[0] + 1);
      if i == s.rs[1] then Exit(s.(rs := s.rs[2..])) else Again(s.(rs := [i] + s.rs[1..]))
  }

  function PlusTurn(s: State): Turn {
    if |s.rs| < 2 || s.ds == [] then Stuck
    else
      var d := Wrap(s.rs[0] - s.rs[1]);
      var m := Wrap(s.ds[0] + d);
      // different signs: the exclusive or of both is negative
      if (m < 0) != (d < 0) then Exit(State(s.ds[1..], s.rs[2..]))
      else Again(State(s.ds[1..], [Wrap(m + s.rs[1])] + s.rs[1..]))
  }

  /** Signs of 32-bit words differ exactly if their exclusive or is negative. */
  lemma SignsDiffer(a: bv32, b: bv32)
    ensures (a ^ b) & 0x8000_0000 != 0 <==> (a & 0x8000_0000 != 0) != (b & 0x8000_0000 != 0)
  {
  }

  /** With indexes on a circle of 2^32 numbers, does going from `index` by `n` steps cross the boundary
      between `limit - 1` and `limit`? `d` is how far the index is from the limit. */
  predicate Crosses(d: int, n: int) {
    (d < 0 && d + n >= 0) || (d >= 0 && d + n < 0)
  }

  lemma WrapIdentity(x: int)
    ensures MIN32 <= x <= MAX32 ==> Wrap(x) == x
    ensures MAX32 < x <= MAX32 + 0x1_0000_0000 ==> Wrap(x) == x - 0x1_0000_0000
    ensures MIN32 - 0x1_0000_0000 <= x < MIN32 ==> Wrap(x) == x + 0x1_0000_0000
  {
  }

  /** (+loop) ends the loop when the step crosses the boundary between limit - 1 and limit, and not
      otherwise, exactly if distance and step add up without overflow or they cross anyway. */
  lemma PlusLoopBoundary(s: State)
    requires |s.rs| >= 2 && s.ds != [] && MIN32 <= s.ds[0] <= MAX32
    ensures var d, n := Wrap(s.rs[0] - s.rs[1]), s.ds[0];
            (PlusTurn(s).Exit? <==> Crosses(d, n)) <==> MIN32 <= d + n <= MAX32
  {
    var d, n := Wrap(s.rs[0] - s.rs[1]), s.ds[0];
    WrapIdentity(n + d);
  }

  /** An input on which (+loop) ends the loop although no boundary at the limit is crossed: the index
      is as far above the limit as can be, and goes up by one. */
  lemma PlusLoopOverflow()
    ensures var s := State([1], [MAX32, 0]);
            PlusTurn(s).Exit? && !Crosses(Wrap(s.rs[0] - s.rs[1]), s.ds[0])
  {
  }

  /** (loop) is (+loop) with step 1, for 32-bit index and limit: it ends exactly when the index crosses
      the boundary, except from the index farthest above the limit. */
  lemma LoopBoundary(s: State)
    requires |s.rs| >= 2 && MIN32 <= s.rs[0] <= MAX32 && MIN32 <= s.rs[1] <= MAX32
    ensures NextTurn(s).Exit? <==> Crosses(Wrap(s.rs[0] - s.rs[1]), 1)
    ensures Wrap(s.rs[0] - s.rs[1]) < MAX32 ==> NextTurn(s) == PlusTurn(Push(s, 1))
  {
    var i, l := s.rs[0], s.rs[1];
    var d := Wrap(i - l);
    WrapIdentity(i - l);
    WrapIdentity(i + 1);
    WrapIdentity(d + 1);
    WrapIdentity(d + 1 + l);
    assert Push(s, 1).ds[1..] == s.ds;
  }

  // ----- the machine -----

  /** One word: NEXT fetches the token and steps over it, the word does the rest. */
  function Step(e: Env, m: Machine): Option<Machine> {
    var next := m.ip + 4;
    match At(e, m.ip)
    case Some(Xt(Branch)) =>
      var t := Jump(e, next); if t.None? then None else Some(Machine(t.value, m.s))
    case Some(Xt(ZBranch)) =>
      if m.s.ds == [] then None
      else if m.s.ds[0] != 0 then Some(Machine(next + 4, m.s.(ds := m.s.ds[1..])))
      else var t := Jump(e, next); if t.None? then None else Some(Machine(t.value, m.s.(ds := m.s.ds[1..])))
    case Some(Xt(Lit)) =>
      (match At(e, next) case Some(Num(n)) => Some(Machine(next + 4, m.s.(ds := [n] + m.s.ds))) case _ => None)
    case Some(Xt(Drop)) => if m.s.ds == [] then None else Some(Machine(next, m.s.(ds := m.s.ds[1..])))
    case Some(Xt(Over)) => if |m.s.ds| < 2 then None else Some(Machine(next, m.s.(ds := [m.s.ds[1]] + m.s.ds)))
    case Some(Xt(Equ)) =>
      if |m.s.ds| < 2 then None
      else Some(Machine(next, m.s.(ds := [if m.s.ds[0] == m.s.ds[1] then -1 else 0] + m.s.ds[2..])))
    case Some(Xt(PDo)) => var s := EnterLoop(m.s); if s.None? then None else Some(Machine(next, s.value))
    case Some(Xt(PLoop)) => Turned(e, next, NextTurn(m.s))
    case Some(Xt(PPlusLoop)) => Turned(e, next, PlusTurn(m.s))
    case Some(Xt(Prim(op))) => var s := e.prim(op, m.s); if s.None? then None else Some(Machine(next, s.value))
    case _ => None
  }

  function Turned(e: Env, ip: int, t: Turn): Option<Machine> {
    match t
    case Stuck => None
    case Exit(s) => Some(Machine(ip + 4, s))
    case Again(s) => var j := Jump(e, ip); if j.None? then None else Some(Machine(j.value, s))
  }

  /** `n` words. */
  function Steps(e: Env, m: Machine, n: nat): Option<Machine>
    decreases n
  {
    if n == 0 then Some(m)
    else
      var m1 := Step(e, m);
      if m1.None? then None else Steps(e, m1.value, n - 1)
  }

  lemma {:induction false} StepsAdd(e: Env, m: Machine, a: nat, b: nat)
    ensures Steps(e, m, a + b) == (var m1 := Steps(e, m, a); if m1.None? then None else Steps(e, m1.value, b))
    decreases a
  {
    if a > 0 {
      var m1 := Step(e, m);
      if m1.Some? {
        StepsAdd(e, m1.value, a - 1, b);
      }
    }
  }
}
