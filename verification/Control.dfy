/** Structured control flow of forthright.f: its cells, its meaning, and that running the cells has
    that meaning. */
module Control {
  import opened Options
  import opened Threaded

  /** A structured program, as the compiling words build it. */
  datatype Prog =
    | Skip
    | Seq(first: Prog, second: Prog)
    | Word(op: nat)
    | Literal(value: int)
    | If(yes: Prog)
    | IfElse(yes: Prog, no: Prog)
    | BeginUntil(body: Prog)
    | BeginAgain(body: Prog)
    | BeginWhile(test: Prog, body: Prog)
    | Case(arms: Arms)
    | DoLoop(body: Prog)
    | DoPlusLoop(body: Prog)

  /** The arms of a case: test OF body ENDOF, and what comes before ENDCASE. */
  datatype Arms = Default(body: Prog) | Arm(test: Prog, body: Prog, rest: Arms)

  // Offsets count from the cell that holds them, so that code can be anywhere.

  function IfCode(a: seq<Cell>): seq<Cell> {
    [Xt(ZBranch), Num(4 * (1 + |a|))] + a
  }

  function ElseCode(a: seq<Cell>, b: seq<Cell>): seq<Cell> {
    [Xt(ZBranch), Num(4 * (3 + |a|))] + a + [Xt(Branch), Num(4 * (1 + |b|))] + b
  }

  /** Code that goes back to its begin by jump `t`. */
  function BackCode(b: seq<Cell>, t: Token): seq<Cell> {
    b + [Xt(t), Num(-4 * (|b| + 1))]
  }

  function WhileCode(t: seq<Cell>, b: seq<Cell>): seq<Cell> {
    t + [Xt(ZBranch), Num(4 * (3 + |b|))] + b + [Xt(Branch), Num(-4 * (|t| + |b| + 3))]
  }

  function ArmCode(t: seq<Cell>, b: seq<Cell>, rest: seq<Cell>): seq<Cell> {
    t + [Xt(Over), Xt(Equ), Xt(ZBranch), Num(4 * (4 + |b|)), Xt(Drop)] + b + [Xt(Branch), Num(4 * (1 + |rest|))] + rest
  }

  function LoopToken(plus: bool): Token {
    if plus then PPlusLoop else PLoop
  }

  /** The cells of a program. */
  function Code(p: Prog): seq<Cell> {
    match p
    case Skip => []
    case Seq(a, b) => Code(a) + Code(b)
    case Word(op) => [Xt(Prim(op))]
    case Literal(n) => [Xt(Lit), Num(n)]
    case If(a) => IfCode(Code(a))
    case IfElse(a, b) => ElseCode(Code(a), Code(b))
    case BeginUntil(b) => BackCode(Code(b), ZBranch)
    case BeginAgain(b) => BackCode(Code(b), Branch)
    case BeginWhile(t, b) => WhileCode(Code(t), Code(b))
    case Case(arms) => ArmsCode(arms)
    case DoLoop(b) => [Xt(PDo)] + BackCode(Code(b), LoopToken(false))
    case DoPlusLoop(b) => [Xt(PDo)] + BackCode(Code(b), LoopToken(true))
  }

  function ArmsCode(a: Arms): seq<Cell> {
    match a
    case Default(d) => Code(d) + [Xt(Drop)]
    case Arm(t, b, rest) => ArmCode(Code(t), Code(b), ArmsCode(rest))
  }

  lemma CodeOf(p: Prog)
    ensures p.Seq? ==> Code(p) == Code(p.first) + Code(p.second)
    ensures p.If? ==> Code(p) == IfCode(Code(p.yes))
    ensures p.IfElse? ==> Code(p) == ElseCode(Code(p.yes), Code(p.no))
    ensures p.BeginUntil? ==> Code(p) == BackCode(Code(p.body), ZBranch)
    ensures p.BeginAgain? ==> Code(p) == BackCode(Code(p.body), Branch)
    ensures p.BeginWhile? ==> Code(p) == WhileCode(Code(p.test), Code(p.body))
    ensures p.Case? ==> Code(p) == ArmsCode(p.arms)
    ensures p.DoLoop? ==> Code(p) == [Xt(PDo)] + BackCode(Code(p.body), LoopToken(false))
    ensures p.DoPlusLoop? ==> Code(p) == [Xt(PDo)] + BackCode(Code(p.body), LoopToken(true))
    ensures p.Skip? ==> Code(p) == []
    ensures p.Word? ==> Code(p) == [Xt(Prim(p.op))]
    ensures p.Literal? ==> Code(p) == [Xt(Lit), Num(p.value)]
  {
    match p
    case DoLoop(b) =>
    case DoPlusLoop(b) =>
    case _ =>
  }

  lemma ArmsOf(a: Arms)
    ensures a.Default? ==> ArmsCode(a) == Code(a.body) + [Xt(Drop)]
    ensures a.Arm? ==> ArmsCode(a) == ArmCode(Code(a.test), Code(a.body), ArmsCode(a.rest))
  {
  }

  type Prims = (nat, State) -> Option<State>

  /** The structured meaning. `fuel` bounds the turns of every loop; `None` means that a word failed
      or that the fuel did not suffice. */
  function Meaning(f: Prims, p: Prog, s: State, fuel: nat): Option<State>
    decreases fuel, p, 0
  {
    match p
    case Skip => Some(s)
    case Seq(a, b) => var s1 := Meaning(f, a, s, fuel); if s1.None? then None else Meaning(f, b, s1.value, fuel)
    case Word(op) => f(op, s)
    case Literal(n) => Some(Push(s, n))
    case If(a) =>
      if s.ds == [] then None else if s.ds[0] != 0 then Meaning(f, a, Pop(s), fuel) else Some(Pop(s))
    case IfElse(a, b) =>
      if s.ds == [] then None else if s.ds[0] != 0 then Meaning(f, a, Pop(s), fuel) else Meaning(f, b, Pop(s), fuel)
    case BeginUntil(b) =>
      var s1 := Meaning(f, b, s, fuel);
      if s1.None? || s1.value.ds == [] then None
      else if s1.value.ds[0] != 0 then Some(Pop(s1.value))
      else if fuel == 0 then None else Meaning(f, p, Pop(s1.value), fuel - 1)
    case BeginAgain(b) => None
    case BeginWhile(t, b) =>
      var s1 := Meaning(f, t, s, fuel);
      if s1.None? || s1.value.ds == [] then None
      else if s1.value.ds[0] == 0 then Some(Pop(s1.value))
      else
        var s2 := Meaning(f, b, Pop(s1.value), fuel);
        if s2.None? || fuel == 0 then None else Meaning(f, p, s2.value, fuel - 1)
    case Case(arms) => ArmsMeaning(f, arms, s, fuel)
    case DoLoop(b) => var s1 := EnterLoop(s); if s1.None? then None else Turns(f, b, false, s1.value, fuel)
    case DoPlusLoop(b) => var s1 := EnterLoop(s); if s1.None? then None else Turns(f, b, true, s1.value, fuel)
  }

  /** Turns of a counted loop, with index and limit on the return stack. */
  function Turns(f: Prims, b: Prog, plus: bool, s: State, fuel: nat): Option<State>
    decreases fuel, b, 1
  {
    var s1 := Meaning(f, b, s, fuel);
    if s1.None? then None
    else
      match if plus then PlusTurn(s1.value) else NextTurn(s1.value)
      case Stuck => None
      case Exit(s2) => Some(s2)
      case Again(s2) => if fuel == 0 then None else Turns(f, b, plus, s2, fuel - 1)
  }

  /** The first arm whose test gives the selector; then the selector is dropped. */
  function ArmsMeaning(f: Prims, a: Arms, s: State, fuel: nat): Option<State>
    decreases fuel, a, 0
  {
    match a
    case Default(d) =>
      var s1 := Meaning(f, d, s, fuel);
      if s1.None? || s1.value.ds == [] then None else Some(Pop(s1.value))
    case Arm(t, b, rest) =>
      var s1 := Meaning(f, t, s, fuel);
      if s1.None? || |s1.value.ds| < 2 then None
      else if s1.value.ds[0] == s1.value.ds[1] then Meaning(f, b, s1.value.(ds := s1.value.ds[2..]), fuel)
      else ArmsMeaning(f, rest, Pop(s1.value), fuel)
  }
}
