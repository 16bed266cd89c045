/** The other direction: a run that leaves the code has the structured meaning. */
module Decompiled {
  import opened Options
  import opened Threaded
  import opened Control
  import opened Compiled

  /** More fuel changes nothing for a program that has a meaning. */
  lemma {:induction false} MoreFuel(f: Prims, p: Prog, s: State, a: nat, b: nat)
    requires a <= b && Meaning(f, p, s, a).Some?
    ensures Meaning(f, p, s, b) == Meaning(f, p, s, a)
    decreases a, p, 0
  {
    match p
    case Skip =>
    case Seq(x, y) =>
      MoreFuel(f, x, s, a, b);
      MoreFuel(f, y, Meaning(f, x, s, a).value, a, b);
    case Word(op) =>
    case Literal(n) =>
    case If(x) =>
      if s.ds[0] != 0 { MoreFuel(f, x, Pop(s), a, b); }
    case IfElse(x, y) =>
      if s.ds[0] != 0 { MoreFuel(f, x, Pop(s), a, b); } else { MoreFuel(f, y, Pop(s), a, b); }
    case BeginUntil(x) =>
      MoreFuel(f, x, s, a, b);
      var s1 := Meaning(f, x, s, a).value;
      if s1.ds[0] == 0 { MoreFuel(f, p, Pop(s1), a - 1, b - 1); }
    case BeginAgain(x) =>
    case BeginWhile(t, x) =>
      MoreFuel(f, t, s, a, b);
      var s1 := Meaning(f, t, s, a).value;
      if s1.ds[0] != 0 {
        MoreFuel(f, x, Pop(s1), a, b);
        MoreFuel(f, p, Meaning(f, x, Pop(s1), a).value, a - 1, b - 1);
      }
    case Case(arms) => MoreFuelArms(f, arms, s, a, b);
    case DoLoop(x) => MoreFuelTurns(f, x, false, EnterLoop(s).value, a, b);
    case DoPlusLoop(x) => MoreFuelTurns(f, x, true, EnterLoop(s).value, a, b);
  }

  lemma {:induction false} MoreFuelTurns(f: Prims, p: Prog, plus: bool, s: State, a: nat, b: nat)
    requires a <= b && Turns(f, p, plus, s, a).Some?
    ensures Turns(f, p, plus, s, b) == Turns(f, p, plus, s, a)
    decreases a, p, 1
  {
    MoreFuel(f, p, s, a, b);
    var s1 := Meaning(f, p, s, a).value;
    match if plus then PlusTurn(s1) else NextTurn(s1)
    case Exit(s2) =>
    case Again(s2) => MoreFuelTurns(f, p, plus, s2, a - 1, b - 1);
  }

  lemma {:induction false} MoreFuelArms(f: Prims, arms: Arms, s: State, a: nat, b: nat)
    requires a <= b && ArmsMeaning(f, arms, s, a).Some?
    ensures ArmsMeaning(f, arms, s, b) == ArmsMeaning(f, arms, s, a)
    decreases a, arms, 0
  {
    match arms
    case Default(d) => MoreFuel(f, d, s, a, b);
    case Arm(t, x, rest) =>
      MoreFuel(f, t, s, a, b);
      var s1 := Meaning(f, t, s, a).value;
      if s1.ds[0] == s1.ds[1] {
        MoreFuel(f, x, s1.(ds := s1.ds[2..]), a, b);
      } else {
        MoreFuelArms(f, rest, Pop(s1), a, b);
      }
  }

  function Max(a: nat, b: nat): nat {
    if a < b then b else a
  }

  /** Address `ip` is not in the `len` cells from cell `i` on. */
  predicate Outside(e: Env, ip: int, i: nat, len: nat) {
    ip < Addr(e, i) || ip >= Addr(e, i + len)
  }

  /** A run that ends outside the code has not stopped at a cell inside. */
  lemma NotYet(e: Env, j: nat, s: State, n: nat, m': Machine, i: nat, len: nat)
    requires Goes(e, Machine(Addr(e, j), s), n, m') && Outside(e, m'.ip, i, len) && i <= j < i + len
    ensures n > 0
  {
  }

  lemma {:induction false} Backward(e: Env, i: nat, p: Prog, s: State, n: nat, m': Machine) returns (k: nat, fuel: nat)
    requires Placed(e, i, Code(p)) && Goes(e, Machine(Addr(e, i), s), n, m') && Outside(e, m'.ip, i, |Code(p)|)
    ensures k <= n && Meaning(e.prim, p, s, fuel).Some?
    ensures Goes(e, Machine(Addr(e, i), s), k, Machine(Addr(e, i + |Code(p)|), Meaning(e.prim, p, s, fuel).value))
    decreases n, p, 3
  {
    hide Placed, Goes, Code, ArmsCode, ElseCode, WhileCode, ArmCode, BackCode, Meaning;
    CodeOf(p);
    k, fuel := 0, 0;
    var m := Machine(Addr(e, i), s);
    match p
    case Skip =>
      Zero(e, m);
      MeaningOfWord(e.prim, p, s);
    case Seq(a, b) =>
      k, fuel := BackwardSeq(e, i, a, b, s, n, m');
    case Word(op) =>
      NotYet(e, i, s, n, m', i, 1);
      CellAt(e, i, Code(p), 0);
      One(e, m);
      MeaningOfWord(e.prim, p, s);
      k := 1;
    case Literal(x) =>
      NotYet(e, i, s, n, m', i, 2);
      JumpCells(e, i, Lit, x);
      One(e, m);
      MeaningOfWord(e.prim, p, s);
      k := 1;
    case If(a) =>
      k, fuel := BackwardIf(e, i, a, s, n, m');
    case IfElse(a, b) =>
      k, fuel := BackwardElse(e, i, a, b, s, n, m');
    case BeginUntil(b) =>
      k, fuel := BackwardUntil(e, i, b, s, n, m');
    case BeginAgain(b) =>
      BackwardAgain(e, i, b, s, n, m');
    case BeginWhile(t, b) =>
      k, fuel := BackwardWhile(e, i, t, b, s, n, m');
    case Case(arms) =>
      k, fuel := BackwardArms(e, i, arms, s, n, m');
      MeaningOfCase(e.prim, arms, s, fuel);
    case DoLoop(b) =>
      k, fuel := BackwardDo(e, i, b, false, s, n, m');
    case DoPlusLoop(b) =>
      k, fuel := BackwardDo(e, i, b, true, s, n, m');
  }

  lemma MeaningOfWord(f: Prims, p: Prog, s: State)
    ensures p.Skip? ==> Meaning(f, p, s, 0) == Some(s)
    ensures p.Word? ==> Meaning(f, p, s, 0) == f(p.op, s)
    ensures p.Literal? ==> Meaning(f, p, s, 0) == Some(Push(s, p.value))
  {
  }

  lemma MeaningOfCase(f: Prims, arms: Arms, s: State, fuel: nat)
    ensures Meaning(f, Case(arms), s, fuel) == ArmsMeaning(f, arms, s, fuel)
  {
  }

  lemma {:induction false} BackwardSeq(e: Env, i: nat, a: Prog, b: Prog, s: State, n: nat, m': Machine) returns (k: nat, fuel: nat)
    requires Placed(e, i, Code(Seq(a, b))) && Goes(e, Machine(Addr(e, i), s), n, m') && Outside(e, m'.ip, i, |Code(Seq(a, b))|)
    ensures k <= n && Meaning(e.prim, Seq(a, b), s, fuel).Some?
    ensures Goes(e, Machine(Addr(e, i), s), k, Machine(Addr(e, i + |Code(Seq(a, b))|), Meaning(e.prim, Seq(a, b), s, fuel).value))
    decreases n, Seq(a, b), 2
  {
    hide Placed, Goes, Code;
    CodeOf(Seq(a, b));
    var m, l := Machine(Addr(e, i), s), |Code(a)|;
    Parts(e, i, Code(a), Code(b));
    var k1, f1 := Backward(e, i, a, s, n, m');
    var s1 := Meaning(e.prim, a, s, f1).value;
    Rest(e, m, k1, Machine(Addr(e, i + l), s1), n, m');
    var k2, f2 := Backward(e, i + l, b, s1, n - k1, m');
    k, fuel := k1 + k2, Max(f1, f2);
    MoreFuel(e.prim, a, s, f1, fuel);
    MoreFuel(e.prim, b, s1, f2, fuel);
    Then(e, m, k1, Machine(Addr(e, i + l), s1), k2, Machine(Addr(e, i + |Code(Seq(a, b))|), Meaning(e.prim, b, s1, f2).value));
  }

  lemma {:induction false} BackwardIf(e: Env, i: nat, a: Prog, s: State, n: nat, m': Machine) returns (k: nat, fuel: nat)
    requires Placed(e, i, Code(If(a))) && Goes(e, Machine(Addr(e, i), s), n, m') && Outside(e, m'.ip, i, |Code(If(a))|)
    ensures k <= n && Meaning(e.prim, If(a), s, fuel).Some?
    ensures Goes(e, Machine(Addr(e, i), s), k, Machine(Addr(e, i + |Code(If(a))|), Meaning(e.prim, If(a), s, fuel).value))
    decreases n, If(a), 2
  {
    hide Placed, Goes, Code;
    CodeOf(If(a));
    var m := Machine(Addr(e, i), s);
    Parts(e, i, [Xt(ZBranch), Num(4 * (1 + |Code(a)|))], Code(a));
    JumpCells(e, i, ZBranch, 4 * (1 + |Code(a)|));
    NotYet(e, i, s, n, m', i, |Code(If(a))|);
    One(e, m);
    k, fuel := 1, 0;
    if s.ds[0] != 0 {
      var k1, f1 := Backward(e, i + 2, a, Pop(s), n - 1, m');
      k, fuel := 1 + k1, f1;
      Then(e, m, 1, Machine(Addr(e, i + 2), Pop(s)), k1, Machine(Addr(e, i + |Code(If(a))|), Meaning(e.prim, If(a), s, fuel).value));
    }
  }

  lemma {:induction false} BackwardElse(e: Env, i: nat, a: Prog, b: Prog, s: State, n: nat, m': Machine) returns (k: nat, fuel: nat)
    requires Placed(e, i, Code(IfElse(a, b))) && Goes(e, Machine(Addr(e, i), s), n, m') && Outside(e, m'.ip, i, |Code(IfElse(a, b))|)
    ensures k <= n && Meaning(e.prim, IfElse(a, b), s, fuel).Some?
    ensures Goes(e, Machine(Addr(e, i), s), k, Machine(Addr(e, i + |Code(IfElse(a, b))|), Meaning(e.prim, IfElse(a, b), s, fuel).value))
    decreases n, IfElse(a, b), 2
  {
    hide Placed, Goes, Code, ElseCode;
    CodeOf(IfElse(a, b));
    var m, l, len := Machine(Addr(e, i), s), |Code(a)|, |Code(IfElse(a, b))|;
    ElseParts(e, i, Code(a), Code(b));
    JumpCells(e, i, ZBranch, 4 * (3 + l));
    NotYet(e, i, s, n, m', i, len);
    One(e, m);
    if s.ds[0] != 0 {
      var k1, f1 := Backward(e, i + 2, a, Pop(s), n - 1, m');
      var m1 := Machine(Addr(e, i + 2 + l), Meaning(e.prim, a, Pop(s), f1).value);
      Rest(e, Machine(Addr(e, i + 2), Pop(s)), k1, m1, n - 1, m');
      NotYet(e, i + 2 + l, m1.s, n - 1 - k1, m', i, len);
      Then(e, m, 1, Machine(Addr(e, i + 2), Pop(s)), k1, m1);
      JumpCells(e, i + 2 + l, Branch, 4 * (1 + |Code(b)|));
      One(e, m1);
      Then(e, m, 1 + k1, m1, 1, Machine(Addr(e, i + len), m1.s));
      k, fuel := k1 + 2, f1;
    } else {
      var k1, f1 := Backward(e, i + 4 + l, b, Pop(s), n - 1, m');
      Then(e, m, 1, Machine(Addr(e, i + 4 + l), Pop(s)), k1, Machine(Addr(e, i + len), Meaning(e.prim, b, Pop(s), f1).value));
      k, fuel := 1 + k1, f1;
    }
  }

  lemma {:induction false} BackwardUntil(e: Env, i: nat, b: Prog, s: State, n: nat, m': Machine) returns (k: nat, fuel: nat)
    requires Placed(e, i, Code(BeginUntil(b))) && Goes(e, Machine(Addr(e, i), s), n, m') && Outside(e, m'.ip, i, |Code(BeginUntil(b))|)
    ensures k <= n && Meaning(e.prim, BeginUntil(b), s, fuel).Some?
    ensures Goes(e, Machine(Addr(e, i), s), k, Machine(Addr(e, i + |Code(BeginUntil(b))|), Meaning(e.prim, BeginUntil(b), s, fuel).value))
    decreases n, BeginUntil(b), 2
  {
    hide Placed, Goes, Code, BackCode;
    CodeOf(BeginUntil(b));
    var m, l := Machine(Addr(e, i), s), |Code(b)|;
    BackParts(e, i, Code(b), ZBranch);
    var k1, f1 := Backward(e, i, b, s, n, m');
    var s1 := Meaning(e.prim, b, s, f1).value;
    var m1 := Machine(Addr(e, i + l), s1);
    Rest(e, m, k1, m1, n, m');
    NotYet(e, i + l, s1, n - k1, m', i, l + 2);
    JumpCells(e, i + l, ZBranch, -4 * (l + 1));
    One(e, m1);
    if s1.ds[0] != 0 {
      Then(e, m, k1, m1, 1, Machine(Addr(e, i + l + 2), Pop(s1)));
      k, fuel := k1 + 1, f1;
    } else {
      var m2 := Machine(Addr(e, i), Pop(s1));
      Then(e, m, k1, m1, 1, m2);
      var k2, f2 := BackwardUntil(e, i, b, Pop(s1), n - k1 - 1, m');
      Then(e, m, k1 + 1, m2, k2, Machine(Addr(e, i + l + 2), Meaning(e.prim, BeginUntil(b), Pop(s1), f2).value));
      k, fuel := k1 + 1 + k2, Max(f1, f2 + 1);
      MoreFuel(e.prim, b, s, f1, fuel);
      MoreFuel(e.prim, BeginUntil(b), Pop(s1), f2, fuel - 1);
    }
  }

  /** begin ... again is never left at all. */
  lemma {:induction false} BackwardAgain(e: Env, i: nat, b: Prog, s: State, n: nat, m': Machine)
    requires Placed(e, i, Code(BeginAgain(b))) && Goes(e, Machine(Addr(e, i), s), n, m') && Outside(e, m'.ip, i, |Code(BeginAgain(b))|)
    ensures false
    decreases n, BeginAgain(b), 2
  {
    hide Placed, Goes, Code, BackCode;
    CodeOf(BeginAgain(b));
    var m, l := Machine(Addr(e, i), s), |Code(b)|;
    BackParts(e, i, Code(b), Branch);
    var k1, f1 := Backward(e, i, b, s, n, m');
    var m1 := Machine(Addr(e, i + l), Meaning(e.prim, b, s, f1).value);
    Rest(e, m, k1, m1, n, m');
    NotYet(e, i + l, m1.s, n - k1, m', i, l + 2);
    JumpCells(e, i + l, Branch, -4 * (l + 1));
    One(e, m1);
    BackwardAgain(e, i, b, m1.s, n - k1 - 1, m');
  }

  lemma {:induction false} BackwardWhile(e: Env, i: nat, t: Prog, b: Prog, s: State, n: nat, m': Machine) returns (k: nat, fuel: nat)
    requires Placed(e, i, Code(BeginWhile(t, b))) && Goes(e, Machine(Addr(e, i), s), n, m')
    requires Outside(e, m'.ip, i, |Code(BeginWhile(t, b))|)
    ensures k <= n && Meaning(e.prim, BeginWhile(t, b), s, fuel).Some?
    ensures Goes(e, Machine(Addr(e, i), s), k, Machine(Addr(e, i + |Code(BeginWhile(t, b))|), Meaning(e.prim, BeginWhile(t, b), s, fuel).value))
    decreases n, BeginWhile(t, b), 2
  {
    hide Placed, Goes, Code, WhileCode;
    CodeOf(BeginWhile(t, b));
    var m, h, l, len := Machine(Addr(e, i), s), |Code(t)|, |Code(b)|, |Code(BeginWhile(t, b))|;
    WhileParts(e, i, Code(t), Code(b));
    var k1, f1 := Backward(e, i, t, s, n, m');
    var s1 := Meaning(e.prim, t, s, f1).value;
    var m1 := Machine(Addr(e, i + h), s1);
    Rest(e, m, k1, m1, n, m');
    NotYet(e, i + h, s1, n - k1, m', i, len);
    JumpCells(e, i + h, ZBranch, 4 * (3 + l));
    One(e, m1);
    if s1.ds[0] == 0 {
      Then(e, m, k1, m1, 1, Machine(Addr(e, i + len), Pop(s1)));
      k, fuel := k1 + 1, f1;
    } else {
      var m2 := Machine(Addr(e, i + h + 2), Pop(s1));
      Then(e, m, k1, m1, 1, m2);
      var k2, f2, s3 := BackwardBody(e, i, t, b, Pop(s1), n - k1 - 1, m');
      Then(e, m, k1 + 1, m2, k2, Machine(Addr(e, i), s3));
      Rest(e, m2, k2, Machine(Addr(e, i), s3), n - k1 - 1, m');
      var k3, f3 := BackwardWhile(e, i, t, b, s3, n - k1 - 1 - k2, m');
      Then(e, m, k1 + 1 + k2, Machine(Addr(e, i), s3), k3, Machine(Addr(e, i + len), Meaning(e.prim, BeginWhile(t, b), s3, f3).value));
      k, fuel := k1 + 1 + k2 + k3, Max(Max(f1, f2), f3 + 1);
      MoreFuel(e.prim, t, s, f1, fuel);
      MoreFuel(e.prim, b, Pop(s1), f2, fuel);
      MoreFuel(e.prim, BeginWhile(t, b), s3, f3, fuel - 1);
    }
  }

  /** The body of a while loop, and the branch back to its begin. */
  lemma {:induction false} BackwardBody(e: Env, i: nat, t: Prog, b: Prog, s: State, n: nat, m': Machine) returns (k: nat, fuel: nat, s': State)
    requires Placed(e, i, WhileCode(Code(t), Code(b))) && Goes(e, Machine(Addr(e, i + |Code(t)| + 2), s), n, m')
    requires Outside(e, m'.ip, i, |WhileCode(Code(t), Code(b))|)
    ensures 0 < k <= n && Meaning(e.prim, b, s, fuel) == Some(s')
    ensures Goes(e, Machine(Addr(e, i + |Code(t)| + 2), s), k, Machine(Addr(e, i), s'))
    decreases n, b, 4
  {
    hide Placed, Goes, Code, WhileCode;
    var h, l := |Code(t)|, |Code(b)|;
    WhileParts(e, i, Code(t), Code(b));
    var k1, f1 := Backward(e, i + h + 2, b, s, n, m');
    s' := Meaning(e.prim, b, s, f1).value;
    var m, m1 := Machine(Addr(e, i + h + 2), s), Machine(Addr(e, i + h + 2 + l), s');
    Rest(e, m, k1, m1, n, m');
    NotYet(e, i + h + 2 + l, s', n - k1, m', i, h + l + 4);
    JumpCells(e, i + h + 2 + l, Branch, -4 * (h + l + 3));
    One(e, m1);
    Then(e, m, k1, m1, 1, Machine(Addr(e, i), s'));
    k, fuel := k1 + 1, f1;
  }

  lemma {:induction false} BackwardDo(e: Env, i: nat, b: Prog, plus: bool, s: State, n: nat, m': Machine) returns (k: nat, fuel: nat)
    requires Placed(e, i, Code(DoProg(b, plus))) && Goes(e, Machine(Addr(e, i), s), n, m') && Outside(e, m'.ip, i, |Code(DoProg(b, plus))|)
    ensures k <= n && Meaning(e.prim, DoProg(b, plus), s, fuel).Some?
    ensures Goes(e, Machine(Addr(e, i), s), k, Machine(Addr(e, i + |Code(DoProg(b, plus))|), Meaning(e.prim, DoProg(b, plus), s, fuel).value))
    decreases n, b, 5
  {
    hide Placed, Goes, Code, BackCode;
    CodeOf(DoProg(b, plus));
    var m, l := Machine(Addr(e, i), s), |Code(b)|;
    Parts(e, i, [Xt(PDo)], BackCode(Code(b), LoopToken(plus)));
    BackParts(e, i + 1, Code(b), LoopToken(plus));
    CellAt(e, i, [Xt(PDo)], 0);
    NotYet(e, i, s, n, m', i, l + 3);
    One(e, m);
    var s1 := EnterLoop(s).value;
    var k1, f1 := BackwardTurns(e, i + 1, b, plus, s1, n - 1, m');
    Then(e, m, 1, Machine(Addr(e, i + 1), s1), k1, Machine(Addr(e, i + 3 + l), Turns(e.prim, b, plus, s1, f1).value));
    k, fuel := 1 + k1, f1;
  }

  lemma {:induction false} BackwardTurns(e: Env, i: nat, b: Prog, plus: bool, s: State, n: nat, m': Machine) returns (k: nat, fuel: nat)
    requires Placed(e, i, Code(b)) && Placed(e, i + |Code(b)|, [Xt(LoopToken(plus)), Num(-4 * (|Code(b)| + 1))])
    requires Goes(e, Machine(Addr(e, i), s), n, m') && Outside(e, m'.ip, i, |Code(b)| + 2)
    ensures k <= n && Turns(e.prim, b, plus, s, fuel).Some?
    ensures Goes(e, Machine(Addr(e, i), s), k, Machine(Addr(e, i + |Code(b)| + 2), Turns(e.prim, b, plus, s, fuel).value))
    decreases n, b, 4
  {
    hide Placed, Goes, Code, PlusTurn, NextTurn, EnterLoop;
    var m, l := Machine(Addr(e, i), s), |Code(b)|;
    var k1, f1 := Backward(e, i, b, s, n, m');
    var s1 := Meaning(e.prim, b, s, f1).value;
    var m1 := Machine(Addr(e, i + l), s1);
    Rest(e, m, k1, m1, n, m');
    NotYet(e, i + l, s1, n - k1, m', i, l + 2);
    JumpCells(e, i + l, LoopToken(plus), -4 * (l + 1));
    One(e, m1);
    match if plus then PlusTurn(s1) else NextTurn(s1)
    case Exit(s2) =>
      Then(e, m, k1, m1, 1, Machine(Addr(e, i + l + 2), s2));
      k, fuel := k1 + 1, f1;
    case Again(s2) =>
      var m2 := Machine(Addr(e, i), s2);
      Then(e, m, k1, m1, 1, m2);
      var k2, f2 := BackwardTurns(e, i, b, plus, s2, n - k1 - 1, m');
      Then(e, m, k1 + 1, m2, k2, Machine(Addr(e, i + l + 2), Turns(e.prim, b, plus, s2, f2).value));
      k, fuel := k1 + 1 + k2, Max(f1, f2 + 1);
      MoreFuel(e.prim, b, s, f1, fuel);
      MoreFuelTurns(e.prim, b, plus, s2, f2, fuel - 1);
  }

  lemma {:induction false} BackwardArms(e: Env, i: nat, a: Arms, s: State, n: nat, m': Machine) returns (k: nat, fuel: nat)
    requires Placed(e, i, ArmsCode(a)) && Goes(e, Machine(Addr(e, i), s), n, m') && Outside(e, m'.ip, i, |ArmsCode(a)|)
    ensures k <= n && ArmsMeaning(e.prim, a, s, fuel).Some?
    ensures Goes(e, Machine(Addr(e, i), s), k, Machine(Addr(e, i + |ArmsCode(a)|), ArmsMeaning(e.prim, a, s, fuel).value))
    decreases n, a
  {
    hide Placed, Goes, Code, ArmsCode, ArmCode;
    ArmsOf(a);
    var m := Machine(Addr(e, i), s);
    match a
    case Default(d) =>
      var l := |Code(d)|;
      Parts(e, i, Code(d), [Xt(Drop)]);
      var k1, f1 := Backward(e, i, d, s, n, m');
      var m1 := Machine(Addr(e, i + l), Meaning(e.prim, d, s, f1).value);
      Rest(e, m, k1, m1, n, m');
      NotYet(e, i + l, m1.s, n - k1, m', i, l + 1);
      CellAt(e, i + l, [Xt(Drop)], 0);
      One(e, m1);
      Then(e, m, k1, m1, 1, Machine(Addr(e, i + l + 1), Pop(m1.s)));
      k, fuel := k1 + 1, f1;
    case Arm(t, b, rest) =>
      var h, l := |Code(t)|, |Code(b)|;
      ArmParts(e, i, Code(t), Code(b), ArmsCode(rest));
      var k1, f1 := Backward(e, i, t, s, n, m');
      var s1 := Meaning(e.prim, t, s, f1).value;
      Rest(e, m, k1, Machine(Addr(e, i + h), s1), n, m');
      NoOf(e, i + h, s1, n - k1, m', 4 * (4 + l), i, |ArmsCode(a)|);
      OfSteps(e, i + h, s1, 4 * (4 + l));
      if s1.ds[0] == s1.ds[1] {
        var m2 := Machine(Addr(e, i + h + 4), Pop(s1));
        Then(e, m, k1, Machine(Addr(e, i + h), s1), 3, m2);
        Rest(e, m, k1 + 3, m2, n, m');
        var k2, f2, s3 := BackwardOf(e, i, t, b, rest, Pop(s1), n - k1 - 3, m');
        assert Pop(Pop(s1)) == s1.(ds := s1.ds[2..]);
        Then(e, m, k1 + 3, m2, k2, Machine(Addr(e, i + |ArmsCode(a)|), s3));
        k, fuel := k1 + 3 + k2, Max(f1, f2);
        MoreFuel(e.prim, t, s, f1, fuel);
        MoreFuel(e.prim, b, s1.(ds := s1.ds[2..]), f2, fuel);
      } else {
        var m2 := Machine(Addr(e, i + h + 7 + l), Pop(s1));
        Then(e, m, k1, Machine(Addr(e, i + h), s1), 3, m2);
        Rest(e, m, k1 + 3, m2, n, m');
        var k2, f2 := BackwardArms(e, i + h + 7 + l, rest, Pop(s1), n - k1 - 3, m');
        Then(e, m, k1 + 3, m2, k2, Machine(Addr(e, i + |ArmsCode(a)|), ArmsMeaning(e.prim, rest, Pop(s1), f2).value));
        k, fuel := k1 + 3 + k2, Max(f1, f2);
        MoreFuel(e.prim, t, s, f1, fuel);
        MoreFuelArms(e.prim, rest, Pop(s1), f2, fuel);
      }
  }

  /** A run that gets past over = 0branch has had two cells on the stack, and made three steps. */
  lemma NoOf(e: Env, j: nat, s: State, n: nat, m': Machine, o: int, i: nat, len: nat)
    requires Placed(e, j, [Xt(Over), Xt(Equ)]) && Placed(e, j + 2, [Xt(ZBranch), Num(o)])
    requires Goes(e, Machine(Addr(e, j), s), n, m') && Outside(e, m'.ip, i, len) && i <= j && j + 4 <= i + len
    ensures |s.ds| >= 2 && n >= 3
  {
    hide Placed, Goes;
    CellAt(e, j, [Xt(Over), Xt(Equ)], 0);
    CellAt(e, j, [Xt(Over), Xt(Equ)], 1);
    NotYet(e, j, s, n, m', i, len);
    One(e, Machine(Addr(e, j), s));
    var m1 := Machine(Addr(e, j + 1), Push(s, s.ds[1]));
    NotYet(e, j + 1, m1.s, n - 1, m', i, len);
    One(e, m1);
    NotYet(e, j + 2, Step(e, m1).value.s, n - 2, m', i, len);
  }

  /** The body of an arm that has been chosen, with its drop before and its branch after it. */
  lemma {:induction false} BackwardOf(e: Env, i: nat, t: Prog, b: Prog, rest: Arms, s: State, n: nat, m': Machine)
    returns (k: nat, fuel: nat, s': State)
    requires Placed(e, i, ArmCode(Code(t), Code(b), ArmsCode(rest))) && Goes(e, Machine(Addr(e, i + |Code(t)| + 4), s), n, m')
    requires Outside(e, m'.ip, i, |ArmCode(Code(t), Code(b), ArmsCode(rest))|) && s.ds != []
    ensures k <= n && Meaning(e.prim, b, Pop(s), fuel) == Some(s')
    ensures Goes(e, Machine(Addr(e, i + |Code(t)| + 4), s), k, Machine(Addr(e, i + |ArmCode(Code(t), Code(b), ArmsCode(rest))|), s'))
    decreases n, b, 4
  {
    hide Placed, Goes, Code, ArmsCode, ArmCode;
    var h, l, len := |Code(t)|, |Code(b)|, |ArmCode(Code(t), Code(b), ArmsCode(rest))|;
    ArmParts(e, i, Code(t), Code(b), ArmsCode(rest));
    var m := Machine(Addr(e, i + h + 4), s);
    NotYet(e, i + h + 4, s, n, m', i, len);
    CellAt(e, i + h + 4, [Xt(Drop)], 0);
    One(e, m);
    var m1 := Machine(Addr(e, i + h + 5), Pop(s));
    var k1, f1 := Backward(e, i + h + 5, b, Pop(s), n - 1, m');
    s' := Meaning(e.prim, b, Pop(s), f1).value;
    var m2 := Machine(Addr(e, i + h + 5 + l), s');
    Then(e, m, 1, m1, k1, m2);
    Rest(e, m1, k1, m2, n - 1, m');
    NotYet(e, i + h + 5 + l, s', n - 1 - k1, m', i, len);
    JumpCells(e, i + h + 5 + l, Branch, 4 * (1 + |ArmsCode(rest)|));
    One(e, m2);
    Then(e, m, 1 + k1, m2, 1, Machine(Addr(e, i + len), s'));
    k, fuel := k1 + 2, f1;
  }

  // ----- compiler correctness -----

  ghost predicate Reaches(e: Env, m: Machine, m': Machine) {
    exists n :: Goes(e, m, n, m')
  }

  ghost predicate Means(f: Prims, p: Prog, s: State, s': State) {
    exists fuel :: Meaning(f, p, s, fuel) == Some(s')
  }

  /** The run from the start of the code gets to an address outside it. */
  ghost predicate Leaves(e: Env, i: nat, len: nat, s: State) {
    exists m' :: Reaches(e, Machine(Addr(e, i), s), m') && Outside(e, m'.ip, i, len)
  }

  /** Running the cells of a program leaves them if and only if the program has a meaning; and then it
      gets to the end of the cells with the stacks of the meaning. (That the end is the first address
      outside that it gets to is what `Backward` says.) */
  lemma Correct(e: Env, i: nat, p: Prog, s: State)
    requires Placed(e, i, Code(p))
    ensures Leaves(e, i, |Code(p)|, s) <==> exists s' :: Means(e.prim, p, s, s')
    ensures forall s' | Means(e.prim, p, s, s') :: Reaches(e, Machine(Addr(e, i), s), Machine(Addr(e, i + |Code(p)|), s'))
  {
    hide Goes, Placed, Code, Meaning;
    forall s' | Means(e.prim, p, s, s')
      ensures Reaches(e, Machine(Addr(e, i), s), Machine(Addr(e, i + |Code(p)|), s')) && Leaves(e, i, |Code(p)|, s)
    {
      var fuel :| Meaning(e.prim, p, s, fuel) == Some(s');
      var n := Forward(e, i, p, s, fuel);
      assert Outside(e, Machine(Addr(e, i + |Code(p)|), s').ip, i, |Code(p)|);
    }
    if Leaves(e, i, |Code(p)|, s) {
      var m' :| Reaches(e, Machine(Addr(e, i), s), m') && Outside(e, m'.ip, i, |Code(p)|);
      var n :| Goes(e, Machine(Addr(e, i), s), n, m');
      var k, fuel := Backward(e, i, p, s, n, m');
      assert Means(e.prim, p, s, Meaning(e.prim, p, s, fuel).value);
    }
  }

  /** A meaning is unique. */
  lemma OneMeaning(f: Prims, p: Prog, s: State, a: State, b: State)
    requires Means(f, p, s, a) && Means(f, p, s, b)
    ensures a == b
  {
    var x :| Meaning(f, p, s, x) == Some(a);
    var y :| Meaning(f, p, s, y) == Some(b);
    MoreFuel(f, p, s, x, Max(x, y));
    MoreFuel(f, p, s, y, Max(x, y));
  }

  /** Code that has just been compiled at HERE, after the cells `m`, is placed there. */
  lemma JustCompiled(m: seq<Cell>, p: Prog, org: int, prim: Prims)
    ensures Placed(Env(m + Code(p), org, prim), |m|, Code(p))
  {
    hide Code;
  }
}
