/** Running compiled code: it leaves the code exactly when the structured meaning is defined, at the
    end of the code and with the stacks of the meaning. */
module Compiled {
  import opened Options
  import opened Threaded
  import opened Control

  function Addr(e: Env, i: int): int {
    e.org + 4 * i
  }

  ghost predicate Placed(e: Env, i: nat, c: seq<Cell>) {
    i + |c| <= |e.mem| && e.mem[i..i + |c|] == c
  }

  lemma Parts(e: Env, i: nat, a: seq<Cell>, b: seq<Cell>)
    requires Placed(e, i, a + b)
    ensures Placed(e, i, a) && Placed(e, i + |a|, b)
  {
    assert (a + b)[..|a|] == a && (a + b)[|a|..] == b;
    assert e.mem[i..i + |a|] == e.mem[i..i + |a + b|][..|a|];
    assert e.mem[i + |a|..i + |a| + |b|] == e.mem[i..i + |a + b|][|a|..];
  }

  lemma Parts3(e: Env, i: nat, a: seq<Cell>, b: seq<Cell>, c: seq<Cell>)
    requires Placed(e, i, a + b + c)
    ensures Placed(e, i, a) && Placed(e, i + |a|, b) && Placed(e, i + |a| + |b|, c)
  {
    hide Placed;
    Parts(e, i, a + b, c);
    Parts(e, i, a, b);
  }

  lemma Parts4(e: Env, i: nat, a: seq<Cell>, b: seq<Cell>, c: seq<Cell>, d: seq<Cell>)
    requires Placed(e, i, a + b + c + d)
    ensures Placed(e, i, a) && Placed(e, i + |a|, b) && Placed(e, i + |a| + |b|, c) && Placed(e, i + |a| + |b| + |c|, d)
  {
    hide Placed;
    Parts(e, i, a + b + c, d);
    Parts3(e, i, a, b, c);
  }

  lemma CellAt(e: Env, i: nat, c: seq<Cell>, j: nat)
    requires Placed(e, i, c) && j < |c|
    ensures At(e, Addr(e, i + j)) == Some(c[j])
  {
    assert e.mem[i + j] == e.mem[i..i + |c|][j];
  }

  /** Code that is a jump and its offset, taken or not, at cell `i`. */
  lemma JumpCells(e: Env, i: nat, t: Token, o: int)
    requires Placed(e, i, [Xt(t), Num(o)])
    ensures At(e, Addr(e, i)) == Some(Xt(t)) && At(e, Addr(e, i + 1)) == Some(Num(o))
    ensures Addr(e, i) + 4 == Addr(e, i + 1) && Addr(e, i + 1) + 4 == Addr(e, i + 2)
    ensures Jump(e, Addr(e, i + 1)) == Some(Addr(e, i + 1) + o)
  {
    CellAt(e, i, [Xt(t), Num(o)], 0);
    CellAt(e, i, [Xt(t), Num(o)], 1);
  }

  ghost predicate Goes(e: Env, m: Machine, n: nat, m': Machine) {
    Steps(e, m, n) == Some(m')
  }

  lemma Then(e: Env, m: Machine, a: nat, m1: Machine, b: nat, m2: Machine)
    requires Goes(e, m, a, m1) && Goes(e, m1, b, m2)
    ensures Goes(e, m, a + b, m2)
  {
    StepsAdd(e, m, a, b);
  }

  /** The rest of a run after its first `a` words. */
  lemma Rest(e: Env, m: Machine, a: nat, m1: Machine, n: nat, m2: Machine)
    requires Goes(e, m, a, m1) && Goes(e, m, n, m2) && a <= n
    ensures Goes(e, m1, n - a, m2)
  {
    StepsAdd(e, m, a, n - a);
  }

  lemma One(e: Env, m: Machine)
    ensures Step(e, m).Some? ==> Goes(e, m, 1, Step(e, m).value)
    ensures forall n: nat, m2 | n > 0 && Goes(e, m, n, m2) :: Step(e, m).Some? && Goes(e, Step(e, m).value, n - 1, m2)
  {
    if Step(e, m).Some? {
      assert Steps(e, Step(e, m).value, 0) == Some(Step(e, m).value);
    }
  }

  lemma Zero(e: Env, m: Machine)
    ensures Goes(e, m, 0, m)
  {
  }

  // ----- from meaning to run -----

  lemma {:induction false} Forward(e: Env, i: nat, p: Prog, s: State, fuel: nat) returns (n: nat)
    requires Placed(e, i, Code(p)) && Meaning(e.prim, p, s, fuel).Some?
    ensures Goes(e, Machine(Addr(e, i), s), n, Machine(Addr(e, i + |Code(p)|), Meaning(e.prim, p, s, fuel).value))
    decreases fuel, p, 3
  {
    hide Placed, Goes, Code, ArmsCode, ElseCode, WhileCode, ArmCode, BackCode;
    CodeOf(p);
    n := 0;
    var m := Machine(Addr(e, i), s);
    match p
    case Skip =>
      Zero(e, m);
    case Seq(a, b) =>
      n := ForwardSeq(e, i, a, b, s, fuel);
    case Word(op) =>
      CellAt(e, i, Code(p), 0);
      One(e, m);
      n := 1;
    case Literal(x) =>
      JumpCells(e, i, Lit, x);
      One(e, m);
      n := 1;
    case If(a) =>
      n := ForwardIf(e, i, a, s, fuel);
    case IfElse(a, b) =>
      n := ForwardElse(e, i, a, b, s, fuel);
    case BeginUntil(b) =>
      n := ForwardUntil(e, i, b, s, fuel);
    case BeginAgain(b) =>
      assert false;
    case BeginWhile(t, b) =>
      n := ForwardWhile(e, i, t, b, s, fuel);
    case Case(arms) =>
      n := ForwardArms(e, i, arms, s, fuel);
    case DoLoop(b) =>
      n := ForwardDo(e, i, b, false, s, fuel);
    case DoPlusLoop(b) =>
      n := ForwardDo(e, i, b, true, s, fuel);
  }

  lemma {:induction false} ForwardSeq(e: Env, i: nat, a: Prog, b: Prog, s: State, fuel: nat) returns (n: nat)
    requires Placed(e, i, Code(Seq(a, b))) && Meaning(e.prim, Seq(a, b), s, fuel).Some?
    ensures Goes(e, Machine(Addr(e, i), s), n, Machine(Addr(e, i + |Code(Seq(a, b))|), Meaning(e.prim, Seq(a, b), s, fuel).value))
    decreases fuel, Seq(a, b), 2
  {
    hide Placed, Goes, Code;
    CodeOf(Seq(a, b));
    Parts(e, i, Code(a), Code(b));
    var n1 := Forward(e, i, a, s, fuel);
    var s1 := Meaning(e.prim, a, s, fuel).value;
    var n2 := Forward(e, i + |Code(a)|, b, s1, fuel);
    n := n1 + n2;
    Then(e, Machine(Addr(e, i), s), n1, Machine(Addr(e, i + |Code(a)|), s1), n2,
         Machine(Addr(e, i + |Code(Seq(a, b))|), Meaning(e.prim, b, s1, fuel).value));
  }

  lemma {:induction false} ForwardIf(e: Env, i: nat, a: Prog, s: State, fuel: nat) returns (n: nat)
    requires Placed(e, i, Code(If(a))) && Meaning(e.prim, If(a), s, fuel).Some?
    ensures Goes(e, Machine(Addr(e, i), s), n, Machine(Addr(e, i + |Code(If(a))|), Meaning(e.prim, If(a), s, fuel).value))
    decreases fuel, If(a), 2
  {
    hide Placed, Goes, Code;
    CodeOf(If(a));
    Parts(e, i, [Xt(ZBranch), Num(4 * (1 + |Code(a)|))], Code(a));
    JumpCells(e, i, ZBranch, 4 * (1 + |Code(a)|));
    One(e, Machine(Addr(e, i), s));
    n := 1;
    if s.ds[0] != 0 {
      var n1 := Forward(e, i + 2, a, Pop(s), fuel);
      n := 1 + n1;
      Then(e, Machine(Addr(e, i), s), 1, Machine(Addr(e, i + 2), Pop(s)), n1,
           Machine(Addr(e, i + |Code(If(a))|), Meaning(e.prim, If(a), s, fuel).value));
    }
  }

  lemma ElseParts(e: Env, i: nat, a: seq<Cell>, b: seq<Cell>)
    requires Placed(e, i, ElseCode(a, b))
    ensures Placed(e, i, [Xt(ZBranch), Num(4 * (3 + |a|))]) && Placed(e, i + 2, a)
    ensures Placed(e, i + 2 + |a|, [Xt(Branch), Num(4 * (1 + |b|))]) && Placed(e, i + 4 + |a|, b)
    ensures |ElseCode(a, b)| == 4 + |a| + |b|
  {
    hide Placed;
    Parts4(e, i, [Xt(ZBranch), Num(4 * (3 + |a|))], a, [Xt(Branch), Num(4 * (1 + |b|))], b);
  }

  lemma {:induction false} ForwardElse(e: Env, i: nat, a: Prog, b: Prog, s: State, fuel: nat) returns (n: nat)
    requires Placed(e, i, Code(IfElse(a, b))) && Meaning(e.prim, IfElse(a, b), s, fuel).Some?
    ensures Goes(e, Machine(Addr(e, i), s), n, Machine(Addr(e, i + |Code(IfElse(a, b))|), Meaning(e.prim, IfElse(a, b), s, fuel).value))
    decreases fuel, IfElse(a, b), 2
  {
    hide Placed, Goes, Code, ElseCode;
    CodeOf(IfElse(a, b));
    var m, k := Machine(Addr(e, i), s), |Code(a)|;
    ElseParts(e, i, Code(a), Code(b));
    JumpCells(e, i, ZBranch, 4 * (3 + k));
    One(e, m);
    var end := Machine(Addr(e, i + |Code(IfElse(a, b))|), Meaning(e.prim, IfElse(a, b), s, fuel).value);
    if s.ds[0] != 0 {
      var n1 := Forward(e, i + 2, a, Pop(s), fuel);
      var m1 := Machine(Addr(e, i + 2 + k), end.s);
      Then(e, m, 1, Machine(Addr(e, i + 2), Pop(s)), n1, m1);
      JumpCells(e, i + 2 + k, Branch, 4 * (1 + |Code(b)|));
      One(e, m1);
      Then(e, m, 1 + n1, m1, 1, end);
      n := n1 + 2;
    } else {
      var n1 := Forward(e, i + 4 + k, b, Pop(s), fuel);
      Then(e, m, 1, Machine(Addr(e, i + 4 + k), Pop(s)), n1, end);
      n := 1 + n1;
    }
  }

  lemma {:induction false} ForwardUntil(e: Env, i: nat, b: Prog, s: State, fuel: nat) returns (n: nat)
    requires Placed(e, i, Code(BeginUntil(b))) && Meaning(e.prim, BeginUntil(b), s, fuel).Some?
    ensures Goes(e, Machine(Addr(e, i), s), n, Machine(Addr(e, i + |Code(BeginUntil(b))|), Meaning(e.prim, BeginUntil(b), s, fuel).value))
    decreases fuel, BeginUntil(b), 2
  {
    hide Placed, Goes, Code, BackCode;
    CodeOf(BeginUntil(b));
    var m, k := Machine(Addr(e, i), s), |Code(b)|;
    BackParts(e, i, Code(b), ZBranch);
    var n1 := Forward(e, i, b, s, fuel);
    var s1 := Meaning(e.prim, b, s, fuel).value;
    var m1 := Machine(Addr(e, i + k), s1);
    JumpCells(e, i + k, ZBranch, -4 * (k + 1));
    One(e, m1);
    if s1.ds[0] != 0 {
      Then(e, m, n1, m1, 1, Machine(Addr(e, i + k + 2), Pop(s1)));
      n := n1 + 1;
    } else {
      var m2 := Machine(Addr(e, i), Pop(s1));
      Then(e, m, n1, m1, 1, m2);
      var n2 := ForwardUntil(e, i, b, Pop(s1), fuel - 1);
      Then(e, m, n1 + 1, m2, n2, Machine(Addr(e, i + k + 2), Meaning(e.prim, BeginUntil(b), s, fuel).value));
      n := n1 + 1 + n2;
    }
  }

  lemma WhileParts(e: Env, i: nat, t: seq<Cell>, b: seq<Cell>)
    requires Placed(e, i, WhileCode(t, b))
    ensures Placed(e, i, t) && Placed(e, i + |t|, [Xt(ZBranch), Num(4 * (3 + |b|))])
    ensures Placed(e, i + |t| + 2, b) && Placed(e, i + |t| + 2 + |b|, [Xt(Branch), Num(-4 * (|t| + |b| + 3))])
    ensures |WhileCode(t, b)| == 4 + |t| + |b|
  {
    hide Placed;
    Parts4(e, i, t, [Xt(ZBranch), Num(4 * (3 + |b|))], b, [Xt(Branch), Num(-4 * (|t| + |b| + 3))]);
  }

  lemma {:induction false} ForwardWhile(e: Env, i: nat, t: Prog, b: Prog, s: State, fuel: nat) returns (n: nat)
    requires Placed(e, i, Code(BeginWhile(t, b))) && Meaning(e.prim, BeginWhile(t, b), s, fuel).Some?
    ensures Goes(e, Machine(Addr(e, i), s), n,
                 Machine(Addr(e, i + |Code(BeginWhile(t, b))|), Meaning(e.prim, BeginWhile(t, b), s, fuel).value))
    decreases fuel, BeginWhile(t, b), 2
  {
    hide Placed, Goes, Code, WhileCode;
    CodeOf(BeginWhile(t, b));
    var m, k, l := Machine(Addr(e, i), s), |Code(t)|, |Code(b)|;
    WhileParts(e, i, Code(t), Code(b));
    var end := Machine(Addr(e, i + |Code(BeginWhile(t, b))|), Meaning(e.prim, BeginWhile(t, b), s, fuel).value);
    var n1 := Forward(e, i, t, s, fuel);
    var s1 := Meaning(e.prim, t, s, fuel).value;
    var m1 := Machine(Addr(e, i + k), s1);
    JumpCells(e, i + k, ZBranch, 4 * (3 + l));
    One(e, m1);
    if s1.ds[0] == 0 {
      Then(e, m, n1, m1, 1, end);
      n := n1 + 1;
    } else {
      var m2 := Machine(Addr(e, i + k + 2), Pop(s1));
      Then(e, m, n1, m1, 1, m2);
      var s2 := Meaning(e.prim, b, Pop(s1), fuel).value;
      var n2 := ForwardBody(e, i, t, b, Pop(s1), fuel);
      Then(e, m, n1 + 1, m2, n2, Machine(Addr(e, i), s2));
      var n3 := ForwardWhile(e, i, t, b, s2, fuel - 1);
      Then(e, m, n1 + 1 + n2, Machine(Addr(e, i), s2), n3, end);
      n := n1 + 1 + n2 + n3;
    }
  }

  /** The body of a while loop, and the branch back to its begin. */
  lemma {:induction false} ForwardBody(e: Env, i: nat, t: Prog, b: Prog, s: State, fuel: nat) returns (n: nat)
    requires Placed(e, i, WhileCode(Code(t), Code(b))) && Meaning(e.prim, b, s, fuel).Some?
    ensures Goes(e, Machine(Addr(e, i + |Code(t)| + 2), s), n, Machine(Addr(e, i), Meaning(e.prim, b, s, fuel).value))
    decreases fuel, b, 4
  {
    hide Placed, Goes, Code, WhileCode, Meaning;
    var k, l := |Code(t)|, |Code(b)|;
    WhileParts(e, i, Code(t), Code(b));
    var n1 := Forward(e, i + k + 2, b, s, fuel);
    var m, m1 := Machine(Addr(e, i + k + 2), s), Machine(Addr(e, i + k + 2 + l), Meaning(e.prim, b, s, fuel).value);
    JumpCells(e, i + k + 2 + l, Branch, -4 * (k + l + 3));
    One(e, m1);
    Then(e, m, n1, m1, 1, Machine(Addr(e, i), m1.s));
    n := n1 + 1;
  }

  lemma ArmParts(e: Env, i: nat, t: seq<Cell>, b: seq<Cell>, rest: seq<Cell>)
    requires Placed(e, i, ArmCode(t, b, rest))
    ensures Placed(e, i, t) && Placed(e, i + |t|, [Xt(Over), Xt(Equ)])
    ensures Placed(e, i + |t| + 2, [Xt(ZBranch), Num(4 * (4 + |b|))]) && Placed(e, i + |t| + 4, [Xt(Drop)])
    ensures Placed(e, i + |t| + 5, b) && Placed(e, i + |t| + 5 + |b|, [Xt(Branch), Num(4 * (1 + |rest|))])
    ensures Placed(e, i + |t| + 7 + |b|, rest)
    ensures |ArmCode(t, b, rest)| == 7 + |t| + |b| + |rest|
  {
    hide Placed;
    var z := [Xt(ZBranch), Num(4 * (4 + |b|))];
    var head, j := [Xt(Over), Xt(Equ), Xt(ZBranch), Num(4 * (4 + |b|)), Xt(Drop)], [Xt(Branch), Num(4 * (1 + |rest|))];
    Parts(e, i, t + head + b + j, rest);
    Parts4(e, i, t, head, b, j);
    assert head == [Xt(Over), Xt(Equ)] + z + [Xt(Drop)];
    Parts3(e, i + |t|, [Xt(Over), Xt(Equ)], z, [Xt(Drop)]);
  }

  /** over = 0branch, of a test `t` against the selector below it: to the body if they are equal. */
  lemma OfSteps(e: Env, i: nat, s: State, o: int)
    requires Placed(e, i, [Xt(Over), Xt(Equ)]) && Placed(e, i + 2, [Xt(ZBranch), Num(o)]) && |s.ds| >= 2
    ensures Goes(e, Machine(Addr(e, i), s), 3,
                 if s.ds[0] == s.ds[1] then Machine(Addr(e, i + 4), Pop(s)) else Machine(Addr(e, i + 3) + o, Pop(s)))
  {
    var m := Machine(Addr(e, i), s);
    CellAt(e, i, [Xt(Over), Xt(Equ)], 0);
    CellAt(e, i, [Xt(Over), Xt(Equ)], 1);
    JumpCells(e, i + 2, ZBranch, o);
    var m1 := Machine(Addr(e, i + 1), Push(s, s.ds[1]));
    One(e, m);
    One(e, m1);
    var flag := if s.ds[0] == s.ds[1] then -1 else 0;
    var s2 := s.(ds := [flag] + s.ds[1..]);
    assert m1.s.ds[2..] == s.ds[1..];
    var m2 := Machine(Addr(e, i + 2), s2);
    Then(e, m, 1, m1, 1, m2);
    One(e, m2);
    assert Pop(s2) == Pop(s);
    Then(e, m, 2, m2, 1, Step(e, m2).value);
  }

  lemma {:induction false} ForwardArms(e: Env, i: nat, a: Arms, s: State, fuel: nat) returns (n: nat)
    requires Placed(e, i, ArmsCode(a)) && ArmsMeaning(e.prim, a, s, fuel).Some?
    ensures Goes(e, Machine(Addr(e, i), s), n, Machine(Addr(e, i + |ArmsCode(a)|), ArmsMeaning(e.prim, a, s, fuel).value))
    decreases fuel, a
  {
    hide Placed, Goes, Code, ArmsCode, ArmCode;
    ArmsOf(a);
    var m, end := Machine(Addr(e, i), s), Machine(Addr(e, i + |ArmsCode(a)|), ArmsMeaning(e.prim, a, s, fuel).value);
    match a
    case Default(d) =>
      Parts(e, i, Code(d), [Xt(Drop)]);
      var n1 := Forward(e, i, d, s, fuel);
      var m1 := Machine(Addr(e, i + |Code(d)|), Meaning(e.prim, d, s, fuel).value);
      CellAt(e, i + |Code(d)|, [Xt(Drop)], 0);
      One(e, m1);
      Then(e, m, n1, m1, 1, end);
      n := n1 + 1;
    case Arm(t, b, rest) =>
      var k, l := |Code(t)|, |Code(b)|;
      ArmParts(e, i, Code(t), Code(b), ArmsCode(rest));
      var n1 := Forward(e, i, t, s, fuel);
      var s1 := Meaning(e.prim, t, s, fuel).value;
      OfSteps(e, i + k, s1, 4 * (4 + l));
      if s1.ds[0] == s1.ds[1] {
        var m2 := Machine(Addr(e, i + k + 4), Pop(s1));
        Then(e, m, n1, Machine(Addr(e, i + k), s1), 3, m2);
        CellAt(e, i + k + 4, [Xt(Drop)], 0);
        One(e, m2);
        var s3 := s1.(ds := s1.ds[2..]);
        assert Pop(Pop(s1)) == s3;
        Then(e, m, n1 + 3, m2, 1, Machine(Addr(e, i + k + 5), s3));
        var n2 := Forward(e, i + k + 5, b, s3, fuel);
        var m4 := Machine(Addr(e, i + k + 5 + l), end.s);
        Then(e, m, n1 + 4, Machine(Addr(e, i + k + 5), s3), n2, m4);
        JumpCells(e, i + k + 5 + l, Branch, 4 * (1 + |ArmsCode(rest)|));
        One(e, m4);
        Then(e, m, n1 + 4 + n2, m4, 1, end);
        n := n1 + n2 + 5;
      } else {
        var m2 := Machine(Addr(e, i + k + 7 + l), Pop(s1));
        Then(e, m, n1, Machine(Addr(e, i + k), s1), 3, m2);
        var n2 := ForwardArms(e, i + k + 7 + l, rest, Pop(s1), fuel);
        Then(e, m, n1 + 3, m2, n2, end);
        n := n1 + 3 + n2;
      }
  }

  function DoProg(b: Prog, plus: bool): Prog {
    if plus then DoPlusLoop(b) else DoLoop(b)
  }

  lemma BackParts(e: Env, i: nat, b: seq<Cell>, t: Token)
    requires Placed(e, i, BackCode(b, t))
    ensures Placed(e, i, b) && Placed(e, i + |b|, [Xt(t), Num(-4 * (|b| + 1))]) && |BackCode(b, t)| == |b| + 2
  {
    hide Placed;
    Parts(e, i, b, [Xt(t), Num(-4 * (|b| + 1))]);
  }

  lemma {:induction false} ForwardDo(e: Env, i: nat, b: Prog, plus: bool, s: State, fuel: nat) returns (n: nat)
    requires Placed(e, i, Code(DoProg(b, plus))) && Meaning(e.prim, DoProg(b, plus), s, fuel).Some?
    ensures Goes(e, Machine(Addr(e, i), s), n,
                 Machine(Addr(e, i + |Code(DoProg(b, plus))|), Meaning(e.prim, DoProg(b, plus), s, fuel).value))
    decreases fuel, b, 5
  {
    hide Placed, Goes, Code, BackCode;
    CodeOf(DoProg(b, plus));
    var m := Machine(Addr(e, i), s);
    Parts(e, i, [Xt(PDo)], BackCode(Code(b), LoopToken(plus)));
    BackParts(e, i + 1, Code(b), LoopToken(plus));
    CellAt(e, i, [Xt(PDo)], 0);
    One(e, m);
    var s1 := EnterLoop(s).value;
    var n1 := ForwardTurns(e, i + 1, b, plus, s1, fuel);
    Then(e, m, 1, Machine(Addr(e, i + 1), s1), n1, Machine(Addr(e, i + 3 + |Code(b)|), Turns(e.prim, b, plus, s1, fuel).value));
    n := 1 + n1;
  }

  lemma {:induction false} ForwardTurns(e: Env, i: nat, b: Prog, plus: bool, s: State, fuel: nat) returns (n: nat)
    requires Placed(e, i, Code(b)) && Placed(e, i + |Code(b)|, [Xt(LoopToken(plus)), Num(-4 * (|Code(b)| + 1))])
    requires Turns(e.prim, b, plus, s, fuel).Some?
    ensures Goes(e, Machine(Addr(e, i), s), n, Machine(Addr(e, i + |Code(b)| + 2), Turns(e.prim, b, plus, s, fuel).value))
    decreases fuel, b, 4
  {
    hide Placed, Goes, Code;
    var m, k := Machine(Addr(e, i), s), |Code(b)|;
    var n1 := Forward(e, i, b, s, fuel);
    var s1 := Meaning(e.prim, b, s, fuel).value;
    var m1 := Machine(Addr(e, i + k), s1);
    JumpCells(e, i + k, LoopToken(plus), -4 * (k + 1));
    One(e, m1);
    match if plus then PlusTurn(s1) else NextTurn(s1)
    case Exit(s2) =>
      Then(e, m, n1, m1, 1, Machine(Addr(e, i + k + 2), s2));
      n := n1 + 1;
    case Again(s2) =>
      var m2 := Machine(Addr(e, i), s2);
      Then(e, m, n1, m1, 1, m2);
      var n2 := ForwardTurns(e, i, b, plus, s2, fuel - 1);
      Then(e, m, n1 + 1, m2, n2, Machine(Addr(e, i + k + 2), Turns(e.prim, b, plus, s, fuel).value));
      n := n1 + 1 + n2;
  }
}
