/** The compiling words of forthright.f: they append cells at HERE, keep addresses to be filled in on
    the data stack, and patch them later. */
module Compiler {
  import opened Threaded
  import opened Control

  /** An offset cell patched after the code between has been compiled. */
  lemma Patch(m: seq<Cell>, t: Token, a: seq<Cell>, x: int)
    ensures (m + [Xt(t), Num(0)] + a)[|m| + 1 := Num(x)] == m + [Xt(t), Num(x)] + a
  {
  }

  /** Branch offsets at the addresses `pend` filled in so that they lead to address `end`. */
  ghost function Patched(org: int, m: seq<Cell>, pend: seq<int>, end: int): (r: seq<Cell>)
    ensures |r| == |m|
    decreases |pend|
  {
    if pend == [] then m
    else
      var j := (pend[0] - org) / 4;
      Patched(org, if 0 <= j < |m| then m[j := Num(end - pend[0])] else m, pend[1..], end)
  }

  /** Addresses of cells, none of them 0. */
  ghost predicate Cells(org: int, n: nat, pend: seq<int>) {
    forall i | 0 <= i < |pend| :: pend[i] != 0 && pend[i] >= org && (pend[i] - org) % 4 == 0 && (pend[i] - org) / 4 < n
  }

  lemma {:induction false} PatchedPrefix(org: int, m: seq<Cell>, c: seq<Cell>, pend: seq<int>, end: int)
    requires Cells(org, |m|, pend)
    ensures Patched(org, m + c, pend, end) == Patched(org, m, pend, end) + c
    decreases |pend|
  {
    if pend != [] {
      assert Cells(org, |m|, pend[1..]) by {
        forall i | 0 <= i < |pend[1..]|
          ensures pend[1..][i] == pend[i + 1]
        {
        }
      }
      var j := (pend[0] - org) / 4;
      assert (m + c)[j := Num(end - pend[0])] == m[j := Num(end - pend[0])] + c;
      PatchedPrefix(org, m[j := Num(end - pend[0])], c, pend[1..], end);
    }
  }

  class Dictionary {
    const org: int             // address of the first cell
    var mem: seq<Cell>         // the cells from there up to dp
    var stack: seq<int>        // the data stack while compiling, top first

    ghost predicate Valid()
      reads this
    {
      org > 0
    }

    function Here(): int
      reads this
    {
      org + 4 * |mem|
    }

    constructor (start: int)
      requires start > 0
      ensures Valid() && org == start && mem == [] && stack == []
    {
      org, mem, stack := start, [], [];
    }

    /** , */
    method Comma(c: Cell)
      modifies `mem
      ensures mem == old(mem) + [c]
    {
      mem := mem + [c];
    }

    /** dup here swap - swap ! : the offset cell whose address is on the stack leads here. */
    method Resolve()
      requires stack != [] && Cells(org, |mem|, stack[..1])
      modifies `mem, `stack
      ensures old(stack) != [] && stack == old(stack)[1..]
      ensures 0 <= (old(stack)[0] - org) / 4 < |old(mem)|
      ensures mem == old(mem)[(old(stack)[0] - org) / 4 := Num(old(Here()) - old(stack)[0])]
    {
      var a := stack[0];
      assert stack[..1][0] == a;
      mem := mem[(a - org) / 4 := Num(Here() - a)];
      stack := stack[1..];
    }

    /** here 0 , : an offset cell to be filled in. */
    method Pending()
      modifies `mem, `stack
      ensures mem == old(mem) + [Num(0)] && stack == [old(Here())] + old(stack)
    {
      stack := [Here()] + stack;
      Comma(Num(0));
    }

    /** here - , : an offset back to the address on the stack. */
    method Back()
      requires stack != []
      modifies `mem, `stack
      ensures old(stack) != [] && stack == old(stack)[1..] && mem == old(mem) + [Num(old(stack)[0] - old(Here()))]
    {
      var a := stack[0];
      stack := stack[1..];
      Comma(Num(a - Here()));
    }

    method Swap()
      requires |stack| >= 2
      modifies `stack
      ensures |old(stack)| >= 2 && stack == [old(stack)[1], old(stack)[0]] + old(stack)[2..]
    {
      stack := [stack[1], stack[0]] + stack[2..];
    }

    // ----- immediate words -----

    method CompileIf()
      modifies `mem, `stack
      ensures mem == old(mem) + [Xt(ZBranch), Num(0)] && stack == [old(Here()) + 4] + old(stack)
    {
      Comma(Xt(ZBranch));
      Pending();
    }

    method CompileThen()
      requires stack != [] && Cells(org, |mem|, stack[..1])
      modifies `mem, `stack
      ensures old(stack) != [] && stack == old(stack)[1..]
      ensures 0 <= (old(stack)[0] - org) / 4 < |old(mem)|
      ensures mem == old(mem)[(old(stack)[0] - org) / 4 := Num(old(Here()) - old(stack)[0])]
    {
      Resolve();
    }

    method CompileElse()
      requires stack != [] && Cells(org, |mem|, stack[..1])
      modifies `mem, `stack
      ensures old(stack) != [] && stack == [old(Here()) + 4] + old(stack)[1..]
      ensures 0 <= (old(stack)[0] - org) / 4 < |old(mem)|
      ensures mem == old(mem)[(old(stack)[0] - org) / 4 := Num(old(Here()) + 8 - old(stack)[0])] + [Xt(Branch), Num(0)]
    {
      ghost var j := (stack[0] - org) / 4;
      assert stack[..1][0] == stack[0];
      Comma(Xt(Branch));
      Pending();
      Swap();
      assert stack[..1] == [old(stack)[0]];
      Resolve();
    }

    method CompileBegin()
      modifies `stack
      ensures stack == [Here()] + old(stack)
    {
      stack := [Here()] + stack;
    }

    /** until and again: jump `t` back to the begin. */
    method CompileBack(t: Token)
      requires stack != []
      modifies `mem, `stack
      ensures old(stack) != [] && stack == old(stack)[1..]
      ensures mem == old(mem) + [Xt(t), Num(old(stack)[0] - old(Here()) - 4)]
    {
      Comma(Xt(t));
      Back();
    }

    method CompileWhile()
      requires stack != []
      modifies `mem, `stack
      ensures old(stack) != [] && mem == old(mem) + [Xt(ZBranch), Num(0)]
      ensures stack == [old(stack)[0], old(Here()) + 4] + old(stack)[1..]
    {
      Comma(Xt(ZBranch));
      stack := [Here()] + stack;
      Swap();
      Comma(Num(0));
    }

    method CompileRepeat()
      requires |stack| >= 2 && Cells(org, |mem|, stack[1..2])
      modifies `mem, `stack
      ensures |old(stack)| >= 2 && stack == old(stack)[2..] && 0 <= (old(stack)[1] - org) / 4 < |old(mem)|
      ensures mem == old(mem)[(old(stack)[1] - org) / 4 := Num(old(Here()) + 8 - old(stack)[1])]
                     + [Xt(Branch), Num(old(stack)[0] - old(Here()) - 4)]
    {
      assert stack[1..2][0] == stack[1];
      CompileBack(Branch);
      assert stack[..1] == old(stack)[1..2];
      Resolve();
    }

    method CompileOf()
      modifies `mem, `stack
      ensures mem == old(mem) + [Xt(Over), Xt(Equ), Xt(ZBranch), Num(0), Xt(Drop)]
      ensures stack == [old(Here()) + 12] + old(stack)
    {
      Comma(Xt(Over));
      Comma(Xt(Equ));
      CompileIf();
      Comma(Xt(Drop));
    }

    /** endcase: every address down to the 0 of CASE leads here. */
    method CompileEndCase(ghost pend: seq<int>, ghost rest: seq<int>)
      requires Valid() && stack == pend + [0] + rest && Cells(org, |mem|, pend)
      modifies `mem, `stack
      ensures stack == rest && mem == Patched(org, old(mem), pend, old(Here()) + 4) + [Xt(Drop)]
    {
      hide Cells, Patched;
      CellsMore(org, |mem|, |mem| + 1, pend);
      PatchedPrefix(org, mem, [Xt(Drop)], pend, Here() + 4);
      Comma(Xt(Drop));
      ghost var left := pend;
      ghost var end, goal := Here(), Patched(org, mem, pend, Here());
      NoCell(org, |mem|, left);
      while stack[0] != 0
        invariant stack == left + [0] + rest && Cells(org, |mem|, left) && Here() == end
        invariant Patched(org, mem, left, end) == goal
        invariant if left == [] then stack[0] == 0 else stack[0] == left[0] != 0
        decreases |left|
      {
        FirstCell(org, |mem|, left);
        PatchedStep(org, mem, left, end);
        assert stack[..1] == left[..1];
        CompileThen();
        left := left[1..];
        assert stack == left + [0] + rest;
        NoCell(org, |mem|, left);
      }
      PatchedNone(org, mem, end);
      stack := stack[1..];
    }

    method CompileDo()
      modifies `mem, `stack
      ensures mem == old(mem) + [Xt(PDo)] && stack == [0, old(Here()) + 4] + old(stack)
    {
      Comma(Xt(PDo));
      stack := [0, Here()] + stack;
    }

    /** loop and +loop, of a loop begun by DO and without LEAVE. */
    method CompileLoop(plus: bool)
      requires |stack| >= 2 && stack[0] == 0
      modifies `mem, `stack
      ensures |old(stack)| >= 2 && stack == old(stack)[2..]
      ensures mem == old(mem) + [Xt(LoopToken(plus)), Num(old(stack)[1] - old(Here()) - 4)]
    {
      Comma(Xt(LoopToken(plus)));
      // resolve-do, with the 0 of DO
      stack := stack[1..];
      Comma(Num(stack[0] - Here()));
      // resolve-leaves
      stack := stack[1..];
    }

    // ----- whole programs -----

    /** Compiles a structured program, word by word. */
    method Compile(p: Prog)
      requires Valid()
      modifies `mem, `stack
      ensures Valid() && mem == old(mem) + Code(p) && stack == old(stack)
      decreases p, 1
    {
      hide Code, ArmsCode;
      CodeOf(p);
      match p {
        case Skip =>
        case Seq(a, b) =>
          Compile(a);
          Compile(b);
        case Word(op) =>
          Comma(Xt(Prim(op)));
        case Literal(n) =>
          Comma(Xt(Lit));
          Comma(Num(n));
        case If(a) =>
          CompileIfThen(a);
        case IfElse(a, b) =>
          CompileIfElse(a, b);
        case BeginUntil(b) =>
          CompileBegin();
          Compile(b);
          CompileBack(ZBranch);
        case BeginAgain(b) =>
          CompileBegin();
          Compile(b);
          CompileBack(Branch);
        case BeginWhile(t, b) =>
          CompileWhileRepeat(t, b);
        case Case(arms) =>
          stack := [0] + stack;
          CompileArms(arms, [], old(stack));
        case DoLoop(b) =>
          CompileDo();
          Compile(b);
          CompileLoop(false);
        case DoPlusLoop(b) =>
          CompileDo();
          Compile(b);
          CompileLoop(true);
      }
    }

    method CompileIfThen(a: Prog)
      requires Valid()
      modifies `mem, `stack
      ensures Valid() && mem == old(mem) + IfCode(Code(a)) && stack == old(stack)
      decreases If(a), 0
    {
      hide Code, Cells;
      CompileIf();
      Compile(a);
      ghost var x := Here() - stack[0];
      CompileThen();
      Patch(old(mem), ZBranch, Code(a), x);
    }

    method CompileIfElse(a: Prog, b: Prog)
      requires Valid()
      modifies `mem, `stack
      ensures Valid() && mem == old(mem) + ElseCode(Code(a), Code(b)) && stack == old(stack)
      decreases IfElse(a, b), 0
    {
      hide Code, ElseCode, Cells;
      CompileIfPart(a);
      ghost var m1 := old(mem) + [Xt(ZBranch), Num(4 * (3 + |Code(a)|))] + Code(a);
      Compile(b);
      ghost var y := Here() - stack[0];
      OneCell(org, |mem|, stack[..1], |m1| + 1);
      CompileThen();
      Patch(m1, Branch, Code(b), y);
      ElseCells(old(mem), Code(a), Code(b));
    }

    /** IF yes ELSE: the branch at the end is left open. */
    method CompileIfPart(a: Prog)
      requires Valid()
      modifies `mem, `stack
      ensures Valid() && mem == old(mem) + [Xt(ZBranch), Num(4 * (3 + |Code(a)|))] + Code(a) + [Xt(Branch), Num(0)]
      ensures stack == [old(Here()) + 4 * (|Code(a)| + 3)] + old(stack)
      decreases a, 2
    {
      hide Code, Cells;
      CompileIf();
      Compile(a);
      ghost var x := Here() + 8 - stack[0];
      OneCell(org, |mem|, stack[..1], |old(mem)| + 1);
      CompileElse();
      Patch(old(mem), ZBranch, Code(a), x);
    }

    method CompileWhileRepeat(t: Prog, b: Prog)
      requires Valid()
      modifies `mem, `stack
      ensures Valid() && mem == old(mem) + WhileCode(Code(t), Code(b)) && stack == old(stack)
      decreases BeginWhile(t, b), 0
    {
      hide Code, WhileCode, Cells;
      CompileTest(t);
      Compile(b);
      OneCell(org, |mem|, stack[1..2], |old(mem)| + |Code(t)| + 1);
      ghost var x := Here() + 8 - stack[1];
      CompileRepeat();
      Patch(old(mem) + Code(t), ZBranch, Code(b), x);
      WhileCells(old(mem), Code(t), Code(b));
    }

    /** BEGIN test WHILE: the begin and the open branch behind the test are on the stack. */
    method CompileTest(t: Prog)
      requires Valid()
      modifies `mem, `stack
      ensures Valid() && mem == old(mem) + Code(t) + [Xt(ZBranch), Num(0)]
      ensures stack == [old(Here()), org + 4 * (|old(mem)| + |Code(t)| + 1)] + old(stack)
      decreases t, 2
    {
      hide Code, Cells;
      CompileBegin();
      Compile(t);
      CompileWhile();
    }

    /** Compiles the arms of a case that are left; `pend` are the addresses that ENDOF has left. */
    method CompileArms(arms: Arms, ghost pend: seq<int>, ghost rest: seq<int>)
      requires Valid() && stack == pend + [0] + rest && Cells(org, |mem|, pend)
      modifies `mem, `stack
      ensures Valid() && stack == rest
      ensures mem == Patched(org, old(mem), pend, old(Here()) + 4 * |ArmsCode(arms)|) + ArmsCode(arms)
      decreases arms, 2
    {
      hide Code, ArmsCode, Cells, Patched;
      ArmsOf(arms);
      ghost var m0 := mem;
      match arms {
        case Default(d) =>
          Compile(d);
          CellsMore(org, |m0|, |mem|, pend);
          CompileEndCase(pend, rest);
          PatchedPrefix(org, m0, Code(d), pend, org + 4 * (|m0| + |ArmsCode(arms)|));
        case Arm(t, b, others) =>
          CompileArm(t, b, others, pend, rest);
      }
    }

    method CompileArm(t: Prog, b: Prog, others: Arms, ghost pend: seq<int>, ghost rest: seq<int>)
      requires Valid() && stack == pend + [0] + rest && Cells(org, |mem|, pend)
      modifies `mem, `stack
      ensures Valid() && stack == rest
      ensures var code := ArmCode(Code(t), Code(b), ArmsCode(others));
              mem == Patched(org, old(mem), pend, old(Here()) + 4 * |code|) + code
      decreases Arm(t, b, others), 1
    {
      hide Code, ArmsCode, Cells, Patched, Front;
      ghost var m0 := mem;
      CompileGuarded(t, b, others);
      ghost var a := stack[0];
      assert stack == ([a] + pend) + [0] + rest;
      CellsMore(org, |m0|, |mem|, pend);
      MoreCells(org, |mem|, a, pend);
      CompileArms(others, [a] + pend, rest);
      ArmDone(org, m0, Code(t), Code(b), ArmsCode(others), a, pend);
    }

    /** test OF body ENDOF: the branch at the end is left open. */
    method CompileGuarded(t: Prog, b: Prog, ghost others: Arms)
      requires Valid()
      modifies `mem, `stack
      ensures Valid() && mem == old(mem) + Front(Code(t), Code(b)) + [Xt(Branch), Num(0)]
      ensures stack == [old(Here()) + 4 * (|Front(Code(t), Code(b))| + 1)] + old(stack)
      decreases Arm(t, b, others), 0
    {
      hide Code, Cells;
      ghost var m0 := mem;
      Compile(t);
      CompileOf();
      Compile(b);
      ghost var x := Here() + 8 - stack[0];
      HeadCells(m0, Code(t), Code(b));
      OneCell(org, |mem|, stack[..1], |m0| + |Code(t)| + 3);
      CompileElse();
      FrontCells(m0, Code(t), Code(b), x);
    }
  }

  /** An arm up to the branch at its end. */
  ghost function Front(t: seq<Cell>, b: seq<Cell>): (r: seq<Cell>)
    ensures |r| == |t| + |b| + 5
  {
    t + [Xt(Over), Xt(Equ)] + [Xt(ZBranch), Num(4 * (4 + |b|))] + ([Xt(Drop)] + b)
  }

  lemma FrontCells(m: seq<Cell>, t: seq<Cell>, b: seq<Cell>, x: int)
    requires x == 4 * (4 + |b|)
    ensures (m + (t + [Xt(Over), Xt(Equ)]) + [Xt(ZBranch), Num(0)] + ([Xt(Drop)] + b))[|m| + |t| + 3 := Num(x)] == m + Front(t, b)
  {
    var head, z, tail := t + [Xt(Over), Xt(Equ)], [Xt(ZBranch), Num(x)], [Xt(Drop)] + b;
    Patch(m + head, ZBranch, tail, x);
    Assoc(m, head, z);
    Assoc(m, head + z, tail);
  }

  /** The cells of an arm, once the branch at its end has been filled in. */
  lemma ArmDone(org: int, m0: seq<Cell>, t: seq<Cell>, b: seq<Cell>, rest: seq<Cell>, a: int, pend: seq<int>)
    requires a == org + 4 * (|m0| + |Front(t, b)| + 1) && Cells(org, |m0|, pend)
    ensures Patched(org, m0 + Front(t, b) + [Xt(Branch), Num(0)], [a] + pend, org + 4 * (|m0| + |Front(t, b)| + 2 + |rest|)) + rest
         == Patched(org, m0, pend, org + 4 * (|m0| + |ArmCode(t, b, rest)|)) + ArmCode(t, b, rest)
  {
    hide Cells, Patched;
    var front := Front(t, b);
    var end := org + 4 * (|m0| + |front| + 2 + |rest|);
    FirstPatch(org, m0 + front, a, pend, end);
    PatchedPrefix(org, m0, front + [Xt(Branch), Num(end - a)], pend, end);
    var j := [Xt(Branch), Num(4 * (1 + |rest|))];
    Assoc(m0, front, j);
    Assoc(Patched(org, m0, pend, end), front + j, rest);
    ArmCells(t, b, rest);
  }

  lemma HeadCells(m: seq<Cell>, t: seq<Cell>, b: seq<Cell>)
    ensures m + t + [Xt(Over), Xt(Equ), Xt(ZBranch), Num(0), Xt(Drop)] + b
         == m + (t + [Xt(Over), Xt(Equ)]) + [Xt(ZBranch), Num(0)] + ([Xt(Drop)] + b)
  {
    var z := [Xt(ZBranch), Num(0)];
    assert [Xt(Over), Xt(Equ), Xt(ZBranch), Num(0), Xt(Drop)] == [Xt(Over), Xt(Equ)] + (z + [Xt(Drop)]);
    Assoc(m + t, [Xt(Over), Xt(Equ)], z + [Xt(Drop)]);
    Assoc(m, t, [Xt(Over), Xt(Equ)]);
    Assoc(m + (t + [Xt(Over), Xt(Equ)]), z, [Xt(Drop)]);
    Assoc(m + (t + [Xt(Over), Xt(Equ)]) + z, [Xt(Drop)], b);
  }

  lemma WhileCells(m: seq<Cell>, t: seq<Cell>, b: seq<Cell>)
    ensures m + t + [Xt(ZBranch), Num(4 * (3 + |b|))] + b + [Xt(Branch), Num(-4 * (|t| + |b| + 3))] == m + WhileCode(t, b)
  {
    var z, j := [Xt(ZBranch), Num(4 * (3 + |b|))], [Xt(Branch), Num(-4 * (|t| + |b| + 3))];
    Assoc(m, t, z);
    Assoc(m, t + z, b);
    Assoc(m, t + z + b, j);
  }

  lemma ElseCells(m: seq<Cell>, a: seq<Cell>, b: seq<Cell>)
    ensures m + [Xt(ZBranch), Num(4 * (3 + |a|))] + a + [Xt(Branch), Num(4 * (1 + |b|))] + b == m + ElseCode(a, b)
  {
    var z, j := [Xt(ZBranch), Num(4 * (3 + |a|))], [Xt(Branch), Num(4 * (1 + |b|))];
    Assoc(m, z, a);
    Assoc(m, z + a, j);
    Assoc(m, z + a + j, b);
  }

  lemma ArmCells(t: seq<Cell>, b: seq<Cell>, rest: seq<Cell>)
    ensures t + [Xt(Over), Xt(Equ)] + [Xt(ZBranch), Num(4 * (4 + |b|))] + ([Xt(Drop)] + b) + [Xt(Branch), Num(4 * (1 + |rest|))] + rest
         == ArmCode(t, b, rest)
  {
    var z := [Xt(ZBranch), Num(4 * (4 + |b|))];
    Assoc(t, [Xt(Over), Xt(Equ)], z);
    Assoc(t + ([Xt(Over), Xt(Equ)] + z), [Xt(Drop)], b);
    Assoc(t, [Xt(Over), Xt(Equ)] + z, [Xt(Drop)]);
    assert [Xt(Over), Xt(Equ)] + z + [Xt(Drop)] == [Xt(Over), Xt(Equ), Xt(ZBranch), Num(4 * (4 + |b|)), Xt(Drop)];
  }

  lemma Assoc(a: seq<Cell>, b: seq<Cell>, c: seq<Cell>)
    ensures a + b + c == a + (b + c)
  {
  }

  lemma FirstCell(org: int, n: nat, pend: seq<int>)
    requires Cells(org, n, pend) && pend != []
    ensures Cells(org, n, pend[..1]) && Cells(org, n, pend[1..]) && pend[0] != 0 && 0 <= (pend[0] - org) / 4 < n
  {
    forall i | 0 <= i < |pend[1..]|
      ensures pend[1..][i] == pend[i + 1]
    {
    }
  }

  lemma NoCell(org: int, n: nat, pend: seq<int>)
    requires Cells(org, n, pend)
    ensures pend != [] ==> pend[0] != 0
  {
  }

  lemma PatchedStep(org: int, m: seq<Cell>, pend: seq<int>, end: int)
    requires pend != [] && 0 <= (pend[0] - org) / 4 < |m|
    ensures Patched(org, m, pend, end) == Patched(org, m[(pend[0] - org) / 4 := Num(end - pend[0])], pend[1..], end)
  {
  }

  lemma PatchedNone(org: int, m: seq<Cell>, end: int)
    ensures Patched(org, m, [], end) == m
  {
  }

  lemma CellsMore(org: int, n: nat, m: nat, pend: seq<int>)
    requires Cells(org, n, pend) && n <= m
    ensures Cells(org, m, pend)
  {
  }

  lemma OneCell(org: int, n: nat, pend: seq<int>, j: nat)
    requires org > 0 && j < n && pend == [org + 4 * j]
    ensures Cells(org, n, pend)
  {
  }

  lemma MoreCells(org: int, n: nat, a: int, pend: seq<int>)
    requires org > 0 && Cells(org, n, pend) && a >= org && (a - org) % 4 == 0 && (a - org) / 4 < n
    ensures Cells(org, n, [a] + pend)
  {
  }

  /** The newest pending branch is at the end of what has been compiled. */
  lemma FirstPatch(org: int, m: seq<Cell>, a: int, pend: seq<int>, end: int)
    requires a == org + 4 * (|m| + 1)
    ensures Patched(org, m + [Xt(Branch), Num(0)], [a] + pend, end) == Patched(org, m + [Xt(Branch), Num(end - a)], pend, end)
  {
    assert ([a] + pend)[1..] == pend;
    assert (m + [Xt(Branch), Num(0)])[|m| + 1 := Num(end - a)] == m + [Xt(Branch), Num(end - a)];
  }
}
