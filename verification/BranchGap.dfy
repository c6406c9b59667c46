/** A condition that compile_branch_condition and the peephole pass (`compile.c`) get wrong together:
    `if a || (true || c) then else d end`. */
module BranchGap {
  import opened Iseq
  import opened Peephole
  import opened PeepholePass
  import opened BranchCode

  const Condition: Cond := Or(Leaf(1), Or(Truthy, Leaf(3)))

  /** NODE_IF with an empty then branch: the else branch is instruction 4, and 5 comes after the statement. */
  const Tail: Code := [Mark(100), Jump(102), Mark(101), Op(4), Mark(102), Op(5), Leave]

  const Start: Code :=
    [ Op(1), BranchUnless(0), Jump(100), Mark(0), Jump(100), Mark(1), Op(3), BranchUnless(101), Jump(100),
      Mark(100), Jump(102), Mark(101), Op(4), Mark(102), Op(5), Leave]

  lemma Compiled()
    ensures Compile(Condition, 100, 101, 0).code + Tail == Start
  {
    var l1, l3 := Compile(Leaf(1), 100, 0, 1), Compile(Leaf(3), 100, 101, 2);
    assert l1.code == [Op(1), BranchUnless(0), Jump(100)] && l3.code == [Op(3), BranchUnless(101), Jump(100)];
    assert Compile(Or(Truthy, Leaf(3)), 100, 101, 1) == Output([Jump(100)] + [Mark(1)] + l3.code, 2);
    assert Compile(Condition, 100, 101, 0) == Output(l1.code + [Mark(0)] + ([Jump(100)] + [Mark(1)] + l3.code), 2);
  }

  // ---------------------------------------------------------------- the pass, step by step

  /** A branch whose label leads to instruction d. */
  lemma TurnBranch(c: Code, at: nat, f: nat, d: nat)
    requires at < |c| && Branch(c[at]) && Find(c, c[at].to) == f <= d < |c| && !c[d].Mark?
    requires forall k :: f <= k < d ==> c[k].Mark?
    ensures Dest(c, c[at].to) == d
    ensures Turn(Pass(c, at)) == Pass(if c[d].Jump? then c[at := WithTarget(c[at], c[d].to)] else c, at + 1)
  {
    hide Find;
    DestIs(c, c[at].to, d);
  }

  /** A jump whose label leads to d, with n the next instruction and p the one before. */
  lemma TurnJump(c: Code, at: nat, f: nat, d: nat, n: nat, p: nat)
    requires at < |c| && c[at].Jump? && Find(c, c[at].to) == f <= d < |c| && !c[d].Mark?
    requires forall k :: f <= k < d ==> c[k].Mark?
    requires at < n < |c| && !c[n].Mark? && forall k :: at < k < n ==> c[k].Mark?
    requires p < at && !c[p].Mark? && forall k :: p < k < at ==> c[k].Mark?
    ensures Turn(Pass(c, at)) ==
            if d == n then Pass(Delete(c, at), at)
            else if d != at && c[d].Jump? then
              (if c[d].to != c[at].to then Pass(c[at := Jump(c[d].to)], at) else Pass(c, at + 1))
            else if c[d].Leave? then Pass(c[..at] + [Leave, Pop] + c[at + 1..], at + 2)
            else if Branch(c[p]) && Dest(c, c[p].to) == n then Pass(Inverted(c, p, at), at) else Pass(c, at + 1)
  {
    hide Find, Skip, Dest, Prev;
    DestIs(c, c[at].to, d);
    assert Next(c, at) == n && Prev(c, at) == p;
  }

  lemma Stays(c: Code, at: nat)
    requires at < |c| && !Targets(c[at])
    ensures Turn(Pass(c, at)) == Pass(c, at + 1)
  {
  }

  /** The code with the first branch sent on, with both jumps sent on, without the last jump, and at the end. */
  const First: Code := Start[1 := BranchUnless(100)]

  const Second: Code := First[2 := Jump(102)]

  const Third: Code := Second[4 := Jump(102)]

  const Fourth: Code :=
    [ Op(1), BranchUnless(100), Jump(102), Mark(0), Jump(102), Mark(1), Op(3), BranchUnless(101),
      Mark(100), Jump(102), Mark(101), Op(4), Mark(102), Op(5), Leave]

  const End: Code :=
    [ Op(1), BranchUnless(100), Jump(102), Mark(0), Jump(102), Mark(1), Op(3), BranchIf(102),
      Mark(100), Mark(101), Op(4), Mark(102), Op(5), Leave]

  lemma FirstTurns()
    ensures Turns(Pass(Start, 0), 2) == Pass(First, 2)
  {
    hide Find, Skip, Dest, Turn;
    Stays(Start, 0);
    FindIs(Start, 0, 3);
    TurnBranch(Start, 1, 3, 4);
    assert Turns(Pass(Start, 0), 2) == Turns(Pass(Start, 1), 1);
  }

  lemma SecondTurns()
    ensures Turns(Pass(First, 2), 3) == Pass(Second, 4)
  {
    hide Find, Skip, Dest, Turn, Delete, Inverted;
    FindIs(First, 100, 9);
    TurnJump(First, 2, 9, 10, 4, 1);
    FindIs(Second, 100, 9);
    FindIs(Second, 102, 13);
    TurnBranch(Second, 1, 9, 10);
    TurnJump(Second, 2, 13, 14, 4, 1);
    Stays(Second, 3);
    assert Turns(Pass(First, 2), 3) == Turns(Pass(Second, 2), 2) == Turns(Pass(Second, 3), 1);
  }

  lemma ThirdTurns()
    ensures Turns(Pass(Second, 4), 4) == Pass(Third, 7)
  {
    hide Find, Skip, Dest, Turn, Delete, Inverted;
    FindIs(Second, 100, 9);
    TurnJump(Second, 4, 9, 10, 6, 2);
    FindIs(Third, 102, 13);
    TurnJump(Third, 4, 13, 14, 6, 2);
    Stays(Third, 5);
    Stays(Third, 6);
    assert Turns(Pass(Second, 4), 4) == Turns(Pass(Third, 4), 3) == Turns(Pass(Third, 5), 2) ==
           Turns(Pass(Third, 6), 1);
  }

  lemma WithoutLastJump()
    ensures Delete(Third, 8) == Fourth
  {
  }

  lemma FourthTurns()
    ensures Turns(Pass(Third, 7), 2) == Pass(Fourth, 8)
  {
    hide Find, Skip, Dest, Turn, Delete, Inverted;
    FindIs(Third, 101, 11);
    TurnBranch(Third, 7, 11, 12);
    FindIs(Third, 100, 9);
    TurnJump(Third, 8, 9, 10, 10, 7);
    WithoutLastJump();
    assert Turns(Pass(Third, 7), 2) == Turns(Pass(Third, 8), 1);
  }

  /** The inversion, with label 100 between branch and jump, where the first branch goes. */
  lemma LastTurns()
    ensures Turns(Pass(Fourth, 8), 2) == Pass(End, 9)
  {
    hide Find, Skip, Dest, Turn;
    Stays(Fourth, 8);
    FindIs(Fourth, 102, 12);
    FindIs(Fourth, 101, 10);
    TurnBranch(Fourth, 7, 10, 11);
    TurnJump(Fourth, 9, 12, 13, 11, 7);
    assert Inverted(Fourth, 7, 9) == End;
    assert Turns(Pass(Fourth, 8), 2) == Turns(Pass(Fourth, 9), 1);
  }

  /** The rest stays as it is. */
  lemma EndTurns()
    ensures Turns(Pass(End, 9), 5) == Pass(End, |End|)
  {
    hide Turn;
    Stays(End, 9);
    Stays(End, 10);
    Stays(End, 11);
    Stays(End, 12);
    Stays(End, 13);
    assert Turns(Pass(End, 9), 5) == Turns(Pass(End, 10), 4) == Turns(Pass(End, 11), 3) == Turns(Pass(End, 12), 2);
  }

  /** What the pass makes of the compiled condition, from its first element to its last. */
  lemma PassMakes()
    ensures Turns(Pass(Compile(Condition, 100, 101, 0).code + Tail, 0), 18) == Pass(End, |End|)
  {
    hide Turn, Turns, Compile;
    Compiled();
    FirstTurns();
    SecondTurns();
    ThirdTurns();
    FourthTurns();
    LastTurns();
    TurnsJoin(Pass(Start, 0), 2, 3);
    TurnsJoin(Pass(Start, 0), 5, 4);
    TurnsJoin(Pass(Start, 0), 9, 2);
    TurnsJoin(Pass(Start, 0), 11, 2);
    EndTurns();
    TurnsJoin(Pass(Start, 0), 13, 5);
  }

  // ---------------------------------------------------------------- the two codes run differently

  lemma StartReturns<S(!new)>(env: Env<S>, s: S, t: seq<int>)
    requires !env.truthy(env.exec(1, s))
    ensures Steps(Start, env, At(0, s, t), 9) == Returned(env.exec(5, env.pop(env.exec(1, s))), t + [1] + [5])
  {
    hide Find, Steps;
    var s1 := env.pop(env.exec(1, s));
    StartBranches(env, s, t);
    StartLeaves(env, s1, t + [1]);
    StepsAdd(Start, env, At(0, s, t), 4, 5);
  }

  lemma StartBranches<S(!new)>(env: Env<S>, s: S, t: seq<int>)
    requires !env.truthy(env.exec(1, s))
    ensures Steps(Start, env, At(0, s, t), 4) == At(9, env.pop(env.exec(1, s)), t + [1])
  {
    hide Find;
    FindIs(Start, 0, 3);
    FindIs(Start, 100, 9);
  }

  lemma StartLeaves<S(!new)>(env: Env<S>, s: S, t: seq<int>)
    ensures Steps(Start, env, At(9, s, t), 5) == Returned(env.exec(5, s), t + [5])
  {
    hide Find;
    FindIs(Start, 102, 13);
  }

  lemma EndReturns<S(!new)>(env: Env<S>, s: S, t: seq<int>)
    requires !env.truthy(env.exec(1, s))
    ensures Steps(End, env, At(0, s, t), 8) ==
            Returned(env.exec(5, env.exec(4, env.pop(env.exec(1, s)))), t + [1] + [4] + [5])
  {
    hide Find, Steps;
    var s1 := env.pop(env.exec(1, s));
    EndBranches(env, s, t);
    EndLeaves(env, s1, t + [1]);
    StepsAdd(End, env, At(0, s, t), 2, 6);
  }

  lemma EndBranches<S(!new)>(env: Env<S>, s: S, t: seq<int>)
    requires !env.truthy(env.exec(1, s))
    ensures Steps(End, env, At(0, s, t), 2) == At(8, env.pop(env.exec(1, s)), t + [1])
  {
    hide Find;
    FindIs(End, 100, 8);
  }

  lemma EndLeaves<S(!new)>(env: Env<S>, s: S, t: seq<int>)
    ensures Steps(End, env, At(8, s, t), 6) == Returned(env.exec(5, env.exec(4, s)), t + [4] + [5])
  {
    hide Find;
  }

  /** When a is falsy the statement does nothing before the pass; after it, it runs its else branch. */
  lemma PassIsWrong<S(!new)>(env: Env<S>, s: S)
    requires !env.truthy(env.exec(1, s))
    ensures !SameRuns(Compile(Condition, 100, 101, 0).code + Tail, 0, End, 0, env)
  {
    hide Steps, Step, Find, Compile;
    Compiled();
    StartReturns(env, s, []);
    EndReturns(env, s, []);
    var x := At(0, s, []);
    var o := Seen(Steps(Start, env, x, 9));
    assert Observed(Start, env, x, o);
    forall n: nat ensures Seen(Steps(End, env, x, n)) != o {
      if Steps(End, env, x, n).Returned? {
        ReturnsOnce(End, env, x, n, 8);
      }
    }
  }
}
