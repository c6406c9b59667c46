/** Loops (NODE_WHILE and NODE_UNTIL in `compile.c`), compiled and then optimised. */
module LoopPass {
  import opened Iseq
  import opened Peephole
  import opened PeepholePass
  import opened PeepholeClean
  import opened BranchCode
  import opened BranchPass

  // ---------------------------------------------------------------- the code of a loop

  /** NODE_WHILE and NODE_UNTIL, with labels 1 to 5 for next, redo, next_catch, end and break. */
  function LoopHead(body: Code): Code { [Jump(1), Op(0), Mark(3), Pop, Jump(1), Mark(2)] + body + [Mark(1)] }

  const LoopTail: Code := [Mark(4), Op(0), Mark(5), Leave]

  function LoopCondition(cond: Cond, until: bool): Output {
    if until then Compile(cond, 4, 2, 6) else Compile(cond, 2, 4, 6)
  }

  function Loop(cond: Cond, until: bool, body: Code): Code {
    LoopHead(body) + LoopCondition(cond, until).code + LoopTail
  }

  /** A loop over such a condition, with a body of opaque instructions, or with none if the condition starts with a
      leaf, is clean: its condition may be compiled and optimised where it stands. */
  lemma LoopIsClean(cond: Cond, until: bool, body: Code)
    requires Led(cond) && (forall i :: 0 <= i < |body| ==> body[i].Op?) && (body == [] ==> LeafFirst(cond))
    ensures var o, at := LoopCondition(cond, until), |LoopHead(body)|;
            && Placed(Loop(cond, until, body), at, o, 6)
            && CleanAround(Loop(cond, until, body), at, |o.code|, if until then 4 else 2, if until then 2 else 4)
    ensures Clean(Loop(cond, until, body))
  {
    hide Find, Skip, Compile, Solid, Guarded, Loop, LoopHead;
    var c, o, at := Loop(cond, until, body), LoopCondition(cond, until), |LoopHead(body)|;
    LoopPlaced(cond, until, body);
    LoopNextAndEnd(cond, until, body);
    LoopRedo(cond, until, body);
    forall i | 0 <= i < |c| && !(at <= i < at + |o.code|) ensures CleanAt(c, i) {
      if Targets(c[i]) {
        AimIs(c, i);
      }
    }
    LedClean(cond, if until then 4 else 2, if until then 2 else 4, 6, c, at);
  }

  /** The elements of a loop around its condition. */
  lemma LoopElements(cond: Cond, until: bool, body: Code)
    requires forall i :: 0 <= i < |body| ==> body[i].Op?
    ensures var c, o, at := Loop(cond, until, body), LoopCondition(cond, until), 7 + |body|;
            var end := at + |o.code|;
            && at == |LoopHead(body)| && |c| == end + 4
            && c[0] == Jump(1) && c[1] == Op(0) && c[2] == Mark(3) && c[3] == Pop && c[4] == Jump(1) && c[5] == Mark(2)
            && (forall i :: 6 <= i < at - 1 ==> c[i] == body[i - 6]) && c[at - 1] == Mark(1)
            && (forall i :: at <= i < end ==> c[i] == o.code[i - at])
            && c[end] == Mark(4) && c[end + 1] == Op(0) && c[end + 2] == Mark(5) && c[end + 3] == Leave
  {
    hide Compile;
  }

  /** Where the condition of a loop is; only the two jumps to the next label are outside it. */
  lemma LoopPlaced(cond: Cond, until: bool, body: Code)
    requires forall i :: 0 <= i < |body| ==> body[i].Op?
    ensures var c, o, at := Loop(cond, until, body), LoopCondition(cond, until), |LoopHead(body)|;
            && Placed(c, at, o, 6)
            && forall i :: 0 <= i < |c| && !(at <= i < at + |o.code|) && Targets(c[i]) ==> i < at - 1 && c[i] == Jump(1)
  {
    hide Compile, Loop, LoopHead;
    LoopElements(cond, until, body);
  }

  /** Where the next and the end label of a loop lead. */
  lemma LoopNextAndEnd(cond: Cond, until: bool, body: Code)
    requires forall i :: 0 <= i < |body| ==> body[i].Op?
    ensures var c := Loop(cond, until, body);
            && Find(c, 1) == |LoopHead(body)| - 1 && Dest(c, 1) < |c|
            && Dest(c, 4) < |c| && c[Dest(c, 4)].Op?
  {
    hide Find, Skip, Dest, Compile, Loop, LoopHead;
    var c, at := Loop(cond, until, body), |LoopHead(body)|;
    var end := at + |LoopCondition(cond, until).code|;
    LoopElements(cond, until, body);
    FindIs(c, 1, at - 1);
    DestBefore(c, 1, end + 1);
    LabelLeads(c, 4, end);
  }

  /** The redo label of a loop leads to its body, or to its condition. */
  lemma LoopRedo(cond: Cond, until: bool, body: Code)
    requires Led(cond) && (forall i :: 0 <= i < |body| ==> body[i].Op?) && (body == [] ==> LeafFirst(cond))
    ensures var c := Loop(cond, until, body); Dest(c, 2) < |c| && c[Dest(c, 2)].Op?
  {
    hide Find, Skip, Dest, Compile, Loop, LoopHead, Onward, Apart;
    var c := Loop(cond, until, body);
    LoopElements(cond, until, body);
    if body == [] {
      LedCompiles(cond, if until then 4 else 2, if until then 2 else 4, 6);
      assert c[7] == LoopCondition(cond, until).code[0];
      FindIs(c, 2, 5);
      DestIs(c, 2, 7);
    } else {
      LabelLeads(c, 2, 5);
    }
  }

  lemma DestBefore(c: Code, l: Label, j: nat)
    requires Find(c, l) <= j < |c| && !c[j].Mark?
    ensures Dest(c, l) <= j
  {
    hide Find;
  }

  // ---------------------------------------------------------------- what a loop means

  /** The machine state and the trace of opaque instructions. */
  datatype Point<S> = Point(s: S, trace: seq<int>)

  function RunBody<S(!new)>(body: Code, env: Env<S>, p: Point<S>): Point<S>
    requires forall i :: 0 <= i < |body| ==> body[i].Op?
  {
    if body == [] then p
    else RunBody(body[1..], env, Point(env.exec(body[0].id, p.s), p.trace + [body[0].id]))
  }

  /** Where the condition is evaluated after n rounds. */
  function Round<S(!new)>(cond: Cond, body: Code, env: Env<S>, p: Point<S>, n: nat): Point<S>
    requires forall i :: 0 <= i < |body| ==> body[i].Op?
    decreases n
  {
    if n == 0 then p
    else
      var q := Round(cond, body, env, p, n - 1);
      var v := Eval(cond, env, q.s, q.trace);
      RunBody(body, env, Point(v.s, v.trace))
  }

  predicate GoesOn<S(!new)>(cond: Cond, until: bool, env: Env<S>, p: Point<S>) {
    Eval(cond, env, p.s, p.trace).holds != until
  }

  /** What a loop leaves that ends at p: its value is nil. */
  function Left<S(!new)>(cond: Cond, env: Env<S>, p: Point<S>): Config<S> {
    var v := Eval(cond, env, p.s, p.trace);
    Returned(env.exec(0, v.s), v.trace + [0])
  }

  /** The loop goes on for n rounds and then ends. */
  ghost predicate EndsAfter<S(!new)>(cond: Cond, until: bool, body: Code, env: Env<S>, p: Point<S>, n: nat)
    requires forall i :: 0 <= i < |body| ==> body[i].Op?
  {
    && (forall k :: 0 <= k < n ==> GoesOn(cond, until, env, Round(cond, body, env, p, k)))
    && !GoesOn(cond, until, env, Round(cond, body, env, p, n))
  }

  /** Straight code runs to its end. */
  lemma {:induction false} Straight<S(!new)>(c: Code, env: Env<S>, pc: nat, body: Code, p: Point<S>)
    requires (forall i :: 0 <= i < |body| ==> body[i].Op?) && pc + |body| <= |c|
    requires forall i :: 0 <= i < |body| ==> c[pc + i] == body[i]
    ensures var q := RunBody(body, env, p);
            Steps(c, env, At(pc, p.s, p.trace), |body|) == At(pc + |body|, q.s, q.trace)
    decreases |body|
  {
    hide Find;
    if body != [] {
      assert c[pc] == body[0];
      forall i | 0 <= i < |body| - 1 ensures c[pc + 1 + i] == body[1..][i] {
        assert c[pc + (i + 1)] == body[i + 1];
      }
      Straight(c, env, pc + 1, body[1..], Point(env.exec(body[0].id, p.s), p.trace + [body[0].id]));
    }
  }

  lemma Enter<S(!new)>(cond: Cond, until: bool, body: Code, env: Env<S>, p: Point<S>)
    requires forall i :: 0 <= i < |body| ==> body[i].Op?
    ensures Steps(Loop(cond, until, body), env, At(0, p.s, p.trace), 2) == At(|LoopHead(body)|, p.s, p.trace)
  {
    hide Find, Skip, Dest, Compile, Loop, LoopHead;
    LoopElements(cond, until, body);
    LoopNextAndEnd(cond, until, body);
    var c, x := Loop(cond, until, body), At(0, p.s, p.trace);
    assert Steps(c, env, x, 2) == Step(c, env, Step(c, env, x));
  }

  /** The condition leads to the redo label as long as the loop goes on, and otherwise to the end label. */
  lemma Decides<S(!new)>(cond: Cond, until: bool, body: Code, env: Env<S>, p: Point<S>) returns (n: nat)
    requires forall i :: 0 <= i < |body| ==> body[i].Op?
    ensures var c, v := Loop(cond, until, body), Eval(cond, env, p.s, p.trace);
            Steps(c, env, At(|LoopHead(body)|, p.s, p.trace), n) ==
            At(Find(c, if GoesOn(cond, until, env, p) then 2 else 4), v.s, v.trace)
  {
    hide Find, Compile, Loop, LoopHead, Eval, Steps, Placed;
    LoopPlaced(cond, until, body);
    n := CompileCorrect(cond, if until then 4 else 2, if until then 2 else 4, 6, Loop(cond, until, body),
                        |LoopHead(body)|, env, p.s, p.trace);
  }

  lemma GoesRound<S(!new)>(cond: Cond, until: bool, body: Code, env: Env<S>, p: Point<S>) returns (n: nat)
    requires (forall i :: 0 <= i < |body| ==> body[i].Op?) && GoesOn(cond, until, env, p)
    ensures n > 0
    ensures var q := Round(cond, body, env, p, 1);
            Steps(Loop(cond, until, body), env, At(|LoopHead(body)|, p.s, p.trace), n) ==
            At(|LoopHead(body)|, q.s, q.trace)
  {
    hide Find, Compile, Loop, LoopHead, Eval, Steps, RunBody;
    var c, x := Loop(cond, until, body), At(|LoopHead(body)|, p.s, p.trace);
    var v := Eval(cond, env, p.s, p.trace);
    var q := RunBody(body, env, Point(v.s, v.trace));
    var m := Decides(cond, until, body, env, p);
    LoopElements(cond, until, body);
    FindIs(c, 2, 5);
    One(c, env, At(5, v.s, v.trace));
    Straight(c, env, 6, body, Point(v.s, v.trace));
    One(c, env, At(6 + |body|, q.s, q.trace));
    StepsAdd(c, env, x, m, 1);
    StepsAdd(c, env, x, m + 1, |body|);
    StepsAdd(c, env, x, m + 1 + |body|, 1);
    n := m + 1 + |body| + 1;
    assert Round(cond, body, env, p, 0) == p;
  }

  lemma Exit<S(!new)>(cond: Cond, until: bool, body: Code, env: Env<S>, p: Point<S>) returns (n: nat)
    requires (forall i :: 0 <= i < |body| ==> body[i].Op?) && !GoesOn(cond, until, env, p)
    ensures Steps(Loop(cond, until, body), env, At(|LoopHead(body)|, p.s, p.trace), n) == Left(cond, env, p)
  {
    hide Find, Compile, Loop, LoopHead, Eval, Steps;
    var c, x := Loop(cond, until, body), At(|LoopHead(body)|, p.s, p.trace);
    var v := Eval(cond, env, p.s, p.trace);
    var m := Decides(cond, until, body, env, p);
    LoopElements(cond, until, body);
    var end := |LoopHead(body)| + |LoopCondition(cond, until).code|;
    FindIs(c, 4, end);
    TailReturns(c, env, end, Point(v.s, v.trace));
    StepsAdd(c, env, x, m, 4);
    n := m + 4;
  }

  lemma TailReturns<S(!new)>(c: Code, env: Env<S>, end: nat, p: Point<S>)
    requires |c| == end + 4 && c[end..] == LoopTail
    ensures Steps(c, env, At(end, p.s, p.trace), 4) == Returned(env.exec(0, p.s), p.trace + [0])
  {
    hide Find;
    assert c[end] == c[end..][0] && c[end + 1] == c[end..][1] && c[end + 2] == c[end..][2] && c[end + 3] == c[end..][3];
    var x := At(end, p.s, p.trace);
    assert Steps(c, env, x, 4) == Step(c, env, Step(c, env, Step(c, env, Step(c, env, x))));
  }

  /** As long as it goes on, the run comes back to the condition, after ever more steps. */
  lemma {:induction false} Rounds<S(!new)>(cond: Cond, until: bool, body: Code, env: Env<S>, p: Point<S>, n: nat)
      returns (m: nat)
    requires forall i :: 0 <= i < |body| ==> body[i].Op?
    requires forall k :: 0 <= k < n ==> GoesOn(cond, until, env, Round(cond, body, env, p, k))
    ensures m > n
    ensures var q := Round(cond, body, env, p, n);
            Steps(Loop(cond, until, body), env, At(0, p.s, p.trace), m) == At(|LoopHead(body)|, q.s, q.trace)
    decreases n
  {
    hide Loop, LoopHead, Steps, GoesOn, Eval, RunBody;
    if n == 0 {
      m := 2;
      Enter(cond, until, body, env, p);
    } else {
      var i := Rounds(cond, until, body, env, p, n - 1);
      var q := Round(cond, body, env, p, n - 1);
      var j := GoesRound(cond, until, body, env, q);
      assert Round(cond, body, env, q, 0) == q;
      StepsAdd(Loop(cond, until, body), env, At(0, p.s, p.trace), i, j);
      m := i + j;
    }
  }

  /** The code of a loop returns exactly when the loop ends, with what it leaves. */
  lemma LoopReturns<S(!new)>(cond: Cond, until: bool, body: Code, env: Env<S>, p: Point<S>, o: Obs<S>)
    requires (forall i :: 0 <= i < |body| ==> body[i].Op?) && o.returned
    ensures Observed(Loop(cond, until, body), env, At(0, p.s, p.trace), o) <==>
            exists n: nat ::
              EndsAfter(cond, until, body, env, p, n) && o == Seen(Left(cond, env, Round(cond, body, env, p, n)))
  {
    hide Loop, Steps, GoesOn, Eval, Round;
    var c, x := Loop(cond, until, body), At(0, p.s, p.trace);
    if n: nat :| EndsAfter(cond, until, body, env, p, n) && o == Seen(Left(cond, env, Round(cond, body, env, p, n))) {
      var m := Ends(cond, until, body, env, p, n);
      assert Seen(Steps(c, env, x, m)) == o;
    }
    if Observed(c, env, x, o) {
      var m: nat :| Seen(Steps(c, env, x, m)) == o;
      if forall k :: 0 <= k < m ==> GoesOn(cond, until, env, Round(cond, body, env, p, k)) {
        var i := Rounds(cond, until, body, env, p, m);
        StepsAdd(c, env, x, m, i - m);
        StaysReturned(c, env, Steps(c, env, x, m), i - m);
        assert false;
      } else {
        var n := FirstEnd(cond, until, body, env, p, m);
        var i := Ends(cond, until, body, env, p, n);
        ReturnsOnce(c, env, x, m, i);
      }
    }
  }

  lemma Ends<S(!new)>(cond: Cond, until: bool, body: Code, env: Env<S>, p: Point<S>, n: nat) returns (m: nat)
    requires (forall i :: 0 <= i < |body| ==> body[i].Op?) && EndsAfter(cond, until, body, env, p, n)
    ensures Steps(Loop(cond, until, body), env, At(0, p.s, p.trace), m) == Left(cond, env, Round(cond, body, env, p, n))
  {
    hide Loop, LoopHead, Steps, GoesOn, Eval, Round;
    var i := Rounds(cond, until, body, env, p, n);
    var j := Exit(cond, until, body, env, Round(cond, body, env, p, n));
    StepsAdd(Loop(cond, until, body), env, At(0, p.s, p.trace), i, j);
    m := i + j;
  }

  lemma {:induction false} FirstEnd<S(!new)>(cond: Cond, until: bool, body: Code, env: Env<S>, p: Point<S>, m: nat)
      returns (n: nat)
    requires forall i :: 0 <= i < |body| ==> body[i].Op?
    requires exists k :: 0 <= k < m && !GoesOn(cond, until, env, Round(cond, body, env, p, k))
    ensures EndsAfter(cond, until, body, env, p, n)
    decreases m
  {
    hide GoesOn, Round;
    if k :| 0 <= k < m - 1 && !GoesOn(cond, until, env, Round(cond, body, env, p, k)) {
      n := FirstEnd(cond, until, body, env, p, m - 1);
    } else {
      n := m - 1;
    }
  }

  /** Compiled and optimised, a loop over such a condition returns exactly when the loop ends, with what it leaves. */
  method CompileLoop<S(!new)>(cond: Cond, until: bool, body: Code) returns (list: InsnList)
    requires Led(cond) && (forall i :: 0 <= i < |body| ==> body[i].Op?) && (body == [] ==> LeafFirst(cond))
    ensures forall env: Env<S>, p: Point<S>, o: Obs<S> :: o.returned ==>
              (Observed(list.code, env, At(0, p.s, p.trace), o) <==>
               exists n: nat ::
                 EndsAfter(cond, until, body, env, p, n) && o == Seen(Left(cond, env, Round(cond, body, env, p, n))))
  {
    hide Observed, Placed, CleanAround, Loop, LoopHead, GoesOn, Eval, Round, EndsAfter, SameRuns;
    LoopIsClean(cond, until, body);
    var o := LoopCondition(cond, until);
    LoopIs(cond, until, body);
    list := CompileAndOptimize<S>(LoopHead(body), cond, if until then 4 else 2, if until then 2 else 4, 6, LoopTail);
    forall env: Env<S>, p: Point<S>, o: Obs<S> | o.returned
      ensures Observed(list.code, env, At(0, p.s, p.trace), o) <==>
              exists n: nat ::
                EndsAfter(cond, until, body, env, p, n) && o == Seen(Left(cond, env, Round(cond, body, env, p, n)))
    {
      LoopReturns(cond, until, body, env, p, o);
      SameShown(Loop(cond, until, body), list.code, env, p, o);
    }
  }

  lemma LoopIs(cond: Cond, until: bool, body: Code)
    ensures Loop(cond, until, body) ==
            LoopHead(body) + Compile(cond, if until then 4 else 2, if until then 2 else 4, 6).code + LoopTail
  {
  }

  lemma SameShown<S(!new)>(c: Code, d: Code, env: Env<S>, p: Point<S>, o: Obs<S>)
    requires Equivalent<S>(c, d)
    ensures Observed(c, env, At(0, p.s, p.trace), o) <==> Observed(d, env, At(0, p.s, p.trace), o)
  {
    hide Observed;
    assert SameRuns(c, 0, d, 0, env);
  }

  // ---------------------------------------------------------------- nested loops

  /** `while a; while b; x; end; end` as NODE_WHILE compiles it; the outer loop's last jump goes back to the jump that
      opens the inner one. */
  const NestedWhile: Code :=
    [ Jump(1), Op(0), Mark(3), Pop, Jump(1), Mark(2),
      Jump(11), Op(0), Mark(13), Pop, Jump(11), Mark(12), Op(7),
      Mark(11), Op(8), BranchUnless(14), Jump(12), Mark(14), Op(0), Mark(15), Pop,
      Mark(1), Op(9), BranchUnless(4), Jump(2), Mark(4), Op(0), Mark(5), Leave]

  lemma NestedWhileGoes()
    ensures var c := NestedWhile;
            && Dest(c, 1) == 22 && Dest(c, 2) == 6 && Dest(c, 11) == 14
            && Dest(c, 12) == 12 && Dest(c, 14) == 18 && Dest(c, 4) == 26
  {
    hide Find, Skip, Dest;
    var c := NestedWhile;
    LabelLeads(c, 1, 21);
    LabelLeads(c, 2, 5);
    LabelLeads(c, 11, 13);
    NestedWhileGoesOn();
  }

  lemma NestedWhileGoesOn()
    ensures var c := NestedWhile; Dest(c, 12) == 12 && Dest(c, 14) == 18 && Dest(c, 4) == 26
  {
    hide Find, Skip, Dest;
    var c := NestedWhile;
    LabelLeads(c, 12, 11);
    LabelLeads(c, 14, 17);
    LabelLeads(c, 4, 25);
  }

  lemma LabelLeads(c: Code, l: Label, f: nat)
    requires f + 1 < |c| && c[f] == Mark(l) && !c[f + 1].Mark? && forall j :: 0 <= j < f ==> c[j] != Mark(l)
    ensures Dest(c, l) == f + 1
  {
    hide Find;
    FindIs(c, l, f);
    DestIs(c, l, f + 1);
  }

  /** It is clean, so that the pass ends and keeps its runs. */
  lemma NestedWhileIsClean()
    ensures Clean(NestedWhile)
  {
    hide Dest, CleanAt;
    var c := NestedWhile;
    NestedWhileGoes();
    FirstIsGuarded(c, 6);
    forall i | 0 <= i < |c| ensures CleanAt(c, i) {
      CleanWhen(c, i, if i == 24 then 14 else 0);
    }
  }

  /** An instruction that goes to no jump, or to a guarded one that goes to d, which is none. */
  lemma CleanWhen(c: Code, i: nat, d: nat)
    requires i < |c| && (Targets(c[i]) ==> Dest(c, c[i].to) < |c|)
    requires Targets(c[i]) && c[Dest(c, c[i].to)].Jump? ==>
               Guarded(c, Dest(c, c[i].to)) && Dest(c, c[Dest(c, c[i].to)].to) == d < |c| && !c[d].Jump?
    ensures CleanAt(c, i)
  {
    hide Find, Skip, Guarded;
  }

  lemma FirstIsGuarded(c: Code, j: nat)
    requires j <= |c| && forall p :: 0 <= p < j ==> !Branch(c[p])
    ensures Guarded(c, j)
  {
  }
}
