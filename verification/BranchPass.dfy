/** compile_branch_condition followed by the peephole pass (`compile.c`): for which conditions the two together
    are right. `BranchGap` has one for which they are not. */
module BranchPass {
  import opened Iseq
  import opened Peephole
  import opened PeepholePass
  import opened PeepholeClean
  import opened BranchCode

  // ---------------------------------------------------------------- conditions that are safe

  /** The first thing evaluated is a leaf. */
  predicate LeafFirst(cond: Cond) {
    match cond
    case And(first, _) => LeafFirst(first)
    case Or(first, _) => LeafFirst(first)
    case Leaf(_) => true
    case _ => false
  }

  /** No second operand starts with a literal. */
  predicate Led(cond: Cond) {
    match cond
    case And(first, second) => Led(first) && Led(second) && LeafFirst(second)
    case Or(first, second) => Led(first) && Led(second) && LeafFirst(second)
    case _ => true
  }

  /** Instruction i of the code goes to one of the two labels outside, or on to a label with an opaque instruction. */
  ghost predicate Onward(code: Code, then_: Label, else_: Label, i: nat) {
    i < |code| && Targets(code[i]) ==>
      || code[i].to == else_
      || (code[i].to == then_ && code[i].Jump?)
      || exists k :: i < k < |code| - 1 && LeadsToOp(code, k, code[i].to)
  }

  predicate LeadsToOp(code: Code, k: nat, l: Label) { k + 1 < |code| && code[k] == Mark(l) && code[k + 1].Op? }

  /** The marks of the code have different names. */
  ghost predicate Apart(code: Code) { forall i, j :: 0 <= i < j < |code| && code[i].Mark? ==> code[i] != code[j] }

  ghost predicate LedOutput(o: Output, then_: Label, else_: Label) {
    o.code != [] && Apart(o.code) && forall i: nat :: i < |o.code| ==> Onward(o.code, then_, else_, i)
  }

  /** Two such outputs with a fresh label between them, which the first may use as one of its two. */
  lemma JoinLed(a: Output, b: Output, next: Label, t1: Label, e1: Label, then_: Label, else_: Label)
    requires LedOutput(a, t1, e1) && LedOutput(b, then_, else_) && b.code[0].Op? && next < a.next
    requires (t1 == next && e1 == else_) || (t1 == then_ && e1 == next)
    requires forall i :: 0 <= i < |a.code| && a.code[i].Mark? ==> next < a.code[i].name < a.next
    requires forall i :: 0 <= i < |b.code| && b.code[i].Mark? ==> a.next <= b.code[i].name
    ensures LedOutput(Output(a.code + [Mark(next)] + b.code, b.next), then_, else_)
  {
    var code, n := a.code + [Mark(next)] + b.code, |a.code|;
    assert LeadsToOp(code, n, next);
    forall i: nat | i < |code| ensures Onward(code, then_, else_, i) {
      if i < n && Targets(code[i]) {
        assert Onward(a.code, t1, e1, i);
        if k: nat :| i < k < n - 1 && LeadsToOp(a.code, k, a.code[i].to) {
          assert LeadsToOp(code, k, code[i].to);
        }
      } else if i > n && Targets(code[i]) {
        var l := code[i].to;
        assert Onward(b.code, then_, else_, i - n - 1);
        if k: nat :| i - n - 1 < k < |b.code| - 1 && LeadsToOp(b.code, k, l) {
          assert LeadsToOp(code, n + 1 + k, code[i].to);
        }
      }
    }
  }

  lemma {:induction false} LedCompiles(cond: Cond, then_: Label, else_: Label, next: Label)
    requires Led(cond)
    ensures var o := Compile(cond, then_, else_, next);
            LedOutput(o, then_, else_) && (LeafFirst(cond) ==> o.code[0].Op?)
    decreases cond
  {
    hide LedOutput;
    match cond
    case And(first, second) =>
      LedCompiles(first, next, else_, next + 1);
      var a := Compile(first, next, else_, next + 1);
      LedCompiles(second, then_, else_, a.next);
      JoinLed(a, Compile(second, then_, else_, a.next), next, next, else_, then_, else_);
    case Or(first, second) =>
      LedCompiles(first, then_, next, next + 1);
      var a := Compile(first, then_, next, next + 1);
      LedCompiles(second, then_, else_, a.next);
      JoinLed(a, Compile(second, then_, else_, a.next), next, then_, next, then_, else_);
    case Truthy => OneLed([Jump(then_)], then_, else_, next);
    case Falsy => OneLed([Jump(else_)], then_, else_, next);
    case Leaf(id) => OneLed([Op(id), BranchUnless(else_), Jump(then_)], then_, else_, next);
  }

  lemma OneLed(code: Code, then_: Label, else_: Label, next: Label)
    requires code == [Jump(then_)] || code == [Jump(else_)]
             || (|code| == 3 && code[0].Op? && code[1] == BranchUnless(else_) && code[2] == Jump(then_))
    ensures LedOutput(Output(code, next), then_, else_)
  {
  }

  /** A label that can be branched or jumped to from `to` or before: it leads to no jump, or to a solid one, or it lies
      behind `to` and a branch to it goes through no more than one jump that is not solid. */
  ghost predicate GoodLabel(prog: Code, to: nat, l: Label, branch: bool) {
    var d := Dest(prog, l);
    && d < |prog|
    && (prog[d].Jump? ==>
          || Solid(prog, d)
          || (to <= Find(prog, l) && (branch && ToJump(prog, d) ==> Solid(prog, Goes(prog, d)))))
  }

  /** What the program around the condition's n elements at `at` must be like. Only jumps go to the then label. */
  ghost predicate CleanAround(prog: Code, at: nat, n: nat, then_: Label, else_: Label) {
    && GoodLabel(prog, at + n, then_, false) && GoodLabel(prog, at + n, else_, true)
    && forall i :: 0 <= i < |prog| && !(at <= i < at + n) ==> CleanAt(prog, i)
  }

  /** A program that holds such a condition, wherever it stands, is clean. */
  lemma LedClean(cond: Cond, then_: Label, else_: Label, next: Label, prog: Code, at: nat)
    requires Led(cond)
    requires var o := Compile(cond, then_, else_, next);
             Placed(prog, at, o, next) && CleanAround(prog, at, |o.code|, then_, else_)
    ensures Clean(prog)
  {
    hide Find, Skip, Compile, Solid, GoodLabel;
    var o := Compile(cond, then_, else_, next);
    LedCompiles(cond, then_, else_, next);
    forall i | 0 <= i < |prog| ensures CleanAt(prog, i) {
      if at <= i < at + |o.code| {
        OnwardClean(prog, at, o, then_, else_, next, i - at);
      }
    }
  }

  lemma OnwardClean(prog: Code, at: nat, o: Output, then_: Label, else_: Label, next: Label, i: nat)
    requires LedOutput(o, then_, else_) && i < |o.code|
    requires Placed(prog, at, o, next) && CleanAround(prog, at, |o.code|, then_, else_)
    requires forall k :: 0 <= k < |o.code| && o.code[k].Mark? ==> next <= o.code[k].name < o.next
    ensures CleanAt(prog, at + i)
  {
    hide Find, Skip, Solid;
    assert prog[at + i] == o.code[i] && Onward(o.code, then_, else_, i);
    if Targets(prog[at + i]) {
      AimIs(prog, at + i);
      if o.code[i].to != else_ && !(o.code[i].to == then_ && o.code[i].Jump?) {
        var k: nat :| i < k < |o.code| - 1 && LeadsToOp(o.code, k, o.code[i].to);
        assert prog[at + k] == o.code[k] && prog[at + k + 1] == o.code[k + 1];
        FindFirst(prog, at, o, next, k);
        DestIs(prog, prog[at + i].to, at + k + 1);
      }
    }
  }

  /** A mark of the condition's code is the first of its name. */
  lemma FindFirst(prog: Code, at: nat, o: Output, next: Label, k: nat)
    requires Placed(prog, at, o, next) && Apart(o.code)
    requires k < |o.code| && o.code[k].Mark? && next <= o.code[k].name < o.next
    ensures Find(prog, o.code[k].name) == at + k
  {
    hide Find;
    assert prog[at + k] == o.code[k];
    FindIs(prog, o.code[k].name, at + k);
  }

  /** Compiling such a condition between `head` and `tail` and optimising the whole: whenever a run comes to the
      condition, what the program shows from the label on that short-circuit evaluation chooses, with the leaves
      evaluated, is what the optimised code shows. */
  method CompileAndOptimize<S(!new)>(
      head: Code, cond: Cond, then_: Label, else_: Label, next: Label, tail: Code) returns (list: InsnList)
    requires Led(cond)
    requires var o := Compile(cond, then_, else_, next);
             && Placed(head + o.code + tail, |head|, o, next)
             && CleanAround(head + o.code + tail, |head|, |o.code|, then_, else_)
    ensures Equivalent<S>(head + Compile(cond, then_, else_, next).code + tail, list.code)
    ensures forall i :: 0 <= i < |list.code| && ToJump(list.code, i) ==> Solid(list.code, Goes(list.code, i))
    ensures forall env: Env<S>, s0: S, t0: seq<int>, k: nat, s: S, t: seq<int>, o: Obs<S> ::
              var prog, v := head + Compile(cond, then_, else_, next).code + tail, Eval(cond, env, s, t);
              && Steps(prog, env, At(0, s0, t0), k) == At(|head|, s, t)
              && Observed(prog, env, At(Find(prog, if v.holds then then_ else else_), v.s, v.trace), o)
              ==> Observed(list.code, env, At(0, s0, t0), o)
  {
    hide Compile, Find, Clean, Equivalent, Observed, Eval, Placed, CleanAround, Ranked, SealedPass, Steps;
    var prog := head + Compile(cond, then_, else_, next).code + tail;
    LedClean(cond, then_, else_, next, prog, |head|);
    CleanIsSafe(prog);
    list := new InsnList(prog);
    ghost var turns := list.Optimize<S>(RankOf(prog));
    CleanEndsThreaded(prog, turns, list.code);
    forall env: Env<S>, s0: S, t0: seq<int>, k: nat, s: S, t: seq<int>, o: Obs<S> |
      var v := Eval(cond, env, s, t);
      && Steps(prog, env, At(0, s0, t0), k) == At(|head|, s, t)
      && Observed(prog, env, At(Find(prog, if v.holds then then_ else else_), v.s, v.trace), o)
      ensures Observed(list.code, env, At(0, s0, t0), o)
    {
      ShownAfter(cond, then_, else_, next, prog, |head|, list.code, env, At(0, s0, t0), k, s, t, o);
    }
  }

  lemma ShownAfter<S(!new)>(
      cond: Cond, then_: Label, else_: Label, next: Label, prog: Code, at: nat, d: Code,
      env: Env<S>, start: Config<S>, k: nat, s: S, t: seq<int>, o: Obs<S>)
    requires Placed(prog, at, Compile(cond, then_, else_, next), next) && Equivalent<S>(prog, d)
    requires start.At? && start.pc == 0 && Steps(prog, env, start, k) == At(at, s, t)
    requires var v := Eval(cond, env, s, t);
             Observed(prog, env, At(Find(prog, if v.holds then then_ else else_), v.s, v.trace), o)
    ensures Observed(d, env, start, o)
  {
    hide Find, Placed, Compile, Eval, Steps;
    var v := Eval(cond, env, s, t);
    var x := At(Find(prog, if v.holds then then_ else else_), v.s, v.trace);
    var n := CompileCorrect(cond, then_, else_, next, prog, at, env, s, t);
    var m: nat :| Seen(Steps(prog, env, x, m)) == o;
    StepsAdd(prog, env, start, k, n);
    StepsAdd(prog, env, start, k + n, m);
    assert Observed(prog, env, start, o);
    assert SameRuns(prog, 0, d, 0, env);
  }
}
