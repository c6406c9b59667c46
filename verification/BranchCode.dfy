/** compile_branch_condition (`compile.c`): short-circuit conditions as labels and jumps. */
module BranchCode {
  import opened Iseq
  import opened Peephole

  datatype Cond =
    | And(first: Cond, second: Cond)
    | Or(first: Cond, second: Cond)
    | Truthy   // NODE_LIT, NODE_TRUE, NODE_STR
    | Falsy    // NODE_FALSE, NODE_NIL
    | Leaf(id: int)

  datatype Output = Output(code: Code, next: Label)

  /** The code for a condition; `next` is the next unused label. */
  function Compile(cond: Cond, then_: Label, else_: Label, next: Label): (o: Output)
    ensures next <= o.next
    ensures forall i :: 0 <= i < |o.code| && o.code[i].Mark? ==> next <= o.code[i].name < o.next
  {
    match cond
    case And(first, second) =>
      var a := Compile(first, next, else_, next + 1);
      var b := Compile(second, then_, else_, a.next);
      Output(a.code + [Mark(next)] + b.code, b.next)
    case Or(first, second) =>
      var a := Compile(first, then_, next, next + 1);
      var b := Compile(second, then_, else_, a.next);
      Output(a.code + [Mark(next)] + b.code, b.next)
    case Truthy => Output([Jump(then_)], next)
    case Falsy => Output([Jump(else_)], next)
    case Leaf(id) => Output([Op(id), BranchUnless(else_), Jump(then_)], next)
  }

  datatype Verdict<S> = Verdict(holds: bool, s: S, trace: seq<int>)

  /** Short-circuit evaluation, left to right, recording the leaves evaluated. */
  function Eval<S(!new)>(cond: Cond, env: Env<S>, s: S, t: seq<int>): Verdict<S>
    decreases cond
  {
    match cond
    case And(first, second) =>
      var v := Eval(first, env, s, t);
      if v.holds then Eval(second, env, v.s, v.trace) else v
    case Or(first, second) =>
      var v := Eval(first, env, s, t);
      if v.holds then v else Eval(second, env, v.s, v.trace)
    case Truthy => Verdict(true, s, t)
    case Falsy => Verdict(false, s, t)
    case Leaf(id) =>
      var s1 := env.exec(id, s);
      Verdict(env.truthy(s1), env.pop(s1), t + [id])
  }

  /** The truth of a condition when each leaf has a truth of its own. */
  predicate Holds(cond: Cond, leaf: int -> bool) {
    match cond
    case And(first, second) => Holds(first, leaf) && Holds(second, leaf)
    case Or(first, second) => Holds(first, leaf) || Holds(second, leaf)
    case Truthy => true
    case Falsy => false
    case Leaf(id) => leaf(id)
  }

  /** If leaves do not affect each other, evaluation gives that truth; and it only adds to the trace. */
  lemma {:induction false} EvalHolds<S(!new)>(cond: Cond, env: Env<S>, s: S, t: seq<int>, leaf: int -> bool)
    requires forall id: int, x: S :: env.truthy(env.exec(id, x)) == leaf(id)
    ensures Eval(cond, env, s, t).holds == Holds(cond, leaf)
    ensures var v := Eval(cond, env, s, t); |v.trace| >= |t| && v.trace[..|t|] == t
    decreases cond
  {
    match cond
    case And(first, second) =>
      EvalHolds(first, env, s, t, leaf);
      var v := Eval(first, env, s, t);
      if v.holds {
        EvalHolds(second, env, v.s, v.trace, leaf);
        Extends(t, v.trace, Eval(second, env, v.s, v.trace).trace);
      }
    case Or(first, second) =>
      EvalHolds(first, env, s, t, leaf);
      var v := Eval(first, env, s, t);
      if !v.holds {
        EvalHolds(second, env, v.s, v.trace, leaf);
        Extends(t, v.trace, Eval(second, env, v.s, v.trace).trace);
      }
    case _ =>
  }

  lemma Extends(a: seq<int>, b: seq<int>, c: seq<int>)
    requires |a| <= |b| <= |c| && b[..|a|] == a && c[..|b|] == b
    ensures c[..|a|] == a
  {
    assert c[..|a|] == c[..|b|][..|a|];
  }

  /** The output o stands at position `at` of the program, and its labels from `next` on are its own. */
  ghost predicate Placed(prog: Code, at: nat, o: Output, next: Label) {
    && at + |o.code| <= |prog| && (forall i :: at <= i < at + |o.code| ==> prog[i] == o.code[i - at])
    && forall i :: 0 <= i < |prog| && prog[i].Mark? && next <= prog[i].name < o.next ==> at <= i < at + |o.code|
  }

  /** The parts of a conjunction or disjunction are placed as well, and the label is between them. */
  lemma PlacedParts(prog: Code, at: nat, a: Output, b: Output, next: Label)
    requires Placed(prog, at, Output(a.code + [Mark(next)] + b.code, b.next), next)
    requires next < a.next <= b.next
    requires forall i :: 0 <= i < |a.code| && a.code[i].Mark? ==> next < a.code[i].name < a.next
    requires forall i :: 0 <= i < |b.code| && b.code[i].Mark? ==> a.next <= b.code[i].name < b.next
    ensures Placed(prog, at, a, next + 1) && Placed(prog, at + |a.code| + 1, b, a.next)
    ensures at + |a.code| < |prog| && prog[at + |a.code|] == Mark(next) && Find(prog, next) == at + |a.code|
  {
    hide Find;
    var mid := at + |a.code|;
    FindIs(prog, next, mid);
  }

  /** Wherever it stands, the code evaluates the same leaves in the same order as short-circuit evaluation and
      arrives at then_label exactly when that is truthy, otherwise at else_label. */
  lemma {:induction false} CompileCorrect<S(!new)>(cond: Cond, then_: Label, else_: Label, next: Label, prog: Code,
      at: nat, env: Env<S>, s: S, t: seq<int>)
      returns (n: nat)
    requires Placed(prog, at, Compile(cond, then_, else_, next), next)
    ensures var v := Eval(cond, env, s, t);
            Steps(prog, env, At(at, s, t), n) == At(Find(prog, if v.holds then then_ else else_), v.s, v.trace)
    decreases cond, 1
  {
    hide Find, Placed, Steps, Quiet;
    match cond
    case And(first, second) =>
      n := AndCorrect(first, second, then_, else_, next, prog, at, env, s, t);
    case Or(first, second) =>
      n := OrCorrect(first, second, then_, else_, next, prog, at, env, s, t);
    case Truthy =>
      n := 1;
      JumpCorrect(then_, next, prog, at, env, s, t);
    case Falsy =>
      n := 1;
      JumpCorrect(else_, next, prog, at, env, s, t);
    case Leaf(id) =>
      n := LeafCorrect(id, then_, else_, next, prog, at, env, s, t);
  }

  lemma {:induction false} AndCorrect<S(!new)>(first: Cond, second: Cond, then_: Label, else_: Label, next: Label,
      prog: Code, at: nat, env: Env<S>, s: S, t: seq<int>)
      returns (n: nat)
    requires Placed(prog, at, Compile(And(first, second), then_, else_, next), next)
    ensures var v := Eval(And(first, second), env, s, t);
            Steps(prog, env, At(at, s, t), n) == At(Find(prog, if v.holds then then_ else else_), v.s, v.trace)
    decreases And(first, second), 0
  {
    hide Find, Placed, Steps, Quiet;
    var a := Compile(first, next, else_, next + 1);
    var b := Compile(second, then_, else_, a.next);
    PlacedParts(prog, at, a, b, next);
    n := CompileCorrect(first, next, else_, next + 1, prog, at, env, s, t);
    var v := Eval(first, env, s, t);
    if v.holds {
      var m := CompileCorrect(second, then_, else_, a.next, prog, at + |a.code| + 1, env, v.s, v.trace);
      n := Onwards(prog, env, At(at, s, t), n, m);
    }
  }

  lemma {:induction false} OrCorrect<S(!new)>(first: Cond, second: Cond, then_: Label, else_: Label, next: Label,
      prog: Code, at: nat, env: Env<S>, s: S, t: seq<int>)
      returns (n: nat)
    requires Placed(prog, at, Compile(Or(first, second), then_, else_, next), next)
    ensures var v := Eval(Or(first, second), env, s, t);
            Steps(prog, env, At(at, s, t), n) == At(Find(prog, if v.holds then then_ else else_), v.s, v.trace)
    decreases Or(first, second), 0
  {
    hide Find, Placed, Steps, Quiet;
    var a := Compile(first, then_, next, next + 1);
    var b := Compile(second, then_, else_, a.next);
    PlacedParts(prog, at, a, b, next);
    n := CompileCorrect(first, then_, next, next + 1, prog, at, env, s, t);
    var v := Eval(first, env, s, t);
    if !v.holds {
      var m := CompileCorrect(second, then_, else_, a.next, prog, at + |a.code| + 1, env, v.s, v.trace);
      n := Onwards(prog, env, At(at, s, t), n, m);
    }
  }

  lemma LeafPlaced(prog: Code, at: nat, o: Output, next: Label)
    requires Placed(prog, at, o, next)
    ensures at + |o.code| <= |prog| && forall i :: at <= i < at + |o.code| ==> prog[i] == o.code[i - at]
  {
  }

  lemma JumpCorrect<S(!new)>(l: Label, next: Label, prog: Code, at: nat, env: Env<S>, s: S, t: seq<int>)
    requires Placed(prog, at, Output([Jump(l)], next), next)
    ensures Steps(prog, env, At(at, s, t), 1) == At(Find(prog, l), s, t)
  {
    hide Find, Placed, Quiet;
    LeafPlaced(prog, at, Output([Jump(l)], next), next);
    One(prog, env, At(at, s, t));
  }

  lemma LeafCorrect<S(!new)>(id: int, then_: Label, else_: Label, next: Label, prog: Code, at: nat, env: Env<S>, s: S,
      t: seq<int>)
      returns (n: nat)
    requires Placed(prog, at, Compile(Leaf(id), then_, else_, next), next)
    ensures var v := Eval(Leaf(id), env, s, t);
            Steps(prog, env, At(at, s, t), n) == At(Find(prog, if v.holds then then_ else else_), v.s, v.trace)
  {
    hide Find, Placed, Quiet;
    var o := Compile(Leaf(id), then_, else_, next);
    LeafPlaced(prog, at, o, next);
    assert o.code[0] == Op(id) && o.code[1] == BranchUnless(else_) && o.code[2] == Jump(then_);
    assert prog[at] == Op(id) && prog[at + 1] == BranchUnless(else_) && prog[at + 2] == Jump(then_);
    n := if env.truthy(env.exec(id, s)) then 3 else 2;
    var x := At(at, s, t);
    var x1 := Step(prog, env, x);
    var x2 := Step(prog, env, x1);
    assert Steps(prog, env, x, 2) == x2;
    assert Steps(prog, env, x, 3) == Step(prog, env, x2);
  }

  /** n steps to a label, past it, and m steps more. */
  lemma Onwards<S(!new)>(prog: Code, env: Env<S>, x: Config<S>, n: nat, m: nat) returns (k: nat)
    requires var y := Steps(prog, env, x, n); y.At? && y.pc < |prog| && prog[y.pc].Mark?
    ensures var y := Steps(prog, env, x, n); Steps(prog, env, x, k) == Steps(prog, env, At(y.pc + 1, y.s, y.trace), m)
  {
    hide Find, Quiet;
    k := n + (1 + m);
    StepsAdd(prog, env, x, n, 1 + m);
    StepsAdd(prog, env, Steps(prog, env, x, n), 1, m);
    One(prog, env, Steps(prog, env, x, n));
  }
}
