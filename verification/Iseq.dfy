/** Instruction lists (`compile.c`): labels, jumps, branches, `leave`, and opaque instructions, with a
    small-step semantics over an arbitrary machine state. */
module Iseq {

  type Label = nat

  /** An element of the list. `Mark` is a label; `Op` is any instruction that only falls through. */
  datatype Elem =
    | Mark(name: Label)
    | Op(id: int)
    | Jump(to: Label)
    | BranchIf(to: Label)
    | BranchUnless(to: Label)
    | Leave
    | Pop

  type Code = seq<Elem>

  /** What the opaque instructions and the test of the top value do to a machine state. */
  datatype Env<!S> = Env(exec: (int, S) -> S, truthy: S -> bool, pop: S -> S)

  /** The machine state and the trace of opaque instructions executed; running at pc, or returned. */
  datatype Config<S> = At(pc: nat, s: S, trace: seq<int>) | Returned(s: S, trace: seq<int>)

  /** The position of a label: the end of the list if there is none. */
  function Find(c: Code, l: Label): (i: nat)
    ensures i <= |c| && (i < |c| ==> c[i] == Mark(l)) && forall j :: 0 <= j < i ==> c[j] != Mark(l)
  {
    if c == [] then 0 else if c[0] == Mark(l) then 0 else
      var i := Find(c[1..], l) + 1;
      assert forall j :: 0 < j < i ==> c[j] == c[1..][j - 1];
      i
  }

  function Step<S(!new)>(c: Code, env: Env<S>, x: Config<S>): Config<S> {
    if x.Returned? || x.pc >= |c| then x else
    match c[x.pc]
    case Mark(_) => At(x.pc + 1, x.s, x.trace)
    case Op(id) => At(x.pc + 1, env.exec(id, x.s), x.trace + [id])
    case Jump(l) => At(Find(c, l), x.s, x.trace)
    case BranchIf(l) => At(if env.truthy(x.s) then Find(c, l) else x.pc + 1, env.pop(x.s), x.trace)
    case BranchUnless(l) => At(if env.truthy(x.s) then x.pc + 1 else Find(c, l), env.pop(x.s), x.trace)
    case Leave => Returned(x.s, x.trace)
    case Pop => At(x.pc + 1, env.pop(x.s), x.trace)
  }

  function Steps<S(!new)>(c: Code, env: Env<S>, x: Config<S>, n: nat): Config<S>
    decreases n
  {
    if n == 0 then x else Steps(c, env, Step(c, env, x), n - 1)
  }

  /** All but the position. */
  datatype Obs<S> = Obs(returned: bool, s: S, trace: seq<int>)

  function Seen<S>(x: Config<S>): Obs<S> { Obs(x.Returned?, x.s, x.trace) }

  /** Some step of the run shows o. */
  ghost predicate Observed<S(!new)>(c: Code, env: Env<S>, x: Config<S>, o: Obs<S>) {
    exists n: nat :: Seen(Steps(c, env, x, n)) == o
  }

  /** The runs of c from pc and of d from qc show the same states and traces, and return alike. */
  ghost predicate SameRuns<S(!new)>(c: Code, pc: nat, d: Code, qc: nat, env: Env<S>) {
    forall s: S, t, o :: Observed(c, env, At(pc, s, t), o) <==> Observed(d, env, At(qc, s, t), o)
  }

  lemma {:induction false} StepsAdd<S(!new)>(c: Code, env: Env<S>, x: Config<S>, m: nat, n: nat)
    ensures Steps(c, env, x, m + n) == Steps(c, env, Steps(c, env, x, m), n)
    decreases m
  {
    if m > 0 {
      StepsAdd(c, env, Step(c, env, x), m - 1, n);
    }
  }

  /** n steps that change nothing but the position. */
  ghost predicate Quiet<S(!new)>(c: Code, env: Env<S>, x: Config<S>, n: nat)
    decreases n
  {
    n == 0 || (Seen(Step(c, env, x)) == Seen(x) && Quiet(c, env, Step(c, env, x), n - 1))
  }

  lemma {:induction false} QuietSeen<S(!new)>(c: Code, env: Env<S>, x: Config<S>, n: nat, m: nat)
    requires Quiet(c, env, x, n) && m <= n
    ensures Seen(Steps(c, env, x, m)) == Seen(x)
    decreases m
  {
    if m > 0 {
      QuietSeen(c, env, Step(c, env, x), n - 1, m - 1);
    }
  }

  lemma {:induction false} QuietAdd<S(!new)>(c: Code, env: Env<S>, x: Config<S>, m: nat, n: nat)
    requires Quiet(c, env, x, m) && Quiet(c, env, Steps(c, env, x, m), n)
    ensures Quiet(c, env, x, m + n)
    decreases m
  {
    if m > 0 {
      QuietAdd(c, env, Step(c, env, x), m - 1, n);
    }
  }

  // ---------------------------------------------------------------- simulation

  type Relation = (nat, nat) -> bool

  predicate Related<S>(r: Relation, x: Config<S>, y: Config<S>) {
    (x.Returned? && y.Returned?) || (x.At? && y.At? && r(x.pc, y.pc))
  }

  /** One step of c followed by i quiet ones, matched by j steps of d. */
  ghost predicate Matched<S(!new)>(c: Code, d: Code, env: Env<S>, r: Relation, x: Config<S>, y: Config<S>, i: nat,
      j: nat) {
    var x1 := Step(c, env, x);
    var x2, y2 := Steps(c, env, x1, i), Steps(d, env, y, j);
    Quiet(c, env, x1, i) && Related(r, x2, y2) && Seen(x2) == Seen(y2)
  }

  /** d answers the next step of c. */
  ghost predicate Answered<S(!new)>(c: Code, d: Code, env: Env<S>, r: Relation, pc: nat, qc: nat, s: S, t: seq<int>) {
    exists i: nat, j: nat :: Matched(c, d, env, r, At(pc, s, t), At(qc, s, t), i, j)
  }

  ghost predicate Simulates<S(!new)>(c: Code, d: Code, env: Env<S>, r: Relation) {
    forall pc: nat, qc: nat, s: S, t: seq<int> :: r(pc, qc) ==> Answered(c, d, env, r, pc, qc, s, t)
  }

  /** Whatever c shows, d shows. */
  lemma {:induction false} Simulation<S(!new)>(c: Code, d: Code, env: Env<S>, r: Relation, x: Config<S>, y: Config<S>,
      n: nat)
    requires Simulates(c, d, env, r) && Related(r, x, y) && Seen(x) == Seen(y)
    ensures Observed(d, env, y, Seen(Steps(c, env, x, n)))
    decreases n
  {
    hide Quiet, Step;
    if n == 0 || x.Returned? {
      StaysReturned(c, env, x, n);
      assert Seen(Steps(d, env, y, 0)) == Seen(x);
    } else {
      assert Answered(c, d, env, r, x.pc, y.pc, x.s, x.trace);
      var i: nat, j: nat :| Matched(c, d, env, r, At(x.pc, x.s, x.trace), At(y.pc, x.s, x.trace), i, j);
      var x1 := Step(c, env, x);
      var x2, y2 := Steps(c, env, x1, i), Steps(d, env, y, j);
      if n <= i + 1 {
        QuietSeen(c, env, x1, i, n - 1);
        QuietSeen(c, env, x1, i, i);
        assert Seen(Steps(d, env, y, j)) == Seen(Steps(c, env, x, n));
      } else {
        StepsAdd(c, env, x1, i, n - 1 - i);
        Simulation(c, d, env, r, x2, y2, n - 1 - i);
        var m :| Seen(Steps(d, env, y2, m)) == Seen(Steps(c, env, x, n));
        StepsAdd(d, env, y, j, m);
      }
    }
  }

  lemma {:induction false} StaysReturned<S(!new)>(c: Code, env: Env<S>, x: Config<S>, n: nat)
    requires n == 0 || x.Returned?
    ensures Steps(c, env, x, n) == x
  {
    if n > 0 {
      StaysReturned(c, env, x, n - 1);
    }
  }

  /** A run returns once. */
  lemma ReturnsOnce<S(!new)>(c: Code, env: Env<S>, x: Config<S>, n: nat, m: nat)
    requires Steps(c, env, x, n).Returned? && Steps(c, env, x, m).Returned?
    ensures Steps(c, env, x, n) == Steps(c, env, x, m)
  {
    hide Step;
    if n <= m {
      StepsAdd(c, env, x, n, m - n);
      StaysReturned(c, env, Steps(c, env, x, n), m - n);
    } else {
      StepsAdd(c, env, x, m, n - m);
      StaysReturned(c, env, Steps(c, env, x, m), n - m);
    }
  }

  /** Simulation both ways gives the same runs. */
  lemma Bisimulation<S(!new)>(c: Code, d: Code, env: Env<S>, r: Relation, r': Relation, pc: nat, qc: nat)
    requires Simulates(c, d, env, r) && Simulates(d, c, env, r') && r(pc, qc) && r'(qc, pc)
    ensures SameRuns(c, pc, d, qc, env)
  {
    forall s: S, t, o ensures Observed(c, env, At(pc, s, t), o) <==> Observed(d, env, At(qc, s, t), o) {
      var x, y := At(pc, s, t), At(qc, s, t);
      if Observed(c, env, x, o) {
        var n: nat :| Seen(Steps(c, env, x, n)) == o;
        Simulation(c, d, env, r, x, y, n);
      }
      if Observed(d, env, y, o) {
        var n: nat :| Seen(Steps(d, env, y, n)) == o;
        Simulation(d, c, env, r', y, x, n);
      }
    }
  }

  // ---------------------------------------------------------------- labels

  /** The first instruction at or after i: get_destination_insn and get_next_insn skip labels. */
  function Skip(c: Code, i: nat): (j: nat)
    requires i <= |c|
    ensures i <= j <= |c| && (j < |c| ==> !c[j].Mark?) && forall k :: i <= k < j ==> c[k].Mark?
    decreases |c| - i
  {
    if i < |c| && c[i].Mark? then Skip(c, i + 1) else i
  }

  /** Where control arrives after a jump to l. */
  function Dest(c: Code, l: Label): nat { Skip(c, Find(c, l)) }

  /** Labels fall through. */
  lemma {:induction false} Walk<S(!new)>(c: Code, env: Env<S>, pc: nat, n: nat, s: S, t: seq<int>)
    requires pc + n <= |c| && forall k :: pc <= k < pc + n ==> c[k].Mark?
    ensures Steps(c, env, At(pc, s, t), n) == At(pc + n, s, t) && Quiet(c, env, At(pc, s, t), n)
    decreases n
  {
    if n > 0 {
      Walk(c, env, pc + 1, n - 1, s, t);
    }
  }
}
