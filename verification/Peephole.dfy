/** iseq_peephole_optimize (`compile.c`): the jump and branch rewrites, each against the runs of the code. */
module Peephole {
  import opened Iseq

  // ---------------------------------------------------------------- what the pass decides

  predicate Branch(e: Elem) { e.BranchIf? || e.BranchUnless? }

  predicate Targets(e: Elem) { e.Jump? || Branch(e) }

  /** get_next_insn */
  function Next(c: Code, at: nat): nat
    requires at < |c|
  {
    Skip(c, at + 1)
  }

  /** get_prev_insn: -1 if there is none. */
  function Prev(c: Code, at: nat): (p: int)
    requires at <= |c|
    ensures -1 <= p < at && (p >= 0 ==> !c[p].Mark?) && forall k :: p < k < at ==> c[k].Mark?
  {
    if at == 0 then -1 else if c[at - 1].Mark? then Prev(c, at - 1) else at - 1
  }

  datatype Action =
    | Stay
    | Remove            // a jump to the next instruction
    | Retarget(to: Label)
    | ReturnHere        // a jump to leave
    | Invert(p: nat)    // a branch at p over a jump

  /** The jump or branch at `at` goes to an instruction, which the source then inspects. */
  predicate Lands(c: Code, at: nat) {
    at < |c| && Targets(c[at]) ==> Dest(c, c[at].to) < |c|
  }

  function Choose(c: Code, at: nat): Action
    requires at < |c| && Lands(c, at)
  {
    match c[at]
    case Jump(l) =>
      var d, n := Dest(c, l), Next(c, at);
      if d == n then Remove
      else if d != at && c[d].Jump? then (if c[d].to != l then Retarget(c[d].to) else Stay)
      else if c[d].Leave? then ReturnHere
      else
        var p := Prev(c, at);
        if p >= 0 && Branch(c[p]) && Dest(c, c[p].to) == n then Invert(p) else Stay
    case BranchIf(l) => if c[Dest(c, l)].Jump? then Retarget(c[Dest(c, l)].to) else Stay
    case BranchUnless(l) => if c[Dest(c, l)].Jump? then Retarget(c[Dest(c, l)].to) else Stay
    case _ => Stay
  }

  function Delete(c: Code, at: nat): Code
    requires at < |c|
  {
    c[..at] + c[at + 1..]
  }

  function Inverse(e: Elem, l: Label): Elem
    requires Branch(e)
  {
    if e.BranchIf? then BranchUnless(l) else BranchIf(l)
  }

  function WithTarget(e: Elem, l: Label): Elem
    requires Targets(e)
  {
    match e case Jump(_) => Jump(l) case BranchIf(_) => BranchIf(l) case _ => BranchUnless(l)
  }

  function Rewritten(c: Code, at: nat): Code
    requires at < |c| && Lands(c, at)
  {
    match Choose(c, at)
    case Stay => c
    case Remove => Delete(c, at)
    case Retarget(l) => c[at := WithTarget(c[at], l)]
    case ReturnHere => c[..at] + [Leave, Pop] + c[at + 1..]
    case Invert(p) => Delete(c[p := Inverse(c[p], c[at].to)], at)
  }

  // ---------------------------------------------------------------- positions

  /** Where position i of the code is once the instruction at `at` is gone. */
  function Less(at: nat, i: nat): nat { if i <= at then i else i - 1 }

  /** Where position i of the code is once there is one more instruction after `at`. */
  function More(at: nat, i: nat): nat { if i <= at then i else i + 1 }

  lemma {:induction false} FindIs(c: Code, l: Label, i: nat)
    requires i <= |c| && (i < |c| ==> c[i] == Mark(l)) && forall j :: 0 <= j < i ==> c[j] != Mark(l)
    ensures Find(c, l) == i
  {
  }

  lemma FindDelete(c: Code, at: nat, l: Label)
    requires at < |c| && !c[at].Mark?
    ensures Find(Delete(c, at), l) == Less(at, Find(c, l))
  {
    var f, d := Find(c, l), Delete(c, at);
    assert forall j :: 0 <= j < |d| ==> d[j] == if j < at then c[j] else c[j + 1];
    FindIs(d, l, Less(at, f));
  }

  lemma FindReplace(c: Code, at: nat, e: Elem, l: Label)
    requires at < |c| && !c[at].Mark? && !e.Mark?
    ensures Find(c[at := e], l) == Find(c, l)
  {
    FindIs(c[at := e], l, Find(c, l));
  }

  lemma FindInsert(c: Code, at: nat, l: Label)
    requires at < |c| && !c[at].Mark?
    ensures Find(c[..at] + [Leave, Pop] + c[at + 1..], l) == More(at, Find(c, l))
  {
    var f, d := Find(c, l), c[..at] + [Leave, Pop] + c[at + 1..];
    assert forall j :: 0 <= j < |d| && j != at && j != at + 1 ==> d[j] == if j < at then c[j] else c[j - 1];
    FindIs(d, l, More(at, f));
  }

  /** Labels, then a jump. */
  lemma WalkJump<S(!new)>(c: Code, env: Env<S>, from: nat, at: nat, s: S, t: seq<int>)
    requires from <= at < |c| && c[at].Jump? && forall k :: from <= k < at ==> c[k].Mark?
    ensures Steps(c, env, At(from, s, t), at - from + 1) == At(Find(c, c[at].to), s, t)
    ensures Quiet(c, env, At(from, s, t), at - from + 1)
  {
    hide Find;
    Walk(c, env, from, at - from, s, t);
    StepsAdd(c, env, At(from, s, t), at - from, 1);
    One(c, env, At(at, s, t));
    assert Quiet(c, env, At(at, s, t), 1);
    QuietAdd(c, env, At(from, s, t), at - from, 1);
  }

  /** A jump to a jump. */
  lemma Thread<S(!new)>(c: Code, env: Env<S>, l: Label, s: S, t: seq<int>)
    requires Dest(c, l) < |c| && c[Dest(c, l)].Jump?
    ensures var f, d := Find(c, l), Dest(c, l);
            Steps(c, env, At(f, s, t), d - f + 1) == At(Find(c, c[d].to), s, t) && Quiet(c, env, At(f, s, t), d - f + 1)
  {
    hide Steps, Quiet;
    WalkJump(c, env, Find(c, l), Dest(c, l), s, t);
  }

  lemma One<S(!new)>(c: Code, env: Env<S>, x: Config<S>)
    ensures Steps(c, env, x, 1) == Step(c, env, x) && Quiet(c, env, x, 0) && Steps(c, env, x, 0) == x
  {
  }

  /** Two codes in step. */
  lemma Lockstep<S(!new)>(c: Code, d: Code, env: Env<S>, r: Relation, x: Config<S>, y: Config<S>)
    requires Related(r, Step(c, env, x), Step(d, env, y)) && Seen(Step(c, env, x)) == Seen(Step(d, env, y))
    ensures Matched(c, d, env, r, x, y, 0, 1)
  {
    One(c, env, Step(c, env, x));
    One(d, env, y);
  }

  // ---------------------------------------------------------------- threading

  ghost predicate Threads(c: Code, at: nat, d: Code) {
    && at < |c| && Targets(c[at]) && Dest(c, c[at].to) < |c| && c[Dest(c, c[at].to)].Jump?
    && Dest(c, c[at].to) != at && d == c[at := WithTarget(c[at], c[Dest(c, c[at].to)].to)]
  }

  const Same: Relation := (pc: nat, qc: nat) => pc == qc

  /** Sending a jump or branch straight to where a jump would take it. */
  lemma ThreadingPreserves<S(!new)>(c: Code, at: nat, d: Code, pc: nat, env: Env<S>)
    requires Threads(c, at, d)
    ensures SameRuns(c, pc, d, pc, env)
  {
    ThreadForward(c, at, d, env);
    ThreadBackward(c, at, d, env);
    Bisimulation(c, d, env, Same, Same, pc, pc);
  }

  lemma ThreadElsewhere<S(!new)>(c: Code, at: nat, d: Code, env: Env<S>, pc: nat, s: S, t: seq<int>)
    requires Threads(c, at, d) && pc != at
    ensures Step(c, env, At(pc, s, t)) == Step(d, env, At(pc, s, t))
  {
    hide Find;
    if pc < |c| && Targets(c[pc]) {
      FindReplace(c, at, d[at], c[pc].to);
    }
  }

  /** At the rewritten instruction: the jump is taken and quietly followed, or not taken at all. */
  lemma ThreadAt<S(!new)>(c: Code, at: nat, d: Code, env: Env<S>, s: S, t: seq<int>) returns (i: nat)
    requires Threads(c, at, d)
    ensures var x := Step(c, env, At(at, s, t));
            Quiet(c, env, x, i) && Steps(c, env, x, i) == Step(d, env, At(at, s, t))
  {
    hide Find;
    var x, l := Step(c, env, At(at, s, t)), c[at].to;
    FindReplace(c, at, d[at], d[at].to);
    if c[at].Jump? || (c[at].BranchIf? == env.truthy(s)) {
      i := Dest(c, l) - Find(c, l) + 1;
      Thread(c, env, l, x.s, t);
    } else {
      i := 0;
      One(c, env, x);
    }
  }

  lemma ThreadForward<S(!new)>(c: Code, at: nat, d: Code, env: Env<S>)
    requires Threads(c, at, d)
    ensures Simulates(c, d, env, Same)
  {
    hide Step, Steps, Quiet, Threads;
    forall pc: nat, qc: nat, s: S, t: seq<int> | Same(pc, qc) ensures Answered(c, d, env, Same, pc, qc, s, t)
    {
      var x := At(pc, s, t);
      One(d, env, x);
      if pc == at {
        var i := ThreadAt(c, at, d, env, s, t);
        assert Matched(c, d, env, Same, x, x, i, 1);
      } else {
        ThreadElsewhere(c, at, d, env, pc, s, t);
        Lockstep(c, d, env, Same, x, x);
      }
    }
  }

  lemma ThreadBackward<S(!new)>(c: Code, at: nat, d: Code, env: Env<S>)
    requires Threads(c, at, d)
    ensures Simulates(d, c, env, Same)
  {
    hide Step, Quiet, Threads;
    forall pc: nat, qc: nat, s: S, t: seq<int> | Same(pc, qc) ensures Answered(d, c, env, Same, pc, qc, s, t)
    {
      var x := At(pc, s, t);
      One(d, env, Step(d, env, x));
      if pc == at {
        var i := ThreadAt(c, at, d, env, s, t);
        assert Matched(d, c, env, Same, x, x, 0, 1 + i);
      } else {
        ThreadElsewhere(c, at, d, env, pc, s, t);
        Lockstep(d, c, env, Same, x, x);
      }
    }
  }

  // ---------------------------------------------------------------- removing a jump

  ghost predicate Skips(c: Code, at: nat) { at < |c| && c[at].Jump? && Dest(c, c[at].to) == Next(c, at) }

  function Gone(n: nat, at: nat): Relation { (pc: nat, qc: nat) => pc <= n && qc == Less(at, pc) }

  function GoneBack(n: nat, at: nat): Relation { (qc: nat, pc: nat) => pc <= n && qc == Less(at, pc) }

  /** Dropping a jump to the next instruction. */
  lemma RemovalPreserves<S(!new)>(c: Code, at: nat, pc: nat, env: Env<S>)
    requires Skips(c, at) && pc <= |c|
    ensures SameRuns(c, pc, Delete(c, at), Less(at, pc), env)
  {
    RemovalForward(c, at, env);
    RemovalBackward(c, at, env);
    Bisimulation(c, Delete(c, at), env, Gone(|c|, at), GoneBack(|c|, at), pc, Less(at, pc));
  }

  /** Other instructions run as before. */
  lemma RemovalElsewhere<S(!new)>(c: Code, at: nat, env: Env<S>, pc: nat, s: S, t: seq<int>)
    requires Skips(c, at) && pc <= |c| && pc != at
    ensures var x, y := Step(c, env, At(pc, s, t)), Step(Delete(c, at), env, At(Less(at, pc), s, t));
            Seen(x) == Seen(y) && (x.At? ==> x.pc <= |c| && y.pc == Less(at, x.pc))
  {
    hide Find;
    if pc < |c| {
      var d := Delete(c, at);
      assert d[Less(at, pc)] == c[pc];
      if Targets(c[pc]) {
        FindDelete(c, at, c[pc].to);
      }
    }
  }

  lemma RemovalForward<S(!new)>(c: Code, at: nat, env: Env<S>)
    requires Skips(c, at)
    ensures Simulates(c, Delete(c, at), env, Gone(|c|, at))
  {
    hide Find, Quiet;
    var d, r := Delete(c, at), Gone(|c|, at);
    forall pc: nat, qc: nat, s: S, t: seq<int> | r(pc, qc) ensures Answered(c, d, env, r, pc, qc, s, t) {
      var x, y := At(pc, s, t), At(qc, s, t);
      if pc == at {
        var f := Find(c, c[at].to);
        assert forall k :: at <= k < f - 1 ==> d[k] == c[k + 1];
        Walk(d, env, at, f - 1 - at, s, t);
        One(c, env, At(f, s, t));
        assert Matched(c, d, env, r, x, y, 0, f - 1 - at);
      } else {
        RemovalElsewhere(c, at, env, pc, s, t);
        Lockstep(c, d, env, r, x, y);
      }
    }
  }

  lemma RemovalBackward<S(!new)>(c: Code, at: nat, env: Env<S>)
    requires Skips(c, at)
    ensures Simulates(Delete(c, at), c, env, GoneBack(|c|, at))
  {
    hide Find, Quiet;
    var d, r := Delete(c, at), GoneBack(|c|, at);
    forall qc: nat, pc: nat, s: S, t: seq<int> | r(qc, pc) ensures Answered(d, c, env, r, qc, pc, s, t) {
      var x, y := At(pc, s, t), At(qc, s, t);
      if pc == at {
        var f := Find(c, c[at].to);
        One(c, env, x);
        if f > at + 1 {
          assert forall k :: at <= k < f - 1 ==> d[k] == c[k + 1];
          Walk(d, env, at + 1, f - 2 - at, s, t);
          assert Matched(d, c, env, r, y, x, f - 2 - at, 1);
        } else {
          RemovalElsewhere(c, at, env, f, s, t);
          assert Steps(c, env, x, 2) == Step(c, env, At(f, s, t)) by {
            StepsAdd(c, env, x, 1, 1);
            One(c, env, At(f, s, t));
          }
          One(d, env, Step(d, env, y));
          assert Matched(d, c, env, r, y, x, 0, 2);
        }
      } else {
        RemovalElsewhere(c, at, env, pc, s, t);
        Lockstep(d, c, env, r, y, x);
      }
    }
  }

  // ---------------------------------------------------------------- a jump to leave

  ghost predicate Returns(c: Code, at: nat) {
    at < |c| && c[at].Jump? && Dest(c, c[at].to) < |c| && c[Dest(c, c[at].to)].Leave?
  }

  function Returning(c: Code, at: nat): Code
    requires at < |c|
  {
    c[..at] + [Leave, Pop] + c[at + 1..]
  }

  /** Besides the moved positions, the way to the old `leave` corresponds to the new one. */
  function Early(n: nat, at: nat, from: nat, to: nat): Relation {
    (pc: nat, qc: nat) => pc <= n && (qc == More(at, pc) || (qc == at && from <= pc <= to))
  }

  function EarlyBack(n: nat, at: nat, from: nat, to: nat): Relation {
    (qc: nat, pc: nat) => pc <= n && (qc == More(at, pc) || (qc == at && from <= pc <= to))
  }

  lemma ReturnPreserves<S(!new)>(c: Code, at: nat, pc: nat, env: Env<S>)
    requires Returns(c, at) && pc <= |c|
    ensures SameRuns(c, pc, Returning(c, at), More(at, pc), env)
  {
    var from, to := Find(c, c[at].to), Dest(c, c[at].to);
    ReturnForward(c, at, env);
    ReturnBackward(c, at, env);
    Bisimulation(c, Returning(c, at), env, Early(|c|, at, from, to), EarlyBack(|c|, at, from, to), pc, More(at, pc));
  }

  lemma ReturnElsewhere<S(!new)>(c: Code, at: nat, env: Env<S>, pc: nat, s: S, t: seq<int>)
    requires Returns(c, at) && pc <= |c| && pc != at
    ensures var x, y := Step(c, env, At(pc, s, t)), Step(Returning(c, at), env, At(More(at, pc), s, t));
            Seen(x) == Seen(y) && (x.At? ==> x.pc <= |c| && y.pc == More(at, x.pc))
  {
    hide Find;
    if pc < |c| {
      var d := Returning(c, at);
      assert d[More(at, pc)] == c[pc];
      if Targets(c[pc]) {
        FindInsert(c, at, c[pc].to);
      }
    }
  }

  lemma ReturnForward<S(!new)>(c: Code, at: nat, env: Env<S>)
    requires Returns(c, at)
    ensures Simulates(c, Returning(c, at), env, Early(|c|, at, Find(c, c[at].to), Dest(c, c[at].to)))
  {
    hide Find, Quiet;
    var d, from, to := Returning(c, at), Find(c, c[at].to), Dest(c, c[at].to);
    var r := Early(|c|, at, from, to);
    forall pc: nat, qc: nat, s: S, t: seq<int> | r(pc, qc) ensures Answered(c, d, env, r, pc, qc, s, t) {
      var x, y := At(pc, s, t), At(qc, s, t);
      if pc == at || (qc == at && from <= pc < to) {
        One(c, env, Step(c, env, x));
        One(d, env, y);
        assert Matched(c, d, env, r, x, y, 0, 0);
      } else if qc == at {
        Lockstep(c, d, env, r, x, y);
      } else {
        ReturnElsewhere(c, at, env, pc, s, t);
        Lockstep(c, d, env, r, x, y);
      }
    }
  }

  lemma ReturnBackward<S(!new)>(c: Code, at: nat, env: Env<S>)
    requires Returns(c, at)
    ensures Simulates(Returning(c, at), c, env, EarlyBack(|c|, at, Find(c, c[at].to), Dest(c, c[at].to)))
  {
    hide Find, Quiet;
    var d, from, to := Returning(c, at), Find(c, c[at].to), Dest(c, c[at].to);
    var r := EarlyBack(|c|, at, from, to);
    forall qc: nat, pc: nat, s: S, t: seq<int> | r(qc, pc) ensures Answered(d, c, env, r, qc, pc, s, t) {
      var x, y := At(pc, s, t), At(qc, s, t);
      One(d, env, Step(d, env, y));
      if qc == at {
        var j := WayOut(c, at, env, pc, s, t);
        assert Matched(d, c, env, r, y, x, 0, j);
      } else {
        ReturnElsewhere(c, at, env, pc, s, t);
        Lockstep(d, c, env, r, y, x);
      }
    }
  }

  lemma WayOut<S(!new)>(c: Code, at: nat, env: Env<S>, pc: nat, s: S, t: seq<int>) returns (j: nat)
    requires Returns(c, at) && (pc == at || Find(c, c[at].to) <= pc <= Dest(c, c[at].to))
    ensures Steps(c, env, At(pc, s, t), j) == Returned(s, t)
  {
    var from, to := Find(c, c[at].to), Dest(c, c[at].to);
    var start := if pc == at then from else pc;
    Walk(c, env, start, to - start, s, t);
    One(c, env, At(to, s, t));
    StepsAdd(c, env, At(start, s, t), to - start, 1);
    if pc == at {
      One(c, env, At(at, s, t));
      StepsAdd(c, env, At(at, s, t), 1, to - start + 1);
      j := 1 + (to - start + 1);
    } else {
      j := to - start + 1;
    }
  }

  // ---------------------------------------------------------------- inverting a branch over a jump

  ghost predicate Inverts(c: Code, p: nat, at: nat) {
    && p < at < |c| && Branch(c[p]) && c[at].Jump? && Dest(c, c[p].to) == Next(c, at)
    && forall k :: p < k < at ==> c[k].Mark?
  }

  /** Some jump or branch goes to label l. */
  ghost predicate Referenced(c: Code, l: Label) { exists i :: 0 <= i < |c| && Targets(c[i]) && c[i].to == l }

  /** No label between the branch and the jump is used. */
  ghost predicate Sealed(c: Code, p: nat, at: nat) {
    forall k :: 0 <= k < |c| && p < k < at && c[k].Mark? && Find(c, c[k].name) == k ==> !Referenced(c, c[k].name)
  }

  function Inverted(c: Code, p: nat, at: nat): Code
    requires p < at < |c| && Branch(c[p]) && c[at].Jump?
  {
    Delete(c[p := Inverse(c[p], c[at].to)], at)
  }

  /** Outside the branch-and-jump pair. */
  predicate Outside(p: nat, at: nat, pc: nat) { pc <= p || at < pc }

  function Turned(n: nat, p: nat, at: nat): Relation {
    (pc: nat, qc: nat) => pc <= n && Outside(p, at, pc) && qc == Less(at, pc)
  }

  function TurnedBack(n: nat, p: nat, at: nat): Relation {
    (qc: nat, pc: nat) => pc <= n && Outside(p, at, pc) && qc == Less(at, pc)
  }

  /** Inverting is right when no used label lies between the branch and the jump. */
  lemma InversionPreserves<S(!new)>(c: Code, p: nat, at: nat, pc: nat, env: Env<S>)
    requires Inverts(c, p, at) && Sealed(c, p, at) && pc <= |c| && Outside(p, at, pc)
    ensures SameRuns(c, pc, Inverted(c, p, at), Less(at, pc), env)
  {
    InversionForward(c, p, at, env);
    InversionBackward(c, p, at, env);
    Bisimulation(c, Inverted(c, p, at), env, Turned(|c|, p, at), TurnedBack(|c|, p, at), pc, Less(at, pc));
  }

  lemma FindInverted(c: Code, p: nat, at: nat, l: Label)
    requires p < at < |c| && Branch(c[p]) && c[at].Jump?
    ensures Find(Inverted(c, p, at), l) == Less(at, Find(c, l))
  {
    var e := Inverse(c[p], c[at].to);
    FindReplace(c, p, e, l);
    FindDelete(c[p := e], at, l);
  }

  /** Used labels lie outside. */
  lemma TargetOutside(c: Code, p: nat, at: nat, i: nat)
    requires Inverts(c, p, at) && Sealed(c, p, at) && i < |c| && Targets(c[i])
    ensures Outside(p, at, Find(c, c[i].to))
  {
    var f := Find(c, c[i].to);
    if p < f <= at {
      assert c[f] == Mark(c[i].to);
      assert Referenced(c, c[i].to);
      assert false;
    }
  }

  lemma InversionElsewhere<S(!new)>(c: Code, p: nat, at: nat, env: Env<S>, pc: nat, s: S, t: seq<int>)
    requires Inverts(c, p, at) && Sealed(c, p, at) && pc <= |c| && Outside(p, at, pc) && pc != p
    ensures var x, y := Step(c, env, At(pc, s, t)), Step(Inverted(c, p, at), env, At(Less(at, pc), s, t));
            Seen(x) == Seen(y) && (x.At? ==> x.pc <= |c| && Outside(p, at, x.pc) && y.pc == Less(at, x.pc))
  {
    hide Find, Sealed;
    if pc < |c| {
      var d := Inverted(c, p, at);
      assert d[Less(at, pc)] == c[pc];
      if Targets(c[pc]) {
        FindInverted(c, p, at, c[pc].to);
        TargetOutside(c, p, at, pc);
      }
    }
  }

  /** The branch taken: both codes reach the branch's label. */
  lemma BranchTaken<S(!new)>(c: Code, p: nat, at: nat, env: Env<S>, s: S, t: seq<int>) returns (f: nat)
    requires Inverts(c, p, at) && (c[p].BranchIf? <==> env.truthy(s))
    ensures at < f <= |c| && Step(c, env, At(p, s, t)) == At(f, env.pop(s), t)
    ensures var d := Inverted(c, p, at); var y := Step(d, env, At(p, s, t));
            Quiet(d, env, y, f - 2 - p) && Steps(d, env, y, f - 2 - p) == At(f - 1, env.pop(s), t)
  {
    hide Find, Steps, Quiet;
    f := Find(c, c[p].to);
    var d := Inverted(c, p, at);
    assert d[p] == Inverse(c[p], c[at].to);
    assert forall k :: p < k < f - 1 ==> d[k] == if k < at then c[k] else c[k + 1];
    Walk(d, env, p + 1, f - 2 - p, env.pop(s), t);
  }

  /** The branch not taken: both codes reach the jump's label. */
  lemma BranchPassed<S(!new)>(c: Code, p: nat, at: nat, env: Env<S>, s: S, t: seq<int>)
    requires Inverts(c, p, at) && (c[p].BranchIf? <==> !env.truthy(s))
    ensures var f := Find(c, c[at].to); var x := Step(c, env, At(p, s, t));
            && Quiet(c, env, x, at - p) && Steps(c, env, x, at - p) == At(f, env.pop(s), t)
            && Step(Inverted(c, p, at), env, At(p, s, t)) == At(Less(at, f), env.pop(s), t)
  {
    hide Find, Steps, Quiet;
    var d := Inverted(c, p, at);
    assert d[p] == Inverse(c[p], c[at].to);
    FindInverted(c, p, at, c[at].to);
    WalkJump(c, env, p + 1, at, env.pop(s), t);
  }

  lemma InversionForward<S(!new)>(c: Code, p: nat, at: nat, env: Env<S>)
    requires Inverts(c, p, at) && Sealed(c, p, at)
    ensures Simulates(c, Inverted(c, p, at), env, Turned(|c|, p, at))
  {
    hide Find, Sealed, Quiet, Step, Inverted;
    var d, r := Inverted(c, p, at), Turned(|c|, p, at);
    forall pc: nat, qc: nat, s: S, t: seq<int> | r(pc, qc) ensures Answered(c, d, env, r, pc, qc, s, t) {
      var x, y := At(pc, s, t), At(qc, s, t);
      if pc != p {
        InversionElsewhere(c, p, at, env, pc, s, t);
        Lockstep(c, d, env, r, x, y);
      } else if c[p].BranchIf? <==> env.truthy(s) {
        var f := BranchTaken(c, p, at, env, s, t);
        One(c, env, Step(c, env, x));
        assert Matched(c, d, env, r, x, y, 0, 1 + (f - 2 - p));
      } else {
        BranchPassed(c, p, at, env, s, t);
        TargetOutside(c, p, at, at);
        One(d, env, y);
        assert Matched(c, d, env, r, x, y, at - p, 1);
      }
    }
  }

  lemma InversionBackward<S(!new)>(c: Code, p: nat, at: nat, env: Env<S>)
    requires Inverts(c, p, at) && Sealed(c, p, at)
    ensures Simulates(Inverted(c, p, at), c, env, TurnedBack(|c|, p, at))
  {
    hide Find, Sealed, Quiet, Step, Inverted;
    var d, r := Inverted(c, p, at), TurnedBack(|c|, p, at);
    forall qc: nat, pc: nat, s: S, t: seq<int> | r(qc, pc) ensures Answered(d, c, env, r, qc, pc, s, t) {
      var x, y := At(pc, s, t), At(qc, s, t);
      if pc != p {
        InversionElsewhere(c, p, at, env, pc, s, t);
        Lockstep(d, c, env, r, y, x);
      } else if c[p].BranchIf? <==> env.truthy(s) {
        var f := BranchTaken(c, p, at, env, s, t);
        One(c, env, x);
        assert Matched(d, c, env, r, y, x, f - 2 - p, 1);
      } else {
        BranchPassed(c, p, at, env, s, t);
        TargetOutside(c, p, at, at);
        One(d, env, Step(d, env, y));
        assert Matched(d, c, env, r, y, x, 0, 1 + (at - p));
      }
    }
  }

  // ---------------------------------------------------------------- one rewrite

  /** Every rewrite keeps all the runs from the start, an inversion when the pair is sealed. */
  lemma RewritePreserves<S(!new)>(c: Code, at: nat, env: Env<S>)
    requires at < |c| && Lands(c, at)
    requires Choose(c, at).Invert? ==> Sealed(c, Choose(c, at).p, at)
    ensures SameRuns(c, 0, Rewritten(c, at), 0, env)
  {
    hide Find, Skip, SameRuns, Sealed, Skips, Threads, Returns, Inverts;
    match Choose(c, at)
    case Stay => Reflexive(c, env);
    case Remove => RemovalPreserves(c, at, 0, env);
    case Retarget(l) => ThreadingPreserves(c, at, Rewritten(c, at), 0, env);
    case ReturnHere => ReturnPreserves(c, at, 0, env);
    case Invert(p) => InversionPreserves(c, p, at, 0, env);
  }

  lemma Reflexive<S(!new)>(c: Code, env: Env<S>)
    ensures SameRuns(c, 0, c, 0, env)
  {
  }

  lemma Transitive<S(!new)>(c: Code, d: Code, e: Code, env: Env<S>)
    requires SameRuns(c, 0, d, 0, env) && SameRuns(d, 0, e, 0, env)
    ensures SameRuns(c, 0, e, 0, env)
  {
    hide Observed;
    forall s: S, t, o ensures Observed(c, env, At(0, s, t), o) <==> Observed(e, env, At(0, s, t), o) {
      assert Observed(c, env, At(0, s, t), o) <==> Observed(d, env, At(0, s, t), o);
    }
  }
}
