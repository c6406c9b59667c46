/** The whole pass over an instruction list (iseq_optimize in `compile.c`), where it is right and where not. */
module PeepholePass {
  import opened Iseq
  import opened Peephole

  // ---------------------------------------------------------------- destinations under a rewrite

  lemma DestIs(c: Code, l: Label, j: nat)
    requires Find(c, l) <= j <= |c| && (j < |c| ==> !c[j].Mark?) && forall k :: Find(c, l) <= k < j ==> c[k].Mark?
    ensures Dest(c, l) == j
  {
    hide Find;
  }

  lemma DestReplace(c: Code, at: nat, e: Elem, l: Label)
    requires at < |c| && !c[at].Mark? && !e.Mark?
    ensures Find(c[at := e], l) == Find(c, l) && Dest(c[at := e], l) == Dest(c, l)
  {
    hide Find, Skip;
    FindReplace(c, at, e, l);
    DestIs(c[at := e], l, Dest(c, l));
  }

  lemma DestDelete(c: Code, at: nat, l: Label)
    requires at < |c| && !c[at].Mark?
    ensures Find(Delete(c, at), l) == Less(at, Find(c, l))
    ensures Dest(Delete(c, at), l) == Less(at, if Dest(c, l) == at then Next(c, at) else Dest(c, l))
  {
    hide Find, Skip;
    var d := Delete(c, at);
    FindDelete(c, at, l);
    assert forall j :: 0 <= j < |d| ==> d[j] == if j < at then c[j] else c[j + 1];
    DestIs(d, l, Less(at, if Dest(c, l) == at then Next(c, at) else Dest(c, l)));
  }

  lemma DestInsert(c: Code, at: nat, l: Label)
    requires at < |c| && !c[at].Mark?
    ensures Find(Returning(c, at), l) == More(at, Find(c, l))
    ensures Dest(Returning(c, at), l) == More(at, Dest(c, l))
  {
    hide Find, Skip;
    var d := Returning(c, at);
    FindInsert(c, at, l);
    assert forall j :: 0 <= j < |d| && j != at && j != at + 1 ==> d[j] == if j < at then c[j] else c[j - 1];
    DestIs(d, l, More(at, Dest(c, l)));
  }

  // ---------------------------------------------------------------- where instructions go

  /** The label position and the instruction that instruction i goes to. */
  function Aim(c: Code, i: nat): (a: nat)
    requires i < |c| && Targets(c[i])
    ensures a <= |c| && (a < |c| ==> c[a].Mark?)
  {
    Find(c, c[i].to)
  }

  function Goes(c: Code, i: nat): (g: nat)
    requires i < |c| && Targets(c[i])
    ensures Aim(c, i) <= g <= |c| && (g < |c| ==> !c[g].Mark?)
  {
    Dest(c, c[i].to)
  }

  /** Instruction i goes to a jump. */
  predicate ToJump(c: Code, i: nat) {
    i < |c| && Targets(c[i]) && Goes(c, i) < |c| && c[Goes(c, i)].Jump?
  }

  lemma AimIs(c: Code, i: nat)
    requires i < |c| && Targets(c[i])
    ensures Aim(c, i) == Find(c, c[i].to) && Goes(c, i) == Dest(c, c[i].to)
  {
  }

  /** The choice at `at`, in these terms. */
  lemma ChoiceIs(c: Code, at: nat)
    requires at < |c| && Lands(c, at)
    ensures !Choose(c, at).Stay? ==> Targets(c[at])
    ensures Targets(c[at]) ==> Goes(c, at) < |c|
    ensures Targets(c[at]) && Choose(c, at).Stay? && ToJump(c, at) ==>
              c[at].Jump? && (Goes(c, at) == at || c[Goes(c, at)].to == c[at].to)
    ensures Choose(c, at).Remove? ==> c[at].Jump? && Goes(c, at) == Next(c, at) && Rewritten(c, at) == Delete(c, at)
    ensures Choose(c, at).Retarget? ==>
              && ToJump(c, at) && Choose(c, at).to == c[Goes(c, at)].to && Goes(c, at) != at
              && Rewritten(c, at) == c[at := WithTarget(c[at], c[Goes(c, at)].to)]
    ensures Choose(c, at).Retarget? && c[at].Jump? ==> c[Goes(c, at)].to != c[at].to
    ensures Choose(c, at).ReturnHere? ==> c[at].Jump? && Rewritten(c, at) == Returning(c, at)
    ensures Choose(c, at).Invert? ==>
              var p := Choose(c, at).p;
              && p < at && Branch(c[p]) && c[at].Jump? && (!ToJump(c, at) || Goes(c, at) == at)
              && Goes(c, p) == Next(c, at) && Rewritten(c, at) == Delete(c[p := Inverse(c[p], c[at].to)], at)
              && forall k :: p < k < at ==> c[k].Mark?
  {
    hide Find, Skip;
  }

  lemma ReplaceAt(c: Code, at: nat, e: Elem, i: nat)
    requires at < |c| && i < |c| && Targets(c[at]) && Targets(e)
    ensures var d := c[at := e];
            && |d| == |c| && d[i] == (if i == at then e else c[i])
            && (i != at && Targets(c[i]) ==> Aim(d, i) == Aim(c, i) && Goes(d, i) == Goes(c, i))
            && (i == at ==> Aim(d, at) == Find(c, e.to) && Goes(d, at) == Dest(c, e.to))
  {
    hide Find, Skip;
    if i == at {
      DestReplace(c, at, e, e.to);
    } else if Targets(c[i]) {
      DestReplace(c, at, e, c[i].to);
    }
  }

  lemma DeleteAt(c: Code, at: nat, i: nat)
    requires at < |c| && i < |c| && i != at && !c[at].Mark?
    ensures var d, k := Delete(c, at), Less(at, i);
            && |d| == |c| - 1 && d[k] == c[i]
            && (Targets(c[i]) ==>
                  && Aim(d, k) == Less(at, Aim(c, i))
                  && Goes(d, k) == Less(at, if Goes(c, i) == at then Next(c, at) else Goes(c, i)))
  {
    hide Find, Skip;
    if Targets(c[i]) {
      DestDelete(c, at, c[i].to);
    }
  }

  lemma InsertAt(c: Code, at: nat, i: nat)
    requires at < |c| && i < |c| && i != at && !c[at].Mark?
    ensures var d, k := Returning(c, at), More(at, i);
            && |d| == |c| + 1 && d[k] == c[i] && d[at] == Leave && d[at + 1] == Pop
            && (Targets(c[i]) ==> Aim(d, k) == More(at, Aim(c, i)) && Goes(d, k) == More(at, Goes(c, i)))
  {
    hide Find, Skip;
    if Targets(c[i]) {
      DestInsert(c, at, c[i].to);
    }
  }

  lemma {:induction false} SkipReplace(c: Code, p: nat, e: Elem, i: nat)
    requires p < i <= |c|
    ensures Skip(c[p := e], i) == Skip(c, i)
    decreases |c| - i
  {
    if i < |c| {
      SkipReplace(c, p, e, i + 1);
    }
  }

  // ---------------------------------------------------------------- the pass

  /** The code and the element the pass has come to. */
  datatype Pass = Pass(code: Code, at: nat)

  /** The position after an element that is not threaded again. */
  function After(c: Code, at: nat): nat
    requires at < |c| && Lands(c, at)
  {
    match Choose(c, at)
    case Remove => at
    case Invert(_) => at
    case ReturnHere => at + 2
    case Retarget(_) => if c[at].Jump? then at else at + 1 // goto again
    case Stay => at + 1
  }

  /** One decision of iseq_peephole_optimize. */
  function Turn(x: Pass): Pass {
    if x.at < |x.code| && Lands(x.code, x.at) then Pass(Rewritten(x.code, x.at), After(x.code, x.at)) else x
  }

  function Turns(x: Pass, n: nat): Pass
    decreases n
  {
    if n == 0 then x else Turns(Turn(x), n - 1)
  }

  lemma {:induction false} TurnsJoin(x: Pass, n: nat, m: nat)
    ensures Turns(x, n + m) == Turns(Turns(x, n), m)
    decreases n
  {
    hide Turn;
    if n > 0 {
      TurnsJoin(Turn(x), n - 1, m);
    }
  }

  lemma TurnsOn(x: Pass, n: nat)
    ensures Turns(x, 0) == x && Turns(x, n + 1) == Turn(Turns(x, n))
  {
    hide Turn;
    TurnsJoin(x, n, 1);
  }

  /** An inversion made here finds no used label between branch and jump. */
  ghost predicate SealedHere(x: Pass) {
    x.at < |x.code| && Lands(x.code, x.at) && Choose(x.code, x.at).Invert? ==>
      Sealed(x.code, Choose(x.code, x.at).p, x.at)
  }

  /** So it is at every element the pass comes to. */
  ghost predicate SealedPass(x: Pass) { forall n: nat :: SealedHere(Turns(x, n)) }

  lemma SealedOn(x: Pass)
    requires SealedPass(x)
    ensures SealedHere(x) && SealedPass(Turn(x))
  {
    hide SealedHere, Turn;
    assert Turns(x, 0) == x;
    forall n: nat ensures SealedHere(Turns(Turn(x), n)) {
      assert Turns(x, n + 1) == Turns(Turn(x), n);
    }
  }

  // ---------------------------------------------------------------- no jump cycles

  /** The target of i has an instruction, and if that is a jump its own target ranks lower, or is the same label. */
  ghost predicate RankedAt(c: Code, i: nat, rank: Label -> nat) {
    i < |c| && Targets(c[i]) ==>
      Goes(c, i) < |c| && (ToJump(c, i) ==> c[Goes(c, i)].to == c[i].to || rank(c[Goes(c, i)].to) < rank(c[i].to))
  }

  /** The labels can be ranked so that jumps to jumps only lead down: there is no cycle of jumps but a jump to
      itself. */
  ghost predicate Ranked(c: Code, rank: Label -> nat) { forall i :: 0 <= i < |c| ==> RankedAt(c, i, rank) }

  lemma RankedThreading(c: Code, at: nat, i: nat, rank: Label -> nat)
    requires at < |c| && i < |c| && Ranked(c, rank) && ToJump(c, at) && Goes(c, at) != at
    ensures RankedAt(c[at := WithTarget(c[at], c[Goes(c, at)].to)], i, rank)
  {
    hide Find, Skip, Aim, Goes;
    var via := Goes(c, at);
    var e := WithTarget(c[at], c[via].to);
    AimIs(c, via);
    assert RankedAt(c, at, rank) && RankedAt(c, i, rank) && RankedAt(c, via, rank);
    ReplaceAt(c, at, e, i);
    var d := c[at := e];
    if Targets(d[i]) {
      ReplaceAt(c, at, e, Goes(d, i));
    }
  }

  /** Deleting a jump to the next instruction, or one that nothing goes to. */
  lemma RankedDeletion(c: Code, at: nat, i: nat, rank: Label -> nat)
    requires at < |c| && i < |c| && i != at && Ranked(c, rank) && c[at].Jump? && Next(c, at) < |c|
    requires Targets(c[i]) && Goes(c, i) == at ==> Goes(c, at) == Next(c, at)
    ensures RankedAt(Delete(c, at), Less(at, i), rank)
  {
    hide Find, Skip, Aim, Goes, Delete;
    assert RankedAt(c, i, rank) && RankedAt(c, at, rank);
    DeleteAt(c, at, i);
    if Targets(c[i]) {
      DeleteAt(c, at, if Goes(c, i) == at then Next(c, at) else Goes(c, i));
    }
  }

  lemma RankedReturn(c: Code, at: nat, i: nat, rank: Label -> nat)
    requires at < |c| && i < |c| && i != at && Ranked(c, rank) && c[at].Jump?
    ensures RankedAt(Returning(c, at), More(at, i), rank)
  {
    hide Find, Skip, Aim, Goes, Returning;
    assert RankedAt(c, i, rank);
    InsertAt(c, at, i);
    if Targets(c[i]) && Goes(c, i) != at {
      InsertAt(c, at, Goes(c, i));
    }
  }

  /** In a sealed pair nothing goes to the jump. */
  lemma NothingGoes(c: Code, p: nat, at: nat, i: nat)
    requires p < at < |c| && !c[p].Mark? && !c[at].Mark? && (forall k :: p < k < at ==> c[k].Mark?) && Sealed(c, p, at)
    requires i < |c| && Targets(c[i])
    ensures Goes(c, i) != at
  {
    hide Find;
    var a := Aim(c, i);
    assert a < |c| ==> c[a] == Mark(c[i].to) && Referenced(c, c[i].to);
  }

  /** Nor does anything once the branch has been turned to where the jump goes. */
  lemma NothingGoesTurned(c: Code, p: nat, at: nat, i: nat)
    requires p < at < |c| && Branch(c[p]) && c[at].Jump? && (forall k :: p < k < at ==> c[k].Mark?) && Sealed(c, p, at)
    requires i < |c|
    ensures var b := c[p := Inverse(c[p], c[at].to)]; |b| == |c| && (Targets(b[i]) ==> Goes(b, i) != at)
  {
    hide Find, Skip, Aim, Goes, Sealed;
    NothingGoes(c, p, at, at);
    AimIs(c, at);
    ReplaceAt(c, p, Inverse(c[p], c[at].to), i);
    if Targets(c[i]) {
      NothingGoes(c, p, at, i);
    }
  }

  lemma RankedTurning(c: Code, p: nat, at: nat, i: nat, rank: Label -> nat)
    requires p < at < |c| && i < |c| && Ranked(c, rank) && Branch(c[p]) && c[at].Jump? && !ToJump(c, at)
    ensures RankedAt(c[p := Inverse(c[p], c[at].to)], i, rank)
  {
    hide Find, Skip, Aim, Goes;
    var e := Inverse(c[p], c[at].to);
    AimIs(c, at);
    assert RankedAt(c, at, rank) && RankedAt(c, i, rank);
    ReplaceAt(c, p, e, i);
    var b := c[p := e];
    if Targets(b[i]) {
      ReplaceAt(c, p, e, Goes(b, i));
    }
  }

  lemma RankedInversion(c: Code, at: nat, rank: Label -> nat)
    requires at < |c| && Lands(c, at) && Ranked(c, rank) && Choose(c, at).Invert? && Sealed(c, Choose(c, at).p, at)
    ensures Ranked(Rewritten(c, at), rank)
  {
    hide Find, Skip, Aim, Goes, Choose, Sealed, RankedAt;
    ChoiceIs(c, at);
    var p := Choose(c, at).p;
    var b := c[p := Inverse(c[p], c[at].to)];
    var d := Delete(b, at);
    NothingGoes(c, p, at, at);
    AimIs(c, at);
    forall i | 0 <= i < |b| ensures RankedAt(b, i, rank) && (Targets(b[i]) ==> Goes(b, i) != at) {
      RankedTurning(c, p, at, i, rank);
      NothingGoesTurned(c, p, at, i);
    }
    SkipReplace(c, p, b[p], at + 1);
    RankedGoes(c, p, rank);
    forall i | 0 <= i < |d| ensures RankedAt(d, i, rank) {
      RankedDeletion(b, at, if i < at then i else i + 1, rank);
    }
  }

  lemma RankedGoes(c: Code, i: nat, rank: Label -> nat)
    requires Ranked(c, rank) && i < |c|
    ensures Lands(c, i) && (Targets(c[i]) ==> Goes(c, i) < |c|)
    ensures ToJump(c, i) && c[Goes(c, i)].to != c[i].to ==> rank(c[Goes(c, i)].to) < rank(c[i].to)
  {
    hide Find, Skip;
    assert RankedAt(c, i, rank);
  }

  /** Every decision keeps the ranking, an inversion when sealed. */
  lemma RankedOn(c: Code, at: nat, rank: Label -> nat)
    requires at < |c| && Lands(c, at) && Ranked(c, rank) && SealedHere(Pass(c, at))
    ensures Ranked(Rewritten(c, at), rank)
  {
    hide Find, Skip, Aim, Goes, Choose, Sealed, RankedAt;
    ChoiceIs(c, at);
    RankedGoes(c, at, rank);
    var d := Rewritten(c, at);
    match Choose(c, at)
    case Stay =>
    case Remove =>
      forall i | 0 <= i < |d| ensures RankedAt(d, i, rank) {
        RankedDeletion(c, at, if i < at then i else i + 1, rank);
      }
    case Retarget(_) =>
      forall i | 0 <= i < |d| ensures RankedAt(d, i, rank) {
        RankedThreading(c, at, i, rank);
      }
    case ReturnHere =>
      forall i | 0 <= i < |d| ensures RankedAt(d, i, rank) {
        if i != at && i != at + 1 {
          RankedReturn(c, at, if i < at then i else i - 1, rank);
        } else {
          assert !Targets(d[i]);
          NoTarget(d, i, rank);
        }
      }
    case Invert(_) => RankedInversion(c, at, rank);
  }

  lemma NoTarget(c: Code, i: nat, rank: Label -> nat)
    requires i < |c| && !Targets(c[i])
    ensures RankedAt(c, i, rank)
  {
  }

  // ---------------------------------------------------------------- the pass in place

  /** The same runs from the start, whatever the opaque instructions and tests do. */
  ghost predicate Equivalent<S(!new)>(c: Code, d: Code) { forall env: Env<S> :: SameRuns(c, 0, d, 0, env) }

  lemma EquivalentOn<S(!new)>(c: Code, d: Code, at: nat)
    requires Equivalent<S>(c, d) && at < |d| && Lands(d, at) && SealedHere(Pass(d, at))
    ensures Equivalent<S>(c, Rewritten(d, at))
  {
    hide SameRuns, Choose, Rewritten, Sealed, Lands;
    forall env: Env<S> ensures SameRuns(c, 0, Rewritten(d, at), 0, env) {
      RewritePreserves(d, at, env);
      Transitive(c, d, Rewritten(d, at), env);
    }
  }

  lemma EquivalentSelf<S(!new)>(c: Code)
    ensures Equivalent<S>(c, c)
  {
    forall env: Env<S> ensures SameRuns(c, 0, c, 0, env) {
      Reflexive(c, env);
    }
  }

  /** After a decision the pass is further on, or at the same jump with a lower target. */
  lemma TurnIs(c: Code, at: nat, rank: Label -> nat)
    requires at < |c| && Ranked(c, rank)
    ensures Lands(c, at) && var x := Turn(Pass(c, at));
            && x == Pass(Rewritten(c, at), After(c, at)) && x.at <= |x.code|
            && (c[at].Jump? && Choose(c, at).Retarget? ==>
                  x.at == at && |x.code| == |c| && x.code[at].Jump? && rank(x.code[at].to) < rank(c[at].to))
            && (!(c[at].Jump? && Choose(c, at).Retarget?) ==> at <= x.at && |x.code| - x.at < |c| - at)
  {
    hide Find, Skip, Aim, Goes, Choose, RankedAt, Ranked;
    RankedGoes(c, at, rank);
    ChoiceIs(c, at);
  }

  class InsnList {
    var code: Code

    constructor (c: Code)
      ensures code == c
    {
      code := c;
    }

    /** iseq_peephole_optimize on the element at `at`; the result is the element to go on with. */
    method PeepholeAt<S(!new)>(at: nat, ghost rank: Label -> nat) returns (next: nat, ghost turns: nat)
      requires at < |code| && Ranked(code, rank) && SealedPass(Pass(code, at))
      modifies this
      ensures Ranked(code, rank) && SealedPass(Pass(code, next)) && at <= next <= |code|
              && |code| - next < |old(code)| - at
      ensures Turns(Pass(old(code), at), turns) == Pass(code, next)
      ensures Equivalent<S>(old(code), code)
    {
      hide Ranked, SealedPass, SealedHere, Choose, Rewritten, Equivalent, Turn, Turns;
      turns := 0;
      ghost var before := code;
      EquivalentSelf<S>(code);
      TurnIs(code, at, rank);
      TurnsOn(Pass(before, at), 0);
      while code[at].Jump? && Choose(code, at).Retarget? // goto again
        invariant |code| == |before| && Ranked(code, rank) && SealedPass(Pass(code, at)) && Lands(code, at)
        invariant Equivalent<S>(before, code) && Turns(Pass(before, at), turns) == Pass(code, at)
        decreases if code[at].Jump? then rank(code[at].to) else 0
      {
        TurnIs(code, at, rank);
        SealedOn(Pass(code, at));
        RankedOn(code, at, rank);
        EquivalentOn<S>(before, code, at);
        TurnsOn(Pass(before, at), turns);
        turns := turns + 1;
        code := Rewritten(code, at);
        RankedGoes(code, at, rank);
      }
      TurnIs(code, at, rank);
      SealedOn(Pass(code, at));
      RankedOn(code, at, rank);
      EquivalentOn<S>(before, code, at);
      TurnsOn(Pass(before, at), turns);
      turns := turns + 1;
      next := After(code, at);
      code := Rewritten(code, at);
    }

    /** iseq_optimize: without jump cycles, and with every inversion sealed, the decisions come to the end of the code,
        and keep every run. */
    method Optimize<S(!new)>(ghost rank: Label -> nat) returns (ghost turns: nat)
      requires Ranked(code, rank) && SealedPass(Pass(code, 0))
      modifies this
      ensures Turns(Pass(old(code), 0), turns) == Pass(code, |code|)
      ensures Equivalent<S>(old(code), code)
    {
      hide Ranked, SealedPass, Equivalent, Turns;
      turns := 0;
      TurnsOn(Pass(code, 0), 0);
      ghost var before := code;
      EquivalentSelf<S>(code);
      var list := 0;
      while list < |code|
        invariant 0 <= list <= |code| && Ranked(code, rank) && SealedPass(Pass(code, list))
                  && Equivalent<S>(before, code)
        invariant Turns(Pass(before, 0), turns) == Pass(code, list)
        decreases |code| - list
      {
        ghost var c, more := code, 0;
        list, more := PeepholeAt<S>(list, rank);
        TurnsJoin(Pass(before, 0), turns, more);
        turns := turns + more;
        EquivalentJoin<S>(before, c, code);
      }
    }
  }

  lemma EquivalentJoin<S(!new)>(c: Code, d: Code, e: Code)
    requires Equivalent<S>(c, d) && Equivalent<S>(d, e)
    ensures Equivalent<S>(c, e)
  {
    hide SameRuns;
    forall env: Env<S> ensures SameRuns(c, 0, e, 0, env) {
      Transitive(c, d, e, env);
    }
  }
}
