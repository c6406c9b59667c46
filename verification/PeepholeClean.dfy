/** Code on which the pass (iseq_optimize in `compile.c`) is right, told from the code alone. */
module PeepholeClean {
  import opened Iseq
  import opened Peephole
  import opened PeepholePass

  /** An instruction that no rewrite touches. */
  predicate Wall(e: Elem) { e.Op? || e.Leave? || e.Pop? }

  /** Between every branch before j and j there is such an instruction, so that no branch is ever inverted over j. */
  ghost predicate Guarded(c: Code, j: nat) { forall p :: 0 <= p < j && p < |c| && Branch(c[p]) ==> WallWithin(c, p, j) }

  ghost predicate WallWithin(c: Code, p: nat, j: nat) { exists k :: p < k < j && k < |c| && Wall(c[k]) }

  /** A jump that is never inverted over and goes to no other jump. */
  ghost predicate Solid(c: Code, j: nat) { Guarded(c, j) && !ToJump(c, j) }

  /** The target of i has an instruction. If that is a jump, it is a solid one, or i lies before it and, being a
      branch, does not go to a jump to a jump that is not solid. */
  ghost predicate CleanAt(c: Code, i: nat) {
    i < |c| && Targets(c[i]) ==>
      && Goes(c, i) < |c|
      && (ToJump(c, i) ==>
            || Solid(c, Goes(c, i))
            || (i < Aim(c, i) && (Branch(c[i]) && ToJump(c, Goes(c, i)) ==> Solid(c, Goes(c, Goes(c, i))))))
  }

  ghost predicate Clean(c: Code) { forall i :: 0 <= i < |c| ==> CleanAt(c, i) }

  /** Clean code in which everything before n that goes to a jump goes to a solid one. */
  ghost predicate Threaded(c: Code, n: nat) {
    Clean(c) && forall i :: 0 <= i < n && ToJump(c, i) ==> Solid(c, Goes(c, i))
  }

  // ---------------------------------------------------------------- clean code ranks its labels

  ghost function RankOf(c: Code): Label -> nat {
    l => if Dest(c, l) < |c| && c[Dest(c, l)].Jump? then (if Solid(c, Dest(c, l)) then 1 else |c| - Find(c, l) + 2)
      else 0
  }

  /** Jumps to jumps lead forward, or to a solid jump and no further: there is no cycle. */
  lemma CleanRanked(c: Code)
    requires Clean(c)
    ensures Ranked(c, RankOf(c))
  {
    hide Find, Skip, Guarded;
    forall i | 0 <= i < |c| ensures RankedAt(c, i, RankOf(c)) {
      assert CleanAt(c, i);
      if ToJump(c, i) {
        assert CleanAt(c, Goes(c, i));
      }
    }
  }

  // ---------------------------------------------------------------- each rewrite keeps the code clean

  lemma GuardedReplace(c: Code, at: nat, e: Elem, j: nat)
    requires at < |c| && !Wall(c[at]) && Guarded(c, j) && (Branch(e) ==> Branch(c[at]))
    ensures Guarded(c[at := e], j)
  {
    hide Wall, Branch, WallWithin;
    var d := c[at := e];
    forall p | 0 <= p < j && p < |d| && Branch(d[p]) ensures WallWithin(d, p, j) {
      assert Branch(c[p]);
      WallMoves(c, p, j, d, p, j, k => k);
    }
  }

  /** A wall between p and j is one between the places that p and j move to, when it moves along. */
  lemma WallMoves(c: Code, p: nat, j: nat, d: Code, q: nat, i: nat, move: nat -> nat)
    requires WallWithin(c, p, j)
    requires forall k: nat :: p < k < j && k < |c| && Wall(c[k]) ==>
               q < move(k) < i && move(k) < |d| && d[move(k)] == c[k]
    ensures WallWithin(d, q, i)
  {
    hide Wall;
    var k :| p < k < j && k < |c| && Wall(c[k]);
    assert Wall(d[move(k)]);
  }

  lemma GuardedDelete(c: Code, at: nat, j: nat)
    requires at < |c| && !Wall(c[at]) && Guarded(c, j) && j <= |c|
    ensures Guarded(Delete(c, at), Less(at, j))
  {
    hide Wall, Branch, WallWithin;
    var d := Delete(c, at);
    forall p | 0 <= p < Less(at, j) && p < |d| && Branch(d[p]) ensures WallWithin(d, p, Less(at, j)) {
      var q := if p < at then p else p + 1;
      assert Branch(c[q]);
      WallMoves(c, q, j, d, p, Less(at, j), k => Less(at, k));
    }
  }

  lemma GuardedInsert(c: Code, at: nat, j: nat)
    requires at < |c| && !Wall(c[at]) && Guarded(c, j) && j <= |c| && j != at
    ensures Guarded(Returning(c, at), More(at, j))
  {
    hide Wall, WallWithin;
    var d := Returning(c, at);
    forall p | 0 <= p < More(at, j) && p < |d| && Branch(d[p]) ensures WallWithin(d, p, More(at, j)) {
      assert p != at && p != at + 1;
      var q := if p < at then p else p - 1;
      assert Branch(c[q]);
      WallMoves(c, q, j, d, p, More(at, j), k => More(at, k));
    }
  }

  /** The pass never inverts around a label in use. */
  lemma SealedInPass(c: Code, at: nat)
    requires at < |c| && Lands(c, at) && Threaded(c, at) && Choose(c, at).Invert?
    ensures Sealed(c, Choose(c, at).p, at)
  {
    hide Find, Skip, Choose;
    ChoiceIs(c, at);
    var p := Choose(c, at).p;
    assert Branch(c[p]);
    assert !Guarded(c, at);
    forall k | 0 <= k < |c| && p < k < at && c[k].Mark? && Find(c, c[k].name) == k
      ensures !Referenced(c, c[k].name)
    {
      DestIs(c, c[k].name, at);
      forall i: nat | i < |c| && Targets(c[i]) ensures c[i].to != c[k].name {
        assert CleanAt(c, i) && (c[i].to == c[k].name ==> ToJump(c, i));
      }
    }
  }

  /** Sending `at` where the jump it goes to takes it. */
  lemma CleanThreading(c: Code, at: nat, i: nat)
    requires at < |c| && i < |c| && Clean(c) && ToJump(c, at) && Goes(c, at) != at
    ensures var d := c[at := WithTarget(c[at], c[Goes(c, at)].to)];
            && CleanAt(d, i)
            && (i != at && ToJump(d, i) && (ToJump(c, i) ==> Solid(c, Goes(c, i))) ==> Solid(d, Goes(d, i)))
            && (i == at && Branch(c[at]) && ToJump(d, at) ==> Solid(d, Goes(d, at)))
  {
    hide Find, Skip, Aim, Goes, Guarded;
    var via := Goes(c, at);
    var e := WithTarget(c[at], c[via].to);
    var d := c[at := e];
    AimIs(c, via);
    assert CleanAt(c, at) && CleanAt(c, i) && CleanAt(c, via);
    ReplaceAt(c, at, e, i);
    if Targets(d[i]) {
      var j := Goes(d, i);
      ReplaceSolid(c, at, e, j);
      if Targets(d[j]) {
        assert CleanAt(c, j);
        ReplaceSolid(c, at, e, Goes(d, j));
      }
    }
  }

  /** At another position, nothing of this changes when a jump or branch is sent elsewhere. */
  lemma ReplaceSolid(c: Code, at: nat, e: Elem, j: nat)
    requires at < |c| && Clean(c) && Targets(c[at]) && Targets(e) && (Branch(e) <==> Branch(c[at]))
    requires j < |c|
    ensures var d := c[at := e];
            && (j != at ==>
                  && d[j] == c[j] && ToJump(d, j) == ToJump(c, j)
                  && (Targets(c[j]) ==> Goes(d, j) == Goes(c, j) && Aim(d, j) == Aim(c, j)))
            && (j == at ==> d[j] == e && Goes(d, j) == Dest(c, e.to) && Aim(d, j) == Find(c, e.to))
            && (Guarded(c, j) ==> Guarded(d, j))
            && (j != at && Solid(c, j) ==> Solid(d, j))
  {
    hide Find, Skip, Aim, Goes, Guarded;
    assert CleanAt(c, j);
    ReplaceAt(c, at, e, j);
    if Guarded(c, j) {
      GuardedReplace(c, at, e, j);
    }
    if j != at && Targets(c[j]) {
      ReplaceAt(c, at, e, Goes(c, j));
    }
  }

  lemma DeleteSolid(c: Code, at: nat, j: nat)
    requires at < |c| && j < |c| && j != at && Clean(c) && c[at].Jump? && Next(c, at) < |c|
    ensures var d, k := Delete(c, at), Less(at, j);
            && |d| == |c| - 1 && d[k] == c[j]
            && (Targets(c[j]) ==>
                  && Aim(d, k) == Less(at, Aim(c, j))
                  && Goes(d, k) == Less(at, if Goes(c, j) == at then Next(c, at) else Goes(c, j)))
            && (Targets(c[j]) && Goes(c, j) != at ==> ToJump(d, k) == ToJump(c, j))
            && (Solid(c, j) ==> Solid(d, k))
  {
    hide Find, Skip, Aim, Goes, Guarded, Delete;
    assert CleanAt(c, j);
    DeleteAt(c, at, j);
    if Guarded(c, j) {
      GuardedDelete(c, at, j);
    }
    if Targets(c[j]) && Goes(c, j) != at {
      DeleteAt(c, at, Goes(c, j));
    }
  }

  /** Deleting a jump to the next instruction, or one that nothing goes to. */
  lemma CleanDeletion(c: Code, at: nat, i: nat)
    requires at < |c| && i < |c| && i != at && Clean(c) && c[at].Jump? && Next(c, at) < |c|
    requires Targets(c[i]) && Goes(c, i) == at ==> Goes(c, at) == Next(c, at)
    requires forall k :: 0 <= k < |c| && Targets(c[k]) && Goes(c, k) == at ==> Goes(c, at) == Next(c, at)
    ensures var d, k := Delete(c, at), Less(at, i);
            CleanAt(d, k) && (ToJump(d, k) && (ToJump(c, i) ==> Solid(c, Goes(c, i))) ==> Solid(d, Goes(d, k)))
  {
    hide Find, Skip, Aim, Goes, Guarded, Delete;
    assert CleanAt(c, i) && CleanAt(c, at);
    DeleteSolid(c, at, i);
    if Targets(c[i]) {
      var j := if Goes(c, i) == at then Next(c, at) else Goes(c, i);
      DeleteSolid(c, at, j);
      if Targets(c[j]) {
        assert CleanAt(c, j);
        DeleteSolid(c, at, if Goes(c, j) == at then Next(c, at) else Goes(c, j));
      }
    }
  }

  lemma InsertSolid(c: Code, at: nat, j: nat)
    requires at < |c| && j < |c| && j != at && Clean(c) && c[at].Jump?
    ensures var d, k := Returning(c, at), More(at, j);
            && |d| == |c| + 1 && d[k] == c[j] && d[at] == Leave && d[at + 1] == Pop
            && (Targets(c[j]) ==> Aim(d, k) == More(at, Aim(c, j)) && Goes(d, k) == More(at, Goes(c, j)))
            && (ToJump(d, k) ==> ToJump(c, j))
            && (Solid(c, j) ==> Solid(d, k))
  {
    hide Find, Skip, Aim, Goes, Guarded, Returning;
    assert CleanAt(c, j);
    InsertAt(c, at, j);
    if Guarded(c, j) {
      GuardedInsert(c, at, j);
    }
    if Targets(c[j]) && Goes(c, j) != at {
      InsertAt(c, at, Goes(c, j));
    }
  }

  lemma CleanReturn(c: Code, at: nat, i: nat)
    requires at < |c| && i < |c| && i != at && Clean(c) && c[at].Jump?
    ensures var d, k := Returning(c, at), More(at, i);
            CleanAt(d, k) && (ToJump(d, k) && (ToJump(c, i) ==> Solid(c, Goes(c, i))) ==> Solid(d, Goes(d, k)))
  {
    hide Find, Skip, Aim, Goes, Guarded, Returning;
    assert CleanAt(c, i);
    InsertSolid(c, at, i);
    if Targets(c[i]) && Goes(c, i) != at {
      var j := Goes(c, i);
      InsertSolid(c, at, j);
      assert CleanAt(c, j);
      if Targets(c[j]) && Goes(c, j) != at {
        InsertSolid(c, at, Goes(c, j));
      }
    }
  }

  /** Turning a branch around, before the jump goes. */
  lemma CleanTurning(c: Code, p: nat, at: nat, i: nat)
    requires p < at < |c| && i < |c| && Clean(c) && Branch(c[p]) && c[at].Jump? && !ToJump(c, at)
    ensures var b := c[p := Inverse(c[p], c[at].to)];
            CleanAt(b, i) && (ToJump(b, i) && (ToJump(c, i) ==> Solid(c, Goes(c, i))) ==> Solid(b, Goes(b, i)))
  {
    hide Find, Skip, Aim, Goes, Guarded;
    var e := Inverse(c[p], c[at].to);
    var b := c[p := e];
    AimIs(c, at);
    assert CleanAt(c, at) && CleanAt(c, i);
    ReplaceSolid(c, p, e, i);
    if Targets(b[i]) {
      var j := Goes(b, i);
      ReplaceSolid(c, p, e, j);
      if Targets(b[j]) {
        assert CleanAt(c, j);
        ReplaceSolid(c, p, e, Goes(b, j));
      }
    }
  }

  lemma CleanInversion(c: Code, at: nat)
    requires at < |c| && Lands(c, at) && Threaded(c, at) && Choose(c, at).Invert?
    ensures Threaded(Rewritten(c, at), at)
  {
    hide Find, Skip, Aim, Goes, Choose, CleanAt, Solid, Sealed;
    ChoiceIs(c, at);
    SealedInPass(c, at);
    var p := Choose(c, at).p;
    var b := c[p := Inverse(c[p], c[at].to)];
    var d := Delete(b, at);
    NothingGoes(c, p, at, at);
    AimIs(c, at);
    forall i | 0 <= i < |b|
      ensures CleanAt(b, i) && (i < at && ToJump(b, i) ==> Solid(b, Goes(b, i))) && (Targets(b[i]) ==> Goes(b, i) != at)
    {
      CleanTurning(c, p, at, i);
      NothingGoesTurned(c, p, at, i);
    }
    SkipReplace(c, p, b[p], at + 1);
    CleanGoes(c, p);
    forall i | 0 <= i < |d| ensures CleanAt(d, i) && (i < at && ToJump(d, i) ==> Solid(d, Goes(d, i))) {
      CleanDeletion(b, at, if i < at then i else i + 1);
    }
  }

  lemma CleanGoes(c: Code, i: nat)
    requires Clean(c) && i < |c|
    ensures Lands(c, i) && (Targets(c[i]) ==> Goes(c, i) < |c|)
  {
    hide Find, Skip;
    assert CleanAt(c, i);
  }

  /** A jump that stays goes to no jump: one to itself would be no clean code. */
  lemma StayIsSolid(c: Code, at: nat)
    requires at < |c| && Lands(c, at) && Clean(c) && Choose(c, at).Stay?
    ensures !ToJump(c, at)
  {
    hide Find, Skip, Choose;
    ChoiceIs(c, at);
    assert CleanAt(c, at);
    if Targets(c[at]) {
      AimIs(c, at);
      var j := Goes(c, at);
      assert CleanAt(c, j);
      if Targets(c[j]) {
        AimIs(c, j);
      }
    }
  }

  /** Every decision of the pass keeps the code clean and what is behind it threaded. */
  lemma ThreadedOn(c: Code, at: nat)
    requires at < |c| && Lands(c, at) && Threaded(c, at)
    ensures Threaded(Rewritten(c, at), After(c, at))
  {
    hide Find, Skip, Aim, Goes, Choose, CleanAt, Solid;
    ChoiceIs(c, at);
    CleanGoes(c, at);
    var d := Rewritten(c, at);
    match Choose(c, at)
    case Stay => StayIsSolid(c, at);
    case Remove =>
      forall i | 0 <= i < |d| ensures CleanAt(d, i) && (i < at && ToJump(d, i) ==> Solid(d, Goes(d, i))) {
        CleanDeletion(c, at, if i < at then i else i + 1);
      }
    case Retarget(_) =>
      forall i | 0 <= i < |d| ensures CleanAt(d, i) && (i < After(c, at) && ToJump(d, i) ==> Solid(d, Goes(d, i))) {
        CleanThreading(c, at, i);
      }
    case ReturnHere =>
      forall i | 0 <= i < |d| ensures CleanAt(d, i) && (i < at + 2 && ToJump(d, i) ==> Solid(d, Goes(d, i))) {
        if i != at && i != at + 1 {
          CleanReturn(c, at, if i < at then i else i - 1);
        } else {
          NotClean(d, i);
        }
      }
    case Invert(_) => CleanInversion(c, at);
  }

  lemma NotClean(c: Code, i: nat)
    requires i < |c| && !Targets(c[i])
    ensures CleanAt(c, i) && !ToJump(c, i)
  {
  }

  // ---------------------------------------------------------------- clean code is safe

  lemma {:induction false} ThreadedTurns(x: Pass, n: nat)
    requires Threaded(x.code, x.at)
    ensures var y := Turns(x, n); Threaded(y.code, y.at)
    decreases n
  {
    hide Threaded, Choose, Rewritten, After;
    if n > 0 {
      if x.at < |x.code| && Lands(x.code, x.at) {
        ThreadedOn(x.code, x.at);
      }
      ThreadedTurns(Turn(x), n - 1);
    }
  }

  /** On clean code there is no jump cycle and every inversion is sealed, so that the pass ends and is right. */
  lemma CleanIsSafe(c: Code)
    requires Clean(c)
    ensures Ranked(c, RankOf(c)) && SealedPass(Pass(c, 0))
  {
    hide Choose, Sealed, Clean, Ranked, Turns;
    CleanRanked(c);
    forall n: nat ensures SealedHere(Turns(Pass(c, 0), n)) {
      ThreadedTurns(Pass(c, 0), n);
      var y := Turns(Pass(c, 0), n);
      if y.at < |y.code| && Lands(y.code, y.at) && Choose(y.code, y.at).Invert? {
        SealedInPass(y.code, y.at);
      }
    }
  }

  /** And where it ends, whatever goes to a jump goes to a solid one, which goes to none. */
  lemma CleanEndsThreaded(c: Code, n: nat, d: Code)
    requires Clean(c) && Turns(Pass(c, 0), n) == Pass(d, |d|)
    ensures Clean(d) && forall i :: 0 <= i < |d| && ToJump(d, i) ==> Solid(d, Goes(d, i))
  {
    hide Clean, Turns, Solid;
    ThreadedTurns(Pass(c, 0), n);
  }
}
