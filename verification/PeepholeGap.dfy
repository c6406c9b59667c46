/** Where inverting a branch over a jump goes wrong: labels between the two (get_prev_insn skips them). */
module PeepholeGap {
  import opened Iseq
  import opened Peephole

  function Marks(gap: seq<Label>): (m: Code)
    ensures |m| == |gap| && forall i :: 0 <= i < |gap| ==> m[i] == Mark(gap[i])
  {
    seq(|gap|, i requires 0 <= i < |gap| => Mark(gap[i]))
  }

  /** The code inverts the branch at p over the jump at `at`, with just these labels between. */
  ghost predicate HasGap(c: Code, p: nat, at: nat, gap: seq<Label>) {
    at < |c| && Lands(c, at) && Choose(c, at) == Invert(p) && at == p + 1 + |gap| && c[p + 1..at] == Marks(gap)
  }

  /** A label that is not in the gap. */
  function Fresh(gap: seq<Label>): (l: Label)
    ensures forall i :: 0 <= i < |gap| ==> gap[i] < l
  {
    if gap == [] then 0 else
      var l := Fresh(gap[1..]);
      assert forall i :: 0 < i < |gap| ==> gap[i] == gap[1..][i - 1];
      if gap[0] < l then l else gap[0] + 1
  }

  function Entered(gap: seq<Label>): Code
    requires gap != []
  {
    var l := Fresh(gap);
    [Jump(gap[0]), BranchIf(l)] + Marks(gap) + [Jump(l + 1), Mark(l), Leave, Mark(l + 1), Op(1), Leave]
  }

  /** The elements of Entered, one by one. */
  ghost predicate Laid(c: Code, gap: seq<Label>) {
    var l, n := Fresh(gap), |gap|;
    && n > 0 && |c| == n + 8 && c[0] == Jump(gap[0]) && c[1] == BranchIf(l)
    && (forall i :: 2 <= i < n + 2 ==> c[i] == Mark(gap[i - 2]))
    && c[n + 2] == Jump(l + 1) && c[n + 3] == Mark(l) && c[n + 4] == Leave
    && c[n + 5] == Mark(l + 1) && c[n + 6] == Op(1) && c[n + 7] == Leave
  }

  lemma EnteredLaid(gap: seq<Label>)
    requires gap != []
    ensures Laid(Entered(gap), gap)
  {
  }

  lemma LaidFinds(c: Code, gap: seq<Label>)
    requires Laid(c, gap)
    ensures var l, n := Fresh(gap), |gap|;
            Find(c, gap[0]) == 2 && Find(c, l) == n + 3 && Find(c, l + 1) == n + 5
  {
    hide Find;
    var l, n := Fresh(gap), |gap|;
    FindIs(c, gap[0], 2);
    FindIs(c, l, n + 3);
    FindIs(c, l + 1, n + 5);
  }

  lemma LaidGap(c: Code, gap: seq<Label>)
    requires Laid(c, gap)
    ensures HasGap(c, 1, |gap| + 2, gap)
  {
    hide Find, Fresh, Skip;
    var l, n := Fresh(gap), |gap|;
    LaidFinds(c, gap);
    assert c[2..n + 2] == Marks(gap);
  }

  lemma EnteredGap(gap: seq<Label>)
    requires gap != []
    ensures HasGap(Entered(gap), 1, |gap| + 2, gap)
  {
    hide *;
    EnteredLaid(gap);
    LaidGap(Entered(gap), gap);
  }

  lemma OnceMore<S(!new)>(c: Code, env: Env<S>, x: Config<S>, n: nat)
    ensures Steps(c, env, x, n + 1) == Step(c, env, Steps(c, env, x, n))
  {
    StepsAdd(c, env, x, n, 1);
    One(c, env, Steps(c, env, x, n));
  }

  /** Before the rewrite the gap's label leads to the jump's target and its instruction runs... */
  lemma EnteredRuns<S(!new)>(gap: seq<Label>, env: Env<S>, s: S, t: seq<int>)
    requires gap != []
    ensures Observed(Entered(gap), env, At(0, s, t), Obs(false, env.exec(1, s), t + [1]))
  {
    hide Find, Entered, Fresh, Steps, Quiet;
    var c, n := Entered(gap), |gap|;
    EnteredLaid(gap);
    LaidFinds(c, gap);
    var x := At(0, s, t);
    One(c, env, x);
    WalkJump(c, env, 2, n + 2, s, t);
    StepsAdd(c, env, x, 1, n + 1);
    OnceMore(c, env, x, n + 2);
    OnceMore(c, env, x, n + 3);
    assert Seen(Steps(c, env, x, n + 4)) == Obs(false, env.exec(1, s), t + [1]);
  }

  /** The code after the rewrite, one by one. */
  lemma TurnedLaid(gap: seq<Label>, d: Code)
    requires gap != [] && EnteredTurns(gap, d)
    ensures var n := |gap|;
            && |d| == n + 7 && d[0] == Jump(gap[0]) && Find(d, gap[0]) == 2
            && (forall i :: 2 <= i < n + 3 ==> d[i].Mark?) && d[n + 3] == Leave
  {
    hide Find, Entered, Fresh;
    var c, n := Entered(gap), |gap|;
    EnteredLaid(gap);
    LaidFinds(c, gap);
    FindInverted(c, 1, n + 2, gap[0]);
  }

  ghost predicate EnteredTurns(gap: seq<Label>, d: Code)
    requires gap != []
  {
    EnteredLaid(gap);
    d == Inverted(Entered(gap), 1, |gap| + 2)
  }

  /** ...and after it the code returns without having run it. */
  lemma EnteredReturns<S(!new)>(gap: seq<Label>, d: Code, env: Env<S>, s: S, t: seq<int>, m: nat)
    requires gap != [] && EnteredTurns(gap, d)
    ensures Steps(d, env, At(0, s, t), m).trace == t
  {
    hide Find, Entered, Fresh, EnteredTurns, Steps, Quiet;
    var n := |gap|;
    TurnedLaid(gap, d);
    var x := At(0, s, t);
    One(d, env, x);
    Walk(d, env, 2, n + 1, s, t);
    if 0 < m <= n + 2 {
      StepsAdd(d, env, x, 1, m - 1);
      QuietSeen(d, env, At(2, s, t), n + 1, m - 1);
    } else if m > n + 2 {
      StepsAdd(d, env, x, 1, n + 1);
      OnceMore(d, env, x, n + 2);
      StepsAdd(d, env, x, n + 3, m - (n + 3));
      StaysReturned(d, env, Returned(s, t), m - (n + 3));
    }
  }

  /** Inverting is right in every code with this gap exactly when the gap holds no label. */
  lemma GapSafeIff<S(!new)>(gap: seq<Label>, env: Env<S>, s: S)
    ensures gap == [] <==> forall c: Code, p, at :: HasGap(c, p, at, gap) ==> SameRuns(c, 0, Rewritten(c, at), 0, env)
  {
    hide Find, Choose, SameRuns;
    if gap == [] {
      forall c: Code, p, at | HasGap(c, p, at, gap) ensures SameRuns(c, 0, Rewritten(c, at), 0, env) {
        RewritePreserves(c, at, env);
      }
    } else {
      EnteredGap(gap);
      var c, at := Entered(gap), |gap| + 2;
      var d := Rewritten(c, at);
      EnteredRuns(gap, env, s, []);
      var o := Obs(false, env.exec(1, s), [] + [1]);
      forall m: nat ensures Seen(Steps(d, env, At(0, s, []), m)) != o {
        EnteredReturns(gap, d, env, s, [], m);
      }
      assert !Observed(d, env, At(0, s, []), o);
      Differ(c, d, env, s, [], o);
    }
  }

  lemma Differ<S(!new)>(c: Code, d: Code, env: Env<S>, s: S, t: seq<int>, o: Obs<S>)
    requires Observed(c, env, At(0, s, t), o) && !Observed(d, env, At(0, s, t), o)
    ensures !SameRuns(c, 0, d, 0, env)
  {
  }
}
