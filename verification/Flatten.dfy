/** Array#flatten (`array.c`): the iterative walk with its explicit stack against the recursive definition. */
module Flatten {

  /** An element: an array by its identity, or anything else. */
  datatype Elt = Val(id: int) | Ref(a: nat)

  type Arrays = map<nat, seq<Elt>>

  ghost predicate Closed(h: Arrays) {
    forall a, i :: a in h && 0 <= i < |h[a]| && h[a][i].Ref? ==> h[a][i].a in h
  }

  /** Recursive is the ArgumentError "tried to flatten recursive array". */
  datatype Result = Flat(out: seq<Elt>, modified: bool) | Recursive

  function Then(r: Result, s: Result): Result {
    if r.Recursive? || s.Recursive? then Recursive else Flat(r.out + s.out, r.modified || s.modified)
  }

  /** Whether an element is copied as it is at this depth. */
  predicate Kept(e: Elt, level: int, depth: nat) { e.Val? || (level >= 0 && depth >= level) }

  /** The elements of array a from i on, flattened; `path` holds a and the arrays around it. */
  ghost function Flattened(h: Arrays, level: int, a: nat, i: nat, path: set<nat>, depth: nat): Result
    requires Closed(h) && a in h && i <= |h[a]|
    decreases |h.Keys - path|, |h[a]| - i
  {
    if i == |h[a]| then Flat([], false)
    else
      var e := h[a][i];
      if Kept(e, level, depth) then Then(Flat([e], false), Flattened(h, level, a, i + 1, path, depth))
      else if e.a in path then Recursive
      else
        Shrinks(h.Keys, path, e.a);
        Then(Then(Flat([], true), Flattened(h, level, e.a, 0, path + {e.a}, depth + 1)),
             Flattened(h, level, a, i + 1, path, depth))
  }

  lemma Shrinks(keys: set<nat>, path: set<nat>, b: nat)
    requires b in keys && b !in path
    ensures |keys - (path + {b})| < |keys - path|
  {
    assert keys - (path + {b}) == (keys - path) - {b};
  }

  // ---------------------------------------------------------------- the explicit stack

  datatype Frame = Frame(a: nat, i: nat)

  function Path(stack: seq<Frame>): set<nat> { set k | 0 <= k < |stack| :: stack[k].a }

  /** The arrays on the stack and the current one are different arrays, at positions they have. */
  ghost predicate Walking(h: Arrays, stack: seq<Frame>, a: nat, i: nat) {
    && a in h && i <= |h[a]| && a !in Path(stack)
    && (forall k :: 0 <= k < |stack| ==> stack[k].a in h && stack[k].i <= |h[stack[k].a]|)
    && (forall k, l :: 0 <= k < l < |stack| ==> stack[k].a != stack[l].a)
  }

  /** What is still to come: the rest of the current array, then of each array on the stack. */
  ghost function Rest(h: Arrays, level: int, stack: seq<Frame>, a: nat, i: nat): Result
    requires Closed(h) && Walking(h, stack, a, i)
    decreases |stack|
  {
    var here := Flattened(h, level, a, i, Path(stack) + {a}, |stack|);
    if stack == [] then here
    else
      var n := |stack| - 1;
      Then(here, Rest(h, level, stack[..n], stack[n].a, stack[n].i))
  }

  lemma Pushed(h: Arrays, stack: seq<Frame>, a: nat, i: nat, b: nat)
    requires Walking(h, stack, a, i) && b in h && b !in Path(stack) + {a}
    ensures var s := stack + [Frame(a, i)];
            Walking(h, s, b, 0) && Path(s) == Path(stack) + {a} && s[..|stack|] == stack
  {
    var s := stack + [Frame(a, i)];
    assert s[|stack|].a == a;
    forall x | x in Path(stack) ensures x in Path(s) {
      var k :| 0 <= k < |stack| && stack[k].a == x;
      assert s[k].a == x;
    }
  }

  lemma ThenAssoc(r: Result, s: Result, t: Result)
    ensures Then(Then(r, s), t) == Then(r, Then(s, t))
  {
    if r.Flat? && s.Flat? && t.Flat? {
      assert (r.out + s.out) + t.out == r.out + (s.out + t.out);
    }
  }

  lemma ThenNothing(r: Result)
    ensures Then(Flat([], false), r) == r && Then(r, Flat([], false)) == r
  {
    if r.Flat? {
      assert [] + r.out == r.out && r.out + [] == r.out;
    }
  }

  /** An element that is copied. */
  lemma RestKept(h: Arrays, level: int, stack: seq<Frame>, a: nat, i: nat)
    requires Closed(h) && Walking(h, stack, a, i) && i < |h[a]| && Kept(h[a][i], level, |stack|)
    ensures Walking(h, stack, a, i + 1)
    ensures Rest(h, level, stack, a, i) == Then(Flat([h[a][i]], false), Rest(h, level, stack, a, i + 1))
  {
    hide Then;
    if stack != [] {
      var n := |stack| - 1;
      ThenAssoc(Flat([h[a][i]], false), Flattened(h, level, a, i + 1, Path(stack) + {a}, |stack|),
                Rest(h, level, stack[..n], stack[n].a, stack[n].i));
    }
  }

  /** An array that is entered. */
  lemma RestEntered(h: Arrays, level: int, stack: seq<Frame>, a: nat, i: nat)
    requires Closed(h) && Walking(h, stack, a, i) && i < |h[a]| && !Kept(h[a][i], level, |stack|)
    requires h[a][i].a !in Path(stack) + {a}
    ensures Walking(h, stack + [Frame(a, i + 1)], h[a][i].a, 0)
    ensures Rest(h, level, stack, a, i) == Then(Flat([], true), Rest(h, level, stack + [Frame(a, i + 1)], h[a][i].a, 0))
  {
    hide Then;
    var b, s := h[a][i].a, stack + [Frame(a, i + 1)];
    Pushed(h, stack, a, i + 1, b);
    var path := Path(stack) + {a};
    var inner, after := Flattened(h, level, b, 0, path + {b}, |stack| + 1),
      Flattened(h, level, a, i + 1, path, |stack|);
    assert Rest(h, level, s, b, 0) == Then(inner, Rest(h, level, stack, a, i + 1));
    assert Flattened(h, level, a, i, path, |stack|) == Then(Then(Flat([], true), inner), after);
    if stack == [] {
      ThenAssoc(Flat([], true), inner, after);
    } else {
      var n := |stack| - 1;
      var rest := Rest(h, level, stack[..n], stack[n].a, stack[n].i);
      ThenAssoc(Then(Flat([], true), inner), after, rest);
      ThenAssoc(Flat([], true), inner, Then(after, rest));
    }
  }

  /** An array inside itself. */
  lemma RestRecursive(h: Arrays, level: int, stack: seq<Frame>, a: nat, i: nat)
    requires Closed(h) && Walking(h, stack, a, i) && i < |h[a]| && !Kept(h[a][i], level, |stack|)
    requires h[a][i].a in Path(stack) + {a}
    ensures Rest(h, level, stack, a, i) == Recursive
  {
  }

  /** The end of an array. */
  lemma RestPopped(h: Arrays, level: int, stack: seq<Frame>, a: nat)
    requires Closed(h) && a in h && Walking(h, stack, a, |h[a]|)
    ensures stack == [] ==> Rest(h, level, stack, a, |h[a]|) == Flat([], false)
    ensures stack != [] ==>
              var n := |stack| - 1;
              && Walking(h, stack[..n], stack[n].a, stack[n].i)
              && Rest(h, level, stack, a, |h[a]|) == Rest(h, level, stack[..n], stack[n].a, stack[n].i)
  {
    hide Then;
    if stack != [] {
      var n := |stack| - 1;
      ThenNothing(Rest(h, level, stack[..n], stack[n].a, stack[n].i));
    }
  }

  // ---------------------------------------------------------------- how long it takes

  /** Steps to walk the rest of array a. */
  ghost function Work(h: Arrays, level: int, a: nat, i: nat, path: set<nat>, depth: nat): nat
    requires Closed(h) && a in h && i <= |h[a]|
    decreases |h.Keys - path|, |h[a]| - i
  {
    if i == |h[a]| then 0
    else
      var e := h[a][i];
      if Kept(e, level, depth) || e.a in path then 1 + Work(h, level, a, i + 1, path, depth)
      else
        Shrinks(h.Keys, path, e.a);
        2 + Work(h, level, e.a, 0, path + {e.a}, depth + 1) + Work(h, level, a, i + 1, path, depth)
  }

  ghost function WorkLeft(h: Arrays, level: int, stack: seq<Frame>, a: nat, i: nat): nat
    requires Closed(h) && Walking(h, stack, a, i)
    decreases |stack|
  {
    var here := Work(h, level, a, i, Path(stack) + {a}, |stack|);
    if stack == [] then here
    else
      var n := |stack| - 1;
      here + 1 + WorkLeft(h, level, stack[..n], stack[n].a, stack[n].i)
  }

  lemma WorkEntered(h: Arrays, level: int, stack: seq<Frame>, a: nat, i: nat)
    requires Closed(h) && Walking(h, stack, a, i) && i < |h[a]| && !Kept(h[a][i], level, |stack|)
    requires h[a][i].a !in Path(stack) + {a}
    ensures Walking(h, stack + [Frame(a, i + 1)], h[a][i].a, 0)
    ensures WorkLeft(h, level, stack + [Frame(a, i + 1)], h[a][i].a, 0) < WorkLeft(h, level, stack, a, i)
  {
    Pushed(h, stack, a, i + 1, h[a][i].a);
  }

  lemma WorkKept(h: Arrays, level: int, stack: seq<Frame>, a: nat, i: nat)
    requires Closed(h) && Walking(h, stack, a, i) && i < |h[a]| && Kept(h[a][i], level, |stack|)
    ensures WorkLeft(h, level, stack, a, i + 1) < WorkLeft(h, level, stack, a, i)
  {
  }

  // ---------------------------------------------------------------- the walk

  /** flatten: stack holds the arrays around the current one, memo their identities. */
  method FlattenIter(h: Arrays, root: nat, level: int) returns (r: Result)
    requires Closed(h) && root in h
    ensures r == Flattened(h, level, root, 0, {root}, 0)
  {
    hide Flattened, Rest, Work, WorkLeft, Then;
    var stack: seq<Frame>, result: seq<Elt>, memo, modified := [], [], {root}, false;
    var a, i: nat := root, 0;
    ghost var goal := Rest(h, level, stack, a, i);
    StartsAtRoot(h, level, root);
    ThenNothing(goal);
    while true
      invariant Walking(h, stack, a, i) && memo == Path(stack) + {a}
      invariant Then(Flat(result, modified), Rest(h, level, stack, a, i)) == goal
      decreases WorkLeft(h, level, stack, a, i)
    {
      if i < |h[a]| {
        var elt := h[a][i];
        if Kept(elt, level, |stack|) {
          RestKept(h, level, stack, a, i);
          WorkKept(h, level, stack, a, i);
          ThenAssoc(Flat(result, modified), Flat([elt], false), Rest(h, level, stack, a, i + 1));
          ThenFlat(result, modified, [elt], false);
          result := result + [elt];
          i := i + 1;
        } else if elt.a in memo {
          RestRecursive(h, level, stack, a, i);
          ThenRecursive(Flat(result, modified));
          return Recursive;
        } else {
          RestEntered(h, level, stack, a, i);
          WorkEntered(h, level, stack, a, i);
          ThenAssoc(Flat(result, modified), Flat([], true), Rest(h, level, stack + [Frame(a, i + 1)], elt.a, 0));
          ThenFlat(result, modified, [], true);
          Pushed(h, stack, a, i + 1, elt.a);
          modified, memo := true, memo + {elt.a};
          stack := stack + [Frame(a, i + 1)];
          a, i := elt.a, 0;
          assert result + [] == result;
        }
      } else {
        RestPopped(h, level, stack, a);
        if stack == [] {
          ThenNothing(Flat(result, modified));
          return Flat(result, modified);
        }
        WorkPopped(h, level, stack, a);
        memo := memo - {a};
        var n := |stack| - 1;
        a, i := stack[n].a, stack[n].i;
        stack := stack[..n];
      }
    }
  }

  lemma StartsAtRoot(h: Arrays, level: int, root: nat)
    requires Closed(h) && root in h
    ensures Walking(h, [], root, 0) && Rest(h, level, [], root, 0) == Flattened(h, level, root, 0, {root}, 0)
  {
    assert Path([]) + {root} == {root};
  }

  lemma ThenFlat(a: seq<Elt>, m: bool, b: seq<Elt>, n: bool)
    ensures Then(Flat(a, m), Flat(b, n)) == Flat(a + b, m || n)
  {
  }

  lemma ThenRecursive(r: Result)
    ensures Then(r, Recursive) == Recursive
  {
  }

  lemma WorkPopped(h: Arrays, level: int, stack: seq<Frame>, a: nat)
    requires Closed(h) && a in h && Walking(h, stack, a, |h[a]|) && stack != []
    ensures var n := |stack| - 1;
            && Walking(h, stack[..n], stack[n].a, stack[n].i)
            && WorkLeft(h, level, stack[..n], stack[n].a, stack[n].i) < WorkLeft(h, level, stack, a, |h[a]|)
  {
  }

  // ---------------------------------------------------------------- what it means

  predicate AllVals(s: seq<Elt>) { forall k :: 0 <= k < |s| ==> s[k].Val? }

  /** Without a level, no array is left in the result. */
  lemma {:induction false} FlattenedLeaves(h: Arrays, level: int, a: nat, i: nat, path: set<nat>, depth: nat)
    requires Closed(h) && a in h && i <= |h[a]| && level < 0
    ensures var r := Flattened(h, level, a, i, path, depth);
            r.Flat? ==> AllVals(r.out)
    decreases |h.Keys - path|, |h[a]| - i
  {
    if i < |h[a]| {
      var e := h[a][i];
      FlattenedLeaves(h, level, a, i + 1, path, depth);
      var rest := Flattened(h, level, a, i + 1, path, depth);
      if e.Val? {
      } else if e.a !in path {
        Shrinks(h.Keys, path, e.a);
        FlattenedLeaves(h, level, e.a, 0, path + {e.a}, depth + 1);
        var inner := Flattened(h, level, e.a, 0, path + {e.a}, depth + 1);
      }
    }
  }

  /** The elements in order, each array among them replaced by its own elements, down to the level; a negative level
      never runs out. No array is entered more than fuel deep. */
  ghost function Spread(h: Arrays, s: seq<Elt>, level: int, fuel: nat): seq<Elt>
    requires Closed(h) && forall i :: 0 <= i < |s| && s[i].Ref? ==> s[i].a in h
    decreases fuel, |s|
  {
    if s == [] then []
    else
      (if s[0].Val? || level == 0 || fuel == 0 then [s[0]] else Spread(h, h[s[0].a], level - 1, fuel - 1)) +
      Spread(h, s[1..], level, fuel)
  }

  lemma SpreadNext(h: Arrays, a: nat, i: nat, level: int, fuel: nat)
    requires Closed(h) && a in h && i < |h[a]|
    ensures var e := h[a][i];
            Spread(h, h[a][i..], level, fuel) ==
            (if e.Val? || level == 0 || fuel == 0 then [e] else Spread(h, h[e.a][0..], level - 1, fuel - 1)) +
            Spread(h, h[a][i + 1..], level, fuel)
  {
    var e, s := h[a][i], h[a][i..];
    assert s[0] == e && s[1..] == h[a][i + 1..];
    if e.Ref? {
      assert h[e.a][0..] == h[e.a];
    }
  }

  lemma FlattenedNext(h: Arrays, level: int, a: nat, i: nat, path: set<nat>, depth: nat)
    requires Closed(h) && a in h && i < |h[a]| && Flattened(h, level, a, i, path, depth).Flat?
    ensures var r, e, rest := Flattened(h, level, a, i, path, depth), h[a][i],
            Flattened(h, level, a, i + 1, path, depth);
            && rest.Flat?
            && (Kept(e, level, depth) ==> r == Flat([e] + rest.out, rest.modified))
            && (!Kept(e, level, depth) ==>
                  var inner := Flattened(h, level, e.a, 0, path + {e.a}, depth + 1);
                  e.a !in path && inner.Flat? && r == Flat(inner.out + rest.out, true))
  {
    var e := h[a][i];
    if !Kept(e, level, depth) && e.a !in path {
      var inner := Flattened(h, level, e.a, 0, path + {e.a}, depth + 1);
      assert inner.Flat? ==> [] + inner.out == inner.out;
    }
  }

  /** A result is that, with any fuel that goes round all arrays once. */
  lemma {:induction false} FlattenedSpreads(h: Arrays, level: int, a: nat, i: nat, path: set<nat>, depth: nat,
      fuel: nat)
    requires Closed(h) && a in h && i <= |h[a]| && (level < 0 || depth <= level) && fuel >= |h.Keys - path|
    requires Flattened(h, level, a, i, path, depth).Flat?
    ensures Flattened(h, level, a, i, path, depth).out == Spread(h, h[a][i..], level - depth, fuel)
    decreases |h.Keys - path|, |h[a]| - i
  {
    hide Flattened, Spread;
    if i == |h[a]| {
      SpreadEnd(h, level, a, path, depth, fuel);
    } else {
      var e := h[a][i];
      FlattenedNext(h, level, a, i, path, depth);
      SpreadNext(h, a, i, level - depth, fuel);
      FlattenedSpreads(h, level, a, i + 1, path, depth, fuel);
      if !Kept(e, level, depth) {
        Shrinks(h.Keys, path, e.a);
        FlattenedSpreads(h, level, e.a, 0, path + {e.a}, depth + 1, fuel - 1);
      }
    }
  }

  lemma SpreadEnd(h: Arrays, level: int, a: nat, path: set<nat>, depth: nat, fuel: nat)
    requires Closed(h) && a in h
    ensures Flattened(h, level, a, |h[a]|, path, depth) == Flat([], false)
    ensures Spread(h, h[a][|h[a]|..], level - depth, fuel) == []
  {
  }

  /** It is modified exactly if an array was replaced. */
  lemma {:induction false} ModifiedIff(h: Arrays, level: int, a: nat, i: nat, path: set<nat>, depth: nat)
    requires Closed(h) && a in h && i <= |h[a]| && (level < 0 || depth <= level)
    requires Flattened(h, level, a, i, path, depth).Flat?
    ensures Flattened(h, level, a, i, path, depth).modified <==>
            level != depth && exists k :: i <= k < |h[a]| && h[a][k].Ref?
    decreases |h[a]| - i
  {
    hide Flattened;
    if i == |h[a]| {
      SpreadEnd(h, level, a, path, depth, 0);
    } else {
      FlattenedNext(h, level, a, i, path, depth);
      ModifiedIff(h, level, a, i + 1, path, depth);
    }
  }

  // ---------------------------------------------------------------- which arrays are refused

  /** Each array of w is an element of the one before. */
  predicate Nested(h: Arrays, w: seq<nat>) {
    && (forall k :: 0 <= k < |w| ==> w[k] in h)
    && forall k :: 0 < k < |w| ==> Ref(w[k]) in h[w[k - 1]]
  }

  /** From a, at this depth, w leads to an array that is around it, within the level. */
  ghost predicate LeadsBack(h: Arrays, level: int, a: nat, path: set<nat>, depth: nat, w: seq<nat>) {
    && |w| >= 2 && w[0] == a && Nested(h, w)
    && (w[|w| - 1] in path || w[|w| - 1] in w[..|w| - 1])
    && (level < 0 || depth + |w| - 1 <= level)
  }

  /** Such a way is found. */
  lemma {:induction false} BackIsRecursive(h: Arrays, level: int, a: nat, path: set<nat>, depth: nat, w: seq<nat>)
    requires Closed(h) && a in path && LeadsBack(h, level, a, path, depth, w)
    ensures Flattened(h, level, a, 0, path, depth).Recursive?
    decreases |w|
  {
    var b := w[1];
    assert Ref(b) in h[w[0]];
    var i :| 0 <= i < |h[a]| && h[a][i] == Ref(b);
    if b !in path {
      var v := w[1..];
      assert forall k :: 0 <= k < |v| ==> v[k] == w[k + 1];
      assert LeadsBack(h, level, b, path + {b}, depth + 1, v);
      BackIsRecursive(h, level, b, path + {b}, depth + 1, v);
    }
    RecursiveFrom(h, level, a, 0, i, path, depth);
  }

  lemma {:induction false} RecursiveFrom(h: Arrays, level: int, a: nat, i: nat, j: nat, path: set<nat>, depth: nat)
    requires Closed(h) && a in h && i <= j <= |h[a]| && Flattened(h, level, a, j, path, depth).Recursive?
    ensures Flattened(h, level, a, i, path, depth).Recursive?
    decreases j - i
  {
    if i < j {
      RecursiveFrom(h, level, a, i + 1, j, path, depth);
    }
  }

  /** What is refused has such a way. */
  lemma {:induction false} RecursiveLeadsBack(h: Arrays, level: int, a: nat, i: nat, path: set<nat>, depth: nat)
      returns (w: seq<nat>)
    requires Closed(h) && a in h && i <= |h[a]| && Flattened(h, level, a, i, path, depth).Recursive?
    ensures LeadsBack(h, level, a, path, depth, w)
    decreases |h.Keys - path|, |h[a]| - i
  {
    var e := h[a][i];
    if Flattened(h, level, a, i + 1, path, depth).Recursive? {
      w := RecursiveLeadsBack(h, level, a, i + 1, path, depth);
    } else if e.a in path {
      w := [a, e.a];
      assert h[a][i] == Ref(e.a);
    } else {
      Shrinks(h.Keys, path, e.a);
      var v := RecursiveLeadsBack(h, level, e.a, 0, path + {e.a}, depth + 1);
      w := [a] + v;
      assert h[a][i] == Ref(w[1]);
      assert forall k :: 0 < k < |w| ==> w[k] == v[k - 1];
      assert w[..|w| - 1] == [a] + v[..|v| - 1];
      assert e.a == v[..|v| - 1][0];
    }
  }

  /** flatten refuses an array if and only if, within the level, some array is found inside itself on the way from
      it. */
  lemma RecursiveIff(h: Arrays, level: int, root: nat)
    requires Closed(h) && root in h
    ensures Flattened(h, level, root, 0, {root}, 0).Recursive? <==>
            exists w :: && |w| >= 2 && w[0] == root && Nested(h, w) && w[|w| - 1] in w[..|w| - 1]
                        && (level < 0 || |w| - 1 <= level)
  {
    if Flattened(h, level, root, 0, {root}, 0).Recursive? {
      var w := RecursiveLeadsBack(h, level, root, 0, {root}, 0);
      assert w[..|w| - 1][0] == root;
    }
    if w :| && |w| >= 2 && w[0] == root && Nested(h, w) && w[|w| - 1] in w[..|w| - 1]
            && (level < 0 || |w| - 1 <= level) {
      BackIsRecursive(h, level, root, {root}, 0, w);
    }
  }
}
