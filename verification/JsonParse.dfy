/** Whole calls of `json_tokener_parse_ex`: the loop over the input, its cost, and what happens when
    the input arrives in pieces. */
module JsonParse {
  import opened JsonValue
  import opened JsonMachine

  /** The `redo_char` loop on one character. It ends because every redo lowers the rank. */
  function Feed(m: Machine, obj: Json, c: char): (o: Outcome)
    requires Good(m)
    ensures Settled(o.m) && !o.act.Redo?
    decreases Rank(m.top)
  {
    var o := Switch(m, obj, c);
    if o.act.Redo? then Feed(o.m, o.obj, c) else o
  }

  datatype Parsed = Parsed(m: Machine, err: Error, offset: nat) {
    /** The pointer the call returns. */
    function Value(): Json {
      if err == Success then m.top.current else Null
    }
  }

  /** The call reads up to `len` bytes, or up to a NUL. */
  ghost predicate Readable(str: string, i: int, len: int) {
    0 <= i <= |str| && (i <= len <= |str| || exists k :: i <= k < |str| && str[k] == NUL)
  }

  function AtLength(m: Machine): Error {
    if m.below == [] && m.top.state == Eatws && m.top.saved == Finish then Success else Continue
  }

  function AtNul(m: Machine): Error {
    if m.top.state != Finish && m.top.saved != Finish then Eof else Success
  }

  function ParseFrom(m: Machine, obj: Json, str: string, i: nat, len: int): (p: Parsed)
    requires Good(m) && Readable(str, i, len)
    ensures Good(p.m)
    decreases |str| - i
  {
    if i == len then Parsed(m, AtLength(m), i)
    else
      var o := Feed(m, obj, str[i]);
      if o.act.Stop? then Parsed(o.m, o.act.err, i)
      else if str[i] == NUL then Parsed(o.m, AtNul(o.m), i + 1)
      else ParseFrom(o.m, o.obj, str, i + 1, len)
  }

  const NoScratch: Scratch := Scratch("", 0, 0, NUL, false)

  /** json_tokener_new */
  const New: Machine := Machine([], Fresh, NoScratch)

  /** json_tokener_parse_ex(tok, piece, length of piece) */
  function ParseChunk(m: Machine, piece: string): Parsed
    requires Good(m)
  {
    ParseFrom(m, Null, piece, 0, |piece|)
  }

  /** json_tokener_parse: one call on a NUL-terminated text, with a fresh tokener */
  function ParseText(text: string): Parsed {
    var str := text + [NUL];
    assert str[|text|] == NUL;
    ParseFrom(New, Null, str, 0, -1)
  }

  // ---------------------------------------------------------------- cost

  /** What one character costs: executions of the switch, levels pushed, levels popped. */
  datatype Cost = Cost(switches: nat, pushes: nat, pops: nat)

  function FeedCost(m: Machine, obj: Json, c: char): Cost
    requires Good(m)
    decreases Rank(m.top)
  {
    var o := Switch(m, obj, c);
    var here := Cost(1, if |o.m.below| > |m.below| then 1 else 0, if |o.m.below| < |m.below| then 1 else 0);
    if o.act.Redo? then
      var rest := FeedCost(o.m, o.obj, c);
      Cost(here.switches + rest.switches, here.pushes + rest.pushes, here.pops + rest.pops)
    else here
  }

  /** The switch executed n times, or until it does not ask for the character again. */
  function Switches(m: Machine, obj: Json, c: char, n: nat): Outcome
    requires Good(m)
    decreases n
  {
    if n == 0 then Outcome(m, obj, Redo)
    else
      var o := Switch(m, obj, c);
      if o.act.Redo? then Switches(o.m, o.obj, c, n - 1) else o
  }

  /** The cost counts the executions that the loop makes, and the levels it adds and takes away. */
  lemma {:induction false} CostCounts(m: Machine, obj: Json, c: char)
    requires Good(m)
    ensures var cost := FeedCost(m, obj, c);
            && Switches(m, obj, c, cost.switches) == Feed(m, obj, c)
            && (forall n :: 0 <= n < cost.switches ==> Switches(m, obj, c, n).act.Redo?)
            && |Feed(m, obj, c).m.below| == |m.below| + cost.pushes - cost.pops
    decreases Rank(m.top)
  {
    hide Switch, Rank, Waiting, GoodTop;
    var o, cost := Switch(m, obj, c), FeedCost(m, obj, c);
    OneLevel(m, obj, c);
    if o.act.Redo? {
      assert Rank(o.m.top) < Rank(m.top);
      CostCounts(o.m, o.obj, c);
      forall n | 0 <= n < cost.switches ensures Switches(m, obj, c, n).act.Redo? {
        if n > 0 {
          assert Switches(m, obj, c, n) == Switches(o.m, o.obj, c, n - 1);
        }
      }
    }
  }

  lemma OneLevel(m: Machine, obj: Json, c: char)
    requires Good(m)
    ensures var n := |Switch(m, obj, c).m.below|; |m.below| - 1 <= n <= |m.below| + 1
  {
    hide ScanInt, ScansAsDouble, CString, Utf8, AddHexDigit, Kept;
  }

  lemma {:induction false} CostOfSwitches(m: Machine, obj: Json, c: char)
    requires Good(m)
    ensures FeedCost(m, obj, c).switches <= Rank(m.top) + 1 <= 10
    decreases Rank(m.top)
  {
    var o := Switch(m, obj, c);
    if o.act.Redo? {
      CostOfSwitches(o.m, o.obj, c);
    }
  }

  lemma {:induction false} CostAfterPop(m: Machine, obj: Json, c: char)
    requires Good(m) && Rank(m.top) <= 2
    ensures FeedCost(m, obj, c).pushes == 0 && FeedCost(m, obj, c).pops == 0
    decreases Rank(m.top)
  {
    var o := Switch(m, obj, c);
    if o.act.Redo? {
      CostAfterPop(o.m, o.obj, c);
    }
  }

  lemma {:induction false} CostOfLeaf(m: Machine, obj: Json, c: char)
    requires Good(m) && Rank(m.top) <= 5
    ensures FeedCost(m, obj, c).pushes == 0 && FeedCost(m, obj, c).pops <= 1
    decreases Rank(m.top)
  {
    if Rank(m.top) <= 2 {
      CostAfterPop(m, obj, c);
    } else {
      var o := Switch(m, obj, c);
      if o.act.Redo? {
        if m.top.state == Finish {
          CostAfterPop(o.m, o.obj, c);
        } else {
          CostOfLeaf(o.m, o.obj, c);
        }
      }
    }
  }

  /** A literal that starts at this character takes it: its first character always matches. */
  lemma LeafTakesFirst(m: Machine, obj: Json, c: char)
    requires Good(m) && m.top.state == Start && StartStep(m, c).act.Redo?
    ensures Switch(StartStep(m, c).m, obj, c).act == Consume
  {
    hide ScanInt, ScansAsDouble;
    var m1 := StartStep(m, c).m;
    assert Put1(m1, c).scr.pb == [c];
    if LeafFor(c) == NullWord {
      FirstNull(m1, c);
    } else if LeafFor(c) == Boolean {
      FirstBoolean(m1, c);
    }
  }

  lemma FirstNull(m: Machine, c: char)
    requires Good(m) && m.top.state == NullWord && m.scr.pb == "" && m.scr.stPos == 0 && (c == 'n' || c == 'N')
    ensures NullStep(m, c).act == Consume
  {
    assert Put1(m, c).scr.pb == [c];
    assert Lower(c) == "null"[0];
  }

  lemma FirstBoolean(m: Machine, c: char)
    requires Good(m) && m.top.state == Boolean && m.scr.pb == "" && m.scr.stPos == 0
    requires c == 't' || c == 'T' || c == 'f' || c == 'F'
    ensures BooleanStep(m, c).act == Consume
  {
    assert Put1(m, c).scr.pb == [c];
    assert c == 'f' || c == 'F' ==> Lower(c) == "false"[0];
    assert c == 't' || c == 'T' ==> Lower(c) == "true"[0];
  }

  lemma CostOfStart(m: Machine, obj: Json, c: char)
    requires Good(m) && m.top.state == Start
    ensures FeedCost(m, obj, c).pushes == 0 && FeedCost(m, obj, c).pops == 0
  {
    var o := Switch(m, obj, c);
    if o.act.Redo? {
      LeafTakesFirst(m, obj, c);
      assert FeedCost(o.m, o.obj, c).switches == 1;
    }
  }

  lemma CostOfFresh(m: Machine, obj: Json, c: char)
    requires Good(m) && m.top.state == Eatws && m.top.saved == Start
    ensures FeedCost(m, obj, c).pushes == 0 && FeedCost(m, obj, c).pops == 0
  {
    var o := Switch(m, obj, c);
    if o.act.Redo? {
      CostOfStart(o.m, o.obj, c);
    }
  }

  lemma CostOfContainer(m: Machine, obj: Json, c: char)
    requires Good(m) && (m.top.state == Array || m.top.state == ObjectValue)
    ensures FeedCost(m, obj, c).pushes <= 1 && FeedCost(m, obj, c).pops == 0
  {
    var o := Switch(m, obj, c);
    if o.act.Redo? {
      CostOfFresh(o.m, o.obj, c);
    }
  }

  /** One character costs at most ten executions of the switch, and pushes or pops at most one level. */
  lemma FeedCostBound(m: Machine, obj: Json, c: char)
    requires Good(m)
    ensures FeedCost(m, obj, c).switches <= 10
    ensures FeedCost(m, obj, c).pushes + FeedCost(m, obj, c).pops <= 1
  {
    CostOfSwitches(m, obj, c);
    if Rank(m.top) <= 5 {
      CostOfLeaf(m, obj, c);
    } else if m.top.state == Start {
      CostOfStart(m, obj, c);
    } else if m.top.state == Eatws && m.top.saved == Start {
      CostOfFresh(m, obj, c);
    } else if m.top.state == Eatws {
      var o := Switch(m, obj, c);
      if o.act.Redo? {
        CostOfContainer(o.m, o.obj, c);
      }
    } else {
      CostOfContainer(m, obj, c);
    }
  }

  /** All executions of the switch in one call. */
  function ParseCost(m: Machine, obj: Json, str: string, i: nat, len: int): nat
    requires Good(m) && Readable(str, i, len)
    decreases |str| - i
  {
    if i == len then 0
    else
      var o := Feed(m, obj, str[i]);
      FeedCost(m, obj, str[i]).switches +
      if o.act.Stop? || str[i] == NUL then 0 else ParseCost(o.m, o.obj, str, i + 1, len)
  }

  /** The whole call is linear in what is left of the input. */
  lemma {:induction false} ParseCostLinear(m: Machine, obj: Json, str: string, i: nat, len: int)
    requires Good(m) && Readable(str, i, len)
    ensures ParseCost(m, obj, str, i, len) <= 10 * (|str| - i)
    decreases |str| - i
  {
    hide Feed;
    if i != len {
      FeedCostBound(m, obj, str[i]);
      var o := Feed(m, obj, str[i]);
      if !o.act.Stop? && str[i] != NUL {
        ParseCostLinear(o.m, o.obj, str, i + 1, len);
      }
    }
  }

  // ---------------------------------------------------------------- input in pieces

  /** Two values of the local `obj` make no difference while nothing is waiting to be added. */
  lemma SwitchIgnoresObj(m: Machine, o1: Json, o2: Json, c: char)
    requires Settled(m)
    ensures Switch(m, o1, c).m == Switch(m, o2, c).m && Switch(m, o1, c).act == Switch(m, o2, c).act
    ensures Settled(Switch(m, o1, c).m) || Switch(m, o1, c).obj == Switch(m, o2, c).obj
  {
  }

  lemma {:induction false} FeedIgnoresObj(m: Machine, o1: Json, o2: Json, c: char)
    requires Good(m) && (Settled(m) || o1 == o2)
    ensures Feed(m, o1, c).m == Feed(m, o2, c).m && Feed(m, o1, c).act == Feed(m, o2, c).act
    decreases Rank(m.top)
  {
    if o1 != o2 {
      SwitchIgnoresObj(m, o1, o2, c);
      var a, b := Switch(m, o1, c), Switch(m, o2, c);
      if a.act.Redo? {
        FeedIgnoresObj(a.m, a.obj, b.obj, c);
      }
    }
  }

  lemma {:induction false} ParseIgnoresObj(m: Machine, o1: Json, o2: Json, str: string, i: nat, len: int)
    requires Settled(m) && Readable(str, i, len)
    ensures ParseFrom(m, o1, str, i, len) == ParseFrom(m, o2, str, i, len)
    decreases |str| - i
  {
    hide Feed;
    if i != len {
      FeedIgnoresObj(m, o1, o2, str[i]);
      var a, b := Feed(m, o1, str[i]), Feed(m, o2, str[i]);
      if !a.act.Stop? && str[i] != NUL {
        ParseIgnoresObj(a.m, a.obj, b.obj, str, i + 1, len);
      }
    }
  }

  /** Bytes before the position do not matter. */
  lemma {:induction false} ParseSuffix(m: Machine, obj: Json, a: string, b: string, i: nat)
    requires Good(m) && i <= |b|
    ensures var p := ParseFrom(m, obj, b, i, |b|);
            ParseFrom(m, obj, a + b, |a| + i, |a + b|) == p.(offset := |a| + p.offset)
    decreases |b| - i
  {
    hide Feed;
    if i < |b| {
      assert (a + b)[|a| + i] == b[i];
      var o := Feed(m, obj, b[i]);
      if !o.act.Stop? && b[i] != NUL {
        ParseSuffix(o.m, o.obj, a, b, i + 1);
      }
    }
  }

  lemma {:induction false} ParsePrefix(m: Machine, obj: Json, a: string, b: string, i: nat)
    requires Settled(m) && i <= |a| && NulFree(a)
    ensures var p := ParseFrom(m, obj, a, i, |a|);
            p.err == Continue ==>
              && p.offset == |a|
              && Settled(p.m)
              && ParseFrom(m, obj, a + b, i, |a + b|) == ParseFrom(p.m, Null, a + b, |a|, |a + b|)
    decreases |a| - i
  {
    hide Feed;
    if i == |a| {
      ParseIgnoresObj(m, obj, Null, a + b, i, |a + b|);
    } else {
      assert (a + b)[i] == a[i];
      var o := Feed(m, obj, a[i]);
      NeverStopsToContinue(m, obj, a[i]);
      if !o.act.Stop? {
        ParsePrefix(o.m, o.obj, a, b, i + 1);
      }
    }
  }

  lemma {:induction false} NeverStopsToContinue(m: Machine, obj: Json, c: char)
    requires Good(m)
    ensures Feed(m, obj, c).act != Stop(Continue)
    decreases Rank(m.top)
  {
    var o := Switch(m, obj, c);
    if o.act.Redo? {
      NeverStopsToContinue(o.m, o.obj, c);
    }
  }

  /** Feeding a text in two pieces is the same as feeding it whole: same stack, buffers, error and
      value, whenever the first call asks for more. The local `obj` need not survive the break. */
  lemma ChunkIndependence(m: Machine, a: string, b: string)
    requires Settled(m) && NulFree(a)
    requires ParseChunk(m, a).err == Continue
    ensures Settled(ParseChunk(m, a).m)
    ensures var split := ParseChunk(ParseChunk(m, a).m, b);
            ParseChunk(m, a + b) == split.(offset := |a| + split.offset)
  {
    hide Feed;
    ParsePrefix(m, Null, a, b, 0);
    ParseSuffix(ParseChunk(m, a).m, Null, a, b, 0);
  }
}
