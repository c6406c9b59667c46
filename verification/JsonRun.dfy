/** Feeding whole texts to the character machine: what single characters, literals, numbers, strings and
    brackets do to it. */
module JsonRun {
  import opened Wrappers
  import opened OrderedMap
  import opened JsonValue
  import opened JsonMachine
  import opened JsonParse

  datatype Ran = Going(m: Machine) | Halted(err: Error)

  /** Feeds a whole text, and says where the machine is or why it stopped. */
  function Run(m: Machine, s: string): (r: Ran)
    requires Settled(m)
    ensures r.Going? ==> Settled(r.m)
    decreases |s|
  {
    if s == [] then Going(m)
    else
      var o := Feed(m, Null, s[0]);
      if o.act.Stop? then Halted(o.act.err) else Run(o.m, s[1..])
  }

  lemma {:induction false} RunAppend(m: Machine, a: string, b: string)
    requires Settled(m)
    ensures Run(m, a + b) == (var r := Run(m, a); if r.Going? then Run(r.m, b) else r)
    decreases |a|
  {
    if a == [] {
      assert a + b == b;
    } else {
      assert (a + b)[1..] == a[1..] + b;
      var o := Feed(m, Null, a[0]);
      if !o.act.Stop? {
        RunAppend(o.m, a[1..], b);
      }
    }
  }

  lemma RunOne(m: Machine, c: char)
    requires Settled(m)
    ensures var o := Feed(m, Null, c);
            Run(m, [c]) == if o.act.Stop? then Halted(o.act.err) else Going(o.m)
  {
    assert [c][1..] == [];
  }

  // ---------------------------------------------------------------- single characters

  predicate ValueStart(c: char) {
    || IsDigit(c) || c == '-' || c == '"' || c == '\'' || c == '[' || c == '{'
    || c == 'n' || c == 't' || c == 'f' || c == 'N' || c == 'T' || c == 'F'
  }

  /** In white space, a character that is neither space nor a comment goes to the saved state. */
  lemma FeedSaved(m: Machine, obj: Json, c: char)
    requires Good(m) && m.top.state == Eatws && !IsSpace(c) && c != '/'
    ensures Good(To(m, m.top.saved))
    ensures Feed(m, obj, c) == Feed(To(m, m.top.saved), obj, c)
  {
    assert Switch(m, obj, c) == Outcome(To(m, m.top.saved), obj, Redo);
  }

  lemma SwitchPop(below: seq<Level>, l: Level, v: Json, scr: Scratch, obj: Json, c: char)
    requires Good(Machine(below + [l], Done(v), scr))
    ensures Good(Machine(below + [l], Done(v).(state := Finish), scr))
    ensures Switch(Machine(below + [l], Done(v).(state := Finish), scr), obj, c) ==
            Outcome(Machine(below, l, scr), v, Redo)
  {
    assert (below + [l])[..|below|] == below;
  }

  lemma SwitchArrayAdd(below: seq<Level>, es: seq<Json>, v: Json, scr: Scratch, c: char)
    requires Good(Machine(below, Level(ArrayAdd, Array, Arr(es), None), scr))
    ensures Switch(Machine(below, Level(ArrayAdd, Array, Arr(es), None), scr), v, c) ==
            Outcome(Machine(below, Level(Eatws, ArraySep, Arr(es + [v]), None), scr), v, Redo)
  {
  }

  lemma FeedArraySep(below: seq<Level>, es: seq<Json>, scr: Scratch, obj: Json, c: char)
    requires Good(Machine(below, Level(ArraySep, ArraySep, Arr(es), None), scr))
    requires c == ',' || c == ']'
    ensures Feed(Machine(below, Level(ArraySep, ArraySep, Arr(es), None), scr), obj, c) ==
            Outcome(Machine(below, Level(Eatws, if c == ',' then Array else Finish, Arr(es), None), scr), obj, Consume)
  {
  }

  lemma SwitchObjectAdd(below: seq<Level>, fs: seq<(string, Json)>, k: string, v: Json, scr: Scratch, c: char)
    requires Good(Machine(below, Level(ObjectValueAdd, ObjectValue, Obj(fs), Some(k)), scr))
    ensures Switch(Machine(below, Level(ObjectValueAdd, ObjectValue, Obj(fs), Some(k)), scr), v, c) ==
            Outcome(Machine(below, Level(Eatws, ObjectSep, Obj(Put(fs, k, v)), None), scr), v, Redo)
  {
  }

  lemma FeedObjectSep(below: seq<Level>, fs: seq<(string, Json)>, scr: Scratch, obj: Json, c: char)
    requires Good(Machine(below, Level(ObjectSep, ObjectSep, Obj(fs), None), scr))
    requires c == ',' || c == '}'
    ensures Feed(Machine(below, Level(ObjectSep, ObjectSep, Obj(fs), None), scr), obj, c) ==
            Outcome(Machine(below, Level(Eatws, if c == ',' then FieldStart else Finish, Obj(fs), None), scr),
                    obj, Consume)
  {
  }

  /** A finished level hands its value to the container below, which then sees the character. */
  lemma FeedAddArray(below: seq<Level>, es: seq<Json>, v: Json, scr: Scratch, obj: Json, c: char)
    requires Good(Machine(below + [Level(ArrayAdd, Array, Arr(es), None)], Done(v), scr)) && !IsSpace(c) && c != '/'
    ensures Good(Machine(below, Level(ArraySep, ArraySep, Arr(es + [v]), None), scr))
    ensures Feed(Machine(below + [Level(ArrayAdd, Array, Arr(es), None)], Done(v), scr), obj, c) ==
            Feed(Machine(below, Level(ArraySep, ArraySep, Arr(es + [v]), None), scr), v, c)
  {
    hide Step;
    var l := Level(ArrayAdd, Array, Arr(es), None);
    FeedSaved(Machine(below + [l], Done(v), scr), obj, c);
    SwitchPop(below, l, v, scr, obj, c);
    SwitchArrayAdd(below, es, v, scr, c);
    FeedSaved(Machine(below, Level(Eatws, ArraySep, Arr(es + [v]), None), scr), v, c);
  }

  lemma FeedAddObject(below: seq<Level>, fs: seq<(string, Json)>, k: string, v: Json, scr: Scratch, obj: Json, c: char)
    requires Good(Machine(below + [Level(ObjectValueAdd, ObjectValue, Obj(fs), Some(k))], Done(v), scr))
    requires !IsSpace(c) && c != '/'
    ensures Good(Machine(below, Level(ObjectSep, ObjectSep, Obj(Put(fs, k, v)), None), scr))
    ensures Feed(Machine(below + [Level(ObjectValueAdd, ObjectValue, Obj(fs), Some(k))], Done(v), scr), obj, c) ==
            Feed(Machine(below, Level(ObjectSep, ObjectSep, Obj(Put(fs, k, v)), None), scr), v, c)
  {
    hide Step;
    var l := Level(ObjectValueAdd, ObjectValue, Obj(fs), Some(k));
    FeedSaved(Machine(below + [l], Done(v), scr), obj, c);
    SwitchPop(below, l, v, scr, obj, c);
    SwitchObjectAdd(below, fs, k, v, scr, c);
    FeedSaved(Machine(below, Level(Eatws, ObjectSep, Obj(Put(fs, k, v)), None), scr), v, c);
  }

  lemma FeedPopArray(below: seq<Level>, es: seq<Json>, v: Json, scr: Scratch, obj: Json, c: char)
    requires Good(Machine(below + [Level(ArrayAdd, Array, Arr(es), None)], Done(v), scr))
    requires c == ',' || c == ']'
    ensures Feed(Machine(below + [Level(ArrayAdd, Array, Arr(es), None)], Done(v), scr), obj, c) ==
            Outcome(Machine(below, Level(Eatws, if c == ',' then Array else Finish, Arr(es + [v]), None), scr),
                    v, Consume)
  {
    hide Feed, Step, Kept;
    FeedAddArray(below, es, v, scr, obj, c);
    FeedArraySep(below, es + [v], scr, v, c);
  }

  lemma FeedPopObject(below: seq<Level>, fs: seq<(string, Json)>, k: string, v: Json, scr: Scratch, obj: Json, c: char)
    requires Good(Machine(below + [Level(ObjectValueAdd, ObjectValue, Obj(fs), Some(k))], Done(v), scr))
    requires c == ',' || c == '}'
    ensures Feed(Machine(below + [Level(ObjectValueAdd, ObjectValue, Obj(fs), Some(k))], Done(v), scr), obj, c) ==
            var next := if c == ',' then FieldStart else Finish;
            Outcome(Machine(below, Level(Eatws, next, Obj(Put(fs, k, v)), None), scr), v, Consume)
  {
    hide Feed, Step, Kept;
    FeedAddObject(below, fs, k, v, scr, obj, c);
    FeedObjectSep(below, Put(fs, k, v), scr, v, c);
  }

  /** The first character of an element pushes a level and is then read there. */
  lemma FeedPushArray(below: seq<Level>, es: seq<Json>, scr: Scratch, c: char)
    requires Good(Machine(below, Level(Eatws, Array, Arr(es), None), scr)) && ValueStart(c)
    ensures |below| < MAX_DEPTH - 1 ==>
              && Good(Machine(below + [Level(ArrayAdd, Array, Arr(es), None)], Fresh, scr))
              && Feed(Machine(below, Level(Eatws, Array, Arr(es), None), scr), Null, c) ==
                 Feed(Machine(below + [Level(ArrayAdd, Array, Arr(es), None)], Fresh, scr), Null, c)
    ensures |below| == MAX_DEPTH - 1 ==>
              Feed(Machine(below, Level(Eatws, Array, Arr(es), None), scr), Null, c).act == Stop(TooDeep)
  {
    var m := Machine(below, Level(Eatws, Array, Arr(es), None), scr);
    FeedSaved(m, Null, c);
    var m1 := To(m, Array);
    if |below| < MAX_DEPTH - 1 {
      var m2 := Machine(below + [Level(ArrayAdd, Array, Arr(es), None)], Fresh, scr);
      assert Switch(m1, Null, c) == Outcome(m2, Null, Redo);
    }
  }

  lemma FeedPushObject(below: seq<Level>, fs: seq<(string, Json)>, k: string, scr: Scratch, c: char)
    requires Good(Machine(below, Level(Eatws, ObjectValue, Obj(fs), Some(k)), scr)) && ValueStart(c)
    ensures |below| < MAX_DEPTH - 1 ==>
              && Good(Machine(below + [Level(ObjectValueAdd, ObjectValue, Obj(fs), Some(k))], Fresh, scr))
              && Feed(Machine(below, Level(Eatws, ObjectValue, Obj(fs), Some(k)), scr), Null, c) ==
                 Feed(Machine(below + [Level(ObjectValueAdd, ObjectValue, Obj(fs), Some(k))], Fresh, scr), Null, c)
    ensures |below| == MAX_DEPTH - 1 ==>
              Feed(Machine(below, Level(Eatws, ObjectValue, Obj(fs), Some(k)), scr), Null, c).act == Stop(TooDeep)
  {
    var m := Machine(below, Level(Eatws, ObjectValue, Obj(fs), Some(k)), scr);
    FeedSaved(m, Null, c);
    var m1 := To(m, ObjectValue);
    if |below| < MAX_DEPTH - 1 {
      var m2 := Machine(below + [Level(ObjectValueAdd, ObjectValue, Obj(fs), Some(k))], Fresh, scr);
      assert Switch(m1, Null, c) == Outcome(m2, Null, Redo);
    }
  }

  /** The first character of a value is read in the start state of its fresh level. */
  lemma FeedFresh(below: seq<Level>, scr: Scratch, c: char)
    requires Good(Machine(below, Fresh, scr)) && ValueStart(c)
    ensures Good(Machine(below, Fresh.(state := Start), scr))
    ensures Feed(Machine(below, Fresh, scr), Null, c) == Feed(Machine(below, Fresh.(state := Start), scr), Null, c)
  {
    FeedSaved(Machine(below, Fresh, scr), Null, c);
  }

  // ---------------------------------------------------------------- strings

  lemma HexRoundTrip(d: int)
    requires 0 <= d < 16
    ensures IsHexOrNul(HexChar(d)) && HexDigit(HexChar(d)) == d
  {
    assert HexChar(d) == if d < 10 then ('0' as int + d) as char else ('a' as int + d - 10) as char;
  }

  /** Inside a string or a key, in quotes of either kind. */
  predicate InText(m: Machine) {
    Settled(m) && TextState(m.top.state) && (m.scr.quote == '"' || m.scr.quote == '\'')
  }

  /** m1 is m with `s` added to the token buffer; the saved state and the escape counters may differ. */
  predicate Grown(m: Machine, m1: Machine, s: string) {
    && m1.below == m.below
    && m1.top == m.top.(saved := m1.top.saved)
    && m1.scr.pb == m.scr.pb + s
    && m1.scr.quote == m.scr.quote
  }

  lemma RunPlain(m: Machine, c: char)
    requires InText(m) && c != m.scr.quote && c != '\\'
    ensures Run(m, [c]) == Going(Put1(m, c))
  {
    RunOne(m, c);
  }

  /** A backslash and one of the seven characters that may follow it stand for one byte. */
  lemma RunShortEscape(m: Machine, e: char, c: char)
    requires InText(m)
    requires || (e == '"' && c == '"') || (e == '\\' && c == '\\') || (e == '/' && c == '/')
             || (e == 'b' && c as int == 8) || (e == 'n' && c as int == 10) || (e == 'r' && c as int == 13)
             || (e == 't' && c as int == 9)
    ensures Run(m, ['\\', e]).Going? && Grown(m, Run(m, ['\\', e]).m, [c])
  {
    var m1 := m.(top := m.top.(state := Escaped, saved := m.top.state));
    assert Feed(m, Null, '\\') == Outcome(m1, Null, Consume);
    var m2 := Put1(m1.(top := m1.top.(state := m.top.state)), c);
    assert EscapedStep(m1, e) == Move(m2, Consume);
    assert Feed(m1, Null, e) == Outcome(m2, Null, Consume);
    RunOne(m1, e);
    assert ['\\', e][1..] == [e];
  }

  /** One hexadecimal digit that does not finish the escape. */
  lemma RunHex(m: Machine, c: char)
    requires Settled(m) && m.top.state == EscapedUnicode && m.scr.stPos < 3 && IsHexOrNul(c)
    ensures Run(m, [c]) ==
            Going(m.(scr := m.scr.(ucs := AddHexDigit(m.scr.ucs, c, m.scr.stPos), stPos := m.scr.stPos + 1)))
  {
    RunOne(m, c);
  }

  lemma RunLastHex(m: Machine, c: char)
    requires Settled(m) && m.top.state == EscapedUnicode && m.scr.stPos == 3 && IsHexOrNul(c)
    ensures var ucs := AddHexDigit(m.scr.ucs, c, 3);
            Run(m, [c]) == Going(m.(top := m.top.(state := m.top.saved),
                                    scr := m.scr.(ucs := ucs, stPos := 4, pb := m.scr.pb + Utf8(ucs))))
  {
    RunOne(m, c);
  }

  lemma AddSmallHexDigit(ucs: nat, c: char, pos: nat)
    requires pos < 4 && ucs < 0x10000 && 0 <= HexDigit(c) < 16
    ensures AddHexDigit(ucs, c, pos) == ucs + HexDigit(c) * HexWeight(pos)
  {
    assert HexDigit(c) * HexWeight(pos) <= 15 * 4096;
  }

  /** The backslash and the u. */
  lemma RunUnicodeOpen(m: Machine) returns (m2: Machine)
    requires InText(m)
    ensures m2 == m.(top := m.top.(state := EscapedUnicode, saved := m.top.state), scr := m.scr.(ucs := 0, stPos := 0))
    ensures Settled(m2) && Run(m, "\\u") == Going(m2)
  {
    var m1 := m.(top := m.top.(state := Escaped, saved := m.top.state));
    assert Feed(m, Null, '\\') == Outcome(m1, Null, Consume);
    RunOne(m, '\\');
    m2 := To(m1, EscapedUnicode).(scr := m.scr.(ucs := 0, stPos := 0));
    assert EscapedStep(m1, 'u') == Move(m2, Consume);
    assert Feed(m1, Null, 'u') == Outcome(m2, Null, Consume);
    RunOne(m1, 'u');
    RunAppend(m, ['\\'], ['u']);
    assert "\\u" == ['\\'] + ['u'];
  }

  // ---------------------------------------------------------------- leaves

  /** After reading the text of v, the next character d finds the level as if it held the finished v.
      (A literal or a number only ends when it sees that character.) */
  ghost predicate Ready(m: Machine, below: seq<Level>, v: Json, scr: Scratch, d: char) {
    && Settled(m)
    && Good(Machine(below, Done(v), scr))
    && Feed(m, Null, d) == Feed(Machine(below, Done(v), scr), Null, d)
  }

  ghost predicate Base(below: seq<Level>) {
    |below| < MAX_DEPTH && forall i :: 0 <= i < |below| ==> Waiting(below[i])
  }

  function At(below: seq<Level>, s: State, scr: Scratch): Machine {
    Machine(below, Level(s, Start, Null, None), scr)
  }

  /** The first character of a literal or a number moves to its state m2 and is consumed there. */
  lemma RunLeafStart(below: seq<Level>, scr: Scratch, c: char, m2: Machine, m3: Machine)
    requires Base(below) && ValueStart(c)
    requires Good(At(below, Start, scr)) && StartStep(At(below, Start, scr), c) == Move(m2, Redo)
    requires Step(m2, Null, c) == Move(m3, Consume) && m2.top.state != Finish
    ensures Run(Machine(below, Fresh, scr), [c]) == Going(m3)
  {
    FeedFresh(below, scr, c);
    var m1 := At(below, Start, scr);
    assert Switch(m1, Null, c) == Outcome(m2, Null, Redo);
    assert Feed(m1, Null, c) == Feed(m2, Null, c) == Outcome(m3, Null, Consume);
    RunOne(Machine(below, Fresh, scr), c);
  }

  lemma StartGoesTo(below: seq<Level>, scr: Scratch, c: char)
    requires Base(below) && LeafFor(c) != Start
    ensures Good(At(below, Start, scr))
    ensures StartStep(At(below, Start, scr), c) ==
            Move(At(below, LeafFor(c), if LeafFor(c) == Number then scr.(pb := "", isDouble := false)
                                       else scr.(pb := "", stPos := 0)), Redo)
  {
  }

  /** w is the word in any mix of upper and lower case. */
  predicate Spells(w: string, word: string) {
    |w| == |word| && forall i :: 0 <= i < |w| ==> w[i] == word[i] || w[i] as int + 32 == word[i] as int
  }

  predicate LowerCase(word: string) { forall i :: 0 <= i < |word| ==> 'a' <= word[i] <= 'z' }

  lemma SpellsSame(w: string, word: string, buf: string, n: nat)
    requires Spells(w, word) && LowerCase(word) && n <= |word| && n <= |buf|
    requires forall i :: 0 <= i < n ==> buf[i] == w[i]
    ensures SameIgnoringCase(word, buf, n)
  {
  }

  lemma NullFirst(below: seq<Level>, scr: Scratch, c: char)
    requires Base(below) && scr.pb == "" && scr.stPos == 0 && (c == 'n' || c == 'N')
    ensures Good(At(below, NullWord, scr))
    ensures Step(At(below, NullWord, scr), Null, c) == Move(At(below, NullWord, scr.(pb := [c], stPos := 1)), Consume)
  {
    hide Kept, EatwsStep, StartStep, FinishStep, CommentStartStep, CommentStep, CommentEolStep, CommentEndStep,
         TextStep, EscapedStep, UnicodeStep, BooleanStep, NumberStep, ArrayStep, ArrayAddStep, ArraySepStep,
         FieldStartStep, FieldStep, FieldEndStep, ObjectValueStep, ObjectValueAddStep, ObjectSepStep;
    assert Put1(At(below, NullWord, scr), c).scr.pb == [c];
    assert Lower(c) == 'n' == Lower("null"[0]);
  }

  lemma BooleanFirst(below: seq<Level>, scr: Scratch, c: char)
    requires Base(below) && scr.pb == "" && scr.stPos == 0 && (c == 't' || c == 'f' || c == 'T' || c == 'F')
    ensures Good(At(below, Boolean, scr))
    ensures Step(At(below, Boolean, scr), Null, c) == Move(At(below, Boolean, scr.(pb := [c], stPos := 1)), Consume)
  {
    hide Kept, EatwsStep, StartStep, FinishStep, NullStep, CommentStartStep, CommentStep, CommentEolStep,
         CommentEndStep, TextStep, EscapedStep, UnicodeStep, NumberStep, ArrayStep, ArrayAddStep, ArraySepStep,
         FieldStartStep, FieldStep, FieldEndStep, ObjectValueStep, ObjectValueAddStep, ObjectSepStep;
    assert Put1(At(below, Boolean, scr), c).scr.pb == [c];
    assert c == 'f' || c == 'F' ==> Lower(c) == 'f' == Lower("false"[0]);
    assert c == 't' || c == 'T' ==> Lower(c) == 't' == Lower("true"[0]);
  }

  lemma NumberTakesFirst(below: seq<Level>, scr: Scratch, c: char)
    requires Base(below) && scr.pb == "" && !scr.isDouble && (IsDigit(c) || c == '-')
    ensures Good(At(below, Number, scr))
    ensures Step(At(below, Number, scr), Null, c) == Move(At(below, Number, scr.(pb := [c])), Consume)
  {
    assert Put1(At(below, Number, scr), c).scr.pb == [c];
  }

  lemma RunNullStart(below: seq<Level>, scr: Scratch, c: char)
    requires Base(below) && (c == 'n' || c == 'N')
    ensures Run(Machine(below, Fresh, scr), [c]) == Going(At(below, NullWord, scr.(pb := [c], stPos := 1)))
  {
    hide Feed, Step, StartStep;
    var s1 := scr.(pb := "", stPos := 0);
    StartGoesTo(below, scr, c);
    NullFirst(below, s1, c);
    RunLeafStart(below, scr, c, At(below, NullWord, s1), At(below, NullWord, scr.(pb := [c], stPos := 1)));
  }

  lemma RunBoolStart(below: seq<Level>, scr: Scratch, c: char)
    requires Base(below) && (c == 't' || c == 'f' || c == 'T' || c == 'F')
    ensures Run(Machine(below, Fresh, scr), [c]) == Going(At(below, Boolean, scr.(pb := [c], stPos := 1)))
  {
    hide Feed, Step, StartStep;
    var s1 := scr.(pb := "", stPos := 0);
    StartGoesTo(below, scr, c);
    BooleanFirst(below, s1, c);
    RunLeafStart(below, scr, c, At(below, Boolean, s1), At(below, Boolean, scr.(pb := [c], stPos := 1)));
  }

  lemma RunNumberStart(below: seq<Level>, scr: Scratch, c: char)
    requires Base(below) && (IsDigit(c) || c == '-')
    ensures Run(Machine(below, Fresh, scr), [c]) == Going(At(below, Number, scr.(pb := [c], isDouble := false)))
  {
    hide Feed, Step, StartStep;
    var s1 := scr.(pb := "", isDouble := false);
    StartGoesTo(below, scr, c);
    NumberTakesFirst(below, s1, c);
    RunLeafStart(below, scr, c, At(below, Number, s1), At(below, Number, scr.(pb := [c], isDouble := false)));
  }

  lemma NullCharIs(m: Machine, w: string, k: nat)
    requires Good(m) && m.top.state == NullWord && Spells(w, "null") && m.scr.stPos == k < 4 && m.scr.pb == w[..k]
    ensures NullStep(m, w[k]) == Move(m.(scr := m.scr.(pb := w[..k + 1], stPos := k + 1)), Consume)
  {
    hide Waiting, Kept;
    assert w[..k] + [w[k]] == w[..k + 1];
    SpellsSame(w, "null", w[..k + 1], k + 1);
  }

  lemma RunNullChar(m: Machine, w: string, k: nat)
    requires Settled(m) && m.top.state == NullWord && Spells(w, "null") && m.scr.stPos == k < 4 && m.scr.pb == w[..k]
    ensures Run(m, [w[k]]) == Going(m.(scr := m.scr.(pb := w[..k + 1], stPos := k + 1)))
  {
    hide Waiting, Kept, EatwsStep, StartStep, FinishStep, NullStep, CommentStartStep, CommentStep, CommentEolStep,
         CommentEndStep, TextStep, EscapedStep, UnicodeStep, BooleanStep, NumberStep, ArrayStep, ArrayAddStep,
         ArraySepStep, FieldStartStep, FieldStep, FieldEndStep, ObjectValueStep, ObjectValueAddStep, ObjectSepStep;
    NullCharIs(m, w, k);
    RunOne(m, w[k]);
  }

  lemma {:induction false} RunNullFrom(m: Machine, w: string, k: nat)
    requires Settled(m) && m.top.state == NullWord && Spells(w, "null") && m.scr.stPos == k <= 4 && m.scr.pb == w[..k]
    ensures Run(m, w[k..]) == Going(m.(scr := m.scr.(pb := w, stPos := 4)))
    decreases 4 - k
  {
    hide Feed, Kept;
    if k == 4 {
      assert w[..4] == w && w[4..] == [];
    } else {
      RunNullChar(m, w, k);
      var m1 := m.(scr := m.scr.(pb := w[..k + 1], stPos := k + 1));
      RunNullFrom(m1, w, k + 1);
      assert w[k..] == [w[k]] + w[k + 1..];
      RunAppend(m, [w[k]], w[k + 1..]);
    }
  }

  lemma EndNull(below: seq<Level>, scr: Scratch, w: string, d: char)
    requires Base(below) && Spells(w, "null") && scr.pb == w && scr.stPos == 4
    ensures Ready(At(below, NullWord, scr), below, Null, scr.(pb := w + [d]), d)
  {
    hide Kept, EatwsStep, StartStep, FinishStep, CommentStartStep, CommentStep, CommentEolStep, CommentEndStep,
         TextStep, EscapedStep, UnicodeStep, BooleanStep, NumberStep, ArrayStep, ArrayAddStep, ArraySepStep,
         FieldStartStep, FieldStep, FieldEndStep, ObjectValueStep, ObjectValueAddStep, ObjectSepStep;
    var m := At(below, NullWord, scr);
    var scr2 := scr.(pb := w + [d]);
    SpellsSame(w, "null", w + [d], 4);
    assert NullStep(m, d) == Move(Machine(below, Done(Null), scr2), Redo);
    assert Switch(m, Null, d) == Outcome(Machine(below, Done(Null), scr2), Null, Redo);
  }

  lemma ReadNull(below: seq<Level>, scr: Scratch, w: string, d: char) returns (m: Machine, scr2: Scratch)
    requires Base(below) && Spells(w, "null")
    ensures Run(Machine(below, Fresh, scr), w) == Going(m) && Ready(m, below, Null, scr2, d)
  {
    hide Feed, Kept;
    RunNullStart(below, scr, w[0]);
    var m1 := At(below, NullWord, scr.(pb := [w[0]], stPos := 1));
    assert w[..1] == [w[0]];
    RunNullFrom(m1, w, 1);
    RunAppend(Machine(below, Fresh, scr), [w[0]], w[1..]);
    assert w == [w[0]] + w[1..];
    m := At(below, NullWord, scr.(pb := w, stPos := 4));
    scr2 := m.scr.(pb := w + [d]);
    EndNull(below, m.scr, w, d);
  }

  function Word(b: bool): string { if b then "true" else "false" }

  lemma WordFirst(w: string, b: bool)
    requires Spells(w, Word(b))
    ensures Lower(w[0]) == if b then 't' else 'f'
    ensures w[0] == (if b then 't' else 'f') || w[0] == if b then 'T' else 'F'
  {
  }

  lemma BoolCharIs(m: Machine, w: string, b: bool, k: nat)
    requires Good(m) && m.top.state == Boolean && Spells(w, Word(b))
    requires 0 < m.scr.stPos == k < |w| && m.scr.pb == w[..k]
    ensures BooleanStep(m, w[k]) == Move(m.(scr := m.scr.(pb := w[..k + 1], stPos := k + 1)), Consume)
  {
    hide Waiting, Kept;
    assert w[..k] + [w[k]] == w[..k + 1];
    WordFirst(w, b);
    SpellsSame(w, Word(b), w[..k + 1], k + 1);
    if !b {
      assert Lower(w[..k + 1][0]) == 'f' && Lower("true"[0]) == 't';
    }
  }

  lemma RunBoolChar(m: Machine, w: string, b: bool, k: nat)
    requires Settled(m) && m.top.state == Boolean && Spells(w, Word(b))
    requires 0 < m.scr.stPos == k < |w| && m.scr.pb == w[..k]
    ensures Run(m, [w[k]]) == Going(m.(scr := m.scr.(pb := w[..k + 1], stPos := k + 1)))
  {
    hide Waiting, Kept, EatwsStep, StartStep, FinishStep, NullStep, CommentStartStep, CommentStep, CommentEolStep,
         CommentEndStep, TextStep, EscapedStep, UnicodeStep, BooleanStep, NumberStep, ArrayStep, ArrayAddStep,
         ArraySepStep, FieldStartStep, FieldStep, FieldEndStep, ObjectValueStep, ObjectValueAddStep, ObjectSepStep;
    BoolCharIs(m, w, b, k);
    RunOne(m, w[k]);
  }

  lemma {:induction false} RunBoolFrom(m: Machine, w: string, b: bool, k: nat)
    requires Settled(m) && m.top.state == Boolean && Spells(w, Word(b))
    requires 0 < m.scr.stPos == k <= |w| && m.scr.pb == w[..k]
    ensures Run(m, w[k..]) == Going(m.(scr := m.scr.(pb := w, stPos := |w|)))
    decreases |w| - k
  {
    hide Feed, Kept;
    if k == |w| {
      assert w[..k] == w && w[k..] == [];
    } else {
      RunBoolChar(m, w, b, k);
      var m1 := m.(scr := m.scr.(pb := w[..k + 1], stPos := k + 1));
      WordFirst(w, b);
      assert w[..k + 1][0] == w[0];
      RunBoolFrom(m1, w, b, k + 1);
      assert w[k..] == [w[k]] + w[k + 1..];
      RunAppend(m, [w[k]], w[k + 1..]);
    }
  }

  lemma EndBool(below: seq<Level>, scr: Scratch, w: string, b: bool, d: char)
    requires Base(below) && Spells(w, Word(b)) && scr.pb == w && scr.stPos == |w|
    ensures Ready(At(below, Boolean, scr), below, Bool(b), scr.(pb := w + [d]), d)
  {
    hide Kept, EatwsStep, StartStep, FinishStep, NullStep, CommentStartStep, CommentStep, CommentEolStep,
         CommentEndStep, TextStep, EscapedStep, UnicodeStep, NumberStep, ArrayStep, ArrayAddStep, ArraySepStep,
         FieldStartStep, FieldStep, FieldEndStep, ObjectValueStep, ObjectValueAddStep, ObjectSepStep;
    var m := At(below, Boolean, scr);
    var scr2 := scr.(pb := w + [d]);
    WordFirst(w, b);
    SpellsSame(w, Word(b), w + [d], |w|);
    assert (w + [d])[0] == w[0];
    assert BooleanStep(m, d) == Move(Machine(below, Done(Bool(b)), scr2), Redo);
    assert Switch(m, Null, d) == Outcome(Machine(below, Done(Bool(b)), scr2), Null, Redo);
  }

  lemma ReadBool(below: seq<Level>, scr: Scratch, w: string, b: bool, d: char) returns (m: Machine, scr2: Scratch)
    requires Base(below) && Spells(w, Word(b))
    ensures Run(Machine(below, Fresh, scr), w) == Going(m) && Ready(m, below, Bool(b), scr2, d)
  {
    hide Feed, Kept;
    WordFirst(w, b);
    RunBoolStart(below, scr, w[0]);
    var m1 := At(below, Boolean, scr.(pb := [w[0]], stPos := 1));
    assert w[..1] == [w[0]];
    RunBoolFrom(m1, w, b, 1);
    RunAppend(Machine(below, Fresh, scr), [w[0]], w[1..]);
    assert w == [w[0]] + w[1..];
    m := At(below, Boolean, scr.(pb := w, stPos := |w|));
    scr2 := m.scr.(pb := w + [d]);
    EndBool(below, m.scr, w, b, d);
  }

  // ---------------------------------------------------------------- numbers

  /** '0' to '9', the point, the signs and the exponent letters */
  predicate NumberText(s: string) {
    forall i :: 0 <= i < |s| ==>
      '0' <= s[i] <= '9' || s[i] == '.' || s[i] == '-' || s[i] == '+' || s[i] == 'e' || s[i] == 'E'
  }

  predicate HasPoint(s: string) { exists i :: 0 <= i < |s| && (s[i] == '.' || s[i] == 'e' || s[i] == 'E') }

  lemma NumberFed(m: Machine, c: char)
    requires Settled(m) && m.top.state == Number && NumberText([c])
    ensures Feed(m, Null, c) ==
            Outcome(Put1(m, c).(scr := Put1(m, c).scr.(isDouble := m.scr.isDouble || HasPoint([c]))), Null, Consume)
  {
    assert [c][0] == c;
  }

  lemma {:induction false} RunNumber(m: Machine, s: string)
    requires Settled(m) && m.top.state == Number && NumberText(s)
    ensures Run(m, s) == Going(m.(scr := m.scr.(pb := m.scr.pb + s, isDouble := m.scr.isDouble || HasPoint(s))))
    decreases |s|
  {
    hide Feed, Step, Kept;
    if s == [] {
      assert m.scr.pb + s == m.scr.pb;
    } else {
      NumberFed(m, s[0]);
      var m1 := Put1(m, s[0]).(scr := Put1(m, s[0]).scr.(isDouble := m.scr.isDouble || HasPoint([s[0]])));
      RunNumber(m1, s[1..]);
      assert m.scr.pb + [s[0]] + s[1..] == m.scr.pb + s;
      PointAt(s);
    }
  }

  lemma PointAt(s: string)
    requires s != []
    ensures HasPoint(s) <==> HasPoint([s[0]]) || HasPoint(s[1..])
  {
    assert [s[0]][0] == s[0];
    if HasPoint(s[1..]) {
      var i :| 0 <= i < |s[1..]| && (s[1..][i] == '.' || s[1..][i] == 'e' || s[1..][i] == 'E');
      assert s[i + 1] == s[1..][i];
    }
    if HasPoint(s) {
      var i :| 0 <= i < |s| && (s[i] == '.' || s[i] == 'e' || s[i] == 'E');
      assert i > 0 ==> s[1..][i - 1] == s[i];
    }
  }

  lemma NoPoint(c: char)
    requires '0' <= c <= '9' || c == '-'
    ensures !HasPoint([c])
  {
  }

  lemma EndNumber(below: seq<Level>, scr: Scratch, v: Json, d: char)
    requires Base(below) && !IsNumberChar(d)
    requires if scr.isDouble then ScansAsDouble(scr.pb) && v == Double(scr.pb)
             else ScanInt(scr.pb).Some? && v == Int(ScanInt(scr.pb).value)
    ensures Ready(At(below, Number, scr), below, v, scr, d)
  {
    hide ScanInt, ScansAsDouble, Kept;
    var m := At(below, Number, scr);
    assert NumberStep(m, d) == Move(Machine(below, Done(v), scr), Redo);
    assert Switch(m, Null, d) == Outcome(Machine(below, Done(v), scr), Null, Redo);
  }

  /** A number as the C library scans it. */
  lemma ReadNumber(below: seq<Level>, scr: Scratch, s: string, v: Json, d: char) returns (m: Machine, scr2: Scratch)
    requires Base(below) && !IsNumberChar(d) && s != [] && ('0' <= s[0] <= '9' || s[0] == '-') && NumberText(s)
    requires if HasPoint(s) then ScansAsDouble(s) && v == Double(s) else ScanInt(s).Some? && v == Int(ScanInt(s).value)
    ensures Run(Machine(below, Fresh, scr), s) == Going(m) && Ready(m, below, v, scr2, d)
  {
    hide Feed, Step, ScanInt, ScansAsDouble, Run, Kept, Waiting, HasPoint;
    RunNumberStart(below, scr, s[0]);
    var m1 := At(below, Number, scr.(pb := [s[0]], isDouble := false));
    RunNumber(m1, s[1..]);
    PointAt(s);
    NoPoint(s[0]);
    RunAppend(Machine(below, Fresh, scr), [s[0]], s[1..]);
    assert s == [s[0]] + s[1..];
    scr2 := scr.(pb := s, isDouble := HasPoint(s));
    m := At(below, Number, scr2);
    EndNumber(below, scr2, v, d);
  }

  // ---------------------------------------------------------------- quotes

  lemma RunOpenQuote(below: seq<Level>, scr: Scratch, q: char)
    requires Base(below) && (q == '"' || q == '\'')
    ensures Run(Machine(below, Fresh, scr), [q]) == Going(At(below, Text, scr.(pb := "", quote := q)))
  {
    hide Kept;
    FeedFresh(below, scr, q);
    RunOne(Machine(below, Fresh, scr), q);
  }

  lemma RunCloseQuote(m: Machine)
    requires InText(m)
    ensures Run(m, [m.scr.quote]) ==
            Going(if m.top.state == Text then Leaf(m, Str(CString(m.scr.pb)))
                  else m.(top := m.top.(state := Eatws, saved := FieldEnd, field := Some(CString(m.scr.pb)))))
  {
    hide Kept;
    RunOne(m, m.scr.quote);
  }

  // ---------------------------------------------------------------- containers

  function InArray(below: seq<Level>, es: seq<Json>, scr: Scratch): Machine {
    Machine(below, Level(Eatws, Array, Arr(es), None), scr)
  }

  function InObject(below: seq<Level>, fs: seq<(string, Json)>, scr: Scratch): Machine {
    Machine(below, Level(Eatws, FieldStart, Obj(fs), None), scr)
  }

  function InValue(below: seq<Level>, fs: seq<(string, Json)>, k: string, scr: Scratch): Machine {
    Machine(below, Level(Eatws, ObjectValue, Obj(fs), Some(k)), scr)
  }

  function AboveArray(below: seq<Level>, es: seq<Json>): seq<Level> {
    below + [Level(ArrayAdd, Array, Arr(es), None)]
  }

  function AboveObject(below: seq<Level>, fs: seq<(string, Json)>, k: string): seq<Level> {
    below + [Level(ObjectValueAdd, ObjectValue, Obj(fs), Some(k))]
  }

  lemma RunOpen(below: seq<Level>, scr: Scratch)
    requires Base(below)
    ensures Run(Machine(below, Fresh, scr), "[") == Going(InArray(below, [], scr))
    ensures Run(Machine(below, Fresh, scr), "{") == Going(InObject(below, [], scr))
  {
    FeedFresh(below, scr, '[');
    FeedFresh(below, scr, '{');
    var m := At(below, Start, scr);
    assert StartStep(m, '[') == Move(InArray(below, [], scr), Consume);
    assert StartStep(m, '{') == Move(InObject(below, [], scr), Consume);
    RunOne(Machine(below, Fresh, scr), '[');
    RunOne(Machine(below, Fresh, scr), '{');
  }

  /** A value read where an element is expected pushes a level first. */
  lemma RunElement(below: seq<Level>, es: seq<Json>, scr: Scratch, s: string)
    requires Base(below) && s != [] && ValueStart(s[0])
    ensures |below| < MAX_DEPTH - 1 ==>
              && Base(AboveArray(below, es))
              && Run(InArray(below, es, scr), s) == Run(Machine(AboveArray(below, es), Fresh, scr), s)
    ensures |below| == MAX_DEPTH - 1 ==> Run(InArray(below, es, scr), s) == Halted(TooDeep)
  {
    hide Feed, Kept;
    FeedPushArray(below, es, scr, s[0]);
  }

  lemma RunFieldValue(below: seq<Level>, fs: seq<(string, Json)>, k: string, scr: Scratch, s: string)
    requires Base(below) && s != [] && ValueStart(s[0])
    ensures |below| < MAX_DEPTH - 1 ==>
              && Base(AboveObject(below, fs, k))
              && Run(InValue(below, fs, k, scr), s) == Run(Machine(AboveObject(below, fs, k), Fresh, scr), s)
    ensures |below| == MAX_DEPTH - 1 ==> Run(InValue(below, fs, k, scr), s) == Halted(TooDeep)
  {
    hide Feed, Kept;
    FeedPushObject(below, fs, k, scr, s[0]);
  }

  function InKey(below: seq<Level>, fs: seq<(string, Json)>, scr: Scratch, q: char, pb: string): Machine {
    Machine(below, Level(Field, FieldStart, Obj(fs), None), scr.(quote := q, pb := pb))
  }

  /** A key starts with its quote, or with its first character and then ends at the colon. */
  lemma RunOpenKey(below: seq<Level>, fs: seq<(string, Json)>, scr: Scratch, c: char)
    requires Base(below) && !IsSpace(c) && c != '/' && c != '}'
    ensures Run(InObject(below, fs, scr), [c]) ==
            Going(if c == '"' || c == '\'' then InKey(below, fs, scr, c, "") else InKey(below, fs, scr, ':', [c]))
  {
    hide Kept, EatwsStep, StartStep, FinishStep, NullStep, CommentStartStep, CommentStep, CommentEolStep,
         CommentEndStep, TextStep, EscapedStep, UnicodeStep, BooleanStep, NumberStep, ArrayStep, ArrayAddStep,
         ArraySepStep, FieldStep, FieldEndStep, ObjectValueStep, ObjectValueAddStep, ObjectSepStep;
    FeedSaved(InObject(below, fs, scr), Null, c);
    var m1 := To(InObject(below, fs, scr), FieldStart);
    var m2 := if c == '"' || c == '\'' then InKey(below, fs, scr, c, "") else InKey(below, fs, scr, ':', [c]);
    assert FieldStartStep(m1, c) == Move(m2, Consume);
    RunOne(InObject(below, fs, scr), c);
  }

  lemma BareFed(m: Machine, c: char)
    requires Settled(m) && m.top.state == Field && m.scr.quote == ':' && c != ':' && c != '\\'
    ensures Feed(m, Null, c) == Outcome(Put1(m, c), Null, Consume)
  {
  }

  lemma {:induction false} RunBare(m: Machine, s: string)
    requires Settled(m) && m.top.state == Field && m.scr.quote == ':'
    requires forall i :: 0 <= i < |s| ==> s[i] != ':' && s[i] != '\\'
    ensures Run(m, s) == Going(m.(scr := m.scr.(pb := m.scr.pb + s)))
    decreases |s|
  {
    hide Feed, Step, Kept;
    if s == [] {
      assert m.scr.pb + s == m.scr.pb;
    } else {
      BareFed(m, s[0]);
      RunBare(Put1(m, s[0]), s[1..]);
      assert m.scr.pb + [s[0]] + s[1..] == m.scr.pb + s;
    }
  }

  lemma RunBareColon(below: seq<Level>, fs: seq<(string, Json)>, scr: Scratch, pb: string)
    requires Base(below)
    ensures Run(InKey(below, fs, scr, ':', pb), ":") ==
            Going(InValue(below, fs, CString(pb), scr.(quote := ':', pb := pb)))
  {
    hide Kept, CString, EatwsStep, StartStep, FinishStep, NullStep, CommentStartStep, CommentStep, CommentEolStep,
         CommentEndStep, TextStep, EscapedStep, UnicodeStep, BooleanStep, NumberStep, ArrayStep, ArrayAddStep,
         ArraySepStep, FieldStartStep, FieldEndStep, ObjectValueStep, ObjectValueAddStep, ObjectSepStep;
    var m := InKey(below, fs, scr, ':', pb);
    assert FieldStep(m, ':') == Move(InValue(below, fs, CString(pb), scr.(quote := ':', pb := pb)), Consume);
    RunOne(m, ':');
  }

  lemma RunColon(below: seq<Level>, fs: seq<(string, Json)>, k: string, scr: Scratch)
    requires Base(below)
    ensures Run(Machine(below, Level(Eatws, FieldEnd, Obj(fs), Some(k)), scr), ":") == Going(InValue(below, fs, k, scr))
  {
    hide Kept, EatwsStep, StartStep, FinishStep, NullStep, CommentStartStep, CommentStep, CommentEolStep,
         CommentEndStep, TextStep, EscapedStep, UnicodeStep, BooleanStep, NumberStep, ArrayStep, ArrayAddStep,
         ArraySepStep, FieldStartStep, FieldStep, ObjectValueStep, ObjectValueAddStep, ObjectSepStep;
    var m := Machine(below, Level(Eatws, FieldEnd, Obj(fs), Some(k)), scr);
    FeedSaved(m, Null, ':');
    assert FieldEndStep(To(m, FieldEnd), ':') == Move(InValue(below, fs, k, scr), Consume);
    RunOne(m, ':');
  }

  /** The bracket that ends an empty array, or one after a comma. */
  lemma RunCloseArray(below: seq<Level>, es: seq<Json>, scr: Scratch)
    requires Base(below)
    ensures Run(InArray(below, es, scr), "]") == Going(Machine(below, Done(Arr(es)), scr))
  {
    hide Kept, EatwsStep, StartStep, FinishStep, NullStep, CommentStartStep, CommentStep, CommentEolStep,
         CommentEndStep, TextStep, EscapedStep, UnicodeStep, BooleanStep, NumberStep, ArrayAddStep, ArraySepStep,
         FieldStartStep, FieldStep, FieldEndStep, ObjectValueStep, ObjectValueAddStep, ObjectSepStep;
    var m := InArray(below, es, scr);
    FeedSaved(m, Null, ']');
    assert ArrayStep(To(m, Array), ']') == Move(Machine(below, Done(Arr(es)), scr), Consume);
    RunOne(m, ']');
  }

  lemma RunCloseObject(below: seq<Level>, fs: seq<(string, Json)>, scr: Scratch)
    requires Base(below)
    ensures Run(InObject(below, fs, scr), "}") == Going(Machine(below, Done(Obj(fs)), scr))
  {
    hide Kept, EatwsStep, StartStep, FinishStep, NullStep, CommentStartStep, CommentStep, CommentEolStep,
         CommentEndStep, TextStep, EscapedStep, UnicodeStep, BooleanStep, NumberStep, ArrayStep, ArrayAddStep,
         ArraySepStep, FieldStep, FieldEndStep, ObjectValueStep, ObjectValueAddStep, ObjectSepStep;
    var m := InObject(below, fs, scr);
    FeedSaved(m, Null, '}');
    assert FieldStartStep(To(m, FieldStart), '}') == Move(Machine(below, Done(Obj(fs)), scr), Consume);
    RunOne(m, '}');
  }

  /** After an element, a comma or the bracket pops it into the array. */
  lemma RunPopArray(below: seq<Level>, es: seq<Json>, v: Json, scr: Scratch, m: Machine, c: char)
    requires Base(below) && |below| < MAX_DEPTH - 1 && (c == ',' || c == ']')
    requires Ready(m, AboveArray(below, es), v, scr, c)
    ensures Run(m, [c]) ==
            Going(if c == ',' then InArray(below, es + [v], scr) else Machine(below, Done(Arr(es + [v])), scr))
  {
    hide Feed, Step, Kept;
    FeedPopArray(below, es, v, scr, Null, c);
    RunOne(m, c);
  }

  lemma RunPopObject(below: seq<Level>, fs: seq<(string, Json)>, k: string, v: Json, scr: Scratch, m: Machine,
      c: char)
    requires Base(below) && |below| < MAX_DEPTH - 1 && (c == ',' || c == '}')
    requires Ready(m, AboveObject(below, fs, k), v, scr, c)
    ensures Run(m, [c]) ==
            Going(if c == ',' then InObject(below, Put(fs, k, v), scr)
                  else Machine(below, Done(Obj(Put(fs, k, v))), scr))
  {
    hide Feed, Step, Kept;
    FeedPopObject(below, fs, k, v, scr, Null, c);
    RunOne(m, c);
  }

  // ---------------------------------------------------------------- whole texts

  /** The parse loop on a text is `Run` on the text, then the character after it. */
  lemma {:induction false} ParseIsRun(m: Machine, obj: Json, s: string, i: nat)
    requires Settled(m) && NulFree(s) && i <= |s|
    ensures Readable(s + [NUL], i, -1)
    ensures var r := Run(m, s[i..]);
            var p := ParseFrom(m, obj, s + [NUL], i, -1);
            if r.Going? then Readable(s + [NUL], |s|, -1) && p == ParseFrom(r.m, Null, s + [NUL], |s|, -1)
            else p.err == r.err
    decreases |s| - i
  {
    hide Feed;
    var str := s + [NUL];
    assert str[|s|] == NUL;
    if i == |s| {
      assert s[i..] == [];
      ParseIgnoresObj(m, obj, Null, str, i, -1);
    } else {
      assert str[i] == s[i];
      assert s[i..][1..] == s[i + 1..];
      FeedIgnoresObj(m, obj, Null, s[i]);
      var o := Feed(m, obj, s[i]);
      if !o.act.Stop? {
        ParseIsRun(o.m, o.obj, s, i + 1);
      }
    }
  }

  lemma FeedNulWhenDone(v: Json, scr: Scratch)
    requires Good(Machine([], Done(v), scr))
    ensures Feed(Machine([], Done(v), scr), Null, NUL) ==
            Outcome(Machine([], Done(v).(state := Finish), scr), Null, Stop(Success))
  {
    FeedSaved(Machine([], Done(v), scr), Null, NUL);
  }
}
