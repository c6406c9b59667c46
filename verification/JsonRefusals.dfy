/** What the tokener refuses, character by character, and with which error (`json_tokener.c`). */
module JsonRefusals {
  import opened Wrappers
  import opened OrderedMap
  import opened JsonValue
  import opened JsonMachine
  import opened JsonParse
  import opened JsonRun
  import opened JsonGrammar

  /** White space and the slash of a comment may stand between any two tokens. */
  predicate Gap(c: char) { White(c) || c == '/' }

  /** A value starts with a bracket, a quote, a digit, a minus sign, or the first letter of a word. */
  predicate Starts(c: char) {
    || c == '{' || c == '[' || c == '"' || c == '\'' || '0' <= c <= '9' || c == '-'
    || c == 'n' || c == 'N' || c == 't' || c == 'T' || c == 'f' || c == 'F'
  }

  /** The character is refused with this error exactly if ok does not hold. */
  ghost predicate RefusedUnless(m: Machine, c: char, err: Error, ok: bool)
    requires Settled(m)
  {
    Run(m, [c]) == Halted(err) <==> !ok
  }

  lemma ValueRefused(below: seq<Level>, scr: Scratch, c: char)
    requires Base(below)
    ensures RefusedUnless(Machine(below, Fresh, scr), c, Unexpected, Gap(c) || Starts(c))
  {
    hide Kept, Step, Feed;
    var m := Machine(below, Fresh, scr);
    RunOne(m, c);
    if Gap(c) {
      GapTaken(m, c);
    } else if Starts(c) {
      StartTaken(below, scr, c);
    } else {
      FeedSaved(m, Null, c);
      StartStops(To(m, Start), c);
    }
  }

  lemma StartStops(m: Machine, c: char)
    requires Good(m) && m.top.state == Start && !Starts(c)
    ensures Feed(m, Null, c).act == Stop(Unexpected)
  {
  }

  lemma StartTaken(below: seq<Level>, scr: Scratch, c: char)
    requires Base(below) && Starts(c)
    ensures Run(Machine(below, Fresh, scr), [c]).Going?
  {
    hide Feed, Step;
    if c == '{' || c == '[' {
      RunOpen(below, scr);
    } else if c == '"' || c == '\'' {
      RunOpenQuote(below, scr, c);
    } else if c == 'n' || c == 'N' {
      RunNullStart(below, scr, c);
    } else if '0' <= c <= '9' || c == '-' {
      RunNumberStart(below, scr, c);
    } else {
      RunBoolStart(below, scr, c);
    }
  }

  /** Behind an element only a comma or the closing bracket may come. */
  lemma ElementRefused(below: seq<Level>, es: seq<Json>, v: Json, scr: Scratch, c: char)
    requires Base(below) && |below| < 31
    ensures Settled(Machine(AboveArray(below, es), Done(v), scr))
    ensures RefusedUnless(Machine(AboveArray(below, es), Done(v), scr), c, BadArray, Gap(c) || c == ',' || c == ']')
  {
    hide Kept, Step, Feed;
    var m := Machine(AboveArray(below, es), Done(v), scr);
    RunOne(m, c);
    if Gap(c) {
      GapTaken(m, c);
    } else if c == ',' || c == ']' {
      FeedPopArray(below, es, v, scr, Null, c);
    } else {
      FeedAddArray(below, es, v, scr, Null, c);
      SepStops(Machine(below, Level(ArraySep, ArraySep, Arr(es + [v]), None), scr), v, c);
    }
  }

  lemma GapTaken(m: Machine, c: char)
    requires Settled(m) && m.top.state == Eatws && Gap(c)
    ensures Feed(m, Null, c).act == Consume
  {
    hide Kept, StartStep, FinishStep, NullStep, CommentStartStep, CommentStep, CommentEolStep, CommentEndStep, TextStep,
         EscapedStep, UnicodeStep, BooleanStep, NumberStep, ArrayStep, ArrayAddStep, ArraySepStep, FieldStartStep,
         FieldStep, FieldEndStep, ObjectValueStep, ObjectValueAddStep, ObjectSepStep;
  }

  lemma SepStops(m: Machine, obj: Json, c: char)
    requires Good(m) && c != ','
    ensures m.top.state == ArraySep && c != ']' ==> Feed(m, obj, c).act == Stop(BadArray)
    ensures m.top.state == ObjectSep && c != '}' ==> Feed(m, obj, c).act == Stop(BadValueSep)
  {
  }

  /** Behind a field only a comma or the closing brace may come. */
  lemma FieldRefused(below: seq<Level>, fs: seq<(string, Json)>, k: string, v: Json, scr: Scratch, c: char)
    requires Base(below) && |below| < 31
    ensures Settled(Machine(AboveObject(below, fs, k), Done(v), scr))
    ensures RefusedUnless(Machine(AboveObject(below, fs, k), Done(v), scr), c, BadValueSep,
                          Gap(c) || c == ',' || c == '}')
  {
    hide Kept, Step, Feed;
    var m := Machine(AboveObject(below, fs, k), Done(v), scr);
    RunOne(m, c);
    if Gap(c) {
      GapTaken(m, c);
    } else if c == ',' || c == '}' {
      FeedPopObject(below, fs, k, v, scr, Null, c);
    } else {
      FeedAddObject(below, fs, k, v, scr, Null, c);
      SepStops(Machine(below, Level(ObjectSep, ObjectSep, Obj(Put(fs, k, v)), None), scr), v, c);
    }
  }

  /** Behind a quoted key only the colon may come. */
  lemma ColonRefused(m: Machine, c: char)
    requires Settled(m) && m.top.state == Eatws && m.top.saved == FieldEnd
    ensures RefusedUnless(m, c, BadKeySep, Gap(c) || c == ':')
  {
    RunOne(m, c);
  }

  /** Behind a backslash, seven characters and u; among those of section 2.5 of RFC 4627, f is refused. */
  lemma EscapeRefused(m: Machine, c: char)
    requires Settled(m) && m.top.state == Escaped
    ensures RefusedUnless(m, c, BadString,
              c == '"' || c == '\\' || c == '/' || c == 'b' || c == 'n' || c == 'r' || c == 't' || c == 'u')
  {
    RunOne(m, c);
  }

  /** In a code, the lower-case hexadecimal digits, and the NUL that strchr finds; upper-case digits are refused. */
  lemma CodeRefused(m: Machine, c: char)
    requires Settled(m) && m.top.state == EscapedUnicode
    ensures RefusedUnless(m, c, BadString, '0' <= c <= '9' || 'a' <= c <= 'f' || c as int == 0)
  {
    hide Utf8, AddHexDigit;
    RunOne(m, c);
  }

  /** Behind a slash, a star or another slash. */
  lemma CommentRefused(m: Machine, c: char)
    requires Settled(m) && m.top.state == CommentStart
    ensures RefusedUnless(m, c, BadComment, c == '*' || c == '/')
  {
    RunOne(m, c);
  }

  /** In a word, only its next letter, in either case. */
  lemma NullRefused(m: Machine, w: string, k: nat, c: char)
    requires Settled(m) && m.top.state == NullWord && Spells(w, "null") && m.scr.stPos == k < 4 && m.scr.pb == w[..k]
    ensures RefusedUnless(m, c, BadNull, c == "null"[k] || c as int + 32 == "null"[k] as int)
  {
    hide Feed, Step, Kept;
    if c == "null"[k] || c as int + 32 == "null"[k] as int {
      var u := w[k := c];
      assert u[..k] == w[..k];
      RunNullChar(m, u, k);
    } else {
      NullStops(m, w, k, c);
      RunOne(m, c);
    }
  }

  lemma NullStops(m: Machine, w: string, k: nat, c: char)
    requires Settled(m) && m.top.state == NullWord && m.scr.stPos == k < 4 && |w| == 4 && m.scr.pb == w[..k]
    requires c != "null"[k] && c as int + 32 != "null"[k] as int
    ensures Feed(m, Null, c).act == Stop(BadNull)
  {
    var buf := Put1(m, c).scr.pb;
    assert buf[k] == c;
    assert Lower(c) != Lower("null"[k]);
  }

  lemma BoolRefused(m: Machine, w: string, b: bool, k: nat, c: char)
    requires Settled(m) && m.top.state == Boolean && Spells(w, Word(b)) && 0 < m.scr.stPos == k < |w|
             && m.scr.pb == w[..k]
    ensures RefusedUnless(m, c, BadBoolean, c == Word(b)[k] || c as int + 32 == Word(b)[k] as int)
  {
    hide Feed, Step, Kept;
    if c == Word(b)[k] || c as int + 32 == Word(b)[k] as int {
      var u := w[k := c];
      assert u[..k] == w[..k];
      RunBoolChar(m, u, b, k);
    } else {
      BoolStops(m, w, b, k, c);
      RunOne(m, c);
    }
  }

  lemma BoolStops(m: Machine, w: string, b: bool, k: nat, c: char)
    requires Settled(m) && m.top.state == Boolean && Spells(w, Word(b)) && 0 < m.scr.stPos == k < |w|
             && m.scr.pb == w[..k]
    requires c != Word(b)[k] && c as int + 32 != Word(b)[k] as int
    ensures Feed(m, Null, c).act == Stop(BadBoolean)
  {
    hide Kept, EatwsStep, StartStep, FinishStep, NullStep, CommentStartStep, CommentStep, CommentEolStep,
         CommentEndStep, TextStep, EscapedStep, UnicodeStep, NumberStep, ArrayStep, ArrayAddStep, ArraySepStep,
         FieldStartStep, FieldStep, FieldEndStep, ObjectValueStep, ObjectValueAddStep, ObjectSepStep;
    var buf := Put1(m, c).scr.pb;
    assert buf[k] == c && buf[0] == w[0];
    WordFirst(w, b);
    assert Lower(c) != Lower(Word(b)[k]);
    assert Lower("true"[0]) == 't' && Lower("false"[0]) == 'f';
  }

  /** Behind the characters of a number: the scan decides. */
  lemma NumberRefused(below: seq<Level>, scr: Scratch, d: char)
    requires Base(below) && NumberText([d]) == false
    ensures var m := At(below, Number, scr);
            && Good(m)
            && (Switch(m, Null, d).act == Stop(BadNumber) <==>
                if scr.isDouble then !ScansAsDouble(scr.pb) else ScanInt(scr.pb).None?)
  {
    hide ScanInt, ScansAsDouble;
    assert [d][0] == d;
  }

  /** An integer needs a digit behind its sign. */
  lemma IntRefused(s: string)
    requires s != [] && ('0' <= s[0] <= '9' || s[0] == '-')
    ensures ScanInt(s).None? <==> s[0] == '-' && (|s| == 1 || !('0' <= s[1] <= '9'))
  {
  }

  /** A sign, digits, and a point with digits, as far as they go. */
  predicate Mantissa(neg: bool, a: string, b: Option<string>, rest: string) {
    && (forall i :: 0 <= i < |a| ==> '0' <= a[i] <= '9') && (neg || a != [])
    && (b.Some? ==> forall i :: 0 <= i < |b.value| ==> '0' <= b.value[i] <= '9')
    && (rest == [] || (!('0' <= rest[0] <= '9') && (b.None? ==> rest[0] != '.')))
  }

  function Point(b: Option<string>): string { if b.Some? then "." + b.value else "" }

  /** What the scan finds: the digits in front, the point and the digits behind it, and the rest. */
  lemma MantissaParts(neg: bool, a: string, b: Option<string>, rest: string)
    requires Mantissa(neg, a, b, rest)
    ensures var s2 := SkipDigits(a + (Point(b) + rest));
            && s2 == Point(b) + rest
            && (s2 != [] && s2[0] == '.' <==> b.Some?)
            && (b.Some? ==> SkipDigits(s2[1..]) == rest && |s2| == 1 + |b.value| + |rest|)
  {
    hide SkipDigits;
    var tail := Point(b) + rest;
    SkipDigitsOver(a, tail);
    if b.Some? {
      assert tail[1..] == b.value + rest;
      SkipDigitsOver(b.value, rest);
    }
  }

  /** The exponent, if there is one, has a digit. */
  predicate GoodExponent(rest: string) {
    rest != [] && (rest[0] == 'e' || rest[0] == 'E') ==>
      || (|rest| > 1 && '0' <= rest[1] <= '9')
      || (|rest| > 2 && (rest[1] == '+' || rest[1] == '-') && '0' <= rest[2] <= '9')
  }

  /** A double needs a digit in front of or behind its point, and one in its exponent. */
  lemma DoubleRefused(neg: bool, a: string, b: Option<string>, rest: string)
    requires Mantissa(neg, a, b, rest)
    ensures ScansAsDouble(Signed(neg, a + (Point(b) + rest))) <==>
            (a != [] || (b.Some? && b.value != [])) && GoodExponent(rest)
  {
    hide SkipDigits, Point;
    var u := a + (Point(b) + rest);
    var s := Signed(neg, u);
    MantissaParts(neg, a, b, rest);
    assert (if s != [] && (s[0] == '-' || s[0] == '+') then s[1..] else s) == u;
    var s2 := SkipDigits(u);
    var s3 := if s2 != [] && s2[0] == '.' then SkipDigits(s2[1..]) else s2;
    assert s3 == rest by { NoPointText(); }
    assert |rest| > 1 ==> rest[1..][0] == rest[1];
    assert |rest| > 2 ==> rest[2..][0] == rest[2];
  }

  lemma NoPointText()
    ensures Point(None) == ""
  {
  }

  /** A text that ends inside a string or a key is unfinished. */
  lemma TextUnfinished(m: Machine)
    requires InText(m)
    ensures Readable([NUL], 0, -1) && ParseFrom(m, Null, [NUL], 0, -1).err == Eof
  {
    assert [NUL][0] == NUL;
  }

  /** A finished value at the top ends the call with whatever comes next: what follows it is not read. */
  lemma RestIgnored(v: Json, scr: Scratch, c: char)
    requires !Gap(c) && Settled(Machine([], Done(v), scr))
    ensures var o := Feed(Machine([], Done(v), scr), Null, c);
            o.act == Stop(Success) && o.m.below == [] && o.m.top.current == v
  {
    FeedSaved(Machine([], Done(v), scr), Null, c);
  }
}
