/** What the tokener accepts beyond what the printer writes: `\u` escapes for every code unit, and comments. */
module JsonAccepts {
  import opened JsonValue
  import opened JsonMachine
  import opened JsonParse
  import opened JsonRun

  // ---------------------------------------------------------------- \u escapes

  predicate Continuation(c: char) { 0x80 <= c as int < 0xc0 }

  /** UTF-8 as section 3 of RFC 3629 reads it, up to three bytes: -1 for anything else, overlong forms and the
      surrogates U+D800 to U+DFFF included. */
  function Utf8Decode(s: string): int {
    if |s| == 1 && s[0] as int < 0x80 then s[0] as int
    else if |s| == 2 && 0xc2 <= s[0] as int < 0xe0 && Continuation(s[1]) then
      (s[0] as int - 0xc0) * 64 + (s[1] as int - 0x80)
    else if |s| == 3 && 0xe0 <= s[0] as int < 0xf0 && Continuation(s[1]) && Continuation(s[2]) then
      var u := (s[0] as int - 0xe0) * 4096 + (s[1] as int - 0x80) * 64 + (s[2] as int - 0x80);
      if u < 0x800 || Surrogate(u) then -1 else u
    else -1
  }

  predicate Surrogate(u: int) { 0xd800 <= u <= 0xdfff }

  /** The bytes written for a code unit are its UTF-8 encoding, in the shortest form, if and only if it is no
      surrogate; those are written as if they were characters. */
  lemma Utf8RoundTrip(u: nat)
    requires u < 0x10000
    ensures Utf8Decode(Utf8(u)) == u <==> !Surrogate(u)
    ensures Surrogate(u) ==> Utf8Decode(Utf8(u)) == -1
    ensures |Utf8(u)| == if u < 0x80 then 1 else if u < 0x800 then 2 else 3
    ensures u >= 0x800 ==>
              var s := Utf8(u);
              && Continuation(s[1]) && Continuation(s[2])
              && (s[0] as int - 0xe0) * 4096 + (s[1] as int - 0x80) * 64 + (s[2] as int - 0x80) == u
  {
    SixBits(u);
  }

  lemma SixBits(u: nat)
    requires u < 0x10000
    ensures u == u / 4096 * 4096 + u / 64 % 64 * 64 + u % 64 && u / 4096 < 16
    ensures u < 0x800 ==> u == u / 64 * 64 + u % 64 && u / 64 < 32
  {
    assert u / 64 == u / 64 / 64 * 64 + u / 64 % 64;
    assert u / 64 / 64 == u / 4096;
  }

  function HexValue(a: nat, b: nat, c: nat, d: nat): nat { a * 4096 + b * 256 + c * 16 + d }

  /** One more digit of an escape. */
  lemma HexFed(m: Machine, ucs: nat, d: nat)
    requires Settled(m) && m.top.state == EscapedUnicode && m.scr.stPos < 3 && m.scr.ucs == ucs < 0x10000 && d < 16
    ensures Run(m, [HexChar(d)]) ==
            Going(m.(scr := m.scr.(ucs := ucs + d * HexWeight(m.scr.stPos), stPos := m.scr.stPos + 1)))
  {
    hide Feed, Step, Run;
    HexRoundTrip(d);
    AddSmallHexDigit(ucs, HexChar(d), m.scr.stPos);
    RunHex(m, HexChar(d));
  }

  /** `\u` and four digits append the UTF-8 of the code unit they spell, whichever it is. */
  lemma UnicodeEscape(m: Machine, a: nat, b: nat, c: nat, d: nat)
    requires InText(m) && a < 16 && b < 16 && c < 16 && d < 16
    ensures var r := Run(m, Escape4(a, b, c, d));
            r.Going? && Grown(m, r.m, Utf8(HexValue(a, b, c, d)))
  {
    hide Feed, Step, Run, Utf8, AddHexDigit, HexChar;
    var m0 := RunUnicodeOpen(m);
    var s1 := "\\u" + [HexChar(a)];
    var s2 := s1 + [HexChar(b)];
    var s3 := s2 + [HexChar(c)];
    HexFed(m0, 0, a);
    RunAppend(m, "\\u", [HexChar(a)]);
    var m1 := m0.(scr := m0.scr.(ucs := a * 4096, stPos := 1));
    HexFed(m1, a * 4096, b);
    RunAppend(m, s1, [HexChar(b)]);
    var m2 := m0.(scr := m0.scr.(ucs := a * 4096 + b * 256, stPos := 2));
    HexFed(m2, a * 4096 + b * 256, c);
    RunAppend(m, s2, [HexChar(c)]);
    var m3 := m0.(scr := m0.scr.(ucs := a * 4096 + b * 256 + c * 16, stPos := 3));
    HexRoundTrip(d);
    AddSmallHexDigit(m3.scr.ucs, HexChar(d), 3);
    RunLastHex(m3, HexChar(d));
    RunAppend(m, s3, [HexChar(d)]);
  }

  function Escape4(a: nat, b: nat, c: nat, d: nat): string
    requires a < 16 && b < 16 && c < 16 && d < 16
  {
    "\\u" + [HexChar(a)] + [HexChar(b)] + [HexChar(c)] + [HexChar(d)]
  }

  /** A surrogate pair, which section 2.5 of RFC 4627 gives for one character beyond U+FFFF, becomes six bytes that
      are no UTF-8, where that character takes four. */
  lemma SurrogatePair(m: Machine, b: nat, c: nat, d: nat, f: nat, g: nat, h: nat)
    requires InText(m) && 8 <= b < 12 && c < 16 && d < 16 && 12 <= f < 16 && g < 16 && h < 16
    ensures var hi, lo := HexValue(13, b, c, d), HexValue(13, f, g, h);
            var r := Run(m, Escape4(13, b, c, d) + Escape4(13, f, g, h));
            && r.Going? && Grown(m, r.m, Utf8(hi) + Utf8(lo)) && |Utf8(hi) + Utf8(lo)| == 6
            && Utf8Decode(Utf8(hi)) == -1 && Utf8Decode(Utf8(lo)) == -1
  {
    hide Feed, Step, Run, Utf8, Utf8Decode, HexChar, Good;
    UnicodeEscape(m, 13, b, c, d);
    var m1 := Run(m, Escape4(13, b, c, d)).m;
    UnicodeEscape(m1, 13, f, g, h);
    RunAppend(m, Escape4(13, b, c, d), Escape4(13, f, g, h));
    Utf8RoundTrip(HexValue(13, b, c, d));
    Utf8RoundTrip(HexValue(13, f, g, h));
  }

  // ---------------------------------------------------------------- comments

  /** The text holds no end of comment. */
  predicate NoEnd(s: string) { forall i :: 0 < i < |s| ==> !(s[i - 1] == '*' && s[i] == '/') }

  function TrailingStars(s: string): nat {
    if s == [] || s[|s| - 1] != '*' then 0 else 1 + TrailingStars(s[..|s| - 1])
  }

  /** m with the top in another state; the token buffer may differ. */
  predicate InState(m: Machine, m1: Machine, state: State) {
    m1.below == m.below && m1.top == m.top.(state := state)
  }

  lemma CommentFed(m: Machine, c: char)
    requires Settled(m) && (m.top.state == Comment || (m.top.state == CommentEnd && c != '/'))
    ensures var r := Run(m, [c]);
            r.Going? && InState(m, r.m, if m.top.state == Comment && c == '*' then CommentEnd else Comment)
  {
    RunOne(m, c);
  }

  /** Inside a comment two stars in a row cancel: the machine waits for the slash only after an odd number. */
  lemma {:induction false} CommentBody(m: Machine, s: string)
    requires Settled(m) && m.top.state == Comment && NoEnd(s)
    ensures var r := Run(m, s);
            r.Going? && InState(m, r.m, if TrailingStars(s) % 2 == 1 then CommentEnd else Comment)
    decreases |s|
  {
    hide Feed, Step, Good, Switch, Kept;
    if s != [] {
      var k := |s| - 1;
      assert s == s[..k] + [s[k]];
      assert NoEnd(s[..k]);
      CommentBody(m, s[..k]);
      RunAppend(m, s[..k], [s[k]]);
      assert TrailingStars(s[..k]) > 0 ==> k > 0 && s[k - 1] == '*';
      CommentFed(Run(m, s[..k]).m, s[k]);
    }
  }

  lemma OpenComment(m: Machine)
    requires Settled(m) && m.top.state == Eatws
    ensures var r := Run(m, "/*"); r.Going? && InState(m, r.m, Comment)
  {
    hide Feed, Step, Run, Good;
    CommentBegins(m);
    var m1 := Run(m, ['/']).m;
    CommentOpens(m1);
    RunAppend(m, ['/'], ['*']);
    assert "/*" == ['/'] + ['*'];
  }

  lemma CommentBegins(m: Machine)
    requires Settled(m) && m.top.state == Eatws
    ensures var r := Run(m, ['/']); r.Going? && InState(m, r.m, CommentStart)
  {
    RunOne(m, '/');
  }

  lemma CommentOpens(m: Machine)
    requires Settled(m) && m.top.state == CommentStart
    ensures var r := Run(m, ['*']); r.Going? && InState(m, r.m, Comment)
  {
    RunOne(m, '*');
  }

  lemma SlashFed(m: Machine)
    requires Settled(m) && m.top.state == CommentEnd
    ensures var r := Run(m, ['/']); r.Going? && InState(m, r.m, Eatws)
  {
    RunOne(m, '/');
  }

  lemma CloseComment(m: Machine)
    requires Settled(m) && (m.top.state == Comment || m.top.state == CommentEnd)
    ensures var r := Run(m, "*/"); r.Going? && InState(m, r.m, if m.top.state == Comment then Eatws else Comment)
  {
    hide Feed, Step, Run, Good;
    CommentFed(m, '*');
    var m1 := Run(m, ['*']).m;
    if m1.top.state == Comment {
      CommentFed(m1, '/');
    } else {
      SlashFed(m1);
    }
    RunAppend(m, ['*'], ['/']);
    assert "*/" == ['*'] + ['/'];
  }

  /** A comment leaves the machine where it was if and only if its text ends in an even number of stars;
      otherwise its end is overlooked and the comment goes on. */
  lemma CommentSkippedIff(m: Machine, body: string)
    requires Settled(m) && m.top.state == Eatws && NoEnd(body)
    ensures var r := Run(m, "/*" + body + "*/");
            r.Going? && InState(m, r.m, if TrailingStars(body) % 2 == 0 then Eatws else Comment)
  {
    hide Feed, Step, Run, TrailingStars;
    OpenComment(m);
    var m1 := Run(m, "/*").m;
    CommentBody(m1, body);
    RunAppend(m, "/*", body);
    CloseComment(Run(m1, body).m);
    RunAppend(m, "/*" + body, "*/");
  }

  /** The shortest one whose end is overlooked. */
  lemma StarComment(m: Machine)
    requires Settled(m) && m.top.state == Eatws
    ensures Run(m, "/***/").Going? && Run(m, "/***/").m.top.state == Comment
  {
    hide Feed, Step, Run;
    assert TrailingStars("*") == 1 + TrailingStars("*"[..0]);
    CommentSkippedIff(m, "*");
    assert "/*" + "*" + "*/" == "/***/";
  }

  lemma LineFed(m: Machine, c: char)
    requires Settled(m) && m.top.state == CommentEol
    ensures var r := Run(m, [c]); r.Going? && InState(m, r.m, if c == '\n' then Eatws else CommentEol)
  {
    RunOne(m, c);
  }

  lemma {:induction false} LineBody(m: Machine, s: string)
    requires Settled(m) && m.top.state == CommentEol && forall i :: 0 <= i < |s| ==> s[i] != '\n'
    ensures var r := Run(m, s); r.Going? && InState(m, r.m, CommentEol)
    decreases |s|
  {
    hide Feed, Step, Good, Switch, Kept;
    if s != [] {
      LineFed(m, s[0]);
      var m1 := Run(m, [s[0]]).m;
      LineBody(m1, s[1..]);
      assert s == [s[0]] + s[1..];
      RunAppend(m, [s[0]], s[1..]);
    }
  }

  lemma LineOpens(m: Machine)
    requires Settled(m) && m.top.state == CommentStart
    ensures var r := Run(m, ['/']); r.Going? && InState(m, r.m, CommentEol)
  {
    RunOne(m, '/');
  }

  /** A comment to the end of the line leaves the machine where it was. */
  lemma LineSkipped(m: Machine, body: string)
    requires Settled(m) && m.top.state == Eatws && forall i :: 0 <= i < |body| ==> body[i] != '\n'
    ensures var r := Run(m, "//" + body + "\n"); r.Going? && InState(m, r.m, Eatws)
  {
    hide Feed, Step, Run, Good;
    CommentBegins(m);
    var m1 := Run(m, ['/']).m;
    LineOpens(m1);
    RunAppend(m, ['/'], ['/']);
    assert "//" == ['/'] + ['/'];
    var m2 := Run(m, "//").m;
    LineBody(m2, body);
    RunAppend(m, "//", body);
    LineFed(Run(m2, body).m, '\n');
    RunAppend(m, "//" + body, "\n");
  }

  // ---------------------------------------------------------------- texts that end in a comment

  /** In a comment after a finished value. */
  predicate InOpenComment(m: Machine) {
    m.top.saved == Finish && (m.top.state == Comment || m.top.state == CommentEol || m.top.state == CommentEnd)
  }

  /** One execution of the switch at the end of the text. */
  lemma SwitchAtNul(m: Machine, obj: Json)
    requires Good(m)
    ensures var o := Switch(m, obj, NUL);
            && (o.act == Consume ==> (AtNul(o.m) == Success <==> InOpenComment(m)))
            && (o.act == Redo ==> !InOpenComment(m) && !InOpenComment(o.m))
            && (InOpenComment(m) ==> o.act == Consume && o.m.below == m.below && o.m.top.current == m.top.current)
  {
    hide ScanInt, ScansAsDouble, CString, Kept, Utf8, AddHexDigit;
  }

  /** A success in the middle of a text is only reported with no level open. */
  lemma {:induction false} StopsAtTop(m: Machine, obj: Json, c: char)
    requires Good(m) && Feed(m, obj, c).act == Stop(Success)
    ensures Feed(m, obj, c).m.below == []
    decreases Rank(m.top)
  {
    hide ScanInt, ScansAsDouble, CString;
    var o := Switch(m, obj, c);
    if o.act.Redo? {
      StopsAtTop(o.m, o.obj, c);
    }
  }

  /** The NUL that ends a text: it is accepted as the end of a comment, or refused, or it finds the value finished. */
  lemma {:induction false} FeedAtNul(m: Machine, obj: Json)
    requires Good(m)
    ensures var o := Feed(m, obj, NUL);
            && (o.act == Consume ==> (AtNul(o.m) == Success <==> InOpenComment(m)))
            && (InOpenComment(m) ==> o.act == Consume && o.m.below == m.below && o.m.top.current == m.top.current)
    decreases Rank(m.top)
  {
    hide Switch;
    SwitchAtNul(m, obj);
    var o := Switch(m, obj, NUL);
    if o.act.Redo? {
      FeedAtNul(o.m, o.obj);
    }
  }

  /** From any state of the stack: the call succeeds with levels still open if and only if the text ends inside a
      comment that follows a finished value with levels open; the inner value is returned. */
  lemma {:induction false} OpenSuccessIff(m: Machine, obj: Json, s: string, i: nat)
    requires Settled(m) && NulFree(s) && i <= |s|
    ensures Readable(s + [NUL], i, -1)
    ensures var p, r := ParseFrom(m, obj, s + [NUL], i, -1), Run(m, s[i..]);
            && (p.err == Success && p.m.below != [] <==> r.Going? && InOpenComment(r.m) && r.m.below != [])
            && (r.Going? && InOpenComment(r.m) ==>
                  p.err == Success && p.m.below == r.m.below && p.Value() == r.m.top.current)
    decreases |s| - i
  {
    hide Feed, Good, InOpenComment;
    var str := s + [NUL];
    assert str[|s|] == NUL;
    var o := Feed(m, obj, str[i]);
    if o.act == Stop(Success) {
      StopsAtTop(m, obj, str[i]);
    }
    if i == |s| {
      assert s[i..] == [];
      FeedAtNul(m, obj);
    } else {
      assert s[i..][1..] == s[i + 1..];
      FeedIgnoresObj(m, obj, Null, s[i]);
      if !o.act.Stop? {
        OpenSuccessIff(o.m, o.obj, s, i + 1);
      }
    }
  }

  /** What a new tokener makes of a text, before its end. */
  function Read(text: string): Ran { Run(New, text) }

  /** json_tokener_parse: success means that no level was left open, except exactly for these texts. */
  lemma OpenTextIff(text: string)
    requires NulFree(text)
    ensures var p, r := ParseText(text), Read(text);
            && (p.err == Success && p.m.below != [] <==> r.Going? && InOpenComment(r.m) && r.m.below != [])
            && (r.Going? && InOpenComment(r.m) ==>
                  p.err == Success && p.m.below == r.m.below && p.Value() == r.m.top.current)
  {
    hide Feed, ParseFrom, Run;
    assert text[0..] == text;
    OpenSuccessIff(New, Null, text, 0);
  }
}
