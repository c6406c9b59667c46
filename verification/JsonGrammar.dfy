/** The texts that the tokener reads: a grammar with the meaning of each text, and the proof that the tokener gives
    every text of the grammar that meaning. It is the one of RFC 4627, with comments, single quotes, bare keys, commas
    before a closing bracket, octal numbers and words in any case besides, as `json_tokener.c` has them. */
module JsonGrammar {
  import opened Wrappers
  import opened OrderedMap
  import opened JsonValue
  import opened JsonMachine
  import opened JsonParse
  import opened JsonRun
  import opened JsonAccepts
  import Radix

  // ---------------------------------------------------------------- between tokens

  datatype Skip = Ws(c: char) | Block(body: string) | Line(body: string)

  /** Tab, line feed, vertical tab, form feed, carriage return and blank. */
  predicate White(c: char) { 9 <= c as int <= 13 || c as int == 32 }

  predicate GoodSkip(s: Skip) {
    match s
    case Ws(c) => White(c)
    case Block(body) => NulFree(body) && NoEnd(body) && TrailingStars(body) % 2 == 0
    case Line(body) => NulFree(body) && forall i :: 0 <= i < |body| ==> body[i] as int != 10
  }

  predicate GoodGap(g: seq<Skip>) { forall i :: 0 <= i < |g| ==> GoodSkip(g[i]) }

  function SkipText(s: Skip): string {
    match s
    case Ws(c) => [c]
    case Block(body) => "/*" + body + "*/"
    case Line(body) => "//" + body + "\n"
  }

  function GapText(g: seq<Skip>): string { if g == [] then "" else SkipText(g[0]) + GapText(g[1..]) }

  /** The first character of the gap and of what follows it. */
  function GapFirst(g: seq<Skip>, d: char): char { if g == [] then d else SkipText(g[0])[0] }

  lemma WhiteFed(m: Machine, c: char)
    requires Settled(m) && m.top.state == Eatws && White(c)
    ensures Run(m, [c]) == Going(m)
  {
    RunOne(m, c);
  }

  lemma ReadSkip(m: Machine, s: Skip) returns (scr: Scratch)
    requires Settled(m) && m.top.state == Eatws && GoodSkip(s)
    ensures Run(m, SkipText(s)) == Going(m.(scr := scr))
  {
    hide Feed, Step, Run, Good, NoEnd, TrailingStars;
    match s
    case Ws(c) =>
      WhiteFed(m, c);
      scr := m.scr;
    case Block(body) =>
      CommentSkippedIff(m, body);
      scr := Run(m, SkipText(s)).m.scr;
    case Line(body) =>
      LineSkipped(m, body);
      scr := Run(m, SkipText(s)).m.scr;
  }

  lemma {:induction false} ReadGap(m: Machine, g: seq<Skip>) returns (scr: Scratch)
    requires Settled(m) && m.top.state == Eatws && GoodGap(g)
    ensures Settled(m.(scr := scr)) && Run(m, GapText(g)) == Going(m.(scr := scr))
    decreases |g|
  {
    hide Feed, Step, SkipText, GoodSkip, Kept;
    if g == [] {
      scr := m.scr;
    } else {
      var scr1 := ReadSkip(m, g[0]);
      scr := ReadGap(m.(scr := scr1), g[1..]);
      RunAppend(m, SkipText(g[0]), GapText(g[1..]));
    }
  }

  lemma GapFirstIs(g: seq<Skip>, d: char)
    requires GoodGap(g) && !IsNumberChar(d)
    ensures !IsNumberChar(GapFirst(g, d)) && (g != [] ==> GapText(g) != [] && GapText(g)[0] == GapFirst(g, d))
  {
  }

  /** Behind a value, a gap changes nothing. */
  lemma GapAfter(m: Machine, below: seq<Level>, v: Json, scr: Scratch, g: seq<Skip>, d: char)
      returns (m2: Machine, scr2: Scratch)
    requires GoodGap(g) && !IsNumberChar(d) && Ready(m, below, v, scr, GapFirst(g, d))
    ensures Run(m, GapText(g)) == Going(m2) && Ready(m2, below, v, scr2, d)
  {
    hide Feed, Step, Kept, GapText, SkipText, GoodSkip, Good, IsNumberChar;
    if g == [] {
      EmptyGap();
      m2, scr2 := m, scr;
    } else {
      GapFirstIs(g, d);
      var done := Machine(below, Done(v), scr);
      assert Run(m, GapText(g)) == Run(done, GapText(g));
      scr2 := ReadGap(done, g);
      m2 := done.(scr := scr2);
    }
  }

  lemma EmptyGap()
    ensures GapText([]) == ""
  {
  }

  // ---------------------------------------------------------------- strings

  /** A byte as it is, a backslash and a letter, or a backslash, u and four digits. */
  datatype Piece = Raw(c: char) | Short(e: char) | Code(h0: nat, h1: nat, h2: nat, h3: nat)

  datatype Lit = Lit(quote: char, pieces: seq<Piece>)

  predicate GoodPiece(p: Piece, quote: char) {
    match p
    case Raw(c) => c != quote && c as int != 92 && c as int != 0
    case Short(e) => e == '"' || e == '\\' || e == '/' || e == 'b' || e == 'n' || e == 'r' || e == 't'
    case Code(a, b, c, d) => a < 16 && b < 16 && c < 16 && d < 16
  }

  predicate GoodLit(l: Lit) {
    (l.quote == '"' || l.quote == '\'') && forall i :: 0 <= i < |l.pieces| ==> GoodPiece(l.pieces[i], l.quote)
  }

  function PieceText(p: Piece): string
    requires p.Code? ==> p.h0 < 16 && p.h1 < 16 && p.h2 < 16 && p.h3 < 16
  {
    match p
    case Raw(c) => [c]
    case Short(e) => ['\\', e]
    case Code(a, b, c, d) => Escape4(a, b, c, d)
  }

  /** What it stands for: \b, \n, \r and \t the bytes 8, 10, 13 and 9. */
  function PieceBytes(p: Piece): string {
    match p
    case Raw(c) => [c]
    case Short(e) =>
      if e == 'b' then [8 as char] else if e == 'n' then [10 as char]
      else if e == 'r' then [13 as char] else if e == 't' then [9 as char] else [e]
    case Code(a, b, c, d) => Utf8(4096 * a + 256 * b + 16 * c + d)
  }

  predicate GoodPieces(ps: seq<Piece>, quote: char) { forall i :: 0 <= i < |ps| ==> GoodPiece(ps[i], quote) }

  function PiecesText(ps: seq<Piece>, quote: char): string
    requires GoodPieces(ps, quote)
  {
    if ps == [] then "" else PieceText(ps[0]) + PiecesText(ps[1..], quote)
  }

  function PiecesBytes(ps: seq<Piece>): string { if ps == [] then "" else PieceBytes(ps[0]) + PiecesBytes(ps[1..]) }

  function LitText(l: Lit): string
    requires GoodLit(l)
  {
    [l.quote] + PiecesText(l.pieces, l.quote) + [l.quote]
  }

  /** The bytes of a string, up to the first NUL that it spells. */
  function LitString(l: Lit): string { CString(PiecesBytes(l.pieces)) }

  lemma ReadPiece(m: Machine, p: Piece)
    requires InText(m) && GoodPiece(p, m.scr.quote)
    ensures var r := Run(m, PieceText(p)); r.Going? && Grown(m, r.m, PieceBytes(p))
  {
    hide Feed, Step, Run, Good, Utf8, HexChar;
    match p
    case Raw(c) => RunPlain(m, c);
    case Short(e) => RunShortEscape(m, e, PieceBytes(p)[0]);
    case Code(a, b, c, d) => UnicodeEscape(m, a, b, c, d);
  }

  lemma {:induction false} ReadPieces(m: Machine, ps: seq<Piece>)
    requires InText(m) && GoodPieces(ps, m.scr.quote)
    ensures var r := Run(m, PiecesText(ps, m.scr.quote)); r.Going? && Grown(m, r.m, PiecesBytes(ps))
    decreases |ps|
  {
    hide Feed, Step, Good, Kept, Switch, PieceText, PieceBytes;
    if ps != [] {
      ReadPiece(m, ps[0]);
      var m1 := Run(m, PieceText(ps[0])).m;
      ReadPieces(m1, ps[1..]);
      RunAppend(m, PieceText(ps[0]), PiecesText(ps[1..], m.scr.quote));
    }
  }

  lemma ReadLit(below: seq<Level>, scr: Scratch, l: Lit) returns (scr2: Scratch)
    requires Base(below) && GoodLit(l)
    ensures Run(Machine(below, Fresh, scr), LitText(l)) == Going(Machine(below, Done(Str(LitString(l))), scr2))
  {
    hide Feed, Step, Run, Kept, GoodPiece, CString;
    var m := Machine(below, Fresh, scr);
    RunOpenQuote(below, scr, l.quote);
    var m1 := At(below, Text, scr.(pb := "", quote := l.quote));
    ReadPieces(m1, l.pieces);
    var m2 := Run(m1, PiecesText(l.pieces, l.quote)).m;
    assert m2.scr.pb == PiecesBytes(l.pieces);
    scr2 := m2.scr;
    RunCloseQuote(m2);
    RunAppend(m1, PiecesText(l.pieces, l.quote), [l.quote]);
    RunAppend(m, [l.quote], PiecesText(l.pieces, l.quote) + [l.quote]);
    assert LitText(l) == [l.quote] + (PiecesText(l.pieces, l.quote) + [l.quote]);
  }

  lemma ReadQuotedKey(below: seq<Level>, fs: seq<(string, Json)>, scr: Scratch, l: Lit) returns (scr2: Scratch)
    requires Base(below) && GoodLit(l)
    ensures Run(InObject(below, fs, scr), LitText(l)) ==
            Going(Machine(below, Level(Eatws, FieldEnd, Obj(fs), Some(LitString(l))), scr2))
  {
    hide Feed, Step, Run, Kept, GoodPiece, CString;
    var m := InObject(below, fs, scr);
    RunOpenKey(below, fs, scr, l.quote);
    var m1 := InKey(below, fs, scr, l.quote, "");
    ReadPieces(m1, l.pieces);
    var m2 := Run(m1, PiecesText(l.pieces, l.quote)).m;
    assert m2.scr.pb == PiecesBytes(l.pieces);
    scr2 := m2.scr;
    RunCloseQuote(m2);
    RunAppend(m1, PiecesText(l.pieces, l.quote), [l.quote]);
    RunAppend(m, [l.quote], PiecesText(l.pieces, l.quote) + [l.quote]);
    assert LitText(l) == [l.quote] + (PiecesText(l.pieces, l.quote) + [l.quote]);
  }

  // ---------------------------------------------------------------- numbers

  datatype Exp = Exp(letter: char, sign: string, digits: string)

  /** An integer in base 10, or in base 8 after a 0; or a number with a fraction or an exponent. */
  datatype Num =
    | Whole(neg: bool, digits: string)
    | Octal(neg: bool, digits: string)
    | Real(neg: bool, digits: string, frac: Option<string>, exp: Option<Exp>)

  predicate Digits(s: string, base: int) { s != [] && forall i :: 0 <= i < |s| ==> 48 <= s[i] as int < 48 + base }

  predicate GoodNum(n: Num) {
    match n
    case Whole(_, digits) => Digits(digits, 10) && (|digits| > 1 ==> digits[0] != '0')
    case Octal(_, digits) => Digits(digits, 8)
    case Real(_, digits, frac, exp) =>
      && Digits(digits, 10) && (frac.Some? || exp.Some?) && (frac.Some? ==> Digits(frac.value, 10))
      && (exp.Some? ==> (exp.value.letter == 'e' || exp.value.letter == 'E') && Digits(exp.value.digits, 10)
                        && (exp.value.sign == "" || exp.value.sign == "+" || exp.value.sign == "-"))
  }

  function Tail(frac: Option<string>, exp: Option<Exp>): string {
    (if frac.Some? then "." + frac.value else "") + ExpText(exp)
  }

  function ExpText(exp: Option<Exp>): string {
    if exp.Some? then [exp.value.letter] + exp.value.sign + exp.value.digits else ""
  }

  function Unsigned(n: Num): string {
    match n
    case Whole(_, digits) => digits
    case Octal(_, digits) => "0" + digits
    case Real(_, digits, frac, exp) => digits + Tail(frac, exp)
  }

  function NumText(n: Num): string { Signed(n.neg, Unsigned(n)) }

  function Signed(neg: bool, u: string): string { (if neg then "-" else "") + u }

  /** An integer is clamped to 64 bits; a double keeps its text. */
  function NumValue(n: Num): Json {
    match n
    case Whole(neg, digits) => Int(Clamp(neg, Radix.Positional(digits, 10)))
    case Octal(neg, digits) => Int(Clamp(neg, Radix.Positional(digits, 8)))
    case Real(_, _, _, _) => Double(NumText(n))
  }

  function Clamp(neg: bool, n: int): int {
    if neg then (if n > 0x8000_0000_0000_0000 then -0x8000_0000_0000_0000 else -n)
    else if n > 0x7fff_ffff_ffff_ffff then 0x7fff_ffff_ffff_ffff else n
  }

  lemma {:induction false} DigitRunIs(s: string, base: int)
    requires (base == 8 || base == 10) && forall i :: 0 <= i < |s| ==> 48 <= s[i] as int < 48 + base
    ensures DigitRun(s, base, 0) == Radix.Positional(s, base) >= 0
    decreases |s|
  {
    hide DigitRun, Radix.Positional;
    if s == [] {
      NoRun(base);
    } else {
      var k := |s| - 1;
      DigitRunIs(s[..k], base);
      DigitRunAppend(s[..k], s[k], base, 0);
      assert s == s[..k] + [s[k]];
      assert s[..k + 1] == s;
      Radix.PositionalNext(s, base, k);
    }
  }

  lemma NoRun(base: int)
    ensures DigitRun([], base, 0) == Radix.Positional([], base) == 0
  {
  }

  lemma WholeUnsigned(n: Num)
    requires GoodNum(n) && !n.Real?
    ensures ScanUnsigned(Unsigned(n)) == Some(Radix.Positional(n.digits, if n.Octal? then 8 else 10))
    ensures Radix.Positional(n.digits, if n.Octal? then 8 else 10) >= 0
  {
    hide DigitRun, Radix.Positional;
    if n.Octal? {
      assert Unsigned(n)[1..] == n.digits;
      DigitRunIs(n.digits, 8);
    } else {
      DigitRunIs(n.digits, 10);
      if n.digits[0] == '0' {
        assert n.digits[1..] == [] && n.digits[..0] == [] && n.digits[..1] == n.digits;
        NoRun(8);
        NoRun(10);
        Radix.PositionalNext(n.digits, 10, 0);
      }
    }
  }

  /** A minus sign in front of a digit. */
  lemma SignScans(neg: bool, u: string)
    requires u != [] && IsDigit(u[0])
    ensures var s := Signed(neg, u);
            var v := ScanUnsigned(u);
            && ScanInt(s) == (if v.None? then None else Some(Saturate(if neg then -v.value else v.value)))
            && ScansAsDouble(s) == ScansAsDouble(u)
  {
    hide ScanUnsigned, SkipDigits;
    var s := Signed(neg, u);
    assert neg ==> s[1..] == u;
    assert !neg ==> s == u;
  }

  lemma WholeScans(n: Num)
    requires GoodNum(n) && !n.Real?
    ensures ScanInt(NumText(n)).Some? && NumValue(n) == Int(ScanInt(NumText(n)).value)
  {
    hide ScanUnsigned, ScanInt, ScansAsDouble, Radix.Positional;
    WholeUnsigned(n);
    SignScans(n.neg, Unsigned(n));
  }

  lemma {:induction false} SkipDigitsOver(s: string, rest: string)
    requires (forall i :: 0 <= i < |s| ==> IsDigit(s[i])) && (rest == [] || !IsDigit(rest[0]))
    ensures SkipDigits(s + rest) == rest
    decreases |s|
  {
    if s == [] {
      assert s + rest == rest;
    } else {
      assert (s + rest)[1..] == s[1..] + rest;
      SkipDigitsOver(s[1..], rest);
    }
  }

  /** Digits, a point and digits: what is left to scan is the exponent. */
  lemma MantissaScans(n: Num)
    requires GoodNum(n) && n.Real?
    ensures var s2 := SkipDigits(Unsigned(n));
            && s2 == Tail(n.frac, n.exp) && |s2| < |Unsigned(n)|
            && (s2 != [] && s2[0] == '.' <==> n.frac.Some?)
            && (n.frac.Some? ==> SkipDigits(s2[1..]) == ExpText(n.exp))
            && (n.frac.None? ==> s2 == ExpText(n.exp))
  {
    hide SkipDigits;
    var e := ExpText(n.exp);
    SkipDigitsOver(n.digits, Tail(n.frac, n.exp));
    if n.frac.Some? {
      assert Tail(n.frac, n.exp)[1..] == n.frac.value + e;
      SkipDigitsOver(n.frac.value, e);
    } else {
      assert Tail(n.frac, n.exp) == e;
    }
  }

  lemma ExponentScans(exp: Option<Exp>)
    requires exp.Some? && GoodNum(Real(false, "0", None, exp))
    ensures var e := ExpText(exp);
            && |e| > 1 && (e[0] == 'e' || e[0] == 'E')
            && var s4 := if e[1] == '-' || e[1] == '+' then e[2..] else e[1..]; s4 != [] && IsDigit(s4[0])
  {
    var e, x := ExpText(exp), exp.value;
    if x.sign == "" {
      assert e[1..] == x.digits;
    } else {
      assert e[1] == x.sign[0] && e[2..] == x.digits;
    }
  }

  lemma RealScans(n: Num)
    requires GoodNum(n) && n.Real?
    ensures ScansAsDouble(NumText(n))
  {
    hide SkipDigits, Tail, ExpText;
    MantissaScans(n);
    if n.exp.Some? {
      ExponentScans(n.exp);
    } else {
      NoExponent();
    }
    assert ScansAsDouble(Unsigned(n));
    SignScans(n.neg, Unsigned(n));
  }

  lemma NoExponent()
    ensures ExpText(None) == ""
  {
  }

  lemma DigitChars(s: string, base: int)
    requires Digits(s, base) && base <= 10
    ensures NumberText(s) && !HasPoint(s)
  {
  }

  lemma JoinedChars(a: string, b: string)
    requires NumberText(a) && NumberText(b)
    ensures NumberText(a + b) && (HasPoint(a + b) <==> HasPoint(a) || HasPoint(b))
  {
    var s := a + b;
    if HasPoint(a) {
      var i :| 0 <= i < |a| && (a[i] == '.' || a[i] == 'e' || a[i] == 'E');
      assert s[i] == a[i];
    }
    if HasPoint(b) {
      var i :| 0 <= i < |b| && (b[i] == '.' || b[i] == 'e' || b[i] == 'E');
      assert s[|a| + i] == b[i];
    }
  }

  lemma MarkChars(s: string)
    requires s == "" || s == "-" || s == "+" || s == "0" || s == "." || s == "e" || s == "E"
    ensures NumberText(s) && (HasPoint(s) <==> s == "." || s == "e" || s == "E")
  {
    if s == "." || s == "e" || s == "E" {
      assert s[0] == '.' || s[0] == 'e' || s[0] == 'E';
    }
  }

  lemma TailChars(frac: Option<string>, exp: Option<Exp>)
    requires GoodNum(Real(false, "0", frac, exp))
    ensures NumberText(Tail(frac, exp)) && HasPoint(Tail(frac, exp))
  {
    hide NumberText, HasPoint;
    var f := if frac.Some? then "." + frac.value else "";
    MarkChars("");
    MarkChars(".");
    if frac.Some? {
      DigitChars(frac.value, 10);
      JoinedChars(".", frac.value);
    }
    if exp.Some? {
      var x := exp.value;
      MarkChars([x.letter]);
      MarkChars(x.sign);
      DigitChars(x.digits, 10);
      JoinedChars([x.letter], x.sign);
      JoinedChars([x.letter] + x.sign, x.digits);
    }
    JoinedChars(f, ExpText(exp));
  }

  lemma NumChars(n: Num)
    requires GoodNum(n)
    ensures var s := NumText(n);
            s != [] && ('0' <= s[0] <= '9' || s[0] == '-') && NumberText(s) && (HasPoint(s) <==> n.Real?)
  {
    hide NumberText, HasPoint, Tail;
    DigitChars(n.digits, if n.Octal? then 8 else 10);
    MarkChars("0");
    match n {
      case Whole(_, _) =>
      case Octal(_, digits) => JoinedChars("0", digits);
      case Real(_, digits, frac, exp) =>
        TailChars(frac, exp);
        JoinedChars(digits, Tail(frac, exp));
    }
    MarkChars("");
    MarkChars("-");
    JoinedChars(if n.neg then "-" else "", Unsigned(n));
  }

  lemma ReadNum(below: seq<Level>, scr: Scratch, n: Num, d: char) returns (m: Machine, scr2: Scratch)
    requires Base(below) && GoodNum(n) && !IsNumberChar(d)
    ensures Run(Machine(below, Fresh, scr), NumText(n)) == Going(m) && Ready(m, below, NumValue(n), scr2, d)
  {
    hide Feed, Step, Run, Kept, ScanInt, ScansAsDouble, NumberText, HasPoint, GoodNum;
    NumChars(n);
    if n.Real? {
      RealScans(n);
    } else {
      WholeScans(n);
    }
    m, scr2 := ReadNumber(below, scr, NumText(n), NumValue(n), d);
  }
}
