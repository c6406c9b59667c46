/** Printing a value and parsing the text back gives the same value, exactly when the value nests at
    most 32 levels; and the printed text is one of RFC 4627. */
module JsonRoundTrip {
  import opened Wrappers
  import opened OrderedMap
  import opened JsonValue
  import opened JsonMachine
  import opened JsonParse
  import opened JsonRun
  import opened JsonAccepts
  import opened JsonGrammar
  import opened JsonDocs
  import Radix

  // ---------------------------------------------------------------- strings

  /** How a byte is written: the quote, the backslash and the slash behind a backslash, the bytes 8, 10, 13 and 9 as
      letters, other control bytes by their code, and the rest as they are. */
  function PieceFor(c: char): Piece {
    var k := c as int;
    if k == 34 || k == 92 || k == 47 then Short(c)
    else if k == 8 then Short('b') else if k == 10 then Short('n')
    else if k == 13 then Short('r') else if k == 9 then Short('t')
    else if k < 32 then Code(0, 0, k / 16, k % 16)
    else Raw(c)
  }

  function PiecesFor(s: string): seq<Piece> { if s == [] then [] else [PieceFor(s[0])] + PiecesFor(s[1..]) }

  lemma PieceForIs(c: char)
    ensures GoodPiece(PieceFor(c), '"') && PieceText(PieceFor(c)) == EscapeChar(c) && PieceBytes(PieceFor(c)) == [c]
    ensures RfcPiece(PieceFor(c))
  {
    hide HexChar;
    var k := c as int;
    if PieceFor(c).Code? {
      assert HexChar(0) == '0' by { HexZero(); }
      assert 16 * (k / 16) + k % 16 == k;
    }
  }

  lemma HexZero()
    ensures HexChar(0) == '0'
  {
  }

  lemma {:induction false} PiecesForIs(s: string)
    ensures GoodPieces(PiecesFor(s), '"') && forall i :: 0 <= i < |PiecesFor(s)| ==> RfcPiece(PiecesFor(s)[i])
    ensures PiecesText(PiecesFor(s), '"') == Escape(s) && PiecesBytes(PiecesFor(s)) == s
  {
    hide PieceFor, PieceText, PieceBytes, EscapeChar, GoodPiece, RfcPiece;
    if s != [] {
      PieceForIs(s[0]);
      PiecesForIs(s[1..]);
      assert PiecesFor(s)[1..] == PiecesFor(s[1..]);
      assert s == [s[0]] + s[1..];
    }
  }

  // ---------------------------------------------------------------- section 2.5 of RFC 4627

  /** The value of a hexadecimal digit, or -1. */
  function HexOf(c: char): int {
    var k := c as int;
    if 48 <= k <= 57 then k - 48 else if 65 <= k <= 70 then k - 55 else if 97 <= k <= 102 then k - 87 else -1
  }

  /** What a letter behind a backslash stands for, or -1. */
  function EscapeOf(c: char): int {
    var k := c as int;
    if k == 34 || k == 92 || k == 47 then k
    else if c == 'b' then 8 else if c == 'f' then 12 else if c == 'n' then 10
    else if c == 'r' then 13 else if c == 't' then 9 else -1
  }

  /** What the characters between two quotes stand for, or none if they are no string of section 2.5. */
  function Unquote(s: string): Option<string>
    decreases |s|
  {
    if s == [] then Some([])
    else if s[0] as int != 92 then
      if s[0] as int < 32 || s[0] as int == 34 then None else Before([s[0]], Unquote(s[1..]))
    else if |s| == 1 then None
    else if s[1] == 'u' then
      if |s| < 6 || HexOf(s[2]) < 0 || HexOf(s[3]) < 0 || HexOf(s[4]) < 0 || HexOf(s[5]) < 0 then None
      else
        Before(Utf8(4096 * HexOf(s[2]) + 256 * HexOf(s[3]) + 16 * HexOf(s[4]) + HexOf(s[5])), Unquote(s[6..]))
    else if EscapeOf(s[1]) < 0 then None
    else Before([EscapeOf(s[1]) as char], Unquote(s[2..]))
  }

  function Before(a: string, r: Option<string>): Option<string> { if r.Some? then Some(a + r.value) else None }

  lemma HexOfChar(d: nat)
    requires d < 16
    ensures HexOf(HexChar(d)) == d
  {
    assert HexChar(d) == if d < 10 then ('0' as int + d) as char else ('a' as int + d - 10) as char;
  }

  lemma UnquoteChar(c: char, rest: string)
    ensures Unquote(EscapeChar(c) + rest) == Before([c], Unquote(rest))
  {
    hide HexChar, HexOf;
    var e, k := EscapeChar(c), c as int;
    var s := e + rest;
    if |e| == 1 {
      assert s[1..] == rest;
    } else if |e| == 2 {
      assert s[2..] == rest;
      assert EscapeOf(e[1]) == k;
    } else {
      HexZero();
      HexOfChar(0);
      HexOfChar(k / 16);
      HexOfChar(k % 16);
      assert s[6..] == rest;
      assert 16 * (k / 16) + k % 16 == k;
    }
  }

  /** Whatever the bytes, the text between the quotes is a string of section 2.5, and stands for those bytes. */
  lemma {:induction false} UnquoteEscape(s: string)
    ensures Unquote(Escape(s)) == Some(s)
  {
    hide Unquote, EscapeChar;
    if s == [] {
      UnquoteNone();
    } else {
      UnquoteEscape(s[1..]);
      UnquoteChar(s[0], Escape(s[1..]));
      assert s == [s[0]] + s[1..];
    }
  }

  lemma UnquoteNone()
    ensures Unquote([]) == Some([])
  {
  }

  // ---------------------------------------------------------------- texts of RFC 4627

  predicate RfcGap(g: seq<Skip>) {
    forall i :: 0 <= i < |g| ==>
      g[i].Ws? && (g[i].c as int == 32 || g[i].c as int == 9 || g[i].c as int == 10 || g[i].c as int == 13)
  }

  predicate RfcPiece(p: Piece) { p.Raw? ==> p.c as int >= 32 && p.c as int != 34 && p.c as int != 92 }

  predicate RfcLit(l: Lit) { l.quote == '"' && forall i :: 0 <= i < |l.pieces| ==> RfcPiece(l.pieces[i]) }

  predicate RfcNum(n: Num) { !n.Octal? && (|n.digits| > 1 ==> n.digits[0] != '0') }

  /** The texts of the grammar that RFC 4627 has as well. */
  predicate RfcDoc(doc: Doc)
    decreases doc, 0
  {
    match doc
    case NullDoc(w) => w == "null"
    case BoolDoc(b, w) => w == if b then "true" else "false"
    case NumDoc(n) => RfcNum(n)
    case StrDoc(l) => RfcLit(l)
    case ArrDoc(items, comma, end) => RfcItems(items) && !comma && RfcGap(end)
    case ObjDoc(members, comma, end) => RfcMembers(members) && !comma && RfcGap(end)
  }

  predicate RfcItems(items: seq<Item>)
    decreases items, 1
  {
    items == [] || (RfcItems(items[..|items| - 1]) && RfcItem(items[|items| - 1]))
  }

  predicate RfcItem(it: Item)
    decreases it, 0
  {
    RfcGap(it.before) && RfcDoc(it.doc) && RfcGap(it.after)
  }

  predicate RfcMembers(ms: seq<Member>)
    decreases ms, 1
  {
    ms == [] || (RfcMembers(ms[..|ms| - 1]) && RfcMember(ms[|ms| - 1]))
  }

  predicate RfcMember(m: Member)
    decreases m, 0
  {
    && RfcGap(m.before) && m.key.Quoted? && RfcLit(m.key.lit) && RfcGap(m.key.gap)
    && RfcGap(m.gap) && RfcDoc(m.doc) && RfcGap(m.after)
  }

  // ---------------------------------------------------------------- the printed text

  const Blank: seq<Skip> := [Ws(' ')]

  lemma BlankIs()
    ensures GapText(Blank) == " " && GapText([]) == "" && GoodGap(Blank) && GoodGap([]) && RfcGap(Blank) && RfcGap([])
  {
    assert Blank[1..] == [];
    assert GapText(Blank) == SkipText(Blank[0]) + GapText([]);
  }

  /** How a value is printed. */
  function Canon(v: Json): Doc
    decreases v, 0
  {
    match v
    case Null => NullDoc("null")
    case Bool(b) => BoolDoc(b, if b then "true" else "false")
    case Int(n) => NumDoc(Whole(n < 0, Decimal(if n < 0 then -n else n)))
    case Double(t) => NumDoc(Whole(false, t))
    case Str(s) => StrDoc(Lit('"', PiecesFor(s)))
    case Arr(es) => ArrDoc(CanonItems(es), false, Blank)
    case Obj(fs) => ObjDoc(CanonMembers(fs), false, Blank)
  }

  function CanonItems(es: seq<Json>): seq<Item>
    decreases es, 1
  {
    if es == [] then [] else CanonItems(es[..|es| - 1]) + [Item(Blank, Canon(es[|es| - 1]), [])]
  }

  function CanonMembers(fs: seq<(string, Json)>): seq<Member>
    decreases fs, 1
  {
    if fs == [] then [] else CanonMembers(fs[..|fs| - 1]) + [CanonMember(fs[|fs| - 1])]
  }

  function CanonMember(f: (string, Json)): Member
    decreases f, 0
  {
    Member(Blank, Quoted(Lit('"', PiecesFor(f.0)), []), Blank, Canon(f.1), [])
  }

  /** What `Canon` is to be: a text of RFC 4627 that is the printed one, and means the value. */
  ghost predicate Printed(doc: Doc, text: string, v: Json, levels: nat) {
    GoodDoc(doc) && RfcDoc(doc) && DocText(doc) == text && Meaning(doc) == v && Depth(doc) == levels
  }

  lemma CanonNum(n: int)
    requires INT64_MIN <= n <= INT64_MAX
    ensures var num := Whole(n < 0, Decimal(if n < 0 then -n else n));
            GoodNum(num) && RfcNum(num) && NumText(num) == PrintInt(n) && NumValue(num) == Int(n)
  {
    hide Decimal, Radix.Positional, DigitRun;
    var m: nat := if n < 0 then -n else n;
    var d := Decimal(m);
    DecimalIs(m);
    assert "" + d == d;
  }

  lemma DecimalIs(m: nat)
    ensures var d := Decimal(m); Digits(d, 10) && (|d| > 1 ==> d[0] != '0') && Radix.Positional(d, 10) == m
  {
    hide DigitRun, Radix.Positional;
    DecimalValue(m);
    DigitRunIs(Decimal(m), 10);
  }

  lemma CanonLit(s: string)
    requires NulFree(s)
    ensures var l := Lit('"', PiecesFor(s)); GoodLit(l) && RfcLit(l) && LitText(l) == Quote(s) && LitString(l) == s
  {
    hide GoodPiece, RfcPiece, PiecesFor, PiecesText, PiecesBytes, Escape;
    PiecesForIs(s);
  }

  /** The printed text of every value is a text of RFC 4627 that means that value. */
  lemma {:induction false} PrintIsRfc(v: Json)
    requires Exact(v)
    ensures Printed(Canon(v), Print(v), v, Levels(v))
    decreases v, 0
  {
    hide Printed, CanonItems, CanonMembers, Exact, PrintElems, PrintFields, LevelsElems, LevelsFields, Decimal,
         PrintInt, Quote, PiecesFor;
    ExactIs(v);
    match v
    case Null => WordPrinted(false);
    case Bool(b) => WordPrinted(b);
    case Int(n) => NumPrinted(n);
    case Str(s) => StrPrinted(s);
    case Arr(es) =>
      ItemsPrinted(es);
      ArrPrinted(es);
    case Obj(fs) =>
      MembersPrinted(fs);
      ObjPrinted(fs);
  }

  lemma WordPrinted(b: bool)
    ensures Printed(NullDoc("null"), "null", Null, 1)
    ensures var w := if b then "true" else "false"; Printed(BoolDoc(b, w), w, Bool(b), 1)
  {
  }

  lemma NumPrinted(n: int)
    requires INT64_MIN <= n <= INT64_MAX
    ensures Printed(NumDoc(Whole(n < 0, Decimal(if n < 0 then -n else n))), PrintInt(n), Int(n), 1)
  {
    hide Decimal, GoodNum, RfcNum, NumText, NumValue, PrintInt;
    CanonNum(n);
  }

  lemma StrPrinted(s: string)
    requires NulFree(s)
    ensures Printed(StrDoc(Lit('"', PiecesFor(s))), Quote(s), Str(s), 1)
  {
    hide GoodLit, RfcLit, LitText, LitString, PiecesFor, Quote;
    CanonLit(s);
  }

  /** The items, in order, are the elements as they are printed. */
  ghost predicate ItemsFit(items: seq<Item>, es: seq<Json>) {
    && GoodItems(items) && RfcItems(items) && ItemsText(items) == PrintElems(es) && Meanings(items) == es
    && ItemsDepth(items) == LevelsElems(es) && |items| == |es|
  }

  lemma ArrPrinted(es: seq<Json>)
    requires ItemsFit(CanonItems(es), es)
    ensures Printed(ArrDoc(CanonItems(es), false, Blank), "[" + PrintElems(es) + " ]", Arr(es), 1 + LevelsElems(es))
  {
    hide CanonItems, GoodItems, RfcItems, ItemsText, Meanings, ItemsDepth, GapText, GoodGap, RfcGap, PrintElems,
         LevelsElems;
    BlankIs();
    var a := PrintElems(es);
    assert "[" + a + "" + " " + "]" == "[" + a + " ]";
  }

  ghost predicate MembersFit(ms: seq<Member>, fs: seq<(string, Json)>) {
    && GoodMembers(ms) && RfcMembers(ms) && MembersText(ms) == PrintFields(fs) && Fields(ms) == fs
    && MembersDepth(ms) == LevelsFields(fs) && |ms| == |fs|
  }

  lemma ObjPrinted(fs: seq<(string, Json)>)
    requires MembersFit(CanonMembers(fs), fs)
    ensures Printed(ObjDoc(CanonMembers(fs), false, Blank), "{" + PrintFields(fs) + " }", Obj(fs), 1 + LevelsFields(fs))
  {
    hide CanonMembers, GoodMembers, RfcMembers, MembersText, Fields, MembersDepth, GapText, GoodGap, RfcGap,
         PrintFields, LevelsFields;
    BlankIs();
    var a := PrintFields(fs);
    assert "{" + a + "" + " " + "}" == "{" + a + " }";
  }

  lemma ExactIs(v: Json)
    requires Exact(v)
    ensures !v.Double?
    ensures v.Int? ==> INT64_MIN <= v.n <= INT64_MAX
    ensures v.Str? ==> NulFree(v.s)
    ensures v.Arr? ==> ExactElems(v.elems)
    ensures v.Obj? ==> ExactFields(v.fields) && Unique(v.fields)
  {
  }

  lemma {:induction false} ItemsPrinted(es: seq<Json>)
    requires ExactElems(es)
    ensures ItemsFit(CanonItems(es), es)
    decreases es, 2
  {
    hide ItemText, GoodItem, RfcItem, ItemMeaning, ItemDepth, Canon, Print, Exact, Levels;
    if es != [] {
      var k := |es| - 1;
      ItemsPrinted(es[..k]);
      ItemPrinted(es[k]);
      var items := CanonItems(es);
      assert items[..k] == CanonItems(es[..k]) && items[k] == Item(Blank, Canon(es[k]), []);
      assert es == es[..k] + [es[k]];
      assert ItemsText(items) == PrintElems(es[..k]) + Comma(k > 0) + (" " + Print(es[k]));
    }
  }

  lemma {:induction false} ItemPrinted(v: Json)
    requires Exact(v)
    ensures var it := Item(Blank, Canon(v), []);
            && GoodItem(it) && RfcItem(it) && ItemText(it) == " " + Print(v) && ItemMeaning(it) == v
            && ItemDepth(it) == Levels(v)
    decreases v, 1
  {
    hide DocText, GapText, GoodDoc, GoodGap, RfcDoc, RfcGap, Meaning, Depth, Canon, Print, Exact, Levels;
    BlankIs();
    PrintIsRfc(v);
    assert " " + Print(v) + "" == " " + Print(v);
  }

  lemma {:induction false} MembersPrinted(fs: seq<(string, Json)>)
    requires ExactFields(fs) && Unique(fs)
    ensures MembersFit(CanonMembers(fs), fs)
    decreases fs, 1
  {
    hide MemberText, GoodMember, RfcMember, MemberMeaning, MemberDepth, CanonMember, PrintField, ExactField,
         LevelsField, KeyName, Put;
    if fs != [] {
      var k := |fs| - 1;
      MembersPrinted(fs[..k]);
      MemberPrinted(fs[k]);
      var ms := CanonMembers(fs);
      assert ms[..k] == CanonMembers(fs[..k]) && ms[k] == CanonMember(fs[k]);
      assert MembersText(ms) == PrintFields(fs[..k]) + Comma(k > 0) + PrintField(fs[k]) == PrintFields(fs);
      PutFresh(fs[..k], fs[k].0, fs[k].1);
      assert fs == fs[..k] + [fs[k]];
    }
  }

  lemma {:induction false} MemberPrinted(f: (string, Json))
    requires ExactField(f)
    ensures var m := CanonMember(f);
            && GoodMember(m) && RfcMember(m) && MemberText(m) == PrintField(f) && MemberMeaning(m) == f.1
            && KeyName(m.key) == f.0 && MemberDepth(m) == LevelsField(f)
    decreases f, 0
  {
    hide DocText, GapText, GoodDoc, GoodGap, RfcDoc, RfcGap, Meaning, Depth, Canon, Print, Exact, Levels, LitText,
         LitString, GoodLit, RfcLit, PiecesFor, Quote;
    BlankIs();
    CanonLit(f.0);
    PrintIsRfc(f.1);
    var m := CanonMember(f);
    assert KeyText(m.key) == Quote(f.0) + "" + ":";
    assert MemberText(m) == " " + (Quote(f.0) + "" + ":") + " " + Print(f.1) + "";
  }

  // ---------------------------------------------------------------- round trip

  /** Print then parse: for every value the library can hold exactly, the text parses back to the same
      value, key order included, if and only if the value nests at most 32 levels; otherwise the
      tokener reports the nesting error. */
  lemma RoundTrip(v: Json)
    requires Exact(v)
    ensures Levels(v) <= 32 ==> ParseText(Print(v)).err == Success && ParseText(Print(v)).Value() == v
    ensures Levels(v) > 32 ==> ParseText(Print(v)).err == TooDeep
  {
    hide DocText, GoodDoc, RfcDoc, Meaning, Depth, Canon, Print, Exact, Levels, GoodSkip, ParseText;
    PrintIsRfc(v);
    BlankIs();
    ParsesDoc([], Canon(v), []);
    assert "" + Print(v) + "" == Print(v);
  }
}
