/** JSON values as `json_object.c` builds them, their printed text, and the two C
    library conversions (`%lli` both ways) that numbers go through. */
module JsonValue {
  import opened Wrappers
  import opened OrderedMap

  /** A NULL pointer is the JSON null. A double keeps the text `sscanf` read it from. */
  datatype Json =
    | Null
    | Bool(b: bool)
    | Int(n: int)
    | Double(text: string)
    | Str(s: string)
    | Arr(elems: seq<Json>)
    | Obj(fields: seq<(string, Json)>)

  const NUL: char := '\0'
  const INT64_MIN: int := -0x8000_0000_0000_0000
  const INT64_MAX: int := 0x7fff_ffff_ffff_ffff

  predicate IsDigit(c: char) { '0' <= c <= '9' }

  /** json_number_chars */
  predicate IsNumberChar(c: char) {
    IsDigit(c) || c == '.' || c == '+' || c == '-' || c == 'e' || c == 'E'
  }

  predicate NulFree(s: string) {
    forall i :: 0 <= i < |s| ==> s[i] != NUL
  }

  /** What a `char*` argument denotes: the bytes before the first NUL. */
  function CString(s: string): (r: string)
    ensures NulFree(r)
    ensures NulFree(s) ==> r == s
  {
    if s == [] || s[0] == NUL then []
    else
      var r := CString(s[1..]);
      assert NulFree(s) ==> forall i :: 0 <= i < |s| - 1 ==> s[1..][i] == s[i + 1];
      [s[0]] + r
  }

  lemma {:induction false} CStringStops(a: string, b: string)
    requires NulFree(a)
    ensures CString(a + [NUL] + b) == a
  {
    var s := a + [NUL] + b;
    if a == [] {
      assert s[0] == NUL;
    } else {
      assert s[1..] == a[1..] + [NUL] + b;
      CStringStops(a[1..], b);
    }
  }

  // ---------------------------------------------------------------- integers

  function DigitChar(d: int): (c: char)
    requires 0 <= d < 10
    ensures IsDigit(c) && c as int - '0' as int == d
  {
    ('0' as int + d) as char
  }

  /** printf("%lli") of a non-negative value */
  function Decimal(n: nat): (s: string)
    ensures |s| > 0
    ensures forall i :: 0 <= i < |s| ==> IsDigit(s[i])
    ensures s[0] == '0' ==> n == 0 && s == "0"
  {
    if n < 10 then [DigitChar(n)] else Decimal(n / 10) + [DigitChar(n % 10)]
  }

  function PrintInt(n: int): string {
    if n < 0 then "-" + Decimal(-n) else Decimal(n)
  }

  /** The value of the longest run of digits below `base` that s starts with. */
  function DigitRun(s: string, base: int, acc: int): int {
    if s == [] || !IsDigit(s[0]) || s[0] as int - '0' as int >= base then acc
    else DigitRun(s[1..], base, acc * base + (s[0] as int - '0' as int))
  }

  function Saturate(n: int): int {
    if n < INT64_MIN then INT64_MIN else if n > INT64_MAX then INT64_MAX else n
  }

  /** sscanf("%lli") on a text over json_number_chars: an optional sign, then octal after a
      leading 0 and decimal otherwise. (The hexadecimal prefix needs an x, which never reaches it.) */
  function ScanUnsigned(s: string): Option<int> {
    if s == [] || !IsDigit(s[0]) then None
    else if s[0] == '0' then Some(DigitRun(s[1..], 8, 0))
    else Some(DigitRun(s, 10, 0))
  }

  function ScanInt(s: string): Option<int> {
    var signed := s != [] && (s[0] == '-' || s[0] == '+');
    match ScanUnsigned(if signed then s[1..] else s)
    case None => None
    case Some(v) => Some(Saturate(if signed && s[0] == '-' then -v else v))
  }

  function SkipDigits(s: string): (r: string)
    ensures |r| <= |s|
  {
    if s != [] && IsDigit(s[0]) then SkipDigits(s[1..]) else s
  }

  /** sscanf("%lf") matches: an optional sign, a mantissa with a digit, and no dangling exponent
      (the input item is the longest prefix of a matching sequence, and must itself match). */
  predicate ScansAsDouble(s: string) {
    var s1 := if s != [] && (s[0] == '-' || s[0] == '+') then s[1..] else s;
    var s2 := SkipDigits(s1);
    var s3 := if s2 != [] && s2[0] == '.' then SkipDigits(s2[1..]) else s2;
    var digits := |s1| - |s3| - (if s2 != [] && s2[0] == '.' then 1 else 0);
    && digits > 0
    && (s3 != [] && (s3[0] == 'e' || s3[0] == 'E') ==>
          var s4 := if |s3| > 1 && (s3[1] == '-' || s3[1] == '+') then s3[2..] else s3[1..];
          s4 != [] && IsDigit(s4[0]))
  }

  lemma {:induction false} DigitRunAppend(s: string, c: char, base: int, acc: int)
    requires forall i :: 0 <= i < |s| ==> IsDigit(s[i]) && s[i] as int - '0' as int < base
    requires IsDigit(c) && c as int - '0' as int < base
    ensures DigitRun(s + [c], base, acc) == DigitRun(s, base, acc) * base + (c as int - '0' as int)
  {
    if s == [] {
      assert s + [c] == [c];
      assert DigitRun([c][1..], base, acc * base + (c as int - '0' as int)) == acc * base + (c as int - '0' as int);
    } else {
      assert (s + [c])[1..] == s[1..] + [c];
      DigitRunAppend(s[1..], c, base, acc * base + (s[0] as int - '0' as int));
    }
  }

  lemma {:induction false} DecimalValue(n: nat)
    ensures DigitRun(Decimal(n), 10, 0) == n
  {
    if n >= 10 {
      DecimalValue(n / 10);
      DigitRunAppend(Decimal(n / 10), DigitChar(n % 10), 10, 0);
    } else {
      var s := Decimal(n);
      assert s[1..] == [];
      assert DigitRun(s, 10, 0) == DigitRun(s[1..], 10, 0 * 10 + n);
    }
  }

  /** Every int64 survives `%lli` out and `%lli` back in. */
  lemma ScanPrintInt(n: int)
    requires INT64_MIN <= n <= INT64_MAX
    ensures ScanInt(PrintInt(n)) == Some(n)
  {
    var m: nat := if n < 0 then -n else n;
    var d := Decimal(m);
    DecimalValue(m);
    assert ScanUnsigned(d) == Some(m) by {
      if d[0] == '0' {
        assert d[1..] == [];
      }
    }
    if n < 0 {
      assert PrintInt(n)[1..] == d;
    }
  }

  lemma PrintIntChars(n: int)
    ensures |PrintInt(n)| > 0
    ensures forall i :: 0 <= i < |PrintInt(n)| ==> IsDigit(PrintInt(n)[i]) || PrintInt(n)[i] == '-'
  {
  }

  // ---------------------------------------------------------------- printing

  function HexChar(d: int): char
    requires 0 <= d < 16
  {
    "0123456789abcdef"[d]
  }

  /** The text `json_escape_str` emits for one byte. */
  function EscapeChar(c: char): string {
    if c == '\U{0008}' then "\\b"
    else if c == '\n' then "\\n"
    else if c == '\r' then "\\r"
    else if c == '\t' then "\\t"
    else if c == '"' then "\\\""
    else if c == '\\' then "\\\\"
    else if c == '/' then "\\/"
    else if c < ' ' then "\\u00" + [HexChar(c as int / 16), HexChar(c as int % 16)]
    else [c]
  }

  function Escape(s: string): string {
    if s == [] then [] else EscapeChar(s[0]) + Escape(s[1..])
  }

  function Quote(s: string): string { "\"" + Escape(CString(s)) + "\"" }

  /** `json_object_to_json_string` */
  function Print(v: Json): string
    decreases v, 0
  {
    match v
    case Null => "null"
    case Bool(b) => if b then "true" else "false"
    case Int(n) => PrintInt(n)
    case Double(t) => t
    case Str(s) => Quote(s)
    case Arr(es) => "[" + PrintElems(es) + " ]"
    case Obj(fs) => "{" + PrintFields(fs) + " }"
  }

  function PrintElems(es: seq<Json>): string
    decreases es, 1
  {
    if es == [] then ""
    else PrintElems(es[..|es| - 1]) + (if |es| > 1 then ", " else " ") + Print(es[|es| - 1])
  }

  function PrintFields(fs: seq<(string, Json)>): string
    decreases fs, 1
  {
    if fs == [] then ""
    else PrintFields(fs[..|fs| - 1]) + (if |fs| > 1 then "," else "") + PrintField(fs[|fs| - 1])
  }

  function PrintField(f: (string, Json)): string
    decreases f, 0
  {
    " " + Quote(f.0) + ": " + Print(f.1)
  }

  // ---------------------------------------------------------------- shape

  function Max(a: nat, b: nat): nat { if a > b then a else b }

  /** Nesting levels, the leaf included: the tokener keeps one stack level for each. */
  function Levels(v: Json): (n: nat)
    ensures n >= 1
    decreases v, 0
  {
    match v
    case Arr(es) => 1 + LevelsElems(es)
    case Obj(fs) => 1 + LevelsFields(fs)
    case _ => 1
  }

  function LevelsElems(es: seq<Json>): nat
    decreases es, 1
  {
    if es == [] then 0 else Max(LevelsElems(es[..|es| - 1]), Levels(es[|es| - 1]))
  }

  function LevelsFields(fs: seq<(string, Json)>): nat
    decreases fs, 1
  {
    if fs == [] then 0 else Max(LevelsFields(fs[..|fs| - 1]), LevelsField(fs[|fs| - 1]))
  }

  function LevelsField(f: (string, Json)): nat
    decreases f, 0
  {
    Levels(f.1)
  }

  /** The values the C library can hold exactly: int64 numbers, NUL-free strings, one entry per key.
      Doubles are left out, since `%lf` does not print them exactly. */
  ghost predicate Exact(v: Json)
    decreases v, 0
  {
    match v
    case Null => true
    case Bool(_) => true
    case Int(n) => INT64_MIN <= n <= INT64_MAX
    case Double(_) => false
    case Str(s) => NulFree(s)
    case Arr(es) => ExactElems(es)
    case Obj(fs) => Unique(fs) && ExactFields(fs)
  }

  ghost predicate ExactElems(es: seq<Json>)
    decreases es, 1
  {
    es == [] || (ExactElems(es[..|es| - 1]) && Exact(es[|es| - 1]))
  }

  ghost predicate ExactFields(fs: seq<(string, Json)>)
    decreases fs, 1
  {
    fs == [] || (ExactFields(fs[..|fs| - 1]) && ExactField(fs[|fs| - 1]))
  }

  ghost predicate ExactField(f: (string, Json))
    decreases f, 0
  {
    NulFree(f.0) && Exact(f.1)
  }
}
