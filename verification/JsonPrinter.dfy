/** The printers of `json_object.c`, which append to a shared buffer. */
module JsonPrinter {
  import opened JsonValue

  class PrintBuf {
    var buf: string

    constructor ()
      ensures buf == ""
    {
      buf := "";
    }

    /** printbuf_memappend and sprintbuf */
    method Append(s: string)
      modifies this
      ensures buf == old(buf) + s
    {
      buf := buf + s;
    }

    /** json_escape_str on a NUL-terminated string: runs of plain bytes are copied in one piece. */
    method EscapeStr(str: string)
      requires exists k :: 0 <= k < |str| && str[k] == NUL
      modifies this
      ensures buf == old(buf) + Escape(CString(str))
    {
      hide Escape, EscapeChar, CString;
      var pos, start := 0, 0;
      EscapeNone();
      assert str[..0] == [] && old(buf) + [] == buf;
      while str[pos] != NUL
        invariant 0 <= start <= pos < |str| && NulFree(str[..pos]) && Plain(str[start..pos])
        invariant exists k :: pos <= k < |str| && str[k] == NUL
        invariant buf == old(buf) + Escape(str[..start])
        decreases |str| - pos
      {
        var c := str[pos];
        if Special(c) {
          EscapeRun(str, start, pos);
          if pos - start > 0 {
            Append(str[start..pos]);
          }
          Append(EscapeChar(c));
          EscapeNext(str, pos);
          pos := pos + 1;
          start := pos;
        } else {
          PlainNext(str, start, pos);
          pos := pos + 1;
        }
      }
      EscapeRun(str, start, pos);
      if pos - start > 0 {
        Append(str[start..pos]);
      }
      CStringIs(str, pos);
    }

    /** The _to_json_string functions, and "null" for a NULL pointer. */
    method ToJsonString(v: Json)
      modifies this
      ensures buf == old(buf) + Print(v)
      decreases v, 0
    {
      hide Escape, CString, PrintInt, Quote, PrintElems, PrintFields;
      match v
      case Null => Append("null");
      case Bool(b) => Append(if b then "true" else "false");
      case Int(n) => Append(PrintInt(n));
      case Double(t) => Append(t);
      case Str(s) => QuoteString(s);
      case Arr(es) =>
        Append("[");
        AppendElems(es);
        Append(" ]");
      case Obj(fs) =>
        Append("{");
        AppendFields(fs);
        Append(" }");
    }

    method QuoteString(s: string)
      modifies this
      ensures buf == old(buf) + Quote(s)
    {
      hide Escape, CString;
      Append("\"");
      assert (s + [NUL])[|s|] == NUL;
      EscapeStr(s + [NUL]);
      CStringTerminated(s);
      Append("\"");
    }

    /** The loop of json_object_array_to_json_string. */
    method AppendElems(es: seq<Json>)
      modifies this
      ensures buf == old(buf) + PrintElems(es)
      decreases es, 1
    {
      hide Print;
      var i := 0;
      assert es[..0] == [] && old(buf) + "" == old(buf);
      while i < |es|
        invariant 0 <= i <= |es| && buf == old(buf) + PrintElems(es[..i])
      {
        Append(if i > 0 then ", " else " ");
        ToJsonString(es[i]);
        assert es[..i + 1][..i] == es[..i] && es[..i + 1][i] == es[i];
        i := i + 1;
      }
      assert es[..i] == es;
    }

    /** The loop of json_object_object_to_json_string. */
    method AppendFields(fs: seq<(string, Json)>)
      modifies this
      ensures buf == old(buf) + PrintFields(fs)
      decreases fs, 1
    {
      hide PrintField;
      var i := 0;
      assert fs[..0] == [] && old(buf) + "" == old(buf);
      while i < |fs|
        invariant 0 <= i <= |fs| && buf == old(buf) + PrintFields(fs[..i])
      {
        if i > 0 {
          Append(",");
        }
        AppendField(fs[i]);
        assert fs[..i + 1][..i] == fs[..i] && fs[..i + 1][i] == fs[i];
        i := i + 1;
      }
      assert fs[..i] == fs;
    }

    method AppendField(f: (string, Json))
      modifies this
      ensures buf == old(buf) + PrintField(f)
      decreases f, 0
    {
      hide Quote, Print;
      Append(" ");
      QuoteString(f.0);
      Append(": ");
      ToJsonString(f.1);
    }
  }

  /** The bytes json_escape_str replaces. */
  predicate Special(c: char) {
    c == '\U{0008}' || c == '\n' || c == '\r' || c == '\t' || c == '"' || c == '\\' || c == '/' || c < ' '
  }

  predicate Plain(s: string) { forall i :: 0 <= i < |s| ==> !Special(s[i]) }

  lemma EscapeNone()
    ensures Escape([]) == []
  {
  }

  lemma {:induction false} EscapeAppend(a: string, b: string)
    ensures Escape(a + b) == Escape(a) + Escape(b)
  {
    if a == [] {
      assert a + b == b;
    } else {
      assert (a + b)[1..] == a[1..] + b;
      EscapeAppend(a[1..], b);
    }
  }

  lemma {:induction false} EscapePlain(s: string)
    requires Plain(s)
    ensures Escape(s) == s
  {
    if s != [] {
      EscapePlain(s[1..]);
      assert s == [s[0]] + s[1..];
    }
  }

  /** A run of plain bytes is copied as it is. */
  lemma EscapeRun(str: string, start: nat, pos: nat)
    requires start <= pos <= |str| && Plain(str[start..pos])
    ensures Escape(str[..pos]) == Escape(str[..start]) + str[start..pos]
  {
    assert str[..pos] == str[..start] + str[start..pos];
    EscapeAppend(str[..start], str[start..pos]);
    EscapePlain(str[start..pos]);
  }

  lemma EscapeNext(str: string, pos: nat)
    requires pos < |str| && str[pos] != NUL && NulFree(str[..pos])
    ensures Escape(str[..pos + 1]) == Escape(str[..pos]) + EscapeChar(str[pos]) && NulFree(str[..pos + 1])
  {
    hide EscapeChar;
    assert str[..pos + 1] == str[..pos] + [str[pos]];
    EscapeAppend(str[..pos], [str[pos]]);
    assert [str[pos]][1..] == [];
    assert Escape([str[pos]]) == EscapeChar(str[pos]) + Escape([]);
  }

  lemma PlainNext(str: string, start: nat, pos: nat)
    requires start <= pos < |str| && Plain(str[start..pos]) && !Special(str[pos]) && str[pos] != NUL
             && NulFree(str[..pos])
    ensures Plain(str[start..pos + 1]) && NulFree(str[..pos + 1])
  {
    assert str[start..pos + 1] == str[start..pos] + [str[pos]];
  }

  lemma {:induction false} CStringIs(str: string, pos: nat)
    requires pos < |str| && str[pos] == NUL && NulFree(str[..pos])
    ensures CString(str) == str[..pos]
  {
    if pos > 0 {
      assert str[0] == str[..pos][0];
      assert str[1..][..pos - 1] == str[..pos][1..];
      assert NulFree(str[1..][..pos - 1]);
      CStringIs(str[1..], pos - 1);
      assert str[..pos] == [str[0]] + str[1..][..pos - 1];
    }
  }

  lemma {:induction false} CStringTerminated(s: string)
    ensures CString(s + [NUL]) == CString(s)
  {
    if s != [] && s[0] != NUL {
      assert (s + [NUL])[1..] == s[1..] + [NUL];
      CStringTerminated(s[1..]);
    }
  }
}
