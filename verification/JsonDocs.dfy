/** Whole texts of the grammar: values, arrays and objects, their text, their meaning, and the proof that
    `json_tokener_parse` reads each text as what it means. */
module JsonDocs {
  import opened Wrappers
  import opened OrderedMap
  import opened JsonValue
  import opened JsonMachine
  import opened JsonParse
  import opened JsonRun
  import opened JsonAccepts
  import opened JsonGrammar

  datatype Doc =
    | NullDoc(word: string)
    | BoolDoc(b: bool, word: string)
    | NumDoc(num: Num)
    | StrDoc(lit: Lit)
    | ArrDoc(items: seq<Item>, comma: bool, end: seq<Skip>)
    | ObjDoc(members: seq<Member>, comma: bool, end: seq<Skip>)

  datatype Item = Item(before: seq<Skip>, doc: Doc, after: seq<Skip>)

  /** A key in quotes, with a gap before its colon, or a bare key, which ends at the colon. */
  datatype Key = Quoted(lit: Lit, gap: seq<Skip>) | Bare(text: string)

  datatype Member = Member(before: seq<Skip>, key: Key, gap: seq<Skip>, doc: Doc, after: seq<Skip>)

  // ---------------------------------------------------------------- good texts

  predicate GoodDoc(doc: Doc)
    decreases doc, 0
  {
    match doc
    case NullDoc(w) => Spells(w, "null")
    case BoolDoc(b, w) => Spells(w, if b then "true" else "false")
    case NumDoc(n) => GoodNum(n)
    case StrDoc(l) => GoodLit(l)
    case ArrDoc(items, comma, end) => GoodItems(items) && GoodGap(end) && (comma ==> items != [])
    case ObjDoc(members, comma, end) => GoodMembers(members) && GoodGap(end) && (comma ==> members != [])
  }

  predicate GoodItems(items: seq<Item>)
    decreases items, 1
  {
    items == [] || (GoodItems(items[..|items| - 1]) && GoodItem(items[|items| - 1]))
  }

  predicate GoodItem(it: Item)
    decreases it, 0
  {
    GoodGap(it.before) && GoodDoc(it.doc) && GoodGap(it.after)
  }

  predicate GoodKey(k: Key) {
    match k
    case Quoted(l, gap) => GoodLit(l) && GoodGap(gap)
    case Bare(t) =>
      && t != [] && NulFree(t) && (forall i :: 0 <= i < |t| ==> t[i] != ':' && t[i] as int != 92)
      && !White(t[0]) && t[0] != '/' && t[0] != '}' && t[0] != '"' && t[0] != '\''
  }

  predicate GoodMembers(ms: seq<Member>)
    decreases ms, 1
  {
    ms == [] || (GoodMembers(ms[..|ms| - 1]) && GoodMember(ms[|ms| - 1]))
  }

  predicate GoodMember(m: Member)
    decreases m, 0
  {
    GoodGap(m.before) && GoodKey(m.key) && GoodGap(m.gap) && GoodDoc(m.doc) && GoodGap(m.after)
  }

  // ---------------------------------------------------------------- text

  function DocText(doc: Doc): string
    requires GoodDoc(doc)
    decreases doc, 0
  {
    match doc
    case NullDoc(w) => w
    case BoolDoc(_, w) => w
    case NumDoc(n) => NumText(n)
    case StrDoc(l) => LitText(l)
    case ArrDoc(items, comma, end) => "[" + ItemsText(items) + Comma(comma) + GapText(end) + "]"
    case ObjDoc(members, comma, end) => "{" + MembersText(members) + Comma(comma) + GapText(end) + "}"
  }

  function Comma(comma: bool): string { if comma then "," else "" }

  function ItemsText(items: seq<Item>): string
    requires GoodItems(items)
    decreases items, 1
  {
    if items == [] then ""
    else ItemsText(items[..|items| - 1]) + Comma(|items| > 1) + ItemText(items[|items| - 1])
  }

  function ItemText(it: Item): string
    requires GoodItem(it)
    decreases it, 0
  {
    GapText(it.before) + DocText(it.doc) + GapText(it.after)
  }

  function KeyText(k: Key): string
    requires GoodKey(k)
  {
    match k
    case Quoted(l, gap) => LitText(l) + GapText(gap) + ":"
    case Bare(t) => t + ":"
  }

  function MembersText(ms: seq<Member>): string
    requires GoodMembers(ms)
    decreases ms, 1
  {
    if ms == [] then "" else MembersText(ms[..|ms| - 1]) + Comma(|ms| > 1) + MemberText(ms[|ms| - 1])
  }

  function MemberText(m: Member): string
    requires GoodMember(m)
    decreases m, 0
  {
    GapText(m.before) + KeyText(m.key) + GapText(m.gap) + DocText(m.doc) + GapText(m.after)
  }

  // ---------------------------------------------------------------- meaning

  function Meaning(doc: Doc): Json
    decreases doc, 0
  {
    match doc
    case NullDoc(_) => Null
    case BoolDoc(b, _) => Bool(b)
    case NumDoc(n) => NumValue(n)
    case StrDoc(l) => Str(LitString(l))
    case ArrDoc(items, _, _) => Arr(Meanings(items))
    case ObjDoc(members, _, _) => Obj(Fields(members))
  }

  function Meanings(items: seq<Item>): seq<Json>
    decreases items, 1
  {
    if items == [] then [] else Meanings(items[..|items| - 1]) + [ItemMeaning(items[|items| - 1])]
  }

  function ItemMeaning(it: Item): Json
    decreases it, 0
  {
    Meaning(it.doc)
  }

  function KeyName(k: Key): string {
    match k
    case Quoted(l, _) => LitString(l)
    case Bare(t) => t
  }

  /** Each member is put into the map of those before it. */
  function Fields(ms: seq<Member>): seq<(string, Json)>
    decreases ms, 1
  {
    if ms == [] then []
    else Put(Fields(ms[..|ms| - 1]), KeyName(ms[|ms| - 1].key), MemberMeaning(ms[|ms| - 1]))
  }

  function MemberMeaning(m: Member): Json
    decreases m, 0
  {
    Meaning(m.doc)
  }

  /** Levels of brackets, the innermost value included. */
  function Depth(doc: Doc): (n: nat)
    ensures n >= 1
    decreases doc, 0
  {
    match doc
    case ArrDoc(items, _, _) => 1 + ItemsDepth(items)
    case ObjDoc(members, _, _) => 1 + MembersDepth(members)
    case _ => 1
  }

  function ItemsDepth(items: seq<Item>): nat
    decreases items, 1
  {
    if items == [] then 0 else Max(ItemsDepth(items[..|items| - 1]), ItemDepth(items[|items| - 1]))
  }

  function ItemDepth(it: Item): nat
    decreases it, 0
  {
    Depth(it.doc)
  }

  function MembersDepth(ms: seq<Member>): nat
    decreases ms, 1
  {
    if ms == [] then 0 else Max(MembersDepth(ms[..|ms| - 1]), MemberDepth(ms[|ms| - 1]))
  }

  function MemberDepth(m: Member): nat
    decreases m, 0
  {
    Depth(m.doc)
  }

  // ---------------------------------------------------------------- reading

  lemma StartsValue(doc: Doc)
    requires GoodDoc(doc)
    ensures DocText(doc) != [] && ValueStart(DocText(doc)[0])
  {
    hide GoodNum, NumText, NumberText, HasPoint, GoodItems, GoodMembers, ItemsText, MembersText, GapText;
    match doc
    case NumDoc(n) => NumChars(n);
    case _ =>
  }

  /** Reading the text on a fresh level leaves the level holding the meaning, for the next character d. */
  lemma {:induction false} ReadDoc(below: seq<Level>, scr: Scratch, doc: Doc, d: char)
      returns (m: Machine, scr2: Scratch)
    requires Base(below) && GoodDoc(doc) && !IsNumberChar(d) && |below| + Depth(doc) <= MAX_DEPTH
    ensures Run(Machine(below, Fresh, scr), DocText(doc)) == Going(m) && Ready(m, below, Meaning(doc), scr2, d)
    decreases doc, 0
  {
    hide Feed, Step, Run, Kept, GoodNum, GoodLit, NumText, LitText, NumValue, LitString, ItemsText, MembersText,
         GapText, GoodItems, GoodMembers, GoodGap;
    match doc
    case NullDoc(w) => m, scr2 := ReadNull(below, scr, w, d);
    case BoolDoc(b, w) => m, scr2 := ReadBool(below, scr, w, b, d);
    case NumDoc(n) => m, scr2 := ReadNum(below, scr, n, d);
    case StrDoc(l) =>
      scr2 := ReadLit(below, scr, l);
      m := Machine(below, Done(Meaning(doc)), scr2);
    case ArrDoc(items, comma, end) =>
      scr2 := ReadArr(below, scr, items, comma, end);
      m := Machine(below, Done(Meaning(doc)), scr2);
      RunInArray(below, scr, ItemsText(items) + Comma(comma) + GapText(end) + "]");
      assert DocText(doc) == "[" + (ItemsText(items) + Comma(comma) + GapText(end) + "]");
    case ObjDoc(members, comma, end) =>
      scr2 := ReadObj(below, scr, members, comma, end);
      m := Machine(below, Done(Meaning(doc)), scr2);
      RunInObject(below, scr, MembersText(members) + Comma(comma) + GapText(end) + "}");
      assert DocText(doc) == "{" + (MembersText(members) + Comma(comma) + GapText(end) + "}");
  }

  /** The bracket in front of what a container holds. */
  lemma RunInArray(below: seq<Level>, scr: Scratch, s: string)
    requires Base(below)
    ensures Run(Machine(below, Fresh, scr), "[" + s) == Run(InArray(below, [], scr), s)
  {
    hide Feed, Step, Run, Kept;
    RunOpen(below, scr);
    RunAppend(Machine(below, Fresh, scr), "[", s);
  }

  lemma RunInObject(below: seq<Level>, scr: Scratch, s: string)
    requires Base(below)
    ensures Run(Machine(below, Fresh, scr), "{" + s) == Run(InObject(below, [], scr), s)
  {
    hide Feed, Step, Run, Kept;
    RunOpen(below, scr);
    RunAppend(Machine(below, Fresh, scr), "{", s);
  }

  lemma {:induction false} ReadItem(below: seq<Level>, es: seq<Json>, scr: Scratch, it: Item, d: char)
      returns (m: Machine, scr2: Scratch)
    requires Base(below) && GoodItem(it) && !IsNumberChar(d) && |below| + 1 + ItemDepth(it) <= MAX_DEPTH
    ensures Run(InArray(below, es, scr), ItemText(it)) == Going(m)
    ensures Ready(m, AboveArray(below, es), ItemMeaning(it), scr2, d)
    decreases it, 1
  {
    hide Feed, Step, Run, Kept, DocText, GapText, GoodDoc, GoodGap, Meaning;
    var scr0 := ReadGap(InArray(below, es, scr), it.before);
    GapFirstIs(it.after, d);
    StartsValue(it.doc);
    RunElement(below, es, scr0, DocText(it.doc));
    var m1, scr1 := ReadDoc(AboveArray(below, es), scr0, it.doc, GapFirst(it.after, d));
    m, scr2 := GapAfter(m1, AboveArray(below, es), Meaning(it.doc), scr1, it.after, d);
    RunAppend(InArray(below, es, scr), GapText(it.before), DocText(it.doc));
    RunAppend(InArray(below, es, scr), GapText(it.before) + DocText(it.doc), GapText(it.after));
  }

  /** The last item is left on its own level, above the others. */
  lemma {:induction false} ReadItems(below: seq<Level>, scr: Scratch, items: seq<Item>, d: char)
      returns (m: Machine, scr2: Scratch)
    requires Base(below) && GoodItems(items) && items != [] && !IsNumberChar(d)
    requires |below| + 1 + ItemsDepth(items) <= MAX_DEPTH
    ensures Run(InArray(below, [], scr), ItemsText(items)) == Going(m)
    ensures Ready(m, AboveArray(below, Meanings(items[..|items| - 1])), ItemMeaning(items[|items| - 1]), scr2, d)
    decreases items, 2
  {
    hide Feed, Step, Run, Kept, ItemText, GoodItem, ItemMeaning, ItemDepth;
    var k := |items| - 1;
    var init, last := items[..k], items[k];
    var scr1 := scr;
    if k > 0 {
      scr1 := ReadItemsComma(below, scr, init);
    } else {
      NoText(InArray(below, [], scr));
      assert ItemsText(init) + Comma(false) == "";
    }
    m, scr2 := ReadItem(below, Meanings(init), scr1, last, d);
    RunAppend(InArray(below, [], scr), ItemsText(init) + Comma(k > 0), ItemText(last));
  }

  lemma NoText(m: Machine)
    requires Settled(m)
    ensures Run(m, "") == Going(m)
  {
  }

  lemma {:induction false} ReadItemsComma(below: seq<Level>, scr: Scratch, items: seq<Item>) returns (scr2: Scratch)
    requires Base(below) && GoodItems(items) && items != [] && |below| + 1 + ItemsDepth(items) <= MAX_DEPTH
    ensures Run(InArray(below, [], scr), ItemsText(items) + ",") == Going(InArray(below, Meanings(items), scr2))
    decreases items, 3
  {
    hide Feed, Step, Run, Kept, ItemText, GoodItem, ItemMeaning;
    var m, s2 := ReadItems(below, scr, items, ',');
    scr2 := s2;
    RunPopArray(below, Meanings(items[..|items| - 1]), ItemMeaning(items[|items| - 1]), scr2, m, ',');
    RunAppend(InArray(below, [], scr), ItemsText(items), ",");
  }

  lemma {:induction false} ReadArr(below: seq<Level>, scr: Scratch, items: seq<Item>, comma: bool, end: seq<Skip>)
      returns (scr2: Scratch)
    requires Base(below) && GoodItems(items) && GoodGap(end) && (comma ==> items != [])
    requires |below| + 1 + ItemsDepth(items) <= MAX_DEPTH
    ensures Run(InArray(below, [], scr), ItemsText(items) + Comma(comma) + GapText(end) + "]") ==
            Going(Machine(below, Done(Arr(Meanings(items))), scr2))
    decreases items, 4
  {
    hide Feed, Step, Run, Kept, ItemText, GoodItem, ItemMeaning, GapText, GoodSkip;
    var m0 := InArray(below, [], scr);
    var front := ItemsText(items) + Comma(comma);
    if items == [] || comma {
      var scr1 := scr;
      if comma {
        scr1 := ReadItemsComma(below, scr, items);
      } else {
        NoText(m0);
        assert front == "";
      }
      var m1 := InArray(below, Meanings(items), scr1);
      scr2 := ReadGap(m1, end);
      RunCloseArray(below, Meanings(items), scr2);
      RunAppend(m0, front, GapText(end));
    } else {
      GapFirstIs(end, ']');
      assert front == ItemsText(items);
      var m1, scr1 := ReadItems(below, scr, items, GapFirst(end, ']'));
      var es, v := Meanings(items[..|items| - 1]), ItemMeaning(items[|items| - 1]);
      var m2, s2 := GapAfter(m1, AboveArray(below, es), v, scr1, end, ']');
      scr2 := s2;
      RunPopArray(below, es, v, scr2, m2, ']');
      RunAppend(m0, front, GapText(end));
    }
    RunAppend(m0, front + GapText(end), "]");
  }

  lemma ReadKey(below: seq<Level>, fs: seq<(string, Json)>, scr: Scratch, k: Key) returns (scr2: Scratch)
    requires Base(below) && GoodKey(k)
    ensures Run(InObject(below, fs, scr), KeyText(k)) == Going(InValue(below, fs, KeyName(k), scr2))
  {
    hide Feed, Step, Run, Kept, GapText, GoodGap, LitText, GoodLit, LitString, CString, White, Good;
    match k
    case Quoted(l, gap) => scr2 := ReadKeyAndColon(below, fs, scr, l, gap);
    case Bare(t) => scr2 := ReadBareKey(below, fs, scr, t);
  }

  lemma ReadKeyAndColon(below: seq<Level>, fs: seq<(string, Json)>, scr: Scratch, l: Lit, gap: seq<Skip>)
      returns (scr2: Scratch)
    requires Base(below) && GoodLit(l) && GoodGap(gap)
    ensures Run(InObject(below, fs, scr), LitText(l) + GapText(gap) + ":") ==
            Going(InValue(below, fs, LitString(l), scr2))
  {
    hide Feed, Step, Run, Kept, GapText, GoodGap, LitText, GoodLit, LitString;
    var m := InObject(below, fs, scr);
    var scr1 := ReadQuotedKey(below, fs, scr, l);
    var m1 := Machine(below, Level(Eatws, FieldEnd, Obj(fs), Some(LitString(l))), scr1);
    scr2 := ReadGap(m1, gap);
    RunColon(below, fs, LitString(l), scr2);
    RunAppend(m, LitText(l), GapText(gap));
    RunAppend(m, LitText(l) + GapText(gap), ":");
  }

  lemma ReadBareKey(below: seq<Level>, fs: seq<(string, Json)>, scr: Scratch, t: string) returns (scr2: Scratch)
    requires Base(below) && GoodKey(Bare(t))
    ensures Run(InObject(below, fs, scr), t + ":") == Going(InValue(below, fs, t, scr2))
  {
    hide Feed, Step, Run, Kept, CString;
    var m := InObject(below, fs, scr);
    RunOpenKey(below, fs, scr, t[0]);
    RunBare(InKey(below, fs, scr, ':', [t[0]]), t[1..]);
    assert t == [t[0]] + t[1..];
    RunAppend(m, [t[0]], t[1..]);
    RunBareColon(below, fs, scr, t);
    RunAppend(m, t, ":");
    scr2 := scr.(quote := ':', pb := t);
  }

  lemma {:induction false} ReadMember(below: seq<Level>, fs: seq<(string, Json)>, scr: Scratch, mb: Member, d: char)
      returns (m: Machine, scr2: Scratch)
    requires Base(below) && GoodMember(mb) && !IsNumberChar(d) && |below| + 1 + MemberDepth(mb) <= MAX_DEPTH
    ensures Run(InObject(below, fs, scr), MemberText(mb)) == Going(m)
    ensures Ready(m, AboveObject(below, fs, KeyName(mb.key)), MemberMeaning(mb), scr2, d)
    decreases mb, 1
  {
    hide Feed, Step, Run, Kept, DocText, GapText, GoodDoc, GoodGap, Meaning, KeyText, GoodKey, KeyName;
    var k := KeyName(mb.key);
    var scr0 := HeadRead(below, fs, scr, mb);
    GapFirstIs(mb.after, d);
    StartsValue(mb.doc);
    RunFieldValue(below, fs, k, scr0, DocText(mb.doc));
    var m1, scr1 := ReadDoc(AboveObject(below, fs, k), scr0, mb.doc, GapFirst(mb.after, d));
    m, scr2 := GapAfter(m1, AboveObject(below, fs, k), Meaning(mb.doc), scr1, mb.after, d);
    var head := GapText(mb.before) + KeyText(mb.key) + GapText(mb.gap);
    RunAppend(InObject(below, fs, scr), head, DocText(mb.doc));
    RunAppend(InObject(below, fs, scr), head + DocText(mb.doc), GapText(mb.after));
  }

  /** The gaps and the key in front of a value. */
  lemma HeadRead(below: seq<Level>, fs: seq<(string, Json)>, scr: Scratch, mb: Member) returns (scr2: Scratch)
    requires Base(below) && GoodGap(mb.before) && GoodKey(mb.key) && GoodGap(mb.gap)
    ensures Run(InObject(below, fs, scr), GapText(mb.before) + KeyText(mb.key) + GapText(mb.gap)) ==
            Going(InValue(below, fs, KeyName(mb.key), scr2))
  {
    hide Feed, Step, Run, Kept, GapText, GoodGap, KeyText, GoodKey, KeyName;
    var m := InObject(below, fs, scr);
    var scr0 := ReadGap(m, mb.before);
    var scr1 := ReadKey(below, fs, scr0, mb.key);
    scr2 := ReadGap(InValue(below, fs, KeyName(mb.key), scr1), mb.gap);
    RunAppend(m, GapText(mb.before), KeyText(mb.key));
    RunAppend(m, GapText(mb.before) + KeyText(mb.key), GapText(mb.gap));
  }

  lemma {:induction false} ReadMembers(below: seq<Level>, scr: Scratch, ms: seq<Member>, d: char)
      returns (m: Machine, scr2: Scratch)
    requires Base(below) && GoodMembers(ms) && ms != [] && !IsNumberChar(d)
    requires |below| + 1 + MembersDepth(ms) <= MAX_DEPTH
    ensures Run(InObject(below, [], scr), MembersText(ms)) == Going(m)
    ensures Ready(m, AboveObject(below, Fields(ms[..|ms| - 1]), KeyName(ms[|ms| - 1].key)),
                  MemberMeaning(ms[|ms| - 1]), scr2, d)
    decreases ms, 2
  {
    hide Feed, Step, Run, Kept, MemberText, GoodMember, MemberMeaning, MemberDepth, KeyName, Put;
    var k := |ms| - 1;
    var init, last := ms[..k], ms[k];
    var scr1 := scr;
    if k > 0 {
      scr1 := ReadMembersComma(below, scr, init);
    } else {
      NoText(InObject(below, [], scr));
      assert MembersText(init) + Comma(false) == "";
    }
    m, scr2 := ReadMember(below, Fields(init), scr1, last, d);
    RunAppend(InObject(below, [], scr), MembersText(init) + Comma(k > 0), MemberText(last));
  }

  lemma {:induction false} ReadMembersComma(below: seq<Level>, scr: Scratch, ms: seq<Member>) returns (scr2: Scratch)
    requires Base(below) && GoodMembers(ms) && ms != [] && |below| + 1 + MembersDepth(ms) <= MAX_DEPTH
    ensures Run(InObject(below, [], scr), MembersText(ms) + ",") == Going(InObject(below, Fields(ms), scr2))
    decreases ms, 3
  {
    hide Feed, Step, Run, Kept, MemberText, GoodMember, MemberMeaning, KeyName, Put;
    var m, s2 := ReadMembers(below, scr, ms, ',');
    scr2 := s2;
    var last := ms[|ms| - 1];
    RunPopObject(below, Fields(ms[..|ms| - 1]), KeyName(last.key), MemberMeaning(last), scr2, m, ',');
    RunAppend(InObject(below, [], scr), MembersText(ms), ",");
  }

  lemma {:induction false} ReadObj(below: seq<Level>, scr: Scratch, ms: seq<Member>, comma: bool, end: seq<Skip>)
      returns (scr2: Scratch)
    requires Base(below) && GoodMembers(ms) && GoodGap(end) && (comma ==> ms != [])
    requires |below| + 1 + MembersDepth(ms) <= MAX_DEPTH
    ensures Run(InObject(below, [], scr), MembersText(ms) + Comma(comma) + GapText(end) + "}") ==
            Going(Machine(below, Done(Obj(Fields(ms))), scr2))
    decreases ms, 4
  {
    hide Feed, Step, Run, Kept, MemberText, GoodMember, MemberMeaning, KeyName, Put, GapText, GoodSkip;
    var m0 := InObject(below, [], scr);
    var front := MembersText(ms) + Comma(comma);
    if ms == [] || comma {
      var scr1 := scr;
      if comma {
        scr1 := ReadMembersComma(below, scr, ms);
      } else {
        NoText(m0);
        assert front == "";
      }
      var m1 := InObject(below, Fields(ms), scr1);
      scr2 := ReadGap(m1, end);
      RunCloseObject(below, Fields(ms), scr2);
      RunAppend(m0, front, GapText(end));
    } else {
      GapFirstIs(end, '}');
      assert front == MembersText(ms);
      var m1, scr1 := ReadMembers(below, scr, ms, GapFirst(end, '}'));
      var last := ms[|ms| - 1];
      var fs, k, v := Fields(ms[..|ms| - 1]), KeyName(last.key), MemberMeaning(last);
      var m2, s2 := GapAfter(m1, AboveObject(below, fs, k), v, scr1, end, '}');
      scr2 := s2;
      RunPopObject(below, fs, k, v, scr2, m2, '}');
      RunAppend(m0, front, GapText(end));
    }
    RunAppend(m0, front + GapText(end), "}");
  }

  // ---------------------------------------------------------------- too many levels

  /** A text with more levels than the stack has left is refused with the nesting error. */
  lemma {:induction false} DeepDoc(below: seq<Level>, scr: Scratch, doc: Doc)
    requires Base(below) && GoodDoc(doc) && |below| + Depth(doc) > MAX_DEPTH
    ensures Run(Machine(below, Fresh, scr), DocText(doc)) == Halted(TooDeep)
    decreases doc, 0
  {
    hide Feed, Step, Kept, Run, ItemsText, MembersText, GoodItems, GoodMembers, ItemsDepth, MembersDepth, GapText,
         GoodGap;
    if doc.ArrDoc? {
      var tail := Comma(doc.comma) + GapText(doc.end) + "]";
      DeepItems(below, scr, doc.items);
      RunAppend(InArray(below, [], scr), ItemsText(doc.items), tail);
      RunInArray(below, scr, ItemsText(doc.items) + tail);
      assert DocText(doc) == "[" + (ItemsText(doc.items) + tail);
    } else if doc.ObjDoc? {
      var tail := Comma(doc.comma) + GapText(doc.end) + "}";
      DeepMembers(below, scr, doc.members);
      RunAppend(InObject(below, [], scr), MembersText(doc.members), tail);
      RunInObject(below, scr, MembersText(doc.members) + tail);
      assert DocText(doc) == "{" + (MembersText(doc.members) + tail);
    }
  }

  lemma {:induction false} DeepItems(below: seq<Level>, scr: Scratch, items: seq<Item>)
    requires Base(below) && GoodItems(items) && |below| + 1 + ItemsDepth(items) > MAX_DEPTH
    ensures Run(InArray(below, [], scr), ItemsText(items)) == Halted(TooDeep)
    decreases items, 1
  {
    hide Feed, Step, Run, Kept, ItemText, GoodItem, ItemDepth, ItemMeaning;
    assert items != [];
    var k := |items| - 1;
    var init, last := items[..k], items[k];
    var m0 := InArray(below, [], scr);
    assert ItemsText(items) == ItemsText(init) + Comma(k > 0) + ItemText(last);
    if |below| + 1 + ItemsDepth(init) > MAX_DEPTH {
      DeepItems(below, scr, init);
      RunAppend(m0, ItemsText(init), Comma(k > 0) + ItemText(last));
      assert ItemsText(items) == ItemsText(init) + (Comma(k > 0) + ItemText(last));
    } else {
      var scr1 := scr;
      if k > 0 {
        scr1 := ReadItemsComma(below, scr, init);
      } else {
        NoText(m0);
        assert ItemsText(init) + Comma(false) == "";
      }
      DeepItem(below, Meanings(init), scr1, last);
      RunAppend(m0, ItemsText(init) + Comma(k > 0), ItemText(last));
    }
  }

  lemma {:induction false} DeepItem(below: seq<Level>, es: seq<Json>, scr: Scratch, it: Item)
    requires Base(below) && GoodItem(it) && |below| + 1 + ItemDepth(it) > MAX_DEPTH
    ensures Run(InArray(below, es, scr), ItemText(it)) == Halted(TooDeep)
    decreases it, 0
  {
    hide Feed, Step, Run, Kept, DocText, GapText, GoodDoc, GoodGap, Depth;
    var scr0 := ReadGap(InArray(below, es, scr), it.before);
    StartsValue(it.doc);
    RunElement(below, es, scr0, DocText(it.doc));
    if |below| < MAX_DEPTH - 1 {
      DeepDoc(AboveArray(below, es), scr0, it.doc);
    }
    RunAppend(InArray(below, es, scr), GapText(it.before), DocText(it.doc));
    RunAppend(InArray(below, es, scr), GapText(it.before) + DocText(it.doc), GapText(it.after));
  }

  lemma {:induction false} DeepMembers(below: seq<Level>, scr: Scratch, ms: seq<Member>)
    requires Base(below) && GoodMembers(ms) && |below| + 1 + MembersDepth(ms) > MAX_DEPTH
    ensures Run(InObject(below, [], scr), MembersText(ms)) == Halted(TooDeep)
    decreases ms, 1
  {
    hide Feed, Step, Run, Kept, MemberText, GoodMember, MemberDepth, MemberMeaning, KeyName, Put;
    assert ms != [];
    var k := |ms| - 1;
    var init, last := ms[..k], ms[k];
    var m0 := InObject(below, [], scr);
    assert MembersText(ms) == MembersText(init) + Comma(k > 0) + MemberText(last);
    if |below| + 1 + MembersDepth(init) > MAX_DEPTH {
      DeepMembers(below, scr, init);
      RunAppend(m0, MembersText(init), Comma(k > 0) + MemberText(last));
      assert MembersText(ms) == MembersText(init) + (Comma(k > 0) + MemberText(last));
    } else {
      var scr1 := scr;
      if k > 0 {
        scr1 := ReadMembersComma(below, scr, init);
      } else {
        NoText(m0);
        assert MembersText(init) + Comma(false) == "";
      }
      DeepMember(below, Fields(init), scr1, last);
      RunAppend(m0, MembersText(init) + Comma(k > 0), MemberText(last));
    }
  }

  lemma {:induction false} DeepMember(below: seq<Level>, fs: seq<(string, Json)>, scr: Scratch, mb: Member)
    requires Base(below) && GoodMember(mb) && |below| + 1 + MemberDepth(mb) > MAX_DEPTH
    ensures Run(InObject(below, fs, scr), MemberText(mb)) == Halted(TooDeep)
    decreases mb, 0
  {
    hide Feed, Step, Run, Kept, DocText, GapText, GoodDoc, GoodGap, Depth, KeyText, GoodKey, KeyName;
    var k := KeyName(mb.key);
    var scr0 := HeadRead(below, fs, scr, mb);
    StartsValue(mb.doc);
    RunFieldValue(below, fs, k, scr0, DocText(mb.doc));
    if |below| < MAX_DEPTH - 1 {
      DeepDoc(AboveObject(below, fs, k), scr0, mb.doc);
    }
    var head := GapText(mb.before) + KeyText(mb.key) + GapText(mb.gap);
    RunAppend(InObject(below, fs, scr), head, DocText(mb.doc));
    RunAppend(InObject(below, fs, scr), head + DocText(mb.doc), GapText(mb.after));
  }

  // ---------------------------------------------------------------- whole texts

  lemma JoinNulFree(a: string, b: string)
    requires NulFree(a) && NulFree(b)
    ensures NulFree(a + b)
  {
  }

  lemma {:induction false} GapNulFree(g: seq<Skip>)
    requires GoodGap(g)
    ensures NulFree(GapText(g))
    decreases |g|
  {
    if g != [] {
      GapNulFree(g[1..]);
    }
  }

  lemma PieceNulFree(p: Piece, quote: char)
    requires GoodPiece(p, quote)
    ensures NulFree(PieceText(p))
  {
    hide HexChar;
    if p.Code? {
      HexNotNul(p.h0);
      HexNotNul(p.h1);
      HexNotNul(p.h2);
      HexNotNul(p.h3);
    }
  }

  lemma HexNotNul(d: nat)
    requires d < 16
    ensures HexChar(d) != NUL
  {
  }

  lemma {:induction false} PiecesNulFree(ps: seq<Piece>, quote: char)
    requires GoodPieces(ps, quote)
    ensures NulFree(PiecesText(ps, quote))
    decreases |ps|
  {
    hide PieceText;
    if ps != [] {
      PieceNulFree(ps[0], quote);
      PiecesNulFree(ps[1..], quote);
      JoinNulFree(PieceText(ps[0]), PiecesText(ps[1..], quote));
    }
  }

  lemma LitNulFree(l: Lit)
    requires GoodLit(l)
    ensures NulFree(LitText(l))
  {
    hide PiecesText;
    PiecesNulFree(l.pieces, l.quote);
  }

  lemma {:induction false} DocNulFree(doc: Doc)
    requires GoodDoc(doc)
    ensures NulFree(DocText(doc))
    decreases doc, 0
  {
    hide NumText, LitText, GapText, ItemsText, MembersText, GoodNum, GoodLit, GoodGap, GoodItems, GoodMembers;
    match doc
    case NullDoc(_) =>
    case BoolDoc(_, _) =>
    case NumDoc(n) => NumChars(n);
    case StrDoc(l) => LitNulFree(l);
    case ArrDoc(items, _, end) =>
      ItemsNulFree(items);
      GapNulFree(end);
    case ObjDoc(members, _, end) =>
      MembersNulFree(members);
      GapNulFree(end);
  }

  lemma {:induction false} ItemsNulFree(items: seq<Item>)
    requires GoodItems(items)
    ensures NulFree(ItemsText(items))
    decreases items, 1
  {
    hide GapText, DocText, GoodDoc, GoodGap;
    if items != [] {
      var it := items[|items| - 1];
      ItemsNulFree(items[..|items| - 1]);
      GapNulFree(it.before);
      DocNulFree(it.doc);
      GapNulFree(it.after);
    }
  }

  lemma {:induction false} MembersNulFree(ms: seq<Member>)
    requires GoodMembers(ms)
    ensures NulFree(MembersText(ms))
    decreases ms, 1
  {
    hide GapText, DocText, GoodDoc, GoodGap, LitText, GoodLit;
    if ms != [] {
      var m := ms[|ms| - 1];
      MembersNulFree(ms[..|ms| - 1]);
      GapNulFree(m.before);
      KeyNulFree(m.key);
      GapNulFree(m.gap);
      DocNulFree(m.doc);
      GapNulFree(m.after);
    }
  }

  lemma KeyNulFree(k: Key)
    requires GoodKey(k)
    ensures NulFree(KeyText(k))
  {
    hide GapText, GoodGap, LitText, GoodLit;
    if k.Quoted? {
      LitNulFree(k.lit);
      GapNulFree(k.gap);
    }
  }

  /** json_tokener_parse reads every text of the grammar, with gaps before and behind it, as what it means, if it nests
      at most 32 levels, and reports the nesting error otherwise. */
  lemma ParsesDoc(lead: seq<Skip>, doc: Doc, trail: seq<Skip>)
    requires GoodGap(lead) && GoodDoc(doc) && GoodGap(trail)
    ensures var text := GapText(lead) + DocText(doc) + GapText(trail);
            var p := ParseText(text);
            && (Depth(doc) <= 32 ==>
                  p.err == Success && p.Value() == Meaning(doc) && p.m.below == [] && p.offset == |text|)
            && (Depth(doc) > 32 ==> p.err == TooDeep)
  {
    hide Feed, Step, Run, Kept, GapText, DocText, GoodGap, GoodDoc, Meaning, Depth, Good;
    var text := GapText(lead) + DocText(doc) + GapText(trail);
    GapNulFree(lead);
    DocNulFree(doc);
    GapNulFree(trail);
    JoinNulFree(GapText(lead), DocText(doc));
    JoinNulFree(GapText(lead) + DocText(doc), GapText(trail));
    assert text[0..] == text;
    NewIsSettled();
    ParseIsRun(New, Null, text, 0);
    var scr := ReadGap(New, lead);
    RunAppend(New, GapText(lead), DocText(doc));
    RunAppend(New, GapText(lead) + DocText(doc), GapText(trail));
    if Depth(doc) <= 32 {
      GapFirstIs(trail, NUL);
      var m1, scr1 := ReadDoc([], scr, doc, GapFirst(trail, NUL));
      var m2, scr2 := GapAfter(m1, [], Meaning(doc), scr1, trail, NUL);
      EndsAtNul(m2, Meaning(doc), scr2, text);
    } else {
      DeepDoc([], scr, doc);
    }
  }

  lemma NewIsSettled()
    ensures Settled(New) && Base([])
  {
  }

  lemma EndsAtNul(m: Machine, v: Json, scr: Scratch, text: string)
    requires Ready(m, [], v, scr, NUL)
    ensures Readable(text + [NUL], |text|, -1)
    ensures var p := ParseFrom(m, Null, text + [NUL], |text|, -1);
            p.err == Success && p.Value() == v && p.m.below == [] && p.offset == |text|
  {
    hide Feed, Step, Kept;
    FeedNulWhenDone(v, scr);
    var str := text + [NUL];
    assert str[|text|] == NUL;
  }

  // ---------------------------------------------------------------- texts in pieces

  /** A call with a length runs the text and then asks for more, unless the value is finished. */
  lemma {:induction false} ChunkIsRun(m: Machine, obj: Json, s: string, i: nat)
    requires Settled(m) && NulFree(s) && i <= |s| && Run(m, s[i..]).Going?
    ensures var m1 := Run(m, s[i..]).m;
            var finished := m1.below == [] && m1.top.state == Eatws && m1.top.saved == Finish;
            ParseFrom(m, obj, s, i, |s|) == Parsed(m1, if finished then Success else Continue, |s|)
    decreases |s| - i
  {
    hide Feed, Good;
    if i < |s| {
      assert s[i..][1..] == s[i + 1..];
      FeedIgnoresObj(m, obj, Null, s[i]);
      var o := Feed(m, obj, s[i]);
      ChunkIsRun(o.m, o.obj, s, i + 1);
    }
  }

  /** The text means v, also when it is cut at i. */
  ghost predicate InPieces(text: string, i: nat, v: Json)
    requires i <= |text|
  {
    var whole, first := ParseChunk(New, text), ParseChunk(New, text[..i]);
    && whole.err == Success && whole.Value() == v && whole.offset == |text|
    && (first.err == Success || first.err == Continue) && first.offset == i
    && (first.err == Continue ==> ParseChunk(first.m, text[i..]) == whole.(offset := |text| - i))
  }

  /** Every text of the grammar may come in pieces: a piece is taken whole and more is asked for until the value is
      finished, and the rest is then read from there to the same end. (A gap behind the value ends a number.) */
  lemma ChunkedDoc(lead: seq<Skip>, doc: Doc, trail: seq<Skip>, i: nat)
    requires GoodGap(lead) && GoodDoc(doc) && GoodGap(trail) && trail != [] && Depth(doc) <= 32
    requires i <= |GapText(lead) + DocText(doc) + GapText(trail)|
    ensures InPieces(GapText(lead) + DocText(doc) + GapText(trail), i, Meaning(doc))
  {
    hide Feed, Step, Run, Kept, GapText, DocText, GoodSkip, GoodDoc, Meaning, Depth, Good;
    var text := GapText(lead) + DocText(doc) + GapText(trail);
    GapNulFree(lead);
    DocNulFree(doc);
    GapNulFree(trail);
    JoinNulFree(GapText(lead), DocText(doc));
    JoinNulFree(GapText(lead) + DocText(doc), GapText(trail));
    assert text[0..] == text && text[..i][0..] == text[..i];
    NewIsSettled();
    var scr := ReadGap(New, lead);
    RunAppend(New, GapText(lead), DocText(doc));
    RunAppend(New, GapText(lead) + DocText(doc), GapText(trail));
    GapFirstIs(trail, NUL);
    var m1, scr1 := ReadDoc([], scr, doc, GapFirst(trail, NUL));
    var scr2 := RunGapAfter(m1, [], Meaning(doc), scr1, trail);
    assert text == text[..i] + text[i..];
    RunAppend(New, text[..i], text[i..]);
    ChunkIsRun(New, Null, text, 0);
    ChunkIsRun(New, Null, text[..i], 0);
    if ParseChunk(New, text[..i]).err == Continue {
      ChunkIndependence(New, text[..i], text[i..]);
    }
  }

  lemma RunGapAfter(m: Machine, below: seq<Level>, v: Json, scr: Scratch, g: seq<Skip>) returns (scr2: Scratch)
    requires GoodGap(g) && g != [] && Ready(m, below, v, scr, GapFirst(g, NUL))
    ensures Run(m, GapText(g)) == Going(Machine(below, Done(v), scr2))
  {
    hide Feed, Step, Kept, GapText, SkipText, GoodSkip, Good;
    GapFirstIs(g, NUL);
    var done := Machine(below, Done(v), scr);
    assert Run(m, GapText(g)) == Run(done, GapText(g));
    scr2 := ReadGap(done, g);
  }

  // ---------------------------------------------------------------- texts that end in a comment

  /** An array that is never closed, after any one item: its value is returned as if it were the text. */
  lemma OpenArray(it: Item)
    requires GoodItem(it) && ItemDepth(it) < 32
    ensures var p := ParseText("[" + ItemText(it) + "/*");
            p.err == Success && |p.m.below| == 1 && p.Value() == ItemMeaning(it)
  {
    hide Feed, Step, Run, Kept, Good, Switch, ParseFrom, ParseText, ItemText, GoodItem, ItemDepth, ItemMeaning;
    NewIsSettled();
    var above := AboveArray([], []);
    RunInArray([], NoScratch, ItemText(it));
    SettledInArray();
    var m, scr := ReadItem([], [], NoScratch, it, '/');
    var done := Machine(above, Done(ItemMeaning(it)), scr);
    SlashThenStar(m, done);
    RunAppend(New, "[" + ItemText(it), "/*");
    ItemNulFree(it);
    JoinNulFree("[", ItemText(it));
    JoinNulFree("[" + ItemText(it), "/*");
    OpenTextIff("[" + ItemText(it) + "/*");
  }

  lemma SettledInArray()
    ensures Settled(InArray([], [], NoScratch))
  {
  }

  lemma ItemNulFree(it: Item)
    requires GoodItem(it)
    ensures NulFree(ItemText(it))
  {
    hide GapText, DocText, GoodDoc, GoodGap;
    GapNulFree(it.before);
    DocNulFree(it.doc);
    GapNulFree(it.after);
  }

  lemma SlashThenStar(m: Machine, done: Machine)
    requires Settled(m) && Settled(done) && done.top.state == Eatws && Feed(m, Null, '/') == Feed(done, Null, '/')
    ensures var r := Run(m, "/*"); r.Going? && InState(done, r.m, Comment)
  {
    hide Feed, Step, Good;
    OpenComment(done);
  }

  /** The shortest such text: an opening bracket, 1, and an open comment. */
  lemma OpenOne()
    ensures var p := ParseText("[1/*"); p.err == Success && |p.m.below| == 1 && p.Value() == Int(1)
  {
    hide ParseText, Feed, Step;
    var it := Item([], NumDoc(Whole(false, "1")), []);
    assert "1"[..0] == "";
    assert ItemText(it) == "" + ("" + "1") + "" == "1";
    assert "[" + "1" + "/*" == "[1/*";
    OpenArray(it);
  }
}
