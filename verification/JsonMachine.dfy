/** The character machine of `json_tokener_parse_ex`, as a function on values: one `Switch` is one
    execution of the C switch statement. */
module JsonMachine {
  import opened Wrappers
  import opened OrderedMap
  import opened JsonValue

  const MAX_DEPTH: nat := 32

  datatype State =
    | Eatws | Start | Finish | NullWord
    | CommentStart | Comment | CommentEol | CommentEnd
    | Text | Escaped | EscapedUnicode
    | Boolean | Number
    | Array | ArrayAdd | ArraySep
    | FieldStart | Field | FieldEnd
    | ObjectValue | ObjectValueAdd | ObjectSep

  datatype Error =
    | Success | Continue | TooDeep | Eof | Unexpected | BadNull | BadBoolean | BadNumber
    | BadArray | BadKeySep | BadValueSep | BadString | BadComment

  /** One `json_tokener_srec`. */
  datatype Level = Level(state: State, saved: State, current: Json, field: Option<string>)

  const Fresh: Level := Level(Eatws, Start, Null, None)

  function Done(v: Json): Level { Level(Eatws, Finish, v, None) }

  /** The token buffers of the tokener, shared by all levels. */
  datatype Scratch = Scratch(pb: string, stPos: nat, ucs: nat, quote: char, isDouble: bool)

  /** The live part of the stack, with its top level apart: depth is |below|. */
  datatype Machine = Machine(below: seq<Level>, top: Level, scr: Scratch)

  datatype Action = Consume | Redo | Stop(err: Error)

  /** What one case of the switch does to the tokener. */
  datatype Move = Move(m: Machine, act: Action)

  /** The same with the local variable `obj`. */
  datatype Outcome = Outcome(m: Machine, obj: Json, act: Action)

  predicate IsSpace(c: char) {
    c == ' ' || c == '\t' || c == '\n' || c == '\r' || c == '\U{000B}' || c == '\U{000C}'
  }

  function Lower(c: char): char {
    if 'A' <= c <= 'Z' then (c as int + 32) as char else c
  }

  /** strncasecmp(word, buf, n) == 0, for n within the word */
  predicate SameIgnoringCase(word: string, buf: string, n: nat) {
    n <= |word| && n <= |buf| && forall i :: 0 <= i < n ==> Lower(word[i]) == Lower(buf[i])
  }

  function Min(a: nat, b: nat): nat { if a < b then a else b }

  /** strchr(json_hex_chars, c): lower case only, and the terminating NUL is found too. */
  predicate IsHexOrNul(c: char) { IsDigit(c) || 'a' <= c <= 'f' || c == NUL }

  /** The hexdigit macro. On NUL it is negative, and wraps as an unsigned int. */
  function HexDigit(c: char): int {
    if c <= '9' then c as int - '0' as int else c as int % 8 + 9
  }

  /** 1 << (3 - pos) * 4 */
  function HexWeight(pos: nat): (w: nat)
    ensures 1 <= w <= 4096
  {
    if pos == 0 then 4096 else if pos == 1 then 256 else if pos == 2 then 16 else 1
  }

  function AddHexDigit(ucs: nat, c: char, pos: nat): nat
    requires pos < 4
  {
    (ucs + (HexDigit(c) % 0x1_0000_0000) * HexWeight(pos)) % 0x1_0000_0000
  }

  /** The one, two or three bytes written for a finished \u escape. */
  function Utf8(ucs: nat): string {
    if ucs < 0x80 then [ucs as char]
    else if ucs < 0x800 then [(0xc0 + ucs / 64) as char, (0x80 + ucs % 64) as char]
    else [(0xe0 + ucs / 4096 % 32) as char, (0x80 + ucs / 64 % 64) as char, (0x80 + ucs % 64) as char]
  }

  function Put1(m: Machine, c: char): Machine {
    m.(scr := m.scr.(pb := m.scr.pb + [c]))
  }

  function To(m: Machine, state: State): Machine {
    m.(top := m.top.(state := state))
  }

  /** state = eatws, saved_state = next */
  function Await(m: Machine, next: State): Machine {
    m.(top := m.top.(state := Eatws, saved := next))
  }

  /** A finished leaf: current = v, saved_state = finish, state = eatws */
  function Leaf(m: Machine, v: Json): Machine {
    m.(top := m.top.(state := Eatws, saved := Finish, current := v))
  }

  /** state = waiting; depth++; reset_level */
  function Push(m: Machine, waiting: State): Machine {
    Machine(m.below + [m.top.(state := waiting)], Fresh, m.scr)
  }

  // ---------------------------------------------------------------- invariant

  /** A level below the top holds a container that waits to add the value being read above it. */
  predicate Waiting(l: Level) {
    && l.saved != Finish
    && ((l.state == ArrayAdd && l.current.Arr? && l.field.None?)
       || (l.state == ObjectValueAdd && l.current.Obj? && l.field.Some?))
  }

  predicate LeafState(s: State) {
    s.Start? || s.NullWord? || s.Boolean? || s.Number? || s.Text?
  }

  predicate ArrayState(s: State) { s.Array? || s.ArraySep? }

  predicate ObjectState(s: State) { s.FieldStart? || s.Field? || s.ObjectSep? }

  predicate KeyedState(s: State) { s.FieldEnd? || s.ObjectValue? }

  predicate TextState(s: State) { s.Text? || s.Field? }

  /** The states that white space can lead to. */
  predicate AfterSpace(s: State) {
    || s.Start? || s.Finish? || s.Array? || s.ArraySep?
    || s.FieldStart? || s.FieldEnd? || s.ObjectValue? || s.ObjectSep?
  }

  predicate InSpace(s: State) {
    s.Eatws? || s.CommentStart? || s.Comment? || s.CommentEol? || s.CommentEnd?
  }

  predicate InEscape(s: State) { s.Escaped? || s.EscapedUnicode? }

  predicate Adding(s: State) { s.ArrayAdd? || s.ObjectValueAdd? }

  /** What a level holds when it is at (or on its way back to) state s. */
  predicate Holds(l: Level, s: State) {
    if LeafState(s) then l.current.Null? && l.field.None?
    else if s.Finish? then l.field.None?
    else if ArrayState(s) then l.current.Arr? && l.field.None?
    else if ObjectState(s) then l.current.Obj? && l.field.None?
    else KeyedState(s) && l.current.Obj? && l.field.Some?
  }

  predicate GoodTop(l: Level, scr: Scratch) {
    && (l.saved == Finish ==> InSpace(l.state) || l.state == Finish)
    && (l.state == Text || (InEscape(l.state) && l.saved == Text) ==> scr.quote != NUL)
    && (l.state.EscapedUnicode? ==> scr.stPos < 4)
    && (l.state.NullWord? ==> scr.stPos <= 4 && scr.stPos <= |scr.pb|)
    && (l.state.Boolean? ==> scr.stPos <= 5 && scr.stPos <= |scr.pb| && (scr.stPos == 5 ==> Lower(scr.pb[0]) == 'f'))
    && if InSpace(l.state) then AfterSpace(l.saved) && Holds(l, l.saved)
       else if InEscape(l.state) then TextState(l.saved) && Holds(l, l.saved)
       else if Adding(l.state) then Waiting(l)
       else Holds(l, l.state)
  }

  /** The stack invariant that holds before every execution of the switch. */
  predicate Good(m: Machine) {
    && |m.below| < MAX_DEPTH
    && (forall i :: 0 <= i < |m.below| ==> Waiting(m.below[i]))
    && GoodTop(m.top, m.scr)
  }

  /** Between characters nothing is in flight: the top is not about to add `obj`. */
  predicate Settled(m: Machine) {
    Good(m) && !Adding(m.top.state)
  }

  /** Bounds the redos still to come before a character is consumed or refused. */
  function StateRank(s: State): nat {
    match s
    case Array => 8
    case ObjectValue => 8
    case Start => 6
    case NullWord => 5
    case Boolean => 5
    case Number => 5
    case Finish => 3
    case ArrayAdd => 2
    case ObjectValueAdd => 2
    case _ => 0
  }

  function Rank(l: Level): nat {
    if l.state == Eatws then 1 + StateRank(l.saved) else StateRank(l.state)
  }

  /** What every case of the switch keeps: the stack invariant; a push only from a container that
      starts a value, to a fresh level; a pop only from a finished level; a redo lowers the rank. */
  ghost predicate Kept(m: Machine, o: Move) {
    && Good(o.m)
    && (o.act.Redo? ==> Rank(o.m.top) < Rank(m.top))
    && (Adding(o.m.top.state) ==> o.act.Redo? && m.top.state == Finish)
    && (|o.m.below| > |m.below| ==> (m.top.state == Array || m.top.state == ObjectValue) && o.m.top == Fresh)
    && (|o.m.below| < |m.below| ==> m.top.state == Finish && o.act.Redo? && Adding(o.m.top.state))
    && o.act != Stop(Continue)
  }

  // ---------------------------------------------------------------- the switch

  /** The literal or number that starts with c, or Start when none does. */
  function LeafFor(c: char): State {
    if c == 'N' || c == 'n' then NullWord
    else if c == 'T' || c == 't' || c == 'F' || c == 'f' then Boolean
    else if IsDigit(c) || c == '-' then Number
    else Start
  }

  function Open(m: Machine, next: State, container: Json): Machine {
    m.(top := m.top.(state := Eatws, saved := next, current := container))
  }

  function StartLeaf(m: Machine, s: State): (o: Move)
    requires Good(m) && m.top.state == Start && (s == NullWord || s == Boolean || s == Number)
    ensures Kept(m, o)
  {
    if s == Number then Move(To(m, s).(scr := m.scr.(pb := "", isDouble := false)), Redo)
    else Move(To(m, s).(scr := m.scr.(pb := "", stPos := 0)), Redo)
  }

  function StartStep(m: Machine, c: char): (o: Move)
    requires Good(m) && m.top.state == Start
    ensures Kept(m, o)
  {
    if c == '{' then Move(Open(m, FieldStart, Obj([])), Consume)
    else if c == '[' then Move(Open(m, Array, Arr([])), Consume)
    else if c == '"' || c == '\'' then Move(To(m, Text).(scr := m.scr.(pb := "", quote := c)), Consume)
    else if LeafFor(c) != Start then StartLeaf(m, LeafFor(c))
    else Move(m, Stop(Unexpected))
  }

  function FinishStep(m: Machine): (o: Move)
    requires Good(m) && m.top.state == Finish
    ensures Kept(m, o)
  {
    if m.below == [] then Move(m, Stop(Success))
    else
      var k := |m.below| - 1;
      Move(Machine(m.below[..k], m.below[k], m.scr), Redo)
  }

  function NullStep(m: Machine, c: char): (o: Move)
    requires Good(m) && m.top.state == NullWord
    ensures Kept(m, o)
  {
    var m1 := Put1(m, c);
    var pos := m.scr.stPos;
    if SameIgnoringCase("null", m1.scr.pb, Min(pos + 1, 4)) then
      if pos == 4 then Move(Leaf(m1, Null), Redo)
      else Move(m1.(scr := m1.scr.(stPos := pos + 1)), Consume)
    else Move(m1, Stop(BadNull))
  }

  function BooleanStep(m: Machine, c: char): (o: Move)
    requires Good(m) && m.top.state == Boolean
    ensures Kept(m, o)
  {
    var m1 := Put1(m, c);
    var pos := m.scr.stPos;
    if SameIgnoringCase("true", m1.scr.pb, Min(pos + 1, 4)) then
      assert Lower("true"[0]) == Lower(m1.scr.pb[0]);
      if pos == 4 then Move(Leaf(m1, Bool(true)), Redo)
      else Move(m1.(scr := m1.scr.(stPos := pos + 1)), Consume)
    else if SameIgnoringCase("false", m1.scr.pb, Min(pos + 1, 5)) then
      assert Lower("false"[0]) == Lower(m1.scr.pb[0]);
      if pos == 5 then Move(Leaf(m1, Bool(false)), Redo)
      else Move(m1.(scr := m1.scr.(stPos := pos + 1)), Consume)
    else Move(m1, Stop(BadBoolean))
  }

  function NumberStep(m: Machine, c: char): (o: Move)
    requires Good(m) && m.top.state == Number
    ensures Kept(m, o)
  {
    if IsNumberChar(c) then
      var m1 := Put1(m, c);
      Move(if c == '.' || c == 'e' || c == 'E' then m1.(scr := m1.scr.(isDouble := true)) else m1, Consume)
    else if !m.scr.isDouble && ScanInt(m.scr.pb).Some? then Move(Leaf(m, Int(ScanInt(m.scr.pb).value)), Redo)
    else if m.scr.isDouble && ScansAsDouble(m.scr.pb) then Move(Leaf(m, Double(m.scr.pb)), Redo)
    else Move(m, Stop(BadNumber))
  }

  function EscapedStep(m: Machine, c: char): (o: Move)
    requires Good(m) && m.top.state == Escaped
    ensures Kept(m, o)
  {
    var back := m.(top := m.top.(state := m.top.saved));
    if c == '"' || c == '\\' || c == '/' then Move(Put1(back, c), Consume)
    else if c == 'b' then Move(Put1(back, '\U{0008}'), Consume)
    else if c == 'n' then Move(Put1(back, '\n'), Consume)
    else if c == 'r' then Move(Put1(back, '\r'), Consume)
    else if c == 't' then Move(Put1(back, '\t'), Consume)
    else if c == 'u' then Move(To(m, EscapedUnicode).(scr := m.scr.(ucs := 0, stPos := 0)), Consume)
    else Move(m, Stop(BadString))
  }

  function UnicodeStep(m: Machine, c: char): (o: Move)
    requires Good(m) && m.top.state == EscapedUnicode
    ensures Kept(m, o)
  {
    if IsHexOrNul(c) then
      var ucs := AddHexDigit(m.scr.ucs, c, m.scr.stPos);
      var pos := m.scr.stPos + 1;
      if pos == 4 then
        Move(m.(top := m.top.(state := m.top.saved),
                   scr := m.scr.(ucs := ucs, stPos := pos, pb := m.scr.pb + Utf8(ucs))), Consume)
      else Move(m.(scr := m.scr.(ucs := ucs, stPos := pos)), Consume)
    else Move(m, Stop(BadString))
  }

  function FieldStep(m: Machine, c: char): (o: Move)
    requires Good(m) && m.top.state == Field
    ensures Kept(m, o)
  {
    if c == m.scr.quote then
      Move(m.(top := m.top.(state := Eatws, saved := if c == ':' then ObjectValue else FieldEnd,
                            field := Some(CString(m.scr.pb)))), Consume)
    else if c == '\\' then Move(m.(top := m.top.(state := Escaped, saved := Field)), Consume)
    else Move(Put1(m, c), Consume)
  }

  function EatwsStep(m: Machine, c: char): (o: Move)
    requires Good(m) && m.top.state == Eatws
    ensures Kept(m, o)
  {
    if IsSpace(c) then Move(m, Consume)
    else if c == '/' then Move(To(m, CommentStart).(scr := m.scr.(pb := [c])), Consume)
    else Move(To(m, m.top.saved), Redo)
  }

  function CommentStartStep(m: Machine, c: char): (o: Move)
    requires Good(m) && m.top.state == CommentStart
    ensures Kept(m, o)
  {
    if c == '*' then Move(Put1(To(m, Comment), c), Consume)
    else if c == '/' then Move(Put1(To(m, CommentEol), c), Consume)
    else Move(m, Stop(BadComment))
  }

  function CommentStep(m: Machine, c: char): (o: Move)
    requires Good(m) && m.top.state == Comment
    ensures Kept(m, o)
  {
    Move(Put1(if c == '*' then To(m, CommentEnd) else m, c), Consume)
  }

  function CommentEolStep(m: Machine, c: char): (o: Move)
    requires Good(m) && m.top.state == CommentEol
    ensures Kept(m, o)
  {
    Move(if c == '\n' then To(m, Eatws) else Put1(m, c), Consume)
  }

  function CommentEndStep(m: Machine, c: char): (o: Move)
    requires Good(m) && m.top.state == CommentEnd
    ensures Kept(m, o)
  {
    Move(To(Put1(m, c), if c == '/' then Eatws else Comment), Consume)
  }

  function TextStep(m: Machine, c: char): (o: Move)
    requires Good(m) && m.top.state == Text
    ensures Kept(m, o)
  {
    if c == m.scr.quote then Move(Leaf(m, Str(CString(m.scr.pb))), Consume)
    else if c == '\\' then Move(m.(top := m.top.(state := Escaped, saved := Text)), Consume)
    else Move(Put1(m, c), Consume)
  }

  function ArrayStep(m: Machine, c: char): (o: Move)
    requires Good(m) && m.top.state == Array
    ensures Kept(m, o)
  {
    if c == ']' then Move(Await(m, Finish), Consume)
    else if |m.below| >= MAX_DEPTH - 1 then Move(m, Stop(TooDeep))
    else Move(Push(m, ArrayAdd), Redo)
  }

  function ArrayAddStep(m: Machine, obj: Json): (o: Move)
    requires Good(m) && m.top.state == ArrayAdd
    ensures Kept(m, o)
  {
    Move(Await(m.(top := m.top.(current := Arr(m.top.current.elems + [obj]))), ArraySep), Redo)
  }

  function ArraySepStep(m: Machine, c: char): (o: Move)
    requires Good(m) && m.top.state == ArraySep
    ensures Kept(m, o)
  {
    if c == ']' then Move(Await(m, Finish), Consume)
    else if c == ',' then Move(Await(m, Array), Consume)
    else Move(m, Stop(BadArray))
  }

  function FieldStartStep(m: Machine, c: char): (o: Move)
    requires Good(m) && m.top.state == FieldStart
    ensures Kept(m, o)
  {
    if c == '}' then Move(Await(m, Finish), Consume)
    else if c == '"' || c == '\'' then Move(To(m, Field).(scr := m.scr.(quote := c, pb := "")), Consume)
    else Move(To(m, Field).(scr := m.scr.(quote := ':', pb := [c])), Consume)
  }

  function FieldEndStep(m: Machine, c: char): (o: Move)
    requires Good(m) && m.top.state == FieldEnd
    ensures Kept(m, o)
  {
    if c == ':' then Move(Await(m, ObjectValue), Consume)
    else Move(m, Stop(BadKeySep))
  }

  function ObjectValueStep(m: Machine, c: char): (o: Move)
    requires Good(m) && m.top.state == ObjectValue
    ensures Kept(m, o)
  {
    if |m.below| >= MAX_DEPTH - 1 then Move(m, Stop(TooDeep))
    else Move(Push(m, ObjectValueAdd), Redo)
  }

  function ObjectValueAddStep(m: Machine, obj: Json): (o: Move)
    requires Good(m) && m.top.state == ObjectValueAdd
    ensures Kept(m, o)
  {
    var fields := Put(m.top.current.fields, m.top.field.value, obj);
    Move(Await(m.(top := m.top.(current := Obj(fields), field := None)), ObjectSep), Redo)
  }

  function ObjectSepStep(m: Machine, c: char): (o: Move)
    requires Good(m) && m.top.state == ObjectSep
    ensures Kept(m, o)
  {
    if c == '}' then Move(Await(m, Finish), Consume)
    else if c == ',' then Move(Await(m, FieldStart), Consume)
    else Move(m, Stop(BadValueSep))
  }

  /** One case of the switch; only the two "add" cases look at `obj`. */
  function Step(m: Machine, obj: Json, c: char): (o: Move)
    requires Good(m)
    ensures Kept(m, o)
  {
    match m.top.state
    case Eatws => EatwsStep(m, c)
    case Start => StartStep(m, c)
    case Finish => FinishStep(m)
    case NullWord => NullStep(m, c)
    case CommentStart => CommentStartStep(m, c)
    case Comment => CommentStep(m, c)
    case CommentEol => CommentEolStep(m, c)
    case CommentEnd => CommentEndStep(m, c)
    case Text => TextStep(m, c)
    case Escaped => EscapedStep(m, c)
    case EscapedUnicode => UnicodeStep(m, c)
    case Boolean => BooleanStep(m, c)
    case Number => NumberStep(m, c)
    case Array => ArrayStep(m, c)
    case ArrayAdd => ArrayAddStep(m, obj)
    case ArraySep => ArraySepStep(m, c)
    case FieldStart => FieldStartStep(m, c)
    case Field => FieldStep(m, c)
    case FieldEnd => FieldEndStep(m, c)
    case ObjectValue => ObjectValueStep(m, c)
    case ObjectValueAdd => ObjectValueAddStep(m, obj)
    case ObjectSep => ObjectSepStep(m, c)
  }

  /** One execution of the switch statement. `obj` carries a finished value from its own level to the
      level below. */
  function Switch(m: Machine, obj: Json, c: char): (o: Outcome)
    requires Good(m)
    ensures Kept(m, Move(o.m, o.act))
  {
    var o := Step(m, obj, c);
    Outcome(o.m, if m.top.state == Finish && m.below != [] then m.top.current else obj, o.act)
  }
}
