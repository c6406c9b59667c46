/** The tokener itself (`json_tokener.c`): its 32-level stack in place, over reference-counted objects. Every
    execution of the switch is one `Step` of the machine, and every object has exactly one owner throughout. */
module JsonTokener {
  import opened Wrappers
  import opened JsonValue
  import JsonHeap
  import opened JsonMachine
  import opened JsonParse

  type Ref = JsonHeap.Ref
  type Tree = JsonHeap.Tree

  /** struct json_tokener_srec */
  datatype Srec = Srec(state: State, saved: State, current: Ref, field: Option<string>)

  /** json_tokener_reset_level leaves a level so. */
  const Cleared: Srec := Srec(Eatws, Start, None, None)

  function LevelOf(s: Srec, t: Tree): Level { Level(s.state, s.saved, JsonHeap.Value(t), s.field) }

  function LevelsOf(recs: seq<Srec>, ts: seq<Tree>): (ls: seq<Level>)
    requires |recs| == |ts|
    ensures |ls| == |recs| && forall i :: 0 <= i < |ls| ==> ls[i] == LevelOf(recs[i], ts[i])
  {
    seq(|recs|, i requires 0 <= i < |recs| => LevelOf(recs[i], ts[i]))
  }

  class Tokener {
    const stack: array<Srec>
    const heap: JsonHeap.Heap
    var depth: nat
    var scr: Scratch
    var err: Error
    var charOffset: nat
    ghost var trees: seq<Tree> // what each live level owns

    ghost predicate Shape()
      reads this`depth, this`trees, this`scr, stack, heap
    {
      && stack.Length == MAX_DEPTH && depth < MAX_DEPTH && |trees| == depth + 1 && heap.Valid()
      && (forall i :: 0 <= i <= depth ==> stack[i].current == JsonHeap.RefOf(trees[i]))
      && (forall i :: depth < i < MAX_DEPTH ==> stack[i].current == None && stack[i].field == None)
      && (forall i :: 0 <= i <= depth ==> PlainTree(trees[i]))
    }

    /** The machine this tokener stands for. */
    ghost function Abs(): Machine
      requires Shape()
      reads this`depth, this`trees, this`scr, stack, heap
    {
      Machine(LevelsOf(stack[..depth], trees[..depth]), LevelOf(stack[depth], trees[depth]), scr)
    }

    /** The stack is good, and the objects alive are those of the levels and the one in flight. */
    ghost predicate Valid(inFlight: Tree)
      reads this`depth, this`trees, this`scr, stack, heap
    {
      && Shape() && Good(Abs())
      && JsonHeap.Arena(heap.cells, trees + [inFlight])
      && (!Adding(stack[depth].state) ==> inFlight.Nil?)
    }

    /** json_tokener_new */
    constructor (h: JsonHeap.Heap)
      requires h.Valid() && h.cells == map[]
      ensures heap == h && fresh(stack) && Valid(JsonHeap.Nil) && Abs() == New
    {
      stack := new Srec[MAX_DEPTH](_ => Cleared);
      heap := h;
      depth, scr, err, charOffset := 0, NoScratch, Success, 0;
      trees := [JsonHeap.Nil];
      new;
      JsonHeap.CellsNone();
      JsonHeap.ArenaNil(h.cells, []);
      JsonHeap.ArenaNil(h.cells, [JsonHeap.Nil]);
      assert [] + [JsonHeap.Nil] == [JsonHeap.Nil];
      assert Abs() == New;
    }

    // -------------------------------------------------------------- cases that touch no object

    /** Assigns the top level, but for its object, and the buffers. */
    method Become(s: Srec, scr1: Scratch)
      requires Shape() && s.current == stack[depth].current
      modifies this`scr, stack
      ensures Shape() && stack[depth] == s
      ensures Abs() == Machine(old(Abs()).below, LevelOf(s, trees[depth]), scr1)
    {
      ghost var below := Abs().below;
      stack[depth] := s;
      scr := scr1;
      assert Abs().below == below;
    }

    method EatwsCase(c: char) returns (act: Action)
      requires Shape() && Good(Abs()) && stack[depth].state == Eatws
      modifies this`scr, stack
      ensures Shape() && Move(Abs(), act) == EatwsStep(old(Abs()), c)
    {
      var l := stack[depth];
      if IsSpace(c) {
        act := Consume;
      } else if c == '/' {
        Become(l.(state := CommentStart), scr.(pb := [c]));
        act := Consume;
      } else {
        Become(l.(state := l.saved), scr);
        act := Redo;
      }
    }

    method CommentStartCase(c: char) returns (act: Action)
      requires Shape() && Good(Abs()) && stack[depth].state == CommentStart
      modifies this`scr, stack
      ensures Shape() && Move(Abs(), act) == CommentStartStep(old(Abs()), c)
    {
      var l, pb := stack[depth], scr.pb + [c];
      act := Consume;
      if c == '*' {
        Become(l.(state := Comment), scr.(pb := pb));
      } else if c == '/' {
        Become(l.(state := CommentEol), scr.(pb := pb));
      } else {
        act := Stop(BadComment);
      }
    }

    method CommentCase(c: char) returns (act: Action)
      requires Shape() && Good(Abs()) && stack[depth].state == Comment
      modifies this`scr, stack
      ensures Shape() && Move(Abs(), act) == CommentStep(old(Abs()), c)
    {
      var l := stack[depth];
      Become(if c == '*' then l.(state := CommentEnd) else l, scr.(pb := scr.pb + [c]));
      act := Consume;
    }

    method CommentEolCase(c: char) returns (act: Action)
      requires Shape() && Good(Abs()) && stack[depth].state == CommentEol
      modifies this`scr, stack
      ensures Shape() && Move(Abs(), act) == CommentEolStep(old(Abs()), c)
    {
      var l := stack[depth];
      if c == '\n' {
        Become(l.(state := Eatws), scr);
      } else {
        Become(l, scr.(pb := scr.pb + [c]));
      }
      act := Consume;
    }

    method CommentEndCase(c: char) returns (act: Action)
      requires Shape() && Good(Abs()) && stack[depth].state == CommentEnd
      modifies this`scr, stack
      ensures Shape() && Move(Abs(), act) == CommentEndStep(old(Abs()), c)
    {
      Become(stack[depth].(state := if c == '/' then Eatws else Comment), scr.(pb := scr.pb + [c]));
      act := Consume;
    }

    method EscapedCase(c: char) returns (act: Action)
      requires Shape() && Good(Abs()) && stack[depth].state == Escaped
      modifies this`scr, stack
      ensures Shape() && Move(Abs(), act) == EscapedStep(old(Abs()), c)
    {
      var l := stack[depth];
      act := Consume;
      if c == '"' || c == '\\' || c == '/' {
        Become(l.(state := l.saved), scr.(pb := scr.pb + [c]));
      } else if c == 'b' || c == 'n' || c == 'r' || c == 't' {
        var x := if c == 'b' then '\U{0008}' else if c == 'n' then '\n' else if c == 'r' then '\r' else '\t';
        Become(l.(state := l.saved), scr.(pb := scr.pb + [x]));
      } else if c == 'u' {
        Become(l.(state := EscapedUnicode), scr.(ucs := 0, stPos := 0));
      } else {
        act := Stop(BadString);
      }
    }

    method UnicodeCase(c: char) returns (act: Action)
      requires Shape() && Good(Abs()) && stack[depth].state == EscapedUnicode
      modifies this`scr, stack
      ensures Shape() && Move(Abs(), act) == UnicodeStep(old(Abs()), c)
    {
      var l := stack[depth];
      if IsHexOrNul(c) {
        Become(l, scr.(ucs := AddHexDigit(scr.ucs, c, scr.stPos), stPos := scr.stPos + 1));
        if scr.stPos == 4 {
          Become(l.(state := l.saved), scr.(pb := scr.pb + Utf8(scr.ucs)));
        }
        act := Consume;
      } else {
        act := Stop(BadString);
      }
    }

    method FieldStartCase(c: char) returns (act: Action)
      requires Shape() && Good(Abs()) && stack[depth].state == FieldStart
      modifies this`scr, stack
      ensures Shape() && Move(Abs(), act) == FieldStartStep(old(Abs()), c)
    {
      var l := stack[depth];
      act := Consume;
      if c == '}' {
        Become(l.(state := Eatws, saved := Finish), scr);
      } else if c == '"' || c == '\'' {
        Become(l.(state := Field), scr.(quote := c, pb := ""));
      } else {
        Become(l.(state := Field), scr.(quote := ':', pb := [c]));
      }
    }

    method FieldCase(c: char) returns (act: Action)
      requires Shape() && Good(Abs()) && stack[depth].state == Field
      modifies this`scr, stack
      ensures Shape() && Move(Abs(), act) == FieldStep(old(Abs()), c)
    {
      var l := stack[depth];
      act := Consume;
      if c == scr.quote {
        Become(l.(state := Eatws, saved := if c == ':' then ObjectValue else FieldEnd, field := Some(CString(scr.pb))),
               scr);
      } else if c == '\\' {
        Become(l.(state := Escaped, saved := Field), scr);
      } else {
        Become(l, scr.(pb := scr.pb + [c]));
      }
    }

    method FieldEndCase(c: char) returns (act: Action)
      requires Shape() && Good(Abs()) && stack[depth].state == FieldEnd
      modifies this`scr, stack
      ensures Shape() && Move(Abs(), act) == FieldEndStep(old(Abs()), c)
    {
      if c == ':' {
        Become(stack[depth].(state := Eatws, saved := ObjectValue), scr);
        act := Consume;
      } else {
        act := Stop(BadKeySep);
      }
    }

    method ArraySepCase(c: char) returns (act: Action)
      requires Shape() && Good(Abs()) && stack[depth].state == ArraySep
      modifies this`scr, stack
      ensures Shape() && Move(Abs(), act) == ArraySepStep(old(Abs()), c)
    {
      if c == ']' {
        Become(stack[depth].(state := Eatws, saved := Finish), scr);
        act := Consume;
      } else if c == ',' {
        Become(stack[depth].(state := Eatws, saved := Array), scr);
        act := Consume;
      } else {
        act := Stop(BadArray);
      }
    }

    method ObjectSepCase(c: char) returns (act: Action)
      requires Shape() && Good(Abs()) && stack[depth].state == ObjectSep
      modifies this`scr, stack
      ensures Shape() && Move(Abs(), act) == ObjectSepStep(old(Abs()), c)
    {
      if c == '}' {
        Become(stack[depth].(state := Eatws, saved := Finish), scr);
        act := Consume;
      } else if c == ',' {
        Become(stack[depth].(state := Eatws, saved := FieldStart), scr);
        act := Consume;
      } else {
        act := Stop(BadValueSep);
      }
    }

    // -------------------------------------------------------------- cases that make an object

    /** Assigns the object of the top level. */
    method SetCurrent(r: Ref, ghost t: Tree)
      requires Shape() && r == JsonHeap.RefOf(t) && PlainTree(t)
      modifies this`trees, stack
      ensures Shape() && trees == old(trees)[..depth] + [t]
      ensures stack[depth] == old(stack[depth]).(current := r)
      ensures Abs() == Machine(old(Abs()).below, old(Abs()).top.(current := JsonHeap.Value(t)), scr)
    {
      ghost var below := Abs().below;
      stack[depth] := stack[depth].(current := r);
      trees := trees[..depth] + [t];
      assert Abs().below == below;
    }

    /** current = a new object. */
    method Create(node: JsonHeap.Node, ghost v: Json)
      requires Shape() && trees[depth].Nil? && JsonHeap.Arena(heap.cells, trees + [JsonHeap.Nil]) && NewNode(node, v)
      modifies this`trees, stack, heap
      ensures Shape() && JsonHeap.Arena(heap.cells, trees + [JsonHeap.Nil])
      ensures Abs() == Machine(old(Abs()).below, old(Abs()).top.(current := v), scr)
      ensures stack[depth] == old(stack[depth]).(current := stack[depth].current)
    {
      hide JsonHeap.Arena, JsonHeap.Value, JsonHeap.NodeOf, NewNode;
      ghost var front := trees[..depth];
      JsonHeap.ArenaNil(heap.cells, trees);
      assert trees == front + [JsonHeap.Nil];
      ghost var before := heap.cells;
      ghost var m := Abs();
      var r := heap.New(node);
      assert Abs() == m;
      ghost var t := TreeFor(node, r.value);
      NewTree(node, v, r.value);
      JsonHeap.ArenaNew(before, front, t);
      JsonHeap.ArenaNil(heap.cells, front + [t]);
      SetCurrent(r, t);
    }

    /** A finished scalar: current = v, saved_state = finish, state = eatws. */
    method FinishLeaf(v: Json)
      requires Shape() && trees[depth].Nil? && JsonHeap.Arena(heap.cells, trees + [JsonHeap.Nil])
      requires !v.Null? && !v.Arr? && !v.Obj?
      modifies this`trees, this`scr, stack, heap
      ensures Shape() && JsonHeap.Arena(heap.cells, trees + [JsonHeap.Nil]) && Abs() == Leaf(old(Abs()), v)
    {
      hide JsonHeap.Arena;
      Create(JsonHeap.Scalar(v), v);
      Become(stack[depth].(state := Eatws, saved := Finish), scr);
    }

    lemma NoObject()
      requires Shape() && Abs().top.current.Null?
      ensures trees[depth].Nil?
    {
    }

    method StartCase(c: char) returns (act: Action)
      requires Valid(JsonHeap.Nil) && stack[depth].state == Start
      modifies this`trees, this`scr, stack, heap
      ensures Shape() && JsonHeap.Arena(heap.cells, trees + [JsonHeap.Nil])
              && Move(Abs(), act) == StartStep(old(Abs()), c)
    {
      hide JsonHeap.Arena;
      NoObject();
      act := Consume;
      if c == '{' {
        Create(JsonHeap.Fields([], []), Obj([]));
        Become(stack[depth].(state := Eatws, saved := FieldStart), scr);
      } else if c == '[' {
        Create(JsonHeap.Elems([]), Arr([]));
        Become(stack[depth].(state := Eatws, saved := Array), scr);
      } else if c == '"' || c == '\'' {
        Become(stack[depth].(state := Text), scr.(pb := "", quote := c));
      } else if LeafFor(c) == NullWord || LeafFor(c) == Boolean {
        Become(stack[depth].(state := LeafFor(c)), scr.(pb := "", stPos := 0));
        act := Redo;
      } else if LeafFor(c) == Number {
        Become(stack[depth].(state := Number), scr.(pb := "", isDouble := false));
        act := Redo;
      } else {
        act := Stop(Unexpected);
      }
    }

    method NullCase(c: char) returns (act: Action)
      requires Valid(JsonHeap.Nil) && stack[depth].state == NullWord
      modifies this`trees, this`scr, stack
      ensures Shape() && trees == old(trees) && Move(Abs(), act) == NullStep(old(Abs()), c)
    {
      hide JsonHeap.Arena;
      NoObject();
      var pos := scr.stPos;
      Become(stack[depth], scr.(pb := scr.pb + [c]));
      if SameIgnoringCase("null", scr.pb, Min(pos + 1, 4)) {
        if pos == 4 {
          SetCurrent(None, JsonHeap.Nil);
          assert trees == old(trees);
          Become(stack[depth].(state := Eatws, saved := Finish), scr);
          act := Redo;
        } else {
          Become(stack[depth], scr.(stPos := pos + 1));
          act := Consume;
        }
      } else {
        act := Stop(BadNull);
      }
    }

    method BooleanCase(c: char) returns (act: Action)
      requires Valid(JsonHeap.Nil) && stack[depth].state == Boolean
      modifies this`trees, this`scr, stack, heap
      ensures Shape() && JsonHeap.Arena(heap.cells, trees + [JsonHeap.Nil])
              && Move(Abs(), act) == BooleanStep(old(Abs()), c)
    {
      hide JsonHeap.Arena;
      NoObject();
      var pos := scr.stPos;
      Become(stack[depth], scr.(pb := scr.pb + [c]));
      act := Consume;
      if SameIgnoringCase("true", scr.pb, Min(pos + 1, 4)) {
        if pos == 4 {
          FinishLeaf(Bool(true));
          act := Redo;
        } else {
          Become(stack[depth], scr.(stPos := pos + 1));
        }
      } else if SameIgnoringCase("false", scr.pb, Min(pos + 1, 5)) {
        if pos == 5 {
          FinishLeaf(Bool(false));
          act := Redo;
        } else {
          Become(stack[depth], scr.(stPos := pos + 1));
        }
      } else {
        act := Stop(BadBoolean);
      }
    }

    method NumberCase(c: char) returns (act: Action)
      requires Valid(JsonHeap.Nil) && stack[depth].state == Number
      modifies this`trees, this`scr, stack, heap
      ensures Shape() && JsonHeap.Arena(heap.cells, trees + [JsonHeap.Nil])
              && Move(Abs(), act) == NumberStep(old(Abs()), c)
    {
      hide JsonHeap.Arena, ScanInt, ScansAsDouble;
      NoObject();
      if IsNumberChar(c) {
        Become(stack[depth], scr.(pb := scr.pb + [c]));
        if c == '.' || c == 'e' || c == 'E' {
          Become(stack[depth], scr.(isDouble := true));
        }
        act := Consume;
      } else if !scr.isDouble && ScanInt(scr.pb).Some? {
        FinishLeaf(Int(ScanInt(scr.pb).value));
        act := Redo;
      } else if scr.isDouble && ScansAsDouble(scr.pb) {
        FinishLeaf(Double(scr.pb));
        act := Redo;
      } else {
        act := Stop(BadNumber);
      }
    }

    method TextCase(c: char) returns (act: Action)
      requires Valid(JsonHeap.Nil) && stack[depth].state == Text
      modifies this`trees, this`scr, stack, heap
      ensures Shape() && JsonHeap.Arena(heap.cells, trees + [JsonHeap.Nil])
              && Move(Abs(), act) == TextStep(old(Abs()), c)
    {
      hide JsonHeap.Arena;
      NoObject();
      act := Consume;
      if c == scr.quote {
        FinishLeaf(Str(CString(scr.pb)));
      } else if c == '\\' {
        Become(stack[depth].(state := Escaped, saved := Text), scr);
      } else {
        Become(stack[depth], scr.(pb := scr.pb + [c]));
      }
    }

    // -------------------------------------------------------------- cases that move between levels

    /** state = waiting; depth++; json_tokener_reset_level */
    method PushLevel(waiting: State)
      requires Shape() && depth < MAX_DEPTH - 1 && JsonHeap.Arena(heap.cells, trees + [JsonHeap.Nil])
      modifies this`depth, this`trees, stack
      ensures Shape() && JsonHeap.Arena(heap.cells, trees + [JsonHeap.Nil]) && Abs() == Push(old(Abs()), waiting)
    {
      hide JsonHeap.Arena;
      JsonHeap.ArenaNil(heap.cells, trees + [JsonHeap.Nil]);
      ghost var m := Abs();
      stack[depth] := stack[depth].(state := waiting);
      depth := depth + 1;
      stack[depth] := Cleared;
      trees := trees + [JsonHeap.Nil];
      assert Abs().below == m.below + [m.top.(state := waiting)];
    }

    method ArrayCase(c: char) returns (act: Action)
      requires Valid(JsonHeap.Nil) && stack[depth].state == Array
      modifies this`depth, this`trees, this`scr, stack
      ensures Shape() && JsonHeap.Arena(heap.cells, trees + [JsonHeap.Nil])
              && Move(Abs(), act) == ArrayStep(old(Abs()), c)
    {
      hide JsonHeap.Arena;
      if c == ']' {
        Become(stack[depth].(state := Eatws, saved := Finish), scr);
        act := Consume;
      } else if depth >= MAX_DEPTH - 1 {
        act := Stop(TooDeep);
      } else {
        PushLevel(ArrayAdd);
        act := Redo;
      }
    }

    method ObjectValueCase(c: char) returns (act: Action)
      requires Valid(JsonHeap.Nil) && stack[depth].state == ObjectValue
      modifies this`depth, this`trees, this`scr, stack
      ensures Shape() && JsonHeap.Arena(heap.cells, trees + [JsonHeap.Nil])
              && Move(Abs(), act) == ObjectValueStep(old(Abs()), c)
    {
      hide JsonHeap.Arena;
      if depth >= MAX_DEPTH - 1 {
        act := Stop(TooDeep);
      } else {
        PushLevel(ObjectValueAdd);
        act := Redo;
      }
    }

    /** json_tokener_reset_level of the top, once its object is put; depth-- */
    method PopLevel()
      requires Shape() && depth > 0
      modifies this`depth, this`trees, stack
      ensures Shape() && trees == old(trees)[..|old(trees)| - 1]
      ensures var m := old(Abs());
              |m.below| > 0 && Abs() == Machine(m.below[..|m.below| - 1], m.below[|m.below| - 1], m.scr)
    {
      hide JsonHeap.Value;
      ghost var m := Abs();
      stack[depth] := Cleared;
      depth := depth - 1;
      trees := trees[..|trees| - 1];
      assert Abs().below == m.below[..|m.below| - 1];
    }

    /** The finished value of a level goes into flight: its count is two for a moment, then one again. */
    method FinishCase() returns (obj: Ref, ghost inFlight: Tree)
      requires Valid(JsonHeap.Nil) && stack[depth].state == Finish && depth > 0
      modifies this`depth, this`trees, stack, heap
      ensures Shape() && JsonHeap.Arena(heap.cells, trees + [inFlight]) && obj == JsonHeap.RefOf(inFlight)
      ensures Move(Abs(), Redo) == FinishStep(old(Abs())) && JsonHeap.Value(inFlight) == old(Abs()).top.current
    {
      hide JsonHeap.Arena, JsonHeap.Value, Good;
      ghost var m, front := Abs(), trees[..depth];
      inFlight := trees[depth];
      assert trees == front + [inFlight];
      JsonHeap.ArenaNil(heap.cells, trees);
      JsonHeap.ArenaRest(heap.cells, front, inFlight);
      obj := stack[depth].current;
      heap.GetAndPut(obj, inFlight, JsonHeap.CellsAll(front));
      assert Abs() == m;
      PopLevel();
    }

    // -------------------------------------------------------------- cases that add to a container

    method ArrayAddCase(obj: Ref, ghost inFlight: Tree)
      requires Valid(inFlight) && stack[depth].state == ArrayAdd && obj == JsonHeap.RefOf(inFlight)
      modifies this`trees, this`scr, stack, heap
      ensures Shape() && JsonHeap.Arena(heap.cells, trees + [JsonHeap.Nil])
      ensures Move(Abs(), Redo) == ArrayAddStep(old(Abs()), JsonHeap.Value(inFlight))
    {
      hide JsonHeap.Arena, JsonHeap.Value;
      ghost var front, t := trees[..depth], trees[depth];
      BranchOf(t);
      assert trees == front + [t];
      ghost var m := Abs();
      heap.ArrayAdd(stack[depth].current, obj, front, t, inFlight);
      assert Abs() == m;
      ghost var u := JsonHeap.Branch(t.id, t.kids + [inFlight]);
      JsonHeap.BranchValue(t, inFlight);
      JsonHeap.ArenaNil(heap.cells, front + [u]);
      SetCurrent(stack[depth].current, u);
      Become(stack[depth].(state := Eatws, saved := ArraySep), scr);
    }

    method ObjectAddCase(obj: Ref, ghost inFlight: Tree)
      requires Valid(inFlight) && stack[depth].state == ObjectValueAdd && obj == JsonHeap.RefOf(inFlight)
      modifies this`trees, this`scr, stack, heap
      ensures Shape() && JsonHeap.Arena(heap.cells, trees + [JsonHeap.Nil])
      ensures Move(Abs(), Redo) == ObjectValueAddStep(old(Abs()), JsonHeap.Value(inFlight))
    {
      hide JsonHeap.Arena, JsonHeap.Value, JsonHeap.WithField;
      ghost var front, t := trees[..depth], trees[depth];
      KeyedOf(t);
      assert trees == front + [t];
      ghost var m := Abs();
      var key := stack[depth].field.value;
      heap.ObjectAdd(stack[depth].current, key, obj, front, t, inFlight);
      assert Abs() == m;
      ghost var u := JsonHeap.WithField(t, key, inFlight);
      JsonHeap.WithFieldValue(t, key, inFlight);
      WithFieldIs(t, key, inFlight);
      JsonHeap.ArenaNil(heap.cells, front + [u]);
      SetCurrent(stack[depth].current, u);
      Become(stack[depth].(state := Eatws, saved := ObjectSep, field := None), scr);
    }

    // -------------------------------------------------------------- the switch

    /** Whether the tokener is where the machine's move leads, with nothing in flight. */
    ghost predicate Moved(o: Move, act: Action)
      reads this`depth, this`trees, this`scr, stack, heap
    {
      Shape() && JsonHeap.Arena(heap.cells, trees + [JsonHeap.Nil]) && Abs() == o.m && act == o.act
    }

    /** The cases for white space, comments and escapes. */
    method SpaceCase(c: char, ghost seen: Json) returns (act: Action)
      requires Valid(JsonHeap.Nil) && (InSpace(stack[depth].state) || InEscape(stack[depth].state))
      modifies this`scr, stack
      ensures Moved(Step(old(Abs()), seen, c), act)
    {
      hide JsonHeap.Arena, JsonHeap.Value, Good, Kept;
      hide EatwsStep, CommentStartStep, CommentStep, CommentEolStep, CommentEndStep, EscapedStep, UnicodeStep;
      match stack[depth].state
      case Eatws => act := EatwsCase(c);
      case CommentStart => act := CommentStartCase(c);
      case Comment => act := CommentCase(c);
      case CommentEol => act := CommentEolCase(c);
      case CommentEnd => act := CommentEndCase(c);
      case Escaped => act := EscapedCase(c);
      case EscapedUnicode => act := UnicodeCase(c);
    }

    /** The cases for keys and separators. */
    method KeyCase(c: char, ghost seen: Json) returns (act: Action)
      requires Valid(JsonHeap.Nil) && KeyState(stack[depth].state)
      modifies this`scr, stack
      ensures Moved(Step(old(Abs()), seen, c), act)
    {
      hide JsonHeap.Arena, JsonHeap.Value, Good, Kept;
      hide FieldStartStep, FieldStep, FieldEndStep, ArraySepStep, ObjectSepStep;
      match stack[depth].state
      case FieldStart => act := FieldStartCase(c);
      case Field => act := FieldCase(c);
      case FieldEnd => act := FieldEndCase(c);
      case ArraySep => act := ArraySepCase(c);
      case ObjectSep => act := ObjectSepCase(c);
    }

    /** The cases that make objects or open a level. */
    method ValueCase(c: char, ghost seen: Json) returns (act: Action)
      requires Valid(JsonHeap.Nil) && ValueState(stack[depth].state)
      modifies this`depth, this`trees, this`scr, stack, heap
      ensures Moved(Step(old(Abs()), seen, c), act)
    {
      hide JsonHeap.Arena, JsonHeap.Value, Good, Kept;
      hide StartStep, NullStep, BooleanStep, NumberStep, TextStep, ArrayStep, ObjectValueStep;
      match stack[depth].state
      case Start => act := StartCase(c);
      case NullWord => act := NullCase(c);
      case Boolean => act := BooleanCase(c);
      case Number => act := NumberCase(c);
      case Text => act := TextCase(c);
      case Array => act := ArrayCase(c);
      case ObjectValue => act := ObjectValueCase(c);
    }

    /** The cases that add the value in flight to its container. */
    method AddCase(obj: Ref, c: char, ghost inFlight: Tree) returns (act: Action)
      requires Valid(inFlight) && Adding(stack[depth].state) && obj == JsonHeap.RefOf(inFlight)
      modifies this`depth, this`trees, this`scr, stack, heap
      ensures Moved(Step(old(Abs()), JsonHeap.Value(inFlight), c), act)
    {
      hide JsonHeap.Arena, JsonHeap.Value, Good, Kept, ArrayAddStep, ObjectValueAddStep;
      if stack[depth].state == ArrayAdd {
        ArrayAddCase(obj, inFlight);
      } else {
        ObjectAddCase(obj, inFlight);
      }
      act := Redo;
    }

    /** One execution of the switch. `seen` is the machine's copy of `obj`. */
    method Switch(c: char, obj: Ref, ghost inFlight: Tree, ghost seen: Json)
        returns (act: Action, obj': Ref, ghost inFlight': Tree)
      requires Valid(inFlight) && Carries(obj, inFlight, seen)
      modifies this`depth, this`trees, this`scr, stack, heap
      ensures Valid(inFlight') && Abs() == JsonMachine.Switch(old(Abs()), seen, c).m
              && act == JsonMachine.Switch(old(Abs()), seen, c).act
      ensures Carries(obj', inFlight', JsonMachine.Switch(old(Abs()), seen, c).obj)
    {
      hide JsonHeap.Arena, JsonHeap.Value, Good, Step;
      obj', inFlight' := obj, JsonHeap.Nil;
      ghost var m := Abs();
      if Adding(stack[depth].state) {
        act := AddCase(obj, c, inFlight);
      } else if InSpace(stack[depth].state) || InEscape(stack[depth].state) {
        act := SpaceCase(c, seen);
      } else if KeyState(stack[depth].state) {
        act := KeyCase(c, seen);
      } else if stack[depth].state != Finish {
        OtherStates(stack[depth].state);
        act := ValueCase(c, seen);
      } else if depth == 0 {
        FinishIs(m, seen, c);
        act := Stop(Success);
      } else {
        FinishIs(m, seen, c);
        obj', inFlight' := FinishCase();
        act := Redo;
      }
    }

    /** In a state that adds, the local `obj` is the value in flight. */
    ghost predicate Carries(obj: Ref, inFlight: Tree, seen: Json)
      requires Shape()
      reads this`depth, this`trees, this`scr, stack, heap
    {
      Adding(stack[depth].state) ==> obj == JsonHeap.RefOf(inFlight) && seen == JsonHeap.Value(inFlight)
    }

    // -------------------------------------------------------------- whole calls

    /** Between characters nothing is in flight. */
    ghost predicate Between()
      reads this`depth, this`trees, this`scr, stack, heap
      ensures Between() ==> Shape() && Good(Abs())
    {
      Valid(JsonHeap.Nil) && !Adding(stack[depth].state)
    }

    lemma TopIs()
      requires Between()
      ensures depth < stack.Length && stack[depth].state == Abs().top.state && stack[depth].saved == Abs().top.saved
      ensures depth == 0 <==> Abs().below == []
    {
    }

    /** The redo_char loop on one character. */
    method FeedChar(c: char, obj: Ref, ghost seen: Json) returns (act: Action, obj': Ref)
      requires Between()
      modifies this`depth, this`trees, this`scr, stack, heap
      ensures Between()
      ensures Abs() == Feed(old(Abs()), seen, c).m && act == Feed(old(Abs()), seen, c).act
    {
      hide JsonHeap.Arena, JsonHeap.Value, JsonMachine.Switch, Good;
      ghost var inFlight: Tree, sight := JsonHeap.Nil, seen;
      ghost var o := Feed(Abs(), seen, c);
      obj' := obj;
      while true
        invariant Valid(inFlight) && Carries(obj', inFlight, sight)
        invariant Feed(Abs(), sight, c) == o
        decreases Rank(Abs().top)
      {
        ghost var sw := JsonMachine.Switch(Abs(), sight, c);
        act, obj', inFlight := Switch(c, obj', inFlight, sight);
        sight := sw.obj;
        if !act.Redo? {
          return;
        }
      }
    }

    /** The loop of json_tokener_parse_ex, up to its label out. */
    method ParseLoop(str: string, len: int)
      requires Between() && Readable(str, 0, len)
      modifies this, stack, heap
      ensures Between()
      ensures var p := ParseFrom(old(Abs()), Null, str, 0, len); Abs() == p.m && err == p.err && charOffset == p.offset
    {
      hide JsonHeap.Arena, JsonHeap.Value, Feed, Good, ParseFrom, LevelsOf, Shape, Abs, Valid, Between;
      charOffset, err := 0, Success;
      var obj: Ref, i: nat := None, 0;
      ghost var seen, p := Null, ParseFrom(Abs(), Null, str, 0, len);
      while true
        invariant i <= |str| && charOffset == i && err == Success && Readable(str, i, len)
        invariant Between()
        invariant ParseFrom(Abs(), seen, str, i, len) == p
        decreases |str| - i
      {
        if charOffset == len {
          ParseFromEnd(Abs(), seen, str, i);
          TopIs();
          err := if depth == 0 && stack[depth].state == Eatws && stack[depth].saved == Finish then Success
            else Continue;
          break;
        }
        var c := str[i];
        ghost var o := Feed(Abs(), seen, c);
        ParseFromStep(Abs(), seen, str, i, len);
        var act;
        act, obj := FeedChar(c, obj, seen);
        TopIs();
        if act.Stop? {
          err := act.err;
          break;
        }
        seen := o.obj;
        i := i + 1;
        charOffset := charOffset + 1;
        if c == NUL {
          if stack[depth].state != Finish && stack[depth].saved != Finish {
            err := Eof;
          }
          break;
        }
      }
    }

    /** json_tokener_parse_ex: on success the caller gets a reference of its own. */
    method ParseEx(str: string, len: int) returns (r: Ref)
      requires Between() && Readable(str, 0, len)
      modifies this, stack, heap
      ensures Shape() && Good(Abs())
      ensures var p := ParseFrom(old(Abs()), Null, str, 0, len); Abs() == p.m && err == p.err && charOffset == p.offset
      ensures r == if err == Success then JsonHeap.RefOf(trees[depth]) else None
      ensures Shared(heap.cells, trees, r)
    {
      hide JsonHeap.Arena, JsonHeap.Value, ParseFrom, Good;
      ParseLoop(str, len);
      JsonHeap.ArenaNil(heap.cells, trees);
      TopCell(heap.cells, trees);
      r := None;
      if err == Success {
        r := stack[depth].current;
        ghost var m := Abs();
        heap.Get(r);
        assert Abs() == m;
      }
    }

    /** json_tokener_reset_level on level i, which owns t: the rest of the heap stays, and so does the object if the
        caller has a reference to it. */
    method ResetLevel(i: nat, ghost t: Tree, ghost rest: JsonHeap.Cells, ghost extra: nat)
      requires i < stack.Length && heap.Valid() && stack[i].current == JsonHeap.RefOf(t) && (t.Nil? ==> extra == 0)
               && extra <= 1
      requires JsonHeap.Distinct(t) && rest.Keys !! JsonHeap.CellsOf(t).Keys
      requires heap.cells == JsonHeap.Counted(rest + JsonHeap.CellsOf(t), JsonHeap.RefOf(t), 1 + extra)
      modifies stack, heap
      ensures heap.Valid() && heap.cells == if extra == 0 then rest else rest + JsonHeap.CellsOf(t)
      ensures stack[i] == Cleared && forall k :: 0 <= k < stack.Length && k != i ==> stack[k] == old(stack[k])
    {
      hide JsonHeap.CellsOf, JsonHeap.Distinct, JsonHeap.Counted;
      JsonHeap.CountedOne(rest, t);
      heap.Put(stack[i].current, t, rest, extra);
      stack[i] := Cleared;
    }

    /** json_tokener_reset, as json_tokener_free calls it: puts the object of every level, from the top down. The
        caller's reference, if it has one, keeps the top level's object alive. */
    method Reset(ghost r: Ref)
      requires Shape() && Shared(heap.cells, trees, r) && (r == None || r == JsonHeap.RefOf(trees[depth]))
      modifies this, stack, heap
      ensures heap.Valid() && depth == 0 && err == Success && stack[0] == Cleared
      ensures heap.cells == if r == None then map[] else JsonHeap.CellsOf(old(trees)[old(depth)])
    {
      hide JsonHeap.CellsAll, JsonHeap.CellsOf, JsonHeap.Distinct, JsonHeap.DistinctAll, JsonHeap.Counted, LevelsOf,
           PlainTree, Shared;
      ghost var kept := if r == None then map[] else JsonHeap.CellsOf(trees[depth]);
      SharedTop(heap.cells, trees, r);
      ResetLevel(depth, trees[depth], JsonHeap.CellsAll(trees[..depth]), if r.Some? then 1 else 0);
      assert heap.cells == JsonHeap.CellsAll(trees[..depth]) + kept;
      var i: int := depth - 1;
      while i >= 0
        invariant -1 <= i < depth && heap.Valid() && stack.Length == MAX_DEPTH && |trees| == depth + 1 <= MAX_DEPTH
        invariant depth == old(depth) && trees == old(trees)
        invariant heap.cells == JsonHeap.CellsAll(trees[..i + 1]) + kept
        invariant JsonHeap.DistinctAll(trees[..i + 1]) && JsonHeap.CellsAll(trees[..i + 1]).Keys !! kept.Keys
        invariant forall k :: 0 <= k <= i ==> stack[k].current == JsonHeap.RefOf(trees[k])
        invariant i + 1 <= depth ==> stack[i + 1] == Cleared
      {
        OwnersLast(trees, i);
        assert heap.cells == (JsonHeap.CellsAll(trees[..i]) + kept) + JsonHeap.CellsOf(trees[i]);
        JsonHeap.CountedOne(JsonHeap.CellsAll(trees[..i]) + kept, trees[i]);
        ResetLevel(i, trees[i], JsonHeap.CellsAll(trees[..i]) + kept, 0);
        i := i - 1;
      }
      JsonHeap.CellsNone();
      assert trees[..0] == [];
      assert heap.cells == kept;
      depth, err := 0, Success;
    }
  }

  lemma OwnersLast(owners: seq<Tree>, i: nat)
    requires i < |owners| && JsonHeap.DistinctAll(owners[..i + 1])
    ensures JsonHeap.CellsAll(owners[..i + 1]) == JsonHeap.CellsAll(owners[..i]) + JsonHeap.CellsOf(owners[i])
    ensures JsonHeap.DistinctAll(owners[..i]) && JsonHeap.Distinct(owners[i])
    ensures JsonHeap.CellsAll(owners[..i]).Keys !! JsonHeap.CellsOf(owners[i]).Keys
  {
    hide JsonHeap.CellsAll, JsonHeap.CellsOf, JsonHeap.Distinct, JsonHeap.DistinctAll;
    assert owners[..i + 1] == owners[..i] + [owners[i]];
    JsonHeap.CellsAppend(owners[..i], [owners[i]]);
    JsonHeap.CellsOne(owners[i]);
  }

  lemma SharedTop(cells: JsonHeap.Cells, owners: seq<Tree>, r: Ref)
    requires owners != [] && Shared(cells, owners, r) && (r == None || r == JsonHeap.RefOf(owners[|owners| - 1]))
    ensures var k := |owners| - 1; var t := owners[k]; var rest := JsonHeap.CellsAll(owners[..k]);
            && JsonHeap.DistinctAll(owners[..k]) && JsonHeap.Distinct(t) && rest.Keys !! JsonHeap.CellsOf(t).Keys
            && cells == JsonHeap.Counted(rest + JsonHeap.CellsOf(t), JsonHeap.RefOf(t), if r.Some? then 2 else 1)
  {
    hide JsonHeap.CellsAll, JsonHeap.DistinctAll;
    var k := |owners| - 1;
    assert owners[..k + 1] == owners;
    OwnersLast(owners, k);
    JsonHeap.CellsOfIs(owners[k]);
  }

  lemma ParseFromEnd(m: Machine, obj: Json, str: string, i: nat)
    requires Good(m) && Readable(str, i, i)
    ensures ParseFrom(m, obj, str, i, i) == Parsed(m, AtLength(m), i)
  {
    hide Feed;
  }

  lemma ParseFromStep(m: Machine, obj: Json, str: string, i: nat, len: int)
    requires Good(m) && Readable(str, i, len) && i != len
    ensures i < |str| && (str[i] != NUL ==> Readable(str, i + 1, len))
    ensures var o := Feed(m, obj, str[i]);
            ParseFrom(m, obj, str, i, len) ==
              if o.act.Stop? then Parsed(o.m, o.act.err, i)
              else if str[i] == NUL then Parsed(o.m, AtNul(o.m), i + 1)
              else ParseFrom(o.m, o.obj, str, i + 1, len)
  {
    hide Feed;
  }

  /** The heap of the owners, with one more reference to r. */
  ghost predicate Shared(cells: JsonHeap.Cells, owners: seq<Tree>, r: Ref) {
    && (r.Some? ==> r.value in JsonHeap.CellsAll(owners))
    && JsonHeap.DistinctAll(owners)
    && cells == JsonHeap.Counted(JsonHeap.CellsAll(owners), r, 2)
  }

  lemma TopCell(cells: JsonHeap.Cells, owners: seq<Tree>)
    requires owners != [] && JsonHeap.Arena(cells, owners)
    ensures var t := owners[|owners| - 1];
            && cells == JsonHeap.CellsAll(owners) && JsonHeap.DistinctAll(owners)
            && (!t.Nil? ==> t.id in cells && cells[t.id] == JsonHeap.Cell(1, JsonHeap.NodeOf(t)))
  {
    hide JsonHeap.CellsAll, JsonHeap.CellsOf, JsonHeap.Distinct, JsonHeap.DistinctAll;
    var k := |owners| - 1;
    assert owners == owners[..k] + [owners[k]];
    JsonHeap.ArenaRest(cells, owners[..k], owners[k]);
  }

  predicate KeyState(s: State) { s.FieldStart? || s.Field? || s.FieldEnd? || s.ArraySep? || s.ObjectSep? }

  predicate ValueState(s: State) {
    s.Start? || s.NullWord? || s.Boolean? || s.Number? || s.Text? || s.Array? || s.ObjectValue?
  }

  lemma OtherStates(s: State)
    ensures InSpace(s) || InEscape(s) || KeyState(s) || Adding(s) || s.Finish? || ValueState(s)
  {
  }

  lemma FinishIs(m: Machine, seen: Json, c: char)
    requires Good(m) && m.top.state == Finish
    ensures Step(m, seen, c) == FinishStep(m)
    ensures m.below == [] ==> FinishStep(m) == Move(m, Stop(Success))
    ensures m.below != [] ==> Adding(FinishStep(m).m.top.state)
  {
  }

  lemma BranchOf(t: Tree)
    requires PlainTree(t) && JsonHeap.Value(t).Arr?
    ensures t.Branch?
  {
  }

  lemma KeyedOf(t: Tree)
    requires PlainTree(t) && JsonHeap.Value(t).Obj?
    ensures t.Keyed?
  {
  }

  lemma WithFieldIs(t: Tree, key: string, x: Tree)
    requires t.Keyed? && |t.keys| == |t.kids|
    ensures JsonHeap.WithField(t, key, x).Keyed? && JsonHeap.WithField(t, key, x).id == t.id
  {
  }

  /** What a level's object looks like from outside: entries match, keys are unique, scalars are scalars. */
  ghost predicate PlainTree(t: Tree) {
    && (t.Keyed? ==> |t.keys| == |t.kids| && JsonHeap.UniqueKeys(t.keys))
    && (t.Leaf? ==> !t.v.Arr? && !t.v.Obj? && !t.v.Null?)
  }

  /** A scalar, or an empty container. */
  ghost predicate NewNode(node: JsonHeap.Node, v: Json) {
    match node
    case Scalar(x) => v == x && !x.Arr? && !x.Obj? && !x.Null?
    case Elems(refs) => refs == [] && v == Arr([])
    case Fields(keys, refs) => keys == [] && refs == [] && v == Obj([])
  }

  ghost function TreeFor(node: JsonHeap.Node, id: nat): Tree {
    match node
    case Scalar(x) => JsonHeap.Leaf(id, x)
    case Elems(_) => JsonHeap.Branch(id, [])
    case Fields(_, _) => JsonHeap.Keyed(id, [], [])
  }

  lemma NewTree(node: JsonHeap.Node, v: Json, id: nat)
    requires NewNode(node, v)
    ensures var t := TreeFor(node, id);
            && !t.Nil? && t.id == id && JsonHeap.Kids(t) == [] && (t.Keyed? ==> t.keys == []) && PlainTree(t)
            && JsonHeap.NodeOf(t) == node && JsonHeap.Value(t) == v
  {
  }

  // ---------------------------------------------------------------- json_tokener_parse

  /** json_tokener_parse: an error leaves no object alive; success leaves just the returned tree, every object in it
      with count one, and it is the value the machine computes. */
  method Parse(text: string) returns (err: Error, r: Ref, heap: JsonHeap.Heap, ghost t: Tree)
    ensures err == ParseText(text).err && heap.Valid()
    ensures err != Success ==> r == None && heap.cells == map[]
    ensures err == Success ==> r == JsonHeap.RefOf(t) && heap.cells == JsonHeap.CellsOf(t) && JsonHeap.Distinct(t)
    ensures err == Success ==> JsonHeap.Value(t) == ParseText(text).Value()
  {
    hide JsonHeap.Arena, JsonHeap.Value, JsonHeap.CellsOf, JsonHeap.Distinct, ParseFrom, Good;
    heap := new JsonHeap.Heap();
    var tok := new Tokener(heap);
    var str := text + [NUL];
    assert str[|text|] == NUL;
    r := tok.ParseEx(str, -1);
    err := tok.err;
    t := tok.trees[tok.depth];
    SharedTop(heap.cells, tok.trees, r);
    JsonHeap.CellsOfIs(t);
    tok.Reset(r);
    if t.Nil? {
      NilCells();
    }
  }

  lemma NilCells()
    ensures JsonHeap.CellsOf(JsonHeap.Nil) == map[]
  {
  }
}
