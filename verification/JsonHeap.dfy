/** Reference-counted JSON objects (`json_object.c`): allocation, `json_object_get` and `json_object_put`, and
    adding to containers. Every object has one owner; the heap is exactly the trees of its owners. */
module JsonHeap {
  import opened Wrappers
  import opened OrderedMap
  import opened JsonValue

  /** A `struct json_object*`; None is NULL. */
  type Ref = Option<nat>

  datatype Node = Scalar(v: Json) | Elems(refs: seq<Ref>) | Fields(keys: seq<string>, refs: seq<Ref>)

  datatype Cell = Cell(count: int, node: Node)

  type Cells = map<nat, Cell>

  /** An object with everything it owns. */
  datatype Tree =
    | Nil
    | Leaf(id: nat, v: Json)
    | Branch(id: nat, kids: seq<Tree>)
    | Keyed(id: nat, keys: seq<string>, kids: seq<Tree>)

  function RefOf(t: Tree): Ref { if t.Nil? then None else Some(t.id) }

  function Refs(ts: seq<Tree>): (r: seq<Ref>)
    ensures |r| == |ts| && forall i :: 0 <= i < |ts| ==> r[i] == RefOf(ts[i])
  {
    seq(|ts|, i requires 0 <= i < |ts| => RefOf(ts[i]))
  }

  /** The JSON value an object stands for. */
  function Value(t: Tree): Json
    decreases t, 0
  {
    match t
    case Nil => Null
    case Leaf(_, v) => v
    case Branch(_, kids) => Arr(Values(kids))
    case Keyed(_, keys, kids) => Obj(Zip(keys, Values(kids)))
  }

  function Values(ts: seq<Tree>): (vs: seq<Json>)
    ensures |vs| == |ts|
    decreases ts, 1
  {
    if ts == [] then [] else [Value(ts[0])] + Values(ts[1..])
  }

  function Zip(keys: seq<string>, vs: seq<Json>): seq<(string, Json)> {
    if |keys| == 0 || |vs| == 0 then [] else [(keys[0], vs[0])] + Zip(keys[1..], vs[1..])
  }

  function NodeOf(t: Tree): Node {
    match t
    case Nil => Scalar(Null)
    case Leaf(_, v) => Scalar(v)
    case Branch(_, kids) => Elems(Refs(kids))
    case Keyed(_, keys, kids) => Fields(keys, Refs(kids))
  }

  function Kids(t: Tree): seq<Tree> {
    match t
    case Branch(_, kids) => kids
    case Keyed(_, _, kids) => kids
    case _ => []
  }

  /** The cells of an object and all it owns, each with count one. */
  function CellsOf(t: Tree): Cells
    decreases t, 0
  {
    match t
    case Nil => map[]
    case Leaf(id, _) => map[id := Cell(1, NodeOf(t))]
    case Branch(id, kids) => CellsAll(kids)[id := Cell(1, NodeOf(t))]
    case Keyed(id, _, kids) => CellsAll(kids)[id := Cell(1, NodeOf(t))]
  }

  function CellsAll(ts: seq<Tree>): Cells
    decreases ts, 1
  {
    if ts == [] then map[] else CellsOf(ts[0]) + CellsAll(ts[1..])
  }

  /** No object occurs twice. */
  ghost predicate Distinct(t: Tree)
    decreases t, 0
  {
    match t
    case Nil => true
    case Leaf(_, _) => true
    case Branch(id, kids) => DistinctAll(kids) && id !in CellsAll(kids)
    case Keyed(id, keys, kids) => DistinctAll(kids) && id !in CellsAll(kids) && |keys| == |kids|
  }

  ghost predicate DistinctAll(ts: seq<Tree>)
    decreases ts, 1
  {
    ts == [] || (Distinct(ts[0]) && DistinctAll(ts[1..]) && CellsOf(ts[0]).Keys !! CellsAll(ts[1..]).Keys)
  }

  /** The heap holds the trees of its owners and nothing else. */
  ghost predicate Arena(cells: Cells, owners: seq<Tree>) { DistinctAll(owners) && cells == CellsAll(owners) }

  // ---------------------------------------------------------------- lists of trees

  lemma {:induction false} CellsAppend(a: seq<Tree>, b: seq<Tree>)
    ensures CellsAll(a + b) == CellsAll(a) + CellsAll(b)
    ensures DistinctAll(a + b) <==> DistinctAll(a) && DistinctAll(b) && CellsAll(a).Keys !! CellsAll(b).Keys
  {
    if a == [] {
      assert a + b == b;
    } else {
      assert (a + b)[1..] == a[1..] + b;
      CellsAppend(a[1..], b);
    }
  }

  lemma CellsOne(t: Tree)
    ensures CellsAll([t]) == CellsOf(t) && (DistinctAll([t]) <==> Distinct(t))
  {
    assert [t][1..] == [];
    assert CellsOf(t) + map[] == CellsOf(t);
  }

  /** The heap with the last owner apart. */
  lemma ArenaLast(cells: Cells, owners: seq<Tree>, t: Tree)
    ensures Arena(cells, owners + [t]) <==>
            && DistinctAll(owners) && Distinct(t) && CellsAll(owners).Keys !! CellsOf(t).Keys
            && cells == CellsAll(owners) + CellsOf(t)
  {
    CellsAppend(owners, [t]);
    CellsOne(t);
  }

  lemma {:induction false} ValuesAppend(a: seq<Tree>, b: seq<Tree>)
    ensures Values(a + b) == Values(a) + Values(b)
  {
    if a == [] {
      assert a + b == b;
    } else {
      assert (a + b)[1..] == a[1..] + b;
      ValuesAppend(a[1..], b);
    }
  }

  lemma CellsOfIs(t: Tree)
    ensures !t.Nil? ==> CellsOf(t) == CellsAll(Kids(t))[t.id := Cell(1, NodeOf(t))]
    ensures !t.Nil? && Distinct(t) ==> t.id !in CellsAll(Kids(t)) && DistinctAll(Kids(t))
  {
  }

  /** The cells with n references to r. */
  function Counted(cells: Cells, r: Ref, n: int): Cells {
    if r.Some? && r.value in cells then cells[r.value := Cell(n, cells[r.value].node)] else cells
  }

  /** An owned object has one. */
  lemma CountedOne(rest: Cells, t: Tree)
    requires Distinct(t)
    ensures Counted(rest + CellsOf(t), RefOf(t), 1) == rest + CellsOf(t)
  {
    hide CellsAll;
    CellsOfIs(t);
  }

  // ---------------------------------------------------------------- the heap

  class Heap {
    var cells: Cells
    var next: nat

    ghost predicate Valid()
      reads this
    {
      forall i :: i in cells ==> i < next
    }

    constructor ()
      ensures Valid() && cells == map[]
    {
      cells, next := map[], 0;
    }

    /** json_object_new */
    method New(node: Node) returns (r: Ref)
      requires Valid()
      modifies this
      ensures Valid() && r.Some? && r.value !in old(cells) && cells == old(cells)[r.value := Cell(1, node)]
    {
      cells := cells[next := Cell(1, node)];
      r := Some(next);
      next := next + 1;
    }

    /** json_object_get */
    method Get(r: Ref)
      requires Valid() && (r.Some? ==> r.value in cells)
      modifies this`cells
      ensures Valid()
      ensures cells == if r == None then old(cells) else Counted(old(cells), r, old(cells)[r.value].count + 1)
    {
      if r.Some? {
        var c := cells[r.value];
        cells := cells[r.value := Cell(c.count + 1, c.node)];
      }
    }

    /** json_object_put, of an object with `extra` more references than its owner's: one reference goes, and with
        the last one the object and everything it owns. */
    method Put(r: Ref, ghost t: Tree, ghost rest: Cells, ghost extra: nat)
      requires Valid() && r == RefOf(t) && Distinct(t) && rest.Keys !! CellsOf(t).Keys && (r == None ==> extra == 0)
      requires cells == Counted(rest + CellsOf(t), r, 1 + extra)
      modifies this`cells
      ensures Valid() && cells == if extra == 0 then rest else Counted(rest + CellsOf(t), r, extra)
      decreases t
    {
      hide CellsAll, DistinctAll;
      CellsOfIs(t);
      if r == None {
        assert rest + map[] == rest;
        return;
      }
      var c := cells[r.value];
      var count := c.count - 1;
      ghost var kids := Kids(t);
      cells := cells[r.value := Cell(count, c.node)];
      if count == 0 {
        ghost var rest1 := rest[r.value := Cell(0, c.node)];
        assert cells == rest1 + CellsAll(kids);
        match c.node {
          case Scalar(_) =>
            assert cells == rest1;
          case Elems(refs) => PutAll(refs, kids, rest1);
          case Fields(_, refs) => PutAll(refs, kids, rest1);
        }
        cells := cells - {r.value};
        assert cells == rest;
      }
    }

    /** A reference taken and the owner's put: the object stays, with one. */
    method GetAndPut(r: Ref, ghost t: Tree, ghost rest: Cells)
      requires Valid() && r == RefOf(t) && Distinct(t) && rest.Keys !! CellsOf(t).Keys && cells == rest + CellsOf(t)
      modifies this`cells
      ensures Valid() && cells == old(cells)
    {
      hide CellsAll, DistinctAll, Distinct;
      CellsOfIs(t);
      CountedOne(rest, t);
      Get(r);
      assert r == None ==> rest + map[] == rest;
      Put(r, t, rest, if r.Some? then 1 else 0);
    }

    /** array_list_free and lh_table_free: puts every entry. */
    method PutAll(refs: seq<Ref>, ghost ts: seq<Tree>, ghost rest: Cells)
      requires Valid() && refs == Refs(ts) && DistinctAll(ts) && rest.Keys !! CellsAll(ts).Keys
      requires cells == rest + CellsAll(ts)
      modifies this`cells
      ensures Valid() && cells == rest
      decreases ts
    {
      hide CellsAll, CellsOf, Distinct, DistinctAll;
      var i := 0;
      assert ts[0..] == ts;
      while i < |refs|
        invariant 0 <= i <= |refs| && Valid()
        invariant DistinctAll(ts[i..]) && rest.Keys !! CellsAll(ts[i..]).Keys && cells == rest + CellsAll(ts[i..])
      {
        Uncons(ts, i);
        assert cells == (rest + CellsAll(ts[i + 1..])) + CellsOf(ts[i]);
        CountedOne(rest + CellsAll(ts[i + 1..]), ts[i]);
        Put(refs[i], ts[i], rest + CellsAll(ts[i + 1..]), 0);
        i := i + 1;
      }
      assert ts[i..] == [];
      CellsNone();
      assert cells == rest;
    }

    /** json_object_array_add */
    method ArrayAdd(r: Ref, x: Ref, ghost front: seq<Tree>, ghost t: Tree, ghost xt: Tree)
      requires Valid() && t.Branch? && r == RefOf(t) && x == RefOf(xt) && Arena(cells, front + [t] + [xt])
      modifies this`cells
      ensures Valid() && Arena(cells, front + [Branch(t.id, t.kids + [xt])])
    {
      hide CellsAll, CellsOf, Distinct, DistinctAll, Arena;
      ghost var u := Branch(t.id, t.kids + [xt]);
      Adopt(cells, front, t, xt, u);
      var c := cells[r.value];
      assert c.node.refs + [x] == Refs(u.kids);
      cells := cells[r.value := Cell(c.count, Elems(c.node.refs + [x]))];
    }

    /** json_object_object_add: a value already there under the key is put, and the new one goes to the end. */
    method ObjectAdd(r: Ref, key: string, x: Ref, ghost front: seq<Tree>, ghost t: Tree, ghost xt: Tree)
      requires Valid() && t.Keyed? && |t.keys| == |t.kids| && r == RefOf(t) && x == RefOf(xt)
               && Arena(cells, front + [t] + [xt])
      modifies this`cells
      ensures Valid() && Arena(cells, front + [WithField(t, key, xt)])
    {
      hide CellsAll, CellsOf, Distinct, DistinctAll, Arena;
      ghost var u := Without(t, key);
      OwnerCell(cells, front, t, xt);
      var c := cells[r.value];
      var k := IndexOf(c.node.keys, key);
      if k < |c.node.keys| {
        CutOut(cells, front, t, xt, k);
        var keys, refs := Cut(c.node.keys, k), Cut(c.node.refs, k);
        assert refs == Refs(u.kids);
        ghost var rest := cells[r.value := Cell(c.count, Fields(keys, refs))] - CellsOf(t.kids[k]).Keys;
        cells := cells[r.value := Cell(c.count, Fields(keys, refs))];
        CountedOne(rest, t.kids[k]);
        Put(c.node.refs[k], t.kids[k], rest, 0);
        OwnerCell(cells, front, u, xt);
        c := cells[r.value];
      }
      ghost var w := WithField(t, key, xt);
      Adopt(cells, front, u, xt, w);
      assert c.node.refs + [x] == Refs(w.kids);
      cells := cells[r.value := Cell(c.count, Fields(c.node.keys + [key], c.node.refs + [x]))];
    }
  }

  function IndexOf(keys: seq<string>, key: string): (k: nat)
    ensures k <= |keys| && (k < |keys| ==> keys[k] == key) && forall i :: 0 <= i < k ==> keys[i] != key
  {
    if keys == [] || keys[0] == key then 0 else
      var k := IndexOf(keys[1..], key) + 1;
      assert forall i :: 0 < i < k ==> keys[i] == keys[1..][i - 1];
      k
  }

  /** An object without the entry for the key, if it has one. */
  function Without(t: Tree, key: string): Tree
    requires t.Keyed? && |t.keys| == |t.kids|
  {
    var k := IndexOf(t.keys, key);
    if k < |t.keys| then Keyed(t.id, Cut(t.keys, k), Cut(t.kids, k)) else t
  }

  function WithField(t: Tree, key: string, x: Tree): Tree
    requires t.Keyed? && |t.keys| == |t.kids|
  {
    var u := Without(t, key);
    Keyed(u.id, u.keys + [key], u.kids + [x])
  }

  lemma Uncons(ts: seq<Tree>, i: nat)
    requires i < |ts| && DistinctAll(ts[i..])
    ensures CellsAll(ts[i..]) == CellsOf(ts[i]) + CellsAll(ts[i + 1..])
    ensures Distinct(ts[i]) && DistinctAll(ts[i + 1..]) && CellsOf(ts[i]).Keys !! CellsAll(ts[i + 1..]).Keys
  {
    assert ts[i..][1..] == ts[i + 1..];
  }

  lemma CellsNone()
    ensures CellsAll([]) == map[] && DistinctAll([])
  {
  }

  /** Two owners at the end: the second becomes the last child of the first. */
  lemma Adopt(cells: Cells, front: seq<Tree>, t: Tree, x: Tree, u: Tree)
    requires !t.Nil? && !u.Nil? && t.id == u.id && Kids(u) == Kids(t) + [x] && Arena(cells, front + [t] + [x])
    requires u.Keyed? ==> |u.keys| == |u.kids|
    ensures t.id in cells && cells[t.id] == Cell(1, NodeOf(t))
    ensures Arena(cells[t.id := Cell(1, NodeOf(u))], front + [u])
  {
    hide CellsAll, DistinctAll;
    ArenaLast(cells, front + [t], x);
    ArenaLast(CellsAll(front + [t]), front, t);
    var cells1 := cells[t.id := Cell(1, NodeOf(u))];
    ArenaLast(cells1, front, u);
    CellsOfIs(t);
    CellsOfIs(u);
    CellsAppend(Kids(t), [x]);
    CellsOne(x);
    assert cells1 == CellsAll(front) + CellsOf(u);
  }

  lemma OwnerCell(cells: Cells, front: seq<Tree>, t: Tree, x: Tree)
    requires !t.Nil? && Arena(cells, front + [t] + [x])
    ensures t.id in cells && cells[t.id] == Cell(1, NodeOf(t)) && Distinct(t)
  {
    hide CellsAll, DistinctAll;
    ArenaLast(cells, front + [t], x);
    ArenaLast(CellsAll(front + [t]), front, t);
    CellsOfIs(t);
  }

  lemma CellsCut(ts: seq<Tree>, k: nat)
    requires k < |ts| && DistinctAll(ts)
    ensures CellsAll(ts) == CellsAll(Cut(ts, k)) + CellsOf(ts[k]) && DistinctAll(Cut(ts, k)) && Distinct(ts[k])
    ensures CellsAll(Cut(ts, k)).Keys !! CellsOf(ts[k]).Keys
  {
    hide CellsAll, DistinctAll, Distinct, CellsOf;
    var a, b := ts[..k], ts[k + 1..];
    assert ts == a + ([ts[k]] + b);
    CellsAppend(a, [ts[k]] + b);
    CellsAppend([ts[k]], b);
    CellsAppend(a, b);
    CellsOne(ts[k]);
  }

  /** Taking the k-th child out of the last but one owner leaves the child's cells to be freed. */
  lemma CutOut(cells: Cells, front: seq<Tree>, t: Tree, x: Tree, k: nat)
    requires t.Keyed? && |t.keys| == |t.kids| && k < |t.kids| && Arena(cells, front + [t] + [x])
    ensures var u := Keyed(t.id, Cut(t.keys, k), Cut(t.kids, k));
            var cells1 := cells[t.id := Cell(1, NodeOf(u))];
            var rest := cells1 - CellsOf(t.kids[k]).Keys;
            && Distinct(t.kids[k]) && rest.Keys !! CellsOf(t.kids[k]).Keys && cells1 == rest + CellsOf(t.kids[k])
            && Arena(rest, front + [u] + [x])
  {
    hide CellsAll, DistinctAll;
    var u := Keyed(t.id, Cut(t.keys, k), Cut(t.kids, k));
    ArenaLast(cells, front + [t], x);
    ArenaLast(CellsAll(front + [t]), front, t);
    CellsOfIs(t);
    CellsOfIs(u);
    CellsCut(t.kids, k);
    CutCells(CellsAll(front), CellsAll(u.kids), CellsOf(t.kids[k]), CellsOf(x), t.id, Cell(1, NodeOf(t)),
             Cell(1, NodeOf(u)));
    var rest := cells[t.id := Cell(1, NodeOf(u))] - CellsOf(t.kids[k]).Keys;
    ArenaLast(rest, front + [u], x);
    ArenaLast(CellsAll(front + [u]), front, u);
    CellsAppend(front, [u]);
    CellsOne(u);
  }

  /** The same on the maps alone. */
  lemma CutCells(f: Cells, a: Cells, kid: Cells, x: Cells, id: nat, before: Cell, after: Cell)
    requires id !in f && id !in a && id !in kid && id !in x
    requires f.Keys !! a.Keys && f.Keys !! kid.Keys && a.Keys !! kid.Keys && x.Keys !! f.Keys && x.Keys !! a.Keys
             && x.Keys !! kid.Keys
    ensures var cells1 := (f + (a + kid)[id := before] + x)[id := after];
            && cells1 - kid.Keys == f + a[id := after] + x
            && cells1 == (cells1 - kid.Keys) + kid
  {
    var cells1 := (f + (a + kid)[id := before] + x)[id := after];
    assert cells1 == f + a[id := after] + x + kid;
  }

  // ---------------------------------------------------------------- values

  lemma BranchValue(t: Tree, x: Tree)
    requires t.Branch?
    ensures Value(Branch(t.id, t.kids + [x])) == Arr(Value(t).elems + [Value(x)])
  {
    ValuesAppend(t.kids, [x]);
    assert [x][1..] == [];
    assert Values([x]) == [Value(x)];
  }

  ghost predicate UniqueKeys(keys: seq<string>) { forall i, j :: 0 <= i < j < |keys| ==> keys[i] != keys[j] }

  lemma {:induction false} ZipIs(keys: seq<string>, vs: seq<Json>)
    requires |keys| == |vs|
    ensures |Zip(keys, vs)| == |keys| && forall i :: 0 <= i < |keys| ==> Zip(keys, vs)[i] == (keys[i], vs[i])
  {
    if keys != [] {
      ZipIs(keys[1..], vs[1..]);
      assert forall i :: 0 < i < |keys| ==> keys[i] == keys[1..][i - 1] && vs[i] == vs[1..][i - 1];
    }
  }

  lemma {:induction false} ValuesAt(ts: seq<Tree>, i: nat)
    requires i < |ts|
    ensures Values(ts)[i] == Value(ts[i])
  {
    if i > 0 {
      ValuesAt(ts[1..], i - 1);
    }
  }

  lemma ValuesCut(ts: seq<Tree>, k: nat)
    requires k < |ts|
    ensures Values(Cut(ts, k)) == Cut(Values(ts), k)
  {
    hide Value, Values;
    ValuesAppend(ts[..k], ts[k + 1..]);
    forall i | 0 <= i < |ts| - 1 ensures Values(Cut(ts, k))[i] == Cut(Values(ts), k)[i] {
      ValuesAt(Cut(ts, k), i);
      ValuesAt(ts, if i < k then i else i + 1);
    }
  }

  /** Adding a field is an ordered-map update, and keys stay unique. */
  lemma WithFieldValue(t: Tree, key: string, x: Tree)
    requires t.Keyed? && |t.keys| == |t.kids| && UniqueKeys(t.keys)
    ensures var w := WithField(t, key, x);
            && Value(w) == Obj(Put(Value(t).fields, key, Value(x)))
            && UniqueKeys(w.keys) && |w.keys| == |w.kids|
  {
    hide Value, Values;
    ValueIs(t);
    var u := Without(t, key);
    ValueIs(u);
    WithoutValue(t, key);
    var w := WithField(t, key, x);
    ValueIs(w);
    ValuesAppend(u.kids, [x]);
    assert Values([x]) == [Value(x)] by { ValuesAt([x], 0); }
    ZipIs(u.keys, Values(u.kids));
    ZipIs(w.keys, Values(w.kids));
    assert Zip(w.keys, Values(w.kids)) == Zip(u.keys, Values(u.kids)) + [(key, Value(x))];
  }

  lemma ValueIs(t: Tree)
    requires t.Keyed?
    ensures Value(t) == Obj(Zip(t.keys, Values(t.kids)))
  {
  }

  lemma WithoutValue(t: Tree, key: string)
    requires t.Keyed? && |t.keys| == |t.kids| && UniqueKeys(t.keys)
    ensures var u := Without(t, key);
            && UniqueKeys(u.keys) && |u.keys| == |u.kids| && (forall i :: 0 <= i < |u.keys| ==> u.keys[i] != key)
            && Zip(u.keys, Values(u.kids)) == Remove(Zip(t.keys, Values(t.kids)), key)
  {
    hide Value, Values, Zip, Remove, IndexOf;
    var k, vs := IndexOf(t.keys, key), Values(t.kids);
    ZipIs(t.keys, vs);
    var fields := Zip(t.keys, vs);
    if k < |t.keys| {
      ValuesCut(t.kids, k);
      ZipCut(t.keys, vs, k);
      RemoveAt(fields, k);
    } else {
      RemoveAbsent(fields, key);
    }
  }

  lemma ZipCut(keys: seq<string>, vs: seq<Json>, k: nat)
    requires k < |keys| == |vs|
    ensures |Zip(keys, vs)| == |keys| && Zip(Cut(keys, k), Cut(vs, k)) == Zip(keys, vs)[..k] + Zip(keys, vs)[k + 1..]
  {
    hide Zip;
    ZipIs(keys, vs);
    ZipIs(Cut(keys, k), Cut(vs, k));
    var z, c := Zip(keys, vs), Zip(Cut(keys, k), Cut(vs, k));
    forall i | 0 <= i < |keys| - 1 ensures c[i] == (z[..k] + z[k + 1..])[i] {
    }
  }

  // ---------------------------------------------------------------- owners

  /** NULL owns nothing. */
  lemma ArenaNil(cells: Cells, owners: seq<Tree>)
    ensures Arena(cells, owners + [Nil]) <==> Arena(cells, owners)
  {
    ArenaLast(cells, owners, Nil);
    assert CellsAll(owners) + map[] == CellsAll(owners);
  }

  /** A new object under the last owner, which had none. */
  lemma ArenaNew(cells: Cells, owners: seq<Tree>, t: Tree)
    requires Arena(cells, owners + [Nil]) && !t.Nil? && t.id !in cells && Kids(t) == [] && (t.Keyed? ==> t.keys == [])
    ensures Arena(cells[t.id := Cell(1, NodeOf(t))], owners + [t])
  {
    ArenaNil(cells, owners);
    var cells1 := cells[t.id := Cell(1, NodeOf(t))];
    ArenaLast(cells1, owners, t);
    CellsOfIs(t);
    assert cells1 == CellsAll(owners) + CellsOf(t);
  }

  /** Once the last owner has put its object, the others are left. */
  lemma ArenaRest(cells: Cells, owners: seq<Tree>, t: Tree)
    requires Arena(cells, owners + [t])
    ensures Distinct(t) && CellsAll(owners).Keys !! CellsOf(t).Keys && cells == CellsAll(owners) + CellsOf(t)
    ensures Arena(CellsAll(owners), owners)
    ensures !t.Nil? ==> t.id in cells && cells[t.id] == Cell(1, NodeOf(t))
  {
    ArenaLast(cells, owners, t);
    CellsOfIs(t);
  }
}
