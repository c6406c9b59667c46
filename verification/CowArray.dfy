/** Ruby arrays with copy-on-write sharing (`array.c`): embedded, owned and shared storage, share counts,
    and the operations on them. Each array must behave as an independent sequence. */
module CowArray {
  import opened Wrappers

  const EMBED_MAX: nat := 3
  const DEFAULT_SIZE: nat := 16
  const MAX_SIZE: nat := 0xfff_ffff_ffff_ffff // LONG_MAX / sizeof(VALUE)

  datatype Value = Nil | Object(id: int)

  /** An array object: storage inside the object, a malloc'd block of its own, or a window into the block
      of a shared root. */
  datatype Ary =
    | Embed(slots: seq<Value>, len: nat)
    | Own(buf: nat, len: nat)
    | Shared(buf: nat, off: nat, len: nat, root: nat)

  /** A frozen shared root: its block and its share count. */
  datatype Root = Root(buf: nat, num: int)

  function Sharers(arys: map<nat, Ary>, r: nat): set<nat> {
    set a | a in arys && arys[a].Shared? && arys[a].root == r
  }

  /** Every array's storage exists and holds its elements; an owned block has one owner; a shared window
      lies in its root's block; a root counts at least the arrays that point into it. */
  ghost predicate Inv(bufs: map<nat, seq<Value>>, arys: map<nat, Ary>, roots: map<nat, Root>) {
    && (forall a :: a in arys ==> Stored(bufs, roots, arys[a]))
    && (forall a, b ::
          a in arys && b in arys && arys[a].Own? && !arys[b].Embed? && arys[b].buf == arys[a].buf ==> a == b)
    && (forall a, r :: a in arys && r in roots && arys[a].Own? ==> arys[a].buf != roots[r].buf)
    && (forall r, q :: r in roots && q in roots && roots[r].buf == roots[q].buf ==> r == q)
    && (forall r :: r in roots ==> roots[r].buf in bufs && roots[r].num >= |Sharers(arys, r)|)
  }

  ghost predicate Stored(bufs: map<nat, seq<Value>>, roots: map<nat, Root>, x: Ary) {
    match x
    case Embed(slots, len) => |slots| == EMBED_MAX && len <= EMBED_MAX
    case Own(buf, len) => buf in bufs && len <= |bufs[buf]|
    case Shared(buf, off, len, root) =>
      buf in bufs && off + len <= |bufs[buf]| && root in roots && roots[root].buf == buf
  }

  /** The elements of an array. */
  function Elems(bufs: map<nat, seq<Value>>, x: Ary): (s: seq<Value>)
    requires match x
             case Embed(slots, len) => len <= |slots|
             case Own(buf, len) => buf in bufs && len <= |bufs[buf]|
             case Shared(buf, off, len, _) => buf in bufs && off + len <= |bufs[buf]|
    ensures |s| == x.len
  {
    match x
    case Embed(slots, len) => slots[..len]
    case Own(buf, len) => bufs[buf][..len]
    case Shared(buf, off, len, _) => bufs[buf][off..off + len]
  }

  // ---------------------------------------------------------------- share counts

  lemma SharersUnshared(arys: map<nat, Ary>, a: nat, x: Ary, r: nat)
    requires a in arys && !x.Shared?
    ensures Sharers(arys[a := x], r) == Sharers(arys, r) - {a}
    ensures |Sharers(arys[a := x], r)| == |Sharers(arys, r)| - (if arys[a].Shared? && arys[a].root == r then 1 else 0)
  {
    assert Sharers(arys[a := x], r) == Sharers(arys, r) - {a};
  }

  lemma SharersNew(arys: map<nat, Ary>, a: nat, x: Ary, r: nat)
    requires x.Shared? && (a in arys ==> !arys[a].Shared?)
    ensures |Sharers(arys[a := x], r)| == |Sharers(arys, r)| + (if x.root == r then 1 else 0)
  {
    assert Sharers(arys[a := x], r) == Sharers(arys, r) + (if x.root == r then {a} else {});
  }

  /** No array but a, and no root, uses block b. */
  ghost predicate UsedOnlyBy(arys: map<nat, Ary>, roots: map<nat, Root>, b: nat, a: nat) {
    && (forall c :: c in arys && c != a && !arys[c].Embed? ==> arys[c].buf != b)
    && (forall r :: r in roots ==> roots[r].buf != b)
  }

  /** Giving a storage of its own keeps the invariant, and leaves a share to be returned. */
  lemma InvUnshared(bufs: map<nat, seq<Value>>, arys: map<nat, Ary>, roots: map<nat, Root>, a: nat, x: Ary)
    requires Inv(bufs, arys, roots) && !x.Shared? && Stored(bufs, roots, x)
    requires x.Own? ==> UsedOnlyBy(arys, roots, x.buf, a)
    ensures Inv(bufs, arys[a := x], roots)
    ensures a in arys && arys[a].Shared? ==> roots[arys[a].root].num > |Sharers(arys[a := x], arys[a].root)|
  {
    var arys1 := arys[a := x];
    forall r | r in roots ensures roots[r].num >= |Sharers(arys1, r)| {
      if a in arys {
        SharersUnshared(arys, a, x, r);
      } else {
        assert Sharers(arys1, r) == Sharers(arys, r);
      }
    }
    if a in arys && arys[a].Shared? {
      SharersUnshared(arys, a, x, arys[a].root);
    }
  }

  /** rb_ary_set_shared: points a into a root's block and raises the root's count. */
  lemma InvNewShare(bufs: map<nat, seq<Value>>, arys: map<nat, Ary>, roots: map<nat, Root>, a: nat, x: Ary)
    requires Inv(bufs, arys, roots) && x.Shared? && Stored(bufs, roots, x)
    requires a in arys ==> arys[a].Embed?
    ensures Inv(bufs, arys[a := x], roots[x.root := Root(x.buf, roots[x.root].num + 1)])
  {
    var arys1, roots1 := arys[a := x], roots[x.root := Root(x.buf, roots[x.root].num + 1)];
    forall r | r in roots1 ensures roots1[r].num >= |Sharers(arys1, r)| {
      SharersNew(arys, a, x, r);
    }
    assert forall r :: r in roots1 ==> roots1[r].buf == roots[r].buf;
  }

  /** ary_make_shared: the block of a becomes a root's, with a its only sharer. */
  lemma InvMakeShared(bufs: map<nat, seq<Value>>, arys: map<nat, Ary>, roots: map<nat, Root>, a: nat, r: nat)
    requires Inv(bufs, arys, roots) && a in arys && arys[a].Own? && r !in roots
    requires forall c :: c in arys && arys[c].Shared? ==> arys[c].root != r
    ensures var buf := arys[a].buf;
            Inv(bufs, arys[a := Shared(buf, 0, arys[a].len, r)], roots[r := Root(buf, 1)])
  {
    var buf := arys[a].buf;
    var x := Shared(buf, 0, arys[a].len, r);
    var arys1, roots1 := arys[a := x], roots[r := Root(buf, 1)];
    forall q | q in roots1 ensures roots1[q].num >= |Sharers(arys1, q)| {
      SharersNew(arys, a, x, q);
      assert Sharers(arys, r) == {};
    }
  }

  /** Moving the window of a sharing array. */
  lemma InvWindow(bufs: map<nat, seq<Value>>, arys: map<nat, Ary>, roots: map<nat, Root>, a: nat, x: Ary)
    requires Inv(bufs, arys, roots) && a in arys && arys[a].Shared? && Stored(bufs, roots, x)
    requires x.Shared? && x.root == arys[a].root
    ensures Inv(bufs, arys[a := x], roots)
  {
    forall r | r in roots ensures Sharers(arys[a := x], r) == Sharers(arys, r) {
    }
  }

  /** Rewriting a block that only a uses. */
  lemma InvWrite(bufs: map<nat, seq<Value>>, arys: map<nat, Ary>, roots: map<nat, Root>, a: nat, len: nat,
      s: seq<Value>)
    requires Inv(bufs, arys, roots) && a in arys && arys[a].Own? && len <= |s|
    ensures var buf := arys[a].buf; Inv(bufs[buf := s], arys[a := Own(buf, len)], roots)
    ensures forall b :: b in arys && b != a ==>
              (Stored(bufs[arys[a].buf := s], roots, arys[b])
               && Elems(bufs[arys[a].buf := s], arys[b]) == Elems(bufs, arys[b]))
  {
    var buf := arys[a].buf;
    var bufs1, arys1 := bufs[buf := s], arys[a := Own(buf, len)];
    forall r | r in roots ensures Sharers(arys1, r) == Sharers(arys, r) {
    }
    forall b | b in arys && b != a ensures arys[b].Embed? || arys[b].buf != buf {
    }
  }

  /** rb_ary_decrement_share on the maps: the last share frees the root and its block. */
  lemma InvDecrement(bufs: map<nat, seq<Value>>, arys: map<nat, Ary>, roots: map<nat, Root>, r: nat)
    requires Inv(bufs, arys, roots) && r in roots && roots[r].num > |Sharers(arys, r)|
    ensures roots[r].num == 1 ==> Inv(bufs - {roots[r].buf}, arys, roots - {r})
    ensures roots[r].num > 1 ==> Inv(bufs, arys, roots[r := Root(roots[r].buf, roots[r].num - 1)])
  {
    if roots[r].num == 1 {
      assert Sharers(arys, r) == {};
      forall a | a in arys && !arys[a].Embed? ensures arys[a].buf != roots[r].buf {
        assert a !in Sharers(arys, r);
      }
    }
  }

  lemma InvFree(bufs: map<nat, seq<Value>>, arys: map<nat, Ary>, roots: map<nat, Root>, b: nat)
    requires Inv(bufs, arys, roots)
    requires (forall c :: c in arys && !arys[c].Embed? ==> arys[c].buf != b)
             && (forall r :: r in roots ==> roots[r].buf != b)
    ensures Inv(bufs - {b}, arys, roots)
  {
  }

  /** Blocks that survive keep their contents. */
  ghost predicate Keeps(bufs0: map<nat, seq<Value>>, bufs1: map<nat, seq<Value>>) {
    forall b :: b in bufs0 && b in bufs1 ==> bufs1[b] == bufs0[b]
  }

  lemma ElemsKept(bufs0: map<nat, seq<Value>>, roots0: map<nat, Root>, bufs1: map<nat, seq<Value>>,
      roots1: map<nat, Root>, x: Ary)
    requires Stored(bufs0, roots0, x) && Stored(bufs1, roots1, x) && Keeps(bufs0, bufs1)
    ensures Elems(bufs1, x) == Elems(bufs0, x)
  {
  }

  lemma ElemsShared(bufs: map<nat, seq<Value>>, x: Ary, r: nat)
    requires x.Own? && x.buf in bufs && x.len <= |bufs[x.buf]|
    ensures Elems(bufs, Shared(x.buf, 0, x.len, r)) == Elems(bufs, x)
  {
  }

  lemma RootFresh(bufs: map<nat, seq<Value>>, arys: map<nat, Ary>, roots: map<nat, Root>, r: nat)
    requires Inv(bufs, arys, roots) && r !in roots
    ensures forall c :: c in arys && arys[c].Shared? ==> arys[c].root != r
  {
    assert forall c :: c in arys && arys[c].Shared? ==> Stored(bufs, roots, arys[c]);
  }

  lemma SliceSlice(s: seq<Value>, i: nat, n: nat, k: nat, m: nat)
    requires i + n <= |s| && k + m <= n
    ensures s[i..i + n][k..k + m] == s[i + k..i + k + m]
  {
    var w := s[i..i + n];
    var l, t := w[k..k + m], s[i + k..i + k + m];
    forall j | 0 <= j < m ensures l[j] == t[j] {
      assert l[j] == w[k + j];
    }
  }

  lemma ElemsNarrow(bufs: map<nat, seq<Value>>, x: Ary, y: Ary, skip: nat)
    requires x.Shared? && x.buf in bufs && x.off + x.len <= |bufs[x.buf]|
    requires y == x.(off := x.off + skip, len := y.len) && skip + y.len <= x.len
    ensures Elems(bufs, y) == Elems(bufs, x)[skip..skip + y.len]
  {
    SliceSlice(bufs[x.buf], x.off, x.len, skip, y.len);
  }

  lemma InvStored(bufs: map<nat, seq<Value>>, arys: map<nat, Ary>, roots: map<nat, Root>, a: nat)
    requires Inv(bufs, arys, roots) && a in arys
    ensures Stored(bufs, roots, arys[a])
  {
  }

  /** An owned block is nobody else's. */
  lemma InvOwner(bufs: map<nat, seq<Value>>, arys: map<nat, Ary>, roots: map<nat, Root>, a: nat)
    requires Inv(bufs, arys, roots) && a in arys && arys[a].Own?
    ensures UsedOnlyBy(arys, roots, arys[a].buf, a)
  {
  }

  /** Dropping an array object; its share, if any, stays counted. */
  lemma InvDrop(bufs: map<nat, seq<Value>>, arys: map<nat, Ary>, roots: map<nat, Root>, a: nat)
    requires Inv(bufs, arys, roots) && a in arys
    ensures Inv(bufs, arys - {a}, roots)
    ensures arys[a].Own? ==> Inv(bufs - {arys[a].buf}, arys - {a}, roots)
  {
    var arys1 := arys - {a};
    forall r | r in roots ensures |Sharers(arys1, r)| <= |Sharers(arys, r)| {
      SubsetCard(Sharers(arys1, r), Sharers(arys, r));
    }
  }

  /** Dropping a root that no array points into, and its block with it. */
  lemma InvDropRoot(bufs: map<nat, seq<Value>>, arys: map<nat, Ary>, roots: map<nat, Root>, r: nat)
    requires Inv(bufs, arys, roots) && r in roots && Sharers(arys, r) == {}
    ensures Inv(bufs - {roots[r].buf}, arys, roots - {r})
    ensures forall a :: a in arys && !arys[a].Embed? ==> arys[a].buf != roots[r].buf
  {
    forall a | a in arys && !arys[a].Embed? ensures arys[a].buf != roots[r].buf {
      assert a !in Sharers(arys, r);
    }
  }

  lemma {:induction false} SubsetCard(s: set<nat>, t: set<nat>)
    requires s <= t
    ensures |s| <= |t|
  {
    assert t == s + (t - s);
  }

  // ---------------------------------------------------------------- the heap

  /** Identifiers from n on are unused. */
  ghost predicate Below(bufs: map<nat, seq<Value>>, roots: map<nat, Root>, n: nat) {
    && (forall b :: b in bufs ==> b < n) && (forall r :: r in roots ==> r < n)
  }

  class Heap {
    var bufs: map<nat, seq<Value>>
    var arys: map<nat, Ary>
    var roots: map<nat, Root>
    var next: nat    // the next block or root
    var nextAry: nat // the next array object

    ghost predicate Valid()
      reads this
    {
      Inv(bufs, arys, roots) && Below(bufs, roots, next) && (forall a :: a in arys ==> a < nextAry)
    }

    /** The elements of array a. */
    ghost function Abs(a: nat): seq<Value>
      requires Valid() && a in arys
      reads this
    {
      Elems(bufs, arys[a])
    }

    constructor ()
      ensures Valid() && View() == map[] && nextAry == 0
    {
      bufs, arys, roots, next, nextAry := map[], map[], map[], 0, 0;
    }

    /** The whole heap as a Ruby program sees it. */
    ghost function View(): (v: map<nat, seq<Value>>)
      requires Valid()
      reads this
      ensures v.Keys == arys.Keys
    {
      map a | a in arys :: Abs(a)
    }

    /** Only array a may read differently. */
    twostate lemma ViewUpdated(a: nat)
      requires old(Valid()) && Valid() && Keeps(old(bufs), bufs)
      requires a in arys && arys.Keys == old(arys.Keys) + {a}
      requires forall b :: b in old(arys) && b != a ==> b in arys && arys[b] == old(arys[b])
      ensures Stored(bufs, roots, arys[a]) && View() == old(View())[a := Elems(bufs, arys[a])]
    {
      forall b | b in old(arys) && b != a ensures Abs(b) == old(Abs(b)) {
        InvStored(old(bufs), old(arys), old(roots), b);
        InvStored(bufs, arys, roots, b);
        ElemsKept(old(bufs), old(roots), bufs, roots, arys[b]);
      }
    }

    twostate lemma ViewKept()
      requires old(Valid()) && Valid() && Keeps(old(bufs), bufs) && arys == old(arys)
      ensures View() == old(View())
    {
      if arys != map[] {
        var a :| a in arys;
        ViewUpdated(a);
        InvStored(old(bufs), old(arys), old(roots), a);
        InvStored(bufs, arys, roots, a);
        ElemsKept(old(bufs), old(roots), bufs, roots, arys[a]);
      }
    }

    /** What an array reads as, and which slots it has. */
    lemma ViewAt(a: nat)
      requires Valid() && a in arys
      ensures Stored(bufs, roots, arys[a]) && View()[a] == Elems(bufs, arys[a])
      ensures !arys[a].Shared? ==> View()[a] == Slots(a)[..arys[a].len]
    {
    }

    // -------------------------------------------------------------- storage

    /** ALLOC_N and MEMCPY: a new block. */
    method Alloc(s: seq<Value>) returns (b: nat)
      requires Valid()
      modifies this`bufs, this`next
      ensures Valid() && b !in old(bufs) && bufs == old(bufs)[b := s]
      ensures forall a :: UsedOnlyBy(arys, roots, b, a)
      ensures View() == old(View())
    {
      b := next;
      next := next + 1;
      hide Inv;
      bufs := bufs[b := s];
      ViewKept();
    }

    /** rb_ary_decrement_share: frees the root and its block with the last share. */
    method DecrementShare(r: nat)
      requires Valid() && r in roots && roots[r].num > |Sharers(arys, r)|
      modifies this`bufs, this`roots
      ensures Valid() && Keeps(old(bufs), bufs)
      ensures forall q :: q in old(roots) && Sharers(arys, q) != {} ==> q in roots && roots[q].buf == old(roots[q].buf)
    {
      hide Inv;
      InvDecrement(bufs, arys, roots, r);
      var num := roots[r].num - 1;
      if num == 0 {
        bufs := bufs - {roots[r].buf};
        roots := roots - {r};
      } else {
        roots := roots[r := Root(roots[r].buf, num)];
      }
    }

    /** Gives a the storage x, and releases what it had: its share of a root, or its own block. */
    method TakeStorage(a: nat, x: Ary)
      requires Valid() && a in arys && !x.Shared? && Stored(bufs, roots, x)
      requires x.Own? ==> UsedOnlyBy(arys, roots, x.buf, a) && !(arys[a].Own? && arys[a].buf == x.buf)
      modifies this`bufs, this`arys, this`roots
      ensures Valid() && arys == old(arys)[a := x] && Keeps(old(bufs), bufs)
      ensures View() == old(View())[a := old(Elems(bufs, x))]
      ensures forall q :: q in old(roots) && Sharers(arys, q) != {} ==> q in roots && roots[q].buf == old(roots[q].buf)
    {
      hide Inv, View;
      InvUnshared(bufs, arys, roots, a, x);
      InvStored(bufs, arys, roots, a);
      var before := arys[a];
      if before.Own? {
        InvOwner(bufs, arys, roots, a);
      }
      arys := arys[a := x];
      if before.Shared? {
        DecrementShare(before.root);
      } else if before.Own? {
        InvFree(bufs, arys, roots, before.buf);
        bufs := bufs - {before.buf};
      }
      ViewUpdated(a);
      InvStored(bufs, arys, roots, a);
    }

    /** The slots an unshared array may write: RARRAY_PTR up to ARY_CAPA. */
    function Slots(a: nat): seq<Value>
      requires Valid() && a in arys && !arys[a].Shared?
      reads this
    {
      match arys[a]
      case Embed(slots, _) => slots
      case Own(buf, _) => bufs[buf]
      case _ => []
    }

    /** Moves a to new storage with room for `capacity`: inside the object if that fits, else a block. */
    method Relocate(a: nat, elems: seq<Value>, capacity: nat)
      requires Valid() && a in arys && |elems| <= capacity
      modifies this`bufs, this`arys, this`roots, this`next
      ensures Valid() && a in arys && Writable(a, |elems|, capacity)
      ensures View() == old(View())[a := elems] && (capacity <= EMBED_MAX ==> arys[a].Embed?)
      ensures arys == old(arys)[a := arys[a]]
    {
      hide Inv;
      ViewAt(a);
      hide Below;
      var capa := if capacity <= EMBED_MAX then EMBED_MAX else capacity;
      var s := elems + seq(capa - |elems|, _ => Nil);
      assert s[..|elems|] == elems;
      if capacity <= EMBED_MAX {
        TakeStorage(a, Embed(s, |elems|));
      } else {
        var ptr := Alloc(s);
        TakeStorage(a, Own(ptr, |elems|));
        ViewAt(a);
      }
    }

    /** Array a holds `len` elements in storage of its own with at least `capacity` slots. */
    ghost predicate Writable(a: nat, len: nat, capacity: nat)
      requires Valid() && a in arys
      reads this
    {
      !arys[a].Shared? && arys[a].len == len && |Slots(a)| >= capacity
    }

    /** rb_ary_modify: copies the elements out if a shares its storage. */
    method Modify(a: nat)
      requires Valid() && a in arys
      modifies this`bufs, this`arys, this`roots, this`next
      ensures Valid() && a in arys && Writable(a, old(arys[a].len), old(arys[a].len))
      ensures View() == old(View())
    {
      hide Inv;
      ViewAt(a);
      hide Below;
      if arys[a].Shared? {
        var x := arys[a];
        Relocate(a, bufs[x.buf][x.off..x.off + x.len], x.len);
      }
    }

    /** ary_resize_capa */
    method ResizeCapa(a: nat, capacity: nat)
      requires Valid() && a in arys && !arys[a].Shared? && arys[a].len <= capacity
      modifies this`bufs, this`arys, this`roots, this`next
      ensures Valid() && a in arys && Writable(a, old(arys[a].len), capacity)
      ensures View() == old(View())
    {
      hide Inv;
      ViewAt(a);
      hide Below;
      if capacity > EMBED_MAX || arys[a].Own? {
        Relocate(a, Slots(a)[..arys[a].len], capacity);
      }
    }

    /** MEMCPY, MEMMOVE or a store: overwrites the slots from `at` on, and sets the length. */
    method Write(a: nat, at: nat, vals: seq<Value>, len: nat)
      requires Valid() && a in arys && !arys[a].Shared?
      requires at + |vals| <= |Slots(a)| && len <= |Slots(a)|
      modifies this`bufs, this`arys
      ensures Valid() && arys.Keys == old(arys.Keys) && arys[a].Own? == old(arys[a].Own?)
      ensures !arys[a].Shared? && arys[a].len == len && Slots(a) == Over(old(Slots(a)), at, vals)
      ensures View() == old(View())[a := Over(old(Slots(a)), at, vals)[..len]]
    {
      var s := Over(Slots(a), at, vals);
      if arys[a].Embed? {
        hide Inv, View;
        InvUnshared(bufs, arys, roots, a, Embed(s, len));
        arys := arys[a := Embed(s, len)];
        ViewUpdated(a);
      } else {
        WriteBlock(a, s, len);
      }
    }

    /** Rewrites the block of its owner. */
    method WriteBlock(a: nat, s: seq<Value>, len: nat)
      requires Valid() && a in arys && arys[a].Own? && len <= |s|
      modifies this`bufs, this`arys
      ensures Valid() && arys == old(arys)[a := Own(old(arys[a].buf), len)] && Slots(a) == s
      ensures View() == old(View())[a := s[..len]]
    {
      var buf := arys[a].buf;
      InvWrite(bufs, arys, roots, a, len, s);
      bufs := bufs[buf := s];
      arys := arys[a := Own(buf, len)];
    }

    // -------------------------------------------------------------- operations

    /** rb_ary_new4 */
    method New(elems: seq<Value>) returns (a: nat)
      requires Valid()
      modifies this
      ensures Valid() && a == old(nextAry) && nextAry == a + 1
      ensures View() == old(View())[a := elems]
    {
      hide *;
      a := AryAlloc();
      Relocate(a, elems, |elems|);
    }

    /** ary_alloc */
    method AryAlloc() returns (a: nat)
      requires Valid()
      modifies this`arys, this`nextAry
      ensures Valid() && a == old(nextAry) && nextAry == a + 1 && a !in old(arys)
      ensures arys == old(arys)[a := Embed([Nil, Nil, Nil], 0)] && View() == old(View())[a := []]
    {
      a := nextAry;
      nextAry := a + 1;
      var x := Embed([Nil, Nil, Nil], 0);
      InvUnshared(bufs, arys, roots, a, x);
      hide Inv;
      arys := arys[a := x];
      ViewUpdated(a);
      ViewAt(a);
    }

    /** Makes room in an unshared array for index idx, as rb_ary_store does. */
    method Grow(a: nat, idx: nat)
      requires Valid() && a in arys && (idx < MAX_SIZE - 1 || idx < arys[a].len)
      requires Writable(a, arys[a].len, arys[a].len)
      modifies this`bufs, this`arys, this`roots, this`next
      ensures Valid() && a in arys && Writable(a, old(arys[a].len), idx + 1)
      ensures View() == old(View())
    {
      hide Inv, Below, View, Elems, Stored;
      var capa := |Slots(a)|;
      SlotsHold(a);
      if idx >= capa {
        SlotsHold(a);
        GrowthCovers(capa, idx);
        ResizeCapa(a, Grown(capa, idx));
      }
    }

    /** rb_ary_store: false is the IndexError. */
    method Store(a: nat, index: int, val: Value) returns (ok: bool)
      requires Valid() && a in arys && index != MAX_SIZE - 1
      modifies this`bufs, this`arys, this`roots, this`next
      ensures Valid() && ok == StoreFits(old(View()[a]), index)
      ensures View() == if ok then old(View())[a := Put(old(View()[a]), StoreIndex(old(View()[a]), index), val)]
              else old(View())
    {
      hide Inv, Below;
      ViewAt(a);
      var idx := index;
      if idx < 0 {
        idx := idx + arys[a].len;
        if idx < 0 {
          return false;
        }
      } else if idx >= MAX_SIZE {
        return false;
      }
      Modify(a);
      Grow(a, idx);
      StoreAt(a, idx, val);
      ok := true;
    }

    method StoreAt(a: nat, idx: nat, val: Value)
      requires Valid() && a in arys && Writable(a, arys[a].len, idx + 1)
      modifies this`bufs, this`arys
      ensures Valid() && View() == old(View())[a := Put(old(View()[a]), idx, val)]
    {
      hide Inv, Below, Elems, Stored, Put, Over, Valid, View;
      ViewAt(a);
      var len := arys[a].len;
      ghost var before := Slots(a);
      PutSlots(before, len, idx, val);
      if idx > len {
        Write(a, len, seq(idx - len + 1, _ => Nil), len);
      }
      Write(a, idx, [val], if idx >= len then idx + 1 else len);
    }

    /** rb_ary_push */
    method Push(a: nat, item: Value) returns (ok: bool)
      requires Valid() && a in arys && arys[a].len != MAX_SIZE - 1
      modifies this`bufs, this`arys, this`roots, this`next
      ensures Valid() && ok == (old(arys[a].len) < MAX_SIZE)
      ensures View() == if ok then old(View())[a := old(View()[a]) + [item]] else old(View())
    {
      ViewAt(a);
      ghost var s := View()[a];
      assert Put(s, |s|, item) == s + [item];
      hide Inv, Below, View, Put;
      ok := Store(a, arys[a].len, item);
    }

    /** ARY_SET_LEN and ARY_INCREASE_PTR on a sharing array: narrows its window. */
    method Narrow(a: nat, skip: nat, len: nat)
      requires Valid() && a in arys && arys[a].Shared? && skip + len <= arys[a].len
      modifies this`arys
      ensures Valid() && View() == old(View())[a := old(View()[a])[skip..skip + len]]
    {
      hide Inv, Below, View, Elems;
      ViewAt(a);
      var x := arys[a].(off := arys[a].off + skip, len := len);
      InvWindow(bufs, arys, roots, a, x);
      ElemsNarrow(bufs, arys[a], x, skip);
      arys := arys[a := x];
      ViewUpdated(a);
    }

    /** ARY_SET_LEN */
    method Truncate(a: nat, n: nat)
      requires Valid() && a in arys && n <= arys[a].len
      modifies this`bufs, this`arys
      ensures Valid() && View() == old(View())[a := old(View()[a])[..n]]
    {
      hide Inv, Below, View, Elems, Stored;
      ViewAt(a);
      if arys[a].Shared? {
        Narrow(a, 0, n);
      } else {
        ghost var slots, len := Slots(a), arys[a].len;
        assert Over(slots, 0, []) == slots && slots[..len][..n] == slots[..n];
        Write(a, 0, [], n);
      }
    }

    /** RARRAY_PTR(a)[i] */
    method At(a: nat, i: nat) returns (val: Value)
      requires Valid() && a in arys && i < arys[a].len
      ensures |View()[a]| > i && val == View()[a][i]
    {
      ViewAt(a);
      val := match arys[a]
        case Embed(slots, _) => slots[i]
        case Own(buf, _) => bufs[buf][i]
        case Shared(buf, off, _, _) => bufs[buf][off + i];
    }

    /** rb_ary_pop */
    method Pop(a: nat) returns (val: Value)
      requires Valid() && a in arys
      modifies this`bufs, this`arys, this`roots, this`next
      ensures Valid()
      ensures val == Last(old(View()[a])) && View() == old(View())[a := Front(old(View()[a]))]
    {
      ViewAt(a);
      assert View()[a := View()[a]] == View();
      hide Inv, Below, View, Elems, Stored;
      var n := arys[a].len - 1;
      if n < 0 {
        return Nil;
      }
      val := At(a, n);
      if arys[a].Own? && arys[a].len * 3 < |Slots(a)| && |Slots(a)| > DEFAULT_SIZE {
        ResizeCapa(a, arys[a].len * 2);
      }
      Truncate(a, n);
    }

    /** ary_make_shared: the root of a block array. */
    method MakeShared(a: nat) returns (r: nat)
      requires Valid() && a in arys && !arys[a].Embed?
      modifies this`arys, this`roots, this`next
      ensures Valid() && View() == old(View()) && a in arys && arys[a].Shared? && arys[a].root == r
      ensures r in roots && arys[a].len == old(arys[a].len) && roots[r].buf == arys[a].buf
      ensures arys.Keys == old(arys.Keys) && forall b :: b in arys && b != a ==> arys[b] == old(arys[b])
    {
      hide Inv, View, Elems;
      ViewAt(a);
      if arys[a].Shared? {
        r := arys[a].root;
      } else {
        r := next;
        next := next + 1;
        RootFresh(bufs, arys, roots, r);
        InvMakeShared(bufs, arys, roots, a, r);
        ElemsShared(bufs, arys[a], r);
        var x := Shared(arys[a].buf, 0, arys[a].len, r);
        roots := roots[r := Root(arys[a].buf, 1)];
        arys := arys[a := x];
        ViewUpdated(a);
      }
    }

    /** rb_ary_set_shared: turns an empty embedded array into a window of a root. */
    method SetShared(a: nat, x: Ary)
      requires Valid() && a in arys && arys[a].Embed? && x.Shared? && Stored(bufs, roots, x)
      modifies this`arys, this`roots
      ensures Valid() && View() == old(View())[a := old(Elems(bufs, x))] && arys == old(arys)[a := x]
    {
      hide Inv, View, Elems;
      InvNewShare(bufs, arys, roots, a, x);
      arys := arys[a := x];
      roots := roots[x.root := Root(x.buf, roots[x.root].num + 1)];
      ViewUpdated(a);
    }

    /** Reads elements out with MEMCPY. */
    method Copy(a: nat, offset: nat, len: nat) returns (vals: seq<Value>)
      requires Valid() && a in arys && offset + len <= arys[a].len
      ensures |View()[a]| == arys[a].len && vals == View()[a][offset..offset + len]
    {
      hide Inv, Below, View;
      ViewAt(a);
      vals := match arys[a]
        case Embed(slots, n) => slots[..n]
        case Own(buf, n) => bufs[buf][..n]
        case Shared(buf, off, n, _) => bufs[buf][off..off + n];
      vals := vals[offset..offset + len];
    }

    /** MEMCPY into an embedded array. */
    method Fill(b: nat, vals: seq<Value>)
      requires Valid() && b in arys && arys[b].Embed? && |vals| <= EMBED_MAX
      modifies this`bufs, this`arys
      ensures Valid() && View() == old(View())[b := vals] && arys.Keys == old(arys.Keys)
    {
      hide Inv, Below, View, Elems;
      ViewAt(b);
      ghost var slots := Slots(b);
      assert Over(slots, 0, vals)[..|vals|] == vals;
      Write(b, 0, vals, |vals|);
    }

    /** Makes b a window of a's block. */
    method ShareInto(a: nat, b: nat, offset: nat, len: nat)
      requires Valid() && a in arys && b in arys && a != b && arys[b].Embed? && offset + len <= arys[a].len
      requires len > EMBED_MAX
      modifies this`arys, this`roots, this`next
      ensures Valid() && a in arys && arys[a].Shared? && arys[a].len == old(arys[a].len)
      ensures View() == old(View())[b := old(View()[a])[offset..offset + len]]
    {
      hide Inv, Below, Valid, View, Elems;
      ViewAt(a);
      var r := MakeShared(a);
      ViewAt(a);
      var x := Shared(arys[a].buf, arys[a].off + offset, len, r);
      ElemsNarrow(bufs, arys[a], x, offset);
      SetShared(b, x);
    }

    /** ary_make_partial: a copy if it fits inside an object, else a window of the shared block. */
    method MakePartial(a: nat, offset: nat, len: nat) returns (b: nat)
      requires Valid() && a in arys && offset + len <= arys[a].len
      modifies this
      ensures Valid() && b == old(nextAry) && nextAry == b + 1 && a in arys && a != b
      ensures View() == old(View())[b := old(View()[a])[offset..offset + len]]
      ensures len > EMBED_MAX ==> arys[a].Shared?
    {
      hide *;
      ViewAt(a);
      b := AryAlloc();
      if len <= EMBED_MAX {
        var vals := Copy(a, offset, len);
        Fill(b, vals);
      } else {
        ShareInto(a, b, offset, len);
      }
    }

    /** rb_ary_subseq: None is nil. */
    method Subseq(a: nat, beg: int, length: int) returns (b: Option<nat>)
      requires Valid() && a in arys
      modifies this
      ensures Valid()
      ensures b == None <==> beg > |old(View()[a])| || beg < 0 || length < 0
      ensures b == None ==> View() == old(View()) && nextAry == old(nextAry)
      ensures b.Some? ==> b.value == old(nextAry) && nextAry == b.value + 1
      ensures b.Some? ==> View() == old(View())[b.value := Window(old(View()[a]), beg, length)]
    {
      hide *;
      ViewAt(a);
      ViewLen(a);
      var n, len := arys[a].len, length;
      if beg > n || beg < 0 || len < 0 {
        return None;
      }
      if n < len || n < beg + len {
        len := n - beg;
      }
      ghost var s := View()[a];
      WindowIs(s, beg, length, len);
      var id;
      if len == 0 {
        id := New([]);
      } else {
        id := MakePartial(a, beg, len);
      }
      b := Some(id);
    }

    /** rb_ary_shift */
    method Shift(a: nat) returns (val: Value)
      requires Valid() && a in arys
      modifies this`bufs, this`arys, this`roots, this`next
      ensures Valid()
      ensures val == First(old(View()[a])) && View() == old(View())[a := Rest(old(View()[a]))]
    {
      hide Inv, Below, View, Elems, Stored, Over;
      ViewAt(a);
      ViewLen(a);
      var len := arys[a].len;
      if len == 0 {
        return Nil;
      }
      val := At(a, 0);
      ghost var s := View()[a];
      assert s[1..len] == s[1..];
      if !arys[a].Shared? {
        if len < DEFAULT_SIZE {
          SlideDown(a, 1);
          return;
        }
        EmbedShort(a);
        ghost var slots := Slots(a);
        Write(a, 0, [Nil], len);
        OverRest(slots, len);
        var r := MakeShared(a);
      }
      Narrow(a, 1, len - 1);
    }

    /** MEMMOVE of everything after the first n elements to the front. */
    method SlideDown(a: nat, n: nat)
      requires Valid() && a in arys && !arys[a].Shared? && n <= arys[a].len
      modifies this`bufs, this`arys
      ensures Valid() && View() == old(View())[a := old(View()[a])[n..]]
    {
      hide Inv, Below, View, Elems, Stored, Over;
      ViewAt(a);
      ViewLen(a);
      var len := arys[a].len;
      var slots := Slots(a);
      OverFront(slots, slots[n..len]);
      assert slots[..len][n..] == slots[n..len];
      Write(a, 0, slots[n..len], len - n);
    }

    lemma ViewLen(a: nat)
      requires Valid() && a in arys
      ensures |View()[a]| == arys[a].len && View()[a := View()[a]] == View()
    {
    }

    lemma EmbedShort(a: nat)
      requires Valid() && a in arys
      ensures arys[a].Embed? ==> arys[a].len <= EMBED_MAX
    {
    }

    /** rb_ary_replace */
    method Replace(copy: nat, orig: nat)
      requires Valid() && copy in arys && orig in arys
      modifies this`bufs, this`arys, this`roots, this`next
      ensures Valid() && View() == old(View())[copy := old(View()[orig])]
    {
      hide Inv, Below, View, Elems, Over;
      ViewAt(orig);
      ViewLen(orig);
      ViewLen(copy);
      if copy == orig {
        return;
      }
      var len := arys[orig].len;
      ghost var v := View();
      ghost var s := v[orig];
      assert v[copy := []][copy := s] == v[copy := s] && s[0..len] == s;
      if len <= EMBED_MAX {
        var vals := Copy(orig, 0, len);
        Relocate(copy, vals, len);
      } else {
        var r := MakeShared(orig);
        Relocate(copy, [], 0);
        ViewAt(copy);
        ViewAt(orig);
        ShareInto(orig, copy, 0, len);
      }
    }

    /** rb_ary_splice, with an array or none as the replacement, which may be a itself: false is an IndexError. */
    method Splice(a: nat, start: int, length: int, rpl: Option<nat>) returns (ok: bool)
      requires Valid() && a in arys && (rpl.Some? ==> rpl.value in arys)
      modifies this`bufs, this`arys, this`roots, this`next
      ensures Valid()
      ensures var r := if rpl.Some? then old(View()[rpl.value]) else [];
              && ok == SpliceFits(old(View()[a]), start, length, |r|)
              && View() == if ok then old(View())[a := Spliced(old(View()[a]), start, length, r)] else old(View())
    {
      hide Inv, Below, View, Elems, Over;
      ViewLen(a);
      var beg, len := start, length;
      if len < 0 {
        return false;
      }
      if beg < 0 {
        beg := beg + arys[a].len;
        if beg < 0 {
          return false;
        }
      }
      if arys[a].len < len || arys[a].len < beg + len {
        len := arys[a].len - beg;
      }
      var rlen := 0;
      if rpl.Some? {
        ViewLen(rpl.value);
        rlen := arys[rpl.value].len;
      }
      Modify(a);
      ViewLen(a);
      if beg >= arys[a].len {
        if beg > MAX_SIZE - rlen {
          return false;
        }
        Extend(a, beg, rpl);
      } else {
        ReplaceRange(a, beg, len, rpl);
      }
      ok := true;
    }

    /** The elements of the replacement. */
    ghost function Elements(rpl: Option<nat>): seq<Value>
      requires Valid() && (rpl.Some? ==> rpl.value in arys)
      reads this
    {
      if rpl.Some? then View()[rpl.value] else []
    }

    /** Its first n elements, or all of none. */
    method CopyFirst(rpl: Option<nat>, n: nat) returns (vals: seq<Value>)
      requires Valid() && (rpl.Some? ==> rpl.value in arys) && n <= |Elements(rpl)|
      ensures vals == Elements(rpl)[..n]
    {
      hide Inv, Below, View, Elems;
      if rpl.Some? {
        ViewLen(rpl.value);
        vals := Copy(rpl.value, 0, n);
      } else {
        vals := [];
      }
    }

    /** Write into a, beyond its first n slots if a is its own replacement: the replacement keeps its first n
        elements. */
    method WriteBeyond(a: nat, at: nat, vals: seq<Value>, len: nat, rpl: Option<nat>, n: nat)
      requires Valid() && a in arys && !arys[a].Shared? && (rpl.Some? ==> rpl.value in arys) && n <= |Elements(rpl)|
      requires at + |vals| <= |Slots(a)| && len <= |Slots(a)| && (rpl == Some(a) ==> n <= at && n <= len)
      modifies this`bufs, this`arys
      ensures Valid() && arys.Keys == old(arys.Keys)
      ensures !arys[a].Shared? && arys[a].len == len && Slots(a) == Over(old(Slots(a)), at, vals)
      ensures View() == old(View())[a := Over(old(Slots(a)), at, vals)[..len]]
      ensures n <= |Elements(rpl)| && Elements(rpl)[..n] == old(Elements(rpl))[..n]
    {
      hide Inv, Below, Valid, View, Elems, Over, Stored;
      ViewAt(a);
      SlotsHold(a);
      if rpl.Some? {
        ViewLen(rpl.value);
        FirstKept(View(), a, Slots(a), at, vals, len, rpl.value, n);
      }
      Write(a, at, vals, len);
    }

    /** if (n >= ARY_CAPA(ary)) ary_resize_capa(ary, n) */
    method MakeRoom(a: nat, n: nat)
      requires Valid() && a in arys && !arys[a].Shared?
      modifies this`bufs, this`arys, this`roots, this`next
      ensures Valid() && a in arys && Writable(a, old(arys[a].len), n) && View() == old(View())
    {
      hide Inv, Below, Valid, View, Elems, Stored;
      SlotsHold(a);
      if n >= |Slots(a)| {
        ResizeCapa(a, n);
      }
    }

    method LengthOf(rpl: Option<nat>) returns (rlen: nat)
      requires Valid() && (rpl.Some? ==> rpl.value in arys)
      ensures rlen == |Elements(rpl)|
    {
      rlen := 0;
      if rpl.Some? {
        ViewLen(rpl.value);
        rlen := arys[rpl.value].len;
      }
    }

    /** The branch of rb_ary_splice that starts at or past the end. */
    method Extend(a: nat, beg: nat, rpl: Option<nat>)
      requires Valid() && a in arys && !arys[a].Shared? && beg >= arys[a].len
      requires rpl.Some? ==> rpl.value in arys
      modifies this`bufs, this`arys, this`roots, this`next
      ensures Valid()
      ensures View() ==
              old(View())[a := old(View()[a]) + seq(beg - |old(View()[a])|, _ => Nil) + old(Elements(rpl))]
    {
      hide Inv, Below, Valid, View, Elems, Over, Stored;
      ViewLen(a);
      ghost var r := Elements(rpl);
      var rlen := LengthOf(rpl);
      MakeRoom(a, beg + rlen);
      ViewAt(a);
      var len := arys[a].len;
      ExtendSlots(Slots(a), len, beg, r);
      WriteBeyond(a, len, seq(beg - len, _ => Nil), len, rpl, rlen);
      var vals := CopyFirst(rpl, rlen);
      assert vals == r;
      Write(a, beg, vals, beg + rlen);
    }

    /** The branch of rb_ary_splice that starts inside the array. */
    method ReplaceRange(a: nat, beg: nat, len: nat, rpl: Option<nat>)
      requires Valid() && a in arys && !arys[a].Shared? && beg + len <= arys[a].len
      requires rpl.Some? ==> rpl.value in arys
      modifies this`bufs, this`arys, this`roots, this`next
      ensures Valid() && |old(View()[a])| >= beg + len
      ensures View() == old(View())[a := old(View()[a])[..beg] + old(Elements(rpl)) + old(View()[a])[beg + len..]]
    {
      hide Inv, Below, Valid, View, Elems, Over, Stored;
      ViewLen(a);
      var rlen := LengthOf(rpl);
      MakeRoom(a, arys[a].len + rlen - len);
      ViewLen(a);
      MoveRange(a, beg, len, rlen, rpl);
    }

    method MoveRange(a: nat, beg: nat, len: nat, rlen: nat, rpl: Option<nat>)
      requires Valid() && a in arys && beg + len <= arys[a].len && rlen + arys[a].len >= len
      requires Writable(a, arys[a].len, arys[a].len + rlen - len)
      requires (rpl.Some? ==> rpl.value in arys) && rlen == |Elements(rpl)|
      modifies this`bufs, this`arys
      ensures Valid() && |old(View()[a])| >= beg + len
      ensures View() == old(View())[a := old(View()[a])[..beg] + old(Elements(rpl)) + old(View()[a])[beg + len..]]
    {
      hide Inv, Below, Valid, View, Elems, Over, Stored;
      ViewLen(a);
      ViewAt(a);
      SlotsHold(a);
      var n := arys[a].len;
      var alen := n + rlen - len;
      ghost var r := Elements(rpl);
      RangeSlots(Slots(a), n, beg, len, r);
      if len != rlen {
        WriteBeyond(a, beg + rlen, Slots(a)[beg + len..n], alen, rpl, rlen);
      }
      var vals := CopyFirst(rpl, rlen);
      assert vals == r;
      Write(a, beg, vals, alen);
    }

    lemma SlotsHold(a: nat)
      requires Valid() && a in arys && !arys[a].Shared?
      ensures arys[a].len <= |Slots(a)|
    {
    }

    /** obj_free of an unreachable array: its own block goes, its share of a root stays counted. */
    method Collect(a: nat)
      requires Valid() && a in arys
      modifies this`bufs, this`arys
      ensures Valid() && View() == old(View()) - {a}
    {
      hide Inv;
      InvDrop(bufs, arys, roots, a);
      if arys[a].Own? {
        bufs := bufs - {arys[a].buf};
      }
      arys := arys - {a};
      forall b | b in arys ensures Abs(b) == old(Abs(b)) {
        InvStored(old(bufs), old(arys), old(roots), b);
        InvStored(bufs, arys, roots, b);
        ElemsKept(old(bufs), old(roots), bufs, roots, arys[b]);
      }
    }

    /** The sweep comes to the object r: obj_free of a root that no array points into frees its block, any other object
        stays. */
    method SweepRoot(r: nat)
      requires Valid()
      modifies this`bufs, this`roots
      ensures Valid() && View() == old(View())
      ensures r in old(roots) && Sharers(arys, r) == {} ==>
                bufs == old(bufs) - {old(roots)[r].buf} && roots == old(roots) - {r}
      ensures !(r in old(roots) && Sharers(arys, r) == {}) ==> bufs == old(bufs) && roots == old(roots)
    {
      hide Inv;
      if r in roots && Sharers(arys, r) == {} {
        InvDropRoot(bufs, arys, roots, r);
        bufs := bufs - {roots[r].buf};
        roots := roots - {r};
        forall b | b in arys ensures Abs(b) == old(Abs(b)) {
          InvStored(old(bufs), old(arys), old(roots), b);
          InvStored(bufs, arys, roots, b);
        }
      }
    }

    /** One operation of a Ruby program, or of the collector. */
    method Perform(op: Op) returns (reply: Reply)
      requires Valid() && Allowed(op, Independent(View(), nextAry))
      modifies this
      ensures Valid() && Outcome(Independent(View(), nextAry), reply) == Apply(op, old(Independent(View(), nextAry)))
    {
      hide Inv, Below, View, Spliced, Put, Window;
      match op
      case New(elems) =>
        var a := New(elems);
        reply := Made(a);
      case Store(a, i, v) =>
        ViewLen(a);
        var ok := Store(a, i, v);
        reply := if ok then Done else IndexError;
      case Push(a, v) =>
        ViewLen(a);
        var ok := Push(a, v);
        reply := if ok then Done else IndexError;
      case Pop(a) =>
        var v := Pop(a);
        reply := Got(v);
      case Shift(a) =>
        var v := Shift(a);
        reply := Got(v);
      case Subseq(a, beg, len) =>
        var b := Subseq(a, beg, len);
        reply := if b.Some? then Made(b.value) else Got(Nil);
      case Replace(a, b) =>
        Replace(a, b);
        reply := Done;
      case Splice(a, start, len, rpl) =>
        var ok := Splice(a, start, len, rpl);
        reply := if ok then Done else IndexError;
      case Collect(a) =>
        Collect(a);
        reply := Done;
      case Sweep(r) =>
        SweepRoot(r);
        reply := Done;
    }

    /** Over a whole run, a program cannot tell the shared storage from independent sequences. */
    method Run(ops: seq<Op>) returns (replies: seq<Reply>)
      requires Valid() && AllowedRun(ops, Independent(View(), nextAry))
      modifies this
      ensures Valid() && Outcomes(Independent(View(), nextAry), replies) ==
              ApplyRun(ops, old(Independent(View(), nextAry)))
      decreases ops
    {
      hide Inv, Below, View, Valid, Apply, Allowed;
      if ops == [] {
        return [];
      }
      var first := Perform(ops[0]);
      var rest := Run(ops[1..]);
      replies := [first] + rest;
    }
  }

  /** Overwrites s from position `at` on. */
  function Over(s: seq<Value>, at: nat, vals: seq<Value>): (t: seq<Value>)
    requires at + |vals| <= |s|
    ensures |t| == |s|
  {
    s[..at] + vals + s[at + |vals|..]
  }

  /** The capacity rb_ary_store asks for when idx lies beyond capa. */
  function Grown(capa: nat, idx: nat): nat
    requires idx < MAX_SIZE
  {
    var half := if capa / 2 < DEFAULT_SIZE then DEFAULT_SIZE else capa / 2;
    (if half >= MAX_SIZE - idx then (MAX_SIZE - idx) / 2 else half) + idx
  }

  /** The new capacity has room for idx, except for the very last index the size check lets through. */
  lemma GrowthCovers(capa: nat, idx: nat)
    requires idx < MAX_SIZE
    ensures Grown(capa, idx) > idx <==> idx != MAX_SIZE - 1
  {
  }

  function Last(s: seq<Value>): Value { if s == [] then Nil else s[|s| - 1] }

  function Front(s: seq<Value>): seq<Value> { if s == [] then [] else s[..|s| - 1] }

  /** Where a[index] = val writes. */
  function StoreIndex(s: seq<Value>, index: int): int { if index < 0 then index + |s| else index }

  predicate StoreFits(s: seq<Value>, index: int) { 0 <= StoreIndex(s, index) && index < MAX_SIZE }

  /** a[i] = val: past the end, the gap is filled with nil. */
  function Put(s: seq<Value>, i: nat, val: Value): seq<Value> {
    if i < |s| then s[i := val] else s + seq(i - |s|, _ => Nil) + [val]
  }

  lemma PutSlots(slots: seq<Value>, len: nat, idx: nat, val: Value)
    requires len <= |slots| && idx < |slots|
    ensures var filled := if idx > len then Over(slots, len, seq(idx - len + 1, _ => Nil)) else slots;
            Over(filled, idx, [val])[..if idx >= len then idx + 1 else len] == Put(slots[..len], idx, val)
  {
  }

  function First(s: seq<Value>): Value { if s == [] then Nil else s[0] }

  function Rest(s: seq<Value>): seq<Value> { if s == [] then [] else s[1..] }

  /** At most `length` elements from `beg` on. */
  function Window(s: seq<Value>, beg: int, length: int): seq<Value>
    requires 0 <= beg <= |s| && 0 <= length
  {
    s[beg..][..if length < |s| - beg then length else |s| - beg]
  }

  lemma WindowIs(s: seq<Value>, beg: int, length: int, n: int)
    requires 0 <= beg <= |s| && 0 <= length && n == (if |s| < length || |s| < beg + length then |s| - beg else length)
    ensures 0 <= n <= |s| - beg && Window(s, beg, length) == s[beg..beg + n]
  {
  }

  predicate SpliceFits(s: seq<Value>, start: int, length: int, rlen: nat) {
    var beg := StoreIndex(s, start);
    length >= 0 && beg >= 0 && (beg >= |s| ==> beg <= MAX_SIZE - rlen)
  }

  /** a[start, length] = r */
  function Spliced(s: seq<Value>, start: int, length: int, r: seq<Value>): seq<Value>
    requires StoreIndex(s, start) >= 0 && length >= 0
  {
    var beg := StoreIndex(s, start);
    if beg >= |s| then s + seq(beg - |s|, _ => Nil) + r
    else s[..beg] + r + s[if beg + length <= |s| then beg + length else |s|..]
  }

  lemma ExtendSlots(slots: seq<Value>, n: nat, beg: nat, r: seq<Value>)
    requires n <= beg && beg + |r| <= |slots|
    ensures Over(Over(slots, n, seq(beg - n, _ => Nil)), beg, r)[..beg + |r|] == slots[..n] + seq(beg - n, _ => Nil) + r
  {
  }

  lemma RangeSlots(slots: seq<Value>, n: nat, beg: nat, len: nat, r: seq<Value>)
    requires beg + len <= n <= |slots| && n + |r| - len <= |slots|
    ensures var moved := if len != |r| then Over(slots, beg + |r|, slots[beg + len..n]) else slots;
            Over(moved, beg, r)[..n + |r| - len] == slots[..n][..beg] + r + slots[..n][beg + len..]
  {
  }

  /** Writing into a leaves the first n elements of every array, of a itself when it is beyond its first n slots. */
  lemma FirstKept(view: map<nat, seq<Value>>, a: nat, slots: seq<Value>, at: nat, vals: seq<Value>, len: nat, b: nat,
      n: nat)
    requires a in view && b in view && |view[a]| <= |slots| && view[a] == slots[..|view[a]|]
    requires at + |vals| <= |slots| && len <= |slots| && n <= |view[b]| && (b == a ==> n <= at && n <= len)
    ensures var view1 := view[a := Over(slots, at, vals)[..len]]; n <= |view1[b]| && view1[b][..n] == view[b][..n]
  {
    if b == a {
      assert Over(slots, at, vals)[..len][..n] == slots[..n];
    }
  }

  lemma OverFront(slots: seq<Value>, vals: seq<Value>)
    requires |vals| <= |slots|
    ensures Over(slots, 0, vals)[..|vals|] == vals
  {
  }

  lemma OverRest(slots: seq<Value>, len: nat)
    requires 0 < len <= |slots|
    ensures Over(slots, 0, [Nil])[..len][1..len] == slots[..len][1..]
  {
  }

  // ---------------------------------------------------------------- whole runs

  datatype Op =
    | New(elems: seq<Value>)
    | Store(a: nat, index: int, val: Value)
    | Push(a: nat, val: Value)
    | Pop(a: nat)
    | Shift(a: nat)
    | Subseq(a: nat, beg: int, len: int)
    | Replace(a: nat, b: nat)
    | Splice(a: nat, start: int, len: int, rpl: Option<nat>)
    | Collect(a: nat)
    | Sweep(root: nat)

  datatype Reply = Done | IndexError | Got(val: Value) | Made(id: nat)

  /** Arrays as sequences that share nothing. */
  datatype Independent = Independent(view: map<nat, seq<Value>>, next: nat)

  datatype Outcome = Outcome(after: Independent, reply: Reply)

  datatype Outcomes = Outcomes(after: Independent, replies: seq<Reply>)

  /** The arrays an operation names exist, and no store goes to the last index below the size limit (see
      GrowthCovers). */
  predicate Allowed(op: Op, m: Independent) {
    && (op.New? || op.Sweep? || op.a in m.view)
    && (op.Store? ==> op.index != MAX_SIZE - 1)
    && (op.Push? ==> |m.view[op.a]| != MAX_SIZE - 1)
    && (op.Replace? ==> op.b in m.view)
    && (op.Splice? && op.rpl.Some? ==> op.rpl.value in m.view)
  }

  /** What an operation does to independent sequences: only the named or the new array changes. */
  function Apply(op: Op, m: Independent): Outcome
    requires Allowed(op, m)
  {
    var v := m.view;
    match op
    case New(elems) => Outcome(Independent(v[m.next := elems], m.next + 1), Made(m.next))
    case Store(a, i, val) =>
      if StoreFits(v[a], i) then Outcome(m.(view := v[a := Put(v[a], StoreIndex(v[a], i), val)]), Done)
        else Outcome(m, IndexError)
    case Push(a, val) =>
      if |v[a]| < MAX_SIZE then Outcome(m.(view := v[a := v[a] + [val]]), Done) else Outcome(m, IndexError)
    case Pop(a) => Outcome(m.(view := v[a := Front(v[a])]), Got(Last(v[a])))
    case Shift(a) => Outcome(m.(view := v[a := Rest(v[a])]), Got(First(v[a])))
    case Subseq(a, beg, len) =>
      if beg > |v[a]| || beg < 0 || len < 0 then Outcome(m, Got(Nil))
      else Outcome(Independent(v[m.next := Window(v[a], beg, len)], m.next + 1), Made(m.next))
    case Replace(a, b) => Outcome(m.(view := v[a := v[b]]), Done)
    case Splice(a, start, len, rpl) =>
      var r := if rpl.Some? then v[rpl.value] else [];
      if SpliceFits(v[a], start, len, |r|) then Outcome(m.(view := v[a := Spliced(v[a], start, len, r)]), Done)
        else Outcome(m, IndexError)
    case Collect(a) => Outcome(m.(view := v - {a}), Done)
    case Sweep(_) => Outcome(m, Done)
  }

  predicate AllowedRun(ops: seq<Op>, m: Independent) {
    ops != [] ==> Allowed(ops[0], m) && AllowedRun(ops[1..], Apply(ops[0], m).after)
  }

  function ApplyRun(ops: seq<Op>, m: Independent): Outcomes
    requires AllowedRun(ops, m)
  {
    if ops == [] then Outcomes(m, [])
    else
      var first := Apply(ops[0], m);
      var rest := ApplyRun(ops[1..], first.after);
      Outcomes(rest.after, [first.reply] + rest.replies)
  }
}
