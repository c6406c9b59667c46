/** The open-addressing hash table of `linkhash.c`, whose slots are threaded on a doubly linked list, as
    an insertion-ordered map. */
module LinkHash {
  import opened Wrappers
  import opened OrderedMap

  /** The key field of an entry: LH_EMPTY, LH_FREED or a key. */
  datatype Slot<+K> = Empty | Freed | Live(key: K)

  /** A NULL pointer is -1; any other pointer is the index of a slot. */
  datatype Entry<+K, +V> = Entry(k: Slot<K>, v: Option<V>, next: int, prev: int)

  // ---------------------------------------------------------------- probing

  /** The d-th slot of the probe sequence from h: `if (++n == size) n = 0` d times. */
  function Probe(h: nat, d: nat, size: nat): (n: nat)
    requires h < size && d < size
    ensures n < size
  {
    if h + d < size then h + d else h + d - size
  }

  /** How far along the probe sequence from h the slot n lies. */
  function Distance(h: nat, n: nat, size: nat): (d: nat)
    requires h < size && n < size
    ensures d < size && Probe(h, d, size) == n
  {
    if n >= h then n - h else n + size - h
  }

  // ---------------------------------------------------------------- the invariant

  ghost predicate Distinct(order: seq<nat>) {
    forall i, j :: 0 <= i < j < |order| ==> order[i] != order[j]
  }

  /** `order` lists exactly the live slots, each once, and each with a value. */
  ghost predicate Listed<K, V>(t: seq<Entry<K, V>>, order: seq<nat>) {
    && Distinct(order)
    && (forall i :: 0 <= i < |order| ==> order[i] < |t| && t[order[i]].k.Live? && t[order[i]].v.Some?)
    && (forall n :: 0 <= n < |t| && t[n].k.Live? ==> n in order)
  }

  function NextOf(order: seq<nat>, i: nat): int { if i + 1 < |order| then order[i + 1] else -1 }

  function PrevOf(order: seq<nat>, i: nat): int
    requires i <= |order|
  {
    if i > 0 then order[i - 1] else -1
  }

  /** The links thread the slots in that order. */
  ghost predicate Linked<K, V>(t: seq<Entry<K, V>>, order: seq<nat>, head: int, tail: int) {
    && (forall i :: 0 <= i < |order| ==> order[i] < |t|)
    && head == (if order == [] then -1 else order[0])
    && tail == (if order == [] then -1 else order[|order| - 1])
    && (forall i :: 0 <= i < |order| ==> t[order[i]].next == NextOf(order, i))
    && (forall i :: 0 <= i < |order| ==> t[order[i]].prev == PrevOf(order, i))
  }

  ghost predicate UniqueKeys<K, V>(t: seq<Entry<K, V>>) {
    forall n, m :: 0 <= n < |t| && 0 <= m < |t| && t[n].k.Live? && t[m].k.Live? && t[n].k.key == t[m].k.key ==> n == m
  }

  /** No EMPTY slot lies before n on the probe sequence from h. */
  ghost predicate Reaches<K, V>(t: seq<Entry<K, V>>, h: nat, n: nat)
    requires h < |t| && n < |t|
  {
    forall d :: 0 <= d < Distance(h, n, |t|) ==> !t[Probe(h, d, |t|)].k.Empty?
  }

  ghost predicate Reachable<K, V>(t: seq<Entry<K, V>>, hash: K -> nat) {
    forall n :: 0 <= n < |t| && t[n].k.Live? ==> Reaches(t, hash(t[n].k.key) % |t|, n)
  }

  ghost predicate Inv<K, V>(t: seq<Entry<K, V>>, order: seq<nat>, head: int, tail: int, hash: K -> nat) {
    Listed(t, order) && Linked(t, order, head, tail) && UniqueKeys(t) && Reachable(t, hash)
  }

  /** The abstract value: keys and values in list order. */
  ghost function Contents<K, V>(t: seq<Entry<K, V>>, order: seq<nat>): (s: seq<(K, V)>)
    requires Listed(t, order)
  {
    seq(|order|, i requires 0 <= i < |order| => (t[order[i]].k.key, t[order[i]].v.value))
  }

  lemma ContentsUnique<K, V>(t: seq<Entry<K, V>>, order: seq<nat>)
    requires Listed(t, order) && UniqueKeys(t)
    ensures Unique(Contents(t, order))
  {
  }

  ghost predicate Present<K, V>(t: seq<Entry<K, V>>, k: K) {
    exists n :: 0 <= n < |t| && t[n].k == Live(k)
  }

  ghost predicate HasEmpty<K, V>(t: seq<Entry<K, V>>) {
    exists n :: 0 <= n < |t| && t[n].k.Empty?
  }

  ghost predicate NoFreed<K, V>(t: seq<Entry<K, V>>) {
    forall n :: 0 <= n < |t| ==> !t[n].k.Freed?
  }

  // ---------------------------------------------------------------- counting slots

  /** Fewer listed slots than slots leave one that is not listed. */
  lemma {:induction false} SpareSlot(order: seq<nat>, size: nat) returns (n: nat)
    requires Distinct(order) && |order| < size && forall i :: 0 <= i < |order| ==> order[i] < size
    ensures n < size && n !in order
    decreases size
  {
    if size - 1 !in order {
      n := size - 1;
    } else {
      var i :| 0 <= i < |order| && order[i] == size - 1;
      var rest := order[..i] + order[i + 1..];
      n := SpareSlot(rest, size - 1);
      assert forall j :: 0 <= j < |order| && j != i ==> order[j] == (if j < i then rest[j] else rest[j - 1]);
    }
  }

  lemma RoomForOne<K, V>(t: seq<Entry<K, V>>, order: seq<nat>)
    requires Listed(t, order) && |order| < |t|
    ensures exists n :: 0 <= n < |t| && !t[n].k.Live?
    ensures NoFreed(t) ==> HasEmpty(t)
  {
    var n := SpareSlot(order, |t|);
    assert !t[n].k.Live?;
  }

  // ---------------------------------------------------------------- insert

  /** The table after `lh_table_insert` has chosen slot n. */
  function Inserted<K, V>(t: seq<Entry<K, V>>, n: nat, k: K, v: V, tail: int): seq<Entry<K, V>>
    requires n < |t| && -1 <= tail < |t|
  {
    var t1 := t[n := Entry(Live(k), Some(v), -1, tail)];
    if tail == -1 then t1 else t1[tail := t1[tail].(next := n)]
  }

  lemma InsertedSlots<K, V>(t: seq<Entry<K, V>>, n: nat, k: K, v: V, tail: int)
    requires n < |t| && -1 <= tail < |t| && n != tail
    ensures var t1 := Inserted(t, n, k, v, tail);
            && |t1| == |t| && t1[n] == Entry(Live(k), Some(v), -1, tail)
            && (forall m :: 0 <= m < |t| && m != n ==>
                  t1[m].k == t[m].k && t1[m].v == t[m].v && t1[m].prev == t[m].prev)
            && (forall m :: 0 <= m < |t| && m != n && m != tail ==> t1[m].next == t[m].next)
            && (tail >= 0 ==> t1[tail].next == n)
  {
  }

  lemma InsertedListed<K, V>(t: seq<Entry<K, V>>, order: seq<nat>, n: nat, k: K, v: V, head: int, tail: int)
    requires Listed(t, order) && Linked(t, order, head, tail) && n < |t| && !t[n].k.Live?
    ensures -1 <= tail < |t| && n != tail
    ensures var t1 := Inserted(t, n, k, v, tail);
            Listed(t1, order + [n]) && Linked(t1, order + [n], if head == -1 then n else head, n)
    ensures Listed(Inserted(t, n, k, v, tail), order + [n]) &&
            Contents(Inserted(t, n, k, v, tail), order + [n]) == Contents(t, order) + [(k, v)]
  {
    hide Contents;
    TailInRange(t, order, n, head, tail);
    InsertedOrder(t, order, n, k, v, tail);
    InsertedLinks(t, order, n, k, v, head, tail);
    InsertedContents(t, order, n, k, v, tail);
  }

  lemma TailInRange<K, V>(t: seq<Entry<K, V>>, order: seq<nat>, n: nat, head: int, tail: int)
    requires Listed(t, order) && Linked(t, order, head, tail) && n < |t| && !t[n].k.Live?
    ensures -1 <= tail < |t| && n != tail && n !in order
    ensures (order == [] ==> tail == -1) && (order != [] ==> tail == order[|order| - 1])
  {
  }

  lemma InsertedOrder<K, V>(t: seq<Entry<K, V>>, order: seq<nat>, n: nat, k: K, v: V, tail: int)
    requires Listed(t, order) && n < |t| && !t[n].k.Live? && -1 <= tail < |t| && n != tail
    ensures Listed(Inserted(t, n, k, v, tail), order + [n])
  {
    hide Inserted;
    InsertedSlots(t, n, k, v, tail);
    var t1, o1 := Inserted(t, n, k, v, tail), order + [n];
    assert n !in order;
    forall m | 0 <= m < |t1| && t1[m].k.Live? ensures m in o1 {
      if m != n {
        assert m in order;
      }
    }
  }

  /** The neighbours after one more slot at the end: only the last one's next changes. */
  lemma AppendedLinks(order: seq<nat>, n: nat, i: nat)
    requires Distinct(order) && n !in order && i <= |order|
    ensures (order + [n])[i] == if i < |order| then order[i] else n
    ensures i < |order| ==> (order[i] == order[|order| - 1] <==> i == |order| - 1) && order[i] != n
    ensures NextOf(order + [n], i) ==
            if i == |order| then -1 else if i == |order| - 1 then n else NextOf(order, i)
    ensures PrevOf(order + [n], i) ==
            if i < |order| then PrevOf(order, i) else if order == [] then -1 else order[|order| - 1]
  {
  }

  lemma InsertedLinks<K, V>(t: seq<Entry<K, V>>, order: seq<nat>, n: nat, k: K, v: V, head: int, tail: int)
    requires Listed(t, order) && Linked(t, order, head, tail) && n < |t| && !t[n].k.Live?
    requires -1 <= tail < |t| && n != tail && Listed(Inserted(t, n, k, v, tail), order + [n])
    ensures Linked(Inserted(t, n, k, v, tail), order + [n], if head == -1 then n else head, n)
  {
    hide Inserted, NextOf, PrevOf, Distinct;
    TailInRange(t, order, n, head, tail);
    InsertedSlots(t, n, k, v, tail);
    var t1, o1 := Inserted(t, n, k, v, tail), order + [n];
    AppendedLinks(order, n, |order|);
    forall i | 0 <= i < |o1|
      ensures o1[i] < |t1| && t1[o1[i]].next == NextOf(o1, i) && t1[o1[i]].prev == PrevOf(o1, i) {
      AppendedLinks(order, n, i);
      if i < |order| {
        assert t[order[i]].next == NextOf(order, i) && t[order[i]].prev == PrevOf(order, i);
      }
    }
  }

  lemma InsertedContents<K, V>(t: seq<Entry<K, V>>, order: seq<nat>, n: nat, k: K, v: V, tail: int)
    requires Listed(t, order) && n < |t| && !t[n].k.Live? && -1 <= tail < |t| && n != tail
    requires Listed(Inserted(t, n, k, v, tail), order + [n])
    ensures Contents(Inserted(t, n, k, v, tail), order + [n]) == Contents(t, order) + [(k, v)]
  {
    hide Inserted;
    InsertedSlots(t, n, k, v, tail);
  }

  lemma InsertedReachable<K, V>(t: seq<Entry<K, V>>, hash: K -> nat, n: nat, k: K, v: V, tail: int)
    requires UniqueKeys(t) && Reachable(t, hash) && n < |t| && -1 <= tail < |t| && n != tail
    requires !t[n].k.Live? && !Present(t, k) && LiveBefore(t, hash(k) % |t|, n)
    ensures UniqueKeys(Inserted(t, n, k, v, tail)) && Reachable(Inserted(t, n, k, v, tail), hash)
  {
    InsertedSlots(t, n, k, v, tail);
    var t1 := Inserted(t, n, k, v, tail);
    forall m | 0 <= m < |t1| && t1[m].k.Live? ensures Reaches(t1, hash(t1[m].k.key) % |t1|, m) {
      var h := hash(t1[m].k.key) % |t1|;
      assert Reaches(t, h, m);
      forall d | 0 <= d < Distance(h, m, |t1|) ensures !t1[Probe(h, d, |t1|)].k.Empty? {
        assert !t[Probe(h, d, |t|)].k.Empty?;
      }
    }
  }

  // ---------------------------------------------------------------- delete

  /** The table after `lh_table_delete_entry` on slot n: the slot is a tombstone and its neighbours meet. */
  function Deleted<K, V>(t: seq<Entry<K, V>>, n: nat): seq<Entry<K, V>>
    requires n < |t| && -1 <= t[n].next < |t| && -1 <= t[n].prev < |t|
  {
    var p, q := t[n].prev, t[n].next;
    var t1 := if p >= 0 then t[p := t[p].(next := q)] else t;
    var t2 := if q >= 0 then t1[q := t1[q].(prev := p)] else t1;
    t2[n := Entry(Freed, None, -1, -1)]
  }

  lemma DeletedSlots<K, V>(t: seq<Entry<K, V>>, n: nat)
    requires n < |t| && -1 <= t[n].next < |t| && -1 <= t[n].prev < |t|
    ensures var t1 := Deleted(t, n);
            && |t1| == |t| && t1[n] == Entry(Freed, None, -1, -1)
            && (forall m :: 0 <= m < |t| && m != n ==> t1[m].k == t[m].k && t1[m].v == t[m].v)
            && (forall m :: 0 <= m < |t| && m != n ==>
                  && t1[m].next == (if m == t[n].prev then t[n].next else t[m].next)
                  && t1[m].prev == (if m == t[n].next then t[n].prev else t[m].prev))
  {
  }

  /** The size of the list that is left, its first and its last slot. */
  lemma CutSize(order: seq<nat>, i: nat)
    requires i < |order|
    ensures |Cut(order, i)| == |order| - 1
    ensures Cut(order, i) != [] ==> Cut(order, i)[0] == if i == 0 then order[1] else order[0]
    ensures Cut(order, i) != [] ==>
              Cut(order, i)[|order| - 2] == if i == |order| - 1 then order[i - 1] else order[|order| - 1]
  {
  }

  lemma CutIndex(order: seq<nat>, i: nat, j: nat)
    requires i < |order| && j < |order| - 1 && Distinct(order)
    ensures var j0 := if j < i then j else j + 1;
            && Cut(order, i)[j] == order[j0]
            && NextOf(Cut(order, i), j) == (if j0 + 1 == i then NextOf(order, i) else NextOf(order, j0))
            && PrevOf(Cut(order, i), j) == (if j0 == i + 1 then PrevOf(order, i) else PrevOf(order, j0))
  {
  }

  lemma NeighboursInRange<K, V>(t: seq<Entry<K, V>>, order: seq<nat>, i: nat, head: int, tail: int)
    requires Linked(t, order, head, tail) && i < |order|
    ensures var n := order[i]; n < |t| && -1 <= t[n].next < |t| && -1 <= t[n].prev < |t|
  {
    assert t[order[i]].next == NextOf(order, i) && t[order[i]].prev == PrevOf(order, i);
  }

  lemma DeletedListed<K, V>(t: seq<Entry<K, V>>, order: seq<nat>, i: nat)
    requires Listed(t, order) && i < |order|
    requires var n := order[i]; n < |t| && -1 <= t[n].next < |t| && -1 <= t[n].prev < |t|
    ensures Listed(Deleted(t, order[i]), Cut(order, i))
  {
    DeletedSlots(t, order[i]);
    hide Deleted, Cut;
    var t1, o1 := Deleted(t, order[i]), Cut(order, i);
    forall j | 0 <= j < |o1| ensures o1[j] < |t1| && t1[o1[j]].k.Live? && t1[o1[j]].v.Some? {
      assert o1[j] in order && o1[j] != order[i];
    }
  }

  lemma DeletedContents<K, V>(t: seq<Entry<K, V>>, order: seq<nat>, i: nat)
    requires Listed(t, order) && i < |order|
    requires var n := order[i]; n < |t| && -1 <= t[n].next < |t| && -1 <= t[n].prev < |t|
    requires Listed(Deleted(t, order[i]), Cut(order, i))
    ensures Contents(Deleted(t, order[i]), Cut(order, i)) == Contents(t, order)[..i] + Contents(t, order)[i + 1..]
  {
    DeletedSlots(t, order[i]);
    hide Deleted;
    var t1, o1 := Deleted(t, order[i]), Cut(order, i);
    forall j | 0 <= j < |o1| ensures Contents(t1, o1)[j] == (Contents(t, order)[..i] + Contents(t, order)[i + 1..])[j] {
      assert o1[j] == order[if j < i then j else j + 1];
      assert o1[j] in o1;
    }
  }

  /** The slots beside the i-th one, and no others, are its neighbours. */
  lemma Neighbours(order: seq<nat>, i: nat, j: nat)
    requires Distinct(order) && i < |order| && j < |order|
    ensures order[j] == order[i] <==> j == i
    ensures order[j] == PrevOf(order, i) <==> j + 1 == i
    ensures order[j] == NextOf(order, i) <==> j == i + 1
    ensures NextOf(order, i) == if i == |order| - 1 then -1 else order[i + 1]
    ensures PrevOf(order, i) == if i == 0 then -1 else order[i - 1]
  {
  }

  lemma DeletedLinked<K, V>(t: seq<Entry<K, V>>, order: seq<nat>, i: nat, head: int, tail: int)
    requires Listed(t, order) && Linked(t, order, head, tail) && i < |order|
    requires var n := order[i]; n < |t| && -1 <= t[n].next < |t| && -1 <= t[n].prev < |t|
    ensures Linked(Deleted(t, order[i]), Cut(order, i), if i == 0 then t[order[i]].next else head,
                   if i == |order| - 1 then t[order[i]].prev else tail)
  {
    hide Deleted, Cut, NextOf, PrevOf, Distinct;
    var n := order[i];
    assert t[n].next == NextOf(order, i) && t[n].prev == PrevOf(order, i);
    DeletedSlots(t, n);
    CutSize(order, i);
    Neighbours(order, i, i);
    var t1, o1 := Deleted(t, n), Cut(order, i);
    forall j | 0 <= j < |o1|
      ensures o1[j] < |t1| && t1[o1[j]].next == NextOf(o1, j) && t1[o1[j]].prev == PrevOf(o1, j) {
      CutIndex(order, i, j);
      var j0 := if j < i then j else j + 1;
      Neighbours(order, i, j0);
      assert t[order[j0]].next == NextOf(order, j0) && t[order[j0]].prev == PrevOf(order, j0);
    }
  }

  lemma DeletedReachable<K, V>(t: seq<Entry<K, V>>, hash: K -> nat, n: nat)
    requires UniqueKeys(t) && Reachable(t, hash)
    requires n < |t| && -1 <= t[n].next < |t| && -1 <= t[n].prev < |t|
    ensures UniqueKeys(Deleted(t, n)) && Reachable(Deleted(t, n), hash)
  {
    DeletedSlots(t, n);
    var t1 := Deleted(t, n);
    forall m | 0 <= m < |t1| && t1[m].k.Live? ensures Reaches(t1, hash(t1[m].k.key) % |t1|, m) {
      var h := hash(t1[m].k.key) % |t1|;
      assert Reaches(t, h, m);
      forall d | 0 <= d < Distance(h, m, |t1|) ensures !t1[Probe(h, d, |t1|)].k.Empty? {
        assert !t[Probe(h, d, |t|)].k.Empty?;
      }
    }
  }

  // ---------------------------------------------------------------- the table

  /** Does the probe for k ever stop? Only at the key or at an EMPTY slot. */
  ghost predicate Stops<K, V>(t: seq<Entry<K, V>>, k: K) {
    Present(t, k) || HasEmpty(t)
  }

  /** The slot the loop of `lh_table_lookup_entry` looks at after d rounds. */
  function Walked(h: nat, d: nat, size: nat): (n: nat)
    requires h < size
    ensures n < size
    decreases d
  {
    if d == 0 then h else
      var n := Walked(h, d - 1, size) + 1;
      if n == size then 0 else n
  }

  lemma {:induction false} WalkedIsProbe(h: nat, d: nat, size: nat)
    requires h < size && d < size
    ensures Walked(h, d, size) == Probe(h, d, size)
    decreases d
  {
    if d > 0 {
      WalkedIsProbe(h, d - 1, size);
    }
  }

  /** Wherever it starts, the loop comes to a slot where it stops if and only if there is one: the key's, or an EMPTY
      one. */
  lemma LookupStopsIff<K, V>(t: seq<Entry<K, V>>, k: K, h: nat)
    requires h < |t|
    ensures Stops(t, k) <==> exists d: nat :: t[Walked(h, d, |t|)].k.Empty? || t[Walked(h, d, |t|)].k == Live(k)
  {
    if Stops(t, k) {
      var m :| 0 <= m < |t| && (t[m].k.Empty? || t[m].k == Live(k));
      WalkedIsProbe(h, Distance(h, m, |t|), |t|);
      assert t[Walked(h, Distance(h, m, |t|), |t|)] == t[m];
    }
  }

  lemma NotPastEmpty<K, V>(t: seq<Entry<K, V>>, hash: K -> nat, k: K, d: nat)
    requires Reachable(t, hash) && d < |t|
    requires var h := hash(k) % |t|;
             t[Probe(h, d, |t|)].k.Empty? && forall e :: 0 <= e < d ==> t[Probe(h, e, |t|)].k != Live(k)
    ensures !Present(t, k)
  {
    var h := hash(k) % |t|;
    forall m | 0 <= m < |t| ensures t[m].k != Live(k) {
      var dm := Distance(h, m, |t|);
      assert t[m].k.Live? ==> Reaches(t, hash(t[m].k.key) % |t|, m);
      assert dm < d ==> t[Probe(h, dm, |t|)].k != Live(k);
    }
  }

  lemma WentRound<K, V>(t: seq<Entry<K, V>>, h: nat, k: K)
    requires h < |t|
    requires forall e :: 0 <= e < |t| ==> !t[Probe(h, e, |t|)].k.Empty? && t[Probe(h, e, |t|)].k != Live(k)
    ensures !Stops(t, k)
  {
    forall m | 0 <= m < |t| ensures !t[m].k.Empty? && t[m].k != Live(k) {
      assert !t[Probe(h, Distance(h, m, |t|), |t|)].k.Empty?;
    }
  }

  lemma AllLive<K, V>(t: seq<Entry<K, V>>, h: nat)
    requires h < |t| && forall e :: 0 <= e < |t| ==> t[Probe(h, e, |t|)].k.Live?
    ensures forall m :: 0 <= m < |t| ==> t[m].k.Live?
  {
    forall m | 0 <= m < |t| ensures t[m].k.Live? {
      assert t[Probe(h, Distance(h, m, |t|), |t|)].k.Live?;
    }
  }

  lemma AbsentKey<K, V>(t: seq<Entry<K, V>>, order: seq<nat>, k: K)
    requires Listed(t, order) && !Present(t, k)
    ensures Get(Contents(t, order), k) == None && Remove(Contents(t, order), k) == Contents(t, order)
  {
    GetAbsent(Contents(t, order), k);
    RemoveAbsent(Contents(t, order), k);
  }

  lemma IndexOf<K, V>(t: seq<Entry<K, V>>, order: seq<nat>, n: nat) returns (i: nat)
    requires Listed(t, order) && n < |t| && t[n].k.Live?
    ensures i < |order| && order[i] == n
  {
    i :| 0 <= i < |order| && order[i] == n;
  }

  /** Only slot n may hold another key than before. */
  ghost predicate KeysElsewhere<K, V>(t0: seq<Entry<K, V>>, t1: seq<Entry<K, V>>, n: nat) {
    |t1| == |t0| && forall m :: 0 <= m < |t0| && m != n ==> t1[m].k == t0[m].k
  }

  /** Every slot before n on the probe sequence from h is live. */
  ghost predicate LiveBefore<K, V>(t: seq<Entry<K, V>>, h: nat, n: nat) {
    h < |t| && n < |t| && forall d :: 0 <= d < Distance(h, n, |t|) ==> t[Probe(h, d, |t|)].k.Live?
  }

  lemma EntryAt<K, V>(t: seq<Entry<K, V>>, order: seq<nat>, i: nat)
    requires Listed(t, order) && i < |order|
    ensures |Contents(t, order)| == |order| && order[i] < |t| && t[order[i]].k.Live? && t[order[i]].v.Some?
    ensures Contents(t, order)[i] == (t[order[i]].k.key, t[order[i]].v.value)
  {
  }

  lemma LinkAt<K, V>(t: seq<Entry<K, V>>, order: seq<nat>, head: int, tail: int, i: nat)
    requires Linked(t, order, head, tail) && i < |order|
    ensures order[i] < |t| && t[order[i]].next == NextOf(order, i)
  {
  }

  lemma HeadAndTail<K, V>(t: seq<Entry<K, V>>, order: seq<nat>, head: int, tail: int)
    requires Listed(t, order) && Linked(t, order, head, tail)
    ensures head == (if order == [] then -1 else order[0]) && (head == -1 <==> tail == -1)
    ensures |Contents(t, order)| == |order|
  {
  }

  /** The ends of the list are the slots that have no neighbour on that side. */
  lemma Ends<K, V>(t: seq<Entry<K, V>>, order: seq<nat>, i: nat, head: int, tail: int)
    requires Listed(t, order) && Linked(t, order, head, tail) && i < |order|
    ensures var n := order[i];
            && (head == n <==> i == 0) && (tail == n <==> i == |order| - 1)
            && (head == n <==> t[n].prev == -1) && (tail == n <==> t[n].next == -1)
            && t[n].prev != n && t[n].next != n && (t[n].prev == t[n].next ==> t[n].prev == -1)
  {
    assert t[order[i]].next == NextOf(order, i) && t[order[i]].prev == PrevOf(order, i);
  }

  lemma PresentIsKey<K, V>(t: seq<Entry<K, V>>, order: seq<nat>, k: K)
    requires Listed(t, order)
    ensures Present(t, k) <==> exists i :: 0 <= i < |order| && Contents(t, order)[i].0 == k
  {
    if Present(t, k) {
      var n :| 0 <= n < |t| && t[n].k == Live(k);
      var i := IndexOf(t, order, n);
      assert Contents(t, order)[i].0 == k;
    }
    if exists i :: 0 <= i < |order| && Contents(t, order)[i].0 == k {
      var i :| 0 <= i < |order| && Contents(t, order)[i].0 == k;
      assert t[order[i]].k == Live(k);
    }
  }

  lemma KeyIsNew<K, V>(t: seq<Entry<K, V>>, order: seq<nat>, i: nat, t1: seq<Entry<K, V>>, o1: seq<nat>)
    requires Listed(t, order) && UniqueKeys(t) && i < |order| && Listed(t1, o1)
    requires Contents(t1, o1) == Contents(t, order)[..i]
    ensures !Present(t1, t[order[i]].k.key)
  {
    ContentsUnique(t, order);
    PresentIsKey(t1, o1, t[order[i]].k.key);
    assert Contents(t, order)[i].0 == t[order[i]].k.key;
    assert forall j :: 0 <= j < |o1| ==> Contents(t1, o1)[j] == Contents(t, order)[j];
  }

  lemma {:induction false} AtMost(order: seq<nat>, size: nat)
    requires Distinct(order) && forall i :: 0 <= i < |order| ==> order[i] < size
    ensures |order| <= size
    decreases size
  {
    if order != [] {
      assert order[0] < size;
      if size - 1 in order {
        var i :| 0 <= i < |order| && order[i] == size - 1;
        assert forall j :: 0 <= j < |Cut(order, i)| ==> Cut(order, i)[j] in order;
        AtMost(Cut(order, i), size - 1);
      } else {
        assert forall i :: 0 <= i < |order| ==> order[i] in order;
        AtMost(order, size - 1);
      }
    }
  }

  lemma AtMostSize<K, V>(t: seq<Entry<K, V>>, order: seq<nat>)
    requires Listed(t, order)
    ensures |order| <= |t|
  {
    AtMost(order, |t|);
  }

  lemma GoneAfterDelete<K, V>(t0: seq<Entry<K, V>>, t1: seq<Entry<K, V>>, n: nat, k: K)
    requires UniqueKeys(t0) && n < |t0| == |t1| && t0[n].k == Live(k) && t1[n].k.Freed?
    requires KeysElsewhere(t0, t1, n)
    ensures !Present(t1, k)
  {
  }

  /** Putting a key back finds the tombstone it left: every slot before it on the probe sequence is live. */
  lemma SameSlot<K, V>(t0: seq<Entry<K, V>>, t1: seq<Entry<K, V>>, hash: K -> nat, k: K, n: nat, m: nat)
    requires Reachable(t0, hash) && NoFreed(t0) && n < |t0| == |t1| && m < |t1|
    requires t0[n].k == Live(k) && t1[n].k.Freed?
    requires KeysElsewhere(t0, t1, n)
    requires !t1[m].k.Live? && LiveBefore(t1, hash(k) % |t1|, m)
    ensures m == n
  {
    var h := hash(k) % |t1|;
    assert Reaches(t0, h, n);
    var dn, dm := Distance(h, n, |t1|), Distance(h, m, |t1|);
    var d := if dm < dn then dm else dn;
    var e0, e1 := t0[Probe(h, d, |t0|)], t1[Probe(h, d, |t1|)];
  }

  class Table<K(==), V> {
    const hash: K -> nat
    var size: nat
    var count: nat
    var table: array<Entry<K, V>>
    var head: int
    var tail: int
    ghost var order: seq<nat>

    ghost predicate Valid()
      reads this, table
    {
      && 0 < size == table.Length
      && count == |order|
      && Inv(table[..], order, head, tail, hash)
    }

    /** The insertion-ordered map that the table stands for. */
    ghost function Map(): seq<(K, V)>
      requires Valid()
      reads this, table
    {
      Contents(table[..], order)
    }

    /** lh_table_new */
    constructor (size: nat, hash: K -> nat)
      requires size > 0
      ensures Valid() && fresh(table) && this.hash == hash && this.size == size
      ensures Map() == [] && count == 0 && NoFreed(table[..]) && HasEmpty(table[..])
      ensures forall n :: 0 <= n < size ==> table[n].k.Empty?
    {
      this.hash := hash;
      this.size := size;
      count := 0;
      table := new Entry<K, V>[size](_ => Entry(Empty, None, -1, -1));
      head, tail := -1, -1;
      order := [];
      new;
      assert table[..][0].k.Empty?;
    }

    /** `lh_table_lookup_entry`: the slot of k, or -1. */
    method LookupEntry(k: K) returns (n: int)
      requires Valid() && Stops(table[..], k)
      ensures -1 <= n < size
      ensures n >= 0 ==> table[n].k == Live(k)
      ensures n == -1 ==> !Present(table[..], k)
    {
      hide Listed, Linked, UniqueKeys, Reachable;
      var h := hash(k) % size;
      n := h;
      ghost var d := 0;
      while true
        invariant 0 <= d < size && n == Probe(h, d, size)
        invariant forall e :: 0 <= e < d ==> !table[Probe(h, e, size)].k.Empty? && table[Probe(h, e, size)].k != Live(k)
        decreases size - d
      {
        if table[n].k.Empty? {
          NotPastEmpty(table[..], hash, k, d);
          return -1;
        }
        if !table[n].k.Freed? && table[n].k.key == k {
          return;
        }
        if d + 1 == size {
          WentRound(table[..], h, k);
          assert false;
        }
        n := n + 1;
        if n == size {
          n := 0;
        }
        d := d + 1;
      }
    }

    /** `lh_table_lookup` */
    method Lookup(k: K) returns (v: Option<V>)
      requires Valid() && Stops(table[..], k)
      ensures v == Get(Map(), k)
    {
      var n := LookupEntry(k);
      ContentsUnique(table[..], order);
      if n == -1 {
        AbsentKey(table[..], order, k);
        return None;
      }
      ghost var i := IndexOf(table[..], order, n);
      GetAt(Map(), i);
      return table[n].v;
    }

    /** The probe of `lh_table_insert`: the first EMPTY or FREED slot on the probe sequence. */
    method FindSlot(k: K) returns (n: nat)
      requires Valid() && count < size
      ensures n < size && !table[n].k.Live?
      ensures LiveBefore(table[..], hash(k) % size, n)
    {
      hide Listed, Linked, UniqueKeys, Reachable;
      RoomForOne(table[..], order);
      var h := hash(k) % size;
      n := h;
      ghost var d := 0;
      while table[n].k.Live?
        invariant 0 <= d < size && n == Probe(h, d, size)
        invariant forall e :: 0 <= e < d ==> table[Probe(h, e, size)].k.Live?
        decreases size - d
      {
        if d + 1 == size {
          AllLive(table[..], h);
          assert false;
        }
        n := n + 1;
        if n == size {
          n := 0;
        }
        d := d + 1;
      }
    }

    /** The stores of `lh_table_insert` into slot n and the list. */
    method Link(n: nat, k: K, v: V)
      requires n < table.Length && -1 <= tail < table.Length && n != tail && (head == -1 <==> tail == -1)
      modifies this`head, this`tail, table
      ensures table[..] == Inserted(old(table[..]), n, k, v, old(tail))
      ensures head == (if old(head) == -1 then n else old(head)) && tail == n
    {
      table[n] := Entry(Live(k), Some(v), -1, tail);
      if head == -1 {
        head := n;
        tail := n;
      } else {
        table[tail] := table[tail].(next := n);
        tail := n;
      }
    }

    /** `lh_table_insert` after the resize. */
    method InsertSlot(k: K, v: V) returns (ghost n: nat)
      requires Valid() && !Present(table[..], k) && count < size
      modifies this, table
      ensures Valid() && table == old(table) && size == old(size) && count == old(count) + 1
      ensures Map() == old(Map()) + [(k, v)]
      ensures n < size && !old(table[..])[n].k.Live? && table[n].k == Live(k)
      ensures KeysElsewhere(old(table[..]), table[..], n)
      ensures LiveBefore(old(table[..]), hash(k) % size, n)
    {
      hide Listed, Linked, UniqueKeys, Reachable, Inserted, Contents;
      var at := FindSlot(k);
      n := at;
      ghost var t := table[..];
      InsertedListed(t, order, at, k, v, head, tail);
      InsertedReachable(t, hash, at, k, v, tail);
      InsertedSlots(t, at, k, v, tail);
      HeadAndTail(t, order, head, tail);
      Link(at, k, v);
      count := count + 1;
      order := order + [n];
    }

    /** The stores of `lh_table_delete_entry`. */
    method Unlink(n: nat)
      requires n < table.Length && -1 <= table[n].next < table.Length && -1 <= table[n].prev < table.Length
      requires (head == n <==> table[n].prev == -1) && (tail == n <==> table[n].next == -1)
      requires table[n].prev != n && table[n].next != n && (table[n].prev == table[n].next ==> table[n].prev == -1)
      modifies this`head, this`tail, table
      ensures table[..] == Deleted(old(table[..]), n)
      ensures head == (if old(head) == n then old(table[n].next) else old(head))
      ensures tail == (if old(tail) == n then old(table[n].prev) else old(tail))
    {
      var p, q := table[n].prev, table[n].next;
      if tail == n && head == n {
        head, tail := -1, -1;
      } else if head == n {
        table[q] := table[q].(prev := -1);
        head := q;
      } else if tail == n {
        table[p] := table[p].(next := -1);
        tail := p;
      } else {
        table[p] := table[p].(next := q);
        table[q] := table[q].(prev := p);
      }
      table[n] := Entry(Freed, None, -1, -1);
    }

    /** `lh_table_delete_entry` */
    method DeleteEntry(n: nat) returns (ghost i: nat)
      requires Valid() && n < size && table[n].k.Live?
      modifies this, table
      ensures Valid() && table == old(table) && size == old(size) && count == old(count) - 1
      ensures i < |old(Map())| && old(Map())[i].0 == old(table[n].k.key)
      ensures Map() == old(Map())[..i] + old(Map())[i + 1..]
      ensures table[n].k.Freed? && KeysElsewhere(old(table[..]), table[..], n)
    {
      hide Listed, Linked, UniqueKeys, Reachable, Contents, Deleted;
      ghost var t := table[..];
      i := IndexOf(t, order, n);
      EntryAt(t, order, i);
      NeighboursInRange(t, order, i, head, tail);
      DeletedListed(t, order, i);
      DeletedContents(t, order, i);
      DeletedLinked(t, order, i, head, tail);
      DeletedReachable(t, hash, n);
      DeletedSlots(t, n);
      Ends(t, order, i, head, tail);
      Unlink(n);
      count := count - 1;
      order := Cut(order, i);
    }

    /** `lh_table_resize`: a new table with the same entries in the same order, and no tombstones. */
    method Resize(newSize: nat)
      requires Valid() && count < newSize && 100 * count <= 66 * newSize
      modifies this, table
      ensures Valid() && fresh(table) && size == newSize && count == old(count)
      ensures Map() == old(Map()) && NoFreed(table[..])
    {
      hide Listed, Linked, UniqueKeys, Reachable, Contents;
      var t := new Table<K, V>(newSize, hash);
      ghost var m0, t0 := Map(), table[..];
      var ent := head;
      ghost var i := 0;
      HeadAndTail(t0, order, head, tail);
      while ent != -1
        invariant unchanged(this) && table[..] == t0 && Inv(t0, order, head, tail, hash)
        invariant t.Valid() && fresh(t) && fresh(t.table) && t.hash == hash && t.size == newSize
        invariant 0 <= i <= |order| == |m0| && ent == (if i < |order| then order[i] else -1)
        invariant t.Map() == m0[..i] && t.count == i && NoFreed(t.table[..])
        decreases |order| - i
      {
        EntryAt(t0, order, i);
        LinkAt(t0, order, head, tail, i);
        KeyIsNew(t0, order, i, t.table[..], t.order);
        assert table[ent] == t0[ent];
        ghost var n := t.InsertSlot(table[ent].k.key, table[ent].v.value);
        assert m0[..i + 1] == m0[..i] + [m0[i]];
        ent := table[ent].next;
        i := i + 1;
      }
      assert m0[..i] == m0;
      table := t.table;
      size := newSize;
      head := t.head;
      tail := t.tail;
      order := t.order;
    }

    /** `lh_table_insert`: resize when more than 66% full, then take a slot. */
    method Insert(k: K, v: V) returns (ghost n: nat)
      requires Valid() && !Present(table[..], k)
      modifies this, table
      ensures Valid() && (table == old(table) || fresh(table))
      ensures Map() == old(Map()) + [(k, v)]
      ensures size == if 100 * old(count) > 66 * old(size) then 2 * old(size) else old(size)
      ensures count == old(count) + 1 && 100 * old(count) <= 66 * size
      ensures old(NoFreed(table[..])) ==> NoFreed(table[..])
      ensures n < size && table[n].k == Live(k)
      ensures size == old(size) ==>
                && table == old(table) && !old(table[..])[n].k.Live?
                && KeysElsewhere(old(table[..]), table[..], n)
                && LiveBefore(old(table[..]), hash(k) % size, n)
      ensures size != old(size) ==> NoFreed(table[..])
    {
      hide Listed, Linked, UniqueKeys, Reachable, Contents;
      AtMostSize(table[..], order);
      if 100 * count > 66 * size {
        PresentIsKey(table[..], order, k);
        Resize(2 * size);
        PresentIsKey(table[..], order, k);
      }
      n := InsertSlot(k, v);
    }

    /** `lh_table_delete`: false when the key is not there. */
    method Delete(k: K) returns (found: bool, ghost n: nat)
      requires Valid() && Stops(table[..], k)
      modifies this, table
      ensures Valid() && table == old(table) && size == old(size)
      ensures found <==> old(Present(table[..], k))
      ensures Map() == Remove(old(Map()), k)
      ensures !Present(table[..], k)
      ensures !found ==> table[..] == old(table[..]) && count == old(count)
      ensures found ==> count == old(count) - 1 && n < size && old(table[..])[n].k == Live(k) && table[n].k.Freed? &&
                        KeysElsewhere(old(table[..]), table[..], n)
    {
      var e := LookupEntry(k);
      n := 0;
      if e == -1 {
        AbsentKey(table[..], order, k);
        return false, 0;
      }
      n := e;
      ContentsUnique(table[..], order);
      ghost var m0 := Map();
      ghost var t0 := table[..];
      ghost var i := DeleteEntry(e);
      RemoveAt(m0, i);
      GoneAfterDelete(t0, table[..], n, k);
      found := true;
    }

    /** What every run of `json_object_object_add` on a fresh object keeps: no tombstones, and room. */
    ghost predicate Clean()
      requires Valid()
      reads this, table
    {
      NoFreed(table[..]) && size >= 3 && 100 * (count - 1) <= 66 * size
    }

    /** `json_object_object_add`: delete the key, then insert it. */
    method ObjectAdd(k: K, v: V)
      requires Valid() && Clean()
      modifies this, table
      ensures Valid() && Clean() && (table == old(table) || fresh(table))
      ensures Map() == Put(old(Map()), k, v)
      ensures HasEmpty(table[..])
    {
      hide Listed, Linked, UniqueKeys, Reachable, Contents;
      RoomForOne(table[..], order);
      ghost var t0, size0 := table[..], size;
      var found, n := Delete(k);
      ghost var t1 := table[..];
      ghost var m := Insert(k, v);
      if found && size == size0 {
        SameSlot(t0, t1, hash, k, n, m);
      }
      RoomForOne(table[..], order);
    }

    /** A whole run of json_object_object_add, and a lookup at the end: it stops, and finds the last value written. */
    method AddAllThenLookup(adds: seq<(K, V)>, k: K) returns (v: Option<V>)
      requires Valid() && Clean()
      modifies this, table
      ensures Valid() && Clean() && (table == old(table) || fresh(table))
      ensures Map() == PutAll(old(Map()), adds)
      ensures v == if LastFor(adds, k).Some? then LastFor(adds, k) else Get(old(Map()), k)
    {
      hide Listed, Linked, UniqueKeys, Reachable, Contents, Put, Get, LastFor;
      ghost var before := Map();
      MapUnique();
      var i := 0;
      assert adds[..0] == [];
      while i < |adds|
        invariant 0 <= i <= |adds| && Valid() && Clean() && (table == old(table) || fresh(table))
        invariant Map() == PutAll(before, adds[..i])
      {
        ObjectAdd(adds[i].0, adds[i].1);
        assert adds[..i + 1][..i] == adds[..i] && adds[..i + 1][i] == adds[i];
        i := i + 1;
      }
      assert adds[..i] == adds;
      RoomForOne(table[..], order);
      v := Lookup(k);
      GetPutAll(before, adds, k);
    }

    lemma MapUnique()
      requires Valid()
      ensures Unique(Map())
    {
      ContentsUnique(table[..], order);
    }
  }

  /** Slots below i are tombstones and the others empty. */
  ghost predicate Tombstones<K, V>(t: seq<Entry<K, V>>, i: nat) {
    forall n :: 0 <= n < |t| ==> if n < i then t[n].k.Freed? else t[n].k.Empty?
  }

  lemma OneMoreTombstone<K, V>(t0: seq<Entry<K, V>>, t1: seq<Entry<K, V>>, t2: seq<Entry<K, V>>, i: nat, n: nat, k: K)
    requires i < |t0| && Tombstones(t0, i) && KeysElsewhere(t0, t1, i) && t1[i].k.Live?
    requires KeysElsewhere(t1, t2, n) && n < |t1| && t1[n].k == Live(k) && t2[n].k.Freed?
    ensures Tombstones(t2, i + 1)
  {
    assert n == i;
  }

  method InsertAndDelete<K(==), V>(t: Table<K, V>, i: nat, k: K, v: V)
    requires t.Valid() && t.count == 0 && t.Map() == [] && i < t.size && t.hash(k) % t.size == i
    requires Tombstones(t.table[..], i)
    modifies t, t.table
    ensures t.Valid() && t.table == old(t.table) && t.size == old(t.size) && t.count == 0 && t.Map() == []
    ensures Tombstones(t.table[..], i + 1)
  {
    hide Listed, Linked, UniqueKeys, Reachable, Contents, Tombstones, KeysElsewhere, LiveBefore, Remove;
    ghost var t0 := t.table[..];
    NothingLive(t0, i, k);
    ghost var n := t.Insert(k, v);
    FirstProbe(t0, i, n);
    ghost var m1: seq<(K, V)> := t.Map();
    assert m1 == [(k, v)];
    ghost var t1 := t.table[..];
    var found, m := t.Delete(k);
    OneMoreTombstone(t0, t1, t.table[..], i, m, k);
    RemoveOnly(k, v);
  }

  lemma NothingLive<K, V>(t: seq<Entry<K, V>>, i: nat, k: K)
    requires i < |t| && Tombstones(t, i)
    ensures !t[i].k.Live? && !Present(t, k)
  {
  }

  lemma RemoveOnly<K, V>(k: K, v: V)
    ensures Remove([(k, v)], k) == []
  {
    assert [(k, v)][1..] == [];
  }

  /** Deletion breaks the promise that `ObjectAdd` keeps: whatever the hash, inserting and deleting one key for each
      slot leaves an empty map whose slots are all tombstones, in which no lookup stops. */
  method FillWithTombstones<K(==), V>(hash: K -> nat, keys: seq<K>, v: V) returns (t: Table<K, V>)
    requires keys != [] && forall i :: 0 <= i < |keys| ==> hash(keys[i]) % |keys| == i
    ensures fresh(t) && fresh(t.table) && t.Valid() && t.Map() == [] && t.hash == hash
    ensures forall k :: !Stops(t.table[..], k)
  {
    t := new Table<K, V>(|keys|, hash);
    var i := 0;
    while i < |keys|
      invariant 0 <= i <= |keys| == t.size && t.Valid() && fresh(t) && fresh(t.table) && t.hash == hash
      invariant t.Map() == [] && t.count == 0 && Tombstones(t.table[..], i)
    {
      InsertAndDelete(t, i, keys[i], v);
      i := i + 1;
    }
  }

  /** If the first slot probed is not live, it is the one taken. */
  lemma FirstProbe<K, V>(t: seq<Entry<K, V>>, h: nat, n: nat)
    requires h < |t| && n < |t| && LiveBefore(t, h, n) && !t[h].k.Live?
    ensures n == h
  {
    assert Probe(h, 0, |t|) == h;
  }
}
