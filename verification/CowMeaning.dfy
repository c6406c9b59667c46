/** What the operations on arrays (`array.c`) do, element by element: the meaning of `CowArray.Apply`. */
module CowMeaning {
  import opened Wrappers
  import opened CowArray

  type Views = map<nat, seq<Value>>

  /** The elements that a list has, and nil beyond its end. */
  function At(s: seq<Value>, i: int): Value { if 0 <= i < |s| then s[i] else Nil }

  /** Only the array a changes, and then reads as t. */
  predicate Becomes(m: Independent, o: Outcome, a: nat, t: seq<Value>) {
    && o.after.next == m.next && o.after.view.Keys == m.view.Keys && a in m.view && o.after.view[a] == t
    && forall b :: b in m.view && b != a ==> o.after.view[b] == m.view[b]
  }

  /** A new array reads as t, and no other changes. */
  predicate Appears(m: Independent, o: Outcome, t: seq<Value>) {
    && o == Outcome(o.after, Made(m.next)) && o.after.next == m.next + 1
    && o.after.view.Keys == m.view.Keys + {m.next} && o.after.view[m.next] == t
    && forall b :: b in m.view && b != m.next ==> o.after.view[b] == m.view[b]
  }

  /** a[i] = val: a negative index counts from the end; what lies between the end and the index is nil. */
  lemma Stores(m: Independent, a: nat, i: int, val: Value)
    requires Allowed(Store(a, i, val), m)
    ensures var o, s := Apply(Store(a, i, val), m), m.view[a];
            var k := if i < 0 then |s| + i else i;
            if k < 0 || i >= 0xfff_ffff_ffff_ffff then o == Outcome(m, IndexError)
            else
              var t := o.after.view[a];
              && o.reply == Done && Becomes(m, o, a, t) && |t| == Max(|s|, k + 1)
              && forall j :: 0 <= j < |t| ==> t[j] == if j == k then val else At(s, j)
  {
  }

  function Max(a: int, b: int): int { if a < b then b else a }

  function Min(a: int, b: int): int { if a < b then a else b }

  /** push puts the element behind the last one. */
  lemma Pushes(m: Independent, a: nat, val: Value)
    requires Allowed(Push(a, val), m)
    ensures var o, s := Apply(Push(a, val), m), m.view[a];
            if |s| >= 0xfff_ffff_ffff_ffff then o == Outcome(m, IndexError)
            else
              var t := o.after.view[a];
              && o.reply == Done && Becomes(m, o, a, t) && |t| == |s| + 1
              && forall j :: 0 <= j < |t| ==> t[j] == if j == |s| then val else At(s, j)
  {
  }

  /** pop takes the last element and shift the first, or answer nil. */
  lemma Takes(m: Independent, a: nat)
    requires a in m.view
    ensures var o, s := Apply(Pop(a), m), m.view[a];
            var t := o.after.view[a];
            && o.reply == Got(At(s, |s| - 1)) && Becomes(m, o, a, t) && |t| == Max(0, |s| - 1)
            && forall j :: 0 <= j < |t| ==> t[j] == At(s, j)
    ensures var o, s := Apply(Shift(a), m), m.view[a];
            var t := o.after.view[a];
            && o.reply == Got(At(s, 0)) && Becomes(m, o, a, t) && |t| == Max(0, |s| - 1)
            && forall j :: 0 <= j < |t| ==> t[j] == At(s, j + 1)
  {
  }

  /** a[beg, len]: as many elements as there are, or nil when beg lies past the end. */
  lemma Cuts(m: Independent, a: nat, beg: int, len: int)
    requires a in m.view
    ensures var o, s := Apply(Subseq(a, beg, len), m), m.view[a];
            if 0 <= beg <= |s| && len >= 0 then
              var t := o.after.view[m.next];
              && Appears(m, o, t) && |t| == Min(len, |s| - beg)
              && forall j :: 0 <= j < |t| ==> t[j] == At(s, beg + j)
            else o == Outcome(m, Got(Nil))
  {
    var s := m.view[a];
    if 0 <= beg <= |s| && len >= 0 {
      var t := Window(s, beg, len);
      assert forall j :: 0 <= j < |t| ==> t[j] == s[beg..][j];
    }
  }

  /** a[start, len] = r: the elements before the range, those of r, and those behind the range, with nil between the end
      and a range that starts past it. */
  lemma Splices(m: Independent, a: nat, start: int, len: int, rpl: Option<nat>)
    requires Allowed(Splice(a, start, len, rpl), m)
    ensures var o, s := Apply(Splice(a, start, len, rpl), m), m.view[a];
            var r := if rpl.Some? then m.view[rpl.value] else [];
            var beg := if start < 0 then |s| + start else start;
            if len < 0 || beg < 0 || (beg >= |s| && beg + |r| > 0xfff_ffff_ffff_ffff) then o == Outcome(m, IndexError)
            else
              var t := o.after.view[a];
              var k := if beg < |s| then Min(len, |s| - beg) else 0; // elements removed
              && o.reply == Done && Becomes(m, o, a, t) && |t| == Max(|s|, beg) + |r| - k
              && (forall j :: 0 <= j < beg ==> t[j] == At(s, j))
              && (forall j :: beg <= j < beg + |r| ==> t[j] == r[j - beg])
              && (forall j :: beg + |r| <= j < |t| ==> t[j] == At(s, j - |r| + k))
  {
  }

  /** replace takes over the other array's elements; the collector takes away the array it collects and nothing else. */
  lemma ReplacesAndCollects(m: Independent, a: nat, b: nat, r: nat)
    requires a in m.view && b in m.view
    ensures Apply(Replace(a, b), m).reply == Done && Becomes(m, Apply(Replace(a, b), m), a, m.view[b])
    ensures var o := Apply(Collect(a), m);
            && o.after.next == m.next && o.after.view.Keys == m.view.Keys - {a}
            && forall c :: c in m.view && c != a ==> o.after.view[c] == m.view[c]
    ensures Apply(Sweep(r), m).after == m
  {
  }

  lemma Makes(m: Independent, elems: seq<Value>)
    ensures Appears(m, Apply(New(elems), m), elems)
  {
  }
}
