/** Insertion-ordered maps as sequences of key/value pairs: the abstract value of an
    `lh_table`, and of a JSON object built on one. */
module OrderedMap {
  import opened Wrappers

  ghost predicate Unique<K, V>(s: seq<(K, V)>) {
    forall i, j :: 0 <= i < j < |s| ==> s[i].0 != s[j].0
  }

  /** A sequence without its k-th entry. */
  function Cut<T>(s: seq<T>, k: nat): seq<T>
    requires k < |s|
  {
    s[..k] + s[k + 1..]
  }

  /** Drops every entry for k, keeping the order of the others. */
  function Remove<K(==), V>(s: seq<(K, V)>, k: K): (r: seq<(K, V)>)
    ensures |r| <= |s|
    ensures forall i :: 0 <= i < |r| ==> r[i].0 != k && r[i] in s
    ensures forall i :: 0 <= i < |s| && s[i].0 != k ==> s[i] in r
  {
    if s == [] then []
    else
      var r := Remove(s[1..], k);
      assert forall i :: 0 < i < |s| ==> s[i] == s[1..][i - 1];
      if s[0].0 == k then r else [s[0]] + r
  }

  /** `json_object_object_add`: delete the key if it is there, then append. */
  function Put<K(==), V>(s: seq<(K, V)>, k: K, v: V): seq<(K, V)> {
    Remove(s, k) + [(k, v)]
  }

  function Get<K(==), V>(s: seq<(K, V)>, k: K): Option<V> {
    if s == [] then None
    else if s[0].0 == k then Some(s[0].1)
    else Get(s[1..], k)
  }

  lemma {:induction false} RemoveAbsent<K, V>(s: seq<(K, V)>, k: K)
    requires forall i :: 0 <= i < |s| ==> s[i].0 != k
    ensures Remove(s, k) == s
  {
    if s != [] {
      RemoveAbsent(s[1..], k);
      assert s == [s[0]] + s[1..];
    }
  }

  lemma {:induction false} RemoveUnique<K, V>(s: seq<(K, V)>, k: K)
    requires Unique(s)
    ensures Unique(Remove(s, k))
  {
    if s != [] {
      RemoveUnique(s[1..], k);
      var r := Remove(s[1..], k);
      if s[0].0 != k {
        forall j | 0 <= j < |r| ensures r[j].0 != s[0].0 {
          assert r[j] in s[1..];
        }
      }
    }
  }

  lemma RemoveFirst<K, V>(s: seq<(K, V)>, k: K)
    requires s != []
    ensures Remove(s, k) == if s[0].0 == k then Remove(s[1..], k) else [s[0]] + Remove(s[1..], k)
  {
  }

  /** Removing the one entry at index i cuts exactly that entry out. */
  lemma {:induction false} RemoveAt<K, V>(s: seq<(K, V)>, i: nat)
    requires Unique(s) && i < |s|
    ensures Remove(s, s[i].0) == s[..i] + s[i + 1..]
  {
    hide Remove;
    RemoveFirst(s, s[i].0);
    if i == 0 {
      RemoveAbsent(s[1..], s[0].0);
      assert s[..0] + s[1..] == s[1..];
    } else {
      RemoveAt(s[1..], i - 1);
      CutCons(s, i);
    }
  }

  lemma CutCons<T>(s: seq<T>, i: nat)
    requires 0 < i < |s|
    ensures s[1..][i - 1] == s[i] && s[..i] + s[i + 1..] == [s[0]] + (s[1..][..i - 1] + s[1..][i..])
  {
  }

  lemma {:induction false} GetAt<K, V>(s: seq<(K, V)>, i: nat)
    requires Unique(s) && i < |s|
    ensures Get(s, s[i].0) == Some(s[i].1)
  {
    if i > 0 {
      GetAt(s[1..], i - 1);
    }
  }

  lemma {:induction false} GetAbsent<K, V>(s: seq<(K, V)>, k: K)
    requires forall i :: 0 <= i < |s| ==> s[i].0 != k
    ensures Get(s, k) == None
  {
    if s != [] {
      GetAbsent(s[1..], k);
    }
  }

  lemma {:induction false} GetAppend<K, V>(s: seq<(K, V)>, k: K, v: V, x: K)
    ensures Get(s + [(k, v)], x) == if Get(s, x).Some? then Get(s, x) else if x == k then Some(v) else None
  {
    if s == [] {
      assert s + [(k, v)] == [(k, v)];
    } else {
      assert (s + [(k, v)])[1..] == s[1..] + [(k, v)];
      GetAppend(s[1..], k, v, x);
    }
  }

  lemma {:induction false} GetRemove<K, V>(s: seq<(K, V)>, k: K, x: K)
    ensures Get(Remove(s, k), x) == if x == k then None else Get(s, x)
  {
    if s != [] {
      GetRemove(s[1..], k, x);
      var r := Remove(s[1..], k);
      assert ([s[0]] + r)[1..] == r;
    }
  }

  /** `Put` is a map update: unique keys stay unique, k reads back v, every other key is unchanged. */
  lemma PutIsMapUpdate<K, V>(s: seq<(K, V)>, k: K, v: V, x: K)
    requires Unique(s)
    ensures Unique(Put(s, k, v))
    ensures Get(Put(s, k, v), x) == if x == k then Some(v) else Get(s, x)
  {
    RemoveUnique(s, k);
    GetRemove(s, k, x);
    GetAppend(Remove(s, k), k, v, x);
  }

  /** Adding pairs one after another. */
  function PutAll<K(==), V>(s: seq<(K, V)>, adds: seq<(K, V)>): seq<(K, V)> {
    if adds == [] then s else Put(PutAll(s, adds[..|adds| - 1]), adds[|adds| - 1].0, adds[|adds| - 1].1)
  }

  /** The value added last under k. */
  function LastFor<K(==), V>(adds: seq<(K, V)>, k: K): Option<V> {
    if adds == [] then None
    else if adds[|adds| - 1].0 == k then Some(adds[|adds| - 1].1)
    else LastFor(adds[..|adds| - 1], k)
  }

  lemma {:induction false} GetPutAll<K, V>(s: seq<(K, V)>, adds: seq<(K, V)>, k: K)
    requires Unique(s)
    ensures Unique(PutAll(s, adds))
    ensures Get(PutAll(s, adds), k) == if LastFor(adds, k).Some? then LastFor(adds, k) else Get(s, k)
  {
    hide Put, Get, Unique;
    if adds != [] {
      GetPutAll(s, adds[..|adds| - 1], k);
      PutIsMapUpdate(PutAll(s, adds[..|adds| - 1]), adds[|adds| - 1].0, adds[|adds| - 1].1, k);
    }
  }

  /** A key that is not there yet goes to the end and nothing else moves. */
  lemma PutFresh<K, V>(s: seq<(K, V)>, k: K, v: V)
    requires forall i :: 0 <= i < |s| ==> s[i].0 != k
    ensures Put(s, k, v) == s + [(k, v)]
  {
    RemoveAbsent(s, k);
  }
}
