/**
  Small value-level helpers shared by the model.

  A JavaScript object used as a dictionary is modelled as an association list:
  its keys in enumeration order, each with its value.  Property lookup returns
  the value of the first entry with that key; assignment replaces the value of an
  existing key in place or appends a new key at the end.
 */
module Collections {

  datatype Option<+T> = None | Some(value: T) {
    function GetOr(default: T): T {
      match this
      case Some(v) => v
      case None => default
    }
  }

  /** `m[k]`: the value of the first entry with key `k`, if any. */
  function Lookup<V>(m: seq<(string, V)>, k: string): (r: Option<V>)
    ensures r.None? <==> forall i :: 0 <= i < |m| ==> m[i].0 != k
    ensures r.Some? ==> exists i :: 0 <= i < |m| && m[i] == (k, r.value)
  {
    if |m| == 0 then None
    else if m[0].0 == k then Some(m[0].1)
    else
      var r := Lookup(m[1..], k);
      assert forall i :: 1 <= i < |m| ==> m[i] == m[1..][i - 1];
      r
  }

  /** The first entry with a given key is the one a lookup finds. */
  lemma {:induction false} LookupFirst<V>(m: seq<(string, V)>, k: nat)
    requires k < |m|
    requires forall j :: 0 <= j < k ==> m[j].0 != m[k].0
    ensures Lookup(m, m[k].0) == Some(m[k].1)
  {
    if k > 0 {
      assert m[1..][k - 1] == m[k];
      LookupFirst(m[1..], k - 1);
    }
  }

  /** `m[k] = v`: replaces the value of an existing key in place, otherwise appends `k`. */
  function Put<V>(m: seq<(string, V)>, k: string, v: V): (r: seq<(string, V)>)
    ensures Lookup(r, k) == Some(v)
    ensures forall j :: j != k ==> Lookup(r, j) == Lookup(m, j)
  {
    if |m| == 0 then [(k, v)]
    else
      var rest := if m[0].0 == k then m[1..] else Put(m[1..], k, v);
      var r := [if m[0].0 == k then (k, v) else m[0]] + rest;
      LookupCons(r[0], rest);
      LookupCons(m[0], m[1..]);
      r
  }

  lemma LookupCons<V>(e: (string, V), m: seq<(string, V)>)
    ensures forall j :: Lookup([e] + m, j) == if e.0 == j then Some(e.1) else Lookup(m, j)
  {
    assert ([e] + m)[1..] == m;
  }

  /** No element occurs twice. */
  predicate NoDups<T(==)>(s: seq<T>) {
    forall i, j :: 0 <= i < j < |s| ==> s[i] != s[j]
  }

  /** A prefix of a prefix is a prefix. */
  lemma PrefixTrans<T>(a: seq<T>, b: seq<T>, c: seq<T>)
    requires a <= b && b <= c
    ensures a <= c
  {
    assert forall i :: 0 <= i < |a| ==> a[i] == b[i] == c[i];
  }

  /** Appending an element not yet present keeps the elements distinct. */
  lemma NoDupsSnoc<T>(s: seq<T>, x: T)
    requires NoDups(s) && x !in s
    ensures NoDups(s + [x])
  {
    forall i, j | 0 <= i < j < |s + [x]| ensures (s + [x])[i] != (s + [x])[j] {
      if j == |s| {
        assert (s + [x])[i] == s[i];
      }
    }
  }

  /**
    The elements of `s` in order of first occurrence, each once: what a loop that
    pushes every element not yet marked in a `seen` table produces.
   */
  function Dedup<T(==,!new)>(s: seq<T>): (r: seq<T>)
    ensures NoDups(r)
    ensures forall x :: x in r <==> x in s
  {
    if |s| == 0 then []
    else
      var init := Dedup(s[..|s| - 1]);
      assert forall x :: x in s <==> x in s[..|s| - 1] || x == s[|s| - 1];
      if s[|s| - 1] in s[..|s| - 1] then init else init + [s[|s| - 1]]
  }

  /** Concatenation of a sequence of sequences. */
  function Flatten<T(!new)>(ss: seq<seq<T>>): (r: seq<T>)
    ensures forall x :: x in r <==> exists i :: 0 <= i < |ss| && x in ss[i]
  {
    if |ss| == 0 then []
    else
      var r := Flatten(ss[..|ss| - 1]) + ss[|ss| - 1];
      assert forall i :: 0 <= i < |ss| - 1 ==> ss[..|ss| - 1][i] == ss[i];
      r
  }
}
