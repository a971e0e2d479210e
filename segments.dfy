/**
  Module identifiers and locations are '/'-delimited strings.  `Split` is
  `String.prototype.split('/')` and `Join` is `Array.prototype.join('/')`.
 */
module Segments {

  /** `s.split('/')`: never empty; the empty string splits into one empty segment. */
  function Split(s: string): (r: seq<string>)
    ensures |r| >= 1
    decreases |s|
  {
    if |s| == 0 then [""]
    else
      var rest := Split(s[1..]);
      if s[0] == '/' then [""] + rest
      else [[s[0]] + rest[0]] + rest[1..]
  }

  /** `segs.join('/')`: the empty list joins to the empty string. */
  function Join(segs: seq<string>): string
    decreases |segs|
  {
    if |segs| == 0 then ""
    else if |segs| == 1 then segs[0]
    else segs[0] + "/" + Join(segs[1..])
  }

  /** No segment contains the separator. */
  predicate Plain(segs: seq<string>) {
    forall i :: 0 <= i < |segs| ==> '/' !in segs[i]
  }

  /** Joining the pieces of a split gives the string back. */
  lemma {:induction false} JoinSplit(s: string)
    ensures Join(Split(s)) == s
    decreases |s|
  {
    if |s| > 0 {
      var rest := Split(s[1..]);
      JoinSplit(s[1..]);
      if s[0] == '/' {
        assert Split(s) == [""] + rest;
        assert Join([""] + rest) == "" + "/" + Join(rest);
        assert s == [s[0]] + s[1..];
      } else {
        var head := [s[0]] + rest[0];
        assert Split(s) == [head] + rest[1..];
        if |rest| == 1 {
          assert Join([head]) == head;
          assert rest == [rest[0]];
        } else {
          assert Join([head] + rest[1..]) == head + "/" + Join(rest[1..]);
          assert Join(rest) == rest[0] + "/" + Join(rest[1..]);
        }
        assert s == [s[0]] + s[1..];
      }
    }
  }

  /** Splitting never yields a segment that contains the separator. */
  lemma {:induction false} SplitPlain(s: string)
    ensures Plain(Split(s))
    decreases |s|
  {
    if |s| > 0 {
      SplitPlain(s[1..]);
      var rest := Split(s[1..]);
      if s[0] != '/' {
        var head := [s[0]] + rest[0];
        assert '/' !in head by {
          assert '/' !in rest[0];
          forall k | 0 <= k < |head| ensures head[k] != '/' {
            if k > 0 { assert head[k] == rest[0][k - 1]; }
          }
        }
        var r := [head] + rest[1..];
        forall i | 0 <= i < |r| ensures '/' !in r[i] {
          if i > 0 { assert r[i] == rest[i]; }
        }
      }
    }
  }

  /** A string without separators is a single segment. */
  lemma {:induction false} SplitSingle(s: string)
    requires '/' !in s
    ensures Split(s) == [s]
    decreases |s|
  {
    if |s| > 0 {
      assert '/' !in s[1..] by {
        forall k | 0 <= k < |s| - 1 ensures s[1..][k] != '/' { assert s[1..][k] == s[k + 1]; }
      }
      SplitSingle(s[1..]);
      assert s == [s[0]] + s[1..];
    }
  }

  /** A separator-free prefix followed by a separator splits off as one segment. */
  lemma {:induction false} SplitCons(a: string, u: string)
    requires '/' !in a
    ensures Split(a + "/" + u) == [a] + Split(u)
    decreases |a|
  {
    if |a| == 0 {
      assert a + "/" + u == "/" + u;
      assert ("/" + u)[1..] == u;
    } else {
      var s := a + "/" + u;
      assert s[1..] == a[1..] + "/" + u;
      assert '/' !in a[1..] by {
        forall k | 0 <= k < |a| - 1 ensures a[1..][k] != '/' { assert a[1..][k] == a[k + 1]; }
      }
      SplitCons(a[1..], u);
      assert a == [a[0]] + a[1..];
    }
  }

  /** Splitting a join of plain, non-empty-list segments gives the segments back. */
  lemma {:induction false} SplitJoin(segs: seq<string>)
    requires |segs| >= 1 && Plain(segs)
    ensures Split(Join(segs)) == segs
    decreases |segs|
  {
    assert '/' !in segs[0];
    if |segs| == 1 {
      SplitSingle(segs[0]);
    } else {
      assert Plain(segs[1..]) by {
        forall i | 0 <= i < |segs| - 1 ensures '/' !in segs[1..][i] { assert segs[1..][i] == segs[i + 1]; }
      }
      SplitJoin(segs[1..]);
      SplitCons(segs[0], Join(segs[1..]));
      assert segs == [segs[0]] + segs[1..];
    }
  }
}
