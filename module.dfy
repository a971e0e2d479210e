/**
  The module record the analyser keeps for every identifier it registers:
  its id, its location, whether a `define` call was found in it, the ids it
  depends on (each once, in the order first added) and whether the cycle scan
  has visited it.
 */
module ModuleRecord {
  import opened Collections

  /** The dependency list after adding `d`: appended when absent, otherwise as it was. */
  function AddDep(deps: seq<string>, d: string): seq<string> {
    if d in deps then deps else deps + [d]
  }

  /** The dependency list after adding each of `ds` in turn. */
  function AddAll(deps: seq<string>, ds: seq<string>): seq<string>
    decreases |ds|
  {
    if |ds| == 0 then deps else AddAll(AddDep(deps, ds[0]), ds[1..])
  }

  class Module {
    const id: string
    const uri: string
    var defineFound: bool
    var dependencies: seq<string>
    /** Set once the cycle scan has visited the module (`scanned` is undefined until then). */
    var scanned: bool

    /** No dependency is recorded twice. */
    predicate Valid()
      reads this
    {
      NoDups(dependencies)
    }

    /** `createModule(id, uri)`. */
    constructor (id: string, uri: string)
      ensures this.id == id && this.uri == uri
      ensures !defineFound && dependencies == [] && !scanned
      ensures Valid()
    {
      this.id := id;
      this.uri := uri;
      defineFound := false;
      dependencies := [];
      scanned := false;
    }

    /** `addDependency`: pushes `dependency` unless it is already listed. */
    method AddDependency(dependency: string)
      requires Valid()
      modifies this`dependencies
      ensures Valid()
      ensures dependencies == AddDep(old(dependencies), dependency)
    {
      if dependency !in dependencies {
        dependencies := dependencies + [dependency];
      }
    }
  }

  /** Adding keeps the list free of duplicates. */
  lemma AddDepNoDups(deps: seq<string>, d: string)
    requires NoDups(deps)
    ensures NoDups(AddDep(deps, d))
  {
    if d !in deps {
      var r := deps + [d];
      forall i, j | 0 <= i < j < |r| ensures r[i] != r[j] {
        if j == |deps| {
          assert r[i] == deps[i];
        }
      }
    }
  }

  /**
    Adding a new value appends it and keeps the existing order; adding a value
    already present changes nothing, so adding twice is adding once.
   */
  lemma AddDepEffect(deps: seq<string>, d: string)
    ensures d in AddDep(deps, d)
    ensures d !in deps ==> AddDep(deps, d) == deps + [d]
    ensures d in deps ==> AddDep(deps, d) == deps
    ensures AddDep(AddDep(deps, d), d) == AddDep(deps, d)
    ensures deps <= AddDep(deps, d)
  {
  }

  /** After any sequence of additions the list holds each added value exactly once, in order of first addition. */
  lemma {:induction false} AddAllDedup(deps: seq<string>, ds: seq<string>)
    requires NoDups(deps)
    ensures NoDups(AddAll(deps, ds))
    ensures forall x :: x in AddAll(deps, ds) <==> x in deps || x in ds
    ensures deps <= AddAll(deps, ds)
    decreases |ds|
  {
    if |ds| > 0 {
      AddDepNoDups(deps, ds[0]);
      AddAllDedup(AddDep(deps, ds[0]), ds[1..]);
      assert forall x :: x in ds <==> x == ds[0] || x in ds[1..];
    }
  }

  /** Starting from a fresh module, the additions give the first-occurrence deduplication. */
  lemma {:induction false} AddAllFromEmpty(ds: seq<string>)
    ensures AddAll([], ds) == Dedup(ds)
  {
    AddAllSnoc([], ds);
  }

  /** Adding `a` and then `b` is adding `a + b`. */
  lemma {:induction false} AddAllAppend(deps: seq<string>, a: seq<string>, b: seq<string>)
    ensures AddAll(deps, a + b) == AddAll(AddAll(deps, a), b)
    decreases |a|
  {
    if |a| > 0 {
      assert (a + b)[0] == a[0] && (a + b)[1..] == a[1..] + b;
      AddAllAppend(AddDep(deps, a[0]), a[1..], b);
    } else {
      assert a + b == b;
    }
  }

  lemma {:induction false} AddAllSnoc(deps: seq<string>, ds: seq<string>)
    ensures |ds| > 0 ==> AddAll(deps, ds) == AddDep(AddAll(deps, ds[..|ds| - 1]), ds[|ds| - 1])
    ensures deps == [] ==> AddAll(deps, ds) == Dedup(ds)
    decreases |ds|
  {
    if |ds| > 0 {
      AddAllSnoc(AddDep(deps, ds[0]), ds[1..]);
      if |ds| > 1 {
        assert ds[1..][..|ds| - 2] == ds[..|ds| - 1][1..];
        assert ds[1..][|ds| - 2] == ds[|ds| - 1];
      } else {
        assert ds[..0] == [];
      }
      if deps == [] {
        AddAllSnoc([], ds[..|ds| - 1]);
        AddAllDedup([], ds[..|ds| - 1]);
        assert ds[|ds| - 1] in Dedup(ds[..|ds| - 1]) <==> ds[|ds| - 1] in ds[..|ds| - 1];
      }
    }
  }
}
