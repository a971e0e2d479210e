/**
  Identifier resolution of the AMD analyser: dot-segment normalisation, the
  per-context `map` lookup, identifier expansion (relative ids, package mains,
  remapping) and the translation of an identifier into a source location
  (`paths`, packages, `baseUrl`).

  Each operation that the analyser performs with a loop over a `segments`
  array or over a configuration object is a method; the function it is proved
  against is stated next to it, and the lemmas after it state what the
  resolution promises.
 */
module Resolver {
  import opened Collections
  import opened Segments

  // ---------------------------------------------------------------------------
  // Configuration
  // ---------------------------------------------------------------------------

  /** A package after defaulting: `location` and `main` are filled in. */
  datatype Package = Package(name: string, location: string, main: string)

  /** A package as configured; an empty `location` or `main` stands for a missing one. */
  datatype RawPackage = RawPackage(name: string, location: string, main: string)

  /**
    A shim entry: either a bare dependency array, or an object with optional
    `deps`, an `exports` global path (empty when absent) and whether an `init`
    hook is present.
   */
  datatype ShimEntry =
    | ShimArray(list: seq<string>)
    | ShimObject(deps: Option<seq<string>>, exports: string, hasInit: bool)

  /** The loader configuration handed to the analyser. */
  datatype RawConfig = RawConfig(
    paths: seq<(string, string)>,
    packages: seq<RawPackage>,
    baseUrl: string,
    idMap: seq<(string, seq<(string, string)>)>,
    shim: Option<seq<(string, ShimEntry)>>,
    plugins: seq<(string, string)>,
    scanCJSRequires: bool)

  /**
    The analyser's own view of the configuration: `paths` and `baseUrl` copied,
    packages keyed by name with defaults applied, everything else passed through.
    `idMap` is the `map` option: context prefix to (old prefix to new prefix).
    `plugins` maps a plugin id to its proxy module.
   */
  datatype Config = Config(
    paths: seq<(string, string)>,
    pkgs: seq<(string, Package)>,
    baseUrl: string,
    idMap: seq<(string, seq<(string, string)>)>,
    shim: Option<seq<(string, ShimEntry)>>,
    plugins: seq<(string, string)>,
    scanCJSRequires: bool)

  /** `location` defaults to the package name and `main` to "main". */
  function WithDefaults(p: RawPackage): Package {
    Package(p.name, if p.location == "" then p.name else p.location, if p.main == "" then "main" else p.main)
  }

  /** The package a name denotes after the constructor's loop: the last one configured under it. */
  function LastNamed(ps: seq<RawPackage>, n: string): Option<Package>
    decreases |ps|
  {
    if |ps| == 0 then None
    else if ps[|ps| - 1].name == n then Some(WithDefaults(ps[|ps| - 1]))
    else LastNamed(ps[..|ps| - 1], n)
  }

  /** Every package the table holds is stored under its own name and has a `main` module. */
  ghost predicate WellFormedPackages(pkgs: seq<(string, Package)>) {
    forall n :: Lookup(pkgs, n).Some? ==> Lookup(pkgs, n).value.name == n && Lookup(pkgs, n).value.main != ""
  }

  /** The configuration part of the analyser's constructor. */
  method Configure(raw: RawConfig) returns (config: Config)
    ensures config.paths == raw.paths && config.baseUrl == raw.baseUrl
    ensures config.idMap == raw.idMap && config.shim == raw.shim && config.plugins == raw.plugins
    ensures config.scanCJSRequires == raw.scanCJSRequires
    ensures forall n :: Lookup(config.pkgs, n) == LastNamed(raw.packages, n)
    ensures WellFormedPackages(config.pkgs)
  {
    var pkgs: seq<(string, Package)> := [];
    var i := 0;
    while i < |raw.packages|
      invariant 0 <= i <= |raw.packages|
      invariant forall n :: Lookup(pkgs, n) == LastNamed(raw.packages[..i], n)
    {
      var pkg := WithDefaults(raw.packages[i]);
      pkgs := Put(pkgs, pkg.name, pkg);
      assert raw.packages[..i + 1][..i] == raw.packages[..i];
      i := i + 1;
    }
    assert raw.packages[..i] == raw.packages;
    forall n | Lookup(pkgs, n).Some? ensures Lookup(pkgs, n).value.name == n && Lookup(pkgs, n).value.main != "" {
      PackageDefaults(raw.packages, n);
    }
    config := Config(raw.paths, pkgs, raw.baseUrl, raw.idMap, raw.shim, raw.plugins, raw.scanCJSRequires);
  }

  /** The package stored under a name is that name's package, with its defaults applied. */
  lemma {:induction false} PackageDefaults(ps: seq<RawPackage>, n: string)
    requires LastNamed(ps, n).Some?
    ensures LastNamed(ps, n).value.name == n
    ensures LastNamed(ps, n).value.main != ""
    ensures n != "" ==> LastNamed(ps, n).value.location != ""
    decreases |ps|
  {
    var last := |ps| - 1;
    if ps[last].name != n {
      PackageDefaults(ps[..last], n);
    }
  }

  // ---------------------------------------------------------------------------
  // normalize
  // ---------------------------------------------------------------------------

  /** A segment list without "." or ".." segments. */
  predicate NoDots(segs: seq<string>) {
    forall i :: 0 <= i < |segs| ==> segs[i] != "." && segs[i] != ".."
  }

  /**
    The segments `normalize` keeps, scanning from the right with `skip`
    pending ".." segments: "." is dropped, ".." is dropped and adds one to
    `skip`, and any other segment is dropped while `skip` is positive.
   */
  function NormSegs(segs: seq<string>, skip: nat): seq<string>
    decreases |segs|
  {
    if |segs| == 0 then []
    else
      var last := segs[|segs| - 1];
      var init := segs[..|segs| - 1];
      if last == "." then NormSegs(init, skip)
      else if last == ".." then NormSegs(init, skip + 1)
      else if skip > 0 then NormSegs(init, skip - 1)
      else NormSegs(init, 0) + [last]
  }

  function NormalizeSpec(path: string): string {
    Join(NormSegs(Split(path), 0))
  }

  /** `normalize`: the reverse splice loop over the segments of `path`. */
  method Normalize(path: string) returns (r: string)
    ensures r == NormalizeSpec(path)
  {
    var segments := Split(path);
    ghost var orig := segments;
    var skip: nat := 0;
    // The source's first iteration reads one past the end and does nothing.
    var i := |segments|;
    assert segments[i..] == [];
    assert orig[..i] == orig;
    while i > 0
      invariant 0 <= i <= |segments|
      invariant segments[..i] == orig[..i]
      invariant NormSegs(orig[..i], skip) + segments[i..] == NormSegs(orig, 0)
    {
      i := i - 1;
      ghost var prefix := orig[..i + 1];
      assert prefix[..i] == orig[..i];
      assert prefix[i] == segments[i];
      ghost var rest := segments[i + 1..];
      assert segments[i..] == [segments[i]] + rest;
      var segment := segments[i];
      if segment == "." {
        segments := segments[..i] + segments[i + 1..];
        assert segments[..i] == orig[..i] && segments[i..] == rest;
      } else if segment == ".." {
        segments := segments[..i] + segments[i + 1..];
        assert segments[..i] == orig[..i] && segments[i..] == rest;
        skip := skip + 1;
      } else if skip > 0 {
        segments := segments[..i] + segments[i + 1..];
        assert segments[..i] == orig[..i] && segments[i..] == rest;
        skip := skip - 1;
      } else {
        assert NormSegs(prefix, 0) == NormSegs(orig[..i], 0) + [segment];
      }
    }
    assert i == 0;
    assert orig[..0] == [] && segments[0..] == segments;
    assert NormSegs([], skip) == [];
    assert segments == NormSegs(orig, 0);
    r := Join(segments);
  }

  /** Every segment `normalize` keeps is a segment of its input. */
  lemma {:induction false} NormSegsFrom(segs: seq<string>, skip: nat)
    ensures forall x :: x in NormSegs(segs, skip) ==> x in segs
    decreases |segs|
  {
    if |segs| > 0 {
      var init := segs[..|segs| - 1];
      NormSegsFrom(init, 0);
      NormSegsFrom(init, skip);
      NormSegsFrom(init, skip + 1);
      if skip > 0 { NormSegsFrom(init, skip - 1); }
    }
  }

  /** No "." or ".." segment survives. */
  lemma NormSegsNoDots(segs: seq<string>, skip: nat)
    ensures NoDots(NormSegs(segs, skip))
  {
    NormSegsFrom(segs, skip);
  }

  /** Without dot segments nothing is removed. */
  lemma {:induction false} NormSegsIdentity(segs: seq<string>)
    requires NoDots(segs)
    ensures NormSegs(segs, 0) == segs
    decreases |segs|
  {
    if |segs| > 0 {
      var init := segs[..|segs| - 1];
      NormSegsIdentity(init);
      assert segs == init + [segs[|segs| - 1]];
    }
  }

  /** A ".." removes the nearest segment to its left that survives. */
  lemma ParentCancels(before: seq<string>, x: string, skip: nat)
    requires x != "." && x != ".."
    ensures NormSegs(before + [x, ".."], skip) == NormSegs(before, skip)
  {
    var s := before + [x, ".."];
    assert s[..|s| - 1] == before + [x];
    assert (before + [x])[..|before|] == before;
  }

  /** ".." segments with nothing left to remove are dropped silently. */
  lemma {:induction false} SurplusParentsDropped(n: nat, skip: nat)
    ensures NormSegs(seq(n, _ => ".."), skip) == []
    decreases n
  {
    if n > 0 {
      var s := seq(n, _ => "..");
      assert s[..n - 1] == seq(n - 1, _ => "..");
      SurplusParentsDropped(n - 1, skip + 1);
    }
  }

  /** The output of `normalize` has no "." or ".." segment. */
  lemma NormalizeNoDots(path: string)
    ensures NoDots(Split(NormalizeSpec(path)))
  {
    var kept := NormSegs(Split(path), 0);
    NormSegsNoDots(Split(path), 0);
    if |kept| == 0 {
      assert NormalizeSpec(path) == "";
      assert Split("") == [""];
    } else {
      KeptArePlain(path);
      SplitJoin(kept);
    }
  }

  lemma KeptArePlain(path: string)
    ensures Plain(NormSegs(Split(path), 0))
  {
    var segs := Split(path);
    var kept := NormSegs(segs, 0);
    SplitPlain(path);
    NormSegsFrom(segs, 0);
    forall i | 0 <= i < |kept| ensures '/' !in kept[i] {
      assert kept[i] in segs;
      var j :| 0 <= j < |segs| && segs[j] == kept[i];
    }
  }

  /** `normalize` returns a path without dot segments unchanged. */
  lemma NormalizeKeepsClean(path: string)
    requires NoDots(Split(path))
    ensures NormalizeSpec(path) == path
  {
    NormSegsIdentity(Split(path));
    JoinSplit(path);
  }

  /** `normalize` is idempotent. */
  lemma NormalizeIdempotent(path: string)
    ensures NormalizeSpec(NormalizeSpec(path)) == NormalizeSpec(path)
  {
    NormalizeNoDots(path);
    NormalizeKeepsClean(NormalizeSpec(path));
  }

  // ---------------------------------------------------------------------------
  // countSegments and _findMapping
  // ---------------------------------------------------------------------------

  /** `countSegments`: the number of '/' characters. */
  method CountSegments(path: string) returns (count: nat)
    ensures count == multiset(path)['/']
  {
    count := 0;
    var i := 0;
    while i < |path|
      invariant 0 <= i <= |path|
      invariant count == multiset(path[..i])['/']
    {
      assert path[..i + 1] == path[..i] + [path[i]];
      if path[i] == '/' {
        count := count + 1;
      }
      i := i + 1;
    }
    assert path[..i] == path;
  }

  function Slashes(s: string): nat {
    multiset(s)['/']
  }

  /** Map key `k` applies to context `depId` and has an entry for `path`. */
  predicate Candidate(idMap: seq<(string, seq<(string, string)>)>, path: string, depId: string, k: int)
    requires 0 <= k < |idMap|
  {
    idMap[k].0 <= depId && Lookup(idMap[k].1, path).Some?
  }

  /**
    The mapping and segment count `_findMapping`'s loop holds after visiting
    the keys of `idMap` in order (count -1 before the first choice).
   */
  function Best(idMap: seq<(string, seq<(string, string)>)>, path: string, depId: string): (Option<string>, int)
    decreases |idMap|
  {
    if |idMap| == 0 then (None, -1)
    else
      var prev := Best(idMap[..|idMap| - 1], path, depId);
      var key := idMap[|idMap| - 1].0;
      var entry := idMap[|idMap| - 1].1;
      if key <= depId && Slashes(key) > prev.1 && Lookup(entry, path).Some? then (Lookup(entry, path), Slashes(key))
      else prev
  }

  /** The result of `_findMapping(path, depId)`: the context entry, else the "*" entry. */
  function MappingSpec(idMap: seq<(string, seq<(string, string)>)>, path: string, depId: string): Option<string> {
    var chosen := Best(idMap, path, depId).0;
    if chosen.Some? then chosen
    else match Lookup(idMap, "*")
      case Some(star) => Lookup(star, path)
      case None => None
  }

  /** `_findMapping`: the loop over the `map` keys, then the "*" fallback. */
  method FindMapping(idMap: seq<(string, seq<(string, string)>)>, path: string, depId: string)
    returns (mapping: Option<string>)
    ensures mapping == MappingSpec(idMap, path, depId)
  {
    mapping := None;
    var segmentCount: int := -1;
    var i := 0;
    while i < |idMap|
      invariant 0 <= i <= |idMap|
      invariant (mapping, segmentCount) == Best(idMap[..i], path, depId)
    {
      assert idMap[..i + 1][..i] == idMap[..i];
      var id := idMap[i].0;
      if id <= depId {
        var foundSegmentCount := CountSegments(id);
        if foundSegmentCount > segmentCount {
          var mapEntry := idMap[i].1;
          var m := Lookup(mapEntry, path);
          if m.Some? {
            mapping := m;
            segmentCount := foundSegmentCount;
          }
        }
      }
      i := i + 1;
    }
    assert idMap[..i] == idMap;
    if mapping.None? {
      var star := Lookup(idMap, "*");
      if star.Some? && Lookup(star.value, path).Some? {
        mapping := Lookup(star.value, path);
      }
    }
  }

  /**
    `_findMapping` finds a context mapping exactly when some key is a prefix of
    the context id and has an entry for `path`.
   */
  lemma {:induction false} BestNone(idMap: seq<(string, seq<(string, string)>)>, path: string, depId: string)
    ensures Best(idMap, path, depId).0.None? <==> forall k :: 0 <= k < |idMap| ==> !Candidate(idMap, path, depId, k)
    ensures Best(idMap, path, depId).0.None? ==> Best(idMap, path, depId).1 == -1
    decreases |idMap|
  {
    if |idMap| > 0 {
      var n := |idMap| - 1;
      var init := idMap[..n];
      BestNone(init, path, depId);
      assert forall j :: 0 <= j < n ==> init[j] == idMap[j];
      assert forall j :: 0 <= j < n ==> (Candidate(init, path, depId, j) <==> Candidate(idMap, path, depId, j));
      if Best(init, path, depId).0.None? && Candidate(idMap, path, depId, n) {
        assert Best(idMap, path, depId).0.Some?;
      }
    }
  }

  /** The mapping found is that of a key that is a candidate, with that key's segment count. */
  lemma {:induction false} BestFromCandidate(idMap: seq<(string, seq<(string, string)>)>, path: string, depId: string)
    ensures Best(idMap, path, depId).0.Some? ==>
      exists k :: 0 <= k < |idMap| && Candidate(idMap, path, depId, k) &&
        Best(idMap, path, depId) == (Lookup(idMap[k].1, path), Slashes(idMap[k].0))
    decreases |idMap|
  {
    if |idMap| > 0 {
      var n := |idMap| - 1;
      var init := idMap[..n];
      BestFromCandidate(init, path, depId);
      if Best(idMap, path, depId) == Best(init, path, depId) && Best(init, path, depId).0.Some? {
        var k :| 0 <= k < n && Candidate(init, path, depId, k) &&
          Best(init, path, depId) == (Lookup(init[k].1, path), Slashes(init[k].0));
        assert init[k] == idMap[k];
        assert Candidate(idMap, path, depId, k);
      } else if Best(idMap, path, depId).0.Some? {
        assert Candidate(idMap, path, depId, n);
      }
    }
  }

  /**
    Among the keys that are prefixes of the context id and have an entry for
    `path`, `_findMapping` picks the one with the most '/', the earliest key
    winning a tie.
   */
  lemma {:induction false} BestIsDeepest(idMap: seq<(string, seq<(string, string)>)>, path: string, depId: string, k: nat)
    requires k < |idMap| && Candidate(idMap, path, depId, k)
    requires forall j :: 0 <= j < |idMap| && Candidate(idMap, path, depId, j) ==> Slashes(idMap[j].0) <= Slashes(idMap[k].0)
    requires forall j :: 0 <= j < k && Candidate(idMap, path, depId, j) ==> Slashes(idMap[j].0) < Slashes(idMap[k].0)
    ensures Best(idMap, path, depId) == (Lookup(idMap[k].1, path), Slashes(idMap[k].0))
    decreases |idMap|
  {
    var n := |idMap| - 1;
    var init := idMap[..n];
    assert forall j :: 0 <= j < n ==> init[j] == idMap[j];
    assert forall j :: 0 <= j < n ==> (Candidate(init, path, depId, j) <==> Candidate(idMap, path, depId, j));
    if k < n {
      BestIsDeepest(init, path, depId, k);
    } else {
      BestFromCandidate(init, path, depId);
      BestNone(init, path, depId);
      if Best(init, path, depId).0.Some? {
        var j :| 0 <= j < n && Candidate(init, path, depId, j) &&
          Best(init, path, depId) == (Lookup(init[j].1, path), Slashes(init[j].0));
        assert Candidate(idMap, path, depId, j);
      }
    }
  }

  // ---------------------------------------------------------------------------
  // _idToUrl
  // ---------------------------------------------------------------------------

  /**
    What `_idToUrl` substitutes for the prefix `parent` of `path`: a truthy
    `paths` entry first, else a package (its main module only when the whole
    id is the package name).
   */
  function Replacement(config: Config, path: string, parent: string): Option<string> {
    var alias := Lookup(config.paths, parent);
    if alias.Some? && alias.value != "" then alias
    else match Lookup(config.pkgs, parent)
      case Some(pkg) => Some(if path == pkg.name then pkg.location + "/" + pkg.main else pkg.location)
      case None => None
  }

  /** The segments after trying the prefixes of length `i`, `i - 1`, ..., 0 in turn. */
  function Substitute(config: Config, path: string, segs: seq<string>, i: nat): seq<string>
    requires i <= |segs|
    decreases i
  {
    match Replacement(config, path, Join(segs[..i]))
    case Some(x) => [x] + segs[i..]
    case None => if i == 0 then segs else Substitute(config, path, segs, i - 1)
  }

  predicate Rooted(s: string) {
    |s| > 0 && s[0] == '/'
  }

  function IdToUrlSpec(config: Config, path: string): string {
    var segs := Split(path);
    var joined := Join(Substitute(config, path, segs, |segs|));
    NormalizeSpec(if Rooted(joined) then joined else config.baseUrl + joined)
  }

  /** `_idToUrl`: longest-prefix substitution, the `baseUrl` prefix, normalisation. */
  method IdToUrl(config: Config, path: string) returns (url: string)
    ensures url == IdToUrlSpec(config, path)
  {
    var segments := Split(path);
    ghost var segs := segments;
    var i: int := |segments|;
    while i >= 0
      invariant -1 <= i <= |segs| && segments == segs
      invariant Substitute(config, path, segs, |segs|) == if i >= 0 then Substitute(config, path, segs, i) else segs
    {
      var parent := Join(segments[..i]);
      var alias := Lookup(config.paths, parent);
      if alias.Some? && alias.value != "" {
        segments := [alias.value] + segments[i..];
        break;
      }
      var pkg := Lookup(config.pkgs, parent);
      if pkg.Some? {
        var pkgPath;
        if path == pkg.value.name {
          pkgPath := pkg.value.location + "/" + pkg.value.main;
        } else {
          pkgPath := pkg.value.location;
        }
        segments := [pkgPath] + segments[i..];
        break;
      }
      i := i - 1;
    }
    var joined := Join(segments);
    if !(|joined| > 0 && joined[0] == '/') {
      joined := config.baseUrl + joined;
    }
    url := Normalize(joined);
  }

  /** A prefix `_idToUrl` can substitute. */
  predicate Substitutable(config: Config, path: string, segs: seq<string>, i: nat)
    requires i <= |segs|
  {
    Replacement(config, path, Join(segs[..i])).Some?
  }

  /** The longest substitutable prefix is the one replaced. */
  lemma {:induction false} SubstituteLongest(config: Config, path: string, segs: seq<string>, i: nat, k: nat)
    requires k <= i <= |segs|
    requires Substitutable(config, path, segs, k)
    requires forall j :: k < j <= i ==> !Substitutable(config, path, segs, j)
    ensures Substitute(config, path, segs, i) == [Replacement(config, path, Join(segs[..k])).value] + segs[k..]
    decreases i
  {
    if i > k {
      assert !Substitutable(config, path, segs, i);
      SubstituteLongest(config, path, segs, i - 1, k);
    }
  }

  /** With no substitutable prefix the segments are left as they are. */
  lemma {:induction false} SubstituteNone(config: Config, path: string, segs: seq<string>, i: nat)
    requires i <= |segs|
    requires forall j :: 0 <= j <= i ==> !Substitutable(config, path, segs, j)
    ensures Substitute(config, path, segs, i) == segs
    decreases i
  {
    assert !Substitutable(config, path, segs, i);
    if i > 0 {
      SubstituteNone(config, path, segs, i - 1);
    }
  }

  /** Locations are normalised: no dot segment, and normalising again changes nothing. */
  lemma IdToUrlNormalized(config: Config, path: string)
    ensures NoDots(Split(IdToUrlSpec(config, path)))
    ensures NormalizeSpec(IdToUrlSpec(config, path)) == IdToUrlSpec(config, path)
  {
    var segs := Split(path);
    var joined := Join(Substitute(config, path, segs, |segs|));
    var full := if Rooted(joined) then joined else config.baseUrl + joined;
    NormalizeNoDots(full);
    NormalizeIdempotent(full);
  }

  /** A location that is not already rooted gets `baseUrl` in front before normalisation. */
  lemma IdToUrlBase(config: Config, path: string)
    requires forall j :: 0 <= j <= |Split(path)| ==> !Substitutable(config, path, Split(path), j)
    ensures IdToUrlSpec(config, path) == NormalizeSpec(if Rooted(path) then path else config.baseUrl + path)
  {
    SubstituteNone(config, path, Split(path), |Split(path)|);
    JoinSplit(path);
  }

  // ---------------------------------------------------------------------------
  // _expand
  // ---------------------------------------------------------------------------

  /** `getParentId`: the top of the path stack, or "" at the root. */
  function ParentId(pathStack: seq<string>): string {
    if |pathStack| > 0 then pathStack[|pathStack| - 1] else ""
  }

  /** The id starts with '.' (`/^\./`). */
  predicate IsRelative(path: string) {
    |path| > 0 && path[0] == '.'
  }

  /** A relative id resolved against its parent: the package name, or the parent's directory. */
  function Resolved(config: Config, path: string, parentId: string): string {
    if IsRelative(path) then
      NormalizeSpec(
        match Lookup(config.pkgs, parentId)
        case Some(pkg) => pkg.name + "/" + path
        case None => parentId + "/../" + path)
    else path
  }

  /** A prefix whose mapping in the context of `parentId` is truthy. */
  predicate Remappable(config: Config, segs: seq<string>, i: nat, parentId: string)
    requires i <= |segs|
  {
    var m := MappingSpec(config.idMap, Join(segs[..i]), parentId);
    m.Some? && m.value != ""
  }

  /** The remapped id after trying the prefixes of length `i`, `i - 1`, ..., 0 in turn. */
  function Remap(config: Config, segs: seq<string>, i: nat, parentId: string): Option<string>
    requires i <= |segs|
    decreases i
  {
    if Remappable(config, segs, i, parentId) then
      Some(Join([MappingSpec(config.idMap, Join(segs[..i]), parentId).value] + segs[i..]))
    else if i == 0 then None
    else Remap(config, segs, i - 1, parentId)
  }

  function ExpandSpec(config: Config, path: string, parentId: string): string {
    var p := Resolved(config, path, parentId);
    match Lookup(config.pkgs, p)
    case Some(pkg) => pkg.name + "/" + pkg.main
    case None => Remap(config, Split(p), |Split(p)|, parentId).GetOr(p)
  }

  /** `_expand`: relative resolution, package mains, then the longest remapped prefix. */
  method Expand(config: Config, path: string, pathStack: seq<string>) returns (id: string)
    ensures id == ExpandSpec(config, path, ParentId(pathStack))
  {
    var parentId := ParentId(pathStack);
    var p := path;
    if |p| > 0 && p[0] == '.' {
      var pkg := Lookup(config.pkgs, parentId);
      if pkg.Some? {
        p := pkg.value.name + "/" + p;
      } else {
        p := parentId + "/../" + p;
      }
      p := Normalize(p);
    }
    assert p == Resolved(config, path, parentId);
    var k := 0;
    while k < |config.pkgs|
      invariant 0 <= k <= |config.pkgs|
      invariant forall j :: 0 <= j < k ==> config.pkgs[j].0 != p
    {
      if p == config.pkgs[k].0 {
        LookupFirst(config.pkgs, k);
        var pkg := config.pkgs[k].1;
        return pkg.name + "/" + pkg.main;
      }
      k := k + 1;
    }
    var segments := Split(p);
    var i: int := |segments|;
    while i >= 0
      invariant -1 <= i <= |segments|
      invariant Remap(config, segments, |segments|, parentId) == if i >= 0 then Remap(config, segments, i, parentId) else None
    {
      var parent := Join(segments[..i]);
      var mapping := FindMapping(config.idMap, parent, parentId);
      if mapping.Some? && mapping.value != "" {
        return Join([mapping.value] + segments[i..]);
      }
      i := i - 1;
    }
    id := p;
  }

  /** The longest remappable prefix is the one replaced, and the search stops there. */
  lemma {:induction false} RemapLongest(config: Config, segs: seq<string>, i: nat, k: nat, parentId: string)
    requires k <= i <= |segs|
    requires Remappable(config, segs, k, parentId)
    requires forall j :: k < j <= i ==> !Remappable(config, segs, j, parentId)
    ensures Remap(config, segs, i, parentId) == Some(Join([MappingSpec(config.idMap, Join(segs[..k]), parentId).value] + segs[k..]))
    decreases i
  {
    if i > k {
      assert !Remappable(config, segs, i, parentId);
      RemapLongest(config, segs, i - 1, k, parentId);
    }
  }

  /** With no remappable prefix there is no remapping. */
  lemma {:induction false} RemapNone(config: Config, segs: seq<string>, i: nat, parentId: string)
    requires i <= |segs|
    requires forall j :: 0 <= j <= i ==> !Remappable(config, segs, j, parentId)
    ensures Remap(config, segs, i, parentId) == None
    decreases i
  {
    assert !Remappable(config, segs, i, parentId);
    if i > 0 {
      RemapNone(config, segs, i - 1, parentId);
    }
  }

  /** An id that names a package expands to that package's main module. */
  lemma ExpandPackageMain(config: Config, path: string, parentId: string, pkg: Package)
    requires Lookup(config.pkgs, Resolved(config, path, parentId)) == Some(pkg)
    ensures ExpandSpec(config, path, parentId) == pkg.name + "/" + pkg.main
  {
  }

  /** A relative id is resolved to an id without dot segments before any remapping. */
  lemma ResolvedRelativeClean(config: Config, path: string, parentId: string)
    requires IsRelative(path)
    ensures NoDots(Split(Resolved(config, path, parentId)))
  {
    NormalizeNoDots(
      match Lookup(config.pkgs, parentId)
      case Some(pkg) => pkg.name + "/" + path
      case None => parentId + "/../" + path);
  }

  /** A non-relative id that is no package name and has no truthy mapping is returned unchanged. */
  lemma ExpandUnmapped(config: Config, path: string, parentId: string)
    requires !IsRelative(path) && Lookup(config.pkgs, path).None?
    requires forall j :: 0 <= j <= |Split(path)| ==> !Remappable(config, Split(path), j, parentId)
    ensures ExpandSpec(config, path, parentId) == path
  {
    RemapNone(config, Split(path), |Split(path)|, parentId);
  }
}
