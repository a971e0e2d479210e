/**
  The dependency walk of the AMD analyser.  Starting from the requested entry
  modules it reads each module's source, finds its `define` call, registers a
  module record, and walks the dependencies the call lists, one subtree after
  the other; plugin references (`plugin!resource`) and non-AMD modules with a
  `shim` entry are handled on the way.  Afterwards the registered modules are
  ordered dependencies-first, scanned for cycles, and every module without a
  `define` call gets a wrapper.

  The source's callback chains run strictly one after the other, so each of
  them is a method here: a callback passed on becomes the code after the call,
  a `cb(err)` becomes a returned `Failed` outcome.  An exception that escapes
  (a TypeError) is a `Halted` outcome that every caller passes on.  The path
  stack is pushed and popped around every nested walk, so it is passed by value.
 */
module Walker {
  import opened Collections
  import opened Segments
  import opened Resolver
  import opened Inspector
  import opened ModuleRecord

  /**
    What reading `<url>.js` yields: a parse diagnostic or a parse tree.  A
    file with no text, or an empty one (which `!src` treats alike), has no
    entry in the source table.
   */
  datatype Source = Unparsable(diagnostic: string) | Parsed(ast: Node)

  /** Why a module could not be loaded. */
  datatype LoadError =
    | Missing(url: string, parent: string)
    | Unparsed(url: string, diagnostic: string)

  /** The error text passed to the callback. */
  function Message(e: LoadError): string {
    match e
    case Missing(url, parent) => "Unable to load src for [" + url + "]. Module [" + parent + "] has a dependency on it."
    case Unparsed(url, diagnostic) => "Failed to parse [" + url + "] : " + diagnostic
  }

  /** An exception that escapes the walk; `OutOfFuel` marks the bound on nesting depth. */
  datatype Halt = TypeError | OutOfFuel

  datatype Outcome = Done | Failed(error: LoadError) | Halted(reason: Halt)

  /** What a plugin reference records (absent properties are `None`). */
  datatype PluginRef = PluginRef(
    name: string,
    normalizedName: Option<string>,
    value: Option<string>,
    dependency: Option<string>,
    moduleUrl: Option<string>)

  /** An anonymous `define`: where its id has to be inserted. */
  datatype MissingName = MissingName(uri: string, id: string, nameIndex: nat)

  datatype AnalysisData = AnalysisData(
    dependencyList: seq<string>,
    pluginRefs: map<string, seq<PluginRef>>,
    missingNamesList: seq<MissingName>,
    shims: map<string, string>)

  /** What `getAnalysisData` hands back: the data, `{failure: message}`, or an escaped exception. */
  datatype Analysis = Ready(data: AnalysisData) | Failure(message: string) | Crashed(reason: Halt)

  /** The characters `.` in a regular expression does not match. */
  predicate IsLineTerminator(c: char) {
    c == '\n' || c == '\r' || c == 0x2028 as char || c == 0x2029 as char
  }

  /** `s.match(".+!")`: a '!' right after a character that is not a line terminator. */
  predicate IsPluginId(s: string) {
    exists i :: 1 <= i < |s| && s[i] == '!' && !IsLineTerminator(s[i - 1])
  }

  /** `s.indexOf(c)`. */
  function IndexOf(s: string, c: char): (i: nat)
    requires c in s
    ensures i < |s| && s[i] == c && c !in s[..i]
  {
    if s[0] == c then 0
    else
      assert s == [s[0]] + s[1..];
      var j := IndexOf(s[1..], c);
      assert s[..j + 1] == [s[0]] + s[1..][..j];
      j + 1
  }

  /** The plugin part of `plugin!resource`. */
  function PluginPrefix(s: string): string
    requires IsPluginId(s)
  {
    s[..IndexOf(s, '!')]
  }

  /** The resource part of `plugin!resource`. */
  function PluginResource(s: string): string
    requires IsPluginId(s)
  {
    s[IndexOf(s, '!') + 1..]
  }

  /** A location with a leading '/' added when it has none. */
  function RootedUrl(s: string): string {
    if |s| > 0 && s[0] == '/' then s else "/" + s
  }

  /** The module named in a load error: the top of the path stack, or "root". */
  function ParentName(pathStack: seq<string>): string {
    if |pathStack| > 0 then pathStack[|pathStack| - 1] else "root"
  }

  /** The three ids every AMD loader provides itself. */
  predicate IsSpecial(id: string) {
    id == "require" || id == "exports" || id == "module"
  }

  /** A reported cycle: a chain of ids whose last id occurs earlier in it. */
  predicate EndsInRepeat(c: seq<string>) {
    |c| > 0 && c[|c| - 1] in c[..|c| - 1]
  }

  /**
    The ordering loop's bookkeeping: `seen` holds the three special ids and
    exactly the ids of `list`, which holds each id once and no special one.
   */
  predicate Tracks(list: seq<string>, seen: set<string>) {
    {"require", "module", "exports"} <= seen &&
    NoDups(list) && (forall x :: x in list ==> x in seen && !IsSpecial(x)) &&
    (forall x :: x in seen ==> x in list || IsSpecial(x))
  }

  /**
    How many ids come before the first empty one: the ids `_analyze` walks
    among its entries, and `_processShimDependencies` among a shim's deps.
   */
  function EntryCount(modules: seq<string>): (n: nat)
    ensures n <= |modules|
    ensures forall j :: 0 <= j < n ==> modules[j] != ""
    ensures n < |modules| ==> modules[n] == ""
  {
    if |modules| == 0 || modules[0] == "" then 0
    else
      var n := EntryCount(modules[1..]);
      assert forall j :: 1 <= j < n + 1 ==> modules[j] == modules[1..][j - 1];
      n + 1
  }

  /**
    How many of `deps`, from the front, are registered in `mm`: the cycle
    scan's loop stops at the first dependency that is not.
   */
  function RegisteredPrefix(deps: seq<string>, mm: map<string, Module>): (n: nat)
    ensures n <= |deps|
    ensures forall j :: 0 <= j < n ==> deps[j] in mm
    ensures n < |deps| ==> deps[n] !in mm
  {
    if |deps| == 0 || deps[0] !in mm then 0
    else
      var n := RegisteredPrefix(deps[1..], mm);
      assert forall j :: 1 <= j < n + 1 ==> deps[j] == deps[1..][j - 1];
      n + 1
  }

  /** Registering a record adds at most that record to the records held. */
  lemma ValuesUpdate(moduleMap: map<string, Module>, id: string, m: Module)
    ensures moduleMap[id := m].Values <= moduleMap.Values + {m}
  {
    forall v | v in moduleMap[id := m].Values ensures v in moduleMap.Values + {m} {
      var k :| k in moduleMap[id := m] && moduleMap[id := m][k] == v;
      if k != id {
        assert moduleMap[k] == v;
      }
    }
  }

  /** What was listed after `list` stays listed after it as the list grows; a new location listed at all is listed after it. */
  lemma ListedAfter(list: seq<string>, before: seq<string>, after: seq<string>, u: string, seen: set<string>)
    requires list <= before <= after && forall x :: x in list ==> x in seen
    ensures forall x :: x in before[|list|..] ==> x in after[|list|..]
    ensures u in after && u !in seen ==> u in after[|list|..]
  {
    forall x | x in before[|list|..] ensures x in after[|list|..] {
      var k :| 0 <= k < |before| - |list| && before[|list|..][k] == x;
      assert after[|list|..][k] == x;
    }
    if u in after && u !in seen {
      var k :| 0 <= k < |after| && after[k] == u;
      assert u !in list;
      assert k >= |list|;
      assert after[|list|..][k - |list|] == u;
    }
  }

  /** The locations of a set of records. */
  ghost function Uris(mods: set<Module>): set<string> {
    set m | m in mods :: m.uri
  }

  // ---------------------------------------------------------------------------
  // Shim wrappers
  // ---------------------------------------------------------------------------

  /** An array shim stands for `{deps: array}`. */
  function NormalizedShim(entry: ShimEntry): ShimEntry {
    match entry
    case ShimArray(list) => ShimObject(Some(list), "", false)
    case ShimObject(_, _, _) => entry
  }

  function ShimDeps(shim: ShimEntry): Option<seq<string>> {
    match shim
    case ShimArray(list) => Some(list)
    case ShimObject(deps, _, _) => deps
  }

  /** One dependency in a wrapper's list: quoted, and followed by ',' unless it is the last dep. */
  function QuotedDep(dep: string, last: bool): string {
    "'" + dep + "'" + (if last then "" else ",")
  }

  /** The quoted dependency list of a wrapper: the kept ones among the first `n` deps. */
  function DepListText(deps: seq<string>, kept: seq<bool>, n: nat): string
    requires n <= |deps| == |kept|
    decreases n
  {
    if n == 0 then ""
    else DepListText(deps, kept, n - 1) + (if kept[n - 1] then QuotedDep(deps[n - 1], n == |deps|) else "")
  }

  /** The deps among the first `n` that are kept, in order. */
  function KeptDeps(deps: seq<string>, kept: seq<bool>, n: nat): seq<string>
    requires n <= |deps| == |kept|
    decreases n
  {
    if n == 0 then [] else KeptDeps(deps, kept, n - 1) + (if kept[n - 1] then [deps[n - 1]] else [])
  }

  /** One step of the wrapper's dependency loop: a kept dep is added to the module's list, an excluded one changes nothing. */
  lemma KeptDepsStep(deps0: seq<string>, deps: seq<string>, kept: seq<bool>, i: nat)
    requires i < |deps| == |kept|
    ensures kept[i] ==> AddAll(deps0, KeptDeps(deps, kept, i + 1)) == AddDep(AddAll(deps0, KeptDeps(deps, kept, i)), deps[i])
    ensures !kept[i] ==> KeptDeps(deps, kept, i + 1) == KeptDeps(deps, kept, i)
    ensures DepListText(deps, kept, i + 1) ==
      DepListText(deps, kept, i) + (if kept[i] then QuotedDep(deps[i], i == |deps| - 1) else "")
  {
    if kept[i] {
      var ds := KeptDeps(deps, kept, i + 1);
      assert ds == KeptDeps(deps, kept, i) + [deps[i]];
      assert ds[..|ds| - 1] == KeptDeps(deps, kept, i);
      AddAllSnoc(deps0, ds);
    } else {
      assert KeptDeps(deps, kept, i + 1) == KeptDeps(deps, kept, i) + [];
    }
  }

  /** The factory body of a wrapper: the `init` hook and the `exports` global. */
  function InitText(id: string, shim: ShimEntry): string
    requires shim.ShimObject?
  {
    if shim.hasInit then
      "\tvar initFunc = cfg.shim['" + id + "'].init;\n" +
      "\tvar initRet = initFunc.apply(root, arguments);\n" +
      (if shim.exports != "" then "\tif (initRet) { return initRet; } else { return root." + shim.exports + "; }\n"
       else "\tif (initRet) { return initRet; } else { return {}; }\n")
    else if shim.exports != "" then "return root." + shim.exports + ";\n"
    else ""
  }

  const WrapperHead := "\n(function(root, cfg) {\ndefine('"
  const WrapperTail := "});\n}(this, zazl._getConfig()));\n"

  /** The opening of every wrapper: the `define` call up to the quoted module id. */
  function ShimHead(id: string): string {
    WrapperHead + id + "'"
  }

  /** The `define` wrapper `_findShim` stores for a shimmed module. */
  function ShimText(id: string, shim: ShimEntry, kept: seq<bool>): string
    requires shim.ShimObject?
    requires shim.deps.Some? ==> |kept| == |shim.deps.value|
  {
    ShimHead(id) + ShimBody(id, shim, kept)
  }

  /** What follows the id in a shim wrapper: the dependency list, if the shim has one, and the factory. */
  function ShimBody(id: string, shim: ShimEntry, kept: seq<bool>): string
    requires shim.ShimObject?
    requires shim.deps.Some? ==> |kept| == |shim.deps.value|
  {
    ", " +
    (if shim.deps.Some? then "[" + DepListText(shim.deps.value, kept, |kept|) + "], " else "") +
    "function() {\n" + InitText(id, shim) + WrapperTail
  }

  /** The wrapper the final sweep stores for a module with neither `define` nor shim. */
  function EmptyShimText(id: string): string {
    ShimHead(id) + (", " + "function() {\n" + WrapperTail)
  }

  /** The sweep's wrapper is the shim wrapper of a shim with no deps, no init and no exports. */
  lemma EmptyShimIsBareShim(id: string)
    ensures EmptyShimText(id) == ShimText(id, ShimObject(None, "", false), [])
  {
  }

  /**
    Every wrapper defines the module under its own id: the text after the fixed
    opening, up to the closing quote, is the id.
   */
  lemma ShimNamesModule(id: string, shim: ShimEntry, kept: seq<bool>)
    requires shim.ShimObject? && (shim.deps.Some? ==> |kept| == |shim.deps.value|)
    ensures ShimHead(id) <= ShimText(id, shim, kept) && ShimHead(id) <= EmptyShimText(id)
    ensures ShimHead(id)[|WrapperHead|..|WrapperHead| + |id|] == id
    ensures ShimHead(id)[|WrapperHead| + |id|] == '\''
  {
    assert ShimHead(id) == WrapperHead + id + "'";
  }

  /** With every dep kept, each dep but the last is followed by a comma. */
  lemma {:induction false} DepListAllKept(deps: seq<string>, kept: seq<bool>, n: nat)
    requires n <= |deps| == |kept| && forall i :: 0 <= i < |kept| ==> kept[i]
    ensures KeptDeps(deps, kept, n) == deps[..n]
    decreases n
  {
    if n > 0 {
      DepListAllKept(deps, kept, n - 1);
      assert deps[..n] == deps[..n - 1] + [deps[n - 1]];
    }
  }

  /** The trailing-comma quirk: when the last dep is excluded, the kept one before it keeps its comma. */
  lemma TrailingComma(a: string, b: string)
    ensures DepListText([a, b], [true, false], 2) == "'" + a + "',"
    ensures KeptDeps([a, b], [true, false], 2) == [a]
  {
    assert DepListText([a, b], [true, false], 1) == QuotedDep(a, false);
  }

  class Analyzer {
    const config: Config
    /** The source table: `<url>.js` to what reading and parsing it gives. */
    const sources: map<string, Source>
    /** What a registered plugin's proxy records for `(pluginName, resource, pathStack)`. */
    const pluginOracle: (string, string, seq<string>) -> PluginRef
    var moduleMap: map<string, Module>
    /**
      The ids of `moduleMap` in the order they were first added: `values()`
      enumerates the records in this order, and adding an id again keeps its
      place.
     */
    var registered: seq<string>
    var pluginRefList: map<string, seq<PluginRef>>
    var missingNamesList: seq<MissingName>
    var shims: map<string, string>

    /** `new Analyzer(cfg)`: the configuration with package defaults applied. */
    constructor (raw: RawConfig, sources: map<string, Source>, pluginOracle: (string, string, seq<string>) -> PluginRef)
      ensures config.paths == raw.paths && config.baseUrl == raw.baseUrl && config.idMap == raw.idMap
      ensures config.shim == raw.shim && config.plugins == raw.plugins && config.scanCJSRequires == raw.scanCJSRequires
      ensures forall n :: Lookup(config.pkgs, n) == LastNamed(raw.packages, n)
      ensures this.sources == sources && this.pluginOracle == pluginOracle
      ensures moduleMap == map[] && registered == [] && pluginRefList == map[] && missingNamesList == [] && shims == map[]
    {
      var c := Configure(raw);
      config := c;
      this.sources := sources;
      this.pluginOracle := pluginOracle;
      moduleMap := map[];
      registered := [];
      pluginRefList := map[];
      missingNamesList := [];
      shims := map[];
    }

    /** `registered` lists every registered id once, and nothing else. */
    ghost predicate Registry()
      reads this`moduleMap, this`registered
    {
      NoDups(registered) && forall id :: id in moduleMap <==> id in registered
    }

    /** The location of an id as the walk compares it with the exclusion list. */
    function UrlOf(id: string): string {
      RootedUrl(IdToUrlSpec(config, id))
    }

    /** The module text at `url` is present and parses. */
    predicate Loadable(url: string) {
      url + ".js" in sources && sources[url + ".js"].Parsed?
    }

    function LoadErrorFor(url: string, pathStack: seq<string>): LoadError
      requires !Loadable(url)
    {
      if url + ".js" !in sources then Missing(url, ParentName(pathStack))
      else Unparsed(url, sources[url + ".js"].diagnostic)
    }

    /** The id under which `_walk(uri)` registers a module. */
    function WalkedId(uri: string, pathStack: seq<string>): string {
      if IsSpecial(uri) then uri
      else if IsPluginId(uri) then ExpandSpec(config, PluginPrefix(uri), ParentId(pathStack))
      else ExpandSpec(config, uri, ParentId(pathStack))
    }

    /** The id `getDependencyList` looks up for an entry module. */
    function EntryId(m: string): string {
      ExpandSpec(config, if IsPluginId(m) then PluginPrefix(m) else m, ParentId([]))
    }

    /** The record `_processPluginRef` produces; without a registered plugin the resource is expanded and located. */
    function RefFor(pluginName: string, resourceName: string, pathStack: seq<string>): PluginRef {
      if Lookup(config.plugins, pluginName).Some? then pluginOracle(pluginName, resourceName, pathStack)
      else
        var normalizedName := ExpandSpec(config, resourceName, ParentId(pathStack));
        PluginRef(resourceName, Some(normalizedName), None, None, Some(IdToUrlSpec(config, normalizedName)))
    }

    /** The shim `_findShim` uses for `id`, arrays normalised to objects. */
    function ShimFor(id: string): Option<ShimEntry> {
      if config.shim.None? then None
      else match Lookup(config.shim.value, id)
        case Some(entry) => Some(NormalizedShim(entry))
        case None => None
    }

    /** Whether the rooted url of a dependency is in the exclude list. */
    method ExcludedDep(dependency: string, exclude: seq<string>) returns (excluded: bool)
      ensures excluded <==> UrlOf(dependency) in exclude
    {
      var dependencyUri := IdToUrl(config, dependency);
      dependencyUri := RootedUrl(dependencyUri);
      excluded := IsExcluded(exclude, dependencyUri);
    }

    lemma KeptAt(deps: seq<string>, exclude: seq<string>, i: nat)
      requires i < |deps|
      ensures Kept(deps, exclude)[i] == (UrlOf(deps[i]) !in exclude)
    {
    }

    /** Which of the deps are not excluded. */
    function Kept(deps: seq<string>, exclude: seq<string>): (kept: seq<bool>)
      ensures |kept| == |deps|
    {
      seq(|deps|, i requires 0 <= i < |deps| => UrlOf(deps[i]) !in exclude)
    }

    /** What the walk achieved for an id: it is registered, or its text is missing or does not parse. */
    ghost predicate Reached(ids: set<string>, id: string) {
      id in ids || !Loadable(UrlOf(id))
    }

    /** The first `n` shim deps were walked. */
    ghost predicate ShimWalked(ids: set<string>, deps: seq<string>, n: nat, pathStack: seq<string>)
      requires n <= |deps|
    {
      forall k :: 0 <= k < n ==> Reached(ids, WalkedId(deps[k], pathStack))
    }

    /** One turn of the shim loop: the deps walked before stay walked as more ids are registered, and dep `i` joins them. */
    lemma ShimWalkedStep(ids: set<string>, ids': set<string>, deps: seq<string>, i: nat, pathStack: seq<string>)
      requires i < |deps| && ids <= ids' && ShimWalked(ids, deps, i, pathStack)
      requires Reached(ids', WalkedId(deps[i], pathStack))
      ensures ShimWalked(ids', deps, i + 1, pathStack)
    {
    }

    /** The edge a plugin's reported dependency adds: none when it is absent, empty or excluded. */
    function PluginEdge(ref: PluginRef, exclude: seq<string>): seq<string> {
      if ref.dependency.Some? && ref.dependency.value != "" && UrlOf(ref.dependency.value) !in exclude
      then [ref.dependency.value] else []
    }

    /**
      The edge `_walkDependency` adds for a dependency listed by `uri`: none for a
      literal, the loader's own ids and an excluded location, otherwise the
      dependency expanded against `uri`.
     */
    function DependencyEdge(uri: string, typeName: string, dependency: string, exclude: seq<string>): seq<string> {
      if typeName == "literal" || dependency == config.baseUrl + "require" ||
         dependency == config.baseUrl + "exports" || dependency == config.baseUrl + "module" ||
         UrlOf(ExpandSpec(config, dependency, uri)) in exclude
      then []
      else [ExpandSpec(config, dependency, uri)]
    }

    /**
      The edges one dependency of a `define` adds to the module `uri`: for a
      plugin reference, first the dependency its plugin reports and then the
      plugin's own module; for any other id, the id itself.
     */
    function ListedEdges(uri: string, dependency: string, typeName: string, exclude: seq<string>, pathStack: seq<string>): seq<string> {
      if IsPluginId(dependency) then
        var pluginName := ExpandSpec(config, PluginPrefix(dependency), ParentId(pathStack + [uri]));
        PluginEdge(RefFor(pluginName, PluginResource(dependency), pathStack + [uri]), exclude) +
        DependencyEdge(uri, typeName, pluginName, exclude)
      else DependencyEdge(uri, typeName, dependency, exclude)
    }

    /** The edges of all the dependencies of a `define`, in the order they are listed. */
    function DefineEdges(uri: string, deps: seq<Dep>, exclude: seq<string>, pathStack: seq<string>): seq<string>
      requires forall d :: d in deps ==> d.value.Some?
    {
      if |deps| == 0 then []
      else DefineEdges(uri, deps[..|deps| - 1], exclude, pathStack) +
           ListedEdges(uri, deps[|deps| - 1].value.value, deps[|deps| - 1].typeName, exclude, pathStack)
    }

    /** One turn of the `define` loop: the edges of dependency `i` extend those of the ones before it. */
    lemma DefineEdgesStep(uri: string, deps: seq<Dep>, i: nat, exclude: seq<string>, pathStack: seq<string>,
                          deps0: seq<string>, before: seq<string>, after: seq<string>)
      requires i < |deps| && deps[i].value.Some? && forall d :: d in deps[..i] ==> d.value.Some?
      requires before == AddAll(deps0, DefineEdges(uri, deps[..i], exclude, pathStack))
      requires after == AddAll(before, ListedEdges(uri, deps[i].value.value, deps[i].typeName, exclude, pathStack))
      ensures forall d :: d in deps[..i + 1] ==> d.value.Some?
      ensures after == AddAll(deps0, DefineEdges(uri, deps[..i + 1], exclude, pathStack))
    {
      DefineEdgesSnoc(uri, deps, i, exclude, pathStack);
      AddAllAppend(deps0, DefineEdges(uri, deps[..i], exclude, pathStack),
        ListedEdges(uri, deps[i].value.value, deps[i].typeName, exclude, pathStack));
    }

    lemma DefineEdgesSnoc(uri: string, deps: seq<Dep>, i: nat, exclude: seq<string>, pathStack: seq<string>)
      requires i < |deps| && deps[i].value.Some? && forall d :: d in deps[..i] ==> d.value.Some?
      ensures forall d :: d in deps[..i + 1] ==> d.value.Some?
      ensures DefineEdges(uri, deps[..i + 1], exclude, pathStack) ==
        DefineEdges(uri, deps[..i], exclude, pathStack) + ListedEdges(uri, deps[i].value.value, deps[i].typeName, exclude, pathStack)
    {
      assert deps[..i + 1] == deps[..i] + [deps[i]];
      assert deps[..i + 1][..i] == deps[..i];
    }

    /** Every edge `_walkDependency` adds to `uri` was walked: its target is registered or cannot be loaded. */
    ghost predicate DependencyWalked(ids: set<string>, uri: string, typeName: string, dependency: string, exclude: seq<string>, pathStack: seq<string>) {
      forall e :: e in DependencyEdge(uri, typeName, dependency, exclude) ==> Reached(ids, WalkedId(e, pathStack + [uri]))
    }

    /** The edge a plugin reports for the reference `refId` was walked, with the reference as the path stack. */
    ghost predicate PluginWalked(ids: set<string>, refId: string, ref: PluginRef, exclude: seq<string>) {
      forall e :: e in PluginEdge(ref, exclude) ==> Reached(ids, WalkedId(e, [refId]))
    }

    /** Every edge one dependency of a `define` adds was walked. */
    ghost predicate ListedWalked(ids: set<string>, uri: string, dependency: string, typeName: string, exclude: seq<string>, pathStack: seq<string>) {
      if IsPluginId(dependency) then
        var pluginName := ExpandSpec(config, PluginPrefix(dependency), ParentId(pathStack + [uri]));
        PluginWalked(ids, dependency, RefFor(pluginName, PluginResource(dependency), pathStack + [uri]), exclude) &&
        DependencyWalked(ids, uri, typeName, pluginName, exclude, pathStack)
      else DependencyWalked(ids, uri, typeName, dependency, exclude, pathStack)
    }

    /** Every edge the dependencies of a `define` add was walked. */
    ghost predicate DefineWalked(ids: set<string>, uri: string, deps: seq<Dep>, exclude: seq<string>, pathStack: seq<string>)
      requires forall d :: d in deps ==> d.value.Some?
    {
      forall k :: 0 <= k < |deps| ==> ListedWalked(ids, uri, deps[k].value.value, deps[k].typeName, exclude, pathStack)
    }

    /** Registering more ids never undoes a walked edge. */
    lemma ListedWalkedGrows(ids: set<string>, ids': set<string>, uri: string, dependency: string, typeName: string,
                            exclude: seq<string>, pathStack: seq<string>)
      requires ids <= ids' && ListedWalked(ids, uri, dependency, typeName, exclude, pathStack)
      ensures ListedWalked(ids', uri, dependency, typeName, exclude, pathStack)
    {
    }

    /**
      One turn of the `define` loop: the dependencies walked before stay
      walked as more ids are registered, and dependency `i` joins them.
     */
    lemma DefineWalkedStep(ids: set<string>, ids': set<string>, uri: string, deps: seq<Dep>, i: nat,
                           exclude: seq<string>, pathStack: seq<string>)
      requires i < |deps| && forall d :: d in deps[..i + 1] ==> d.value.Some?
      requires ids <= ids' && DefineWalked(ids, uri, deps[..i], exclude, pathStack)
      requires ListedWalked(ids', uri, deps[i].value.value, deps[i].typeName, exclude, pathStack)
      ensures DefineWalked(ids', uri, deps[..i + 1], exclude, pathStack)
    {
      forall k | 0 <= k < i + 1
        ensures ListedWalked(ids', uri, deps[k].value.value, deps[k].typeName, exclude, pathStack)
      {
        assert deps[..i + 1][k] == deps[k];
        if k < i {
          assert deps[..i][k] == deps[k];
          ListedWalkedGrows(ids, ids', uri, deps[k].value.value, deps[k].typeName, exclude, pathStack);
        }
      }
    }

    /** `r` begins with `r0`: ids are only ever appended to the registration order. */
    ghost predicate Extends(r0: seq<string>, r: seq<string>) {
      |r0| <= |r| && forall k :: 0 <= k < |r0| ==> r[k] == r0[k]
    }

    lemma ExtendsTrans(r0: seq<string>, r1: seq<string>, r2: seq<string>)
      requires Extends(r0, r1) && Extends(r1, r2)
      ensures Extends(r0, r2)
    {
    }

    /** The walk only ever adds: registered ids, plugin lists, missing names and wrappers stay. */
    ghost predicate Grown(m0: map<string, Module>, p0: map<string, seq<PluginRef>>, n0: seq<MissingName>, s0: map<string, string>, r0: seq<string>)
      reads this
    {
      m0.Keys <= moduleMap.Keys && p0.Keys <= pluginRefList.Keys && n0 <= missingNamesList && s0.Keys <= shims.Keys && Extends(r0, registered)
    }

    // -------------------------------------------------------------------------
    // Plugin references
    // -------------------------------------------------------------------------

    /** `_processPluginRef`: the registered branch asks the plugin, the other expands and locates the resource. */
    method ProcessPluginRef(pluginName: string, resourceName: string, pathStack: seq<string>) returns (ref: PluginRef)
      ensures ref == RefFor(pluginName, resourceName, pathStack)
      ensures Lookup(config.plugins, pluginName).None? ==> ref.dependency.None? && ref.value.None? && ref.name == resourceName
    {
      if Lookup(config.plugins, pluginName).Some? {
        ref := pluginOracle(pluginName, resourceName, pathStack);
      } else {
        var normalizedName := Expand(config, resourceName, pathStack);
        var moduleUrl := IdToUrl(config, normalizedName);
        ref := PluginRef(resourceName, Some(normalizedName), None, None, Some(moduleUrl));
      }
    }

    /**
      `_handlePluginRef`: records the reference under its expanded plugin name,
      after walking the dependency the plugin reports unless it is excluded.
     */
    method HandlePluginRef(uri: string, exclude: seq<string>, pathStack: seq<string>, mod: Module?, fuel: nat)
      returns (pluginName: string, outcome: Outcome)
      requires IsPluginId(uri)
      requires mod != null ==> mod.Valid()
      requires Registry()
      modifies this, (if mod == null then {} else {mod})`dependencies
      ensures Registry()
      ensures mod != null ==> mod.Valid()
      ensures pluginName == ExpandSpec(config, PluginPrefix(uri), ParentId(pathStack))
      ensures outcome.Done? || outcome.Halted?
      ensures Grown(old(moduleMap), old(pluginRefList), old(missingNamesList), old(shims), old(registered))
      ensures forall m :: m in moduleMap.Values ==> m in old(moduleMap.Values) || fresh(m)
      ensures outcome.Done? ==>
        pluginName in pluginRefList && |pluginRefList[pluginName]| > 0 &&
        pluginRefList[pluginName][|pluginRefList[pluginName]| - 1] == RefFor(pluginName, PluginResource(uri), pathStack)
      ensures mod != null ==>
        var dep := RefFor(pluginName, PluginResource(uri), pathStack).dependency;
        mod.dependencies ==
          if dep.Some? && dep.value != "" && UrlOf(dep.value) !in exclude then AddDep(old(mod.dependencies), dep.value)
          else old(mod.dependencies)
      ensures outcome.Done? ==> PluginWalked(moduleMap.Keys, uri, RefFor(pluginName, PluginResource(uri), pathStack), exclude)
      decreases fuel, 2
    {
      var ref;
      pluginName, ref := OpenPluginRef(uri, pathStack);
      outcome := WalkPluginDependency(uri, ref, exclude, mod, fuel);
      if outcome.Halted? {
        return;
      }
      pluginRefList := pluginRefList[pluginName := pluginRefList[pluginName] + [ref]];
    }

    /** The first half of `_handlePluginRef`: the plugin's expanded name gets a (possibly empty) list, and the reference is built. */
    method OpenPluginRef(uri: string, pathStack: seq<string>) returns (pluginName: string, ref: PluginRef)
      requires IsPluginId(uri)
      modifies this`pluginRefList
      ensures pluginName == ExpandSpec(config, PluginPrefix(uri), ParentId(pathStack))
      ensures ref == RefFor(pluginName, PluginResource(uri), pathStack)
      ensures pluginName in pluginRefList && old(pluginRefList).Keys <= pluginRefList.Keys
    {
      var bang := IndexOf(uri, '!');
      pluginName := Expand(config, uri[..bang], pathStack);
      var pluginValue := uri[bang + 1..];
      if pluginName !in pluginRefList {
        pluginRefList := pluginRefList[pluginName := []];
      }
      ref := ProcessPluginRef(pluginName, pluginValue, pathStack);
    }

    /**
      The dependency a plugin reports for a reference: when it is non-empty and
      its location is not excluded, it is added to the referring module (if
      any) and walked with the reference as the only entry of the path stack.
     */
    method WalkPluginDependency(uri: string, ref: PluginRef, exclude: seq<string>, mod: Module?, fuel: nat)
      returns (outcome: Outcome)
      requires mod != null ==> mod.Valid()
      requires Registry()
      modifies this, (if mod == null then {} else {mod})`dependencies
      ensures Registry()
      ensures mod != null ==> mod.Valid()
      ensures outcome.Done? || outcome.Halted?
      ensures Grown(old(moduleMap), old(pluginRefList), old(missingNamesList), old(shims), old(registered))
      ensures forall m :: m in moduleMap.Values ==> m in old(moduleMap.Values) || fresh(m)
      ensures mod != null ==>
        mod.dependencies ==
          if ref.dependency.Some? && ref.dependency.value != "" && UrlOf(ref.dependency.value) !in exclude
          then AddDep(old(mod.dependencies), ref.dependency.value)
          else old(mod.dependencies)
      ensures outcome.Done? ==> PluginWalked(moduleMap.Keys, uri, ref, exclude)
      decreases fuel, 1
    {
      if ref.dependency.Some? && ref.dependency.value != "" {
        var dependency := ref.dependency.value;
        var excluded := ExcludedDep(dependency, exclude);
        if !excluded {
          if mod != null {
            mod.AddDependency(dependency);
          }
          if fuel == 0 {
            return Halted(OutOfFuel);
          }
          outcome := Walk(dependency, exclude, [uri], fuel - 1);
          if outcome.Halted? {
            return;
          }
        }
      }
      outcome := Done;
    }

    // -------------------------------------------------------------------------
    // The walk
    // -------------------------------------------------------------------------

    /**
      `_walkDependency`: expands a listed dependency against the module that
      lists it, records it and walks it unless its location is excluded.  A
      failure of the nested walk is ignored.
     */
    method WalkDependency(uri: string, typeName: string, dependency: string, exclude: seq<string>,
                          mod: Module, pathStack: seq<string>, fuel: nat) returns (outcome: Outcome)
      requires mod.Valid()
      requires Registry()
      modifies this, mod`dependencies
      ensures Registry()
      ensures mod.Valid()
      ensures outcome.Done? || outcome.Halted?
      ensures Grown(old(moduleMap), old(pluginRefList), old(missingNamesList), old(shims), old(registered))
      ensures forall m :: m in moduleMap.Values ==> m in old(moduleMap.Values) || fresh(m)
      ensures typeName == "literal" || dependency == config.baseUrl + "require" ||
              dependency == config.baseUrl + "exports" || dependency == config.baseUrl + "module" ||
              UrlOf(ExpandSpec(config, dependency, uri)) in exclude
        ==> outcome == Done && unchanged(this) && unchanged(mod)
      ensures !(typeName == "literal" || dependency == config.baseUrl + "require" ||
                dependency == config.baseUrl + "exports" || dependency == config.baseUrl + "module" ||
                UrlOf(ExpandSpec(config, dependency, uri)) in exclude)
        ==> mod.dependencies == AddDep(old(mod.dependencies), ExpandSpec(config, dependency, uri))
      ensures outcome.Done? ==> DependencyWalked(moduleMap.Keys, uri, typeName, dependency, exclude, pathStack)
      decreases fuel, 3
    {
      if typeName != "literal" &&
         dependency != config.baseUrl + "require" &&
         dependency != config.baseUrl + "exports" &&
         dependency != config.baseUrl + "module" {
        var stack := pathStack + [uri];
        var dep := Expand(config, dependency, stack);
        var excluded := ExcludedDep(dep, exclude);
        if !excluded {
          mod.AddDependency(dep);
          if fuel == 0 {
            return Halted(OutOfFuel);
          }
          var nested := Walk(dep, exclude, stack, fuel - 1);
          if nested.Halted? {
            return nested;
          }
        }
      }
      outcome := Done;
    }

    /**
      `_findShim`: for a module without `define`, stores the wrapper built from
      its shim entry and records its non-excluded shim deps as dependencies.
     */
    method FindShim(mod: Module, exclude: seq<string>) returns (shim: Option<ShimEntry>)
      requires mod.Valid()
      modifies this`shims, mod`dependencies
      ensures mod.Valid()
      ensures shim == ShimFor(mod.id)
      ensures shim.None? ==> shims == old(shims) && mod.dependencies == old(mod.dependencies)
      ensures shim.Some? ==>
        var deps := shim.value.deps.GetOr([]);
        shims == old(shims)[mod.uri := ShimText(mod.id, shim.value, Kept(deps, exclude))] &&
        mod.dependencies == AddAll(old(mod.dependencies), KeptDeps(deps, Kept(deps, exclude), |deps|))
    {
      if config.shim.None? {
        return None;
      }
      var entry := Lookup(config.shim.value, mod.id);
      if entry.None? {
        return None;
      }
      var found := NormalizedShim(entry.value);
      var deps := found.deps.GetOr([]);
      var depList := ShimDepList(mod, deps, exclude);
      var shimContent := ShimHead(mod.id) + (", " +
        (if found.deps.Some? then "[" + depList + "], " else "") +
        "function() {\n" + InitText(mod.id, found) + WrapperTail);
      shims := shims[mod.uri := shimContent];
      shim := Some(found);
    }

    /**
      The dependency loop of `_findShim`: every dep whose rooted url is not
      excluded is added to the module and quoted into the wrapper's list.
     */
    method ShimDepList(mod: Module, deps: seq<string>, exclude: seq<string>) returns (depList: string)
      requires mod.Valid()
      modifies mod`dependencies
      ensures mod.Valid()
      ensures depList == DepListText(deps, Kept(deps, exclude), |deps|)
      ensures mod.dependencies == AddAll(old(mod.dependencies), KeptDeps(deps, Kept(deps, exclude), |deps|))
    {
      ghost var kept := Kept(deps, exclude);
      ghost var deps0 := mod.dependencies;
      depList := "";
      var i := 0;
      while i < |deps|
        invariant 0 <= i <= |deps|
        invariant depList == DepListText(deps, kept, i)
        invariant mod.Valid()
        invariant mod.dependencies == AddAll(deps0, KeptDeps(deps, kept, i))
      {
        var excluded := ExcludedDep(deps[i], exclude);
        KeptAt(deps, exclude, i);
        KeptDepsStep(deps0, deps, kept, i);
        if !excluded {
          mod.AddDependency(deps[i]);
          depList := depList + QuotedDep(deps[i], i == |deps| - 1);
        }
        i := i + 1;
      }
    }

    /**
      `_processShimDependencies`: walks every shim dep in order, up to the
      first empty one, ignoring failures: each of them ends up registered or
      has a missing or unparsable text.
     */
    method ProcessShimDependencies(shim: ShimEntry, exclude: seq<string>, pathStack: seq<string>, fuel: nat)
      returns (outcome: Outcome)
      requires Registry()
      modifies this
      ensures Registry()
      ensures outcome.Done? || outcome.Halted?
      ensures Grown(old(moduleMap), old(pluginRefList), old(missingNamesList), old(shims), old(registered))
      ensures forall m :: m in moduleMap.Values ==> m in old(moduleMap.Values) || fresh(m)
      ensures ShimDeps(shim).None? ==> outcome == Done && unchanged(this)
      ensures outcome.Done? && ShimDeps(shim).Some? ==>
        ShimWalked(moduleMap.Keys, ShimDeps(shim).value, EntryCount(ShimDeps(shim).value), pathStack)
      decreases fuel, 3
    {
      var deps := ShimDeps(shim);
      if deps.None? {
        return Done;
      }
      outcome := WalkShimDeps(deps.value, exclude, pathStack, fuel);
    }

    /** The loop of `_processShimDependencies`: each dep up to the first empty one is walked, a failure ignored. */
    method WalkShimDeps(deps: seq<string>, exclude: seq<string>, pathStack: seq<string>, fuel: nat)
      returns (outcome: Outcome)
      requires Registry()
      modifies this
      ensures Registry()
      ensures outcome.Done? || outcome.Halted?
      ensures Grown(old(moduleMap), old(pluginRefList), old(missingNamesList), old(shims), old(registered))
      ensures forall m :: m in moduleMap.Values ==> m in old(moduleMap.Values) || fresh(m)
      ensures outcome.Done? ==> ShimWalked(moduleMap.Keys, deps, EntryCount(deps), pathStack)
      decreases fuel, 2
    {
      var i := 0;
      while i < |deps|
        invariant 0 <= i <= |deps|
        invariant Registry()
        invariant Grown(old(moduleMap), old(pluginRefList), old(missingNamesList), old(shims), old(registered))
        invariant forall m :: m in moduleMap.Values ==> m in old(moduleMap.Values) || fresh(m)
        invariant forall k :: 0 <= k < i ==> deps[k] != ""
        invariant ShimWalked(moduleMap.Keys, deps, i, pathStack)
      {
        if deps[i] == "" {
          break;
        }
        ghost var ids, r := moduleMap.Keys, registered;
        var nested := WalkShimDependency(deps[i], exclude, pathStack, fuel);
        if nested.Halted? {
          return nested;
        }
        ShimWalkedStep(ids, moduleMap.Keys, deps, i, pathStack);
        ExtendsTrans(old(registered), r, registered);
        i := i + 1;
      }
      assert i == EntryCount(deps);
      outcome := Done;
    }

    /** One turn of the shim loop: the dep is walked and a failure ignored, so it ends up registered or unloadable. */
    method WalkShimDependency(shimDep: string, exclude: seq<string>, pathStack: seq<string>, fuel: nat)
      returns (outcome: Outcome)
      requires Registry()
      modifies this
      ensures Registry()
      ensures outcome.Done? || outcome.Halted?
      ensures Grown(old(moduleMap), old(pluginRefList), old(missingNamesList), old(shims), old(registered))
      ensures forall m :: m in moduleMap.Values ==> m in old(moduleMap.Values) || fresh(m)
      ensures outcome.Done? ==> Reached(moduleMap.Keys, WalkedId(shimDep, pathStack))
      decreases fuel, 1
    {
      if fuel == 0 {
        return Halted(OutOfFuel);
      }
      var nested := Walk(shimDep, exclude, pathStack, fuel - 1);
      if nested.Halted? {
        return nested;
      }
      outcome := Done;
    }

    /**
      `moduleMap.add`: the record is filed under its id; a new id joins the
      end of the registration order, a known one keeps its place.
     */
    method Register(id: string, m: Module)
      requires Registry()
      modifies this`moduleMap, this`registered
      ensures Registry()
      ensures moduleMap == old(moduleMap)[id := m]
      ensures registered == if id in old(moduleMap) then old(registered) else old(registered) + [id]
      ensures moduleMap.Values <= old(moduleMap.Values) + {m}
    {
      ValuesUpdate(moduleMap, id, m);
      if id !in moduleMap {
        NoDupsSnoc(registered, id);
        registered := registered + [id];
      }
      moduleMap := moduleMap[id := m];
    }

    /**
      `_walkDependencies`: reads and parses a module that is not registered
      yet, registers it, and then walks the dependencies of its `define` call,
      or its shim deps when it has no `define`.
     */
    method WalkDependencies(uri: string, exclude: seq<string>, pathStack: seq<string>, fuel: nat)
      returns (outcome: Outcome)
      requires Registry()
      modifies this
      ensures Registry()
      ensures Grown(old(moduleMap), old(pluginRefList), old(missingNamesList), old(shims), old(registered))
      ensures forall m :: m in moduleMap.Values ==> m in old(moduleMap.Values) || fresh(m)
      ensures uri in old(moduleMap) ==> outcome == Done && unchanged(this)
      ensures outcome.Failed? <==> uri !in old(moduleMap) && !Loadable(UrlOf(uri))
      ensures outcome.Failed? ==> unchanged(this) && outcome.error == LoadErrorFor(UrlOf(uri), pathStack)
      ensures !outcome.Failed? ==> uri in moduleMap
      ensures uri !in old(moduleMap) && !outcome.Failed? ==> Extends(old(registered) + [uri], registered)
      decreases fuel, 8
    {
      var url := IdToUrl(config, uri);
      url := RootedUrl(url);
      if uri in moduleMap {
        return Done;
      }
      var file := url + ".js";
      if file !in sources {
        return Failed(Missing(url, ParentName(pathStack)));
      }
      var src := sources[file];
      if src.Unparsable? {
        return Failed(Unparsed(url, src.diagnostic));
      }
      outcome := WalkParsed(uri, url, src.ast, exclude, pathStack, fuel);
    }

    /**
      The rest of `_walkDependencies` once the text has parsed: the module is
      registered, and then its `define` dependencies or its shim deps walked.
     */
    method WalkParsed(uri: string, url: string, ast: Node, exclude: seq<string>, pathStack: seq<string>, fuel: nat)
      returns (outcome: Outcome)
      requires Registry() && uri !in moduleMap
      modifies this
      ensures Registry()
      ensures outcome.Done? || outcome.Halted?
      ensures Grown(old(moduleMap), old(pluginRefList), old(missingNamesList), old(shims), old(registered))
      ensures forall m :: m in moduleMap.Values ==> m in old(moduleMap.Values) || fresh(m)
      ensures uri in moduleMap
      ensures Extends(old(registered) + [uri], registered)
      decreases fuel, 7
    {
      var defineExpr := FindDefine(ast);
      var mod := new Module(uri, url);
      Register(uri, mod);
      if defineExpr.None? {
        outcome := WalkShimmed(mod, exclude, pathStack, fuel);
      } else {
        outcome := WalkDefine(uri, url, mod, defineExpr.value, exclude, pathStack, fuel);
      }
    }

    /**
      The branch of `_walkDependencies` for a module without `define`: its
      wrapper is stored and its shim deps walked, when it has a shim entry.
     */
    method WalkShimmed(mod: Module, exclude: seq<string>, pathStack: seq<string>, fuel: nat) returns (outcome: Outcome)
      requires mod.Valid()
      requires Registry()
      modifies this, mod`dependencies
      ensures Registry()
      ensures mod.Valid()
      ensures outcome.Done? || outcome.Halted?
      ensures Grown(old(moduleMap), old(pluginRefList), old(missingNamesList), old(shims), old(registered))
      ensures forall m :: m in moduleMap.Values ==> m in old(moduleMap.Values) || fresh(m)
      ensures ShimFor(mod.id).Some? ==> mod.uri in shims
      ensures outcome.Done? && ShimFor(mod.id).Some? && ShimDeps(ShimFor(mod.id).value).Some? ==>
        var deps := ShimDeps(ShimFor(mod.id).value).value;
        ShimWalked(moduleMap.Keys, deps, EntryCount(deps), pathStack)
      decreases fuel, 6
    {
      var shim := FindShim(mod, exclude);
      if shim.Some? {
        outcome := ProcessShimDependencies(shim.value, exclude, pathStack, fuel);
      } else {
        outcome := Done;
      }
    }

    /**
      The `define` branch of `_walkDependencies`: marks the module, records an
      anonymous `define` in the missing-names list, and walks each listed
      dependency in order (a plugin reference first through its plugin).  A
      dependency value that is not a string makes `match` throw.
     */
    method WalkDefine(uri: string, url: string, mod: Module, args: seq<Node>, exclude: seq<string>,
                      pathStack: seq<string>, fuel: nat) returns (outcome: Outcome)
      requires mod.Valid()
      requires Registry()
      modifies this, mod
      ensures Registry()
      ensures mod.Valid() && mod.defineFound
      ensures outcome.Done? || outcome.Halted?
      ensures Grown(old(moduleMap), old(pluginRefList), old(missingNamesList), old(shims), old(registered))
      ensures forall m :: m in moduleMap.Values ==> m in old(moduleMap.Values) || fresh(m)
      ensures DepsOf(args, config.scanCJSRequires).None? ==> outcome == Halted(TypeError)
      ensures outcome.Done? ==>
        DepsOf(args, config.scanCJSRequires).Some? &&
        (forall d :: d in DepsOf(args, config.scanCJSRequires).value ==> d.value.Some?) &&
        old(missingNamesList) + (match NameIndexOf(args) case Some(n) => if n != 0 then [MissingName(url, uri, n)] else [] case None => []) <= missingNamesList &&
        mod.dependencies == AddAll(old(mod.dependencies), DefineEdges(uri, DepsOf(args, config.scanCJSRequires).value, exclude, pathStack)) &&
        DefineWalked(moduleMap.Keys, uri, DepsOf(args, config.scanCJSRequires).value, exclude, pathStack)
      decreases fuel, 6
    {
      mod.defineFound := true;
      var depInfo := GetDependencies(args, config.scanCJSRequires);
      if depInfo.None? {
        return Halted(TypeError);
      }
      var nameIndex := depInfo.value.nameIndex;
      if nameIndex.Some? && nameIndex.value != 0 {
        missingNamesList := missingNamesList + [MissingName(url, uri, nameIndex.value)];
      }
      outcome := WalkDefineDeps(uri, mod, depInfo.value.deps, exclude, pathStack, fuel);
    }

    /**
      The dependency loop of the `define` branch: each listed dependency is
      walked in order, and its edges added to the module; a value that is not
      a string stops the loop with a TypeError.
     */
    method WalkDefineDeps(uri: string, mod: Module, deps: seq<Dep>, exclude: seq<string>, pathStack: seq<string>, fuel: nat)
      returns (outcome: Outcome)
      requires mod.Valid()
      requires Registry()
      modifies this, mod`dependencies
      ensures Registry()
      ensures mod.Valid()
      ensures outcome.Done? || outcome.Halted?
      ensures Grown(old(moduleMap), old(pluginRefList), old(missingNamesList), old(shims), old(registered))
      ensures forall m :: m in moduleMap.Values ==> m in old(moduleMap.Values) || fresh(m)
      ensures (exists d :: d in deps && d.value.None?) ==> outcome.Halted?
      ensures outcome.Done? ==>
        (forall d :: d in deps ==> d.value.Some?) &&
        mod.dependencies == AddAll(old(mod.dependencies), DefineEdges(uri, deps, exclude, pathStack)) &&
        DefineWalked(moduleMap.Keys, uri, deps, exclude, pathStack)
      decreases fuel, 5
    {
      ghost var deps0 := mod.dependencies;
      var i := 0;
      while i < |deps|
        invariant 0 <= i <= |deps|
        invariant Registry()
        invariant mod.Valid()
        invariant Grown(old(moduleMap), old(pluginRefList), old(missingNamesList), old(shims), old(registered))
        invariant forall m :: m in moduleMap.Values ==> m in old(moduleMap.Values) || fresh(m)
        invariant forall d :: d in deps[..i] ==> d.value.Some?
        invariant mod.dependencies == AddAll(deps0, DefineEdges(uri, deps[..i], exclude, pathStack))
        invariant DefineWalked(moduleMap.Keys, uri, deps[..i], exclude, pathStack)
      {
        var dep := deps[i];
        if dep.value.None? {
          return Halted(TypeError);
        }
        ghost var before := mod.dependencies;
        ghost var ids := moduleMap.Keys;
        var o := WalkListedDependency(uri, dep.value.value, dep.typeName, exclude, mod, pathStack, fuel);
        if o.Halted? {
          return o;
        }
        DefineEdgesStep(uri, deps, i, exclude, pathStack, deps0, before, mod.dependencies);
        DefineWalkedStep(ids, moduleMap.Keys, uri, deps, i, exclude, pathStack);
        i := i + 1;
      }
      assert deps[..i] == deps;
      outcome := Done;
    }

    /**
      One step of the `define` branch's dependency loop: a plugin reference is
      handled with the module on top of the path stack and then walked under
      its plugin name; any other dependency is walked as listed.
     */
    method WalkListedDependency(uri: string, dependency: string, typeName: string, exclude: seq<string>,
                                mod: Module, pathStack: seq<string>, fuel: nat) returns (outcome: Outcome)
      requires mod.Valid()
      requires Registry()
      modifies this, mod`dependencies
      ensures Registry()
      ensures mod.Valid()
      ensures outcome.Done? || outcome.Halted?
      ensures Grown(old(moduleMap), old(pluginRefList), old(missingNamesList), old(shims), old(registered))
      ensures forall m :: m in moduleMap.Values ==> m in old(moduleMap.Values) || fresh(m)
      ensures outcome.Done? ==>
        mod.dependencies == AddAll(old(mod.dependencies), ListedEdges(uri, dependency, typeName, exclude, pathStack))
      ensures outcome.Done? ==> ListedWalked(moduleMap.Keys, uri, dependency, typeName, exclude, pathStack)
      decreases fuel, 4
    {
      if IsPluginId(dependency) {
        var pluginName;
        pluginName, outcome := HandlePluginRef(dependency, exclude, pathStack + [uri], mod, fuel);
        if outcome.Halted? {
          return;
        }
        ghost var ref := RefFor(pluginName, PluginResource(dependency), pathStack + [uri]);
        ghost var middle := mod.dependencies;
        assert middle == AddAll(old(mod.dependencies), PluginEdge(ref, exclude));
        outcome := WalkDependency(uri, typeName, pluginName, exclude, mod, pathStack, fuel);
        assert mod.dependencies == AddAll(middle, DependencyEdge(uri, typeName, pluginName, exclude));
        AddAllAppend(old(mod.dependencies), PluginEdge(ref, exclude), DependencyEdge(uri, typeName, pluginName, exclude));
      } else {
        outcome := WalkDependency(uri, typeName, dependency, exclude, mod, pathStack, fuel);
        assert mod.dependencies == AddAll(old(mod.dependencies), DependencyEdge(uri, typeName, dependency, exclude));
      }
    }

    /**
      `_walk`: the three loader-provided ids are registered directly; a plugin
      reference is handled and its plugin module walked; any other id is
      expanded against the top of the path stack and walked.
     */
    method Walk(uri: string, exclude: seq<string>, pathStack: seq<string>, fuel: nat) returns (outcome: Outcome)
      requires Registry()
      modifies this
      ensures Registry()
      ensures Grown(old(moduleMap), old(pluginRefList), old(missingNamesList), old(shims), old(registered))
      ensures forall m :: m in moduleMap.Values ==> m in old(moduleMap.Values) || fresh(m)
      ensures outcome.Failed? && outcome.error.Missing? ==> outcome.error.parent == ParentName(pathStack)
      ensures outcome.Done? ==> WalkedId(uri, pathStack) in moduleMap
      ensures outcome.Failed? ==> WalkedId(uri, pathStack) !in moduleMap && !Loadable(UrlOf(WalkedId(uri, pathStack)))
      ensures outcome.Failed? ==> outcome.error == LoadErrorFor(UrlOf(WalkedId(uri, pathStack)), pathStack)
      decreases fuel, 9
    {
      if uri == "require" || uri == "exports" || uri == "module" {
        var m := new Module(uri, uri);
        Register(uri, m);
        return Done;
      }
      if IsPluginId(uri) {
        var pluginName, o := HandlePluginRef(uri, exclude, pathStack, null, fuel);
        if o.Halted? {
          return o;
        }
        outcome := WalkDependencies(pluginName, exclude, pathStack, fuel);
      } else {
        var id := Expand(config, uri, pathStack);
        outcome := WalkDependencies(id, exclude, pathStack, fuel);
      }
    }

    /** The entry `entry` is not registered, its text is missing or unparsable, and `error` says which. */
    ghost predicate EntryFailed(entry: string, error: LoadError)
      reads this`moduleMap
    {
      WalkedId(entry, []) !in moduleMap && !Loadable(UrlOf(WalkedId(entry, []))) &&
      error == LoadErrorFor(UrlOf(WalkedId(entry, [])), [])
    }

    /**
      `_analyze`: starts afresh and walks the entry modules in order, up to the
      first empty one; the first entry that fails to load or parse ends it.
     */
    method Analyze(modules: seq<string>, exclude: seq<string>, fuel: nat) returns (outcome: Outcome)
      modifies this
      ensures forall m :: m in moduleMap.Values ==> fresh(m)
      ensures outcome.Failed? && outcome.error.Missing? ==> outcome.error.parent == "root"
      ensures outcome.Done? ==> forall j :: 0 <= j < EntryCount(modules) ==> WalkedId(modules[j], []) in moduleMap
      // only an entry that cannot be loaded fails the analysis, with that entry's load error
      ensures outcome.Failed? ==> exists j :: 0 <= j < EntryCount(modules) && EntryFailed(modules[j], outcome.error)
      ensures Registry()
    {
      pluginRefList := map[];
      missingNamesList := [];
      shims := map[];
      moduleMap := map[];
      registered := [];
      var i := 0;
      while i < |modules|
        invariant 0 <= i <= |modules|
        invariant Registry()
        invariant forall j :: 0 <= j < i ==> modules[j] != ""
        invariant forall m :: m in moduleMap.Values ==> fresh(m)
        invariant forall j :: 0 <= j < i ==> WalkedId(modules[j], []) in moduleMap
      {
        if modules[i] == "" {
          break;
        }
        var o := WalkEntry(modules[i], exclude, fuel);
        if o.Failed? {
          assert i < EntryCount(modules) && EntryFailed(modules[i], o.error);
          return o;
        } else if o.Halted? {
          return o;
        }
        i := i + 1;
      }
      assert i == EntryCount(modules);
      outcome := Done;
    }

    /** One entry's turn in `_analyze`: it is walked from an empty path stack, and a failure is its own load error. */
    method WalkEntry(entry: string, exclude: seq<string>, fuel: nat) returns (outcome: Outcome)
      requires Registry()
      modifies this
      ensures Registry()
      ensures old(moduleMap).Keys <= moduleMap.Keys
      ensures forall m :: m in moduleMap.Values ==> m in old(moduleMap.Values) || fresh(m)
      ensures outcome.Done? ==> WalkedId(entry, []) in moduleMap
      ensures outcome.Failed? ==> EntryFailed(entry, outcome.error)
      ensures outcome.Failed? && outcome.error.Missing? ==> outcome.error.parent == "root"
    {
      outcome := Walk(entry, exclude, [], fuel);
    }

    // -------------------------------------------------------------------------
    // Ordering, cycles, wrappers
    // -------------------------------------------------------------------------

    /**
      `_buildDependencyList`: a depth-first post-order over the registered
      dependencies, emitting each location not yet seen once, after the
      locations of its dependencies.  `visited` is the set of records whose
      dependency loop ran: exactly one per newly seen location.
     */
    method BuildDependencyList(mod: Module, list: seq<string>, seen: set<string>)
      returns (list': seq<string>, seen': set<string>, ghost visited: set<Module>)
      requires mod in moduleMap.Values
      requires NoDups(list) && forall x :: x in list ==> x in seen
      ensures seen <= seen' && mod.uri in seen'
      ensures list <= list'
      ensures NoDups(list') && forall x :: x in list' ==> x in seen'
      ensures forall k :: |list| <= k < |list'| ==> list'[k] !in seen
      ensures forall x :: x in seen' && x !in seen ==> x in list'
      ensures mod.uri in seen ==> list' == list && seen' == seen && visited == {}
      ensures mod.uri !in seen ==> |list'| > |list| && list'[|list'| - 1] == mod.uri && mod in visited
      // the records visited are registered, were not seen before, and account for every newly seen location
      ensures forall m :: m in visited ==> m in moduleMap.Values && m.uri !in seen
      ensures seen' == seen + Uris(visited)
      // every registered dependency of a visited record has been seen
      ensures forall m, d :: m in visited && d in m.dependencies && d in moduleMap ==> moduleMap[d].uri in seen'
      // `mod`'s registered dependencies are listed before it, unless seen before the call or sharing its location
      ensures mod.uri !in seen ==>
        forall d :: d in mod.dependencies && d in moduleMap ==>
          moduleMap[d].uri in seen || moduleMap[d].uri == mod.uri || moduleMap[d].uri in list'[|list|..|list'| - 1]
      ensures forall x :: x in seen' && x !in seen ==> x in Uris(moduleMap.Values)
      decreases Uris(moduleMap.Values) - seen, 1
    {
      if mod.uri in seen {
        return list, seen, {};
      }
      list', seen', visited := BuildFromDependencies(mod, list, seen);
      assert mod.uri !in list' by {
        forall k | 0 <= k < |list'| ensures list'[k] != mod.uri {
          if k < |list| {
            assert list'[k] == list[k];
            assert list[k] in list;
          }
        }
      }
      list' := list' + [mod.uri];
    }

    /**
      The loop of `_buildDependencyList` once `mod`'s location is seen: each
      registered dependency is ordered in turn, so each one not seen before
      is listed after `list` and before `mod` is appended.
     */
    method BuildFromDependencies(mod: Module, list: seq<string>, seen: set<string>)
      returns (list': seq<string>, seen': set<string>, ghost visited: set<Module>)
      requires mod in moduleMap.Values && mod.uri !in seen
      requires NoDups(list) && forall x :: x in list ==> x in seen
      ensures seen + {mod.uri} <= seen'
      ensures list <= list'
      ensures NoDups(list') && forall x :: x in list' ==> x in seen'
      ensures forall k :: |list| <= k < |list'| ==> list'[k] !in seen && list'[k] != mod.uri
      ensures forall x :: x in seen' && x !in seen ==> x in list' || x == mod.uri
      ensures mod in visited && seen' == seen + Uris(visited)
      ensures forall m :: m in visited ==> m in moduleMap.Values && m.uri !in seen
      ensures forall m, d :: m in visited && d in m.dependencies && d in moduleMap ==> moduleMap[d].uri in seen'
      ensures forall d :: d in mod.dependencies && d in moduleMap ==>
        moduleMap[d].uri in seen || moduleMap[d].uri == mod.uri || moduleMap[d].uri in list'[|list|..]
      ensures forall x :: x in seen' && x !in seen ==> x in Uris(moduleMap.Values)
      decreases Uris(moduleMap.Values) - seen, 0
    {
      seen' := seen + {mod.uri};
      list' := list;
      visited := {mod};
      var i := 0;
      while i < |mod.dependencies|
        invariant 0 <= i <= |mod.dependencies|
        invariant seen + {mod.uri} <= seen'
        invariant list <= list'
        invariant NoDups(list') && forall x :: x in list' ==> x in seen'
        invariant forall k :: |list| <= k < |list'| ==> list'[k] !in seen && list'[k] != mod.uri
        invariant forall x :: x in seen' && x !in seen ==> x in list' || x == mod.uri
        invariant mod in visited && seen' == seen + Uris(visited)
        invariant forall m :: m in visited ==> m in moduleMap.Values && m.uri !in seen
        invariant forall m, d :: m in visited && m != mod && d in m.dependencies && d in moduleMap ==> moduleMap[d].uri in seen'
        invariant forall d :: d in mod.dependencies[..i] && d in moduleMap ==>
          moduleMap[d].uri in seen || moduleMap[d].uri == mod.uri || moduleMap[d].uri in list'[|list|..]
        invariant forall x :: x in seen' && x !in seen ==> x in Uris(moduleMap.Values)
      {
        assert mod.dependencies[..i + 1] == mod.dependencies[..i] + [mod.dependencies[i]];
        var d := mod.dependencies[i];
        if d in moduleMap {
          var dependency := moduleMap[d];
          assert mod.uri in Uris(moduleMap.Values);
          ghost var before := list';
          ghost var v;
          list', seen', v := BuildDependencyList(dependency, list', seen');
          forall k | |list| <= k < |list'| ensures list'[k] !in seen && list'[k] != mod.uri {
            if k < |before| {
              assert list'[k] == before[k];
            }
          }
          ListedAfter(list, before, list', dependency.uri, seen);
          visited := visited + v;
        }
        i := i + 1;
      }
      assert mod.dependencies[..i] == mod.dependencies;
    }

    /**
      `_scanForCircularDependencies`: a depth-first search along registered
      dependencies, from the active path `check` extended by `mod`.  It goes
      through `mod`'s dependencies in order up to the first one that is not
      registered, skips those already scanned, reports each one already on
      the path as a cycle (the path followed by the repeated id), and
      descends into the others.  Returns the path as it is left and the
      cycles reported.
     */
    method ScanForCircularDependencies(mod: Module, check: seq<string>) returns (after: seq<string>, cycles: seq<seq<string>>)
      requires mod in moduleMap.Values && mod.id !in check
      modifies moduleMap.Values`scanned
      ensures after == check
      ensures mod.scanned
      ensures forall m :: m in moduleMap.Values && old(m.scanned) ==> m.scanned
      // only modules off the path are marked, so an id on it is never skipped as scanned
      ensures forall m :: m in moduleMap.Values && m.scanned && !old(m.scanned) ==> m.id !in check
      // every cycle extends the path through a dependency before the first unregistered one
      ensures CyclesThrough(cycles, check + [mod.id], mod.dependencies, RegisteredPrefix(mod.dependencies, moduleMap))
      // the cycles closed by `mod` itself are exactly its dependencies on the path that were not yet scanned
      ensures DirectCycles(cycles, check + [mod.id], mod.dependencies, RegisteredPrefix(mod.dependencies, moduleMap),
                           set m | m in moduleMap.Values && old(m.scanned))
      decreases set m | m in moduleMap.Values && m.id !in check, 2
    {
      var path := check + [mod.id];
      cycles := ScanDependencies(mod, check, path);
      mod.scanned := true;
      after := path[..|path| - 1];
    }

    /** The loop of `_scanForCircularDependencies` over `mod`'s dependencies, with `path` the active path ending in `mod`. */
    method ScanDependencies(mod: Module, check: seq<string>, path: seq<string>) returns (cycles: seq<seq<string>>)
      requires mod in moduleMap.Values && mod.id !in check && path == check + [mod.id]
      modifies moduleMap.Values`scanned
      ensures forall m :: m in moduleMap.Values && old(m.scanned) ==> m.scanned
      ensures forall m :: m in moduleMap.Values && m.scanned && !old(m.scanned) ==> m.id !in path
      ensures CyclesThrough(cycles, path, mod.dependencies, RegisteredPrefix(mod.dependencies, moduleMap))
      ensures DirectCycles(cycles, path, mod.dependencies, RegisteredPrefix(mod.dependencies, moduleMap),
                           set m | m in moduleMap.Values && old(m.scanned))
      decreases set m | m in moduleMap.Values && m.id !in check, 1
    {
      ghost var before := set m | m in moduleMap.Values && m.scanned;
      cycles := [];
      var i := 0;
      while i < |mod.dependencies|
        invariant 0 <= i <= |mod.dependencies|
        invariant forall j :: 0 <= j < i ==> mod.dependencies[j] in moduleMap
        invariant before == set m | m in moduleMap.Values && old(m.scanned)
        invariant MarksOffPath(before, path)
        invariant CyclesThrough(cycles, path, mod.dependencies, i)
        invariant DirectCycles(cycles, path, mod.dependencies, i, before)
      {
        if mod.dependencies[i] !in moduleMap {
          break;
        }
        cycles := ScanStep(mod, check, path, i, before, cycles);
        i := i + 1;
      }
      assert i == RegisteredPrefix(mod.dependencies, moduleMap);
    }

    /**
      One turn of the scan's loop, for the registered dependency at position
      `i`: skipped when scanned, reported when its id is on the path, and
      otherwise descended into.
     */
    method ScanStep(mod: Module, check: seq<string>, path: seq<string>, i: nat, ghost before: set<Module>, cycles: seq<seq<string>>)
      returns (cycles': seq<seq<string>>)
      requires mod in moduleMap.Values && mod.id !in check && path == check + [mod.id]
      requires i < |mod.dependencies| && mod.dependencies[i] in moduleMap
      requires MarksOffPath(before, path)
      requires CyclesThrough(cycles, path, mod.dependencies, i) && DirectCycles(cycles, path, mod.dependencies, i, before)
      modifies moduleMap.Values`scanned
      ensures MarksOffPath(before, path)
      ensures CyclesThrough(cycles', path, mod.dependencies, i + 1) && DirectCycles(cycles', path, mod.dependencies, i + 1, before)
      decreases set m | m in moduleMap.Values && m.id !in check, 0
    {
      var dep := moduleMap[mod.dependencies[i]];
      assert dep in moduleMap.Values;
      if dep.scanned {
        CycleSkipStep(cycles, path, mod.dependencies, i, before);
        return cycles;
      }
      var found := FindOnPath(path, dep.id);
      if found {
        CycleFoundStep(cycles, path, mod.dependencies, i, before);
        cycles' := cycles + [path + [dep.id]];
      } else {
        ScanShrinks(mod, dep, check, path);
        var _, nested := ScanForCircularDependencies(dep, path);
        CycleNestedStep(cycles, nested, path, mod.dependencies, i, before, dep.dependencies, RegisteredPrefix(dep.dependencies, moduleMap));
        cycles' := cycles + nested;
      }
    }

    /** Every module marked scanned since `before` has an id off the path, and none was unmarked. */
    ghost predicate MarksOffPath(before: set<Module>, path: seq<string>)
      reads moduleMap.Values, this`moduleMap
    {
      (forall m :: m in before && m in moduleMap.Values ==> m.scanned) &&
      (forall m :: m in moduleMap.Values && m.scanned && m !in before ==> m.id !in path)
    }

    /** Every reported cycle extends the path through one of the first `i` dependencies. */
    ghost predicate CyclesThrough(cycles: seq<seq<string>>, path: seq<string>, deps: seq<string>, i: nat)
      reads this`moduleMap
    {
      forall c :: c in cycles ==>
        |c| > |path| && c[..|path|] == path && EndsInRepeat(c) &&
        exists j :: 0 <= j < i && j < |deps| && deps[j] in moduleMap && c[|path|] == moduleMap[deps[j]].id
    }

    /**
      Among the first `i` dependencies, the ones whose id is on the path and
      that were not scanned at the start are exactly those reported as the
      path followed by their id.
     */
    ghost predicate DirectCycles(cycles: seq<seq<string>>, path: seq<string>, deps: seq<string>, i: nat, before: set<Module>)
      reads this`moduleMap
    {
      (forall c :: c in cycles && |c| == |path| + 1 ==>
        exists j :: 0 <= j < i && j < |deps| && deps[j] in moduleMap && c[|path|] == moduleMap[deps[j]].id &&
          moduleMap[deps[j]].id in path && moduleMap[deps[j]] !in before) &&
      (forall j :: (0 <= j < i && j < |deps| && deps[j] in moduleMap &&
                    moduleMap[deps[j]].id in path && moduleMap[deps[j]] !in before) ==>
        path + [moduleMap[deps[j]].id] in cycles)
    }

    lemma CycleFoundStep(cycles: seq<seq<string>>, path: seq<string>, deps: seq<string>, i: nat, before: set<Module>)
      requires i < |deps| && deps[i] in moduleMap && moduleMap[deps[i]].id in path && moduleMap[deps[i]] !in before
      requires CyclesThrough(cycles, path, deps, i) && DirectCycles(cycles, path, deps, i, before)
      ensures CyclesThrough(cycles + [path + [moduleMap[deps[i]].id]], path, deps, i + 1)
      ensures DirectCycles(cycles + [path + [moduleMap[deps[i]].id]], path, deps, i + 1, before)
    {
      var cycle := path + [moduleMap[deps[i]].id];
      assert cycle[..|cycle| - 1] == path && cycle[..|path|] == path;
    }

    lemma CycleNestedStep(cycles: seq<seq<string>>, nested: seq<seq<string>>, path: seq<string>, deps: seq<string>, i: nat,
                          before: set<Module>, nestedDeps: seq<string>, n: nat)
      requires i < |deps| && deps[i] in moduleMap && moduleMap[deps[i]].id !in path
      requires CyclesThrough(cycles, path, deps, i) && DirectCycles(cycles, path, deps, i, before)
      requires CyclesThrough(nested, path + [moduleMap[deps[i]].id], nestedDeps, n)
      ensures CyclesThrough(cycles + nested, path, deps, i + 1)
      ensures DirectCycles(cycles + nested, path, deps, i + 1, before)
    {
      forall c | c in nested ensures c[..|path|] == path && c[|path|] == moduleMap[deps[i]].id {
        assert c[..|path| + 1][..|path|] == c[..|path|];
        assert c[..|path| + 1][|path|] == c[|path|];
      }
    }

    lemma CycleSkipStep(cycles: seq<seq<string>>, path: seq<string>, deps: seq<string>, i: nat, before: set<Module>)
      requires i < |deps| && deps[i] in moduleMap
      requires !(moduleMap[deps[i]].id in path && moduleMap[deps[i]] !in before)
      requires CyclesThrough(cycles, path, deps, i) && DirectCycles(cycles, path, deps, i, before)
      ensures CyclesThrough(cycles, path, deps, i + 1)
      ensures DirectCycles(cycles, path, deps, i + 1, before)
    {
    }

    /** Whether `id` is on the path, found by the inner loop of the scan. */
    method FindOnPath(path: seq<string>, id: string) returns (found: bool)
      ensures found <==> id in path
    {
      found := false;
      var j := 0;
      while j < |path|
        invariant 0 <= j <= |path|
        invariant found <==> id in path[..j]
      {
        assert path[..j + 1] == path[..j] + [path[j]];
        if path[j] == id {
          found := true;
          assert id in path[..j + 1];
          break;
        }
        j := j + 1;
      }
      if !found {
        assert path[..j] == path;
      }
    }

    /** Descending into a dependency off the path narrows the set of modules still to be visited. */
    lemma ScanShrinks(mod: Module, dep: Module, check: seq<string>, path: seq<string>)
      requires mod in moduleMap.Values && dep in moduleMap.Values && mod.id !in check
      requires path == check + [mod.id] && dep.id !in path
      ensures (set m | m in moduleMap.Values && m.id !in path) < (set m | m in moduleMap.Values && m.id !in check)
    {
      ghost var narrower := set m | m in moduleMap.Values && m.id !in path;
      ghost var wider := set m | m in moduleMap.Values && m.id !in check;
      assert path[|check|] == mod.id;
      assert narrower <= wider by {
        assert forall x :: x in check ==> x in path;
      }
      assert mod in wider - narrower;
    }

    /** Position `p` of the registration order holds a module without `define` located at `u`. */
    ghost predicate ShimlessAt(p: int, u: string)
      reads this`moduleMap, this`registered, moduleMap.Values
    {
      0 <= p < |registered| && registered[p] in moduleMap &&
      moduleMap[registered[p]].uri == u && !moduleMap[registered[p]].defineFound
    }

    /**
      The final sweep of `getDependencyList`: going through the records in
      registration order, a module with neither `define` nor a wrapper gets
      one.  Where several such modules share a location, the first one
      registered names the wrapper.
     */
    /** Position `p` is the first in registration order to hold a module without `define` at `u`. */
    ghost predicate FirstShimlessAt(p: int, u: string)
      reads this`moduleMap, this`registered, moduleMap.Values
    {
      ShimlessAt(p, u) && forall q :: 0 <= q < p ==> !ShimlessAt(q, u)
    }

    /** The wrapper at `u` is the bare one named after the first module without `define` registered there, among the first `k`. */
    ghost predicate SweptAt(u: string, k: int)
      reads this`moduleMap, this`registered, this`shims, moduleMap.Values
    {
      u in shims && exists p :: p < k && FirstShimlessAt(p, u) && shims[u] == EmptyShimText(moduleMap[registered[p]].id)
    }

    method AddMissingShims()
      requires Registry()
      modifies this`shims
      ensures forall id :: id in moduleMap && !moduleMap[id].defineFound ==> moduleMap[id].uri in shims
      ensures forall u :: u in old(shims) ==> u in shims && shims[u] == old(shims)[u]
      ensures forall u :: u in shims && u !in old(shims) ==> SweptAt(u, |registered|)
    {
      var k := 0;
      while k < |registered|
        invariant 0 <= k <= |registered|
        invariant forall p :: 0 <= p < k ==> !ShimlessAt(p, moduleMap[registered[p]].uri) || moduleMap[registered[p]].uri in shims
        invariant forall u :: u in old(shims) ==> u in shims && shims[u] == old(shims)[u]
        invariant forall u :: u in shims && u !in old(shims) ==> SweptAt(u, k)
      {
        SweepStep(k);
        k := k + 1;
      }
      forall id | id in moduleMap && !moduleMap[id].defineFound ensures moduleMap[id].uri in shims {
        var p :| 0 <= p < |registered| && registered[p] == id;
        assert ShimlessAt(p, moduleMap[registered[p]].uri);
      }
    }

    /** One step of the sweep: the record at position `k` gets its wrapper if it needs one and its location has none. */
    method SweepStep(k: nat)
      requires Registry() && k < |registered|
      requires forall p :: 0 <= p < k ==> !ShimlessAt(p, moduleMap[registered[p]].uri) || moduleMap[registered[p]].uri in shims
      modifies this`shims
      ensures forall p :: 0 <= p < k + 1 ==> !ShimlessAt(p, moduleMap[registered[p]].uri) || moduleMap[registered[p]].uri in shims
      ensures forall u :: u in old(shims) ==> u in shims && shims[u] == old(shims)[u]
      ensures forall u :: u in shims && u !in old(shims) ==> SweptAt(u, k + 1)
    {
      var mod := moduleMap[registered[k]];
      if !mod.defineFound && mod.uri !in shims {
        assert FirstShimlessAt(k, mod.uri) by {
          forall q | 0 <= q < k ensures !ShimlessAt(q, mod.uri) {
            assert registered[q] in moduleMap;
            var at := moduleMap[registered[q]].uri;
            assert !ShimlessAt(q, at) || at in shims;
          }
        }
        shims := shims[mod.uri := EmptyShimText(mod.id)];
        assert shims[mod.uri] == EmptyShimText(moduleMap[registered[k]].id);
        assert SweptAt(mod.uri, k + 1);
      }
    }

    /**
      `getDependencyList`: analyses the entry modules, then for each entry
      appends its dependencies-first ordering and scans it for cycles, and
      finally gives every module without `define` a wrapper.  An entry whose id
      is not registered makes `_buildDependencyList` dereference undefined.
     */
    method GetDependencyList(modules: seq<string>, exclude: seq<string>, fuel: nat)
      returns (outcome: Outcome, dependencyList: seq<string>, cycles: seq<seq<string>>, ghost visited: set<Module>)
      modifies this
      ensures outcome.Failed? && outcome.error.Missing? ==> outcome.error.parent == "root"
      ensures outcome.Failed? ==> exists j :: 0 <= j < EntryCount(modules) && EntryFailed(modules[j], outcome.error)
      ensures outcome.Done? ==> NoDups(dependencyList)
      ensures outcome.Done? ==> "require" !in dependencyList && "module" !in dependencyList && "exports" !in dependencyList
      ensures outcome.Done? ==> forall j :: 0 <= j < |modules| ==>
        EntryId(modules[j]) in moduleMap &&
        (moduleMap[EntryId(modules[j])].uri in dependencyList || IsSpecial(moduleMap[EntryId(modules[j])].uri))
      ensures outcome.Done? ==>
        forall id :: id in moduleMap && !moduleMap[id].defineFound ==> moduleMap[id].uri in shims
      // the list holds exactly the locations of the records visited, and is closed under their registered dependencies
      ensures outcome.Done? ==> forall m :: m in visited ==> m in moduleMap.Values && (m.uri in dependencyList || IsSpecial(m.uri))
      ensures outcome.Done? ==> forall x :: x in dependencyList ==> x in Uris(visited)
      ensures outcome.Done? ==> forall m, d :: m in visited && d in m.dependencies && d in moduleMap ==>
        moduleMap[d].uri in dependencyList || IsSpecial(moduleMap[d].uri)
    {
      dependencyList := [];
      cycles := [];
      visited := {};
      outcome := Analyze(modules, exclude, fuel);
      if !outcome.Done? {
        return;
      }
      var complete;
      complete, dependencyList, cycles, visited := OrderEntries(modules);
      if !complete {
        return Halted(TypeError), dependencyList, cycles, visited;
      }
      AddMissingShims();
    }

    /**
      One entry's turn in `getDependencyList`, starting from a `seen` table that
      holds the three loader-provided ids: its record's ordering is appended,
      keeping the list free of duplicates and of those ids, with everything
      seen listed or one of them; then its graph is scanned for cycles.
     */
    method OrderEntry(id: string, list: seq<string>, seen: set<string>)
      returns (list': seq<string>, seen': set<string>, cycles: seq<seq<string>>, ghost visited: set<Module>)
      requires id in moduleMap
      requires Tracks(list, seen)
      modifies moduleMap.Values`scanned
      ensures Tracks(list', seen') && moduleMap[id].uri in seen'
      ensures seen <= seen'
      ensures forall c :: c in cycles ==> EndsInRepeat(c)
      ensures forall m :: m in visited ==> m in moduleMap.Values
      ensures seen' == seen + Uris(visited)
      ensures forall m, d :: m in visited && d in m.dependencies && d in moduleMap ==> moduleMap[d].uri in seen'
    {
      var mod := moduleMap[id];
      assert mod in moduleMap.Values;
      list', seen', visited := BuildDependencyList(mod, list, seen);
      forall x | x in list' ensures !IsSpecial(x) {
        var p :| 0 <= p < |list'| && list'[p] == x;
        if p < |list| {
          assert list[p] == x;
        } else {
          assert x !in seen;
        }
      }
      var _, found := ScanForCircularDependencies(mod, []);
      cycles := found;
    }

    /** The first `n` entries are registered in `mm` and their modules' uris are in `seen`. */
    ghost predicate Placed(modules: seq<string>, n: nat, mm: map<string, Module>, seen: set<string>)
      requires n <= |modules|
    {
      forall j :: 0 <= j < n ==> EntryId(modules[j]) in mm && mm[EntryId(modules[j])].uri in seen
    }

    lemma PlacedStep(modules: seq<string>, i: nat, mm: map<string, Module>, seen: set<string>, seen': set<string>)
      requires i < |modules| && Placed(modules, i, mm, seen) && seen <= seen'
      requires EntryId(modules[i]) in mm && mm[EntryId(modules[i])].uri in seen'
      ensures Placed(modules, i + 1, mm, seen')
    {
    }

    lemma PlacedAll(modules: seq<string>, mm: map<string, Module>, list: seq<string>, seen: set<string>)
      requires Placed(modules, |modules|, mm, seen) && Tracks(list, seen)
      ensures forall j :: 0 <= j < |modules| ==> EntryId(modules[j]) in mm
      ensures forall j :: 0 <= j < |modules| ==> mm[EntryId(modules[j])].uri in list || IsSpecial(mm[EntryId(modules[j])].uri)
    {
    }

    /**
      The loop of `getDependencyList` over the entry modules: each entry's
      plugin prefix (if any) is expanded, its record's dependencies-first
      ordering appended to the list, and its dependency graph scanned for
      cycles.  `complete` is false when an entry's id is not registered, where
      the source dereferences undefined.
     */
    method OrderEntries(modules: seq<string>)
      returns (complete: bool, dependencyList: seq<string>, cycles: seq<seq<string>>, ghost visited: set<Module>)
      modifies moduleMap.Values`scanned
      ensures complete <==> forall j :: 0 <= j < |modules| ==> EntryId(modules[j]) in moduleMap
      ensures NoDups(dependencyList)
      ensures "require" !in dependencyList && "module" !in dependencyList && "exports" !in dependencyList
      ensures complete ==> forall j :: 0 <= j < |modules| ==>
        moduleMap[EntryId(modules[j])].uri in dependencyList || IsSpecial(moduleMap[EntryId(modules[j])].uri)
      ensures forall c :: c in cycles ==> EndsInRepeat(c)
      // the list holds the locations of the visited records, which are registered ...
      ensures forall m :: m in visited ==> m in moduleMap.Values
      ensures forall x :: x in dependencyList ==> x in Uris(visited)
      ensures forall m :: m in visited ==> m.uri in dependencyList || IsSpecial(m.uri)
      // ... and the registered dependencies of a visited record are listed too
      ensures forall m, d :: m in visited && d in m.dependencies && d in moduleMap ==>
        moduleMap[d].uri in dependencyList || IsSpecial(moduleMap[d].uri)
    {
      dependencyList := [];
      cycles := [];
      visited := {};
      var seen: set<string> := {"require", "module", "exports"};
      ghost var mm := moduleMap;
      var i := 0;
      while i < |modules|
        invariant 0 <= i <= |modules|
        invariant moduleMap == mm
        invariant Tracks(dependencyList, seen)
        invariant Placed(modules, i, mm, seen)
        invariant forall c :: c in cycles ==> EndsInRepeat(c)
        invariant forall m :: m in visited ==> m in moduleMap.Values
        invariant seen == {"require", "module", "exports"} + Uris(visited)
        invariant forall m, d :: m in visited && d in m.dependencies && d in moduleMap ==> moduleMap[d].uri in seen
      {
        var m := ResolveEntry(modules[i]);
        if m !in moduleMap {
          return false, dependencyList, cycles, visited;
        }
        var found;
        ghost var seen0 := seen;
        ghost var v;
        dependencyList, seen, found, v := OrderEntry(m, dependencyList, seen);
        PlacedStep(modules, i, mm, seen0, seen);
        cycles := cycles + found;
        visited := visited + v;
        i := i + 1;
      }
      complete := true;
      PlacedAll(modules, mm, dependencyList, seen);
    }

    /** The id `getDependencyList` looks up for an entry: its plugin prefix, if any, expanded at top level. */
    method ResolveEntry(entry: string) returns (id: string)
      ensures id == EntryId(entry)
    {
      id := entry;
      if IsPluginId(id) {
        id := id[..IndexOf(id, '!')];
      }
      id := Expand(config, id, []);
    }

    /** `getAnalysisData`: the dependency list with the plugin references, missing names and wrappers. */
    method GetAnalysisData(modules: seq<string>, exclude: seq<string>, fuel: nat) returns (r: Analysis)
      modifies this
      ensures r.Ready? ==> r.data.pluginRefs == pluginRefList && r.data.missingNamesList == missingNamesList && r.data.shims == shims
      ensures r.Ready? ==> NoDups(r.data.dependencyList)
      ensures r.Ready? ==> forall x :: x in r.data.dependencyList ==> x in Uris(moduleMap.Values)
      ensures r.Failure? ==> exists e: LoadError :: r.message == Message(e)
      ensures r.Failure? ==> exists j, e :: 0 <= j < EntryCount(modules) && EntryFailed(modules[j], e) && r.message == Message(e)
    {
      var outcome, dependencyList, _, _ := GetDependencyList(modules, exclude, fuel);
      match outcome
      case Done =>
        r := Ready(AnalysisData(dependencyList, pluginRefList, missingNamesList, shims));
      case Failed(e) =>
        r := Failure(Message(e));
      case Halted(h) =>
        r := Crashed(h);
    }
  }
}
