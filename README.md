# zazl AMD analyser, modelled in Dafny

This project models the dependency analysis at the heart of the zazl
JavaScript optimizer. Given a list of entry module ids, an exclude list and
a loader configuration, the analyser does the following:

- It resolves each AMD module id to a source location (`normalize`, `_expand`,
  `_findMapping`, `_idToUrl`).
- It reads and inspects each module's parse tree for its `define` call and its
  dependency list (`findDefine`, `scanForRequires`, `getDependencies`).
- It walks the dependency graph one subtree after the other. On the way it
  registers module records, plugin references (`plugin!resource`),
  anonymous-`define` name positions and shim wrappers.
- It then orders the registered modules dependencies-first, scans them for
  cycles, and gives every module without a `define` a wrapper.

The model also covers the pieces around the analyser:

- **The analysis cache** (`lib/analyzer.js`): the exclusion union, the key
  text, the staleness test, and the pending/ready state machine of a cache
  entry.
- **The optimizer's response helpers** (`lib/zazloptimizer.js`): the
  missing-name lookup and splice, the shim append, the localisation-name
  insertion and the i18n bundle records.
- **The text plugin's `jsEscape`**.
- **The completion counter `createCallback`**, which joins a batch of
  asynchronous reads.

Files, one module each:

| file | module | what it holds |
|---|---|---|
| collections.dfy | `Collections` | `Option`; JavaScript objects as insertion-ordered association lists (`Lookup`, `Put`); `NoDups`, `Dedup`, `Flatten` |
| segments.dfy | `Segments` | `split('/')` and `join('/')` and their round trips |
| resolver.dfy | `Resolver` | configuration defaults, `normalize`, `countSegments`, `_findMapping`, `_idToUrl`, `_expand` |
| inspector.dfy | `Inspector` | the parse-tree datatype, `findDefine`, `scanForRequires`, `getDependencies`, `isExcluded` |
| module.dfy | `ModuleRecord` | the module record class and `addDependency` |
| walker.dfy | `Walker` | the `Analyzer` class: the walk, shims, plugin references, ordering, the cycle scan, `getDependencyList`, `getAnalysisData` |
| cache.dfy | `Cache` | `getExcludes`, `getKey`, `isStale`, `getTimestamps`, and the cache and its entries |
| bundle.dfy | `Bundle` | the response writer's string helpers and the i18n records |
| textplugin.dfy | `TextPlugin` | `jsEscape`, a decoder for single-quoted literal bodies (section 11.8.4 of ECMA-262, 6th edition), and a corrected escaper |
| callback.dfy | `Completion` | the `createCallback` counter |

How the JavaScript becomes Dafny:

- **Mutable state.** Code that mutates state is imperative Dafny.
  - `Analyzer`, `Module`, the cache and its entries, and the callback closure
    are classes whose fields the methods update.
  - Each loop of the source is a `while` loop, proved against a specification
    function stated next to it (`Normalize` against `NormalizeSpec`, `IdToUrl`
    against `IdToUrlSpec`, `Localizations` against `Records`/`Picked`, and so
    on).
  - The tree searches are recursive functions.
- **Callbacks.** The callback chains of the walk run strictly one after the
  other, so each becomes a method call followed by the code of its
  continuation. A `cb(err)` becomes a returned `Failed` outcome. An exception
  that escapes becomes a `Halted` outcome that every caller passes on.
- **JavaScript objects.** Objects used as dictionaries and iterated with
  `for … in` are association lists in insertion order. JavaScript visits
  integer-like keys (such as "0" or "42") first, in ascending numeric order,
  and only then the other keys in insertion order. The model does not make
  that exception. For a `map` configuration or a package name with such keys,
  the tie-break in `_findMapping` and the order of the package loop in
  `_expand` can differ from the source.

## Model

| member | source | states |
|---|---|---|
| Segments.JoinSplit | lib/amdanalyzer.js:31-46 | joining the pieces of `split('/')` with '/' gives the path back |
| Segments.SplitJoin | lib/amdanalyzer.js:31-46 | splitting the join of separator-free segments gives the segments back |
| Resolver.Configure | lib/amdanalyzer.js:147-179 | `paths`, `baseUrl` and the other options are copied; each package name maps to the last package configured under it, with defaults applied |
| Resolver.PackageDefaults | lib/amdanalyzer.js:157-167 | a stored package is filed under its own name; its `main` is never empty; its `location` is never empty when its name is not |
| Resolver.Normalize | lib/amdanalyzer.js:30-47 | the reverse splice loop computes `NormalizeSpec`: "." segments dropped, each ".." dropping the nearest surviving segment to its left |
| Resolver.NormSegsFrom | lib/amdanalyzer.js:34-45 | every segment `normalize` keeps is a segment of its input |
| Resolver.NormSegsNoDots | lib/amdanalyzer.js:34-45 | no "." or ".." segment survives the loop |
| Resolver.NormSegsIdentity | lib/amdanalyzer.js:34-45 | a segment list without dot segments is kept whole |
| Resolver.ParentCancels | lib/amdanalyzer.js:38-44 | `x/..` cancels: the segments before it normalise as if `x/..` were absent |
| Resolver.SurplusParentsDropped | lib/amdanalyzer.js:38-44 | ".." segments with nothing left to remove vanish silently |
| Resolver.NormalizeNoDots | lib/amdanalyzer.js:30-47 | the output of `normalize` has no "." or ".." segment |
| Resolver.NormalizeKeepsClean | lib/amdanalyzer.js:30-47 | a path without dot segments is returned unchanged |
| Resolver.NormalizeIdempotent | lib/amdanalyzer.js:30-47 | normalising twice is normalising once |
| Resolver.CountSegments | lib/amdanalyzer.js:20-28 | the count is the number of '/' characters of the path |
| Resolver.FindMapping | lib/amdanalyzer.js:182-202 | the loop over the `map` keys and the "*" fallback compute `MappingSpec` |
| Resolver.BestNone | lib/amdanalyzer.js:186-197 | a context mapping is found exactly when some key is a prefix of the context id and has an entry for the path |
| Resolver.BestFromCandidate | lib/amdanalyzer.js:186-197 | a mapping found is the entry of some candidate key, with that key's '/' count |
| Resolver.BestIsDeepest | lib/amdanalyzer.js:186-197 | among candidate keys the one with the most '/' wins, and the earliest key wins a tie |
| Resolver.IdToUrl | lib/amdanalyzer.js:204-230 | the splice loop computes `IdToUrlSpec`: prefix substitution, the `baseUrl` prefix for unrooted paths, normalisation |
| Resolver.SubstituteLongest | lib/amdanalyzer.js:207-223 | the longest segment prefix that is a truthy `paths` key or a package name is the one replaced |
| Resolver.SubstituteNone | lib/amdanalyzer.js:207-223 | with no substitutable prefix the segments stay as they are |
| Resolver.IdToUrlNormalized | lib/amdanalyzer.js:224-229 | every location has no dot segment and is a fixed point of `normalize` |
| Resolver.IdToUrlBase | lib/amdanalyzer.js:224-228 | without substitution, an unrooted id gets `baseUrl` in front before normalisation |
| Resolver.Expand | lib/amdanalyzer.js:232-262 | relative resolution, the package-name loop and the remapping loop compute `ExpandSpec` with the top of the path stack as parent |
| Resolver.RemapLongest | lib/amdanalyzer.js:251-259 | the longest prefix with a truthy mapping is replaced and the search stops there |
| Resolver.RemapNone | lib/amdanalyzer.js:251-261 | with no truthy mapping for any prefix there is no remapping |
| Resolver.ExpandPackageMain | lib/amdanalyzer.js:245-249 | an id naming a package expands to `name/main` |
| Resolver.ResolvedRelativeClean | lib/amdanalyzer.js:234-243 | a relative id is resolved, against the package name or the parent's directory, to an id without dot segments |
| Resolver.ExpandUnmapped | lib/amdanalyzer.js:232-262 | a non-relative id that is no package name and has no truthy mapping is returned unchanged |
| Inspector.FirstDefine | lib/amdanalyzer.js:101-136 | no `define` call is found in a node list exactly when none of its nodes is one |
| Inspector.FirstDefineIsFirst | lib/amdanalyzer.js:101-136 | what is found is the arguments of a `define` call with no `define` call before it |
| Inspector.FirstDefineConcat | lib/amdanalyzer.js:117-132 | searching a concatenation finds the first list's `define` call, else the second's |
| Inspector.FindDefineFirst | lib/amdanalyzer.js:101-136 | `findDefine` returns the first `define` call of the tree in traversal order, a plain `define` or a conditional callee with a `define` branch |
| Inspector.FindDefineNone | lib/amdanalyzer.js:101-136 | nothing is found exactly when the tree has no `define` call; a root `define` call is found itself |
| Inspector.RequiresIn | lib/amdanalyzer.js:49-71 | the scan throws exactly when a `require()` call without arguments occurs |
| Inspector.RequiresInConcat | lib/amdanalyzer.js:49-71 | the scan of a concatenation is the concatenation of the scans |
| Inspector.ScanPreorder | lib/amdanalyzer.js:49-71 | `scanForRequires` collects the literal `require` arguments in traversal order, and throws exactly on an argument-less `require()` |
| Inspector.GetDependencies | lib/amdanalyzer.js:73-99 | the loop over the arguments yields `DepsOf`; it throws exactly when a scanned factory throws; `nameIndex` is the first argument's start when that argument is not a literal |
| Inspector.DepsOfThrows | lib/amdanalyzer.js:87-94 | once one argument's scan throws, the whole call throws |
| Inspector.DepsWithoutScan | lib/amdanalyzer.js:82-95 | without `scanCJSRequires` the dependencies are exactly the array elements, and nothing throws |
| Inspector.DepsWithScan | lib/amdanalyzer.js:87-94 | with `scanCJSRequires` a factory body's `require` literals follow the array elements; without it they are ignored |
| Inspector.TypeNameNotLiteral | lib/amdanalyzer.js:474 | a parser type name is never the lower-case "literal" |
| Inspector.DepTypesNeverLiteral | lib/amdanalyzer.js:474 | no dependency type is "literal", so the `type !== "literal"` test always passes |
| Inspector.IsExcluded | lib/amdanalyzer.js:138-145 | true exactly when the item is in the exclude list |
| ModuleRecord.Module.constructor | lib/module.js:6-11 | a fresh record has the given id and uri, no `define`, no dependencies, and is not yet scanned |
| ModuleRecord.Module.AddDependency | lib/module.js:14-18 | the dependency is appended unless already listed; nothing else changes; the list stays free of duplicates |
| ModuleRecord.AddDepNoDups | lib/module.js:14-18 | an addition keeps the list free of duplicates |
| ModuleRecord.AddDepEffect | lib/module.js:15-17 | a new value is appended and the old order kept; an existing value changes nothing; adding twice is adding once |
| ModuleRecord.AddAllDedup | lib/module.js:14-18 | after any sequence of additions the list holds each added value once, and nothing else |
| ModuleRecord.AddAllFromEmpty | lib/module.js:14-18 | from a fresh record the additions give the first-occurrence deduplication of the added values |
| Walker.EntryCount | lib/amdanalyzer.js:595-601 | `_analyze` walks the entries up to the first empty id |
| Walker.KeptDepsStep | lib/amdanalyzer.js:358-372 | one step of the shim loop: a kept dep is added and quoted; an excluded one changes nothing |
| Walker.EmptyShimIsBareShim | lib/amdanalyzer.js:636-641 | the final sweep's wrapper is the shim wrapper of a shim with no deps, no init and no exports |
| Walker.ShimNamesModule | lib/amdanalyzer.js:353-355 | every wrapper starts with the fixed opening, then the module id, then a closing quote |
| Walker.DepListAllKept | lib/amdanalyzer.js:356-373 | with nothing excluded, every shim dep is recorded, in order |
| Walker.TrailingComma | lib/amdanalyzer.js:363-370 | when the last shim dep is excluded, the kept dep before it keeps its trailing comma |
| Walker.Analyzer.constructor | lib/amdanalyzer.js:147-179 | the configuration with package defaults applied; empty module map, plugin references, missing names and shims |
| Walker.Analyzer.ExcludedDep | lib/amdanalyzer.js:480-484 | excluded exactly when the dependency's rooted location is in the exclude list |
| Walker.Analyzer.KeptAt | lib/amdanalyzer.js:359-363 | a shim dep is kept exactly when its rooted location is not excluded |
| Walker.Analyzer.ProcessPluginRef | lib/amdanalyzer.js:283-324 | a registered plugin's record comes from the plugin; otherwise the resource is expanded and located, with no value and no dependency |
| Walker.Analyzer.OpenPluginRef | lib/amdanalyzer.js:442-448 | the plugin name is the expanded prefix before '!', and it gets a (possibly empty) list; the record is the one for the resource after '!' |
| Walker.Analyzer.HandlePluginRef | lib/amdanalyzer.js:441-471 | the reference's record is appended to its plugin's list; the referring module gains the plugin's dependency exactly when it is non-empty and not excluded, and on completion that dependency has been walked (`PluginWalked`) |
| Walker.Analyzer.WalkPluginDependency | lib/amdanalyzer.js:449-469 | a non-empty, non-excluded plugin dependency is added to the module and, on completion, walked with the reference as the path stack: it is registered or its text is missing or unparsable (`PluginWalked`); otherwise nothing is recorded |
| Walker.Analyzer.WalkDependency | lib/amdanalyzer.js:473-497 | a "literal" type, a loader-provided id or an excluded location changes nothing; otherwise the expanded id is added as an edge and, on completion, walked: it is registered or its text is missing or unparsable, since a nested failure is ignored (`DependencyWalked`) |
| Walker.Analyzer.FindShim | lib/amdanalyzer.js:345-392 | no shim config or entry changes nothing; otherwise the wrapper is stored under the module's uri and the non-excluded shim deps become edges, in order |
| Walker.Analyzer.ShimDepList | lib/amdanalyzer.js:356-373 | the loop quotes and records exactly the kept deps, in order |
| Walker.Analyzer.ProcessShimDependencies | lib/amdanalyzer.js:326-343 | a shim without deps walks nothing; otherwise, on completion, every dep before the first empty one is registered or has a missing or unparsable text (`ShimWalked`) |
| Walker.Analyzer.WalkShimDeps | lib/amdanalyzer.js:328-338 | the loop walks the deps in order up to the first empty one, ignoring failures, and on completion each of them is registered or has a missing or unparsable text |
| Walker.Analyzer.WalkShimDependency | lib/amdanalyzer.js:335-337 | one shim dep's walk: on completion it is registered or has a missing or unparsable text |
| Walker.Analyzer.ShimWalkedStep | lib/amdanalyzer.js:330-337 | shim deps already walked stay walked as more modules are registered |
| Walker.Analyzer.WalkParsed | lib/amdanalyzer.js:521-565 | a parsed module is registered, and its id appended to the registration order, before its `define` dependencies or its shim deps are walked: everything they register comes after it |
| Walker.Analyzer.Register | lib/amdanalyzer.js:525 | the record is filed under its id; a new id joins the end of the registration order, and a known one keeps its place |
| Walker.Analyzer.WalkDependencies | lib/amdanalyzer.js:499-570 | a registered id is not read again; otherwise the module fails exactly when its source is missing or unparsable, with the url and the parent (or "root") named, and when it does not fail its id comes in the registration order before every id its dependencies register |
| Walker.Analyzer.WalkShimmed | lib/amdanalyzer.js:526-534 | a module without `define` that has a shim entry gets its wrapper, and on completion its shim deps before the first empty one are walked (`ShimWalked`) |
| Walker.Analyzer.WalkDefine | lib/amdanalyzer.js:535-565 | the module is marked as having `define`; an anonymous `define` is recorded in the missing names; a dependency value that is not a string throws; on completion the module's edges are those of `DefineEdges`, in order, and every one of them has been walked (`DefineWalked`) |
| Walker.Analyzer.WalkDefineDeps | lib/amdanalyzer.js:542-564 | a value that is not a string throws; on completion the module's new edges are `DefineEdges` of the list, and the target of every edge is registered or has a missing or unparsable text (`DefineWalked`) |
| Walker.Analyzer.WalkListedDependency | lib/amdanalyzer.js:542-562 | one listed dependency adds its `ListedEdges` (for a plugin reference, the plugin's non-excluded dependency and then the expanded plugin name; otherwise the expanded id, unless it is a literal, a loader id or excluded), and on completion walks the target of each (`ListedWalked`) |
| Walker.Analyzer.DefineWalkedStep | lib/amdanalyzer.js:542-562 | dependencies of a `define` already walked stay walked as more modules are registered, and the next one joins them |
| Walker.Analyzer.ListedWalkedGrows | lib/amdanalyzer.js:473-497 | a walked dependency stays walked as more modules are registered |
| Walker.Analyzer.Walk | lib/amdanalyzer.js:572-587 | the three loader-provided ids are registered directly; otherwise the expanded id (the plugin name for a plugin reference) is registered, or it is left unregistered and its text is missing or unparsable |
| Walker.Analyzer.Analyze | lib/amdanalyzer.js:589-612 | starts afresh; when it succeeds, every entry before the first empty id is registered; it fails only on an entry before the first empty id that is left unregistered with a missing or unparsable text, and the error is that entry's load error (a missing entry names "root") |
| Walker.Analyzer.WalkEntry | lib/amdanalyzer.js:603-609 | one entry is walked from an empty path stack; a failure leaves it unregistered with its own load error |
| Walker.Analyzer.BuildDependencyList | lib/amdanalyzer.js:394-405 | an already-seen uri adds nothing; otherwise the module's uri is appended last, after the uris of its registered dependencies that were not seen before the call; only uris of registered records are added, one per record whose dependencies were visited, and every registered dependency of a visited record has been seen |
| Walker.Analyzer.BuildFromDependencies | lib/amdanalyzer.js:397-402 | the loop over one module's dependencies: each registered dependency not seen before is listed after the incoming list, and every registered dependency of a visited record is seen |
| Walker.Analyzer.ScanForCircularDependencies | lib/amdanalyzer.js:407-439 | the path is left as it was found, and only modules off the path are marked scanned; every cycle extends the path through a dependency before the first unregistered one; the cycles the module closes itself are exactly its dependencies on the path that were not yet scanned |
| Walker.Analyzer.ScanDependencies | lib/amdanalyzer.js:409-436 | the loop over the dependencies up to the first unregistered one: it reports exactly the unscanned dependencies on the path, and every other cycle runs through one of them |
| Walker.Analyzer.ScanStep | lib/amdanalyzer.js:410-435 | one dependency's turn: a scanned one is skipped, one on the path is reported, and any other is descended into |
| Walker.Analyzer.FindOnPath | lib/amdanalyzer.js:417-425 | the inner loop finds the id exactly when it is on the path |
| Walker.Analyzer.SweepStep | lib/amdanalyzer.js:634-642 | one record's turn in the sweep: a wrapper is added only for a module without `define` whose location has none, and it names the first such module registered there |
| Walker.Analyzer.AddMissingShims | lib/amdanalyzer.js:632-643 | every module without `define` gets a wrapper; existing wrappers are kept; each new one is the bare wrapper of the first module without `define` registered at its location |
| Walker.Analyzer.OrderEntry | lib/amdanalyzer.js:622-630 | one entry's ordering is appended without duplicates or loader-provided ids, and its cycles end in a repeated id |
| Walker.Analyzer.PlacedAll | lib/amdanalyzer.js:619-631 | once all entries are placed, each entry's uri is in the list or is a loader-provided id |
| Walker.Analyzer.OrderEntries | lib/amdanalyzer.js:619-631 | completes exactly when every entry id is registered; the list has no duplicates and no loader-provided id, holds every entry's uri, consists exactly of the uris of the registered records visited, and holds the uri of every registered dependency of a visited record (or it is a loader-provided id) |
| Walker.Analyzer.ResolveEntry | lib/amdanalyzer.js:623-627 | an entry's plugin prefix, if any, expanded at top level |
| Walker.Analyzer.GetDependencyList | lib/amdanalyzer.js:614-647 | on success the list has no duplicates and no loader-provided id, holds every entry, is exactly the uris of the registered records visited and is closed under their registered dependencies, and every module without `define` has a wrapper; a failure is the load error of an entry that could not be loaded |
| Walker.Analyzer.GetAnalysisData | lib/amdanalyzer.js:649-657 | a success carries the analyser's plugin references, missing names and wrappers with a duplicate-free list of registered records' uris; a failure carries the load-error message of an entry before the first empty id that could not be loaded |
| Cache.CacheEntry.constructor | lib/analyzer.js:153 | a new entry is pending, with no data and no timestamps |
| Cache.Lists | lib/analyzer.js:26-27 | the named entries' dependency lists; none when a key has no entry or no data (the source's TypeError) |
| Cache.ExcludesUnion | lib/analyzer.js:21-37 | the excludes have no duplicates and hold exactly the ids of the named analyses' dependency lists |
| Cache.AppendUnseen | lib/analyzer.js:28-34 | the inner loop appends the ids not yet seen, keeping the first-occurrence deduplication |
| Cache.AnalysisCache.GetExcludes | lib/analyzer.js:21-37 | the loops compute `Excludes` over the cache's dependency lists; none where the source throws |
| Cache.KeyKeepsOrder | lib/analyzer.js:94-96 | the same modules in another order give another key |
| Cache.KeyJoinsIds | lib/analyzer.js:94-102 | ids are joined without a separator, so `["ab"]` and `["a", "b"]` share a key |
| Cache.TailDeterminesParts | lib/analyzer.js:100-107 | without ':' in the excludes, the key's tail determines the excludes and whether and which configuration was given |
| Cache.KeyDeterminesParts | lib/analyzer.js:89-109 | without ':' in the ids, equal key texts have equal joined modules, excludes and configuration |
| Cache.AnalysisCache.GetKey | lib/analyzer.js:89-109 | the key text is "keyValues:", the modules in request order, "excludeValue:", the excludes, then "configValue:" and the JSON when a configuration is given; none where `getExcludes` throws |
| Cache.IsStale | lib/analyzer.js:54-71 | answers only for a non-empty list; stale exactly when some dependency's file exists and its timestamp is not the recorded one |
| Cache.GetTimestamps | lib/analyzer.js:73-87 | answers only for a non-empty list; one timestamp per dependency, its current one |
| Cache.ChecksumJoin | lib/analyzer.js:39-52 | the checksum is delivered only for a non-empty list |
| Cache.AnalysisCache.constructor | lib/analyzer.js:11 | the cache starts empty |
| Cache.AnalysisCache.GetAnalysisDataFromKey | lib/analyzer.js:159-162 | the entry's data; none for an unknown key |
| Cache.AnalysisCache.Poll | lib/analyzer.js:132-141 | a waiter gets data exactly when the entry is ready, and it is the data stored for that key |
| Cache.AnalysisCache.DoAnalysis | lib/analyzer.js:117-130 | on delivery the entry is ready, holding data keyed by the request, its checksum and current timestamps; otherwise the entry is untouched |
| Cache.AnalysisCache.Revisit | lib/analyzer.js:132-151 | a pending entry makes the request wait; a fresh ready entry is delivered as it is; a stale one is reset to pending and re-analysed |
| Cache.AnalysisCache.Admit | lib/analyzer.js:152-155 | a new key gets a pending entry, filed before analysis starts, and nothing else changes |
| Cache.AnalysisCache.GetAnalysisData | lib/analyzer.js:113-157 | a throwing key changes nothing; otherwise only the key's entry may change, with the wait, reuse, re-analysis and new-entry transitions above |
| Completion.Counter.constructor | lib/util.js:6-7 | the closure captures the limit with a count of zero |
| Completion.Counter.Call | lib/util.js:8-12 | each call adds one to the count and runs `fn` exactly when the count then equals the limit |
| Completion.Counter.CallTimes | lib/util.js:8-12 | `n` calls add `n` to the count and run `fn` as often as the limit is among the counts reached |
| Completion.FiresOnce | lib/util.js:9-11 | from a fresh closure, `fn` runs once in `n` calls when `1 <= limit <= n`, and never otherwise |
| Completion.NoFiringPastLimit | lib/util.js:9 | calls past the limit never run `fn` |
| Completion.FiredBy | lib/util.js:9-11 | `fn` has run after `n` calls exactly when `1 <= limit <= n` |
| Bundle.FirstMissing | lib/zazloptimizer.js:70-79 | the first entry for the uri, none exactly when there is no entry for it |
| Bundle.LookForMissingName | lib/zazloptimizer.js:70-79 | the name position of the first entry for the uri, or -1 exactly when there is none |
| Bundle.GetMissingNameId | lib/zazloptimizer.js:81-90 | the id of the first entry for the uri, or null exactly when there is none |
| Bundle.MissingNameLookupsAgree | lib/zazloptimizer.js:70-90 | both lookups select the same, first, entry |
| Bundle.InsertNameRoundTrip | lib/zazloptimizer.js:252-259 | the quoted id sits at the splice position, and cutting it out restores the content |
| Bundle.DependencyContent | lib/zazloptimizer.js:251-262 | the content with the id spliced in at the first entry's position when there is one, then the module's wrapper appended |
| Bundle.FirstIndex | lib/zazloptimizer.js:93 | `indexOf`: the first position of the character, or -1 exactly when it is absent |
| Bundle.LastIndex | lib/zazloptimizer.js:212-214 | `lastIndexOf`: a position of the character, or -1 |
| Bundle.LastIndexBeforeIsLast | lib/zazloptimizer.js:212-214 | no occurrence of the character lies after the position found |
| Bundle.LocalizationPlacement | lib/zazloptimizer.js:92-100 | the quoted name follows the first '(' (or opens the text when there is none), the content keeps its order, and a newline ends it |
| Bundle.DirBase | lib/zazloptimizer.js:212-214 | directory, '/', and name give back the text; the name has no '/' |
| Bundle.Record | lib/zazloptimizer.js:208-220 | a record's bundle package is the reference's normalised name; none when the name or url is undefined |
| Bundle.RecordSplit | lib/zazloptimizer.js:212-214 | a record's `modpath` and `bundlename` put back together give its bundle package |
| Bundle.RecordsSpec | lib/zazloptimizer.js:207-223 | the records are present exactly when every reference has one, and then they are those records, in order |
| Bundle.PickedStep | lib/zazloptimizer.js:210-211 | a reference is picked exactly when its name is neither seen before nor carried by an earlier reference |
| Bundle.PickedUnrecorded | lib/zazloptimizer.js:212-213 | a picked reference without a name or url makes the loop throw |
| Bundle.Localizations | lib/zazloptimizer.js:207-223 | the i18n loop yields the records of the picked references, in order; none where it throws |
| Bundle.PickedNew | lib/zazloptimizer.js:210-211 | a picked bundle is never one an excluded analysis already references |
| Bundle.PickedDistinct | lib/zazloptimizer.js:210-211 | no bundle is recorded twice |
| Bundle.PickedCovers | lib/zazloptimizer.js:207-223 | every referenced bundle that is not already seen is recorded |
| Bundle.ExcludedNamesMember | lib/zazloptimizer.js:181-190 | a name is seen exactly when some excluded analysis has an i18n reference carrying it |
| Bundle.Present | lib/zazloptimizer.js:181-183 | the excluded analyses; none when an exclude key has no analysis data |
| Bundle.ExcludedBundles | lib/zazloptimizer.js:178-191 | the loop collects exactly the excluded i18n names; none where it throws |
| Bundle.BundleLocalizations | lib/zazloptimizer.js:178-225 | no records without an i18n plugin id; otherwise the records of the i18n references not excluded, or none where the source throws |
| TextPlugin.EscapeChar | lib/optimizer/amd/plugins/dojo/text.js:8-13 | each of the seven rewritten characters becomes a backslash and one character; every other character passes through |
| TextPlugin.JsEscapeAppend | lib/optimizer/amd/plugins/dojo/text.js:8-13 | escaping distributes over concatenation |
| TextPlugin.JsEscapeChar | lib/optimizer/amd/plugins/dojo/text.js:8-13 | on one character the chain gives that character's escape: no later pass rewrites what an earlier one wrote |
| TextPlugin.JsEscapeIsPerChar | lib/optimizer/amd/plugins/dojo/text.js:7-14 | the six passes escape every character independently |
| TextPlugin.JsEscapeLength | lib/optimizer/amd/plugins/dojo/text.js:8-13 | the output is the input's length plus one per rewritten character |
| TextPlugin.JsEscapePlain | lib/optimizer/amd/plugins/dojo/text.js:7-14 | the text comes back unchanged exactly when it has none of the seven rewritten characters |
| TextPlugin.JsEscapeNoRawControl | lib/optimizer/amd/plugins/dojo/text.js:9-13 | no raw newline, carriage return, tab, form feed or backspace survives |
| TextPlugin.JsEscapeRoundTrip | lib/optimizer/amd/plugins/dojo/text.js:7-14 | decoding the output as a literal body gives the input, for text without U+2028 or U+2029 |
| TextPlugin.LineSeparatorBreaksLiteral | lib/optimizer/amd/plugins/dojo/text.js:7-14 | U+2028 passes through raw, and the output is then no literal body |
| TextPlugin.SafeJsEscapeAgrees | lib/optimizer/amd/plugins/dojo/text.js:7-14 | the corrected escaper writes the same text wherever the original's output is a literal body |
| TextPlugin.SafeJsEscapeRoundTrip | lib/optimizer/amd/plugins/dojo/text.js:7-14 | the corrected escaper's output decodes back to its input for every text |

## Left out

- The walk is bounded by a `fuel` parameter, the depth of nested walks. Running out is a `Halted(OutOfFuel)` outcome that callers pass on. A source whose cyclic plugin references recurse without end is not modelled beyond that bound.
- `cfg.map` and `cfg.plugins` are always present in the model's configuration. The source throws a TypeError when `_findMapping` runs without `map`, or when a plugin id is met without `plugins`.
- Registered plugins are not modelled. Their `require` of a proxy module, `write` and `normalize` are foreign code, so a registered plugin's record comes from the `pluginOracle` parameter. The stall when a plugin's `write` never calls back is not modelled, and neither is the exception that `_processPluginRef` logs.
- Parsing with esprima is not modelled: a module's parse tree, or its parse diagnostic, is an input (the `sources` table). `Node` keeps only the node kinds the searches distinguish.
- The file system behind `resourceloader` is not modelled. Source text and parse trees are the `sources` table, and timestamps are the `now` parameter. An empty file has no entry in the table, since `!src` treats it as a missing one.
- MD5 hashing and `JSON.stringify` are not modelled. Keys are the text before hashing, and the configuration's JSON is the `configJson` parameter.
- The content checksum of `createChecksum` is the `checksumOf` parameter. Its concatenation order follows the order in which reads complete; only its completion join is modelled (`Cache.ChecksumJoin`).
- The `process.nextTick` polling loop is one poll (`Cache.AnalysisCache.Poll`), and concurrent requests are not interleaved. `Cache.AnalysisCache.GetAnalysisData` runs each request to completion before the next one starts.
- `console.log` diagnostics are not modelled. Cycles are returned as a list of paths instead of being printed.
- The `./map` module is not part of this model. The module map is a Dafny `map` from id to record. Next to it, `registered` lists the ids in the order they were first added, and `moduleMap.values()` is visited in that order. Adding an id again is assumed to keep its place.
- Some parts of the response writer are not modelled: the HTTP handling, gzip, the UglifyJS `compress` step and its timestamp cache, `getBestFitLocale` (floating-point q-factors), the I/O of `writeLocalizations`, and the writing of plugin-reference values.
- The asynchronous file read of the text plugin's `write` is not modelled; only its `jsEscape` is.
- Strings are sequences of Dafny characters. JavaScript strings are UTF-16 code units, and characters outside the Basic Multilingual Plane are not modelled.
- `Bundle.Localization`: the record keeps the bundle package and its url. `modpath`, `bundlename` and `moduleurl` are member functions derived from these, not stored fields.
- `Walker.Analyzer.Walk`: it does not state which edges the nested modules get; that is left to the methods it calls.
- `Walker.Analyzer.ProcessShimDependencies`: the order in which the shim deps are walked is not stated. Its contract says that each dep before the first empty one ends up registered, or has a missing or unparsable text.
- `Walker.Analyzer.BuildDependencyList`: the dependencies-first order is stated for each call: a module's uri comes after the uris of its registered dependencies that were not seen before the call. It is not stated as one ordering over the whole list, because in a cycle a dependency still on the active path is listed after its dependent.
- `Walker.Analyzer.GetAnalysisData`: it states only that the list holds uris of registered records. The list's closure under registered dependencies is stated on `Walker.Analyzer.GetDependencyList`, over the set of records visited.
- `Resolver.IdToUrl`, `Resolver.Expand`, `Resolver.FindMapping` and `Bundle.Localizations`: ids and paths that name an inherited `Object.prototype` member (such as "constructor", "toString", "hasOwnProperty" or "__proto__") are not modelled. The source looks them up in plain objects, so such a name finds the inherited member. The model's tables are Dafny maps, in which such a name is simply absent. Where the two differ:
  - `_idToUrl` (lib/amdanalyzer.js:210-211) finds a truthy function in `paths` for "toString" and splices its text into the url. The model keeps the id under `baseUrl`.
  - `_expand` (lib/amdanalyzer.js:237) finds `Object` in `pkgs` for a parent "constructor", so "./x" in that module becomes "Object/x". The model gives "x".
  - `_findMapping` (lib/amdanalyzer.js:191, 198) finds a function as the mapping for such a path. The model finds none.
  - `writeLocalizations` never picks an i18n bundle named "constructor", because `seen[bundlePackage]` (lib/zazloptimizer.js:210) is already truthy. The model picks it.
  - The same holds for the other plain-object lookups: `plugins` (lib/amdanalyzer.js:288), `shim` (lib/amdanalyzer.js:348), `seen` in `_buildDependencyList` (lib/amdanalyzer.js:395) and `pluginRefList` (lib/amdanalyzer.js:445).
- `Resolver.Configure` and `Walker.Analyzer.constructor`: the write-back of `location` and `main` into the caller's package objects (lib/amdanalyzer.js:160-165) is not modelled, because the raw configuration is an immutable value here. In the source, the request's configuration is a shallow copy of `config.amdconfig` (lib/zazloptimizer.js:288-291), so its package objects are shared and the first analysis changes them. The next `JSON.stringify(config)` in `getKey` (lib/analyzer.js:106) then gives different text. An identical request that follows therefore misses the cache once and files a second entry. The model takes the configuration's JSON as the `configJson` parameter and does not capture that change.
- The model keeps these behaviours of the code:
  - Cache keys keep the modules in request order, not sorted.
  - Excluded dependencies are not recorded as edges.
  - Only an entry module's load or parse failure aborts the analysis; a nested failure is ignored.
  - A failed analysis is not cleared from the cache. `createChecksum` throws a TypeError inside an asynchronous file-read callback, and the walk's `Halted(TypeError)` cases are thrown the same way. No `uncaughtException` handler is installed in the files modelled, so under default Node the exception is uncaught and the process exits. `Abandoned` describes the cache only if the process survives: the entry then stays pending and the callback is never called.

## Findings

| source | as written | input that shows it | evidently intended | confidence | as-written member | corrected member |
|---|---|---|---|---|---|---|
| lib/optimizer/amd/plugins/dojo/text.js:7-14 | `jsEscape` leaves U+2028 and U+2029 raw, and both are line terminators inside a single-quoted literal under ECMA-262 6th edition | a resource whose text is the single character U+2028 | the escaped text is a valid literal body for every resource, with the two separators written as `\u2028` and `\u2029` | not executed | TextPlugin.LineSeparatorBreaksLiteral | TextPlugin.SafeJsEscapeRoundTrip |
