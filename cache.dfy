/**
  The analysis cache in front of the analyser: requests are keyed by their
  module list, the dependency lists of the analyses they exclude and the
  configuration; an entry is pending (state 0) until its analysis, checksum and
  timestamps are stored, then ready (state 1) until a dependency's timestamp
  changes.

  The file system appears as two parameters: `now`, the timestamp a
  dependency's file has at the time of a request (-1 when it is gone), and the
  checksum of a dependency list's sources.
 */
module Cache {
  import opened Collections
  import opened Resolver
  import opened Walker
  import opened Completion

  /** An entry's analysis: the analyser's data tagged with the request key and the checksum of its sources. */
  datatype CachedData = CachedData(analysis: AnalysisData, key: string, checksum: string)

  /** `{state, analysisData, timestamps}`: one cache entry, updated in place. */
  class CacheEntry {
    /** 0 while an analysis is pending, 1 once one is stored. */
    var state: nat
    var analysisData: Option<CachedData>
    var timestamps: map<string, int>

    constructor ()
      ensures state == 0 && analysisData.None? && timestamps == map[]
    {
      state := 0;
      analysisData := None;
      timestamps := map[];
    }
  }

  /** What a request's callback sees. */
  datatype Response =
    | Delivered(data: CachedData)
      /** the entry was pending: the caller polls until it is ready */
    | Waiting
      /** an exception escaped from an asynchronous step, or a join never completed: the callback is never called */
    | Abandoned
      /** `getKey` threw before any entry was touched */
    | Thrown

  // ---------------------------------------------------------------------
  // Excludes and keys

  /** The dependency lists of the analyses `keys` name, in order; None when one has no entry or no data. */
  function Lists(table: map<string, Option<seq<string>>>, keys: seq<string>): (r: Option<seq<seq<string>>>)
    ensures r.None? <==> exists i :: 0 <= i < |keys| && (keys[i] !in table || table[keys[i]].None?)
    ensures r.Some? ==> |r.value| == |keys| && forall i :: 0 <= i < |keys| ==> table[keys[i]] == Some(r.value[i])
    decreases |keys|
  {
    if |keys| == 0 then Some([])
    else
      var init := Lists(table, keys[..|keys| - 1]);
      var k := keys[|keys| - 1];
      assert forall i :: 0 <= i < |keys| - 1 ==> keys[..|keys| - 1][i] == keys[i];
      if init.None? || k !in table || table[k].None? then None
      else Some(init.value + [table[k].value])
  }

  /** `getExcludes`: the union of the named analyses' dependency lists, each id once, in first-occurrence order. */
  function Excludes(table: map<string, Option<seq<string>>>, keys: seq<string>): Option<seq<string>> {
    var lists := Lists(table, keys);
    if lists.None? then None else Some(Dedup(Flatten(lists.value)))
  }

  /** The excludes hold no id twice, and exactly the ids of the named analyses' dependency lists. */
  lemma ExcludesUnion(table: map<string, Option<seq<string>>>, keys: seq<string>)
    requires Excludes(table, keys).Some?
    ensures NoDups(Excludes(table, keys).value)
    ensures forall x :: x in Excludes(table, keys).value <==>
      exists i :: 0 <= i < |keys| && x in table[keys[i]].value
  {
    var lists := Lists(table, keys).value;
    forall x ensures x in Excludes(table, keys).value <==> exists i :: 0 <= i < |keys| && x in table[keys[i]].value {
      if x in Excludes(table, keys).value {
        var i :| 0 <= i < |lists| && x in lists[i];
        assert table[keys[i]] == Some(lists[i]);
      }
      if exists i :: 0 <= i < |keys| && x in table[keys[i]].value {
        var i :| 0 <= i < |keys| && x in table[keys[i]].value;
        assert table[keys[i]] == Some(lists[i]);
      }
    }
  }

  /** Concatenation of strings, in order. */
  function Concat(ss: seq<string>): string
    decreases |ss|
  {
    if |ss| == 0 then "" else Concat(ss[..|ss| - 1]) + ss[|ss| - 1]
  }

  /** The text `getKey` hashes: the modules in request order, then the excludes, then the configuration's JSON if there is one. */
  function KeyText(modules: seq<string>, excludes: seq<string>, configJson: Option<string>): string {
    "keyValues:" + Concat(modules) + "excludeValue:" + Concat(excludes) + ConfigText(configJson)
  }

  /** The module list is not sorted: the same modules in another order make another key. */
  lemma KeyKeepsOrder()
    ensures KeyText(["a", "b"], [], None) != KeyText(["b", "a"], [], None)
  {
    assert Concat(["a", "b"]) == "ab" by {
      assert ["a", "b"][..1] == ["a"];
      assert Concat(["a"]) == "a" by { assert ["a"][..0] == []; }
    }
    assert Concat(["b", "a"]) == "ba" by {
      assert ["b", "a"][..1] == ["b"];
      assert Concat(["b"]) == "b" by { assert ["b"][..0] == []; }
    }
    assert KeyText(["a", "b"], [], None)[10] == 'a';
  }

  /** Ids are joined without a separator: ["ab"] and ["a", "b"] share a key. */
  lemma KeyJoinsIds()
    ensures KeyText(["ab"], [], None) == KeyText(["a", "b"], [], None)
  {
    assert ["a", "b"][..1] == ["a"];
    assert ["a"][..0] == [] && ["ab"][..0] == [];
  }

  /** The text a configuration adds to the key. */
  function ConfigText(configJson: Option<string>): string {
    if configJson.Some? then "configValue:" + configJson.value else ""
  }

  lemma ColonFirst(x: string, p: string, y: string, q: string)
    requires ':' !in x && ':' !in y
    requires x + ":" + p == y + ":" + q
    ensures |x| == |y|
  {
    var s, t := x + ":" + p, y + ":" + q;
    assert s[|x|] == ':' && t[|y|] == ':';
    assert forall i :: 0 <= i < |x| ==> s[i] == x[i];
    assert forall i :: 0 <= i < |y| ==> t[i] == y[i];
  }

  lemma SplitAtColon(x: string, p: string, y: string, q: string)
    requires ':' !in x && ':' !in y
    requires x + ":" + p == y + ":" + q
    ensures x == y && p == q
  {
    ColonFirst(x, p, y, q);
    var s := x + ":" + p;
    assert x == s[..|x|] && y == (y + ":" + q)[..|y|];
    assert p == s[|x| + 1..] && q == (y + ":" + q)[|y| + 1..];
  }

  lemma StripPrefix(t: string, a: string, b: string)
    requires t + a == t + b
    ensures a == b
  {
    assert a == (t + a)[|t|..] && b == (t + b)[|t|..];
  }

  lemma StripSuffix(a: string, b: string, t: string)
    requires a + t == b + t
    ensures a == b
  {
    assert a == (a + t)[..|a|] && b == (b + t)[..|b|];
  }

  lemma KeyShape(modules: seq<string>, excludes: seq<string>, configJson: Option<string>)
    ensures KeyText(modules, excludes, configJson) ==
      "keyValues:" + ((Concat(modules) + "excludeValue") + ":" + (Concat(excludes) + ConfigText(configJson)))
  {
    assert "excludeValue:" == "excludeValue" + ":";
  }

  /** Without a ':' in the excludes, the tail of the key determines the excludes and the configuration. */
  lemma TailDeterminesParts(e1: string, c1: Option<string>, e2: string, c2: Option<string>)
    requires ':' !in e1 && ':' !in e2
    requires e1 + ConfigText(c1) == e2 + ConfigText(c2)
    ensures e1 == e2 && c1 == c2
  {
    assert "configValue:" == "configValue" + ":";
    ColonInConfig(e1, c1);
    ColonInConfig(e2, c2);
    if c1.Some? && c2.Some? {
      assert e1 + ConfigText(c1) == (e1 + "configValue") + ":" + c1.value;
      assert e2 + ConfigText(c2) == (e2 + "configValue") + ":" + c2.value;
      assert ':' !in "configValue";
      SplitAtColon(e1 + "configValue", c1.value, e2 + "configValue", c2.value);
      StripSuffix(e1, e2, "configValue");
    } else if c1.Some? || c2.Some? {
      assert false;
    }
  }

  lemma ColonInConfig(e: string, c: Option<string>)
    ensures c.Some? ==> (e + ConfigText(c))[|e| + 11] == ':'
    ensures c.None? ==> e + ConfigText(c) == e
  {
  }

  /**
    When no id holds a ':', the key text determines the joined module ids, the
    joined excludes and the configuration: requests that differ in any of these
    get different keys.
   */
  lemma KeyDeterminesParts(m1: seq<string>, e1: seq<string>, c1: Option<string>, m2: seq<string>, e2: seq<string>, c2: Option<string>)
    requires ':' !in Concat(m1) && ':' !in Concat(m2) && ':' !in Concat(e1) && ':' !in Concat(e2)
    requires KeyText(m1, e1, c1) == KeyText(m2, e2, c2)
    ensures Concat(m1) == Concat(m2) && Concat(e1) == Concat(e2) && c1 == c2
  {
    KeyShape(m1, e1, c1);
    KeyShape(m2, e2, c2);
    var x1, x2 := Concat(m1) + "excludeValue", Concat(m2) + "excludeValue";
    var t1, t2 := Concat(e1) + ConfigText(c1), Concat(e2) + ConfigText(c2);
    StripPrefix("keyValues:", x1 + ":" + t1, x2 + ":" + t2);
    assert ':' !in "excludeValue";
    assert ':' !in x1 && ':' !in x2;
    SplitAtColon(x1, t1, x2, t2);
    StripSuffix(Concat(m1), Concat(m2), "excludeValue");
    TailDeterminesParts(Concat(e1), c1, Concat(e2), c2);
  }

  // ---------------------------------------------------------------------
  // Staleness

  /** Some dependency's file still exists and its timestamp is not the recorded one. */
  predicate Stale(dependencyList: seq<string>, timestamps: map<string, int>, now: string -> int) {
    exists i :: 0 <= i < |dependencyList| && Changed(dependencyList[i], timestamps, now)
  }

  /** The file exists and its timestamp differs from the recorded one, or none was recorded. */
  predicate Changed(dependency: string, timestamps: map<string, int>, now: string -> int) {
    now(dependency) != -1 && (dependency !in timestamps || timestamps[dependency] != now(dependency))
  }

  /**
    `isStale`: one timestamp read per dependency, joined by a callback counter.
    The answer is delivered only when the list is not empty.
   */
  method IsStale(dependencyList: seq<string>, timestamps: map<string, int>, now: string -> int)
    returns (delivered: bool, stale: bool)
    ensures delivered <==> |dependencyList| > 0
    ensures delivered ==> (stale <==> Stale(dependencyList, timestamps, now))
  {
    var flag := false;
    delivered, stale := false, false;
    var callback := new Counter(|dependencyList|);
    var i := 0;
    while i < |dependencyList|
      invariant 0 <= i <= |dependencyList|
      invariant callback.limit == |dependencyList| && callback.complete == i
      invariant delivered <==> 1 <= |dependencyList| <= i
      invariant flag <==> exists j :: 0 <= j < i && Changed(dependencyList[j], timestamps, now)
      invariant delivered ==> stale == flag
    {
      var dependency := dependencyList[i];
      var ts := now(dependency);
      if ts != -1 && (dependency !in timestamps || ts != timestamps[dependency]) {
        flag := true;
      }
      var fired := callback.Call();
      if fired {
        delivered, stale := true, flag;
      }
      i := i + 1;
    }
  }

  /** `getTimestamps`: each dependency's current timestamp, delivered only when the list is not empty. */
  method GetTimestamps(dependencyList: seq<string>, now: string -> int) returns (delivered: bool, timestamps: map<string, int>)
    ensures delivered <==> |dependencyList| > 0
    ensures timestamps.Keys == set d | d in dependencyList
    ensures forall d :: d in timestamps ==> timestamps[d] == now(d)
  {
    timestamps := map[];
    delivered := false;
    var callback := new Counter(|dependencyList|);
    var i := 0;
    while i < |dependencyList|
      invariant 0 <= i <= |dependencyList|
      invariant callback.limit == |dependencyList| && callback.complete == i
      invariant delivered <==> 1 <= |dependencyList| <= i
      invariant timestamps.Keys == set d | d in dependencyList[..i]
      invariant forall d :: d in timestamps ==> timestamps[d] == now(d)
    {
      var dependency := dependencyList[i];
      timestamps := timestamps[dependency := now(dependency)];
      assert dependencyList[..i + 1] == dependencyList[..i] + [dependency];
      var fired := callback.Call();
      if fired {
        delivered := true;
      }
      i := i + 1;
    }
    assert dependencyList[..i] == dependencyList;
  }

  /** The join of `createChecksum`: one read per dependency; the checksum is delivered only when the list is not empty. */
  method ChecksumJoin(dependencyList: seq<string>) returns (delivered: bool)
    ensures delivered <==> |dependencyList| > 0
  {
    delivered := false;
    var callback := new Counter(|dependencyList|);
    var i := 0;
    while i < |dependencyList|
      invariant 0 <= i <= |dependencyList|
      invariant callback.limit == |dependencyList| && callback.complete == i
      invariant delivered <==> 1 <= |dependencyList| <= i
    {
      var fired := callback.Call();
      if fired {
        delivered := true;
      }
      i := i + 1;
    }
  }

  // ---------------------------------------------------------------------
  // The cache

  /** The module-level `cache` object and the inputs an analysis reads. */
  class AnalysisCache {
    var entries: map<string, CacheEntry>
    const sources: map<string, Source>
    const pluginOracle: (string, string, seq<string>) -> PluginRef
    /** The checksum of the sources of a dependency list (an MD5 of their concatenated text). */
    const checksumOf: seq<string> -> string

    constructor (sources: map<string, Source>, pluginOracle: (string, string, seq<string>) -> PluginRef, checksumOf: seq<string> -> string)
      ensures entries == map[] && Valid()
      ensures this.sources == sources && this.pluginOracle == pluginOracle && this.checksumOf == checksumOf
    {
      entries := map[];
      this.sources := sources;
      this.pluginOracle := pluginOracle;
      this.checksumOf := checksumOf;
    }

    /**
      Every entry is pending or ready; a ready one holds data with a non-empty
      dependency list and a timestamp for each dependency; stored data carries
      its entry's key; and no entry object serves two keys.
     */
    ghost predicate Valid()
      reads this, entries.Values
    {
      (forall k :: k in entries ==> EntryValid(k, entries[k])) &&
      (forall k1, k2 :: k1 in entries && k2 in entries && k1 != k2 ==> entries[k1] != entries[k2])
    }

    ghost predicate EntryValid(k: string, e: CacheEntry)
      reads e
    {
      e.state <= 1 &&
      (e.state == 1 ==> e.analysisData.Some? && |e.analysisData.value.analysis.dependencyList| > 0 &&
                        (forall d :: d in e.analysisData.value.analysis.dependencyList ==> d in e.timestamps)) &&
      (e.analysisData.Some? ==> e.analysisData.value.key == k)
    }

    /** Each key's dependency list, when its entry holds data. */
    ghost function DepTable(): map<string, Option<seq<string>>>
      reads this, entries.Values
    {
      map k | k in entries :: if entries[k].analysisData.Some? then Some(entries[k].analysisData.value.analysis.dependencyList) else None
    }

    /** `getExcludes(excludeKeys)`; None where the source throws a TypeError. */
    method GetExcludes(excludeKeys: seq<string>) returns (r: Option<seq<string>>)
      ensures r == Excludes(DepTable(), excludeKeys)
    {
      ghost var table := DepTable();
      var excludes: seq<string> := [];
      var seen: set<string> := {};
      ghost var lists: seq<seq<string>> := [];
      var i := 0;
      assert excludeKeys[..0] == [];
      while i < |excludeKeys|
        invariant 0 <= i <= |excludeKeys|
        invariant Lists(table, excludeKeys[..i]) == Some(lists)
        invariant excludes == Dedup(Flatten(lists))
        invariant forall x :: x in seen <==> x in Flatten(lists)
      {
        var key := excludeKeys[i];
        assert excludeKeys[..i + 1] == excludeKeys[..i] + [key];
        if key !in entries || entries[key].analysisData.None? {
          assert key !in table || table[key].None?;
          ListsPastFailure(table, excludeKeys, i + 1);
          return None;
        }
        var dependencyList := entries[key].analysisData.value.analysis.dependencyList;
        assert table[key] == Some(dependencyList);
        excludes, seen := AppendUnseen(excludes, seen, Flatten(lists), dependencyList);
        ListsSnoc(table, excludeKeys[..i], key, lists);
        FlattenSnoc(lists, dependencyList);
        lists := lists + [dependencyList];
        i := i + 1;
      }
      assert excludeKeys[..i] == excludeKeys;
      r := Some(excludes);
    }

    /** `getKey` up to the hash: the key text for the request, or None where `getExcludes` throws. */
    method GetKey(modules: seq<string>, excludeKeys: seq<string>, configJson: Option<string>) returns (r: Option<string>)
      ensures Excludes(DepTable(), excludeKeys).None? ==> r.None?
      ensures Excludes(DepTable(), excludeKeys).Some? ==> r == Some(KeyText(modules, Excludes(DepTable(), excludeKeys).value, configJson))
    {
      var excludes := GetExcludes(excludeKeys);
      if excludes.None? {
        return None;
      }
      var key := "keyValues:";
      var i := 0;
      while i < |modules|
        invariant 0 <= i <= |modules|
        invariant key == "keyValues:" + Concat(modules[..i])
      {
        assert modules[..i + 1][..i] == modules[..i];
        key := key + modules[i];
        i := i + 1;
      }
      assert modules[..i] == modules;
      key := key + "excludeValue:";
      ghost var head := key;
      i := 0;
      while i < |excludes.value|
        invariant 0 <= i <= |excludes.value|
        invariant key == head + Concat(excludes.value[..i])
      {
        assert excludes.value[..i + 1][..i] == excludes.value[..i];
        key := key + excludes.value[i];
        i := i + 1;
      }
      assert excludes.value[..i] == excludes.value;
      assert key == "keyValues:" + Concat(modules) + "excludeValue:" + Concat(excludes.value);
      if configJson.Some? {
        key := key + "configValue:";
        key := key + configJson.value;
      }
      assert key == KeyText(modules, excludes.value, configJson);
      r := Some(key);
    }

    /** `getAnalysisDataFromKey`: the entry's data, or undefined for an unknown key. */
    method GetAnalysisDataFromKey(key: string) returns (r: Option<CachedData>)
      ensures key !in entries ==> r.None?
      ensures key in entries ==> r == entries[key].analysisData
    {
      if key in entries {
        r := entries[key].analysisData;
      } else {
        r := None;
      }
    }

    /** One turn of the polling loop on a pending entry: data is handed over only once the entry is ready. */
    method Poll(key: string) returns (r: Option<CachedData>)
      requires Valid() && key in entries
      ensures r.Some? <==> entries[key].state == 1
      ensures r.Some? ==> r == entries[key].analysisData && r.value.key == key
    {
      var cacheEntry := entries[key];
      if cacheEntry.state == 1 {
        r := cacheEntry.analysisData;
      } else {
        r := None;
      }
    }

    /**
      `doAnalysis`: analyse, checksum and timestamp the request, then store the
      data and mark the entry ready.  A failed or crashed analysis, or an empty
      dependency list, leaves the entry as it was and the callback uncalled.
     */
    method DoAnalysis(cacheEntry: CacheEntry, key: string, modules: seq<string>, excludeKeys: seq<string>,
                      config: RawConfig, now: string -> int, fuel: nat)
      returns (r: Response)
      requires Valid() && key in entries && entries[key] == cacheEntry
      modifies cacheEntry
      ensures Valid()
      ensures r.Delivered? || r.Abandoned?
      ensures r.Delivered? ==> cacheEntry.state == 1 && cacheEntry.analysisData == Some(r.data) && r.data.key == key
      ensures r.Delivered? ==> r.data.checksum == checksumOf(r.data.analysis.dependencyList)
      ensures r.Delivered? ==> forall d :: d in cacheEntry.timestamps ==> cacheEntry.timestamps[d] == now(d)
      ensures r.Abandoned? ==> unchanged(cacheEntry)
    {
      var excludes := GetExcludes(excludeKeys);
      if excludes.None? {
        return Abandoned;
      }
      var analyzer := new Analyzer(config, sources, pluginOracle);
      var analysis := analyzer.GetAnalysisData(modules, excludes.value, fuel);
      if !analysis.Ready? {
        return Abandoned;
      }
      var dependencyList := analysis.data.dependencyList;
      var checksummed := ChecksumJoin(dependencyList);
      if !checksummed {
        return Abandoned;
      }
      var data := CachedData(analysis.data, key, checksumOf(dependencyList));
      var timed, timestamps := GetTimestamps(dependencyList, now);
      cacheEntry.analysisData := Some(data);
      cacheEntry.timestamps := timestamps;
      cacheEntry.state := 1;
      r := Delivered(data);
    }

    /** The entry for `key` is ready and none of its dependencies has changed: a request reuses it as it is. */
    ghost predicate Fresh(key: string, now: string -> int)
      reads this, entries.Values
    {
      key in entries && entries[key].state == 1 && entries[key].analysisData.Some? &&
      !Stale(entries[key].analysisData.value.analysis.dependencyList, entries[key].timestamps, now)
    }

    /** The key a request is filed under, given the cache's contents before it. */
    ghost function RequestKey(modules: seq<string>, excludeKeys: seq<string>, configJson: Option<string>): Option<string>
      reads this, entries.Values
    {
      var excludes := Excludes(DepTable(), excludeKeys);
      if excludes.None? then None else Some(KeyText(modules, excludes.value, configJson))
    }

    /**
      `getAnalysisData(modules, excludes, config, cb)`, with every asynchronous
      step run to completion before the next request.  `configJson` is what
      `JSON.stringify` makes of the configuration, None when none is given.
     */
    method GetAnalysisData(modules: seq<string>, excludeKeys: seq<string>, configJson: Option<string>,
                           config: RawConfig, now: string -> int, fuel: nat)
      returns (r: Response)
      requires Valid()
      modifies this, entries.Values
      ensures Valid()
      ensures old(RequestKey(modules, excludeKeys, configJson)).None? ==> r == Thrown && entries == old(entries)
      ensures old(RequestKey(modules, excludeKeys, configJson)).Some? ==>
        var key := old(RequestKey(modules, excludeKeys, configJson)).value;
        key in entries && entries.Keys == old(entries).Keys + {key} &&
        (forall k :: k in old(entries) && k != key ==> entries[k] == old(entries)[k]) &&
        (key in old(entries) ==> entries[key] == old(entries)[key]) &&
        (key !in old(entries) ==> fresh(entries[key])) &&
        (r.Delivered? ==> entries[key].state == 1 && entries[key].analysisData == Some(r.data) && r.data.key == key) &&
        (r.Waiting? <==> key in old(entries) && old(entries[key].state) == 0) &&
        (r.Waiting? ==> unchanged(entries[key])) &&
        (r.Abandoned? ==> entries[key].state == 0) &&
        (old(Fresh(key, now)) ==> r == Delivered(old(entries[key].analysisData.value)) && unchanged(entries[key])) &&
        (!old(Fresh(key, now)) && r.Delivered? ==>
          r.data.checksum == checksumOf(r.data.analysis.dependencyList) &&
          forall d :: d in entries[key].timestamps ==> entries[key].timestamps[d] == now(d))
      ensures forall k :: k in old(entries) && old(RequestKey(modules, excludeKeys, configJson)) != Some(k) ==>
        unchanged(old(entries)[k])
    {
      ghost var key0 := RequestKey(modules, excludeKeys, configJson);
      var maybeKey := GetKey(modules, excludeKeys, configJson);
      if maybeKey.None? {
        return Thrown;
      }
      var key := maybeKey.value;
      assert key0 == Some(key);
      if key in entries {
        r := Revisit(entries[key], key, modules, excludeKeys, config, now, fuel);
      } else {
        r := Admit(key, modules, excludeKeys, config, now, fuel);
      }
    }

    /** A request whose key has an entry: wait on a pending one, reuse a fresh one, re-analyse a stale one. */
    method Revisit(cacheEntry: CacheEntry, key: string, modules: seq<string>, excludeKeys: seq<string>,
                   config: RawConfig, now: string -> int, fuel: nat)
      returns (r: Response)
      requires Valid() && key in entries && entries[key] == cacheEntry
      modifies cacheEntry
      ensures Valid()
      ensures !r.Thrown?
      ensures r.Waiting? <==> old(cacheEntry.state) == 0
      ensures r.Waiting? ==> unchanged(cacheEntry)
      ensures r.Delivered? ==> cacheEntry.state == 1 && cacheEntry.analysisData == Some(r.data) && r.data.key == key
      ensures r.Abandoned? ==> cacheEntry.state == 0
      ensures old(Fresh(key, now)) ==> r == Delivered(old(cacheEntry.analysisData.value)) && unchanged(cacheEntry)
      ensures !old(Fresh(key, now)) && r.Delivered? ==>
        r.data.checksum == checksumOf(r.data.analysis.dependencyList) &&
        forall d :: d in cacheEntry.timestamps ==> cacheEntry.timestamps[d] == now(d)
    {
      if cacheEntry.state == 0 {
        return Waiting;
      }
      var delivered, stale := IsStale(cacheEntry.analysisData.value.analysis.dependencyList, cacheEntry.timestamps, now);
      assert delivered;
      if stale {
        cacheEntry.state := 0;
        r := DoAnalysis(cacheEntry, key, modules, excludeKeys, config, now, fuel);
      } else {
        r := Delivered(cacheEntry.analysisData.value);
      }
    }

    /** A request with a new key: file a pending entry under it, then analyse. */
    method Admit(key: string, modules: seq<string>, excludeKeys: seq<string>,
                 config: RawConfig, now: string -> int, fuel: nat)
      returns (r: Response)
      requires Valid() && key !in entries
      modifies this
      ensures Valid()
      ensures key in entries && fresh(entries[key]) && entries == old(entries)[key := entries[key]]
      ensures r.Delivered? || r.Abandoned?
      ensures r.Delivered? ==> entries[key].state == 1 && entries[key].analysisData == Some(r.data) && r.data.key == key
      ensures r.Delivered? ==>
        r.data.checksum == checksumOf(r.data.analysis.dependencyList) &&
        forall d :: d in entries[key].timestamps ==> entries[key].timestamps[d] == now(d)
      ensures r.Abandoned? ==> entries[key].state == 0
    {
      var cacheEntry := new CacheEntry();
      entries := entries[key := cacheEntry];
      r := DoAnalysis(cacheEntry, key, modules, excludeKeys, config, now, fuel);
    }
  }

  /** A failing key anywhere in the list makes the whole list fail. */
  lemma ListsPastFailure(table: map<string, Option<seq<string>>>, keys: seq<string>, n: nat)
    requires 0 < n <= |keys| && (keys[n - 1] !in table || table[keys[n - 1]].None?)
    ensures Lists(table, keys).None?
  {
  }

  lemma ListsSnoc(table: map<string, Option<seq<string>>>, keys: seq<string>, k: string, lists: seq<seq<string>>)
    requires Lists(table, keys) == Some(lists) && k in table && table[k].Some?
    ensures Lists(table, keys + [k]) == Some(lists + [table[k].value])
  {
    assert (keys + [k])[..|keys|] == keys;
  }

  lemma FlattenSnoc(lists: seq<seq<string>>, l: seq<string>)
    ensures Flatten(lists + [l]) == Flatten(lists) + l
  {
    assert (lists + [l])[..|lists|] == lists;
  }

  lemma DedupSnoc(s: seq<string>, x: string)
    ensures Dedup(s + [x]) == if x in s then Dedup(s) else Dedup(s) + [x]
  {
    assert (s + [x])[..|s|] == s;
  }

  /** The inner loop of `getExcludes`: push each id of `list` not yet marked in `seen`, marking it. */
  method AppendUnseen(excludes: seq<string>, seen: set<string>, ghost prefix: seq<string>, list: seq<string>)
    returns (excludes': seq<string>, seen': set<string>)
    requires excludes == Dedup(prefix) && forall x :: x in seen <==> x in prefix
    ensures excludes' == Dedup(prefix + list)
    ensures forall x :: x in seen' <==> x in prefix + list
  {
    excludes', seen' := excludes, seen;
    var j := 0;
    assert prefix + list[..0] == prefix;
    while j < |list|
      invariant 0 <= j <= |list|
      invariant excludes' == Dedup(prefix + list[..j])
      invariant forall x :: x in seen' <==> x in prefix + list[..j]
    {
      var dep := list[j];
      assert prefix + list[..j + 1] == (prefix + list[..j]) + [dep];
      DedupSnoc(prefix + list[..j], dep);
      if dep !in seen' {
        excludes' := excludes' + [dep];
        seen' := seen' + {dep};
      }
      j := j + 1;
    }
    assert list[..j] == list;
  }
}
