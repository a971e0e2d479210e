/**
  The string work of the optimizer's response writer: naming anonymous
  `define` calls, appending shim wrappers, tagging localisation bundles with
  their module name, and deriving the i18n bundle records.
 */
module Bundle {
  import opened Collections
  import opened Walker

  // ---------------------------------------------------------------------
  // Missing names

  /** The position of the first entry recorded for `uri`, if any. */
  function FirstMissing(uri: string, missingNamesList: seq<MissingName>): (r: Option<nat>)
    ensures r.None? <==> forall k :: 0 <= k < |missingNamesList| ==> missingNamesList[k].uri != uri
    ensures r.Some? ==> r.value < |missingNamesList| && missingNamesList[r.value].uri == uri
    ensures r.Some? ==> forall j :: 0 <= j < r.value ==> missingNamesList[j].uri != uri
    decreases |missingNamesList|
  {
    if |missingNamesList| == 0 then None
    else if missingNamesList[0].uri == uri then Some(0)
    else
      var r := FirstMissing(uri, missingNamesList[1..]);
      if r.None? then None else Some(r.value + 1)
  }

  /** `lookForMissingName`: the name position of the first entry for `uri`, or -1. */
  method LookForMissingName(uri: string, missingNamesList: seq<MissingName>) returns (missingNameIndex: int)
    ensures missingNameIndex == -1 <==> FirstMissing(uri, missingNamesList).None?
    ensures missingNameIndex != -1 ==> missingNameIndex == missingNamesList[FirstMissing(uri, missingNamesList).value].nameIndex
  {
    missingNameIndex := -1;
    var i := 0;
    while i < |missingNamesList|
      invariant 0 <= i <= |missingNamesList|
      invariant forall j :: 0 <= j < i ==> missingNamesList[j].uri != uri
      invariant missingNameIndex == -1
    {
      if uri == missingNamesList[i].uri {
        missingNameIndex := missingNamesList[i].nameIndex;
        break;
      }
      i := i + 1;
    }
  }

  /** `getMissingNameId`: the id of the first entry for `uri`, or null. */
  method GetMissingNameId(uri: string, missingNamesList: seq<MissingName>) returns (id: Option<string>)
    ensures id.None? <==> FirstMissing(uri, missingNamesList).None?
    ensures id.Some? ==> id.value == missingNamesList[FirstMissing(uri, missingNamesList).value].id
  {
    id := None;
    var i := 0;
    while i < |missingNamesList|
      invariant 0 <= i <= |missingNamesList|
      invariant forall j :: 0 <= j < i ==> missingNamesList[j].uri != uri
      invariant id.None?
    {
      if uri == missingNamesList[i].uri {
        id := Some(missingNamesList[i].id);
        break;
      }
      i := i + 1;
    }
  }

  /** `s.substring(i)` / `s.substring(0, i)` clamp their bounds to the string. */
  function Clamp(i: int, n: nat): (r: nat)
    ensures r <= n
    ensures 0 <= i <= n ==> r == i
  {
    if i < 0 then 0 else if i > n then n else i
  }

  /** The text spliced in front of an anonymous `define`'s first argument. */
  function NameText(id: string): string {
    "'" + id + "', "
  }

  /** The splice: the name inserted at `index` (clamped to the content). */
  function InsertName(content: string, index: int, id: string): string {
    var at := Clamp(index, |content|);
    content[..at] + NameText(id) + content[at..]
  }

  /** Cutting `n` characters out of `t` at `at`. */
  function Cut(t: string, at: nat, n: nat): string
    requires at + n <= |t|
  {
    t[..at] + t[at + n..]
  }

  /** The name text sits at the splice position, and cutting it out restores the content. */
  lemma InsertNameRoundTrip(content: string, index: int, id: string)
    ensures var at := Clamp(index, |content|);
      var t := InsertName(content, index, id);
      at + |NameText(id)| <= |t| &&
      t[at..at + |NameText(id)|] == NameText(id) &&
      Cut(t, at, |NameText(id)|) == content
  {
    var at := Clamp(index, |content|);
    var t := InsertName(content, index, id);
    assert t == content[..at] + NameText(id) + content[at..];
    assert t[..at] == content[..at];
    assert t[at + |NameText(id)|..] == content[at..];
    assert content[..at] + content[at..] == content;
  }

  /** `analysisData.shims[dependency]` when truthy, otherwise nothing to append. */
  function ShimOf(shims: map<string, string>, dependency: string): string {
    if dependency in shims && shims[dependency] != "" then shims[dependency] else ""
  }

  /**
    What the response writer emits for one dependency's source: the module id
    spliced in at the recorded name position when the module's `define` is
    anonymous, then the module's shim wrapper appended.
   */
  method DependencyContent(dependency: string, content: string, data: AnalysisData) returns (out: string)
    ensures FirstMissing(dependency, data.missingNamesList).None? ==> out == content + ShimOf(data.shims, dependency)
    ensures FirstMissing(dependency, data.missingNamesList).Some? ==>
      var entry := data.missingNamesList[FirstMissing(dependency, data.missingNamesList).value];
      out == InsertName(content, entry.nameIndex, entry.id) + ShimOf(data.shims, dependency)
  {
    out := content;
    var missingNameIndex := LookForMissingName(dependency, data.missingNamesList);
    if missingNameIndex != -1 {
      var id := GetMissingNameId(dependency, data.missingNamesList);
      var at := Clamp(missingNameIndex, |out|);
      out := out[..at] + "'" + id.value + "', " + out[at..];
    }
    if dependency in data.shims && data.shims[dependency] != "" {
      out := out + data.shims[dependency];
    }
  }

  /** The two lookups agree: a name position is found exactly when an id is, and both come from the same entry. */
  lemma MissingNameLookupsAgree(uri: string, missingNamesList: seq<MissingName>, k: nat)
    requires k < |missingNamesList| && missingNamesList[k].uri == uri
    requires forall j :: 0 <= j < k ==> missingNamesList[j].uri != uri
    ensures FirstMissing(uri, missingNamesList) == Some(k)
  {
    var r := FirstMissing(uri, missingNamesList);
    if r.value < k {
    } else if r.value > k {
    }
  }

  // ---------------------------------------------------------------------
  // Localisation bundles

  /** `s.indexOf(c)`: the first position of `c`, or -1. */
  function FirstIndex(s: string, c: char): (r: int)
    ensures -1 <= r < |s|
    ensures r == -1 <==> c !in s
    ensures r >= 0 ==> s[r] == c && c !in s[..r]
  {
    if c in s then IndexOf(s, c) else -1
  }

  /** The last position of `c` before `end`, or -1. */
  function LastIndexBefore(s: string, c: char, end: nat): (r: int)
    requires end <= |s|
    ensures -1 <= r < end
    ensures r >= 0 ==> s[r] == c
    decreases end
  {
    if end == 0 then -1
    else if s[end - 1] == c then end - 1
    else LastIndexBefore(s, c, end - 1)
  }

  lemma {:induction false} LastIndexBeforeIsLast(s: string, c: char, end: nat)
    requires end <= |s|
    ensures forall k :: LastIndexBefore(s, c, end) < k < end ==> s[k] != c
    decreases end
  {
    if end > 0 && s[end - 1] != c {
      LastIndexBeforeIsLast(s, c, end - 1);
    }
  }

  /** `s.lastIndexOf(c)`: the last position of `c`, or -1. */
  function LastIndex(s: string, c: char): (r: int)
    ensures -1 <= r < |s|
    ensures r >= 0 ==> s[r] == c
  {
    LastIndexBefore(s, c, |s|)
  }

  /** `writeLocalization`: the bundle's module name inserted right after its first '(', then a newline. */
  function WriteLocalization(content: string, moduleName: string): string {
    var at := FirstIndex(content, '(') + 1;
    content[..at] + "'" + moduleName + "'," + content[at..] + "\n"
  }

  /**
    The name follows the first '(' (or opens the text when there is none), the
    content is otherwise kept in order, and a newline ends the text.
   */
  lemma LocalizationPlacement(content: string, moduleName: string)
    ensures var at := FirstIndex(content, '(') + 1;
      var tag := "'" + moduleName + "',";
      var t := WriteLocalization(content, moduleName);
      |t| == |content| + |tag| + 1 &&
      t[..at] == content[..at] && t[at..at + |tag|] == tag &&
      t[at + |tag|..|t| - 1] == content[at..] && t[|t| - 1] == '\n'
    ensures '(' !in content ==> WriteLocalization(content, moduleName) == "'" + moduleName + "'," + content + "\n"
    ensures '(' in content ==> '(' !in WriteLocalization(content, moduleName)[..FirstIndex(content, '(')]
  {
    var at := FirstIndex(content, '(') + 1;
    var tag := "'" + moduleName + "',";
    var t := WriteLocalization(content, moduleName);
    assert t == content[..at] + tag + content[at..] + "\n";
    assert t[..at] == content[..at];
    assert t[at..at + |tag|] == tag;
    assert t[at + |tag|..|t| - 1] == content[at..];
    if '(' in content {
      assert t[..at - 1] == content[..at - 1];
    } else {
      assert content[..0] == [] && content[0..] == content;
    }
  }

  /**
    One i18n bundle to write, built from the bundle module and its url; the
    record's other fields, the module's directory and name and the url's
    directory, are derived from these two.
   */
  datatype Localization = Localization(bundlepackage: string, url: string) {
    function modpath(): string { Dir(bundlepackage) }
    function bundlename(): string { Base(bundlepackage) }
    function moduleurl(): string { Dir(url) }
  }

  /** The key a plugin reference's name takes in the `seen` table (an undefined name reads as "undefined"). */
  function SeenKey(normalizedName: Option<string>): string {
    if normalizedName.Some? then normalizedName.value else "undefined"
  }

  /** `s.substring(0, s.lastIndexOf('/'))`: the text before the last '/', or "" when there is none. */
  function Dir(s: string): string {
    s[..Clamp(LastIndex(s, '/'), |s|)]
  }

  /** `s.substring(s.lastIndexOf('/') + 1)`: the text after the last '/', or all of `s`. */
  function Base(s: string): string {
    s[LastIndex(s, '/') + 1..]
  }

  /** Splitting at the last '/' gives back the text: directory, '/', name, with no '/' in the name. */
  lemma DirBase(s: string)
    ensures '/' !in Base(s)
    ensures '/' in s ==> s == Dir(s) + "/" + Base(s)
    ensures '/' !in s ==> Dir(s) == "" && Base(s) == s
  {
    var slash := LastIndex(s, '/');
    LastIndexBeforeIsLast(s, '/', |s|);
    if slash >= 0 {
      assert s == s[..slash] + [s[slash]] + s[slash + 1..];
    } else {
      assert s[0..] == s;
    }
  }

  /** The record for one reference; None when its name or url is undefined (a TypeError). */
  function Record(ref: PluginRef): (r: Option<Localization>)
    ensures r.Some? ==> ref.normalizedName.Some? && r.value.bundlepackage == ref.normalizedName.value
  {
    if ref.normalizedName.None? || ref.moduleUrl.None? then None
    else
      var bundlePackage := ref.normalizedName.value;
      Some(Localization(bundlePackage, ref.moduleUrl.value))
  }

  /** A record's directory and name put back together give its bundle module. */
  lemma RecordSplit(ref: PluginRef)
    requires Record(ref).Some?
    ensures var l := Record(ref).value;
      '/' !in l.bundlename() &&
      ('/' in l.bundlepackage ==> l.bundlepackage == l.modpath() + "/" + l.bundlename()) &&
      ('/' !in l.bundlepackage ==> l.modpath() == "" && l.bundlename() == l.bundlepackage)
  {
    DirBase(ref.normalizedName.value);
  }

  /** The keys of the first `n` references. */
  function SeenKeys(refs: seq<PluginRef>, n: nat): set<string>
    requires n <= |refs|
    decreases n
  {
    if n == 0 then {} else SeenKeys(refs, n - 1) + {SeenKey(refs[n - 1].normalizedName)}
  }

  lemma {:induction false} SeenKeysMember(refs: seq<PluginRef>, n: nat, k: string)
    requires n <= |refs|
    ensures k in SeenKeys(refs, n) <==> exists j :: 0 <= j < n && SeenKey(refs[j].normalizedName) == k
    decreases n
  {
    if n > 0 {
      SeenKeysMember(refs, n - 1, k);
    }
  }

  /** Whether reference `i`'s name is neither already seen nor carried by an earlier reference. */
  predicate FirstNew(refs: seq<PluginRef>, seen: set<string>, i: nat)
    requires i < |refs|
  {
    SeenKey(refs[i].normalizedName) !in seen + SeenKeys(refs, i)
  }

  /** The references among the first `n` that the i18n loop makes records for, in order. */
  function Picked(refs: seq<PluginRef>, seen: set<string>, n: nat): seq<PluginRef>
    requires n <= |refs|
    decreases n
  {
    if n == 0 then []
    else Picked(refs, seen, n - 1) + (if FirstNew(refs, seen, n - 1) then [refs[n - 1]] else [])
  }

  lemma {:induction false} PickedPrefix(refs: seq<PluginRef>, seen: set<string>, m: nat, n: nat)
    requires m <= n <= |refs|
    ensures Picked(refs, seen, m) <= Picked(refs, seen, n)
    decreases n
  {
    if n > m {
      PickedPrefix(refs, seen, m, n - 1);
    }
  }

  /** The records of the given references, in order; None when one of them has none. */
  function Records(ps: seq<PluginRef>): Option<seq<Localization>>
    decreases |ps|
  {
    if |ps| == 0 then Some([])
    else
      var init := Records(ps[..|ps| - 1]);
      var last := Record(ps[|ps| - 1]);
      if init.None? || last.None? then None else Some(init.value + [last.value])
  }

  /** The records are present exactly when every reference has one, and then they are those records, in order. */
  lemma {:induction false} RecordsSpec(ps: seq<PluginRef>)
    ensures Records(ps).None? <==> exists a :: 0 <= a < |ps| && Record(ps[a]).None?
    ensures Records(ps).Some? ==>
      |Records(ps).value| == |ps| && forall a :: 0 <= a < |ps| ==> Record(ps[a]) == Some(Records(ps).value[a])
    decreases |ps|
  {
    if |ps| > 0 {
      var init := ps[..|ps| - 1];
      RecordsSpec(init);
      assert forall a :: 0 <= a < |ps| - 1 ==> init[a] == ps[a];
      if Records(ps).None? && Records(init).Some? {
        assert Record(ps[|ps| - 1]).None?;
      }
    }
  }

  lemma RecordsSnoc(ps: seq<PluginRef>, p: PluginRef)
    ensures Records(ps + [p]) ==
      if Records(ps).None? || Record(p).None? then None else Some(Records(ps).value + [Record(p).value])
  {
    assert (ps + [p])[..|ps|] == ps;
  }

  /** How reference `i` changes the picked list: appended exactly when its name is new. */
  lemma PickedStep(refs: seq<PluginRef>, seen0: set<string>, i: nat)
    requires i < |refs|
    ensures FirstNew(refs, seen0, i) ==> Picked(refs, seen0, i + 1) == Picked(refs, seen0, i) + [refs[i]]
    ensures !FirstNew(refs, seen0, i) ==> Picked(refs, seen0, i + 1) == Picked(refs, seen0, i)
  {
  }

  /** A reference without a record, once picked, leaves the whole list without records. */
  lemma PickedUnrecorded(refs: seq<PluginRef>, seen0: set<string>, i: nat)
    requires i < |refs| && FirstNew(refs, seen0, i) && Record(refs[i]).None?
    ensures Records(Picked(refs, seen0, |refs|)).None?
  {
    PickedStep(refs, seen0, i);
    PickedPrefix(refs, seen0, i + 1, |refs|);
    var all := Picked(refs, seen0, |refs|);
    assert all[|Picked(refs, seen0, i)|] == refs[i];
    RecordsSpec(all);
  }

  /**
    The i18n loop of `writeResponse` over the i18n plugin's references, starting
    from the names seen in excluded analyses: one record per picked reference,
    or None when a picked reference has an undefined name or url.
   */
  method Localizations(refs: seq<PluginRef>, seen0: set<string>) returns (r: Option<seq<Localization>>)
    ensures r == Records(Picked(refs, seen0, |refs|))
  {
    var seen := seen0;
    var localizations: seq<Localization> := [];
    var i := 0;
    while i < |refs|
      invariant 0 <= i <= |refs|
      invariant seen == seen0 + SeenKeys(refs, i)
      invariant Records(Picked(refs, seen0, i)) == Some(localizations)
    {
      var bundlePackage := refs[i].normalizedName;
      var key := SeenKey(bundlePackage);
      PickedStep(refs, seen0, i);
      if key !in seen {
        seen := seen + {key};
        var record := Record(refs[i]);
        if record.None? {
          PickedUnrecorded(refs, seen0, i);
          return None;
        }
        RecordsSnoc(Picked(refs, seen0, i), refs[i]);
        localizations := localizations + [record.value];
      }
      i := i + 1;
    }
    r := Some(localizations);
  }

  /** Every picked reference has a name not seen before and carried by one of the first `n` references. */
  lemma {:induction false} PickedNew(refs: seq<PluginRef>, seen: set<string>, n: nat)
    requires n <= |refs|
    ensures forall p :: p in Picked(refs, seen, n) ==>
      SeenKey(p.normalizedName) !in seen && SeenKey(p.normalizedName) in SeenKeys(refs, n)
    decreases n
  {
    if n > 0 {
      PickedNew(refs, seen, n - 1);
      var prev := Picked(refs, seen, n - 1);
      assert SeenKeys(refs, n) == SeenKeys(refs, n - 1) + {SeenKey(refs[n - 1].normalizedName)};
      if FirstNew(refs, seen, n - 1) {
        var ps := prev + [refs[n - 1]];
        assert Picked(refs, seen, n) == ps;
        assert forall p :: p in ps ==> p in prev || p == refs[n - 1];
      } else {
        assert Picked(refs, seen, n) == prev;
      }
    }
  }

  /** No bundle is picked twice. */
  lemma {:induction false} PickedDistinct(refs: seq<PluginRef>, seen: set<string>, n: nat)
    requires n <= |refs|
    ensures forall a, b :: 0 <= a < b < |Picked(refs, seen, n)| ==>
      SeenKey(Picked(refs, seen, n)[a].normalizedName) != SeenKey(Picked(refs, seen, n)[b].normalizedName)
    decreases n
  {
    if n > 0 {
      PickedDistinct(refs, seen, n - 1);
      PickedNew(refs, seen, n - 1);
      var prev := Picked(refs, seen, n - 1);
      if FirstNew(refs, seen, n - 1) {
        var ps := prev + [refs[n - 1]];
        assert Picked(refs, seen, n) == ps;
        forall a, b | 0 <= a < b < |ps|
          ensures SeenKey(ps[a].normalizedName) != SeenKey(ps[b].normalizedName)
        {
          assert ps[a] == prev[a] && prev[a] in prev;
          if b < |prev| {
            assert ps[b] == prev[b];
          }
        }
      } else {
        assert Picked(refs, seen, n) == prev;
      }
    }
  }

  /** Every bundle referenced and not already seen is picked. */
  lemma {:induction false} PickedCovers(refs: seq<PluginRef>, seen: set<string>, n: nat, j: nat)
    requires j < n <= |refs| && SeenKey(refs[j].normalizedName) !in seen
    ensures exists p :: p in Picked(refs, seen, n) && SeenKey(p.normalizedName) == SeenKey(refs[j].normalizedName)
    decreases n
  {
    var prev := Picked(refs, seen, n - 1);
    var key := SeenKey(refs[j].normalizedName);
    PickedPrefix(refs, seen, n - 1, n);
    if j < n - 1 {
      PickedCovers(refs, seen, n - 1, j);
      var p :| p in prev && SeenKey(p.normalizedName) == key;
      assert p in Picked(refs, seen, n);
    } else if FirstNew(refs, seen, n - 1) {
      assert Picked(refs, seen, n) == prev + [refs[j]];
      assert refs[j] in Picked(refs, seen, n);
    } else {
      SeenKeysMember(refs, n - 1, key);
      var i :| 0 <= i < n - 1 && SeenKey(refs[i].normalizedName) == key;
      PickedCovers(refs, seen, n - 1, i);
      var p :| p in prev && SeenKey(p.normalizedName) == key;
      assert p in Picked(refs, seen, n);
    }
  }

  /** The names the i18n plugin's references carry in a list of references. */
  function RefNames(list: seq<PluginRef>): set<string> {
    set j | 0 <= j < |list| :: SeenKey(list[j].normalizedName)
  }

  /** The names the i18n plugin's references carry in the first `n` excluded analyses. */
  function ExcludedNames(excluded: seq<AnalysisData>, i18nPluginId: string, n: nat): set<string>
    requires n <= |excluded|
    decreases n
  {
    if n == 0 then {}
    else
      ExcludedNames(excluded, i18nPluginId, n - 1) +
      (if i18nPluginId in excluded[n - 1].pluginRefs then RefNames(excluded[n - 1].pluginRefs[i18nPluginId]) else {})
  }

  /** A name is excluded exactly when some excluded analysis has an i18n reference carrying it. */
  lemma {:induction false} ExcludedNamesMember(excluded: seq<AnalysisData>, i18nPluginId: string, n: nat, k: string)
    requires n <= |excluded|
    ensures k in ExcludedNames(excluded, i18nPluginId, n) <==>
      exists i :: 0 <= i < n && i18nPluginId in excluded[i].pluginRefs && k in RefNames(excluded[i].pluginRefs[i18nPluginId])
    decreases n
  {
    if n > 0 {
      ExcludedNamesMember(excluded, i18nPluginId, n - 1, k);
    }
  }

  /** The analyses an exclude list names, up to the first key without analysis data. */
  function Present(excluded: seq<Option<AnalysisData>>): (r: Option<seq<AnalysisData>>)
    ensures r.None? <==> exists i :: 0 <= i < |excluded| && excluded[i].None?
    ensures r.Some? ==> |r.value| == |excluded| && forall i :: 0 <= i < |excluded| ==> excluded[i] == Some(r.value[i])
    decreases |excluded|
  {
    if |excluded| == 0 then Some([])
    else
      var rest := Present(excluded[1..]);
      assert forall i :: 1 <= i < |excluded| ==> excluded[i] == excluded[1..][i - 1];
      if excluded[0].None? || rest.None? then None else Some([excluded[0].value] + rest.value)
  }

  /**
    The names the i18n plugin's references carry in the excluded analyses
   ; None when an exclude key has no analysis data.
   */
  method ExcludedBundles(excluded: seq<Option<AnalysisData>>, i18nPluginId: string) returns (seen: Option<set<string>>)
    ensures seen.None? <==> Present(excluded).None?
    ensures seen.Some? ==> seen.value == ExcludedNames(Present(excluded).value, i18nPluginId, |excluded|)
  {
    var present := Present(excluded);
    var names: set<string> := {};
    var i := 0;
    while i < |excluded|
      invariant 0 <= i <= |excluded|
      invariant forall i' :: 0 <= i' < i ==> excluded[i'].Some?
      invariant present.Some? ==> names == ExcludedNames(present.value, i18nPluginId, i)
    {
      if excluded[i].None? {
        return None;
      }
      var pluginRefs := excluded[i].value.pluginRefs;
      if i18nPluginId in pluginRefs {
        var list := pluginRefs[i18nPluginId];
        names := names + set j | 0 <= j < |list| :: SeenKey(list[j].normalizedName);
      }
      i := i + 1;
    }
    seen := Some(names);
  }

  /**
    The localisation records `writeResponse` derives: none
    without an i18n plugin id; otherwise the records for the plugin's
    references whose bundles no excluded analysis already references, or None
    when an exclude key has no analysis data or a picked reference lacks its
    name or url.
   */
  method BundleLocalizations(data: AnalysisData, excluded: seq<Option<AnalysisData>>, i18nPluginId: string)
    returns (r: Option<seq<Localization>>)
    ensures i18nPluginId == "" ==> r == Some([])
    ensures i18nPluginId != "" && Present(excluded).None? ==> r.None?
    ensures i18nPluginId != "" && Present(excluded).Some? && i18nPluginId !in data.pluginRefs ==> r == Some([])
    ensures i18nPluginId != "" && Present(excluded).Some? && i18nPluginId in data.pluginRefs ==>
      var refs := data.pluginRefs[i18nPluginId];
      r == Records(Picked(refs, ExcludedNames(Present(excluded).value, i18nPluginId, |excluded|), |refs|))
  {
    if i18nPluginId == "" {
      return Some([]);
    }
    var seen := ExcludedBundles(excluded, i18nPluginId);
    if seen.None? {
      return None;
    }
    if i18nPluginId !in data.pluginRefs {
      return Some([]);
    }
    r := Localizations(data.pluginRefs[i18nPluginId], seen.value);
  }
}
