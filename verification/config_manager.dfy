/** config_manager.py: the three JSON configuration files (API keys,
    settings, recent output paths) as one in-memory store. A file that does
    not exist is `None`; reading it yields an empty dictionary, as
    `_load_json` does, and every save creates it. Each public method is a
    transformer from store to store. */
module ConfigManager {

  import opened Common
  import opened Json

  /** path-history.json: both keys are optional in the file. */
  datatype HistoryFile = HistoryFile(recentPaths: Option<seq<string>>, maxPaths: Option<int>)

  /** API-KEYS.json, SETTINGS.json and path-history.json. */
  datatype Store = Store(
    apiKeys: Option<map<string, string>>,
    settings: Option<map<string, Json>>,
    history: Option<HistoryFile>)

  /** History length used when the file has no `max_paths`. */
  const DefaultMaxPaths := 20

  /** The one path never recorded, being the default output directory. */
  const DefaultOutputDir := "output"

  const DefaultApiKeys: map<string, string> :=
    map["openrouter_api_key" := "", "moonshot_api_key" := ""]

  const DefaultSettings: map<string, Json> :=
    map["selected_model" := JStr("kimi"), "max_tokens" := JNum(100000.0),
        "temperature" := JNum(0.6), "output_dir" := JStr("output")]

  const DefaultHistory := HistoryFile(Some([]), Some(DefaultMaxPaths))

  /** `_initialize_files`: writes the defaults of each missing file and
      leaves every existing file alone. */
  function Initialize(s: Store): (r: Store)
    ensures r.apiKeys.Some? && r.settings.Some? && r.history.Some?
    ensures s.apiKeys.Some? ==> r.apiKeys == s.apiKeys
    ensures s.settings.Some? ==> r.settings == s.settings
    ensures s.history.Some? ==> r.history == s.history
    ensures s.apiKeys.None? ==> r.apiKeys == Some(DefaultApiKeys)
    ensures s.settings.None? ==> r.settings == Some(DefaultSettings)
    ensures s.history.None? ==> r.history == Some(DefaultHistory)
  {
    Store(
      if s.apiKeys.None? then Some(DefaultApiKeys) else s.apiKeys,
      if s.settings.None? then Some(DefaultSettings) else s.settings,
      if s.history.None? then Some(DefaultHistory) else s.history)
  }

  /** `clear_all_data` just re-runs `_initialize_files`: despite its name it
      clears nothing, and running it twice is the same as once. */
  function ClearAllData(s: Store): (r: Store)
    ensures s.apiKeys.Some? && s.settings.Some? && s.history.Some? ==> r == s
    ensures r.apiKeys.Some? && r.settings.Some? && r.history.Some?
    ensures s.apiKeys.Some? ==> r.apiKeys == s.apiKeys
    ensures s.settings.Some? ==> r.settings == s.settings
    ensures s.history.Some? ==> r.history == s.history
  {
    Initialize(s)
  }

  /** Clearing twice is clearing once. */
  lemma ClearIdempotent(s: Store)
    ensures ClearAllData(ClearAllData(s)) == ClearAllData(s)
  {
  }

  /** `get_api_keys`. */
  function ApiKeys(s: Store): map<string, string> {
    s.apiKeys.GetOr(map[])
  }

  /** `save_api_key`: the key gets the value, every other key keeps its
      value, the other two files are untouched. */
  function SaveApiKey(s: Store, name: string, value: string): (r: Store)
    ensures name in ApiKeys(r) && ApiKeys(r)[name] == value
    ensures forall k :: k != name ==> (k in ApiKeys(r) <==> k in ApiKeys(s))
    ensures forall k :: k != name && k in ApiKeys(s) ==> ApiKeys(r)[k] == ApiKeys(s)[k]
    ensures r.settings == s.settings && r.history == s.history
  {
    s.(apiKeys := Some(ApiKeys(s)[name := value]))
  }

  /** `get_api_key`: `None` exactly for a key that is not stored. */
  function GetApiKey(s: Store, name: string): (r: Option<string>)
    ensures r.None? <==> name !in ApiKeys(s)
    ensures r.Some? ==> r.value == ApiKeys(s)[name]
  {
    Lookup(ApiKeys(s), name)
  }

  /** `get_settings`. */
  function Settings(s: Store): map<string, Json> {
    s.settings.GetOr(map[])
  }

  /** `save_setting`: the setting gets the value, every other setting keeps
      its value, the other two files are untouched. */
  function SaveSetting(s: Store, name: string, value: Json): (r: Store)
    ensures name in Settings(r) && Settings(r)[name] == value
    ensures forall k :: k != name ==> (k in Settings(r) <==> k in Settings(s))
    ensures forall k :: k != name && k in Settings(s) ==> Settings(r)[k] == Settings(s)[k]
    ensures r.apiKeys == s.apiKeys && r.history == s.history
  {
    s.(settings := Some(Settings(s)[name := value]))
  }

  /** `get_setting`: `None` exactly for a setting that is not stored. */
  function GetSetting(s: Store, name: string): (r: Option<Json>)
    ensures r.None? <==> name !in Settings(s)
    ensures r.Some? ==> r.value == Settings(s)[name]
  {
    Lookup(Settings(s), name)
  }

  /** Saving then reading a key gives back the saved value; saving one key
      does not change what another key reads as. */
  lemma SaveThenGet(s: Store, name: string, value: string, other: string)
    requires other != name
    ensures GetApiKey(SaveApiKey(s, name, value), name) == Some(value)
    ensures GetApiKey(SaveApiKey(s, name, value), other) == GetApiKey(s, other)
  {
  }

  /** `get_path_history`. */
  function PathHistory(s: Store): seq<string> {
    if s.history.Some? then s.history.value.recentPaths.GetOr([]) else []
  }

  /** `data.get("max_paths", 20)`. */
  function MaxPaths(s: Store): int {
    if s.history.Some? then s.history.value.maxPaths.GetOr(DefaultMaxPaths) else DefaultMaxPaths
  }

  /** The `max_paths` field as stored (absent in a file created by a save). */
  function StoredMaxPaths(s: Store): Option<int> {
    if s.history.Some? then s.history.value.maxPaths else None
  }

  /** Position of the first occurrence of `x`. */
  function IndexOf(s: seq<string>, x: string): (i: nat)
    requires x in s
    ensures i < |s| && s[i] == x && x !in s[..i]
  {
    if s[0] == x then 0
    else
      var i := IndexOf(s[1..], x);
      assert s[..i + 1] == [s[0]] + s[1..][..i];
      i + 1
  }

  /** Python's `list.remove(x)` when `x` is in the list (callers check
      `x in paths` first): the first occurrence goes, the rest keeps its
      order. */
  function RemoveFirst(s: seq<string>, x: string): (r: seq<string>)
    ensures x !in s ==> r == s
    ensures x in s ==> |r| == |s| - 1
    decreases |s|
  {
    if |s| == 0 then []
    else if s[0] == x then s[1..]
    else
      assert x in s ==> x in s[1..] by {
        assert s == [s[0]] + s[1..];
      }
      [s[0]] + RemoveFirst(s[1..], x)
  }

  /** What `list.remove` removes: the element at the first occurrence, and
      only that one. */
  lemma {:induction false} RemoveFirstSlices(s: seq<string>, x: string)
    requires x in s
    ensures RemoveFirst(s, x) == s[..IndexOf(s, x)] + s[IndexOf(s, x) + 1..]
  {
    if s[0] != x {
      var j := IndexOf(s, x);
      assert s[1..][j - 1] == x;
      var t := s[1..];
      RemoveFirstSlices(t, x);
      ConsCut(s, IndexOf(t, x));
    }
  }

  /** Cutting index `i + 1` out of `s` is keeping `s[0]` and cutting index
      `i` out of the tail. */
  lemma ConsCut(s: seq<string>, i: nat)
    requires i + 1 < |s|
    ensures [s[0]] + (s[1..][..i] + s[1..][i + 1..]) == s[..i + 1] + s[i + 2..]
  {
    assert s[..i + 1] == [s[0]] + s[1..][..i];
    assert s[i + 2..] == s[1..][i + 1..];
  }


  /** Removing a present element takes exactly one copy of it away. */
  lemma RemoveFirstCounts(s: seq<string>, x: string)
    requires x in s
    ensures multiset(RemoveFirst(s, x)) + multiset{x} == multiset(s)
    ensures |RemoveFirst(s, x)| == |s| - 1
  {
    var i := IndexOf(s, x);
    var r := RemoveFirst(s, x);
    RemoveFirstSlices(s, x);
    assert s == s[..i] + [x] + s[i + 1..];
    assert multiset(s) == multiset(s[..i]) + multiset{x} + multiset(s[i + 1..]);
    assert multiset(r) == multiset(s[..i]) + multiset(s[i + 1..]);
  }

  /** Python's `s[:n]`, where a negative `n` counts from the end. */
  function Take(s: seq<string>, n: int): (r: seq<string>)
    ensures n >= 0 ==> |r| == if n < |s| then n else |s|
    ensures n < 0 ==> |r| == if -n < |s| then |s| + n else 0
    ensures r == s[..|r|]
  {
    if n >= 0 then (if n < |s| then s[..n] else s)
    else if -n < |s| then s[..|s| + n] else []
  }

  /** `add_path_to_history`: an empty path or `output` is ignored; otherwise
      the path moves to the front (its first earlier occurrence removed) and
      the list is cut to `max_paths`. Only the history file changes. */
  function AddPath(s: Store, path: string): (r: Store)
    ensures path == "" || path == DefaultOutputDir ==> r == s
    ensures r.apiKeys == s.apiKeys && r.settings == s.settings
    ensures path != "" && path != DefaultOutputDir ==>
              && PathHistory(r) == Take([path] + RemoveFirst(PathHistory(s), path), MaxPaths(s))
              && MaxPaths(r) == MaxPaths(s)
  {
    if path == "" || path == DefaultOutputDir then s
    else
      var paths := PathHistory(s);
      var paths := if path in paths then RemoveFirst(paths, path) else paths;
      var paths := Take([path] + paths, MaxPaths(s));
      s.(history := Some(HistoryFile(Some(paths), StoredMaxPaths(s))))
  }

  /** `remove_path_from_history`: a path not in the history changes
      nothing; otherwise its first occurrence goes and the limit stays. */
  function RemovePath(s: Store, path: string): (r: Store)
    ensures path !in PathHistory(s) ==> r == s
    ensures path in PathHistory(s) ==>
              && PathHistory(r) == RemoveFirst(PathHistory(s), path)
              && |PathHistory(r)| == |PathHistory(s)| - 1
              && MaxPaths(r) == MaxPaths(s)
    ensures r.apiKeys == s.apiKeys && r.settings == s.settings
  {
    var paths := PathHistory(s);
    if path in paths then
      RemoveFirstCounts(paths, path);
      s.(history := Some(HistoryFile(Some(RemoveFirst(paths, path)), StoredMaxPaths(s))))
    else s
  }

  predicate NoDuplicates(s: seq<string>) {
    forall i, j :: 0 <= i < j < |s| ==> s[i] != s[j]
  }

  /** The elements of `s` other than `x`, in order. */
  function Without(s: seq<string>, x: string): (r: seq<string>)
    ensures x !in r
  {
    if |s| == 0 then [] else if s[0] == x then Without(s[1..], x) else [s[0]] + Without(s[1..], x)
  }

  /** In a list without duplicates, removing the first occurrence removes
      every occurrence. */
  lemma {:induction false} RemoveFirstIsWithout(s: seq<string>, x: string)
    requires NoDuplicates(s)
    ensures RemoveFirst(s, x) == Without(s, x)
  {
    if |s| > 0 {
      assert NoDuplicates(s[1..]) by {
        forall i, j | 0 <= i < j < |s[1..]|
          ensures s[1..][i] != s[1..][j]
        {
          assert s[1..][i] == s[i + 1] && s[1..][j] == s[j + 1];
        }
      }
      RemoveFirstIsWithout(s[1..], x);
      if s[0] == x {
        assert x !in s[1..] by {
          forall k | 0 <= k < |s[1..]|
            ensures s[1..][k] != x
          {
            assert s[1..][k] == s[k + 1];
          }
        }
        WithoutAbsent(s[1..], x);
      }
    }
  }

  lemma {:induction false} WithoutAbsent(s: seq<string>, x: string)
    requires x !in s
    ensures Without(s, x) == s
  {
    if |s| > 0 {
      assert x !in s[1..];
      WithoutAbsent(s[1..], x);
    }
  }

  lemma {:induction false} WithoutKeepsDistinct(s: seq<string>, x: string)
    requires NoDuplicates(s)
    ensures NoDuplicates(Without(s, x))
    ensures forall y :: y in Without(s, x) ==> y in s
  {
    if |s| > 0 {
      assert NoDuplicates(s[1..]) by {
        forall i, j | 0 <= i < j < |s[1..]|
          ensures s[1..][i] != s[1..][j]
        {
          assert s[1..][i] == s[i + 1] && s[1..][j] == s[j + 1];
        }
      }
      WithoutKeepsDistinct(s[1..], x);
      if s[0] != x {
        var w := Without(s[1..], x);
        assert s[0] !in s[1..] by {
          forall k | 0 <= k < |s[1..]|
            ensures s[1..][k] != s[0]
          {
            assert s[1..][k] == s[k + 1];
          }
        }
        assert s[0] !in w;
        assert Without(s, x) == [s[0]] + w;
      }
    }
  }

  lemma ConsDistinct(x: string, w: seq<string>)
    requires NoDuplicates(w) && x !in w
    ensures NoDuplicates([x] + w)
  {
    var full := [x] + w;
    forall i, j | 0 <= i < j < |full|
      ensures full[i] != full[j]
    {
      assert full[j] == w[j - 1];
      if i > 0 {
        assert full[i] == w[i - 1];
      }
    }
  }

  lemma TakeDistinct(s: seq<string>, n: int)
    requires NoDuplicates(s)
    ensures NoDuplicates(Take(s, n))
  {
    var t := Take(s, n);
    forall i, j | 0 <= i < j < |t|
      ensures t[i] != t[j]
    {
      assert t[i] == s[i] && t[j] == s[j];
    }
  }

  /** The list `add_path_to_history` writes, for a duplicate-free `before`
      and limit `n`. */
  lemma {:induction false} MoveToFront(before: seq<string>, path: string, n: int)
    requires NoDuplicates(before)
    ensures var h := Take([path] + RemoveFirst(before, path), n);
            && (n >= 1 ==> |h| >= 1 && h[0] == path)
            && (n >= 0 ==> |h| <= n)
            && NoDuplicates(h)
            && |h| <= |Without(before, path)| + 1
            && (|h| >= 1 ==> h[1..] == Without(before, path)[..|h| - 1])
  {
    RemoveFirstIsWithout(before, path);
    WithoutKeepsDistinct(before, path);
    var w := Without(before, path);
    var full := [path] + w;
    ConsDistinct(path, w);
    TakeDistinct(full, n);
    var h := Take(full, n);
    if |h| >= 1 {
      assert h[1..] == full[1..|h|];
      assert full[1..|h|] == w[..|h| - 1];
    }
  }

  /** Adding a path to a history without duplicates: the path comes first
      (when `max_paths` is at least one), the list stays within `max_paths`
      and duplicate-free, and the entries after the path are the old ones
      minus the path, in their old order, cut to length. */
  lemma AddPathHistory(s: Store, path: string)
    requires path != "" && path != DefaultOutputDir
    requires NoDuplicates(PathHistory(s))
    ensures MaxPaths(s) >= 1 ==> |PathHistory(AddPath(s, path))| >= 1 && PathHistory(AddPath(s, path))[0] == path
    ensures MaxPaths(s) >= 0 ==> |PathHistory(AddPath(s, path))| <= MaxPaths(s)
    ensures NoDuplicates(PathHistory(AddPath(s, path)))
    ensures 1 <= |PathHistory(AddPath(s, path))| <= |Without(PathHistory(s), path)| + 1 ==>
              PathHistory(AddPath(s, path))[1..] == Without(PathHistory(s), path)[..|PathHistory(AddPath(s, path))| - 1]
  {
    MoveToFront(PathHistory(s), path, MaxPaths(s));
  }

  /** The cut never drops more than the list holds: the history after an
      add has at most one entry more than before. */
  lemma AddPathGrowsByAtMostOne(s: Store, path: string)
    requires path != "" && path != DefaultOutputDir
    ensures |PathHistory(AddPath(s, path))| <= |PathHistory(s)| + 1
  {
    var before := PathHistory(s);
    if path in before {
      RemoveFirstCounts(before, path);
    }
  }

  /** With no history file yet, the list is capped at twenty entries. */
  lemma FreshHistoryCappedAtTwenty(s: Store, path: string)
    requires s.history.None?
    ensures |PathHistory(AddPath(s, path))| <= DefaultMaxPaths
  {
  }
}
