/** The data-only parts of how `Terria` starts up: the `baseUrl` option,
    configuration parameters, init sources and their fallback rule, the
    preparation of one model's stratum data, and how `applyInitData`
    resolves the workbench and timeline ids and the viewer and base-map
    settings. URI resolution and every load are outside the model: a URL is
    kept symbolically and a load is a given outcome. */
module InitData {
  import opened Wrappers
  import opened Strings
  import opened Json
  import opened Models
  import opened TerriaErrors
  import Registry
  import Workbench

  // ---------------------------------------------------------------------
  // baseUrl

  const DefaultBaseUrl: string := "build/TerriaJS/"

  /** The constructor's `baseUrl`: a non-empty option gets a trailing "/"
      unless its last "/" is already its last character. */
  function BaseUrl(option: Option<string>): (r: string)
    ensures option.None? || option.value == "" ==> r == DefaultBaseUrl
    ensures option.Some? && option.value != "" ==> |option.value| <= |r| && r[..|option.value|] == option.value
  {
    match option
    case None => DefaultBaseUrl
    case Some(u) =>
      if u == "" then DefaultBaseUrl
      else if LastIndexOf(u, '/') != |u| - 1 then u + "/"
      else u
  }

  /** The result always ends in "/", and an option already ending in "/" is kept. */
  lemma BaseUrlEndsInSlash(option: Option<string>)
    ensures var r := BaseUrl(option); |r| > 0 && r[|r| - 1] == '/'
    ensures option.Some? && |option.value| > 0 && option.value[|option.value| - 1] == '/' ==>
      BaseUrl(option) == option.value
  {
  }

  lemma BaseUrlIdempotent(option: Option<string>)
    ensures BaseUrl(Some(BaseUrl(option))) == BaseUrl(option)
  {
    BaseUrlEndsInSlash(option);
    BaseUrlEndsInSlash(Some(BaseUrl(option)));
  }

  // ---------------------------------------------------------------------
  // updateParameters

  /** The configuration parameters: the set of known keys is fixed; a known
      key's value may be `undefined` (`None`). */
  type Config = map<string, Option<Json>>

  /** The settings `updateParameters` refreshes besides the parameters. */
  datatype AppSettings = AppSettings(config: Config, appName: Json, supportEmail: Json)

  /** Cesium's `defaultValue(a, b)`: `a` unless it is `undefined` or `null`. */
  function DefaultValue(a: Option<Json>, b: Json): (r: Json)
    ensures a.Some? && a.value != JNull ==> r == a.value
    ensures a.None? || a.value == JNull ==> r == b
  {
    if a.Some? && a.value != JNull then a.value else b
  }

  /** `Object.entries(parameters).forEach(...)`: only keys the
      configuration already has are written. */
  function CopyKnown(config: Config, entries: seq<(string, Json)>): (c: Config)
    ensures c.Keys == config.Keys
    decreases |entries|
  {
    if entries == [] then config
    else
      var (k, v) := entries[0];
      CopyKnown(if k in config then config[k := Some(v)] else config, entries[1..])
  }

  /** The value an entry list gives a key last, if any. */
  function LastEntry(entries: seq<(string, Json)>, k: string): (r: Option<Json>)
    ensures r.None? <==> forall i :: 0 <= i < |entries| ==> entries[i].0 != k
  {
    if entries == [] then None
    else if entries[|entries| - 1].0 == k then Some(entries[|entries| - 1].1)
    else LastEntry(entries[..|entries| - 1], k)
  }

  /** The known keys end up with the last value given for them; all others keep theirs. */
  lemma {:induction false} CopyKnownLastWins(config: Config, entries: seq<(string, Json)>, k: string)
    requires k in config
    ensures LastEntry(entries, k).Some? ==> CopyKnown(config, entries)[k] == LastEntry(entries, k)
    ensures LastEntry(entries, k).None? ==> CopyKnown(config, entries)[k] == config[k]
    decreases |entries|
  {
    if entries != [] {
      var (k0, v0) := entries[0];
      var next := if k0 in config then config[k0 := Some(v0)] else config;
      CopyKnownLastWins(next, entries[1..], k);
      LastEntryCons(entries, k);
    }
  }

  lemma {:induction false} LastEntryCons(entries: seq<(string, Json)>, k: string)
    requires entries != []
    ensures LastEntry(entries, k) ==
      (if LastEntry(entries[1..], k).Some? then LastEntry(entries[1..], k)
       else if entries[0].0 == k then Some(entries[0].1) else None)
    decreases |entries|
  {
    if |entries| > 1 {
      var n := |entries| - 1;
      assert entries[1..][..n - 1] == entries[..n][1..];
      assert entries[1..][n - 1] == entries[n];
      if entries[n].0 != k {
        LastEntryCons(entries[..n], k);
      }
    }
  }

  /** `updateParameters`: copy the known keys, then refresh the application
      name and support email from them unless they are `undefined` or `null`. */
  function UpdateParameters(s: AppSettings, parameters: seq<(string, Json)>): (r: AppSettings)
    ensures r.config.Keys == s.config.Keys
    ensures "appName" in r.config ==> r.appName == DefaultValue(r.config["appName"], s.appName)
    ensures "appName" !in r.config ==> r.appName == s.appName
    ensures "supportEmail" in r.config ==> r.supportEmail == DefaultValue(r.config["supportEmail"], s.supportEmail)
    ensures "supportEmail" !in r.config ==> r.supportEmail == s.supportEmail
  {
    var c := CopyKnown(s.config, parameters);
    AppSettings(
      c,
      DefaultValue(if "appName" in c then c["appName"] else None, s.appName),
      DefaultValue(if "supportEmail" in c then c["supportEmail"] else None, s.supportEmail))
  }

  // ---------------------------------------------------------------------
  // Init sources

  /** A URL the model does not resolve: `URI.joinPaths(parts).absoluteTo(base)`. */
  datatype Url = Url(base: string, parts: seq<string>)

  /** An init source, with the outcome of its load where there is one. */
  datatype InitSource =
    | InitUrl(initUrl: string, load: Result<Json, Thrown>)
    | InitOptions(options: seq<InitSource>)
    | InitData(data: Json)
    /** A pending `Result`: its error, or its (possibly missing) `data`. */
    | InitDataPromise(outcome: Result<Option<Json>, TerriaError>)

  /** The shape `generateInitializationUrl` returns, before any load. */
  datatype InitSourceShape = UrlShape(url: Url) | OptionsShape(urls: seq<Url>)

  /** The last five characters, or the whole string when shorter (`substring` of a negative start). */
  function LastFive(s: string): (r: string)
    ensures |s| >= 5 ==> r == s[|s| - 5..]
    ensures |s| < 5 ==> r == s
  {
    if |s| >= 5 then s[|s| - 5..] else s
  }

  /** `generateInitializationUrl`: a name not ending in ".json" (ignoring
      case) becomes one option per fragment path, with ".json" appended. */
  function GenerateInitializationUrl(baseUri: string, fragmentPaths: seq<string>, url: string): (r: InitSourceShape)
    ensures ToLower(LastFive(url)) == ".json" ==> r == UrlShape(Url(baseUri, [url]))
    ensures ToLower(LastFive(url)) != ".json" ==>
      r.OptionsShape? && |r.urls| == |fragmentPaths| &&
      forall i :: 0 <= i < |fragmentPaths| ==> r.urls[i] == Url(baseUri, [fragmentPaths[i], url + ".json"])
  {
    if ToLower(LastFive(url)) != ".json" then
      OptionsShape(seq(|fragmentPaths|, i requires 0 <= i < |fragmentPaths| =>
        Url(baseUri, [fragmentPaths[i], url + ".json"])))
    else UrlShape(Url(baseUri, [url]))
  }

  /** Every URL generated for an init name ends, ignoring case, in ".json". */
  lemma GeneratedUrlsEndInJson(baseUri: string, fragmentPaths: seq<string>, url: string)
    ensures match GenerateInitializationUrl(baseUri, fragmentPaths, url)
      case UrlShape(u) => ToLower(LastFive(u.parts[|u.parts| - 1])) == ".json"
      case OptionsShape(us) => forall i :: 0 <= i < |us| ==> LastFive(us[i].parts[|us[i].parts| - 1]) == ".json"
  {
    var s := url + ".json";
    assert s[|s| - 5..] == ".json";
  }

  /** The object an init source yields, if any. */
  type Loaded = Result<Option<seq<(string, Json)>>, TerriaError>

  /** The final test of `loadInitSource`: only a truthy JSON object counts. */
  function AsObject(j: Option<Json>): (r: Option<seq<(string, Json)>>)
    ensures r.Some? <==> j.Some? && j.value.JObj?
    ensures r.Some? ==> j.value == JObj(r.value)
  {
    if j.Some? && j.value.JObj? then Some(j.value.fields) else None
  }

  function OptionsCount(src: InitSource): nat {
    if src.InitOptions? then |src.options| else 0
  }

  /** `loadInitSource`. A failed URL load is wrapped with the message key
      `models.terria.loadingInitJsonMessage`. */
  function LoadInitSource(src: InitSource): (r: Loaded)
    decreases src, OptionsCount(src) + 1
  {
    match src
    case InitUrl(url, load) =>
      (match load
       case Err(e) =>
         Err(From(e, Some(FieldOverrides(NoOverrides.(message :=
           Some(Key("models.terria.loadingInitJsonMessage", [("url", url)])))))))
       case Ok(j) => Ok(AsObject(Some(j))))
    case InitOptions(options) => LoadOptions(src, 0, None)
    case InitData(data) => Ok(AsObject(Some(data)))
    case InitDataPromise(outcome) =>
      (match outcome
       case Err(e) => Err(e)
       case Ok(j) => Ok(AsObject(j)))
  }

  /** The options loop from option `i` on, remembering the last error. */
  function LoadOptions(src: InitSource, i: nat, lastError: Option<TerriaError>): (r: Loaded)
    requires src.InitOptions? && i <= |src.options|
    decreases src, |src.options| - i
  {
    if i == |src.options| then
      (match lastError
       case Some(e) => Err(e)
       case None => Ok(None))
    else
      match LoadInitSource(src.options[i])
      case Ok(Some(v)) => Ok(Some(v))
      case Ok(None) => LoadOptions(src, i + 1, lastError)
      case Err(e) => LoadOptions(src, i + 1, Some(e))
  }

  /** No option before `k` yields an object. */
  predicate NoneBefore(options: seq<InitSource>, k: nat)
    requires k <= |options|
  {
    forall j :: 0 <= j < k ==> !(LoadInitSource(options[j]).Ok? && LoadInitSource(options[j]).value.Some?)
  }

  /** The first option that yields an object wins. */
  lemma {:induction false} FirstDefinedOptionWins(options: seq<InitSource>, k: nat)
    requires k < |options|
    requires NoneBefore(options, k)
    requires LoadInitSource(options[k]).Ok? && LoadInitSource(options[k]).value.Some?
    ensures LoadInitSource(InitOptions(options)) == LoadInitSource(options[k])
  {
    FirstDefinedFrom(InitOptions(options), 0, None, k);
  }

  lemma {:induction false} FirstDefinedFrom(src: InitSource, i: nat, lastError: Option<TerriaError>, k: nat)
    requires src.InitOptions? && i <= k < |src.options|
    requires forall j :: i <= j < k ==>
      !(LoadInitSource(src.options[j]).Ok? && LoadInitSource(src.options[j]).value.Some?)
    requires LoadInitSource(src.options[k]).Ok? && LoadInitSource(src.options[k]).value.Some?
    ensures LoadOptions(src, i, lastError) == LoadInitSource(src.options[k])
    decreases k - i
  {
    if i < k {
      match LoadInitSource(src.options[i])
      case Ok(None) => FirstDefinedFrom(src, i + 1, lastError, k);
      case Err(e) => FirstDefinedFrom(src, i + 1, Some(e), k);
    }
  }

  /** When no option yields an object, the result is the last failure, or
      nothing if none failed. */
  lemma {:induction false} NoOptionYields(options: seq<InitSource>)
    requires NoneBefore(options, |options|)
    ensures LastFailure(options, |options|).None? ==> LoadInitSource(InitOptions(options)) == Ok(None)
    ensures LastFailure(options, |options|).Some? ==>
      LoadInitSource(InitOptions(options)) == Err(LastFailure(options, |options|).value)
  {
    NoOptionFrom(InitOptions(options), 0, None);
  }

  /** The error of the last failing option before `k`. */
  function LastFailure(options: seq<InitSource>, k: nat): Option<TerriaError>
    requires k <= |options|
  {
    if k == 0 then None
    else if LoadInitSource(options[k - 1]).Err? then Some(LoadInitSource(options[k - 1]).error)
    else LastFailure(options, k - 1)
  }

  lemma {:induction false} NoOptionFrom(src: InitSource, i: nat, lastError: Option<TerriaError>)
    requires src.InitOptions? && i <= |src.options|
    requires NoneBefore(src.options, |src.options|)
    requires lastError == LastFailure(src.options, i)
    ensures LastFailure(src.options, |src.options|).None? ==> LoadOptions(src, i, lastError) == Ok(None)
    ensures LastFailure(src.options, |src.options|).Some? ==>
      LoadOptions(src, i, lastError) == Err(LastFailure(src.options, |src.options|).value)
    decreases |src.options| - i
  {
    if i < |src.options| {
      match LoadInitSource(src.options[i])
      case Ok(None) => NoOptionFrom(src, i + 1, lastError);
      case Err(e) => NoOptionFrom(src, i + 1, Some(e));
    }
  }

  /** An init source with its optional name. */
  datatype NamedSource = NamedSource(name: Option<string>, source: InitSource)

  /** The message override every per-source error gets. */
  function SourceErrorOverrides(name: Option<string>): Overrides {
    FieldOverrides(NoOverrides.(message := Some(Key("models.terria.loadingInitSourceError2Message",
      [("loadSource", name.GetOr("Unknown source"))]))))
  }

  /** The data and errors of the loading phase of `forceLoadInitSources`:
      each source is loaded; a failure becomes a wrapped error and that source
      yields no data. */
  datatype LoadedSources = LoadedSources(data: seq<(Option<string>, Option<seq<(string, Json)>>)>, errors: seq<TerriaError>)

  function LoadSources(sources: seq<NamedSource>): (r: LoadedSources)
    ensures |r.data| + |r.errors| == |sources|
    ensures |r.errors| == |FailedSources(sources)|
  {
    if sources == [] then LoadedSources([], [])
    else
      var rest := LoadSources(sources[1..]);
      var src := sources[0];
      match LoadInitSource(src.source)
      case Ok(d) => LoadedSources([(src.name, d)] + rest.data, rest.errors)
      case Err(e) => LoadedSources(rest.data, [SourceError(src)] + rest.errors)
  }

  /** Each failing source contributes its own error, in source order. */
  lemma {:induction false} LoadSourcesErrors(sources: seq<NamedSource>)
    ensures var r := LoadSources(sources);
      forall i :: 0 <= i < |r.errors| ==> r.errors[i] == SourceError(FailedSources(sources)[i])
  {
    if sources != [] {
      LoadSourcesErrors(sources[1..]);
      if LoadInitSource(sources[0].source).Err? {
        assert FailedSources(sources) == [sources[0]] + FailedSources(sources[1..]);
      } else {
        assert FailedSources(sources) == FailedSources(sources[1..]);
      }
    }
  }

  /** The error reported for a source whose load fails: its own error,
      with the message naming the source. */
  function SourceError(src: NamedSource): TerriaError
    requires LoadInitSource(src.source).Err?
  {
    From(ThrownTerria(LoadInitSource(src.source).error), Some(SourceErrorOverrides(src.name)))
  }

  /** The sources whose load fails, in order. */
  function FailedSources(sources: seq<NamedSource>): (r: seq<NamedSource>)
    ensures forall i :: 0 <= i < |r| ==> r[i] in sources && LoadInitSource(r[i].source).Err?
    ensures |r| <= |sources|
  {
    if sources == [] then []
    else (if LoadInitSource(sources[0].source).Err? then [sources[0]] else []) + FailedSources(sources[1..])
  }

  /** The final report: every error under one combined error, or none. */
  function CombineInitErrors(errors: seq<TerriaError>, appName: string, email: string): (r: Option<TerriaError>)
    ensures r.None? <==> errors == []
    ensures r.Some? ==> |r.value.originalError| == |errors|
    ensures r.Some? ==> forall i :: 0 <= i < |errors| ==> r.value.originalError[i] == FromTerria(errors[i])
    ensures r.Some? ==> r.value.title == Key("models.terria.loadingInitSourcesErrorTitle", [])
  {
    Combine(errors, FieldOverrides(NoOverrides.(
      title := Some(Key("models.terria.loadingInitSourcesErrorTitle", [])),
      message := Some(Key("models.terria.loadingInitSourcesErrorMessage",
                          [("appName", appName), ("email", email)])))))
  }

  // ---------------------------------------------------------------------
  // loadModelStratum: data preparation

  /** What `loadModelStratum` takes from the init data for one model. */
  datatype PreparedStratum = PreparedStratum(
    /** The traits to apply, without `dereferenced` and `knownContainerUniqueIds`, with `id` set. */
    traits: seq<(string, Json)>,
    /** `knownContainerUniqueIds`, when it is an array. */
    containerIds: Option<seq<Json>>,
    /** `dereferenced`, if present. */
    dereferenced: Option<Json>)

  /** `{...o, key: v}`: an existing key keeps its place, a new one goes last. */
  function SetKey(fields: seq<(string, Json)>, key: string, v: Json): (r: seq<(string, Json)>)
    ensures Lookup(r, key) == Some(v)
    ensures forall k :: k != key ==> Lookup(r, k) == Lookup(fields, k)
  {
    if fields == [] then [(key, v)]
    else if fields[0].0 == key then [(key, v)] + fields[1..]
    else [fields[0]] + SetKey(fields[1..], key, v)
  }

  const InvalidTraitsError: TerriaError :=
    New(Options(Plain("The traits of a model must be a JSON object."), Some(Plain("Invalid model traits")),
                None, None, None, None))

  /** The preparation steps of `loadModelStratum(modelId, …)`: a missing or
      falsy entry reads as `{}`; a non-object is an error. */
  function PrepareModelStratum(all: seq<(string, Json)>, modelId: string): (r: Result<PreparedStratum, TerriaError>)
    ensures r.Err? <==> TruthyOpt(Lookup(all, modelId)) && !Lookup(all, modelId).value.JObj?
    ensures r.Err? ==> r.error == InvalidTraitsError
    ensures r.Ok? ==>
      Lookup(r.value.traits, "dereferenced").None? &&
      Lookup(r.value.traits, "knownContainerUniqueIds").None? &&
      Lookup(r.value.traits, "id") == Some(JStr(modelId))
    ensures r.Ok? ==> forall k :: k != "dereferenced" && k != "knownContainerUniqueIds" && k != "id" ==>
      Lookup(r.value.traits, k) == Field(StratumData(all, modelId), k)
  {
    var data := StratumData(all, modelId);
    if !data.JObj? then Err(InvalidTraitsError)
    else
      var clean := Delete(Delete(data.fields, "dereferenced"), "knownContainerUniqueIds");
      DeleteLookup(data.fields, "dereferenced");
      DeleteLookup(Delete(data.fields, "dereferenced"), "knownContainerUniqueIds");
      var ids := Lookup(data.fields, "knownContainerUniqueIds");
      Ok(PreparedStratum(
        SetKey(clean, "id", JStr(modelId)),
        if ids.Some? && ids.value.JArr? then Some(ids.value.items) else None,
        Lookup(data.fields, "dereferenced")))
  }

  /** `allModelStratumData[modelId] || {}`. */
  function StratumData(all: seq<(string, Json)>, modelId: string): (j: Json)
    ensures TruthyOpt(Lookup(all, modelId)) ==> j == Lookup(all, modelId).value
    ensures !TruthyOpt(Lookup(all, modelId)) ==> j == JObj([])
  {
    var d := Lookup(all, modelId);
    if TruthyOpt(d) then d.value else JObj([])
  }

  lemma {:induction false} DeleteLookup(fields: seq<(string, Json)>, key: string)
    ensures Lookup(Delete(fields, key), key).None?
    ensures forall k :: k != key ==> Lookup(Delete(fields, key), k) == Lookup(fields, k)
  {
    if fields != [] {
      DeleteLookup(fields[1..], key);
    }
  }

  /** The container-id merge: each string id not yet known is appended;
      other values are skipped. */
  function MergeContainerIds(known: seq<string>, containerIds: seq<Json>): (r: seq<string>)
    ensures |known| <= |r| && r[..|known|] == known
    ensures forall i :: 0 <= i < |containerIds| && containerIds[i].JStr? ==> containerIds[i].s in r
    ensures forall x :: x in r ==> x in known || JStr(x) in containerIds
    decreases |containerIds|
  {
    if containerIds == [] then known
    else
      var next := if containerIds[0].JStr? then AddIfAbsent(known, containerIds[0].s) else known;
      var r := MergeContainerIds(next, containerIds[1..]);
      assert r[..|known|] == r[..|next|][..|known|];
      r
  }

  predicate NoDuplicates(s: seq<string>) {
    forall i, j :: 0 <= i < j < |s| ==> s[i] != s[j]
  }

  /** The merge never introduces a duplicate. */
  lemma {:induction false} MergeKeepsUnique(known: seq<string>, containerIds: seq<Json>)
    requires NoDuplicates(known)
    ensures NoDuplicates(MergeContainerIds(known, containerIds))
    decreases |containerIds|
  {
    if containerIds != [] {
      var next := if containerIds[0].JStr? then AddIfAbsent(known, containerIds[0].s) else known;
      assert NoDuplicates(next);
      MergeKeepsUnique(next, containerIds[1..]);
    }
  }

  /** Merging the same ids twice changes nothing the second time. */
  lemma MergeIdempotent(known: seq<string>, containerIds: seq<Json>)
    ensures MergeContainerIds(MergeContainerIds(known, containerIds), containerIds) ==
            MergeContainerIds(known, containerIds)
  {
    var once := MergeContainerIds(known, containerIds);
    MergeNoop(once, containerIds);
  }

  lemma {:induction false} MergeNoop(known: seq<string>, containerIds: seq<Json>)
    requires forall i :: 0 <= i < |containerIds| && containerIds[i].JStr? ==> containerIds[i].s in known
    ensures MergeContainerIds(known, containerIds) == known
    decreases |containerIds|
  {
    if containerIds != [] {
      MergeNoop(known, containerIds[1..]);
    }
  }

  /** What happens to the `dereferenced` traits. */
  datatype DereferencedAction =
    | NoTargetUpdate
    /** Apply these traits to the reference's target. */
    | UpdateTarget(traits: Json)
    /** The "Model cannot be dereferenced" error. */
    | CannotDereference

  /** The `dereferenced` handling of `loadModelStratum`. When replacing a
      stratum of a reference that already has a target, a missing
      `dereferenced` is taken as `{}` so that the target's stratum is
      replaced too. `targetAfterLoad` is whether the target exists once
      `loadReference` has run. */
  function DereferencedStep(dereferenced: Option<Json>, loaded: bool, replaceStratum: bool,
                            isReference: bool, hasTarget: bool, targetAfterLoad: bool): (r: DereferencedAction)
    ensures r == CannotDereference <==> !(loaded && isReference) && TruthyOpt(dereferenced)
    ensures r.UpdateTarget? <==> loaded && isReference && targetAfterLoad
    ensures r.UpdateTarget? && TruthyOpt(dereferenced) ==> r.traits == dereferenced.value
    ensures r.UpdateTarget? && !TruthyOpt(dereferenced) ==> r.traits == JObj([])
  {
    var d := if loaded && replaceStratum && dereferenced.None? && isReference && hasTarget
             then Some(JObj([])) else dereferenced;
    if loaded && isReference then
      if targetAfterLoad then UpdateTarget(if TruthyOpt(d) then d.value else JObj([]))
      else NoTargetUpdate
    else if TruthyOpt(d) then CannotDereference
    else NoTargetUpdate
  }

  // ---------------------------------------------------------------------
  // applyInitData

  /** `initData.stratum` when it is a string, else the definition stratum. */
  function StratumId(initData: seq<(string, Json)>): (r: string)
    ensures Lookup(initData, "stratum").Some? && Lookup(initData, "stratum").value.JStr? ==>
      r == Lookup(initData, "stratum").value.s
    ensures !(Lookup(initData, "stratum").Some? && Lookup(initData, "stratum").value.JStr?) ==> r == "definition"
  {
    match Lookup(initData, "stratum")
    case Some(JStr(s)) => s
    case _ => "definition"
  }

  datatype ViewerMode = Cesium | Leaflet

  datatype Viewer = Viewer(mode: ViewerMode, useTerrain: bool)

  /** The `viewerMode` switch: "3d" (Cesium with terrain), "3dsmooth"
      (Cesium without terrain), "2d" (Leaflet), compared in lower case;
      anything else leaves the viewer alone. */
  function ApplyViewerMode(v: Viewer, viewerMode: Option<Json>): (r: Viewer)
    ensures !(viewerMode.Some? && viewerMode.value.JStr?) ==> r == v
    ensures viewerMode.Some? && viewerMode.value.JStr? ==>
      var m := ToLower(viewerMode.value.s);
      (m == "3d" ==> r == Viewer(Cesium, true)) &&
      (m == "3dsmooth" ==> r == Viewer(Cesium, false)) &&
      (m == "2d" ==> r == v.(mode := Leaflet)) &&
      (m != "3d" && m != "3dsmooth" && m != "2d" ==> r == v)
  {
    match viewerMode
    case Some(JStr(s)) =>
      var m := ToLower(s);
      if m == "3d" then Viewer(Cesium, true)
      else if m == "3dsmooth" then Viewer(Cesium, false)
      else if m == "2d" then v.(mode := Leaflet)
      else v
    case _ => v
  }

  /** "3D", "3d" and "3D" spelled any way select the same mode. */
  lemma ViewerModeIgnoresCase(v: Viewer, s: string, t: string)
    requires ToLower(s) == ToLower(t)
    ensures ApplyViewerMode(v, Some(JStr(s))) == ApplyViewerMode(v, Some(JStr(t)))
  {
  }

  const DefaultPreviewBaseMapId: string := "basemap-positron"

  datatype BaseMapIds = BaseMapIds(initBaseMapId: Option<string>, previewBaseMapId: string)

  /** `baseMapId` and `previewBaseMapId` from the init data: an explicit
      preview id wins, else a non-empty initial base map becomes the preview. */
  function ApplyBaseMapIds(b: BaseMapIds, baseMapId: Option<Json>, previewBaseMapId: Option<Json>): (r: BaseMapIds)
    ensures baseMapId.Some? && baseMapId.value.JStr? ==> r.initBaseMapId == Some(baseMapId.value.s)
    ensures !(baseMapId.Some? && baseMapId.value.JStr?) ==> r.initBaseMapId == b.initBaseMapId
    ensures previewBaseMapId.Some? && previewBaseMapId.value.JStr? ==>
      r.previewBaseMapId == previewBaseMapId.value.s
    ensures !(previewBaseMapId.Some? && previewBaseMapId.value.JStr?) ==>
      (r.initBaseMapId.Some? && r.initBaseMapId.value != "" ==> r.previewBaseMapId == r.initBaseMapId.value) &&
      (r.initBaseMapId.None? || r.initBaseMapId.value == "" ==> r.previewBaseMapId == b.previewBaseMapId)
  {
    var init := match baseMapId
      case Some(JStr(s)) => Some(s)
      case _ => b.initBaseMapId;
    var preview := match previewBaseMapId
      case Some(JStr(s)) => s
      case _ => if init.Some? && init.value != "" then init.value else b.previewBaseMapId;
    BaseMapIds(init, preview)
  }

  const InvalidWorkbenchIdError: TerriaError :=
    New(Options(Plain("A model ID in the workbench list is not a string."), Some(Plain("Invalid model ID in workbench")),
                None, None, None, None))

  const InvalidTimelineIdError: TerriaError :=
    New(Options(Plain("A model ID in the timneline list is not a string."), Some(Plain("Invalid model ID in timeline")),
                None, None, None, None))

  /** `initData.workbench` or `initData.timeline` copied when it is an array, else `[]`. */
  function ArrayOrEmpty(j: Option<Json>): (r: seq<Json>)
    ensures j.Some? && j.value.JArr? ==> r == j.value.items
    ensures !(j.Some? && j.value.JArr?) ==> r == []
  {
    if j.Some? && j.value.JArr? then j.value.items else []
  }

  /** Number of non-string entries. */
  function NonStrings(ids: seq<Json>): (n: nat)
    ensures n <= |ids|
  {
    if ids == [] then 0 else (if ids[0].JStr? then 0 else 1) + NonStrings(ids[1..])
  }

  /** The new workbench contents: each string id resolved by id or share key;
      unresolved ids are dropped and every non-string id is one error. */
  function ResolveWorkbench(reg: Registry.Registry, ids: seq<Json>): (r: (seq<Ref>, seq<TerriaError>))
    ensures |r.0| <= |ids|
    ensures |r.1| == NonStrings(ids)
    ensures forall i :: 0 <= i < |r.1| ==> r.1[i] == InvalidWorkbenchIdError
    ensures forall m :: m in r.0 ==>
      exists i :: 0 <= i < |ids| && ids[i].JStr? && Registry.GetModelByIdOrShareKey(reg, ids[i].s) == Some(m)
    ensures forall i :: 0 <= i < |ids| && ids[i].JStr? && Registry.GetModelByIdOrShareKey(reg, ids[i].s).Some? ==>
      Registry.GetModelByIdOrShareKey(reg, ids[i].s).value in r.0
  {
    if ids == [] then ([], [])
    else
      var rest := ResolveWorkbench(reg, ids[1..]);
      assert forall i :: 0 < i < |ids| ==> ids[i] == ids[1..][i - 1];
      match ids[0]
      case JStr(s) =>
        (match Registry.GetModelByIdOrShareKey(reg, s)
         case Some(m) => ([m] + rest.0, rest.1)
         case None => rest)
      case _ => (rest.0, [InvalidWorkbenchIdError] + rest.1)
  }

  /** One entry on its own: a resolved string id gives its model, an
      unresolved one nothing, anything else one error. */
  lemma ResolveWorkbenchSingle(reg: Registry.Registry, j: Json)
    ensures ResolveWorkbench(reg, [j]) ==
      (if j.JStr? && Registry.GetModelByIdOrShareKey(reg, j.s).Some?
       then [Registry.GetModelByIdOrShareKey(reg, j.s).value] else [],
       if j.JStr? then [] else [InvalidWorkbenchIdError])
  {
    assert [j][1..] == [];
    assert ResolveWorkbench(reg, []) == ([], []);
    if j.JStr? {
      var m := Registry.GetModelByIdOrShareKey(reg, j.s);
      if m.Some? {
        assert ResolveWorkbench(reg, [j]) == ([m.value] + [], []);
        assert [m.value] + [] == [m.value];
      }
    } else {
      assert [InvalidWorkbenchIdError] + [] == [InvalidWorkbenchIdError];
    }
  }

  /** The entries are resolved in order: the models and errors of `a + b` are
      those of `a` followed by those of `b`. */
  lemma {:induction false} ResolveWorkbenchAppend(reg: Registry.Registry, a: seq<Json>, b: seq<Json>)
    ensures ResolveWorkbench(reg, a + b) ==
      (ResolveWorkbench(reg, a).0 + ResolveWorkbench(reg, b).0,
       ResolveWorkbench(reg, a).1 + ResolveWorkbench(reg, b).1)
    decreases |a|
  {
    if a == [] {
      assert a + b == b;
      assert ResolveWorkbench(reg, a) == ([], []);
      assert [] + ResolveWorkbench(reg, b).0 == ResolveWorkbench(reg, b).0;
      assert [] + ResolveWorkbench(reg, b).1 == ResolveWorkbench(reg, b).1;
    } else {
      assert (a + b)[0] == a[0];
      assert (a + b)[1..] == a[1..] + b;
      ResolveWorkbenchAppend(reg, a[1..], b);
      var ra := ResolveWorkbench(reg, a[1..]);
      var rb := ResolveWorkbench(reg, b);
      if a[0].JStr? {
        var m := Registry.GetModelByIdOrShareKey(reg, a[0].s);
        if m.Some? {
          assert ResolveWorkbench(reg, a) == ([m.value] + ra.0, ra.1);
          assert ResolveWorkbench(reg, a + b) == ([m.value] + (ra.0 + rb.0), ra.1 + rb.1);
          assert [m.value] + (ra.0 + rb.0) == ([m.value] + ra.0) + rb.0;
        }
      } else {
        assert ResolveWorkbench(reg, a + b) == (ra.0 + rb.0, [InvalidWorkbenchIdError] + (ra.1 + rb.1));
        assert [InvalidWorkbenchIdError] + (ra.1 + rb.1) == ([InvalidWorkbenchIdError] + ra.1) + rb.1;
      }
    }
  }

  /** The timeline ids, each resolved to a model id: kept when it is a model
      id, otherwise replaced by the id its share key maps to, if any. */
  function ResolveTimeline(reg: Registry.Registry, ids: seq<Json>): (r: (set<string>, seq<TerriaError>))
    ensures |r.1| == NonStrings(ids)
    ensures forall i :: 0 <= i < |r.1| ==> r.1[i] == InvalidTimelineIdError
    ensures forall id :: id in r.0 <==> exists i :: 0 <= i < |ids| && ids[i].JStr? && TimelineId(reg, ids[i].s) == Some(id)
  {
    if ids == [] then ({}, [])
    else
      var rest := ResolveTimeline(reg, ids[1..]);
      assert forall i :: 0 < i < |ids| ==> ids[i] == ids[1..][i - 1];
      match ids[0]
      case JStr(s) =>
        (match TimelineId(reg, s)
         case Some(id) =>
           assert TimelineId(reg, ids[0].s) == Some(id);
           (rest.0 + {id}, rest.1)
         case None => rest)
      case _ => (rest.0, [InvalidTimelineIdError] + rest.1)
  }

  function TimelineId(reg: Registry.Registry, s: string): (r: Option<string>)
    ensures s in reg.models ==> r == Some(s)
    ensures s !in reg.models ==> r == Registry.GetModelIdByShareKey(reg, s)
  {
    if Registry.GetModelById(reg, s).Some? then Some(s) else Registry.GetModelIdByShareKey(reg, s)
  }

  /** The timeline stack: the workbench items, in workbench order, whose
      non-empty `uniqueId` is among the resolved timeline ids. */
  function TimelineStack(h: Heap, items: seq<Ref>, timeline: set<string>): (r: seq<Ref>)
    ensures |r| <= |items|
    ensures forall x :: x in r <==> x in items && OnTimeline(h, x, timeline)
  {
    if items == [] then []
    else (if OnTimeline(h, items[0], timeline) then [items[0]] else []) + TimelineStack(h, items[1..], timeline)
  }

  /** The filter keeps workbench order: the stack of `a + b` is that of `a`
      followed by that of `b`. */
  lemma {:induction false} TimelineStackAppend(h: Heap, a: seq<Ref>, b: seq<Ref>, timeline: set<string>)
    ensures TimelineStack(h, a + b, timeline) == TimelineStack(h, a, timeline) + TimelineStack(h, b, timeline)
    decreases |a|
  {
    if a == [] {
      assert a + b == b;
    } else {
      assert (a + b)[0] == a[0];
      assert (a + b)[1..] == a[1..] + b;
      TimelineStackAppend(h, a[1..], b, timeline);
    }
  }

  /** When every item is on the timeline the stack is the whole workbench,
      in its order. */
  lemma {:induction false} TimelineStackAll(h: Heap, items: seq<Ref>, timeline: set<string>)
    requires forall i :: 0 <= i < |items| ==> OnTimeline(h, items[i], timeline)
    ensures TimelineStack(h, items, timeline) == items
    decreases |items|
  {
    if items != [] {
      assert forall i :: 0 <= i < |items[1..]| ==> items[1..][i] == items[i + 1];
      TimelineStackAll(h, items[1..], timeline);
    }
  }

  predicate OnTimeline(h: Heap, item: Ref, timeline: set<string>) {
    var id := Get(h, item).uniqueId;
    id.Some? && id.value != "" && id.value in timeline
  }

  /** What `applyInitData` sets from `workbench` and `timeline`. */
  datatype WorkbenchAndTimeline = WorkbenchAndTimeline(stored: seq<Ref>, timelineStack: seq<Ref>, errors: seq<TerriaError>)

  /** The workbench is replaced through the `items` setter; the timeline
      stack is filtered from the new, dereferenced `items`. Workbench errors
      come before timeline errors. */
  function ApplyWorkbenchAndTimeline(h: Heap, reg: Registry.Registry, initData: seq<(string, Json)>): (r: WorkbenchAndTimeline)
    ensures var wb := ArrayOrEmpty(Lookup(initData, "workbench"));
      var tl := ArrayOrEmpty(Lookup(initData, "timeline"));
      r.stored == ResolveWorkbench(reg, wb).0 &&
      |r.errors| == NonStrings(wb) + NonStrings(tl) &&
      (forall i :: 0 <= i < NonStrings(wb) ==> r.errors[i] == InvalidWorkbenchIdError) &&
      (forall i :: NonStrings(wb) <= i < |r.errors| ==> r.errors[i] == InvalidTimelineIdError) &&
      r.timelineStack == TimelineStack(h, Workbench.Items(h, r.stored), ResolveTimeline(reg, tl).0)
  {
    var wb := ResolveWorkbench(reg, ArrayOrEmpty(Lookup(initData, "workbench")));
    var tl := ResolveTimeline(reg, ArrayOrEmpty(Lookup(initData, "timeline")));
    var stored := Workbench.SetItems(h, [], wb.0);
    WorkbenchAndTimeline(stored, TimelineStack(h, Workbench.Items(h, stored), tl.0), wb.1 + tl.1)
  }
}
