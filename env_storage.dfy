/**
 * The storage roots shared by compareset_env.py and config_env.py: the
 * server tree under `SERVER_ROOT` and the local tree under
 * `LOCAL_BASE_DIR`. `LOCALAPPDATA` (or the home directory) is a parameter.
 */
module Storage {
  import opened Text

  /** `os.path.join(a, b)` on Windows for a relative component `b`. */
  function PathJoin(a: string, b: string): (r: string)
    ensures StartsWith(r, a)
  {
    if a == [] then b
    else if a[|a| - 1] in {'\\', '/', ':'} then a + b
    else a + "\\" + b
  }

  const ServerRoot: string := "\\\\SV10351\\Drawing Center\\Apps\\CompareSet"
  const ServerDataRoot: string := PathJoin(ServerRoot, "Data")
  const ServerResultsRoot: string := PathJoin(ServerDataRoot, "Results")
  const ServerLogsRoot: string := PathJoin(ServerDataRoot, "Logs")
  const ServerErrorLogsRoot: string := PathJoin(ServerLogsRoot, "Error")
  const ServerConfigRoot: string := PathJoin(ServerDataRoot, "Config")
  const ServerReleasedRoot: string := PathJoin(ServerDataRoot, "Released")

  /** `LOCAL_BASE_DIR` for a given `LOCAL_APPDATA`. */
  function LocalBase(appData: string): string { PathJoin(appData, "CompareSet") }

  /** `DATA_ROOT` and the eight other active directories. */
  datatype Roots = Roots(data: string, results: string, logs: string, errorLogs: string,
                         config: string, released: string, history: string, log: string, output: string)
  {
    /** The roots in the order `ensure_directories` visits them. */
    function All(): seq<string> { [data, results, logs, errorLogs, config, released, history, log, output] }
  }

  /** The state before any `set_connection_state`: every root empty. */
  const NoRoots: Roots := Roots("", "", "", "", "", "", "", "", "")

  /** The roots chosen for local or server storage, the local tree under `base`. */
  function StorageRoots(useLocal: bool, base: string): Roots {
    if useLocal then
      var logDir := PathJoin(base, "logs");
      var output := PathJoin(base, "output");
      Roots(PathJoin(base, "data"), output, logDir, PathJoin(logDir, "error"), PathJoin(base, "config"),
            PathJoin(base, "released"), PathJoin(base, "history"), logDir, output)
    else
      Roots(ServerDataRoot, ServerResultsRoot, ServerLogsRoot, ServerErrorLogsRoot, ServerConfigRoot,
            ServerReleasedRoot, ServerResultsRoot, ServerLogsRoot, ServerResultsRoot)
  }

  /** With local storage every root lies under the local base directory. */
  lemma LocalRootsUnderBase(base: string)
    ensures forall p :: p in StorageRoots(true, base).All() ==> StartsWith(p, base)
  {
    var logDir := PathJoin(base, "logs");
    assert StartsWith(PathJoin(logDir, "error"), logDir);
    assert StartsWith(PathJoin(logDir, "error"), base);
  }

  /**
   * With server storage the history and output directories are both the
   * server results root, and every root lies under `SERVER_ROOT`.
   */
  lemma ServerRootsShared(base: string)
    ensures var r := StorageRoots(false, base);
            r.history == r.results == r.output == ServerResultsRoot && r.log == r.logs
    ensures forall p :: p in StorageRoots(false, base).All() ==> StartsWith(p, ServerRoot)
  {
    assert StartsWith(ServerResultsRoot, ServerDataRoot);
    assert StartsWith(ServerLogsRoot, ServerDataRoot);
    assert StartsWith(ServerErrorLogsRoot, ServerLogsRoot);
    assert StartsWith(ServerConfigRoot, ServerDataRoot);
    assert StartsWith(ServerReleasedRoot, ServerDataRoot);
  }

  /** No chosen root is empty. */
  lemma RootsNonEmpty(useLocal: bool, base: string)
    ensures forall p :: p in StorageRoots(useLocal, base).All() ==> p != ""
  {
  }
}

/**
 * compareset_env.py: the module's globals become the fields of one object;
 * `DEV_MODE`, `CURRENT_USER` and `LOCALAPPDATA` are read once at start-up and
 * are constructor parameters here.
 */
module CompareSetEnv {
  import opened Wrappers
  import opened Text
  import opened LongPath
  import opened Storage

  /** `OFFLINE_ALLOWED_USERS`. */
  const OfflineAllowedUsers: set<string> := {"doliveira12"}

  /** `is_server_available`: a non-empty root that exists (the existence check is a parameter). */
  function IsServerAvailable(serverRoot: string, reachable: bool): (r: bool)
    ensures r <==> serverRoot != "" && reachable
  {
    serverRoot != "" && reachable
  }

  /** The long paths `ensure_directories` creates, in order: every non-empty root. */
  function DirsToCreate(paths: seq<string>, absPath: string -> string): seq<string> {
    if paths == [] then []
    else
      var p := paths[|paths| - 1];
      DirsToCreate(paths[..|paths| - 1], absPath) + (if p == "" then [] else [MakeLongPathEnv(p, absPath)])
  }

  /** Every directory created is long-path prefixed, one per non-empty root at most. */
  lemma {:induction false} DirsToCreateLaws(paths: seq<string>, absPath: string -> string)
    ensures |DirsToCreate(paths, absPath)| <= |paths|
    ensures forall d :: d in DirsToCreate(paths, absPath) ==> StartsWith(d, LongPrefix)
    ensures forall p :: p in paths && p != "" ==> MakeLongPathEnv(p, absPath) in DirsToCreate(paths, absPath)
    ensures forall d :: d in DirsToCreate(paths, absPath) ==>
              exists p :: p in paths && p != "" && d == MakeLongPathEnv(p, absPath)
  {
    if paths != [] {
      var init := paths[..|paths| - 1];
      DirsToCreateLaws(init, absPath);
      assert forall p :: p in paths ==> p in init || p == paths[|paths| - 1];
    }
  }

  class Env {
    const devMode: bool
    const currentUser: string
    const localBase: string
    var serverOnline: bool
    var offlineMode: bool
    var devServerOverride: Option<bool>
    var roots: Roots

    /** The values at import time. */
    constructor(devMode: bool, currentUser: string, localAppData: string)
      ensures this.devMode == devMode && this.currentUser == currentUser
      ensures localBase == LocalBase(localAppData)
      ensures !serverOnline && !offlineMode && devServerOverride == None && roots == NoRoots
    {
      this.devMode := devMode;
      this.currentUser := currentUser;
      localBase := LocalBase(localAppData);
      serverOnline := false;
      offlineMode := false;
      devServerOverride := None;
      roots := NoRoots;
    }

    /** `IS_TESTER`. */
    predicate IsTester() { currentUser in OfflineAllowedUsers }

    /** `set_dev_server_override`: kept only in developer mode. */
    method SetDevServerOverride(state: Option<bool>)
      modifies this
      ensures devServerOverride == (if devMode then state else None)
      ensures serverOnline == old(serverOnline) && offlineMode == old(offlineMode) && roots == old(roots)
    {
      devServerOverride := if devMode then state else None;
    }

    /** `_determine_storage_paths`. */
    method DetermineStoragePaths(useLocal: bool)
      modifies this
      ensures roots == StorageRoots(useLocal, localBase)
      ensures serverOnline == old(serverOnline) && offlineMode == old(offlineMode)
      ensures devServerOverride == old(devServerOverride)
    {
      roots := StorageRoots(useLocal, localBase);
    }

    /**
     * `set_connection_state`: the override, when set, wins over the probe;
     * local storage is used iff offline and in developer mode or an allowed user.
     */
    method SetConnectionState(probe: bool)
      modifies this
      ensures serverOnline == (if devServerOverride.Some? then devServerOverride.value else probe)
      ensures offlineMode == !serverOnline
      ensures roots == StorageRoots(offlineMode && (devMode || currentUser in OfflineAllowedUsers), localBase)
      ensures devServerOverride == old(devServerOverride)
    {
      var effective := if devServerOverride.Some? then devServerOverride.value else probe;
      serverOnline := effective;
      offlineMode := !serverOnline;
      var useLocal := offlineMode && (devMode || currentUser in OfflineAllowedUsers);
      DetermineStoragePaths(useLocal);
    }

    /**
     * `ensure_directories`: the long paths it asks to create. Nothing when
     * offline outside developer mode.
     */
    method EnsureDirectories(absPath: string -> string) returns (created: seq<string>)
      ensures created == (if offlineMode && !devMode then [] else DirsToCreate(roots.All(), absPath))
    {
      created := [];
      if offlineMode && !devMode {
        return;
      }
      var paths := roots.All();
      var i := 0;
      while i < |paths|
        invariant 0 <= i <= |paths| && created == DirsToCreate(paths[..i], absPath)
      {
        assert paths[..i + 1][..i] == paths[..i];
        var path := paths[i];
        i := i + 1;
        if path == "" {
          continue;
        }
        created := created + [MakeLongPathEnv(path, absPath)];
      }
      assert paths[..i] == paths;
    }
  }

  /**
   * After `set_connection_state` with local storage chosen, every directory
   * `ensure_directories` creates is the long form of a path under the local
   * base directory, and with server storage the long form of a path under
   * `SERVER_ROOT`; offline outside developer mode with an allowed user the
   * roots are local but nothing is created.
   */
  lemma ConnectionThenDirectories(devMode: bool, user: string, base: string, online: bool,
                                  absPath: string -> string)
    ensures var useLocal := !online && (devMode || user in OfflineAllowedUsers);
            var created := if !online && !devMode then [] else DirsToCreate(StorageRoots(useLocal, base).All(), absPath);
            (!online && !devMode ==> created == [])
            && (online ==> |created| == 9)
            && (useLocal ==> forall d :: d in created ==>
                  exists p :: StartsWith(p, base) && d == MakeLongPathEnv(p, absPath))
            && (!useLocal ==> forall d :: d in created ==>
                  exists p :: StartsWith(p, ServerRoot) && d == MakeLongPathEnv(p, absPath))
  {
    var useLocal := !online && (devMode || user in OfflineAllowedUsers);
    if useLocal {
      LocalRootsUnderBase(base);
      CreatedUnder(StorageRoots(useLocal, base).All(), base, absPath);
    } else {
      ServerRootsShared(base);
      CreatedUnder(StorageRoots(useLocal, base).All(), ServerRoot, absPath);
    }
    if online {
      DirsAllNonEmpty(StorageRoots(useLocal, base).All(), absPath);
      RootsNonEmpty(useLocal, base);
    }
  }

  /** When every root lies under `prefix`, every directory created is the long form of a path under it. */
  lemma CreatedUnder(paths: seq<string>, prefix: string, absPath: string -> string)
    requires forall p :: p in paths ==> StartsWith(p, prefix)
    ensures forall d :: d in DirsToCreate(paths, absPath) ==>
              exists p :: StartsWith(p, prefix) && d == MakeLongPathEnv(p, absPath)
  {
    DirsToCreateLaws(paths, absPath);
  }

  /** With no empty root, one directory per root. */
  lemma {:induction false} DirsAllNonEmpty(paths: seq<string>, absPath: string -> string)
    requires forall k :: 0 <= k < |paths| ==> paths[k] != ""
    ensures |DirsToCreate(paths, absPath)| == |paths|
  {
    if paths != [] {
      DirsAllNonEmpty(paths[..|paths| - 1], absPath);
    }
  }
}

/**
 * config_env.py: the older variant, without developer mode or override,
 * where only allowed users get local storage.
 */
module ConfigEnv {
  import opened Text
  import opened Storage
  import CompareSetEnv

  const OfflineAllowedUsers: set<string> := {"doliveira12"}
  const LocalStorageAllowedUsers: set<string> := {"doliveira12"}

  /** `is_tester_user`. */
  function IsTesterUser(username: string): (r: bool)
    ensures r <==> username == "doliveira12"
  {
    username in LocalStorageAllowedUsers
  }

  /** `is_server_available`: False for an empty or blank root, else whether it exists. */
  function IsServerAvailable(serverRoot: string, reachable: bool): (r: bool)
    ensures (serverRoot == "" || Strip(serverRoot) == "") ==> !r
    ensures Strip(serverRoot) != "" ==> (r <==> reachable)
  {
    if serverRoot == "" || Strip(serverRoot) == "" then false else reachable
  }

  class Config {
    const currentUser: string
    const localBase: string
    var serverOnline: bool
    var offlineMode: bool
    var roots: Roots

    constructor(currentUser: string, localAppData: string)
      ensures this.currentUser == currentUser && localBase == LocalBase(localAppData)
      ensures !serverOnline && !offlineMode && roots == NoRoots
    {
      this.currentUser := currentUser;
      localBase := LocalBase(localAppData);
      serverOnline := false;
      offlineMode := false;
      roots := NoRoots;
    }

    /** `set_connection_state`: local roots iff offline and an allowed user. */
    method SetConnectionState(online: bool)
      modifies this
      ensures serverOnline == online && offlineMode == !online
      ensures roots == StorageRoots(!online && currentUser in OfflineAllowedUsers, localBase)
    {
      serverOnline := online;
      offlineMode := !online;
      var useLocal := offlineMode && currentUser in OfflineAllowedUsers;
      var logDir := PathJoin(localBase, "logs");
      var output := PathJoin(localBase, "output");
      var data := if !useLocal then ServerDataRoot else PathJoin(localBase, "data");
      var results := if !useLocal then ServerResultsRoot else output;
      var logs := if !useLocal then ServerLogsRoot else logDir;
      var errorLogs := if !useLocal then ServerErrorLogsRoot else PathJoin(logDir, "error");
      var config := if !useLocal then ServerConfigRoot else PathJoin(localBase, "config");
      var released := if !useLocal then ServerReleasedRoot else PathJoin(localBase, "released");
      var history := if !useLocal then ServerResultsRoot else PathJoin(localBase, "history");
      var log := if !useLocal then ServerLogsRoot else logDir;
      var outputDir := if !useLocal then ServerResultsRoot else output;
      roots := Roots(data, results, logs, errorLogs, config, released, history, log, outputDir);
    }
  }

  /**
   * The two modules agree on the roots whenever developer mode is off and no
   * override is set.
   */
  lemma AgreesWithCompareSetEnv(user: string, base: string, online: bool)
    ensures StorageRoots(!online && user in OfflineAllowedUsers, base)
            == StorageRoots(!online && (false || user in CompareSetEnv.OfflineAllowedUsers), base)
  {
  }
}
