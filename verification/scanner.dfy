/**
 The incremental scanner (`server/src/scanner.py`). A directory is rescanned
 when its current sub-directory count differs from the cached one or the cache
 holds the force sentinel -1; a rescan replaces the directory's list and
 metadata wholesale. The `scanning` flag is modelled sequentially: a scan
 started while it is set does nothing. The time stamp written as `last_scan`
 is a parameter.
 */
module Scanner {
  import opened Options
  import opened Models
  import opened Catalog
  import opened ServerConfig
  import opened Share

  /** The sentinel a forced reset writes as `subdir_count`. */
  const ForceSentinel: int := -1

  /** The metadata a forced reset writes: `{"subdir_count": -1}`. */
  const ResetMeta: DirMeta := DirMeta(Some(ForceSentinel))

  /** The scanner's view of the world: the catalog, the SMB client cache and the
      `scanning` flag. */
  datatype ScannerState = ScannerState(store: Store, manager: Manager, scanning: bool)

  /** The cached sub-directory count; -1 when there is no metadata or no count in it. */
  function CachedCount(st: Store, server: string, directory: string): int {
    match GetDirectoryMeta(st, server, directory)
    case None => ForceSentinel
    case Some(m) => m.subdirCount.GetOr(ForceSentinel)
  }

  /** The skip test of `scan_directory`, negated. */
  predicate NeedsScan(current: int, cached: int) {
    !(current == cached && cached != ForceSentinel)
  }

  /** `scan_directory`: skip an unchanged directory, otherwise store the fresh scan
      and record the count, the time and the number of files found. */
  function ScanDirectory(st: Store, server: string, directory: string, c: Client, now: int): (r: Store)
    ensures !NeedsScan(DirectoryCount(c, directory), CachedCount(st, server, directory)) ==> r == st
    ensures NeedsScan(DirectoryCount(c, directory), CachedCount(st, server, directory)) ==>
              && GetApkFiles(r, server, directory) == ScanApkFiles(c, directory)
              && GetDirectoryMeta(r, server, directory) ==
                   Some(DirMeta(Some(DirectoryCount(c, directory)), Some(now), Some(|ScanApkFiles(c, directory)|)))
    ensures forall s, d :: DirKey(s, d) != DirKey(server, directory) ==>
              GetApkFiles(r, s, d) == GetApkFiles(st, s, d) && GetDirectoryMeta(r, s, d) == GetDirectoryMeta(st, s, d)
  {
    var current := DirectoryCount(c, directory);
    if !NeedsScan(current, CachedCount(st, server, directory)) then st
    else
      var found := ScanApkFiles(c, directory);
      var st1 := SetApkFiles(st, server, directory, found);
      SetDirectoryMeta(st1, server, directory, DirMeta(Some(current), Some(now), Some(|found|)))
  }

  /** A directory with no metadata, or metadata without a count, is always scanned. */
  lemma NeverScannedIsScanned(st: Store, server: string, directory: string, current: nat)
    requires GetDirectoryMeta(st, server, directory).None? ||
             GetDirectoryMeta(st, server, directory).value.subdirCount.None?
    ensures NeedsScan(current, CachedCount(st, server, directory))
  {
  }

  /** A forced reset makes the next scan of the directory a rescan. */
  lemma ResetForcesRescan(st: Store, server: string, directory: string, current: nat)
    ensures NeedsScan(current, CachedCount(SetDirectoryMeta(st, server, directory, ResetMeta), server, directory))
  {
  }

  /** Scanning the same share twice in a row changes nothing the second time. */
  lemma ScanDirectoryIdempotent(st: Store, server: string, directory: string, c: Client, now: int, later: int)
    ensures ScanDirectory(ScanDirectory(st, server, directory, c, now), server, directory, c, later) ==
              ScanDirectory(st, server, directory, c, now)
  {
  }

  /** A rescan does not carry anything over: every record of the directory is the
      fresh one, with no downloads and no hash, whatever was stored before. */
  lemma RescanLosesCounters(st: Store, server: string, directory: string, c: Client, now: int)
    ensures NeedsScan(DirectoryCount(c, directory), CachedCount(st, server, directory)) ==>
              forall r :: r in GetApkFiles(ScanDirectory(st, server, directory, c, now), server, directory) ==>
                r in ScanApkFiles(c, directory) && r.downloadTime == 0 && r.md5 == None
  {
    forall r | r in ScanApkFiles(c, directory)
      ensures r.downloadTime == 0 && r.md5 == None
    {
      ScanApkFilesShape(c, directory, r);
    }
  }

  /** A directory that cannot be opened at all counts as 0 sub-directories and
      scans to nothing, so unless its cached count was 0 its list is emptied. */
  lemma UnreadableDirectoryIsEmptied(st: Store, server: string, directory: string, c: Client, now: int)
    requires c.tree.Some?
    requires OpenDirectory(c.tree.value, ListFullPath(BasePath(c), directory)).None?
    requires OpenDirectory(c.tree.value, ScanFullPath(BasePath(c), directory)).None?
    requires CachedCount(st, server, directory) != 0
    ensures GetApkFiles(ScanDirectory(st, server, directory, c, now), server, directory) == []
  {
  }

  // ---------------------------------------------------------------------------
  // scan_server

  /** The `for directory in directories` loop of `scan_server`. */
  function ScanDirectories(st: Store, server: string, dirs: seq<string>, c: Client, now: int): Store
    decreases |dirs|
  {
    if |dirs| == 0 then st
    else ScanDirectories(ScanDirectory(st, server, dirs[0], c, now), server, dirs[1..], c, now)
  }

  /** Directories outside the loop, and other servers, are untouched. */
  lemma {:induction false} ScanDirectoriesFrame(st: Store, server: string, dirs: seq<string>, c: Client, now: int, s: string, d: string)
    requires s != server || d !in dirs
    ensures GetApkFiles(ScanDirectories(st, server, dirs, c, now), s, d) == GetApkFiles(st, s, d)
    ensures GetDirectoryMeta(ScanDirectories(st, server, dirs, c, now), s, d) == GetDirectoryMeta(st, s, d)
    decreases |dirs|
  {
    if |dirs| > 0 {
      ScanDirectoriesFrame(ScanDirectory(st, server, dirs[0], c, now), server, dirs[1..], c, now, s, d);
    }
  }

  /** Each listed directory ends up as `scan_directory` alone would leave it: a
      failure or a repeat elsewhere in the list does not matter. */
  lemma {:induction false} ScanDirectoriesEach(st: Store, server: string, dirs: seq<string>, c: Client, now: int, d: string)
    requires d in dirs
    ensures GetApkFiles(ScanDirectories(st, server, dirs, c, now), server, d) ==
              GetApkFiles(ScanDirectory(st, server, d, c, now), server, d)
    ensures GetDirectoryMeta(ScanDirectories(st, server, dirs, c, now), server, d) ==
              GetDirectoryMeta(ScanDirectory(st, server, d, c, now), server, d)
    decreases |dirs|
  {
    var st1 := ScanDirectory(st, server, dirs[0], c, now);
    if d == dirs[0] {
      if d in dirs[1..] {
        ScanDirectoriesEach(st1, server, dirs[1..], c, now, d);
        ScanDirectoryIdempotent(st, server, d, c, now, now);
      } else {
        ScanDirectoriesFrame(st1, server, dirs[1..], c, now, server, d);
      }
    } else {
      ScanDirectoriesEach(st1, server, dirs[1..], c, now, d);
      assert CachedCount(st1, server, d) == CachedCount(st, server, d);
    }
  }

  /** `scan_server`: connect (a failure ends the scan of this server), list the
      top-level directories and scan each. */
  function ScanServer(s: ScannerState, servers: seq<Binding>, connect: ServerEntry -> Option<Node>,
                      name: string, now: int): (r: ScannerState)
    ensures r.scanning == s.scanning
    ensures GetClient(s.manager, servers, connect, name).0.Failed? ==> r.store == s.store
  {
    var (res, m) := GetClient(s.manager, servers, connect, name);
    match res
    case Failed(_) => s.(manager := m)
    case Got(c) => s.(store := ScanDirectories(s.store, name, ListDirectories(c, ""), c, now), manager := m)
  }

  /** After `scan_server`, every top-level directory of the share holds what its
      own `scan_directory` would give. */
  lemma ScanServerCoversListing(s: ScannerState, servers: seq<Binding>, connect: ServerEntry -> Option<Node>,
                                name: string, now: int, d: string)
    requires GetClient(s.manager, servers, connect, name).0.Got?
    requires d in ListDirectories(GetClient(s.manager, servers, connect, name).0.client, "")
    ensures var c := GetClient(s.manager, servers, connect, name).0.client;
            && GetApkFiles(ScanServer(s, servers, connect, name, now).store, name, d) ==
                 GetApkFiles(ScanDirectory(s.store, name, d, c, now), name, d)
            && GetDirectoryMeta(ScanServer(s, servers, connect, name, now).store, name, d) ==
                 GetDirectoryMeta(ScanDirectory(s.store, name, d, c, now), name, d)
  {
    var c := GetClient(s.manager, servers, connect, name).0.client;
    ScanDirectoriesEach(s.store, name, ListDirectories(c, ""), c, now, d);
  }

  /** What `scan_directory` leaves in a directory depends only on what the
      directory held before. */
  lemma ScanDirectoryLocal(st1: Store, st2: Store, server: string, directory: string, c: Client, now: int)
    requires GetApkFiles(st1, server, directory) == GetApkFiles(st2, server, directory)
    requires GetDirectoryMeta(st1, server, directory) == GetDirectoryMeta(st2, server, directory)
    ensures GetApkFiles(ScanDirectory(st1, server, directory, c, now), server, directory) ==
              GetApkFiles(ScanDirectory(st2, server, directory, c, now), server, directory)
    ensures GetDirectoryMeta(ScanDirectory(st1, server, directory, c, now), server, directory) ==
              GetDirectoryMeta(ScanDirectory(st2, server, directory, c, now), server, directory)
  {
  }

  /** Scanning one server touches neither another server's directories nor its
      cached client. */
  lemma ScanServerFrame(s: ScannerState, servers: seq<Binding>, connect: ServerEntry -> Option<Node>,
                        scanned: string, now: int, name: string, d: string)
    requires scanned != name
    ensures var r := ScanServer(s, servers, connect, scanned, now);
            && GetApkFiles(r.store, name, d) == GetApkFiles(s.store, name, d)
            && GetDirectoryMeta(r.store, name, d) == GetDirectoryMeta(s.store, name, d)
            && SameEntry(r.manager, s.manager, name)
  {
    GetClientKeepsOthers(s.manager, servers, connect, scanned, name);
    var (res, m) := GetClient(s.manager, servers, connect, scanned);
    if res.Got? {
      ScanDirectoriesFrame(s.store, scanned, ListDirectories(res.client, ""), res.client, now, name, d);
    }
  }

  // ---------------------------------------------------------------------------
  // scan_all_servers

  function ScanEach(s: ScannerState, servers: seq<Binding>, connect: ServerEntry -> Option<Node>,
                    names: seq<string>, now: int): (r: ScannerState)
    ensures r.scanning == s.scanning
    decreases |names|
  {
    if |names| == 0 then s
    else ScanEach(ScanServer(s, servers, connect, names[0], now), servers, connect, names[1..], now)
  }

  /** A server the loop does not visit keeps its directories and its cached client. */
  lemma {:induction false} ScanEachFrame(s: ScannerState, servers: seq<Binding>, connect: ServerEntry -> Option<Node>,
                                         names: seq<string>, now: int, name: string, d: string)
    requires name !in names
    ensures var r := ScanEach(s, servers, connect, names, now);
            && GetApkFiles(r.store, name, d) == GetApkFiles(s.store, name, d)
            && GetDirectoryMeta(r.store, name, d) == GetDirectoryMeta(s.store, name, d)
            && SameEntry(r.manager, s.manager, name)
    decreases |names|
  {
    if |names| > 0 {
      var s1 := ScanServer(s, servers, connect, names[0], now);
      ScanServerFrame(s, servers, connect, names[0], now, name, d);
      ScanEachFrame(s1, servers, connect, names[1..], now, name, d);
    }
  }

  /** In the loop over servers, every top-level directory of a reachable server
      ends up as its own `scan_directory` would leave it, from the state the loop
      started in: the other servers' scans do not reach it. */
  lemma {:induction false} ScanEachCoversListing(s: ScannerState, servers: seq<Binding>, connect: ServerEntry -> Option<Node>,
                                                 names: seq<string>, now: int, name: string, d: string)
    requires Distinct(names) && name in names
    requires GetClient(s.manager, servers, connect, name).0.Got?
    requires d in ListDirectories(GetClient(s.manager, servers, connect, name).0.client, "")
    ensures var c := GetClient(s.manager, servers, connect, name).0.client;
            var r := ScanEach(s, servers, connect, names, now);
            && GetApkFiles(r.store, name, d) == GetApkFiles(ScanDirectory(s.store, name, d, c, now), name, d)
            && GetDirectoryMeta(r.store, name, d) == GetDirectoryMeta(ScanDirectory(s.store, name, d, c, now), name, d)
    decreases |names|
  {
    var s1 := ScanServer(s, servers, connect, names[0], now);
    if names[0] == name {
      assert name !in names[1..] by {
        forall k | 0 <= k < |names[1..]| ensures names[1..][k] != name {
          assert names[1..][k] == names[k + 1];
        }
      }
      ScanServerCoversListing(s, servers, connect, name, now, d);
      ScanEachFrame(s1, servers, connect, names[1..], now, name, d);
    } else {
      ScanServerFrame(s, servers, connect, names[0], now, name, d);
      GetClientOnlyReadsEntry(s1.manager, s.manager, servers, connect, name);
      ScanDirectoryLocal(s1.store, s.store, name, d, GetClient(s.manager, servers, connect, name).0.client, now);
      ScanEachCoversListing(s1, servers, connect, names[1..], now, name, d);
    }
  }

  /** The keys of the configured servers, as in a dictionary: no key twice. */
  predicate UniqueKeys(servers: seq<Binding>) {
    forall k, l :: 0 <= k < l < |servers| ==> servers[k].key != servers[l].key
  }

  lemma ServerNamesDistinct(servers: seq<Binding>, name: string)
    requires UniqueKeys(servers)
    requires Configured(servers, name)
    ensures Distinct(ServerNames(servers)) && name in ServerNames(servers)
  {
    var k :| 0 <= k < |servers| && servers[k].key == name;
    assert ServerNames(servers)[k] == name;
  }

  /** `scan_all_servers`: nothing while a scan is running; otherwise scan every
      configured server in order, and clear the flag at the end. */
  function ScanAllServers(s: ScannerState, servers: seq<Binding>, connect: ServerEntry -> Option<Node>, now: int): (r: ScannerState)
    ensures s.scanning ==> r == s
    ensures !s.scanning ==> !r.scanning
  {
    if s.scanning then s
    else ScanEach(s.(scanning := true), servers, connect, ServerNames(servers), now).(scanning := false)
  }

  /** After `scan_all_servers`, every top-level directory of every configured,
      reachable server holds what its own `scan_directory` would give. */
  lemma ScanAllServersCoversListing(s: ScannerState, servers: seq<Binding>, connect: ServerEntry -> Option<Node>,
                                    now: int, name: string, d: string)
    requires !s.scanning
    requires UniqueKeys(servers) && Configured(servers, name)
    requires GetClient(s.manager, servers, connect, name).0.Got?
    requires d in ListDirectories(GetClient(s.manager, servers, connect, name).0.client, "")
    ensures var c := GetClient(s.manager, servers, connect, name).0.client;
            var r := ScanAllServers(s, servers, connect, now);
            && GetApkFiles(r.store, name, d) == GetApkFiles(ScanDirectory(s.store, name, d, c, now), name, d)
            && GetDirectoryMeta(r.store, name, d) == GetDirectoryMeta(ScanDirectory(s.store, name, d, c, now), name, d)
  {
    ServerNamesDistinct(servers, name);
    ScanEachCoversListing(s.(scanning := true), servers, connect, ServerNames(servers), now, name, d);
  }

  // ---------------------------------------------------------------------------
  // Forced scans

  /** Writes the reset metadata for every listed directory. */
  function ResetAll(st: Store, server: string, dirs: seq<string>): (r: Store)
    ensures r.files == st.files
    ensures forall d :: d in dirs ==> GetDirectoryMeta(r, server, d) == Some(ResetMeta)
    ensures forall s, d :: (s != server || d !in dirs) ==> GetDirectoryMeta(r, s, d) == GetDirectoryMeta(st, s, d)
    decreases |dirs|
  {
    if |dirs| == 0 then st
    else ResetAll(SetDirectoryMeta(st, server, dirs[0], ResetMeta), server, dirs[1..])
  }

  datatype ForceResult = ForceResult(state: ScannerState, raised: bool)

  /** `force_scan_server`: an unknown server raises before anything is written; a
      connection failure raises too; otherwise every top-level directory is reset
      and the server is scanned. */
  function ForceScanServer(s: ScannerState, servers: seq<Binding>, connect: ServerEntry -> Option<Node>,
                           name: string, now: int): (r: ForceResult)
    ensures !Configured(servers, name) ==> r == ForceResult(s, true)
    ensures r.raised ==> r.state.store == s.store
  {
    if !Configured(servers, name) then ForceResult(s, true)
    else
      var (res, m) := GetClient(s.manager, servers, connect, name);
      match res
      case Failed(_) => ForceResult(s.(manager := m), true)
      case Got(c) =>
        var reset := s.(store := ResetAll(s.store, name, ListDirectories(c, "")), manager := m);
        ForceResult(ScanServer(reset, servers, connect, name, now), false)
  }

  /** After a successful forced scan every top-level directory was rescanned:
      its list is the fresh scan, whatever the cached counts said. */
  lemma ForceScanRescansEverything(s: ScannerState, servers: seq<Binding>, connect: ServerEntry -> Option<Node>,
                                   name: string, now: int, d: string)
    requires Configured(servers, name)
    requires GetClient(s.manager, servers, connect, name).0.Got?
    requires d in ListDirectories(GetClient(s.manager, servers, connect, name).0.client, "")
    ensures !ForceScanServer(s, servers, connect, name, now).raised
    ensures GetApkFiles(ForceScanServer(s, servers, connect, name, now).state.store, name, d) ==
              ScanApkFiles(GetClient(s.manager, servers, connect, name).0.client, d)
  {
    var (res, m) := GetClient(s.manager, servers, connect, name);
    var c := res.client;
    var dirs := ListDirectories(c, "");
    var reset := s.(store := ResetAll(s.store, name, dirs), manager := m);
    assert GetClient(m, servers, connect, name) == (Got(c), m);
    ScanServerCoversListing(reset, servers, connect, name, now, d);
    ResetForcesRescan(reset.store, name, d, DirectoryCount(c, d));
    assert GetDirectoryMeta(reset.store, name, d) == Some(ResetMeta);
  }

  /** The reset of one server in `force_scan_all`: connect (a failure is logged
      and skipped) and reset every top-level directory. */
  function ResetServer(s: ScannerState, servers: seq<Binding>, connect: ServerEntry -> Option<Node>,
                       name: string): (r: ScannerState)
    ensures r.scanning == s.scanning
    ensures r.store.files == s.store.files
  {
    var (res, m) := GetClient(s.manager, servers, connect, name);
    match res
    case Failed(_) => s.(manager := m)
    case Got(c) => s.(store := ResetAll(s.store, name, ListDirectories(c, "")), manager := m)
  }

  /** Resets for every server that can be reached. */
  function ResetEach(s: ScannerState, servers: seq<Binding>, connect: ServerEntry -> Option<Node>,
                     names: seq<string>): (r: ScannerState)
    ensures r.scanning == s.scanning
    ensures r.store.files == s.store.files
    decreases |names|
  {
    if |names| == 0 then s
    else ResetEach(ResetServer(s, servers, connect, names[0]), servers, connect, names[1..])
  }

  /** The reset of one server: the other servers' metadata and cached clients stay. */
  lemma ResetServerFrame(s: ScannerState, servers: seq<Binding>, connect: ServerEntry -> Option<Node>,
                         reset: string, name: string, d: string)
    requires reset != name
    ensures var r := ResetServer(s, servers, connect, reset);
            && GetDirectoryMeta(r.store, name, d) == GetDirectoryMeta(s.store, name, d)
            && SameEntry(r.manager, s.manager, name)
  {
    GetClientKeepsOthers(s.manager, servers, connect, reset, name);
  }

  /** The reset of a reachable server marks each of its top-level directories and
      keeps its client cached. */
  lemma ResetServerResetsListing(s: ScannerState, servers: seq<Binding>, connect: ServerEntry -> Option<Node>,
                                 name: string, d: string)
    requires GetClient(s.manager, servers, connect, name).0.Got?
    requires d in ListDirectories(GetClient(s.manager, servers, connect, name).0.client, "")
    ensures var r := ResetServer(s, servers, connect, name);
            && GetDirectoryMeta(r.store, name, d) == Some(ResetMeta)
            && GetClient(r.manager, servers, connect, name).0 == GetClient(s.manager, servers, connect, name).0
  {
    var (res, m) := GetClient(s.manager, servers, connect, name);
    assert GetClient(m, servers, connect, name) == (res, m);
  }

  /** A server the reset loop does not visit keeps its metadata and cached client. */
  lemma {:induction false} ResetEachFrame(s: ScannerState, servers: seq<Binding>, connect: ServerEntry -> Option<Node>,
                                          names: seq<string>, name: string, d: string)
    requires name !in names
    ensures var r := ResetEach(s, servers, connect, names);
            && GetDirectoryMeta(r.store, name, d) == GetDirectoryMeta(s.store, name, d)
            && SameEntry(r.manager, s.manager, name)
    decreases |names|
  {
    if |names| > 0 {
      ResetServerFrame(s, servers, connect, names[0], name, d);
      var s1 := ResetServer(s, servers, connect, names[0]);
      ResetEachFrame(s1, servers, connect, names[1..], name, d);
    }
  }

  /** The reset loop writes the force sentinel into every top-level directory of
      every reachable server it visits, and leaves that server's client cached. */
  lemma {:induction false} ResetEachResetsListing(s: ScannerState, servers: seq<Binding>, connect: ServerEntry -> Option<Node>,
                                                  names: seq<string>, name: string, d: string)
    requires Distinct(names) && name in names
    requires GetClient(s.manager, servers, connect, name).0.Got?
    requires d in ListDirectories(GetClient(s.manager, servers, connect, name).0.client, "")
    ensures var r := ResetEach(s, servers, connect, names);
            && GetDirectoryMeta(r.store, name, d) == Some(ResetMeta)
            && GetClient(r.manager, servers, connect, name).0 == GetClient(s.manager, servers, connect, name).0
    decreases |names|
  {
    var s1 := ResetServer(s, servers, connect, names[0]);
    if names[0] == name {
      assert name !in names[1..] by {
        forall k | 0 <= k < |names[1..]| ensures names[1..][k] != name {
          assert names[1..][k] == names[k + 1];
        }
      }
      ResetServerResetsListing(s, servers, connect, name, d);
      ResetEachFrame(s1, servers, connect, names[1..], name, d);
      GetClientOnlyReadsEntry(ResetEach(s1, servers, connect, names[1..]).manager, s1.manager, servers, connect, name);
    } else {
      ResetServerFrame(s, servers, connect, names[0], name, d);
      GetClientOnlyReadsEntry(s1.manager, s.manager, servers, connect, name);
      ResetEachResetsListing(s1, servers, connect, names[1..], name, d);
    }
  }

  /** `force_scan_all`: reset every reachable server's directories, then
      `scan_all_servers`. */
  function ForceScanAll(s: ScannerState, servers: seq<Binding>, connect: ServerEntry -> Option<Node>, now: int): (r: ScannerState)
    ensures r.scanning == s.scanning
  {
    ScanAllServers(ResetEach(s, servers, connect, ServerNames(servers)), servers, connect, now)
  }

  /** While another scan runs, `force_scan_all` still writes its resets: the state
      is exactly the reset one, so the next scan rescans those directories. */
  lemma ForceScanAllWhileScanning(s: ScannerState, servers: seq<Binding>, connect: ServerEntry -> Option<Node>, now: int)
    requires s.scanning
    ensures ForceScanAll(s, servers, connect, now) == ResetEach(s, servers, connect, ServerNames(servers))
  {
  }

  /** When no scan is running, `force_scan_all` rescans every top-level directory
      of every configured, reachable server: its list is the fresh scan,
      whatever the cached counts said. */
  lemma ForceScanAllRescansEverything(s: ScannerState, servers: seq<Binding>, connect: ServerEntry -> Option<Node>,
                                      now: int, name: string, d: string)
    requires !s.scanning
    requires UniqueKeys(servers) && Configured(servers, name)
    requires GetClient(s.manager, servers, connect, name).0.Got?
    requires d in ListDirectories(GetClient(s.manager, servers, connect, name).0.client, "")
    ensures GetApkFiles(ForceScanAll(s, servers, connect, now).store, name, d) ==
              ScanApkFiles(GetClient(s.manager, servers, connect, name).0.client, d)
  {
    var c := GetClient(s.manager, servers, connect, name).0.client;
    var reset := ResetEach(s, servers, connect, ServerNames(servers));
    ServerNamesDistinct(servers, name);
    ResetEachResetsListing(s, servers, connect, ServerNames(servers), name, d);
    ScanAllServersCoversListing(reset, servers, connect, now, name, d);
    assert CachedCount(reset.store, name, d) == ForceSentinel;
  }

  /** While another scan runs, `force_scan_all` leaves every list as it was but
      marks every top-level directory of every configured, reachable server, so
      the next `scan_all_servers` rescans it. */
  lemma ForceScanAllResetsWhileScanning(s: ScannerState, servers: seq<Binding>, connect: ServerEntry -> Option<Node>,
                                        now: int, later: int, name: string, d: string)
    requires s.scanning
    requires UniqueKeys(servers) && Configured(servers, name)
    requires GetClient(s.manager, servers, connect, name).0.Got?
    requires d in ListDirectories(GetClient(s.manager, servers, connect, name).0.client, "")
    ensures var r := ForceScanAll(s, servers, connect, now);
            && r.store.files == s.store.files
            && GetDirectoryMeta(r.store, name, d) == Some(ResetMeta)
            && GetApkFiles(ScanAllServers(r.(scanning := false), servers, connect, later).store, name, d) ==
                 ScanApkFiles(GetClient(s.manager, servers, connect, name).0.client, d)
  {
    var c := GetClient(s.manager, servers, connect, name).0.client;
    var r := ForceScanAll(s, servers, connect, now);
    ServerNamesDistinct(servers, name);
    ResetEachResetsListing(s, servers, connect, ServerNames(servers), name, d);
    ScanAllServersCoversListing(r.(scanning := false), servers, connect, later, name, d);
    assert CachedCount(r.store, name, d) == ForceSentinel;
  }

  // ---------------------------------------------------------------------------
  // cleanup_temp_files

  /** One entry of the temporary directory: its name, its age in seconds
      (now minus modification time) and whether it is a regular file. */
  datatype TempEntry = TempEntry(name: string, age: real, isFile: bool)

  const MaxTempAge: real := 3600.0

  /** A temporary entry is removed when it is a regular file older than an hour. */
  predicate Expired(e: TempEntry) {
    e.isFile && e.age > MaxTempAge
  }

  /** What `cleanup_temp_files` leaves behind. */
  function CleanupTempFiles(entries: seq<TempEntry>): (kept: seq<TempEntry>)
    ensures forall e :: e in kept <==> e in entries && !Expired(e)
    ensures |kept| <= |entries|
    decreases |entries|
  {
    if |entries| == 0 then []
    else (if Expired(entries[0]) then [] else [entries[0]]) + CleanupTempFiles(entries[1..])
  }

  /** Directories and files of exactly one hour stay. */
  lemma CleanupKeepsBoundary(name: string)
    ensures CleanupTempFiles([TempEntry(name, 3600.0, true), TempEntry(name, 7200.0, false)]) ==
              [TempEntry(name, 3600.0, true), TempEntry(name, 7200.0, false)]
  {
  }
}
