/**
 The pure helpers inside the two clients' main windows
 (`client/src/main_window.py` for the desktop client, `kivy_client/src/main_window.py`
 for the touch client): the build-type tabs and buttons, the SMB and HTTP paths
 copied to the clipboard, the server looked up for a record, the selected row,
 the server chosen in the spinner and the recent-downloads list. Widgets are
 replaced by the values they show; the clock is a parameter.
 */
module MainWindow {
  import opened Options
  import opened Strings
  import opened ServerConfig
  import opened Share
  import Catalog

  // ---------------------------------------------------------------------------
  // Build type: desktop tabs and touch buttons

  const Release: string := "release"
  const Debug: string := "debug"
  const Combine: string := "combine"

  /** `get_current_build_type`: tab 0 is release, tab 1 debug, any other combine. */
  function BuildTabType(index: int): (t: string)
    ensures t == Release <==> index == 0
    ensures t == Debug <==> index == 1
    ensures t == Combine <==> index != 0 && index != 1
  {
    if index == 0 then Release else if index == 1 then Debug else Combine
  }

  datatype ButtonState = Down | Normal

  /** The three build-type buttons of the touch client, and the stored choice. */
  datatype BuildButtons = BuildButtons(selected: string, release: ButtonState, debug: ButtonState, combine: ButtonState)

  /** `on_build_type_selected`: the button named by the choice is down, the others normal. */
  function OnBuildTypeSelected(buildType: string): (b: BuildButtons)
    ensures b.selected == buildType
    ensures b.release == Down <==> buildType == Release
    ensures b.debug == Down <==> buildType == Debug
    ensures b.combine == Down <==> buildType == Combine
  {
    BuildButtons(buildType,
                 if buildType == Release then Down else Normal,
                 if buildType == Debug then Down else Normal,
                 if buildType == Combine then Down else Normal)
  }

  /** The build type the buttons show: the one button that is down, if exactly one is. */
  function ShownBuildType(b: BuildButtons): Option<string> {
    match (b.release, b.debug, b.combine)
    case (Down, Normal, Normal) => Some(Release)
    case (Normal, Down, Normal) => Some(Debug)
    case (Normal, Normal, Down) => Some(Combine)
    case _ => None
  }

  /** Choosing one of the three build types leaves exactly that button down; any
      other string leaves every button up. */
  lemma ButtonsShowSelection(buildType: string)
    ensures buildType in {Release, Debug, Combine} ==> ShownBuildType(OnBuildTypeSelected(buildType)) == Some(buildType)
    ensures buildType !in {Release, Debug, Combine} ==>
              var b := OnBuildTypeSelected(buildType); b.release == b.debug == b.combine == Normal
  {
  }

  /** Every tab of the desktop client names a build type the touch client's
      buttons can show. */
  lemma TabsMatchButtons(index: int)
    ensures ShownBuildType(OnBuildTypeSelected(BuildTabType(index))) == Some(BuildTabType(index))
  {
    ButtonsShowSelection(BuildTabType(index));
  }

  // ---------------------------------------------------------------------------
  // Clipboard paths

  /** `copy_smb_path`: the record's prefix followed by its relative path. */
  function SmbPath(serverPrefix: string, relativePath: string): string {
    serverPrefix + relativePath
  }

  lemma EndsWithAppend(s: string, suffix: string, t: string)
    requires EndsWith(s, suffix)
    ensures EndsWith(s + t, suffix + t)
  {
    assert (s + t)[|s + t| - |suffix + t|..] == s[|s| - |suffix|..] + t;
  }

  /** For a record of client `c`, the copied SMB path ends with the path the
      server opens on the share when the record is downloaded. */
  lemma SmbPathEndsWithRemotePath(c: Client, relativePath: string)
    ensures EndsWith(SmbPath(c.config.path, relativePath), RemotePath(c, relativePath))
  {
    LastSegmentIsSuffix(c.config.path, '\\');
    EndsWithAppend(c.config.path, BasePath(c), relativePath);
  }

  /** `copy_http_path`: for a UNC prefix "\\host\share..." with at least a host and
      one share component, "http://host/share.../" followed by the relative path
      with '/' for '\'; nothing (an error message) for any other prefix. */
  function HttpPath(serverPrefix: string, relativePath: string): (r: Option<string>)
    ensures r.Some? <==> StartsWith(serverPrefix, "\\\\") && |Split(serverPrefix, '\\')| >= 4
  {
    if StartsWith(serverPrefix, "\\\\") then
      var parts := Split(serverPrefix, '\\');
      if |parts| >= 4 then
        Some("http://" + parts[2] + "/" + Join(parts[3..], "/") + ReplaceChar(relativePath, '\\', '/'))
      else None
    else None
  }

  lemma JoinCons(x: string, rest: seq<string>, sep: string)
    requires |rest| >= 1
    ensures Join([x] + rest, sep) == x + sep + Join(rest, sep)
  {
    assert ([x] + rest)[1..] == rest;
  }

  /** A join of pieces without `c`, with a separator without `c`, has no `c`. */
  lemma {:induction false} JoinAvoids(parts: seq<string>, sep: string, c: char)
    requires c !in sep
    requires forall k :: 0 <= k < |parts| ==> c !in parts[k]
    ensures c !in Join(parts, sep)
    decreases |parts|
  {
    if |parts| > 1 {
      JoinAvoids(parts[1..], sep, c);
      assert Join(parts, sep) == parts[0] + sep + Join(parts[1..], sep);
    }
  }

  /** A share "\\host\s1\...\sn" maps to "http://host/s1/.../sn" followed by the
      relative path in URL form. */
  lemma HttpPathOfShare(host: string, segments: seq<string>, relativePath: string)
    requires '\\' !in host
    requires |segments| >= 1 && forall k :: 0 <= k < |segments| ==> '\\' !in segments[k]
    ensures HttpPath("\\\\" + host + "\\" + Join(segments, "\\"), relativePath) ==
              Some("http://" + host + "/" + Join(segments, "/") + ReplaceChar(relativePath, '\\', '/'))
  {
    var prefix := "\\\\" + host + "\\" + Join(segments, "\\");
    var parts := ["", "", host] + segments;
    UncPrefixSplit(host, segments);
    UncPrefixStart(host, Join(segments, "\\"));
    assert parts[2] == host && parts[3..] == segments;
    HttpPathOfParts(prefix, parts, relativePath);
  }

  /** The UNC prefix splits back into "", "", the host and the segments. */
  lemma UncPrefixSplit(host: string, segments: seq<string>)
    requires '\\' !in host
    requires |segments| >= 1 && forall k :: 0 <= k < |segments| ==> '\\' !in segments[k]
    ensures Split("\\\\" + host + "\\" + Join(segments, "\\"), '\\') == ["", "", host] + segments
  {
    var parts := ["", "", host] + segments;
    UncJoin(host, segments);
    assert forall k :: 0 <= k < |parts| ==> '\\' !in parts[k] by {
      forall k | 0 <= k < |parts| ensures '\\' !in parts[k] {
        if k >= 3 { assert parts[k] == segments[k - 3]; }
      }
    }
    SplitJoin(parts, '\\');
  }

  /** The UNC prefix starts with two backslashes. */
  lemma UncPrefixStart(host: string, rest: string)
    ensures StartsWith("\\\\" + host + "\\" + rest, "\\\\")
  {
    assert ("\\\\" + host + "\\" + rest)[..2] == "\\\\";
  }

  /** `copy_http_path` on a prefix whose split is known. */
  lemma HttpPathOfParts(prefix: string, parts: seq<string>, relativePath: string)
    requires StartsWith(prefix, "\\\\") && Split(prefix, '\\') == parts && |parts| >= 4
    ensures HttpPath(prefix, relativePath) ==
              Some("http://" + parts[2] + "/" + Join(parts[3..], "/") + ReplaceChar(relativePath, '\\', '/'))
  {
  }

  /** Joining "", "", a host and share segments with a separator puts two
      separators before the host and one after it. */
  lemma UncJoinWith(sep: string, host: string, segments: seq<string>)
    requires |segments| >= 1
    ensures Join(["", "", host] + segments, sep) == sep + sep + host + sep + Join(segments, sep)
  {
    var p2 := [host] + segments;
    var p1 := [""] + p2;
    assert ["", "", host] + segments == [""] + p1;
    JoinCons(host, segments, sep);
    JoinCons("", p2, sep);
    JoinCons("", p1, sep);
  }

  /** The UNC prefix of a host and share segments is the backslash join of "",
      "", the host and the segments. */
  lemma UncJoin(host: string, segments: seq<string>)
    requires |segments| >= 1
    ensures Join(["", "", host] + segments, "\\") == "\\\\" + host + "\\" + Join(segments, "\\")
  {
    UncJoinWith("\\", host, segments);
    assert "\\" + "\\" == "\\\\";
  }

  /** A prefix naming only a host, "\\host", has no HTTP form. */
  lemma HostOnlyHasNoHttpPath(host: string, relativePath: string)
    requires '\\' !in host
    ensures HttpPath("\\\\" + host, relativePath) == None
  {
    var parts := ["", "", host];
    assert parts == [""] + parts[1..];
    assert parts[1..] == [""] + [host];
    JoinCons("", parts[1..], "\\");
    JoinCons("", [host], "\\");
    assert Join(parts, "\\") == "\\\\" + host;
    SplitJoin(parts, '\\');
  }

  /** The HTTP path never contains a backslash. */
  lemma HttpPathHasNoBackslash(serverPrefix: string, relativePath: string)
    requires HttpPath(serverPrefix, relativePath).Some?
    ensures '\\' !in HttpPath(serverPrefix, relativePath).value
  {
    var parts := Split(serverPrefix, '\\');
    JoinAvoids(parts[3..], "/", '\\');
    var u := ReplaceChar(relativePath, '\\', '/');
    assert forall i :: 0 <= i < |u| ==> u[i] != '\\';
  }

  // ---------------------------------------------------------------------------
  // find_server_name_from_prefix

  /** One entry of the server list the clients fetch from `/api/servers`. */
  datatype ServerInfo = ServerInfo(name: string, displayName: string, path: string)

  /** `/api/servers`: each configured key with its display name and share path, in order. */
  function ServerList(servers: seq<Binding>): (infos: seq<ServerInfo>)
    ensures |infos| == |servers|
    ensures forall k :: 0 <= k < |servers| ==>
              infos[k] == ServerInfo(servers[k].key, servers[k].entry.name, servers[k].entry.path)
  {
    seq(|servers|, k requires 0 <= k < |servers| => ServerInfo(servers[k].key, servers[k].entry.name, servers[k].entry.path))
  }

  const FallbackServer: string := "server_1"

  /** The position of the first server whose path is `prefix`, or the length. */
  function FirstWithPath(servers: seq<ServerInfo>, prefix: string): (i: nat)
    ensures i <= |servers|
    ensures forall j :: 0 <= j < i ==> servers[j].path != prefix
    ensures i < |servers| ==> servers[i].path == prefix
    decreases |servers|
  {
    if |servers| == 0 || servers[0].path == prefix then 0
    else 1 + FirstWithPath(servers[1..], prefix)
  }

  /** The name the clients look up for a prefix, as a reference definition. */
  function ServerNameFor(servers: seq<ServerInfo>, prefix: string): string {
    var i := FirstWithPath(servers, prefix);
    if i < |servers| then servers[i].name else FallbackServer
  }

  /** `find_server_name_from_prefix` (identical in both clients): the name of the
      first server whose path equals the prefix, else "server_1". */
  method FindServerNameFromPrefix(servers: seq<ServerInfo>, prefix: string) returns (name: string)
    ensures (exists k :: 0 <= k < |servers| && servers[k].path == prefix) ==>
              exists k :: 0 <= k < |servers| && servers[k].path == prefix && name == servers[k].name &&
                          forall j :: 0 <= j < k ==> servers[j].path != prefix
    ensures (forall k :: 0 <= k < |servers| ==> servers[k].path != prefix) ==> name == FallbackServer
    ensures name == ServerNameFor(servers, prefix)
  {
    var i := 0;
    while i < |servers|
      invariant 0 <= i <= |servers|
      invariant forall j :: 0 <= j < i ==> servers[j].path != prefix
    {
      if servers[i].path == prefix {
        assert FirstWithPath(servers, prefix) == i;
        return servers[i].name;
      }
      i := i + 1;
    }
    return FallbackServer;
  }

  /** With distinct keys, a prefix some server was configured with is sent to a
      configured server whose share path is exactly that prefix. */
  lemma FoundServerServesPrefix(servers: seq<Binding>, prefix: string)
    requires forall i, j :: 0 <= i < j < |servers| ==> servers[i].key != servers[j].key
    requires exists k :: 0 <= k < |servers| && servers[k].entry.path == prefix
    ensures var name := ServerNameFor(ServerList(servers), prefix);
            Lookup(servers, name).Some? && Lookup(servers, name).value.path == prefix
  {
    var infos := ServerList(servers);
    var k :| 0 <= k < |servers| && servers[k].entry.path == prefix;
    assert infos[k].path == prefix;
    var i := FirstWithPath(infos, prefix);
    var name := servers[i].key;
    var ki := KeyIndex(servers, name);
    assert Configured(servers, name);
    assert ki == i;
  }

  // ---------------------------------------------------------------------------
  // Selection

  /** `get_selected_file`: the selected row's file when the row is in range. */
  function GetSelectedFile<T>(files: seq<T>, selectedRow: int): (r: Option<T>)
    ensures r.Some? <==> 0 <= selectedRow < |files|
    ensures r.Some? ==> r.value == files[selectedRow]
  {
    if 0 <= selectedRow < |files| then Some(files[selectedRow]) else None
  }

  const AllServers: string := "All Servers"

  /** The position of the first server shown as `displayName`, or the length. */
  function FirstWithDisplayName(servers: seq<ServerInfo>, displayName: string): (i: nat)
    ensures i <= |servers|
    ensures forall j :: 0 <= j < i ==> servers[j].displayName != displayName
    ensures i < |servers| ==> servers[i].displayName == displayName
    decreases |servers|
  {
    if |servers| == 0 || servers[0].displayName == displayName then 0
    else 1 + FirstWithDisplayName(servers[1..], displayName)
  }

  /** `on_server_selected`: "All Servers" clears the choice; otherwise the first
      server with that display name is chosen, and an unknown name keeps the
      previous choice. */
  function OnServerSelected(servers: seq<ServerInfo>, current: Option<string>, choice: string): (r: Option<string>)
    ensures choice == AllServers ==> r == None
    ensures choice != AllServers && (forall k :: 0 <= k < |servers| ==> servers[k].displayName != choice) ==> r == current
    ensures choice != AllServers && (exists k :: 0 <= k < |servers| && servers[k].displayName == choice) ==>
              exists k :: 0 <= k < |servers| && servers[k].displayName == choice && r == Some(servers[k].name) &&
                          forall j :: 0 <= j < k ==> servers[j].displayName != choice
  {
    if choice == AllServers then None
    else
      var i := FirstWithDisplayName(servers, choice);
      if i < |servers| then Some(servers[i].name) else current
  }

  /** With distinct display names, choosing a server's display name selects that server. */
  lemma ChoosingDisplayNameSelectsServer(servers: seq<ServerInfo>, current: Option<string>, k: nat)
    requires k < |servers| && servers[k].displayName != AllServers
    requires forall i, j :: 0 <= i < j < |servers| ==> servers[i].displayName != servers[j].displayName
    ensures OnServerSelected(servers, current, servers[k].displayName) == Some(servers[k].name)
  {
    var i := FirstWithDisplayName(servers, servers[k].displayName);
    assert i == k;
  }

  // ---------------------------------------------------------------------------
  // Recent downloads

  datatype Download = Download(name: string, path: string, time: string)

  const MaxRecent: nat := 10

  /** The recent downloads whose name differs from `name`, in order. */
  function WithoutName(downloads: seq<Download>, name: string): (r: seq<Download>)
    ensures |r| <= |downloads|
    ensures forall d :: d in r <==> d in downloads && d.name != name
    ensures Catalog.IsSubsequence(r, downloads)
    decreases |downloads|
  {
    if |downloads| == 0 then []
    else
      var rest := WithoutName(downloads[1..], name);
      assert ([downloads[0]] + rest)[1..] == rest;
      if downloads[0].name == name then rest else [downloads[0]] + rest
  }

  /** Python's `s[:n]` for `n >= 0`. */
  function Take<T>(s: seq<T>, n: nat): (r: seq<T>)
    ensures |r| == if |s| <= n then |s| else n
    ensures r == s[..|r|]
  {
    if |s| <= n then s else s[..n]
  }

  /** `add_recent_download`: drop entries with the same name, put the new one
      first, keep the first ten. */
  function AddRecentDownload(downloads: seq<Download>, name: string, path: string, time: string): (r: seq<Download>)
    ensures 1 <= |r| <= MaxRecent
    ensures r[0] == Download(name, path, time)
    ensures forall j :: 1 <= j < |r| ==> r[j].name != name
    ensures forall j :: 1 <= j < |r| ==> r[j] in downloads
    ensures |r| == if |WithoutName(downloads, name)| < MaxRecent then |WithoutName(downloads, name)| + 1 else MaxRecent
    ensures r[1..] == WithoutName(downloads, name)[..|r| - 1]
  {
    var kept := WithoutName(downloads, name);
    var r := Take([Download(name, path, time)] + kept, MaxRecent);
    assert r[1..] == kept[..|r| - 1];
    assert forall j :: 1 <= j < |r| ==> r[j] == kept[j - 1] && kept[j - 1] in kept;
    r
  }

  /** No two entries share a name. */
  predicate UniqueNames(downloads: seq<Download>) {
    forall i, j :: 0 <= i < j < |downloads| ==> downloads[i].name != downloads[j].name
  }

  lemma {:induction false} WithoutNameKeepsUnique(downloads: seq<Download>, name: string)
    requires UniqueNames(downloads)
    ensures UniqueNames(WithoutName(downloads, name))
    decreases |downloads|
  {
    if |downloads| > 0 {
      var tail := downloads[1..];
      assert UniqueNames(tail) by {
        forall i, j | 0 <= i < j < |tail|
          ensures tail[i].name != tail[j].name
        {
          assert tail[i] == downloads[i + 1] && tail[j] == downloads[j + 1];
        }
      }
      WithoutNameKeepsUnique(tail, name);
      var rest := WithoutName(tail, name);
      if downloads[0].name != name {
        FirstNameNotInTail(downloads);
        var r := [downloads[0]] + rest;
        forall i, j | 0 <= i < j < |r|
          ensures r[i].name != r[j].name
        {
          assert r[j] == rest[j - 1] && rest[j - 1] in rest;
          if i > 0 {
            assert r[i] == rest[i - 1];
          }
        }
      }
    }
  }

  lemma FirstNameNotInTail(downloads: seq<Download>)
    requires |downloads| > 0 && UniqueNames(downloads)
    ensures forall d :: d in downloads[1..] ==> d.name != downloads[0].name
  {
    forall d | d in downloads[1..]
      ensures d.name != downloads[0].name
    {
      var m :| 0 <= m < |downloads[1..]| && downloads[1..][m] == d;
      assert downloads[m + 1] == d;
    }
  }

  /** The list never holds two entries with the same name. */
  lemma AddKeepsNamesUnique(downloads: seq<Download>, name: string, path: string, time: string)
    requires UniqueNames(downloads)
    ensures UniqueNames(AddRecentDownload(downloads, name, path, time))
  {
    var r := AddRecentDownload(downloads, name, path, time);
    var kept := WithoutName(downloads, name);
    WithoutNameKeepsUnique(downloads, name);
    forall i, j | 0 <= i < j < |r|
      ensures r[i].name != r[j].name
    {
      if i > 0 {
        assert r[i] == kept[i - 1] && r[j] == kept[j - 1];
      }
    }
  }

  lemma {:induction false} WithoutAbsentName(downloads: seq<Download>, name: string)
    requires forall k :: 0 <= k < |downloads| ==> downloads[k].name != name
    ensures WithoutName(downloads, name) == downloads
    decreases |downloads|
  {
    if |downloads| > 0 {
      WithoutAbsentName(downloads[1..], name);
      assert [downloads[0]] + downloads[1..] == downloads;
    }
  }

  /** Downloading the same file again replaces its entry: the result is as if the
      first download had never been recorded. */
  lemma DownloadAgainReplaces(downloads: seq<Download>, name: string, p1: string, t1: string, p2: string, t2: string)
    ensures AddRecentDownload(AddRecentDownload(downloads, name, p1, t1), name, p2, t2) ==
              AddRecentDownload(downloads, name, p2, t2)
  {
    var kept := WithoutName(downloads, name);
    var first := AddRecentDownload(downloads, name, p1, t1);
    var older := first[1..];
    assert first == [first[0]] + older;
    assert forall k :: 0 <= k < |older| ==> older[k] == first[k + 1];
    WithoutAbsentName(older, name);
    assert WithoutName(first, name) == older;
    var second := AddRecentDownload(first, name, p2, t2);
    var direct := AddRecentDownload(downloads, name, p2, t2);
    assert |second| == |direct|;
    assert second[1..] == direct[1..];
    assert second == [second[0]] + second[1..];
    assert direct == [direct[0]] + direct[1..];
  }

  /** `clear_recent_downloads`. */
  function ClearRecentDownloads(downloads: seq<Download>): (r: seq<Download>)
    ensures |r| == 0
  {
    []
  }

  /** After a clear, the next download is the only entry. */
  lemma AddAfterClear(downloads: seq<Download>, name: string, path: string, time: string)
    ensures AddRecentDownload(ClearRecentDownloads(downloads), name, path, time) == [Download(name, path, time)]
  {
  }
}
