/**
 The SMB side of the server (`server/src/smb_client.py`). A connected share is
 an abstract directory tree; opening a path walks it by backslash-separated
 names. Directory listings may contain the "." and ".." entries a server
 reports, and a directory may refuse to be opened (`readable == false`), which
 the Python code meets as an exception it logs and swallows.
 */
module Share {
  import opened Options
  import opened Strings
  import opened Models
  import Utils
  import opened ServerConfig

  type byte = bv8

  /** One directory entry of the share. */
  datatype Node =
    | File(name: string, content: seq<byte>, created: int)
    | Dir(name: string, children: seq<Node>, readable: bool)

  /** An `SMBClient`: its server settings and, once connected, the share's root
      directory (`self.tree`; None before a successful `connect`). */
  datatype Client = Client(config: ServerEntry, tree: Option<Node>)

  predicate IsDot(name: string) {
    name == "." || name == ".."
  }

  /** The last backslash-separated piece of the configured path: the directory under the share
      that every path is resolved against. */
  function BasePath(c: Client): string {
    LastSegment(c.config.path, '\\')
  }

  // ---------------------------------------------------------------------------
  // Opening paths

  /** The first entry with the given name. */
  function FindChild(children: seq<Node>, name: string): (r: Option<Node>)
    ensures r.Some? ==> r.value in children && r.value.name == name
    ensures r.None? ==> forall k :: 0 <= k < |children| ==> children[k].name != name
    decreases |children|
  {
    if |children| == 0 then None
    else if children[0].name == name then Some(children[0])
    else FindChild(children[1..], name)
  }

  /** Follows `names` down from `n`; every step needs a directory that can be opened. */
  function Walk(n: Node, names: seq<string>): Option<Node>
    decreases |names|
  {
    if |names| == 0 then Some(n)
    else if n.Dir? && n.readable then
      match FindChild(n.children, names[0])
      case Some(child) => Walk(child, names[1..])
      case None => None
    else None
  }

  /** `Open(tree, path)`: "" is the share root. */
  function Open(root: Node, path: string): Option<Node> {
    if path == "" then Some(root) else Walk(root, Split(path, '\\'))
  }

  /** Opening a path as a directory and querying it: the entries, or None when
      the open or the query fails. */
  function OpenDirectory(root: Node, path: string): Option<seq<Node>> {
    match Open(root, path)
    case Some(Dir(_, children, true)) => Some(children)
    case _ => None
  }

  /** Opening a path as a non-directory file. */
  function OpenFile(root: Node, path: string): Option<Node> {
    match Open(root, path)
    case Some(File(name, content, created)) => Some(File(name, content, created))
    case _ => None
  }

  // ---------------------------------------------------------------------------
  // list_directories and get_directory_file_count

  /** The names of the directory entries other than "." and "..", in order. */
  function DirNames(entries: seq<Node>): (names: seq<string>)
    ensures forall n :: n in names <==> exists k :: 0 <= k < |entries| && entries[k].Dir? && entries[k].name == n && !IsDot(n)
    decreases |entries|
  {
    if |entries| == 0 then []
    else
      var rest := DirNames(entries[1..]);
      assert forall k :: 1 <= k < |entries| ==> entries[k] == entries[1..][k - 1];
      assert forall k :: 0 <= k < |entries[1..]| ==> entries[1..][k] == entries[k + 1];
      if entries[0].Dir? && !IsDot(entries[0].name) then [entries[0].name] + rest else rest
  }

  /** The path `list_directories` opens: under the base path, unless the base is
      empty or the requested path already starts with it. */
  function ListFullPath(base: string, path: string): string {
    if base != "" && !StartsWith(path, base) then (if path != "" then base + "\\" + path else base)
    else path
  }

  /** `list_directories`: the sub-directory names; [] when not connected or when
      the directory cannot be opened. */
  function ListDirectories(c: Client, path: string): (names: seq<string>)
    ensures forall n :: n in names ==> !IsDot(n)
    ensures c.tree.None? ==> names == []
  {
    if c.tree.None? then []
    else
      match OpenDirectory(c.tree.value, ListFullPath(BasePath(c), path))
      case Some(entries) => DirNames(entries)
      case None => []
  }

  /** `get_directory_file_count`: the number of sub-directories. */
  function DirectoryCount(c: Client, path: string): nat {
    |ListDirectories(c, path)|
  }

  /** The top-level listing is the base directory's sub-directories. */
  lemma TopLevelIsBase(c: Client)
    requires c.tree.Some? && BasePath(c) != ""
    ensures ListDirectories(c, "") ==
              match OpenDirectory(c.tree.value, BasePath(c))
              case Some(entries) => DirNames(entries)
              case None => []
  {
    assert StartsWith("", BasePath(c)) == false;
  }

  /** A directory whose name does not start with the base path is counted under
      the base path. */
  lemma CountUnderBase(c: Client, d: string)
    requires c.tree.Some? && BasePath(c) != "" && d != "" && !StartsWith(d, BasePath(c))
    ensures DirectoryCount(c, d) ==
              match OpenDirectory(c.tree.value, BasePath(c) + "\\" + d)
              case Some(entries) => |DirNames(entries)|
              case None => 0
  {
  }

  /** A top-level directory whose name starts with the base path is counted at
      the share root instead (the `startswith(base_path)` test): the count the
      scanner compares can come from a different directory. */
  lemma CountAtRootWhenPrefixed(c: Client, d: string)
    requires c.tree.Some? && StartsWith(d, BasePath(c))
    ensures DirectoryCount(c, d) ==
              match OpenDirectory(c.tree.value, d)
              case Some(entries) => |DirNames(entries)|
              case None => 0
  {
  }

  // ---------------------------------------------------------------------------
  // The recursive scan

  /** `entry_path`: the child's path relative to the base. */
  function ChildPath(path: string, name: string): string {
    if path != "" then path + "\\" + name else name
  }

  /** The record built for an APK file found at `entryPath`. */
  function MakeRecord(c: Client, entryPath: string, f: Node): APKFile
    requires f.File?
  {
    APKFile(
      relativePath := "\\" + entryPath,
      fileName := f.name,
      fileSize := |f.content|,
      createdTime := f.created,
      serverPrefix := c.config.path,
      buildType := Utils.ExtractBuildType(entryPath))
  }

  /** `_scan_directory_recursive` over already-listed entries: "." and ".." are
      skipped, readable sub-directories are entered, APK files become records,
      in listing order. */
  function ScanEntries(c: Client, entries: seq<Node>, path: string): seq<APKFile>
    decreases entries
  {
    if |entries| == 0 then []
    else
      var e := entries[0];
      var here :=
        if IsDot(e.name) then []
        else if e.Dir? then (if e.readable then ScanEntries(c, e.children, ChildPath(path, e.name)) else [])
        else if Utils.IsApkFile(e.name) then [MakeRecord(c, ChildPath(path, e.name), e)]
        else [];
      here + ScanEntries(c, entries[1..], path)
  }

  /** The path `_scan_directory_recursive` opens: always under the base path. */
  function ScanFullPath(base: string, path: string): string {
    if path != "" then base + "\\" + path else base
  }

  /** `scan_apk_files(directory)`: the records of every APK file below the directory. */
  function ScanApkFiles(c: Client, directory: string): seq<APKFile> {
    if c.tree.None? then []
    else
      match OpenDirectory(c.tree.value, ScanFullPath(BasePath(c), directory))
      case Some(entries) => ScanEntries(c, entries, directory)
      case None => []
  }

  // ---------------------------------------------------------------------------
  // An independent description of the scan: flatten, filter, map

  /** A file found by the walk, with its entry path. */
  datatype Found = Found(path: string, file: Node)

  /** Every file reachable through readable, non-dot directories, with its path. */
  function Flatten(entries: seq<Node>, path: string): seq<Found>
    decreases entries
  {
    if |entries| == 0 then []
    else
      var e := entries[0];
      var here :=
        if IsDot(e.name) then []
        else if e.Dir? then (if e.readable then Flatten(e.children, ChildPath(path, e.name)) else [])
        else [Found(ChildPath(path, e.name), e)];
      here + Flatten(entries[1..], path)
  }

  function OnlyApks(fs: seq<Found>): seq<Found>
    decreases |fs|
  {
    if |fs| == 0 then []
    else (if fs[0].file.File? && Utils.IsApkFile(fs[0].file.name) then [fs[0]] else []) + OnlyApks(fs[1..])
  }

  function Records(c: Client, fs: seq<Found>): seq<APKFile>
    requires forall k :: 0 <= k < |fs| ==> fs[k].file.File?
    decreases |fs|
  {
    if |fs| == 0 then [] else [MakeRecord(c, fs[0].path, fs[0].file)] + Records(c, fs[1..])
  }

  lemma {:induction false} OnlyApksConcat(a: seq<Found>, b: seq<Found>)
    ensures OnlyApks(a + b) == OnlyApks(a) + OnlyApks(b)
    decreases |a|
  {
    if |a| == 0 {
      assert a + b == b;
    } else {
      assert (a + b)[0] == a[0];
      assert (a + b)[1..] == a[1..] + b;
      OnlyApksConcat(a[1..], b);
      var h := if a[0].file.File? && Utils.IsApkFile(a[0].file.name) then [a[0]] else [];
      assert h + (OnlyApks(a[1..]) + OnlyApks(b)) == (h + OnlyApks(a[1..])) + OnlyApks(b);
    }
  }

  lemma {:induction false} OnlyApksAreFiles(fs: seq<Found>)
    ensures forall k :: 0 <= k < |OnlyApks(fs)| ==> OnlyApks(fs)[k].file.File?
    decreases |fs|
  {
    if |fs| > 0 {
      OnlyApksAreFiles(fs[1..]);
    }
  }

  lemma {:induction false} RecordsConcat(c: Client, a: seq<Found>, b: seq<Found>)
    requires forall k :: 0 <= k < |a| ==> a[k].file.File?
    requires forall k :: 0 <= k < |b| ==> b[k].file.File?
    ensures forall k :: 0 <= k < |a + b| ==> (a + b)[k].file.File?
    ensures Records(c, a + b) == Records(c, a) + Records(c, b)
    decreases |a|
  {
    if |a| == 0 {
      assert a + b == b;
    } else {
      assert (a + b)[0] == a[0];
      assert (a + b)[1..] == a[1..] + b;
      RecordsConcat(c, a[1..], b);
    }
  }

  /** The scan is the records of the APK files of the flattened tree. */
  lemma {:induction false} ScanIsFlattenFilterMap(c: Client, entries: seq<Node>, path: string)
    ensures forall k :: 0 <= k < |OnlyApks(Flatten(entries, path))| ==> OnlyApks(Flatten(entries, path))[k].file.File?
    ensures ScanEntries(c, entries, path) == Records(c, OnlyApks(Flatten(entries, path)))
    decreases entries
  {
    OnlyApksAreFiles(Flatten(entries, path));
    if |entries| > 0 {
      var e := entries[0];
      var restFlat := Flatten(entries[1..], path);
      ScanIsFlattenFilterMap(c, entries[1..], path);
      var hereFlat :=
        if IsDot(e.name) then []
        else if e.Dir? then (if e.readable then Flatten(e.children, ChildPath(path, e.name)) else [])
        else [Found(ChildPath(path, e.name), e)];
      if !IsDot(e.name) && e.Dir? && e.readable {
        ScanIsFlattenFilterMap(c, e.children, ChildPath(path, e.name));
      }
      OnlyApksConcat(hereFlat, restFlat);
      OnlyApksAreFiles(hereFlat);
      OnlyApksAreFiles(restFlat);
      RecordsConcat(c, OnlyApks(hereFlat), OnlyApks(restFlat));
    }
  }

  // ---------------------------------------------------------------------------
  // Shape of the records

  /** What every record found below `path` looks like. */
  predicate RecordUnder(c: Client, path: string, r: APKFile) {
    && |r.relativePath| > 0 && r.relativePath[0] == '\\'
    && (path != "" ==> StartsWith(r.relativePath, "\\" + path + "\\"))
    && EndsWith(r.relativePath, r.fileName)
    && Utils.IsApkFile(r.fileName)
    && r.buildType == Utils.ExtractBuildType(r.relativePath[1..])
    && r.serverPrefix == c.config.path
    && r.downloadTime == 0
    && r.md5 == None
  }

  lemma RecordUnderParent(c: Client, path: string, name: string, r: APKFile)
    requires RecordUnder(c, ChildPath(path, name), r)
    ensures RecordUnder(c, path, r)
  {
    if path != "" {
      var p := "\\" + path + "\\";
      var q := "\\" + ChildPath(path, name) + "\\";
      assert q == p + name + "\\";
      assert r.relativePath[..|p|] == q[..|p|];
    }
  }

  /** Every scanned record is an APK below the scanned path, classified by its
      whole entry path, with the server's prefix, no downloads and no hash. */
  lemma {:induction false} ScanRecordsShape(c: Client, entries: seq<Node>, path: string)
    ensures forall r :: r in ScanEntries(c, entries, path) ==> RecordUnder(c, path, r)
    decreases entries
  {
    if |entries| > 0 {
      var e := entries[0];
      ScanRecordsShape(c, entries[1..], path);
      if !IsDot(e.name) && e.Dir? && e.readable {
        ScanRecordsShape(c, e.children, ChildPath(path, e.name));
        forall r | r in ScanEntries(c, e.children, ChildPath(path, e.name))
          ensures RecordUnder(c, path, r)
        {
          RecordUnderParent(c, path, e.name, r);
        }
      } else if !IsDot(e.name) && e.File? && Utils.IsApkFile(e.name) {
        FileRecordUnder(c, path, e);
      }
    }
  }

  /** The record of an APK file listed at `path` lies under `path`. */
  lemma FileRecordUnder(c: Client, path: string, e: Node)
    requires e.File? && Utils.IsApkFile(e.name)
    ensures RecordUnder(c, path, MakeRecord(c, ChildPath(path, e.name), e))
  {
    var r := MakeRecord(c, ChildPath(path, e.name), e);
    assert r.relativePath[1..] == ChildPath(path, e.name);
    if path != "" {
      assert r.relativePath == "\\" + path + "\\" + e.name;
      assert r.relativePath[..|path| + 2] == "\\" + path + "\\";
    }
    assert r.relativePath[|r.relativePath| - |e.name|..] == e.name;
  }

  /** A scan rooted at `d` yields paths "\d\..." and keeps the server's prefix. */
  lemma ScanApkFilesShape(c: Client, d: string, r: APKFile)
    requires r in ScanApkFiles(c, d)
    ensures RecordUnder(c, d, r)
  {
    match OpenDirectory(c.tree.value, ScanFullPath(BasePath(c), d))
    case Some(entries) => ScanRecordsShape(c, entries, d);
    case None =>
  }

  /** A "release" anywhere in the scanned directory's name classifies every file
      below it as release, whatever the file is called. */
  lemma ReleaseDirectoryIsRelease(c: Client, d: string)
    requires Utils.ExtractBuildType(d) == Utils.Release
    ensures forall r :: r in ScanApkFiles(c, d) ==> r.buildType == Utils.Release
  {
    forall r | r in ScanApkFiles(c, d)
      ensures r.buildType == Utils.Release
    {
      ScanApkFilesShape(c, d, r);
      ReleasePrefixIsRelease(r.relativePath, d);
    }
  }

  /** A path "\D\..." with a release directory D is classified release. */
  lemma ReleasePrefixIsRelease(rel: string, d: string)
    requires Utils.ExtractBuildType(d) == Utils.Release
    requires StartsWith(rel, "\\" + d + "\\")
    ensures Utils.ExtractBuildType(rel[1..]) == Utils.Release
  {
    var tail := rel[|d| + 1..];
    assert rel[..|d| + 2] == "\\" + d + "\\";
    assert rel[1..] == d + tail;
    Utils.ReleaseSurvivesExtension("", d, tail);
    assert "" + d + tail == d + tail;
  }

  // ---------------------------------------------------------------------------
  // download_file and file_exists

  /** The path a relative path is fetched from: the base path glued to it. */
  function RemotePath(c: Client, relativePath: string): string {
    BasePath(c) + relativePath
  }

  /** `file_exists`: the remote path opens as a non-directory file. */
  predicate FileExists(c: Client, relativePath: string) {
    c.tree.Some? && OpenFile(c.tree.value, RemotePath(c, relativePath)).Some?
  }

  const ChunkSize: nat := 65536

  /** A chunk `file_open.read(offset, length)` may answer for a file whose bytes
      are `content`: some bytes starting at `offset`, at most `length` of them,
      none only at the end. */
  predicate ChunkOf(data: seq<byte>, offset: nat, length: nat, content: seq<byte>) {
    && |data| <= length
    && (offset >= |content| ==> data == [])
    && (offset < |content| ==>
          && offset + |data| <= |content|
          && data == content[offset..offset + |data|]
          && (length > 0 ==> |data| > 0))
  }

  /** A share read: `None` is an exception, anything else a chunk of the file. */
  ghost predicate ReadsFrom(read: (nat, nat) -> Option<seq<byte>>, content: seq<byte>) {
    forall offset: nat, length: nat :: read(offset, length).Some? ==> ChunkOf(read(offset, length).value, offset, length, content)
  }

  /** The read a share answers in full: up to `length` bytes from `offset`. */
  function ReadChunk(content: seq<byte>, offset: nat, length: nat): (r: seq<byte>)
    ensures ChunkOf(r, offset, length, content)
  {
    if offset >= |content| then []
    else if offset + length <= |content| then content[offset..offset + length]
    else content[offset..]
  }

  /** The read of `download_file`: it raises where `fails` says so, and otherwise
      answers in full. */
  function ShareRead(content: seq<byte>, fails: (nat, nat) -> bool): (nat, nat) -> Option<seq<byte>> {
    (offset: nat, length: nat) => if fails(offset, length) then None else Some(ReadChunk(content, offset, length))
  }

  lemma ShareReadReadsFrom(content: seq<byte>, fails: (nat, nat) -> bool)
    ensures ReadsFrom(ShareRead(content, fails), content)
  {
    forall offset: nat, length: nat | ShareRead(content, fails)(offset, length).Some?
      ensures ChunkOf(ShareRead(content, fails)(offset, length).value, offset, length, content)
    {
      assert ShareRead(content, fails)(offset, length).value == ReadChunk(content, offset, length);
    }
  }

  /** The copy loop: read at the offset, stop at the first empty read, otherwise
      write the chunk and advance by its length. What is written is the file; a
      read that raises ends the copy with `None`. */
  method CopyChunks(read: (nat, nat) -> Option<seq<byte>>, ghost content: seq<byte>) returns (written: Option<seq<byte>>)
    requires ReadsFrom(read, content)
    ensures written.Some? ==> written.value == content
    ensures written.None? ==> exists offset: nat :: offset <= |content| && read(offset, ChunkSize).None?
  {
    var out: seq<byte> := [];
    var offset: nat := 0;
    while true
      invariant offset <= |content|
      invariant out == content[..offset]
      decreases |content| - offset
    {
      var data := read(offset, ChunkSize);
      if data.None? {
        return None;
      }
      if |data.value| == 0 {
        break;
      }
      out := out + data.value;
      offset := offset + |data.value|;
    }
    return Some(out);
  }

  /** `download_file`: `None` when not connected, when the path does not open as
      a file, when the local file cannot be created or written, or when a read
      raises; otherwise the bytes copied, which are the file's. */
  method DownloadFile(c: Client, relativePath: string, localWritable: bool, readFails: (nat, nat) -> bool)
    returns (copied: Option<seq<byte>>)
    ensures copied.Some? ==> FileExists(c, relativePath) && localWritable
    ensures copied.Some? ==> copied.value == OpenFile(c.tree.value, RemotePath(c, relativePath)).value.content
    ensures FileExists(c, relativePath) && localWritable && (forall offset: nat, length: nat :: !readFails(offset, length)) ==>
              copied.Some?
    ensures FileExists(c, relativePath) && localWritable && copied.None? ==>
              exists offset: nat :: offset <= |OpenFile(c.tree.value, RemotePath(c, relativePath)).value.content| &&
                                    readFails(offset, ChunkSize)
  {
    if c.tree.None? {
      return None;
    }
    var found := OpenFile(c.tree.value, RemotePath(c, relativePath));
    if found.None? || !localWritable {
      return None;
    }
    var content := found.value.content;
    ShareReadReadsFrom(content, readFails);
    copied := CopyChunks(ShareRead(content, readFails), content);
  }

  // ---------------------------------------------------------------------------
  // SMBManager.get_client

  /** The cache of connected clients. */
  datatype Manager = Manager(clients: map<string, Client>)

  datatype ClientError = UnknownServer | ConnectFailed

  datatype GetClientResult = Got(client: Client) | Failed(error: ClientError)

  /** `get_client`: a cached client is returned as is; an unconfigured name is a
      ValueError; otherwise `connect` decides between caching a new client and a
      ConnectionError. `connect` gives the share's root on success. */
  function GetClient(m: Manager, servers: seq<Binding>, connect: ServerEntry -> Option<Node>, name: string): (r: (GetClientResult, Manager))
    ensures name in m.clients ==> r == (Got(m.clients[name]), m)
    ensures name !in m.clients && !Configured(servers, name) ==> r == (Failed(UnknownServer), m)
    ensures r.0.Failed? ==> r.1 == m
    ensures r.0.Got? ==> r.1.clients == m.clients[name := r.0.client]
    ensures r.0.Got? && name !in m.clients ==>
              r.0.client.tree.Some? && r.0.client.config == Lookup(servers, name).value
  {
    if name in m.clients then (Got(m.clients[name]), m)
    else
      match Lookup(servers, name)
      case None => (Failed(UnknownServer), m)
      case Some(entry) =>
        match connect(entry)
        case Some(root) =>
          var c := Client(entry, Some(root));
          (Got(c), Manager(m.clients[name := c]))
        case None => (Failed(ConnectFailed), m)
  }

  /** A second `get_client` returns the very client the first one cached, whatever
      `connect` would now do. */
  lemma GetClientCaches(m: Manager, servers: seq<Binding>, connect: ServerEntry -> Option<Node>,
                        connect2: ServerEntry -> Option<Node>, name: string)
    requires GetClient(m, servers, connect, name).0.Got?
    ensures var (first, m1) := GetClient(m, servers, connect, name);
            GetClient(m1, servers, connect2, name) == (first, m1)
  {
  }

  /** As written, `connect` raises before connecting (it uses `uuid`, which the
      module never imports) and answers False; every uncached `get_client`
      therefore fails. */
  lemma ConnectAsWrittenAlwaysFails(m: Manager, servers: seq<Binding>, name: string)
    requires name !in m.clients
    ensures GetClient(m, servers, (e: ServerEntry) => None, name).0.Failed?
  {
  }

  /** Two caches that hold the same thing for `name`. */
  predicate SameEntry(m1: Manager, m2: Manager, name: string) {
    && (name in m1.clients <==> name in m2.clients)
    && (name in m1.clients ==> m1.clients[name] == m2.clients[name])
  }

  /** Asking for one server leaves the cache entry of every other server alone. */
  lemma GetClientKeepsOthers(m: Manager, servers: seq<Binding>, connect: ServerEntry -> Option<Node>,
                             asked: string, name: string)
    requires asked != name
    ensures SameEntry(GetClient(m, servers, connect, asked).1, m, name)
  {
  }

  /** What `get_client` answers for `name` depends only on the cache entry for `name`. */
  lemma GetClientOnlyReadsEntry(m1: Manager, m2: Manager, servers: seq<Binding>, connect: ServerEntry -> Option<Node>,
                                name: string)
    requires SameEntry(m1, m2, name)
    ensures GetClient(m1, servers, connect, name).0 == GetClient(m2, servers, connect, name).0
  {
  }
}
