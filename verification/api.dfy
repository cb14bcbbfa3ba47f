/**
 The HTTP handlers of `server/src/api.py` that change state: the bearer-token
 check, `GET /api/download` and `POST /api/refresh`. The server's state is the
 scanner's: catalog, client cache and scanning flag. The MD5 of the copied
 bytes is an opaque function (it gives "" on error), and whether the local
 temporary file can be written is a parameter.
 */
module Api {
  import opened Options
  import opened Strings
  import opened Models
  import opened Catalog
  import opened ServerConfig
  import opened Share
  import opened Scanner

  const Unauthorized := 401
  const NotFound := 404
  const InternalError := 500
  const Ok := 200

  /** `verify_token`: a refusal code when the bearer credential is not the token. */
  function VerifyToken(credential: string, token: string): (refusal: Option<int>)
    ensures refusal.None? <==> credential == token
    ensures refusal.Some? ==> refusal.value == Unauthorized
  {
    if credential != token then Some(Unauthorized) else None
  }

  // ---------------------------------------------------------------------------
  // The catalog bucket of a path

  /** The catalog bucket of a path: its second backslash-separated piece, or the
      empty string when the path has no backslash. */
  function Bucket(path: string): string {
    if '\\' in path then
      LastSegmentIsSuffix(path, '\\');
      Split(path, '\\')[1]
    else ""
  }

  /** A path of the shape the scanner writes, "\D\rest", has bucket D. */
  lemma BucketOfScannerPath(d: string, rest: string)
    requires '\\' !in d
    ensures Bucket("\\" + d + "\\" + rest) == d
  {
    var s := "\\" + d + "\\" + rest;
    assert s[1..] == d + "\\" + rest;
    SplitAfterPiece(d, '\\', rest);
  }

  /** Any path starting "\D\" has bucket D. */
  lemma BucketOfPrefixed(path: string, d: string)
    requires '\\' !in d && StartsWith(path, "\\" + d + "\\")
    ensures Bucket(path) == d
  {
    var p := "\\" + d + "\\";
    var rest := path[|p|..];
    assert path == p + rest;
    BucketOfScannerPath(d, rest);
  }

  /** Every record a scan of the top-level directory `d` stores has bucket `d`:
      the download handler updates the list the scanner wrote. */
  lemma ScannedRecordBucket(c: Client, d: string, r: APKFile)
    requires d != "" && '\\' !in d
    requires r in ScanApkFiles(c, d)
    ensures Bucket(r.relativePath) == d
  {
    ScanApkFilesShape(c, d, r);
    BucketOfPrefixed(r.relativePath, d);
  }

  /** `os.path.basename` on the server's POSIX host: the text after the last '/'. */
  function BaseName(path: string): string {
    LastSegment(path, '/')
  }

  /** The served file name keeps the share's backslashes. */
  lemma BaseNameKeepsBackslashes(path: string)
    requires '/' !in path
    ensures BaseName(path) == path
  {
    LastSegmentIsSuffix(path, '/');
  }

  // ---------------------------------------------------------------------------
  // The catalog update after a copy

  lemma {:induction false} Md5KeepsDownloads(files: seq<APKFile>, path: string, md5: string)
    ensures TotalDownloads(EditFirst(files, path, StoreMd5(md5))) == TotalDownloads(files)
    decreases |files|
  {
    if |files| > 0 {
      var r := EditFirst(files, path, StoreMd5(md5));
      if files[0].relativePath == path {
        assert r[1..] == files[1..];
      } else {
        Md5KeepsDownloads(files[1..], path, md5);
        assert r[1..] == EditFirst(files[1..], path, StoreMd5(md5));
      }
    }
  }

  /** An edit keeps the paths, so the first match stays where it was. */
  lemma EditKeepsIndex(files: seq<APKFile>, path: string, e: Edit)
    ensures FirstIndex(EditFirst(files, path, e), path) == FirstIndex(files, path)
  {
  }

  /** Lines 136-144: store the hash when there is one, then count the download,
      both in the path's bucket. */
  function RecordDownload(st: Store, server: string, path: string, md5: string): (r: Store)
    ensures r.meta == st.meta
    ensures forall s, d :: DirKey(s, d) != DirKey(server, Bucket(path)) ==> GetApkFiles(r, s, d) == GetApkFiles(st, s, d)
    ensures var before := GetApkFiles(st, server, Bucket(path));
            var after := GetApkFiles(r, server, Bucket(path));
            && |after| == |before|
            && (forall j :: 0 <= j < |before| ==>
                  after[j] == if j == FirstIndex(before, path)
                              then before[j].(downloadTime := before[j].downloadTime + 1,
                                              md5 := if md5 != "" then Some(md5) else before[j].md5)
                              else before[j])
            && TotalDownloads(after) == TotalDownloads(before) + (if FirstIndex(before, path) < |before| then 1 else 0)
  {
    var dir := Bucket(path);
    var before := GetApkFiles(st, server, dir);
    var st1 := if md5 != "" then UpdateFileMd5(st, server, dir, path, md5) else st;
    var mid := GetApkFiles(st1, server, dir);
    assert mid == if md5 != "" then EditFirst(before, path, StoreMd5(md5)) else before;
    EditKeepsIndex(before, path, StoreMd5(md5));
    Md5KeepsDownloads(before, path, md5);
    IncrementAddsOne(mid, path);
    IncrementDownloadCount(st1, server, dir, path)
  }

  /** Without a hash the stored hashes stay as they were. */
  lemma EmptyHashKeepsMd5(st: Store, server: string, path: string, j: nat)
    requires j < |GetApkFiles(st, server, Bucket(path))|
    ensures GetApkFiles(RecordDownload(st, server, path, ""), server, Bucket(path))[j].md5 ==
              GetApkFiles(st, server, Bucket(path))[j].md5
  {
  }

  // ---------------------------------------------------------------------------
  // GET /api/download

  datatype DownloadReply =
    | Served(content: seq<byte>, fileName: string)
    | Refused(code: int, detail: string)

  /** `download_file`: token, then server, then client, then existence, then the
      copy; each failure is a refusal and leaves the catalog alone. A copy that
      succeeds records the hash (if any) and one download. */
  method DownloadHandler(s: ScannerState, servers: seq<Binding>, connect: ServerEntry -> Option<Node>,
                         token: string, credential: string, path: string, server: string,
                         localWritable: bool, readFails: (nat, nat) -> bool, hash: seq<byte> -> string)
    returns (reply: DownloadReply, next: ScannerState)
    ensures credential != token ==> reply == Refused(Unauthorized, "Invalid token") && next == s
    ensures credential == token && !Configured(servers, server) ==> reply == Refused(NotFound, "Server not found") && next == s
    ensures reply.Refused? ==> next.store == s.store
    ensures next.scanning == s.scanning
    ensures reply.Served? ==>
              && credential == token
              && Configured(servers, server)
              && GetClient(s.manager, servers, connect, server).0.Got?
              && var c := GetClient(s.manager, servers, connect, server).0.client;
                 && FileExists(c, path)
                 && reply.content == OpenFile(c.tree.value, RemotePath(c, path)).value.content
                 && reply.fileName == BaseName(path)
                 && next.store == RecordDownload(s.store, server, path, hash(reply.content))
    ensures var got := GetClient(s.manager, servers, connect, server);
            credential == token && Configured(servers, server) && got.0.Got? ==>
              (reply.Refused? && reply.code == NotFound <==> !FileExists(got.0.client, path))
    ensures var got := GetClient(s.manager, servers, connect, server);
            credential == token && Configured(servers, server) && got.0.Failed? ==>
              reply.Refused? && reply.code == InternalError
    ensures var got := GetClient(s.manager, servers, connect, server);
            credential == token && Configured(servers, server) && got.0.Got? && FileExists(got.0.client, path) ==>
              && (reply.Served? ==> localWritable)
              && (localWritable && (forall offset: nat, length: nat :: !readFails(offset, length)) ==> reply.Served?)
              && (reply.Refused? ==> reply.code == InternalError)
  {
    var refusal := VerifyToken(credential, token);
    if refusal.Some? {
      return Refused(refusal.value, "Invalid token"), s;
    }
    if !Configured(servers, server) {
      return Refused(NotFound, "Server not found"), s;
    }
    var (res, m) := GetClient(s.manager, servers, connect, server);
    next := s.(manager := m);
    if res.Failed? {
      return Refused(InternalError, "Failed to connect to server: " + server), next;
    }
    var c := res.client;
    if !FileExists(c, path) {
      return Refused(NotFound, "File not found"), next;
    }
    var copied := DownloadFile(c, path, localWritable, readFails);
    if copied.None? {
      return Refused(InternalError, "Failed to download file"), next;
    }
    var content := copied.value;
    next := next.(store := RecordDownload(s.store, server, path, hash(content)));
    reply := Served(content, BaseName(path));
  }

  // ---------------------------------------------------------------------------
  // POST /api/refresh

  datatype RefreshReply = RefreshReply(code: int, message: string)

  /** `refresh_scan`: a non-empty server name queues `force_scan_server`, anything
      else `force_scan_all`. The reply is sent at once; the state is the one the
      background task leaves, and an error the task raises does not reach it. */
  function RefreshScan(s: ScannerState, servers: seq<Binding>, connect: ServerEntry -> Option<Node>,
                       token: string, credential: string, server: Option<string>, now: int): (r: (RefreshReply, ScannerState))
    ensures credential != token ==> r == (RefreshReply(Unauthorized, "Invalid token"), s)
    ensures credential == token ==> r.0.code == Ok
    ensures credential == token && server.Some? && server.value != "" ==>
              r.1 == ForceScanServer(s, servers, connect, server.value, now).state
    ensures credential == token && (server.None? || server.value == "") ==>
              r.1 == ForceScanAll(s, servers, connect, now)
  {
    if VerifyToken(credential, token).Some? then (RefreshReply(Unauthorized, "Invalid token"), s)
    else if server.Some? && server.value != "" then
      (RefreshReply(Ok, "Started refresh for server: " + server.value),
       ForceScanServer(s, servers, connect, server.value, now).state)
    else
      (RefreshReply(Ok, "Started refresh for all servers"), ForceScanAll(s, servers, connect, now))
  }

  /** A refresh of an unknown server is accepted with 200 but changes nothing. */
  lemma RefreshUnknownServer(s: ScannerState, servers: seq<Binding>, connect: ServerEntry -> Option<Node>,
                             token: string, name: string, now: int)
    requires name != "" && !Configured(servers, name)
    ensures RefreshScan(s, servers, connect, token, token, Some(name), now) ==
              (RefreshReply(Ok, "Started refresh for server: " + name), s)
  {
  }

  /** An empty server name means all servers. */
  lemma RefreshEmptyNameIsAll(s: ScannerState, servers: seq<Binding>, connect: ServerEntry -> Option<Node>,
                              token: string, now: int)
    ensures RefreshScan(s, servers, connect, token, token, Some(""), now) ==
              RefreshScan(s, servers, connect, token, token, None, now)
  {
  }
}
