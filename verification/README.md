# apk_finder in Dafny

A model of the core of apk_finder. The server walks SMB file shares for `.apk` files. It keeps a catalog of them in Redis, one list per top-level directory of each share. It answers keyword searches over that catalog and serves downloads. The desktop and touch clients install the downloaded files with `adb`.

The model covers the following, as pure functions over immutable datatypes:

- **Server:**
  - the incremental scanner;
  - the share walk;
  - the catalog and its search;
  - the state-changing HTTP handlers;
  - server configuration.
- **Clients:**
  - the settings file;
  - `adb` output parsing and command lines;
  - the small pure helpers of the two main windows.

Each source file has its own module:

| module | file | source |
|---|---|---|
| `Options` | `options.dfy` | — |
| `Strings` | `strings.dfy` | Python's `str` methods: `lower`, `split`, `join`, `strip`, `replace`, `int` |
| `Models` | `models.dfy` | `shared/models.py` |
| `Utils` | `utils.dfy` | `server/shared/utils.py` |
| `ServerConfig` | `serverconfig.dfy` | `server/src/config.py` |
| `Share` | `share.dfy` | `server/src/smb_client.py` |
| `Catalog` | `catalog.dfy` | `server/src/redis_client.py` |
| `Scanner` | `scanner.dfy` | `server/src/scanner.py` |
| `Api` | `api.dfy` | `server/src/api.py` |
| `ClientConfig` | `clientconfig.dfy` | `client/src/config.py` |
| `Adb` | `adb.dfy` | `client/src/adb_manager.py`, and the identical `kivy_client/src/adb_manager.py` |
| `MainWindow` | `mainwindow.dfy` | the pure parts of both `main_window.py` files |

How the model stands in for the running system:

- **SMB share.** An abstract directory tree: `Share.Node` is a file with a size, a creation time and its bytes, or a directory with children.
- **Connecting.** A parameter `connect: ServerEntry -> Option<Node>`.
- **Redis database.** A pair of maps from `(server, directory)` keys: one to the file list, one to the directory metadata.
- **Redis `KEYS` reply.** A search takes it as a parameter (`listing`), unconstrained. A true reply lists each stored key once, in any order, and is modelled by `Catalog.KeysReply`. The lemmas about a complete, duplicate-free reply (`Catalog.CollectKeysCountsOnce`, `Catalog.CollectIsComplete`) state what a search then finds.
- **Clock.** The time is an integer parameter `now`.
- **Subprocesses.** An `adb` call becomes a `Run` value: a completed process with exit code, stdout and stderr, or a timeout.

Where the code and its design documentation disagree, the model follows the code:

- **Rescans.** A rescan replaces a directory's list wholesale. Download counts and hashes are lost (`Scanner.RescanLosesCounters`). Nothing merges records by path.
- **Build type of a scanned file.** It comes from the whole entry path, not just the file name (`Share.ReleaseDirectoryIsRelease`).
- **Downloads.** There is no Range handling, no retry with back-off and no copy fallback.
- **Download file name.** The served name is `os.path.basename` on the POSIX server host, so a Windows-style relative path keeps its backslashes (`Api.BaseNameKeepsBackslashes`).
- **SMB connection.** `SMBClient.connect` uses `uuid` without importing it, so as written it always fails. An uncached `get_client` therefore always raises (`Share.ConnectAsWrittenAlwaysFails`). The rest of the model keeps the connection as a parameter, so that the success path can be stated at all.
- **Search keys.** A search reads every key of the form `apk_finder:<server>:<dir>` that does not end in `:meta`. A top-level directory literally named `meta` is therefore never searched (`Catalog.RenderedKeyParts`).

## Model

| member | source | states |
|---|---|---|
| Utils.IsApkFileLastFour | apk_finder/server/shared/utils.py:37-39 | a name is an APK file exactly when its last four characters, lower-cased, are ".apk" |
| Utils.IsApkFileIgnoresCase | apk_finder/server/shared/utils.py:37-39 | any capitalisation of the ".apk" extension is accepted, and the test answers the same on the lower-cased name |
| Utils.ExtractBuildType | apk_finder/server/shared/utils.py:42-49 | the result is always release, debug or unknown: release iff "release" occurs case-insensitively, debug iff "debug" occurs and "release" does not |
| Utils.ReleaseWinsOverDebug | apk_finder/server/shared/utils.py:44-46 | a name containing both "release" and "debug" is classified release |
| Utils.ReleaseSurvivesExtension | apk_finder/server/shared/utils.py:44-46 | text classified release stays release however it is extended on either side (so a release directory makes every file below it release) |
| Utils.ParseSearchKeywords | apk_finder/server/shared/utils.py:32-34 | no keyword is empty and none has surrounding white space |
| Utils.KeywordsRoundTrip | apk_finder/server/shared/utils.py:32-34 | joining clean keywords with the bar separator and parsing gives back the same keywords in the same order |
| Utils.BlankPiecesVanish | apk_finder/server/shared/utils.py:34 | pieces made only of white space are all dropped |
| Utils.StrippedNonEmptyKeeps | apk_finder/server/shared/utils.py:34 | pieces that are already trimmed and non-empty all survive, unchanged and in order |
| Utils.ParseInterval | apk_finder/server/shared/utils.py:63-83 | the empty text, a non-integer number part or an unknown unit letter give the 300-second default; otherwise the number times the unit's seconds |
| Utils.ParseIntervalOfRendered | apk_finder/server/shared/utils.py:68-81 | a decimal n followed by s, m, h or d (either case) parses back to n, 60n, 3600n or 86400n seconds |
| Utils.FiveMinutes | apk_finder/server/shared/utils.py:76-77 | "5m" is 300 seconds |
| Utils.ThirtyMinutes | apk_finder/server/shared/utils.py:76-77 | "30m" is 1800 seconds |
| Utils.FileSizeUnit | apk_finder/server/shared/utils.py:20-28 | size 0 is "0B"; for a positive size the unit index is the largest k ≤ 4 with size ≥ 1024^k, so sizes below 1024 are in bytes |
| Utils.ScaledBounds | apk_finder/server/shared/utils.py:24-27 | the loop's value times its scale is the size, so "value ≥ 1" and "value < 1024" bound the size between successive powers of 1024 |
| Utils.SafePathJoin | apk_finder/server/shared/utils.py:52-54 | the joined path contains no backslash |
| Utils.PosixJoinPlain | apk_finder/server/shared/utils.py:52-54 | for parts with no slash at their ends, `os.path.join` is joining with "/" |
| Models.NewApkFileDefaults | apk_finder/shared/models.py:6-14 | a new record has no downloads and no hash |
| Models.SearchRequestDefaults | apk_finder/shared/models.py:17-22 | a request searches all servers for release builds, 10 results from offset 0, unless told otherwise |
| Models.FileInfoDefaults | apk_finder/shared/models.py:43-48 | file information carries no hash unless one is given |
| ServerConfig.LoadFileServers | apk_finder/server/src/config.py:32-50 | the servers are exactly those of FILE_SERVER_1 … FILE_SERVER_n, in order, where FILE_SERVER_(n+1) is unset or empty |
| ServerConfig.LoadedFromUnique | apk_finder/server/src/config.py:34-42 | the environment determines the server list completely |
| ServerConfig.LaterIndicesIgnored | apk_finder/server/src/config.py:34-42 | setting a variable past the first gap does not change the server list |
| ServerConfig.KeysContiguous | apk_finder/server/src/config.py:44-49 | the keys are server_1 … server_n without gaps or repeats, and entry i is named "Server i" |
| ServerConfig.MissingCredentialsAreEmpty | apk_finder/server/src/config.py:46-47 | a missing user or password becomes the empty string |
| ServerConfig.Lookup | apk_finder/server/src/config.py:32-50 | a server name is found iff it is configured, and then the entry is the first one bound to that key |
| ServerConfig.Defaults | apk_finder/server/src/config.py:17-25 | with nothing set, scans run every 300 s, temp cleanup every 1800 s, and the token is "default_token" |
| ServerConfig.EmptyIntervalIsFiveMinutes | apk_finder/server/src/config.py:17-18 | an interval variable set to the empty text means 300 s, not the 30-minute default |
| Share.DirNames | apk_finder/server/src/smb_client.py:96-99 | the names listed are exactly those of the sub-directories other than "." and ".." |
| Share.ListDirectories | apk_finder/server/src/smb_client.py:69-106 | a listing never contains "." or "..", and is empty when the client is not connected |
| Share.TopLevelIsBase | apk_finder/server/src/smb_client.py:76-80 | listing the top level lists the share's base directory |
| Share.CountUnderBase | apk_finder/server/src/smb_client.py:108-115 | the sub-directory count of a top-level directory is the number of its listed sub-directories, 0 if it cannot be opened |
| Share.CountAtRootWhenPrefixed | apk_finder/server/src/smb_client.py:76-80 | a path that already starts with the base is opened as given, not under the base again |
| Share.ScanIsFlattenFilterMap | apk_finder/server/src/smb_client.py:127-171 | the recursive scan equals: list every file of the tree in walk order, keep the APK files, make one record each |
| Share.OnlyApksConcat | apk_finder/server/src/smb_client.py:146-166 | keeping APK files distributes over concatenation, so the walk keeps order |
| Share.ScanApkFilesShape | apk_finder/server/src/smb_client.py:149-165 | every record of a scan rooted at D has a path "\D\…", the configured server prefix, no downloads, no hash, and the build type of its whole path |
| Share.ReleaseDirectoryIsRelease | apk_finder/server/src/smb_client.py:162 | every file found below a directory whose name says release is classified release |
| Share.CopyChunks | apk_finder/server/src/smb_client.py:193-202 | reading chunks at an advancing offset until the first empty read writes exactly the remote content; a read that raises ends the copy with nothing, and only a read raising at some offset within the file can do so |
| Share.ShareReadReadsFrom | apk_finder/server/src/smb_client.py:193-198 | a share read that does not raise returns a prefix of the bytes at the offset, and something whenever bytes remain |
| Share.DownloadFile | apk_finder/server/src/smb_client.py:173-210 | a copy yields something only when the remote file exists and the local file can be written, and then it yields the file's bytes; with both and no read raising it succeeds; when both hold and it fails, some read raised |
| Share.GetClient | apk_finder/server/src/smb_client.py:271-284 | a cached client is returned as is; an unconfigured name fails without touching the cache; a new client is connected from the configured entry; a success leaves the cache as before plus the name bound to the client returned |
| Share.GetClientCaches | apk_finder/server/src/smb_client.py:273-275 | after one successful call, later calls return the same client whatever the network does |
| Share.GetClientKeepsOthers | apk_finder/server/src/smb_client.py:271-284 | asking for one server leaves every other server's cache entry as it was |
| Share.GetClientOnlyReadsEntry | apk_finder/server/src/smb_client.py:273-284 | what a call answers for a server depends only on that server's cache entry |
| Share.ConnectAsWrittenAlwaysFails | apk_finder/server/src/smb_client.py:37 | with a connect that never succeeds, every uncached client request fails |
| Catalog.SetApkFiles | apk_finder/server/src/redis_client.py:38-47 | after storing a list, reading that directory gives the list; every other directory and all metadata read as before |
| Catalog.SetDirectoryMeta | apk_finder/server/src/redis_client.py:61-68 | after storing metadata, reading it gives it back; other directories and all file lists are unchanged |
| Catalog.NeverWrittenReadsEmpty | apk_finder/server/src/redis_client.py:25-36 | a directory never written reads as no files and no metadata |
| Catalog.GetAfterSet | apk_finder/server/src/redis_client.py:25-47 | a read after a write sees the write at that key and the old value at every other |
| Catalog.MetaKeyIff | apk_finder/server/src/redis_client.py:86 | a key is skipped as metadata iff its last ":" segment is "meta" |
| Catalog.RenderedKeyParts | apk_finder/server/src/redis_client.py:82-89 | the directory read back from a file-list key is the one written, and such a key is skipped only for a directory named "meta" |
| Catalog.SearchTerms | apk_finder/server/src/redis_client.py:114 | the terms are the parsed keywords, lower-cased, in order, none empty |
| Catalog.FilterFiles | apk_finder/server/src/redis_client.py:109-130 | a file is kept iff it matches the build type and every term, and the result is an order-preserving subsequence of the input |
| Catalog.FilterConcat | apk_finder/server/src/redis_client.py:116-128 | filtering distributes over concatenation |
| Catalog.KeywordsAreConjunctive | apk_finder/server/src/redis_client.py:123-126 | a file matches two keywords joined by the bar separator iff it matches each of them alone |
| Catalog.EmptyKeywordMatchesByBuildType | apk_finder/server/src/redis_client.py:118-123 | with no keywords a file matches iff the build type is "combine" or equals the file's |
| Catalog.MatchIgnoresCase | apk_finder/server/src/redis_client.py:124 | matching does not depend on the case of the file name |
| Catalog.SortByCreatedDesc | apk_finder/server/src/redis_client.py:97 | the sorted list is a permutation of the input, non-increasing in creation time |
| Catalog.SortIsStable | apk_finder/server/src/redis_client.py:97 | files with equal creation times keep their original relative order |
| Catalog.PageAtMostLimit | apk_finder/server/src/redis_client.py:101 | a page never holds more than `limit` files |
| Catalog.PagesTile | apk_finder/server/src/redis_client.py:101 | adjacent slices concatenate to the slice spanning both |
| Catalog.SliceBound | apk_finder/server/src/redis_client.py:101 | Python's slice index clamping, including negative indices counted from the end |
| Catalog.SelectedServers | apk_finder/server/src/redis_client.py:78 | a non-empty server name searches only that server; otherwise every configured server |
| Catalog.CollectKeysMembers | apk_finder/server/src/redis_client.py:85-91 | a file is collected iff some non-meta key names a directory whose list holds it |
| Catalog.CollectServersMembers | apk_finder/server/src/redis_client.py:80-91 | a file is collected iff it is collected for one of the selected servers |
| Catalog.CollectKeysIgnoresMetaDirectory | apk_finder/server/src/redis_client.py:86-87 | what is stored under the directory named "meta" never affects a search |
| Catalog.CollectIsComplete | apk_finder/server/src/redis_client.py:80-91 | every file of every listed non-meta directory of a selected server is collected |
| Catalog.CollectKeysCountsOnce | apk_finder/server/src/redis_client.py:80-91 | on a KEYS reply listing each directory once, a record held by one directory only is collected exactly as many times as that directory holds it |
| Catalog.Search | apk_finder/server/src/redis_client.py:70-107 | the total is the size of the ranked list, and a page holds at most `limit` files |
| Catalog.SearchItemsAreRanked | apk_finder/server/src/redis_client.py:94-101 | every returned file matches the query and comes from a selected server; the page is non-increasing in creation time and a contiguous block of the ranked list |
| Catalog.TotalCountsMatches | apk_finder/server/src/redis_client.py:94-100 | the total counts every matching file, before slicing |
| Catalog.TotalIgnoresPaging | apk_finder/server/src/redis_client.py:100 | the total does not depend on offset or limit |
| Catalog.ConsecutivePages | apk_finder/server/src/redis_client.py:101 | two consecutive pages together are the page spanning both |
| Catalog.NamedServerOnly | apk_finder/server/src/redis_client.py:78-91 | a search of one named server returns only that server's files |
| Catalog.IncrementDownloadCount | apk_finder/server/src/redis_client.py:181-191 | only the first record with the path gains one download; every other record, directory and all metadata are unchanged |
| Catalog.UpdateFileMd5 | apk_finder/server/src/redis_client.py:193-203 | only the first record with the path gets the hash; everything else is unchanged |
| Catalog.IncrementAddsOne | apk_finder/server/src/redis_client.py:184-189 | the directory's total download count grows by one iff some record has the path |
| Scanner.ScanDirectory | apk_finder/server/src/scanner.py:95-131 | an unchanged directory (same count, no sentinel) is left alone; otherwise its list becomes the fresh scan and its metadata the new count, time and number of files; other directories are untouched |
| Scanner.NeverScannedIsScanned | apk_finder/server/src/scanner.py:102-108 | a directory without metadata, or without a count in it, is always rescanned |
| Scanner.ResetForcesRescan | apk_finder/server/src/scanner.py:145-147 | after a forced reset the next scan of the directory rescans it |
| Scanner.ScanDirectoryIdempotent | apk_finder/server/src/scanner.py:108-126 | scanning an unchanged share a second time changes nothing |
| Scanner.RescanLosesCounters | apk_finder/server/src/scanner.py:115-118 | after a rescan every record of the directory is a fresh one with no downloads and no hash |
| Scanner.UnreadableDirectoryIsEmptied | apk_finder/server/src/scanner.py:99-118 | a directory that cannot be opened is emptied unless its cached count was already 0 |
| Scanner.ScanDirectoriesFrame | apk_finder/server/src/scanner.py:83-88 | directories not in the loop, and other servers, are untouched |
| Scanner.ScanDirectoriesEach | apk_finder/server/src/scanner.py:83-88 | each listed directory ends as its own scan alone would leave it, whatever happens to the others |
| Scanner.ScanServer | apk_finder/server/src/scanner.py:74-93 | a server that cannot be reached leaves the catalog unchanged; the scanning flag is not touched |
| Scanner.ScanServerCoversListing | apk_finder/server/src/scanner.py:80-88 | every top-level directory of the share ends with the list and metadata its own scan gives |
| Scanner.ScanServerFrame | apk_finder/server/src/scanner.py:74-93 | scanning one server leaves every other server's directories and cached client alone |
| Scanner.ScanEachFrame | apk_finder/server/src/scanner.py:63-65 | a server the loop does not visit keeps its directories and its cached client |
| Scanner.ScanEachCoversListing | apk_finder/server/src/scanner.py:63-65 | in the loop over distinct servers, every top-level directory of a reachable visited server ends as its own scan from the starting state would leave it |
| Scanner.ScanAllServersCoversListing | apk_finder/server/src/scanner.py:52-72 | when no scan runs, every top-level directory of every configured, reachable server ends with the list and metadata its own scan gives |
| Scanner.ScanAllServers | apk_finder/server/src/scanner.py:52-72 | nothing happens while a scan runs; otherwise the flag is clear afterwards |
| Scanner.ResetAll | apk_finder/server/src/scanner.py:145-147 | every listed directory gets the -1 sentinel; file lists and other metadata are unchanged |
| Scanner.ForceScanServer | apk_finder/server/src/scanner.py:133-154 | an unknown server raises with the state unchanged; any raise leaves the catalog unchanged |
| Scanner.ForceScanRescansEverything | apk_finder/server/src/scanner.py:141-150 | after a forced scan every top-level directory holds its fresh scan, whatever the cached counts said |
| Scanner.ResetServer | apk_finder/server/src/scanner.py:162-167 | resetting a server changes no file list and not the scanning flag |
| Scanner.ResetServerFrame | apk_finder/server/src/scanner.py:162-167 | resetting one server leaves every other server's metadata and cached client alone |
| Scanner.ResetServerResetsListing | apk_finder/server/src/scanner.py:162-167 | resetting a reachable server writes the -1 sentinel into each of its top-level directories and keeps its client cached |
| Scanner.ResetEach | apk_finder/server/src/scanner.py:160-170 | the reset loop changes no file list and not the scanning flag |
| Scanner.ResetEachFrame | apk_finder/server/src/scanner.py:160-170 | a server the reset loop does not visit keeps its metadata and its cached client |
| Scanner.ResetEachResetsListing | apk_finder/server/src/scanner.py:160-170 | the reset loop over distinct servers writes the -1 sentinel into every top-level directory of every reachable server it visits |
| Scanner.ForceScanAll | apk_finder/server/src/scanner.py:156-173 | the scanning flag is as before |
| Scanner.ForceScanAllRescansEverything | apk_finder/server/src/scanner.py:156-173 | when no scan runs, every top-level directory of every configured, reachable server holds its fresh scan afterwards, whatever the cached counts said |
| Scanner.ForceScanAllWhileScanning | apk_finder/server/src/scanner.py:160-173 | while another scan runs, the forced scan amounts to the resets alone |
| Scanner.ForceScanAllResetsWhileScanning | apk_finder/server/src/scanner.py:156-173 | while another scan runs, no file list changes, every top-level directory of every configured, reachable server holds the -1 sentinel, and the next full scan rescans it |
| Scanner.CleanupTempFiles | apk_finder/server/src/scanner.py:185-194 | an entry is removed iff it is a regular file older than 3600 s |
| Scanner.CleanupKeepsBoundary | apk_finder/server/src/scanner.py:192 | a file exactly 3600 s old is kept, and so is a directory of any age |
| Api.VerifyToken | apk_finder/server/src/api.py:38-42 | a credential is refused, with 401, iff it differs from the token |
| Api.BucketOfScannerPath | apk_finder/server/src/api.py:139 | the bucket of a path "\D\…" is D |
| Api.ScannedRecordBucket | apk_finder/server/src/api.py:139-143 | every record a scan of directory D stores has bucket D, so a download updates the list the scanner wrote |
| Api.BaseNameKeepsBackslashes | apk_finder/server/src/api.py:128 | the served file name of a path without "/" is the whole path |
| Api.RecordDownload | apk_finder/server/src/api.py:136-144 | only the first matching record of the path's bucket changes: one more download, and the hash if it is non-empty; the bucket's total downloads grow by one iff the path is there |
| Api.EmptyHashKeepsMd5 | apk_finder/server/src/api.py:136-140 | an empty hash leaves every stored hash as it was |
| Api.DownloadHandler | apk_finder/server/src/api.py:112-158 | checks token (401), server (404), connection (500), existence (404), copy (500), in that order; every refusal leaves the catalog alone; a success serves the file's bytes and records the download |
| Api.RefreshScan | apk_finder/server/src/api.py:92-109 | a wrong token gets 401 and changes nothing; otherwise 200, with a forced scan of the named server, or of all servers when none is named |
| Api.RefreshUnknownServer | apk_finder/server/src/api.py:98-103 | refreshing an unknown server is accepted but changes nothing |
| Api.RefreshEmptyNameIsAll | apk_finder/server/src/api.py:98 | an empty server name means all servers |
| ClientConfig.LoadConfig | apk_finder/client/src/config.py:35-43 | a missing or unreadable file reads as {} |
| ClientConfig.GetSetting | apk_finder/client/src/config.py:55-58 | the stored value when the key is present, otherwise the default; a non-object document raises |
| ClientConfig.SetSetting | apk_finder/client/src/config.py:61-65 | a file that can be opened for writing ends up holding the loaded settings with the key assigned; a file that cannot be opened is left as it was |
| ClientConfig.GetAfterSet | apk_finder/client/src/config.py:55-65 | after a successful save, reading the key gives the value set |
| ClientConfig.SetKeepsOthers | apk_finder/client/src/config.py:55-65 | setting one key leaves every other key reading as before |
| ClientConfig.UnreadableFileIsReplaced | apk_finder/client/src/config.py:37-43 | saving over a missing or unreadable file leaves only the new key |
| Adb.LinesRoundTrip | apk_finder/client/src/adb_manager.py:27 | splitting trimmed output at newlines gives back the lines written |
| Adb.DeviceModel | apk_finder/client/src/adb_manager.py:45-57 | the trimmed output on success, "Unknown Device" otherwise |
| Adb.DeviceLine | apk_finder/client/src/adb_manager.py:29-33 | a line "serial\tstate" gives a device iff the state is "device", and then with that serial |
| Adb.NoTabNoDevice | apk_finder/client/src/adb_manager.py:29 | a line without a tab never gives a device |
| Adb.ParseDevices | apk_finder/client/src/adb_manager.py:28-39 | every device found has status "device" and the model its own query reports |
| Adb.ParseDevicesMembers | apk_finder/client/src/adb_manager.py:28-39 | a serial is reported iff some line announces it as a ready device |
| Adb.GetConnectedDevices | apk_finder/client/src/adb_manager.py:19-43 | a failed or timed-out run gives no devices |
| Adb.DevicesRoundTrip | apk_finder/client/src/adb_manager.py:19-43 | for output of a header followed by one ready line per serial, the serials come back in order |
| Adb.HeaderIsSkipped | apk_finder/client/src/adb_manager.py:27 | the first line is never read as a device |
| Adb.InstallArgv | apk_finder/client/src/adb_manager.py:64-80 | the command starts with adb and ends with the APK path |
| Adb.InstallArgvRoundTrip | apk_finder/client/src/adb_manager.py:64-80 | the request can be read back from the command: serial, the -r, -d and -t flags and the path |
| Adb.DecodedArgvIsBuilt | apk_finder/client/src/adb_manager.py:64-80 | every command of the decodable shape is the one built from its decoding, so the shape is exactly adb, optional "-s serial", "install", flags in order, path |
| Adb.InstallOutcome | apk_finder/client/src/adb_manager.py:82-93 | success iff exit code 0 and "Success" in stdout; the message is stdout + stderr, or the timeout text |
| Adb.ExitZeroIsNotEnough | apk_finder/client/src/adb_manager.py:85 | a run that exits 0 without "Success" is a failure |
| Adb.PackageLinesMembers | apk_finder/client/src/adb_manager.py:129-132 | a name is listed iff some line starting "package:" gives it once the prefix is removed and the rest trimmed |
| Adb.GetInstalledPackages | apk_finder/client/src/adb_manager.py:115-138 | a failed run lists no packages |
| Adb.PackagesRoundTrip | apk_finder/client/src/adb_manager.py:115-138 | for a listing of "package:" lines, the names come back in order |
| Adb.StartActivityArgv | apk_finder/kivy_client/src/adb_manager.py:212-225 | the command starts with adb and ends with the intent |
| Adb.IntentRoundTrip | apk_finder/kivy_client/src/adb_manager.py:220-221 | with an activity, the intent splits back into package and activity |
| Adb.IntentWithoutActivity | apk_finder/kivy_client/src/adb_manager.py:222-223 | with no activity, or an empty one, the intent is the package |
| MainWindow.BuildTabType | apk_finder/client/src/main_window.py:402-410 | tab 0 is release, tab 1 debug, every other index combine |
| MainWindow.TabsMatchButtons | apk_finder/kivy_client/src/main_window.py:657-664 | the build type of any desktop tab, selected on the touch client, shows exactly that button pressed |
| MainWindow.OnBuildTypeSelected | apk_finder/kivy_client/src/main_window.py:657-664 | each button is down iff its build type is the one selected |
| MainWindow.ButtonsShowSelection | apk_finder/kivy_client/src/main_window.py:662-664 | for release, debug or combine exactly the selected button is down; for anything else none is |
| MainWindow.SmbPathEndsWithRemotePath | apk_finder/client/src/main_window.py:540 | the copied SMB path ends with the path the server reads the file from |
| MainWindow.HttpPath | apk_finder/client/src/main_window.py:545-562 | an HTTP path exists iff the prefix starts with two backslashes and splits into at least four parts |
| MainWindow.HttpPathOfShare | apk_finder/client/src/main_window.py:551-556 | for "\\host\share…" the HTTP path is http://host/share… followed by the relative path with "/" for "\" |
| MainWindow.HostOnlyHasNoHttpPath | apk_finder/client/src/main_window.py:553-562 | a prefix naming only a host has no HTTP path |
| MainWindow.HttpPathHasNoBackslash | apk_finder/client/src/main_window.py:554-556 | an HTTP path never contains a backslash |
| MainWindow.FindServerNameFromPrefix | apk_finder/client/src/main_window.py:600-605 | the name of the first server serving the prefix, or "server_1" when none does |
| MainWindow.FoundServerServesPrefix | apk_finder/kivy_client/src/main_window.py:901-906 | when some configured server serves the prefix, the name found is configured and serves that prefix |
| MainWindow.GetSelectedFile | apk_finder/kivy_client/src/main_window.py:259-263 | a file iff the row is within bounds, and then the file at that row |
| MainWindow.OnServerSelected | apk_finder/kivy_client/src/main_window.py:643-652 | "All Servers" clears the selection; otherwise the first server with that display name is selected, and an unknown name changes nothing |
| MainWindow.ChoosingDisplayNameSelectsServer | apk_finder/kivy_client/src/main_window.py:649-652 | with distinct display names, choosing a server's display name selects that server |
| MainWindow.WithoutName | apk_finder/kivy_client/src/main_window.py:792 | exactly the entries with another name survive, in their original order |
| MainWindow.AddRecentDownload | apk_finder/kivy_client/src/main_window.py:783-798 | the new entry is first; at most 10 entries; no older entry has its name; the older ones follow in their previous order |
| MainWindow.AddKeepsNamesUnique | apk_finder/kivy_client/src/main_window.py:792-798 | if names were unique before, they are after |
| MainWindow.DownloadAgainReplaces | apk_finder/kivy_client/src/main_window.py:792-795 | downloading the same name twice leaves only the second entry, where the first one stood |
| MainWindow.ClearRecentDownloads | apk_finder/kivy_client/src/main_window.py:816-819 | the list is empty afterwards |
| MainWindow.AddAfterClear | apk_finder/kivy_client/src/main_window.py:816-819 | the first download after clearing is the only entry |

## Left out

- `calculate_md5`: the hash is an opaque function parameter; file reading and hashing are not modelled.
- `format_file_size`: only the unit choice is modelled. The `float` division and the `"{:.1f}"` rendering are left out.
- `validate_smb_path`: it rests on a Unicode `\w` regular expression, which is not modelled.
- Redis and JSON: the connection, serialisation with `default=str`, the `KEYS` glob semantics and the `last_updated` timestamps are left out. The key listing is a parameter, and datetimes are integers.
- `get_system_status`, `get_scan_status`, and the `/`, `/api/status`, `/api/servers`, `/api/file/info` and `/health` endpoints are left out: they report, but do not change, the catalog.
- The `/api/search` endpoint: it only forwards to `Catalog.Search`, so its request and response plumbing is left out.
- `get_file_info` and `SMBClient.disconnect`, `disconnect_all`: foreign SMB calls.
- The smbprotocol session (`connect`, `Open`, `query_directory`, `query_info`): the share is an abstract tree. The success path of `connect` is unreachable as written and is a parameter here.
- Concurrency: the APScheduler jobs, threads and `scan_lock` are left out. The check-then-lock race in `scan_all_servers` is out too; the `scanning` flag is modelled sequentially.
- Errors inside `scan_directory`: exceptions are caught and logged there. The model has no separate exception path. A directory that cannot be opened behaves as the code does: count 0 and an empty scan.
- `os.remove` failing in `cleanup_temp_files`: a failed removal only logs, so the entry would stay; the model removes every expired file.
- The temporary download file: its naming and `makedirs` are left out. Whether it can be created and written is one boolean parameter, `localWritable`, of the handler and of `Share.DownloadFile`.
- Share.DownloadFile: a local write that fails partway through the copy is folded into `localWritable`. The model does not tell a local file left half-written from one never opened; either way the call answers False.
- `uninstall_package`, `get_package_info`, `push_file`, `pull_file`, `check_adb_available` and the subprocess timeouts other than install's: outside the modelled adb logic.
- `save_config` / `json.dump` formatting: only the map's content is modelled.
- All GUI widget code, the HTTP client (`api_client.py`), settings dialogs, styles, entry points and installers.
- Strings.Lower: lower-cases ASCII letters only; Python's `str.lower` also folds other Unicode letters.
- Strings.IsDigit: accepts the ASCII digits only. Python's `int()`, behind `parse_interval` and the interval settings, also accepts other Unicode decimal digits; such text takes the default here.
- Catalog.SetApkFiles: the two maps keep file lists and metadata apart. In Redis the list of a directory named "meta" is written to the fields "files" and "last_updated" of the hash `apk_finder:<server>:meta`. Those are the fields that hold the metadata of directories named "files" and "last_updated". The frame clause on metadata does not hold for those names.
- Catalog.SetDirectoryMeta: for the same reason, the metadata of a directory named "files" or "last_updated" overwrites part of the file list of a directory named "meta". The frame clause on file lists does not hold there.
- Catalog.GetAfterSet: inherits the same exception for the directories "meta", "files" and "last_updated".
- Catalog.Search: takes the `KEYS` reply as an unconstrained parameter. Completeness and single counting are proved only for a true reply, by `Catalog.CollectIsComplete` and `Catalog.CollectKeysCountsOnce`. A reply that repeats a key would count its records twice, and one that omits a key would hide them.
- ClientConfig.SetSetting: `writable` stands for the `open(..., 'w')`; values are assumed serialisable. A `json.dump` that fails after the open has truncated the file is not modelled.
- MainWindow.HttpPath: `client/src/main_window.py` line 556 writes a backslash inside an f-string expression, which Python accepts only from version 3.12. The model follows that reading; earlier Pythons reject the module.
- Share.Walk: assumes names within one directory are unique, as on an SMB share; the first child with a name is the one opened.
- Catalog.ConsecutivePages: requires a non-negative offset and non-negative limits; negative slice indices are modelled by `Catalog.SliceBound` but not covered by this lemma.
- Utils.FileSizeUnit: the unit loop runs on integers with powers of 1024 rather than on `float` division; `Utils.ScaledBounds` relates the two.
