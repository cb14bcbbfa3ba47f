/**
 The record types shared by server and clients: an indexed APK file, a search
 request and the file-information reply. Optional fields default as the
 pydantic models declare them; timestamps are whole seconds.
 */
module Models {
  import opened Options

  /** One indexed APK file. `buildType` is the classifier's string ("release",
      "debug" or "unknown"); `downloadTime` is the download counter. */
  datatype APKFile = APKFile(
    relativePath: string,
    fileName: string,
    fileSize: int,
    createdTime: int,
    serverPrefix: string,
    buildType: string,
    downloadTime: int := 0,
    md5: Option<string> := None)

  /** A search request; `server == None` means every configured server. */
  datatype SearchRequest = SearchRequest(
    keyword: string,
    server: Option<string> := None,
    buildType: string := "release",
    limit: int := 10,
    offset: int := 0)

  /** The `/api/file/info` reply. */
  datatype FileInfo = FileInfo(
    path: string,
    size: int,
    modifiedTime: int,
    md5: Option<string> := None,
    fileExists: bool)

  /** A record built without the counter and hash starts at zero downloads and no hash. */
  lemma NewApkFileDefaults(relativePath: string, fileName: string, fileSize: int, createdTime: int,
                           serverPrefix: string, buildType: string)
    ensures APKFile(relativePath, fileName, fileSize, createdTime, serverPrefix, buildType).downloadTime == 0
    ensures APKFile(relativePath, fileName, fileSize, createdTime, serverPrefix, buildType).md5 == None
  {
  }

  /** A request that gives only the keyword searches release builds of every
      server, first page of ten. */
  lemma SearchRequestDefaults(keyword: string)
    ensures SearchRequest(keyword).server == None
    ensures SearchRequest(keyword).buildType == "release"
    ensures SearchRequest(keyword).limit == 10
    ensures SearchRequest(keyword).offset == 0
  {
  }

  /** A file-info reply built without a hash carries none. */
  lemma FileInfoDefaults(path: string, size: int, modifiedTime: int, fileExists: bool)
    ensures FileInfo(path, size, modifiedTime, fileExists := fileExists).md5 == None
  {
  }
}
