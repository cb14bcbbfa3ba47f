/**
 The Redis catalog of `redis_client.py`. A file list lives in the hash
 `apk_finder:<server>:<directory>` (field `files`) and the per-directory scan
 metadata in the hash `apk_finder:<server>:meta` (one field per directory).
 Both hashes are modelled as maps keyed by (server, directory). The order in
 which Redis `KEYS` returns the keys of a server is not determined by the
 store, so it is a parameter of the search (`listing`).
 */
module Catalog {
  import opened Options
  import opened Strings
  import opened Models
  import Utils

  datatype DirKey = DirKey(server: string, directory: string)

  /** The metadata hash field of one directory. Every entry is optional because a
      forced reset writes `subdir_count` alone. */
  datatype DirMeta = DirMeta(subdirCount: Option<int>, lastScan: Option<int> := None, filesCount: Option<int> := None)

  datatype Store = Store(files: map<DirKey, seq<APKFile>>, meta: map<DirKey, DirMeta>)

  const EmptyStore: Store := Store(map[], map[])

  const KeyPrefix: string := "apk_finder:"

  /** The Redis key of a directory's file-list hash. */
  function RenderKey(server: string, directory: string): string {
    KeyPrefix + server + ":" + directory
  }

  // ---------------------------------------------------------------------------
  // get/set of file lists and metadata

  /** `get_apk_files`: the stored list, or [] for a key never written. */
  function GetApkFiles(st: Store, server: string, directory: string): seq<APKFile> {
    var k := DirKey(server, directory);
    if k in st.files then st.files[k] else []
  }

  /** `set_apk_files`: replaces the directory's list wholesale. */
  function SetApkFiles(st: Store, server: string, directory: string, files: seq<APKFile>): (r: Store)
    ensures GetApkFiles(r, server, directory) == files
    ensures r.meta == st.meta
    ensures forall k :: k in r.files <==> k in st.files || k == DirKey(server, directory)
    ensures forall s, d :: DirKey(s, d) != DirKey(server, directory) ==> GetApkFiles(r, s, d) == GetApkFiles(st, s, d)
  {
    st.(files := st.files[DirKey(server, directory) := files])
  }

  /** `get_directory_meta`: the stored metadata, or None. */
  function GetDirectoryMeta(st: Store, server: string, directory: string): Option<DirMeta> {
    var k := DirKey(server, directory);
    if k in st.meta then Some(st.meta[k]) else None
  }

  /** `set_directory_meta`: replaces one directory's metadata field. */
  function SetDirectoryMeta(st: Store, server: string, directory: string, m: DirMeta): (r: Store)
    ensures GetDirectoryMeta(r, server, directory) == Some(m)
    ensures r.files == st.files
    ensures forall s, d :: DirKey(s, d) != DirKey(server, directory) ==> GetDirectoryMeta(r, s, d) == GetDirectoryMeta(st, s, d)
  {
    st.(meta := st.meta[DirKey(server, directory) := m])
  }

  /** A key never written reads as an empty list and no metadata, however
      many other keys have been written. */
  lemma NeverWrittenReadsEmpty(st: Store, server: string, directory: string)
    requires DirKey(server, directory) !in st.files && DirKey(server, directory) !in st.meta
    ensures GetApkFiles(st, server, directory) == []
    ensures GetDirectoryMeta(st, server, directory) == None
  {
  }

  /** Reading back after a write, for any pair of keys. */
  lemma GetAfterSet(st: Store, server: string, directory: string, files: seq<APKFile>, s: string, d: string)
    ensures GetApkFiles(SetApkFiles(st, server, directory, files), s, d) ==
              if s == server && d == directory then files else GetApkFiles(st, s, d)
  {
  }

  // ---------------------------------------------------------------------------
  // Keys returned by KEYS

  /** A key is skipped as a file list when its rendered name ends with ":meta". */
  predicate IsMetaKey(key: string) {
    EndsWith(key, ":meta")
  }

  /** For a key containing ':', ending with ":meta" is the same as having "meta"
      as the text after the last ':'. */
  lemma MetaKeyIff(key: string)
    requires ':' in key
    ensures IsMetaKey(key) <==> LastSegment(key, ':') == "meta"
  {
    LastSegmentIsSuffix(key, ':');
    var t := LastSegment(key, ':');
    assert key[|key| - |t| - 1] == ':';
    assert |t| > 4 ==> t[|t| - 5] == key[|key| - 5];
    assert IsMetaKey(key) && |t| == 4 ==> t == key[|key| - 4..] == "meta";
    if t == "meta" {
      assert key[|key| - 5..] == [':'] + t;
    }
  }

  /** A rendered key names its directory after the last ':', and it is a meta key
      exactly for the directory "meta". */
  lemma RenderedKeyParts(server: string, directory: string)
    requires ':' !in directory
    ensures LastSegment(RenderKey(server, directory), ':') == directory
    ensures IsMetaKey(RenderKey(server, directory)) <==> directory == "meta"
  {
    var key := RenderKey(server, directory);
    assert key == (KeyPrefix + server) + [':'] + directory;
    LastSegmentAfter(KeyPrefix + server, ':', directory);
    assert key[10] == ':';
    MetaKeyIff(key);
  }

  /** No name occurs twice. */
  predicate Distinct(names: seq<string>) {
    forall i, j :: 0 <= i < j < |names| ==> names[i] != names[j]
  }

  /** A reply of KEYS "apk_finder:<server>:*": every key of the server once, in
      the order Redis chooses. A key is given by its last part, the directory;
      "meta" stands for the metadata hash. */
  function KeysReply(server: string, dirs: seq<string>): (keys: seq<string>)
    ensures |keys| == |dirs|
    ensures forall k :: 0 <= k < |dirs| ==> keys[k] == RenderKey(server, dirs[k])
  {
    seq(|dirs|, k requires 0 <= k < |dirs| => RenderKey(server, dirs[k]))
  }

  // ---------------------------------------------------------------------------
  // Keyword and build-type filter

  /** The search terms: the `|`-separated pieces, stripped, blank ones dropped,
      each lower-cased. */
  function SearchTerms(keyword: string): (terms: seq<string>)
    ensures |terms| == |Utils.ParseSearchKeywords(keyword)|
    ensures forall k :: 0 <= k < |terms| ==> terms[k] == Lower(Utils.ParseSearchKeywords(keyword)[k])
    ensures forall k :: 0 <= k < |terms| ==> terms[k] != ""
  {
    LowerAll(Utils.ParseSearchKeywords(keyword))
  }

  /** Each piece lower-cased, in order. */
  function LowerAll(pieces: seq<string>): (r: seq<string>)
    ensures |r| == |pieces|
    ensures forall k :: 0 <= k < |r| ==> r[k] == Lower(pieces[k])
  {
    seq(|pieces|, i requires 0 <= i < |pieces| => Lower(pieces[i]))
  }

  /** The text the terms are looked up in: name, a space, relative path, lower-cased. */
  function FileText(f: APKFile): string {
    Lower(f.fileName + " " + f.relativePath)
  }

  /** A file passes the filter: build type "combine" or equal to the file's, and
      every term (possibly none) occurs in its text. */
  predicate Matches(f: APKFile, terms: seq<string>, buildType: string) {
    (buildType == "combine" || f.buildType == buildType) &&
    forall t :: t in terms ==> Contains(FileText(f), t)
  }

  /** `a` is `b` with some elements left out, order kept. */
  predicate IsSubsequence<T(==)>(a: seq<T>, b: seq<T>)
    decreases |b|
  {
    |a| == 0 || (|b| > 0 && ((a[0] == b[0] && IsSubsequence(a[1..], b[1..])) || IsSubsequence(a, b[1..])))
  }

  function FilterBy(files: seq<APKFile>, terms: seq<string>, buildType: string): (r: seq<APKFile>)
    ensures forall f :: f in r <==> f in files && Matches(f, terms, buildType)
    ensures IsSubsequence(r, files)
    decreases |files|
  {
    if |files| == 0 then []
    else
      var rest := FilterBy(files[1..], terms, buildType);
      assert ([files[0]] + rest)[1..] == rest;
      if Matches(files[0], terms, buildType) then [files[0]] + rest else rest
  }

  /** `_filter_files`: the files that pass, in input order. */
  function FilterFiles(files: seq<APKFile>, keyword: string, buildType: string): (r: seq<APKFile>)
    ensures forall f :: f in r <==> f in files && Matches(f, SearchTerms(keyword), buildType)
    ensures IsSubsequence(r, files)
  {
    FilterBy(files, SearchTerms(keyword), buildType)
  }

  /** Filtering distributes over concatenation, so the filter keeps order. */
  lemma {:induction false} FilterConcat(a: seq<APKFile>, b: seq<APKFile>, terms: seq<string>, buildType: string)
    ensures FilterBy(a + b, terms, buildType) == FilterBy(a, terms, buildType) + FilterBy(b, terms, buildType)
    decreases |a|
  {
    if |a| > 0 {
      assert (a + b)[0] == a[0];
      assert (a + b)[1..] == a[1..] + b;
      FilterConcat(a[1..], b, terms, buildType);
      var x, y := FilterBy(a[1..], terms, buildType), FilterBy(b, terms, buildType);
      AppendAssoc([a[0]], x, y);
    } else {
      assert a + b == b;
    }
  }

  /** A single clean keyword is one lower-cased term. */
  lemma SingleKeywordTerms(a: string)
    requires a != "" && Strip(a) == a && '|' !in a
    ensures SearchTerms(a) == [Lower(a)]
  {
    Utils.KeywordsRoundTrip([a]);
    assert Join([a], "|") == a;
  }

  /** Two clean keywords joined by '|' are two lower-cased terms. */
  lemma KeywordPairTerms(a: string, b: string)
    requires a != "" && Strip(a) == a && '|' !in a
    requires b != "" && Strip(b) == b && '|' !in b
    ensures SearchTerms(a + "|" + b) == [Lower(a), Lower(b)]
  {
    ParsePair(a, b);
    TermsOfPair(a + "|" + b, a, b);
  }

  /** A keyword string that parses to two pieces gives their lower-cased forms. */
  lemma TermsOfPair(keyword: string, a: string, b: string)
    requires Utils.ParseSearchKeywords(keyword) == [a, b]
    ensures SearchTerms(keyword) == [Lower(a), Lower(b)]
  {
    LowerPair(a, b);
  }

  lemma LowerPair(a: string, b: string)
    ensures LowerAll([a, b]) == [Lower(a), Lower(b)]
  {
    var t := LowerAll([a, b]);
    assert t[0] == Lower(a) && t[1] == Lower(b);
  }

  /** Two clean keywords joined by '|' parse back to themselves. */
  lemma ParsePair(a: string, b: string)
    requires a != "" && Strip(a) == a && '|' !in a
    requires b != "" && Strip(b) == b && '|' !in b
    ensures Utils.ParseSearchKeywords(a + "|" + b) == [a, b]
  {
    var terms := [a, b];
    JoinPair(a, b, "|");
    assert forall k :: 0 <= k < |terms| ==> terms[k] != "" && Strip(terms[k]) == terms[k] && '|' !in terms[k];
    Utils.KeywordsRoundTrip(terms);
  }

  lemma JoinPair(a: string, b: string, sep: string)
    ensures Join([a, b], sep) == a + sep + b
  {
    assert [a, b][1..] == [b];
  }

  /** Two keywords joined by '|' must both occur: the filter is a conjunction. */
  lemma KeywordsAreConjunctive(a: string, b: string, f: APKFile, buildType: string)
    requires a != "" && Strip(a) == a && '|' !in a
    requires b != "" && Strip(b) == b && '|' !in b
    ensures Matches(f, SearchTerms(a + "|" + b), buildType) <==>
              Matches(f, SearchTerms(a), buildType) && Matches(f, SearchTerms(b), buildType)
  {
    KeywordPairTerms(a, b);
    SingleKeywordTerms(a);
    SingleKeywordTerms(b);
  }

  /** An empty keyword leaves only the build-type test. */
  lemma EmptyKeywordMatchesByBuildType(f: APKFile, buildType: string)
    ensures Matches(f, SearchTerms(""), buildType) <==> buildType == "combine" || f.buildType == buildType
  {
    assert Split("", '|') == [""];
    assert Strip("") == "";
    assert SearchTerms("") == [];
  }

  /** Case does not matter: a term matches the upper-cased name as it does the lower. */
  lemma MatchIgnoresCase(f: APKFile, name: string, term: string, buildType: string)
    requires Lower(name) == Lower(f.fileName)
    ensures Matches(f.(fileName := name), [term], buildType) <==> Matches(f, [term], buildType)
  {
    LowerConcat(name, " " + f.relativePath);
    LowerConcat(f.fileName, " " + f.relativePath);
    assert FileText(f.(fileName := name)) == FileText(f);
  }

  // ---------------------------------------------------------------------------
  // Sorting by creation time, newest first

  predicate NonIncreasing(s: seq<APKFile>) {
    forall i, j :: 0 <= i < j < |s| ==> s[i].createdTime >= s[j].createdTime
  }

  /** Inserts `x` before the first element that is not newer than it. */
  function InsertDesc(x: APKFile, s: seq<APKFile>): (r: seq<APKFile>)
    requires NonIncreasing(s)
    ensures NonIncreasing(r)
    ensures multiset(r) == multiset(s) + multiset{x}
    ensures |r| == |s| + 1 && (r[0] == x || (|s| > 0 && r[0] == s[0]))
    decreases |s|
  {
    if |s| == 0 || x.createdTime >= s[0].createdTime then [x] + s
    else
      var rest := InsertDesc(x, s[1..]);
      assert s == [s[0]] + s[1..];
      [s[0]] + rest
  }

  /** `list.sort(key=created_time, reverse=True)`: a stable sort, newest first. */
  function SortByCreatedDesc(s: seq<APKFile>): (r: seq<APKFile>)
    ensures NonIncreasing(r)
    ensures multiset(r) == multiset(s)
    decreases |s|
  {
    if |s| == 0 then []
    else
      assert s == [s[0]] + s[1..];
      InsertDesc(s[0], SortByCreatedDesc(s[1..]))
  }

  /** The files with one given creation time, in order. */
  function WithCreated(s: seq<APKFile>, c: int): seq<APKFile>
    decreases |s|
  {
    if |s| == 0 then []
    else (if s[0].createdTime == c then [s[0]] else []) + WithCreated(s[1..], c)
  }

  lemma {:induction false} WithCreatedConcat(a: seq<APKFile>, b: seq<APKFile>, c: int)
    ensures WithCreated(a + b, c) == WithCreated(a, c) + WithCreated(b, c)
    decreases |a|
  {
    if |a| > 0 {
      assert (a + b)[0] == a[0];
      assert (a + b)[1..] == a[1..] + b;
      WithCreatedConcat(a[1..], b, c);
      var head := if a[0].createdTime == c then [a[0]] else [];
      var x, y := WithCreated(a[1..], c), WithCreated(b, c);
      assert head + (x + y) == (head + x) + y;
    } else {
      assert a + b == b;
    }
  }

  lemma {:induction false} InsertStable(x: APKFile, s: seq<APKFile>, c: int)
    requires NonIncreasing(s)
    ensures WithCreated(InsertDesc(x, s), c) == WithCreated([x] + s, c)
    decreases |s|
  {
    if |s| > 0 && x.createdTime < s[0].createdTime {
      var s0, t := s[0], s[1..];
      InsertStable(x, t, c);
      StableStep(x, s0, t, InsertDesc(x, t), c);
      assert s == [s0] + t;
    }
  }

  /** One step of the insertion: putting `s0` in front of a list that selects
      like `[x] + t` selects like `[x, s0] + t` when their times differ. */
  lemma StableStep(x: APKFile, s0: APKFile, t: seq<APKFile>, rest: seq<APKFile>, c: int)
    requires x.createdTime != s0.createdTime
    requires WithCreated(rest, c) == WithCreated([x] + t, c)
    ensures WithCreated([s0] + rest, c) == WithCreated([x] + ([s0] + t), c)
  {
    WithCreatedConcat([s0], rest, c);
    WithCreatedConcat([x], t, c);
    WithCreatedConcat([s0], t, c);
    WithCreatedConcat([x], [s0] + t, c);
    SingletonsCommute(x, s0, c);
    SwapFront(WithCreated([s0], c), WithCreated([x], c), WithCreated(t, c));
  }

  lemma AppendAssoc<T>(a: seq<T>, b: seq<T>, c: seq<T>)
    ensures a + (b + c) == (a + b) + c
  {
  }

  /** Two blocks that commute can be swapped in front of any tail. */
  lemma SwapFront<T>(a: seq<T>, b: seq<T>, w: seq<T>)
    requires a + b == b + a
    ensures a + (b + w) == b + (a + w)
  {
    AppendAssoc(a, b, w);
    AppendAssoc(b, a, w);
  }

  /** Two files with different creation times never both have time `c`, so
      their one-file selections commute. */
  lemma SingletonsCommute(x: APKFile, y: APKFile, c: int)
    requires x.createdTime != y.createdTime
    ensures WithCreated([x], c) + WithCreated([y], c) == WithCreated([y], c) + WithCreated([x], c)
  {
    assert [x][1..] == [] && [y][1..] == [];
  }


  /** The sort is stable: files created at the same time keep their input order. */
  lemma {:induction false} SortIsStable(s: seq<APKFile>, c: int)
    ensures WithCreated(SortByCreatedDesc(s), c) == WithCreated(s, c)
    decreases |s|
  {
    if |s| > 0 {
      SortIsStable(s[1..], c);
      InsertStable(s[0], SortByCreatedDesc(s[1..]), c);
      WithCreatedConcat([s[0]], SortByCreatedDesc(s[1..]), c);
      WithCreatedConcat([s[0]], s[1..], c);
      assert s == [s[0]] + s[1..];
    }
  }

  // ---------------------------------------------------------------------------
  // Python slicing

  /** A slice bound normalised against length `n`: negative counts from the end,
      and the result is clamped to 0..n. */
  function SliceBound(i: int, n: nat): (b: nat)
    ensures b <= n
    ensures 0 <= i <= n ==> b == i
    ensures i > n ==> b == n
    ensures i < 0 ==> b == if i + n < 0 then 0 else i + n
  {
    if i < 0 then (if i + n < 0 then 0 else i + n)
    else if i > n then n
    else i
  }

  /** Python's `s[start:stop]`. */
  function PySlice<T>(s: seq<T>, start: int, stop: int): seq<T> {
    var lo := SliceBound(start, |s|);
    var hi := SliceBound(stop, |s|);
    if lo < hi then s[lo..hi] else []
  }

  /** A page `s[offset:offset+limit]` never holds more than `limit` items,
      negative offsets included. */
  lemma PageAtMostLimit<T>(s: seq<T>, offset: int, limit: int)
    ensures limit >= 0 ==> |PySlice(s, offset, offset + limit)| <= limit
  {
  }

  /** Consecutive non-negative pages put together give the combined page. */
  lemma PagesTile<T>(s: seq<T>, a: int, b: int, c: int)
    requires 0 <= a <= b <= c
    ensures PySlice(s, a, b) + PySlice(s, b, c) == PySlice(s, a, c)
  {
    var n := |s|;
    var la, lb, lc := SliceBound(a, n), SliceBound(b, n), SliceBound(c, n);
    if la < lb && lb < lc {
      assert s[la..lb] + s[lb..lc] == s[la..lc];
    }
  }

  /** A page holds elements of the list, in the list's order. */
  lemma PageIsSlice<T>(s: seq<T>, start: int, stop: int)
    ensures IsContiguous(PySlice(s, start, stop), s)
    ensures forall x :: x in PySlice(s, start, stop) ==> x in s
  {
    var lo, hi := SliceBound(start, |s|), SliceBound(stop, |s|);
    if lo >= hi {
      assert BlockAt(PySlice(s, start, stop), s, lo);
    } else {
      assert BlockAt(PySlice(s, start, stop), s, lo);
    }
  }

  /** `a` occurs in `b` as one block. */
  ghost predicate IsContiguous<T>(a: seq<T>, b: seq<T>) {
    exists lo :: BlockAt(a, b, lo)
  }

  /** `a` occurs in `b` starting at index `lo`. */
  ghost predicate BlockAt<T>(a: seq<T>, b: seq<T>, lo: int) {
    0 <= lo <= |b| - |a| && b[lo..lo + |a|] == a
  }

  lemma SliceKeepsOrder(s: seq<APKFile>, start: int, stop: int)
    requires NonIncreasing(s)
    ensures NonIncreasing(PySlice(s, start, stop))
  {
    var lo, hi := SliceBound(start, |s|), SliceBound(stop, |s|);
    if lo < hi {
      var r := s[lo..hi];
      forall i, j | 0 <= i < j < |r| ensures r[i].createdTime >= r[j].createdTime {
        assert r[i] == s[lo + i] && r[j] == s[lo + j];
      }
    }
  }

  // ---------------------------------------------------------------------------
  // Aggregation over servers and keys

  /** The servers a search covers: the one named, or every configured server when
      none (or the empty name) is given. */
  function SelectedServers(server: Option<string>, configured: seq<string>): (r: seq<string>)
    ensures server.Some? && server.value != "" ==> r == [server.value]
    ensures server.None? || server.value == "" ==> r == configured
  {
    if server.Some? && server.value != "" then [server.value] else configured
  }

  /** The files of one server's keys, in key order; meta keys are skipped and the
      directory is the text after the key's last ':'. */
  function CollectKeys(st: Store, server: string, keys: seq<string>): seq<APKFile>
    decreases |keys|
  {
    if |keys| == 0 then []
    else
      var here := if IsMetaKey(keys[0]) then [] else GetApkFiles(st, server, LastSegment(keys[0], ':'));
      here + CollectKeys(st, server, keys[1..])
  }

  function CollectServers(st: Store, servers: seq<string>, listing: string -> seq<string>): seq<APKFile>
    decreases |servers|
  {
    if |servers| == 0 then []
    else CollectKeys(st, servers[0], listing(servers[0])) + CollectServers(st, servers[1..], listing)
  }

  /** A file is collected from a server's keys exactly when some non-meta key's
      directory holds it. */
  lemma {:induction false} CollectKeysMembers(st: Store, server: string, keys: seq<string>, f: APKFile)
    ensures f in CollectKeys(st, server, keys) <==>
              exists j :: 0 <= j < |keys| && !IsMetaKey(keys[j]) && f in GetApkFiles(st, server, LastSegment(keys[j], ':'))
    decreases |keys|
  {
    if |keys| > 0 {
      CollectKeysMembers(st, server, keys[1..], f);
      if f in CollectKeys(st, server, keys[1..]) {
        var j :| 0 <= j < |keys[1..]| && !IsMetaKey(keys[1..][j]) && f in GetApkFiles(st, server, LastSegment(keys[1..][j], ':'));
        assert keys[j + 1] == keys[1..][j];
      }
      if exists j :: 0 <= j < |keys| && !IsMetaKey(keys[j]) && f in GetApkFiles(st, server, LastSegment(keys[j], ':')) {
        var j :| 0 <= j < |keys| && !IsMetaKey(keys[j]) && f in GetApkFiles(st, server, LastSegment(keys[j], ':'));
        if j > 0 {
          assert keys[1..][j - 1] == keys[j];
        }
      }
    }
  }

  /** A file is collected exactly when one of the servers' key lists yields it. */
  lemma {:induction false} CollectServersMembers(st: Store, servers: seq<string>, listing: string -> seq<string>, f: APKFile)
    ensures f in CollectServers(st, servers, listing) <==>
              exists i :: 0 <= i < |servers| && f in CollectKeys(st, servers[i], listing(servers[i]))
    decreases |servers|
  {
    if |servers| > 0 {
      CollectServersMembers(st, servers[1..], listing, f);
      if f in CollectServers(st, servers[1..], listing) {
        var i :| 0 <= i < |servers[1..]| && f in CollectKeys(st, servers[1..][i], listing(servers[1..][i]));
        assert servers[i + 1] == servers[1..][i];
      }
      if exists i :: 0 <= i < |servers| && f in CollectKeys(st, servers[i], listing(servers[i])) {
        var i :| 0 <= i < |servers| && f in CollectKeys(st, servers[i], listing(servers[i]));
        if i > 0 {
          assert servers[1..][i - 1] == servers[i];
        }
      }
    }
  }

  /** The list stored under a directory literally named "meta" never reaches a
      search: its key ends with ":meta" and is skipped. Two stores that differ
      only there collect the same files. */
  lemma {:induction false} CollectKeysIgnoresMetaDirectory(st1: Store, st2: Store, server: string, keys: seq<string>)
    requires forall j :: 0 <= j < |keys| ==> StartsWith(keys[j], RenderKey(server, ""))
    requires forall d :: d != "meta" ==> GetApkFiles(st1, server, d) == GetApkFiles(st2, server, d)
    ensures CollectKeys(st1, server, keys) == CollectKeys(st2, server, keys)
    decreases |keys|
  {
    if |keys| > 0 {
      var k := keys[0];
      assert k[10] == RenderKey(server, "")[10] == ':';
      MetaKeyIff(k);
      CollectKeysIgnoresMetaDirectory(st1, st2, server, keys[1..]);
    }
  }

  /** On a true KEYS reply every record is collected exactly as often as its own
      directory holds it, provided no other directory holds it too: a stored
      record is neither lost nor counted twice. */
  lemma {:induction false} CollectKeysCountsOnce(st: Store, server: string, dirs: seq<string>, d: string, f: APKFile)
    requires Distinct(dirs)
    requires forall k :: 0 <= k < |dirs| ==> ':' !in dirs[k]
    requires d in dirs && d != "meta"
    requires forall k :: 0 <= k < |dirs| && dirs[k] != d && dirs[k] != "meta" ==> f !in GetApkFiles(st, server, dirs[k])
    ensures multiset(CollectKeys(st, server, KeysReply(server, dirs)))[f] == multiset(GetApkFiles(st, server, d))[f]
    decreases |dirs|
  {
    var keys := KeysReply(server, dirs);
    RenderedKeyParts(server, dirs[0]);
    assert keys[1..] == KeysReply(server, dirs[1..]);
    var here := if IsMetaKey(keys[0]) then [] else GetApkFiles(st, server, LastSegment(keys[0], ':'));
    var rest := CollectKeys(st, server, keys[1..]);
    assert CollectKeys(st, server, keys) == here + rest;
    if dirs[0] == d {
      assert here == GetApkFiles(st, server, d);
      CollectKeysMembers(st, server, keys[1..], f);
      if f in rest {
        var j :| 0 <= j < |keys[1..]| && !IsMetaKey(keys[1..][j]) && f in GetApkFiles(st, server, LastSegment(keys[1..][j], ':'));
        RenderedKeyParts(server, dirs[j + 1]);
        assert false;
      }
    } else {
      assert f !in here;
      CollectKeysCountsOnce(st, server, dirs[1..], d, f);
    }
  }

  /** Every file of a listed, non-meta directory of a selected server is collected. */
  lemma CollectIsComplete(st: Store, servers: seq<string>, listing: string -> seq<string>,
                          i: nat, directory: string, f: APKFile)
    requires i < |servers|
    requires RenderKey(servers[i], directory) in listing(servers[i])
    requires ':' !in directory && directory != "meta"
    requires f in GetApkFiles(st, servers[i], directory)
    ensures f in CollectServers(st, servers, listing)
  {
    var key := RenderKey(servers[i], directory);
    RenderedKeyParts(servers[i], directory);
    var keys := listing(servers[i]);
    var j :| 0 <= j < |keys| && keys[j] == key;
    CollectKeysMembers(st, servers[i], keys, f);
    CollectServersMembers(st, servers, listing, f);
  }

  // ---------------------------------------------------------------------------
  // search_apk_files

  datatype SearchResult = SearchResult(items: seq<APKFile>, total: int)

  /** The filtered, sorted list a search pages through. */
  function Ranked(st: Store, configured: seq<string>, listing: string -> seq<string>,
                  keyword: string, server: Option<string>, buildType: string): seq<APKFile> {
    var all := CollectServers(st, SelectedServers(server, configured), listing);
    SortByCreatedDesc(FilterFiles(all, keyword, buildType))
  }

  /** The ranked list a request pages through; paging fields play no part. */
  function RankedFor(st: Store, configured: seq<string>, listing: string -> seq<string>, req: SearchRequest): seq<APKFile> {
    Ranked(st, configured, listing, req.keyword, req.server, req.buildType)
  }

  /** `search_apk_files`: collect, filter, sort newest first, then page with
      `[offset:offset+limit]`; `total` counts the whole filtered list. */
  function Search(st: Store, configured: seq<string>, listing: string -> seq<string>, req: SearchRequest): (r: SearchResult)
    ensures req.limit >= 0 ==> |r.items| <= req.limit
    ensures r.total == |RankedFor(st, configured, listing, req)|
  {
    var ranked := RankedFor(st, configured, listing, req);
    PageAtMostLimit(ranked, req.offset, req.limit);
    SearchResult(PySlice(ranked, req.offset, req.offset + req.limit), |ranked|)
  }

  /** The page is newest first, holds only matching files collected from the
      selected servers, and is one contiguous block of the ranked list. */
  lemma SearchItemsAreRanked(st: Store, configured: seq<string>, listing: string -> seq<string>, req: SearchRequest)
    ensures var r := Search(st, configured, listing, req);
            && NonIncreasing(r.items)
            && (forall f :: f in r.items ==>
                  Matches(f, SearchTerms(req.keyword), req.buildType) &&
                  f in CollectServers(st, SelectedServers(req.server, configured), listing))
            && IsContiguous(r.items, RankedFor(st, configured, listing, req))
  {
    var ranked := RankedFor(st, configured, listing, req);
    PageOfRanked(ranked, req.offset, req.offset + req.limit, Search(st, configured, listing, req).items);
    RankedMembers(st, configured, listing, req);
  }

  /** A page of a newest-first list is newest first, drawn from it, and contiguous in it. */
  lemma PageOfRanked(ranked: seq<APKFile>, start: int, stop: int, page: seq<APKFile>)
    requires NonIncreasing(ranked) && page == PySlice(ranked, start, stop)
    ensures NonIncreasing(page)
    ensures forall f :: f in page ==> f in ranked
    ensures IsContiguous(page, ranked)
  {
    SliceKeepsOrder(ranked, start, stop);
    PageIsSlice(ranked, start, stop);
  }

  /** Every ranked file matches the request and was collected from a selected server. */
  lemma RankedMembers(st: Store, configured: seq<string>, listing: string -> seq<string>, req: SearchRequest)
    ensures forall f :: f in RankedFor(st, configured, listing, req) ==>
              Matches(f, SearchTerms(req.keyword), req.buildType) &&
              f in CollectServers(st, SelectedServers(req.server, configured), listing)
  {
    var all := CollectServers(st, SelectedServers(req.server, configured), listing);
    var filtered := FilterFiles(all, req.keyword, req.buildType);
    var ranked := SortByCreatedDesc(filtered);
    assert RankedFor(st, configured, listing, req) == ranked;
    forall f | f in ranked
      ensures Matches(f, SearchTerms(req.keyword), req.buildType) && f in all
    {
      assert f in multiset(ranked);
      assert f in filtered;
    }
  }

  /** A file is counted in `total` exactly when it is collected from a selected
      server and passes the filter (counted with multiplicity). */
  lemma TotalCountsMatches(st: Store, configured: seq<string>, listing: string -> seq<string>, req: SearchRequest)
    ensures Search(st, configured, listing, req).total ==
              |FilterFiles(CollectServers(st, SelectedServers(req.server, configured), listing), req.keyword, req.buildType)|
  {
    var filtered := FilterFiles(CollectServers(st, SelectedServers(req.server, configured), listing), req.keyword, req.buildType);
    assert |multiset(SortByCreatedDesc(filtered))| == |multiset(filtered)|;
  }

  /** `total` does not depend on the page asked for. */
  lemma TotalIgnoresPaging(st: Store, configured: seq<string>, listing: string -> seq<string>,
                           req: SearchRequest, offset: int, limit: int)
    ensures Search(st, configured, listing, req.(offset := offset, limit := limit)).total ==
              Search(st, configured, listing, req).total
  {
    assert RankedFor(st, configured, listing, req.(offset := offset, limit := limit)) == RankedFor(st, configured, listing, req);
  }

  /** A search's page is its slice of the ranked list. */
  lemma SearchPageAt(st: Store, configured: seq<string>, listing: string -> seq<string>, req: SearchRequest,
                     ranked: seq<APKFile>, start: int, stop: int)
    requires ranked == Ranked(st, configured, listing, req.keyword, req.server, req.buildType)
    requires start == req.offset && stop == req.offset + req.limit
    ensures Search(st, configured, listing, req).items == PySlice(ranked, start, stop)
  {
  }

  /** Two requests that ask the same question, whatever page they ask for. */
  predicate SameQuery(r1: SearchRequest, r2: SearchRequest) {
    r1.keyword == r2.keyword && r1.server == r2.server && r1.buildType == r2.buildType
  }

  /** Paging through the results in steps of `limit` loses and repeats nothing:
      the page at `offset` of size `a`, then the page right after it of size `b`,
      together are the page at `offset` of size `a + b`. */
  lemma ConsecutivePages(st: Store, configured: seq<string>, listing: string -> seq<string>,
                         r1: SearchRequest, r2: SearchRequest, r3: SearchRequest)
    requires SameQuery(r1, r2) && SameQuery(r1, r3)
    requires r1.offset >= 0 && r1.limit >= 0 && r2.limit >= 0
    requires r2.offset == r1.offset + r1.limit
    requires r3.offset == r1.offset && r3.limit == r1.limit + r2.limit
    ensures Search(st, configured, listing, r1).items + Search(st, configured, listing, r2).items ==
            Search(st, configured, listing, r3).items
  {
    var ranked := Ranked(st, configured, listing, r1.keyword, r1.server, r1.buildType);
    var start, mid, stop := r1.offset, r2.offset, r3.offset + r3.limit;
    SearchPageAt(st, configured, listing, r1, ranked, start, mid);
    SearchPageAt(st, configured, listing, r2, ranked, mid, stop);
    SearchPageAt(st, configured, listing, r3, ranked, start, stop);
    PagesTile(ranked, start, mid, stop);
  }

  /** A search naming a server only returns files listed under that server. */
  lemma NamedServerOnly(st: Store, configured: seq<string>, listing: string -> seq<string>,
                        req: SearchRequest, f: APKFile)
    requires req.server.Some? && req.server.value != ""
    requires f in Search(st, configured, listing, req).items
    ensures f in CollectKeys(st, req.server.value, listing(req.server.value))
  {
    SearchItemsAreRanked(st, configured, listing, req);
    CollectServersMembers(st, [req.server.value], listing, f);
  }

  // ---------------------------------------------------------------------------
  // increment_download_count and update_file_md5

  /** The index of the first record with the given relative path, or the length
      when there is none. */
  function FirstIndex(files: seq<APKFile>, path: string): (i: nat)
    ensures i <= |files|
    ensures forall j :: 0 <= j < i ==> files[j].relativePath != path
    ensures i < |files| ==> files[i].relativePath == path
    decreases |files|
  {
    if |files| == 0 then 0
    else if files[0].relativePath == path then 0
    else 1 + FirstIndex(files[1..], path)
  }

  /** The two in-place edits the catalog makes to one record. */
  datatype Edit = BumpCount | StoreMd5(md5: string)

  function ApplyEdit(f: APKFile, e: Edit): APKFile {
    match e
    case BumpCount => f.(downloadTime := f.downloadTime + 1)
    case StoreMd5(m) => f.(md5 := Some(m))
  }

  /** Applies `e` to the first record with `path` (the loop's `break`), nothing else. */
  function EditFirst(files: seq<APKFile>, path: string, e: Edit): (r: seq<APKFile>)
    ensures |r| == |files|
    ensures forall j :: 0 <= j < |files| ==>
              r[j] == if j == FirstIndex(files, path) then ApplyEdit(files[j], e) else files[j]
    decreases |files|
  {
    if |files| == 0 then []
    else if files[0].relativePath == path then [ApplyEdit(files[0], e)] + files[1..]
    else [files[0]] + EditFirst(files[1..], path, e)
  }

  /** Reads the directory's list, edits the first matching record and writes the
      list back. The write happens even when nothing matched (and then creates an
      empty list for a key never written). */
  function EditDirectory(st: Store, server: string, directory: string, path: string, e: Edit): (r: Store)
    ensures r.meta == st.meta
    ensures DirKey(server, directory) in r.files
    ensures GetApkFiles(r, server, directory) == EditFirst(GetApkFiles(st, server, directory), path, e)
    ensures forall s, d :: DirKey(s, d) != DirKey(server, directory) ==> GetApkFiles(r, s, d) == GetApkFiles(st, s, d)
  {
    SetApkFiles(st, server, directory, EditFirst(GetApkFiles(st, server, directory), path, e))
  }

  /** `increment_download_count`. */
  function IncrementDownloadCount(st: Store, server: string, directory: string, path: string): (r: Store)
    ensures r.meta == st.meta
    ensures forall s, d :: DirKey(s, d) != DirKey(server, directory) ==> GetApkFiles(r, s, d) == GetApkFiles(st, s, d)
    ensures |GetApkFiles(r, server, directory)| == |GetApkFiles(st, server, directory)|
    ensures forall j :: 0 <= j < |GetApkFiles(st, server, directory)| ==>
              var before := GetApkFiles(st, server, directory)[j];
              var after := GetApkFiles(r, server, directory)[j];
              if j == FirstIndex(GetApkFiles(st, server, directory), path)
              then after == before.(downloadTime := before.downloadTime + 1)
              else after == before
  {
    EditDirectory(st, server, directory, path, BumpCount)
  }

  /** `update_file_md5`. */
  function UpdateFileMd5(st: Store, server: string, directory: string, path: string, md5: string): (r: Store)
    ensures r.meta == st.meta
    ensures forall s, d :: DirKey(s, d) != DirKey(server, directory) ==> GetApkFiles(r, s, d) == GetApkFiles(st, s, d)
    ensures |GetApkFiles(r, server, directory)| == |GetApkFiles(st, server, directory)|
    ensures forall j :: 0 <= j < |GetApkFiles(st, server, directory)| ==>
              var before := GetApkFiles(st, server, directory)[j];
              var after := GetApkFiles(r, server, directory)[j];
              if j == FirstIndex(GetApkFiles(st, server, directory), path)
              then after == before.(md5 := Some(md5))
              else after == before
  {
    EditDirectory(st, server, directory, path, StoreMd5(md5))
  }

  /** The directory's total download count. */
  function TotalDownloads(files: seq<APKFile>): int
    decreases |files|
  {
    if |files| == 0 then 0 else files[0].downloadTime + TotalDownloads(files[1..])
  }

  /** Incrementing raises the directory's total by one when a record has the path,
      and leaves it unchanged otherwise. */
  lemma {:induction false} IncrementAddsOne(files: seq<APKFile>, path: string)
    ensures TotalDownloads(EditFirst(files, path, BumpCount)) ==
              TotalDownloads(files) + (if FirstIndex(files, path) < |files| then 1 else 0)
    decreases |files|
  {
    if |files| > 0 {
      var r := EditFirst(files, path, BumpCount);
      if files[0].relativePath == path {
        assert r[1..] == files[1..];
      } else {
        IncrementAddsOne(files[1..], path);
        assert r[1..] == EditFirst(files[1..], path, BumpCount);
      }
    }
  }
}
