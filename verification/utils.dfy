/**
 The server's shared helpers: the APK-name and build-type classifiers, keyword
 splitting, interval parsing, the unit choice of the human-readable size, and
 path joining.
 */
module Utils {
  import opened Options
  import opened Strings

  // ---------------------------------------------------------------------------
  // Classifiers

  /** `is_apk_file`: the lower-cased name ends with ".apk". */
  predicate IsApkFile(fileName: string) {
    EndsWith(Lower(fileName), ".apk")
  }

  /** The classifier looks only at the last four characters, ignoring case. */
  lemma IsApkFileLastFour(fileName: string)
    ensures IsApkFile(fileName) <==>
      && |fileName| >= 4
      && fileName[|fileName| - 4] == '.'
      && LowerChar(fileName[|fileName| - 3]) == 'a'
      && LowerChar(fileName[|fileName| - 2]) == 'p'
      && LowerChar(fileName[|fileName| - 1]) == 'k'
  {
    var n := |fileName|;
    if n >= 4 {
      var tail := Lower(fileName)[n - 4..];
      assert tail == [LowerChar(fileName[n - 4]), LowerChar(fileName[n - 3]),
                      LowerChar(fileName[n - 2]), LowerChar(fileName[n - 1])];
    }
  }

  /** Any stem followed by an extension spelled ".apk" in any case is an APK name,
      and the classifier does not change under lower-casing. */
  lemma IsApkFileIgnoresCase(stem: string, ext: string)
    requires Lower(ext) == ".apk"
    ensures IsApkFile(stem + ext)
    ensures IsApkFile(stem + ext) == IsApkFile(Lower(stem + ext))
  {
    LowerConcat(stem, ext);
    LowerIdempotent(stem + ext);
  }

  const Release := "release"
  const Debug := "debug"
  const Unknown := "unknown"

  /** `extract_build_type`: "release" wins whenever it occurs, ignoring case;
      otherwise "debug" if that occurs; otherwise "unknown". */
  function ExtractBuildType(name: string): (r: string)
    ensures r == Release || r == Debug || r == Unknown
    ensures r == Release <==> Contains(Lower(name), Release)
    ensures r == Debug <==> !Contains(Lower(name), Release) && Contains(Lower(name), Debug)
  {
    var lower := Lower(name);
    if Contains(lower, Release) then Release
    else if Contains(lower, Debug) then Debug
    else Unknown
  }

  /** Once a part of a path says "release", the whole path classifies as release,
      whatever is put before or after it. */
  lemma ReleaseSurvivesExtension(before: string, part: string, after: string)
    requires ExtractBuildType(part) == Release
    ensures ExtractBuildType(before + part + after) == Release
  {
    LowerConcat(before + part, after);
    LowerConcat(before, part);
    ContainsConcat(Lower(before), Lower(part), Release);
    ContainsConcat(Lower(before) + Lower(part), Lower(after), Release);
  }

  /** A name mentioning both builds is classified release. */
  lemma ReleaseWinsOverDebug(name: string)
    requires Contains(Lower(name), Release) && Contains(Lower(name), Debug)
    ensures ExtractBuildType(name) == Release
  {
  }

  // ---------------------------------------------------------------------------
  // Keywords

  /** Every piece non-empty and its own strip. */
  predicate AllClean(pieces: seq<string>) {
    forall k :: 0 <= k < |pieces| ==> pieces[k] != "" && Strip(pieces[k]) == pieces[k]
  }

  /** Adding a clean piece in front keeps every piece clean. */
  function CleanCons(head: string, rest: seq<string>): (r: seq<string>)
    requires head != "" && Strip(head) == head && AllClean(rest)
    ensures r == [head] + rest && AllClean(r)
  {
    var r := [head] + rest;
    assert forall k :: 0 < k < |r| ==> r[k] == rest[k - 1];
    r
  }

  /** The stripped pieces, in order, with the empty ones dropped. */
  function StrippedNonEmpty(pieces: seq<string>): (r: seq<string>)
    ensures |r| <= |pieces|
    ensures AllClean(r)
    decreases |pieces|
  {
    if |pieces| == 0 then []
    else
      var head := Strip(pieces[0]);
      StripNoEdgeSpace(head);
      if head == "" then StrippedNonEmpty(pieces[1..])
      else CleanCons(head, StrippedNonEmpty(pieces[1..]))
  }

  /** `parse_search_keywords`: split on '|', strip each piece, drop empty pieces. */
  function ParseSearchKeywords(keyword: string): (r: seq<string>)
    ensures forall k :: 0 <= k < |r| ==> r[k] != "" && Strip(r[k]) == r[k]
  {
    StrippedNonEmpty(Split(keyword, '|'))
  }

  /** Pieces that are already stripped and non-empty are kept as they are. */
  lemma {:induction false} StrippedNonEmptyKeeps(pieces: seq<string>)
    requires AllClean(pieces)
    ensures StrippedNonEmpty(pieces) == pieces
    decreases |pieces|
  {
    if |pieces| > 0 {
      var h, t := pieces[0], pieces[1..];
      assert AllClean(t) by {
        forall k | 0 <= k < |t| ensures t[k] != "" && Strip(t[k]) == t[k] {
          assert t[k] == pieces[k + 1];
        }
      }
      StrippedNonEmptyKeeps(t);
      assert h != "" && Strip(h) == h;
      assert StrippedNonEmpty(pieces) == CleanCons(h, StrippedNonEmpty(t));
      assert [h] + t == pieces;
    }
  }

  /** Keywords written with '|' between them are read back exactly. */
  lemma KeywordsRoundTrip(terms: seq<string>)
    requires |terms| >= 1
    requires forall k :: 0 <= k < |terms| ==> terms[k] != "" && Strip(terms[k]) == terms[k] && '|' !in terms[k]
    ensures ParseSearchKeywords(Join(terms, "|")) == terms
  {
    SplitJoin(terms, '|');
    StrippedNonEmptyKeeps(terms);
  }

  /** A keyword string made only of separators and blanks yields no keywords. */
  lemma {:induction false} BlankPiecesVanish(pieces: seq<string>)
    requires forall k :: 0 <= k < |pieces| ==> forall i :: 0 <= i < |pieces[k]| ==> IsSpace(pieces[k][i])
    ensures StrippedNonEmpty(pieces) == []
    decreases |pieces|
  {
    if |pieces| > 0 {
      StripEmptyIff(pieces[0]);
      BlankPiecesVanish(pieces[1..]);
    }
  }

  // ---------------------------------------------------------------------------
  // Intervals

  const DefaultInterval := 300

  /** Seconds per unit letter, for the four letters `parse_interval` knows. */
  function UnitSeconds(unit: char): Option<int> {
    if unit == 's' then Some(1)
    else if unit == 'm' then Some(60)
    else if unit == 'h' then Some(3600)
    else if unit == 'd' then Some(86400)
    else None
  }

  /** `parse_interval`: "<n><unit>" to seconds; 300 for the empty string, a prefix
      that `int()` rejects, or an unknown unit letter. The unit letter is
      compared lower-cased. */
  function ParseInterval(text: string): (seconds: int)
    ensures text == "" ==> seconds == DefaultInterval
    ensures text != "" && ParseInt(text[..|text| - 1]) == None ==> seconds == DefaultInterval
    ensures text != "" && UnitSeconds(LowerChar(text[|text| - 1])) == None ==> seconds == DefaultInterval
    ensures text != "" && ParseInt(text[..|text| - 1]).Some? && UnitSeconds(LowerChar(text[|text| - 1])).Some? ==>
              seconds == ParseInt(text[..|text| - 1]).value * UnitSeconds(LowerChar(text[|text| - 1])).value
  {
    if text == "" then DefaultInterval
    else
      var unit := LowerChar(text[|text| - 1]);
      match ParseInt(text[..|text| - 1])
      case None => DefaultInterval
      case Some(value) =>
        match UnitSeconds(unit)
        case Some(factor) => value * factor
        case None => DefaultInterval
  }

  /** Writing a count followed by a unit letter and parsing it back gives the
      count times the unit's length in seconds. */
  lemma ParseIntervalOfRendered(n: nat, unit: char)
    requires UnitSeconds(LowerChar(unit)).Some?
    ensures ParseInterval(Decimal(n) + [unit]) == n * UnitSeconds(LowerChar(unit)).value
  {
    var text := Decimal(n) + [unit];
    assert text[..|text| - 1] == Decimal(n);
    ParseDecimal(n);
    assert ParseInt(text[..|text| - 1]) == Some(n as int);
    assert LowerChar(text[|text| - 1]) == LowerChar(unit);
  }

  /** The default update interval "5m" is 300 seconds. */
  lemma FiveMinutes()
    ensures ParseInterval("5m") == 300
  {
    assert DigitChar(5) == '5';
    assert Decimal(5) + ['m'] == "5m";
    ParseIntervalOfRendered(5, 'm');
  }

  /** The default cleanup interval "30m" is 1800 seconds. */
  lemma ThirtyMinutes()
    ensures ParseInterval("30m") == 1800
  {
    assert DigitChar(3) == '3' && DigitChar(0) == '0';
    assert Decimal(3) == "3";
    assert Decimal(30) == Decimal(3) + [DigitChar(0)];
    assert Decimal(30) + ['m'] == "30m";
    ParseIntervalOfRendered(30, 'm');
  }

  // ---------------------------------------------------------------------------
  // Human-readable sizes

  const SizeNames: seq<string> := ["B", "KB", "MB", "GB", "TB"]

  function Pow1024(k: nat): nat {
    if k == 0 then 1 else 1024 * Pow1024(k - 1)
  }

  /** The unit `format_file_size` prints: "0B" for zero, otherwise the unit
      reached by dividing by 1024 while the value is at least 1024, at most four
      times. The value is tracked exactly as a rational. */
  method FileSizeUnit(sizeBytes: int) returns (unit: string, index: nat)
    ensures sizeBytes == 0 ==> unit == "0B"
    ensures sizeBytes != 0 ==> index < |SizeNames| && unit == SizeNames[index]
    ensures sizeBytes > 0 ==> sizeBytes >= Pow1024(index)
    ensures sizeBytes > 0 && index < 4 ==> sizeBytes < Pow1024(index + 1)
    ensures sizeBytes < 1024 ==> index == 0
  {
    if sizeBytes == 0 {
      return "0B", 0;
    }
    var value: real := sizeBytes as real;
    ghost var scale: real := 1.0;
    var i: nat := 0;
    while value >= 1024.0 && i < |SizeNames| - 1
      invariant 0 <= i <= |SizeNames| - 1
      invariant scale == Pow1024(i) as real
      invariant value * scale == sizeBytes as real
      invariant i > 0 ==> value >= 1.0
      decreases |SizeNames| - 1 - i
    {
      RescaleStep(value, scale);
      value := value / 1024.0;
      scale := scale * 1024.0;
      i := i + 1;
    }
    if sizeBytes > 0 {
      ScaledBounds(value, scale, sizeBytes as real);
    }
    unit, index := SizeNames[i], i;
  }

  /** Dividing the value by 1024 and multiplying the scale by 1024 keeps their product. */
  lemma RescaleStep(value: real, scale: real)
    ensures (value / 1024.0) * (scale * 1024.0) == value * scale
  {
  }

  /** If `value * scale == total` with `value >= 1` then `total >= scale`, and
      if `value < 1024` then `total < 1024 * scale`. */
  lemma ScaledBounds(value: real, scale: real, total: real)
    requires scale >= 1.0 && value * scale == total && total >= 1.0
    ensures value >= 1.0 ==> total >= scale
    ensures value < 1024.0 ==> total < 1024.0 * scale
  {
  }

  // ---------------------------------------------------------------------------
  // Paths

  /** POSIX `os.path.join`: a part starting with '/' restarts the path; otherwise
      a '/' is inserted unless the path so far is empty or already ends with one. */
  function PosixJoin(path: string, parts: seq<string>): string
    decreases |parts|
  {
    if |parts| == 0 then path
    else
      var b := parts[0];
      var next :=
        if StartsWith(b, "/") then b
        else if path == "" || EndsWith(path, "/") then path + b
        else path + "/" + b;
      PosixJoin(next, parts[1..])
  }

  /** `safe_path_join`: `os.path.join(*paths)` with every backslash turned into '/'.
      Python rejects a call with no parts. */
  function SafePathJoin(parts: seq<string>): (r: string)
    requires |parts| >= 1
    ensures '\\' !in r
  {
    ReplaceChar(PosixJoin(parts[0], parts[1..]), '\\', '/')
  }

  /** Relative parts that neither start nor end with '/' are joined with one '/'
      between each two. */
  lemma {:induction false} PosixJoinPlain(path: string, parts: seq<string>)
    requires path != "" && !EndsWith(path, "/")
    requires forall k :: 0 <= k < |parts| ==> parts[k] != "" && !StartsWith(parts[k], "/") && !EndsWith(parts[k], "/")
    ensures PosixJoin(path, parts) == Join([path] + parts, "/")
    decreases |parts|
  {
    if |parts| > 0 {
      var next := path + "/" + parts[0];
      assert EndsWith(next, parts[0]) by {
        assert next[|next| - |parts[0]|..] == parts[0];
      }
      assert !EndsWith(next, "/") by {
        assert next[|next| - 1] == parts[0][|parts[0]| - 1];
      }
      PosixJoinPlain(next, parts[1..]);
      JoinFront(path, parts[0], parts[1..]);
    }
  }

  lemma JoinFront(a: string, b: string, rest: seq<string>)
    ensures Join([a + "/" + b] + rest, "/") == Join([a] + ([b] + rest), "/")
  {
    var l := [a] + ([b] + rest);
    assert l[1..] == [b] + rest;
    if |rest| == 0 {
      assert Join(l[1..], "/") == b;
    } else {
      assert ([b] + rest)[1..] == rest;
      assert ([a + "/" + b] + rest)[1..] == rest;
    }
  }
}
