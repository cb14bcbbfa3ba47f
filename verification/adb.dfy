/**
 The client's `ADBManager` (`client/src/adb_manager.py`, and the identical
 `kivy_client/src/adb_manager.py`): the argument vectors it hands to `adb` and
 the way it reads `adb`'s output. Running a process is a parameter: a `Run`
 is what `subprocess.run` gave back, or the exception it raised.
 */
module Adb {
  import opened Options
  import opened Strings

  /** The outcome of one `subprocess.run`. */
  datatype Run =
    | Completed(code: int, stdout: string, stderr: string)
    | TimedOut
    | Errored(message: string)

  predicate Succeeded(run: Run) {
    run.Completed? && run.code == 0
  }

  const AdbPath: string := "adb"

  /** One line of `adb` output that `strip` leaves alone: not empty, no newline,
      no whitespace at either end. */
  predicate Line(s: string) {
    && |s| > 0
    && '\n' !in s
    && !IsSpace(s[0]) && !IsSpace(s[|s| - 1])
  }

  /** A field of such a line: a line without a tab. */
  predicate Token(s: string) {
    Line(s) && '\t' !in s
  }

  /** The first and last characters of a join come from the first and last pieces. */
  lemma JoinEdges(parts: seq<string>, sep: string)
    requires |parts| >= 1 && |parts[0]| > 0 && |parts[|parts| - 1]| > 0
    ensures |Join(parts, sep)| > 0
    ensures Join(parts, sep)[0] == parts[0][0]
    ensures Join(parts, sep)[|Join(parts, sep)| - 1] == parts[|parts| - 1][|parts[|parts| - 1]| - 1]
  {
    JoinEdgesTail(parts, sep);
  }

  lemma {:induction false} JoinEdgesTail(parts: seq<string>, sep: string)
    requires |parts| >= 1 && |parts[|parts| - 1]| > 0
    ensures |Join(parts, sep)| > 0
    ensures Join(parts, sep)[|Join(parts, sep)| - 1] == parts[|parts| - 1][|parts[|parts| - 1]| - 1]
    decreases |parts|
  {
    if |parts| > 1 {
      var rest := parts[1..];
      assert rest[|rest| - 1] == parts[|parts| - 1];
      JoinEdgesTail(rest, sep);
    }
  }

  /** Joining tokens with newlines: the result is its own strip and splits back. */
  lemma LinesRoundTrip(lines: seq<string>)
    requires |lines| >= 1
    requires forall k :: 0 <= k < |lines| ==> Line(lines[k])
    ensures Split(Strip(Join(lines, "\n")), '\n') == lines
  {
    var j := Join(lines, "\n");
    var first, last := lines[0], lines[|lines| - 1];
    assert Line(first) && Line(last);
    JoinEdges(lines, "\n");
    assert j[0] == first[0] && j[|j| - 1] == last[|last| - 1];
    StripNoEdgeSpace(j);
    assert forall k :: 0 <= k < |lines| ==> '\n' !in lines[k] by {
      forall k | 0 <= k < |lines| ensures '\n' !in lines[k] {
        assert Line(lines[k]);
      }
    }
    SplitJoin(lines, '\n');
  }

  // ---------------------------------------------------------------------------
  // get_connected_devices and get_device_model

  datatype Device = Device(serial: string, model: string, status: string)

  const UnknownDevice: string := "Unknown Device"

  /** `get_device_model`: the stripped output of `getprop` when adb exits 0, else
      "Unknown Device". */
  function DeviceModel(run: Run): (model: string)
    ensures Succeeded(run) ==> model == Strip(run.stdout)
    ensures !Succeeded(run) ==> model == UnknownDevice
  {
    if Succeeded(run) then Strip(run.stdout) else UnknownDevice
  }

  /** An empty `getprop` answer is reported as is, not as "Unknown Device". */
  lemma EmptyModelIsKept(stderr: string)
    ensures DeviceModel(Completed(0, "", stderr)) == ""
  {
  }

  /** The serial a line of `adb devices` announces, if it announces a usable device. */
  function DeviceSerial(line: string): Option<string> {
    if Strip(line) != "" && '\t' in line then
      var parts := Split(Strip(line), '\t');
      if |parts| >= 2 && parts[1] == "device" then Some(parts[0]) else None
    else None
  }

  /** A line "<serial>\t<state>" yields the serial exactly when the state is
      "device"; "offline" or "unauthorized" yield nothing. */
  lemma DeviceLine(serial: string, state: string)
    requires Token(serial) && Token(state)
    ensures DeviceSerial(serial + "\t" + state) == if state == "device" then Some(serial) else None
  {
    var line := serial + "\t" + state;
    assert line[0] == serial[0] && line[|line| - 1] == state[|state| - 1];
    StripNoEdgeSpace(line);
    assert line[|serial|] == '\t';
    SplitAfterPiece(serial, '\t', state);
    SplitNoSeparator(state, '\t');
  }

  /** A line without a tab never yields a device. */
  lemma NoTabNoDevice(line: string)
    requires '\t' !in line
    ensures DeviceSerial(line) == None
  {
  }

  /** The devices of the lines after the header, in order. */
  function ParseDevices(lines: seq<string>, modelOf: string -> Run): (devices: seq<Device>)
    ensures |devices| <= |lines|
    ensures forall k :: 0 <= k < |devices| ==>
              devices[k].status == "device" && devices[k].model == DeviceModel(modelOf(devices[k].serial))
    decreases |lines|
  {
    if |lines| == 0 then []
    else
      match DeviceSerial(lines[0])
      case Some(serial) => [Device(serial, DeviceModel(modelOf(serial)), "device")] + ParseDevices(lines[1..], modelOf)
      case None => ParseDevices(lines[1..], modelOf)
  }

  /** The serials of the parsed lines: the first line's serial, if any, then the rest's. */
  lemma ParseDevicesCons(lines: seq<string>, modelOf: string -> Run)
    requires |lines| > 0
    ensures Serials(ParseDevices(lines, modelOf)) ==
              (if DeviceSerial(lines[0]).Some? then [DeviceSerial(lines[0]).value] else []) +
              Serials(ParseDevices(lines[1..], modelOf))
  {
    var tail := ParseDevices(lines[1..], modelOf);
    var all := ParseDevices(lines, modelOf);
    if DeviceSerial(lines[0]).Some? {
      var serial := DeviceSerial(lines[0]).value;
      assert all == [Device(serial, DeviceModel(modelOf(serial)), "device")] + tail;
      assert all[1..] == tail;
    }
  }

  /** Some line announces `serial` as a ready device. */
  predicate Announced(lines: seq<string>, serial: string) {
    exists j :: 0 <= j < |lines| && DeviceSerial(lines[j]) == Some(serial)
  }

  lemma AnnouncedCons(lines: seq<string>, serial: string)
    requires |lines| > 0
    ensures Announced(lines, serial) <==> DeviceSerial(lines[0]) == Some(serial) || Announced(lines[1..], serial)
  {
    if Announced(lines, serial) {
      var j :| 0 <= j < |lines| && DeviceSerial(lines[j]) == Some(serial);
      if j > 0 {
        assert lines[1..][j - 1] == lines[j];
      }
    }
    if Announced(lines[1..], serial) {
      var j :| 0 <= j < |lines[1..]| && DeviceSerial(lines[1..][j]) == Some(serial);
      assert lines[j + 1] == lines[1..][j];
    }
  }

  /** A serial is reported exactly when some line announces it as a ready device. */
  lemma {:induction false} ParseDevicesMembers(lines: seq<string>, modelOf: string -> Run, serial: string)
    ensures serial in Serials(ParseDevices(lines, modelOf)) <==> Announced(lines, serial)
    decreases |lines|
  {
    if |lines| > 0 {
      ParseDevicesMembers(lines[1..], modelOf, serial);
      ParseDevicesCons(lines, modelOf);
      AnnouncedCons(lines, serial);
    }
  }

  /** `get_connected_devices`: nothing unless `adb devices` exits 0; otherwise the
      devices of the stripped output's lines, the first line skipped. */
  function GetConnectedDevices(run: Run, modelOf: string -> Run): (devices: seq<Device>)
    ensures !Succeeded(run) ==> devices == []
  {
    if Succeeded(run) then ParseDevices(Split(Strip(run.stdout), '\n')[1..], modelOf) else []
  }

  function Serials(devices: seq<Device>): (serials: seq<string>)
    ensures |serials| == |devices|
    ensures forall k :: 0 <= k < |devices| ==> serials[k] == devices[k].serial
    decreases |devices|
  {
    if |devices| == 0 then [] else [devices[0].serial] + Serials(devices[1..])
  }

  /** The line `adb devices` prints for a ready device. */
  function ReadyLine(serial: string): string {
    serial + "\t" + "device"
  }

  lemma ReadyLineSerial(serial: string)
    requires Token(serial)
    ensures DeviceSerial(ReadyLine(serial)) == Some(serial)
  {
    assert Token("device");
    DeviceLine(serial, "device");
  }

  function ReadyLines(serials: seq<string>): (lines: seq<string>)
    ensures |lines| == |serials|
    ensures forall k :: 0 <= k < |serials| ==> lines[k] == ReadyLine(serials[k])
  {
    seq(|serials|, k requires 0 <= k < |serials| => ReadyLine(serials[k]))
  }

  lemma {:induction false} ParseReadyLines(serials: seq<string>, modelOf: string -> Run)
    requires forall k :: 0 <= k < |serials| ==> Token(serials[k])
    ensures Serials(ParseDevices(ReadyLines(serials), modelOf)) == serials
    decreases |serials|
  {
    if |serials| > 0 {
      var lines := ReadyLines(serials);
      ReadyLineSerial(serials[0]);
      assert lines[0] == ReadyLine(serials[0]);
      assert lines[1..] == ReadyLines(serials[1..]);
      ParseReadyLines(serials[1..], modelOf);
      ParseDevicesCons(lines, modelOf);
      assert serials == [serials[0]] + serials[1..];
    }
  }

  /** Whatever the header says, the devices listed after it come back in order. */
  lemma DevicesRoundTrip(header: string, serials: seq<string>, stderr: string, modelOf: string -> Run)
    requires Token(header)
    requires forall k :: 0 <= k < |serials| ==> Token(serials[k])
    ensures Serials(GetConnectedDevices(Completed(0, Join([header] + ReadyLines(serials), "\n"), stderr), modelOf)) == serials
  {
    var lines := [header] + ReadyLines(serials);
    forall k | 0 <= k < |lines|
      ensures Line(lines[k])
    {
      if k > 0 {
        var s := serials[k - 1];
        assert lines[k] == s + "\t" + "device";
        assert lines[k][0] == s[0];
      }
    }
    LinesRoundTrip(lines);
    assert lines[1..] == ReadyLines(serials);
    ParseReadyLines(serials, modelOf);
  }

  /** A ready-looking first line is the header and is skipped. */
  lemma HeaderIsSkipped(serial: string, stderr: string, modelOf: string -> Run)
    requires Token(serial)
    ensures GetConnectedDevices(Completed(0, ReadyLine(serial), stderr), modelOf) == []
  {
    var line := ReadyLine(serial);
    assert line[0] == serial[0];
    LinesRoundTrip([line]);
    assert Join([line], "\n") == line;
  }

  // ---------------------------------------------------------------------------
  // install_apk

  datatype InstallRequest = InstallRequest(serial: Option<string>, replace: bool, downgrade: bool, test: bool, apkPath: string)

  /** A serial counts only when it is given and non-empty. */
  function SerialArgs(serial: Option<string>): seq<string> {
    if serial.Some? && serial.value != "" then ["-s", serial.value] else []
  }

  function FlagArgs(replace: bool, downgrade: bool, test: bool): seq<string> {
    (if replace then ["-r"] else []) + (if downgrade then ["-d"] else []) + (if test then ["-t"] else [])
  }

  /** The part of the vector from "install" on: the subcommand, its flags, the path. */
  function CommandArgs(replace: bool, downgrade: bool, test: bool, apkPath: string): seq<string> {
    ["install"] + FlagArgs(replace, downgrade, test) + [apkPath]
  }

  /** The argument vector of `install_apk`. */
  function InstallArgv(req: InstallRequest): (argv: seq<string>)
    ensures |argv| >= 3 && argv[0] == AdbPath && argv[|argv| - 1] == req.apkPath
  {
    [AdbPath] + SerialArgs(req.serial) + CommandArgs(req.replace, req.downgrade, req.test, req.apkPath)
  }

  /** The request as the argument vector sees it: an empty serial is no serial. */
  function Normalize(req: InstallRequest): InstallRequest {
    if req.serial.Some? && req.serial.value == "" then req.(serial := None) else req
  }

  function DecodeFlags(flags: seq<string>): Option<(bool, bool, bool)> {
    var r := |flags| > 0 && flags[0] == "-r";
    var f1 := if r then flags[1..] else flags;
    var d := |f1| > 0 && f1[0] == "-d";
    var f2 := if d then f1[1..] else f1;
    var t := |f2| > 0 && f2[0] == "-t";
    var f3 := if t then f2[1..] else f2;
    if f3 == [] then Some((r, d, t)) else None
  }

  /** Reads "install", the flags and the path back. */
  function DecodeCommand(rest: seq<string>): Option<(bool, bool, bool, string)> {
    if |rest| < 2 || rest[0] != "install" then None
    else
      match DecodeFlags(rest[1..|rest| - 1])
      case None => None
      case Some(f) => Some((f.0, f.1, f.2, rest[|rest| - 1]))
  }

  /** Reads an install argument vector back into the request it encodes. */
  function DecodeInstallArgv(argv: seq<string>): Option<InstallRequest> {
    if |argv| < 3 || argv[0] != AdbPath then None
    else
      var hasSerial := NamesSerial(argv);
      match DecodeCommand(if hasSerial then argv[3..] else argv[1..])
      case None => None
      case Some(c) => Some(InstallRequest(if hasSerial then Some(argv[2]) else None, c.0, c.1, c.2, c.3))
  }

  /** The flags come back in their fixed order. */
  lemma FlagsRoundTrip(replace: bool, downgrade: bool, test: bool)
    ensures DecodeFlags(FlagArgs(replace, downgrade, test)) == Some((replace, downgrade, test))
  {
    var flags := FlagArgs(replace, downgrade, test);
    var f1 := if replace then flags[1..] else flags;
    assert f1 == FlagArgs(false, downgrade, test);
    var f2 := if downgrade then f1[1..] else f1;
    assert f2 == FlagArgs(false, false, test);
  }

  lemma CommandRoundTrip(replace: bool, downgrade: bool, test: bool, apkPath: string)
    ensures DecodeCommand(CommandArgs(replace, downgrade, test, apkPath)) == Some((replace, downgrade, test, apkPath))
  {
    var rest := CommandArgs(replace, downgrade, test, apkPath);
    assert rest[1..|rest| - 1] == FlagArgs(replace, downgrade, test);
    FlagsRoundTrip(replace, downgrade, test);
  }

  lemma DecodeWithSerial(serial: string, cmd: seq<string>)
    requires serial != "" && DecodeCommand(cmd).Some?
    ensures var c := DecodeCommand(cmd).value;
            DecodeInstallArgv([AdbPath] + ["-s", serial] + cmd) == Some(InstallRequest(Some(serial), c.0, c.1, c.2, c.3))
  {
    var argv := [AdbPath] + ["-s", serial] + cmd;
    assert argv[1] == "-s" && argv[2] == serial && |argv| >= 5;
    assert argv[3..] == cmd;
  }

  lemma DecodeWithoutSerial(cmd: seq<string>)
    requires DecodeCommand(cmd).Some?
    ensures var c := DecodeCommand(cmd).value;
            DecodeInstallArgv([AdbPath] + cmd) == Some(InstallRequest(None, c.0, c.1, c.2, c.3))
  {
    var argv := [AdbPath] + cmd;
    assert argv[1..] == cmd;
    assert argv[1] == "install" != "-s";
  }

  lemma RoundTripWithSerial(req: InstallRequest)
    requires req.serial.Some? && req.serial.value != ""
    ensures DecodeInstallArgv(InstallArgv(req)) == Some(Normalize(req))
  {
    var cmd := CommandArgs(req.replace, req.downgrade, req.test, req.apkPath);
    CommandRoundTrip(req.replace, req.downgrade, req.test, req.apkPath);
    ArgvOfParts(req, ["-s", req.serial.value], cmd);
    DecodeWithSerial(req.serial.value, cmd);
  }

  lemma RoundTripWithoutSerial(req: InstallRequest)
    requires req.serial.None? || req.serial.value == ""
    ensures DecodeInstallArgv(InstallArgv(req)) == Some(Normalize(req))
  {
    var cmd := CommandArgs(req.replace, req.downgrade, req.test, req.apkPath);
    CommandRoundTrip(req.replace, req.downgrade, req.test, req.apkPath);
    ArgvOfParts(req, [], cmd);
    assert [AdbPath] + [] + cmd == [AdbPath] + cmd;
    DecodeWithoutSerial(cmd);
  }

  /** The vector is the program, the serial part and the command part. */
  lemma ArgvOfParts(req: InstallRequest, serialArgs: seq<string>, cmd: seq<string>)
    requires SerialArgs(req.serial) == serialArgs
    requires CommandArgs(req.replace, req.downgrade, req.test, req.apkPath) == cmd
    ensures InstallArgv(req) == [AdbPath] + serialArgs + cmd
  {
  }

  /** The argument vector determines the request: serial, the three flags in
      their fixed order, and the path. */
  lemma InstallArgvRoundTrip(req: InstallRequest)
    ensures DecodeInstallArgv(InstallArgv(req)) == Some(Normalize(req))
  {
    if req.serial.Some? && req.serial.value != "" {
      RoundTripWithSerial(req);
    } else {
      RoundTripWithoutSerial(req);
    }
  }

  lemma DecodeFlagsExact(flags: seq<string>)
    requires DecodeFlags(flags).Some?
    ensures var f := DecodeFlags(flags).value; FlagArgs(f.0, f.1, f.2) == flags
  {
  }

  lemma DecodeCommandExact(rest: seq<string>)
    requires DecodeCommand(rest).Some?
    ensures var c := DecodeCommand(rest).value; CommandArgs(c.0, c.1, c.2, c.3) == rest
  {
    var flags := rest[1..|rest| - 1];
    DecodeFlagsExact(flags);
    assert rest == [rest[0]] + flags + [rest[|rest| - 1]];
  }

  /** Whether a vector names a device: "-s", a non-empty serial, and room for the rest. */
  predicate NamesSerial(argv: seq<string>)
    requires |argv| >= 3
  {
    argv[1] == "-s" && |argv| >= 5 && argv[2] != ""
  }

  lemma BuiltWithSerial(argv: seq<string>)
    requires DecodeInstallArgv(argv).Some? && NamesSerial(argv)
    ensures InstallArgv(DecodeInstallArgv(argv).value) == argv
  {
    var tail := argv[3..];
    DecodedWithSerial(argv);
    var c := DecodeCommand(tail).value;
    var req := InstallRequest(Some(argv[2]), c.0, c.1, c.2, c.3);
    DecodeCommandExact(tail);
    ArgvOfParts(req, ["-s", argv[2]], tail);
    SplitThree(argv);
  }

  lemma BuiltWithoutSerial(argv: seq<string>)
    requires DecodeInstallArgv(argv).Some? && !NamesSerial(argv)
    ensures InstallArgv(DecodeInstallArgv(argv).value) == argv
  {
    var tail := argv[1..];
    DecodedWithoutSerial(argv);
    var c := DecodeCommand(tail).value;
    var req := InstallRequest(None, c.0, c.1, c.2, c.3);
    DecodeCommandExact(tail);
    ArgvOfParts(req, [], tail);
    SplitOne(argv);
  }

  /** A decodable vector naming a serial decodes its command part after the serial. */
  lemma DecodedWithSerial(argv: seq<string>)
    requires DecodeInstallArgv(argv).Some? && NamesSerial(argv)
    ensures DecodeCommand(argv[3..]).Some?
    ensures var c := DecodeCommand(argv[3..]).value;
            DecodeInstallArgv(argv).value == InstallRequest(Some(argv[2]), c.0, c.1, c.2, c.3)
    ensures argv[0] == AdbPath
  {
  }

  /** A decodable vector naming no serial decodes everything after the program. */
  lemma DecodedWithoutSerial(argv: seq<string>)
    requires DecodeInstallArgv(argv).Some? && !NamesSerial(argv)
    ensures DecodeCommand(argv[1..]).Some?
    ensures var c := DecodeCommand(argv[1..]).value;
            DecodeInstallArgv(argv).value == InstallRequest(None, c.0, c.1, c.2, c.3)
    ensures argv[0] == AdbPath
  {
  }

  lemma SplitThree<T>(s: seq<T>)
    requires |s| >= 3
    ensures s == [s[0]] + [s[1], s[2]] + s[3..]
  {
  }

  lemma SplitOne<T>(s: seq<T>)
    requires |s| >= 1
    ensures s == [s[0]] + [] + s[1..]
  {
  }



  /** ... and every vector that decodes is the one built from its request. */
  lemma DecodedArgvIsBuilt(argv: seq<string>)
    requires DecodeInstallArgv(argv).Some?
    ensures InstallArgv(DecodeInstallArgv(argv).value) == argv
  {
    if NamesSerial(argv) {
      BuiltWithSerial(argv);
    } else {
      BuiltWithoutSerial(argv);
    }
  }

  /** `install_apk`'s result: success and the combined output. */
  function InstallOutcome(run: Run): (r: (bool, string))
    ensures r.0 <==> Succeeded(run) && Contains(run.stdout, "Success")
    ensures run.Completed? ==> r.1 == run.stdout + run.stderr
    ensures run.TimedOut? ==> r.1 == "Installation timed out"
  {
    match run
    case Completed(code, stdout, stderr) => (code == 0 && Contains(stdout, "Success"), stdout + stderr)
    case TimedOut => (false, "Installation timed out")
    case Errored(message) => (false, "Installation failed: " + message)
  }

  /** A zero exit code alone is not success. */
  lemma ExitZeroIsNotEnough(stderr: string)
    ensures !InstallOutcome(Completed(0, "Failure", stderr)).0
  {
    MissingFirstChar("Failure", "Success");
  }

  // ---------------------------------------------------------------------------
  // get_installed_packages

  const PackagePrefix: string := "package:"

  /** The package name of a listing line: every "package:" removed, then trimmed. */
  function PackageName(line: string): string {
    Strip(RemoveAll(line, PackagePrefix))
  }

  /** The names of the "package:" lines, in order. */
  function PackageLines(lines: seq<string>): (names: seq<string>)
    ensures |names| <= |lines|
    decreases |lines|
  {
    if |lines| == 0 then []
    else (if StartsWith(lines[0], PackagePrefix) then [PackageName(lines[0])] else []) + PackageLines(lines[1..])
  }

  /** `line` is a "package:" line naming `name`. */
  predicate Names(line: string, name: string) {
    StartsWith(line, PackagePrefix) && PackageName(line) == name
  }

  /** A name is listed exactly when some "package:" line gives it. */
  lemma {:induction false} PackageLinesMembers(lines: seq<string>, name: string)
    ensures name in PackageLines(lines) <==> exists j :: 0 <= j < |lines| && Names(lines[j], name)
    decreases |lines|
  {
    if |lines| > 0 {
      PackageLinesMembers(lines[1..], name);
      if exists j :: 0 <= j < |lines| && Names(lines[j], name) {
        var j :| 0 <= j < |lines| && Names(lines[j], name);
        if j > 0 {
          assert lines[1..][j - 1] == lines[j];
        }
      }
      if exists j :: 0 <= j < |lines[1..]| && Names(lines[1..][j], name) {
        var j :| 0 <= j < |lines[1..]| && Names(lines[1..][j], name);
        assert lines[j + 1] == lines[1..][j];
      }
    }
  }

  /** `get_installed_packages`: the names of the "package:" lines, or nothing
      when `pm list packages` fails. */
  function GetInstalledPackages(run: Run): (packages: seq<string>)
    ensures !Succeeded(run) ==> packages == []
  {
    if Succeeded(run) then PackageLines(Split(Strip(run.stdout), '\n')) else []
  }

  /** A clean package name survives its "package:" line. */
  lemma PackageNameOfLine(name: string)
    requires Token(name) && !Contains(name, PackagePrefix)
    ensures PackageName(PackagePrefix + name) == name
  {
    var line := PackagePrefix + name;
    assert PackagePrefix <= line;
    assert line[|PackagePrefix|..] == name;
    RemoveAllAbsent(name, PackagePrefix);
    StripNoEdgeSpace(name);
  }

  function PackageListing(names: seq<string>): (lines: seq<string>)
    ensures |lines| == |names|
    ensures forall k :: 0 <= k < |names| ==> lines[k] == PackagePrefix + names[k]
  {
    seq(|names|, k requires 0 <= k < |names| => PackagePrefix + names[k])
  }

  lemma {:induction false} PackageLinesOfListing(names: seq<string>)
    requires forall k :: 0 <= k < |names| ==> Token(names[k]) && !Contains(names[k], PackagePrefix)
    ensures PackageLines(PackageListing(names)) == names
    decreases |names|
  {
    if |names| > 0 {
      var lines := PackageListing(names);
      assert StartsWith(lines[0], PackagePrefix);
      PackageNameOfLine(names[0]);
      assert lines[1..] == PackageListing(names[1..]);
      PackageLinesOfListing(names[1..]);
    }
  }

  /** The package list `pm` prints is read back as the same names, in order. */
  lemma PackagesRoundTrip(names: seq<string>, stderr: string)
    requires |names| >= 1
    requires forall k :: 0 <= k < |names| ==> Token(names[k]) && !Contains(names[k], PackagePrefix)
    ensures GetInstalledPackages(Completed(0, Join(PackageListing(names), "\n"), stderr)) == names
  {
    var lines := PackageListing(names);
    forall k | 0 <= k < |lines|
      ensures Line(lines[k])
    {
      assert lines[k][0] == 'p';
      assert lines[k][|lines[k]| - 1] == names[k][|names[k]| - 1];
      assert '\t' !in lines[k] && '\n' !in lines[k] by {
        assert forall c :: c in lines[k] ==> c in PackagePrefix || c in names[k];
      }
    }
    LinesRoundTrip(lines);
    PackageLinesOfListing(names);
  }

  // ---------------------------------------------------------------------------
  // start_activity

  /** The component `am start -n` is given. */
  function Intent(package: string, activity: Option<string>): string {
    if activity.Some? && activity.value != "" then package + "/" + activity.value else package
  }

  function StartActivityArgv(package: string, activity: Option<string>, serial: Option<string>): (argv: seq<string>)
    ensures |argv| >= 6 && argv[0] == AdbPath && argv[|argv| - 1] == Intent(package, activity)
  {
    [AdbPath] + SerialArgs(serial) + ["shell", "am", "start", "-n", Intent(package, activity)]
  }

  /** The intent splits back into package and activity at the first '/'. */
  lemma IntentRoundTrip(package: string, activity: string)
    requires '/' !in package && activity != ""
    ensures Split(Intent(package, Some(activity)), '/')[0] == package
    ensures Intent(package, Some(activity))[|package| + 1..] == activity
  {
    SplitAfterPiece(package, '/', activity);
  }

  /** Without an activity the intent is the bare package. */
  lemma IntentWithoutActivity(package: string)
    ensures Intent(package, None) == package && Intent(package, Some("")) == package
  {
  }
}
