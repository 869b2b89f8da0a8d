/**
 * The text processing of the `adb` routes: the `adb devices` table, the
 * `pm path` and `pm list packages` listings, the `getprop` dump and the
 * device-information record built from it, and the argument lists and
 * command lines of `logcat`, `start-activity` and `power`.
 */
module AdbParsers {
  import opened Common
  import opened JsString
  import opened AdbExec

  // ---------------------------------------------------------------- devices

  /** One row of `adb devices`; `status` is `undefined` when the line has no tab. */
  datatype Device = Device(id: string, status: Option<string>)

  /** `const [id, status] = line.split('\t')`. */
  function DeviceOf(line: string): (d: Device)
    ensures '\t' !in d.id
    ensures d.status.None? <==> '\t' !in line
    ensures d.status.None? ==> d.id == line
    ensures d.status.Some? ==>
      var n := |d.id| + 1 + |d.status.value|;
      '\t' !in d.status.value && n <= |line| &&
      line[..n] == d.id + "\t" + d.status.value && (n == |line| || line[n] == '\t')
  {
    var fields := Split(line, "\t");
    TabFields(line, fields);
    if |fields| == 1 then Device(fields[0], None) else Device(fields[0], Some(fields[1]))
  }

  /** The first two fields of a tab-separated line, and where the second one ends. */
  lemma TabFields(line: string, fields: seq<string>)
    requires fields == Split(line, "\t")
    ensures '\t' !in fields[0]
    ensures |fields| == 1 <==> '\t' !in line
    ensures |fields| == 1 ==> fields[0] == line
    ensures |fields| > 1 ==>
      var n := |fields[0]| + 1 + |fields[1]|;
      '\t' !in fields[1] && n <= |line| &&
      line[..n] == fields[0] + "\t" + fields[1] && (n == |line| || line[n] == '\t')
  {
    IncludesChar(fields[0], '\t');
    if |fields| == 1 {
      IncludesChar(line, '\t');
    } else {
      IncludesChar(fields[1], '\t');
      TwoTabFields(line, fields);
    }
  }

  lemma TwoTabFields(line: string, fields: seq<string>)
    requires |fields| > 1 && line == Join(fields, "\t")
    ensures var n := |fields[0]| + 1 + |fields[1]|;
      n <= |line| && line[..n] == fields[0] + "\t" + fields[1] && (n == |line| || line[n] == '\t')
    ensures '\t' in line
  {
    var tail := Join(fields[1..], "\t");
    assert line == fields[0] + "\t" + tail;
    if |fields| == 2 {
      assert tail == fields[1];
    } else {
      assert tail == fields[1] + "\t" + Join(fields[2..], "\t");
    }
    assert line[|fields[0]|] == '\t';
  }

  /** A line that is not empty after trimming. */
  predicate NonBlank(line: string) {
    Trim(line) != ""
  }

  /** `/adb/devices`: drop the header line and blank lines, then read each row. */
  function ParseDevices(output: string): (r: seq<Device>)
    ensures |r| < |Split(output, "\n")|
  {
    Map(Filter(Split(output, "\n")[1..], NonBlank), DeviceOf)
  }

  /**
   * A header followed by newline-separated rows gives one device per
   * non-blank row, in order: nothing is lost or reordered.
   */
  lemma DevicesOfRows(header: string, rows: seq<string>)
    requires '\n' !in header && |rows| >= 1
    requires forall i :: 0 <= i < |rows| ==> '\n' !in rows[i]
    ensures ParseDevices(header + "\n" + Join(rows, "\n")) == Map(Filter(rows, NonBlank), DeviceOf)
  {
    RowsAfterHeader(header, rows);
  }

  lemma RowsAfterHeader(header: string, rows: seq<string>)
    requires '\n' !in header && |rows| >= 1
    requires forall i :: 0 <= i < |rows| ==> '\n' !in rows[i]
    ensures Split(header + "\n" + Join(rows, "\n"), "\n")[1..] == rows
  {
    var lines := [header] + rows;
    assert lines[1..] == rows;
    JoinCons(header, rows, "\n");
    assert forall i :: 1 <= i < |lines| ==> lines[i] == rows[i - 1];
    SplitJoinChar(lines, '\n');
  }

  /** Output holding only the header line lists no device. */
  lemma HeaderOnlyHasNoDevices(header: string)
    requires '\n' !in header
    ensures ParseDevices(header) == []
  {
    SplitJoinChar([header], '\n');
  }

  /** One more row at the end adds exactly its device, or nothing when it is blank. */
  lemma DevicesAppendRow(output: string, row: string)
    requires '\n' !in row
    ensures ParseDevices(output + "\n" + row) ==
      ParseDevices(output) + (if NonBlank(row) then [DeviceOf(row)] else [])
  {
    var rows := Split(output, "\n")[1..];
    RowAppended(output, row);
    DevicesOfSplit(output, rows);
    DevicesOfSplit(output + "\n" + row, rows + [row]);
    MapFilterSnoc(rows, row, NonBlank, DeviceOf);
  }

  lemma DevicesOfSplit(output: string, rows: seq<string>)
    requires Split(output, "\n")[1..] == rows
    ensures ParseDevices(output) == Map(Filter(rows, NonBlank), DeviceOf)
  {
  }

  lemma RowAppended(output: string, row: string)
    requires '\n' !in row
    ensures Split(output + "\n" + row, "\n")[1..] == Split(output, "\n")[1..] + [row]
  {
    SplitAppendChar(output, '\n', row);
  }

  // ---------------------------------------------------------------- pm path / pm list packages

  /** `line.replace('package:', '').trim()`. */
  function CleanPath(line: string): string {
    Trim(ReplaceFirst(line, "package:", ""))
  }

  predicate NonEmpty(s: string) {
    s != ""
  }

  /** The APK paths of `pm path` output: cleaned lines, empty ones dropped. */
  function PmPaths(stdout: string): (r: seq<string>)
    ensures forall i :: 0 <= i < |r| ==> r[i] != ""
  {
    Filter(Map(Split(stdout, "\n"), CleanPath), NonEmpty)
  }

  /** `pm path` output is read line by line, keeping the order of the lines. */
  lemma PmPathsOfLines(lines: seq<string>)
    requires |lines| >= 1
    requires forall i :: 0 <= i < |lines| ==> '\n' !in lines[i]
    ensures PmPaths(Join(lines, "\n")) == Filter(Map(lines, CleanPath), NonEmpty)
  {
    SplitJoinChar(lines, '\n');
  }

  lemma TrimUnpadded(p: string)
    requires p != "" && !IsJsSpace(p[0]) && !IsJsSpace(p[|p| - 1])
    ensures Trim(p) == p
  {
    var t := TrimStart(p);
    assert t == p;
  }

  /**
   * A `package:<path>` line yields `<path>` whenever the path has no
   * surrounding white space; only the first `package:` is removed, so a
   * path that itself holds `package:` is kept whole.
   */
  lemma CleanPathOfEntry(p: string)
    requires p != "" && !IsJsSpace(p[0]) && !IsJsSpace(p[|p| - 1])
    ensures CleanPath("package:" + p) == p
  {
    var line := "package:" + p;
    assert OccursAt(line, "package:", 0);
    assert ReplaceFirst(line, "package:", "") == p;
    TrimUnpadded(p);
  }

  predicate MentionsPackage(line: string) {
    Includes(line, "package:")
  }

  /** The package names of `pm list packages` output. */
  function PmListPackages(stdout: string): (r: seq<string>)
    ensures |r| <= |Split(stdout, "\n")|
  {
    Map(Filter(Split(stdout, "\n"), MentionsPackage), CleanPath)
  }

  /** Lines without `package:` are dropped and every other line yields one name, in order. */
  lemma PmListPackagesOfLines(lines: seq<string>)
    requires |lines| >= 1
    requires forall i :: 0 <= i < |lines| ==> '\n' !in lines[i]
    ensures PmListPackages(Join(lines, "\n")) == Map(Filter(lines, MentionsPackage), CleanPath)
  {
    SplitJoinChar(lines, '\n');
  }

  /** The `exec` line of `/adb/packages`; `systemApps` is its truthiness. */
  function PmListCommand(id: Option<string>, systemApps: bool): (command: string)
    ensures !systemApps <==> EndsWith(command, " -3")
  {
    var prefix := "adb -s " + Render(id) + " shell pm list packages ";
    if systemApps then
      assert prefix[|prefix| - 1] == ' ';
      prefix
    else
      EndsWithAppend(prefix[..|prefix| - 1], " -3");
      assert prefix[..|prefix| - 1] + " -3" == prefix + "-3";
      prefix + "-3"
  }

  // ---------------------------------------------------------------- getprop

  /** `line.split(': ')`. */
  function PropFields(line: string): (f: seq<string>)
    ensures |f| >= 1
  {
    Split(line, ": ")
  }

  /** What one line does to the dictionary: `getInfo[key.trim()] = value.trim()`, or nothing. */
  datatype Assignment = Assign(key: string, value: string)

  /** `if (key && value)`: the line assigns when its first and second fields are non-empty. */
  function AssignmentOf(line: string): Option<Assignment> {
    var f := PropFields(line);
    if f[0] != "" && |f| >= 2 && f[1] != "" then Some(Assign(Trim(f[0]), Trim(f[1]))) else None
  }

  predicate Assigns(a: Option<Assignment>, key: string) {
    a.Some? && a.value.key == key
  }

  /** The dictionary after carrying out `assignments` in order. */
  function Apply(assignments: seq<Option<Assignment>>): map<string, string> {
    if assignments == [] then map[]
    else
      var m := Apply(assignments[..|assignments| - 1]);
      match assignments[|assignments| - 1]
      case Some(Assign(k, v)) => m[k := v]
      case None => m
  }

  /** The `getInfo` dictionary built from the lines of `getprop`. */
  function PropsOf(lines: seq<string>): map<string, string> {
    Apply(Map(lines, AssignmentOf))
  }

  /** The loop of `/device-info` that fills `getInfo`. */
  method ParseProps(lines: seq<string>) returns (info: map<string, string>)
    ensures info == PropsOf(lines)
  {
    info := map[];
    for i := 0 to |lines|
      invariant info == PropsOf(lines[..i])
    {
      PropsStep(lines, i);
      var fields := Split(lines[i], ": ");
      if fields[0] != "" && |fields| >= 2 && fields[1] != "" {
        info := info[Trim(fields[0]) := Trim(fields[1])];
      }
    }
    assert lines[..|lines|] == lines;
  }

  /** One more `getprop` line carries out its assignment, if any, on the dictionary. */
  lemma PropsStep(lines: seq<string>, i: nat)
    requires i < |lines|
    ensures PropsOf(lines[..i + 1]) ==
      match AssignmentOf(lines[i])
      case Some(Assign(k, v)) => PropsOf(lines[..i])[k := v]
      case None => PropsOf(lines[..i])
  {
    var a := Map(lines[..i + 1], AssignmentOf);
    assert a[..i] == Map(lines[..i], AssignmentOf);
    assert a[i] == AssignmentOf(lines[i]);
  }

  /** A key is in the dictionary exactly when some assignment sets it. */
  lemma {:induction false} ApplyDomain(assignments: seq<Option<Assignment>>, key: string)
    ensures key in Apply(assignments) <==>
      exists i :: 0 <= i < |assignments| && Assigns(assignments[i], key)
  {
    if assignments != [] {
      var init := assignments[..|assignments| - 1];
      ApplyDomain(init, key);
      if exists i :: 0 <= i < |init| && Assigns(init[i], key) {
        var i :| 0 <= i < |init| && Assigns(init[i], key);
        assert assignments[i] == init[i];
      }
      if exists i :: 0 <= i < |assignments| && Assigns(assignments[i], key) {
        var i :| 0 <= i < |assignments| && Assigns(assignments[i], key);
        if i < |init| {
          assert assignments[i] == init[i];
        }
      }
    }
  }

  /** A key holds the value of the last assignment to it: later lines overwrite. */
  lemma {:induction false} ApplyLastWins(assignments: seq<Option<Assignment>>, key: string, i: nat)
    requires i < |assignments| && Assigns(assignments[i], key)
    requires forall j :: i < j < |assignments| ==> !Assigns(assignments[j], key)
    ensures key in Apply(assignments) && Apply(assignments)[key] == assignments[i].value.value
  {
    var init := assignments[..|assignments| - 1];
    if i < |init| {
      assert init[i] == assignments[i];
      forall j | i < j < |init| ensures !Assigns(init[j], key) {
        assert init[j] == assignments[j];
      }
      ApplyLastWins(init, key, i);
    }
  }

  /**
   * For the `getprop` lines: a key is present exactly when some line assigns
   * it, and it holds the trimmed value of the last such line.
   */
  lemma PropsLastWins(lines: seq<string>, key: string)
    ensures key in PropsOf(lines) <==> exists i :: 0 <= i < |lines| && Assigns(AssignmentOf(lines[i]), key)
    ensures forall i :: (0 <= i < |lines| && Assigns(AssignmentOf(lines[i]), key) &&
                         (forall j :: i < j < |lines| ==> !Assigns(AssignmentOf(lines[j]), key))) ==>
      key in PropsOf(lines) && PropsOf(lines)[key] == AssignmentOf(lines[i]).value.value
  {
    assert PropsOf(lines) == Apply(Map(lines, AssignmentOf));
    MappedLastWins(lines, AssignmentOf, key);
  }

  /** `PropsLastWins` for any way of reading a line as an assignment. */
  lemma MappedLastWins(lines: seq<string>, f: string -> Option<Assignment>, key: string)
    ensures key in Apply(Map(lines, f)) <==> exists i :: 0 <= i < |lines| && Assigns(f(lines[i]), key)
    ensures forall i :: (0 <= i < |lines| && Assigns(f(lines[i]), key) &&
                         (forall j :: i < j < |lines| ==> !Assigns(f(lines[j]), key))) ==>
      key in Apply(Map(lines, f)) && Apply(Map(lines, f))[key] == f(lines[i]).value.value
  {
    var assignments := Map(lines, f);
    ApplyDomain(assignments, key);
    forall i | 0 <= i < |lines| && Assigns(f(lines[i]), key) &&
      (forall j :: i < j < |lines| ==> !Assigns(f(lines[j]), key))
      ensures key in Apply(assignments) && Apply(assignments)[key] == f(lines[i]).value.value
    {
      ApplyLastWins(assignments, key, i);
    }
  }

  /** The first `: ` of `a: b` is the one after `a` when `a` holds no colon. */
  lemma FirstSeparator(a: string, b: string)
    requires ':' !in a
    ensures IndexOf(a + ": " + b, ": ") == |a|
  {
    var s := a + ": " + b;
    assert OccursAt(s, ": ", |a|);
    forall j | 0 <= j < |a| ensures !OccursAt(s, ": ", j) {
      assert s[j] == a[j];
      assert s[j..j + 2][0] == s[j];
    }
    assert Includes(s, ": ");
  }

  lemma NoSeparator(b: string)
    requires ':' !in b
    ensures Split(b, ": ") == [b]
  {
    forall i | 0 <= i <= |b| ensures !OccursAt(b, ": ", i) {
      if i + 2 <= |b| {
        assert b[i..i + 2][0] == b[i];
      }
    }
    assert !Includes(b, ": ");
  }

  /** Splitting `a: b` on `: ` gives `a` and `b` when neither holds a colon. */
  lemma SplitPair(a: string, b: string)
    requires ':' !in a && ':' !in b
    ensures Split(a + ": " + b, ": ") == [a, b]
  {
    var s := a + ": " + b;
    FirstSeparator(a, b);
    assert s[..|a|] == a && s[|a| + 2..] == b;
    NoSeparator(b);
  }

  /** A `getprop` line `[name]: [value]` assigns `[value]` to `[name]`. */
  lemma StandardPropLine(name: string, value: string)
    requires ':' !in name && ':' !in value
    ensures AssignmentOf("[" + name + "]: [" + value + "]") == Some(Assign("[" + name + "]", "[" + value + "]"))
  {
    var a, b := "[" + name + "]", "[" + value + "]";
    assert ':' !in a && ':' !in b;
    assert "[" + name + "]: [" + value + "]" == a + ": " + b;
    SplitPair(a, b);
    TrimUnpadded(a);
    TrimUnpadded(b);
  }

  /**
   * `value.replace(/^\[|\]$/g, '')`: a `[` at the start goes, and so does a
   * `]` at the end; nothing else changes. A lone `[` or `]` is removed whole.
   */
  function StripBrackets(s: string): (r: string)
    ensures s == [] ==> r == []
    ensures |s| >= 2 && s[0] == '[' && s[|s| - 1] == ']' ==> r == s[1..|s| - 1]
    ensures |s| >= 1 && s[0] == '[' && (|s| == 1 || s[|s| - 1] != ']') ==> r == s[1..]
    ensures |s| >= 1 && s[0] != '[' && s[|s| - 1] == ']' ==> r == s[..|s| - 1]
    ensures |s| >= 1 && s[0] != '[' && s[|s| - 1] != ']' ==> r == s
  {
    var t := if |s| > 0 && s[0] == '[' then s[1..] else s;
    if |t| > 0 && t[|t| - 1] == ']' then t[..|t| - 1] else t
  }

  /** Stripping undoes the brackets `getprop` prints around a value. */
  lemma StripWrapped(v: string)
    ensures StripBrackets("[" + v + "]") == v
  {
    assert ("[" + v + "]")[1..] == v + "]";
  }

  /** A value without the brackets passes through unchanged. */
  lemma StripUnwrapped(s: string)
    requires s == [] || (s[0] != '[' && s[|s| - 1] != ']')
    ensures StripBrackets(s) == s
  {
  }

  // ---------------------------------------------------------------- device information

  /**
   * The record fields read straight from one property: (field, property
   * key). The record is a map, so their order is free; they are listed by
   * `FieldKey`, which makes the names visibly distinct.
   */
  const PlainFields: seq<(string, string)> := [
    ("brand", "[ro.product.brand]"), ("model", "[ro.product.model]"),
    ("baseOS", "[ro.build.version.base_os]"), ("buildId", "[ro.build.id]"),
    ("carrier", "[gsm.operator.alpha]"), ("ramSize", "[ro.ram.size]"),
    ("hardware", "[ro.hardware]"), ("language", "[persist.sys.locale]"),
    ("timeZone", "[persist.sys.timezone]"), ("vendorOS", "[ro.vendor.build.version.release]"),
    ("wifiSSID", "[wifi.ssid]"), ("androidId", "[ro.build.android_id]"),
    ("buildType", "[ro.build.type]"), ("buildTags", "[ro.build.tags]"),
    ("ipAddress", "[dhcp.wlan0.ipaddress]"), ("adbEnabled", "[persist.service.adb.enable]"),
    ("bootloader", "[ro.bootloader]"), ("deviceName", "[ro.product.device]"),
    ("macAddress", "[wifi.interface.mac]"), ("patchLevel", "[ro.build.version.security_patch]"),
    ("sdkVersion", "[ro.build.version.sdk]"), ("secureBoot", "[ro.boot.secureboot]"),
    ("cpuHardware", "[ro.hardware]"), ("networkType", "[gsm.network.type]"),
    ("storageSize", "[ro.storage.size]"), ("batteryLevel", "[ro.battery.level]"),
    ("manufacturer", "[ro.product.manufacturer]"), ("radioVersion", "[gsm.version.baseband]"),
    ("serialNumber", "[ro.serialno]"), ("kernelVersion", "[ro.kernel.version]"),
    ("selinuxStatus", "[ro.boot.selinux]"), ("androidVersion", "[ro.build.version.release]"),
    ("dmVerityStatus", "[ro.boot.veritymode]"), ("cpuArchitecture", "[ro.product.cpu.abi]"),
    ("encryptionState", "[ro.crypto.state]"), ("buildFingerprint", "[ro.build.fingerprint]"),
    ("screenResolution", "[ro.screen.resolution]"), ("verifiedBootState", "[ro.boot.verifiedbootstate]")
  ]

  /** `getInfo[key]?.replace(…)`: the stripped value, or `undefined` for a missing key. */
  function Stripped(info: map<string, string>, key: string): (r: Option<string>)
    ensures r.Some? <==> key in info
  {
    if key in info then Some(StripBrackets(info[key])) else None
  }

  /** The fields of `table` whose property is present; `undefined` ones are absent from the JSON. */
  function TableFields(table: seq<(string, string)>, info: map<string, string>): map<string, string> {
    if table == [] then map[]
    else
      var m := TableFields(table[1..], info);
      var (field, key) := table[0];
      if key in info then m[field := StripBrackets(info[key])] else m
  }

  predicate DistinctFields(table: seq<(string, string)>) {
    forall i, j :: 0 <= i < j < |table| ==> table[i].0 != table[j].0
  }

  /** Each listed field appears exactly when its property is present, holding the stripped value. */
  lemma {:induction false} TableFieldsSpec(table: seq<(string, string)>, info: map<string, string>, i: nat)
    requires DistinctFields(table) && i < |table|
    ensures table[i].0 in TableFields(table, info) <==> table[i].1 in info
    ensures table[i].1 in info ==> TableFields(table, info)[table[i].0] == StripBrackets(info[table[i].1])
  {
    if i > 0 {
      assert DistinctFields(table[1..]) by {
        forall a, b | 0 <= a < b < |table[1..]| ensures table[1..][a].0 != table[1..][b].0 {
          assert table[1..][a] == table[a + 1] && table[1..][b] == table[b + 1];
        }
      }
      TableFieldsSpec(table[1..], info, i - 1);
      assert table[1..][i - 1] == table[i];
    } else {
      TableFieldsNotListed(table[1..], info, table[0].0);
    }
  }

  lemma {:induction false} TableFieldsNotListed(table: seq<(string, string)>, info: map<string, string>, field: string)
    requires forall j :: 0 <= j < |table| ==> table[j].0 != field
    ensures field !in TableFields(table, info)
  {
    if table != [] {
      TableFieldsNotListed(table[1..], info, field);
    }
  }

  /** `(getInfo[a] || getInfo[b])?.replace(…)`: the first serial when truthy, else the second. */
  function Imei(info: map<string, string>): (r: Option<string>)
    ensures "[ril.serialnumber]" in info && info["[ril.serialnumber]"] != "" ==>
      r == Some(StripBrackets(info["[ril.serialnumber]"]))
    ensures !("[ril.serialnumber]" in info && info["[ril.serialnumber]"] != "") ==>
      r == Stripped(info, "[ro.ril.oem.imei]")
  {
    if "[ril.serialnumber]" in info && info["[ril.serialnumber]"] != "" then
      Some(StripBrackets(info["[ril.serialnumber]"]))
    else Stripped(info, "[ro.ril.oem.imei]")
  }

  /** `ro.debuggable`, stripped, equals `1`. */
  predicate Debuggable(info: map<string, string>) {
    Stripped(info, "[ro.debuggable]") == Some("1")
  }

  /** The `deviceInfo` record; fields whose value is `undefined` are left out of the map. */
  function DeviceInfoOf(info: map<string, string>): (record: map<string, string>)
    ensures "isRooted" in record && "debugMode" in record && "usbDebugging" in record
    ensures record["isRooted"] == "Yes" <==> Debuggable(info)
    ensures record["isRooted"] == "Yes" <==> record["debugMode"] == "Enabled"
    ensures record["usbDebugging"] == "Enabled" <==>
      "[persist.sys.usb.config]" in info && Includes(info["[persist.sys.usb.config]"], "adb")
    ensures "imei" in record <==> Imei(info).Some?
    ensures "imei" in record ==> record["imei"] == Imei(info).value
  {
    var plain := TableFields(PlainFields, info);
    var withImei := if Imei(info).Some? then plain["imei" := Imei(info).value] else plain - {"imei"};
    var usb := "[persist.sys.usb.config]" in info && Includes(info["[persist.sys.usb.config]"], "adb");
    withImei["isRooted" := if Debuggable(info) then "Yes" else "No"]
            ["debugMode" := if Debuggable(info) then "Enabled" else "Disabled"]
            ["usbDebugging" := if usb then "Enabled" else "Disabled"]
  }

  /** A number that differs between names of different length, first or last letter. */
  function FieldKey(name: string): int {
    if name == [] then 0 else |name| * 1000000 + (name[0] as int) * 1000 + name[|name| - 1] as int
  }

  predicate KeysIncreaseFrom(table: seq<(string, string)>, lo: nat, hi: nat) {
    forall i :: lo <= i < hi && i + 1 < |table| ==> FieldKey(table[i].0) < FieldKey(table[i + 1].0)
  }

  lemma {:induction false} KeyChain(table: seq<(string, string)>, i: nat, j: nat)
    requires KeysIncreaseFrom(table, 0, |table|) && i < j < |table|
    ensures FieldKey(table[i].0) < FieldKey(table[j].0)
    decreases j - i
  {
    if i + 1 < j {
      KeyChain(table, i + 1, j);
    }
  }

  /** Names whose keys increase along the table are distinct. */
  lemma IncreasingKeysDistinct(table: seq<(string, string)>)
    requires KeysIncreaseFrom(table, 0, |table|)
    ensures DistinctFields(table)
  {
    forall i, j | 0 <= i < j < |table| ensures table[i].0 != table[j].0 {
      KeyChain(table, i, j);
    }
  }

  lemma PlainKeys0() ensures KeysIncreaseFrom(PlainFields, 0, 10) {}
  lemma PlainKeys1() ensures KeysIncreaseFrom(PlainFields, 10, 19) {}
  lemma PlainKeys2() ensures KeysIncreaseFrom(PlainFields, 19, 28) {}
  lemma PlainKeys3() ensures KeysIncreaseFrom(PlainFields, 28, 38) {}

  /** The record sets these besides the plain fields. */
  const ComputedFields: set<string> := {"imei", "isRooted", "debugMode", "usbDebugging"}

  /** The 38 plain field names are distinct, and none is one of the computed fields. */
  lemma PlainFieldsWellFormed()
    ensures DistinctFields(PlainFields)
    ensures forall i :: 0 <= i < |PlainFields| ==> PlainFields[i].0 !in ComputedFields
  {
    PlainKeys0();
    PlainKeys1();
    PlainKeys2();
    PlainKeys3();
    IncreasingKeysDistinct(PlainFields);
  }

  /**
   * Each plain field of the record, `brand` to `vendorOS`, is present exactly
   * when its property is, and then holds the property's value with its
   * brackets stripped.
   */
  lemma DeviceInfoPlainField(info: map<string, string>, i: nat)
    requires i < |PlainFields|
    ensures PlainFields[i].0 in DeviceInfoOf(info) <==> PlainFields[i].1 in info
    ensures PlainFields[i].1 in info ==>
      DeviceInfoOf(info)[PlainFields[i].0] == StripBrackets(info[PlainFields[i].1])
  {
    PlainFieldsWellFormed();
    TableFieldsSpec(PlainFields, info, i);
  }

  /** The record holds the plain fields and the four computed ones, and nothing else. */
  lemma DeviceInfoNoOtherField(info: map<string, string>, key: string)
    requires key in DeviceInfoOf(info)
    ensures key in ComputedFields || exists i :: 0 <= i < |PlainFields| && PlainFields[i].0 == key
  {
    if key !in ComputedFields && forall i :: 0 <= i < |PlainFields| ==> PlainFields[i].0 != key {
      TableFieldsNotListed(PlainFields, info, key);
    }
  }

  datatype DeviceInfoResponse = InfoRecord(record: map<string, string>) | InfoError

  /**
   * `/device-info`: a rethrown error, or `undefined` from `runAdbCommand`
   * (whose `split` then throws), answers 500.
   */
  function DeviceInfoRoute(exec: ExecResult): (r: DeviceInfoResponse)
    ensures r.InfoRecord? <==> exec.Completed? && exec.stderr == ""
    ensures r.InfoRecord? ==> r.record == DeviceInfoOf(PropsOf(Split(Trim(exec.stdout), "\n")))
  {
    match RunAdbCommand(exec)
    case Returned(output) => InfoRecord(DeviceInfoOf(PropsOf(Split(output, "\n"))))
    case _ => InfoError
  }

  // ---------------------------------------------------------------- logcat

  /** `/adb/logcat`'s argument list; `level` defaults to `I` only when it is `undefined`. */
  method BuildLogcatArgs(id: string, filter: Option<string>, level: Option<string>) returns (args: seq<string>)
    ensures |args| == if Truthy(filter) then 5 else 4
    ensures args[..3] == ["-s", id, "logcat"]
    ensures Truthy(filter) ==>
      args[3..] == [filter.value + ":" + (if level.Some? then level.value else "I"), "*:S"]
    ensures !Truthy(filter) ==> args[3..] == ["*:I"]
  {
    var lvl := if level.None? then "I" else level.value;
    args := ["-s", id, "logcat"];
    if Truthy(filter) {
      args := args + [filter.value + ":" + lvl, "*:S"];
    } else {
      args := args + ["*:I"];
    }
  }

  // ---------------------------------------------------------------- start-activity, power

  /** `/adb/start-activity`: the launcher intent without an activity, `am start` with one. */
  function StartActivityCommand(id: Option<string>, packageName: Option<string>,
                                activityName: Option<string>): (command: string)
    ensures command == LaunchCommand(Render(id), Render(packageName)) <==> !Truthy(activityName)
    ensures Truthy(activityName) ==>
      command == "-s " + Render(id) + " shell am start -n " + Render(packageName) + "/" + activityName.value
    ensures Truthy(activityName) ==> EndsWith(command, "/" + activityName.value)
  {
    if !Truthy(activityName) then LaunchCommand(Render(id), Render(packageName))
    else
      AmStartFacts(Render(id), Render(packageName), activityName.value);
      AmStart(Render(id), Render(packageName), activityName.value)
  }

  /** The `am start` command line for an explicit activity. */
  function AmStart(id: string, packageName: string, activity: string): string {
    "-s " + id + " shell am start -n " + packageName + "/" + activity
  }

  lemma AmStartFacts(id: string, packageName: string, activity: string)
    ensures AmStart(id, packageName, activity) != LaunchCommand(id, packageName)
    ensures EndsWith(AmStart(id, packageName, activity), "/" + activity)
  {
    var head := "-s " + id;
    var start := " shell am start -n " + packageName + "/" + activity;
    var launch := " shell monkey -p " + packageName + " -c android.intent.category.LAUNCHER 1";
    assert AmStart(id, packageName, activity) == head + start;
    assert LaunchCommand(id, packageName) == head + launch;
    assert start[7] == 'a' && launch[7] == 'm';
    DifferAfter(head, launch, start, 7);
    var body := "-s " + id + " shell am start -n " + packageName;
    EndsWithAppend(body, "/" + activity);
    assert body + ("/" + activity) == body + "/" + activity;
  }

  /** The adb subcommand of each power action. */
  const PowerActions: map<string, string> := map[
    "shutdown" := "shell reboot -p",
    "reboot" := "reboot",
    "recovery" := "reboot recovery",
    "bootloader" := "reboot bootloader"
  ]

  /**
   * The methods every object literal inherits from `Object.prototype`; a
   * lookup of one of these names finds the built-in function, whose text is
   * `function <name>() { [native code] }`.
   */
  const InheritedMethods: set<string> := {
    "__defineGetter__", "__defineSetter__", "__lookupGetter__", "__lookupSetter__",
    "hasOwnProperty", "isPrototypeOf", "propertyIsEnumerable",
    "toLocaleString", "toString", "valueOf"
  }

  /** `${actionMap[action]}` for an action that is not one of the table's own keys. */
  function InheritedText(action: Option<string>): string {
    if action == Some("constructor") then "function Object() { [native code] }"
    else if action == Some("__proto__") then "[object Object]"
    else if action.Some? && action.value in InheritedMethods then "function " + action.value + "() { [native code] }"
    else "undefined"
  }

  /** Names the lookup finds on the prototype rather than in the table. */
  predicate Inherited(action: Option<string>) {
    action == Some("constructor") || action == Some("__proto__") ||
    (action.Some? && action.value in InheritedMethods)
  }

  /**
   * `/adb/power`: a known action gives its table command; a missing or
   * unknown action renders the lookup's `undefined`, and a name inherited
   * from `Object.prototype` renders the inherited value.
   */
  function PowerCommand(id: Option<string>, action: Option<string>): (command: string)
    ensures action.Some? && action.value in PowerActions ==>
      command == "-s " + Render(id) + " " + PowerActions[action.value]
    ensures !(action.Some? && action.value in PowerActions) && !Inherited(action) ==>
      command == "-s " + Render(id) + " undefined"
    ensures Inherited(action) ==> command == "-s " + Render(id) + " " + InheritedText(action)
    ensures Inherited(action) ==> InheritedText(action) != "undefined"
  {
    if action.Some? && action.value in PowerActions then
      "-s " + Render(id) + " " + PowerActions[action.value]
    else
      "-s " + Render(id) + " " + InheritedText(action)
  }

  /** No table key is shadowed by, or shadows, an inherited name. */
  lemma PowerActionsOwnKeys(action: Option<string>)
    requires action.Some? && action.value in PowerActions
    ensures !Inherited(action)
  {
  }

  /** Every known action reboots or powers off through `reboot`. */
  lemma PowerActionsReboot(a: string)
    requires a in PowerActions
    ensures Includes(PowerActions[a], "reboot")
  {
    var sub := PowerActions[a];
    if a == "shutdown" {
      assert OccursAt(sub, "reboot", 6);
    } else {
      assert OccursAt(sub, "reboot", 0);
    }
  }
}
