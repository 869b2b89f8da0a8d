/**
 * The few rules of the dashboard page that decide something: which package
 * rows the search box shows, the APK file name shown and downloaded, which
 * device is selected after the device list is reloaded, and whether a
 * screenshot is drawn as landscape.
 */
module UiRules {
  import opened Common
  import opened JsString
  import opened AdbParsers

  // ---------------------------------------------------------------- search

  /** A package row is shown: empty search, or a case-insensitive substring match. */
  predicate SearchVisible(search: string, packageName: string) {
    search == "" || Includes(ToLower(packageName), ToLower(search))
  }

  /** The search ignores case on both sides. */
  lemma SearchIgnoresCase(search: string, other: string, packageName: string)
    requires ToLower(search) == ToLower(other) && (search == "" <==> other == "")
    ensures SearchVisible(search, packageName) <==> SearchVisible(other, packageName)
  {
  }

  /** A package whose name contains the search text as typed is shown. */
  lemma ExactMatchVisible(search: string, packageName: string)
    requires Includes(packageName, search)
    ensures SearchVisible(search, packageName)
  {
    var i :| 0 <= i <= |packageName| && OccursAt(packageName, search, i);
    var p, s := ToLower(packageName), ToLower(search);
    assert p[i..i + |s|] == s by {
      forall k | 0 <= k < |s| ensures p[i..i + |s|][k] == s[k] {
        assert packageName[i..i + |search|][k] == search[k];
      }
    }
    assert OccursAt(p, s, i);
  }

  /** Typing more characters only hides rows: a row shown for `s + t` is shown for `s`. */
  lemma TypingNarrows(s: string, t: string, packageName: string)
    requires SearchVisible(s + t, packageName)
    ensures SearchVisible(s, packageName)
  {
    if s != "" {
      ToLowerAppend(s, t);
      var p, ls := ToLower(packageName), ToLower(s);
      var i :| 0 <= i <= |p| && OccursAt(p, ToLower(s + t), i);
      assert p[i..i + |ls|] == (ls + ToLower(t))[..|ls|];
      assert OccursAt(p, ls, i);
    }
  }

  // ---------------------------------------------------------------- APK names

  /** `path.substring(path.lastIndexOf('/') + 1)`. */
  function Basename(path: string): (r: string)
    ensures '/' !in r
    ensures |r| <= |path| && path[|path| - |r|..] == r
    ensures '/' !in path ==> r == path
    ensures |r| < |path| ==> path[|path| - |r| - 1] == '/'
  {
    var k := LastIndexOf(path, "/");
    IncludesChar(path, '/');
    if k == -1 then
      path
    else
      var r := Substring(path, k + 1, |path|);
      assert r == path[k + 1..];
      assert '/' !in r by {
        forall j | 0 <= j < |r| ensures r[j] != '/' {
          assert !OccursAt(path, "/", k + 1 + j);
          assert path[k + 1 + j..k + 2 + j][0] == r[j];
        }
      }
      assert path[k..k + 1] == "/";
      r
  }

  /**
   * The name the exported APK is saved under: the package, `_`, and the
   * longest suffix of the path without a `/`.
   */
  function DownloadName(packageName: string, path: string): (r: string)
    ensures |r| > |packageName| && r[..|packageName| + 1] == packageName + "_"
    ensures var b := r[|packageName| + 1..];
      '/' !in b && |b| <= |path| && path[|path| - |b|..] == b &&
      (|b| < |path| ==> path[|path| - |b| - 1] == '/')
  {
    var b := Basename(path);
    var r := packageName + "_" + b;
    assert r[..|packageName| + 1] == packageName + "_" && r[|packageName| + 1..] == b;
    r
  }

  /** The shown name and the download name both end in the last path segment. */
  lemma DownloadNameEndsInBasename(packageName: string, dir: string, file: string)
    requires '/' !in file
    ensures Basename(dir + "/" + file) == file
    ensures EndsWith(DownloadName(packageName, dir + "/" + file), "_" + file)
  {
    var path := dir + "/" + file;
    assert path[|dir|..|dir| + 1] == "/";
    forall j | |dir| < j <= |path| ensures !OccursAt(path, "/", j) {
      if j < |path| {
        assert path[j] == file[j - |dir| - 1];
        assert path[j..j + 1] == [path[j]];
      }
    }
    assert OccursAt(path, "/", |dir|);
    var k := LastIndexOf(path, "/");
    assert OccursAt(path, "/", k);
    assert k == |dir|;
    assert path[|dir| + 1..] == file;
    EndsWithAppend(packageName, "_" + file);
    assert packageName + "_" + file == packageName + ("_" + file);
  }

  // ---------------------------------------------------------------- device selection

  /** The selection after a reload, from the selection the callback saw. */
  function NextSelection(devices: seq<Device>, current: string): (r: string)
    ensures devices == [] ==> r == ""
    ensures devices != [] && current == "" ==> r == devices[0].id
    ensures devices != [] && current != "" ==> r == current
  {
    if |devices| == 0 then ""
    else if current == "" then devices[0].id
    else current
  }

  /** A kept selection need not name a listed device: a vanished device stays selected. */
  lemma StaleSelectionKept(devices: seq<Device>, current: string)
    requires devices != [] && current != ""
    requires forall i :: 0 <= i < |devices| ==> devices[i].id != current
    ensures NextSelection(devices, current) == current
    ensures forall i :: 0 <= i < |devices| ==> devices[i].id != NextSelection(devices, current)
  {
  }

  /** The device list and selection of the page. */
  class DeviceSelector {
    var devices: seq<Device>
    var selected: string

    constructor()
      ensures devices == [] && selected == ""
    {
      devices := [];
      selected := "";
    }

    /**
     * `getDevices`' success callback. `captured` is the `selectedDevice` the
     * callback closed over when the request was made; the state it updates
     * may have moved on since.
     */
    method OnDevicesLoaded(list: seq<Device>, captured: string)
      modifies this
      ensures devices == list
      ensures list == [] ==> selected == ""
      ensures list != [] && captured == "" ==> selected == list[0].id
      ensures list != [] && captured != "" ==> selected == old(selected)
      ensures captured == old(selected) ==> selected == NextSelection(list, captured)
    {
      devices := list;
      if |list| == 0 {
        selected := "";
      }
      if |list| > 0 && captured == "" {
        selected := list[0].id;
      }
    }
  }

  // ---------------------------------------------------------------- orientation

  datatype Orientation = Landscape | Portrait

  /** The screenshot is landscape when it is wider than tall. */
  function OrientationOf(width: int, height: int): (o: Orientation)
    ensures o == Landscape <==> width > height
  {
    if width > height then Landscape else Portrait
  }

  /** Turning a non-square screen flips the orientation; a square one is portrait both ways. */
  lemma TurningFlips(width: int, height: int)
    ensures width != height ==> OrientationOf(width, height) != OrientationOf(height, width)
    ensures width == height ==> OrientationOf(width, height) == Portrait
  {
  }
}
