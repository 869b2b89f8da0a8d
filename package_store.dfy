/**
 * The icon cache of `/adb/packages`: a collection of cached icons keyed by
 * package name, and a collection of "fetch in progress" markers. Listing
 * packages reads the cache and, in extras mode, marks uncached packages and
 * requests one background fetch for each; a fetch that runs to the end
 * removes the marker and stores the icon.
 */
module PackageStore {
  import opened Common
  import opened JsString
  import opened AdbParsers
  import opened IconPick

  /** One entry of the `/adb/packages` answer; `"x"` stands for "no icon yet". */
  datatype PackageEntry = PackageEntry(packageName: string, iconBase64: string)

  /** The placeholder sent for a package whose icon is not cached. */
  const NoIcon: string := "x"

  /** The prefix that turns base64 text into an image source. */
  const ImagePrefix: string := "data:image/png;base64,"

  /** The icon shown for `pkg`: the cached image when the cache is consulted, else the placeholder. */
  function IconFor(icons: map<string, string>, consult: bool, pkg: string): string {
    if consult && pkg in icons then icons[pkg] else NoIcon
  }

  /**
   * The packages for which one listing requests a fetch, in order: those
   * neither cached nor marked, each once (its marker is in place when it
   * comes up again).
   */
  function NewRequests(pkgs: seq<string>, icons: map<string, string>, fetching: set<string>): seq<string>
    decreases |pkgs|
  {
    if pkgs == [] then []
    else
      var p := pkgs[0];
      if p !in icons && p !in fetching then [p] + NewRequests(pkgs[1..], icons, fetching + {p})
      else NewRequests(pkgs[1..], icons, fetching)
  }

  /**
   * Exactly the uncached, unmarked packages are requested, each once, and
   * nothing else is.
   */
  lemma {:induction false} NewRequestsSpec(pkgs: seq<string>, icons: map<string, string>, fetching: set<string>)
    ensures var r := NewRequests(pkgs, icons, fetching);
      (forall i :: 0 <= i < |r| ==> r[i] in pkgs && r[i] !in icons && r[i] !in fetching) &&
      (forall p :: p in pkgs && p !in icons && p !in fetching ==> p in r) &&
      (forall i, j :: 0 <= i < j < |r| ==> r[i] != r[j])
    decreases |pkgs|
  {
    if pkgs != [] {
      var p := pkgs[0];
      assert forall q :: q in pkgs <==> q == p || q in pkgs[1..];
      if p !in icons && p !in fetching {
        assert NewRequests(pkgs, icons, fetching) == [p] + NewRequests(pkgs[1..], icons, fetching + {p});
        NewRequestsSpec(pkgs[1..], icons, fetching + {p});
      } else {
        assert NewRequests(pkgs, icons, fetching) == NewRequests(pkgs[1..], icons, fetching);
        NewRequestsSpec(pkgs[1..], icons, fetching);
      }
    }
  }

  /** The markers a listing adds: one for each uncached, unmarked package. */
  function NewMarkers(pkgs: seq<string>, icons: map<string, string>, fetching: set<string>): set<string> {
    set p | p in pkgs && p !in icons && p !in fetching
  }

  /** Requesting exactly the new markers: each requested package is marked, and only those. */
  lemma RequestsAreMarkers(pkgs: seq<string>, icons: map<string, string>, fetching: set<string>)
    ensures forall p :: p in NewRequests(pkgs, icons, fetching) <==> p in NewMarkers(pkgs, icons, fetching)
  {
    NewRequestsSpec(pkgs, icons, fetching);
  }

  /** A package already marked is never requested again, whatever the listing. */
  lemma MarkedNeverRequested(pkgs: seq<string>, icons: map<string, string>, fetching: set<string>, p: string)
    requires p in fetching
    ensures p !in NewRequests(pkgs, icons, fetching)
  {
    NewRequestsSpec(pkgs, icons, fetching);
  }

  lemma RequestStep(pkgs: seq<string>, i: nat, icons: map<string, string>, fetching: set<string>)
    requires i < |pkgs|
    ensures NewRequests(pkgs[i..], icons, fetching) ==
      if pkgs[i] !in icons && pkgs[i] !in fetching
      then [pkgs[i]] + NewRequests(pkgs[i + 1..], icons, fetching + {pkgs[i]})
      else NewRequests(pkgs[i + 1..], icons, fetching)
  {
    assert pkgs[i..][1..] == pkgs[i + 1..];
  }

  lemma MarkerStep(pkgs: seq<string>, i: nat, icons: map<string, string>, marked0: set<string>)
    requires i < |pkgs|
    ensures var before := marked0 + NewMarkers(pkgs[..i], icons, marked0);
      marked0 + NewMarkers(pkgs[..i + 1], icons, marked0) ==
      if pkgs[i] !in icons && pkgs[i] !in before then before + {pkgs[i]} else before
  {
    assert pkgs[..i + 1] == pkgs[..i] + [pkgs[i]];
  }

  /** One package of the listing keeps the loop's account of markers and requests. */
  lemma ListStep(pkgs: seq<string>, i: nat, icons: map<string, string>, marked0: set<string>,
                 fetching: set<string>, requested: seq<string>, request: bool,
                 fetching': set<string>, requested': seq<string>)
    requires i < |pkgs|
    requires fetching == marked0 + NewMarkers(pkgs[..i], icons, marked0)
    requires requested + NewRequests(pkgs[i..], icons, fetching) == NewRequests(pkgs, icons, marked0)
    requires request <==> pkgs[i] !in icons && pkgs[i] !in fetching
    requires fetching' == if request then fetching + {pkgs[i]} else fetching
    requires requested' == if request then requested + [pkgs[i]] else requested
    ensures fetching' == marked0 + NewMarkers(pkgs[..i + 1], icons, marked0)
    ensures requested' + NewRequests(pkgs[i + 1..], icons, fetching') == NewRequests(pkgs, icons, marked0)
  {
    RequestStep(pkgs, i, icons, fetching);
    MarkerStep(pkgs, i, icons, marked0);
    if request {
      assert requested' + NewRequests(pkgs[i + 1..], icons, fetching') ==
        requested + ([pkgs[i]] + NewRequests(pkgs[i + 1..], icons, fetching'));
    }
  }

  class Store {
    /** The `Package` collection: package name to image. */
    var icons: map<string, string>
    /** The `PackageFetchingProcess` collection: packages whose fetch is under way. */
    var fetching: set<string>

    /**
     * No package is both cached and marked as being fetched. The model's
     * steps keep this one at a time: a listing marks only uncached packages,
     * and `CompleteFetch` drops the marker and stores the icon as a single
     * step, so no listing runs between the two.
     */
    predicate Valid()
      reads this
    {
      forall p :: p in icons ==> p !in fetching
    }

    constructor()
      ensures icons == map[] && fetching == {}
      ensures Valid()
    {
      icons := map[];
      fetching := {};
    }

    /**
     * One turn of the `/adb/packages` loop: the entry for `pkg`, and whether a
     * background fetch is requested for it. With `extras`, an uncached,
     * unmarked package is marked; without, the cache is only read, and only
     * while the database is connected.
     */
    method Visit(pkg: string, extras: bool, dbConnected: bool) returns (entry: PackageEntry, request: bool)
      requires Valid()
      modifies this`fetching
      ensures Valid()
      ensures entry == PackageEntry(pkg, IconFor(icons, extras || dbConnected, pkg))
      ensures request <==> extras && pkg !in icons && pkg !in old(fetching)
      ensures fetching == if request then old(fetching) + {pkg} else old(fetching)
    {
      request := false;
      if extras {
        var icon := if pkg in icons then icons[pkg] else NoIcon;
        if pkg !in icons {
          if pkg !in fetching {
            fetching := fetching + {pkg};
            request := true;
          }
        }
        entry := PackageEntry(pkg, icon);
      } else if dbConnected {
        var icon := if pkg in icons then icons[pkg] else NoIcon;
        entry := PackageEntry(pkg, icon);
      } else {
        entry := PackageEntry(pkg, NoIcon);
      }
    }

    /**
     * `/adb/packages` after the package names are parsed: one entry per
     * package, in order; in extras mode, one marker and one fetch request for
     * each uncached, unmarked package.
     */
    method ListPackages(pkgs: seq<string>, extras: bool, dbConnected: bool)
      returns (results: seq<PackageEntry>, requested: seq<string>)
      requires Valid()
      modifies this`fetching
      ensures Valid()
      ensures |results| == |pkgs|
      ensures forall i :: 0 <= i < |pkgs| ==>
        results[i] == PackageEntry(pkgs[i], IconFor(icons, extras || dbConnected, pkgs[i]))
      ensures extras ==> requested == NewRequests(pkgs, icons, old(fetching))
      ensures extras ==> fetching == old(fetching) + NewMarkers(pkgs, icons, old(fetching))
      ensures !extras ==> requested == [] && fetching == old(fetching)
    {
      results := [];
      requested := [];
      ghost var marked0 := fetching;
      for i := 0 to |pkgs|
        invariant |results| == i
        invariant forall k :: 0 <= k < i ==>
          results[k] == PackageEntry(pkgs[k], IconFor(icons, extras || dbConnected, pkgs[k]))
        invariant extras ==> fetching == marked0 + NewMarkers(pkgs[..i], icons, marked0)
        invariant extras ==>
          requested + NewRequests(pkgs[i..], icons, fetching) == NewRequests(pkgs, icons, marked0)
        invariant !extras ==> requested == [] && fetching == marked0
        invariant Valid()
      {
        ghost var before, requestedBefore := fetching, requested;
        var entry, request := Visit(pkgs[i], extras, dbConnected);
        results := results + [entry];
        if request {
          requested := requested + [pkgs[i]];
        }
        if extras {
          ListStep(pkgs, i, icons, marked0, before, requestedBefore, request, fetching, requested);
        }
      }
      assert pkgs[..|pkgs|] == pkgs;
    }

    /**
     * The end of the background fetch of one icon. `prepared` is what the
     * steps before it produced (see `PrepareIcon`): the image, or `None` when
     * one of them failed and the fetch ended with `null`. Then the marker is
     * deleted and the icon saved; each failure ends the fetch with `null`,
     * keeping whatever was done before it. The delete and the save are one
     * step here, with no listing between them.
     */
    method CompleteFetch(pkg: string, prepared: Option<string>, deleteOk: bool, saveOk: bool)
      returns (r: Option<string>)
      requires Valid()
      modifies this
      ensures Valid()
      ensures r.Some? ==> pkg in icons && pkg !in fetching
      ensures prepared.Some? && deleteOk ==> fetching == old(fetching) - {pkg}
      ensures !(prepared.Some? && deleteOk) ==> fetching == old(fetching)
      ensures r.Some? <==> prepared.Some? && deleteOk && saveOk
      ensures r.Some? ==> r == prepared && icons == old(icons)[pkg := r.value]
      ensures r.None? ==> icons == old(icons)
    {
      if prepared.None? || !deleteOk {
        return None;
      }
      fetching := fetching - {pkg};
      if !saveOk {
        return None;
      }
      icons := icons[pkg := prepared.value];
      r := prepared;
    }
  }

  /**
   * The steps of the fetch before the marker is deleted, given what each
   * produced: `pmPath` is the `pm path` output (`None` when `exec` fails),
   * `files` the unpacked APK's file list (`None` when pulling or unpacking
   * fails), `encoded` the chosen file in base64 (`None` when reading fails),
   * and `rmOk` whether removing the temporary folder succeeded.
   */
  function PrepareIcon(pmPath: Option<string>, files: Option<seq<string>>, encoded: Option<string>, rmOk: bool): Option<string> {
    if pmPath.None? || FirstBaseApk(PmPaths(pmPath.value)).None? || files.None? ||
       ChooseIcon(files.value).None? || encoded.None? || !rmOk
    then None
    else Some(ImagePrefix + encoded.value)
  }

  predicate IsBaseApk(path: string) {
    Includes(path, "base.apk")
  }

  /** `paths[k]` is the first path that names a base APK. */
  predicate FirstBaseApkAt(paths: seq<string>, k: int) {
    0 <= k < |paths| && IsBaseApk(paths[k]) && forall j :: 0 <= j < k ==> !IsBaseApk(paths[j])
  }

  /** `lines.find(line => line.includes('base.apk'))`. */
  function FirstBaseApk(paths: seq<string>): (r: Option<string>)
    ensures r.None? <==> forall i :: 0 <= i < |paths| ==> !IsBaseApk(paths[i])
    ensures r.Some? ==> exists k :: FirstBaseApkAt(paths, k) && paths[k] == r.value
  {
    if paths == [] then None
    else if IsBaseApk(paths[0]) then
      assert FirstBaseApkAt(paths, 0);
      Some(paths[0])
    else
      var r := FirstBaseApk(paths[1..]);
      assert r.None? <==> forall i :: 0 <= i < |paths| ==> !IsBaseApk(paths[i]) by {
        forall i | 1 <= i < |paths| ensures paths[i] == paths[1..][i - 1] { }
      }
      assert r.Some? ==> exists k :: FirstBaseApkAt(paths, k) && paths[k] == r.value by {
        if r.Some? {
          var k :| FirstBaseApkAt(paths[1..], k) && paths[1..][k] == r.value;
          forall j | 1 <= j < k + 1 ensures !IsBaseApk(paths[j]) {
            assert paths[j] == paths[1..][j - 1];
          }
          assert FirstBaseApkAt(paths, k + 1);
        }
      }
      r
  }

  /**
   * A fetch that fails before deleting its marker leaves the marker for
   * good: the package is never requested again and shows the placeholder
   * until something outside this code clears the marker.
   */
  lemma FailedFetchIsNotRetried(pkgs: seq<string>, icons: map<string, string>, fetching: set<string>, pkg: string)
    requires pkg in fetching && pkg !in icons
    ensures pkg !in NewRequests(pkgs, icons, fetching)
    ensures IconFor(icons, true, pkg) == NoIcon
  {
    MarkedNeverRequested(pkgs, icons, fetching, pkg);
  }
}
