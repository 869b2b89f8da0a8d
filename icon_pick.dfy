/**
 * Choosing a launcher icon among the files of an unpacked APK: three tiers
 * of candidates (strictly named icons in resource folders, then loosely
 * named ones, then any image), ordered by screen density, first one wins.
 * The regular expressions of the source are written out as predicates over
 * the lower-cased path.
 */
module IconPick {
  import opened Common
  import opened JsString

  /** `\w`: an ASCII letter, digit or underscore. */
  predicate IsWordChar(c: char) {
    'a' <= c <= 'z' || 'A' <= c <= 'Z' || '0' <= c <= '9' || c == '_'
  }

  /** `\w+\/` at the start of `t`. */
  predicate WordsThenSlash(t: string)
    decreases |t|
  {
    |t| >= 2 && IsWordChar(t[0]) && (t[1] == '/' || WordsThenSlash(t[1..]))
  }

  /** `(-\w+)?\/` at the start of `t`. */
  predicate QualifierThenSlash(t: string) {
    |t| >= 1 && (t[0] == '/' || (t[0] == '-' && WordsThenSlash(t[1..])))
  }

  /** `\/res\/(mipmap|drawable)(-\w+)?\/` matches at index `i`. */
  predicate ResFolderAt(s: string, i: int) {
    (OccursAt(s, "/res/mipmap", i) && QualifierThenSlash(s[i + 11..])) ||
    (OccursAt(s, "/res/drawable", i) && QualifierThenSlash(s[i + 13..]))
  }

  /** The resource-folder test. */
  predicate InResFolder(s: string) {
    exists i | 0 <= i <= |s| :: ResFolderAt(s, i)
  }

  /** `\.(png|webp|jpg|jpeg|svg)$`. */
  predicate IsImage(s: string) {
    EndsWith(s, ".png") || EndsWith(s, ".webp") || EndsWith(s, ".jpg") ||
    EndsWith(s, ".jpeg") || EndsWith(s, ".svg")
  }

  /** `(ic_launcher|launcher|app_icon|appicon)`. */
  predicate StrictName(s: string) {
    Includes(s, "ic_launcher") || Includes(s, "launcher") || Includes(s, "app_icon") || Includes(s, "appicon")
  }

  /** `(launcher|icon|ic_launcher|ic_app|app_icon|logo|app_logo|appicon)`. */
  predicate BroadName(s: string) {
    Includes(s, "launcher") || Includes(s, "icon") || Includes(s, "ic_launcher") || Includes(s, "ic_app") ||
    Includes(s, "app_icon") || Includes(s, "logo") || Includes(s, "app_logo") || Includes(s, "appicon")
  }

  predicate StrictCandidate(path: string) {
    var lower := ToLower(path);
    InResFolder(lower) && IsImage(lower) && StrictName(lower)
  }

  predicate BroadCandidate(path: string) {
    var lower := ToLower(path);
    InResFolder(lower) && IsImage(lower) && BroadName(lower)
  }

  predicate AnyImage(path: string) {
    IsImage(ToLower(path))
  }

  lemma IncludesPrefix(p: string, s: string, q: string)
    requires Includes(p, q)
    ensures Includes(p + s, q)
  {
    var i :| 0 <= i <= |p| && OccursAt(p, q, i);
    assert (p + s)[i..i + |q|] == p[i..i + |q|];
    assert OccursAt(p + s, q, i);
  }

  /** Every strictly named candidate is also a loosely named one. */
  lemma StrictIsBroad(path: string)
    requires StrictCandidate(path)
    ensures BroadCandidate(path)
  {
    var lower := ToLower(path);
    if Includes(lower, "ic_launcher") {
      var i :| 0 <= i <= |lower| && OccursAt(lower, "ic_launcher", i);
      assert lower[i + 3..i + 11] == "launcher";
      assert OccursAt(lower, "launcher", i + 3);
    }
  }

  /**
   * The name patterns are tested against the whole path, not the file name:
   * once the directory the APK is unpacked under contains `launcher` (a
   * package such as `com.android.launcher3` is unpacked under its own name),
   * every image in a resource folder below it is a strictly named candidate.
   */
  lemma DirectoryNameCounts(dir: string, rest: string)
    requires Includes(ToLower(dir), "launcher")
    requires InResFolder(ToLower(rest)) && IsImage(ToLower(rest))
    ensures StrictCandidate(dir + rest)
  {
    var d, r := ToLower(dir), ToLower(rest);
    ToLowerAppend(dir, rest);
    IncludesPrefix(d, r, "launcher");
    var i :| 0 <= i <= |r| && ResFolderAt(r, i);
    ResFolderShift(d, r, i);
    ImageShift(d, r);
  }

  lemma ResFolderShift(d: string, r: string, i: int)
    requires 0 <= i <= |r| && ResFolderAt(r, i)
    ensures ResFolderAt(d + r, |d| + i)
  {
    var s := d + r;
    assert |d| + i <= |s|;
    if OccursAt(r, "/res/mipmap", i) && QualifierThenSlash(r[i + 11..]) {
      assert s[|d| + i..|d| + i + 11] == r[i..i + 11];
      assert s[|d| + i + 11..] == r[i + 11..];
    } else {
      assert s[|d| + i..|d| + i + 13] == r[i..i + 13];
      assert s[|d| + i + 13..] == r[i + 13..];
    }
  }

  lemma ImageShift(d: string, r: string)
    requires IsImage(r)
    ensures IsImage(d + r)
  {
    ImageShift1(d, r, ".png");
    ImageShift1(d, r, ".webp");
    ImageShift1(d, r, ".jpg");
    ImageShift1(d, r, ".jpeg");
    ImageShift1(d, r, ".svg");
  }

  lemma ImageShift1(d: string, r: string, e: string)
    ensures EndsWith(r, e) ==> EndsWith(d + r, e)
  {
    if EndsWith(r, e) {
      assert (d + r)[|d + r| - |e|..] == r[|r| - |e|..];
    }
  }

  // ---------------------------------------------------------------- densityRank

  /** The density qualifiers, highest first. */
  const Densities: seq<string> := ["xxxhdpi", "xxhdpi", "xhdpi", "hdpi", "mdpi", "ldpi"]

  /** The rank of a path: 6 for `xxxhdpi` down to 1 for `ldpi`, the first that occurs; 0 for none. */
  function Rank(path: string): (r: nat)
    ensures r <= 6
  {
    if Includes(path, "xxxhdpi") then 6
    else if Includes(path, "xxhdpi") then 5
    else if Includes(path, "xhdpi") then 4
    else if Includes(path, "hdpi") then 3
    else if Includes(path, "mdpi") then 2
    else if Includes(path, "ldpi") then 1
    else 0
  }

  /** `densityRank`: the early-return loop over the qualifiers. */
  method DensityRank(path: string) returns (r: int)
    ensures r == Rank(path)
  {
    for i := 0 to |Densities|
      invariant forall k :: 0 <= k < i ==> !Includes(path, Densities[k])
    {
      if Includes(path, Densities[i]) {
        RankAt(path, i);
        return |Densities| - i;
      }
    }
    RankZero(path);
    return 0;
  }

  lemma RankZero(path: string)
    requires forall k :: 0 <= k < |Densities| ==> !Includes(path, Densities[k])
    ensures Rank(path) == 0
  {
    assert Densities[0] == "xxxhdpi" && Densities[1] == "xxhdpi" && Densities[2] == "xhdpi";
    assert Densities[3] == "hdpi" && Densities[4] == "mdpi" && Densities[5] == "ldpi";
  }

  lemma RankAt(path: string, i: nat)
    requires i < |Densities| && Includes(path, Densities[i])
    requires forall k :: 0 <= k < i ==> !Includes(path, Densities[k])
    ensures Rank(path) == |Densities| - i
  {
    assert Densities[0] == "xxxhdpi" && Densities[1] == "xxhdpi" && Densities[2] == "xhdpi";
    assert Densities[3] == "hdpi" && Densities[4] == "mdpi" && Densities[5] == "ldpi";
  }

  /**
   * The qualifier names nest (`xxxhdpi` contains `xxhdpi`, `xhdpi` and
   * `hdpi`), so the order of the tests decides: a path naming `xxxhdpi`
   * ranks 6 although it also contains the lower qualifiers.
   */
  lemma NestedQualifiers(path: string)
    requires Includes(path, "xxxhdpi")
    ensures Includes(path, "xxhdpi") && Includes(path, "xhdpi") && Includes(path, "hdpi")
    ensures Rank(path) == 6
  {
    var i :| 0 <= i <= |path| && OccursAt(path, "xxxhdpi", i);
    assert path[i + 1..i + 7] == "xxhdpi";
    assert OccursAt(path, "xxhdpi", i + 1);
    assert path[i + 2..i + 7] == "xhdpi";
    assert OccursAt(path, "xhdpi", i + 2);
    assert path[i + 3..i + 7] == "hdpi";
    assert OccursAt(path, "hdpi", i + 3);
  }

  // ---------------------------------------------------------------- ordering and choice

  /** Non-increasing rank: the order `sort((a, b) => densityRank(b) - densityRank(a))` produces. */
  predicate SortedByRank(xs: seq<string>) {
    forall i, j :: 0 <= i < j < |xs| ==> Rank(xs[i]) >= Rank(xs[j])
  }

  /** Puts `x` before the first element whose rank does not exceed its own. */
  function Insert(x: string, xs: seq<string>): (r: seq<string>)
    requires SortedByRank(xs)
    ensures multiset(r) == multiset(xs) + multiset{x}
    ensures SortedByRank(r)
    ensures xs == [] || Rank(xs[0]) <= Rank(x) ==> r[0] == x
    ensures xs != [] && Rank(xs[0]) > Rank(x) ==> r[0] == xs[0]
  {
    if xs == [] || Rank(xs[0]) <= Rank(x) then [x] + xs
    else
      var rest := Insert(x, xs[1..]);
      assert xs == [xs[0]] + xs[1..];
      RankBoundedByHead(x, xs, rest);
      [xs[0]] + rest
  }

  lemma RankBoundedByHead(x: string, xs: seq<string>, rest: seq<string>)
    requires xs != [] && SortedByRank(xs) && Rank(x) < Rank(xs[0])
    requires multiset(rest) == multiset(xs[1..]) + multiset{x} && SortedByRank(rest)
    ensures SortedByRank([xs[0]] + rest)
  {
    forall e | e in rest ensures Rank(e) <= Rank(xs[0]) {
      assert e in multiset(rest);
      if e != x {
        assert e in multiset(xs[1..]);
        var j :| 0 <= j < |xs[1..]| && xs[1..][j] == e;
        assert xs[j + 1] == e;
      }
    }
    var r := [xs[0]] + rest;
    forall i, j | 0 <= i < j < |r| ensures Rank(r[i]) >= Rank(r[j]) {
      if i > 0 {
        assert r[i] == rest[i - 1] && r[j] == rest[j - 1];
      } else {
        assert r[j] in rest;
      }
    }
  }

  /** The stable descending sort by rank (JavaScript's `sort` is stable). */
  function SortByRank(xs: seq<string>): (r: seq<string>)
    ensures multiset(r) == multiset(xs)
    ensures SortedByRank(r)
  {
    if xs == [] then []
    else
      assert xs == [xs[0]] + xs[1..];
      Insert(xs[0], SortByRank(xs[1..]))
  }

  /** `xs[k]` has the highest rank in `xs`, and no earlier element has it. */
  predicate FirstOfHighestRank(xs: seq<string>, k: int) {
    0 <= k < |xs| &&
    (forall j :: 0 <= j < |xs| ==> Rank(xs[j]) <= Rank(xs[k])) &&
    (forall j :: 0 <= j < k ==> Rank(xs[j]) < Rank(xs[k]))
  }

  /**
   * After the sort, the first element is the earliest of the highest-ranked
   * elements: ties keep their listing order.
   */
  lemma {:induction false} SortHead(xs: seq<string>)
    requires xs != []
    ensures exists k :: FirstOfHighestRank(xs, k) && SortByRank(xs)[0] == xs[k]
  {
    var tail := xs[1..];
    if tail == [] {
      assert FirstOfHighestRank(xs, 0);
    } else {
      SortHead(tail);
      var k :| FirstOfHighestRank(tail, k) && SortByRank(tail)[0] == tail[k];
      if Rank(tail[k]) <= Rank(xs[0]) {
        HeadWins(xs, k);
      } else {
        TailWins(xs, k);
      }
    }
  }

  lemma HeadWins(xs: seq<string>, k: int)
    requires |xs| >= 2 && FirstOfHighestRank(xs[1..], k) && SortByRank(xs[1..])[0] == xs[1..][k]
    requires Rank(xs[1..][k]) <= Rank(xs[0])
    ensures FirstOfHighestRank(xs, 0) && SortByRank(xs)[0] == xs[0]
  {
    SortStep(xs);
    forall j | 1 <= j < |xs| ensures Rank(xs[j]) <= Rank(xs[0]) {
      assert xs[j] == xs[1..][j - 1];
    }
  }

  lemma TailWins(xs: seq<string>, k: int)
    requires |xs| >= 2 && FirstOfHighestRank(xs[1..], k) && SortByRank(xs[1..])[0] == xs[1..][k]
    requires Rank(xs[1..][k]) > Rank(xs[0])
    ensures FirstOfHighestRank(xs, k + 1) && SortByRank(xs)[0] == xs[k + 1]
  {
    SortStep(xs);
    TailHighest(xs, k);
  }

  /** Sorting a non-empty sequence inserts its head into its sorted tail. */
  lemma SortStep(xs: seq<string>)
    requires xs != []
    ensures SortByRank(xs) == Insert(xs[0], SortByRank(xs[1..]))
  {
  }

  lemma TailHighest(xs: seq<string>, k: int)
    requires |xs| >= 2 && FirstOfHighestRank(xs[1..], k)
    requires Rank(xs[1..][k]) > Rank(xs[0])
    ensures FirstOfHighestRank(xs, k + 1)
  {
    forall j | 1 <= j < |xs| ensures Rank(xs[j]) <= Rank(xs[k + 1]) {
      assert xs[j] == xs[1..][j - 1];
    }
    forall j | 1 <= j < k + 1 ensures Rank(xs[j]) < Rank(xs[k + 1]) {
      assert xs[j] == xs[1..][j - 1];
    }
  }

  /**
   * The tier used: every strictly named file, in listing order, if there is
   * one; else every broadly named file if there is one; else every image.
   */
  function Candidates(allFiles: seq<string>): (r: seq<string>)
    ensures (exists f :: f in allFiles && StrictCandidate(f)) ==> r == Filter(allFiles, StrictCandidate)
    ensures (forall f :: f in allFiles ==> !StrictCandidate(f)) && (exists f :: f in allFiles && BroadCandidate(f)) ==>
      r == Filter(allFiles, BroadCandidate)
    ensures (forall f :: f in allFiles ==> !BroadCandidate(f)) ==> r == Filter(allFiles, AnyImage)
    ensures forall i :: 0 <= i < |r| ==> r[i] in allFiles
    ensures (exists f :: f in allFiles && StrictCandidate(f)) ==>
      forall i :: 0 <= i < |r| ==> StrictCandidate(r[i])
    ensures (exists f :: f in allFiles && BroadCandidate(f)) ==>
      forall i :: 0 <= i < |r| ==> BroadCandidate(r[i])
    ensures forall i :: 0 <= i < |r| ==> AnyImage(r[i])
    ensures r == [] <==> forall f :: f in allFiles ==> !AnyImage(f)
  {
    var strict := Filter(allFiles, StrictCandidate);
    var broad := Filter(allFiles, BroadCandidate);
    forall i | 0 <= i < |strict| ensures BroadCandidate(strict[i]) {
      StrictIsBroad(strict[i]);
    }
    if strict != [] then
      assert strict[0] in allFiles && AnyImage(strict[0]);
      strict
    else if broad != [] then
      assert broad[0] in allFiles && AnyImage(broad[0]);
      broad
    else
      var images := Filter(allFiles, AnyImage);
      assert images != [] ==> images[0] in allFiles && AnyImage(images[0]);
      images
  }

  /**
   * The icon that is read: the first candidate after the sort, or none, in
   * which case reading `undefined` fails and the fetch yields `null`.
   */
  function ChooseIcon(allFiles: seq<string>): (r: Option<string>)
    ensures r.None? <==> forall f :: f in allFiles ==> !AnyImage(f)
    ensures r.Some? ==> r.value in allFiles && AnyImage(r.value)
  {
    var candidates := Candidates(allFiles);
    if candidates == [] then None
    else
      var sorted := SortByRank(candidates);
      assert sorted[0] in multiset(candidates);
      Some(sorted[0])
  }

  /** The choice is the earliest listed file among the highest-ranked candidates. */
  lemma ChosenIsFirstBest(allFiles: seq<string>)
    requires ChooseIcon(allFiles).Some?
    ensures exists k :: (FirstOfHighestRank(Candidates(allFiles), k) &&
                         ChooseIcon(allFiles).value == Candidates(allFiles)[k])
  {
    SortHead(Candidates(allFiles));
  }
}
