/**
 * The JavaScript string operations the server and the UI rely on, with the
 * edge cases of the language: `indexOf`, `lastIndexOf`, `includes`,
 * `substring` (clamping, and swapping reversed bounds), `split` with a string
 * separator, `split(/\r?\n/)`, `trim`, `replace` of the first occurrence,
 * ASCII `toLowerCase` and decimal rendering of integers.
 */
module JsString {

  /** `p` occurs in `s` at index `i`. */
  predicate OccursAt(s: string, p: string, i: int) {
    0 <= i && i + |p| <= |s| && s[i..i + |p|] == p
  }

  /** `s.includes(p)`. */
  predicate Includes(s: string, p: string) {
    exists i | 0 <= i <= |s| :: OccursAt(s, p, i)
  }

  /** An occurrence splits `s` into the text before it, `p` and the text after it. */
  lemma AroundOccurrence(s: string, p: string, i: int)
    requires OccursAt(s, p, i)
    ensures s == s[..i] + p + s[i + |p|..]
  {
    assert s[i..i + |p|] == p;
    assert s == s[..i] + s[i..i + |p|] + s[i + |p|..];
  }

  lemma OccursShift(s: string, p: string, i: int)
    requires |s| > 0 && 0 <= i
    ensures OccursAt(s[1..], p, i) <==> OccursAt(s, p, i + 1)
  {
    if 0 <= i && i + |p| <= |s| - 1 {
      assert s[1..][i..i + |p|] == s[i + 1..i + 1 + |p|];
    }
  }

  lemma OccursInPrefix(s: string, p: string, n: nat, i: int)
    requires n <= |s|
    requires i + |p| <= n
    ensures OccursAt(s[..n], p, i) <==> OccursAt(s, p, i)
  {
    if 0 <= i {
      assert s[..n][i..i + |p|] == s[i..i + |p|];
    }
  }

  lemma OccursInSuffix(s: string, p: string, n: nat, i: int)
    requires n <= |s| && 0 <= i
    ensures OccursAt(s[n..], p, i) <==> OccursAt(s, p, i + n)
  {
    if 0 <= i && i + |p| <= |s| - n {
      assert s[n..][i..i + |p|] == s[i + n..i + n + |p|];
    }
  }

  /** `s.indexOf(p)`: the first index at which `p` occurs, or -1. */
  function IndexOf(s: string, p: string): (r: int)
    ensures r == -1 || OccursAt(s, p, r)
    ensures r == -1 <==> !Includes(s, p)
    ensures forall j :: 0 <= j < r ==> !OccursAt(s, p, j)
    decreases |s|
  {
    if |s| < |p| then -1
    else if s[..|p|] == p then 0
    else
      var k := IndexOf(s[1..], p);
      assert !OccursAt(s, p, 0);
      forall j | 0 <= j < |s| ensures OccursAt(s, p, j + 1) <==> OccursAt(s[1..], p, j) {
        OccursShift(s, p, j);
      }
      if k == -1 then
        assert forall i :: 0 <= i <= |s| ==> !OccursAt(s, p, i) by {
          forall i | 0 < i <= |s| ensures !OccursAt(s, p, i) {
            OccursShift(s, p, i - 1);
          }
        }
        -1
      else
        assert forall j :: 0 <= j < k + 1 ==> !OccursAt(s, p, j) by {
          forall j | 0 < j < k + 1 ensures !OccursAt(s, p, j) {
            OccursShift(s, p, j - 1);
          }
        }
        k + 1
  }

  /** `s.lastIndexOf(p)`: the last index at which `p` occurs, or -1. */
  function LastIndexOf(s: string, p: string): (r: int)
    ensures r == -1 || OccursAt(s, p, r)
    ensures r == -1 <==> !Includes(s, p)
    ensures forall j :: r < j <= |s| ==> !OccursAt(s, p, j)
    decreases |s|
  {
    if |s| < |p| then -1
    else if s[|s| - |p|..] == p then |s| - |p|
    else
      var t := s[..|s| - 1];
      var k := LastIndexOf(t, p);
      assert !OccursAt(s, p, |s| - |p|);
      forall j | 0 <= j <= |s| ensures OccursAt(t, p, j) <==> OccursAt(s, p, j) {
        if j + |p| <= |t| {
          OccursInPrefix(s, p, |s| - 1, j);
        }
      }
      assert Includes(t, p) <==> Includes(s, p);
      k
  }

  function Clamp(x: int, n: nat): (r: nat)
    ensures r <= n
  {
    if x < 0 then 0 else if x > n then n else x
  }

  /**
   * `s.substring(start, end)`: both bounds are clamped to `0..|s|`, and the
   * smaller one is taken as the start.
   */
  function Substring(s: string, start: int, end: int): string {
    var a := Clamp(start, |s|);
    var b := Clamp(end, |s|);
    if a <= b then s[a..b] else s[b..a]
  }

  /** The pieces joined with `sep` between consecutive ones. */
  function Join(xs: seq<string>, sep: string): string {
    if |xs| == 0 then ""
    else if |xs| == 1 then xs[0]
    else xs[0] + sep + Join(xs[1..], sep)
  }

  lemma JoinCons(x: string, xs: seq<string>, sep: string)
    requires xs != []
    ensures Join([x] + xs, sep) == x + sep + Join(xs, sep)
  {
    assert ([x] + xs)[1..] == xs;
  }

  lemma NotIncludedBeforeFirst(s: string, p: string, i: nat)
    requires i <= |s|
    requires forall j :: 0 <= j < i ==> !OccursAt(s, p, j)
    requires |p| > 0
    ensures !Includes(s[..i], p)
  {
    forall j | 0 <= j <= i ensures !OccursAt(s[..i], p, j) {
      if j + |p| <= i {
        OccursInPrefix(s, p, i, j);
      }
    }
  }

  /** `s.split(sep)` for a non-empty string separator. */
  function Split(s: string, sep: string): (r: seq<string>)
    requires sep != ""
    ensures |r| >= 1
    ensures Join(r, sep) == s
    ensures forall i :: 0 <= i < |r| ==> !Includes(r[i], sep)
    decreases |s|
  {
    var i := IndexOf(s, sep);
    if i == -1 then [s]
    else
      var rest := Split(s[i + |sep|..], sep);
      NotIncludedBeforeFirst(s, sep, i);
      AroundOccurrence(s, sep, i);
      JoinCons(s[..i], rest, sep);
      [s[..i]] + rest
  }

  lemma IncludesChar(s: string, c: char)
    ensures Includes(s, [c]) <==> c in s
  {
    if c in s {
      var i :| 0 <= i < |s| && s[i] == c;
      assert OccursAt(s, [c], i);
    }
    if Includes(s, [c]) {
      var i :| 0 <= i <= |s| && OccursAt(s, [c], i);
      assert s[i] == [c][0];
    }
  }

  lemma IndexOfCharBefore(a: string, c: char, b: string)
    requires c !in a
    ensures IndexOf(a + [c] + b, [c]) == |a|
  {
    var s := a + [c] + b;
    assert OccursAt(s, [c], |a|);
    forall j | 0 <= j < |a| ensures !OccursAt(s, [c], j) {
      assert s[j] == a[j];
    }
  }

  /**
   * Splitting on a one-character separator inverts joining pieces that do not
   * contain it; with the `ensures` of `Split`, this pins `split` down.
   */
  lemma {:induction false} SplitJoinChar(xs: seq<string>, c: char)
    requires |xs| >= 1
    requires forall i :: 0 <= i < |xs| ==> c !in xs[i]
    ensures Split(Join(xs, [c]), [c]) == xs
    decreases |xs|
  {
    if |xs| == 1 {
      IncludesChar(xs[0], c);
    } else {
      var rest := Join(xs[1..], [c]);
      var s := xs[0] + [c] + rest;
      assert Join(xs, [c]) == s;
      IndexOfCharBefore(xs[0], c, rest);
      assert s[..|xs[0]|] == xs[0];
      assert s[|xs[0]| + 1..] == rest;
      assert Split(s, [c]) == [xs[0]] + Split(rest, [c]);
      SplitJoinChar(xs[1..], c);
      assert xs == [xs[0]] + xs[1..];
    }
  }

  /** Appending a separator and a separator-free piece appends one piece. */
  lemma SplitAppendChar(s: string, c: char, t: string)
    requires c !in t
    ensures Split(s + [c] + t, [c]) == Split(s, [c]) + [t]
  {
    var xs := Split(s, [c]);
    forall i | 0 <= i < |xs| ensures c !in xs[i] {
      IncludesChar(xs[i], c);
    }
    JoinAppend(xs, [c], t);
    SplitJoinChar(xs + [t], c);
  }

  lemma {:induction false} JoinAppend(xs: seq<string>, sep: string, t: string)
    requires |xs| >= 1
    ensures Join(xs + [t], sep) == Join(xs, sep) + sep + t
    decreases |xs|
  {
    if |xs| == 1 {
      assert (xs + [t])[1..] == [t];
    } else {
      assert (xs + [t])[1..] == xs[1..] + [t];
      JoinAppend(xs[1..], sep, t);
    }
  }

  /** The number of occurrences of character `c` in `s`. */
  function CountChar(s: string, c: char): nat {
    if s == [] then 0 else (if s[0] == c then 1 else 0) + CountChar(s[1..], c)
  }

  lemma {:induction false} CountCharAppend(a: string, b: string, c: char)
    ensures CountChar(a + b, c) == CountChar(a, c) + CountChar(b, c)
  {
    if a == [] {
      assert a + b == b;
    } else {
      assert (a + b)[1..] == a[1..] + b;
      CountCharAppend(a[1..], b, c);
    }
  }

  lemma {:induction false} CountCharAbsent(s: string, c: char)
    requires c !in s
    ensures CountChar(s, c) == 0
  {
    if s != [] {
      CountCharAbsent(s[1..], c);
    }
  }

  /**
   * `s.split(/\r?\n/)`: the leftmost match of the pattern is an LF, together
   * with the CR right before it when there is one.
   */
  function SplitLines(s: string): (r: seq<string>)
    ensures |r| == CountChar(s, '\n') + 1
    ensures forall i :: 0 <= i < |r| ==> '\n' !in r[i]
    decreases |s|
  {
    var i := IndexOf(s, "\n");
    if i == -1 then
      IncludesChar(s, '\n');
      CountCharAbsent(s, '\n');
      [s]
    else
      var rest := SplitLines(s[i + 1..]);
      var piece := if i > 0 && s[i - 1] == '\r' then s[..i - 1] else s[..i];
      assert '\n' !in s[..i] by {
        NotIncludedBeforeFirst(s, "\n", i);
        IncludesChar(s[..i], '\n');
      }
      AroundOccurrence(s, "\n", i);
      CountCharAppend(s[..i] + "\n", s[i + 1..], '\n');
      CountCharAppend(s[..i], "\n", '\n');
      CountCharAbsent(s[..i], '\n');
      [piece] + rest
  }

  /**
   * For text without CR, joining the lines back with LF restores the text:
   * splitting loses nothing but the terminators.
   */
  lemma {:induction false} SplitLinesRejoin(s: string)
    requires '\r' !in s
    ensures Join(SplitLines(s), "\n") == s
    decreases |s|
  {
    var i := IndexOf(s, "\n");
    if i == -1 {
      assert SplitLines(s) == [s];
    } else {
      var rest := SplitLines(s[i + 1..]);
      SplitLinesStep(s, i);
      JoinCons(s[..i], rest, "\n");
      SplitLinesRejoin(s[i + 1..]);
      AroundOccurrence(s, "\n", i);
    }
  }

  /** Without CR, the first line is the text before the first LF. */
  lemma SplitLinesStep(s: string, i: int)
    requires '\r' !in s && i == IndexOf(s, "\n") && i != -1
    ensures SplitLines(s) == [s[..i]] + SplitLines(s[i + 1..])
  {
    assert i > 0 ==> s[i - 1] in s;
    assert !(i > 0 && s[i - 1] == '\r');
    assert SplitLines(s) == [s[..i]] + SplitLines(s[i + 1..]);
  }

  /** The characters `trim` removes: ECMAScript WhiteSpace and LineTerminator. */
  predicate IsJsSpace(c: char) {
    var n := c as int;
    n == 0x09 || n == 0x0A || n == 0x0B || n == 0x0C || n == 0x0D || n == 0x20 ||
    n == 0xA0 || n == 0x1680 || (0x2000 <= n <= 0x200A) || n == 0x2028 ||
    n == 0x2029 || n == 0x202F || n == 0x205F || n == 0x3000 || n == 0xFEFF
  }

  function TrimStart(s: string): (r: string)
    ensures |r| <= |s| && r == s[|s| - |r|..]
    ensures forall j :: 0 <= j < |s| - |r| ==> IsJsSpace(s[j])
    ensures r == [] || !IsJsSpace(r[0])
  {
    if s != [] && IsJsSpace(s[0]) then TrimStart(s[1..]) else s
  }

  function TrimEnd(s: string): (r: string)
    ensures |r| <= |s| && r == s[..|r|]
    ensures forall j :: |r| <= j < |s| ==> IsJsSpace(s[j])
    ensures r == [] || !IsJsSpace(r[|r| - 1])
  {
    if s != [] && IsJsSpace(s[|s| - 1]) then TrimEnd(s[..|s| - 1]) else s
  }

  /** `s.trim()`. */
  function Trim(s: string): (r: string)
    ensures |r| <= |s|
    ensures r == [] || (!IsJsSpace(r[0]) && !IsJsSpace(r[|r| - 1]))
  {
    TrimEnd(TrimStart(s))
  }

  /** `trim` keeps a contiguous part of `s` and removes only white space around it. */
  lemma TrimInfix(s: string)
    ensures var r, k := Trim(s), |s| - |TrimStart(s)|;
      k + |r| <= |s| && r == s[k..k + |r|] &&
      (forall j :: 0 <= j < k ==> IsJsSpace(s[j])) &&
      (forall j :: k + |r| <= j < |s| ==> IsJsSpace(s[j]))
  {
    var a := TrimStart(s);
    TrimSlice(s);
    TrimEndTail(s, a, Trim(s), |s| - |a|);
  }

  lemma TrimSlice(s: string)
    ensures var r, k := Trim(s), |s| - |TrimStart(s)|;
      k + |r| <= |s| && r == s[k..k + |r|]
  {
    var a := TrimStart(s);
    var r := TrimEnd(a);
    var k := |s| - |a|;
    assert a == s[k..] && r == a[..|r|];
  }

  lemma TrimEndTail(s: string, a: string, r: string, k: nat)
    requires k <= |s| && a == s[k..] && r == TrimEnd(a)
    ensures forall j :: k + |r| <= j < |s| ==> IsJsSpace(s[j])
  {
    forall j | k + |r| <= j < |s| ensures IsJsSpace(s[j]) {
      assert s[j] == a[j - k];
    }
  }

  /** A string trims to nothing exactly when it is all white space. */
  lemma TrimEmpty(s: string)
    ensures Trim(s) == "" <==> forall j :: 0 <= j < |s| ==> IsJsSpace(s[j])
  {
    if forall j :: 0 <= j < |s| ==> IsJsSpace(s[j]) {
      AllSpaceTrimStart(s);
    }
  }

  lemma {:induction false} AllSpaceTrimStart(s: string)
    requires forall j :: 0 <= j < |s| ==> IsJsSpace(s[j])
    ensures TrimStart(s) == ""
  {
    if s != [] {
      AllSpaceTrimStart(s[1..]);
    }
  }

  /** `s.replace(p, q)` with a string pattern: only the first occurrence. */
  function ReplaceFirst(s: string, p: string, q: string): (r: string)
    ensures !Includes(s, p) ==> r == s
    ensures Includes(s, p) ==>
      (exists i :: OccursAt(s, p, i) && (forall j :: 0 <= j < i ==> !OccursAt(s, p, j)) &&
        r == s[..i] + q + s[i + |p|..])
  {
    var i := IndexOf(s, p);
    if i == -1 then s else s[..i] + q + s[i + |p|..]
  }

  /** `c.toLowerCase()` on the ASCII letters. */
  function LowerChar(c: char): char {
    if 'A' <= c <= 'Z' then (c as int + 32) as char else c
  }

  /** `s.toLowerCase()`, character by character over ASCII. */
  function ToLower(s: string): (r: string)
    ensures |r| == |s|
    ensures forall i :: 0 <= i < |s| ==> r[i] == LowerChar(s[i])
  {
    seq(|s|, i requires 0 <= i < |s| => LowerChar(s[i]))
  }

  /** Lower-casing twice is lower-casing once. */
  lemma ToLowerIdempotent(s: string)
    ensures ToLower(ToLower(s)) == ToLower(s)
  {
  }

  /** Lower-casing works character by character, so it distributes over concatenation. */
  lemma ToLowerAppend(a: string, b: string)
    ensures ToLower(a + b) == ToLower(a) + ToLower(b)
  {
  }

  /** `s.endsWith(p)`. */
  predicate EndsWith(s: string, p: string) {
    |p| <= |s| && s[|s| - |p|..] == p
  }

  lemma EndsWithAppend(a: string, b: string)
    ensures EndsWith(a + b, b)
  {
    assert (a + b)[|a|..] == b;
  }

  /** Two strings with a common head differ when what follows it differs at some index. */
  lemma DifferAfter(head: string, x: string, y: string, i: nat)
    requires i < |x| && i < |y| && x[i] != y[i]
    ensures head + x != head + y
  {
    assert (head + x)[|head| + i] == x[i];
    assert (head + y)[|head| + i] == y[i];
  }

  function DigitChar(d: nat): char
    requires d < 10
  {
    "0123456789"[d]
  }

  function DigitValue(c: char): nat {
    if '0' <= c <= '9' then c as int - '0' as int else 0
  }

  /** The decimal digits of `n`, as `String(n)` writes them. */
  function NatToString(n: nat): (r: string)
    ensures |r| >= 1
    ensures forall i :: 0 <= i < |r| ==> '0' <= r[i] <= '9'
    ensures |r| > 1 ==> r[0] != '0'
  {
    if n < 10 then [DigitChar(n)] else NatToString(n / 10) + [DigitChar(n % 10)]
  }

  /** Reads a string of decimal digits back as a number. */
  function ParseNat(s: string): nat {
    if s == [] then 0 else 10 * ParseNat(s[..|s| - 1]) + DigitValue(s[|s| - 1])
  }

  /** Decimal rendering loses nothing: reading the digits back gives `n`. */
  lemma {:induction false} NatToStringRoundTrip(n: nat)
    ensures ParseNat(NatToString(n)) == n
  {
    var s := NatToString(n);
    DigitRoundTrip(n % 10);
    if n < 10 {
      assert s == [DigitChar(n)];
      assert s[..|s| - 1] == [];
    } else {
      assert s == NatToString(n / 10) + [DigitChar(n % 10)];
      assert s[..|s| - 1] == NatToString(n / 10);
      assert s[|s| - 1] == DigitChar(n % 10);
      NatToStringRoundTrip(n / 10);
      assert ParseNat(s) == 10 * (n / 10) + n % 10;
    }
  }

  lemma DigitRoundTrip(d: nat)
    requires d < 10
    ensures DigitValue(DigitChar(d)) == d
  {
  }

  /** `String(n)` for an integer. */
  function IntToString(n: int): string {
    if n < 0 then "-" + NatToString(-n) else NatToString(n)
  }
}
