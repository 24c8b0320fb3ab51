/**
 * The string operations the backend and client rely on, written out
 * character by character: Python's `split`, `find`, `replace`, `rfind`,
 * `os.path.splitext` and `str(int)`, and JavaScript's `toLowerCase` and
 * `includes`.
 */
module Text {
  import opened Results

  /** `s.startswith(p)` */
  predicate StartsWith(s: string, p: string) {
    |p| <= |s| && s[..|p|] == p
  }

  /** `s.split(sep)[0]`: the text before the first `sep`, or all of `s` when there is none. */
  function BeforeFirst(s: string, sep: char): (r: string)
    ensures StartsWith(s, r)
    ensures sep !in r
    ensures |r| < |s| ==> s[|r|] == sep
  {
    if |s| == 0 then []
    else if s[0] == sep then []
    else [s[0]] + BeforeFirst(s[1..], sep)
  }

  /** Whatever precedes the first `sep` of `s` is what `BeforeFirst` returns. */
  lemma {:induction false} BeforeFirstUnique(s: string, p: string, sep: char)
    requires StartsWith(s, p + [sep])
    requires sep !in p
    ensures BeforeFirst(s, sep) == p
  {
    if p != [] {
      assert s[0] == p[0];
      assert StartsWith(s[1..], p[1..] + [sep]) by {
        assert s[1..][..|p|] == s[..|p| + 1][1..];
      }
      BeforeFirstUnique(s[1..], p[1..], sep);
    }
  }

  /** `pat` occurs in `s` starting at index `i`. */
  predicate OccursAt(s: string, pat: string, i: int) {
    0 <= i && i + |pat| <= |s| && s[i..i + |pat|] == pat
  }

  /** `pat` occurs in `s` at `i` and nowhere before. */
  predicate FirstOccurrence(s: string, pat: string, i: int) {
    OccursAt(s, pat, i) && forall j :: 0 <= j < i ==> !OccursAt(s, pat, j)
  }

  /** The scan behind Python's `s.find(pat, i)`: the first occurrence at or after `i`. */
  function FindFrom(s: string, pat: string, i: nat): (r: Option<nat>)
    requires i <= |s|
    ensures r.Some? ==> i <= r.value && OccursAt(s, pat, r.value)
    ensures r.Some? ==> forall j :: i <= j < r.value ==> !OccursAt(s, pat, j)
    ensures r.None? ==> forall j :: i <= j ==> !OccursAt(s, pat, j)
    decreases |s| - i
  {
    if OccursAt(s, pat, i) then Some(i)
    else if i == |s| then None
    else FindFrom(s, pat, i + 1)
  }

  /** `s.find(pat)`, with `None` for Python's -1. */
  function FindFirst(s: string, pat: string): (r: Option<nat>)
    ensures r.Some? ==> FirstOccurrence(s, pat, r.value)
    ensures r.None? <==> forall j :: !OccursAt(s, pat, j)
  {
    FindFrom(s, pat, 0)
  }

  /** JavaScript's `s.includes(sub)`. */
  predicate Includes(s: string, sub: string) {
    FindFirst(s, sub).Some?
  }

  /** `s.replace(target, replacement, 1)`: the first occurrence of `target`, if any, becomes `replacement`. */
  function ReplaceFirst(s: string, target: string, replacement: string): (r: string)
    ensures (forall j :: !OccursAt(s, target, j)) ==> r == s
    ensures forall i :: FirstOccurrence(s, target, i) ==> r == s[..i] + replacement + s[i + |target|..]
  {
    match FindFirst(s, target)
    case None => s
    case Some(i) =>
      assert OccursAt(s, target, i);
      s[..i] + replacement + s[i + |target|..]
  }

  /** A string that starts with `target` has that prefix replaced. */
  lemma ReplaceFirstAtStart(s: string, target: string, replacement: string)
    requires StartsWith(s, target)
    ensures ReplaceFirst(s, target, replacement) == replacement + s[|target|..]
  {
    assert FirstOccurrence(s, target, 0);
  }

  /** `toLowerCase` on one character, restricted to ASCII. */
  function LowerChar(c: char): char {
    if 'A' <= c <= 'Z' then (c as int + 32) as char else c
  }

  /** `toLowerCase`, ASCII letters only. */
  function Lower(s: string): (r: string)
    ensures |r| == |s|
    ensures forall i :: 0 <= i < |s| ==> r[i] == LowerChar(s[i])
  {
    seq(|s|, i requires 0 <= i < |s| => LowerChar(s[i]))
  }

  /** Every string includes the empty string. */
  lemma IncludesEmpty(s: string)
    ensures Includes(s, [])
  {
    assert OccursAt(s, [], 0);
  }

  /** Python's `s.rfind(c)`: the last index of `c`, or -1. */
  function RFind(s: string, c: char): (r: int)
    ensures -1 <= r < |s|
    ensures 0 <= r ==> s[r] == c
    ensures forall k :: r < k < |s| ==> s[k] != c
  {
    if |s| == 0 then -1
    else if s[|s| - 1] == c then |s| - 1
    else RFind(s[..|s| - 1], c)
  }

  /**
   * The final path component has a `.` that is preceded, within the
   * component, by a character other than `.`: the condition under which
   * `os.path.splitext` finds an extension.
   */
  ghost predicate HasExtension(p: string) {
    exists k, d :: 0 <= k < d < |p| && p[d] == '.' && p[k] != '.' && '/' !in p[k..]
  }

  /** `HasExtension` in terms of the last `/` and the last `.`, as `splitext` tests it. */
  lemma HasExtensionByLastDot(p: string)
    ensures HasExtension(p) <==>
      var (sep, dot) := (RFind(p, '/'), RFind(p, '.'));
      sep < dot && exists k :: sep < k < dot && p[k] != '.'
  {
    var (sep, dot) := (RFind(p, '/'), RFind(p, '.'));
    if HasExtension(p) {
      var k, d :| 0 <= k < d < |p| && p[d] == '.' && p[k] != '.' && '/' !in p[k..];
      assert d <= dot;
      assert sep < k < dot && p[k] != '.';
    }
    if sep < dot && exists k :: sep < k < dot && p[k] != '.' {
      var k :| sep < k < dot && p[k] != '.';
      assert forall j :: 0 <= j < |p[k..]| ==> p[k..][j] == p[k + j];
      assert '/' !in p[k..];
      assert 0 <= k < dot < |p| && p[dot] == '.';
    }
  }

  /**
   * POSIX `os.path.splitext(p)`: the extension runs from the last `.` of
   * the final path component to the end, unless only dots precede that `.`
   * in the component (a hidden file such as `.bashrc`) or there is no `.`.
   */
  function SplitExt(p: string): (r: (string, string))
    ensures r.0 + r.1 == p
    ensures r.1 != [] <==> HasExtension(p)
    ensures r.1 != [] ==> r.1[0] == '.' && '.' !in r.1[1..] && '/' !in r.1
  {
    var sep := RFind(p, '/');
    var dot := RFind(p, '.');
    HasExtensionByLastDot(p);
    if sep < dot && exists k :: sep < k < dot && p[k] != '.' then
      assert p[..dot] + p[dot..] == p;
      (p[..dot], p[dot..])
    else
      (p, [])
  }

  /**
   * Splitting a slash-free stem that does not start with a dot, followed by
   * an extension (a dot and then neither dots nor slashes), gives back the
   * stem and the extension.
   */
  lemma SplitExtOfStem(stem: string, ext: string)
    requires '/' !in stem && |stem| > 0 && stem[0] != '.'
    requires |ext| > 0 && ext[0] == '.' && '.' !in ext[1..] && '/' !in ext
    ensures SplitExt(stem + ext) == (stem, ext)
  {
    var p := stem + ext;
    forall k | 0 <= k < |p|
      ensures p[k] != '/'
    {
      if k < |stem| { assert p[k] == stem[k]; } else { assert p[k] == ext[k - |stem|]; }
    }
    forall k | |stem| < k < |p|
      ensures p[k] != '.'
    {
      assert p[k] == ext[1..][k - |stem| - 1];
    }
    assert p[|stem|] == '.';
    assert RFind(p, '/') == -1;
    assert RFind(p, '.') == |stem|;
    assert p[0] != '.';
    assert p[..|stem|] == stem && p[|stem|..] == ext;
  }

  predicate IsDigit(c: char) {
    '0' <= c <= '9'
  }

  function DigitChar(d: nat): (c: char)
    requires d < 10
    ensures IsDigit(c)
  {
    ('0' as int + d) as char
  }

  /** `str(n)` for a non-negative integer: its decimal digits, no leading zero. */
  function NatToString(n: nat): (r: string)
    ensures |r| >= 1
    ensures forall i :: 0 <= i < |r| ==> IsDigit(r[i])
  {
    if n < 10 then [DigitChar(n)] else NatToString(n / 10) + [DigitChar(n % 10)]
  }

  /** `str(n)` for any integer. */
  function IntToString(n: int): (r: string)
    ensures |r| >= 1
    ensures forall i :: 0 <= i < |r| ==> IsDigit(r[i]) || (i == 0 && r[i] == '-')
    ensures IsDigit(r[0]) <==> n >= 0
  {
    if n < 0 then "-" + NatToString(-n) else NatToString(n)
  }

  function DigitValue(c: char): nat
    requires IsDigit(c)
  {
    c as int - '0' as int
  }

  /** The value of a string of decimal digits. */
  function ParseNat(s: string): nat
    requires forall i :: 0 <= i < |s| ==> IsDigit(s[i])
  {
    if |s| == 0 then 0 else ParseNat(s[..|s| - 1]) * 10 + DigitValue(s[|s| - 1])
  }

  /** Reading back the decimal digits gives the number. */
  lemma {:induction false} ParseNatToString(n: nat)
    ensures ParseNat(NatToString(n)) == n
  {
    var s := NatToString(n);
    if n >= 10 {
      ParseNatToString(n / 10);
      assert s[..|s| - 1] == NatToString(n / 10);
    }
  }

  /** Different integers print differently. */
  lemma IntToStringInjective(a: int, b: int)
    requires IntToString(a) == IntToString(b)
    ensures a == b
  {
    if a >= 0 && b >= 0 {
      ParseNatToString(a);
      ParseNatToString(b);
    } else if a < 0 && b < 0 {
      assert NatToString(-a) == IntToString(a)[1..];
      assert NatToString(-b) == IntToString(b)[1..];
      ParseNatToString(-a);
      ParseNatToString(-b);
    }
  }

  /** A separator that occurs in neither head splits the two joined strings the same way. */
  lemma SplitAtSeparator(a: string, x: string, b: string, y: string, c: char)
    requires c !in a && c !in b
    requires a + [c] + x == b + [c] + y
    ensures a == b && x == y
  {
    var s := a + [c] + x;
    BeforeFirstUnique(s, a, c);
    BeforeFirstUnique(s, b, c);
    assert a == s[..|a|] == b;
    assert x == s[|a| + 1..] == y;
  }
}
