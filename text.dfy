/**
 * The parts of Python's `str` behaviour the fetcher script relies on:
 * whitespace (`str.isspace`, which is also what `\s` matches in a `str` regex
 * and what `strip()` removes), lower-casing, substring tests and `strip()`.
 */
module Text {
  import opened Wrappers

  /** Python's `str.isspace` for one character. */
  predicate IsSpace(c: char) {
    var n := c as int;
    (9 <= n <= 13) || (28 <= n <= 32) || n == 0x85 || n == 0xA0 || n == 0x1680
    || (0x2000 <= n <= 0x200A) || n == 0x2028 || n == 0x2029 || n == 0x202F
    || n == 0x205F || n == 0x3000
  }

  /** Upper-case letters of ASCII and Latin-1 (the letters Portuguese names use). */
  predicate IsUpper(c: char) {
    ('A' <= c <= 'Z') || ('\U{C0}' <= c <= '\U{DE}' && c != '\U{D7}')
  }

  /** Python's `lower()` on one character, for ASCII and Latin-1 letters. */
  function LowerChar(c: char): (d: char)
    ensures !IsUpper(d)
    ensures d == c <==> !IsUpper(c)
  {
    if IsUpper(c) then (c as int + 32) as char else c
  }

  /** Python's `str.lower()`, character by character. */
  function Lower(s: string): (r: string)
    ensures |r| == |s|
    ensures forall k | 0 <= k < |s| :: r[k] == LowerChar(s[k])
  {
    if s == [] then [] else [LowerChar(s[0])] + Lower(s[1..])
  }

  /** Lower-casing twice is lower-casing once. */
  lemma {:induction false} LowerIdempotent(s: string)
    ensures Lower(Lower(s)) == Lower(s)
  {
    var l := Lower(s);
    assert forall k | 0 <= k < |l| :: LowerChar(l[k]) == l[k];
  }

  /** `t` occurs in `s` starting at index `i`. */
  predicate OccursAt(s: string, t: string, i: int) {
    0 <= i && i + |t| <= |s| && s[i..i + |t|] == t
  }

  /** Python's `t in s` for strings; the empty string is in every string. */
  predicate Contains(s: string, t: string) {
    exists i | 0 <= i <= |s| :: OccursAt(s, t, i)
  }

  /** Python's `s.startswith(p)`. */
  predicate StartsWith(s: string, p: string) {
    |p| <= |s| && s[..|p|] == p
  }

  /** Slicing `a + b` at an index inside `a`. */
  lemma SlicesOfAppend<T>(a: seq<T>, b: seq<T>, i: nat)
    requires i <= |a|
    ensures (a + b)[..i] == a[..i] && (a + b)[i..] == a[i..] + b
  {
  }

  /** Cutting `s` just after index `n`. */
  lemma SplitAfter<T>(s: seq<T>, n: nat)
    requires n < |s|
    ensures s[..n + 1] == s[..n] + [s[n]] && s == s[..n + 1] + s[n + 1..]
  {
  }

  /** `x == h + x'` and `y == h + (x' + z)` give `y == x + z`. */
  lemma JoinStep<T>(h: seq<T>, x': seq<T>, z: seq<T>, x: seq<T>, y': seq<T>, y: seq<T>)
    requires x == h + x' && y' == x' + z && y == h + y'
    ensures y == x + z
  {
  }

  /** The characters of `s` that are not whitespace, in order. */
  function NonSpace(s: string): (r: string)
    ensures |r| <= |s|
  {
    if s == [] then []
    else (if IsSpace(s[0]) then [] else [s[0]]) + NonSpace(s[1..])
  }

  /** Dropping whitespace works piece by piece. */
  lemma {:induction false} NonSpaceAppend(a: string, b: string)
    ensures NonSpace(a + b) == NonSpace(a) + NonSpace(b)
  {
    if a == [] {
      assert a + b == b;
    } else {
      var h := if IsSpace(a[0]) then [] else [a[0]];
      assert (a + b)[0] == a[0] && (a + b)[1..] == a[1..] + b;
      assert NonSpace(a + b) == h + NonSpace(a[1..] + b);
      NonSpaceAppend(a[1..], b);
      JoinStep(h, NonSpace(a[1..]), NonSpace(b), NonSpace(a), NonSpace(a[1..] + b), NonSpace(a + b));
    }
  }

  /** A string of whitespace only has no other characters. */
  lemma {:induction false} NonSpaceAllSpace(w: string)
    requires AllSpace(w)
    ensures NonSpace(w) == []
  {
    if w != [] {
      assert AllSpace(w[1..]) by {
        forall k | 0 <= k < |w| - 1 ensures IsSpace(w[1..][k]) {
          assert w[1..][k] == w[k + 1];
        }
      }
      NonSpaceAllSpace(w[1..]);
    }
  }

  /** The first index of `c` in `s`. */
  function IndexOf(s: string, c: char): (r: Option<nat>)
    ensures r.None? <==> c !in s
    ensures r.Some? ==> r.value < |s| && s[r.value] == c && c !in s[..r.value]
  {
    if s == [] then None
    else if s[0] == c then Some(0)
    else match IndexOf(s[1..], c)
      case None => None
      case Some(k) => Some(k + 1)
  }

  /** Every character of `s` in the index range [lo, hi) is whitespace. */
  predicate SpaceBetween(s: string, lo: int, hi: int) {
    forall k | lo <= k < hi && 0 <= k < |s| :: IsSpace(s[k])
  }

  /** The number of whitespace characters `s.lstrip()` removes. */
  function SpaceRun(s: string): (n: nat)
    ensures n <= |s| && SpaceBetween(s, 0, n) && (n == |s| || !IsSpace(s[n]))
  {
    if s != [] && IsSpace(s[0]) then 1 + SpaceRun(s[1..]) else 0
  }

  /** Where `rstrip()` cuts `s`, looking no further left than `lo`. */
  function ContentEnd(s: string, lo: nat): (b: nat)
    requires lo <= |s|
    ensures lo <= b <= |s| && SpaceBetween(s, b, |s|) && (b == lo || !IsSpace(s[b - 1]))
    decreases |s| - lo
  {
    if lo < |s| && !IsSpace(s[|s| - 1]) then |s|
    else if lo == |s| then lo
    else ContentEnd(s[..|s| - 1], lo)
  }

  /** Every character of `s` is whitespace. */
  predicate AllSpace(s: string) {
    SpaceBetween(s, 0, |s|)
  }

  /**
   * Python's `s.strip()`: the part of `s` between a whitespace head and a
   * whitespace tail, which neither starts nor ends with whitespace.
   */
  function Strip(s: string): (r: string)
    ensures r == [] || (!IsSpace(r[0]) && !IsSpace(r[|r| - 1]))
    ensures r == [] <==> AllSpace(s)
    ensures SpaceRun(s) + |r| <= |s|
    ensures r == s[SpaceRun(s)..SpaceRun(s) + |r|] && SpaceBetween(s, SpaceRun(s) + |r|, |s|)
  {
    var a := SpaceRun(s);
    var b := ContentEnd(s, a);
    s[a..b]
  }
}
