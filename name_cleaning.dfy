/**
 * The string steps of `extract_proper_name_from_url` that turn a decoded
 * Wikipedia URL into a readable name: take the part after `/wiki/`, turn
 * underscores into spaces, put exactly one space before each `(`, and drop a
 * trailing parenthesised qualifier. Each regular expression is written out as
 * the string function it computes.
 */
module NameCleaning {
  import opened Wrappers
  import opened Text

  const WikiSep := "/wiki/"

  /**
   * Where the last piece of `s.split('/wiki/')` starts, scanning from `i` for
   * separators that do not overlap; `last` is where the current piece started.
   */
  function SplitTailStart(s: string, i: nat, last: nat): (p: nat)
    requires last <= i <= |s|
    ensures last <= p <= |s|
    decreases |s| - i
  {
    if i + |WikiSep| > |s| then last
    else if OccursAt(s, WikiSep, i) then SplitTailStart(s, i + |WikiSep|, i + |WikiSep|)
    else SplitTailStart(s, i + 1, last)
  }

  /** The last piece starts where the current one did or right after a separator. */
  lemma {:induction false} SplitTailStartAfterSep(s: string, i: nat, last: nat)
    requires last <= i <= |s|
    ensures var p := SplitTailStart(s, i, last);
      p == last || (p >= |WikiSep| && OccursAt(s, WikiSep, p - |WikiSep|))
    decreases |s| - i
  {
    if i + |WikiSep| > |s| {
    } else if OccursAt(s, WikiSep, i) {
      SplitTailStartAfterSep(s, i + |WikiSep|, i + |WikiSep|);
    } else {
      SplitTailStartAfterSep(s, i + 1, last);
    }
  }

  /** No separator starts inside the last piece. */
  lemma {:induction false} SplitTailStartIsLast(s: string, i: nat, last: nat)
    requires last <= i <= |s|
    requires forall k | last <= k < i :: !OccursAt(s, WikiSep, k)
    ensures forall k | SplitTailStart(s, i, last) <= k :: !OccursAt(s, WikiSep, k)
    decreases |s| - i
  {
    if i + |WikiSep| > |s| {
    } else if OccursAt(s, WikiSep, i) {
      SplitTailStartIsLast(s, i + |WikiSep|, i + |WikiSep|);
    } else {
      SplitTailStartIsLast(s, i + 1, last);
    }
  }

  /**
   * `s.split('/wiki/')[-1]`: the text after the last separator found by a
   * left-to-right scan that does not let matches overlap; all of `s` when the
   * separator does not occur.
   */
  function WikiTail(s: string): (r: string)
    ensures |r| <= |s| && r == s[|s| - |r|..]
    ensures !Contains(r, WikiSep)
    ensures !Contains(s, WikiSep) ==> r == s
    ensures Contains(s, WikiSep) ==>
      |s| - |r| >= |WikiSep| && s[|s| - |r| - |WikiSep|..|s| - |r|] == WikiSep
  {
    var p := SplitTailStart(s, 0, 0);
    SplitTailStartAfterSep(s, 0, 0);
    SplitTailStartIsLast(s, 0, 0);
    NoLaterOccurrence(s, p);
    s[p..]
  }

  /**
   * Separators are found left to right without overlapping: in
   * `"/wiki/wiki/x"` the second `/wiki/` shares its `/` with the first, so it
   * is not a separator and the last piece is `"wiki/x"`.
   */
  lemma WikiTailOverlapping()
    ensures WikiTail("/wiki/wiki/x") == "wiki/x"
  {
    var s := "/wiki/wiki/x";
    assert OccursAt(s, WikiSep, 0);
    assert s[6..12] == "wiki/x";
    assert !OccursAt(s, WikiSep, 6);
    assert SplitTailStart(s, 7, 6) == 6;
    assert SplitTailStart(s, 6, 6) == 6;
    assert SplitTailStart(s, 0, 0) == 6;
  }

  /** With no occurrence at or after `p`, the text from `p` on does not contain the separator. */
  lemma NoLaterOccurrence(s: string, p: nat)
    requires p <= |s|
    requires forall k | p <= k :: !OccursAt(s, WikiSep, k)
    ensures !Contains(s[p..], WikiSep)
    ensures p == 0 ==> !Contains(s, WikiSep)
  {
    if Contains(s[p..], WikiSep) {
      var j :| 0 <= j <= |s| - p && OccursAt(s[p..], WikiSep, j);
      assert s[p..][j..j + |WikiSep|] == s[p + j..p + j + |WikiSep|];
      assert OccursAt(s, WikiSep, p + j);
    }
  }

  /** `s.replace('_', ' ')`. */
  function ReplaceUnderscores(s: string): (r: string)
    ensures |r| == |s| && '_' !in r
    ensures forall k | 0 <= k < |s| && s[k] != '_' :: r[k] == s[k]
    ensures forall k | 0 <= k < |s| && s[k] == '_' :: r[k] == ' '
  {
    if s == [] then []
    else [if s[0] == '_' then ' ' else s[0]] + ReplaceUnderscores(s[1..])
  }

  /** Every `(` in `s` comes right after a whitespace character. */
  predicate ParensAfterSpace(s: string) {
    forall k | 0 <= k < |s| && s[k] == '(' :: k > 0 && IsSpace(s[k - 1])
  }

  /**
   * Every `(` in `s` comes right after one plain space, and that space does not
   * follow another whitespace character.
   */
  predicate ParensAfterOneSpace(s: string) {
    forall k | 0 <= k < |s| && s[k] == '(' :: k > 0 && s[k - 1] == ' ' && (k == 1 || !IsSpace(s[k - 2]))
  }

  /** `re.sub(r'\(', ' (', s)`: a space inserted before every `(`. */
  function SpaceBeforeParen(s: string): (r: string)
    ensures ParensAfterSpace(r)
    ensures '_' !in s ==> '_' !in r
  {
    if s == [] then []
    else
      var rest := SpaceBeforeParen(s[1..]);
      if s[0] == '(' then " (" + rest else [s[0]] + rest
  }

  /**
   * The substitution only adds whitespace: the other characters stay, in
   * order, and text without `(` is left as it is.
   */
  lemma {:induction false} SpaceBeforeParenKeepsText(s: string)
    ensures NonSpace(SpaceBeforeParen(s)) == NonSpace(s)
    ensures '(' !in s ==> SpaceBeforeParen(s) == s
  {
    if s != [] {
      var rest := SpaceBeforeParen(s[1..]);
      var h := if s[0] == '(' then " (" else [s[0]];
      assert SpaceBeforeParen(s) == h + rest;
      SpaceBeforeParenKeepsText(s[1..]);
      assert s == [s[0]] + s[1..];
      NonSpaceAppend([s[0]], s[1..]);
      NonSpaceAppend(h, rest);
      assert NonSpace(h) == NonSpace([s[0]]);
    }
  }

  /** The substitution works piece by piece. */
  lemma {:induction false} SpaceBeforeParenAppend(a: string, b: string)
    ensures SpaceBeforeParen(a + b) == SpaceBeforeParen(a) + SpaceBeforeParen(b)
  {
    if a == [] {
      assert a + b == b;
    } else {
      assert (a + b)[0] == a[0] && (a + b)[1..] == a[1..] + b;
      SpaceBeforeParenAppend(a[1..], b);
    }
  }

  /** Text before the first `(` is copied, and that `(` becomes ` (`. */
  lemma SpaceBeforeParenFirst(a: string, b: string)
    requires '(' !in a
    ensures SpaceBeforeParen(a + "(" + b) == a + " (" + SpaceBeforeParen(b)
  {
    assert a + "(" + b == a + ("(" + b);
    SpaceBeforeParenAppend(a, "(" + b);
    SpaceBeforeParenKeepsText(a);
    assert ("(" + b)[0] == '(' && ("(" + b)[1..] == b;
  }

  /**
   * `re.sub(r'\s+\(', ' (', s)`: each whitespace run that ends at a `(` becomes
   * one space. The regex engine tries every start position from the left; the
   * greedy `\s+` reaches the end of the run, so a start succeeds exactly when
   * its run ends at `(`, and the scan resumes after that `(`. Any other run is
   * copied together with the character after it.
   */
  function CollapseSpaceParen(s: string): (r: string)
    ensures '_' !in s ==> '_' !in r
    decreases |s|
  {
    if s == [] then []
    else if !IsSpace(s[0]) then [s[0]] + CollapseSpaceParen(s[1..])
    else
      var n := SpaceRun(s);
      if n == |s| then s
      else if s[n] == '(' then " (" + CollapseSpaceParen(s[n + 1..])
      else s[..n + 1] + CollapseSpaceParen(s[n + 1..])
  }

  /**
   * The substitution only changes whitespace: the other characters stay, in
   * order, and text without `(` is left as it is.
   */
  lemma {:induction false} CollapseKeepsText(s: string)
    ensures NonSpace(CollapseSpaceParen(s)) == NonSpace(s)
    ensures '(' !in s ==> CollapseSpaceParen(s) == s
    decreases |s|
  {
    var n := if s != [] && IsSpace(s[0]) then SpaceRun(s) else 0;
    if n < |s| {
      var rest := CollapseSpaceParen(s[n + 1..]);
      var h := if n > 0 && s[n] == '(' then " (" else s[..n + 1];
      CollapseAtRun(s, n);
      CollapseKeepsText(s[n + 1..]);
      NonSpaceAfterRun(s, n);
      NonSpaceAppend(h, rest);
      if h == " (" {
        assert NonSpace(h) == "(" == NonSpace([s[n]]);
      }
    }
  }

  /** A whitespace run and the character after it leave only that character. */
  lemma NonSpaceAfterRun(s: string, n: nat)
    requires n < |s| && SpaceBetween(s, 0, n)
    ensures s == s[..n + 1] + s[n + 1..]
    ensures NonSpace(s[..n + 1]) == NonSpace([s[n]])
    ensures NonSpace(s) == NonSpace([s[n]]) + NonSpace(s[n + 1..])
  {
    var w, t := s[..n], s[..n + 1];
    assert AllSpace(w) by {
      forall k | 0 <= k < |w| ensures IsSpace(w[k]) {
        assert w[k] == s[k];
      }
    }
    NonSpaceAllSpace(w);
    SplitAfter(s, n);
    NonSpaceAppend(w, [s[n]]);
    NonSpaceAppend(t, s[n + 1..]);
  }

  /** The substitution can be split after a character that is not whitespace. */
  lemma {:induction false} CollapseAppend(a: string, b: string)
    requires a == [] || !IsSpace(a[|a| - 1])
    ensures CollapseSpaceParen(a + b) == CollapseSpaceParen(a) + CollapseSpaceParen(b)
    decreases |a|
  {
    if a == [] {
      assert a + b == b;
    } else {
      var n, h := CollapseHead(a, b);
      var a' := a[n + 1..];
      assert a' == [] || a'[|a'| - 1] == a[|a| - 1];
      CollapseAppend(a', b);
      JoinStep(h, CollapseSpaceParen(a'), CollapseSpaceParen(b),
               CollapseSpaceParen(a), CollapseSpaceParen(a' + b), CollapseSpaceParen(a + b));
    }
  }

  /**
   * The first step of the substitution is the same on `a` and on `a + b` when
   * `a` ends in a character that is not whitespace: it turns `a[..n+1]` into `h`.
   */
  lemma CollapseHead(a: string, b: string) returns (n: nat, h: string)
    requires a != [] && !IsSpace(a[|a| - 1])
    ensures n < |a|
    ensures CollapseSpaceParen(a) == h + CollapseSpaceParen(a[n + 1..])
    ensures CollapseSpaceParen(a + b) == h + CollapseSpaceParen(a[n + 1..] + b)
  {
    var s := a + b;
    n := if IsSpace(a[0]) then SpaceRun(a) else 0;
    assert n < |a|;
    SlicesOfAppend(a, b, n + 1);
    assert s[0] == a[0] && s[n] == a[n];
    if n > 0 {
      var w := a[..n];
      assert AllSpace(w) by {
        forall k | 0 <= k < |w| ensures IsSpace(w[k]) {
          assert w[k] == a[k];
        }
      }
      assert s == w + (a[n..] + b);
      SpaceRunOf(w, a[n..] + b);
    }
    h := if n > 0 && a[n] == '(' then " (" else a[..n + 1];
    CollapseAtRun(a, n);
    CollapseAtRun(s, n);
  }

  /**
   * One step of the substitution: `s[..n]` is the whitespace run at the start
   * (possibly empty) and `s[n]` the character after it.
   */
  lemma CollapseAtRun(s: string, n: nat)
    requires n < |s| && (if IsSpace(s[0]) then n == SpaceRun(s) else n == 0)
    ensures CollapseSpaceParen(s)
            == (if n > 0 && s[n] == '(' then " (" else s[..n + 1]) + CollapseSpaceParen(s[n + 1..])
  {
    if IsSpace(s[0]) {
      CollapseAtSpace(s, n);
    } else {
      SplitAfter(s, 0);
      CollapseAtOther(s);
    }
  }

  lemma CollapseAtSpace(s: string, n: nat)
    requires n < |s| && IsSpace(s[0]) && n == SpaceRun(s)
    ensures n > 0
    ensures CollapseSpaceParen(s)
            == (if s[n] == '(' then " (" else s[..n + 1]) + CollapseSpaceParen(s[n + 1..])
  {
  }

  lemma CollapseAtOther(s: string)
    requires s != [] && !IsSpace(s[0])
    ensures CollapseSpaceParen(s) == [s[0]] + CollapseSpaceParen(s[1..])
  {
  }

  /** `SpaceRun` measures a whitespace prefix that is followed by something else. */
  lemma {:induction false} SpaceRunOf(w: string, t: string)
    requires AllSpace(w) && (t == [] || !IsSpace(t[0]))
    ensures SpaceRun(w + t) == |w|
  {
    if w == [] {
      assert w + t == t;
    } else {
      assert (w + t)[0] == w[0] && (w + t)[1..] == w[1..] + t;
      assert AllSpace(w[1..]) by {
        forall k | 0 <= k < |w| - 1 ensures IsSpace(w[1..][k]) {
          assert w[1..][k] == w[k + 1];
        }
      }
      SpaceRunOf(w[1..], t);
    }
  }

  /** A whitespace run that ends at a `(` becomes one space. */
  lemma CollapseRunParen(w: string, b: string)
    requires w != [] && AllSpace(w)
    ensures CollapseSpaceParen(w + "(" + b) == " (" + CollapseSpaceParen(b)
  {
    var s := w + "(" + b;
    assert s == w + ("(" + b);
    SpaceRunOf(w, "(" + b);
    assert s[|w|] == '(' && s[|w| + 1..] == b;
  }

  /**
   * A whitespace run followed by something other than whitespace or `(` is
   * copied unchanged, together with that character.
   */
  lemma CollapseRunKept(w: string, c: char, b: string)
    requires AllSpace(w) && !IsSpace(c) && c != '('
    ensures CollapseSpaceParen(w + [c] + b) == w + [c] + CollapseSpaceParen(b)
  {
    var s := w + [c] + b;
    assert s == w + ([c] + b);
    SpaceRunOf(w, [c] + b);
    assert s[|w|] == c && s[..|w| + 1] == w + [c] && s[|w| + 1..] == b;
  }

  /** After the first substitution, the second leaves exactly one space before each `(`. */
  lemma {:induction false} CollapseGivesOneSpace(s: string)
    requires ParensAfterSpace(s)
    ensures ParensAfterOneSpace(CollapseSpaceParen(s))
    decreases |s|
  {
    if s == [] {
    } else {
      var n := if IsSpace(s[0]) then SpaceRun(s) else 0;
      if n == |s| {
        CollapseAllSpace(s);
      } else {
        SuffixParensAfterSpace(s, n + 1);
        CollapseGivesOneSpace(s[n + 1..]);
        assert s[0] != '(';
        CollapseStep(s, n);
      }
    }
  }

  /** A string of whitespace only is left as it is, and holds no `(`. */
  lemma CollapseAllSpace(s: string)
    requires s != [] && IsSpace(s[0]) && SpaceRun(s) == |s|
    ensures ParensAfterOneSpace(CollapseSpaceParen(s))
  {
  }

  /**
   * One step of the substitution: `s[..n]` is the whitespace run at the start
   * (possibly empty) and `s[n]` the character after it.
   */
  lemma CollapseStep(s: string, n: nat)
    requires n < |s| && (if IsSpace(s[0]) then n == SpaceRun(s) else n == 0)
    requires s[0] != '('
    requires ParensAfterOneSpace(CollapseSpaceParen(s[n + 1..]))
    ensures ParensAfterOneSpace(CollapseSpaceParen(s))
  {
    var rest := CollapseSpaceParen(s[n + 1..]);
    if n == 0 {
      JoinOneSpace([s[0]], rest);
    } else if s[n] == '(' {
      JoinOneSpace(" (", rest);
    } else {
      CollapseSkipsRun(s, n);
    }
  }

  /** A whitespace run not followed by `(` is kept, and so is the character after it. */
  lemma CollapseSkipsRun(s: string, n: nat)
    requires 0 < n < |s| && IsSpace(s[0]) && n == SpaceRun(s) && s[n] != '('
    requires ParensAfterOneSpace(CollapseSpaceParen(s[n + 1..]))
    ensures ParensAfterOneSpace(CollapseSpaceParen(s))
  {
    RunHasNoParen(s, n);
    JoinOneSpace(s[..n + 1], CollapseSpaceParen(s[n + 1..]));
  }

  lemma RunHasNoParen(s: string, n: nat)
    requires n < |s| && SpaceBetween(s, 0, n) && s[n] != '(' && !IsSpace(s[n])
    ensures ParensAfterOneSpace(s[..n + 1]) && !IsSpace(s[..n + 1][n])
  {
    var p := s[..n + 1];
    forall k | 0 <= k < |p| ensures p[k] != '(' {
      assert p[k] == s[k];
    }
  }

  /** Cutting `s` just after a character that is not whitespace keeps every `(` after whitespace. */
  lemma SuffixParensAfterSpace(s: string, d: nat)
    requires ParensAfterSpace(s) && 0 < d <= |s| && !IsSpace(s[d - 1])
    ensures ParensAfterSpace(s[d..])
  {
    var t := s[d..];
    forall k | 0 <= k < |t| && t[k] == '(' ensures k > 0 && IsSpace(t[k - 1]) {
      assert s[d + k] == '(';
    }
  }

  /** Joining keeps one space before each `(` when the left part does not end in whitespace. */
  lemma JoinOneSpace(p: string, rest: string)
    requires ParensAfterOneSpace(p) && ParensAfterOneSpace(rest)
    requires p == [] || !IsSpace(p[|p| - 1])
    ensures ParensAfterOneSpace(p + rest)
  {
    var r := p + rest;
    forall k | 0 <= k < |r| && r[k] == '('
      ensures k > 0 && r[k - 1] == ' ' && (k == 1 || !IsSpace(r[k - 2]))
    {
      if k >= |p| {
        assert rest[k - |p|] == '(';
      }
    }
  }

  /**
   * `$` after the `)` of `\s*\([^)]*\)$`: index `e` is the last character, or
   * the one before a final newline.
   */
  predicate EndAnchor(s: string, e: int) {
    0 <= e && (e + 1 == |s| || (e + 2 == |s| && s[e + 1] == '\n'))
  }

  /**
   * `\s*\([^)]*\)$` matches the part `s[i..e+1]`: whitespace up to `j`, a `(`
   * at `j`, no `)` until the `)` at `e`, and the end of the string after it.
   */
  predicate SuffixGroup(s: string, i: int, j: int, e: int) {
    && 0 <= i <= j < e < |s|
    && SpaceBetween(s, i, j)
    && s[j] == '('
    && s[e] == ')'
    && (forall k | j < k < e :: s[k] != ')')
    && EndAnchor(s, e)
  }

  /** The index of the `)` that `\)$` can match, if there is one. */
  function CloseAtEnd(s: string): (e: Option<nat>)
    ensures e.Some? ==> e.value < |s| && s[e.value] == ')' && EndAnchor(s, e.value)
    ensures e.None? ==> forall k | 0 <= k < |s| && EndAnchor(s, k) :: s[k] != ')'
  {
    if |s| >= 1 && s[|s| - 1] == ')' then Some(|s| - 1)
    else if |s| >= 2 && s[|s| - 1] == '\n' && s[|s| - 2] == ')' then Some(|s| - 2)
    else None
  }

  /** The last index below `hi` holding `c`, or -1. */
  function LastIndexBefore(s: string, c: char, hi: nat): (r: int)
    requires hi <= |s|
    ensures -1 <= r < hi && (r >= 0 ==> s[r] == c)
    ensures forall k | r < k < hi :: s[k] != c
  {
    if hi == 0 then -1
    else if s[hi - 1] == c then hi - 1
    else LastIndexBefore(s, c, hi - 1)
  }

  /** The first index in [lo, hi) holding `c`. */
  function FirstIndexBetween(s: string, c: char, lo: nat, hi: nat): (r: Option<nat>)
    requires lo <= hi <= |s|
    ensures r.Some? ==> lo <= r.value < hi && s[r.value] == c
    ensures r.Some? ==> forall k | lo <= k < r.value :: s[k] != c
    ensures r.None? ==> forall k | lo <= k < hi :: s[k] != c
    decreases hi - lo
  {
    if lo == hi then None
    else if s[lo] == c then Some(lo)
    else FirstIndexBetween(s, c, lo + 1, hi)
  }

  /** The start of the whitespace run that ends at `j`. */
  function SpaceRunStart(s: string, j: nat): (i: nat)
    requires j <= |s|
    ensures i <= j && SpaceBetween(s, i, j) && (i == 0 || !IsSpace(s[i - 1]))
  {
    if j > 0 && IsSpace(s[j - 1]) then SpaceRunStart(s, j - 1) else j
  }

  /**
   * `re.sub(r'\s*\([^)]*\)$', '', s)`: removes the leftmost match of the
   * pattern. A match must end at the end of the string (or before a final
   * newline), so there is at most one, and the text after it is kept.
   */
  function StripSuffix(s: string): (r: string)
    ensures r == s <==> !exists i, j, e :: SuffixGroup(s, i, j, e)
    ensures r != s ==> exists i, j, e ::
      && SuffixGroup(s, i, j, e)
      && r == s[..i] + s[e + 1..]
      && (forall i', j', e' | SuffixGroup(s, i', j', e') :: i <= i')
    ensures |r| <= |s| && forall k | 0 <= k < |r| :: r[k] == s[k] || (k == |r| - 1 && r[k] == '\n')
  {
    match CloseAtEnd(s)
    case None =>
      NoGroupWithoutClose(s);
      s
    case Some(e) =>
      var lo := LastIndexBefore(s, ')', e) + 1;
      match FirstIndexBetween(s, '(', lo, e)
      case None =>
        NoGroupWithoutOpen(s, e);
        s
      case Some(j) =>
        var i := SpaceRunStart(s, j);
        LeftmostGroup(s, i, j, e);
        CutGroup(s, i, e);
        s[..i] + s[e + 1..]
  }

  /**
   * Cutting the group only removes text at the end: apart from whitespace, the
   * result is a prefix of the name.
   */
  lemma StripSuffixKeepsPrefix(s: string)
    ensures StartsWith(NonSpace(s), NonSpace(StripSuffix(s)))
  {
    var r := StripSuffix(s);
    if r == s {
      assert NonSpace(s)[..|NonSpace(s)|] == NonSpace(s);
    } else {
      var i, j, e :| SuffixGroup(s, i, j, e) && r == s[..i] + s[e + 1..];
      CutKeepsPrefix(s, i, j, e);
    }
  }

  lemma CutKeepsPrefix(s: string, i: int, j: int, e: int)
    requires SuffixGroup(s, i, j, e)
    ensures StartsWith(NonSpace(s), NonSpace(s[..i] + s[e + 1..]))
  {
    var tail := s[e + 1..];
    assert AllSpace(tail) by {
      assert tail == [] || tail == ['\n'];
    }
    NonSpaceAllSpace(tail);
    NonSpaceAppend(s[..i], tail);
    assert s == s[..i] + s[i..];
    NonSpaceAppend(s[..i], s[i..]);
    var p := NonSpace(s[..i]);
    assert (p + NonSpace(s[i..]))[..|p|] == p;
  }

  lemma NoGroupWithoutClose(s: string)
    requires CloseAtEnd(s).None?
    ensures !exists i, j, e :: SuffixGroup(s, i, j, e)
  {
    forall i, j, e | SuffixGroup(s, i, j, e) ensures false {
      GroupShape(s, i, j, e);
    }
  }

  lemma NoGroupWithoutOpen(s: string, e: nat)
    requires CloseAtEnd(s) == Some(e)
    requires FirstIndexBetween(s, '(', LastIndexBefore(s, ')', e) + 1, e).None?
    ensures !exists i, j, e :: SuffixGroup(s, i, j, e)
  {
    forall i', j', e' | SuffixGroup(s, i', j', e') ensures false {
      GroupShape(s, i', j', e');
    }
  }

  /** The match the regex engine finds: its `(` is the first after the last `)` before the end. */
  lemma LeftmostGroup(s: string, i: nat, j: nat, e: nat)
    requires CloseAtEnd(s) == Some(e)
    requires FirstIndexBetween(s, '(', LastIndexBefore(s, ')', e) + 1, e) == Some(j)
    requires i == SpaceRunStart(s, j)
    ensures SuffixGroup(s, i, j, e)
    ensures forall i', j', e' | SuffixGroup(s, i', j', e') :: i <= i'
  {
    forall i', j', e' | SuffixGroup(s, i', j', e') ensures i <= i' {
      GroupShape(s, i', j', e');
      if j < j' {
        assert !IsSpace(s[j]);
      } else {
        SpaceRunStartIsFirst(s, j, i');
      }
    }
  }

  /** No whitespace run ending at `j` starts before the one `SpaceRunStart` finds. */
  lemma {:induction false} SpaceRunStartIsFirst(s: string, j: nat, i: nat)
    requires i <= j <= |s| && SpaceBetween(s, i, j)
    ensures SpaceRunStart(s, j) <= i
  {
    if i < j {
      SpaceRunStartIsFirst(s, j - 1, i);
    }
  }

  /** Removing the match keeps a prefix, plus the final newline if `$` stood before one. */
  lemma CutGroup(s: string, i: nat, e: nat)
    requires i <= e < |s| && EndAnchor(s, e)
    ensures var r := s[..i] + s[e + 1..];
      |r| < |s| && forall k | 0 <= k < |r| :: r[k] == s[k] || (k == |r| - 1 && r[k] == '\n')
  {
  }

  /** Where a match of the suffix pattern can lie: it ends at the `)` that `CloseAtEnd` finds, after the last `)` before it. */
  lemma GroupShape(s: string, i: int, j: int, e: int)
    requires SuffixGroup(s, i, j, e)
    ensures CloseAtEnd(s) == Some(e)
    ensures LastIndexBefore(s, ')', e) < j
  {
  }

  /**
   * Only the leftmost match goes, and there is at most one: a title with two
   * qualifiers keeps the first, and the result still ends in a group.
   */
  lemma StripSuffixRemovesOneGroup()
    ensures StripSuffix("A (b) (c)") == "A (b)"
    ensures SuffixGroup("A (b)", 1, 2, 4)
  {
    var s := "A (b) (c)";
    assert CloseAtEnd(s) == Some(8);
    assert LastIndexBefore(s, ')', 8) == 4;
    assert FirstIndexBetween(s, '(', 5, 8) == Some(6);
    assert SpaceRunStart(s, 6) == 5;
    assert s[..5] == "A (b)";
  }

  /**
   * Lines 21-31 of `extract_proper_name_from_url`: the name the decoded URL
   * spells. It holds no underscore, and each `(` has exactly one space before it.
   */
  function CleanName(decoded: string): (r: string)
    ensures '_' !in r
    ensures ParensAfterOneSpace(r)
    ensures StartsWith(NonSpace(ReplaceUnderscores(WikiTail(decoded))), NonSpace(r))
  {
    var tail := WikiTail(decoded);
    var spaced := SpaceBeforeParen(ReplaceUnderscores(tail));
    SpaceBeforeParenKeepsText(ReplaceUnderscores(tail));
    var collapsed := CollapseSpaceParen(spaced);
    CollapseKeepsText(spaced);
    CollapseGivesOneSpace(spaced);
    var r := StripSuffix(collapsed);
    StripSuffixKeepsPrefix(collapsed);
    assert forall k | 0 <= k < |r| :: r[k] != '_' by {
      forall k | 0 <= k < |r| ensures r[k] != '_' {
        assert r[k] == collapsed[k] || r[k] == '\n';
        assert collapsed[k] in collapsed;
      }
    }
    forall k | 0 <= k < |r| && r[k] == '('
      ensures k > 0 && r[k - 1] == ' ' && (k == 1 || !IsSpace(r[k - 2]))
    {
      assert collapsed[k] == '(';
    }
    r
  }
}
