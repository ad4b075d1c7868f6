/**
 * `String.split(regex)` of the Java runtime, with the default limit 0, for the
 * fixed-width patterns the fetcher uses: the input is cut around the
 * left-to-right, non-overlapping matches of the pattern; if nothing matches the
 * result is the whole input; otherwise every trailing empty string is dropped,
 * so the result may be empty.
 */
module JavaSplit {
  import opened Wrappers

  /** One position of a fixed-width regular expression: a literal or `.`. */
  datatype PatChar = Lit(c: char) | AnyChar

  type Pattern = seq<PatChar>

  /** The characters `.` does not match in Java's default (non-DOTALL) mode. */
  predicate IsLineTerminator(c: char) {
    c == '\n' || c == '\r' || c == '\U{85}' || c == '\U{2028}' || c == '\U{2029}'
  }

  predicate Accepts(p: PatChar, c: char) {
    match p
    case Lit(d) => c == d
    case AnyChar => !IsLineTerminator(c)
  }

  /** The pattern matches `s` starting at index `i`. */
  predicate MatchesAt(s: string, p: Pattern, i: nat) {
    i + |p| <= |s| && forall k :: 0 <= k < |p| ==> Accepts(p[k], s[i + k])
  }

  /** The regex `"\\/"`: a literal slash. */
  const Slash: Pattern := [Lit('/')]
  /** The regex `"-"`. */
  const Dash: Pattern := [Lit('-')]
  /** The regex `" "`. */
  const Space: Pattern := [Lit(' ')]
  /**
   * The regex `"-gtk-linux-x86.zip"`: the dot is not escaped, so it stands for
   * any character other than a line terminator.
   */
  const GtkSuffixRegex: Pattern := [
    Lit('-'), Lit('g'), Lit('t'), Lit('k'), Lit('-'), Lit('l'), Lit('i'), Lit('n'), Lit('u'),
    Lit('x'), Lit('-'), Lit('x'), Lit('8'), Lit('6'), AnyChar, Lit('z'), Lit('i'), Lit('p')
  ]

  /** The first index at or after `j` where `p` matches `s`, as `Matcher.find` scans. */
  function FindFrom(s: string, p: Pattern, j: nat): (r: Option<nat>)
    decreases |s| - j
    ensures r.Some? ==> j <= r.value && MatchesAt(s, p, r.value)
  {
    if |s| < j + |p| then None
    else if MatchesAt(s, p, j) then Some(j)
    else FindFrom(s, p, j + 1)
  }

  /** `FindFrom` finds the first match: there is none between `j` and the one it returns. */
  lemma {:induction false} FindFromFirst(s: string, p: Pattern, j: nat)
    decreases |s| - j
    ensures var r := FindFrom(s, p, j);
      forall i :: j <= i && (r.None? || i < r.value) ==> !MatchesAt(s, p, i)
  {
    if |s| >= j + |p| && !MatchesAt(s, p, j) {
      FindFromFirst(s, p, j + 1);
    }
  }

  /**
   * The pieces between matches from index `start` on, before trailing empty
   * pieces are removed; each search resumes just after the previous match.
   */
  function PiecesFrom(s: string, p: Pattern, start: nat): (r: seq<string>)
    requires |p| > 0 && start <= |s|
    decreases |s| - start
    ensures |r| >= 1
    ensures forall k :: 0 <= k < |r| ==> |r[k]| <= |s| - start
  {
    match FindFrom(s, p, start)
    case None => [s[start..]]
    case Some(i) => [s[start..i]] + PiecesFrom(s, p, i + |p|)
  }

  function Pieces(s: string, p: Pattern): (r: seq<string>)
    requires |p| > 0
  {
    PiecesFrom(s, p, 0)
  }

  /** Drops every trailing empty string, as a limit of 0 asks. */
  function StripTrailingEmpty(xs: seq<string>): (r: seq<string>)
    ensures |r| <= |xs| && r == xs[..|r|]
    ensures |r| > 0 ==> r[|r| - 1] != ""
    ensures forall k :: |r| <= k < |xs| ==> xs[k] == ""
  {
    if |xs| > 0 && xs[|xs| - 1] == "" then StripTrailingEmpty(xs[..|xs| - 1]) else xs
  }

  /**
   * `s.split(p)`: without a match the whole text; otherwise the pieces with
   * trailing empty ones dropped, so that the last is never empty, the first is
   * the text before the first match, and nothing is left only when that match
   * stands at index 0.
   */
  function Split(s: string, p: Pattern): (r: seq<string>)
    requires |p| > 0
    ensures forall k :: 0 <= k < |r| ==> |r[k]| <= |s|
    ensures FindFrom(s, p, 0).None? ==> r == [s]
    ensures FindFrom(s, p, 0).Some? ==> |r| == 0 || r[|r| - 1] != ""
    ensures FindFrom(s, p, 0).Some? && |r| > 0 ==> r[0] == s[..FindFrom(s, p, 0).value]
    ensures |r| == 0 ==> FindFrom(s, p, 0) == Some(0)
  {
    if FindFrom(s, p, 0).None? then [s]
    else
      PiecesStep(s, p, 0, FindFrom(s, p, 0).value);
      StripTrailingEmpty(Pieces(s, p))
  }

  /** A one-character literal matches exactly where that character stands. */
  lemma MatchesAtChar(s: string, c: char, i: nat)
    ensures MatchesAt(s, [Lit(c)], i) <==> i < |s| && s[i] == c
  {
    if MatchesAt(s, [Lit(c)], i) {
      assert Accepts([Lit(c)][0], s[i + 0]);
    }
  }

  /** The first match at or after `j` is at `m` when `m` matches and nothing in between does. */
  lemma {:induction false} FirstMatchAt(s: string, p: Pattern, j: nat, m: nat)
    requires j <= m && MatchesAt(s, p, m)
    requires forall i :: j <= i < m ==> !MatchesAt(s, p, i)
    ensures FindFrom(s, p, j) == Some(m)
    decreases m - j
  {
    if j < m {
      FirstMatchAt(s, p, j + 1, m);
    }
  }

  /** One step of `PiecesFrom`: the piece up to the next match, then the pieces after it. */
  lemma PiecesStep(s: string, p: Pattern, start: nat, i: nat)
    requires |p| > 0 && start <= |s| && FindFrom(s, p, start) == Some(i)
    ensures PiecesFrom(s, p, start) == [s[start..i]] + PiecesFrom(s, p, i + |p|)
  {
  }

  /** With a one-character separator, the first piece runs up to the next separator. */
  lemma PiecesHead(s: string, c: char, start: nat)
    requires start <= |s|
    ensures var h := PiecesFrom(s, [Lit(c)], start)[0];
      start + |h| <= |s| && h == s[start..start + |h|] &&
      (forall k :: start <= k < start + |h| ==> s[k] != c) &&
      (start + |h| < |s| ==> s[start + |h|] == c)
  {
    var p := [Lit(c)];
    FindFromFirst(s, p, start);
    forall k | start <= k < |s| && (FindFrom(s, p, start).None? || k < FindFrom(s, p, start).value)
      ensures s[k] != c
    {
      MatchesAtChar(s, c, k);
    }
    if FindFrom(s, p, start).Some? {
      MatchesAtChar(s, c, FindFrom(s, p, start).value);
    }
  }

  /**
   * `l` is the tail of `s` after its last `c`, where that `c`, if any, stands
   * at or after `start`.
   */
  predicate LastSegment(s: string, c: char, start: nat, l: string) {
    |l| <= |s| - start && l == s[|s| - |l|..] &&
    (forall k :: |s| - |l| <= k < |s| ==> s[k] != c) &&
    (|s| - |l| > start ==> s[|s| - |l| - 1] == c)
  }

  /** With a one-character separator, the last piece is what follows the last separator. */
  lemma {:induction false} PiecesLast(s: string, c: char, start: nat)
    requires start <= |s|
    ensures var r := PiecesFrom(s, [Lit(c)], start); LastSegment(s, c, start, r[|r| - 1])
    decreases |s| - start
  {
    match FindFrom(s, [Lit(c)], start)
    case None =>
      PiecesLastNone(s, c, start);
    case Some(i) =>
      MatchesAtChar(s, c, i);
      PiecesLast(s, c, i + 1);
      PiecesLastStep(s, c, start, i);
  }

  /** Without a separator from `start` on, the one piece left is the whole rest, free of `c`. */
  lemma PiecesLastNone(s: string, c: char, start: nat)
    requires start <= |s| && FindFrom(s, [Lit(c)], start).None?
    ensures var r := PiecesFrom(s, [Lit(c)], start); LastSegment(s, c, start, r[|r| - 1])
  {
    FindFromFirst(s, [Lit(c)], start);
    forall k | start <= k < |s| ensures s[k] != c {
      MatchesAtChar(s, c, k);
    }
    assert PiecesFrom(s, [Lit(c)], start) == [s[start..]];
  }

  lemma PiecesLastStep(s: string, c: char, start: nat, i: nat)
    requires start <= i < |s| && s[i] == c && FindFrom(s, [Lit(c)], start) == Some(i)
    requires var rr := PiecesFrom(s, [Lit(c)], i + 1); LastSegment(s, c, i + 1, rr[|rr| - 1])
    ensures var r := PiecesFrom(s, [Lit(c)], start); LastSegment(s, c, start, r[|r| - 1])
  {
    var rr := PiecesFrom(s, [Lit(c)], i + 1);
    var r := PiecesFrom(s, [Lit(c)], start);
    LastOfSame(s, c, start, i);
    LastSegmentWiden(s, c, start, i, rr[|rr| - 1]);
  }

  lemma LastOfSame(s: string, c: char, start: nat, i: nat)
    requires start <= i < |s| && FindFrom(s, [Lit(c)], start) == Some(i)
    ensures var rr := PiecesFrom(s, [Lit(c)], i + 1); var r := PiecesFrom(s, [Lit(c)], start);
      r[|r| - 1] == rr[|rr| - 1]
  {
    PiecesStep(s, [Lit(c)], start, i);
    LastOfCons(s[start..i], PiecesFrom(s, [Lit(c)], i + 1), PiecesFrom(s, [Lit(c)], start));
  }

  lemma LastOfCons(h: string, rr: seq<string>, r: seq<string>)
    requires |rr| > 0 && r == [h] + rr
    ensures r[|r| - 1] == rr[|rr| - 1]
  {
  }

  lemma LastSegmentWiden(s: string, c: char, start: nat, i: nat, l: string)
    requires start <= i < |s| && s[i] == c && LastSegment(s, c, i + 1, l)
    ensures LastSegment(s, c, start, l)
  {
  }

  /** Every string of `xs` is empty. */
  predicate AllEmpty(xs: seq<string>) {
    forall k :: 0 <= k < |xs| ==> xs[k] == ""
  }

  /** Every character of `s` from `start` on is `c`. */
  predicate AllSeparators(s: string, c: char, start: nat) {
    forall k :: start <= k < |s| ==> s[k] == c
  }

  /** Every piece is empty exactly when the rest of the input is made of separators only. */
  lemma {:induction false} PiecesAllEmpty(s: string, c: char, start: nat)
    requires start <= |s|
    ensures AllEmpty(PiecesFrom(s, [Lit(c)], start)) <==> AllSeparators(s, c, start)
    decreases |s| - start
  {
    var p := [Lit(c)];
    var r := PiecesFrom(s, p, start);
    match FindFrom(s, p, start)
    case None =>
      assert r == [s[start..]];
      if start < |s| {
        assert !MatchesAt(s, p, start);
        MatchesAtChar(s, c, start);
        assert r[0][0] == s[start] != c;
      } else {
        assert r[0] == "";
      }
    case Some(i) =>
      MatchesAtChar(s, c, i);
      var rr := PiecesFrom(s, p, i + 1);
      assert r == [s[start..i]] + rr;
      if i == start {
        PiecesAllEmpty(s, c, i + 1);
        AllEmptyCons(r, rr);
        AllFromNext(s, c, start);
      } else {
        assert !MatchesAt(s, p, start);
        MatchesAtChar(s, c, start);
        assert r[0][0] == s[start] != c;
      }
  }

  /** A leading empty string does not change whether all strings are empty. */
  lemma AllEmptyCons(r: seq<string>, rr: seq<string>)
    requires r == [""] + rr
    ensures AllEmpty(r) <==> AllEmpty(rr)
  {
    if AllEmpty(rr) {
      forall k | 0 <= k < |r| ensures r[k] == "" {
        if k > 0 { assert r[k] == rr[k - 1]; }
      }
    }
    if AllEmpty(r) {
      forall k | 0 <= k < |rr| ensures rr[k] == "" {
        assert rr[k] == r[k + 1];
      }
    }
  }

  /** A separator at `start` does not change whether the rest is all separators. */
  lemma AllFromNext(s: string, c: char, start: nat)
    requires start < |s| && s[start] == c
    ensures AllSeparators(s, c, start) <==> AllSeparators(s, c, start + 1)
  {
  }

  /** A piece that is not empty survives the removal of trailing empty strings. */
  lemma StripKeeps(xs: seq<string>, k: nat)
    requires k < |xs| && xs[k] != ""
    ensures |StripTrailingEmpty(xs)| > k && StripTrailingEmpty(xs)[k] == xs[k]
  {
  }

  /** Removing trailing empty strings leaves nothing exactly when every string is empty. */
  lemma StripEmpty(xs: seq<string>)
    ensures StripTrailingEmpty(xs) == [] <==> forall k :: 0 <= k < |xs| ==> xs[k] == ""
  {
    var r := StripTrailingEmpty(xs);
    if r != [] {
      assert xs[|r| - 1] == r[|r| - 1];
    }
  }

  /**
   * If `s` does not end in the separator, the last element of the split is the
   * text after the last separator (all of `s` when there is none).
   */
  lemma SplitLastSegment(s: string, c: char)
    requires s == "" || s[|s| - 1] != c
    ensures var r := Split(s, [Lit(c)]);
      |r| > 0 && var l := r[|r| - 1];
      l == s[|s| - |l|..] && c !in l && (|l| < |s| ==> s[|s| - |l| - 1] == c)
  {
    SplitLast(s, c);
    var r := Split(s, [Lit(c)]);
    LastSegmentFacts(s, c, r[|r| - 1]);
  }

  lemma SplitLast(s: string, c: char)
    requires s == "" || s[|s| - 1] != c
    ensures var r := Split(s, [Lit(c)]); |r| > 0 && LastSegment(s, c, 0, r[|r| - 1])
  {
    PiecesLast(s, c, 0);
    if FindFrom(s, [Lit(c)], 0).Some? {
      var xs := PiecesFrom(s, [Lit(c)], 0);
      LastSegmentNotEmpty(s, c, xs[|xs| - 1]);
      StripKeepsLast(xs);
    }
  }

  lemma LastSegmentNotEmpty(s: string, c: char, l: string)
    requires s != "" && s[|s| - 1] != c && LastSegment(s, c, 0, l)
    ensures l != ""
  {
  }

  lemma StripKeepsLast(xs: seq<string>)
    requires |xs| > 0 && xs[|xs| - 1] != ""
    ensures StripTrailingEmpty(xs) == xs
  {
  }

  lemma LastSegmentFacts(s: string, c: char, l: string)
    requires LastSegment(s, c, 0, l)
    ensures l == s[|s| - |l|..] && c !in l && (|l| < |s| ==> s[|s| - |l| - 1] == c)
  {
    forall k | 0 <= k < |l| ensures l[k] != c {
      assert l[k] == s[|s| - |l| + k];
    }
  }

  /** No piece of a split on one character holds that character. */
  lemma {:induction false} PiecesNoSeparator(s: string, c: char, start: nat)
    requires start <= |s|
    ensures var r := PiecesFrom(s, [Lit(c)], start); forall k :: 0 <= k < |r| ==> c !in r[k]
    decreases |s| - start
  {
    var r := PiecesFrom(s, [Lit(c)], start);
    PiecesHead(s, c, start);
    var h := r[0];
    assert c !in h by {
      forall k | 0 <= k < |h| ensures h[k] != c {
        assert h[k] == s[start + k];
      }
    }
    match FindFrom(s, [Lit(c)], start)
    case None =>
      assert r == [h];
    case Some(i) =>
      PiecesNoSeparator(s, c, i + 1);
      PiecesStep(s, [Lit(c)], start, i);
      var rr := PiecesFrom(s, [Lit(c)], i + 1);
      forall k | 0 <= k < |r| ensures c !in r[k] {
        if k > 0 {
          assert r[k] == rr[k - 1];
        }
      }
  }

  /** No element of a split on one character holds that character. */
  lemma SplitNoSeparator(s: string, c: char)
    ensures var r := Split(s, [Lit(c)]); forall k :: 0 <= k < |r| ==> c !in r[k]
  {
    var p := [Lit(c)];
    var r := Split(s, p);
    PiecesNoSeparator(s, c, 0);
    if FindFrom(s, p, 0).None? {
      PiecesHead(s, c, 0);
      assert Pieces(s, p) == [s];
    } else {
      var xs := PiecesFrom(s, p, 0);
      assert r == StripTrailingEmpty(xs);
      assert forall k :: 0 <= k < |PiecesFrom(s, [Lit(c)], 0)| ==> c !in PiecesFrom(s, [Lit(c)], 0)[k];
      forall k | 0 <= k < |r| ensures c !in r[k] {
        assert k < |xs| && r[k] == xs[k];
      }
    }
  }

  /**
   * A split on one character with at least two elements: the text starts with
   * the first element, the separator and the second element, and what follows
   * is empty or starts with the separator.
   */
  lemma SplitSecondElement(s: string, c: char)
    requires |Split(s, [Lit(c)])| >= 2
    ensures var r := Split(s, [Lit(c)]); var n := |r[0]| + 1 + |r[1]|;
      n <= |s| && s[..n] == r[0] + [c] + r[1] && c !in r[0] && c !in r[1] && (n < |s| ==> s[n] == c)
  {
    var p := [Lit(c)];
    var r := Split(s, p);
    SplitNoSeparator(s, c);
    assert c !in r[0] && c !in r[1];
    var m := FindFrom(s, p, 0).value;
    MatchesAtChar(s, c, m);
    var xs := Pieces(s, p);
    var rr := PiecesFrom(s, p, m + 1);
    assert xs == [s[..m]] + rr;
    assert r[1] == xs[1] == rr[0];
    PiecesHead(s, c, m + 1);
    var n := |r[0]| + 1 + |r[1]|;
    assert s[..n] == s[..m] + [s[m]] + s[m + 1..n];
  }

  /**
   * The first element of a split on one character is the text before the first
   * separator; the split is empty exactly when the text is a non-empty run of
   * separators.
   */
  lemma SplitFirstToken(s: string, c: char)
    ensures var r := Split(s, [Lit(c)]);
      (r == [] <==> s != "" && forall k :: 0 <= k < |s| ==> s[k] == c) &&
      (r != [] ==> var h := r[0]; h == s[..|h|] && c !in h && (|h| < |s| ==> s[|h|] == c))
  {
    var p := [Lit(c)];
    var xs := Pieces(s, p);
    PiecesHead(s, c, 0);
    var h := xs[0];
    assert c !in h by {
      forall k | 0 <= k < |h| ensures h[k] != c {
        assert h[k] == s[k];
      }
    }
    if FindFrom(s, p, 0).Some? {
      PiecesAllEmpty(s, c, 0);
      StripEmpty(xs);
      var m := FindFrom(s, p, 0).value;
      MatchesAtChar(s, c, m);
      var r := StripTrailingEmpty(xs);
      if r != [] {
        assert r[0] == xs[0];
      }
    } else if s != "" {
      MatchesAtChar(s, c, 0);
    }
  }

  /**
   * Splitting `a` + separator + `v` + `tail` on one character gives `a` and then
   * `v` when neither holds the separator, `v` is not empty and `tail` is empty
   * or starts a new piece.
   */
  lemma SplitSecondToken(a: string, v: string, tail: string, c: char)
    requires c !in a && c !in v && v != ""
    requires tail == "" || tail[0] == c
    ensures var r := Split(a + [c] + v + tail, [Lit(c)]);
      |r| >= 2 && r[0] == a && r[1] == v
  {
    var p := [Lit(c)];
    var s := a + [c] + v + tail;
    var j := |a| + 1;
    MatchesAtChar(s, c, |a|);
    forall i | 0 <= i < |a| ensures !MatchesAt(s, p, i) {
      MatchesAtChar(s, c, i);
      assert s[i] == a[i];
    }
    FirstMatchAt(s, p, 0, |a|);
    assert s[..|a|] == a;
    var xs := Pieces(s, p);
    var rr := PiecesFrom(s, p, j);
    assert xs == [a] + rr;
    if tail == "" {
      forall i | j <= i ensures !MatchesAt(s, p, i) {
        MatchesAtChar(s, c, i);
        if i < |s| { assert s[i] == v[i - j]; }
      }
      assert FindFrom(s, p, j).None?;
      assert s[j..] == v;
    } else {
      MatchesAtChar(s, c, j + |v|);
      forall i | j <= i < j + |v| ensures !MatchesAt(s, p, i) {
        MatchesAtChar(s, c, i);
        assert s[i] == v[i - j];
      }
      FirstMatchAt(s, p, j, j + |v|);
      assert s[j..j + |v|] == v;
    }
    assert rr[0] == v;
    assert xs[1] == v;
    StripKeeps(xs, 1);
  }

  /** No `"-"` directly followed by `'g'`: the text cannot hold the start of a suffix match. */
  predicate NoDashG(s: string) {
    forall k :: 0 <= k < |s| - 1 ==> !(s[k] == '-' && s[k + 1] == 'g')
  }

  /**
   * Splitting `prefix + t` on the suffix regex, where `t` is one match of it,
   * yields exactly `[prefix]` when `prefix` is not empty and cannot hide an
   * earlier match.
   */
  lemma SplitBeforeSuffix(prefix: string, t: string)
    requires prefix != "" && NoDashG(prefix)
    requires |t| == |GtkSuffixRegex| && MatchesAt(t, GtkSuffixRegex, 0)
    ensures Split(prefix + t, GtkSuffixRegex) == [prefix]
  {
    var p := GtkSuffixRegex;
    var s := prefix + t;
    assert MatchesAt(s, p, |prefix|) by {
      forall k | 0 <= k < |p| ensures Accepts(p[k], s[|prefix| + k]) {
        assert s[|prefix| + k] == t[0 + k];
      }
    }
    assert Accepts(p[0], t[0 + 0]);
    forall i | 0 <= i < |prefix| ensures !MatchesAt(s, p, i) {
      assert s[i] != '-' || s[i + 1] != 'g' by {
        if i + 1 < |prefix| {
          assert s[i] == prefix[i] && s[i + 1] == prefix[i + 1];
        } else {
          assert s[i + 1] == t[0];
        }
      }
      assert !Accepts(p[0], s[i + 0]) || !Accepts(p[1], s[i + 1]);
    }
    FirstMatchAt(s, p, 0, |prefix|);
    assert s[..|prefix|] == prefix;
    assert |prefix| + |p| == |s|;
    assert PiecesFrom(s, p, |s|) == [""];
    assert Pieces(s, p) == [prefix, ""];
    assert StripTrailingEmpty([prefix, ""]) == StripTrailingEmpty([prefix]);
  }
}
