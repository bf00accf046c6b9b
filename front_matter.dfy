/**
 * The header/body split of `Article#read_file`: the one regular expression
 *   /^(---\s*\n.*?\n?)^(---\s*$\n?)/m
 * written as an explicit scan for an opening delimiter line and the first
 * closing delimiter line after it.
 */
module FrontMatter {
  import opened Wrappers

  /** Ruby's `\s`: space, tab, line feed, vertical tab, form feed, carriage return. */
  predicate IsSpace(c: char) {
    c == ' ' || c == '\t' || c == '\n' || c == '\U{000B}' || c == '\U{000C}' || c == '\r'
  }

  /** A `\s` character that does not end the line. */
  predicate IsBlank(c: char) {
    IsSpace(c) && c != '\n'
  }

  predicate AllSpace(s: string) {
    forall k :: 0 <= k < |s| ==> IsSpace(s[k])
  }

  /** Ruby's `^`: the start of the text or just after a line feed. */
  predicate AtLineStart(t: string, i: nat)
    requires i <= |t|
  {
    i == 0 || t[i - 1] == '\n'
  }

  /** `^---` matches at position `i`. */
  predicate DashesAt(t: string, i: nat) {
    i + 3 <= |t| && AtLineStart(t, i) && t[i..i + 3] == "---"
  }

  // ---------------------------------------------------------------------------
  // The delimiter lines as the regular expression states them.

  /** `^---\s*\n` can match at `p`. */
  ghost predicate OpeningLine(t: string, p: nat) {
    DashesAt(t, p) &&
    exists k :: p + 3 <= k < |t| && t[k] == '\n' && AllSpace(t[p + 3..k])
  }

  /** After `^---` at `q`, the `\s*$` of the closing line can stop at `m`. */
  ghost predicate SpaceStop(t: string, q: nat, m: nat) {
    q + 3 <= m <= |t| && AllSpace(t[q + 3..m]) && (m == |t| || t[m] == '\n')
  }

  /** `^---\s*$` can match at `q`. */
  ghost predicate ClosingLine(t: string, q: nat) {
    DashesAt(t, q) && exists m: nat :: SpaceStop(t, q, m)
  }

  // ---------------------------------------------------------------------------
  // The same lines found by scanning.

  /** The end of the run of blanks (not line feeds) that starts at `i`. */
  function SkipBlanks(t: string, i: nat): (k: nat)
    requires i <= |t|
    ensures i <= k <= |t|
    ensures forall j :: i <= j < k ==> IsBlank(t[j])
    ensures k == |t| || !IsBlank(t[k])
    decreases |t| - i
  {
    if i < |t| && IsBlank(t[i]) then SkipBlanks(t, i + 1) else i
  }

  /** A line `---` followed by blanks only, ended by a line feed. */
  predicate IsOpening(t: string, p: nat) {
    DashesAt(t, p) &&
    var k := SkipBlanks(t, p + 3);
    k < |t| && t[k] == '\n'
  }

  /** A line `---` followed by blanks only, ended by a line feed or by the end of the text. */
  predicate IsClosing(t: string, q: nat) {
    DashesAt(t, q) &&
    var k := SkipBlanks(t, q + 3);
    k == |t| || t[k] == '\n'
  }

  lemma OpeningAgrees(t: string, p: nat)
    ensures IsOpening(t, p) <==> OpeningLine(t, p)
  {
    if IsOpening(t, p) {
      var k := SkipBlanks(t, p + 3);
      assert AllSpace(t[p + 3..k]);
    }
    if OpeningLine(t, p) {
      var k :| p + 3 <= k < |t| && t[k] == '\n' && AllSpace(t[p + 3..k]);
      var k0 := SkipBlanks(t, p + 3);
      if k0 < k {
        assert IsSpace(t[p + 3..k][k0 - (p + 3)]);
      }
    }
  }

  lemma ClosingAgrees(t: string, q: nat)
    ensures IsClosing(t, q) <==> ClosingLine(t, q)
  {
    if IsClosing(t, q) {
      var k := SkipBlanks(t, q + 3);
      assert AllSpace(t[q + 3..k]);
      assert SpaceStop(t, q, k);
    }
    if ClosingLine(t, q) {
      var m: nat :| SpaceStop(t, q, m);
      var k0 := SkipBlanks(t, q + 3);
      if k0 < m {
        assert IsSpace(t[q + 3..m][k0 - (q + 3)]);
      }
    }
  }

  /** Every opening line is also a closing line. */
  lemma OpeningIsClosing(t: string, p: nat)
    requires IsOpening(t, p)
    ensures IsClosing(t, p)
  {
  }

  // ---------------------------------------------------------------------------
  // Where the match ends: the greedy `\s*` of the closing line runs over every
  // whitespace character, line feeds included, and then gives back characters
  // until `$` holds; the optional `\n` then takes that line feed.

  /** The end of the run of `\s` characters that starts at `i`. */
  function SpaceRunEnd(t: string, i: nat): (e: nat)
    requires i <= |t|
    ensures i <= e <= |t|
    ensures AllSpace(t[i..e])
    ensures e == |t| || !IsSpace(t[e])
    decreases |t| - i
  {
    if i < |t| && IsSpace(t[i]) then SpaceRunEnd(t, i + 1) else i
  }

  /** The last line feed in `t[lo..hi]`, or -1 when there is none. */
  function LastNewline(t: string, lo: nat, hi: nat): (m: int)
    requires lo <= hi <= |t|
    ensures m == -1 || (lo <= m < hi && t[m] == '\n')
    ensures forall j :: m < j < hi && lo <= j ==> t[j] != '\n'
    decreases hi
  {
    if hi == lo then -1
    else if t[hi - 1] == '\n' then hi - 1
    else LastNewline(t, lo, hi - 1)
  }

  /** The position at which `\s*$` stops on the closing line at `q`. */
  function ClosingStop(t: string, q: nat): (m: nat)
    requires IsClosing(t, q)
    ensures q + 3 <= m <= |t|
  {
    var run := SpaceRunEnd(t, q + 3);
    var k := SkipBlanks(t, q + 3);
    if run == |t| then |t|
    else
      assert k < run;
      LastNewline(t, q + 3, run)
  }

  /** The end of the whole match: after the line feed at which `$` held, if any. */
  function ClosingEnd(t: string, q: nat): (e: nat)
    requires IsClosing(t, q)
  {
    var m := ClosingStop(t, q);
    if m == |t| then m else m + 1
  }

  /** `ClosingStop` is the last place where `\s*$` can stop, which the greedy star tries first. */
  lemma ClosingStopIsGreedy(t: string, q: nat)
    requires IsClosing(t, q)
    ensures SpaceStop(t, q, ClosingStop(t, q))
    ensures forall m: nat :: SpaceStop(t, q, m) ==> m <= ClosingStop(t, q)
  {
    var i := q + 3;
    var run := SpaceRunEnd(t, i);
    var stop := ClosingStop(t, q);
    if run != |t| {
      assert stop < run;
      forall k | 0 <= k < stop - i
        ensures IsSpace(t[i..stop][k])
      {
        assert t[i..stop][k] == t[i..run][k];
      }
    }
    forall m: nat | SpaceStop(t, q, m)
      ensures m <= stop
    {
    }
  }

  // ---------------------------------------------------------------------------
  // The search.

  /** The first opening line at or after `i`. */
  function FindOpening(t: string, i: nat): (r: Option<nat>)
    requires i <= |t|
    ensures r.Some? ==> i <= r.value < |t| && IsOpening(t, r.value)
    ensures r.Some? ==> forall p :: i <= p < r.value ==> !IsOpening(t, p)
    ensures r.None? ==> forall p :: i <= p ==> !IsOpening(t, p)
    decreases |t| - i
  {
    if i == |t| then None
    else if IsOpening(t, i) then Some(i)
    else FindOpening(t, i + 1)
  }

  /** The first closing line at or after `i`. */
  function FindClosing(t: string, i: nat): (r: Option<nat>)
    requires i <= |t|
    ensures r.Some? ==> i <= r.value < |t| && IsClosing(t, r.value)
    ensures r.Some? ==> forall q :: i <= q < r.value ==> !IsClosing(t, q)
    ensures r.None? ==> forall q :: i <= q ==> !IsClosing(t, q)
    decreases |t| - i
  {
    if i == |t| then None
    else if IsClosing(t, i) then Some(i)
    else FindClosing(t, i + 1)
  }

  /**
   * A match: the header (Ruby's `$1`) is `t[start..close]`, the closing
   * delimiter (`$2`) is `t[close..end]`, and the post-match (`$'`) is `t[end..]`.
   */
  datatype Split = Split(start: nat, close: nat, end: nat)

  /** The match the regular expression reports: leftmost opening, then the nearest closing. */
  ghost predicate IsLeftmostMatch(t: string, s: Split) {
    && s.start < s.close
    && IsOpening(t, s.start)
    && IsClosing(t, s.close)
    && (forall p: nat :: p < s.start ==> !IsOpening(t, p))
    && (forall q: nat :: s.start < q < s.close ==> !IsClosing(t, q))
    && s.end == ClosingEnd(t, s.close)
  }

  /** The leftmost match is determined by the text. */
  lemma LeftmostMatchUnique(t: string, s1: Split, s2: Split)
    requires IsLeftmostMatch(t, s1) && IsLeftmostMatch(t, s2)
    ensures s1 == s2
  {
  }

  /** `$1`, `$2` and `$'` of the match, or None when the expression does not match. */
  function FindHeader(t: string): (r: Option<Split>)
    ensures r.Some? ==> IsLeftmostMatch(t, r.value)
    ensures r.Some? ==> r.value.close + 3 <= r.value.end <= |t|
    ensures r.None? ==> forall p: nat, q: nat :: p < q && IsOpening(t, p) ==> !IsClosing(t, q)
  {
    match FindOpening(t, 0)
    case None => None
    case Some(p) =>
      match FindClosing(t, p + 1)
      case None =>
        assert forall p': nat, q: nat :: p' < q && IsOpening(t, p') ==> !IsClosing(t, q) by {
          forall p': nat, q: nat | p' < q && IsOpening(t, p')
            ensures !IsClosing(t, q)
          {
            if p' > p {
              OpeningIsClosing(t, p');
            }
          }
        }
        None
      case Some(q) => Some(Split(p, q, ClosingEnd(t, q)))
  }

  /** The closing delimiter is `---` followed by whitespace only, up to the end of its match. */
  lemma ClosingDelimiterSpace(t: string, q: nat)
    requires IsClosing(t, q)
    ensures AllSpace(t[q + 3..ClosingEnd(t, q)])
    ensures ClosingEnd(t, q) == |t| || t[ClosingEnd(t, q) - 1] == '\n'
  {
    ClosingStopIsGreedy(t, q);
    var m := ClosingStop(t, q);
    if m < |t| {
      var w := t[q + 3..m + 1];
      forall k | 0 <= k < |w|
        ensures IsSpace(w[k])
      {
        if k < m - (q + 3) {
          assert w[k] == t[q + 3..m][k];
        }
      }
    }
  }

  /** What the delimiter lines look like and how the four parts make up the text. */
  lemma MatchParts(t: string, s: Split)
    requires s.close + 3 <= s.end <= |t|
    requires IsLeftmostMatch(t, s)
    ensures s.start + 4 <= s.close
    ensures t[s.start..s.start + 3] == "---" && AtLineStart(t, s.start)
    ensures t[s.close - 1] == '\n'
    ensures t[s.close..s.close + 3] == "---" && AllSpace(t[s.close + 3..s.end])
    ensures s.end == |t| || t[s.end - 1] == '\n'
    ensures t == t[..s.start] + t[s.start..s.close] + t[s.close..s.end] + t[s.end..]
  {
    ClosingDelimiterSpace(t, s.close);
    assert t[..s.start] + t[s.start..s.close] == t[..s.close];
    assert t[..s.close] + t[s.close..s.end] == t[..s.end];
    assert t[..s.end] + t[s.end..] == t;
  }

  /** No line of `h` begins with `---`, and `h` is empty or ends with a line feed. */
  ghost predicate PlainHeaderLines(h: string) {
    && (h == [] || h[|h| - 1] == '\n')
    && forall j :: 0 <= j && j + 3 <= |h| && AtLineStart(h, j) ==> h[j..j + 3] != "---"
  }

  /** `t` is `---`, the lines `h`, `---` and then `b`. */
  ghost predicate Layout(t: string, h: string, b: string) {
    && |t| == 8 + |h| + |b|
    && t[..4] == "---\n"
    && t[4..4 + |h|] == h
    && t[4 + |h|..8 + |h|] == "---\n"
    && t[8 + |h|..] == b
  }

  lemma LayoutOpening(t: string, h: string, b: string)
    requires Layout(t, h, b)
    ensures FindOpening(t, 0) == Some(0)
  {
    assert t[0..3] == t[..4][..3];
    assert t[3] == t[..4][3];
    assert SkipBlanks(t, 3) == 3;
  }

  lemma LayoutClosing(t: string, h: string, b: string)
    requires Layout(t, h, b) && PlainHeaderLines(h)
    ensures IsClosing(t, 4 + |h|)
  {
    var q := 4 + |h|;
    assert t[q - 1] == '\n' by {
      if h != [] {
        assert t[q - 1] == t[4..q][|h| - 1];
      } else {
        assert t[3] == t[..4][3];
      }
    }
    assert t[q..q + 3] == t[q..q + 4][..3];
    assert t[q + 3] == t[q..q + 4][3];
    assert SkipBlanks(t, q + 3) == q + 3;
  }

  lemma LayoutHeaderSlice(t: string, h: string, b: string, i: nat)
    requires Layout(t, h, b)
    requires i + 3 <= |h|
    ensures t[4 + i..7 + i] == h[i..i + 3]
  {
    var u, w := t[4 + i..7 + i], h[i..i + 3];
    forall k | 0 <= k < 3
      ensures u[k] == w[k]
    {
      assert t[4..4 + |h|][i + k] == t[4 + i + k];
    }
    assert u == w;
  }

  /** Line starts inside the header part of the layout are line starts of `h`. */
  lemma LayoutLineStart(t: string, h: string, b: string, i: nat)
    requires Layout(t, h, b)
    requires i < |h| && AtLineStart(t, 4 + i)
    ensures AtLineStart(h, i)
  {
    if i > 0 {
      assert t[3 + i] == t[4..4 + |h|][i - 1];
    }
  }

  /** The last line of `h` is too short to hold `---` together with its line feed. */
  lemma LayoutShortLine(t: string, h: string, b: string, i: nat)
    requires Layout(t, h, b) && PlainHeaderLines(h)
    requires i < |h| < i + 3
    ensures t[4 + i..7 + i] != "---"
  {
    assert t[4 + |h| - 1] == t[4..4 + |h|][|h| - 1];
    assert t[4 + i..7 + i][|h| - 1 - i] == t[4 + |h| - 1];
  }

  lemma LayoutNoEarlyClosing(t: string, h: string, b: string, j: nat)
    requires Layout(t, h, b) && PlainHeaderLines(h)
    requires 1 <= j < 4 + |h|
    ensures !IsClosing(t, j)
  {
    if j < 4 {
      assert t[j - 1] == t[..4][j - 1];
    } else if AtLineStart(t, j) {
      var i: nat := j - 4;
      LayoutLineStart(t, h, b, i);
      if i + 3 <= |h| {
        LayoutHeaderSlice(t, h, b, i);
      } else {
        LayoutShortLine(t, h, b, i);
      }
    }
  }

  lemma LayoutEnd(t: string, h: string, b: string)
    requires Layout(t, h, b) && PlainHeaderLines(h)
    requires b == [] || !IsSpace(b[0])
    ensures IsClosing(t, 4 + |h|) && ClosingEnd(t, 4 + |h|) == 8 + |h|
  {
    LayoutClosing(t, h, b);
    var q := 4 + |h|;
    assert t[q + 3] == t[q..q + 4][3];
    assert SpaceRunEnd(t, q + 4) == q + 4 by {
      if b != [] {
        assert t[q + 4] == t[q + 4..][0];
      }
    }
    assert SpaceRunEnd(t, q + 3) == q + 4;
    if b != [] {
      assert LastNewline(t, q + 3, q + 4) == q + 3;
    }
  }

  /**
   * A post that is `---`, header lines, `---` and a body not starting with
   * whitespace: the header is `"---\n" + h` and the content is exactly the body.
   */
  lemma PlainPost(h: string, b: string)
    requires PlainHeaderLines(h)
    requires b == [] || !IsSpace(b[0])
    ensures var t := "---\n" + h + "---\n" + b;
      FindHeader(t) == Some(Split(0, 4 + |h|, 8 + |h|)) &&
      t[0..4 + |h|] == "---\n" + h && t[8 + |h|..] == b
  {
    var t := "---\n" + h + "---\n" + b;
    var q := 4 + |h|;
    assert Layout(t, h, b);
    LayoutOpening(t, h, b);
    LayoutEnd(t, h, b);
    forall j: nat | 1 <= j < q
      ensures !IsClosing(t, j)
    {
      LayoutNoEarlyClosing(t, h, b, j);
    }
    assert FindClosing(t, 1) == Some(q);
  }

  /** A header without any `-` has no line that begins with `---`. */
  lemma DashFreeHeader(h: string)
    requires '-' !in h
    requires h == [] || h[|h| - 1] == '\n'
    ensures PlainHeaderLines(h)
  {
    forall j | 0 <= j && j + 3 <= |h| && AtLineStart(h, j)
      ensures h[j..j + 3] != "---"
    {
      assert h[j..j + 3][0] == h[j];
    }
  }
}
