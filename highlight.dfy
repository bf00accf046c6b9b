/**
 * The token substitution of `Article#format_article`:
 * `content.gsub(Regexp.union(map.keys), map)` over the two-entry map
 * `{% highlight text %}` => `<pre>` and `{% endhighlight %}` => `</pre>`.
 */
module Highlight {

  const OpenMarker: string := "{% highlight text %}"
  const CloseMarker: string := "{% endhighlight %}"
  const PreOpen: string := "<pre>"
  const PreClose: string := "</pre>"

  predicate StartsWith(s: string, w: string) {
    |w| <= |s| && s[..|w|] == w
  }

  /** One of the two markers begins at position `k` of `s`. */
  predicate MarkerAt(s: string, k: nat)
    requires k <= |s|
  {
    StartsWith(s[k..], OpenMarker) || StartsWith(s[k..], CloseMarker)
  }

  /** No marker begins anywhere in `s`. */
  predicate NoMarker(s: string) {
    forall k :: 0 <= k < |s| ==> !MarkerAt(s, k)
  }

  /**
   * A left-to-right scan: at each position the alternatives are tried in the
   * order of the map's keys; a match is replaced and the scan resumes after it,
   * any other character is copied.
   */
  function Substitute(s: string): (r: string)
    ensures |r| <= |s|
    decreases |s|
  {
    if s == [] then []
    else if StartsWith(s, OpenMarker) then PreOpen + Substitute(s[|OpenMarker|..])
    else if StartsWith(s, CloseMarker) then PreClose + Substitute(s[|CloseMarker|..])
    else [s[0]] + Substitute(s[1..])
  }

  /** The characters of the markers and replacements that the proofs rely on. */
  lemma TokenFacts()
    ensures |OpenMarker| == 20 && |CloseMarker| == 18
    ensures '<' !in OpenMarker && '<' !in CloseMarker
    ensures PreOpen[0] == '<' && PreClose[0] == '<'
    ensures '{' !in PreOpen && '{' !in PreClose
    ensures OpenMarker[0] == '{' && CloseMarker[0] == '{'
  {
  }

  /** A marker begins with `{`. */
  lemma MarkerHead(s: string, k: nat)
    requires k <= |s| && MarkerAt(s, k)
    ensures k < |s| && s[k] == '{'
  {
    TokenFacts();
    assert s[k..][0] == s[k];
  }

  /** Dropping the first character moves every marker one place to the left. */
  lemma MarkerShift(s: string, k: nat)
    requires 0 < k <= |s|
    ensures MarkerAt(s, k) == MarkerAt(s[1..], k - 1)
  {
    assert s[k..] == s[1..][k - 1..];
  }

  /** One step of the scan over a character that does not begin a marker. */
  lemma CopyStep(s: string)
    requires s != [] && !MarkerAt(s, 0)
    ensures Substitute(s) == [s[0]] + Substitute(s[1..])
  {
    assert s[0..] == s;
  }

  /** Text in which no marker begins is copied unchanged in front of the rest. */
  lemma {:induction false} PlainPrefixCopied(u: string, v: string)
    requires forall k :: 0 <= k < |u| ==> !MarkerAt(u + v, k)
    ensures Substitute(u + v) == u + Substitute(v)
  {
    if u != [] {
      var s := u + v;
      assert !MarkerAt(s, 0);
      CopyStep(s);
      assert s[0] == u[0] && s[1..] == u[1..] + v;
      forall k | 0 <= k < |u[1..]|
        ensures !MarkerAt(u[1..] + v, k)
      {
        assert !MarkerAt(s, k + 1);
        MarkerShift(s, k + 1);
      }
      PlainPrefixCopied(u[1..], v);
      calc {
        Substitute(s);
        [u[0]] + Substitute(u[1..] + v);
        [u[0]] + (u[1..] + Substitute(v));
        { assert u == [u[0]] + u[1..]; }
        u + Substitute(v);
      }
    } else {
      assert u + v == v;
    }
  }

  /** A body with neither marker passes through unchanged, and only such a body does. */
  lemma {:induction false} UnchangedIffNoMarker(s: string)
    ensures Substitute(s) == s <==> NoMarker(s)
  {
    if NoMarker(s) {
      assert s + [] == s;
      PlainPrefixCopied(s, []);
    } else {
      var k :| 0 <= k < |s| && MarkerAt(s, k);
      ShorterWithMarker(s, k);
    }
  }

  /** Every replacement is shorter than its marker. */
  lemma {:induction false} ShorterWithMarker(s: string, k: nat)
    requires k < |s| && MarkerAt(s, k)
    ensures |Substitute(s)| < |s|
    decreases |s|
  {
    TokenFacts();
    if !StartsWith(s, OpenMarker) && !StartsWith(s, CloseMarker) {
      assert s[0..] == s;
      MarkerShift(s, k);
      ShorterWithMarker(s[1..], k - 1);
    }
  }

  /** A prefix of the output that holds no `<` was copied from the input. */
  lemma {:induction false} PlainOutputPrefix(x: string, w: string)
    requires '<' !in w
    ensures StartsWith(Substitute(x), w) ==> StartsWith(x, w)
    decreases |x|
  {
    TokenFacts();
    var r := Substitute(x);
    if w == [] || x == [] {
    } else if StartsWith(x, OpenMarker) || StartsWith(x, CloseMarker) {
      assert r[0] == '<' && w[0] != '<';
    } else {
      var rest := Substitute(x[1..]);
      assert r == [x[0]] + rest;
      if StartsWith(r, w) {
        assert StartsWith(rest, w[1..]) by {
          assert rest[..|w| - 1] == r[1..|w|];
        }
        PlainOutputPrefix(x[1..], w[1..]);
        assert x[..|w|] == [x[0]] + x[1..][..|w| - 1];
      }
    }
  }

  /** A marker at the head of the output would have been a marker at the head of the input. */
  lemma HeadNotMarker(x: string, m: string)
    requires m == OpenMarker || m == CloseMarker
    requires x != [] && !MarkerAt(x, 0)
    ensures !StartsWith(Substitute(x), m)
  {
    TokenFacts();
    CopyStep(x);
    var r := Substitute(x);
    var rest := Substitute(x[1..]);
    if StartsWith(r, m) {
      assert '<' !in m[1..];
      assert StartsWith(rest, m[1..]) by {
        assert rest[..|m| - 1] == r[1..|m|];
      }
      PlainOutputPrefix(x[1..], m[1..]);
      assert false;
    }
  }

  /** No marker is left in the output. */
  lemma {:induction false} NoMarkerRemains(s: string)
    ensures NoMarker(Substitute(s))
    decreases |s|
  {
    TokenFacts();
    var r := Substitute(s);
    if s != [] {
      var rest, piece;
      if StartsWith(s, OpenMarker) {
        rest, piece := s[|OpenMarker|..], PreOpen;
      } else if StartsWith(s, CloseMarker) {
        rest, piece := s[|CloseMarker|..], PreClose;
      } else {
        rest, piece := s[1..], [];
        assert s[0..] == s;
      }
      NoMarkerRemains(rest);
      var out := Substitute(rest);
      assert piece == [] ==> r == [s[0]] + out;
      assert piece != [] ==> r == piece + out;
      forall k | 0 <= k < |r|
        ensures !MarkerAt(r, k)
      {
        if piece == [] && k == 0 {
          assert r[0..] == r;
          HeadNotMarker(s, OpenMarker);
          HeadNotMarker(s, CloseMarker);
          assert !MarkerAt(r, 0);
        } else if piece == [] {
          assert r[k..] == out[k - 1..];
          assert !MarkerAt(out, k - 1);
        } else if k < |piece| {
          assert r[k] == piece[k] && piece[k] in piece;
          if MarkerAt(r, k) {
            MarkerHead(r, k);
            assert false;
          }
        } else {
          assert r[k..] == out[k - |piece|..];
          assert !MarkerAt(out, k - |piece|);
        }
      }
    }
  }

  /** Text without `{` holds no marker. */
  lemma BraceFreeNoMarker(s: string)
    requires '{' !in s
    ensures NoMarker(s)
  {
    forall k | 0 <= k < |s| && MarkerAt(s, k)
      ensures false
    {
      MarkerHead(s, k);
    }
  }

  /** The replacement of each marker. */
  function Replacement(m: string): string
    requires m == OpenMarker || m == CloseMarker
  {
    if m == OpenMarker then PreOpen else PreClose
  }

  /** One step of the scan over a marker. */
  lemma MarkerStep(m: string, v: string)
    requires m == OpenMarker || m == CloseMarker
    ensures Substitute(m + v) == Replacement(m) + Substitute(v)
  {
    var s := m + v;
    assert s[..|m|] == m && s[|m|..] == v;
    if m == CloseMarker {
      assert |s| >= |OpenMarker| ==> s[..|OpenMarker|][3] != OpenMarker[3] by {
        if |s| >= |OpenMarker| {
          assert s[..|OpenMarker|][3] == m[3];
        }
      }
      assert !StartsWith(s, OpenMarker);
    }
  }

  /** The first marker after marker-free text is replaced, and the scan goes on after it. */
  lemma {:induction false} FirstMarkerReplaced(u: string, m: string, v: string)
    requires m == OpenMarker || m == CloseMarker
    requires forall k :: 0 <= k < |u| ==> !MarkerAt(u + m + v, k)
    ensures Substitute(u + m + v) == u + Replacement(m) + Substitute(v)
  {
    assert u + m + v == u + (m + v);
    PlainPrefixCopied(u, m + v);
    MarkerStep(m, v);
  }
}
