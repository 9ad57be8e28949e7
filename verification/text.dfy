/**
 * The string primitives `split_into_chunks` relies on: Python's notion of
 * whitespace, `str.strip()`, `str.split()` with no argument, and
 * `sep.join(...)`.
 */
module Text {
  import Seqs

  /**
   * `str.isspace()` for one character, which is also what `\s` matches in a
   * `str` pattern: the ASCII controls TAB to CR and FS to US, SPACE, NEL,
   * NO-BREAK SPACE, OGHAM SPACE MARK, EN QUAD to HAIR SPACE, LINE and
   * PARAGRAPH SEPARATOR, NARROW NO-BREAK SPACE, MEDIUM MATHEMATICAL SPACE and
   * IDEOGRAPHIC SPACE.
   */
  predicate IsSpace(c: char) {
    ('\t' <= c <= '\r') || ('\U{1C}' <= c <= ' ') || c == '\U{85}' || c == '\U{A0}' ||
    c == '\U{1680}' || ('\U{2000}' <= c <= '\U{200A}') || c == '\U{2028}' || c == '\U{2029}' ||
    c == '\U{202F}' || c == '\U{205F}' || c == '\U{3000}'
  }

  predicate AllSpace(s: string) {
    forall i :: 0 <= i < |s| ==> IsSpace(s[i])
  }

  predicate NoSpace(s: string) {
    forall i :: 0 <= i < |s| ==> !IsSpace(s[i])
  }

  // ---------------------------------------------------------------------
  // str.strip()
  // ---------------------------------------------------------------------

  /** The end of the whitespace run of s that starts at position i. */
  function SpaceEnd(s: string, i: nat): (j: nat)
    requires i <= |s|
    ensures i <= j <= |s|
    ensures forall k :: i <= k < j ==> IsSpace(s[k])
    ensures j < |s| ==> !IsSpace(s[j])
    decreases |s| - i
  {
    if i < |s| && IsSpace(s[i]) then SpaceEnd(s, i + 1) else i
  }

  /** The start of the whitespace run of s that ends at position j. */
  function SpaceStart(s: string, j: nat): (i: nat)
    requires j <= |s|
    ensures i <= j
    ensures forall k :: i <= k < j ==> IsSpace(s[k])
    ensures i > 0 ==> !IsSpace(s[i - 1])
    decreases j
  {
    if j > 0 && IsSpace(s[j - 1]) then SpaceStart(s, j - 1) else j
  }

  /** The whitespace run from i reaches at least k when everything from i to k is whitespace. */
  lemma {:induction false} SpaceEndAtLeast(s: string, i: nat, k: nat)
    requires i <= k <= |s|
    requires forall m :: i <= m < k ==> IsSpace(s[m])
    ensures SpaceEnd(s, i) >= k
    decreases k - i
  {
    if i < k {
      SpaceEndAtLeast(s, i + 1, k);
    }
  }

  /**
   * `s.strip()`: the part of s between its leading and trailing whitespace.
   * The result is a slice of s, what was cut off on either side is
   * whitespace, and the result neither starts nor ends with whitespace.
   */
  function Strip(s: string): (r: string)
    ensures |r| <= |s|
    ensures exists i :: 0 <= i <= |s| - |r| && s[i..i + |r|] == r && AllSpace(s[..i]) && AllSpace(s[i + |r|..])
    ensures |r| > 0 ==> !IsSpace(r[0]) && !IsSpace(r[|r| - 1])
  {
    var i := SpaceEnd(s, 0);
    var j := StripEnd(s, i);
    StripBounds(s, i, j);
    var r := s[i..j];
    assert i + |r| == j && s[i..i + |r|] == r;
    assert AllSpace(s[..i]) && AllSpace(s[i + |r|..]);
    assert |r| > 0 ==> r[0] == s[i] && r[|r| - 1] == s[j - 1];
    r
  }

  /** Where the stripped text ends, given where it starts: nothing is left when the text is all whitespace. */
  function StripEnd(s: string, i: nat): nat
    requires i <= |s|
  {
    if i == |s| then i else SpaceStart(s, |s|)
  }

  /** The cut points of `Strip`: whitespace before and after, and visible characters at both ends of what is kept. */
  lemma StripBounds(s: string, i: nat, j: nat)
    requires i == SpaceEnd(s, 0) && j == StripEnd(s, i)
    ensures i <= j <= |s|
    ensures AllSpace(s[..i]) && AllSpace(s[j..])
    ensures i < j ==> !IsSpace(s[i]) && !IsSpace(s[j - 1])
  {
    assert forall m :: 0 <= m < i ==> s[..i][m] == s[m];
    assert forall m :: 0 <= m < |s| - j ==> s[j..][m] == s[j + m];
  }

  /** Stripping leaves nothing exactly when the text is all whitespace. */
  lemma StripEmpty(s: string)
    ensures Strip(s) == "" <==> AllSpace(s)
  {
    var i := SpaceEnd(s, 0);
    var j := StripEnd(s, i);
    StripBounds(s, i, j);
    assert Strip(s) == s[i..j];
    if i == |s| {
      assert s[..i] == s;
    } else {
      assert !IsSpace(s[i]);
    }
  }

  /** A text that neither starts nor ends with whitespace is its own strip. */
  lemma StripTrimmed(s: string)
    requires |s| > 0 ==> !IsSpace(s[0]) && !IsSpace(s[|s| - 1])
    ensures Strip(s) == s
  {
    assert SpaceEnd(s, 0) == 0;
    if |s| > 0 {
      assert SpaceStart(s, |s|) == |s|;
    }
    assert s[0..|s|] == s;
  }

  /** `s.strip().strip() == s.strip()`. */
  lemma StripIdempotent(s: string)
    ensures Strip(Strip(s)) == Strip(s)
  {
    StripTrimmed(Strip(s));
  }

  // ---------------------------------------------------------------------
  // str.split()
  // ---------------------------------------------------------------------

  /** Length of the leading run of non-whitespace characters. */
  function WordLen(s: string): (n: nat)
    ensures n <= |s| && NoSpace(s[..n])
    ensures n < |s| ==> IsSpace(s[n])
    decreases |s|
  {
    if |s| > 0 && !IsSpace(s[0]) then
      var n := 1 + WordLen(s[1..]);
      assert s[..n] == [s[0]] + s[1..][..n - 1];
      n
    else 0
  }

  lemma {:induction false} WordLenIs(s: string, k: nat)
    requires k <= |s| && NoSpace(s[..k])
    requires k < |s| ==> IsSpace(s[k])
    ensures WordLen(s) == k
    decreases k
  {
    if k > 0 {
      assert s[1..][..k - 1] == s[1..k];
      assert s[..k][0] == s[0];
      WordLenIs(s[1..], k - 1);
    }
  }

  /** `s.split()`: the maximal runs of non-whitespace characters, in order; each word is non-empty and holds no whitespace. */
  function Words(s: string): (r: seq<string>)
    ensures forall k :: 0 <= k < |r| ==> |r[k]| > 0 && NoSpace(r[k])
    decreases |s|
  {
    if |s| == 0 then []
    else if IsSpace(s[0]) then Words(s[1..])
    else
      var n := WordLen(s);
      var rest := Words(s[n..]);
      var r := [s[..n]] + rest;
      assert forall k :: 1 <= k < |r| ==> r[k] == rest[k - 1];
      r
  }

  /** `len(s.split())`. */
  function WordCount(s: string): nat {
    |Words(s)|
  }

  function Concat(ws: seq<string>): string {
    if |ws| == 0 then "" else ws[0] + Concat(ws[1..])
  }

  /** The non-whitespace characters of s, in order. */
  function Visible(s: string): (r: string)
    ensures NoSpace(r)
  {
    if |s| == 0 then ""
    else if IsSpace(s[0]) then Visible(s[1..])
    else [s[0]] + Visible(s[1..])
  }

  lemma {:induction false} ConcatAppend(a: seq<string>, b: seq<string>)
    ensures Concat(a + b) == Concat(a) + Concat(b)
    decreases |a|
  {
    if |a| > 0 {
      assert (a + b)[0] == a[0];
      assert (a + b)[1..] == a[1..] + b;
      ConcatAppend(a[1..], b);
      assert a[0] + (Concat(a[1..]) + Concat(b)) == (a[0] + Concat(a[1..])) + Concat(b);
    } else {
      assert a + b == b;
    }
  }

  lemma {:induction false} VisibleAppend(a: string, b: string)
    ensures Visible(a + b) == Visible(a) + Visible(b)
    decreases |a|
  {
    if |a| > 0 {
      assert (a + b)[0] == a[0];
      assert (a + b)[1..] == a[1..] + b;
      VisibleAppend(a[1..], b);
      assert [a[0]] + (Visible(a[1..]) + Visible(b)) == ([a[0]] + Visible(a[1..])) + Visible(b);
    } else {
      assert a + b == b;
    }
  }

  lemma {:induction false} VisibleOfWord(w: string)
    requires NoSpace(w)
    ensures Visible(w) == w
    decreases |w|
  {
    if |w| > 0 {
      VisibleOfWord(w[1..]);
      assert w == [w[0]] + w[1..];
    }
  }

  /** Splitting drops the whitespace and nothing else. */
  lemma {:induction false} WordsVisible(s: string)
    ensures Concat(Words(s)) == Visible(s)
    decreases |s|
  {
    if |s| > 0 {
      if IsSpace(s[0]) {
        WordsVisible(s[1..]);
      } else {
        var n := WordLen(s);
        WordsVisible(s[n..]);
        VisibleOfWord(s[..n]);
        assert s == s[..n] + s[n..];
        VisibleAppend(s[..n], s[n..]);
      }
    }
  }

  /** A whitespace-free, non-empty text is one word. */
  lemma WordsOfWord(w: string)
    requires |w| > 0 && NoSpace(w)
    ensures Words(w) == [w]
  {
    assert w[..|w|] == w;
    WordLenIs(w, |w|);
    assert w[|w|..] == "";
  }

  /** Leading whitespace does not change the words. */
  lemma {:induction false} WordsSkipSpace(a: string, b: string)
    requires AllSpace(a)
    ensures Words(a + b) == Words(b)
    decreases |a|
  {
    if |a| > 0 {
      assert (a + b)[0] == a[0];
      assert (a + b)[1..] == a[1..] + b;
      WordsSkipSpace(a[1..], b);
    } else {
      assert a + b == b;
    }
  }

  /** A word followed by whitespace: the word is read whole. */
  lemma {:induction false} WordsAfterWord(w: string, c: char, b: string)
    requires NoSpace(w) && IsSpace(c)
    ensures Words(w + [c] + b) == (if |w| > 0 then [w] else []) + Words(b)
    decreases |w|
  {
    var s := w + [c] + b;
    if |w| == 0 {
      assert s == [c] + b;
      assert s[1..] == b;
    } else {
      assert s[..|w|] == w;
      WordLenIs(s, |w|);
      assert s[|w|..] == [c] + b;
      assert ([c] + b)[1..] == b;
    }
  }

  /**
   * Splitting at a whitespace character splits the words: whitespace
   * separates words and is never part of one.
   */
  lemma {:induction false} WordsSplitAt(a: string, c: char, b: string)
    requires IsSpace(c)
    ensures Words(a + [c] + b) == Words(a) + Words(b)
    decreases |a|
  {
    if |a| == 0 {
      assert a + [c] + b == [c] + b;
      assert ([c] + b)[1..] == b;
    } else if IsSpace(a[0]) {
      WordsSplitAt(a[1..], c, b);
      SplitAtSpace(a, c, b);
    } else {
      var n := WordLen(a);
      if n == |a| {
        assert a[..n] == a;
        WordsAfterWord(a, c, b);
        WordsOfWord(a);
      } else {
        WordsSplitAt(a[n..], c, b);
        SplitAtWord(a, c, b, n);
      }
    }
  }

  lemma SplitAtSpace(a: string, c: char, b: string)
    requires |a| > 0 && IsSpace(a[0])
    requires Words(a[1..] + [c] + b) == Words(a[1..]) + Words(b)
    ensures Words(a + [c] + b) == Words(a) + Words(b)
  {
    var s := a + [c] + b;
    assert s[0] == a[0];
    assert s[1..] == a[1..] + [c] + b;
    assert Words(s) == Words(a[1..] + [c] + b);
    assert Words(a) == Words(a[1..]);
  }

  lemma SplitAtWord(a: string, c: char, b: string, n: nat)
    requires IsSpace(c) && |a| > 0 && !IsSpace(a[0]) && n == WordLen(a) < |a|
    requires Words(a[n..] + [c] + b) == Words(a[n..]) + Words(b)
    ensures Words(a + [c] + b) == Words(a) + Words(b)
  {
    var s := a + [c] + b;
    assert s[0] == a[0];
    assert s[..n] == a[..n];
    assert s[n] == a[n];
    WordLenIs(s, n);
    assert s[n..] == a[n..] + [c] + b;
    calc {
      Words(s);
      [a[..n]] + Words(a[n..] + [c] + b);
      [a[..n]] + (Words(a[n..]) + Words(b));
      { Seqs.Assoc([a[..n]], Words(a[n..]), Words(b)); }
      ([a[..n]] + Words(a[n..])) + Words(b);
      Words(a) + Words(b);
    }
  }

  // ---------------------------------------------------------------------
  // sep.join(...)
  // ---------------------------------------------------------------------

  /** `sep.join(ps)`. */
  function Join(ps: seq<string>, sep: string): (r: string)
    ensures |ps| == 0 ==> r == ""
    ensures |ps| > 0 ==> ps[0] <= r
    decreases |ps|
  {
    if |ps| == 0 then ""
    else if |ps| == 1 then ps[0]
    else ps[0] + sep + Join(ps[1..], sep)
  }

  /** Joining two non-empty lists puts one separator between the two joins. */
  lemma {:induction false} JoinAppend(a: seq<string>, b: seq<string>, sep: string)
    requires |a| > 0 && |b| > 0
    ensures Join(a + b, sep) == Join(a, sep) + sep + Join(b, sep)
    decreases |a|
  {
    if |a| == 1 {
      assert (a + b)[1..] == b;
    } else {
      assert (a + b)[1..] == a[1..] + b;
      JoinAppend(a[1..], b, sep);
    }
  }

  /** The length of a join: the parts plus one separator between each two. */
  lemma {:induction false} JoinLength(ps: seq<string>, sep: string)
    requires |ps| > 0
    ensures |Join(ps, sep)| == |Concat(ps)| + (|ps| - 1) * |sep|
    decreases |ps|
  {
    if |ps| > 1 {
      JoinLength(ps[1..], sep);
    }
  }
}
