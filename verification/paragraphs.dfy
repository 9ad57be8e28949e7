/**
 * `re.split(r'\n\s*\n', text)`: cutting a text into paragraphs at blank
 * lines.
 *
 * The pattern matches a newline, a whitespace run and a second newline. It
 * is tried at each position from left to right; at a position where it
 * matches, `\s*` first takes the whole whitespace run after the first
 * newline and then gives characters back until the match can end on a
 * newline, so the match ends at the LAST newline of that run. The search
 * resumes after the match. `Split` returns the pieces between matches and
 * `Seps` the matched separators.
 */
module Paragraphs {
  import opened Text

  /** What one match of `\n\s*\n` can be: newline, whitespace, newline. */
  predicate IsBlankSep(sep: string) {
    |sep| >= 2 && sep[0] == '\n' && sep[|sep| - 1] == '\n' && AllSpace(sep)
  }

  /** Positions p < q of s hold newlines with only whitespace between them. */
  predicate BlankLineAt(s: string, p: int, q: int) {
    0 <= p < q < |s| && s[p] == '\n' && s[q] == '\n' && AllSpace(s[p + 1..q])
  }

  /** s contains a blank line. */
  predicate HasBlankLine(s: string) {
    exists p, q :: 0 <= p < q < |s| && BlankLineAt(s, p, q)
  }

  /** Position p of s holds a newline followed by nothing but whitespace. */
  predicate OpenEndAt(s: string, p: int) {
    0 <= p < |s| && s[p] == '\n' && AllSpace(s[p + 1..])
  }

  /** s ends with a newline followed by nothing but whitespace. */
  predicate OpenEnd(s: string) {
    exists p :: 0 <= p < |s| && OpenEndAt(s, p)
  }

  /** Position q of s holds a newline preceded by nothing but whitespace. */
  predicate OpenStartAt(s: string, q: int) {
    0 <= q < |s| && s[q] == '\n' && AllSpace(s[..q])
  }

  /** s starts with whitespace that reaches a newline. */
  predicate OpenStart(s: string) {
    exists q :: 0 <= q < |s| && OpenStartAt(s, q)
  }

  /** Index of the last newline in s[..e], or -1. */
  function LastNewline(s: string, e: nat): (q: int)
    requires e <= |s|
    ensures -1 <= q < e
    ensures q >= 0 ==> s[q] == '\n'
    ensures forall k :: q < k < e ==> s[k] != '\n'
    decreases e
  {
    if e == 0 then -1
    else if s[e - 1] == '\n' then e - 1
    else LastNewline(s, e - 1)
  }

  /** Length of the match of `\n\s*\n` at the start of s, or 0 when it does not match there. */
  function MatchLen(s: string): (n: nat)
    ensures n == 0 || (2 <= n <= |s| && IsBlankSep(s[..n]))
  {
    if |s| > 0 && s[0] == '\n' then
      var e := SpaceEnd(s, 1);
      var q := LastNewline(s, e);
      if q >= 1 then q + 1 else 0
    else 0
  }

  /** The first position at or after p where the pattern matches, or |s| when there is none. */
  function Find(s: string, p: nat): (r: nat)
    requires p <= |s|
    ensures p <= r <= |s|
    ensures r < |s| ==> MatchLen(s[r..]) > 0
    decreases |s| - p
  {
    if p == |s| then p
    else if MatchLen(s[p..]) > 0 then p
    else Find(s, p + 1)
  }

  /** The search passes over no match: the pattern matches nowhere between p and what it finds. */
  lemma {:induction false} FindSkips(s: string, p: nat)
    requires p <= |s|
    ensures forall k :: p <= k < Find(s, p) ==> MatchLen(s[k..]) == 0
    decreases |s| - p
  {
    if p < |s| && MatchLen(s[p..]) == 0 {
      FindSkips(s, p + 1);
    }
  }

  /** The pieces of a split and the separators between them. */
  datatype Cut = Cut(pieces: seq<string>, seps: seq<string>)

  /** `re.split(r'\n\s*\n', s)`, keeping the separators it consumes as well as the pieces. */
  function Cuts(s: string): (r: Cut)
    ensures |r.pieces| == |r.seps| + 1
    ensures r.pieces[0] <= s
    decreases |s|, 1
  {
    var p := Find(s, 0);
    if p == |s| then Cut([s], []) else CutAfter(s, p, MatchLen(s[p..]))
  }

  /** The split of s whose first match is the n characters at p: the piece before it, the match, and the split of the rest. */
  function CutAfter(s: string, p: nat, n: nat): (r: Cut)
    requires 0 < n && p + n <= |s|
    ensures |r.pieces| == |r.seps| + 1
    ensures r.pieces[0] == s[..p]
    decreases |s| - p - n, 2
  {
    var c := Cuts(s[p + n..]);
    Cut([s[..p]] + c.pieces, [s[p..p + n]] + c.seps)
  }

  /** The pieces of `re.split(r'\n\s*\n', s)`: one more than the separators, the first a prefix of s. */
  function Split(s: string): (r: seq<string>)
    ensures |r| == |Seps(s)| + 1 && r[0] <= s
  {
    Cuts(s).pieces
  }

  /** The separators the split consumed, one between each two pieces. */
  function Seps(s: string): seq<string> {
    Cuts(s).seps
  }

  /** The pieces with the separators put back between them. */
  function Interleave(ps: seq<string>, ss: seq<string>): string
    requires |ps| == |ss| + 1
    decreases |ss|
  {
    if |ss| == 0 then ps[0] else ps[0] + ss[0] + Interleave(ps[1..], ss[1..])
  }

  // ---------------------------------------------------------------------
  // The match
  // ---------------------------------------------------------------------

  /** The pattern matches at the start of s whenever a blank line starts there, and then reaches at least that line's end. */
  lemma MatchFound(s: string, q: nat)
    requires 1 <= q < |s| && s[0] == '\n' && s[q] == '\n'
    ensures AllSpace(s[1..q]) ==> MatchLen(s) >= q + 1
  {
    if AllSpace(s[1..q]) {
      assert forall m :: 1 <= m < q ==> s[m] == s[1..q][m - 1];
      SpaceEndAtLeast(s, 1, q + 1);
    }
  }

  /** After a match, whitespace up to a newline cannot follow: `\s*` took the run up to its last newline. */
  lemma MatchGreedy(s: string)
    requires MatchLen(s) > 0
    ensures !OpenStart(s[MatchLen(s)..])
  {
    var n := MatchLen(s);
    var rest := s[n..];
    var e := SpaceEnd(s, 1);
    assert n == LastNewline(s, e) + 1;
    forall q | 0 <= q < |rest| && rest[q] == '\n'
      ensures !AllSpace(rest[..q])
    {
      assert s[n + q] == '\n';
      assert e < n + q;
      assert rest[..q][e - n] == s[e];
    }
  }

  /** A piece that ends before the separator found at p: a match cannot start inside it. */
  lemma NoMatchBefore(s: string, p: nat)
    requires p <= |s|
    requires forall k :: 0 <= k < p ==> MatchLen(s[k..]) == 0
    ensures !HasBlankLine(s[..p])
    ensures p < |s| && s[p] == '\n' ==> !OpenEnd(s[..p])
  {
    var a := s[..p];
    forall i, j | 0 <= i < j < |a| && a[i] == '\n' && a[j] == '\n'
      ensures !AllSpace(a[i + 1..j])
    {
      assert s[i..][1..j - i] == a[i + 1..j];
      MatchFound(s[i..], j - i);
    }
    if p < |s| && s[p] == '\n' {
      forall i | 0 <= i < |a| && a[i] == '\n'
        ensures !AllSpace(a[i + 1..])
      {
        assert s[i..][1..p - i] == a[i + 1..];
        MatchFound(s[i..], p - i);
      }
    }
  }

  // ---------------------------------------------------------------------
  // What the split promises
  // ---------------------------------------------------------------------

  lemma ThreeParts(s: string, i: nat, j: nat)
    requires i <= j <= |s|
    ensures s == s[..i] + s[i..j] + s[j..]
  {
  }

  /** One step of the split: the piece before the first match, the match, and the split of what follows. */
  lemma CutsStep(s: string, p: nat, n: nat)
    requires p == Find(s, 0) < |s| && n == MatchLen(s[p..])
    ensures Split(s) == [s[..p]] + Split(s[p + n..]) && Seps(s) == [s[p..p + n]] + Seps(s[p + n..])
  {
    CutsFirst(s, p, n);
    CutAfterParts(s, p, n);
  }

  lemma CutsFirst(s: string, p: nat, n: nat)
    requires p == Find(s, 0) < |s| && n == MatchLen(s[p..])
    ensures Cuts(s) == CutAfter(s, p, n)
  {
  }

  lemma CutAfterParts(s: string, p: nat, n: nat)
    requires 0 < n && p + n <= |s|
    ensures CutAfter(s, p, n).pieces == [s[..p]] + Split(s[p + n..])
    ensures CutAfter(s, p, n).seps == [s[p..p + n]] + Seps(s[p + n..])
  {
  }

  /** Putting the separators back between the pieces gives the text: nothing is lost or reordered. */
  lemma {:induction false} SplitRebuild(s: string)
    ensures Interleave(Split(s), Seps(s)) == s
    decreases |s|
  {
    var p := Find(s, 0);
    if p < |s| {
      var n := MatchLen(s[p..]);
      var rest := s[p + n..];
      CutsStep(s, p, n);
      SplitRebuild(rest);
      RebuildStep(s, p, n, Split(rest), Seps(rest));
    }
  }

  lemma RebuildStep(s: string, p: nat, n: nat, ps: seq<string>, ss: seq<string>)
    requires p + n <= |s| && |ps| == |ss| + 1 && Interleave(ps, ss) == s[p + n..]
    ensures Interleave([s[..p]] + ps, [s[p..p + n]] + ss) == s
  {
    var ps', ss' := [s[..p]] + ps, [s[p..p + n]] + ss;
    assert ps'[1..] == ps && ss'[1..] == ss;
    calc {
      Interleave(ps', ss');
      s[..p] + s[p..p + n] + Interleave(ps, ss);
      s[..p] + s[p..p + n] + s[p + n..];
      { ThreeParts(s, p, p + n); }
      s;
    }
  }

  /** Every separator is a blank-line run: newline, whitespace, newline. */
  lemma {:induction false} SplitSeparators(s: string)
    ensures forall k :: 0 <= k < |Seps(s)| ==> IsBlankSep(Seps(s)[k])
    decreases |s|
  {
    var p := Find(s, 0);
    if p < |s| {
      var n := MatchLen(s[p..]);
      CutsStep(s, p, n);
      SplitSeparators(s[p + n..]);
      MatchSep(s, p, n);
      ConsEvery(Seps(s), s[p..p + n], Seps(s[p + n..]), IsBlankSep);
    }
  }

  /** The text a match covers is a blank-line separator. */
  lemma MatchSep(s: string, p: nat, n: nat)
    requires p < |s| && n == MatchLen(s[p..]) > 0
    ensures p + n <= |s| && IsBlankSep(s[p..p + n]) && s[p] == '\n'
  {
    assert s[p..p + n] == s[p..][..n];
    assert s[p] == s[p..p + n][0];
  }

  /** What follows a match does not open on whitespace and a newline. */
  lemma MatchGreedyAt(s: string, p: nat, n: nat)
    requires p < |s| && n == MatchLen(s[p..]) > 0
    ensures p + n <= |s| && !OpenStart(s[p + n..])
  {
    MatchGreedy(s[p..]);
    assert s[p..][n..] == s[p + n..];
  }

  /** A property of the head and of every element of the tail holds of every element. */
  lemma ConsEvery(ps: seq<string>, x: string, tail: seq<string>, P: string -> bool)
    requires ps == [x] + tail && P(x)
    requires forall k :: 0 <= k < |tail| ==> P(tail[k])
    ensures forall k :: 0 <= k < |ps| ==> P(ps[k])
  {
    assert forall k :: 1 <= k < |ps| ==> ps[k] == tail[k - 1];
  }

  /** The same, for every element but the last. */
  lemma ConsAllButLast(ps: seq<string>, x: string, tail: seq<string>, P: string -> bool)
    requires ps == [x] + tail && P(x)
    requires forall k :: 0 <= k < |tail| - 1 ==> P(tail[k])
    ensures forall k :: 0 <= k < |ps| - 1 ==> P(ps[k])
  {
    assert forall k :: 1 <= k < |ps| ==> ps[k] == tail[k - 1];
  }

  /** The same, for every element but the first. */
  lemma ConsAllButFirst(ps: seq<string>, x: string, tail: seq<string>, P: string -> bool)
    requires ps == [x] + tail && |tail| > 0 && P(tail[0])
    requires forall k :: 1 <= k < |tail| ==> P(tail[k])
    ensures forall k :: 1 <= k < |ps| ==> P(ps[k])
  {
    assert forall k :: 1 <= k < |ps| ==> ps[k] == tail[k - 1];
  }

  /** The same, for every element strictly between the first and the last. */
  lemma ConsInner(ps: seq<string>, x: string, tail: seq<string>, P: string -> bool)
    requires ps == [x] + tail && (|tail| > 1 ==> P(tail[0]))
    requires forall k :: 1 <= k < |tail| - 1 ==> P(tail[k])
    ensures forall k :: 1 <= k < |ps| - 1 ==> P(ps[k])
  {
    assert forall k :: 1 <= k < |ps| ==> ps[k] == tail[k - 1];
  }

  /** No piece contains a blank line. */
  lemma {:induction false} SplitNoBlankLine(s: string)
    ensures forall k :: 0 <= k < |Split(s)| ==> !HasBlankLine(Split(s)[k])
    decreases |s|
  {
    var p := Find(s, 0);
    FindSkips(s, 0);
    NoMatchBefore(s, p);
    if p < |s| {
      var n := MatchLen(s[p..]);
      CutsStep(s, p, n);
      SplitNoBlankLine(s[p + n..]);
      ConsEvery(Split(s), s[..p], Split(s[p + n..]), x => !HasBlankLine(x));
    } else {
      assert s[..p] == s;
    }
  }

  /** No piece but the last ends on a newline followed by whitespace: the match would have started at that newline. */
  lemma {:induction false} SplitLeftmost(s: string)
    ensures forall k :: 0 <= k < |Split(s)| - 1 ==> !OpenEnd(Split(s)[k])
    decreases |s|
  {
    var p := Find(s, 0);
    if p < |s| {
      var n := MatchLen(s[p..]);
      FindSkips(s, 0);
      NoMatchBefore(s, p);
      CutsStep(s, p, n);
      MatchSep(s, p, n);
      SplitLeftmost(s[p + n..]);
      ConsAllButLast(Split(s), s[..p], Split(s[p + n..]), x => !OpenEnd(x));
    }
  }

  /** Whitespace before a newline never stays at the head of a piece that follows a separator. */
  lemma {:induction false} SplitGreedy(s: string)
    ensures forall k :: 1 <= k < |Split(s)| ==> !OpenStart(Split(s)[k])
    decreases |s|
  {
    var p := Find(s, 0);
    if p < |s| {
      var n := MatchLen(s[p..]);
      var rest := s[p + n..];
      MatchGreedyAt(s, p, n);
      CutsStep(s, p, n);
      SplitGreedy(rest);
      PrefixClosed(rest, Split(rest)[0]);
      ConsAllButFirst(Split(s), s[..p], Split(rest), x => !OpenStart(x));
    }
  }

  /** A prefix of a text that does not open on whitespace and a newline does not either. */
  lemma PrefixClosed(s: string, a: string)
    requires a <= s && !OpenStart(s)
    ensures !OpenStart(a)
  {
    forall q | 0 <= q < |a|
      ensures !OpenStartAt(a, q)
    {
      assert s[..q] == a[..q];
      assert !OpenStartAt(s, q);
    }
  }

  // ---------------------------------------------------------------------
  // Joining paragraphs and splitting them again
  // ---------------------------------------------------------------------

  /** Piece k of ps survives a blank-line join: it holds no blank line; unless it is the last, it
      does not end on a newline and whitespace; unless it is the first, it does not open on whitespace
      and a newline; and a piece in the middle is not all whitespace. */
  predicate Separable(ps: seq<string>, k: int)
    requires 0 <= k < |ps|
  {
    && !HasBlankLine(ps[k])
    && (k < |ps| - 1 ==> !OpenEnd(ps[k]))
    && (k > 0 ==> !OpenStart(ps[k]))
    && (0 < k < |ps| - 1 ==> !AllSpace(ps[k]))
  }

  /** Every piece of ps survives a blank-line join. */
  predicate AllSeparable(ps: seq<string>) {
    forall k :: 0 <= k < |ps| ==> Separable(ps, k)
  }

  /** A match at position k spans a blank line of s. */
  lemma MatchBlank(s: string, k: nat)
    requires k <= |s|
    ensures MatchLen(s[k..]) > 0 ==> BlankLineAt(s, k, k + MatchLen(s[k..]) - 1)
  {
    var n := MatchLen(s[k..]);
    if n > 0 {
      var sep := s[k..][..n];
      assert sep == s[k..k + n];
      var mid := s[k + 1..k + n - 1];
      forall i | 0 <= i < |mid|
        ensures IsSpace(mid[i])
      {
        assert mid[i] == sep[i + 1];
      }
    }
  }
  /** A blank line within a prefix of s is a blank line of that prefix. */
  lemma PrefixBlank(s: string, a: string, i: int, j: int)
    requires a <= s
    ensures BlankLineAt(s, i, j) && j < |a| ==> BlankLineAt(a, i, j)
  {
    if BlankLineAt(s, i, j) && j < |a| {
      assert a[i + 1..j] == s[i + 1..j];
    }
  }
  /** Every character strictly inside a blank line is whitespace. */
  lemma SpaceInside(s: string, i: int, j: int, m: int)
    ensures BlankLineAt(s, i, j) && i < m < j ==> IsSpace(s[m])
  {
    if BlankLineAt(s, i, j) && i < m < j {
      assert s[m] == s[i + 1..j][m - i - 1];
    }
  }
  /** A blank line that starts inside a prefix a of s and ends beyond it leaves a ending on a newline and whitespace. */
  lemma EndOpens(s: string, a: string, i: int, j: int)
    requires a <= s
    ensures BlankLineAt(s, i, j) && i < |a| <= j ==> OpenEndAt(a, i)
  {
    if BlankLineAt(s, i, j) && i < |a| <= j {
      var t := a[i + 1..];
      forall m | 0 <= m < |t|
        ensures IsSpace(t[m])
      {
        SpaceInside(s, i, j, i + 1 + m);
      }
    }
  }

  /** With p first: no match starts inside p when p holds no blank line and, if more follows, does not end open. */
  lemma NoMatchIn(p: string, rest: string)
    requires !HasBlankLine(p) && (rest == "" || !OpenEnd(p))
    ensures forall k :: 0 <= k < |p| ==> MatchLen((p + rest)[k..]) == 0
  {
    var s := p + rest;
    assert p <= s;
    forall k | 0 <= k < |p|
      ensures MatchLen(s[k..]) == 0
    {
      var n := MatchLen(s[k..]);
      MatchBlank(s, k);
      PrefixBlank(s, p, k, k + n - 1);
      EndOpens(s, p, k, k + n - 1);
    }
  }

  /** Where no match starts before r and one starts at r, the search finds r. */
  lemma FindIs(s: string, r: nat)
    requires r <= |s|
    requires forall k :: 0 <= k < r ==> MatchLen(s[k..]) == 0
    requires r < |s| ==> MatchLen(s[r..]) > 0
    ensures Find(s, 0) == r
  {
    FindSkips(s, 0);
  }
  /** A newline after the separator `"\n\n"` reached through whitespace alone opens what follows the separator. */
  lemma NewlineOpens(s: string, rest: string, q: int, e: int)
    requires s == "\n\n" + rest && e <= |s|
    requires forall k :: 1 <= k < e ==> IsSpace(s[k])
    ensures 2 <= q < e && s[q] == '\n' ==> OpenStartAt(rest, q - 2)
  {
    if 2 <= q < e && s[q] == '\n' {
      var t := rest[..q - 2];
      forall m | 0 <= m < |t|
        ensures IsSpace(t[m])
      {
        assert t[m] == s[m + 2];
      }
      assert rest[q - 2] == s[q];
    }
  }

  /** The separator `"\n\n"` is matched exactly when what follows does not open on whitespace and a newline. */
  lemma SepExact(rest: string)
    requires !OpenStart(rest)
    ensures MatchLen("\n\n" + rest) == 2
  {
    var s := "\n\n" + rest;
    var e := SpaceEnd(s, 1);
    var q := LastNewline(s, e);
    assert s[0] == '\n' && s[1] == '\n';
    NewlineOpens(s, rest, q, e);
  }

  /** A text that starts with a piece that does not open on whitespace and a newline, and that is not
      all whitespace when more follows, does not open either. */
  lemma ExtendClosed(a: string, s: string)
    requires a <= s && !OpenStart(a) && (|a| < |s| ==> !AllSpace(a))
    ensures !OpenStart(s)
  {
    forall q | 0 <= q < |s|
      ensures !OpenStartAt(s, q)
    {
      if q < |a| {
        assert s[..q] == a[..q];
        assert !OpenStartAt(a, q);
      } else {
        PrefixSpace(s, a, q);
      }
    }
  }

  /** Whitespace up to q covers a prefix of s that ends at or before q. */
  lemma PrefixSpace(s: string, a: string, q: int)
    requires a <= s && |a| <= q <= |s|
    ensures AllSpace(s[..q]) ==> AllSpace(a)
  {
    forall m | 0 <= m < |a|
      ensures s[..q][m] == a[m]
    {
    }
  }

  /** Splitting a piece, the separator and a text that does not open on whitespace and a newline. */
  lemma SplitJoinStep(p: string, rest: string)
    requires !HasBlankLine(p) && !OpenEnd(p) && !OpenStart(rest)
    ensures Split(p + ("\n\n" + rest)) == [p] + Split(rest)
  {
    var s := p + ("\n\n" + rest);
    NoMatchIn(p, "\n\n" + rest);
    assert s[|p|..] == "\n\n" + rest;
    SepExact(rest);
    FindIs(s, |p|);
    CutsStep(s, |p|, 2);
    assert s[..|p|] == p;
    assert s[|p| + 2..] == rest;
  }

  /** Splitting the blank-line join of separable pieces gives the pieces back. */
  lemma {:induction false} SplitJoin(ps: seq<string>)
    requires |ps| > 0 && AllSeparable(ps)
    ensures Split(Join(ps, "\n\n")) == ps
    decreases |ps|
  {
    var p := ps[0];
    assert Separable(ps, 0);
    if |ps| == 1 {
      NoMatchIn(p, "");
      assert p + "" == p;
      FindIs(p, |p|);
    } else {
      var tail := ps[1..];
      var j := Join(tail, "\n\n");
      assert Join(ps, "\n\n") == p + ("\n\n" + j);
      forall k | 0 <= k < |tail|
        ensures Separable(tail, k)
      {
        assert Separable(ps, k + 1);
      }
      SplitJoin(tail);
      assert Separable(ps, 1);
      ExtendClosed(tail[0], j);
      SplitJoinStep(p, j);
      assert ps == [p] + tail;
    }
  }

  /** A text that does not open on whitespace and a newline, and splits into two or more pieces, has a
      first piece that is not all whitespace. */
  lemma FirstPieceVisible(s: string)
    requires !OpenStart(s) && |Split(s)| > 1
    ensures !AllSpace(Split(s)[0])
  {
    var p := Find(s, 0);
    if p < |s| {
      var n := MatchLen(s[p..]);
      CutsStep(s, p, n);
      MatchSep(s, p, n);
      assert !OpenStartAt(s, p);
    } else {
      assert false;
    }
  }

  /** No piece strictly between the first and the last is all whitespace. */
  lemma {:induction false} SplitInnerVisible(s: string)
    ensures forall k :: 1 <= k < |Split(s)| - 1 ==> !AllSpace(Split(s)[k])
    decreases |s|
  {
    var p := Find(s, 0);
    if p < |s| {
      var n := MatchLen(s[p..]);
      var rest := s[p + n..];
      CutsStep(s, p, n);
      SplitInnerVisible(rest);
      if |Split(rest)| > 1 {
        MatchGreedyAt(s, p, n);
        FirstPieceVisible(rest);
      }
      ConsInner(Split(s), s[..p], Split(rest), x => !AllSpace(x));
    }
  }

  /** Every piece of a split survives a blank-line join. */
  lemma SplitSeparable(s: string)
    ensures AllSeparable(Split(s))
  {
    SplitNoBlankLine(s);
    SplitLeftmost(s);
    SplitGreedy(s);
    SplitInnerVisible(s);
  }

  /** A contiguous run of separable pieces is separable on its own. */
  lemma SeparableSlice(ps: seq<string>, a: int, b: int)
    requires 0 <= a <= b <= |ps| && AllSeparable(ps)
    ensures AllSeparable(ps[a..b])
  {
    forall k | 0 <= k < b - a
      ensures Separable(ps[a..b], k)
    {
      assert ps[a..b][k] == ps[a + k];
      assert Separable(ps, a + k);
    }
  }

  /** A run of consecutive pieces of a split, starting at piece a, is separable on its own. */
  lemma RunSeparable(s: string, run: seq<string>, a: int)
    requires 0 <= a && a + |run| <= |Split(s)| && Split(s)[a..a + |run|] == run
    ensures AllSeparable(run)
  {
    SplitSeparable(s);
    SeparableSlice(Split(s), a, a + |run|);
  }

  /** Splitting the blank-line join of a run of consecutive pieces of a split, starting at piece a, gives the run back. */
  lemma SplitRejoinRun(s: string, run: seq<string>, a: int)
    requires 0 <= a && 0 < |run| && a + |run| <= |Split(s)| && Split(s)[a..a + |run|] == run
    ensures Split(Join(run, "\n\n")) == run
  {
    RunSeparable(s, run, a);
    SplitJoin(run);
  }
}
