/**
 * Footnote markers and `normalize_footnotes` (lit_annotator/__main__.py).
 *
 * A marker is `[^` + ASCII digits + `]`. A marker immediately followed by
 * `:` is a definition (`DEF_PATTERN`), any other marker is a reference
 * (`REF_PATTERN`, whose `(?!:)` rejects the colon). `Tokenize` is the
 * structured reading of a text: one `Mark` per marker occurrence and one
 * `Chr` per other character. The source itself works on the raw string;
 * `Substitute` models its `re.sub` calls character by character, and the
 * lemmas below show what those calls do to the token reading.
 */
module Footnotes {
  import opened Numerals
  import opened Seqs

  datatype Kind = Reference | Definition

  datatype Token = Chr(c: char) | Mark(id: string)

  /** The outcome of `normalize_footnotes`: the rewritten text and the next free footnote number. */
  datatype Normalized = Normalized(text: string, counter: int)

  function MarkerText(id: string): string {
    "[^" + id + "]"
  }

  /** Length of the longest ASCII digit prefix of s: how far a greedy `\d+` reaches. */
  function DigitRun(s: string): (n: nat)
    ensures n <= |s|
    ensures AllDigits(s[..n])
    ensures n < |s| ==> !IsDigit(s[n])
    decreases |s|
  {
    if |s| > 0 && IsDigit(s[0]) then
      var n := 1 + DigitRun(s[1..]);
      assert s[..n] == [s[0]] + s[1..][..n - 1];
      n
    else 0
  }

  /**
   * Length of the marker `\[\^(\d+)\]` that starts t, or 0 when none does.
   * A shorter digit run can never be followed by `]`, so the greedy run
   * is the only candidate.
   */
  function MarkerLen(t: string): (n: nat)
    ensures n == 0 || (4 <= n <= |t| && IsDigits(t[2..n - 1]) && t[..n] == MarkerText(t[2..n - 1]))
  {
    if 2 <= |t| && t[0] == '[' && t[1] == '^' then
      var d := DigitRun(t[2..]);
      if 0 < d && 2 + d < |t| && t[2 + d] == ']' then
        assert t[2..2 + d] == t[2..][..d];
        assert t[..3 + d] == MarkerText(t[2..2 + d]);
        3 + d
      else 0
    else 0
  }

  /** Reads a text as markers and plain characters, scanning left to right as `re.findall` does. */
  function Tokenize(t: string): (r: seq<Token>)
    ensures forall i :: 0 <= i < |r| && r[i].Mark? ==> IsDigits(r[i].id)
    decreases |t|
  {
    if |t| == 0 then []
    else
      var n := MarkerLen(t);
      if n > 0 then [Mark(t[2..n - 1])] + Tokenize(t[n..])
      else [Chr(t[0])] + Tokenize(t[1..])
  }

  function TokenText(k: Token): string {
    match k
    case Chr(c) => [c]
    case Mark(id) => MarkerText(id)
  }

  function Render(ts: seq<Token>): string {
    if |ts| == 0 then "" else TokenText(ts[0]) + Render(ts[1..])
  }

  /** The marker at index i is a definition when the next token is the character `:`. */
  function KindAt(ts: seq<Token>, i: int): Kind {
    if 0 <= i && i + 1 < |ts| && ts[i + 1] == Chr(':') then Definition else Reference
  }

  /** Ids of the markers of one kind, in text order: `findall` with `REF_PATTERN` or `DEF_PATTERN`. */
  function Ids(ts: seq<Token>, kind: Kind): (r: seq<string>)
    requires forall i :: 0 <= i < |ts| && ts[i].Mark? ==> IsDigits(ts[i].id)
    ensures AllIds(r)
    decreases |ts|
  {
    if |ts| == 0 then []
    else
      var here := if ts[0].Mark? && KindAt(ts, 0) == kind then [ts[0].id] else [];
      here + Ids(ts[1..], kind)
  }

  function RefIds(t: string): seq<string> {
    Ids(Tokenize(t), Reference)
  }

  function DefIds(t: string): seq<string> {
    Ids(Tokenize(t), Definition)
  }

  /** The ids of every marker in ts, whatever its kind. */
  function MarkIds(ts: seq<Token>): set<string> {
    set i | 0 <= i < |ts| && ts[i].Mark? :: ts[i].id
  }

  // ---------------------------------------------------------------------
  // The regular-expression substitutions of `normalize_footnotes`
  // ---------------------------------------------------------------------

  /** The literal text the pattern for `oldId` matches: `[^oldId]:` for a definition, `[^oldId]` for a reference. */
  function Pattern(id: string, kind: Kind): string {
    match kind
    case Definition => MarkerText(id) + ":"
    case Reference => MarkerText(id)
  }

  /** Whether the pattern for `oldId` of this kind matches at the start of t, including the `(?!:)` look-ahead. */
  predicate MatchesAt(t: string, oldId: string, kind: Kind) {
    Pattern(oldId, kind) <= t &&
    (kind == Reference ==> (|t| == |oldId| + 3 || t[|oldId| + 3] != ':'))
  }

  /** `re.sub(pattern, Pattern(newId, kind), t)`: every non-overlapping match, left to right, is replaced. */
  function Substitute(t: string, oldId: string, newId: string, kind: Kind): string
    decreases |t|
  {
    if |t| == 0 then ""
    else if MatchesAt(t, oldId, kind) then
      Pattern(newId, kind) + Substitute(t[|Pattern(oldId, kind)|..], oldId, newId, kind)
    else [t[0]] + Substitute(t[1..], oldId, newId, kind)
  }

  /** One iteration of the rewriting loop: the definition form first, then the reference form. */
  function Pass(t: string, oldId: string, newId: string): string {
    Substitute(Substitute(t, oldId, newId, Definition), oldId, newId, Reference)
  }

  /** The rewriting loop: the old ids in the given order, their new numbers counting up from `next`. */
  function Renames(t: string, olds: seq<string>, next: int): string
    decreases |olds|
  {
    if |olds| == 0 then t
    else Renames(Pass(t, olds[0], Show(next)), olds[1..], next + 1)
  }

  // ---------------------------------------------------------------------
  // The same operations on the token reading
  // ---------------------------------------------------------------------

  function SubstituteTokens(ts: seq<Token>, oldId: string, newId: string, kind: Kind): seq<Token> {
    seq(|ts|, i requires 0 <= i < |ts| =>
      if ts[i] == Mark(oldId) && KindAt(ts, i) == kind then Mark(newId) else ts[i])
  }

  function Rename(ts: seq<Token>, oldId: string, newId: string): seq<Token> {
    seq(|ts|, i requires 0 <= i < |ts| => if ts[i] == Mark(oldId) then Mark(newId) else ts[i])
  }

  function RenamesTokens(ts: seq<Token>, olds: seq<string>, next: int): seq<Token>
    decreases |olds|
  {
    if |olds| == 0 then ts
    else RenamesTokens(Rename(ts, olds[0], Show(next)), olds[1..], next + 1)
  }

  /** A simultaneous renaming: every marker whose id is a key of m gets the id `str(m[id])`. */
  function RenameAll(ts: seq<Token>, m: map<string, int>): seq<Token> {
    seq(|ts|, i requires 0 <= i < |ts| =>
      if ts[i].Mark? && ts[i].id in m then Mark(Show(m[ts[i].id])) else ts[i])
  }

  // ---------------------------------------------------------------------
  // Scanning lemmas
  // ---------------------------------------------------------------------

  lemma {:induction false} DigitRunIs(s: string, k: nat)
    requires k <= |s| && AllDigits(s[..k])
    requires k < |s| ==> !IsDigit(s[k])
    ensures DigitRun(s) == k
    decreases k
  {
    if k > 0 {
      assert s[1..][..k - 1] == s[1..k];
      assert IsDigit(s[..k][0]);
      DigitRunIs(s[1..], k - 1);
    }
  }

  /** `[^id]` occurs at the start of t exactly when the marker scan finds a marker with that id there. */
  lemma MarkerAt(t: string, id: string)
    requires IsDigits(id)
    ensures MarkerText(id) <= t <==> MarkerLen(t) == |id| + 3 && t[2..|id| + 2] == id
  {
    if MarkerText(id) <= t {
      var s := t[2..];
      assert s[..|id|] == id;
      assert s[|id|] == t[|id| + 2] == ']';
      DigitRunIs(s, |id|);
    }
  }

  lemma TokenizeMarker(id: string, rest: string)
    requires IsDigits(id)
    ensures Tokenize(MarkerText(id) + rest) == [Mark(id)] + Tokenize(rest)
  {
    var t := MarkerText(id) + rest;
    MarkerAt(t, id);
    assert t[|id| + 3..] == rest;
  }

  lemma TokenizePlain(c: char, rest: string)
    requires c != '['
    ensures Tokenize([c] + rest) == [Chr(c)] + Tokenize(rest)
  {
    assert ([c] + rest)[1..] == rest;
  }

  /** The token reading is faithful: rendering it gives back the text. */
  lemma {:induction false} RenderTokenize(t: string)
    ensures Render(Tokenize(t)) == t
    decreases |t|
  {
    if |t| > 0 {
      var n := MarkerLen(t);
      if n > 0 {
        RenderTokenize(t[n..]);
        RenderMarkerStep(t);
      } else {
        RenderTokenize(t[1..]);
        RenderCharStep(t);
      }
    }
  }

  lemma RenderCons(k: Token, ts: seq<Token>)
    ensures Render([k] + ts) == TokenText(k) + Render(ts)
  {
    assert ([k] + ts)[1..] == ts;
  }

  lemma RenderMarkerStep(t: string)
    requires MarkerLen(t) > 0
    requires Render(Tokenize(t[MarkerLen(t)..])) == t[MarkerLen(t)..]
    ensures Render(Tokenize(t)) == t
  {
    var n := MarkerLen(t);
    var id := t[2..n - 1];
    var rest := Tokenize(t[n..]);
    calc {
      Render(Tokenize(t));
      Render([Mark(id)] + rest);
      { RenderCons(Mark(id), rest); }
      TokenText(Mark(id)) + Render(rest);
      t[..n] + t[n..];
      { Halves(t, n); }
      t;
    }
  }


  lemma RenderCharStep(t: string)
    requires |t| > 0 && MarkerLen(t) == 0
    requires Render(Tokenize(t[1..])) == t[1..]
    ensures Render(Tokenize(t)) == t
  {
    var rest := Tokenize(t[1..]);
    calc {
      Render(Tokenize(t));
      Render([Chr(t[0])] + rest);
      { RenderCons(Chr(t[0]), rest); }
      TokenText(Chr(t[0])) + Render(rest);
      [t[0]] + t[1..];
      { HeadTail(t); }
      t;
    }
  }

  /** Whether the token reading of t starts with a `:` character. */
  lemma ColonHead(t: string)
    ensures (|Tokenize(t)| > 0 && Tokenize(t)[0] == Chr(':')) <==> (|t| > 0 && t[0] == ':')
  {
  }

  lemma MatchesAtMarker(t: string, oldId: string, kind: Kind)
    requires IsDigits(oldId) && MarkerLen(t) > 0
    ensures var n := MarkerLen(t);
      MatchesAt(t, oldId, kind) <==>
        t[2..n - 1] == oldId && (kind == Definition <==> (n < |t| && t[n] == ':'))
  {
    var n := MarkerLen(t);
    MarkerAt(t, oldId);
    if t[2..n - 1] == oldId {
      assert MarkerText(oldId) <= t;
      if n < |t| {
        assert (MarkerText(oldId) + ":" <= t) <==> t[n] == ':';
      }
    }
  }

  lemma {:induction false} SubstituteSkips(u: string, k: nat, oldId: string, newId: string, kind: Kind)
    requires k <= |u| && forall i :: 0 <= i < k ==> u[i] != '['
    ensures Substitute(u, oldId, newId, kind) == u[..k] + Substitute(u[k..], oldId, newId, kind)
    decreases k
  {
    if k > 0 {
      SubstituteSkips(u[1..], k - 1, oldId, newId, kind);
      SubstituteSkipsStep(u, k, oldId, newId, kind);
    }
  }

  /** A character other than `[` starts no match and is copied. */
  lemma SubstitutePlain(u: string, oldId: string, newId: string, kind: Kind)
    requires |u| > 0 && u[0] != '['
    ensures Substitute(u, oldId, newId, kind) == [u[0]] + Substitute(u[1..], oldId, newId, kind)
  {
    assert Pattern(oldId, kind)[0] == '[';
  }

  lemma SubstituteSkipsStep(u: string, k: nat, oldId: string, newId: string, kind: Kind)
    requires 0 < k <= |u| && u[0] != '['
    requires Substitute(u[1..], oldId, newId, kind) == u[1..][..k - 1] + Substitute(u[1..][k - 1..], oldId, newId, kind)
    ensures Substitute(u, oldId, newId, kind) == u[..k] + Substitute(u[k..], oldId, newId, kind)
  {
    SubstitutePlain(u, oldId, newId, kind);
    TailSlice(u, k);
    calc {
      Substitute(u, oldId, newId, kind);
      [u[0]] + Substitute(u[1..], oldId, newId, kind);
      [u[0]] + (u[1..][..k - 1] + Substitute(u[k..], oldId, newId, kind));
      { Assoc([u[0]], u[1..][..k - 1], Substitute(u[k..], oldId, newId, kind)); }
      ([u[0]] + u[1..][..k - 1]) + Substitute(u[k..], oldId, newId, kind);
      u[..k] + Substitute(u[k..], oldId, newId, kind);
    }
  }

  /** The first character of a substituted text: the `[` of a replacement, or the original character. */
  lemma SubstituteHead(u: string, oldId: string, newId: string, kind: Kind)
    requires |u| > 0
    ensures |Substitute(u, oldId, newId, kind)| > 0
    ensures Substitute(u, oldId, newId, kind)[0] == if MatchesAt(u, oldId, kind) then '[' else u[0]
  {
  }

  /** Before its first `[`, a substituted text agrees with the original. */
  lemma {:induction false} SubstituteReflects(u: string, j: nat, oldId: string, newId: string, kind: Kind)
    requires j <= |Substitute(u, oldId, newId, kind)|
    requires forall i :: 0 <= i < j ==> Substitute(u, oldId, newId, kind)[i] != '['
    ensures j <= |u| && u[..j] == Substitute(u, oldId, newId, kind)[..j]
    decreases |u|
  {
    if j > 0 {
      var s' := ReflectsHead(u, j, oldId, newId, kind);
      SubstituteReflects(u[1..], j - 1, oldId, newId, kind);
      ConsPrefix(u, Substitute(u, oldId, newId, kind), s', j);
    }
  }

  /** A substituted text that opens with no `[` copied its first character and substituted the rest. */
  lemma ReflectsHead(u: string, j: nat, oldId: string, newId: string, kind: Kind) returns (s': string)
    requires 0 < j <= |Substitute(u, oldId, newId, kind)|
    requires forall i :: 0 <= i < j ==> Substitute(u, oldId, newId, kind)[i] != '['
    ensures |u| > 0 && s' == Substitute(u[1..], oldId, newId, kind)
    ensures Substitute(u, oldId, newId, kind) == [u[0]] + s'
    ensures j - 1 <= |s'| && forall i :: 0 <= i < j - 1 ==> s'[i] != '['
  {
    var s := Substitute(u, oldId, newId, kind);
    assert |u| > 0;
    SubstituteHead(u, oldId, newId, kind);
    assert s[0] != '[';
    s' := Substitute(u[1..], oldId, newId, kind);
    assert s == [u[0]] + s';
    assert forall i :: 0 <= i < j - 1 ==> s'[i] == s[i + 1];
  }

  /** Prefixes of two texts with the same head agree when the prefixes of their tails do. */
  lemma ConsPrefix(u: string, s: string, s': string, j: nat)
    requires |u| > 0 && 0 < j && s == [u[0]] + s'
    requires j - 1 <= |u[1..]| && j - 1 <= |s'| && u[1..][..j - 1] == s'[..j - 1]
    ensures j <= |u| && j <= |s| && u[..j] == s[..j]
  {
    assert u[..j] == [u[0]] + u[1..][..j - 1];
    assert s[..j] == [u[0]] + s'[..j - 1];
  }

  /** A character that does not start a marker still does not after the rest of the text is substituted. */
  lemma NoMarkerAfterSubstitute(t: string, oldId: string, newId: string, kind: Kind)
    requires |t| > 0 && MarkerLen(t) == 0
    ensures MarkerLen([t[0]] + Substitute(t[1..], oldId, newId, kind)) == 0
  {
    var s := Substitute(t[1..], oldId, newId, kind);
    var n := MarkerLen([t[0]] + s);
    if n > 0 {
      MarkerTail(t[0], s);
      SubstituteReflects(t[1..], n - 1, oldId, newId, kind);
      MarkerFromPrefix(t, s);
      assert false;
    }
  }

  /** Past the `[` that opens it, a marker holds no `[`. */
  lemma MarkerTail(c: char, s: string)
    requires MarkerLen([c] + s) > 0
    ensures MarkerLen([c] + s) - 1 <= |s|
    ensures forall i :: 0 <= i < MarkerLen([c] + s) - 1 ==> s[i] != '['
  {
    var w := [c] + s;
    MarkerInterior(w);
    assert w[1..] == s;
  }

  /** A text that agrees with a marker over the marker's length starts with that marker. */
  lemma MarkerFromPrefix(t: string, s: string)
    requires |t| > 0
    requires var n := MarkerLen([t[0]] + s);
      n > 0 && n - 1 <= |t[1..]| && t[1..][..n - 1] == s[..n - 1]
    ensures MarkerLen(t) > 0
  {
    var w := [t[0]] + s;
    var n := MarkerLen(w);
    var id := w[2..n - 1];
    assert t[..n] == [t[0]] + t[1..][..n - 1];
    assert w[..n] == [t[0]] + s[..n - 1];
    assert MarkerText(id) <= t;
    MarkerAt(t, id);
  }

  lemma ConsTokens(a: Token, ts: seq<Token>, oldId: string, newId: string, kind: Kind)
    ensures SubstituteTokens([a] + ts, oldId, newId, kind) ==
      [if a == Mark(oldId) && KindAt([a] + ts, 0) == kind then Mark(newId) else a] +
      SubstituteTokens(ts, oldId, newId, kind)
  {
    var w := [a] + ts;
    var l := SubstituteTokens(w, oldId, newId, kind);
    var r := [if a == Mark(oldId) && KindAt(w, 0) == kind then Mark(newId) else a] + SubstituteTokens(ts, oldId, newId, kind);
    assert |l| == |r|;
    forall i | 0 < i < |l|
      ensures l[i] == r[i]
    {
      assert w[i] == ts[i - 1];
      assert KindAt(w, i) == KindAt(ts, i - 1);
    }
    assert l[0] == r[0];
    assert l == r;
  }

  /** The claim of `SubstituteTokenizes` for one text. */
  predicate Commutes(t: string, oldId: string, newId: string, kind: Kind) {
    Tokenize(Substitute(t, oldId, newId, kind)) == SubstituteTokens(Tokenize(t), oldId, newId, kind)
  }

  lemma DefinitionTokens(t: string, oldId: string)
    requires IsDigits(oldId)
    requires MarkerText(oldId) + ":" <= t
    ensures Tokenize(t) == [Mark(oldId), Chr(':')] + Tokenize(t[|oldId| + 4..])
  {
    var n := |oldId| + 3;
    assert t == MarkerText(oldId) + ([':'] + t[n + 1..]);
    TokenizeMarker(oldId, [':'] + t[n + 1..]);
    TokenizePlain(':', t[n + 1..]);
  }

  lemma DefinitionSubstitutes(t: string, oldId: string, newId: string)
    requires IsDigits(oldId)
    requires MarkerText(oldId) + ":" <= t
    ensures Substitute(t, oldId, newId, Definition) ==
      MarkerText(newId) + ([':'] + Substitute(t[|oldId| + 4..], oldId, newId, Definition))
  {
    assert MatchesAt(t, oldId, Definition);
  }

  lemma ConsDefinition(ts: seq<Token>, oldId: string, newId: string)
    ensures SubstituteTokens([Mark(oldId), Chr(':')] + ts, oldId, newId, Definition) ==
      [Mark(newId), Chr(':')] + SubstituteTokens(ts, oldId, newId, Definition)
  {
    ConsTokens(Chr(':'), ts, oldId, newId, Definition);
    ConsTokens(Mark(oldId), [Chr(':')] + ts, oldId, newId, Definition);
    assert [Mark(oldId), Chr(':')] + ts == [Mark(oldId)] + ([Chr(':')] + ts);
  }

  /** Step for a definition `[^oldId]:` matched by the definition pattern. */
  lemma StepDefinition(t: string, oldId: string, newId: string)
    requires IsDigits(oldId) && IsDigits(newId)
    requires MarkerText(oldId) + ":" <= t
    requires Commutes(t[|oldId| + 4..], oldId, newId, Definition)
    ensures Commutes(t, oldId, newId, Definition)
  {
    var rest := t[|oldId| + 4..];
    var s := Substitute(rest, oldId, newId, Definition);
    DefinitionSubstitutes(t, oldId, newId);
    DefinitionTokens(t, oldId);
    DefinitionTokens(MarkerText(newId) + ([':'] + s), newId);
    assert (MarkerText(newId) + ([':'] + s))[|newId| + 4..] == s;
    ConsDefinition(Tokenize(rest), oldId, newId);
  }

  /** Step for a reference `[^oldId]` matched by the reference pattern. */
  lemma StepReference(t: string, oldId: string, newId: string)
    requires IsDigits(oldId) && IsDigits(newId)
    requires MatchesAt(t, oldId, Reference)
    requires Commutes(t[|oldId| + 3..], oldId, newId, Reference)
    ensures Commutes(t, oldId, newId, Reference)
  {
    var n := |oldId| + 3;
    var rest := t[n..];
    var s := Substitute(rest, oldId, newId, Reference);
    assert Substitute(t, oldId, newId, Reference) == MarkerText(newId) + s;
    TokenizeMarker(newId, s);
    assert t == MarkerText(oldId) + rest;
    TokenizeMarker(oldId, rest);
    ColonHead(rest);
    ConsTokens(Mark(oldId), Tokenize(rest), oldId, newId, Reference);
  }

  lemma SubstituteCopies(t: string, oldId: string, newId: string, kind: Kind)
    requires |t| > 0 && !MatchesAt(t, oldId, kind)
    ensures Substitute(t, oldId, newId, kind) == [t[0]] + Substitute(t[1..], oldId, newId, kind)
  {
  }

  /** The only `[` in a marker is its first character. */
  lemma MarkerOpensOnce(id: string)
    requires IsDigits(id)
    ensures forall i :: 0 < i < |MarkerText(id)| ==> MarkerText(id)[i] != '['
  {
    forall i | 0 < i < |MarkerText(id)|
      ensures MarkerText(id)[i] != '['
    {
      if 1 < i < |id| + 2 {
        assert MarkerText(id)[i] == id[i - 2];
      }
    }
  }

  /** Past its first character, a marker holds no `[`. */
  lemma MarkerInterior(t: string)
    requires MarkerLen(t) > 0
    ensures forall i :: 0 <= i < MarkerLen(t) - 1 ==> t[1..][i] != '['
  {
    var n := MarkerLen(t);
    MarkerOpensOnce(t[2..n - 1]);
    assert forall i :: 0 <= i < n - 1 ==> t[1..][i] == t[..n][i + 1];
  }

  /** A marker the pattern does not match is copied as it is. */
  lemma UnmatchedSubstitutes(t: string, oldId: string, newId: string, kind: Kind)
    requires MarkerLen(t) > 0 && !MatchesAt(t, oldId, kind)
    ensures Substitute(t, oldId, newId, kind) ==
      MarkerText(t[2..MarkerLen(t) - 1]) + Substitute(t[MarkerLen(t)..], oldId, newId, kind)
  {
    var n := MarkerLen(t);
    var u := t[1..];
    MarkerInterior(t);
    SubstituteSkips(u, n - 1, oldId, newId, kind);
    SubstituteCopies(t, oldId, newId, kind);
    TailSlice(t, n);
    var a := u[..n - 1];
    var b := Substitute(t[n..], oldId, newId, kind);
    calc {
      Substitute(t, oldId, newId, kind);
      [t[0]] + Substitute(u, oldId, newId, kind);
      [t[0]] + (a + b);
      { Assoc([t[0]], a, b); }
      ([t[0]] + a) + b;
      t[..n] + b;
    }
  }

  /** Step for a marker the pattern does not match: it is copied and keeps its id. */
  lemma StepUnmatchedMarker(t: string, oldId: string, newId: string, kind: Kind)
    requires IsDigits(oldId) && IsDigits(newId)
    requires MarkerLen(t) > 0 && !MatchesAt(t, oldId, kind)
    requires Commutes(t[MarkerLen(t)..], oldId, newId, kind)
    ensures Commutes(t, oldId, newId, kind)
  {
    var n := MarkerLen(t);
    var x := t[2..n - 1];
    var rest := t[n..];
    MatchesAtMarker(t, oldId, kind);
    ColonHead(rest);
    UnmatchedSubstitutes(t, oldId, newId, kind);
    TokenizeMarker(x, Substitute(rest, oldId, newId, kind));
    assert Tokenize(t) == [Mark(x)] + Tokenize(rest);
    ConsTokens(Mark(x), Tokenize(rest), oldId, newId, kind);
  }

  /** Step for a character that starts no marker. */
  lemma StepPlain(t: string, oldId: string, newId: string, kind: Kind)
    requires IsDigits(oldId) && IsDigits(newId)
    requires |t| > 0 && MarkerLen(t) == 0
    requires Commutes(t[1..], oldId, newId, kind)
    ensures Commutes(t, oldId, newId, kind)
  {
    MarkerAt(t, oldId);
    assert !MatchesAt(t, oldId, kind) by {
      assert Pattern(oldId, kind) <= t ==> MarkerText(oldId) <= t;
    }
    var s := Substitute(t[1..], oldId, newId, kind);
    assert Substitute(t, oldId, newId, kind) == [t[0]] + s;
    NoMarkerAfterSubstitute(t, oldId, newId, kind);
    assert ([t[0]] + s)[1..] == s;
    ConsTokens(Chr(t[0]), Tokenize(t[1..]), oldId, newId, kind);
  }

  /** One `re.sub` call rewrites exactly the markers of its kind whose id is `oldId`, and nothing else. */
  lemma {:induction false} SubstituteTokenizes(t: string, oldId: string, newId: string, kind: Kind)
    requires IsDigits(oldId) && IsDigits(newId)
    ensures Tokenize(Substitute(t, oldId, newId, kind)) == SubstituteTokens(Tokenize(t), oldId, newId, kind)
    decreases |t|
  {
    if |t| > 0 {
      var n := MarkerLen(t);
      if n == 0 {
        SubstituteTokenizes(t[1..], oldId, newId, kind);
        StepPlain(t, oldId, newId, kind);
      } else if !MatchesAt(t, oldId, kind) {
        SubstituteTokenizes(t[n..], oldId, newId, kind);
        StepUnmatchedMarker(t, oldId, newId, kind);
      } else {
        if kind == Definition {
          SubstituteTokenizes(t[|oldId| + 4..], oldId, newId, kind);
          StepDefinition(t, oldId, newId);
        } else {
          SubstituteTokenizes(t[|oldId| + 3..], oldId, newId, kind);
          StepReference(t, oldId, newId);
        }
      }
    }
  }

  // ---------------------------------------------------------------------
  // normalize_footnotes
  // ---------------------------------------------------------------------

  /** `sorted(set(refs + defs), key=int)`: the distinct ids of either kind, ascending. */
  function DistinctIds(t: string): (r: seq<string>)
    ensures AllIds(r) && Ascending(r)
    ensures forall x :: x in r <==> x in RefIds(t) + DefIds(t)
  {
    var all := RefIds(t) + DefIds(t);
    assert AllIds(all);
    SortDistinct(all)
  }

  /** Position of the first occurrence of x in s. */
  function IndexOf(s: seq<string>, x: string): (k: nat)
    requires x in s
    ensures k < |s| && s[k] == x
    ensures forall j :: 0 <= j < k ==> s[j] != x
  {
    if s[0] == x then 0 else 1 + IndexOf(s[1..], x)
  }

  /** The mapping built by the first loop: the k-th old id in `olds` gets `next + k`. */
  function Targets(olds: seq<string>, next: int): (m: map<string, int>)
    requires AllIds(olds) && Ascending(olds)
    ensures forall x :: x in m <==> x in olds
    ensures forall k :: 0 <= k < |olds| ==> olds[k] in m && m[olds[k]] == next + k
  {
    var m := map x | x in olds :: next + IndexOf(olds, x);
    forall k | 0 <= k < |olds|
      ensures IndexOf(olds, olds[k]) == k
    {
      var i := IndexOf(olds, olds[k]);
      if i != k {
        BelowTotal(olds[i], olds[k]);
      }
    }
    m
  }

  /**
   * The mapping `normalize_footnotes` builds: its keys are the distinct ids
   * among references and definitions, and each id is sent to `start_number`
   * plus the number of keys below it, so the smallest id gets `start_number`
   * and the targets are consecutive.
   */
  function Mapping(t: string, start: int): (m: map<string, int>)
    ensures forall x :: x in m <==> x in RefIds(t) + DefIds(t)
    ensures forall x :: x in m ==> IsDigits(x)
    ensures forall x :: x in m ==> m[x] == start + |set y | y in m && Below(y, x)|
  {
    var ids := DistinctIds(t);
    TargetsRank(ids, start);
    Targets(ids, start)
  }

  /** `normalize_footnotes(text, start_number)`. */
  function Normalize(t: string, start: int): (r: Normalized)
    ensures r.counter == start + |set x | x in RefIds(t) + DefIds(t)|
  {
    var ids := DistinctIds(t);
    DistinctCard(ids);
    assert (set x | x in ids) == (set x | x in RefIds(t) + DefIds(t));
    Normalized(Renames(t, ids, start), start + |ids|)
  }

  // ---------------------------------------------------------------------
  // Lemmas about the mapping
  // ---------------------------------------------------------------------

  /** An ascending sequence has as many distinct elements as entries. */
  lemma {:induction false} DistinctCard(s: seq<string>)
    requires AllIds(s) && Ascending(s)
    ensures |set x | x in s| == |s|
    decreases |s|
  {
    if |s| > 0 {
      DistinctCard(s[1..]);
      assert (set x | x in s) == {s[0]} + (set x | x in s[1..]);
      assert s[0] !in s[1..] by {
        forall j | 0 <= j < |s[1..]|
          ensures s[1..][j] != s[0]
        {
          BelowTotal(s[0], s[1..][j]);
        }
      }
    }
  }

  /** Each target is the first number plus the count of keys below its id. */
  lemma TargetsRank(ids: seq<string>, start: int)
    requires AllIds(ids) && Ascending(ids)
    ensures var m := Targets(ids, start);
      forall x :: x in m ==> IsDigits(x) && m[x] == start + |set y | y in m && Below(y, x)|
  {
    var m := Targets(ids, start);
    forall x | x in m
      ensures IsDigits(x) && m[x] == start + |set y | y in m && Below(y, x)|
    {
      var k := IndexOf(ids, x);
      Rank(ids, k);
      assert (set y | y in m && Below(y, x)) == (set y | y in ids && Below(y, x));
    }
  }

  /** In an ascending sequence, exactly k elements are below the k-th. */
  lemma Rank(s: seq<string>, k: int)
    requires AllIds(s) && Ascending(s) && 0 <= k < |s|
    ensures |set y | y in s && Below(y, s[k])| == k
  {
    forall y | y in s
      ensures Below(y, s[k]) <==> y in s[..k]
    {
      var j :| 0 <= j < |s| && s[j] == y;
      BelowTotal(y, s[k]);
      if j >= k {
        assert y !in s[..k] by {
          forall i | 0 <= i < k
            ensures s[i] != y
          {
            BelowTotal(s[i], y);
          }
        }
      }
    }
    assert (set y | y in s && Below(y, s[k])) == (set y | y in s[..k]);
    assert AllIds(s[..k]);
    DistinctCard(s[..k]);
  }

  /** Every marker of a text has its id among the references or the definitions, and only those. */
  lemma {:induction false} IdsCover(ts: seq<Token>)
    requires forall i :: 0 <= i < |ts| && ts[i].Mark? ==> IsDigits(ts[i].id)
    ensures forall x :: x in Ids(ts, Reference) + Ids(ts, Definition) <==> x in MarkIds(ts)
    decreases |ts|
  {
    if |ts| > 0 {
      IdsCover(ts[1..]);
      forall x
        ensures x in MarkIds(ts) <==> (ts[0] == Mark(x) || x in MarkIds(ts[1..]))
      {
        if x in MarkIds(ts) {
          var i :| 0 <= i < |ts| && ts[i].Mark? && ts[i].id == x;
          if i > 0 {
            assert ts[1..][i - 1] == ts[i];
          }
        }
        if x in MarkIds(ts[1..]) {
          var i :| 0 <= i < |ts[1..]| && ts[1..][i].Mark? && ts[1..][i].id == x;
          assert ts[i + 1] == ts[1..][i];
        }
      }
    }
  }

  // ---------------------------------------------------------------------
  // What the rewriting loop does to the markers
  // ---------------------------------------------------------------------

  /** A definition pass followed by a reference pass renames the markers with id `oldId` of both kinds. */
  lemma PassTokens(ts: seq<Token>, oldId: string, newId: string)
    ensures SubstituteTokens(SubstituteTokens(ts, oldId, newId, Definition), oldId, newId, Reference)
      == Rename(ts, oldId, newId)
  {
    var d := SubstituteTokens(ts, oldId, newId, Definition);
    assert forall i :: 0 <= i < |ts| ==> KindAt(d, i) == KindAt(ts, i);
  }

  lemma PassTokenizes(t: string, oldId: string, newId: string)
    requires IsDigits(oldId) && IsDigits(newId)
    ensures Tokenize(Pass(t, oldId, newId)) == Rename(Tokenize(t), oldId, newId)
  {
    SubstituteTokenizes(t, oldId, newId, Definition);
    SubstituteTokenizes(Substitute(t, oldId, newId, Definition), oldId, newId, Reference);
    PassTokens(Tokenize(t), oldId, newId);
  }

  /** The string loop and the token loop agree, provided the new numbers are written as digits. */
  lemma {:induction false} RenamesTokenize(t: string, olds: seq<string>, next: int)
    requires AllIds(olds) && (|olds| == 0 || next >= 0)
    ensures Tokenize(Renames(t, olds, next)) == RenamesTokens(Tokenize(t), olds, next)
    decreases |olds|
  {
    if |olds| > 0 {
      PassTokenizes(t, olds[0], Show(next));
      RenamesTokenize(Pass(t, olds[0], Show(next)), olds[1..], next + 1);
    }
  }

  /** Peeling the first old id off the mapping. */
  lemma TargetsStep(olds: seq<string>, next: int)
    requires AllIds(olds) && Ascending(olds) && |olds| > 0
    ensures AllIds(olds[1..]) && Ascending(olds[1..])
    ensures olds[0] !in Targets(olds[1..], next + 1)
    ensures Targets(olds, next) == Targets(olds[1..], next + 1)[olds[0] := next]
  {
    var rest := olds[1..];
    HeadNotInRest(olds);
    var m := Targets(olds, next);
    var m1 := Targets(rest, next + 1)[olds[0] := next];
    forall x
      ensures x in m <==> x in m1
    {
      assert x in olds <==> x == olds[0] || x in rest;
    }
    forall x | x in m
      ensures m[x] == m1[x]
    {
      if x != olds[0] {
        TargetAfterHead(olds, next, x);
      }
    }
  }

  /** The ids after the first of an ascending sequence are ascending and differ from the first. */
  lemma HeadNotInRest(olds: seq<string>)
    requires AllIds(olds) && Ascending(olds) && |olds| > 0
    ensures AllIds(olds[1..]) && Ascending(olds[1..])
    ensures olds[0] !in olds[1..]
  {
    var rest := olds[1..];
    assert forall j :: 0 <= j < |rest| ==> rest[j] == olds[j + 1];
    forall j | 0 <= j < |rest|
      ensures rest[j] != olds[0]
    {
      assert Below(olds[0], olds[j + 1]);
      BelowTotal(olds[0], olds[j + 1]);
    }
  }

  lemma TargetAfterHead(olds: seq<string>, next: int, x: string)
    requires AllIds(olds) && Ascending(olds) && |olds| > 0
    requires AllIds(olds[1..]) && Ascending(olds[1..])
    requires x in olds[1..]
    ensures x in Targets(olds, next) && x in Targets(olds[1..], next + 1)
    ensures Targets(olds, next)[x] == Targets(olds[1..], next + 1)[x]
  {
    var j := IndexOf(olds[1..], x);
    assert olds[j + 1] == x;
  }

  /** Renaming one id, then the others simultaneously, is one simultaneous renaming of all of them. */
  lemma RenameAllStep(ts: seq<Token>, oldId: string, next: int, m: map<string, int>)
    requires oldId !in m && Show(next) !in m
    ensures RenameAll(Rename(ts, oldId, Show(next)), m) == RenameAll(ts, m[oldId := next])
  {
  }

  /**
   * No pass of the loop writes a number a later pass looks for: the old id
   * olds[j] is none of `str(next)` .. `str(next + j - 1)`, the ids written
   * by the passes before its own.
   */
  predicate NoClash(olds: seq<string>, next: int) {
    forall j, n :: 0 <= j < |olds| && next <= n < next + j ==> olds[j] != Show(n)
  }

  /** A digit string is not `str(n)` for an n other than its value. */
  lemma ShowDiffers(x: string, n: int)
    requires IsDigits(x) && (n >= 0 ==> Value(x) != n)
    ensures Show(n) != x
  {
    if n < 0 {
      assert Show(n)[0] == '-' && IsDigit(x[0]);
    }
  }

  /** Ascending ids written as `str` writes them have values at least one apart. */
  lemma {:induction false} CanonicalSpread(olds: seq<string>)
    requires AllIds(olds) && Ascending(olds)
    requires forall j :: 0 <= j < |olds| ==> Canonical(olds[j])
    ensures forall j :: 0 <= j < |olds| ==> Value(olds[j]) >= Value(olds[0]) + j
    decreases |olds|
  {
    if |olds| > 1 {
      var rest := olds[1..];
      assert forall j :: 0 <= j < |rest| ==> rest[j] == olds[j + 1];
      CanonicalSpread(rest);
      assert Below(olds[0], olds[1]);
      CanonicalByValue(olds[0], olds[1]);
    }
  }

  /**
   * The renaming of t from `start_number` is clean: every old id lies below
   * `start_number`, or `start_number` is not negative and every old id is
   * written as `str` writes it and lies at or above `start_number`. The
   * second case covers a first reply numbered from 1 and a text the loop
   * has already renumbered from the same start.
   */
  predicate CleanStart(t: string, start: int) {
    || (forall x :: x in RefIds(t) + DefIds(t) ==> Value(x) < start)
    || (0 <= start && forall x :: x in RefIds(t) + DefIds(t) ==> Canonical(x) && start <= Value(x))
  }

  /** Under a clean start, no pass of the loop writes a number a later pass looks for. */
  lemma CleanNoClash(t: string, start: int)
    requires CleanStart(t, start)
    ensures NoClash(DistinctIds(t), start)
  {
    var ids := DistinctIds(t);
    if forall x :: x in RefIds(t) + DefIds(t) ==> Value(x) < start {
      forall j, n | 0 <= j < |ids| && start <= n < start + j
        ensures ids[j] != Show(n)
      {
        ShowDiffers(ids[j], n);
      }
    } else {
      CanonicalSpread(ids);
      forall j, n | 0 <= j < |ids| && start <= n < start + j
        ensures ids[j] != Show(n)
      {
        assert Value(ids[j]) >= Value(ids[0]) + j;
        ShowDiffers(ids[j], n);
      }
    }
  }

  /** The inductive step of `RenamesSimultaneous`, given the claim for the remaining ids. */
  lemma RenamesSimultaneousStep(ts: seq<Token>, olds: seq<string>, next: int)
    requires AllIds(olds) && Ascending(olds) && |olds| > 0
    requires NoClash(olds, next)
    requires AllIds(olds[1..]) && Ascending(olds[1..])
    requires var t1 := Rename(ts, olds[0], Show(next));
      RenamesTokens(t1, olds[1..], next + 1) == RenameAll(t1, Targets(olds[1..], next + 1))
    ensures RenamesTokens(ts, olds, next) == RenameAll(ts, Targets(olds, next))
  {
    var rest := olds[1..];
    var m1 := Targets(rest, next + 1);
    TargetsStep(olds, next);
    assert Show(next) !in m1 by {
      forall j | 0 <= j < |rest|
        ensures rest[j] != Show(next)
      {
        assert rest[j] == olds[j + 1];
      }
    }
    RenameAllStep(ts, olds[0], next, m1);
  }

  /**
   * When no pass writes a number a later pass looks for, the sequential
   * passes amount to one simultaneous renaming.
   */
  lemma {:induction false} RenamesSimultaneous(ts: seq<Token>, olds: seq<string>, next: int)
    requires AllIds(olds) && Ascending(olds)
    requires NoClash(olds, next)
    ensures RenamesTokens(ts, olds, next) == RenameAll(ts, Targets(olds, next))
    decreases |olds|
  {
    if |olds| == 0 {
      assert RenameAll(ts, Targets(olds, next)) == ts;
    } else {
      var rest := olds[1..];
      assert forall j :: 0 <= j < |rest| ==> rest[j] == olds[j + 1];
      assert NoClash(rest, next + 1) by {
        forall j, n | 0 <= j < |rest| && next + 1 <= n < next + 1 + j
          ensures rest[j] != Show(n)
        {
          assert rest[j] == olds[j + 1];
        }
      }
      RenamesSimultaneous(Rename(ts, olds[0], Show(next)), rest, next + 1);
      RenamesSimultaneousStep(ts, olds, next);
    }
  }

  /** Whatever the old ids, each marker the loop leaves behind carries a number it assigned. */
  lemma {:induction false} RenamesRange(ts: seq<Token>, olds: seq<string>, next: int, lo: int)
    requires AllIds(olds) && 0 <= lo <= next
    requires forall i :: 0 <= i < |ts| && ts[i].Mark? ==>
      ts[i].id in olds || (Canonical(ts[i].id) && lo <= Value(ts[i].id) < next)
    ensures |RenamesTokens(ts, olds, next)| == |ts|
    ensures var r := RenamesTokens(ts, olds, next);
      forall i :: 0 <= i < |r| && r[i].Mark? ==> Canonical(r[i].id) && lo <= Value(r[i].id) < next + |olds|
    decreases |olds|
  {
    if |olds| > 0 {
      var t1 := Rename(ts, olds[0], Show(next));
      forall i | 0 <= i < |t1| && t1[i].Mark?
        ensures t1[i].id in olds[1..] || (Canonical(t1[i].id) && lo <= Value(t1[i].id) < next + 1)
      {
        if ts[i] != Mark(olds[0]) && ts[i].id in olds {
          var j :| 0 <= j < |olds| && olds[j] == ts[i].id;
          assert olds[1..][j - 1] == olds[j];
        }
      }
      RenamesRange(t1, olds[1..], next + 1, lo);
    }
  }

  /**
   * Clean renaming: from a clean start, each marker of either kind ends up
   * with `str(mapping[id])`, every other character is untouched, and
   * definitions stay definitions (the `:` tokens do not move).
   */
  lemma CleanRename(t: string, start: int)
    requires CleanStart(t, start)
    ensures Tokenize(Normalize(t, start).text) == RenameAll(Tokenize(t), Mapping(t, start))
    ensures Normalize(t, start).text == Render(RenameAll(Tokenize(t), Mapping(t, start)))
  {
    var ids := DistinctIds(t);
    assert |ids| == 0 || start >= 0 by {
      if |ids| > 0 {
        assert ids[0] in RefIds(t) + DefIds(t);
      }
    }
    CleanNoClash(t, start);
    RenamesTokenize(t, ids, start);
    RenamesSimultaneous(Tokenize(t), ids, start);
    RenderTokenize(Normalize(t, start).text);
  }

  /**
   * For any `start_number >= 0` (the caller's counter is always at least 1),
   * every marker left in the output carries an id in
   * `[start_number, counter)`, written as `str` writes it.
   */
  lemma NormalizeRange(t: string, start: int)
    requires start >= 0
    ensures var r := Normalize(t, start);
      forall x :: x in MarkIds(Tokenize(r.text)) ==> Canonical(x) && start <= Value(x) < r.counter
  {
    var ids := DistinctIds(t);
    MarksListed(t);
    RenamesTokenize(t, ids, start);
    RenamesRange(Tokenize(t), ids, start, start);
    NormalizeCounter(t, start);
  }

  /** The counter advances by the number of distinct ids. */
  lemma NormalizeCounter(t: string, start: int)
    ensures Normalize(t, start).counter == start + |DistinctIds(t)|
  {
    var ids := DistinctIds(t);
    DistinctCard(ids);
    assert (set x | x in ids) == (set x | x in RefIds(t) + DefIds(t));
  }

  /** Every marker of the text has its id among the distinct ids. */
  lemma MarksListed(t: string)
    ensures var ts := Tokenize(t);
      forall i :: 0 <= i < |ts| && ts[i].Mark? ==> ts[i].id in DistinctIds(t)
  {
    var ts := Tokenize(t);
    IdsCover(ts);
    forall i | 0 <= i < |ts| && ts[i].Mark?
      ensures ts[i].id in DistinctIds(t)
    {
      assert ts[i].id in MarkIds(ts);
    }
  }

  /** A text without markers comes back unchanged with the counter unchanged, and only such a text keeps the counter. */
  lemma NoMarkers(t: string, start: int)
    ensures Normalize(t, start).counter == start <==> RefIds(t) == [] && DefIds(t) == []
    ensures RefIds(t) == [] && DefIds(t) == [] ==> Normalize(t, start) == Normalized(t, start)
  {
    var ids := DistinctIds(t);
    if RefIds(t) != [] {
      assert RefIds(t)[0] in ids;
    }
    if DefIds(t) != [] {
      assert DefIds(t)[0] in ids;
    }
    if RefIds(t) == [] && DefIds(t) == [] {
      assert (set x | x in RefIds(t) + DefIds(t)) == {};
    }
  }

  // ---------------------------------------------------------------------
  // Normalizing twice, and the chained collapse
  // ---------------------------------------------------------------------

  /** Replacing an id by itself changes nothing. */
  lemma {:induction false} SubstituteSame(t: string, id: string, kind: Kind)
    ensures Substitute(t, id, id, kind) == t
    decreases |t|
  {
    if |t| > 0 {
      if MatchesAt(t, id, kind) {
        SubstituteSame(t[|Pattern(id, kind)|..], id, kind);
        SameMatched(t, id, kind);
      } else {
        SubstituteSame(t[1..], id, kind);
        SameUnmatched(t, id, kind);
      }
    }
  }

  lemma SameMatched(t: string, id: string, kind: Kind)
    requires |t| > 0 && MatchesAt(t, id, kind)
    requires Substitute(t[|Pattern(id, kind)|..], id, id, kind) == t[|Pattern(id, kind)|..]
    ensures Substitute(t, id, id, kind) == t
  {
    var p := Pattern(id, kind);
    var n := |p|;
    assert p == t[..n];
    calc {
      Substitute(t, id, id, kind);
      p + Substitute(t[n..], id, id, kind);
      t[..n] + t[n..];
      { Halves(t, n); }
      t;
    }
  }

  lemma SameUnmatched(t: string, id: string, kind: Kind)
    requires |t| > 0 && !MatchesAt(t, id, kind)
    requires Substitute(t[1..], id, id, kind) == t[1..]
    ensures Substitute(t, id, id, kind) == t
  {
    calc {
      Substitute(t, id, id, kind);
      [t[0]] + Substitute(t[1..], id, id, kind);
      [t[0]] + t[1..];
      { HeadTail(t); }
      t;
    }
  }

  /** The ids `str(a)`, `str(a + 1)`, ..., `str(a + n - 1)`: what a normalization starting at a writes. */
  function Shows(a: int, n: nat): (r: seq<string>)
    requires a >= 0
    ensures |r| == n && AllIds(r) && Ascending(r)
    ensures forall k :: 0 <= k < n ==> r[k] == Show(a + k)
  {
    var r := seq(n, k requires 0 <= k < n => Show(a + k));
    forall k | 0 <= k < n
      ensures Canonical(r[k]) && Value(r[k]) == a + k
    {
      assert r[k] == Show(a + k);
    }
    r
  }

  /** Renumbering `str(a + k)` to `str(a + k)` for every k leaves the text alone. */
  lemma {:induction false} RenamesSame(t: string, a: int, n: nat)
    requires a >= 0
    ensures Renames(t, Shows(a, n), a) == t
    decreases n
  {
    if n > 0 {
      SubstituteSame(t, Show(a), Definition);
      SubstituteSame(t, Show(a), Reference);
      ShowsTail(a, n);
      RenamesSame(t, a + 1, n - 1);
    }
  }

  lemma ShowsTail(a: int, n: nat)
    requires a >= 0 && n > 0
    ensures Shows(a, n)[0] == Show(a) && Shows(a, n)[1..] == Shows(a + 1, n - 1)
  {
    var r := Shows(a, n);
    assert forall k :: 0 <= k < n - 1 ==> r[1..][k] == r[k + 1];
  }

  /** The marker ids after a simultaneous renaming are the targets of the ids before it. */
  lemma RenamedIds(ts: seq<Token>, olds: seq<string>, a: int)
    requires a >= 0 && AllIds(olds) && Ascending(olds)
    requires forall x :: x in MarkIds(ts) <==> x in olds
    ensures forall x :: x in MarkIds(RenameAll(ts, Targets(olds, a))) <==> x in Shows(a, |olds|)
  {
    RenamedIdsOut(ts, olds, a);
    RenamedIdsIn(ts, olds, a);
  }

  lemma RenamedIdsOut(ts: seq<Token>, olds: seq<string>, a: int)
    requires a >= 0 && AllIds(olds) && Ascending(olds)
    requires forall x :: x in MarkIds(ts) ==> x in olds
    ensures forall x :: x in MarkIds(RenameAll(ts, Targets(olds, a))) ==> x in Shows(a, |olds|)
  {
    var m := Targets(olds, a);
    var r := RenameAll(ts, m);
    var out := Shows(a, |olds|);
    forall x | x in MarkIds(r)
      ensures x in out
    {
      var i :| 0 <= i < |r| && r[i].Mark? && r[i].id == x;
      assert ts[i].id in MarkIds(ts);
      RenamedAt(ts, olds, a, i);
    }
  }

  lemma RenamedAt(ts: seq<Token>, olds: seq<string>, a: int, i: int)
    requires a >= 0 && AllIds(olds) && Ascending(olds)
    requires 0 <= i < |ts| && ts[i].Mark? && ts[i].id in olds
    ensures var r := RenameAll(ts, Targets(olds, a));
      r[i].Mark? && r[i].id in Shows(a, |olds|)
  {
    var k := IndexOf(olds, ts[i].id);
    assert Targets(olds, a)[olds[k]] == a + k;
    assert Shows(a, |olds|)[k] == Show(a + k);
  }

  lemma RenamedIdsIn(ts: seq<Token>, olds: seq<string>, a: int)
    requires a >= 0 && AllIds(olds) && Ascending(olds)
    requires forall x :: x in olds ==> x in MarkIds(ts)
    ensures forall x :: x in Shows(a, |olds|) ==> x in MarkIds(RenameAll(ts, Targets(olds, a)))
  {
    var m := Targets(olds, a);
    var r := RenameAll(ts, m);
    var out := Shows(a, |olds|);
    forall k | 0 <= k < |olds|
      ensures out[k] in MarkIds(r)
    {
      assert olds[k] in MarkIds(ts);
      var i :| 0 <= i < |ts| && ts[i].Mark? && ts[i].id == olds[k];
      assert r[i] == Mark(out[k]);
    }
  }

  /** After a clean renaming, the distinct ids of the output are exactly `str(start)` .. `str(counter - 1)`. */
  lemma CleanIds(t: string, start: int)
    requires CleanStart(t, start)
    requires start >= 0
    ensures DistinctIds(Normalize(t, start).text) == Shows(start, |DistinctIds(t)|)
  {
    var ids := DistinctIds(t);
    var ts := Tokenize(t);
    var u := Normalize(t, start).text;
    CleanRename(t, start);
    IdsCover(ts);
    IdsCover(Tokenize(u));
    RenamedIds(ts, ids, start);
    AscendingUnique(DistinctIds(u), Shows(start, |ids|));
  }

  /**
   * Normalizing an output of a clean normalization again, from the same
   * `start_number`, is a no-op: same text, same counter.
   */
  lemma NormalizeIdempotent(t: string, start: int)
    requires CleanStart(t, start)
    requires start >= 0
    ensures Normalize(Normalize(t, start).text, start) == Normalize(t, start)
  {
    var r := Normalize(t, start);
    CleanIds(t, start);
    NormalizeKeeps(r.text, start, |DistinctIds(t)|);
  }

  /** Two markers around one plain character read as three tokens. */
  lemma TwoMarkers(x: string, c: char, y: string)
    requires IsDigits(x) && IsDigits(y) && c != '['
    ensures Tokenize(MarkerText(x) + [c] + MarkerText(y)) == [Mark(x), Chr(c), Mark(y)]
  {
    var s1 := [c] + MarkerText(y);
    calc {
      Tokenize(MarkerText(x) + [c] + MarkerText(y));
      { Assoc(MarkerText(x), [c], MarkerText(y)); }
      Tokenize(MarkerText(x) + s1);
      { TokenizeMarker(x, s1); }
      [Mark(x)] + Tokenize(s1);
      { TokenizePlain(c, MarkerText(y)); }
      [Mark(x)] + ([Chr(c)] + Tokenize(MarkerText(y)));
      { TokenizeOneMarker(y); }
      [Mark(x)] + ([Chr(c)] + [Mark(y)]);
      [Mark(x), Chr(c), Mark(y)];
    }
  }

  lemma TokenizeOneMarker(y: string)
    requires IsDigits(y)
    ensures Tokenize(MarkerText(y)) == [Mark(y)]
  {
    TokenizeMarker(y, "");
    assert MarkerText(y) + "" == MarkerText(y);
  }

  lemma ChainTokens()
    ensures Tokenize("[^1] [^2]") == [Mark("1"), Chr(' '), Mark("2")]
  {
    assert "[^1] [^2]" == MarkerText("1") + [' '] + MarkerText("2");
    TwoMarkers("1", ' ', "2");
  }

  lemma ChainIds()
    ensures DistinctIds("[^1] [^2]") == ["1", "2"]
  {
    ChainTokens();
    ChainIdsOf("[^1] [^2]");
  }

  lemma ChainIdsOf(t: string)
    requires Tokenize(t) == [Mark("1"), Chr(' '), Mark("2")]
    ensures DistinctIds(t) == ["1", "2"]
  {
    ChainKinds();
    IdsOfTokens(t, ["1", "2"]);
  }

  /** A text whose references are `ids`, ascending, and which has no definitions has `ids` as its distinct ids. */
  lemma IdsOfTokens(t: string, ids: seq<string>)
    requires AllIds(ids) && Ascending(ids)
    requires RefIds(t) == ids && DefIds(t) == []
    ensures DistinctIds(t) == ids
  {
    var d := DistinctIds(t);
    assert forall y :: y in d <==> y in ids;
    AscendingUnique(d, ids);
  }

  lemma ChainKinds()
    ensures Ids([Mark("1"), Chr(' '), Mark("2")], Reference) == ["1", "2"]
    ensures Ids([Mark("1"), Chr(' '), Mark("2")], Definition) == []
  {
    var ts := [Mark("1"), Chr(' '), Mark("2")];
    assert ts[1..] == [Chr(' '), Mark("2")];
    assert ts[1..][1..] == [Mark("2")];
    assert Ids([Mark("2")], Reference) == ["2"];
    assert Ids([Mark("2")], Definition) == [];
  }

  lemma ChainRenames()
    ensures RenamesTokens([Mark("1"), Chr(' '), Mark("2")], ["1", "2"], 2) == [Mark("3"), Chr(' '), Mark("3")]
  {
    assert Show(2) == "2" && Show(3) == "3";
    var ts := [Mark("1"), Chr(' '), Mark("2")];
    var t1 := Rename(ts, "1", "2");
    assert t1 == [Mark("2"), Chr(' '), Mark("2")];
    assert ["1", "2"][1..] == ["2"];
    assert RenamesTokens(ts, ["1", "2"], 2) == RenamesTokens(t1, ["2"], 3);
    assert Rename(t1, "2", "3") == [Mark("3"), Chr(' '), Mark("3")];
  }

  lemma ChainRender()
    ensures Render([Mark("3"), Chr(' '), Mark("3")]) == "[^3] [^3]"
  {
    var out := [Mark("3"), Chr(' '), Mark("3")];
    assert out[1..][1..] == [Mark("3")];
    assert Render([Mark("3")]) == "[^3]";
    assert Render(out[1..]) == " [^3]";
  }

  /**
   * The chained collapse: from `start_number` 2, the ids 1 and 2 are sent
   * to 2 and 3, but the pass for 1 writes `[^2]`, which the pass for 2 then
   * rewrites, so both footnotes end up as `[^3]`.
   */
  lemma ChainCollapse()
    ensures Normalize("[^1] [^2]", 2) == Normalized("[^3] [^3]", 4)
  {
    var t := "[^1] [^2]";
    ChainTokens();
    ChainIds();
    ChainRenames();
    ChainRender();
    RenamesTokenize(t, ["1", "2"], 2);
    RenderTokenize(Renames(t, ["1", "2"], 2));
  }

  /** From `start_number` 1 the same two references are clean and keep their numbers. */
  lemma FirstChunkKept()
    ensures Normalize("[^1] [^2]", 1) == Normalized("[^1] [^2]", 3)
  {
    ChainIds();
    ShowsOneTwo();
    NormalizeKeeps("[^1] [^2]", 1, 2);
  }

  lemma ShowsOneTwo()
    ensures Shows(1, 2) == ["1", "2"]
  {
    assert Show(1) == "1" && Show(2) == "2";
  }

  /** A text whose distinct ids are already `str(a)` .. `str(a + n - 1)` comes back unchanged from `start_number` a. */
  lemma NormalizeKeeps(t: string, a: int, n: nat)
    requires a >= 0 && DistinctIds(t) == Shows(a, n)
    ensures Normalize(t, a) == Normalized(t, a + n)
  {
    RenamesSame(t, a, n);
  }
}
