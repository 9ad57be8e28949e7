/**
 * A one-pass renumbering of footnote markers.
 *
 * `normalize_footnotes` rewrites with one `re.sub` per old id, so a marker
 * written by an early pass is rewritten again by a later pass whose old id
 * equals that new number (`Footnotes.ChainCollapse`). The evident intent is
 * a simultaneous renaming, as one `re.sub` with a replacement function over
 * the marker pattern would do: each marker of the input is read once and
 * rewritten to the number the mapping assigns it. `OnePass` models that
 * corrected behaviour; it computes the same mapping and the same counter.
 */
module Renumber {
  import opened Numerals
  import opened Footnotes
  import opened Seqs

  /** One left-to-right scan: every marker whose id is a key of m becomes `[^str(m[id])]`; text after it is scanned afresh. */
  function Replace(t: string, m: map<string, int>): string
    decreases |t|
  {
    if |t| == 0 then ""
    else
      var n := MarkerLen(t);
      if n > 0 && t[2..n - 1] in m then MarkerText(Show(m[t[2..n - 1]])) + Replace(t[n..], m)
      else [t[0]] + Replace(t[1..], m)
  }

  /** `normalize_footnotes` with the rewriting loop replaced by one simultaneous renaming. */
  function OnePass(t: string, start: int): (r: Normalized)
    ensures r.counter == Normalize(t, start).counter
  {
    Normalized(Replace(t, Mapping(t, start)), start + |DistinctIds(t)|)
  }

  // ---------------------------------------------------------------------
  // The scan and the token reading
  // ---------------------------------------------------------------------

  /** Whether the scan rewrites the marker at the start of t. */
  predicate Rewrites(t: string, m: map<string, int>) {
    MarkerLen(t) > 0 && t[2..MarkerLen(t) - 1] in m
  }

  lemma ReplaceHead(u: string, m: map<string, int>)
    requires |u| > 0
    ensures |Replace(u, m)| > 0
    ensures Replace(u, m)[0] == if Rewrites(u, m) then '[' else u[0]
  {
  }

  lemma {:induction false} ReplaceSkips(u: string, k: nat, m: map<string, int>)
    requires k <= |u| && forall i :: 0 <= i < k ==> u[i] != '['
    ensures Replace(u, m) == u[..k] + Replace(u[k..], m)
    decreases k
  {
    if k > 0 {
      ReplaceSkips(u[1..], k - 1, m);
      ReplaceSkipsStep(u, k, m);
    }
  }

  lemma ReplaceSkipsStep(u: string, k: nat, m: map<string, int>)
    requires 0 < k <= |u| && u[0] != '['
    requires Replace(u[1..], m) == u[1..][..k - 1] + Replace(u[1..][k - 1..], m)
    ensures Replace(u, m) == u[..k] + Replace(u[k..], m)
  {
    TailSlice(u, k);
    calc {
      Replace(u, m);
      [u[0]] + Replace(u[1..], m);
      [u[0]] + (u[1..][..k - 1] + Replace(u[k..], m));
      { Assoc([u[0]], u[1..][..k - 1], Replace(u[k..], m)); }
      ([u[0]] + u[1..][..k - 1]) + Replace(u[k..], m);
      u[..k] + Replace(u[k..], m);
    }
  }

  /** Before its first `[`, the scanned text agrees with the original. */
  lemma {:induction false} ReplaceReflects(u: string, j: nat, m: map<string, int>)
    requires j <= |Replace(u, m)|
    requires forall i :: 0 <= i < j ==> Replace(u, m)[i] != '['
    ensures j <= |u| && u[..j] == Replace(u, m)[..j]
    decreases |u|
  {
    var s := Replace(u, m);
    if j > 0 {
      assert |u| > 0;
      ReplaceHead(u, m);
      assert s[0] != '[';
      assert !Rewrites(u, m);
      var s' := Replace(u[1..], m);
      assert s == [u[0]] + s';
      assert forall i :: 0 <= i < j - 1 ==> s'[i] == s[i + 1];
      ReplaceReflects(u[1..], j - 1, m);
      ConsPrefix(u, s, s', j);
    }
  }

  /** A character that starts no marker still starts none once the rest of the text is scanned. */
  lemma NoMarkerAfterReplace(t: string, m: map<string, int>)
    requires |t| > 0 && MarkerLen(t) == 0
    ensures MarkerLen([t[0]] + Replace(t[1..], m)) == 0
  {
    var s := Replace(t[1..], m);
    var n := MarkerLen([t[0]] + s);
    if n > 0 {
      MarkerTail(t[0], s);
      ReplaceReflects(t[1..], n - 1, m);
      MarkerFromPrefix(t, s);
      assert false;
    }
  }

  lemma ConsRenameAll(a: Token, ts: seq<Token>, m: map<string, int>)
    ensures RenameAll([a] + ts, m) == RenameAll([a], m) + RenameAll(ts, m)
  {
  }

  /** The claim of `ReplaceTokenizes` for one text. */
  predicate ScanCommutes(t: string, m: map<string, int>) {
    Tokenize(Replace(t, m)) == RenameAll(Tokenize(t), m)
  }

  lemma StepRewritten(t: string, m: map<string, int>)
    requires forall x :: x in m ==> m[x] >= 0
    requires Rewrites(t, m)
    requires ScanCommutes(t[MarkerLen(t)..], m)
    ensures ScanCommutes(t, m)
  {
    var n := MarkerLen(t);
    var x := t[2..n - 1];
    TokenizeMarker(Show(m[x]), Replace(t[n..], m));
    assert Tokenize(t) == [Mark(x)] + Tokenize(t[n..]);
    ConsRenameAll(Mark(x), Tokenize(t[n..]), m);
  }

  lemma ReplaceCopies(t: string, m: map<string, int>)
    requires |t| > 0 && !Rewrites(t, m)
    ensures Replace(t, m) == [t[0]] + Replace(t[1..], m)
  {
  }

  /** A marker the scan does not rewrite is copied as it is. */
  lemma ReplaceKept(t: string, m: map<string, int>)
    requires MarkerLen(t) > 0 && !Rewrites(t, m)
    ensures Replace(t, m) == t[..MarkerLen(t)] + Replace(t[MarkerLen(t)..], m)
  {
    var n := MarkerLen(t);
    var u := t[1..];
    MarkerInterior(t);
    ReplaceSkips(u, n - 1, m);
    ReplaceCopies(t, m);
    TailSlice(t, n);
    var a := u[..n - 1];
    var b := Replace(t[n..], m);
    calc {
      Replace(t, m);
      [t[0]] + Replace(u, m);
      [t[0]] + (a + b);
      { Assoc([t[0]], a, b); }
      ([t[0]] + a) + b;
      t[..n] + b;
    }
  }

  lemma StepKept(t: string, m: map<string, int>)
    requires MarkerLen(t) > 0 && !Rewrites(t, m)
    requires ScanCommutes(t[MarkerLen(t)..], m)
    ensures ScanCommutes(t, m)
  {
    var n := MarkerLen(t);
    var x := t[2..n - 1];
    ReplaceKept(t, m);
    TokenizeMarker(x, Replace(t[n..], m));
    assert Tokenize(t) == [Mark(x)] + Tokenize(t[n..]);
    ConsRenameAll(Mark(x), Tokenize(t[n..]), m);
  }

  lemma StepChar(t: string, m: map<string, int>)
    requires |t| > 0 && MarkerLen(t) == 0
    requires ScanCommutes(t[1..], m)
    ensures ScanCommutes(t, m)
  {
    var s := Replace(t[1..], m);
    assert Replace(t, m) == [t[0]] + s;
    NoMarkerAfterReplace(t, m);
    assert ([t[0]] + s)[1..] == s;
    assert Tokenize(t) == [Chr(t[0])] + Tokenize(t[1..]);
    ConsRenameAll(Chr(t[0]), Tokenize(t[1..]), m);
  }

  /** The scan rewrites exactly the markers whose id is a key of m, each to its target, and leaves every other character alone. */
  lemma {:induction false} ReplaceTokenizes(t: string, m: map<string, int>)
    requires forall x :: x in m ==> m[x] >= 0
    ensures Tokenize(Replace(t, m)) == RenameAll(Tokenize(t), m)
    decreases |t|
  {
    if |t| > 0 {
      var n := MarkerLen(t);
      if n == 0 {
        ReplaceTokenizes(t[1..], m);
        StepChar(t, m);
      } else {
        ReplaceTokenizes(t[n..], m);
        if Rewrites(t, m) {
          StepRewritten(t, m);
        } else {
          StepKept(t, m);
        }
      }
    }
  }

  // ---------------------------------------------------------------------
  // What the corrected renumbering promises
  // ---------------------------------------------------------------------

  /**
   * For every `start_number >= 0`, each marker of either kind ends up with
   * `str(mapping[id])`; every other character, the `:` of each definition
   * included, stays where it was.
   */
  lemma OnePassRenames(t: string, start: int)
    requires start >= 0
    ensures Tokenize(OnePass(t, start).text) == RenameAll(Tokenize(t), Mapping(t, start))
  {
    ReplaceTokenizes(t, Mapping(t, start));
  }

  /** The mapping is the ascending distinct ids sent to consecutive numbers from `start_number`. */
  lemma MappingIs(t: string, start: int)
    ensures Mapping(t, start) == Targets(DistinctIds(t), start)
  {
  }

  /** Renaming by `Targets` keeps the markers apart that were apart and together that were together. */
  lemma TargetsSeparate(ts: seq<Token>, ids: seq<string>, start: int, i: int, j: int)
    requires AllIds(ids) && Ascending(ids) && start >= 0
    requires 0 <= i < |ts| && 0 <= j < |ts| && ts[i].Mark? && ts[j].Mark?
    requires ts[i].id in ids && ts[j].id in ids
    ensures var u := RenameAll(ts, Targets(ids, start));
      u[i].Mark? && u[j].Mark? && (u[i].id == u[j].id <==> ts[i].id == ts[j].id)
  {
    var m := Targets(ids, start);
    var a, b := IndexOf(ids, ts[i].id), IndexOf(ids, ts[j].id);
    assert m[ids[a]] == start + a && m[ids[b]] == start + b;
    assert Value(Show(start + a)) == start + a && Value(Show(start + b)) == start + b;
  }

  /** Renaming by `Targets` leaves every listed marker with a number in `[start, start + |ids|)`. */
  lemma TargetsRange(ts: seq<Token>, ids: seq<string>, start: int)
    requires AllIds(ids) && Ascending(ids) && start >= 0
    requires forall i :: 0 <= i < |ts| && ts[i].Mark? ==> ts[i].id in ids
    ensures forall x :: x in MarkIds(RenameAll(ts, Targets(ids, start))) ==>
      Canonical(x) && start <= Value(x) < start + |ids|
  {
    var m := Targets(ids, start);
    var u := RenameAll(ts, m);
    forall x | x in MarkIds(u)
      ensures Canonical(x) && start <= Value(x) < start + |ids|
    {
      var i :| 0 <= i < |u| && u[i].Mark? && u[i].id == x;
      var k := IndexOf(ids, ts[i].id);
      assert m[ids[k]] == start + k;
    }
  }

  /** Two markers carry the same id after the renumbering exactly when they carried the same id before it. */
  lemma OnePassSeparates(t: string, start: int, i: int, j: int)
    requires start >= 0
    requires 0 <= i < |Tokenize(t)| && 0 <= j < |Tokenize(t)|
    requires Tokenize(t)[i].Mark? && Tokenize(t)[j].Mark?
    ensures var u := Tokenize(OnePass(t, start).text);
      |u| == |Tokenize(t)| && u[i].Mark? && u[j].Mark? && (u[i].id == u[j].id <==> Tokenize(t)[i].id == Tokenize(t)[j].id)
  {
    OnePassRenames(t, start);
    MappingIs(t, start);
    MarksListed(t);
    TargetsSeparate(Tokenize(t), DistinctIds(t), start, i, j);
  }

  /** Every marker the one-pass renumbering leaves carries an id in `[start_number, counter)`, written as `str` writes it. */
  lemma OnePassRange(t: string, start: int)
    requires start >= 0
    ensures var r := OnePass(t, start);
      forall x :: x in MarkIds(Tokenize(r.text)) ==> Canonical(x) && start <= Value(x) < r.counter
  {
    OnePassRenames(t, start);
    MappingIs(t, start);
    MarksListed(t);
    TargetsRange(Tokenize(t), DistinctIds(t), start);
  }

  /** A text without markers comes back unchanged, and the counter with it. */
  lemma OnePassNoMarkers(t: string, start: int)
    requires RefIds(t) == [] && DefIds(t) == []
    ensures OnePass(t, start) == Normalized(t, start)
  {
    var m := Mapping(t, start);
    assert forall x :: x !in m;
    ReplaceNoKeys(t, m);
  }

  /** The scan with an empty mapping copies its input. */
  lemma {:induction false} ReplaceNoKeys(t: string, m: map<string, int>)
    requires forall x :: x !in m
    ensures Replace(t, m) == t
    decreases |t|
  {
    if |t| > 0 {
      ReplaceNoKeys(t[1..], m);
      assert t == [t[0]] + t[1..];
    }
  }

  /** From a clean start, the source's sequential passes and the one-pass scan agree. */
  lemma CleanAgrees(t: string, start: int)
    requires CleanStart(t, start)
    requires start >= 0
    ensures Normalize(t, start) == OnePass(t, start)
  {
    CleanRename(t, start);
    OnePassRenames(t, start);
    RenderTokenize(OnePass(t, start).text);
  }

  lemma NoCollapseMapping()
    ensures var m := Mapping("[^1] [^2]", 2); "1" in m && "2" in m && m["1"] == 2 && m["2"] == 3
  {
    ChainIds();
    var ids := ["1", "2"];
    assert Mapping("[^1] [^2]", 2) == Targets(ids, 2);
    assert ids[0] == "1" && ids[1] == "2";
  }

  lemma NoCollapseRename(m: map<string, int>)
    requires "1" in m && "2" in m && m["1"] == 2 && m["2"] == 3
    ensures RenameAll([Mark("1"), Chr(' '), Mark("2")], m) == [Mark("2"), Chr(' '), Mark("3")]
  {
    assert Show(2) == "2" && Show(3) == "3";
  }

  lemma NoCollapseTokens()
    ensures RenameAll([Mark("1"), Chr(' '), Mark("2")], Mapping("[^1] [^2]", 2)) == [Mark("2"), Chr(' '), Mark("3")]
  {
    NoCollapseMapping();
    NoCollapseRename(Mapping("[^1] [^2]", 2));
  }

  lemma NoCollapseRender()
    ensures Render([Mark("2"), Chr(' '), Mark("3")]) == "[^2] [^3]"
  {
    var out := [Mark("2"), Chr(' '), Mark("3")];
    assert out[1..][1..] == [Mark("3")];
    assert Render([Mark("3")]) == "[^3]";
    assert Render(out[1..]) == " [^3]";
  }

  /** The one-pass scan keeps apart the two footnotes the sequential passes merge in `Footnotes.ChainCollapse`. */
  lemma NoCollapse()
    ensures OnePass("[^1] [^2]", 2) == Normalized("[^2] [^3]", 4)
  {
    var t := "[^1] [^2]";
    ChainTokens();
    ChainIds();
    NoCollapseTokens();
    NoCollapseRender();
    OnePassRenames(t, 2);
    RenderTokenize(OnePass(t, 2).text);
  }
}
