/**
 * The two "highest level wins" reductions of the alert downloader: the raw
 * pass of `parse_tmp_and_write_raw_csv` (one row per kept entry and one
 * record per province) and the grouped pass of `parse_tmp_and_write_csv`
 * (one record per province and zone).
 *
 * Both loops are methods proved equal to specification folds; the
 * properties of the folds (which keys appear, the maximum level, and that a
 * tie keeps the first record) are proved once, for the generic fold.
 */
module Reduce {
  import opened Wrappers
  import opened TextOps
  import opened Levels
  import opened Provinces
  import opened Classifier

  // ---------------------------------------------------------------------
  // The generic fold: entries without a key are skipped, and a later record
  // replaces a stored one only when its level is strictly higher.
  // ---------------------------------------------------------------------

  /** One step of the fold: store v under k if k is new or v's level is strictly higher. */
  function Absorb<T>(m: map<String, T>, k: String, v: T, lv: T -> Level): (r: map<String, T>)
    ensures k in r && r.Keys == m.Keys + {k}
    ensures Rank(lv(r[k])) == (if k in m && Rank(lv(m[k])) >= Rank(lv(v)) then Rank(lv(m[k])) else Rank(lv(v)))
    ensures forall j :: j in m && j != k ==> r[j] == m[j]
  {
    if k !in m || Rank(lv(v)) > Rank(lv(m[k])) then m[k := v] else m
  }

  /** The fold over the entries, from the first to the last: key gives the bucket (or None to skip), rec the record. */
  function FoldBy<E, T>(es: seq<E>, key: E -> Option<String>, rec: E -> T, lv: T -> Level): map<String, T>
    decreases |es|
  {
    if es == [] then map[]
    else
      var m := FoldBy(es[..|es| - 1], key, rec, lv);
      var e := es[|es| - 1];
      if key(e).Some? then Absorb(m, key(e).value, rec(e), lv) else m
  }

  /** Folding one more entry is one more step. */
  lemma FoldBySnoc<E, T>(es: seq<E>, e: E, key: E -> Option<String>, rec: E -> T, lv: T -> Level)
    ensures FoldBy(es + [e], key, rec, lv)
      == if key(e).Some? then Absorb(FoldBy(es, key, rec, lv), key(e).value, rec(e), lv) else FoldBy(es, key, rec, lv)
  {
    assert (es + [e])[..|es|] == es;
  }

  /** Some entry goes to bucket k. */
  predicate HasKey<E>(es: seq<E>, key: E -> Option<String>, k: String) {
    exists j :: 0 <= j < |es| && key(es[j]) == Some(k)
  }

  /** The buckets of the fold are exactly the buckets of the entries. */
  lemma {:induction false} FoldDomain<E, T>(es: seq<E>, key: E -> Option<String>, rec: E -> T, lv: T -> Level, k: String)
    ensures k in FoldBy(es, key, rec, lv) <==> HasKey(es, key, k)
    decreases |es|
  {
    if es != [] {
      var n := |es| - 1;
      var init := es[..n];
      FoldDomain(init, key, rec, lv, k);
      if HasKey(init, key, k) {
        var j :| 0 <= j < |init| && key(init[j]) == Some(k);
        assert es[j] == init[j];
      }
      if HasKey(es, key, k) && key(es[n]) != Some(k) {
        var j :| 0 <= j < |es| && key(es[j]) == Some(k);
        assert init[j] == es[j];
      }
    }
  }

  /** The stored level of entry j's bucket is at least entry j's level. */
  lemma {:induction false} FoldMax<E, T>(es: seq<E>, key: E -> Option<String>, rec: E -> T, lv: T -> Level, j: nat)
    requires j < |es| && key(es[j]).Some?
    ensures key(es[j]).value in FoldBy(es, key, rec, lv)
    ensures Rank(lv(rec(es[j]))) <= Rank(lv(FoldBy(es, key, rec, lv)[key(es[j]).value]))
    decreases |es|
  {
    var n := |es| - 1;
    var init := es[..n];
    if j < n {
      assert init[j] == es[j];
      FoldMax(init, key, rec, lv, j);
    }
  }

  /** Entry j goes to bucket k with record v, and every earlier entry of bucket k has a strictly lower level than v. */
  ghost predicate FirstOfLevel<E, T>(es: seq<E>, key: E -> Option<String>, rec: E -> T, lv: T -> Level, k: String, v: T, j: int) {
    0 <= j < |es| && key(es[j]) == Some(k) && rec(es[j]) == v
    && forall j' :: 0 <= j' < j && key(es[j']) == Some(k) ==> Rank(lv(rec(es[j']))) < Rank(lv(v))
  }

  /**
   * The stored record of a bucket is the record of one of its entries, and
   * every earlier entry of that bucket has a strictly lower level: among the
   * entries of the highest level, the first one's record is kept.
   */
  lemma {:induction false} FoldFirstWinner<E, T>(es: seq<E>, key: E -> Option<String>, rec: E -> T, lv: T -> Level, k: String)
    requires k in FoldBy(es, key, rec, lv)
    ensures exists j :: FirstOfLevel(es, key, rec, lv, k, FoldBy(es, key, rec, lv)[k], j)
    decreases |es|
  {
    var n := |es| - 1;
    var init := es[..n];
    var m := FoldBy(init, key, rec, lv);
    var e := es[n];
    if key(e) == Some(k) && (k !in m || Rank(lv(rec(e))) > Rank(lv(m[k]))) {
      forall j' | 0 <= j' < n && key(es[j']) == Some(k) ensures Rank(lv(rec(es[j']))) < Rank(lv(rec(e))) {
        assert init[j'] == es[j'];
        FoldMax(init, key, rec, lv, j');
      }
      assert FirstOfLevel(es, key, rec, lv, k, rec(e), n);
    } else {
      FoldFirstWinner(init, key, rec, lv, k);
      var j :| FirstOfLevel(init, key, rec, lv, k, m[k], j);
      assert es[j] == init[j];
      forall j' | 0 <= j' < j && key(es[j']) == Some(k) ensures Rank(lv(rec(es[j']))) < Rank(lv(m[k])) {
        assert es[j'] == init[j'];
      }
      assert FirstOfLevel(es, key, rec, lv, k, m[k], j);
    }
  }

  /** The buckets and their levels are the same whatever the order of the entries. */
  lemma FoldLevelsIgnoreOrder<E, T>(a: seq<E>, b: seq<E>, key: E -> Option<String>, rec: E -> T, lv: T -> Level, k: String)
    requires multiset(a) == multiset(b)
    ensures k in FoldBy(a, key, rec, lv) <==> k in FoldBy(b, key, rec, lv)
    ensures k in FoldBy(a, key, rec, lv) ==> lv(FoldBy(a, key, rec, lv)[k]) == lv(FoldBy(b, key, rec, lv)[k])
  {
    FoldDomain(a, key, rec, lv, k);
    FoldDomain(b, key, rec, lv, k);
    if HasKey(a, key, k) {
      var j :| 0 <= j < |a| && key(a[j]) == Some(k);
      assert a[j] in multiset(b);
    }
    if HasKey(b, key, k) {
      var j :| 0 <= j < |b| && key(b[j]) == Some(k);
      assert b[j] in multiset(a);
    }
    if k in FoldBy(a, key, rec, lv) {
      var fa := FoldBy(a, key, rec, lv);
      var fb := FoldBy(b, key, rec, lv);
      FoldFirstWinner(a, key, rec, lv, k);
      FoldFirstWinner(b, key, rec, lv, k);
      var ja :| FirstOfLevel(a, key, rec, lv, k, fa[k], ja);
      var jb :| FirstOfLevel(b, key, rec, lv, k, fb[k], jb);
      assert a[ja] in multiset(b);
      assert b[jb] in multiset(a);
      var ib :| 0 <= ib < |b| && b[ib] == a[ja];
      var ia :| 0 <= ia < |a| && a[ia] == b[jb];
      FoldMax(a, key, rec, lv, ia);
      FoldMax(b, key, rec, lv, ib);
      RankInjective(lv(fa[k]), lv(fb[k]));
    }
  }

  // ---------------------------------------------------------------------
  // The entries and the filter both passes share
  // ---------------------------------------------------------------------

  /**
   * One bulletin entry: its concatenated text, the zone the pass's own
   * zone cascade read from it, the time it was processed and the name of
   * the file it came from.
   */
  datatype Entry = Entry(text: String, zone: Option<String>, observedAt: String, source: String)

  /** An entry survives the filter: not verde and not a coastal warning. */
  predicate Kept(text: String) {
    DetectLevel(text) != Verde
    && !IsCoastal(DetectPhenomenon(text).GetOr(""))
    && !IsCoastal(text)
  }

  /** A province code is two digits, so it is never empty and has no colon. */
  lemma CodeShape(code: String)
    requires IsCode(code)
    ensures |code| == 2 && code[0] != ':' && code[1] != ':'
  {
    var i :| 0 <= i < |Names| && Code(i) == code;
  }

  // ---------------------------------------------------------------------
  // The excerpt of a raw row
  // ---------------------------------------------------------------------

  /** A word of `str.split()`: not empty, no white space. */
  predicate IsWord(w: String) {
    w != [] && forall i :: 0 <= i < |w| ==> !IsSpace(w[i])
  }

  /** The first white-space index at or after k (or |s|). */
  function WordEnd(s: String, k: nat): (r: nat)
    requires k <= |s|
    ensures k <= r <= |s|
    ensures forall j :: k <= j < r ==> !IsSpace(s[j])
    ensures r == |s| || IsSpace(s[r])
    decreases |s| - k
  {
    if k == |s| || IsSpace(s[k]) then k else WordEnd(s, k + 1)
  }

  /** The words of s from index k on, each a maximal run of non-space characters. */
  function WordsFrom(s: String, k: nat): (r: seq<String>)
    requires k <= |s|
    ensures forall i :: 0 <= i < |r| ==> IsWord(r[i])
    decreases |s| - k
  {
    var a := SkipSpaces(s, k);
    if a == |s| then []
    else
      var b := WordEnd(s, a);
      [s[a..b]] + WordsFrom(s, b)
  }

  /** The words of s, as `s.split()` gives them. */
  function Words(s: String): (r: seq<String>)
    ensures forall i :: 0 <= i < |r| ==> IsWord(r[i])
  {
    WordsFrom(s, 0)
  }

  /** The first non-space index at or after k is the one SkipSpaces finds. */
  lemma SkipSpacesUnique(s: String, k: nat, r: nat)
    requires k <= r <= |s|
    requires forall j :: k <= j < r ==> IsSpace(s[j])
    requires r == |s| || !IsSpace(s[r])
    ensures SkipSpaces(s, k) == r
  {
  }

  /** The first white-space index at or after k is the one WordEnd finds. */
  lemma WordEndUnique(s: String, k: nat, r: nat)
    requires k <= r <= |s|
    requires forall j :: k <= j < r ==> !IsSpace(s[j])
    requires r == |s| || IsSpace(s[r])
    ensures WordEnd(s, k) == r
  {
  }

  /** White space between k and m adds no word. */
  lemma WordsFromBlank(s: String, k: nat, m: nat)
    requires k <= m <= |s| && forall j :: k <= j < m ==> IsSpace(s[j])
    ensures WordsFrom(s, k) == WordsFrom(s, m)
  {
    SkipSpacesUnique(s, k, SkipSpaces(s, m));
  }

  /** A text of white space only has no words. */
  lemma WordsOfBlank(s: String)
    requires forall j :: 0 <= j < |s| ==> IsSpace(s[j])
    ensures Words(s) == []
  {
    WordsFromBlank(s, 0, |s|);
  }

  /** A word on its own splits into itself. */
  lemma WordsOfWord(w: String)
    requires IsWord(w)
    ensures Words(w) == [w]
  {
    SkipSpacesUnique(w, 0, 0);
    WordEndUnique(w, 0, |w|);
    WordsFromNone(w, |w|);
    assert w[0..|w|] == w;
  }

  /** One step of WordsFrom when a word is left: that word, then the words after it. */
  lemma WordsFromStep(s: String, k: nat, a: nat, b: nat)
    requires k <= a < |s| && a == SkipSpaces(s, k) && b == WordEnd(s, a)
    ensures WordsFrom(s, k) == [s[a..b]] + WordsFrom(s, b)
  {
  }

  /** WordsFrom when only white space is left. */
  lemma WordsFromNone(s: String, k: nat)
    requires k <= |s| && SkipSpaces(s, k) == |s|
    ensures WordsFrom(s, k) == []
  {
  }

  /** Concatenation is associative. */
  lemma ConcatAssoc<T>(a: seq<T>, b: seq<T>, c: seq<T>)
    ensures a + (b + c) == (a + b) + c
  {
  }

  /** When only white space lies between j and i, the cut text has no word from j on. */
  lemma CutBlank(s: String, i: nat, j: nat)
    requires j <= i < |s| && IsSpace(s[i]) && SkipSpaces(s, j) > i
    ensures WordsFrom(s[..i], j) == []
    ensures WordsFrom(s, j) == WordsFrom(s, i + 1)
  {
    var p := s[..i];
    SkipSpacesUnique(p, j, i);
    WordsFromNone(p, j);
    WordsFromBlank(s, j, i + 1);
  }

  /** A word that ends by i is the next word of the text and of the text cut at i. */
  lemma CutHead(s: String, i: nat, j: nat, a: nat, b: nat)
    requires j <= a < i <= |s| && a == SkipSpaces(s, j) && b == WordEnd(s, a) && b <= i
    ensures WordsFrom(s, j) == [s[a..b]] + WordsFrom(s, b)
    ensures WordsFrom(s[..i], j) == [s[a..b]] + WordsFrom(s[..i], b)
  {
    var p := s[..i];
    SkipSpacesUnique(p, j, a);
    WordEndUnique(p, a, b);
    WordsFromStep(s, j, a, b);
    WordsFromStep(p, j, a, b);
    var w := p[a..b];
    assert w == s[a..b];
  }

  /**
   * The words from j on of a text with white space at i are those of the
   * text cut at i, followed by those after i.
   */
  lemma {:induction false} WordsFromCut(s: String, i: nat, j: nat)
    requires j <= i < |s| && IsSpace(s[i])
    ensures WordsFrom(s, j) == WordsFrom(s[..i], j) + WordsFrom(s, i + 1)
    decreases i - j
  {
    var a := SkipSpaces(s, j);
    if a > i {
      CutBlank(s, i, j);
    } else {
      assert a < i;
      var b := WordEnd(s, a);
      if b == i {
        CutLastWord(s, i, j, a);
      } else {
        CutHead(s, i, j, a, b);
        WordsFromCut(s, i, b);
        ConcatAssoc([s[a..b]], WordsFrom(s[..i], b), WordsFrom(s, i + 1));
      }
    }
  }

  /** When the next word ends at the white space at i, it is the last word of the text cut at i. */
  lemma CutLastWord(s: String, i: nat, j: nat, a: nat)
    requires j <= a < i < |s| && IsSpace(s[i]) && a == SkipSpaces(s, j) && WordEnd(s, a) == i
    ensures WordsFrom(s, j) == WordsFrom(s[..i], j) + WordsFrom(s, i + 1)
  {
    CutHead(s, i, j, a, i);
    WordsFromNone(s[..i], i);
    WordsFromBlank(s, i, i + 1);
  }

  /** Skipping white space in x + y from |x| + j on is skipping it in y from j on, shifted by |x|. */
  lemma SkipSpacesShift(x: String, y: String, j: nat)
    requires j <= |y|
    ensures SkipSpaces(x + y, |x| + j) == |x| + SkipSpaces(y, j)
  {
    var s := x + y;
    var a := SkipSpaces(y, j);
    forall m | |x| + j <= m < |x| + a
      ensures IsSpace(s[m])
    {
      assert s[m] == y[m - |x|];
    }
    assert a == |y| || s[|x| + a] == y[a];
    SkipSpacesUnique(s, |x| + j, |x| + a);
  }

  /** The end of a word of y is its end in x + y, shifted by |x|. */
  lemma WordEndShift(x: String, y: String, a: nat)
    requires a <= |y|
    ensures WordEnd(x + y, |x| + a) == |x| + WordEnd(y, a)
  {
    var s := x + y;
    var b := WordEnd(y, a);
    forall m | |x| + a <= m < |x| + b
      ensures !IsSpace(s[m])
    {
      assert s[m] == y[m - |x|];
    }
    assert b == |y| || s[|x| + b] == y[b];
    WordEndUnique(s, |x| + a, |x| + b);
  }

  /** The next word of y is the next word of x + y, |x| further on. */
  lemma ShiftHead(x: String, y: String, j: nat, a: nat, b: nat)
    requires j <= a < |y| && b <= |y|
    requires SkipSpaces(x + y, |x| + j) == |x| + a && WordEnd(x + y, |x| + a) == |x| + b
    ensures WordsFrom(x + y, |x| + j) == [y[a..b]] + WordsFrom(x + y, |x| + b)
  {
    AppendSlice(x, y, a, b);
  }

  /** When y has only white space from j on, so has x + y from |x| + j on. */
  lemma ShiftBlank(x: String, y: String, j: nat)
    requires j <= |y| && SkipSpaces(y, j) == |y|
    ensures WordsFrom(x + y, |x| + j) == []
  {
    SkipSpacesShift(x, y, j);
    WordsFromNone(x + y, |x| + j);
  }

  /** The words of x + y from |x| + j on are the words of y from j on. */
  lemma {:induction false} WordsFromShift(x: String, y: String, j: nat)
    requires j <= |y|
    ensures WordsFrom(x + y, |x| + j) == WordsFrom(y, j)
    decreases |y| - j
  {
    var a := SkipSpaces(y, j);
    if a == |y| {
      WordsFromNone(y, j);
      ShiftBlank(x, y, j);
    } else {
      var b := WordEnd(y, a);
      SkipSpacesShift(x, y, j);
      WordEndShift(x, y, a);
      ShiftHead(x, y, j, a, b);
      WordsFromShift(x, y, b);
    }
  }

  /** The words of s from k on are the words of the suffix s[k..]. */
  lemma WordsFromSuffix(s: String, k: nat)
    requires k <= |s|
    ensures WordsFrom(s, k) == Words(s[k..])
  {
    var x := s[..k];
    var y := s[k..];
    assert x + y == s;
    WordsFromShift(x, y, 0);
  }

  /**
   * Splitting at a white-space character splits the words: the words of s
   * are those before position i followed by those after it.
   */
  lemma WordsSplitAtSpace(s: String, i: nat)
    requires i < |s| && IsSpace(s[i])
    ensures Words(s) == Words(s[..i]) + Words(s[i + 1..])
  {
    WordsFromCut(s, i, 0);
    WordsFromSuffix(s, i + 1);
  }

  /** `' '.join(ws)`. */
  function Join(ws: seq<String>): String
    decreases |ws|
  {
    if ws == [] then []
    else if |ws| == 1 then ws[0]
    else ws[0] + " " + Join(ws[1..])
  }

  /** The only white space is single blanks, none of them at the start. */
  predicate SingleSpaced(s: String) {
    forall i :: 0 <= i < |s| && IsSpace(s[i]) ==> s[i] == ' ' && i > 0 && !IsSpace(s[i - 1])
  }

  /** The join of words starts with the first word's first character. */
  lemma JoinStarts(ws: seq<String>)
    requires ws != [] && ws[0] != []
    ensures Join(ws) != [] && Join(ws)[0] == ws[0][0]
  {
  }

  /** Joining words gives single-spaced text that does not end with a blank. */
  lemma {:induction false} JoinSingleSpaced(ws: seq<String>)
    requires forall k :: 0 <= k < |ws| ==> IsWord(ws[k])
    ensures SingleSpaced(Join(ws))
    ensures Join(ws) == [] || !IsSpace(Join(ws)[|Join(ws)| - 1])
    decreases |ws|
  {
    if |ws| > 1 {
      var tail := ws[1..];
      assert forall k :: 0 <= k < |tail| ==> tail[k] == ws[k + 1];
      JoinSingleSpaced(tail);
      JoinStarts(tail);
      var w := ws[0];
      var rest := Join(tail);
      var s := w + " " + rest;
      assert Join(ws) == s;
      assert forall i :: 0 <= i < |w| ==> s[i] == w[i];
      assert s[|w|] == ' ';
      assert forall i :: |w| < i < |s| ==> s[i] == rest[i - |w| - 1];
      assert s[|s| - 1] == rest[|rest| - 1];
    }
  }

  /** Splitting joined words gives the words back. */
  lemma {:induction false} WordsOfJoin(ws: seq<String>)
    requires forall k :: 0 <= k < |ws| ==> IsWord(ws[k])
    ensures Words(Join(ws)) == ws
    decreases |ws|
  {
    if ws == [] {
      WordsOfBlank([]);
    } else if |ws| == 1 {
      WordsOfWord(ws[0]);
    } else {
      var tail := ws[1..];
      assert forall k :: 0 <= k < |tail| ==> tail[k] == ws[k + 1];
      var s := ws[0] + " " + Join(tail);
      var i := |ws[0]|;
      assert Join(ws) == s && s[i] == ' ';
      WordsSplitAtSpace(s, i);
      assert s[..i] == ws[0] && s[i + 1..] == Join(tail);
      WordsOfWord(ws[0]);
      WordsOfJoin(tail);
      assert [ws[0]] + tail == ws;
    }
  }

  /** `' '.join(text.split())[:300]`: at most 300 characters of the single-spaced text. */
  function Excerpt(text: String): (r: String)
    ensures |r| <= 300
    ensures SingleSpaced(r)
    ensures StartsWith(Join(Words(text)), r)
    ensures |Join(Words(text))| <= 300 ==> r == Join(Words(text))
    ensures |Join(Words(text))| > 300 ==> r == Join(Words(text))[..300]
  {
    var full := Join(Words(text));
    JoinSingleSpaced(Words(text));
    if |full| <= 300 then full else full[..300]
  }

  // ---------------------------------------------------------------------
  // The raw pass
  // ---------------------------------------------------------------------

  /** One row of the raw CSV. */
  datatype RawRow = RawRow(prov: String, name: String, zone: Option<String>, level: Level, phenomenon: String,
                           start: String, observedAt: String, source: String, excerpt: String)

  /** The per-province record of the simplified CSV. */
  datatype ProvinceAlert = ProvinceAlert(name: String, level: Level, phenomenon: String, observedAt: String)

  function AlertLevel(a: ProvinceAlert): Level {
    a.level
  }

  /** The raw row of a kept entry. */
  function RowOf(e: Entry): RawRow {
    var prov := DetectProvince(e.text).GetOr("");
    RawRow(prov, ProvinceName(prov), e.zone, DetectLevel(e.text), DetectPhenomenon(e.text).GetOr(""),
           ExtractStartDate(e.text).GetOr(e.observedAt), e.observedAt, e.source, Excerpt(e.text))
  }

  /** The rows of the raw CSV: one per kept entry, in order. */
  function RawRows(es: seq<Entry>): seq<RawRow>
    decreases |es|
  {
    if es == [] then []
    else
      var e := es[|es| - 1];
      RawRows(es[..|es| - 1]) + (if Kept(e.text) then [RowOf(e)] else [])
  }

  /** The rows of one more entry. */
  lemma RawRowsSnoc(es: seq<Entry>, e: Entry)
    ensures RawRows(es + [e]) == RawRows(es) + (if Kept(e.text) then [RowOf(e)] else [])
  {
    var s := es + [e];
    assert s[..|s| - 1] == es;
    assert s[|s| - 1] == e;
  }

  /** What every raw row satisfies. */
  predicate WellFormedRow(r: RawRow) {
    r.level != Verde && (r.prov == "" || IsCode(r.prov)) && r.name == ProvinceName(r.prov)
    && (IsoDateTime(r.start) || r.start == r.observedAt)
    && |r.excerpt| <= 300 && SingleSpaced(r.excerpt)
  }

  /** The row of a kept entry is well formed. */
  lemma RowOfWellFormed(e: Entry)
    requires Kept(e.text)
    ensures WellFormedRow(RowOf(e))
  {
    StartIsIsoOr(e.text, e.observedAt);
  }

  /** A row's start is a normalised date-time, or the fallback when the text has none. */
  lemma StartIsIsoOr(text: String, fallback: String)
    ensures var start := ExtractStartDate(text).GetOr(fallback);
            IsoDateTime(start) || start == fallback
  {
    if ExtractStartDate(text).Some? {
      ExtractStartDateShape(text, FindCore(text, 0).value);
    }
  }

  /**
   * Every row is above verde, has a province code or "", is named after
   * it, starts at a normalised date-time or at the processing time, and has
   * a single-spaced excerpt of at most 300 characters.
   */
  lemma {:induction false} RawRowsWellFormed(es: seq<Entry>)
    ensures forall k :: 0 <= k < |RawRows(es)| ==> WellFormedRow(RawRows(es)[k])
    decreases |es|
  {
    if es != [] {
      var e := es[|es| - 1];
      var init := RawRows(es[..|es| - 1]);
      RawRowsWellFormed(es[..|es| - 1]);
      if Kept(e.text) {
        var row := RowOf(e);
        RowOfWellFormed(e);
        forall k | 0 <= k < |init| + 1 ensures WellFormedRow((init + [row])[k]) {
          if k < |init| { assert (init + [row])[k] == init[k]; }
        }
      }
    }
  }

  /** The record a kept entry offers for its province. */
  function AlertOf(e: Entry): ProvinceAlert {
    var prov := DetectProvince(e.text).GetOr("");
    ProvinceAlert(ProvinceName(prov), DetectLevel(e.text), DetectPhenomenon(e.text).GetOr(""), e.observedAt)
  }

  /** The province of a kept entry, if it has one. */
  function ProvinceKey(e: Entry): Option<String> {
    if Kept(e.text) then DetectProvince(e.text) else None
  }

  /** The `alertas_por_provincia` dictionary the raw pass builds. */
  function ProvinceMap(es: seq<Entry>): map<String, ProvinceAlert> {
    FoldBy(es, ProvinceKey, AlertOf, AlertLevel)
  }

  /** Verde and coastal entries add no row and leave the province records alone. */
  lemma RawSkips(es: seq<Entry>, e: Entry)
    requires !Kept(e.text)
    ensures RawRows(es + [e]) == RawRows(es)
    ensures ProvinceMap(es + [e]) == ProvinceMap(es)
  {
    RawRowsSnoc(es, e);
    FoldBySnoc(es, e, ProvinceKey, AlertOf, AlertLevel);
  }

  /** A province has a record exactly when some kept entry resolves to it. */
  lemma ProvinceMapDomain(es: seq<Entry>, k: String)
    ensures k in ProvinceMap(es) <==> exists j :: 0 <= j < |es| && Kept(es[j].text) && DetectProvince(es[j].text) == Some(k)
  {
    FoldDomain(es, ProvinceKey, AlertOf, AlertLevel, k);
  }

  /** The level of a province's record is at least the level of each kept entry resolving to it. */
  lemma ProvinceMapMax(es: seq<Entry>, j: nat)
    requires j < |es| && Kept(es[j].text) && DetectProvince(es[j].text).Some?
    ensures DetectProvince(es[j].text).value in ProvinceMap(es)
    ensures Rank(DetectLevel(es[j].text)) <= Rank(ProvinceMap(es)[DetectProvince(es[j].text).value].level)
  {
    FoldMax(es, ProvinceKey, AlertOf, AlertLevel, j);
  }

  /**
   * A province's record is named after it, is above verde, and is the
   * record of the first kept entry of that province with the highest level:
   * a tie keeps the first entry's phenomenon and time.
   */
  lemma ProvinceMapRecord(es: seq<Entry>, k: String)
    requires k in ProvinceMap(es)
    ensures IsCode(k) && ProvinceMap(es)[k].name == ProvinceName(k) && ProvinceMap(es)[k].level != Verde
    ensures exists j :: FirstOfLevel(es, ProvinceKey, AlertOf, AlertLevel, k, ProvinceMap(es)[k], j)
  {
    FoldFirstWinner(es, ProvinceKey, AlertOf, AlertLevel, k);
    var j :| FirstOfLevel(es, ProvinceKey, AlertOf, AlertLevel, k, ProvinceMap(es)[k], j);
  }

  /**
   * The update the raw pass makes for a kept entry with a province: insert
   * its record when the province is new, or overwrite the stored record's
   * level, phenomenon and time (keeping its name) when the level is strictly
   * higher. That is one step of the specification fold.
   */
  lemma ProvinceStep(es: seq<Entry>, e: Entry, prov: String)
    requires Kept(e.text) && DetectProvince(e.text) == Some(prov)
    ensures var m := ProvinceMap(es);
      var level := DetectLevel(e.text);
      var fenomeno := DetectPhenomenon(e.text).GetOr("");
      ProvinceMap(es + [e])
      == if prov !in m then m[prov := ProvinceAlert(ProvinceName(prov), level, fenomeno, e.observedAt)]
         else if Rank(level) > Rank(m[prov].level) then m[prov := m[prov].(level := level, phenomenon := fenomeno, observedAt := e.observedAt)]
         else m
  {
    FoldBySnoc(es, e, ProvinceKey, AlertOf, AlertLevel);
    if prov in ProvinceMap(es) {
      ProvinceMapRecord(es, prov);
    }
  }

  /** One iteration of the raw pass: entry e is appended as a row and absorbed into the province map when it is kept. */
  method RawEntry(ghost es: seq<Entry>, rows: seq<RawRow>, byProvince: map<String, ProvinceAlert>, e: Entry)
    returns (rows': seq<RawRow>, byProvince': map<String, ProvinceAlert>)
    requires rows == RawRows(es) && byProvince == ProvinceMap(es)
    ensures rows' == RawRows(es + [e]) && byProvince' == ProvinceMap(es + [e])
  {
    rows', byProvince' := rows, byProvince;
    RawRowsSnoc(es, e);
    var level := DetectLevel(e.text);
    if level != Verde {
      var phenomenon := DetectPhenomenon(e.text);
      if !IsCoastal(phenomenon.GetOr("")) && !IsCoastal(e.text) {
        var prov := DetectProvince(e.text).GetOr("");
        var fenomeno := phenomenon.GetOr("");
        var start := ExtractStartDate(e.text).GetOr(e.observedAt);
        rows' := rows' + [RawRow(prov, ProvinceName(prov), e.zone, level, fenomeno, start, e.observedAt, e.source, Excerpt(e.text))];
        if DetectProvince(e.text).Some? {
          CodeShape(prov);
          ProvinceStep(es, e, prov);
        } else {
          FoldBySnoc(es, e, ProvinceKey, AlertOf, AlertLevel);
        }
        if prov != [] && prov !in byProvince' {
          byProvince' := byProvince'[prov := ProvinceAlert(ProvinceName(prov), level, fenomeno, e.observedAt)];
        } else if prov != [] {
          if Rank(level) > Rank(byProvince'[prov].level) {
            byProvince' := byProvince'[prov := byProvince'[prov].(level := level, phenomenon := fenomeno, observedAt := e.observedAt)];
          }
        }
      } else {
        RawSkips(es, e);
      }
    } else {
      RawSkips(es, e);
    }
  }

  /**
   * `parse_tmp_and_write_raw_csv`'s loop: every entry that is neither verde
   * nor coastal appends a row; an entry with a province inserts its record,
   * or raises the stored one's level, phenomenon and time when its level is
   * strictly higher.
   */
  method ReduceRaw(entries: seq<Entry>) returns (rows: seq<RawRow>, byProvince: map<String, ProvinceAlert>)
    ensures rows == RawRows(entries)
    ensures byProvince == ProvinceMap(entries)
  {
    rows := [];
    byProvince := map[];
    var i := 0;
    while i < |entries|
      invariant 0 <= i <= |entries|
      invariant rows == RawRows(entries[..i])
      invariant byProvince == ProvinceMap(entries[..i])
    {
      assert entries[..i + 1] == entries[..i] + [entries[i]];
      rows, byProvince := RawEntry(entries[..i], rows, byProvince, entries[i]);
      i := i + 1;
    }
    assert entries[..|entries|] == entries;
  }

  // ---------------------------------------------------------------------
  // The grouped pass
  // ---------------------------------------------------------------------

  /** The record of `alertas_por_subprov`. */
  datatype ZoneAlert = ZoneAlert(prov: Option<String>, zone: Option<String>, level: Level, phenomenon: String, observedAt: String)

  function ZoneAlertLevel(a: ZoneAlert): Level {
    a.level
  }

  /** A zone is truthy when present and not empty. */
  predicate HasZone(zone: Option<String>) {
    zone.Some? && zone.value != []
  }

  /** `subprov or 'general'`. */
  function ZoneLabel(zone: Option<String>): String {
    if HasZone(zone) then zone.value else "general"
  }

  /** `f"{prov or '00'}::{subprov or 'general'}"`. */
  function GroupKey(prov: Option<String>, zone: Option<String>): String {
    prov.GetOr("00") + "::" + ZoneLabel(zone)
  }

  /**
   * Keys tell buckets apart: when both provinces are codes (or absent),
   * equal keys mean the same province-or-"00" and the same zone label.
   */
  lemma GroupKeyInjective(p1: Option<String>, z1: Option<String>, p2: Option<String>, z2: Option<String>)
    requires p1.Some? ==> IsCode(p1.value)
    requires p2.Some? ==> IsCode(p2.value)
    ensures GroupKey(p1, z1) == GroupKey(p2, z2) <==> p1.GetOr("00") == p2.GetOr("00") && ZoneLabel(z1) == ZoneLabel(z2)
  {
    if p1.Some? { CodeShape(p1.value); }
    if p2.Some? { CodeShape(p2.value); }
    var k1 := GroupKey(p1, z1);
    var k2 := GroupKey(p2, z2);
    assert p1.GetOr("00") == k1[..2] && ZoneLabel(z1) == k1[4..];
    assert p2.GetOr("00") == k2[..2] && ZoneLabel(z2) == k2[4..];
  }

  /** The "00" placeholder is not a province code, so an entry without a province never shares a province's bucket. */
  lemma NoProvinceBucketIsApart(z1: Option<String>, p2: String, z2: Option<String>)
    requires IsCode(p2)
    ensures GroupKey(None, z1) != GroupKey(Some(p2), z2)
  {
    NotCodes();
    GroupKeyInjective(None, z1, Some(p2), z2);
  }

  /** `detect_phenomenon(entry) or 'null'`: an absent or empty phenomenon is written "null". */
  function PhenomenonOrNull(p: Option<String>): (r: String)
    ensures r != []
    ensures p.Some? && p.value != [] ==> r == p.value
    ensures r != "null" ==> p == Some(r)
  {
    if p.Some? && p.value != [] then p.value else "null"
  }

  /** The record a kept entry offers for its bucket. */
  function ZoneAlertOf(e: Entry): ZoneAlert {
    ZoneAlert(DetectProvince(e.text), e.zone, DetectLevel(e.text), PhenomenonOrNull(DetectPhenomenon(e.text)), e.observedAt)
  }

  /** An entry enters the grouped pass: kept, and with a province or a zone. */
  predicate Grouped(e: Entry) {
    Kept(e.text) && (DetectProvince(e.text).Some? || HasZone(e.zone))
  }

  /** The bucket of an entry that enters the grouped pass. */
  function ZoneKey(e: Entry): Option<String> {
    if Grouped(e) then Some(GroupKey(DetectProvince(e.text), e.zone)) else None
  }

  /** The `alertas_por_subprov` dictionary. */
  function ZoneMap(es: seq<Entry>): map<String, ZoneAlert> {
    FoldBy(es, ZoneKey, ZoneAlertOf, ZoneAlertLevel)
  }

  /** Verde and coastal entries, and entries with neither a province nor a zone, leave the records alone. */
  lemma GroupedSkips(es: seq<Entry>, e: Entry)
    requires !Kept(e.text) || (DetectProvince(e.text).None? && !HasZone(e.zone))
    ensures ZoneMap(es + [e]) == ZoneMap(es)
  {
    FoldBySnoc(es, e, ZoneKey, ZoneAlertOf, ZoneAlertLevel);
  }

  /** A bucket has a record exactly when some entry of the grouped pass falls in it. */
  lemma ZoneMapDomain(es: seq<Entry>, k: String)
    ensures k in ZoneMap(es) <==> exists j :: 0 <= j < |es| && Grouped(es[j]) && GroupKey(DetectProvince(es[j].text), es[j].zone) == k
  {
    FoldDomain(es, ZoneKey, ZoneAlertOf, ZoneAlertLevel, k);
    if k in ZoneMap(es) {
      var j :| 0 <= j < |es| && ZoneKey(es[j]) == Some(k);
    }
  }

  /** The level of a bucket's record is at least the level of each entry falling in it. */
  lemma ZoneMapMax(es: seq<Entry>, j: nat)
    requires j < |es| && Grouped(es[j])
    ensures GroupKey(DetectProvince(es[j].text), es[j].zone) in ZoneMap(es)
    ensures Rank(DetectLevel(es[j].text)) <= Rank(ZoneMap(es)[GroupKey(DetectProvince(es[j].text), es[j].zone)].level)
  {
    FoldMax(es, ZoneKey, ZoneAlertOf, ZoneAlertLevel, j);
  }

  /**
   * A bucket's record sits under its own key, is above verde, has a
   * province or a zone, and is the record of the first entry of that bucket
   * with the highest level.
   */
  lemma ZoneMapRecord(es: seq<Entry>, k: String)
    requires k in ZoneMap(es)
    ensures var a := ZoneMap(es)[k];
      k == GroupKey(a.prov, a.zone) && a.level != Verde && (a.prov.Some? || HasZone(a.zone))
    ensures exists j :: FirstOfLevel(es, ZoneKey, ZoneAlertOf, ZoneAlertLevel, k, ZoneMap(es)[k], j)
  {
    FoldFirstWinner(es, ZoneKey, ZoneAlertOf, ZoneAlertLevel, k);
    var j :| FirstOfLevel(es, ZoneKey, ZoneAlertOf, ZoneAlertLevel, k, ZoneMap(es)[k], j);
  }

  /** One entry of the grouped pass: a grouped entry takes its key when the key is new or its level is higher. */
  function ZoneAbsorb(m: map<String, ZoneAlert>, e: Entry): map<String, ZoneAlert> {
    var key := GroupKey(DetectProvince(e.text), e.zone);
    if Grouped(e) && (key !in m || Rank(DetectLevel(e.text)) > Rank(m[key].level)) then m[key := ZoneAlertOf(e)]
    else m
  }

  /** The grouped pass over one more entry is one more step. */
  lemma ZoneStep(es: seq<Entry>, e: Entry)
    ensures ZoneMap(es + [e]) == ZoneAbsorb(ZoneMap(es), e)
  {
    FoldBySnoc(es, e, ZoneKey, ZoneAlertOf, ZoneAlertLevel);
  }

  /**
   * `parse_tmp_and_write_csv`'s loop: verde and coastal entries are
   * skipped, so are entries with neither a province nor a zone; the rest
   * store their record under `prov::zone` when the key is new or the level
   * is strictly higher than the stored one.
   */
  method ReduceGrouped(entries: seq<Entry>) returns (bySubprov: map<String, ZoneAlert>)
    ensures bySubprov == ZoneMap(entries)
  {
    bySubprov := map[];
    var i := 0;
    while i < |entries|
      invariant 0 <= i <= |entries|
      invariant bySubprov == ZoneMap(entries[..i])
    {
      var e := entries[i];
      assert entries[..i + 1] == entries[..i] + [e];
      ZoneStep(entries[..i], e);
      ghost var before := bySubprov;
      var level := DetectLevel(e.text);
      if level != Verde && !IsCoastal(DetectPhenomenon(e.text).GetOr("")) && !IsCoastal(e.text) {
        var prov := DetectProvince(e.text);
        if prov.Some? || HasZone(e.zone) {
          assert Grouped(e);
          var fenomeno := PhenomenonOrNull(DetectPhenomenon(e.text));
          var key := GroupKey(prov, e.zone);
          if key !in bySubprov || Rank(level) > Rank(bySubprov[key].level) {
            bySubprov := bySubprov[key := ZoneAlert(prov, e.zone, level, fenomeno, e.observedAt)];
          }
        } else {
          assert !Grouped(e);
        }
      } else {
        assert !Kept(e.text);
      }
      assert bySubprov == ZoneAbsorb(before, e);
      i := i + 1;
    }
    assert entries[..|entries|] == entries;
  }
}
