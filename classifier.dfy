/**
 * The text classifiers of the alert downloader: `detect_level`, `is_coastal`,
 * `detect_phenomenon`, `extract_start_date` and `mask_key`.
 *
 * Each regular expression of the source is modelled by a predicate saying
 * where it matches, plus a search function proved to return the match
 * Python's backtracking engine reports (leftmost start, then the
 * alternatives in the order the engine tries them).
 */
module Classifier {
  import opened Wrappers
  import opened TextOps
  import opened Levels

  // ---------------------------------------------------------------------
  // detect_level
  // ---------------------------------------------------------------------

  /** The regex `nivel\s*d` matches at position i of t. */
  predicate NivelAt(t: String, i: int, d: char) {
    0 <= i && i + 5 <= |t| && t[i..i + 5] == "nivel"
    && SkipSpaces(t, i + 5) < |t| && t[SkipSpaces(t, i + 5)] == d
  }

  /** `re.search(r'nivel\s*d', t)` succeeds. */
  predicate HasNivel(t: String, d: char) {
    exists i :: 0 <= i < |t| && NivelAt(t, i, d)
  }

  /** `rojo|extremo|riesgo extremo|nivel\s*4` occurs in the lower-cased text t. */
  predicate RojoCue(t: String) {
    Contains(t, "rojo") || Contains(t, "extremo") || Contains(t, "riesgo extremo") || HasNivel(t, '4')
  }

  /** `naranja|importante|nivel\s*3` occurs in t. */
  predicate NaranjaCue(t: String) {
    Contains(t, "naranja") || Contains(t, "importante") || HasNivel(t, '3')
  }

  /** `amarillo|advertencia|riesgo|nivel\s*2` occurs in t. */
  predicate AmarilloCue(t: String) {
    Contains(t, "amarillo") || Contains(t, "advertencia") || Contains(t, "riesgo") || HasNivel(t, '2')
  }

  /**
   * `detect_level`: the cues are tried from the highest level down on the
   * lower-cased text and the first that matches decides; no cue is verde.
   */
  function DetectLevel(text: String): (r: Level)
    ensures r == Verde <==> !RojoCue(LowerStr(text)) && !NaranjaCue(LowerStr(text)) && !AmarilloCue(LowerStr(text))
  {
    var t := LowerStr(text);
    if RojoCue(t) then Rojo
    else if NaranjaCue(t) then Naranja
    else if AmarilloCue(t) then Amarillo
    else Verde
  }

  /** A rojo cue wins over every other cue, e.g. a text with both "rojo" and "amarillo" is rojo. */
  lemma RojoCueWins(text: String)
    requires RojoCue(LowerStr(text))
    ensures DetectLevel(text) == Rojo
  {
  }

  /** A naranja cue without a rojo cue gives naranja, whatever amarillo cues are present. */
  lemma NaranjaCueWins(text: String)
    requires !RojoCue(LowerStr(text)) && NaranjaCue(LowerStr(text))
    ensures DetectLevel(text) == Naranja
  {
  }

  /** An amarillo cue without a rojo or naranja cue gives amarillo. */
  lemma AmarilloCueWins(text: String)
    requires !RojoCue(LowerStr(text)) && !NaranjaCue(LowerStr(text)) && AmarilloCue(LowerStr(text))
    ensures DetectLevel(text) == Amarillo
  {
  }

  /** Any text that mentions "riesgo", in any case, is at least amarillo. */
  lemma RiesgoAtLeastAmarillo(text: String)
    requires Contains(LowerStr(text), "riesgo")
    ensures Rank(DetectLevel(text)) >= 1
  {
  }

  /** The level does not depend on letter case. */
  lemma DetectLevelIgnoresCase(text: String)
    ensures DetectLevel(LowerStr(text)) == DetectLevel(text)
  {
    LowerStrIdempotent(text);
  }

  /** A word found in a or in b is found in a + b. */
  lemma ContainsAppend(a: String, b: String, w: String)
    requires Contains(a, w) || Contains(b, w)
    ensures Contains(a + b, w)
  {
    ContainsIff(a, w);
    ContainsIff(b, w);
    ContainsIff(a + b, w);
    if Contains(a, w) {
      var i :| OccursAt(a, w, i);
      assert (a + b)[i..i + |w|] == a[i..i + |w|];
      assert OccursAt(a + b, w, i);
    } else {
      var i :| OccursAt(b, w, i);
      assert (a + b)[|a| + i..|a| + i + |w|] == b[i..i + |w|];
      assert OccursAt(a + b, w, |a| + i);
    }
  }

  /** Skipping white space inside a is not affected by what follows a, once a non-space is found. */
  lemma SkipSpacesAppendLeft(a: String, b: String, k: nat)
    requires k <= |a| && SkipSpaces(a, k) < |a|
    ensures SkipSpaces(a + b, k) == SkipSpaces(a, k)
  {
    var r := SkipSpaces(a, k);
    assert forall j :: k <= j <= r ==> (a + b)[j] == a[j];
  }

  /** Skipping white space inside b is shifted by |a| in a + b. */
  lemma SkipSpacesAppendRight(a: String, b: String, k: nat)
    requires k <= |b|
    ensures SkipSpaces(a + b, |a| + k) == |a| + SkipSpaces(b, k)
  {
    var r := SkipSpaces(b, k);
    assert forall j :: k <= j < |b| ==> (a + b)[|a| + j] == b[j];
  }

  /** A `nivel\s*d` match in a or in b is a match in a + b. */
  lemma HasNivelAppend(a: String, b: String, d: char)
    requires HasNivel(a, d) || HasNivel(b, d)
    ensures HasNivel(a + b, d)
  {
    if HasNivel(a, d) {
      var i :| 0 <= i < |a| && NivelAt(a, i, d);
      SkipSpacesAppendLeft(a, b, i + 5);
      assert (a + b)[i..i + 5] == a[i..i + 5];
      assert NivelAt(a + b, i, d);
    } else {
      var i :| 0 <= i < |b| && NivelAt(b, i, d);
      SkipSpacesAppendRight(a, b, i + 5);
      assert (a + b)[|a| + i..|a| + i + 5] == b[i..i + 5];
      assert NivelAt(a + b, |a| + i, d);
    }
  }

  /** Every cue of a or of b is a cue of a + b. */
  lemma CuesAppend(a: String, b: String)
    ensures RojoCue(a) || RojoCue(b) ==> RojoCue(a + b)
    ensures NaranjaCue(a) || NaranjaCue(b) ==> NaranjaCue(a + b)
    ensures AmarilloCue(a) || AmarilloCue(b) ==> AmarilloCue(a + b)
  {
    var words := ["rojo", "extremo", "riesgo extremo", "naranja", "importante", "amarillo", "advertencia", "riesgo"];
    forall w | w in words && (Contains(a, w) || Contains(b, w))
      ensures Contains(a + b, w)
    {
      ContainsAppend(a, b, w);
    }
    forall d | d in "432" && (HasNivel(a, d) || HasNivel(b, d))
      ensures HasNivel(a + b, d)
    {
      HasNivelAppend(a, b, d);
    }
  }

  /**
   * Adding text before or after a bulletin never lowers its level: the
   * level of a + b is at least the level of a and the level of b.
   */
  lemma DetectLevelMonotone(a: String, b: String)
    ensures Rank(DetectLevel(a)) <= Rank(DetectLevel(a + b))
    ensures Rank(DetectLevel(b)) <= Rank(DetectLevel(a + b))
  {
    LowerStrAppend(a, b);
    CuesAppend(LowerStr(a), LowerStr(b));
  }

  // ---------------------------------------------------------------------
  // is_coastal
  // ---------------------------------------------------------------------

  /** The words of `\b(costero|costeros|coster)\b`, in the order the alternation tries them. */
  const CoastalWords: seq<String> := ["costero", "costeros", "coster"]

  /**
   * w occurs at i of t as a whole word: `\b` holds before and after it.
   * Each coastal word begins and ends with a word character, so `\b` there
   * means a non-word character or the edge of the text on the outer side.
   */
  predicate WholeWordAt(t: String, w: String, i: int) {
    OccursAt(t, w, i)
    && (i == 0 || !IsWordChar(t[i - 1]))
    && (i + |w| == |t| || !IsWordChar(t[i + |w|]))
  }

  /** One of the coastal words occurs as a whole word at i. */
  predicate CoastalAt(t: String, i: int) {
    WholeWordAt(t, "costero", i) || WholeWordAt(t, "costeros", i) || WholeWordAt(t, "coster", i)
  }

  /** The regex search from position i on. */
  function CoastalFrom(t: String, i: nat): (r: bool)
    requires i <= |t|
    ensures r <==> exists j :: i <= j < |t| && CoastalAt(t, j)
    decreases |t| - i
  {
    if i == |t| then false
    else CoastalAt(t, i) || CoastalFrom(t, i + 1)
  }

  /** `is_coastal`: false for the empty text, else the regex search on the lower-cased text. */
  function IsCoastal(text: String): (r: bool)
    ensures text == [] ==> !r
  {
    text != [] && CoastalFrom(LowerStr(text), 0)
  }

  /**
   * A text is coastal exactly when its lower-cased form holds "costero",
   * "costeros" or "coster" as a whole word.
   */
  lemma IsCoastalIff(text: String)
    ensures IsCoastal(text) <==>
      exists w, i :: w in CoastalWords && WholeWordAt(LowerStr(text), w, i)
  {
    var t := LowerStr(text);
    if IsCoastal(text) {
      var j :| 0 <= j < |t| && CoastalAt(t, j);
      if WholeWordAt(t, "costero", j) {
        assert CoastalWords[0] == "costero";
      } else if WholeWordAt(t, "costeros", j) {
        assert CoastalWords[1] == "costeros";
      } else {
        assert CoastalWords[2] == "coster";
      }
    }
    if exists w, i :: w in CoastalWords && WholeWordAt(t, w, i) {
      var w, i :| w in CoastalWords && WholeWordAt(t, w, i);
      assert CoastalAt(t, i);
      assert text != [];
    }
  }

  /** Every coastal word contains "coster", so a text without it is never coastal (e.g. "costera"). */
  lemma NoCosterNotCoastal(text: String)
    requires !Contains(LowerStr(text), "coster")
    ensures !IsCoastal(text)
  {
    var t := LowerStr(text);
    ContainsIff(t, "coster");
    forall j | 0 <= j < |t| && CoastalAt(t, j) ensures false {
      CoastalHasCoster(t, j);
    }
  }

  /** Every coastal word starts with "coster". */
  lemma CoastalHasCoster(t: String, j: int)
    requires CoastalAt(t, j)
    ensures OccursAt(t, "coster", j)
  {
    if WholeWordAt(t, "costero", j) {
      assert t[j..j + 6] == t[j..j + 7][..6];
    } else if WholeWordAt(t, "costeros", j) {
      assert t[j..j + 6] == t[j..j + 8][..6];
    }
  }

  // ---------------------------------------------------------------------
  // detect_phenomenon
  // ---------------------------------------------------------------------

  /** The characters the group `[^,.;\n]` excludes. */
  predicate IsSep(c: char) {
    c == ',' || c == '.' || c == ';' || c == '\n'
  }

  /** "por" at i, ignoring case. */
  predicate PorAt(s: String, i: int) {
    0 <= i && i + 3 <= |s|
    && (s[i] == 'p' || s[i] == 'P') && (s[i + 1] == 'o' || s[i + 1] == 'O') && (s[i + 2] == 'r' || s[i + 2] == 'R')
  }

  /** "en" at r, ignoring case. */
  predicate EnAt(s: String, r: int) {
    0 <= r && r + 2 <= |s| && (s[r] == 'e' || s[r] == 'E') && (s[r + 1] == 'n' || s[r + 1] == 'N')
  }

  /**
   * The tail `\s+(?:en|$)` matches from q: at least one white-space
   * character, and after the white-space run either "en" or the end of the
   * text. (Inside the run "en" cannot start, and `$` before a final newline
   * is the end of the run.)
   */
  predicate TailAt(s: String, q: int) {
    0 <= q < |s| && IsSpace(s[q]) && (SkipSpaces(s, q) == |s| || EnAt(s, SkipSpaces(s, q)))
  }

  /**
   * One way `por\s+([^,.;\n]+?)\s+(?:en|$)` matches: "por" at i, the first
   * `\s+` spans s[i+3..p], the group is s[p..q], and the tail follows q.
   */
  predicate PorMatch(s: String, i: int, p: int, q: int) {
    PorAt(s, i) && i + 3 < p < q < |s|
    && (forall m :: i + 3 <= m < p ==> IsSpace(s[m]))
    && (forall m :: p <= m < q ==> !IsSep(s[m]))
    && TailAt(s, q)
  }

  /** The lazy group: the least end q' >= q after which the tail matches, the group staying clear of separators. */
  function GroupEnd(s: String, p: nat, q: nat): (r: Option<nat>)
    requires p < q <= |s|
    ensures r.Some? ==> q <= r.value < |s| && TailAt(s, r.value)
                        && (forall m :: q <= m < r.value ==> !IsSep(s[m]))
                        && (forall q' :: q <= q' < r.value ==> !TailAt(s, q'))
    ensures r.None? ==> forall q' :: q <= q' < |s| && (forall m :: q <= m < q' ==> !IsSep(s[m])) ==> !TailAt(s, q')
    decreases |s| - q
  {
    if TailAt(s, q) then Some(q)
    else if q < |s| && !IsSep(s[q]) then GroupEnd(s, p, q + 1)
    else None
  }

  /** The group starting at p: its first character, then the lazy extension. */
  function Group(s: String, p: nat): (r: Option<nat>)
    ensures r.Some? ==> p < r.value < |s| && TailAt(s, r.value)
                        && (forall m :: p <= m < r.value ==> !IsSep(s[m]))
                        && (forall q' :: p < q' < r.value ==> !TailAt(s, q'))
    ensures r.None? ==> forall q' :: p < q' < |s| && (forall m :: p <= m < q' ==> !IsSep(s[m])) ==> !TailAt(s, q')
  {
    if p < |s| && !IsSep(s[p]) then GroupEnd(s, p, p + 1) else None
  }

  /** The greedy `\s+` after "por": its end p is tried from the longest run down to one character. */
  function PorFrom(s: String, i: nat, p: nat): (r: Option<(nat, nat)>)
    requires PorAt(s, i) && i + 3 <= p <= |s|
    requires forall m :: i + 3 <= m < p ==> IsSpace(s[m])
    ensures r.Some? ==> r.value.0 <= p && PorMatch(s, i, r.value.0, r.value.1)
                        && (forall p', q' :: r.value.0 < p' <= p ==> !PorMatch(s, i, p', q'))
                        && (forall q' :: q' < r.value.1 ==> !PorMatch(s, i, r.value.0, q'))
    ensures r.None? ==> forall p', q' :: p' <= p ==> !PorMatch(s, i, p', q')
    decreases p
  {
    if p <= i + 3 then None
    else match Group(s, p)
      case Some(q) => Some((p, q))
      case None => PorFrom(s, i, p - 1)
  }

  /** A match at i can only end its first `\s+` within the white-space run after "por". */
  lemma PorMatchWithinRun(s: String, i: nat, p: int, q: int)
    requires PorMatch(s, i, p, q)
    ensures p <= SkipSpaces(s, i + 3)
  {
  }

  /** The regex tried at position i: the match the engine reports there, if any. */
  function MatchAt(s: String, i: nat): (r: Option<(nat, nat)>)
    ensures r.Some? ==> PorMatch(s, i, r.value.0, r.value.1)
                        && (forall p', q' :: r.value.0 < p' ==> !PorMatch(s, i, p', q'))
                        && (forall q' :: q' < r.value.1 ==> !PorMatch(s, i, r.value.0, q'))
    ensures r.None? ==> forall p', q' :: !PorMatch(s, i, p', q')
  {
    if PorAt(s, i) then
      var r := PorFrom(s, i, SkipSpaces(s, i + 3));
      assert forall p', q' :: PorMatch(s, i, p', q') ==> p' <= SkipSpaces(s, i + 3) by {
        forall p', q' | PorMatch(s, i, p', q') ensures p' <= SkipSpaces(s, i + 3) {
          PorMatchWithinRun(s, i, p', q');
        }
      }
      r
    else None
  }

  /** No match of the "por" pattern starts at a position from lo up to hi. */
  ghost predicate NoPorIn(s: String, lo: int, hi: int) {
    forall i', p', q' :: lo <= i' < hi ==> !PorMatch(s, i', p', q')
  }

  /**
   * `re.search` for the "por" pattern from position i: the leftmost start,
   * then the longest first `\s+`, then the shortest group.
   */
  function SearchPor(s: String, i: nat): (r: Option<(nat, nat, nat)>)
    ensures r.Some? ==> i <= r.value.0 && PorMatch(s, r.value.0, r.value.1, r.value.2)
                        && NoPorIn(s, i, r.value.0)
                        && (forall p', q' :: r.value.1 < p' ==> !PorMatch(s, r.value.0, p', q'))
                        && (forall q' :: q' < r.value.2 ==> !PorMatch(s, r.value.0, r.value.1, q'))
    ensures r.None? ==> NoPorIn(s, i, |s|)
    decreases |s| - i
  {
    if i >= |s| then None
    else match MatchAt(s, i)
      case Some(pq) => Some((i, pq.0, pq.1))
      case None =>
        var r := SearchPor(s, i + 1);
        NoPorExtend(s, i, if r.Some? then r.value.0 else |s|);
        r
  }

  /** No match at i, and none from i + 1 up to hi, is no match from i up to hi. */
  lemma NoPorExtend(s: String, i: nat, hi: int)
    requires forall p', q' :: !PorMatch(s, i, p', q')
    requires NoPorIn(s, i + 1, hi)
    ensures NoPorIn(s, i, hi)
  {
  }

  /** The fallback keywords of `detect_phenomenon`, in list order. */
  const Keywords: seq<String> := ["viento", "lluvia", "nieve", "niebla", "tormenta", "ola de calor", "helada", "fenomenos costeros", "nevadas"]

  /** The index of the first keyword from k on, in list order, that occurs in t. */
  function FirstKeyword(t: String, k: nat): (r: Option<nat>)
    requires k <= |Keywords|
    ensures r.Some? ==> k <= r.value < |Keywords| && Contains(t, Keywords[r.value])
                        && forall j :: k <= j < r.value ==> !Contains(t, Keywords[j])
    ensures r.None? ==> forall j :: k <= j < |Keywords| ==> !Contains(t, Keywords[j])
    decreases |Keywords| - k
  {
    if k == |Keywords| then None
    else if Contains(t, Keywords[k]) then Some(k)
    else FirstKeyword(t, k + 1)
  }

  /**
   * `detect_phenomenon`: the stripped, capitalised group of the first "por"
   * match; else the first keyword found in the lower-cased text, capitalised.
   */
  function DetectPhenomenon(text: String): (r: Option<String>)
  {
    match SearchPor(text, 0)
    case Some(m) => Some(Capitalize(Strip(text[m.1..m.2])))
    case None =>
      match FirstKeyword(LowerStr(text), 0)
      case Some(j) => Some(Capitalize(Keywords[j]))
      case None => None
  }

  /** The leftmost-longest-shortest "por" match decides the phenomenon, whatever keywords occur. */
  lemma PorMatchDecides(text: String, i: nat, p: nat, q: nat)
    requires PorMatch(text, i, p, q)
    requires forall i', p', q' :: i' < i ==> !PorMatch(text, i', p', q')
    requires forall p', q' :: p < p' ==> !PorMatch(text, i, p', q')
    requires forall q' :: q' < q ==> !PorMatch(text, i, p, q')
    ensures DetectPhenomenon(text) == Some(Capitalize(Strip(text[p..q])))
  {
    var r := SearchPor(text, 0);
    assert r.Some?;
    var (i0, p0, q0) := r.value;
    assert i0 == i;
    assert p0 == p;
    assert q0 == q;
  }

  /** Without a "por" match the first keyword in list order that occurs decides. */
  lemma FirstKeywordDecides(text: String, j: nat)
    requires forall i, p, q :: !PorMatch(text, i, p, q)
    requires j < |Keywords| && Contains(LowerStr(text), Keywords[j])
    requires forall k :: 0 <= k < j ==> !Contains(LowerStr(text), Keywords[k])
    ensures DetectPhenomenon(text) == Some(Capitalize(Keywords[j]))
  {
    var r := FirstKeyword(LowerStr(text), 0);
    assert r == Some(j);
  }

  /** There is no phenomenon exactly when neither the pattern nor any keyword matches. */
  lemma NoPhenomenonIff(text: String)
    ensures DetectPhenomenon(text) == None <==>
      (forall i, p, q :: !PorMatch(text, i, p, q))
      && forall k :: 0 <= k < |Keywords| ==> !Contains(LowerStr(text), Keywords[k])
  {
    if SearchPor(text, 0).Some? {
      var m := SearchPor(text, 0).value;
      assert PorMatch(text, m.0, m.1, m.2);
    }
  }

  /** Upper- and lower-casing keep a separator a separator and a non-separator a non-separator. */
  lemma CaseKeepsSep(c: char)
    ensures IsSep(Upper(c)) <==> IsSep(c)
    ensures IsSep(Lower(c)) <==> IsSep(c)
  {
  }

  /** A phenomenon read from the pattern never spans a comma, period, semicolon or newline. */
  lemma PorPhenomenonHasNoSep(text: String)
    requires SearchPor(text, 0).Some?
    ensures DetectPhenomenon(text).Some?
    ensures forall k :: 0 <= k < |DetectPhenomenon(text).value| ==> !IsSep(DetectPhenomenon(text).value[k])
  {
    var m := SearchPor(text, 0).value;
    var g := text[m.1..m.2];
    assert forall k :: 0 <= k < |g| ==> !IsSep(g[k]);
    CapitalizeStripKeepsNoSep(g);
  }

  /** Stripping and capitalising a text without separators leaves none. */
  lemma CapitalizeStripKeepsNoSep(g: String)
    requires forall k :: 0 <= k < |g| ==> !IsSep(g[k])
    ensures forall k :: 0 <= k < |Capitalize(Strip(g))| ==> !IsSep(Capitalize(Strip(g))[k])
  {
    StripKeepsNoSep(g);
    CapitalizeKeepsNoSep(Strip(g));
  }

  /** Stripping a text without separators leaves none. */
  lemma StripKeepsNoSep(g: String)
    requires forall k :: 0 <= k < |g| ==> !IsSep(g[k])
    ensures forall k :: 0 <= k < |Strip(g)| ==> !IsSep(Strip(g)[k])
  {
    var st := Strip(g);
    var a, b :| 0 <= a <= b <= |g| && st == g[a..b];
    assert forall k :: 0 <= k < |st| ==> st[k] == g[a + k];
  }

  /** Capitalising a text without separators leaves none. */
  lemma CapitalizeKeepsNoSep(st: String)
    requires forall k :: 0 <= k < |st| ==> !IsSep(st[k])
    ensures forall k :: 0 <= k < |Capitalize(st)| ==> !IsSep(Capitalize(st)[k])
  {
    var r := Capitalize(st);
    forall k | 0 <= k < |r| ensures !IsSep(r[k]) {
      CaseKeepsSep(st[k]);
    }
  }

  /**
   * The lazy group may consist of white space only: in "por   en" the first
   * `\s+` backs off two characters and the group is a single space, so the
   * phenomenon is the empty string.
   */
  lemma BlankPhenomenon(text: String)
    requires text == "por   en"
    ensures DetectPhenomenon(text) == Some("")
  {
    assert SkipSpaces(text, 6) == 6;
    assert SkipSpaces(text, 5) == 6;
    assert SkipSpaces(text, 4) == 6;
    assert SkipSpaces(text, 3) == 6;
    assert Group(text, 6) == None by {
      assert !TailAt(text, 7);
      assert GroupEnd(text, 6, 7) == None;
    }
    assert Group(text, 5) == None by {
      assert !TailAt(text, 6);
      assert !TailAt(text, 7);
      assert GroupEnd(text, 5, 6) == None;
    }
    assert TailAt(text, 5);
    assert Group(text, 4) == Some(5);
    assert MatchAt(text, 0) == Some((4, 5));
    assert text[4..5] == " ";
    assert Strip(" ") == "";
  }

  // ---------------------------------------------------------------------
  // extract_start_date
  // ---------------------------------------------------------------------

  /** `[+-]`. */
  predicate IsSign(c: char) {
    c == '+' || c == '-'
  }

  /** `\d{4}-\d{2}-\d{2}T\d{2}:\d{2}:\d{2}` matches at i. */
  predicate CoreAt(s: String, i: int) {
    0 <= i && i + 19 <= |s|
    && IsDigit(s[i]) && IsDigit(s[i + 1]) && IsDigit(s[i + 2]) && IsDigit(s[i + 3]) && s[i + 4] == '-'
    && IsDigit(s[i + 5]) && IsDigit(s[i + 6]) && s[i + 7] == '-'
    && IsDigit(s[i + 8]) && IsDigit(s[i + 9]) && s[i + 10] == 'T'
    && IsDigit(s[i + 11]) && IsDigit(s[i + 12]) && s[i + 13] == ':'
    && IsDigit(s[i + 14]) && IsDigit(s[i + 15]) && s[i + 16] == ':'
    && IsDigit(s[i + 17]) && IsDigit(s[i + 18])
  }

  /** `[+-]\d{2}:\d{2}` at e. */
  predicate ColonOffsetAt(s: String, e: int) {
    0 <= e && e + 6 <= |s| && IsSign(s[e]) && IsDigit(s[e + 1]) && IsDigit(s[e + 2])
    && s[e + 3] == ':' && IsDigit(s[e + 4]) && IsDigit(s[e + 5])
  }

  /** `[+-]\d{2}\d{2}` at e. */
  predicate PlainOffsetAt(s: String, e: int) {
    0 <= e && e + 5 <= |s| && IsSign(s[e]) && IsDigit(s[e + 1]) && IsDigit(s[e + 2])
    && IsDigit(s[e + 3]) && IsDigit(s[e + 4])
  }

  /**
   * The length of the optional group `(?:Z|[+-]\d{2}:?\d{2})?` at e: the
   * engine tries "Z", then the offset with its colon, then without, then
   * nothing.
   */
  function OffsetLen(s: String, e: nat): (r: nat)
    ensures e + r <= |s| || r == 0
    ensures r in {0, 1, 5, 6}
  {
    if e < |s| && s[e] == 'Z' then 1
    else if ColonOffsetAt(s, e) then 6
    else if PlainOffsetAt(s, e) then 5
    else 0
  }

  /** The leftmost i' >= i at which the date-time core matches. */
  function FindCore(s: String, i: nat): (r: Option<nat>)
    ensures r.Some? ==> i <= r.value && CoreAt(s, r.value) && forall j :: i <= j < r.value ==> !CoreAt(s, j)
    ensures r.None? ==> forall j :: i <= j ==> !CoreAt(s, j)
    decreases |s| - i
  {
    if i + 19 > |s| then None
    else if CoreAt(s, i) then Some(i)
    else FindCore(s, i + 1)
  }

  /** `s.replace(c, w)`: every c replaced by w. */
  function ReplaceChar(s: String, c: char, w: String): (r: String)
    ensures c !in s ==> r == s
    decreases |s|
  {
    if s == [] then []
    else (if s[0] == c then w else [s[0]]) + ReplaceChar(s[1..], c, w)
  }

  /** `re.match(r"(.*[0-9])([+-]\d{2})(\d{2})$", dt)`: dt ends with a digit, a sign and four digits. */
  predicate EndsWithPlainOffset(dt: String) {
    |dt| >= 6 && IsDigit(dt[|dt| - 6]) && PlainOffsetAt(dt, |dt| - 5)
  }

  /** The rewriting of a matched date-time: "Z" becomes "+00:00", then "±hhmm" becomes "±hh:mm". */
  function FixOffset(dt: String): (r: String)
  {
    var d1 := if EndsWith(dt, "Z") then ReplaceChar(dt, 'Z', "+00:00") else dt;
    if EndsWithPlainOffset(d1) then d1[..|d1| - 2] + ":" + d1[|d1| - 2..] else d1
  }

  /** `extract_start_date`: None for empty text or no date-time; else the first match, rewritten. */
  function ExtractStartDate(text: String): (r: Option<String>)
  {
    if text == [] then None
    else match FindCore(text, 0)
      case None => None
      case Some(i) => Some(FixedMatch(text, i))
  }

  /** The match at i, its date-time core and its offset group, rewritten. */
  function FixedMatch(text: String, i: nat): String
    requires CoreAt(text, i)
  {
    FixOffset(text[i..i + 19 + OffsetLen(text, i + 19)])
  }

  /** The shape of every result: a date-time, optionally followed by a `±hh:mm` offset. */
  predicate IsoDateTime(r: String) {
    CoreAt(r, 0) && (|r| == 19 || (|r| == 25 && ColonOffsetAt(r, 19)))
  }

  /** The first 19 characters of a match are a date-time core by themselves. */
  lemma CoreSlice(s: String, i: nat)
    requires CoreAt(s, i)
    ensures CoreAt(s[i..i + 19], 0)
  {
  }

  /** A date-time core stays one whatever follows it. */
  lemma CorePrefix(core: String, rest: String)
    requires |core| == 19 && CoreAt(core, 0)
    ensures CoreAt(core + rest, 0)
  {
  }

  /** A date-time core has no "Z". */
  lemma CoreHasNoZ(core: String)
    requires |core| == 19 && CoreAt(core, 0)
    ensures 'Z' !in core
  {
    forall k | 0 <= k < 19 ensures core[k] != 'Z' {
      assert k == 0 || k == 1 || k == 2 || k == 3 || k == 4 || k == 5 || k == 6 || k == 7 || k == 8 || k == 9
        || k == 10 || k == 11 || k == 12 || k == 13 || k == 14 || k == 15 || k == 16 || k == 17 || k == 18;
    }
  }

  /** Replacing in a concatenation replaces in both parts. */
  lemma {:induction false} ReplaceCharAppend(a: String, b: String, c: char, w: String)
    ensures ReplaceChar(a + b, c, w) == ReplaceChar(a, c, w) + ReplaceChar(b, c, w)
    decreases |a|
  {
    if a == [] {
      assert a + b == b;
    } else {
      assert (a + b)[1..] == a[1..] + b;
      ReplaceCharAppend(a[1..], b, c, w);
    }
  }

  /** A trailing "Z" becomes the offset "+00:00". */
  lemma FixZ(core: String)
    requires |core| == 19 && CoreAt(core, 0)
    ensures FixOffset(core + "Z") == core + "+00:00"
  {
    var dt := core + "Z";
    assert dt[|dt| - 1..] == "Z";
    CoreHasNoZ(core);
    ReplaceCharAppend(core, "Z", 'Z', "+00:00");
    assert "Z"[1..] == [];
    assert ReplaceChar("Z", 'Z', "+00:00") == "+00:00";
    var d1 := core + "+00:00";
    assert d1[|d1| - 6] == '+';
  }

  /** An offset already written `±hh:mm` is kept. */
  lemma FixColon(core: String, off: String)
    requires |core| == 19 && CoreAt(core, 0) && |off| == 6 && ColonOffsetAt(off, 0)
    ensures FixOffset(core + off) == core + off
  {
    var dt := core + off;
    assert dt[|dt| - 1..] == [off[5]];
    assert dt[|dt| - 6] == off[0];
  }

  /** An offset written `±hhmm` gets its colon. */
  lemma FixPlain(core: String, off: String)
    requires |core| == 19 && CoreAt(core, 0) && |off| == 5 && PlainOffsetAt(off, 0)
    ensures FixOffset(core + off) == core + off[..3] + ":" + off[3..]
  {
    var dt := core + off;
    assert dt[|dt| - 1..] == [off[4]];
    assert dt[|dt| - 6] == core[18];
    assert forall k :: 0 <= k < 5 ==> dt[|dt| - 5 + k] == off[k];
    assert EndsWithPlainOffset(dt);
    assert dt[..|dt| - 2] == core + off[..3];
    assert dt[|dt| - 2..] == off[3..];
  }

  /** A date-time without offset is kept. */
  lemma FixNone(core: String)
    requires |core| == 19 && CoreAt(core, 0)
    ensures FixOffset(core) == core
  {
    assert core[|core| - 1..] == [core[18]];
    assert !IsSign(core[14]);
  }

  /** The result is None exactly when the text is empty or holds no date-time. */
  lemma ExtractStartDateNone(text: String)
    ensures ExtractStartDate(text) == None <==> text == [] || forall j :: !CoreAt(text, j)
  {
    if text != [] && FindCore(text, 0).Some? {
      assert CoreAt(text, FindCore(text, 0).value);
    }
  }

  /**
   * The result is the leftmost date-time with its offset, if any, in the
   * `±hh:mm` form: "Z" gives "+00:00", "±hhmm" gets its colon, "±hh:mm"
   * is kept and no offset stays no offset.
   */
  lemma ExtractStartDateShape(text: String, i: nat)
    requires text != [] && FindCore(text, 0) == Some(i)
    ensures ExtractStartDate(text).Some?
    ensures var r := ExtractStartDate(text).value;
      var e := i + 19;
      IsoDateTime(r) && r[..19] == text[i..e]
      && (|r| == 25 <==> OffsetLen(text, e) > 0)
      && (OffsetLen(text, e) == 1 ==> r[19..] == "+00:00")
      && (OffsetLen(text, e) == 6 ==> r[19..] == text[e..e + 6])
      && (OffsetLen(text, e) == 5 ==> r[19..] == text[e..e + 3] + ":" + text[e + 3..e + 5])
  {
    FixedMatchShape(text, i);
  }

  /** The shape of the rewritten match at i, for each form of its offset group. */
  lemma FixedMatchShape(text: String, i: nat)
    requires CoreAt(text, i)
    ensures var r := FixedMatch(text, i);
      var e := i + 19;
      IsoDateTime(r) && r[..19] == text[i..e]
      && (|r| == 25 <==> OffsetLen(text, e) > 0)
      && (OffsetLen(text, e) == 1 ==> r[19..] == "+00:00")
      && (OffsetLen(text, e) == 6 ==> r[19..] == text[e..e + 6])
      && (OffsetLen(text, e) == 5 ==> r[19..] == text[e..e + 3] + ":" + text[e + 3..e + 5])
  {
    var n := OffsetLen(text, i + 19);
    if n == 0 {
      MatchNoneShape(text, i);
    } else if n == 1 {
      MatchZShape(text, i);
    } else if n == 6 {
      MatchColonShape(text, i);
    } else {
      MatchPlainShape(text, i);
    }
  }

  /** A match without offset is kept as it is. */
  lemma MatchNoneShape(text: String, i: nat)
    requires CoreAt(text, i) && OffsetLen(text, i + 19) == 0
    ensures var r := FixedMatch(text, i);
      IsoDateTime(r) && r[..19] == text[i..i + 19] && |r| == 19
  {
    CoreSlice(text, i);
    NoneShape(text[i..i + 19]);
  }

  /** A match ending in "Z" gets "+00:00". */
  lemma MatchZShape(text: String, i: nat)
    requires CoreAt(text, i) && OffsetLen(text, i + 19) == 1
    ensures var r := FixedMatch(text, i);
      IsoDateTime(r) && r[..19] == text[i..i + 19] && |r| == 25 && r[19..] == "+00:00"
  {
    var e := i + 19;
    CoreSlice(text, i);
    SliceSplit(text, i, e, e + 1);
    assert text[e..e + 1] == "Z";
    ZShape(text[i..e]);
  }

  /** A match with a `±hh:mm` offset keeps it. */
  lemma MatchColonShape(text: String, i: nat)
    requires CoreAt(text, i) && OffsetLen(text, i + 19) == 6
    ensures var r := FixedMatch(text, i);
      IsoDateTime(r) && r[..19] == text[i..i + 19] && |r| == 25 && r[19..] == text[i + 19..i + 25]
  {
    var e := i + 19;
    CoreSlice(text, i);
    OffsetSlice(text, e);
    SliceSplit(text, i, e, e + 6);
    ColonShape(text[i..e], text[e..e + 6]);
  }

  /** A match with a `±hhmm` offset gets its colon. */
  lemma MatchPlainShape(text: String, i: nat)
    requires CoreAt(text, i) && OffsetLen(text, i + 19) == 5
    ensures var r := FixedMatch(text, i);
      var e := i + 19;
      IsoDateTime(r) && r[..19] == text[i..e] && |r| == 25 && r[19..] == text[e..e + 3] + ":" + text[e + 3..e + 5]
  {
    var e := i + 19;
    CoreSlice(text, i);
    OffsetSlice(text, e);
    SliceSplit(text, i, e, e + 5);
    var off := text[e..e + 5];
    PlainShape(text[i..e], off);
    assert off[..3] == text[e..e + 3];
    assert off[3..] == text[e + 3..e + 5];
  }

  /** The offset group, cut out of the text, is one of the four forms. */
  lemma OffsetSlice(s: String, e: nat)
    ensures var n := OffsetLen(s, e);
      n == 0 || e + n <= |s|
    ensures var n := OffsetLen(s, e);
      var off := if n == 0 then [] else s[e..e + n];
      (n == 0 && off == []) || (n == 1 && off == "Z")
      || (n == 6 && |off| == 6 && ColonOffsetAt(off, 0)) || (n == 5 && |off| == 5 && PlainOffsetAt(off, 0))
  {
  }

  /** A date-time without offset keeps its shape. */
  lemma NoneShape(core: String)
    requires |core| == 19 && CoreAt(core, 0)
    ensures var r := FixOffset(core);
      IsoDateTime(r) && r[..19] == core && |r| == 19
  {
    FixNone(core);
  }

  /** A date-time with "Z" gets the offset "+00:00". */
  lemma ZShape(core: String)
    requires |core| == 19 && CoreAt(core, 0)
    ensures var r := FixOffset(core + "Z");
      IsoDateTime(r) && r[..19] == core && |r| == 25 && r[19..] == "+00:00"
  {
    FixZ(core);
    CorePrefix(core, "+00:00");
    assert (core + "+00:00")[19..] == "+00:00";
  }

  /** A date-time with a `±hh:mm` offset keeps it. */
  lemma ColonShape(core: String, off: String)
    requires |core| == 19 && CoreAt(core, 0) && |off| == 6 && ColonOffsetAt(off, 0)
    ensures var r := FixOffset(core + off);
      IsoDateTime(r) && r[..19] == core && |r| == 25 && r[19..] == off
  {
    FixColon(core, off);
    CorePrefix(core, off);
    assert (core + off)[19..] == off;
  }

  /** A date-time with a `±hhmm` offset gets the colon inserted. */
  lemma PlainShape(core: String, off: String)
    requires |core| == 19 && CoreAt(core, 0) && |off| == 5 && PlainOffsetAt(off, 0)
    ensures var r := FixOffset(core + off);
      IsoDateTime(r) && r[..19] == core && |r| == 25 && r[19..] == off[..3] + ":" + off[3..]
  {
    FixPlain(core, off);
    var tail := off[..3] + ":" + off[3..];
    assert core + off[..3] + ":" + off[3..] == core + tail;
    CorePrefix(core, tail);
    assert (core + tail)[19..] == tail;
  }

  /** Every date-time of the result's shape is extracted from itself unchanged. */
  lemma IsoDateTimeExtracts(r: String)
    requires IsoDateTime(r)
    ensures ExtractStartDate(r) == Some(r)
  {
    assert FindCore(r, 0) == Some(0);
    var core := r[..19];
    CoreSlice(r, 0);
    assert r[0..19] == core;
    if |r| == 25 {
      assert OffsetLen(r, 19) == 6;
      var off := r[19..];
      assert r == core + off;
      assert r[0..25] == r;
      FixColon(core, off);
    } else {
      assert OffsetLen(r, 19) == 0;
      assert r[0..19] == r;
      FixNone(r);
    }
  }

  /** Extracting from an extracted date-time gives it back unchanged. */
  lemma ExtractStartDateIdempotent(text: String)
    requires ExtractStartDate(text).Some?
    ensures ExtractStartDate(ExtractStartDate(text).value) == ExtractStartDate(text)
  {
    var i := FindCore(text, 0).value;
    ExtractStartDateShape(text, i);
    IsoDateTimeExtracts(ExtractStartDate(text).value);
  }

  // ---------------------------------------------------------------------
  // mask_key
  // ---------------------------------------------------------------------

  /** `mask_key`: a marker for no key, the first and last four characters of a long key, else "***". */
  function MaskKey(key: String): (r: String)
    ensures key == [] ==> r == "***NO_KEY***"
    ensures |key| > 8 ==> |r| == 11 && r[..4] == key[..4] && r[4..7] == "..." && r[7..] == key[|key| - 4..]
    ensures 0 < |key| <= 8 ==> r == "***"
  {
    if key == [] then "***NO_KEY***"
    else if |key| > 8 then key[..4] + "..." + key[|key| - 4..]
    else "***"
  }

  /**
   * The mask reveals only the first and last four characters: two long keys
   * have the same mask exactly when they agree on those.
   */
  lemma MaskRevealsOnlyEnds(k1: String, k2: String)
    requires |k1| > 8 && |k2| > 8
    ensures MaskKey(k1) == MaskKey(k2) <==> k1[..4] == k2[..4] && k1[|k1| - 4..] == k2[|k2| - 4..]
  {
    if MaskKey(k1) == MaskKey(k2) {
      assert k1[..4] == MaskKey(k1)[..4];
      assert k1[|k1| - 4..] == MaskKey(k1)[7..];
    }
  }

  /** A key of at most eight characters leaks nothing, not even its length. */
  lemma ShortKeysLookAlike(k1: String, k2: String)
    requires 0 < |k1| <= 8 && 0 < |k2| <= 8
    ensures MaskKey(k1) == MaskKey(k2)
  {
  }

  /**
   * The mask shows a key whole only when the key already looks like a mask:
   * "***" itself, or eleven characters with "..." in the middle. Any other
   * key, in particular every key of twelve or more characters, is hidden.
   */
  lemma MaskShowsKeyIff(key: String)
    ensures MaskKey(key) == key <==> key == "***" || (|key| == 11 && key[4..7] == "...")
  {
    var r := MaskKey(key);
    if |key| == 11 && key[4..7] == "..." {
      assert key == key[..4] + key[4..7] + key[7..];
    }
    if |key| > 8 && r == key {
      assert key[4..7] == r[4..7];
    }
  }
}
