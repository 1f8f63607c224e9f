/**
 * The province directory of the downloader (`PROVINCIAS`, `PROVINCIAS_NORM`)
 * and `detect_province`, which resolves the province a bulletin talks about.
 */
module Provinces {
  import opened Wrappers
  import opened TextOps

  /**
   * The names of `PROVINCIAS`, in the order of the dict literal (written,
   * as there, four to a row): entry i has key i + 1.
   */
  const Names: seq<String> :=
    ["Araba/Álava", "Albacete", "Alicante/Alacant", "Almería"] +
    ["Ávila", "Badajoz", "Illes Balears", "Barcelona"] +
    ["Burgos", "Cáceres", "Cádiz", "Castellón/Castelló"] +
    ["Ciudad Real", "Córdoba", "A Coruña", "Cuenca"] +
    ["Girona", "Granada", "Guadalajara", "Gipuzkoa"] +
    ["Huelva", "Huesca", "Jaén", "León"] +
    ["Lleida", "La Rioja", "Lugo", "Madrid"] +
    ["Málaga", "Murcia", "Navarra", "Ourense"] +
    ["Asturias", "Palencia", "Las Palmas", "Pontevedra"] +
    ["Salamanca", "Santa Cruz de Tenerife", "Cantabria", "Segovia"] +
    ["Sevilla", "Soria", "Tarragona", "Teruel"] +
    ["Toledo", "Valencia/València", "Valladolid", "Bizkaia"] +
    ["Zamora", "Zaragoza", "Ceuta", "Melilla"]

  /** The two-digit decimal spelling of n. */
  function TwoDigits(n: nat): (r: String)
    requires n < 100
    ensures |r| == 2 && IsDigit(r[0]) && IsDigit(r[1])
  {
    [('0' as int + n / 10) as char, ('0' as int + n % 10) as char]
  }

  /**
   * The key of entry i of `PROVINCIAS`: the keys are "01" (Araba/Álava) to
   * "52" (Melilla), in the order of the dict literal.
   */
  function Code(i: nat): (r: String)
    requires i < 99
  {
    TwoDigits(i + 1)
  }

  /** `code in PROVINCIAS`. */
  predicate IsCode(code: String) {
    exists i :: 0 <= i < |Names| && Code(i) == code
  }

  /** The province codes are exactly the two-digit strings "01" to "52". */
  lemma CodesAreOneToFiftyTwo(code: String)
    ensures IsCode(code) <==>
      |code| == 2 && IsDigit(code[0]) && IsDigit(code[1])
      && 1 <= 10 * (code[0] as int - '0' as int) + (code[1] as int - '0' as int) <= 52
  {
    if |code| == 2 && IsDigit(code[0]) && IsDigit(code[1]) {
      var n := 10 * (code[0] as int - '0' as int) + (code[1] as int - '0' as int);
      if 1 <= n <= 52 {
        assert code == TwoDigits(n);
        assert Code(n - 1) == code;
      }
    }
  }

  /** The tokens "00" and "57" look like codes but are not keys of the table. */
  lemma NotCodes()
    ensures !IsCode("00") && !IsCode("57")
  {
    CodesAreOneToFiftyTwo("00");
    CodesAreOneToFiftyTwo("57");
  }

  /** The lookup `table.get(code, '')` over a table keyed "01", "02", ..., searched from entry i. */
  function NameFrom(names: seq<String>, code: String, i: nat): (r: String)
    requires i <= |names| < 100
    ensures (exists j :: i <= j < |names| && Code(j) == code) ==>
      exists j :: i <= j < |names| && Code(j) == code && names[j] == r
    ensures (forall j :: i <= j < |names| ==> Code(j) != code) ==> r == ""
    decreases |names| - i
  {
    if i == |names| then ""
    else if Code(i) == code then names[i]
    else NameFrom(names, code, i + 1)
  }

  /** `PROVINCIAS.get(code, '')`: the name for a known code, else the empty string. */
  function ProvinceName(code: String): (r: String)
    ensures IsCode(code) ==> exists j :: 0 <= j < |Names| && Code(j) == code && Names[j] == r
    ensures !IsCode(code) ==> r == ""
  {
    NameFrom(Names, code, 0)
  }

  /** The entry of `PROV_NAMES` for a table name: the name normalised. */
  function NormName(name: String): (r: String)
    ensures |r| <= |name|
  {
    Normalize(name)
  }

  /** `name.split('/')[0].split(' ')[0]`: the first word of the first slash segment. */
  function FirstWord(name: String): (r: String)
    ensures StartsWith(name, r)
    ensures '/' !in r && ' ' !in r
  {
    BeforeFirst(BeforeFirst(name, '/'), ' ')
  }

  /** A table name is matched by the normalised text: its normalised form or its first word occurs. */
  predicate NameHit(name: String, tn: String) {
    var n := NormName(name);
    Contains(tn, n) || (FirstWord(n) != [] && Contains(tn, FirstWord(n)))
  }

  /** The match test of the name loop for the normalised text tn. */
  function HitsText(tn: String): String -> bool {
    name => NameHit(name, tn)
  }

  /**
   * The name loop of `detect_province` from entry i on, for a table of names
   * and a match test: the index of the first entry that matches.
   */
  function ByName(names: seq<String>, hit: String -> bool, i: nat): (r: Option<nat>)
    requires i <= |names|
    ensures r.Some? ==> i <= r.value < |names| && hit(names[r.value])
                        && forall k :: i <= k < r.value ==> !hit(names[k])
    ensures r.None? ==> forall j :: i <= j < |names| ==> !hit(names[j])
    decreases |names| - i
  {
    if i == |names| then None
    else if hit(names[i]) then Some(i)
    else ByName(names, hit, i + 1)
  }

  /** The name loop stops at the first entry that matches. */
  lemma FirstHitFound(names: seq<String>, hit: String -> bool, j: nat)
    requires j < |names| && hit(names[j])
    requires forall k :: 0 <= k < j ==> !hit(names[k])
    ensures ByName(names, hit, 0) == Some(j)
  {
  }

  /** The regex `\b([0-5][0-9])\b` matches at position i. */
  predicate CodeTokenAt(s: String, i: int) {
    0 <= i && i + 2 <= |s| && '0' <= s[i] <= '5' && IsDigit(s[i + 1])
    && (i == 0 || !IsWordChar(s[i - 1]))
    && (i + 2 == |s| || !IsWordChar(s[i + 2]))
  }

  /** `re.search(r'\b([0-5][0-9])\b', s)` from position i: the leftmost match. */
  function FindCodeToken(s: String, i: nat): (r: Option<nat>)
    requires i <= |s|
    ensures r.Some? ==> i <= r.value && CodeTokenAt(s, r.value)
                        && forall j :: i <= j < r.value ==> !CodeTokenAt(s, j)
    ensures r.None? ==> forall j :: i <= j ==> !CodeTokenAt(s, j)
    decreases |s| - i
  {
    if i + 2 > |s| then None
    else if CodeTokenAt(s, i) then Some(i)
    else FindCodeToken(s, i + 1)
  }

  /** The fallback of `detect_province`: the first two-digit token, when it is a code. */
  function ByCodeToken(text: String): (r: Option<String>)
    ensures r.Some? ==> IsCode(r.value)
  {
    match FindCodeToken(text, 0)
    case Some(k) => if IsCode(text[k..k + 2]) then Some(text[k..k + 2]) else None
    case None => None
  }

  /** `detect_province`: a name match in table order, else the first two-digit token if it is a code. */
  function DetectProvince(text: String): (r: Option<String>)
    ensures r.Some? ==> IsCode(r.value)
  {
    match ByName(Names, HitsText(Normalize(text)), 0)
    case Some(i) => Some(Code(i))
    case None => ByCodeToken(text)
  }

  /** The first table entry, in table order, whose name or first word occurs decides the province. */
  lemma FirstNameHitWins(text: String, i: nat)
    requires i < |Names| && NameHit(Names[i], Normalize(text))
    requires forall j :: 0 <= j < i ==> !NameHit(Names[j], Normalize(text))
    ensures DetectProvince(text) == Some(Code(i))
  {
    var hit := HitsText(Normalize(text));
    assert forall k :: 0 <= k < i ==> !hit(Names[k]);
    FirstHitFound(Names, hit, i);
  }

  /** Without a name hit, the result is the code-token fallback. */
  lemma NoNameHitFallsBack(text: String)
    requires forall j :: 0 <= j < |Names| ==> !NameHit(Names[j], Normalize(text))
    ensures DetectProvince(text) == ByCodeToken(text)
  {
    var hit := HitsText(Normalize(text));
    assert forall k :: 0 <= k < |Names| ==> !hit(Names[k]);
  }

  /** The fallback looks at the leftmost token only. */
  lemma LeftmostTokenDecides(text: String, k: nat)
    requires CodeTokenAt(text, k) && forall j :: 0 <= j < k ==> !CodeTokenAt(text, j)
    ensures ByCodeToken(text) == if IsCode(text[k..k + 2]) then Some(text[k..k + 2]) else None
  {
    assert FindCodeToken(text, 0) == Some(k);
  }

  /**
   * With no name match only the first two-digit token counts: a valid code
   * is returned, anything else (such as "00" or "57") gives None even if a
   * valid code appears later in the text.
   */
  lemma FirstCodeTokenDecides(text: String, k: nat)
    requires forall j :: 0 <= j < |Names| ==> !NameHit(Names[j], Normalize(text))
    requires CodeTokenAt(text, k) && forall j :: 0 <= j < k ==> !CodeTokenAt(text, j)
    ensures DetectProvince(text) == if IsCode(text[k..k + 2]) then Some(text[k..k + 2]) else None
  {
    NoNameHitFallsBack(text);
    LeftmostTokenDecides(text, k);
  }

  /** With no name match and no two-digit token the province is unresolved. */
  lemma NoMatchNoProvince(text: String)
    requires forall j :: 0 <= j < |Names| ==> !NameHit(Names[j], Normalize(text))
    requires forall j :: !CodeTokenAt(text, j)
    ensures DetectProvince(text) == None
  {
    NoNameHitFallsBack(text);
  }

  /** A string without combining marks normalises character by character. */
  lemma NormalizePlain(s: String)
    requires forall m :: 0 <= m < |s| ==> !IsCombining(s[m])
    ensures |Normalize(s)| == |s|
    ensures forall m :: 0 <= m < |s| ==> Normalize(s)[m] == FoldChar(s[m])
  {
    assert DropCombining(s) == s;
  }

  /**
   * A name without combining marks cannot hit when some character of its
   * first word (found before any '/' or ' ') is, once folded, absent from the
   * text: its first word, and so also its full normalised name, does not occur.
   */
  lemma NoHitWithoutChar(name: String, tn: String, k: nat)
    requires k < |name| && forall m :: 0 <= m < |name| ==> !IsCombining(name[m])
    requires forall m :: 0 <= m <= k ==> FoldChar(name[m]) != '/' && FoldChar(name[m]) != ' '
    requires forall m :: 0 <= m < |tn| ==> tn[m] != FoldChar(name[k])
    ensures !NameHit(name, tn)
  {
    NormalizePlain(name);
    var n := NormName(name);
    var b := BeforeFirst(n, '/');
    assert |b| > k;
    var w := BeforeFirst(b, ' ');
    assert |w| > k;
    assert w[k] == n[k];
    if Contains(tn, w) { ContainsChar(tn, w, n[k]); }
    if Contains(tn, n) { ContainsChar(tn, n, n[k]); }
  }

  // None of entries 0 to 13 hits "madrid": each has, within its first word,
  // a letter that "madrid" lacks, so by NoHitWithoutChar it cannot hit.

  /** Badajoz, Barcelona and Burgos miss "madrid": each starts with 'b'. */
  lemma StartsWithBMissesMadrid(tn: String, k: nat)
    requires tn == "madrid" && (k == 5 || k == 7 || k == 8)
    ensures !NameHit(Names[k], tn)
  {
    NoHitWithoutChar(Names[k], tn, 0);
  }

  /** Entries 9 to 13 (Cáceres to Córdoba) miss "madrid": each starts with 'c'. */
  lemma StartsWithCMissesMadrid(tn: String, k: nat)
    requires tn == "madrid" && 9 <= k < 14
    ensures !NameHit(Names[k], tn)
  {
    NoHitWithoutChar(Names[k], tn, 0);
  }

  /** Albacete, Alicante, Almería, Ávila and Illes Balears miss "madrid": their second letter is 'l' or 'v'. */
  lemma SecondLetterMissesMadrid(tn: String, k: nat)
    requires tn == "madrid" && (1 <= k <= 4 || k == 6)
    ensures !NameHit(Names[k], tn)
  {
    NoHitWithoutChar(Names[k], tn, 1);
  }

  /** None of entries 0 to 13 hits "madrid"; for Araba the missing letter is its 'b'. */
  lemma EarlyEntriesMissMadrid(tn: String, k: nat)
    requires tn == "madrid" && k < 14
    ensures !NameHit(Names[k], tn)
  {
    if k == 0 {
      NoHitWithoutChar(Names[k], tn, 3);
    } else if k <= 4 || k == 6 {
      SecondLetterMissesMadrid(tn, k);
    } else if k < 9 {
      StartsWithBMissesMadrid(tn, k);
    } else {
      StartsWithCMissesMadrid(tn, k);
    }
  }

  /** On "madrid" the name loop skips entries 0 to 13 and stops at entry 14. */
  lemma MadridNameLoop(tn: String)
    requires tn == "madrid"
    ensures ByName(Names, HitsText(tn), 0) == Some(14)
  {
    var hit := HitsText(tn);
    forall k | 0 <= k < 14
      ensures !hit(Names[k])
    {
      EarlyEntriesMissMadrid(tn, k);
    }
    CorunaHitsMadrid(tn);
    FirstHitFound(Names, hit, 14);
  }

  /** A name that starts with "a " has first word "a". */
  lemma FirstWordOfA(n: String)
    requires |n| >= 2 && n[0] == 'a' && n[1] == ' '
    ensures FirstWord(n) == "a"
  {
    var b := BeforeFirst(n, '/');
    assert |b| >= 2 && b[0] == 'a' && b[1] == ' ';
    assert BeforeFirst(b, ' ') == "a";
  }

  /** The first word of a normalised "A Coruña" is the one-letter "a". */
  lemma CorunaFirstWordOf(name: String)
    requires name == "A Coruña"
    ensures FirstWord(NormName(name)) == "a"
  {
    NormalizePlain(name);
    FirstWordOfA(NormName(name));
  }

  /** A name whose first word occurs in the text hits it. */
  lemma FirstWordHits(name: String, tn: String)
    requires FirstWord(NormName(name)) != [] && Contains(tn, FirstWord(NormName(name)))
    ensures NameHit(name, tn)
  {
  }

  /** "a" occurs in "madrid", at its second position. */
  lemma MadridHasA(tn: String)
    requires tn == "madrid"
    ensures Contains(tn, "a")
  {
    assert tn[1..][..1] == "a";
    assert StartsWith(tn[1..], "a");
  }

  /** "A Coruña" hits "madrid" through its first word "a". */
  lemma CorunaHitsMadridOf(name: String, tn: String)
    requires name == "A Coruña" && tn == "madrid"
    ensures NameHit(name, tn)
  {
    CorunaFirstWordOf(name);
    MadridHasA(tn);
    FirstWordHits(name, tn);
  }

  /** Entry 14 (A Coruña) hits "madrid". */
  lemma CorunaHitsMadrid(tn: String)
    requires tn == "madrid"
    ensures NameHit(Names[14], tn)
  {
    CorunaHitsMadridOf(Names[14], tn);
  }

  /** Whatever the name loop finds is the result of `detect_province`. */
  lemma NameLoopDecides(text: String, i: nat)
    requires ByName(Names, HitsText(Normalize(text)), 0) == Some(i)
    ensures i < |Names| && DetectProvince(text) == Some(Code(i))
  {
  }

  /** Entry 14 has the key "15". */
  lemma CorunaCode()
    ensures Code(14) == "15"
  {
  }

  /** "Madrid" normalises to "madrid". */
  lemma MadridNormalized(text: String)
    requires text == "Madrid"
    ensures Normalize(text) == "madrid"
  {
    NormalizePlain(text);
  }

  /**
   * As written, the name loop also accepts the first word of a name on its
   * own, and the first word of "A Coruña" is the one-letter "a": the text
   * "Madrid" resolves to "15" (A Coruña), not "28", because no entry before
   * 15 hits and "a" occurs in "madrid".
   */
  lemma MadridResolvesToCoruna(text: String)
    requires text == "Madrid"
    ensures DetectProvince(text) == Some("15")
  {
    MadridNormalized(text);
    MadridNameLoop(Normalize(text));
    NameLoopDecides(text, 14);
    CorunaCode();
  }
}
