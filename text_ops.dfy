/**
 * Character classes and string primitives used by the alert downloader and the
 * Node service: Python's `str.isspace`, the regex classes `\d` and `\w`,
 * `str.lower`, the accent-stripping `normalize_text`, substring search and
 * `str.strip`.
 *
 * Case mapping and accent stripping are modelled on ASCII and the Latin-1
 * Supplement (U+0000..U+00FF), which covers every letter of the province
 * table; characters above U+00FF are left unchanged.
 */
module TextOps {
  type String = seq<char>

  /** `str.isspace()`: the characters the regex class `\s` matches in a str pattern. */
  predicate IsSpace(c: char) {
    var n := c as int;
    (9 <= n <= 13) || (28 <= n <= 32) || n == 0x85 || n == 0xA0 || n == 0x1680
    || (0x2000 <= n <= 0x200A) || n == 0x2028 || n == 0x2029 || n == 0x202F
    || n == 0x205F || n == 0x3000
  }

  /** The character class `[0-9]` (the source's `\d` is read as ASCII digits). */
  predicate IsDigit(c: char) {
    '0' <= c <= '9'
  }

  /** The regex class `\w`: letters, digits and the underscore, up to U+00FF. */
  predicate IsWordChar(c: char) {
    var n := c as int;
    ('a' <= c <= 'z') || ('A' <= c <= 'Z') || IsDigit(c) || c == '_'
    || n == 0xAA || n == 0xB2 || n == 0xB3 || n == 0xB5 || n == 0xB9 || n == 0xBA
    || (0xBC <= n <= 0xBE) || (0xC0 <= n <= 0xD6) || (0xD8 <= n <= 0xF6) || (0xF8 <= n <= 0xFF)
  }

  /** Upper-case letters of ASCII and Latin-1, which `lower()` maps 32 code points up. */
  predicate IsUpperLetter(c: char) {
    var n := c as int;
    ('A' <= c <= 'Z') || (0xC0 <= n <= 0xDE && n != 0xD7)
  }

  /** Lower-case letters of ASCII and Latin-1 that have a single upper-case partner 32 below. */
  predicate IsLowerLetter(c: char) {
    var n := c as int;
    ('a' <= c <= 'z') || (0xE0 <= n <= 0xFE && n != 0xF7)
  }

  /** `str.lower()` / `String.prototype.toLowerCase()` on one character. */
  function Lower(c: char): (r: char)
    ensures !IsUpperLetter(r)
    ensures IsUpperLetter(c) || r == c
  {
    if IsUpperLetter(c) then (c as int + 32) as char else c
  }

  /** The upper-case form `str.capitalize()` gives a first character. */
  function Upper(c: char): (r: char)
    ensures IsLowerLetter(c) ==> Lower(r) == c
  {
    if IsLowerLetter(c) then (c as int - 32) as char
    else if c as int == 0xFF then 0x178 as char
    else if c as int == 0xB5 then 0x39C as char
    else c
  }

  /** `s.lower()`. */
  function LowerStr(s: String): (r: String)
    ensures |r| == |s|
    ensures forall i :: 0 <= i < |s| ==> r[i] == Lower(s[i])
  {
    seq(|s|, i requires 0 <= i < |s| => Lower(s[i]))
  }

  /** Lower-casing twice is lower-casing once. */
  lemma LowerStrIdempotent(s: String)
    ensures LowerStr(LowerStr(s)) == LowerStr(s)
  {
    assert forall i :: 0 <= i < |s| ==> LowerStr(LowerStr(s))[i] == LowerStr(s)[i];
  }

  /** Lower-casing distributes over concatenation. */
  lemma LowerStrAppend(a: String, b: String)
    ensures LowerStr(a + b) == LowerStr(a) + LowerStr(b)
  {
    assert forall i :: 0 <= i < |a + b| ==> LowerStr(a + b)[i] == (LowerStr(a) + LowerStr(b))[i];
  }

  /**
   * Combining diacritical marks (U+0300..U+036F), which `normalize_text`
   * drops after NFD; U+034F, the grapheme joiner, has combining class 0 and
   * is kept.
   */
  predicate IsCombining(c: char) {
    0x300 <= c as int <= 0x36F && c as int != 0x34F
  }

  /** The base letter NFD leaves of a precomposed Latin-1 letter, or the character itself. */
  function StripAccent(c: char): char {
    var n := c as int;
    if 0xC0 <= n <= 0xC5 then 'A'
    else if n == 0xC7 then 'C'
    else if 0xC8 <= n <= 0xCB then 'E'
    else if 0xCC <= n <= 0xCF then 'I'
    else if n == 0xD1 then 'N'
    else if 0xD2 <= n <= 0xD6 then 'O'
    else if 0xD9 <= n <= 0xDC then 'U'
    else if n == 0xDD then 'Y'
    else if 0xE0 <= n <= 0xE5 then 'a'
    else if n == 0xE7 then 'c'
    else if 0xE8 <= n <= 0xEB then 'e'
    else if 0xEC <= n <= 0xEF then 'i'
    else if n == 0xF1 then 'n'
    else if 0xF2 <= n <= 0xF6 then 'o'
    else if 0xF9 <= n <= 0xFC then 'u'
    else if n == 0xFD || n == 0xFF then 'y'
    else c
  }

  /** s without its combining marks (what NFD followed by the `combining` filter removes). */
  function DropCombining(s: String): (r: String)
    ensures |r| <= |s|
    ensures forall i :: 0 <= i < |r| ==> !IsCombining(r[i])
    ensures (forall i :: 0 <= i < |s| ==> !IsCombining(s[i])) ==> r == s
  {
    if s == [] then []
    else (if IsCombining(s[0]) then [] else [s[0]]) + DropCombining(s[1..])
  }

  /** One character of `normalize_text`: accent stripped, then lower-cased. */
  function FoldChar(c: char): (r: char)
    ensures !IsUpperLetter(r)
  {
    Lower(StripAccent(c))
  }

  /** `normalize_text`: NFD, drop combining marks, lower-case. */
  function Normalize(s: String): (r: String)
    ensures |r| <= |s|
    ensures forall i :: 0 <= i < |r| ==> !IsUpperLetter(r[i]) && !IsCombining(r[i])
  {
    var d := DropCombining(s);
    seq(|d|, i requires 0 <= i < |d| => FoldChar(d[i]))
  }

  /** Folding a folded character changes nothing. */
  lemma FoldCharIdempotent(c: char)
    ensures FoldChar(FoldChar(c)) == FoldChar(c)
  {
  }

  /** Normalising an already normalised string changes nothing. */
  lemma NormalizeIdempotent(s: String)
    ensures Normalize(Normalize(s)) == Normalize(s)
  {
    var d := DropCombining(s);
    var n := Normalize(s);
    assert DropCombining(n) == n;
    forall i | 0 <= i < |n|
      ensures FoldChar(n[i]) == n[i]
    {
      FoldCharIdempotent(d[i]);
    }
  }

  /** A slice is its two adjacent halves put together. */
  lemma SliceSplit(s: String, a: nat, b: nat, c: nat)
    requires a <= b <= c <= |s|
    ensures s[a..c] == s[a..b] + s[b..c]
  {
  }

  /** A slice of the second part of a concatenation, shifted by the first part's length. */
  lemma AppendSlice(x: String, y: String, a: nat, b: nat)
    requires a <= b <= |y|
    ensures (x + y)[|x| + a..|x| + b] == y[a..b]
  {
  }

  /** `s.startswith(w)`. */
  predicate StartsWith(s: String, w: String) {
    |w| <= |s| && s[..|w|] == w
  }

  /** `s.endswith(w)`. */
  predicate EndsWith(s: String, w: String) {
    |w| <= |s| && s[|s| - |w|..] == w
  }

  /** `w in s` for strings, scanning s from the left. */
  predicate Contains(s: String, w: String)
    decreases |s|
  {
    StartsWith(s, w) || (s != [] && Contains(s[1..], w))
  }

  /** Where `w` occurs in `s` at position i. */
  predicate OccursAt(s: String, w: String, i: int) {
    0 <= i && i + |w| <= |s| && s[i..i + |w|] == w
  }

  /** `Contains` is exactly "occurs at some position". */
  lemma {:induction false} ContainsIff(s: String, w: String)
    ensures Contains(s, w) <==> exists i :: OccursAt(s, w, i)
    decreases |s|
  {
    if StartsWith(s, w) {
      assert OccursAt(s, w, 0);
    } else if s == [] {
    } else {
      ContainsIff(s[1..], w);
      if Contains(s[1..], w) {
        var i :| OccursAt(s[1..], w, i);
        assert s[i + 1..i + 1 + |w|] == s[1..][i..i + |w|];
        assert OccursAt(s, w, i + 1);
      }
      forall i | OccursAt(s, w, i) ensures Contains(s[1..], w) {
        assert i != 0;
        assert s[1..][i - 1..i - 1 + |w|] == s[i..i + |w|];
        assert OccursAt(s[1..], w, i - 1);
      }
    }
  }

  /** Every character of a string found in s is a character of s. */
  lemma {:induction false} ContainsChar(s: String, w: String, c: char)
    requires Contains(s, w) && c in w
    ensures c in s
    decreases |s|
  {
    if StartsWith(s, w) {
      assert c in s[..|w|];
    } else {
      ContainsChar(s[1..], w, c);
    }
  }

  /** `s.find(c)` when c occurs, or |s| when it does not. */
  function IndexOfChar(s: String, c: char): (r: nat)
    ensures r <= |s|
    ensures r < |s| ==> s[r] == c
    ensures c !in s[..r]
    decreases |s|
  {
    if s == [] then 0
    else if s[0] == c then 0
    else 1 + IndexOfChar(s[1..], c)
  }

  /** `s.split(c)[0]`: the part before the first occurrence of c. */
  function BeforeFirst(s: String, c: char): (r: String)
    ensures c !in r
    ensures StartsWith(s, r)
    ensures |r| < |s| ==> s[|r|] == c
  {
    s[..IndexOfChar(s, c)]
  }

  /** `s.split(c)[-1]`: the part after the last occurrence of c. */
  function AfterLast(s: String, c: char): (r: String)
    ensures c !in r
    ensures EndsWith(s, r)
    ensures |r| < |s| ==> s[|s| - |r| - 1] == c
    decreases |s|
  {
    if s == [] then []
    else if s[|s| - 1] == c then []
    else AfterLast(s[..|s| - 1], c) + [s[|s| - 1]]
  }

  /** The first index at or after k whose character is not white space (or |s|). */
  function SkipSpaces(s: String, k: nat): (r: nat)
    requires k <= |s|
    ensures k <= r <= |s|
    ensures forall j :: k <= j < r ==> IsSpace(s[j])
    ensures r == |s| || !IsSpace(s[r])
    decreases |s| - k
  {
    if k == |s| || !IsSpace(s[k]) then k else SkipSpaces(s, k + 1)
  }

  /** The index just past the last non-space character of s[..k] (or 0). */
  function TrimEnd(s: String, k: nat): (r: nat)
    requires k <= |s|
    ensures r <= k
    ensures forall j :: r <= j < k ==> IsSpace(s[j])
    ensures r == 0 || !IsSpace(s[r - 1])
  {
    if k == 0 || !IsSpace(s[k - 1]) then k else TrimEnd(s, k - 1)
  }

  /** `str.strip()`: s without its leading and trailing white space. */
  function Strip(s: String): (r: String)
    ensures r == [] || (!IsSpace(r[0]) && !IsSpace(r[|r| - 1]))
    ensures exists a, b :: 0 <= a <= b <= |s| && r == s[a..b]
                           && (forall j :: 0 <= j < a ==> IsSpace(s[j]))
                           && (forall j :: b <= j < |s| ==> IsSpace(s[j]))
  {
    var a := SkipSpaces(s, 0);
    var b := if a == |s| then a else TrimEnd(s, |s|);
    assert a < |s| ==> !IsSpace(s[a]);
    s[a..b]
  }

  /** `str.capitalize()`: the first character upper-cased, the rest lower-cased. */
  function Capitalize(s: String): (r: String)
    ensures |r| == |s|
    ensures s != [] ==> r[0] == Upper(s[0])
    ensures s != [] ==> IsLowerLetter(s[0]) ==> Lower(r[0]) == s[0]
    ensures forall i :: 1 <= i < |s| ==> r[i] == Lower(s[i])
  {
    if s == [] then [] else [Upper(s[0])] + LowerStr(s[1..])
  }
}
