/** Text tests shared by the tonic-syllable locators: which syllables carry a graphic accent,
    the rightmost such syllable, and the regular expressions they test the last syllable with.
    Each regular expression is written twice: as the match it describes (some window of the
    text spells an alternative, and what follows the window is allowed by the rest of the
    pattern), and as a direct test; a lemma shows that the two agree. */
module TonicText {
  import opened Wrappers

  const StrongAccents: string := "áéíóúàèìòùâêîôûÁÉÍÓÚÀÈÌÒÙÂÊÎÔÛ"
  const WeakAccents: string := "ãẽĩõũÃẼĨÕŨ"

  /** Some character of the syllable is one of `chars`. */
  predicate HasAny(syllable: string, chars: string)
  {
    exists k :: 0 <= k < |syllable| && syllable[k] in chars
  }

  /** No syllable has a strong or a weak accent. */
  predicate Plain(syllables: seq<string>)
  {
    forall j :: 0 <= j < |syllables| ==> !HasAny(syllables[j], StrongAccents) && !HasAny(syllables[j], WeakAccents)
  }

  /** The index of the rightmost syllable among the first `n` that has one of `chars`. */
  function RightmostBelow(syllables: seq<string>, chars: string, n: nat): (r: Option<nat>)
    requires n <= |syllables|
    ensures r.Some? ==> r.value < n && HasAny(syllables[r.value], chars)
    ensures r.Some? ==> forall j :: r.value < j < n ==> !HasAny(syllables[j], chars)
    ensures r.None? ==> forall j :: 0 <= j < n ==> !HasAny(syllables[j], chars)
  {
    if n == 0 then None
    else if HasAny(syllables[n - 1], chars) then Some(n - 1)
    else RightmostBelow(syllables, chars, n - 1)
  }

  /** The scan from the last syllable towards the first for one that has one of `chars`. */
  function Rightmost(syllables: seq<string>, chars: string): Option<nat>
  {
    RightmostBelow(syllables, chars, |syllables|)
  }

  /** A syllable with one of `chars`, and none after it: what the scan from the end finds. */
  lemma RightmostIs(syllables: seq<string>, chars: string, i: nat)
    requires i < |syllables| && HasAny(syllables[i], chars)
    requires forall j :: i < j < |syllables| ==> !HasAny(syllables[j], chars)
    ensures Rightmost(syllables, chars) == Some(i)
  {
  }

  /** When no syllable has one of `chars`, the scan finds nothing. */
  lemma RightmostNone(syllables: seq<string>, chars: string)
    requires forall j :: 0 <= j < |syllables| ==> !HasAny(syllables[j], chars)
    ensures Rightmost(syllables, chars) == None
  {
  }

  // ---------------------------------------------------------------------------------------
  // Regular-expression character tests

  /** Whose `\w` is meant: JavaScript's without the `u` flag, or Python's on `str`. */
  datatype Dialect = JavaScript | Python

  /** `\w`. In JavaScript it is `[A-Za-z0-9_]`. In Python it is every alphanumeric character
      and `_`; of those, the ASCII ones, the Latin-1 letters and numerals, Latin Extended-A and
      -B and Latin Extended Additional are modelled. */
  predicate WordChar(d: Dialect, c: char)
  {
    ('a' <= c <= 'z') || ('A' <= c <= 'Z') || ('0' <= c <= '9') || c == '_'
    || (d == Python && LatinWordChar(c))
  }

  predicate LatinWordChar(c: char)
  {
    c == 'ª' || c == '²' || c == '³' || c == 'µ' || c == '¹' || c == 'º'
    || ('¼' <= c <= '¾')
    || ('\U{C0}' <= c <= '\U{24F}' && c != '\U{D7}' && c != '\U{F7}')
    || ('\U{1E00}' <= c <= '\U{1EFF}')
  }

  /** A pattern letter (always a lower-case ASCII letter here) matches a text character:
      itself, and under case-insensitive matching its upper-case form. Python's `re` also
      lets `i` match `İ` and `ı` and lets `s` match `ſ`; JavaScript without the `u` flag
      never lets a non-ASCII character match an ASCII one. */
  predicate LetterMatches(d: Dialect, ignoreCase: bool, c: char, x: char)
  {
    c == x
    || (ignoreCase && (c as int == x as int - 32
          || (d == Python && ((x == 'i' && (c == 'İ' || c == 'ı')) || (x == 's' && c == 'ſ')))))
  }

  /** The text `t` spells the pattern word `e`. */
  predicate Spells(d: Dialect, ignoreCase: bool, t: string, e: string)
  {
    |t| == |e| && forall k :: 0 <= k < |t| ==> LetterMatches(d, ignoreCase, t[k], e[k])
  }

  /** `t` spells one of the alternatives. */
  predicate SpellsOneOf(d: Dialect, ignoreCase: bool, alternatives: seq<string>, t: string)
  {
    exists m :: 0 <= m < |alternatives| && Spells(d, ignoreCase, t, alternatives[m])
  }

  /** Every character from `j` on is a non-word character. */
  predicate NonWordFrom(d: Dialect, s: string, j: nat)
  {
    forall k :: j <= k < |s| ==> !WordChar(d, s[k])
  }

  /** Alternatives made of lower-case ASCII letters, none empty. */
  predicate PlainAlternatives(alternatives: seq<string>)
  {
    forall m, k :: 0 <= m < |alternatives| && 0 <= k < |alternatives[m]| ==> 'a' <= alternatives[m][k] <= 'z'
  }

  // ---------------------------------------------------------------------------------------
  // `(A|B|...)(\W+)?$`

  /** The search for `(A|B|...)(\W+)?$`: some window spells an alternative and only non-word
      characters follow it. (Python's `$` also matches before a final newline, which is a
      non-word character, so the same windows match.) */
  predicate EndingSearch(d: Dialect, ignoreCase: bool, alternatives: seq<string>, s: string)
  {
    exists i, j :: 0 <= i <= j <= |s| && SpellsOneOf(d, ignoreCase, alternatives, s[i..j]) && NonWordFrom(d, s, j)
  }

  /** The length of `s` without its trailing run of non-word characters. */
  function WordEnd(d: Dialect, s: string, n: nat): (e: nat)
    requires n <= |s|
    requires NonWordFrom(d, s, n)
    ensures e <= n && NonWordFrom(d, s, e)
    ensures e > 0 ==> WordChar(d, s[e - 1])
  {
    if n == 0 || WordChar(d, s[n - 1]) then n else WordEnd(d, s, n - 1)
  }

  /** `t` ends with one of the alternatives, tried in order. */
  function EndsWithOneOf(d: Dialect, ignoreCase: bool, alternatives: seq<string>, t: string): bool
  {
    if alternatives == [] then false
    else
      var e := alternatives[0];
      (|e| <= |t| && Spells(d, ignoreCase, t[|t| - |e|..], e))
      || EndsWithOneOf(d, ignoreCase, alternatives[1..], t)
  }

  /** The direct test: strip the trailing non-word characters and look at the ending. */
  function EndingTest(d: Dialect, ignoreCase: bool, alternatives: seq<string>, s: string): bool
  {
    EndsWithOneOf(d, ignoreCase, alternatives, s[..WordEnd(d, s, |s|)])
  }

  lemma {:induction false} EndsWithOneOfIff(d: Dialect, ignoreCase: bool, alternatives: seq<string>, t: string)
    ensures EndsWithOneOf(d, ignoreCase, alternatives, t)
      <==> exists m :: 0 <= m < |alternatives| && |alternatives[m]| <= |t|
                       && Spells(d, ignoreCase, t[|t| - |alternatives[m]|..], alternatives[m])
  {
    if alternatives != [] {
      EndsWithOneOfIff(d, ignoreCase, alternatives[1..], t);
      var e := alternatives[0];
      if |e| <= |t| && Spells(d, ignoreCase, t[|t| - |e|..], e) {
        assert alternatives[0] == e;
      }
      forall m | 1 <= m < |alternatives|
        ensures alternatives[m] == alternatives[1..][m - 1]
      {
      }
    }
  }

  /** No alternative ends a text whose last character matches no letter of any of them. */
  lemma {:induction false} EndsWithNone(d: Dialect, ignoreCase: bool, alternatives: seq<string>, t: string)
    requires |t| > 0
    requires forall m :: 0 <= m < |alternatives| ==> |alternatives[m]| > 0
    requires forall m, k :: 0 <= m < |alternatives| && 0 <= k < |alternatives[m]| ==>
      !LetterMatches(d, ignoreCase, t[|t| - 1], alternatives[m][k])
    ensures !EndsWithOneOf(d, ignoreCase, alternatives, t)
  {
    if alternatives != [] {
      var e := alternatives[0];
      if |e| <= |t| {
        assert t[|t| - |e|..][|e| - 1] == t[|t| - 1];
        assert !LetterMatches(d, ignoreCase, t[|t| - 1], e[|e| - 1]);
      }
      forall m | 0 <= m < |alternatives[1..]|
        ensures alternatives[1..][m] == alternatives[m + 1]
      {
      }
      EndsWithNone(d, ignoreCase, alternatives[1..], t);
    }
  }

  lemma WordEndAt(d: Dialect, s: string, n: nat, j: nat)
    requires j <= n <= |s|
    requires NonWordFrom(d, s, j)
    requires j > 0 ==> WordChar(d, s[j - 1])
    ensures WordEnd(d, s, n) == j
    decreases n
  {
    if n > j {
      WordEndAt(d, s, n - 1, j);
    }
  }

  /** A letter that matches a pattern letter is a word character. */
  lemma MatchedIsWord(d: Dialect, ignoreCase: bool, c: char, x: char)
    requires 'a' <= x <= 'z'
    requires LetterMatches(d, ignoreCase, c, x)
    ensures WordChar(d, c)
  {
  }

  /** The search and the direct test agree. */
  lemma EndingTestIff(d: Dialect, ignoreCase: bool, alternatives: seq<string>, s: string)
    requires PlainAlternatives(alternatives)
    requires forall m :: 0 <= m < |alternatives| ==> |alternatives[m]| > 0
    ensures EndingTest(d, ignoreCase, alternatives, s) <==> EndingSearch(d, ignoreCase, alternatives, s)
  {
    if EndingTest(d, ignoreCase, alternatives, s) {
      TestFindsWindow(d, ignoreCase, alternatives, s);
    }
    if EndingSearch(d, ignoreCase, alternatives, s) {
      var i, j :| 0 <= i <= j <= |s| && SpellsOneOf(d, ignoreCase, alternatives, s[i..j]) && NonWordFrom(d, s, j);
      WindowPassesTest(d, ignoreCase, alternatives, s, i, j);
    }
  }

  lemma TestFindsWindow(d: Dialect, ignoreCase: bool, alternatives: seq<string>, s: string)
    requires EndingTest(d, ignoreCase, alternatives, s)
    ensures EndingSearch(d, ignoreCase, alternatives, s)
  {
    var n := WordEnd(d, s, |s|);
    var t := s[..n];
    EndsWithOneOfIff(d, ignoreCase, alternatives, t);
    var m :| 0 <= m < |alternatives| && |alternatives[m]| <= |t|
             && Spells(d, ignoreCase, t[|t| - |alternatives[m]|..], alternatives[m]);
    var i := n - |alternatives[m]|;
    assert t[|t| - |alternatives[m]|..] == s[i..n];
    assert SpellsOneOf(d, ignoreCase, alternatives, s[i..n]);
  }

  lemma WindowPassesTest(d: Dialect, ignoreCase: bool, alternatives: seq<string>, s: string, i: nat, j: nat)
    requires PlainAlternatives(alternatives)
    requires forall m :: 0 <= m < |alternatives| ==> |alternatives[m]| > 0
    requires i <= j <= |s| && NonWordFrom(d, s, j)
    requires SpellsOneOf(d, ignoreCase, alternatives, s[i..j])
    ensures EndingTest(d, ignoreCase, alternatives, s)
  {
    var m :| 0 <= m < |alternatives| && Spells(d, ignoreCase, s[i..j], alternatives[m]);
    var e := alternatives[m];
    assert 'a' <= e[|e| - 1] <= 'z';
    assert s[j - 1] == s[i..j][|e| - 1];
    MatchedIsWord(d, ignoreCase, s[j - 1], e[|e| - 1]);
    WordEndAt(d, s, |s|, j);
    var t := s[..j];
    assert t[|t| - |e|..] == s[i..j];
    EndsWithOneOfIff(d, ignoreCase, alternatives, t);
  }

  // ---------------------------------------------------------------------------------------
  // `[iIuU]s?|[aA]is|[eE]is|[oO]is|[uU]ns|[eE]ns|[rRlLzZ]$` under `re.IGNORECASE`

  /** The alternatives before the last: `$` binds only the last one, so these match anywhere. */
  const Unanchored: seq<string> := ["i", "is", "u", "us", "ais", "eis", "ois", "uns", "ens"]
  /** The last alternative, anchored at the end. */
  const Anchored: seq<string> := ["r", "l", "z"]

  /** Python's `$`: the end of the text, or just before a newline that ends it. */
  predicate AtEnd(s: string, j: nat)
  {
    j == |s| || (j + 1 == |s| && s[j] == '\n')
  }

  /** The search for the pattern as written. */
  predicate LastSyllableSearch(s: string)
  {
    exists i, j :: 0 <= i <= j <= |s|
      && (SpellsOneOf(Python, true, Unanchored, s[i..j]) || (SpellsOneOf(Python, true, Anchored, s[i..j]) && AtEnd(s, j)))
  }

  /** `e` occurs in `s`, up to case. */
  predicate ContainsSpelled(s: string, e: string)
  {
    exists i :: 0 <= i <= |s| - |e| && SpelledAt(s, e, i)
  }

  predicate SpelledAt(s: string, e: string, i: int)
  {
    0 <= i && i + |e| <= |s| && Spells(Python, true, s[i..i + |e|], e)
  }

  /** The character before position `j` is `r`, `l` or `z`, up to case. */
  predicate RlzBefore(s: string, j: nat)
    requires j <= |s|
  {
    j > 0 && s[j - 1] in "rRlLzZ"
  }

  /** What the pattern amounts to: an `i`, a `u` or an `ens` anywhere, or a final `r`, `l`
      or `z` (possibly followed by a final newline), all up to case. */
  function LastSyllableTest(s: string): bool
  {
    ContainsSpelled(s, "i") || ContainsSpelled(s, "u") || ContainsSpelled(s, "ens")
    || RlzBefore(s, |s|) || (|s| > 0 && s[|s| - 1] == '\n' && RlzBefore(s, |s| - 1))
  }

  /** The window `s[i..j]` that spells an unanchored alternative holds an `i`/`u` or `ens`. */
  lemma UnanchoredContains(s: string, i: nat, j: nat, m: nat)
    requires i <= j <= |s| && m < |Unanchored|
    requires Spells(Python, true, s[i..j], Unanchored[m])
    ensures ContainsSpelled(s, "i") || ContainsSpelled(s, "u") || ContainsSpelled(s, "ens")
  {
    var w := s[i..j];
    var e := Unanchored[m];
    if m <= 1 {
      assert e[0] == 'i' && LetterMatches(Python, true, w[0], e[0]);
      assert s[i..i + 1][0] == w[0];
      assert SpelledAt(s, "i", i);
    } else if m <= 3 || m == 7 {
      assert e[0] == 'u' && LetterMatches(Python, true, w[0], e[0]);
      assert s[i..i + 1][0] == w[0];
      assert SpelledAt(s, "u", i);
    } else if m <= 6 {
      assert e[1] == 'i' && LetterMatches(Python, true, w[1], e[1]);
      assert s[i + 1..i + 2][0] == w[1];
      assert SpelledAt(s, "i", i + 1);
    } else {
      assert e == "ens";
      assert s[i..i + 3] == w;
      assert SpelledAt(s, "ens", i);
    }
  }

  lemma AnchoredEnds(s: string, i: nat, j: nat, m: nat)
    requires i <= j <= |s| && m < |Anchored| && AtEnd(s, j)
    requires Spells(Python, true, s[i..j], Anchored[m])
    ensures RlzBefore(s, |s|) || (|s| > 0 && s[|s| - 1] == '\n' && RlzBefore(s, |s| - 1))
  {
    assert s[i..j][0] == s[j - 1];
    assert s[j - 1] in "rRlLzZ";
  }

  /** The pattern as written and what it amounts to agree. */
  lemma LastSyllableTestIff(s: string)
    ensures LastSyllableTest(s) <==> LastSyllableSearch(s)
  {
    if LastSyllableSearch(s) {
      var i, j :| 0 <= i <= j <= |s|
        && (SpellsOneOf(Python, true, Unanchored, s[i..j]) || (SpellsOneOf(Python, true, Anchored, s[i..j]) && AtEnd(s, j)));
      if SpellsOneOf(Python, true, Unanchored, s[i..j]) {
        var m :| 0 <= m < |Unanchored| && Spells(Python, true, s[i..j], Unanchored[m]);
        UnanchoredContains(s, i, j, m);
      } else {
        var m :| 0 <= m < |Anchored| && Spells(Python, true, s[i..j], Anchored[m]);
        AnchoredEnds(s, i, j, m);
      }
    }
    if LastSyllableTest(s) {
      WitnessSearch(s);
    }
  }

  lemma WitnessSearch(s: string)
    requires LastSyllableTest(s)
    ensures LastSyllableSearch(s)
  {
    if ContainsSpelled(s, "i") {
      ContainsWitness(s, 0);
    } else if ContainsSpelled(s, "u") {
      ContainsWitness(s, 2);
    } else if ContainsSpelled(s, "ens") {
      ContainsWitness(s, 8);
    } else {
      var j := if RlzBefore(s, |s|) then |s| else |s| - 1;
      FinalRlz(s, j);
      SearchAt(s, j - 1, j, false);
    }
  }

  lemma ContainsWitness(s: string, m: nat)
    requires m < |Unanchored| && ContainsSpelled(s, Unanchored[m])
    ensures LastSyllableSearch(s)
  {
    var e := Unanchored[m];
    var i :| 0 <= i <= |s| - |e| && SpelledAt(s, e, i);
    UnanchoredAt(s, i, |e|, m);
  }

  lemma UnanchoredAt(s: string, i: nat, n: nat, m: nat)
    requires m < |Unanchored| && n == |Unanchored[m]|
    requires SpelledAt(s, Unanchored[m], i)
    ensures LastSyllableSearch(s)
  {
    assert SpellsOneOf(Python, true, Unanchored, s[i..i + n]);
    SearchAt(s, i, i + n, true);
  }

  lemma FinalRlz(s: string, j: nat)
    requires 0 < j <= |s| && s[j - 1] in "rRlLzZ"
    ensures SpellsOneOf(Python, true, Anchored, s[j - 1..j])
  {
    var c := s[j - 1];
    assert s[j - 1..j] == [c];
    if c in "rR" {
      assert Spells(Python, true, [c], Anchored[0]);
    } else if c in "lL" {
      assert Spells(Python, true, [c], Anchored[1]);
    } else {
      assert Spells(Python, true, [c], Anchored[2]);
    }
  }

  lemma SearchAt(s: string, i: nat, j: nat, unanchored: bool)
    requires i <= j <= |s|
    requires unanchored ==> SpellsOneOf(Python, true, Unanchored, s[i..j])
    requires !unanchored ==> SpellsOneOf(Python, true, Anchored, s[i..j]) && AtEnd(s, j)
    ensures LastSyllableSearch(s)
  {
  }
}
