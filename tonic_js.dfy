/** `tonica` of tonic.js: the position of the stressed syllable, counted from the end. The
    rightmost syllable with a strong accent decides, then the rightmost with a weak accent;
    an unaccented word is oxytone when its last syllable has an oxytone ending
    (case-sensitive, with JavaScript's ASCII `\W`), and paroxytone otherwise. */
module TonicJs {
  import opened TonicText

  /** The alternatives of `(i(s)?|u|z|im|us|r|l|x|n|um(s)?|ps|om|on(s)?)`. */
  const OxytoneEndings: seq<string> :=
    ["i", "is", "u", "z", "im", "us", "r", "l", "x", "n", "um", "ums", "ps", "om", "on", "ons"]

  /** `regex.test(syllable)`. */
  predicate OxytoneEnding(syllable: string)
  {
    EndingSearch(JavaScript, false, OxytoneEndings, syllable)
  }

  /** The last element of the array; reading past the end of an empty one gives `undefined`,
      which `test` converts to the text "undefined". */
  function LastSyllable(syllables: seq<string>): string
  {
    if |syllables| == 0 then "undefined" else syllables[|syllables| - 1]
  }

  /** `tonica`. */
  function Tonica(syllables: seq<string>): (r: nat)
    ensures |syllables| == 1 ==> r == 1
    ensures 1 <= r
    ensures |syllables| >= 2 ==> r <= |syllables|
  {
    if |syllables| == 1 then 1
    else match Rightmost(syllables, StrongAccents)
      case Some(i) => |syllables| - i
      case None =>
        match Rightmost(syllables, WeakAccents)
        case Some(i) => |syllables| - i
        case None => if OxytoneEnding(LastSyllable(syllables)) then 1 else 2
  }

  // ---------------------------------------------------------------------------------------
  // Facts

  lemma EndingsPlain()
    ensures PlainAlternatives(OxytoneEndings)
    ensures forall m :: 0 <= m < |OxytoneEndings| ==> |OxytoneEndings[m]| > 0
    ensures forall m, k :: 0 <= m < |OxytoneEndings| && 0 <= k < |OxytoneEndings[m]| ==> OxytoneEndings[m][k] != 'd'
  {
  }

  /** The last strong-accented syllable decides, whatever weak accents come after it. */
  lemma TonicaStrong(syllables: seq<string>, i: nat)
    requires |syllables| >= 2 && i < |syllables| && HasAny(syllables[i], StrongAccents)
    requires forall j :: i < j < |syllables| ==> !HasAny(syllables[j], StrongAccents)
    ensures Tonica(syllables) == |syllables| - i
  {
    RightmostIs(syllables, StrongAccents, i);
  }

  /** Without a strong accent anywhere, the last weak-accented syllable decides. */
  lemma TonicaWeak(syllables: seq<string>, i: nat)
    requires |syllables| >= 2 && i < |syllables| && HasAny(syllables[i], WeakAccents)
    requires forall j :: 0 <= j < |syllables| ==> !HasAny(syllables[j], StrongAccents)
    requires forall j :: i < j < |syllables| ==> !HasAny(syllables[j], WeakAccents)
    ensures Tonica(syllables) == |syllables| - i
  {
    RightmostNone(syllables, StrongAccents);
    RightmostIs(syllables, WeakAccents, i);
  }

  /** Without accents the word is oxytone exactly when its last syllable, stripped of the
      trailing characters outside `[A-Za-z0-9_]`, ends in an oxytone ending. */
  lemma TonicaPlain(syllables: seq<string>)
    requires |syllables| >= 2
    requires forall j :: 0 <= j < |syllables| ==> !HasAny(syllables[j], StrongAccents) && !HasAny(syllables[j], WeakAccents)
    ensures Tonica(syllables) == if EndingTest(JavaScript, false, OxytoneEndings, syllables[|syllables| - 1]) then 1 else 2
  {
    RightmostNone(syllables, StrongAccents);
    RightmostNone(syllables, WeakAccents);
    EndingsPlain();
    EndingTestIff(JavaScript, false, OxytoneEndings, syllables[|syllables| - 1]);
  }

  /** An empty array gives 2: "undefined" ends in `d`, which ends no oxytone ending. */
  lemma TonicaEmpty()
    ensures Tonica([]) == 2
  {
    var u := "undefined";
    EndingsPlain();
    EndingTestIff(JavaScript, false, OxytoneEndings, u);
    assert WordChar(JavaScript, u[8]);
    WordEndAt(JavaScript, u, 9, 9);
    assert u[..9] == u;
    EndsWithNone(JavaScript, false, OxytoneEndings, u);
  }
}
