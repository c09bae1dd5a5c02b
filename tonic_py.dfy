/** `tonic` of tonic.py: the position of the stressed syllable, counted from the end. The
    rightmost syllable with a strong accent decides, then the rightmost with a weak accent;
    an unaccented word is oxytone when its last syllable has an oxytone ending
    (case-sensitive), and a last syllable holding `k` hyphens lets the syllable `k` places
    before it decide a stress at `k + 1`. */
module TonicPy {
  import opened Wrappers
  import opened TonicText

  /** The alternatives of `(i(s)?|u|z|im|us|r|l|x|n|um(s)?|ps|om|on(s)?)`. */
  const OxytoneEndings: seq<string> :=
    ["i", "is", "u", "z", "im", "us", "r", "l", "x", "n", "um", "ums", "ps", "om", "on", "ons"]

  /** The exception `tonic` can raise. */
  datatype Failure = IndexError

  /** `re.search(pattern, syllable)`. */
  predicate OxytoneEnding(syllable: string)
  {
    EndingSearch(Python, false, OxytoneEndings, syllable)
  }

  /** `s.count(c)` for a one-character `c`. */
  function Count(s: string, c: char): nat
  {
    if s == [] then 0 else (if s[0] == c then 1 else 0) + Count(s[1..], c)
  }

  /** The hyphen rule, reached by an unaccented list: index `-1` fails on an empty list, and
      index `-1 - k` is evaluated before either test and fails when `k` reaches the length. */
  function Unaccented(syllables: seq<string>): Result<nat, Failure>
  {
    if |syllables| == 0 then Err(IndexError)
    else
      var last := syllables[|syllables| - 1];
      var k := Count(last, '-');
      if k > 0 && k >= |syllables| then Err(IndexError)
      else
        var before := if k > 0 then syllables[|syllables| - 1 - k] else "";
        if OxytoneEnding(last) then Ok(1)
        else if k > 0 && OxytoneEnding(before) then Ok(k + 1)
        else Ok(2)
  }

  /** `tonic`. */
  function Tonic(syllables: seq<string>): (r: Result<nat, Failure>)
    ensures |syllables| == 1 ==> r == Ok(1)
    ensures |syllables| == 0 ==> r == Err(IndexError)
    ensures r.Ok? ==> 1 <= r.value <= |syllables|
  {
    if |syllables| == 1 then Ok(1)
    else match Rightmost(syllables, StrongAccents)
      case Some(i) => Ok(|syllables| - i)
      case None =>
        match Rightmost(syllables, WeakAccents)
        case Some(i) => Ok(|syllables| - i)
        case None => Unaccented(syllables)
  }

  // ---------------------------------------------------------------------------------------
  // Facts

  /** The last strong-accented syllable decides. */
  lemma TonicStrong(syllables: seq<string>, i: nat)
    requires |syllables| >= 2 && i < |syllables| && HasAny(syllables[i], StrongAccents)
    requires forall j :: i < j < |syllables| ==> !HasAny(syllables[j], StrongAccents)
    ensures Tonic(syllables) == Ok(|syllables| - i)
  {
    RightmostIs(syllables, StrongAccents, i);
  }

  /** Without a strong accent anywhere, the last weak-accented syllable decides. */
  lemma TonicWeak(syllables: seq<string>, i: nat)
    requires |syllables| >= 2 && i < |syllables| && HasAny(syllables[i], WeakAccents)
    requires forall j :: 0 <= j < |syllables| ==> !HasAny(syllables[j], StrongAccents)
    requires forall j :: i < j < |syllables| ==> !HasAny(syllables[j], WeakAccents)
    ensures Tonic(syllables) == Ok(|syllables| - i)
  {
    RightmostNone(syllables, StrongAccents);
    RightmostIs(syllables, WeakAccents, i);
  }

  lemma PlainReachesRule(syllables: seq<string>)
    requires |syllables| != 1 && Plain(syllables)
    ensures Tonic(syllables) == Unaccented(syllables)
  {
    RightmostNone(syllables, StrongAccents);
    RightmostNone(syllables, WeakAccents);
  }

  lemma EndingsPlain()
    ensures PlainAlternatives(OxytoneEndings)
    ensures forall m :: 0 <= m < |OxytoneEndings| ==> |OxytoneEndings[m]| > 0
  {
  }

  /** The hyphen rule stated with the direct ending test. */
  lemma UnaccentedRule(syllables: seq<string>)
    requires |syllables| >= 1
    ensures var last := syllables[|syllables| - 1];
      var k := Count(last, '-');
      Unaccented(syllables) ==
        if k >= |syllables| then Err(IndexError)
        else if EndingTest(Python, false, OxytoneEndings, last) then Ok(1)
        else if k > 0 && EndingTest(Python, false, OxytoneEndings, syllables[|syllables| - 1 - k]) then Ok(k + 1)
        else Ok(2)
  {
    var last := syllables[|syllables| - 1];
    var k := Count(last, '-');
    EndingsPlain();
    EndingTestIff(Python, false, OxytoneEndings, last);
    if 0 < k < |syllables| {
      EndingTestIff(Python, false, OxytoneEndings, syllables[|syllables| - 1 - k]);
    }
  }

  /** An unaccented list of two or more syllables whose last one holds `k` hyphens fails
      exactly when `k` is at least the length; otherwise it is oxytone when the last syllable,
      stripped of its trailing non-word characters, ends in an oxytone ending, else stressed
      `k + 1` from the end when the syllable `k` places before the last has one, else
      paroxytone. */
  lemma TonicPlain(syllables: seq<string>)
    requires |syllables| >= 2 && Plain(syllables)
    ensures var last := syllables[|syllables| - 1];
      var k := Count(last, '-');
      Tonic(syllables) ==
        if k >= |syllables| then Err(IndexError)
        else if EndingTest(Python, false, OxytoneEndings, last) then Ok(1)
        else if k > 0 && EndingTest(Python, false, OxytoneEndings, syllables[|syllables| - 1 - k]) then Ok(k + 1)
        else Ok(2)
  {
    PlainReachesRule(syllables);
    UnaccentedRule(syllables);
  }
}
