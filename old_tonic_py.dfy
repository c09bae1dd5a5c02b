/** `tonic` of old/tonic.py: the earlier version of the locator compare.py scores with. The
    nearest strong accent from the end decides, then the nearest weak accent; an unaccented
    word is stressed on its last syllable when that syllable matches the oxytone pattern, and
    on the penultimate otherwise. */
module OldTonicPy {
  import opened Wrappers
  import opened TonicText
  import Compare

  /** `tonic`: nothing for an empty list. The test for a last syllable "lo" in a longer list
      leads to 2, like the default after it. */
  function Tonic(wordSeparated: seq<string>): (r: Option<nat>)
    ensures r.None? <==> |wordSeparated| == 0
    ensures r.Some? ==> 1 <= r.value && (r.value <= |wordSeparated| || r.value == 2)
  {
    if |wordSeparated| == 0 then None
    else match Rightmost(wordSeparated, StrongAccents)
      case Some(i) => Some(|wordSeparated| - i)
      case None =>
        match Rightmost(wordSeparated, WeakAccents)
        case Some(i) => Some(|wordSeparated| - i)
        case None =>
          var lastSyllable := wordSeparated[|wordSeparated| - 1];
          if LastSyllableSearch(lastSyllable) then Some(1)
          else if |wordSeparated| > 1 && lastSyllable == "lo" then Some(2)
          else Some(2)
  }

  // ---------------------------------------------------------------------------------------
  // Facts

  /** The nearest strong accent from the end wins over any weak accent. */
  lemma TonicStrong(wordSeparated: seq<string>, i: nat)
    requires i < |wordSeparated| && HasAny(wordSeparated[i], StrongAccents)
    requires forall j :: i < j < |wordSeparated| ==> !HasAny(wordSeparated[j], StrongAccents)
    ensures Tonic(wordSeparated) == Some(|wordSeparated| - i)
  {
    RightmostIs(wordSeparated, StrongAccents, i);
  }

  /** Without a strong accent, the nearest weak accent from the end decides. */
  lemma TonicWeak(wordSeparated: seq<string>, i: nat)
    requires i < |wordSeparated| && HasAny(wordSeparated[i], WeakAccents)
    requires forall j :: 0 <= j < |wordSeparated| ==> !HasAny(wordSeparated[j], StrongAccents)
    requires forall j :: i < j < |wordSeparated| ==> !HasAny(wordSeparated[j], WeakAccents)
    ensures Tonic(wordSeparated) == Some(|wordSeparated| - i)
  {
    RightmostNone(wordSeparated, StrongAccents);
    RightmostIs(wordSeparated, WeakAccents, i);
  }

  /** Without accents the result is 1 exactly when the last syllable has an `i`, a `u` or an
      `ens` anywhere, or ends in `r`, `l` or `z`, all up to case; it is 2 otherwise, a
      monosyllable included. */
  lemma TonicPlain(wordSeparated: seq<string>)
    requires |wordSeparated| > 0 && Plain(wordSeparated)
    ensures Tonic(wordSeparated)
      == if LastSyllableTest(wordSeparated[|wordSeparated| - 1]) then Some(1) else Some(2)
  {
    RightmostNone(wordSeparated, StrongAccents);
    RightmostNone(wordSeparated, WeakAccents);
    LastSyllableTestIff(wordSeparated[|wordSeparated| - 1]);
  }

  /** The old locator and the one compare.py scores with agree on every list: their only
      difference, the test that leads to 2 before the default 2, changes no result. */
  lemma AgreesWithCompare(wordSeparated: seq<string>)
    ensures Tonic(wordSeparated) == Compare.GetTonicSyllablePosition(wordSeparated)
  {
  }
}
