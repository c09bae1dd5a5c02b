/** `tonic` of tonic.ts: the position of the stressed syllable, counted from the end (1 is the
    last syllable). Accent categories are tried in a fixed order, and within a category the
    syllables from the last towards the first; an unaccented word is stressed on its last
    syllable when that syllable has an oxytone ending, and on the penultimate otherwise. */
module TonicTs {
  import opened Wrappers
  import opened TonicText

  /** Acute, grave, circumflex and tilde, in order of precedence: the sets the comments of
      tonic.ts name, and the ones `Tonic` uses. */
  const AccentCategories: seq<string> := ["áéíóúÁÉÍÓÚ", "àèìòùÀÈÌÒÙ", "âêîôûÂÊÎÔÛ", "ãẽĩõũÃẼĨÕŨ"]

  /** The four category strings as tonic.ts spells them: the UTF-8 bytes of the accented
      vowels read as Cyrillic (code page 1251), so that each vowel became two characters,
      `á` for instance `\U{0413}\U{040E}`. */
  const AccentCategoriesAsWritten: seq<string> := [
    "\U{0413}\U{040E}\U{0413}\U{00A9}\U{0413}\U{00AD}\U{0413}\U{0456}\U{0413}\U{0454}\U{0413}\U{0403}\U{0413}\U{2030}\U{0413}\U{040C}\U{0413}\U{201C}\U{0413}\U{0459}",
    "\U{0413}\U{00A0}\U{0413}\U{0401}\U{0413}\U{00AC}\U{0413}\U{0406}\U{0413}\U{2116}\U{0413}\U{0402}\U{0413}\U{20AC}\U{0413}\U{040A}\U{0413}\U{2019}\U{0413}\U{2122}",
    "\U{0413}\U{045E}\U{0413}\U{0404}\U{0413}\U{00AE}\U{0413}\U{0491}\U{0413}\U{00BB}\U{0413}\U{201A}\U{0413}\U{0409}\U{0413}\U{040B}\U{0413}\U{201D}\U{0413}\U{203A}",
    "\U{0413}\U{0408}\U{0431}\U{0454}\U{0405}\U{0414}\U{00A9}\U{0413}\U{00B5}\U{0415}\U{00A9}\U{0413}\U{0453}\U{0431}\U{0454}\U{0458}\U{0414}\U{0401}\U{0413}\U{2022}\U{0415}\U{0401}"
  ]

  /** The alternatives of `(i(m|n)?(s)?|u(n|m)?(s)?|z|r|l|x|n|ps|om|on(s)?)`. */
  const OxytoneEndings: seq<string> :=
    ["i", "im", "in", "is", "ims", "ins", "u", "un", "um", "us", "uns", "ums",
     "z", "r", "l", "x", "n", "ps", "om", "on", "ons"]

  /** The first category from `c` on that marks some syllable, with the rightmost syllable
      it marks. */
  function FirstAccented(categories: seq<string>, syllables: seq<string>, c: nat): (r: Option<(nat, nat)>)
    requires c <= |categories|
    ensures r.Some? ==> c <= r.value.0 < |categories| && r.value.1 < |syllables|
    decreases |categories| - c
  {
    if c == |categories| then None
    else match Rightmost(syllables, categories[c])
      case Some(i) => Some((c, i))
      case None => FirstAccented(categories, syllables, c + 1)
  }

  /** The oxytone-ending test `/(...)(\W+)?$/i`. */
  predicate OxytoneEnding(syllable: string)
  {
    EndingSearch(JavaScript, true, OxytoneEndings, syllable)
  }

  /** `tonic` over a given list of accent categories; the error is the exception thrown for
      an empty array. */
  function TonicWith(categories: seq<string>, syllables: seq<string>): (r: Result<nat, string>)
    ensures r.Err? <==> |syllables| == 0
    ensures |syllables| == 1 ==> r == Ok(1)
    ensures r.Ok? ==> 1 <= r.value <= |syllables|
  {
    if |syllables| == 0 then Err("Input 'syllables' array cannot be empty.")
    else if |syllables| == 1 then Ok(1)
    else match FirstAccented(categories, syllables, 0)
      case Some((_, i)) => Ok(|syllables| - i)
      case None => if OxytoneEnding(syllables[|syllables| - 1]) then Ok(1) else Ok(2)
  }

  /** `tonic` with the accent sets it is meant to have. */
  function Tonic(syllables: seq<string>): (r: Result<nat, string>)
    ensures r.Err? <==> |syllables| == 0
    ensures |syllables| == 1 ==> r == Ok(1)
    ensures r.Ok? ==> 1 <= r.value <= |syllables|
  {
    TonicWith(AccentCategories, syllables)
  }

  /** `tonic` with the category strings as tonic.ts spells them. */
  function TonicAsWritten(syllables: seq<string>): (r: Result<nat, string>)
    ensures r.Err? <==> |syllables| == 0
    ensures |syllables| == 1 ==> r == Ok(1)
    ensures r.Ok? ==> 1 <= r.value <= |syllables|
  {
    TonicWith(AccentCategoriesAsWritten, syllables)
  }

  // ---------------------------------------------------------------------------------------
  // Facts

  /** `syllables[i]` has an accent of category `c`, no later syllable has one, and no
      syllable has an accent of an earlier category. */
  predicate DecidedBy(categories: seq<string>, syllables: seq<string>, c: nat, i: nat)
  {
    c < |categories| && i < |syllables|
    && HasAny(syllables[i], categories[c])
    && (forall j :: i < j < |syllables| ==> !HasAny(syllables[j], categories[c]))
    && (forall c', j :: 0 <= c' < c && 0 <= j < |syllables| ==> !HasAny(syllables[j], categories[c']))
  }

  /** No syllable has an accent of any category. */
  predicate Unaccented(categories: seq<string>, syllables: seq<string>)
  {
    forall c, j :: 0 <= c < |categories| && 0 <= j < |syllables| ==> !HasAny(syllables[j], categories[c])
  }

  lemma {:induction false} FirstAccentedFinds(categories: seq<string>, syllables: seq<string>, c0: nat, c: nat, i: nat)
    requires c0 <= c && DecidedBy(categories, syllables, c, i)
    ensures FirstAccented(categories, syllables, c0) == Some((c, i))
    decreases c - c0
  {
    if c0 < c {
      RightmostNone(syllables, categories[c0]);
      FirstAccentedFinds(categories, syllables, c0 + 1, c, i);
    } else {
      RightmostIs(syllables, categories[c], i);
    }
  }

  lemma {:induction false} FirstAccentedNone(categories: seq<string>, syllables: seq<string>, c0: nat)
    requires c0 <= |categories| && Unaccented(categories, syllables)
    ensures FirstAccented(categories, syllables, c0) == None
    decreases |categories| - c0
  {
    if c0 < |categories| {
      RightmostNone(syllables, categories[c0]);
      FirstAccentedNone(categories, syllables, c0 + 1);
    }
  }

  lemma {:induction false} FirstAccentedDecides(categories: seq<string>, syllables: seq<string>, c0: nat)
    requires c0 <= |categories|
    requires forall c', j :: 0 <= c' < c0 && 0 <= j < |syllables| ==> !HasAny(syllables[j], categories[c'])
    ensures match FirstAccented(categories, syllables, c0)
      case Some((c, i)) => DecidedBy(categories, syllables, c, i)
      case None => Unaccented(categories, syllables)
    decreases |categories| - c0
  {
    if c0 < |categories| {
      if Rightmost(syllables, categories[c0]).None? {
        FirstAccentedDecides(categories, syllables, c0 + 1);
      }
    }
  }

  lemma EndingsPlain()
    ensures PlainAlternatives(OxytoneEndings)
    ensures forall m :: 0 <= m < |OxytoneEndings| ==> |OxytoneEndings[m]| > 0
  {
  }

  /** An accent of an earlier category anywhere wins over a later category nearer the end;
      within the category the last marked syllable wins. */
  lemma TonicAccented(syllables: seq<string>, c: nat, i: nat)
    requires |syllables| >= 2 && DecidedBy(AccentCategories, syllables, c, i)
    ensures Tonic(syllables) == Ok(|syllables| - i)
  {
    FirstAccentedFinds(AccentCategories, syllables, 0, c, i);
  }

  /** Without accents the word is oxytone exactly when its last syllable, stripped of the
      trailing non-word characters, ends in an oxytone ending up to ASCII case; otherwise it
      is paroxytone. */
  lemma TonicUnaccented(categories: seq<string>, syllables: seq<string>)
    requires |syllables| >= 2 && Unaccented(categories, syllables)
    ensures var last := syllables[|syllables| - 1];
      TonicWith(categories, syllables) == if EndingTest(JavaScript, true, OxytoneEndings, last) then Ok(1) else Ok(2)
  {
    FirstAccentedNone(categories, syllables, 0);
    EndingsPlain();
    EndingTestIff(JavaScript, true, OxytoneEndings, syllables[|syllables| - 1]);
  }

  // ---------------------------------------------------------------------------------------
  // The category strings as written

  /** A character of ASCII, the Latin-1 letters, Latin Extended-A and -B or Latin Extended
      Additional: every letter Portuguese text is written with. */
  predicate LatinChar(ch: char)
  {
    ch < '\U{A0}' || ('\U{C0}' <= ch <= '\U{24F}') || ('\U{1E00}' <= ch <= '\U{1EFF}')
  }

  predicate LatinText(s: string)
  {
    forall k :: 0 <= k < |s| ==> LatinChar(s[k])
  }

  /** Every accented vowel `tonic` is meant to look for is a Latin character. */
  lemma IntendedLatin()
    ensures forall c :: 0 <= c < |AccentCategories| ==> LatinText(AccentCategories[c])
  {
    assert LatinText(AccentCategories[0]);
    assert LatinText(AccentCategories[1]);
    assert LatinText(AccentCategories[2]);
    assert LatinText(AccentCategories[3]);
  }

  /** No character of the strings as written is a Latin character. */
  lemma AsWrittenNotLatin(c: nat, k: nat)
    requires c < |AccentCategoriesAsWritten| && k < |AccentCategoriesAsWritten[c]|
    ensures !LatinChar(AccentCategoriesAsWritten[c][k])
  {
  }

  /** Hence the categories as written never mark a syllable of Latin text, however it is
      accented. */
  lemma AsWrittenUnaccented(syllables: seq<string>)
    requires forall j :: 0 <= j < |syllables| ==> LatinText(syllables[j])
    ensures Unaccented(AccentCategoriesAsWritten, syllables)
  {
    forall c, j | 0 <= c < |AccentCategoriesAsWritten| && 0 <= j < |syllables|
      ensures !HasAny(syllables[j], AccentCategoriesAsWritten[c])
    {
      forall k | 0 <= k < |syllables[j]|
        ensures syllables[j][k] !in AccentCategoriesAsWritten[c]
      {
        if syllables[j][k] in AccentCategoriesAsWritten[c] {
          var n :| 0 <= n < |AccentCategoriesAsWritten[c]| && AccentCategoriesAsWritten[c][n] == syllables[j][k];
          AsWrittenNotLatin(c, n);
        }
      }
    }
  }

  /** As written, `tonic` applies the ending rule to every word of two or more syllables,
      accented or not. */
  lemma AsWrittenIgnoresAccents(syllables: seq<string>)
    requires |syllables| >= 2
    requires forall j :: 0 <= j < |syllables| ==> LatinText(syllables[j])
    ensures var last := syllables[|syllables| - 1];
      TonicAsWritten(syllables) == if EndingTest(JavaScript, true, OxytoneEndings, last) then Ok(1) else Ok(2)
  {
    AsWrittenUnaccented(syllables);
    TonicUnaccented(AccentCategoriesAsWritten, syllables);
  }

  /** "café": stressed on the last syllable, by its acute accent. */
  lemma Cafe()
    ensures Tonic(["ca", "fé"]) == Ok(1)
  {
    assert "fé"[1] == 'é';
    RightmostIs(["ca", "fé"], AccentCategories[0], 1);
  }

  /** The strings as written still hold punctuation, such as the apostrophe U+2019 of the
      grave string, and that still marks a syllable: "ca-d’a" is stressed on its last
      syllable, where the ending rule would give the penultimate. */
  lemma ApostropheAsWritten()
    ensures TonicAsWritten(["ca", "d\U{2019}a"]) == Ok(1)
  {
    var w := ["ca", "d\U{2019}a"];
    assert AccentCategoriesAsWritten[1][17] == w[1][1];
    RightmostNone(w, AccentCategoriesAsWritten[0]);
    RightmostIs(w, AccentCategoriesAsWritten[1], 1);
  }

  /** "fé" stripped of its trailing non-word `é` is "f", which has no oxytone ending. */
  lemma FeNotOxytone()
    ensures !EndingTest(JavaScript, true, OxytoneEndings, "fé")
  {
    var last := "fé";
    assert WordChar(JavaScript, last[0]) && !WordChar(JavaScript, last[1]);
    WordEndAt(JavaScript, last, 2, 1);
    assert last[..1] == "f";
    EndsWithNone(JavaScript, true, OxytoneEndings, "f");
  }

  /** As written, the accent is missed and the ending rule gives the penultimate syllable. */
  lemma CafeAsWritten()
    ensures TonicAsWritten(["ca", "fé"]) == Ok(2)
  {
    assert LatinText("ca") && LatinText("fé");
    AsWrittenIgnoresAccents(["ca", "fé"]);
    FeNotOxytone();
  }
}
