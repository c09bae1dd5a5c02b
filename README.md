# Portuguese syllabification and stress, modelled in Dafny

The repository splits Brazilian Portuguese words into syllables and finds the stressed
(tonic) syllable. It also checks both against a reference dictionary. This project models
its core and proves properties of the model:

- **`syllabify_pt_br`** (ai.py) is an index-scan syllabifier:
  - the word is lower-cased;
  - the digraphs ch, lh, nh, gu, qu and the doubled rr, ss become placeholder characters;
  - a scan cuts the word into onset + nucleus + an optional one-letter coda;
  - the syllables are joined with `-` and the placeholders restored.

  Module `PtBrSyllabifier`. It has methods that follow the loops, a specification function
  `SyllabifyPtBrSpec`, and the round trip: deleting the hyphens gives back the lower-cased
  word. Module `PtBrExamples` evaluates the example words listed in ai.py.
- **`syllable`** (syllable.ts) is a rule-based syllabifier:
  - it tokenises the word into characters and digraphs;
  - it places `@` separators by a first-match rule table;
  - cleanup rules delete some of them;
  - a chain of regular-expression rewrites follows;
  - the separators are merged back into the original spelling.

  Modules `SyllableTs` and `Rewrite`.
- **Five tonic locators** return the stressed syllable's position counted from the end (1 is
  the last syllable):
  - `tonic` of tonic.ts (module `TonicTs`);
  - `tonic` of tonic.py (module `TonicPy`);
  - `tonica` of tonic.js (module `TonicJs`);
  - `tonic` of old/tonic.py (module `OldTonicPy`);
  - `get_tonic_syllable_position` of dictionary/compare.py (module `Compare`).

  Their shared ground is in module `TonicText`: the accent scans, and the regular-expression
  tests the locators use, with the character classes of JavaScript and Python.
- **The validation harness** of dictionary/compare.py (module `Compare`):
  - `process_word_entry` scores one dictionary entry;
  - the tally loop of `compare_syllabification` counts the results and collects warnings and
    incorrect-word records.
- **`filter_dictionary_by_bible_words`** of dictionary/create_dictionary2.py (module
  `CreateDictionary`) keeps the dictionary entries whose lower-cased word occurs in the Bible.

The dictionary's JSON entries are modelled in `DictionaryEntry`. A field is modelled as
absent, `null`, or a value.

Modelling notes:

- **Failures.** An exception the source raises becomes an explicit error result:
  - `IndexError` in tonic.py;
  - the thrown `Error` in tonic.ts;
  - `TypeError` in the tally;
  - `AttributeError` in the filter.

  The inputs that cause them are not excluded by preconditions.
- **The subprocess.** compare.py runs a syllabifier as a subprocess. That call is the
  function parameter `predict`. It returns a word's predicted syllables, or nothing when the
  call fails.
- **Thread-pool mapping.** `executor.map` yields its results in input order, so the tally is
  modelled as a sequential loop over the entries in dictionary order.
- **Accent strings in tonic.ts.** The accent strings of tonic.ts:14-17 hold the UTF-8 bytes
  of the accented vowels decoded as Cyrillic text (code page 1251): each vowel became two
  other characters. Both versions are modelled over one rule, `TonicWith`:
  - `TonicAsWritten` uses the strings as written, which contain none of the vowels;
  - `Tonic` uses the acute, grave, circumflex and tilde vowels that the comments beside the
    strings name.

  The difference is listed under Findings, and the rest of the model uses `Tonic`.

## Model

| member | source | states |
|---|---|---|
| PtBrSyllabifier.SyllabifyPtBr | ai.py:14-96 | The result is `SyllabifyPtBrSpec(word)`. The empty word gives the empty text. For a word whose lower-cased form has no hyphen and no placeholder character, deleting the hyphens gives the lower-cased word with each `rr` and `ss` written once. |
| PtBrSyllabifier.NormalizeWord | ai.py:21-26 | The seven replacements are applied in table order, each to the result of the one before. |
| PtBrSyllabifier.ScanSyllables | ai.py:32-86 | The scan loop emits exactly the syllables `Split(w, 0)`. |
| PtBrSyllabifier.ScanSyllable | ai.py:35-86 | One pass of the loop body emits the syllable and the next start index of `ScanStep`. |
| PtBrSyllabifier.ScanStep | ai.py:35-86 | The emitted syllable is never empty, and the index strictly advances. The syllable is the scanned slice of the word, or that slice with its last character written as a coda. |
| PtBrSyllabifier.ScanOnset | ai.py:37-40 | The onset loop stops at the first vowel at or after `i`, or at the end. |
| PtBrSyllabifier.ScanNucleus | ai.py:43-46 | The nucleus loop stops at the first non-vowel that follows. |
| PtBrSyllabifier.Coda | ai.py:54-83 | The coda is zero characters or the next one. A last character is always taken. An rr or ss placeholder is written as its single letter. |
| PtBrSyllabifier.CodaStep | ai.py:54-83 | The branch chain of the coda decision computes `Coda`. |
| PtBrSyllabifier.ClusterTable | ai.py:30 | The letter-by-letter cluster test agrees with membership in the cluster tuple. |
| PtBrSyllabifier.VowelTable | ai.py:28 | The vowel test holds exactly for the characters of the `vowels` string. |
| PtBrSyllabifier.ConsonantTable | ai.py:29 | The consonant test holds exactly for the characters of the `consonants` string: the consonant letters and the five digraph placeholders. |
| PtBrSyllabifier.ConsonantNotDouble | ai.py:29 | The rr and ss placeholders are not consonants, so the two-consonant branch never takes them. |
| PtBrSyllabifier.RestoreTokens | ai.py:89-94 | The seven sequential restorations expand every placeholder once. The digraphs come back as two letters, rr and ss as one. |
| PtBrSyllabifier.SplitNonEmpty | ai.py:85-89 | Every emitted syllable is non-empty, so `filter(None, ...)` drops nothing. |
| PtBrSyllabifier.NormalizeRestore | ai.py:21-94 | Restoring a normalised word gives the word with `rr` and `ss` written once. |
| PtBrSyllabifier.ScanRoundTrip | ai.py:32-94 | Scan, join, restore, then delete the hyphens: the result is the word with its placeholders restored. |
| PtBrSyllabifier.RoundTrip | ai.py:14-96 | Deleting the hyphens from the output gives the lower-cased word with each `rr` and `ss` written once. |
| PtBrSyllabifier.NoVowelOneSyllable | ai.py:37-52 | A non-empty word without vowels is a single syllable. |
| PtBrSyllabifier.CarroLosesLetter | ai.py:78-80 | As written, "carro" comes out spelling "caro" once the hyphens are deleted. |
| PtBrSyllabifier.RoundTripCorrected | ai.py:77-83 | With rr and ss kept as two letters, deleting the hyphens gives back exactly the lower-cased word. |
| PtBrSyllabifier.CarroKeepsLetter | ai.py:107 | The corrected syllabifier keeps both letters of "carro". |
| PtBrExamples.Devagar | ai.py:100 | "devagar" gives "de-va-gar", as the comment beside it expects. |
| PtBrExamples.Sublime | ai.py:102 | "sublime" gives "su-bli-me", as the comment beside it expects. |
| PtBrExamples.Plano | ai.py:104 | "plano" gives "pla-no", as the comment beside it expects. |
| PtBrExamples.Psicologo | ai.py:106 | "psicólogo" gives "psi-có-lo-go", as the comment beside it expects. |
| PtBrExamples.Ninho | ai.py:109 | "ninho" gives "ni-nho", as the comment beside it expects. |
| PtBrExamples.Palha | ai.py:110 | "palha" gives "pa-lha", as the comment beside it expects. |
| PtBrExamples.Queijo | ai.py:111 | "queijo" gives "quei-jo", as the comment beside it expects. |
| PtBrExamples.Apto | ai.py:114 | "apto" gives "ap-to", as the comment beside it expects. |
| PtBrExamples.Atleta | ai.py:115 | "atleta" gives "a-tle-ta", as the comment beside it expects. |
| PtBrExamples.Carro | ai.py:107 | As written, "carro" gives "car-o": the second `r` is lost. |
| PtBrExamples.CarroCorrected | ai.py:107 | With rr and ss kept as two letters, "carro" gives "car-ro", as the comment expects. |
| SyllableTs.DigraphAt | syllable.ts:23-30 | A found digraph is in the table and written at `pos`. Finding none means no table digraph is written there. |
| SyllableTs.TextToChars | syllable.ts:32-49 | The tokenising loop produces `TokensFrom(text, 0)`. |
| SyllableTs.TokensConcat | syllable.ts:32-49 | The tokens spell the text back. |
| SyllableTs.TokensShape | syllable.ts:32-49 | Each token is a digraph of the table or a single character. |
| SyllableTs.MatchPatternIff | syllable.ts:55-73 | `match_pattern` holds exactly when the window lies inside the array and every slot accepts its token. An `@` slot accepts only `@`; any other slot accepts by substring test. |
| SyllableTs.DigraphNotLetter | syllable.ts:19-21 | No digraph is a substring of `LETRAS`, so `syllable` treats digraph tokens as non-letters. |
| SyllableTs.FirstSeparator | syllable.ts:124-134 | A placed separator lies at `i` or `i + 1`, and within the array. |
| SyllableTs.ApplyFirstRule | syllable.ts:125-133 | The rule loop at one index adds the position of the first matching rule whose position is in range, and tries no later rule. |
| SyllableTs.PlaceSeparators | syllable.ts:123-134 | The separator loop collects the positions of every index below `chars.length - 1`. |
| SyllableTs.InsertSeparators | syllable.ts:137-143 | The insertion loop yields the tokens, each followed by `@` where a separator was placed after it, except after the last token. |
| SyllableTs.InsertedWithout | syllable.ts:137-143 | Deleting the `@` tokens from the inserted list gives the tokens back. |
| SyllableTs.InsertedSeparates | syllable.ts:137-143 | For tokens without `@`, no `@` stands first, last, or next to another. |
| SyllableTs.CleanupRule | syllable.ts:86-90 | `splice(index, 1)` deletes exactly the token at `index`, and nothing when `index` is past the end. |
| SyllableTs.AtIndexInPattern | syllable.ts:151-157 | The search finds the first `@` slot of the pattern, or -1. |
| SyllableTs.CleanupPass | syllable.ts:149-162 | The reverse loop of one rule applies the cleanup step at each index from the last window down to 0, each on the list the step before produced. |
| SyllableTs.ApplyCleanup | syllable.ts:146-163 | The cleanup rules run in table order, each as one reverse pass. |
| SyllableTs.CleanupStepDeletesAt | syllable.ts:150-160 | A cleanup step leaves the list alone, or deletes exactly one token, which is an `@`. |
| SyllableTs.CleanupKeeps | syllable.ts:146-163 | Cleanup deletes only separators. The other tokens, their spacing, and the absence of any character all survive it. |
| SyllableTs.SyllabifyLetters | syllable.ts:108-183 | `syllabify_letters` computes `SyllabifyLettersSpec`. |
| SyllableTs.PostProcess | syllable.ts:166-182 | The post-processing marks the digraphs, applies the eight rewrites in order, collapses runs of `@` and drops a leading `@`. |
| SyllableTs.SyllabifyLettersUnchanged | syllable.ts:111-120 | The exceptions "ao", "aos", "caos", and words of at most one token, come back exactly as given. |
| SyllableTs.SyllabifyLettersSpaced | syllable.ts:179-180 | On the main path the output has no two `@` in a row and does not start with `@`. |
| SyllableTs.SyllabifyLettersNoDash | syllable.ts:108-183 | A word without `-` is syllabified without `-`. |
| SyllableTs.Syllable | syllable.ts:185-242 | `syllable` computes `SyllableSpec`. |
| SyllableTs.MergeChars | syllable.ts:203-235 | The cursor loops merge the marks of the syllabified letters into the original tokens, as `Merge` states. |
| SyllableTs.SyllableNoLetters | syllable.ts:189-197 | A word none of whose characters is a letter comes back unchanged. |
| SyllableTs.SyllableSpaced | syllable.ts:195-239 | A word with a letter gives a result with no two `@` in a row. A word without letters is returned as it is. |
| SyllableTs.SyllableKeepsWord | syllable.ts:185-242 | For a word without `@`, deleting every `@` from the result gives the word back: the separators are all that `syllable` adds. |
| Rewrite.RewriteAtEnd | syllable.ts:171 | An end-anchored rewrite changes nothing unless its pattern matches the last window. |
| Rewrite.RewriteAllChars | syllable.ts:167-178 | A global rewrite introduces no character that is neither in its input nor a literal of its template. |
| Rewrite.CollapseRuns | syllable.ts:179 | Collapsing runs keeps emptiness and the first character. |
| Rewrite.CollapseNoPair | syllable.ts:239 | After `/@+/g` no two `@` stand in a row. |
| Rewrite.CollapseRemove | syllable.ts:239 | Collapsing runs of `@` removes only copies of `@`. |
| Rewrite.DropLeading | syllable.ts:180 | `/^@/g` deletes exactly a leading `@`. |
| Rewrite.CollapseDrop | syllable.ts:179-180 | Collapsing and then dropping a leading `@` leaves no run and no leading `@`. |
| TonicText.RightmostBelow | tonic.js:9-13 | It finds the rightmost syllable below `n` that holds one of the characters, and nothing when there is none. |
| TonicText.EndingTestIff | tonic.ts:60-64 | An unanchored search for `(endings)(\W+)?$` succeeds exactly when the syllable, stripped of its trailing non-word characters, ends in one of the endings. Case folding and the `\W` class depend on the language. |
| TonicText.LastSyllableTestIff | old/tonic.py:28-30 | `[iIuU]s?\|[aA]is\|[eE]is\|[oO]is\|[uU]ns\|[eE]ns\|[rRlLzZ]$` under IGNORECASE matches exactly when the syllable contains `i`, `u` or `ens` anywhere, or ends in r, l or z, optionally before a final newline. Only the last alternative is anchored. |
| TonicTs.FirstAccented | tonic.ts:34-46 | A found accent has a category in range and a syllable index in range. |
| TonicTs.TonicWith | tonic.ts:20-71 | Over any list of accent categories: it fails exactly on the empty array. A single syllable gives 1. Any result lies in [1, count]. |
| TonicTs.Tonic | tonic.ts:11-71 | With the intended accent sets: it fails exactly on the empty array. A single syllable gives 1. Any result lies in [1, count]. |
| TonicTs.TonicAsWritten | tonic.ts:13-71 | With the accent strings as written: it fails exactly on the empty array. A single syllable gives 1. Any result lies in [1, count]. |
| TonicTs.FirstAccentedDecides | tonic.ts:34-46 | The search finds a syllable of the first category that marks any syllable, the rightmost it marks. Finding none means the word is unaccented. |
| TonicTs.TonicAccented | tonic.ts:34-46 | An accent of an earlier category anywhere beats a later category nearer the end. Within a category the rightmost marked syllable decides, giving `count - i`. |
| TonicTs.TonicUnaccented | tonic.ts:54-71 | For any categories, when none marks a syllable, the result is 1 exactly when the last syllable, stripped of trailing non-word characters, ends in an oxytone ending up to ASCII case. Otherwise it is 2. |
| TonicTs.IntendedLatin | tonic.ts:11-17 | Every vowel of the intended accent sets is a Latin character. |
| TonicTs.AsWrittenNotLatin | tonic.ts:14-17 | No character of the accent strings as written is a Latin character. |
| TonicTs.AsWrittenUnaccented | tonic.ts:34-46 | With the strings as written, no syllable of Latin text is ever marked, however it is accented. |
| TonicTs.AsWrittenIgnoresAccents | tonic.ts:34-71 | With the strings as written, every word of two or more syllables of Latin text is decided by the ending rule alone. |
| TonicTs.FeNotOxytone | tonic.ts:60-64 | "fé" has no oxytone ending: its trailing `é` is a non-word character, and "f" ends in no alternative. |
| TonicTs.Cafe | tonic.ts:34-46 | With the intended sets, "ca-fé" is stressed on its last syllable. |
| TonicTs.CafeAsWritten | tonic.ts:14-71 | As written, "ca-fé" gives 2: the accent is missed. |
| TonicTs.ApostropheAsWritten | tonic.ts:15 | As written, the apostrophe ’ in the grave string still marks a syllable: "ca-d’a" gives 1. |
| TonicPy.Tonic | tonic.py:5-24 | A single syllable gives 1. An empty list fails with `IndexError`. Any result lies in [1, len]. |
| TonicPy.TonicStrong | tonic.py:8-10 | The rightmost strong-accented syllable decides. |
| TonicPy.TonicWeak | tonic.py:11-13 | Without strong accents, the rightmost weak-accented syllable decides. |
| TonicPy.TonicPlain | tonic.py:15-24 | Let the last syllable hold `k` hyphens. The result fails when `k >= len`. Otherwise it is 1 when the last syllable has an oxytone ending, case-sensitively. Otherwise it is `k + 1` when the syllable `k` places earlier has one. Otherwise it is 2. |
| TonicPy.UnaccentedRule | tonic.py:15-24 | The hyphen rule stated with the direct ending test. |
| TonicJs.Tonica | tonic.js:3-31 | A single syllable gives 1. The result is at least 1. For two or more syllables it is at most the length. |
| TonicJs.TonicaStrong | tonic.js:9-13 | The rightmost strong-accented syllable decides, whatever weak accents follow it. |
| TonicJs.TonicaWeak | tonic.js:16-20 | Without strong accents, the rightmost weak-accented syllable decides. |
| TonicJs.TonicaPlain | tonic.js:22-30 | Without accents the result is 1 exactly when the last syllable, stripped of trailing characters outside `[A-Za-z0-9_]`, ends in an oxytone ending, case-sensitively. Otherwise it is 2. |
| TonicJs.TonicaEmpty | tonic.js:22-30 | An empty array gives 2: the last element reads as "undefined", which has no oxytone ending. |
| OldTonicPy.Tonic | old/tonic.py:3-39 | It returns nothing exactly for the empty list. A result is at least 1, and at most the length or 2. |
| OldTonicPy.TonicStrong | old/tonic.py:15-17 | The nearest strong accent from the end decides. |
| OldTonicPy.TonicWeak | old/tonic.py:19-21 | Without strong accents, the nearest weak accent from the end decides. |
| OldTonicPy.TonicPlain | old/tonic.py:24-39 | Without accents the result is 1 exactly when the last syllable contains `i`, `u` or `ens`, or ends in r/l/z. Otherwise it is 2, for a monosyllable too. |
| OldTonicPy.AgreesWithCompare | old/tonic.py:35-39 | The old locator and `get_tonic_syllable_position` agree on every list. The "lo" branch gives the same 2 as the default. |
| Compare.GetTonicSyllablePosition | dictionary/compare.py:28-55 | It returns nothing exactly for the empty list. A result is at least 1, and at most the length or 2. |
| Compare.GetTonicStrong | dictionary/compare.py:38-40 | The nearest strong accent from the end decides. |
| Compare.GetTonicWeak | dictionary/compare.py:42-44 | Without strong accents, the nearest weak accent decides. |
| Compare.GetTonicPlain | dictionary/compare.py:46-55 | Without accents the result is 1 exactly when the last syllable matches the pattern. Otherwise it is 2, because the penultimate test also leads to 2. |
| Compare.ProcessWordEntry | dictionary/compare.py:57-100 | The entry is returned unchanged. It is valid exactly when the word and the syllables are present and non-empty and the tonic is present and not `null`. An invalid entry has both flags false and a malformed-entry warning. The syllabification is correct exactly when the entry is valid and the prediction equals the expected syllables. The tonic is correct exactly when the syllabification is correct and the locator gives the expected tonic. A valid entry has a warning exactly when a flag is false. |
| Compare.Outcomes | dictionary/compare.py:128-130 | One outcome per entry, in dictionary order. |
| Compare.RecordFor | dictionary/compare.py:141-155 | It fails exactly when the word is `null` and the guard is off. The record holds the warning and the entry's own expected fields. The word defaults to "Unknown". A prediction is kept exactly when the word is present, is not "Unknown", and the subprocess gives a non-empty result. A kept prediction's tonic is computed from it. |
| Compare.CountTurn | dictionary/compare.py:133-160 | One pass of the loop body updates the five counters and lists as `Count` does. |
| Compare.Tally | dictionary/compare.py:132-160 | The loop computes `Tallied`. It fails exactly when some entry has a `null` word. Otherwise correct tonics ≤ correct syllabifications ≤ valid entries ≤ entries. There is one record per warning, carrying that warning. |
| Compare.TalliedCounts | dictionary/compare.py:132-160 | The tally fails exactly when the guard is off and a warned entry has a `null` word. Otherwise the counters equal independent counts of the outcomes, and the warnings are the outcomes' warnings in order. It keeps one record per warning, carrying that warning. |
| Compare.CountsOrdered | dictionary/compare.py:132-160 | Correct tonics ≤ correct syllabifications ≤ valid entries ≤ entries. |
| Compare.NullWordAborts | dictionary/compare.py:72-75 | A warned entry with a `null` word occurs exactly when some entry has a `null` word, because such an entry is malformed. |
| Compare.NullWordExample | dictionary/compare.py:141-144 | As written, a single entry with a `null` word aborts the tally with `TypeError`. |
| Compare.GuardedTallyCounts | dictionary/compare.py:141-144 | With the guard the tally never fails. It keeps the same counts and warnings, and one record per warning. |
| Compare.GuardAgrees | dictionary/compare.py:141-144 | The guard changes nothing when no entry aborts. |
| CreateDictionary.Key | dictionary/create_dictionary2.py:26 | A missing word is tested as the empty text. A present one is lower-cased. A `null` one has no key. |
| CreateDictionary.FilterDictionaryByBibleWords | dictionary/create_dictionary2.py:21-30 | The loop computes `Filtered`. It fails exactly when some entry has a `null` word. Otherwise it keeps exactly the entries whose key is a Bible word, as a subsequence of the dictionary, so the result is no longer than the dictionary. |
| CreateDictionary.FilteredFailsOnNull | dictionary/create_dictionary2.py:26 | The filter fails exactly when some entry has a `null` word. |
| CreateDictionary.FilteredMembers | dictionary/create_dictionary2.py:25-28 | The kept entries are exactly the entries, unchanged, whose key is a Bible word. |
| CreateDictionary.FilteredSubsequence | dictionary/create_dictionary2.py:22-30 | The kept entries keep their dictionary order. |
| CreateDictionary.FilteredAppend | dictionary/create_dictionary2.py:25-28 | Filtering two parts one after the other is filtering the whole. |

## Findings

| source | as written | input that shows it | evidently intended | confidence | as-written member | corrected member |
|---|---|---|---|---|---|---|
| ai.py:21-26 | "rr" and "ss" become one placeholder. The scan takes that placeholder as the coda and writes one letter, so the second letter is never written. | "carro" gives "car-o" | "car-ro", as the expected outputs at ai.py:107-108 say | not executed | PtBrExamples.Carro | PtBrExamples.CarroCorrected |
| tonic.ts:14-17 | The accent strings hold the accented vowels' UTF-8 bytes decoded as Cyrillic text, so they contain none of the vowels. Every word of two or more syllables written in Latin text then falls through to the ending rule. The strings still hold punctuation, such as ’ “ ” » © ® ™ and the no-break and soft hyphen, and a syllable holding one of these is still marked. | `tonic(["ca", "fé"])` gives 2 | 1: the acute-accented last syllable is stressed, as the comments at tonic.ts:11-17 and 32-46 describe | not executed | TonicTs.CafeAsWritten | TonicTs.Cafe |
| dictionary/compare.py:141-144 | Only the default "Unknown" is kept from reaching the subprocess, so a `null` word does reach it and raises an uncaught `TypeError`. | an entry `{"word": null, "syllables": ["ca", "sa"], "tonic": 2}` | a `null` word reported like a missing one, without aborting the run | not executed | Compare.NullWordExample | Compare.GuardedTallyCounts |

## Left out

- I/O: the dictionary and Bible files are not read, and no report, printout, progress bar,
  timing or accuracy percentage is modelled. The accuracies are floating-point.
- The subprocess run by `run_syllabification` (dictionary/compare.py:10-26) is the `predict`
  parameter.
- Thread-pool concurrency is modelled as the sequential loop in input order that
  `executor.map` returns.
- `extract_words_from_bible` (dictionary/create_dictionary2.py:5-19) is left out. It is a
  nested JSON walk, and its character class appears mis-encoded. The Bible words are the
  `bibleWords` parameter.
- Not part of this model:
  - scraper.py, dictionary/parser.py and dictionary/scraper.py;
  - syllable.py, syllable.js and old/syllable.py;
  - index.ts, check_dictionary.py and the compare/ scripts.
- Non-string and non-list arguments are not modelled:
  - `isinstance` at ai.py:14 and old/tonic.py:8;
  - JSON fields of unexpected types, including a tonic that is not a number.
- Strings.Lower models lower-casing only on ASCII, Latin-1 and the Portuguese tilde capitals
  outside Latin-1. It is not Unicode's full case mapping.
- TonicText.WordChar approximates Python's `\w` by ASCII letters, digits and `_`, the Latin-1
  letters and numerals, and Latin Extended-A/B and Additional. It does not use the full
  Unicode classes. JavaScript's `\w` is modelled exactly as ASCII.
- SyllableTs.TextToChars steps by Unicode scalar values, where `charAt` steps by UTF-16 code
  units. The two differ only outside the Basic Multilingual Plane.
- PtBrSyllabifier.RoundTrip is stated for words whose lower-cased form has no hyphen and no
  placeholder character U+0001–U+0007. The placeholders would collide with the source's own
  tokens.
- PtBrExamples: six of the sixteen words at ai.py:99-116 have no lemma: fluidez,
  perspectiva, coordenar, pêssego, guitarra and saúde. For none of them does the code give
  the output its comment expects, so there is no expected output to confirm:
  - fluidez, coordenar and saúde: the comments split adjacent vowels, and the nucleus loop at
    ai.py:43-46 never does;
  - perspectiva: the comment cuts pers-pec, but the code takes the `s` into the next
    syllable's onset;
  - pêssego and guitarra: the comments keep both letters of ss and rr, which the finding about
    ai.py:21-26 covers.

  What the code gives for these words is not stated as a lemma.
- DictionaryEntry.Entry models only the word, syllables and tonic fields. Other fields of an
  entry, such as the description that dictionary/parser.py writes, are not modelled. No
  modelled operation reads them, and the filter returns the entries it keeps unchanged, those
  fields included.
- Compare.RecordFor keeps absent fields absent. The report's defaults (`[]` and "Unknown" for
  missing expected fields, "Failed" for a missing prediction) are represented by absence and
  `None`, not as text.
