/** The validation harness of dictionary/compare.py: the tonic locator it scores with, the
    scoring of one dictionary entry against a predicted syllabification, and the tally over
    the whole dictionary. The syllabifier it runs as a subprocess is the parameter `predict`:
    a word's predicted syllables, or nothing when the subprocess fails. */
module Compare {
  import opened Wrappers
  import opened TonicText
  import opened DictionaryEntry

  // ---------------------------------------------------------------------------------------
  // get_tonic_syllable_position

  /** `get_tonic_syllable_position`: nothing for an empty list; else the nearest strong, then
      weak, accent from the end; else 1 when the last syllable matches the pattern; else 2
      (the test of the penultimate syllable leads to 2 as well). */
  function GetTonicSyllablePosition(syllables: seq<string>): (r: Option<nat>)
    ensures r.None? <==> |syllables| == 0
    ensures r.Some? ==> 1 <= r.value && (r.value <= |syllables| || r.value == 2)
  {
    if |syllables| == 0 then None
    else match Rightmost(syllables, StrongAccents)
      case Some(i) => Some(|syllables| - i)
      case None =>
        match Rightmost(syllables, WeakAccents)
        case Some(i) => Some(|syllables| - i)
        case None =>
          if LastSyllableSearch(syllables[|syllables| - 1]) then Some(1)
          else if |syllables| > 1 && LastSyllableSearch(syllables[|syllables| - 2]) then Some(2)
          else Some(2)
  }

  /** The nearest strong accent from the end wins over any weak accent. */
  lemma GetTonicStrong(syllables: seq<string>, i: nat)
    requires i < |syllables| && HasAny(syllables[i], StrongAccents)
    requires forall j :: i < j < |syllables| ==> !HasAny(syllables[j], StrongAccents)
    ensures GetTonicSyllablePosition(syllables) == Some(|syllables| - i)
  {
    RightmostIs(syllables, StrongAccents, i);
  }

  /** Without a strong accent, the nearest weak accent from the end decides. */
  lemma GetTonicWeak(syllables: seq<string>, i: nat)
    requires i < |syllables| && HasAny(syllables[i], WeakAccents)
    requires forall j :: 0 <= j < |syllables| ==> !HasAny(syllables[j], StrongAccents)
    requires forall j :: i < j < |syllables| ==> !HasAny(syllables[j], WeakAccents)
    ensures GetTonicSyllablePosition(syllables) == Some(|syllables| - i)
  {
    RightmostNone(syllables, StrongAccents);
    RightmostIs(syllables, WeakAccents, i);
  }

  /** Without accents the result is 1 exactly when the last syllable has an `i`, a `u` or an
      `ens` anywhere, or ends in `r`, `l` or `z`, all up to case; it is 2 otherwise, even for
      a single syllable, where 2 lies outside the word. */
  lemma GetTonicPlain(syllables: seq<string>)
    requires |syllables| > 0 && Plain(syllables)
    ensures GetTonicSyllablePosition(syllables)
      == if LastSyllableTest(syllables[|syllables| - 1]) then Some(1) else Some(2)
  {
    RightmostNone(syllables, StrongAccents);
    RightmostNone(syllables, WeakAccents);
    LastSyllableTestIff(syllables[|syllables| - 1]);
  }

  // ---------------------------------------------------------------------------------------
  // process_word_entry

  /** The diagnostic attached to an entry. `Joined` is `warning_message += ...`. */
  datatype Warning =
    | Malformed(entry: Entry)
    | SyllabificationMismatch(word: string, expectedSyllables: seq<string>, gotSyllables: seq<string>)
    | SyllabificationFailed(word: string)
    | TonicMismatch(word: string, expectedTonic: int, gotTonic: Option<nat>)
    | Joined(first: Warning, second: Warning)

  /** What `process_word_entry` returns. */
  datatype Outcome = Outcome(
    syllabificationCorrect: bool,
    tonicCorrect: bool,
    warning: Option<Warning>,
    isValidEntry: bool,
    entry: Entry)

  /** A present, non-null, non-empty word and syllable list, and a non-null tonic: the
      negation of the malformed-entry test. */
  predicate WellFormed(entry: Entry)
  {
    entry.word.Present? && entry.word.value != ""
    && entry.syllables.Present? && entry.syllables.value != []
    && entry.tonic.Present?
  }

  /** Python truthiness of a prediction: obtained and non-empty. */
  predicate Obtained(predicted: Option<seq<string>>)
  {
    predicted.Some? && predicted.value != []
  }

  /** `process_word_entry`. */
  function ProcessWordEntry(entry: Entry, predict: string -> Option<seq<string>>): (o: Outcome)
    ensures o.entry == entry
    ensures o.isValidEntry <==> WellFormed(entry)
    ensures !o.isValidEntry ==> !o.syllabificationCorrect && !o.tonicCorrect && o.warning == Some(Malformed(entry))
    ensures o.syllabificationCorrect <==> WellFormed(entry) && predict(entry.word.value) == Some(entry.syllables.value)
    ensures o.tonicCorrect <==>
      o.syllabificationCorrect && GetTonicSyllablePosition(entry.syllables.value) == Some(entry.tonic.value)
    ensures o.isValidEntry ==> (o.warning.None? <==> o.syllabificationCorrect && o.tonicCorrect)
    ensures o.warning.Some? ==> !o.warning.value.Joined?
  {
    var word := Get(entry.word);
    var trueSyllables := Get(entry.syllables);
    var trueTonic := Get(entry.tonic);
    if word.None? || word.value == "" || trueSyllables.None? || trueSyllables.value == [] || trueTonic.None? then
      Outcome(false, false, Some(Malformed(entry)), false, entry)
    else
      var w := word.value;
      var predicted := predict(w);
      var syllabificationCorrect := Obtained(predicted) && predicted.value == trueSyllables.value;
      var warning: Option<Warning> :=
        if !Obtained(predicted) then Some(SyllabificationFailed(w))
        else if syllabificationCorrect then None
        else Some(SyllabificationMismatch(w, trueSyllables.value, predicted.value));
      if Obtained(predicted) && syllabificationCorrect then
        var predictedTonic := GetTonicSyllablePosition(predicted.value);
        if predictedTonic.Some? && predictedTonic.value == trueTonic.value then
          Outcome(true, true, warning, true, entry)
        else
          var mismatch := TonicMismatch(w, trueTonic.value, predictedTonic);
          var appended := match warning
            case Some(first) => Joined(first, mismatch)
            case None => mismatch;
          Outcome(true, false, Some(appended), true, entry)
      else
        Outcome(syllabificationCorrect, false, warning, true, entry)
  }

  // ---------------------------------------------------------------------------------------
  // The tally of compare_syllabification

  /** The exception the tally can raise: the subprocess call on a `null` word. */
  datatype Failure = TypeError

  /** One record of the incorrect-word report; `word` is nothing for a `null` word. `predictedSyllables` and `predictedTonic` are
      nothing where the report writes "Failed"; the expected fields are the entry's own,
      which the report prints with its defaults for absent keys. */
  datatype Record = Record(
    word: Option<string>,
    expectedSyllables: Field<seq<string>>,
    predictedSyllables: Option<seq<string>>,
    expectedTonic: Field<int>,
    predictedTonic: Option<nat>,
    error: Warning)

  /** The counters and lists of the tally. */
  datatype Summary = Summary(
    totalValidWords: nat,
    correctSyllabificationCount: nat,
    correctTonicCount: nat,
    allWarnings: seq<Warning>,
    incorrectWords: seq<Record>)

  /** The record for an entry with a warning (lines 141-155). The word defaults to "Unknown",
      which is not syllabified again; any other word is. As written, a `null` word reaches the
      subprocess call, which raises `TypeError`; with `guarded` it is treated like a missing
      one (`word is not None and word != "Unknown"`), which is what the default evidently
      intends; an empty word is still syllabified. */
  function RecordFor(entry: Entry, warning: Warning, predict: string -> Option<seq<string>>, guarded: bool): (r: Result<Record, Failure>)
    ensures r.Err? <==> !guarded && entry.word.Null?
    ensures r.Ok? ==> r.value.error == warning && r.value.word == GetOr(entry.word, "Unknown")
    ensures r.Ok? ==> r.value.expectedSyllables == entry.syllables && r.value.expectedTonic == entry.tonic
    ensures r.Ok? ==> (r.value.predictedSyllables.Some? <==>
      entry.word.Present? && entry.word.value != "Unknown" && Obtained(predict(entry.word.value)))
    ensures r.Ok? && r.value.predictedSyllables.Some? ==>
      r.value.predictedSyllables == predict(entry.word.value)
      && r.value.predictedTonic == GetTonicSyllablePosition(r.value.predictedSyllables.value)
    ensures r.Ok? && r.value.predictedSyllables.None? ==> r.value.predictedTonic.None?
  {
    var word := GetOr(entry.word, "Unknown");
    if word.None? && !guarded then Err(TypeError)
    else
      var predicted := if word.Some? && word.value != "Unknown" then predict(word.value) else None;
      var obtained := Obtained(predicted);
      Ok(Record(word, entry.syllables, if obtained then predicted else None, entry.tonic,
                if obtained then GetTonicSyllablePosition(predicted.value) else None, warning))
  }

  /** The counts and lists a sequence of outcomes leads to: the partner the tally loop is
      proved against. */
  function Tallied(outcomes: seq<Outcome>, predict: string -> Option<seq<string>>, guarded: bool): Result<Summary, Failure>
  {
    if outcomes == [] then Ok(Summary(0, 0, 0, [], []))
    else match Tallied(outcomes[..|outcomes| - 1], predict, guarded)
      case Err(e) => Err(e)
      case Ok(s) => Count(s, outcomes[|outcomes| - 1], predict, guarded)
  }

  /** One turn of the loop (lines 133-160). */
  function Count(s: Summary, o: Outcome, predict: string -> Option<seq<string>>, guarded: bool): Result<Summary, Failure>
  {
    var total := s.totalValidWords + if o.isValidEntry then 1 else 0;
    var syllabification := s.correctSyllabificationCount + if o.syllabificationCorrect then 1 else 0;
    var tonic := s.correctTonicCount + if o.tonicCorrect then 1 else 0;
    if o.warning.None? then Ok(Summary(total, syllabification, tonic, s.allWarnings, s.incorrectWords))
    else
      var warnings := s.allWarnings + [o.warning.value];
      if !o.syllabificationCorrect || !o.tonicCorrect then
        match RecordFor(o.entry, o.warning.value, predict, guarded)
        case Err(e) => Err(e)
        case Ok(record) => Ok(Summary(total, syllabification, tonic, warnings, s.incorrectWords + [record]))
      else Ok(Summary(total, syllabification, tonic, warnings, s.incorrectWords))
  }

  /** `executor.map(process_word_entry, dictionary_data)`, in dictionary order. */
  function Outcomes(entries: seq<Entry>, predict: string -> Option<seq<string>>): (os: seq<Outcome>)
    ensures |os| == |entries|
    ensures forall k :: 0 <= k < |entries| ==> os[k] == ProcessWordEntry(entries[k], predict)
  {
    seq(|entries|, k requires 0 <= k < |entries| => ProcessWordEntry(entries[k], predict))
  }

  /** What the tally relies on about an outcome; `ProcessWordEntry` guarantees it. */
  predicate Consistent(o: Outcome)
  {
    (o.tonicCorrect ==> o.syllabificationCorrect) && (o.syllabificationCorrect ==> o.isValidEntry)
    && (o.warning.Some? <==> !o.syllabificationCorrect || !o.tonicCorrect)
  }

  /** The entries counted as valid, syllabified correctly and stressed correctly. */
  function NumValid(outcomes: seq<Outcome>): nat
  {
    if outcomes == [] then 0
    else NumValid(outcomes[..|outcomes| - 1]) + if outcomes[|outcomes| - 1].isValidEntry then 1 else 0
  }

  function NumSyllabified(outcomes: seq<Outcome>): nat
  {
    if outcomes == [] then 0
    else NumSyllabified(outcomes[..|outcomes| - 1]) + if outcomes[|outcomes| - 1].syllabificationCorrect then 1 else 0
  }

  function NumStressed(outcomes: seq<Outcome>): nat
  {
    if outcomes == [] then 0
    else NumStressed(outcomes[..|outcomes| - 1]) + if outcomes[|outcomes| - 1].tonicCorrect then 1 else 0
  }

  /** The warnings of the outcomes, in order. */
  function WarningsOf(outcomes: seq<Outcome>): seq<Warning>
  {
    if outcomes == [] then []
    else WarningsOf(outcomes[..|outcomes| - 1]) + WarningOf(outcomes[|outcomes| - 1])
  }

  /** The warning of an outcome, as a list of at most one. */
  function WarningOf(o: Outcome): seq<Warning>
  {
    match o.warning
    case Some(w) => [w]
    case None => []
  }

  /** An outcome whose record the tally fails to build. */
  predicate Aborts(o: Outcome)
  {
    o.warning.Some? && o.entry.word.Null?
  }

  /** The tally fails exactly when some warned entry has a `null` word; otherwise its counters
      are the numbers of valid, correctly syllabified and correctly stressed entries, its
      warnings are the entries' warnings in order, and it holds one record per warning. */
  lemma {:induction false} TalliedCounts(outcomes: seq<Outcome>, predict: string -> Option<seq<string>>, guarded: bool)
    requires forall k :: 0 <= k < |outcomes| ==> Consistent(outcomes[k])
    ensures Tallied(outcomes, predict, guarded).Err? <==> !guarded && exists k :: 0 <= k < |outcomes| && Aborts(outcomes[k])
    ensures Tallied(outcomes, predict, guarded).Ok? ==>
      var s := Tallied(outcomes, predict, guarded).value;
      s.totalValidWords == NumValid(outcomes)
      && s.correctSyllabificationCount == NumSyllabified(outcomes)
      && s.correctTonicCount == NumStressed(outcomes)
      && s.allWarnings == WarningsOf(outcomes)
      && |s.incorrectWords| == |s.allWarnings|
      && forall k :: 0 <= k < |s.allWarnings| ==> s.incorrectWords[k].error == s.allWarnings[k]
  {
    if outcomes != [] {
      var init := outcomes[..|outcomes| - 1];
      var o := outcomes[|outcomes| - 1];
      TalliedCounts(init, predict, guarded);
      assert forall k :: 0 <= k < |init| ==> init[k] == outcomes[k];
      if Tallied(init, predict, guarded).Ok? {
        CountTurnFacts(Tallied(init, predict, guarded).value, o, predict, guarded);
      }
      if Aborts(o) {
        assert Aborts(outcomes[|outcomes| - 1]);
      }
    }
  }

  lemma CountTurnFacts(s: Summary, o: Outcome, predict: string -> Option<seq<string>>, guarded: bool)
    requires Consistent(o)
    requires |s.incorrectWords| == |s.allWarnings|
    requires forall k :: 0 <= k < |s.allWarnings| ==> s.incorrectWords[k].error == s.allWarnings[k]
    ensures Count(s, o, predict, guarded).Err? <==> !guarded && Aborts(o)
    ensures Count(s, o, predict, guarded).Ok? ==>
      var t := Count(s, o, predict, guarded).value;
      t.totalValidWords == s.totalValidWords + (if o.isValidEntry then 1 else 0)
      && t.correctSyllabificationCount == s.correctSyllabificationCount + (if o.syllabificationCorrect then 1 else 0)
      && t.correctTonicCount == s.correctTonicCount + (if o.tonicCorrect then 1 else 0)
      && t.allWarnings == s.allWarnings + WarningOf(o)
      && |t.incorrectWords| == |t.allWarnings|
      && forall k :: 0 <= k < |t.allWarnings| ==> t.incorrectWords[k].error == t.allWarnings[k]
  {
  }

  lemma {:induction false} CountsOrdered(outcomes: seq<Outcome>)
    requires forall k :: 0 <= k < |outcomes| ==> Consistent(outcomes[k])
    ensures NumStressed(outcomes) <= NumSyllabified(outcomes) <= NumValid(outcomes) <= |outcomes|
  {
    if outcomes != [] {
      var init := outcomes[..|outcomes| - 1];
      assert forall k :: 0 <= k < |init| ==> init[k] == outcomes[k];
      CountsOrdered(init);
    }
  }

  /** A `null` word makes the tally fail, because such an entry is malformed and so warned. */
  lemma NullWordAborts(entries: seq<Entry>, predict: string -> Option<seq<string>>)
    ensures var os := Outcomes(entries, predict);
      (exists k :: 0 <= k < |os| && Aborts(os[k])) <==> exists k :: 0 <= k < |entries| && entries[k].word.Null?
  {
    var os := Outcomes(entries, predict);
    if exists k :: 0 <= k < |entries| && entries[k].word.Null? {
      var k :| 0 <= k < |entries| && entries[k].word.Null?;
      assert Aborts(os[k]);
    }
  }

  /** One turn of the loop, on the five variables of the tally. */
  method CountTurn(s: Summary, o: Outcome, predict: string -> Option<seq<string>>) returns (r: Result<Summary, Failure>)
    ensures r == Count(s, o, predict, false)
  {
    var totalValidWords := s.totalValidWords;
    var correctSyllabificationCount := s.correctSyllabificationCount;
    var correctTonicCount := s.correctTonicCount;
    var allWarnings := s.allWarnings;
    var incorrectWords := s.incorrectWords;
    if o.isValidEntry {
      totalValidWords := totalValidWords + 1;
    }
    if o.warning.Some? {
      allWarnings := allWarnings + [o.warning.value];
      if !o.syllabificationCorrect || !o.tonicCorrect {
        var record := RecordFor(o.entry, o.warning.value, predict, false);
        if record.Err? {
          return Err(record.error);
        }
        incorrectWords := incorrectWords + [record.value];
      }
    }
    if o.syllabificationCorrect {
      correctSyllabificationCount := correctSyllabificationCount + 1;
    }
    if o.tonicCorrect {
      correctTonicCount := correctTonicCount + 1;
    }
    r := Ok(Summary(totalValidWords, correctSyllabificationCount, correctTonicCount, allWarnings, incorrectWords));
  }

  /** The tally loop of `compare_syllabification` over the outcomes in dictionary order: it
      fails exactly when an entry has a `null` word, and otherwise counts the valid, correctly
      syllabified and correctly stressed entries and keeps one record per warning. */
  method Tally(entries: seq<Entry>, predict: string -> Option<seq<string>>) returns (r: Result<Summary, Failure>)
    ensures r == Tallied(Outcomes(entries, predict), predict, false)
    ensures r.Err? <==> exists k :: 0 <= k < |entries| && entries[k].word.Null?
    ensures r.Ok? ==> r.value.correctTonicCount <= r.value.correctSyllabificationCount <= r.value.totalValidWords <= |entries|
    ensures r.Ok? ==> |r.value.incorrectWords| == |r.value.allWarnings|
    ensures r.Ok? ==> forall k :: 0 <= k < |r.value.allWarnings| ==> r.value.incorrectWords[k].error == r.value.allWarnings[k]
  {
    var outcomes := Outcomes(entries, predict);
    var summary := Summary(0, 0, 0, [], []);
    var k := 0;
    while k < |outcomes|
      invariant k <= |outcomes|
      invariant Tallied(outcomes[..k], predict, false) == Ok(summary)
    {
      TalliedStep(outcomes, predict, false, k, summary);
      var next := CountTurn(summary, outcomes[k], predict);
      if next.Err? {
        TalliedFails(outcomes, predict, false, k + 1);
        r := next;
        break;
      }
      summary := next.value;
      k := k + 1;
    }
    if k == |outcomes| {
      assert outcomes[..k] == outcomes;
      r := Ok(summary);
    }
    TalliedCounts(outcomes, predict, false);
    CountsOrdered(outcomes);
    NullWordAborts(entries, predict);
  }

  /** As written, one entry with a `null` word aborts the whole tally. */
  lemma NullWordExample(predict: string -> Option<seq<string>>)
    ensures Tallied(Outcomes([Entry(Null, Present(["ca", "sa"]), Present(2))], predict), predict, false) == Err(TypeError)
  {
    var os := Outcomes([Entry(Null, Present(["ca", "sa"]), Present(2))], predict);
    assert os[..0] == [];
  }

  /** With the guard the tally never fails, and it keeps the counts, the warnings and one
      record per warning for every dictionary. */
  lemma GuardedTallyCounts(entries: seq<Entry>, predict: string -> Option<seq<string>>)
    ensures var os := Outcomes(entries, predict);
      var r := Tallied(os, predict, true);
      r.Ok?
      && r.value.totalValidWords == NumValid(os)
      && r.value.correctSyllabificationCount == NumSyllabified(os)
      && r.value.correctTonicCount == NumStressed(os)
      && r.value.allWarnings == WarningsOf(os)
      && |r.value.incorrectWords| == |r.value.allWarnings|
  {
    TalliedCounts(Outcomes(entries, predict), predict, true);
  }

  /** The guard changes nothing for outcomes that do not abort. */
  lemma {:induction false} GuardAgrees(outcomes: seq<Outcome>, predict: string -> Option<seq<string>>)
    requires forall k :: 0 <= k < |outcomes| ==> !Aborts(outcomes[k])
    ensures Tallied(outcomes, predict, false) == Tallied(outcomes, predict, true)
  {
    if outcomes != [] {
      var init := outcomes[..|outcomes| - 1];
      assert forall k :: 0 <= k < |init| ==> init[k] == outcomes[k];
      GuardAgrees(init, predict);
      assert !Aborts(outcomes[|outcomes| - 1]);
    }
  }

  lemma TalliedStep(outcomes: seq<Outcome>, predict: string -> Option<seq<string>>, guarded: bool, k: nat, s: Summary)
    requires k < |outcomes| && Tallied(outcomes[..k], predict, guarded) == Ok(s)
    ensures Tallied(outcomes[..k + 1], predict, guarded) == Count(s, outcomes[k], predict, guarded)
  {
    assert outcomes[..k + 1][..k] == outcomes[..k];
  }

  /** Once a prefix fails, every longer prefix fails. */
  lemma {:induction false} TalliedFails(outcomes: seq<Outcome>, predict: string -> Option<seq<string>>, guarded: bool, k: nat)
    requires k <= |outcomes| && Tallied(outcomes[..k], predict, guarded).Err?
    ensures Tallied(outcomes, predict, guarded) == Tallied(outcomes[..k], predict, guarded)
    decreases |outcomes| - k
  {
    if k < |outcomes| {
      assert outcomes[..k + 1][..k] == outcomes[..k];
      TalliedFails(outcomes, predict, guarded, k + 1);
    } else {
      assert outcomes[..k] == outcomes;
    }
  }
}
