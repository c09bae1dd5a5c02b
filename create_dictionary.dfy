/** `filter_dictionary_by_bible_words` of dictionary/create_dictionary2.py: the dictionary
    entries whose lowercased word occurs among the words of the Bible, in dictionary order. */
module CreateDictionary {
  import opened Wrappers
  import opened Strings
  import opened DictionaryEntry

  /** The exception the filter can raise: `.lower()` on a `null` word. */
  datatype Failure = AttributeError

  /** `word_entry.get('word', '').lower()`: a missing word is tested as the empty text, and a
      `null` one has no `lower`. */
  function Key(entry: Entry): (k: Option<string>)
    ensures k.None? <==> entry.word.Null?
    ensures entry.word.Missing? ==> k == Some("")
    ensures entry.word.Present? ==> k == Some(Lower(entry.word.value))
  {
    match GetOr(entry.word, "")
    case None => None
    case Some(w) => Some(Lower(w))
  }

  /** The entry is kept: its key is one of the words. */
  predicate Kept(entry: Entry, bibleWords: set<string>)
  {
    match Key(entry)
    case Some(k) => k in bibleWords
    case None => false
  }

  /** The result of the filter on a dictionary: the partner the loop is proved against. */
  function Filtered(entries: seq<Entry>, bibleWords: set<string>): Result<seq<Entry>, Failure>
  {
    if entries == [] then Ok([])
    else match Filtered(entries[..|entries| - 1], bibleWords)
      case Err(e) => Err(e)
      case Ok(kept) =>
        var entry := entries[|entries| - 1];
        match Key(entry)
        case None => Err(AttributeError)
        case Some(k) => Ok(if k in bibleWords then kept + [entry] else kept)
  }

  /** `a` is `b` with some elements left out, the rest in their order. */
  predicate Subsequence<T(==)>(a: seq<T>, b: seq<T>)
    decreases |b|, 1
  {
    if b == [] then a == []
    else TakesLast(a, b) || Subsequence(a, b[..|b| - 1])
  }

  /** `a` and `b` end in the same element, and the rest of `a` is a subsequence of the rest
      of `b`. */
  predicate TakesLast<T(==)>(a: seq<T>, b: seq<T>)
    requires b != []
    decreases |b|, 0
  {
    a != [] && a[|a| - 1] == b[|b| - 1] && Subsequence(a[..|a| - 1], b[..|b| - 1])
  }

  /** `filter_dictionary_by_bible_words`. */
  method FilterDictionaryByBibleWords(dictionaryData: seq<Entry>, bibleWords: set<string>)
    returns (r: Result<seq<Entry>, Failure>)
    ensures r == Filtered(dictionaryData, bibleWords)
    ensures r.Err? <==> exists k :: 0 <= k < |dictionaryData| && dictionaryData[k].word.Null?
    ensures r.Ok? ==> forall e :: e in r.value <==> e in dictionaryData && Kept(e, bibleWords)
    ensures r.Ok? ==> Subsequence(r.value, dictionaryData) && |r.value| <= |dictionaryData|
  {
    var filteredDictionary := [];
    var k := 0;
    while k < |dictionaryData|
      invariant k <= |dictionaryData|
      invariant Filtered(dictionaryData[..k], bibleWords) == Ok(filteredDictionary)
    {
      var wordEntry := dictionaryData[k];
      assert dictionaryData[..k + 1][..k] == dictionaryData[..k];
      var word := GetOr(wordEntry.word, "");
      if word.None? {
        FilteredFails(dictionaryData, bibleWords, k + 1);
        r := Err(AttributeError);
        break;
      }
      if Lower(word.value) in bibleWords {
        filteredDictionary := filteredDictionary + [wordEntry];
      }
      k := k + 1;
    }
    if k == |dictionaryData| {
      assert dictionaryData[..k] == dictionaryData;
      r := Ok(filteredDictionary);
    }
    FilteredFailsOnNull(dictionaryData, bibleWords);
    if r.Ok? {
      FilteredMembers(dictionaryData, bibleWords);
      FilteredSubsequence(dictionaryData, bibleWords);
      SubsequenceShorter(r.value, dictionaryData);
    }
  }

  // ---------------------------------------------------------------------------------------
  // Facts

  /** Once a prefix fails, the whole dictionary fails. */
  lemma {:induction false} FilteredFails(entries: seq<Entry>, bibleWords: set<string>, k: nat)
    requires k <= |entries| && Filtered(entries[..k], bibleWords).Err?
    ensures Filtered(entries, bibleWords) == Filtered(entries[..k], bibleWords)
    decreases |entries| - k
  {
    if k < |entries| {
      assert entries[..k + 1][..k] == entries[..k];
      FilteredFails(entries, bibleWords, k + 1);
    } else {
      assert entries[..k] == entries;
    }
  }

  /** The filter fails exactly when some entry has a `null` word. */
  lemma {:induction false} FilteredFailsOnNull(entries: seq<Entry>, bibleWords: set<string>)
    ensures Filtered(entries, bibleWords).Err? <==> exists k :: 0 <= k < |entries| && entries[k].word.Null?
  {
    if entries != [] {
      var init := entries[..|entries| - 1];
      FilteredFailsOnNull(init, bibleWords);
      assert forall k :: 0 <= k < |init| ==> init[k] == entries[k];
      if entries[|entries| - 1].word.Null? {
        assert Key(entries[|entries| - 1]).None?;
      }
    }
  }

  /** The kept entries are exactly the entries, unchanged, whose key is one of the words. */
  lemma {:induction false} FilteredMembers(entries: seq<Entry>, bibleWords: set<string>)
    requires Filtered(entries, bibleWords).Ok?
    ensures forall e :: e in Filtered(entries, bibleWords).value <==> e in entries && Kept(e, bibleWords)
  {
    if entries != [] {
      var init := entries[..|entries| - 1];
      assert entries == init + [entries[|entries| - 1]];
      FilteredMembers(init, bibleWords);
    }
  }

  /** The kept entries keep their dictionary order. */
  lemma {:induction false} FilteredSubsequence(entries: seq<Entry>, bibleWords: set<string>)
    requires Filtered(entries, bibleWords).Ok?
    ensures Subsequence(Filtered(entries, bibleWords).value, entries)
  {
    if entries != [] {
      var init := entries[..|entries| - 1];
      FilteredSubsequence(init, bibleWords);
      var kept := Filtered(init, bibleWords).value;
      if Filtered(entries, bibleWords).value != kept {
        assert (kept + [entries[|entries| - 1]])[..|kept|] == kept;
      }
    }
  }

  lemma {:induction false} SubsequenceShorter<T>(a: seq<T>, b: seq<T>)
    requires Subsequence(a, b)
    ensures |a| <= |b|
    decreases |b|
  {
    if b != [] {
      if TakesLast(a, b) {
        SubsequenceShorter(a[..|a| - 1], b[..|b| - 1]);
      } else {
        SubsequenceShorter(a, b[..|b| - 1]);
      }
    }
  }

  /** Filtering two parts of a dictionary one after the other is filtering the whole. */
  lemma {:induction false} FilteredAppend(a: seq<Entry>, b: seq<Entry>, bibleWords: set<string>)
    requires Filtered(a, bibleWords).Ok? && Filtered(b, bibleWords).Ok?
    ensures Filtered(a + b, bibleWords) == Ok(Filtered(a, bibleWords).value + Filtered(b, bibleWords).value)
    decreases |b|
  {
    if b == [] {
      assert a + b == a;
      assert Filtered(a, bibleWords).value + [] == Filtered(a, bibleWords).value;
    } else {
      var init := b[..|b| - 1];
      assert (a + b)[..|a + b| - 1] == a + init;
      assert (a + b)[|a + b| - 1] == b[|b| - 1];
      FilteredAppend(a, init, bibleWords);
      var fa, fi := Filtered(a, bibleWords).value, Filtered(init, bibleWords).value;
      assert (fa + fi) + [b[|b| - 1]] == fa + (fi + [b[|b| - 1]]);
    }
  }
}
