/** The index-scan syllabifier `syllabify_pt_br` of ai.py: the word is lower-cased, its
    digraphs and doubled consonants are collapsed into placeholder tokens, a single scan cuts
    it into onset + nucleus + optional one-letter coda, and the syllables are joined with `-`
    and the tokens restored. */
module PtBrSyllabifier {
  import opened Strings

  // ---------------------------------------------------------------------------------------
  // Constants of the source (ai.py:21-30)

  /** The placeholders, in the order in which they are substituted (ai.py:21-24). */
  const CH: char := '\U{1}'
  const LH: char := '\U{2}'
  const NH: char := '\U{3}'
  const GU: char := '\U{4}'
  const QU: char := '\U{5}'
  const RR: char := '\U{6}'
  const SS: char := '\U{7}'

  /** The replacement table: letter pair and the token that stands for it. */
  const Replacements: seq<(string, char)> :=
    [("ch", CH), ("lh", LH), ("nh", NH), ("gu", GU), ("qu", QU), ("rr", RR), ("ss", SS)]

  const Vowels: string := "aáàâãeéêiíîoóôõuúû"

  /** The consonants; the rr and ss tokens are deliberately not among them (ai.py:29). */
  const Consonants: string := "bcdfghjklmnpqrstvwxyz" + [CH, LH, NH, GU, QU]

  /** Consonant pairs that stay together as an onset (ai.py:30). */
  const Clusters: seq<string> :=
    ["bl", "br", "cl", "cr", "dr", "fl", "fr", "gl", "gr", "pl", "pr", "tl", "tr", "vr"]

  /** Membership in `Clusters`, spelled out letter by letter. */
  predicate IsCluster(a: char, b: char)
  {
    || ((a == 'b' || a == 'c' || a == 'f' || a == 'g' || a == 'p') && (b == 'l' || b == 'r'))
    || (a == 'd' && b == 'r')
    || (a == 't' && (b == 'l' || b == 'r'))
    || (a == 'v' && b == 'r')
  }

  lemma ClusterTable(a: char, b: char)
    ensures IsCluster(a, b) <==> [a, b] in Clusters
  {
    if [a, b] in Clusters {
      var k :| 0 <= k < |Clusters| && Clusters[k] == [a, b];
      assert a == Clusters[k][0] && b == Clusters[k][1];
    }
  }

  predicate IsToken(c: char)
  {
    CH <= c <= SS
  }

  /** Index in `Replacements` of a token. */
  function TokenIndex(c: char): (k: nat)
    requires IsToken(c)
    ensures k < 7
  {
    c as int - 1
  }

  /** The text a token turns back into at the end (ai.py:90-94): the digraphs come back as
      their two letters, the rr and ss tokens as a single letter. */
  function RestoreText(k: nat): string
    requires k < 7
  {
    match k
    case 0 => "ch"
    case 1 => "lh"
    case 2 => "nh"
    case 3 => "gu"
    case 4 => "qu"
    case 5 => "r"
    case 6 => "s"
  }

  // ---------------------------------------------------------------------------------------
  // Normalisation (ai.py:17-26)

  /** The word after the first `k` replacements, each applied to the result of the previous. */
  function NormalizeUpTo(w: string, k: nat): string
    requires k <= 7
  {
    if k == 0 then w
    else Replace(NormalizeUpTo(w, k - 1), Replacements[k - 1].0, [Replacements[k - 1].1])
  }

  function Normalize(w: string): string
  {
    NormalizeUpTo(w, 7)
  }

  // ---------------------------------------------------------------------------------------
  // The scan (ai.py:32-86)

  /** End of the onset that starts at `j`: the first vowel at or after `j`, or the end. */
  function OnsetEnd(w: string, j: nat): (r: nat)
    requires j <= |w|
    ensures j <= r <= |w|
    decreases |w| - j
  {
    if j == |w| || IsVowel(w[j]) then j else OnsetEnd(w, j + 1)
  }

  /** End of the nucleus that starts at `j`: the first non-vowel at or after `j`, or the end. */
  function NucleusEnd(w: string, j: nat): (r: nat)
    requires j <= |w|
    ensures j <= r <= |w|
    decreases |w| - j
  {
    if j == |w| || !IsVowel(w[j]) then j else NucleusEnd(w, j + 1)
  }

  /** `OnsetEnd` is the only index where the onset can stop. */
  lemma {:induction false} OnsetEndIs(w: string, j: nat, e: nat)
    requires j <= e <= |w|
    requires forall k :: j <= k < e ==> !IsVowel(w[k])
    requires e < |w| ==> IsVowel(w[e])
    ensures e == OnsetEnd(w, j)
    decreases e - j
  {
    if j < e {
      OnsetEndIs(w, j + 1, e);
    }
  }

  /** `NucleusEnd` is the only index where the nucleus can stop. */
  lemma {:induction false} NucleusEndIs(w: string, j: nat, e: nat)
    requires j <= e <= |w|
    requires forall k :: j <= k < e ==> IsVowel(w[k])
    requires e < |w| ==> !IsVowel(w[e])
    ensures e == NucleusEnd(w, j)
    decreases e - j
  {
    if j < e {
      NucleusEndIs(w, j + 1, e);
    }
  }

  /** One iteration of the scan: the syllable it emits and the index where the next begins. */
  datatype Step = Step(syllable: string, next: nat)

  /** Text of the token-restored word, used by the contracts below to say that syllables are
      contiguous pieces of the word. */
  function RestoreChar(c: char): string
  {
    if IsToken(c) then RestoreText(TokenIndex(c)) else [c]
  }

  function Restore(s: string): string
  {
    if s == [] then [] else RestoreChar(s[0]) + Restore(s[1..])
  }

  /** Membership in `Vowels`, spelled out character by character. */
  predicate IsVowel(c: char)
  {
    || c == 'a' || c == 'á' || c == 'à' || c == 'â' || c == 'ã'
    || c == 'e' || c == 'é' || c == 'ê'
    || c == 'i' || c == 'í' || c == 'î'
    || c == 'o' || c == 'ó' || c == 'ô' || c == 'õ'
    || c == 'u' || c == 'ú' || c == 'û'
  }

  /** Membership in `Consonants`: a lower-case ASCII letter other than a vowel, or one of the
      five digraph tokens. */
  predicate IsConsonant(c: char)
  {
    ('b' <= c <= 'z' && c != 'e' && c != 'i' && c != 'o' && c != 'u') || CH <= c <= QU
  }

  lemma VowelTable(c: char)
    ensures IsVowel(c) <==> c in Vowels
  {
  }

  lemma ConsonantTable(c: char)
    ensures IsConsonant(c) <==> c in Consonants
  {
  }

  /** How a coda character is written in the syllable: an rr / ss token as its single letter,
      any other character as itself (ai.py:74, 79, 82). */
  function Written(c: char): string
  {
    if c == RR then "r" else if c == SS then "s" else [c]
  }

  /** Whether the character after a nucleus is taken as its coda when another character
      follows it (ai.py:63-83): a consonant before a vowel is not, two consonants split unless
      they form a cluster, and an rr / ss token always is. */
  predicate TakesCoda(next1: char, next2: char)
  {
    if IsConsonant(next1) && IsVowel(next2) then false
    else if IsConsonant(next1) && IsConsonant(next2) then !IsCluster(next1, next2)
    else next1 == RR || next1 == SS
  }

  /** The coda decision after a nucleus ending at `n` (ai.py:54-83): the text the syllable
      gains and the index where the next one begins. A last character is always taken. */
  function Coda(w: string, n: nat): (r: (string, nat))
    requires n < |w|
    ensures r.1 == n || r.1 == n + 1
    ensures r.1 == n ==> r.0 == ""
    ensures r.1 == n + 1 ==> r.0 == [w[n]] || r.0 == Written(w[n])
  {
    if n + 1 >= |w| then ([w[n]], n + 1)
    else if TakesCoda(w[n], w[n + 1]) then (Written(w[n]), n + 1)
    else ("", n)
  }

  /** The rr and ss tokens are not consonants (ai.py:29). */
  lemma ConsonantNotDouble(c: char)
    requires c in Consonants
    ensures c != RR && c != SS
  {
    ConsonantTable(c);
  }

  /** The body of the scan loop for a syllable starting at `i`: onset, nucleus, then the coda
      decision. The emitted syllable is never empty, the index strictly advances, and the
      syllable is the scanned slice of the word, or the slice without its last character
      followed by that character as written for a coda. */
  function ScanStep(w: string, i: nat): (st: Step)
    requires i < |w|
    ensures i < st.next <= |w|
    ensures |st.syllable| > 0
    ensures st.syllable == w[i..st.next] || st.syllable == w[i..st.next - 1] + Written(w[st.next - 1])
  {
    var n := NucleusEnd(w, OnsetEnd(w, i));
    ScanAdvances(w, i);
    if n >= |w| then Step(w[i..n], |w|)
    else
      var c := Coda(w, n);
      SliceExtend(w, i, n);
      assert w[i..n] + "" == w[i..n];
      Step(w[i..n] + c.0, c.1)
  }

  /** Onset and nucleus together cover at least one character. */
  lemma ScanAdvances(w: string, i: nat)
    requires i < |w|
    ensures NucleusEnd(w, OnsetEnd(w, i)) > i
  {
    if IsVowel(w[i]) {
      assert OnsetEnd(w, i) == i;
      assert NucleusEnd(w, i) == NucleusEnd(w, i + 1);
    } else {
      assert OnsetEnd(w, i) == OnsetEnd(w, i + 1);
    }
  }

  /** With the tokens restored, a syllable is the slice of the word it was scanned from. */
  lemma ScanStepRestore(w: string, i: nat)
    requires i < |w|
    ensures Restore(ScanStep(w, i).syllable) == Restore(w[i..ScanStep(w, i).next])
  {
    var st := ScanStep(w, i);
    PieceRestore(w, i, st.next, st.syllable);
  }

  lemma PieceRestore(w: string, i: nat, m: nat, s: string)
    requires i < m <= |w|
    requires s == w[i..m] || s == w[i..m - 1] + Written(w[m - 1])
    ensures Restore(s) == Restore(w[i..m])
  {
    if s != w[i..m] {
      var a, c := w[i..m - 1], w[m - 1];
      assert a + [c] == w[i..m] by {
        SliceExtend(w, i, m - 1);
      }
      WrittenRestore(a, c);
    }
  }

  /** A coda character restores to the same text however it is written. */
  lemma WrittenRestore(a: string, c: char)
    ensures Restore(a + Written(c)) == Restore(a + [c])
  {
    RestoreSplit(a, Written(c));
    RestoreSplit(a, [c]);
    assert [c][1..] == [];
    if c == RR || c == SS {
      assert Written(c)[1..] == [];
    }
  }

  /** The syllables the scan emits from index `i` on. */
  function Split(w: string, i: nat): seq<string>
    requires i <= |w|
    decreases |w| - i
  {
    if i >= |w| then [] else var st := ScanStep(w, i); [st.syllable] + Split(w, st.next)
  }

  // ---------------------------------------------------------------------------------------
  // Assembly (ai.py:88-96)

  /** `filter(None, syllables)`: the empty strings dropped. */
  function FilterNonEmpty(xs: seq<string>): seq<string>
  {
    if xs == [] then [] else (if xs[0] == "" then [] else [xs[0]]) + FilterNonEmpty(xs[1..])
  }

  /** The joined text after the first `k` token restorations, in table order. */
  function RestoreUpTo(s: string, k: nat): string
    requires k <= 7
  {
    if k == 0 then s else Replace(RestoreUpTo(s, k - 1), [Replacements[k - 1].1], RestoreText(k - 1))
  }

  /** What `syllabify_pt_br` returns for a string argument. */
  function SyllabifyPtBrSpec(word: string): string
  {
    if word == [] then []
    else RestoreUpTo(Join("-", FilterNonEmpty(Split(Normalize(Lower(word)), 0))), 7)
  }

  /** `rr` and `ss` written as one letter each: what the hyphen-free output spells. */
  function Collapse(w: string): string
  {
    Replace(Replace(w, "rr", "r"), "ss", "s")
  }

  /** The input the round trip is stated for: no hyphen and no placeholder character. */
  predicate PlainWord(w: string)
  {
    forall k :: 0 <= k < |w| ==> w[k] != '-' && !IsToken(w[k])
  }

  /** `syllabify_pt_br`, step by step as the source performs it. */
  method SyllabifyPtBr(word: string) returns (result: string)
    ensures result == SyllabifyPtBrSpec(word)
    ensures word == [] ==> result == []
    ensures PlainWord(Lower(word)) ==> Remove(result, '-') == Collapse(Lower(word))
  {
    if word == [] {
      return [];
    }
    var w := NormalizeWord(Lower(word));
    var syllables := ScanSyllables(w);
    result := RestoreTokens(Join("-", FilterNonEmpty(syllables)));
    if PlainWord(Lower(word)) {
      RoundTrip(word);
    }
  }

  /** The replacement loop of ai.py:25-26. */
  method NormalizeWord(lw: string) returns (w: string)
    ensures w == Normalize(lw)
  {
    w := lw;
    var k := 0;
    while k < |Replacements|
      invariant 0 <= k <= 7
      invariant w == NormalizeUpTo(lw, k)
    {
      w := Replace(w, Replacements[k].0, [Replacements[k].1]);
      k := k + 1;
    }
  }

  /** The scan loop of ai.py:32-86. */
  method ScanSyllables(w: string) returns (syllables: seq<string>)
    ensures syllables == Split(w, 0)
  {
    syllables := [];
    var i := 0;
    while i < |w|
      invariant 0 <= i <= |w|
      invariant syllables + Split(w, i) == Split(w, 0)
      decreases |w| - i
    {
      var current, next := ScanSyllable(w, i);
      SplitCons(w, i);
      syllables := syllables + [current];
      i := next;
    }
  }

  /** One pass of the scan loop's body (ai.py:35-86): the syllable that starts at `i` and the
      index where the next one starts; when the nucleus runs to the end of the word the source
      breaks out of the loop, here the next index is the end. */
  method ScanSyllable(w: string, i: nat) returns (current: string, next: nat)
    requires i < |w|
    ensures Step(current, next) == ScanStep(w, i)
  {
    var onsetEnd := ScanOnset(w, i);
    current := w[i..onsetEnd];
    var nucleusEnd := ScanNucleus(w, onsetEnd);
    current := current + w[onsetEnd..nucleusEnd];
    SliceJoin(w, i, onsetEnd, nucleusEnd);
    if nucleusEnd >= |w| {
      return current, nucleusEnd;
    }
    var coda;
    coda, next := CodaStep(w, nucleusEnd);
    current := current + coda;
  }

  /** The onset loop of ai.py:37-40: consonants up to the first vowel. */
  method ScanOnset(w: string, i: nat) returns (e: nat)
    requires i <= |w|
    ensures e == OnsetEnd(w, i)
  {
    e := i;
    while e < |w| && !IsVowel(w[e])
      invariant i <= e <= |w|
      invariant forall k :: i <= k < e ==> !IsVowel(w[k])
    {
      e := e + 1;
    }
    OnsetEndIs(w, i, e);
  }

  /** The nucleus loop of ai.py:43-46: the vowels that follow. */
  method ScanNucleus(w: string, i: nat) returns (e: nat)
    requires i <= |w|
    ensures e == NucleusEnd(w, i)
  {
    e := i;
    while e < |w| && IsVowel(w[e])
      invariant i <= e <= |w|
      invariant forall k :: i <= k < e ==> IsVowel(w[k])
    {
      e := e + 1;
    }
    NucleusEndIs(w, i, e);
  }

  /** The coda decision of ai.py:54-83 on the characters after a nucleus ending at `n`. */
  method CodaStep(w: string, n: nat) returns (coda: string, next: nat)
    requires n < |w|
    ensures (coda, next) == Coda(w, n)
  {
    var next1 := w[n];
    coda := "";
    next := n;
    if n + 1 >= |w| {
      coda := [next1];
      next := n + 1;
    } else {
      var next2 := w[n + 1];
      if IsConsonant(next1) && IsVowel(next2) {
      } else if IsConsonant(next1) && IsConsonant(next2) {
        ClusterTable(next1, next2);
        if [next1, next2] !in Clusters {
          ConsonantNotDouble(next1);
          coda := [next1];
          next := n + 1;
        }
      } else if next1 == RR {
        coda := "r";
        next := n + 1;
      } else if next1 == SS {
        coda := "s";
        next := n + 1;
      }
    }
  }

  /** The restoration loop of ai.py:90-94. */
  method RestoreTokens(joined: string) returns (result: string)
    ensures result == RestoreUpTo(joined, 7)
    ensures result == Restore(joined)
  {
    result := joined;
    var k := 0;
    while k < |Replacements|
      invariant 0 <= k <= 7
      invariant result == RestoreUpTo(joined, k)
    {
      result := Replace(result, [Replacements[k].1], RestoreText(k));
      k := k + 1;
    }
    RestoreAllTokens(joined);
  }

  // ---------------------------------------------------------------------------------------
  // Restoration facts

  lemma {:induction false} RestoreSplit(s: string, t: string)
    ensures Restore(s + t) == Restore(s) + Restore(t)
  {
    if s == [] {
      assert s + t == t;
    } else {
      assert (s + t)[1..] == s[1..] + t;
      RestoreSplit(s[1..], t);
    }
  }

  lemma {:induction false} RestorePlain(s: string)
    requires forall k :: 0 <= k < |s| ==> !IsToken(s[k])
    ensures Restore(s) == s
  {
    if s != [] {
      RestorePlain(s[1..]);
    }
  }

  /** Restoring a text and then deleting its hyphens, or the other way round, agree. */
  lemma {:induction false} RestoreRemoveHyphen(s: string)
    ensures Remove(Restore(s), '-') == Restore(Remove(s, '-'))
  {
    if s != [] {
      RestoreRemoveHyphen(s[1..]);
      RemoveSplit(RestoreChar(s[0]), Restore(s[1..]), '-');
      if s[0] == '-' {
        assert RestoreChar(s[0]) == "-";
        assert Remove("-", '-') == [];
        assert Remove(s, '-') == Remove(s[1..], '-');
      } else {
        var k := if IsToken(s[0]) then TokenIndex(s[0]) else 0;
        assert IsToken(s[0]) ==> '-' !in RestoreText(k) by {
          assert k == 0 || k == 1 || k == 2 || k == 3 || k == 4 || k == 5 || k == 6;
        }
        RemoveAbsent(RestoreChar(s[0]), '-');
        assert Remove(s, '-') == [s[0]] + Remove(s[1..], '-');
        assert Restore([s[0]] + Remove(s[1..], '-')) == RestoreChar(s[0]) + Restore(Remove(s[1..], '-'));
      }
    }
  }

  /** Text with the tokens below index `k` expanded; `Restore` is the case `k == 7`. */
  function RestoreBelow(s: string, k: nat): string
    requires k <= 7
  {
    if s == [] then []
    else (if IsToken(s[0]) && TokenIndex(s[0]) < k then RestoreText(TokenIndex(s[0])) else [s[0]])
         + RestoreBelow(s[1..], k)
  }

  lemma {:induction false} RestoreBelowAll(s: string)
    ensures RestoreBelow(s, 7) == Restore(s)
  {
    if s != [] {
      RestoreBelowAll(s[1..]);
    }
  }

  /** None of the restoration texts contains a token. */
  lemma RestoreTextPlain(k: nat, c: char)
    requires k < 7
    requires c in RestoreText(k)
    ensures !IsToken(c)
  {
    assert k == 0 || k == 1 || k == 2 || k == 3 || k == 4 || k == 5 || k == 6;
  }

  lemma {:induction false} ReplaceAbsentFirst(s: string, p: string, q: string)
    requires |p| > 0
    requires p[0] !in s
    ensures Replace(s, p, q) == s
  {
    ReplaceSkipPrefix(s, [], p, q);
    assert s + [] == s;
    assert Replace([], p, q) == [];
  }

  /** One restoration pass over a partly restored text expands exactly one more token. */
  lemma {:induction false} RestoreStep(s: string, k: nat)
    requires k < 7
    ensures Replace(RestoreBelow(s, k), [Replacements[k].1], RestoreText(k)) == RestoreBelow(s, k + 1)
  {
    var t := Replacements[k].1;
    assert t == (k + 1) as char by {
      assert k == 0 || k == 1 || k == 2 || k == 3 || k == 4 || k == 5 || k == 6;
    }
    if s != [] {
      var head := if IsToken(s[0]) && TokenIndex(s[0]) < k then RestoreText(TokenIndex(s[0])) else [s[0]];
      var head' := if IsToken(s[0]) && TokenIndex(s[0]) < k + 1 then RestoreText(TokenIndex(s[0])) else [s[0]];
      RestoreStep(s[1..], k);
      ReplaceSplitOne(head, RestoreBelow(s[1..], k), t, RestoreText(k));
      if s[0] == t {
        assert head == [t] && head' == RestoreText(k);
        assert Replace([t], [t], RestoreText(k)) == RestoreText(k) + Replace([], [t], RestoreText(k));
      } else {
        assert head == head';
        if t in head {
          RestoreTextPlain(TokenIndex(s[0]), t);
        }
        ReplaceAbsentFirst(head, [t], RestoreText(k));
      }
    }
  }

  /** A one-character pattern is replaced piece by piece. */
  lemma {:induction false} ReplaceSplitOne(x: string, y: string, t: char, q: string)
    ensures Replace(x + y, [t], q) == Replace(x, [t], q) + Replace(y, [t], q)
  {
    if x == [] {
      assert x + y == y;
    } else {
      assert (x + y)[0] == x[0] && (x + y)[1..] == x[1..] + y;
      assert (x + y)[..1] == [x[0]] && x[..1] == [x[0]];
      ReplaceSplitOne(x[1..], y, t, q);
    }
  }

  lemma {:induction false} RestoreUpToBelow(s: string, k: nat)
    requires k <= 7
    ensures RestoreUpTo(s, k) == RestoreBelow(s, k)
  {
    if k == 0 {
      RestoreBelowNone(s);
    } else {
      RestoreUpToBelow(s, k - 1);
      RestoreStep(s, k - 1);
    }
  }

  lemma {:induction false} RestoreBelowNone(s: string)
    ensures RestoreBelow(s, 0) == s
  {
    if s != [] {
      RestoreBelowNone(s[1..]);
    }
  }

  /** The seven sequential restorations of ai.py:90-94 expand every token once. */
  lemma RestoreAllTokens(s: string)
    ensures RestoreUpTo(s, 7) == Restore(s)
  {
    RestoreUpToBelow(s, 7);
    RestoreBelowAll(s);
  }

  // ---------------------------------------------------------------------------------------
  // Normalisation facts

  /** Characters after `k` replacements are input characters or tokens of the first `k` pairs. */
  lemma {:induction false} NormalizeChars(w: string, k: nat, c: char)
    requires k <= 7
    requires c in NormalizeUpTo(w, k)
    ensures c in w || (IsToken(c) && TokenIndex(c) < k)
  {
    if k > 0 {
      var t := Replacements[k - 1].1;
      assert t == k as char by {
        assert k == 1 || k == 2 || k == 3 || k == 4 || k == 5 || k == 6 || k == 7;
      }
      ReplaceChars(NormalizeUpTo(w, k - 1), Replacements[k - 1].0, [t], c);
      if c != t {
        NormalizeChars(w, k - 1, c);
      }
    }
  }

  /** Replacing a digraph by its token does not change the restored text. */
  lemma RestoreDigraph(s: string, k: nat)
    requires k < 5
    ensures Restore(Replace(s, Replacements[k].0, [Replacements[k].1])) == Restore(s)
  {
    DigraphPair(k);
    RestorePair(s, Replacements[k].0, Replacements[k].1);
  }

  /** The first five pairs are two non-token letters whose token restores to them. */
  lemma DigraphPair(k: nat)
    requires k < 5
    ensures var (p, t) := Replacements[k];
      |p| == 2 && !IsToken(p[0]) && !IsToken(p[1]) && IsToken(t) && RestoreChar(t) == p
  {
    assert k == 0 || k == 1 || k == 2 || k == 3 || k == 4;
  }

  /** Replacing a pair of non-token letters by a token that restores to them does not
      change the restored text. */
  lemma {:induction false} RestorePair(s: string, p: string, t: char)
    requires |p| == 2 && !IsToken(p[0]) && !IsToken(p[1]) && IsToken(t) && RestoreChar(t) == p
    ensures Restore(Replace(s, p, [t])) == Restore(s)
    decreases |s|
  {
    if |s| < 2 {
    } else if s[..2] == p {
      RestorePair(s[2..], p, t);
      RestoreSplit([t], Replace(s[2..], p, [t]));
      assert s == [s[0]] + [s[1]] + s[2..];
      RestoreSplit([s[0]] + [s[1]], s[2..]);
      RestoreSplit([s[0]], [s[1]]);
    } else {
      RestorePair(s[1..], p, t);
      RestoreSplit([s[0]], Replace(s[1..], p, [t]));
    }
  }

  /** Replacing a doubled letter `l` by its token and then restoring writes `l` once:
      the restored text is the restored input with `ll` replaced by `l`. */
  lemma {:induction false} RestoreDouble(s: string, l: char, t: char)
    requires !IsToken(l) && IsToken(t) && RestoreChar(t) == [l]
    requires forall j :: 0 <= j < |s| ==> s[j] != t && (s[j] == l || l !in RestoreChar(s[j]))
    ensures Restore(Replace(s, [l, l], [t])) == Replace(Restore(s), [l, l], [l])
    decreases |s|
  {
    var p := [l, l];
    if |s| == 0 {
    } else if |s| == 1 {
      assert Restore(s) == RestoreChar(s[0]);
      if s[0] != l {
        ReplaceAbsentFirst(RestoreChar(s[0]), p, [l]);
      }
    } else if s[..2] == p {
      RestoreDouble(s[2..], l, t);
      RestoreSplit([t], Replace(s[2..], p, [t]));
      assert s == [l, l] + s[2..];
      RestoreSplit([l, l], s[2..]);
      assert Restore([l, l]) == [l, l];
      var r := Restore(s[2..]);
      assert ([l, l] + r)[..2] == p && ([l, l] + r)[2..] == r;
    } else {
      RestoreDouble(s[1..], l, t);
      RestoreSplit([s[0]], Replace(s[1..], p, [t]));
      assert s == [s[0]] + s[1..];
      RestoreSplit([s[0]], s[1..]);
      var r := Restore(s[1..]);
      if s[0] != l {
        ReplaceSkipPrefix(RestoreChar(s[0]), r, p, [l]);
      } else {
        assert s[1] != l;
        assert r == RestoreChar(s[1]) + Restore(s[2..]);
        assert RestoreChar(s[1]) != [] && r[0] == RestoreChar(s[1])[0] && r[0] != l;
        var z := [l] + r;
        assert z[..2] != p && z[1..] == r;
      }
    }
  }

  /** The five digraph replacements of ai.py:21-22 are undone by restoring the tokens. */
  lemma DigraphRestore(w: string)
    requires forall j :: 0 <= j < |w| ==> !IsToken(w[j])
    ensures Restore(NormalizeUpTo(w, 5)) == w
  {
    RestoreDigraph(NormalizeUpTo(w, 0), 0);
    RestoreDigraph(NormalizeUpTo(w, 1), 1);
    RestoreDigraph(NormalizeUpTo(w, 2), 2);
    RestoreDigraph(NormalizeUpTo(w, 3), 3);
    RestoreDigraph(NormalizeUpTo(w, 4), 4);
    RestorePlain(w);
  }

  /** Normalising and restoring spells the word with `rr` and `ss` written once. */
  lemma NormalizeRestore(w: string)
    requires forall j :: 0 <= j < |w| ==> !IsToken(w[j])
    ensures Restore(Normalize(w)) == Collapse(w)
  {
    DigraphRestore(w);
    DoubleRestore(w, 5, 'r');
    DoubleRestore(w, 6, 's');
  }

  /** The doubled-letter replacement `k` (rr or ss) writes its letter once after restoring. */
  lemma DoubleRestore(w: string, k: nat, l: char)
    requires forall j :: 0 <= j < |w| ==> !IsToken(w[j])
    requires (k == 5 && l == 'r') || (k == 6 && l == 's')
    ensures Restore(NormalizeUpTo(w, k + 1)) == Replace(Restore(NormalizeUpTo(w, k)), [l, l], [l])
  {
    var n := NormalizeUpTo(w, k);
    var t := k as char + 1 as char;
    assert Replacements[k] == ([l, l], t);
    forall j | 0 <= j < |n|
      ensures n[j] != t && (n[j] == l || l !in RestoreChar(n[j]))
    {
      NormalizeChars(w, k, n[j]);
    }
    RestoreDouble(n, l, t);
  }

  // ---------------------------------------------------------------------------------------
  // Scan facts

  /** The syllables from `i` on are contiguous: with the tokens restored they spell the rest
      of the word. */
  lemma {:induction false} SplitRestore(w: string, i: nat)
    requires i <= |w|
    ensures Restore(Concat(Split(w, i))) == Restore(w[i..])
    decreases |w| - i
  {
    if i < |w| {
      var st := ScanStep(w, i);
      var rest := Split(w, st.next);
      SplitCons(w, i);
      assert Concat(Split(w, i)) == st.syllable + Concat(rest) by {
        assert Split(w, i) == [st.syllable] + rest;
        assert ([st.syllable] + rest)[1..] == rest;
      }
      ScanStepRestore(w, i);
      SplitRestore(w, st.next);
      RestoreSplit(st.syllable, Concat(rest));
      SliceSplit(w, i, st.next);
      RestoreSplit(w[i..st.next], w[st.next..]);
    }
  }

  lemma SplitCons(w: string, i: nat)
    requires i < |w|
    ensures Split(w, i) == [ScanStep(w, i).syllable] + Split(w, ScanStep(w, i).next)
  {
  }

  /** Every emitted syllable is non-empty. */
  lemma {:induction false} SplitNonEmpty(w: string, i: nat)
    requires i <= |w|
    ensures forall k :: 0 <= k < |Split(w, i)| ==> Split(w, i)[k] != ""
    decreases |w| - i
  {
    if i < |w| {
      SplitNonEmpty(w, ScanStep(w, i).next);
    }
  }

  /** No syllable holds a hyphen when the word holds none. */
  lemma {:induction false} SplitNoHyphen(w: string, i: nat)
    requires i <= |w|
    requires '-' !in w
    ensures forall k :: 0 <= k < |Split(w, i)| ==> '-' !in Split(w, i)[k]
    decreases |w| - i
  {
    if i < |w| {
      var st := ScanStep(w, i);
      var rest := Split(w, st.next);
      SplitCons(w, i);
      SplitNoHyphen(w, st.next);
      if '-' in st.syllable {
        PieceChars(w, i, st.next, st.syllable, '-');
      }
      HeadTailNoHyphen(st.syllable, rest);
    }
  }

  lemma HeadTailNoHyphen(x: string, rest: seq<string>)
    requires '-' !in x
    requires forall k :: 0 <= k < |rest| ==> '-' !in rest[k]
    ensures forall k :: 0 <= k < |[x] + rest| ==> '-' !in ([x] + rest)[k]
  {
    forall k | 0 <= k < |[x] + rest|
      ensures '-' !in ([x] + rest)[k]
    {
      if k > 0 {
        assert ([x] + rest)[k] == rest[k - 1];
      }
    }
  }

  /** A piece cut from `w[i..m]` as the scan cuts syllables holds only characters of the word
      and the letters written for rr and ss. */
  lemma PieceChars(w: string, i: nat, m: nat, s: string, c: char)
    requires i < m <= |w|
    requires s == w[i..m] || s == w[i..m - 1] + Written(w[m - 1])
    requires c in s
    ensures c in w || c == 'r' || c == 's'
  {
    if s == w[i..m] {
      SliceChars(w, i, m, c);
    } else {
      WrittenChars(w[i..m - 1], w[m - 1], c);
      if c in w[i..m - 1] {
        SliceChars(w, i, m - 1, c);
      }
    }
  }

  lemma WrittenChars(a: string, t: char, c: char)
    requires c in a + Written(t)
    ensures c in a || c == t || c == 'r' || c == 's'
  {
  }

  lemma {:induction false} FilterNonEmptyKeeps(xs: seq<string>)
    requires forall k :: 0 <= k < |xs| ==> xs[k] != ""
    ensures FilterNonEmpty(xs) == xs
  {
    if xs != [] {
      FilterNonEmptyKeeps(xs[1..]);
    }
  }

  /** Scanning a hyphen-free normalised word, joining, restoring and deleting the hyphens
      gives the word with its tokens restored. */
  lemma ScanRoundTrip(w: string)
    requires '-' !in w
    ensures Remove(RestoreUpTo(Join("-", FilterNonEmpty(Split(w, 0))), 7), '-') == Restore(w)
  {
    var ss := Split(w, 0);
    SplitNonEmpty(w, 0);
    FilterNonEmptyKeeps(ss);
    SplitNoHyphen(w, 0);
    RestoreAllTokens(Join("-", ss));
    RestoreRemoveHyphen(Join("-", ss));
    RemoveJoin(ss, '-');
    SplitRestore(w, 0);
    assert w[0..] == w;
  }

  /** A non-empty word without vowels is one syllable: the onset runs to its end. */
  lemma NoVowelOneSyllable(w: string)
    requires |w| > 0
    requires forall k :: 0 <= k < |w| ==> !IsVowel(w[k])
    ensures Split(w, 0) == [w]
  {
    NoVowelStep(w);
    SplitCons(w, 0);
  }

  /** Without vowels the first step takes the whole word. */
  lemma NoVowelStep(w: string)
    requires |w| > 0
    requires forall k :: 0 <= k < |w| ==> !IsVowel(w[k])
    ensures ScanStep(w, 0) == Step(w, |w|)
  {
    assert NucleusEnd(w, OnsetEnd(w, 0)) == |w| by {
      OnsetEndIs(w, 0, |w|);
      NucleusEndIs(w, |w|, |w|);
    }
    StepToEnd(w, 0);
    assert w[0..] == w;
  }

  lemma StepToEnd(w: string, i: nat)
    requires i < |w| && NucleusEnd(w, OnsetEnd(w, i)) == |w|
    ensures ScanStep(w, i) == Step(w[i..], |w|)
  {
    assert w[i..NucleusEnd(w, OnsetEnd(w, i))] == w[i..];
  }

  /** The round trip: for a word without hyphens and placeholder characters, deleting the
      hyphens of the result gives the lower-cased word with each `rr` and `ss` written once;
      every rr / ss is therefore represented by exactly one letter. */
  lemma RoundTrip(word: string)
    requires PlainWord(Lower(word))
    ensures Remove(SyllabifyPtBrSpec(word), '-') == Collapse(Lower(word))
  {
    var lw := Lower(word);
    if word == [] {
      assert lw == [];
    } else {
      if '-' in Normalize(lw) {
        NormalizeChars(lw, 7, '-');
      }
      ScanRoundTrip(Normalize(lw));
      NormalizeRestore(lw);
    }
  }

  /** "carro" loses a letter: the hyphen-free output spells "caro". The rr token is consumed
      as the coda of the first syllable and restored as one `r`, so nothing is left to open
      the next syllable ("car-o" where the source's own test list expects "car-ro"). */
  lemma CarroLosesLetter()
    ensures Remove(SyllabifyPtBrSpec("carro"), '-') == "caro"
  {
    CarroPlain();
    CarroCollapses();
    RoundTrip("carro");
  }

  lemma CarroPlain()
    ensures Lower("carro") == "carro" && PlainWord("carro")
  {
  }

  lemma CarroCollapses()
    ensures Collapse("carro") == "caro"
  {
  }

  // ---------------------------------------------------------------------------------------
  // The evidently intended treatment of rr and ss

  /** `syllabify_pt_br` with rr and ss left as two letters: the consonant-consonant rule then
      splits them between the syllables ("car-ro", "pês-se-go"), as the double-consonant rule of
      ai.py:77 and the expected outputs of ai.py:107-108 describe. */
  function SyllabifyPtBrCorrected(word: string): string
  {
    if word == [] then []
    else RestoreUpTo(Join("-", FilterNonEmpty(Split(NormalizeUpTo(Lower(word), 5), 0))), 7)
  }

  /** With rr and ss kept, deleting the hyphens gives back exactly the lower-cased word. */
  lemma RoundTripCorrected(word: string)
    requires PlainWord(Lower(word))
    ensures Remove(SyllabifyPtBrCorrected(word), '-') == Lower(word)
  {
    var lw := Lower(word);
    if word == [] {
      assert lw == [];
    } else {
      if '-' in NormalizeUpTo(lw, 5) {
        NormalizeChars(lw, 5, '-');
      }
      ScanRoundTrip(NormalizeUpTo(lw, 5));
      DigraphRestore(lw);
    }
  }

  lemma CarroKeepsLetter()
    ensures Remove(SyllabifyPtBrCorrected("carro"), '-') == "carro"
  {
    CarroPlain();
    RoundTripCorrected("carro");
  }
}
