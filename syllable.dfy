/** The rule-table syllabifier of syllable.ts: the word is cut into tokens (a digraph is one
    token), separators `@` are placed by a first-match rule table, some are deleted again by
    cleanup rules, a chain of rewrites adjusts the joined text, and `syllable` merges the
    separators back into the original spelling. */
module SyllableTs {
  import opened Strings
  import opened Rewrite
  import opened Wrappers

  const VogaisFracas: string := "iouïöüy"
  const VogaisFortes: string := "aeáéóàèòãẽõâêôäëöíúìùĩũîû"
  const ConsoantesFortes: string := "bcdfgjkpqtvwxyzç"
  const ConsoantesLiquidas: string := "lr"
  const ConsoantesNasais: string := "mn"
  const Vogais: string := VogaisFracas + VogaisFortes + "e"
  const Consoantes: string := ConsoantesFortes + ConsoantesLiquidas + ConsoantesNasais + "s"
  const ConsoantesFracas: string := ConsoantesLiquidas + ConsoantesNasais + "s"
  const Letras: string := Vogais + Consoantes

  const Digrafos: seq<string> := ["ch", "lh", "nh", "gu", "qu"]

  // ---------------------------------------------------------------------------------------
  // Tokens

  /** `is_digraph`: the first digraph of the table written at `pos`, if any. */
  function DigraphAt(text: string, pos: nat): (r: Option<string>)
    ensures r.Some? ==> r.value in Digrafos && OccursAt(text, r.value, pos)
    ensures r.None? ==> forall d :: d in Digrafos ==> !OccursAt(text, d, pos)
  {
    FindDigraph(text, pos, 0)
  }

  function FindDigraph(text: string, pos: nat, k: nat): (r: Option<string>)
    requires k <= |Digrafos|
    ensures r.Some? ==> r.value in Digrafos[k..] && OccursAt(text, r.value, pos)
    ensures r.None? ==> forall j :: k <= j < |Digrafos| ==> !OccursAt(text, Digrafos[j], pos)
    decreases |Digrafos| - k
  {
    if k == |Digrafos| then None
    else if OccursAt(text, Digrafos[k], pos) then Some(Digrafos[k])
    else FindDigraph(text, pos, k + 1)
  }

  /** `ab` is one of the digraphs of the table. */
  predicate IsDigraphPair(a: char, b: char)
  {
    (b == 'h' && (a == 'c' || a == 'l' || a == 'n')) || (b == 'u' && (a == 'g' || a == 'q'))
  }

  /** The length of the token that starts at `i`: two for a digraph, else one. */
  function TokenLen(text: string, i: nat): nat
  {
    if i + 1 < |text| && IsDigraphPair(text[i], text[i + 1]) then 2 else 1
  }

  /** The token that starts at `i`. */
  function TokenAt(text: string, i: nat): (t: string)
    requires i < |text|
    ensures 0 < |t| && i + |t| <= |text| && t == text[i..i + |t|]
  {
    text[i..i + TokenLen(text, i)]
  }

  /** `is_digraph` finds a digraph exactly where the token is two characters long, and that
      digraph is the token. */
  lemma DigraphToken(text: string, i: nat)
    requires i < |text|
    ensures DigraphAt(text, i).Some? <==> TokenLen(text, i) == 2
    ensures DigraphAt(text, i).Some? ==> DigraphAt(text, i).value == TokenAt(text, i)
    ensures DigraphAt(text, i).None? ==> TokenAt(text, i) == [text[i]]
  {
    var r := DigraphAt(text, i);
    if r.Some? {
      assert text[i..i + 2] == r.value;
      assert text[i] == r.value[0] && text[i + 1] == r.value[1];
    }
    if TokenLen(text, i) == 2 {
      var d := [text[i], text[i + 1]];
      assert text[i..i + 2] == d;
      assert d in Digrafos;
      assert OccursAt(text, d, i);
    }
  }

  /** The tokens `text_to_chars` produces from index `i` on. */
  function TokensFrom(text: string, i: nat): seq<string>
    requires i <= |text|
    decreases |text| - i
  {
    if i == |text| then [] else [TokenAt(text, i)] + TokensFrom(text, i + TokenLen(text, i))
  }

  /** `text_to_chars`. */
  method TextToChars(text: string) returns (chars: seq<string>)
    ensures chars == TokensFrom(text, 0)
  {
    chars := [];
    var i := 0;
    while i < |text|
      invariant i <= |text|
      invariant chars + TokensFrom(text, i) == TokensFrom(text, 0)
      decreases |text| - i
    {
      var token := NextToken(text, i);
      TokenStep(text, i, chars, token);
      chars := chars + [token];
      i := i + |token|;
    }
  }

  /** One step of `text_to_chars`: the digraph at `i` if `is_digraph` finds one, else the
      character `text.charAt(i)`. */
  method NextToken(text: string, i: nat) returns (token: string)
    requires i < |text|
    ensures token == TokenAt(text, i)
  {
    var dig := DigraphAt(text, i);
    DigraphToken(text, i);
    if dig.Some? {
      token := dig.value;
    } else {
      token := [text[i]];
    }
  }

  /** The loop of `text_to_chars` keeps its invariant when it takes one token. */
  lemma TokenStep(text: string, i: nat, chars: seq<string>, token: string)
    requires i < |text|
    requires token == TokenAt(text, i)
    requires chars + TokensFrom(text, i) == TokensFrom(text, 0)
    ensures (chars + [token]) + TokensFrom(text, i + |token|) == TokensFrom(text, 0)
  {
    AppendStep(chars, token, TokensFrom(text, i + |token|), TokensFrom(text, 0));
  }

  /** Moving the head of the remainder onto the end of the prefix keeps the whole. */
  lemma AppendStep<T>(done: seq<T>, x: T, rest: seq<T>, whole: seq<T>)
    requires done + ([x] + rest) == whole
    ensures (done + [x]) + rest == whole
  {
    assert (done + [x]) + rest == done + ([x] + rest);
  }

  /** The tokens spell the text back. */
  lemma {:induction false} TokensConcat(text: string, i: nat)
    requires i <= |text|
    ensures Concat(TokensFrom(text, i)) == text[i..]
    decreases |text| - i
  {
    if i < |text| {
      var t := TokenAt(text, i);
      TokensConcat(text, i + TokenLen(text, i));
      SliceSplit(text, i, i + TokenLen(text, i));
    }
  }

  /** Each token is a digraph of the table or a single character. */
  lemma {:induction false} TokensShape(text: string, i: nat)
    requires i <= |text|
    ensures forall k :: 0 <= k < |TokensFrom(text, i)| ==>
      TokensFrom(text, i)[k] in Digrafos || |TokensFrom(text, i)[k]| == 1
    decreases |text| - i
  {
    if i < |text| {
      TokensShape(text, i + TokenLen(text, i));
      if TokenLen(text, i) == 2 {
        DigraphToken(text, i);
      }
    }
  }

  // ---------------------------------------------------------------------------------------
  // Patterns

  /** `char_in_set`: a substring test, not a membership test. */
  predicate CharInSet(token: string, setSpec: string)
  {
    Includes(setSpec, token)
  }

  /** One slot of a pattern: `@` matches only `@`, any other slot by `char_in_set`. */
  predicate SlotMatches(slot: string, actual: string)
  {
    if slot == "@" then actual == "@" else CharInSet(actual, slot)
  }

  /** The slots from `k` on match, each against its token, as the loop of `match_pattern`
      checks them in order. */
  predicate SlotsFrom(chars: seq<string>, pos: nat, pattern: seq<string>, k: nat)
    requires pos + |pattern| <= |chars|
    decreases |pattern| - k
  {
    k >= |pattern| || (SlotMatches(pattern[k], chars[pos + k]) && SlotsFrom(chars, pos, pattern, k + 1))
  }

  /** `match_pattern`. */
  predicate MatchPattern(chars: seq<string>, pos: int, pattern: seq<string>)
  {
    0 <= pos && pos + |pattern| <= |chars| && SlotsFrom(chars, pos, pattern, 0)
  }

  lemma {:induction false} SlotsFromIff(chars: seq<string>, pos: nat, pattern: seq<string>, k: nat)
    requires pos + |pattern| <= |chars|
    ensures SlotsFrom(chars, pos, pattern, k) <==>
      forall j :: k <= j < |pattern| ==> SlotMatches(pattern[j], chars[pos + j])
    decreases |pattern| - k
  {
    if k < |pattern| {
      SlotsFromIff(chars, pos, pattern, k + 1);
    }
  }

  /** A pattern matches exactly when its window lies inside the array and every slot accepts
      its token. */
  lemma MatchPatternIff(chars: seq<string>, pos: int, pattern: seq<string>)
    ensures MatchPattern(chars, pos, pattern) <==>
      0 <= pos && pos + |pattern| <= |chars| &&
      forall j :: 0 <= j < |pattern| ==> SlotMatches(pattern[j], chars[pos + j])
  {
    if 0 <= pos && pos + |pattern| <= |chars| {
      SlotsFromIff(chars, pos, pattern, 0);
    }
  }

  /** At a matched pattern, a token under an `@` slot is `@`. */
  lemma MatchedAt(chars: seq<string>, pos: int, pattern: seq<string>, k: nat)
    requires MatchPattern(chars, pos, pattern)
    requires k < |pattern| && pattern[k] == "@"
    ensures chars[pos + k] == "@"
  {
    MatchPatternIff(chars, pos, pattern);
  }

  /** A digraph is not a substring of `LETRAS`, so `syllable` treats digraph tokens as
      non-letters. */
  lemma DigraphNotLetter(d: string)
    requires d in Digrafos
    ensures !CharInSet(Lower(d), Letras)
  {
    assert Lower(d) == d by {
      assert Lower(d)[0] == d[0] && Lower(d)[1] == d[1];
    }
    LetterClasses();
    if d[1] == 'h' {
      if Includes(Letras, d) {
        IncludesChars(Letras, d, 'h');
      }
    } else {
      PairAcross(Vogais, Consoantes, d[0], d[1]);
      assert d == [d[0], d[1]];
    }
  }

  /** Which letters the classes leave out. */
  lemma LetterClasses()
    ensures 'h' !in Letras
    ensures 'g' !in Vogais && 'q' !in Vogais && 'u' !in Consoantes
  {
    NoH();
    NoG();
    NoQ();
    assert 'u' !in ConsoantesFortes;
  }

  lemma NoH()
    ensures 'h' !in VogaisFracas && 'h' !in VogaisFortes && 'h' !in ConsoantesFortes
  {
  }

  lemma NoG()
    ensures 'g' !in VogaisFracas && 'g' !in VogaisFortes
  {
  }

  lemma NoQ()
    ensures 'q' !in VogaisFracas && 'q' !in VogaisFortes
  {
  }

  /** No `a` of the first part and no `b` of the second part: `ab` is not included. */
  lemma PairAcross(x: string, y: string, a: char, b: char)
    requires a !in x && b !in y
    ensures !Includes(x + y, [a, b])
  {
    forall i | 0 <= i <= |x + y| - 2
      ensures !OccursAt(x + y, [a, b], i)
    {
      if i < |x| {
        assert (x + y)[i] == x[i];
      } else {
        assert (x + y)[i + 1] == y[i + 1 - |x|];
      }
      assert (x + y)[i..i + 2] == [(x + y)[i], (x + y)[i + 1]];
    }
  }

  // ---------------------------------------------------------------------------------------
  // Token lists

  /** The tokens other than `t`, in order. */
  function Without(xs: seq<string>, t: string): (r: seq<string>)
    ensures |r| <= |xs|
  {
    if xs == [] then [] else (if xs[0] == t then [] else [xs[0]]) + Without(xs[1..], t)
  }

  /** No two `@` tokens stand in a row. */
  predicate NoAtPair(xs: seq<string>)
  {
    forall k :: 0 <= k < |xs| - 1 ==> !(xs[k] == "@" && xs[k + 1] == "@")
  }

  /** No two `@` in a row, and none at either end. */
  predicate WellSpaced(xs: seq<string>)
  {
    NoAtPair(xs) && (xs != [] ==> xs[0] != "@" && xs[|xs| - 1] != "@")
  }

  /** No token holds the character `c`. */
  predicate Lacks(xs: seq<string>, c: char)
  {
    forall k :: 0 <= k < |xs| ==> c !in xs[k]
  }

  lemma {:induction false} WithoutSplit(xs: seq<string>, ys: seq<string>, t: string)
    ensures Without(xs + ys, t) == Without(xs, t) + Without(ys, t)
  {
    if xs == [] {
      assert xs + ys == ys;
    } else {
      assert (xs + ys)[1..] == xs[1..] + ys;
      WithoutSplit(xs[1..], ys, t);
    }
  }

  lemma SplitAround<T>(xs: seq<T>, j: nat)
    requires j < |xs|
    ensures xs == xs[..j] + ([xs[j]] + xs[j + 1..])
  {
  }

  lemma WithoutCons(x: string, xs: seq<string>, t: string)
    ensures Without([x] + xs, t) == (if x == t then [] else [x]) + Without(xs, t)
  {
    assert ([x] + xs)[1..] == xs;
  }

  lemma {:induction false} WithoutAbsent(xs: seq<string>, t: string)
    requires t !in xs
    ensures Without(xs, t) == xs
  {
    if xs != [] {
      WithoutAbsent(xs[1..], t);
    }
  }

  lemma {:induction false} ConcatLacks(xs: seq<string>, c: char)
    requires Lacks(xs, c)
    ensures c !in Concat(xs)
  {
    if xs != [] {
      assert c !in xs[0];
      assert Lacks(xs[1..], c) by {
        forall k | 0 <= k < |xs[1..]|
          ensures c !in xs[1..][k]
        {
          assert xs[1..][k] == xs[k + 1];
        }
      }
      ConcatLacks(xs[1..], c);
    }
  }

  /** The tokens of a text hold only characters of the text. */
  lemma {:induction false} TokensLack(text: string, i: nat, c: char)
    requires i <= |text|
    requires c !in text
    ensures Lacks(TokensFrom(text, i), c)
    decreases |text| - i
  {
    if i < |text| {
      TokensLack(text, i + TokenLen(text, i), c);
      var t := TokenAt(text, i);
      if c in t {
        SliceChars(text, i, i + |t|, c);
      }
      assert TokensFrom(text, i) == [t] + TokensFrom(text, i + TokenLen(text, i));
    }
  }

  // ---------------------------------------------------------------------------------------
  // Rules

  /** A rule: a pattern of slots, and the offset from the match at which a separator is
      placed (syllabification) or from which the `@` is found (cleanup). */
  datatype Rule = Rule(position: int, pattern: seq<string>)

  const SyllabificationRules: seq<Rule> := [
    Rule(1, [Vogais, "o"]),
    Rule(1, [VogaisFracas, VogaisFortes]),
    Rule(1, ["aeí", VogaisFortes]),
    Rule(0, [ConsoantesFortes]),
    Rule(0, [ConsoantesFracas, Vogais]),
    Rule(0, ["bd", "s"])
  ]

  const CleanupRules: seq<Rule> := [
    Rule(2, [ConsoantesFortes, "@", ConsoantesLiquidas]),
    Rule(1, ["@", ConsoantesFortes, "@", ConsoantesNasais + "s"]),
    Rule(1, ["@", ConsoantesFortes, "@", ConsoantesFortes]),
    Rule(2, ["ã", "@", "o"])
  ]

  const Exceptions: seq<string> := ["ao", "aos", "caos"]

  // ---------------------------------------------------------------------------------------
  // Separators

  /** The separator the first rule from `r` on that matches at `i` places, when that position
      lies in `0..|chars|`. */
  function FirstSeparator(chars: seq<string>, i: nat, r: nat): (p: Option<int>)
    requires r <= |SyllabificationRules|
    ensures p.Some? ==> i <= p.value <= i + 1 && p.value <= |chars|
    decreases |SyllabificationRules| - r
  {
    if r == |SyllabificationRules| then None
    else
      var rule := SyllabificationRules[r];
      if MatchPattern(chars, i, rule.pattern) && 0 <= i + rule.position <= |chars| then Some(i + rule.position)
      else FirstSeparator(chars, i, r + 1)
  }

  /** The separator placed at index `i`, as a set of at most one position. */
  function PlacedAt(chars: seq<string>, i: nat): set<int>
  {
    match FirstSeparator(chars, i, 0)
    case Some(p) => {p}
    case None => {}
  }

  /** The separator positions the scan places at token indices below `m`. */
  function SeparatorsUpTo(chars: seq<string>, m: nat): (seps: set<int>)
    ensures forall p :: p in seps ==> 0 <= p <= m && p <= |chars|
  {
    if m == 0 then {} else SeparatorsUpTo(chars, m - 1) + PlacedAt(chars, m - 1)
  }

  /** The number of token indices the separator scan visits: `chars.length - 1`, or none. */
  function ScanBound(chars: seq<string>): nat
  {
    if |chars| > 0 then |chars| - 1 else 0
  }

  /** The separator loop of `syllabify_letters`. */
  method PlaceSeparators(chars: seq<string>) returns (seps: set<int>)
    ensures seps == SeparatorsUpTo(chars, ScanBound(chars))
  {
    seps := {};
    var i := 0;
    while i < |chars| - 1
      invariant i <= ScanBound(chars)
      invariant seps == SeparatorsUpTo(chars, i)
    {
      seps := ApplyFirstRule(chars, i, seps);
      i := i + 1;
    }
  }

  /** The rule loop at one index: the first rule that matches and whose position lies in
      range places its separator, and no later rule is tried. */
  method ApplyFirstRule(chars: seq<string>, i: nat, seps: set<int>) returns (seps': set<int>)
    ensures seps' == seps + PlacedAt(chars, i)
  {
    seps' := seps;
    var r := 0;
    while r < |SyllabificationRules|
      invariant r <= |SyllabificationRules|
      invariant FirstSeparator(chars, i, r) == FirstSeparator(chars, i, 0)
      invariant seps' == seps
    {
      var rule := SyllabificationRules[r];
      if MatchPattern(chars, i, rule.pattern) {
        var insertPos := i + rule.position;
        if 0 <= insertPos <= |chars| {
          seps' := seps' + {insertPos};
          break;
        }
      }
      r := r + 1;
    }
  }

  /** The tokens up to index `m`, each followed by `@` when a separator was placed after it,
      except after the last token. */
  function Inserted(chars: seq<string>, seps: set<int>, m: nat): seq<string>
    requires m <= |chars|
  {
    if m == 0 then []
    else Inserted(chars, seps, m - 1) + [chars[m - 1]] + (if m in seps && m < |chars| then ["@"] else [])
  }

  /** The insertion loop of `syllabify_letters`. */
  method InsertSeparators(chars: seq<string>, seps: set<int>) returns (resultChars: seq<string>)
    ensures resultChars == Inserted(chars, seps, |chars|)
  {
    resultChars := [];
    var i := 0;
    while i < |chars|
      invariant i <= |chars|
      invariant resultChars == Inserted(chars, seps, i)
    {
      resultChars := resultChars + [chars[i]];
      if i + 1 in seps && i < |chars| - 1 {
        resultChars := resultChars + ["@"];
      }
      i := i + 1;
    }
  }

  /** Deleting the separators from the inserted list gives the tokens back. */
  lemma {:induction false} InsertedWithout(chars: seq<string>, seps: set<int>, m: nat)
    requires m <= |chars|
    ensures Without(Inserted(chars, seps, m), "@") == Without(chars[..m], "@")
  {
    if m > 0 {
      InsertedWithout(chars, seps, m - 1);
      var extra: seq<string> := if m in seps && m < |chars| then ["@"] else [];
      WithoutSplit(Inserted(chars, seps, m - 1) + [chars[m - 1]], extra, "@");
      WithoutSplit(Inserted(chars, seps, m - 1), [chars[m - 1]], "@");
      assert chars[..m] == chars[..m - 1] + [chars[m - 1]];
      WithoutSplit(chars[..m - 1], [chars[m - 1]], "@");
    }
  }

  /** For tokens without `@`, the inserted list is the tokens with separators between them:
      deleting the `@` gives the tokens back, and none stands first, last or next to another. */
  lemma InsertedSeparates(chars: seq<string>, seps: set<int>)
    requires "@" !in chars
    ensures Without(Inserted(chars, seps, |chars|), "@") == chars
    ensures WellSpaced(Inserted(chars, seps, |chars|))
  {
    InsertedWithout(chars, seps, |chars|);
    assert chars[..|chars|] == chars;
    WithoutAbsent(chars, "@");
    if |chars| > 0 {
      InsertedSpacedUpTo(chars, seps, |chars|);
    }
  }

  lemma {:induction false} InsertedSpacedUpTo(chars: seq<string>, seps: set<int>, m: nat)
    requires "@" !in chars
    requires 1 <= m <= |chars|
    ensures var xs := Inserted(chars, seps, m); NoAtPair(xs) && xs[0] != "@"
    ensures m == |chars| ==> Inserted(chars, seps, m)[|Inserted(chars, seps, m)| - 1] != "@"
  {
    var prev := Inserted(chars, seps, m - 1);
    var x := chars[m - 1];
    var extra: seq<string> := if m in seps && m < |chars| then ["@"] else [];
    if m > 1 {
      InsertedSpacedUpTo(chars, seps, m - 1);
    }
    assert prev == [] ==> m == 1;
    AppendSpaced(prev, x, extra);
  }

  lemma AppendSpaced(prev: seq<string>, x: string, extra: seq<string>)
    requires NoAtPair(prev) && (prev != [] ==> prev[0] != "@")
    requires x != "@"
    requires extra == [] || extra == ["@"]
    ensures var xs := prev + [x] + extra; NoAtPair(xs) && xs[0] != "@"
    ensures extra == [] ==> (prev + [x] + extra)[|prev|] == x
  {
    var xs := prev + [x] + extra;
    forall k | 0 <= k < |xs| - 1
      ensures !(xs[k] == "@" && xs[k + 1] == "@")
    {
      if k + 1 < |prev| {
        assert xs[k] == prev[k] && xs[k + 1] == prev[k + 1];
      } else if k + 1 == |prev| {
        assert xs[k + 1] == x;
      } else {
        assert xs[k] == x;
      }
    }
  }

  // ---------------------------------------------------------------------------------------
  // Cleanup

  /** `cleanup_rule`: `splice(index, 1)` deletes the token at `index`, and nothing past the end. */
  function CleanupRule(chars: seq<string>, index: nat): (r: seq<string>)
    ensures index < |chars| ==> |r| == |chars| - 1
    ensures index < |chars| ==> forall k :: 0 <= k < |r| ==> r[k] == (if k < index then chars[k] else chars[k + 1])
    ensures index >= |chars| ==> r == chars
  {
    if index < |chars| then chars[..index] + chars[index + 1..] else chars
  }

  /** The index of the first `@` slot of a pattern from `k` on, or -1. */
  function FirstAt(pattern: seq<string>, k: nat): (r: int)
    ensures r == -1 || (k <= r < |pattern| && pattern[r] == "@")
    ensures r == -1 ==> forall j :: k <= j < |pattern| ==> pattern[j] != "@"
    ensures r != -1 ==> forall j :: k <= j < r ==> pattern[j] != "@"
    decreases |pattern| - k
  {
    if k >= |pattern| then -1 else if pattern[k] == "@" then k else FirstAt(pattern, k + 1)
  }

  /** The search of `syllabify_letters` for the `@` slot of a cleanup pattern. */
  method AtIndexInPattern(pattern: seq<string>) returns (at: int)
    ensures at == FirstAt(pattern, 0)
  {
    at := -1;
    var k := 0;
    while k < |pattern|
      invariant k <= |pattern|
      invariant forall j :: 0 <= j < k ==> pattern[j] != "@"
    {
      if pattern[k] == "@" {
        at := k;
        break;
      }
      k := k + 1;
    }
  }

  /** One index of a cleanup pass: if the pattern matches there, the token under its first
      `@` slot is deleted. */
  function CleanupStep(xs: seq<string>, pattern: seq<string>, i: nat): seq<string>
  {
    var at := FirstAt(pattern, 0);
    if MatchPattern(xs, i, pattern) && at != -1 then CleanupRule(xs, i + at) else xs
  }

  /** A cleanup pass over indices `i`, `i - 1`, ..., `0`, each on the list the previous one
      left. */
  function CleanupFrom(xs: seq<string>, pattern: seq<string>, i: int): seq<string>
    decreases i + 1
  {
    if i < 0 then xs else CleanupFrom(CleanupStep(xs, pattern, i), pattern, i - 1)
  }

  /** The first `r` cleanup rules, each run as one pass starting at the last index its pattern
      fits. */
  function CleanupUpTo(xs: seq<string>, r: nat): seq<string>
    requires r <= |CleanupRules|
  {
    if r == 0 then xs
    else
      var ys := CleanupUpTo(xs, r - 1);
      CleanupFrom(ys, CleanupRules[r - 1].pattern, |ys| - |CleanupRules[r - 1].pattern|)
  }

  /** The cleanup loops of `syllabify_letters`. */
  method ApplyCleanup(resultChars: seq<string>) returns (processed: seq<string>)
    ensures processed == CleanupUpTo(resultChars, |CleanupRules|)
  {
    processed := resultChars;
    var r := 0;
    while r < |CleanupRules|
      invariant r <= |CleanupRules|
      invariant processed == CleanupUpTo(resultChars, r)
    {
      processed := CleanupPass(processed, CleanupRules[r]);
      r := r + 1;
    }
  }

  /** The reverse loop of one cleanup rule. */
  method CleanupPass(chars: seq<string>, rule: Rule) returns (processed: seq<string>)
    ensures processed == CleanupFrom(chars, rule.pattern, |chars| - |rule.pattern|)
  {
    processed := chars;
    ghost var target := CleanupFrom(chars, rule.pattern, |chars| - |rule.pattern|);
    var i := |processed| - |rule.pattern|;
    while i >= 0
      invariant CleanupFrom(processed, rule.pattern, i) == target
      decreases i + 1
    {
      ghost var before := processed;
      processed := CleanupAt(processed, rule.pattern, i);
      CleanupAdvance(before, processed, rule.pattern, i, target);
      i := i - 1;
    }
  }

  /** The body of the reverse loop at index `i`. */
  method CleanupAt(chars: seq<string>, pattern: seq<string>, i: nat) returns (processed: seq<string>)
    ensures processed == CleanupStep(chars, pattern, i)
  {
    processed := chars;
    if MatchPattern(processed, i, pattern) {
      var at := AtIndexInPattern(pattern);
      if at != -1 {
        processed := CleanupRule(processed, i + at);
      }
    }
  }

  lemma CleanupAdvance(before: seq<string>, after: seq<string>, pattern: seq<string>, i: nat, target: seq<string>)
    requires CleanupFrom(before, pattern, i) == target
    requires after == CleanupStep(before, pattern, i)
    ensures CleanupFrom(after, pattern, i - 1) == target
  {
  }

  /** A step either leaves the list alone or deletes exactly one token, an `@`. */
  lemma CleanupStepDeletesAt(xs: seq<string>, pattern: seq<string>, i: nat)
    ensures var ys := CleanupStep(xs, pattern, i);
      ys == xs || exists j :: 0 <= j < |xs| && xs[j] == "@" && ys == xs[..j] + xs[j + 1..]
  {
    var at := FirstAt(pattern, 0);
    if MatchPattern(xs, i, pattern) && at != -1 {
      MatchedAt(xs, i, pattern, at);
      assert xs[i + at] == "@";
    }
  }

  /** Deleting an `@` keeps the other tokens, their spacing and the absence of a character. */
  lemma DeleteAt(xs: seq<string>, j: nat)
    requires j < |xs| && xs[j] == "@"
    ensures Without(xs[..j] + xs[j + 1..], "@") == Without(xs, "@")
    ensures WellSpaced(xs) ==> WellSpaced(xs[..j] + xs[j + 1..])
    ensures forall c :: Lacks(xs, c) ==> Lacks(xs[..j] + xs[j + 1..], c)
  {
    DeleteAtWithout(xs, j);
    if WellSpaced(xs) {
      DeleteAtSpaced(xs, j);
    }
    forall c | Lacks(xs, c)
      ensures Lacks(xs[..j] + xs[j + 1..], c)
    {
      DeleteLacks(xs, j, c);
    }
  }

  lemma DeleteAtWithout(xs: seq<string>, j: nat)
    requires j < |xs| && xs[j] == "@"
    ensures Without(xs[..j] + xs[j + 1..], "@") == Without(xs, "@")
  {
    var a, b := xs[..j], xs[j + 1..];
    SplitAround(xs, j);
    WithoutSplit(a, [xs[j]] + b, "@");
    WithoutCons(xs[j], b, "@");
    WithoutSplit(a, b, "@");
  }

  lemma DeleteAtSpaced(xs: seq<string>, j: nat)
    requires j < |xs| && xs[j] == "@"
    requires WellSpaced(xs)
    ensures WellSpaced(xs[..j] + xs[j + 1..])
  {
    var ys := xs[..j] + xs[j + 1..];
    assert 0 < j < |xs| - 1;
    forall k | 0 <= k < |ys| - 1
      ensures !(ys[k] == "@" && ys[k + 1] == "@")
    {
      if k + 1 < j {
        assert ys[k] == xs[k] && ys[k + 1] == xs[k + 1];
      } else if k + 1 == j {
        assert ys[k] == xs[j - 1];
      } else {
        assert ys[k] == xs[k + 1] && ys[k + 1] == xs[k + 2];
      }
    }
    assert ys[0] == xs[0] && ys[|ys| - 1] == xs[|xs| - 1];
  }

  lemma DeleteLacks(xs: seq<string>, j: nat, c: char)
    requires j < |xs|
    requires Lacks(xs, c)
    ensures Lacks(xs[..j] + xs[j + 1..], c)
  {
    var ys := xs[..j] + xs[j + 1..];
    forall k | 0 <= k < |ys|
      ensures c !in ys[k]
    {
      assert ys[k] == (if k < j then xs[k] else xs[k + 1]);
    }
  }

  /** A cleanup step keeps the non-`@` tokens, the spacing and the absence of a character. */
  lemma CleanupStepKeeps(xs: seq<string>, pattern: seq<string>, i: nat)
    ensures Without(CleanupStep(xs, pattern, i), "@") == Without(xs, "@")
    ensures WellSpaced(xs) ==> WellSpaced(CleanupStep(xs, pattern, i))
    ensures forall c :: Lacks(xs, c) ==> Lacks(CleanupStep(xs, pattern, i), c)
  {
    CleanupStepDeletesAt(xs, pattern, i);
    var ys := CleanupStep(xs, pattern, i);
    if ys != xs {
      var j :| 0 <= j < |xs| && xs[j] == "@" && ys == xs[..j] + xs[j + 1..];
      DeleteAt(xs, j);
    }
  }

  lemma {:induction false} CleanupFromKeeps(xs: seq<string>, pattern: seq<string>, i: int)
    ensures Without(CleanupFrom(xs, pattern, i), "@") == Without(xs, "@")
    ensures WellSpaced(xs) ==> WellSpaced(CleanupFrom(xs, pattern, i))
    ensures forall c :: Lacks(xs, c) ==> Lacks(CleanupFrom(xs, pattern, i), c)
    decreases i + 1
  {
    if i >= 0 {
      CleanupStepKeeps(xs, pattern, i);
      CleanupFromKeeps(CleanupStep(xs, pattern, i), pattern, i - 1);
    }
  }

  /** Cleanup deletes only separators: the other tokens, their spacing and the absence of a
      character all survive it. */
  lemma {:induction false} CleanupKeeps(xs: seq<string>, r: nat)
    requires r <= |CleanupRules|
    ensures Without(CleanupUpTo(xs, r), "@") == Without(xs, "@")
    ensures WellSpaced(xs) ==> WellSpaced(CleanupUpTo(xs, r))
    ensures forall c :: Lacks(xs, c) ==> Lacks(CleanupUpTo(xs, r), c)
  {
    if r > 0 {
      CleanupKeeps(xs, r - 1);
      var ys := CleanupUpTo(xs, r - 1);
      CleanupFromKeeps(ys, CleanupRules[r - 1].pattern, |ys| - |CleanupRules[r - 1].pattern|);
    }
  }

  // ---------------------------------------------------------------------------------------
  // Post-processing

  /** The loop over the digraph table: before every occurrence of each digraph, in table
      order, an `@` is written. */
  function MarkDigraphs(s: string, k: nat): string
    requires k <= |Digrafos|
  {
    if k == 0 then s
    else
      var t := MarkDigraphs(s, k - 1);
      Replace(t, Digrafos[k - 1], "@" + Digrafos[k - 1])
  }

  /** The eight rewrites that follow, in their order. */
  function Rewrites(s: string): string
  {
    var s1 := RewriteAll(s, ["gq", "@", "u"], [Lit('g'), Lit('u')]);
    var s2 := RewriteAtEnd(s1, ["aeou", "i", "nmrlz"], [Group(0), Lit('@'), Group(1), Group(2)]);
    var s3 := Replace(s2, "@bs@", "bs@");
    var s4 := Replace(s3, "@d@q", "d@q");
    var s5 := RewriteAll(s4, ["aei", "oui", "mn"], [Group(0), Lit('@'), Group(1), Group(2)]);
    var s6 := RewriteAll(s5, ["aeo", "i", "n"], [Group(0), Lit('@'), Lit('i'), Lit('n')]);
    var s7 := RewriteAll(s6, ["aeou", "i", "@", "n", "h"],
                         [Group(0), Lit('@'), Lit('i'), Lit('@'), Lit('n'), Lit('h')]);
    RewriteAll(s7, ["gq", "u", "@", "ei"], [Group(0), Lit('u'), Group(3)])
  }

  /** Post-processing of the joined tokens: marks, rewrites, then runs of `@` collapsed and a
      leading `@` dropped. */
  function Finish(joined: string): string
  {
    DropLeading(CollapseRuns(Rewrites(MarkDigraphs(joined, |Digrafos|)), '@'), '@')
  }

  /** What `syllabify_letters` returns. */
  function SyllabifyLettersSpec(word: string): string
  {
    var lowerWord := Lower(word);
    var chars := TokensFrom(lowerWord, 0);
    if lowerWord in Exceptions || |chars| <= 1 then word
    else
      var seps := SeparatorsUpTo(chars, ScanBound(chars));
      Finish(Concat(CleanupUpTo(Inserted(chars, seps, |chars|), |CleanupRules|)))
  }

  /** `syllabify_letters`. */
  method SyllabifyLetters(word: string) returns (result: string)
    ensures result == SyllabifyLettersSpec(word)
  {
    var lowerWord := Lower(word);
    var chars := TextToChars(lowerWord);
    var e := 0;
    while e < |Exceptions|
      invariant e <= |Exceptions|
      invariant lowerWord !in Exceptions[..e]
    {
      if lowerWord == Exceptions[e] {
        return word;
      }
      assert Exceptions[..e + 1] == Exceptions[..e] + [Exceptions[e]];
      e := e + 1;
    }
    assert Exceptions[..e] == Exceptions;
    if |chars| <= 1 {
      return word;
    }
    var separators := PlaceSeparators(chars);
    var resultChars := InsertSeparators(chars, separators);
    var processedChars := ApplyCleanup(resultChars);
    result := PostProcess(Concat(processedChars));
  }

  /** The post-processing of `syllabify_letters`, on the joined tokens. */
  method PostProcess(joined: string) returns (result: string)
    ensures result == Finish(joined)
  {
    result := joined;
    var k := 0;
    while k < |Digrafos|
      invariant k <= |Digrafos|
      invariant result == MarkDigraphs(joined, k)
    {
      result := Replace(result, Digrafos[k], "@" + Digrafos[k]);
      k := k + 1;
    }
    result := RewriteAll(result, ["gq", "@", "u"], [Lit('g'), Lit('u')]);
    result := RewriteAtEnd(result, ["aeou", "i", "nmrlz"], [Group(0), Lit('@'), Group(1), Group(2)]);
    result := Replace(result, "@bs@", "bs@");
    result := Replace(result, "@d@q", "d@q");
    result := RewriteAll(result, ["aei", "oui", "mn"], [Group(0), Lit('@'), Group(1), Group(2)]);
    result := RewriteAll(result, ["aeo", "i", "n"], [Group(0), Lit('@'), Lit('i'), Lit('n')]);
    result := RewriteAll(result, ["aeou", "i", "@", "n", "h"],
                         [Group(0), Lit('@'), Lit('i'), Lit('@'), Lit('n'), Lit('h')]);
    result := RewriteAll(result, ["gq", "u", "@", "ei"], [Group(0), Lit('u'), Group(3)]);
    result := CollapseRuns(result, '@');
    result := DropLeading(result, '@');
  }

  /** The exceptions and words of at most one token come back as they were given. */
  lemma SyllabifyLettersUnchanged(word: string)
    requires Lower(word) in Exceptions || |TokensFrom(Lower(word), 0)| <= 1
    ensures SyllabifyLettersSpec(word) == word
  {
  }

  /** Whatever the rules did, the output of the main path has no run of `@` and does not
      start with one. */
  lemma SyllabifyLettersSpaced(word: string)
    requires Lower(word) !in Exceptions && |TokensFrom(Lower(word), 0)| > 1
    ensures var r := SyllabifyLettersSpec(word); NoPair(r, '@') && (r == [] || r[0] != '@')
  {
    var lowerWord := Lower(word);
    var chars := TokensFrom(lowerWord, 0);
    var seps := SeparatorsUpTo(chars, ScanBound(chars));
    var joined := Concat(CleanupUpTo(Inserted(chars, seps, |chars|), |CleanupRules|));
    CollapseDrop(Rewrites(MarkDigraphs(joined, |Digrafos|)), '@');
  }

  /** `-` is not among the characters the post-processing writes. */
  lemma {:induction false} MarkDigraphsLacks(s: string, k: nat)
    requires k <= |Digrafos|
    requires '-' !in s
    ensures '-' !in MarkDigraphs(s, k)
  {
    if k > 0 {
      MarkDigraphsLacks(s, k - 1);
      var t := MarkDigraphs(s, k - 1);
      if '-' in Replace(t, Digrafos[k - 1], "@" + Digrafos[k - 1]) {
        ReplaceChars(t, Digrafos[k - 1], "@" + Digrafos[k - 1], '-');
      }
    }
  }

  lemma RewritesLacks(s: string)
    requires '-' !in s
    ensures '-' !in Rewrites(s)
  {
    var s1 := RewriteAll(s, ["gq", "@", "u"], [Lit('g'), Lit('u')]);
    RewriteAllChars(s, ["gq", "@", "u"], [Lit('g'), Lit('u')], '-');
    var s2 := RewriteAtEnd(s1, ["aeou", "i", "nmrlz"], [Group(0), Lit('@'), Group(1), Group(2)]);
    RewriteAtEndChars(s1, ["aeou", "i", "nmrlz"], [Group(0), Lit('@'), Group(1), Group(2)], '-');
    var s3 := Replace(s2, "@bs@", "bs@");
    if '-' in s3 {
      ReplaceChars(s2, "@bs@", "bs@", '-');
    }
    var s4 := Replace(s3, "@d@q", "d@q");
    if '-' in s4 {
      ReplaceChars(s3, "@d@q", "d@q", '-');
    }
    var s5 := RewriteAll(s4, ["aei", "oui", "mn"], [Group(0), Lit('@'), Group(1), Group(2)]);
    RewriteAllChars(s4, ["aei", "oui", "mn"], [Group(0), Lit('@'), Group(1), Group(2)], '-');
    var s6 := RewriteAll(s5, ["aeo", "i", "n"], [Group(0), Lit('@'), Lit('i'), Lit('n')]);
    RewriteAllChars(s5, ["aeo", "i", "n"], [Group(0), Lit('@'), Lit('i'), Lit('n')], '-');
    var s7 := RewriteAll(s6, ["aeou", "i", "@", "n", "h"],
                         [Group(0), Lit('@'), Lit('i'), Lit('@'), Lit('n'), Lit('h')]);
    RewriteAllChars(s6, ["aeou", "i", "@", "n", "h"],
                    [Group(0), Lit('@'), Lit('i'), Lit('@'), Lit('n'), Lit('h')], '-');
    RewriteAllChars(s7, ["gq", "u", "@", "ei"], [Group(0), Lit('u'), Group(3)], '-');
  }

  lemma {:induction false} InsertedLacks(chars: seq<string>, seps: set<int>, m: nat, c: char)
    requires m <= |chars|
    requires Lacks(chars, c) && c != '@'
    ensures Lacks(Inserted(chars, seps, m), c)
  {
    if m > 0 {
      InsertedLacks(chars, seps, m - 1, c);
      var prev := Inserted(chars, seps, m - 1);
      var extra: seq<string> := if m in seps && m < |chars| then ["@"] else [];
      var xs := prev + [chars[m - 1]] + extra;
      forall k | 0 <= k < |xs|
        ensures c !in xs[k]
      {
        if k < |prev| {
          assert xs[k] == prev[k];
        } else if k == |prev| {
          assert xs[k] == chars[m - 1];
        } else {
          assert xs[k] == "@";
        }
      }
    }
  }

  /** A word without `-` is syllabified without `-`. */
  lemma SyllabifyLettersNoDash(word: string)
    requires '-' !in word
    ensures '-' !in SyllabifyLettersSpec(word)
  {
    var lowerWord := Lower(word);
    var chars := TokensFrom(lowerWord, 0);
    if !(lowerWord in Exceptions || |chars| <= 1) {
      forall k | 0 <= k < |lowerWord|
        ensures lowerWord[k] != '-'
      {
        assert lowerWord[k] == LowerChar(word[k]);
      }
      TokensLack(lowerWord, 0, '-');
      var seps := SeparatorsUpTo(chars, ScanBound(chars));
      InsertedLacks(chars, seps, |chars|, '-');
      CleanupKeeps(Inserted(chars, seps, |chars|), |CleanupRules|);
      var cleaned := CleanupUpTo(Inserted(chars, seps, |chars|), |CleanupRules|);
      ConcatLacks(cleaned, '-');
      MarkDigraphsLacks(Concat(cleaned), |Digrafos|);
      RewritesLacks(MarkDigraphs(Concat(cleaned), |Digrafos|));
      CollapseChars(Rewrites(MarkDigraphs(Concat(cleaned), |Digrafos|)), '@', '-');
    }
  }

  // ---------------------------------------------------------------------------------------
  // syllable

  /** A token `syllable` treats as a letter: its lower-case form is a substring of `LETRAS`. */
  predicate IsLetter(token: string)
  {
    CharInSet(Lower(token), Letras)
  }

  /** A token the merge copies from the syllabified word: a separator or a hyphen. */
  predicate IsMark(token: string)
  {
    token == "@" || token == "-"
  }

  /** The letter tokens among the first `m`, in order. */
  function LettersUpTo(tokens: seq<string>, m: nat): (r: seq<string>)
    requires m <= |tokens|
    ensures forall k :: 0 <= k < |r| ==> IsLetter(r[k])
  {
    if m == 0 then []
    else LettersUpTo(tokens, m - 1) + (if IsLetter(tokens[m - 1]) then [tokens[m - 1]] else [])
  }

  /** The marks among `syl[c..m]`, in order. */
  function MarksBetween(syl: seq<string>, c: nat, m: nat): (r: seq<string>)
    requires c <= m <= |syl|
    ensures forall k :: 0 <= k < |r| ==> IsMark(r[k])
    decreases m - c
  {
    if m == c then []
    else MarksBetween(syl, c, m - 1) + (if IsMark(syl[m - 1]) then [syl[m - 1]] else [])
  }

  /** The first index from `c` on that does not hold a mark. */
  function SkipMarks(syl: seq<string>, c: nat): (e: nat)
    requires c <= |syl|
    ensures c <= e <= |syl|
    ensures e < |syl| ==> !IsMark(syl[e])
    ensures forall k :: c <= k < e ==> IsMark(syl[k])
    decreases |syl| - c
  {
    if c < |syl| && IsMark(syl[c]) then SkipMarks(syl, c + 1) else c
  }

  /** The cursor after a letter: past the syllabified token if it is the same letter up to
      case, else where it was. */
  function AfterMatch(syl: seq<string>, e: nat, original: string): (n: nat)
    requires e <= |syl|
    ensures n <= |syl|
  {
    if e < |syl| && Lower(syl[e]) == Lower(original) then e + 1 else e
  }

  /** The merge of `syllable` from original token `j` and cursor `c` on: before each letter
      the marks at the cursor are copied, every original token is copied once, and the
      marks left over at the end are appended. */
  function Merge(orig: seq<string>, j: nat, syl: seq<string>, c: nat): seq<string>
    requires j <= |orig| && c <= |syl|
    decreases |orig| - j
  {
    if j == |orig| then MarksBetween(syl, c, |syl|)
    else if IsLetter(orig[j]) then
      var e := SkipMarks(syl, c);
      syl[c..e] + [orig[j]] + Merge(orig, j + 1, syl, AfterMatch(syl, e, orig[j]))
    else [orig[j]] + Merge(orig, j + 1, syl, c)
  }

  /** What `syllable` returns. */
  function SyllableSpec(word: string): string
  {
    var originalChars := TokensFrom(word, 0);
    var letterChars := LettersUpTo(originalChars, |originalChars|);
    if letterChars == [] then word
    else
      var syl := TokensFrom(SyllabifyLettersSpec(Concat(letterChars)), 0);
      CollapseRuns(Replace(Concat(Merge(originalChars, 0, syl, 0)), "-", "-@"), '@')
  }

  /** `syllable`. */
  method Syllable(word: string) returns (result: string)
    ensures result == SyllableSpec(word)
  {
    var originalChars := TextToChars(word);
    var letterChars: seq<string> := [];
    var j := 0;
    while j < |originalChars|
      invariant j <= |originalChars|
      invariant letterChars == LettersUpTo(originalChars, j)
    {
      if CharInSet(Lower(originalChars[j]), Letras) {
        letterChars := letterChars + [originalChars[j]];
      }
      j := j + 1;
    }
    if |letterChars| == 0 {
      return word;
    }
    var letterWord := Concat(letterChars);
    var syllabifiedLetterWord := SyllabifyLetters(letterWord);
    var syllabifiedLetterChars := TextToChars(syllabifiedLetterWord);
    var finalChars := MergeChars(originalChars, syllabifiedLetterChars);
    result := Concat(finalChars);
    result := Replace(result, "-", "-@");
    result := CollapseRuns(result, '@');
  }

  /** The cursor loops of `syllable`. */
  method MergeChars(orig: seq<string>, syl: seq<string>) returns (finalChars: seq<string>)
    ensures finalChars == Merge(orig, 0, syl, 0)
  {
    ghost var target := Merge(orig, 0, syl, 0);
    finalChars := [];
    var cursor: nat := 0;
    var j := 0;
    while j < |orig|
      invariant j <= |orig| && cursor <= |syl|
      invariant finalChars + Merge(orig, j, syl, cursor) == target
    {
      var originalChar := orig[j];
      ghost var before, c0 := finalChars, cursor;
      if CharInSet(Lower(originalChar), Letras) {
        finalChars, cursor := PushMarks(syl, cursor, finalChars);
        finalChars := finalChars + [originalChar];
        if cursor < |syl| && Lower(syl[cursor]) == Lower(originalChar) {
          cursor := cursor + 1;
        }
        MergeLetter(orig, j, syl, c0, before, target);
      } else {
        finalChars := finalChars + [originalChar];
        MergeOther(orig, j, syl, c0, before, target);
      }
      j := j + 1;
    }
    MergeEnd(orig, syl, cursor, finalChars, target);
    finalChars := PushTail(syl, cursor, finalChars);
  }

  lemma MergeEnd(orig: seq<string>, syl: seq<string>, cursor: nat, finalChars: seq<string>, target: seq<string>)
    requires cursor <= |syl|
    requires finalChars + Merge(orig, |orig|, syl, cursor) == target
    ensures finalChars + MarksBetween(syl, cursor, |syl|) == target
  {
  }

  /** The last loop of the merge: the marks after the cursor are appended. */
  method PushTail(syl: seq<string>, c0: nat, chars: seq<string>) returns (finalChars: seq<string>)
    requires c0 <= |syl|
    ensures finalChars == chars + MarksBetween(syl, c0, |syl|)
  {
    finalChars := chars;
    var cursor := c0;
    while cursor < |syl|
      invariant c0 <= cursor <= |syl|
      invariant finalChars == chars + MarksBetween(syl, c0, cursor)
    {
      var token := syl[cursor];
      if token == "@" || token == "-" {
        finalChars := finalChars + [token];
      }
      PushTailStep(chars, syl, c0, cursor);
      cursor := cursor + 1;
    }
  }

  /** The inner loop of the merge: the marks at the cursor are copied. */
  method PushMarks(syl: seq<string>, c0: nat, chars: seq<string>) returns (finalChars: seq<string>, cursor: nat)
    requires c0 <= |syl|
    ensures cursor == SkipMarks(syl, c0)
    ensures finalChars == chars + syl[c0..cursor]
  {
    finalChars, cursor := chars, c0;
    while cursor < |syl| && (syl[cursor] == "@" || syl[cursor] == "-")
      invariant c0 <= cursor <= |syl|
      invariant SkipMarks(syl, cursor) == SkipMarks(syl, c0)
      invariant finalChars == chars + syl[c0..cursor]
    {
      PushMarkStep(chars, syl, c0, cursor);
      finalChars := finalChars + [syl[cursor]];
      cursor := cursor + 1;
    }
  }

  lemma PushMarkStep(chars: seq<string>, syl: seq<string>, c0: nat, cursor: nat)
    requires c0 <= cursor < |syl|
    ensures (chars + syl[c0..cursor]) + [syl[cursor]] == chars + syl[c0..cursor + 1]
  {
    Extend(chars, syl, c0, cursor);
  }

  lemma Extend<T>(chars: seq<T>, syl: seq<T>, c0: nat, cursor: nat)
    requires c0 <= cursor < |syl|
    ensures (chars + syl[c0..cursor]) + [syl[cursor]] == chars + syl[c0..cursor + 1]
  {
    assert syl[c0..cursor] + [syl[cursor]] == syl[c0..cursor + 1];
  }

  lemma PushTailStep(before: seq<string>, syl: seq<string>, c0: nat, cursor: nat)
    requires c0 <= cursor < |syl|
    ensures before + MarksBetween(syl, c0, cursor + 1) ==
      (before + MarksBetween(syl, c0, cursor)) + (if IsMark(syl[cursor]) then [syl[cursor]] else [])
  {
  }

  /** A letter step of the merge keeps its invariant. */
  lemma MergeLetter(orig: seq<string>, j: nat, syl: seq<string>, c0: nat, before: seq<string>, target: seq<string>)
    requires j < |orig| && c0 <= |syl|
    requires IsLetter(orig[j])
    requires before + Merge(orig, j, syl, c0) == target
    ensures var e := SkipMarks(syl, c0);
      (before + syl[c0..e] + [orig[j]]) + Merge(orig, j + 1, syl, AfterMatch(syl, e, orig[j])) == target
  {
    var e := SkipMarks(syl, c0);
    Assoc(before, syl[c0..e] + [orig[j]], Merge(orig, j + 1, syl, AfterMatch(syl, e, orig[j])));
  }

  /** A non-letter step of the merge keeps its invariant. */
  lemma MergeOther(orig: seq<string>, j: nat, syl: seq<string>, c0: nat, before: seq<string>, target: seq<string>)
    requires j < |orig| && c0 <= |syl|
    requires !IsLetter(orig[j])
    requires before + Merge(orig, j, syl, c0) == target
    ensures (before + [orig[j]]) + Merge(orig, j + 1, syl, c0) == target
  {
    Assoc(before, [orig[j]], Merge(orig, j + 1, syl, c0));
  }

  lemma Assoc<T>(a: seq<T>, b: seq<T>, c: seq<T>)
    ensures (a + b) + c == a + (b + c)
  {
  }

  // ---------------------------------------------------------------------------------------
  // Facts about syllable

  /** A word none of whose characters is a letter comes back unchanged: its tokens are
      single non-letters or digraphs, and no digraph counts as a letter. */
  lemma SyllableNoLetters(word: string)
    requires forall k :: 0 <= k < |word| ==> LowerChar(word[k]) !in Letras
    ensures SyllableSpec(word) == word
  {
    var tokens := TokensFrom(word, 0);
    TokensNotLetters(word, 0);
    LettersNone(tokens, |tokens|);
  }

  lemma {:induction false} TokensNotLetters(text: string, i: nat)
    requires i <= |text|
    requires forall k :: 0 <= k < |text| ==> LowerChar(text[k]) !in Letras
    ensures forall k :: 0 <= k < |TokensFrom(text, i)| ==> !IsLetter(TokensFrom(text, i)[k])
    decreases |text| - i
  {
    if i < |text| {
      TokensNotLetters(text, i + TokenLen(text, i));
      var t := TokenAt(text, i);
      DigraphToken(text, i);
      if TokenLen(text, i) == 2 {
        DigraphNotLetter(t);
      } else {
        assert t == [text[i]];
        assert Lower(t) == [LowerChar(text[i])];
        IncludesChar(Letras, LowerChar(text[i]));
      }
      assert TokensFrom(text, i) == [t] + TokensFrom(text, i + TokenLen(text, i));
    }
  }

  lemma {:induction false} LettersNone(tokens: seq<string>, m: nat)
    requires m <= |tokens|
    requires forall k :: 0 <= k < |tokens| ==> !IsLetter(tokens[k])
    ensures LettersUpTo(tokens, m) == []
  {
    if m > 0 {
      LettersNone(tokens, m - 1);
      assert !IsLetter(tokens[m - 1]);
    }
  }

  /** When the word has a letter, the result has no two `@` in a row; otherwise it is the
      word itself. */
  lemma SyllableSpaced(word: string)
    ensures var tokens := TokensFrom(word, 0);
      if LettersUpTo(tokens, |tokens|) == [] then SyllableSpec(word) == word
      else NoPair(SyllableSpec(word), '@')
  {
    var originalChars := TokensFrom(word, 0);
    var letterChars := LettersUpTo(originalChars, |originalChars|);
    if letterChars != [] {
      var syl := TokensFrom(SyllabifyLettersSpec(Concat(letterChars)), 0);
      CollapseNoPair(Replace(Concat(Merge(originalChars, 0, syl, 0)), "-", "-@"), '@');
    }
  }

  /** The separators are the only thing `syllable` adds: for a word without `@`, deleting
      every `@` from the result gives the word back. */
  lemma SyllableKeepsWord(word: string)
    requires '@' !in word
    ensures Remove(SyllableSpec(word), '@') == word
  {
    var originalChars := TokensFrom(word, 0);
    var letterChars := LettersUpTo(originalChars, |originalChars|);
    TokensConcat(word, 0);
    assert word[0..] == word;
    RemoveAbsent(word, '@');
    if letterChars != [] {
      var letterWord := Concat(letterChars);
      LettersLack(originalChars, |originalChars|);
      ConcatLacks(letterChars, '-');
      SyllabifyLettersNoDash(letterWord);
      var syllabified := SyllabifyLettersSpec(letterWord);
      var syl := TokensFrom(syllabified, 0);
      TokensLack(syllabified, 0, '-');
      var merged := Concat(Merge(originalChars, 0, syl, 0));
      MergeRemove(originalChars, 0, syl, 0);
      assert originalChars[0..] == originalChars;
      ReplaceRemove(merged, "-", "-@", '@');
      CollapseRemove(Replace(merged, "-", "-@"), '@');
    }
  }

  lemma NoDashLetter()
    ensures '-' !in Letras
  {
    assert '-' !in VogaisFracas && '-' !in VogaisFortes;
    assert '-' !in ConsoantesFortes;
  }

  lemma LetterNoDash(t: string)
    requires IsLetter(t)
    ensures '-' !in t
  {
    if '-' in t {
      var k :| 0 <= k < |t| && t[k] == '-';
      assert Lower(t)[k] == '-';
      NoDashLetter();
      IncludesChars(Letras, Lower(t), '-');
    }
  }

  lemma {:induction false} LettersLack(tokens: seq<string>, m: nat)
    requires m <= |tokens|
    ensures Lacks(LettersUpTo(tokens, m), '-')
  {
    var r := LettersUpTo(tokens, m);
    forall k | 0 <= k < |r|
      ensures '-' !in r[k]
    {
      LetterNoDash(r[k]);
    }
  }

  /** A run of marks without hyphens is a run of separators, which deleting `@` removes. */
  lemma {:induction false} SeparatorsRemoved(xs: seq<string>)
    requires forall k :: 0 <= k < |xs| ==> xs[k] == "@"
    ensures Remove(Concat(xs), '@') == ""
  {
    if xs != [] {
      SeparatorsRemoved(xs[1..]);
      RemoveSplit(xs[0], Concat(xs[1..]), '@');
      assert xs[0] == "@";
    }
  }

  lemma {:induction false} MarksAreSeparators(syl: seq<string>, c: nat, m: nat)
    requires c <= m <= |syl|
    requires Lacks(syl, '-')
    ensures forall k :: 0 <= k < |MarksBetween(syl, c, m)| ==> MarksBetween(syl, c, m)[k] == "@"
    decreases m - c
  {
    if m > c {
      MarksAreSeparators(syl, c, m - 1);
      if IsMark(syl[m - 1]) {
        assert '-' !in syl[m - 1];
        assert syl[m - 1] != "-";
      }
    }
  }

  /** Deleting `@` from the merge gives the original tokens back, when the syllabified word
      has no hyphen. */
  lemma {:induction false} MergeRemove(orig: seq<string>, j: nat, syl: seq<string>, c: nat)
    requires j <= |orig| && c <= |syl|
    requires Lacks(syl, '-')
    ensures Remove(Concat(Merge(orig, j, syl, c)), '@') == Remove(Concat(orig[j..]), '@')
    decreases |orig| - j
  {
    if j == |orig| {
      MarksAreSeparators(syl, c, |syl|);
      SeparatorsRemoved(MarksBetween(syl, c, |syl|));
      assert orig[j..] == [];
    } else {
      var o := orig[j];
      assert Concat(orig[j..]) == o + Concat(orig[j + 1..]) by {
        assert orig[j..][1..] == orig[j + 1..];
      }
      RemoveSplit(o, Concat(orig[j + 1..]), '@');
      if IsLetter(o) {
        var e := SkipMarks(syl, c);
        var n := AfterMatch(syl, e, o);
        MergeRemove(orig, j + 1, syl, n);
        forall k | 0 <= k < |syl[c..e]|
          ensures syl[c..e][k] == "@"
        {
          assert IsMark(syl[c + k]) && '-' !in syl[c + k];
        }
        SeparatorsBefore(syl[c..e], o, Merge(orig, j + 1, syl, n));
      } else {
        MergeRemove(orig, j + 1, syl, c);
        SeparatorsBefore([], o, Merge(orig, j + 1, syl, c));
        assert [] + [o] == [o];
      }
    }
  }

  lemma SeparatorsBefore(marks: seq<string>, o: string, rest: seq<string>)
    requires forall k :: 0 <= k < |marks| ==> marks[k] == "@"
    ensures Remove(Concat(marks + [o] + rest), '@') == Remove(o, '@') + Remove(Concat(rest), '@')
  {
    var m := Concat(marks);
    var r := Concat(rest);
    assert Remove(m, '@') == "" by {
      SeparatorsRemoved(marks);
    }
    assert Concat(marks + [o] + rest) == m + o + r by {
      ConcatSplit(marks + [o], rest);
      ConcatAppend(marks, o);
    }
    RemoveAround(m, o, r, '@');
  }

  lemma RemoveAround(m: string, o: string, r: string, c: char)
    requires Remove(m, c) == ""
    ensures Remove(m + o + r, c) == Remove(o, c) + Remove(r, c)
  {
    RemoveSplit(m + o, r, c);
    RemoveSplit(m, o, c);
  }
}
