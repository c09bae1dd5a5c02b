/** The example words listed with their expected outputs after `syllabify_pt_br` in ai.py,
    evaluated on the model: each lemma states the full output for one word. The proofs go step
    by step through the stages of the syllabifier: lower-casing, the seven replacements, one
    scan step per syllable, joining and restoring. */
module PtBrExamples {
  import opened Strings
  import opened PtBrSyllabifier

  // ---------------------------------------------------------------------------------------
  // Stages evaluated on a given word

  /** The letter pairs of the replacement table (ai.py:21-24), spelled out. */
  predicate TablePair(a: char, b: char)
  {
    || (a == 'c' && b == 'h') || (a == 'l' && b == 'h') || (a == 'n' && b == 'h')
    || (a == 'g' && b == 'u') || (a == 'q' && b == 'u') || (a == 'r' && b == 'r') || (a == 's' && b == 's')
  }

  /** No two neighbouring characters of `w` form a table pair, except possibly those at `m`. */
  predicate PairOnlyAt(w: string, m: int)
  {
    forall j :: 0 <= j < |w| - 1 && j != m ==> !TablePair(w[j], w[j + 1])
  }

  lemma TableEntry(k: nat)
    requires k < 7
    ensures |Replacements[k].0| == 2 && TablePair(Replacements[k].0[0], Replacements[k].0[1])
    ensures Replacements[k].1 == (k + 1) as char
  {
    assert k == 0 || k == 1 || k == 2 || k == 3 || k == 4 || k == 5 || k == 6;
  }

  /** The table pairs are pairwise different. */
  lemma TableDistinct(k: nat, k': nat)
    requires k < 7 && k' < 7 && k != k'
    ensures Replacements[k].0 != Replacements[k'].0
  {
    assert k == 0 || k == 1 || k == 2 || k == 3 || k == 4 || k == 5 || k == 6;
    assert k' == 0 || k' == 1 || k' == 2 || k' == 3 || k' == 4 || k' == 5 || k' == 6;
  }

  /** A word that every character maps to itself when lower-cased. */
  lemma LowerFixed(w: string)
    requires forall k :: 0 <= k < |w| ==> LowerChar(w[k]) == w[k]
    ensures Lower(w) == w
  {
  }

  /** A word without table pairs passes the replacements unchanged. */
  lemma {:induction false} NormalizeNoPair(w: string, k: nat)
    requires k <= 7 && PairOnlyAt(w, -1)
    ensures NormalizeUpTo(w, k) == w
  {
    if k > 0 {
      NormalizeNoPair(w, k - 1);
      TableEntry(k - 1);
      ReplaceNoPair(w, Replacements[k - 1].0, [Replacements[k - 1].1]);
    }
  }

  /** A word whose only table pair is entry `kp`, right after `x`: the pair turns into its
      token at replacement `kp` and nothing else changes. */
  lemma {:induction false} NormalizeOnePair(x: string, y: string, kp: nat, k: nat)
    requires kp < 7 && k <= 7
    requires PairOnlyAt(x + Replacements[kp].0 + y, |x|)
    ensures NormalizeUpTo(x + Replacements[kp].0 + y, k)
         == if k <= kp then x + Replacements[kp].0 + y else x + [Replacements[kp].1] + y
  {
    var p, t := Replacements[kp].0, Replacements[kp].1;
    var w := x + p + y;
    TableEntry(kp);
    if k > 0 {
      NormalizeOnePair(x, y, kp, k - 1);
      var p', t' := Replacements[k - 1].0, Replacements[k - 1].1;
      TableEntry(k - 1);
      if k - 1 < kp {
        TableDistinct(k - 1, kp);
        PairElsewhere(x, y, p, p');
        ReplaceNoPair(w, p', [t']);
      } else if k - 1 == kp {
        PairFirstIn(x, y, p);
        ReplacePairFirst(x, y, p, [t]);
        PairAfter(x, y, p);
        ReplaceNoPair(y, p, [t]);
      } else {
        TokenBreaks(x, y, p, t, p');
        ReplaceNoPair(x + [t] + y, p', [t']);
      }
    }
  }

  lemma PairElsewhere(x: string, y: string, p: string, p': string)
    requires |p| == 2 && |p'| == 2 && p != p'
    requires PairOnlyAt(x + p + y, |x|) && TablePair(p'[0], p'[1])
    ensures var w := x + p + y; forall j :: 0 <= j < |w| - 1 ==> !(w[j] == p'[0] && w[j + 1] == p'[1])
  {
    var w := x + p + y;
    assert w[|x|] == p[0] && w[|x| + 1] == p[1];
  }

  lemma PairFirstIn(x: string, y: string, p: string)
    requires |p| == 2 && TablePair(p[0], p[1]) && PairOnlyAt(x + p + y, |x|)
    ensures forall j :: 0 <= j < |x| ==> !((x + p)[j] == p[0] && (x + p)[j + 1] == p[1])
  {
    var w := x + p + y;
    forall j | 0 <= j < |x|
      ensures !((x + p)[j] == p[0] && (x + p)[j + 1] == p[1])
    {
      assert (x + p)[j] == w[j] && (x + p)[j + 1] == w[j + 1];
    }
  }

  lemma PairAfter(x: string, y: string, p: string)
    requires |p| == 2 && TablePair(p[0], p[1]) && PairOnlyAt(x + p + y, |x|)
    ensures forall j :: 0 <= j < |y| - 1 ==> !(y[j] == p[0] && y[j + 1] == p[1])
  {
    var w := x + p + y;
    forall j | 0 <= j < |y| - 1
      ensures !(y[j] == p[0] && y[j + 1] == p[1])
    {
      assert y[j] == w[|x| + 2 + j] && y[j + 1] == w[|x| + 3 + j];
    }
  }

  /** Once a pair is a token, no table pair runs across it. */
  lemma TokenBreaks(x: string, y: string, p: string, t: char, p': string)
    requires |p| == 2 && |p'| == 2 && TablePair(p'[0], p'[1]) && IsToken(t)
    requires PairOnlyAt(x + p + y, |x|)
    ensures var v := x + [t] + y; forall j :: 0 <= j < |v| - 1 ==> !(v[j] == p'[0] && v[j + 1] == p'[1])
  {
    var w, v := x + p + y, x + [t] + y;
    forall j | 0 <= j < |v| - 1
      ensures !(v[j] == p'[0] && v[j + 1] == p'[1])
    {
      if j < |x| - 1 {
        assert v[j] == w[j] && v[j + 1] == w[j + 1];
      } else if j > |x| {
        assert v[j] == w[j + 1] && v[j + 1] == w[j + 2];
      }
    }
  }

  /** The scan step from `i` when its onset ends at `o` and its nucleus at `n`. */
  lemma StepAt(w: string, i: nat, o: nat, n: nat)
    requires i <= o <= n <= |w| && i < |w|
    requires forall k :: i <= k < o ==> !IsVowel(w[k])
    requires o < |w| ==> IsVowel(w[o])
    requires forall k :: o <= k < n ==> IsVowel(w[k])
    requires n < |w| ==> !IsVowel(w[n])
    ensures ScanStep(w, i) == if n == |w| then Step(w[i..], |w|) else Step(w[i..n] + Coda(w, n).0, Coda(w, n).1)
  {
    OnsetEndIs(w, i, o);
    NucleusEndIs(w, o, n);
  }

  lemma SplitIs(w: string, i: nat, syllable: string, next: nat, rest: seq<string>)
    requires i < |w| && ScanStep(w, i) == Step(syllable, next) && Split(w, next) == rest
    ensures Split(w, i) == [syllable] + rest
  {
  }

  /** The output is the restored join of the scanned syllables. */
  lemma FromParts(word: string, w: string, syllables: seq<string>)
    requires word != [] && Normalize(Lower(word)) == w && Split(w, 0) == syllables
    ensures SyllabifyPtBrSpec(word) == RestoreUpTo(Join("-", syllables), 7)
  {
    SplitNonEmpty(w, 0);
    FilterNonEmptyKeeps(syllables);
  }

  /** The restorations leave a text without tokens unchanged. */
  lemma {:induction false} RestoreNoToken(s: string, k: nat)
    requires k <= 7
    requires forall j :: 0 <= j < |s| ==> !IsToken(s[j])
    ensures RestoreUpTo(s, k) == s
  {
    if k > 0 {
      RestoreNoToken(s, k - 1);
      TableEntry(k - 1);
      ReplaceAbsentFirst(s, [Replacements[k - 1].1], RestoreText(k - 1));
    }
  }

  /** The restorations expand the one token of a text and keep the rest. */
  lemma RestoreOneToken(x: string, t: char, y: string)
    requires forall j :: 0 <= j < |x| ==> !IsToken(x[j])
    requires forall j :: 0 <= j < |y| ==> !IsToken(y[j])
    ensures RestoreUpTo(x + [t] + y, 7) == x + RestoreChar(t) + y
  {
    var a := x + [t];
    assert Restore(a) == x + RestoreChar(t) by {
      RestoreSplit(x, [t]);
      assert Restore([t]) == RestoreChar(t) + Restore([t][1..]);
      assert [t][1..] == [];
      RestorePlain(x);
    }
    assert Restore(a + y) == Restore(a) + y by {
      RestoreSplit(a, y);
      RestorePlain(y);
    }
    RestoreAllTokens(a + y);
  }

  // ---------------------------------------------------------------------------------------
  // devagar -> de-va-gar

  lemma DevagarLower()
    ensures Lower("devagar") == "devagar"
  {
    LowerFixed("devagar");
  }

  lemma DevagarNormal()
    ensures Normalize("devagar") == "devagar"
  {
    NormalizeNoPair("devagar", 7);
  }

  lemma DevagarScan()
    ensures Split("devagar", 0) == ["de", "va", "gar"]
  {
    var w := "devagar";
    StepAt(w, 4, 5, 6);
    SplitIs(w, 4, "gar", 7, []);
    StepAt(w, 2, 3, 4);
    SplitIs(w, 2, "va", 4, ["gar"]);
    StepAt(w, 0, 1, 2);
    SplitIs(w, 0, "de", 2, ["va", "gar"]);
  }

  lemma DevagarJoin()
    ensures Join("-", ["de", "va", "gar"]) == "de-va-gar"
  {
  }

  lemma DevagarRestore()
    ensures RestoreUpTo("de-va-gar", 7) == "de-va-gar"
  {
    RestoreNoToken("de-va-gar", 7);
  }

  lemma Devagar()
    ensures SyllabifyPtBrSpec("devagar") == "de-va-gar"
  {
    DevagarLower();
    DevagarNormal();
    DevagarScan();
    DevagarJoin();
    DevagarRestore();
    FromParts("devagar", "devagar", ["de", "va", "gar"]);
  }

  // ---------------------------------------------------------------------------------------
  // sublime -> su-bli-me

  lemma SublimeLower()
    ensures Lower("sublime") == "sublime"
  {
    LowerFixed("sublime");
  }

  lemma SublimeNormal()
    ensures Normalize("sublime") == "sublime"
  {
    NormalizeNoPair("sublime", 7);
  }

  lemma SublimeScan()
    ensures Split("sublime", 0) == ["su", "bli", "me"]
  {
    var w := "sublime";
    StepAt(w, 5, 6, 7);
    SplitIs(w, 5, "me", 7, []);
    StepAt(w, 2, 4, 5);
    SplitIs(w, 2, "bli", 5, ["me"]);
    StepAt(w, 0, 1, 2);
    SplitIs(w, 0, "su", 2, ["bli", "me"]);
  }

  lemma SublimeJoin()
    ensures Join("-", ["su", "bli", "me"]) == "su-bli-me"
  {
  }

  lemma SublimeRestore()
    ensures RestoreUpTo("su-bli-me", 7) == "su-bli-me"
  {
    RestoreNoToken("su-bli-me", 7);
  }

  lemma Sublime()
    ensures SyllabifyPtBrSpec("sublime") == "su-bli-me"
  {
    SublimeLower();
    SublimeNormal();
    SublimeScan();
    SublimeJoin();
    SublimeRestore();
    FromParts("sublime", "sublime", ["su", "bli", "me"]);
  }

  // ---------------------------------------------------------------------------------------
  // plano -> pla-no

  lemma PlanoLower()
    ensures Lower("plano") == "plano"
  {
    LowerFixed("plano");
  }

  lemma PlanoNormal()
    ensures Normalize("plano") == "plano"
  {
    NormalizeNoPair("plano", 7);
  }

  lemma PlanoScan()
    ensures Split("plano", 0) == ["pla", "no"]
  {
    var w := "plano";
    StepAt(w, 3, 4, 5);
    SplitIs(w, 3, "no", 5, []);
    StepAt(w, 0, 2, 3);
    SplitIs(w, 0, "pla", 3, ["no"]);
  }

  lemma PlanoJoin()
    ensures Join("-", ["pla", "no"]) == "pla-no"
  {
  }

  lemma PlanoRestore()
    ensures RestoreUpTo("pla-no", 7) == "pla-no"
  {
    RestoreNoToken("pla-no", 7);
  }

  lemma Plano()
    ensures SyllabifyPtBrSpec("plano") == "pla-no"
  {
    PlanoLower();
    PlanoNormal();
    PlanoScan();
    PlanoJoin();
    PlanoRestore();
    FromParts("plano", "plano", ["pla", "no"]);
  }

  // ---------------------------------------------------------------------------------------
  // psicólogo -> psi-có-lo-go

  lemma PsicologoLower()
    ensures Lower("psicólogo") == "psicólogo"
  {
    LowerFixed("psicólogo");
  }

  lemma PsicologoNormal()
    ensures Normalize("psicólogo") == "psicólogo"
  {
    NormalizeNoPair("psicólogo", 7);
  }

  lemma PsicologoScan()
    ensures Split("psicólogo", 0) == ["psi", "có", "lo", "go"]
  {
    var w := "psicólogo";
    StepAt(w, 7, 8, 9);
    SplitIs(w, 7, "go", 9, []);
    StepAt(w, 5, 6, 7);
    SplitIs(w, 5, "lo", 7, ["go"]);
    StepAt(w, 3, 4, 5);
    SplitIs(w, 3, "có", 5, ["lo", "go"]);
    StepAt(w, 0, 2, 3);
    SplitIs(w, 0, "psi", 3, ["có", "lo", "go"]);
  }

  lemma PsicologoJoin()
    ensures Join("-", ["psi", "có", "lo", "go"]) == "psi-có-lo-go"
  {
  }

  lemma PsicologoRestore()
    ensures RestoreUpTo("psi-có-lo-go", 7) == "psi-có-lo-go"
  {
    RestoreNoToken("psi-có-lo-go", 7);
  }

  lemma Psicologo()
    ensures SyllabifyPtBrSpec("psicólogo") == "psi-có-lo-go"
  {
    PsicologoLower();
    PsicologoNormal();
    PsicologoScan();
    PsicologoJoin();
    PsicologoRestore();
    FromParts("psicólogo", "psicólogo", ["psi", "có", "lo", "go"]);
  }

  // ---------------------------------------------------------------------------------------
  // ninho -> ni-nho

  lemma NinhoLower()
    ensures Lower("ninho") == "ninho"
  {
    LowerFixed("ninho");
  }

  lemma NinhoNormal()
    ensures Normalize("ninho") == "ni" + [NH] + "o"
  {
    assert "ninho" == "ni" + Replacements[2].0 + "o";
    NormalizeOnePair("ni", "o", 2, 7);
  }

  lemma NinhoScan()
    ensures Split("ni" + [NH] + "o", 0) == ["ni", [NH] + "o"]
  {
    var w := "ni" + [NH] + "o";
    StepAt(w, 2, 3, 4);
    SplitIs(w, 2, [NH] + "o", 4, []);
    StepAt(w, 0, 1, 2);
    SplitIs(w, 0, "ni", 2, [[NH] + "o"]);
  }

  lemma NinhoJoin()
    ensures Join("-", ["ni", [NH] + "o"]) == "ni-" + [NH] + "o"
  {
  }

  lemma NinhoRestore()
    ensures RestoreUpTo("ni-" + [NH] + "o", 7) == "ni-nho"
  {
    RestoreOneToken("ni-", NH, "o");
  }

  lemma Ninho()
    ensures SyllabifyPtBrSpec("ninho") == "ni-nho"
  {
    NinhoLower();
    NinhoNormal();
    NinhoScan();
    NinhoJoin();
    NinhoRestore();
    FromParts("ninho", "ni" + [NH] + "o", ["ni", [NH] + "o"]);
  }

  // ---------------------------------------------------------------------------------------
  // palha -> pa-lha

  lemma PalhaLower()
    ensures Lower("palha") == "palha"
  {
    LowerFixed("palha");
  }

  lemma PalhaNormal()
    ensures Normalize("palha") == "pa" + [LH] + "a"
  {
    assert "palha" == "pa" + Replacements[1].0 + "a";
    NormalizeOnePair("pa", "a", 1, 7);
  }

  lemma PalhaScan()
    ensures Split("pa" + [LH] + "a", 0) == ["pa", [LH] + "a"]
  {
    var w := "pa" + [LH] + "a";
    StepAt(w, 2, 3, 4);
    SplitIs(w, 2, [LH] + "a", 4, []);
    StepAt(w, 0, 1, 2);
    SplitIs(w, 0, "pa", 2, [[LH] + "a"]);
  }

  lemma PalhaJoin()
    ensures Join("-", ["pa", [LH] + "a"]) == "pa-" + [LH] + "a"
  {
  }

  lemma PalhaRestore()
    ensures RestoreUpTo("pa-" + [LH] + "a", 7) == "pa-lha"
  {
    RestoreOneToken("pa-", LH, "a");
  }

  lemma Palha()
    ensures SyllabifyPtBrSpec("palha") == "pa-lha"
  {
    PalhaLower();
    PalhaNormal();
    PalhaScan();
    PalhaJoin();
    PalhaRestore();
    FromParts("palha", "pa" + [LH] + "a", ["pa", [LH] + "a"]);
  }

  // ---------------------------------------------------------------------------------------
  // queijo -> quei-jo

  lemma QueijoLower()
    ensures Lower("queijo") == "queijo"
  {
    LowerFixed("queijo");
  }

  lemma QueijoNormal()
    ensures Normalize("queijo") == [QU] + "eijo"
  {
    assert "queijo" == "" + Replacements[4].0 + "eijo";
    NormalizeOnePair("", "eijo", 4, 7);
  }

  lemma QueijoScan()
    ensures Split([QU] + "eijo", 0) == [[QU] + "ei", "jo"]
  {
    var w := [QU] + "eijo";
    StepAt(w, 3, 4, 5);
    SplitIs(w, 3, "jo", 5, []);
    StepAt(w, 0, 1, 3);
    SplitIs(w, 0, [QU] + "ei", 3, ["jo"]);
  }

  lemma QueijoJoin()
    ensures Join("-", [[QU] + "ei", "jo"]) == [QU] + "ei-jo"
  {
  }

  lemma QueijoRestore()
    ensures RestoreUpTo([QU] + "ei-jo", 7) == "quei-jo"
  {
    assert [QU] + "ei-jo" == "" + [QU] + "ei-jo";
    RestoreOneToken("", QU, "ei-jo");
  }

  lemma Queijo()
    ensures SyllabifyPtBrSpec("queijo") == "quei-jo"
  {
    QueijoLower();
    QueijoNormal();
    QueijoScan();
    QueijoJoin();
    QueijoRestore();
    FromParts("queijo", [QU] + "eijo", [[QU] + "ei", "jo"]);
  }

  // ---------------------------------------------------------------------------------------
  // apto -> ap-to

  lemma AptoLower()
    ensures Lower("apto") == "apto"
  {
    LowerFixed("apto");
  }

  lemma AptoNormal()
    ensures Normalize("apto") == "apto"
  {
    NormalizeNoPair("apto", 7);
  }

  lemma AptoScan()
    ensures Split("apto", 0) == ["ap", "to"]
  {
    var w := "apto";
    StepAt(w, 2, 3, 4);
    SplitIs(w, 2, "to", 4, []);
    StepAt(w, 0, 0, 1);
    SplitIs(w, 0, "ap", 2, ["to"]);
  }

  lemma AptoJoin()
    ensures Join("-", ["ap", "to"]) == "ap-to"
  {
  }

  lemma AptoRestore()
    ensures RestoreUpTo("ap-to", 7) == "ap-to"
  {
    RestoreNoToken("ap-to", 7);
  }

  lemma Apto()
    ensures SyllabifyPtBrSpec("apto") == "ap-to"
  {
    AptoLower();
    AptoNormal();
    AptoScan();
    AptoJoin();
    AptoRestore();
    FromParts("apto", "apto", ["ap", "to"]);
  }

  // ---------------------------------------------------------------------------------------
  // atleta -> a-tle-ta

  lemma AtletaLower()
    ensures Lower("atleta") == "atleta"
  {
    LowerFixed("atleta");
  }

  lemma AtletaNormal()
    ensures Normalize("atleta") == "atleta"
  {
    NormalizeNoPair("atleta", 7);
  }

  lemma AtletaScan()
    ensures Split("atleta", 0) == ["a", "tle", "ta"]
  {
    var w := "atleta";
    StepAt(w, 4, 5, 6);
    SplitIs(w, 4, "ta", 6, []);
    StepAt(w, 1, 3, 4);
    SplitIs(w, 1, "tle", 4, ["ta"]);
    StepAt(w, 0, 0, 1);
    SplitIs(w, 0, "a", 1, ["tle", "ta"]);
  }

  lemma AtletaJoin()
    ensures Join("-", ["a", "tle", "ta"]) == "a-tle-ta"
  {
  }

  lemma AtletaRestore()
    ensures RestoreUpTo("a-tle-ta", 7) == "a-tle-ta"
  {
    RestoreNoToken("a-tle-ta", 7);
  }

  lemma Atleta()
    ensures SyllabifyPtBrSpec("atleta") == "a-tle-ta"
  {
    AtletaLower();
    AtletaNormal();
    AtletaScan();
    AtletaJoin();
    AtletaRestore();
    FromParts("atleta", "atleta", ["a", "tle", "ta"]);
  }

  // ---------------------------------------------------------------------------------------
  // carro -> car-o

  lemma CarroLower()
    ensures Lower("carro") == "carro"
  {
    LowerFixed("carro");
  }

  lemma CarroNormal()
    ensures Normalize("carro") == "ca" + [RR] + "o"
  {
    assert "carro" == "ca" + Replacements[5].0 + "o";
    NormalizeOnePair("ca", "o", 5, 7);
  }

  lemma CarroScan()
    ensures Split("ca" + [RR] + "o", 0) == ["car", "o"]
  {
    var w := "ca" + [RR] + "o";
    StepAt(w, 3, 3, 4);
    SplitIs(w, 3, "o", 4, []);
    StepAt(w, 0, 1, 2);
    SplitIs(w, 0, "car", 3, ["o"]);
  }

  lemma CarroJoin()
    ensures Join("-", ["car", "o"]) == "car-o"
  {
  }

  lemma CarroRestore()
    ensures RestoreUpTo("car-o", 7) == "car-o"
  {
    RestoreNoToken("car-o", 7);
  }

  lemma Carro()
    ensures SyllabifyPtBrSpec("carro") == "car-o"
  {
    CarroLower();
    CarroNormal();
    CarroScan();
    CarroJoin();
    CarroRestore();
    FromParts("carro", "ca" + [RR] + "o", ["car", "o"]);
  }

  // ---------------------------------------------------------------------------------------
  // carro -> car-ro once rr is kept as two letters

  /** The corrected output is the restored join of the syllables scanned from the word with
      only its digraphs replaced. */
  lemma CorrectedFromParts(word: string, w: string, syllables: seq<string>)
    requires word != [] && NormalizeUpTo(Lower(word), 5) == w && Split(w, 0) == syllables
    ensures SyllabifyPtBrCorrected(word) == RestoreUpTo(Join("-", syllables), 7)
  {
    SplitNonEmpty(w, 0);
    FilterNonEmptyKeeps(syllables);
  }

  lemma CarroCorrectedNormal()
    ensures NormalizeUpTo("carro", 5) == "carro"
  {
    assert "carro" == "ca" + Replacements[5].0 + "o";
    NormalizeOnePair("ca", "o", 5, 5);
  }

  lemma CarroCorrectedScan()
    ensures Split("carro", 0) == ["car", "ro"]
  {
    var w := "carro";
    StepAt(w, 3, 4, 5);
    SplitIs(w, 3, "ro", 5, []);
    StepAt(w, 0, 1, 2);
    SplitIs(w, 0, "car", 3, ["ro"]);
  }

  lemma CarroCorrectedJoin()
    ensures Join("-", ["car", "ro"]) == "car-ro"
  {
  }

  lemma CarroCorrectedRestore()
    ensures RestoreUpTo("car-ro", 7) == "car-ro"
  {
    RestoreNoToken("car-ro", 7);
  }

  /** With rr kept, "carro" is split between its two r's, as ai.py:107 expects. */
  lemma CarroCorrected()
    ensures SyllabifyPtBrCorrected("carro") == "car-ro"
  {
    CarroLower();
    CarroCorrectedNormal();
    CarroCorrectedScan();
    CarroCorrectedJoin();
    CarroCorrectedRestore();
    CorrectedFromParts("carro", "carro", ["car", "ro"]);
  }
}
