/** The regular-expression rewrites of syllable.ts, written out. Every pattern used there is
    a fixed-width sequence of character classes, so a global `replace` is a left-to-right scan
    that rewrites the leftmost matching window, resumes after it, and never rescans its own
    output. A capture group is a single matched character, named by its position in the window. */
module Rewrite {
  import opened Strings

  /** A piece of a replacement text: a literal character, or the character matched at a
      window position (`$1`, `$2`, ... of the source, renumbered from 0 by position). */
  datatype Piece = Lit(c: char) | Group(k: nat)

  /** The window matches a pattern of character classes, one class per position. */
  predicate WindowMatches(s: string, at: nat, slots: seq<string>)
  {
    at + |slots| <= |s| && forall k :: 0 <= k < |slots| ==> s[at + k] in slots[k]
  }

  /** The replacement text for a matched window. */
  function Fill(tmpl: seq<Piece>, window: string): string
  {
    if tmpl == [] then []
    else
      (match tmpl[0]
       case Lit(c) => [c]
       case Group(k) => if k < |window| then [window[k]] else [])
      + Fill(tmpl[1..], window)
  }

  /** `s.replace(/slots/g, tmpl)`. */
  function RewriteAll(s: string, slots: seq<string>, tmpl: seq<Piece>): string
    requires |slots| > 0
    decreases |s|
  {
    if |s| < |slots| then s
    else if WindowMatches(s, 0, slots) then Fill(tmpl, s[..|slots|]) + RewriteAll(s[|slots|..], slots, tmpl)
    else [s[0]] + RewriteAll(s[1..], slots, tmpl)
  }

  /** `s.replace(/slots$/, tmpl)`: only a window that ends the string can match. */
  function RewriteAtEnd(s: string, slots: seq<string>, tmpl: seq<Piece>): (r: string)
    ensures |s| < |slots| ==> r == s
    ensures r == s || (|slots| <= |s| && WindowMatches(s, |s| - |slots|, slots))
  {
    if |s| >= |slots| && WindowMatches(s, |s| - |slots|, slots) then
      s[..|s| - |slots|] + Fill(tmpl, s[|s| - |slots|..])
    else s
  }

  /** `s.replace(/c+/g, c)`: every run of `c` written once. */
  function CollapseRuns(s: string, c: char): (r: string)
    ensures (r == []) == (s == [])
    ensures s != [] ==> r[0] == s[0]
  {
    if s == [] then []
    else if s[0] == c && |s| > 1 && s[1] == c then CollapseRuns(s[1..], c)
    else [s[0]] + CollapseRuns(s[1..], c)
  }

  /** `s.replace(/^c/g, "")`. */
  function DropLeading(s: string, c: char): (r: string)
    ensures s != [] && s[0] == c ==> r == s[1..]
    ensures s == [] || s[0] != c ==> r == s
  {
    if s != [] && s[0] == c then s[1..] else s
  }

  /** No two `c` in a row. */
  predicate NoPair(s: string, c: char)
  {
    forall k :: 0 <= k < |s| - 1 ==> !(s[k] == c && s[k + 1] == c)
  }

  /** The template pieces never write `c` as a literal. */
  predicate NoLiteral(tmpl: seq<Piece>, c: char)
  {
    forall k :: 0 <= k < |tmpl| ==> tmpl[k] != Lit(c)
  }

  // ---------------------------------------------------------------------------------------
  // Facts

  lemma {:induction false} FillChars(tmpl: seq<Piece>, window: string, c: char)
    requires NoLiteral(tmpl, c)
    requires c !in window
    ensures c !in Fill(tmpl, window)
  {
    if tmpl != [] {
      assert tmpl[0] != Lit(c);
      assert NoLiteral(tmpl[1..], c) by {
        forall k | 0 <= k < |tmpl[1..]|
          ensures tmpl[1..][k] != Lit(c)
        {
          assert tmpl[1..][k] == tmpl[k + 1];
        }
      }
      FillChars(tmpl[1..], window, c);
    }
  }

  /** A rewrite introduces no character that is neither in its input nor a template literal. */
  lemma {:induction false} RewriteAllChars(s: string, slots: seq<string>, tmpl: seq<Piece>, c: char)
    requires |slots| > 0
    requires NoLiteral(tmpl, c)
    requires c !in s
    ensures c !in RewriteAll(s, slots, tmpl)
    decreases |s|
  {
    if |s| < |slots| {
    } else if WindowMatches(s, 0, slots) {
      assert c !in s[..|slots|] && c !in s[|slots|..] by {
        SliceAbsent(s, 0, |slots|, c);
        SliceAbsent(s, |slots|, |s|, c);
        assert s[0..|slots|] == s[..|slots|];
      }
      FillChars(tmpl, s[..|slots|], c);
      RewriteAllChars(s[|slots|..], slots, tmpl, c);
    } else {
      RewriteAllChars(s[1..], slots, tmpl, c);
    }
  }

  lemma RewriteAtEndChars(s: string, slots: seq<string>, tmpl: seq<Piece>, c: char)
    requires NoLiteral(tmpl, c)
    requires c !in s
    ensures c !in RewriteAtEnd(s, slots, tmpl)
  {
    if |s| >= |slots| && WindowMatches(s, |s| - |slots|, slots) {
      SliceAbsent(s, 0, |s| - |slots|, c);
      SliceAbsent(s, |s| - |slots|, |s|, c);
      assert s[0..|s| - |slots|] == s[..|s| - |slots|];
      FillChars(tmpl, s[|s| - |slots|..], c);
    }
  }

  lemma SliceAbsent(s: string, i: nat, j: nat, c: char)
    requires i <= j <= |s|
    requires c !in s
    ensures c !in s[i..j]
  {
    if c in s[i..j] {
      SliceChars(s, i, j, c);
    }
  }

  /** After collapsing, no two `c` stand in a row. */
  lemma {:induction false} CollapseNoPair(s: string, c: char)
    ensures NoPair(CollapseRuns(s, c), c)
  {
    if s != [] {
      CollapseNoPair(s[1..], c);
      var t := CollapseRuns(s[1..], c);
      if !(s[0] == c && |s| > 1 && s[1] == c) {
        var r := [s[0]] + t;
        forall k | 0 <= k < |r| - 1
          ensures !(r[k] == c && r[k + 1] == c)
        {
          if k == 0 {
            if s[0] == c {
              assert |s| == 1 || s[1] != c;
              assert t != [] ==> t[0] == s[1];
            }
          } else {
            assert r[k] == t[k - 1] && r[k + 1] == t[k];
          }
        }
      }
    }
  }

  /** Collapsing removes only copies of `c`. */
  lemma {:induction false} CollapseRemove(s: string, c: char)
    ensures Remove(CollapseRuns(s, c), c) == Remove(s, c)
  {
    if s != [] {
      CollapseRemove(s[1..], c);
      if !(s[0] == c && |s| > 1 && s[1] == c) {
        RemoveSplit([s[0]], CollapseRuns(s[1..], c), c);
        assert [s[0]][1..] == [];
      }
    }
  }

  lemma {:induction false} CollapseChars(s: string, c: char, d: char)
    requires d !in s
    ensures d !in CollapseRuns(s, c)
  {
    if s != [] {
      CollapseChars(s[1..], c, d);
    }
  }

  /** Collapsing and then dropping a leading `c` leaves no run and no leading `c`. */
  lemma CollapseDrop(s: string, c: char)
    ensures NoPair(DropLeading(CollapseRuns(s, c), c), c)
    ensures var r := DropLeading(CollapseRuns(s, c), c); r == [] || r[0] != c
  {
    var t := CollapseRuns(s, c);
    CollapseNoPair(s, c);
    if t != [] && t[0] == c {
      var r := t[1..];
      forall k | 0 <= k < |r| - 1
        ensures !(r[k] == c && r[k + 1] == c)
      {
        assert r[k] == t[k + 1] && r[k + 1] == t[k + 2];
      }
      if r != [] {
        assert r[0] == t[1];
      }
    }
  }
}
