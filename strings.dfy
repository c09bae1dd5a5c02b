/** String operations shared by the syllabifiers, the tonic locators and the dictionary tools:
    literal replacement as Python's `str.replace` and JavaScript's global `replace` perform it,
    joining, character deletion, substring search as JavaScript's `includes`, and lower-casing. */
module Strings {

  /** Python `s.replace(p, q)`, and JavaScript `s.replace(/p/g, q)` for a pattern without
      metacharacters: the leftmost occurrence of `p` is replaced and the scan resumes after it,
      so occurrences never overlap and text produced by `q` is never rescanned. */
  function Replace(s: string, p: string, q: string): string
    requires |p| > 0
    decreases |s|
  {
    if |s| < |p| then s
    else if s[..|p|] == p then q + Replace(s[|p|..], p, q)
    else [s[0]] + Replace(s[1..], p, q)
  }

  /** `"".join(xs)` in Python, `xs.join("")` in JavaScript. */
  function Concat(xs: seq<string>): string
  {
    if xs == [] then "" else xs[0] + Concat(xs[1..])
  }

  /** `sep.join(xs)` in Python. */
  function Join(sep: string, xs: seq<string>): string
  {
    if |xs| == 0 then "" else if |xs| == 1 then xs[0] else xs[0] + sep + Join(sep, xs[1..])
  }

  /** `s` with every occurrence of `c` deleted. */
  function Remove(s: string, c: char): string
  {
    if s == [] then [] else (if s[0] == c then [] else [s[0]]) + Remove(s[1..], c)
  }

  /** `c in s`, written as a scan of `s` so that the verifier unfolds it only on demand. */
  predicate Among(c: char, s: string)
  {
    s != [] && (s[0] == c || Among(c, s[1..]))
  }

  /** JavaScript `hay.includes(needle)`: `needle` occurs in `hay` as a contiguous substring
      (the empty string occurs in every string). */
  predicate Includes(hay: string, needle: string)
  {
    exists i | 0 <= i <= |hay| - |needle| :: OccursAt(hay, needle, i)
  }

  /** `needle` occurs in `hay` starting at index `i`. */
  predicate OccursAt(hay: string, needle: string, i: int)
  {
    0 <= i && i + |needle| <= |hay| && hay[i..i + |needle|] == needle
  }

  /** Lower-casing of one character, as Python's `str.lower` and JavaScript's `toLowerCase`
      map it on ASCII, Latin-1 and the three tilde capitals of Portuguese outside Latin-1. */
  function LowerChar(c: char): char
  {
    if 'A' <= c <= 'Z' then (c as int + 32) as char
    else if '\U{C0}' <= c <= '\U{DE}' && c != '\U{D7}' then (c as int + 32) as char
    else if c == '\U{128}' then '\U{129}'      // Ĩ -> ĩ
    else if c == '\U{168}' then '\U{169}'      // Ũ -> ũ
    else if c == '\U{1EBC}' then '\U{1EBD}'    // Ẽ -> ẽ
    else c
  }

  /** Lower-casing of a string, one character at a time. */
  function Lower(s: string): (r: string)
    ensures |r| == |s|
    ensures forall k :: 0 <= k < |s| ==> r[k] == LowerChar(s[k])
  {
    if s == [] then [] else [LowerChar(s[0])] + Lower(s[1..])
  }

  // ---------------------------------------------------------------------------------------
  // Facts about these operations

  lemma {:induction false} ConcatAppend(xs: seq<string>, x: string)
    ensures Concat(xs + [x]) == Concat(xs) + x
  {
    if xs == [] {
      assert xs + [x] == [x];
    } else {
      assert (xs + [x])[1..] == xs[1..] + [x];
      ConcatAppend(xs[1..], x);
    }
  }

  lemma {:induction false} ConcatSplit(xs: seq<string>, ys: seq<string>)
    ensures Concat(xs + ys) == Concat(xs) + Concat(ys)
  {
    if xs == [] {
      assert xs + ys == ys;
    } else {
      assert (xs + ys)[1..] == xs[1..] + ys;
      ConcatSplit(xs[1..], ys);
    }
  }

  lemma {:induction false} RemoveSplit(s: string, t: string, c: char)
    ensures Remove(s + t, c) == Remove(s, c) + Remove(t, c)
  {
    if s == [] {
      assert s + t == t;
    } else {
      assert (s + t)[1..] == s[1..] + t;
      RemoveSplit(s[1..], t, c);
    }
  }

  lemma {:induction false} RemoveAbsent(s: string, c: char)
    requires c !in s
    ensures Remove(s, c) == s
  {
    if s != [] {
      RemoveAbsent(s[1..], c);
    }
  }

  lemma {:induction false} RemoveGone(s: string, c: char)
    ensures c !in Remove(s, c)
  {
    if s != [] {
      RemoveGone(s[1..], c);
    }
  }

  /** Joining a non-empty list with a separator and then deleting the separator character
      gives the plain concatenation, provided no piece contains that character. */
  lemma {:induction false} RemoveJoin(xs: seq<string>, sep: char)
    requires forall k :: 0 <= k < |xs| ==> sep !in xs[k]
    ensures Remove(Join([sep], xs), sep) == Concat(xs)
  {
    if |xs| == 0 {
    } else if |xs| == 1 {
      RemoveAbsent(xs[0], sep);
      assert Concat(xs) == xs[0] + Concat([]);
    } else {
      RemoveJoin(xs[1..], sep);
      RemoveSplit(xs[0] + [sep], Join([sep], xs[1..]), sep);
      RemoveSplit(xs[0], [sep], sep);
      RemoveAbsent(xs[0], sep);
    }
  }

  /** A character in the result of a replacement comes from the input or from the replacement text. */
  lemma {:induction false} ReplaceChars(s: string, p: string, q: string, c: char)
    requires |p| > 0
    requires c in Replace(s, p, q)
    ensures c in s || c in q
    decreases |s|
  {
    if |s| < |p| {
    } else if s[..|p|] == p {
      if c !in q {
        ReplaceChars(s[|p|..], p, q, c);
      }
    } else {
      if c != s[0] {
        ReplaceChars(s[1..], p, q, c);
      }
    }
  }

  /** Replacing inside a prefix that cannot start an occurrence passes the prefix through. */
  lemma {:induction false} ReplaceSkipPrefix(x: string, y: string, p: string, q: string)
    requires |p| > 0
    requires p[0] !in x
    ensures Replace(x + y, p, q) == x + Replace(y, p, q)
  {
    if x == [] {
      assert x + y == y;
    } else {
      var z := x + y;
      assert z[0] == x[0] && z[1..] == x[1..] + y;
      ReplaceSkipPrefix(x[1..], y, p, q);
      if |z| >= |p| {
        assert z[..|p|][0] != p[0];
        assert Replace(z, p, q) == [x[0]] + Replace(z[1..], p, q);
        assert [x[0]] + x[1..] == x;
      } else {
        assert |y| < |p|;
      }
    }
  }

  lemma {:induction false} AmongIn(c: char, s: string)
    ensures Among(c, s) <==> c in s
  {
    if s != [] {
      AmongIn(c, s[1..]);
      assert s == [s[0]] + s[1..];
    }
  }

  lemma SliceChars(s: string, i: nat, j: nat, c: char)
    requires i <= j <= |s|
    requires c in s[i..j]
    ensures c in s
  {
    var k :| 0 <= k < j - i && s[i..j][k] == c;
    assert s[i + k] == c;
  }

  lemma SliceJoin(s: string, i: nat, j: nat, k: nat)
    requires i <= j <= k <= |s|
    ensures s[i..j] + s[j..k] == s[i..k]
  {
  }

  lemma SliceSplit(s: string, i: nat, j: nat)
    requires i <= j <= |s|
    ensures s[i..] == s[i..j] + s[j..]
  {
  }

  lemma SliceExtend(s: string, i: nat, j: nat)
    requires i <= j < |s|
    ensures s[i..j] + [s[j]] == s[i..j + 1]
  {
  }

  /** The empty string is included in every string; a single character is included exactly
      when it occurs. */
  lemma IncludesChar(hay: string, c: char)
    ensures Includes(hay, [c]) <==> c in hay
  {
    if c in hay {
      var i :| 0 <= i < |hay| && hay[i] == c;
      assert hay[i..i + 1] == [c];
      assert OccursAt(hay, [c], i);
    }
    if Includes(hay, [c]) {
      var i :| 0 <= i <= |hay| - 1 && OccursAt(hay, [c], i);
      assert hay[i] == hay[i..i + 1][0];
    }
  }

  /** Every character of an included needle occurs in the haystack. */
  lemma IncludesChars(hay: string, needle: string, c: char)
    requires Includes(hay, needle)
    requires c in needle
    ensures c in hay
  {
    var i :| 0 <= i <= |hay| - |needle| && OccursAt(hay, needle, i);
    var k :| 0 <= k < |needle| && needle[k] == c;
    assert hay[i + k] == hay[i..i + |needle|][k];
  }

  lemma {:induction false} LowerSplit(s: string, t: string)
    ensures Lower(s + t) == Lower(s) + Lower(t)
  {
    if s == [] {
      assert s + t == t;
    } else {
      assert (s + t)[0] == s[0] && (s + t)[1..] == s[1..] + t;
      LowerSplit(s[1..], t);
    }
  }

  /** Replacing `p` by a `q` that differs from it only in copies of `c` changes nothing once
      `c` is deleted. */
  lemma {:induction false} ReplaceRemove(s: string, p: string, q: string, c: char)
    requires |p| > 0
    requires Remove(p, c) == Remove(q, c)
    ensures Remove(Replace(s, p, q), c) == Remove(s, c)
    decreases |s|
  {
    if |s| < |p| {
    } else if s[..|p|] == p {
      ReplaceRemove(s[|p|..], p, q, c);
      RemoveSplit(q, Replace(s[|p|..], p, q), c);
      assert s == s[..|p|] + s[|p|..];
      RemoveSplit(s[..|p|], s[|p|..], c);
    } else {
      ReplaceRemove(s[1..], p, q, c);
      RemoveSplit([s[0]], Replace(s[1..], p, q), c);
      assert s == [s[0]] + s[1..];
      RemoveSplit([s[0]], s[1..], c);
    }
  }

  /** A two-character pattern that occurs nowhere leaves the text unchanged. */
  lemma {:induction false} ReplaceNoPair(s: string, p: string, q: string)
    requires |p| == 2
    requires forall k :: 0 <= k < |s| - 1 ==> !(s[k] == p[0] && s[k + 1] == p[1])
    ensures Replace(s, p, q) == s
    decreases |s|
  {
    if |s| >= 2 {
      assert s[..2] != p by {
        assert !(s[0] == p[0] && s[1] == p[1]);
      }
      ReplaceNoPair(s[1..], p, q);
      assert [s[0]] + s[1..] == s;
    }
  }

  /** When a two-character pattern first occurs right after `x`, that occurrence is replaced
      and the scan resumes after it. */
  lemma {:induction false} ReplacePairFirst(x: string, y: string, p: string, q: string)
    requires |p| == 2
    requires forall k :: 0 <= k < |x| ==> !((x + p)[k] == p[0] && (x + p)[k + 1] == p[1])
    ensures Replace(x + p + y, p, q) == x + q + Replace(y, p, q)
    decreases |x|
  {
    var s := x + p + y;
    if x == [] {
      assert s == p + y && s[..2] == p && s[2..] == y;
    } else {
      assert s[..2] != p by {
        assert !((x + p)[0] == p[0] && (x + p)[1] == p[1]);
        assert (x + p)[0] == s[0] && (x + p)[1] == s[1];
      }
      forall k | 0 <= k < |x| - 1
        ensures !((x[1..] + p)[k] == p[0] && (x[1..] + p)[k + 1] == p[1])
      {
        assert (x[1..] + p)[k] == (x + p)[k + 1] && (x[1..] + p)[k + 1] == (x + p)[k + 2];
      }
      ReplacePairFirst(x[1..], y, p, q);
      assert s[1..] == x[1..] + p + y;
      assert [x[0]] + (x[1..] + q + Replace(y, p, q)) == x + q + Replace(y, p, q);
    }
  }
}
