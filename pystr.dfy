/**
 * The Python string builtins that the query and script code relies on:
 * `str.replace`, `str.strip`, `str.find`, `str.rfind`, slicing with
 * negative and out-of-range bounds, and `re.sub('\s+', ' ', ...)`.
 * Strings are sequences of Unicode code points, as Python's `str` is.
 */
module PyStr {

  // ---------------------------------------------------------------------------
  // str.replace
  // ---------------------------------------------------------------------------

  /** `pat` occurs in `s` starting at index `i`. */
  predicate OccursAt(s: string, pat: string, i: int)
  {
    0 <= i && i + |pat| <= |s| && s[i..i + |pat|] == pat
  }

  /**
   * Python's `s.replace(pat, rep)`: scan left to right, replace the leftmost
   * occurrence of `pat`, and continue after it, so occurrences never overlap.
   */
  function ReplaceAll(s: string, pat: string, rep: string): string
    requires pat != []
    decreases |s|
  {
    if |s| < |pat| then s
    else if s[..|pat|] == pat then rep + ReplaceAll(s[|pat|..], pat, rep)
    else [s[0]] + ReplaceAll(s[1..], pat, rep)
  }

  /** Replacing a pattern by one of the same length keeps the length. */
  lemma {:induction false} ReplaceSameLength(s: string, pat: string, rep: string)
    requires pat != [] && |rep| == |pat|
    ensures |ReplaceAll(s, pat, rep)| == |s|
    decreases |s|
  {
    if |s| < |pat| {
    } else if s[..|pat|] == pat {
      ReplaceSameLength(s[|pat|..], pat, rep);
    } else {
      ReplaceSameLength(s[1..], pat, rep);
    }
  }

  /** Replacing one character by another rewrites exactly the positions holding it. */
  lemma {:induction false} ReplaceCharAt(s: string, a: char, b: char)
    ensures |ReplaceAll(s, [a], [b])| == |s|
    ensures forall k :: 0 <= k < |s| ==>
      ReplaceAll(s, [a], [b])[k] == (if s[k] == a then b else s[k])
    decreases |s|
  {
    if |s| > 0 {
      ReplaceCharAt(s[1..], a, b);
      var t := ReplaceAll(s[1..], [a], [b]);
      if s[..1] == [a] {
        assert ReplaceAll(s, [a], [b]) == [b] + t;
      } else {
        assert s[0] != a;
        assert ReplaceAll(s, [a], [b]) == [s[0]] + t;
      }
    }
  }

  /** A character that neither the input nor the replacement holds is absent from the result. */
  lemma {:induction false} ReplaceKeepsAbsent(s: string, pat: string, rep: string, c: char)
    requires pat != []
    requires c !in s && c !in rep
    ensures c !in ReplaceAll(s, pat, rep)
    decreases |s|
  {
    if |s| < |pat| {
    } else if s[..|pat|] == pat {
      assert c !in s[|pat|..];
      ReplaceKeepsAbsent(s[|pat|..], pat, rep, c);
    } else {
      assert c !in s[1..];
      ReplaceKeepsAbsent(s[1..], pat, rep, c);
    }
  }

  /**
   * When no occurrence of `pat` starts before index `k`, the first `k`
   * characters pass through unchanged.
   */
  lemma {:induction false} ReplaceSkip(s: string, pat: string, rep: string, k: nat)
    requires pat != [] && k <= |s|
    requires forall i :: 0 <= i < k ==> !OccursAt(s, pat, i)
    ensures ReplaceAll(s, pat, rep) == s[..k] + ReplaceAll(s[k..], pat, rep)
    decreases k
  {
    if k == 0 {
      assert s[..0] == [] && s[0..] == s;
    } else if |s| < |pat| {
      assert |s[k..]| < |pat|;
    } else {
      assert !OccursAt(s, pat, 0);
      assert s[..|pat|] != pat;
      forall i | 0 <= i < k - 1
        ensures !OccursAt(s[1..], pat, i)
      {
        assert !OccursAt(s, pat, i + 1);
        if i + |pat| <= |s[1..]| {
          assert s[1..][i..i + |pat|] == s[i + 1..i + 1 + |pat|];
        }
      }
      ReplaceSkip(s[1..], pat, rep, k - 1);
      assert s[1..][k - 1..] == s[k..];
      assert [s[0]] + s[1..][..k - 1] == s[..k];
    }
  }

  /** A string holding no occurrence of `pat` is returned unchanged. */
  lemma ReplaceNoMatch(s: string, pat: string, rep: string)
    requires pat != []
    requires forall i :: 0 <= i < |s| ==> !OccursAt(s, pat, i)
    ensures ReplaceAll(s, pat, rep) == s
  {
    ReplaceSkip(s, pat, rep, |s|);
    assert s[..|s|] == s && s[|s|..] == [];
  }

  /** An occurrence at the very start is replaced first. */
  lemma ReplaceAtStart(pat: string, t: string, rep: string)
    requires pat != []
    ensures ReplaceAll(pat + t, pat, rep) == rep + ReplaceAll(t, pat, rep)
  {
    assert (pat + t)[..|pat|] == pat;
    assert (pat + t)[|pat|..] == t;
  }

  /** `s` with every `c` taken out, the rest in order. */
  function Without(s: string, c: char): (r: string)
    ensures c !in r
    ensures |r| <= |s|
    ensures forall d :: d != c ==> (d in r <==> d in s)
    ensures c !in s ==> r == s
  {
    if s == [] then []
    else (if s[0] == c then [] else [s[0]]) + Without(s[1..], c)
  }

  /** Python's `s.replace(c, "")` deletes every `c` and keeps everything else in order. */
  lemma {:induction false} ReplaceDeletes(s: string, c: char)
    ensures ReplaceAll(s, [c], []) == Without(s, c)
    decreases |s|
  {
    if s != [] {
      ReplaceDeletes(s[1..], c);
      if s[..1] == [c] {
        assert s[0] == c;
      } else {
        assert s[0] != c;
      }
    }
  }

  // ---------------------------------------------------------------------------
  // Whitespace: str.strip and re.sub('\s+', ' ', ...)
  // ---------------------------------------------------------------------------

  /** The whitespace class used for both `str.strip()` and the regular expression `\s`. */
  predicate IsSpace(c: char)
  {
    c == ' ' || c == '\t' || c == '\n' || c == '\r' || c == '\U{000B}' || c == '\U{000C}'
  }

  /** Python's `s.lstrip()`: the suffix of `s` that starts at its first non-whitespace character. */
  function StripLeft(s: string): (r: string)
    ensures |r| <= |s| && r == s[|s| - |r|..]
    ensures r == [] || !IsSpace(r[0])
    ensures forall k :: 0 <= k < |s| - |r| ==> IsSpace(s[k])
  {
    if s != [] && IsSpace(s[0]) then StripLeft(s[1..]) else s
  }

  /** Python's `s.rstrip()`: the prefix of `s` that ends at its last non-whitespace character. */
  function StripRight(s: string): (r: string)
    ensures |r| <= |s| && r == s[..|r|]
    ensures r == [] || !IsSpace(r[|r| - 1])
    ensures forall k :: |r| <= k < |s| ==> IsSpace(s[k])
  {
    if s != [] && IsSpace(s[|s| - 1]) then StripRight(s[..|s| - 1]) else s
  }

  /** Python's `s.strip()`. */
  function Strip(s: string): (r: string)
    ensures r == [] || (!IsSpace(r[0]) && !IsSpace(r[|r| - 1]))
  {
    StripRight(StripLeft(s))
  }

  /**
   * `re.sub('\s+', ' ', s)`: every maximal run of whitespace becomes a single
   * space. No two whitespace characters are adjacent in the result, the only
   * whitespace character left is the space, and the result starts with
   * whitespace exactly when `s` does (`CollapseEnds` gives the same for the
   * end).
   */
  function CollapseSpaces(s: string): (r: string)
    ensures |r| <= |s| && (r == [] <==> s == [])
    ensures forall k :: 0 <= k < |r| && IsSpace(r[k]) ==> r[k] == ' '
    ensures forall k :: 0 <= k < |r| - 1 ==> !(IsSpace(r[k]) && IsSpace(r[k + 1]))
    ensures r != [] ==> (IsSpace(r[0]) <==> IsSpace(s[0]))
    decreases |s|
  {
    if s == [] then []
    else
      var head, rest := if IsSpace(s[0]) then ' ' else s[0], CollapseSpaces(if IsSpace(s[0]) then StripLeft(s[1..]) else s[1..]);
      assert rest != [] && IsSpace(head) ==> !IsSpace(rest[0]);
      [head] + rest
  }

  /** The collapsed text ends with whitespace exactly when `s` does. */
  lemma {:induction false} CollapseEnds(s: string)
    ensures var r := CollapseSpaces(s);
      r != [] ==> (IsSpace(r[|r| - 1]) <==> IsSpace(s[|s| - 1]))
    decreases |s|
  {
    if s != [] {
      var t := s[1..];
      if IsSpace(s[0]) {
        var v := StripLeft(t);
        if v != [] {
          CollapseEnds(v);
          assert v[|v| - 1] == s[|s| - 1];
        } else if t != [] {
          assert IsSpace(t[|t| - 1]);
        }
      } else if t != [] {
        CollapseEnds(t);
        assert t[|t| - 1] == s[|s| - 1];
      }
    }
  }

  /** A string whose whitespace is already single spaces is its own collapse. */
  lemma {:induction false} CollapseFixed(s: string)
    requires forall k :: 0 <= k < |s| && IsSpace(s[k]) ==> s[k] == ' '
    requires forall k :: 0 <= k < |s| - 1 ==> !(IsSpace(s[k]) && IsSpace(s[k + 1]))
    ensures CollapseSpaces(s) == s
    decreases |s|
  {
    if s != [] {
      CollapseFixed(s[1..]);
      if IsSpace(s[0]) {
        assert StripLeft(s[1..]) == s[1..];
      }
    }
  }

  // ---------------------------------------------------------------------------
  // str.split() and str.join: what collapsing whitespace means
  // ---------------------------------------------------------------------------

  /** The leading run of non-whitespace characters of `s`. */
  function Word(s: string): (w: string)
    ensures |w| <= |s|
    ensures forall k :: 0 <= k < |w| ==> !IsSpace(w[k])
    ensures |w| < |s| ==> IsSpace(s[|w|])
    ensures s != [] && !IsSpace(s[0]) ==> w != []
    decreases |s|
  {
    if s == [] || IsSpace(s[0]) then [] else [s[0]] + Word(s[1..])
  }

  /** Python's `s.split()`: the maximal runs of non-whitespace characters, in order. */
  function Words(s: string): (ws: seq<string>)
    ensures forall i :: 0 <= i < |ws| ==> ws[i] != []
    ensures forall i, k :: 0 <= i < |ws| && 0 <= k < |ws[i]| ==> !IsSpace(ws[i][k])
    decreases |s|
  {
    if s == [] then []
    else if IsSpace(s[0]) then Words(s[1..])
    else var w := Word(s); [w] + Words(s[|w|..])
  }

  /** Python's `sep.join(ws)`. */
  function Join(ws: seq<string>, sep: string): string
  {
    if ws == [] then [] else if |ws| == 1 then ws[0] else ws[0] + sep + Join(ws[1..], sep)
  }

  /** Leading whitespace separates no words. */
  lemma {:induction false} WordsStripLeft(s: string)
    ensures Words(StripLeft(s)) == Words(s)
    decreases |s|
  {
    if s != [] && IsSpace(s[0]) {
      WordsStripLeft(s[1..]);
    }
  }

  lemma {:induction false} WordsAllSpace(y: string)
    requires forall k :: 0 <= k < |y| ==> IsSpace(y[k])
    ensures Words(y) == []
    decreases |y|
  {
    if y != [] {
      WordsAllSpace(y[1..]);
    }
  }

  lemma {:induction false} WordAppend(x: string, y: string)
    requires y == [] || IsSpace(y[0])
    ensures Word(x + y) == Word(x)
    decreases |x|
  {
    if x == [] {
      assert x + y == y;
    } else {
      assert (x + y)[0] == x[0] && (x + y)[1..] == x[1..] + y;
      if !IsSpace(x[0]) {
        WordAppend(x[1..], y);
      }
    }
  }

  /** Trailing whitespace separates no words. */
  lemma {:induction false} WordsTrailingSpace(x: string, y: string)
    requires forall k :: 0 <= k < |y| ==> IsSpace(y[k])
    ensures Words(x + y) == Words(x)
    decreases |x|
  {
    if x == [] {
      assert x + y == y;
      WordsAllSpace(y);
    } else {
      assert (x + y)[0] == x[0];
      if IsSpace(x[0]) {
        assert (x + y)[1..] == x[1..] + y;
        WordsTrailingSpace(x[1..], y);
      } else {
        WordAppend(x, y);
        var w := Word(x);
        assert (x + y)[|w|..] == x[|w|..] + y;
        WordsTrailingSpace(x[|w|..], y);
      }
    }
  }

  /** Collapsing leaves a leading word alone. */
  lemma {:induction false} CollapseWord(u: string)
    ensures CollapseSpaces(u) == Word(u) + CollapseSpaces(u[|Word(u)|..])
    decreases |u|
  {
    if u != [] && !IsSpace(u[0]) {
      var t := u[1..];
      CollapseWord(t);
      var n := |Word(t)|;
      assert |Word(u)| == n + 1;
      assert u[n + 1..] == t[n..];
    }
  }

  /**
   * On text that neither starts nor ends with whitespace, collapsing joins
   * its words with single spaces: every whitespace run between two words
   * becomes exactly one space.
   */
  lemma {:induction false} CollapseTrimmed(u: string)
    requires u == [] || (!IsSpace(u[0]) && !IsSpace(u[|u| - 1]))
    ensures CollapseSpaces(u) == Join(Words(u), " ")
    decreases |u|
  {
    if u != [] {
      var w := Word(u);
      var rest := u[|w|..];
      CollapseWord(u);
      assert Words(u) == [w] + Words(rest);
      if rest == [] {
        assert Join([w], " ") == w;
      } else {
        var v := GapThenWord(u, w, rest);
        CollapseTrimmed(v);
        JoinCons(w, Words(v));
      }
    }
  }

  /**
   * Helper: after the leading word of `u` comes a whitespace character and
   * then, once the whitespace is stripped, a shorter text that again neither
   * starts nor ends with whitespace.
   */
  lemma GapThenWord(u: string, w: string, rest: string) returns (v: string)
    requires u != [] && !IsSpace(u[0]) && !IsSpace(u[|u| - 1])
    requires w == Word(u) && rest == u[|w|..] && rest != []
    ensures |v| < |u| && v != [] && !IsSpace(v[0]) && !IsSpace(v[|v| - 1])
    ensures CollapseSpaces(rest) == " " + CollapseSpaces(v)
    ensures Words(rest) == Words(v) && Words(v) != []
  {
    var tail := rest[1..];
    v := StripLeft(tail);
    assert rest[|rest| - 1] == u[|u| - 1];
    assert tail != [] && tail[|tail| - 1] == u[|u| - 1];
    assert v != [];
    assert v[|v| - 1] == tail[|tail| - 1];
    WordsStripLeft(tail);
  }

  /** Helper: joining a word in front of a non-empty list of words. */
  lemma JoinCons(w: string, ws: seq<string>)
    requires ws != []
    ensures Join([w] + ws, " ") == w + " " + Join(ws, " ")
  {
    assert ([w] + ws)[1..] == ws;
  }

  /** `re.sub('\s+', ' ', t.strip())` is `" ".join(t.split())`. */
  lemma CollapseStripped(t: string)
    ensures CollapseSpaces(Strip(t)) == Join(Words(t), " ")
  {
    var u := Strip(t);
    CollapseTrimmed(u);
    WordsStripRight(StripLeft(t));
    WordsStripLeft(t);
  }

  /** Helper: trailing whitespace separates no words. */
  lemma WordsStripRight(l: string)
    ensures Words(StripRight(l)) == Words(l)
  {
    var u := StripRight(l);
    var y := l[|u|..];
    assert l == u + y;
    forall k | 0 <= k < |y|
      ensures IsSpace(y[k])
    {
      assert y[k] == l[|u| + k];
    }
    WordsTrailingSpace(u, y);
  }

  // ---------------------------------------------------------------------------
  // str.find, str.rfind and slicing
  // ---------------------------------------------------------------------------

  /** Python's `s.find(c)`: the first index holding `c`, or -1. */
  function Find(s: string, c: char): (r: int)
    ensures -1 <= r < |s|
    ensures r == -1 <==> c !in s
    ensures r >= 0 ==> s[r] == c && c !in s[..r]
  {
    if s == [] then -1
    else if s[0] == c then 0
    else
      var k := Find(s[1..], c);
      assert s[1..][..k + 1] == s[1..k + 2] by { if k >= 0 { } }
      if k == -1 then -1 else k + 1
  }

  /** Python's `s.rfind(c)`: the last index holding `c`, or -1. */
  function RFind(s: string, c: char): (r: int)
    ensures -1 <= r < |s|
    ensures r == -1 <==> c !in s
    ensures r >= 0 ==> s[r] == c && c !in s[r + 1..]
  {
    if s == [] then -1
    else if s[|s| - 1] == c then |s| - 1
    else
      var init := s[..|s| - 1];
      var k := RFind(init, c);
      assert s == init + [s[|s| - 1]];
      assert k >= 0 ==> s[k + 1..] == init[k + 1..] + [s[|s| - 1]];
      k
  }

  /** How Python turns a slice bound into a position of a string of length `n`. */
  function SliceBound(i: int, n: nat): (r: nat)
    ensures r <= n
  {
    if i < 0 then (if i + n < 0 then 0 else i + n)
    else if i > n then n
    else i
  }

  /** Python's `s[lo:hi]`. */
  function Slice(s: string, lo: int, hi: int): string
  {
    var a, b := SliceBound(lo, |s|), SliceBound(hi, |s|);
    if a < b then s[a..b] else []
  }
}
