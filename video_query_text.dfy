/**
 * The text clean-up in utility/video/video_search_query_generator.py: the
 * whitespace normalisation `call_model` applies to every completion, the
 * quote swap and code-fence removal before parsing, and `fix_json`.
 */
module VideoQueryText {
  import opened PyStr

  // ---------------------------------------------------------------------------
  // call_model: content.replace("\n", "").strip(), then re.sub('\s+', ' ', ...)
  // ---------------------------------------------------------------------------

  /** The normalised completion text that `call_model` returns. */
  function NormalizeWhitespace(content: string): string
  {
    CollapseSpaces(Strip(ReplaceAll(content, "\n", "")))
  }

  /** `s` with its whitespace taken out: what the normaliser must not touch. */
  function NonSpace(s: string): string
  {
    if s == [] then [] else (if IsSpace(s[0]) then [] else [s[0]]) + NonSpace(s[1..])
  }

  lemma {:induction false} NonSpaceAppend(a: string, b: string)
    ensures NonSpace(a + b) == NonSpace(a) + NonSpace(b)
    decreases |a|
  {
    if a == [] {
      assert a + b == b;
    } else {
      assert (a + b)[0] == a[0] && (a + b)[1..] == a[1..] + b;
      NonSpaceAppend(a[1..], b);
    }
  }

  lemma {:induction false} NonSpaceWithout(s: string, c: char)
    requires IsSpace(c)
    ensures NonSpace(Without(s, c)) == NonSpace(s)
    decreases |s|
  {
    if s != [] {
      NonSpaceWithout(s[1..], c);
      NonSpaceAppend(if s[0] == c then [] else [s[0]], Without(s[1..], c));
    }
  }

  lemma {:induction false} NonSpaceStripLeft(s: string)
    ensures NonSpace(StripLeft(s)) == NonSpace(s)
    decreases |s|
  {
    if s != [] && IsSpace(s[0]) {
      NonSpaceStripLeft(s[1..]);
    }
  }

  lemma {:induction false} NonSpaceStripRight(s: string)
    ensures NonSpace(StripRight(s)) == NonSpace(s)
    decreases |s|
  {
    if s != [] && IsSpace(s[|s| - 1]) {
      var init := s[..|s| - 1];
      NonSpaceStripRight(init);
      assert s == init + [s[|s| - 1]];
      NonSpaceAppend(init, [s[|s| - 1]]);
    }
  }

  lemma {:induction false} NonSpaceCollapse(s: string)
    ensures NonSpace(CollapseSpaces(s)) == NonSpace(s)
    decreases |s|
  {
    if s != [] {
      if IsSpace(s[0]) {
        NonSpaceCollapse(StripLeft(s[1..]));
        NonSpaceStripLeft(s[1..]);
        NonSpaceAppend([' '], CollapseSpaces(StripLeft(s[1..])));
      } else {
        NonSpaceCollapse(s[1..]);
        NonSpaceAppend([s[0]], CollapseSpaces(s[1..]));
      }
    }
  }

  /**
   * The normalised text has no newline, no leading or trailing whitespace,
   * no two adjacent whitespace characters, every whitespace character in it
   * is a space, and its non-whitespace characters are exactly those of the
   * input, in order. `NormalizeWords` says which text it is.
   */
  lemma NormalizeShape(content: string)
    ensures var r := NormalizeWhitespace(content);
      && '\n' !in r
      && (r == [] || (!IsSpace(r[0]) && !IsSpace(r[|r| - 1])))
      && (forall k :: 0 <= k < |r| - 1 ==> !(IsSpace(r[k]) && IsSpace(r[k + 1])))
      && (forall k :: 0 <= k < |r| && IsSpace(r[k]) ==> r[k] == ' ')
      && NonSpace(r) == NonSpace(content)
  {
    NormalizeKeepsText(content);
    CollapseEnds(Strip(ReplaceAll(content, "\n", "")));
  }

  /**
   * Line 97 deletes newlines before line 98 collapses whitespace: the result
   * is `" ".join(content.replace("\n", "").split())`.
   */
  lemma NormalizeWords(content: string)
    ensures NormalizeWhitespace(content) == Join(Words(Without(content, '\n')), " ")
  {
    ReplaceDeletes(content, '\n');
    CollapseStripped(Without(content, '\n'));
  }

  /** A newline is deleted, not turned into a space: the words around a lone newline run together. */
  lemma NormalizeGluesNewline()
    ensures NormalizeWhitespace("a\nb") == "ab"
  {
    GlueDeletesNewline();
    GlueCollapse();
  }

  /** Helper: line 97 on the example. */
  lemma GlueDeletesNewline()
    ensures ReplaceAll("a\nb", "\n", "") == "ab"
  {
    var s := "a\nb";
    assert s[..1] != "\n" && s[1..] == "\nb";
    assert "\nb"[..1] == "\n" && "\nb"[1..] == "b";
    assert "b"[..1] != "\n" && "b"[1..] == [];
  }

  /** Helper: stripping and line 98 on the example. */
  lemma GlueCollapse()
    ensures CollapseSpaces(Strip("ab")) == "ab"
  {
    assert StripLeft("ab") == "ab" && StripRight("ab") == "ab";
    CollapseFixed("ab");
  }

  lemma NormalizeKeepsText(content: string)
    ensures NonSpace(NormalizeWhitespace(content)) == NonSpace(content)
  {
    var a := ReplaceAll(content, "\n", "");
    ReplaceDeletes(content, '\n');
    NonSpaceWithout(content, '\n');
    NonSpaceStripLeft(a);
    NonSpaceStripRight(StripLeft(a));
    NonSpaceCollapse(Strip(a));
  }

  /** Normalising twice is the same as normalising once. */
  lemma NormalizeIdempotent(content: string)
    ensures NormalizeWhitespace(NormalizeWhitespace(content)) == NormalizeWhitespace(content)
  {
    var r := NormalizeWhitespace(content);
    NormalizeShape(content);
    ReplaceDeletes(r, '\n');
    assert ReplaceAll(r, "\n", "") == r;
    assert StripLeft(r) == r;
    assert StripRight(r) == r;
    CollapseFixed(r);
  }

  // ---------------------------------------------------------------------------
  // fix_json
  // ---------------------------------------------------------------------------

  const RIGHT_SINGLE: char := '\U{2019}'  // typographic apostrophe
  const LEFT_SINGLE: char := '\U{2018}'
  const LEFT_DOUBLE: char := '\U{201C}'
  const RIGHT_DOUBLE: char := '\U{201D}'

  /** The mis-escaped contraction `"you didn"t"` and its repair `"you didn't"`. */
  const CONTRACTION: string := "\"you didn\"t\""
  const CONTRACTION_FIXED: string := "\"you didn't\""

  predicate IsSmartQuote(c: char)
  {
    c == RIGHT_SINGLE || c == LEFT_SINGLE || c == LEFT_DOUBLE || c == RIGHT_DOUBLE
  }

  /**
   * `fix_json`: the apostrophe rule first, then the four double-quote rules
   * in the order of the source, then the contraction rule.
   */
  function FixJson(s: string): string
  {
    var apostrophes := ReplaceAll(s, [RIGHT_SINGLE], "'");
    var quotes := ReplaceAll(ReplaceAll(ReplaceAll(ReplaceAll(apostrophes,
      [LEFT_DOUBLE], "\""), [RIGHT_DOUBLE], "\""), [LEFT_SINGLE], "\""), [RIGHT_SINGLE], "\"");
    ReplaceAll(quotes, CONTRACTION, CONTRACTION_FIXED)
  }

  /**
   * The straight quote each character becomes: because the apostrophe rule
   * runs first, a typographic apostrophe becomes `'`; the other three
   * typographic quotes become `"`.
   */
  function Straighten(c: char): (r: char)
    ensures !IsSmartQuote(r)
    ensures !IsSmartQuote(c) ==> r == c
    ensures c == RIGHT_SINGLE ==> r == '\''
    ensures c == LEFT_SINGLE || c == LEFT_DOUBLE || c == RIGHT_DOUBLE ==> r == '"'
  {
    if c == RIGHT_SINGLE then '\''
    else if c == LEFT_SINGLE || c == LEFT_DOUBLE || c == RIGHT_DOUBLE then '"'
    else c
  }

  function StraightenAll(s: string): (r: string)
    ensures |r| == |s|
  {
    seq(|s|, k requires 0 <= k < |s| => Straighten(s[k]))
  }

  /**
   * The five character rules of `fix_json` together straighten every quote
   * character by character; in particular the second rule for the
   * apostrophe never fires, because the first already removed them all.
   */
  lemma FixJsonQuoteRules(s: string)
    ensures FixJson(s) == ReplaceAll(StraightenAll(s), CONTRACTION, CONTRACTION_FIXED)
  {
    var a := ReplaceAll(s, [RIGHT_SINGLE], "'");
    ReplaceCharAt(s, RIGHT_SINGLE, '\'');
    var b := ReplaceAll(a, [LEFT_DOUBLE], "\"");
    ReplaceCharAt(a, LEFT_DOUBLE, '"');
    var c := ReplaceAll(b, [RIGHT_DOUBLE], "\"");
    ReplaceCharAt(b, RIGHT_DOUBLE, '"');
    var d := ReplaceAll(c, [LEFT_SINGLE], "\"");
    ReplaceCharAt(c, LEFT_SINGLE, '"');
    var e := ReplaceAll(d, [RIGHT_SINGLE], "\"");
    ReplaceCharAt(d, RIGHT_SINGLE, '"');
    assert e == StraightenAll(s);
  }

  /** `fix_json` keeps the length in code points: every rule swaps equal lengths. */
  lemma FixJsonLength(s: string)
    ensures |FixJson(s)| == |s|
  {
    FixJsonQuoteRules(s);
    ReplaceSameLength(StraightenAll(s), CONTRACTION, CONTRACTION_FIXED);
  }

  /** No typographic quote survives `fix_json`. */
  lemma FixJsonNoSmartQuotes(s: string)
    ensures forall k :: 0 <= k < |FixJson(s)| ==> !IsSmartQuote(FixJson(s)[k])
  {
    FixJsonQuoteRules(s);
    var t := StraightenAll(s);
    forall q | IsSmartQuote(q)
      ensures q !in FixJson(s)
    {
      assert q !in t;
      ReplaceKeepsAbsent(t, CONTRACTION, CONTRACTION_FIXED, q);
    }
  }

  /** Text with no typographic quote and no mis-escaped contraction is returned unchanged. */
  lemma FixJsonUnchanged(s: string)
    requires forall k :: 0 <= k < |s| ==> !IsSmartQuote(s[k])
    requires forall i :: 0 <= i < |s| ==> !OccursAt(s, CONTRACTION, i)
    ensures FixJson(s) == s
  {
    FixJsonQuoteRules(s);
    assert StraightenAll(s) == s;
    ReplaceNoMatch(s, CONTRACTION, CONTRACTION_FIXED);
  }

  /**
   * `fix_json` is not idempotent: on `"you didn"t"you didn"t"` one pass
   * repairs only the first contraction (the two overlap in one quote), and
   * a second pass finds and repairs the other.
   */
  lemma FixJsonNotIdempotent()
    ensures var s := "\"you didn\"t\"you didn\"t\"";
      FixJson(FixJson(s)) != FixJson(s)
  {
    var tail := "you didn\"t\"";
    var s := CONTRACTION + tail;
    assert s == "\"you didn\"t\"you didn\"t\"";
    FixJsonUnchangedQuotes(s);
    ReplaceAtStart(CONTRACTION, tail, CONTRACTION_FIXED);
    assert ReplaceAll(tail, CONTRACTION, CONTRACTION_FIXED) == tail;
    var once := CONTRACTION_FIXED + tail;
    assert FixJson(s) == once;

    FixJsonUnchangedQuotes(once);
    forall i | 0 <= i < 11
      ensures !OccursAt(once, CONTRACTION, i)
    {
      if i == 0 {
        assert once[9] != CONTRACTION[9];
        assert once[0..12][9] == once[9];
      } else {
        assert once[i] != '"';
        assert once[i..i + |CONTRACTION|][0] == once[i];
      }
    }
    ReplaceSkip(once, CONTRACTION, CONTRACTION_FIXED, 11);
    assert once[11..] == CONTRACTION + [];
    ReplaceAtStart(CONTRACTION, [], CONTRACTION_FIXED);
    var twice := once[..11] + CONTRACTION_FIXED;
    assert FixJson(once) == twice;
    assert twice[20] != once[20];
  }

  /** Helper: text without typographic quotes is only touched by the contraction rule. */
  lemma FixJsonUnchangedQuotes(s: string)
    requires forall k :: 0 <= k < |s| ==> !IsSmartQuote(s[k])
    ensures FixJson(s) == ReplaceAll(s, CONTRACTION, CONTRACTION_FIXED)
  {
    FixJsonQuoteRules(s);
    assert StraightenAll(s) == s;
  }

  // ---------------------------------------------------------------------------
  // getVideoSearchQueriesTimed: the text handed to json.loads
  // ---------------------------------------------------------------------------

  /** Line 73: every `'` of the normalised completion becomes `"`. */
  function Prepared(raw: string): (content: string)
  {
    ReplaceAll(NormalizeWhitespace(raw), "'", "\"")
  }

  /** Line 79: strip the code-fence markers, then `fix_json`. */
  function Repaired(content: string): string
  {
    FixJson(ReplaceAll(ReplaceAll(content, "```json", ""), "```", ""))
  }

  /**
   * The first text parsed has no single quote and is otherwise the
   * normalised completion, character for character.
   */
  lemma PreparedShape(raw: string)
    ensures var n := NormalizeWhitespace(raw); var content := Prepared(raw);
      && |content| == |n|
      && '\'' !in content
      && forall k :: 0 <= k < |n| ==> content[k] == (if n[k] == '\'' then '"' else n[k])
  {
    ReplaceCharAt(NormalizeWhitespace(raw), '\'', '"');
  }

  /** The repaired text holds no typographic quote. */
  lemma RepairedNoSmartQuotes(content: string)
    ensures forall k :: 0 <= k < |Repaired(content)| ==> !IsSmartQuote(Repaired(content)[k])
  {
    FixJsonNoSmartQuotes(ReplaceAll(ReplaceAll(content, "```json", ""), "```", ""));
  }
}
