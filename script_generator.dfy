/**
 * What `generate_script` in utility/script/script_generator.py does with
 * the model's completion: drop every newline, read the `"script"` field of
 * the parsed text, and, if that raises, retry on the text between the first
 * `{` and the last `}`.
 */
module ScriptGenerator {
  import opened Maybe
  import opened PyStr
  import opened PyJson

  /** Line 84: every newline removed, everything else kept in order. */
  function RemoveNewlines(content: string): (r: string)
    ensures '\n' !in r
    ensures r == Without(content, '\n')
    ensures '\n' !in content ==> r == content
  {
    ReplaceDeletes(content, '\n');
    ReplaceAll(content, "\n", "")
  }

  /** The fallback text `content[content.find('{'):content.rfind('}') + 1]`. */
  function BraceSlice(content: string): string
  {
    Slice(content, Find(content, '{'), RFind(content, '}') + 1)
  }

  /** Python's `json.loads(text)["script"]`; `None` when either step raises. */
  function ScriptField(parsed: Option<Json>): (r: Option<Json>)
    ensures r.Some? <==> parsed.Some? && parsed.value.JObj? && "script" in parsed.value.fields
  {
    match parsed
    case Some(JObj(fields)) => if "script" in fields then Some(fields["script"]) else None
    case _ => None
  }

  /**
   * `generate_script` after the model call; `None` is the exception the
   * second `json.loads` (or its lookup) raises to the caller. The script is
   * read from the whole text when that works; otherwise from the text from
   * the first `{` to the last `}` inclusive, from nothing when every `}`
   * comes before the first `{`, and, when there is no `{` at all (`find`
   * gives -1, which starts the slice at the last character), from a final
   * `}` or from nothing.
   */
  function GenerateScript(completion: string, parse: Parser): (r: Option<Json>)
    ensures var c := RemoveNewlines(completion);
      var strict, s, e := ScriptField(parse(c)), Find(c, '{'), RFind(c, '}');
      && (strict.Some? ==> r == strict)
      && (strict.None? && 0 <= s <= e ==> r == ScriptField(parse(c[s..e + 1])))
      && (strict.None? && 0 <= s && e < s ==> r == ScriptField(parse([])))
      && (strict.None? && s < 0 ==>
            r == ScriptField(parse(if c != [] && c[|c| - 1] == '}' then "}" else [])))
  {
    var content := RemoveNewlines(completion);
    var strict := ScriptField(parse(content));
    if strict.Some? then strict
    else
      var s, e := Find(content, '{'), RFind(content, '}');
      if 0 <= s <= e then BraceSliceFound(content); ScriptField(parse(BraceSlice(content)))
      else if 0 <= s then BraceSliceNoClose(content); ScriptField(parse(BraceSlice(content)))
      else BraceSliceNoOpen(content); ScriptField(parse(BraceSlice(content)))
  }

  /**
   * With a `{` at `s` and the last `}` at `e >= s`, the fallback text is
   * `content[s..e]` inclusive: it starts with `{`, ends with `}`, has length
   * `e - s + 1`, no `{` comes before it and no `}` after it.
   */
  lemma BraceSliceFound(content: string)
    requires Find(content, '{') >= 0 && RFind(content, '}') >= Find(content, '{')
    ensures var s, e, r := Find(content, '{'), RFind(content, '}'), BraceSlice(content);
      && r == content[s..e + 1]
      && |r| == e - s + 1
      && r[0] == '{' && r[|r| - 1] == '}'
      && content == content[..s] + r + content[e + 1..]
      && '{' !in content[..s]
      && '}' !in content[e + 1..]
  {
    var s, e := Find(content, '{'), RFind(content, '}');
    assert content[s] == '{' && '{' !in content[..s];
    assert content[e] == '}' && '}' !in content[e + 1..];
    SliceBetween(content, s, e);
  }

  /** Helper: the slice between a `{` at `s` and a `}` at `e`, both ends included. */
  lemma SliceBetween(content: string, s: nat, e: nat)
    requires s <= e < |content| && content[s] == '{' && content[e] == '}'
    ensures var r := Slice(content, s, e + 1);
      && r == content[s..e + 1]
      && |r| == e - s + 1
      && r[0] == '{' && r[|r| - 1] == '}'
      && content == content[..s] + r + content[e + 1..]
  {
    assert content == content[..s] + content[s..e + 1] + content[e + 1..];
  }

  /** With a `{` but no `}` at or after it, the fallback text is empty. */
  lemma BraceSliceNoClose(content: string)
    requires Find(content, '{') >= 0 && RFind(content, '}') < Find(content, '{')
    ensures BraceSlice(content) == []
  {
    EmptySlice(content, Find(content, '{'), RFind(content, '}') + 1);
  }

  /** Helper: a slice whose bounds are in range and not increasing is empty. */
  lemma EmptySlice(content: string, lo: nat, hi: nat)
    requires hi <= lo <= |content|
    ensures Slice(content, lo, hi) == []
  {
  }

  /**
   * With no `{`, `find` gives -1, which as a slice start means the last
   * character: the fallback text is `}` when the content ends with one, and
   * empty otherwise.
   */
  lemma BraceSliceNoOpen(content: string)
    requires '{' !in content
    ensures BraceSlice(content) == (if content != [] && content[|content| - 1] == '}' then "}" else [])
  {
  }
}
