/**
 * The accept/retry loop of `getVideoSearchQueriesTimed` in
 * utility/video/video_search_query_generator.py.
 *
 * The language model is a finite sequence of raw completions, one consumed
 * per attempt; `call_model` contributes only its whitespace normalisation.
 * `json.loads` is the abstract parser `parse`.
 */
module VideoQueryRetry {
  import opened Maybe
  import opened PyJson
  import opened VideoQueryText

  /** One timed caption `[[start, end], text]`. */
  datatype Caption = Caption(start: real, end: real, text: string)

  /**
   * How the loop ends: `Accepted(out)` is `return out`, `Failed` is the
   * `return None` after an exception, and `Pending` means the completions
   * ran out while the loop was still waiting for a covering answer (the
   * source would go on calling the model).
   */
  datatype Outcome = Accepted(out: Json) | Failed | Pending

  /** What one attempt yields: the parsed answer, or an exception from the second `json.loads`. */
  datatype Attempt = Parsed(value: Json) | Unparsable

  /** The initial `out = [[[0,0],""]]`, whose last end is 0. */
  const SENTINEL: Json := JArr([JArr([JArr([JNum(0.0), JNum(0.0)]), JStr("")])])

  /** Python's `out[-1][0][1]`; `None` when one of the three indexings raises. */
  function LastEnd(out: Json): Option<Json>
  {
    match Index(out, -1)
    case None => None
    case Some(last) =>
      match Index(last, 0)
      case None => None
      case Some(interval) => Index(interval, 1)
  }

  /**
   * One pass through the loop body: normalise the completion and swap its
   * single quotes, parse; if that raises, strip the code fences, apply
   * `fix_json` and parse once more.
   */
  function TryAttempt(raw: string, parse: Parser): (a: Attempt)
    ensures a.Parsed? <==> parse(Prepared(raw)).Some? || parse(Repaired(Prepared(raw))).Some?
    ensures parse(Prepared(raw)).Some? ==> a == Parsed(parse(Prepared(raw)).value)
    ensures parse(Prepared(raw)).None? && parse(Repaired(Prepared(raw))).Some? ==>
      a == Parsed(parse(Repaired(Prepared(raw))).value)
  {
    var content := Prepared(raw);
    match parse(content)
    case Some(v) => Parsed(v)
    case None =>
      match parse(Repaired(content))
      case Some(v) => Parsed(v)
      case None => Unparsable
  }

  /** The result of each completion's attempt, in order. */
  function Attempts(responses: seq<string>, parse: Parser): (a: seq<Attempt>)
    ensures |a| == |responses|
    ensures forall k :: 0 <= k < |responses| ==> a[k] == TryAttempt(responses[k], parse)
  {
    seq(|responses|, k requires 0 <= k < |responses| => TryAttempt(responses[k], parse))
  }

  /**
   * The loop from the state `out` on, with the attempts `attempts` still to
   * come: stop with `out` once its last end equals `end`, fail when reading
   * that end raises or an attempt is unparsable even after repair, otherwise
   * continue from the next attempt's value.
   */
  function Run(end: real, out: Json, attempts: seq<Attempt>): Outcome
    decreases |attempts|
  {
    match LastEnd(out)
    case None => Failed
    case Some(e) =>
      if EqNum(e, end) then Accepted(out)
      else if attempts == [] then Pending
      else
        match attempts[0]
        case Unparsable => Failed
        case Parsed(v) => Run(end, v, attempts[1..])
  }

  /** The end time the loop must reach, `captions_timed[-1][0][1]`. */
  function TimelineEnd(captions: seq<Caption>): real
    requires captions != []
  {
    captions[|captions| - 1].end
  }

  /**
   * `getVideoSearchQueriesTimed`. Reading the timeline's end happens before
   * the `try`, so an empty timeline raises to the caller: it is excluded.
   */
  method GetVideoSearchQueriesTimed(captions: seq<Caption>, responses: seq<string>, parse: Parser)
    returns (res: Outcome)
    requires captions != []
    ensures res == Run(TimelineEnd(captions), SENTINEL, Attempts(responses, parse))
    ensures res.Accepted? ==> LastEnd(res.out).Some? && EqNum(LastEnd(res.out).value, TimelineEnd(captions))
    ensures TimelineEnd(captions) == 0.0 ==> res == Accepted(SENTINEL)
  {
    var end := captions[|captions| - 1].end;
    ghost var attempts := Attempts(responses, parse);
    var out := SENTINEL;
    var i := 0;
    while true
      invariant 0 <= i <= |responses|
      invariant Run(end, SENTINEL, attempts) == Run(end, out, attempts[i..])
      decreases |responses| - i
    {
      var last := LastEnd(out);
      if last.None? {
        return Failed;
      }
      if EqNum(last.value, end) {
        res := Accepted(out);
        break;
      }
      if i == |responses| {
        return Pending;
      }
      var content := Prepared(responses[i]);
      assert attempts[i..][0] == TryAttempt(responses[i], parse);
      assert attempts[i..][1..] == attempts[i + 1..];
      i := i + 1;
      var first := parse(content);
      if first.Some? {
        out := first.value;
      } else {
        var second := parse(Repaired(content));
        if second.None? {
          return Failed;
        }
        out := second.value;
      }
    }
    RunAccepts(end, SENTINEL, attempts);
  }

  /**
   * `getVideoSearchQueriesTimed` with `call_model` as written. Line 93
   * assigns the local `prompt` from itself, so every model call raises
   * `UnboundLocalError`; the outer `except` turns that into `None`. The run
   * stops where the first completion would be consumed, as it does after an
   * attempt that cannot be parsed.
   */
  function QueriesAsWritten(captions: seq<Caption>): (res: Outcome)
    requires captions != []
    ensures res == (if TimelineEnd(captions) == 0.0 then Accepted(SENTINEL) else Failed)
  {
    assert LastEnd(SENTINEL) == Some(JNum(0.0));
    Run(TimelineEnd(captions), SENTINEL, [Unparsable])
  }

  /**
   * On a timeline ending at 2, a first attempt that parses to a covering
   * answer is accepted by the loop with a working model call, while the code
   * as written returns `None`.
   */
  lemma AsWrittenLosesAnswer()
    ensures var captions := [Caption(0.0, 2.0, "go")];
      var answer := JArr([JArr([JArr([JNum(0.0), JNum(2.0)]), JArr([JStr("go")])])]);
      && QueriesAsWritten(captions) == Failed
      && Run(TimelineEnd(captions), SENTINEL, [Parsed(answer)]) == Accepted(answer)
  {
    var answer := JArr([JArr([JArr([JNum(0.0), JNum(2.0)]), JArr([JStr("go")])])]);
    assert LastEnd(SENTINEL) == Some(JNum(0.0));
    assert LastEnd(answer) == Some(JNum(2.0));
  }

  /** Any accepted answer reaches the timeline's end. */
  lemma {:induction false} RunAccepts(end: real, out: Json, attempts: seq<Attempt>)
    ensures var r := Run(end, out, attempts);
      r.Accepted? ==> LastEnd(r.out).Some? && EqNum(LastEnd(r.out).value, end)
    decreases |attempts|
  {
    if LastEnd(out).Some? && !EqNum(LastEnd(out).value, end) && attempts != [] && attempts[0].Parsed? {
      RunAccepts(end, attempts[0].value, attempts[1..]);
    }
  }

  /**
   * The shape of every accepted answer: `out[-1][0][1]` can be read only from
   * a non-empty list whose last item is a non-empty list whose item 0 is a
   * list with at least two items, and that item equals the end. So a string,
   * an object or a number is never accepted.
   */
  lemma AcceptedShape(end: real, out: Json, attempts: seq<Attempt>)
    requires Run(end, out, attempts).Accepted?
    ensures var v := Run(end, out, attempts).out;
      && v.JArr? && v.items != []
      && var last := v.items[|v.items| - 1];
      && last.JArr? && last.items != []
      && last.items[0].JArr? && |last.items[0].items| >= 2
      && EqNum(last.items[0].items[1], end)
  {
    RunAccepts(end, out, attempts);
    LastEndShape(Run(end, out, attempts).out);
  }

  /** Helper: where `out[-1][0][1]` yields a value that is not a string. */
  lemma LastEndShape(v: Json)
    requires LastEnd(v).Some? && !LastEnd(v).value.JStr?
    ensures v.JArr? && v.items != []
    ensures var last := v.items[|v.items| - 1];
      && last.JArr? && last.items != []
      && last.items[0].JArr? && |last.items[0].items| >= 2
      && LastEnd(v).value == last.items[0].items[1]
  {
  }

  /** With a timeline ending at 0 the sentinel is returned before any completion is requested. */
  lemma ZeroEndReturnsSentinel(attempts: seq<Attempt>)
    ensures Run(0.0, SENTINEL, attempts) == Accepted(SENTINEL)
  {
    assert LastEnd(SENTINEL) == Some(JNum(0.0));
  }

  /**
   * An accepted answer other than the starting value is the value of some
   * attempt `k`, and every earlier attempt parsed too (maybe after repair):
   * one attempt whose repair also fails ends the loop with `None`.
   */
  lemma {:induction false} AcceptedComesFromAttempt(end: real, out: Json, attempts: seq<Attempt>)
    requires Run(end, out, attempts).Accepted?
    ensures var v := Run(end, out, attempts).out;
      v == out
      || (exists k :: 0 <= k < |attempts| && attempts[k] == Parsed(v)
            && forall m :: 0 <= m < k ==> attempts[m].Parsed?)
    decreases |attempts|
  {
    var e := LastEnd(out).value;
    if !EqNum(e, end) {
      var rest := attempts[1..];
      AcceptedComesFromAttempt(end, attempts[0].value, rest);
      var v := Run(end, out, attempts).out;
      if v != attempts[0].value {
        var k :| 0 <= k < |rest| && rest[k] == Parsed(v) && forall m :: 0 <= m < k ==> rest[m].Parsed?;
        assert attempts[k + 1] == rest[k];
        forall m | 0 < m < k + 1
          ensures attempts[m].Parsed?
        {
          assert attempts[m] == rest[m - 1];
        }
      }
    }
  }

  /** An attempt that cannot be parsed even after repair ends the loop with `None`, without a retry. */
  lemma NoRetryAfterRepairFails(end: real, out: Json, attempts: seq<Attempt>)
    requires LastEnd(out).Some? && !EqNum(LastEnd(out).value, end)
    requires attempts != [] && attempts[0] == Unparsable
    ensures Run(end, out, attempts) == Failed
  {
  }

  /** An answer that is not covering is thrown away and the next attempt's value is examined. */
  lemma RetryAfterShortAnswer(end: real, out: Json, attempts: seq<Attempt>)
    requires LastEnd(out).Some? && !EqNum(LastEnd(out).value, end)
    requires attempts != [] && attempts[0].Parsed?
    ensures Run(end, out, attempts) == Run(end, attempts[0].value, attempts[1..])
  {
  }
}
