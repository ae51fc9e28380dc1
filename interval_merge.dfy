/**
 * `merge_empty_intervals` in utility/video/video_search_query_generator.py:
 * a left-to-right pass over `(interval, url-or-None)` pairs that absorbs each
 * run of `None` entries into the entry before it.
 *
 * Times are of any type with equality (the code compares them only with
 * `==`); urls are of any type.
 */
module IntervalMerge {
  import opened Maybe

  datatype Interval<T> = Interval(start: T, end: T)

  /** One `[interval, url]` pair; `None` means no url was found. */
  datatype Entry<T, U> = Entry(interval: Interval<T>, url: Option<U>)

  // ---------------------------------------------------------------------------
  // Specification
  // ---------------------------------------------------------------------------

  /** Where the trailing run of `None` entries of `s` starts (`|s|` if there is none). */
  function RunStart<T, U>(s: seq<Entry<T, U>>): (r: nat)
    ensures r <= |s|
    ensures forall k :: r <= k < |s| ==> s[k].url.None?
    ensures r == 0 || s[r - 1].url.Some?
  {
    if s == [] || s[|s| - 1].url.Some? then |s| else RunStart(s[..|s| - 1])
  }

  /**
   * What the pass emits for `s`, defined from the right end. An entry with a
   * url is emitted as it is. A trailing `None` run with nothing before it
   * becomes its first interval tagged `None`. Otherwise the entry `prev`
   * just before the run (which has a url, so the url the code reads back is
   * never `None`) absorbs the run when its end is the run's start, its end
   * becoming the end of the run's last interval; if not, `prev` stays and
   * the run's first interval follows it, tagged with `prev`'s url, and the
   * rest of the run is dropped.
   */
  function Merged<T(==), U>(s: seq<Entry<T, U>>): seq<Entry<T, U>>
    decreases |s|
  {
    if s == [] then []
    else if s[|s| - 1].url.Some? then Merged(s[..|s| - 1]) + [s[|s| - 1]]
    else
      var i := RunStart(s);
      if i == 0 then [Entry(s[0].interval, None)]
      else
        var prev := s[i - 1];
        if prev.interval.end == s[i].interval.start then
          Merged(s[..i - 1]) + [Entry(Interval(prev.interval.start, s[|s| - 1].interval.end), prev.url)]
        else
          Merged(s[..i - 1]) + [prev, Entry(s[i].interval, prev.url)]
  }

  /** The urls that are not `None`, in order. */
  function Urls<T, U>(s: seq<Entry<T, U>>): seq<U>
  {
    if s == [] then []
    else Urls(s[..|s| - 1]) + (if s[|s| - 1].url.Some? then [s[|s| - 1].url.value] else [])
  }

  /** `a` is a subsequence of `b`: its elements occur in `b` in the same order. */
  predicate IsSubseq<X(==)>(a: seq<X>, b: seq<X>)
    decreases |b|
  {
    if a == [] then true
    else if b == [] then false
    else if a[|a| - 1] == b[|b| - 1] then IsSubseq(a[..|a| - 1], b[..|b| - 1])
    else IsSubseq(a, b[..|b| - 1])
  }

  // ---------------------------------------------------------------------------
  // The pass itself
  // ---------------------------------------------------------------------------

  /** The loop of the source, proved to compute `Merged`. */
  method MergeEmptyIntervals<T(==), U>(segments: seq<Entry<T, U>>) returns (merged: seq<Entry<T, U>>)
    ensures merged == Merged(segments)
    ensures |merged| <= |segments|
    ensures (forall k :: 0 <= k < |segments| ==> segments[k].url.Some?) ==> merged == segments
  {
    merged := [];
    var i := 0;
    while i < |segments|
      invariant 0 <= i <= |segments|
      invariant merged == Merged(segments[..i])
      invariant 0 < i < |segments| && segments[i].url.None? ==> segments[i - 1].url.Some?
    {
      var interval, url := segments[i].interval, segments[i].url;
      if url.None? {
        var j := i + 1;
        while j < |segments| && segments[j].url.None?
          invariant i < j <= |segments|
          invariant forall k :: i <= k < j ==> segments[k].url.None?
        {
          j := j + 1;
        }
        assert segments[..i] + segments[i..j] == segments[..j];
        if i > 0 {
          MergeRunAfter(segments[..i], segments[i..j]);
          var prevInterval, prevUrl := merged[|merged| - 1].interval, merged[|merged| - 1].url;
          if prevUrl.Some? && prevInterval.end == interval.start {
            merged := merged[..|merged| - 1] + [Entry(Interval(prevInterval.start, segments[j - 1].interval.end), prevUrl)];
          } else {
            merged := merged + [Entry(interval, prevUrl)];
          }
        } else {
          MergeLeadingRun(segments[..j]);
          merged := merged + [Entry(interval, None)];
        }
        i := j;
      } else {
        assert segments[..i + 1][..i] == segments[..i];
        merged := merged + [Entry(interval, url)];
        i := i + 1;
      }
    }
    assert segments[..i] == segments;
    MergedLength(segments);
    if forall k :: 0 <= k < |segments| ==> segments[k].url.Some? {
      MergedIdentity(segments);
    }
  }

  /** A run of `None` entries that follows an entry with a url starts right after it. */
  lemma {:induction false} RunStartAfter<T, U>(s: seq<Entry<T, U>>, i: nat)
    requires i < |s|
    requires i == 0 || s[i - 1].url.Some?
    requires forall k :: i <= k < |s| ==> s[k].url.None?
    ensures RunStart(s) == i
    decreases |s|
  {
    if |s| > i + 1 {
      var init := s[..|s| - 1];
      RunStartAfter(init, i);
    }
  }

  /** The last entry emitted for a prefix ending in an entry with a url is that entry. */
  lemma LastEmitted<T, U>(s: seq<Entry<T, U>>)
    requires s != [] && s[|s| - 1].url.Some?
    ensures var m := Merged(s);
      m != [] && m[|m| - 1] == s[|s| - 1] && m[..|m| - 1] == Merged(s[..|s| - 1])
  {
  }

  // ---------------------------------------------------------------------------
  // Properties
  // ---------------------------------------------------------------------------

  /** With no `None` url, the pass returns its input. */
  lemma {:induction false} MergedIdentity<T, U>(s: seq<Entry<T, U>>)
    requires forall k :: 0 <= k < |s| ==> s[k].url.Some?
    ensures Merged(s) == s
    decreases |s|
  {
    if s != [] {
      MergedIdentity(s[..|s| - 1]);
    }
  }

  /** The output is never longer than the input. */
  lemma {:induction false} MergedLength<T, U>(s: seq<Entry<T, U>>)
    ensures |Merged(s)| <= |s|
    decreases |s|
  {
    if s != [] {
      if s[|s| - 1].url.Some? {
        MergedLength(s[..|s| - 1]);
      } else {
        var i := RunStart(s);
        if i > 0 {
          MergedLength(s[..i - 1]);
        }
      }
    }
  }

  /** `None` can appear only as the first output entry, and only when the first input url is `None`. */
  lemma {:induction false} MergedNoneOnlyFirst<T, U>(s: seq<Entry<T, U>>)
    ensures forall k :: 0 <= k < |Merged(s)| && Merged(s)[k].url.None? ==> k == 0 && s[0].url.None?
    decreases |s|
  {
    if s != [] {
      if s[|s| - 1].url.Some? {
        MergedNoneOnlyFirst(s[..|s| - 1]);
      } else {
        var i := RunStart(s);
        if i > 0 {
          MergedNoneOnlyFirst(s[..i - 1]);
        }
      }
    }
  }

  /**
   * The three run cases. `p` is what precedes the run, ending in an entry
   * with a url; `m` is what the pass emits for `p`, ending in that entry.
   * A contiguous run extends `m`'s last entry to the run's end, keeping its
   * start and url; a non-contiguous run adds only its first interval, tagged
   * with that url.
   */
  lemma MergeRunAfter<T, U>(p: seq<Entry<T, U>>, run: seq<Entry<T, U>>)
    requires p != [] && p[|p| - 1].url.Some?
    requires run != [] && forall k :: 0 <= k < |run| ==> run[k].url.None?
    ensures var m := Merged(p); var prev := m[|m| - 1];
      && m != [] && prev == p[|p| - 1]
      && (prev.interval.end == run[0].interval.start ==>
            Merged(p + run) == m[..|m| - 1] + [Entry(Interval(prev.interval.start, run[|run| - 1].interval.end), prev.url)])
      && (prev.interval.end != run[0].interval.start ==>
            Merged(p + run) == m + [Entry(run[0].interval, prev.url)])
  {
    var s := p + run;
    RunStartAfter(s, |p|);
    assert s[|s| - 1] == run[|run| - 1] && s[|p|] == run[0] && s[|p| - 1] == p[|p| - 1];
    assert s[..|p| - 1] == p[..|p| - 1];
    LastEmitted(p);
  }

  /** A leading run emits only its first interval, tagged `None`. */
  lemma MergeLeadingRun<T, U>(run: seq<Entry<T, U>>)
    requires run != [] && forall k :: 0 <= k < |run| ==> run[k].url.None?
    ensures Merged(run) == [Entry(run[0].interval, None)]
  {
    RunStartAfter(run, 0);
  }

  lemma {:induction false} UrlsOfNoneRun<T, U>(s: seq<Entry<T, U>>, i: nat)
    requires i <= |s|
    requires forall k :: i <= k < |s| ==> s[k].url.None?
    ensures Urls(s) == Urls(s[..i])
    decreases |s|
  {
    if |s| > i {
      UrlsOfNoneRun(s[..|s| - 1], i);
      assert s[..|s| - 1][..i] == s[..i];
    } else {
      assert s[..i] == s;
    }
  }

  lemma UrlsAppend<T, U>(s: seq<Entry<T, U>>, e: Entry<T, U>)
    ensures Urls(s + [e]) == Urls(s) + (if e.url.Some? then [e.url.value] else [])
  {
    assert (s + [e])[..|s|] == s;
  }

  lemma {:induction false} SubseqDropLast<X>(a: seq<X>, b: seq<X>)
    requires a != [] && IsSubseq(a, b)
    ensures IsSubseq(a[..|a| - 1], b)
    decreases |b|, 0
  {
    var a', b' := a[..|a| - 1], b[..|b| - 1];
    if a[|a| - 1] == b[|b| - 1] {
      SubseqExtend(a', b', b[|b| - 1]);
      assert b' + [b[|b| - 1]] == b;
    } else {
      SubseqDropLast(a, b');
      SubseqExtend(a', b', b[|b| - 1]);
      assert b' + [b[|b| - 1]] == b;
    }
  }

  /** A subsequence stays one when the longer sequence grows. */
  lemma {:induction false} SubseqExtend<X>(a: seq<X>, b: seq<X>, x: X)
    requires IsSubseq(a, b)
    ensures IsSubseq(a, b + [x])
    decreases |b|, 1
  {
    var b2 := b + [x];
    assert b2[..|b2| - 1] == b;
    if a != [] && a[|a| - 1] == x {
      SubseqDropLast(a, b);
    }
  }

  lemma SubseqBoth<X>(a: seq<X>, b: seq<X>, x: X)
    requires IsSubseq(a, b)
    ensures IsSubseq(a + [x], b + [x])
  {
    assert (a + [x])[..|a|] == a;
    assert (b + [x])[..|b|] == b;
  }

  /**
   * The urls of the input appear in the output in the same order, and every
   * url of the output is one of the input's.
   */
  lemma {:induction false} MergedKeepsUrls<T, U>(s: seq<Entry<T, U>>)
    ensures IsSubseq(Urls(s), Urls(Merged(s)))
    ensures forall u :: u in Urls(Merged(s)) ==> u in Urls(s)
    decreases |s|
  {
    if s == [] {
    } else if s[|s| - 1].url.Some? {
      MergedKeepsUrls(s[..|s| - 1]);
      KeepsUrlsLast(s);
    } else if RunStart(s) == 0 {
      UrlsOfLeadingRun(s);
    } else {
      MergedKeepsUrls(s[..RunStart(s) - 1]);
      KeepsUrlsRun(s);
    }
  }

  /** Every element of `a` is an element of `b`. */
  ghost predicate AllIn<X>(a: seq<X>, b: seq<X>)
  {
    forall x :: x in a ==> x in b
  }

  /** Helper: the inductive step of `MergedKeepsUrls` for a last entry with a url. */
  lemma KeepsUrlsLast<T, U>(s: seq<Entry<T, U>>)
    requires s != [] && s[|s| - 1].url.Some?
    requires IsSubseq(Urls(s[..|s| - 1]), Urls(Merged(s[..|s| - 1])))
    requires AllIn(Urls(Merged(s[..|s| - 1])), Urls(s[..|s| - 1]))
    ensures IsSubseq(Urls(s), Urls(Merged(s)))
    ensures forall u :: u in Urls(Merged(s)) ==> u in Urls(s)
  {
    var init := s[..|s| - 1];
    UrlsOfLast(s);
    SubseqBoth(Urls(init), Urls(Merged(init)), s[|s| - 1].url.value);
  }

  /** Helper: the inductive step of `MergedKeepsUrls` for a trailing run after an entry with a url. */
  lemma KeepsUrlsRun<T, U>(s: seq<Entry<T, U>>)
    requires s != [] && s[|s| - 1].url.None? && RunStart(s) > 0
    requires IsSubseq(Urls(s[..RunStart(s) - 1]), Urls(Merged(s[..RunStart(s) - 1])))
    requires AllIn(Urls(Merged(s[..RunStart(s) - 1])), Urls(s[..RunStart(s) - 1]))
    ensures IsSubseq(Urls(s), Urls(Merged(s)))
    ensures forall u :: u in Urls(Merged(s)) ==> u in Urls(s)
  {
    var i := RunStart(s);
    var a, b := Urls(s[..i - 1]), Urls(Merged(s[..i - 1]));
    var u := s[i - 1].url.value;
    UrlsOfRun(s);
    SubseqBoth(a, b, u);
    if s[i - 1].interval.end != s[i].interval.start {
      SubseqExtend(a + [u], b + [u], u);
      assert b + [u, u] == b + [u] + [u];
    }
  }

  /** Helper: the urls on both sides when the last entry has a url. */
  lemma UrlsOfLast<T, U>(s: seq<Entry<T, U>>)
    requires s != [] && s[|s| - 1].url.Some?
    ensures Urls(s) == Urls(s[..|s| - 1]) + [s[|s| - 1].url.value]
    ensures Urls(Merged(s)) == Urls(Merged(s[..|s| - 1])) + [s[|s| - 1].url.value]
  {
    UrlsAppend(Merged(s[..|s| - 1]), s[|s| - 1]);
  }

  /** Helper: a sequence that is one run of `None` entries has no urls on either side. */
  lemma UrlsOfLeadingRun<T, U>(s: seq<Entry<T, U>>)
    requires s != [] && s[|s| - 1].url.None? && RunStart(s) == 0
    ensures Urls(s) == [] && Urls(Merged(s)) == []
  {
    UrlsOfNoneRun(s, 0);
    var lead: seq<Entry<T, U>> := [Entry(s[0].interval, None)];
    assert Merged(s) == lead;
    assert Urls(lead) == [];
  }

  /** Helper: the urls on both sides of a trailing run that follows an entry with a url. */
  lemma UrlsOfRun<T, U>(s: seq<Entry<T, U>>)
    requires s != [] && s[|s| - 1].url.None? && RunStart(s) > 0
    ensures var i := RunStart(s); var prev := s[i - 1]; var before := s[..i - 1];
      && Urls(s) == Urls(before) + [prev.url.value]
      && Urls(Merged(s)) == Urls(Merged(before))
           + (if prev.interval.end == s[i].interval.start then [prev.url.value] else [prev.url.value, prev.url.value])
  {
    var i := RunStart(s);
    var before := s[..i - 1];
    var prev := s[i - 1];
    UrlsOfNoneRun(s, i);
    assert s[..i] == before + [prev];
    UrlsAppend(before, prev);
    var m := Merged(before);
    if prev.interval.end == s[i].interval.start {
      UrlsAppend(m, Entry(Interval(prev.interval.start, s[|s| - 1].interval.end), prev.url));
    } else {
      var gap := Entry(s[i].interval, prev.url);
      assert m + [prev, gap] == (m + [prev]) + [gap];
      UrlsAppend(m, prev);
      UrlsAppend(m + [prev], gap);
    }
  }

  /**
   * The pass does not preserve coverage: a run that does not touch the entry
   * before it keeps only its first interval, so `[3,4]` survives and `[4,6]`
   * is lost.
   */
  lemma MergeDropsRunTail()
    ensures var s := [Entry(Interval(0, 2), Some("a")), Entry(Interval(3, 4), None), Entry(Interval(4, 6), None)];
      Merged(s) == [Entry(Interval(0, 2), Some("a")), Entry(Interval(3, 4), Some("a"))]
  {
    var s := [Entry(Interval(0, 2), Some("a")), Entry(Interval(3, 4), None), Entry(Interval(4, 6), None)];
    MergeRunAfter(s[..1], s[1..]);
    assert s[..1] + s[1..] == s;
  }
}
