/** The progress hooks of `_process_task` (download and upload): an update is
    rendered only when at least the configured interval has passed since the
    last rendered one (or since the phase began), and the download's
    "finished" report is always rendered. Clock readings are whole seconds. */
module Throttle {
  import opened Wrappers

  const DefaultInterval: int := 7

  /** `PROGRESS_UPDATE_INTERVAL`, replaced by 7 when the setting is falsy:
      the interval in force is never zero, and a non-zero setting is kept. */
  function EffectiveInterval(configured: Option<int>): (i: int)
    ensures i != 0
    ensures configured.Some? && configured.value != 0 ==> i == configured.value
    ensures configured.None? || configured.value == 0 ==> i == DefaultInterval
  {
    if configured.None? || configured.value == 0 then DefaultInterval else configured.value
  }

  /** The hook's closure state: the time of the last rendered update. */
  datatype Hook = Hook(last: int, interval: int)

  /** A report from the downloader (`status` and the clock at that moment), or
      an upload callback, which behaves like a `downloading` report. */
  datatype Sample = Downloading(now: int) | Finished | OtherStatus

  datatype Emit = NoUpdate | Progress(at: int) | Done

  /** The hook's state is set to the clock when the phase starts. */
  function StartHook(now: int, configured: Option<int>): (h: Hook)
    ensures h.last == now && h.interval != 0
    ensures configured.Some? && configured.value != 0 ==> h.interval == configured.value
    ensures configured.None? || configured.value == 0 ==> h.interval == DefaultInterval
  {
    Hook(now, EffectiveInterval(configured))
  }

  /** One call of the hook. */
  function OnSample(h: Hook, s: Sample): (r: (Hook, Emit))
    ensures s.Finished? ==> r == (h, Done)
    ensures s.OtherStatus? ==> r == (h, NoUpdate)
    ensures s.Downloading? ==> (r.1.Progress? <==> s.now - h.last >= h.interval)
    ensures s.Downloading? && s.now - h.last < h.interval ==> r == (h, NoUpdate)
    ensures r.1.Done? <==> s.Finished?
    ensures r.1.Progress? ==> r.1.at == s.now && r.0 == h.(last := s.now)
    ensures r.1.NoUpdate? ==> r.0 == h
  {
    match s
    case Downloading(now) =>
      if now - h.last >= h.interval then (h.(last := now), Progress(now)) else (h, NoUpdate)
    case Finished => (h, Done)
    case OtherStatus => (h, NoUpdate)
  }

  /** The updates rendered over a sequence of hook calls, in order. */
  function Run(h: Hook, samples: seq<Sample>): seq<Emit>
    decreases |samples|
  {
    if |samples| == 0 then []
    else
      var (h', e) := OnSample(h, samples[0]);
      (if e.NoUpdate? then [] else [e]) + Run(h', samples[1..])
  }

  /** The times of the rendered progress updates. */
  function ProgressTimes(es: seq<Emit>): seq<int> {
    if |es| == 0 then []
    else (if es[0].Progress? then [es[0].at] else []) + ProgressTimes(es[1..])
  }

  function CountDone(es: seq<Emit>): nat {
    if |es| == 0 then 0 else (if es[0].Done? then 1 else 0) + CountDone(es[1..])
  }

  function CountFinished(samples: seq<Sample>): nat {
    if |samples| == 0 then 0 else (if samples[0].Finished? then 1 else 0) + CountFinished(samples[1..])
  }

  /** Rendered times start at least one interval after `start` and are at
      least one interval apart. */
  predicate Spaced(start: int, interval: int, ts: seq<int>) {
    && (|ts| > 0 ==> ts[0] - start >= interval)
    && forall k :: 0 <= k < |ts| - 1 ==> ts[k + 1] - ts[k] >= interval
  }

  lemma ProgressTimesConcat(a: seq<Emit>, b: seq<Emit>)
    ensures ProgressTimes(a + b) == ProgressTimes(a) + ProgressTimes(b)
    ensures CountDone(a + b) == CountDone(a) + CountDone(b)
  {
    if |a| > 0 {
      assert (a + b)[1..] == a[1..] + b;
      ProgressTimesConcat(a[1..], b);
    } else {
      assert a + b == b;
    }
  }

  /** Run unfolds one call at a time. */
  lemma RunStep(h: Hook, samples: seq<Sample>)
    requires |samples| > 0
    ensures var (h', e) := OnSample(h, samples[0]);
      && ProgressTimes(Run(h, samples)) ==
           (if e.Progress? then [e.at] else []) + ProgressTimes(Run(h', samples[1..]))
      && CountDone(Run(h, samples)) ==
           (if e.Done? then 1 else 0) + CountDone(Run(h', samples[1..]))
  {
    var (h', e) := OnSample(h, samples[0]);
    var head: seq<Emit> := if e.NoUpdate? then [] else [e];
    assert Run(h, samples) == head + Run(h', samples[1..]);
    ProgressTimesConcat(head, Run(h', samples[1..]));
    assert ProgressTimes(head) == if e.Progress? then [e.at] else [];
    assert CountDone(head) == if e.Done? then 1 else 0;
  }

  /** Putting a time at least one interval after `start` and at least one
      interval before a spaced sequence keeps it spaced. */
  lemma SpacedCons(start: int, interval: int, t: int, rest: seq<int>)
    requires t - start >= interval && Spaced(t, interval, rest)
    ensures Spaced(start, interval, [t] + rest)
  {
    var ts := [t] + rest;
    forall k | 0 <= k < |ts| - 1 ensures ts[k + 1] - ts[k] >= interval {
      if k > 0 {
        assert ts[k] == rest[k - 1] && ts[k + 1] == rest[k];
      }
    }
  }

  /** Over any sequence of calls, the rendered progress updates are spaced by
      the interval from the phase start and from each other, and every
      "finished" report is rendered, exactly once each. */
  lemma {:induction false} RunSpaced(h: Hook, samples: seq<Sample>)
    ensures Spaced(h.last, h.interval, ProgressTimes(Run(h, samples)))
    ensures CountDone(Run(h, samples)) == CountFinished(samples)
    decreases |samples|
  {
    if |samples| > 0 {
      var (h', e) := OnSample(h, samples[0]);
      RunStep(h, samples);
      RunSpaced(h', samples[1..]);
      if e.Progress? {
        SpacedCons(h.last, h.interval, e.at, ProgressTimes(Run(h', samples[1..])));
      }
    }
  }

  /** Spaced updates that all happen within `T` seconds of the start number
      at most `T / interval`. */
  lemma {:induction false} SpacedBound(start: int, interval: int, ts: seq<int>, T: int)
    requires interval > 0
    requires Spaced(start, interval, ts)
    requires forall k :: 0 <= k < |ts| ==> ts[k] <= start + T
    ensures |ts| * interval <= T || |ts| == 0
    decreases |ts|
  {
    if |ts| > 0 {
      var rest := ts[1..];
      assert Spaced(ts[0], interval, rest) by {
        forall k | 0 <= k < |rest| - 1 ensures rest[k + 1] - rest[k] >= interval {
          assert rest[k] == ts[k + 1] && rest[k + 1] == ts[k + 2];
        }
        if |rest| > 0 {
          assert rest[0] == ts[1];
        }
      }
      SpacedBound(ts[0], interval, rest, start + T - ts[0]);
      assert |ts| * interval == |rest| * interval + interval;
    }
  }

  /** The rate limit: with a positive interval, the progress updates rendered
      for samples taken within `T` seconds of the phase start number at most
      `T / interval` (the "finished" report aside). */
  lemma RateLimit(h: Hook, samples: seq<Sample>, T: nat)
    requires h.interval > 0
    requires forall k :: 0 <= k < |samples| && samples[k].Downloading? ==> samples[k].now <= h.last + T
    ensures |ProgressTimes(Run(h, samples))| <= T / h.interval
  {
    RunSpaced(h, samples);
    RunTimesBounded(h, samples, h.last + T);
    SpacedCount(h.last, h.interval, ProgressTimes(Run(h, samples)), T);
  }

  /** The count bound on a spaced sequence of times, as a quotient. */
  lemma SpacedCount(start: int, interval: int, ts: seq<int>, T: nat)
    requires interval > 0
    requires Spaced(start, interval, ts)
    requires forall k :: 0 <= k < |ts| ==> ts[k] <= start + T
    ensures |ts| <= T / interval
  {
    SpacedBound(start, interval, ts, T);
    if |ts| > 0 {
      DivBound(|ts|, interval, T);
    }
  }

  /** No rendered time is later than the latest report. */
  lemma {:induction false} RunTimesBounded(h: Hook, samples: seq<Sample>, bound: int)
    requires forall k :: 0 <= k < |samples| && samples[k].Downloading? ==> samples[k].now <= bound
    ensures forall k :: 0 <= k < |ProgressTimes(Run(h, samples))| ==> ProgressTimes(Run(h, samples))[k] <= bound
    decreases |samples|
  {
    if |samples| > 0 {
      var (h', e) := OnSample(h, samples[0]);
      RunStep(h, samples);
      assert forall k :: 0 <= k < |samples[1..]| && samples[1..][k].Downloading? ==> samples[1..][k].now <= bound by {
        forall k | 0 <= k < |samples[1..]| && samples[1..][k].Downloading? ensures samples[1..][k].now <= bound {
          assert samples[1..][k] == samples[k + 1];
        }
      }
      RunTimesBounded(h', samples[1..], bound);
      if e.Progress? {
        assert e.at == samples[0].now;
      }
    }
  }

  lemma DivBound(n: nat, d: nat, T: nat)
    requires d > 0 && n * d <= T
    ensures n <= T / d
  {
    assert T == (T / d) * d + T % d;
    if T / d < n {
      MulMono(T / d + 1, n, d);
    }
  }

  lemma MulMono(x: nat, y: nat, d: nat)
    requires x <= y
    ensures x * d <= y * d
  {
  }

  /** Every rendered progress time is the clock reading of some sample. */
  lemma {:induction false} RunTimesAreSamples(h: Hook, samples: seq<Sample>)
    ensures forall t :: t in ProgressTimes(Run(h, samples)) ==>
      exists k :: 0 <= k < |samples| && samples[k] == Downloading(t)
    decreases |samples|
  {
    if |samples| > 0 {
      var (h', e) := OnSample(h, samples[0]);
      var head: seq<Emit> := if e.NoUpdate? then [] else [e];
      RunTimesAreSamples(h', samples[1..]);
      ProgressTimesConcat(head, Run(h', samples[1..]));
      forall t | t in ProgressTimes(Run(h, samples))
        ensures exists k :: 0 <= k < |samples| && samples[k] == Downloading(t)
      {
        if t in ProgressTimes(Run(h', samples[1..])) {
          var k :| 0 <= k < |samples[1..]| && samples[1..][k] == Downloading(t);
          assert samples[k + 1] == Downloading(t);
        } else {
          assert e.Progress? && samples[0] == Downloading(t);
        }
      }
    }
  }
}
