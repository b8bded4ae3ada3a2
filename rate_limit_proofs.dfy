/**
 Properties of the rate limiter: what one admission step does to the
 request log, and what a whole sequence of requests can and cannot be
 admitted (the admission ceiling, independence of clients, recovery after
 the window has passed, the repeated-reject case and a worked trace).
 */
module RateLimitProofs {
  import opened RateLimit

  // ---------------------------------------------------------------------
  // The window filter
  // ---------------------------------------------------------------------

  /** Filtering distributes over concatenation, so it keeps the order. */
  lemma {:induction false} LiveAppend(a: seq<Millis>, b: seq<Millis>, now: Millis, windowMs: int)
    ensures Live(a + b, now, windowMs) == Live(a, now, windowMs) + Live(b, now, windowMs)
  {
    if a == [] {
      assert a + b == b;
    } else {
      assert (a + b)[1..] == a[1..] + b;
      LiveAppend(a[1..], b, now, windowMs);
    }
  }

  /**
   The filter keeps every in-window timestamp as often as it occurs in the
   log and drops every other one.
   */
  lemma {:induction false} LiveMultiplicity(log: seq<Millis>, now: Millis, windowMs: int, t: Millis)
    ensures multiset(Live(log, now, windowMs))[t] == if InWindow(t, now, windowMs) then multiset(log)[t] else 0
  {
    if log != [] {
      LiveMultiplicity(log[1..], now, windowMs, t);
      assert log == [log[0]] + log[1..];
    }
  }

  /**
   Filtering at `now` and then at a later time is filtering at the later
   time: whatever is outside the window then was outside it later too.
   */
  lemma {:induction false} LiveLater(log: seq<Millis>, now: Millis, later: Millis, windowMs: int)
    requires now <= later
    ensures Live(Live(log, now, windowMs), later, windowMs) == Live(log, later, windowMs)
  {
    if log != [] {
      var x, rest := log[0], log[1..];
      assert log == [x] + rest;
      LiveLater(rest, now, later, windowMs);
      LiveAppend([x], rest, later, windowMs);
      if InWindow(x, now, windowMs) {
        LiveAppend([x], Live(rest, now, windowMs), later, windowMs);
      }
    }
  }

  /** The timestamps are in nondecreasing order. */
  predicate Sorted(log: seq<Millis>)
  {
    forall i, j :: 0 <= i < j < |log| ==> log[i] <= log[j]
  }

  /** A timestamp no later than any of a sorted list can go in front of it. */
  lemma ConsSorted(x: Millis, log: seq<Millis>)
    requires Sorted(log)
    requires forall t :: t in log ==> x <= t
    ensures Sorted([x] + log)
  {
    forall i, j | 0 <= i < j < |[x] + log|
      ensures ([x] + log)[i] <= ([x] + log)[j]
    {
      assert ([x] + log)[j] == log[j - 1] && log[j - 1] in log;
      if i > 0 {
        assert ([x] + log)[i] == log[i - 1];
      }
    }
  }

  /** A timestamp no earlier than any of a sorted list can go after it. */
  lemma SnocSorted(log: seq<Millis>, x: Millis)
    requires Sorted(log)
    requires forall t :: t in log ==> t <= x
    ensures Sorted(log + [x])
  {
    forall i, j | 0 <= i < j < |log + [x]|
      ensures (log + [x])[i] <= (log + [x])[j]
    {
      assert (log + [x])[i] == log[i] && log[i] in log;
      if j < |log| {
        assert (log + [x])[j] == log[j];
      }
    }
  }

  /** The filter keeps a sorted list sorted. */
  lemma {:induction false} LiveSorted(log: seq<Millis>, now: Millis, windowMs: int)
    requires Sorted(log)
    ensures Sorted(Live(log, now, windowMs))
  {
    if log != [] {
      var rest := Live(log[1..], now, windowMs);
      assert Sorted(log[1..]);
      LiveSorted(log[1..], now, windowMs);
      assert forall t :: t in rest ==> log[0] <= t by {
        forall t | t in rest
          ensures log[0] <= t
        {
          var j :| 0 <= j < |log[1..]| && log[1..][j] == t;
          assert log[j + 1] == t;
        }
      }
      if InWindow(log[0], now, windowMs) {
        ConsSorted(log[0], rest);
      }
    }
  }

  /** A filter that keeps as many timestamps as it was given has dropped none. */
  lemma {:induction false} LiveFullLength(log: seq<Millis>, now: Millis, windowMs: int)
    requires |Live(log, now, windowMs)| == |log|
    ensures Live(log, now, windowMs) == log
  {
    if log != [] && InWindow(log[0], now, windowMs) {
      LiveFullLength(log[1..], now, windowMs);
      assert log == [log[0]] + log[1..];
    }
  }

  // ---------------------------------------------------------------------
  // One admission step
  // ---------------------------------------------------------------------

  /** Every step keeps each stored list at most `max` long. */
  lemma StepKeepsBounded(log: RequestLog, key: ClientKey, now: Millis, windowMs: int, max: int)
    requires Bounded(log, max)
    ensures Bounded(Step(log, key, now, windowMs, max).log, max)
  {
  }

  /** After an admission every stored timestamp of that key is in the window. */
  lemma AdmitKeepsOnlyLive(log: RequestLog, key: ClientKey, now: Millis, windowMs: int, max: int)
    requires windowMs > 0
    requires Step(log, key, now, windowMs, max).decision.Admit?
    ensures forall t :: t in Stored(Step(log, key, now, windowMs, max).log, key) ==> InWindow(t, now, windowMs)
    ensures Stored(Step(log, key, now, windowMs, max).log, key)[|Live(Stored(log, key), now, windowMs)|] == now
  {
  }

  /**
   In a log that keeps the ceiling, a rejected request finds nothing
   expired: the filtered list it discards is the stored list itself, so not
   pruning on a reject loses nothing.
   */
  lemma RejectFindsNothingExpired(log: RequestLog, key: ClientKey, now: Millis, windowMs: int, max: int)
    requires Bounded(log, max)
    requires Step(log, key, now, windowMs, max).decision.Reject?
    ensures Live(Stored(log, key), now, windowMs) == Stored(log, key)
  {
    LiveFullLength(Stored(log, key), now, windowMs);
  }

  /**
   The decision and the new entry of `key` depend on nothing but the old
   entry of `key`.
   */
  lemma StepDependsOnOwnEntry(log1: RequestLog, log2: RequestLog, key: ClientKey, now: Millis, windowMs: int, max: int)
    requires Stored(log1, key) == Stored(log2, key)
    ensures Step(log1, key, now, windowMs, max).decision == Step(log2, key, now, windowMs, max).decision
    ensures Stored(Step(log1, key, now, windowMs, max).log, key) == Stored(Step(log2, key, now, windowMs, max).log, key)
  {
  }

  /**
   A step whose clock reading is no earlier than any stored timestamp of
   `key` keeps that entry sorted, since an admit appends the reading last.
   */
  lemma StepKeepsSorted(log: RequestLog, key: ClientKey, now: Millis, windowMs: int, max: int)
    requires Sorted(Stored(log, key))
    requires forall t :: t in Stored(log, key) ==> t <= now
    ensures Sorted(Stored(Step(log, key, now, windowMs, max).log, key))
    ensures forall t :: t in Stored(Step(log, key, now, windowMs, max).log, key) ==> t <= now
  {
    var kept := Live(Stored(log, key), now, windowMs);
    LiveSorted(Stored(log, key), now, windowMs);
    assert forall t :: t in kept ==> t <= now;
    SnocSorted(kept, now);
  }

  // ---------------------------------------------------------------------
  // Runs of many requests
  // ---------------------------------------------------------------------

  /** One inbound request: its resolved key and the clock reading. */
  datatype Request = Request(key: ClientKey, now: Millis)

  /** The log after a run of requests and the decision taken for each. */
  datatype Trace = Trace(log: RequestLog, decisions: seq<Decision>)

  /** The requests handled one after another, starting from `log`. */
  function Run(log: RequestLog, reqs: seq<Request>, windowMs: int, max: int): (tr: Trace)
    ensures |tr.decisions| == |reqs|
    decreases |reqs|
  {
    if reqs == [] then Trace(log, [])
    else
      var before := Run(log, reqs[..|reqs| - 1], windowMs, max);
      var r := reqs[|reqs| - 1];
      var o := Step(before.log, r.key, r.now, windowMs, max);
      Trace(o.log, before.decisions + [o.decision])
  }

  /** The timestamps of the admitted requests of `key`, in arrival order. */
  function Admitted(reqs: seq<Request>, decisions: seq<Decision>, key: ClientKey): seq<Millis>
    requires |decisions| == |reqs|
    decreases |reqs|
  {
    if reqs == [] then []
    else
      var n := |reqs| - 1;
      Admitted(reqs[..n], decisions[..n], key)
        + (if reqs[n].key == key && decisions[n].Admit? then [reqs[n].now] else [])
  }

  /** The requests of `key` alone, in the same order. */
  function OnlyKey(reqs: seq<Request>, key: ClientKey): (r: seq<Request>)
    ensures forall q :: q in r ==> q in reqs && q.key == key
    decreases |reqs|
  {
    if reqs == [] then []
    else
      var n := |reqs| - 1;
      OnlyKey(reqs[..n], key) + (if reqs[n].key == key then [reqs[n]] else [])
  }

  /** A run extended by one request takes one more step. */
  lemma RunSnoc(log: RequestLog, reqs: seq<Request>, r: Request, windowMs: int, max: int)
    ensures var before := Run(log, reqs, windowMs, max);
      var o := Step(before.log, r.key, r.now, windowMs, max);
      Run(log, reqs + [r], windowMs, max) == Trace(o.log, before.decisions + [o.decision])
  {
    assert (reqs + [r])[..|reqs|] == reqs;
  }

  /** An admitted request of `key` appends its time to the admitted timestamps. */
  lemma AdmittedSnoc(reqs: seq<Request>, decisions: seq<Decision>, r: Request, d: Decision, key: ClientKey)
    requires |decisions| == |reqs|
    ensures Admitted(reqs + [r], decisions + [d], key)
         == Admitted(reqs, decisions, key) + (if r.key == key && d.Admit? then [r.now] else [])
  {
    assert (reqs + [r])[..|reqs|] == reqs;
    assert (decisions + [d])[..|reqs|] == decisions;
  }

  /** The decisions taken for the requests of `key`, in arrival order. */
  function KeyDecisions(reqs: seq<Request>, decisions: seq<Decision>, key: ClientKey): seq<Decision>
    requires |decisions| == |reqs|
    decreases |reqs|
  {
    if reqs == [] then []
    else
      var n := |reqs| - 1;
      KeyDecisions(reqs[..n], decisions[..n], key) + (if reqs[n].key == key then [decisions[n]] else [])
  }

  /** The clock never goes backwards across the run. */
  predicate Chronological(reqs: seq<Request>)
  {
    forall i, j :: 0 <= i < j < |reqs| ==> reqs[i].now <= reqs[j].now
  }

  /**
   How many of `admitted` fall in the window that ends at `s`: those with
   `t <= s` and `s - t < windowMs`.
   */
  function WindowCount(admitted: seq<Millis>, s: Millis, windowMs: int): (n: nat)
    ensures n <= |admitted|
    decreases |admitted|
  {
    if admitted == [] then 0
    else
      var n := |admitted| - 1;
      WindowCount(admitted[..n], s, windowMs)
        + (if admitted[n] <= s && InWindow(admitted[n], s, windowMs) then 1 else 0)
  }

  /** A run keeps the ceiling on every stored list. */
  lemma {:induction false} RunKeepsBounded(log: RequestLog, reqs: seq<Request>, windowMs: int, max: int)
    requires Bounded(log, max)
    ensures Bounded(Run(log, reqs, windowMs, max).log, max)
    decreases |reqs|
  {
    if reqs != [] {
      RunKeepsBounded(log, reqs[..|reqs| - 1], windowMs, max);
    }
  }

  /**
   Independence across clients: the entry of `key`, the decision taken for
   each of its requests and the timestamps of its admitted requests are the
   same whether or not the other clients' requests are interleaved with its
   own.
   */
  lemma {:induction false} RunIndependent(log: RequestLog, reqs: seq<Request>, key: ClientKey, windowMs: int, max: int)
    ensures Stored(Run(log, reqs, windowMs, max).log, key) == Stored(Run(log, OnlyKey(reqs, key), windowMs, max).log, key)
    ensures KeyDecisions(reqs, Run(log, reqs, windowMs, max).decisions, key) == Run(log, OnlyKey(reqs, key), windowMs, max).decisions
    ensures Admitted(reqs, Run(log, reqs, windowMs, max).decisions, key)
         == Admitted(OnlyKey(reqs, key), Run(log, OnlyKey(reqs, key), windowMs, max).decisions, key)
    decreases |reqs|
  {
    if reqs != [] {
      RunIndependent(log, reqs[..|reqs| - 1], key, windowMs, max);
      IndependentStep(log, reqs, key, windowMs, max);
    }
  }

  /** The inductive step of `RunIndependent`: the last request keeps the three facts. */
  lemma IndependentStep(log: RequestLog, reqs: seq<Request>, key: ClientKey, windowMs: int, max: int)
    requires reqs != []
    requires var pre := reqs[..|reqs| - 1];
      Stored(Run(log, pre, windowMs, max).log, key) == Stored(Run(log, OnlyKey(pre, key), windowMs, max).log, key)
    requires var pre := reqs[..|reqs| - 1];
      KeyDecisions(pre, Run(log, pre, windowMs, max).decisions, key) == Run(log, OnlyKey(pre, key), windowMs, max).decisions
    requires var pre := reqs[..|reqs| - 1];
      Admitted(pre, Run(log, pre, windowMs, max).decisions, key)
        == Admitted(OnlyKey(pre, key), Run(log, OnlyKey(pre, key), windowMs, max).decisions, key)
    ensures Stored(Run(log, reqs, windowMs, max).log, key) == Stored(Run(log, OnlyKey(reqs, key), windowMs, max).log, key)
    ensures KeyDecisions(reqs, Run(log, reqs, windowMs, max).decisions, key) == Run(log, OnlyKey(reqs, key), windowMs, max).decisions
    ensures Admitted(reqs, Run(log, reqs, windowMs, max).decisions, key)
         == Admitted(OnlyKey(reqs, key), Run(log, OnlyKey(reqs, key), windowMs, max).decisions, key)
  {
    var n := |reqs| - 1;
    var r := reqs[n];
    var p := OnlyKey(reqs[..n], key);
    var all := Run(log, reqs[..n], windowMs, max);
    var own := Run(log, p, windowMs, max);
    assert Run(log, reqs, windowMs, max).decisions[..n] == all.decisions;
    if r.key == key {
      assert OnlyKey(reqs, key) == p + [r];
      var o' := Step(own.log, r.key, r.now, windowMs, max);
      RunSnoc(log, p, r, windowMs, max);
      AdmittedSnoc(p, own.decisions, r, o'.decision, key);
      StepDependsOnOwnEntry(all.log, own.log, key, r.now, windowMs, max);
    } else {
      assert OnlyKey(reqs, key) == p;
    }
  }

  /**
   From the empty log, whatever requests came before, a reject discards
   exactly the stored list of its key: every stored timestamp of that key is
   still inside the window.
   */
  lemma RunRejectFindsNothingExpired(reqs: seq<Request>, key: ClientKey, now: Millis, windowMs: int, max: int)
    requires Step(Run(map[], reqs, windowMs, max).log, key, now, windowMs, max).decision.Reject?
    ensures var stored := Stored(Run(map[], reqs, windowMs, max).log, key);
      Live(stored, now, windowMs) == stored
    ensures forall t :: t in Stored(Run(map[], reqs, windowMs, max).log, key) ==> InWindow(t, now, windowMs)
  {
    RunKeepsBounded(map[], reqs, windowMs, max);
    RejectFindsNothingExpired(Run(map[], reqs, windowMs, max).log, key, now, windowMs, max);
  }

  /** Every admitted timestamp is a clock reading of the run. */
  lemma {:induction false} AdmittedNotAfter(log: RequestLog, reqs: seq<Request>, key: ClientKey, windowMs: int, max: int, later: Millis)
    requires forall i :: 0 <= i < |reqs| ==> reqs[i].now <= later
    ensures forall t :: t in Admitted(reqs, Run(log, reqs, windowMs, max).decisions, key) ==> t <= later
    decreases |reqs|
  {
    if reqs != [] {
      var n := |reqs| - 1;
      AdmittedNotAfter(log, reqs[..n], key, windowMs, max, later);
      assert Run(log, reqs, windowMs, max).decisions[..n] == Run(log, reqs[..n], windowMs, max).decisions;
    }
  }

  /**
   From an empty log, at any time no earlier than the run's clock readings,
   the stored entry of `key` holds exactly the admitted timestamps of `key`
   that are still in the window: pruning never loses a live admission.
   */
  lemma {:induction false} StoredMatchesAdmitted(reqs: seq<Request>, key: ClientKey, windowMs: int, max: int, later: Millis)
    requires forall i :: 0 <= i < |reqs| ==> reqs[i].now <= later
    ensures Live(Stored(Run(map[], reqs, windowMs, max).log, key), later, windowMs)
         == Live(Admitted(reqs, Run(map[], reqs, windowMs, max).decisions, key), later, windowMs)
    decreases |reqs|
  {
    if reqs != [] {
      var n := |reqs| - 1;
      var r := reqs[n];
      var before := Run(map[], reqs[..n], windowMs, max);
      var after := Run(map[], reqs, windowMs, max);
      StoredMatchesAdmitted(reqs[..n], key, windowMs, max, later);
      var o := Step(before.log, r.key, r.now, windowMs, max);
      assert after == Trace(o.log, before.decisions + [o.decision]);
      assert after.decisions[..n] == before.decisions;
      var a := Admitted(reqs[..n], before.decisions, key);
      var l := Stored(before.log, key);
      if r.key == key && o.decision.Admit? {
        assert Admitted(reqs, after.decisions, key) == a + [r.now];
        assert Stored(o.log, key) == Live(l, r.now, windowMs) + [r.now];
        LiveAppend(Live(l, r.now, windowMs), [r.now], later, windowMs);
        LiveLater(l, r.now, later, windowMs);
        LiveAppend(a, [r.now], later, windowMs);
      } else {
        assert Admitted(reqs, after.decisions, key) == a;
        assert Stored(o.log, key) == l;
      }
    }
  }

  /**
   If every admitted timestamp is at most `now` and `now <= s`, the window
   ending at `s` holds no more of them than the window ending at `now`.
   */
  lemma {:induction false} WindowCountAtMostLive(admitted: seq<Millis>, now: Millis, s: Millis, windowMs: int)
    requires now <= s
    requires forall t :: t in admitted ==> t <= now
    ensures WindowCount(admitted, s, windowMs) <= |Live(admitted, now, windowMs)|
    decreases |admitted|
  {
    if admitted != [] {
      var n := |admitted| - 1;
      assert admitted == admitted[..n] + [admitted[n]];
      assert forall t :: t in admitted[..n] ==> t in admitted;
      WindowCountAtMostLive(admitted[..n], now, s, windowMs);
      LiveAppend(admitted[..n], [admitted[n]], now, windowMs);
    }
  }

  /**
   The admission ceiling: when the clock never goes backwards, for every
   client and every window of length `windowMs` (ending at any `s`), at most
   `max` of that client's requests inside the window are admitted.
   */
  lemma {:induction false} AdmissionCeiling(reqs: seq<Request>, key: ClientKey, s: Millis, windowMs: int, max: int)
    requires Chronological(reqs)
    requires max >= 0
    ensures WindowCount(Admitted(reqs, Run(map[], reqs, windowMs, max).decisions, key), s, windowMs) <= max
    decreases |reqs|
  {
    if reqs != [] {
      var n := |reqs| - 1;
      assert Chronological(reqs[..n]);
      AdmissionCeiling(reqs[..n], key, s, windowMs, max);
      CeilingStep(reqs, key, s, windowMs, max);
    }
  }

  /** The inductive step of `AdmissionCeiling`: the last request keeps the ceiling. */
  lemma CeilingStep(reqs: seq<Request>, key: ClientKey, s: Millis, windowMs: int, max: int)
    requires reqs != []
    requires Chronological(reqs)
    requires var pre := reqs[..|reqs| - 1];
      WindowCount(Admitted(pre, Run(map[], pre, windowMs, max).decisions, key), s, windowMs) <= max
    ensures WindowCount(Admitted(reqs, Run(map[], reqs, windowMs, max).decisions, key), s, windowMs) <= max
  {
    var n := |reqs| - 1;
    var r := reqs[n];
    var before := Run(map[], reqs[..n], windowMs, max);
    var o := Step(before.log, r.key, r.now, windowMs, max);
    var decisions := Run(map[], reqs, windowMs, max).decisions;
    assert decisions[..n] == before.decisions;
    var a := Admitted(reqs[..n], before.decisions, key);
    var a' := Admitted(reqs, decisions, key);
    if r.key == key && o.decision.Admit? {
      assert a' == a + [r.now];
      assert a'[..|a'| - 1] == a;
      if r.now <= s && InWindow(r.now, s, windowMs) {
        assert forall i :: 0 <= i < n ==> reqs[..n][i].now <= r.now;
        RoomForOneMore(reqs[..n], key, r.now, s, windowMs, max);
      }
    } else {
      assert a' == a;
    }
  }

  /**
   A request admitted at `now`, after requests no later than `now`, found
   fewer than `max` earlier admissions of its key in any window ending at
   `s >= now`.
   */
  lemma RoomForOneMore(pre: seq<Request>, key: ClientKey, now: Millis, s: Millis, windowMs: int, max: int)
    requires forall i :: 0 <= i < |pre| ==> pre[i].now <= now
    requires now <= s
    requires Step(Run(map[], pre, windowMs, max).log, key, now, windowMs, max).decision.Admit?
    ensures WindowCount(Admitted(pre, Run(map[], pre, windowMs, max).decisions, key), s, windowMs) < max
  {
    var a := Admitted(pre, Run(map[], pre, windowMs, max).decisions, key);
    AdmittedNotAfter(map[], pre, key, windowMs, max, now);
    WindowCountAtMostLive(a, now, s, windowMs);
    StoredMatchesAdmitted(pre, key, windowMs, max, now);
  }

  /**
   With a clock that never goes backwards, every stored entry of a run from
   the empty log is sorted, and no stored timestamp is later than the clock
   readings of the run.
   */
  lemma {:induction false} RunSorted(reqs: seq<Request>, key: ClientKey, windowMs: int, max: int, later: Millis)
    requires Chronological(reqs)
    requires forall i :: 0 <= i < |reqs| ==> reqs[i].now <= later
    ensures Sorted(Stored(Run(map[], reqs, windowMs, max).log, key))
    ensures forall t :: t in Stored(Run(map[], reqs, windowMs, max).log, key) ==> t <= later
    decreases |reqs|
  {
    if reqs != [] {
      var n := |reqs| - 1;
      var r := reqs[n];
      var before := Run(map[], reqs[..n], windowMs, max);
      assert Chronological(reqs[..n]);
      RunSorted(reqs[..n], key, windowMs, max, r.now);
      var o := Step(before.log, r.key, r.now, windowMs, max);
      assert Run(map[], reqs, windowMs, max).log == o.log;
      if r.key == key {
        StepKeepsSorted(before.log, key, r.now, windowMs, max);
      } else {
        assert Stored(o.log, key) == Stored(before.log, key);
      }
    }
  }

  /**
   Only the client's own clock readings need to be in order for its stored
   entry to be sorted: other clients' requests do not touch it.
   */
  lemma ClientLogSorted(reqs: seq<Request>, key: ClientKey, windowMs: int, max: int)
    requires Chronological(OnlyKey(reqs, key))
    ensures Sorted(Stored(Run(map[], reqs, windowMs, max).log, key))
  {
    var own := OnlyKey(reqs, key);
    RunIndependent(map[], reqs, key, windowMs, max);
    if own != [] {
      RunSorted(own, key, windowMs, max, own[|own| - 1].now);
    }
  }

  /**
   The admission ceiling per client: it holds as soon as that client's own
   requests arrive in clock order, whatever the other clients' clocks do.
   */
  lemma ClientCeiling(reqs: seq<Request>, key: ClientKey, s: Millis, windowMs: int, max: int)
    requires Chronological(OnlyKey(reqs, key))
    requires max >= 0
    ensures WindowCount(Admitted(reqs, Run(map[], reqs, windowMs, max).decisions, key), s, windowMs) <= max
  {
    RunIndependent(map[], reqs, key, windowMs, max);
    AdmissionCeiling(OnlyKey(reqs, key), key, s, windowMs, max);
  }

  /** The requests of the counterexample below: the clock jumps back from 5000 to 2. */
  function ClockJumpsBack(key: ClientKey): seq<Request>
  {
    [Request(key, 0), Request(key, 1), Request(key, 5000), Request(key, 2)]
  }

  /** The first two requests of that run are admitted. */
  lemma ClockJumpsBackStart(key: ClientKey)
    ensures Run(map[], [Request(key, 0), Request(key, 1)], 1000, 2) == Trace(map[key := [0, 1]], [Admit, Admit])
  {
    var r0, r1 := Request(key, 0), Request(key, 1);
    assert Run(map[], [r0], 1000, 2) == Trace(map[key := [0]], [Admit]) by {
      RunSnoc(map[], [], r0, 1000, 2);
      assert Live([], 0, 1000) + [0] == [0];
    }
    RunSnoc(map[], [r0], r1, 1000, 2);
    assert [r0] + [r1] == [r0, r1];
    assert Live([0], 1, 1000) + [1] == [0, 1];
  }

  /** The third request of that run, at 5000, finds both earlier ones expired. */
  lemma ClockJumpsBackThird(key: ClientKey)
    ensures Run(map[], [Request(key, 0), Request(key, 1), Request(key, 5000)], 1000, 2)
         == Trace(map[key := [5000]], [Admit, Admit, Admit])
  {
    var r0, r1, r2 := Request(key, 0), Request(key, 1), Request(key, 5000);
    ClockJumpsBackStart(key);
    RunSnoc(map[], [r0, r1], r2, 1000, 2);
    assert [r0, r1] + [r2] == [r0, r1, r2];
    assert Live([0, 1], 5000, 1000) + [5000] == [5000];
  }

  /** Every request of that run is admitted. */
  lemma ClockJumpsBackRun(key: ClientKey)
    ensures Run(map[], ClockJumpsBack(key), 1000, 2) == Trace(map[key := [5000, 2]], [Admit, Admit, Admit, Admit])
  {
    var r0, r1, r2, r3 := Request(key, 0), Request(key, 1), Request(key, 5000), Request(key, 2);
    ClockJumpsBackThird(key);
    RunSnoc(map[], [r0, r1, r2], r3, 1000, 2);
    assert [r0, r1, r2] + [r3] == ClockJumpsBack(key);
    assert Live([5000], 2, 1000) + [2] == [5000, 2];
  }

  /** The admitted timestamps of the first two requests of that run. */
  lemma ClockJumpsBackAdmittedStart(key: ClientKey)
    ensures Admitted([Request(key, 0), Request(key, 1)], [Admit, Admit], key) == [0, 1]
  {
    var r0, r1 := Request(key, 0), Request(key, 1);
    assert Admitted([r0], [Admit], key) == [0] by {
      assert [r0][..0] == [] && [Admit][..0] == [];
    }
    assert [r0, r1][..1] == [r0] && [Admit, Admit][..1] == [Admit];
  }

  /** The admitted timestamps of that run, in arrival order. */
  lemma ClockJumpsBackAdmitted(key: ClientKey)
    ensures Admitted(ClockJumpsBack(key), [Admit, Admit, Admit, Admit], key) == [0, 1, 5000, 2]
  {
    var r0, r1, r2, r3 := Request(key, 0), Request(key, 1), Request(key, 5000), Request(key, 2);
    var a2, a3 := [Admit, Admit], [Admit, Admit, Admit];
    assert Admitted([r0, r1, r2], a3, key) == [0, 1, 5000] by {
      ClockJumpsBackAdmittedStart(key);
      AdmittedSnoc([r0, r1], a2, r2, Admit, key);
      assert [r0, r1] + [r2] == [r0, r1, r2] && a2 + [Admit] == a3;
    }
    AdmittedSnoc([r0, r1, r2], a3, r3, Admit, key);
    assert [r0, r1, r2] + [r3] == ClockJumpsBack(key) && a3 + [Admit] == [Admit, Admit, Admit, Admit];
  }

  /** Counting one more timestamp adds one exactly when it lies in the window ending at `s`. */
  lemma WindowCountSnoc(admitted: seq<Millis>, t: Millis, s: Millis, windowMs: int)
    ensures WindowCount(admitted + [t], s, windowMs)
         == WindowCount(admitted, s, windowMs) + (if t <= s && InWindow(t, s, windowMs) then 1 else 0)
  {
    assert (admitted + [t])[..|admitted|] == admitted;
  }

  /**
   Without a monotone clock the ceiling fails: with a 1000 ms window and a
   ceiling of 2, requests of one key at 0, 1, 5000 and then 2 are all admitted,
   so three admissions fall in the window that ends at 2.
   */
  lemma CeilingNeedsMonotoneClock(key: ClientKey)
    ensures !Chronological(ClockJumpsBack(key))
    ensures Run(map[], ClockJumpsBack(key), 1000, 2).decisions == [Admit, Admit, Admit, Admit]
    ensures Admitted(ClockJumpsBack(key), [Admit, Admit, Admit, Admit], key) == [0, 1, 5000, 2]
    ensures WindowCount([0, 1, 5000, 2], 2, 1000) == 3
  {
    assert ClockJumpsBack(key)[2].now > ClockJumpsBack(key)[3].now;
    ClockJumpsBackRun(key);
    ClockJumpsBackAdmitted(key);
    WindowCountSnoc([], 0, 2, 1000);
    WindowCountSnoc([0], 1, 2, 1000);
    WindowCountSnoc([0, 1], 5000, 2, 1000);
    WindowCountSnoc([0, 1, 5000], 2, 2, 1000);
    assert [] + [0] == [0] && [0] + [1] == [0, 1] && [0, 1] + [5000] == [0, 1, 5000];
    assert [0, 1, 5000] + [2] == [0, 1, 5000, 2];
  }

  // ---------------------------------------------------------------------
  // Repeated requests at one instant
  // ---------------------------------------------------------------------

  /** `n` copies of `x`. */
  function Repeat<T>(x: T, n: nat): (r: seq<T>)
    ensures |r| == n
    ensures forall i :: 0 <= i < n ==> r[i] == x
  {
    if n == 0 then [] else Repeat(x, n - 1) + [x]
  }

  /** `n` requests of `key`, all at time `now`. */
  function Burst(key: ClientKey, now: Millis, n: nat): seq<Request>
  {
    Repeat(Request(key, now), n)
  }

  /**
   Once the in-window count of `key` has reached the ceiling, any number of
   further requests at the same instant are all rejected and the log does
   not change at all, so the stored list never grows.
   */
  lemma {:induction false} RejectsAtCeiling(log: RequestLog, key: ClientKey, now: Millis, n: nat, windowMs: int, max: int)
    requires |Live(Stored(log, key), now, windowMs)| >= max
    ensures Run(log, Burst(key, now, n), windowMs, max) == Trace(log, Repeat(Reject(TooManyRequests, RejectMessage), n))
  {
    if n > 0 {
      var reject := Reject(TooManyRequests, RejectMessage);
      var earlier := Burst(key, now, n - 1);
      RejectsAtCeiling(log, key, now, n - 1, windowMs, max);
      assert Burst(key, now, n) == earlier + [Request(key, now)];
      RejectOneMore(log, earlier, key, now, Repeat(reject, n - 1), windowMs, max);
    }
  }

  /** A run that left the log as it was, followed by one request at the ceiling, still leaves it so. */
  lemma RejectOneMore(log: RequestLog, reqs: seq<Request>, key: ClientKey, now: Millis, decisions: seq<Decision>, windowMs: int, max: int)
    requires |Live(Stored(log, key), now, windowMs)| >= max
    requires Run(log, reqs, windowMs, max) == Trace(log, decisions)
    ensures Run(log, reqs + [Request(key, now)], windowMs, max) == Trace(log, decisions + [Reject(TooManyRequests, RejectMessage)])
  {
    RunSnoc(log, reqs, Request(key, now), windowMs, max);
  }

  /**
   From no stored entry, a burst of up to `max` requests at `t0` is admitted
   in full and leaves one stored `t0` per request (the window is positive).
   */
  lemma {:induction false} BurstAdmitted(log: RequestLog, key: ClientKey, t0: Millis, n: nat, windowMs: int, max: int)
    requires windowMs > 0
    requires n <= max
    requires Stored(log, key) == []
    ensures Stored(Run(log, Burst(key, t0, n), windowMs, max).log, key) == Repeat(t0, n)
    ensures Run(log, Burst(key, t0, n), windowMs, max).decisions == Repeat(Admit, n)
  {
    if n > 0 {
      var earlier := Burst(key, t0, n - 1);
      BurstAdmitted(log, key, t0, n - 1, windowMs, max);
      assert Burst(key, t0, n) == earlier + [Request(key, t0)];
      AdmitOneMore(log, earlier, key, t0, n - 1, windowMs, max);
    }
  }

  /** A run that stored `m < max` copies of `t0` and admitted all, followed by one more request at `t0`. */
  lemma AdmitOneMore(log: RequestLog, reqs: seq<Request>, key: ClientKey, t0: Millis, m: nat, windowMs: int, max: int)
    requires windowMs > 0
    requires m < max
    requires Stored(Run(log, reqs, windowMs, max).log, key) == Repeat(t0, m)
    requires Run(log, reqs, windowMs, max).decisions == Repeat(Admit, m)
    ensures Stored(Run(log, reqs + [Request(key, t0)], windowMs, max).log, key) == Repeat(t0, m + 1)
    ensures Run(log, reqs + [Request(key, t0)], windowMs, max).decisions == Repeat(Admit, m + 1)
  {
    RunSnoc(log, reqs, Request(key, t0), windowMs, max);
    BurstOneMore(Run(log, reqs, windowMs, max).log, key, t0, m, windowMs, max);
  }

  /** One more request at `t0` on top of `n < max` stored copies of `t0` is admitted. */
  lemma BurstOneMore(log: RequestLog, key: ClientKey, t0: Millis, n: nat, windowMs: int, max: int)
    requires windowMs > 0
    requires n < max
    requires Stored(log, key) == Repeat(t0, n)
    ensures Step(log, key, t0, windowMs, max).decision == Admit
    ensures Stored(Step(log, key, t0, windowMs, max).log, key) == Repeat(t0, n + 1)
  {
    LiveAllIn(Repeat(t0, n), t0, windowMs);
  }

  /** A list of timestamps all inside the window survives the filter whole. */
  lemma {:induction false} LiveAllIn(log: seq<Millis>, now: Millis, windowMs: int)
    requires forall t :: t in log ==> InWindow(t, now, windowMs)
    ensures Live(log, now, windowMs) == log
  {
    if log != [] {
      LiveAllIn(log[1..], now, windowMs);
      assert log == [log[0]] + log[1..];
    }
  }

  /** A list of timestamps all outside the window is filtered away. */
  lemma {:induction false} LiveAllOut(log: seq<Millis>, now: Millis, windowMs: int)
    requires forall t :: t in log ==> !InWindow(t, now, windowMs)
    ensures Live(log, now, windowMs) == []
  {
    if log != [] {
      LiveAllOut(log[1..], now, windowMs);
    }
  }

  /**
   Window expiry recovery: after `max` requests at `t0` from a fresh
   limiter, a request at `u` is admitted exactly when `u - t0 >= windowMs`
   (an entry exactly `windowMs` old has already expired; a clock reading
   before `t0` is rejected).
   */
  lemma ExpiryRecovery(key: ClientKey, t0: Millis, u: Millis, windowMs: int, max: int)
    requires windowMs > 0 && max > 0
    ensures Step(Run(map[], Burst(key, t0, max), windowMs, max).log, key, u, windowMs, max).decision.Admit?
        <==> u - t0 >= windowMs
  {
    BurstAdmitted(map[], key, t0, max, windowMs, max);
    var stored := Repeat(t0, max);
    if u - t0 < windowMs {
      LiveAllIn(stored, u, windowMs);
    } else {
      LiveAllOut(stored, u, windowMs);
    }
  }

  // ---------------------------------------------------------------------
  // A worked trace
  // ---------------------------------------------------------------------

  /** The first two requests of the worked trace are admitted. */
  lemma WorkedTraceStart()
    ensures Run(map[], [Request("A", 0), Request("A", 100)], 1000, 2) == Trace(map["A" := [0, 100]], [Admit, Admit])
  {
    var r0, r1 := Request("A", 0), Request("A", 100);
    assert Run(map[], [r0], 1000, 2) == Trace(map["A" := [0]], [Admit]) by {
      RunSnoc(map[], [], r0, 1000, 2);
      assert Live([], 0, 1000) + [0] == [0];
    }
    RunSnoc(map[], [r0], r1, 1000, 2);
    assert [r0] + [r1] == [r0, r1];
    assert Live([0], 100, 1000) + [100] == [0, 100];
  }

  /** The third request of the worked trace, at 200, is rejected. */
  lemma WorkedTraceThird()
    ensures Run(map[], [Request("A", 0), Request("A", 100), Request("A", 200)], 1000, 2)
         == Trace(map["A" := [0, 100]], [Admit, Admit, Reject(TooManyRequests, RejectMessage)])
  {
    var r0, r1, r2 := Request("A", 0), Request("A", 100), Request("A", 200);
    WorkedTraceStart();
    RunSnoc(map[], [r0, r1], r2, 1000, 2);
    assert [r0, r1] + [r2] == [r0, r1, r2];
    assert Live([0, 100], 200, 1000) == [0, 100];
  }

  /**
   With a 1000 ms window and a ceiling of 2, client "A" at 0, 100, 200 and
   1001 is admitted, admitted, rejected and admitted, and its entry ends as
   [100, 1001]: at 1001 the entry from 0 has expired.
   */
  lemma WorkedTrace()
    ensures Run(map[], [Request("A", 0), Request("A", 100), Request("A", 200), Request("A", 1001)], 1000, 2)
         == Trace(map["A" := [100, 1001]], [Admit, Admit, Reject(TooManyRequests, RejectMessage), Admit])
  {
    var r0, r1, r2, r3 := Request("A", 0), Request("A", 100), Request("A", 200), Request("A", 1001);
    WorkedTraceThird();
    RunSnoc(map[], [r0, r1, r2], r3, 1000, 2);
    assert [r0, r1, r2] + [r3] == [r0, r1, r2, r3];
    assert Live([0, 100], 1001, 1000) + [1001] == [100, 1001];
  }

  /**
   The same trace through the limiter object, as the server's handler
   would drive it.
   */
  method WorkedTraceOnLimiter() returns (decisions: seq<Decision>, stored: seq<Millis>)
    ensures decisions == [Admit, Admit, Reject(TooManyRequests, RejectMessage), Admit]
    ensures stored == [100, 1001]
  {
    var limiter := new Limiter(1000, 2);
    var d0 := limiter.Check("A", 0);
    assert Live([0], 100, 1000) == [0];
    var d1 := limiter.Check("A", 100);
    assert Live([0, 100], 200, 1000) == [0, 100];
    var d2 := limiter.Check("A", 200);
    assert Live([0, 100], 1001, 1000) == [100];
    var d3 := limiter.Check("A", 1001);
    decisions := [d0, d1, d2, d3];
    stored := limiter.requests["A"];
  }

  // ---------------------------------------------------------------------
  // Client keys
  // ---------------------------------------------------------------------

  /**
   Requests with no resolvable address all land in the one "unknown"
   bucket, together with any request whose address is literally "unknown".
   */
  lemma UnknownCollapse(ip1: Option<string>, ra1: Option<string>, ip2: Option<string>, ra2: Option<string>)
    requires !Truthy(ip1) && !Truthy(ra1) && !Truthy(ip2) && !Truthy(ra2)
    ensures ResolveKey(ip1, ra1) == ResolveKey(ip2, ra2) == UnknownKey
    ensures ResolveKey(Some(UnknownKey), ra1) == UnknownKey
    ensures ResolveKey(ip1, Some(UnknownKey)) == UnknownKey
  {
  }

  /** The key is one of the request's own addresses or the shared sentinel. */
  lemma ResolveKeyIsCandidate(ip: Option<string>, remoteAddress: Option<string>)
    ensures var k := ResolveKey(ip, remoteAddress);
      (ip == Some(k)) || (remoteAddress == Some(k)) || k == UnknownKey
  {
  }
}
