/** The five-minute window of processed events and the counts derived from it. */
module Metrics {
  import opened Json
  import opened ObjectCounts

  const WINDOW_MS := 5 * 60 * 1000

  predicate Fresh(x: Sample, now: int) {
    x.timestamp >= now - WINDOW_MS
  }

  /** The samples at most five minutes old. */
  function Recent(h: seq<Sample>, now: int): seq<Sample> {
    if h == [] then []
    else if Fresh(h[0], now) then [h[0]] + Recent(h[1..], now)
    else Recent(h[1..], now)
  }

  /** What is left when stale samples are shifted off the front. */
  function Shifted(w: seq<Sample>, now: int): seq<Sample> {
    if w != [] && !Fresh(w[0], now) then Shifted(w[1..], now) else w
  }

  predicate Sorted(h: seq<Sample>) {
    forall i, j | 0 <= i < j < |h| :: h[i].timestamp <= h[j].timestamp
  }

  predicate EverProto(h: seq<Sample>, status: Status) {
    exists i :: 0 <= i < |h| && h[i].targetSystem == PROTO && h[i].status == status
  }

  datatype Answer = Answer(total: nat, byStatus: Row, byTargetSystem: Tally)

  class MetricsService {
    var processedWindow: seq<Sample>
    var gauge: map<(Status, string), nat>
    /** What counting has left on the objects that all objects share. */
    var leaks: Leaks
    /** Every sample ever recorded. */
    ghost var history: seq<Sample>
    ghost var refreshedAt: int

    /** The window is the recent part of the whole history, and nothing has leaked to all objects but by
        samples of `__proto__`. */
    ghost predicate Valid()
      reads this
    {
      && Sorted(history) && processedWindow == Recent(history, refreshedAt)
      && (forall s :: Leak(leaks, s) > 0 ==> EverProto(history, s))
    }

    /** Each label pair that occurs in the window shows its count, and no other pair is shown. */
    ghost predicate GaugeShowsWindow()
      reads this
    {
      forall p: (Status, string) ::
        (p in gauge <==> Count(processedWindow, p.0, p.1) > 0)
        && (p in gauge ==> gauge[p] == Count(processedWindow, p.0, p.1))
    }

    constructor (now: int)
      ensures Valid() && history == [] && refreshedAt == now && leaks == map[]
    {
      processedWindow, gauge, leaks, history, refreshedAt := [], map[], map[], [], now;
    }

    /** `at` and `now` are the two readings of the clock, which does not go back. `ok` is false when counting
        throws; the sample is in the window all the same. */
    method RecordEvent(status: Status, targetSystem: string, at: int, now: int) returns (ok: bool)
      requires Valid() && refreshedAt <= at <= now
      requires forall i | 0 <= i < |history| :: history[i].timestamp <= at
      modifies this
      ensures Valid() && refreshedAt == now
      ensures history == old(history) + [Sample(at, status, targetSystem)]
      ensures ok <==> Tallied(old(leaks), processedWindow).Counted?
      ensures GaugeShowsWindow() <==> Undisturbed(old(leaks), processedWindow)
    {
      var sample := Sample(at, status, targetSystem);
      RecentOfConcat(history, [sample], refreshedAt);
      StillEver(history, sample);
      processedWindow := processedWindow + [sample];
      history := history + [sample];
      ok := RefreshProcessedWindow(now);
    }

    /** The report, or `None` when counting throws. The total, the sum by status and the sum by target agree if
        and only if no sample of the window disturbs the counts, and then each count is exact. */
    method ProcessedLast5Minutes(now: int) returns (r: Option<Answer>)
      requires Valid() && refreshedAt <= now
      modifies this
      ensures Valid() && refreshedAt == now && history == old(history)
      ensures r.Some? ==> r.value.total == |Recent(history, now)|
      ensures r.Some? && r.value.total == SumValues(r.value.byStatus) == SumNested(r.value.byTargetSystem) <==>
        Undisturbed(old(leaks), Recent(history, now))
      ensures Undisturbed(old(leaks), Recent(history, now)) ==>
        && r.Some? && IsTally(r.value.byTargetSystem, Recent(history, now)) && leaks == old(leaks)
        && forall s :: AtStatus(r.value.byStatus, s) == |OfStatus(Recent(history, now), s)|
    {
      hide Recent, Tallied, Reported, Undisturbed, SumNested, SumValues, Sorted, EverProto;
      var ok := RefreshProcessedWindow(now);
      if !ok {
        TallyIffUndisturbed(old(leaks), processedWindow);
        return None;
      }
      ghost var counted := leaks;
      var report := ReportOf(leaks, processedWindow);
      LeaksAreProtos(counted, history, now);
      ReportTallies(counted, processedWindow);
      ReportAgreesIffUndisturbed(old(leaks), processedWindow);
      leaks := report.leaks;
      match report
      case NoReport(_) =>
        return None;
      case Report(_, byStatus, byTarget) =>
        return Some(Answer(|processedWindow|, byStatus, byTarget));
    }

    method RefreshProcessedWindow(now: int) returns (ok: bool)
      requires Valid() && refreshedAt <= now
      modifies this
      ensures Valid() && refreshedAt == now && history == old(history)
      ensures ok <==> Tallied(old(leaks), processedWindow).Counted?
      ensures leaks == Tallied(old(leaks), processedWindow).leaks
      ensures GaugeShowsWindow() <==> Undisturbed(old(leaks), processedWindow)
    {
      hide Tallied, Undisturbed, IsTally, EverProto;
      while |processedWindow| > 0 && processedWindow[0].timestamp < now - WINDOW_MS
        invariant Shifted(processedWindow, now) == Shifted(old(processedWindow), now)
        invariant history == old(history) && refreshedAt == old(refreshedAt) && leaks == old(leaks)
        decreases |processedWindow|
      {
        processedWindow := processedWindow[1..];
      }
      ShiftingKeepsRecent(history, refreshedAt, now);
      refreshedAt := now;
      gauge := map[];
      var raw := TallyOf(leaks, processedWindow);
      LeaksAreProtos(leaks, history, now);
      leaks := raw.leaks;
      if raw.Broken? {
        SomethingOccurs(old(leaks), processedWindow);
        ghost var s, target :| Count(processedWindow, s, target) > 0;
        assert (s, target) !in gauge;
        return false;
      }
      gauge := GaugeOf(raw.tally);
      GaugeIsTally(gauge, raw.tally, processedWindow);
      return true;
    }
  }

  /** The gauge set from the nested record. */
  method GaugeOf(t: Tally) returns (gauge: map<(Status, string), nat>)
    ensures forall p: (Status, string) ::
      (p in gauge <==> At(t, p.0, p.1) > 0) && (p in gauge ==> gauge[p] == At(t, p.0, p.1))
  {
    gauge := map[];
    var targets := t.Keys;
    while targets != {}
      invariant targets <= t.Keys
      invariant forall p: (Status, string) ::
        (p in gauge <==> At(t, p.0, p.1) > 0 && p.1 !in targets) && (p in gauge ==> gauge[p] == At(t, p.0, p.1))
    {
      var target :| target in targets;
      targets := targets - {target};
      gauge := gauge + map status | status in t[target] :: (status, target) := t[target][status];
    }
  }

  lemma GaugeIsTally(gauge: map<(Status, string), nat>, t: Tally, w: seq<Sample>)
    requires forall p: (Status, string) ::
      (p in gauge <==> At(t, p.0, p.1) > 0) && (p in gauge ==> gauge[p] == At(t, p.0, p.1))
    ensures IsTally(t, w) <==>
      forall p: (Status, string) ::
        (p in gauge <==> Count(w, p.0, p.1) > 0) && (p in gauge ==> gauge[p] == Count(w, p.0, p.1))
  {
    hide Count, At;
    if forall p: (Status, string) ::
        (p in gauge <==> Count(w, p.0, p.1) > 0) && (p in gauge ==> gauge[p] == Count(w, p.0, p.1)) {
      forall s, target ensures At(t, s, target) == Count(w, s, target) {
        assert (s, target) in gauge <==> Count(w, s, target) > 0;
      }
    }
  }

  /** Only a window with samples can fail to be counted. */
  lemma SomethingOccurs(g: Leaks, w: seq<Sample>)
    requires Tallied(g, w).Broken?
    ensures exists s, target :: Count(w, s, target) > 0
  {
    assert w != [];
    Occurs(w, 0);
  }

  lemma StillEver(h: seq<Sample>, x: Sample)
    ensures forall s :: EverProto(h, s) ==> EverProto(h + [x], s)
  {
    forall s | EverProto(h, s) ensures EverProto(h + [x], s) {
      var i :| 0 <= i < |h| && h[i].targetSystem == PROTO && h[i].status == s;
      assert (h + [x])[i] == h[i];
    }
  }

  /** Counting a window leaks to all objects only what samples of `__proto__` make it leak. */
  lemma LeaksAreProtos(g: Leaks, h: seq<Sample>, now: int)
    requires forall s :: Leak(g, s) > 0 ==> EverProto(h, s)
    ensures forall s :: Leak(Tallied(g, Recent(h, now)).leaks, s) > 0 ==> EverProto(h, s)
  {
    hide Tallied, Recent;
    var w := Recent(h, now);
    forall s | Leak(Tallied(g, w).leaks, s) > 0 ensures EverProto(h, s) {
      LeaksFromProtos(g, w, s);
      if Leak(g, s) == 0 {
        var i :| 0 <= i < |w| && w[i].targetSystem == PROTO && w[i].status == s;
        RecentIsPart(h, now, w[i]);
      }
    }
  }

  lemma {:induction false} LeaksFromProtos(g: Leaks, w: seq<Sample>, s: Status)
    ensures Leak(Tallied(g, w).leaks, s) > Leak(g, s) ==> EverProto(w, s)
  {
    if w != [] {
      var before := w[..|w| - 1];
      LeaksFromProtos(g, before, s);
      assert w == before + [w[|w| - 1]];
      StillEver(before, w[|w| - 1]);
    }
  }

  lemma {:induction false} RecentIsPart(h: seq<Sample>, now: int, x: Sample)
    requires x in Recent(h, now)
    ensures x in h
  {
    if h != [] && x != h[0] {
      RecentIsPart(h[1..], now, x);
    }
  }

  /** While no sample of `__proto__` has ever been recorded, a window disturbs its counts exactly when it holds
      a sample of an inherited target. */
  lemma UndisturbedUnlessInherited(g: Leaks, h: seq<Sample>, w: seq<Sample>)
    requires forall s :: Leak(g, s) > 0 ==> EverProto(h, s)
    requires forall s :: !EverProto(h, s)
    ensures Undisturbed(g, w) <==> forall i | 0 <= i < |w| :: w[i].targetSystem !in INHERITED
  {
    assert forall s :: Leak(g, s) == 0;
  }

  // ----- The window -----

  lemma {:induction false} RecentOfConcat(a: seq<Sample>, b: seq<Sample>, now: int)
    ensures Recent(a + b, now) == Recent(a, now) + Recent(b, now)
  {
    if a == [] {
      assert a + b == b;
    } else {
      assert (a + b)[1..] == a[1..] + b;
      RecentOfConcat(a[1..], b, now);
    }
  }

  lemma {:induction false} AllFreshIsRecent(h: seq<Sample>, now: int)
    requires forall x | x in h :: Fresh(x, now)
    ensures Recent(h, now) == h
  {
    if h != [] {
      AllFreshIsRecent(h[1..], now);
    }
  }

  /** With samples in the order of their times, shifting from the front loses nothing that is still recent. */
  lemma {:induction false} ShiftingKeepsRecent(h: seq<Sample>, was: int, now: int)
    requires Sorted(h) && was <= now
    ensures Shifted(Recent(h, was), now) == Recent(h, now)
  {
    if h != [] {
      if Fresh(h[0], now) {
        assert forall i | 0 <= i < |h| :: h[i].timestamp >= h[0].timestamp;
        AllFreshIsRecent(h, now);
        AllFreshIsRecent(h, was);
      } else {
        ShiftingKeepsRecent(h[1..], was, now);
      }
    }
  }

  /** In general, shifting from the front finds the recent samples exactly when no stale sample stands behind
      a recent one; a clock that goes back can hide one there. */
  lemma {:induction false} ShiftingIsExactWhen(w: seq<Sample>, now: int)
    ensures Shifted(w, now) == Recent(w, now)
      <==> forall i, j | 0 <= i < j < |w| && Fresh(w[i], now) :: Fresh(w[j], now)
  {
    if w != [] {
      if Fresh(w[0], now) {
        if forall j | 0 <= j < |w| :: Fresh(w[j], now) {
          AllFreshIsRecent(w, now);
        } else {
          var j :| 0 <= j < |w| && !Fresh(w[j], now);
          RecentIsFresh(w, now);
          assert w[j] in w && w[j] !in Recent(w, now);
        }
      } else {
        ShiftingIsExactWhen(w[1..], now);
        assert forall i | 0 <= i < |w| - 1 :: w[i + 1] == w[1..][i];
        if i, j :| 0 <= i < j < |w| && Fresh(w[i], now) && !Fresh(w[j], now) {
          assert Fresh(w[1..][i - 1], now) && !Fresh(w[1..][j - 1], now);
        }
      }
    }
  }

  /** The window is made of the samples at most 300,000 milliseconds old, and of nothing else. */
  lemma {:induction false} RecentIff(h: seq<Sample>, now: int, x: Sample)
    ensures x in Recent(h, now) <==> x in h && now - x.timestamp <= 300_000
  {
    if h != [] {
      RecentIff(h[1..], now, x);
    }
  }

  lemma {:induction false} RecentIsFresh(h: seq<Sample>, now: int)
    ensures forall x | x in Recent(h, now) :: Fresh(x, now)
  {
    if h != [] {
      RecentIsFresh(h[1..], now);
    }
  }
}
