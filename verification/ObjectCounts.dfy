/** Counting samples in plain objects. A name inherited from `Object.prototype` is never absent from an object,
    so a count under such a name lands on the object it resolves to, which all objects share. */
module ObjectCounts {

  datatype Status = Success | Failed

  datatype Sample = Sample(timestamp: int, status: Status, targetSystem: string)

  const PROTO := "__proto__"

  /** What every empty object resolves. */
  const INHERITED := {
    PROTO, "constructor", "hasOwnProperty", "isPrototypeOf", "propertyIsEnumerable", "toLocaleString", "toString",
    "valueOf", "__defineGetter__", "__defineSetter__", "__lookupGetter__", "__lookupSetter__"
  }

  type Counter = n: nat | n > 0 witness 1

  type Row = map<Status, Counter>

  type Tally = map<string, Row>

  // ----- The counts that are meant -----

  function Occurrences(w: seq<Sample>, status: Status, target: string): set<nat> {
    set i: nat | i < |w| && w[i].status == status && w[i].targetSystem == target
  }

  function Count(w: seq<Sample>, status: Status, target: string): nat {
    |Occurrences(w, status, target)|
  }

  function OfStatus(w: seq<Sample>, status: Status): set<nat> {
    set i: nat | i < |w| && w[i].status == status
  }

  function AtStatus(m: Row, status: Status): nat {
    if status in m then m[status] else 0
  }

  /** The count `t` holds for a pair, zero when it holds none. */
  function At(t: Tally, status: Status, target: string): nat {
    if target in t then AtStatus(t[target], status) else 0
  }

  /** A count for exactly the pairs that occur. */
  ghost predicate IsTally(t: Tally, w: seq<Sample>) {
    forall status, target :: At(t, status, target) == Count(w, status, target)
  }

  // ----- The counts that are made -----

  /** Counts that have landed on shared objects, by the inherited name that leads there. Those under
      `__proto__` are on `Object.prototype` itself, where every object sees them. They stay. */
  type Leaks = map<string, Row>

  function Landed(g: Leaks, name: string): Row {
    if name in g then g[name] else map[]
  }

  /** What every object shows under a status of which it has no count of its own. */
  function Leak(g: Leaks, status: Status): nat {
    AtStatus(Landed(g, PROTO), status)
  }

  function Read(g: Leaks, row: Row, status: Status): nat {
    if status in row then row[status] else Leak(g, status)
  }

  /** `object[status] = (object[status] ?? 0) + 1` */
  function Raised(g: Leaks, row: Row, status: Status): Row {
    var count: Counter := Read(g, row, status) + 1;
    row[status := count]
  }

  function Property(status: Status): string {
    match status
    case Success => "success"
    case Failed => "failed"
  }

  /** The name resolves to a leaked number, on which nothing can be assigned. */
  predicate Shadowed(g: Leaks, name: string) {
    exists status: Status :: Property(status) == name && Leak(g, status) > 0
  }

  /** `Broken` is the exception of assigning to a number. */
  datatype Outcome = Counted(leaks: Leaks, tally: Tally) | Broken(leaks: Leaks)

  function CountOne(g: Leaks, t: Tally, x: Sample): Outcome {
    var target, status := x.targetSystem, x.status;
    if target in t then Counted(g, t[target := Raised(g, t[target], status)])
    else if target in INHERITED then
      Counted(g[target := Raised(g, Landed(g, target), status)], t)
    else if Shadowed(g, target) then Broken(g)
    else Counted(g, t[target := Raised(g, map[], status)])
  }

  /** The nested record of counts, from the first sample to the last. */
  function Tallied(g: Leaks, w: seq<Sample>): Outcome {
    if w == [] then Counted(g, map[])
    else
      match Tallied(g, w[..|w| - 1])
      case Broken(leaks) => Broken(leaks)
      case Counted(leaks, t) => CountOne(leaks, t, w[|w| - 1])
  }

  method TallyOf(g: Leaks, w: seq<Sample>) returns (r: Outcome)
    ensures r == Tallied(g, w)
    ensures r.Counted? && IsTally(r.tally, w) <==> Undisturbed(g, w)
  {
    var leaks, t: Tally := g, map[];
    for i := 0 to |w|
      invariant Tallied(g, w[..i]) == Counted(leaks, t)
    {
      assert w[..i + 1][..i] == w[..i];
      var target, status := w[i].targetSystem, w[i].status;
      if target in t {
        t := t[target := Raised(leaks, t[target], status)];
      } else if target in INHERITED {
        leaks := leaks[target := Raised(leaks, Landed(leaks, target), status)];
      } else if Shadowed(leaks, target) {
        BrokenStaysBroken(g, w, i + 1);
        TallyIffUndisturbed(g, w);
        return Broken(leaks);
      } else {
        t := t[target := Raised(leaks, map[], status)];
      }
    }
    assert w[..|w|] == w;
    TallyIffUndisturbed(g, w);
    return Counted(leaks, t);
  }

  lemma {:induction false} BrokenStaysBroken(g: Leaks, w: seq<Sample>, n: nat)
    requires n <= |w| && Tallied(g, w[..n]).Broken?
    ensures Tallied(g, w) == Tallied(g, w[..n])
  {
    if n == |w| {
      assert w[..n] == w;
    } else {
      var before := w[..|w| - 1];
      assert before[..n] == w[..n];
      BrokenStaysBroken(g, before, n);
    }
  }

  // ----- When the counts are right -----

  /** The sample cannot be counted as meant: its target is inherited, its status has leaked, or its target is
      the name of a status that has. */
  predicate Disturbs(g: Leaks, x: Sample) {
    x.targetSystem in INHERITED || Leak(g, x.status) > 0 || Shadowed(g, x.targetSystem)
  }

  predicate Undisturbed(g: Leaks, w: seq<Sample>) {
    forall i | 0 <= i < |w| :: !Disturbs(g, w[i])
  }

  function Protos(w: seq<Sample>, status: Status): nat {
    Count(w, status, PROTO)
  }

  /** No inherited name has a row. */
  predicate Ordinary(t: Tally) {
    forall target | target in t :: target !in INHERITED
  }

  lemma CountOneLeaks(g: Leaks, t: Tally, x: Sample)
    requires Ordinary(t)
    ensures CountOne(g, t, x).Counted? ==> Ordinary(CountOne(g, t, x).tally)
    ensures forall s ::
      Leak(CountOne(g, t, x).leaks, s) == Leak(g, s) + if x.targetSystem == PROTO && s == x.status then 1 else 0
  {
  }

  /** Each `__proto__` sample adds one to what every object shows under its status, and leaks never go away. */
  lemma {:induction false} LeaksFollowProtos(g: Leaks, w: seq<Sample>)
    ensures Tallied(g, w).Counted? ==> Ordinary(Tallied(g, w).tally)
    ensures forall s :: Leak(g, s) <= Leak(Tallied(g, w).leaks, s) <= Leak(g, s) + Protos(w, s)
    ensures Tallied(g, w).Counted? ==> forall s :: Leak(Tallied(g, w).leaks, s) == Leak(g, s) + Protos(w, s)
  {
    hide Count, CountOne, Leak, Ordinary;
    if w == [] {
      NothingOccurs();
      NoRowIsOrdinary();
    } else {
      var before, n := w[..|w| - 1], |w| - 1;
      assert w[..n + 1] == w;
      LeaksFollowProtos(g, before);
      CountNext(w, n);
      if Tallied(g, before).Counted? {
        CountOneLeaks(Tallied(g, before).leaks, Tallied(g, before).tally, w[n]);
      }
    }
  }

  lemma NoRowIsOrdinary()
    ensures Ordinary(map[])
  {
  }

  /** There is a count for every ordinary pair that occurs, and for no other. */
  lemma {:induction false} RowsFollowOccurrences(g: Leaks, w: seq<Sample>, s: Status, target: string)
    requires Tallied(g, w).Counted?
    ensures At(Tallied(g, w).tally, s, target) > 0 <==> target !in INHERITED && Count(w, s, target) > 0
  {
    hide Count, CountOne, At, Leak;
    LeaksFollowProtos(g, w);
    if target in INHERITED {
      NoRowNoCount(Tallied(g, w).tally, s, target);
    } else if w == [] {
      NothingOccurs();
      NoRowNoCount(map[], s, target);
    } else {
      var before, n := w[..|w| - 1], |w| - 1;
      assert w[..n + 1] == w;
      RowsFollowOccurrences(g, before, s, target);
      CountNext(w, n);
      CountOneAt(Tallied(g, before).leaks, Tallied(g, before).tally, w[n], s, target);
    }
  }

  lemma NoRowNoCount(t: Tally, s: Status, target: string)
    requires target !in t
    ensures At(t, s, target) == 0
  {
  }

  lemma NothingOccurs()
    ensures forall s, target :: Count([], s, target) == 0
  {
    forall s, target ensures Occurrences([], s, target) == {} {
    }
  }

  /** What counting one sample does to the count of a pair. */
  lemma CountOneAt(g: Leaks, t: Tally, x: Sample, s: Status, target: string)
    requires CountOne(g, t, x).Counted? && target !in INHERITED
    ensures At(CountOne(g, t, x).tally, s, target) ==
      if s != x.status || target != x.targetSystem then At(t, s, target)
      else if At(t, s, target) > 0 then At(t, s, target) + 1
      else Leak(g, s) + 1
  {
  }

  /** Every count is too high by at least what had leaked under its status, and by exactly that when no sample
      leads to `Object.prototype`. */
  lemma {:induction false} CountsCarryLeaks(g: Leaks, w: seq<Sample>, s: Status, target: string)
    requires Tallied(g, w).Counted? && target !in INHERITED && Count(w, s, target) > 0
    ensures At(Tallied(g, w).tally, s, target) >= Leak(g, s) + Count(w, s, target)
    ensures Protos(w, s) == 0 ==> At(Tallied(g, w).tally, s, target) == Leak(g, s) + Count(w, s, target)
  {
    hide Count, CountOne, At, Leak;
    if w == [] {
      NothingOccurs();
    } else {
      var before, n := w[..|w| - 1], |w| - 1;
      assert w[..n + 1] == w;
      LeaksFollowProtos(g, before);
      RowsFollowOccurrences(g, before, s, target);
      CountNext(w, n);
      CountOneAt(Tallied(g, before).leaks, Tallied(g, before).tally, w[n], s, target);
      if Count(before, s, target) > 0 {
        CountsCarryLeaks(g, before, s, target);
      }
    }
  }

  lemma ShadowsStay(g: Leaks, g': Leaks, name: string)
    requires Shadowed(g, name) && forall s :: Leak(g', s) >= Leak(g, s)
    ensures Shadowed(g', name)
  {
    var status: Status :| Property(status) == name && Leak(g, status) > 0;
    assert Leak(g', status) > 0;
  }

  /** A sample whose target is the name of a leaked status cannot be counted at all. */
  lemma {:induction false} ShadowedBreaks(g: Leaks, w: seq<Sample>, i: nat)
    requires i < |w| && Shadowed(g, w[i].targetSystem) && w[i].targetSystem !in INHERITED
    ensures Tallied(g, w).Broken?
  {
    hide Shadowed, Count, Raised, Leak, At;
    var before := w[..|w| - 1];
    if i < |before| {
      ShadowedBreaks(g, before, i);
    } else if Tallied(g, before).Counted? {
      LeaksFollowProtos(g, before);
      if w[i].targetSystem in Tallied(g, before).tally {
        TargetsOccur(g, before);
        var j :| 0 <= j < |before| && before[j].targetSystem == w[i].targetSystem;
        ShadowedBreaks(g, before, j);
      } else {
        ShadowsStay(g, Tallied(g, before).leaks, w[i].targetSystem);
      }
    }
  }

  lemma {:induction false} TargetsOccur(g: Leaks, w: seq<Sample>)
    requires Tallied(g, w).Counted?
    ensures forall target | target in Tallied(g, w).tally :: exists i :: 0 <= i < |w| && w[i].targetSystem == target
  {
    if w != [] {
      var before := w[..|w| - 1];
      TargetsOccur(g, before);
      forall target | target in Tallied(g, w).tally
        ensures exists i :: 0 <= i < |w| && w[i].targetSystem == target
      {
        if target in Tallied(g, before).tally {
          var i :| 0 <= i < |before| && before[i].targetSystem == target;
          assert w[i].targetSystem == target;
        } else {
          assert w[|w| - 1].targetSystem == target;
        }
      }
    }
  }

  /** Nothing disturbs the count: it is as meant, and nothing leaks. */
  lemma {:induction false} UndisturbedTally(g: Leaks, w: seq<Sample>)
    requires Undisturbed(g, w)
    ensures Tallied(g, w).Counted? && Tallied(g, w).leaks == g
    ensures IsTally(Tallied(g, w).tally, w) && SumNested(Tallied(g, w).tally) == |w|
  {
    hide Count, SumNested, Disturbs;
    if w == [] {
      NothingOccurs();
      NoRows();
    } else {
      var before, n := w[..|w| - 1], |w| - 1;
      assert w[..n + 1] == w;
      UndisturbedTally(g, before);
      UndisturbedOne(g, Tallied(g, before).tally, w[n]);
      CountNext(w, n);
    }
  }

  lemma UndisturbedOne(g: Leaks, t: Tally, x: Sample)
    requires !Disturbs(g, x)
    ensures CountOne(g, t, x).Counted? && CountOne(g, t, x).leaks == g
    ensures SumNested(CountOne(g, t, x).tally) == SumNested(t) + 1
    ensures forall s, target ::
      At(CountOne(g, t, x).tally, s, target) ==
        At(t, s, target) + if s == x.status && target == x.targetSystem then 1 else 0
  {
    CountedAddsOne(g, t, x);
  }

  lemma CountedAddsOne(g: Leaks, t: Tally, x: Sample)
    requires CountOne(g, t, x).Counted? && Leak(g, x.status) == 0
    ensures SumNested(CountOne(g, t, x).tally)
      == SumNested(t) + if x.targetSystem in t || x.targetSystem !in INHERITED then 1 else 0
  {
    hide SumNested, SumValues;
    if x.targetSystem in t || x.targetSystem !in INHERITED {
      var row := if x.targetSystem in t then t[x.targetSystem] else map[];
      var next := Raised(g, row, x.status);
      SumUpdate(row, x.status, next[x.status]);
      NestedUpdate(t, x.targetSystem, next);
      EmptyRow();
    }
  }

  /** The nested record is as meant if and only if no sample disturbs it. */
  lemma TallyIffUndisturbed(g: Leaks, w: seq<Sample>)
    ensures Tallied(g, w).Counted? && IsTally(Tallied(g, w).tally, w) <==> Undisturbed(g, w)
  {
    hide Count, Tallied, SumNested, Shadowed;
    if Undisturbed(g, w) {
      UndisturbedTally(g, w);
    } else {
      var i :| 0 <= i < |w| && Disturbs(g, w[i]);
      var x := w[i];
      Occurs(w, i);
      if Tallied(g, w).Counted? {
        RowsFollowOccurrences(g, w, x.status, x.targetSystem);
        if x.targetSystem !in INHERITED {
          CountsCarryLeaks(g, w, x.status, x.targetSystem);
          if Leak(g, x.status) == 0 {
            ShadowedBreaks(g, w, i);
          }
        }
      }
    }
  }

  lemma Occurs(w: seq<Sample>, i: nat)
    requires i < |w|
    ensures Count(w, w[i].status, w[i].targetSystem) > 0
  {
    assert i in Occurrences(w, w[i].status, w[i].targetSystem);
  }

  // ----- The report -----

  datatype Report = Report(leaks: Leaks, byStatus: Row, byTarget: Tally) | NoReport(leaks: Leaks)

  /** Both records of the report, counted sample by sample. */
  function Reported(g: Leaks, w: seq<Sample>): Report {
    if w == [] then Report(g, map[], map[])
    else
      match Reported(g, w[..|w| - 1])
      case NoReport(leaks) => NoReport(leaks)
      case Report(leaks, byStatus, byTarget) =>
        var x := w[|w| - 1];
        match CountOne(leaks, byTarget, x)
        case Broken(leaks') => NoReport(leaks')
        case Counted(leaks', byTarget') =>
          Report(leaks', Raised(leaks, byStatus, x.status), byTarget')
  }

  method ReportOf(g: Leaks, w: seq<Sample>) returns (r: Report)
    ensures r == Reported(g, w)
  {
    var leaks, byStatus: Row, byTarget: Tally := g, map[], map[];
    for i := 0 to |w|
      invariant Reported(g, w[..i]) == Report(leaks, byStatus, byTarget)
    {
      assert w[..i + 1][..i] == w[..i];
      var target, status := w[i].targetSystem, w[i].status;
      byStatus := Raised(leaks, byStatus, status);
      if target in byTarget {
        byTarget := byTarget[target := Raised(leaks, byTarget[target], status)];
      } else if target in INHERITED {
        leaks := leaks[target := Raised(leaks, Landed(leaks, target), status)];
      } else if Shadowed(leaks, target) {
        NoReportStays(g, w, i + 1);
        return NoReport(leaks);
      } else {
        byTarget := byTarget[target := Raised(leaks, map[], status)];
      }
    }
    assert w[..|w|] == w;
    return Report(leaks, byStatus, byTarget);
  }

  lemma {:induction false} NoReportStays(g: Leaks, w: seq<Sample>, n: nat)
    requires n <= |w| && Reported(g, w[..n]).NoReport?
    ensures Reported(g, w) == Reported(g, w[..n])
  {
    if n == |w| {
      assert w[..n] == w;
    } else {
      var before := w[..|w| - 1];
      assert before[..n] == w[..n];
      NoReportStays(g, before, n);
    }
  }

  /** The record by target is the nested record. */
  lemma {:induction false} ReportTallies(g: Leaks, w: seq<Sample>)
    ensures match Reported(g, w)
      case Report(leaks, _, byTarget) => Tallied(g, w) == Counted(leaks, byTarget)
      case NoReport(leaks) => Tallied(g, w) == Broken(leaks)
  {
    hide CountOne;
    if w != [] {
      ReportTallies(g, w[..|w| - 1]);
    }
  }

  /** Each status that occurs is counted too high by what had leaked under it. */
  lemma {:induction false} StatusesCarryLeaks(g: Leaks, w: seq<Sample>)
    requires Reported(g, w).Report?
    ensures forall s :: StatusCarriesLeak(g, w, s)
  {
    hide OfStatus, CountOne, Tallied, Count, Leak;
    if w == [] {
      NoStatusOccurs();
    } else {
      var before, n := w[..|w| - 1], |w| - 1;
      assert w[..n + 1] == w;
      StatusesCarryLeaks(g, before);
      FirstReadsTheLeak(g, before, w[n].status);
      OfStatusNext(w, n);
      NoneOfStatus(before);
      NoneOfStatus(w);
      forall s ensures StatusCarriesLeak(g, w, s) {
        assert StatusCarriesLeak(g, before, s);
      }
    }
  }

  /** What a status that has not occurred yet is read as. */
  lemma FirstReadsTheLeak(g: Leaks, w: seq<Sample>, s: Status)
    requires Reported(g, w).Report?
    ensures OfStatus(w, s) == {} ==> Leak(Reported(g, w).leaks, s) == Leak(g, s)
  {
    hide Tallied, Count, Leak, OfStatus, Reported;
    ReportTallies(g, w);
    LeaksFollowProtos(g, w);
    NoProtosOfAbsent(w, s);
  }

  /** And so is the sum. */
  lemma {:induction false} SumCarriesLeaks(g: Leaks, w: seq<Sample>)
    requires Reported(g, w).Report?
    ensures SumValues(Reported(g, w).byStatus) == |w| + Extra(g, w)
  {
    hide SumValues, OfStatus, CountOne, Tallied, Count, Leak;
    if w == [] {
      NoStatusOccurs();
      EmptyRow();
    } else {
      var before, n := w[..|w| - 1], |w| - 1;
      assert w[..n + 1] == w;
      var s, r := w[n].status, Reported(g, before);
      SumCarriesLeaks(g, before);
      StatusesCarryLeaks(g, before);
      assert StatusCarriesLeak(g, before, s);
      FirstReadsTheLeak(g, before, s);
      OfStatusNext(w, n);
      NoneOfStatus(before);
      NoneOfStatus(w);
      SumUpdate(r.byStatus, s, Read(r.leaks, r.byStatus, s) + 1);
    }
  }

  ghost predicate StatusCarriesLeak(g: Leaks, w: seq<Sample>, s: Status)
    requires Reported(g, w).Report?
  {
    AtStatus(Reported(g, w).byStatus, s) == if OfStatus(w, s) == {} then 0 else Leak(g, s) + |OfStatus(w, s)|
  }

  lemma NoneOfStatus(w: seq<Sample>)
    ensures forall s :: OfStatus(w, s) == {} <==> |OfStatus(w, s)| == 0
  {
  }

  lemma NoStatusOccurs()
    ensures forall s :: OfStatus([], s) == {}
  {
  }

  lemma NoProtosOfAbsent(w: seq<Sample>, s: Status)
    ensures OfStatus(w, s) == {} ==> Protos(w, s) == 0
  {
    assert Occurrences(w, s, PROTO) <= OfStatus(w, s);
  }

  /** What had leaked under the statuses that occur. */
  function Extra(g: Leaks, w: seq<Sample>): nat {
    (if OfStatus(w, Success) == {} then 0 else Leak(g, Success))
    + (if OfStatus(w, Failed) == {} then 0 else Leak(g, Failed))
  }

  /** Without leaks, what is missing from the record by target are the samples of inherited targets. */
  lemma {:induction false} TargetsMissInherited(g: Leaks, w: seq<Sample>)
    requires Tallied(g, w).Counted?
    requires forall i | 0 <= i < |w| :: Leak(g, w[i].status) == 0 && w[i].targetSystem != PROTO
    ensures SumNested(Tallied(g, w).tally) + |Inherited(w)| == |w|
  {
    hide SumNested, Count, Leak, CountOne, Inherited;
    if w == [] {
      NoRows();
      assert Inherited([]) == {} by { NothingInherited(); }
    } else {
      var before, n := w[..|w| - 1], |w| - 1;
      TargetsMissInherited(g, before);
      LeaksFollowProtos(g, before);
      NoProtos(before);
      CountedAddsOne(Tallied(g, before).leaks, Tallied(g, before).tally, w[n]);
      InheritedNext(w);
    }
  }

  lemma NothingInherited()
    ensures Inherited([]) == {}
  {
  }

  lemma InheritedNext(w: seq<Sample>)
    requires w != []
    ensures |Inherited(w)| == |Inherited(w[..|w| - 1])| + if w[|w| - 1].targetSystem in INHERITED then 1 else 0
  {
    var n := |w| - 1;
    assert Inherited(w) == Inherited(w[..n]) + if w[n].targetSystem in INHERITED then {n} else {};
  }

  lemma NoProtos(w: seq<Sample>)
    requires forall i | 0 <= i < |w| :: w[i].targetSystem != PROTO
    ensures forall s :: Protos(w, s) == 0
  {
    forall s ensures Occurrences(w, s, PROTO) == {} {
    }
  }

  function Inherited(w: seq<Sample>): set<nat> {
    set i: nat | i < |w| && w[i].targetSystem in INHERITED
  }

  /** The report is consistent: the total, the sum by status and the sum by target agree. */
  ghost predicate Agrees(r: Report, w: seq<Sample>) {
    r.Report? && |w| == SumValues(r.byStatus) == SumNested(r.byTarget)
  }

  /** A report made after the samples have been counted once agrees with itself if and only if no sample
      disturbed that count, and then it is as meant. */
  lemma ReportAgreesIffUndisturbed(g: Leaks, w: seq<Sample>)
    requires Tallied(g, w).Counted?
    ensures var r := Reported(Tallied(g, w).leaks, w);
      && (Agrees(r, w) <==> Undisturbed(g, w))
      && (Undisturbed(g, w) ==>
            r.leaks == g && IsTally(r.byTarget, w) && forall s :: AtStatus(r.byStatus, s) == |OfStatus(w, s)|)
  {
    hide Tallied, Reported, SumNested, SumValues, Count, OfStatus, Shadowed;
    var g1 := Tallied(g, w).leaks;
    var r := Reported(g1, w);
    ReportTallies(g1, w);
    if Undisturbed(g, w) {
      UndisturbedTally(g, w);
      NothingExtra(g, w);
      StatusesCarryLeaks(g, w);
      SumCarriesLeaks(g, w);
      NoneOfStatus(w);
      forall s ensures AtStatus(r.byStatus, s) == |OfStatus(w, s)| {
        assert StatusCarriesLeak(g, w, s);
      }
    } else if Agrees(r, w) {
      SumCarriesLeaks(g1, w);
      NoExtraMeansNoLeaks(g, w);
      TargetsMissInherited(g1, w);
      var i :| 0 <= i < |w| && Disturbs(g, w[i]);
      assert w[i].targetSystem in INHERITED ==> i in Inherited(w);
      if w[i].targetSystem !in INHERITED {
        ShadowedBreaks(g, w, i);
      }
    }
  }

  lemma NothingExtra(g: Leaks, w: seq<Sample>)
    requires Undisturbed(g, w)
    ensures Extra(g, w) == 0 && forall s :: OfStatus(w, s) != {} ==> Leak(g, s) == 0
  {
    forall s | OfStatus(w, s) != {} ensures Leak(g, s) == 0 {
      var i :| i in OfStatus(w, s);
      assert !Disturbs(g, w[i]);
    }
  }

  lemma NoExtraMeansNoLeaks(g: Leaks, w: seq<Sample>)
    requires Tallied(g, w).Counted? && Extra(Tallied(g, w).leaks, w) == 0
    ensures forall i | 0 <= i < |w| ::
      Leak(Tallied(g, w).leaks, w[i].status) == 0 && Leak(g, w[i].status) == 0 && w[i].targetSystem != PROTO
  {
    hide Tallied, Count;
    LeaksFollowProtos(g, w);
    forall i | 0 <= i < |w|
      ensures Leak(Tallied(g, w).leaks, w[i].status) == 0 && Leak(g, w[i].status) == 0 && w[i].targetSystem != PROTO
    {
      assert i in OfStatus(w, w[i].status);
      Occurs(w, i);
    }
  }

  // ----- What inherited targets do -----

  /** A sample of an inherited target is in the total and in no other count; it lands on the shared object. */
  lemma InheritedTargetIsNotCounted(x: Sample)
    requires x.targetSystem in INHERITED && x.targetSystem != PROTO
    ensures Tallied(map[], [x]) == Counted(map[x.targetSystem := map[x.status := 1]], map[])
    ensures SumNested(map[]) == 0 < |[x]|
  {
    assert [x][..0] == [];
    NoRows();
  }

  /** After one sample of `__proto__`, every later window without inherited targets counts each pair of that
      status, and the status itself, one too high, and cannot be counted at all when it holds a sample whose
      target is the name of that status. */
  lemma ProtoRaisesLaterCounts(x: Sample, w: seq<Sample>)
    requires x.targetSystem == PROTO && forall i | 0 <= i < |w| :: w[i].targetSystem !in INHERITED
    ensures Tallied(map[], [x]) == Counted(map[PROTO := map[x.status := 1]], map[])
    ensures var g := Tallied(map[], [x]).leaks;
      && (Reported(g, w).Report? <==> forall i | 0 <= i < |w| :: w[i].targetSystem != Property(x.status))
      && (Reported(g, w).Report? ==>
            (forall s, target | Count(w, s, target) > 0 ::
               At(Reported(g, w).byTarget, s, target) == Count(w, s, target) + if s == x.status then 1 else 0)
            && (forall s | OfStatus(w, s) != {} ::
                  AtStatus(Reported(g, w).byStatus, s) == |OfStatus(w, s)| + if s == x.status then 1 else 0))
  {
    hide Reported, Count, OfStatus, Shadowed, Tallied;
    ProtoLeaks(x);
    LaterWindow(Tallied(map[], [x]).leaks, w);
  }

  lemma ProtoLeaks(x: Sample)
    requires x.targetSystem == PROTO
    ensures var g: Leaks := map[PROTO := map[x.status := 1]];
      && Tallied(map[], [x]) == Counted(g, map[])
      && (forall s :: Leak(g, s) == if s == x.status then 1 else 0)
      && (forall name :: Shadowed(g, name) <==> name == Property(x.status))
  {
    assert [x][..0] == [];
  }

  /** The same for whatever has leaked: leaks never go away, each window without inherited targets counts them
      again, and it can be counted if and only if no target is the name of a leaked status. */
  lemma LaterWindow(g: Leaks, w: seq<Sample>)
    requires forall i | 0 <= i < |w| :: w[i].targetSystem !in INHERITED
    ensures Reported(g, w).Report? <==> forall i | 0 <= i < |w| :: !Shadowed(g, w[i].targetSystem)
    ensures Reported(g, w).leaks == g
    ensures Reported(g, w).Report? ==>
      (forall s, target | Count(w, s, target) > 0 ::
         At(Reported(g, w).byTarget, s, target) == Count(w, s, target) + Leak(g, s))
      && (forall s | OfStatus(w, s) != {} ::
            AtStatus(Reported(g, w).byStatus, s) == |OfStatus(w, s)| + Leak(g, s))
  {
    hide Tallied, Reported, Shadowed, OfStatus;
    ReportTallies(g, w);
    OrdinaryTargetsLeakNothing(g, w);
    if Reported(g, w).Report? {
      StatusesCarryLeaks(g, w);
      NoProtos(w);
      forall s, target | Count(w, s, target) > 0
        ensures At(Reported(g, w).byTarget, s, target) == Count(w, s, target) + Leak(g, s)
      {
        var i :| i in Occurrences(w, s, target);
        CountsCarryLeaks(g, w, s, target);
      }
      forall s | OfStatus(w, s) != {}
        ensures AtStatus(Reported(g, w).byStatus, s) == |OfStatus(w, s)| + Leak(g, s)
      {
        assert StatusCarriesLeak(g, w, s);
      }
    }
    if i :| 0 <= i < |w| && Shadowed(g, w[i].targetSystem) {
      ShadowedBreaks(g, w, i);
    }
  }

  lemma {:induction false} OrdinaryTargetsLeakNothing(g: Leaks, w: seq<Sample>)
    requires forall i | 0 <= i < |w| :: w[i].targetSystem !in INHERITED
    ensures Tallied(g, w).leaks == g
    ensures (forall i | 0 <= i < |w| :: !Shadowed(g, w[i].targetSystem)) ==> Tallied(g, w).Counted?
  {
    hide Shadowed;
    if w != [] {
      OrdinaryTargetsLeakNothing(g, w[..|w| - 1]);
    }
  }

  lemma OfStatusNext(w: seq<Sample>, i: nat)
    requires i < |w|
    ensures forall status ::
      |OfStatus(w[..i + 1], status)| == |OfStatus(w[..i], status)| + if w[i].status == status then 1 else 0
  {
    forall status
      ensures |OfStatus(w[..i + 1], status)| == |OfStatus(w[..i], status)| + if w[i].status == status then 1 else 0
    {
      assert OfStatus(w[..i + 1], status) == OfStatus(w[..i], status) + if w[i].status == status then {i} else {};
    }
  }

  lemma CountNext(w: seq<Sample>, i: nat)
    requires i < |w|
    ensures forall status, target ::
      Count(w[..i + 1], status, target)
      == Count(w[..i], status, target) + if w[i].status == status && w[i].targetSystem == target then 1 else 0
  {
    hide Count;
    forall status, target
      ensures Count(w[..i + 1], status, target)
        == Count(w[..i], status, target) + if w[i].status == status && w[i].targetSystem == target then 1 else 0
    {
      CountNextAt(w, i, status, target);
    }
  }

  lemma CountNextAt(w: seq<Sample>, i: nat, status: Status, target: string)
    requires i < |w|
    ensures Count(w[..i + 1], status, target)
      == Count(w[..i], status, target) + if w[i].status == status && w[i].targetSystem == target then 1 else 0
  {
    PrefixOccurrences(w, i, status, target);
    PrefixOccurrences(w, i + 1, status, target);
    var before, after := OccurrencesBelow(w, i, status, target), OccurrencesBelow(w, i + 1, status, target);
    if w[i].status == status && w[i].targetSystem == target {
      assert after == before + {i} && i !in before;
    } else {
      assert after == before;
    }
  }

  function OccurrencesBelow(w: seq<Sample>, n: nat, status: Status, target: string): set<nat>
    requires n <= |w|
  {
    set i: nat | i < n && w[i].status == status && w[i].targetSystem == target
  }

  lemma PrefixOccurrences(w: seq<Sample>, n: nat, status: Status, target: string)
    requires n <= |w|
    ensures Occurrences(w[..n], status, target) == OccurrencesBelow(w, n, status, target)
  {
  }

  // ----- Sums over the values of a map -----

  ghost function SumValues<K>(m: map<K, nat>): nat {
    if m == map[] then 0
    else
      var k :| k in m;
      m[k] + SumValues(m - {k})
  }

  lemma {:induction false} SumRemove<K>(m: map<K, nat>, k: K)
    requires k in m
    ensures SumValues(m) == m[k] + SumValues(m - {k})
  {
    var first :| first in m && SumValues(m) == m[first] + SumValues(m - {first});
    if first != k {
      SumRemove(m - {first}, k);
      SumRemove(m - {k}, first);
      assert m - {first} - {k} == m - {k} - {first};
    }
  }

  lemma SumUpdate<K>(m: map<K, nat>, k: K, v: nat)
    ensures SumValues(m[k := v]) == SumValues(m) - (if k in m then m[k] else 0) + v
  {
    SumRemove(m[k := v], k);
    assert m[k := v] - {k} == m - {k};
    if k in m {
      SumRemove(m, k);
    } else {
      assert m - {k} == m;
    }
  }

  ghost function RowSums(t: Tally): map<string, nat> {
    map target | target in t :: SumValues(t[target])
  }

  ghost function SumNested(t: Tally): nat {
    SumValues(RowSums(t))
  }

  lemma NestedUpdate(t: Tally, target: string, row: Row)
    ensures SumNested(t[target := row])
      == SumNested(t) - (if target in t then SumValues(t[target]) else 0) + SumValues(row)
  {
    SumUpdate(RowSums(t), target, SumValues(row));
    assert RowSums(t[target := row]) == RowSums(t)[target := SumValues(row)];
  }

  lemma EmptyRow()
    ensures SumValues<Status>(map[]) == 0
  {
  }

  lemma NoRows()
    ensures SumNested(map[]) == 0
  {
  }
}
