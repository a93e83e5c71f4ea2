/** Runs of scheduled frames: which deadlines the queued jobs carry, and exactly when
    the slots of two groups can interleave. */
module PresentationRuns {
  import opened Arithmetic
  import opened Presentation

  // From the sealed frame to its deadlines

  /** The group a scheduled, interpolated frame makes when it is encoded at `now`. */
  function GroupOf(c: Schedule, now: Time): Group {
    Group(c.base, c.interval, c.interpolatedFrames + 1, now)
  }

  /** The frame is on the schedule, so its group moves the cursor instead of resetting it. */
  predicate Scheduled(c: Schedule) {
    c.base > 0 && c.interval > 0 && c.interpolatedFrames > 0
  }

  function GroupsOf(schedules: seq<Schedule>, clocks: seq<Time>): (groups: seq<Group>)
    requires |clocks| == |schedules|
    ensures |groups| == |schedules|
    ensures forall i :: 0 <= i < |groups| ==> groups[i] == GroupOf(schedules[i], clocks[i])
  {
    seq(|schedules|, i requires 0 <= i < |schedules| => GroupOf(schedules[i], clocks[i]))
  }

  /** The jobs of one sealed frame: its interpolated slots, then the frame itself. */
  method Encode(c: Schedule, logicalFrame: nat) returns (jobs: seq<PresentationJob>)
    ensures |jobs| == c.interpolatedFrames + 1
    ensures forall k :: 0 <= k < |jobs| ==>
      jobs[k] == PresentationJob(logicalFrame, SlotDeadline(c, k), k < c.interpolatedFrames, 0)
    // What these deadlines are.
    ensures c.base == 0 || c.interval == 0 ==> forall k :: 0 <= k < |jobs| ==> jobs[k].presentAt == 0
    ensures c.base > 0 && c.interval > 0 && c.interpolatedFrames == 0 && c.base + 6_500_000 >= c.interval ==>
      jobs[0].presentAt == c.base - c.interval + 6_500_000
    ensures Scheduled(c) ==> SharesInterval(c, jobs) && jobs[0].presentAt == c.base
  {
    jobs := [];
    for slot := 0 to c.interpolatedFrames
      invariant |jobs| == slot
      invariant forall k :: 0 <= k < slot ==> jobs[k] == PresentationJob(logicalFrame, SlotDeadline(c, k), true, 0)
    {
      jobs := jobs + [PresentationJob(logicalFrame, SlotDeadline(c, slot), true, 0)];
    }
    jobs := jobs + [PresentationJob(logicalFrame, SlotDeadline(c, c.interpolatedFrames), false, 0)];
    SlotDeadlineExactly(c, 0);
    if Scheduled(c) {
      FirstSlotOnBase(c);
      forall k | 0 <= k < |jobs|
        ensures EvenShare(jobs[k].presentAt - jobs[0].presentAt, k, c.interval, c.interpolatedFrames + 1)
      {
        SlotDeadlineExactly(c, k);
      }
    }
  }

  /** Job k is due k n-ths of the interval after job 0, rounded down, where n jobs make the frame. */
  predicate SharesInterval(c: Schedule, jobs: seq<PresentationJob>) {
    && |jobs| == c.interpolatedFrames + 1
    && forall k :: 0 <= k < |jobs| ==>
         EvenShare(jobs[k].presentAt - jobs[0].presentAt, k, c.interval, c.interpolatedFrames + 1)
  }

  /** The jobs are those of this frame: the interpolated ones and then the frame itself. */
  predicate JobsOfFrame(c: Schedule, logicalFrame: nat, jobs: seq<PresentationJob>) {
    && SharesInterval(c, jobs)
    && forall k :: 0 <= k < |jobs| ==>
         jobs[k].logicalFrame == logicalFrame && (jobs[k].interpolated <==> k < c.interpolatedFrames)
  }

  /** A slide keeps the distances within a group. */
  lemma SlideKeepsShares(c: Schedule, encoded: seq<PresentationJob>, jobs: seq<PresentationJob>, shift: int)
    requires SharesInterval(c, encoded) && |jobs| == |encoded|
    requires forall k :: 0 <= k < |jobs| ==> jobs[k].presentAt == encoded[k].presentAt + shift
    ensures SharesInterval(c, jobs)
  {
    forall k | 0 <= k < |jobs|
      ensures EvenShare(jobs[k].presentAt - jobs[0].presentAt, k, c.interval, c.interpolatedFrames + 1)
    {
      assert jobs[k].presentAt - jobs[0].presentAt == encoded[k].presentAt - encoded[0].presentAt;
    }
  }

  lemma FirstSlotOnBase(c: Schedule)
    requires Scheduled(c)
    ensures SlotDeadline(c, 0) == c.base
  {
    UniqueQuotient(0, 0, 0, c.interpolatedFrames + 1);
  }

  /** The cursor after a run of groups. */
  function Cursor(groups: seq<Group>): Time
    requires WellFormedGroups(groups)
  {
    if groups == [] then UNSCHEDULED else Anchors(groups)[|groups| - 1]
  }

  /** The last of a run of groups, after the ones before it. */
  lemma LastAnchor(groups: seq<Group>, g: Group)
    requires WellFormedGroups(groups) && WellFormedGroup(g)
    ensures WellFormedGroups(groups + [g])
    ensures Anchors(groups + [g]) == Anchors(groups) + [GroupAnchor(Cursor(groups), g)]
    ensures Cursor(groups + [g]) == GroupAnchor(Cursor(groups), g)
  {
    assert (groups + [g])[..|groups|] == groups;
  }

  /** What one encoded and slid group carries. */
  predicate CarriesDeadlines(groups: seq<Group>, i: nat, jobs: seq<PresentationJob>)
    requires WellFormedGroups(groups) && i < |groups|
  {
    |jobs| == groups[i].slots && forall k :: 0 <= k < |jobs| ==> jobs[k].presentAt == Deadline(groups, i, k)
  }

  lemma StillCarries(groups: seq<Group>, g: Group, i: nat, jobs: seq<PresentationJob>)
    requires WellFormedGroups(groups) && WellFormedGroup(g) && i < |groups| && CarriesDeadlines(groups, i, jobs)
    ensures WellFormedGroups(groups + [g]) && CarriesDeadlines(groups + [g], i, jobs)
  {
    LastAnchor(groups, g);
    assert forall k :: 0 <= k < |jobs| ==> jobs[k].presentAt == Deadline(groups, i, k);
  }

  /** Every queued group carries its deadlines. */
  predicate AllCarry(groups: seq<Group>, queued: seq<seq<PresentationJob>>)
    requires WellFormedGroups(groups)
  {
    |queued| == |groups| && forall i :: 0 <= i < |queued| ==> CarriesDeadlines(groups, i, queued[i])
  }

  lemma OneMoreCarries(groups: seq<Group>, queued: seq<seq<PresentationJob>>, g: Group, jobs: seq<PresentationJob>)
    requires WellFormedGroups(groups) && WellFormedGroup(g) && WellFormedGroups(groups + [g])
    requires AllCarry(groups, queued) && CarriesDeadlines(groups + [g], |groups|, jobs)
    ensures AllCarry(groups + [g], queued + [jobs])
  {
    forall i | 0 <= i < |queued|
      ensures CarriesDeadlines(groups + [g], i, queued[i])
    {
      StillCarries(groups, g, i, queued[i]);
    }
  }

  lemma CarriedInOrder(groups: seq<Group>, queued: seq<seq<PresentationJob>>)
    requires WellFormedGroups(groups) && AllCarry(groups, queued)
    ensures OneGrid(groups) ==> NonDecreasing(Stream(queued))
  {
    if OneGrid(groups) {
      StreamInOrder(groups, queued);
    }
  }

  /** One frame of a run: encoded, and slid behind the groups before it. */
  method EncodeAndSlide(scheduler: GroupScheduler, c: Schedule, logicalFrame: nat, now: Time, ghost before: seq<Group>)
    returns (jobs: seq<PresentationJob>)
    requires Scheduled(c) && WellFormedGroups(before)
    requires scheduler.lastAnchor == Cursor(before)
    modifies scheduler
    ensures WellFormedGroups(before + [GroupOf(c, now)])
    ensures scheduler.lastAnchor == Cursor(before + [GroupOf(c, now)])
    ensures CarriesDeadlines(before + [GroupOf(c, now)], |before|, jobs)
    ensures JobsOfFrame(c, logicalFrame, jobs)
  {
    var encoded := Encode(c, logicalFrame);
    FirstSlotOnBase(c);
    LastAnchor(before, GroupOf(c, now));
    jobs := scheduler.Slide(c, encoded, now);
    SlideKeepsShares(c, encoded, jobs, jobs[0].presentAt - encoded[0].presentAt);
  }

  /** A maximal run of scheduled frames: every queued job carries the deadline of its slot. */
  method EncodeRun(schedules: seq<Schedule>, clocks: seq<Time>) returns (queued: seq<seq<PresentationJob>>)
    requires |clocks| == |schedules| && forall i :: 0 <= i < |schedules| ==> Scheduled(schedules[i])
    ensures WellFormedGroups(GroupsOf(schedules, clocks)) && AllCarry(GroupsOf(schedules, clocks), queued)
    ensures |queued| == |schedules| && forall i :: 0 <= i < |queued| ==> JobsOfFrame(schedules[i], i, queued[i])
    ensures OneGrid(GroupsOf(schedules, clocks)) ==> NonDecreasing(Stream(queued))
  {
    var scheduler := new GroupScheduler();
    ghost var all := GroupsOf(schedules, clocks);
    ghost var groups: seq<Group> := [];
    queued := [];
    for i := 0 to |schedules|
      invariant groups == all[..i] && WellFormedGroups(groups) && AllCarry(groups, queued)
      invariant scheduler.lastAnchor == Cursor(groups)
      invariant |queued| == i && forall k :: 0 <= k < i ==> JobsOfFrame(schedules[k], k, queued[k])
    {
      var jobs := EncodeAndSlide(scheduler, schedules[i], i, clocks[i], groups);
      OneMoreCarries(groups, queued, all[i], jobs);
      groups, queued := groups + [all[i]], queued + [jobs];
    }
    assert groups == all;
    CarriedInOrder(groups, queued);
  }

  // The stream of deadlines

  function Deadlines(jobs: seq<PresentationJob>): (times: seq<Time>)
    ensures |times| == |jobs| && forall k :: 0 <= k < |times| ==> times[k] == jobs[k].presentAt
  {
    seq(|jobs|, k requires 0 <= k < |jobs| => jobs[k].presentAt)
  }

  /** All deadlines in the order the jobs are queued. */
  function Stream(queued: seq<seq<PresentationJob>>): seq<Time> {
    if queued == [] then [] else Stream(queued[..|queued| - 1]) + Deadlines(queued[|queued| - 1])
  }

  predicate NonDecreasing(times: seq<Time>) {
    forall p, q :: 0 <= p < q < |times| ==> times[p] <= times[q]
  }

  /** Every deadline in the stream is that of some job of some group. */
  lemma {:induction false} InStream(queued: seq<seq<PresentationJob>>, p: nat) returns (i: nat, k: nat)
    requires p < |Stream(queued)|
    ensures i < |queued| && k < |queued[i]| && Stream(queued)[p] == queued[i][k].presentAt
  {
    var before := queued[..|queued| - 1];
    if p < |Stream(before)| {
      i, k := InStream(before, p);
    } else {
      i, k := |queued| - 1, p - |Stream(before)|;
    }
  }

  lemma {:induction false} StreamInOrder(groups: seq<Group>, queued: seq<seq<PresentationJob>>)
    requires WellFormedGroups(groups) && OneGrid(groups) && |queued| <= |groups|
    requires forall i :: 0 <= i < |queued| ==> CarriesDeadlines(groups, i, queued[i])
    ensures NonDecreasing(Stream(queued))
  {
    if queued != [] {
      var n := |queued| - 1;
      var before, last := Stream(queued[..n]), Deadlines(queued[n]);
      StreamInOrder(groups, queued[..n]);
      forall p, q | 0 <= p < q < |before + last|
        ensures (before + last)[p] <= (before + last)[q]
      {
        if p >= |before| {
          SlotsInOrder(groups, n, p - |before|, q - |before|);
        } else if q >= |before| {
          var i, k := InStream(queued[..n], p);
          GroupsDoNotInterleave(groups, i, k, n, q - |before|);
        }
      }
    }
  }

  // Exactly when groups can interleave

  predicate OneInterval(groups: seq<Group>, interval: nat) {
    forall i :: 0 <= i < |groups| ==> groups[i].interval == interval
  }

  function WithClocks(groups: seq<Group>, clocks: seq<Time>): (g: seq<Group>)
    requires |clocks| == |groups|
    ensures |g| == |groups| && forall i :: 0 <= i < |g| ==> g[i] == groups[i].(now := clocks[i])
  {
    seq(|groups|, i requires 0 <= i < |groups| => groups[i].(now := clocks[i]))
  }

  /** Some slot of a later group presents before some slot of an earlier one. */
  ghost predicate Interleave(groups: seq<Group>)
    requires WellFormedGroups(groups)
  {
    exists i, j, s, r ::
      && 0 <= i < j < |groups| && 0 <= s < groups[i].slots && 0 <= r < groups[j].slots
      && Deadline(groups, j, r) < Deadline(groups, i, s)
  }

  /** The span from the first slot of a group to its last. */
  function Span(g: Group): nat
    requires WellFormedGroup(g)
  {
    SlotOffset(g.interval, g.slots - 1, g.slots)
  }

  /** How far group j falls behind the grid of group m, modulo the interval. */
  function Phase(groups: seq<Group>, m: nat, j: nat): nat
    requires m < |groups| && j < |groups| && groups[j].interval > 0
  {
    (groups[j].front - groups[m].front) % groups[j].interval
  }

  /** Group j falls between the slots of the group before it when that one stands on
      the grid of group m. */
  predicate FallsBetween(groups: seq<Group>, m: nat, j: nat)
    requires WellFormedGroups(groups) && m < j < |groups|
  {
    0 < Phase(groups, m, j) < Span(groups[j - 1])
  }

  ghost predicate OffGrid(groups: seq<Group>)
    requires WellFormedGroups(groups)
  {
    exists m, j :: 0 <= m < j < |groups| && FallsBetween(groups, m, j)
  }

  lemma SpanIsLast(g: Group, s: nat)
    requires WellFormedGroup(g) && s < g.slots
    ensures SlotOffset(g.interval, s, g.slots) <= Span(g) < g.interval
  {
    SlotWithinInterval(g.interval, g.slots - 1, g.slots);
    LaterSlot(g.interval, s, g.slots - 1, g.slots);
  }

  lemma SameRemainderPhase(x: nat, y: nat, f: nat, g: nat, d: nat)
    requires d > 0 && x <= y < x + d && x % d == f % d && y % d == g % d
    ensures (g - f) % d == y - x
  {
    QuotientBounds(x, d);
    QuotientBounds(y, d);
    QuotientBounds(f, d);
    QuotientBounds(g, d);
    var q := g / d - y / d - (f / d - x / d);
    assert g - f == q * d + (y - x) by {
      assert q * d == g / d * d - y / d * d - (f / d * d - x / d * d);
    }
    UniqueRemainder(g - f, q, y - x, d);
  }

  lemma UniqueRemainder(x: int, q: int, r: nat, d: nat)
    requires d > 0 && x == q * d + r && r < d
    ensures x % d == r
  {
    var p := x / d;
    assert x == p * d + x % d;
    if p < q {
      ProductGrows(p, q, d);
    } else if q < p {
      ProductGrows(q, p, d);
    }
  }

  /** An anchor stands on the grid of the last group that the cursor did not cap. */
  lemma {:induction false} AnchorOrigin(groups: seq<Group>, i: nat, interval: nat) returns (m: nat)
    requires WellFormedGroups(groups) && OneInterval(groups, interval) && i < |groups|
    ensures m <= i && interval > 0 && Anchors(groups)[i] % interval == groups[m].front % interval
    ensures i > 0 && Anchors(groups)[i] != Anchors(groups)[i - 1] + interval ==> m == i
  {
    AnchorStep(groups, i);
    assert WellFormedGroup(groups[i]);
    if i > 0 && Anchors(groups)[i] == Anchors(groups)[i - 1] + interval {
      m := AnchorOrigin(groups, i - 1, interval);
      OnePeriodLater(Anchors(groups)[i - 1], interval);
    } else {
      m := i;
      SlideKeepsRemainder(groups[i].front, interval, groups[i].now);
    }
  }

  /** Groups that interleave at all do so one after the other. */
  lemma InterleavingNeighbours(groups: seq<Group>, i: nat, j: nat, s: nat, r: nat)
    requires WellFormedGroups(groups) && i < j < |groups| && s < groups[i].slots && r < groups[j].slots
    requires Deadline(groups, j, r) < Deadline(groups, i, s)
    ensures Anchors(groups)[i] < Anchors(groups)[i + 1] < Anchors(groups)[i] + Span(groups[i])
  {
    AnchorsIncrease(groups, i, i + 1);
    if i + 1 < j {
      AnchorsIncrease(groups, i + 1, j);
    }
    SpanIsLast(groups[i], s);
  }

  lemma InterleavingIsOffGrid(groups: seq<Group>, interval: nat)
    requires WellFormedGroups(groups) && OneInterval(groups, interval) && Interleave(groups)
    ensures OffGrid(groups)
  {
    var i, j, s, r :|
      && 0 <= i < j < |groups| && 0 <= s < groups[i].slots && 0 <= r < groups[j].slots
      && Deadline(groups, j, r) < Deadline(groups, i, s);
    InterleavingNeighbours(groups, i, j, s, r);
    SpanIsLast(groups[i], 0);
    var m := AnchorOrigin(groups, i, interval);
    var n := AnchorOrigin(groups, i + 1, interval);
    SameRemainderPhase(Anchors(groups)[i], Anchors(groups)[i + 1], groups[m].front, groups[i + 1].front, interval);
    assert FallsBetween(groups, m, i + 1);
  }

  // Clocks that make it happen

  /** k periods of the interval. */
  function Periods(k: nat, interval: nat): (p: nat)
    ensures interval > 0 ==> p >= k
  {
    if k == 0 then 0 else Periods(k - 1, interval) + interval
  }

  lemma {:induction false} PeriodsIsProduct(k: nat, interval: nat)
    ensures Periods(k, interval) == k * interval
  {
    if k > 0 {
      PeriodsIsProduct(k - 1, interval);
      assert k * interval == (k - 1) * interval + interval;
    } else {
      assert 0 * interval == 0;
    }
  }

  lemma {:induction false} PeriodsAdd(a: nat, b: nat, interval: nat)
    ensures Periods(a + b, interval) == Periods(a, interval) + Periods(b, interval)
    decreases b
  {
    if b > 0 {
      PeriodsAdd(a, b - 1, interval);
    }
  }

  /** How many periods of group m go past every front, and past one more for every group. */
  function LatePeriods(groups: seq<Group>, m: nat, interval: nat): nat
    requires m < |groups| && interval > 0
  {
    (Latest(groups) - groups[m].front) / interval + |groups|
  }

  /** A point of group m's grid later than every front. */
  function Late(groups: seq<Group>, m: nat, interval: nat): nat
    requires m < |groups| && interval > 0
  {
    groups[m].front + Periods(LatePeriods(groups, m, interval), interval)
  }

  /** Where group j stands when group m is encoded at that point: its phase after the group before it. */
  function Meeting(groups: seq<Group>, m: nat, j: nat, interval: nat): nat
    requires m < j < |groups| && groups[j].interval == interval > 0
  {
    Late(groups, m, interval) + Periods(j - m, interval) + Phase(groups, m, j)
  }

  /** In time before group m, late from there on, and from group j on right before the meeting point. */
  function ClockAt(groups: seq<Group>, m: nat, j: nat, interval: nat, i: nat): Time
    requires m < j < |groups| && groups[j].interval == interval > 0
  {
    if i < m then Earliest(groups)
    else if i < j then Late(groups, m, interval)
    else Meeting(groups, m, j, interval) - 1
  }

  function Clocks(groups: seq<Group>, m: nat, j: nat, interval: nat): (clocks: seq<Time>)
    requires m < j < |groups| && groups[j].interval == interval > 0
    ensures |clocks| == |groups|
    ensures forall i :: 0 <= i < |clocks| ==> clocks[i] == ClockAt(groups, m, j, interval, i)
  {
    seq(|groups|, i requires 0 <= i < |groups| => ClockAt(groups, m, j, interval, i))
  }

  /** A clock one before a point of the group's own grid slides the front onto it. */
  lemma SlidOnto(front: Time, interval: nat, periods: nat)
    requires interval > 1 && periods > 0
    ensures Slid(front, interval, front + Periods(periods, interval) - 1) == front + Periods(periods, interval)
  {
    PeriodsIsProduct(periods, interval);
    PeriodsIsProduct(periods - 1, interval);
    UniqueQuotient(Periods(periods, interval) - 1, periods - 1, interval - 1, interval);
  }

  /** A clock on such a point slides it one period further. */
  lemma SlidPast(front: Time, interval: nat, periods: nat)
    requires interval > 0 && periods > 0
    ensures Slid(front, interval, front + Periods(periods, interval)) == front + Periods(periods, interval) + interval
  {
    PeriodsIsProduct(periods, interval);
    PeriodsIsProduct(periods + 1, interval);
    UniqueQuotient(Periods(periods, interval), periods, 0, interval);
  }

  /** A distance of whole periods from the front, as the meeting point is. */
  lemma WholePeriods(front: nat, other: nat, ahead: nat, interval: nat) returns (periods: nat)
    requires interval > 0 && front < other + Periods(ahead, interval)
    ensures periods > 0
    ensures other + Periods(ahead, interval) + (front - other) % interval == front + Periods(periods, interval)
  {
    var q := (front - other) / interval;
    assert front - other == q * interval + (front - other) % interval;
    PeriodsIsProduct(ahead, interval);
    assert (ahead - q) * interval == ahead * interval - q * interval;
    if ahead - q <= 0 {
      NotPositive(ahead - q, interval);
    }
    periods := ahead - q;
    PeriodsIsProduct(periods, interval);
  }

  lemma NotPositive(k: int, d: nat)
    requires k <= 0
    ensures k * d <= 0
  {
  }

  /** Between the fronts and the late point lies a period for every group, and no more than
      one besides. */
  lemma LateAfterFronts(groups: seq<Group>, m: nat, interval: nat)
    requires m < |groups| && interval > 0
    ensures Latest(groups) + Periods(|groups| - 1, interval) < Late(groups, m, interval)
    ensures Late(groups, m, interval) <= Latest(groups) + Periods(|groups|, interval)
  {
    var q := (Latest(groups) - groups[m].front) / interval;
    QuotientBounds(Latest(groups) - groups[m].front, interval);
    PeriodsIsProduct(q, interval);
    PeriodsAdd(q, |groups|, interval);
  }

  /** The meeting point is on the grid of group j. */
  lemma MeetingOnGrid(groups: seq<Group>, m: nat, j: nat, interval: nat) returns (periods: nat)
    requires m < j < |groups| && groups[j].interval == interval > 0
    ensures periods > 0 && Meeting(groups, m, j, interval) == groups[j].front + Periods(periods, interval)
  {
    LateAfterFronts(groups, m, interval);
    PeriodsAdd(LatePeriods(groups, m, interval), j - m, interval);
    periods := WholePeriods(groups[j].front, groups[m].front, LatePeriods(groups, m, interval) + j - m, interval);
  }

  /** As long as nothing is late, anchors stay within the bound and the periods of the cursor. */
  lemma {:induction false} AnchorsInTime(groups: seq<Group>, t: nat, bound: nat, interval: nat)
    requires WellFormedGroups(groups) && OneInterval(groups, interval) && t < |groups|
    requires forall i :: 0 <= i <= t ==> groups[i].now <= groups[i].front <= bound
    ensures Anchors(groups)[t] <= bound + Periods(t, interval)
  {
    AnchorStep(groups, t);
    if t > 0 {
      AnchorsInTime(groups, t - 1, bound, interval);
    }
  }

  /** A group encoded at least one period before the last anchor is capped. */
  lemma CappedAnchor(last: Time, g: Group)
    requires WellFormedGroup(g) && g.front <= g.now && g.now + g.interval <= last
    ensures GroupAnchor(last, g) == last + g.interval
  {
  }

  /** Behind a late group the cursor caps every group that is encoded at the same clock. */
  lemma {:induction false} CappedRun(groups: seq<Group>, m: nat, t: nat, late: nat, interval: nat)
    requires WellFormedGroups(groups) && OneInterval(groups, interval) && m <= t < |groups|
    requires Anchors(groups)[m] == late + interval
    requires forall i :: m < i <= t ==> groups[i].front <= groups[i].now == late
    ensures Anchors(groups)[t] == late + interval + Periods(t - m, interval)
    decreases t
  {
    if m < t {
      CappedRun(groups, m, t - 1, late, interval);
      AnchorStep(groups, t);
      CappedAnchor(Anchors(groups)[t - 1], groups[t]);
    }
  }

  lemma PeriodsMonotone(a: nat, b: nat, interval: nat)
    requires a <= b
    ensures Periods(a, interval) <= Periods(b, interval)
  {
    PeriodsAdd(a, b - a, interval);
  }

  /** The anchor of a late group behind groups in time. */
  lemma LateAnchor(groups: seq<Group>, m: nat, bound: nat, interval: nat, periods: nat)
    requires WellFormedGroups(groups) && OneInterval(groups, interval) && m < |groups| && interval > 0
    requires periods > 0 && groups[m].now == groups[m].front + Periods(periods, interval)
    requires bound + Periods(|groups| - 1, interval) < groups[m].now
    requires forall i :: 0 <= i < m ==> groups[i].now <= groups[i].front <= bound
    ensures Anchors(groups)[m] == groups[m].now + interval
  {
    AnchorStep(groups, m);
    SlidPast(groups[m].front, interval, periods);
    if m > 0 {
      AnchorsInTime(groups, m - 1, bound, interval);
      PeriodsMonotone(m - 1, |groups| - 1, interval);
    }
  }

  function Latest(groups: seq<Group>): (b: nat)
    ensures forall i :: 0 <= i < |groups| ==> groups[i].front <= b
  {
    if groups == [] then 0
    else
      var b := Latest(groups[1..]);
      assert forall i :: 1 <= i < |groups| ==> groups[i] == groups[1..][i - 1];
      if groups[0].front > b then groups[0].front else b
  }

  function Earliest(groups: seq<Group>): (b: nat)
    ensures forall i :: 0 <= i < |groups| ==> b <= groups[i].front
  {
    if groups == [] then 0
    else
      var b := Earliest(groups[1..]);
      assert forall i :: 1 <= i < |groups| ==> groups[i] == groups[1..][i - 1];
      if |groups| == 1 || groups[0].front < b then groups[0].front else b
  }

  /** Clocks that a presentation clock can show: they never go back, start no earlier than
      the first base and end no later than two periods per group after the last base. */
  predicate Steady(groups: seq<Group>, clocks: seq<Time>, interval: nat) {
    && |clocks| == |groups| && NonDecreasing(clocks)
    && forall i :: 0 <= i < |clocks| ==>
         Earliest(groups) <= clocks[i] < Latest(groups) + Periods(2 * |groups|, interval)
  }

  lemma ClocksSteady(groups: seq<Group>, m: nat, j: nat, interval: nat)
    requires m < j < |groups| && groups[j].interval == interval > 0
    ensures Steady(groups, Clocks(groups, m, j, interval), interval)
  {
    MeetingInTime(groups, m, j, interval);
    assert Earliest(groups) <= groups[m].front;
  }

  lemma MeetingInTime(groups: seq<Group>, m: nat, j: nat, interval: nat)
    requires m < j < |groups| && groups[j].interval == interval > 0
    ensures groups[m].front <= Late(groups, m, interval) < Meeting(groups, m, j, interval)
    ensures Meeting(groups, m, j, interval) <= Latest(groups) + Periods(2 * |groups|, interval)
  {
    var n := |groups|;
    LateAfterFronts(groups, m, interval);
    PeriodsAdd(n, j - m + 1, interval);
    PeriodsMonotone(n + j - m + 1, 2 * n, interval);
  }

  /** Groups with the clocks of a late group m and a later group j. */
  predicate ClocksLate(g: seq<Group>, groups: seq<Group>, m: nat, j: nat, interval: nat)
    requires m < j < |groups| && groups[j].interval == interval > 0
  {
    && |g| == |groups|
    && forall i :: 0 <= i < |g| ==> g[i] == groups[i].(now := ClockAt(groups, m, j, interval, i))
  }

  lemma LateGroups(g: seq<Group>, groups: seq<Group>, m: nat, j: nat, interval: nat)
    requires WellFormedGroups(g) && OneInterval(g, interval) && m < j < |groups|
    requires groups[j].interval == interval > 0 && ClocksLate(g, groups, m, j, interval)
    ensures Anchors(g)[j - 1] == Late(groups, m, interval) + Periods(j - m, interval)
  {
    LateClocks(g, groups, m, j, interval);
    LateRun(g, m, j, Latest(groups), interval, LatePeriods(groups, m, interval));
  }

  /** A late group m behind groups in time, and before groups of the same clock up to j. */
  lemma LateRun(g: seq<Group>, m: nat, j: nat, bound: nat, interval: nat, periods: nat)
    requires WellFormedGroups(g) && OneInterval(g, interval) && m < j < |g| && interval > 0
    requires periods > 0 && g[m].now == g[m].front + Periods(periods, interval)
    requires bound + Periods(|g| - 1, interval) < g[m].now
    requires forall i :: 0 <= i < m ==> g[i].now <= g[i].front <= bound
    requires forall i :: m < i <= j - 1 ==> g[i].front <= g[i].now == g[m].now
    ensures Anchors(g)[j - 1] == g[m].now + Periods(j - m, interval)
  {
    LateAnchor(g, m, bound, interval, periods);
    CappedRun(g, m, j - 1, g[m].now, interval);
  }

  lemma LateClocks(g: seq<Group>, groups: seq<Group>, m: nat, j: nat, interval: nat)
    requires m < j < |groups| && groups[j].interval == interval > 0 && ClocksLate(g, groups, m, j, interval)
    ensures g[m].now == Late(groups, m, interval) == g[m].front + Periods(LatePeriods(groups, m, interval), interval)
    ensures LatePeriods(groups, m, interval) > 0
    ensures Latest(groups) + Periods(|g| - 1, interval) < g[m].now
    ensures forall i :: 0 <= i < m ==> g[i].now <= g[i].front <= Latest(groups)
    ensures forall i :: m < i <= j - 1 ==> g[i].front <= g[i].now == Late(groups, m, interval)
  {
    LateAfterFronts(groups, m, interval);
  }

  /** With those clocks group j stands at the meeting point, right behind group j - 1. */
  lemma ClocksMeet(g: seq<Group>, groups: seq<Group>, m: nat, j: nat, interval: nat)
    requires WellFormedGroups(g) && OneInterval(g, interval) && m < j < |groups| && interval > 1
    requires groups[j].interval == interval && ClocksLate(g, groups, m, j, interval)
    requires Phase(groups, m, j) > 0
    ensures Anchors(g)[j] == Anchors(g)[j - 1] + Phase(groups, m, j)
  {
    LateGroups(g, groups, m, j, interval);
    assert g[j].front == groups[j].front;
    var periods := MeetingOnGrid(groups, m, j, interval);
    SlidOnto(groups[j].front, interval, periods);
    AnchorStep(g, j);
  }

  lemma OffGridCanInterleave(groups: seq<Group>, interval: nat) returns (clocks: seq<Time>)
    requires WellFormedGroups(groups) && OneInterval(groups, interval) && OffGrid(groups)
    ensures Steady(groups, clocks, interval) && WellFormedGroups(WithClocks(groups, clocks))
    ensures Interleave(WithClocks(groups, clocks))
  {
    var m, j :| 0 <= m < j < |groups| && FallsBetween(groups, m, j);
    SpanIsLast(groups[j - 1], 0);
    clocks := Clocks(groups, m, j, interval);
    ClocksSteady(groups, m, j, interval);
    ClocksChangeNoGrid(groups, clocks);
    ClocksInterleave(WithClocks(groups, clocks), groups, m, j, interval);
  }

  lemma ClocksInterleave(g: seq<Group>, groups: seq<Group>, m: nat, j: nat, interval: nat)
    requires WellFormedGroups(g) && OneInterval(g, interval) && WellFormedGroups(groups)
    requires m < j < |groups| && interval > 1 && groups[j].interval == interval
    requires ClocksLate(g, groups, m, j, interval) && FallsBetween(groups, m, j)
    ensures Interleave(g)
  {
    ClocksMeet(g, groups, m, j, interval);
    assert Span(g[j - 1]) == Span(groups[j - 1]);
    InterleaveHere(g, j);
  }

  lemma InterleaveHere(g: seq<Group>, j: nat)
    requires WellFormedGroups(g) && 0 < j < |g|
    requires Anchors(g)[j] < Anchors(g)[j - 1] + Span(g[j - 1])
    ensures Interleave(g)
  {
    UniqueQuotient(0, 0, 0, g[j].slots);
    assert Deadline(g, j, 0) < Deadline(g, j - 1, g[j - 1].slots - 1);
  }

  lemma ClocksChangeNoGrid(groups: seq<Group>, clocks: seq<Time>)
    requires WellFormedGroups(groups) && |clocks| == |groups|
    ensures WellFormedGroups(WithClocks(groups, clocks))
    ensures OffGrid(WithClocks(groups, clocks)) <==> OffGrid(groups)
  {
    var g := WithClocks(groups, clocks);
    assert forall i :: 0 <= i < |g| ==> WellFormedGroup(groups[i]);
    forall m, j | 0 <= m < j < |groups|
      ensures FallsBetween(g, m, j) <==> FallsBetween(groups, m, j)
    {
    }
  }

  /** With these clocks the groups interleave. */
  ghost predicate Interleaving(groups: seq<Group>, clocks: seq<Time>)
    requires |clocks| == |groups|
  {
    WellFormedGroups(WithClocks(groups, clocks)) && Interleave(WithClocks(groups, clocks))
  }

  /** Groups of one interval interleave for some steady clocks if and only if one of them
      can fall between the slots of the group before it, where that one may stand on the
      grid of any earlier group; otherwise they do for no clocks at all. */
  lemma InterleaveExactly(groups: seq<Group>, interval: nat)
    requires WellFormedGroups(groups) && OneInterval(groups, interval)
    ensures OffGrid(groups) <==>
            exists clocks: seq<Time> :: Steady(groups, clocks, interval) && Interleaving(groups, clocks)
    ensures !OffGrid(groups) ==> forall clocks: seq<Time> :: |clocks| == |groups| ==> !Interleaving(groups, clocks)
  {
    if OffGrid(groups) {
      var clocks := OffGridCanInterleave(groups, interval);
      assert Steady(groups, clocks, interval) && Interleaving(groups, clocks);
    }
    forall clocks: seq<Time> | |clocks| == |groups| && Interleaving(groups, clocks)
      ensures OffGrid(groups)
    {
      InterleavingIsOffGrid(WithClocks(groups, clocks), interval);
      ClocksChangeNoGrid(groups, clocks);
    }
  }

  /** Two groups: exactly when the second base falls strictly between the first slot and
      the last one of the first group, modulo the interval. */
  lemma TwoGroupsInterleaveExactly(first: Group, second: Group)
    requires WellFormedGroup(first) && WellFormedGroup(second) && first.interval == second.interval
    ensures 0 < (second.front - first.front) % first.interval < Span(first) <==>
      exists clocks: seq<Time> ::
        Steady([first, second], clocks, first.interval) && Interleaving([first, second], clocks)
  {
    InterleaveExactly([first, second], first.interval);
    TwoGroupsOffGrid(first, second);
  }

  lemma TwoGroupsOffGrid(first: Group, second: Group)
    requires WellFormedGroup(first) && WellFormedGroup(second) && first.interval == second.interval
    ensures OffGrid([first, second]) <==> 0 < (second.front - first.front) % first.interval < Span(first)
  {
    var groups := [first, second];
    assert FallsBetween(groups, 0, 1) <==> 0 < (second.front - first.front) % first.interval < Span(first);
    assert OffGrid(groups) <==> FallsBetween(groups, 0, 1);
  }
}
