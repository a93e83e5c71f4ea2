/** When the slots of a frame are presented, and the queue they wait in. */
module Presentation {
  import opened Arithmetic
  import opened Wrappers

  /** Nanoseconds on the presentation clock. Zero stands for no deadline. */
  type Time = nat

  const UNSCHEDULED: Time := 0
  const NATIVE_PRESENT_OFFSET: nat := 6_500_000
  const MAXIMUM_INTERPOLATED: nat := 3

  datatype PresentationJob = PresentationJob(
    logicalFrame: nat, presentAt: Time, interpolated: bool, slidPeriods: nat)

  /** What is latched when the frame is sealed. */
  datatype Schedule = Schedule(base: Time, interval: nat, interpolatedFrames: nat)

  function SlotOffset(interval: nat, slot: nat, slots: nat): nat
    requires slots > 0
  {
    interval * slot / slots
  }

  /** Slot k of count presents at base + k * interval / count. */
  function SlotDeadline(c: Schedule, slot: nat): Time {
    if c.base == 0 || c.interval == 0 then UNSCHEDULED
    else if c.interpolatedFrames == 0 then
      if c.base + NATIVE_PRESENT_OFFSET >= c.interval then c.base + NATIVE_PRESENT_OFFSET - c.interval else UNSCHEDULED
    else c.base + SlotOffset(c.interval, slot, c.interpolatedFrames + 1)
  }

  /** x is the whole part of k n-ths of the interval. */
  predicate EvenShare(x: int, k: nat, interval: nat, n: nat) {
    0 <= x && x * n <= k * interval < (x + 1) * n
  }

  lemma OffsetIsEvenShare(interval: nat, slot: nat, slots: nat)
    requires slots > 0
    ensures EvenShare(SlotOffset(interval, slot, slots), slot, interval, slots)
    ensures SlotOffset(interval, 0, slots) == 0
  {
    QuotientBounds(interval * slot, slots);
    assert interval * slot == slot * interval;
    UniqueQuotient(0, 0, 0, slots);
  }

  /** A frame and its interpolated ones share the interval evenly. Without interpolation a
      frame is due six and a half milliseconds after the boundary that just passed, and
      without a schedule it has no deadline. */
  lemma SlotDeadlineExactly(c: Schedule, slot: nat)
    ensures c.base == 0 || c.interval == 0 ==> SlotDeadline(c, slot) == 0
    ensures c.base > 0 && c.interval > 0 && c.interpolatedFrames == 0 && c.base + 6_500_000 >= c.interval ==>
      SlotDeadline(c, slot) == c.base - c.interval + 6_500_000
    ensures c.base > 0 && c.interval > 0 && c.interpolatedFrames > 0 ==>
      EvenShare(SlotDeadline(c, slot) - c.base, slot, c.interval, c.interpolatedFrames + 1)
  {
    OffsetIsEvenShare(c.interval, slot, c.interpolatedFrames + 1);
  }

  /** A group of jobs that is on the schedule. */
  datatype Group = Group(front: Time, interval: nat, slots: nat, now: Time)

  predicate WellFormedGroup(g: Group) {
    g.front > 0 && g.interval > 0 && g.slots > 0
  }

  predicate WellFormedGroups(groups: seq<Group>) {
    forall i :: 0 <= i < |groups| ==> WellFormedGroup(groups[i])
  }

  /** The front of a group, slid past now by whole periods. */
  function Slid(front: Time, interval: nat, now: Time): (slid: Time)
    requires interval > 0
    ensures now > front ==> now < slid <= now + interval
    ensures now <= front ==> slid == front
  {
    if now > front then
      LateSlide(front, interval, now);
      front + ((now - front) / interval + 1) * interval
    else front
  }

  /** The anchor of a group: its own front, slid past now by whole periods, but never
      onto or before the anchor of the group before it. */
  function GroupAnchor(last: Time, g: Group): (anchor: Time)
    requires WellFormedGroup(g)
    ensures anchor >= g.front && anchor >= g.now
    ensures last != UNSCHEDULED ==> anchor > last
    ensures last == UNSCHEDULED || Slid(g.front, g.interval, g.now) > last ==>
      (g.now > g.front ==> g.now < anchor <= g.now + g.interval) && (g.now <= g.front ==> anchor == g.front)
    ensures last != UNSCHEDULED && Slid(g.front, g.interval, g.now) <= last ==> anchor == last + g.interval
  {
    var slid := Slid(g.front, g.interval, g.now);
    if last != UNSCHEDULED && slid <= last then last + g.interval else slid
  }

  /** One more period than fit into the delay lands within one period after now. */
  lemma LateSlide(front: nat, interval: nat, now: nat)
    requires interval > 0 && now > front
    ensures var slid := front + ((now - front) / interval + 1) * interval;
      now < slid <= now + interval
  {
    QuotientBounds(now - front, interval);
    assert ((now - front) / interval + 1) * interval == (now - front) / interval * interval + interval;
  }

  /** The static cursor of encode_sealed_frame and the slide of one group. */
  class GroupScheduler {
    var lastAnchor: Time

    constructor ()
      ensures lastAnchor == UNSCHEDULED
    {
      lastAnchor := UNSCHEDULED;
    }

    method Slide(c: Schedule, encoded: seq<PresentationJob>, now: Time) returns (jobs: seq<PresentationJob>)
      requires encoded != []
      modifies this
      ensures |jobs| == |encoded|
      ensures
        if c.interpolatedFrames != 0 && c.interval != 0 && encoded[0].presentAt != UNSCHEDULED then
          var anchor := GroupAnchor(old(lastAnchor), Group(encoded[0].presentAt, c.interval, |encoded|, now));
          var shift := anchor - encoded[0].presentAt;
          && lastAnchor == anchor
          && forall k :: 0 <= k < |jobs| ==>
               && jobs[k].presentAt == encoded[k].presentAt + shift
               && (shift > 0 ==> (jobs[k].slidPeriods - 1) * c.interval < shift <= jobs[k].slidPeriods * c.interval)
               && (shift == 0 ==> jobs[k] == encoded[k])
        else lastAnchor == UNSCHEDULED && jobs == encoded
      ensures forall k :: 0 <= k < |jobs| ==>
        jobs[k] == encoded[k].(presentAt := jobs[k].presentAt, slidPeriods := jobs[k].slidPeriods)
    {
      jobs := encoded;
      if c.interpolatedFrames != 0 && c.interval != 0 && encoded[0].presentAt != UNSCHEDULED {
        var anchor := encoded[0].presentAt;
        if now > anchor {
          LateSlide(anchor, c.interval, now);
          var behind := now - anchor;
          var periods := behind / c.interval + 1;
          anchor := anchor + periods * c.interval;
        }
        if lastAnchor != UNSCHEDULED && anchor <= lastAnchor {
          anchor := lastAnchor + c.interval;
        }
        var shift := anchor - encoded[0].presentAt;
        if shift > 0 {
          var slidPeriods := (shift + c.interval - 1) / c.interval;
          CeilingPeriods(shift, c.interval);
          for k := 0 to |encoded|
            invariant |jobs| == |encoded|
            invariant forall j :: 0 <= j < k ==>
              jobs[j] == encoded[j].(presentAt := encoded[j].presentAt + shift, slidPeriods := slidPeriods)
            invariant forall j :: k <= j < |encoded| ==> jobs[j] == encoded[j]
          {
            jobs := jobs[k := jobs[k].(presentAt := jobs[k].presentAt + shift, slidPeriods := slidPeriods)];
          }
        }
        lastAnchor := anchor;
      } else {
        lastAnchor := UNSCHEDULED;
      }
    }
  }

  lemma CeilingPeriods(shift: nat, interval: nat)
    requires shift > 0 && interval > 0
    ensures var periods := (shift + interval - 1) / interval;
      (periods - 1) * interval < shift <= periods * interval
  {
    var x := shift + interval - 1;
    QuotientBounds(x, interval);
    assert (x / interval - 1) * interval == x / interval * interval - interval;
  }

  /** The anchors of a maximal run of scheduled groups. */
  function Anchors(groups: seq<Group>): (anchors: seq<Time>)
    requires WellFormedGroups(groups)
    ensures |anchors| == |groups|
  {
    if groups == [] then []
    else
      var before := Anchors(groups[..|groups| - 1]);
      before + [GroupAnchor(if before == [] then UNSCHEDULED else before[|before| - 1], groups[|groups| - 1])]
  }

  /** The deadline of slot s of group i after the slide. */
  function Deadline(groups: seq<Group>, i: nat, s: nat): Time
    requires WellFormedGroups(groups)
    requires i < |groups| && s < groups[i].slots
  {
    Anchors(groups)[i] + SlotOffset(groups[i].interval, s, groups[i].slots)
  }

  lemma {:induction false} AnchorPrefix(groups: seq<Group>, i: nat)
    requires WellFormedGroups(groups)
    requires i < |groups|
    ensures Anchors(groups)[i] == Anchors(groups[..i + 1])[i]
  {
    if i + 1 < |groups| {
      AnchorPrefix(groups[..|groups| - 1], i);
      assert groups[..|groups| - 1][..i + 1] == groups[..i + 1];
    } else {
      assert groups[..i + 1] == groups;
    }
  }

  lemma AnchorStep(groups: seq<Group>, i: nat)
    requires WellFormedGroups(groups)
    requires i < |groups|
    ensures Anchors(groups)[i] == GroupAnchor(if i == 0 then UNSCHEDULED else Anchors(groups)[i - 1], groups[i])
  {
    AnchorPrefix(groups, i);
    assert groups[..i + 1][..i] == groups[..i];
    if i > 0 {
      AnchorPrefix(groups, i - 1);
    }
  }

  /** Anchors strictly increase and are never before the clock their group was
      encoded by; a slide that the cursor does not cap lands within one interval. */
  lemma {:induction false} AnchorsIncrease(groups: seq<Group>, i: nat, j: nat)
    requires WellFormedGroups(groups)
    requires i < j < |groups|
    ensures 0 < Anchors(groups)[i] < Anchors(groups)[j]
    ensures Anchors(groups)[j] >= groups[j].now
    decreases j
  {
    AnchorStep(groups, j);
    AnchorStep(groups, i);
    if i < j - 1 {
      AnchorsIncrease(groups, i, j - 1);
    }
  }

  /** All groups keep one interval and their bases agree modulo it. */
  predicate OneGrid(groups: seq<Group>)
    requires WellFormedGroups(groups)
  {
    forall i, j :: 0 <= i < j < |groups| ==>
      groups[i].interval == groups[j].interval && groups[i].front % groups[i].interval == groups[j].front % groups[i].interval
  }

  /** The slid front is the front shifted by whole periods. */
  lemma SlideKeepsRemainder(front: Time, interval: nat, now: Time)
    requires interval > 0
    ensures Slid(front, interval, now) % interval == front % interval
  {
    if now > front {
      RemainderShifted(front, (now - front) / interval + 1, interval);
    }
  }

  lemma OnePeriodLater(last: Time, interval: nat)
    requires interval > 0
    ensures (last + interval) % interval == last % interval
  {
    RemainderShifted(last, 1, interval);
  }

  lemma AnchorKeepsRemainder(last: Time, g: Group)
    requires WellFormedGroup(g)
    requires last != UNSCHEDULED ==> last % g.interval == g.front % g.interval
    ensures GroupAnchor(last, g) % g.interval == g.front % g.interval
  {
    SlideKeepsRemainder(g.front, g.interval, g.now);
    OnePeriodLater(last, g.interval);
  }

  lemma {:induction false} AnchorsOnGrid(groups: seq<Group>, i: nat)
    requires WellFormedGroups(groups)
    requires OneGrid(groups) && i < |groups|
    ensures Anchors(groups)[i] % groups[i].interval == groups[i].front % groups[i].interval
  {
    AnchorStep(groups, i);
    if i > 0 {
      AnchorsOnGrid(groups, i - 1);
      AnchorKeepsRemainder(Anchors(groups)[i - 1], groups[i]);
    } else {
      AnchorKeepsRemainder(UNSCHEDULED, groups[i]);
    }
  }

  lemma SlotWithinInterval(interval: nat, s: nat, slots: nat)
    requires interval > 0 && s < slots
    ensures SlotOffset(interval, s, slots) < interval
    ensures s > 0 ==> SlotOffset(interval, s - 1, slots) <= SlotOffset(interval, s, slots)
  {
    assert interval * s < interval * slots;
    QuotientBelow(interval * s, interval, slots);
    if s > 0 {
      assert interval * (s - 1) == interval * s - interval;
      QuotientMonotone(interval * (s - 1), interval * s, slots);
    }
  }

  /** On one grid a group ends before the next one begins. */
  lemma GroupsDoNotInterleave(groups: seq<Group>, i: nat, s: nat, j: nat, r: nat)
    requires WellFormedGroups(groups)
    requires OneGrid(groups) && i < j < |groups| && s < groups[i].slots && r < groups[j].slots
    ensures Deadline(groups, i, s) < Deadline(groups, j, r)
  {
    AnchorsAPeriodApart(groups, i, j);
    SlotWithinInterval(groups[i].interval, s, groups[i].slots);
  }

  lemma AnchorsAPeriodApart(groups: seq<Group>, i: nat, j: nat)
    requires WellFormedGroups(groups) && OneGrid(groups) && i < j < |groups|
    ensures Anchors(groups)[i] + groups[i].interval <= Anchors(groups)[j]
  {
    AnchorsOnGrid(groups, i);
    AnchorsOnGrid(groups, j);
    AnchorsIncrease(groups, i, j);
    SameRemainderGap(Anchors(groups)[i], Anchors(groups)[j], groups[i].interval);
  }

  lemma {:induction false} LaterSlot(interval: nat, r: nat, s: nat, slots: nat)
    requires interval > 0 && r <= s < slots
    ensures SlotOffset(interval, r, slots) <= SlotOffset(interval, s, slots)
    decreases s - r
  {
    if r < s {
      LaterSlot(interval, r, s - 1, slots);
      SlotWithinInterval(interval, s, slots);
    }
  }

  lemma SlotsInOrder(groups: seq<Group>, i: nat, r: nat, s: nat)
    requires WellFormedGroups(groups)
    requires i < |groups| && r <= s < groups[i].slots
    ensures Deadline(groups, i, r) <= Deadline(groups, i, s)
  {
    LaterSlot(groups[i].interval, r, s, groups[i].slots);
  }

  function MaximumQueued(group: nat): nat {
    if 3 * group > 2 * (MAXIMUM_INTERPOLATED + 1) then 3 * group else 2 * (MAXIMUM_INTERPOLATED + 1)
  }

  function Positions(from: nat, count: nat): seq<nat> {
    seq(count, k requires 0 <= k < count => from + k)
  }

  /** The presenter's queue: one worker puts groups in, one presenter takes jobs out. */
  class Presenter {
    var jobs: seq<PresentationJob>
    var stop: bool
    var presenting: bool
    // Every job ever put in, and the positions in it of those taken out.
    ghost var accepted: seq<PresentationJob>
    ghost var shown: seq<nat>

    ghost predicate Valid()
      reads this
    {
      && |jobs| <= |accepted| && jobs == accepted[|accepted| - |jobs|..]
      && (forall k :: 0 <= k < |shown| ==> shown[k] < |accepted| - |jobs|)
      && (forall j, k :: 0 <= j < k < |shown| ==> shown[j] < shown[k])
    }

    constructor ()
      ensures Valid() && jobs == [] && !stop && !presenting && accepted == [] && shown == []
    {
      jobs, stop, presenting := [], false, false;
      accepted, shown := [], [];
    }

    /** A group is put in whole. If it does not fit, what waited is dropped, never
        any part of the group. */
    method EnqueuePresentations(group: seq<PresentationJob>)
      requires Valid()
      modifies this`jobs, this`accepted
      ensures Valid()
      ensures old(stop) ==> jobs == old(jobs) && accepted == old(accepted)
      ensures !old(stop) ==>
        && accepted == old(accepted) + group
        && |jobs| >= |group| && jobs[|jobs| - |group|..] == group
        // What waits is kept as long as eight jobs, or three groups of this size, wait in all.
        && jobs == (if |old(jobs)| + |group| <= 8 || |old(jobs)| + |group| <= 3 * |group| then old(jobs) else []) + group
    {
      var maximumQueued := MaximumQueued(|group|);
      if stop {
        return;
      }
      if |jobs| + |group| > maximumQueued {
        jobs := [];
      }
      ghost var kept := jobs;
      for k := 0 to |group|
        invariant jobs == kept + group[..k]
        invariant accepted == old(accepted) + group[..k]
      {
        jobs := jobs + [group[k]];
        accepted := accepted + [group[k]];
      }
      assert group[..|group|] == group;
    }

    /** The first section of presenter_main; None ends its loop. */
    method TakeJob() returns (job: Option<PresentationJob>)
      requires Valid() && (stop || jobs != [])
      modifies this`jobs, this`presenting, this`shown
      ensures Valid()
      ensures job.None? <==> old(jobs) == []
      ensures job.None? ==> jobs == old(jobs) && shown == old(shown) && presenting == old(presenting)
      ensures job.Some? ==>
        && job.value == old(jobs)[0] && jobs == old(jobs)[1..] && presenting
        && shown == old(shown) + [|accepted| - |old(jobs)|] && accepted[|accepted| - |old(jobs)|] == job.value
    {
      if jobs == [] {
        return None;
      }
      shown := shown + [|accepted| - |jobs|];
      job := Some(jobs[0]);
      jobs := jobs[1..];
      presenting := true;
    }

    /** presenter_main once stop is set: everything that still waits is presented. */
    method DrainAfterStop()
      requires Valid() && stop
      modifies this`jobs, this`presenting, this`shown
      ensures Valid() && jobs == []
      ensures shown == old(shown) + Positions(|accepted| - |old(jobs)|, |old(jobs)|)
    {
      ghost var waiting := |jobs|;
      while true
        invariant Valid() && |jobs| <= waiting
        invariant shown == old(shown) + Positions(|accepted| - waiting, waiting - |jobs|)
        decreases |jobs|
      {
        var job := TakeJob();
        if job.None? {
          break;
        }
        presenting := false;
      }
    }
  }
}
