/** The memos in front of the function registry: two direct-mapped tables per thread and
    a latched verdict per call target, all of them filled only after publication. */
module DispatchMemo {
  import opened Primitives
  import opened StaticDispatch
  import opened Wrappers

  const CACHE_ENTRIES: nat := 512
  const HASH: nat := 2654435761

  datatype Kind = BaseTranslated | ModTranslated | Native
  datatype Info = Info(address: Word, kind: Kind)

  function Slot(address: Word): (s: nat)
    ensures s < CACHE_ENTRIES
  {
    (address / 4 * HASH) % 0x1_0000_0000 % CACHE_ENTRIES
  }

  datatype MemoEntry<T> = MemoEntry(valid: bool, address: Word, result: Option<T>)

  /** What registration leaves behind: the sorted registry, the dynamic raw records, and
      the generated table once there is one. */
  datatype Registered = Registered(infos: map<Word, Info>, raws: map<Word, Record>, table: Option<Table>)

  predicate WellShaped(r: Registered) {
    r.table.Some? ==> InShape(r.table.value) && PagesSorted(r.table.value)
  }

  function Lookup<T>(m: map<Word, T>, address: Word): Option<T> {
    if address in m then Some(m[address]) else None
  }

  // The uncached resolvers

  function Resolved(r: Registered, address: Word): Option<Info> {
    Lookup(r.infos, address)
  }

  function RawResolved(r: Registered, address: Word): Option<Record>
    requires WellShaped(r)
  {
    var found := if r.table.None? then None else Answer(r.table.value, address);
    if found.Some? then Some(r.table.value.entries[found.value]) else Lookup(r.raws, address)
  }

  function BaseActive(r: Registered, target: Word): bool {
    Resolved(r, target).Some? && Resolved(r, target).value.kind.BaseTranslated?
  }

  /** A registered address has its registration, any other none. */
  lemma RegisteredIsResolved(r: Registered, address: Word)
    ensures address in r.infos ==> Resolved(r, address) == Some(r.infos[address])
    ensures address !in r.infos ==> Resolved(r, address) == None
    ensures BaseActive(r, address) <==> address in r.infos && r.infos[address].kind == BaseTranslated
  {
  }

  /** An entry of the table wins over a dynamic record, which answers where the table has none. */
  lemma TableWins(r: Registered, address: Word)
    requires WellShaped(r)
    ensures r.table.Some? ==>
      forall i :: (
        0 <= i < |r.table.value.entries| && r.table.value.entries[i].address == address && InPlace(r.table.value, i)
        ==> exists k :: 0 <= k <= i && r.table.value.entries[k].address == address
                        && RawResolved(r, address) == Some(r.table.value.entries[k]))
    ensures
      (r.table.Some? ==> forall i :: 0 <= i < |r.table.value.entries| ==> r.table.value.entries[i].address != address) ==>
        RawResolved(r, address) == if address in r.raws then Some(r.raws[address]) else None
  {
    if r.table.Some? {
      forall i | 0 <= i < |r.table.value.entries| && r.table.value.entries[i].address == address && InPlace(r.table.value, i)
        ensures Answer(r.table.value, address).Some? && Answer(r.table.value, address).value <= i
      {
        RangeIsPage(r.table.value, address, i);
      }
    }
  }

  // What is remembered

  predicate InfosRight(memo: seq<MemoEntry<Info>>, published: bool, r: Registered) {
    && |memo| == CACHE_ENTRIES
    && forall i :: 0 <= i < CACHE_ENTRIES && memo[i].valid ==>
      published && memo[i].result == Resolved(r, memo[i].address)
  }

  predicate RecordsRight(memo: seq<MemoEntry<Record>>, published: bool, r: Registered)
    requires WellShaped(r)
  {
    && |memo| == CACHE_ENTRIES
    && forall i :: 0 <= i < CACHE_ENTRIES && memo[i].valid ==>
      published && memo[i].result == RawResolved(r, memo[i].address)
  }

  predicate LatchesRight(latched: map<Word, Option<Info>>, verdicts: map<Word, bool>, published: bool, r: Registered) {
    && (forall t :: t in latched ==> published && latched[t] == Resolved(r, t))
    && (forall t :: t in verdicts ==> published && verdicts[t] == BaseActive(r, t))
  }

  lemma OneMoreVerdict(latched: map<Word, Option<Info>>, verdicts: map<Word, bool>, r: Registered, target: Word)
    requires LatchesRight(latched, verdicts, true, r)
    ensures LatchesRight(latched, verdicts[target := BaseActive(r, target)], true, r)
  {
  }

  /** A call-target or address lookup of the runtime. */
  datatype Query = ByAddress(address: Word) | Raw(address: Word) | DirectTarget(address: Word) | BaseTarget(address: Word)
  datatype Reply = Found(info: Option<Info>) | FoundRaw(record: Option<Record>) | Active(verdict: bool)

  /** One moment of the process: what is registered, and whether it is published. */
  datatype Moment = Moment(registered: Registered, published: bool)

  /** Registrations come and go until publication, and nothing changes after it. */
  ghost predicate IsSchedule(schedule: seq<Moment>) {
    && schedule != []
    && (forall t :: 0 <= t < |schedule| ==> WellShaped(schedule[t].registered))
    && (forall t, u :: 0 <= t < u < |schedule| && schedule[t].published ==> schedule[u] == schedule[t])
  }

  /** What the resolvers without any memo answer at one moment. */
  function Uncached(m: Moment, q: Query): Reply
    requires WellShaped(m.registered)
  {
    match q
    case ByAddress(a) => Found(Resolved(m.registered, a))
    case Raw(a) => FoundRaw(if m.published then RawResolved(m.registered, a) else None)
    case DirectTarget(a) => Found(Resolved(m.registered, a))
    case BaseTarget(a) => Active(BaseActive(m.registered, a))
  }

  /** The reply is what the uncached resolvers answer at some moment from `from` to `until`. */
  ghost predicate AnsweredWithin(schedule: seq<Moment>, from: nat, until: nat, q: Query, reply: Reply)
    requires IsSchedule(schedule)
  {
    exists t :: from <= t <= until && t < |schedule| && reply == Uncached(schedule[t], q)
  }

  /** From publication on there is only one answer. */
  lemma PublishedAnswer(schedule: seq<Moment>, from: nat, until: nat, q: Query, reply: Reply)
    requires IsSchedule(schedule) && from < |schedule| && schedule[from].published
    requires AnsweredWithin(schedule, from, until, q, reply)
    ensures reply == Uncached(schedule[|schedule| - 1], q)
  {
  }

  /** One thread of the runtime at work on the shared registry, with everything that may
      remember an answer. The memos are the thread's own; the registry and the latches
      are shared with every other thread, whose registrations and publication follow the
      schedule. */
  class Dispatcher {
    const schedule: seq<Moment>
    // The present moment.
    var now: nat
    var infoMemo: seq<MemoEntry<Info>>
    var rawMemo: seq<MemoEntry<Record>>
    // One latch for each call target; a target that is not in the map is unresolved.
    var latched: map<Word, Option<Info>>
    var verdicts: map<Word, bool>

    ghost predicate Valid()
      reads this
    {
      && IsSchedule(schedule) && now < |schedule|
      && InfosRight(infoMemo, schedule[now].published, schedule[now].registered)
      && RecordsRight(rawMemo, schedule[now].published, schedule[now].registered)
      && LatchesRight(latched, verdicts, schedule[now].published, schedule[now].registered)
    }

    constructor (schedule: seq<Moment>)
      requires IsSchedule(schedule)
      ensures Valid() && now == 0 && this.schedule == schedule
    {
      this.schedule, now := schedule, 0;
      infoMemo := seq(CACHE_ENTRIES, _ => MemoEntry(false, 0, None));
      rawMemo := seq(CACHE_ENTRIES, _ => MemoEntry(false, 0, None));
      latched, verdicts := map[], map[];
    }

    /** What other threads may do between two steps of this one: any part of the
        schedule passes, and after publication they fill latches by the same rules. */
    method Interfere()
      requires Valid()
      modifies this`now, this`latched, this`verdicts
      ensures Valid() && now >= old(now)
    {
      var later: nat := *;
      Wait(later);
      if schedule[now].published {
        var target: Word := *;
        if * {
          latched := latched[target := Resolved(schedule[now].registered, target)];
        }
        if * {
          verdicts := verdicts[target := BaseActive(schedule[now].registered, target)];
        }
      }
    }

    /** Time passes to the given moment, unless it has already or there is no such moment. */
    method Wait(until: nat)
      requires Valid()
      modifies this`now
      ensures Valid() && now == if old(now) < until < |schedule| then until else old(now)
    {
      if now < until < |schedule| {
        now := until;
      }
    }

    /** A memo hit is answered at once; a miss runs the sorted lookup and is kept. */
    method FindByAddress(address: Word) returns (info: Option<Info>)
      requires Valid()
      modifies this
      ensures Valid() && now >= old(now)
      ensures AnsweredWithin(schedule, old(now), now, ByAddress(address), Found(info))
      ensures old(schedule[now].published) ==> info == Resolved(schedule[now].registered, address)
    {
      if !schedule[now].published {
        Interfere();
        return Resolved(schedule[now].registered, address);
      }
      var cached := infoMemo[Slot(address)];
      if cached.valid && cached.address == address {
        return cached.result;
      }
      Interfere();
      info := Resolved(schedule[now].registered, address);
      infoMemo := infoMemo[Slot(address) := MemoEntry(true, address, info)];
    }

    /** Before publication there is no raw record at all. */
    method FindRawByAddress(address: Word) returns (record: Option<Record>)
      requires Valid()
      modifies this
      ensures Valid() && now >= old(now)
      ensures AnsweredWithin(schedule, old(now), now, Raw(address), FoundRaw(record))
      ensures record == if old(schedule[now].published) then RawResolved(schedule[now].registered, address) else None
    {
      if !schedule[now].published {
        return None;
      }
      var cached := rawMemo[Slot(address)];
      if cached.valid && cached.address == address {
        return cached.result;
      }
      Interfere();
      var found := FindStaticIndirectDispatchEntry(schedule[now].registered.table, address);
      if found.Some? {
        record := Some(schedule[now].registered.table.value.entries[found.value]);
      } else {
        Interfere();
        record := Lookup(schedule[now].registered.raws, address);
      }
      rawMemo := rawMemo[Slot(address) := MemoEntry(true, address, record)];
    }

    /** The resolver of one call target, with its latch. */
    method ResolveDirectCpuTargetInfoCached(target: Word) returns (info: Option<Info>)
      requires Valid()
      modifies this
      ensures Valid() && now >= old(now)
      ensures AnsweredWithin(schedule, old(now), now, DirectTarget(target), Found(info))
    {
      if target in latched {
        return latched[target];
      }
      Interfere();
      if !schedule[now].published {
        info := FindByAddress(target);
        return;
      }
      info := FindByAddress(target);
      Interfere();
      latched := latched[target := info];
    }

    /** Whether the winner of one call target is still the base translation, with its latch. */
    method IsBaseTranslatedCpuTargetActive(target: Word) returns (active: bool)
      requires Valid()
      modifies this
      ensures Valid() && now >= old(now)
      ensures AnsweredWithin(schedule, old(now), now, BaseTarget(target), Active(active))
    {
      if target in verdicts {
        return verdicts[target];
      }
      Interfere();
      var publishable := schedule[now].published;
      Interfere();
      ghost var asked := now;
      var info := FindByAddress(target);
      active := info.Some? && info.value.kind.BaseTranslated?;
      FoundIsActive(schedule, asked, now, target, info);
      Interfere();
      if publishable {
        assert active == BaseActive(schedule[now].registered, target);
        OneMoreVerdict(latched, verdicts, schedule[now].registered, target);
        verdicts := verdicts[target := active];
      }
    }

    method Answer(q: Query) returns (reply: Reply)
      requires Valid()
      modifies this
      ensures Valid() && now >= old(now)
      ensures AnsweredWithin(schedule, old(now), now, q, reply)
    {
      match q
      case ByAddress(a) =>
        var info := FindByAddress(a);
        reply := Found(info);
      case Raw(a) =>
        var record := FindRawByAddress(a);
        reply := FoundRaw(record);
      case DirectTarget(a) =>
        var info := ResolveDirectCpuTargetInfoCached(a);
        reply := Found(info);
      case BaseTarget(a) =>
        var verdict := IsBaseTranslatedCpuTargetActive(a);
        reply := Active(verdict);
    }

    /** Any run of lookups, each asked not before its own moment of any schedule of
        registrations and one publication. Whatever is asked after publication is answered
        as the uncached resolvers answer at the end, and whatever is asked before it as
        they answer at some moment since it was asked; the moments keep the order of the
        lookups. */
    method Run(queries: seq<Query>, asked: seq<nat>) returns (replies: seq<Reply>, ghost moments: seq<nat>)
      requires Valid() && |asked| == |queries|
      requires forall i :: 0 <= i < |asked| ==> asked[i] < |schedule|
      modifies this
      ensures Valid() && |replies| == |moments| == |queries|
      ensures forall i :: 0 <= i < |queries| && schedule[asked[i]].published ==>
        replies[i] == Uncached(schedule[|schedule| - 1], queries[i])
      ensures forall i :: 0 <= i < |queries| ==>
        asked[i] <= moments[i] < |schedule| && replies[i] == Uncached(schedule[moments[i]], queries[i])
      ensures forall i, j :: 0 <= i < j < |queries| ==> moments[i] <= moments[j]
    {
      replies, moments := [], [];
      for i := 0 to |queries|
        invariant Valid() && |replies| == |moments| == i
        invariant forall k :: 0 <= k < i ==>
          asked[k] <= moments[k] <= now && replies[k] == Uncached(schedule[moments[k]], queries[k])
        invariant forall j, k :: 0 <= j < k < i ==> moments[j] <= moments[k]
      {
        Wait(asked[i]);
        ghost var since := now;
        var reply := Answer(queries[i]);
        ghost var moment :| since <= moment <= now && reply == Uncached(schedule[moment], queries[i]);
        replies, moments := replies + [reply], moments + [moment];
      }
      forall i | 0 <= i < |queries| && schedule[asked[i]].published
        ensures replies[i] == Uncached(schedule[|schedule| - 1], queries[i])
      {
        PublishedAnswer(schedule, asked[i], moments[i], queries[i], replies[i]);
      }
    }
  }

  /** The verdict on a call target follows from what was found for it. */
  lemma FoundIsActive(schedule: seq<Moment>, from: nat, until: nat, target: Word, info: Option<Info>)
    requires IsSchedule(schedule) && AnsweredWithin(schedule, from, until, ByAddress(target), Found(info))
    ensures AnsweredWithin(schedule, from, until, BaseTarget(target),
                           Active(info.Some? && info.value.kind.BaseTranslated?))
  {
    var t :| from <= t <= until && t < |schedule| && Found(info) == Uncached(schedule[t], ByAddress(target));
    assert Active(info.Some? && info.value.kind.BaseTranslated?) == Uncached(schedule[t], BaseTarget(target));
  }
}
