/** Write generations of guest memory, and the digest caches that rely on them. */
module GuestWrites {
  import opened Arithmetic
  import opened Primitives
  import opened Wrappers

  const DOUBLE_WORD: nat := 0x1_0000_0000_0000_0000

  const MEM1_SIZE: nat := 0x0180_0000
  const MEM2_PHYSICAL_BASE: nat := 0x1000_0000
  const MEM2_PHYSICAL_END: nat := 0x1800_0000
  const GRANULE: nat := 0x1_0000
  const GRANULE_COUNT: nat := 0x1800
  const UNTRACKED: nat := 0xFFFF_FFFF_FFFF_FFFF

  function Canonicalize(address: Word): (r: Word)
    ensures r <= address
  {
    if address < MEM1_SIZE then address
    else if MEM2_PHYSICAL_BASE <= address < MEM2_PHYSICAL_END then address
    else if 0x8000_0000 <= address < 0x8180_0000 then address - 0x8000_0000
    else if 0x9000_0000 <= address < 0x9800_0000 then address - 0x8000_0000
    else if 0xC000_0000 <= address < 0xC180_0000 then address - 0xC000_0000
    else if 0xD000_0000 <= address < 0xD800_0000 then address - 0xC000_0000
    else address
  }

  /** Main memory as the guest names it physically: 24 MiB, and 128 MiB from 0x10000000 on. */
  predicate InMainMemory(physical: int) {
    0 <= physical < 0x0180_0000 || 0x1000_0000 <= physical < 0x1800_0000
  }

  /** The cached, the uncached and the physical name of a byte are one address. */
  lemma AliasesAgree(physical: Word)
    requires InMainMemory(physical)
    ensures Canonicalize(physical) == physical
    ensures Canonicalize(0x8000_0000 + physical) == physical
    ensures Canonicalize(0xC000_0000 + physical) == physical
  {
  }

  /** Every other address stands for itself. */
  lemma OthersAreThemselves(address: Word)
    requires !InMainMemory(address as int - 0x8000_0000) && !InMainMemory(address as int - 0xC000_0000)
    ensures Canonicalize(address) == address
  {
  }

  lemma CanonicalIsFixed(address: Word)
    ensures Canonicalize(Canonicalize(address)) == Canonicalize(address)
  {
  }

  /** The sum of the counters in [lo, hi). */
  function Sum(g: seq<nat>, lo: nat, hi: nat): nat
    requires lo <= hi <= |g|
    decreases hi - lo
  {
    if lo == hi then 0 else Sum(g, lo, hi - 1) + g[hi - 1]
  }

  function Wrapped(counts: seq<nat>): (g: seq<nat>)
    ensures |g| == |counts|
    ensures forall i :: 0 <= i < |g| ==> g[i] == counts[i] % WORD
  {
    seq(|counts|, i requires 0 <= i < |counts| => counts[i] % WORD)
  }

  predicate Grown(before: seq<nat>, after: seq<nat>) {
    |before| == |after| && forall i :: 0 <= i < |before| ==> before[i] <= after[i]
  }

  lemma {:induction false} SumBounded(g: seq<nat>, lo: nat, hi: nat)
    requires lo <= hi <= |g| && forall i :: lo <= i < hi ==> g[i] < WORD
    ensures Sum(g, lo, hi) <= (hi - lo) * (WORD - 1)
  {
    if lo < hi {
      SumBounded(g, lo, hi - 1);
    }
  }

  lemma {:induction false} SumMonotone(before: seq<nat>, after: seq<nat>, lo: nat, hi: nat)
    requires Grown(before, after) && lo <= hi <= |before|
    ensures Sum(before, lo, hi) <= Sum(after, lo, hi)
  {
    if lo < hi {
      SumMonotone(before, after, lo, hi - 1);
    }
  }

  /** Counters that only grow and have the same sum have not changed at all. */
  lemma {:induction false} EqualSumsUntouched(before: seq<nat>, after: seq<nat>, lo: nat, hi: nat)
    requires Grown(before, after) && lo <= hi <= |before|
    requires Sum(before, lo, hi) == Sum(after, lo, hi)
    ensures forall i :: lo <= i < hi ==> before[i] == after[i]
  {
    if lo < hi {
      SumMonotone(before, after, lo, hi - 1);
      EqualSumsUntouched(before, after, lo, hi - 1);
    }
  }

  /** How often the counters in [lo, hi) have wrapped to zero. */
  function Wraps(counts: seq<nat>, lo: nat, hi: nat): nat
    requires lo <= hi <= |counts|
    decreases hi - lo
  {
    if lo == hi then 0 else Wraps(counts, lo, hi - 1) + counts[hi - 1] / WORD
  }

  /** A counter of 32 bits loses 2^32 at every wrap, and so does the fold. */
  lemma {:induction false} WrappedSum(counts: seq<nat>, lo: nat, hi: nat)
    requires lo <= hi <= |counts|
    ensures Sum(counts, lo, hi) == Sum(Wrapped(counts), lo, hi) + WORD * Wraps(counts, lo, hi)
  {
    if lo < hi {
      WrappedSum(counts, lo, hi - 1);
      QuotientBounds(counts[hi - 1], WORD);
    }
  }

  /** The notifications that granules of [lo, hi) had in the meantime. */
  function Meantime(before: seq<nat>, after: seq<nat>, lo: nat, hi: nat): nat
    requires Grown(before, after) && lo <= hi <= |before|
  {
    SumMonotone(before, after, lo, hi);
    Sum(after, lo, hi) - Sum(before, lo, hi)
  }

  /** The granules were notified, and exactly as often as the wraps in the meantime take back. */
  predicate Collides(before: seq<nat>, after: seq<nat>, lo: nat, hi: nat)
    requires Grown(before, after) && lo <= hi <= |before|
  {
    && Meantime(before, after, lo, hi) > 0
    && Meantime(before, after, lo, hi) == WORD * (Wraps(after, lo, hi) - Wraps(before, lo, hi))
  }

  /** The fold repeats an earlier value if and only if nothing was notified in the
      meantime or the counters collide. */
  lemma FoldRepeatsExactly(before: seq<nat>, after: seq<nat>, lo: nat, hi: nat)
    requires Grown(before, after) && lo <= hi <= |before|
    ensures Sum(Wrapped(before), lo, hi) == Sum(Wrapped(after), lo, hi) <==>
            Untouched(before, after, lo, hi) || Collides(before, after, lo, hi)
  {
    WrappedSum(before, lo, hi);
    WrappedSum(after, lo, hi);
    if Meantime(before, after, lo, hi) == 0 {
      EqualSumsUntouched(before, after, lo, hi);
    }
    if Untouched(before, after, lo, hi) {
      UntouchedSums(before, after, lo, hi);
    }
  }

  lemma {:induction false} UntouchedSums(before: seq<nat>, after: seq<nat>, lo: nat, hi: nat)
    requires Grown(before, after) && lo <= hi <= |before| && Untouched(before, after, lo, hi)
    ensures Sum(before, lo, hi) == Sum(after, lo, hi) && Wraps(before, lo, hi) == Wraps(after, lo, hi)
  {
    if lo < hi {
      UntouchedSums(before, after, lo, hi - 1);
    }
  }

  /** The counters in [lo, hi) are what they were. */
  predicate Untouched(before: seq<nat>, after: seq<nat>, lo: nat, hi: nat)
    requires |before| == |after|
  {
    forall i :: lo <= i < hi && i < |before| ==> before[i] == after[i]
  }

  /** The granules of [start, start + size), when the tracked span covers it. */
  predicate Tracked(address: Word, size: Word) {
    size > 0 && Canonicalize(address) + size <= MEM2_PHYSICAL_END
  }

  /** A range is tracked when it is not empty and ends within the first 0x18000000 bytes, whichever
      name its first byte goes by; every range of main memory is. */
  lemma TrackedExactly(address: Word, size: Word)
    ensures Tracked(address, size) <==> size > 0 && Canonicalize(address) + size <= 0x1800_0000
    ensures size > 0 && InMainMemory(address) && InMainMemory(address + size - 1) ==> Tracked(address, size)
    ensures InMainMemory(address as int - 0x8000_0000) && InMainMemory(address as int - 0x8000_0000 + size - 1) && size > 0
            ==> Tracked(address, size)
    ensures InMainMemory(address as int - 0xC000_0000) && InMainMemory(address as int - 0xC000_0000 + size - 1) && size > 0
            ==> Tracked(address, size)
  {
  }

  /** A granule is 64 KiB: byte b of the canonical range is in granule g exactly when
      g * 0x10000 <= b < (g + 1) * 0x10000. */
  lemma GranulesExactly(address: Word, size: Word, b: nat, g: nat)
    requires Canonicalize(address) <= b < Canonicalize(address) + size && g * 0x1_0000 <= b < g * 0x1_0000 + 0x1_0000
    ensures FirstGranule(address) <= g <= LastGranule(address, size)
    ensures b == Canonicalize(address) ==> g == FirstGranule(address)
    ensures b == Canonicalize(address) + size - 1 ==> g == LastGranule(address, size)
  {
    UniqueQuotient(b, g, b - g * 0x1_0000, GRANULE);
    QuotientMonotone(Canonicalize(address), b, GRANULE);
    QuotientMonotone(b, Canonicalize(address) + size - 1, GRANULE);
  }

  function FirstGranule(address: Word): nat {
    Canonicalize(address) / GRANULE
  }

  function LastGranule(address: Word, size: Word): nat
    requires size > 0
  {
    (Canonicalize(address) + size - 1) / GRANULE
  }

  /** What GenerationForRange folds. */
  function Generation(g: seq<nat>, address: Word, size: Word): nat
    requires |g| == GRANULE_COUNT
  {
    if Tracked(address, size) then
      GranulesInTable(address, size);
      Sum(g, FirstGranule(address), LastGranule(address, size) + 1)
    else UNTRACKED
  }

  lemma GranulesInTable(address: Word, size: Word)
    requires Tracked(address, size)
    ensures FirstGranule(address) <= LastGranule(address, size) < GRANULE_COUNT
  {
    QuotientMonotone(Canonicalize(address), Canonicalize(address) + size - 1, GRANULE);
    QuotientBelow(Canonicalize(address) + size - 1, GRANULE_COUNT, GRANULE);
  }

  lemma GenerationOfAlias(g: seq<nat>, address: Word, size: Word)
    requires |g| == GRANULE_COUNT
    ensures Generation(g, Canonicalize(address), size) == Generation(g, address, size)
  {
    CanonicalIsFixed(address);
  }

  /** Whether granule i is bumped when [address, address + size) is notified. */
  predicate Notified(address: Word, size: Word, i: nat) {
    && size > 0 && Canonicalize(address) < MEM2_PHYSICAL_END
    && FirstGranule(address) <= i <= LastGranule(address, size)
  }

  function Bumped(counts: seq<nat>, address: Word, size: Word): (r: seq<nat>)
    ensures Grown(counts, r)
  {
    seq(|counts|, i requires 0 <= i < |counts| => if Notified(address, size, i) then counts[i] + 1 else counts[i])
  }

  type Memory = nat -> Byte

  function Bytes(m: Memory, start: nat, size: nat): seq<Byte> {
    seq(size, i requires 0 <= i < size => m(start + i))
  }

  function Written(m: Memory, start: nat, bytes: seq<Byte>): Memory {
    (a: nat) => if start <= a < start + |bytes| then bytes[a - start] else m(a)
  }

  /** A write that bumps no granule of a tracked range misses every byte of it. */
  lemma UnnotifiedByteMissed(to: Word, length: Word, address: Word, size: Word, k: nat)
    requires Tracked(address, size) && k < size
    requires forall i :: FirstGranule(address) <= i <= LastGranule(address, size) ==> !Notified(to, length, i)
    ensures !(Canonicalize(to) <= Canonicalize(address) + k < Canonicalize(to) + length)
  {
    var start, target := Canonicalize(address), Canonicalize(to);
    if target <= start + k < target + length {
      QuotientMonotone(start, start + k, GRANULE);
      QuotientMonotone(start + k, start + size - 1, GRANULE);
      QuotientMonotone(target, start + k, GRANULE);
      QuotientMonotone(start + k, target + length - 1, GRANULE);
      assert Notified(to, length, (start + k) / GRANULE);
    }
  }

  lemma UnnotifiedBytesUnchanged(m: Memory, to: Word, bytes: seq<Byte>, address: Word, size: Word)
    requires |bytes| < WORD && Tracked(address, size)
    requires forall i :: FirstGranule(address) <= i <= LastGranule(address, size) ==> !Notified(to, |bytes|, i)
    ensures Bytes(Written(m, Canonicalize(to), bytes), Canonicalize(address), size) == Bytes(m, Canonicalize(address), size)
  {
    var before := Bytes(m, Canonicalize(address), size);
    var after := Bytes(Written(m, Canonicalize(to), bytes), Canonicalize(address), size);
    forall k | 0 <= k < size
      ensures after[k] == before[k]
    {
      UnnotifiedByteMissed(to, |bytes|, address, size, k);
    }
  }

  type Hash = seq<Byte> -> nat

  /** As long as no granule of its range has been bumped since `at`, the digest describes the range. */
  ghost predicate Describes(hash: Hash, m: Memory, counts: seq<nat>, address: Word, size: Word, digest: nat, at: seq<nat>)
    requires |at| == |counts|
  {
    Tracked(address, size) && Untouched(at, counts, FirstGranule(address), LastGranule(address, size) + 1)
    ==> digest == hash(Bytes(m, Canonicalize(address), size))
  }

  lemma DescribesAcrossWrite(hash: Hash, m: Memory, counts: seq<nat>, address: Word, size: Word, digest: nat, at: seq<nat>,
                             to: Word, bytes: seq<Byte>)
    requires |bytes| < WORD && |counts| == GRANULE_COUNT && Grown(at, counts)
    requires Describes(hash, m, counts, address, size, digest, at)
    ensures Describes(hash, Written(m, Canonicalize(to), bytes), Bumped(counts, to, |bytes|), address, size, digest, at)
  {
    var after := Bumped(counts, to, |bytes|);
    if Tracked(address, size) {
      GranulesInTable(address, size);
      var lo, hi := FirstGranule(address), LastGranule(address, size) + 1;
      if Untouched(at, after, lo, hi) {
        assert forall i :: lo <= i < hi ==> at[i] <= counts[i] <= after[i] && !Notified(to, |bytes|, i);
        UnnotifiedBytesUnchanged(m, to, bytes, address, size);
      }
    }
  }

  /** Whether the generation of a range has come back although the range was notified. */
  predicate RangeCollides(at: seq<nat>, counts: seq<nat>, address: Word, size: Word)
    requires |counts| == GRANULE_COUNT && Grown(at, counts)
  {
    && Tracked(address, size)
    && (GranulesInTable(address, size);
        Collides(at, counts, FirstGranule(address), LastGranule(address, size) + 1))
  }

  /** The skip contract is met if and only if no granule of the tracked range was
      notified, or the counters collide. */
  lemma SkippedExactly(counts: seq<nat>, address: Word, size: Word, at: seq<nat>)
    requires |counts| == GRANULE_COUNT && Grown(at, counts)
    ensures CanSkipDigest(Generation(Wrapped(at), address, size), Generation(Wrapped(counts), address, size)) <==>
      && Tracked(address, size)
      && (|| Untouched(at, counts, FirstGranule(address), LastGranule(address, size) + 1)
          || RangeCollides(at, counts, address, size))
  {
    if Tracked(address, size) {
      GranulesInTable(address, size);
      var lo, hi := FirstGranule(address), LastGranule(address, size) + 1;
      FoldRepeatsExactly(at, counts, lo, hi);
      SumBounded(Wrapped(counts), lo, hi);
      assert (hi - lo) * (WORD - 1) <= GRANULE_COUNT * (WORD - 1);
    }
  }

  /** The notifications of a tracked range in the meantime. */
  function RangeMeantime(at: seq<nat>, counts: seq<nat>, address: Word, size: Word): nat
    requires |counts| == GRANULE_COUNT && Grown(at, counts) && Tracked(address, size)
  {
    GranulesInTable(address, size);
    Meantime(at, counts, FirstGranule(address), LastGranule(address, size) + 1)
  }

  /** With fewer than 2^32 notifications of the range since the generation was read, the skip
      contract is met exactly when there was none, whatever wrapped before. */
  lemma FewNotificationsSkipExactly(counts: seq<nat>, address: Word, size: Word, at: seq<nat>)
    requires |counts| == GRANULE_COUNT && Grown(at, counts) && Tracked(address, size)
    requires RangeMeantime(at, counts, address, size) < WORD
    ensures CanSkipDigest(Generation(Wrapped(at), address, size), Generation(Wrapped(counts), address, size)) <==>
            Untouched(at, counts, FirstGranule(address), LastGranule(address, size) + 1)
  {
    SkippedExactly(counts, address, size, at);
  }

  /** Unless the counters collide, a digest may be skipped only for a range whose bytes
      it still describes. */
  lemma SkipIsSound(hash: Hash, m: Memory, counts: seq<nat>, address: Word, size: Word, digest: nat, at: seq<nat>)
    requires |counts| == GRANULE_COUNT && Grown(at, counts) && !RangeCollides(at, counts, address, size)
    requires Describes(hash, m, counts, address, size, digest, at)
    requires CanSkipDigest(Generation(Wrapped(at), address, size), Generation(Wrapped(counts), address, size))
    ensures digest == hash(Bytes(m, Canonicalize(address), size))
  {
    SkippedExactly(counts, address, size, at);
  }

  /** The scheme accepts a digest that is not the digest of the bytes if and only if
      the counters collide: any such digest is consistent with what was notified. */
  lemma WrongSkipExactly(hash: Hash, m: Memory, counts: seq<nat>, address: Word, size: Word, digest: nat, at: seq<nat>)
    requires |counts| == GRANULE_COUNT && Grown(at, counts)
    requires digest != hash(Bytes(m, Canonicalize(address), size))
    ensures
      && Describes(hash, m, counts, address, size, digest, at)
      && CanSkipDigest(Generation(Wrapped(at), address, size), Generation(Wrapped(counts), address, size))
      <==> RangeCollides(at, counts, address, size)
  {
    SkippedExactly(counts, address, size, at);
    if RangeCollides(at, counts, address, size) {
      GranulesInTable(address, size);
      var lo, hi := FirstGranule(address), LastGranule(address, size) + 1;
      if Untouched(at, counts, lo, hi) {
        UntouchedSums(at, counts, lo, hi);
      }
    }
  }

  lemma {:induction false} OneCounterChanged(g: seq<nat>, lo: nat, hi: nat, k: nat, count: nat)
    requires lo <= k < hi <= |g|
    ensures Sum(g[k := count], lo, hi) == Sum(g, lo, hi) - g[k] + count
    ensures Wraps(g[k := count], lo, hi) == Wraps(g, lo, hi) - g[k] / WORD + count / WORD
    decreases hi
  {
    if k < hi - 1 {
      OneCounterChanged(g, lo, hi - 1, k, count);
    } else {
      OtherCounterChanged(g, lo, hi - 1, k, count);
    }
  }

  lemma {:induction false} OtherCounterChanged(g: seq<nat>, lo: nat, hi: nat, k: nat, count: nat)
    requires lo <= hi <= k < |g|
    ensures Sum(g[k := count], lo, hi) == Sum(g, lo, hi) && Wraps(g[k := count], lo, hi) == Wraps(g, lo, hi)
    decreases hi
  {
    if lo < hi {
      OtherCounterChanged(g, lo, hi - 1, k, count);
    }
  }

  /** One granule notified once more, and another 2^32 - 1 times more. */
  function OnceAndOften(at: seq<nat>, once: nat, often: nat): seq<nat>
    requires once < often < |at|
  {
    at[once := at[once] + 1][often := at[often] + (WORD - 1)]
  }

  /** Counters of any range over two granules can collide: when one that is about to wrap
      is notified once and one that has just wrapped 2^32 - 1 times. */
  lemma CountersCanCollide(at: seq<nat>, address: Word, size: Word)
    requires |at| == GRANULE_COUNT && Tracked(address, size) && FirstGranule(address) < LastGranule(address, size) < |at|
    requires at[FirstGranule(address)] % WORD == WORD - 1 && at[LastGranule(address, size)] % WORD == 0
    ensures var counts := OnceAndOften(at, FirstGranule(address), LastGranule(address, size));
      Grown(at, counts) && RangeCollides(at, counts, address, size)
  {
    var first, last := FirstGranule(address), LastGranule(address, size);
    OneCounterChanged(at, first, last + 1, first, at[first] + 1);
    OneCounterChanged(at[first := at[first] + 1], first, last + 1, last, at[last] + (WORD - 1));
  }

  /** The skip contract of every consumer. */
  predicate CanSkipDigest(stored: nat, current: nat) {
    current != UNTRACKED && stored == current
  }

  type Range = (Word, Word)

  datatype Record = Record(generation: nat, digest: nat)
  /** A display list between its probe and the end of its scan. */
  datatype Scan = Scan(generation: nat, digest: Option<nat>)

  /** The generation was read when the notifications stood at `at`, and the digest was taken since. */
  ghost predicate Holds(hash: Hash, m: Memory, counts: seq<nat>, key: Range, generation: nat, digest: Option<nat>, at: seq<nat>) {
    && Canonicalize(key.0) == key.0
    && |counts| == GRANULE_COUNT && Grown(at, counts)
    && generation == Generation(Wrapped(at), key.0, key.1)
    && (digest.Some? ==> Describes(hash, m, counts, key.0, key.1, digest.value, at))
  }

  lemma HoldsAcrossWrite(hash: Hash, m: Memory, counts: seq<nat>, key: Range, generation: nat, digest: Option<nat>,
                         at: seq<nat>, to: Word, bytes: seq<Byte>)
    requires |bytes| < WORD && Holds(hash, m, counts, key, generation, digest, at)
    ensures Holds(hash, Written(m, Canonicalize(to), bytes), Bumped(counts, to, |bytes|), key, generation, digest, at)
  {
    if digest.Some? {
      DescribesAcrossWrite(hash, m, counts, key.0, key.1, digest.value, at, to, bytes);
    }
  }

  ghost predicate RecordsHold(hash: Hash, m: Memory, counts: seq<nat>, records: map<Range, Record>, at: map<Range, seq<nat>>) {
    && at.Keys == records.Keys
    && forall key :: key in records ==> Holds(hash, m, counts, key, records[key].generation, Some(records[key].digest), at[key])
  }

  ghost predicate ScansHold(hash: Hash, m: Memory, counts: seq<nat>, scans: map<Range, Scan>, at: map<Range, seq<nat>>) {
    && at.Keys == scans.Keys
    && forall key :: key in scans ==> Holds(hash, m, counts, key, scans[key].generation, scans[key].digest, at[key])
  }

  /** A notification without a write takes nothing away either. */
  lemma RecordsHoldAcrossNotice(hash: Hash, m: Memory, counts: seq<nat>, records: map<Range, Record>,
                                at: map<Range, seq<nat>>, to: Word, size: Word)
    requires RecordsHold(hash, m, counts, records, at)
    ensures RecordsHold(hash, m, Bumped(counts, to, size), records, at)
  {
    forall key | key in records
      ensures Holds(hash, m, Bumped(counts, to, size), key, records[key].generation, Some(records[key].digest), at[key])
    {
      DescribesAcrossNotice(hash, m, counts, key.0, key.1, records[key].digest, at[key], to, size);
    }
  }

  lemma DescribesAcrossNotice(hash: Hash, m: Memory, counts: seq<nat>, address: Word, size: Word, digest: nat, at: seq<nat>,
                              to: Word, length: Word)
    requires |counts| == GRANULE_COUNT && Grown(at, counts)
    requires Describes(hash, m, counts, address, size, digest, at)
    ensures Describes(hash, m, Bumped(counts, to, length), address, size, digest, at)
  {
    var after := Bumped(counts, to, length);
    if Tracked(address, size) {
      GranulesInTable(address, size);
      var lo, hi := FirstGranule(address), LastGranule(address, size) + 1;
      if Untouched(at, after, lo, hi) {
        assert forall i :: lo <= i < hi ==> at[i] <= counts[i] <= after[i];
      }
    }
  }

  lemma RecordsHoldAcrossWrite(hash: Hash, m: Memory, counts: seq<nat>, records: map<Range, Record>,
                               at: map<Range, seq<nat>>, to: Word, bytes: seq<Byte>)
    requires |bytes| < WORD && RecordsHold(hash, m, counts, records, at)
    ensures RecordsHold(hash, Written(m, Canonicalize(to), bytes), Bumped(counts, to, |bytes|), records, at)
  {
    forall key | key in records {
      HoldsAcrossWrite(hash, m, counts, key, records[key].generation, Some(records[key].digest), at[key], to, bytes);
    }
  }

  lemma ScansHoldAcrossWrite(hash: Hash, m: Memory, counts: seq<nat>, scans: map<Range, Scan>,
                             at: map<Range, seq<nat>>, to: Word, bytes: seq<Byte>)
    requires |bytes| < WORD && ScansHold(hash, m, counts, scans, at)
    ensures ScansHold(hash, Written(m, Canonicalize(to), bytes), Bumped(counts, to, |bytes|), scans, at)
  {
    forall key | key in scans {
      HoldsAcrossWrite(hash, m, counts, key, scans[key].generation, scans[key].digest, at[key], to, bytes);
    }
  }

  /** The generation table, what the GPU sees of guest memory, and the cache of
      display-list scans, keyed by canonical address and size. */
  class ScanCache {
    const generations: array<Word>
    const hash: Hash
    var memory: Memory
    var records: map<Range, Record>
    var scans: map<Range, Scan>
    // The notifications each granule ever had, and what they were when the
    // generation of a record or of a scan was read.
    ghost var counts: seq<nat>
    ghost var recordedAt: map<Range, seq<nat>>
    ghost var scannedAt: map<Range, seq<nat>>

    ghost predicate TableValid()
      reads this`counts, generations
    {
      && generations.Length == GRANULE_COUNT == |counts|
      && forall i :: 0 <= i < GRANULE_COUNT ==> generations[i] == counts[i] % WORD
    }

    ghost predicate Valid()
      reads this, generations
    {
      && TableValid()
      && RecordsHold(hash, memory, counts, records, recordedAt)
      && ScansHold(hash, memory, counts, scans, scannedAt)
    }

    constructor (hash: Hash, memory: Memory)
      ensures Valid() && this.hash == hash && this.memory == memory && records == map[] && scans == map[]
      ensures forall i :: 0 <= i < |counts| ==> counts[i] == 0
      ensures fresh(generations)
    {
      this.hash, this.memory := hash, memory;
      generations := new Word[GRANULE_COUNT](_ => 0);
      records, scans := map[], map[];
      counts := seq(GRANULE_COUNT, _ => 0);
      recordedAt, scannedAt := map[], map[];
    }

    method GenerationForRange(address: Word, size: Word) returns (generation: nat)
      requires TableValid()
      ensures generation == Generation(Wrapped(counts), address, size)
      ensures Tracked(address, size) <==> generation != UNTRACKED
    {
      if size == 0 {
        return UNTRACKED;
      }
      var start := Canonicalize(address);
      var end := start + size;
      if end <= start || end > MEM2_PHYSICAL_END {
        return UNTRACKED;
      }
      GranulesInTable(address, size);
      var first, last := start / GRANULE, (end - 1) / GRANULE;
      var folded := 0;
      for granule := first to last + 1
        invariant folded == Sum(Wrapped(counts), first, granule)
      {
        SumBounded(Wrapped(counts), first, granule + 1);
        assert (granule + 1 - first) * (WORD - 1) <= GRANULE_COUNT * (WORD - 1);
        folded := (folded + generations[granule]) % DOUBLE_WORD;
      }
      SumBounded(Wrapped(counts), first, last + 1);
      generation := folded - (if folded == UNTRACKED then 1 else 0);
    }

    method NotifyWrite(address: Word, size: Word)
      requires TableValid()
      modifies generations, this`counts
      ensures counts == Bumped(old(counts), address, size)
      ensures TableValid()
    {
      if size == 0 {
        assert counts == Bumped(counts, address, size);
        return;
      }
      var start := Canonicalize(address);
      var end := start + size;
      if end <= start || start >= MEM2_PHYSICAL_END {
        assert counts == Bumped(counts, address, size);
        return;
      }
      var clampedEnd := if end < MEM2_PHYSICAL_END then end else MEM2_PHYSICAL_END;
      var first, last := start / GRANULE, (clampedEnd - 1) / GRANULE;
      QuotientMonotone(start, clampedEnd - 1, GRANULE);
      QuotientMonotone(clampedEnd - 1, end - 1, GRANULE);
      QuotientBelow(clampedEnd - 1, GRANULE_COUNT, GRANULE);
      if end > MEM2_PHYSICAL_END {
        UniqueQuotient(MEM2_PHYSICAL_END - 1, GRANULE_COUNT - 1, GRANULE - 1, GRANULE);
      }
      for granule := first to last + 1
        invariant |counts| == GRANULE_COUNT
        invariant forall i :: 0 <= i < GRANULE_COUNT ==>
          counts[i] == old(counts)[i] + (if first <= i < granule then 1 else 0)
        invariant forall i :: 0 <= i < GRANULE_COUNT ==> generations[i] == counts[i] % WORD
      {
        generations[granule] := (generations[granule] + 1) % WORD;
        counts := counts[granule := counts[granule] + 1];
      }
      assert counts == Bumped(old(counts), address, size);
    }

    /** A guest write becomes visible together with its notification. */
    method Write(to: Word, bytes: seq<Byte>)
      requires Valid() && |bytes| < WORD
      modifies this`memory, this`counts, generations
      ensures Valid()
      ensures memory == Written(old(memory), Canonicalize(to), bytes)
      ensures counts == Bumped(old(counts), to, |bytes|)
    {
      RecordsHoldAcrossWrite(hash, memory, counts, records, recordedAt, to, bytes);
      ScansHoldAcrossWrite(hash, memory, counts, scans, scannedAt, to, bytes);
      memory := Written(memory, Canonicalize(to), bytes);
      NotifyWrite(to, |bytes|);
    }

    /** Whether a record can be reused for a range with this generation, and the
        digest found on the way. A digest it returns is the digest of the bytes now. */
    method Consult(key: Range, generation: nat) returns (digest: Option<nat>, hit: bool, skipped: bool)
      requires Valid() && generation == Generation(Wrapped(counts), key.0, key.1)
      ensures digest.Some? <==> key in records
      ensures skipped <==> key in records && CanSkipDigest(records[key].generation, generation)
      ensures hit <==> key in records && Some(records[key].digest) == digest
      ensures skipped ==> hit
      ensures digest.Some? && (!skipped || !RangeCollides(recordedAt[key], counts, key.0, key.1)) ==>
        digest.value == hash(Bytes(memory, key.0, key.1))
      ensures hit ==> Holds(hash, memory, counts, key, generation, digest, if skipped then recordedAt[key] else counts)
      ensures !hit && Canonicalize(key.0) == key.0 ==> Holds(hash, memory, counts, key, generation, digest, counts)
    {
      if key !in records {
        return None, false, false;
      }
      var record := records[key];
      if CanSkipDigest(record.generation, generation) {
        if !RangeCollides(recordedAt[key], counts, key.0, key.1) {
          SkipIsSound(hash, memory, counts, key.0, key.1, record.digest, recordedAt[key]);
        }
        return Some(record.digest), true, true;
      }
      digest := Some(hash(Bytes(memory, key.0, key.1)));
      return digest, digest.value == record.digest, false;
    }

    /** Reads the generation of a display list and looks for a scan to reuse; a
        miss begins a scan, a bump that changed nothing renews the record. */
    method Probe(address: Word, size: Word) returns (digest: Option<nat>, hit: bool, skipped: bool)
      requires Valid()
      modifies this`records, this`recordedAt, this`scans, this`scannedAt
      ensures Valid()
      ensures digest.Some? <==> (Canonicalize(address), size) in old(records)
      ensures digest.Some? ==> (hit <==> old(records)[(Canonicalize(address), size)].digest == digest.value)
      ensures digest.Some? ==> (skipped <==> CanSkipDigest(old(records)[(Canonicalize(address), size)].generation,
                                                           Generation(Wrapped(counts), address, size)))
      ensures digest.None? ==> !hit && !skipped
      ensures skipped ==> hit
      ensures digest.Some? && !skipped ==> digest.value == hash(Bytes(memory, Canonicalize(address), size))
      ensures skipped ==>
        || RangeCollides(old(recordedAt)[(Canonicalize(address), size)], counts, Canonicalize(address), size)
        || digest.value == hash(Bytes(memory, Canonicalize(address), size))
      // The notifications at which the generation of a record or of a scan was read.
      ensures recordedAt == if !hit || skipped then old(recordedAt) else old(recordedAt)[(Canonicalize(address), size) := counts]
      ensures scannedAt == if hit then old(scannedAt) else old(scannedAt)[(Canonicalize(address), size) := counts]
      ensures records == if !hit then old(records) else
        old(records)[(Canonicalize(address), size) := Record(Generation(Wrapped(counts), address, size), digest.value)]
      ensures scans == if hit then old(scans) else
        old(scans)[(Canonicalize(address), size) := Scan(Generation(Wrapped(counts), address, size), digest)]
    {
      CanonicalIsFixed(address);
      var key := (Canonicalize(address), size);
      var generation := GenerationForRange(address, size);
      GenerationOfAlias(Wrapped(counts), address, size);
      digest, hit, skipped := Consult(key, generation);
      if hit {
        Remember(key, generation, digest.value, if skipped then recordedAt[key] else counts);
      } else {
        Begin(key, generation, digest);
      }
    }

    method Begin(key: Range, generation: nat, digest: Option<nat>)
      requires Valid() && Holds(hash, memory, counts, key, generation, digest, counts)
      modifies this`scans, this`scannedAt
      ensures Valid() && scans == old(scans)[key := Scan(generation, digest)]
      ensures scannedAt == old(scannedAt)[key := counts]
    {
      scans, scannedAt := scans[key := Scan(generation, digest)], scannedAt[key := counts];
    }

    method Remember(key: Range, generation: nat, digest: nat, ghost at: seq<nat>)
      requires Valid() && Holds(hash, memory, counts, key, generation, Some(digest), at)
      modifies this`records, this`recordedAt
      ensures Valid() && records == old(records)[key := Record(generation, digest)]
      ensures recordedAt == old(recordedAt)[key := at]
    {
      records, recordedAt := records[key := Record(generation, digest)], recordedAt[key := at];
    }

    /** The end of a scan: its digest is stored under the generation read before
        it began, whatever was written in between. */
    method Store(key: Range)
      requires Valid() && key in scans
      modifies this`records, this`recordedAt, this`scans, this`scannedAt
      ensures Valid() && scans == old(scans) - {key}
      ensures scannedAt == old(scannedAt) - {key} && recordedAt == old(recordedAt)[key := old(scannedAt)[key]]
      ensures var scan := old(scans)[key];
        var digest := if scan.digest.Some? then scan.digest.value else hash(Bytes(memory, key.0, key.1));
        records == old(records)[key := Record(scan.generation, digest)]
    {
      var scan := scans[key];
      var digest := if scan.digest.Some? then scan.digest.value else hash(Bytes(memory, key.0, key.1));
      Remember(key, scan.generation, digest, scannedAt[key]);
      scans, scannedAt := scans - {key}, scannedAt - {key};
    }
  }

  /** One byte is one granule. */
  lemma OneByteNoticed(counts: seq<nat>, to: Word)
    requires |counts| == GRANULE_COUNT && Canonicalize(to) < MEM2_PHYSICAL_END
    ensures FirstGranule(to) < GRANULE_COUNT
    ensures Bumped(counts, to, 1) == counts[FirstGranule(to) := counts[FirstGranule(to)] + 1]
  {
    QuotientBelow(Canonicalize(to), GRANULE_COUNT, GRANULE);
  }

  /** The last byte of a tracked range is its own canonical address. */
  lemma LastByte(address: Word, size: Word) returns (to: Word)
    requires Tracked(address, size)
    ensures to == Canonicalize(address) + size - 1 == Canonicalize(to) < MEM2_PHYSICAL_END
    ensures FirstGranule(to) == LastGranule(address, size)
  {
    to := Canonicalize(address) + size - 1;
  }

  /** A run that hands out a wrong digest, for every tracked range over two granules and
      every byte that changes its digest: the range is scanned when its first granule is
      about to wrap, its first byte is written, and its last byte notified 2^32 - 1 times. */
  method HandOutWrongDigest(hash: Hash, memory: Memory, address: Word, size: Word, value: Byte)
    returns (cache: ScanCache, digest: Option<nat>, skipped: bool)
    requires Tracked(address, size) && FirstGranule(address) < LastGranule(address, size)
    requires hash(Bytes(Written(memory, Canonicalize(address), [value]), Canonicalize(address), size)) !=
             hash(Bytes(memory, Canonicalize(address), size))
    ensures fresh(cache) && cache.Valid() && cache.hash == hash
    ensures cache.memory == Written(memory, Canonicalize(address), [value])
    ensures skipped && digest.Some? && digest.value != hash(Bytes(cache.memory, Canonicalize(address), size))
  {
    cache := ScanBeforeWrap(hash, memory, address, size);
    WriteUntilCollision(cache, address, size, value);
    var hit;
    digest, hit, skipped := cache.Probe(address, size);
  }

  /** A new cache with the digest of the range, read when its first granule is about to wrap. */
  method ScanBeforeWrap(hash: Hash, memory: Memory, address: Word, size: Word) returns (cache: ScanCache)
    requires Tracked(address, size) && FirstGranule(address) < LastGranule(address, size)
    ensures fresh(cache) && fresh(cache.generations) && cache.Valid() && cache.hash == hash && cache.memory == memory
    ensures cache.scans == map[] && cache.records == map[(Canonicalize(address), size) := Record(
      Generation(Wrapped(cache.counts), address, size), hash(Bytes(memory, Canonicalize(address), size)))]
    ensures LastGranule(address, size) < GRANULE_COUNT == |cache.counts|
    ensures cache.counts[FirstGranule(address)] == WORD - 1 && cache.counts[LastGranule(address, size)] == 0
  {
    GranulesInTable(address, size);
    cache := new ScanCache(hash, memory);
    NotifyOften(cache, address);
    var digest, hit, skipped := cache.Probe(address, size);
    cache.Store((Canonicalize(address), size));
  }

  /** The first byte is written once and the last one notified 2^32 - 1 times; the record stays as it is. */
  method WriteUntilCollision(cache: ScanCache, address: Word, size: Word, value: Byte)
    requires cache.Valid() && cache.scans == map[]
    requires Tracked(address, size) && FirstGranule(address) < LastGranule(address, size) < GRANULE_COUNT
    requires cache.counts[FirstGranule(address)] == WORD - 1 && cache.counts[LastGranule(address, size)] == 0
    modifies cache`memory, cache`counts, cache.generations
    ensures cache.Valid() && cache.memory == Written(old(cache.memory), Canonicalize(address), [value])
    ensures CanSkipDigest(Generation(Wrapped(old(cache.counts)), address, size),
                          Generation(Wrapped(cache.counts), address, size))
  {
    ghost var at := cache.counts;
    OneByteNoticed(at, address);
    cache.Write(address, [value]);
    ghost var to := LastByte(address, size);
    NotifyOften(cache, Canonicalize(address) + size - 1);
    assert cache.counts == OnceAndOften(at, FirstGranule(address), LastGranule(address, size));
    CollisionIsSkipped(at, address, size);
  }

  lemma CollisionIsSkipped(at: seq<nat>, address: Word, size: Word)
    requires |at| == GRANULE_COUNT && Tracked(address, size) && FirstGranule(address) < LastGranule(address, size) < |at|
    requires at[FirstGranule(address)] % WORD == WORD - 1 && at[LastGranule(address, size)] % WORD == 0
    ensures var counts := OnceAndOften(at, FirstGranule(address), LastGranule(address, size));
      CanSkipDigest(Generation(Wrapped(at), address, size), Generation(Wrapped(counts), address, size))
  {
    CountersCanCollide(at, address, size);
    SkippedExactly(OnceAndOften(at, FirstGranule(address), LastGranule(address, size)), address, size, at);
  }

  /** One byte is notified 2^32 - 1 times. */
  method NotifyOften(cache: ScanCache, to: Word)
    requires cache.Valid() && cache.scans == map[] && Canonicalize(to) < MEM2_PHYSICAL_END
    modifies cache.generations, cache`counts
    ensures cache.Valid() && FirstGranule(to) < GRANULE_COUNT == |old(cache.counts)|
    ensures cache.counts == old(cache.counts)[FirstGranule(to) := old(cache.counts)[FirstGranule(to)] + (WORD - 1)]
  {
    OneByteNoticed(cache.counts, to);
    ghost var counts, granule := cache.counts, FirstGranule(to);
    for n := 0 to WORD - 1
      invariant cache.Valid()
      invariant cache.counts == counts[granule := counts[granule] + n]
    {
      OneByteNoticed(cache.counts, to);
      RecordsHoldAcrossNotice(cache.hash, cache.memory, cache.counts, cache.records, cache.recordedAt, to, 1);
      cache.NotifyWrite(to, 1);
    }
  }
}
