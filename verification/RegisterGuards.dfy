/** The guards that put the caller's non-volatile registers back after a guest call. */
module RegisterGuards {
  import opened BitMasks
  import opened Primitives

  const REGISTERS: nat := 32
  const FIRST: nat := 14
  const SLOTS: nat := 18
  const ALL_NONVOLATILE: nat := 0xFFFF_C000

  /** A floating-point register: a pair of values. */
  datatype Fpr = Fpr(ps0: nat, ps1: nat)

  lemma WordIsBelowPower(x: Word)
    ensures x < Pow2(REGISTERS)
  {
    PowersInUse();
  }

  /** The conservative default selects the registers from 14 on. */
  lemma AllNonvolatile(r: nat)
    ensures Bit(ALL_NONVOLATILE, r) <==> FIRST <= r < REGISTERS
  {
    PowersInUse();
    BitOfRun(FIRST, REGISTERS, r);
  }

  /** Whether a guard with this requested mask covers register r. */
  predicate Guarded(requested: Word, r: nat) {
    FIRST <= r < REGISTERS && Bit(requested, r)
  }

  lemma EffectiveMask(requested: Word, r: nat)
    ensures Bit(And(requested, ALL_NONVOLATILE), r) <==> Guarded(requested, r)
    ensures Guarded(requested, r) <==> 14 <= r < 32 && requested / Pow2(r) % 2 == 1
  {
    BitExactly(requested, r);
    BitOfAnd(requested, ALL_NONVOLATILE, r);
    AllNonvolatile(r);
  }

  /** The register file in which the guarded registers have their saved values. */
  function Restored<T>(file: seq<T>, saved: seq<T>, requested: Word): (r: seq<T>)
    requires |file| == |saved| == REGISTERS
    ensures |r| == REGISTERS
  {
    seq(REGISTERS, i requires 0 <= i < REGISTERS => if Guarded(requested, i) then saved[i] else file[i])
  }

  /** The mask of every register that one of two guards covers. */
  lemma {:induction false} UnionOfMasks(a: nat, b: nat) returns (u: nat)
    ensures forall r: nat :: Bit(u, r) <==> Bit(a, r) || Bit(b, r)
    ensures forall n: nat :: a < Pow2(n) && b < Pow2(n) ==> u < Pow2(n)
    decreases a
  {
    if a == 0 {
      forall r: nat {
        NoBitInZero(r);
      }
      u := b;
    } else {
      var rest := UnionOfMasks(a / 2, b / 2);
      var low := if a % 2 == 1 || b % 2 == 1 then 1 else 0;
      u := 2 * rest + low;
      assert u / 2 == rest;
      forall r: nat
        ensures Bit(u, r) <==> Bit(a, r) || Bit(b, r)
      {
        if r > 0 {
          assert Bit(rest, r - 1) <==> Bit(a / 2, r - 1) || Bit(b / 2, r - 1);
        }
      }
      forall n: nat | a < Pow2(n) && b < Pow2(n)
        ensures u < Pow2(n)
      {
        assert rest < Pow2(n - 1);
      }
    }
  }

  /** Nested guards compose: the inner guard's registers come back unless the outer
      guard covers them too, and when both saved the same file they act as one guard
      with the union of the masks. */
  lemma NestedGuards<T>(file: seq<T>, outer: seq<T>, inner: seq<T>, a: Word, b: Word)
    requires |file| == |outer| == |inner| == REGISTERS
    ensures forall r :: 0 <= r < REGISTERS ==> (
      Restored(Restored(file, inner, b), outer, a)[r]
      == if Guarded(a, r) then outer[r] else if Guarded(b, r) then inner[r] else file[r])
    ensures outer == inner ==> exists u: Word ::
      && (forall r: nat :: Bit(u, r) <==> Bit(a, r) || Bit(b, r))
      && Restored(Restored(file, inner, b), outer, a) == Restored(file, outer, u)
  {
    if outer == inner {
      var u := UnionOfMasks(a, b);
      PowersInUse();
      assert a < Pow2(32) && b < Pow2(32) ==> u < Pow2(32);
      assert Restored(Restored(file, inner, b), outer, a) == Restored(file, outer, u);
    }
  }

  class Cpu {
    const fpr: array<Fpr>
    const gpr: array<Word>

    ghost predicate Valid() {
      fpr.Length == REGISTERS && gpr.Length == REGISTERS
    }

    constructor ()
      ensures Valid() && fresh(fpr) && fresh(gpr)
    {
      fpr := new Fpr[REGISTERS](_ => Fpr(0, 0));
      gpr := new Word[REGISTERS](_ => 0);
    }
  }

  class FprGuard {
    const cpu: Cpu?
    const mask: nat
    const saved: array<Fpr>
    var firstSlot: nat
    var slotCount: nat
    ghost const requested: Word
    // The registers as they were when the guard was made.
    ghost const atCall: seq<Fpr>

    ghost predicate Valid()
      reads this, saved
    {
      && saved.Length == SLOTS && mask == And(requested, ALL_NONVOLATILE)
      && (cpu != null ==> cpu.Valid() && |atCall| == REGISTERS && saved != cpu.fpr)
      && (cpu != null && mask != 0 ==>
           && (forall r: nat :: Guarded(requested, r) ==> saved[r - FIRST] == atCall[r])
           && (slotCount != 0 ==> IsRun(mask, FIRST + firstSlot, FIRST + firstSlot + slotCount)))
    }

    constructor (cpu: Cpu?, requested: Word)
      requires cpu != null ==> cpu.Valid()
      ensures Valid() && fresh(saved)
      ensures this.cpu == cpu && this.requested == requested
      ensures cpu != null ==> atCall == cpu.fpr[..]
    {
      this.cpu := cpu;
      this.requested := requested;
      mask := And(requested, ALL_NONVOLATILE);
      saved := new Fpr[SLOTS](_ => Fpr(0, 0));
      firstSlot, slotCount := 0, 0;
      atCall := if cpu != null then cpu.fpr[..] else [];
      new;
      if cpu == null || mask == 0 {
        return;
      }
      MaskIsWord();
      if SingleRun(mask, REGISTERS) {
        SaveRun();
      } else {
        SaveEach();
      }
    }

    lemma MaskIsWord()
      requires mask == And(requested, ALL_NONVOLATILE)
      ensures mask < Pow2(REGISTERS)
    {
      WordIsBelowPower(requested);
    }

    /** A run of the mask lies within the guarded registers. */
    lemma RunIsGuarded(first: nat, end: nat)
      requires mask == And(requested, ALL_NONVOLATILE) && IsRun(mask, first, end)
      ensures FIRST <= first < end <= REGISTERS
      ensures forall r: nat :: Guarded(requested, r) <==> first <= r < end
    {
      forall r: nat
        ensures Guarded(requested, r) <==> first <= r < end
      {
        EffectiveMask(requested, r);
        assert Bit(mask, r) <==> first <= r < end;
      }
      assert Guarded(requested, first) && Guarded(requested, end - 1);
    }

    /** The indices computed for a contiguous mask are those of the guarded registers. */
    lemma RunIsFound()
      requires mask == And(requested, ALL_NONVOLATILE) && 0 < mask < Pow2(REGISTERS) && SingleRun(mask, REGISTERS)
      ensures var first, end := RunStart(mask), RunEnd(mask, REGISTERS);
        && IsRun(mask, first, end) && FIRST <= first < end <= REGISTERS
        && forall r: nat :: Guarded(requested, r) <==> first <= r < end
    {
      SingleRunExactly(mask, REGISTERS);
      RunIsGuarded(RunStart(mask), RunEnd(mask, REGISTERS));
    }

    /** Straight-line copy of a contiguous mask. */
    method SaveRun()
      requires cpu != null && cpu.Valid() && saved.Length == SLOTS && saved != cpu.fpr
      requires mask == And(requested, ALL_NONVOLATILE) && 0 < mask < Pow2(REGISTERS) && SingleRun(mask, REGISTERS)
      modifies this, saved
      ensures IsRun(mask, FIRST + firstSlot, FIRST + firstSlot + slotCount)
      ensures forall r: nat :: Guarded(requested, r) ==> saved[r - FIRST] == cpu.fpr[r]
    {
      RunIsFound();
      var aboveRun := Above(mask, REGISTERS);
      var first := TrailingZeros(mask);
      var end := if aboveRun == 0 then REGISTERS else TrailingZeros(aboveRun);
      firstSlot := first - FIRST;
      slotCount := end - first;
      for i := 0 to slotCount
        invariant forall r :: first <= r < first + i ==> saved[r - FIRST] == cpu.fpr[r]
        invariant firstSlot == first - FIRST && slotCount == end - first
      {
        saved[firstSlot + i] := cpu.fpr[first + i];
      }
    }

    /** Any other mask is gone through bit by bit. */
    method SaveEach()
      requires cpu != null && cpu.Valid() && saved.Length == SLOTS && saved != cpu.fpr
      requires mask == And(requested, ALL_NONVOLATILE)
      modifies saved
      ensures forall r: nat :: Guarded(requested, r) ==> saved[r - FIRST] == cpu.fpr[r]
    {
      for i := 0 to SLOTS
        invariant forall r: nat :: r < FIRST + i && Guarded(requested, r) ==> saved[r - FIRST] == cpu.fpr[r]
      {
        EffectiveMask(requested, FIRST + i);
        if Bit(mask, FIRST + i) {
          saved[i] := cpu.fpr[FIRST + i];
        }
      }
    }

    /** The destructor. */
    method Restore()
      requires Valid()
      modifies if cpu != null then {cpu.fpr} else {}
      ensures cpu != null ==> cpu.fpr[..] == Restored(old(cpu.fpr[..]), atCall, requested)
    {
      if cpu == null {
        return;
      }
      if mask == 0 {
        NothingGuarded();
        assert cpu.fpr[..] == Restored(cpu.fpr[..], atCall, requested);
        return;
      }
      if slotCount != 0 {
        RestoreRun();
      } else {
        RestoreEach();
      }
      assert cpu.fpr[..] == Restored(old(cpu.fpr[..]), atCall, requested);
    }

    lemma NothingGuarded()
      requires And(requested, ALL_NONVOLATILE) == 0
      ensures forall r: nat :: !Guarded(requested, r)
    {
      forall r: nat
        ensures !Guarded(requested, r)
      {
        EffectiveMask(requested, r);
        NoBitInZero(r);
      }
    }

    method RestoreRun()
      requires Valid() && cpu != null && mask != 0 && slotCount != 0
      modifies cpu.fpr
      ensures forall r :: 0 <= r < REGISTERS ==>
        cpu.fpr[r] == if Guarded(requested, r) then atCall[r] else old(cpu.fpr[r])
    {
      var first := FIRST + firstSlot;
      RunIsGuarded(first, first + slotCount);
      for i := 0 to slotCount
        invariant forall r :: 0 <= r < REGISTERS ==>
          cpu.fpr[r] == if first <= r < first + i then atCall[r] else old(cpu.fpr[r])
      {
        assert Guarded(requested, first + i);
        cpu.fpr[first + i] := saved[firstSlot + i];
      }
    }

    method RestoreEach()
      requires Valid() && cpu != null && mask != 0
      modifies cpu.fpr
      ensures forall r :: 0 <= r < REGISTERS ==>
        cpu.fpr[r] == if Guarded(requested, r) then atCall[r] else old(cpu.fpr[r])
    {
      for i := 0 to SLOTS
        invariant forall r :: 0 <= r < REGISTERS ==>
          cpu.fpr[r] == if Guarded(requested, r) && r < FIRST + i then atCall[r] else old(cpu.fpr[r])
      {
        EffectiveMask(requested, FIRST + i);
        if Bit(mask, FIRST + i) {
          cpu.fpr[FIRST + i] := saved[i];
        }
      }
    }
  }

  class GprGuard {
    const cpu: Cpu?
    const saved: array<Word>
    ghost const atCall: seq<Word>

    ghost predicate Valid()
      reads saved
    {
      && saved.Length == SLOTS
      && (cpu != null ==>
           && cpu.Valid() && |atCall| == REGISTERS && saved != cpu.gpr
           && forall i :: 0 <= i < SLOTS ==> saved[i] == atCall[FIRST + i])
    }

    constructor (cpu: Cpu?, enabled: bool)
      requires cpu != null ==> cpu.Valid()
      ensures Valid() && fresh(saved)
      ensures this.cpu == if enabled then cpu else null
      ensures this.cpu != null ==> atCall == this.cpu.gpr[..]
    {
      this.cpu := if enabled then cpu else null;
      saved := new Word[SLOTS](_ => 0);
      atCall := if cpu != null then cpu.gpr[..] else [];
      new;
      if this.cpu == null {
        return;
      }
      for i := 0 to SLOTS
        invariant forall k :: 0 <= k < i ==> saved[k] == cpu.gpr[FIRST + k]
      {
        saved[i] := cpu.gpr[FIRST + i];
      }
    }

    /** The destructor: r14 to r31 have the values they had at the call. */
    method Restore()
      requires Valid()
      modifies if cpu != null then {cpu.gpr} else {}
      ensures cpu != null ==> cpu.gpr[..] == old(cpu.gpr[..14]) + atCall[14..]
    {
      if cpu == null {
        return;
      }
      for i := 0 to SLOTS
        invariant forall r :: 0 <= r < REGISTERS ==>
          cpu.gpr[r] == if FIRST <= r < FIRST + i then atCall[r] else old(cpu.gpr[r])
      {
        cpu.gpr[FIRST + i] := saved[i];
      }
    }
  }

  /** A guest call may leave any values in the registers. */
  method Callee(cpu: Cpu, file: seq<Fpr>)
    requires cpu.Valid() && |file| == REGISTERS
    modifies cpu.fpr
    ensures cpu.fpr[..] == file
  {
    for i := 0 to REGISTERS
      invariant cpu.fpr[..i] == file[..i]
    {
      cpu.fpr[i] := file[i];
    }
  }

  /** After a guarded call exactly the guarded registers are the caller's. */
  method GuardedCall(cpu: Cpu, requested: Word, file: seq<Fpr>)
    requires cpu.Valid() && |file| == REGISTERS
    modifies cpu.fpr
    ensures cpu.fpr[..] == Restored(file, old(cpu.fpr[..]), requested)
    ensures forall r :: 0 <= r < 32 ==> (
      cpu.fpr[r] == if r >= 14 && requested / Pow2(r) % 2 == 1 then old(cpu.fpr[r]) else file[r])
  {
    var guard := new FprGuard(cpu, requested);
    Callee(cpu, file);
    guard.Restore();
    forall r | 0 <= r < 32
      ensures Guarded(requested, r) <==> r >= 14 && requested / Pow2(r) % 2 == 1
    {
      EffectiveMask(requested, r);
    }
  }

  /** A guarded call that makes a guarded call of its own. */
  method NestedCall(cpu: Cpu, outer: Word, before: seq<Fpr>, inner: Word, file: seq<Fpr>)
    requires cpu.Valid() && |before| == |file| == REGISTERS
    modifies cpu.fpr
    ensures forall r :: 0 <= r < REGISTERS ==> (
      cpu.fpr[r] == if Guarded(outer, r) then old(cpu.fpr[r]) else if Guarded(inner, r) then before[r] else file[r])
  {
    var guard := new FprGuard(cpu, outer);
    Callee(cpu, before);
    GuardedCall(cpu, inner, file);
    guard.Restore();
    NestedGuards(file, guard.atCall, before, outer, inner);
  }
}
