/** Allocation of .got.plt entries (elf64-x86-64, `elf_x86_64_allocate_dynrelocs` and the GOT part of
    `elf_x86_64_size_dynamic_sections`). Jump slots and TLS descriptors are allocated in any order but laid
    out apart: all jump slots first. */
module GotLayout {

  // ---- the allocations as a sequence, counted in entries of 8 bytes ----

  const HEADER: nat := 3

  /** `counted` is false for a jump slot of an undefined weak symbol resolved to zero: it gets no relocation. */
  datatype Alloc = JumpSlot(counted: bool) | TlsDesc

  /** The jump slots among the first `n` allocations. */
  function Slots(log: seq<Alloc>, n: nat): nat
    requires n <= |log|
  {
    if n == 0 then 0 else Slots(log, n - 1) + if log[n - 1].JumpSlot? then 1 else 0
  }

  /** Those that also raise `reloc_count`. */
  function Counted(log: seq<Alloc>, n: nat): nat
    requires n <= |log|
  {
    if n == 0 then 0 else Counted(log, n - 1) + if log[n - 1] == JumpSlot(true) then 1 else 0
  }

  function Descs(log: seq<Alloc>, n: nat): nat
    requires n <= |log|
  {
    if n == 0 then 0 else Descs(log, n - 1) + if log[n - 1].TlsDesc? then 1 else 0
  }

  /** The size of .got.plt after the first `n` allocations. */
  function Entries(log: seq<Alloc>, n: nat): nat
    requires n <= |log|
  {
    HEADER + Slots(log, n) + 2 * Descs(log, n)
  }

  /** Where allocation `e` ends up: a jump slot by its PLT index, a descriptor at the end of the jump table
      plus the offset noted when it was allocated (the size then, less the jump table then). */
  function Position(log: seq<Alloc>, e: nat): int
    requires e < |log|
  {
    if log[e].JumpSlot? then HEADER + Slots(log, e)
    else (Entries(log, e) - Counted(log, e)) + Counted(log, |log|)
  }

  function Width(a: Alloc): nat { if a.JumpSlot? then 1 else 2 }

  predicate Covers(log: seq<Alloc>, e: nat, entry: int)
    requires e < |log|
  {
    Position(log, e) <= entry < Position(log, e) + Width(log[e])
  }

  ghost predicate NoOverlap(log: seq<Alloc>) {
    forall e: nat, f: nat, entry :: e < f < |log| && Covers(log, e, entry) ==> !Covers(log, f, entry)
  }

  /** No uncounted slot is allocated after a descriptor. */
  predicate NoLateZero(log: seq<Alloc>) {
    forall e, f :: 0 <= e < f < |log| && log[e].TlsDesc? ==> log[f] != JumpSlot(false)
  }

  lemma {:induction false} PrefixGrows(log: seq<Alloc>, e: nat, f: nat)
    requires e <= f <= |log|
    ensures Slots(log, e) <= Slots(log, f) && Descs(log, e) <= Descs(log, f)
    ensures Counted(log, e) <= Counted(log, f)
    ensures Slots(log, e) - Counted(log, e) <= Slots(log, f) - Counted(log, f)
    decreases f
  {
    if e < f {
      PrefixGrows(log, e, f - 1);
    }
  }

  /** Facts about everything allocated after `e`. */
  lemma AfterAllocation(log: seq<Alloc>, e: nat, f: nat)
    requires e < f <= |log|
    ensures Slots(log, f) >= Slots(log, e) + if log[e].JumpSlot? then 1 else 0
    ensures Descs(log, f) >= Descs(log, e) + if log[e].TlsDesc? then 1 else 0
    ensures Slots(log, f) - Counted(log, f) >= Slots(log, e) - Counted(log, e) + if log[e] == JumpSlot(false) then 1 else 0
  {
    PrefixGrows(log, e + 1, f);
  }

  /** Without late uncounted slots no uncounted slot follows a descriptor. */
  lemma {:induction false} NothingUncountedAfter(log: seq<Alloc>, e: nat, f: nat)
    requires NoLateZero(log) && e < |log| && log[e].TlsDesc? && e <= f <= |log|
    ensures Slots(log, f) - Counted(log, f) == Slots(log, e) - Counted(log, e)
    decreases f
  {
    if e < f {
      NothingUncountedAfter(log, e, f - 1);
    }
  }

  /** The k-th jump slot. */
  lemma {:induction false} FindSlot(log: seq<Alloc>, k: nat, n: nat) returns (e: nat)
    requires n <= |log| && k < Slots(log, n)
    ensures e < n && log[e].JumpSlot? && Slots(log, e) == k
    decreases n
  {
    if log[n - 1].JumpSlot? && Slots(log, n - 1) == k {
      e := n - 1;
    } else {
      e := FindSlot(log, k, n - 1);
    }
  }

  lemma {:induction false} FindDesc(log: seq<Alloc>, k: nat, n: nat) returns (e: nat)
    requires n <= |log| && k < Descs(log, n)
    ensures e < n && log[e].TlsDesc? && Descs(log, e) == k
    decreases n
  {
    if log[n - 1].TlsDesc? && Descs(log, n - 1) == k {
      e := n - 1;
    } else {
      e := FindDesc(log, k, n - 1);
    }
  }

  /** Every allocation ends inside .got.plt and after its header: the assertion of the relocation pass
      always holds, whatever the order. */
  lemma AllocationsFit(log: seq<Alloc>, e: nat)
    requires e < |log|
    ensures HEADER <= Position(log, e) && Position(log, e) + Width(log[e]) <= Entries(log, |log|)
  {
    AfterAllocation(log, e, |log|);
    PrefixGrows(log, e, |log|);
  }

  /** Allocations of the same kind never overlap. */
  lemma SameKindApart(log: seq<Alloc>, e: nat, f: nat)
    requires e < f < |log| && log[e].JumpSlot? == log[f].JumpSlot?
    ensures Position(log, e) + Width(log[e]) <= Position(log, f)
  {
    AfterAllocation(log, e, f);
  }

  /** A descriptor stays behind all jump slots when no uncounted slot comes after it. */
  lemma DescBehindSlots(log: seq<Alloc>, d: nat, s: nat)
    requires NoLateZero(log) && d < |log| && s < |log| && log[d].TlsDesc? && log[s].JumpSlot?
    ensures Position(log, s) < Position(log, d)
  {
    NothingUncountedAfter(log, d, |log|);
    AfterAllocation(log, s, |log|);
  }

  /** An uncounted slot after a descriptor makes some descriptor overlap some jump slot. */
  lemma LateZeroOverlaps(log: seq<Alloc>, d: nat, z: nat) returns (e: nat, s: nat)
    requires d < z < |log| && log[d].TlsDesc? && log[z] == JumpSlot(false)
    ensures e < |log| && s < |log| && e != s && Covers(log, e, Position(log, s)) && Covers(log, s, Position(log, s))
  {
    PrefixGrows(log, d + 1, |log|);
    e := FindDesc(log, 0, d + 1);
    PrefixGrows(log, e, d);
    PrefixGrows(log, d, z);
    AfterAllocation(log, z, |log|);
    var k := Slots(log, e) - Counted(log, e) + Counted(log, |log|);
    s := FindSlot(log, k, |log|);
  }

  /** The layout is free of overlaps exactly when no uncounted slot is allocated after a descriptor. */
  lemma DisjointIffNoLateZero(log: seq<Alloc>)
    ensures NoOverlap(log) <==> NoLateZero(log)
  {
    if NoLateZero(log) {
      forall e: nat, f: nat, entry | e < f < |log| && Covers(log, e, entry)
        ensures !Covers(log, f, entry)
      {
        if log[e].JumpSlot? == log[f].JumpSlot? {
          SameKindApart(log, e, f);
        } else if log[e].JumpSlot? {
          DescBehindSlots(log, f, e);
        } else {
          DescBehindSlots(log, e, f);
        }
      }
    } else {
      var d, z :| 0 <= d < z < |log| && log[d].TlsDesc? && log[z] == JumpSlot(false);
      var e, s := LateZeroOverlaps(log, d, z);
      var entry := Position(log, s);
      assert Covers(log, e, entry) && Covers(log, s, entry);
    }
  }

  /** Without late uncounted slots .got.plt is filled exactly: every entry behind the header is used. */
  lemma FilledExactly(log: seq<Alloc>, entry: int) returns (e: nat)
    requires NoLateZero(log) && HEADER <= entry < Entries(log, |log|)
    ensures e < |log| && Covers(log, e, entry)
  {
    if entry < HEADER + Slots(log, |log|) {
      e := FindSlot(log, entry - HEADER, |log|);
    } else {
      e := FindDesc(log, (entry - HEADER - Slots(log, |log|)) / 2, |log|);
      NothingUncountedAfter(log, e, |log|);
    }
  }

  /** Later allocations do not change earlier counts. */
  lemma {:induction false} CountsStay(log: seq<Alloc>, more: seq<Alloc>, n: nat)
    requires n <= |log|
    ensures Slots(log + more, n) == Slots(log, n) && Counted(log + more, n) == Counted(log, n)
    ensures Descs(log + more, n) == Descs(log, n)
  {
    if n > 0 {
      CountsStay(log, more, n - 1);
    }
  }
}
