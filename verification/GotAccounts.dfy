/** Who owns the allocations of the pass in elf64-x86-64 (the GOT part of `elf_x86_64_size_dynamic_sections`), and where the
    stored offsets put every slot, descriptor and entry. */
module GotAccounts {
  import opened GotLayout
  import opened TlsAccess
  import opened GotAllocator
  import opened GotSection

  // ---- who owns which allocation ----

  /** The jump slot or descriptor of a global symbol, or the descriptor of a local one. */
  datatype Owner = SlotOf(k: nat) | DescOf(k: nat) | LocalDesc(k: nat)

  /** The offsets stored by the pass so far: PLT offsets and descriptor offsets of the global symbols, descriptor offsets
      of the local ones; -1 for none. */
  datatype Stored = Stored(plt: seq<int>, desc: seq<int>, local: seq<int>)

  ghost predicate OwnedBy(log: seq<Alloc>, o: Options, x: Stored, w: Owner, e: nat)
    requires e < |log|
  {
    match w
    case SlotOf(k) => log[e].JumpSlot? && k < |x.plt| && x.plt[k] == PltOffset(o, Slots(log, e))
    case DescOf(k) => log[e].TlsDesc? && k < |x.desc| && x.desc[k] == DescOffset(log, e)
    case LocalDesc(k) => log[e].TlsDesc? && k < |x.local| && x.local[k] == DescOffset(log, e)
  }

  /** Every allocation has its owner, and every stored offset belongs to an allocation. */
  ghost predicate Accounts(log: seq<Alloc>, o: Options, x: Stored, owners: seq<Owner>) {
    && |owners| == |log|
    && (forall e :: 0 <= e < |log| ==> OwnedBy(log, o, x, owners[e], e))
    && (forall k :: 0 <= k < |x.plt| ==> (x.plt[k] != -1 <==> SlotOf(k) in owners))
    && (forall k :: 0 <= k < |x.desc| ==> (x.desc[k] != -1 <==> DescOf(k) in owners))
    && (forall k :: 0 <= k < |x.local| ==> (x.local[k] != -1 <==> LocalDesc(k) in owners))
    && (forall e, f :: 0 <= e < f < |owners| ==> owners[e] != owners[f])
  }

  lemma DescOffsetPositive(log: seq<Alloc>, e: nat)
    requires e <= |log|
    ensures DescOffset(log, e) >= 24
  {
    PrefixGrows(log, 0, e);
  }

  lemma OwnedStays(log: seq<Alloc>, more: seq<Alloc>, o: Options, x: Stored, y: Stored, w: Owner, e: nat)
    requires e < |log| && OwnedBy(log, o, x, w, e)
    requires x.plt <= y.plt && x.desc <= y.desc && x.local <= y.local
    ensures OwnedBy(log + more, o, y, w, e)
  {
    CountsStay(log, more, e);
  }

  /** The next symbol of a kind, and its offset stored. */
  predicate IsNext(x: Stored, w: Owner) {
    match w
    case SlotOf(k) => k == |x.plt|
    case DescOf(k) => k == |x.desc|
    case LocalDesc(k) => k == |x.local|
  }

  function With(x: Stored, w: Owner, offset: int): Stored {
    match w
    case SlotOf(_) => x.(plt := x.plt + [offset])
    case DescOf(_) => x.(desc := x.desc + [offset])
    case LocalDesc(_) => x.(local := x.local + [offset])
  }

  lemma NotYetOwned(log: seq<Alloc>, o: Options, x: Stored, owners: seq<Owner>, w: Owner)
    requires Accounts(log, o, x, owners) && IsNext(x, w)
    ensures w !in owners
  {
    assert forall e :: 0 <= e < |owners| ==> OwnedBy(log, o, x, owners[e], e);
  }

  /** A symbol that gets nothing. */
  lemma NothingAccounted(log: seq<Alloc>, o: Options, x: Stored, owners: seq<Owner>, w: Owner)
    requires Accounts(log, o, x, owners) && IsNext(x, w)
    ensures Accounts(log, o, With(x, w, -1), owners)
  {
    NotYetOwned(log, o, x, owners, w);
    forall e | 0 <= e < |log|
      ensures OwnedBy(log, o, With(x, w, -1), owners[e], e)
    {
      OwnedStays(log, [], o, x, With(x, w, -1), owners[e], e);
      assert log + [] == log;
    }
  }

  /** A symbol that gets the next allocation. */
  lemma AllocationAccounted(log: seq<Alloc>, o: Options, x: Stored, owners: seq<Owner>, w: Owner, a: Alloc, offset: int)
    requires Accounts(log, o, x, owners) && IsNext(x, w) && offset != -1
    requires OwnedBy(log + [a], o, With(x, w, offset), w, |log|)
    ensures Accounts(log + [a], o, With(x, w, offset), owners + [w])
  {
    var y, ws := With(x, w, offset), owners + [w];
    NotYetOwned(log, o, x, owners, w);
    forall e | 0 <= e < |log|
      ensures OwnedBy(log + [a], o, y, ws[e], e)
    {
      OwnedStays(log, [a], o, x, y, owners[e], e);
    }
    assert forall v :: v in ws <==> v in owners || v == w;
  }

  lemma SlotAccounted(log: seq<Alloc>, o: Options, x: Stored, owners: seq<Owner>, counted: bool, offset: int)
    requires Accounts(log, o, x, owners) && offset == PltOffset(o, Slots(log, |log|))
    ensures Accounts(log + [JumpSlot(counted)], o, x.(plt := x.plt + [offset]), owners + [SlotOf(|x.plt|)])
  {
    CountsStay(log, [JumpSlot(counted)], |log|);
    AllocationAccounted(log, o, x, owners, SlotOf(|x.plt|), JumpSlot(counted), offset);
  }

  lemma DescAccounted(log: seq<Alloc>, o: Options, x: Stored, owners: seq<Owner>, w: Owner, offset: int)
    requires Accounts(log, o, x, owners) && IsNext(x, w) && !w.SlotOf? && offset == DescOffset(log, |log|)
    ensures Accounts(log + [TlsDesc], o, With(x, w, offset), owners + [w])
  {
    DescOffsetPositive(log, |log|);
    CountsStay(log, [TlsDesc], |log|);
    AllocationAccounted(log, o, x, owners, w, TlsDesc, offset);
  }

  /** A global symbol: its jump slot or none, then its descriptor or none. */
  lemma SymbolAccounted(log: seq<Alloc>, o: Options, x: Stored, owners: seq<Owner>, slot: seq<Alloc>, pltOffset: int, desc: seq<Alloc>,
                        tlsdescGot: int) returns (owners': seq<Owner>)
    requires Accounts(log, o, x, owners) && |x.plt| == |x.desc|
    requires if |slot| == 1 then slot[0].JumpSlot? && pltOffset == PltOffset(o, Slots(log, |log|)) else slot == [] && pltOffset == -1
    requires if desc == [TlsDesc] then tlsdescGot == DescOffset(log + slot, |log + slot|) else desc == [] && tlsdescGot == -1
    ensures Accounts(log + slot + desc, o, Stored(x.plt + [pltOffset], x.desc + [tlsdescGot], x.local), owners')
  {
    owners' := owners;
    if |slot| == 1 {
      assert slot == [JumpSlot(slot[0].counted)];
      SlotAccounted(log, o, x, owners, slot[0].counted, pltOffset);
      owners' := owners + [SlotOf(|x.plt|)];
    } else {
      NothingAccounted(log, o, x, owners, SlotOf(|x.plt|));
      assert log + slot == log;
    }
    var y := With(x, SlotOf(|x.plt|), pltOffset);
    if desc == [TlsDesc] {
      DescAccounted(log + slot, o, y, owners', DescOf(|x.plt|), tlsdescGot);
      owners' := owners' + [DescOf(|x.plt|)];
    } else {
      NothingAccounted(log + slot, o, y, owners', DescOf(|x.plt|));
      assert log + slot + desc == log + slot;
    }
  }

  // ---- where everything is ----

  /** The bytes of .got.plt at which the relocation pass finds an owner's entries. */
  function Start(o: Options, x: Stored, jumpTableSize: nat, w: Owner): int {
    match w
    case SlotOf(k) => if k < |x.plt| && x.plt[k] >= 0 then JumpSlotOffset(o, x.plt[k]) else -1
    case DescOf(k) => if k < |x.desc| then jumpTableSize + x.desc[k] else -1
    case LocalDesc(k) => if k < |x.local| then jumpTableSize + x.local[k] else -1
  }

  function Size(w: Owner): nat { if w.SlotOf? then 8 else 16 }

  predicate Apart(o: Options, x: Stored, jumpTableSize: nat, v: Owner, w: Owner) {
    Start(o, x, jumpTableSize, v) + Size(v) <= Start(o, x, jumpTableSize, w)
    || Start(o, x, jumpTableSize, w) + Size(w) <= Start(o, x, jumpTableSize, v)
  }

  /** The stored offsets lead to the positions of the layout. */
  lemma StartIsPosition(log: seq<Alloc>, o: Options, x: Stored, owners: seq<Owner>, jumpTableSize: nat, e: nat)
    requires Accounts(log, o, x, owners) && e < |log| && jumpTableSize == 8 * Counted(log, |log|)
    ensures Start(o, x, jumpTableSize, owners[e]) == 8 * Position(log, e) && Size(owners[e]) == 8 * Width(log[e])
  {
    assert OwnedBy(log, o, x, owners[e], e);
    if log[e].JumpSlot? {
      SlotIsWhereComputed(o, log, e, x.plt[owners[e].k]);
    }
  }

  lemma OverlapsShareAnEntry(log: seq<Alloc>, e: nat, f: nat)
    requires e < |log| && f < |log| && e != f
    ensures Position(log, e) + Width(log[e]) <= Position(log, f) || Position(log, f) + Width(log[f]) <= Position(log, e)
      || exists entry :: Covers(log, e, entry) && Covers(log, f, entry)
  {
    var p, q := Position(log, e), Position(log, f);
    var entry := if p < q then q else p;
    assert p + Width(log[e]) <= q || q + Width(log[f]) <= p || (Covers(log, e, entry) && Covers(log, f, entry));
  }

  /** All stored slots and descriptors lie in .got.plt behind its header; they are pairwise apart if and only if no
      uncounted slot was allocated after a descriptor, and then they leave no entry free. */
  ghost predicate WellLaidOut(log: seq<Alloc>, o: Options, x: Stored, owners: seq<Owner>, jumpTableSize: nat, size: nat) {
    && (forall w :: w in owners ==> 24 <= Start(o, x, jumpTableSize, w))
    && (forall w :: w in owners ==> Start(o, x, jumpTableSize, w) + Size(w) <= size)
    && (NoLateZero(log) <==> forall v, w :: v in owners && w in owners && v != w ==> Apart(o, x, jumpTableSize, v, w))
    && (NoLateZero(log) ==> forall entry :: 3 <= entry && 8 * entry < size ==>
         exists w :: w in owners && Start(o, x, jumpTableSize, w) <= 8 * entry < Start(o, x, jumpTableSize, w) + Size(w))
  }

  lemma ApartIffDisjoint(log: seq<Alloc>, o: Options, x: Stored, owners: seq<Owner>, jumpTableSize: nat)
    requires Accounts(log, o, x, owners) && jumpTableSize == 8 * Counted(log, |log|)
    ensures NoLateZero(log) <==> forall v, w :: v in owners && w in owners && v != w ==> Apart(o, x, jumpTableSize, v, w)
  {
    DisjointIffNoLateZero(log);
    if NoLateZero(log) {
      forall v, w | v in owners && w in owners && v != w
        ensures Apart(o, x, jumpTableSize, v, w)
      {
        var e :| 0 <= e < |owners| && owners[e] == v;
        var f :| 0 <= f < |owners| && owners[f] == w;
        StartIsPosition(log, o, x, owners, jumpTableSize, e);
        StartIsPosition(log, o, x, owners, jumpTableSize, f);
        OverlapsShareAnEntry(log, e, f);
      }
    } else {
      var e: nat, f: nat, entry :| e < f < |log| && Covers(log, e, entry) && Covers(log, f, entry);
      StartIsPosition(log, o, x, owners, jumpTableSize, e);
      StartIsPosition(log, o, x, owners, jumpTableSize, f);
      assert owners[e] in owners && owners[f] in owners && owners[e] != owners[f];
      assert !Apart(o, x, jumpTableSize, owners[e], owners[f]);
    }
  }

  lemma PassIsWellLaidOut(log: seq<Alloc>, o: Options, x: Stored, owners: seq<Owner>, jumpTableSize: nat)
    requires Accounts(log, o, x, owners) && jumpTableSize == 8 * Counted(log, |log|)
    ensures WellLaidOut(log, o, x, owners, jumpTableSize, 8 * Entries(log, |log|))
  {
    ApartIffDisjoint(log, o, x, owners, jumpTableSize);
    forall w | w in owners
      ensures 24 <= Start(o, x, jumpTableSize, w)
      ensures Start(o, x, jumpTableSize, w) + Size(w) <= 8 * Entries(log, |log|)
    {
      var e :| 0 <= e < |owners| && owners[e] == w;
      StartIsPosition(log, o, x, owners, jumpTableSize, e);
      AllocationsFit(log, e);
    }
    if NoLateZero(log) {
      forall entry | 3 <= entry && 8 * entry < 8 * Entries(log, |log|)
        ensures exists w :: w in owners && Start(o, x, jumpTableSize, w) <= 8 * entry < Start(o, x, jumpTableSize, w) + Size(w)
      {
        var e := FilledExactly(log, entry);
        StartIsPosition(log, o, x, owners, jumpTableSize, e);
        assert owners[e] in owners;
      }
    }
  }

  // ---- the other sections ----

  /** The entries of .got, of .plt.got and of the second PLT. */
  datatype Tables = Tables(got: seq<Entry>, pltGot: seq<Entry>, second: seq<Entry>)

  ghost predicate AllPacked(a: Tables, s: Sizes) {
    Packed(a.got, s.sgot) && Packed(a.pltGot, s.pltGot) && Packed(a.second, s.pltSecond)
  }

  /** An entry at the end of a section, or none. */
  predicate Placed(e: Entry, sizeBefore: nat, sizeAfter: nat) {
    if e.offset >= 0 then e.offset == sizeBefore && sizeAfter == sizeBefore + e.bytes else sizeAfter == sizeBefore
  }

  /** The entries of one global symbol. */
  lemma AllPackedNext(a: Tables, s: Sizes, r: Sizes, got: Entry, pltGot: Entry, second: Entry)
    requires AllPacked(a, s)
    requires Placed(got, s.sgot, r.sgot) && Placed(pltGot, s.pltGot, r.pltGot) && Placed(second, s.pltSecond, r.pltSecond)
    ensures AllPacked(Tables(a.got + [got], a.pltGot + [pltGot], a.second + [second]), r)
  {
    PackedNext(a.got, s.sgot, got);
    PackedNext(a.pltGot, s.pltGot, pltGot);
    PackedNext(a.second, s.pltSecond, second);
  }

  // ---- what earlier phases let through ----

  /** Symbols as relocation scanning, `elf_x86_64_fixup_symbol` and `elf_x86_64_adjust_dynamic_symbol` leave them: in an
      executable only functions keep TLS descriptors; a symbol resolved to zero is not dynamic; and a symbol that is forced
      local, whose calls are local, or that is undefined weak and not of default visibility keeps no PLT reference. */
  predicate Prepared(o: Options, i: Info, d: Dynamic, pltRefcount: int) {
    && (o.executable && !i.isFunc ==> !Gdesc(i.tlsType))
    && (ResolvedToZero(o, i, d) ==> d.index == -1)
    && (pltRefcount > 0 ==> !d.forcedLocal && (i.undefWeak ==> i.defaultVisibility))
  }

  /** What can be in the log: uncounted slots in a position-independent executable only, and descriptors in an executable
      only if a function has one. */
  predicate Possible(o: Options, log: seq<Alloc>, functionDesc: bool) {
    && (JumpSlot(false) in log ==> o.executable && o.pic)
    && (TlsDesc in log && o.executable ==> functionDesc)
  }

  lemma PossibleIsSafe(o: Options, log: seq<Alloc>, functionDesc: bool)
    requires Possible(o, log, functionDesc) && (functionDesc ==> !(o.executable && o.pic))
    ensures NoLateZero(log)
  {
    forall e, f | 0 <= e < f < |log| && log[e].TlsDesc?
      ensures log[f] != JumpSlot(false)
    {
      assert log[e] in log && log[f] in log;
    }
  }

  predicate IsFunctionDesc(i: Info) {
    i.isFunc && Gdesc(i.tlsType)
  }

  // ---- runs of the pass ----

  datatype State = State(log: seq<Alloc>, sizes: Sizes)

  /** A local symbol: its reference count and access type, and the offsets stored for it. */
  datatype LocalStep = LocalStep(refcount: int, tlsType: bv8, got: int, desc: int)

  /** A global symbol: what was known of it, and the offsets stored for it. */
  datatype GlobalStep = GlobalStep(i: Info, before: Dynamic, pltRefcount: int, plt: int, pltGot: int, second: int, got: int, desc: int)

  /** What the allocation of a local symbol does. */
  predicate LocalAllowed(s: State, e: LocalStep, r: State) {
    var d := e.refcount > 0 && (e.tlsType == 4 || e.tlsType == 6);
    && r.log == s.log + (if d then [TlsDesc] else [])
    && e.desc == (if d then DescOffset(s.log, |s.log|) else -1)
    && (e.got >= 0 <==> e.refcount > 0 && e.tlsType != 4)
    && Placed(Entry(e.got, EntryBytes(e.tlsType)), s.sizes.sgot, r.sizes.sgot)
    && OtherPltsStay(s.sizes, r.sizes)
  }

  /** What the allocation of a global symbol does: a jump slot for a PLT reference, counted unless the symbol is resolved to
      zero, then a descriptor. A symbol that is not dynamic has a slot in position-independent output only. */
  predicate GlobalAllowed(o: Options, s: State, e: GlobalStep, r: State) {
    var slot := if e.plt >= 0 then [JumpSlot(!ResolvedToZero(o, e.i, e.before))] else [];
    var desc := if e.desc >= 0 then [TlsDesc] else [];
    && r.log == s.log + slot + desc
    && e.plt == (if e.plt >= 0 then PltOffset(o, Slots(s.log, |s.log|)) else -1)
    && e.desc == (if e.desc >= 0 then DescOffset(s.log + slot, |s.log + slot|) else -1)
    && Placed(Entry(e.got, EntryBytes(e.i.tlsType)), s.sizes.sgot, r.sizes.sgot)
    && Placed(Entry(e.pltGot, o.nonLazySize), s.sizes.pltGot, r.sizes.pltGot)
    && Placed(Entry(e.second, o.nonLazySize), s.sizes.pltSecond, r.sizes.pltSecond)
    && (e.plt >= 0 ==> e.pltRefcount > 0)
    && (e.plt >= 0 && ResolvedToZero(o, e.i, e.before) ==> o.pic || (!e.before.forcedLocal && e.before.index != -1))
    && (e.desc >= 0 ==> e.i.tlsType == 4 || e.i.tlsType == 6)
  }

  predicate LocalRun(states: seq<State>, steps: seq<LocalStep>) {
    |states| == |steps| + 1 && forall k :: 0 <= k < |steps| ==> LocalAllowed(states[k], steps[k], states[k + 1])
  }

  predicate GlobalRun(o: Options, states: seq<State>, steps: seq<GlobalStep>) {
    |states| == |steps| + 1 && forall k :: 0 <= k < |steps| ==> GlobalAllowed(o, states[k], steps[k], states[k + 1])
  }

  /** Local symbols keep the accounts. */
  lemma {:induction false} LocalsKept(o: Options, states: seq<State>, steps: seq<LocalStep>, n: nat)
    returns (x: Stored, owners: seq<Owner>, got: seq<Entry>)
    requires LocalRun(states, steps) && n <= |steps| && states[0].log == [] && states[0].sizes.sgot == 0
    ensures Accounts(states[n].log, o, x, owners) && Packed(got, states[n].sizes.sgot)
    ensures x.plt == x.desc == [] && |x.local| == |got| == n
    ensures forall k :: 0 <= k < n ==> x.local[k] == steps[k].desc && got[k] == Entry(steps[k].got, EntryBytes(steps[k].tlsType))
    ensures states[n].sizes.pltGot == states[0].sizes.pltGot && states[n].sizes.pltSecond == states[0].sizes.pltSecond
  {
    if n == 0 {
      x, owners, got := Stored([], [], []), [], [];
    } else {
      x, owners, got := LocalsKept(o, states, steps, n - 1);
      var s, e, r := states[n - 1], steps[n - 1], states[n];
      assert LocalAllowed(s, e, r);
      PackedNext(got, s.sizes.sgot, Entry(e.got, EntryBytes(e.tlsType)));
      got := got + [Entry(e.got, EntryBytes(e.tlsType))];
      x, owners := LocalAccounted(s, e, r, o, x, owners);
    }
  }

  lemma LocalAccounted(s: State, e: LocalStep, r: State, o: Options, x: Stored, owners: seq<Owner>)
    returns (y: Stored, owners': seq<Owner>)
    requires LocalAllowed(s, e, r) && Accounts(s.log, o, x, owners)
    ensures Accounts(r.log, o, y, owners') && y == x.(local := x.local + [e.desc])
  {
    y := x.(local := x.local + [e.desc]);
    if e.refcount > 0 && (e.tlsType == 4 || e.tlsType == 6) {
      DescAccounted(s.log, o, x, owners, LocalDesc(|x.local|), e.desc);
      owners' := owners + [LocalDesc(|x.local|)];
    } else {
      NothingAccounted(s.log, o, x, owners, LocalDesc(|x.local|));
      owners' := owners;
      assert r.log == s.log;
    }
  }

  /** The entries of global symbols behind `before` others in .got. */
  ghost predicate TablesOf(o: Options, steps: seq<GlobalStep>, n: nat, before: seq<Entry>, a: Tables) {
    && n <= |steps| && |a.got| == |before| + n && |a.pltGot| == |a.second| == n && a.got[..|before|] == before
    && (forall k :: 0 <= k < n ==> a.got[|before| + k] == Entry(steps[k].got, EntryBytes(steps[k].i.tlsType)))
    && (forall k :: 0 <= k < n ==> a.pltGot[k] == Entry(steps[k].pltGot, o.nonLazySize))
    && (forall k :: 0 <= k < n ==> a.second[k] == Entry(steps[k].second, o.nonLazySize))
  }

  /** Global symbols keep them. */
  lemma {:induction false} GlobalsKept(o: Options, states: seq<State>, steps: seq<GlobalStep>, n: nat, x0: Stored, owners0: seq<Owner>)
    returns (x: Stored, owners: seq<Owner>)
    requires GlobalRun(o, states, steps) && n <= |steps|
    requires Accounts(states[0].log, o, x0, owners0) && x0.plt == x0.desc == []
    ensures Accounts(states[n].log, o, x, owners) && x.local == x0.local
    ensures |x.plt| == |x.desc| == n && forall k :: 0 <= k < n ==> x.plt[k] == steps[k].plt && x.desc[k] == steps[k].desc
  {
    if n == 0 {
      x, owners := x0, owners0;
    } else {
      x, owners := GlobalsKept(o, states, steps, n - 1, x0, owners0);
      var s, e := states[n - 1], steps[n - 1];
      assert GlobalAllowed(o, s, e, states[n]);
      var slot := if e.plt >= 0 then [JumpSlot(!ResolvedToZero(o, e.i, e.before))] else [];
      owners := SymbolAccounted(s.log, o, x, owners, slot, e.plt, if e.desc >= 0 then [TlsDesc] else [], e.desc);
      x := Stored(x.plt + [e.plt], x.desc + [e.desc], x.local);
    }
  }

  lemma {:induction false} TablesKept(o: Options, states: seq<State>, steps: seq<GlobalStep>, n: nat, before: seq<Entry>) returns (a: Tables)
    requires GlobalRun(o, states, steps) && n <= |steps| && AllPacked(Tables(before, [], []), states[0].sizes)
    ensures AllPacked(a, states[n].sizes) && TablesOf(o, steps, n, before, a)
  {
    if n == 0 {
      a := Tables(before, [], []);
    } else {
      a := TablesKept(o, states, steps, n - 1, before);
      var e := steps[n - 1];
      assert GlobalAllowed(o, states[n - 1], e, states[n]);
      var got, pltGot, second := Entry(e.got, EntryBytes(e.i.tlsType)), Entry(e.pltGot, o.nonLazySize), Entry(e.second, o.nonLazySize);
      AllPackedNext(a, states[n - 1].sizes, states[n].sizes, got, pltGot, second);
      a := Tables(a.got + [got], a.pltGot + [pltGot], a.second + [second]);
    }
  }

  /** Prepared symbols add only what is possible. */
  lemma {:induction false} PossibleStays(o: Options, states: seq<State>, steps: seq<GlobalStep>, n: nat, functionDesc: bool)
    requires GlobalRun(o, states, steps) && n <= |steps| && Possible(o, states[0].log, functionDesc)
    requires forall k :: 0 <= k < |steps| ==> Prepared(o, steps[k].i, steps[k].before, steps[k].pltRefcount)
    requires forall k :: 0 <= k < |steps| ==> IsFunctionDesc(steps[k].i) ==> functionDesc
    ensures Possible(o, states[n].log, functionDesc)
  {
    if n > 0 {
      PossibleStays(o, states, steps, n - 1, functionDesc);
      var s, e, r := states[n - 1], steps[n - 1], states[n];
      assert GlobalAllowed(o, s, e, r) && Prepared(o, e.i, e.before, e.pltRefcount);
      assert forall a :: a in r.log ==>
        a in s.log || (e.plt >= 0 && a == JumpSlot(!ResolvedToZero(o, e.i, e.before))) || (e.desc >= 0 && a == TlsDesc);
    }
  }

  /** Local symbols have no slots, and descriptors only if one of them has. */
  lemma {:induction false} LocalsPossible(states: seq<State>, steps: seq<LocalStep>, n: nat)
    requires LocalRun(states, steps) && n <= |steps| && states[0].log == []
    ensures JumpSlot(false) !in states[n].log
    ensures (forall k :: 0 <= k < |steps| && steps[k].refcount > 0 ==> !Gdesc(steps[k].tlsType)) ==> states[n].log == []
  {
    if n > 0 {
      LocalsPossible(states, steps, n - 1);
      assert LocalAllowed(states[n - 1], steps[n - 1], states[n]);
    }
  }

  // ---- the whole pass ----

  function LocalEntries(steps: seq<LocalStep>): seq<Entry> {
    seq(|steps|, k requires 0 <= k < |steps| => Entry(steps[k].got, EntryBytes(steps[k].tlsType)))
  }

  function GlobalEntries(steps: seq<GlobalStep>): seq<Entry> {
    seq(|steps|, k requires 0 <= k < |steps| => Entry(steps[k].got, EntryBytes(steps[k].i.tlsType)))
  }

  /** The entries of .got: those of local symbols, of the local-dynamic accesses, of global symbols, and of lazy descriptors. */
  function GotEntries(locals: seq<LocalStep>, tlsLd: int, globals: seq<GlobalStep>, tlsdesc: int): seq<Entry> {
    LocalEntries(locals) + [Entry(tlsLd, 16)] + GlobalEntries(globals) + [Entry(tlsdesc, 8)]
  }

  function PltGotEntries(o: Options, steps: seq<GlobalStep>): seq<Entry> {
    seq(|steps|, k requires 0 <= k < |steps| => Entry(steps[k].pltGot, o.nonLazySize))
  }

  function SecondPltEntries(o: Options, steps: seq<GlobalStep>): seq<Entry> {
    seq(|steps|, k requires 0 <= k < |steps| => Entry(steps[k].second, o.nonLazySize))
  }

  /** The offsets stored for .got.plt. */
  function StoredBy(locals: seq<LocalStep>, globals: seq<GlobalStep>): Stored {
    Stored(seq(|globals|, k requires 0 <= k < |globals| => globals[k].plt),
           seq(|globals|, k requires 0 <= k < |globals| => globals[k].desc),
           seq(|locals|, k requires 0 <= k < |locals| => locals[k].desc))
  }

  /** Local symbols, the entry of the local-dynamic accesses and global symbols, one after the other from empty sections. */
  predicate PassRun(o: Options, localStates: seq<State>, locals: seq<LocalStep>, tlsLd: int, states: seq<State>, globals: seq<GlobalStep>) {
    && LocalRun(localStates, locals) && GlobalRun(o, states, globals)
    && localStates[0].log == [] && localStates[0].sizes.sgot == localStates[0].sizes.pltGot == localStates[0].sizes.pltSecond == 0
    && states[0].log == localStates[|locals|].log && OtherPltsStay(localStates[|locals|].sizes, states[0].sizes)
    && Placed(Entry(tlsLd, 16), localStates[|locals|].sizes.sgot, states[0].sizes.sgot)
  }

  lemma PassAccounted(o: Options, localStates: seq<State>, locals: seq<LocalStep>, tlsLd: int, states: seq<State>, globals: seq<GlobalStep>)
    returns (owners: seq<Owner>)
    requires PassRun(o, localStates, locals, tlsLd, states, globals)
    ensures Accounts(states[|globals|].log, o, StoredBy(locals, globals), owners)
  {
    var x0, owners0, got0 := LocalsKept(o, localStates, locals, |locals|);
    var x, owners1 := GlobalsKept(o, states, globals, |globals|, x0, owners0);
    owners := owners1;
    assert x == StoredBy(locals, globals);
  }

  lemma TablesComplete(o: Options, steps: seq<GlobalStep>, before: seq<Entry>, a: Tables)
    requires TablesOf(o, steps, |steps|, before, a)
    ensures a == Tables(before + GlobalEntries(steps), PltGotEntries(o, steps), SecondPltEntries(o, steps))
  {
    assert a.got == before + GlobalEntries(steps);
    assert a.pltGot == PltGotEntries(o, steps);
    assert a.second == SecondPltEntries(o, steps);
  }

  /** .got, .plt.got and the second PLT have each byte in exactly one entry. */
  lemma PassTiled(o: Options, localStates: seq<State>, locals: seq<LocalStep>, tlsLd: int, states: seq<State>, globals: seq<GlobalStep>,
                  tlsdesc: int, sgot: nat)
    requires PassRun(o, localStates, locals, tlsLd, states, globals)
    requires Placed(Entry(tlsdesc, 8), states[|globals|].sizes.sgot, sgot)
    ensures Tiled(GotEntries(locals, tlsLd, globals, tlsdesc), sgot)
    ensures Tiled(PltGotEntries(o, globals), states[|globals|].sizes.pltGot)
    ensures Tiled(SecondPltEntries(o, globals), states[|globals|].sizes.pltSecond)
  {
    var x0, owners0, got0 := LocalsKept(o, localStates, locals, |locals|);
    assert got0 == LocalEntries(locals);
    PackedNext(got0, localStates[|locals|].sizes.sgot, Entry(tlsLd, 16));
    var a := TablesKept(o, states, globals, |globals|, got0 + [Entry(tlsLd, 16)]);
    TablesComplete(o, globals, got0 + [Entry(tlsLd, 16)], a);
    PackedNext(a.got, states[|globals|].sizes.sgot, Entry(tlsdesc, 8));
    PackedIsTiled(GotEntries(locals, tlsLd, globals, tlsdesc), sgot);
    PackedIsTiled(a.pltGot, states[|globals|].sizes.pltGot);
    PackedIsTiled(a.second, states[|globals|].sizes.pltSecond);
  }

  /** What earlier phases do to the symbols of a run. */
  predicate RunRuledOut(o: Options, locals: seq<LocalStep>, globals: seq<GlobalStep>) {
    && (forall k :: 0 <= k < |globals| ==> Prepared(o, globals[k].i, globals[k].before, globals[k].pltRefcount))
    && (o.executable && o.pic ==> forall k :: 0 <= k < |globals| ==> !IsFunctionDesc(globals[k].i))
    && (o.executable ==> forall k :: 0 <= k < |locals| && locals[k].refcount > 0 ==> !Gdesc(locals[k].tlsType))
  }

  /** It rules out an uncounted slot after a descriptor. */
  lemma RuledOutIsSafe(o: Options, localStates: seq<State>, locals: seq<LocalStep>, tlsLd: int, states: seq<State>, globals: seq<GlobalStep>)
    requires PassRun(o, localStates, locals, tlsLd, states, globals) && RunRuledOut(o, locals, globals)
    ensures NoLateZero(states[|globals|].log)
  {
    var f := exists k :: 0 <= k < |globals| && IsFunctionDesc(globals[k].i);
    LocalsPossible(localStates, locals, |locals|);
    PossibleStays(o, states, globals, |globals|, f);
    PossibleIsSafe(o, states[|globals|].log, f);
  }
}
