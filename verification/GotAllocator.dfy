/** The allocating code itself (elf64-x86-64, `elf_x86_64_allocate_dynrelocs` up to the GOT entries, and the
    local symbols and final sizes of `elf_x86_64_size_dynamic_sections`), for symbols that are not IFUNC. */
module GotAllocator {
  import opened GotLayout
  import opened TlsAccess
  import opened GotSection

  const GOT_ENTRY_SIZE: nat := 8
  const RELA_SIZE: nat := 24

  /** What the linker has decided about the output. */
  datatype Options = Options(pic: bool, executable: bool, dynamicSections: bool, interp: bool,
                             dynamicUndefinedWeak: bool, pltGotSection: bool, secondPlt: bool, plt0: bool, widePlt: bool,
                             nonLazySize: nat)
  {
    function PltEntrySize(): nat { if widePlt then 16 else 8 }

    /** The room for the special first entry of .plt. */
    function Plt0Size(): nat { if plt0 then PltEntrySize() else 0 }
  }

  /** What is known of a global symbol before its entries are allocated. */
  datatype Info = Info(undefWeak: bool, isFunc: bool, pointerEqualityNeeded: bool, hasGotReloc: bool,
                       hasNonGotReloc: bool, defaultVisibility: bool, tlsType: bv8)

  /** The dynamic-symbol state: an index (-1: none), or forced local. */
  datatype Dynamic = Dynamic(index: int, forcedLocal: bool)

  /** A global symbol. In the source `plt.refcount` and `plt.offset`, and `got` likewise, share storage. */
  class Symbol {
    const info: Info
    var pltRefcount: int
    var gotRefcount: int
    var funcPointerRefcount: int
    var pltGotRefcount: int
    var pltOffset: int
    var pltGotOffset: int
    var pltSecondOffset: int
    var gotOffset: int
    var tlsdescGot: int
    var dyn: Dynamic
    var needsPlt: bool

    constructor (info: Info, plt: int, got: int, funcPointers: int, dyn: Dynamic)
      ensures this.info == info && this.dyn == dyn
      ensures pltRefcount == plt && gotRefcount == got && funcPointerRefcount == funcPointers && pltGotRefcount == 0
      ensures pltOffset == pltGotOffset == pltSecondOffset == gotOffset == tlsdescGot == -1 && (needsPlt <==> plt > 0)
    {
      this.info, this.dyn := info, dyn;
      pltRefcount, gotRefcount, funcPointerRefcount, pltGotRefcount := plt, got, funcPointers, 0;
      pltOffset, pltGotOffset, pltSecondOffset, gotOffset, tlsdescGot, needsPlt := -1, -1, -1, -1, -1, plt > 0;
    }
  }

  /** The sizes of the linker-created sections, and the relocation count of .rela.plt. */
  datatype Sizes = Sizes(splt: nat, sgotplt: nat, sgot: nat, pltGot: nat, pltSecond: nat, srelplt: nat, srelgot: nat,
                         relocCount: nat, needsTlsdescPlt: bool)

  /** Where the PLT entry begins that has `slots` others before it: entries take 16 bytes in the lazy and IBT layouts and 8
      in the non-lazy one. */
  function PltOffset(o: Options, slots: nat): nat {
    var n := if o.plt0 then slots + 1 else slots;
    if o.widePlt then 16 * n else 8 * n
  }

  /** The sizes are those of the allocations in `log`: GOT entries take 8 bytes, relocations 24. */
  ghost predicate SizesOf(log: seq<Alloc>, s: Sizes, o: Options) {
    var n := |log|;
    && s.sgotplt == 8 * Entries(log, n)
    && s.relocCount == Counted(log, n)
    && s.srelplt == 24 * (Counted(log, n) + Descs(log, n))
    && (s.needsTlsdescPlt <==> Descs(log, n) > 0)
    && (s.splt == PltOffset(o, Slots(log, n)) || (s.splt == 0 && Slots(log, n) == 0))
  }

  /** An undefined weak symbol that the executable resolves to zero. */
  predicate ResolvedToZero(o: Options, i: Info, d: Dynamic) {
    i.undefWeak
    && (d.forcedLocal
        || (o.executable && (!o.interp || !i.hasGotReloc || i.hasNonGotReloc || !o.dynamicUndefinedWeak)))
  }

  /** Both GOT and PLT references: the symbol goes through .plt.got and needs no jump slot. */
  predicate UsesPltGot(o: Options, i: Info, pltRefcount: int, gotRefcount: int) {
    o.pltGotSection && !i.pointerEqualityNeeded && pltRefcount > 0 && gotRefcount > 0
  }

  /** The references call for a PLT entry: there are more than function pointers, which the loader can fill in, or the
      entry is one of .plt.got. */
  predicate WantsPlt(o: Options, i: Info, pltRefcount: int, gotRefcount: int, funcPointerRefcount: int) {
    o.dynamicSections
    && (UsesPltGot(o, i, pltRefcount, gotRefcount) || pltRefcount > if i.isFunc then funcPointerRefcount else 0)
  }

  /** Whether a symbol of this state is given PLT entries. */
  predicate FinishedDynamically(o: Options, d: Dynamic) {
    o.pic || (!d.forcedLocal && d.index != -1)
  }

  /** No references, or an initial-exec access (3) that becomes local to the executable. */
  predicate NeedsNoGot(o: Options, i: Info, d: Dynamic, gotRefcount: int) {
    gotRefcount <= 0 || (o.executable && d.index == -1 && i.tlsType == 3)
  }

  /** The relocations in .rela.got for a global symbol's GOT entries: one for initial exec (3); for general dynamic (2, 6)
      one if the symbol is local and two if not; none for a descriptor (4); and for any other access one if the value is
      not known before the program is loaded. */
  function GotRelocs(o: Options, i: Info, d: Dynamic, zero: bool): nat {
    if i.tlsType == 3 then 1
    else if i.tlsType == 2 || i.tlsType == 6 then (if d.index == -1 then 1 else 2)
    else if i.tlsType == 4 || (i.undefWeak && (zero || !i.defaultVisibility)) then 0
    else if o.pic then 1
    else if o.dynamicSections && !d.forcedLocal && d.index != -1 then 1
    else 0
  }

  /** `bfd_elf_link_record_dynamic_symbol`: it may fail, or give the symbol an index or hide it. */
  datatype Recording = Fails | Becomes(dyn: Dynamic)

  /** Makes an undefined weak symbol dynamic if it is not yet. */
  function RecordDynamic(i: Info, d: Dynamic, zero: bool, rec: Recording): Recording {
    if d.index == -1 && !d.forcedLocal && !zero && i.undefWeak then rec else Becomes(d)
  }

  /** What the symbol becomes if it is `needed`: it is recorded if it is undefined weak, undecided and not resolved to zero. */
  ghost predicate MadeDynamic(i: Info, before: Dynamic, zero: bool, needed: bool, rec: Recording, ok: bool, after: Dynamic) {
    if needed && i.undefWeak && !zero && before.index == -1 && !before.forcedLocal
    then (ok <==> rec.Becomes?) && (ok ==> after == rec.dyn)
    else ok && after == before
  }

  /** .plt.got and the second PLT are as large as before. */
  predicate OtherPltsStay(before: Sizes, after: Sizes) {
    after.pltGot == before.pltGot && after.pltSecond == before.pltSecond
  }

  /** An entry of `bytes` at the end of a section, or none and the offset `other`. */
  predicate EntryReserved(given: bool, other: int, offset: int, sizeBefore: nat, sizeAfter: nat, bytes: nat) {
    if given then offset == sizeBefore && sizeAfter == sizeBefore + bytes else offset == other && sizeAfter == sizeBefore
  }

  /** The offset that is noted for a descriptor when it is allocation `e`. */
  function DescOffset(log: seq<Alloc>, e: nat): int
    requires e <= |log|
  {
    8 * (Entries(log, e) - Counted(log, e))
  }

  lemma {:induction false} DescsCounted(log: seq<Alloc>, n: nat)
    requires n <= |log|
    ensures Descs(log, n) > 0 <==> TlsDesc in log[..n]
  {
    if n > 0 {
      DescsCounted(log, n - 1);
      assert log[..n] == log[..n - 1] + [log[n - 1]];
    }
  }

  /** One more jump slot: what the sizes become. */
  lemma SlotSizes(log: seq<Alloc>, s: Sizes, o: Options, zero: bool, r: Sizes)
    requires SizesOf(log, s, o)
    requires r.splt == (if s.splt == 0 then o.Plt0Size() else s.splt) + o.PltEntrySize()
    requires r.sgotplt == s.sgotplt + 8 && r.needsTlsdescPlt == s.needsTlsdescPlt
    requires r.srelplt == s.srelplt + (if zero then 0 else 24) && r.relocCount == s.relocCount + if zero then 0 else 1
    ensures SizesOf(log + [JumpSlot(!zero)], r, o)
    ensures (if s.splt == 0 then o.Plt0Size() else s.splt) == PltOffset(o, Slots(log, |log|))
  {
    CountsStay(log, [JumpSlot(!zero)], |log|);
  }

  class LinkTable {
    const options: Options
    var sizes: Sizes
    var jumpTableSize: nat
    ghost var log: seq<Alloc>

    ghost predicate Valid()
      reads this
    {
      SizesOf(log, sizes, options)
    }

    /** Before anything is allocated: .got.plt has its header of 24 bytes. */
    constructor (options: Options)
      ensures Valid() && this.options == options && log == []
      ensures jumpTableSize == 0 && sizes.sgotplt == 24 && sizes.sgot == sizes.srelgot == sizes.pltGot == sizes.pltSecond == 0
    {
      this.options := options;
      sizes := Sizes(0, 3 * GOT_ENTRY_SIZE, 0, 0, 0, 0, 0, 0, false);
      jumpTableSize := 0;
      log := [];
    }

    /** Room for a PLT entry with its jump slot and, unless the symbol is resolved to zero, its relocation. */
    method ReserveSlot(zero: bool) returns (pltOffset: int, secondOffset: int)
      requires Valid()
      modifies this`sizes, this`log
      ensures Valid() && log == old(log) + [JumpSlot(!zero)]
      ensures pltOffset == PltOffset(options, Slots(old(log), |old(log)|))
      ensures secondOffset == old(sizes.pltSecond)
      ensures sizes.pltSecond == old(sizes.pltSecond) + if options.secondPlt then options.nonLazySize else 0
      ensures sizes.sgot == old(sizes.sgot) && sizes.srelgot == old(sizes.srelgot) && sizes.pltGot == old(sizes.pltGot)
    {
      ghost var before := sizes;
      var s := sizes;
      if s.splt == 0 {
        s := s.(splt := options.Plt0Size());
      }
      pltOffset, secondOffset := s.splt, s.pltSecond;
      s := s.(splt := s.splt + options.PltEntrySize(), sgotplt := s.sgotplt + GOT_ENTRY_SIZE);
      if options.secondPlt {
        s := s.(pltSecond := s.pltSecond + options.nonLazySize);
      }
      if !zero {
        s := s.(srelplt := s.srelplt + RELA_SIZE, relocCount := s.relocCount + 1);
      }
      SlotSizes(log, before, options, zero, s);
      sizes := s;
      log := log + [JumpSlot(!zero)];
    }

    /** Room for an entry of .plt.got. */
    method ReservePltGot() returns (offset: int)
      requires Valid()
      modifies this`sizes
      ensures Valid() && offset == old(sizes.pltGot) && sizes.pltGot == old(sizes.pltGot) + options.nonLazySize
      ensures sizes.splt == PltOffset(options, Slots(log, |log|))
      ensures sizes.sgot == old(sizes.sgot) && sizes.srelgot == old(sizes.srelgot) && sizes.pltSecond == old(sizes.pltSecond)
    {
      offset := sizes.pltGot;
      sizes := sizes.(splt := if sizes.splt == 0 then options.Plt0Size() else sizes.splt,
                      pltGot := sizes.pltGot + options.nonLazySize);
    }

    /** Room for a TLS descriptor and its relocation; its offset is noted relative to the jump table so far. */
    method ReserveDesc() returns (tlsdescGot: int)
      requires Valid()
      modifies this`sizes, this`log
      ensures Valid() && log == old(log) + [TlsDesc]
      ensures tlsdescGot == DescOffset(old(log), |old(log)|)
      ensures sizes.sgot == old(sizes.sgot) && sizes.srelgot == old(sizes.srelgot) && OtherPltsStay(old(sizes), sizes)
    {
      CountsStay(log, [TlsDesc], |log|);
      tlsdescGot := sizes.sgotplt - sizes.relocCount * GOT_ENTRY_SIZE;
      sizes := sizes.(sgotplt := sizes.sgotplt + 2 * GOT_ENTRY_SIZE, srelplt := sizes.srelplt + RELA_SIZE,
                      needsTlsdescPlt := true);
      log := log + [TlsDesc];
    }

    /** One GOT entry, or two for the general dynamic model, and the relocations for them. */
    method ReserveGot(tlsType: bv8, relocs: nat) returns (offset: int)
      requires Valid()
      modifies this`sizes
      ensures Valid() && offset == old(sizes.sgot)
      ensures sizes.sgot == old(sizes.sgot) + EntryBytes(tlsType)
      ensures sizes.srelgot == old(sizes.srelgot) + 24 * relocs && OtherPltsStay(old(sizes), sizes)
    {
      offset := sizes.sgot;
      sizes := sizes.(sgot := sizes.sgot + GOT_ENTRY_SIZE, srelgot := sizes.srelgot + relocs * RELA_SIZE);
      if Gd(tlsType) {
        sizes := sizes.(sgot := sizes.sgot + GOT_ENTRY_SIZE);
      }
    }

    /** A PLT entry in .plt or, for `viaGot`, in .plt.got. */
    method EnterPlt(h: Symbol, zero: bool, viaGot: bool) returns (ghost slot: bool)
      requires Valid()
      modifies this`sizes, this`log, h`pltOffset, h`pltGotOffset, h`pltSecondOffset
      ensures Valid() && slot == !viaGot
      ensures log == old(log) + if slot then [JumpSlot(!zero)] else []
      ensures sizes.splt == PltOffset(options, Slots(log, |log|))
      ensures slot ==> h.pltOffset == PltOffset(options, Slots(old(log), |old(log)|))
      ensures h.pltSecondOffset == (if slot && options.secondPlt then old(sizes.pltSecond) else old(h.pltSecondOffset))
      ensures h.pltGotOffset == if slot then old(h.pltGotOffset) else old(sizes.pltGot)
      ensures !slot ==> h.pltOffset == old(h.pltOffset)
      ensures sizes.pltGot == old(sizes.pltGot) + if slot then 0 else options.nonLazySize
      ensures sizes.pltSecond == old(sizes.pltSecond) + if slot && options.secondPlt then options.nonLazySize else 0
      ensures sizes.sgot == old(sizes.sgot) && sizes.srelgot == old(sizes.srelgot)
    {
      if viaGot {
        h.pltGotOffset := ReservePltGot();
      } else {
        var second;
        h.pltOffset, second := ReserveSlot(zero);
        if options.secondPlt {
          h.pltSecondOffset := second;
        }
      }
      slot := !viaGot;
    }

    /** The reference counts as the choice of a PLT entry uses them: for .plt.got, and function pointers of functions only. */
    method AdjustRefcounts(h: Symbol)
      requires h.pltGotRefcount <= 0
      modifies h`pltOffset, h`pltRefcount, h`pltGotRefcount, h`funcPointerRefcount
      ensures if UsesPltGot(options, h.info, old(h.pltRefcount), h.gotRefcount)
        then h.pltRefcount == h.pltOffset == -1 && h.pltGotRefcount == 1
        else h.pltRefcount == old(h.pltRefcount) && h.pltOffset == old(h.pltOffset) && h.pltGotRefcount == old(h.pltGotRefcount)
      ensures h.funcPointerRefcount == if h.info.isFunc then old(h.funcPointerRefcount) else 0
      ensures options.dynamicSections && (h.pltRefcount > h.funcPointerRefcount || h.pltGotRefcount > 0) <==>
        WantsPlt(options, h.info, old(h.pltRefcount), h.gotRefcount, old(h.funcPointerRefcount))
    {
      if options.pltGotSection && !h.info.pointerEqualityNeeded && h.gotRefcount > 0 && h.pltRefcount > 0 {
        h.pltOffset, h.pltRefcount, h.pltGotRefcount := -1, -1, 1;
      }
      if !h.info.isFunc {
        h.funcPointerRefcount := 0;
      }
    }

    /** The PLT entry of a global symbol and the .got.plt jump slot that comes with it. */
    method AllocatePlt(h: Symbol, zero: bool, rec: Recording) returns (ok: bool, ghost slot: bool)
      requires Valid() && h.pltGotRefcount <= 0
      modifies this`sizes, this`log, h
      ensures Valid() && (!ok ==> !slot)
      ensures MadeDynamic(h.info, old(h.dyn), zero,
        WantsPlt(options, h.info, old(h.pltRefcount), h.gotRefcount, old(h.funcPointerRefcount)), rec, ok, h.dyn)
      ensures ok ==> (slot <==>
        && WantsPlt(options, h.info, old(h.pltRefcount), h.gotRefcount, old(h.funcPointerRefcount))
        && !UsesPltGot(options, h.info, old(h.pltRefcount), h.gotRefcount)
        && FinishedDynamically(options, h.dyn))
      ensures log == old(log) + if slot then [JumpSlot(!zero)] else []
      ensures ok && slot ==> h.pltOffset == PltOffset(options, Slots(old(log), |old(log)|))
      ensures ok && !slot ==> h.pltOffset == -1
      ensures ok ==> (h.funcPointerRefcount ==
        if h.info.isFunc && !WantsPlt(options, h.info, old(h.pltRefcount), h.gotRefcount, old(h.funcPointerRefcount))
        then old(h.funcPointerRefcount) else 0)
      ensures ok ==>
        if WantsPlt(options, h.info, old(h.pltRefcount), h.gotRefcount, old(h.funcPointerRefcount)) && FinishedDynamically(options, h.dyn)
        then h.needsPlt == old(h.needsPlt) && sizes.splt == PltOffset(options, Slots(log, |log|))
        else !h.needsPlt && sizes.splt == old(sizes.splt)
      ensures ok ==> EntryReserved(slot && options.secondPlt, old(h.pltSecondOffset), h.pltSecondOffset,
                                   old(sizes.pltSecond), sizes.pltSecond, options.nonLazySize)
      ensures ok ==> EntryReserved(
        UsesPltGot(options, h.info, old(h.pltRefcount), h.gotRefcount) && options.dynamicSections
        && FinishedDynamically(options, h.dyn),
        if slot then old(h.pltGotOffset) else -1, h.pltGotOffset, old(sizes.pltGot), sizes.pltGot, options.nonLazySize)
      ensures h.gotRefcount == old(h.gotRefcount) && sizes.sgot == old(sizes.sgot) && sizes.srelgot == old(sizes.srelgot)
    {
      slot, ok := false, true;
      AdjustRefcounts(h);
      if options.dynamicSections && (h.pltRefcount > h.funcPointerRefcount || h.pltGotRefcount > 0) {
        h.funcPointerRefcount := 0;
        var r := RecordDynamic(h.info, h.dyn, zero, rec);
        if r.Fails? {
          return false, false;
        }
        h.dyn := r.dyn;
        if options.pic || (!h.dyn.forcedLocal && h.dyn.index != -1) {
          slot := EnterPlt(h, zero, h.pltGotRefcount > 0);
          return;
        }
      }
      h.pltGotOffset, h.pltOffset, h.needsPlt := -1, -1, false;
    }

    /** The relocations for the entries of a symbol that has some in .got. */
    method CountGotRelocs(h: Symbol, zero: bool) returns (relocs: nat)
      ensures relocs == GotRelocs(options, h.info, h.dyn, zero)
    {
      var t := h.info.tlsType;
      if (Gd(t) && h.dyn.index == -1) || t == GOT_TLS_IE {
        return 1;
      }
      if Gd(t) {
        return 2;
      }
      if !Gdesc(t) && ((h.info.defaultVisibility && !zero) || !h.info.undefWeak)
        && (options.pic || (options.dynamicSections && !h.dyn.forcedLocal && h.dyn.index != -1)) {
        return 1;
      }
      return 0;
    }

    /** The GOT entries of a global symbol, TLS descriptors included. */
    method AllocateGot(h: Symbol, zero: bool, rec: Recording) returns (ok: bool, ghost desc: bool)
      requires Valid()
      modifies this`sizes, this`log, h
      ensures Valid() && (!ok ==> !desc)
      ensures MadeDynamic(h.info, old(h.dyn), zero, !NeedsNoGot(options, h.info, old(h.dyn), h.gotRefcount), rec, ok, h.dyn)
      ensures ok ==> (desc <==> h.gotRefcount > 0 && (h.info.tlsType == 4 || h.info.tlsType == 6))
      ensures log == old(log) + if desc then [TlsDesc] else []
      ensures h.tlsdescGot == if desc then DescOffset(old(log), |old(log)|) else -1
      ensures ok ==> (h.gotOffset ==
        if NeedsNoGot(options, h.info, old(h.dyn), h.gotRefcount) then -1
        else if h.info.tlsType == 4 then -2 else old(sizes.sgot))
      ensures ok ==> (sizes.sgot == old(sizes.sgot) + if h.gotOffset >= 0 then EntryBytes(h.info.tlsType) else 0)
      ensures ok ==> (sizes.srelgot == old(sizes.srelgot) +
        if h.gotOffset >= 0 then 24 * GotRelocs(options, h.info, h.dyn, zero) else 0)
      ensures h.gotRefcount == old(h.gotRefcount) && h.pltOffset == old(h.pltOffset) && OtherPltsStay(old(sizes), sizes)
      ensures h.pltGotOffset == old(h.pltGotOffset) && h.pltSecondOffset == old(h.pltSecondOffset)
    {
      var t := h.info.tlsType;
      ok, desc := true, false;
      h.tlsdescGot := -1;
      if h.gotRefcount <= 0 || (options.executable && h.dyn.index == -1 && t == GOT_TLS_IE) {
        h.gotOffset := -1;
        return;
      }
      var r := RecordDynamic(h.info, h.dyn, zero, rec);
      if r.Fails? {
        return false, false;
      }
      h.dyn := r.dyn;
      if Gdesc(t) {
        h.tlsdescGot := ReserveDesc();
        h.gotOffset := -2;
        desc := true;
      }
      if !Gdesc(t) || Gd(t) {
        var relocs := CountGotRelocs(h, zero);
        h.gotOffset := ReserveGot(t, relocs);
      }
    }

    /** A local symbol's GOT entries: the new refcount-or-offset word and the descriptor offset. */
    method AllocateLocalGot(refcount: int, tlsType: bv8) returns (offset: int, tlsdescGotent: int)
      requires Valid()
      modifies this`sizes, this`log
      ensures Valid()
      ensures log == old(log) + if refcount > 0 && (tlsType == 4 || tlsType == 6) then [TlsDesc] else []
      ensures tlsdescGotent == if refcount > 0 && (tlsType == 4 || tlsType == 6) then DescOffset(old(log), |old(log)|) else -1
      ensures offset == if refcount <= 0 then -1 else if tlsType == 4 then -2 else old(sizes.sgot)
      ensures sizes.sgot == old(sizes.sgot) + if offset >= 0 then EntryBytes(tlsType) else 0
      ensures sizes.srelgot == old(sizes.srelgot) +
        if offset >= 0 && (options.pic || tlsType == 2 || tlsType == 3 || tlsType == 6) then 24 else 0
      ensures OtherPltsStay(old(sizes), sizes)
    {
      tlsdescGotent := -1;
      offset := -1;
      if refcount > 0 {
        if Gdesc(tlsType) {
          tlsdescGotent := ReserveDesc();
          offset := -2;
        }
        if !Gdesc(tlsType) || Gd(tlsType) {
          offset := ReserveGot(tlsType, if options.pic || Gd(tlsType) || tlsType == GOT_TLS_IE then 1 else 0);
        }
      }
    }

    /** The two entries and the relocation that all local-dynamic accesses share, if there are any. */
    method AllocateModuleGot(refcount: int) returns (offset: int)
      requires Valid()
      modifies this`sizes
      ensures Valid() && offset == if refcount > 0 then old(sizes.sgot) else -1
      ensures sizes.sgot == old(sizes.sgot) + if refcount > 0 then 16 else 0
      ensures sizes.srelgot == old(sizes.srelgot) + (if refcount > 0 then 24 else 0) && OtherPltsStay(old(sizes), sizes)
    {
      offset := -1;
      if refcount > 0 {
        offset := sizes.sgot;
        sizes := sizes.(sgot := sizes.sgot + 2 * GOT_ENTRY_SIZE, srelgot := sizes.srelgot + RELA_SIZE);
      }
    }

    /** The PLT entry through which lazy TLS descriptors are resolved, and its GOT entry: needed if there is a descriptor
        and relocations may be lazy. It comes after the PLT entries of all jump slots and after the special first entry. */
    method ReserveTlsdescPlt(bindNow: bool) returns (gotOffset: int, pltOffset: int)
      requires Valid()
      modifies this`sizes
      ensures (gotOffset >= 0) == (pltOffset >= 0) == (TlsDesc in log && !bindNow)
      ensures gotOffset >= 0 ==> gotOffset == old(sizes.sgot) && sizes.sgot == old(sizes.sgot) + 8
      ensures gotOffset >= 0 ==> PltOffset(options, Slots(log, |log|)) <= pltOffset && PltOffset(options, 0) <= pltOffset
      ensures gotOffset >= 0 ==> (sizes.splt == pltOffset + if options.widePlt then 16 else 8)
      ensures gotOffset < 0 ==> gotOffset == pltOffset == -1 && sizes.sgot == old(sizes.sgot) && sizes.splt == old(sizes.splt)
      ensures sizes.sgotplt == old(sizes.sgotplt) && OtherPltsStay(old(sizes), sizes)
    {
      gotOffset, pltOffset := -1, -1;
      DescsCounted(log, |log|);
      if sizes.needsTlsdescPlt && !bindNow {
        gotOffset := sizes.sgot;
        sizes := sizes.(sgot := sizes.sgot + GOT_ENTRY_SIZE);
        if sizes.splt == 0 {
          sizes := sizes.(splt := options.PltEntrySize());
        }
        pltOffset := sizes.splt;
        sizes := sizes.(splt := sizes.splt + options.PltEntrySize());
      }
    }

    /** The jump table size, fixed once everything has been allocated. */
    method FixJumpTable()
      requires Valid()
      modifies this`jumpTableSize
      ensures Valid() && jumpTableSize == 8 * Counted(log, |log|)
    {
      jumpTableSize := sizes.relocCount * GOT_ENTRY_SIZE;
    }
  }

  /** Where the relocation pass finds the jump slot of a PLT entry. */
  function JumpSlotOffset(o: Options, pltOffset: nat): int {
    (pltOffset / o.PltEntrySize() - (if o.plt0 then 1 else 0) + 3) * GOT_ENTRY_SIZE
  }

  /** The address computed for a PLT entry is the position of its jump slot. */
  lemma SlotIsWhereComputed(o: Options, log: seq<Alloc>, e: nat, pltOffset: nat)
    requires e < |log| && log[e].JumpSlot? && pltOffset == PltOffset(o, Slots(log, e))
    ensures JumpSlotOffset(o, pltOffset) == 8 * Position(log, e)
  {}

  /** The address computed for a descriptor, its offset plus the final jump table, is its position, and the
      assertion of the relocation pass holds. */
  lemma DescIsWhereComputed(log: seq<Alloc>, e: nat, tlsdescGot: int, jumpTableSize: nat)
    requires e < |log| && log[e].TlsDesc?
    requires tlsdescGot == DescOffset(log, e)
    requires jumpTableSize == 8 * Counted(log, |log|)
    ensures jumpTableSize + tlsdescGot == 8 * Position(log, e)
    ensures jumpTableSize + tlsdescGot + 16 <= 8 * Entries(log, |log|)
  {
    AllocationsFit(log, e);
  }
}
