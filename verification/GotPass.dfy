/** A whole allocation pass (elf64-x86-64, the GOT part of `elf_x86_64_size_dynamic_sections`): local symbols, the entry of
    the local-dynamic accesses, global symbols, the jump table, and the entry for lazy descriptors. */
module GotPass {
  import opened GotLayout
  import opened TlsAccess
  import opened GotSection
  import opened GotAllocator
  import opened GotAccounts

  /** The loop over local symbols: reference counts become offsets. */
  method AllocateLocals(t: LinkTable, localGot: array<int>, localTls: seq<bv8>, localDesc: array<int>)
    returns (ghost states: seq<State>, ghost steps: seq<LocalStep>)
    requires t.Valid() && localGot != localDesc && localGot.Length == |localTls| == localDesc.Length
    modifies t`sizes, t`log, localGot, localDesc
    ensures t.Valid() && |steps| == |localTls| && LocalRun(states, steps)
    ensures states[0] == State(old(t.log), old(t.sizes)) && states[|steps|] == State(t.log, t.sizes)
    ensures forall k :: 0 <= k < |steps| ==> steps[k] == LocalStep(old(localGot[k]), localTls[k], localGot[k], localDesc[k])
  {
    states, steps := [State(t.log, t.sizes)], [];
    for i := 0 to localGot.Length
      invariant t.Valid() && |steps| == i && LocalRun(states, steps)
      invariant states[0] == State(old(t.log), old(t.sizes)) && states[i] == State(t.log, t.sizes)
      invariant forall j :: i <= j < localGot.Length ==> localGot[j] == old(localGot[j])
      invariant forall j :: 0 <= j < i ==> steps[j] == LocalStep(old(localGot[j]), localTls[j], localGot[j], localDesc[j])
    {
      ghost var s, refcount := State(t.log, t.sizes), localGot[i];
      localGot[i], localDesc[i] := t.AllocateLocalGot(localGot[i], localTls[i]);
      ghost var e, r := LocalStep(refcount, localTls[i], localGot[i], localDesc[i]), State(t.log, t.sizes);
      assert LocalAllowed(s, e, r);
      states, steps := states + [r], steps + [e];
    }
  }

  /** A global symbol before its allocation. */
  predicate Untouched(h: Symbol)
    reads h
  {
    h.pltGotRefcount <= 0 && h.funcPointerRefcount >= 0 && h.pltGotOffset == -1 && h.pltSecondOffset == -1
  }

  /** Whether a symbol, as the pass leaves it, has entries in .got. */
  predicate HasGot(o: Options, h: Symbol)
    reads h
  {
    h.gotRefcount > 0 && h.info.tlsType != 4 && !(o.executable && h.dyn.index == -1 && h.info.tlsType == 3)
  }

  /** The offsets stored in a symbol are those of the step. */
  predicate Shows(o: Options, h: Symbol, e: GlobalStep)
    reads h
  {
    && e.i == h.info && e.plt == h.pltOffset && e.desc == h.tlsdescGot && e.got == h.gotOffset
    && e.pltGot == h.pltGotOffset && e.second == h.pltSecondOffset
    && (h.gotOffset >= 0 <==> HasGot(o, h))
  }

  /** elf_x86_64_allocate_dynrelocs for one symbol, up to its GOT entries. */
  method AllocateGlobal(t: LinkTable, h: Symbol, recPlt: Recording, recGot: Recording) returns (ok: bool, ghost e: GlobalStep)
    requires t.Valid() && Untouched(h)
    modifies t`sizes, t`log, h
    ensures t.Valid() && e.before == old(h.dyn) && e.pltRefcount == old(h.pltRefcount)
    ensures ok ==> Shows(t.options, h, e)
    ensures ok ==> GlobalAllowed(t.options, State(old(t.log), old(t.sizes)), e, State(t.log, t.sizes))
  {
    e := GlobalStep(h.info, h.dyn, h.pltRefcount, -1, -1, -1, -1, -1);
    var zero := h.info.undefWeak
      && (h.dyn.forcedLocal
          || (t.options.executable
              && (!t.options.interp || !t.options.dynamicUndefinedWeak || h.info.hasNonGotReloc || !h.info.hasGotReloc)));
    ghost var slot, desc;
    ok, slot := t.AllocatePlt(h, zero, recPlt);
    if !ok {
      return;
    }
    DescOffsetPositive(t.log, |t.log|);
    ok, desc := t.AllocateGot(h, zero, recGot);
    if !ok {
      return;
    }
    e := e.(plt := h.pltOffset, pltGot := h.pltGotOffset, second := h.pltSecondOffset, got := h.gotOffset, desc := h.tlsdescGot);
  }

  /** Global symbols as they come to the pass. */
  ghost predicate Fresh(symbols: seq<Symbol>)
    reads symbols
  {
    && (forall j, k :: 0 <= j < k < |symbols| ==> symbols[j] != symbols[k])
    && (forall k :: 0 <= k < |symbols| ==> Untouched(symbols[k]))
  }

  /** The traversal of the global symbols. */
  method AllocateGlobals(t: LinkTable, symbols: seq<Symbol>, recs: seq<(Recording, Recording)>)
    returns (ok: bool, ghost states: seq<State>, ghost steps: seq<GlobalStep>)
    requires t.Valid() && Fresh(symbols) && |recs| == |symbols|
    modifies t`sizes, t`log, symbols
    ensures t.Valid()
    ensures ok ==> |steps| == |symbols| && GlobalRun(t.options, states, steps)
    ensures ok ==> states[0] == State(old(t.log), old(t.sizes)) && states[|steps|] == State(t.log, t.sizes)
    ensures ok ==> forall k :: 0 <= k < |symbols| ==> Shows(t.options, symbols[k], steps[k])
    ensures ok ==> forall k :: 0 <= k < |symbols| ==>
      steps[k].before == old(symbols[k].dyn) && steps[k].pltRefcount == old(symbols[k].pltRefcount)
  {
    ok, states, steps := true, [State(t.log, t.sizes)], [];
    for n := 0 to |symbols|
      invariant ok && t.Valid() && |steps| == n && GlobalRun(t.options, states, steps)
      invariant states[0] == State(old(t.log), old(t.sizes)) && states[n] == State(t.log, t.sizes)
      invariant forall k :: n <= k < |symbols| ==> unchanged(symbols[k])
      invariant forall k :: 0 <= k < n ==> Shows(t.options, symbols[k], steps[k])
      invariant forall k :: 0 <= k < n ==>
        steps[k].before == old(symbols[k].dyn) && steps[k].pltRefcount == old(symbols[k].pltRefcount)
    {
      ghost var e;
      ok, e := AllocateGlobal(t, symbols[n], recs[n].0, recs[n].1);
      if !ok {
        return;
      }
      states, steps := states + [State(t.log, t.sizes)], steps + [e];
    }
  }

  /** The counts and the offsets stored for local symbols are those of the steps. */
  predicate ShowsLocals(refcounts: seq<int>, localTls: seq<bv8>, localGot: seq<int>, localDesc: seq<int>, steps: seq<LocalStep>) {
    && |refcounts| == |localTls| == |localGot| == |localDesc| == |steps|
    && (forall k :: 0 <= k < |steps| ==> steps[k] == LocalStep(refcounts[k], localTls[k], localGot[k], localDesc[k]))
    && (forall k :: 0 <= k < |steps| ==> (localGot[k] >= 0 <==> refcounts[k] > 0 && localTls[k] != 4))
  }

  lemma RunShowsLocals(states: seq<State>, refcounts: seq<int>, localTls: seq<bv8>, localGot: seq<int>, localDesc: seq<int>,
                       steps: seq<LocalStep>)
    requires LocalRun(states, steps) && |refcounts| == |localTls| == |localGot| == |localDesc| == |steps|
    requires forall k :: 0 <= k < |steps| ==> steps[k] == LocalStep(refcounts[k], localTls[k], localGot[k], localDesc[k])
    ensures ShowsLocals(refcounts, localTls, localGot, localDesc, steps)
  {
    forall k | 0 <= k < |steps|
      ensures localGot[k] >= 0 <==> refcounts[k] > 0 && localTls[k] != 4
    {
      assert LocalAllowed(states[k], steps[k], states[k + 1]);
    }
  }

  /** The pass up to the jump table, and its run. */
  method RunPass(t: LinkTable, localGot: array<int>, localTls: seq<bv8>, localDesc: array<int>, tlsLdRefcount: int,
                 symbols: seq<Symbol>, recs: seq<(Recording, Recording)>)
    returns (ok: bool, tlsLd: int, ghost localStates: seq<State>, ghost locals: seq<LocalStep>,
             ghost states: seq<State>, ghost globals: seq<GlobalStep>)
    requires t.Valid() && t.log == [] && t.sizes.sgot == t.sizes.pltGot == t.sizes.pltSecond == 0
    requires localGot != localDesc && localGot.Length == |localTls| == localDesc.Length
    requires Fresh(symbols) && |recs| == |symbols|
    modifies t, localGot, localDesc, symbols
    ensures t.Valid() && (tlsLd >= 0 <==> tlsLdRefcount > 0)
    ensures ok ==> PassRun(t.options, localStates, locals, tlsLd, states, globals) && states[|globals|] == State(t.log, t.sizes)
    ensures ok ==> t.jumpTableSize == 8 * Counted(t.log, |t.log|)
    ensures ok ==> ShowsLocals(old(localGot[..]), localTls, localGot[..], localDesc[..], locals)
    ensures ok ==> |globals| == |symbols| && forall k :: 0 <= k < |symbols| ==> Shows(t.options, symbols[k], globals[k])
    ensures ok ==> forall k :: 0 <= k < |symbols| ==>
      globals[k].before == old(symbols[k].dyn) && globals[k].pltRefcount == old(symbols[k].pltRefcount)
  {
    localStates, locals := AllocateLocals(t, localGot, localTls, localDesc);
    tlsLd := t.AllocateModuleGot(tlsLdRefcount);
    ok, states, globals := AllocateGlobals(t, symbols, recs);
    if ok {
      t.FixJumpTable();
    }
    RunShowsLocals(localStates, old(localGot[..]), localTls, localGot[..], localDesc[..], locals);
  }

  /** The pass. When it succeeds, everything stored is well laid out, in .got.plt up to an uncounted slot after a descriptor;
      and there is none unless a position-independent executable has a TLS descriptor relocation against a function. */
  method SizeDynamicSections(t: LinkTable, localGot: array<int>, localTls: seq<bv8>, localDesc: array<int>, tlsLdRefcount: int,
                             symbols: seq<Symbol>, recs: seq<(Recording, Recording)>, bindNow: bool)
    returns (ok: bool, tlsLd: int, tlsdesc: int, tlsdescPlt: int,
             ghost locals: seq<LocalStep>, ghost globals: seq<GlobalStep>, ghost owners: seq<Owner>)
    requires t.Valid() && t.log == [] && t.sizes.sgot == t.sizes.pltGot == t.sizes.pltSecond == 0
    requires localGot != localDesc && localGot.Length == |localTls| == localDesc.Length
    requires Fresh(symbols) && |recs| == |symbols|
    modifies t, localGot, localDesc, symbols
    ensures ok ==> ShowsLocals(old(localGot[..]), localTls, localGot[..], localDesc[..], locals)
    ensures ok ==> |globals| == |symbols| && forall k :: 0 <= k < |symbols| ==> Shows(t.options, symbols[k], globals[k])
    ensures ok ==> forall k :: 0 <= k < |symbols| ==>
      globals[k].before == old(symbols[k].dyn) && globals[k].pltRefcount == old(symbols[k].pltRefcount)
    ensures ok ==> Accounts(t.log, t.options, StoredBy(locals, globals), owners)
    ensures ok ==> WellLaidOut(t.log, t.options, StoredBy(locals, globals), owners, t.jumpTableSize, t.sizes.sgotplt)
    ensures ok && RunRuledOut(t.options, locals, globals) ==> NoLateZero(t.log)
    ensures ok ==> Tiled(GotEntries(locals, tlsLd, globals, tlsdesc), t.sizes.sgot)
    ensures ok ==> Tiled(PltGotEntries(t.options, globals), t.sizes.pltGot)
    ensures ok ==> Tiled(SecondPltEntries(t.options, globals), t.sizes.pltSecond)
    ensures ok ==> (tlsLd >= 0 <==> tlsLdRefcount > 0) && (tlsdesc >= 0 <==> TlsDesc in t.log && !bindNow)
    ensures ok && tlsdesc >= 0 ==> PltOffset(t.options, Slots(t.log, |t.log|)) <= tlsdescPlt < t.sizes.splt
  {
    ghost var localStates, states;
    tlsdesc, tlsdescPlt := -1, -1;
    ok, tlsLd, localStates, locals, states, globals := RunPass(t, localGot, localTls, localDesc, tlsLdRefcount, symbols, recs);
    owners := [];
    if !ok {
      return;
    }
    owners := PassAccounted(t.options, localStates, locals, tlsLd, states, globals);
    PassIsWellLaidOut(t.log, t.options, StoredBy(locals, globals), owners, t.jumpTableSize);
    if RunRuledOut(t.options, locals, globals) {
      RuledOutIsSafe(t.options, localStates, locals, tlsLd, states, globals);
    }
    tlsdesc, tlsdescPlt := t.ReserveTlsdescPlt(bindNow);
    PassTiled(t.options, localStates, locals, tlsLd, states, globals, tlsdesc, t.sizes.sgot);
  }

  // ---- a link whose layout overlaps ----

  /** A position-independent executable. */
  function Pie(): Options {
    Options(true, true, true, true, false, false, false, true, true, 8)
  }

  /** A function with a TLS descriptor relocation against it. */
  function FunctionWithDesc(): Info {
    Info(false, true, false, true, false, true, GOT_TLS_GDESC)
  }

  /** An undefined weak function of default visibility that is called. */
  function WeakFunction(): Info {
    Info(true, true, false, true, false, true, GOT_UNKNOWN)
  }

  /** Relocations against a function are recorded as they are, in executables too. */
  lemma FunctionKeepsDescriptor()
    ensures JoinAll(Recorded(GOT_UNKNOWN), Transitions(true, true, [GotPc32TlsDesc, TlsDescCall])) == Recorded(GOT_TLS_GDESC)
  {
    var r := [GotPc32TlsDesc, TlsDescCall];
    assert Transitions(true, true, r) == r;
    assert r[..1] == [GotPc32TlsDesc] && r[..1][..0] == [];
    assert JoinAll(Recorded(GOT_UNKNOWN), r[..1]) == Recorded(GOT_TLS_GDESC);
  }

  /** Two symbols as earlier phases let them through, whose descriptor and jump slot share bytes 24 to 31 of .got.plt. */
  method OverlappingLink() returns (t: LinkTable, a: Symbol, b: Symbol, ghost x: Stored)
    ensures t.options == Pie() && a.info == FunctionWithDesc() && b.info == WeakFunction()
    ensures Prepared(Pie(), FunctionWithDesc(), Dynamic(1, false), 0) && Prepared(Pie(), WeakFunction(), Dynamic(-1, false), 1)
    ensures !ResolvedToZero(Pie(), FunctionWithDesc(), Dynamic(1, false)) && ResolvedToZero(Pie(), WeakFunction(), Dynamic(-1, false))
    ensures JoinAll(Recorded(GOT_UNKNOWN), Transitions(true, true, [GotPc32TlsDesc, TlsDescCall])) == Recorded(a.info.tlsType)
    ensures t.log == [TlsDesc, JumpSlot(false)] && x == Stored([a.pltOffset, b.pltOffset], [a.tlsdescGot, b.tlsdescGot], [])
    ensures x.plt == [-1, 16] && x.desc == [24, -1]
    ensures Start(t.options, x, t.jumpTableSize, DescOf(0)) == Start(t.options, x, t.jumpTableSize, SlotOf(1)) == 24
  {
    FunctionKeepsDescriptor();
    t := new LinkTable(Pie());
    a := new Symbol(FunctionWithDesc(), 0, 2, 0, Dynamic(1, false));
    b := new Symbol(WeakFunction(), 1, 0, 0, Dynamic(-1, false));
    var ok;
    ghost var taken;
    ok, taken := t.AllocatePlt(a, false, Becomes(a.dyn));
    ok, taken := t.AllocateGot(a, false, Becomes(a.dyn));
    ok, taken := t.AllocatePlt(b, true, Becomes(b.dyn));
    ok, taken := t.AllocateGot(b, true, Becomes(b.dyn));
    t.FixJumpTable();
    assert Counted(t.log, 1) == 0 == Counted(t.log, 2);
    x := Stored([a.pltOffset, b.pltOffset], [a.tlsdescGot, b.tlsdescGot], []);
  }
}
