/** How a symbol is accessed through the GOT (elf64-x86-64, the type merge in `elf_x86_64_check_relocs`). */
module TlsAccess {

  const GOT_UNKNOWN: bv8 := 0
  const GOT_NORMAL: bv8 := 1
  const GOT_TLS_GD: bv8 := 2
  const GOT_TLS_IE: bv8 := 3
  const GOT_TLS_GDESC: bv8 := 4

  predicate GdBoth(t: bv8) { t == GOT_TLS_GD | GOT_TLS_GDESC }

  predicate Gd(t: bv8) { t == GOT_TLS_GD || GdBoth(t) }

  predicate Gdesc(t: bv8) { t == GOT_TLS_GDESC || GdBoth(t) }

  predicate GdAny(t: bv8) { Gd(t) || Gdesc(t) }

  /** The GOT relocations of a symbol. */
  datatype Reloc = TlsGd | GotTpOff | GotPc32TlsDesc | TlsDescCall | OtherGot

  function AccessOf(r: Reloc): (t: bv8)
    ensures t == GOT_NORMAL || t == GOT_TLS_IE || t == GOT_TLS_GD || t == GOT_TLS_GDESC
  {
    match r
    case TlsGd => GOT_TLS_GD
    case GotTpOff => GOT_TLS_IE
    case GotPc32TlsDesc => GOT_TLS_GDESC
    case TlsDescCall => GOT_TLS_GDESC
    case OtherGot => GOT_NORMAL
  }

  /** The type recorded so far, or the error "accessed both as normal and thread local symbol". */
  datatype Access = Recorded(t: bv8) | Clash

  /** The values the field takes. */
  predicate KnownType(t: bv8) {
    t == GOT_UNKNOWN || t == GOT_NORMAL || t == GOT_TLS_IE || GdAny(t)
  }

  /** A linker symbol, as far as GOT accesses go. */
  class LinkSymbol {
    var tlsType: bv8
    var gotRefcount: nat

    constructor ()
      ensures tlsType == GOT_UNKNOWN && gotRefcount == 0
    {
      tlsType, gotRefcount := GOT_UNKNOWN, 0;
    }

    /** One GOT relocation; false is the error return, which leaves the type alone. */
    method Record(r: Reloc) returns (ok: bool)
      requires KnownType(tlsType)
      modifies this
      ensures KnownType(tlsType) && gotRefcount == old(gotRefcount) + 1
      ensures Join(old(tlsType), AccessOf(r)) == if ok then Recorded(tlsType) else Clash
      ensures !ok ==> tlsType == old(tlsType)
    {
      var tlsTypeNew := AccessOf(r);
      gotRefcount := gotRefcount + 1;
      var oldType := tlsType;
      if oldType != tlsTypeNew && oldType != GOT_UNKNOWN && (!GdAny(oldType) || tlsTypeNew != GOT_TLS_IE) {
        if oldType == GOT_TLS_IE && GdAny(tlsTypeNew) {
          tlsTypeNew := oldType;
        } else if GdAny(oldType) && GdAny(tlsTypeNew) {
          tlsTypeNew := tlsTypeNew | oldType;
        } else {
          return false;
        }
      }
      if oldType != tlsTypeNew {
        tlsType := tlsTypeNew;
      }
      return true;
    }

    /** All GOT relocations of the symbol in one section, up to the first error. */
    method RecordAll(relocs: seq<Reloc>) returns (ok: bool)
      requires KnownType(tlsType)
      modifies this
      ensures KnownType(tlsType)
      ensures JoinAll(Recorded(old(tlsType)), relocs) == if ok then Recorded(tlsType) else Clash
      ensures ok ==> gotRefcount == old(gotRefcount) + |relocs|
    {
      ok := true;
      for n := 0 to |relocs|
        invariant ok && KnownType(tlsType) && gotRefcount == old(gotRefcount) + n
        invariant JoinAll(Recorded(old(tlsType)), relocs[..n]) == Recorded(tlsType)
      {
        ok := Record(relocs[n]);
        assert relocs[..n + 1][..n] == relocs[..n];
        if !ok {
          ClashStays(Recorded(old(tlsType)), relocs, n + 1);
          return;
        }
      }
      assert relocs[..|relocs|] == relocs;
    }
  }

  /** The merge rule by what it means: nothing is below everything, IE absorbs the dynamic models, the
      two dynamic models combine, and normal goes with nothing but itself. */
  function Join(a: bv8, t: bv8): Access {
    if a == GOT_UNKNOWN || a == t then Recorded(t)
    else if a == GOT_NORMAL || t == GOT_NORMAL then Clash
    else if a == GOT_TLS_IE || t == GOT_TLS_IE then Recorded(GOT_TLS_IE)
    else Recorded(GOT_TLS_GD | GOT_TLS_GDESC)
  }

  function JoinAll(start: Access, relocs: seq<Reloc>): Access {
    if relocs == [] then start
    else
      match JoinAll(start, relocs[..|relocs| - 1])
      case Clash => Clash
      case Recorded(a) => Join(a, AccessOf(relocs[|relocs| - 1]))
  }

  lemma {:induction false} ClashStays(start: Access, relocs: seq<Reloc>, n: nat)
    requires n <= |relocs| && JoinAll(start, relocs[..n]) == Clash
    ensures JoinAll(start, relocs) == Clash
    decreases |relocs|
  {
    if n == |relocs| {
      assert relocs[..n] == relocs;
    } else {
      var shorter := relocs[..|relocs| - 1];
      assert shorter[..n] == relocs[..n];
      ClashStays(start, shorter, n);
    }
  }

  // ---- the result depends only on which models occur ----

  ghost function AccessSet(relocs: seq<Reloc>): set<bv8> {
    set r | r in relocs :: AccessOf(r)
  }

  /** What a set of access models amounts to. */
  ghost function Meaning(s: set<bv8>): Access {
    if s == {} then Recorded(GOT_UNKNOWN)
    else if GOT_NORMAL in s then (if s == {GOT_NORMAL} then Recorded(GOT_NORMAL) else Clash)
    else if GOT_TLS_IE in s then Recorded(GOT_TLS_IE)
    else if GOT_TLS_GD in s && GOT_TLS_GDESC in s then Recorded(GOT_TLS_GD | GOT_TLS_GDESC)
    else if GOT_TLS_GD in s then Recorded(GOT_TLS_GD)
    else Recorded(GOT_TLS_GDESC)
  }

  ghost predicate Models(s: set<bv8>) {
    s <= {GOT_NORMAL, GOT_TLS_GD, GOT_TLS_IE, GOT_TLS_GDESC}
  }

  lemma MeaningStep(s: set<bv8>, t: bv8)
    requires Models(s) && Models({t})
    ensures Meaning(s + {t}) == match Meaning(s) case Clash => Clash case Recorded(a) => Join(a, t)
  {
    assert t in s + {t};
    assert t == GOT_NORMAL || t == GOT_TLS_GD || t == GOT_TLS_IE || t == GOT_TLS_GDESC by { assert t in {t}; }
    if s == {} {
      assert s + {t} == {t};
    } else {
      var x :| x in s;
      assert forall y :: y in s ==> y == GOT_NORMAL || y == GOT_TLS_GD || y == GOT_TLS_IE || y == GOT_TLS_GDESC;
      if s == {GOT_NORMAL} && t == GOT_NORMAL { assert s + {t} == {GOT_NORMAL}; }
      if s + {t} == {GOT_NORMAL} { assert s == {GOT_NORMAL}; }
    }
  }

  /** The recorded type, or the error, is determined by the set of models used: neither the order of the
      relocations nor their number matters. */
  lemma {:induction false} ResultIsMeaning(relocs: seq<Reloc>)
    ensures JoinAll(Recorded(GOT_UNKNOWN), relocs) == Meaning(AccessSet(relocs)) && Models(AccessSet(relocs))
    decreases |relocs|
  {
    if relocs == [] {
      assert AccessSet(relocs) == {};
    } else {
      var front, r := relocs[..|relocs| - 1], relocs[|relocs| - 1];
      ResultIsMeaning(front);
      assert relocs == front + [r];
      assert AccessSet(relocs) == AccessSet(front) + {AccessOf(r)};
      MeaningStep(AccessSet(front), AccessOf(r));
    }
  }

  lemma OrderDoesNotMatter(p: seq<Reloc>, q: seq<Reloc>)
    requires multiset(p) == multiset(q)
    ensures JoinAll(Recorded(GOT_UNKNOWN), p) == JoinAll(Recorded(GOT_UNKNOWN), q)
  {
    ResultIsMeaning(p);
    ResultIsMeaning(q);
    assert forall r :: r in p <==> r in multiset(p);
    assert forall r :: r in q <==> r in multiset(q);
    assert AccessSet(p) == AccessSet(q);
  }

  /** Recording section after section is recording all at once. */
  lemma {:induction false} SectionsAddUp(start: Access, p: seq<Reloc>, q: seq<Reloc>)
    ensures JoinAll(JoinAll(start, p), q) == JoinAll(start, p + q)
    decreases |q|
  {
    if q == [] {
      assert p + q == p;
    } else {
      var front := q[..|q| - 1];
      SectionsAddUp(start, p, front);
      assert (p + q)[..|p + q| - 1] == p + front;
    }
  }

  // ---- in terms of relocations and type codes ----

  /** The codes: 2 general dynamic, 4 descriptor, 6 both. */
  lemma TypeCodes(t: bv8)
    ensures Gd(t) <==> t == 2 || t == 6
    ensures Gdesc(t) <==> t == 4 || t == 6
    ensures GdAny(t) <==> t == 2 || t == 4 || t == 6
  {}

  predicate Occurs(relocs: seq<Reloc>, r: Reloc) {
    r in relocs
  }

  predicate DescOccurs(relocs: seq<Reloc>) {
    Occurs(relocs, GotPc32TlsDesc) || Occurs(relocs, TlsDescCall)
  }

  predicate ThreadLocalOccurs(relocs: seq<Reloc>) {
    Occurs(relocs, TlsGd) || Occurs(relocs, GotTpOff) || DescOccurs(relocs)
  }

  /** What is recorded, by the relocations that occur: an error if and only if there are normal and thread-local accesses;
      1 for normal ones; 3, initial exec, if R_X86_64_GOTTPOFF occurs; otherwise general dynamic, descriptor, or both. */
  lemma RecordedByKinds(relocs: seq<Reloc>)
    ensures var a, o := JoinAll(Recorded(GOT_UNKNOWN), relocs), Occurs(relocs, OtherGot);
      && (a == Clash <==> o && ThreadLocalOccurs(relocs))
      && (o && !ThreadLocalOccurs(relocs) ==> a == Recorded(1))
      && (!o && !ThreadLocalOccurs(relocs) ==> relocs == [] && a == Recorded(0))
      && (!o && Occurs(relocs, GotTpOff) ==> a == Recorded(3))
      && (!o && !Occurs(relocs, GotTpOff) && ThreadLocalOccurs(relocs) ==>
            a == Recorded(if Occurs(relocs, TlsGd) && DescOccurs(relocs) then 6 else if Occurs(relocs, TlsGd) then 2 else 4))
  {
    ResultIsMeaning(relocs);
    var s := AccessSet(relocs);
    AccessesOccur(relocs);
    if relocs != [] {
      assert relocs[0] in relocs && AccessOf(relocs[0]) in s;
    }
    assert s == {GOT_NORMAL} <==> GOT_NORMAL in s && GOT_TLS_GD !in s && GOT_TLS_IE !in s && GOT_TLS_GDESC !in s;
  }

  lemma AccessesOccur(relocs: seq<Reloc>)
    ensures GOT_NORMAL in AccessSet(relocs) <==> Occurs(relocs, OtherGot)
    ensures GOT_TLS_GD in AccessSet(relocs) <==> Occurs(relocs, TlsGd)
    ensures GOT_TLS_IE in AccessSet(relocs) <==> Occurs(relocs, GotTpOff)
    ensures GOT_TLS_GDESC in AccessSet(relocs) <==> DescOccurs(relocs)
    ensures Models(AccessSet(relocs))
  {
    var s := AccessSet(relocs);
    assert OtherGot in relocs ==> AccessOf(OtherGot) in s;
    assert TlsGd in relocs ==> AccessOf(TlsGd) in s;
    assert GotTpOff in relocs ==> AccessOf(GotTpOff) in s;
    assert GotPc32TlsDesc in relocs ==> AccessOf(GotPc32TlsDesc) in s;
    assert TlsDescCall in relocs ==> AccessOf(TlsDescCall) in s;
  }

  // ---- transitions before recording ----

  /** The first-pass transition of a relocation against a global symbol: an executable accesses thread-local data
      by initial exec, but relocations against functions are left alone. */
  function Transition(executable: bool, isFunc: bool, r: Reloc): Reloc {
    if executable && !isFunc && r != OtherGot then GotTpOff else r
  }

  function Transitions(executable: bool, isFunc: bool, relocs: seq<Reloc>): (r: seq<Reloc>)
    ensures |r| == |relocs| && forall k :: 0 <= k < |r| ==> r[k] == Transition(executable, isFunc, relocs[k])
  {
    if relocs == [] then []
    else Transitions(executable, isFunc, relocs[..|relocs| - 1]) + [Transition(executable, isFunc, relocs[|relocs| - 1])]
  }

  /** A shared library, a function and a normal access see no transition; everything else becomes initial exec. */
  lemma TransitionsBecomeInitialExec(executable: bool, isFunc: bool, r: Reloc)
    ensures !executable || isFunc || r == OtherGot ==> Transition(executable, isFunc, r) == r
    ensures executable && !isFunc && r != OtherGot ==> AccessOf(Transition(executable, isFunc, r)) == 3
  {}

  /** In an executable no symbol but a function has a TLS descriptor. */
  lemma NoDescriptorsInExecutables(relocs: seq<Reloc>, t: bv8)
    requires JoinAll(Recorded(GOT_UNKNOWN), Transitions(true, false, relocs)) == Recorded(t)
    ensures !Gdesc(t)
  {
    var after := Transitions(true, false, relocs);
    ResultIsMeaning(after);
    forall r | r in after
      ensures AccessOf(r) != GOT_TLS_GDESC && AccessOf(r) != GOT_TLS_GD
    {}
  }
}
