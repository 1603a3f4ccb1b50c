/** The symbol nearest to an address (objdump, `remove_useless_symbols` and `find_symbol_for_address`). */
module FindSymbol {

  /** A symbol. `address` is its value plus the address of its section, `value` the bare value field. */
  datatype Sym = Sym(name: string, address: int, value: int, section: int, sectionSym: bool, debugging: bool,
                     synthetic: bool, undefinedOrCommon: bool)

  // ---- filtering, in place ----

  predicate SignificantName(name: string) {
    name == ".plt" || name == ".got" || name == ".plt.got"
  }

  /** What disassembly can show: no unnamed, undefined or common symbols, and of section and debugging symbols only those of
      the procedure linkage and offset tables. */
  predicate Useful(s: Sym) {
    && s.name != "" && !s.undefinedOrCommon
    && (s.debugging || s.sectionSym ==> s.name in {".plt", ".got", ".plt.got"})
  }

  function Filtered(syms: seq<Sym>): (r: seq<Sym>)
    ensures |r| <= |syms|
  {
    if syms == [] then []
    else Filtered(syms[..|syms| - 1]) + if Useful(syms[|syms| - 1]) then [syms[|syms| - 1]] else []
  }

  /** The filter keeps exactly the useful symbols, as often as they came. */
  lemma {:induction false} FilteredKeeps(syms: seq<Sym>)
    ensures forall s :: multiset(Filtered(syms))[s] == if Useful(s) then multiset(syms)[s] else 0
    decreases |syms|
  {
    if syms != [] {
      var front, last := syms[..|syms| - 1], syms[|syms| - 1];
      FilteredKeeps(front);
      assert syms == front + [last];
    }
  }

  method RemoveUselessSymbols(symbols: array<Sym>, count: nat) returns (n: nat)
    requires count <= symbols.Length
    modifies symbols
    ensures n <= count && symbols[..n] == Filtered(old(symbols[..count]))
    ensures symbols[count..] == old(symbols[count..])
  {
    n := 0;
    for i := 0 to count
      invariant n <= i && symbols[..n] == Filtered(old(symbols[..i]))
      invariant forall k :: i <= k < symbols.Length ==> symbols[k] == old(symbols[k])
    {
      var sym := symbols[i];
      assert old(symbols[..i + 1])[..i] == old(symbols[..i]);
      if sym.name == "" { continue; }
      if (sym.debugging || sym.sectionSym) && !SignificantName(sym.name) { continue; }
      if sym.undefinedOrCommon { continue; }
      symbols[n] := sym;
      n := n + 1;
    }
  }

  // ---- the search ----

  predicate Sorted(syms: seq<Sym>) {
    forall i, j :: 0 <= i < j < |syms| ==> syms[i].address <= syms[j].address
  }

  /** What the search is asked for. */
  datatype Query = Query(vma: int, sec: int, wantSection: bool)

  /** A symbol that may be returned; `valid` is the target's own test. */
  predicate Candidate(syms: seq<Sym>, valid: seq<bool>, q: Query, i: int)
    requires |valid| == |syms| && 0 <= i < |syms|
  {
    (syms[i].section == q.sec || !q.wantSection) && valid[i]
  }

  /** `r` is a candidate with the greatest address up to vma or, if there is none, the least one above. */
  ghost predicate Nearest(syms: seq<Sym>, valid: seq<bool>, q: Query, r: int)
    requires |valid| == |syms|
  {
    && 0 <= r < |syms| && Candidate(syms, valid, q, r)
    && forall i :: 0 <= i < |syms| && Candidate(syms, valid, q, i) ==>
         if syms[r].address <= q.vma then syms[i].address <= syms[r].address || syms[i].address > q.vma
         else syms[i].address >= syms[r].address
  }

  /** A same-address candidate before `r` is separated from it by a section or debugging symbol. */
  ghost predicate FirstOfGroup(syms: seq<Sym>, valid: seq<bool>, q: Query, r: int)
    requires |valid| == |syms| && 0 <= r < |syms|
  {
    forall i :: 0 <= i < r && syms[i].address == syms[r].address && Candidate(syms, valid, q, i) ==>
      exists m :: i <= m < r && (syms[m].sectionSym || syms[m].debugging)
  }

  /** Where the binary search and the walk back arrive: the greatest address up to vma (or index 0 when all
      are above), at its first symbol or right after a section or debugging symbol of the same address. */
  ghost predicate IsRunStart(syms: seq<Sym>, vma: int, lo: int) {
    && 0 <= lo < |syms|
    && (lo > 0 && syms[lo - 1].address == syms[lo].address ==> syms[lo - 1].sectionSym || syms[lo - 1].debugging)
    && if syms[lo].address <= vma then forall i :: 0 <= i < |syms| && syms[i].address <= vma ==> syms[i].address <= syms[lo].address
       else lo == 0
  }

  /** The binary search over (min, maxCount], then the walk back over symbols with the same address. */
  method FindRun(syms: seq<Sym>, vma: int) returns (lo: nat, maxCount: nat)
    requires |syms| > 0 && Sorted(syms)
    ensures IsRunStart(syms, vma, lo) && lo < maxCount <= |syms|
    ensures forall i :: maxCount <= i < |syms| ==> syms[i].address > vma
    ensures syms[lo].address > vma ==> maxCount == 1
  {
    var min: nat := 0;
    maxCount := |syms|;
    while min + 1 < maxCount
      invariant min < maxCount <= |syms|
      invariant forall i :: maxCount <= i < |syms| ==> syms[i].address > vma
      invariant min > 0 ==> syms[min].address < vma
      decreases maxCount - min
    {
      var thisplace := (maxCount + min) / 2;
      if syms[thisplace].address > vma {
        maxCount := thisplace;
      } else if syms[thisplace].address < vma {
        min := thisplace;
      } else {
        min := thisplace;
        break;
      }
    }
    lo := min;
    while lo > 0 && syms[lo].address == syms[lo - 1].address
          && !syms[lo - 1].sectionSym && !syms[lo - 1].debugging
      invariant lo <= min && syms[lo].address == syms[min].address
    {
      lo := lo - 1;
    }
  }

  /** Scans the run upwards for a valid symbol of the section itself. */
  method PreferSection(syms: seq<Sym>, valid: seq<bool>, q: Query, lo: nat, maxCount: nat)
    returns (found: bool, min: nat)
    requires |valid| == |syms| && lo < maxCount <= |syms|
    ensures lo <= min <= maxCount && (found ==> min < maxCount)
    ensures forall i :: lo <= i < min ==>
      syms[i].address == syms[lo].address && !(syms[i].section == q.sec && valid[i])
    ensures found ==> syms[min].address == syms[lo].address && syms[min].section == q.sec && valid[min]
    ensures !found ==> min > lo && (min < maxCount ==> syms[min].address != syms[lo].address)
  {
    found, min := false, lo;
    while min < maxCount && syms[min].address == syms[lo].address
      invariant lo <= min <= maxCount
      invariant forall i :: lo <= i < min ==>
        syms[i].address == syms[lo].address && !(syms[i].section == q.sec && valid[i])
    {
      if syms[min].section == q.sec && valid[min] {
        return true, min;
      }
      min := min + 1;
    }
  }

  /** The first of the candidates with the greatest address below index `min`, or the number of symbols. */
  method SearchDown(syms: seq<Sym>, valid: seq<bool>, q: Query, min: nat) returns (place: nat)
    requires |valid| == |syms| && min <= |syms| && Sorted(syms)
    ensures place == |syms| ==> forall i :: 0 <= i < min ==> !Candidate(syms, valid, q, i)
    ensures place != |syms| ==> place < min && Candidate(syms, valid, q, place)
    ensures place != |syms| ==> forall i :: 0 <= i < min && Candidate(syms, valid, q, i) ==>
      syms[i].address <= syms[place].address && (i < place ==> syms[i].address < syms[place].address)
  {
    place := |syms|;
    var i: int := min - 1;
    while i >= 0
      invariant -1 <= i < min <= |syms|
      invariant place == |syms| ==> forall j :: i < j < min ==> !Candidate(syms, valid, q, j)
      invariant place != |syms| ==> i < place < min && Candidate(syms, valid, q, place)
      invariant place != |syms| ==> forall j :: i < j < min && Candidate(syms, valid, q, j) ==>
        j >= place && syms[j].address == syms[place].address
    {
      if Candidate(syms, valid, q, i) {
        if place == |syms| {
          place := i;
        }
        if syms[i].address != syms[place].address {
          break;
        }
        place := i;
      }
      i := i - 1;
    }
  }

  /** The first candidate after `start`, or `start` itself. */
  method SearchUp(syms: seq<Sym>, valid: seq<bool>, q: Query, start: nat) returns (place: nat)
    requires |valid| == |syms| && start < |syms|
    ensures start <= place < |syms|
    ensures place == start ==> forall i :: start < i < |syms| ==> !Candidate(syms, valid, q, i)
    ensures place != start ==> Candidate(syms, valid, q, place) && forall i :: start < i < place ==> !Candidate(syms, valid, q, i)
  {
    place := start;
    for i := start + 1 to |syms|
      invariant place == start
      invariant forall j :: start < j < i ==> !Candidate(syms, valid, q, j)
    {
      if Candidate(syms, valid, q, i) {
        place := i;
        return;
      }
    }
  }

  /** A dynamic relocation: its address and its symbol, if it has one outside the absolute section. */
  datatype Rel = Rel(address: int, usable: bool)

  datatype Answer = NoSymbol | Found(place: nat) | ByRelocation(place: nat, rel: nat)

  /** The backwards scan of the dynamic relocations; the number of relocations stands for nothing found. */
  method FindRelocation(rels: seq<Rel>, vma: int) returns (k: nat)
    requires forall i, j :: 0 <= i < j < |rels| ==> rels[i].address <= rels[j].address
    ensures k <= |rels|
    ensures k < |rels| ==> rels[k].address == vma && rels[k].usable
    ensures k < |rels| ==> forall j :: k < j < |rels| ==> !(rels[j].address == vma && rels[j].usable)
    ensures k == |rels| ==> forall j :: 0 <= j < |rels| ==> !(rels[j].address == vma && rels[j].usable)
  {
    var count: int := |rels| - 1;
    while count >= 0
      invariant -1 <= count < |rels|
      invariant forall j :: count < j < |rels| ==> !(rels[j].address == vma && rels[j].usable)
    {
      if rels[count].address == vma && rels[count].usable {
        return count;
      }
      if rels[count].address < vma {
        break;
      }
      count := count - 1;
    }
    k := |rels|;
  }

  /** A symbol of the run with no candidate between the start of the run and itself. */
  lemma FirstInRun(syms: seq<Sym>, valid: seq<bool>, q: Query, vma: int, lo: nat, r: nat)
    requires |valid| == |syms| && Sorted(syms) && IsRunStart(syms, vma, lo) && lo <= r < |syms|
    requires syms[r].address == syms[lo].address
    requires forall i :: lo <= i < r ==> !Candidate(syms, valid, q, i)
    ensures FirstOfGroup(syms, valid, q, r)
  {
    forall i | 0 <= i < r && syms[i].address == syms[r].address && Candidate(syms, valid, q, i)
      ensures exists m :: i <= m < r && (syms[m].sectionSym || syms[m].debugging)
    {
      assert i < lo;
      assert syms[i].address <= syms[lo - 1].address <= syms[lo].address;
      assert i <= lo - 1 < r && (syms[lo - 1].sectionSym || syms[lo - 1].debugging);
    }
  }

  lemma NoneEarlier(syms: seq<Sym>, valid: seq<bool>, q: Query, r: nat)
    requires |valid| == |syms| && r < |syms| && Candidate(syms, valid, q, r)
    requires forall i :: 0 <= i < r && Candidate(syms, valid, q, i) ==> syms[i].address != syms[r].address
    ensures FirstOfGroup(syms, valid, q.(wantSection := syms[r].section == q.sec), r)
  {
    var narrower := q.(wantSection := syms[r].section == q.sec);
    forall i | 0 <= i < r && Candidate(syms, valid, narrower, i)
      ensures Candidate(syms, valid, q, i)
    {}
  }

  /** Any candidate of the run is nearest. */
  lemma NearestInRun(syms: seq<Sym>, valid: seq<bool>, q: Query, lo: nat, r: nat)
    requires |valid| == |syms| && Sorted(syms) && IsRunStart(syms, q.vma, lo) && lo <= r < |syms|
    requires syms[r].address == syms[lo].address && Candidate(syms, valid, q, r)
    ensures Nearest(syms, valid, q, r)
  {}

  /** The searches and the dynamic relocations, once it is known whether a symbol of the section is demanded. */
  method SearchSymbol(syms: seq<Sym>, valid: seq<bool>, q: Query, rels: seq<Rel>) returns (a: Answer, ghost lo: nat)
    requires |valid| == |syms| && Sorted(syms)
    requires forall i, j :: 0 <= i < j < |rels| ==> rels[i].address <= rels[j].address
    ensures a == NoSymbol <==> forall i :: 0 <= i < |syms| ==> !Candidate(syms, valid, q, i)
    ensures a != NoSymbol ==> Nearest(syms, valid, q, a.place)
    ensures a != NoSymbol ==> FirstOfGroup(syms, valid, q.(wantSection := syms[a.place].section == q.sec), a.place)
    ensures syms != [] ==> IsRunStart(syms, q.vma, lo)
    ensures forall i :: lo <= i < |syms| && syms[i].address == syms[lo].address <= q.vma && syms[i].section == q.sec && valid[i] ==>
      a.Found? && lo <= a.place <= i && syms[a.place].section == q.sec
    ensures a.ByRelocation? ==> !q.wantSection && syms[a.place].value != q.vma && !syms[a.place].synthetic
    ensures a.ByRelocation? ==> a.rel < |rels| && rels[a.rel].address == q.vma && rels[a.rel].usable
    ensures a.Found? && !q.wantSection && syms[a.place].value != q.vma && !syms[a.place].synthetic ==>
      syms[a.place].section == q.sec || forall j :: 0 <= j < |rels| ==> !(rels[j].address == q.vma && rels[j].usable)
  {
    if |syms| < 1 {
      return NoSymbol, 0;
    }
    var thisplace, maxCount := FindRun(syms, q.vma);
    lo := thisplace;
    var found, min := PreferSection(syms, valid, q, thisplace, maxCount);
    if found {
      NearestInRun(syms, valid, q, lo, min);
      FirstInRun(syms, valid, q.(wantSection := true), q.vma, lo, min);
      return Found(min), lo;
    }
    FirstInRun(syms, valid, q.(wantSection := false), q.vma, lo, lo);
    if Candidate(syms, valid, q, thisplace) {
      NearestInRun(syms, valid, q, lo, lo);
    } else {
      var newplace := SearchDown(syms, valid, q, min);
      if newplace != |syms| {
        thisplace := newplace;
      } else {
        thisplace := SearchUp(syms, valid, q, thisplace);
      }
      if !Candidate(syms, valid, q, thisplace) {
        return NoSymbol, lo;
      }
      NoneEarlier(syms, valid, q, thisplace);
    }
    if !q.wantSection && syms[thisplace].value != q.vma && !syms[thisplace].synthetic {
      var k := FindRelocation(rels, q.vma);
      if k < |rels| {
        return ByRelocation(thisplace, k), lo;
      }
    }
    return Found(thisplace), lo;
  }

  // ---- what is found ----

  /** Valid and, if that is demanded, a symbol of the section. */
  predicate Allowed(syms: seq<Sym>, valid: seq<bool>, sec: int, demanded: bool, i: int)
    requires |valid| == |syms| && 0 <= i < |syms|
  {
    valid[i] && (demanded ==> syms[i].section == sec)
  }

  /** The nearest of these: the greatest address up to vma or, if there is none, the least one above. */
  ghost predicate IsNearest(syms: seq<Sym>, valid: seq<bool>, vma: int, sec: int, demanded: bool, r: int)
    requires |valid| == |syms|
  {
    && 0 <= r < |syms| && Allowed(syms, valid, sec, demanded, r)
    && (syms[r].address <= vma ==>
         forall i :: 0 <= i < |syms| && Allowed(syms, valid, sec, demanded, i) && syms[i].address <= vma ==>
           syms[i].address <= syms[r].address)
    && (syms[r].address > vma ==>
         forall i :: 0 <= i < |syms| && Allowed(syms, valid, sec, demanded, i) ==> syms[i].address >= syms[r].address)
  }

  /** Of several symbols at that address, the first after a section or debugging symbol; of the section, if `r` is. */
  ghost predicate IsFirst(syms: seq<Sym>, valid: seq<bool>, sec: int, r: int)
    requires |valid| == |syms| && 0 <= r < |syms|
  {
    forall i :: 0 <= i < r && syms[i].address == syms[r].address && valid[i] && (syms[r].section == sec ==> syms[i].section == sec) ==>
      exists m :: i <= m < r && (syms[m].sectionSym || syms[m].debugging)
  }

  lemma CandidatesAreAllowed(syms: seq<Sym>, valid: seq<bool>, q: Query)
    requires |valid| == |syms|
    ensures forall i :: 0 <= i < |syms| ==> (Candidate(syms, valid, q, i) <==> Allowed(syms, valid, q.sec, q.wantSection, i))
    ensures forall r :: Nearest(syms, valid, q, r) ==> IsNearest(syms, valid, q.vma, q.sec, q.wantSection, r)
    ensures forall r :: 0 <= r < |syms| && FirstOfGroup(syms, valid, q.(wantSection := syms[r].section == q.sec), r) ==>
      IsFirst(syms, valid, q.sec, r)
  {
    forall r | 0 <= r < |syms| && FirstOfGroup(syms, valid, q.(wantSection := syms[r].section == q.sec), r)
      ensures IsFirst(syms, valid, q.sec, r)
    {
      var narrower := q.(wantSection := syms[r].section == q.sec);
      forall i | 0 <= i < r && syms[i].address == syms[r].address && valid[i] && (syms[r].section == q.sec ==> syms[i].section == q.sec)
        ensures exists m :: i <= m < r && (syms[m].sectionSym || syms[m].debugging)
      {
        assert Candidate(syms, valid, narrower, i);
      }
    }
  }

  /** What an answer means. Without a symbol that is allowed there is none; otherwise it is a nearest one, and a symbol of
      the section in the run that begins at `lo` is preferred. Only if no symbol of the section is demanded or found, and the
      value does not match, a usable dynamic relocation at the address takes its place. */
  ghost predicate IsAnswer(syms: seq<Sym>, valid: seq<bool>, vma: int, sec: int, demanded: bool, rels: seq<Rel>, a: Answer, lo: int)
    requires |valid| == |syms|
  {
    && (a == NoSymbol <==> forall i :: 0 <= i < |syms| ==> !Allowed(syms, valid, sec, demanded, i))
    && (a != NoSymbol ==> IsNearest(syms, valid, vma, sec, demanded, a.place) && IsFirst(syms, valid, sec, a.place))
    && (syms != [] ==> IsRunStart(syms, vma, lo))
    && (forall i :: 0 <= lo <= i < |syms| && syms[i].address == syms[lo].address <= vma && syms[i].section == sec && valid[i] ==>
          a.Found? && lo <= a.place <= i && syms[a.place].section == sec)
    && (a.ByRelocation? ==> !demanded && syms[a.place].value != vma && !syms[a.place].synthetic)
    && (a.ByRelocation? ==> a.rel < |rels| && rels[a.rel].address == vma && rels[a.rel].usable)
    && (a.Found? && !demanded && syms[a.place].value != vma && !syms[a.place].synthetic && syms[a.place].section != sec ==>
          (forall j :: 0 <= j < |rels| ==> !(rels[j].address == vma && rels[j].usable)))
  }

  /** `find_symbol_for_address`. `rels` are the dynamic relocations, empty when there are none. A symbol of the section is
      demanded by the caller, or when the file is relocatable and the address lies inside the section. */
  method FindSymbolForAddress(syms: seq<Sym>, valid: seq<bool>, vma: int, sec: int, requireSec: bool, hasReloc: bool,
                              secVma: int, secUnits: nat, rels: seq<Rel>) returns (a: Answer, ghost lo: nat)
    requires |valid| == |syms| && Sorted(syms)
    requires forall i, j :: 0 <= i < j < |rels| ==> rels[i].address <= rels[j].address
    ensures IsAnswer(syms, valid, vma, sec, requireSec || (hasReloc && secVma <= vma < secVma + secUnits), rels, a, lo)
  {
    var wantSection := requireSec || (hasReloc && vma >= secVma && vma < secVma + secUnits);
    var q := Query(vma, sec, wantSection);
    CandidatesAreAllowed(syms, valid, q);
    a, lo := SearchSymbol(syms, valid, q, rels);
  }

  /** Where a symbol of the section is demanded, it is one, or there is none. */
  lemma DemandedIsFound(syms: seq<Sym>, valid: seq<bool>, vma: int, sec: int, rels: seq<Rel>, a: Answer, lo: int)
    requires |valid| == |syms| && IsAnswer(syms, valid, vma, sec, true, rels, a, lo)
    ensures a == NoSymbol <==> forall i :: 0 <= i < |syms| ==> !(valid[i] && syms[i].section == sec)
    ensures a != NoSymbol ==> a.Found? && valid[a.place] && syms[a.place].section == sec
  {
    assert a == NoSymbol <==> forall i :: 0 <= i < |syms| ==> !Allowed(syms, valid, sec, true, i);
    if !(forall i :: 0 <= i < |syms| ==> !(valid[i] && syms[i].section == sec)) {
      var i :| 0 <= i < |syms| && valid[i] && syms[i].section == sec;
      assert Allowed(syms, valid, sec, true, i);
    }
  }
}
