/** Merging the dynamic relocation counts of an indirect symbol into its direct symbol (elf64-x86-64,
    `elf_x86_64_copy_indirect_symbol`), on linked lists that are relinked in place. */
module DynRelocs {

  /** The relocations against a symbol in one section. */
  datatype Entry = Entry(sec: int, count: nat, pcCount: nat)

  // ---- what merging means, on sequences ----

  /** The first entry for a section, or the length. */
  function FirstFor(entries: seq<Entry>, sec: int): (k: nat)
    ensures k <= |entries|
    ensures k < |entries| ==> entries[k].sec == sec
    ensures forall j :: 0 <= j < k ==> entries[j].sec != sec
  {
    if entries == [] then 0
    else if entries[0].sec == sec then 0
    else 1 + FirstFor(entries[1..], sec)
  }

  function Absorb(q: Entry, p: Entry): Entry {
    Entry(q.sec, q.count + p.count, q.pcCount + p.pcCount)
  }

  /** Entries of `ind` go into the entry of `dir` for their section if there is one, and in front otherwise. */
  function Merged(ind: seq<Entry>, dir: seq<Entry>): seq<Entry> {
    if ind == [] then dir
    else
      var p, k := ind[0], FirstFor(dir, ind[0].sec);
      if k < |dir| then Merged(ind[1..], dir[k := Absorb(dir[k], p)])
      else [p] + Merged(ind[1..], dir)
  }

  /** Relocations of all entries for a section: all of them, and the PC-relative ones. */
  function Total(entries: seq<Entry>, sec: int): (nat, nat) {
    if entries == [] then (0, 0)
    else
      var t := Total(entries[1..], sec);
      if entries[0].sec == sec then (t.0 + entries[0].count, t.1 + entries[0].pcCount) else t
  }

  function Plus(a: (nat, nat), b: (nat, nat)): (nat, nat) { (a.0 + b.0, a.1 + b.1) }

  function Share(p: Entry, sec: int): (nat, nat) { if p.sec == sec then (p.count, p.pcCount) else (0, 0) }

  lemma {:induction false} TotalOfConcat(a: seq<Entry>, b: seq<Entry>, sec: int)
    ensures Total(a + b, sec) == Plus(Total(a, sec), Total(b, sec))
    decreases |a|
  {
    if a == [] {
      assert a + b == b;
    } else {
      TotalOfConcat(a[1..], b, sec);
      assert (a + b)[1..] == a[1..] + b;
    }
  }

  lemma TotalOfOne(p: Entry, sec: int)
    ensures Total([p], sec) == Share(p, sec)
  {}

  lemma TotalOfThree(a: seq<Entry>, p: Entry, b: seq<Entry>, sec: int)
    ensures Total(a + [p] + b, sec) == Plus(Plus(Total(a, sec), Share(p, sec)), Total(b, sec))
  {
    TotalOfConcat(a + [p], b, sec);
    TotalOfConcat(a, [p], sec);
    TotalOfOne(p, sec);
  }

  lemma AbsorbAdds(dir: seq<Entry>, k: nat, p: Entry, sec: int)
    requires k < |dir| && dir[k].sec == p.sec
    ensures Total(dir[k := Absorb(dir[k], p)], sec) == Plus(Total(dir, sec), Share(p, sec))
  {
    var a, b := dir[..k], dir[k + 1..];
    assert dir == a + [dir[k]] + b;
    assert dir[k := Absorb(dir[k], p)] == a + [Absorb(dir[k], p)] + b;
    TotalOfThree(a, dir[k], b, sec);
    TotalOfThree(a, Absorb(dir[k], p), b, sec);
  }

  /** Merging conserves both counts in every section. */
  lemma {:induction false} MergeConserves(ind: seq<Entry>, dir: seq<Entry>, sec: int)
    ensures Total(Merged(ind, dir), sec) == Plus(Total(ind, sec), Total(dir, sec))
    decreases |ind|
  {
    if ind != [] {
      var p, k := ind[0], FirstFor(dir, ind[0].sec);
      if k < |dir| {
        MergeConserves(ind[1..], dir[k := Absorb(dir[k], p)], sec);
        AbsorbAdds(dir, k, p, sec);
      } else {
        MergeConserves(ind[1..], dir, sec);
        assert ([p] + Merged(ind[1..], dir))[1..] == Merged(ind[1..], dir);
      }
    }
  }

  predicate OnePerSection(entries: seq<Entry>) {
    forall i, j :: 0 <= i < j < |entries| ==> entries[i].sec != entries[j].sec
  }

  ghost function Sections(entries: seq<Entry>): set<int> {
    set i | 0 <= i < |entries| :: entries[i].sec
  }

  lemma OnePerSectionTail(p: Entry, rest: seq<Entry>)
    ensures OnePerSection([p] + rest) <==> OnePerSection(rest) && p.sec !in Sections(rest)
  {
    var all := [p] + rest;
    if OnePerSection(all) {
      forall i, j | 0 <= i < j < |rest|
        ensures rest[i].sec != rest[j].sec
      {
        assert all[i + 1].sec != all[j + 1].sec;
      }
      forall i | 0 <= i < |rest|
        ensures rest[i].sec != p.sec
      {
        assert all[0].sec != all[i + 1].sec;
      }
    }
    if OnePerSection(rest) && p.sec !in Sections(rest) {
      forall i, j | 0 <= i < j < |all|
        ensures all[i].sec != all[j].sec
      {
        assert rest[j - 1].sec in Sections(rest);
        if i > 0 { assert rest[i - 1].sec != rest[j - 1].sec; }
      }
    }
  }

  lemma AbsorbKeepsSections(dir: seq<Entry>, k: nat, p: Entry)
    requires k < |dir|
    ensures var dir' := dir[k := Absorb(dir[k], p)];
            Sections(dir') == Sections(dir) && (OnePerSection(dir) ==> OnePerSection(dir'))
    ensures dir[k].sec in Sections(dir)
  {
    var dir' := dir[k := Absorb(dir[k], p)];
    assert forall i :: 0 <= i < |dir| ==> dir'[i].sec == dir[i].sec;
  }

  /** One entry per section in both lists gives one per section in the result. */
  lemma {:induction false} MergeKeepsOnePerSection(ind: seq<Entry>, dir: seq<Entry>)
    requires OnePerSection(ind) && OnePerSection(dir)
    ensures OnePerSection(Merged(ind, dir))
    ensures Sections(Merged(ind, dir)) == Sections(ind) + Sections(dir)
    decreases |ind|
  {
    if ind == [] {
      assert Sections(ind) == {};
    } else {
      var p, rest, k := ind[0], ind[1..], FirstFor(dir, ind[0].sec);
      assert ind == [p] + rest;
      OnePerSectionTail(p, rest);
      SectionsOfCons(p, rest);
      if k < |dir| {
        AbsorbKeepsSections(dir, k, p);
        MergeKeepsOnePerSection(rest, dir[k := Absorb(dir[k], p)]);
      } else {
        MergeKeepsOnePerSection(rest, dir);
        OnePerSectionTail(p, Merged(rest, dir));
        SectionsOfCons(p, Merged(rest, dir));
      }
    }
  }

  lemma SectionsOfCons(p: Entry, rest: seq<Entry>)
    ensures Sections([p] + rest) == {p.sec} + Sections(rest)
  {
    var all := [p] + rest;
    forall x
      ensures x in Sections(all) <==> x in {p.sec} + Sections(rest)
    {
      if x in Sections(rest) {
        var i :| 0 <= i < |rest| && rest[i].sec == x;
        assert all[i + 1].sec == x;
      }
      if x == p.sec { assert all[0].sec == x; }
      if x in Sections(all) {
        var i :| 0 <= i < |all| && all[i].sec == x;
        if i > 0 { assert rest[i - 1].sec == x; }
      }
    }
  }

  // ---- the linked lists ----

  class DynReloc {
    var next: DynReloc?
    var sec: int
    var count: nat
    var pcCount: nat

    constructor (sec: int, next: DynReloc?)
      ensures this.sec == sec && this.next == next && count == 0 && pcCount == 0
    {
      this.sec, this.next, count, pcCount := sec, next, 0, 0;
    }

    function Value(): Entry
      reads this
    {
      Entry(sec, count, pcCount)
    }
  }

  class Symbol {
    var dynRelocs: DynReloc?
    var hasGotReloc: bool
    var hasNonGotReloc: bool

    constructor ()
      ensures dynRelocs == null && !hasGotReloc && !hasNonGotReloc
    {
      dynRelocs, hasGotReloc, hasNonGotReloc := null, false, false;
    }
  }

  ghost predicate Distinct(nodes: seq<DynReloc>) {
    forall i, j :: 0 <= i < j < |nodes| ==> nodes[i] != nodes[j]
  }

  /** From `head` the links run through exactly `nodes`. */
  ghost predicate Linked(head: DynReloc?, nodes: seq<DynReloc>)
    reads nodes
  {
    && head == (if nodes == [] then null else nodes[0])
    && forall i {:trigger nodes[i].next} :: 0 <= i < |nodes| ==>
         nodes[i].next == if i + 1 < |nodes| then nodes[i + 1] else null
  }

  /** The nodes carry these entries. */
  ghost predicate Shows(nodes: seq<DynReloc>, entries: seq<Entry>)
    reads nodes
  {
    && |nodes| == |entries|
    && forall i {:trigger entries[i]} :: 0 <= i < |nodes| ==> nodes[i].Value() == entries[i]
  }

  /** The inner loop: the first node for a section, or null. */
  method FindNode(head: DynReloc?, sec: int, ghost nodes: seq<DynReloc>, ghost entries: seq<Entry>)
    returns (q: DynReloc?, ghost k: nat)
    requires Linked(head, nodes) && Shows(nodes, entries)
    ensures k == FirstFor(entries, sec)
    ensures q == if k < |nodes| then nodes[k] else null
  {
    q, k := head, 0;
    while q != null && q.sec != sec
      invariant 0 <= k <= |nodes| && q == if k < |nodes| then nodes[k] else null
      invariant forall j :: 0 <= j < k ==> entries[j].sec != sec
      decreases |nodes| - k
    {
      assert nodes[k].Value() == entries[k];
      q, k := q.next, k + 1;
    }
    if k < |nodes| { assert nodes[k].Value() == entries[k]; }
    FirstForIs(entries, sec, k);
  }

  lemma {:induction false} FirstForIs(entries: seq<Entry>, sec: int, k: nat)
    requires k <= |entries| && (k < |entries| ==> entries[k].sec == sec)
    requires forall j :: 0 <= j < k ==> entries[j].sec != sec
    ensures k == FirstFor(entries, sec)
  {
    var f := FirstFor(entries, sec);
    if f < k { assert false; }
  }

  // ---- the merge itself ----

  /** What the merge amounts to when the first `c` entries of `chain` have been kept. */
  function MergedFrom(chain: seq<Entry>, c: nat, dir: seq<Entry>): seq<Entry>
    requires c <= |chain|
  {
    chain[..c] + Merged(chain[c..], dir)
  }

  lemma MergeStarts(ind: seq<Entry>, dir: seq<Entry>)
    ensures MergedFrom(ind, 0, dir) == Merged(ind, dir)
  {
    assert ind[..0] == [] && ind[0..] == ind;
  }

  lemma MergeEnds(chain: seq<Entry>, dir: seq<Entry>)
    ensures MergedFrom(chain, |chain|, dir) == chain + dir
  {
    assert chain[..|chain|] == chain && chain[|chain|..] == [];
  }

  lemma MergeAbsorbs(chain: seq<Entry>, c: nat, dir: seq<Entry>, k: nat, chain': seq<Entry>, dir': seq<Entry>)
    requires c < |chain| && k == FirstFor(dir, chain[c].sec) && k < |dir|
    requires chain' == chain[..c] + chain[c + 1..] && dir' == dir[k := Absorb(dir[k], chain[c])]
    ensures MergedFrom(chain', c, dir') == MergedFrom(chain, c, dir)
  {
    assert chain[c..][1..] == chain[c + 1..];
    assert chain'[..c] == chain[..c] && chain'[c..] == chain[c + 1..];
  }

  lemma MergeKeeps(chain: seq<Entry>, c: nat, dir: seq<Entry>)
    requires c < |chain| && FirstFor(dir, chain[c].sec) == |dir|
    ensures MergedFrom(chain, c + 1, dir) == MergedFrom(chain, c, dir)
  {
    var rest := chain[c + 1..];
    assert chain[c..] == [chain[c]] + rest && chain[..c + 1] == chain[..c] + [chain[c]];
    UnmatchedGoesFirst(chain[c], rest, dir);
    ConcatAssociates(chain[..c], [chain[c]], Merged(rest, dir));
  }

  lemma UnmatchedGoesFirst(p: Entry, rest: seq<Entry>, dir: seq<Entry>)
    requires FirstFor(dir, p.sec) == |dir|
    ensures Merged([p] + rest, dir) == [p] + Merged(rest, dir)
  {
    assert ([p] + rest)[1..] == rest;
  }

  lemma ConcatAssociates(a: seq<Entry>, b: seq<Entry>, c: seq<Entry>)
    ensures (a + b) + c == a + (b + c)
  {}

  lemma {:induction false} MergeIntoNothing(ind: seq<Entry>)
    ensures Merged(ind, []) == ind
    decreases |ind|
  {
    if ind != [] {
      MergeIntoNothing(ind[1..]);
    }
  }

  /** Stores through the pointer-to-pointer `pp`: the head of the symbol (`prev` null) or a node's link. */
  method StoreLink(sym: Symbol, prev: DynReloc?, x: DynReloc?)
    modifies sym`dynRelocs, (if prev == null then {} else {prev})`next
    ensures prev == null ==> sym.dynRelocs == x
    ensures prev != null ==> prev.next == x && sym.dynRelocs == old(sym.dynRelocs)
  {
    if prev == null {
      sym.dynRelocs := x;
    } else {
      prev.next := x;
    }
  }

  /** Takes node `c` out of the list through the pointer-to-pointer. */
  method Unlink(sym: Symbol, prev: DynReloc?, p: DynReloc, ghost chain: seq<DynReloc>, ghost c: nat)
    requires Linked(sym.dynRelocs, chain) && Distinct(chain) && c < |chain| && p == chain[c]
    requires prev == if c == 0 then null else chain[c - 1]
    modifies sym`dynRelocs, (if prev == null then {} else {prev})`next
    ensures Linked(sym.dynRelocs, chain[..c] + chain[c + 1..])
    ensures prev != null ==> sym.dynRelocs == old(sym.dynRelocs)
  {
    ghost var shorter := chain[..c] + chain[c + 1..];
    StoreLink(sym, prev, p.next);
    forall i {:trigger shorter[i].next} | 0 <= i < |shorter|
      ensures shorter[i].next == if i + 1 < |shorter| then shorter[i + 1] else null
    {
      var j := if i < c then i else i + 1;
      assert shorter[i] == chain[j];
      assert old(chain[j].next) == if j + 1 < |chain| then chain[j + 1] else null;
    }
  }

  /** Hangs a second list onto the end of the first through the pointer-to-pointer. */
  method Append(sym: Symbol, prev: DynReloc?, head: DynReloc?, ghost chain: seq<DynReloc>, ghost tail: seq<DynReloc>)
    requires Linked(sym.dynRelocs, chain) && Linked(head, tail) && Distinct(tail + chain)
    requires prev == if chain == [] then null else chain[|chain| - 1]
    modifies sym`dynRelocs, (if prev == null then {} else {prev})`next
    ensures Linked(sym.dynRelocs, chain + tail)
  {
    StoreLink(sym, prev, head);
    ghost var all := chain + tail;
    assert forall i :: 0 <= i < |tail| ==> (tail + chain)[i] == tail[i];
    assert forall i :: 0 <= i < |chain| ==> (tail + chain)[|tail| + i] == chain[i];
    forall i {:trigger all[i].next} | 0 <= i < |all|
      ensures all[i].next == if i + 1 < |all| then all[i + 1] else null
    {
      if i < |chain| {
        assert old(chain[i].next) == if i + 1 < |chain| then chain[i + 1] else null;
      } else {
        assert old(tail[i - |chain|].next) == if i - |chain| + 1 < |tail| then tail[i - |chain| + 1] else null;
      }
    }
  }

  method CopyIndirect(edir: Symbol, eind: Symbol, ghost dir: seq<DynReloc>, ghost ind: seq<DynReloc>,
                      ghost dirEntries: seq<Entry>, ghost indEntries: seq<Entry>, ghost nodes: set<DynReloc>)
    returns (ghost result: seq<DynReloc>)
    requires edir != eind && Distinct(dir + ind)
    requires Linked(edir.dynRelocs, dir) && Shows(dir, dirEntries)
    requires Linked(eind.dynRelocs, ind) && Shows(ind, indEntries)
    requires (forall x :: x in dir ==> x in nodes) && (forall x :: x in ind ==> x in nodes)
    modifies edir, eind, nodes
    ensures Linked(edir.dynRelocs, result) && Shows(result, Merged(indEntries, dirEntries))
    ensures eind.dynRelocs == null
    ensures edir.hasGotReloc == (old(edir.hasGotReloc) || old(eind.hasGotReloc))
    ensures edir.hasNonGotReloc == (old(edir.hasNonGotReloc) || old(eind.hasNonGotReloc))
  {
    edir.hasGotReloc := edir.hasGotReloc || eind.hasGotReloc;
    edir.hasNonGotReloc := edir.hasNonGotReloc || eind.hasNonGotReloc;
    result := dir;
    MergeIntoNothing(indEntries);
    if eind.dynRelocs != null {
      result := ind;
      if edir.dynRelocs != null {
        result := MergeLists(edir, eind, dir, ind, dirEntries, indEntries, nodes);
      }
      edir.dynRelocs := eind.dynRelocs;
      eind.dynRelocs := null;
    }
  }

  /** The lists while the first `c` nodes of the indirect symbol's list have been kept; `prev` is the last of them. */
  ghost predicate Merging(dirHead: DynReloc?, indHead: DynReloc?, prev: DynReloc?, dir: seq<DynReloc>, chain: seq<DynReloc>,
                          c: nat, dirEntries: seq<Entry>, chainEntries: seq<Entry>)
    reads dir, chain
  {
    && c <= |chain| && Distinct(dir + chain)
    && prev == (if c == 0 then null else chain[c - 1])
    && Linked(dirHead, dir) && Shows(dir, dirEntries)
    && Linked(indHead, chain) && Shows(chain, chainEntries)
  }

  /** Adds the counts of `p` to `q` and takes `p` out of its list. */
  method AbsorbNode(ghost dirHead: DynReloc?, eind: Symbol, prev: DynReloc?, p: DynReloc, q: DynReloc,
                    ghost dir: seq<DynReloc>, ghost chain: seq<DynReloc>, ghost k: nat, ghost c: nat,
                    ghost dirEntries: seq<Entry>, ghost chainEntries: seq<Entry>)
    requires Merging(dirHead, eind.dynRelocs, prev, dir, chain, c, dirEntries, chainEntries)
    requires c < |chain| && p == chain[c] && k < |dir| && q == dir[k]
    modifies eind`dynRelocs, q`count, q`pcCount, (if prev == null then {} else {prev})`next
    ensures Merging(dirHead, eind.dynRelocs, prev, dir, chain[..c] + chain[c + 1..], c,
                    dirEntries[k := Absorb(dirEntries[k], chainEntries[c])], chainEntries[..c] + chainEntries[c + 1..])
  {
    ApartFrom(dir, chain, k, c);
    assert prev != null ==> prev in chain;
    Unlink(eind, prev, p, chain, c);
    assert p.Value() == chainEntries[c] && q.Value() == dirEntries[k];
    q.pcCount := q.pcCount + p.pcCount;
    q.count := q.count + p.count;
    StillDistinct(dir, chain, c);
  }

  /** What `*pp` yields. */
  lemma NextNode(dirHead: DynReloc?, indHead: DynReloc?, prev: DynReloc?, dir: seq<DynReloc>, chain: seq<DynReloc>,
                 c: nat, dirEntries: seq<Entry>, chainEntries: seq<Entry>)
    requires Merging(dirHead, indHead, prev, dir, chain, c, dirEntries, chainEntries)
    ensures (if prev == null then indHead else prev.next) == if c < |chain| then chain[c] else null
    ensures prev != null ==> prev in chain
    ensures c < |chain| ==> chain[c].Value() == chainEntries[c]
  {
    if c > 0 {
      assert chain[c - 1].next == if c < |chain| then chain[c] else null;
    }
  }

  /** One round of the loop: `p` is absorbed into the direct symbol's list or kept. */
  method MergeNode(edir: Symbol, eind: Symbol, prev: DynReloc?, p: DynReloc, ghost dir: seq<DynReloc>,
                   ghost chain: seq<DynReloc>, ghost c: nat, ghost dirEntries: seq<Entry>, ghost chainEntries: seq<Entry>,
                   ghost nodes: set<DynReloc>)
    returns (prev': DynReloc?, p': DynReloc?, ghost chain': seq<DynReloc>, ghost c': nat,
             ghost dirEntries': seq<Entry>, ghost chainEntries': seq<Entry>)
    requires edir != eind && Merging(edir.dynRelocs, eind.dynRelocs, prev, dir, chain, c, dirEntries, chainEntries)
    requires c < |chain| && p == chain[c]
    requires (forall x :: x in dir ==> x in nodes) && (forall x :: x in chain ==> x in nodes)
    modifies eind`dynRelocs, nodes
    ensures Merging(edir.dynRelocs, eind.dynRelocs, prev', dir, chain', c', dirEntries', chainEntries')
    ensures p' == if c' < |chain'| then chain'[c'] else null
    ensures |chain'| - c' < |chain| - c && forall x :: x in chain' ==> x in nodes
    ensures MergedFrom(chainEntries', c', dirEntries') == MergedFrom(chainEntries, c, dirEntries)
  {
    NextNode(edir.dynRelocs, eind.dynRelocs, prev, dir, chain, c, dirEntries, chainEntries);
    var q, k := FindNode(edir.dynRelocs, p.sec, dir, dirEntries);
    prev', chain', c', dirEntries', chainEntries' := prev, chain, c, dirEntries, chainEntries;
    if q != null {
      assert q in dir;
      AbsorbNode(edir.dynRelocs, eind, prev, p, q, dir, chain, k, c, dirEntries, chainEntries);
      dirEntries' := dirEntries[k := Absorb(dirEntries[k], chainEntries[c])];
      chainEntries' := chainEntries[..c] + chainEntries[c + 1..];
      MergeAbsorbs(chainEntries, c, dirEntries, k, chainEntries', dirEntries');
      chain' := chain[..c] + chain[c + 1..];
    } else {
      MergeKeeps(chainEntries, c, dirEntries);
      prev', c' := p, c + 1;
    }
    NextNode(edir.dynRelocs, eind.dynRelocs, prev', dir, chain', c', dirEntries', chainEntries');
    p' := if prev' == null then eind.dynRelocs else prev'.next;
  }

  /** After the loop: the direct symbol's list goes behind the kept nodes. */
  method FinishMerge(edir: Symbol, eind: Symbol, prev: DynReloc?, ghost dir: seq<DynReloc>, ghost chain: seq<DynReloc>,
                     ghost dirEntries: seq<Entry>, ghost chainEntries: seq<Entry>, ghost nodes: set<DynReloc>)
    requires edir != eind && Merging(edir.dynRelocs, eind.dynRelocs, prev, dir, chain, |chain|, dirEntries, chainEntries)
    requires forall x :: x in chain ==> x in nodes
    modifies eind`dynRelocs, nodes
    ensures Linked(eind.dynRelocs, chain + dir) && Shows(chain + dir, chainEntries + dirEntries)
  {
    NextNode(edir.dynRelocs, eind.dynRelocs, prev, dir, chain, |chain|, dirEntries, chainEntries);
    Append(eind, prev, edir.dynRelocs, chain, dir);
    forall i {:trigger (chainEntries + dirEntries)[i]} | 0 <= i < |chain + dir|
      ensures (chain + dir)[i].Value() == (chainEntries + dirEntries)[i]
    {
      if i < |chain| {
        assert chain[i].Value() == chainEntries[i];
      } else {
        assert dir[i - |chain|].Value() == dirEntries[i - |chain|];
      }
    }
  }

  /** The loop over the indirect symbol's list; afterwards that list is the merged one. */
  method MergeLists(edir: Symbol, eind: Symbol, ghost dir: seq<DynReloc>, ghost ind: seq<DynReloc>,
                    ghost dirEntries: seq<Entry>, ghost indEntries: seq<Entry>, ghost nodes: set<DynReloc>)
    returns (ghost result: seq<DynReloc>)
    requires edir != eind && Distinct(dir + ind)
    requires Linked(edir.dynRelocs, dir) && Shows(dir, dirEntries)
    requires Linked(eind.dynRelocs, ind) && Shows(ind, indEntries)
    requires (forall x :: x in dir ==> x in nodes) && (forall x :: x in ind ==> x in nodes)
    modifies eind`dynRelocs, nodes
    ensures Linked(eind.dynRelocs, result) && Shows(result, Merged(indEntries, dirEntries))
  {
    var prev: DynReloc? := null;
    var p := eind.dynRelocs;
    ghost var chain := ind;
    ghost var c: nat := 0;
    ghost var dirNow, chainNow, target := dirEntries, indEntries, Merged(indEntries, dirEntries);
    MergeStarts(indEntries, dirEntries);
    while p != null
      invariant Merging(edir.dynRelocs, eind.dynRelocs, prev, dir, chain, c, dirNow, chainNow)
      invariant p == if c < |chain| then chain[c] else null
      invariant (forall x :: x in dir ==> x in nodes) && (forall x :: x in chain ==> x in nodes)
      invariant MergedFrom(chainNow, c, dirNow) == target
      decreases |chain| - c
    {
      prev, p, chain, c, dirNow, chainNow := MergeNode(edir, eind, prev, p, dir, chain, c, dirNow, chainNow, nodes);
    }
    MergeEnds(chainNow, dirNow);
    FinishMerge(edir, eind, prev, dir, chain, dirNow, chainNow, nodes);
    result := chain + dir;
  }

  lemma ApartFrom(dir: seq<DynReloc>, chain: seq<DynReloc>, k: nat, c: nat)
    requires Distinct(dir + chain) && k < |dir| && c < |chain|
    ensures forall i :: 0 <= i < |chain| ==> chain[i] != dir[k]
    ensures forall i, j :: 0 <= i < |chain| && 0 <= j < |dir| ==> chain[i] != dir[j]
    ensures forall i :: 0 <= i < |dir| && i != k ==> dir[i] != dir[k]
    ensures Distinct(chain)
  {
    var all := dir + chain;
    assert forall i :: 0 <= i < |dir| ==> all[i] == dir[i];
    assert forall i :: 0 <= i < |chain| ==> all[|dir| + i] == chain[i];
  }

  lemma StillDistinct(dir: seq<DynReloc>, chain: seq<DynReloc>, c: nat)
    requires Distinct(dir + chain) && c < |chain|
    ensures Distinct(dir + (chain[..c] + chain[c + 1..]))
  {
    var all, fewer := dir + chain, dir + (chain[..c] + chain[c + 1..]);
    forall i, j | 0 <= i < j < |fewer|
      ensures fewer[i] != fewer[j]
    {
      var i', j' := if i < |dir| + c then i else i + 1, if j < |dir| + c then j else j + 1;
      assert fewer[i] == all[i'] && fewer[j] == all[j'];
    }
  }
}
