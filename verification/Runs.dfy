/** Runs that pass unknown targets: returns and indirect jumps, whose targets the control-flow graph does not name. */
module Runs {
  import opened Coverage

  /** Control goes from block `x` to block `y`: by a known successor, or through an unknown target, which can be any of
      the blocks `indirect`. */
  ghost predicate Follows(g: Graph, indirect: set<int>, x: int, y: int) {
    Edge(g, x, Block(y)) || Enters(g, indirect, x, y)
  }

  ghost predicate Enters(g: Graph, indirect: set<int>, x: int, y: int) {
    Edge(g, x, Unknown) && y in g && y in indirect
  }

  ghost predicate IsRun(g: Graph, indirect: set<int>, b: int, run: seq<int>)
    decreases |run|
  {
    run == [] ||
    (Follows(g, indirect, Tail(b, run[..|run| - 1]), Tail(b, run)) && IsRun(g, indirect, b, run[..|run| - 1]))
  }

  lemma RunStaysInGraph(g: Graph, indirect: set<int>, b: int, run: seq<int>)
    requires IsRun(g, indirect, b, run) && b in g
    ensures Tail(b, run) in g
  {}

  /** Only instrumented blocks are entered through unknown targets. */
  ghost predicate Instrumented(opt: set<int>, indirect: set<int>) {
    forall y :: y in indirect ==> y !in opt
  }

  /** On silent walks from `b`, block `x` goes to an unknown target and another block, `y`, to the known successor `c`,
      which the unknown target can be too. */
  ghost predicate MixedAt(g: Graph, opt: set<int>, indirect: set<int>, b: int, x: int, y: int, c: int) {
    && b in g && b !in opt && Reached(g, opt, b, x) && Reached(g, opt, b, y) && x != y
    && Enters(g, indirect, x, c) && Edge(g, y, Block(c))
  }

  /** No block is entered both ways from one instrumented block. */
  ghost predicate NoMixedEntry(g: Graph, opt: set<int>, indirect: set<int>) {
    forall b, x, y, c :: !MixedAt(g, opt, indirect, b, x, y, c)
  }

  /** Two runs from one instrumented block to instrumented blocks with the same trace. */
  ghost predicate SameTrace(g: Graph, opt: set<int>, indirect: set<int>, b: int, p: seq<int>, q: seq<int>) {
    && b in g && b !in opt && IsRun(g, indirect, b, p) && IsRun(g, indirect, b, q)
    && Tail(b, p) !in opt && Tail(b, q) !in opt && Trace(opt, p) == Trace(opt, q)
  }

  ghost predicate TraceTellsRun(g: Graph, opt: set<int>, indirect: set<int>) {
    forall b, p, q :: SameTrace(g, opt, indirect, b, p, q) ==> p == q
  }

  /** Splits a run after its last instrumented block: what follows is a silent walk. */
  lemma {:induction false} LastInstrumentedOfRun(g: Graph, opt: set<int>, indirect: set<int>, b: int, run: seq<int>)
      returns (front: seq<int>, path: seq<int>)
    requires IsRun(g, indirect, b, run) && b !in opt && Instrumented(opt, indirect)
    ensures run == front + path && IsRun(g, indirect, b, front) && Tail(b, front) !in opt
    ensures IsSilent(g, opt, Tail(b, front), path)
    ensures Trace(opt, front) == Trace(opt, run)
    ensures Tail(b, run) == Tail(Tail(b, front), path)
    decreases |run|
  {
    if run == [] || Tail(b, run) !in opt {
      front, path := run, [];
      assert run == run + [];
    } else {
      var shorter := run[..|run| - 1];
      var x := Tail(b, run);
      var path';
      front, path' := LastInstrumentedOfRun(g, opt, indirect, b, shorter);
      path := path' + [x];
      assert run == shorter + [x] == front + path;
      assert path[..|path| - 1] == path';
    }
  }

  /** Two silent walks that leave for the same instrumented block are the same. */
  lemma SilentPartsAgree(g: Graph, opt: set<int>, indirect: set<int>, b: int, p: seq<int>, q: seq<int>, c: int)
    requires b in g && b !in opt && SingleEntries(g, opt, b) && NoMixedEntry(g, opt, indirect)
    requires IsSilent(g, opt, b, p) && IsSilent(g, opt, b, q)
    requires Follows(g, indirect, Tail(b, p), c) && Follows(g, indirect, Tail(b, q), c)
    ensures p == q
  {
    var x, y := Tail(b, p), Tail(b, q);
    SingleEntriesAreUnique(g, opt, b);
    assert Reached(g, opt, b, x) && Reached(g, opt, b, y);
    assert !MixedAt(g, opt, indirect, b, x, y, c) && !MixedAt(g, opt, indirect, b, y, x, c);
    var n := if Edge(g, x, Block(c)) && Edge(g, y, Block(c)) then Block(c) else Unknown;
    if Edge(g, x, n) && Edge(g, y, n) {
      EntryMakesWalksUnique(g, opt, b, p, q, n);
    } else {
      // one enters by a known successor only, and then both are the same block
      var m := if Edge(g, x, Block(c)) then Block(c) else Unknown;
      EntryMakesWalksUnique(g, opt, b, p, q, m);
    }
  }

  lemma {:induction false} RunsAgree(g: Graph, opt: set<int>, indirect: set<int>, b: int, p: seq<int>, q: seq<int>)
    requires Determined(g, opt) && Instrumented(opt, indirect) && NoMixedEntry(g, opt, indirect)
    requires SameTrace(g, opt, indirect, b, p, q)
    ensures p == q
    decreases |p|
  {
    TraceEnds(opt, b, p);
    TraceEnds(opt, b, q);
    if p != [] && q != [] {
      var x := Tail(b, p);
      var p', q' := p[..|p| - 1], q[..|q| - 1];
      TracesBefore(opt, b, p, q);
      var pf, pp := LastInstrumentedOfRun(g, opt, indirect, b, p');
      var qf, qp := LastInstrumentedOfRun(g, opt, indirect, b, q');
      RunsAgree(g, opt, indirect, b, pf, qf);
      RunStaysInGraph(g, indirect, b, pf);
      SilentPartsAgree(g, opt, indirect, Tail(b, pf), pp, qp, x);
      assert p == p' + [x] && q == q' + [x];
    }
  }

  lemma {:induction false} SilentWalkIsRun(g: Graph, opt: set<int>, indirect: set<int>, b: int, path: seq<int>)
    requires IsSilent(g, opt, b, path)
    ensures IsRun(g, indirect, b, path) && Trace(opt, path) == []
    decreases |path|
  {
    if path != [] {
      SilentWalkIsRun(g, opt, indirect, b, path[..|path| - 1]);
    }
  }

  /** A silent walk and one more, instrumented, block. */
  lemma RunOfSilentWalk(g: Graph, opt: set<int>, indirect: set<int>, b: int, path: seq<int>, c: int)
    requires IsSilent(g, opt, b, path) && Follows(g, indirect, Tail(b, path), c) && c !in opt
    ensures IsRun(g, indirect, b, path + [c]) && Trace(opt, path + [c]) == [c] && Tail(b, path + [c]) == c
  {
    SilentWalkIsRun(g, opt, indirect, b, path);
    assert (path + [c])[..|path|] == path;
  }

  /** An entry both ways gives two runs with the same trace. */
  lemma MixedEntryHides(g: Graph, opt: set<int>, indirect: set<int>, b: int, x: int, y: int, c: int)
      returns (p: seq<int>, q: seq<int>)
    requires Instrumented(opt, indirect) && MixedAt(g, opt, indirect, b, x, y, c)
    ensures SameTrace(g, opt, indirect, b, p, q) && p != q
  {
    var s :| IsSilent(g, opt, b, s) && Tail(b, s) == x;
    var t :| IsSilent(g, opt, b, t) && Tail(b, t) == y;
    p, q := s + [c], t + [c];
    RunOfSilentWalk(g, opt, indirect, b, s, c);
    RunOfSilentWalk(g, opt, indirect, b, t, c);
    assert p[..|p| - 1] == s && q[..|q| - 1] == t;
  }

  /** After the elimination of bad blocks, the trace tells runs apart, unknown targets included, if and only if no block
      is entered both through an unknown target and by a known successor, from different blocks. */
  lemma TraceTellsRunIff(g: Graph, opt: set<int>, indirect: set<int>)
    requires Determined(g, opt) && Instrumented(opt, indirect)
    ensures TraceTellsRun(g, opt, indirect) <==> NoMixedEntry(g, opt, indirect)
  {
    if NoMixedEntry(g, opt, indirect) {
      forall b, p, q | SameTrace(g, opt, indirect, b, p, q)
        ensures p == q
      {
        RunsAgree(g, opt, indirect, b, p, q);
      }
    } else {
      var b, x, y, c :| MixedAt(g, opt, indirect, b, x, y, c);
      var p, q := MixedEntryHides(g, opt, indirect, b, x, y, c);
    }
  }

  /** Block 1 goes to 2 and 3, 2 to 4, and 3 returns, to 4: both ways show the trace 4, and the elimination sees no conflict. */
  lemma MixedEntryWitness(g: Graph, opt: set<int>)
    requires g == map[1 := [2, 3], 2 := [4], 3 := [-1], 4 := []] && opt == {2, 3}
    ensures Determined(g, opt) && Instrumented(opt, {4}) && Clean(g, opt)
    ensures SameTrace(g, opt, {4}, 1, [2, 4], [3, 4])
  {
    assert EdgeAt(g, 1, 0, Block(2)) && EdgeAt(g, 1, 1, Block(3)) && EdgeAt(g, 2, 0, Block(4)) && EdgeAt(g, 3, 0, Unknown);
    assert forall x, i: nat, y, j: nat, n :: EdgeAt(g, x, i, n) && EdgeAt(g, y, j, n) ==> x == y && i == j;
    assert [2, 4][..1] == [2] && [3, 4][..1] == [3] && [2][..0] == [] && [3][..0] == [];
    assert IsRun(g, {4}, 1, [2]) && IsRun(g, {4}, 1, [3]);
    assert Trace(opt, [2]) == [] == Trace(opt, [3]);
  }
}
