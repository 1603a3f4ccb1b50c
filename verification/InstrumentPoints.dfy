/** Choosing instrumentation points (e9AFLPlugin.cpp, steps 2 to 4 of `calcInstrumentPoints`). */
module InstrumentPoints {
  import opened Coverage
  import opened Runs
  import opened BadBlocks

  datatype Option = Never | Default | Always
  datatype TargetKind = Direct | Other

  /** A disassembled instruction; `ends` for calls, returns and jumps, which end a block. */
  datatype Instr = Instr(address: int, size: nat, ends: bool)

  /** The size of the jump that a trampoline needs. */
  const JMPQ_SIZE: nat := 5

  ghost predicate Ordered(code: seq<Instr>) {
    forall i, j :: 0 <= i < j < |code| ==> code[i].address < code[j].address
  }

  type Targets = map<int, TargetKind>

  /** The index of the first instruction at an address, or the number of instructions when there is none. */
  function FindInstr(code: seq<Instr>, address: int): (i: nat)
    ensures i <= |code|
    ensures i < |code| ==> code[i].address == address
    ensures forall j :: 0 <= j < i ==> code[j].address != address
  {
    if code == [] then 0
    else if code[0].address == address then 0
    else 1 + FindInstr(code[1..], address)
  }

  /** The last instruction of the block that starts at instruction `k`. */
  function BlockEnd(code: seq<Instr>, targets: Targets, k: nat): (end: nat)
    requires k < |code|
    ensures k <= end < |code|
    decreases |code| - k
  {
    if k + 1 == |code| || code[k].ends || code[k].address + code[k].size != code[k + 1].address
       || code[k + 1].address in targets
    then k
    else BlockEnd(code, targets, k + 1)
  }

  /** Instruction `m` is the first of the block k..end that is large enough for a jump, or else the first
      of the largest ones; without selection it is the first instruction. */
  ghost predicate IsChoice(code: seq<Instr>, k: int, end: int, select: Option, m: int) {
    && 0 <= k <= m <= end < |code|
    && (forall t :: k <= t < m ==> code[t].size < code[m].size && code[t].size < 5)
    && (select == Never ==> m == k)
    && (select != Never && code[m].size < 5 ==> forall t :: k <= t <= end ==> code[t].size <= code[m].size)
  }

  method SelectPoint(code: seq<Instr>, targets: Targets, k: nat, select: Option) returns (point: int, size: nat)
    requires k < |code|
    ensures exists m :: IsChoice(code, k, BlockEnd(code, targets, k), select, m) && point == code[m].address && size == code[m].size
  {
    point, size := code[k].address, code[k].size;
    ghost var m := k;
    var i := k;
    while select != Never && i + 1 < |code| && size < JMPQ_SIZE
      invariant k <= m <= i <= BlockEnd(code, targets, k) == BlockEnd(code, targets, i)
      invariant point == code[m].address && size == code[m].size
      invariant forall t :: k <= t < m ==> code[t].size < size && code[t].size < JMPQ_SIZE
      invariant size < JMPQ_SIZE ==> forall t :: k <= t <= i ==> code[t].size <= size
      invariant select == Never ==> m == k
      decreases |code| - i
    {
      if code[i].ends { break; }
      if code[i].address + code[i].size != code[i + 1].address { break; }
      if code[i + 1].address in targets { break; }
      i := i + 1;
      if code[i].size > size {
        point, size := code[i].address, code[i].size;
        m := i;
      }
    }
  }

  lemma {:induction false} BlockStopsBeforeTarget(code: seq<Instr>, targets: Targets, k1: nat, k2: nat)
    requires k1 < k2 < |code| && code[k2].address in targets
    ensures BlockEnd(code, targets, k1) < k2
    decreases k2 - k1
  {
    if k1 + 1 < k2 {
      BlockStopsBeforeTarget(code, targets, k1 + 1, k2);
    }
  }

  /** `bb` has been given the choice made for it from the code. */
  ghost predicate Chosen(code: seq<Instr>, targets: Targets, select: Option, a: int, instrument: int, bad: bool) {
    var k := FindInstr(code, a);
    k < |code| && exists m ::
      && IsChoice(code, k, BlockEnd(code, targets, k), select, m)
      && instrument == code[m].address && (bad <==> code[m].size < 5)
  }

  /** Different blocks are instrumented at different addresses. */
  lemma PointsDiffer(code: seq<Instr>, targets: Targets, select: Option, a: int, p: int, abad: bool, b: int, q: int, bbad: bool)
    requires Ordered(code) && a in targets && b in targets && a != b
    requires Chosen(code, targets, select, a, p, abad) && Chosen(code, targets, select, b, q, bbad)
    ensures p != q
  {
    var k1, k2 := FindInstr(code, a), FindInstr(code, b);
    var m1 :| IsChoice(code, k1, BlockEnd(code, targets, k1), select, m1) && p == code[m1].address;
    var m2 :| IsChoice(code, k2, BlockEnd(code, targets, k2), select, m2) && q == code[m2].address;
    if k1 < k2 {
      BlockStopsBeforeTarget(code, targets, k1, k2);
    } else {
      BlockStopsBeforeTarget(code, targets, k2, k1);
    }
  }

  ghost predicate HasCode(code: seq<Instr>, targets: Targets, a: int) {
    a in targets && FindInstr(code, a) < |code|
  }

  /** What step 2 does for the block at `a`. */
  ghost predicate Prepared(code: seq<Instr>, targets: Targets, select: Option, oblock: Option, a: int,
                           instrument: int, bad: bool, optimized: bool)
    requires a in targets
  {
    && Chosen(code, targets, select, a, instrument, bad)
    && (optimized <==> oblock != Never && bad && targets[a] == Direct)
  }

  /** Step 2 for one block. */
  method PrepareBlock(cfg: CFG, code: seq<Instr>, targets: Targets, a: int, select: Option, oblock: Option)
    requires ValidCFG(cfg) && a in cfg && HasCode(code, targets, a)
    modifies cfg[a]
    ensures Prepared(code, targets, select, oblock, a, cfg[a].instrument, cfg[a].bad, cfg[a].optimized)
  {
    var k := FindInstr(code, a);
    var point, size := SelectPoint(code, targets, k, select);
    var bb := cfg[a];
    bb.instrument := point;
    bb.bad := size < JMPQ_SIZE;
    bb.optimized := oblock != Never && bb.bad && targets[a] == Direct;
  }

  /** Step 2: instrumentation points and bad blocks. */
  method ChoosePoints(cfg: CFG, code: seq<Instr>, targets: Targets, keys: seq<int>, select: Option, oblock: Option)
    requires ValidCFG(cfg) && forall a :: a in keys <==> a in targets
    requires forall a :: HasCode(code, targets, a) ==> a in cfg
    modifies cfg.Values
    ensures forall a :: HasCode(code, targets, a) ==>
      Prepared(code, targets, select, oblock, a, cfg[a].instrument, cfg[a].bad, cfg[a].optimized)
    ensures forall a :: a in cfg && !HasCode(code, targets, a) ==> unchanged(cfg[a])
  {
    for n := 0 to |keys|
      invariant forall i :: 0 <= i < n && HasCode(code, targets, keys[i]) ==> var a := keys[i];
        Prepared(code, targets, select, oblock, a, cfg[a].instrument, cfg[a].bad, cfg[a].optimized)
      invariant forall a :: a in cfg && !HasCode(code, targets, a) ==> unchanged(cfg[a])
    {
      var a := keys[n];
      assert a in targets;
      if FindInstr(code, a) < |code| {
        assert HasCode(code, targets, a);
        DistinctBlocks(cfg, a);
        PrepareBlock(cfg, code, targets, a, select, oblock);
      }
    }
  }

  lemma DistinctBlocks(cfg: CFG, a: int)
    requires ValidCFG(cfg) && a in cfg
    ensures forall b :: b in cfg && b != a ==> cfg[b] != cfg[a]
  {
    forall b | b in cfg && b != a
      ensures cfg[b] != cfg[a]
    {
      assert cfg[b].addr == b;
    }
  }

  // ---- what is observed at run time ----

  /** The instrumentation points a run passes. */
  function Observed(points: map<int, int>, trace: seq<int>): (r: seq<int>)
    requires forall i :: 0 <= i < |trace| ==> trace[i] in points
    ensures |r| == |trace| && forall i :: 0 <= i < |r| ==> r[i] == points[trace[i]]
  {
    if trace == [] then [] else [points[trace[0]]] + Observed(points, trace[1..])
  }

  ghost predicate InjectivePoints(points: map<int, int>) {
    forall a, b :: a in points && b in points && a != b ==> points[a] != points[b]
  }

  /** Points chosen block by block are different. */
  lemma ChosenPointsDiffer(code: seq<Instr>, targets: Targets, select: Option, points: map<int, int>)
    requires Ordered(code) && AllChosen(code, targets, select, points)
    ensures InjectivePoints(points)
  {
    forall a, b | a in points && b in points && a != b
      ensures points[a] != points[b]
    {
      var abad :| Chosen(code, targets, select, a, points[a], abad);
      var bbad :| Chosen(code, targets, select, b, points[b], bbad);
      PointsDiffer(code, targets, select, a, points[a], abad, b, points[b], bbad);
    }
  }

  ghost predicate AllChosen(code: seq<Instr>, targets: Targets, select: Option, points: map<int, int>) {
    forall a :: a in points ==> a in targets && exists bad :: Chosen(code, targets, select, a, points[a], bad)
  }

  /** Two runs from one instrumented block to instrumented blocks that show the same instrumentation addresses. */
  ghost predicate LookAlike(g: Graph, opt: set<int>, indirect: set<int>, points: map<int, int>, b: int, p: seq<int>, q: seq<int>) {
    && b in g && b !in opt && IsRun(g, indirect, b, p) && IsRun(g, indirect, b, q)
    && Tail(b, p) !in opt && Tail(b, q) !in opt
    && (forall i :: 0 <= i < |Trace(opt, p)| ==> Trace(opt, p)[i] in points)
    && (forall i :: 0 <= i < |Trace(opt, q)| ==> Trace(opt, q)[i] in points)
    && Observed(points, Trace(opt, p)) == Observed(points, Trace(opt, q))
  }

  /** The blocks of a trace are blocks of the graph, so every run shows addresses. */
  lemma {:induction false} TraceStaysInGraph(g: Graph, opt: set<int>, indirect: set<int>, b: int, run: seq<int>)
    requires IsRun(g, indirect, b, run) && b in g
    ensures forall i :: 0 <= i < |Trace(opt, run)| ==> Trace(opt, run)[i] in g
    decreases |run|
  {
    if run != [] {
      RunStaysInGraph(g, indirect, b, run);
      TraceStaysInGraph(g, opt, indirect, b, run[..|run| - 1]);
    }
  }

  /** Looking alike is being the same, block for block. */
  ghost predicate Observable(g: Graph, opt: set<int>, indirect: set<int>, points: map<int, int>) {
    forall b, p, q :: LookAlike(g, opt, indirect, points, b, p, q) ==> p == q
  }

  /** What is observed gives the trace, and the trace gives what is observed. */
  lemma SameObservationIsSameTrace(g: Graph, opt: set<int>, indirect: set<int>, points: map<int, int>, b: int, p: seq<int>, q: seq<int>)
    requires InjectivePoints(points) && points.Keys == g.Keys
    ensures LookAlike(g, opt, indirect, points, b, p, q) <==> SameTrace(g, opt, indirect, b, p, q)
  {
    var s, t := Trace(opt, p), Trace(opt, q);
    if SameTrace(g, opt, indirect, b, p, q) {
      TraceStaysInGraph(g, opt, indirect, b, p);
    }
    if LookAlike(g, opt, indirect, points, b, p, q) {
      assert |s| == |t|;
      forall i | 0 <= i < |s|
        ensures s[i] == t[i]
      {
        assert Observed(points, s)[i] == Observed(points, t)[i];
      }
      assert s == t;
    }
  }

  /** With points chosen from the code, what is observed tells the run if and only if no block is entered both through an
      unknown target and by a known successor; without unknown targets it always does. */
  lemma ObservationIsFaithful(g: Graph, opt: set<int>, indirect: set<int>, code: seq<Instr>, targets: Targets, select: Option,
                              points: map<int, int>)
    requires Determined(g, opt) && Instrumented(opt, indirect) && points.Keys == g.Keys
    requires Ordered(code) && AllChosen(code, targets, select, points)
    ensures Observable(g, opt, indirect, points) <==> NoMixedEntry(g, opt, indirect)
    ensures Observable(g, opt, {}, points)
  {
    ChosenPointsDiffer(code, targets, select, points);
    ObservableIff(g, opt, indirect, points);
    ObservableIff(g, opt, {}, points);
  }

  lemma ObservableIff(g: Graph, opt: set<int>, indirect: set<int>, points: map<int, int>)
    requires Determined(g, opt) && Instrumented(opt, indirect) && points.Keys == g.Keys && InjectivePoints(points)
    ensures Observable(g, opt, indirect, points) <==> NoMixedEntry(g, opt, indirect)
  {
    TraceTellsRunIff(g, opt, indirect);
    forall b, p, q
      ensures LookAlike(g, opt, indirect, points, b, p, q) <==> SameTrace(g, opt, indirect, b, p, q)
    {
      SameObservationIsSameTrace(g, opt, indirect, points, b, p, q);
    }
  }

  // ---- steps 2 to 4 ----

  ghost function PointsOf(cfg: CFG): map<int, int>
    reads cfg.Values
  {
    map a | a in cfg :: cfg[a].instrument
  }

  /** The blocks that unknown targets can be: every one that is not only a direct target. */
  function IndirectTargets(cfg: CFG, targets: Targets): set<int> {
    set a | a in cfg && a in targets && targets[a] != Direct
  }

  /** Step 4: the addresses of the blocks that are not optimized away. */
  method CollectPoints(cfg: CFG, cfgKeys: seq<int>) returns (instrument: set<int>)
    requires forall a :: a in cfgKeys <==> a in cfg
    ensures forall p :: p in instrument <==> exists a :: a in cfg && !cfg[a].optimized && cfg[a].instrument == p
  {
    instrument := {};
    for n := 0 to |cfgKeys|
      invariant forall p :: p in instrument <==> exists a :: a in cfgKeys[..n] && !cfg[a].optimized && cfg[a].instrument == p
    {
      var a := cfgKeys[n];
      assert a in cfg;
      if !cfg[a].optimized {
        instrument := instrument + {cfg[a].instrument};
      }
    }
    assert cfgKeys[..|cfgKeys|] == cfgKeys;
  }

  /** What is observed tells the run, with unknown targets if and only if no block is entered both through one and by a
      known successor. */
  ghost predicate TellsRuns(cfg: CFG, targets: Targets)
    requires ValidCFG(cfg)
    reads cfg.Values
  {
    var g, opt, indirect, points := GraphOf(cfg), Optimized(cfg), IndirectTargets(cfg, targets), PointsOf(cfg);
    Observable(g, opt, {}, points) && (Observable(g, opt, indirect, points) <==> NoMixedEntry(g, opt, indirect))
  }

  /** Every block has code and the point chosen for it, and only direct targets are optimized away. */
  ghost predicate FullyChosen(cfg: CFG, code: seq<Instr>, targets: Targets, select: Option)
    requires ValidCFG(cfg)
    reads cfg.Values
  {
    && (forall a :: a in cfg ==> HasCode(code, targets, a) && Chosen(code, targets, select, a, cfg[a].instrument, cfg[a].bad))
    && (forall a :: a in Optimized(cfg) ==> a in targets && targets[a] == Direct)
  }

  lemma CalculationTellsRuns(cfg: CFG, code: seq<Instr>, targets: Targets, select: Option)
    requires ValidCFG(cfg) && Ordered(code) && Determined(GraphOf(cfg), Optimized(cfg))
    requires FullyChosen(cfg, code, targets, select)
    ensures TellsRuns(cfg, targets)
  {
    ObservationIsFaithful(GraphOf(cfg), Optimized(cfg), IndirectTargets(cfg, targets), code, targets, select, PointsOf(cfg));
  }

  ghost function BadOnes(cfg: CFG): set<int>
    reads cfg.Values
  {
    set a | a in cfg && cfg[a].bad
  }

  /** Of the bad blocks `bad`, those that may be optimized away: direct targets with code. */
  ghost function Candidates(bad: set<int>, code: seq<Instr>, targets: Targets): set<int> {
    set a | a in bad && HasCode(code, targets, a) && targets[a] == Direct
  }

  /** Exactly what is optimized away: nothing, all candidates `start`, or by default all but those the elimination has
      cleared, each of them in conflict and reached from a block that was no candidate. */
  ghost predicate Eliminated(g: Graph, opt: set<int>, start: set<int>, oblock: Option) {
    match oblock
    case Never => opt == {}
    case Always => opt == start
    case Default =>
      && Determined(g, opt) && opt <= start
      && (forall x :: x in start - opt ==> Justified(g, opt, start, x) && Grounded(g, start, x))
      && (Clean(g, start) ==> opt == start)
  }

  /** Step 2: afterwards exactly the candidates are marked, or none. */
  method MarkBlocks(cfg: CFG, code: seq<Instr>, targets: Targets, targetKeys: seq<int>, select: Option, oblock: Option)
    requires ValidCFG(cfg) && forall a :: a in targetKeys <==> a in targets
    requires forall a :: HasCode(code, targets, a) ==> a in cfg
    requires forall a :: a in cfg ==> !cfg[a].optimized
    modifies cfg.Values
    ensures Optimized(cfg) == if oblock == Never then {} else Candidates(BadOnes(cfg), code, targets)
    ensures forall a :: HasCode(code, targets, a) ==> Chosen(code, targets, select, a, cfg[a].instrument, cfg[a].bad)
  {
    ChoosePoints(cfg, code, targets, targetKeys, select, oblock);
    forall a | a in cfg
      ensures cfg[a].optimized <==> oblock != Never && cfg[a].bad && HasCode(code, targets, a) && targets[a] == Direct
    {
      if HasCode(code, targets, a) {
        assert Prepared(code, targets, select, oblock, a, cfg[a].instrument, cfg[a].bad, cfg[a].optimized);
      }
    }
    ghost var start := Candidates(BadOnes(cfg), code, targets);
    assert forall a :: a in start <==> a in cfg && cfg[a].bad && HasCode(code, targets, a) && targets[a] == Direct;
    assert forall a :: a in Optimized(cfg) <==> oblock != Never && a in start;
  }

  /** Step 3 under the default option. */
  method DefaultElimination(cfg: CFG, cfgKeys: seq<int>, ghost start: set<int>)
    requires ValidCFG(cfg) && Optimized(cfg) == start && forall a :: a in cfgKeys <==> a in cfg
    modifies cfg.Values`optimized
    ensures Eliminated(GraphOf(cfg), Optimized(cfg), start, Default)
    ensures BadOnes(cfg) == old(BadOnes(cfg))
  {
    OptimizeAll(cfg, cfgKeys);
    assert forall a :: a in cfg ==> cfg[a].bad == old(cfg[a].bad);
  }

  /** Steps 2 and 3: points, bad blocks, and their elimination. */
  method EliminateBlocks(cfg: CFG, code: seq<Instr>, targets: Targets, targetKeys: seq<int>, cfgKeys: seq<int>,
                         select: Option, oblock: Option)
    requires ValidCFG(cfg)
    requires (forall a :: a in targetKeys <==> a in targets) && (forall a :: a in cfgKeys <==> a in cfg)
    requires forall a :: HasCode(code, targets, a) ==> a in cfg
    requires forall a :: a in cfg ==> !cfg[a].optimized
    modifies cfg.Values
    ensures Eliminated(GraphOf(cfg), Optimized(cfg), Candidates(BadOnes(cfg), code, targets), oblock)
    ensures forall a :: HasCode(code, targets, a) ==> Chosen(code, targets, select, a, cfg[a].instrument, cfg[a].bad)
  {
    MarkBlocks(cfg, code, targets, targetKeys, select, oblock);
    if oblock == Default {
      DefaultElimination(cfg, cfgKeys, Candidates(BadOnes(cfg), code, targets));
    }
  }

  /** Steps 2 to 4: the addresses to instrument, from which runs can be told when every block has code. */
  method CalcInstrumentPoints(cfg: CFG, code: seq<Instr>, targets: Targets, targetKeys: seq<int>, cfgKeys: seq<int>,
                              select: Option, oblock: Option) returns (instrument: set<int>)
    requires ValidCFG(cfg) && Ordered(code)
    requires (forall a :: a in targetKeys <==> a in targets) && (forall a :: a in cfgKeys <==> a in cfg)
    requires forall a :: HasCode(code, targets, a) ==> a in cfg
    requires forall a :: a in cfg ==> !cfg[a].optimized
    modifies cfg.Values
    ensures forall p :: p in instrument <==> exists a :: a in cfg && !cfg[a].optimized && cfg[a].instrument == p
    ensures Eliminated(GraphOf(cfg), Optimized(cfg), Candidates(BadOnes(cfg), code, targets), oblock)
    ensures oblock == Default && (forall a :: a in cfg ==> HasCode(code, targets, a)) ==> TellsRuns(cfg, targets)
    ensures forall a :: HasCode(code, targets, a) ==> Chosen(code, targets, select, a, cfg[a].instrument, cfg[a].bad)
  {
    EliminateBlocks(cfg, code, targets, targetKeys, cfgKeys, select, oblock);
    if oblock == Default && forall a :: a in cfg ==> HasCode(code, targets, a) {
      CalculationTellsRuns(cfg, code, targets, select);
    }
    instrument := CollectPoints(cfg, cfgKeys);
  }
}
