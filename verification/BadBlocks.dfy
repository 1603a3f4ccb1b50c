/** Elimination of bad-block instrumentation (e9AFLPlugin.cpp, `optimizePaths`, `optimizeBlock`, `verify`). */
module BadBlocks {
  import opened Coverage

  /** A basic block. `addr` is its key in the CFG. */
  class BB {
    ghost const addr: int
    const succs: seq<int>
    var instrument: int
    var optimized: bool
    var bad: bool

    constructor (addr: int, succs: seq<int>)
      ensures this.addr == addr && this.succs == succs
      ensures instrument == -1 && !optimized && !bad
    {
      this.addr, this.succs := addr, succs;
      instrument, optimized, bad := -1, false, false;
    }
  }

  type CFG = map<int, BB>

  /** Who entered a block first: the key `null` is an unknown target, the value `null` the starting block. */
  type Paths = map<BB?, BB?>

  ghost predicate ValidCFG(cfg: CFG) {
    forall a :: a in cfg ==> cfg[a].addr == a
  }

  function Find(cfg: CFG, succ: int): BB? {
    if succ in cfg then cfg[succ] else null
  }

  // ---- the value-level view ----

  ghost function GraphOf(cfg: CFG): Graph {
    map a | a in cfg :: cfg[a].succs
  }

  ghost function NodeOf(bb: BB?): Node {
    if bb == null then Unknown else Block(bb.addr)
  }

  ghost function Optimized(cfg: CFG): set<int>
    reads cfg.Values
  {
    set a | a in cfg && cfg[a].optimized
  }

  lemma FindResolves(cfg: CFG, succ: int)
    requires ValidCFG(cfg)
    ensures NodeOf(Find(cfg, succ)) == Resolve(GraphOf(cfg), succ)
  {}

  // ---- what one walk has recorded ----

  ghost predicate InCFG(cfg: CFG, bb: BB?) {
    bb != null ==> bb.addr in cfg && cfg[bb.addr] == bb
  }

  ghost function AddrOf(root: BB, pred: BB?): int {
    if pred == null then root.addr else pred.addr
  }

  /** Where blocks were first entered: a block and a successor number. */
  type Places = map<BB?, (int, nat)>

  /** The entry of `k` as successor `i` of `pred` (null: of the starting block) is the recorded one,
      or it cannot conflict any more. */
  ghost predicate Entered(opt: set<int>, paths: Paths, from: Places, pred: BB?, i: nat, k: BB?) {
    k in paths && k in from &&
    (if pred == null then paths[k] == null || paths[k].addr !in opt
     else (paths[k] == pred && from[k] == (pred.addr, i)) || pred.addr !in opt)
  }

  ghost predicate AllEntered(cfg: CFG, opt: set<int>, paths: Paths, from: Places, pred: BB?, succs: seq<int>) {
    forall i {:trigger succs[i]} :: 0 <= i < |succs| ==> Entered(opt, paths, from, pred, i, Find(cfg, succs[i]))
  }

  /** Every optimized block among `paths` outside `open` has had all its successors entered. */
  ghost predicate Explored(cfg: CFG, opt: set<int>, paths: Paths, from: Places, open: set<BB?>) {
    forall k :: k in paths && k != null && k !in open && k.addr in opt ==> AllEntered(cfg, opt, paths, from, k, k.succs)
  }

  lemma ExploredSurvives(cfg: CFG, opt: set<int>, opt': set<int>, paths: Paths, from: Places, open: set<BB?>)
    requires Explored(cfg, opt, paths, from, open) && opt' <= opt
    ensures Explored(cfg, opt', paths, from, open)
  {}

  /** `from[k]` is the place, a block and a successor number, where `k` was first entered. All places
      are on silent walks from `root` under the flags `start` with which the exploration began. */
  ghost predicate WellRecorded(cfg: CFG, start: set<int>, root: BB, paths: Paths, from: Places) {
    && from.Keys == paths.Keys
    && (forall k :: k in paths ==> InCFG(cfg, k) && InCFG(cfg, paths[k]))
    && (forall k :: k in paths && paths[k] != null ==> paths[k].addr in start && paths[k] in paths)
    && (forall k :: k in paths ==>
          && from[k].0 == AddrOf(root, paths[k])
          && Reached(GraphOf(cfg), start, root.addr, from[k].0)
          && EdgeAt(GraphOf(cfg), from[k].0, from[k].1, NodeOf(k)))
  }

  // ---- a finished record proves single entries ----

  lemma {:induction false} ReachedIsRecorded(cfg: CFG, opt: set<int>, root: BB, paths: Paths, from: Places, path: seq<int>)
    requires ValidCFG(cfg) && InCFG(cfg, root) && (forall k :: k in paths ==> InCFG(cfg, k))
    requires AllEntered(cfg, opt, paths, from, null, root.succs) && Explored(cfg, opt, paths, from, {})
    requires IsSilent(GraphOf(cfg), opt, root.addr, path)
    ensures Tail(root.addr, path) in cfg
    ensures path != [] ==> Tail(root.addr, path) in opt && cfg[Tail(root.addr, path)] in paths
    decreases |path|
  {
    if path != [] {
      var g, b := GraphOf(cfg), root.addr;
      var front := path[..|path| - 1];
      ReachedIsRecorded(cfg, opt, root, paths, from, front);
      var x, y := Tail(b, front), Tail(b, path);
      var i: nat :| EdgeAt(g, x, i, Block(y));
      var s := cfg[x].succs[i];
      FindResolves(cfg, s);
      assert Entered(opt, paths, from, if front == [] then null else cfg[x], i, Find(cfg, s));
    }
  }

  lemma RecordedEntry(cfg: CFG, opt: set<int>, root: BB, paths: Paths, from: Places, x: int, i: nat, n: Node)
      returns (k: BB?)
    requires ValidCFG(cfg) && InCFG(cfg, root) && root.addr !in opt && (forall k :: k in paths ==> InCFG(cfg, k))
    requires AllEntered(cfg, opt, paths, from, null, root.succs) && Explored(cfg, opt, paths, from, {})
    requires Reached(GraphOf(cfg), opt, root.addr, x) && EdgeAt(GraphOf(cfg), x, i, n)
    ensures InCFG(cfg, k) && NodeOf(k) == n && k in paths && k in from
    ensures if x == root.addr then paths[k] == null || paths[k].addr !in opt
            else x in opt && x in cfg && paths[k] == cfg[x] && from[k] == (x, i)
  {
    var g, b := GraphOf(cfg), root.addr;
    var path :| IsSilent(g, opt, b, path) && Tail(b, path) == x;
    ReachedIsRecorded(cfg, opt, root, paths, from, path);
    var s := cfg[x].succs[i];
    FindResolves(cfg, s);
    k := Find(cfg, s);
    assert Entered(opt, paths, from, if path == [] then null else cfg[x], i, k);
  }

  lemma RecordProvesSingleEntries(cfg: CFG, opt: set<int>, root: BB, paths: Paths, from: Places)
    requires ValidCFG(cfg) && InCFG(cfg, root) && root.addr !in opt && (forall k :: k in paths ==> InCFG(cfg, k))
    requires AllEntered(cfg, opt, paths, from, null, root.succs) && Explored(cfg, opt, paths, from, {})
    ensures SingleEntries(GraphOf(cfg), opt, root.addr)
  {
    var g, b := GraphOf(cfg), root.addr;
    forall x, i: nat, y, j: nat, n |
      Reached(g, opt, b, x) && Reached(g, opt, b, y) && EdgeAt(g, x, i, n) && EdgeAt(g, y, j, n)
      ensures x == y && (x != b ==> i == j)
    {
      var kx := RecordedEntry(cfg, opt, root, paths, from, x, i, n);
      var ky := RecordedEntry(cfg, opt, root, paths, from, y, j, n);
      assert kx == ky;
    }
  }

  // ---- what clearing flags achieves ----

  /** From flags `before` to `after`: every block cleared now has single entries, had to be cleared,
      and nothing is cleared when the flags `start` were free of conflicts. */
  ghost predicate Outcome(g: Graph, before: set<int>, after: set<int>, start: set<int>) {
    && after <= before
    && (forall x :: x in before - after ==> SingleEntries(g, after, x) && Justified(g, after, start, x))
    && (Clean(g, start) ==> after == before)
  }

  lemma OutcomesCompose(g: Graph, s0: set<int>, s1: set<int>, s2: set<int>, start: set<int>)
    requires Outcome(g, s0, s1, start) && Outcome(g, s1, s2, start)
    ensures Outcome(g, s0, s2, start)
  {
    forall x | x in s0 - s2
      ensures SingleEntries(g, s2, x) && Justified(g, s2, start, x)
    {
      if x !in s1 {
        SingleEntriesSurvive(g, s1, s2, x);
        JustifiedWidens(g, s1, start, s2, start, x);
      }
    }
  }

  /** What is cleared lies on silent walks from `r` under the flags `start`. */
  ghost predicate Within(g: Graph, before: set<int>, after: set<int>, start: set<int>, r: int) {
    forall x :: x in before - after ==> Reached(g, start, r, x)
  }

  /** Clearing a block and what is cleared from there. */
  lemma WithinOfClearing(g: Graph, before: set<int>, after: set<int>, start: set<int>, b: int, u: int)
    requires before <= start && Reached(g, start, b, u)
    requires Within(g, before - {u}, after, before - {u}, u)
    ensures Within(g, before, after, start, b)
  {
    forall x | x in before - after && x != u
      ensures Reached(g, start, b, x)
    {
      ReachedWithMore(g, start, before - {u}, u, x);
      ReachedOnward(g, start, b, u, x);
    }
  }

  lemma OutcomeOfClearing(g: Graph, before: set<int>, after: set<int>, start: set<int>, b: int, x: int)
    requires before <= start && b !in start && Conflict(g, start, b, x)
    requires Outcome(g, before - {x}, after, before - {x}) && SingleEntries(g, after, x)
    ensures Outcome(g, before, after, start)
  {
    assert ConflictFrom(g, after, start, x, start, b);
    forall y | y in before - after && y != x
      ensures Justified(g, after, start, y)
    {
      JustifiedWidens(g, after, before - {x}, after, start, y);
    }
  }

  // ---- the mutually recursive exploration ----

  /** The state of an exploration from `root` that began with the flags `start`. */
  ghost predicate Exploring(cfg: CFG, opt: set<int>, root: BB, start: set<int>, paths: Paths,
                            from: Places, open: set<BB?>) {
    && ValidCFG(cfg) && InCFG(cfg, root)
    && opt <= start && root.addr !in start
    && WellRecorded(cfg, start, root, paths, from)
    && Explored(cfg, opt, paths, from, open)
  }

  /** Successor number `i` of `pred` (null: of `root`) is about to be entered, for the first time. */
  ghost predicate AtPlace(cfg: CFG, root: BB, start: set<int>, paths: Paths, from: Places,
                          pred: BB?, i: nat, succ: BB?) {
    var x := AddrOf(root, pred);
    && InCFG(cfg, pred) && InCFG(cfg, succ)
    && (pred != null ==> pred in paths && pred.addr in start)
    && Reached(GraphOf(cfg), start, root.addr, x)
    && EdgeAt(GraphOf(cfg), x, i, NodeOf(succ))
    && (forall k :: k in from ==> from[k] != (x, i))
  }

  /** All places recorded since `paths` are successors of `x` numbered from `i` up to `j`, or lie in
      blocks that were entered since. */
  ghost predicate NewPlaces(cfg: CFG, start: set<int>, paths: Paths, from: Places,
                            paths': Paths, from': Places, x: int, i: nat, j: nat) {
    && paths.Keys == from.Keys && paths'.Keys == from'.Keys
    && (forall k :: k in paths ==> k in paths' && paths'[k] == paths[k] && from'[k] == from[k])
    && (forall k :: k in paths' && k !in paths ==>
          (from'[k].0 == x && i <= from'[k].1 < j)
          || (from'[k].0 in start && from'[k].0 in cfg && cfg[from'[k].0] !in paths))
  }

  lemma PlacesAccumulate(cfg: CFG, start: set<int>, p0: Paths, f0: Places, p1: Paths, f1: Places,
                         p2: Paths, f2: Places, x: int, i: nat, j: nat)
    requires NewPlaces(cfg, start, p0, f0, p1, f1, x, i, j) && NewPlaces(cfg, start, p1, f1, p2, f2, x, j, j + 1)
    requires i <= j
    ensures NewPlaces(cfg, start, p0, f0, p2, f2, x, i, j + 1)
  {}

  /** A block has no place recorded for its successor `j` while only earlier ones have been entered. */
  lemma NextPlaceIsNew(cfg: CFG, root: BB, start: set<int>, paths: Paths, from: Places,
                       paths': Paths, from': Places, pred: BB?, bb: BB, j: nat)
    requires InCFG(cfg, bb) && root.addr !in start
    requires if pred == null then bb == root else bb == pred && bb in paths
    requires forall k :: k in from ==> from[k].0 != bb.addr
    requires NewPlaces(cfg, start, paths, from, paths', from', bb.addr, 0, j)
    ensures forall k :: k in from' ==> from'[k] != (bb.addr, j)
  {}

  lemma SecondEntryIsConflict(cfg: CFG, opt: set<int>, root: BB, start: set<int>, paths: Paths,
                              from: Places, open: set<BB?>, pred: BB?, i: nat, succ: BB?)
    requires Exploring(cfg, opt, root, start, paths, from, open)
    requires AtPlace(cfg, root, start, paths, from, pred, i, succ) && succ in paths
    ensures pred != null ==> Conflict(GraphOf(cfg), start, root.addr, pred.addr)
    ensures pred == null && paths[succ] != null ==> Conflict(GraphOf(cfg), start, root.addr, paths[succ].addr)
  {
    var g, x, n := GraphOf(cfg), AddrOf(root, pred), NodeOf(succ);
    var y, j := from[succ].0, from[succ].1;
    assert EdgeAt(g, x, i, n) && EdgeAt(g, y, j, n) && (x, i) != (y, j);
  }

  lemma ExploredAfterEntry(cfg: CFG, opt: set<int>, paths: Paths, from: Places, open: set<BB?>,
                           pred: BB?, place: (int, nat), succ: BB?)
    requires Explored(cfg, opt, paths, from, open) && succ !in paths
    ensures Explored(cfg, opt, paths[succ := pred], from[succ := place], open + {succ})
  {
    var paths', from' := paths[succ := pred], from[succ := place];
    forall k | k in paths' && k != null && k !in open + {succ} && k.addr in opt
      ensures AllEntered(cfg, opt, paths', from', k, k.succs)
    {
      forall i {:trigger k.succs[i]} | 0 <= i < |k.succs|
        ensures Entered(opt, paths', from', k, i, Find(cfg, k.succs[i]))
      {
        assert Entered(opt, paths, from, k, i, Find(cfg, k.succs[i]));
      }
    }
  }

  lemma RecordedAfterEntry(cfg: CFG, root: BB, start: set<int>, paths: Paths, from: Places,
                           pred: BB?, i: nat, succ: BB?)
    requires WellRecorded(cfg, start, root, paths, from)
    requires AtPlace(cfg, root, start, paths, from, pred, i, succ) && succ !in paths
    ensures WellRecorded(cfg, start, root, paths[succ := pred], from[succ := (AddrOf(root, pred), i)])
  {
    var paths', from' := paths[succ := pred], from[succ := (AddrOf(root, pred), i)];
    forall k | k in paths'
      ensures InCFG(cfg, k) && InCFG(cfg, paths'[k])
      ensures paths'[k] != null ==> paths'[k].addr in start && paths'[k] in paths'
      ensures from'[k].0 == AddrOf(root, paths'[k])
      ensures Reached(GraphOf(cfg), start, root.addr, from'[k].0)
      ensures EdgeAt(GraphOf(cfg), from'[k].0, from'[k].1, NodeOf(k))
    {
      if k != succ {
        assert k in paths && paths'[k] == paths[k] && from'[k] == from[k];
      }
    }
  }

  /** A second entry: after clearing one of the two blocks it is entered from, nothing conflicts. */
  lemma SecondEntryResolved(cfg: CFG, before: set<int>, after: set<int>, root: BB, start: set<int>, paths: Paths,
                            from: Places, open: set<BB?>, pred: BB?, i: nat, succ: BB?)
    requires Exploring(cfg, before, root, start, paths, from, open) && after <= before
    requires AtPlace(cfg, root, start, paths, from, pred, i, succ) && succ in paths
    requires pred != null ==> pred.addr !in after
    requires pred == null && paths[succ] != null ==> paths[succ].addr !in after
    ensures Exploring(cfg, after, root, start, paths, from, open)
    ensures Entered(after, paths, from, pred, i, succ)
    ensures NewPlaces(cfg, start, paths, from, paths, from, AddrOf(root, pred), i, i + 1)
  {
    ExploredSurvives(cfg, before, after, paths, from, open);
  }

  lemma EnterFirst(cfg: CFG, opt: set<int>, root: BB, start: set<int>, paths: Paths,
                   from: Places, open: set<BB?>, pred: BB?, i: nat, succ: BB?, paths': Paths, from': Places)
    requires Exploring(cfg, opt, root, start, paths, from, open)
    requires AtPlace(cfg, root, start, paths, from, pred, i, succ) && succ !in paths
    requires paths' == paths[succ := pred] && from' == from[succ := (AddrOf(root, pred), i)]
    ensures Exploring(cfg, opt, root, start, paths', from', open + {succ})
  {
    ExploredAfterEntry(cfg, opt, paths, from, open, pred, (AddrOf(root, pred), i), succ);
    RecordedAfterEntry(cfg, root, start, paths, from, pred, i, succ);
  }

  /** A first entry of a node from which the walk does not go on. */
  lemma LeafEntered(cfg: CFG, opt: set<int>, root: BB, start: set<int>, paths: Paths,
                    from: Places, open: set<BB?>, pred: BB?, i: nat, succ: BB?, paths': Paths, from': Places)
    requires paths.Keys == from.Keys && succ !in paths && (succ != null ==> succ.addr !in opt)
    requires paths' == paths[succ := pred] && from' == from[succ := (AddrOf(root, pred), i)]
    requires Exploring(cfg, opt, root, start, paths', from', open + {succ})
    ensures Exploring(cfg, opt, root, start, paths', from', open)
    ensures Entered(opt, paths', from', pred, i, succ)
    ensures NewPlaces(cfg, start, paths, from, paths', from', AddrOf(root, pred), i, i + 1)
  {
    CloseUnoptimized(cfg, opt, paths', from', open, succ);
  }

  /** A first entry of an optimized block, once all its successors have been entered. */
  lemma BlockFinished(cfg: CFG, opt: set<int>, root: BB, start: set<int>, paths: Paths, from: Places, open: set<BB?>,
                      pred: BB?, i: nat, succ: BB, p1: Paths, f1: Places, p2: Paths, f2: Places)
    requires paths.Keys == from.Keys && succ !in paths && InCFG(cfg, succ) && succ.addr in start
    requires p1 == paths[succ := pred] && f1 == from[succ := (AddrOf(root, pred), i)]
    requires NewPlaces(cfg, start, p1, f1, p2, f2, succ.addr, 0, |succ.succs|)
    requires Exploring(cfg, opt, root, start, p2, f2, open + {succ})
    requires AllEntered(cfg, opt, p2, f2, succ, succ.succs)
    ensures Exploring(cfg, opt, root, start, p2, f2, open)
    ensures Entered(opt, p2, f2, pred, i, succ)
    ensures NewPlaces(cfg, start, paths, from, p2, f2, AddrOf(root, pred), i, i + 1)
  {
    CloseBlock(cfg, opt, p2, f2, open, succ);
    PlacesInside(cfg, start, paths, from, pred, i, succ, root, p1, f1, p2, f2);
  }

  lemma LessLeft(cfg: CFG, paths: Paths, succ: BB?, pred: BB?)
    requires InCFG(cfg, succ) && succ !in paths
    ensures cfg.Values + {null} - paths[succ := pred].Keys < cfg.Values + {null} - paths.Keys
  {
    assert succ in cfg.Values + {null} - paths.Keys;
  }

  method OptimizePaths(cfg: CFG, pred: BB?, succ: BB?, paths: Paths,
                       ghost root: BB, ghost start: set<int>, ghost open: set<BB?>,
                       ghost i: nat, ghost from: Places)
    returns (paths': Paths, ghost from': Places)
    requires Exploring(cfg, Optimized(cfg), root, start, paths, from, open)
    requires AtPlace(cfg, root, start, paths, from, pred, i, succ)
    modifies cfg.Values`optimized
    ensures Exploring(cfg, Optimized(cfg), root, start, paths', from', open)
    ensures Entered(Optimized(cfg), paths', from', pred, i, succ)
    ensures NewPlaces(cfg, start, paths, from, paths', from', AddrOf(root, pred), i, i + 1)
    ensures Outcome(GraphOf(cfg), old(Optimized(cfg)), Optimized(cfg), start)
    ensures Within(GraphOf(cfg), old(Optimized(cfg)), Optimized(cfg), start, root.addr)
    decreases start, 1, cfg.Values + {null} - paths.Keys, 1
  {
    ghost var g, before := GraphOf(cfg), Optimized(cfg);
    paths', from' := paths, from;
    if succ in paths {
      // Several paths to succ.
      var unopt: BB? := if pred != null then pred else paths[succ];
      if unopt != null {
        SecondEntryIsConflict(cfg, before, root, start, paths, from, open, pred, i, succ);
        ClearBlock(cfg, unopt, root.addr, start);
      }
      SecondEntryResolved(cfg, before, Optimized(cfg), root, start, paths, from, open, pred, i, succ);
      return;
    }
    paths' := paths[succ := pred];
    from' := from[succ := (AddrOf(root, pred), i)];
    EnterFirst(cfg, before, root, start, paths, from, open, pred, i, succ, paths', from');
    if succ == null || !succ.optimized {
      LeafEntered(cfg, before, root, start, paths, from, open, pred, i, succ, paths', from');
      return;
    }
    FreshBlock(cfg, root, start, paths, from, pred, i, succ);
    LessLeft(cfg, paths, succ, pred);
    ghost var p1, f1 := paths', from';
    paths', from' := EnterSuccessors(cfg, succ, succ, paths', root, start, open + {succ}, from');
    BlockFinished(cfg, Optimized(cfg), root, start, paths, from, open, pred, i, succ, p1, f1, paths', from');
  }

  /** Everything entered while exploring a new block is new to the block it was entered from. */
  lemma PlacesInside(cfg: CFG, start: set<int>, paths: Paths, from: Places, pred: BB?, i: nat, succ: BB,
                     root: BB, p1: Paths, f1: Places, p2: Paths, f2: Places)
    requires paths.Keys == from.Keys && succ !in paths && InCFG(cfg, succ) && succ.addr in start
    requires p1 == paths[succ := pred] && f1 == from[succ := (AddrOf(root, pred), i)]
    requires NewPlaces(cfg, start, p1, f1, p2, f2, succ.addr, 0, |succ.succs|)
    ensures NewPlaces(cfg, start, paths, from, p2, f2, AddrOf(root, pred), i, i + 1)
  {}

  /** Instruments a block after all and restarts from it. */
  method ClearBlock(cfg: CFG, unopt: BB, ghost b: int, ghost start: set<int>)
    requires ValidCFG(cfg) && InCFG(cfg, unopt) && Optimized(cfg) <= start && unopt.addr in start
    requires b !in start && Conflict(GraphOf(cfg), start, b, unopt.addr)
    modifies cfg.Values`optimized
    ensures unopt.addr !in Optimized(cfg)
    ensures Outcome(GraphOf(cfg), old(Optimized(cfg)), Optimized(cfg), start)
    ensures Within(GraphOf(cfg), old(Optimized(cfg)), Optimized(cfg), start, b)
    decreases start, 0
  {
    ghost var before := Optimized(cfg);
    unopt.optimized := false;
    forall a | a in cfg
      ensures cfg[a].optimized <==> a in before && a != unopt.addr
    {
      assert cfg[a].addr == a;
    }
    assert Optimized(cfg) == before - {unopt.addr};
    OptimizeBlock(cfg, unopt);
    OutcomeOfClearing(GraphOf(cfg), before, Optimized(cfg), start, b, unopt.addr);
    WithinOfClearing(GraphOf(cfg), before, Optimized(cfg), start, b, unopt.addr);
  }

  /** A block that has just been entered has no places recorded yet. */
  lemma FreshBlock(cfg: CFG, root: BB, start: set<int>, paths: Paths, from: Places,
                   pred: BB?, i: nat, succ: BB)
    requires ValidCFG(cfg) && InCFG(cfg, root) && root.addr !in start && WellRecorded(cfg, start, root, paths, from)
    requires AtPlace(cfg, root, start, paths, from, pred, i, succ) && succ !in paths && succ.addr in start
    ensures var from' := from[succ := (AddrOf(root, pred), i)];
            forall k :: k in from' ==> from'[k].0 != succ.addr
    ensures Reached(GraphOf(cfg), start, root.addr, succ.addr)
  {
    var x := AddrOf(root, pred);
    assert EdgeAt(GraphOf(cfg), x, i, Block(succ.addr));
    StepFurther(GraphOf(cfg), start, root.addr, x, succ.addr);
  }

  lemma CloseUnoptimized(cfg: CFG, opt: set<int>, paths: Paths, from: Places, open: set<BB?>, bb: BB?)
    requires Explored(cfg, opt, paths, from, open + {bb}) && (bb != null ==> bb.addr !in opt)
    ensures Explored(cfg, opt, paths, from, open)
  {}

  lemma CloseBlock(cfg: CFG, opt: set<int>, paths: Paths, from: Places, open: set<BB?>, bb: BB)
    requires Explored(cfg, opt, paths, from, open + {bb}) && AllEntered(cfg, opt, paths, from, bb, bb.succs)
    ensures Explored(cfg, opt, paths, from, open)
  {}

  /** The loop over the successors of `bb`, shared by `optimizePaths` (from `bb`) and `optimizeBlock`
      (from null: `bb` is where the exploration starts). */
  method EnterSuccessors(cfg: CFG, pred: BB?, bb: BB, paths: Paths,
                         ghost root: BB, ghost start: set<int>, ghost open: set<BB?>, ghost from: Places)
    returns (paths': Paths, ghost from': Places)
    requires Exploring(cfg, Optimized(cfg), root, start, paths, from, open)
    requires if pred == null then bb == root else bb == pred && bb in paths && bb.addr in start
    requires InCFG(cfg, bb) && Reached(GraphOf(cfg), start, root.addr, bb.addr)
    requires forall k :: k in from ==> from[k].0 != bb.addr
    modifies cfg.Values`optimized
    ensures Exploring(cfg, Optimized(cfg), root, start, paths', from', open)
    ensures AllEntered(cfg, Optimized(cfg), paths', from', pred, bb.succs)
    ensures NewPlaces(cfg, start, paths, from, paths', from', bb.addr, 0, |bb.succs|)
    ensures Outcome(GraphOf(cfg), old(Optimized(cfg)), Optimized(cfg), start)
    ensures Within(GraphOf(cfg), old(Optimized(cfg)), Optimized(cfg), start, root.addr)
    decreases start, 1, cfg.Values + {null} - paths.Keys, 2
  {
    ghost var g, before := GraphOf(cfg), Optimized(cfg);
    paths', from' := paths, from;
    for j := 0 to |bb.succs|
      invariant Exploring(cfg, Optimized(cfg), root, start, paths', from', open)
      invariant NewPlaces(cfg, start, paths, from, paths', from', bb.addr, 0, j)
      invariant AllEntered(cfg, Optimized(cfg), paths', from', pred, bb.succs[..j])
      invariant Outcome(g, before, Optimized(cfg), start) && Within(g, before, Optimized(cfg), start, root.addr)
    {
      var succ := Find(cfg, bb.succs[j]);
      FindResolves(cfg, bb.succs[j]);
      ghost var opt0, paths0, from0 := Optimized(cfg), paths', from';
      NextPlaceIsNew(cfg, root, start, paths, from, paths', from', pred, bb, j);
      assert EdgeAt(g, bb.addr, j, NodeOf(succ));
      assert cfg.Values + {null} - paths'.Keys <= cfg.Values + {null} - paths.Keys;
      paths', from' := OptimizePaths(cfg, pred, succ, paths', root, start, open, j, from');
      PlacesAccumulate(cfg, start, paths, from, paths0, from0, paths', from', bb.addr, 0, j);
      EnteredPrefix(cfg, opt0, Optimized(cfg), paths0, from0, paths', from', pred, bb.succs, j);
      OutcomesCompose(g, before, opt0, Optimized(cfg), start);
    }
    assert bb.succs[..|bb.succs|] == bb.succs;
  }

  lemma EnteredPrefix(cfg: CFG, opt: set<int>, opt': set<int>, paths: Paths, from: Places, paths': Paths, from': Places,
                      pred: BB?, succs: seq<int>, j: nat)
    requires j < |succs| && opt' <= opt && paths.Keys == from.Keys <= paths'.Keys == from'.Keys
    requires forall k :: k in paths ==> paths'[k] == paths[k] && from'[k] == from[k]
    requires AllEntered(cfg, opt, paths, from, pred, succs[..j])
    requires Entered(opt', paths', from', pred, j, Find(cfg, succs[j]))
    ensures AllEntered(cfg, opt', paths', from', pred, succs[..j + 1])
  {
    forall i {:trigger succs[..j + 1][i]} | 0 <= i < j + 1
      ensures Entered(opt', paths', from', pred, i, Find(cfg, succs[..j + 1][i]))
    {
      if i < j {
        assert Entered(opt, paths, from, pred, i, Find(cfg, succs[..j][i]));
      }
    }
  }

  /** `optimizeBlock`: explores from an instrumented block and clears flags until every node reached
      from it, and from every block cleared on the way, has a single entry. */
  method OptimizeBlock(cfg: CFG, bb: BB)
    requires ValidCFG(cfg) && InCFG(cfg, bb)
    modifies cfg.Values`optimized
    ensures bb.addr !in old(Optimized(cfg)) ==> SingleEntries(GraphOf(cfg), Optimized(cfg), bb.addr)
    ensures bb.addr in old(Optimized(cfg)) ==> Optimized(cfg) == old(Optimized(cfg))
    ensures Outcome(GraphOf(cfg), old(Optimized(cfg)), Optimized(cfg), old(Optimized(cfg)))
    ensures Within(GraphOf(cfg), old(Optimized(cfg)), Optimized(cfg), old(Optimized(cfg)), bb.addr)
    decreases Optimized(cfg), 2
  {
    if bb.optimized {
      return;
    }
    ghost var g, start := GraphOf(cfg), Optimized(cfg);
    var paths: Paths := map[];
    ghost var from: Places := map[];
    assert IsSilent(g, start, bb.addr, []) && Tail(bb.addr, []) == bb.addr;
    paths, from := EnterSuccessors(cfg, null, bb, paths, bb, start, {}, from);
    RecordProvesSingleEntries(cfg, Optimized(cfg), bb, paths, from);
  }

  /** Step 3: the pass over all blocks, in whatever order the map yields its keys. */
  method OptimizeAll(cfg: CFG, keys: seq<int>)
    requires ValidCFG(cfg) && forall a :: a in keys <==> a in cfg
    modifies cfg.Values`optimized
    ensures Determined(GraphOf(cfg), Optimized(cfg))
    ensures Optimized(cfg) <= old(Optimized(cfg))
    ensures forall x :: x in old(Optimized(cfg)) - Optimized(cfg) ==>
      Justified(GraphOf(cfg), Optimized(cfg), old(Optimized(cfg)), x)
    ensures forall x :: x in old(Optimized(cfg)) - Optimized(cfg) ==> Grounded(GraphOf(cfg), old(Optimized(cfg)), x)
    ensures Clean(GraphOf(cfg), old(Optimized(cfg))) ==> Optimized(cfg) == old(Optimized(cfg))
  {
    ghost var g, start := GraphOf(cfg), Optimized(cfg);
    for n := 0 to |keys|
      invariant Outcome(g, start, Optimized(cfg), start)
      invariant forall x :: x in start - Optimized(cfg) ==> Grounded(g, start, x)
      invariant forall b :: b in keys[..n] && b !in Optimized(cfg) ==> SingleEntries(g, Optimized(cfg), b)
    {
      var a := keys[n];
      assert a in cfg;
      ghost var opt0 := Optimized(cfg);
      assert cfg[a].addr == a;
      OptimizeBlock(cfg, cfg[a]);
      ghost var opt1 := Optimized(cfg);
      OutcomeFromLater(g, start, opt0, opt1);
      GroundedFromLater(g, start, opt0, opt1, a);
      forall b | b in keys[..n + 1] && b !in opt1
        ensures SingleEntries(g, opt1, b)
      {
        if b != a && b !in opt0 { SingleEntriesSurvive(g, opt0, opt1, b); }
      }
    }
  }

  /** What is cleared from a block that was grounded or not optimized is grounded. */
  lemma GroundedFromLater(g: Graph, start: set<int>, opt0: set<int>, opt1: set<int>, a: int)
    requires opt0 <= start && Within(g, opt0, opt1, opt0, a)
    requires (forall x :: x in start - opt0 ==> Grounded(g, start, x)) && (a in opt0 ==> opt1 == opt0) && opt1 <= opt0
    ensures forall x :: x in start - opt1 ==> Grounded(g, start, x)
  {
    forall x | x in opt0 - opt1
      ensures Grounded(g, start, x)
    {
      ReachedWithMore(g, start, opt0, a, x);
      assert a !in opt0;
      if a in start {
        assert Grounded(g, start, a);
        var r :| r !in start && Reached(g, start, r, a);
        ReachedOnward(g, start, r, a, x);
      }
    }
  }

  /** A call that began later only adds to what has been achieved. */
  lemma OutcomeFromLater(g: Graph, start: set<int>, opt0: set<int>, opt1: set<int>)
    requires Outcome(g, start, opt0, start) && Outcome(g, opt0, opt1, opt0)
    ensures Outcome(g, start, opt1, start)
  {
    forall x | x in opt0 - opt1
      ensures Justified(g, opt1, start, x)
    {
      JustifiedWidens(g, opt1, opt0, opt1, start, x);
    }
    OutcomesCompose(g, start, opt0, opt1, start);
  }
}
