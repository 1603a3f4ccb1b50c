/** Control-flow graphs, walks through uninstrumented blocks, and what a coverage trace determines. */
module Coverage {

  /** A block's successor addresses, by block address. Addresses outside the map are unknown targets. */
  type Graph = map<int, seq<int>>

  datatype Node = Unknown | Block(addr: int)

  function Resolve(g: Graph, target: int): Node {
    if target in g then Block(target) else Unknown
  }

  /** Control can leave block `x` for `n` through its successor number `i`. */
  ghost predicate EdgeAt(g: Graph, x: int, i: nat, n: Node) {
    x in g && i < |g[x]| && Resolve(g, g[x][i]) == n
  }

  ghost predicate Edge(g: Graph, x: int, n: Node) {
    exists i :: EdgeAt(g, x, i, n)
  }

  // ---- silent walks: from a block through optimized (uninstrumented) blocks only ----

  function Tail(b: int, path: seq<int>): int {
    if path == [] then b else path[|path| - 1]
  }

  ghost predicate IsSilent(g: Graph, opt: set<int>, b: int, path: seq<int>)
    decreases |path|
  {
    path == [] ||
    var front := path[..|path| - 1];
    IsSilent(g, opt, b, front) && Edge(g, Tail(b, front), Block(Tail(b, path))) && Tail(b, path) in opt
  }

  /** A silent walk from `b` has come to `x`. */
  ghost predicate Reached(g: Graph, opt: set<int>, b: int, x: int) {
    exists path :: IsSilent(g, opt, b, path) && Tail(b, path) == x
  }

  /** Every node that silent walks from `b` enter is entered from a single block. */
  ghost predicate UniqueEntry(g: Graph, opt: set<int>, b: int) {
    forall x, y, n :: Reached(g, opt, b, x) && Reached(g, opt, b, y) && Edge(g, x, n) && Edge(g, y, n) ==> x == y
  }

  /** Every node is entered at a single place, except that `b` itself may name a successor twice. */
  ghost predicate SingleEntries(g: Graph, opt: set<int>, b: int) {
    forall x, i: nat, y, j: nat, n ::
      Reached(g, opt, b, x) && Reached(g, opt, b, y) && EdgeAt(g, x, i, n) && EdgeAt(g, y, j, n) ==>
        x == y && (x != b ==> i == j)
  }

  lemma SingleEntriesAreUnique(g: Graph, opt: set<int>, b: int)
    requires SingleEntries(g, opt, b)
    ensures UniqueEntry(g, opt, b)
  {
    forall x, y, n | Reached(g, opt, b, x) && Reached(g, opt, b, y) && Edge(g, x, n) && Edge(g, y, n)
      ensures x == y
    {
      var i: nat :| EdgeAt(g, x, i, n);
      var j: nat :| EdgeAt(g, y, j, n);
    }
  }

  /** At most one silent walk from `b` to any node. */
  ghost predicate UniqueWalks(g: Graph, opt: set<int>, b: int) {
    forall p, q, n ::
      IsSilent(g, opt, b, p) && IsSilent(g, opt, b, q) && Edge(g, Tail(b, p), n) && Edge(g, Tail(b, q), n) ==> p == q
  }

  lemma {:induction false} SilentBlocksAreOptimized(g: Graph, opt: set<int>, b: int, path: seq<int>)
    requires IsSilent(g, opt, b, path)
    ensures forall i :: 0 <= i < |path| ==> path[i] in opt
    decreases |path|
  {
    if path != [] {
      SilentBlocksAreOptimized(g, opt, b, path[..|path| - 1]);
    }
  }

  lemma {:induction false} EntryMakesWalksUnique(g: Graph, opt: set<int>, b: int, p: seq<int>, q: seq<int>, n: Node)
    requires b !in opt && UniqueEntry(g, opt, b)
    requires IsSilent(g, opt, b, p) && IsSilent(g, opt, b, q)
    requires Edge(g, Tail(b, p), n) && Edge(g, Tail(b, q), n)
    ensures p == q
    decreases |p|
  {
    assert Reached(g, opt, b, Tail(b, p)) && Reached(g, opt, b, Tail(b, q));
    var x := Tail(b, p);
    assert Tail(b, q) == x;
    SilentBlocksAreOptimized(g, opt, b, p);
    SilentBlocksAreOptimized(g, opt, b, q);
    if p != [] && q != [] {
      EntryMakesWalksUnique(g, opt, b, p[..|p| - 1], q[..|q| - 1], Block(x));
      assert p == p[..|p| - 1] + [x] && q == q[..|q| - 1] + [x];
    }
  }

  /** Single entries are exactly what makes silent walks unique. */
  lemma UniqueEntryIffUniqueWalks(g: Graph, opt: set<int>, b: int)
    requires b !in opt
    ensures UniqueEntry(g, opt, b) <==> UniqueWalks(g, opt, b)
  {
    if UniqueEntry(g, opt, b) {
      forall p, q, n | IsSilent(g, opt, b, p) && IsSilent(g, opt, b, q) && Edge(g, Tail(b, p), n) && Edge(g, Tail(b, q), n)
        ensures p == q
      {
        EntryMakesWalksUnique(g, opt, b, p, q, n);
      }
    }
    if UniqueWalks(g, opt, b) {
      forall x, y, n | Reached(g, opt, b, x) && Reached(g, opt, b, y) && Edge(g, x, n) && Edge(g, y, n)
        ensures x == y
      {
        var p :| IsSilent(g, opt, b, p) && Tail(b, p) == x;
        var q :| IsSilent(g, opt, b, q) && Tail(b, q) == y;
        assert p == q;
      }
    }
  }

  lemma {:induction false} FewerSilentWalks(g: Graph, opt: set<int>, fewer: set<int>, b: int, path: seq<int>)
    requires fewer <= opt && IsSilent(g, fewer, b, path)
    ensures IsSilent(g, opt, b, path)
    decreases |path|
  {
    if path != [] {
      FewerSilentWalks(g, opt, fewer, b, path[..|path| - 1]);
    }
  }

  /** Instrumenting more blocks keeps what has been established. */
  lemma SingleEntriesSurvive(g: Graph, opt: set<int>, fewer: set<int>, b: int)
    requires fewer <= opt && SingleEntries(g, opt, b)
    ensures SingleEntries(g, fewer, b)
  {
    forall x | Reached(g, fewer, b, x)
      ensures Reached(g, opt, b, x)
    {
      var p :| IsSilent(g, fewer, b, p) && Tail(b, p) == x;
      FewerSilentWalks(g, opt, fewer, b, p);
    }
  }

  lemma {:induction false} SilentPrefix(g: Graph, opt: set<int>, b: int, path: seq<int>, k: nat)
    requires IsSilent(g, opt, b, path) && k < |path|
    ensures IsSilent(g, opt, b, path[..k]) && Edge(g, Tail(b, path[..k]), Block(path[k]))
    decreases |path|
  {
    var front := path[..|path| - 1];
    if k < |path| - 1 {
      SilentPrefix(g, opt, b, front, k);
      assert front[..k] == path[..k] && front[k] == path[k];
    }
  }

  /** Under single entries no uninstrumented block is passed twice without an instrumented one between. */
  lemma SilentWalksDoNotLoop(g: Graph, opt: set<int>, b: int, path: seq<int>, i: nat, j: nat)
    requires b !in opt && UniqueEntry(g, opt, b) && IsSilent(g, opt, b, path)
    requires i < j < |path|
    ensures path[i] != path[j]
  {
    if path[i] == path[j] {
      SilentPrefix(g, opt, b, path, i);
      SilentPrefix(g, opt, b, path, j);
      EntryMakesWalksUnique(g, opt, b, path[..i], path[..j], Block(path[i]));
      assert false;
    }
  }

  // ---- conflicts: why a block has to be instrumented ----

  /** On silent walks from `b`, block `x` enters a node that is also entered at another place. */
  ghost predicate Conflict(g: Graph, opt: set<int>, b: int, x: int) {
    x in opt && Reached(g, opt, b, x) &&
    exists i, y, j, n :: Reached(g, opt, b, y) && EdgeAt(g, x, i, n) && EdgeAt(g, y, j, n) && (x, i) != (y, j)
  }

  ghost predicate ConflictFrom(g: Graph, lo: set<int>, hi: set<int>, x: int, opt: set<int>, b: int) {
    lo <= opt <= hi && b !in opt && Conflict(g, opt, b, x)
  }

  /** Block `x` was in conflict, on walks from an instrumented block, under some flags between `lo` and `hi`. */
  ghost predicate Justified(g: Graph, lo: set<int>, hi: set<int>, x: int) {
    exists opt, b :: ConflictFrom(g, lo, hi, x, opt, b)
  }

  ghost predicate Clean(g: Graph, opt: set<int>) {
    forall b, x :: b !in opt ==> !Conflict(g, opt, b, x)
  }

  lemma JustifiedWidens(g: Graph, lo: set<int>, hi: set<int>, lo': set<int>, hi': set<int>, x: int)
    requires Justified(g, lo, hi, x) && lo' <= lo && hi <= hi'
    ensures Justified(g, lo', hi', x)
  {
    var opt, b :| ConflictFrom(g, lo, hi, x, opt, b);
    assert ConflictFrom(g, lo', hi', x, opt, b);
  }

  /** One more block on a silent walk. */
  lemma StepFurther(g: Graph, opt: set<int>, b: int, x: int, y: int)
    requires Reached(g, opt, b, x) && Edge(g, x, Block(y)) && y in opt
    ensures Reached(g, opt, b, y)
  {
    var path :| IsSilent(g, opt, b, path) && Tail(b, path) == x;
    var longer := path + [y];
    assert longer[..|longer| - 1] == path;
    assert IsSilent(g, opt, b, longer) && Tail(b, longer) == y;
  }

  /** Silent walks go on: what is reached from a reached optimized block is reached. */
  lemma ReachedOnward(g: Graph, opt: set<int>, b: int, x: int, y: int)
    requires Reached(g, opt, b, x) && Reached(g, opt, x, y)
    ensures Reached(g, opt, b, y)
  {
    var p :| IsSilent(g, opt, b, p) && Tail(b, p) == x;
    var q :| IsSilent(g, opt, x, q) && Tail(x, q) == y;
    SilentConcat(g, opt, b, p, q);
  }

  lemma {:induction false} SilentConcat(g: Graph, opt: set<int>, b: int, p: seq<int>, q: seq<int>)
    requires IsSilent(g, opt, b, p) && IsSilent(g, opt, Tail(b, p), q)
    ensures IsSilent(g, opt, b, p + q) && Tail(b, p + q) == Tail(Tail(b, p), q)
    decreases |q|
  {
    if q == [] {
      assert p + q == p;
    } else {
      SilentConcat(g, opt, b, p, q[..|q| - 1]);
      assert (p + q)[..|p + q| - 1] == p + q[..|q| - 1];
    }
  }

  lemma ReachedWithMore(g: Graph, opt: set<int>, fewer: set<int>, b: int, x: int)
    requires fewer <= opt && Reached(g, fewer, b, x)
    ensures Reached(g, opt, b, x)
  {
    var p :| IsSilent(g, fewer, b, p) && Tail(b, p) == x;
    FewerSilentWalks(g, opt, fewer, b, p);
  }

  /** Reached through optimized blocks from one that is not. */
  ghost predicate Grounded(g: Graph, opt: set<int>, x: int) {
    exists r :: r !in opt && Reached(g, opt, r, x)
  }

  /** With fewer optimized blocks, a grounded block that stays optimized is reached from one that is not. */
  lemma {:induction false} LastUnoptimized(g: Graph, opt: set<int>, fewer: set<int>, r: int, path: seq<int>) returns (u: int)
    requires IsSilent(g, opt, r, path) && r !in opt && fewer <= opt && Tail(r, path) in fewer
    ensures u in g && u !in fewer && Reached(g, fewer, u, Tail(r, path))
    decreases |path|
  {
    var front, x := path[..|path| - 1], Tail(r, path);
    var y := Tail(r, front);
    if y in fewer {
      u := LastUnoptimized(g, opt, fewer, r, front);
      StepFurther(g, fewer, u, y, x);
    } else {
      u := y;
      assert IsSilent(g, fewer, y, []) && Tail(y, []) == y;
      StepFurther(g, fewer, y, y, x);
    }
  }

  // ---- what the trace determines ----

  /** A run of the program from `b`: every block follows from the one before. */
  ghost predicate IsWalk(g: Graph, b: int, walk: seq<int>)
    decreases |walk|
  {
    walk == [] ||
    (Edge(g, Tail(b, walk[..|walk| - 1]), Block(Tail(b, walk))) && IsWalk(g, b, walk[..|walk| - 1]))
  }

  /** The instrumented blocks of a run, in order: what the coverage map sees. */
  function Trace(opt: set<int>, walk: seq<int>): (t: seq<int>)
    decreases |walk|
  {
    if walk == [] then []
    else
      var rest := Trace(opt, walk[..|walk| - 1]);
      var x := walk[|walk| - 1];
      if x in opt then rest else rest + [x]
  }

  ghost predicate Determined(g: Graph, opt: set<int>) {
    forall b :: b in g && b !in opt ==> SingleEntries(g, opt, b)
  }

  /** Splits a run after its last instrumented block. */
  lemma {:induction false} LastInstrumented(g: Graph, opt: set<int>, b: int, walk: seq<int>)
      returns (front: seq<int>, path: seq<int>)
    requires IsWalk(g, b, walk) && b !in opt
    ensures walk == front + path && IsWalk(g, b, front) && Tail(b, front) !in opt
    ensures IsSilent(g, opt, Tail(b, front), path)
    ensures Trace(opt, front) == Trace(opt, walk)
    ensures Tail(b, walk) == Tail(Tail(b, front), path)
    decreases |walk|
  {
    if walk == [] || Tail(b, walk) !in opt {
      front, path := walk, [];
      assert walk == walk + [];
    } else {
      var shorter := walk[..|walk| - 1];
      var x := Tail(b, walk);
      var path';
      front, path' := LastInstrumented(g, opt, b, shorter);
      path := path' + [x];
      assert walk == shorter + [x] == front + path;
      assert path[..|path| - 1] == path';
    }
  }

  /** Without their last, instrumented, blocks, runs with the same trace still have the same trace. */
  lemma TracesBefore(opt: set<int>, b: int, p: seq<int>, q: seq<int>)
    requires p != [] && q != [] && Tail(b, p) !in opt && Tail(b, q) !in opt && Trace(opt, p) == Trace(opt, q)
    ensures Tail(b, p) == Tail(b, q) && Trace(opt, p[..|p| - 1]) == Trace(opt, q[..|q| - 1])
  {
    var s, t := Trace(opt, p[..|p| - 1]), Trace(opt, q[..|q| - 1]);
    assert s + [Tail(b, p)] == t + [Tail(b, q)];
    assert s == (s + [Tail(b, p)])[..|s|] && t == (t + [Tail(b, q)])[..|t|];
  }

  lemma {:induction false} SameTraceMeansSameWalk(g: Graph, opt: set<int>, b: int, p: seq<int>, q: seq<int>)
    requires Determined(g, opt) && b in g && b !in opt
    requires IsWalk(g, b, p) && IsWalk(g, b, q)
    requires Trace(opt, p) == Trace(opt, q)
    requires Tail(b, p) !in opt && Tail(b, q) !in opt
    ensures p == q
    decreases |p|
  {
    TraceEnds(opt, b, p);
    TraceEnds(opt, b, q);
    if p != [] && q != [] {
      var x := Tail(b, p);
      var p', q' := p[..|p| - 1], q[..|q| - 1];
      TracesBefore(opt, b, p, q);
      var pf, pp := LastInstrumented(g, opt, b, p');
      var qf, qp := LastInstrumented(g, opt, b, q');
      SameTraceMeansSameWalk(g, opt, b, pf, qf);
      WalkStaysInGraph(g, b, pf);
      SingleEntriesAreUnique(g, opt, Tail(b, pf));
      EntryMakesWalksUnique(g, opt, Tail(b, pf), pp, qp, Block(x));
      assert p == p' + [x] && q == q' + [x];
    }
  }

  lemma WalkStaysInGraph(g: Graph, b: int, walk: seq<int>)
    requires IsWalk(g, b, walk) && b in g
    ensures Tail(b, walk) in g
  {}

  lemma TraceEnds(opt: set<int>, b: int, walk: seq<int>)
    requires Tail(b, walk) !in opt
    ensures walk == [] ==> Trace(opt, walk) == []
    ensures walk != [] ==> Trace(opt, walk) != [] && Trace(opt, walk)[|Trace(opt, walk)| - 1] == Tail(b, walk)
  {}
}
