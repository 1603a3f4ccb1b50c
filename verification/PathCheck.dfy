/** The self-check of the plugin (e9AFLPlugin.cpp, both `verify` functions) and when it reports an error. */
module PathCheck {
  import opened Coverage
  import opened BadBlocks

  /** Silent walks from `b` enter some node at two different places. */
  ghost predicate DoubleEntry(g: Graph, opt: set<int>, b: int) {
    exists x, i: nat, y, j: nat, n ::
      Reached(g, opt, b, x) && Reached(g, opt, b, y) && EdgeAt(g, x, i, n) && EdgeAt(g, y, j, n) && (x, i) != (y, j)
  }

  /** `b` names the same node twice, as in a conditional jump to the next instruction. */
  ghost predicate RepeatsSuccessor(g: Graph, b: int) {
    exists i: nat, j: nat, n :: EdgeAt(g, b, i, n) && EdgeAt(g, b, j, n) && i != j
  }

  lemma {:induction false} DoubleEntryIffRepeats(g: Graph, opt: set<int>, b: int)
    requires SingleEntries(g, opt, b)
    ensures DoubleEntry(g, opt, b) <==> RepeatsSuccessor(g, b)
  {
    if RepeatsSuccessor(g, b) {
      var i: nat, j: nat, n :| EdgeAt(g, b, i, n) && EdgeAt(g, b, j, n) && i != j;
      assert IsSilent(g, opt, b, []) && Tail(b, []) == b;
      assert Reached(g, opt, b, b) && (b, i) != (b, j);
    }
  }

  // ---- the record of a check in progress ----

  ghost predicate Recorded(cfg: CFG, opt: set<int>, root: BB, seen: set<BB?>, from: Places) {
    && from.Keys == seen
    && forall k :: k in seen ==>
        && InCFG(cfg, k)
        && Reached(GraphOf(cfg), opt, root.addr, from[k].0)
        && EdgeAt(GraphOf(cfg), from[k].0, from[k].1, NodeOf(k))
        && (from[k].0 == root.addr || (from[k].0 in cfg && cfg[from[k].0] in seen))
  }

  ghost predicate AllAt(cfg: CFG, from: Places, x: int, succs: seq<int>) {
    forall i {:trigger succs[i]} :: 0 <= i < |succs| ==>
      Find(cfg, succs[i]) in from && from[Find(cfg, succs[i])] == (x, i)
  }

  ghost predicate Finished(cfg: CFG, opt: set<int>, seen: set<BB?>, from: Places, open: set<BB?>) {
    forall k :: k in seen && k != null && k !in open && k.addr in opt ==> AllAt(cfg, from, k.addr, k.succs)
  }

  ghost predicate Checking(cfg: CFG, opt: set<int>, root: BB, seen: set<BB?>, from: Places, open: set<BB?>) {
    && ValidCFG(cfg) && InCFG(cfg, root) && root.addr !in opt
    && Recorded(cfg, opt, root, seen, from) && Finished(cfg, opt, seen, from, open)
  }

  ghost predicate Grown(cfg: CFG, f0: Places, f1: Places, root: BB, x: int, j: nat) {
    && (forall k :: k in f0 ==> k in f1 && f1[k] == f0[k])
    && (forall k :: k in f1 && k !in f0 ==>
          (f1[k].0 == x && f1[k].1 < j)
          || (f1[k].0 != root.addr && f1[k].0 in cfg && cfg[f1[k].0] !in f0))
  }

  /** `bb` is the block whose successors are checked next: the root, or an optimized block just seen. */
  ghost predicate CheckedNext(cfg: CFG, opt: set<int>, root: BB, seen: set<BB?>, bb: BB) {
    && InCFG(cfg, bb) && Reached(GraphOf(cfg), opt, root.addr, bb.addr)
    && (bb == root || (bb in seen && bb.addr in opt))
  }

  lemma PlaceIsNew(cfg: CFG, opt: set<int>, root: BB, seen: set<BB?>, from: Places, f1: Places, bb: BB, j: nat)
    requires root.addr !in opt && InCFG(cfg, root) && CheckedNext(cfg, opt, root, seen, bb) && from.Keys == seen
    requires forall k :: k in from ==> from[k].0 != bb.addr
    requires Grown(cfg, from, f1, root, bb.addr, j)
    ensures forall k :: k in f1 ==> f1[k] != (bb.addr, j)
  {}

  /** Seeing a node for the first time. */
  lemma SeenOnce(cfg: CFG, opt: set<int>, root: BB, seen: set<BB?>, from: Places, open: set<BB?>, bb: BB, j: nat, succ: BB?)
    requires Checking(cfg, opt, root, seen, from, open) && CheckedNext(cfg, opt, root, seen, bb)
    requires InCFG(cfg, succ) && EdgeAt(GraphOf(cfg), bb.addr, j, NodeOf(succ)) && succ !in seen
    ensures Checking(cfg, opt, root, seen + {succ}, from[succ := (bb.addr, j)], open + {succ})
  {
    var f := from[succ := (bb.addr, j)];
    forall k | k in seen && k != null && k !in open + {succ} && k.addr in opt
      ensures AllAt(cfg, f, k.addr, k.succs)
    {
      assert AllAt(cfg, from, k.addr, k.succs);
    }
  }

  lemma NothingRecordedFor(cfg: CFG, opt: set<int>, root: BB, seen: set<BB?>, from: Places, bb: BB, j: nat, succ: BB)
    requires Recorded(cfg, opt, root, seen, from) && CheckedNext(cfg, opt, root, seen, bb) && InCFG(cfg, succ)
    requires succ !in seen && succ.addr in opt && root.addr !in opt && EdgeAt(GraphOf(cfg), bb.addr, j, Block(succ.addr))
    ensures var f := from[succ := (bb.addr, j)]; forall k :: k in f ==> f[k].0 != succ.addr
    ensures CheckedNext(cfg, opt, root, seen + {succ}, succ)
  {
    StepFurther(GraphOf(cfg), opt, root.addr, bb.addr, succ.addr);
  }

  /** The state of the loop over the successors of `bb` before successor `j`. */
  ghost predicate Progress(cfg: CFG, opt: set<int>, root: BB, open: set<BB?>, bb: BB, j: nat,
                           f0: Places, seen: set<BB?>, from: Places)
    requires j <= |bb.succs|
  {
    && Checking(cfg, opt, root, seen, from, open)
    && AllAt(cfg, from, bb.addr, bb.succs[..j]) && Grown(cfg, f0, from, root, bb.addr, j)
  }

  lemma AllAtGrows(cfg: CFG, from: Places, from': Places, x: int, succs: seq<int>, j: nat)
    requires j < |succs| && AllAt(cfg, from, x, succs[..j])
    requires forall k :: k in from ==> k in from' && from'[k] == from[k]
    requires Find(cfg, succs[j]) in from' && from'[Find(cfg, succs[j])] == (x, j)
    ensures AllAt(cfg, from', x, succs[..j + 1])
  {
    forall i {:trigger succs[..j + 1][i]} | 0 <= i < j + 1
      ensures Find(cfg, succs[..j + 1][i]) in from' && from'[Find(cfg, succs[..j + 1][i])] == (x, i)
    {
      if i < j { assert Find(cfg, succs[..j][i]) in from; }
    }
  }

  lemma LeafCloses(cfg: CFG, opt: set<int>, seen: set<BB?>, from: Places, open: set<BB?>, succ: BB?)
    requires Finished(cfg, opt, seen, from, open + {succ}) && (succ != null ==> succ.addr !in opt)
    ensures Finished(cfg, opt, seen, from, open)
  {}

  lemma GrowsByOne(cfg: CFG, f0: Places, from: Places, root: BB, x: int, j: nat, succ: BB?)
    requires Grown(cfg, f0, from, root, x, j) && succ !in from
    ensures Grown(cfg, f0, from[succ := (x, j)], root, x, j + 1)
  {}

  lemma LeafChecked(cfg: CFG, opt: set<int>, root: BB, open: set<BB?>, bb: BB, j: nat, f0: Places,
                    seen: set<BB?>, from: Places, succ: BB?)
    requires j < |bb.succs| && Progress(cfg, opt, root, open, bb, j, f0, seen, from) && f0.Keys <= seen
    requires CheckedNext(cfg, opt, root, seen, bb) && succ == Find(cfg, bb.succs[j]) && succ !in seen
    requires succ != null ==> succ.addr !in opt
    ensures Progress(cfg, opt, root, open, bb, j + 1, f0, seen + {succ}, from[succ := (bb.addr, j)])
  {
    FindResolves(cfg, bb.succs[j]);
    SeenOnce(cfg, opt, root, seen, from, open, bb, j, succ);
    LeafCloses(cfg, opt, seen + {succ}, from[succ := (bb.addr, j)], open, succ);
    GrowsByOne(cfg, f0, from, root, bb.addr, j, succ);
    AllAtGrows(cfg, from, from[succ := (bb.addr, j)], bb.addr, bb.succs, j);
  }

  lemma BlockChecked(cfg: CFG, opt: set<int>, root: BB, open: set<BB?>, bb: BB, j: nat, f0: Places,
                     seen: set<BB?>, from: Places, succ: BB, seen': set<BB?>, from': Places)
    requires j < |bb.succs| && Progress(cfg, opt, root, open, bb, j, f0, seen, from) && f0.Keys <= seen
    requires succ == Find(cfg, bb.succs[j]) && succ !in seen && succ != root
    requires Checking(cfg, opt, root, seen', from', open + {succ})
    requires AllAt(cfg, from', succ.addr, succ.succs)
    requires Grown(cfg, from[succ := (bb.addr, j)], from', root, succ.addr, |succ.succs|)
    ensures Progress(cfg, opt, root, open, bb, j + 1, f0, seen', from')
  {
    var f1 := from[succ := (bb.addr, j)];
    assert f1[succ] == (bb.addr, j);
    AllAtGrows(cfg, from, from', bb.addr, bb.succs, j);
    GrowthInside(cfg, f0, from, from', root, bb, j, succ);
  }

  lemma GrowthInside(cfg: CFG, f0: Places, f1: Places, f2: Places, root: BB, bb: BB, j: nat, succ: BB)
    requires InCFG(cfg, succ) && succ !in f1 && succ != root && InCFG(cfg, root)
    requires Grown(cfg, f0, f1, root, bb.addr, j)
    requires Grown(cfg, f1[succ := (bb.addr, j)], f2, root, succ.addr, |succ.succs|)
    ensures Grown(cfg, f0, f2, root, bb.addr, j + 1)
  {
    var f := f1[succ := (bb.addr, j)];
    forall k | k in f2 && k !in f0
      ensures (f2[k].0 == bb.addr && f2[k].1 < j + 1)
        || (f2[k].0 != root.addr && f2[k].0 in cfg && cfg[f2[k].0] !in f0)
    {
      if k in f { assert f2[k] == f[k]; }
    }
  }

  lemma SecondPlace(cfg: CFG, opt: set<int>, root: BB, seen: set<BB?>, from: Places, bb: BB, j: nat, succ: BB?)
    requires Recorded(cfg, opt, root, seen, from) && CheckedNext(cfg, opt, root, seen, bb)
    requires succ in seen && EdgeAt(GraphOf(cfg), bb.addr, j, NodeOf(succ)) && from[succ] != (bb.addr, j)
    ensures DoubleEntry(GraphOf(cfg), opt, root.addr)
  {
    var g, y, i := GraphOf(cfg), from[succ].0, from[succ].1;
    assert EdgeAt(g, y, i, NodeOf(succ)) && EdgeAt(g, bb.addr, j, NodeOf(succ)) && (y, i) != (bb.addr, j);
  }

  lemma SeenTwice(cfg: CFG, opt: set<int>, root: BB, open: set<BB?>, bb: BB, j: nat, seen0: set<BB?>, f0: Places,
                  seen: set<BB?>, from: Places, succ: BB?)
    requires j < |bb.succs| && Progress(cfg, opt, root, open, bb, j, f0, seen, from) && f0.Keys == seen0 <= seen
    requires CheckedNext(cfg, opt, root, seen0, bb) && (forall k :: k in f0 ==> f0[k].0 != bb.addr)
    requires succ == Find(cfg, bb.succs[j]) && succ in seen
    ensures DoubleEntry(GraphOf(cfg), opt, root.addr)
  {
    FindResolves(cfg, bb.succs[j]);
    PlaceIsNew(cfg, opt, root, seen0, f0, from, bb, j);
    SecondPlace(cfg, opt, root, seen, from, bb, j, succ);
  }

  lemma EnterBlock(cfg: CFG, opt: set<int>, root: BB, open: set<BB?>, bb: BB, j: nat, seen: set<BB?>, from: Places, succ: BB)
    requires j < |bb.succs| && Checking(cfg, opt, root, seen, from, open)
    requires CheckedNext(cfg, opt, root, seen, bb)
    requires succ == Find(cfg, bb.succs[j]) && succ !in seen && succ.addr in opt
    ensures Checking(cfg, opt, root, seen + {succ}, from[succ := (bb.addr, j)], open + {succ})
    ensures CheckedNext(cfg, opt, root, seen + {succ}, succ)
    ensures var f := from[succ := (bb.addr, j)]; forall k :: k in f ==> f[k].0 != succ.addr
  {
    FindResolves(cfg, bb.succs[j]);
    SeenOnce(cfg, opt, root, seen, from, open, bb, j, succ);
    NothingRecordedFor(cfg, opt, root, seen, from, bb, j, succ);
  }

  lemma LessToSee(cfg: CFG, seen: set<BB?>, seen0: set<BB?>, succ: BB)
    requires seen <= seen0 && succ !in seen0 && InCFG(cfg, succ)
    ensures cfg.Values + {null} - (seen0 + {succ}) < cfg.Values + {null} - seen
  {
    assert succ in cfg.Values + {null} - seen;
  }

  /** The recursive `verify`: false stands for the error "multiple non-instrumented paths detected". */
  method VerifyFrom(cfg: CFG, bb: BB, seen: set<BB?>, ghost opt: set<int>, ghost root: BB, ghost from: Places,
                    ghost open: set<BB?>)
    returns (ok: bool, seen': set<BB?>, ghost from': Places)
    requires opt == Optimized(cfg)
    requires Checking(cfg, opt, root, seen, from, open) && CheckedNext(cfg, opt, root, seen, bb)
    requires forall k :: k in from ==> from[k].0 != bb.addr
    ensures ok ==> Progress(cfg, opt, root, open, bb, |bb.succs|, from, seen', from')
    ensures ok ==> AllAt(cfg, from', bb.addr, bb.succs)
    ensures !ok ==> DoubleEntry(GraphOf(cfg), opt, root.addr)
    decreases cfg.Values + {null} - seen
  {
    ok, seen', from' := true, seen, from;
    NothingCheckedYet(cfg, opt, root, open, bb, seen, from);
    for j := 0 to |bb.succs|
      invariant ok && seen <= seen' && Progress(cfg, opt, root, open, bb, j, from, seen', from')
    {
      var succ := Find(cfg, bb.succs[j]);
      if succ in seen' {
        SeenTwice(cfg, opt, root, open, bb, j, seen, from, seen', from', succ);
        return false, seen', from';
      }
      ghost var seen0, from0 := seen', from';
      seen', from' := seen' + {succ}, from'[succ := (bb.addr, j)];
      if succ != null && succ.optimized {
        EnterBlock(cfg, opt, root, open, bb, j, seen0, from0, succ);
        LessToSee(cfg, seen, seen0, succ);
        ok, seen', from' := VerifyFrom(cfg, succ, seen', opt, root, from', open + {succ});
        if !ok {
          return;
        }
        BlockChecked(cfg, opt, root, open, bb, j, from, seen0, from0, succ, seen', from');
      } else {
        LeafChecked(cfg, opt, root, open, bb, j, from, seen0, from0, succ);
      }
    }
    AllChecked(cfg, opt, root, open, bb, from, seen', from');
  }

  lemma AllChecked(cfg: CFG, opt: set<int>, root: BB, open: set<BB?>, bb: BB, f0: Places, seen: set<BB?>, from: Places)
    requires Progress(cfg, opt, root, open, bb, |bb.succs|, f0, seen, from)
    ensures AllAt(cfg, from, bb.addr, bb.succs)
  {
    assert bb.succs[..|bb.succs|] == bb.succs;
  }

  lemma NothingCheckedYet(cfg: CFG, opt: set<int>, root: BB, open: set<BB?>, bb: BB, seen: set<BB?>, from: Places)
    requires Checking(cfg, opt, root, seen, from, open)
    ensures Progress(cfg, opt, root, open, bb, 0, from, seen, from)
  {}

  lemma {:induction false} ReachedIsSeen(cfg: CFG, opt: set<int>, root: BB, seen: set<BB?>, from: Places, path: seq<int>)
    requires Checking(cfg, opt, root, seen, from, {}) && AllAt(cfg, from, root.addr, root.succs)
    requires IsSilent(GraphOf(cfg), opt, root.addr, path)
    ensures Tail(root.addr, path) in cfg
    ensures AllAt(cfg, from, Tail(root.addr, path), cfg[Tail(root.addr, path)].succs)
    decreases |path|
  {
    if path != [] {
      var g, b := GraphOf(cfg), root.addr;
      ReachedIsSeen(cfg, opt, root, seen, from, path[..|path| - 1]);
      var x, y := Tail(b, path[..|path| - 1]), Tail(b, path);
      var i: nat :| EdgeAt(g, x, i, Block(y));
      FindResolves(cfg, cfg[x].succs[i]);
      assert cfg[y] in seen;
    }
  }

  lemma FinishedMeansSinglePlaces(cfg: CFG, opt: set<int>, root: BB, seen: set<BB?>, from: Places)
    requires Checking(cfg, opt, root, seen, from, {}) && AllAt(cfg, from, root.addr, root.succs)
    ensures !DoubleEntry(GraphOf(cfg), opt, root.addr)
  {
    var g, b := GraphOf(cfg), root.addr;
    forall x, i: nat, y, j: nat, n |
      Reached(g, opt, b, x) && Reached(g, opt, b, y) && EdgeAt(g, x, i, n) && EdgeAt(g, y, j, n)
      ensures (x, i) == (y, j)
    {
      var p :| IsSilent(g, opt, b, p) && Tail(b, p) == x;
      var q :| IsSilent(g, opt, b, q) && Tail(b, q) == y;
      ReachedIsSeen(cfg, opt, root, seen, from, p);
      ReachedIsSeen(cfg, opt, root, seen, from, q);
      FindResolves(cfg, cfg[x].succs[i]);
      FindResolves(cfg, cfg[y].succs[j]);
      assert Find(cfg, cfg[x].succs[i]) == Find(cfg, cfg[y].succs[j]);
    }
  }

  /** The outer `verify`: it passes exactly when no walk from an instrumented block enters a node twice. */
  method Verify(cfg: CFG, keys: seq<int>) returns (ok: bool)
    requires ValidCFG(cfg) && forall a :: a in keys <==> a in cfg
    ensures ok <==> forall b :: b in cfg && b !in Optimized(cfg) ==> !DoubleEntry(GraphOf(cfg), Optimized(cfg), b)
  {
    ok := true;
    for n := 0 to |keys|
      invariant ok
      invariant forall b :: b in keys[..n] && b !in Optimized(cfg) ==> !DoubleEntry(GraphOf(cfg), Optimized(cfg), b)
    {
      var a := keys[n];
      assert a in cfg;
      var bb := cfg[a];
      if !bb.optimized {
        ghost var opt := Optimized(cfg);
        assert IsSilent(GraphOf(cfg), opt, bb.addr, []) && Tail(bb.addr, []) == bb.addr;
        assert bb.addr == a && a !in opt;
        var seen;
        ghost var from;
        ok, seen, from := VerifyFrom(cfg, bb, {}, opt, bb, map[], {});
        if !ok {
          return;
        }
        FinishedMeansSinglePlaces(cfg, opt, bb, seen, from);
      }
    }
  }

  /** Under single entries from `u` no other block reached from there repeats a successor. */
  lemma OnlyTheRootRepeats(g: Graph, opt: set<int>, u: int, b: int)
    requires SingleEntries(g, opt, u) && Reached(g, opt, u, b) && b != u
    ensures !RepeatsSuccessor(g, b)
  {}

  /** A block that repeats a successor does not stay optimized if it is reached from one that is not. */
  lemma GroundedRepeaterIsCleared(g: Graph, before: set<int>, after: set<int>, b: int)
    requires Determined(g, after) && after <= before && Grounded(g, before, b) && RepeatsSuccessor(g, b)
    ensures b !in after
  {
    if b in after {
      var r :| r !in before && Reached(g, before, r, b);
      var path :| IsSilent(g, before, r, path) && Tail(r, path) == b;
      var u := LastUnoptimized(g, before, after, r, path);
      OnlyTheRootRepeats(g, after, u, b);
    }
  }

  /** After the optimization pass the check reports an error exactly when a block that names the same successor node twice
      was not optimized before the pass, or was then reached through optimized blocks from one that was not. These are
      the blocks that repeat a successor and are not optimized after it. */
  method OptimizeAndVerify(cfg: CFG, keys: seq<int>) returns (ok: bool)
    requires ValidCFG(cfg) && forall a :: a in keys <==> a in cfg
    modifies cfg.Values`optimized
    ensures Determined(GraphOf(cfg), Optimized(cfg)) && Optimized(cfg) <= old(Optimized(cfg))
    ensures ok <==> forall b :: b in cfg && b !in Optimized(cfg) ==> !RepeatsSuccessor(GraphOf(cfg), b)
    ensures ok <==> forall b :: b in cfg && RepeatsSuccessor(GraphOf(cfg), b) ==>
      b in old(Optimized(cfg)) && !Grounded(GraphOf(cfg), old(Optimized(cfg)), b)
  {
    ghost var start := Optimized(cfg);
    OptimizeAll(cfg, keys);
    ok := Verify(cfg, keys);
    ghost var g, opt := GraphOf(cfg), Optimized(cfg);
    forall b | b in cfg && b !in opt
      ensures DoubleEntry(g, opt, b) <==> RepeatsSuccessor(g, b)
    {
      DoubleEntryIffRepeats(g, opt, b);
    }
    forall b | b in cfg && RepeatsSuccessor(g, b)
      ensures b !in opt <==> b !in start || Grounded(g, start, b)
    {
      if Grounded(g, start, b) {
        GroundedRepeaterIsCleared(g, start, opt, b);
      }
    }
  }
}
