/** When the evaluator does what DWARF 5 says: step by step, exactly, and over whole programs. */
module DwarfAgreement {
  import opened WideUint
  import opened DwarfOps
  import opened DwarfEval
  import opened DwarfStandard
  import opened DwarfArithmetic
  import opened DwarfMeaning

  // ---- arithmetic on a list ----

  /** The operands of an operation are among those for which its arithmetic is the standard's. */
  predicate ComputesAlike(op: Op, s: seq<Word>) {
    && (op.Unary? && |s| >= 1 ==> UnaryAgrees(op.unary))
    && (op.Binary? && |s| >= 2 ==> BinaryAgrees(op.binary, Top(s, 1), Top(s, 0)))
  }

  lemma ListStepAgreement(op: Op, s: seq<Word>, env: Env, nested: Outcome)
    requires !Returns(op)
    ensures ListStep(op, s, env) == StandardStep(op, s, env, nested) <==> ComputesAlike(op, s)
  {
    if op.Push? {
      PushAgrees(op.source, env);
    } else if op.Unary? && |s| >= 1 {
      UnaryAgreement(op.unary, Top(s, 0), env);
      LastWord(s[..|s| - 1], ApplyUnary(op.unary, Top(s, 0), env), StandardUnary(op.unary, Top(s, 0), env));
    } else if op.Binary? && |s| >= 2 {
      BinaryAgreement(op.binary, Top(s, 1), Top(s, 0));
      LastWord(s[..|s| - 2], ApplyBinary(op.binary, Top(s, 1), Top(s, 0)), StandardBinary(op.binary, Top(s, 1), Top(s, 0)));
    }
  }

  /** Different words give different stacks. */
  lemma LastWord(p: seq<Word>, a: Result<Word>, b: Result<Word>)
    ensures a.Ok? && b.Ok? && a != b ==> p + [a.value] != p + [b.value]
  {
    if a.Ok? && b.Ok? {
      assert (p + [a.value])[|p|] == a.value && (p + [b.value])[|p|] == b.value;
    }
  }

  /** A final holder of the frame address is read as the location it holds. */
  function Reading(o: Outcome): Outcome {
    if o.CfaHolder? then Value(o.cfa) else o
  }

  /** The condition for call_frame_cfa, which ends the evaluation here and pushes in the standard: that it fails, or that
      it is the last operation and there is room. The other operations that end an evaluation have none. */
  predicate EndsAlike(op: Op, entries: nat, last: bool, nested: Outcome, limit: nat) {
    op.CallFrameCfa? && nested.Value? ==> last && entries < limit
  }

  /** Every step of a run computes alike. */
  predicate AlikeAlong(e: seq<Op>, s: seq<Word>, env: Env, nested: Outcome, limit: nat) {
    e == [] ||
    if Returns(e[0]) then EndsAlike(e[0], |s|, |e| == 1, nested, limit)
    else
      ComputesAlike(e[0], s) &&
      var r := ListStep(e[0], s, env);
      r.Stop? || |r.value| > limit || AlikeAlong(e[1..], r.value, env, nested, limit)
  }

  /** The exact condition for an operation that ends the evaluation: whatever may follow it, if anything does, the outcome
      is the standard's. */
  lemma ReturnAgreement(op: Op, s: seq<Word>, env: Env, last: bool, nested: Outcome, limit: nat)
    requires Returns(op) && !nested.CfaHolder?
    ensures (forall rest: seq<Op> :: (rest == [] <==> last) ==>
      Reading(ListReturned(op, s, last, nested)) == Standard([op] + rest, s, env, nested, limit))
      <==> EndsAlike(op, |s|, last, nested, limit)
  {
    if EndsAlike(op, |s|, last, nested, limit) {
      forall rest: seq<Op> | rest == [] <==> last
        ensures Reading(ListReturned(op, s, last, nested)) == Standard([op] + rest, s, env, nested, limit)
      {
        ReturnFollows(op, s, env, rest, nested, limit);
      }
    } else if last {
      assert [op] + [] == [op] && Standard([op] + [], s, env, nested, limit) == Abort;
    } else {
      var rest := [Unary(PlusUconst(8))];
      CfaGoesOn(op, s, env, nested, limit);
      assert Standard([op] + rest, s, env, nested, limit) != Value(nested.word);
    }
  }

  lemma ReturnFollows(op: Op, s: seq<Word>, env: Env, rest: seq<Op>, nested: Outcome, limit: nat)
    requires Returns(op) && !nested.CfaHolder? && EndsAlike(op, |s|, rest == [], nested, limit)
    ensures Reading(ListReturned(op, s, rest == [], nested)) == Standard([op] + rest, s, env, nested, limit)
  {
    var e := [op] + rest;
    assert e[0] == op && e[1..] == rest;
  }

  /** Eight more than the frame address: the standard goes on after call_frame_cfa. */
  lemma CfaGoesOn(op: Op, s: seq<Word>, env: Env, nested: Outcome, limit: nat)
    requires op.CallFrameCfa? && nested.Value?
    ensures Standard([op] + [Unary(PlusUconst(8))], s, env, nested, limit)
      == if |s| < limit then Value(ToWord(nested.word + 8)) else Abort
  {
    var e := [op] + [Unary(PlusUconst(8))];
    var t := s + [nested.word];
    assert e[1..] == [Unary(PlusUconst(8))] && e[1..][1..] == [];
    assert Top(t, 0) == nested.word && t[..|t| - 1] == s;
    assert Standard(e, s, env, nested, limit) == if |s| < limit then Standard(e[1..], t, env, nested, limit) else Abort;
    var u := s + [ToWord(nested.word + 8)];
    assert |s| < limit ==> Standard(e[1..], t, env, nested, limit) == Standard([], u, env, nested, limit);
  }

  lemma {:induction false} ListFollowsStandard(e: seq<Op>, s: seq<Word>, env: Env, nested: Outcome, limit: nat)
    requires AlikeAlong(e, s, env, nested, limit) && !nested.CfaHolder?
    ensures Reading(OnList(e, s, env, nested, limit)) == Standard(e, s, env, nested, limit)
  {
    if e != [] {
      if Returns(e[0]) {
        assert e == [e[0]] + e[1..];
        ReturnFollows(e[0], s, env, e[1..], nested, limit);
      } else {
        ListStepAgreement(e[0], s, env, nested);
        var r := ListStep(e[0], s, env);
        if r.Ok? && |r.value| <= limit {
          ListFollowsStandard(e[1..], r.value, env, nested, limit);
        }
      }
    }
  }

  /** Operations that do what the standard says on all stacks. */
  predicate IsSafe(op: Op) {
    && (op.Unary? ==> UnaryAgrees(op.unary))
    && (op.Binary? ==> op.binary !in {Div, Mod, Shl, Shr, Shra})
    && !op.CallFrameCfa?
  }

  predicate AllSafe(e: seq<Op>) {
    forall k :: 0 <= k < |e| ==> IsSafe(e[k])
  }

  lemma {:induction false} SafeIsAlike(e: seq<Op>, s: seq<Word>, env: Env, nested: Outcome, limit: nat)
    requires AllSafe(e)
    ensures AlikeAlong(e, s, env, nested, limit)
  {
    if e != [] {
      assert IsSafe(e[0]);
      if !Returns(e[0]) {
        var r := ListStep(e[0], s, env);
        if r.Ok? && |r.value| <= limit {
          SafeIsAlike(e[1..], r.value, env, nested, limit);
        }
      }
    }
  }

  predicate AsksForFrame(e: seq<Op>) {
    exists k :: 0 <= k < |e| && e[k].CallFrameCfa?
  }

  /** Programs that compute alike, with call_frame_cfa at the end only, have the standard's outcome up to the reading of the
      holder, unless there is no room for the frame address. */
  lemma {:induction false} FinalCfaMeans(e: seq<Op>, s: seq<Word>, env: Env, nested: Outcome, limit: nat)
    requires !nested.CfaHolder? && !AsksForFrame(e) && AlikeAlong(e, s, env, nested, limit)
    ensures var o, d := OnList(e + [CallFrameCfa], s, env, nested, limit), Standard(e + [CallFrameCfa], s, env, nested, limit);
      Reading(o) == d || (o.CfaHolder? && d == Abort)
    decreases |e|
  {
    var all := e + [CallFrameCfa];
    if e == [] {
      assert all[1..] == [];
    } else {
      assert e[0] in e && all[0] == e[0] && all[1..] == e[1..] + [CallFrameCfa];
      if !Returns(e[0]) {
        ListStepAgreement(e[0], s, env, nested);
        var r := ListStep(e[0], s, env);
        if r.Ok? && |r.value| <= limit {
          FinalCfaMeans(e[1..], r.value, env, nested, limit);
        }
      }
    }
  }

  // ---- one step on the array ----

  /** The exact condition for a step on the array to be the standard's step. */
  predicate StepAgrees(op: Op, st: Machine)
    requires |st.data| == CAPACITY && st.pos <= CAPACITY
  {
    var pos, data := st.pos, st.data;
    match op
    case Over => pos < 2 || pos == CAPACITY || data[pos - 1] == data[pos - 2]
    case Pick(k) => pos <= k || (pos == CAPACITY && k > 0) || (pos < CAPACITY && data[pos - k] == data[pos - 1 - k])
    case Rot => pos < 3 || data[pos - 1] == data[pos - 2] == data[pos - 3]
    case _ => ComputesAlike(op, data[..pos])
  }

  lemma OverAgreement(st: Machine, env: Env, nested: Outcome)
    requires Valid(st)
    ensures Agrees(Step(Over, st, env), StandardStep(Over, Used(st), env, nested)) <==> StepAgrees(Over, st)
  {
    if 2 <= st.pos < CAPACITY {
      LastWord(Used(st), Ok(st.data[st.pos - 1]), Ok(st.data[st.pos - 2]));
      assert Used(Step(Over, st, env).value) == Used(st) + [st.data[st.pos - 1]];
    }
  }

  lemma PickAgreement(k: Word, st: Machine, env: Env, nested: Outcome)
    requires Valid(st)
    ensures Agrees(Step(Pick(k), st, env), StandardStep(Pick(k), Used(st), env, nested)) <==> StepAgrees(Pick(k), st)
  {
    if k < st.pos < CAPACITY {
      LastWord(Used(st), Ok(st.data[st.pos - k]), Ok(st.data[st.pos - 1 - k]));
      assert Used(Step(Pick(k), st, env).value) == Used(st) + [st.data[st.pos - k]];
    }
  }

  lemma StandardTurn(p: seq<Word>, c: Word, b: Word, a: Word, env: Env, nested: Outcome)
    ensures StandardStep(Rot, p + [c, b, a], env, nested) == Ok(p + [a, c, b])
  {
    var s := p + [c, b, a];
    assert s[..|s| - 3] == p && Top(s, 0) == a && Top(s, 1) == b && Top(s, 2) == c;
  }

  lemma SameTurns(p: seq<Word>, c: Word, b: Word, a: Word)
    ensures p + [b, a, c] == p + [a, c, b] <==> a == b == c
  {
    var x, y := p + [b, a, c], p + [a, c, b];
    assert x[|p|] == b && x[|p| + 1] == a && y[|p|] == a && y[|p| + 1] == c;
  }

  lemma RotAgreement(st: Machine, env: Env, nested: Outcome)
    requires Valid(st)
    ensures Agrees(Step(Rot, st, env), StandardStep(Rot, Used(st), env, nested)) <==> StepAgrees(Rot, st)
  {
    if st.pos >= 3 {
      var n := st.pos - 3;
      var p, c, b, a := st.data[..n], st.data[n], st.data[n + 1], st.data[n + 2];
      assert Used(st) == p + [c, b, a];
      RotStep(st, env, p, c, b, a);
      StandardTurn(p, c, b, a, env, nested);
      SameTurns(p, c, b, a);
    }
  }

  /** For every operation and every stack, underflow, overflow and stale cells included. */
  lemma StepAgreement(op: Op, st: Machine, env: Env, nested: Outcome)
    requires Valid(st) && !Returns(op)
    ensures Agrees(Step(op, st, env), StandardStep(op, Used(st), env, nested)) <==> StepAgrees(op, st)
  {
    if op.Over? {
      OverAgreement(st, env, nested);
    } else if op.Pick? {
      PickAgreement(op.index, st, env, nested);
    } else if op.Rot? {
      RotAgreement(st, env, nested);
    } else {
      StepRefines(op, st, env);
      ListStepAgreement(op, Used(st), env, nested);
      ListStepShrinks(op, Used(st), env, nested);
    }
  }

  /** Operations that compute never grow a stack past what a differing result would. */
  lemma ListStepShrinks(op: Op, s: seq<Word>, env: Env, nested: Outcome)
    requires !Returns(op)
    ensures (op.Unary? || op.Binary?) && ListStep(op, s, env).Ok? ==> |ListStep(op, s, env).value| <= |s|
    ensures (op.Unary? || op.Binary?) && StandardStep(op, s, env, nested).Ok? ==> |StandardStep(op, s, env, nested).value| <= |s|
  {}

  // ---- whole programs ----

  /** Every step of a run, on the array, meets its condition. */
  predicate RunAgrees(e: seq<Op>, i: nat, st: Machine, env: Env, nested: Outcome)
    requires i <= |e| && Valid(st)
    decreases |e| - i
  {
    i == |e| ||
    if Returns(e[i]) then EndsAlike(e[i], st.pos, i + 1 == |e|, nested, CAPACITY)
    else
      StepAgrees(e[i], st) && (Step(e[i], st, env).Ok? ==> RunAgrees(e, i + 1, Step(e[i], st, env).value, env, nested))
  }

  lemma ReturnOnList(op: Op, st: Machine, last: bool, nested: Outcome)
    requires Valid(st) && Returns(op)
    ensures Return(op, st, last, nested) == ListReturned(op, Used(st), last, nested)
  {}

  /** One step on the array and one in the standard, when they agree. */
  lemma StepFollows(op: Op, rest: seq<Op>, st: Machine, env: Env, nested: Outcome)
    requires Valid(st) && !Returns(op) && StepAgrees(op, st)
    ensures var m := Step(op, st, env);
      Standard([op] + rest, Used(st), env, nested, CAPACITY)
      == if m.Ok? then Standard(rest, Used(m.value), env, nested, CAPACITY) else m.outcome
  {
    var e := [op] + rest;
    assert e[0] == op && e[1..] == rest;
    StepAgreement(op, st, env, nested);
  }

  /** A run whose steps meet their conditions has the standard's outcome. */
  lemma {:induction false} RunFollowsStandard(e: seq<Op>, i: nat, st: Machine, env: Env, nested: Outcome)
    requires i <= |e| && Valid(st) && RunAgrees(e, i, st, env, nested) && !nested.CfaHolder?
    ensures Reading(Run(e, i, st, env, nested)) == Standard(e[i..], Used(st), env, nested, CAPACITY)
    decreases |e| - i
  {
    if i < |e| {
      var rest := e[i + 1..];
      assert e[i..][1..] == rest && e[i..] == [e[i]] + rest;
      if Returns(e[i]) {
        ReturnOnList(e[i], st, i + 1 == |e|, nested);
        ReturnFollows(e[i], Used(st), env, rest, nested, CAPACITY);
      } else {
        StepFollows(e[i], rest, st, env, nested);
        NoHolderInStep(e[i], st, env);
        var m := Step(e[i], st, env);
        if m.Ok? {
          RunFollowsStandard(e, i + 1, m.value, env, nested);
        }
      }
    }
  }

  /** Only an evaluation that may ask for the frame address ends with its holder. */
  lemma {:induction false} NoHolder(e: seq<Op>, i: nat, st: Machine, env: Env, nested: Outcome)
    requires i <= |e| && Valid(st) && !nested.Value? && !nested.CfaHolder?
    ensures !Run(e, i, st, env, nested).CfaHolder?
    decreases |e| - i
  {
    if i < |e| && !Returns(e[i]) {
      var m := Step(e[i], st, env);
      if m.Ok? {
        NoHolder(e, i + 1, m.value, env, nested);
      } else {
        NoHolderInStep(e[i], st, env);
      }
    }
  }

  lemma NoHolderInStep(op: Op, st: Machine, env: Env)
    requires Valid(st) && !Returns(op)
    ensures Step(op, st, env).Stop? ==> !Step(op, st, env).outcome.CfaHolder?
  {}

  lemma FrameAddressIsNoHolder(env: Env)
    requires ValidEnv(env)
    ensures !FrameAddress(env).CfaHolder?
  {
    NoHolder(env.cfaExpr, 0, Machine(env.inner, 0), env, Diverges);
  }

  /** The outcome of an expression under the standard, frame address included. */
  function StandardOutcome(e: seq<Op>, cfa: seq<Op>, env: Env): Outcome {
    Standard(e, [], env, Standard(cfa, [], env, Diverges, CAPACITY), CAPACITY)
  }

  /** Both evaluations, nested and outer, under the conditions of their steps. */
  lemma EvaluationFollowsStandard(e: seq<Op>, env: Env)
    requires ValidEnv(env) && RunAgrees(env.cfaExpr, 0, Machine(env.inner, 0), env, Diverges)
    requires RunAgrees(e, 0, Machine(env.outer, 0), env, FrameAddress(env))
    ensures Reading(Run(e, 0, Machine(env.outer, 0), env, FrameAddress(env))) == StandardOutcome(e, env.cfaExpr, env)
  {
    assert e[0..] == e && env.cfaExpr[0..] == env.cfaExpr;
    FrameAddressIsNoHolder(env);
    RunFollowsStandard(env.cfaExpr, 0, Machine(env.inner, 0), env, Diverges);
    RunFollowsStandard(e, 0, Machine(env.outer, 0), env, FrameAddress(env));
  }

  /** Programs without pick, over and rot mean what the standard says, whatever the stack held before, as long as
      their arithmetic, and call_frame_cfa, meet their conditions on the way. */
  lemma PlainEvaluation(e: seq<Op>, env: Env)
    requires ValidEnv(env) && AllPlain(e) && AllPlain(env.cfaExpr)
    requires AlikeAlong(e, [], env, FrameAddress(env), CAPACITY) && AlikeAlong(env.cfaExpr, [], env, Diverges, CAPACITY)
    ensures Reading(Run(e, 0, Machine(env.outer, 0), env, FrameAddress(env))) == StandardOutcome(e, env.cfaExpr, env)
  {
    FrameAddressIsNoHolder(env);
    FrameAddressOnList(env);
    PlainOnList(e, env);
    ListFollowsStandard(env.cfaExpr, [], env, Diverges, CAPACITY);
    ListFollowsStandard(e, [], env, FrameAddress(env), CAPACITY);
  }

  /** Every program without pick 0 has the standard outcome of its translation, under the same conditions. */
  lemma TranslationFollowsStandard(e: seq<Op>, env: Env)
    requires ValidEnv(env) && NoPickZero(e) && NoPickZero(env.cfaExpr)
    requires AlikeAlong(AllInStandardTerms(e), [], env, FrameAddress(env), CAPACITY)
    requires AlikeAlong(AllInStandardTerms(env.cfaExpr), [], env, Diverges, CAPACITY)
    ensures Reading(Run(e, 0, Machine(env.outer, 0), env, FrameAddress(env)))
      == StandardOutcome(AllInStandardTerms(e), AllInStandardTerms(env.cfaExpr), env)
  {
    var cfa := AllInStandardTerms(env.cfaExpr);
    assert env.cfaExpr[0..] == env.cfaExpr;
    FrameAddressIsNoHolder(env);
    RunInTerms(env.cfaExpr, 0, Machine(env.inner, 0), env, Diverges);
    EvaluationInTerms(e, env);
    ListFollowsStandard(cfa, [], env, Diverges, CAPACITY);
    ListFollowsStandard(AllInStandardTerms(e), [], env, FrameAddress(env), CAPACITY);
  }

  lemma SafeMeans(e: seq<Op>, env: Env, nested: Outcome)
    requires AllSafe(e) && !nested.CfaHolder?
    ensures Reading(OnList(e, [], env, nested, CAPACITY)) == Standard(e, [], env, nested, CAPACITY)
  {
    SafeIsAlike(e, [], env, nested, CAPACITY);
    ListFollowsStandard(e, [], env, nested, CAPACITY);
  }

  // ---- programs on which they differ ----

  /** over gives the top entry. */
  lemma OverDiffers(env: Env, nested: Outcome)
    requires ValidEnv(env) && !nested.CfaHolder?
    ensures var e := [Push(Lit(1)), Push(Lit(2))] + [Over];
      Run(e, 0, Machine(env.outer, 0), env, nested) == Value(2) && Standard(e, [], env, nested, CAPACITY) == Value(1)
  {
    var e := [Push(Lit(1)), Push(Lit(2))] + [Over];
    SafeMeans(e, env, nested);
    RunOneTwo([Over], env, nested);
    assert Step(Over, OneTwo(env), env) == Ok(Machine(OneTwo(env).data[2 := 2], 3));
    Unfold(Over, [], [1, 2], env, nested);
  }

  /** rot brings up the third entry. */
  lemma RotDiffers(env: Env, nested: Outcome)
    requires ValidEnv(env) && !nested.CfaHolder?
    ensures var e := [Push(Lit(1)), Push(Lit(2))] + [Push(Lit(3)), Rot];
      Run(e, 0, Machine(env.outer, 0), env, nested) == Value(1) && Standard(e, [], env, nested, CAPACITY) == Value(2)
  {
    var e := [Push(Lit(1)), Push(Lit(2))] + [Push(Lit(3)), Rot];
    SafeMeans(e, env, nested);
    RunOneTwo([Push(Lit(3)), Rot], env, nested);
    assert Run(e, 3, Machine(OneTwo(env).data[2 := 3], 3), env, nested) == Value(1);
    assert [Push(Lit(3)), Rot] == [Push(Lit(3))] + [Rot];
    Unfold(Push(Lit(3)), [Rot], [1, 2], env, nested);
    Unfold(Rot, [], [1, 2, 3], env, nested);
  }

  /** pick 0 gives what was left in the cell above the top. */
  lemma PickZeroDiffers(env: Env, nested: Outcome)
    requires ValidEnv(env) && !nested.CfaHolder?
    ensures var e := [Push(Lit(1)), Push(Lit(2))] + [Pick(0)];
      Run(e, 0, Machine(env.outer, 0), env, nested) == Value(env.outer[2]) && Standard(e, [], env, nested, CAPACITY) == Value(2)
  {
    var e := [Push(Lit(1)), Push(Lit(2))] + [Pick(0)];
    SafeMeans(e, env, nested);
    RunOneTwo([Pick(0)], env, nested);
    Unfold(Pick(0), [], [1, 2], env, nested);
  }

  /** call_frame_cfa ends the evaluation: what follows is dropped. */
  lemma CallFrameCfaDiffers(env: Env, nested: Outcome)
    requires ValidEnv(env) && nested.Value?
    ensures var e := [CallFrameCfa] + [Unary(PlusUconst(8))];
      Run(e, 0, Machine(env.outer, 0), env, nested) == CfaHolder(nested.word)
      && Standard(e, [], env, nested, CAPACITY) == Value(ToWord(nested.word + 8))
  {
    CfaGoesOn(CallFrameCfa, [], env, nested, CAPACITY);
  }
}
