/** What the evaluator computes, against the stack operations of DWARF 5, section 2.5.1, on a list. */
module DwarfMeaning {
  import opened WideUint
  import opened DwarfOps
  import opened DwarfEval
  import opened DwarfStandard

  // ---- the evaluator's arithmetic on a list, with the standard's stack operations ----

  function ListStep(op: Op, s: seq<Word>, env: Env): Result<seq<Word>>
    requires !Returns(op)
  {
    if op.Push? then
      var w :- Pushed(op.source, env);
      Ok(s + [w])
    else if op.Unary? then
      if |s| < 1 then Stop(Abort)
      else
        var w :- ApplyUnary(op.unary, Top(s, 0), env);
        Ok(s[..|s| - 1] + [w])
    else if op.Binary? then
      if |s| < 2 then Stop(Abort)
      else
        var w :- ApplyBinary(op.binary, Top(s, 1), Top(s, 0));
        Ok(s[..|s| - 2] + [w])
    else Moved(op, s)
  }

  /** The operations that end an evaluation: call_frame_cfa too, with the address of a holder of the frame address. */
  function ListReturned(op: Op, s: seq<Word>, last: bool, nested: Outcome): Outcome
    requires Returns(op)
  {
    if op.CallFrameCfa? then
      if nested.Value? then CfaHolder(nested.word) else nested
    else Returned(op, s, last)
  }

  /** A whole expression, with room for `limit` entries. */
  function OnList(e: seq<Op>, s: seq<Word>, env: Env, nested: Outcome, limit: nat): Outcome {
    if e == [] then
      if s == [] then Abort else Value(Top(s, 0))
    else if Returns(e[0]) then ListReturned(e[0], s, |e| == 1, nested)
    else
      var r := ListStep(e[0], s, env);
      if r.Stop? then r.outcome else if |r.value| > limit then Abort else OnList(e[1..], r.value, env, nested, limit)
  }

  // ---- the operations as the evaluator has them ----

  /** pick and over check for the entry they name but copy the one above it; rot turns the other way, which is the
      same as turning twice. */
  function InStandardTerms(op: Op): (r: seq<Op>)
    requires op != Pick(0)
    ensures r != []
  {
    match op
    case Over => [Pick(1), Drop, Dup]
    case Pick(k) => [Pick(k), Drop, Pick(k - 1)]
    case Rot => [Rot, Rot]
    case _ => [op]
  }

  predicate NoPickZero(e: seq<Op>) {
    forall k :: 0 <= k < |e| ==> e[k] != Pick(0)
  }

  function AllInStandardTerms(e: seq<Op>): (r: seq<Op>)
    requires NoPickZero(e)
    ensures r == [] <==> e == []
  {
    if e == [] then [] else InStandardTerms(e[0]) + AllInStandardTerms(e[1..])
  }

  function Used(st: Machine): seq<Word>
    requires Valid(st)
  {
    st.data[..st.pos]
  }

  predicate IsPlain(op: Op) {
    !op.Over? && !op.Pick? && !op.Rot?
  }

  /** The machine agrees with the outcome of a step on the list. */
  ghost predicate Agrees(m: Result<Machine>, r: Result<seq<Word>>) {
    match r
    case Stop(o) => m == Stop(o)
    case Ok(next) =>
      if |next| > CAPACITY then m == Stop(Abort) else m.Ok? && Valid(m.value) && Used(m.value) == next
  }

  /** One plain operation on the array is that operation on the list. */
  lemma ComputationRefines(op: Op, st: Machine, env: Env)
    requires Valid(st) && (op.Push? || op.Unary? || op.Binary?)
    ensures Agrees(Step(op, st, env), ListStep(op, Used(st), env))
  {
    var s := Used(st);
    match op
    case Binary(_) => assert |s| >= 1 ==> PopFrom(st).Ok? && PopFrom(st).value.word == Top(s, 0);
    case _ =>
  }

  lemma StepRefines(op: Op, st: Machine, env: Env)
    requires Valid(st) && !Returns(op) && IsPlain(op)
    ensures Agrees(Step(op, st, env), ListStep(op, Used(st), env))
  {
    if op.Push? || op.Unary? || op.Binary? {
      ComputationRefines(op, st, env);
    }
  }

  /** What running `e` after a step comes to. */
  function After(m: Result<Machine>, e: seq<Op>, env: Env, nested: Outcome): Outcome
    requires m.Ok? ==> Valid(m.value)
  {
    match m
    case Ok(next) => OnList(e, Used(next), env, nested, CAPACITY)
    case Stop(o) => o
  }

  lemma Unfold(op: Op, rest: seq<Op>, s: seq<Word>, env: Env, nested: Outcome)
    requires !Returns(op)
    ensures var r := ListStep(op, s, env);
      OnList([op] + rest, s, env, nested, CAPACITY)
      == if r.Stop? then r.outcome else if |r.value| > CAPACITY then Abort else OnList(rest, r.value, env, nested, CAPACITY)
  {
    assert ([op] + rest)[1..] == rest;
  }

  lemma PickThenDrop(k: Word, rest: seq<Op>, s: seq<Word>, env: Env, nested: Outcome)
    ensures OnList([Pick(k), Drop] + rest, s, env, nested, CAPACITY)
      == if |s| <= k || |s| >= CAPACITY then Abort else OnList(rest, s, env, nested, CAPACITY)
  {
    assert [Pick(k), Drop] + rest == [Pick(k)] + ([Drop] + rest);
    Unfold(Pick(k), [Drop] + rest, s, env, nested);
    if k < |s| {
      var t := s + [Top(s, k)];
      assert t[..|t| - 1] == s;
      Unfold(Drop, rest, t, env, nested);
    }
  }

  /** pick k copies entry k - 1 when there is an entry k. */
  lemma PickStep(k: Word, st: Machine, env: Env)
    requires Valid(st) && k > 0
    ensures var s := Used(st);
      if |s| <= k || |s| >= CAPACITY then Step(Pick(k), st, env) == Stop(Abort)
      else Step(Pick(k), st, env).Ok? && Used(Step(Pick(k), st, env).value) == s + [Top(s, k - 1)]
  {}

  lemma PickInTerms(k: Word, st: Machine, env: Env, rest: seq<Op>, nested: Outcome)
    requires Valid(st) && k > 0
    ensures OnList([Pick(k), Drop, Pick(k - 1)] + rest, Used(st), env, nested, CAPACITY)
      == After(Step(Pick(k), st, env), rest, env, nested)
  {
    assert [Pick(k), Drop, Pick(k - 1)] + rest == [Pick(k), Drop] + ([Pick(k - 1)] + rest);
    PickThenDrop(k, [Pick(k - 1)] + rest, Used(st), env, nested);
    PickStep(k, st, env);
    Unfold(Pick(k - 1), rest, Used(st), env, nested);
  }

  lemma OverInTerms(st: Machine, env: Env, rest: seq<Op>, nested: Outcome)
    requires Valid(st)
    ensures OnList([Pick(1), Drop, Dup] + rest, Used(st), env, nested, CAPACITY)
      == After(Step(Over, st, env), rest, env, nested)
  {
    assert [Pick(1), Drop, Dup] + rest == [Pick(1), Drop] + ([Dup] + rest);
    PickThenDrop(1, [Dup] + rest, Used(st), env, nested);
    PickStep(1, st, env);
    Unfold(Dup, rest, Used(st), env, nested);
  }

  lemma TurnOnce(p: seq<Word>, c: Word, b: Word, a: Word, rest: seq<Op>, env: Env, nested: Outcome)
    requires |p| + 3 <= CAPACITY
    ensures OnList([Rot] + rest, p + [c, b, a], env, nested, CAPACITY) == OnList(rest, p + [a, c, b], env, nested, CAPACITY)
  {
    assert (p + [c, b, a])[..|p|] == p;
    Unfold(Rot, rest, p + [c, b, a], env, nested);
  }

  lemma RotStep(st: Machine, env: Env, p: seq<Word>, c: Word, b: Word, a: Word)
    requires Valid(st) && Used(st) == p + [c, b, a]
    ensures Step(Rot, st, env).Ok? && Used(Step(Rot, st, env).value) == p + [b, a, c]
  {
    assert st.data[st.pos - 1] == Used(st)[|p| + 2] && st.data[st.pos - 2] == Used(st)[|p| + 1] && st.data[st.pos - 3] == Used(st)[|p|];
    assert st.data[..|p|] == Used(st)[..|p|] == p;
  }

  lemma RotInTerms(st: Machine, env: Env, rest: seq<Op>, nested: Outcome)
    requires Valid(st)
    ensures OnList([Rot, Rot] + rest, Used(st), env, nested, CAPACITY) == After(Step(Rot, st, env), rest, env, nested)
  {
    var s := Used(st);
    assert [Rot, Rot] + rest == [Rot] + ([Rot] + rest);
    if |s| >= 3 {
      var p, c, b, a := s[..|s| - 3], Top(s, 2), Top(s, 1), Top(s, 0);
      assert s == p + [c, b, a];
      TurnOnce(p, c, b, a, [Rot] + rest, env, nested);
      TurnOnce(p, a, c, b, rest, env, nested);
      RotStep(st, env, p, c, b, a);
    } else {
      Unfold(Rot, [Rot] + rest, s, env, nested);
    }
  }

  /** Any operation, on the array and in standard terms on the list. */
  lemma StepInTerms(op: Op, st: Machine, env: Env, rest: seq<Op>, nested: Outcome)
    requires Valid(st) && !Returns(op) && op != Pick(0)
    ensures OnList(InStandardTerms(op) + rest, Used(st), env, nested, CAPACITY) == After(Step(op, st, env), rest, env, nested)
  {
    if op.Over? {
      OverInTerms(st, env, rest, nested);
    } else if op.Pick? {
      PickInTerms(op.index, st, env, rest, nested);
    } else if op.Rot? {
      RotInTerms(st, env, rest, nested);
    } else {
      StepRefines(op, st, env);
      Unfold(op, rest, Used(st), env, nested);
    }
  }

  lemma ReturnInTerms(op: Op, rest: seq<Op>, st: Machine, env: Env, nested: Outcome)
    requires Valid(st) && Returns(op)
    ensures OnList([op] + rest, Used(st), env, nested, CAPACITY) == Return(op, st, rest == [], nested)
  {}

  /** Every program without pick 0 runs as its standard form does, to the same outcome: value, failed assertion
      (underflow, more than 20 entries, division by zero and the like) or undefined operation. */
  lemma {:induction false} RunInTerms(e: seq<Op>, i: nat, st: Machine, env: Env, nested: Outcome)
    requires i <= |e| && Valid(st) && NoPickZero(e)
    ensures NoPickZero(e[i..])
    ensures Run(e, i, st, env, nested) == OnList(AllInStandardTerms(e[i..]), Used(st), env, nested, CAPACITY)
    decreases |e| - i
  {
    if i < |e| {
      var op, rest := e[i], e[i..][1..];
      assert rest == e[i + 1..];
      assert AllInStandardTerms(e[i..]) == InStandardTerms(op) + AllInStandardTerms(rest);
      if Returns(op) {
        ReturnInTerms(op, AllInStandardTerms(rest), st, env, nested);
      } else {
        StepInTerms(op, st, env, AllInStandardTerms(rest), nested);
        var m := Step(op, st, env);
        if m.Ok? {
          RunInTerms(e, i + 1, m.value, env, nested);
        }
      }
    }
  }

  /** The outcome of an expression on lists, frame address included. */
  function ListOutcome(e: seq<Op>, cfa: seq<Op>, env: Env): Outcome {
    OnList(e, [], env, OnList(cfa, [], env, Diverges, CAPACITY), CAPACITY)
  }

  /** The evaluator on the array and on lists: nothing depends on what the stack held before. */
  lemma EvaluationInTerms(e: seq<Op>, env: Env)
    requires ValidEnv(env) && NoPickZero(e) && NoPickZero(env.cfaExpr)
    ensures Run(e, 0, Machine(env.outer, 0), env, FrameAddress(env))
      == ListOutcome(AllInStandardTerms(e), AllInStandardTerms(env.cfaExpr), env)
  {
    assert e[0..] == e && env.cfaExpr[0..] == env.cfaExpr;
    RunInTerms(env.cfaExpr, 0, Machine(env.inner, 0), env, Diverges);
    RunInTerms(e, 0, Machine(env.outer, 0), env, FrameAddress(env));
  }

  predicate AllPlain(e: seq<Op>) {
    forall k :: 0 <= k < |e| ==> IsPlain(e[k])
  }

  lemma {:induction false} PlainIsStandard(e: seq<Op>)
    requires AllPlain(e)
    ensures NoPickZero(e) && AllInStandardTerms(e) == e
  {
    if e != [] {
      PlainIsStandard(e[1..]);
    }
  }

  lemma PlainRun(e: seq<Op>, leftover: seq<Word>, env: Env, nested: Outcome)
    requires AllPlain(e) && |leftover| == CAPACITY
    ensures Run(e, 0, Machine(leftover, 0), env, nested) == OnList(e, [], env, nested, CAPACITY)
  {
    PlainIsStandard(e);
    assert e[0..] == e;
    RunInTerms(e, 0, Machine(leftover, 0), env, nested);
  }

  /** Programs without pick, over and rot run on the array as on a list, whatever the stack held before. */
  lemma PlainOnList(e: seq<Op>, env: Env)
    requires ValidEnv(env) && AllPlain(e) && AllPlain(env.cfaExpr)
    ensures Run(e, 0, Machine(env.outer, 0), env, FrameAddress(env)) == ListOutcome(e, env.cfaExpr, env)
  {
    PlainRun(env.cfaExpr, env.inner, env, Diverges);
    PlainRun(e, env.outer, env, FrameAddress(env));
  }

  /** Three turns are none. */
  lemma ThreeTurns(st: Machine, env: Env, rest: seq<Op>, nested: Outcome)
    requires Valid(st) && st.pos >= 3
    ensures Run([Rot, Rot, Rot] + rest, 0, st, env, nested) == Run([Rot, Rot, Rot] + rest, 3, st, env, nested)
  {
    var e := [Rot, Rot, Rot] + rest;
    var a := Step(Rot, st, env).value;
    var b := Step(Rot, a, env).value;
    assert Step(Rot, b, env).value == st;
    assert Run(e, 1, a, env, nested) == Run(e, 2, b, env, nested);
  }

  // ---- a beginning for the programs that tell the evaluator from the standard ----

  function OneTwo(env: Env): Machine
    requires ValidEnv(env)
  {
    Machine(env.outer[0 := 1][1 := 2], 2)
  }

  lemma RunOneTwo(rest: seq<Op>, env: Env, nested: Outcome)
    requires ValidEnv(env)
    ensures var e := [Push(Lit(1)), Push(Lit(2))] + rest;
      Run(e, 0, Machine(env.outer, 0), env, nested) == Run(e, 2, OneTwo(env), env, nested)
    ensures OnList([Push(Lit(1)), Push(Lit(2))] + rest, [], env, nested, CAPACITY) == OnList(rest, [1, 2], env, nested, CAPACITY)
  {
    var e := [Push(Lit(1)), Push(Lit(2))] + rest;
    assert Run(e, 0, Machine(env.outer, 0), env, nested) == Run(e, 1, Machine(env.outer[0 := 1], 1), env, nested);
    assert Step(Push(Lit(2)), Machine(env.outer[0 := 1], 1), env) == Ok(OneTwo(env));
    assert Run(e, 1, Machine(env.outer[0 := 1], 1), env, nested) == Run(e, 2, OneTwo(env), env, nested);
    assert e == [Push(Lit(1))] + ([Push(Lit(2))] + rest);
    assert [] + [1 as Word] == [1] && [1 as Word] + [2] == [1, 2];
    Unfold(Push(Lit(1)), [Push(Lit(2))] + rest, [], env, nested);
    Unfold(Push(Lit(2)), rest, [1], env, nested);
  }

  // ---- the unwind expression of the lazy PLT ----

  /** breg7 8, breg16 0, lit15, and, lit11, ge, lit3, shl, plus. */
  function PltCfa(): seq<Op> {
    [Push(Breg(7, 8)), Push(Breg(16, 0)), Push(Lit(15)), Binary(And), Push(Lit(11)), Binary(Ge), Push(Lit(3)), Binary(Shl), Binary(Plus)]
  }

  function AndTable(): seq<nat> { [0, 0, 0, 1] }

  lemma {:induction false} AndOfZero(a: nat, bits: nat)
    ensures Bitwise(a, 0, bits, AndTable()) == 0
  {
    if bits > 0 {
      AndOfZero(a / 2, bits - 1);
    }
  }

  lemma HalfRemainder(a: nat, m: nat)
    requires m > 0
    ensures a % (2 * m) == a % 2 + 2 * ((a / 2) % m)
  {
    var q, r := (a / 2) / m, (a / 2) % m;
    Associate(2, m, q);
    assert a == (2 * m) * q + (a % 2 + 2 * r);
    RemainderIs(a, 2 * m, q, a % 2 + 2 * r);
  }

  lemma AndOfOdd(a: nat, b: nat, bits: nat)
    requires bits > 0 && b % 2 == 1
    ensures Bitwise(a, b, bits, AndTable()) == a % 2 + 2 * Bitwise(a / 2, b / 2, bits - 1, AndTable())
  {}

  lemma MaskStep(a: nat, m: nat, bits: nat)
    requires bits > 0 && m > 0 && Bitwise(a / 2, m - 1, bits - 1, AndTable()) == (a / 2) % m
    ensures Bitwise(a, 2 * m - 1, bits, AndTable()) == a % (2 * m)
  {
    var b := 2 * m - 1;
    assert b / 2 == m - 1 && b % 2 == 1;
    AndOfOdd(a, b, bits);
    HalfRemainder(a, m);
  }

  /** and with k ones keeps the low k bits. */
  lemma {:induction false} LowBits(a: nat, k: nat, bits: nat, m: nat)
    requires k <= bits && m == Pow2(k)
    ensures Bitwise(a, m - 1, bits, AndTable()) == a % m
  {
    if k == 0 {
      AndOfZero(a, bits);
    } else {
      var half := Pow2(k - 1);
      LowBits(a / 2, k - 1, bits - 1, half);
      MaskStep(a, half, bits);
    }
  }

  lemma BinaryOnList(o: BinaryOp, a: Word, v: Word, u: Word, w: Word, env: Env)
    requires ApplyBinary(o, v, u) == Ok(w)
    ensures ListStep(Binary(o), [a, v] + [u], env) == Ok([a, w])
  {
    var s := [a, v] + [u];
    assert s[..|s| - 2] == [a] && [a] + [w] == [a, w];
  }

  /** Two operations whose effects are known. */
  lemma TwoSteps(x: Op, y: Op, rest: seq<Op>, s: seq<Word>, t: seq<Word>, u: seq<Word>, env: Env, nested: Outcome)
    requires !Returns(x) && !Returns(y) && |t| <= CAPACITY && |u| <= CAPACITY
    requires ListStep(x, s, env) == Ok(t) && ListStep(y, t, env) == Ok(u)
    ensures OnList([x, y] + rest, s, env, nested, CAPACITY) == OnList(rest, u, env, nested, CAPACITY)
  {
    assert [x, y] + rest == [x] + ([y] + rest);
    Unfold(x, [y] + rest, s, env, nested);
    Unfold(y, rest, t, env, nested);
  }

  /** A literal and an operation on it. */
  lemma LiteralStep(n: Word, o: BinaryOp, rest: seq<Op>, a: Word, v: Word, w: Word, env: Env, nested: Outcome)
    requires ApplyBinary(o, v, n) == Ok(w)
    ensures OnList([Push(Lit(n)), Binary(o)] + rest, [a, v], env, nested, CAPACITY) == OnList(rest, [a, w], env, nested, CAPACITY)
  {
    BinaryOnList(o, a, v, n, w, env);
    TwoSteps(Push(Lit(n)), Binary(o), rest, [a, v], [a, v] + [n], [a, w], env, nested);
  }

  lemma AndFifteen(v: Word, n: Word)
    requires n == 15
    ensures ApplyBinary(And, v, n) == Ok(v % 16)
  {
    SmallPowers();
    LowBits(v, 4, 64, 16);
    assert AndTable() == [0, 0, 0, 1];
  }

  lemma ShlThree(f: Word, n: Word)
    requires n == 3 && f <= 1
    ensures ApplyBinary(Shl, f, n) == Ok(8 * f)
  {
    assert Pow2(3) == 8;
  }

  lemma PltAdd(a: Word, f: Word, e: seq<Op>, env: Env, nested: Outcome)
    requires f <= 1 && e == [Push(Lit(3)), Binary(Shl)] + [Binary(Plus)]
    ensures OnList(e, [a, f], env, nested, CAPACITY) == Value(ToWord(a + 8 * f))
  {
    ShlThree(f, 3);
    LiteralStep(3, Shl, [Binary(Plus)], a, f, 8 * f, env, nested);
    Unfold(Binary(Plus), [], [a, 8 * f], env, nested);
  }

  lemma PltCompare(a: Word, r: Word, e: seq<Op>, env: Env, nested: Outcome)
    requires r < 16 && e == [Push(Lit(11)), Binary(Ge)] + ([Push(Lit(3)), Binary(Shl)] + [Binary(Plus)])
    ensures OnList(e, [a, r], env, nested, CAPACITY) == Value(ToWord(a + if r >= 11 then 8 else 0))
  {
    var rest := [Push(Lit(3)), Binary(Shl)] + [Binary(Plus)];
    LiteralStep(11, Ge, rest, a, r, Flag(r >= 11), env, nested);
    PltAdd(a, Flag(r >= 11), rest, env, nested);
  }

  lemma PltMask(a: Word, rip: Word, e: seq<Op>, env: Env, nested: Outcome)
    requires e == [Push(Lit(15)), Binary(And)] + ([Push(Lit(11)), Binary(Ge)] + ([Push(Lit(3)), Binary(Shl)] + [Binary(Plus)]))
    ensures OnList(e, [a, rip], env, nested, CAPACITY) == Value(ToWord(a + if rip % 16 >= 11 then 8 else 0))
  {
    var rest := [Push(Lit(11)), Binary(Ge)] + ([Push(Lit(3)), Binary(Shl)] + [Binary(Plus)]);
    AndFifteen(rip, 15);
    LiteralStep(15, And, rest, a, rip, rip % 16, env, nested);
    PltCompare(a, rip % 16, rest, env, nested);
  }

  lemma TwoPushes(x: Source, y: Source, a: Word, b: Word, rest: seq<Op>, env: Env, nested: Outcome)
    requires Pushed(x, env) == Ok(a) && Pushed(y, env) == Ok(b)
    ensures OnList([Push(x), Push(y)] + rest, [], env, nested, CAPACITY) == OnList(rest, [a, b], env, nested, CAPACITY)
  {
    assert [] + [a] == [a] && [a] + [b] == [a, b];
    TwoSteps(Push(x), Push(y), rest, [], [a], [a, b], env, nested);
  }

  lemma SumOfWords(a: int, b: int)
    ensures ToWord(ToWord(a) + b) == ToWord(a + b)
  {}

  /** What the expression computes on a list, from the words its first two operations push. */
  lemma PltOnList(x: Source, y: Source, a: Word, rip: Word, rest: seq<Op>, env: Env, nested: Outcome)
    requires Pushed(x, env) == Ok(a) && Pushed(y, env) == Ok(rip) && rest == PltRest()
    ensures OnList([Push(x), Push(y)] + rest, [], env, nested, CAPACITY) == Value(ToWord(a + if rip % 16 >= 11 then 8 else 0))
  {
    TwoPushes(x, y, a, rip, rest, env, nested);
    PltMask(a, rip, rest, env, nested);
  }

  function PltRest(): seq<Op> {
    [Push(Lit(15)), Binary(And)] + ([Push(Lit(11)), Binary(Ge)] + ([Push(Lit(3)), Binary(Shl)] + [Binary(Plus)]))
  }

  lemma BregPushed(k: nat, n: Word, env: Env)
    requires k <= 16
    ensures Pushed(Breg(k, n), env) == Ok(ToWord(Register(env, k) + n))
    ensures n == 0 ==> Pushed(Breg(k, n), env) == Ok(Register(env, k))
  {}

  lemma PltOnRegisters(e: seq<Op>, k: nat, j: nat, rest: seq<Op>, env: Env, nested: Outcome)
    requires k <= 16 && j <= 16 && rest == PltRest() && e == [Push(Breg(k, 8)), Push(Breg(j, 0))] + rest
    ensures OnList(e, [], env, nested, CAPACITY)
      == Value(ToWord(ToWord(Register(env, k) + 8) + if Register(env, j) % 16 >= 11 then 8 else 0))
  {
    BregPushed(k, 8, env);
    BregPushed(j, 0, env);
    PltOnList(Breg(k, 8), Breg(j, 0), ToWord(Register(env, k) + 8), Register(env, j), rest, env, nested);
  }

  lemma PltShape(e: seq<Op>)
    requires e == PltCfa()
    ensures e == [Push(Breg(7, 8)), Push(Breg(16, 0))] + PltRest() && AllPlain(e)
  {}

  lemma FrameAddressOnList(env: Env)
    requires ValidEnv(env) && AllPlain(env.cfaExpr)
    ensures FrameAddress(env) == OnList(env.cfaExpr, [], env, Diverges, CAPACITY)
  {
    PlainRun(env.cfaExpr, env.inner, env, Diverges);
  }

  lemma PltMeans(e: seq<Op>, rsp: nat, rip: nat, env: Env)
    requires e == PltCfa() && rsp == 7 && rip == 16
    ensures OnList(e, [], env, Diverges, CAPACITY)
      == Value(ToWord(ToWord(Register(env, rsp) + 8) + if Register(env, rip) % 16 >= 11 then 8 else 0))
  {
    PltShape(e);
    PltOnRegisters(e, rsp, rip, PltRest(), env, Diverges);
  }

  lemma PltMeansSum(e: seq<Op>, rsp: nat, rip: nat, env: Env)
    requires e == PltCfa() && rsp == 7 && rip == 16
    ensures OnList(e, [], env, Diverges, CAPACITY)
      == Value(ToWord(Register(env, rsp) + 8 + if Register(env, rip) % 16 >= 11 then 8 else 0))
  {
    PltMeans(e, rsp, rip, env);
    SumOfWords(Register(env, rsp) + 8, if Register(env, rip) % 16 >= 11 then 8 else 0);
  }

  /** The frame address in the lazy PLT: past the return address, and past one more word from byte 11 of an entry on.
      The stack pointer is register 7 and the instruction pointer register 16. */
  lemma PltFrameAddress(env: Env, rsp: nat, rip: nat)
    requires ValidEnv(env) && env.cfaExpr == PltCfa() && rsp == 7 && rip == 16
    ensures FrameAddress(env) == Value(ToWord(Register(env, rsp) + 8 + if Register(env, rip) % 16 >= 11 then 8 else 0))
  {
    PltShape(env.cfaExpr);
    FrameAddressOnList(env);
    PltMeansSum(env.cfaExpr, rsp, rip, env);
  }
}
