/** The evaluator of DWARF expressions (dwarf_evaluate): a stack in an array of 20 words. */
module DwarfEval {
  import opened DwarfOps

  const CAPACITY: nat := 20

  /** The array and the number of words in use; what is above them is left over from before. */
  datatype Machine = Machine(data: seq<Word>, pos: nat)

  ghost predicate Valid(st: Machine) {
    |st.data| == CAPACITY && st.pos <= CAPACITY
  }

  /** A word popped and the machine after it. */
  datatype Popped = Popped(word: Word, rest: Machine)

  function PushTo(st: Machine, w: Word): (r: Result<Machine>)
    requires Valid(st)
    ensures r.Ok? ==> Valid(r.value)
  {
    if st.pos < CAPACITY then Ok(Machine(st.data[st.pos := w], st.pos + 1)) else Stop(Abort)
  }

  function PopFrom(st: Machine): (r: Result<Popped>)
    requires Valid(st)
    ensures r.Ok? ==> Valid(r.value.rest)
  {
    if st.pos > 0 then Ok(Popped(st.data[st.pos - 1], st.(pos := st.pos - 1))) else Stop(Abort)
  }

  /** Exactly 20 words fit; a push puts its word behind those in use, and a pop takes it away again. */
  lemma PushMeans(st: Machine, w: Word)
    requires Valid(st)
    ensures PushTo(st, w).Ok? <==> st.pos < 20
    ensures PushTo(st, w).Ok? ==>
      var r := PushTo(st, w).value;
      r.data[..r.pos] == st.data[..st.pos] + [w] && PopFrom(r) == Ok(Popped(w, r.(pos := st.pos)))
    ensures PopFrom(st).Ok? <==> st.pos != 0
  {}

  /** Entry `index` as dwarf_pick_uint counts: 1 is the top, and 0 the cell above it. */
  function PickFrom(st: Machine, index: Word): Result<Word>
    requires Valid(st)
  {
    if index >= st.pos then Stop(Abort)
    else if st.pos - index == CAPACITY then Stop(Undefined)
    else Ok(st.data[st.pos - index])
  }

  /** One operation other than a return. */
  function Step(op: Op, st: Machine, env: Env): (r: Result<Machine>)
    requires Valid(st)
    ensures r.Ok? ==> Valid(r.value)
  {
    match op
    case Push(s) => var w :- Pushed(s, env); PushTo(st, w)
    case Unary(o) => var p :- PopFrom(st); var w :- ApplyUnary(o, p.word, env); PushTo(p.rest, w)
    case Binary(o) =>
      var p :- PopFrom(st); var q :- PopFrom(p.rest); var w :- ApplyBinary(o, q.word, p.word); PushTo(q.rest, w)
    case Dup => var p :- PopFrom(st); var a :- PushTo(p.rest, p.word); PushTo(a, p.word)
    case Drop => var p :- PopFrom(st); Ok(p.rest)
    case Over => var w :- PickFrom(st, 1); PushTo(st, w)
    case Pick(k) => var w :- PickFrom(st, k); PushTo(st, w)
    case Swap =>
      var p :- PopFrom(st); var q :- PopFrom(p.rest); var a :- PushTo(q.rest, p.word); PushTo(a, q.word)
    case Rot =>
      var p :- PopFrom(st); var q :- PopFrom(p.rest); var t :- PopFrom(q.rest);
      var a :- PushTo(t.rest, q.word); var b :- PushTo(a, p.word); PushTo(b, t.word)
    case _ => Ok(st)
  }

  /** The operations that end the evaluation: `last` when nothing follows. A nested evaluation that asks for the
      frame address again never ends. */
  function Return(op: Op, st: Machine, last: bool, nested: Outcome): Outcome
    requires Valid(st) && Returns(op)
  {
    match op
    case CallFrameCfa => if nested.Value? then CfaHolder(nested.word) else nested
    case ImplicitValue(n) => if last then Value(n) else Abort
    case StackValue => if st.pos == 0 || !last then Abort else Value(st.data[st.pos - 1])
    case _ => Abort
  }

  /** The operations from index `i` on. */
  function Run(expr: seq<Op>, i: nat, st: Machine, env: Env, nested: Outcome): Outcome
    requires i <= |expr| && Valid(st)
    decreases |expr| - i
  {
    if i == |expr| then
      if st.pos == 0 then Abort else Value(st.data[st.pos - 1])
    else if Returns(expr[i]) then Return(expr[i], st, i + 1 == |expr|, nested)
    else match Step(expr[i], st, env)
      case Ok(next) => Run(expr, i + 1, next, env, nested)
      case Stop(o) => o
  }

  ghost predicate ValidEnv(env: Env) {
    |env.outer| == CAPACITY && |env.inner| == CAPACITY
  }

  /** The frame address as an expression of the program gets it. */
  function FrameAddress(env: Env): Outcome
    requires ValidEnv(env)
  {
    Run(env.cfaExpr, 0, Machine(env.inner, 0), env, Diverges)
  }

  // ---- the evaluator ----

  /** dwarf_stack_s, with its push, pop and pick. */
  class Stack {
    const data: array<Word>
    var pos: nat

    ghost predicate IsValid() reads this {
      data.Length == CAPACITY && pos <= CAPACITY
    }

    ghost function M(): Machine reads this, data {
      Machine(data[..], pos)
    }

    /** A stack with whatever its memory held before. */
    constructor (leftover: seq<Word>)
      requires |leftover| == CAPACITY
      ensures IsValid() && M() == Machine(leftover, 0) && fresh(data)
    {
      data := new Word[CAPACITY](i requires 0 <= i < CAPACITY => leftover[i]);
      pos := 0;
      new;
      assert data[..] == leftover;
    }

    /** Pushes; the result repeats the word. */
    method Push(w: Word) returns (r: Result<Word>)
      requires IsValid()
      modifies this, data
      ensures IsValid()
      ensures PushTo(old(M()), w) == (if r.Ok? then Ok(M()) else Stop(r.outcome))
    {
      if pos >= data.Length {
        return Stop(Abort);
      }
      data[pos] := w;
      pos := pos + 1;
      r := Ok(w);
    }

    method Pop() returns (r: Result<Word>)
      requires IsValid()
      modifies this
      ensures IsValid()
      ensures PopFrom(old(M())) == (if r.Ok? then Ok(Popped(r.value, M())) else Stop(r.outcome))
    {
      if pos == 0 {
        return Stop(Abort);
      }
      pos := pos - 1;
      r := Ok(data[pos]);
    }

    method Pick(index: Word) returns (r: Result<Word>)
      requires IsValid()
      ensures r == PickFrom(M(), index)
    {
      if index >= pos {
        return Stop(Abort);
      }
      if pos - index == data.Length {
        return Stop(Undefined);
      }
      r := Ok(data[pos - index]);
    }

    /** Operations that only move words. */
    method Shuffle(op: Op, env: Env) returns (r: Result<Word>)
      requires IsValid() && (op.Dup? || op.Drop? || op.Over? || op.Pick? || op.Swap?)
      modifies this, data
      ensures IsValid()
      ensures Step(op, old(M()), env) == (if r.Ok? then Ok(M()) else Stop(r.outcome))
    {
      match op
      case Dup =>
        var u0 :- Pop();
        var _ :- Push(u0);
        r := Push(u0);
      case Drop =>
        r := Pop();
      case Over =>
        var u0 :- Pick(1);
        r := Push(u0);
      case Pick(k) =>
        var u0 :- Pick(k);
        r := Push(u0);
      case Swap =>
        var u0 :- Pop();
        var u1 :- Pop();
        var _ :- Push(u0);
        r := Push(u1);
    }

    method Rotate(env: Env) returns (r: Result<Word>)
      requires IsValid()
      modifies this, data
      ensures IsValid()
      ensures Step(Rot, old(M()), env) == (if r.Ok? then Ok(M()) else Stop(r.outcome))
    {
      var u0 :- Pop();
      var u1 :- Pop();
      var u2 :- Pop();
      var _ :- Push(u1);
      var _ :- Push(u0);
      r := Push(u2);
    }

    /** Operations that compute. */
    method Compute(op: Op, env: Env) returns (r: Result<Word>)
      requires IsValid() && (op.Push? || op.Unary? || op.Binary?)
      modifies this, data
      ensures IsValid()
      ensures Step(op, old(M()), env) == (if r.Ok? then Ok(M()) else Stop(r.outcome))
    {
      match op
      case Push(s) =>
        var w :- Pushed(s, env);
        r := Push(w);
      case Unary(o) =>
        var v :- Pop();
        var w :- ApplyUnary(o, v, env);
        r := Push(w);
      case Binary(o) =>
        var u :- Pop();
        var v :- Pop();
        var w :- ApplyBinary(o, v, u);
        r := Push(w);
    }

    method Execute(op: Op, env: Env) returns (r: Result<Word>)
      requires IsValid() && !Returns(op)
      modifies this, data
      ensures IsValid()
      ensures Step(op, old(M()), env) == (if r.Ok? then Ok(M()) else Stop(r.outcome))
    {
      if op.Nop? {
        r := Ok(0);
      } else if op.Rot? {
        r := Rotate(env);
      } else if op.Push? || op.Unary? || op.Binary? {
        r := Compute(op, env);
      } else {
        r := Shuffle(op, env);
      }
    }
  }

  /** Evaluates a nested expression or, at the outside, an expression that may ask for the frame address. */
  method EvaluateOn(expr: seq<Op>, env: Env, leftover: seq<Word>, isNested: bool) returns (r: Outcome)
    requires ValidEnv(env) && |leftover| == CAPACITY
    ensures r == Run(expr, 0, Machine(leftover, 0), env, if isNested then Diverges else FrameAddress(env))
    decreases !isNested
  {
    var stack := new Stack(leftover);
    var i := 0;
    while i < |expr|
      invariant 0 <= i <= |expr| && stack.IsValid() && fresh(stack) && fresh(stack.data)
      invariant Run(expr, 0, Machine(leftover, 0), env, if isNested then Diverges else FrameAddress(env))
        == Run(expr, i, stack.M(), env, if isNested then Diverges else FrameAddress(env))
    {
      var op := expr[i];
      i := i + 1;
      match op {
        case CallFrameCfa =>
          if isNested {
            return Diverges;
          }
          var cfa := EvaluateOn(env.cfaExpr, env, env.inner, true);
          return if cfa.Value? then CfaHolder(cfa.word) else cfa;
        case ImplicitValue(n) =>
          return if i == |expr| then Value(n) else Abort;
        case StackValue =>
          var u := stack.Pop();
          return if u.Stop? then u.outcome else if i == |expr| then Value(u.value) else Abort;
        case Unknown =>
          return Abort;
        case _ =>
          var done := stack.Execute(op, env);
          if done.Stop? {
            return done.outcome;
          }
      }
    }
    var u := stack.Pop();
    r := if u.Ok? then Value(u.value) else u.outcome;
  }

  /** dwarf_evaluate. */
  method Evaluate(expr: seq<Op>, env: Env) returns (r: Outcome)
    requires ValidEnv(env)
    ensures r == Run(expr, 0, Machine(env.outer, 0), env, FrameAddress(env))
  {
    r := EvaluateOn(expr, env, env.outer, false);
  }
}
