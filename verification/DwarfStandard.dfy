/** The operations of DWARF 5, sections 2.5.1.1 to 2.5.1.5, with their own arithmetic: words of the generic type are
    unsigned, modulo 2^64, except where the standard says signed. */
module DwarfStandard {
  import opened WideUint
  import opened DwarfOps

  // ---- bits and bytes, from the definition of binary numbers ----

  /** Bit `k` of a word. */
  function BitAt(w: nat, k: nat): nat {
    w / Pow2(k) % 2
  }

  function OnBits(o: BinaryOp, x: nat, y: nat): (r: nat)
    ensures r <= 1
  {
    match o
    case And => if x == 1 && y == 1 then 1 else 0
    case Or => if x == 1 || y == 1 then 1 else 0
    case _ => if x != y then 1 else 0
  }

  /** The number whose low `n` bits are combined one by one. */
  function CombineBits(o: BinaryOp, v: nat, u: nat, n: nat): (r: nat)
    ensures r < Pow2(n)
  {
    if n == 0 then 0 else CombineBits(o, v, u, n - 1) + Pow2(n - 1) * OnBits(o, BitAt(v, n - 1), BitAt(u, n - 1))
  }

  /** The number whose low `n` bits are inverted one by one. */
  function InvertBits(v: nat, n: nat): (r: nat)
    ensures r < Pow2(n)
  {
    if n == 0 then 0 else InvertBits(v, n - 1) + Pow2(n - 1) * (1 - BitAt(v, n - 1))
  }

  /** `size` bytes of memory as a little-endian number. */
  function MemoryNumber(env: Env, address: int, size: nat): nat {
    if size == 0 then 0
    else MemoryNumber(env, address, size - 1) + env.memory(address + (size - 1)) * Pow2(8 * (size - 1))
  }

  // ---- shifts, one bit at a time ----

  function ShiftLeft(v: Word, k: nat): Word {
    if k == 0 then v else ToWord(2 * ShiftLeft(v, k - 1))
  }

  function ShiftRight(v: Word, k: nat): Word {
    if k == 0 then v else ShiftRight(v, k - 1) / 2
  }

  /** Fills with the sign bit. */
  function ShiftArithmetic(v: Word, k: nat): Word {
    if k == 0 then v
    else
      var w := ShiftArithmetic(v, k - 1);
      if w >= MIN_SIGNED then w / 2 + MIN_SIGNED else w / 2
  }

  // ---- arithmetic ----

  function Magnitude(w: Word): nat {
    if w < MIN_SIGNED then w else 0x1_0000_0000_0000_0000 - w
  }

  /** Division of the magnitudes; negative when the signs differ. */
  function SignedDivide(v: Word, u: Word): Word
    requires u != 0
  {
    var q := Magnitude(v) / Magnitude(u);
    if (v < MIN_SIGNED) == (u < MIN_SIGNED) then ToWord(q) else ToWord(-q)
  }

  function StandardUnary(op: UnaryOp, v: Word, env: Env): Result<Word> {
    match op
    case PlusUconst(n) => Ok(ToWord(v + n))
    case Deref => Ok(ToWord(MemoryNumber(env, v, WORD_BYTES)))
    case DerefSize(n) => if 1 <= n <= 8 then Ok(ToWord(MemoryNumber(env, v, n))) else Stop(Abort)
    case Abs => Ok(Magnitude(v))
    case Not => Ok(ToWord(InvertBits(v, WORD_BITS)))
    case Neg => Ok(ToWord(0x1_0000_0000_0000_0000 - v))
  }

  /** `v` is the second entry, `u` the top; arithmetic does not fail on overflow. */
  function StandardBinary(op: BinaryOp, v: Word, u: Word): Result<Word> {
    match op
    case Div => if u == 0 then Stop(Abort) else Ok(SignedDivide(v, u))
    case Mod => if u == 0 then Stop(Abort) else Ok(v % u)
    case Shl => Ok(ShiftLeft(v, u))
    case Shr => Ok(ShiftRight(v, u))
    case Shra => Ok(ShiftArithmetic(v, u))
    case And => Ok(ToWord(CombineBits(op, v, u, WORD_BITS)))
    case Or => Ok(ToWord(CombineBits(op, v, u, WORD_BITS)))
    case Xor => Ok(ToWord(CombineBits(op, v, u, WORD_BITS)))
    case Plus => Ok(ToWord(v + u))
    case Minus => Ok(ToWord(v - u))
    case Mul => Ok(ToWord(v * u))
    case Lt => Ok(Flag(Signed(v) < Signed(u)))
    case Le => Ok(Flag(Signed(v) <= Signed(u)))
    case Gt => Ok(Flag(Signed(v) > Signed(u)))
    case Ge => Ok(Flag(Signed(v) >= Signed(u)))
    case Eq => Ok(Flag(v == u))
    case Ne => Ok(Flag(v != u))
  }

  // ---- registers: the numbering of the x86-64 psABI, and where the saved context has each of them ----

  datatype RegisterName = RAX | RDX | RCX | RBX | RSI | RDI | RBP | RSP | R8 | R9 | R10 | R11 | R12 | R13 | R14 | R15 | RIP

  function Numbered(k: nat): RegisterName
    requires k <= 16
  {
    [RAX, RDX, RCX, RBX, RSI, RDI, RBP, RSP, R8, R9, R10, R11, R12, R13, R14, R15, RIP][k]
  }

  /** The words of the context before the register: flags first, then r15 down to r8, and so on. */
  function SavedAt(name: RegisterName): nat {
    match name
    case R15 => 1
    case R14 => 2
    case R13 => 3
    case R12 => 4
    case R11 => 5
    case R10 => 6
    case R9 => 7
    case R8 => 8
    case RDI => 9
    case RSI => 10
    case RBP => 11
    case RBX => 12
    case RDX => 13
    case RCX => 14
    case RAX => 15
    case RSP => 16
    case RIP => 17
  }

  function RegisterPlace(env: Env, k: nat): Word
    requires k <= 16
  {
    ToWord(env.state + 8 * SavedAt(Numbered(k)))
  }

  function BasedOn(env: Env, k: nat, offset: Word): Result<Word> {
    if k > 16 then Stop(Abort) else Ok(ToWord(MemoryNumber(env, RegisterPlace(env, k), WORD_BYTES) + offset))
  }

  /** A register location is represented by where the register is saved; registers that are not saved fail. */
  function StandardPush(s: Source, env: Env): Result<Word> {
    match s
    case Addr(n) => Ok(ToWord(env.binaryBase + n))
    case Reg(k) => if k > 16 then Stop(Abort) else Ok(RegisterPlace(env, k))
    case Breg(k, n) => BasedOn(env, k, n)
    case Bregx(k, n) => BasedOn(env, k, n)
    case Fbreg(n) => Ok(ToWord(env.frameBase + n))
    case Lit(n) => Ok(n)
    case Const(n) => Ok(n)
  }

  // ---- the stack; the top is the last entry ----

  function Top(s: seq<Word>, k: nat): Word
    requires k < |s|
  {
    s[|s| - 1 - k]
  }

  predicate MovesWords(op: Op) {
    op.Dup? || op.Drop? || op.Over? || op.Pick? || op.Swap? || op.Rot? || op.Nop?
  }

  function Moved(op: Op, s: seq<Word>): Result<seq<Word>>
    requires MovesWords(op)
  {
    match op
    case Dup => if |s| < 1 then Stop(Abort) else Ok(s + [Top(s, 0)])
    case Drop => if |s| < 1 then Stop(Abort) else Ok(s[..|s| - 1])
    case Over => if |s| < 2 then Stop(Abort) else Ok(s + [Top(s, 1)])
    case Pick(k) => if |s| <= k then Stop(Abort) else Ok(s + [Top(s, k)])
    case Swap => if |s| < 2 then Stop(Abort) else Ok(s[..|s| - 2] + [Top(s, 0), Top(s, 1)])
    // the top becomes the third entry
    case Rot => if |s| < 3 then Stop(Abort) else Ok(s[..|s| - 3] + [Top(s, 0), Top(s, 2), Top(s, 1)])
    case Nop => Ok(s)
  }

  /** The operations that end an expression. */
  predicate Ends(op: Op) {
    op.ImplicitValue? || op.StackValue? || op.Unknown?
  }

  /** What they give, as the last operation. */
  function Returned(op: Op, s: seq<Word>, last: bool): Outcome
    requires Ends(op)
  {
    match op
    case ImplicitValue(n) => if last then Value(n) else Abort
    case StackValue => if s == [] || !last then Abort else Value(Top(s, 0))
    case Unknown => Abort
  }

  /** call_frame_cfa pushes the frame address, the outcome of an expression of its own; the rest is as section 2.5.1 says. */
  function StandardStep(op: Op, s: seq<Word>, env: Env, nested: Outcome): Result<seq<Word>>
    requires !Ends(op)
  {
    if op.CallFrameCfa? then
      if nested.Value? then Ok(s + [nested.word]) else Stop(nested)
    else if op.Push? then
      var w :- StandardPush(op.source, env);
      Ok(s + [w])
    else if op.Unary? then
      if |s| < 1 then Stop(Abort)
      else
        var w :- StandardUnary(op.unary, Top(s, 0), env);
        Ok(s[..|s| - 1] + [w])
    else if op.Binary? then
      if |s| < 2 then Stop(Abort)
      else
        var w :- StandardBinary(op.binary, Top(s, 1), Top(s, 0));
        Ok(s[..|s| - 2] + [w])
    else Moved(op, s)
  }

  /** A whole expression, with room for `limit` entries. */
  function Standard(e: seq<Op>, s: seq<Word>, env: Env, nested: Outcome, limit: nat): Outcome {
    if e == [] then
      if s == [] then Abort else Value(Top(s, 0))
    else if Ends(e[0]) then Returned(e[0], s, |e| == 1)
    else
      var r := StandardStep(e[0], s, env, nested);
      if r.Stop? then r.outcome else if |r.value| > limit then Abort else Standard(e[1..], r.value, env, nested, limit)
  }

  /** The limit only ever ends an evaluation: with more room, every other outcome is the same. */
  lemma {:induction false} LimitOnlyStops(e: seq<Op>, s: seq<Word>, env: Env, nested: Outcome, limit: nat, more: nat)
    requires limit <= more
    ensures Standard(e, s, env, nested, limit) == Abort || Standard(e, s, env, nested, limit) == Standard(e, s, env, nested, more)
  {
    if e != [] && !Ends(e[0]) {
      var r := StandardStep(e[0], s, env, nested);
      if r.Ok? && |r.value| <= limit {
        LimitOnlyStops(e[1..], r.value, env, nested, limit, more);
      }
    }
  }
}
