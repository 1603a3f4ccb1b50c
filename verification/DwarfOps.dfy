/** Machine words and the operations of DWARF expressions (dwarf_eval.c), without their stack. */
module DwarfOps {
  import opened WideUint

  const WORDS: int := 0x1_0000_0000_0000_0000

  type Word = w: int | 0 <= w < 0x1_0000_0000_0000_0000

  type Byte = b: int | 0 <= b < 0x100

  function ToWord(v: int): Word { v % 0x1_0000_0000_0000_0000 }

  function Signed(w: Word): int {
    if w < 0x8000_0000_0000_0000 then w else w - 0x1_0000_0000_0000_0000
  }

  // ---- outcomes ----

  /** How an evaluation ends: a value, the address of the holder with the frame address in it, a failed assertion,
      an operation C leaves undefined, or no end at all. */
  datatype Outcome = Value(word: Word) | CfaHolder(cfa: Word) | Abort | Undefined | Diverges

  /** A value, or the end of the evaluation. */
  datatype Result<T> = Ok(value: T) | Stop(outcome: Outcome) {
    predicate IsFailure() { Stop? }

    function PropagateFailure<U>(): Result<U>
      requires Stop?
    {
      Stop(outcome)
    }

    function Extract(): T
      requires Ok?
    {
      value
    }
  }

  // ---- the program's surroundings ----

  /** Memory, the address of the saved register context, the base addresses, the expression for the frame address,
      and what an evaluation finds in its uninitialised stack: the first one, and the nested one. */
  datatype Env = Env(
    memory: int -> Byte, state: Word, binaryBase: Word, frameBase: Word, cfaExpr: seq<Op>,
    outer: seq<Word>, inner: seq<Word>)

  /** The position of a register of the DWARF numbering in the saved context. */
  function FieldOf(reg: nat): nat
    requires reg <= 16
    ensures 1 <= FieldOf(reg) <= 17
  {
    if reg >= 8 then if reg == 16 then 17 else 16 - reg
    else [15, 13, 14, 12, 10, 9, 11, 16][reg]
  }

  /** `size` bytes of memory, low byte first. */
  function LoadBytes(env: Env, address: int, size: nat): nat
    decreases size
  {
    if size == 0 then 0 else env.memory(address) + 0x100 * LoadBytes(env, address + 1, size - 1)
  }

  lemma {:induction false} BytesFit(env: Env, address: int, size: nat)
    ensures LoadBytes(env, address, size) < Pow2(8 * size)
    decreases size
  {
    if size > 0 {
      BytesFit(env, address + 1, size - 1);
      ByteShift(LoadBytes(env, address + 1, size - 1), size - 1);
    }
  }

  lemma ByteShift(rest: nat, n: nat)
    requires rest < Pow2(8 * n)
    ensures 0x100 * rest + 0xff < Pow2(8 * (n + 1))
  {
    Pow2Adds(8, 8 * n);
    SmallPowers();
  }

  const WORD_BYTES: nat := 8

  function LoadWord(env: Env, address: int): Word {
    WordFits(env, address);
    LoadBytes(env, address, WORD_BYTES)
  }

  lemma WordFits(env: Env, address: int)
    ensures LoadBytes(env, address, WORD_BYTES) < WORDS
  {
    BytesFit(env, address, WORD_BYTES);
    SixtyFour();
  }

  lemma SixtyFour()
    ensures Pow2(64) == WORDS
  {
    SmallPowers();
    Pow2Adds(32, 32);
  }

  function RegisterAddress(env: Env, reg: nat): Word
    requires reg <= 16
  {
    ToWord(env.state + 8 * FieldOf(reg))
  }

  function Register(env: Env, reg: nat): Word
    requires reg <= 16
  {
    LoadWord(env, RegisterAddress(env, reg))
  }

  // ---- operations ----

  datatype Source =
    | Addr(number: Word)
    | Reg(reg: nat)
    | Breg(reg: nat, number: Word)
    | Bregx(number: Word, number2: Word)
    | Fbreg(number: Word)
    | Lit(lit: Word)
    | Const(number: Word)

  datatype UnaryOp = PlusUconst(number: Word) | Deref | DerefSize(number: Word) | Abs | Not | Neg

  datatype BinaryOp = Div | Mod | Shl | Shr | Shra | And | Or | Xor | Plus | Minus | Mul | Lt | Le | Gt | Ge | Eq | Ne

  datatype Op =
    | Push(source: Source)
    | Unary(unary: UnaryOp)
    | Binary(binary: BinaryOp)
    | Dup | Drop | Over | Pick(index: Word) | Swap | Rot | Nop
    | CallFrameCfa
    | ImplicitValue(number2: Word)
    | StackValue
    | Unknown

  /** The operations that end an evaluation. */
  predicate Returns(op: Op) {
    op.CallFrameCfa? || op.ImplicitValue? || op.StackValue? || op.Unknown?
  }

  /** What a pushing operation pushes. */
  function Pushed(s: Source, env: Env): Result<Word> {
    match s
    case Addr(n) => Ok(ToWord(env.binaryBase + n))
    case Reg(k) => if k > 16 then Stop(Abort) else Ok(RegisterAddress(env, k))
    case Breg(k, n) => if k > 16 then Stop(Abort) else Ok(ToWord(Register(env, k) + n))
    case Bregx(k, n) => if k > 16 then Stop(Abort) else Ok(ToWord(Register(env, k) + n))
    case Fbreg(n) => Ok(ToWord(env.frameBase + n))
    case Lit(n) => Ok(n)
    case Const(n) => Ok(n)
  }

  /** memcpy of `size` bytes over the low bytes of a word. */
  function Overlay(w: Word, env: Env, address: Word, size: nat): int {
    w - w % Pow2(8 * size) + LoadBytes(env, address, size)
  }

  /** deref_size copies over the word that holds the size itself; the other bytes of that word are zero, so the
      result is the loaded bytes, zero-extended. */
  lemma SizedLoadZeroExtends(env: Env, address: Word, size: Word)
    requires size in {1, 2, 4, 8}
    ensures Overlay(size, env, address, size) == LoadBytes(env, address, size) < WORDS
  {
    SmallPowers();
    SixtyFour();
    BytesFit(env, address, size);
    assert Pow2(8 * size) == if size == 1 then 0x100 else if size == 2 then 0x10000 else if size == 4 then TWO_TO_32 else WORDS;
  }

  function ApplyUnary(op: UnaryOp, v: Word, env: Env): Result<Word> {
    match op
    case PlusUconst(n) => Ok(ToWord(v + n))
    case Deref => Ok(LoadWord(env, v))
    case DerefSize(n) =>
      if n in {1, 2, 4, 8} then
        SizedLoadZeroExtends(env, v, n);
        Ok(Overlay(n, env, v, n))
      else Stop(Abort)
    case Abs => Ok(ToWord(if Signed(v) < 0 then -Signed(v) else Signed(v)))
    case Not => Ok(0xffff_ffff_ffff_ffff - v)
    case Neg => Ok(ToWord(-Signed(v)))
  }

  /** Bit by bit: `table` has the result for the bits (0,0), (0,1), (1,0), (1,1). */
  function Bitwise(a: nat, b: nat, bits: nat, table: seq<nat>): (r: nat)
    requires |table| == 4 && forall k :: 0 <= k < 4 ==> table[k] <= 1
    ensures r < Pow2(bits)
  {
    if bits == 0 then 0 else table[2 * (a % 2) + b % 2] + 2 * Bitwise(a / 2, b / 2, bits - 1, table)
  }

  const WORD_BITS: nat := 64

  function BitsOf(a: Word, b: Word, table: seq<nat>): Word
    requires |table| == 4 && forall k :: 0 <= k < 4 ==> table[k] <= 1
  {
    SixtyFour();
    Bitwise(a, b, WORD_BITS, table)
  }

  lemma DivideTwice(x: nat, m: nat)
    requires m > 0
    ensures x / (2 * m) == (x / 2) / m
  {
    var q, r := (x / 2) / m, (x / 2) % m;
    Associate(2, m, q);
    assert x == (2 * m) * q + (x % 2 + 2 * r);
    RemainderIs(x, 2 * m, q, x % 2 + 2 * r);
  }

  lemma BitwiseHalf(a: nat, b: nat, bits: nat, table: seq<nat>)
    requires |table| == 4 && (forall j :: 0 <= j < 4 ==> table[j] <= 1) && bits > 0
    ensures Bitwise(a, b, bits, table) / 2 == Bitwise(a / 2, b / 2, bits - 1, table)
    ensures Bitwise(a, b, bits, table) % 2 == table[2 * (a % 2) + b % 2]
  {}

  /** Bit `k` of a number. */
  function Bit(x: nat, k: nat): (r: nat)
    ensures r <= 1
  {
    if k == 0 then x % 2 else Bit(x / 2, k - 1)
  }

  lemma {:induction false} BitIs(x: nat, k: nat)
    ensures Bit(x, k) == x / Pow2(k) % 2
  {
    if k > 0 {
      BitIs(x / 2, k - 1);
      DivideTwice(x, Pow2(k - 1));
    }
  }

  /** Every bit of the result is the table's entry for the bits of the operands. */
  lemma {:induction false} BitwiseBit(a: nat, b: nat, bits: nat, table: seq<nat>, k: nat)
    requires |table| == 4 && (forall j :: 0 <= j < 4 ==> table[j] <= 1) && k < bits
    ensures Bit(Bitwise(a, b, bits, table), k) == table[2 * Bit(a, k) + Bit(b, k)]
  {
    BitwiseHalf(a, b, bits, table);
    if k > 0 {
      BitwiseBit(a / 2, b / 2, bits - 1, table, k - 1);
    }
  }

  /** Division truncates toward zero. */
  function Quotient(a: int, b: int): int
    requires b != 0
  {
    if a >= 0 then a / b else -((-a) / b)
  }

  function Remainder(a: int, b: int): int
    requires b != 0
  {
    a - b * Quotient(a, b)
  }

  function Product(a: int, b: int): int { a * b }

  function ShiftUp(v: int, k: nat): int { v * Pow2(k) }

  /** Rounds down, so that the sign is kept. */
  function ShiftDown(v: int, k: nat): int { v / Pow2(k) }

  function Flag(c: bool): Word { if c then 1 else 0 }

  const MIN_SIGNED: Word := 0x8000_0000_0000_0000

  /** The operand `v` below the top, and the top `u`. */
  function ApplyBinary(op: BinaryOp, v: Word, u: Word): Result<Word> {
    var s1, s0 := Signed(v), Signed(u);
    match op
    case Div => if u == 0 then Stop(Abort) else if v == MIN_SIGNED && s0 == -1 then Stop(Undefined) else Ok(ToWord(Quotient(s1, s0)))
    case Mod =>
      if u == 0 then Stop(Abort) else if v == MIN_SIGNED && s0 == -1 then Stop(Undefined)
      else Ok(ToWord(Remainder(s1, s0)))
    case Shl => if u >= 64 then Stop(Undefined) else Ok(ToWord(ShiftUp(v, u)))
    case Shr => if u >= 64 then Stop(Undefined) else Ok(ToWord(ShiftDown(v, u)))
    case Shra => if u >= 64 then Stop(Undefined) else Ok(ToWord(ShiftDown(s1, u)))
    case And => Ok(BitsOf(v, u, [0, 0, 0, 1]))
    case Or => Ok(BitsOf(v, u, [0, 1, 1, 1]))
    case Xor => Ok(BitsOf(v, u, [0, 1, 1, 0]))
    case Plus => Ok(ToWord(s1 + s0))
    case Minus => Ok(ToWord(s1 - s0))
    case Mul => Ok(ToWord(Product(s1, s0)))
    case Lt => Ok(Flag(s1 < s0))
    case Le => Ok(Flag(s1 <= s0))
    case Gt => Ok(Flag(s1 > s0))
    case Ge => Ok(Flag(s1 >= s0))
    case Eq => Ok(Flag(s1 == s0))
    case Ne => Ok(Flag(s1 != s0))
  }

  /** Division and remainder: the remainder is smaller than the divisor and has the sign of the dividend. */
  lemma DivisionMeans(a: int, b: int)
    requires b != 0
    ensures a == b * Quotient(a, b) + Remainder(a, b)
    ensures if b < 0 then b < Remainder(a, b) < -b else -b < Remainder(a, b) < b
    ensures (a >= 0 ==> Remainder(a, b) >= 0) && (a <= 0 ==> Remainder(a, b) <= 0)
  {
    var m := if a >= 0 then a % b else -((-a) % b);
    assert a == b * Quotient(a, b) + m;
  }
}
