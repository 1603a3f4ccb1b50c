/** The evaluator's arithmetic against the standard's: for which operands they agree. */
module DwarfArithmetic {
  import opened WideUint
  import opened DwarfOps
  import opened DwarfStandard

  // ---- memory and registers ----

  /** A byte more at the low end. */
  lemma {:induction false} LowByteFirst(env: Env, address: int, size: nat)
    requires size > 0
    ensures MemoryNumber(env, address, size) == env.memory(address) + 0x100 * MemoryNumber(env, address + 1, size - 1)
    decreases size
  {
    if size > 1 {
      var b, p := env.memory(address + (size - 1)), Pow2(8 * (size - 2));
      LowByteFirst(env, address, size - 1);
      SmallPowers();
      Pow2Adds(8, 8 * (size - 2));
      Associate(b, 0x100, p);
      Associate(0x100, b, p);
      assert address + 1 + (size - 2) == address + (size - 1);
    }
  }

  lemma {:induction false} SameBytes(env: Env, address: int, size: nat)
    ensures LoadBytes(env, address, size) == MemoryNumber(env, address, size)
    decreases size
  {
    if size > 0 {
      SameBytes(env, address + 1, size - 1);
      LowByteFirst(env, address, size);
    }
  }

  lemma SameWord(env: Env, address: int)
    ensures LoadWord(env, address) == MemoryNumber(env, address, WORD_BYTES)
  {
    SameBytes(env, address, WORD_BYTES);
  }

  /** The evaluator's register switch follows the numbering of the psABI and the layout of the context. */
  lemma SamePlace(k: nat)
    requires k <= 16
    ensures FieldOf(k) == SavedAt(Numbered(k))
  {}

  lemma SameRegister(env: Env, k: nat)
    requires k <= 16
    ensures RegisterAddress(env, k) == RegisterPlace(env, k)
    ensures Register(env, k) == MemoryNumber(env, RegisterPlace(env, k), WORD_BYTES)
  {
    SamePlace(k);
    SameWord(env, RegisterAddress(env, k));
  }

  /** Every pushing operation pushes what the standard says. */
  lemma PushAgrees(s: Source, env: Env)
    ensures Pushed(s, env) == StandardPush(s, env)
  {
    match s
    case Reg(k) => if k <= 16 { SameRegister(env, k); }
    case Breg(k, _) => if k <= 16 { SameRegister(env, k); }
    case Bregx(k, _) => if k <= 16 { SameRegister(env, k); }
    case _ =>
  }

  // ---- bits ----

  function TableOf(o: BinaryOp): seq<nat> {
    if o == And then [0, 0, 0, 1] else if o == Or then [0, 1, 1, 1] else [0, 1, 1, 0]
  }

  predicate IsTable(t: seq<nat>) {
    |t| == 4 && forall j :: 0 <= j < 4 ==> t[j] <= 1
  }

  /** A bit more at the high end. */
  lemma {:induction false} HighBit(a: nat, b: nat, n: nat, t: seq<nat>)
    requires IsTable(t)
    ensures Bitwise(a, b, n + 1, t) == Bitwise(a, b, n, t) + Pow2(n) * t[2 * Bit(a, n) + Bit(b, n)]
    decreases n
  {
    BitwiseHalf(a, b, n + 1, t);
    if n > 0 {
      var p, x := Pow2(n - 1), t[2 * Bit(a, n) + Bit(b, n)];
      HighBit(a / 2, b / 2, n - 1, t);
      BitwiseHalf(a, b, n, t);
      Associate(2, p, x);
      assert Bitwise(a / 2, b / 2, n, t) == Bitwise(a / 2, b / 2, n - 1, t) + p * x;
    }
  }

  lemma TableEntry(o: BinaryOp, x: nat, y: nat)
    requires (o == And || o == Or || o == Xor) && x <= 1 && y <= 1
    ensures IsTable(TableOf(o)) && TableOf(o)[2 * x + y] == OnBits(o, x, y)
  {}

  /** The bit that the table gives is the bit that the operation gives. */
  lemma SameBit(o: BinaryOp, a: nat, b: nat, k: nat)
    requires o == And || o == Or || o == Xor
    ensures IsTable(TableOf(o)) && TableOf(o)[2 * Bit(a, k) + Bit(b, k)] == OnBits(o, BitAt(a, k), BitAt(b, k))
  {
    BitIs(a, k);
    BitIs(b, k);
    TableEntry(o, Bit(a, k), Bit(b, k));
  }

  lemma {:induction false} CombinedBits(o: BinaryOp, a: nat, b: nat, n: nat, t: seq<nat>)
    requires (o == And || o == Or || o == Xor) && t == TableOf(o) && IsTable(t)
    ensures Bitwise(a, b, n, t) == CombineBits(o, a, b, n)
    decreases n
  {
    if n > 0 {
      CombinedBits(o, a, b, n - 1, t);
      HighBit(a, b, n - 1, t);
      SameBit(o, a, b, n - 1);
    }
  }

  lemma {:induction false} InvertedBits(v: nat, n: nat)
    ensures InvertBits(v, n) == Pow2(n) - 1 - v % Pow2(n)
    decreases n
  {
    if n > 0 {
      InvertedBits(v, n - 1);
      var p := Pow2(n - 1);
      var q := v / p;
      RemainderWithHighBit(v, p);
      Distribute(1, q % 2, p);
    }
  }

  lemma RemainderWithHighBit(v: nat, p: nat)
    requires p > 0
    ensures v % (2 * p) == v % p + p * (v / p % 2)
  {
    var q, r := v / p, v % p;
    var h, b := q / 2, q % 2;
    Distribute(2 * h, b, p);
    Associate(2, h, p);
    Associate(h, 2, p);
    assert v == h * (2 * p) + (r + p * b);
    if b == 1 {
      RemainderIs(v, 2 * p, h, r + p);
    } else {
      RemainderIs(v, 2 * p, h, r);
    }
  }

  // ---- shifts ----

  lemma ToWordOnce(v: int, k: int)
    ensures ToWord(k * ToWord(v)) == ToWord(k * v)
  {
    var q := v / 0x1_0000_0000_0000_0000;
    Distribute(q * 0x1_0000_0000_0000_0000, ToWord(v), k);
    Associate(k, q, 0x1_0000_0000_0000_0000);
    assert k * v == k * ToWord(v) + 0x1_0000_0000_0000_0000 * (k * q);
    WholeTurns(k * ToWord(v), k * q);
  }

  lemma WholeTurns(v: int, k: int)
    ensures ToWord(v + 0x1_0000_0000_0000_0000 * k) == ToWord(v)
  {}

  lemma {:induction false} LeftShifts(v: Word, k: nat)
    ensures ShiftLeft(v, k) == ToWord(ShiftUp(v, k))
    decreases k
  {
    if k > 0 {
      LeftShifts(v, k - 1);
      ToWordOnce(ShiftUp(v, k - 1), 2);
      Associate(2, v, Pow2(k - 1));
      Associate(v, 2, Pow2(k - 1));
    }
  }

  lemma {:induction false} RightShifts(v: Word, k: nat)
    ensures ShiftRight(v, k) == ShiftDown(v, k)
    decreases k
  {
    if k > 0 {
      RightShifts(v, k - 1);
      HalveQuotient(v, Pow2(k - 1));
    }
  }

  lemma HalveQuotient(x: int, m: nat)
    requires m > 0
    ensures x / m / 2 == x / (2 * m)
  {
    var q, r := x / m, x % m;
    var h, b := q / 2, q % 2;
    Distribute(2 * h, b, m);
    Associate(2, h, m);
    Associate(h, 2, m);
    assert x == h * (2 * m) + (b * m + r);
    if b == 1 {
      RemainderIs(x, 2 * m, h, m + r);
    } else {
      RemainderIs(x, 2 * m, h, r);
    }
  }

  lemma HalfWithSign(w: Word, x: Word)
    requires x == if w >= MIN_SIGNED then w / 2 + MIN_SIGNED else w / 2
    ensures Signed(x) == Signed(w) / 2
  {}

  lemma WordOfSigned(w: Word)
    ensures ToWord(Signed(w)) == w
  {}

  lemma {:induction false} SignedShifts(v: Word, k: nat)
    ensures Signed(ShiftArithmetic(v, k)) == ShiftDown(Signed(v), k)
    decreases k
  {
    if k > 0 {
      SignedShifts(v, k - 1);
      HalfWithSign(ShiftArithmetic(v, k - 1), ShiftArithmetic(v, k));
      HalveQuotient(Signed(v), Pow2(k - 1));
    }
  }

  lemma ArithmeticShifts(v: Word, k: nat)
    ensures ShiftArithmetic(v, k) == ToWord(ShiftDown(Signed(v), k))
  {
    SignedShifts(v, k);
    WordOfSigned(ShiftArithmetic(v, k));
  }

  // ---- sums and products ----

  /** A word and its signed value differ by a whole turn or nothing. */
  function Turns(w: Word): int
    ensures Signed(w) == w - 0x1_0000_0000_0000_0000 * Turns(w)
  {
    if w < MIN_SIGNED then 0 else 1
  }

  lemma SumsAgree(v: Word, u: Word)
    ensures ToWord(Signed(v) + Signed(u)) == ToWord(v + u)
    ensures ToWord(Signed(v) - Signed(u)) == ToWord(v - u)
  {
    WholeTurns(v + u, -Turns(v) - Turns(u));
    WholeTurns(v - u, Turns(u) - Turns(v));
  }

  lemma ProductsAgree(v: Word, u: Word)
    ensures ToWord(Product(Signed(v), Signed(u))) == ToWord(v * u)
  {
    var a, b := Turns(v), Turns(u);
    var turn := 0x1_0000_0000_0000_0000;
    Distribute(v, turn * a, u - turn * b);
    Distribute(u, turn * b, v);
    Distribute(u, turn * b, turn * a);
    assert Signed(v) * Signed(u) == v * u - v * (turn * b) - (turn * a) * (u - turn * b);
    Associate(v, turn, b);
    Associate(turn, v, b);
    Associate(turn, a, u - turn * b);
    assert v * (turn * b) == turn * (v * b);
    assert Signed(v) * Signed(u) == v * u + turn * (-(v * b) - a * (u - turn * b));
    WholeTurns(v * u, -(v * b) - a * (u - turn * b));
  }

  // ---- division ----

  lemma DivisionAgrees(v: Word, u: Word)
    requires u != 0
    ensures SignedDivide(v, u) == ToWord(Quotient(Signed(v), Signed(u)))
  {
    var a, b := Signed(v), Signed(u);
    var q := Magnitude(v) / Magnitude(u);
    assert Magnitude(v) == (if a < 0 then -a else a) && Magnitude(u) == if b < 0 then -b else b;
    QuotientOfMagnitudes(a, b, Magnitude(v), Magnitude(u));
  }

  lemma QuotientOfMagnitudes(a: int, b: int, m: nat, n: nat)
    requires b != 0 && m == (if a < 0 then -a else a) && n == if b < 0 then -b else b
    ensures Quotient(a, b) == if (a >= 0) == (b > 0) then m / n else -(m / n)
  {}

  /** When the remainder that truncates toward zero is the unsigned one. */
  predicate SameRemainder(v: Word, u: Word)
    requires u != 0
  {
    if v < MIN_SIGNED then u < MIN_SIGNED || v + u < 0x1_0000_0000_0000_0000
    else if u < MIN_SIGNED then v % u == 0 && 0x1_0000_0000_0000_0000 % u == 0
    else u == v
  }

  /** The truncating remainder by magnitudes. */
  lemma RemainderOfMagnitudes(a: int, b: int, m: nat, n: nat)
    requires b != 0 && m == (if a < 0 then -a else a) && n == if b < 0 then -b else b
    ensures Remainder(a, b) == if a >= 0 then m % n else -(m % n)
  {
    QuotientOfMagnitudes(a, b, m, n);
    var q := m / n;
    assert m == n * q + m % n;
  }

  lemma DividesSum(v: nat, m: nat, u: nat)
    requires u > 0 && v % u == 0
    ensures m % u == 0 <==> (v + m) % u == 0
  {
    var q, k, r := v / u, m / u, m % u;
    Distribute(q, k, u);
    assert v + m == (q + k) * u + r;
    RemainderIs(v + m, u, q + k, r);
  }

  lemma SmallRemainder(v: nat, n: nat)
    requires n > 0
    ensures v % n == v <==> v < n
  {
    if v < n {
      RemainderIs(v, n, 0, v);
    }
  }

  lemma OneTimes(v: Word, u: Word)
    requires u >= MIN_SIGNED
    ensures v % u == if v < u then v else v - u
  {
    if v < u {
      RemainderIs(v, u, 0, v);
    } else {
      RemainderIs(v, u, 1, v - u);
    }
  }

  lemma WordOfWord(w: Word)
    ensures ToWord(w) == w
  {}

  lemma NegatedWord(r: int)
    requires 0 <= r < 0x1_0000_0000_0000_0000
    ensures ToWord(-r) == if r == 0 then 0 else 0x1_0000_0000_0000_0000 - r
    ensures ToWord(r) == r
  {}

  lemma MixedRemainders(v: Word, u: Word, m: nat)
    requires v >= MIN_SIGNED > u > 0 && m == 0x1_0000_0000_0000_0000 - v
    ensures ToWord(-(m % u)) == v % u <==> SameRemainder(v, u)
  {
    NegatedWord(m % u);
    if v % u == 0 {
      DividesSum(v, m, u);
    }
  }

  lemma LargeRemainders(v: Word, u: Word, m: nat, n: nat)
    requires v >= MIN_SIGNED && u >= MIN_SIGNED
    requires m == 0x1_0000_0000_0000_0000 - v && n == 0x1_0000_0000_0000_0000 - u
    ensures ToWord(-(m % n)) == v % u <==> u == v
  {
    NegatedWord(m % n);
    OneTimes(v, u);
    SmallRemainder(m, n);
    if u == v {
      RemainderIs(m, n, 1, 0);
    }
  }

  /** The two remainders, on all operands. */
  lemma RemaindersAgree(v: Word, u: Word)
    requires u != 0
    ensures ToWord(Remainder(Signed(v), Signed(u))) == v % u <==> SameRemainder(v, u)
  {
    var m, n := Magnitude(v), Magnitude(u);
    RemainderOfMagnitudes(Signed(v), Signed(u), m, n);
    if v < MIN_SIGNED {
      NegatedWord(m % n);
      if u >= MIN_SIGNED {
        SmallRemainder(m, n);
        OneTimes(v, u);
      }
    } else if u < MIN_SIGNED {
      MixedRemainders(v, u, m);
    } else {
      LargeRemainders(v, u, m, n);
    }
  }

  // ---- the operations ----

  /** When a two-operand operation does what the standard says: never a shift by a whole word or more, never the
      least number divided by -1, and mod only where signed and unsigned remainder agree. */
  predicate BinaryAgrees(o: BinaryOp, v: Word, u: Word) {
    match o
    case Mod => u == 0 || SameRemainder(v, u)
    case Div => !(v == MIN_SIGNED && u == 0xffff_ffff_ffff_ffff)
    case Shl => u < 64
    case Shr => u < 64
    case Shra => u < 64
    case _ => true
  }

  lemma BitsAgree(o: BinaryOp, v: Word, u: Word, t: seq<nat>)
    requires (o == And || o == Or || o == Xor) && t == TableOf(o) && IsTable(t)
    ensures BitsOf(v, u, t) == ToWord(CombineBits(o, v, u, WORD_BITS))
  {
    CombinedBits(o, v, u, WORD_BITS, t);
    WordOfWord(BitsOf(v, u, t));
  }

  lemma LogicAgreement(o: BinaryOp, v: Word, u: Word)
    requires o == And || o == Or || o == Xor
    ensures ApplyBinary(o, v, u) == StandardBinary(o, v, u)
  {
    TableEntry(o, 0, 0);
    BitsAgree(o, v, u, TableOf(o));
  }

  lemma ModAgreement(v: Word, u: Word)
    ensures ApplyBinary(Mod, v, u) == StandardBinary(Mod, v, u) <==> BinaryAgrees(Mod, v, u)
  {
    if u != 0 {
      RemaindersAgree(v, u);
    }
  }

  lemma DivAgreement(v: Word, u: Word)
    ensures ApplyBinary(Div, v, u) == StandardBinary(Div, v, u) <==> BinaryAgrees(Div, v, u)
  {
    if u != 0 {
      DivisionAgrees(v, u);
    }
  }

  lemma ShlAgreement(v: Word, u: Word)
    ensures ApplyBinary(Shl, v, u) == StandardBinary(Shl, v, u) <==> u < 64
  {
    LeftShifts(v, u);
  }

  lemma ShrAgreement(v: Word, u: Word)
    ensures ApplyBinary(Shr, v, u) == StandardBinary(Shr, v, u) <==> u < 64
  {
    RightShifts(v, u);
    NegatedWord(ShiftRight(v, u));
  }

  lemma ShraAgreement(v: Word, u: Word)
    ensures ApplyBinary(Shra, v, u) == StandardBinary(Shra, v, u) <==> u < 64
  {
    ArithmeticShifts(v, u);
  }

  /** On all operands: the evaluator's result is the standard's if and only if the condition holds. */
  lemma BinaryAgreement(o: BinaryOp, v: Word, u: Word)
    ensures ApplyBinary(o, v, u) == StandardBinary(o, v, u) <==> BinaryAgrees(o, v, u)
  {
    match o
    case Mod => ModAgreement(v, u);
    case Div => DivAgreement(v, u);
    case Shl => ShlAgreement(v, u);
    case Shr => ShrAgreement(v, u);
    case Shra => ShraAgreement(v, u);
    case And => LogicAgreement(o, v, u);
    case Or => LogicAgreement(o, v, u);
    case Xor => LogicAgreement(o, v, u);
    case Plus => SumsAgree(v, u);
    case Minus => SumsAgree(v, u);
    case Mul => ProductsAgree(v, u);
    case _ =>
  }

  /** One-operand operations: only the odd sizes of deref_size are refused where the standard allows them. */
  predicate UnaryAgrees(o: UnaryOp) {
    o.DerefSize? ==> o.number !in {3, 5, 6, 7}
  }

  lemma SizedLoad(n: Word, v: Word, env: Env)
    requires n in {1, 2, 4, 8}
    ensures Overlay(n, env, v, n) == ToWord(MemoryNumber(env, v, n))
  {
    SizedLoadZeroExtends(env, v, n);
    SameBytes(env, v, n);
  }

  lemma DerefSizeAgreement(n: Word, v: Word, env: Env)
    ensures ApplyUnary(DerefSize(n), v, env) == StandardUnary(DerefSize(n), v, env) <==> n !in {3, 5, 6, 7}
  {
    if n in {1, 2, 4, 8} {
      SizedLoad(n, v, env);
    }
  }

  lemma NotAgreement(v: Word, env: Env)
    ensures ApplyUnary(Not, v, env) == StandardUnary(Not, v, env)
  {
    var p := Pow2(WORD_BITS);
    InvertedBits(v, WORD_BITS);
    SixtyFour();
    RemainderIs(v, p, 0, v);
    WordOfWord(0xffff_ffff_ffff_ffff - v);
  }

  lemma DerefAgreement(v: Word, env: Env)
    ensures ApplyUnary(Deref, v, env) == StandardUnary(Deref, v, env)
  {
    SameWord(env, v);
    WordOfWord(LoadWord(env, v));
  }

  lemma UnaryAgreement(o: UnaryOp, v: Word, env: Env)
    ensures ApplyUnary(o, v, env) == StandardUnary(o, v, env) <==> UnaryAgrees(o)
  {
    if o.Deref? {
      DerefAgreement(v, env);
    } else if o.DerefSize? {
      DerefSizeAgreement(o.number, v, env);
    } else if o.Not? {
      NotAgreement(v, env);
    }
  }

  // ---- operands on which they differ ----

  /** -1 mod 3 is -1 and not 0. */
  lemma ModDiffers()
    ensures ApplyBinary(Mod, 0xffff_ffff_ffff_ffff, 3) == Ok(0xffff_ffff_ffff_ffff)
    ensures StandardBinary(Mod, 0xffff_ffff_ffff_ffff, 3) == Ok(0)
  {}

  /** Two-operand operations without a result here: division by zero is an error; shifts by a whole word or more, and the
      least number divided by -1, quotient or remainder, are undefined. All others have one. */
  lemma BinaryStopsIff(o: BinaryOp, v: Word, u: Word)
    ensures var r := ApplyBinary(o, v, u);
      if (o == Div || o == Mod) && u == 0 then r == Stop(Abort)
      else if ((o == Shl || o == Shr || o == Shra) && u >= 64)
        || ((o == Div || o == Mod) && v == 0x8000_0000_0000_0000 && u == 0xffff_ffff_ffff_ffff)
      then r == Stop(Undefined)
      else r.Ok?
  {
    match o
    case Div =>
    case Mod =>
    case Shl =>
    case Shr =>
    case Shra =>
    case _ =>
  }

  /** A shift by 64 is undefined and not all zeros or sign bits, and so is the least number divided by -1. */
  lemma UndefinedDiffers(v: Word)
    ensures ApplyBinary(Shl, v, 64) == ApplyBinary(Shr, v, 64) == ApplyBinary(Shra, v, 64) == Stop(Undefined)
    ensures StandardBinary(Shl, v, 64) == Ok(0) && StandardBinary(Shr, v, 64) == Ok(0)
    ensures StandardBinary(Shra, v, 64) == Ok(if v >= MIN_SIGNED then 0xffff_ffff_ffff_ffff else 0)
    ensures ApplyBinary(Div, MIN_SIGNED, 0xffff_ffff_ffff_ffff) == Stop(Undefined)
    ensures StandardBinary(Div, MIN_SIGNED, 0xffff_ffff_ffff_ffff) == Ok(MIN_SIGNED)
  {
    WholeShift(v, 64);
  }

  lemma WholeShift(v: Word, k: nat)
    requires k == 64
    ensures ShiftLeft(v, k) == 0 && ShiftRight(v, k) == 0
    ensures ShiftArithmetic(v, k) == if v >= MIN_SIGNED then 0xffff_ffff_ffff_ffff else 0
  {
    SixtyFour();
    LeftShifts(v, k);
    RightShifts(v, k);
    SignedShifts(v, k);
  }
}
