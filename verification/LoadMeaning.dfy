/** What GOT loads and the instructions they are converted to do: the rewriting keeps meaning. */
module LoadMeaning {
  import opened ConvertLoad

  // ---- instructions ----

  /** A general register: three bits and the bit that a REX prefix adds. */
  datatype Register = Register(low: bv8, high: bool)

  /** Instructions with one 32-bit field: a displacement from the instruction pointer, or an immediate. */
  datatype Instruction =
    | MovFromMemory(wide: bool, reg: Register)
    | LoadAddress(wide: bool, reg: Register)
    | MovImmediate(wide: bool, reg: Register)
    | TestMemory(wide: bool, reg: Register)
    | TestImmediate(wide: bool, reg: Register)
    | AluMemory(op: bv8, wide: bool, reg: Register)
    | AluImmediate(op: bv8, wide: bool, reg: Register)
    | Other

  function RegField(modrm: bv8): bv8 { (modrm >> 3) & 7 }
  function RmField(modrm: bv8): bv8 { modrm & 7 }
  predicate IsRipRelative(modrm: bv8) { modrm & 0xc7 == 0x05 }
  predicate IsRegisterForm(modrm: bv8) { modrm & 0xc0 == 0xc0 }
  predicate HasR(rex: bv8) { rex & 4 != 0 }
  predicate HasB(rex: bv8) { rex & 1 != 0 }
  predicate IsRex(b: bv8) { b & 0xf0 == 0x40 }

  /** adc, add, and, cmp, or, sbb, sub, xor with a register and memory. */
  predicate IsAlu(opcode: bv8) { opcode & 0xc7 == 0x03 }

  /** One-byte opcodes of the x86-64 instruction set; a REX of 0 stands for none. */
  function Decode(rex: bv8, opcode: bv8, modrm: bv8): Instruction {
    var reg := Register(RegField(modrm), HasR(rex));
    var rm := Register(RmField(modrm), HasB(rex));
    var wide := rex & 8 != 0;
    if IsRipRelative(modrm) then
      if opcode == 0x8b then MovFromMemory(wide, reg)
      else if opcode == 0x8d then LoadAddress(wide, reg)
      else if opcode == 0x85 then TestMemory(wide, reg)
      else if IsAlu(opcode) then AluMemory(RegField(opcode), wide, reg)
      else Other
    else if IsRegisterForm(modrm) then
      if opcode == 0xc7 && RegField(modrm) == 0 then MovImmediate(wide, rm)
      else if opcode == 0xf7 && RegField(modrm) == 0 then TestImmediate(wide, rm)
      else if opcode == 0x81 then AluImmediate(RegField(modrm), wide, rm)
      else Other
    else Other
  }

  // ---- execution ----

  function Low32(v: int): nat { v % 0x1_0000_0000 }
  function Low64(v: int): nat { v % 0x1_0000_0000_0000_0000 }

  function Operand(wide: bool, v: int): nat {
    if wide then Low64(v) else Low32(v)
  }

  /** A 32-bit field read as a signed number. */
  function Signed32(field: nat): int {
    if field < 0x8000_0000 then field else field - 0x1_0000_0000
  }

  function Signed64(v: int): int {
    if Low64(v) < 0x8000_0000_0000_0000 then Low64(v) else Low64(v) - 0x1_0000_0000_0000_0000
  }

  /** 64-bit loads, and what arithmetic does: result and flags, from two operands and the flags. */
  datatype Machine = Machine(load: int -> int, alu: (bv8, bool, int, int, int) -> (int, int), test: (bool, int, int) -> int)

  datatype State = State(regs: map<Register, int>, flags: int)

  function Get(s: State, r: Register): int {
    if r in s.regs then s.regs[r] else 0
  }

  const CMP: bv8 := 7

  /** A 32-bit result clears the upper half of its register; cmp only sets flags. */
  function Alu(m: Machine, s: State, op: bv8, wide: bool, reg: Register, b: int): State {
    var (v, flags) := m.alu(op, wide, Operand(wide, Get(s, reg)), Operand(wide, b), s.flags);
    State(if op == CMP then s.regs else s.regs[reg := Operand(wide, v)], flags)
  }

  /** One instruction; `end` is the address after its field, which comes last. */
  function Execute(i: Instruction, field: nat, end: int, m: Machine, s: State): State {
    var address := Low64(end + Signed32(field));
    var immediate := Signed32(field);
    match i
    case MovFromMemory(w, r) => s.(regs := s.regs[r := Operand(w, m.load(address))])
    case LoadAddress(w, r) => s.(regs := s.regs[r := Operand(w, address)])
    case MovImmediate(w, r) => s.(regs := s.regs[r := Operand(w, immediate)])
    case TestMemory(w, r) => s.(flags := m.test(w, Operand(w, m.load(address)), Operand(w, Get(s, r))))
    case TestImmediate(w, r) => s.(flags := m.test(w, Operand(w, Get(s, r)), Operand(w, immediate)))
    case AluMemory(op, w, r) => Alu(m, s, op, w, r, m.load(address))
    case AluImmediate(op, w, r) => Alu(m, s, op, w, r, immediate)
    case Other => s
  }

  // ---- relocation ----

  /** The value of a relocation, before it is cut to the field. */
  function Value(kind: Kind, symbol: int, addend: int, place: int, slot: int): int {
    match kind
    case Pc32 => symbol + addend - place
    case Abs32 => symbol + addend
    case Abs32S => symbol + addend
    case _ => slot + addend - place
  }

  /** The overflow check of relocation processing. */
  predicate Fits(kind: Kind, value: int) {
    if kind == Abs32 then Low64(value) < 0x1_0000_0000
    else -0x8000_0000 <= Signed64(value) < 0x8000_0000
  }

  lemma Low64Shift(v: int, k: int)
    ensures Low64(v + 0x1_0000_0000_0000_0000 * k) == Low64(v)
  {}

  lemma Low32Is(v: int, k: int, r: nat)
    requires v == 0x1_0000_0000 * k + r && r < 0x1_0000_0000
    ensures Low32(v) == r
  {}

  /** The field of a value that fits stands for the value, modulo 2^64. */
  lemma FieldStandsForValue(value: int)
    requires -0x8000_0000 <= Signed64(value) < 0x8000_0000
    ensures Signed32(Low32(value)) == Signed64(value)
  {
    var q, l := value / 0x1_0000_0000_0000_0000, Low64(value);
    if l < 0x8000_0000_0000_0000 {
      Low32Is(value, 0x1_0000_0000 * q, l);
    } else {
      Low32Is(value, 0x1_0000_0000 * q + 0xffff_ffff, l - 0xffff_ffff_0000_0000);
    }
  }

  lemma DisplacementReaches(value: int, kind: Kind, end: int)
    requires kind != Abs32 && Fits(kind, value)
    ensures Low64(end + Signed32(Low32(value))) == Low64(end + value)
    ensures Low64(Signed32(Low32(value))) == Low64(value)
  {
    FieldStandsForValue(value);
    var q, l := value / 0x1_0000_0000_0000_0000, Low64(value);
    var k := if l < 0x8000_0000_0000_0000 then -q else -q - 1;
    assert Signed64(value) == value + 0x1_0000_0000_0000_0000 * k;
    Low64Shift(end + value, k);
    Low64Shift(value, k);
  }

  lemma LowOfLow(v: int)
    ensures Low32(Low64(v)) == Low32(v)
  {}

  // ---- loads in a section ----

  /** The REX byte of the instruction at a site; R_X86_64_GOTPCREL does not tell whether there is one. */
  function RexAt(z: Site, hasRex: bool): bv8
    requires ValidSite(z) && (hasRex ==> z.offset >= 3)
  {
    if hasRex then z.bytes[z.offset - 3] else 0
  }

  function InstructionAt(z: Site, hasRex: bool): Instruction
    requires ValidSite(z) && z.offset >= if hasRex then 3 else 2
  {
    Decode(RexAt(z, hasRex), z.bytes[z.offset - 2], z.bytes[z.offset - 1])
  }

  /** A load from the GOT as the ABI allows it at each relocation. */
  ghost predicate IsGotLoad(z: Site, hasRex: bool) {
    && ValidSite(z) && z.offset >= (if hasRex then 3 else 2)
    && z.kind in {GotPcRel, GotPcRelX, RexGotPcRelX} && z.addend == -4
    && (z.kind == RexGotPcRelX ==> hasRex) && (z.kind == GotPcRelX ==> !hasRex)
    && (hasRex ==> IsRex(z.bytes[z.offset - 3]))
    && IsRipRelative(z.bytes[z.offset - 1])
    && (z.bytes[z.offset - 2] == 0x8b || z.bytes[z.offset - 2] == 0x85 || IsAlu(z.bytes[z.offset - 2]))
  }

  /** The state after the instruction of a site, once the field is relocated. */
  function Run(i: Instruction, z: Site, symbol: int, base: int, slot: int, m: Machine, s: State): State {
    Execute(i, Low32(Value(z.kind, symbol, z.addend, base + z.offset, slot)), base + z.offset + 4, m, s)
  }

  ghost predicate FitsAt(z: Site, symbol: int, base: int, slot: int) {
    Fits(z.kind, Value(z.kind, symbol, z.addend, base + z.offset, slot))
  }

  /** Symbols whose GOT slot holds the address they have in this output. In the slots of all others, preemptible and undefined
      ones, the loader may put any address. */
  predicate HasOwnAddress(t: Target) {
    t.Located? || t.LinkerDefined? || t.WeakZero?
  }

  /** What the slot may hold, and test does not tell its operands apart. */
  ghost predicate Provides(m: Machine, t: Target, symbol: int, slot: int) {
    && (HasOwnAddress(t) ==> m.load(Low64(slot)) == Low64(symbol))
    && forall w, a, b :: m.test(w, a, b) == m.test(w, b, a)
  }

  /** Two instructions do the same from every state, on every machine, whatever the loader may have put into the slot. */
  ghost predicate SameMeaning(i: Instruction, z: Site, j: Instruction, y: Site, t: Target, symbol: int, base: int, slot: int) {
    forall m: Machine, s: State :: Provides(m, t, symbol, slot) ==>
      Run(j, y, symbol, base, slot, m, s) == Run(i, z, symbol, base, slot, m, s)
  }

  /** The bits: the converted bytes are an immediate form of the same operation, on the register whose
      high bit is set if either R or B was. */
  lemma ImmediateBits(opcode: bv8, modrm: bv8, rex: bv8, lp64: bool)
    requires IsRipRelative(modrm) && (opcode == MOV_LOAD || opcode == TEST || IsAlu(opcode))
    ensures IsRegisterForm(NewModrm(opcode, modrm)) && !IsRipRelative(NewModrm(opcode, modrm))
    ensures RmField(NewModrm(opcode, modrm)) == RegField(modrm)
    ensures RegField(NewModrm(opcode, modrm)) == if IsAlu(opcode) then RegField(opcode) else 0
  {}

  lemma RexBits(opcode: bv8, rex: bv8, lp64: bool)
    ensures HasB(NewRex(opcode, rex, lp64)) <==> HasB(rex) || HasR(rex)
    ensures IsRex(NewRex(opcode, rex, lp64)) <==> IsRex(rex)
    ensures IsWide(NewRex(opcode, rex, lp64)) <==> IsWide(rex) && (opcode == MOV_LOAD ==> lp64)
  {}

  /** The same operation with an immediate operand; mov drops the wide form for x32. */
  function ImmediateOf(i: Instruction, lp64: bool, reg: Register): Instruction {
    match i
    case MovFromMemory(w, _) => MovImmediate(w && lp64, reg)
    case TestMemory(w, _) => TestImmediate(w, reg)
    case AluMemory(op, w, _) => AluImmediate(op, w, reg)
    case _ => Other
  }

  /** The only loads that are converted wrongly: REX.B was set, which the GOT form ignores, and REX.R was not. */
  predicate KeepsRegister(z: Site, hasRex: bool)
    requires ValidSite(z) && (hasRex ==> z.offset >= 3)
  {
    !(HasB(RexAt(z, hasRex)) && !HasR(RexAt(z, hasRex)))
  }

  predicate ReadsMemory(i: Instruction) {
    i.MovFromMemory? || i.TestMemory? || i.AluMemory?
  }

  lemma ImmediateInstruction(z: Site, hasRex: bool, lp64: bool)
    requires IsGotLoad(z, hasRex) && IsRelaxable(z.kind)
    ensures var i, y := InstructionAt(z, hasRex), ImmediateSite(z, lp64);
      && ReadsMemory(i)
      && (InstructionAt(y, hasRex) == ImmediateOf(i, lp64, i.reg) <==> KeepsRegister(z, hasRex))
      && InstructionAt(y, hasRex) in {ImmediateOf(i, lp64, i.reg), ImmediateOf(i, lp64, Register(i.reg.low, !i.reg.high))}
      && y.kind == (if i.wide && (i.MovFromMemory? ==> lp64) then Abs32S else Abs32)
    ensures hasRex ==> IsRex(ImmediateSite(z, lp64).bytes[z.offset - 3])
  {
    var y, rex, opcode, modrm := ImmediateSite(z, lp64), RexAt(z, hasRex), z.bytes[z.offset - 2], z.bytes[z.offset - 1];
    ImmediateBits(opcode, modrm, rex, lp64);
    RexBits(opcode, rex, lp64);
    assert hasRex ==> rex != 0;
    assert !hasRex ==> rex == 0;
    assert RexAt(y, hasRex) == if hasRex then NewRex(opcode, rex, lp64) else 0;
    assert y.bytes[y.offset - 2] == NewOpcode(opcode) && y.bytes[y.offset - 1] == NewModrm(opcode, modrm);
  }

  lemma LowOfSigned(field: nat)
    requires field < 0x1_0000_0000
    ensures Low32(Signed32(field)) == field
  {}

  /** The immediate stands for the symbol, in the operand size the conversion leaves. */
  lemma ImmediateValue(kind: Kind, symbol: int)
    requires (kind == Abs32 || kind == Abs32S) && Fits(kind, symbol)
    ensures Operand(false, Signed32(Low32(symbol))) == Operand(false, Low64(symbol))
    ensures kind == Abs32S ==> Operand(true, Signed32(Low32(symbol))) == Operand(true, Low64(symbol))
    ensures kind == Abs32 ==> Operand(false, Signed32(Low32(symbol))) == Operand(true, Low64(symbol))
  {
    LowOfLow(symbol);
    LowOfSigned(Low32(symbol));
    if kind == Abs32S {
      DisplacementReaches(symbol, kind, 0);
    }
  }

  /** A GOT load reads the symbol's address. */
  lemma SlotIsRead(kind: Kind, t: Target, symbol: int, place: int, slot: int, m: Machine)
    requires kind in {GotPcRel, GotPcRelX, RexGotPcRelX} && Fits(kind, Value(kind, symbol, -4, place, slot))
    requires HasOwnAddress(t) && Provides(m, t, symbol, slot)
    ensures m.load(Low64(place + 4 + Signed32(Low32(Value(kind, symbol, -4, place, slot))))) == Low64(symbol)
  {
    DisplacementReaches(slot - 4 - place, kind, place + 4);
  }

  /** The immediate form on the same register does the same. */
  lemma ImmediateMeans(i: Instruction, z: Site, lp64: bool, y: Site, t: Target, symbol: int, base: int, slot: int, m: Machine, s: State)
    requires ReadsMemory(i) && IsRelaxable(z.kind) && z.addend == -4 && y.addend == 0 && y.offset == z.offset
    requires y.kind == if i.wide && (i.MovFromMemory? ==> lp64) then Abs32S else Abs32
    requires FitsAt(z, symbol, base, slot) && FitsAt(y, symbol, base, slot)
    requires HasOwnAddress(t) && Provides(m, t, symbol, slot)
    ensures Run(ImmediateOf(i, lp64, i.reg), y, symbol, base, slot, m, s) == Run(i, z, symbol, base, slot, m, s)
  {
    ImmediateValue(y.kind, symbol);
    SlotIsRead(z.kind, t, symbol, base + z.offset, slot, m);
  }

  /** On another register, the difference shows in the registers or in the flags. */
  lemma WrongRegisterShows(i: Instruction, z: Site, lp64: bool, wrong: Register, y: Site, t: Target, symbol: int, base: int, slot: int)
    requires ReadsMemory(i) && IsRelaxable(z.kind) && z.addend == -4 && y.addend == 0 && y.offset == z.offset
    requires y.kind == if i.wide && (i.MovFromMemory? ==> lp64) then Abs32S else Abs32
    requires FitsAt(z, symbol, base, slot) && FitsAt(y, symbol, base, slot) && wrong != i.reg
    ensures !SameMeaning(i, z, ImmediateOf(i, lp64, wrong), y, t, symbol, base, slot)
  {
    var m := Machine(a => Low64(symbol), (op, w, a, b, f) => (a, a), (w, a, b) => a + b);
    var s := State(map[wrong := 1], 0);
    var j := ImmediateOf(i, lp64, wrong);
    ImmediateValue(y.kind, symbol);
    assert Provides(m, t, symbol, slot);
    if i.MovFromMemory? {
      assert i.reg in Run(i, z, symbol, base, slot, m, s).regs;
      assert i.reg !in Run(j, y, symbol, base, slot, m, s).regs;
    } else {
      assert Run(i, z, symbol, base, slot, m, s).flags != Run(j, y, symbol, base, slot, m, s).flags;
    }
    assert Run(j, y, symbol, base, slot, m, s) != Run(i, z, symbol, base, slot, m, s);
  }

  /** mov from the GOT to lea: only the opcode and the relocation change. */
  lemma LeaMeans(i: Instruction, z: Site, y: Site, t: Target, symbol: int, base: int, slot: int, m: Machine, s: State)
    requires i.MovFromMemory? && z.kind in {GotPcRel, GotPcRelX, RexGotPcRelX} && z.addend == -4
    requires y.kind == Pc32 && y.addend == -4 && y.offset == z.offset
    requires FitsAt(z, symbol, base, slot) && FitsAt(y, symbol, base, slot)
    requires HasOwnAddress(t) && Provides(m, t, symbol, slot)
    ensures Run(LoadAddress(i.wide, i.reg), y, symbol, base, slot, m, s) == Run(i, z, symbol, base, slot, m, s)
  {
    var place := base + z.offset;
    SlotIsRead(z.kind, t, symbol, place, slot, m);
    DisplacementReaches(symbol - 4 - place, Pc32, place + 4);
  }

  /** Whether a displacement is in reach of 32 bits, in 64-bit arithmetic. */
  lemma OverflowMeans(d: int)
    ensures Overflows(d) <==> !(-0x8000_0000 <= Signed64(d) < 0x8000_0000)
  {
    var q := d / 0x1_0000_0000_0000_0000;
    var l := Low64(d);
    assert d + 0x8000_0000 == 0x1_0000_0000_0000_0000 * q + (l + 0x8000_0000);
    Low64Shift(l + 0x8000_0000, q);
  }

  /** In reach, as far as that is known: in the same output section exactly, otherwise by an estimate that adds a page, and
      only for a target that comes later. */
  predicate InReach(t: Target, roff: int) {
    t.Located? && !t.large &&
    if t.sameOutput then -0x8000_0000 <= Signed64(t.offset - roff) < 0x8000_0000
    else t.distance >= 0 && -0x8000_0000 <= Signed64(t.offset + t.distance + t.maxPage - roff) < 0x8000_0000
  }

  /** Which loads become immediates. */
  predicate BecomesImmediate(z: Site, cfg: Config, t: Target) {
    z.kind != GotPcRel &&
    (t.WeakZero? || (!cfg.pic && !cfg.pc32Only && (t.LinkerDefined? || (t.Located? && !t.large))))
  }

  /** Which loads become lea: mov only. */
  predicate BecomesLea(z: Site, cfg: Config, t: Target)
    requires ValidSite(z) && z.offset >= 2
  {
    z.bytes[z.offset - 2] == 0x8b &&
    match t
    case Located(_, _, _, _, _) => InReach(t, z.offset) && (z.kind == GotPcRel || cfg.pic || cfg.pc32Only)
    case LinkerDefined => !cfg.pc32Only && (z.kind == GotPcRel || cfg.pic)
    case WeakZero => z.kind == GotPcRel && !cfg.pic
    case _ => false
  }

  /** A load is converted exactly then, to bytes that are an immediate form or a lea; every other one stays as it is. */
  lemma LoadIsConvertedIff(z: Site, cfg: Config, t: Target, tlsGetAddr: bool, hasRex: bool)
    requires IsGotLoad(z, hasRex)
    ensures var y := Conversion(z, cfg, t, tlsGetAddr);
      && (BecomesImmediate(z, cfg, t) <==> y.kind == Abs32 || y.kind == Abs32S)
      && (BecomesImmediate(z, cfg, t) ==> y == ImmediateSite(z, cfg.lp64) && y.bytes[z.offset - 2] in {0xc7, 0xf7, 0x81})
      && (BecomesLea(z, cfg, t) <==> y.kind == Pc32)
      && (BecomesLea(z, cfg, t) ==> y == z.(bytes := z.bytes[z.offset - 2 := 0x8d], kind := Pc32))
      && (!BecomesImmediate(z, cfg, t) && !BecomesLea(z, cfg, t) ==> y == z)
    ensures BecomesImmediate(z, cfg, t) || BecomesLea(z, cfg, t) ==> HasOwnAddress(t)
  {
    assert z.bytes[z.offset - 2] != 0xff;
    if t.Located? {
      OverflowMeans(t.offset - z.offset);
      OverflowMeans(t.offset + t.distance + t.maxPage - z.offset);
    }
  }

  /** The conversion of a load, whenever the relocations fit, does the same as the load from every state on every machine,
      for everything the loader may put into the slot, if and only if it was not to an immediate of an instruction with
      REX.B set and REX.R clear. */
  lemma LoadConversionMeans(z: Site, cfg: Config, t: Target, tlsGetAddr: bool, hasRex: bool, symbol: int, base: int, slot: int)
    requires IsGotLoad(z, hasRex)
    requires FitsAt(z, symbol, base, slot) && FitsAt(Conversion(z, cfg, t, tlsGetAddr), symbol, base, slot)
    ensures var y := Conversion(z, cfg, t, tlsGetAddr);
      SameMeaning(InstructionAt(z, hasRex), z, InstructionAt(y, hasRex), y, t, symbol, base, slot)
      <==> (BecomesImmediate(z, cfg, t) ==> KeepsRegister(z, hasRex))
    ensures hasRex ==> IsRex(Conversion(z, cfg, t, tlsGetAddr).bytes[z.offset - 3])
  {
    var y := Conversion(z, cfg, t, tlsGetAddr);
    var i, j := InstructionAt(z, hasRex), InstructionAt(y, hasRex);
    LoadIsConvertedIff(z, cfg, t, tlsGetAddr, hasRex);
    if BecomesLea(z, cfg, t) {
      LeaInstruction(z, y, hasRex);
      forall m: Machine, s: State | Provides(m, t, symbol, slot)
        ensures Run(j, y, symbol, base, slot, m, s) == Run(i, z, symbol, base, slot, m, s)
      {
        LeaMeans(i, z, y, t, symbol, base, slot, m, s);
      }
    } else if BecomesImmediate(z, cfg, t) {
      ImmediateInstruction(z, hasRex, cfg.lp64);
      if KeepsRegister(z, hasRex) {
        forall m: Machine, s: State | Provides(m, t, symbol, slot)
          ensures Run(j, y, symbol, base, slot, m, s) == Run(i, z, symbol, base, slot, m, s)
        {
          ImmediateMeans(i, z, cfg.lp64, y, t, symbol, base, slot, m, s);
        }
      } else {
        WrongRegisterShows(i, z, cfg.lp64, Register(i.reg.low, !i.reg.high), y, t, symbol, base, slot);
      }
    }
  }

  /** Nothing is converted with another addend, or too near to the start of the section for its bytes. */
  lemma OthersStay(z: Site, cfg: Config, t: Target, tlsGetAddr: bool)
    requires ValidSite(z) && (z.addend != -4 || z.offset < (if z.kind == RexGotPcRelX then 3 else 2))
    ensures Conversion(z, cfg, t, tlsGetAddr) == z
  {}

  lemma LeaInstruction(z: Site, y: Site, hasRex: bool)
    requires IsGotLoad(z, hasRex) && z.bytes[z.offset - 2] == 0x8b
    requires y == z.(bytes := z.bytes[z.offset - 2 := 0x8d], kind := Pc32)
    ensures InstructionAt(z, hasRex).MovFromMemory?
    ensures InstructionAt(y, hasRex) == LoadAddress(InstructionAt(z, hasRex).wide, InstructionAt(z, hasRex).reg)
  {}

  /** mov foo@GOTPCREL(%rip), %rax with a REX.B that means nothing, bytes 49 8b 05, becomes a mov to %r8. */
  lemma WrongRegisterWitness()
    ensures var z := Site([0x49, 0x8b, 0x05, 0, 0, 0, 0], 3, RexGotPcRelX, -4);
      var y := Conversion(z, Config(false, false, true, NOP, false), Located(false, 0, true, 0, 0), false);
      && IsGotLoad(z, true) && !KeepsRegister(z, true)
      && y.bytes[..3] == [0x49, 0xc7, 0xc0]
      && InstructionAt(z, true) == MovFromMemory(true, Register(0, false))
      && InstructionAt(y, true) == MovImmediate(true, Register(0, true))
  {
    var z := Site([0x49, 0x8b, 0x05, 0, 0, 0, 0], 3, RexGotPcRelX, -4);
    assert Decide(z.kind, 0x8b, Config(false, false, true, NOP, false), Located(false, 0, true, 0, 0), 3) == ToAbsolute;
    assert NewRex(0x8b, 0x49, true) == 0x49 && NewModrm(0x8b, 0x05) == 0xc0;
  }

  // ---- branches ----

  /** What a branch does: where it goes and, for a call, the address it leaves for the return. */
  datatype Transfer = Jump(target: int) | Call(target: int, back: int) | NoBranch

  /** The branch at index `at` of a section loaded at `base`, with the value of its 32-bit field; a nop or an
      address-size prefix before a direct call is skipped. */
  function BranchAt(b: seq<bv8>, at: nat, base: int, field: nat, load: int -> int): Transfer
    requires at + 6 <= |b|
  {
    if b[at] == 0xff && b[at + 1] == 0x25 then Jump(load(Low64(base + at + 6 + Signed32(field))))
    else if b[at] == 0xff && b[at + 1] == 0x15 then Call(load(Low64(base + at + 6 + Signed32(field))), base + at + 6)
    else if b[at] == 0xe9 then Jump(Low64(base + at + 5 + Signed32(field)))
    else if b[at] == 0xe8 then Call(Low64(base + at + 5 + Signed32(field)), base + at + 5)
    else if (b[at] == 0x90 || b[at] == 0x67) && b[at + 1] == 0xe8 then
      Call(Low64(base + at + 6 + Signed32(field)), base + at + 6)
    else NoBranch
  }

  /** An address after the nop that may stand there. */
  function AfterNop(b: seq<bv8>, base: int, address: int): int {
    if 0 <= address - base < |b| && b[address - base] == 0x90 then address + 1 else address
  }

  ghost predicate IsGotBranch(z: Site) {
    && ValidSite(z) && z.offset >= 2 && z.kind in {GotPcRelX, RexGotPcRelX} && z.addend == -4
    && (z.kind == RexGotPcRelX ==> z.offset >= 3) && z.bytes[z.offset - 2] == 0xff && z.bytes[z.offset - 1] in {0x25, 0x15}
  }

  /** Padding in front of a call has to do nothing: a nop, or an address-size prefix. */
  predicate IsPadding(z: Site, cfg: Config, tlsGetAddr: bool)
    requires ValidSite(z) && z.offset >= 2
  {
    z.bytes[z.offset - 1] == 0x15 && !tlsGetAddr && !cfg.nopAsSuffix ==> cfg.nopByte == 0x90 || cfg.nopByte == 0x67
  }

  /** Which branches become direct. */
  predicate BecomesDirect(z: Site, cfg: Config, t: Target) {
    match t
    case Located(_, _, _, _, _) => InReach(t, z.offset)
    case LinkerDefined => !cfg.pc32Only
    case WeakZero => !cfg.pc32Only && !cfg.pic
    case _ => false
  }

  /** A branch is converted exactly then; every other one stays as it is. */
  lemma BranchIsConvertedIff(z: Site, cfg: Config, t: Target, tlsGetAddr: bool)
    requires IsGotBranch(z)
    ensures var y := Conversion(z, cfg, t, tlsGetAddr);
      if BecomesDirect(z, cfg, t) then y == BranchSite(z, cfg, tlsGetAddr) && y.kind == Pc32 else y == z
    ensures BecomesDirect(z, cfg, t) ==> HasOwnAddress(t)
  {
    if t.Located? {
      OverflowMeans(t.offset - z.offset);
      OverflowMeans(t.offset + t.distance + t.maxPage - z.offset);
    }
  }

  /** A direct branch goes where the slot said; a call comes back to the same next instruction, or to the padding byte
      in front of it: at most over one nop. */
  lemma DirectBranchMeans(z: Site, cfg: Config, tlsGetAddr: bool, t: Target, symbol: int, base: int, slot: int, m: Machine)
    requires IsGotBranch(z) && IsPadding(z, cfg, tlsGetAddr) && HasOwnAddress(t) && Provides(m, t, symbol, slot)
    requires Fits(z.kind, Value(z.kind, symbol, -4, base + z.offset, slot)) && FitsAt(BranchSite(z, cfg, tlsGetAddr), symbol, base, slot)
    ensures var y, at, next := BranchSite(z, cfg, tlsGetAddr), z.offset - 2, base + z.offset + 4;
      var before := BranchAt(z.bytes, at, base, Low32(Value(z.kind, symbol, -4, base + z.offset, slot)), m.load);
      var after := BranchAt(y.bytes, at, base, Low32(Value(y.kind, symbol, y.addend, base + y.offset, slot)), m.load);
      && (z.bytes[z.offset - 1] == 0x25 ==> before == Jump(Low64(symbol)) && after == before && y.bytes[z.offset + 3] == 0x90)
      && (z.bytes[z.offset - 1] == 0x15 ==>
        && before == Call(Low64(symbol), next) && after.Call? && after.target == before.target
        && (after.back == next || (after.back == next - 1 && y.bytes[z.offset + 3] == cfg.nopByte))
        && (cfg.nopByte == 0x90 && after.back == next - 1 ==> AfterNop(y.bytes, base, after.back) == next))
    ensures var y := BranchSite(z, cfg, tlsGetAddr);
      z.bytes[z.offset - 1] == 0x15 ==>
        if tlsGetAddr then y.bytes[z.offset - 2] == 0x67
        else if cfg.nopAsSuffix then y.bytes[z.offset + 3] == cfg.nopByte else y.bytes[z.offset - 2] == cfg.nopByte
  {
    var y := BranchSite(z, cfg, tlsGetAddr);
    SlotIsRead(z.kind, t, symbol, base + z.offset, slot, m);
    DisplacementReaches(symbol - 4 - (base + y.offset), Pc32, base + y.offset + 4);
  }

  lemma BranchBytesStay(z: Site, cfg: Config, tlsGetAddr: bool)
    requires IsGotBranch(z)
    ensures var y := BranchSite(z, cfg, tlsGetAddr);
      |y.bytes| == |z.bytes| && forall k :: 0 <= k < |z.bytes| && !(z.offset - 2 <= k < z.offset + 4) ==> y.bytes[k] == z.bytes[k]
  {}

  /** After a conversion, if any, a branch does what it did, for everything the loader may put into the slot: the same jump or
      call, back to the same next instruction or to the padding byte in front of it. */
  lemma BranchConversionMeans(z: Site, cfg: Config, t: Target, tlsGetAddr: bool, symbol: int, base: int, slot: int, m: Machine)
    requires IsGotBranch(z) && IsPadding(z, cfg, tlsGetAddr) && Provides(m, t, symbol, slot)
    requires FitsAt(z, symbol, base, slot) && FitsAt(Conversion(z, cfg, t, tlsGetAddr), symbol, base, slot)
    ensures var y, at, next := Conversion(z, cfg, t, tlsGetAddr), z.offset - 2, base + z.offset + 4;
      var before := BranchAt(z.bytes, at, base, Low32(Value(z.kind, symbol, -4, base + z.offset, slot)), m.load);
      var after := BranchAt(y.bytes, at, base, Low32(Value(y.kind, symbol, y.addend, base + y.offset, slot)), m.load);
      && (before.Jump? ==> after == before)
      && (before.Call? ==>
        && before.back == next && after.Call? && after.target == before.target
        && (after.back == next || (after.back == next - 1 && y.bytes[z.offset + 3] == cfg.nopByte)))
      && !before.NoBranch?
      && |y.bytes| == |z.bytes| && forall k :: 0 <= k < |z.bytes| && !(z.offset - 2 <= k < z.offset + 4) ==> y.bytes[k] == z.bytes[k]
  {
    BranchIsConvertedIff(z, cfg, t, tlsGetAddr);
    if BecomesDirect(z, cfg, t) {
      DirectBranchMeans(z, cfg, tlsGetAddr, t, symbol, base, slot, m);
      BranchBytesStay(z, cfg, tlsGetAddr);
    }
  }
}
