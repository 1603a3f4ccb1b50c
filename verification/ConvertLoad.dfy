/** Rewriting of GOT loads in section contents (elf_x86_64_convert_load_reloc): what is written, and when. */
module ConvertLoad {

  datatype Kind = GotPcRel | GotPcRelX | RexGotPcRelX | Pc32 | Abs32 | Abs32S

  const REX_W: bv8 := 8
  const REX_R: bv8 := 4
  const MOV_LOAD: bv8 := 0x8b
  const BRANCH: bv8 := 0xff
  const TEST: bv8 := 0x85
  const NOP: bv8 := 0x90
  const ADDR_PREFIX: bv8 := 0x67

  /** Link options: position independence, PC32 only (--no-relax), LP64 or x32, and the padding of calls. */
  datatype Config = Config(pic: bool, pc32Only: bool, lp64: bool, nopByte: bv8, nopAsSuffix: bool)

  /** What is known of the referenced symbol. `Located` has the offset used by the range estimate, addend included,
      and the estimated distance between the output sections. */
  datatype Target =
    | UndefinedLocal
    | WeakZero
    | LinkerDefined
    | Preemptible
    | Located(large: bool, offset: int, sameOutput: bool, distance: int, maxPage: int)

  /** Outside the range of a signed 32-bit displacement, in 64-bit arithmetic. */
  predicate Overflows(d: int) {
    (d + 0x8000_0000) % 0x1_0000_0000_0000_0000 > 0xffff_ffff
  }

  predicate TooFar(t: Target, roff: int)
    requires t.Located?
  {
    if t.sameOutput then Overflows(t.offset - roff)
    else t.distance < 0 || Overflows(t.offset + t.distance + t.maxPage - roff)
  }

  datatype Decision = Keep | ToPc32 | ToAbsolute

  predicate IsRelaxable(kind: Kind) {
    kind == GotPcRelX || kind == RexGotPcRelX
  }

  /** The form a load or branch is converted to, if any. */
  function Decide(kind: Kind, opcode: bv8, cfg: Config, t: Target, roff: int): Decision {
    var relocx := IsRelaxable(kind);
    var pc32 := opcode == BRANCH || !relocx || cfg.pc32Only || cfg.pic;
    if opcode != MOV_LOAD && !relocx then Keep else
      var d := match t
        case UndefinedLocal => Keep
        case Preemptible => Keep
        case LinkerDefined => if cfg.pc32Only then Keep else if pc32 then ToPc32 else ToAbsolute
        case WeakZero =>
          if opcode == BRANCH && cfg.pc32Only then Keep
          else
            var stillPc32 := pc32 && !(opcode != BRANCH && relocx);
            if stillPc32 && cfg.pic then Keep else if stillPc32 then ToPc32 else ToAbsolute
        case Located(large, _, _, _, _) =>
          if large then Keep else if !pc32 then ToAbsolute else if TooFar(t, roff) then Keep else ToPc32;
      // only branches and mov have a PC32 form
      if opcode != BRANCH && opcode != MOV_LOAD && d == ToPc32 then Keep else d
  }

  /** An absolute address is put into code only when the load address is fixed, or for the address 0. */
  lemma AbsoluteOnlyWhenFixed(kind: Kind, opcode: bv8, cfg: Config, t: Target, roff: int)
    ensures Decide(kind, opcode, cfg, t, roff) == ToAbsolute ==>
      IsRelaxable(kind) && opcode != BRANCH && (t == WeakZero || (!cfg.pic && !cfg.pc32Only))
    ensures Decide(kind, opcode, cfg, t, roff) == ToPc32 ==>
      (opcode == BRANCH || opcode == MOV_LOAD) && !(t == WeakZero && cfg.pic) && (t.Located? ==> !t.large && !TooFar(t, roff))
  {}

  // ---- the bytes ----

  /** mod = 11, and the register field moved to the rm field. */
  function RegisterForm(modrm: bv8): bv8 {
    0xc0 | ((modrm & 0x38) >> 3)
  }

  function NewOpcode(opcode: bv8): bv8 {
    if opcode == MOV_LOAD then 0xc7 else if opcode == TEST then 0xf7 else 0x81
  }

  function NewModrm(opcode: bv8, modrm: bv8): bv8 {
    if opcode == MOV_LOAD || opcode == TEST then RegisterForm(modrm) else RegisterForm(modrm) | (opcode & 0x3c)
  }

  /** The masked bits cleared, and bit R copied to bit B. */
  function MoveR(rex: bv8, mask: bv8): bv8 {
    (rex & !mask) | ((rex & REX_R) >> 2)
  }

  predicate IsWide(rex: bv8) {
    rex & REX_W != 0
  }

  /** W stays except for a mov of a 32-bit address; R moves to B. */
  function NewRex(opcode: bv8, rex: bv8, lp64: bool): bv8 {
    var mask := if opcode == MOV_LOAD && !(IsWide(rex) && lp64) then REX_R | REX_W else REX_R;
    MoveR(rex, mask)
  }

  function NewKind(opcode: bv8, rex: bv8, lp64: bool): Kind {
    if IsWide(rex) && (opcode == MOV_LOAD ==> lp64) then Abs32S else Abs32
  }

  /** Section bytes and the relocation in them. */
  datatype Site = Site(bytes: seq<bv8>, offset: int, kind: Kind, addend: int)

  ghost predicate ValidSite(z: Site) {
    0 <= z.offset && z.offset + 4 <= |z.bytes|
  }

  function RexOf(z: Site): bv8
    requires ValidSite(z) && (z.kind == RexGotPcRelX ==> z.offset >= 3)
  {
    if z.kind == RexGotPcRelX then z.bytes[z.offset - 3] else 0
  }

  /** The four bytes at `at` moved one place down. */
  function Moved(b: seq<bv8>, at: int): seq<bv8>
    requires 1 <= at && at + 4 <= |b|
  {
    b[at - 1 := b[at]][at := b[at + 1]][at + 1 := b[at + 2]][at + 2 := b[at + 3]]
  }

  /** A branch through the GOT becomes a direct one, padded to the same length. */
  function BranchSite(z: Site, cfg: Config, tlsGetAddr: bool): Site
    requires ValidSite(z) && z.offset >= 2
  {
    var b, r := z.bytes, z.offset;
    if b[r - 1] == 0x25 then Site(Moved(b, r)[r + 3 := NOP][r - 2 := 0xe9], r - 1, Pc32, z.addend)
    else if tlsGetAddr then Site(b[r - 2 := ADDR_PREFIX][r - 1 := 0xe8], r, Pc32, z.addend)
    else if cfg.nopAsSuffix then Site(Moved(b, r)[r + 3 := cfg.nopByte][r - 2 := 0xe8], r - 1, Pc32, z.addend)
    else Site(b[r - 2 := cfg.nopByte][r - 1 := 0xe8], r, Pc32, z.addend)
  }

  /** A load becomes an immediate operand. */
  function ImmediateSite(z: Site, lp64: bool): Site
    requires ValidSite(z) && z.offset >= (if z.kind == RexGotPcRelX then 3 else 2)
  {
    var b, r, opcode, rex := z.bytes, z.offset, z.bytes[z.offset - 2], RexOf(z);
    var c := b[r - 1 := NewModrm(opcode, b[r - 1])];
    var d := if rex != 0 then c[r - 3 := NewRex(opcode, rex, lp64)] else c;
    Site(d[r - 2 := NewOpcode(opcode)], r, NewKind(opcode, rex, lp64), 0)
  }

  /** The site after conversion; the same site when it is left alone. */
  function Conversion(z: Site, cfg: Config, t: Target, tlsGetAddr: bool): Site
    requires ValidSite(z)
  {
    if z.offset < (if z.kind == RexGotPcRelX then 3 else 2) || z.addend != -4 then z
    else
      var opcode := z.bytes[z.offset - 2];
      match Decide(z.kind, opcode, cfg, t, z.offset)
      case Keep => z
      case ToPc32 =>
        if opcode == BRANCH then BranchSite(z, cfg, tlsGetAddr)
        else z.(bytes := z.bytes[z.offset - 2 := 0x8d], kind := Pc32)
      case ToAbsolute => if opcode == BRANCH then z else ImmediateSite(z, cfg.lp64)
  }

  /** A relocation entry, updated in place. */
  class Reloc {
    var offset: int
    var kind: Kind
    var addend: int

    constructor (o: int, k: Kind, a: int)
      ensures offset == o && kind == k && addend == a
    {
      offset, kind, addend := o, k, a;
    }
  }

  /** Moves the four bytes at `at` one place down. */
  method MoveField(contents: array<bv8>, at: nat)
    requires 1 <= at && at + 4 <= contents.Length
    modifies contents
    ensures contents[..] == Moved(old(contents[..]), at)
  {
    contents[at - 1] := contents[at];
    contents[at] := contents[at + 1];
    contents[at + 1] := contents[at + 2];
    contents[at + 2] := contents[at + 3];
  }

  /** A branch: writes the new opcode and the padding. */
  method ConvertBranch(contents: array<bv8>, irel: Reloc, cfg: Config, tlsGetAddr: bool)
    requires 2 <= irel.offset && irel.offset + 4 <= contents.Length
    modifies contents, irel
    ensures Site(contents[..], irel.offset, irel.kind, irel.addend)
      == BranchSite(Site(old(contents[..]), old(irel.offset), old(irel.kind), old(irel.addend)), cfg, tlsGetAddr)
  {
    var modrm := contents[irel.offset - 1];
    var nop, nopOffset := NOP, irel.offset + 3;
    if modrm == 0x25 {
      modrm := 0xe9;
      MoveField(contents, irel.offset);
      irel.offset := irel.offset - 1;
    } else {
      modrm := 0xe8;
      if tlsGetAddr {
        nop, nopOffset := ADDR_PREFIX, irel.offset - 2;
      } else {
        nop := cfg.nopByte;
        if cfg.nopAsSuffix {
          MoveField(contents, irel.offset);
          irel.offset := irel.offset - 1;
        } else {
          nopOffset := irel.offset - 2;
        }
      }
    }
    contents[nopOffset] := nop;
    contents[irel.offset - 1] := modrm;
    irel.kind := Pc32;
  }

  /** The new opcode, ModRM and REX bytes of a load, and the relocation of its immediate. */
  method ImmediateForm(opcode: bv8, modrm: bv8, rex: bv8, lp64: bool) returns (o: bv8, m: bv8, x: bv8, kind: Kind)
    ensures o == NewOpcode(opcode) && m == NewModrm(opcode, modrm)
    ensures x == NewRex(opcode, rex, lp64) && kind == NewKind(opcode, rex, lp64)
  {
    var mask := REX_R;
    m := RegisterForm(modrm);
    if opcode == MOV_LOAD {
      o := 0xc7;
      if IsWide(rex) && lp64 {
        kind := Abs32S;
      } else {
        kind := Abs32;
        mask := mask | REX_W;
      }
    } else {
      kind := if IsWide(rex) then Abs32S else Abs32;
      if opcode == TEST {
        o := 0xf7;
      } else {
        m := m | (opcode & 0x3c);
        o := 0x81;
      }
    }
    x := MoveR(rex, mask);
  }

  /** A load with an absolute form: rewrites its bytes. */
  method ConvertToImmediate(contents: array<bv8>, irel: Reloc, lp64: bool)
    requires (if irel.kind == RexGotPcRelX then 3 else 2) <= irel.offset && irel.offset + 4 <= contents.Length
    modifies contents, irel
    ensures Site(contents[..], irel.offset, irel.kind, irel.addend)
      == ImmediateSite(Site(old(contents[..]), old(irel.offset), old(irel.kind), old(irel.addend)), lp64)
  {
    var roff := irel.offset;
    var rex := if irel.kind == RexGotPcRelX then contents[roff - 3] else 0;
    var opcode, modrm, newRex, kind := ImmediateForm(contents[roff - 2], contents[roff - 1], rex, lp64);
    contents[roff - 1] := modrm;
    if rex != 0 {
      contents[roff - 3] := newRex;
    }
    contents[roff - 2] := opcode;
    irel.kind := kind;
    irel.addend := 0;
  }

  /** Converts the load or branch at a relocation. */
  method ConvertLoadReloc(contents: array<bv8>, irel: Reloc, cfg: Config, t: Target, tlsGetAddr: bool) returns (converted: bool)
    requires 0 <= irel.offset && irel.offset + 4 <= contents.Length
    modifies contents, irel
    ensures Site(contents[..], irel.offset, irel.kind, irel.addend)
      == Conversion(Site(old(contents[..]), old(irel.offset), old(irel.kind), old(irel.addend)), cfg, t, tlsGetAddr)
    ensures !converted ==> contents[..] == old(contents[..]) && irel.kind == old(irel.kind)
    ensures converted ==> irel.kind in {Pc32, Abs32, Abs32S}
  {
    ghost var was := Site(contents[..], irel.offset, irel.kind, irel.addend);
    var roff := irel.offset;
    if roff < (if irel.kind == RexGotPcRelX then 3 else 2) || irel.addend != -4 {
      return false;
    }
    var opcode := contents[roff - 2];
    var decision := Decide(irel.kind, opcode, cfg, t, roff);
    AbsoluteOnlyWhenFixed(irel.kind, opcode, cfg, t, roff);
    if decision == Keep {
      return false;
    }
    if opcode == BRANCH {
      ConvertBranch(contents, irel, cfg, tlsGetAddr);
      return true;
    }
    if decision == ToPc32 {
      contents[roff - 2] := 0x8d;
      irel.kind := Pc32;
    } else {
      ConvertToImmediate(contents, irel, cfg.lp64);
    }
    converted := true;
  }
}
