/** Objects in AddressSanitizer shadow memory (ghost.c): each shadow byte describes a granule of 8 bytes;
    negative: redzone; 0: fully accessible; k: the first k bytes accessible. */
module Shadow {

  const SHADOW_OFFSET: nat := 0x7fff8000
  const HIGH_MEM_END: nat := 0x7fff_ffff_ffff
  const TRAVERSE_THRESHOLD: nat := 10000
  const REDZONE_SIZE: nat := 16

  function MemToShadow(mem: nat): nat { mem / 8 + SHADOW_OFFSET }

  function ShadowToMem(g: nat): int { (g - SHADOW_OFFSET) * 8 }

  const LOW_MEM_END: nat := SHADOW_OFFSET - 1
  const HIGH_MEM_BEG: nat := MemToShadow(HIGH_MEM_END) + 1

  predicate InAppMem(a: nat) {
    a <= LOW_MEM_END || HIGH_MEM_BEG <= a <= HIGH_MEM_END
  }

  /** The shadow region of an application address, low or high: its first and last byte. */
  function RegionBeg(a: nat): nat {
    if a <= LOW_MEM_END then SHADOW_OFFSET else MemToShadow(HIGH_MEM_BEG)
  }

  function RegionEnd(a: nat): nat {
    if a <= LOW_MEM_END then MemToShadow(LOW_MEM_END) else MemToShadow(HIGH_MEM_END)
  }

  /** The memory layout of AddressSanitizer on x86-64 Linux: low and high application memory, and their shadows. */
  lemma Layout(a: nat)
    ensures InAppMem(a) <==> a <= 0x7fff_7fff || 0x1000_7fff_8000 <= a <= 0x7fff_ffff_ffff
    ensures a <= 0x7fff_7fff ==> RegionBeg(a) == 0x7fff_8000 && RegionEnd(a) == 0x8fff_6fff
    ensures a > 0x7fff_7fff ==> RegionBeg(a) == 0x0200_8fff_7000 && RegionEnd(a) == 0x1000_7fff_7fff
    ensures MemToShadow(a) == a / 8 + 0x7fff_8000 && ShadowToMem(MemToShadow(a)) == a - a % 8
  {}

  lemma ShadowInRegion(a: nat)
    requires InAppMem(a)
    ensures RegionBeg(a) <= MemToShadow(a) <= RegionEnd(a)
  {}

  /** A shadow byte, as a signed number. Shadow memory is indexed by shadow address. */
  type Cell = x: int | -128 <= x < 128

  /** Accessible bytes; a redzone byte gives (unsigned) -1. */
  function CellSize(c: Cell): nat {
    if c < 0 then 0xffff_ffff else if c == 0 then 8 else c
  }

  /** An address in a granule is let through unless it lies beyond the accessible bytes; one past is let through. */
  predicate Accepted(s: seq<Cell>, a: nat)
    requires MemToShadow(a) < |s|
  {
    var c := s[MemToShadow(a)];
    !(c < 0 || (c > 0 && a % 8 > c))
  }

  /** Accessible bytes of the granules lo..hi-1. */
  function SumSizes(s: seq<Cell>, lo: nat, hi: nat): nat
    requires lo <= hi <= |s|
    decreases hi
  {
    if lo == hi then 0 else SumSizes(s, lo, hi - 1) + CellSize(s[hi - 1])
  }

  ghost predicate HasLowerExtent(s: seq<Cell>, beg: nat, g: int, lo: int) {
    && 0 < lo <= g < |s| && (forall k :: lo <= k <= g ==> s[k] >= 0) && s[lo - 1] < 0
    && (lo < g ==> lo - 1 >= beg) && g - lo < 10000
  }

  ghost predicate HasUpperExtent(s: seq<Cell>, end: nat, g: int, hi: int) {
    && 0 <= g <= hi < |s| - 1 && (forall k :: g <= k <= hi ==> s[k] >= 0) && s[hi + 1] < 0
    && (hi > g ==> hi + 1 <= end) && hi - g < 10000
  }

  /** The walk down to the next redzone; it gives up at the end of the region or after 10000 granules. */
  method WalkDown(shadow: array<Cell>, g: nat, beg: nat) returns (ok: bool, d: int, size: nat)
    requires 0 < beg <= g < shadow.Length && shadow[g] >= 0
    ensures ok ==> HasLowerExtent(shadow[..], beg, g, d + 1) && size == 8 * (g - (d + 1))
    ensures ok ==> forall lo :: HasLowerExtent(shadow[..], beg, g, lo) ==> lo == d + 1
    ensures !ok ==> forall lo :: !HasLowerExtent(shadow[..], beg, g, lo)
  {
    ghost var s := shadow[..];
    ok, d, size := true, g - 1, 0;
    while shadow[d] >= 0
      invariant beg - 1 <= d < g && (d < g - 1 ==> d >= beg) && g - d <= TRAVERSE_THRESHOLD
      invariant size == 8 * (g - 1 - d)
      invariant forall k :: d < k <= g ==> s[k] >= 0
      decreases d
    {
      size := size + 8;
      d := d - 1;
      if d < beg || g - d > TRAVERSE_THRESHOLD {
        assert forall lo :: HasLowerExtent(s, beg, g, lo) ==> !(lo > d + 1);
        return false, d, size;
      }
    }
    assert forall lo :: HasLowerExtent(s, beg, g, lo) ==> !(lo > d + 1) && !(lo < d + 1);
  }

  /** The walk up to the next redzone, adding up accessible bytes. */
  method WalkUp(shadow: array<Cell>, g: nat, end: nat, size0: nat) returns (ok: bool, u: int, size: nat)
    requires g <= end < shadow.Length - 2 && shadow[g] >= 0
    ensures ok ==> HasUpperExtent(shadow[..], end, g, u - 1) && size == size0 + SumSizes(shadow[..], g + 1, u)
    ensures ok ==> forall hi :: HasUpperExtent(shadow[..], end, g, hi) ==> hi == u - 1
    ensures !ok ==> forall hi :: !HasUpperExtent(shadow[..], end, g, hi)
  {
    ghost var s := shadow[..];
    ok, u, size := true, g + 1, size0;
    while shadow[u] >= 0
      invariant g < u <= end + 1 && (u > g + 1 ==> u <= end) && u - g <= TRAVERSE_THRESHOLD
      invariant size == size0 + SumSizes(s, g + 1, u)
      invariant forall k :: g <= k < u ==> s[k] >= 0
      decreases shadow.Length - u
    {
      size := size + CellSize(shadow[u]);
      u := u + 1;
      if u > end || u - g > TRAVERSE_THRESHOLD {
        assert forall hi :: HasUpperExtent(s, end, g, hi) ==> !(hi < u - 1);
        return false, u, size;
      }
    }
    assert forall hi :: HasUpperExtent(s, end, g, hi) ==> !(hi < u - 1) && !(hi > u - 1);
  }

  /** The granules lo..hi around the address: accessible, with redzones next to them, within reach. */
  ghost predicate Buffer(s: seq<Cell>, addr: nat, lo: int, hi: int) {
    && InAppMem(addr) && MemToShadow(addr) < |s| && Accepted(s, addr)
    && HasLowerExtent(s, RegionBeg(addr), MemToShadow(addr), lo)
    && HasUpperExtent(s, RegionEnd(addr), MemToShadow(addr), hi)
  }

  /** Size of the buffer around an address: 8 for every granule below, the accessible bytes of the others;
      -1 when there is no buffer. */
  method GenericBufferSize(shadow: array<Cell>, addr: nat) returns (r: int)
    requires shadow.Length > MemToShadow(HIGH_MEM_END) + 3
    ensures r == -1 <==> forall lo, hi :: !Buffer(shadow[..], addr, lo, hi)
    ensures forall lo, hi :: Buffer(shadow[..], addr, lo, hi) ==>
      r == 8 * (MemToShadow(addr) - lo) + CellSize(shadow[MemToShadow(addr)]) + SumSizes(shadow[..], MemToShadow(addr) + 1, hi + 1)
  {
    if !InAppMem(addr) {
      return -1;
    }
    ShadowInRegion(addr);
    var g := MemToShadow(addr);
    ghost var s := shadow[..];
    var cell := shadow[g];
    if cell < 0 || (cell > 0 && addr % 8 > cell) {
      return -1;
    }
    var okDown, d, below := WalkDown(shadow, g, RegionBeg(addr));
    if !okDown {
      return -1;
    }
    var okUp, u, size := WalkUp(shadow, g, RegionEnd(addr), CellSize(cell) + below);
    if !okUp {
      return -1;
    }
    assert Buffer(s, addr, d + 1, u - 1);
    r := size;
  }

  /** The base address of the buffer around an address; none for errors. */
  datatype Base = NoBase | At(mem: int)

  ghost predicate BaseAt(s: seq<Cell>, addr: nat, lo: int) {
    && InAppMem(addr) && MemToShadow(addr) < |s| && Accepted(s, addr)
    && HasLowerExtent(s, RegionBeg(addr), MemToShadow(addr), lo)
  }

  method GenericBufferBase(shadow: array<Cell>, addr: nat) returns (r: Base)
    requires shadow.Length > MemToShadow(HIGH_MEM_END) + 3
    ensures r == NoBase <==> forall lo :: !BaseAt(shadow[..], addr, lo)
    ensures forall lo :: BaseAt(shadow[..], addr, lo) ==> r == At(ShadowToMem(lo))
  {
    if !InAppMem(addr) {
      return NoBase;
    }
    ShadowInRegion(addr);
    var g := MemToShadow(addr);
    var cell := shadow[g];
    if cell < 0 || (cell > 0 && addr % 8 > cell) {
      return NoBase;
    }
    var ok, d, size := WalkDown(shadow, g, RegionBeg(addr));
    if !ok {
      return NoBase;
    }
    assert BaseAt(shadow[..], addr, d + 1);
    r := At(ShadowToMem(d + 1));
  }
}
