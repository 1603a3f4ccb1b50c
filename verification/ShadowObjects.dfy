/** Objects between redzones, what the queries say about them, and redzone adjustment (ghost.c). */
module ShadowObjects {
  import opened Shadow

  /** An object in granules lo..hi: all full but the last, with redzones on both sides. */
  ghost predicate IsObject(s: seq<Cell>, lo: int, hi: int) {
    && 0 < lo <= hi < |s| - 1
    && s[lo - 1] < 0 && s[hi + 1] < 0
    && (forall k :: lo <= k < hi ==> s[k] == 0) && 0 <= s[hi] <= 8
  }

  /** 8 bytes for every granule, or what the last one says. */
  function ObjectSize(s: seq<Cell>, lo: int, hi: int): int
    requires 0 <= lo <= hi < |s|
  {
    8 * (hi - lo) + if s[hi] == 0 then 8 else s[hi]
  }

  lemma {:induction false} SumOfFull(s: seq<Cell>, lo: nat, hi: nat)
    requires lo <= hi < |s| && forall k :: lo <= k < hi ==> s[k] == 0
    ensures SumSizes(s, lo, hi) == 8 * (hi - lo)
    decreases hi
  {
    if lo < hi {
      SumOfFull(s, lo, hi - 1);
    }
  }

  /** An address inside an object, or one past its last byte. */
  ghost predicate Inside(s: seq<Cell>, lo: int, hi: int, addr: nat) {
    && InAppMem(addr) && lo <= MemToShadow(addr) <= hi < |s| && Accepted(s, addr)
    && RegionBeg(addr) < lo && hi < RegionEnd(addr)
  }

  ghost predicate InReach(lo: int, hi: int, addr: nat) {
    MemToShadow(addr) - lo < 10000 && hi - MemToShadow(addr) < 10000
  }

  /** For every interior address the only buffer is the object, found if and only if both its ends are in reach;
      the size query then gives the object's size and the base query its first address. */
  lemma QueriesAgree(s: seq<Cell>, lo: int, hi: int, addr: nat)
    requires IsObject(s, lo, hi) && Inside(s, lo, hi, addr)
    ensures forall l, h :: Buffer(s, addr, l, h) ==> l == lo && h == hi
    ensures Buffer(s, addr, lo, hi) <==> InReach(lo, hi, addr)
    ensures forall l :: BaseAt(s, addr, l) ==> l == lo
    ensures BaseAt(s, addr, lo) <==> MemToShadow(addr) - lo < 10000
    ensures 8 * (MemToShadow(addr) - lo) + CellSize(s[MemToShadow(addr)]) + SumSizes(s, MemToShadow(addr) + 1, hi + 1)
      == ObjectSize(s, lo, hi)
  {
    var g, beg, end := MemToShadow(addr), RegionBeg(addr), RegionEnd(addr);
    ShadowInRegion(addr);
    forall l | HasLowerExtent(s, beg, g, l)
      ensures l == lo
    {
      assert !(l < lo) && !(lo < l);
    }
    forall h | HasUpperExtent(s, end, g, h)
      ensures h == hi
    {
      assert !(h < hi) && !(hi < h);
    }
    if g < hi {
      SumOfFull(s, g + 1, hi);
    }
  }

  /** A byte may be accessed: its granule is full, or it is one of the granule's first bytes. */
  predicate IsAccessible(s: seq<Cell>, a: nat)
    requires MemToShadow(a) < |s|
  {
    s[MemToShadow(a)] == 0 || a % 8 < s[MemToShadow(a)]
  }

  /** The accessible bytes of an object are those from its base on, as many as its size. */
  lemma AccessibleBytes(s: seq<Cell>, lo: int, hi: int, a: nat)
    requires IsObject(s, lo, hi) && lo <= MemToShadow(a) <= hi
    ensures ShadowToMem(lo) <= a
    ensures IsAccessible(s, a) <==> a < ShadowToMem(lo) + ObjectSize(s, lo, hi)
  {}

  /** An address in the granules of an object, both ends in reach: the size query gives -1, and the base query nothing, if and
      only if the address lies behind the byte after the object's last one. */
  lemma RefusedAddresses(s: seq<Cell>, lo: int, hi: int, addr: nat)
    requires IsObject(s, lo, hi) && InAppMem(addr) && lo <= MemToShadow(addr) <= hi && InReach(lo, hi, addr)
    requires RegionBeg(addr) < lo && hi < RegionEnd(addr)
    ensures (forall l, h :: !Buffer(s, addr, l, h)) <==> addr > ShadowToMem(lo) + ObjectSize(s, lo, hi)
    ensures (forall l :: !BaseAt(s, addr, l)) <==> addr > ShadowToMem(lo) + ObjectSize(s, lo, hi)
  {
    if addr <= ShadowToMem(lo) + ObjectSize(s, lo, hi) {
      assert Inside(s, lo, hi, addr);
      QueriesAgree(s, lo, hi, addr);
    }
  }

  // ---- adjustment ----

  /** What a negative adjustment shrinks by: an unsigned int. */
  function ShrinkBy(adjustment: int): nat {
    (-adjustment) % 0x1_0000_0000
  }

  /** Full granules given up below the last one, as the shrink asks for. */
  function FullSteps(s: seq<Cell>, hi: int, shrink: nat): nat
    requires 0 <= hi < |s| && shrink > CellSize(s[hi])
  {
    (shrink - CellSize(s[hi])) / 8
  }

  /** Where the loop over full granules ends, and whether a redzone stopped it. */
  datatype Walk = Walk(at: int, stopped: bool)

  /** Each step gives up granule `p` and stops when the granule below the next one is redzone. */
  function StepsDown(s: seq<Cell>, p: int, n: nat): (r: Walk)
    requires p <= |s| && p - n >= 1
    ensures p - n <= r.at <= p
    decreases n
  {
    if n == 0 then Walk(p, false) else if s[p - 2] < 0 then Walk(p - 1, true) else StepsDown(s, p - 1, n - 1)
  }

  /** The walk of a shrink stays in shadow memory. */
  predicate StaysInMemory(s: seq<Cell>, hi: int, shrink: nat)
    requires 0 <= hi < |s|
  {
    shrink <= CellSize(s[hi]) || hi - 1 - FullSteps(s, hi, shrink) >= 1
  }

  function ShrinkWalk(s: seq<Cell>, hi: int, shrink: nat): Walk
    requires 0 <= hi < |s| && shrink > CellSize(s[hi]) && StaysInMemory(s, hi, shrink)
  {
    StepsDown(s, hi - 1, FullSteps(s, hi, shrink))
  }

  function Poisoned(s: seq<Cell>, above: int, hi: int, redzone: Cell): (r: seq<Cell>)
    ensures |r| == |s| && forall k :: 0 <= k < |s| ==> r[k] == if above < k <= hi then redzone else s[k]
  {
    seq(|s|, k requires 0 <= k < |s| => if above < k <= hi then redzone else s[k])
  }

  /** The shadow after growing the object that ends in granule `hi`. */
  function Grown(s: seq<Cell>, hi: int, adjustment: int): seq<Cell>
    requires 0 < hi < |s| - 4 && 0 <= s[hi] <= 8 && 0 < adjustment < 16
  {
    var over := adjustment - (8 - CellSize(s[hi]));
    if over < 0 then s[hi := CellSize(s[hi]) + adjustment]
    else if over == 0 then s[hi := 0]
    else if over < 8 then s[hi := 0][hi + 1 := over]
    else if s[hi + 3] >= 0 then s[hi := 0][hi + 1 := 0]
    else s[hi := 0][hi + 1 := 0][hi + 2 := over - 8]
  }

  /** The shadow after shrinking the object that ends in granule `hi`. */
  function Shrunk(s: seq<Cell>, hi: int, shrink: nat): seq<Cell>
    requires 0 < hi < |s| - 1 && 0 <= s[hi] <= 8 && StaysInMemory(s, hi, shrink)
  {
    var last := CellSize(s[hi]);
    if shrink < last then s[hi := last - shrink]
    else if shrink == last then s[hi := s[hi + 1]]
    else
      var w := ShrinkWalk(s, hi, shrink);
      var cleared := Poisoned(s, w.at, hi, s[hi + 1]);
      if w.stopped then cleared else cleared[w.at := 8 - (shrink - last) % 8]
  }

  predicate CanAdjust(s: seq<Cell>, hi: int, adjustment: int) {
    && 0 < hi < |s| - 4 && 0 <= s[hi] <= 8 && s[hi + 1] < 0 && adjustment < 16
    && (adjustment < 0 ==> StaysInMemory(s, hi, ShrinkBy(adjustment)))
  }

  function Adjusted(s: seq<Cell>, hi: int, adjustment: int): seq<Cell>
    requires CanAdjust(s, hi, adjustment)
  {
    if adjustment == 0 then s
    else if adjustment > 0 then Grown(s, hi, adjustment)
    else Shrunk(s, hi, ShrinkBy(adjustment))
  }

  /** The enlarging branch of adjust_redzone_size. */
  method Grow(shadow: array<Cell>, hi: int, adjustment: int)
    requires 0 < hi < shadow.Length - 4 && 0 <= shadow[hi] <= 8 && 0 < adjustment < 16
    modifies shadow
    ensures shadow[..] == Grown(old(shadow[..]), hi, adjustment)
  {
    ghost var s := shadow[..];
    var last := CellSize(shadow[hi]);
    var capacity := 8 - last;
    if adjustment < capacity {
      shadow[hi] := last + adjustment;
    } else if adjustment == capacity {
      shadow[hi] := 0;
    } else {
      var p := hi;
      shadow[p] := 0;
      p := p + 1;
      var full := (adjustment - capacity) / 8;
      var excess := (adjustment - capacity) % 8;
      var i := 0;
      while i < full
        invariant 0 <= i <= full <= 1 && p == hi + 1 + i
        invariant shadow[..] == if i == 0 then s[hi := 0] else s[hi := 0][hi + 1 := 0]
        invariant i > 0 ==> s[hi + 3] < 0
      {
        shadow[p] := 0;
        p := p + 1;
        if shadow[p + 1] >= 0 {
          return;
        }
        i := i + 1;
      }
      shadow[p] := excess;
    }
  }

  /** The shrinking branch of adjust_redzone_size. */
  method Shrink(shadow: array<Cell>, hi: int, shrink: nat)
    requires 0 < hi < shadow.Length - 1 && 0 <= shadow[hi] <= 8 && StaysInMemory(shadow[..], hi, shrink)
    modifies shadow
    ensures shadow[..] == Shrunk(old(shadow[..]), hi, shrink)
  {
    ghost var s := shadow[..];
    var last := CellSize(shadow[hi]);
    var redzone := shadow[hi + 1];
    if shrink < last {
      shadow[hi] := last - shrink;
    } else if shrink == last {
      shadow[hi] := redzone;
    } else {
      var p := hi;
      shadow[p] := redzone;
      p := p - 1;
      var full := (shrink - last) / 8;
      var excess := (shrink - last) % 8;
      var i := 0;
      assert shadow[..] == Poisoned(s, p, hi, redzone);
      while i < full
        invariant 0 <= i <= full && p == hi - 1 - i
        invariant ShrinkWalk(s, hi, shrink) == StepsDown(s, p, full - i)
        invariant shadow[..] == Poisoned(s, p, hi, redzone)
      {
        shadow[p] := redzone;
        p := p - 1;
        assert shadow[..] == Poisoned(s, p, hi, redzone);
        assert shadow[p - 1] == s[p - 1];
        if shadow[p - 1] < 0 {
          return;
        }
        i := i + 1;
      }
      shadow[p] := 8 - excess;
    }
  }

  /** From an addressable granule, the last one before a redzone. */
  ghost predicate IsLastGranule(s: seq<Cell>, g: int, hi: int) {
    0 <= g <= hi < |s| - 1 && (forall k :: g < k <= hi ==> s[k] >= 0) && s[hi + 1] < 0
  }

  /** Changes the size of the object around an address; gives the size found afterwards, -1 on errors. */
  method AdjustRedzoneSize(shadow: array<Cell>, addr: nat, adjustment: int, ghost hi: int) returns (r: int)
    requires shadow.Length > MemToShadow(HIGH_MEM_END) + 4
    requires InAppMem(addr) && adjustment < 16 ==>
      IsLastGranule(shadow[..], MemToShadow(addr), hi) && CanAdjust(shadow[..], hi, adjustment)
    modifies shadow
    ensures !InAppMem(addr) || adjustment >= 16 ==> r == -1 && shadow[..] == old(shadow[..])
    ensures InAppMem(addr) && adjustment < 16 ==> shadow[..] == Adjusted(old(shadow[..]), hi, adjustment)
    ensures InAppMem(addr) && adjustment < 16 ==> (r == -1 <==> forall l, h :: !Buffer(shadow[..], addr, l, h))
    ensures InAppMem(addr) && adjustment < 16 ==> forall l, h :: Buffer(shadow[..], addr, l, h) ==>
      r == 8 * (MemToShadow(addr) - l) + CellSize(shadow[MemToShadow(addr)]) + SumSizes(shadow[..], MemToShadow(addr) + 1, h + 1)
  {
    if adjustment >= REDZONE_SIZE {
      return -1;
    }
    if !InAppMem(addr) {
      return -1;
    }
    ShadowInRegion(addr);
    var p := MemToShadow(addr);
    while shadow[p + 1] >= 0
      invariant MemToShadow(addr) <= p <= hi
      decreases hi - p
    {
      p := p + 1;
    }
    assert p == hi;
    if adjustment > 0 {
      Grow(shadow, p, adjustment);
    } else if adjustment < 0 {
      Shrink(shadow, p, ShrinkBy(adjustment));
    }
    r := GenericBufferSize(shadow, addr);
  }

  // ---- what an adjustment does to the object and to the others ----

  /** The last granule of the grown object. */
  function GrownEnd(s: seq<Cell>, hi: int, adjustment: int): int
    requires 0 <= hi < |s| - 4
  {
    var over := adjustment - (8 - CellSize(s[hi]));
    if over <= 0 then hi else if over < 8 || s[hi + 3] >= 0 then hi + 1 else hi + 2
  }

  /** Growth that passes the last granule by exactly 8 writes 0, which makes one more redzone granule accessible;
      growth by more than that stops after 8 when the third granule belongs to the next object. */
  predicate GrowthIsExact(s: seq<Cell>, hi: int, adjustment: int)
    requires 0 <= hi < |s| - 4
  {
    var over := adjustment - (8 - CellSize(s[hi]));
    over < 8 || (over == 8 && s[hi + 3] >= 0) || (over > 8 && s[hi + 3] < 0)
  }

  lemma GrowthKeepsObject(s: seq<Cell>, lo: int, hi: int, adjustment: int)
    requires hi < |s| - 4 && IsObject(s, lo, hi) && 0 < adjustment < 16 && s[hi + 2] < 0
    ensures IsObject(Grown(s, hi, adjustment), lo, GrownEnd(s, hi, adjustment))
    ensures ObjectSize(Grown(s, hi, adjustment), lo, GrownEnd(s, hi, adjustment)) == ObjectSize(s, lo, hi) + adjustment
      <==> GrowthIsExact(s, hi, adjustment)
    ensures adjustment - (8 - CellSize(s[hi])) == 8 && s[hi + 3] < 0 ==>
      ObjectSize(Grown(s, hi, adjustment), lo, GrownEnd(s, hi, adjustment)) == ObjectSize(s, lo, hi) + adjustment + 8
    ensures adjustment - (8 - CellSize(s[hi])) > 8 && s[hi + 3] >= 0 ==>
      ObjectSize(Grown(s, hi, adjustment), lo, GrownEnd(s, hi, adjustment)) == 8 * (hi + 2 - lo)
  {}

  /** Inside an object the walk goes as far as asked, or up to the first granule. */
  lemma {:induction false} StepsInObject(s: seq<Cell>, lo: int, hi: int, p: int, n: nat)
    requires IsObject(s, lo, hi) && lo <= p < hi && p - n >= 1 && (p > lo || n == 0)
    ensures StepsDown(s, p, n) == if n > 0 && p - n <= lo then Walk(lo, true) else Walk(p - n, false)
    decreases n
  {
    if n > 0 && p - 1 > lo {
      StepsInObject(s, lo, hi, p - 1, n - 1);
    }
  }

  /** Shrinks that leave something of the object: smaller ones, and all those of three granules or more. */
  predicate LeavesObject(s: seq<Cell>, lo: int, hi: int, shrink: nat)
    requires 0 <= lo <= hi < |s|
  {
    shrink < ObjectSize(s, lo, hi) || hi - lo >= 2
  }

  /** The last granule of the shrunk object. */
  function ShrunkEnd(s: seq<Cell>, hi: int, shrink: nat): int
    requires 0 <= hi < |s| && StaysInMemory(s, hi, shrink)
  {
    if shrink < CellSize(s[hi]) then hi else if shrink == CellSize(s[hi]) then hi - 1 else ShrinkWalk(s, hi, shrink).at
  }

  /** A shrink over several granules that reaches the first one through the loop leaves all 8 bytes of it. */
  predicate ShrinkIsExact(s: seq<Cell>, lo: int, hi: int, shrink: nat)
    requires 0 <= lo <= hi < |s|
  {
    var last := CellSize(s[hi]);
    shrink <= last || shrink < last + 8 || hi - 1 - FullSteps(s, hi, shrink) > lo
    || (hi - 1 - FullSteps(s, hi, shrink) == lo && (shrink - last) % 8 == 0)
  }

  lemma ShrinkKeepsObject(s: seq<Cell>, lo: int, hi: int, shrink: nat)
    requires IsObject(s, lo, hi) && LeavesObject(s, lo, hi, shrink) && StaysInMemory(s, hi, shrink)
    ensures IsObject(Shrunk(s, hi, shrink), lo, ShrunkEnd(s, hi, shrink))
    ensures ObjectSize(Shrunk(s, hi, shrink), lo, ShrunkEnd(s, hi, shrink)) == ObjectSize(s, lo, hi) - shrink
      <==> ShrinkIsExact(s, lo, hi, shrink)
    ensures !ShrinkIsExact(s, lo, hi, shrink) ==>
      ShrunkEnd(s, hi, shrink) == lo && Shrunk(s, hi, shrink)[lo] == 0
  {
    var last := CellSize(s[hi]);
    if shrink > last {
      var q, e := (shrink - last) / 8, (shrink - last) % 8;
      assert shrink - last == 8 * q + e;
      StepsInObject(s, lo, hi, hi - 1, q);
    }
  }

  /** An object after an adjustment: where it ends and whether its size is the one asked for. */
  function NewEnd(s: seq<Cell>, hi: int, adjustment: int): int
    requires CanAdjust(s, hi, adjustment)
  {
    if adjustment == 0 then hi
    else if adjustment > 0 then GrownEnd(s, hi, adjustment)
    else ShrunkEnd(s, hi, ShrinkBy(adjustment))
  }

  predicate AdjustmentIsExact(s: seq<Cell>, lo: int, hi: int, adjustment: int)
    requires 0 <= lo <= hi < |s| - 4
  {
    && adjustment > -0x1_0000_0000
    && (adjustment > 0 ==> GrowthIsExact(s, hi, adjustment)) && (adjustment < 0 ==> ShrinkIsExact(s, lo, hi, ShrinkBy(adjustment)))
  }

  /** The adjustments after which there still is an object. */
  ghost predicate KeepsObject(s: seq<Cell>, lo: int, hi: int, adjustment: int) {
    && IsObject(s, lo, hi) && CanAdjust(s, hi, adjustment) && s[hi + 2] < 0
    && (adjustment < 0 ==> LeavesObject(s, lo, hi, ShrinkBy(adjustment)))
  }

  /** Such an adjustment leaves an object with the same base between redzones, and its size is the one asked for if and
      only if the adjustment is exact: in particular it must not exceed an unsigned int. */
  lemma AdjustmentKeepsObject(s: seq<Cell>, lo: int, hi: int, adjustment: int)
    requires KeepsObject(s, lo, hi, adjustment)
    ensures IsObject(Adjusted(s, hi, adjustment), lo, NewEnd(s, hi, adjustment))
    ensures ObjectSize(Adjusted(s, hi, adjustment), lo, NewEnd(s, hi, adjustment)) == ObjectSize(s, lo, hi) + adjustment
      <==> AdjustmentIsExact(s, lo, hi, adjustment)
  {
    if adjustment > 0 {
      GrowthKeepsObject(s, lo, hi, adjustment);
    } else if adjustment < 0 {
      ShrinkKeepsObject(s, lo, hi, ShrinkBy(adjustment));
      if adjustment <= -0x1_0000_0000 {
        TruncatedShrink(s, lo, hi, adjustment);
      }
    }
  }

  /** Shrinks too large for an unsigned int are cut down and never exact. */
  lemma TruncatedShrink(s: seq<Cell>, lo: int, hi: int, adjustment: int)
    requires KeepsObject(s, lo, hi, adjustment) && adjustment <= -0x1_0000_0000
    ensures IsObject(Adjusted(s, hi, adjustment), lo, NewEnd(s, hi, adjustment))
    ensures ObjectSize(Adjusted(s, hi, adjustment), lo, NewEnd(s, hi, adjustment)) != ObjectSize(s, lo, hi) + adjustment
  {
    var shrink, last := ShrinkBy(adjustment), CellSize(s[hi]);
    ShrinkKeepsObject(s, lo, hi, shrink);
    if !ShrinkIsExact(s, lo, hi, shrink) {
      var q := FullSteps(s, hi, shrink);
      assert 8 * q <= shrink - last;
      assert hi - 1 - q <= lo;
    }
  }

  /** What the method returns for an address inside the object before and after: the new size, in one statement. */
  lemma AdjustedQuery(s: seq<Cell>, lo: int, hi: int, addr: nat, adjustment: int)
    requires KeepsObject(s, lo, hi, adjustment)
    requires Inside(Adjusted(s, hi, adjustment), lo, NewEnd(s, hi, adjustment), addr)
    requires InReach(lo, NewEnd(s, hi, adjustment), addr)
    ensures forall l, h :: Buffer(Adjusted(s, hi, adjustment), addr, l, h) <==> l == lo && h == NewEnd(s, hi, adjustment)
    ensures var r := Adjusted(s, hi, adjustment);
      8 * (MemToShadow(addr) - lo) + CellSize(r[MemToShadow(addr)])
        + SumSizes(r, MemToShadow(addr) + 1, NewEnd(s, hi, adjustment) + 1) == ObjectSize(s, lo, hi) + adjustment
      <==> AdjustmentIsExact(s, lo, hi, adjustment)
  {
    AdjustmentKeepsObject(s, lo, hi, adjustment);
    QueriesAgree(Adjusted(s, hi, adjustment), lo, NewEnd(s, hi, adjustment), addr);
  }

  // ---- shrinks by the whole object or more, and the other objects ----

  /** Shrinks of a one-granule object that leave everything below its two redzone granules alone, and them redzone: up to
      what it has; larger ones that meet redzone three or four granules below; and those by two full steps that write to
      the third granule what it holds. */
  predicate OneGranuleContained(s: seq<Cell>, lo: int, shrink: nat)
    requires 3 <= lo < |s|
  {
    var last := CellSize(s[lo]);
    || shrink <= last
    || (shrink >= last + 8 && s[lo - 3] < 0)
    || (shrink >= last + 16 && lo >= 4 && s[lo - 4] < 0)
    || (last + 16 <= shrink < last + 24 && s[lo - 3] == 8 - (shrink - last) % 8)
  }

  predicate StaysInObject(s: seq<Cell>, lo: int, hi: int, shrink: nat)
    requires 3 <= lo <= hi < |s|
  {
    hi > lo || OneGranuleContained(s, lo, shrink)
  }

  /** Nothing below the two redzone granules has changed, and they are redzone. */
  ghost predicate KeepsBelow(s: seq<Cell>, r: seq<Cell>, lo: int)
    requires 3 <= lo < |s| == |r|
  {
    r[lo - 1] < 0 && r[lo - 2] < 0 && forall k :: 0 <= k < lo - 2 ==> r[k] == s[k]
  }

  /** Where the walk of a one-granule object goes. */
  lemma OneGranuleWalk(s: seq<Cell>, lo: int, shrink: nat)
    requires IsObject(s, lo, lo) && 3 <= lo && s[lo - 2] < 0 && shrink > CellSize(s[lo]) && StaysInMemory(s, lo, shrink)
    ensures var w, n := ShrinkWalk(s, lo, shrink), FullSteps(s, lo, shrink);
      if n == 0 then w == Walk(lo - 1, false)
      else if s[lo - 3] < 0 then w == Walk(lo - 2, true)
      else if n == 1 then w == Walk(lo - 2, false)
      else if s[lo - 4] < 0 then w == Walk(lo - 3, true)
      else if n == 2 then w == Walk(lo - 3, false)
      else w.at <= lo - 4
  {
    var n := FullSteps(s, lo, shrink);
    if n >= 1 && s[lo - 3] >= 0 {
      assert StepsDown(s, lo - 1, n) == StepsDown(s, lo - 2, n - 1);
      if n >= 2 && s[lo - 4] >= 0 {
        assert StepsDown(s, lo - 2, n - 1) == StepsDown(s, lo - 3, n - 2);
        if n >= 3 {
          assert StepsDown(s, lo - 3, n - 2).at <= lo - 4;
        }
      }
    }
  }

  lemma OneGranuleKeepsBelow(s: seq<Cell>, lo: int, shrink: nat)
    requires IsObject(s, lo, lo) && 3 <= lo && s[lo - 2] < 0 && StaysInMemory(s, lo, shrink)
    ensures KeepsBelow(s, Shrunk(s, lo, shrink), lo) <==> OneGranuleContained(s, lo, shrink)
  {
    if shrink > CellSize(s[lo]) {
      OneGranuleWalk(s, lo, shrink);
    }
  }

  /** Between two redzone granules, the walk of a larger object ends in it, or in the granule below it. */
  lemma LargerObjectKeepsBelow(s: seq<Cell>, lo: int, hi: int, shrink: nat)
    requires IsObject(s, lo, hi) && 3 <= lo < hi && s[lo - 2] < 0 && StaysInMemory(s, hi, shrink)
    ensures KeepsBelow(s, Shrunk(s, hi, shrink), lo)
  {
    if shrink > CellSize(s[hi]) {
      var n := FullSteps(s, hi, shrink);
      if hi - lo >= 2 || n == 0 {
        StepsInObject(s, lo, hi, hi - 1, n);
      } else {
        assert ShrinkWalk(s, hi, shrink) == Walk(lo - 1, true);
      }
    }
  }

  /** With two redzone granules below the object: a shrink leaves what lies below alone if and only if it stays in the
      object. */
  lemma ShrinkKeepsBelow(s: seq<Cell>, lo: int, hi: int, shrink: nat)
    requires IsObject(s, lo, hi) && 3 <= lo && s[lo - 2] < 0 && StaysInMemory(s, hi, shrink)
    ensures KeepsBelow(s, Shrunk(s, hi, shrink), lo) <==> StaysInObject(s, lo, hi, shrink)
  {
    if hi > lo {
      LargerObjectKeepsBelow(s, lo, hi, shrink);
    } else {
      OneGranuleKeepsBelow(s, lo, shrink);
    }
  }

  /** Between two redzone granules on each side, a shrink that leaves no object turns all its granules into redzone. */
  lemma ShrinkRemovesObject(s: seq<Cell>, lo: int, hi: int, shrink: nat)
    requires IsObject(s, lo, hi) && 3 <= lo && s[lo - 2] < 0 && StaysInMemory(s, hi, shrink)
    requires !LeavesObject(s, lo, hi, shrink) && StaysInObject(s, lo, hi, shrink)
    ensures forall k :: lo <= k <= hi ==> Shrunk(s, hi, shrink)[k] < 0
    ensures KeepsBelow(s, Shrunk(s, hi, shrink), lo)
  {
    ShrinkKeepsBelow(s, lo, hi, shrink);
    if shrink > CellSize(s[hi]) {
      assert FullSteps(s, hi, shrink) >= 1;
      if hi == lo {
        OneGranuleWalk(s, lo, shrink);
      } else {
        assert ShrinkWalk(s, hi, shrink) == Walk(lo - 1, true);
      }
    }
  }

  /** Otherwise the granule below the object, or the one below that, becomes accessible, or the third one below changes. */
  lemma ShrinkBreaksRedzone(s: seq<Cell>, lo: int, shrink: nat)
    requires IsObject(s, lo, lo) && 3 <= lo && s[lo - 2] < 0 && StaysInMemory(s, lo, shrink)
    requires !StaysInObject(s, lo, lo, shrink)
    ensures shrink < CellSize(s[lo]) + 8 ==> Shrunk(s, lo, shrink)[lo - 1] > 0
    ensures CellSize(s[lo]) + 8 <= shrink < CellSize(s[lo]) + 16 ==> Shrunk(s, lo, shrink)[lo - 2] > 0
    ensures shrink >= CellSize(s[lo]) + 16 ==> Shrunk(s, lo, shrink)[lo - 3] != s[lo - 3]
  {
    OneGranuleWalk(s, lo, shrink);
  }

  /** Adjustments that leave other objects alone: all growth, shrinks that leave an object, and of the others those that
      stay in it, between two redzone granules. */
  predicate IsContained(s: seq<Cell>, lo: int, hi: int, adjustment: int)
    requires 0 <= lo <= hi < |s|
  {
    adjustment < 0 ==>
      LeavesObject(s, lo, hi, ShrinkBy(adjustment))
      || (3 <= lo && s[lo - 2] < 0 && StaysInObject(s, lo, hi, ShrinkBy(adjustment)))
  }

  lemma AdjustmentStays(s: seq<Cell>, lo: int, hi: int, adjustment: int)
    requires IsObject(s, lo, hi) && CanAdjust(s, hi, adjustment) && IsContained(s, lo, hi, adjustment)
    ensures forall k :: 0 <= k < |s| && (k < lo - 2 || k > hi + 2) ==> Adjusted(s, hi, adjustment)[k] == s[k]
    ensures forall k :: 0 <= k < |s| && lo - 2 <= k < lo && s[k] < 0 ==> Adjusted(s, hi, adjustment)[k] < 0
    ensures s[hi + 2] < 0 && s[hi + 3] >= 0 ==> Adjusted(s, hi, adjustment)[hi + 2] < 0
  {
    if adjustment < 0 {
      var shrink := ShrinkBy(adjustment);
      if !LeavesObject(s, lo, hi, shrink) {
        ShrinkKeepsBelow(s, lo, hi, shrink);
      } else if shrink > CellSize(s[hi]) {
        StepsInObject(s, lo, hi, hi - 1, FullSteps(s, hi, shrink));
      }
    }
  }

  /** Every other object, two redzone granules or more away, stays as it was. */
  lemma AdjustmentKeepsOthers(s: seq<Cell>, lo: int, hi: int, adjustment: int, l: int, h: int)
    requires IsObject(s, lo, hi) && CanAdjust(s, hi, adjustment) && s[hi + 2] < 0 && IsContained(s, lo, hi, adjustment)
    requires IsObject(s, l, h) && (h + 2 < lo || hi + 2 < l)
    ensures IsObject(Adjusted(s, hi, adjustment), l, h)
    ensures ObjectSize(Adjusted(s, hi, adjustment), l, h) == ObjectSize(s, l, h)
  {
    AdjustmentStays(s, lo, hi, adjustment);
  }

  /** The exact condition for a shrink to spare an object that ends in granule `h` below: the walk stops above it, or writes
      to no granule of it nor to the one behind it, or writes to its last granule what that holds. */
  predicate SparesObject(s: seq<Cell>, hi: int, shrink: nat, h: int)
    requires 0 <= h < hi < |s| && StaysInMemory(s, hi, shrink)
  {
    shrink <= CellSize(s[hi]) ||
    var w := ShrinkWalk(s, hi, shrink);
    if w.stopped then h <= w.at
    else h + 1 < w.at || (h == w.at && CellSize(s[h]) == 8 - (shrink - CellSize(s[hi])) % 8)
  }

  ghost predicate SameObject(s: seq<Cell>, r: seq<Cell>, l: int, h: int)
    requires 0 <= l <= h < |s| == |r|
  {
    IsObject(r, l, h) && ObjectSize(r, l, h) == ObjectSize(s, l, h)
  }

  lemma ShrinkSparesObject(s: seq<Cell>, lo: int, hi: int, shrink: nat, l: int, h: int)
    requires IsObject(s, lo, hi) && StaysInMemory(s, hi, shrink) && IsObject(s, l, h) && h + 1 < lo
    ensures SameObject(s, Shrunk(s, hi, shrink), l, h) <==> SparesObject(s, hi, shrink, h)
  {
    var r := Shrunk(s, hi, shrink);
    if shrink > CellSize(s[hi]) {
      var w := ShrinkWalk(s, hi, shrink);
      assert forall k :: 0 <= k < w.at ==> r[k] == s[k];
      assert forall k :: w.at < k <= hi ==> r[k] < 0;
    }
  }

  /** Every other object, for every adjustment: base and size stay if and only if it lies above, the object grows, or the
      shrink spares it. */
  lemma OtherStaysIff(s: seq<Cell>, lo: int, hi: int, adjustment: int, l: int, h: int)
    requires IsObject(s, lo, hi) && CanAdjust(s, hi, adjustment) && s[hi + 2] < 0
    requires IsObject(s, l, h) && (h + 1 < lo || hi + 2 < l)
    ensures SameObject(s, Adjusted(s, hi, adjustment), l, h)
      <==> (adjustment < 0 && h < lo ==> SparesObject(s, hi, ShrinkBy(adjustment), h))
  {
    if adjustment < 0 {
      if h < lo {
        ShrinkSparesObject(s, lo, hi, ShrinkBy(adjustment), l, h);
      } else {
        assert forall k :: hi < k < |s| ==> Adjusted(s, hi, adjustment)[k] == s[k];
      }
    } else {
      assert forall k :: 0 <= k < |s| && (k < hi || k > hi + 2) ==> Adjusted(s, hi, adjustment)[k] == s[k];
    }
  }

  // ---- witnesses ----

  /** An object of 8 bytes grown by 8 has 24; one of 24 shrunk by 20 has 8; and one of 8 shrunk by 9 opens its redzone. */
  lemma InexactAdjustments()
    ensures var s: seq<Cell> := [-1, -1, 0, -1, -1, -1, -1];
      IsObject(s, 2, 2) && ObjectSize(s, 2, 2) == 8 && Adjusted(s, 2, 8) == [-1, -1, 0, 0, 0, -1, -1]
      && ObjectSize(Adjusted(s, 2, 8), 2, 4) == 24
    ensures var s: seq<Cell> := [-1, -1, 0, 0, 0, -1, -1, -1, -1];
      IsObject(s, 2, 4) && ObjectSize(s, 2, 4) == 24 && Adjusted(s, 4, -20) == [-1, -1, 0, -1, -1, -1, -1, -1, -1]
    ensures var s: seq<Cell> := [-1, -1, -1, 0, -1, -1, -1, -1];
      IsObject(s, 3, 3) && Adjusted(s, 3, -9) == [-1, -1, 7, -1, -1, -1, -1, -1]
  {}
}
