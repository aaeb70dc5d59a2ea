/** mmu.h's large-page indices of a memory slot, and the code that sizes and reads its tables. */
module SlotIndex {
  import opened Bits
  import opened Counting

  /** `KVM_HPAGE_GFN_SHIFT(level)` as a number of small pages; one at level 1 (4K). */
  function PagesPerHpage(level: nat): (p: nat)
    requires 1 <= level <= 8
    ensures p > 0
  {
    Pow2((level - 1) * 9)
  }

  /** Pages are 4K, 2M and 1G: one, 512 and 512 squared small pages. */
  lemma PagesPerLevel()
    ensures PagesPerHpage(1) == 1 && PagesPerHpage(2) == 0x200 && PagesPerHpage(3) == 0x4_0000
  {
    assert Pow2(0) == 1;
    assert Pow2(9) == 512;
    Pow2Add(9, 9);
  }

  /** 64-bit subtraction wraps. */
  function GfnToIndex(gfn: u64, baseGfn: u64, level: nat): u64
    requires 1 <= level <= 8
  {
    (Shr(gfn, (level - 1) * 9) - Shr(baseGfn, (level - 1) * 9)) % TWO_64
  }

  function SlotLpages(baseGfn: u64, npages: u64, level: nat): u64
    requires 1 <= level <= 8
  {
    (GfnToIndex((baseGfn + npages + 0xFFFF_FFFF_FFFF_FFFF) % TWO_64, baseGfn, level) + 1) % TWO_64
  }

  /** A slot holds at least one page and does not run past the address space. */
  predicate ValidSlot(baseGfn: u64, npages: u64) {
    npages >= 1 && baseGfn + npages <= TWO_64
  }

  predicate InSlot(gfn: nat, baseGfn: u64, npages: u64) {
    baseGfn <= gfn < baseGfn + npages
  }

  /** The huge frame a small frame lies in. */
  function Frame(gfn: nat, level: nat): nat
    requires 1 <= level <= 8
  {
    Shr(gfn, (level - 1) * 9)
  }

  lemma QuotientMonotone(x: nat, y: nat, d: nat)
    requires d > 0 && x <= y
    ensures 0 <= x / d <= y / d && y / d - x / d <= y - x
  {
    QuotientNonNegative(x, d);
    QuotientNonNegative(y - x, d);
    QuotientOfSum(x, y - x, d);
    AtMostProduct((y - x) / d, d);
  }

  lemma QuotientOfSum(x: nat, z: nat, d: nat)
    requires d > 0
    ensures (x + z) / d == x / d + z / d + (if x % d + z % d < d then 0 else 1)
    ensures z == d * (z / d) + z % d
  {
    var a, b, r := x / d, z / d, x % d + z % d;
    Distribute(d, a, b);
    if r < d {
      QuotientIs(x + z, d, a + b, r);
    } else {
      Distribute(d, a + b, 1);
      QuotientIs(x + z, d, a + b + 1, r - d);
    }
  }

  lemma AtMostProduct(b: nat, d: nat)
    requires d > 0
    ensures b <= d * b
  {
    Distribute(b, d - 1, 1);
    if b > 0 && d > 1 { AtLeastOnce(b, d - 1); }
  }

  /** In a slot the index is the plain difference of the frame numbers; it grows with the gfn and
      never reaches `SlotLpages`. */
  lemma IndexOfInSlot(gfn: u64, baseGfn: u64, npages: u64, level: nat)
    requires 1 <= level <= 8 && ValidSlot(baseGfn, npages) && InSlot(gfn, baseGfn, npages)
    ensures GfnToIndex(gfn, baseGfn, level) == Frame(gfn, level) - Frame(baseGfn, level)
    ensures SlotLpages(baseGfn, npages, level) == Frame(baseGfn + npages - 1, level) - Frame(baseGfn, level) + 1
    ensures GfnToIndex(gfn, baseGfn, level) < SlotLpages(baseGfn, npages, level) <= npages
  {
    hide Pow2;
    var d, last := Pow2((level - 1) * 9), baseGfn + npages - 1;
    QuotientMonotone(baseGfn, gfn, d);
    QuotientMonotone(gfn, last, d);
    QuotientMonotone(baseGfn, last, d);
    ModShift(last, 1, TWO_64);
    QuotientIs(last, TWO_64, 0, last);
    assert (baseGfn + npages + 0xFFFF_FFFF_FFFF_FFFF) % TWO_64 == last;
    var i := Shr(gfn, (level - 1) * 9) - Shr(baseGfn, (level - 1) * 9);
    var n := Shr(last, (level - 1) * 9) - Shr(baseGfn, (level - 1) * 9);
    QuotientIs(i, TWO_64, 0, i);
    QuotientIs(n, TWO_64, 0, n);
    QuotientIs(n + 1, TWO_64, 0, n + 1);
  }

  lemma IndexMonotone(g: u64, h: u64, baseGfn: u64, npages: u64, level: nat)
    requires 1 <= level <= 8 && ValidSlot(baseGfn, npages)
    requires InSlot(g, baseGfn, npages) && InSlot(h, baseGfn, npages) && g <= h
    ensures GfnToIndex(g, baseGfn, level) <= GfnToIndex(h, baseGfn, level)
  {
    IndexOfInSlot(g, baseGfn, npages, level);
    IndexOfInSlot(h, baseGfn, npages, level);
    QuotientMonotone(g, h, Pow2((level - 1) * 9));
  }

  /** Every index below `SlotLpages` belongs to some frame of the slot. */
  lemma IndexReached(i: nat, baseGfn: u64, npages: u64, level: nat) returns (gfn: u64)
    requires 1 <= level <= 8 && ValidSlot(baseGfn, npages) && i < SlotLpages(baseGfn, npages, level)
    ensures InSlot(gfn, baseGfn, npages) && GfnToIndex(gfn, baseGfn, level) == i
  {
    hide Pow2;
    var d, last := PagesPerHpage(level), baseGfn + npages - 1;
    IndexOfInSlot(baseGfn, baseGfn, npages, level);
    IndexOfInSlot(last, baseGfn, npages, level);
    var f := Frame(baseGfn, level) + i;
    if i == 0 {
      gfn := baseGfn;
    } else {
      FrameStart(baseGfn, f, d);
      LastFrameStart(last, f, d);
      gfn := f * d;
      QuotientIs(gfn, d, f, 0);
    }
    IndexOfInSlot(gfn, baseGfn, npages, level);
  }

  lemma FrameStart(x: nat, f: nat, d: nat)
    requires d > 0 && x / d < f
    ensures x < f * d
  {
    Distribute(d, x / d, f - x / d);
    AtLeastOnce(f - x / d, d);
  }

  lemma LastFrameStart(y: nat, f: nat, d: nat)
    requires d > 0 && f <= y / d
    ensures f * d <= y
  {
    Distribute(d, f, y / d - f);
    if y / d > f { AtLeastOnce(y / d - f, d); }
  }

  /** The huge frames that hold a page of the slot. */
  ghost function Touched(baseGfn: u64, npages: u64, level: nat): set<nat>
    requires 1 <= level <= 8
  {
    set gfn: u64 | gfn < baseGfn + npages && InSlot(gfn, baseGfn, npages) :: Frame(gfn, level)
  }

  /** The indices of the slot's pages. */
  ghost function Indices(baseGfn: u64, npages: u64, level: nat): set<nat>
    requires 1 <= level <= 8
  {
    set gfn: u64 | gfn < baseGfn + npages && InSlot(gfn, baseGfn, npages) :: GfnToIndex(gfn, baseGfn, level)
  }

  /** The indices of the slot's pages are exactly the numbers below `SlotLpages`, which is the
      number of different huge frames the slot touches. */
  lemma IndicesFillTable(baseGfn: u64, npages: u64, level: nat)
    requires 1 <= level <= 8 && ValidSlot(baseGfn, npages)
    ensures Indices(baseGfn, npages, level) == Interval(0, SlotLpages(baseGfn, npages, level))
    ensures |Touched(baseGfn, npages, level)| == SlotLpages(baseGfn, npages, level)
  {
    hide Pow2, GfnToIndex, SlotLpages, Frame, Interval;
    var n := SlotLpages(baseGfn, npages, level);
    var indices := Indices(baseGfn, npages, level);
    forall i: nat
      ensures i in indices <==> i < n
    {
      if i < n {
        var gfn := IndexReached(i, baseGfn, npages, level);
      }
      if i in indices {
        var gfn: u64 :| InSlot(gfn, baseGfn, npages) && i == GfnToIndex(gfn, baseGfn, level);
        IndexOfInSlot(gfn, baseGfn, npages, level);
      }
    }
    assert indices == Interval(0, n);
    var k, touched := Frame(baseGfn, level), Touched(baseGfn, npages, level);
    var f, g := (x: nat) => x + k, (y: nat) => if y >= k then y - k else 0;
    forall x | x in Interval(0, n)
      ensures f(x) in touched && g(f(x)) == x
    {
      var gfn := IndexReached(x, baseGfn, npages, level);
      IndexOfInSlot(gfn, baseGfn, npages, level);
    }
    forall y | y in touched
      ensures g(y) in Interval(0, n) && f(g(y)) == y
    {
      var gfn: u64 :| InSlot(gfn, baseGfn, npages) && Frame(gfn, level) == y;
      IndexOfInSlot(gfn, baseGfn, npages, level);
    }
    Bijection(Interval(0, n), touched, f, g);
    IntervalSize(0, n);
  }

  /** At 4K the table has one element a page, and the index is the offset in the slot. */
  lemma SmallPages(gfn: u64, baseGfn: u64, npages: u64)
    requires ValidSlot(baseGfn, npages) && InSlot(gfn, baseGfn, npages)
    ensures SlotLpages(baseGfn, npages, 1) == npages
    ensures GfnToIndex(gfn, baseGfn, 1) == gfn - baseGfn
  {
    IndexOfInSlot(gfn, baseGfn, npages, 1);
    assert Pow2(0) == 1;
  }

  // ---- marking the partial frames of a slot

  /** Huge frame `i` of the slot lies wholly inside it. */
  predicate WhollyInside(i: nat, baseGfn: u64, npages: u64, level: nat)
    requires 1 <= level <= 8
  {
    var f := Frame(baseGfn, level) + i;
    baseGfn <= f * PagesPerHpage(level) && (f + 1) * PagesPerHpage(level) <= baseGfn + npages
  }

  /** The marking of `disallow_lpage` in `kvm_alloc_memslot_metadata` (x86.c:869-873): two tests
      mark exactly the frames that reach out of the slot, and leave the others as allocated. */
  method MarkPartialFrames(linfo: array<int>, baseGfn: u64, npages: u64, level: nat)
    requires 1 <= level <= 8 && ValidSlot(baseGfn, npages)
    requires linfo.Length == SlotLpages(baseGfn, npages, level)
    modifies linfo
    ensures forall i :: 0 <= i < linfo.Length ==>
                          linfo[i] == if WhollyInside(i, baseGfn, npages, level) then old(linfo[i]) else 1
  {
    hide Pow2, And, SlotLpages, Frame, WhollyInside;
    var lpages := linfo.Length;
    IndexOfInSlot(baseGfn, baseGfn, npages, level);
    if And(baseGfn, PagesPerHpage(level) - 1) != 0 {
      linfo[0] := 1;
    }
    if And((baseGfn + npages) % TWO_64, PagesPerHpage(level) - 1) != 0 {
      linfo[lpages - 1] := 1;
    }
    forall i | 0 <= i < lpages
      ensures linfo[i] == if WhollyInside(i, baseGfn, npages, level) then old(linfo[i]) else 1
    {
      InsideIff(i, baseGfn, npages, level);
    }
  }

  /** The elements are set exactly for the frames that reach out of the slot. */
  ghost predicate MarksPartial(linfo: seq<int>, baseGfn: u64, npages: u64, level: nat)
    requires 1 <= level <= 8
  {
    forall i :: 0 <= i < |linfo| ==> (linfo[i] != 0 <==> !WhollyInside(i, baseGfn, npages, level))
  }

  /** What `MarkPartialFrames` leaves is that, exactly when the allocation happened to be zero at
      every frame that lies inside. */
  lemma MarksPartialIff(before: seq<int>, after: seq<int>, baseGfn: u64, npages: u64, level: nat)
    requires 1 <= level <= 8 && ValidSlot(baseGfn, npages)
    requires |before| == |after| == SlotLpages(baseGfn, npages, level)
    requires forall i :: 0 <= i < |after| ==>
                           after[i] == if WhollyInside(i, baseGfn, npages, level) then before[i] else 1
    ensures MarksPartial(after, baseGfn, npages, level) <==>
              forall i :: 0 <= i < |before| && WhollyInside(i, baseGfn, npages, level) ==> before[i] == 0
  {
    hide WhollyInside, SlotLpages;
  }

  /** The slot of the first 512 pages is one whole 2M frame; whatever its element held stays, and
      unless that was zero the frame counts as partial. */
  lemma LeftoverCountsAsPartial(left: int)
    requires left != 0
    ensures ValidSlot(0, 512) && SlotLpages(0, 512, 2) == 1 && WhollyInside(0, 0, 512, 2)
    ensures !MarksPartial([left], 0, 512, 2)
  {
    assert PagesPerHpage(2) == 512 by { assert Pow2(9) == 512; }
    IndexOfInSlot(0, 0, 512, 2);
    IndexOfInSlot(511, 0, 512, 2);
    hide Pow2;
    assert WhollyInside(0, 0, 512, 2);
    assert [left][0] != 0;
  }

  /** Only the first and the last frame can be partial, and the two tests say when. */
  lemma InsideIff(i: nat, baseGfn: u64, npages: u64, level: nat)
    requires 1 <= level <= 8 && ValidSlot(baseGfn, npages) && i < SlotLpages(baseGfn, npages, level)
    ensures WhollyInside(i, baseGfn, npages, level) <==>
              && (i == 0 ==> And(baseGfn, PagesPerHpage(level) - 1) == 0)
              && (i == SlotLpages(baseGfn, npages, level) - 1 ==>
                    And((baseGfn + npages) % TWO_64, PagesPerHpage(level) - 1) == 0)
  {
    hide Pow2, And, SlotLpages;
    var d, last := PagesPerHpage(level), baseGfn + npages - 1;
    var k := (level - 1) * 9;
    Aligned(baseGfn, k);
    Aligned((baseGfn + npages) % TWO_64, k);
    WrapKeepsAlignment(baseGfn + npages, k);
    IndexOfInSlot(baseGfn, baseGfn, npages, level);
    IndexOfInSlot(last, baseGfn, npages, level);
    var f := Frame(baseGfn, level) + i;
    StartInside(baseGfn, f, d);
    EndInside(baseGfn + npages, f, d);
  }

  lemma Aligned(x: nat, k: nat)
    ensures And(x, Pow2(k) - 1) == 0 <==> x % Pow2(k) == 0
  {
    AndCommutes(x, Pow2(k) - 1);
    AndLowMask(k, x);
  }

  lemma WrapKeepsAlignment(x: nat, k: nat)
    requires k <= 64 && x <= TWO_64
    ensures x % TWO_64 % Pow2(k) == x % Pow2(k)
  {
    hide Pow2;
    Pow2Values();
    Pow2Add(k, 64 - k);
    ModMod(x, Pow2(k), Pow2(64 - k));
  }

  lemma StartInside(x: nat, f: nat, d: nat)
    requires d > 0 && x / d <= f
    ensures x <= f * d <==> f > x / d || x % d == 0
  {
    if f > x / d {
      FrameStart(x, f, d);
    }
  }

  lemma EndInside(end: nat, f: nat, d: nat)
    requires d > 0 && end > 0 && f <= (end - 1) / d
    ensures (f + 1) * d <= end <==> f < (end - 1) / d || end % d == 0
  {
    var q, r := (end - 1) / d, (end - 1) % d;
    Distribute(d, q, 1);
    if f < q {
      LastFrameStart(end - 1, f + 1, d);
    } else if r + 1 == d {
      QuotientIs(end, d, q + 1, 0);
    } else {
      QuotientIs(end, d, q, r + 1);
    }
  }

  // ---- page tracking

  /** The parts of a slot the lookup reads; `gfnTrack` is indexed by mode. */
  datatype Slot = Slot(baseGfn: u64, npages: u64, gfnTrack: seq<seq<u16>>)

  const KVM_PAGE_TRACK_WRITE: int := 0
  const KVM_PAGE_TRACK_MAX: int := 1

  /** `kvm_shadow_root_allocated` is constantly FALSE, so writes are tracked without TDP only. */
  predicate WriteTrackingEnabled(tdpEnabled: bool) {
    !tdpEnabled
  }

  /** The lookup reads the tracking table only for a slot of its own whose table is there. */
  ghost predicate Trackable(tdpEnabled: bool, slot: Option<Slot>, gfn: u64, mode: int) {
    mode == KVM_PAGE_TRACK_WRITE && slot.Some? && WriteTrackingEnabled(tdpEnabled) ==>
      && ValidSlot(slot.value.baseGfn, slot.value.npages)
      && InSlot(gfn, slot.value.baseGfn, slot.value.npages)
      && |slot.value.gfnTrack| == KVM_PAGE_TRACK_MAX
      && |slot.value.gfnTrack[KVM_PAGE_TRACK_WRITE]| == SlotLpages(slot.value.baseGfn, slot.value.npages, 1)
  }

  /** True exactly for a write-tracked page: the table, sized by `SlotLpages`, is read in bounds
      and at the page's own counter. */
  function PageTrackIsActive(tdpEnabled: bool, slot: Option<Slot>, gfn: u64, mode: int): (active: bool)
    requires Trackable(tdpEnabled, slot, gfn, mode)
    ensures active ==> mode == KVM_PAGE_TRACK_WRITE && slot.Some? && !tdpEnabled
    ensures mode == KVM_PAGE_TRACK_WRITE && slot.Some? && !tdpEnabled ==>
              && gfn - slot.value.baseGfn < |slot.value.gfnTrack[0]|
              && (active <==> slot.value.gfnTrack[0][gfn - slot.value.baseGfn] != 0)
  {
    if mode < 0 || mode >= KVM_PAGE_TRACK_MAX then false
    else if slot.None? then false
    else if mode == KVM_PAGE_TRACK_WRITE && !WriteTrackingEnabled(tdpEnabled) then false
    else
      SmallPages(gfn, slot.value.baseGfn, slot.value.npages);
      var index := GfnToIndex(gfn, slot.value.baseGfn, 1);
      slot.value.gfnTrack[mode][index] != 0
  }
}
