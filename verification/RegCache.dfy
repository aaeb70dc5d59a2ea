/** kvm_cache_regs.h: guest registers cached in the vcpu, with the VMX refill of vmx.c:2039-2079. */
module RegCache {
  import opened Bits

  const VCPU_REGS_RSP: nat := 4
  const VCPU_REGS_RIP: nat := 16
  const NR_VCPU_REGS: nat := 17
  const VCPU_EXREG_PDPTR: nat := 17
  const VCPU_EXREG_CR0: nat := 18
  const VCPU_EXREG_CR3: nat := 19
  const VCPU_EXREG_CR4: nat := 20
  const VCPU_EXREG_EXIT_INFO_2: nat := 24

  /** `enum kvm_reg` */
  type Reg = r: nat | r <= VCPU_EXREG_EXIT_INFO_2

  /** CR0: TS and WP. */
  const POSSIBLE_CR0: u64 := 0x1_0008
  /** CR4: PVI, TSD, DE, PGE, PCE, OSFXSR, OSXMMEXCPT and FSGSBASE. */
  const POSSIBLE_CR4: u64 := 0x1_078E
  const CR0_WP: u64 := 0x1_0000
  const CR0_PG: u64 := 0x8000_0000
  const CR4_PAE: u64 := 0x20

  // ---- the bit sets

  function TestAndSet(x: u32, r: Reg): (y: u32)
  {
    SetFits(x, r);
    Or(x, Pow2(r))
  }

  lemma SetFits(x: u32, r: Reg)
    ensures Or(x, Pow2(r)) < TWO_32
  {
    Pow2Values();
    Pow2Monotone(r, 32);
    OrBelow(x, Pow2(r), 32);
  }

  ghost function Members(x: u32): set<nat> {
    set k | 0 <= k < 32 && Bit(x, k)
  }

  /** Setting a bit is inserting its register into the set the word stands for. */
  lemma SetIsInsertion(x: u32, r: Reg)
    ensures Members(TestAndSet(x, r)) == Members(x) + {r}
  {
    AvailableAfter(x, r);
  }

  lemma {:induction false} OneBit(r: nat, k: nat)
    ensures Bit(Pow2(r), k) <==> k == r
    decreases k
  {
    if k > 0 {
      assert Pow2(r) / 2 == if r == 0 then 0 else Pow2(r - 1);
      ShiftedBit(Pow2(r), k);
      hide Bit, Pow2;
      if r == 0 {
        BitOfZero(k - 1);
      } else {
        OneBit(r - 1, k - 1);
      }
    }
  }

  lemma AvailableAfter(x: u32, r: Reg)
    ensures forall k: nat :: Bit(TestAndSet(x, r), k) <==> Bit(x, k) || k == r
  {
    forall k: nat
      ensures Bit(TestAndSet(x, r), k) <==> Bit(x, k) || k == r
    {
      OrBits(x, Pow2(r), k);
      OneBit(r, k);
    }
  }

  lemma SetAgain(x: u32, r: Reg)
    requires Bit(x, r)
    ensures TestAndSet(x, r) == x
  {
    hide TestAndSet, Bit;
    AvailableAfter(x, r);
    SameBits(TestAndSet(x, r), x);
  }

  /** The same for the registers the VMCS backs, one by one. */
  lemma AvailableOnly(x: u32, r: Reg)
    ensures var y := TestAndSet(x, r);
            && Bit(y, r)
            && (r != VCPU_REGS_RSP ==> Bit(y, VCPU_REGS_RSP) == Bit(x, VCPU_REGS_RSP))
            && (r != VCPU_REGS_RIP ==> Bit(y, VCPU_REGS_RIP) == Bit(x, VCPU_REGS_RIP))
            && (r != VCPU_EXREG_PDPTR ==> Bit(y, VCPU_EXREG_PDPTR) == Bit(x, VCPU_EXREG_PDPTR))
            && (r != VCPU_EXREG_CR0 ==> Bit(y, VCPU_EXREG_CR0) == Bit(x, VCPU_EXREG_CR0))
            && (r != VCPU_EXREG_CR3 ==> Bit(y, VCPU_EXREG_CR3) == Bit(x, VCPU_EXREG_CR3))
            && (r != VCPU_EXREG_CR4 ==> Bit(y, VCPU_EXREG_CR4) == Bit(x, VCPU_EXREG_CR4))
  {
    hide TestAndSet, Bit;
    AvailableAfter(x, r);
  }

  // ---- CR0 and CR4, split between guest and host

  /** The guest-owned bits from the VMCS, the others from the vcpu: what a refill leaves there. */
  function Refilled(owned: u64, arch: u64, hw: u64): u64 {
    Pow2Values();
    OrBelow(And(arch, Not64(owned)), And(hw, owned), 64);
    Or(And(arch, Not64(owned)), And(hw, owned))
  }

  /** The value the guest sees: the vcpu's copy when that is current. */
  function LogicalBits(owned: u64, avail: bool, arch: u64, hw: u64): u64 {
    if avail then arch else Refilled(owned, arch, hw)
  }

  predicate OwnedWithin(owned: u64, possible: u64) {
    And(owned, Not64(possible)) == 0
  }

  predicate AsksGuestBits(possible: u64, owned: u64, mask: u64) {
    And(And(mask, possible), owned) != 0
  }

  /** The read refills only when a bit asked for may be, and is, guest-owned. */
  predicate NeedsRefill(possible: u64, owned: u64, avail: bool, mask: u64) {
    AsksGuestBits(possible, owned, mask) && !avail
  }

  function ReadBits(possible: u64, owned: u64, avail: bool, arch: u64, hw: u64, mask: u64): u64 {
    And(if NeedsRefill(possible, owned, avail, mask) then Refilled(owned, arch, hw) else arch, mask)
  }

  lemma RefilledBits(owned: u64, arch: u64, hw: u64, k: nat)
    ensures Bit(Refilled(owned, arch, hw), k) <==> if Bit(owned, k) then Bit(hw, k) else Bit(arch, k)
  {
    hide And, Or, Not64, Bit;
    OrBits(And(arch, Not64(owned)), And(hw, owned), k);
    AndBits(arch, Not64(owned), k);
    AndBits(hw, owned, k);
    NotBits(owned, k);
    Pow2Values();
    if k >= 64 { NoHighBits(arch, 64, k); }
  }

  lemma NoCommonBit(x: nat, y: nat)
    ensures And(x, y) == 0 <==> forall k: nat :: !(Bit(x, k) && Bit(y, k))
  {
    hide And, Bit;
    forall k: nat
      ensures Bit(And(x, y), k) <==> Bit(x, k) && Bit(y, k)
      ensures !Bit(0, k)
    {
      AndBits(x, y, k);
      BitOfZero(k);
    }
    if forall k: nat :: !(Bit(x, k) && Bit(y, k)) {
      SameBits(And(x, y), 0);
    }
  }

  lemma OwnedWithinIff(owned: u64, possible: u64)
    ensures OwnedWithin(owned, possible) <==> forall k: nat :: Bit(owned, k) ==> Bit(possible, k)
  {
    hide And, Bit, Not64;
    NoCommonBit(owned, Not64(possible));
    Pow2Values();
    forall k: nat
      ensures Bit(Not64(possible), k) <==> k < 64 && !Bit(possible, k)
      ensures k >= 64 ==> !Bit(owned, k)
    {
      NotBits(possible, k);
      if k >= 64 { NoHighBits(owned, 64, k); }
    }
  }

  /** Masking with bits that are not guest-owned gives the same before and after a refill. */
  lemma MaskOutside(owned: u64, arch: u64, hw: u64, mask: u64)
    requires And(mask, owned) == 0
    ensures And(arch, mask) == And(Refilled(owned, arch, hw), mask)
  {
    hide And, Bit, Refilled;
    NoCommonBit(mask, owned);
    forall k: nat
      ensures Bit(And(arch, mask), k) <==> Bit(And(Refilled(owned, arch, hw), mask), k)
    {
      AndBits(arch, mask, k);
      AndBits(Refilled(owned, arch, hw), mask, k);
      RefilledBits(owned, arch, hw, k);
    }
    SameBits(And(arch, mask), And(Refilled(owned, arch, hw), mask));
  }

  /** The test only looks at the possible bits; for owned bits within them that loses nothing. */
  lemma UnaskedIff(possible: u64, owned: u64, mask: u64)
    requires OwnedWithin(owned, possible)
    ensures AsksGuestBits(possible, owned, mask) <==> And(mask, owned) != 0
  {
    hide And, Bit, OwnedWithin;
    OwnedWithinIff(owned, possible);
    NoCommonBit(And(mask, possible), owned);
    NoCommonBit(mask, owned);
    forall k: nat
      ensures Bit(And(mask, possible), k) <==> Bit(mask, k) && Bit(possible, k)
    {
      AndBits(mask, possible, k);
    }
  }

  /** The test asks whether some bit is asked for, may be guest-owned, and is. */
  lemma AsksIff(possible: u64, owned: u64, mask: u64)
    ensures AsksGuestBits(possible, owned, mask) <==>
              exists k: nat :: Bit(mask, k) && Bit(possible, k) && Bit(owned, k)
  {
    hide And, Bit;
    NoCommonBit(And(mask, possible), owned);
    forall k: nat
      ensures Bit(And(mask, possible), k) <==> Bit(mask, k) && Bit(possible, k)
    {
      AndBits(mask, possible, k);
    }
  }

  lemma ReadRight(possible: u64, owned: u64, avail: bool, arch: u64, hw: u64, mask: u64)
    requires OwnedWithin(owned, possible)
    ensures ReadBits(possible, owned, avail, arch, hw, mask) == And(LogicalBits(owned, avail, arch, hw), mask)
  {
    hide And, OwnedWithin, Refilled, AsksGuestBits;
    UnaskedIff(possible, owned, mask);
    if And(mask, owned) == 0 {
      MaskOutside(owned, arch, hw, mask);
    }
  }

  /** Owning a bit outside the set: asking for it alone skips the refill and misses it. */
  lemma ReadWrong(possible: u64, owned: u64)
    requires !OwnedWithin(owned, possible)
    ensures exists avail, arch: u64, hw: u64, mask: u64 ::
              ReadBits(possible, owned, avail, arch, hw, mask) != And(LogicalBits(owned, avail, arch, hw), mask)
  {
    hide And, Bit, Not64, Refilled, AsksGuestBits;
    var ones: u64 := 0xFFFF_FFFF_FFFF_FFFF;
    var mask: u64 := And(owned, Not64(possible));
    forall k: nat
      ensures Bit(mask, k) <==> Bit(owned, k) && k < 64 && !Bit(possible, k)
      ensures Bit(ones, k) <==> k < 64
      ensures !Bit(0, k)
    {
      AndBits(owned, Not64(possible), k);
      NotBits(possible, k);
      NotBits(0, k);
      BitOfZero(k);
      assert Not64(0) == ones by { NotZero(); }
    }
    assert !AsksGuestBits(possible, owned, mask) by { NotAsked(possible, owned, mask); }
    assert And(0, mask) == 0 by { NoCommonBit(0, mask); }
    var l := Refilled(owned, 0, ones);
    forall k: nat
      ensures Bit(And(l, mask), k) <==> Bit(mask, k)
    {
      AndBits(l, mask, k);
      RefilledBits(owned, 0, ones, k);
    }
    SameBits(And(l, mask), mask);
    assert ReadBits(possible, owned, false, 0, ones, mask) != And(LogicalBits(owned, false, 0, ones), mask);
  }

  lemma NotZero()
    ensures Not64(0) == 0xFFFF_FFFF_FFFF_FFFF
  {
  }

  lemma NotAsked(possible: u64, owned: u64, mask: u64)
    requires forall k: nat :: Bit(mask, k) ==> !Bit(possible, k)
    ensures !AsksGuestBits(possible, owned, mask)
  {
    hide And, Bit;
    NoCommonBit(mask, possible);
    NoCommonBit(0, owned);
    assert forall k: nat :: !Bit(0, k) by { forall k: nat ensures !Bit(0, k) { BitOfZero(k); } }
  }

  /** The lazy read is right for every mask and state if and only if every guest-owned bit is in
      the set the test looks at. */
  lemma ReadRightIffOwnedPossible(possible: u64, owned: u64)
    ensures (forall avail, arch: u64, hw: u64, mask: u64 ::
               ReadBits(possible, owned, avail, arch, hw, mask) == And(LogicalBits(owned, avail, arch, hw), mask))
            <==> OwnedWithin(owned, possible)
  {
    hide ReadBits, LogicalBits, And, OwnedWithin;
    if OwnedWithin(owned, possible) {
      forall avail: bool, arch: u64, hw: u64, mask: u64
        ensures ReadBits(possible, owned, avail, arch, hw, mask) == And(LogicalBits(owned, avail, arch, hw), mask)
      {
        ReadRight(possible, owned, avail, arch, hw, mask);
      }
    } else {
      ReadWrong(possible, owned);
    }
  }

  lemma RefillKeepsLogical(owned: u64, avail: bool, arch: u64, hw: u64)
    ensures !avail ==> LogicalBits(owned, true, Refilled(owned, arch, hw), hw) == LogicalBits(owned, avail, arch, hw)
  {
  }

  lemma LazyReadRight(possible: u64, owned: u64, avail: bool, arch: u64, hw: u64, mask: u64)
    requires OwnedWithin(owned, possible) && !NeedsRefill(possible, owned, avail, mask)
    ensures And(arch, mask) == And(LogicalBits(owned, avail, arch, hw), mask)
  {
    hide LogicalBits, And, OwnedWithin;
    ReadRight(possible, owned, avail, arch, hw, mask);
  }

  /** PAE and PG are never guest-owned, so a refill does not change them. */
  lemma PagingBitsSurvive(owned0: u64, owned4: u64, cr0: u64, cr4: u64, hw: u64)
    requires OwnedWithin(owned0, POSSIBLE_CR0) && OwnedWithin(owned4, POSSIBLE_CR4)
    ensures And(Refilled(owned0, cr0, hw), CR0_PG) == And(cr0, CR0_PG)
    ensures And(Refilled(owned4, cr4, hw), CR4_PAE) == And(cr4, CR4_PAE)
  {
    PagingBitsImpossible();
    hide Refilled, OwnedWithin, And;
    UnaskedIff(POSSIBLE_CR0, owned0, CR0_PG);
    UnaskedIff(POSSIBLE_CR4, owned4, CR4_PAE);
    ZeroAnd(owned0);
    ZeroAnd(owned4);
    MaskOutside(owned0, cr0, hw, CR0_PG);
    MaskOutside(owned4, cr4, hw, CR4_PAE);
  }

  lemma PagingBitsImpossible()
    ensures And(CR0_PG, POSSIBLE_CR0) == 0 && And(CR4_PAE, POSSIBLE_CR4) == 0
  {
    hide And;
    Pow2Values();
    NoHighBits(POSSIBLE_CR0, 30, 31);
    OnlyBit(31, POSSIBLE_CR0);
    OnlyBit(5, POSSIBLE_CR4);
    assert POSSIBLE_CR4 / 32 == 2108;
  }

  lemma OnlyBit(r: nat, x: nat)
    ensures And(Pow2(r), x) == 0 <==> !Bit(x, r)
  {
    hide And, Bit, Pow2;
    NoCommonBit(Pow2(r), x);
    forall k: nat
      ensures Bit(Pow2(r), k) <==> k == r
    {
      OneBit(r, k);
    }
  }

  lemma ZeroAnd(x: nat)
    ensures And(0, x) == 0
  {
  }

  /** Declaring a register current without loading it is harmless exactly when the vcpu's copy
      agrees with the VMCS on the guest-owned bits. */
  lemma MarkAvailableHarmlessIff(owned: u64, arch: u64, hw: u64)
    ensures LogicalBits(owned, true, arch, hw) == LogicalBits(owned, false, arch, hw) <==>
              And(arch, owned) == And(hw, owned)
  {
    hide And, Bit, Refilled;
    forall k: nat
      ensures Bit(And(arch, owned), k) <==> Bit(arch, k) && Bit(owned, k)
      ensures Bit(And(hw, owned), k) <==> Bit(hw, k) && Bit(owned, k)
      ensures Bit(Refilled(owned, arch, hw), k) <==> if Bit(owned, k) then Bit(hw, k) else Bit(arch, k)
    {
      AndBits(arch, owned, k);
      AndBits(hw, owned, k);
      RefilledBits(owned, arch, hw, k);
    }
    if And(arch, owned) == And(hw, owned) {
      SameBits(arch, Refilled(owned, arch, hw));
    }
    if arch == Refilled(owned, arch, hw) {
      SameBits(And(arch, owned), And(hw, owned));
    }
  }

  /** A first read and what it leaves behind: whether the vcpu's copy is current, and the copy. */
  function After(possible: u64, owned: u64, avail: bool, arch: u64, hw: u64, mask: u64): (bool, u64) {
    if NeedsRefill(possible, owned, avail, mask) then (true, Refilled(owned, arch, hw)) else (avail, arch)
  }

  /** Reading two masks one after the other, with whatever refill the first causes, gives the two
      parts of what reading them together gives. */
  lemma MasksCombine(possible: u64, owned: u64, avail: bool, arch: u64, hw: u64, a: u64, b: u64, both: u64)
    requires OwnedWithin(owned, possible) && both == Or(a, b)
    ensures var (avail', arch') := After(possible, owned, avail, arch, hw, a);
            Or(ReadBits(possible, owned, avail, arch, hw, a), ReadBits(possible, owned, avail', arch', hw, b))
            == ReadBits(possible, owned, avail, arch, hw, both)
  {
    hide ReadBits, LogicalBits, Refilled, And, Or, OwnedWithin, AsksGuestBits;
    var (avail', arch') := After(possible, owned, avail, arch, hw, a);
    ReadRight(possible, owned, avail, arch, hw, a);
    ReadRight(possible, owned, avail', arch', hw, b);
    ReadRight(possible, owned, avail, arch, hw, both);
    RefillKeepsLogical(owned, avail, arch, hw);
    MaskUnion(LogicalBits(owned, avail, arch, hw), a, b);
  }

  lemma MaskUnion(l: nat, a: nat, b: nat)
    ensures Or(And(l, a), And(l, b)) == And(l, Or(a, b))
  {
    hide And, Or, Bit;
    forall k: nat
      ensures Bit(Or(And(l, a), And(l, b)), k) <==> Bit(And(l, Or(a, b)), k)
    {
      OrBits(And(l, a), And(l, b), k);
      AndBits(l, a, k);
      AndBits(l, b, k);
      AndBits(l, Or(a, b), k);
      OrBits(a, b, k);
    }
    SameBits(Or(And(l, a), And(l, b)), And(l, Or(a, b)));
  }

  // ---- which bits the guest owns

  /** PGE, PCIDE, PAE and SMEP; PGE, PSE, PAE and SMEP. */
  const CR4_TLBFLUSH_BITS: u64 := 0x12_00A0
  const CR4_PDPTR_BITS: u64 := 0x10_00B0

  /** `vmx_l1_guest_owned_cr0_bits` */
  function L1GuestOwnedCr0(enableEpt: bool): u64 {
    if enableEpt then POSSIBLE_CR0 else And(POSSIBLE_CR0, Not64(CR0_WP))
  }

  /** `set_cr4_guest_host_mask`, with the mask of a nested hypervisor if one runs. */
  function GuestOwnedCr4(reserved: u64, enableEpt: bool, nestedMask: Option<u64>): u64 {
    var own := And(POSSIBLE_CR4, Not64(reserved));
    var shadowed := if enableEpt then own else And(And(own, Not64(CR4_TLBFLUSH_BITS)), Not64(CR4_PDPTR_BITS));
    match nestedMask
    case None => shadowed
    case Some(m) => And(shadowed, Not64(m))
  }

  lemma Narrowed(x: u64, y: u64, possible: u64)
    requires OwnedWithin(x, possible)
    ensures OwnedWithin(And(x, y), possible)
  {
    hide And, Bit, OwnedWithin;
    OwnedWithinIff(x, possible);
    OwnedWithinIff(And(x, y), possible);
    forall k: nat
      ensures Bit(And(x, y), k) <==> Bit(x, k) && Bit(y, k)
    {
      AndBits(x, y, k);
    }
  }

  lemma AddBit(x: nat, r: nat, k: nat)
    requires x < Pow2(r)
    ensures Bit(Pow2(r) + x, k) <==> k == r || Bit(x, k)
  {
    hide Bit, Or, Pow2;
    OrDisjoint(1, r, x);
    OrBits(Pow2(r), x, k);
    OneBit(r, k);
  }

  lemma PossibleBits(k: nat)
    ensures Bit(POSSIBLE_CR0, k) <==> k == 3 || k == 16
    ensures Bit(POSSIBLE_CR4, k) <==> k == 1 || k == 2 || k == 3 || 7 <= k <= 10 || k == 16
    ensures Bit(CR0_WP, k) <==> k == 16
  {
    SmallPowers();
    Pow2Values();
    hide Pow2, Bit;
    BitOfZero(k);
    AddBit(0, 3, k);
    AddBit(0x8, 16, k);
    AddBit(0, 1, k);
    AddBit(0x2, 2, k);
    AddBit(0x6, 3, k);
    AddBit(0xE, 7, k);
    AddBit(0x8E, 8, k);
    AddBit(0x18E, 9, k);
    AddBit(0x38E, 10, k);
    AddBit(0x78E, 16, k);
    AddBit(0, 16, k);
  }

  lemma FlushedBits(k: nat)
    ensures Bit(CR4_TLBFLUSH_BITS, k) <==> k == 5 || k == 7 || k == 17 || k == 20
    ensures Bit(CR4_PDPTR_BITS, k) <==> k == 4 || k == 5 || k == 7 || k == 20
  {
    SmallPowers();
    Pow2Values();
    hide Pow2, Bit;
    BitOfZero(k);
    AddBit(0, 5, k);
    AddBit(0x20, 7, k);
    AddBit(0xA0, 17, k);
    AddBit(0x2_00A0, 20, k);
    AddBit(0, 4, k);
    AddBit(0x10, 5, k);
    AddBit(0x30, 7, k);
    AddBit(0xB0, 20, k);
  }

  lemma SmallPowers()
    ensures Pow2(1) == 2 && Pow2(2) == 4 && Pow2(3) == 8 && Pow2(4) == 16 && Pow2(7) == 0x80
    ensures Pow2(9) == 0x200 && Pow2(10) == 0x400 && Pow2(17) == 0x2_0000 && Pow2(20) == 0x10_0000
  {
    Pow2Values();
    assert Pow2(17) == 2 * Pow2(16);
    assert Pow2(9) == 2 * Pow2(8);
    Pow2Add(10, 10);
  }

  /** The guest owns CR0.TS, and CR0.WP with EPT only. */
  lemma L1OwnedCr0Iff(enableEpt: bool, k: nat)
    ensures Bit(L1GuestOwnedCr0(enableEpt), k) <==> k == 3 || (k == 16 && enableEpt)
  {
    hide Bit, And, Not64;
    PossibleBits(k);
    AndBits(POSSIBLE_CR0, Not64(CR0_WP), k);
    NotBits(CR0_WP, k);
  }

  /** The guest owns PVI, TSD, DE, PCE, OSFXSR, OSXMMEXCPT, FSGSBASE, and with EPT also PGE, of those
      bits the ones that are neither reserved nor intercepted by a nested hypervisor. */
  lemma OwnedCr4Iff(reserved: u64, enableEpt: bool, nestedMask: Option<u64>, k: nat)
    ensures Bit(GuestOwnedCr4(reserved, enableEpt, nestedMask), k) <==>
              && (k == 1 || k == 2 || k == 3 || 7 <= k <= 10 || k == 16)
              && !Bit(reserved, k)
              && (k == 7 ==> enableEpt)
              && (nestedMask.Some? ==> !Bit(nestedMask.value, k))
  {
    hide Bit, And, Not64;
    PossibleBits(k);
    FlushedBits(k);
    NotBits(reserved, k);
    NotBits(CR4_TLBFLUSH_BITS, k);
    NotBits(CR4_PDPTR_BITS, k);
    var own := And(POSSIBLE_CR4, Not64(reserved));
    var kept := And(own, Not64(CR4_TLBFLUSH_BITS));
    AndBits(POSSIBLE_CR4, Not64(reserved), k);
    AndBits(own, Not64(CR4_TLBFLUSH_BITS), k);
    AndBits(kept, Not64(CR4_PDPTR_BITS), k);
    if nestedMask.Some? {
      NotBits(nestedMask.value, k);
      AndBits(if enableEpt then own else And(kept, Not64(CR4_PDPTR_BITS)), Not64(nestedMask.value), k);
    }
  }

  /** However the ownership masks are chosen, the lazy reads stay right. */
  lemma OwnershipStaysPossible(reserved: u64, enableEpt: bool, nestedMask: Option<u64>)
    ensures OwnedWithin(L1GuestOwnedCr0(enableEpt), POSSIBLE_CR0)
    ensures OwnedWithin(GuestOwnedCr4(reserved, enableEpt, nestedMask), POSSIBLE_CR4)
  {
    hide And, Bit, Not64, OwnedWithin;
    OwnedWithinIff(POSSIBLE_CR0, POSSIBLE_CR0);
    OwnedWithinIff(POSSIBLE_CR4, POSSIBLE_CR4);
    Narrowed(POSSIBLE_CR0, Not64(CR0_WP), POSSIBLE_CR0);
    var own := And(POSSIBLE_CR4, Not64(reserved));
    Narrowed(POSSIBLE_CR4, Not64(reserved), POSSIBLE_CR4);
    Narrowed(own, Not64(CR4_TLBFLUSH_BITS), POSSIBLE_CR4);
    Narrowed(And(own, Not64(CR4_TLBFLUSH_BITS)), Not64(CR4_PDPTR_BITS), POSSIBLE_CR4);
    if nestedMask.Some? {
      Narrowed(own, Not64(nestedMask.value), POSSIBLE_CR4);
      Narrowed(And(And(own, Not64(CR4_TLBFLUSH_BITS)), Not64(CR4_PDPTR_BITS)), Not64(nestedMask.value), POSSIBLE_CR4);
    }
  }

  // ---- the vcpu

  /** The guest's registers, wherever they are kept at the moment. */
  datatype Guest = Guest(cr0: u64, cr3: u64, cr4: u64, regs: seq<u64>, pdptrs: seq<u64>) {
    predicate Sized() {
      |regs| == NR_VCPU_REGS && |pdptrs| == 4
    }
  }

  function Merged(regs: seq<u64>, rspAvail: bool, hwRsp: u64, ripAvail: bool, hwRip: u64): (r: seq<u64>)
    requires |regs| == NR_VCPU_REGS
    ensures |r| == NR_VCPU_REGS
    ensures forall i :: 0 <= i < NR_VCPU_REGS ==>
                          r[i] == if i == VCPU_REGS_RSP && !rspAvail then hwRsp
                                  else if i == VCPU_REGS_RIP && !ripAvail then hwRip
                                  else regs[i]
  {
    var a := if rspAvail then regs else regs[VCPU_REGS_RSP := hwRsp];
    if ripAvail then a else a[VCPU_REGS_RIP := hwRip]
  }

  lemma MergedRsp(regs: seq<u64>, hwRsp: u64, ripAvail: bool, hwRip: u64)
    requires |regs| == NR_VCPU_REGS
    ensures Merged(regs[VCPU_REGS_RSP := hwRsp], true, hwRsp, ripAvail, hwRip)
            == Merged(regs, false, hwRsp, ripAvail, hwRip)
  {
  }

  lemma MergedRip(regs: seq<u64>, rspAvail: bool, hwRsp: u64, hwRip: u64)
    requires |regs| == NR_VCPU_REGS
    ensures Merged(regs[VCPU_REGS_RIP := hwRip], rspAvail, hwRsp, true, hwRip)
            == Merged(regs, rspAvail, hwRsp, false, hwRip)
  {
    var a := if rspAvail then regs else regs[VCPU_REGS_RSP := hwRsp];
    assert (if rspAvail then regs[VCPU_REGS_RIP := hwRip] else regs[VCPU_REGS_RIP := hwRip][VCPU_REGS_RSP := hwRsp])
        == a[VCPU_REGS_RIP := hwRip];
  }

  datatype Call =
    | ReadCr0(mask: u64)
    | ReadCr4(mask: u64)
    | ReadCr3Call
    | ReadPdptr(index: PdptrIndex)
    | ReadRegister(register: GeneralReg)
    | Mark(r: Reg, dirty: bool)

  type PdptrIndex = i: nat | i < 4
  type GeneralReg = r: nat | r < NR_VCPU_REGS

  /** What a call returns to a guest with the given registers. */
  ghost function Answer(g: Guest, c: Call): seq<u64>
    requires g.Sized()
  {
    match c
    case ReadCr0(mask) => [And(g.cr0, mask)]
    case ReadCr4(mask) => [And(g.cr4, mask)]
    case ReadCr3Call => [g.cr3]
    case ReadPdptr(k) => [g.pdptrs[k]]
    case ReadRegister(k) => [g.regs[k]]
    case Mark(_, _) => []
  }

  /** What the reads of a run return for one fixed guest. */
  ghost function ReadResults(g: Guest, calls: seq<Call>): seq<u64>
    requires g.Sized()
  {
    if calls == [] then []
    else ReadResults(g, calls[..|calls| - 1]) + Answer(g, calls[|calls| - 1])
  }

  /** What the guest sees, what the vcpu's copies held at the start, and which are current now. */
  datatype View = View(guest: Guest, copies: Guest, avail: set<nat>) {
    predicate Sized() {
      guest.Sized() && copies.Sized()
    }
  }

  /** The guest with one register taken from the vcpu's copies; only those the VMCS backs differ. */
  ghost function Adopted(g: Guest, copies: Guest, r: Reg): (a: Guest)
    requires g.Sized() && copies.Sized()
    ensures a.Sized()
  {
    if r == VCPU_EXREG_CR0 then g.(cr0 := copies.cr0)
    else if r == VCPU_EXREG_CR3 then g.(cr3 := copies.cr3)
    else if r == VCPU_EXREG_CR4 then g.(cr4 := copies.cr4)
    else if r == VCPU_EXREG_PDPTR then g.(pdptrs := copies.pdptrs)
    else if r == VCPU_REGS_RSP || r == VCPU_REGS_RIP then g.(regs := g.regs[r := copies.regs[r]])
    else g
  }

  /** The copies of all registers outside the set are the same. */
  ghost predicate SameCopies(a: Guest, b: Guest, except: set<nat>)
    requires a.Sized() && b.Sized()
  {
    && (VCPU_EXREG_CR0 !in except ==> a.cr0 == b.cr0)
    && (VCPU_EXREG_CR3 !in except ==> a.cr3 == b.cr3)
    && (VCPU_EXREG_CR4 !in except ==> a.cr4 == b.cr4)
    && (VCPU_EXREG_PDPTR !in except ==> a.pdptrs == b.pdptrs)
    && (VCPU_REGS_RSP !in except ==> a.regs[VCPU_REGS_RSP] == b.regs[VCPU_REGS_RSP])
    && (VCPU_REGS_RIP !in except ==> a.regs[VCPU_REGS_RIP] == b.regs[VCPU_REGS_RIP])
  }

  lemma SameCopiesAdopted(g: Guest, a: Guest, b: Guest, except: set<nat>, r: Reg)
    requires g.Sized() && a.Sized() && b.Sized() && SameCopies(a, b, except) && r !in except
    ensures Adopted(g, a, r) == Adopted(g, b, r)
  {
  }

  /** Reads change nothing the guest sees, and make copies current; marking a register whose copy
      is not current lets the guest see the stale copy. */
  ghost function Seen(v: View, owned0: u64, owned4: u64, c: Call): (w: View)
    requires v.Sized()
    ensures w.Sized()
  {
    match c
    case ReadCr0(mask) =>
      if AsksGuestBits(POSSIBLE_CR0, owned0, mask) then v.(avail := v.avail + {VCPU_EXREG_CR0}) else v
    case ReadCr4(mask) =>
      if AsksGuestBits(POSSIBLE_CR4, owned4, mask) then v.(avail := v.avail + {VCPU_EXREG_CR4}) else v
    case ReadCr3Call => v.(avail := v.avail + {VCPU_EXREG_CR3})
    case ReadPdptr(_) => v.(avail := v.avail + {VCPU_EXREG_PDPTR})
    case ReadRegister(k) => v.(avail := v.avail + {k})
    case Mark(r, _) =>
      View(if r in v.avail then v.guest else Adopted(v.guest, v.copies, r), v.copies, v.avail + {r})
  }

  ghost function AllSeen(v: View, owned0: u64, owned4: u64, calls: seq<Call>): (w: View)
    requires v.Sized()
    ensures w.Sized()
  {
    if calls == [] then v
    else Seen(AllSeen(v, owned0, owned4, calls[..|calls| - 1]), owned0, owned4, calls[|calls| - 1])
  }

  /** Each read of a run returns what the guest sees at that point. */
  ghost function Answers(v: View, owned0: u64, owned4: u64, calls: seq<Call>): seq<u64>
    requires v.Sized()
  {
    if calls == [] then []
    else
      var before := calls[..|calls| - 1];
      Answers(v, owned0, owned4, before) + Answer(AllSeen(v, owned0, owned4, before).guest, calls[|calls| - 1])
  }

  /** A run that only marks registers with current copies shows the same guest throughout. */
  lemma {:induction false} HarmlessRun(v: View, owned0: u64, owned4: u64, calls: seq<Call>)
    requires v.Sized()
    requires forall c :: c in calls && c.Mark? ==> c.r in v.avail || Adopted(v.guest, v.copies, c.r) == v.guest
    ensures var w := AllSeen(v, owned0, owned4, calls);
            w.guest == v.guest && w.copies == v.copies && v.avail <= w.avail
    ensures Answers(v, owned0, owned4, calls) == ReadResults(v.guest, calls)
    decreases |calls|
  {
    hide AsksGuestBits, Adopted, Answer;
    if calls != [] {
      assert forall c :: c in calls[..|calls| - 1] ==> c in calls;
      HarmlessRun(v, owned0, owned4, calls[..|calls| - 1]);
    }
  }

  lemma AllOnes(k: nat)
    ensures Bit(0xFFFF_FFFF, k) <==> k < 32
  {
    hide Pow2;
    Pow2Values();
    BitOfZero(k);
    ComplementBits(0, 32, k);
  }

  lemma StartingBits(enableEpt: bool)
    ensures forall k: nat :: Bit(L1GuestOwnedCr0(enableEpt), k) <==> k == 3 || (k == 16 && enableEpt)
    ensures forall k: nat :: Bit(0xFFFF_FFFF, k) <==> k < 32
  {
    hide Bit, L1GuestOwnedCr0;
    forall k: nat
      ensures Bit(L1GuestOwnedCr0(enableEpt), k) <==> k == 3 || (k == 16 && enableEpt)
      ensures Bit(0xFFFF_FFFF, k) <==> k < 32
    {
      L1OwnedCr0Iff(enableEpt, k);
      AllOnes(k);
    }
  }

  lemma InMembers(x: u32, r: Reg)
    ensures r in Members(x) <==> Bit(x, r)
  {
    hide Bit;
  }

  lemma MergedMark(regs: seq<u64>, rspAvail: bool, hwRsp: u64, ripAvail: bool, hwRip: u64)
    requires |regs| == NR_VCPU_REGS
    ensures var m := Merged(regs, rspAvail, hwRsp, ripAvail, hwRip);
            && Merged(regs, true, hwRsp, ripAvail, hwRip) == m[VCPU_REGS_RSP := regs[VCPU_REGS_RSP]]
            && Merged(regs, rspAvail, hwRsp, true, hwRip) == m[VCPU_REGS_RIP := regs[VCPU_REGS_RIP]]
  {
    assert regs[VCPU_REGS_RSP := regs[VCPU_REGS_RSP]] == regs;
    var m := Merged(regs, rspAvail, hwRsp, ripAvail, hwRip);
    assert Merged(regs, true, hwRsp, ripAvail, hwRip) == m[VCPU_REGS_RSP := regs[VCPU_REGS_RSP]];
    assert Merged(regs, rspAvail, hwRsp, true, hwRip) == m[VCPU_REGS_RIP := regs[VCPU_REGS_RIP]];
  }

  class Vcpu {
    const enableEpt: bool
    /** vcpu->arch */
    var regsAvail: u32
    var regsDirty: u32
    var cr0: u64
    var cr0Owned: u64
    var cr3: u64
    var cr4: u64
    var cr4Owned: u64
    var longMode: bool
    const regs: array<u64>
    const pdptrs: array<u64>
    /** the VMCS guest area and the CR3-load-exiting control */
    var hwRsp: u64
    var hwRip: u64
    var hwCr0: u64
    var hwCr3: u64
    var hwCr4: u64
    var hwPdptrs: seq<u64>
    var cr3LoadExiting: bool

    ghost predicate Valid()
      reads this
    {
      && regs.Length == NR_VCPU_REGS && pdptrs.Length == 4 == |hwPdptrs| && regs != pdptrs
      && OwnedWithin(cr0Owned, POSSIBLE_CR0) && OwnedWithin(cr4Owned, POSSIBLE_CR4)
      && Members(regsDirty) <= Members(regsAvail)
    }

    /** `kvm_arch_vcpu_create`: every register current and dirty, whatever the VMCS holds. */
    constructor Create(enableEpt: bool, reserved: u64, nestedMask: Option<u64>)
      ensures Valid() && fresh(regs) && fresh(pdptrs)
      ensures Members(regsAvail) == Members(regsDirty) == Members(0xFFFF_FFFF)
      ensures forall r: Reg :: Available(r) && Dirty(r)
      ensures this.enableEpt == enableEpt
      ensures forall k: nat :: Bit(cr0Owned, k) <==> k == 3 || (k == 16 && enableEpt)
      ensures cr4Owned == GuestOwnedCr4(reserved, enableEpt, nestedMask)
    {
      StartingBits(enableEpt);
      hide And, Bit, Members, OwnedWithin, L1GuestOwnedCr0, GuestOwnedCr4;
      OwnershipStaysPossible(reserved, enableEpt, nestedMask);
      this.enableEpt := enableEpt;
      regsAvail, regsDirty := 0xFFFF_FFFF, 0xFFFF_FFFF;
      cr0Owned, cr4Owned := L1GuestOwnedCr0(enableEpt), GuestOwnedCr4(reserved, enableEpt, nestedMask);
      var r, p := new u64[NR_VCPU_REGS], new u64[4];
      regs, pdptrs := r, p;
      hwPdptrs := [0, 0, 0, 0];
    }

    /** `kvm_register_is_available` */
    predicate Available(r: Reg)
      reads this
    {
      Bit(regsAvail, r)
    }

    /** `kvm_register_is_dirty` */
    predicate Dirty(r: Reg)
      reads this
    {
      Bit(regsDirty, r)
    }

    /** The two tests are membership in the sets the words stand for. */
    lemma TestsAreMembership(r: Reg)
      ensures Available(r) <==> r in Members(regsAvail)
      ensures Dirty(r) <==> r in Members(regsDirty)
    {
      InMembers(regsAvail, r);
      InMembers(regsDirty, r);
    }

    /** `is_pae_paging`; PAE and PG are never guest-owned, so its reads need no refill. */
    predicate PaePaging()
      reads this
    {
      !longMode && And(cr4, CR4_PAE) != 0 && And(cr0, CR0_PG) != 0
    }

    /** The general registers, of which only RSP and RIP are kept in the VMCS. */
    ghost function LogicalRegs(): seq<u64>
      requires regs.Length == NR_VCPU_REGS
      reads this, regs
    {
      Merged(regs[..], Available(VCPU_REGS_RSP), hwRsp, Available(VCPU_REGS_RIP), hwRip)
    }

    ghost function LogicalPdptrs(): seq<u64>
      reads this, pdptrs
    {
      if Available(VCPU_EXREG_PDPTR) || !enableEpt || !PaePaging() then pdptrs[..] else hwPdptrs
    }

    ghost function Logical(): Guest
      requires regs.Length == NR_VCPU_REGS
      reads this, regs, pdptrs
    {
      Guest(LogicalBits(cr0Owned, Available(VCPU_EXREG_CR0), cr0, hwCr0),
            if Available(VCPU_EXREG_CR3) || cr3LoadExiting then cr3 else hwCr3,
            LogicalBits(cr4Owned, Available(VCPU_EXREG_CR4), cr4, hwCr4),
            LogicalRegs(),
            LogicalPdptrs())
    }

    /** Where the guest's registers are, register by register: `regsAvail` bit 4 is for RSP, 16 for
        RIP, 17 for the PDPTRs, 18, 19 and 20 for CR0, CR3 and CR4. Of CR0 and CR4 the VMCS holds what
        the guest owns; it holds the PDPTRs of a guest with EPT and PAE paging outside long mode. */
    lemma GuestSees(k: nat, i: nat)
      requires Valid() && i < 17
      ensures var g := Logical();
              && |g.regs| == 17 && |g.pdptrs| == 4
              && (Bit(g.cr0, k) <==> if !Bit(regsAvail, 18) && Bit(cr0Owned, k) then Bit(hwCr0, k) else Bit(cr0, k))
              && (Bit(g.cr4, k) <==> if !Bit(regsAvail, 20) && Bit(cr4Owned, k) then Bit(hwCr4, k) else Bit(cr4, k))
              && g.cr3 == (if !Bit(regsAvail, 19) && !cr3LoadExiting then hwCr3 else cr3)
              && g.regs[i] == (if i == 4 && !Bit(regsAvail, 4) then hwRsp
                               else if i == 16 && !Bit(regsAvail, 16) then hwRip else regs[i])
              && g.pdptrs == if !Bit(regsAvail, 17) && enableEpt && !longMode && Bit(cr4, 5) && Bit(cr0, 31)
                             then hwPdptrs else pdptrs[..]
    {
      PagingIff();
      hide Bit, And, Refilled, OwnedWithin, Members;
      RefilledBits(cr0Owned, cr0, hwCr0, k);
      RefilledBits(cr4Owned, cr4, hwCr4, k);
    }

    /** PAE paging: CR4 bit 5 and CR0 bit 31, outside long mode. */
    lemma PagingIff()
      ensures PaePaging() <==> !longMode && Bit(cr4, 5) && Bit(cr0, 31)
    {
      hide Bit, And, Pow2;
      Pow2Values();
      OnlyBit(5, cr4);
      OnlyBit(31, cr0);
      AndCommutes(cr4, CR4_PAE);
      AndCommutes(cr0, CR0_PG);
    }

    /** The vcpu's copies. */
    ghost function Copies(): Guest
      reads this, regs, pdptrs
    {
      Guest(cr0, cr3, cr4, regs[..], pdptrs[..])
    }

    ghost function CurrentView(): (v: View)
      requires Valid()
      reads this, regs, pdptrs
      ensures v.Sized()
    {
      View(Logical(), Copies(), Members(regsAvail))
    }

    /** What the guest's registers become when the vcpu's copy of one is declared current. */
    ghost function Declared(r: Reg): Guest
      requires Valid()
      reads this, regs, pdptrs
    {
      Adopted(Logical(), Copies(), r)
    }

    /** The vcpu's copy of a register is current: it is marked so, is not kept in the VMCS, or agrees
        with the VMCS on what the guest owns. */
    ghost predicate CopyCurrent(r: Reg)
      requires regs.Length == NR_VCPU_REGS
      reads this, regs, pdptrs
    {
      || Available(r)
      || (&& (r == VCPU_EXREG_CR0 ==> And(cr0, cr0Owned) == And(hwCr0, cr0Owned))
          && (r == VCPU_EXREG_CR3 ==> cr3LoadExiting || cr3 == hwCr3)
          && (r == VCPU_EXREG_CR4 ==> And(cr4, cr4Owned) == And(hwCr4, cr4Owned))
          && (r == VCPU_EXREG_PDPTR ==> !enableEpt || !PaePaging() || pdptrs[..] == hwPdptrs)
          && (r == VCPU_REGS_RSP ==> regs[r] == hwRsp)
          && (r == VCPU_REGS_RIP ==> regs[r] == hwRip))
    }

    /** Declaring a register current changes nothing the guest sees exactly when its copy is. */
    lemma DeclaredHarmlessIff(r: Reg)
      requires Valid()
      ensures Declared(r) == Logical() <==> CopyCurrent(r)
    {
      hide And, Bit, Members, OwnedWithin, Refilled;
      MarkAvailableHarmlessIff(cr0Owned, cr0, hwCr0);
      MarkAvailableHarmlessIff(cr4Owned, cr4, hwCr4);
      var g := Logical();
      if r == VCPU_REGS_RSP || r == VCPU_REGS_RIP {
        assert g.regs[r := regs[r]][r] == regs[r];
        if g.regs[r] == regs[r] { assert g.regs[r := regs[r]] == g.regs; }
      }
    }

    /** `kvm_register_mark_available` */
    method MarkAvailable(r: Reg)
      requires Valid()
      modifies this`regsAvail
      ensures Valid() && Available(r)
      ensures Members(regsAvail) == old(Members(regsAvail)) + {r}
      ensures Logical() == old(Declared(r))
      ensures forall x: Reg :: old(CopyCurrent(x)) ==> CopyCurrent(x)
    {
      hide And, Bit, Members, OwnedWithin, Refilled, TestAndSet, Merged;
      SetIsInsertion(regsAvail, r);
      AvailableOnly(regsAvail, r);
      AvailableAfter(regsAvail, r);
      MergedMark(regs[..], Available(VCPU_REGS_RSP), hwRsp, Available(VCPU_REGS_RIP), hwRip);
      regsAvail := TestAndSet(regsAvail, r);
    }

    /** `kvm_register_mark_dirty` */
    method MarkDirty(r: Reg)
      requires Valid()
      modifies this`regsAvail, this`regsDirty
      ensures Valid() && Available(r) && Dirty(r)
      ensures Members(regsAvail) == old(Members(regsAvail)) + {r}
      ensures Members(regsDirty) == old(Members(regsDirty)) + {r}
      ensures Logical() == old(Declared(r))
      ensures forall x: Reg :: old(CopyCurrent(x)) ==> CopyCurrent(x)
    {
      hide And, Bit, Members, OwnedWithin, Refilled, TestAndSet, Merged;
      MarkAvailable(r);
      SetIsInsertion(regsDirty, r);
      AvailableOnly(regsDirty, r);
      regsDirty := TestAndSet(regsDirty, r);
    }

    /** `ept_save_pdptrs` */
    method EptSavePdptrs()
      requires Valid() && Available(VCPU_EXREG_PDPTR)
      modifies this`regsAvail, pdptrs
      ensures Valid() && regsAvail == old(regsAvail)
      ensures pdptrs[..] == if PaePaging() then hwPdptrs else old(pdptrs[..])
    {
      hide And, Bit, Members, OwnedWithin;
      if !PaePaging() {
        return;
      }
      pdptrs[0] := hwPdptrs[0];
      pdptrs[1] := hwPdptrs[1];
      pdptrs[2] := hwPdptrs[2];
      pdptrs[3] := hwPdptrs[3];
      SetAgain(regsAvail, VCPU_EXREG_PDPTR);
      regsAvail := TestAndSet(regsAvail, VCPU_EXREG_PDPTR);
    }

    /** The control-register cases of `vmx_cache_reg`. */
    method LoadControl(r: Reg)
      requires Valid()
      modifies this`cr0, this`cr3, this`cr4
      ensures Valid() && PaePaging() == old(PaePaging())
      ensures cr0 == if r == VCPU_EXREG_CR0 then Refilled(cr0Owned, old(cr0), hwCr0) else old(cr0)
      ensures cr3 == if r == VCPU_EXREG_CR3 && !cr3LoadExiting then hwCr3 else old(cr3)
      ensures cr4 == if r == VCPU_EXREG_CR4 then Refilled(cr4Owned, old(cr4), hwCr4) else old(cr4)
    {
      hide Refilled, And, OwnedWithin, Members;
      if r == VCPU_EXREG_CR0 {
        PagingBitsSurvive(cr0Owned, cr4Owned, cr0, cr4, hwCr0);
        cr0 := Refilled(cr0Owned, cr0, hwCr0);
      } else if r == VCPU_EXREG_CR3 {
        if !cr3LoadExiting {
          cr3 := hwCr3;
        }
      } else if r == VCPU_EXREG_CR4 {
        PagingBitsSurvive(cr0Owned, cr4Owned, cr0, cr4, hwCr4);
        cr4 := Refilled(cr4Owned, cr4, hwCr4);
      }
    }

    /** `vmx_cache_reg`: mark the register available and load what the VMCS holds of it. */
    method CacheReg(r: Reg)
      requires Valid() && !Available(r)
      modifies this`regsAvail, this`cr0, this`cr3, this`cr4, regs, pdptrs
      ensures Valid() && Available(r)
      ensures Members(regsAvail) == old(Members(regsAvail)) + {r}
      ensures Logical() == old(Logical())
      ensures cr0 == if r == VCPU_EXREG_CR0 then Refilled(cr0Owned, old(cr0), hwCr0) else old(cr0)
      ensures cr4 == if r == VCPU_EXREG_CR4 then Refilled(cr4Owned, old(cr4), hwCr4) else old(cr4)
      ensures SameCopies(old(Copies()), Copies(), {r})
      ensures forall x: Reg :: old(CopyCurrent(x)) ==> CopyCurrent(x)
    {
      hide LogicalBits, Refilled, TestAndSet, Bit, And, AsksGuestBits, OwnedWithin, Members, Merged;
      ghost var was := Logical();
      SetIsInsertion(regsAvail, r);
      AvailableOnly(regsAvail, r);
      regsAvail := TestAndSet(regsAvail, r);
      if r == VCPU_REGS_RSP {
        regs[VCPU_REGS_RSP] := hwRsp;
        MergedRsp(old(regs[..]), hwRsp, Available(VCPU_REGS_RIP), hwRip);
        assert regs[..] == old(regs[..])[VCPU_REGS_RSP := hwRsp];
      } else if r == VCPU_REGS_RIP {
        regs[VCPU_REGS_RIP] := hwRip;
        MergedRip(old(regs[..]), Available(VCPU_REGS_RSP), hwRsp, hwRip);
        assert regs[..] == old(regs[..])[VCPU_REGS_RIP := hwRip];
      } else if r == VCPU_EXREG_PDPTR {
        if enableEpt {
          EptSavePdptrs();
        }
      } else {
        RefillKeepsLogical(cr0Owned, false, cr0, hwCr0);
        RefillKeepsLogical(cr4Owned, false, cr4, hwCr4);
        LoadControl(r);
      }
      forall x: Reg | old(CopyCurrent(x))
        ensures CopyCurrent(x)
      {
        AvailableAfter(old(regsAvail), r);
      }
    }

    method ReadCr0Bits(mask: u64) returns (v: u64)
      requires Valid()
      modifies this`regsAvail, this`cr0, this`cr3, this`cr4, regs, pdptrs
      ensures Valid() && Logical() == old(Logical())
      ensures v == And(Logical().cr0, mask)
      ensures v == ReadBits(POSSIBLE_CR0, cr0Owned, old(Available(VCPU_EXREG_CR0)), old(cr0), hwCr0, mask)
      ensures (Available(VCPU_EXREG_CR0), cr0)
              == After(POSSIBLE_CR0, cr0Owned, old(Available(VCPU_EXREG_CR0)), old(cr0), hwCr0, mask)
      ensures Members(regsAvail) ==
                old(Members(regsAvail)) + if AsksGuestBits(POSSIBLE_CR0, cr0Owned, mask) then {VCPU_EXREG_CR0} else {}
      ensures SameCopies(old(Copies()), Copies(), Members(regsAvail))
      ensures forall x: Reg :: old(CopyCurrent(x)) ==> CopyCurrent(x)
    {
      hide LogicalBits, Refilled, Bit, Members, And, AsksGuestBits, OwnedWithin;
      InMembers(regsAvail, VCPU_EXREG_CR0);
      if AsksGuestBits(POSSIBLE_CR0, cr0Owned, mask) && !Available(VCPU_EXREG_CR0) {
        CacheReg(VCPU_EXREG_CR0);
      }
      v := And(cr0, mask);
      LazyReadRight(POSSIBLE_CR0, cr0Owned, Available(VCPU_EXREG_CR0), cr0, hwCr0, mask);
    }

    method ReadCr4Bits(mask: u64) returns (v: u64)
      requires Valid()
      modifies this`regsAvail, this`cr0, this`cr3, this`cr4, regs, pdptrs
      ensures Valid() && Logical() == old(Logical())
      ensures v == And(Logical().cr4, mask)
      ensures v == ReadBits(POSSIBLE_CR4, cr4Owned, old(Available(VCPU_EXREG_CR4)), old(cr4), hwCr4, mask)
      ensures (Available(VCPU_EXREG_CR4), cr4)
              == After(POSSIBLE_CR4, cr4Owned, old(Available(VCPU_EXREG_CR4)), old(cr4), hwCr4, mask)
      ensures Members(regsAvail) ==
                old(Members(regsAvail)) + if AsksGuestBits(POSSIBLE_CR4, cr4Owned, mask) then {VCPU_EXREG_CR4} else {}
      ensures SameCopies(old(Copies()), Copies(), Members(regsAvail))
      ensures forall x: Reg :: old(CopyCurrent(x)) ==> CopyCurrent(x)
    {
      hide LogicalBits, Refilled, Bit, Members, And, AsksGuestBits, OwnedWithin;
      InMembers(regsAvail, VCPU_EXREG_CR4);
      if AsksGuestBits(POSSIBLE_CR4, cr4Owned, mask) && !Available(VCPU_EXREG_CR4) {
        CacheReg(VCPU_EXREG_CR4);
      }
      v := And(cr4, mask);
      LazyReadRight(POSSIBLE_CR4, cr4Owned, Available(VCPU_EXREG_CR4), cr4, hwCr4, mask);
    }

    method ReadCr3() returns (v: u64)
      requires Valid()
      modifies this`regsAvail, this`cr0, this`cr3, this`cr4, regs, pdptrs
      ensures Valid() && Logical() == old(Logical())
      ensures v == Logical().cr3
      ensures Members(regsAvail) == old(Members(regsAvail)) + {VCPU_EXREG_CR3}
      ensures SameCopies(old(Copies()), Copies(), Members(regsAvail))
      ensures forall x: Reg :: old(CopyCurrent(x)) ==> CopyCurrent(x)
    {
      hide LogicalBits, Refilled, Bit, Members, And, AsksGuestBits, OwnedWithin;
      InMembers(regsAvail, VCPU_EXREG_CR3);
      if !Available(VCPU_EXREG_CR3) {
        CacheReg(VCPU_EXREG_CR3);
      }
      v := cr3;
    }

    method PdptrRead(index: nat) returns (v: u64)
      requires Valid() && index < 4
      modifies this`regsAvail, this`cr0, this`cr3, this`cr4, regs, pdptrs
      ensures Valid() && Logical() == old(Logical())
      ensures v == Logical().pdptrs[index]
      ensures Members(regsAvail) == old(Members(regsAvail)) + {VCPU_EXREG_PDPTR}
      ensures SameCopies(old(Copies()), Copies(), Members(regsAvail))
      ensures forall x: Reg :: old(CopyCurrent(x)) ==> CopyCurrent(x)
    {
      hide LogicalBits, Refilled, Bit, Members, And, AsksGuestBits, OwnedWithin;
      InMembers(regsAvail, VCPU_EXREG_PDPTR);
      if !Available(VCPU_EXREG_PDPTR) {
        CacheReg(VCPU_EXREG_PDPTR);
      }
      v := pdptrs[index];
    }

    /** `kvm_register_read_raw` */
    method ReadRaw(r: Reg) returns (v: u64)
      requires Valid() && r < NR_VCPU_REGS
      modifies this`regsAvail, this`cr0, this`cr3, this`cr4, regs, pdptrs
      ensures Valid() && Logical() == old(Logical())
      ensures v == Logical().regs[r]
      ensures Members(regsAvail) == old(Members(regsAvail)) + {r}
      ensures SameCopies(old(Copies()), Copies(), Members(regsAvail))
      ensures forall x: Reg :: old(CopyCurrent(x)) ==> CopyCurrent(x)
    {
      hide LogicalBits, Refilled, Bit, Members, And, AsksGuestBits, OwnedWithin;
      InMembers(regsAvail, r);
      if !Available(r) {
        CacheReg(r);
      }
      v := regs[r];
    }

    /** The vcpu is where a run has led from the view at its start. */
    ghost predicate Tracks(v: View)
      requires Valid() && v.Sized()
      reads this, regs, pdptrs
    {
      Logical() == v.guest && Members(regsAvail) == v.avail && SameCopies(v.copies, Copies(), v.avail)
    }

    method Perform(c: Call, ghost v: View) returns (r: seq<u64>)
      requires Valid() && v.Sized() && Tracks(v)
      modifies this`regsAvail, this`regsDirty, this`cr0, this`cr3, this`cr4, regs, pdptrs
      ensures Valid() && Tracks(Seen(v, cr0Owned, cr4Owned, c)) && r == Answer(v.guest, c)
      ensures old(Members(regsAvail)) <= Members(regsAvail) && old(Members(regsDirty)) <= Members(regsDirty)
    {
      hide And, Bit, Members, OwnedWithin, Refilled, Merged, LogicalBits, AsksGuestBits;
      match c
      case ReadCr0(mask) => var x := ReadCr0Bits(mask); r := [x];
      case ReadCr4(mask) => var x := ReadCr4Bits(mask); r := [x];
      case ReadCr3Call => var x := ReadCr3(); r := [x];
      case ReadPdptr(k) => var x := PdptrRead(k); r := [x];
      case ReadRegister(k) => var x := ReadRaw(k); r := [x];
      case Mark(k, dirty) =>
        InMembers(regsAvail, k);
        DeclaredHarmlessIff(k);
        if k !in v.avail { SameCopiesAdopted(v.guest, v.copies, Copies(), v.avail, k); }
        if dirty { MarkDirty(k); } else { MarkAvailable(k); }
        r := [];
    }

    /** Any run of reads and marks: each read returns what the guest sees at that point, and the
        guest and the available set end as `AllSeen` says. Where every marked register's copy is
        current at the start, that is what the guest saw at the start, throughout. */
    method Execute(calls: seq<Call>) returns (results: seq<u64>)
      requires Valid()
      modifies this`regsAvail, this`regsDirty, this`cr0, this`cr3, this`cr4, regs, pdptrs
      ensures Valid() && results == Answers(old(CurrentView()), cr0Owned, cr4Owned, calls)
      ensures var v := AllSeen(old(CurrentView()), cr0Owned, cr4Owned, calls);
              Logical() == v.guest && Members(regsAvail) == v.avail
      ensures old(forall c :: c in calls && c.Mark? ==> CopyCurrent(c.r)) ==>
                Logical() == old(Logical()) && results == ReadResults(old(Logical()), calls)
      ensures old(Members(regsAvail)) <= Members(regsAvail) && old(Members(regsDirty)) <= Members(regsDirty)
    {
      hide And, Bit, Members, OwnedWithin, Refilled, Merged, LogicalBits, AsksGuestBits;
      ghost var v := CurrentView();
      if forall c :: c in calls && c.Mark? ==> CopyCurrent(c.r) {
        forall c | c in calls && c.Mark?
          ensures Adopted(v.guest, v.copies, c.r) == v.guest
        {
          DeclaredHarmlessIff(c.r);
        }
        HarmlessRun(v, cr0Owned, cr4Owned, calls);
      }
      hide Vcpu.CopyCurrent, LogicalPdptrs, LogicalRegs, Adopted;
      results := [];
      for i := 0 to |calls|
        invariant Valid() && Tracks(AllSeen(v, cr0Owned, cr4Owned, calls[..i]))
        invariant results == Answers(v, cr0Owned, cr4Owned, calls[..i])
        invariant old(Members(regsAvail)) <= Members(regsAvail) && old(Members(regsDirty)) <= Members(regsDirty)
      {
        assert calls[..i + 1][..i] == calls[..i];
        var r := Perform(calls[i], AllSeen(v, cr0Owned, cr4Owned, calls[..i]));
        results := results + r;
      }
      assert calls[..|calls|] == calls;
    }
  }
}
