/** The decoded-instruction cache of mmu_t on values: refills through the instruction
    TLB, and what every entry holds. */
module Icache {
  import opened Powers
  import opened Bitwise
  import opened PageTables
  import opened TlbMachine

  const ICACHE_ENTRIES: nat := 1024

  /** The tag -1; instruction addresses are even, so it never matches one. */
  const NOENTRY: nat := 0xFFFF_FFFF_FFFF_FFFF

  function IcacheIndex(addr: nat): (k: nat)
    ensures k < ICACHE_ENTRIES
  {
    addr / 2 % ICACHE_ENTRIES
  }

  /** Two instructions compete for a slot exactly when their addresses are a multiple of
      2048 bytes apart. */
  lemma SlotsShared(a: nat, b: nat)
    requires a % 2 == 0 && b % 2 == 0
    ensures IcacheIndex(a) == IcacheIndex(b) <==> (a - b) % 2048 == 0
  {
    var h, k := a / 2, b / 2;
    assert a - b == 2 * (h - k);
    assert h == h / 1024 * 1024 + h % 1024 && k == k / 1024 * 1024 + k % 1024;
  }

  /** The macro insn_length. */
  function Length(first: nat): nat {
    if first % 4 < 3 then 2 else if first % 32 < 31 then 4 else if first % 64 < 63 then 6 else 8
  }

  // ------------------------------------------------- the instruction at an address

  /** The value of n halfwords, lowest first. */
  function Halves(h: seq<nat>): nat {
    if h == [] then 0 else h[0] + 0x1_0000 * Halves(h[1..])
  }

  predicate Words16(h: seq<nat>) { forall k | 0 <= k < |h| :: h[k] < 0x1_0000 }

  /** n halfwords as a signed number, in 64 bits. */
  function SignExtended(h: seq<nat>): nat
    requires 1 <= |h| <= 4
  {
    if h[|h| - 1] < 0x8000 then Halves(h) else (Halves(h) + WORD - Pow2(16 * |h|)) % WORD
  }

  datatype Got = Trap | Bits(bits: nat)

  /** Where a walk finds the k-th halfword of the instruction at addr. */
  function HalfAddr(m: seq<Byte>, r: Regs, addr: nat, k: nat): nat
    requires Paged(m) && r.root % PAGE == 0
  {
    Translate(m, r, Fetch, (addr + 2 * k) % WORD)
  }

  function ReadHalf(m: seq<Byte>, p: nat): (h: nat)
    ensures h < 0x1_0000
  {
    if p + 2 <= |m| then m[p] as nat + 256 * m[p + 1] as nat else 0
  }

  /** The instruction at addr as the page table and memory define it: its length comes
      from the first halfword; it traps if any halfword's page does not translate. */
  ghost function PlainInsn(m: seq<Byte>, r: Regs, addr: nat): Got
    requires Paged(m) && r.root % PAGE == 0
  {
    if HalfAddr(m, r, addr, 0) >= |m| then Trap
    else
      var n := Length(ReadHalf(m, HalfAddr(m, r, addr, 0))) / 2;
      if exists k | 0 <= k < n :: HalfAddr(m, r, addr, k) >= |m| then Trap
      else Bits(SignExtended(seq(n, k requires 0 <= k < n => ReadHalf(m, HalfAddr(m, r, addr, k)))))
  }

  // ------------------------------------------------------------------ refilling

  /** *(const int16_t*) widened to 64 bits and shifted by s. */
  function SignedAt(h: nat, s: nat): nat {
    (if h < 0x8000 then h else h + WORD - 0x1_0000) * Pow2(s) % WORD
  }

  lemma SignedAtFits(h: nat, s: nat)
    ensures SignedAt(h, s) < Pow2(64)
  {
    PowersOf16();
  }

  /** The ors that put two, three and four halfwords together, in the order of the code. */
  function Or2(h0: nat, h1: nat): (r: nat)
    requires h0 < 0x1_0000
    ensures r < WORD
  {
    PowersOf16();
    SignedAtFits(h1, 16);
    OrBound(h0, SignedAt(h1, 16), 64);
    Or(h0, SignedAt(h1, 16))
  }

  function Or3(h0: nat, h1: nat, h2: nat): (r: nat)
    requires h0 < 0x1_0000 && h1 < 0x1_0000
    ensures r < WORD
  {
    PowersOf16();
    SignedAtFits(h2, 32);
    OrBound(h0, SignedAt(h2, 32), 64);
    OrBound(Or(h0, SignedAt(h2, 32)), 0x1_0000 * h1, 64);
    Or(Or(h0, SignedAt(h2, 32)), 0x1_0000 * h1)
  }

  function Or4(h0: nat, h1: nat, h2: nat, h3: nat): (r: nat)
    requires h0 < 0x1_0000 && h1 < 0x1_0000 && h2 < 0x1_0000
    ensures r < WORD
  {
    PowersOf16();
    SignedAtFits(h3, 48);
    OrBound(h0, SignedAt(h3, 48), 64);
    OrBound(Or(h0, SignedAt(h3, 48)), 0x1_0000_0000 * h2, 64);
    OrBound(Or(Or(h0, SignedAt(h3, 48)), 0x1_0000_0000 * h2), 0x1_0000 * h1, 64);
    Or(Or(Or(h0, SignedAt(h3, 48)), 0x1_0000_0000 * h2), 0x1_0000 * h1)
  }

  /** translate_insn_addr. */
  function FetchPtr(s: Port, addr: nat): (Port, Outcome)
    requires Shaped(s) && addr < WORD
  {
    FastStep(s, FetchOp(addr))
  }

  /** The bits refill_icache assembles, or a trap on the way. */
  function Assemble(s: Port, addr: nat): (r: (Port, Got))
    requires Shaped(s) && addr < WORD
    ensures r.1.Bits? ==> r.1.bits < WORD
  {
    FastShaped(s, FetchOp(addr));
    var f0 := FetchPtr(s, addr);
    if !f0.1.At? then (f0.0, Trap)
    else
      var p := f0.1.paddr;
      var insn := ReadHalf(f0.0.mem, p);
      var n := Length(insn);
      if n == 4 then
        if addr % PAGE < PAGE - 2 then (f0.0, Bits(Or2(insn, ReadHalf(f0.0.mem, p + 2))))
        else
          FastShaped(f0.0, FetchOp((addr + 2) % WORD));
          var f1 := FetchPtr(f0.0, (addr + 2) % WORD);
          if !f1.1.At? then (f1.0, Trap)
          else (f1.0, Bits(Or2(insn, ReadHalf(f1.0.mem, f1.1.paddr))))
      else if n == 2 then (f0.0, Bits(SignedAt(insn, 0)))
      else if n == 6 then
        FastShaped(f0.0, FetchOp((addr + 4) % WORD));
        var f2 := FetchPtr(f0.0, (addr + 4) % WORD);
        if !f2.1.At? then (f2.0, Trap)
        else
          var h2 := ReadHalf(f2.0.mem, f2.1.paddr);
          FastShaped(f2.0, FetchOp((addr + 2) % WORD));
          var f1 := FetchPtr(f2.0, (addr + 2) % WORD);
          if !f1.1.At? then (f1.0, Trap)
          else (f1.0, Bits(Or3(insn, ReadHalf(f1.0.mem, f1.1.paddr), h2)))
      else
        FastShaped(f0.0, FetchOp((addr + 6) % WORD));
        var f3 := FetchPtr(f0.0, (addr + 6) % WORD);
        if !f3.1.At? then (f3.0, Trap)
        else
          var h3 := ReadHalf(f3.0.mem, f3.1.paddr);
          FastShaped(f3.0, FetchOp((addr + 4) % WORD));
          var f2 := FetchPtr(f3.0, (addr + 4) % WORD);
          if !f2.1.At? then (f2.0, Trap)
          else
            var h2 := ReadHalf(f2.0.mem, f2.1.paddr);
            FastShaped(f2.0, FetchOp((addr + 2) % WORD));
            var f1 := FetchPtr(f2.0, (addr + 2) % WORD);
            if !f1.1.At? then (f1.0, Trap)
            else (f1.0, Bits(Or4(insn, ReadHalf(f1.0.mem, f1.1.paddr), h2, h3)))
  }

  // ---------------------------------------------------- what leaves code alone

  /** No byte of code lies in an entry a walk can read. */
  ghost predicate Apart(m: seq<Byte>, r: Regs, code: iset<nat>)
    requires Paged(m) && r.root % PAGE == 0
  {
    r.vm.Paging? ==>
      forall vpn: nat, slot: nat | Visits(m, r.vm.scheme, r.root, vpn, Levels(r.vm.scheme), slot) ::
        OffSlot(code, slot, PteSize(r.vm.scheme))
  }

  ghost predicate OffSlot(code: iset<nat>, slot: nat, size: nat) {
    forall p | slot <= p < slot + size :: p !in code
  }

  /** Memory m' differs from m, but instruction fetches and code bytes do not notice. */
  ghost predicate Steady(m: seq<Byte>, m': seq<Byte>, r: Regs, code: iset<nat>)
    requires Paged(m) && r.root % PAGE == 0
  {
    && |m'| == |m|
    && (forall addr: nat | addr < WORD :: Translate(m', r, Fetch, addr) == Translate(m, r, Fetch, addr))
    && (forall p: nat | p < |m| && p in code :: m'[p] == m[p])
    && Apart(m', r, code)
  }

  lemma SteadyTrans(m: seq<Byte>, m1: seq<Byte>, m2: seq<Byte>, r: Regs, code: iset<nat>)
    requires Paged(m) && r.root % PAGE == 0 && Steady(m, m1, r, code) && Steady(m1, m2, r, code)
    ensures Steady(m, m2, r, code)
  {
    hide Translate, Apart;
  }

  lemma ApartAfter(m: seq<Byte>, r: Regs, access: Access, vpn: nat, code: iset<nat>)
    requires Paged(m) && r.root % PAGE == 0 && Apart(m, r, code)
    ensures Apart(MemAfter(m, r, access, vpn), r, code)
  {
    hide Lookup, Mark, Visits, OffSlot;
    if r.vm.Paging? && ModeFor(r, access) != Machine {
      var s, w := r.vm.scheme, Lookup(m, r, access, vpn);
      MarkSimilar(m, s, w, access);
      var m' := Mark(m, w, access);
      forall v: nat, slot: nat | Visits(m', s, r.root, v, Levels(s), slot) ensures OffSlot(code, slot, PteSize(s)) {
        VisitsSimilar(m, m', s, r.root, v, Levels(s), slot);
      }
    }
  }

  /** The flag bits a walk writes disturb no code. */
  lemma WalkSteady(m: seq<Byte>, r: Regs, access: Access, vpn: nat, code: iset<nat>)
    requires Paged(m) && r.root % PAGE == 0 && Apart(m, r, code)
    ensures Steady(m, MemAfter(m, r, access, vpn), r, code)
  {
    hide Lookup, Visits, Translate, PageFor;
    var m' := MemAfter(m, r, access, vpn);
    ApartAfter(m, r, access, vpn, code);
    forall addr: nat | addr < WORD ensures Translate(m', r, Fetch, addr) == Translate(m, r, Fetch, addr) {
      WalkKeeps(m, r, access, vpn, Fetch, addr / PAGE);
      TranslateByPage(m, r, Fetch, addr);
      TranslateByPage(m', r, Fetch, addr);
    }
    if ModeFor(r, access) != Machine && Lookup(m, r, access, vpn).Leaf? {
      LeafVisited(m, r, access, vpn);
      assert OffSlot(code, Lookup(m, r, access, vpn).slot, PteSize(r.vm.scheme));
    }
  }

  lemma NoWalkSteady(m: seq<Byte>, r: Regs, code: iset<nat>)
    requires Paged(m) && r.root % PAGE == 0 && Apart(m, r, code)
    ensures Steady(m, m, r, code)
  {
    hide Apart, Translate;
  }

  ghost predicate Ready(s: Port, code: iset<nat>) {
    Sound(s) && Uniform(s.regs) && Apart(s.mem, s.regs, code)
  }

  /** One trip through the instruction TLB. */
  lemma FetchHalf(s: Port, addr: nat, code: iset<nat>)
    requires Ready(s, code) && addr < WORD
    ensures var f := FastStep(s, FetchOp(addr)); var pa := Translate(s.mem, s.regs, Fetch, addr);
            && f.1 == (if pa < |s.mem| then At(pa) else Outside(pa))
            && f.0.regs == s.regs && Steady(s.mem, f.0.mem, s.regs, code) && Ready(f.0, code)
  {
    hide Translate, MemAfter, Apart, Coherent, FastStep;
    StepRefines(s, FetchOp(addr));
    WalkSteady(s.mem, s.regs, Fetch, addr / PAGE, code);
  }

  // ------------------------------------------------------------- assembled bits

  lemma OneHalf(h0: nat)
    requires Words16([h0])
    ensures SignedAt(h0, 0) == SignExtended([h0])
  {
    hide Pow2;
    var h := [h0];
    PowersOf16();
    assert h[0] == h0 && h[1..] == [];
    assert Halves(h) == h0;
  }

  /** A shifted halfword ends in zero bits. */
  lemma SignedAtAligned(h: nat, s: nat, p: nat)
    requires h < 0x1_0000 && p == Pow2(s) && (p == 0x1_0000 || p == 0x1_0000_0000 || p == 0x1_0000_0000_0000)
    ensures SignedAt(h, s) % p == 0
  {
    Widened(h, s, p);
    hide Pow2, SignedAt;
    var k := if h < 0x8000 then h else h + WORD / p - 0x1_0000;
    assert SignedAt(h, s) == k * p;
    DivModUnique(k, 0, p);
  }

  /** Swapping the last two operands of a chain of ors. */
  lemma OrSwaps(x: nat, y: nat, z: nat)
    ensures Or(Or(x, y), z) == Or(Or(x, z), y)
  {
    hide Or;
    OrAssociates(x, y, z);
    OrCommutes(y, z);
    OrAssociates(x, z, y);
  }

  /** The halfwords overlap nowhere, so or-ing them adds. */
  lemma OrsTwo(h0: nat, h1: nat)
    requires h0 < 0x1_0000 && h1 < 0x1_0000
    ensures Or2(h0, h1) == h0 + SignedAt(h1, 16)
  {
    hide Pow2, Or, SignedAt;
    PowersOf16();
    SignedAtAligned(h1, 16, 0x1_0000);
    OrDisjoint(h0, SignedAt(h1, 16), 16);
  }

  lemma LowTwo(h0: nat, h1: nat)
    requires h0 < 0x1_0000 && h1 < 0x1_0000
    ensures Or(h0, 0x1_0000 * h1) == h0 + 0x1_0000 * h1 < 0x1_0000_0000
  {
    hide Pow2, Or;
    PowersOf16();
    OrDisjoint(h0, 0x1_0000 * h1, 16);
  }

  lemma OrsThree(h0: nat, h1: nat, h2: nat)
    requires h0 < 0x1_0000 && h1 < 0x1_0000 && h2 < 0x1_0000
    ensures Or3(h0, h1, h2) == h0 + 0x1_0000 * h1 + SignedAt(h2, 32)
  {
    hide Pow2, SignedAt, Or;
    PowersOf16();
    OrSwaps(h0, SignedAt(h2, 32), 0x1_0000 * h1);
    LowTwo(h0, h1);
    SignedAtAligned(h2, 32, 0x1_0000_0000);
    OrDisjoint(h0 + 0x1_0000 * h1, SignedAt(h2, 32), 32);
  }

  lemma OrsFour(h0: nat, h1: nat, h2: nat, h3: nat)
    requires h0 < 0x1_0000 && h1 < 0x1_0000 && h2 < 0x1_0000 && h3 < 0x1_0000
    ensures Or4(h0, h1, h2, h3) == h0 + 0x1_0000 * h1 + 0x1_0000_0000 * h2 + SignedAt(h3, 48)
  {
    hide Pow2, SignedAt, Or;
    PowersOf16();
    var high, mid, low := SignedAt(h3, 48), 0x1_0000_0000 * h2, 0x1_0000 * h1;
    OrSwaps(h0, high, mid);
    OrSwaps(Or(h0, mid), high, low);
    OrSwaps(h0, mid, low);
    LowTwo(h0, h1);
    MidAligned(h2);
    OrDisjoint(h0 + low, mid, 32);
    SignedAtAligned(h3, 48, 0x1_0000_0000_0000);
    OrDisjoint(h0 + low + mid, high, 48);
  }

  lemma MidAligned(h: nat)
    ensures 0x1_0000_0000 * h % 0x1_0000_0000 == 0
  {
  }

  lemma TwoHalves(h0: nat, h1: nat)
    requires Words16([h0, h1])
    ensures h0 < 0x1_0000 && h1 < 0x1_0000 && Or2(h0, h1) == SignExtended([h0, h1])
  {
    hide Pow2, SignedAt, Halves, Or, Or2;
    var h := [h0, h1];
    assert h[0] == h0 && h[1] == h1;
    PowersOf16();
    HalvesTwo(h0, h1);
    Widened(h1, 16, 0x1_0000);
    OrsTwo(h0, h1);
    Wrapped(h0 + 0x1_0000 * h1, 0x1_0000_0000);
  }

  lemma ThreeHalves(h0: nat, h1: nat, h2: nat)
    requires Words16([h0, h1, h2])
    ensures h0 < 0x1_0000 && h1 < 0x1_0000 && h2 < 0x1_0000 && Or3(h0, h1, h2) == SignExtended([h0, h1, h2])
  {
    hide Pow2, SignedAt, Halves, Or, Or3;
    var h := [h0, h1, h2];
    assert h[0] == h0 && h[1] == h1 && h[2] == h2;
    PowersOf16();
    HalvesThree(h0, h1, h2);
    Widened(h2, 32, 0x1_0000_0000);
    OrsThree(h0, h1, h2);
    Wrapped(h0 + 0x1_0000 * h1 + 0x1_0000_0000 * h2, 0x1_0000_0000_0000);
  }

  lemma FourHalves(h0: nat, h1: nat, h2: nat, h3: nat)
    requires Words16([h0, h1, h2, h3])
    ensures h0 < 0x1_0000 && h1 < 0x1_0000 && h2 < 0x1_0000 && h3 < 0x1_0000 && Or4(h0, h1, h2, h3) == SignExtended([h0, h1, h2, h3])
  {
    hide Pow2, SignedAt, Halves, Or, Or4;
    var h := [h0, h1, h2, h3];
    assert h[0] == h0 && h[1] == h1 && h[2] == h2 && h[3] == h3;
    PowersOf16();
    HalvesFour(h0, h1, h2, h3);
    Widened(h3, 48, 0x1_0000_0000_0000);
    OrsFour(h0, h1, h2, h3);
    Wrapped(h0 + 0x1_0000 * h1 + 0x1_0000_0000 * h2 + 0x1_0000_0000_0000 * h3, WORD);
  }

  lemma PowersOf16()
    ensures Pow2(0) == 1 && Pow2(16) == 0x1_0000 && Pow2(32) == 0x1_0000_0000 && Pow2(48) == 0x1_0000_0000_0000 && Pow2(64) == WORD
  {
    Pow2Values();
    Pow2Add(8, 8);
    Pow2Add(16, 32);
    Pow2Add(32, 32);
  }

  /** A signed halfword shifted up by s, where p is two to the power s. */
  lemma Widened(h: nat, s: nat, p: nat)
    requires h < 0x1_0000 && p == Pow2(s) && (p == 0x1_0000 || p == 0x1_0000_0000 || p == 0x1_0000_0000_0000)
    ensures SignedAt(h, s) == if h < 0x8000 then h * p else h * p + WORD - 0x1_0000 * p
  {
    if h >= 0x8000 {
      DivModUnique(p - 1, h * p + WORD - 0x1_0000 * p, WORD);
    }
  }

  lemma Wrapped(v: nat, p: nat)
    requires v < p <= WORD
    ensures (v + WORD - p) % WORD == v + WORD - p
  {
  }

  lemma HalvesTwo(h0: nat, h1: nat)
    ensures Halves([h0, h1]) == h0 + 0x1_0000 * h1
  {
    assert [h0, h1][1..] == [h1] && [h1][1..] == [];
    assert Halves([h1]) == h1;
  }

  lemma HalvesThree(h0: nat, h1: nat, h2: nat)
    ensures Halves([h0, h1, h2]) == h0 + 0x1_0000 * h1 + 0x1_0000_0000 * h2
  {
    assert [h0, h1, h2][1..] == [h1, h2];
    HalvesTwo(h1, h2);
  }

  lemma HalvesFour(h0: nat, h1: nat, h2: nat, h3: nat)
    ensures Halves([h0, h1, h2, h3]) == h0 + 0x1_0000 * h1 + 0x1_0000_0000 * h2 + 0x1_0000_0000_0000 * h3
  {
    assert [h0, h1, h2, h3][1..] == [h1, h2, h3];
    HalvesThree(h1, h2, h3);
  }

  // --------------------------------------------------- refills read plain instructions

  /** The instruction at addr lies in code, as far as it translates. */
  ghost predicate InCode(m: seq<Byte>, r: Regs, addr: nat, code: iset<nat>)
    requires Paged(m) && r.root % PAGE == 0
  {
    HalfAddr(m, r, addr, 0) < |m| ==>
      forall k | 0 <= k < Length(ReadHalf(m, HalfAddr(m, r, addr, 0))) / 2 :: HalfIn(m, HalfAddr(m, r, addr, k), code)
  }

  ghost predicate HalfIn(m: seq<Byte>, p: nat, code: iset<nat>) {
    p < |m| ==> p in code && p + 1 in code
  }

  /** A halfword read through the instruction TLB, some steps after m0. */
  lemma HalfRead(m0: seq<Byte>, s: Port, a: nat, code: iset<nat>)
    requires Ready(s, code) && Paged(m0) && Steady(m0, s.mem, s.regs, code) && a < WORD && a % 2 == 0
    requires HalfIn(m0, Translate(m0, s.regs, Fetch, a), code)
    ensures var f := FetchPtr(s, a); var p := Translate(m0, s.regs, Fetch, a);
            && f.1 == (if p < |m0| then At(p) else Outside(p))
            && (p < |m0| ==> ReadHalf(f.0.mem, p) == ReadHalf(m0, p))
            && f.0.regs == s.regs && Steady(m0, f.0.mem, s.regs, code) && Ready(f.0, code)
  {
    hide Translate, Apart, Coherent, FastStep, Ready;
    ReadyIs(s, code);
    FetchHalf(s, a, code);
    SteadyTrans(m0, s.mem, FastStep(s, FetchOp(a)).0.mem, s.regs, code);
    var p := Translate(m0, s.regs, Fetch, a);
    if p < |m0| {
      Aligned(m0, s.regs, Fetch, a, 2);
    }
  }

  lemma ReadyIs(s: Port, code: iset<nat>)
    requires Ready(s, code)
    ensures Shaped(s) && Steady(s.mem, s.mem, s.regs, code)
  {
    NoWalkSteady(s.mem, s.regs, code);
  }

  /** Inside a page the next halfword follows in memory. */
  lemma NextHalf(m: seq<Byte>, r: Regs, addr: nat)
    requires Paged(m) && r.root % PAGE == 0 && addr < WORD && addr % PAGE < PAGE - 2 && HalfAddr(m, r, addr, 0) < |m| < WORD
    ensures HalfAddr(m, r, addr, 1) == HalfAddr(m, r, addr, 0) + 2
  {
    hide Translate, PageFor;
    assert (addr + 2) / PAGE == addr / PAGE && (addr + 2) % PAGE == addr % PAGE + 2;
    TranslateByPage(m, r, Fetch, addr);
    TranslateByPage(m, r, Fetch, addr + 2);
  }

  lemma EvenStep(addr: nat, k: nat)
    requires addr % 2 == 0
    ensures (addr + 2 * k) % WORD % 2 == 0
  {
  }

  ghost predicate Agrees(m: seq<Byte>, s: Port, addr: nat, code: iset<nat>)
    requires Shaped(s) && Paged(m) && addr < WORD
  {
    var f := Assemble(s, addr);
    f.1 == PlainInsn(m, s.regs, addr) && f.0.regs == s.regs && Steady(m, f.0.mem, s.regs, code) && Ready(f.0, code)
  }

  /** What refill_icache assembles is the instruction memory holds, page crossings and
      traps included. */
  lemma AssembleCorrect(s: Port, addr: nat, code: iset<nat>)
    requires Ready(s, code) && addr < WORD && addr % 2 == 0 && InCode(s.mem, s.regs, addr, code)
    ensures Agrees(s.mem, s, addr, code)
  {
    hide Translate, Apart, Coherent, Ready, Steady, FetchPtr, SignExtended, SignedAt, Assemble, Agrees;
    var m, r := s.mem, s.regs;
    ReadyIs(s, code);
    assert (addr + 2 * 0) % WORD == addr;
    var q0 := HalfAddr(m, r, addr, 0);
    if q0 >= |m| {
      FirstTraps(s, addr, code);
    } else {
      var n := Length(ReadHalf(m, q0));
      assert HalfIn(m, HalfAddr(m, r, addr, 0), code);
      if n == 2 {
        AssembleTwo(s, addr, code);
      } else if n == 4 {
        assert HalfIn(m, HalfAddr(m, r, addr, 1), code);
        AssembleFour(s, addr, code);
      } else if n == 6 {
        assert HalfIn(m, HalfAddr(m, r, addr, 1), code) && HalfIn(m, HalfAddr(m, r, addr, 2), code);
        AssembleSix(s, addr, code);
      } else {
        assert HalfIn(m, HalfAddr(m, r, addr, 1), code) && HalfIn(m, HalfAddr(m, r, addr, 2), code) && HalfIn(m, HalfAddr(m, r, addr, 3), code);
        AssembleEight(s, addr, code);
      }
    }
  }

  lemma FirstTraps(s: Port, addr: nat, code: iset<nat>)
    requires Ready(s, code) && addr < WORD && addr % 2 == 0 && Shaped(s) && HalfAddr(s.mem, s.regs, addr, 0) >= |s.mem|
    ensures Agrees(s.mem, s, addr, code)
  {
    hide Translate, Apart, Coherent, Ready, Steady, FetchPtr, SignExtended, SignedAt;
    ReadyIs(s, code);
    HalfRead(s.mem, s, addr, code);
  }

  lemma AssembleTwo(s: Port, addr: nat, code: iset<nat>)
    requires Ready(s, code) && addr < WORD && addr % 2 == 0 && Shaped(s)
    requires var q0 := HalfAddr(s.mem, s.regs, addr, 0);
             q0 < |s.mem| && HalfIn(s.mem, q0, code) && Length(ReadHalf(s.mem, q0)) == 2
    ensures Agrees(s.mem, s, addr, code)
  {
    hide Translate, Apart, Coherent, Ready, Steady, FetchPtr, SignExtended, SignedAt, ReadHalf, Or2, Or3, Or4;
    var m, r := s.mem, s.regs;
    ReadyIs(s, code);
    HalfRead(m, s, addr, code);
    var h0 := ReadHalf(m, HalfAddr(m, r, addr, 0));
    OneHalf(h0);
    assert seq(1, k requires 0 <= k < 1 => ReadHalf(m, HalfAddr(m, r, addr, k))) == [h0];
  }

  lemma AssembleFour(s: Port, addr: nat, code: iset<nat>)
    requires Ready(s, code) && addr < WORD && addr % 2 == 0 && Shaped(s)
    requires var q0 := HalfAddr(s.mem, s.regs, addr, 0);
             q0 < |s.mem| && HalfIn(s.mem, q0, code) && Length(ReadHalf(s.mem, q0)) == 4
    requires HalfIn(s.mem, HalfAddr(s.mem, s.regs, addr, 1), code)
    ensures Agrees(s.mem, s, addr, code)
  {
    hide Translate, Apart, Coherent, Ready, Steady, FetchPtr, SignExtended, SignedAt, ReadHalf, Or2, Or3, Or4;
    var m, r := s.mem, s.regs;
    ReadyIs(s, code);
    HalfRead(m, s, addr, code);
    var f0 := FetchPtr(s, addr).0;
    var q0, q1 := HalfAddr(m, r, addr, 0), HalfAddr(m, r, addr, 1);
    var h0, h1 := ReadHalf(m, q0), ReadHalf(m, q1);
    TwoHalves(h0, h1);
    assert seq(2, k requires 0 <= k < 2 => ReadHalf(m, HalfAddr(m, r, addr, k))) == [h0, h1];
    if addr % PAGE < PAGE - 2 {
      NextHalf(m, r, addr);
      SteadyHalf(m, f0.mem, r, code, q1, addr + 2);
    } else {
      EvenStep(addr, 1);
      ReadyIs(f0, code);
      HalfRead(m, f0, (addr + 2) % WORD, code);
    }
  }

  lemma AssembleSix(s: Port, addr: nat, code: iset<nat>)
    requires Ready(s, code) && addr < WORD && addr % 2 == 0 && Shaped(s)
    requires var q0 := HalfAddr(s.mem, s.regs, addr, 0);
             q0 < |s.mem| && HalfIn(s.mem, q0, code) && Length(ReadHalf(s.mem, q0)) == 6
    requires HalfIn(s.mem, HalfAddr(s.mem, s.regs, addr, 1), code) && HalfIn(s.mem, HalfAddr(s.mem, s.regs, addr, 2), code)
    ensures Agrees(s.mem, s, addr, code)
  {
    hide Translate, Apart, Coherent, Ready, Steady, FetchPtr, SignExtended, SignedAt, ReadHalf, Or2, Or3, Or4;
    var m, r := s.mem, s.regs;
    ReadyIs(s, code);
    HalfRead(m, s, addr, code);
    EvenStep(addr, 1);
    EvenStep(addr, 2);
    var f0 := FetchPtr(s, addr).0;
    ReadyIs(f0, code);
    HalfRead(m, f0, (addr + 4) % WORD, code);
    var f2 := FetchPtr(f0, (addr + 4) % WORD).0;
    var q0, q1, q2 := HalfAddr(m, r, addr, 0), HalfAddr(m, r, addr, 1), HalfAddr(m, r, addr, 2);
    if q2 < |m| {
      ReadyIs(f2, code);
      HalfRead(m, f2, (addr + 2) % WORD, code);
      var h0, h1, h2 := ReadHalf(m, q0), ReadHalf(m, q1), ReadHalf(m, q2);
      ThreeHalves(h0, h1, h2);
      assert seq(3, k requires 0 <= k < 3 => ReadHalf(m, HalfAddr(m, r, addr, k))) == [h0, h1, h2];
    }
  }

  lemma AssembleEight(s: Port, addr: nat, code: iset<nat>)
    requires Ready(s, code) && addr < WORD && addr % 2 == 0 && Shaped(s)
    requires var q0 := HalfAddr(s.mem, s.regs, addr, 0);
             q0 < |s.mem| && HalfIn(s.mem, q0, code) && Length(ReadHalf(s.mem, q0)) == 8
    requires HalfIn(s.mem, HalfAddr(s.mem, s.regs, addr, 1), code) && HalfIn(s.mem, HalfAddr(s.mem, s.regs, addr, 2), code)
    requires HalfIn(s.mem, HalfAddr(s.mem, s.regs, addr, 3), code)
    ensures Agrees(s.mem, s, addr, code)
  {
    hide Translate, Apart, Coherent, Ready, Steady, FetchPtr, SignExtended, SignedAt, ReadHalf, Or2, Or3, Or4;
    var m, r := s.mem, s.regs;
    ReadyIs(s, code);
    HalfRead(m, s, addr, code);
    EvenStep(addr, 1);
    EvenStep(addr, 2);
    EvenStep(addr, 3);
    var f0 := FetchPtr(s, addr).0;
    ReadyIs(f0, code);
    HalfRead(m, f0, (addr + 6) % WORD, code);
    var f3 := FetchPtr(f0, (addr + 6) % WORD).0;
    var q0, q1, q2, q3 := HalfAddr(m, r, addr, 0), HalfAddr(m, r, addr, 1), HalfAddr(m, r, addr, 2), HalfAddr(m, r, addr, 3);
    if q3 < |m| {
      ReadyIs(f3, code);
      HalfRead(m, f3, (addr + 4) % WORD, code);
      var f2 := FetchPtr(f3, (addr + 4) % WORD).0;
      if q2 < |m| {
        ReadyIs(f2, code);
        HalfRead(m, f2, (addr + 2) % WORD, code);
        var h0, h1, h2, h3 := ReadHalf(m, q0), ReadHalf(m, q1), ReadHalf(m, q2), ReadHalf(m, q3);
        FourHalves(h0, h1, h2, h3);
        assert seq(4, k requires 0 <= k < 4 => ReadHalf(m, HalfAddr(m, r, addr, k))) == [h0, h1, h2, h3];
      }
    }
  }

  lemma SteadyHalf(m: seq<Byte>, m': seq<Byte>, r: Regs, code: iset<nat>, q: nat, a: nat)
    requires Paged(m) && r.root % PAGE == 0 && Steady(m, m', r, code) && HalfIn(m, q, code) && |m| < WORD
    requires q == Translate(m, r, Fetch, a) && a % 2 == 0 && a % PAGE >= 2
    requires q < |m| + 2
    ensures ReadHalf(m', q) == ReadHalf(m, q) && q + 2 <= |m|
  {
    hide Translate, Apart, PageFor;
    TranslateByPage(m, r, Fetch, a);
    Aligned(m, r, Fetch, a, 2);
  }
}
