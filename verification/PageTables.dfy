/** Page-table walks over physical memory, and what may change in memory without
    changing a walk. */
module PageTables {
  import opened Powers
  import opened Bitwise

  const PAGE: nat := 4096
  const WORD: nat := 0x1_0000_0000_0000_0000

  type Byte = x: int | 0 <= x < 256

  datatype Access = Load | Store | Fetch

  datatype Scheme = Sv32 | Sv39 | Sv48

  function Levels(s: Scheme): nat {
    match s case Sv32 => 2 case Sv39 => 3 case Sv48 => 4
  }

  function IndexBits(s: Scheme): nat { if s == Sv32 then 10 else 9 }

  function PteSize(s: Scheme): nat { if s == Sv32 then 4 else 8 }

  /** Physical memory is a whole number of pages. */
  ghost predicate Paged(m: seq<Byte>) { |m| % PAGE == 0 }

  /** The little-endian number in n bytes at a. */
  function Le(m: seq<Byte>, a: nat, n: nat): (v: nat)
    requires a + n <= |m|
    decreases n
  {
    if n == 0 then 0 else m[a] + 256 * Le(m, a + 1, n - 1)
  }

  function Bit(mask: nat, k: nat): bool { mask / Pow2(k) % 2 == 1 }

  /** PTE_TABLE: the entry points to the next level. */
  predicate IsTable(pte: nat) { Bit(0xA, pte % 32) }

  /** PTE_CHECK_PERM: the entry is a leaf that allows the access. */
  predicate Permits(pte: nat, supervisor: bool, access: Access) {
    match access
    case Store => Bit(if supervisor then 0x8888_8880 else 0x8880, pte % 32)
    case Fetch => Bit(if supervisor then 0xA0A0_A000 else 0xA0A0, pte % 32)
    case Load => Bit(if supervisor then 0xAAAA_AAA0 else 0xAAA0, pte % 32)
  }

  function Shift(s: Scheme, level: nat): nat
    requires level > 0
  {
    (level - 1) * IndexBits(s)
  }

  function Index(s: Scheme, vpn: nat, level: nat): (idx: nat)
    requires level > 0
    ensures idx * PteSize(s) + PteSize(s) <= PAGE
  {
    assert Pow2(9) == 512 && Pow2(10) == 1024;
    vpn / Pow2(Shift(s, level)) % Pow2(IndexBits(s))
  }

  /** The entry's address; base is page-aligned, so an entry that starts in memory
      lies in memory. */
  function Slot(s: Scheme, base: nat, vpn: nat, level: nat): (slot: nat)
    requires level > 0 && base % PAGE == 0
    ensures slot % PteSize(s) == 0 && base <= slot && slot + PteSize(s) <= base + PAGE
  {
    SlotAligned(s, base, Index(s, vpn, level));
    base + Index(s, vpn, level) * PteSize(s)
  }

  lemma SlotAligned(s: Scheme, base: nat, idx: nat)
    requires base % PAGE == 0
    ensures (base + idx * PteSize(s)) % PteSize(s) == 0 && base <= base + idx * PteSize(s)
  {
    var q := base / PAGE;
    if s == Sv32 {
      DivModUnique(1024 * q + idx, 0, 4);
    } else {
      DivModUnique(512 * q + idx, 0, 8);
    }
  }

  /** An entry that starts in memory lies in memory. */
  lemma EntryFits(m: seq<Byte>, s: Scheme, base: nat, vpn: nat, level: nat)
    requires Paged(m) && level > 0 && base % PAGE == 0 && Slot(s, base, vpn, level) < |m|
    ensures Slot(s, base, vpn, level) + PteSize(s) <= |m|
  {
    hide Slot;
  }

  function Next(pte: nat): (base: nat)
    ensures base % PAGE == 0 && base < WORD
  {
    PageWord(pte / 1024);
    pte / 1024 * PAGE % WORD
  }

  lemma PageWord(n: nat)
    ensures n * PAGE % WORD % PAGE == 0
  {
    var h, l := n / 0x10_0000_0000_0000, n % 0x10_0000_0000_0000;
    assert n * PAGE == h * WORD + l * PAGE;
    DivModUnique(h, l * PAGE, WORD);
  }

  datatype Walked = Fault | Leaf(slot: nat, ppn: nat, shift: nat)

  /** The loop of mmu_t::walk, with level levels to go. */
  function WalkFrom(m: seq<Byte>, s: Scheme, base: nat, vpn: nat, level: nat, supervisor: bool, access: Access): (w: Walked)
    requires Paged(m) && base % PAGE == 0
    ensures w.Leaf? ==> w.slot + PteSize(s) <= |m| && w.slot % PteSize(s) == 0
    decreases level
  {
    if level == 0 then Fault
    else
      var slot := Slot(s, base, vpn, level);
      if slot >= |m| then Fault
      else
        EntryFits(m, s, base, vpn, level);
        var pte := Le(m, slot, PteSize(s));
        if IsTable(pte) then WalkFrom(m, s, Next(pte), vpn, level - 1, supervisor, access)
        else if !Permits(pte, supervisor, access) then Fault
        else Leaf(slot, pte / 1024, Shift(s, level))
  }

  /** The address bits above the scheme's range copy its top bit. */
  predicate Canonical(s: Scheme, vpn: nat) {
    match s
    case Sv32 => var msbs := vpn / Pow2(19) % 2; msbs == 0 || msbs == 1
    case Sv39 => var msbs := vpn / Pow2(26) % Pow2(26); msbs == 0 || msbs == Pow2(26) - 1
    case Sv48 => var msbs := vpn / Pow2(35) % Pow2(17); msbs == 0 || msbs == Pow2(17) - 1
  }

  function Walk(m: seq<Byte>, s: Scheme, root: nat, vpn: nat, supervisor: bool, access: Access): (w: Walked)
    requires Paged(m) && root % PAGE == 0
    ensures w.Leaf? ==> w.slot + PteSize(s) <= |m| && w.slot % PteSize(s) == 0
  {
    if Canonical(s, vpn) then WalkFrom(m, s, root, vpn, Levels(s), supervisor, access) else Fault
  }

  /** The physical page a leaf gives; a leaf above the last level maps a superpage. */
  function FrameOf(w: Walked, vpn: nat): (p: nat)
    requires w.Leaf?
    ensures p % PAGE == 0 && p < WORD
  {
    PageWord(Or(w.ppn, vpn % Pow2(w.shift)));
    Or(w.ppn, vpn % Pow2(w.shift)) * PAGE % WORD
  }

  /** An aligned superpage maps consecutive virtual pages to consecutive physical ones. */
  lemma SuperpageContiguous(w: Walked, vpn: nat)
    requires w.Leaf? && w.ppn % Pow2(w.shift) == 0 && (w.ppn + Pow2(w.shift)) * PAGE <= WORD
    ensures FrameOf(w, vpn) == (w.ppn + vpn % Pow2(w.shift)) * PAGE
  {
    hide Pow2, Or;
    var low := vpn % Pow2(w.shift);
    OrDisjoint(low, w.ppn, w.shift);
    OrCommutes(w.ppn, low);
  }

  // ------------------------------------------------------------------ R and D bits

  function WithBit(b: Byte, weight: nat): (r: Byte)
    requires weight == 32 || weight == 64
    ensures r % 32 == b % 32 && r / weight % 2 == 1
    ensures (b / 32 % 2 == 1 ==> r / 32 % 2 == 1) && (b / 64 % 2 == 1 ==> r / 64 % 2 == 1)
  {
    if b / weight % 2 == 1 then b else b + weight
  }

  /** The low byte of an entry after a walk set R, and D for a store. */
  function WithRD(b: Byte, access: Access): (r: Byte) {
    if access == Store then WithBit(WithBit(b, 32), 64) else WithBit(b, 32)
  }

  /** Memory after a walk. */
  function Mark(m: seq<Byte>, w: Walked, access: Access): (m': seq<Byte>)
    requires w.Leaf? ==> w.slot < |m|
    ensures |m'| == |m|
  {
    if w.Fault? then m else m[w.slot := WithRD(m[w.slot], access)]
  }

  /** Memories that differ only in the flag bits of entries' low bytes. */
  ghost predicate Similar(m1: seq<Byte>, m2: seq<Byte>, size: nat)
    requires size > 0
  {
    |m1| == |m2| && forall i | 0 <= i < |m1| :: m1[i] == m2[i] || (i % size == 0 && m1[i] % 32 == m2[i] % 32)
  }

  lemma {:induction false} SameTail(m1: seq<Byte>, m2: seq<Byte>, a: nat, n: nat)
    requires |m1| == |m2| && a + n <= |m1| && forall i | a <= i < a + n :: m1[i] == m2[i]
    ensures Le(m1, a, n) == Le(m2, a, n)
    decreases n
  {
    if n > 0 {
      SameTail(m1, m2, a + 1, n - 1);
    }
  }

  /** The flag bits are neither type nor page number. */
  lemma PteParts(m: seq<Byte>, a: nat, n: nat)
    requires a + n <= |m| && n > 0
    ensures Le(m, a, n) % 32 == m[a] % 32 && Le(m, a, n) / 1024 == Le(m, a + 1, n - 1) / 4
  {
    var rest := Le(m, a + 1, n - 1);
    assert Le(m, a, n) == m[a] + 256 * rest;
    assert rest == rest / 4 * 4 + rest % 4;
  }

  lemma SimilarPte(m1: seq<Byte>, m2: seq<Byte>, size: nat, slot: nat)
    requires size > 0 && Similar(m1, m2, size) && slot + size <= |m1| && slot % size == 0
    ensures Le(m1, slot, size) % 32 == Le(m2, slot, size) % 32 && Le(m1, slot, size) / 1024 == Le(m2, slot, size) / 1024
  {
    forall i | slot + 1 <= i < slot + size ensures m1[i] == m2[i] {
      InsideSlot(slot, size, i);
    }
    SameTail(m1, m2, slot + 1, size - 1);
    PteParts(m1, slot, size);
    PteParts(m2, slot, size);
  }

  lemma InsideSlot(slot: nat, size: nat, i: nat)
    requires size > 0 && slot % size == 0 && slot < i < slot + size
    ensures i % size != 0
  {
    var q := slot / size;
    assert slot == q * size;
    DivModUnique(q, i - slot, size);
  }

  lemma SameMeaning(pte1: nat, pte2: nat, supervisor: bool, access: Access)
    requires pte1 % 32 == pte2 % 32 && pte1 / 1024 == pte2 / 1024
    ensures IsTable(pte1) == IsTable(pte2) && Permits(pte1, supervisor, access) == Permits(pte2, supervisor, access)
    ensures Next(pte1) == Next(pte2)
  {
    hide Bit;
  }

  /** Flag bits never change a walk. */
  lemma {:induction false} WalkFromSimilar(m1: seq<Byte>, m2: seq<Byte>, s: Scheme, base: nat, vpn: nat, level: nat, supervisor: bool, access: Access)
    requires Paged(m1) && Similar(m1, m2, PteSize(s)) && base % PAGE == 0
    ensures WalkFrom(m1, s, base, vpn, level, supervisor, access) == WalkFrom(m2, s, base, vpn, level, supervisor, access)
    decreases level
  {
    hide Le, Bit, Slot, IsTable, Permits, Next;
    if level > 0 {
      var slot := Slot(s, base, vpn, level);
      if slot < |m1| {
        EntryFits(m1, s, base, vpn, level);
        SimilarPte(m1, m2, PteSize(s), slot);
        var pte := Le(m1, slot, PteSize(s));
        SameMeaning(pte, Le(m2, slot, PteSize(s)), supervisor, access);
        if IsTable(pte) {
          WalkFromSimilar(m1, m2, s, Next(pte), vpn, level - 1, supervisor, access);
        }
      }
    }
  }

  lemma MarkSimilar(m: seq<Byte>, s: Scheme, w: Walked, access: Access)
    requires w.Leaf? ==> w.slot < |m| && w.slot % PteSize(s) == 0
    ensures Similar(m, Mark(m, w, access), PteSize(s))
  {
  }

  /** What one walk writes no other walk can tell, whatever its address, access and
      privilege. */
  lemma MarkInvisible(m: seq<Byte>, s: Scheme, root: nat, vpn: nat, sup: bool, access: Access, vpn': nat, sup': bool, access': Access)
    requires Paged(m) && root % PAGE == 0
    ensures var m' := Mark(m, Walk(m, s, root, vpn, sup, access), access);
            Walk(m', s, root, vpn', sup', access') == Walk(m, s, root, vpn', sup', access')
  {
    hide WalkFrom, Canonical, Mark, Similar;
    var w := Walk(m, s, root, vpn, sup, access);
    MarkSimilar(m, s, w, access);
    WalkFromSimilar(m, Mark(m, w, access), s, root, vpn', Levels(s), sup', access');
  }

  /** Two accesses that both succeed reach the same leaf: permissions only decide
      whether a walk succeeds. */
  lemma {:induction false} WalkFromAgrees(m: seq<Byte>, s: Scheme, base: nat, vpn: nat, level: nat, sup1: bool, access1: Access, sup2: bool, access2: Access)
    requires Paged(m) && base % PAGE == 0
    requires WalkFrom(m, s, base, vpn, level, sup1, access1).Leaf? && WalkFrom(m, s, base, vpn, level, sup2, access2).Leaf?
    ensures WalkFrom(m, s, base, vpn, level, sup1, access1) == WalkFrom(m, s, base, vpn, level, sup2, access2)
    decreases level
  {
    hide Le, Bit, Slot;
    var slot := Slot(s, base, vpn, level);
    EntryFits(m, s, base, vpn, level);
    var pte := Le(m, slot, PteSize(s));
    if IsTable(pte) {
      WalkFromAgrees(m, s, Next(pte), vpn, level - 1, sup1, access1, sup2, access2);
    }
  }

  // ------------------------------------------------------------- writing elsewhere

  /** The walk of vpn reads the entry at slot. */
  ghost predicate Visits(m: seq<Byte>, s: Scheme, base: nat, vpn: nat, level: nat, slot: nat)
    requires Paged(m) && base % PAGE == 0
    decreases level
  {
    level > 0 &&
    var here := Slot(s, base, vpn, level);
    here < |m| &&
    (EntryFits(m, s, base, vpn, level);
     var pte := Le(m, here, PteSize(s));
     slot == here || (IsTable(pte) && Visits(m, s, Next(pte), vpn, level - 1, slot)))
  }

  /** The n bytes at a are in no page-table entry a walk from root can read. */
  ghost predicate Clear(m: seq<Byte>, s: Scheme, root: nat, a: nat, n: nat)
    requires Paged(m) && root % PAGE == 0
  {
    forall vpn: nat, slot: nat | Visits(m, s, root, vpn, Levels(s), slot) :: slot + PteSize(s) <= a || a + n <= slot
  }

  ghost predicate SameBytes(m1: seq<Byte>, m2: seq<Byte>, a: nat, n: nat)
    requires |m1| == |m2|
  {
    forall i | a <= i < a + n && i < |m1| :: m1[i] == m2[i]
  }

  /** Memory agrees on every entry the walk of vpn reads. */
  ghost predicate SameEntries(m1: seq<Byte>, m2: seq<Byte>, s: Scheme, base: nat, vpn: nat, level: nat)
    requires Paged(m1) && base % PAGE == 0 && |m2| == |m1|
  {
    forall slot: nat | Visits(m1, s, base, vpn, level, slot) :: SameBytes(m1, m2, slot, PteSize(s))
  }

  lemma {:induction false} WalkFromUntouched(m1: seq<Byte>, m2: seq<Byte>, s: Scheme, base: nat, vpn: nat, level: nat, supervisor: bool, access: Access)
    requires Paged(m1) && |m2| == |m1| && base % PAGE == 0 && SameEntries(m1, m2, s, base, vpn, level)
    ensures var w := WalkFrom(m1, s, base, vpn, level, supervisor, access);
            WalkFrom(m2, s, base, vpn, level, supervisor, access) == w && (w.Leaf? ==> Visits(m1, s, base, vpn, level, w.slot))
    decreases level
  {
    hide Le, Bit, Slot, IsTable, Permits, Next;
    if level > 0 {
      var slot := Slot(s, base, vpn, level);
      if slot < |m1| {
        EntryFits(m1, s, base, vpn, level);
        assert Visits(m1, s, base, vpn, level, slot);
        SameTail(m1, m2, slot, PteSize(s));
        var pte := Le(m1, slot, PteSize(s));
        if IsTable(pte) {
          forall t: nat | Visits(m1, s, Next(pte), vpn, level - 1, t) ensures SameBytes(m1, m2, t, PteSize(s)) {
            assert Visits(m1, s, base, vpn, level, t);
          }
          WalkFromUntouched(m1, m2, s, Next(pte), vpn, level - 1, supervisor, access);
        }
      }
    }
  }

  lemma {:induction false} VisitsUntouched(m1: seq<Byte>, m2: seq<Byte>, s: Scheme, base: nat, vpn: nat, level: nat, slot: nat)
    requires Paged(m1) && |m2| == |m1| && base % PAGE == 0 && SameEntries(m1, m2, s, base, vpn, level)
    ensures Visits(m2, s, base, vpn, level, slot) == Visits(m1, s, base, vpn, level, slot)
    decreases level
  {
    hide Le, Bit, Slot, IsTable, Next;
    if level > 0 {
      var here := Slot(s, base, vpn, level);
      if here < |m1| {
        EntryFits(m1, s, base, vpn, level);
        assert Visits(m1, s, base, vpn, level, here);
        SameTail(m1, m2, here, PteSize(s));
        var pte := Le(m1, here, PteSize(s));
        if IsTable(pte) {
          forall t: nat | Visits(m1, s, Next(pte), vpn, level - 1, t) ensures SameBytes(m1, m2, t, PteSize(s)) {
            assert Visits(m1, s, base, vpn, level, t);
          }
          VisitsUntouched(m1, m2, s, Next(pte), vpn, level - 1, slot);
        }
      }
    }
  }

  lemma {:induction false} VisitsSimilar(m1: seq<Byte>, m2: seq<Byte>, s: Scheme, base: nat, vpn: nat, level: nat, slot: nat)
    requires Paged(m1) && Similar(m1, m2, PteSize(s)) && base % PAGE == 0
    ensures Visits(m2, s, base, vpn, level, slot) == Visits(m1, s, base, vpn, level, slot)
    decreases level
  {
    hide Le, Bit, Slot, IsTable, Permits, Next;
    if level > 0 {
      var here := Slot(s, base, vpn, level);
      if here < |m1| {
        EntryFits(m1, s, base, vpn, level);
        SimilarPte(m1, m2, PteSize(s), here);
        var pte := Le(m1, here, PteSize(s));
        SameMeaning(pte, Le(m2, here, PteSize(s)), true, Load);
        if IsTable(pte) {
          VisitsSimilar(m1, m2, s, Next(pte), vpn, level - 1, slot);
        }
      }
    }
  }

  /** A walk's own writes do not move the page table. */
  lemma ClearAfterMark(m: seq<Byte>, s: Scheme, root: nat, w: Walked, access: Access, a: nat, n: nat)
    requires Paged(m) && root % PAGE == 0 && Clear(m, s, root, a, n)
    requires w.Leaf? ==> w.slot < |m| && w.slot % PteSize(s) == 0
    ensures Clear(Mark(m, w, access), s, root, a, n)
  {
    var m' := Mark(m, w, access);
    MarkSimilar(m, s, w, access);
    hide Visits, Mark;
    forall vpn: nat, slot: nat | Visits(m', s, root, vpn, Levels(s), slot) ensures slot + PteSize(s) <= a || a + n <= slot {
      VisitsSimilar(m, m', s, root, vpn, Levels(s), slot);
    }
  }

  /** Bytes written clear of the page table leave every walk alone, and the entries it
      reads. */
  lemma WalkUntouched(m1: seq<Byte>, m2: seq<Byte>, s: Scheme, root: nat, a: nat, n: nat, vpn: nat, supervisor: bool, access: Access)
    requires Paged(m1) && |m2| == |m1| && root % PAGE == 0 && Clear(m1, s, root, a, n)
    requires forall i | 0 <= i < |m1| && !(a <= i < a + n) :: m1[i] == m2[i]
    ensures var w := Walk(m1, s, root, vpn, supervisor, access);
            Walk(m2, s, root, vpn, supervisor, access) == w && (w.Leaf? ==> m2[w.slot] == m1[w.slot])
  {
    hide Visits;
    assert SameEntries(m1, m2, s, root, vpn, Levels(s));
    WalkFromUntouched(m1, m2, s, root, vpn, Levels(s), supervisor, access);
    hide Clear;
    var w := Walk(m1, s, root, vpn, supervisor, access);
    if w.Leaf? {
      assert Visits(m1, s, root, vpn, Levels(s), w.slot);
      assert SameBytes(m1, m2, w.slot, PteSize(s));
    }
  }

  /** Bits once set stay set. */
  lemma MarksStay(m: seq<Byte>, w: Walked, access: Access, slot: nat, access': Access)
    requires slot < |m| && (w.Leaf? ==> w.slot < |m|)
    requires WithRD(m[slot], access') == m[slot]
    ensures WithRD(Mark(m, w, access)[slot], access') == Mark(m, w, access)[slot]
  {
    if w.Leaf? && w.slot == slot {
      BitsStay(m[slot], access, access');
    }
  }

  lemma BitsStay(b: Byte, access: Access, access': Access)
    requires WithRD(b, access') == b
    ensures WithRD(WithRD(b, access), access') == WithRD(b, access)
  {
    hide WithRD;
    RDSet(b, access');
    RDSet(b, access);
    RDSet(WithRD(b, access), access');
  }

  /** WithRD leaves a byte alone exactly when its bits are set. */
  lemma RDSet(b: Byte, access: Access)
    ensures WithRD(b, access) == b <==> (b / 32 % 2 == 1 && (access == Store ==> b / 64 % 2 == 1))
    ensures var r := WithRD(b, access); r / 32 % 2 == 1 && (access == Store ==> r / 64 % 2 == 1)
    ensures b / 64 % 2 == 1 ==> WithRD(b, access) / 64 % 2 == 1
  {
  }
}
