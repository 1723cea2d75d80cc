/** When the TLB is invisible: exactly when fetches and data accesses translate alike. */
module TlbSharing {
  import opened Powers
  import opened PageTables
  import opened TlbMachine

  /** A run of accesses and flushes under fixed registers, with stores clear of the
      page table. */
  ghost predicate Orderly(m: seq<Byte>, r: Regs, ops: seq<Op>)
    requires Paged(m) && |m| < WORD && r.root % PAGE == 0 && forall op | op in ops :: Formed(op)
    decreases |ops|
  {
    ops != [] ==>
      var p := PlainStep(m, r, ops[0]);
      PlainShaped(m, r, ops[0]);
      (IsAccess(ops[0]) || ops[0].Flush?) && Allowed(m, r, ops[0]) && Orderly(p.0, p.1, ops[1..])
  }

  lemma SameRegs(m: seq<Byte>, r: Regs, op: Op)
    requires Paged(m) && |m| < WORD && r.root % PAGE == 0 && Formed(op) && (IsAccess(op) || op.Flush?)
    ensures PlainStep(m, r, op).1 == r
  {
    hide Translate, MemAfter;
  }

  lemma {:induction false} OrderlyDisciplined(m: seq<Byte>, r: Regs, ops: seq<Op>)
    requires Paged(m) && |m| < WORD && r.root % PAGE == 0 && forall op | op in ops :: Formed(op)
    requires Orderly(m, r, ops) && Uniform(r)
    ensures Disciplined(m, r, ops)
    decreases |ops|
  {
    hide PlainStep, Allowed, Uniform;
    if ops != [] {
      PlainShaped(m, r, ops[0]);
      SameRegs(m, r, ops[0]);
      OrderlyDisciplined(PlainStep(m, r, ops[0]).0, r, ops[1..]);
    }
  }

  /** The machine as the mmu_t constructor leaves it. */
  function Start(m: seq<Byte>, r: Regs): Port {
    Port(m, r, Tlb(Untagged(), Untagged(), Untagged(), seq(ENTRIES, i => 0)))
  }

  ghost predicate Possible(m: seq<Byte>, r: Regs, ops: seq<Op>) {
    Paged(m) && |m| < WORD && r.root % PAGE == 0 && (forall op | op in ops :: Formed(op)) && Orderly(m, r, ops)
  }

  ghost predicate Same(m: seq<Byte>, r: Regs, ops: seq<Op>)
    requires Possible(m, r, ops)
  {
    FastRun(Start(m, r), ops) == PlainRun(m, r, ops)
  }

  const PROBE: seq<Op> := [FetchOp(0), LoadOp(0, 1, false), FetchOp(0)]

  lemma ProbePossible(m: seq<Byte>, r: Regs)
    requires Paged(m) && |m| < WORD && r.root % PAGE == 0
    ensures Possible(m, r, PROBE)
  {
    hide Translate, MemAfter;
    var p0 := PlainStep(m, r, PROBE[0]);
    var p1 := PlainStep(p0.0, r, PROBE[1]);
    assert PROBE[1..] == [LoadOp(0, 1, false), FetchOp(0)] && PROBE[1..][1..] == [FetchOp(0)];
    assert Orderly(p1.0, r, [FetchOp(0)]);
    assert Orderly(p0.0, r, PROBE[1..]);
  }

  lemma TranslateAfter(m: seq<Byte>, r: Regs, access: Access, access': Access)
    requires Paged(m) && r.root % PAGE == 0
    ensures Translate(MemAfter(m, r, access, 0), r, access', 0) == Translate(m, r, access', 0)
  {
    hide Translate, PageFor;
    WalkKeeps(m, r, access, 0, access', 0);
    TranslateByPage(m, r, access', 0);
    TranslateByPage(MemAfter(m, r, access, 0), r, access', 0);
  }

  /** The load of page 0 redirects its fetch tag. */
  lemma ProbeFast(m: seq<Byte>, r: Regs, f: nat, l: nat)
    requires Paged(m) && |m| < WORD && r.root % PAGE == 0
    requires f == Translate(m, r, Fetch, 0) < |m| && l == Translate(m, r, Load, 0) < |m|
    ensures var o := FastRun(Start(m, r), PROBE); |o| == 3 && o[2] == At(l)
  {
    hide Translate, MemAfter, Refill, FastRun, Tags, Start;
    var m1 := MemAfter(m, r, Fetch, 0);
    TranslateAfter(m, r, Fetch, Load);
    var s0 := Start(m, r);
    StartMisses(m, r);
    var t1 := Refill(s0.tlb, 0, f, Fetch);
    RefillTags(s0.tlb, 0, f, Fetch, Fetch, 0);
    RefillTags(s0.tlb, 0, f, Fetch, Load, 0);
    var t2 := Refill(t1, 0, l, Load);
    RefillTags(t1, 0, l, Load, Fetch, 0);
    var s1 := Port(m1, r, t1);
    var s2 := Port(MemAfter(m1, r, Load, 0), r, t2);
    assert FastStep(s0, FetchOp(0)).0 == s1;
    assert FastStep(s1, LoadOp(0, 1, false)).0 == s2;
    FastOutcomes(s0, s1, s2);
  }

  lemma StartMisses(m: seq<Byte>, r: Regs)
    ensures var s := Start(m, r); s.mem == m && s.regs == r && WellSized(s.tlb) && forall a: Access :: Tags(s.tlb, a)[0] == NOTAG
  {
  }

  lemma ProbePlain(m: seq<Byte>, r: Regs, f: nat)
    requires Paged(m) && |m| < WORD && r.root % PAGE == 0 && f == Translate(m, r, Fetch, 0) < |m|
    ensures var o := PlainRun(m, r, PROBE); |o| == 3 && o[2] == At(f)
  {
    hide Translate, MemAfter, PlainRun;
    var m1 := MemAfter(m, r, Fetch, 0);
    var m2 := MemAfter(m1, r, Load, 0);
    TranslateAfter(m, r, Fetch, Fetch);
    TranslateAfter(m1, r, Load, Fetch);
    PlainOutcomes(m, m1, m2, r);
  }

  /** Where a page has one address for fetches and another for loads, a load between
      two fetches changes where the second one reads. */
  lemma SharedSlotShows(m: seq<Byte>, r: Regs, f: nat, l: nat)
    requires Paged(m) && |m| < WORD && r.root % PAGE == 0
    requires f == Translate(m, r, Fetch, 0) && l == Translate(m, r, Load, 0)
    requires f < |m| && l < |m| && f != l
    ensures Possible(m, r, PROBE) && !Same(m, r, PROBE)
  {
    hide Translate, FastRun, PlainRun, Start, Possible;
    ProbePossible(m, r);
    ProbeFast(m, r, f, l);
    ProbePlain(m, r, f);
  }

  lemma FastOutcomes(s0: Port, s1: Port, s2: Port)
    requires Shaped(s0) && Shaped(s1) && Shaped(s2)
    requires s1 == FastStep(s0, FetchOp(0)).0 && s2 == FastStep(s1, LoadOp(0, 1, false)).0
    ensures var o := FastRun(s0, PROBE); |o| == 3 && o[2] == FastStep(s2, FetchOp(0)).1
  {
    hide FastStep;
    assert PROBE[1..] == [LoadOp(0, 1, false), FetchOp(0)] && PROBE[1..][1..] == [FetchOp(0)];
    assert FastRun(s2, [FetchOp(0)])[0] == FastStep(s2, FetchOp(0)).1;
    assert FastRun(s1, PROBE[1..])[1] == FastRun(s2, [FetchOp(0)])[0];
  }

  lemma PlainOutcomes(m0: seq<Byte>, m1: seq<Byte>, m2: seq<Byte>, r: Regs)
    requires Paged(m0) && |m0| < WORD && Paged(m1) && |m1| < WORD && Paged(m2) && |m2| < WORD && r.root % PAGE == 0
    requires PlainStep(m0, r, FetchOp(0)).0 == m1 && PlainStep(m1, r, LoadOp(0, 1, false)).0 == m2
    ensures var o := PlainRun(m0, r, PROBE); |o| == 3 && o[2] == PlainStep(m2, r, FetchOp(0)).2
  {
    hide PlainStep;
    SameRegs(m0, r, FetchOp(0));
    SameRegs(m1, r, LoadOp(0, 1, false));
    assert PROBE[1..] == [LoadOp(0, 1, false), FetchOp(0)] && PROBE[1..][1..] == [FetchOp(0)];
    assert PlainRun(m2, r, [FetchOp(0)])[0] == PlainStep(m2, r, FetchOp(0)).2;
    assert PlainRun(m1, r, PROBE[1..])[1] == PlainRun(m2, r, [FetchOp(0)])[0];
  }

  /** Two pages whose first bytes are a superpage leaf mapping page 0 to page 1. */
  function Mapped(): (m: seq<Byte>)
    ensures |m| == 2 * PAGE && m[0] == 0x0F && m[1] == 0x04 && forall i | 2 <= i < |m| :: m[i] == 0
  {
    seq(2 * PAGE, i => if i == 0 then 0x0F else if i == 1 then 0x04 else 0)
  }

  lemma {:induction false} ZeroTail(m: seq<Byte>, a: nat, n: nat)
    requires a + n <= |m| && forall i | a <= i < a + n :: m[i] == 0
    ensures Le(m, a, n) == 0
    decreases n
  {
    if n > 0 {
      ZeroTail(m, a + 1, n - 1);
    }
  }

  lemma MappedEntry(s: Scheme)
    ensures Le(Mapped(), 0, PteSize(s)) == 0x40F
  {
    var m, n := Mapped(), PteSize(s);
    ZeroTail(m, 2, n - 2);
    assert Le(m, 1, n - 1) == m[1] + 256 * Le(m, 2, n - 2);
  }

  lemma EntryMeans(supervisor: bool, access: Access)
    ensures !IsTable(0x40F) && Permits(0x40F, supervisor, access)
  {
    assert Pow2(8) == 256;
    Pow2Add(8, 7);
    assert Pow2(7) == 128;
    assert Pow2(15) == 32768;
  }

  lemma ZeroIndex(s: Scheme, level: nat)
    requires level > 0
    ensures Slot(s, 0, 0, level) == 0
  {
    hide Pow2;
    ZeroParts(Pow2(Shift(s, level)), Pow2(IndexBits(s)));
    assert Index(s, 0, level) == 0;
  }

  lemma ZeroCanonical(s: Scheme)
    ensures Canonical(s, 0)
  {
    hide Pow2;
    match s
    case Sv32 => ZeroParts(Pow2(19), 2);
    case Sv39 => ZeroParts(Pow2(26), Pow2(26));
    case Sv48 => ZeroParts(Pow2(35), Pow2(17));
  }

  lemma ZeroParts(p: nat, q: nat)
    requires p > 0 && q > 0
    ensures 0 / p % q == 0
  {
  }

  lemma MappedWalk(s: Scheme, level: nat, supervisor: bool, access: Access)
    requires level > 0
    ensures WalkFrom(Mapped(), s, 0, 0, level, supervisor, access) == Leaf(0, 1, Shift(s, level))
  {
    hide Pow2, Slot, Canonical, IsTable, Permits, Le, Mapped;
    var m := Mapped();
    MappedEntry(s);
    EntryMeans(supervisor, access);
    ZeroIndex(s, level);
    EntryFits(m, s, 0, 0, level);
  }

  lemma MappedLookup(r: Regs, access: Access)
    requires r.root == 0 && r.vm.Paging? && ModeFor(r, access) != Machine
    ensures Translate(Mapped(), r, access, 0) == PAGE
  {
    hide Pow2, WalkFrom, Canonical, Mapped;
    var s := r.vm.scheme;
    MappedWalk(s, Levels(s), ModeFor(r, access) != User, access);
    ZeroCanonical(s);
    ZeroParts(1, Pow2(Shift(s, Levels(s))));
  }

  lemma UniformSame(m: seq<Byte>, r: Regs, ops: seq<Op>)
    requires Possible(m, r, ops) && Uniform(r)
    ensures Same(m, r, ops)
  {
    hide Uniform, Coherent, Orderly, Disciplined;
    OrderlyDisciplined(m, r, ops);
    var s := Start(m, r);
    assert s.tlb == Flushed(s.tlb);
    EmptyCoherent(s);
    RunRefines(s, ops);
  }

  lemma NotUniformDiffers(r: Regs)
    requires !Uniform(r)
    ensures var r' := r.(root := 0); Possible(Mapped(), r', PROBE) && !Same(Mapped(), r', PROBE)
  {
    hide Translate, FastRun, PlainRun, Mapped;
    var r', m := r.(root := 0), Mapped();
    Separated(r');
    ProbePossible(m, r');
    SharedSlotShows(m, r', Translate(m, r', Fetch, 0), Translate(m, r', Load, 0));
  }

  /** The TLB cannot be told from walking on every access, whatever memory and root
      pointer, exactly when fetches and data accesses both bypass translation or both
      use it. */
  lemma UniformExactly(r: Regs)
    ensures Uniform(r) <==>
            forall m: seq<Byte>, root: nat, ops: seq<Op> | Possible(m, r.(root := root), ops) :: Same(m, r.(root := root), ops)
  {
    hide Possible, Same, Uniform;
    if Uniform(r) {
      forall m: seq<Byte>, root: nat, ops: seq<Op> | Possible(m, r.(root := root), ops) ensures Same(m, r.(root := root), ops) {
        RootFree(r, root);
        UniformSame(m, r.(root := root), ops);
      }
    } else {
      NotUniformDiffers(r);
    }
  }

  lemma RootFree(r: Regs, root: nat)
    ensures Uniform(r.(root := root)) == Uniform(r)
  {
  }

  lemma Separated(r: Regs)
    requires !Uniform(r) && r.root == 0
    ensures Translate(Mapped(), r, Fetch, 0) < 2 * PAGE && Translate(Mapped(), r, Load, 0) < 2 * PAGE
    ensures Translate(Mapped(), r, Fetch, 0) != Translate(Mapped(), r, Load, 0)
  {
    hide Lookup, Mapped;
    if ModeFor(r, Fetch) == Machine {
      MappedLookup(r, Load);
    } else {
      MappedLookup(r, Fetch);
    }
  }
}
